/** The sample store itself: ring buffers updated in place, one per watched value beside the ring of tick times. */
module SampleStore {
  import opened Bytes
  import opened Common
  import opened Frame
  import opened History

  class Samples {
    const times: array<Bits>
    var columns: map<Id, array<Bits>>
    var head: Index
    var len: nat
    var latestTime: Bits
    var version: nat
    /** Which value each ring belongs to, so that no two values share one. */
    ghost var owner: map<array<Bits>, Id>

    /** Every ring has its own buffer of the full capacity. */
    ghost predicate Valid()
      reads this`columns, this`owner, this`len
    {
      times.Length == CAPACITY && len <= CAPACITY && Rings()
    }

    ghost predicate Rings()
      reads this`columns, this`owner
    {
      forall id :: id in columns ==>
        && columns[id].Length == CAPACITY && columns[id] != times
        && columns[id] in owner && owner[columns[id]] == id
    }

    ghost function Columns(): (c: map<Id, Cells>)
      requires Rings()
      reads this`columns, this`owner, columns.Values
      ensures c.Keys == columns.Keys
    {
      map id | id in columns :: columns[id][..]
    }

    ghost function Contents(): (s: Store)
      requires Valid()
      reads this, times, columns.Values
      ensures s.len <= CAPACITY
    {
      Store(times[..], Columns(), head, len)
    }

    constructor ()
      ensures Valid() && fresh(times) && columns == map[] && Represents(Contents(), [])
    {
      times := new Bits[CAPACITY](_ => 0);
      columns, owner, head, len, latestTime, version := map[], map[], 0, 0, 0, 0;
      new;
      assert forall id: Id :: Visible(Contents(), id) == [];
    }

    /** Write `vals` into a ring from `start` on, row by row, round its end. */
    static method WriteRing(a: array<Bits>, start: Index, vals: seq<Bits>)
      requires a.Length == CAPACITY
      modifies a
      ensures a[..] == Written(old(a[..]), start, vals)
    {
      ghost var before: Cells := a[..];
      assert Written(before, start, vals[..0]) == before;
      for i := 0 to |vals|
        invariant a[..] == Written(before, start, vals[..i])
      {
        WriteOne(before, start, vals, i);
        a[(start + i) % CAPACITY] := vals[i];
      }
      assert vals[..|vals|] == vals;
    }

    /** Write one column's rows, allocating a ring full of NaN for an id not seen before. */
    method WriteColumn(id: Id, vals: seq<Bits>)
      requires Valid()
      modifies this`columns, this`owner, columns.Values
      ensures Valid() && fresh(columns.Values - old(columns.Values))
      ensures Columns() ==
              old(Columns())[
                id := Written(if id in old(columns) then old(Columns())[id] else Nans(CAPACITY), head, vals)]
    {
      if id !in columns {
        var c := new Bits[CAPACITY](_ => NAN);
        columns, owner := columns[id := c], owner[c := id];
        assert c[..] == Nans(CAPACITY);
      }
      WriteRing(columns[id], head, vals);
    }

    /** Drop a value's ring. */
    method Forget(id: Id)
      requires Valid()
      modifies this`columns
      ensures Valid() && columns == old(columns) - {id}
      ensures Contents() == old(Contents()).(columns := old(Columns()) - {id})
    {
      columns := columns - {id};
      assert Columns() == old(Columns()) - {id};
    }

    /** Start over for another session, whose times begin again. */
    method Clear()
      requires Valid()
      modifies this
      ensures Valid() && columns == map[] && Represents(Contents(), [])
      ensures latestTime == 0 && version == old(version) + 1
    {
      columns, head, len, latestTime, version := map[], 0, 0, 0, version + 1;
      assert forall id: Id :: Visible(Contents(), id) == [];
    }

    /** Write the column after the `c` columns already written. */
    method WriteNext(col: Column, seen: set<Id>, ghost before: map<Id, Cells>, ghost cols: seq<Column>, ghost c: nat)
      returns (now: set<Id>)
      requires Valid() && c < |cols| && col == cols[c]
      requires seen == Seen(cols, c) && Columns() == Placed(before, head, cols, c)
      modifies this`columns, this`owner, columns.Values
      ensures Valid() && fresh(columns.Values - old(columns.Values))
      ensures now == Seen(cols, c + 1) && Columns() == Placed(before, head, cols, c + 1)
    {
      WriteColumn(col.id, col.values);
      now := seen + {col.id};
    }

    /** Read the next column and write it, unless the bytes end before it does. */
    method WriteFrom(
        buf: seq<byte>, ghost start: nat, at: nat, n: nat, ghost count: nat, seen: set<Id>,
        ghost before: map<Id, Cells>, ghost cols: seq<Column>, ghost c: nat)
      returns (found: bool, now: set<Id>)
      requires Valid() && Stands(buf, start, n, count, cols) && c <= |cols| && c < count
      requires at == ColumnStart(start, n, c)
      requires seen == Seen(cols, c) && Columns() == Placed(before, head, cols, c)
      modifies this`columns, this`owner, columns.Values
      ensures Valid() && fresh(columns.Values - old(columns.Values))
      ensures found ==> c < |cols| && now == Seen(cols, c + 1) && Columns() == Placed(before, head, cols, c + 1)
      ensures !found ==> c == |cols| && now == seen && Columns() == old(Columns())
    {
      var col := NextColumn(buf, start, at, n, count, cols, c);
      if col.None? {
        return false, seen;
      }
      found := true;
      now := WriteNext(col.value, seen, before, cols, c);
    }

    /**
     Write the columns of a frame whose columns start at byte `start`, up to the first that cannot be read; `seen`
     collects their ids.
     */
    method WriteColumns(buf: seq<byte>, start: nat, n: nat, count: nat, ghost cols: seq<Column>)
      returns (seen: set<Id>, complete: bool)
      requires Valid() && Stands(buf, start, n, count, cols)
      modifies this`columns, this`owner, columns.Values
      ensures Valid() && fresh(columns.Values - old(columns.Values))
      ensures complete == (|cols| == count)
      ensures seen == Seen(cols, |cols|) && Columns() == Placed(old(Columns()), head, cols, |cols|)
    {
      ghost var before := Columns();
      var at: nat := start;
      seen := {};
      for c := 0 to count
        invariant Valid() && fresh(columns.Values - old(columns.Values))
        invariant c <= |cols| && at == ColumnStart(start, n, c)
        invariant seen == Seen(cols, c) && Columns() == Placed(before, head, cols, c)
      {
        var found;
        found, seen := WriteFrom(buf, start, at, n, count, seen, before, cols, c);
        if !found {
          return seen, false;
        }
        at := at + 8 + 8 * n;
      }
      complete := true;
    }

    /** Read the column at byte `at`, the one behind `c` others; none when the bytes end before it does. */
    static method NextColumn(
        buf: seq<byte>, ghost start: nat, at: nat, n: nat, ghost count: nat, ghost cols: seq<Column>, ghost c: nat)
      returns (col: Option<Column>)
      requires Stands(buf, start, n, count, cols) && c <= |cols| && c < count && at == ColumnStart(start, n, c)
      ensures col == if c < |cols| then Some(cols[c]) else None
    {
      StandsAt(buf, start, n, count, cols, c);
      col := ColumnAt(buf, at, n);
    }

    /** Give the rings outside `seen` no reading for the frame's rows. */
    method FillOthers(seen: set<Id>, n: nat)
      requires Valid()
      modifies columns.Values
      ensures Valid() && Columns() == Filled(old(Columns()), seen, head, n)
    {
      ghost var before := Columns();
      var todo := columns.Keys;
      while todo != {}
        invariant todo <= columns.Keys && Columns() == Filled(before, seen + todo, head, n)
        decreases todo
      {
        var id :| id in todo;
        FilledNext(before, seen, todo, id, head, n);
        todo := todo - {id};
        ghost var was := Columns();
        if id !in seen {
          WriteRing(columns[id], head, Nans(n));
          assert Columns() == was[id := Written(was[id], head, Nans(n))];
        }
      }
      assert seen + todo == seen;
    }

    method WriteTimes(frameTimes: seq<Bits>)
      requires Valid()
      modifies times
      ensures times[..] == Written(old(times[..]), head, frameTimes) && Columns() == old(Columns())
    {
      WriteRing(times, head, frameTimes);
    }

    /** Write the rows of a frame's columns through the rings of every value, in the frame or not. */
    method WriteValues(buf: seq<byte>, count: nat, frameTimes: seq<Bits>) returns (complete: bool)
      requires Valid()
      modifies this`columns, this`owner, columns.Values
      ensures Valid() && fresh(columns.Values - old(columns.Values))
      ensures complete == (|ColumnsOf(buf, |frameTimes|, count)| == count)
      ensures Columns() == if complete then FrameColumns(old(Columns()), head, FrameOf(buf, frameTimes, count))
                           else Merged(old(Columns()), head, ColumnsOf(buf, |frameTimes|, count), |frameTimes|)
    {
      ghost var before := Columns();
      var seen;
      ReadableStands(buf, 16 + 8 * |frameTimes|, |frameTimes|, count);
      seen, complete := WriteColumns(buf, 16 + 8 * |frameTimes|, |frameTimes|, count,
                                     ColumnsOf(buf, |frameTimes|, count));
      PlacedIsMerged(before, head, ColumnsOf(buf, |frameTimes|, count), |frameTimes|);
      if complete {
        FillOthers(seen, |frameTimes|);
        MergedThenFilled(before, head, FrameOf(buf, frameTimes, count));
      }
    }

    /** Count the rows of a frame in, once every ring holds them. */
    method Advance(frameTimes: seq<Bits>)
      requires Valid()
      modifies this`head, this`len, this`latestTime, this`version
      ensures Valid() && times[..] == old(times[..]) && Columns() == old(Columns())
      ensures head == (old(head) + |frameTimes|) % CAPACITY && len == Min(CAPACITY, old(len) + |frameTimes|)
      ensures latestTime == if frameTimes == [] then old(latestTime) else frameTimes[|frameTimes| - 1]
      ensures version == old(version) + 1
    {
      var n := |frameTimes|;
      head, len, version := (head + n) % CAPACITY, Min(CAPACITY, len + n), version + 1;
      if n > 0 {
        latestTime := frameTimes[n - 1];
      }
    }

    /** Write the rows of a frame; when a column is missing, the rings are written but not moved on. */
    method AppendRows(buf: seq<byte>, frameTimes: seq<Bits>, count: nat) returns (thrown: bool)
      requires Valid()
      modifies this, times, columns.Values
      ensures Valid() && fresh(columns.Values - old(columns.Values))
      ensures thrown == (|ColumnsOf(buf, |frameTimes|, count)| != count)
      ensures Contents() == if thrown then CutShort(old(Contents()), frameTimes, ColumnsOf(buf, |frameTimes|, count))
                            else AfterFrame(old(Contents()), FrameOf(buf, frameTimes, count))
      ensures version == old(version) + if thrown then 0 else 1
      ensures latestTime == if thrown || frameTimes == [] then old(latestTime) else frameTimes[|frameTimes| - 1]
    {
      WriteTimes(frameTimes);
      var complete := WriteValues(buf, count, frameTimes);
      if complete {
        Advance(frameTimes);
      }
      thrown := !complete;
    }

    /** Write a frame with `n` ticks and `count` columns into the store; one that is cut short throws part-way. */
    method Append(buf: seq<byte>, n: nat, count: nat) returns (thrown: bool)
      requires Valid()
      modifies this, times, columns.Values
      ensures Valid() && fresh(columns.Values - old(columns.Values))
      ensures thrown == (CellsAt(buf, 16, n).None? || |ColumnsOf(buf, n, count)| != count)
      ensures Contents() == Appended(old(Contents()), buf, n, count)
      ensures version == old(version) + if thrown then 0 else 1
      ensures latestTime == if thrown || n == 0 then old(latestTime) else CellsAt(buf, 16, n).value[n - 1]
    {
      if CellsAt(buf, 16, n).None? {
        return true;
      }
      thrown := AppendRows(buf, CellsAt(buf, 16, n).value, count);
    }

    /**
     Add a frame's rows; anything but a sample frame changes nothing. A frame cut short throws: before its times can be
     read nothing changes, afterwards the rings have been written but not moved on.
     */
    method Ingest(buf: seq<byte>) returns (thrown: bool)
      requires Valid()
      modifies this, times, columns.Values
      ensures Valid() && fresh(columns.Values - old(columns.Values))
      ensures thrown == Throws(buf)
      ensures Contents() == Ingested(old(Contents()), buf)
      ensures Decode(buf).None? ==> latestTime == old(latestTime) && version == old(version)
      ensures Decode(buf).Some? ==>
                var f := Decode(buf).value;
                && Contents() == AfterFrame(old(Contents()), f) && version == old(version) + 1
                && latestTime == (if f.times == [] then old(latestTime) else f.times[|f.times| - 1])
    {
      IngestedIs(Contents(), buf);
      if |buf| < 16 {
        return true;
      }
      if U32At(buf, 0).value != MAGIC {
        return false;
      }
      WholeFrame(buf, U32At(buf, 4).value, U32At(buf, 8).value);
      thrown := Append(buf, U32At(buf, 4).value, U32At(buf, 8).value);
    }
  }

  // ----- what ingesting does to the store as a value -----

  /** A buffer without a header, or a sample frame that is cut short. */
  predicate Throws(buf: seq<byte>) {
    |buf| < 16 || (U32At(buf, 0) == Some(MAGIC) && Decode(buf).None?)
  }

  /** The columns of a frame with `n` ticks, as far as they can be read. */
  function ColumnsOf(buf: seq<byte>, n: nat, count: nat): (cols: seq<Column>)
    ensures |cols| <= count && Rectangular(cols, n)
  {
    Readable(buf, 16 + 8 * n, n, count)
  }

  function FrameOf(buf: seq<byte>, frameTimes: seq<Bits>, count: nat): (f: Decoded)
    ensures f.times == frameTimes && Rectangular(f.columns, |frameTimes|)
  {
    Decoded(frameTimes, ColumnsOf(buf, |frameTimes|, count))
  }

  /** The store once times and the columns `cols` were written and the next column could not be read. */
  function CutShort(s: Store, frameTimes: seq<Bits>, cols: seq<Column>): Store
    requires Rectangular(cols, |frameTimes|)
  {
    Store(Written(s.times, s.head, frameTimes), Merged(s.columns, s.head, cols, |frameTimes|), s.head, s.len)
  }

  /** The store after a frame with `n` ticks and `count` columns. */
  function Appended(s: Store, buf: seq<byte>, n: nat, count: nat): Store {
    if CellsAt(buf, 16, n).None? then s
    else
      var frameTimes := CellsAt(buf, 16, n).value;
      if |ColumnsOf(buf, n, count)| == count then AfterFrame(s, FrameOf(buf, frameTimes, count))
      else CutShort(s, frameTimes, ColumnsOf(buf, n, count))
  }

  function Ingested(s: Store, buf: seq<byte>): Store {
    if |buf| < 16 || U32At(buf, 0) != Some(MAGIC) then s
    else Appended(s, buf, U32At(buf, 4).value, U32At(buf, 8).value)
  }

  /** A frame decodes when its times and all of its columns can be read. */
  lemma WholeFrame(buf: seq<byte>, n: nat, count: nat)
    requires |buf| >= 16 && U32At(buf, 0) == Some(MAGIC) && U32At(buf, 4) == Some(n) && U32At(buf, 8) == Some(count)
    ensures Decode(buf) == if CellsAt(buf, 16, n).None? || |ColumnsOf(buf, n, count)| != count then None
                           else Some(FrameOf(buf, CellsAt(buf, 16, n).value, count))
  {
    ReadableColumns(buf, 16 + 8 * n, n, count);
  }

  lemma NotAFrame(buf: seq<byte>)
    requires |buf| < 16 || U32At(buf, 0) != Some(MAGIC)
    ensures Decode(buf).None?
  {
    if |buf| >= 12 && |buf| < 16 {
      ShortCells(buf, 16, U32At(buf, 4).value);
    }
  }

  /** Whole frames are appended; other traffic changes nothing. */
  lemma IngestedIs(s: Store, buf: seq<byte>)
    ensures Decode(buf).Some? ==> !Throws(buf) && Ingested(s, buf) == AfterFrame(s, Decode(buf).value)
    ensures Decode(buf).None? && !Throws(buf) ==> Ingested(s, buf) == s
  {
    if |buf| >= 16 && U32At(buf, 0) == Some(MAGIC) {
      WholeFrame(buf, U32At(buf, 4).value, U32At(buf, 8).value);
    } else {
      NotAFrame(buf);
    }
  }

  lemma {:induction false} ShortCells(buf: seq<byte>, at: nat, n: nat)
    requires |buf| < at
    ensures CellsAt(buf, at, n).None?
  {
  }

  /** What row `k` of a ring reads once `vals` was written from its head on, before the head moves. */
  lemma RowUnderWrite(a: Cells, head: Index, len: nat, vals: seq<Bits>, k: nat)
    requires k < len <= CAPACITY
    ensures View(Written(a, head, vals), head, len)[k] ==
            if CAPACITY - len + k < |vals| then vals[LastWrite(CAPACITY - len + k, |vals|)] else View(a, head, len)[k]
  {
    assert Distance(head, Slot(head, len, k)) == CAPACITY - len + k;
  }

  /** As long as the ring has room for the rows, writing them leaves the visible ones alone. */
  lemma RoomKeepsView(a: Cells, head: Index, len: nat, vals: seq<Bits>)
    requires len <= CAPACITY && (len == 0 || len + |vals| <= CAPACITY)
    ensures View(Written(a, head, vals), head, len) == View(a, head, len)
  {
    forall k | 0 <= k < len ensures View(Written(a, head, vals), head, len)[k] == View(a, head, len)[k] {
      RowUnderWrite(a, head, len, vals, k);
    }
  }

  /** What the scope sees is the same in both. */
  ghost predicate SameView(s: Store, t: Store)
    requires s.len <= CAPACITY
  {
    && t.head == s.head && t.len == s.len && View(t.times, s.head, s.len) == View(s.times, s.head, s.len)
    && forall id: Id :: Visible(t, id) == Visible(s, id)
  }

  lemma CutShortKeepsView(s: Store, frameTimes: seq<Bits>, cols: seq<Column>)
    requires Rectangular(cols, |frameTimes|) && s.len <= CAPACITY
    requires s.len == 0 || s.len + |frameTimes| <= CAPACITY
    ensures SameView(s, CutShort(s, frameTimes, cols))
  {
    var t := CutShort(s, frameTimes, cols);
    RoomKeepsView(s.times, s.head, s.len, frameTimes);
    forall id: Id ensures Visible(t, id) == Visible(s, id) {
      ViewOfBase(s, id);
      if id in IdsOf(cols) {
        RoomKeepsView(Base(s.columns, id), s.head, s.len, ValuesFor(cols, id, |frameTimes|));
      }
    }
  }

  /** The rows a frame that throws has written by then. */
  function RowsBegun(buf: seq<byte>): nat {
    if |buf| < 16 || U32At(buf, 0) != Some(MAGIC) || CellsAt(buf, 16, U32At(buf, 4).value).None? then 0
    else U32At(buf, 4).value
  }

  /** A frame cut short that there was room for leaves what the scope sees as it was. */
  lemma ThrownKeepsView(s: Store, buf: seq<byte>)
    requires Throws(buf) && s.len <= CAPACITY
    requires s.len == 0 || s.len + RowsBegun(buf) <= CAPACITY
    ensures SameView(s, Ingested(s, buf))
  {
    if |buf| >= 16 {
      var n: nat, count: nat := U32At(buf, 4).value, U32At(buf, 8).value;
      WholeFrame(buf, n, count);
      if CellsAt(buf, 16, n).Some? {
        CutShortKeepsView(s, CellsAt(buf, 16, n).value, ColumnsOf(buf, n, count));
      }
    }
  }

  lemma ThrownKeepsRows(s: Store, buf: seq<byte>, log: seq<Row>)
    requires Throws(buf) && Represents(s, log)
    requires s.len == 0 || s.len + RowsBegun(buf) <= CAPACITY
    ensures Represents(Ingested(s, buf), log)
  {
    ThrownKeepsView(s, buf);
  }

  /** A header that promises a column, the times, and no more: it throws once the times are written. */
  function Headless(frameTimes: seq<Bits>): seq<byte>
    requires |frameTimes| < 0x1_0000_0000
  {
    HeaderBytes(|frameTimes|, 1) + CellBytes(frameTimes)
  }

  lemma HeadlessThrows(s: Store, frameTimes: seq<Bits>)
    requires |frameTimes| < 0x1_0000_0000
    ensures Throws(Headless(frameTimes)) && RowsBegun(Headless(frameTimes)) == |frameTimes|
    ensures Ingested(s, Headless(frameTimes)) == CutShort(s, frameTimes, [])
  {
    var buf, n := Headless(frameTimes), |frameTimes|;
    ReadHeader(buf, n, 1, CellBytes(frameTimes));
    assert CellBytes(frameTimes) + [] == CellBytes(frameTimes);
    ReadCells(buf, 16, frameTimes, []);
    assert U32At(buf, 16 + 8 * n).None?;
    WholeFrame(buf, n, 1);
  }

  /** A frame of `n` rows can be cut short so that it changes the visible times, unless there is room for the rows. */
  lemma SomeThrownIsSeen(s: Store, n: nat) returns (buf: seq<byte>)
    requires 0 < s.len <= CAPACITY < s.len + n && n < 0x1_0000_0000
    ensures Throws(buf) && RowsBegun(buf) == n && !SameView(s, Ingested(s, buf))
  {
    var other: Bits := if View(s.times, s.head, s.len)[0] == 0 then 1 else 0;
    var frameTimes := Repeated(other, n);
    buf := Headless(frameTimes);
    HeadlessThrows(s, frameTimes);
    RowUnderWrite(s.times, s.head, s.len, frameTimes, 0);
    assert View(Written(s.times, s.head, frameTimes), s.head, s.len)[0] == other;
  }

  function Repeated(x: Bits, n: nat): (xs: seq<Bits>)
    ensures |xs| == n && forall k :: 0 <= k < n ==> xs[k] == x
  {
    seq<Bits>(n, k => x)
  }

  /**
   Every buffer that throws with `n` rows begun leaves what the scope sees alone, if and only if nothing is visible or
   there is room for the rows.
   */
  lemma CutShortIsHarmlessIff(s: Store, n: nat)
    requires s.len <= CAPACITY && n < 0x1_0000_0000
    ensures (forall buf :: Throws(buf) && RowsBegun(buf) == n ==> SameView(s, Ingested(s, buf))) <==>
            s.len == 0 || s.len + n <= CAPACITY
  {
    if s.len == 0 || s.len + n <= CAPACITY {
      forall buf | Throws(buf) && RowsBegun(buf) == n ensures SameView(s, Ingested(s, buf)) {
        ThrownKeepsView(s, buf);
      }
    } else {
      var buf := SomeThrownIsSeen(s, n);
      assert !SameView(s, Ingested(s, buf));
    }
  }

  // ----- rings written column by column -----

  /** The rings once the columns `cols` have gone through them, in order. */
  function Merged(before: map<Id, Cells>, head: Index, cols: seq<Column>, n: nat): map<Id, Cells>
    requires Rectangular(cols, n)
  {
    map id | id in before.Keys + IdsOf(cols) :: AfterColumns(before, head, cols, n, id)
  }

  function AfterColumns(before: map<Id, Cells>, head: Index, cols: seq<Column>, n: nat, id: Id): Cells
    requires Rectangular(cols, n)
  {
    if id in IdsOf(cols) then Written(Base(before, id), head, ValuesFor(cols, id, n)) else Base(before, id)
  }

  /** The same, column after column. */
  function Placed(before: map<Id, Cells>, head: Index, cols: seq<Column>, c: nat): map<Id, Cells>
    requires c <= |cols|
  {
    if c == 0 then before
    else
      var was, id := Placed(before, head, cols, c - 1), cols[c - 1].id;
      was[id := Written(Base(was, id), head, cols[c - 1].values)]
  }

  /** The ids of the first `c` columns. */
  function Seen(cols: seq<Column>, c: nat): set<Id>
    requires c <= |cols|
  {
    if c == 0 then {} else Seen(cols, c - 1) + {cols[c - 1].id}
  }

  lemma PlacedIsMerged(before: map<Id, Cells>, head: Index, cols: seq<Column>, n: nat)
    requires Rectangular(cols, n)
    ensures Placed(before, head, cols, |cols|) == Merged(before, head, cols, n) && Seen(cols, |cols|) == IdsOf(cols)
  {
    var placed := Placed(before, head, cols, |cols|);
    assert cols[..|cols|] == cols;
    SeenIsIds(cols, |cols|);
    forall id: Id
      ensures id in placed <==> id in before || id in IdsOf(cols)
      ensures id in placed ==> placed[id] == AfterColumns(before, head, cols, n, id)
    {
      PlacedAt(before, head, cols, |cols|, n, id);
    }
  }

  lemma {:induction false} SeenIsIds(cols: seq<Column>, c: nat)
    requires c <= |cols|
    ensures Seen(cols, c) == IdsOf(cols[..c])
  {
    if c > 0 {
      SeenIsIds(cols, c - 1);
      IdsOfNext(cols, c - 1);
    }
  }

  /** Where the ring of `id` stands after the first `c` columns. */
  lemma {:induction false} PlacedAt(before: map<Id, Cells>, head: Index, cols: seq<Column>, c: nat, n: nat, id: Id)
    requires c <= |cols| && Rectangular(cols, n)
    ensures id in Placed(before, head, cols, c) <==> id in before || id in Seen(cols, c)
    ensures Base(Placed(before, head, cols, c), id) == AfterColumns(before, head, cols[..c], n, id)
  {
    if c > 0 {
      PlacedAt(before, head, cols, c - 1, n, id);
      AfterNext(before, head, cols, c - 1, n, id);
    }
  }

  lemma IdsOfNext(cols: seq<Column>, c: nat)
    requires c < |cols|
    ensures IdsOf(cols[..c + 1]) == IdsOf(cols[..c]) + {cols[c].id}
  {
    var now := cols[..c + 1];
    assert now[c] == cols[c];
    forall id ensures id in IdsOf(now) <==> id in IdsOf(cols[..c]) + {cols[c].id} {
      if id in IdsOf(cols[..c]) {
        var k :| 0 <= k < c && cols[..c][k].id == id;
        assert now[k].id == id;
      }
      if id in IdsOf(now) {
        var k :| 0 <= k < c + 1 && now[k].id == id;
        assert k < c ==> cols[..c][k].id == id;
      }
    }
  }

  /** An id that comes twice in one frame keeps its later column. */
  lemma AfterNext(before: map<Id, Cells>, head: Index, cols: seq<Column>, c: nat, n: nat, id: Id)
    requires Rectangular(cols, n) && c < |cols|
    ensures AfterColumns(before, head, cols[..c + 1], n, id) ==
            if id == cols[c].id then Written(AfterColumns(before, head, cols[..c], n, id), head, cols[c].values)
            else AfterColumns(before, head, cols[..c], n, id)
  {
    IdsOfNext(cols, c);
    var now := cols[..c + 1];
    assert now[..|now| - 1] == cols[..c] && now[|now| - 1] == cols[c];
    if id == cols[c].id && id in IdsOf(cols[..c]) {
      WrittenTwice(Base(before, id), head, ValuesFor(cols[..c], id, n), cols[c].values);
    }
  }

  /** The rings outside `kept` with NaN written over the frame's rows. */
  function Filled(columns: map<Id, Cells>, kept: set<Id>, head: Index, n: nat): map<Id, Cells> {
    map id | id in columns :: if id in kept then columns[id] else Written(columns[id], head, Nans(n))
  }

  lemma FilledNext(columns: map<Id, Cells>, seen: set<Id>, todo: set<Id>, id: Id, head: Index, n: nat)
    requires id in todo && id in columns
    ensures var was := Filled(columns, seen + todo, head, n);
            Filled(columns, seen + (todo - {id}), head, n) ==
            if id in seen then was else was[id := Written(was[id], head, Nans(n))]
  {
  }

  /** Writing the frame's columns and then NaN through the other rings is what a frame does to each ring. */
  lemma MergedThenFilled(before: map<Id, Cells>, head: Index, f: Decoded)
    requires Rectangular(f.columns, |f.times|)
    ensures Filled(Merged(before, head, f.columns, |f.times|), IdsOf(f.columns), head, |f.times|) ==
            FrameColumns(before, head, f)
  {
    var columns := Filled(Merged(before, head, f.columns, |f.times|), IdsOf(f.columns), head, |f.times|);
    forall id | id in columns ensures columns[id] == FrameColumns(before, head, f)[id] {
      if id !in IdsOf(f.columns) {
        AbsentIsNan(f.columns, id, |f.times|);
      }
    }
  }
}
