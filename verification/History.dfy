/**
 Sample history for the scope: a ring of tick times and one ring of cells per watched value, aligned row for row,
 against a plain log of rows.
 */
module History {
  import opened Bytes
  import opened Common
  import opened Frame

  const CAPACITY := 131072

  /** What an absent reading holds. */
  const NAN: Bits := 0x7ff8_0000_0000_0000

  function Nans(n: nat): (s: seq<Bits>)
    ensures |s| == n && forall k :: 0 <= k < n ==> s[k] == NAN
  {
    seq<Bits>(n, k => NAN)
  }

  // ----- positions in the ring -----

  type Index = x: int | 0 <= x < CAPACITY

  /** A full ring's cells. */
  type Cells = s: seq<Bits> | |s| == CAPACITY witness Nans(CAPACITY)

  /** Where in the ring the row is that has `k` older ones. */
  function Slot(head: Index, len: nat, k: nat): Index
    requires k <= len <= CAPACITY
  {
    (head - len + k + CAPACITY) % CAPACITY
  }

  /** The logical rows of one ring, oldest first. */
  function View(a: Cells, head: Index, len: nat): (v: seq<Bits>)
    requires len <= CAPACITY
    ensures |v| == len
    ensures forall k :: 0 <= k < len ==> v[k] == a[Slot(head, len, k)]
  {
    seq<Bits>(len, k requires 0 <= k < len => a[Slot(head, len, k)])
  }

  /** The newest rows a ring can hold. */
  function Last<T>(s: seq<T>): (r: seq<T>)
    ensures |r| == Min(CAPACITY, |s|)
  {
    if |s| <= CAPACITY then s else s[|s| - CAPACITY..]
  }

  /** That is all of them up to 131072, then the newest 131072. */
  lemma LastIsNewest<T>(s: seq<T>, k: nat)
    ensures |Last(s)| == Min(131072, |s|)
    ensures k < |Last(s)| ==> Last(s)[|Last(s)| - 1 - k] == s[|s| - 1 - k]
  {
  }

  /** An absent reading is not a number by IEEE 754: all exponent bits set, and not an infinity. */
  lemma AbsentIsNaN()
    ensures NAN / 0x10_0000_0000_0000 % 0x800 == 0x7ff && NAN % 0x10_0000_0000_0000 != 0
  {
  }

  lemma LastOfLast<T>(a: seq<T>, b: seq<T>)
    ensures Last(Last(a) + b) == Last(a + b)
  {
  }

  // ----- writing a run of rows through the ring -----

  function Distance(start: Index, p: Index): Index {
    (p - start + CAPACITY) % CAPACITY
  }

  /** Of the writes `0..n`, the last one that lands `d` past the start. */
  function LastWrite(d: Index, n: nat): (k: nat)
    requires d < n
    ensures k < n && k % CAPACITY == d && n - k <= CAPACITY
  {
    d + CAPACITY * ((n - 1 - d) / CAPACITY)
  }

  /** The ring after writing `vals` from `start` on, wrapping as often as it takes. */
  function Written(a: Cells, start: Index, vals: seq<Bits>): (r: Cells)
    ensures forall p :: 0 <= p < CAPACITY ==>
              r[p] == var d := Distance(start, p); if d < |vals| then vals[LastWrite(d, |vals|)] else a[p]
  {
    seq<Bits>(CAPACITY, p requires 0 <= p < CAPACITY =>
      var d := Distance(start, p);
      if d < |vals| then vals[LastWrite(d, |vals|)] else a[p])
  }

  /** Writing the same rows again replaces what the first write left. */
  lemma WrittenTwice(a: Cells, start: Index, u: seq<Bits>, v: seq<Bits>)
    requires |u| == |v|
    ensures Written(Written(a, start, u), start, v) == Written(a, start, v)
  {
  }

  lemma LastWriteSteps(d: Index, i: nat)
    ensures LastWrite(i % CAPACITY, i + 1) == i
    ensures d < i && d != i % CAPACITY ==> LastWrite(d, i + 1) == LastWrite(d, i)
  {
  }

  lemma DistanceOf(start: Index, i: nat, p: Index)
    ensures Distance(start, (start + i) % CAPACITY) == i % CAPACITY
    ensures p != (start + i) % CAPACITY ==> Distance(start, p) != i % CAPACITY
  {
  }

  lemma WriteOne(a: Cells, start: Index, vals: seq<Bits>, i: nat)
    requires i < |vals|
    ensures Written(a, start, vals[..i])[(start + i) % CAPACITY := vals[i]] == Written(a, start, vals[..i + 1])
  {
    var q: Index := (start + i) % CAPACITY;
    var b, c := Written(a, start, vals[..i]), Written(a, start, vals[..i + 1]);
    forall p: Index ensures b[q := vals[i]][p] == c[p] {
      DistanceOf(start, i, p);
      LastWriteSteps(Distance(start, p), i);
    }
    assert forall p :: 0 <= p < CAPACITY ==> b[q := vals[i]][p] == c[p];
  }

  /** Ring indices may be shifted before or after wrapping. */
  lemma SlotAfter(head: Index, n: nat, shift: int)
    requires -CAPACITY <= shift && n + shift >= 0
    ensures ((head + n) % CAPACITY + shift + CAPACITY) % CAPACITY == (head + n + shift) % CAPACITY
  {
  }

  lemma LastWriteIs(q: nat, n: nat)
    requires q < n <= q + CAPACITY
    ensures q % CAPACITY < n && LastWrite(q % CAPACITY, n) == q
  {
  }

  lemma NewRow(head: Index, len: nat, n: nat, k: nat)
    requires len <= CAPACITY
    requires var total := Min(CAPACITY, len + n);
             k < total && k + (len + n - total) >= len
    ensures var total := Min(CAPACITY, len + n);
            var q := k + (len + n - total) - len;
            var d := Distance(head, Slot((head + n) % CAPACITY, total, k));
            d == q % CAPACITY && d < n && LastWrite(d, n) == q
  {
    var q := k + n - Min(CAPACITY, len + n);
    SlotAfter(head, n, k - Min(CAPACITY, len + n));
    DistanceOf(head, q, (head + q) % CAPACITY);
    LastWriteIs(q, n);
  }

  lemma OldRow(head: Index, len: nat, n: nat, k: nat)
    requires len <= CAPACITY
    requires var total := Min(CAPACITY, len + n);
             k < total && k + (len + n - total) < len
    ensures var total := Min(CAPACITY, len + n);
            var p := Slot((head + n) % CAPACITY, total, k);
            p == Slot(head, len, k + (len + n - total)) && Distance(head, p) >= n
  {
  }

  lemma RowOfWritten(a: Cells, head: Index, len: nat, vals: seq<Bits>, k: nat)
    requires len <= CAPACITY && k < Min(CAPACITY, len + |vals|)
    ensures var total := Min(CAPACITY, len + |vals|);
            var q := k + (len + |vals| - total);
            View(Written(a, head, vals), (head + |vals|) % CAPACITY, total)[k] ==
            if q >= len then vals[q - len] else View(a, head, len)[q]
  {
    var total := Min(CAPACITY, len + |vals|);
    if k + (len + |vals| - total) >= len {
      NewRow(head, len, |vals|, k);
    } else {
      OldRow(head, len, |vals|, k);
    }
  }

  lemma LastAt<T>(a: seq<T>, b: seq<T>, k: nat)
    requires k < Min(CAPACITY, |a| + |b|)
    ensures var q := k + (|a| + |b| - Min(CAPACITY, |a| + |b|));
            Last(a + b)[k] == if q >= |a| then b[q - |a|] else a[q]
  {
  }

  /** The rows written are the newest rows of the ring; what they push out is what is oldest. */
  lemma ViewOfWritten(a: Cells, head: Index, len: nat, vals: seq<Bits>)
    requires len <= CAPACITY
    ensures View(Written(a, head, vals), (head + |vals|) % CAPACITY, Min(CAPACITY, len + |vals|)) ==
            Last(View(a, head, len) + vals)
  {
    var total := Min(CAPACITY, len + |vals|);
    var left, right := View(Written(a, head, vals), (head + |vals|) % CAPACITY, total), Last(View(a, head, len) + vals);
    forall k | 0 <= k < total ensures left[k] == right[k] {
      RowOfWritten(a, head, len, vals, k);
      LastAt(View(a, head, len), vals, k);
    }
  }

  // ----- the log -----

  /** One tick: its time, and the readings it came with. */
  datatype Row = Row(time: Bits, cells: map<Id, Bits>)

  /** An id that was not in the tick's frame, or has been forgotten since, reads NaN. */
  function CellOf(row: Row, id: Id): Bits {
    if id in row.cells then row.cells[id] else NAN
  }

  function Times(log: seq<Row>): (t: seq<Bits>)
    ensures |t| == |log| && forall k :: 0 <= k < |log| ==> t[k] == log[k].time
  {
    seq<Bits>(|log|, k requires 0 <= k < |log| => log[k].time)
  }

  function Readings(log: seq<Row>, id: Id): (c: seq<Bits>)
    ensures |c| == |log| && forall k :: 0 <= k < |log| ==> c[k] == CellOf(log[k], id)
  {
    seq<Bits>(|log|, k requires 0 <= k < |log| => CellOf(log[k], id))
  }

  /** The values a frame brings for `id`: those of its last column with that id, or NaN. */
  function ValuesFor(cols: seq<Column>, id: Id, n: nat): (v: seq<Bits>)
    requires Rectangular(cols, n)
    ensures |v| == n
  {
    if cols == [] then Nans(n)
    else if cols[|cols| - 1].id == id then cols[|cols| - 1].values
    else ValuesFor(cols[..|cols| - 1], id, n)
  }

  function IdsOf(cols: seq<Column>): set<Id> {
    set k | 0 <= k < |cols| :: cols[k].id
  }

  lemma {:induction false} AbsentIsNan(cols: seq<Column>, id: Id, n: nat)
    requires Rectangular(cols, n) && id !in IdsOf(cols)
    ensures ValuesFor(cols, id, n) == Nans(n)
  {
    if cols != [] {
      var rest := cols[..|cols| - 1];
      assert forall k :: 0 <= k < |rest| ==> rest[k] == cols[k];
      assert cols[|cols| - 1].id in IdsOf(cols);
      AbsentIsNan(rest, id, n);
    }
  }

  /** The rows of a frame. */
  function RowsOf(f: Decoded): (rows: seq<Row>)
    requires Rectangular(f.columns, |f.times|)
    ensures |rows| == |f.times|
  {
    seq(|f.times|, k requires 0 <= k < |f.times| =>
      Row(f.times[k], map id | id in IdsOf(f.columns) :: ValuesFor(f.columns, id, |f.times|)[k]))
  }

  lemma RowsOfFrame(f: Decoded, id: Id)
    requires Rectangular(f.columns, |f.times|)
    ensures Times(RowsOf(f)) == f.times
    ensures Readings(RowsOf(f), id) == ValuesFor(f.columns, id, |f.times|)
  {
    if id !in IdsOf(f.columns) {
      AbsentIsNan(f.columns, id, |f.times|);
    }
  }

  lemma LogConcat(a: seq<Row>, b: seq<Row>, id: Id)
    ensures Times(a + b) == Times(a) + Times(b)
    ensures Readings(a + b, id) == Readings(a, id) + Readings(b, id)
  {
  }

  /** The log with every reading of `id` erased. */
  function Forgotten(log: seq<Row>, id: Id): (r: seq<Row>)
    ensures |r| == |log|
  {
    seq(|log|, k requires 0 <= k < |log| => Row(log[k].time, log[k].cells - {id}))
  }

  lemma ReadingsForgotten(log: seq<Row>, id: Id, other: Id)
    ensures Times(Forgotten(log, id)) == Times(log)
    ensures Readings(Forgotten(log, id), other) == if other == id then Nans(|log|) else Readings(log, other)
  {
  }

  // ----- the store as a value -----

  datatype Store = Store(times: Cells, columns: map<Id, Cells>, head: Index, len: nat)

  /** What the scope sees of `id`. */
  function Visible(s: Store, id: Id): (v: seq<Bits>)
    requires s.len <= CAPACITY
    ensures |v| == s.len
  {
    if id in s.columns then View(s.columns[id], s.head, s.len) else Nans(s.len)
  }

  /** The store holds exactly the newest rows of `log`. */
  ghost predicate Represents(s: Store, log: seq<Row>) {
    && s.len == Min(CAPACITY, |log|)
    && View(s.times, s.head, s.len) == Last(Times(log))
    && forall id: Id :: Visible(s, id) == Last(Readings(log, id))
  }

  /**
   The rings once a frame's columns are written: each moves on by the frame's rows, starting full of NaN for an id not
   seen before and reading NaN for an id the frame leaves out.
   */
  function FrameColumns(before: map<Id, Cells>, head: Index, f: Decoded): map<Id, Cells>
    requires Rectangular(f.columns, |f.times|)
  {
    map id | id in before.Keys + IdsOf(f.columns) ::
      Written(Base(before, id), head, ValuesFor(f.columns, id, |f.times|))
  }

  /** The store after a frame: times and every column, in the frame or not, move on together. */
  function AfterFrame(s: Store, f: Decoded): Store
    requires Rectangular(f.columns, |f.times|)
  {
    var n := |f.times|;
    Store(Written(s.times, s.head, f.times), FrameColumns(s.columns, s.head, f),
          (s.head + n) % CAPACITY, Min(CAPACITY, s.len + n))
  }

  lemma ViewOfNans(head: Index, len: nat)
    requires len <= CAPACITY
    ensures View(Nans(CAPACITY), head, len) == Nans(len)
  {
  }

  lemma LastOfNans(len: nat, n: nat)
    requires len <= CAPACITY
    ensures Last(Nans(len) + Nans(n)) == Nans(Min(CAPACITY, len + n))
  {
  }

  /** The ring a column starts from: its own, or a new one full of NaN. */
  function Base(columns: map<Id, Cells>, id: Id): Cells {
    if id in columns then columns[id] else Nans(CAPACITY)
  }

  lemma ViewOfBase(s: Store, id: Id)
    requires s.len <= CAPACITY
    ensures View(Base(s.columns, id), s.head, s.len) == Visible(s, id)
  {
    ViewOfNans(s.head, s.len);
  }

  lemma RingAfterFrame(s: Store, f: Decoded, id: Id)
    requires Rectangular(f.columns, |f.times|) && id in s.columns.Keys + IdsOf(f.columns)
    ensures var t := AfterFrame(s, f);
            && id in t.columns
            && t.columns[id] == Written(Base(s.columns, id), s.head, ValuesFor(f.columns, id, |f.times|))
  {
  }

  lemma VisibleOfWritten(t: Store, id: Id, ring: Cells, head: Index, len: nat, vals: seq<Bits>)
    requires len <= CAPACITY && id in t.columns && t.columns[id] == Written(ring, head, vals)
    requires t.head == (head + |vals|) % CAPACITY && t.len == Min(CAPACITY, len + |vals|)
    ensures Visible(t, id) == Last(View(ring, head, len) + vals)
  {
    ViewOfWritten(ring, head, len, vals);
  }

  lemma PresentAfterIngest(s: Store, f: Decoded, id: Id)
    requires Rectangular(f.columns, |f.times|) && s.len <= CAPACITY && id in s.columns.Keys + IdsOf(f.columns)
    ensures Visible(AfterFrame(s, f), id) == Last(Visible(s, id) + ValuesFor(f.columns, id, |f.times|))
  {
    RingAfterFrame(s, f, id);
    ViewOfBase(s, id);
    VisibleOfWritten(AfterFrame(s, f), id, Base(s.columns, id), s.head, s.len, ValuesFor(f.columns, id, |f.times|));
  }

  lemma AbsentAfterIngest(s: Store, f: Decoded, id: Id)
    requires Rectangular(f.columns, |f.times|) && s.len <= CAPACITY && id !in s.columns.Keys + IdsOf(f.columns)
    ensures Visible(AfterFrame(s, f), id) == Last(Visible(s, id) + ValuesFor(f.columns, id, |f.times|))
  {
    AbsentIsNan(f.columns, id, |f.times|);
    LastOfNans(s.len, |f.times|);
  }

  lemma VisibleAfterIngest(s: Store, f: Decoded, id: Id)
    requires Rectangular(f.columns, |f.times|) && s.len <= CAPACITY
    ensures Visible(AfterFrame(s, f), id) == Last(Visible(s, id) + ValuesFor(f.columns, id, |f.times|))
  {
    if id in s.columns.Keys + IdsOf(f.columns) {
      PresentAfterIngest(s, f, id);
    } else {
      AbsentAfterIngest(s, f, id);
    }
  }

  lemma ReadingsAfterIngest(s: Store, log: seq<Row>, f: Decoded, id: Id)
    requires Rectangular(f.columns, |f.times|) && s.len <= CAPACITY
    requires Visible(s, id) == Last(Readings(log, id))
    ensures Visible(AfterFrame(s, f), id) == Last(Readings(log + RowsOf(f), id))
  {
    RowsOfFrame(f, id);
    LogConcat(log, RowsOf(f), id);
    VisibleAfterIngest(s, f, id);
    LastOfLast(Readings(log, id), ValuesFor(f.columns, id, |f.times|));
  }

  lemma TimesOfRows(log: seq<Row>, f: Decoded)
    requires Rectangular(f.columns, |f.times|)
    ensures Times(log + RowsOf(f)) == Times(log) + f.times
  {
    LogConcat(log, RowsOf(f), 0);
    assert Times(RowsOf(f)) == f.times;
  }

  lemma RingAppends(a: Cells, head: Index, len: nat, rows: seq<Bits>, vals: seq<Bits>)
    requires len == Min(CAPACITY, |rows|) && View(a, head, len) == Last(rows)
    ensures View(Written(a, head, vals), (head + |vals|) % CAPACITY, Min(CAPACITY, len + |vals|)) == Last(rows + vals)
  {
    ViewOfWritten(a, head, len, vals);
    LastOfLast(rows, vals);
  }

  /** Ingesting a frame appends its rows to the log, whatever ids it carries. */
  lemma IngestAppends(s: Store, log: seq<Row>, f: Decoded)
    requires Rectangular(f.columns, |f.times|) && Represents(s, log)
    ensures Represents(AfterFrame(s, f), log + RowsOf(f))
  {
    TimesOfRows(log, f);
    RingAppends(s.times, s.head, s.len, Times(log), f.times);
    forall id: Id ensures Visible(AfterFrame(s, f), id) == Last(Readings(log + RowsOf(f), id)) {
      assert Visible(s, id) == Last(Readings(log, id));
      ReadingsAfterIngest(s, log, f, id);
    }
  }

  /** Forgetting a value erases it from the log; other values and the times are unaffected. */
  lemma ForgetErases(s: Store, log: seq<Row>, id: Id)
    requires Represents(s, log)
    ensures Represents(s.(columns := s.columns - {id}), Forgotten(log, id))
  {
    var t := s.(columns := s.columns - {id});
    forall other: Id ensures Visible(t, other) == Last(Readings(Forgotten(log, id), other)) {
      ReadingsForgotten(log, id, other);
      assert Visible(t, other) == if other == id then Nans(s.len) else Visible(s, other);
    }
    ReadingsForgotten(log, id, id);
  }
}
