/** Binary sample frames: row-major ticks collected while watching, sent as columns of 8-byte aligned cells. */
module Frame {
  import opened Bytes
  import opened Common

  /** The bits of an `f64`, and a watch id. */
  type Bits = x: int | 0 <= x < 0x1_0000_0000_0000_0000
  type Id = x: int | 0 <= x < 0x1_0000_0000

  const MAGIC: Id := 0x31535454

  datatype Column = Column(id: Id, values: seq<Bits>)

  datatype Decoded = Decoded(times: seq<Bits>, columns: seq<Column>)

  // ----- reading -----

  function U32At(b: seq<byte>, at: nat): Option<Id> {
    if at + 4 <= |b| then
      WordBound(b, at, 4);
      WordSizes();
      Some(WordAt(b, at, 4))
    else None
  }

  function CellAt(b: seq<byte>, at: nat): Option<Bits> {
    if at + 8 <= |b| then
      WordBound(b, at, 8);
      WordSizes();
      Some(WordAt(b, at, 8))
    else None
  }

  /** `n` cells from `at` on. */
  function CellsAt(b: seq<byte>, at: nat, n: nat): (r: Option<seq<Bits>>)
    ensures r.Some? ==> |r.value| == n
    decreases n
  {
    if n == 0 then (if at <= |b| then Some([]) else None) else
    var rest := CellsAt(b, at + 8, n - 1);
    if CellAt(b, at).None? || rest.None? then None else Some([CellAt(b, at).value] + rest.value)
  }

  /** A column of `n` cells at `at`: an id, a reserved word, the cells. */
  function ColumnAt(b: seq<byte>, at: nat, n: nat): (r: Option<Column>)
    ensures r.Some? ==> |r.value.values| == n
  {
    if U32At(b, at).None? || CellsAt(b, at + 8, n).None? then None
    else Some(Column(U32At(b, at).value, CellsAt(b, at + 8, n).value))
  }

  /** `c` columns of `n` cells from `at` on. */
  function ColumnsAt(b: seq<byte>, at: nat, n: nat, c: nat): (r: Option<seq<Column>>)
    ensures r.Some? ==> |r.value| == c && forall k :: 0 <= k < c ==> |r.value[k].values| == n
    decreases c
  {
    if c == 0 then Some([]) else
    var first, rest := ColumnAt(b, at, n), ColumnsAt(b, at + 8 + 8 * n, n, c - 1);
    if first.None? || rest.None? then None else Some([first.value] + rest.value)
  }

  /** As many of `c` columns of `n` cells from `at` on as the bytes hold. */
  function Readable(b: seq<byte>, at: nat, n: nat, c: nat): (cols: seq<Column>)
    ensures |cols| <= c && forall k :: 0 <= k < |cols| ==> |cols[k].values| == n
    decreases c
  {
    if c == 0 || ColumnAt(b, at, n).None? then []
    else [ColumnAt(b, at, n).value] + Readable(b, at + 8 + 8 * n, n, c - 1)
  }

  /** Where column `k` of `n` cells starts. */
  function ColumnStart(start: nat, n: nat, k: nat): nat {
    if k == 0 then start else ColumnStart(start, n, k - 1) + 8 + 8 * n
  }

  lemma {:induction false} NextStart(start: nat, n: nat, k: nat)
    ensures ColumnStart(start + 8 + 8 * n, n, k) == ColumnStart(start, n, k + 1)
  {
    if k > 0 {
      NextStart(start, n, k - 1);
    }
  }

  /** `cols` stand one behind the other from `start` on, and end where none can be read or `count` are. */
  ghost predicate Stands(b: seq<byte>, start: nat, n: nat, count: nat, cols: seq<Column>)
    decreases count, b
  {
    && |cols| <= count
    && (count > 0 ==>
          if ColumnAt(b, start, n).None? then cols == []
          else && cols != [] && cols[0] == ColumnAt(b, start, n).value
               && Stands(b, start + 8 + 8 * n, n, count - 1, cols[1..]))
  }

  lemma {:induction false} ReadableStands(b: seq<byte>, start: nat, n: nat, count: nat)
    ensures Stands(b, start, n, count, Readable(b, start, n, count))
    decreases count
  {
    if count > 0 && ColumnAt(b, start, n).Some? {
      ReadableStands(b, start + 8 + 8 * n, n, count - 1);
    }
  }

  lemma {:induction false} StandsAt(b: seq<byte>, start: nat, n: nat, count: nat, cols: seq<Column>, k: nat)
    requires Stands(b, start, n, count, cols) && k < count && k <= |cols|
    ensures ColumnAt(b, ColumnStart(start, n, k), n) == if k < |cols| then Some(cols[k]) else None
    decreases k
  {
    if k > 0 {
      NextStart(start, n, k - 1);
      StandsAt(b, start + 8 + 8 * n, n, count - 1, cols[1..], k - 1);
    }
  }

  /** A frame's columns can be read when none of them is missing. */
  lemma {:induction false} ReadableColumns(b: seq<byte>, at: nat, n: nat, c: nat)
    ensures var cols := Readable(b, at, n, c);
            ColumnsAt(b, at, n, c) == if |cols| == c then Some(cols) else None
    decreases c
  {
    if c > 0 {
      ReadableColumns(b, at + 8 + 8 * n, n, c - 1);
    }
  }

  function Decode(b: seq<byte>): Option<Decoded> {
    if U32At(b, 0) != Some(MAGIC) then None else
    if U32At(b, 4).None? || U32At(b, 8).None? then None else
    var n: nat, c: nat := U32At(b, 4).value, U32At(b, 8).value;
    match (CellsAt(b, 16, n), ColumnsAt(b, 16 + 8 * n, n, c))
    case (Some(times), Some(columns)) => Some(Decoded(times, columns))
    case _ => None
  }

  // ----- writing -----

  function CellBytes(xs: seq<Bits>): (b: seq<byte>)
    ensures |b| == 8 * |xs|
  {
    if xs == [] then [] else ToLE(xs[0], 8) + CellBytes(xs[1..])
  }

  function ColumnBytes(col: Column): seq<byte> {
    ToLE(col.id, 4) + (ToLE(0, 4) + CellBytes(col.values))
  }

  function ColumnsBytes(cols: seq<Column>): seq<byte> {
    if cols == [] then [] else ColumnBytes(cols[0]) + ColumnsBytes(cols[1..])
  }

  function HeaderBytes(n: Id, c: Id): seq<byte> {
    ToLE(MAGIC, 4) + (ToLE(n, 4) + (ToLE(c, 4) + ToLE(0, 4)))
  }

  function EncodeColumns(times: seq<Bits>, cols: seq<Column>): seq<byte>
    requires |times| < 0x1_0000_0000 && |cols| < 0x1_0000_0000
  {
    HeaderBytes(|times|, |cols|) + (CellBytes(times) + ColumnsBytes(cols))
  }

  // ----- decode inverts encode -----

  lemma {:induction false} Split(b: seq<byte>, at: nat, p: seq<byte>, q: seq<byte>)
    requires at <= |b| && b[at..] == p + q
    ensures at + |p| <= |b| && b[at..at + |p|] == p && b[at + |p|..] == q
  {
    assert b[at..][..|p|] == p && b[at..][|p|..] == q;
  }

  lemma {:induction false} ReadU32(b: seq<byte>, at: nat, x: Id, rest: seq<byte>)
    requires at <= |b| && b[at..] == ToLE(x, 4) + rest
    ensures U32At(b, at) == Some(x) && at + 4 <= |b| && b[at + 4..] == rest
  {
    WordSizes();
    FromToLE(x, 4);
    Split(b, at, ToLE(x, 4), rest);
    WordIs(b, at, 4);
  }

  lemma {:induction false} ReadCell(b: seq<byte>, at: nat, x: Bits, rest: seq<byte>)
    requires at <= |b| && b[at..] == ToLE(x, 8) + rest
    ensures CellAt(b, at) == Some(x) && at + 8 <= |b| && b[at + 8..] == rest
  {
    WordSizes();
    FromToLE(x, 8);
    Split(b, at, ToLE(x, 8), rest);
    WordIs(b, at, 8);
  }

  lemma {:induction false} ReadCells(b: seq<byte>, at: nat, xs: seq<Bits>, rest: seq<byte>)
    requires at <= |b| && b[at..] == CellBytes(xs) + rest
    ensures CellsAt(b, at, |xs|) == Some(xs)
    ensures at + 8 * |xs| <= |b| && b[at + 8 * |xs|..] == rest
    decreases |xs|
  {
    if xs == [] {
      assert [] + rest == rest;
    } else {
      Assoc(ToLE(xs[0], 8), CellBytes(xs[1..]), rest);
      ReadCell(b, at, xs[0], CellBytes(xs[1..]) + rest);
      ReadCells(b, at + 8, xs[1..], rest);
      assert [xs[0]] + xs[1..] == xs;
    }
  }

  ghost predicate Rectangular(cols: seq<Column>, n: nat) {
    forall k :: 0 <= k < |cols| ==> |cols[k].values| == n
  }

  lemma {:induction false} ReadColumn(b: seq<byte>, at: nat, col: Column, tail: seq<byte>)
    requires at <= |b| && b[at..] == ColumnBytes(col) + tail
    ensures U32At(b, at) == Some(col.id) && CellsAt(b, at + 8, |col.values|) == Some(col.values)
    ensures at + 8 + 8 * |col.values| <= |b| && b[at + 8 + 8 * |col.values|..] == tail
  {
    var id, pad, cells := ToLE(col.id, 4), ToLE(0, 4), CellBytes(col.values);
    Assoc(id, pad + cells, tail);
    Assoc(pad, cells, tail);
    ReadU32(b, at, col.id, pad + (cells + tail));
    ReadU32(b, at + 4, 0, cells + tail);
    ReadCells(b, at + 8, col.values, tail);
  }

  lemma {:induction false} FirstColumn(b: seq<byte>, at: nat, cols: seq<Column>, n: nat)
    requires cols != [] && Rectangular(cols, n) && at <= |b| && b[at..] == ColumnsBytes(cols)
    ensures U32At(b, at) == Some(cols[0].id) && CellsAt(b, at + 8, n) == Some(cols[0].values)
    ensures at + 8 + 8 * n <= |b| && b[at + 8 + 8 * n..] == ColumnsBytes(cols[1..])
    ensures Rectangular(cols[1..], n)
  {
    ReadColumn(b, at, cols[0], ColumnsBytes(cols[1..]));
  }

  lemma {:induction false} ReadColumns(b: seq<byte>, at: nat, cols: seq<Column>, n: nat)
    requires Rectangular(cols, n) && at <= |b| && b[at..] == ColumnsBytes(cols)
    ensures ColumnsAt(b, at, n, |cols|) == Some(cols)
    decreases |cols|
  {
    if cols != [] {
      var rest := cols[1..];
      FirstColumn(b, at, cols, n);
      ReadColumns(b, at + 8 + 8 * n, rest, n);
      ColumnsStep(b, at, cols, n);
    }
  }

  lemma {:induction false} ColumnsStep(b: seq<byte>, at: nat, cols: seq<Column>, n: nat)
    requires cols != [] && |cols[0].values| == n
    requires U32At(b, at) == Some(cols[0].id) && CellsAt(b, at + 8, n) == Some(cols[0].values)
    requires ColumnsAt(b, at + 8 + 8 * n, n, |cols| - 1) == Some(cols[1..])
    ensures ColumnsAt(b, at, n, |cols|) == Some(cols)
  {
    assert [cols[0]] + cols[1..] == cols;
  }

  lemma {:induction false} ReadHeader(b: seq<byte>, n: Id, c: Id, body: seq<byte>)
    requires b == HeaderBytes(n, c) + body
    ensures U32At(b, 0) == Some(MAGIC) && U32At(b, 4) == Some(n) && U32At(b, 8) == Some(c)
    ensures 16 <= |b| && b[16..] == body
  {
    var m, nb, cb, z := ToLE(MAGIC, 4), ToLE(n, 4), ToLE(c, 4), ToLE(0, 4);
    Assoc(m, nb + (cb + z), body);
    Assoc(nb, cb + z, body);
    Assoc(cb, z, body);
    assert b[0..] == b;
    ReadU32(b, 0, MAGIC, nb + (cb + (z + body)));
    ReadU32(b, 4, n, cb + (z + body));
    ReadU32(b, 8, c, z + body);
    ReadU32(b, 12, 0, body);
  }

  lemma {:induction false} DecodeParts(b: seq<byte>, times: seq<Bits>, cols: seq<Column>)
    requires |times| < 0x1_0000_0000 && |cols| < 0x1_0000_0000
    requires U32At(b, 0) == Some(MAGIC) && U32At(b, 4) == Some(|times|) && U32At(b, 8) == Some(|cols|)
    requires CellsAt(b, 16, |times|) == Some(times) && ColumnsAt(b, 16 + 8 * |times|, |times|, |cols|) == Some(cols)
    ensures Decode(b) == Some(Decoded(times, cols))
  {
  }

  lemma {:induction false} ReadBody(b: seq<byte>, times: seq<Bits>, cols: seq<Column>)
    requires 16 <= |b| && b[16..] == CellBytes(times) + ColumnsBytes(cols) && Rectangular(cols, |times|)
    ensures CellsAt(b, 16, |times|) == Some(times) && ColumnsAt(b, 16 + 8 * |times|, |times|, |cols|) == Some(cols)
  {
    ReadCells(b, 16, times, ColumnsBytes(cols));
    ReadColumns(b, 16 + 8 * |times|, cols, |times|);
  }

  /** Decoding an encoded frame gives its times and columns back. */
  lemma DecodeEncoded(times: seq<Bits>, cols: seq<Column>)
    requires |times| < 0x1_0000_0000 && |cols| < 0x1_0000_0000 && Rectangular(cols, |times|)
    ensures Decode(EncodeColumns(times, cols)) == Some(Decoded(times, cols))
  {
    var b := EncodeColumns(times, cols);
    ReadHeader(b, |times|, |cols|, CellBytes(times) + ColumnsBytes(cols));
    ReadBody(b, times, cols);
    DecodeParts(b, times, cols);
  }

  /** Where column `k`'s cells start. */
  function CellsStart(n: nat, k: nat): (at: nat)
    ensures at >= 8
  {
    if k == 0 then 16 + 8 * n + 8 else CellsStart(n, k - 1) + 8 * n + 8
  }

  lemma {:induction false} StartIsAligned(n: nat, k: nat)
    ensures CellsStart(n, k) % 8 == 0
  {
    if k > 0 {
      StartIsAligned(n, k - 1);
    }
  }

  /** Column `k` of `c` columns from `at` on is what stands where its cells start. */
  lemma {:induction false} ColumnIsAt(b: seq<byte>, at: nat, n: nat, j: nat, c: nat, k: nat)
    requires k < c && at + 8 == CellsStart(n, j) && ColumnsAt(b, at, n, c).Some?
    ensures CellsAt(b, CellsStart(n, j + k), n) == Some(ColumnsAt(b, at, n, c).value[k].values)
    decreases k
  {
    if k > 0 {
      ColumnIsAt(b, at + 8 + 8 * n, n, j + 1, c - 1, k - 1);
    }
  }

  /** Every block of cells of a frame starts at a multiple of eight, so it can be viewed without copying. */
  lemma CellsAreAligned(b: seq<byte>, k: nat)
    requires Decode(b).Some? && k < |Decode(b).value.columns|
    ensures var d := Decode(b).value;
            && 16 % 8 == 0 && CellsAt(b, 16, |d.times|) == Some(d.times)
            && CellsStart(|d.times|, k) % 8 == 0
            && CellsAt(b, CellsStart(|d.times|, k), |d.times|) == Some(d.columns[k].values)
  {
    var d := Decode(b).value;
    ColumnsStartAt(b, |d.times|, d.columns, k);
    StartIsAligned(|d.times|, k);
  }

  lemma {:induction false} ColumnsStartAt(b: seq<byte>, n: nat, cols: seq<Column>, k: nat)
    requires ColumnsAt(b, 16 + 8 * n, n, |cols|) == Some(cols) && k < |cols|
    ensures CellsAt(b, CellsStart(n, k), n) == Some(cols[k].values)
  {
    ColumnIsAt(b, 16 + 8 * n, n, 0, |cols|, k);
  }

  // ----- the layout, byte by byte -----

  /** Words are little-endian. */
  lemma WordsInBytes(b: seq<byte>, at: nat)
    ensures U32At(b, at) == if at + 4 > |b| then None else
                            Some((b[at] as nat) + 0x100 * b[at + 1] as nat +
                                 0x1_0000 * b[at + 2] as nat + 0x100_0000 * b[at + 3] as nat)
    ensures CellAt(b, at) == if at + 8 > |b| then None else
                             Some(U32At(b, at).value + 0x1_0000_0000 * U32At(b, at + 4).value)
  {
    if at + 4 <= |b| {
      FourBytes(b, at);
    }
    if at + 8 <= |b| {
      WordInHalves(b, at);
    }
  }

  lemma FourBytes(b: seq<byte>, at: nat)
    requires at + 4 <= |b|
    ensures WordAt(b, at, 4) == (b[at] as nat) + 0x100 * b[at + 1] as nat +
                                0x1_0000 * b[at + 2] as nat + 0x100_0000 * b[at + 3] as nat
  {
    assert WordAt(b, at + 4, 0) == 0;
    assert WordAt(b, at + 3, 1) == b[at + 3] as nat;
    assert WordAt(b, at + 2, 2) == b[at + 2] as nat + 256 * WordAt(b, at + 3, 1);
    assert WordAt(b, at + 1, 3) == b[at + 1] as nat + 256 * WordAt(b, at + 2, 2);
  }

  lemma WordInHalves(b: seq<byte>, at: nat)
    requires at + 8 <= |b|
    ensures WordAt(b, at, 8) == WordAt(b, at, 4) + 0x1_0000_0000 * WordAt(b, at + 4, 4)
  {
    WordIs(b, at, 8);
    WordIs(b, at, 4);
    WordIs(b, at + 4, 4);
    FromLEConcat(b[at..at + 4], b[at + 4..at + 8]);
    assert b[at..at + 4] + b[at + 4..at + 8] == b[at..at + 8];
    WordSizes();
  }

  lemma {:induction false} CellOfCells(b: seq<byte>, at: nat, n: nat, i: nat)
    requires CellsAt(b, at, n).Some? && i < n
    ensures CellAt(b, at + 8 * i) == Some(CellsAt(b, at, n).value[i])
    decreases n
  {
    if i > 0 {
      CellOfCells(b, at + 8, n - 1, i - 1);
    }
  }

  lemma {:induction false} ColumnOfColumns(b: seq<byte>, at: nat, n: nat, c: nat, k: nat)
    requires ColumnsAt(b, at, n, c).Some? && k < c
    ensures ColumnAt(b, ColumnStart(at, n, k), n) == Some(ColumnsAt(b, at, n, c).value[k])
    decreases k
  {
    if k > 0 {
      ColumnOfColumns(b, at + 8 + 8 * n, n, c - 1, k - 1);
      NextStart(at, n, k - 1);
    }
  }

  lemma {:induction false} StartOfColumn(at: nat, n: nat, k: nat)
    ensures ColumnStart(at, n, k) == at + k * (8 + 8 * n)
  {
    if k > 0 {
      StartOfColumn(at, n, k - 1);
      assert k * (8 + 8 * n) == (k - 1) * (8 + 8 * n) + (8 + 8 * n);
    }
  }

  /**
   Where a frame that can be read keeps what: the mark, the counts of rows and columns, the times, and for each column
   its id, four more bytes and its cells.
   */
  lemma FrameInBytes(b: seq<byte>, k: nat, i: nat)
    requires Decode(b).Some? && k < |Decode(b).value.columns| && i < |Decode(b).value.times|
    ensures var d := Decode(b).value;
            var n := |d.times|;
            var start := 16 + 8 * n + k * (8 + 8 * n);
            && U32At(b, 0) == Some(0x31535454) && U32At(b, 4) == Some(n) && U32At(b, 8) == Some(|d.columns|)
            && CellAt(b, 16 + 8 * i) == Some(d.times[i])
            && U32At(b, start) == Some(d.columns[k].id) && CellAt(b, start + 8 + 8 * i) == Some(d.columns[k].values[i])
  {
    var d := Decode(b).value;
    var n := |d.times|;
    CellOfCells(b, 16, n, i);
    ColumnOfColumns(b, 16 + 8 * n, n, |d.columns|, k);
    StartOfColumn(16 + 8 * n, n, k);
    ColumnParts(b, 16 + 8 * n + k * (8 + 8 * n), n, d.columns[k], i);
  }

  lemma ColumnParts(b: seq<byte>, at: nat, n: nat, col: Column, i: nat)
    requires ColumnAt(b, at, n) == Some(col) && i < n
    ensures U32At(b, at) == Some(col.id) && i < |col.values| && CellAt(b, at + 8 + 8 * i) == Some(col.values[i])
  {
    CellOfCells(b, at + 8, n, i);
  }

  // ----- batches -----

  /** Ticks flushed together: `values` holds one row of `|ids|` cells per tick. */
  datatype SampleBatch = SampleBatch(ids: seq<Id>, times: seq<Bits>, values: seq<Bits>)

  /** The rows laid end to end. */
  function Flat(rows: seq<seq<Bits>>): seq<Bits> {
    if rows == [] then [] else Flat(rows[..|rows| - 1]) + rows[|rows| - 1]
  }

  ghost predicate Uniform(rows: seq<seq<Bits>>, c: nat) {
    forall k :: 0 <= k < |rows| ==> |rows[k]| == c
  }

  /** Row `k` of row-major values starts at `k * c`. */
  lemma {:induction false} FlatAt(rows: seq<seq<Bits>>, c: nat, k: nat, j: nat)
    requires Uniform(rows, c) && k < |rows| && j < c
    ensures |Flat(rows)| == |rows| * c
    ensures 0 <= k * c + j < |Flat(rows)| && Flat(rows)[k * c + j] == rows[k][j]
    decreases |rows|
  {
    var n := |rows| - 1;
    FlatLength(rows, c);
    FlatLength(rows[..n], c);
    RowFits(k, n, c, j);
    if k < n {
      FlatAt(rows[..n], c, k, j);
    }
  }

  lemma RowFits(k: nat, n: nat, c: nat, j: nat)
    requires k <= n && j < c
    ensures k * c + j < (n + 1) * c && (k < n ==> k * c + j < n * c)
  {
    if k < n {
      assert (k + 1) * c <= n * c;
    }
  }

  lemma {:induction false} FlatLength(rows: seq<seq<Bits>>, c: nat)
    requires Uniform(rows, c)
    ensures |Flat(rows)| == |rows| * c
  {
    if rows != [] {
      FlatLength(rows[..|rows| - 1], c);
      OneMore(|rows| - 1, c);
    }
  }

  lemma OneMore(n: nat, c: nat)
    ensures (n + 1) * c == n * c + c
  {
  }

  /** `b` holds `rows`, one per tick. */
  ghost predicate Holds(b: SampleBatch, rows: seq<seq<Bits>>) {
    |b.times| == |rows| && Uniform(rows, |b.ids|) && b.values == Flat(rows)
  }

  /** Column `col` over every tick. */
  function ColumnOf(b: SampleBatch, col: nat): (values: seq<Bits>)
    ensures |values| == |b.times|
  {
    seq<Bits>(|b.times|, row requires 0 <= row < |b.times| =>
      var k := row * |b.ids| + col;
      if k < |b.values| then b.values[k] else 0)
  }

  /** A batch's columns are its rows transposed. */
  lemma ColumnsAreTransposed(b: SampleBatch, rows: seq<seq<Bits>>, col: nat, k: nat)
    requires Holds(b, rows) && col < |b.ids| && k < |rows|
    ensures ColumnOf(b, col)[k] == rows[k][col]
  {
    FlatAt(rows, |b.ids|, k, col);
  }

  function Columns(b: SampleBatch): (cols: seq<Column>)
    ensures |cols| == |b.ids|
    ensures forall k :: 0 <= k < |cols| ==> cols[k] == Column(b.ids[k], ColumnOf(b, k))
  {
    seq(|b.ids|, k requires 0 <= k < |b.ids| => Column(b.ids[k], ColumnOf(b, k)))
  }

  /** Holds the ticks of one watched set that were not sent yet. */
  class FrameBuilder {
    var ids: seq<Id>
    var times: seq<Bits>
    var values: seq<Bits>
    /** The rows pushed since the last flush. */
    ghost var rows: seq<seq<Bits>>

    ghost predicate Valid()
      reads this
    {
      Holds(SampleBatch(ids, times, values), rows)
    }

    constructor ()
      ensures Valid() && ids == [] && times == [] && rows == []
    {
      ids, times, values, rows := [], [], [], [];
    }

    /** Start collecting for `ids`; unflushed ticks are dropped. */
    method Reset(ids: seq<Id>)
      modifies this
      ensures Valid() && this.ids == ids && times == [] && rows == []
    {
      this.ids, times, values, rows := ids, [], [], [];
    }

    method Push(time: Bits, row: seq<Bits>)
      requires Valid() && |row| == |ids|
      modifies this
      ensures Valid() && ids == old(ids)
      ensures times == old(times) + [time] && rows == old(rows) + [row]
    {
      times, values, rows := times + [time], values + row, rows + [row];
      assert rows[..|rows| - 1] == old(rows);
    }

    /** What was pushed since the last flush, as one batch, if anything was; the ids stay. */
    method Take() returns (r: Option<SampleBatch>)
      requires Valid()
      modifies this
      ensures Valid() && ids == old(ids) && times == [] && rows == []
      ensures r.None? <==> old(times) == []
      ensures r.Some? ==> r.value.ids == ids && r.value.times == old(times) && Holds(r.value, old(rows))
    {
      if times == [] {
        return None;
      }
      r := Some(SampleBatch(ids, times, values));
      times, values, rows := [], [], [];
    }
  }

  lemma {:induction false} CellsAppend(xs: seq<Bits>, x: Bits)
    ensures CellBytes(xs + [x]) == CellBytes(xs) + ToLE(x, 8)
  {
    if xs == [] {
      assert ([] + [x])[1..] == [] && ToLE(x, 8) + [] == ToLE(x, 8);
    } else {
      CellsAppend(xs[1..], x);
      assert (xs + [x])[1..] == xs[1..] + [x];
      Assoc(ToLE(xs[0], 8), CellBytes(xs[1..]), ToLE(x, 8));
    }
  }

  lemma {:induction false} ColumnsAppend(cols: seq<Column>, col: Column)
    ensures ColumnsBytes(cols + [col]) == ColumnsBytes(cols) + ColumnBytes(col)
  {
    if cols == [] {
      assert ([] + [col])[1..] == [] && ColumnBytes(col) + [] == ColumnBytes(col);
    } else {
      ColumnsAppend(cols[1..], col);
      assert (cols + [col])[1..] == cols[1..] + [col];
      Assoc(ColumnBytes(cols[0]), ColumnsBytes(cols[1..]), ColumnBytes(col));
    }
  }

  /** Append cells one by one. */
  method AppendCells(before: seq<byte>, xs: seq<Bits>) returns (out: seq<byte>)
    ensures out == before + CellBytes(xs)
  {
    out := before;
    assert before + [] == before;
    for i := 0 to |xs|
      invariant out == before + CellBytes(xs[..i])
    {
      CellsAppend(xs[..i], xs[i]);
      assert xs[..i + 1] == xs[..i] + [xs[i]];
      Assoc(before, CellBytes(xs[..i]), ToLE(xs[i], 8));
      out := out + ToLE(xs[i], 8);
    }
    assert xs[..|xs|] == xs;
  }

  /** The source's encoding loops: header, times, then each column. */
  method Encode(b: SampleBatch) returns (out: seq<byte>)
    requires |b.times| < 0x1_0000_0000 && |b.ids| < 0x1_0000_0000
    ensures out == EncodeColumns(b.times, Columns(b))
  {
    var cols := Columns(b);
    out := HeaderBytes(|b.times|, |b.ids|);
    out := AppendCells(out, b.times);
    ghost var start := out;
    assert start + [] == start;
    for c := 0 to |cols|
      invariant out == start + ColumnsBytes(cols[..c])
    {
      ColumnsAppend(cols[..c], cols[c]);
      assert cols[..c + 1] == cols[..c] + [cols[c]];
      Assoc(start, ColumnsBytes(cols[..c]), ColumnBytes(cols[c]));
      ghost var before := out;
      out := out + ToLE(b.ids[c], 4) + ToLE(0, 4);
      Assoc(before, ToLE(b.ids[c], 4), ToLE(0, 4));
      Assoc(before, ToLE(b.ids[c], 4) + ToLE(0, 4), CellBytes(cols[c].values));
      Assoc(ToLE(b.ids[c], 4), ToLE(0, 4), CellBytes(cols[c].values));
      out := AppendCells(out, ColumnOf(b, c));
    }
    assert cols[..|cols|] == cols;
    Assoc(HeaderBytes(|b.times|, |b.ids|), CellBytes(b.times), ColumnsBytes(cols));
  }

  /** A flushed frame decodes to the pushed rows, transposed. */
  lemma BatchRoundTrip(b: SampleBatch, rows: seq<seq<Bits>>)
    requires Holds(b, rows) && |b.times| < 0x1_0000_0000 && |b.ids| < 0x1_0000_0000
    ensures Decode(EncodeColumns(b.times, Columns(b))) == Some(Decoded(b.times, Columns(b)))
    ensures forall k, col :: 0 <= k < |rows| && 0 <= col < |b.ids| ==>
              Columns(b)[col].id == b.ids[col] && Columns(b)[col].values[k] == rows[k][col]
  {
    DecodeEncoded(b.times, Columns(b));
    forall k, col | 0 <= k < |rows| && 0 <= col < |b.ids|
      ensures Columns(b)[col].values[k] == rows[k][col]
    {
      ColumnsAreTransposed(b, rows, col, k);
    }
  }
}
