/**
 The scope's window query over the rings of the sample store: binary search for the rows, then every row, or the lowest
 and highest reading of each pixel-wide bucket. Times are reals and readings are real numbers or NaN.
 */
module Window {
  import opened Common
  import opened Frame
  import opened History

  datatype Reading = NaN | Num(v: real)

  /** The store's rings with their cells read as numbers. */
  datatype Rings = Rings(times: seq<real>, columns: map<Id, seq<Reading>>, head: Index, len: nat) {
    ghost predicate Valid() {
      && |times| == CAPACITY && len <= CAPACITY
      && (forall id :: id in columns ==> |columns[id]| == CAPACITY)
      && Nondecreasing(Rows(times, head, len))
    }
  }

  /** The logical rows of a ring, oldest first. */
  function Rows<T>(a: seq<T>, head: Index, len: nat): (r: seq<T>)
    requires |a| == CAPACITY && len <= CAPACITY
    ensures |r| == len
    ensures forall k :: 0 <= k < len ==> r[k] == a[Slot(head, len, k)]
  {
    seq(len, k requires 0 <= k < len => a[Slot(head, len, k)])
  }

  ghost predicate Nondecreasing(t: seq<real>) {
    forall i, j :: 0 <= i <= j < |t| ==> t[i] <= t[j]
  }

  /** A value with no samples yet reads NaN throughout. */
  function Ring(r: Rings, id: Id): (c: seq<Reading>) {
    if id in r.columns then r.columns[id] else seq(CAPACITY, _ => NaN)
  }

  /** The readings of `id`, row by row. */
  function Readings(r: Rings, id: Id): (c: seq<Reading>)
    requires r.len <= CAPACITY && (id in r.columns ==> |r.columns[id]| == CAPACITY)
    ensures |c| == r.len
  {
    Rows(Ring(r, id), r.head, r.len)
  }

  // ----- the query's rows -----

  /** `i` splits the rows at time `at`. */
  ghost predicate SplitsAt(t: seq<real>, i: nat, at: real) {
    && i <= |t|
    && (forall k :: 0 <= k < i ==> t[k] < at)
    && (forall k :: i <= k < |t| ==> at <= t[k])
  }

  /** First logical row whose time is at or after `at`. */
  method LowerBound(r: Rings, at: real) returns (lo: nat)
    requires r.Valid()
    ensures SplitsAt(Rows(r.times, r.head, r.len), lo, at)
  {
    ghost var t := Rows(r.times, r.head, r.len);
    lo := 0;
    var hi := r.len;
    while lo < hi
      invariant lo <= hi <= r.len
      invariant forall k :: 0 <= k < lo ==> t[k] < at
      invariant forall k :: hi <= k < r.len ==> at <= t[k]
    {
      var mid := (lo + hi) / 2;
      assert r.times[Slot(r.head, r.len, mid)] == t[mid];
      if r.times[Slot(r.head, r.len, mid)] < at {
        lo := mid + 1;
      } else {
        hi := mid;
      }
    }
  }

  /** The slack added to the window's end, a billionth of a second. */
  const SLACK: real := 0.000000001

  /** Row `k` belongs to the window. */
  ghost predicate InWindow(t: seq<real>, k: int, from: real, to: real) {
    0 <= k < |t| && from <= t[k] < to + 0.000000001
  }

  // ----- lowest and highest -----

  /** The lowest and highest reading seen so far and the rows they came from; none before the first number. */
  datatype Extent = Extent(min: Option<real>, iMin: nat, max: Option<real>, iMax: nat)

  const NOTHING := Extent(None, 0, None, 0)

  /** None stands for the infinity the search starts from. */
  predicate Lower(v: real, min: Option<real>) {
    min.None? || v < min.value
  }

  predicate Higher(v: real, max: Option<real>) {
    max.None? || v > max.value
  }

  /** A comparison with NaN is false, so a failed read changes nothing. */
  function Noted(e: Extent, r: Reading, row: nat): Extent {
    if r.NaN? then e else
    var e1 := if Lower(r.v, e.min) then e.(min := Some(r.v), iMin := row) else e;
    if Higher(r.v, e.max) then e1.(max := Some(r.v), iMax := row) else e1
  }

  function Scan(c: seq<Reading>, lo: nat, hi: nat): Extent
    requires lo <= hi <= |c|
  {
    if lo == hi then NOTHING else Noted(Scan(c, lo, hi - 1), c[hi - 1], hi - 1)
  }

  ghost predicate AllNaN(c: seq<Reading>, lo: nat, hi: nat)
    requires lo <= hi <= |c|
  {
    forall k :: lo <= k < hi ==> c[k].NaN?
  }

  /** `e` holds the minimum and maximum of the numbers among rows `lo..hi`, each at the first row that attains it. */
  ghost predicate Exact(c: seq<Reading>, lo: nat, hi: nat, e: Extent)
    requires lo <= hi <= |c|
  {
    && (e.min.None? <==> AllNaN(c, lo, hi)) && (e.max.None? <==> AllNaN(c, lo, hi))
    && (e.min.Some? ==> lo <= e.iMin < hi && c[e.iMin] == Num(e.min.value))
    && (e.max.Some? ==> lo <= e.iMax < hi && c[e.iMax] == Num(e.max.value))
    && forall k :: lo <= k < hi && c[k].Num? ==>
         && e.min.Some? && e.min.value <= c[k].v && (k < e.iMin ==> e.min.value < c[k].v)
         && e.max.Some? && c[k].v <= e.max.value && (k < e.iMax ==> c[k].v < e.max.value)
  }

  lemma {:induction false} ScanIsExact(c: seq<Reading>, lo: nat, hi: nat)
    requires lo <= hi <= |c|
    ensures Exact(c, lo, hi, Scan(c, lo, hi))
  {
    if lo < hi {
      ScanIsExact(c, lo, hi - 1);
      assert AllNaN(c, lo, hi) <==> AllNaN(c, lo, hi - 1) && c[hi - 1].NaN?;
    }
  }

  function MinOf(a: Option<real>, b: Option<real>): Option<real> {
    if b.None? || (a.Some? && a.value <= b.value) then a else b
  }

  function MaxOf(a: Option<real>, b: Option<real>): Option<real> {
    if b.None? || (a.Some? && a.value >= b.value) then a else b
  }

  /** Ranges of adjoining stretches of rows combine. */
  lemma {:induction false} ScanConcat(c: seq<Reading>, lo: nat, mid: nat, hi: nat)
    requires lo <= mid <= hi <= |c|
    ensures Scan(c, lo, hi).min == MinOf(Scan(c, lo, mid).min, Scan(c, mid, hi).min)
    ensures Scan(c, lo, hi).max == MaxOf(Scan(c, lo, mid).max, Scan(c, mid, hi).max)
    decreases hi
  {
    if mid < hi {
      ScanConcat(c, lo, mid, hi - 1);
    }
  }

  // ----- buckets -----

  function Bucket(t: real, from: real, width: real): int
    requires width > 0.0
  {
    ((t - from) / width).Floor
  }

  function Edge(from: real, width: real, q: int): real {
    from + (q as real) * width
  }

  lemma TimesWidth(a: real, b: real, width: real)
    requires width > 0.0
    ensures a <= b <==> a * width <= b * width
    ensures a < b <==> a * width < b * width
  {
    assert (b - a) * width == b * width - a * width;
  }

  lemma Offset(t: real, from: real, width: real) returns (x: real)
    requires width > 0.0
    ensures x * width == t - from && Bucket(t, from, width) == x.Floor
  {
    x := (t - from) / width;
  }

  lemma PastEdge(t: real, from: real, width: real, x: real, q: int)
    requires width > 0.0 && x * width == t - from
    ensures q as real <= x <==> Edge(from, width, q) <= t
  {
    TimesWidth(q as real, x, width);
    var edge := (q as real) * width;
    assert Edge(from, width, q) == from + edge;
  }

  lemma FloorIs(x: real, q: int)
    ensures x.Floor == q <==> q as real <= x && !((q + 1) as real <= x)
  {
  }

  /** A time lies in bucket `q` exactly when it lies between that bucket's edges. */
  lemma InBucket(t: real, from: real, width: real, q: int)
    requires width > 0.0
    ensures Bucket(t, from, width) == q <==> Edge(from, width, q) <= t < Edge(from, width, q + 1)
  {
    var x := Offset(t, from, width);
    PastEdge(t, from, width, x, q);
    PastEdge(t, from, width, x, q + 1);
    FloorIs(x, q);
  }

  /** Consecutive rows `lo..hi` that fall in bucket `q`. */
  datatype Stretch = Stretch(q: int, lo: nat, hi: nat)

  ghost predicate IsStretch(t: seq<real>, from: real, width: real, st: Stretch)
    requires width > 0.0
  {
    st.lo < st.hi <= |t| && forall k :: st.lo <= k < st.hi ==> Bucket(t[k], from, width) == st.q
  }

  /** The stretches tile rows `i0..i1` in order, each in a later bucket than the one before. */
  ghost predicate Partition(t: seq<real>, from: real, width: real, i0: nat, i1: nat, parts: seq<Stretch>)
    requires width > 0.0
    decreases |parts|
  {
    if parts == [] then i0 == i1 else
    var n := |parts| - 1;
    && IsStretch(t, from, width, parts[n]) && parts[n].hi == i1
    && (n > 0 ==> parts[n - 1].q < parts[n].q)
    && Partition(t, from, width, i0, parts[n].lo, parts[..n])
  }

  function Xs(parts: seq<Stretch>, from: real, width: real): (xs: seq<real>)
    ensures |xs| == 2 * |parts|
  {
    if parts == [] then [] else
    var n := |parts| - 1;
    var x0 := Edge(from, width, parts[n].q);
    Xs(parts[..n], from, width) + [x0 + width * 0.25, x0 + width * 0.75]
  }

  /** A stretch's two points: its lowest and highest reading, in the order they happened. */
  function Pair(e: Extent): (p: seq<Option<real>>)
    ensures |p| == 2
  {
    if e.min.None? then [None, None]
    else if e.iMin <= e.iMax then [e.min, e.max] else [e.max, e.min]
  }

  ghost predicate Tiled(c: seq<Reading>, parts: seq<Stretch>) {
    forall b :: 0 <= b < |parts| ==> parts[b].lo <= parts[b].hi <= |c|
  }

  function Ys(c: seq<Reading>, parts: seq<Stretch>): (ys: seq<Option<real>>)
    requires Tiled(c, parts)
    ensures |ys| == 2 * |parts|
  {
    if parts == [] then [] else
    var n := |parts| - 1;
    Ys(c, parts[..n]) + Pair(Scan(c, parts[n].lo, parts[n].hi))
  }

  // ----- what the points mean -----

  /** Every stretch is one of rows in range. */
  lemma {:induction false} StretchAt(
      t: seq<real>, from: real, width: real, i0: nat, i1: nat, parts: seq<Stretch>, b: nat)
    requires width > 0.0 && Partition(t, from, width, i0, i1, parts) && b < |parts|
    ensures IsStretch(t, from, width, parts[b]) && i0 <= parts[b].lo && parts[b].hi <= i1 <= |t|
    decreases |parts|
  {
    var n := |parts| - 1;
    if b < n {
      StretchAt(t, from, width, i0, parts[n].lo, parts[..n], b);
    } else if n > 0 {
      StretchAt(t, from, width, i0, parts[n].lo, parts[..n], n - 1);
    }
  }

  lemma {:induction false} XsAt(parts: seq<Stretch>, from: real, width: real, b: nat)
    requires b < |parts|
    ensures var x0, xs := Edge(from, width, parts[b].q), Xs(parts, from, width);
            xs[2 * b] == x0 + width * 0.25 && xs[2 * b + 1] == x0 + width * 0.75
    decreases |parts|
  {
    if b < |parts| - 1 {
      XsAt(parts[..|parts| - 1], from, width, b);
    }
  }

  lemma {:induction false} YsAt(c: seq<Reading>, parts: seq<Stretch>, b: nat)
    requires Tiled(c, parts) && b < |parts|
    ensures Ys(c, parts)[2 * b..2 * b + 2] == Pair(Scan(c, parts[b].lo, parts[b].hi))
    decreases |parts|
  {
    if b < |parts| - 1 {
      YsAt(c, parts[..|parts| - 1], b);
    }
  }

  /** Row `i` is the first of rows `lo..hi` to read the lowest number among them. */
  ghost predicate FirstLowest(c: seq<Reading>, lo: nat, hi: nat, i: nat)
    requires lo <= hi <= |c|
  {
    && lo <= i < hi && c[i].Num?
    && forall k :: lo <= k < hi && c[k].Num? ==> c[i].v <= c[k].v && (k < i ==> c[i].v < c[k].v)
  }

  ghost predicate FirstHighest(c: seq<Reading>, lo: nat, hi: nat, i: nat)
    requires lo <= hi <= |c|
  {
    && lo <= i < hi && c[i].Num?
    && forall k :: lo <= k < hi && c[k].Num? ==> c[k].v <= c[i].v && (k < i ==> c[k].v < c[i].v)
  }

  /** Rows `i` and `j`, one the first lowest of rows `lo..hi` and the other the first highest. */
  ghost predicate Extremes(c: seq<Reading>, lo: nat, hi: nat, i: nat, j: nat)
    requires lo <= hi <= |c|
  {
    || (FirstLowest(c, lo, hi, i) && FirstHighest(c, lo, hi, j))
    || (FirstHighest(c, lo, hi, i) && FirstLowest(c, lo, hi, j))
  }

  /** Two points show rows `lo..hi`: their extremes, the earlier row first, or two gaps when no row reads a number. */
  ghost predicate ShownBy(c: seq<Reading>, lo: nat, hi: nat, first: Option<real>, second: Option<real>)
    requires lo <= hi <= |c|
  {
    if AllNaN(c, lo, hi) then first == None && second == None else
    exists i: nat, j: nat :: i <= j && Extremes(c, lo, hi, i, j) && first == Some(c[i].v) && second == Some(c[j].v)
  }

  lemma PairShows(c: seq<Reading>, lo: nat, hi: nat)
    requires lo <= hi <= |c|
    ensures ShownBy(c, lo, hi, Pair(Scan(c, lo, hi))[0], Pair(Scan(c, lo, hi))[1])
  {
    ScanIsExact(c, lo, hi);
    var e := Scan(c, lo, hi);
    if !AllNaN(c, lo, hi) {
      assert FirstLowest(c, lo, hi, e.iMin) && FirstHighest(c, lo, hi, e.iMax);
      assert Extremes(c, lo, hi, e.iMin, e.iMax) && Extremes(c, lo, hi, e.iMax, e.iMin);
    }
  }

  /** Every stretch's points are where they should be, and its rows are in range. */
  lemma PointsAt(t: seq<real>, c: seq<Reading>, from: real, width: real, i0: nat, i1: nat, parts: seq<Stretch>, b: nat)
    requires width > 0.0 && Partition(t, from, width, i0, i1, parts) && |c| == |t| && b < |parts|
    ensures IsStretch(t, from, width, parts[b]) && i0 <= parts[b].lo && parts[b].hi <= i1 <= |c|
    ensures var x0 := Edge(from, width, parts[b].q);
            Xs(parts, from, width)[2 * b] == x0 + width * 0.25 && Xs(parts, from, width)[2 * b + 1] == x0 + width * 0.75
    ensures Tiled(c, parts)
    ensures ShownBy(c, parts[b].lo, parts[b].hi, Ys(c, parts)[2 * b], Ys(c, parts)[2 * b + 1])
  {
    TiledByPartition(t, c, from, width, i0, i1, parts);
    StretchAt(t, from, width, i0, i1, parts, b);
    XsAt(parts, from, width, b);
    YsAt(c, parts, b);
    PairShows(c, parts[b].lo, parts[b].hi);
    var pair := Ys(c, parts)[2 * b..2 * b + 2];
    assert Ys(c, parts)[2 * b] == pair[0] && Ys(c, parts)[2 * b + 1] == pair[1];
  }

  lemma {:induction false} TiledByPartition(t: seq<real>, c: seq<Reading>, from: real, width: real, i0: nat, i1: nat,
                                            parts: seq<Stretch>)
    requires width > 0.0 && Partition(t, from, width, i0, i1, parts) && |c| == |t|
    ensures Tiled(c, parts)
    decreases |parts|
  {
    if parts != [] {
      TiledByPartition(t, c, from, width, i0, parts[|parts| - 1].lo, parts[..|parts| - 1]);
    }
  }

  /** Every selected row is in exactly one stretch: the one of its bucket. */
  lemma {:induction false} EveryRowHasOneStretch(t: seq<real>, from: real, width: real, i0: nat, i1: nat,
                                                 parts: seq<Stretch>, k: nat)
    returns (b: nat)
    requires width > 0.0 && Partition(t, from, width, i0, i1, parts) && i0 <= k < i1 <= |t|
    ensures b < |parts| && parts[b].lo <= k < parts[b].hi && parts[b].q == Bucket(t[k], from, width)
    ensures forall a :: 0 <= a < |parts| && a != b ==> parts[a].q != parts[b].q && !(parts[a].lo <= k < parts[a].hi)
    decreases |parts|
  {
    var n := |parts| - 1;
    if parts[n].lo <= k {
      b := n;
    } else {
      b := EveryRowHasOneStretch(t, from, width, i0, parts[n].lo, parts[..n], k);
    }
    forall a | 0 <= a < |parts| && a != b
      ensures parts[a].q != parts[b].q && !(parts[a].lo <= k < parts[a].hi)
    {
      Ordered(t, from, width, i0, i1, parts, if a < b then a else b, if a < b then b else a);
    }
  }

  lemma {:induction false} Ordered(t: seq<real>, from: real, width: real, i0: nat, i1: nat, parts: seq<Stretch>,
                                   a: nat, b: nat)
    requires width > 0.0 && Partition(t, from, width, i0, i1, parts) && a < b < |parts|
    ensures parts[a].q < parts[b].q && parts[a].lo < parts[a].hi <= parts[b].lo < parts[b].hi <= i1
    decreases |parts|
  {
    var n := |parts| - 1;
    var rest := parts[..n];
    if b < n {
      Ordered(t, from, width, i0, parts[n].lo, rest, a, b);
    } else if a < n - 1 {
      Ordered(t, from, width, i0, parts[n].lo, rest, a, n - 1);
    }
  }

  lemma EdgesApart(from: real, width: real, p: int, q: int)
    requires width > 0.0 && p < q
    ensures Edge(from, width, p) + width <= Edge(from, width, q)
  {
    TimesWidth((p + 1) as real, q as real, width);
    assert (p + 1) as real * width == p as real * width + width;
  }

  /** The plot's x values strictly increase. */
  lemma XsIncrease(t: seq<real>, from: real, width: real, i0: nat, i1: nat, parts: seq<Stretch>, i: nat, j: nat)
    requires width > 0.0 && Partition(t, from, width, i0, i1, parts) && i < j < 2 * |parts|
    ensures Xs(parts, from, width)[i] < Xs(parts, from, width)[j]
  {
    XsAt(parts, from, width, i / 2);
    XsAt(parts, from, width, j / 2);
    assert i == 2 * (i / 2) || i == 2 * (i / 2) + 1;
    assert j == 2 * (j / 2) || j == 2 * (j / 2) + 1;
    if i / 2 < j / 2 {
      Ordered(t, from, width, i0, i1, parts, i / 2, j / 2);
      EdgesApart(from, width, parts[i / 2].q, parts[j / 2].q);
    }
  }

  lemma {:induction false} BucketsSpread(t: seq<real>, from: real, width: real, i0: nat, i1: nat, parts: seq<Stretch>,
                                         least: int)
    requires width > 0.0 && Partition(t, from, width, i0, i1, parts) && parts != []
    requires forall b :: 0 <= b < |parts| ==> least <= parts[b].q
    ensures |parts| - 1 <= parts[|parts| - 1].q - least
    decreases |parts|
  {
    var n := |parts| - 1;
    if n > 0 {
      BucketsSpread(t, from, width, i0, parts[n].lo, parts[..n], least);
    }
  }

  /** Width of one of `pixels` columns. */
  function WidthOf(from: real, to: real, pixels: nat): (w: real)
    requires from < to && pixels >= 1
    ensures w > 0.0 && w * pixels as real == to - from
  {
    var w := (to - from) / pixels as real;
    PositiveQuotient(to - from, pixels as real);
    w
  }

  lemma PositiveQuotient(x: real, y: real)
    requires x > 0.0 && y > 0.0
    ensures x / y > 0.0 && (x / y) * y == x
  {
  }

  lemma LastBucket(t: real, from: real, to: real, pixels: nat)
    requires from < to && pixels >= 1 && WidthOf(from, to, pixels) >= SLACK && from <= t < to + SLACK
    ensures 0 <= Bucket(t, from, WidthOf(from, to, pixels)) <= pixels
  {
    var w := WidthOf(from, to, pixels);
    var x := Offset(t, from, w);
    PastEdge(t, from, w, x, 0);
    PastEdge(t, from, w, x, pixels + 1);
    assert Edge(from, w, pixels + 1) == to + w by {
      assert (pixels + 1) as real * w == w * pixels as real + w;
    }
  }

  /** With pixels no narrower than the slack, a decimated window draws at most two points a pixel, and two more. */
  lemma PointsAreFew(t: seq<real>, from: real, to: real, pixels: nat, i0: nat, i1: nat, parts: seq<Stretch>)
    requires from < to && pixels >= 1 && WidthOf(from, to, pixels) >= SLACK
    requires Partition(t, from, WidthOf(from, to, pixels), i0, i1, parts)
    requires i1 <= |t| && forall k :: i0 <= k < i1 ==> InWindow(t, k, from, to)
    ensures |Xs(parts, from, WidthOf(from, to, pixels))| <= 2 * pixels + 2
  {
    var w := WidthOf(from, to, pixels);
    if parts != [] {
      forall b | 0 <= b < |parts| ensures 0 <= parts[b].q <= pixels {
        StretchAt(t, from, w, i0, i1, parts, b);
        assert InWindow(t, parts[b].lo, from, to);
        LastBucket(t[parts[b].lo], from, to, pixels);
      }
      BucketsSpread(t, from, w, i0, i1, parts, 0);
    }
  }

  /** There is one way to cut rows into stretches: the buckets are determined by the times. */
  lemma {:induction false} PartitionIsUnique(t: seq<real>, from: real, width: real, i0: nat, i1: nat,
                                             parts: seq<Stretch>, other: seq<Stretch>)
    requires width > 0.0 && Partition(t, from, width, i0, i1, parts) && Partition(t, from, width, i0, i1, other)
    ensures parts == other
    decreases |parts|
  {
    if parts == [] {
      if other != [] {
        StretchesFit(t, from, width, i0, i1, other);
      }
    } else {
      StretchesFit(t, from, width, i0, i1, parts);
      var a, b := parts[|parts| - 1], other[|other| - 1];
      assert Bucket(t[i1 - 1], from, width) == a.q == b.q;
      LastStartsTogether(t, from, width, i0, i1, parts, other);
      LastStartsTogether(t, from, width, i0, i1, other, parts);
      PartitionIsUnique(t, from, width, i0, a.lo, parts[..|parts| - 1], other[..|other| - 1]);
    }
  }

  lemma {:induction false} StretchesFit(t: seq<real>, from: real, width: real, i0: nat, i1: nat, parts: seq<Stretch>)
    requires width > 0.0 && Partition(t, from, width, i0, i1, parts)
    ensures i0 <= i1 && (parts != [] ==> i0 < i1 && i0 <= parts[|parts| - 1].lo)
    decreases |parts|
  {
    if parts != [] {
      StretchesFit(t, from, width, i0, parts[|parts| - 1].lo, parts[..|parts| - 1]);
    }
  }

  lemma LastStartsTogether(t: seq<real>, from: real, width: real, i0: nat, i1: nat, parts: seq<Stretch>,
                           other: seq<Stretch>)
    requires width > 0.0 && Partition(t, from, width, i0, i1, parts) && Partition(t, from, width, i0, i1, other)
    requires parts != [] && other != [] && parts[|parts| - 1].q == other[|other| - 1].q
    ensures parts[|parts| - 1].lo <= other[|other| - 1].lo
  {
    var m, a, b := |parts| - 1, parts[|parts| - 1], other[|other| - 1];
    StretchesFit(t, from, width, i0, i1, other);
    StretchesFit(t, from, width, i0, a.lo, parts[..m]);
    if m > 0 {
      assert IsStretch(t, from, width, parts[..m][m - 1]) && parts[..m][m - 1].hi == a.lo;
      assert Bucket(t[a.lo - 1], from, width) == parts[m - 1].q < a.q;
    }
  }

  /** Rows one to a pixel's edge, the last edge past the window's end, and the rest at that edge too. */
  function SpreadTimes(from: real, width: real, pixels: nat): (t: seq<real>)
    ensures |t| == 2 * pixels + 1
  {
    seq(2 * pixels + 1, k requires 0 <= k => Edge(from, width, if k <= pixels then k else pixels + 1))
  }

  /** The first `n` stretches of such rows. */
  function SpreadParts(pixels: nat, n: nat): (parts: seq<Stretch>)
    requires n <= pixels + 2
    ensures |parts| == n
  {
    if n == 0 then [] else SpreadParts(pixels, n - 1) + [Stretch(n - 1, n - 1, SpreadEnd(pixels, n))]
  }

  function SpreadEnd(pixels: nat, n: nat): nat {
    if n == pixels + 2 then 2 * pixels + 1 else n
  }

  lemma SpreadBucket(from: real, width: real, pixels: nat, k: nat)
    requires width > 0.0 && k < 2 * pixels + 1
    ensures Bucket(SpreadTimes(from, width, pixels)[k], from, width) == if k <= pixels then k else pixels + 1
  {
    var q := if k <= pixels then k else pixels + 1;
    EdgesApart(from, width, q, q + 1);
    InBucket(Edge(from, width, q), from, width, q);
  }

  lemma {:induction false} SpreadIsPartition(from: real, width: real, pixels: nat, n: nat)
    requires width > 0.0 && pixels >= 1 && n <= pixels + 2
    ensures Partition(SpreadTimes(from, width, pixels), from, width, 0, SpreadEnd(pixels, n), SpreadParts(pixels, n))
    decreases n
  {
    if n > 0 {
      SpreadIsPartition(from, width, pixels, n - 1);
      var parts := SpreadParts(pixels, n);
      assert parts[..n - 1] == SpreadParts(pixels, n - 1);
      forall k: nat | n - 1 <= k < SpreadEnd(pixels, n)
        ensures Bucket(SpreadTimes(from, width, pixels)[k], from, width) == n - 1
      {
        SpreadBucket(from, width, pixels, k);
      }
    }
  }

  lemma EdgesOrdered(from: real, width: real, p: int, q: int)
    requires width > 0.0 && p <= q
    ensures Edge(from, width, p) <= Edge(from, width, q)
  {
    if p < q {
      EdgesApart(from, width, p, q);
    }
  }

  /** Rows that a ring can hold, and those of them the window selects: more than two a pixel, so they are decimated. */
  ghost predicate DecimatedRows(t: seq<real>, from: real, to: real, pixels: nat, i0: nat, i1: nat) {
    && |t| <= CAPACITY && Nondecreasing(t) && i0 <= i1 <= |t| && i1 - i0 > 2 * pixels
    && forall k :: (i0 <= k < i1) <==> InWindow(t, k, from, to)
  }

  /** Whatever rows a window decimates, it draws at most two points a pixel and two more. */
  ghost predicate AlwaysFew(from: real, to: real, pixels: nat)
    requires from < to && pixels >= 1
  {
    var w := WidthOf(from, to, pixels);
    forall t, i0, i1, parts {:trigger DecimatedRows(t, from, to, pixels, i0, i1), Xs(parts, from, w)} ::
      DecimatedRows(t, from, to, pixels, i0, i1) && Partition(t, from, w, i0, i1, parts) ==>
        |Xs(parts, from, w)| <= 2 * pixels + 2
  }

  /** With pixels narrower than the slack, there are rows for which a window draws two points more than that. */
  lemma NarrowPixelsDrawMore(from: real, to: real, pixels: nat)
    requires from < to && pixels >= 1 && WidthOf(from, to, pixels) < SLACK && 2 * pixels < CAPACITY
    ensures var w := WidthOf(from, to, pixels);
            var t, parts := SpreadTimes(from, w, pixels), SpreadParts(pixels, pixels + 2);
            && DecimatedRows(t, from, to, pixels, 0, 2 * pixels + 1)
            && Partition(t, from, w, 0, 2 * pixels + 1, parts)
            && |Xs(parts, from, w)| == 2 * pixels + 4
  {
    var w := WidthOf(from, to, pixels);
    var t := SpreadTimes(from, w, pixels);
    SpreadIsPartition(from, w, pixels, pixels + 2);
    assert Edge(from, w, pixels + 1) == to + w by {
      assert (pixels + 1) as real * w == w * pixels as real + w;
    }
    forall j, k | 0 <= j <= k < |t| ensures t[j] <= t[k] {
      EdgesOrdered(from, w, if j <= pixels then j else pixels + 1, if k <= pixels then k else pixels + 1);
    }
    forall k | 0 <= k < |t| ensures InWindow(t, k, from, to) {
      EdgesOrdered(from, w, 0, if k <= pixels then k else pixels + 1);
      EdgesOrdered(from, w, if k <= pixels then k else pixels + 1, pixels + 1);
    }
  }

  /**
   A window draws at most two points a pixel and two more, whatever its rows, if and only if a pixel is no narrower than
   the slack, or there are so many pixels that the ring never holds more than two rows for each and none is decimated.
   */
  lemma PointsAreFewIff(from: real, to: real, pixels: nat)
    requires from < to && pixels >= 1
    ensures AlwaysFew(from, to, pixels) <==> WidthOf(from, to, pixels) >= SLACK || 2 * pixels >= CAPACITY
  {
    var w := WidthOf(from, to, pixels);
    if w >= SLACK {
      forall t, i0, i1, parts | DecimatedRows(t, from, to, pixels, i0, i1) && Partition(t, from, w, i0, i1, parts)
        ensures |Xs(parts, from, w)| <= 2 * pixels + 2
      {
        PointsAreFew(t, from, to, pixels, i0, i1, parts);
      }
    } else if 2 * pixels < CAPACITY {
      NarrowPixelsDrawMore(from, to, pixels);
    }
  }

  // ----- the query -----

  /** The extent of the readings before row `k`, kept per value: `lo` and `hi` hold the lowest and highest. */
  ghost predicate RangesHold(cols: seq<seq<Reading>>, i0: nat, k: nat, lo: seq<Option<real>>, hi: seq<Option<real>>) {
    && |lo| == |hi| == |cols|
    && forall s :: 0 <= s < |cols| ==>
         i0 <= k <= |cols[s]| && lo[s] == Scan(cols[s], i0, k).min && hi[s] == Scan(cols[s], i0, k).max
  }

  /** One point per row: its reading, or a gap. */
  function Shown(r: Reading): Option<real> {
    if r.NaN? then None else Some(r.v)
  }

  function EveryReading(c: seq<Reading>, i0: nat, k: nat): (ys: seq<Option<real>>)
    requires i0 <= k <= |c|
    ensures |ys| == k - i0
  {
    seq(k - i0, i requires 0 <= i < k - i0 => Shown(c[i0 + i]))
  }

  /** The rings of the ids asked for, and what they read row by row. */
  ghost predicate Views(r: Rings, cs: seq<seq<Reading>>, cols: seq<seq<Reading>>) {
    && r.len <= CAPACITY && |cs| == |cols|
    && forall s :: 0 <= s < |cs| ==> |cs[s]| == CAPACITY && cols[s] == Rows(cs[s], r.head, r.len)
  }

  /** Draw row `k` of every value, found at ring index `p`. */
  method PushRow(r: Rings, cs: seq<seq<Reading>>, ghost cols: seq<seq<Reading>>, k: nat, p: Index,
                 ys: seq<seq<Option<real>>>, lo: array<Option<real>>, hi: array<Option<real>>, ghost i0: nat)
    returns (drawn: seq<seq<Option<real>>>)
    requires Views(r, cs, cols) && i0 <= k < r.len && p == Slot(r.head, r.len, k)
    requires |ys| == |cs| && lo != hi && RangesHold(cols, i0, k, lo[..], hi[..])
    modifies lo, hi
    ensures RangesHold(cols, i0, k + 1, lo[..], hi[..])
    ensures |drawn| == |ys| && forall s :: 0 <= s < |ys| ==> drawn[s] == ys[s] + [Shown(cols[s][k])]
  {
    ghost var lo0, hi0 := lo[..], hi[..];
    drawn := ys;
    for s := 0 to |cs|
      invariant |drawn| == |ys|
      invariant forall q :: 0 <= q < s ==> drawn[q] == ys[q] + [Shown(cols[q][k])]
      invariant forall q :: s <= q < |cs| ==> drawn[q] == ys[q]
      invariant forall q :: 0 <= q < s ==>
                  lo[q] == Scan(cols[q], i0, k + 1).min && hi[q] == Scan(cols[q], i0, k + 1).max
      invariant forall q :: s <= q < |cs| ==> lo[q] == lo0[q] && hi[q] == hi0[q]
    {
      var v := cs[s][p];
      assert v == cols[s][k];
      if v.NaN? {
        drawn := drawn[s := drawn[s] + [None]];
      } else {
        drawn := drawn[s := drawn[s] + [Some(v.v)]];
        if Lower(v.v, lo[s]) {
          lo[s] := Some(v.v);
        }
        if Higher(v.v, hi[s]) {
          hi[s] := Some(v.v);
        }
      }
    }
  }

  /** Draw every row of `i0..i1`. */
  method EveryRow(r: Rings, cs: seq<seq<Reading>>, ghost cols: seq<seq<Reading>>, i0: nat, i1: nat,
                  lo: array<Option<real>>, hi: array<Option<real>>)
    returns (xs: seq<real>, ys: seq<seq<Option<real>>>)
    requires r.Valid() && Views(r, cs, cols) && i0 <= i1 <= r.len
    requires lo != hi && RangesHold(cols, i0, i0, lo[..], hi[..])
    modifies lo, hi
    ensures xs == Rows(r.times, r.head, r.len)[i0..i1]
    ensures |ys| == |cs| && forall s :: 0 <= s < |cs| ==> ys[s] == EveryReading(cols[s], i0, i1)
    ensures RangesHold(cols, i0, i1, lo[..], hi[..])
  {
    xs, ys := [], seq(|cs|, _ => []);
    for k := i0 to i1
      invariant xs == Rows(r.times, r.head, r.len)[i0..k]
      invariant |ys| == |cs| && forall s :: 0 <= s < |cs| ==> ys[s] == EveryReading(cols[s], i0, k)
      invariant RangesHold(cols, i0, k, lo[..], hi[..])
    {
      var p := Slot(r.head, r.len, k);
      xs := xs + [r.times[p]];
      ys := PushRow(r, cs, cols, k, p, ys, lo, hi, i0);
    }
  }

  /** The bucket's extent so far; the rows it came from mean nothing before the first number. */
  ghost predicate SameExtent(e: Extent, f: Extent) {
    && e.min == f.min && e.max == f.max
    && (f.min.Some? ==> e.iMin == f.iMin) && (f.max.Some? ==> e.iMax == f.iMax)
  }

  ghost predicate ExtentsHold(cols: seq<seq<Reading>>, k: nat, j: nat, b: seq<Extent>) {
    && |b| == |cols|
    && forall s :: 0 <= s < |cols| ==> k <= j <= |cols[s]| && SameExtent(b[s], Scan(cols[s], k, j))
  }

  lemma NotedSame(e: Extent, f: Extent, r: Reading, row: nat)
    requires SameExtent(e, f) && (f.min.None? <==> f.max.None?)
    ensures SameExtent(Noted(e, r, row), Noted(f, r, row))
  {
  }

  /** Note row `j` of every value, found at ring index `p`. */
  method NoteRow(r: Rings, cs: seq<seq<Reading>>, ghost cols: seq<seq<Reading>>, j: nat, p: Index, b: array<Extent>,
                 ghost k: nat)
    requires Views(r, cs, cols) && k <= j < r.len && p == Slot(r.head, r.len, j)
    requires ExtentsHold(cols, k, j, b[..])
    modifies b
    ensures ExtentsHold(cols, k, j + 1, b[..])
  {
    ghost var b0 := b[..];
    for s := 0 to |cs|
      invariant forall q :: 0 <= q < s ==> SameExtent(b[q], Scan(cols[q], k, j + 1))
      invariant forall q :: s <= q < |cs| ==> b[q] == b0[q]
    {
      assert cs[s][p] == cols[s][j];
      ScanIsExact(cols[s], k, j);
      NotedSame(b[s], Scan(cols[s], k, j), cols[s][j], j);
      b[s] := Noted(b[s], cs[s][p], j);
    }
  }

  /** Scan rows from `k` until the bucket ends. */
  method ScanBucket(r: Rings, cs: seq<seq<Reading>>, ghost cols: seq<seq<Reading>>, k: nat, i1: nat, end: real,
                    b: array<Extent>)
    returns (j: nat)
    requires r.Valid() && Views(r, cs, cols) && k < i1 <= r.len && b.Length == |cs|
    requires Rows(r.times, r.head, r.len)[k] < end
    modifies b
    ensures k < j <= i1 && ExtentsHold(cols, k, j, b[..])
    ensures forall i :: k <= i < j ==> Rows(r.times, r.head, r.len)[i] < end
    ensures j < i1 ==> end <= Rows(r.times, r.head, r.len)[j]
  {
    ghost var t := Rows(r.times, r.head, r.len);
    for s := 0 to |cs|
      invariant forall q :: 0 <= q < s ==> b[q].min == None && b[q].max == None
    {
      b[s] := b[s].(min := None, max := None);
    }
    j := k;
    while j < i1
      invariant k <= j <= i1 && ExtentsHold(cols, k, j, b[..])
      invariant forall i :: k <= i < j ==> t[i] < end
    {
      var p := Slot(r.head, r.len, j);
      assert r.times[p] == t[j];
      if r.times[p] >= end {
        break;
      }
      NoteRow(r, cs, cols, j, p, b, k);
      j := j + 1;
    }
  }

  /** Draw the bucket of rows `k..j` and fold its extents into the ranges. */
  method PushBucket(ghost cols: seq<seq<Reading>>, ghost i0: nat, ghost k: nat, ghost j: nat, b: array<Extent>,
                    ys: seq<seq<Option<real>>>, lo: array<Option<real>>, hi: array<Option<real>>)
    returns (drawn: seq<seq<Option<real>>>)
    requires |ys| == |cols| && lo != hi && i0 <= k < j
    requires RangesHold(cols, i0, k, lo[..], hi[..]) && ExtentsHold(cols, k, j, b[..])
    modifies lo, hi
    ensures RangesHold(cols, i0, j, lo[..], hi[..])
    ensures |drawn| == |ys| && forall s :: 0 <= s < |ys| ==> drawn[s] == ys[s] + Pair(Scan(cols[s], k, j))
  {
    ghost var lo0, hi0 := lo[..], hi[..];
    drawn := ys;
    for s := 0 to |ys|
      invariant |drawn| == |ys|
      invariant forall q :: 0 <= q < s ==> drawn[q] == ys[q] + Pair(Scan(cols[q], k, j))
      invariant forall q :: s <= q < |ys| ==> drawn[q] == ys[q]
      invariant forall q :: 0 <= q < s ==> lo[q] == Scan(cols[q], i0, j).min && hi[q] == Scan(cols[q], i0, j).max
      invariant forall q :: s <= q < |ys| ==> lo[q] == lo0[q] && hi[q] == hi0[q]
    {
      assert SameExtent(b[s], Scan(cols[s], k, j));
      ScanIsExact(cols[s], k, j);
      ScanConcat(cols[s], i0, k, j);
      if b[s].min.None? {
        drawn := drawn[s := drawn[s] + [None, None]];
      } else {
        var minFirst := b[s].iMin <= b[s].iMax;
        drawn := drawn[s := drawn[s] + (if minFirst then [b[s].min, b[s].max] else [b[s].max, b[s].min])];
        if Lower(b[s].min.value, lo[s]) {
          lo[s] := b[s].min;
        }
        if Higher(b[s].max.value, hi[s]) {
          hi[s] := b[s].max;
        }
      }
    }
  }

  lemma NextBucket(t: seq<real>, from: real, width: real, i0: nat, k: nat, j: nat, parts: seq<Stretch>)
    requires width > 0.0 && Nondecreasing(t) && k < j <= |t| && Partition(t, from, width, i0, k, parts)
    requires parts == [] || parts[|parts| - 1].q < Bucket(t[k], from, width)
    requires forall i :: k <= i < j ==> t[i] < Edge(from, width, Bucket(t[k], from, width) + 1)
    ensures Partition(t, from, width, i0, j, parts + [Stretch(Bucket(t[k], from, width), k, j)])
  {
    var q := Bucket(t[k], from, width);
    InBucket(t[k], from, width, q);
    forall i | k <= i < j ensures Bucket(t[i], from, width) == q {
      InBucket(t[i], from, width, q);
    }
    assert (parts + [Stretch(q, k, j)])[..|parts|] == parts;
  }

  lemma BucketIsOver(t: seq<real>, from: real, width: real, k: nat, j: nat)
    requires width > 0.0 && Nondecreasing(t) && k < j < |t|
    requires Edge(from, width, Bucket(t[k], from, width) + 1) <= t[j]
    ensures Bucket(t[k], from, width) < Bucket(t[j], from, width)
  {
    var x := Offset(t[j], from, width);
    PastEdge(t[j], from, width, x, Bucket(t[k], from, width) + 1);
  }

  lemma RowInItsBucket(t: real, from: real, width: real)
    requires width > 0.0
    ensures t < Edge(from, width, Bucket(t, from, width) + 1)
  {
    InBucket(t, from, width, Bucket(t, from, width));
  }

  ghost predicate DrawnTo(cols: seq<seq<Reading>>, parts: seq<Stretch>, ys: seq<seq<Option<real>>>) {
    && |ys| == |cols|
    && forall s :: 0 <= s < |cols| ==> Tiled(cols[s], parts) && ys[s] == Ys(cols[s], parts)
  }

  lemma DrawnNext(cols: seq<seq<Reading>>, parts: seq<Stretch>, ys: seq<seq<Option<real>>>, st: Stretch,
                  drawn: seq<seq<Option<real>>>)
    requires DrawnTo(cols, parts, ys) && |drawn| == |ys| && st.lo <= st.hi
    requires forall s :: 0 <= s < |cols| ==>
               st.hi <= |cols[s]| && drawn[s] == ys[s] + Pair(Scan(cols[s], st.lo, st.hi))
    ensures DrawnTo(cols, parts + [st], drawn)
  {
    assert (parts + [st])[..|parts|] == parts;
  }

  /** Draw rows `i0..i1` bucket by bucket; `parts` are the stretches of rows drawn together. */
  method Decimate(r: Rings, cs: seq<seq<Reading>>, ghost cols: seq<seq<Reading>>, from: real, width: real,
                  i0: nat, i1: nat, lo: array<Option<real>>, hi: array<Option<real>>)
    returns (xs: seq<real>, ys: seq<seq<Option<real>>>, ghost parts: seq<Stretch>)
    requires r.Valid() && Views(r, cs, cols) && i0 <= i1 <= r.len && width > 0.0
    requires lo != hi && RangesHold(cols, i0, i0, lo[..], hi[..])
    modifies lo, hi
    ensures Partition(Rows(r.times, r.head, r.len), from, width, i0, i1, parts)
    ensures xs == Xs(parts, from, width) && DrawnTo(cols, parts, ys)
    ensures RangesHold(cols, i0, i1, lo[..], hi[..])
  {
    ghost var t := Rows(r.times, r.head, r.len);
    var b := new Extent[|cs|](_ => NOTHING);
    xs, ys, parts := [], seq(|cs|, _ => []), [];
    var k := i0;
    while k < i1
      invariant i0 <= k <= i1 && Partition(t, from, width, i0, k, parts)
      invariant k < i1 && parts != [] ==> parts[|parts| - 1].q < Bucket(t[k], from, width)
      invariant xs == Xs(parts, from, width) && DrawnTo(cols, parts, ys)
      invariant RangesHold(cols, i0, k, lo[..], hi[..])
    {
      assert r.times[Slot(r.head, r.len, k)] == t[k];
      var bucket := Bucket(r.times[Slot(r.head, r.len, k)], from, width);
      var end := Edge(from, width, bucket + 1);
      RowInItsBucket(t[k], from, width);
      var j := ScanBucket(r, cs, cols, k, i1, end, b);
      NextBucket(t, from, width, i0, k, j, parts);
      if j < i1 {
        BucketIsOver(t, from, width, k, j);
      }
      var x0 := Edge(from, width, bucket);
      xs := xs + [x0 + width * 0.25, x0 + width * 0.75];
      var drawn := PushBucket(cols, i0, k, j, b, ys, lo, hi);
      DrawnNext(cols, parts, ys, Stretch(bucket, k, j), drawn);
      assert (parts + [Stretch(bucket, k, j)])[..|parts|] == parts;
      ys, parts, k := drawn, parts + [Stretch(bucket, k, j)], j;
    }
  }

  // ----- windows that end before they start -----

  /** Where the scan that starts at row `k` stops: the first row at or past `end`. */
  function ScanStop(t: seq<real>, k: nat, i1: nat, end: real): (j: nat)
    requires k <= i1 <= |t|
    ensures k <= j <= i1
    decreases i1 - k
  {
    if k == i1 || t[k] >= end then k else ScanStop(t, k + 1, i1, end)
  }

  /** The end of the bucket a row at `x` falls in, for columns of any width but none. */
  function BucketEnd(x: real, from: real, width: real): real
    requires width != 0.0
  {
    Edge(from, width, ((x - from) / width).Floor + 1)
  }

  lemma BeforeItsEndIff(x: real, from: real, width: real)
    requires width != 0.0
    ensures x < BucketEnd(x, from, width) <==> width > 0.0
  {
    var y := (x - from) / width;
    var rest := (y.Floor + 1) as real - y;
    assert y * width == x - from;
    assert BucketEnd(x, from, width) == from + (y + rest) * width;
    assert (y + rest) * width == y * width + rest * width;
    assert rest > 0.0;
    SignOfProduct(rest, width);
  }

  lemma SignOfProduct(a: real, b: real)
    requires a > 0.0 && b != 0.0
    ensures a * b > 0.0 <==> b > 0.0
  {
    if b < 0.0 {
      assert a * -b > 0.0;
    }
  }

  /**
   A turn of the bucket loop moves past the row it starts at if and only if columns have a positive width: in a window
   that ends before it starts and has more than two rows a pixel, the loop does not end.
   */
  lemma LoopMovesOnIff(t: seq<real>, from: real, to: real, pixels: nat, k: nat, i1: nat)
    requires k < i1 <= |t| && from != to && pixels >= 1
    ensures var width := (to - from) / pixels as real;
            width != 0.0 && (ScanStop(t, k, i1, BucketEnd(t[k], from, width)) > k <==> from < to)
  {
    var width := (to - from) / pixels as real;
    assert width * pixels as real == to - from;
    SignOfProduct(pixels as real, width);
    BeforeItsEndIff(t[k], from, width);
  }

  datatype Plot = Plot(xs: seq<real>, ys: seq<seq<Option<real>>>, ranges: seq<Option<(real, real)>>)

  /** `range` is the lowest and highest number `c` reads in the window; none when it reads no number there. */
  ghost predicate RangeOf(t: seq<real>, c: seq<Reading>, from: real, to: real, range: Option<(real, real)>)
    requires |c| == |t|
  {
    && (range.None? <==> forall k :: InWindow(t, k, from, to) ==> c[k].NaN?)
    && (range.Some? ==>
          && (exists k :: InWindow(t, k, from, to) && c[k] == Num(range.value.0))
          && (exists k :: InWindow(t, k, from, to) && c[k] == Num(range.value.1))
          && forall k :: InWindow(t, k, from, to) && c[k].Num? ==> range.value.0 <= c[k].v <= range.value.1)
  }

  lemma RangeIsExact(t: seq<real>, c: seq<Reading>, from: real, to: real, i0: nat, i1: nat)
    requires |c| == |t| && SplitsAt(t, i0, from) && SplitsAt(t, i1, to + SLACK) && i0 <= i1
    ensures var e := Scan(c, i0, i1);
            e.min.Some? == e.max.Some? &&
            RangeOf(t, c, from, to, if e.min.None? then None else Some((e.min.value, e.max.value)))
  {
    ScanIsExact(c, i0, i1);
    var e := Scan(c, i0, i1);
    if e.min.Some? {
      assert InWindow(t, e.iMin, from, to) && InWindow(t, e.iMax, from, to);
    }
  }

  lemma EmptyWindow(t: seq<real>, c: seq<Reading>, from: real, to: real, i0: nat, i1: nat)
    requires |c| == |t| && SplitsAt(t, i0, from) && SplitsAt(t, i1, to + SLACK) && i1 < i0
    ensures RangeOf(t, c, from, to, None)
  {
  }

  /** Every selected row drawn as it is: a number as itself, and NaN as a gap. */
  ghost predicate Plain(t: seq<real>, cols: seq<seq<Reading>>, i0: nat, i1: nat,
                        xs: seq<real>, ys: seq<seq<Option<real>>>)
  {
    && i0 <= i1 <= |t| && xs == t[i0..i1] && |ys| == |cols|
    && forall s :: 0 <= s < |cols| ==> i1 <= |cols[s]| && DrawsRows(cols[s], i0, i1, ys[s])
  }

  ghost predicate DrawsRows(c: seq<Reading>, i0: nat, i1: nat, ys: seq<Option<real>>)
    requires i0 <= i1 <= |c|
  {
    && |ys| == i1 - i0
    && forall k :: 0 <= k < |ys| ==> ys[k] == match c[i0 + k] case NaN => None case Num(v) => Some(v)
  }

  /** The selected rows drawn bucket by bucket, a quarter and three quarters of the way across its column. */
  ghost predicate Decimated(t: seq<real>, cols: seq<seq<Reading>>, from: real, width: real, i0: nat, i1: nat,
                            parts: seq<Stretch>, xs: seq<real>, ys: seq<seq<Option<real>>>)
    requires width > 0.0
  {
    && Partition(t, from, width, i0, i1, parts) && |xs| == 2 * |parts| && |ys| == |cols|
    && (forall b :: 0 <= b < |parts| ==>
          && xs[2 * b] == from + parts[b].q as real * width + width * 0.25
          && xs[2 * b + 1] == from + parts[b].q as real * width + width * 0.75)
    && forall s :: 0 <= s < |cols| ==> Tiled(cols[s], parts) && DrawsParts(cols[s], parts, ys[s])
  }

  ghost predicate DrawsParts(c: seq<Reading>, parts: seq<Stretch>, ys: seq<Option<real>>)
    requires Tiled(c, parts)
  {
    && |ys| == 2 * |parts|
    && forall b :: 0 <= b < |parts| ==> ShownBy(c, parts[b].lo, parts[b].hi, ys[2 * b], ys[2 * b + 1])
  }

  lemma DecimatedPoints(t: seq<real>, cols: seq<seq<Reading>>, from: real, width: real, i0: nat, i1: nat,
                        parts: seq<Stretch>, xs: seq<real>, ys: seq<seq<Option<real>>>)
    requires width > 0.0 && Partition(t, from, width, i0, i1, parts) && forall s :: 0 <= s < |cols| ==> |cols[s]| == |t|
    requires xs == Xs(parts, from, width) && DrawnTo(cols, parts, ys)
    ensures Decimated(t, cols, from, width, i0, i1, parts, xs, ys)
  {
    forall b | 0 <= b < |parts|
      ensures xs[2 * b] == from + parts[b].q as real * width + width * 0.25
      ensures xs[2 * b + 1] == from + parts[b].q as real * width + width * 0.75
    {
      XsAt(parts, from, width, b);
    }
    forall s, b | 0 <= s < |cols| && 0 <= b < |parts|
      ensures ShownBy(cols[s], parts[b].lo, parts[b].hi, ys[s][2 * b], ys[s][2 * b + 1])
    {
      PointsAt(t, cols[s], from, width, i0, i1, parts, b);
    }
  }

  lemma PlainPoints(t: seq<real>, cols: seq<seq<Reading>>, i0: nat, i1: nat, xs: seq<real>, ys: seq<seq<Option<real>>>)
    requires i0 <= i1 <= |t| && forall s :: 0 <= s < |cols| ==> |cols[s]| == |t|
    requires xs == t[i0..i1] && |ys| == |cols| && forall s :: 0 <= s < |cols| ==> ys[s] == EveryReading(cols[s], i0, i1)
    ensures Plain(t, cols, i0, i1, xs, ys)
  {
    forall s, k | 0 <= s < |cols| && 0 <= k < i1 - i0
      ensures |ys[s]| == i1 - i0 && ys[s][k] == Shown(cols[s][i0 + k])
    {
      assert EveryReading(cols[s], i0, i1)[k] == Shown(cols[s][i0 + k]);
    }
  }

  ghost predicate RangesExact(t: seq<real>, cols: seq<seq<Reading>>, from: real, to: real, plot: Plot) {
    && |plot.ranges| == |cols|
    && forall s :: 0 <= s < |cols| ==> |cols[s]| == |t| && RangeOf(t, cols[s], from, to, plot.ranges[s])
  }

  /** Rows of the window are at most two per pixel. */
  ghost predicate Few(t: seq<real>, from: real, to: real, pixels: nat) {
    forall i, j :: InWindow(t, i, from, to) && InWindow(t, j, from, to) ==> j - i < 2 * pixels
  }

  function Columns(r: Rings, ids: seq<Id>): (cols: seq<seq<Reading>>)
    requires r.Valid()
    ensures |cols| == |ids| && forall s :: 0 <= s < |ids| ==> cols[s] == Readings(r, ids[s])
  {
    seq(|ids|, s requires 0 <= s < |ids| => Readings(r, ids[s]))
  }

  /** The search's infinities become an absent range. */
  function Ranges(lo: seq<Option<real>>, hi: seq<Option<real>>): (ranges: seq<Option<(real, real)>>)
    requires |lo| == |hi| && forall s :: 0 <= s < |lo| ==> lo[s].Some? == hi[s].Some?
    ensures |ranges| == |lo|
  {
    seq(|lo|, s requires 0 <= s < |lo| => if lo[s].None? then None else Some((lo[s].value, hi[s].value)))
  }

  lemma RangesAreExact(t: seq<real>, cols: seq<seq<Reading>>, from: real, to: real, i0: nat, i1: nat,
                       lo: seq<Option<real>>, hi: seq<Option<real>>, s: nat)
    requires s < |cols| && |cols[s]| == |t| && i0 <= i1 && RangesHold(cols, i0, i1, lo, hi)
    requires SplitsAt(t, i0, from) && SplitsAt(t, i1, to + SLACK)
    ensures lo[s].Some? == hi[s].Some?
    ensures RangeOf(t, cols[s], from, to, if lo[s].None? then None else Some((lo[s].value, hi[s].value)))
  {
    RangeIsExact(t, cols[s], from, to, i0, i1);
  }

  /** Rows `i0..i1` drawn, plainly or decimated. */
  method DrawRows(r: Rings, cs: seq<seq<Reading>>, ghost cols: seq<seq<Reading>>, from: real, to: real, pixels: nat,
                  i0: nat, i1: nat, lo: array<Option<real>>, hi: array<Option<real>>)
    returns (xs: seq<real>, ys: seq<seq<Option<real>>>, ghost parts: seq<Stretch>)
    requires r.Valid() && Views(r, cs, cols) && pixels >= 1
    requires i0 <= i1 <= r.len && (from < to || i1 - i0 <= pixels * 2)
    requires lo != hi && RangesHold(cols, i0, i0, lo[..], hi[..])
    modifies lo, hi
    ensures RangesHold(cols, i0, i1, lo[..], hi[..])
    ensures i1 - i0 <= pixels * 2 ==> Plain(Rows(r.times, r.head, r.len), cols, i0, i1, xs, ys)
    ensures i1 - i0 > pixels * 2 ==>
              Decimated(Rows(r.times, r.head, r.len), cols, from, WidthOf(from, to, pixels), i0, i1, parts, xs, ys)
  {
    ghost var t := Rows(r.times, r.head, r.len);
    parts := [];
    if i1 - i0 <= pixels * 2 {
      xs, ys := EveryRow(r, cs, cols, i0, i1, lo, hi);
      PlainPoints(t, cols, i0, i1, xs, ys);
    } else {
      xs, ys, parts := Decimate(r, cs, cols, from, WidthOf(from, to, pixels), i0, i1, lo, hi);
      DecimatedPoints(t, cols, from, WidthOf(from, to, pixels), i0, i1, parts, xs, ys);
    }
  }

  /** Rows `i0..i1` drawn, plainly or decimated, with the lowest and highest of each value. */
  method Draw(r: Rings, cs: seq<seq<Reading>>, ghost cols: seq<seq<Reading>>, from: real, to: real, pixels: nat,
              i0: nat, i1: nat)
    returns (plot: Plot, ghost parts: seq<Stretch>)
    requires r.Valid() && Views(r, cs, cols) && pixels >= 1
    requires SplitsAt(Rows(r.times, r.head, r.len), i0, from) && SplitsAt(Rows(r.times, r.head, r.len), i1, to + SLACK)
    requires i0 <= i1 && (from < to || i1 - i0 <= pixels * 2)
    ensures RangesExact(Rows(r.times, r.head, r.len), cols, from, to, plot)
    ensures i1 - i0 <= pixels * 2 ==> Plain(Rows(r.times, r.head, r.len), cols, i0, i1, plot.xs, plot.ys)
    ensures i1 - i0 > pixels * 2 ==>
              Decimated(Rows(r.times, r.head, r.len), cols, from, WidthOf(from, to, pixels), i0, i1, parts,
                        plot.xs, plot.ys)
  {
    ghost var t := Rows(r.times, r.head, r.len);
    var lo := new Option<real>[|cs|](_ => None);
    var hi := new Option<real>[|cs|](_ => None);
    var xs, ys;
    xs, ys, parts := DrawRows(r, cs, cols, from, to, pixels, i0, i1, lo, hi);
    forall s | 0 <= s < |cols|
      ensures lo[s].Some? == hi[s].Some?
      ensures RangeOf(t, cols[s], from, to, if lo[s].None? then None else Some((lo[s].value, hi[s].value)))
    {
      RangesAreExact(t, cols, from, to, i0, i1, lo[..], hi[..], s);
    }
    plot := Plot(xs, ys, Ranges(lo[..], hi[..]));
  }

  /** What to draw of `ids` from `from` to `to` on `pixels` columns. */
  method Query(r: Rings, ids: seq<Id>, from: real, to: real, pixels: nat)
    returns (plot: Plot, ghost i0: nat, ghost i1: nat, ghost parts: seq<Stretch>)
    requires r.Valid() && pixels >= 1
    requires from < to || Few(Rows(r.times, r.head, r.len), from, to, pixels)
    ensures RangesExact(Rows(r.times, r.head, r.len), Columns(r, ids), from, to, plot)
    ensures forall k :: i0 <= k < i1 <==> InWindow(Rows(r.times, r.head, r.len), k, from, to)
    ensures i0 <= i1
    ensures i1 - i0 <= pixels * 2 ==> Plain(Rows(r.times, r.head, r.len), Columns(r, ids), i0, i1, plot.xs, plot.ys)
    ensures i1 - i0 > pixels * 2 ==>
              && from < to
              && Decimated(Rows(r.times, r.head, r.len), Columns(r, ids), from, WidthOf(from, to, pixels),
                           i0, i1, parts, plot.xs, plot.ys)
  {
    ghost var t, cols := Rows(r.times, r.head, r.len), Columns(r, ids);
    var first := LowerBound(r, from);
    var last := LowerBound(r, to + SLACK);
    var cs := seq(|ids|, s requires 0 <= s < |ids| => Ring(r, ids[s]));
    parts := [];
    i0, i1 := first, last;
    if last < first {
      // Nothing to draw: the row loop runs from `first` up to `last`.
      forall s | 0 <= s < |ids| ensures RangeOf(t, cols[s], from, to, None) {
        EmptyWindow(t, cols[s], from, to, i0, i1);
      }
      plot := Plot([], seq(|ids|, _ => []), seq(|ids|, _ => None));
      i1 := i0;
    } else {
      if first + 2 * pixels < last {
        assert InWindow(t, first, from, to) && InWindow(t, first + 2 * pixels, from, to);
      }
      plot, parts := Draw(r, cs, cols, from, to, pixels, first, last);
    }
  }

  // ----- the rings the query sees -----

  function Mapped<T>(cells: seq<Bits>, f: Bits -> T): (r: seq<T>)
    ensures |r| == |cells| && forall k :: 0 <= k < |cells| ==> r[k] == f(cells[k])
  {
    seq(|cells|, k requires 0 <= k < |cells| => f(cells[k]))
  }

  /** The store's rings, its cells read as numbers. */
  function RingsOf(s: Store, time: Bits -> real, reading: Bits -> Reading): Rings {
    Rings(Mapped(s.times, time), map id | id in s.columns :: Mapped(s.columns[id], reading), s.head, s.len)
  }

  lemma RowsOfMapped(a: Cells, head: Index, len: nat, reading: Bits -> Reading)
    requires len <= CAPACITY
    ensures Rows(Mapped(a, reading), head, len) == Mapped(View(a, head, len), reading)
  {
  }

  /** The query sees the newest rows of the log, whatever the rings went through. */
  lemma QuerySeesTheLog(s: Store, log: seq<Row>, time: Bits -> real, reading: Bits -> Reading, id: Id)
    requires Represents(s, log) && reading(NAN) == NaN
    ensures var r := RingsOf(s, time, reading);
            && Rows(r.times, r.head, r.len) == Mapped(Last(Times(log)), time)
            && (id in r.columns ==> |r.columns[id]| == CAPACITY)
            && Readings(r, id) == Mapped(Last(History.Readings(log, id)), reading)
  {
    assert Visible(s, id) == Last(History.Readings(log, id));
    if id in s.columns {
      RowsOfMapped(s.columns[id], s.head, s.len, reading);
    }
  }
}
