/**
 The planner's coalescing rule over spans sorted by address, and why no grouping under the same rule needs fewer reads.
 */
module Coalesce {

  /** One value's span, and the item it belongs to. */
  datatype Entry = Entry(item: nat, start: nat, len: nat) {
    function End(): nat {
      start + len
    }
  }

  datatype Region = Region(address: nat, len: nat) {
    function End(): nat {
      address + len
    }
  }

  datatype Limits = Limits(gap: nat, maxLen: nat)

  function Max(a: nat, b: nat): nat {
    if a >= b then a else b
  }

  predicate Before(a: Entry, b: Entry) {
    a.start < b.start || (a.start == b.start && a.len <= b.len)
  }

  predicate Sorted(order: seq<Entry>) {
    forall i, j :: 0 <= i < j < |order| ==> order[i].start <= order[j].start
  }

  // ----- the greedy rule -----

  /** Whether `e` is read together with region `r`. */
  predicate Joins(r: Region, e: Entry, lim: Limits) {
    e.start <= r.End() + lim.gap && Max(e.End(), r.End()) - r.address <= lim.maxLen
  }

  /** Entry `n` starts a region of its own. */
  predicate IsHead(order: seq<Entry>, n: nat, lim: Limits)
    requires n < |order|
    decreases n, 0
  {
    n == 0 || !Joins(Current(order, n, lim), order[n], lim)
  }

  /** The region being grown after the first `n` entries. */
  function Current(order: seq<Entry>, n: nat, lim: Limits): Region
    requires 0 < n <= |order|
    decreases n - 1, 1
  {
    var e := order[n - 1];
    if IsHead(order, n - 1, lim) then Region(e.start, e.len)
    else
      var r := Current(order, n - 1, lim);
      Region(r.address, Max(e.End(), r.End()) - r.address)
  }

  /** Indices of the entries that start the regions of the first `n` entries. */
  function Heads(order: seq<Entry>, n: nat, lim: Limits): (heads: seq<nat>)
    requires n <= |order|
    ensures forall k :: 0 <= k < |heads| ==> heads[k] < n
  {
    if n == 0 then []
    else Heads(order, n - 1, lim) + if IsHead(order, n - 1, lim) then [n - 1] else []
  }

  /** The regions read for the first `n` entries, in order. */
  function Regions(order: seq<Entry>, n: nat, lim: Limits): (regions: seq<Region>)
    requires n <= |order|
    ensures |regions| == |Heads(order, n, lim)|
  {
    if n == 0 then []
    else
      var before := Regions(order, n - 1, lim);
      if IsHead(order, n - 1, lim) then before + [Current(order, n, lim)]
      else if before == [] then []
      else before[|before| - 1 := Current(order, n, lim)]
  }

  // ----- what a region holds -----

  /** Region `g` of the first `n` entries starts with entry `Heads[g]`, and the last one is the current one. */
  lemma {:induction false} HeadStartsRegion(order: seq<Entry>, n: nat, lim: Limits)
    requires 0 < n <= |order|
    ensures var h := Heads(order, n, lim);
            && h != []
            && Regions(order, n, lim)[|h| - 1] == Current(order, n, lim)
            && Current(order, n, lim).address == order[h[|h| - 1]].start
  {
    if n > 1 {
      HeadStartsRegion(order, n - 1, lim);
    }
  }

  /** The region entry `k` was put in: the one current when it was placed. */
  function RegionOf(order: seq<Entry>, k: nat, lim: Limits): nat
    requires k < |order|
  {
    HeadStartsRegion(order, k + 1, lim);
    |Heads(order, k + 1, lim)| - 1
  }

  /** Placing one more entry leaves the earlier regions alone; the current one keeps its address and only grows. */
  lemma RegionsStep(order: seq<Entry>, n: nat, g: nat, lim: Limits)
    requires 0 < n < |order| && g < |Heads(order, n, lim)|
    ensures g < |Heads(order, n + 1, lim)|
    ensures Regions(order, n + 1, lim)[g].address == Regions(order, n, lim)[g].address
    ensures Regions(order, n, lim)[g].End() <= Regions(order, n + 1, lim)[g].End()
    ensures Regions(order, n + 1, lim)[g].len <= Max(Regions(order, n, lim)[g].len, lim.maxLen)
  {
    HeadStartsRegion(order, n, lim);
    HeadStartsRegion(order, n + 1, lim);
  }

  lemma {:induction false} RegionsGrow(order: seq<Entry>, m: nat, n: nat, g: nat, lim: Limits)
    requires 0 < m <= n <= |order| && g < |Heads(order, m, lim)|
    ensures g < |Heads(order, n, lim)|
    ensures Regions(order, n, lim)[g].address == Regions(order, m, lim)[g].address
    ensures Regions(order, m, lim)[g].End() <= Regions(order, n, lim)[g].End()
    ensures Regions(order, n, lim)[g].len <= Max(Regions(order, m, lim)[g].len, lim.maxLen)
    decreases n - m
  {
    if m < n {
      RegionsGrow(order, m, n - 1, g, lim);
      RegionsStep(order, n - 1, g, lim);
    }
  }

  /** Every entry lies inside the region it was put in. */
  lemma EntryInRegion(order: seq<Entry>, k: nat, lim: Limits)
    requires Sorted(order) && k < |order|
    ensures var regions, g := Regions(order, |order|, lim), RegionOf(order, k, lim);
            && g < |regions|
            && regions[g].address <= order[k].start && order[k].End() <= regions[g].End()
  {
    HeadStartsRegion(order, k + 1, lim);
    RegionsGrow(order, k + 1, |order|, RegionOf(order, k, lim), lim);
    CurrentCovers(order, k + 1, lim);
  }

  /** The current region starts no later than its newest entry and ends no earlier. */
  lemma {:induction false} CurrentCovers(order: seq<Entry>, n: nat, lim: Limits)
    requires Sorted(order) && 0 < n <= |order|
    ensures Current(order, n, lim).address <= order[n - 1].start
    ensures order[n - 1].End() <= Current(order, n, lim).End()
  {
    if n > 1 {
      CurrentCovers(order, n - 1, lim);
    }
  }

  /** The region that covers both `r` and `e`. */
  function Merged(r: Region, e: Entry): Region {
    Region(r.address, Max(e.End(), r.End()) - r.address)
  }

  /** One turn of the planner's loop. */
  function Place(regions: seq<Region>, e: Entry, lim: Limits): (r: seq<Region>)
    ensures r != []
  {
    if regions != [] && Joins(regions[|regions| - 1], e, lim) then
      regions[|regions| - 1 := Merged(regions[|regions| - 1], e)]
    else regions + [Region(e.start, e.len)]
  }

  /** The loop computes the regions, and puts entry `n` in the last of them. */
  lemma NextRegions(order: seq<Entry>, n: nat, lim: Limits)
    requires Sorted(order) && n < |order|
    ensures var after := Place(Regions(order, n, lim), order[n], lim);
            && after == Regions(order, n + 1, lim)
            && RegionOf(order, n, lim) == |after| - 1
            && after[|after| - 1].address == Current(order, n + 1, lim).address <= order[n].start
  {
    if n > 0 {
      HeadStartsRegion(order, n, lim);
    }
    HeadStartsRegion(order, n + 1, lim);
    CurrentCovers(order, n + 1, lim);
  }

  // ----- optimality -----

  predicate NoOversize(order: seq<Entry>, lim: Limits) {
    forall i :: 0 <= i < |order| ==> order[i].len <= lim.maxLen
  }

  /** The current region stays within the limit, and nothing placed so far ends beyond it. */
  lemma {:induction false} CurrentIsFurthest(order: seq<Entry>, n: nat, lim: Limits)
    requires Sorted(order) && NoOversize(order, lim) && 0 < n <= |order|
    ensures Current(order, n, lim).len <= lim.maxLen
    ensures forall i :: 0 <= i < n ==> order[i].End() <= Current(order, n, lim).End()
  {
    if n > 1 {
      CurrentIsFurthest(order, n - 1, lim);
      CurrentCovers(order, n - 1, lim);
    }
  }

  /** A head ends beyond everything placed before it. */
  lemma HeadEndsLast(order: seq<Entry>, n: nat, i: nat, lim: Limits)
    requires Sorted(order) && NoOversize(order, lim) && i < n < |order| && IsHead(order, n, lim)
    ensures order[i].End() <= order[n].End()
  {
    CurrentIsFurthest(order, n, lim);
  }

  /**
   Entries with the same group number are read together: unless there is only one, they span at most `maxLen`; and each
   of them but the leftmost starts within `gap` of the end of one that starts before it.
   */
  ghost predicate Feasible(order: seq<Entry>, group: seq<nat>, lim: Limits) {
    && |group| == |order|
    && (forall i, j :: 0 <= i < |order| && 0 <= j < |order| && group[i] == group[j] ==>
          Alone(group, i) || order[j].End() - order[i].start <= lim.maxLen)
    && (forall j :: 0 <= j < |order| ==> Leftmost(order, group, j) || Reached(order, group, j, lim))
  }

  ghost predicate Alone(group: seq<nat>, i: nat)
    requires i < |group|
  {
    forall k :: 0 <= k < |group| && group[k] == group[i] ==> k == i
  }

  ghost predicate Leftmost(order: seq<Entry>, group: seq<nat>, j: nat)
    requires j < |order| == |group|
  {
    forall i :: 0 <= i < |order| && group[i] == group[j] ==> order[j].start <= order[i].start
  }

  ghost predicate Reached(order: seq<Entry>, group: seq<nat>, j: nat, lim: Limits)
    requires j < |order| == |group|
  {
    exists i :: 0 <= i < |order| && group[i] == group[j] &&
      order[i].start < order[j].start <= order[i].End() + lim.gap
  }

  /** The first entry from `k` on with the group of `j`. */
  ghost function FirstFrom(group: seq<nat>, k: nat, j: nat): (m: nat)
    requires k <= j < |group|
    ensures k <= m <= j && group[m] == group[j]
    ensures forall i :: k <= i < m ==> group[i] != group[j]
    decreases j - k
  {
    if group[k] == group[j] then k else FirstFrom(group, k + 1, j)
  }

  /** When entry `k` is out of reach of everything before it, no group can straddle it. */
  lemma GapSeparates(order: seq<Entry>, group: seq<nat>, h: nat, k: nat, j: nat, lim: Limits)
    requires Sorted(order) && Feasible(order, group, lim)
    requires h < k <= j < |order|
    requires forall i :: 0 <= i < k ==> order[i].End() + lim.gap < order[k].start
    ensures group[h] != group[j]
  {
    if group[h] == group[j] {
      var m := FirstFrom(group, k, j);
      assert order[h].End() + lim.gap < order[k].start <= order[m].start;
      assert !Leftmost(order, group, m);
      FirstIsNotReached(order, group, k, m, lim);
    }
  }

  lemma FirstIsNotReached(order: seq<Entry>, group: seq<nat>, k: nat, m: nat, lim: Limits)
    requires Sorted(order) && |group| == |order|
    requires k <= m < |order| && forall i :: k <= i < m ==> group[i] != group[m]
    requires forall i :: 0 <= i < k ==> order[i].End() + lim.gap < order[k].start
    ensures !Reached(order, group, m, lim)
  {
    forall i | 0 <= i < |order| && group[i] == group[m]
      ensures !(order[i].start < order[m].start <= order[i].End() + lim.gap)
    {
      if i < k {
        assert order[k].start <= order[m].start;
      } else if m < i {
        assert order[m].start <= order[i].start;
      }
    }
  }

  /** Between a head and the next one. */
  lemma NextHead(order: seq<Entry>, a: nat, lim: Limits)
    requires a + 1 < |Heads(order, |order|, lim)|
    ensures var heads := Heads(order, |order|, lim);
            var k := heads[a + 1];
            && 0 < k < |order| && IsHead(order, k, lim)
            && Current(order, k, lim).address == order[heads[a]].start
            && heads[a] < k
  {
    HeadsAreHeads(order, |order|, a + 1, lim);
    HeadStartsRegion(order, Heads(order, |order|, lim)[a + 1], lim);
  }

  /** The heads found before the `a`-th one are those of the entries before it. */
  lemma {:induction false} HeadsAreHeads(order: seq<Entry>, n: nat, a: nat, lim: Limits)
    requires n <= |order| && a < |Heads(order, n, lim)|
    ensures var heads := Heads(order, n, lim);
            && heads[a] < n && IsHead(order, heads[a], lim)
            && Heads(order, heads[a], lim) == heads[..a]
            && (a > 0 ==> heads[a] > 0)
  {
    var before := Heads(order, n - 1, lim);
    if a < |before| {
      HeadsAreHeads(order, n - 1, a, lim);
      assert Heads(order, n, lim)[..a] == before[..a];
    } else {
      assert Heads(order, n, lim)[..a] == before;
    }
  }

  /** The head `k` that ends the region of `h` keeps `h` and every later head in different groups. */
  lemma HeadSeparates(order: seq<Entry>, group: seq<nat>, h: nat, k: nat, j: nat, lim: Limits)
    requires Sorted(order) && NoOversize(order, lim) && Feasible(order, group, lim)
    requires h < k <= j < |order| && IsHead(order, k, lim) && IsHead(order, j, lim)
    requires Current(order, k, lim).address == order[h].start
    ensures group[h] != group[j]
  {
    var r := Current(order, k, lim);
    CurrentIsFurthest(order, k, lim);
    if order[k].start > r.End() + lim.gap {
      GapSeparates(order, group, h, k, j, lim);
    } else {
      assert order[k].End() > order[h].start + lim.maxLen;
      if k < j {
        HeadEndsLast(order, j, k, lim);
      }
    }
  }

  /** Two heads are never in the same feasible group. */
  lemma HeadsApart(order: seq<Entry>, group: seq<nat>, a: nat, b: nat, lim: Limits)
    requires Sorted(order) && NoOversize(order, lim) && Feasible(order, group, lim)
    requires a < b < |Heads(order, |order|, lim)|
    ensures group[Heads(order, |order|, lim)[a]] != group[Heads(order, |order|, lim)[b]]
  {
    var heads := Heads(order, |order|, lim);
    NextHead(order, a, lim);
    if a + 1 < b {
      HeadsDiffer(order, a + 1, b, lim);
    }
    HeadSeparates(order, group, heads[a], heads[a + 1], heads[b], lim);
  }

  lemma HeadsIncrease(order: seq<Entry>, n: nat, a: nat, b: nat, lim: Limits)
    requires n <= |order| && a <= b < |Heads(order, n, lim)|
    ensures Heads(order, n, lim)[a] <= Heads(order, n, lim)[b]
  {
    HeadsAreHeads(order, n, b, lim);
    if a < b {
      assert Heads(order, n, lim)[a] == Heads(order, Heads(order, n, lim)[b], lim)[a];
    }
  }

  /** A list without repetitions is no longer than a set that holds all of it. */
  lemma {:induction false} Pigeonhole(s: seq<nat>, all: set<nat>)
    requires forall i :: 0 <= i < |s| ==> s[i] in all
    requires forall i, j :: 0 <= i < j < |s| ==> s[i] != s[j]
    ensures |s| <= |all|
  {
    if s != [] {
      var x := s[|s| - 1];
      Pigeonhole(s[..|s| - 1], all - {x});
    }
  }

  /** No feasible grouping puts two heads together. */
  ghost predicate HeadsSeparate(order: seq<Entry>, group: seq<nat>, lim: Limits)
    requires |group| == |order|
  {
    var heads := Heads(order, |order|, lim);
    forall a, b :: 0 <= a < b < |heads| ==> group[heads[a]] != group[heads[b]]
  }

  lemma SeparateHeadsCount(order: seq<Entry>, group: seq<nat>, lim: Limits)
    requires |group| == |order| && HeadsSeparate(order, group, lim)
    ensures |Regions(order, |order|, lim)| <= |set i | 0 <= i < |order| :: group[i]|
  {
    var heads := Heads(order, |order|, lim);
    Pigeonhole(seq(|heads|, a requires 0 <= a < |heads| => group[heads[a]]), set i | 0 <= i < |order| :: group[i]);
  }

  /** No feasible grouping has fewer groups than the plan has regions. */
  lemma GreedyIsMinimal(order: seq<Entry>, group: seq<nat>, lim: Limits)
    requires Sorted(order) && NoOversize(order, lim) && Feasible(order, group, lim)
    ensures |Regions(order, |order|, lim)| <= |set i | 0 <= i < |order| :: group[i]|
  {
    var heads := Heads(order, |order|, lim);
    forall a, b | 0 <= a < b < |heads| ensures group[heads[a]] != group[heads[b]] {
      HeadsApart(order, group, a, b, lim);
    }
    SeparateHeadsCount(order, group, lim);
  }

  // ----- optimality when the limit is a single byte -----

  predicate InOrder(order: seq<Entry>) {
    forall i, j :: 0 <= i < j < |order| ==> Before(order[i], order[j])
  }

  /** Entries that all occupy the same byte as the head before them are read with it. */
  lemma {:induction false} SameByteIsOneRegion(order: seq<Entry>, h: nat, n: nat, lim: Limits)
    requires h < n <= |order| && lim.maxLen == 1 && IsHead(order, h, lim)
    requires forall i :: h <= i < n ==> order[i].start == order[h].start && order[i].len == 1
    ensures Current(order, n, lim) == Region(order[h].start, 1)
    ensures n - 1 > h ==> !IsHead(order, n - 1, lim)
    decreases n
  {
    if n - 1 > h {
      SameByteIsOneRegion(order, h, n - 1, lim);
    }
  }

  /** What shares a group with another entry occupies the same byte, and so does all between the two. */
  lemma GroupedInOneByte(order: seq<Entry>, group: seq<nat>, h: nat, j: nat, lim: Limits)
    requires InOrder(order) && Feasible(order, group, lim) && lim.maxLen <= 1
    requires forall i :: 0 <= i < |order| ==> order[i].len >= 1
    requires h < j < |order| && group[h] == group[j]
    ensures lim.maxLen == 1
    ensures forall i :: h <= i < j + 1 ==> order[i].start == order[h].start && order[i].len == 1
  {
    assert !Alone(group, h) && !Alone(group, j);
    assert order[j].End() - order[h].start <= 1;
    assert order[j].End() - order[j].start <= 1;
    forall i | h <= i < j + 1 ensures order[i].start == order[h].start && order[i].len == 1 {
      assert i == h || Before(order[h], order[i]);
      assert i == j || Before(order[i], order[j]);
    }
  }

  /** Two heads are never in the same group when only entries of one and the same byte may share a read. */
  lemma BytesApart(order: seq<Entry>, group: seq<nat>, h: nat, j: nat, lim: Limits)
    requires InOrder(order) && Feasible(order, group, lim) && lim.maxLen <= 1
    requires forall i :: 0 <= i < |order| ==> order[i].len >= 1
    requires h < j < |order| && IsHead(order, h, lim) && IsHead(order, j, lim)
    ensures group[h] != group[j]
  {
    if group[h] == group[j] {
      GroupedInOneByte(order, group, h, j, lim);
      SameByteIsOneRegion(order, h, j + 1, lim);
    }
  }

  lemma HeadsDiffer(order: seq<Entry>, a: nat, b: nat, lim: Limits)
    requires a < b < |Heads(order, |order|, lim)|
    ensures var heads := Heads(order, |order|, lim);
            heads[a] < heads[b] < |order| && IsHead(order, heads[a], lim) && IsHead(order, heads[b], lim)
  {
    HeadsAreHeads(order, |order|, a, lim);
    NextHead(order, a, lim);
    HeadsIncrease(order, |order|, a + 1, b, lim);
    HeadsAreHeads(order, |order|, b, lim);
  }

  /** Under a limit of one byte the plan is minimal whatever the lengths of the entries. */
  lemma GreedyIsMinimalByteByByte(order: seq<Entry>, group: seq<nat>, lim: Limits)
    requires InOrder(order) && Feasible(order, group, lim) && lim.maxLen <= 1
    requires forall i :: 0 <= i < |order| ==> order[i].len >= 1
    ensures |Regions(order, |order|, lim)| <= |set i | 0 <= i < |order| :: group[i]|
  {
    var heads := Heads(order, |order|, lim);
    forall a, b | 0 <= a < b < |heads| ensures group[heads[a]] != group[heads[b]] {
      HeadsDiffer(order, a, b, lim);
      BytesApart(order, group, heads[a], heads[b], lim);
    }
    SeparateHeadsCount(order, group, lim);
  }

  // ----- the plan is itself such a grouping -----

  /** The grouping the plan reads: every entry with its region. */
  function Assignment(order: seq<Entry>, lim: Limits): (group: seq<nat>)
    ensures |group| == |order|
    ensures forall k :: 0 <= k < |order| ==> group[k] == RegionOf(order, k, lim)
  {
    seq(|order|, k requires 0 <= k < |order| => RegionOf(order, k, lim))
  }

  lemma {:induction false} RegionOfIncreases(order: seq<Entry>, i: nat, j: nat, lim: Limits)
    requires i <= j < |order|
    ensures RegionOf(order, i, lim) <= RegionOf(order, j, lim)
    decreases j
  {
    if i < j {
      RegionOfIncreases(order, i, j - 1, lim);
    }
  }

  /** Entries of one region share its address. */
  lemma {:induction false} SameRegionSameAddress(order: seq<Entry>, i: nat, j: nat, lim: Limits)
    requires i <= j < |order| && RegionOf(order, i, lim) == RegionOf(order, j, lim)
    ensures Current(order, i + 1, lim).address == Current(order, j + 1, lim).address
    ensures i < j ==> !IsHead(order, j, lim)
    decreases j
  {
    if i < j {
      RegionOfIncreases(order, i, j - 1, lim);
      SameRegionSameAddress(order, i, j - 1, lim);
    }
  }

  /** A region of several entries fits the limit: only a lone oversize entry makes a longer one. */
  lemma SharedRegionFits(order: seq<Entry>, i: nat, j: nat, lim: Limits)
    requires i < j < |order| && RegionOf(order, i, lim) == RegionOf(order, j, lim)
    ensures RegionOf(order, j, lim) < |Heads(order, |order|, lim)|
    ensures Regions(order, |order|, lim)[RegionOf(order, j, lim)].len <= lim.maxLen
  {
    SameRegionSameAddress(order, i, j, lim);
    HeadStartsRegion(order, j + 1, lim);
    RegionsGrow(order, j + 1, |order|, RegionOf(order, j, lim), lim);
  }

  /** Entries of a region that holds several lie within the limit. */
  lemma WithinLimit(order: seq<Entry>, i: nat, j: nat, k: nat, lim: Limits)
    requires Sorted(order) && i < |order| && j < |order| && k < |order| && i != k
    requires RegionOf(order, i, lim) == RegionOf(order, j, lim) == RegionOf(order, k, lim)
    ensures order[j].End() - order[i].start <= lim.maxLen
  {
    EntryInRegion(order, i, lim);
    EntryInRegion(order, j, lim);
    SharedRegionFits(order, if i < k then i else k, if i < k then k else i, lim);
  }

  /** The end of the current region is the end of one of its entries. */
  lemma {:induction false} EndWitness(order: seq<Entry>, n: nat, lim: Limits) returns (i: nat)
    requires 0 < n <= |order|
    ensures i < n && RegionOf(order, i, lim) == RegionOf(order, n - 1, lim)
    ensures order[i].End() == Current(order, n, lim).End()
  {
    i := n - 1;
    if !IsHead(order, n - 1, lim) && order[n - 1].End() < Current(order, n - 1, lim).End() {
      i := EndWitness(order, n - 1, lim);
    }
  }

  /** No uncovered run inside a region exceeds the gap. */
  lemma {:induction false} NoGapInside(order: seq<Entry>, j: nat, lim: Limits)
    requires Sorted(order) && j < |order|
    ensures Leftmost(order, Assignment(order, lim), j) || Reached(order, Assignment(order, lim), j, lim)
    decreases j
  {
    var group := Assignment(order, lim);
    if IsHead(order, j, lim) {
      forall i | 0 <= i < |order| && group[i] == group[j]
        ensures order[j].start <= order[i].start
      {
        if i < j {
          SameRegionSameAddress(order, i, j, lim);
        }
      }
    } else if order[j - 1].start == order[j].start {
      NoGapInside(order, j - 1, lim);
    } else {
      var i := EndWitness(order, j, lim);
      assert order[i].start <= order[j - 1].start;
    }
  }

  /** The plan obeys its own rule, so the minimum is attained. */
  lemma PlanIsFeasible(order: seq<Entry>, lim: Limits)
    requires Sorted(order)
    ensures Feasible(order, Assignment(order, lim), lim)
    ensures |set k | 0 <= k < |order| :: Assignment(order, lim)[k]| <= |Regions(order, |order|, lim)|
  {
    var group := Assignment(order, lim);
    forall i, j | 0 <= i < |order| && 0 <= j < |order| && group[i] == group[j]
      ensures Alone(group, i) || order[j].End() - order[i].start <= lim.maxLen
    {
      if k :| 0 <= k < |order| && group[k] == group[i] && k != i {
        WithinLimit(order, i, j, k, lim);
      }
    }
    forall j | 0 <= j < |order| ensures Leftmost(order, group, j) || Reached(order, group, j, lim) {
      NoGapInside(order, j, lim);
    }
    var labels := set k | 0 <= k < |order| :: group[k];
    forall g | g in labels ensures 0 <= g < |Regions(order, |order|, lim)| {
      var k :| 0 <= k < |order| && group[k] == g;
      EntryInRegion(order, k, lim);
    }
    SmallNumbers(labels, |Regions(order, |order|, lim)|);
  }

  lemma {:induction false} SmallNumbers(s: set<nat>, n: nat)
    requires forall x :: x in s ==> x < n
    ensures |s| <= n
  {
    if s != {} && n > 0 {
      SmallNumbers(s - {n - 1}, n - 1);
    }
  }

  // ----- why oversize entries are excluded -----

  /** Span `big` between a byte that starts with it and the byte after that one. */
  predicate Straddles(order: seq<Entry>, at: nat, len: nat) {
    && |order| == 3
    && order[0].start == order[1].start == at && order[2].start == at + 1
    && order[0].len == order[2].len == 1 && order[1].len == len
  }

  /** Any entry longer than a limit of two bytes or more separates its neighbours, so that each takes a read. */
  lemma OversizeSeparates(order: seq<Entry>, at: nat, len: nat, lim: Limits)
    requires Straddles(order, at, len) && len > lim.maxLen >= 2
    ensures |Regions(order, |order|, lim)| == 3
  {
    assert IsHead(order, 0, lim);
    assert Current(order, 1, lim) == Region(at, 1);
    assert IsHead(order, 1, lim);
    assert Current(order, 2, lim) == Region(at, len);
    assert IsHead(order, 2, lim);
    assert |Heads(order, 1, lim)| == 1;
    assert |Heads(order, 2, lim)| == 2;
  }

  /** Those neighbours may be read together. */
  lemma NeighboursMayShare(order: seq<Entry>, at: nat, len: nat, group: seq<nat>, lim: Limits)
    requires Straddles(order, at, len) && lim.maxLen >= 2
    requires |group| == 3 && group[0] == group[2] != group[1]
    ensures Feasible(order, group, lim)
  {
    assert Leftmost(order, group, 0) && Leftmost(order, group, 1);
    assert Reached(order, group, 2, lim);
    assert Alone(group, 1);
  }
}
