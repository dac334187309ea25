/** The read plan of a watched set, and what a tick makes of it. */
module Plan {
  import opened Bytes
  import opened Common
  import opened Coalesce
  import opened Values

  // ----- the spans of a watched set -----

  /** The spans of the first `n` items, in item order; raw items have none. */
  function Entries(items: seq<ReadItem>, n: nat): (entries: seq<Entry>)
    requires n <= |items|
    ensures forall k :: 0 <= k < |entries| ==> entries[k].item < n
    ensures forall j, k :: 0 <= j < k < |entries| ==> entries[j].item < entries[k].item
  {
    if n == 0 then []
    else
      Entries(items, n - 1) +
      match Span(items[n - 1])
      case Some((start, len)) => [Entry(n - 1, start, len)]
      case None => []
  }

  lemma {:induction false} EntriesAreSpans(items: seq<ReadItem>, n: nat, e: Entry)
    requires n <= |items|
    ensures e in Entries(items, n) <==> e.item < n && Span(items[e.item]) == Some((e.start, e.len))
  {
    if n != 0 {
      EntriesAreSpans(items, n - 1, e);
    }
  }

  // ----- sorting by start, then length -----

  function Insert(e: Entry, sorted: seq<Entry>): (r: seq<Entry>)
    ensures multiset(r) == multiset(sorted) + multiset{e}
  {
    if sorted == [] || Before(e, sorted[0]) then [e] + sorted
    else
      assert sorted == [sorted[0]] + sorted[1..];
      [sorted[0]] + Insert(e, sorted[1..])
  }

  function SortSpans(entries: seq<Entry>): (r: seq<Entry>)
    ensures multiset(r) == multiset(entries)
  {
    if entries == [] then []
    else
      assert entries == [entries[0]] + entries[1..];
      Insert(entries[0], SortSpans(entries[1..]))
  }

  lemma {:induction false} InsertKeepsOrder(e: Entry, sorted: seq<Entry>)
    requires InOrder(sorted)
    ensures InOrder(Insert(e, sorted))
  {
    if sorted != [] && !Before(e, sorted[0]) {
      InsertKeepsOrder(e, sorted[1..]);
      var r := Insert(e, sorted[1..]);
      forall k | 0 <= k < |r| ensures Before(sorted[0], r[k]) {
        assert r[k] in multiset(r);
        assert r[k] == e || r[k] in sorted[1..];
      }
    }
  }

  lemma {:induction false} SortIsSorted(entries: seq<Entry>)
    ensures InOrder(SortSpans(entries))
  {
    if entries != [] {
      SortIsSorted(entries[1..]);
      InsertKeepsOrder(entries[0], SortSpans(entries[1..]));
    }
  }

  /** The order in which the planner looks at a watched set. */
  function Order(items: seq<ReadItem>): seq<Entry> {
    SortSpans(Entries(items, |items|))
  }

  ghost predicate Distinct(order: seq<Entry>) {
    forall i, j :: 0 <= i < j < |order| ==> order[i].item != order[j].item
  }

  lemma {:induction false} InsertKeepsDistinct(e: Entry, sorted: seq<Entry>)
    requires Distinct(sorted) && forall k :: 0 <= k < |sorted| ==> sorted[k].item != e.item
    ensures Distinct(Insert(e, sorted))
  {
    if sorted != [] && !Before(e, sorted[0]) {
      InsertKeepsDistinct(e, sorted[1..]);
      var r := Insert(e, sorted[1..]);
      forall k | 0 <= k < |r| ensures r[k].item != sorted[0].item {
        assert r[k] in multiset(r);
        assert r[k] == e || r[k] in sorted[1..];
      }
    }
  }

  lemma {:induction false} SortKeepsDistinct(entries: seq<Entry>)
    requires Distinct(entries)
    ensures Distinct(SortSpans(entries))
  {
    if entries != [] {
      var rest := SortSpans(entries[1..]);
      SortKeepsDistinct(entries[1..]);
      forall k | 0 <= k < |rest| ensures rest[k].item != entries[0].item {
        assert rest[k] in multiset(rest);
        assert rest[k] in entries[1..];
      }
      InsertKeepsDistinct(entries[0], rest);
    }
  }

  /** The planner's order lists every item with a span exactly once, by address. */
  lemma OrderFacts(items: seq<ReadItem>)
    ensures InOrder(Order(items)) && Sorted(Order(items)) && Distinct(Order(items))
    ensures forall e :: e in Order(items) <==> e in Entries(items, |items|)
    ensures forall k :: 0 <= k < |Order(items)| ==> Order(items)[k].item < |items|
  {
    var entries, order := Entries(items, |items|), Order(items);
    SortIsSorted(entries);
    SortKeepsDistinct(entries);
    forall e ensures e in order <==> e in entries {
      assert e in multiset(order) <==> e in multiset(entries);
    }
    forall k | 0 <= k < |order| ensures order[k].item < |items| {
      assert order[k] in order;
      EntriesAreSpans(items, |items|, order[k]);
    }
  }

  // ----- optimality, for items in any order -----

  /** The group of each entry, given a group for each item. */
  ghost function Labelled(order: seq<Entry>, groupOf: seq<nat>): (group: seq<nat>)
    requires forall k :: 0 <= k < |order| ==> order[k].item < |groupOf|
    ensures |group| == |order|
    ensures forall k :: 0 <= k < |order| ==> group[k] == groupOf[order[k].item]
  {
    seq(|order|, k requires 0 <= k < |order| && order[k].item < |groupOf| => groupOf[order[k].item])
  }

  ghost predicate SameEntries(a: seq<Entry>, b: seq<Entry>) {
    forall e :: e in a <==> e in b
  }

  /** Which entries may be read together does not depend on the order they are listed in. */
  lemma FeasibleInAnyOrder(a: seq<Entry>, b: seq<Entry>, groupOf: seq<nat>, lim: Limits)
    requires SameEntries(a, b) && Distinct(a) && Distinct(b)
    requires forall k :: 0 <= k < |a| ==> a[k].item < |groupOf|
    requires forall k :: 0 <= k < |b| ==> b[k].item < |groupOf|
    requires Feasible(a, Labelled(a, groupOf), lim)
    ensures Feasible(b, Labelled(b, groupOf), lim)
  {
    var g, h := Labelled(a, groupOf), Labelled(b, groupOf);
    forall i, j | 0 <= i < |b| && 0 <= j < |b| && h[i] == h[j] && !Alone(h, i)
      ensures b[j].End() - b[i].start <= lim.maxLen
    {
      var k :| 0 <= k < |b| && h[k] == h[i] && k != i;
      var i' := IndexIn(a, b, i);
      var j' := IndexIn(a, b, j);
      var k' := IndexIn(a, b, k);
      assert g[i'] == g[j'] == g[k'] && i' != k';
      assert !Alone(g, i');
    }
    forall j | 0 <= j < |b| ensures Leftmost(b, h, j) || Reached(b, h, j, lim) {
      var j' := IndexIn(a, b, j);
      if Leftmost(a, g, j') {
        forall i | 0 <= i < |b| && h[i] == h[j] ensures b[j].start <= b[i].start {
          var i' := IndexIn(a, b, i);
        }
      } else {
        assert Reached(a, g, j', lim);
        var i' :| 0 <= i' < |a| && g[i'] == g[j'] && a[i'].start < a[j'].start <= a[i'].End() + lim.gap;
        var i := IndexIn(b, a, i');
        assert h[i] == h[j];
      }
    }
  }

  lemma IndexIn(a: seq<Entry>, b: seq<Entry>, j: nat) returns (i: nat)
    requires SameEntries(a, b) && j < |b|
    ensures i < |a| && a[i] == b[j]
  {
    assert b[j] in a;
    i :| 0 <= i < |a| && a[i] == b[j];
  }

  /** Distinct groups among the items that are read. */
  ghost function GroupCount(items: seq<ReadItem>, groupOf: seq<nat>): nat
    requires |groupOf| == |items|
  {
    |set i | 0 <= i < |items| && Span(items[i]).Some? :: groupOf[i]|
  }

  /** A way to share reads among the items of a watched set, under the planner's own gap and length rule. */
  ghost predicate FeasibleGroups(items: seq<ReadItem>, groupOf: seq<nat>, lim: Limits) {
    |groupOf| == |items| &&
    Feasible(Entries(items, |items|), Labelled(Entries(items, |items|), groupOf), lim)
  }

  /** No way to share reads needs fewer of them than the plan makes. */
  ghost predicate PlannedOptimally(items: seq<ReadItem>, lim: Limits) {
    forall groupOf | FeasibleGroups(items, groupOf, lim) ::
      |Regions(Order(items), |Order(items)|, lim)| <= GroupCount(items, groupOf)
  }

  predicate SpansUpTo(items: seq<ReadItem>, len: nat) {
    forall i :: 0 <= i < |items| && Span(items[i]).Some? ==> Span(items[i]).value.1 <= len
  }

  /** The planner sees each item's own span, and the groups of its entries are groups of the items. */
  lemma OrderedGroups(items: seq<ReadItem>, groupOf: seq<nat>, lim: Limits)
    requires FeasibleGroups(items, groupOf, lim)
    requires forall k :: 0 <= k < |Order(items)| ==> Order(items)[k].item < |groupOf|
    ensures Feasible(Order(items), Labelled(Order(items), groupOf), lim)
    ensures var order, group := Order(items), Labelled(Order(items), groupOf);
            |set k | 0 <= k < |order| :: group[k]| <= GroupCount(items, groupOf)
  {
    var entries, order := Entries(items, |items|), Order(items);
    OrderFacts(items);
    FeasibleInAnyOrder(entries, order, groupOf, lim);
    forall e | e in order ensures e.item < |items| && Span(items[e.item]) == Some((e.start, e.len)) {
      EntriesAreSpans(items, |items|, e);
    }
    var group := Labelled(order, groupOf);
    var used := set i | 0 <= i < |items| && Span(items[i]).Some? :: groupOf[i];
    var labels := set k | 0 <= k < |order| :: group[k];
    assert forall k :: 0 <= k < |order| ==> order[k] in order;
    assert labels <= used;
    SubsetSize(labels, used);
  }

  lemma OrderedSpans(items: seq<ReadItem>, len: nat)
    requires SpansUpTo(items, len)
    ensures forall k :: 0 <= k < |Order(items)| ==> Order(items)[k].len <= len
  {
    var order := Order(items);
    OrderFacts(items);
    forall k | 0 <= k < |order| ensures order[k].len <= len {
      assert order[k] in order;
      EntriesAreSpans(items, |items|, order[k]);
    }
  }

  lemma SpanHasBytes(item: ReadItem)
    ensures Span(item).Some? ==> Span(item).value.1 >= 1
  {
  }

  lemma NoEmptySpans(items: seq<ReadItem>)
    ensures forall k :: 0 <= k < |Order(items)| ==> Order(items)[k].len >= 1
  {
    var order := Order(items);
    OrderFacts(items);
    forall k | 0 <= k < |order| ensures order[k].len >= 1 {
      assert order[k] in order;
      EntriesAreSpans(items, |items|, order[k]);
      SpanHasBytes(items[order[k].item]);
    }
  }

  lemma FewestReads(items: seq<ReadItem>, groupOf: seq<nat>, lim: Limits)
    requires FeasibleGroups(items, groupOf, lim)
    requires SpansUpTo(items, lim.maxLen) || lim.maxLen <= 1
    ensures |Regions(Order(items), |Order(items)|, lim)| <= GroupCount(items, groupOf)
  {
    OrderFacts(items);
    OrderedGroups(items, groupOf, lim);
    var group := Labelled(Order(items), groupOf);
    if lim.maxLen <= 1 {
      NoEmptySpans(items);
      GreedyIsMinimalByteByByte(Order(items), group, lim);
    } else {
      OrderedSpans(items, lim.maxLen);
      GreedyIsMinimal(Order(items), group, lim);
    }
  }

  /** The plan makes as few reads as possible when every span fits the limit, and when the limit is a single byte. */
  lemma PlanIsOptimal(items: seq<ReadItem>, lim: Limits)
    requires SpansUpTo(items, lim.maxLen) || lim.maxLen <= 1
    ensures PlannedOptimally(items, lim)
  {
    forall groupOf | FeasibleGroups(items, groupOf, lim)
      ensures |Regions(Order(items), |Order(items)|, lim)| <= GroupCount(items, groupOf)
    {
      FewestReads(items, groupOf, lim);
    }
  }

  /** A byte, a value of `len` bytes that starts with it, and the byte after the first one. */
  predicate Straddled(items: seq<ReadItem>, at: nat, len: nat) {
    && |items| == 3
    && Span(items[0]) == Some((at, 1)) && Span(items[1]) == Some((at, len)) && Span(items[2]) == Some((at + 1, 1))
  }

  lemma StraddledEntries(items: seq<ReadItem>, at: nat, len: nat)
    requires Straddled(items, at, len)
    ensures Straddles(Entries(items, |items|), at, len)
    ensures forall k :: 0 <= k < 3 ==> Entries(items, |items|)[k].item == k
  {
    var one := Entries(items, |items| - 2);
    assert Entries(items, |items| - 3) == [];
    assert one == [Entry(0, at, 1)];
    assert Entries(items, |items| - 1) == one + [Entry(1, at, len)];
  }

  lemma StraddledOrder(items: seq<ReadItem>, at: nat, len: nat)
    requires Straddled(items, at, len) && len > 1
    ensures Entries(items, |items|) == Order(items) && Straddles(Order(items), at, len)
    ensures forall k :: 0 <= k < 3 ==> Order(items)[k].item == k
  {
    StraddledEntries(items, at, len);
    SortedStays(Entries(items, |items|));
  }

  /** Reading the two bytes together and the long value apart takes two reads; the plan takes three. */
  lemma StraddledIsNotOptimal(items: seq<ReadItem>, at: nat, len: nat, groupOf: seq<nat>, lim: Limits)
    requires Straddled(items, at, len) && len > lim.maxLen >= 2 && groupOf == [0, 1, 0]
    ensures |Regions(Order(items), |Order(items)|, lim)| == 3
    ensures FeasibleGroups(items, groupOf, lim) && GroupCount(items, groupOf) == 2
  {
    var order := Order(items);
    StraddledOrder(items, at, len);
    OversizeSeparates(order, at, len, lim);
    NeighboursMayShare(order, at, len, Labelled(order, groupOf), lim);
    TwoGroups(items, groupOf);
  }

  lemma TwoGroups(items: seq<ReadItem>, groupOf: seq<nat>)
    requires |items| == 3 && Span(items[0]).Some? && Span(items[1]).Some? && groupOf == [0, 1, 0]
    ensures GroupCount(items, groupOf) == 2
  {
    var used := set i | 0 <= i < |items| && Span(items[i]).Some? :: groupOf[i];
    assert groupOf[0] in used && groupOf[1] in used;
    assert used == {0, 1};
  }

  /** Every length is that of some bitfield, so the planner can be given such a set. */
  lemma SomeAreStraddled(at: nat, len: nat) returns (items: seq<ReadItem>)
    requires len > 0
    ensures Straddled(items, at, len)
  {
    items := [
      ReadItem(0, at, U8, None, None), ReadItem(1, at, U8, Some(0), Some(8 * len)), ReadItem(2, at + 1, U8, None, None)
    ];
  }

  lemma {:induction false} SortedStays(order: seq<Entry>)
    requires InOrder(order)
    ensures SortSpans(order) == order
  {
    if order != [] {
      SortedStays(order[1..]);
    }
  }

  /**
   Every watched set whose spans have at most `len` bytes is planned with as few reads as possible, if and only if spans
   of that length fit the limit or the limit is too small to share a read among different bytes.
   */
  lemma OptimalIff(len: nat, lim: Limits)
    ensures (forall items :: SpansUpTo(items, len) ==> PlannedOptimally(items, lim)) <==>
            len <= lim.maxLen || lim.maxLen <= 1
  {
    if len <= lim.maxLen || lim.maxLen <= 1 {
      forall items | SpansUpTo(items, len) ensures PlannedOptimally(items, lim) {
        PlanIsOptimal(items, lim);
      }
    } else {
      var items := SomeAreNotOptimal(len, lim);
    }
  }

  lemma StraddledSpans(items: seq<ReadItem>, at: nat, len: nat)
    requires Straddled(items, at, len) && len > 0
    ensures SpansUpTo(items, len)
  {
  }

  lemma SomeAreNotOptimal(len: nat, lim: Limits) returns (items: seq<ReadItem>)
    requires len > lim.maxLen >= 2
    ensures SpansUpTo(items, len) && !PlannedOptimally(items, lim)
  {
    items := SomeAreStraddled(0, lim.maxLen + 1);
    StraddledSpans(items, 0, lim.maxLen + 1);
    StraddledIsNotOptimal(items, 0, lim.maxLen + 1, [0, 1, 0], lim);
  }

  lemma SubsetSize(a: set<nat>, b: set<nat>)
    requires a <= b
    ensures |a| <= |b|
  {
    assert b == a + (b - a);
  }

  // ----- building a plan -----

  /** Where a value's span lies inside its region. */
  datatype Slot = Slot(region: nat, offset: nat, len: nat)

  /** Entry `k` of `order` occupies `slot` of its region. */
  ghost predicate SlotFor(order: seq<Entry>, k: nat, slot: Slot, lim: Limits)
    requires k < |order|
  {
    && slot.region == RegionOf(order, k, lim)
    && Current(order, k + 1, lim).address + slot.offset == order[k].start
    && slot.len == order[k].len
  }

  /** The slots of the first `n` entries are filled in, and no others. */
  ghost predicate SlotsFor(order: seq<Entry>, n: nat, slots: seq<Option<Slot>>, lim: Limits)
    requires n <= |order| && forall k :: 0 <= k < |order| ==> order[k].item < |slots|
  {
    && (forall k :: 0 <= k < n ==>
          slots[order[k].item].Some? && SlotFor(order, k, slots[order[k].item].value, lim))
    && (forall i {:trigger Listed(order, n, i)} :: 0 <= i < |slots| && slots[i].Some? ==> Listed(order, n, i))
  }

  ghost predicate Listed(order: seq<Entry>, n: nat, i: nat)
    requires n <= |order|
  {
    exists k :: 0 <= k < n && order[k].item == i
  }

  function NoSlots(count: nat): (slots: seq<Option<Slot>>)
    ensures |slots| == count && forall i :: 0 <= i < count ==> slots[i] == None
  {
    seq(count, i => None)
  }

  lemma SlotStep(order: seq<Entry>, n: nat, slots: seq<Option<Slot>>, slot: Slot, lim: Limits)
    requires n < |order| && Distinct(order) && forall k :: 0 <= k < |order| ==> order[k].item < |slots|
    requires SlotsFor(order, n, slots, lim) && SlotFor(order, n, slot, lim)
    ensures SlotsFor(order, n + 1, slots[order[n].item := Some(slot)], lim)
  {
    var after := slots[order[n].item := Some(slot)];
    forall i | 0 <= i < |after| && after[i].Some? ensures Listed(order, n + 1, i) {
      if i == order[n].item {
        assert order[n].item == i;
      } else {
        assert Listed(order, n, i);
      }
    }
  }

  ghost predicate Done(order: seq<Entry>, n: nat, regions: seq<Region>, slots: seq<Option<Slot>>, lim: Limits)
    requires n <= |order| && forall k :: 0 <= k < |order| ==> order[k].item < |slots|
  {
    regions == Regions(order, n, lim) && SlotsFor(order, n, slots, lim)
  }

  lemma LoopStep(
      order: seq<Entry>, n: nat, regions: seq<Region>, slots: seq<Option<Slot>>, after: seq<Region>, slot: Slot,
      lim: Limits)
    requires Sorted(order) && Distinct(order)
    requires n < |order| && forall k :: 0 <= k < |order| ==> order[k].item < |slots|
    requires Done(order, n, regions, slots, lim)
    requires after == Place(regions, order[n], lim)
    requires slot.region == |after| - 1 && after[slot.region].address + slot.offset == order[n].start
    requires slot.len == order[n].len
    ensures Done(order, n + 1, after, slots[order[n].item := Some(slot)], lim)
  {
    NextRegions(order, n, lim);
    SlotStep(order, n, slots, slot, lim);
  }

  /** The body of the loop: merge the next span or open a region, and note where the span lies in it. */
  method PlaceNext(regions: seq<Region>, e: Entry, lim: Limits) returns (after: seq<Region>, slot: Slot)
    requires Place(regions, e, lim)[|Place(regions, e, lim)| - 1].address <= e.start
    ensures after == Place(regions, e, lim)
    ensures slot.region == |after| - 1 && after[slot.region].address + slot.offset == e.start && slot.len == e.len
  {
    after := regions;
    if after != [] && Joins(after[|after| - 1], e, lim) {
      after := after[|after| - 1 := Merged(after[|after| - 1], e)];
    } else {
      after := after + [Region(e.start, e.len)];
    }
    var region := |after| - 1;
    slot := Slot(region, e.start - after[region].address, e.len);
  }

  /** The planner's loop over the sorted spans. */
  method Build(order: seq<Entry>, count: nat, lim: Limits) returns (regions: seq<Region>, slots: seq<Option<Slot>>)
    requires Sorted(order) && Distinct(order)
    requires forall k :: 0 <= k < |order| ==> order[k].item < count
    ensures regions == Regions(order, |order|, lim)
    ensures |slots| == count && SlotsFor(order, |order|, slots, lim)
  {
    regions, slots := [], NoSlots(count);
    for n := 0 to |order|
      invariant |slots| == count
      invariant Done(order, n, regions, slots, lim)
    {
      NextRegions(order, n, lim);
      var after, slot := PlaceNext(regions, order[n], lim);
      LoopStep(order, n, regions, slots, after, slot, lim);
      slots := slots[order[n].item := Some(slot)];
      regions := after;
    }
  }

  /** Raw items have no slot; every other slot is its item's span, inside its region and the shared buffer. */
  predicate SlotOk(item: ReadItem, slot: Option<Slot>, regions: seq<Region>, capacity: nat) {
    match Span(item)
    case None => slot == None
    case Some((start, len)) =>
      && slot.Some?
      && slot.value.region < |regions|
      && regions[slot.value.region].address + slot.value.offset == start
      && slot.value.len == len
      && slot.value.offset + len <= regions[slot.value.region].len <= capacity
  }

  lemma SlotIsInside(order: seq<Entry>, k: nat, slot: Slot, lim: Limits)
    requires Sorted(order) && k < |order| && SlotFor(order, k, slot, lim)
    ensures var regions := Regions(order, |order|, lim);
            && slot.region < |regions|
            && regions[slot.region].address + slot.offset == order[k].start
            && slot.offset + order[k].len <= regions[slot.region].len <= Largest(regions)
  {
    EntryInRegion(order, k, lim);
    HeadStartsRegion(order, k + 1, lim);
    RegionsGrow(order, k + 1, |order|, slot.region, lim);
    LargestBounds(Regions(order, |order|, lim), slot.region);
  }

  lemma SlotsAreSpans(items: seq<ReadItem>, slots: seq<Option<Slot>>, lim: Limits, i: nat)
    requires i < |items| == |slots|
    requires forall k :: 0 <= k < |Order(items)| ==> Order(items)[k].item < |slots|
    requires SlotsFor(Order(items), |Order(items)|, slots, lim)
    ensures var regions := Regions(Order(items), |Order(items)|, lim);
            SlotOk(items[i], slots[i], regions, Largest(regions))
  {
    var order := Order(items);
    OrderFacts(items);
    if Span(items[i]).Some? {
      var (start, len) := Span(items[i]).value;
      var e := Entry(i, start, len);
      EntriesAreSpans(items, |items|, e);
      assert e in order;
      var k :| 0 <= k < |order| && order[k] == e;
      assert slots[order[k].item].Some?;
      SlotIsInside(order, k, slots[i].value, lim);
    } else if slots[i].Some? {
      assert Listed(order, |order|, i);
      var k :| 0 <= k < |order| && order[k].item == i;
      assert order[k] in order;
      EntriesAreSpans(items, |items|, order[k]);
    }
  }

  function Largest(regions: seq<Region>): nat {
    if regions == [] then 0 else Max(regions[0].len, Largest(regions[1..]))
  }

  lemma {:induction false} LargestBounds(regions: seq<Region>, g: nat)
    requires g < |regions|
    ensures regions[g].len <= Largest(regions)
  {
    if g > 0 {
      LargestBounds(regions[1..], g - 1);
    }
  }

  // ----- one tick -----

  /** What one tick did; `firstError` is the first region that could not be read. */
  datatype SampleOutcome = SampleOutcome(regionsOk: nat, regionsFailed: nat, bytes: nat, firstError: Option<nat>)

  /** The bytes of the first `n` regions together. */
  function TotalLen(regions: seq<Region>, n: nat): nat
    requires n <= |regions|
  {
    if n == 0 then 0 else TotalLen(regions, n - 1) + regions[n - 1].len
  }

  /** The outcome of reading the first `n` regions. */
  function OutcomeOf(regions: seq<Region>, fails: nat -> bool, n: nat): (o: SampleOutcome)
    requires n <= |regions|
    ensures o.regionsOk + o.regionsFailed == n
    ensures o.firstError.None? <==> o.regionsFailed == 0
  {
    if n == 0 then SampleOutcome(0, 0, 0, None)
    else
      var o := OutcomeOf(regions, fails, n - 1);
      if fails(n - 1) then
        o.(regionsFailed := o.regionsFailed + 1, firstError := if o.firstError.Some? then o.firstError else Some(n - 1))
      else
        o.(regionsOk := o.regionsOk + 1, bytes := o.bytes + regions[n - 1].len)
  }

  /**
   What column `i` holds after a tick: the item decoded from its own span as memory was when its region was read, or NaN
   when that region failed or the item has no span.
   */
  function Column(item: ReadItem, slot: Option<Slot>, mem: nat -> (nat -> byte), fails: nat -> bool): Cell {
    match Span(item)
    case None => NaN
    case Some((start, len)) =>
      if slot.None? || fails(slot.value.region) then NaN
      else Decode(item, Memory(mem(slot.value.region), start, len))
  }

  /**
   A whole number of any type, where the item is when its region is read, is what the item's column holds; the column is
   no number when that read fails.
   */
  lemma ScalarColumn(
      item: ReadItem, slot: Slot, mem: nat -> (nat -> byte), fails: nat -> bool, regions: seq<Region>, capacity: nat,
      v: int)
    requires SlotOk(item, Some(slot), regions, capacity) && !IsBitfield(item) && InType(item.scalar, v)
    requires ScalarIs(mem(slot.region), item.address, item.scalar, v)
    ensures Column(item, Some(slot), mem, fails) == if fails(slot.region) then NaN else Whole(v)
  {
    ScalarRoundTrip(mem(slot.region), item, v);
  }

  ghost function Failures(fails: nat -> bool, n: nat): set<nat> {
    set g: nat | g < n && fails(g)
  }

  /** The outcome of a tick counts the regions that could not be read, and names the first of them. */
  lemma {:induction false} FailuresAreCounted(regions: seq<Region>, fails: nat -> bool, n: nat)
    requires n <= |regions|
    ensures var o := OutcomeOf(regions, fails, n);
            && o.regionsFailed == |Failures(fails, n)| && o.regionsOk == n - |Failures(fails, n)|
            && (o.firstError.Some? ==>
                  o.firstError.value in Failures(fails, n) && Failures(fails, o.firstError.value) == {})
  {
    if n > 0 {
      FailuresAreCounted(regions, fails, n - 1);
      assert Failures(fails, n) == Failures(fails, n - 1) + if fails(n - 1) then {n - 1} else {};
    }
  }

  /** The bytes of a tick and those it would have if the other regions had failed make up all regions. */
  lemma {:induction false} BytesAreShared(regions: seq<Region>, fails: nat -> bool, others: nat -> bool, n: nat)
    requires n <= |regions| && forall g: nat :: g < n ==> others(g) == !fails(g)
    ensures OutcomeOf(regions, fails, n).bytes + OutcomeOf(regions, others, n).bytes == TotalLen(regions, n)
    ensures OutcomeOf(regions, fails, n).regionsOk == 0 ==> OutcomeOf(regions, fails, n).bytes == 0
  {
    if n > 0 {
      BytesAreShared(regions, fails, others, n - 1);
    }
  }

  class ReadPlan {
    const items: seq<ReadItem>
    const slots: seq<Option<Slot>>
    const regions: seq<Region>
    const buffer: array<byte>

    ghost predicate Valid() {
      && |slots| == |items|
      && (forall i :: 0 <= i < |items| ==> SlotOk(items[i], slots[i], regions, buffer.Length))
      && (forall g :: 0 <= g < |regions| ==> regions[g].len <= buffer.Length)
    }

    constructor WithLimits(items: seq<ReadItem>, lim: Limits)
      ensures Valid() && fresh(buffer)
      ensures this.items == items && regions == Regions(Order(items), |Order(items)|, lim)
    {
      var order := Order(items);
      OrderFacts(items);
      var regions, slots := Build(order, |items|, lim);
      this.items, this.slots, this.regions := items, slots, regions;
      buffer := new byte[Largest(regions)];
      new;
      forall i | 0 <= i < |items| ensures SlotOk(items[i], slots[i], regions, buffer.Length) {
        SlotsAreSpans(items, slots, lim, i);
      }
      forall g | 0 <= g < |regions| ensures regions[g].len <= buffer.Length {
        LargestBounds(regions, g);
      }
    }

    /**
     Read every region and decode one value per item. `mem(g)` is target memory while region `g` is read, and `fails(g)`
     whether that read fails; each column agrees with reading its item alone, in item order.
     */
    method Sample(mem: nat -> (nat -> byte), fails: nat -> bool) returns (out: seq<Cell>, outcome: SampleOutcome)
      requires Valid()
      modifies buffer
      ensures |out| == |items|
      ensures forall i :: 0 <= i < |items| ==> out[i] == Column(items[i], slots[i], mem, fails)
      ensures outcome == OutcomeOf(regions, fails, |regions|)
    {
      out := seq(|items|, i => NaN);
      outcome := SampleOutcome(0, 0, 0, None);
      for g := 0 to |regions|
        invariant |out| == |items|
        invariant forall i :: 0 <= i < |items| ==>
                    out[i] == if slots[i].Some? && slots[i].value.region < g
                              then Column(items[i], slots[i], mem, fails) else NaN
        invariant outcome == OutcomeOf(regions, fails, g)
      {
        out, outcome := SampleRegion(g, out, outcome, mem, fails);
      }
    }

    /** The body of the loop: read region `g` and decode its items, or note that it could not be read. */
    method SampleRegion(
        g: nat, before: seq<Cell>, sofar: SampleOutcome, mem: nat -> (nat -> byte), fails: nat -> bool)
      returns (out: seq<Cell>, outcome: SampleOutcome)
      requires Valid() && g < |regions| && |before| == |items| && sofar == OutcomeOf(regions, fails, g)
      modifies buffer
      ensures |out| == |items|
      ensures forall i :: 0 <= i < |items| ==>
                out[i] == if !fails(g) && slots[i].Some? && slots[i].value.region == g
                          then Column(items[i], slots[i], mem, fails) else before[i]
      ensures outcome == OutcomeOf(regions, fails, g + 1)
    {
      if fails(g) {
        out, outcome := before, sofar.(
          regionsFailed := sofar.regionsFailed + 1,
          firstError := if sofar.firstError.Some? then sofar.firstError else Some(g));
      } else {
        ReadInto(regions[g], mem(g));
        outcome := sofar.(regionsOk := sofar.regionsOk + 1, bytes := sofar.bytes + regions[g].len);
        out := DecodeRegion(g, before, mem, fails);
      }
    }

    method ReadInto(r: Region, mem: nat -> byte)
      requires r.len <= buffer.Length
      modifies buffer
      ensures forall k :: 0 <= k < r.len ==> buffer[k] == mem(r.address + k)
    {
      forall k | 0 <= k < r.len {
        buffer[k] := mem(r.address + k);
      }
    }

    /** The slot loop: decode the items of region `g` out of the buffer. */
    method DecodeRegion(g: nat, before: seq<Cell>, ghost mem: nat -> (nat -> byte), ghost fails: nat -> bool)
      returns (out: seq<Cell>)
      requires Valid() && g < |regions| && |before| == |items| && !fails(g)
      requires forall k :: 0 <= k < regions[g].len ==> buffer[k] == mem(g)(regions[g].address + k)
      ensures |out| == |items|
      ensures forall i :: 0 <= i < |items| ==>
                out[i] == if slots[i].Some? && slots[i].value.region == g
                          then Column(items[i], slots[i], mem, fails) else before[i]
    {
      out := before;
      for i := 0 to |items|
        invariant |out| == |items|
        invariant forall j :: 0 <= j < |items| ==>
                    out[j] == if j < i && slots[j].Some? && slots[j].value.region == g
                              then Column(items[j], slots[j], mem, fails) else before[j]
      {
        if slots[i].Some? && slots[i].value.region == g {
          var slot := slots[i].value;
          var bytes := buffer[slot.offset..slot.offset + slot.len];
          assert SlotOk(items[i], slots[i], regions, buffer.Length);
          assert bytes == Memory(mem(g), Span(items[i]).value.0, slot.len);
          out := out[i := Decode(items[i], bytes)];
        }
      }
    }
  }
}
