/**
 The tap: what a session publishes goes to each subscriber's own bounded queue, and what finds no room there is counted.
 */
module Tap {
  import opened Common
  import opened Frame

  /** A watched value's metadata: its name, and its path, type and unit as one text. */
  datatype Meta = Meta(id: Id, name: string, text: string)

  datatype Event = Samples(batch: SampleBatch, watches: seq<Meta>) | Watches(named: seq<Meta>) | Other(what: nat)

  function Ids(named: seq<Meta>): (ids: seq<Id>)
    ensures |ids| == |named| && forall k :: 0 <= k < |named| ==> ids[k] == named[k].id
  {
    seq(|named|, k requires 0 <= k < |named| => named[k].id)
  }

  // ----- names made unique -----

  function Digits(n: nat): (d: string)
    ensures '#' !in d && d != ""
  {
    if n < 10 then ["0123456789"[n]] else Digits(n / 10) + ["0123456789"[n % 10]]
  }

  /** The number a string of decimal digits spells. */
  function Spelt(d: string): int {
    if d == "" then 0 else 10 * Spelt(d[..|d| - 1]) + (d[|d| - 1] as int - '0' as int)
  }

  /** An id's digits spell the id, with nothing but digits and no zero in front. */
  lemma {:induction false} DigitsSpell(n: nat)
    ensures Spelt(Digits(n)) == n && forall k :: 0 <= k < |Digits(n)| ==> '0' <= Digits(n)[k] <= '9'
    ensures n > 0 ==> Digits(n)[0] != '0'
  {
    if n >= 10 {
      DigitsSpell(n / 10);
      assert Digits(n)[..|Digits(n)| - 1] == Digits(n / 10);
    } else {
      assert Digits(n)[..0] == "";
    }
  }

  /** A name a value starts out with. */
  function BaseName(w: Meta): string {
    if w.name == "" then "id" + Digits(w.id) else w.name
  }

  /** The name with its id behind it. */
  function Numbered(w: Meta): string {
    BaseName(w) + "#" + Digits(w.id)
  }

  /** The name it gets: its own, or with its id behind it when that is taken. */
  function UniqueName(w: Meta, taken: set<string>): string {
    if BaseName(w) in taken then Numbered(w) else BaseName(w)
  }

  /** The names a set has used up; `t` is the time key. */
  function Taken(named: seq<Meta>): set<string> {
    {"t"} + set k | 0 <= k < |named| :: named[k].name
  }

  /** A set of watches, each name made unique among those before it. */
  function WatchSet(metas: seq<Meta>): (named: seq<Meta>)
    ensures |named| == |metas|
    ensures forall k :: 0 <= k < |named| ==> named[k].id == metas[k].id && named[k].text == metas[k].text
  {
    if metas == [] then [] else
    var n := |metas| - 1;
    var before := WatchSet(metas[..n]);
    before + [metas[n].(name := UniqueName(metas[n], Taken(before)))]
  }

  lemma TakenNext(named: seq<Meta>, w: Meta)
    ensures Taken(named + [w]) == Taken(named) + {w.name}
  {
    var now := named + [w];
    assert now[|named|] == w;
    forall s ensures s in Taken(now) <==> s in Taken(named) + {w.name} {
      if s in Taken(named) && s != "t" {
        var k :| 0 <= k < |named| && named[k].name == s;
        assert now[k].name == s;
      }
      if s in Taken(now) && s != "t" {
        var k :| 0 <= k < |now| && now[k].name == s;
        assert k < |named| ==> named[k].name == s;
      }
    }
  }

  /** The source's loop, which keeps the names used up in a set of its own. */
  method NameWatches(metas: seq<Meta>) returns (named: seq<Meta>)
    ensures named == WatchSet(metas)
  {
    named := [];
    var taken := {"t"};
    for k := 0 to |metas|
      invariant named == WatchSet(metas[..k]) && taken == Taken(named)
    {
      assert metas[..k + 1][..k] == metas[..k];
      var name := if metas[k].name == "" then "id" + Digits(metas[k].id) else metas[k].name;
      if name in taken {
        name := name + "#" + Digits(metas[k].id);
      }
      TakenNext(named, metas[k].(name := name));
      taken := taken + {name};
      named := named + [metas[k].(name := name)];
    }
    assert metas[..|metas|] == metas;
  }

  lemma {:induction false} DigitsDiffer(m: nat, n: nat)
    requires m != n
    ensures Digits(m) != Digits(n)
    decreases m + n
  {
    var d, e := Digits(m), Digits(n);
    if m >= 10 && n >= 10 {
      if m / 10 != n / 10 {
        DigitsDiffer(m / 10, n / 10);
        assert d[..|d| - 1] == Digits(m / 10) && e[..|e| - 1] == Digits(n / 10);
      } else {
        assert d[|d| - 1] == "0123456789"[m % 10] && e[|e| - 1] == "0123456789"[n % 10];
      }
    } else if m >= 10 {
      assert |d| == |Digits(m / 10)| + 1;
    } else if n >= 10 {
      assert |e| == |Digits(n / 10)| + 1;
    }
  }

  /** What follows the last mark of a name is the same in equal names. */
  lemma AfterLastMark(a: string, d: string, b: string, e: string)
    requires '#' !in d && '#' !in e && d != e
    ensures a + "#" + d != b + "#" + e
  {
    var x, y := a + "#" + d, b + "#" + e;
    assert x[|a|] == '#' && y[|b|] == '#' && x[|a| + 1..] == d && y[|b| + 1..] == e;
    if |a| < |b| {
      assert |b| - |a| - 1 < |d| ==> x[|b|] == d[|b| - |a| - 1];
    } else if |b| < |a| {
      assert |a| - |b| - 1 < |e| ==> y[|a|] == e[|a| - |b| - 1];
    }
  }

  /** A name with an id behind its last mark says which id. */
  lemma NumberedSaysWhich(v: Meta, w: Meta)
    requires v.id != w.id
    ensures Numbered(v) != Numbered(w)
  {
    DigitsDiffer(v.id, w.id);
    AfterLastMark(BaseName(v), Digits(v.id), BaseName(w), Digits(w.id));
  }

  // ----- when names come out unique -----

  ghost predicate Unique(named: seq<Meta>) {
    && (forall i :: 0 <= i < |named| ==> named[i].name != "t")
    && forall i, j :: 0 <= i < j < |named| ==> named[i].name != named[j].name
  }

  /** Name `s` is used up by the first `k` values: as one's own, or as one's own with its id when that was used up. */
  predicate Used(metas: seq<Meta>, k: nat, s: string)
    requires k <= |metas|
  {
    if k == 0 then s == "t" else
      || Used(metas, k - 1, s) || BaseName(metas[k - 1]) == s
      || (Numbered(metas[k - 1]) == s && Used(metas, k - 1, BaseName(metas[k - 1])))
  }

  /** Both names value `k` could get are used up before it. */
  predicate Clash(metas: seq<Meta>, k: nat)
    requires k < |metas|
  {
    Used(metas, k, BaseName(metas[k])) && Used(metas, k, Numbered(metas[k]))
  }

  lemma {:induction false} UsedIsTaken(metas: seq<Meta>, k: nat, s: string)
    requires k <= |metas|
    ensures Used(metas, k, s) <==> s in Taken(WatchSet(metas[..k]))
    decreases k
  {
    if k > 0 {
      assert metas[..k][..k - 1] == metas[..k - 1];
      UsedIsTaken(metas, k - 1, s);
      UsedIsTaken(metas, k - 1, BaseName(metas[k - 1]));
      var before := WatchSet(metas[..k - 1]);
      TakenNext(before, metas[k - 1].(name := UniqueName(metas[k - 1], Taken(before))));
    }
  }

  lemma {:induction false} WatchSetOfPrefix(metas: seq<Meta>, k: nat)
    requires k <= |metas|
    ensures WatchSet(metas)[..k] == WatchSet(metas[..k])
    decreases |metas|
  {
    var n := |metas| - 1;
    if k <= n {
      WatchSetOfPrefix(metas[..n], k);
      assert metas[..n][..k] == metas[..k];
      assert WatchSet(metas)[..k] == WatchSet(metas[..n])[..k];
    } else {
      assert metas[..k] == metas;
    }
  }

  lemma NameAt(metas: seq<Meta>, k: nat)
    requires k < |metas|
    ensures WatchSet(metas)[..k] == WatchSet(metas[..k])
    ensures WatchSet(metas)[k].name == UniqueName(metas[k], Taken(WatchSet(metas[..k])))
  {
    WatchSetOfPrefix(metas, k);
    WatchSetOfPrefix(metas, k + 1);
    var upTo := metas[..k + 1];
    assert upTo[..k] == metas[..k] && WatchSet(metas)[k] == WatchSet(upTo)[k];
  }

  /** The name value `k` gets is one used before it exactly when the value clashes. */
  lemma RepeatsIffClash(metas: seq<Meta>, k: nat)
    requires k < |metas|
    ensures WatchSet(metas)[k].name in Taken(WatchSet(metas)[..k]) <==> Clash(metas, k)
  {
    NameAt(metas, k);
    UsedIsTaken(metas, k, BaseName(metas[k]));
    UsedIsTaken(metas, k, Numbered(metas[k]));
  }

  lemma UniqueIffNew(named: seq<Meta>)
    ensures Unique(named) <==> forall k :: 0 <= k < |named| ==> named[k].name !in Taken(named[..k])
  {
    forall k | 0 <= k < |named|
      ensures named[k].name in Taken(named[..k]) <==>
              named[k].name == "t" || exists i :: 0 <= i < k && named[i].name == named[k].name
    {
      if i :| 0 <= i < k && named[i].name == named[k].name {
        assert named[..k][i] == named[i];
      }
      if named[k].name in Taken(named[..k]) && named[k].name != "t" {
        var i :| 0 <= i < k && named[..k][i].name == named[k].name;
        assert named[i].name == named[k].name;
      }
    }
  }

  /** For any watches, their names come out distinct and none is `t` if and only if no value clashes. */
  lemma NamesAreUniqueIff(metas: seq<Meta>)
    ensures Unique(WatchSet(metas)) <==> forall k :: 0 <= k < |metas| ==> !Clash(metas, k)
  {
    UniqueIffNew(WatchSet(metas));
    forall k | 0 <= k < |metas|
      ensures WatchSet(metas)[k].name in Taken(WatchSet(metas)[..k]) <==> Clash(metas, k)
    {
      RepeatsIffClash(metas, k);
    }
  }

  ghost predicate DistinctIds(metas: seq<Meta>) {
    forall i, j :: 0 <= i < j < |metas| ==> metas[i].id != metas[j].id
  }

  lemma {:induction false} NumberedUsedBy(metas: seq<Meta>, w: Meta, k: nat)
    requires k <= |metas| && forall i :: 0 <= i < k ==> metas[i].id != w.id
    ensures Used(metas, k, Numbered(w)) <==> exists i :: 0 <= i < k && BaseName(metas[i]) == Numbered(w)
    decreases k
  {
    if k > 0 {
      NumberedUsedBy(metas, w, k - 1);
      NumberedSaysWhich(metas[k - 1], w);
    } else {
      assert |Numbered(w)| >= 2;
    }
  }

  /**
   With distinct ids a value clashes exactly when its own name is used up before it and an earlier value is called what
   it would be called with its id.
   */
  lemma ClashWithDistinctIds(metas: seq<Meta>, k: nat)
    requires DistinctIds(metas) && k < |metas|
    ensures Clash(metas, k) <==>
            && Used(metas, k, BaseName(metas[k]))
            && exists i :: 0 <= i < k && BaseName(metas[i]) == Numbered(metas[k])
  {
    NumberedUsedBy(metas, metas[k], k);
  }

  ghost predicate PlainNames(metas: seq<Meta>) {
    forall i :: 0 <= i < |metas| ==> '#' !in metas[i].name
  }

  /** In particular names are unique when ids are distinct and no name given contains the mark. */
  lemma NamesAreUnique(metas: seq<Meta>)
    requires PlainNames(metas) && DistinctIds(metas)
    ensures Unique(WatchSet(metas))
  {
    forall k | 0 <= k < |metas| ensures !Clash(metas, k) {
      ClashWithDistinctIds(metas, k);
      assert Numbered(metas[k])[|BaseName(metas[k])|] == '#';
    }
    NamesAreUniqueIff(metas);
  }

  /** Such a clash: whoever is called `x`, behind another `x` and one already called `x` with the mark and that id. */
  lemma MarkedNamesCollide(x: string, id: Id, other: Id, first: Id, text: string)
    requires x != "" && id != other && id != first && other != first
    ensures var metas := [Meta(first, x + "#" + Digits(id), text), Meta(other, x, text), Meta(id, x, text)];
            DistinctIds(metas) && Clash(metas, 2) && !Unique(WatchSet(metas))
  {
    var metas := [Meta(first, x + "#" + Digits(id), text), Meta(other, x, text), Meta(id, x, text)];
    assert Used(metas, 1, Numbered(metas[2])) && Used(metas, 2, x);
    NamesAreUniqueIff(metas);
    assert Clash(metas, 2) && |metas| == 3;
    assert !Unique(WatchSet(metas));
  }

  // ----- what an event weighs -----

  /** What losses are counted in: sample batches, their ticks, and all other events. */
  datatype Measure = Batches | Ticks | Events

  function Amount(e: Event, m: Measure): nat {
    match m
    case Batches => if e.Samples? then 1 else 0
    case Ticks => if e.Samples? then |e.batch.times| else 0
    case Events => if e.Samples? then 0 else 1
  }

  function Total(events: seq<Event>, m: Measure): nat {
    if events == [] then 0 else Total(events[..|events| - 1], m) + Amount(events[|events| - 1], m)
  }

  /** What found no room in a subscriber's queue. */
  datatype Drops = Drops(batches: nat, ticks: nat, events: nat) {
    function Of(m: Measure): nat {
      match m
      case Batches => batches
      case Ticks => ticks
      case Events => events
    }
  }

  function Dropped(d: Drops, e: Event): Drops {
    if e.Samples? then Drops(d.batches + 1, d.ticks + |e.batch.times|, d.events)
    else Drops(d.batches, d.ticks, d.events + 1)
  }

  lemma TotalNext(a: seq<Event>, e: Event, m: Measure)
    ensures Total(a + [e], m) == Total(a, m) + Amount(e, m)
  {
    assert (a + [e])[..|a|] == a;
  }

  lemma {:induction false} TotalConcat(a: seq<Event>, b: seq<Event>, m: Measure)
    ensures Total(a + b, m) == Total(a, m) + Total(b, m)
  {
    if b == [] {
      assert a + b == a;
    } else {
      var front, e := b[..|b| - 1], b[|b| - 1];
      TotalConcat(a, front, m);
      TotalNext(a + front, e, m);
      assert a + b == (a + front) + [e];
    }
  }

  // ----- which of the published events a subscription kept -----

  function Kept(published: seq<Event>, kept: seq<bool>): seq<Event>
    requires |published| == |kept|
  {
    if published == [] then [] else
    var n := |published| - 1;
    Kept(published[..n], kept[..n]) + if kept[n] then [published[n]] else []
  }

  function Lost(published: seq<Event>, kept: seq<bool>, m: Measure): nat
    requires |published| == |kept|
  {
    if published == [] then 0 else
    var n := |published| - 1;
    Lost(published[..n], kept[..n], m) + if kept[n] then 0 else Amount(published[n], m)
  }

  lemma {:induction false} KeptAndLost(published: seq<Event>, kept: seq<bool>, m: Measure)
    requires |published| == |kept|
    ensures Total(published, m) == Total(Kept(published, kept), m) + Lost(published, kept, m)
  {
    if published != [] {
      var n := |published| - 1;
      KeptAndLost(published[..n], kept[..n], m);
      var front := Kept(published[..n], kept[..n]);
      if kept[n] {
        TotalNext(front, published[n], m);
      } else {
        assert front + [] == front;
      }
    }
  }

  /** Where in the publication each kept event was. */
  function Places(kept: seq<bool>): (p: seq<nat>)
    ensures forall i, j :: 0 <= i < j < |p| ==> p[i] < p[j]
    ensures forall i :: 0 <= i < |p| ==> p[i] < |kept| && kept[p[i]]
  {
    if kept == [] then [] else
    var n := |kept| - 1;
    Places(kept[..n]) + if kept[n] then [n] else []
  }

  lemma {:induction false} KeptInOrder(published: seq<Event>, kept: seq<bool>)
    requires |published| == |kept|
    ensures |Kept(published, kept)| == |Places(kept)|
    ensures forall i :: 0 <= i < |Places(kept)| ==> Kept(published, kept)[i] == published[Places(kept)[i]]
  {
    if published != [] {
      var n := |published| - 1;
      KeptInOrder(published[..n], kept[..n]);
    }
  }

  // ----- subscribers -----

  /** A subscriber's queue and losses; `open` until its receiver is gone. */
  datatype Subscriber = Subscriber(key: nat, capacity: nat, queue: seq<Event>, drops: Drops, open: bool)

  /** What was published since it subscribed, which of that it kept, and what it has received. */
  datatype History = History(since: nat, kept: seq<bool>, received: seq<Event>)

  ghost predicate Accounted(s: Subscriber, h: History, log: seq<Event>) {
    && h.since <= |log| && |h.kept| == |log| - h.since
    && Kept(log[h.since..], h.kept) == h.received + s.queue
    && (forall m: Measure :: s.drops.Of(m) == Lost(log[h.since..], h.kept, m))
    && |s.queue| <= s.capacity && s.capacity >= 1
  }

  /**
   What was published since subscribing is received, queued or counted as dropped: batches, ticks and other events.
   */
  lemma NothingUncounted(s: Subscriber, h: History, log: seq<Event>, m: Measure)
    requires Accounted(s, h, log)
    ensures Total(log[h.since..], m) == Total(h.received, m) + Total(s.queue, m) + s.drops.Of(m)
  {
    KeptAndLost(log[h.since..], h.kept, m);
    TotalConcat(h.received, s.queue, m);
  }

  /** What was received is a subsequence of what was published, in publication order. */
  lemma ReceivedInOrder(s: Subscriber, h: History, log: seq<Event>) returns (places: seq<nat>)
    requires Accounted(s, h, log)
    ensures |places| == |h.received|
    ensures forall i, j :: 0 <= i < j < |places| ==> places[i] < places[j]
    ensures forall i :: 0 <= i < |places| ==>
              h.since + places[i] < |log| && log[h.since + places[i]] == h.received[i]
  {
    var published := log[h.since..];
    KeptInOrder(published, h.kept);
    places := Places(h.kept)[..|h.received|];
    forall i | 0 <= i < |places| ensures log[h.since + places[i]] == h.received[i] {
      assert Kept(published, h.kept)[i] == h.received[i];
    }
  }

  /** Offer `e` to a queue that may be full. */
  function Offered(s: Subscriber, e: Event): Subscriber {
    if |s.queue| < s.capacity then s.(queue := s.queue + [e]) else s.(drops := Dropped(s.drops, e))
  }

  function Noted(s: Subscriber, h: History): History {
    h.(kept := h.kept + [|s.queue| < s.capacity])
  }

  /** A message is kept if there is room for it, and only counted if there is none. */
  lemma KeptWithRoom(s: Subscriber, e: Event)
    ensures |s.queue| < s.capacity ==> Offered(s, e) == s.(queue := s.queue + [e])
    ensures |s.queue| >= s.capacity ==>
              var d := Offered(s, e).drops;
              && Offered(s, e) == s.(drops := d)
              && d.batches == s.drops.batches + (if e.Samples? then 1 else 0)
              && d.ticks == s.drops.ticks + (if e.Samples? then |e.batch.times| else 0)
              && d.events == s.drops.events + (if e.Samples? then 0 else 1)
  {
  }

  /** How many of the first `i` subscribers are still there. */
  function Open(subscribers: seq<Subscriber>, i: nat): (n: nat)
    requires i <= |subscribers|
  {
    if i == 0 then 0 else Open(subscribers, i - 1) + if subscribers[i - 1].open then 1 else 0
  }

  lemma {:induction false} OpenOfPrefix(subscribers: seq<Subscriber>, n: nat, i: nat)
    requires i <= n <= |subscribers|
    ensures Open(subscribers[..n], i) == Open(subscribers, i)
  {
    if i > 0 {
      OpenOfPrefix(subscribers, n, i - 1);
    }
  }

  /** A message is offered to every subscriber still there, and these keep their order; the others are let go. */
  lemma {:induction false} EveryoneIsOffered(subscribers: seq<Subscriber>, e: Event, i: nat)
    requires i < |subscribers| && subscribers[i].open
    ensures |OfferedAll(subscribers, e)| == Open(subscribers, |subscribers|) > Open(subscribers, i)
    ensures OfferedAll(subscribers, e)[Open(subscribers, i)] == Offered(subscribers[i], e)
    decreases |subscribers|
  {
    var n := |subscribers| - 1;
    OpenOfPrefix(subscribers, n, n);
    OfferedCount(subscribers, e);
    OfferedCount(subscribers[..n], e);
    if i < n {
      OpenOfPrefix(subscribers, n, i);
      EveryoneIsOffered(subscribers[..n], e, i);
    }
  }

  lemma {:induction false} OfferedCount(subscribers: seq<Subscriber>, e: Event)
    ensures |OfferedAll(subscribers, e)| == Open(subscribers, |subscribers|)
    decreases |subscribers|
  {
    if subscribers != [] {
      OfferedCount(subscribers[..|subscribers| - 1], e);
      OpenOfPrefix(subscribers, |subscribers| - 1, |subscribers| - 1);
    }
  }

  lemma OfferedIsAccounted(s: Subscriber, h: History, log: seq<Event>, e: Event)
    requires Accounted(s, h, log)
    ensures Accounted(Offered(s, e), Noted(s, h), log + [e])
  {
    var published, now := log[h.since..], (log + [e])[h.since..];
    assert now == published + [e] && now[..|published|] == published;
    assert Noted(s, h).kept[..|published|] == h.kept;
    assert (h.received + s.queue) + [e] == h.received + (s.queue + [e]);
  }

  lemma TakenIsAccounted(s: Subscriber, h: History, log: seq<Event>)
    requires Accounted(s, h, log) && s.queue != []
    ensures Accounted(s.(queue := s.queue[1..]), h.(received := h.received + [s.queue[0]]), log)
  {
    assert h.received + s.queue == (h.received + [s.queue[0]]) + s.queue[1..];
  }

  // ----- the tap -----

  method OfferAll(subs: seq<Subscriber>, e: Event) returns (rest: seq<Subscriber>)
    ensures rest == OfferedAll(subs, e)
  {
    rest := [];
    for i := 0 to |subs|
      invariant rest == OfferedAll(subs[..i], e)
    {
      assert subs[..i + 1][..i] == subs[..i];
      if subs[i].open {
        rest := rest + [Offered(subs[i], e)];
      }
    }
    assert subs[..|subs|] == subs;
  }

  class Tap {
    var subscribers: seq<Subscriber>
    var nextKey: nat
    /** What is known of each id: the newest description. */
    var meta: map<Id, Meta>
    /** What the user last chose to watch. */
    var watches: seq<Meta>
    /** The named set that went with the newest batch, good for the next one with those ids. */
    var batchSet: Option<(seq<Id>, seq<Meta>)>
    var connected: bool

    /** Everything published so far. */
    ghost var log: seq<Event>
    ghost var histories: seq<History>
    /** What was known when the remembered set was named. */
    ghost var batchMeta: map<Id, Meta>

    ghost predicate Accounts()
      reads this`subscribers, this`histories, this`log
    {
      && |histories| == |subscribers|
      && forall i :: 0 <= i < |subscribers| ==> Accounted(subscribers[i], histories[i], log)
    }

    /** Columns are described by a set with their very ids: the listed one, if its ids are the same. */
    ghost predicate Named()
      reads this`meta, this`watches, this`batchSet, this`log, this`batchMeta
    {
      && Sound(meta) && Sound(batchMeta) && Alike(Recorded(meta, watches), meta)
      && (batchSet.Some? ==>
            && Alike(batchMeta, meta)
            && batchSet.value.1 == SetOf(watches, batchMeta, batchSet.value.0))
      && forall k :: 0 <= k < |log| && log[k].Samples? ==> Ids(log[k].watches) == log[k].batch.ids
    }

    ghost predicate Valid()
      reads this
    {
      Accounts() && Named()
    }

    constructor ()
      ensures Valid() && subscribers == [] && log == [] && histories == []
      ensures meta == map[] && watches == [] && batchSet == None && !connected && nextKey == 0
    {
      subscribers, nextKey, meta, watches, batchSet, connected := [], 0, map[], [], None, false;
      log, histories, batchMeta := [], [], map[];
    }

    /** Add a subscriber that queues up to `capacity` of the messages that follow. */
    method Subscribe(capacity: nat) returns (key: nat)
      requires Valid()
      modifies this`subscribers, this`nextKey, this`histories
      ensures Valid() && key == old(nextKey) && nextKey == key + 1
      ensures subscribers == old(subscribers) +
                [Subscriber(key, if capacity == 0 then 1 else capacity, [], Drops(0, 0, 0), true)]
      ensures histories == old(histories) + [History(|log|, [], [])]
    {
      key, nextKey := nextKey, nextKey + 1;
      subscribers := subscribers + [Subscriber(key, if capacity == 0 then 1 else capacity, [], Drops(0, 0, 0), true)];
      histories := histories + [History(|log|, [], [])];
    }

    /** Offer `e` to every subscriber; those whose receiver is gone are let go. */
    method Publish(e: Event)
      requires Valid() && (e.Samples? ==> Ids(e.watches) == e.batch.ids)
      modifies this`subscribers, this`histories, this`log
      ensures Valid() && log == old(log) + [e]
      ensures subscribers == OfferedAll(old(subscribers), e)
      ensures histories == NotedAll(old(subscribers), old(histories))
    {
      AllAccounted(subscribers, histories, log, e);
      histories, log := NotedAll(subscribers, histories), log + [e];
      subscribers := OfferAll(subscribers, e);
    }

    /**
     Another watched set. While sampling it is announced only if its ids are those of the set before.
     */
    method SetWatches(metas: seq<Meta>)
      requires Valid()
      modifies this`meta, this`watches, this`batchSet
      modifies this`subscribers, this`histories, this`log
      ensures Valid() && watches == WatchSet(metas) && meta == Recorded(old(meta), metas)
      ensures batchSet == (if watches == old(watches) then old(batchSet) else None)
      ensures log == old(log) +
                     if watches != old(watches) && (!connected || Ids(watches) == Ids(old(watches)))
                     then [Watches(watches)] else []
    {
      var before := watches;
      var changed := List(metas);
      if changed && (!connected || Ids(watches) == Ids(before)) {
        Publish(Watches(watches));
      }
    }

    /** Note what is listed; a set that comes out as before changes nothing else. */
    method List(metas: seq<Meta>) returns (changed: bool)
      requires Valid()
      modifies this`meta, this`watches, this`batchSet
      ensures Valid() && watches == WatchSet(metas) && meta == Recorded(old(meta), metas)
      ensures changed == (watches != old(watches)) && batchSet == (if changed then None else old(batchSet))
    {
      RelistingIsAlike(meta, metas, watches);
      meta := Recorded(meta, metas);
      var named := NameWatches(metas);
      changed := named != watches;
      if changed {
        watches, batchSet := named, None;
      }
    }

    /** The metadata of a batch's columns; a set that had to be made is remembered. */
    method SetFor(ids: seq<Id>) returns (named: seq<Meta>)
      requires Valid()
      modifies this`batchSet, this`batchMeta
      ensures Valid() && batchSet == Some((ids, named)) && Alike(batchMeta, meta)
      ensures named == SetOf(watches, batchMeta, ids)
      ensures batchMeta == (if old(batchSet).Some? && old(batchSet).value.0 == ids then old(batchMeta) else meta)
    {
      if batchSet.Some? && batchSet.value.0 == ids {
        return batchSet.value.1;
      }
      if Ids(watches) == ids {
        named := watches;
      } else {
        var known := meta;
        var metas := seq(|ids|, k requires 0 <= k < |ids| => Described(known, ids[k]));
        named := NameWatches(metas);
        assert metas == DescribedAll(meta, ids);
      }
      batchSet, batchMeta := Some((ids, named)), meta;
    }

    /**
     Publish a batch under the set that names its columns: the listed one if its ids fit, or else what is known of each
     id, named as a set of its own. A set made for the batch before is used again; it was made when the same texts
     were known of the same ids.
     */
    method OnSamples(batch: SampleBatch)
      requires Valid()
      modifies this`batchSet, this`batchMeta, this`subscribers, this`histories, this`log
      ensures Valid() && |log| == |old(log)| + 1 && log[..|old(log)|] == old(log)
      ensures log[|old(log)|].Samples? && log[|old(log)|].batch == batch && Ids(log[|old(log)|].watches) == batch.ids
      ensures Ids(watches) == batch.ids ==> log[|old(log)|].watches == watches
      ensures Ids(watches) != batch.ids ==>
                && log[|old(log)|].watches == WatchSet(DescribedAll(batchMeta, batch.ids))
                && Alike(batchMeta, meta)
      ensures batchMeta == (if old(batchSet).Some? && old(batchSet).value.0 == batch.ids then old(batchMeta) else meta)
      ensures batchSet == Some((batch.ids, log[|old(log)|].watches))
    {
      var named := SetFor(batch.ids);
      Publish(Samples(batch, named));
    }

    /** Any other session event; a status says whether the session is connected. */
    method OnEvent(what: nat, status: Option<bool>)
      requires Valid()
      modifies this`connected, this`subscribers, this`histories, this`log
      ensures Valid() && log == old(log) + [Other(what)]
      ensures connected == if status.Some? then status.value else old(connected)
    {
      if status.Some? {
        connected := status.value;
      }
      Publish(Other(what));
    }

    /** A subscriber takes the oldest message of its queue. */
    method Receive(i: nat) returns (e: Option<Event>)
      requires Valid() && i < |subscribers|
      modifies this`subscribers, this`histories
      ensures Valid() && |subscribers| == |old(subscribers)|
      ensures e == if old(subscribers[i].queue) == [] then None else Some(old(subscribers[i].queue[0]))
      ensures subscribers == if e.None? then old(subscribers)
                             else old(subscribers)[i := old(subscribers)[i].(queue := old(subscribers)[i].queue[1..])]
      ensures histories == if e.None? then old(histories)
                           else old(histories)[
                                  i := old(histories)[i].(received := old(histories)[i].received + [e.value])]
    {
      var s := subscribers[i];
      if s.queue == [] {
        return None;
      }
      e := Some(s.queue[0]);
      TakenIsAccounted(s, histories[i], log);
      subscribers := subscribers[i := s.(queue := s.queue[1..])];
      histories := histories[i := histories[i].(received := histories[i].received + [s.queue[0]])];
    }

    /** A subscriber's receiver goes away unannounced: the next message finds it gone. */
    method Vanish(i: nat)
      requires Valid() && i < |subscribers|
      modifies this`subscribers
      ensures Valid() && subscribers == old(subscribers)[i := old(subscribers)[i].(open := false)]
    {
      subscribers := subscribers[i := subscribers[i].(open := false)];
    }

    /** A subscriber unsubscribes; the others keep their places. */
    method Unsubscribe(i: nat)
      requires Valid() && i < |subscribers|
      modifies this`subscribers, this`histories
      ensures Valid() && subscribers == old(subscribers)[..i] + old(subscribers)[i + 1..]
      ensures histories == old(histories)[..i] + old(histories)[i + 1..]
    {
      subscribers, histories := subscribers[..i] + subscribers[i + 1..], histories[..i] + histories[i + 1..];
    }
  }

  ghost predicate Sound(meta: map<Id, Meta>) {
    forall id :: id in meta ==> meta[id].id == id
  }

  /** Metadata by id, the latest last. */
  function Recorded(meta: map<Id, Meta>, metas: seq<Meta>): (r: map<Id, Meta>)
    requires Sound(meta)
    ensures Sound(r)
  {
    if metas == [] then meta else
    var w := metas[|metas| - 1];
    Recorded(meta, metas[..|metas| - 1])[w.id := w]
  }

  /** What is known of an id; a stand-in for one never listed. */
  function Described(meta: map<Id, Meta>, id: Id): (w: Meta)
    requires id in meta ==> meta[id].id == id
    ensures w.id == id
  {
    if id in meta then meta[id] else Meta(id, "id" + Digits(id), "")
  }

  // ----- what is known of the columns -----

  function DescribedAll(meta: map<Id, Meta>, ids: seq<Id>): (metas: seq<Meta>)
    requires Sound(meta)
    ensures Ids(metas) == ids
  {
    var metas := seq(|ids|, k requires 0 <= k < |ids| => Described(meta, ids[k]));
    assert Ids(metas) == ids;
    metas
  }

  /** The set that goes with a batch: the listed one if its ids are the same. */
  function SetOf(watches: seq<Meta>, meta: map<Id, Meta>, ids: seq<Id>): (named: seq<Meta>)
    requires Sound(meta)
    ensures Ids(named) == ids
  {
    if Ids(watches) == ids then watches
    else
      var metas := DescribedAll(meta, ids);
      assert forall k :: 0 <= k < |ids| ==> WatchSet(metas)[k].id == metas[k].id == ids[k];
      WatchSet(metas)
  }

  /** The last of the watches listed under `id` is the one at `k`. */
  ghost predicate LastUnder(metas: seq<Meta>, id: Id, k: nat) {
    k < |metas| && metas[k].id == id && forall j :: k < j < |metas| ==> metas[j].id != id
  }

  /** A listed id is known as it was last listed. */
  lemma {:induction false} LastListedIsKnown(meta: map<Id, Meta>, metas: seq<Meta>, id: Id, k: nat)
    requires Sound(meta) && LastUnder(metas, id, k)
    ensures id in Recorded(meta, metas) && Recorded(meta, metas)[id] == metas[k]
    decreases |metas|
  {
    if k < |metas| - 1 {
      LastListedIsKnown(meta, metas[..|metas| - 1], id, k);
    }
  }

  /** What is known of an id that is not listed stays. */
  lemma {:induction false} UnlistedStays(meta: map<Id, Meta>, metas: seq<Meta>, id: Id)
    requires Sound(meta) && forall k :: 0 <= k < |metas| ==> metas[k].id != id
    ensures id in Recorded(meta, metas) <==> id in meta
    ensures id in meta ==> Recorded(meta, metas)[id] == meta[id]
  {
    if metas != [] {
      UnlistedStays(meta, metas[..|metas| - 1], id);
    }
  }

  lemma {:induction false} LastOne(metas: seq<Meta>, id: Id, j: nat) returns (k: nat)
    requires j < |metas| && metas[j].id == id
    ensures LastUnder(metas, id, k)
    decreases |metas| - j
  {
    if i :| j < i < |metas| && metas[i].id == id {
      k := LastOne(metas, id, i);
    } else {
      k := j;
    }
  }

  /** A column keeps the text last listed for its id and the name, by itself or with the id behind it. */
  lemma ColumnIsDescribed(meta: map<Id, Meta>, ids: seq<Id>, k: nat)
    requires Sound(meta) && k < |ids|
    ensures var w, id := WatchSet(DescribedAll(meta, ids))[k], ids[k];
            var name := if id in meta && meta[id].name != "" then meta[id].name else "id" + Digits(id);
            && w.id == id && w.text == (if id in meta then meta[id].text else "")
            && (w.name == name || w.name == name + "#" + Digits(id))
            && (k == 0 && name != "t" ==> w.name == name)
  {
    var metas := DescribedAll(meta, ids);
    assert metas[k].id == Ids(metas)[k] && metas[k] == Described(meta, ids[k]);
    NameAt(metas, k);
    if k == 0 {
      assert WatchSet(metas[..0]) == [];
    }
  }

  /** The same ids are known, with the same texts. */
  ghost predicate Alike(m: map<Id, Meta>, n: map<Id, Meta>) {
    m.Keys == n.Keys && forall id :: id in m && id in n ==> m[id].text == n[id].text
  }

  /** Watches with the same ids and texts. */
  ghost predicate SameTexts(a: seq<Meta>, b: seq<Meta>) {
    |a| == |b| && forall k :: 0 <= k < |a| ==> a[k].id == b[k].id && a[k].text == b[k].text
  }

  lemma {:induction false} SameListsAreAlike(m: map<Id, Meta>, a: seq<Meta>, b: seq<Meta>)
    requires Sound(m) && SameTexts(a, b)
    ensures Alike(Recorded(m, a), Recorded(m, b))
  {
    if a != [] {
      var n := |a| - 1;
      SameListsAreAlike(m, a[..n], b[..n]);
    }
  }

  lemma RecordedTwice(m: map<Id, Meta>, a: seq<Meta>)
    requires Sound(m)
    ensures Recorded(Recorded(m, a), a) == Recorded(m, a)
  {
    var once := Recorded(m, a);
    forall id: Id
      ensures id in Recorded(once, a) <==> id in once
      ensures id in once ==> Recorded(once, a)[id] == once[id]
    {
      if j :| 0 <= j < |a| && a[j].id == id {
        var k := LastOne(a, id, j);
        LastListedIsKnown(m, a, id, k);
        LastListedIsKnown(once, a, id, k);
      } else {
        UnlistedStays(once, a, id);
      }
    }
  }

  /** Listing watches again, under whatever names, as long as they come out the same, changes no text. */
  lemma RelistingIsAlike(meta: map<Id, Meta>, metas: seq<Meta>, watches: seq<Meta>)
    requires Sound(meta) && Alike(Recorded(meta, watches), meta)
    ensures var now := Recorded(meta, metas);
            && Alike(Recorded(now, WatchSet(metas)), now)
            && (WatchSet(metas) == watches ==> Alike(now, meta))
  {
    var now := Recorded(meta, metas);
    RecordedTwice(meta, metas);
    SameListsAreAlike(now, WatchSet(metas), metas);
    if WatchSet(metas) == watches {
      SameListsAreAlike(meta, metas, watches);
    }
  }

  // ----- when a remembered set is what would be made now -----

  /** Whatever its ids, a set is named the same from either. */
  ghost predicate NamedAlike(before: map<Id, Meta>, now: map<Id, Meta>)
    requires Sound(before) && Sound(now)
  {
    forall ids: seq<Id> :: WatchSet(DescribedAll(before, ids)) == WatchSet(DescribedAll(now, ids))
  }

  ghost predicate SameBases(a: seq<Meta>, b: seq<Meta>) {
    SameTexts(a, b) && forall k :: 0 <= k < |a| ==> BaseName(a[k]) == BaseName(b[k])
  }

  lemma {:induction false} BasesDecide(a: seq<Meta>, b: seq<Meta>)
    requires SameBases(a, b)
    ensures WatchSet(a) == WatchSet(b)
  {
    if a != [] {
      BasesDecide(a[..|a| - 1], b[..|b| - 1]);
    }
  }

  /** A column twice: called its own name, then that with its id; but never `t`. */
  lemma TwiceNamed(w: Meta)
    ensures WatchSet([w, w])[0].name == if BaseName(w) == "t" then Numbered(w) else BaseName(w)
    ensures WatchSet([w, w])[1].name == Numbered(w)
  {
    var metas := [w, w];
    NameAt(metas, 0);
    NameAt(metas, 1);
    assert WatchSet(metas[..0]) == [];
    assert WatchSet(metas)[..1] == [WatchSet(metas)[0]];
    assert WatchSet(metas[..1])[0].name in Taken(WatchSet(metas[..1]));
  }

  lemma MarkEnds(a: string, b: string, d: string)
    requires a + "#" + d == b + "#" + d
    ensures a == b
  {
    assert a == (a + "#" + d)[..|a + "#" + d| - |d| - 1];
    assert b == (b + "#" + d)[..|b + "#" + d| - |d| - 1];
  }

  /**
   A set remembered from before a relisting that came out the same is, whatever its ids, the one that would be made now
   if and only if every id known still has the same name, as it was listed.
   */
  lemma RememberedNamesIff(before: map<Id, Meta>, now: map<Id, Meta>)
    requires Sound(before) && Sound(now) && Alike(before, now)
    ensures NamedAlike(before, now) <==>
            forall id :: id in before && id in now ==> BaseName(before[id]) == BaseName(now[id])
  {
    if NamedAlike(before, now) {
      forall id | id in before && id in now ensures BaseName(before[id]) == BaseName(now[id]) {
        assert DescribedAll(before, [id, id]) == [before[id], before[id]];
        assert DescribedAll(now, [id, id]) == [now[id], now[id]];
        TwiceNamed(before[id]);
        TwiceNamed(now[id]);
        MarkEnds(BaseName(before[id]), BaseName(now[id]), Digits(id));
      }
    } else {
      var ids: seq<Id> :| WatchSet(DescribedAll(before, ids)) != WatchSet(DescribedAll(now, ids));
      var a, b := DescribedAll(before, ids), DescribedAll(now, ids);
      if forall id :: id in before && id in now ==> BaseName(before[id]) == BaseName(now[id]) {
        forall k | 0 <= k < |ids|
          ensures a[k].id == b[k].id && a[k].text == b[k].text && BaseName(a[k]) == BaseName(b[k])
        {
          assert a[k] == Described(before, ids[k]) && b[k] == Described(now, ids[k]);
        }
        BasesDecide(a, b);
        assert false;
      }
    }
  }

  /** A relisting that comes out the same leaves the set that the next batch with those ids goes under. */
  method Relist(tap: Tap, metas: seq<Meta>, batch: SampleBatch, ghost named: seq<Meta>)
    requires tap.Valid() && WatchSet(metas) == tap.watches && tap.batchSet == Some((batch.ids, named))
    modifies tap
    ensures tap.Valid() && tap.meta == Recorded(old(tap.meta), metas)
    ensures tap.log == old(tap.log) + [Samples(batch, named)]
  {
    tap.SetWatches(metas);
    tap.OnSamples(batch);
  }

  /** Watches listed, then a batch of other ids. */
  method ListAndSample(metas: seq<Meta>, batch: SampleBatch) returns (tap: Tap)
    requires Ids(metas) != batch.ids
    ensures fresh(tap) && tap.Valid() && tap.watches == WatchSet(metas) && tap.meta == Recorded(map[], metas)
    ensures tap.batchSet == Some((batch.ids, WatchSet(DescribedAll(tap.meta, batch.ids))))
  {
    tap := new Tap();
    tap.SetWatches(metas);
    assert Ids(tap.watches) == Ids(metas);
    tap.OnSamples(batch);
  }

  /**
   Two values called `x` are listed, a batch of the second comes, and then the second is listed under the very name it
   had come out with: the next batch still calls it `x`.
   */
  method RenamedUnseen(x: string, listed: seq<Meta>, again: seq<Meta>, batch: SampleBatch) returns (tap: Tap)
    requires x != "" && x != "t" && |listed| == 2 && listed[0].id != listed[1].id && batch.ids == [listed[1].id]
    requires listed[0].name == listed[1].name == x
    requires again == [listed[0], listed[1].(name := x + "#" + Digits(listed[1].id))]
    ensures fresh(tap) && tap.Valid() && listed[1].id in tap.meta && tap.meta[listed[1].id] == again[1]
    ensures tap.log != [] && tap.log[|tap.log| - 1] == Samples(batch, [listed[1]])
  {
    tap := ListAndSample(listed, batch);
    LastListedIsKnown(map[], listed, listed[1].id, 1);
    DescribedOne(tap.meta, batch.ids, listed[1]);
    TwoNamed(listed, again, x);
    LastListedIsKnown(tap.meta, again, listed[1].id, 1);
    Relist(tap, again, batch, [listed[1]]);
  }

  lemma DescribedOne(meta: map<Id, Meta>, ids: seq<Id>, w: Meta)
    requires Sound(meta) && ids == [w.id] && w.id in meta && meta[w.id] == w && w.name != "" && w.name != "t"
    ensures WatchSet(DescribedAll(meta, ids)) == [w]
  {
    ColumnIsDescribed(meta, ids, 0);
    var named := WatchSet(DescribedAll(meta, ids));
    assert named == [named[0]] && |DescribedAll(meta, ids)| == |Ids(DescribedAll(meta, ids))|;
  }

  lemma TwoNamed(listed: seq<Meta>, again: seq<Meta>, x: string)
    requires x != "" && x != "t" && |listed| == 2 && listed[0].name == listed[1].name == x
    requires again == [listed[0], listed[1].(name := x + "#" + Digits(listed[1].id))]
    ensures WatchSet(listed) == WatchSet(again)
  {
    var marked := x + "#" + Digits(listed[1].id);
    assert marked[|x|] == '#' && |marked| > |x| + 1;
    assert listed[..1] == again[..1] && listed[..1][..0] == [];
    var first := WatchSet(listed[..1]);
    assert WatchSet(listed[..1][..0]) == [];
    assert first == [listed[0]];
    assert first[0].name == x && Taken(first) == {"t", x};
  }

  function OfferedAll(subscribers: seq<Subscriber>, e: Event): seq<Subscriber> {
    if subscribers == [] then [] else
    var n := |subscribers| - 1;
    OfferedAll(subscribers[..n], e) + if subscribers[n].open then [Offered(subscribers[n], e)] else []
  }

  ghost function NotedAll(subscribers: seq<Subscriber>, histories: seq<History>): seq<History>
    requires |histories| == |subscribers|
  {
    if subscribers == [] then [] else
    var n := |subscribers| - 1;
    NotedAll(subscribers[..n], histories[..n]) +
    if subscribers[n].open then [Noted(subscribers[n], histories[n])] else []
  }

  ghost predicate Books(subscribers: seq<Subscriber>, histories: seq<History>, log: seq<Event>) {
    |histories| == |subscribers| && forall i :: 0 <= i < |subscribers| ==> Accounted(subscribers[i], histories[i], log)
  }

  lemma BooksGrow(subscribers: seq<Subscriber>, histories: seq<History>, s: Subscriber, h: History, log: seq<Event>)
    requires Books(subscribers, histories, log) && Accounted(s, h, log)
    ensures Books(subscribers + [s], histories + [h], log)
  {
  }

  lemma {:induction false} AllAccounted(
      subscribers: seq<Subscriber>, histories: seq<History>, log: seq<Event>, e: Event)
    requires Books(subscribers, histories, log)
    ensures Books(OfferedAll(subscribers, e), NotedAll(subscribers, histories), log + [e])
  {
    if subscribers != [] {
      var n := |subscribers| - 1;
      AllAccounted(subscribers[..n], histories[..n], log, e);
      OfferedIsAccounted(subscribers[n], histories[n], log, e);
      if subscribers[n].open {
        BooksGrow(OfferedAll(subscribers[..n], e), NotedAll(subscribers[..n], histories[..n]),
                  Offered(subscribers[n], e), Noted(subscribers[n], histories[n]), log + [e]);
      }
    }
  }

  // ----- whole runs -----

  datatype Action = Subscribed(capacity: nat) | Listed(metas: seq<Meta>) | Flushed(batch: SampleBatch)
                  | Happened(what: nat, status: Option<bool>) | Drained(at: nat) | Vanished(at: nat) | Left(at: nat)

  /** Under any interleaving of publishers and draining subscribers, nothing published to anyone goes uncounted. */
  method Run(actions: seq<Action>) returns (tap: Tap)
    ensures fresh(tap) && tap.Valid()
    ensures forall i, m :: 0 <= i < |tap.subscribers| ==>
              Counted(tap.subscribers[i], tap.histories[i], tap.log, m)
  {
    tap := new Tap();
    for k := 0 to |actions|
      invariant fresh(tap) && tap.Valid()
    {
      match actions[k] {
        case Subscribed(capacity) =>
          var key := tap.Subscribe(capacity);
        case Listed(metas) =>
          tap.SetWatches(metas);
        case Flushed(batch) =>
          tap.OnSamples(batch);
        case Happened(what, status) =>
          tap.OnEvent(what, status);
        case Drained(at) =>
          if at < |tap.subscribers| {
            var e := tap.Receive(at);
          }
        case Vanished(at) =>
          if at < |tap.subscribers| {
            tap.Vanish(at);
          }
        case Left(at) =>
          if at < |tap.subscribers| {
            tap.Unsubscribe(at);
          }
      }
    }
    forall i, m | 0 <= i < |tap.subscribers|
      ensures Counted(tap.subscribers[i], tap.histories[i], tap.log, m)
    {
      NothingUncounted(tap.subscribers[i], tap.histories[i], tap.log, m);
    }
  }

  ghost predicate Counted(s: Subscriber, h: History, log: seq<Event>, m: Measure) {
    h.since <= |log| && Total(log[h.since..], m) == Total(h.received, m) + Total(s.queue, m) + s.drops.Of(m)
  }
}
