/**
 When a request can be forgotten: its number comes round again while it waits, so that 65536 frames go out between two
 sweeps of the overdue requests. What a run of calls has to look like for that, whatever protocol makes the calls.
 */
module Pace {
  import opened Common
  import opened Ledger

  /** A waiting request: who asked, which frame it was, and when it is overdue. */
  datatype Slot = Slot(ticket: Ticket, serial: nat, due: nat)

  /** The requests waiting under each number, the frames numbered so far, and the tickets never answered. */
  datatype Standing = Standing(table: map<Seq, Slot>, numbered: nat, lost: set<Ticket>)

  /**
   One call: when, how many frames it can send, whether it ends with a sweep of what is overdue, and how long its
   request may wait when it makes one.
   */
  datatype Beat = Beat(now: nat, frames: nat, sweeps: bool, limit: Option<nat>)

  // ----- one call -----

  /** `t` waits for a frame whose number has come round by frame `n`. */
  ghost predicate Outnumbered(table: map<Seq, Slot>, t: Ticket, n: nat) {
    exists s :: s in table && table[s].ticket == t && n >= table[s].serial + 0x1_0000
  }

  /** What waits was waiting before, or is the new request; only tickets whose number has come round are lost. */
  ghost predicate Follows(a: Standing, b: Standing, frames: nat, entered: Option<Slot>) {
    && a.numbered <= b.numbered <= a.numbered + frames
    && (forall s :: s in b.table ==> (s in a.table && b.table[s] == a.table[s]) || entered == Some(b.table[s]))
    && (forall t :: t in b.lost ==> t in a.lost || Outnumbered(a.table, t, b.numbered))
  }

  lemma FollowsTwice(a: Standing, b: Standing, c: Standing, f: nat, g: nat, entered: Option<Slot>)
    requires Follows(a, b, f, None) && Follows(b, c, g, entered)
    ensures Follows(a, c, f + g, entered)
  {
    forall t | t in c.lost ensures t in a.lost || Outnumbered(a.table, t, c.numbered) {
      if t in b.lost && t !in a.lost {
        var s :| s in a.table && a.table[s].ticket == t && b.numbered >= a.table[s].serial + 0x1_0000;
        assert c.numbered >= a.table[s].serial + 0x1_0000;
      } else if t !in b.lost {
        var s :| s in b.table && b.table[s].ticket == t && c.numbered >= b.table[s].serial + 0x1_0000;
        assert s in a.table && a.table[s].ticket == t;
      }
    }
  }

  /** A call at `b` by which `ticket`, if it asks for one, may start to wait. */
  ghost predicate Called(b: Beat, ticket: Ticket, before: Standing, after: Standing) {
    && Follows(before, after, b.frames,
               if b.limit.Some? then Some(Slot(ticket, after.numbered, b.now + b.limit.value)) else None)
    && (b.sweeps ==> forall s :: s in after.table ==> b.now <= after.table[s].due)
  }

  // ----- runs -----

  /** Frames the calls `i..n` can send. */
  function Frames(beats: seq<Beat>, i: nat, n: nat): nat
    requires n <= |beats|
  {
    if n <= i then 0 else Frames(beats, i, n - 1) + beats[n - 1].frames
  }

  /** Requests among the first `n` calls: the ticket of the next one. */
  function Requests(beats: seq<Beat>, n: nat): nat
    requires n <= |beats|
  {
    if n == 0 then 0 else Requests(beats, n - 1) + if beats[n - 1].limit.Some? then 1 else 0
  }

  /** No sweep after call `i` and before call `j` finds its request overdue. */
  ghost predicate Unswept(beats: seq<Beat>, i: nat, j: nat)
    requires i < j <= |beats| && beats[i].limit.Some?
  {
    forall k :: i < k < j && beats[k].sweeps ==> beats[k].now <= beats[i].now + beats[i].limit.value
  }

  /** Request `t` was made at call `i`, and before any sweep found it overdue its number came round at call `j`. */
  ghost predicate Overtaken(beats: seq<Beat>, t: Ticket, i: nat, j: nat) {
    && i < j < |beats| && beats[i].limit.Some? && Requests(beats, i) == t
    && Frames(beats, i + 1, j + 1) >= 0x1_0000 && Unswept(beats, i, j)
  }

  /** After `n` calls `slot` holds the request made at call `i`. */
  ghost predicate Made(beats: seq<Beat>, n: nat, slot: Slot, numbered: nat, i: nat) {
    && i < n <= |beats| && beats[i].limit.Some? && Requests(beats, i) == slot.ticket
    && slot.due == beats[i].now + beats[i].limit.value && Unswept(beats, i, n)
    && numbered <= slot.serial + Frames(beats, i + 1, n)
  }

  ghost predicate WasMade(beats: seq<Beat>, n: nat, slot: Slot, numbered: nat) {
    exists i :: Made(beats, n, slot, numbered, i)
  }

  ghost predicate WasOvertaken(beats: seq<Beat>, t: Ticket) {
    exists i, j :: Overtaken(beats, t, i, j)
  }

  /** What waits after `n` calls was made by one of them, and what is lost was overtaken in one. */
  ghost predicate Tracked(beats: seq<Beat>, n: nat, s: Standing) {
    && (forall q :: q in s.table ==> WasMade(beats, n, s.table[q], s.numbered))
    && (forall t :: t in s.lost ==> WasOvertaken(beats, t))
  }

  lemma StillMade(beats: seq<Beat>, n: nat, slot: Slot, before: nat, after: nat)
    requires n < |beats| && WasMade(beats, n, slot, before) && after <= before + beats[n].frames
    requires beats[n].sweeps ==> beats[n].now <= slot.due
    ensures WasMade(beats, n + 1, slot, after)
  {
    var i :| Made(beats, n, slot, before, i);
    assert Made(beats, n + 1, slot, after, i);
  }

  lemma NowOvertaken(beats: seq<Beat>, n: nat, slot: Slot, before: nat, after: nat)
    requires n < |beats| && WasMade(beats, n, slot, before) && after <= before + beats[n].frames
    requires after >= slot.serial + 0x1_0000
    ensures WasOvertaken(beats, slot.ticket)
  {
    var i :| Made(beats, n, slot, before, i);
    assert Overtaken(beats, slot.ticket, i, n);
  }

  lemma CallIsTracked(beats: seq<Beat>, n: nat, a: Standing, b: Standing)
    requires n < |beats| && Tracked(beats, n, a) && Called(beats[n], Requests(beats, n), a, b)
    ensures Tracked(beats, n + 1, b)
  {
    forall q | q in b.table ensures WasMade(beats, n + 1, b.table[q], b.numbered) {
      if q in a.table && b.table[q] == a.table[q] {
        StillMade(beats, n, a.table[q], a.numbered, b.numbered);
      } else {
        assert Made(beats, n + 1, b.table[q], b.numbered, n);
      }
    }
    forall t | t in b.lost ensures WasOvertaken(beats, t) {
      if t !in a.lost {
        var q :| q in a.table && a.table[q].ticket == t && b.numbered >= a.table[q].serial + 0x1_0000;
        NowOvertaken(beats, n, a.table[q], a.numbered, b.numbered);
      }
    }
  }

  // ----- calls nobody answers -----

  /** The number after frame `n`. */
  function NumberAfter(n: nat): Seq {
    (n + 1) % 0x1_0000
  }

  /**
   The call with every frame taken and no reply: its frame displaces what waits under the number, its sweep sweeps.
   */
  ghost predicate Unheard(b: Beat, ticket: Ticket, before: Standing, after: Standing) {
    var q, gone := NumberAfter(before.numbered), before.table - {NumberAfter(before.numbered)};
    if b.frames == 1 then
      && !b.sweeps && after.numbered == before.numbered + 1
      && after.table == (if b.limit.None? then gone
                         else gone[q := Slot(ticket, after.numbered, b.now + b.limit.value)])
      && after.lost == before.lost + if q in before.table then {before.table[q].ticket} else {}
    else
      && b.frames == 0 && b.limit.None? && after.numbered == before.numbered && after.lost == before.lost
      && after.table == if b.sweeps then map s | s in before.table && b.now <= before.table[s].due :: before.table[s]
                        else before.table
  }

  /** What waits waits under the number of its frame, which has not come round. */
  ghost predicate Current(s: Standing) {
    forall q :: q in s.table ==> s.table[q].serial % 0x1_0000 == q && s.numbered < s.table[q].serial + 0x1_0000
  }

  /** The slot of the request made at call `i`, frames being numbered from `base`. */
  ghost function SlotAt(beats: seq<Beat>, base: nat, i: nat): Slot
    requires i < |beats| && beats[i].limit.Some?
  {
    Slot(Requests(beats, i), base + Frames(beats, 0, i + 1), beats[i].now + beats[i].limit.value)
  }

  /** After `n` calls the request made at call `i` waits, unless it was swept or is lost. */
  ghost predicate Fate(beats: seq<Beat>, base: nat, n: nat, s: Standing, i: nat)
    requires i < n <= |beats|
  {
    beats[i].limit.Some? && Unswept(beats, i, n) && Requests(beats, i) !in s.lost ==>
      var slot := SlotAt(beats, base, i);
      slot.serial % 0x1_0000 in s.table && s.table[slot.serial % 0x1_0000] == slot
  }

  ghost predicate Lapsed(beats: seq<Beat>, n: nat, s: Standing) {
    forall t: Ticket, i: nat, j: nat :: j < n && Overtaken(beats, t, i, j) ==> t in s.lost
  }

  /** After `n` calls: every request is accounted for, and whoever was overtaken is lost. */
  ghost predicate Settled(beats: seq<Beat>, base: nat, n: nat, s: Standing)
    requires n <= |beats|
  {
    && Current(s) && s.numbered == base + Frames(beats, 0, n)
    && (forall i: nat :: i < n ==> Fate(beats, base, n, s, i)) && Lapsed(beats, n, s)
  }

  lemma {:induction false} FramesSplit(beats: seq<Beat>, i: nat, k: nat, n: nat)
    requires i <= k <= n <= |beats|
    ensures Frames(beats, i, n) == Frames(beats, i, k) + Frames(beats, k, n)
  {
    if k < n {
      FramesSplit(beats, i, k, n - 1);
    }
  }

  /** The frame that has the number of frame `serial` again. */
  lemma ComesRound(n: nat, serial: nat)
    requires n < serial + 0x1_0000 <= n + 1
    ensures NumberAfter(n) == serial % 0x1_0000
  {
  }

  lemma CurrentStays(b: Beat, ticket: Ticket, before: Standing, after: Standing)
    requires Current(before) && Unheard(b, ticket, before, after)
    ensures Current(after)
  {
    forall q | q in after.table
      ensures after.table[q].serial % 0x1_0000 == q && after.numbered < after.table[q].serial + 0x1_0000
    {
      if b.frames == 1 && q in before.table && q != NumberAfter(before.numbered) {
        if before.numbered + 1 == before.table[q].serial + 0x1_0000 {
          ComesRound(before.numbered, before.table[q].serial);
        }
      }
    }
  }

  lemma FateStays(beats: seq<Beat>, base: nat, n: nat, before: Standing, after: Standing, i: nat)
    requires i < n < |beats| && Unheard(beats[n], Requests(beats, n), before, after)
    requires Fate(beats, base, n, before, i)
    ensures Fate(beats, base, n + 1, after, i)
  {
    if beats[i].limit.Some? && Unswept(beats, i, n + 1) && Requests(beats, i) !in after.lost {
      assert Unswept(beats, i, n);
      var slot := SlotAt(beats, base, i);
      assert slot.serial % 0x1_0000 in before.table;
    }
  }

  lemma FateBegins(beats: seq<Beat>, base: nat, n: nat, before: Standing, after: Standing)
    requires n < |beats| && Unheard(beats[n], Requests(beats, n), before, after)
    requires before.numbered == base + Frames(beats, 0, n)
    ensures after.numbered == base + Frames(beats, 0, n + 1) && Fate(beats, base, n + 1, after, n)
  {
  }

  lemma LapsesNow(beats: seq<Beat>, base: nat, n: nat, before: Standing, after: Standing, t: Ticket, i: nat)
    requires i < n < |beats| && Unheard(beats[n], Requests(beats, n), before, after)
    requires Current(before) && before.numbered == base + Frames(beats, 0, n) && Fate(beats, base, n, before, i)
    requires Overtaken(beats, t, i, n)
    ensures t in after.lost
  {
    if t !in before.lost {
      var slot := SlotAt(beats, base, i);
      var q: Seq := slot.serial % 0x1_0000;
      FramesSplit(beats, 0, i + 1, n);
      assert before.table[q] == slot;
      assert before.numbered < slot.serial + 0x1_0000;
      ComesRound(before.numbered, slot.serial);
    }
  }

  lemma UnheardIsSettled(beats: seq<Beat>, base: nat, n: nat, before: Standing, after: Standing)
    requires n < |beats| && Unheard(beats[n], Requests(beats, n), before, after) && Settled(beats, base, n, before)
    ensures Settled(beats, base, n + 1, after)
  {
    CurrentStays(beats[n], Requests(beats, n), before, after);
    FateBegins(beats, base, n, before, after);
    var m := n + 1;
    forall i: nat | i < m ensures Fate(beats, base, m, after, i) {
      if i < n {
        FateStays(beats, base, n, before, after, i);
      }
    }
    forall t: Ticket, i: nat, j: nat | j < n + 1 && Overtaken(beats, t, i, j) ensures t in after.lost {
      if j == n {
        LapsesNow(beats, base, n, before, after, t, i);
      }
    }
  }

  /** In a run nobody answers, exactly the overtaken are lost. */
  lemma LostIffOvertaken(beats: seq<Beat>, base: nat, s: Standing)
    requires Settled(beats, base, |beats|, s) && Tracked(beats, |beats|, s)
    ensures forall t :: t in s.lost <==> WasOvertaken(beats, t)
  {
    forall t ensures t in s.lost <==> WasOvertaken(beats, t) {
      if WasOvertaken(beats, t) {
        var i, j :| Overtaken(beats, t, i, j);
        assert t in s.lost;
      }
    }
  }

  // ----- when nobody is overtaken -----

  /** Between a request and the call at which its number can come round, some sweep finds it overdue. */
  ghost predicate Paced(beats: seq<Beat>) {
    forall i, j :: 0 <= i < j < |beats| && beats[i].limit.Some? && Frames(beats, i + 1, j + 1) >= 0x1_0000 ==>
      !Unswept(beats, i, j)
  }

  /** Calls can overtake a request if and only if they are not paced. */
  lemma PacedIff(beats: seq<Beat>)
    ensures Paced(beats) <==> forall t :: !WasOvertaken(beats, t)
  {
    if !Paced(beats) {
      var i, j :| 0 <= i < j < |beats| && beats[i].limit.Some? && Frames(beats, i + 1, j + 1) >= 0x1_0000 &&
        Unswept(beats, i, j);
      assert Overtaken(beats, Requests(beats, i), i, j);
      assert WasOvertaken(beats, Requests(beats, i));
    }
  }

  /** Among any `m + 1` calls in a row that start with a request there is a sweep that finds it overdue. */
  ghost predicate SweptWithin(beats: seq<Beat>, m: nat)
    requires m > 0
  {
    forall i :: 0 <= i && i + m < |beats| && beats[i].limit.Some? ==> !Unswept(beats, i, i + m)
  }

  lemma {:induction false} FewFrames(beats: seq<Beat>, i: nat, n: nat, each: nat)
    requires i <= n <= |beats| && forall k :: 0 <= k < |beats| ==> beats[k].frames <= each
    ensures Frames(beats, i, n) <= (n - i) * each
  {
    if i < n {
      FewFrames(beats, i, n - 1, each);
    }
  }

  /** A rule one can check by counting calls: sweeps that come in time make a run paced. */
  lemma SweptIsPaced(beats: seq<Beat>, m: nat, each: nat)
    requires m > 0 && SweptWithin(beats, m) && m * each < 0x1_0000
    requires forall k :: 0 <= k < |beats| ==> beats[k].frames <= each
    ensures Paced(beats)
  {
    forall i, j | 0 <= i < j < |beats| && beats[i].limit.Some? && Frames(beats, i + 1, j + 1) >= 0x1_0000
      ensures !Unswept(beats, i, j)
    {
      FewFrames(beats, i + 1, j + 1, each);
      if j - i <= m {
        Product(j - i, m, each);
      }
      assert i + m < j;
      assert !Unswept(beats, i, i + m);
    }
  }

  lemma Product(a: nat, b: nat, c: nat)
    requires a <= b
    ensures a * c <= b * c
  {
  }
}
