/**
 The ticker: its deadlines lie on the grid `start + n * period`, and those a late poll misses are counted.
 */
module Schedule {

  const WORD := 0x1_0000_0000

  /** Deadline `n` of the grid. */
  function Deadline(start: nat, period: nat, n: nat): nat {
    start + period * n
  }

  lemma GridStep(start: nat, period: nat, n: nat)
    ensures Deadline(start, period, n + 1) == Deadline(start, period, n) + period
  {
  }

  lemma {:induction false} GridOrder(start: nat, period: nat, m: nat, n: nat)
    requires m <= n
    ensures Deadline(start, period, m) <= Deadline(start, period, n)
    decreases n
  {
    if m < n {
      GridOrder(start, period, m, n - 1);
      GridStep(start, period, n - 1);
    }
  }

  /** The last deadline at or before `now`. */
  function Due(start: nat, period: nat, now: nat): (due: nat)
    requires period > 0 && now >= start
    ensures Deadline(start, period, due) <= now < Deadline(start, period, due + 1)
  {
    DueBounds(start, period, now - start);
    Quotient(now - start, period)
  }

  function Quotient(x: nat, y: nat): nat
    requires y > 0
  {
    x / y
  }

  lemma DueBounds(start: nat, period: nat, since: nat)
    requires period > 0
    ensures Deadline(start, period, Quotient(since, period)) <= start + since
    ensures start + since < Deadline(start, period, Quotient(since, period) + 1)
  {
    DivisionBounds(since, period);
  }

  lemma DivisionBounds(x: nat, y: nat)
    requires y > 0
    ensures y * Quotient(x, y) <= x < y * (Quotient(x, y) + 1)
  {
  }

  /** Deadlines up to `now` are those numbered up to `due`, no more and no fewer. */
  lemma DueCounts(start: nat, period: nat, now: nat, n: nat)
    requires period > 0 && now >= start
    ensures n <= Due(start, period, now) <==> Deadline(start, period, n) <= now
  {
    var due := Due(start, period, now);
    if n <= due {
      GridOrder(start, period, n, due);
    } else {
      GridOrder(start, period, due + 1, n);
    }
  }

  class Ticker {
    const start: nat
    const period: nat
    var next: nat
    var skipped: nat
    /** Polls that came out true, and when the last of them was. */
    ghost var served: nat
    ghost var last: nat

    /** Every deadline up to the last true poll, and no other, has been served or skipped. */
    ghost predicate Valid()
      reads this
    {
      && period > 0 && served + skipped == next && (served == 0 ==> next == 0)
      && (served > 0 ==> last >= start && next == Due(start, period, last) + 1)
    }

    constructor (start: nat, period: nat)
      requires period > 0
      ensures Valid() && this.start == start && this.period == period
      ensures next == 0 && skipped == 0 && served == 0
    {
      this.start, this.period := start, period;
      next, skipped, served, last := 0, 0, 0, 0;
    }

    /** The number is cut to 32 bits before it is multiplied. */
    function NextDeadline(): nat
      reads this
    {
      Deadline(start, period, next % WORD)
    }

    /**
     Whether a deadline has passed. While the number fits 32 bits, the next deadline is then on the grid, after `now`
     and at most a period away, and no deadline goes uncounted.
     */
    method Poll(now: nat) returns (tick: bool)
      requires period > 0
      modifies this
      ensures tick <==> now >= start + period * (old(next) % 0x1_0000_0000)
      ensures !tick ==> next == old(next) && skipped == old(skipped) && served == old(served) && last == old(last)
      ensures tick ==>
                && now >= start && next == Due(start, period, now) + 1 && served == old(served) + 1 && last == now
                && now < Deadline(start, period, next) <= now + period
      ensures old(Valid()) && old(next) < WORD ==> Valid() && (tick ==> next > old(next))
    {
      if now < NextDeadline() {
        return false;
      }
      var due := Due(start, period, now);
      DueCounts(start, period, now, next);
      skipped := skipped + if due >= next then due - next else 0;
      next := due + 1;
      served, last := served + 1, now;
      GridStep(start, period, due);
      return true;
    }
  }

  /** Once the number outgrows 32 bits, a poll before its deadline comes out true, and the number does not grow. */
  lemma CutTicksEarly(start: nat, period: nat, now: nat)
    requires period > 0 && start <= now < start + period * 0x1_0000_0000
    ensures now >= Deadline(start, period, WORD % WORD) && Due(start, period, now) + 1 <= WORD
  {
    DueCounts(start, period, now, WORD);
  }

  /** The cut to 32 bits moves the deadline exactly when the number no longer fits. */
  lemma CutDeadline(start: nat, period: nat, n: nat)
    requires period > 0
    ensures Deadline(start, period, n % WORD) == start + period * n <==> n < 0x1_0000_0000
  {
    if n >= WORD {
      GridOrder(start, period, n % WORD + 1, n);
      GridStep(start, period, n % WORD);
    }
  }

  /** Deadlines from `start` up to `last`, counted one by one. */
  function Count(start: nat, period: nat, last: nat, n: nat): nat {
    if n == 0 then 0
    else Count(start, period, last, n - 1) + if Deadline(start, period, n - 1) <= last then 1 else 0
  }

  lemma {:induction false} CountIsDue(start: nat, period: nat, last: nat, n: nat)
    requires period > 0 && last >= start
    ensures Count(start, period, last, n) ==
            if n <= Due(start, period, last) + 1 then n else Due(start, period, last) + 1
    decreases n
  {
    if n > 0 {
      CountIsDue(start, period, last, n - 1);
      DueCounts(start, period, last, n - 1);
    }
  }

  /**
   Over any run of polls, the ticks served and the ticks skipped are together the grid deadlines up to the last poll
   that came out true.
   */
  method Run(start: nat, period: nat, polls: seq<nat>) returns (t: Ticker, ticks: seq<bool>)
    requires period > 0
    requires forall k :: 0 <= k < |polls| ==> polls[k] < start + period * (WORD - 1)
    ensures fresh(t) && t.Valid() && |ticks| == |polls| && t.served == Trues(ticks)
    ensures forall n: nat :: Trues(ticks) > 0 && n > t.next ==> Count(start, period, t.last, n) == t.served + t.skipped
    ensures Trues(ticks) > 0 ==> t.last in polls && t.last >= start
  {
    t := new Ticker(start, period);
    ticks := [];
    for k := 0 to |polls|
      invariant fresh(t) && t.Valid() && t.start == start && t.period == period && t.next < WORD
      invariant |ticks| == k && t.served == Trues(ticks) && (t.served > 0 ==> t.last in polls && t.last >= start)
    {
      var tick := t.Poll(polls[k]);
      if tick {
        DueCounts(start, period, polls[k], WORD - 1);
      }
      assert (ticks + [tick])[..k] == ticks;
      ticks := ticks + [tick];
    }
    forall n: nat | Trues(ticks) > 0 && n > t.next
      ensures Count(start, period, t.last, n) == t.served + t.skipped
    {
      CountIsDue(start, period, t.last, n);
    }
  }

  function Trues(ticks: seq<bool>): nat {
    if ticks == [] then 0 else Trues(ticks[..|ticks| - 1]) + if ticks[|ticks| - 1] then 1 else 0
  }
}
