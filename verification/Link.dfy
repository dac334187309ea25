/**
 One session with the firmware: numbered requests and their replies, the watch set it is asked to sample, and the
 samples that come in. Times are nanoseconds; cell decoding and the clock's conversion to seconds are given.
 */
module Link {
  import opened Bytes
  import opened Commands
  import opened Common
  import opened Frame
  import opened Ledger
  import opened Pace
  import Framing

  const MAX_WATCHES := 32
  const MAX_PERIOD_MS := 1000

  datatype CellKind = F32 | I32 | U32 | Bool

  datatype Subscription = Subscription(watchId: Id, kind: CellKind, cell: Id)

  datatype Pending = Lease | Read | Stats
                   | Watch(subs: seq<Subscription>, period: nat)
                   | Write(ticket: Ticket) | Discard(ticket: Ticket) | Save(ticket: Ticket)

  /** Who waits for the answer, if anyone. */
  function ReplyOf(p: Pending): Option<Ticket> {
    match p
    case Write(t) => Some(t)
    case Discard(t) => Some(t)
    case Save(t) => Some(t)
    case _ => None
  }

  function Limit(p: Pending): nat {
    if p.Save? then SAVE_TIMEOUT else REPLY_TIMEOUT
  }

  datatype Entry = Entry(what: Pending, sent: nat)

  datatype Result = Ok | Refused(status: byte) | Late | LinkClosed

  /** One sample: when, and each watch's reading. */
  datatype Tick = Tick(ids: seq<Id>, time: Bits, row: seq<Bits>)

  // ----- watch negotiation -----

  /** The wanted watches the catalog knows, in order. */
  function Known(wanted: seq<(Id, Id)>, kinds: map<Id, CellKind>): (subs: seq<Subscription>)
    ensures |subs| <= |wanted|
  {
    if wanted == [] then [] else
    var (watchId, cell) := wanted[0];
    (if cell in kinds then [Subscription(watchId, kinds[cell], cell)] else []) + Known(wanted[1..], kinds)
  }

  function Subscriptions(wanted: seq<(Id, Id)>, kinds: map<Id, CellKind>): (subs: seq<Subscription>)
    ensures |subs| <= MAX_WATCHES
  {
    var known := Known(wanted, kinds);
    known[..Min(MAX_WATCHES, |known|)]
  }

  /** How many of the first `i` wanted watches the catalog knows. */
  function Rank(wanted: seq<(Id, Id)>, kinds: map<Id, CellKind>, i: nat): (r: nat)
    requires i <= |wanted|
    ensures r <= i
  {
    if i == 0 then 0 else Rank(wanted, kinds, i - 1) + if wanted[i - 1].1 in kinds then 1 else 0
  }

  lemma {:induction false} RankOfRest(wanted: seq<(Id, Id)>, kinds: map<Id, CellKind>, i: nat)
    requires i < |wanted|
    ensures Rank(wanted, kinds, i + 1) == Rank(wanted[1..], kinds, i) + if wanted[0].1 in kinds then 1 else 0
  {
    if i > 0 {
      RankOfRest(wanted, kinds, i - 1);
    }
  }

  /** Every wanted watch the catalog knows is among the known ones, with its kind, in its place. */
  lemma {:induction false} KnownKeepOrder(wanted: seq<(Id, Id)>, kinds: map<Id, CellKind>, i: nat)
    requires i < |wanted|
    ensures |Known(wanted, kinds)| == Rank(wanted, kinds, |wanted|) >= Rank(wanted, kinds, i + 1)
    ensures var (watchId, cell) := wanted[i];
            cell in kinds ==>
              && Rank(wanted, kinds, i) < |Known(wanted, kinds)|
              && Known(wanted, kinds)[Rank(wanted, kinds, i)] == Subscription(watchId, kinds[cell], cell)
    decreases |wanted|
  {
    RankOfRest(wanted, kinds, |wanted| - 1);
    if i > 0 {
      KnownKeepOrder(wanted[1..], kinds, i - 1);
      RankOfRest(wanted, kinds, i - 1);
      RankOfRest(wanted, kinds, i);
    } else if |wanted| > 1 {
      KnownKeepOrder(wanted[1..], kinds, 0);
      assert Rank(wanted, kinds, 1) <= Rank(wanted, kinds, |wanted|);
    }
  }

  /** A set of watches is the first 32 known ones. */
  lemma FirstKnown(wanted: seq<(Id, Id)>, kinds: map<Id, CellKind>)
    ensures Subscriptions(wanted, kinds) <= Known(wanted, kinds)
    ensures |Subscriptions(wanted, kinds)| == Min(32, |Known(wanted, kinds)|)
  {
  }

  function WatchIds(subs: seq<Subscription>): (ids: seq<Id>)
    ensures |ids| == |subs| && forall k :: 0 <= k < |subs| ==> ids[k] == subs[k].watchId
  {
    seq(|subs|, k requires 0 <= k < |subs| => subs[k].watchId)
  }

  /** The period a rate asks for, in milliseconds: rounded, and no shorter than 1 or longer than 1000. */
  function RatePeriod(rate: real): (period: nat)
    requires rate > 0.0
    ensures 1 <= period <= MAX_PERIOD_MS
  {
    var p := (1000.0 / rate + 0.5).Floor;
    if p < 1 then 1 else if p > MAX_PERIOD_MS then MAX_PERIOD_MS else p
  }

  /** The period is the whole number of milliseconds nearest to the rate's, within 1 and 1000. */
  lemma RatePeriodIsNearest(rate: real)
    requires rate > 0.0
    ensures var p, exact := RatePeriod(rate), 1000.0 / rate;
            && 1 <= p <= 1000
            && (p > 1 ==> p as real - 0.5 <= exact) && (p < 1000 ==> exact < p as real + 0.5)
  {
  }

  /** The period to ask for after `period` was refused for want of sample budget. */
  function Slower(period: nat): nat {
    Min(2 * period, MAX_PERIOD_MS)
  }

  /** The period that goes out with a watch set: an empty set is never sampled. */
  function PeriodFor(subs: seq<Subscription>, period: nat): nat {
    if subs == [] then 0 else period
  }

  /** What a watch request after `retries` refusals in a row may ask for. */
  ghost predicate Negotiated(period: nat, retries: nat) {
    period <= MAX_PERIOD_MS && (period == 0 || period >= Min(Pow2(retries), MAX_PERIOD_MS))
  }

  lemma RetryIsNegotiated(period: nat, retries: nat)
    requires Negotiated(period, retries) && period < MAX_PERIOD_MS
    ensures Negotiated(Slower(period), retries + 1)
    ensures period >= 1 ==> retries <= 9
  {
    if period >= 1 {
      RetriesAreFew(period, retries);
    }
  }

  /** A refused period is asked for again slower exactly when there is something to watch and a period to stretch. */
  lemma SlowerWhenNonEmpty(subs: seq<Subscription>, period: nat)
    requires period < MAX_PERIOD_MS
    ensures PeriodFor(subs, Slower(period)) > period <==> subs != [] && period >= 1
  {
  }

  lemma {:induction false} PowersGrow(n: nat)
    requires n >= 10
    ensures Pow2(n) >= 1024
  {
    if n == 10 {
      assert Pow2(5) == 32;
    } else {
      PowersGrow(n - 1);
    }
  }

  /** No request that asks for a period follows more than ten refusals, and none is refused again after nine but one. */
  lemma RetriesAreFew(period: nat, retries: nat)
    requires Negotiated(period, retries) && 1 <= period < MAX_PERIOD_MS
    ensures retries <= 9
  {
    if retries >= 10 {
      PowersGrow(retries);
    }
  }

  /** The period sent after `n` refusals in a row of the same watch set. */
  function AfterRefusals(subs: seq<Subscription>, period: nat, n: nat): nat {
    if n == 0 then PeriodFor(subs, period) else PeriodFor(subs, Slower(AfterRefusals(subs, period, n - 1)))
  }

  lemma TwiceAsLong(period: nat, p: nat)
    ensures period * (2 * p) == 2 * (period * p)
  {
  }

  /** Each refusal doubles the period, up to the slowest. */
  lemma {:induction false} RefusalsDouble(subs: seq<Subscription>, period: nat, n: nat)
    requires period <= 1000
    ensures AfterRefusals(subs, period, n) == if subs == [] then 0 else Min(period * Pow2(n), 1000)
  {
    if n > 0 {
      RefusalsDouble(subs, period, n - 1);
      TwiceAsLong(period, Pow2(n - 1));
    }
  }

  lemma SettledByTen(subs: seq<Subscription>, period: nat, n: nat)
    requires AfterRefusals(subs, period, n) < MAX_PERIOD_MS && period <= MAX_PERIOD_MS
    ensures subs != [] && period >= 1 ==> n <= 9
  {
    if subs != [] && period >= 1 {
      NonEmptySetSettles(subs, period, n);
    }
  }

  lemma PeriodsStayLow(subs: seq<Subscription>, period: nat, n: nat)
    requires period <= MAX_PERIOD_MS
    ensures AfterRefusals(subs, period, n) <= MAX_PERIOD_MS
  {
  }

  /** A set that is empty or asked for at period 0 is asked for at period 0 again. */
  lemma {:induction false} ZeroStaysZero(subs: seq<Subscription>, period: nat, n: nat)
    requires subs == [] || period == 0
    ensures AfterRefusals(subs, period, n) == 0
  {
    if n > 0 {
      ZeroStaysZero(subs, period, n - 1);
    }
  }

  /** A request is retried however often it is refused for budget iff its set is empty or its period is 0. */
  lemma SettlesIff(subs: seq<Subscription>, period: nat)
    requires period <= MAX_PERIOD_MS
    ensures (forall n: nat :: AfterRefusals(subs, period, n) < MAX_PERIOD_MS) <==> subs == [] || period == 0
    ensures subs != [] && period >= 1 ==> AfterRefusals(subs, period, 10) == MAX_PERIOD_MS
  {
    if subs == [] || period == 0 {
      forall n: nat ensures AfterRefusals(subs, period, n) < MAX_PERIOD_MS {
        ZeroStaysZero(subs, period, n);
      }
    } else {
      NonEmptySetSettles(subs, period, 10);
    }
  }

  /** A watch set with members that is asked for at some period is given up or accepted by the tenth retry. */
  lemma {:induction false} NonEmptySetSettles(subs: seq<Subscription>, period: nat, n: nat)
    requires subs != [] && 1 <= period <= MAX_PERIOD_MS
    ensures AfterRefusals(subs, period, n) >= Min(Pow2(n), MAX_PERIOD_MS)
    ensures n >= 10 ==> AfterRefusals(subs, period, n) == MAX_PERIOD_MS
    ensures AfterRefusals(subs, period, n) <= MAX_PERIOD_MS
  {
    if n > 0 {
      NonEmptySetSettles(subs, period, n - 1);
    }
    if n >= 10 {
      PowersGrow(n);
    }
  }

  function CellIds(subs: seq<Subscription>): (cells: seq<Id>)
    ensures |cells| == |subs| && forall k :: 0 <= k < |subs| ==> cells[k] == subs[k].cell
  {
    seq(|subs|, k requires 0 <= k < |subs| => subs[k].cell)
  }

  /** 32-bit words, one behind the other. */
  function Words(words: seq<Id>): (bytes: seq<byte>)
    ensures |bytes| == 4 * |words|
  {
    if words == [] then [] else Words(words[..|words| - 1]) + ToLE(words[|words| - 1], 4)
  }

  lemma {:induction false} WordsAt(words: seq<Id>, k: nat, j: nat)
    requires k < |words| && j < 4
    ensures Words(words)[4 * k + j] == ToLE(words[k], 4)[j]
    decreases |words|
  {
    if k < |words| - 1 {
      WordsAt(words[..|words| - 1], k, j);
    }
  }

  /** The bytes of `words` stand from byte `at` on. */
  ghost predicate WordsFrom(bytes: seq<byte>, at: nat, words: seq<Id>) {
    at + 4 * |words| == |bytes| && forall i :: 0 <= i < 4 * |words| ==> bytes[at + i] == Words(words)[i]
  }

  lemma WordReadsBack(bytes: seq<byte>, at: nat, words: seq<Id>, k: nat)
    requires WordsFrom(bytes, at, words) && k < |words|
    ensures U32At(bytes, at + 4 * k) == Some(words[k])
  {
    var from, w := at + 4 * k, ToLE(words[k], 4);
    forall j: nat | j < 4 ensures bytes[from + j] == w[j] {
      WordsAt(words, k, j);
      assert bytes[at + (4 * k + j)] == Words(words)[4 * k + j];
    }
    WordIs(bytes, from, 4);
    assert bytes[from..from + 4] == w;
    WordSizes();
    FromToLE(words[k], 4);
  }

  function WatchPayload(subs: seq<Subscription>, period: nat): (bytes: seq<byte>)
    requires |subs| <= MAX_WATCHES
  {
    ToLE(period, 2) + [|subs|] + Words(CellIds(subs))
  }

  /** A watch request reads back: its period in two bytes, the number of cells, and the cells in order. */
  lemma WatchReadsBack(subs: seq<Subscription>, period: nat)
    requires |subs| <= 32 && period < 0x1_0000
    ensures var bytes := WatchPayload(subs, period);
            && |bytes| == 3 + 4 * |subs| && FromLE(bytes[..2]) == period && bytes[2] as int == |subs|
            && forall k :: 0 <= k < |subs| ==> U32At(bytes, 3 + 4 * k) == Some(subs[k].cell)
  {
    var bytes := WatchPayload(subs, period);
    WordSizes();
    FromToLE(period, 2);
    assert bytes[..2] == ToLE(period, 2);
    assert WordsFrom(bytes, 3, CellIds(subs));
    forall k | 0 <= k < |subs| ensures U32At(bytes, 3 + 4 * k) == Some(subs[k].cell) {
      WordReadsBack(bytes, 3, CellIds(subs), k);
    }
  }

  // ----- samples -----

  type Decode = (CellKind, Id) -> Bits

  /** The readings of a sample whose words start at byte `at`, one per subscription. */
  function RowAt(payload: seq<byte>, at: nat, subs: seq<Subscription>, decode: Decode): (row: seq<Bits>)
    requires at + 4 * |subs| <= |payload|
    ensures |row| == |subs|
    ensures forall k :: 0 <= k < |subs| ==>
              && U32At(payload, at + 4 * k).Some?
              && row[k] == decode(subs[k].kind, U32At(payload, at + 4 * k).value)
  {
    seq<Bits>(|subs|, k requires 0 <= k < |subs| => decode(subs[k].kind, U32At(payload, at + 4 * k).value))
  }

  /** A sample the active set can have sent: a time, the number of readings, and that many words. */
  predicate Fits(payload: seq<byte>, active: seq<Subscription>) {
    |payload| == 9 + 4 * |active| && payload[8] as int == |active|
  }

  /** A sample for the active set, with its time and one word for each of its watches, reads back. */
  lemma SampleReadsBack(time: Bits, words: seq<Id>, active: seq<Subscription>, decode: Decode)
    requires |words| == |active| < 256
    ensures var payload := ToLE(time, 8) + [|words|] + Words(words);
            && Fits(payload, active) && CellAt(payload, 0) == Some(time)
            && forall k :: 0 <= k < |active| ==>
                 RowAt(payload, 9, active, decode)[k] == decode(active[k].kind, words[k])
  {
    var payload := ToLE(time, 8) + [|words|] + Words(words);
    WordSizes();
    FromToLE(time, 8);
    WordIs(payload, 0, 8);
    assert payload[0..8] == ToLE(time, 8);
    assert WordsFrom(payload, 9, words);
    forall k | 0 <= k < |active| ensures RowAt(payload, 9, active, decode)[k] == decode(active[k].kind, words[k]) {
      WordReadsBack(payload, 9, words, k);
    }
  }

  /** Ticks waiting in a builder. */
  ghost function TicksOf(ids: seq<Id>, times: seq<Bits>, rows: seq<seq<Bits>>): (ticks: seq<Tick>)
    requires |times| == |rows|
    ensures |ticks| == |rows|
  {
    seq(|rows|, k requires 0 <= k < |rows| => Tick(ids, times[k], rows[k]))
  }

  /** `batches`, holding the rows in `contents`, are made of `ticks`, in order. */
  ghost predicate Carries(batches: seq<SampleBatch>, contents: seq<seq<seq<Bits>>>, ticks: seq<Tick>)
    decreases |batches|
  {
    && |contents| == |batches|
    && if batches == [] then ticks == []
       else
         var n := |batches| - 1;
         var m := |ticks| - |contents[n]|;
         && m >= 0 && Holds(batches[n], contents[n])
         && Carries(batches[..n], contents[..n], ticks[..m])
         && ticks[m..] == TicksOf(batches[n].ids, batches[n].times, contents[n])
  }

  lemma CarriesNext(
      batches: seq<SampleBatch>, contents: seq<seq<seq<Bits>>>, ticks: seq<Tick>, b: SampleBatch, rows: seq<seq<Bits>>)
    requires Carries(batches, contents, ticks) && Holds(b, rows)
    ensures Carries(batches + [b], contents + [rows], ticks + TicksOf(b.ids, b.times, rows))
  {
    var all, rest, now := batches + [b], contents + [rows], ticks + TicksOf(b.ids, b.times, rows);
    var n, m := |all| - 1, |now| - |rows|;
    assert all[..n] == batches && rest[..n] == contents && now[..m] == ticks;
    assert now[m..] == TicksOf(b.ids, b.times, rows);
  }

  // ----- the pending table as a ledger -----

  ghost function Waiting(pending: map<Seq, Entry>): map<Seq, Ticket> {
    map s | s in pending && ReplyOf(pending[s].what).Some? :: ReplyOf(pending[s].what).value
  }

  lemma WaitingWith(pending: map<Seq, Entry>, s: Seq, e: Entry)
    ensures Waiting(pending[s := e]) ==
            if ReplyOf(e.what).Some? then Waiting(pending)[s := ReplyOf(e.what).value] else Waiting(pending) - {s}
  {
  }

  lemma WaitingWithout(pending: map<Seq, Entry>, s: Seq)
    ensures Waiting(pending - {s}) == Waiting(pending) - {s}
  {
  }

  /** The book once `what` is sent under `s`. */
  function Inserted(b: Book, s: Seq, what: Pending): Book {
    if ReplyOf(what).Some? then Accepted(b, s) else Unattended(b, s)
  }

  // ----- the pending table, call by call -----

  /** The table with what it takes to tell when a number comes round. */
  datatype Table = Table(pending: map<Seq, Entry>, serialOf: map<Seq, nat>, numbered: nat, book: Book)

  /** `e` was sent under `s` and waits, in place of whoever waited for the frame that had the number before. */
  ghost predicate Joined(a: Table, b: Table, s: Seq, e: Entry) {
    && b == Table(a.pending[s := e], a.serialOf[s := a.numbered + 1], a.numbered + 1, Inserted(a.book, s, e.what))
    && (s in a.pending ==> s in a.serialOf && a.numbered + 1 >= a.serialOf[s] + 0x1_0000)
  }

  /** A request was sent under `s`; it waits if the stream took it. */
  ghost predicate Asked(a: Table, b: Table, s: Seq, e: Entry, taken: bool) {
    if taken then Joined(a, b, s, e) else b == a.(numbered := a.numbered + 1)
  }

  /** The request under `s` is answered. */
  function Finished(a: Table, s: Seq): Table {
    a.(pending := a.pending - {s}, book := Answered(a.book, s))
  }

  /** A reply under `s` settles its request, and a watch request may be sent again for it. */
  ghost predicate Replied(a: Table, b: Table, s: Seq) {
    || b == a
    || b == Finished(a, s)
    || b == Finished(a, s).(numbered := a.numbered + 1)
    || (var q: Seq := b.numbered % 0x1_0000;
        q in b.pending && ReplyOf(b.pending[q].what).None? && Joined(Finished(a, s), b, q, b.pending[q]))
  }

  /** What whoever waits is told of a reply's status. */
  function AnswerTo(reply: Option<Ticket>, status: byte): seq<Answer<Result>> {
    if reply.None? then [] else [Answer(reply.value, if status == 0 then Ok else Refused(status))]
  }

  function SlotOf(e: Entry, serial: nat): Slot
    requires ReplyOf(e.what).Some?
  {
    Slot(ReplyOf(e.what).value, serial, e.sent + Limit(e.what))
  }

  ghost function Slots(pending: map<Seq, Entry>, serialOf: map<Seq, nat>): map<Seq, Slot> {
    map s | s in pending && s in serialOf && ReplyOf(pending[s].what).Some? :: SlotOf(pending[s], serialOf[s])
  }

  /** The tickets waiting, and those that were forgotten. */
  ghost function StandingOf(t: Table): Standing {
    Standing(Slots(t.pending, t.serialOf), t.numbered, t.book.lost)
  }

  lemma NobodyWaits(t: Table)
    requires Waiting(t.pending) == map[]
    ensures StandingOf(t).table == map[]
  {
    var slots := Slots(t.pending, t.serialOf);
    assert slots.Keys <= Waiting(t.pending).Keys;
  }

  lemma JoiningFollows(a: Table, b: Table, s: Seq, e: Entry)
    requires a.book.waiting == Waiting(a.pending) && Joined(a, b, s, e)
    ensures Follows(StandingOf(a), StandingOf(b), 1,
                    if ReplyOf(e.what).Some? then Some(SlotOf(e, b.numbered)) else None)
  {
    if s in a.book.waiting {
      assert Slots(a.pending, a.serialOf)[s].ticket == a.book.waiting[s];
      assert Outnumbered(Slots(a.pending, a.serialOf), a.book.waiting[s], b.numbered);
    }
  }

  /** It takes the place under its number in the table, and the ticket there is lost. */
  lemma JoiningDisplaces(a: Table, b: Table, s: Seq, e: Entry)
    requires a.book.waiting == Waiting(a.pending) && a.pending.Keys <= a.serialOf.Keys && Joined(a, b, s, e)
    ensures var before, after := StandingOf(a), StandingOf(b);
            && after.lost == before.lost + (if s in before.table then {before.table[s].ticket} else {})
            && after.table == if ReplyOf(e.what).Some? then (before.table - {s})[s := SlotOf(e, b.numbered)]
                              else before.table - {s}
  {
    var before, after := StandingOf(a), StandingOf(b);
    assert s in before.table <==> s in a.book.waiting;
    var now := if ReplyOf(e.what).Some? then (before.table - {s})[s := SlotOf(e, b.numbered)] else before.table - {s};
    assert after.table.Keys == now.Keys;
    assert forall q :: q in now ==> after.table[q] == now[q];
  }

  lemma AskingFollows(a: Table, b: Table, s: Seq, e: Entry, taken: bool)
    requires a.book.waiting == Waiting(a.pending) && Asked(a, b, s, e, taken)
    ensures Follows(StandingOf(a), StandingOf(b), 1,
                    if ReplyOf(e.what).Some? then Some(SlotOf(e, b.numbered)) else None)
  {
    if taken {
      JoiningFollows(a, b, s, e);
    }
  }

  /** Entries that leave the table take no ticket with them. */
  lemma LeavingFollows(a: Table, b: Table)
    requires b.serialOf == a.serialOf && b.book.lost == a.book.lost
    requires a.numbered <= b.numbered <= a.numbered + 1
    requires forall s :: s in b.pending ==> s in a.pending && b.pending[s] == a.pending[s]
    ensures Follows(StandingOf(a), StandingOf(b), b.numbered - a.numbered, None)
  {
  }

  lemma ReplyFollows(a: Table, b: Table, s: Seq)
    requires a.book.waiting == Waiting(a.pending) && Replied(a, b, s)
    ensures Follows(StandingOf(a), StandingOf(b), 1, None)
  {
    var q: Seq, c := b.numbered % 0x1_0000, Finished(a, s);
    if q in b.pending && ReplyOf(b.pending[q].what).None? && Joined(c, b, q, b.pending[q]) {
      FinishedWaiting(a, s);
      LeavingFollows(a, c);
      JoiningFollows(c, b, q, b.pending[q]);
      FollowsTwice(StandingOf(a), StandingOf(c), StandingOf(b), 0, 1, None);
    } else {
      LeavingFollows(a, b);
    }
  }

  lemma FinishedWaiting(a: Table, s: Seq)
    requires a.book.waiting == Waiting(a.pending)
    ensures Finished(a, s).book.waiting == Waiting(Finished(a, s).pending)
  {
    WaitingWithout(a.pending, s);
    if s !in a.book.waiting {
      assert Waiting(a.pending) - {s} == Waiting(a.pending);
    }
  }

  class Worker {
    const token: Id
    const kinds: map<Id, CellKind>
    const decode: Decode
    /** Seconds as a cell, from microseconds. */
    const seconds: int -> Bits
    var seqNo: Seq
    var pending: map<Seq, Entry>
    /** What the user wants watched, and what the firmware agreed to. */
    var wanted: seq<(Id, Id)>
    var active: seq<Subscription>
    var rate: real
    var periodMs: nat
    const frame: FrameBuilder
    var deviceBase: Option<int>
    var lastSampleSeq: Option<Seq>
    var missedSamples: nat

    /** What every ticket was told; a ticket is issued when its request enters `pending`. */
    ghost var answers: seq<Answer<Result>>
    ghost var book: Book
    ghost var numbered: nat
    ghost var serialOf: map<Seq, nat>
    /** How many refusals in a row each watch request follows. */
    ghost var retries: map<Seq, nat>
    /** Frames written, batches handed on with the rows in them, and every tick that came in. */
    ghost var written: seq<Framing.Frame>
    ghost var batches: seq<SampleBatch>
    ghost var contents: seq<seq<seq<Bits>>>
    ghost var handedOn: seq<Tick>
    ghost var ticks: seq<Tick>

    ghost predicate Accounts()
      reads this`pending, this`answers, this`book
    {
      Balanced(book) && book.waiting == Waiting(pending) && book.answered == Tickets(answers)
    }

    ghost predicate Numbers()
      reads this`seqNo, this`numbered, this`pending, this`serialOf, this`book
    {
      && seqNo == numbered % 0x1_0000
      && (forall s :: s in pending ==> s in serialOf && serialOf[s] <= numbered && serialOf[s] % 0x1_0000 == s)
      && (numbered < 0x1_0000 ==> book.lost == {})
    }

    ghost function State(): Table
      reads this`pending, this`serialOf, this`numbered, this`book
    {
      Table(pending, serialOf, numbered, book)
    }

    /** Every watch request waiting asks for a period its refusals so far allow. */
    ghost predicate Watches()
      reads this`pending, this`retries, this`rate
    {
      && rate > 0.0
      && forall s :: s in pending && pending[s].what.Watch? ==>
           s in retries && |pending[s].what.subs| <= MAX_WATCHES && Negotiated(pending[s].what.period, retries[s])
    }

    /** The builder collects for the active set, and holds the ticks not handed on yet. */
    ghost predicate Aligned()
      reads this`active, this`ticks, this`handedOn, frame
    {
      && frame.Valid() && frame.ids == WatchIds(active)
      && ticks == handedOn + TicksOf(frame.ids, frame.times, frame.rows)
      && forall k :: 0 <= k < |ticks| ==> |ticks[k].row| == |ticks[k].ids|
    }

    /** The batches handed on hold the ticks handed on. */
    ghost predicate Batched()
      reads this`batches, this`contents, this`handedOn
    {
      Carries(batches, contents, handedOn)
    }

    /** The table of requests is in order. */
    ghost predicate Orders()
      reads this`pending, this`answers, this`book, this`seqNo, this`numbered, this`serialOf, this`retries, this`rate
    {
      Accounts() && Numbers() && Watches()
    }

    ghost predicate Valid()
      reads this, frame
    {
      Orders() && Aligned() && Batched()
    }

    /** The worker as the handshake leaves it: `numbered` frames have gone out, none of them waiting. */
    constructor (
        token: Id, kinds: map<Id, CellKind>, decode: Decode, seconds: int -> Bits, rate: real, ghost numbered: nat,
        seqNo: Seq)
      requires rate > 0.0 && seqNo == numbered % 0x1_0000
      ensures Valid() && fresh(frame) && this.numbered == numbered
      ensures pending == map[] && answers == [] && book == EMPTY && ticks == [] && active == []
    {
      this.token, this.kinds, this.decode, this.seconds, this.seqNo := token, kinds, decode, seconds, seqNo;
      pending, wanted, active, this.rate, periodMs := map[], [], [], rate, 0;
      deviceBase, lastSampleSeq, missedSamples := None, None, 0;
      answers, book, this.numbered, serialOf, retries := [], EMPTY, numbered, map[], map[];
      written, batches, contents, handedOn, ticks := [], [], [], [], [];
      frame := new FrameBuilder();
      new;
      assert Waiting(map[]) == map[] && Tickets(answers) == [] && Everyone(0) == {};
    }

    /** Write one frame. The number is spent whether or not the stream takes the frame. */
    method Send(code: byte, payload: seq<byte>, taken: bool) returns (ok: bool)
      requires Numbers()
      modifies this`seqNo, this`numbered, this`written
      ensures Numbers() && ok == taken && seqNo == Next(old(seqNo)) && numbered == old(numbered) + 1
      ensures written == old(written) + if taken then [Framing.Frame(code, seqNo, payload)] else []
    {
      seqNo, numbered := Next(seqNo), numbered + 1;
      if taken {
        written := written + [Framing.Frame(code, seqNo, payload)];
      }
      ok := taken;
    }

    /** Note in the book what entering `what` under `seqNo` does to the tickets. */
    ghost method Enter(what: Pending, e: Entry, refusals: nat)
      requires Accounts() && Numbers() && Watches() && e.what == what
      requires forall s :: s in pending && s == seqNo ==> serialOf[s] < numbered
      requires ReplyOf(what).Some? ==> ReplyOf(what).value == book.issued
      requires what.Watch? ==> |what.subs| <= MAX_WATCHES && Negotiated(what.period, refusals)
      modifies this`book, this`serialOf, this`retries
      ensures book == Inserted(old(book), seqNo, what) && Balanced(book)
      ensures book.waiting == Waiting(pending[seqNo := e])
      ensures serialOf == old(serialOf)[seqNo := numbered] && retries == old(retries)[seqNo := refusals]
      ensures seqNo in pending ==> seqNo in old(serialOf) && numbered >= old(serialOf)[seqNo] + 0x1_0000
    {
      WaitingWith(pending, seqNo, e);
      if ReplyOf(what).Some? {
        AcceptedBalances(book, seqNo);
      } else {
        UnattendedBalances(book, seqNo);
      }
      if seqNo in pending {
        SameNumber(serialOf[seqNo], numbered);
      }
      book, serialOf, retries := Inserted(book, seqNo, what), serialOf[seqNo := numbered], retries[seqNo := refusals];
    }

    /** Send a request and have it wait. When the stream fails nothing waits: whoever asked is not answered. */
    method Request(code: byte, payload: seq<byte>, what: Pending, now: nat, taken: bool, ghost refusals: nat)
      returns (ok: bool)
      requires Orders()
      requires ReplyOf(what).Some? ==> ReplyOf(what).value == book.issued
      requires what.Watch? ==> |what.subs| <= MAX_WATCHES && Negotiated(what.period, refusals)
      modifies this`seqNo, this`numbered, this`written, this`pending, this`book, this`serialOf, this`retries
      ensures Orders()
      ensures ok == taken && seqNo == Next(old(seqNo)) && numbered == old(numbered) + 1
      ensures taken ==>
                && retries == old(retries)[seqNo := refusals]
                && written == old(written) + [Framing.Frame(code, seqNo, payload)]
      ensures !taken ==> written == old(written) && retries == old(retries)
      ensures Asked(old(State()), State(), seqNo, Entry(what, now), taken)
    {
      ok := Send(code, payload, taken);
      if ok {
        Enter(what, Entry(what, now), refusals);
        pending := pending[seqNo := Entry(what, now)];
      }
    }

    /** Send a WATCH for what is wanted now; without a `period` the rate decides. */
    method Subscribe(period: Option<nat>, now: nat, taken: bool, ghost refusals: nat) returns (ok: bool)
      requires Orders()
      requires period.None? ==> refusals == 0
      requires period.Some? ==> Negotiated(period.value, refusals)
      modifies this`seqNo, this`numbered, this`written, this`pending, this`book, this`serialOf, this`retries
      ensures Orders() && book.issued == old(book).issued
      ensures ok == taken && seqNo == Next(old(seqNo)) && numbered == old(numbered) + 1
      ensures var subs := Subscriptions(wanted, kinds);
              var asked := PeriodFor(subs, if period.Some? then period.value else RatePeriod(rate));
              && Asked(old(State()), State(), seqNo, Entry(Watch(subs, asked), now), taken)
              && retries == (if taken then old(retries)[seqNo := refusals] else old(retries))
              && written == old(written) +
                            if taken then [Framing.Frame(0x20, seqNo, WatchPayload(subs, asked))] else []
    {
      var subs := Subscriptions(wanted, kinds);
      var asked := PeriodFor(subs, if period.Some? then period.value else RatePeriod(rate));
      ok := Request(WATCH, WatchPayload(subs, asked), Watch(subs, asked), now, taken, refusals);
    }

    /** Hand pending ticks on as one batch. */
    method FlushFrame()
      requires Aligned() && Batched()
      modifies this`batches, this`contents, this`handedOn, frame
      ensures Aligned() && Batched() && frame.times == [] && handedOn == ticks
      ensures if old(frame.times) == [] then batches == old(batches)
              else
                var n := |old(batches)|;
                && |batches| == n + 1 && batches[..n] == old(batches)
                && batches[n].ids == WatchIds(active) && batches[n].times == old(frame.times)
                && Holds(batches[n], old(frame.rows))
    {
      ghost var waiting := TicksOf(frame.ids, frame.times, frame.rows);
      var batch := frame.Take();
      assert handedOn + waiting + TicksOf(frame.ids, [], []) == handedOn + waiting;
      if batch.Some? {
        CarriesNext(batches, contents, handedOn, batch.value, old(frame.rows));
        batches, contents, handedOn := batches + [batch.value], contents + [old(frame.rows)], handedOn + waiting;
      } else {
        assert handedOn + waiting == handedOn;
      }
    }

    /** The firmware samples `subs` from now on: what was collected for the old set goes out first. */
    method Accept(subs: seq<Subscription>, period: nat)
      requires Aligned() && Batched()
      modifies this`batches, this`contents, this`handedOn, this`active, this`periodMs, this`lastSampleSeq, frame
      ensures Aligned() && Batched() && active == subs && periodMs == period && lastSampleSeq == None
      ensures frame.times == [] && handedOn == ticks
    {
      FlushFrame();
      frame.Reset(WatchIds(subs));
      active, periodMs, lastSampleSeq := subs, period, None;
      assert handedOn + TicksOf(frame.ids, frame.times, frame.rows) == handedOn;
    }

    /** Take in a sample: one the active set cannot have sent changes nothing. */
    method OnSample(seqNumber: Seq, payload: seq<byte>, elapsed: int)
      requires Aligned()
      modifies this`ticks, this`deviceBase, this`lastSampleSeq, this`missedSamples, frame
      ensures Aligned()
      ensures !Fits(payload, active) ==>
                && ticks == old(ticks) && frame.times == old(frame.times) && frame.rows == old(frame.rows)
                && lastSampleSeq == old(lastSampleSeq) && missedSamples == old(missedSamples)
                && deviceBase == old(deviceBase)
      ensures Fits(payload, active) ==>
                var device := CellAt(payload, 0).value;
                && deviceBase == Some(if old(deviceBase).Some? then old(deviceBase).value else device - elapsed)
                && ticks == old(ticks) + [Tick(WatchIds(active), seconds(device - deviceBase.value),
                                               RowAt(payload, 9, active, decode))]
                && lastSampleSeq == Some(seqNumber)
                && missedSamples == old(missedSamples) +
                                    (if old(lastSampleSeq).Some? then Gap(old(lastSampleSeq).value, seqNumber) else 0)
    {
      if !Fits(payload, active) {
        return;
      }
      if lastSampleSeq.Some? {
        missedSamples := missedSamples + Gap(lastSampleSeq.value, seqNumber);
      }
      lastSampleSeq := Some(seqNumber);
      var device := CellAt(payload, 0).value;
      if deviceBase.None? {
        deviceBase := Some(device - elapsed);
      }
      Collect(seconds(device - deviceBase.value), RowAt(payload, 9, active, decode));
    }

    /** Add a tick to the ones collected. */
    method Collect(time: Bits, row: seq<Bits>)
      requires Aligned() && |row| == |active|
      modifies this`ticks, frame
      ensures Aligned() && ticks == old(ticks) + [Tick(WatchIds(active), time, row)]
    {
      ghost var before := TicksOf(frame.ids, frame.times, frame.rows);
      frame.Push(time, row);
      ticks := ticks + [Tick(frame.ids, time, row)];
      assert TicksOf(frame.ids, frame.times, frame.rows) == before + [Tick(frame.ids, time, row)];
    }

    /** Answer whoever waits under `s`, if anyone, and forget the request. */
    method Finish(s: Seq, result: Result)
      requires Orders() && s in pending
      modifies this`pending, this`answers, this`book
      ensures Orders() && State() == Finished(old(State()), s)
      ensures var reply := ReplyOf(old(pending)[s].what);
              answers == old(answers) + if reply.Some? then [Answer(reply.value, result)] else []
    {
      WaitingWithout(pending, s);
      AnsweredBalances(book, s);
      var reply := ReplyOf(pending[s].what);
      if reply.Some? {
        TicketsNext(answers, Answer(reply.value, result));
        answers := answers + [Answer(reply.value, result)];
      } else {
        assert Waiting(pending) - {s} == Waiting(pending);
      }
      book, pending := Answered(book, s), pending - {s};
    }

    /** Ask again, slower, for the watch set wanted now. */
    method Retry(period: nat, now: nat, taken: bool, ghost refusals: nat)
      requires Orders() && Negotiated(period, refusals) && period < MAX_PERIOD_MS
      modifies this`seqNo, this`numbered, this`written, this`pending, this`book, this`serialOf, this`retries
      ensures Orders() && seqNo == Next(old(seqNo))
      ensures var again := Subscriptions(wanted, kinds);
              var asked := PeriodFor(again, Slower(period));
              && Asked(old(State()), State(), seqNo, Entry(Watch(again, asked), now), taken)
              && if taken then
                   && written == old(written) + [Framing.Frame(0x20, seqNo, WatchPayload(again, asked))]
                   && retries[seqNo] == refusals + 1 && (period >= 1 ==> refusals <= 9)
                 else written == old(written)
    {
      RetryIsNegotiated(period, refusals);
      var ok := Subscribe(Some(Slower(period)), now, taken, refusals + 1);
    }

    /** The firmware took the watch request under `s`. */
    method OnWatchTaken(s: Seq, subs: seq<Subscription>, period: nat)
      requires Valid() && s in pending && pending[s].what == Watch(subs, period)
      modifies this`pending, this`answers, this`book
      modifies this`batches, this`contents, this`handedOn, this`active, this`periodMs, this`lastSampleSeq, frame
      ensures Valid() && answers == old(answers) && State() == Finished(old(State()), s)
      ensures active == subs && periodMs == period && handedOn == ticks && lastSampleSeq == None
    {
      Finish(s, Ok);
      Accept(subs, period);
    }

    /**
     The firmware refused the watch request under `s`: for want of budget it is asked again, slower, unless it was at
     the slowest; anything else gives it up. A request that asked for a period comes to ten retries at most.
     */
    method OnWatchRefused(s: Seq, subs: seq<Subscription>, period: nat, status: byte, now: nat, taken: bool)
      requires Orders() && s in pending && pending[s].what == Watch(subs, period)
      modifies this`seqNo, this`numbered, this`written, this`pending, this`answers
      modifies this`book, this`serialOf, this`retries
      ensures Orders() && answers == old(answers)
      ensures var again := Subscriptions(wanted, kinds);
              var asked := PeriodFor(again, Slower(period));
              if status == 10 && period < 1000 then
                && seqNo == Next(old(seqNo))
                && Asked(Finished(old(State()), s), State(), seqNo, Entry(Watch(again, asked), now), taken)
                && if taken then
                     && written == old(written) + [Framing.Frame(0x20, seqNo, WatchPayload(again, asked))]
                     && retries[seqNo] == old(retries)[s] + 1 && (period >= 1 ==> old(retries)[s] <= 9)
                   else written == old(written)
              else State() == Finished(old(State()), s) && written == old(written)
      ensures Replied(old(State()), State(), s)
    {
      ghost var refusals := retries[s];
      Finish(s, Ok);
      if status == STATUS_BUDGET && period < MAX_PERIOD_MS {
        Retry(period, now, taken, refusals);
      }
    }

    /** The firmware's word on the watch request under `s`. */
    method OnWatchReply(s: Seq, subs: seq<Subscription>, period: nat, status: byte, now: nat, taken: bool)
      requires Valid() && s in pending && pending[s].what == Watch(subs, period)
      modifies this`seqNo, this`numbered, this`written, this`pending, this`answers
      modifies this`book, this`serialOf, this`retries
      modifies this`batches, this`contents, this`handedOn, this`active, this`periodMs, this`lastSampleSeq, frame
      ensures Valid() && answers == old(answers) && Replied(old(State()), State(), s)
      ensures active == if status == 0 then subs else old(active)
      ensures status != STATUS_BUDGET ==> State() == Finished(old(State()), s)
    {
      if status == 0 {
        OnWatchTaken(s, subs, period);
      } else {
        OnWatchRefused(s, subs, period, status, now, taken);
      }
    }

    /** The firmware's word on the request under `s`. */
    method OnAnswer(s: Seq, status: byte, now: nat, taken: bool)
      requires Valid() && s in pending
      modifies this`seqNo, this`numbered, this`written, this`pending, this`answers
      modifies this`book, this`serialOf, this`retries
      modifies this`batches, this`contents, this`handedOn, this`active, this`periodMs, this`lastSampleSeq, frame
      ensures Valid() && Replied(old(State()), State(), s)
      ensures answers == old(answers) + AnswerTo(ReplyOf(old(pending)[s].what), status)
      ensures var what := old(pending)[s].what;
              && active == (if what.Watch? && status == 0 then what.subs else old(active))
              && (!what.Watch? || status != STATUS_BUDGET ==> State() == Finished(old(State()), s))
    {
      match pending[s].what {
        case Watch(subs, period) =>
          OnWatchReply(s, subs, period, status, now, taken);
        case _ =>
          Finish(s, if status == 0 then Ok else Refused(status));
      }
    }

    /** Take in a reply: one nobody waits for changes nothing. */
    method OnReply(f: Framing.Frame, now: nat, taken: bool)
      requires Valid() && f.seqNo < 0x1_0000
      modifies this`seqNo, this`numbered, this`written, this`pending, this`answers
      modifies this`book, this`serialOf, this`retries
      modifies this`batches, this`contents, this`handedOn, this`active, this`periodMs, this`lastSampleSeq, frame
      ensures Valid() && Replied(old(State()), State(), f.seqNo)
      ensures f.seqNo !in old(pending) ==> State() == old(State()) && answers == old(answers) && active == old(active)
      ensures f.seqNo in old(pending) ==>
                var what, status := old(pending)[f.seqNo].what, if f.payload == [] then 1 else f.payload[0];
                var told := if status == 0 then Ok else Refused(status);
                && answers == old(answers) + (match what
                                              case Write(t) => [Answer(t, told)]
                                              case Discard(t) => [Answer(t, told)]
                                              case Save(t) => [Answer(t, told)]
                                              case _ => [])
                && active == (if what.Watch? && status == 0 then what.subs else old(active))
                && (!what.Watch? || status != 10 ==> State() == Finished(old(State()), f.seqNo))
    {
      if f.seqNo in pending {
        OnAnswer(f.seqNo, StatusOf(f), now, taken);
      }
    }

    /** Take in one frame: a sample, or a reply. */
    method OnFrame(f: Framing.Frame, now: nat, elapsed: int, taken: bool)
      requires Valid() && f.seqNo < 0x1_0000
      modifies this, frame
      ensures Valid()
      ensures f.cmd == 0x40 ==>
                pending == old(pending) && answers == old(answers) && active == old(active) && old(ticks) <= ticks
      ensures f.cmd != 0x40 ==> ticks == old(ticks)
      ensures Replied(old(State()), State(), f.seqNo)
    {
      if f.cmd == SAMPLE {
        OnSample(f.seqNo, f.payload, elapsed);
      } else {
        OnReply(f, now, taken);
      }
    }

    // ----- what a session does, event by event -----

    /** Watch something else, or at another rate. */
    method SetWatches(wanted: seq<(Id, Id)>, rate: real, now: nat, taken: bool) returns (ok: bool)
      requires Orders() && rate > 0.0
      modifies this`wanted, this`rate
      modifies this`seqNo, this`numbered, this`written, this`pending, this`book, this`serialOf, this`retries
      ensures Orders() && ok == taken && this.wanted == wanted && this.rate == rate && seqNo == Next(old(seqNo))
      ensures var subs := Subscriptions(wanted, kinds);
              Asked(old(State()), State(), seqNo, Entry(Watch(subs, PeriodFor(subs, RatePeriod(rate))), now), taken)
    {
      this.wanted, this.rate := wanted, rate;
      ok := Subscribe(None, now, taken, 0);
    }

    /** Send a command someone waits for. */
    method Ask(command: Command, ticket: Ticket, now: nat, taken: bool) returns (ok: bool)
      requires Orders() && ticket == book.issued
      modifies this`seqNo, this`numbered, this`written, this`pending, this`book, this`serialOf, this`retries
      ensures Orders() && ok == taken && seqNo == Next(old(seqNo))
      ensures Asked(old(State()), State(), seqNo, Entry(Waiter(command, ticket), now), taken)
      ensures written == old(written) +
                         if taken then [CommandFrame(token, seqNo, command)] else []
    {
      var payload := if command.WriteValue? then ToLE(token, 4) + command.payload else ToLE(token, 4);
      ok := Request(CommandCode(command), payload, Waiter(command, ticket), now, taken, 0);
    }

    /** Send a request nobody waits for. */
    method Routine(code: byte, payload: seq<byte>, now: nat, taken: bool) returns (ok: bool)
      requires Orders()
      modifies this`seqNo, this`numbered, this`written, this`pending, this`book, this`serialOf, this`retries
      ensures Orders() && ok == taken && seqNo == Next(old(seqNo))
      ensures Asked(old(State()), State(), seqNo, Entry(Periodic(code), now), taken)
      ensures written == old(written) + if taken then [Framing.Frame(code, seqNo, payload)] else []
    {
      ok := Request(code, payload, Periodic(code), now, taken, 0);
    }

    /** Answer or forget every request the firmware took too long over. */
    method Expire(now: nat)
      requires Orders()
      modifies this`pending, this`answers, this`book
      ensures Orders()
      ensures book.issued == old(book).issued && book.lost == old(book).lost && Told(old(answers), answers, Late)
      ensures pending == map s | s in old(pending) && now <= old(pending)[s].sent + Limit(old(pending)[s].what)
                         :: old(pending)[s]
    {
      var late := set s | s in pending && now > pending[s].sent + Limit(pending[s].what);
      while late != {}
        invariant Orders()
        invariant book.issued == old(book).issued && book.lost == old(book).lost
        invariant late <= pending.Keys <= old(pending).Keys && Told(old(answers), answers, Late)
        invariant forall s :: s in old(pending) ==>
                    (s in pending <==> s in late || now <= old(pending)[s].sent + Limit(old(pending)[s].what))
        invariant forall s :: s in pending ==> pending[s] == old(pending)[s]
        invariant forall s :: s in late ==> now > old(pending)[s].sent + Limit(old(pending)[s].what)
        decreases late
      {
        var s :| s in late;
        late := late - {s};
        Finish(s, Late);
      }
    }

    /** Fail whatever is still waiting. */
    method Drain()
      requires Orders()
      modifies this`pending, this`answers, this`book
      ensures Orders()
      ensures book.issued == old(book).issued && book.lost == old(book).lost
      ensures pending == map[] && Told(old(answers), answers, LinkClosed)
    {
      while pending != map[]
        invariant Orders()
        invariant book.issued == old(book).issued && book.lost == old(book).lost
        invariant Told(old(answers), answers, LinkClosed)
        decreases pending.Keys
      {
        var s :| s in pending;
        Finish(s, LinkClosed);
      }
    }

    /** Stop sampling, give the lease up, hand on what was collected and fail whatever is still waiting. */
    method HangUp(unwatched: bool, released: bool)
      requires Valid()
      modifies this`seqNo, this`numbered, this`written, this`pending, this`answers, this`book
      modifies this`batches, this`contents, this`handedOn, frame
      ensures Valid() && pending == map[] && Told(old(answers), answers, LinkClosed) && handedOn == ticks
      ensures book.issued == old(book).issued && book.lost == old(book).lost
      ensures written == old(written) + Farewell(token, old(seqNo), unwatched, released)
    {
      Goodbye(unwatched, released);
      FlushFrame();
      Drain();
    }

    method Goodbye(unwatched: bool, released: bool)
      requires Numbers()
      modifies this`seqNo, this`numbered, this`written
      ensures Numbers() && written == old(written) + Farewell(token, old(seqNo), unwatched, released)
    {
      var ok := Send(WATCH, [0, 0, 0], unwatched);
      ok := Send(RELEASE, ToLE(token, 4), released);
    }
  }

  /** The frame a command goes out in: its number on the wire, and the token before what is to be written. */
  function CommandFrame(token: Id, s: Seq, command: Command): Framing.Frame {
    match command
    case WriteValue(payload) => Framing.Frame(0x12, s, ToLE(token, 4) + payload)
    case DiscardAll => Framing.Frame(0x13, s, ToLE(token, 4))
    case SaveAll => Framing.Frame(0x14, s, ToLE(token, 4))
  }

  /** The last two frames of a session under the numbers after `s`: an empty watch set, and the lease given up. */
  function Farewell(token: Id, s: Seq, unwatched: bool, released: bool): seq<Framing.Frame> {
    (if unwatched then [Framing.Frame(0x20, Next(s), [0, 0, 0])] else []) +
    (if released then [Framing.Frame(0x03, Next(Next(s)), ToLE(token, 4))] else [])
  }

  /** So many numbers lie between the two that counting on past them leads from one to the other. */
  lemma GapLeadsOn(last: Seq, next: Seq)
    ensures (last + 1 + Gap(last, next)) % 0x1_0000 == next
  {
  }

  /** A save may take three seconds, anything else one. */
  lemma LimitsInSeconds(p: Pending, c: Command)
    ensures Limit(p) == (if p.Save? then 3 else 1) * 1_000_000_000
    ensures CommandLimit(c) == (if c == SaveAll then 3 else 1) * 1_000_000_000
  {
  }

  /** Samples missed between two numbers, counting round the 16 bits. */
  function Gap(last: Seq, next: Seq): Seq {
    (next - last - 1) % 0x1_0000
  }

  // ----- whole sessions -----

  /** What someone may ask for. */
  datatype Command = WriteValue(payload: seq<byte>) | DiscardAll | SaveAll

  datatype Event = Watching(wanted: seq<(Id, Id)>, taken: bool)
                 | SetRate(hz: real, taken: bool)
                 | Ask(command: Command, taken: bool)
                 | Due(code: byte, payload: seq<byte>, taken: bool)
                 | Arrived(frame: Framing.Frame, elapsed: int, taken: bool)
                 | FlushDue
                 | Clock

  predicate Possible(e: Event) {
    && (e.Arrived? ==> e.frame.seqNo < 0x1_0000)
    && (e.Due? ==> e.code == LEASE || e.code == READ || e.code == STATS)
  }

  function Periodic(code: byte): (what: Pending)
    ensures ReplyOf(what).None? && !what.Watch?
  {
    if code == LEASE then Lease else if code == READ then Read else Stats
  }

  function CommandLimit(c: Command): nat {
    if c.SaveAll? then SAVE_TIMEOUT else REPLY_TIMEOUT
  }

  /** What an event is to the waiting requests. */
  function BeatOf(now: nat, e: Event): Beat {
    match e
    case Watching(_, _) => Beat(now, 1, false, None)
    case SetRate(hz, _) => Beat(now, if hz > 0.0 then 1 else 0, false, None)
    case Ask(command, _) => Beat(now, 1, false, Some(CommandLimit(command)))
    case Due(_, _, _) => Beat(now, 1, false, None)
    case Arrived(_, _, _) => Beat(now, 1, false, None)
    case FlushDue => Beat(now, 0, false, None)
    case Clock => Beat(now, 0, true, None)
  }

  function Beats(script: seq<(nat, Event)>): (beats: seq<Beat>)
    ensures |beats| == |script|
    ensures forall k :: 0 <= k < |script| ==> beats[k] == BeatOf(script[k].0, script[k].1)
  {
    seq(|script|, k requires 0 <= k < |script| => BeatOf(script[k].0, script[k].1))
  }

  function CommandCode(c: Command): byte {
    match c
    case WriteValue(_) => WRITE
    case DiscardAll => DISCARD
    case SaveAll => SAVE
  }

  function Waiter(c: Command, ticket: Ticket): (what: Pending)
    ensures ReplyOf(what) == Some(ticket) && !what.Watch?
  {
    match c
    case WriteValue(_) => Write(ticket)
    case DiscardAll => Discard(ticket)
    case SaveAll => Save(ticket)
  }

  ghost predicate AskedToWatch(a: Table, b: Table, now: nat, taken: bool) {
    exists what: Pending :: what.Watch? && Asked(a, b, b.numbered % 0x1_0000, Entry(what, now), taken)
  }

  lemma WatchFollows(a: Table, b: Table, now: nat, taken: bool)
    requires a.book.waiting == Waiting(a.pending) && AskedToWatch(a, b, now, taken)
    ensures Follows(StandingOf(a), StandingOf(b), 1, None) && b.book.issued == a.book.issued
  {
    var what: Pending :| what.Watch? && Asked(a, b, b.numbered % 0x1_0000, Entry(what, now), taken);
    AskingFollows(a, b, b.numbered % 0x1_0000, Entry(what, now), taken);
  }

  /** What an event does to the table. */
  ghost predicate Changed(e: Event, now: nat, ticket: Ticket, a: Table, b: Table) {
    var q: Seq := b.numbered % 0x1_0000;
    match e
    case Ask(command, taken) => Asked(a, b, q, Entry(Waiter(command, ticket), now), taken)
    case Arrived(frame, _, _) => frame.seqNo < 0x1_0000 && Replied(a, b, frame.seqNo)
    case FlushDue => b == a
    case Clock =>
      && b.serialOf == a.serialOf && b.numbered == a.numbered
      && b.book.lost == a.book.lost && b.book.issued == a.book.issued
      && b.pending == map s | s in a.pending && now <= a.pending[s].sent + Limit(a.pending[s].what) :: a.pending[s]
    case Watching(_, taken) => AskedToWatch(a, b, now, taken)
    case SetRate(hz, taken) => if hz <= 0.0 then b == a else AskedToWatch(a, b, now, taken)
    case Due(code, _, taken) => Asked(a, b, q, Entry(Periodic(code), now), taken)
  }

  lemma EventIsCall(e: Event, now: nat, ticket: Ticket, a: Table, b: Table)
    requires a.book.waiting == Waiting(a.pending) && Changed(e, now, ticket, a, b)
    ensures Called(BeatOf(now, e), ticket, StandingOf(a), StandingOf(b))
  {
    var q: Seq := b.numbered % 0x1_0000;
    match e
    case Ask(command, taken) => AskingFollows(a, b, q, Entry(Waiter(command, ticket), now), taken);
    case Arrived(frame, _, _) => ReplyFollows(a, b, frame.seqNo);
    case FlushDue => LeavingFollows(a, b);
    case Clock => LeavingFollows(a, b);
    case Due(code, _, taken) => AskingFollows(a, b, q, Entry(Periodic(code), now), taken);
    case Watching(_, taken) => WatchFollows(a, b, now, taken);
    case SetRate(hz, taken) =>
      if hz > 0.0 {
        WatchFollows(a, b, now, taken);
      } else {
        LeavingFollows(a, b);
      }
  }

  /** Nothing comes in, and the stream takes whatever goes out. */
  predicate Quiet(e: Event) {
    match e
    case Watching(_, taken) => taken
    case SetRate(_, taken) => taken
    case Ask(_, taken) => taken
    case Due(_, _, taken) => taken
    case Arrived(_, _, _) => false
    case _ => true
  }

  lemma SweptTable(a: Table, b: Table, now: nat)
    requires a.pending.Keys <= a.serialOf.Keys && b.serialOf == a.serialOf
    requires b.pending == map s | s in a.pending && now <= a.pending[s].sent + Limit(a.pending[s].what) :: a.pending[s]
    ensures var before, after := Slots(a.pending, a.serialOf), Slots(b.pending, b.serialOf);
            after == map s | s in before && now <= before[s].due :: before[s]
  {
  }

  lemma QuietIsUnheard(e: Event, now: nat, ticket: Ticket, a: Table, b: Table)
    requires a.book.waiting == Waiting(a.pending) && a.pending.Keys <= a.serialOf.Keys
    requires Changed(e, now, ticket, a, b) && Quiet(e)
    ensures Unheard(BeatOf(now, e), ticket, StandingOf(a), StandingOf(b))
  {
    var q := NumberAfter(a.numbered);
    match e
    case Ask(command, _) => JoiningDisplaces(a, b, q, Entry(Waiter(command, ticket), now));
    case FlushDue =>
    case Clock => SweptTable(a, b, now);
    case Due(code, _, taken) => JoiningDisplaces(a, b, q, Entry(Periodic(code), now));
    case Watching(_, taken) =>
      var what: Pending :| what.Watch? && Asked(a, b, q, Entry(what, now), taken);
      JoiningDisplaces(a, b, q, Entry(what, now));
    case SetRate(hz, taken) =>
      if hz > 0.0 {
        var what: Pending :| what.Watch? && Asked(a, b, q, Entry(what, now), taken);
        JoiningDisplaces(a, b, q, Entry(what, now));
      }
  }

  /** An event issues a ticket when it is a command whose write went out. */
  lemma EventIssues(e: Event, now: nat, ticket: Ticket, a: Table, b: Table)
    requires Changed(e, now, ticket, a, b)
    ensures b.book.issued == a.book.issued + if e.Ask? && e.taken then 1 else 0
  {
  }

  /** An event that concerns only the requests. */
  method Serve(w: Worker, e: Event, now: nat, ticket: Ticket) returns (ok: bool)
    requires w.Orders() && Possible(e) && ticket == w.book.issued && !e.Arrived? && !e.FlushDue?
    modifies w`wanted, w`rate, w`answers
    modifies w`seqNo, w`numbered, w`written, w`pending, w`book, w`serialOf, w`retries
    ensures w.Orders() && Changed(e, now, ticket, old(w.State()), w.State())
    ensures (e.Ask? ==> ok == e.taken) && (Quiet(e) ==> ok)
  {
    ok := true;
    match e {
      case Watching(wanted, taken) =>
        ok := w.SetWatches(wanted, w.rate, now, taken);
      case SetRate(hz, taken) =>
        if hz > 0.0 {
          ok := w.SetWatches(w.wanted, hz, now, taken);
        }
      case Ask(command, taken) =>
        ok := w.Ask(command, ticket, now, taken);
      case Due(code, payload, taken) =>
        ok := w.Routine(code, payload, now, taken);
      case Clock =>
        w.Expire(now);
    }
  }

  /** One event; `false` when the stream failed and the session is over. */
  method Step(w: Worker, e: Event, now: nat, ticket: Ticket) returns (ok: bool)
    requires w.Valid() && Possible(e) && ticket == w.book.issued
    modifies w, w.frame
    ensures w.Valid() && Changed(e, now, ticket, old(w.State()), w.State())
    ensures (e.Ask? ==> ok == e.taken) && (Quiet(e) ==> ok)
  {
    ok := true;
    match e {
      case Arrived(frame, elapsed, taken) =>
        w.OnFrame(frame, now, elapsed, taken);
      case FlushDue =>
        w.FlushFrame();
      case _ =>
        ok := Serve(w, e, now, ticket);
    }
  }

  /**
   Any run of a session, ended by its stream failing or by the end of the script, of which the first `handled` events
   were taken up. Every command among them has a ticket, but for the one whose write failed; nothing else is answered,
   so a command taken up by nobody is not. Every ticket was answered once and only once, unless its number came round
   while it waited, unswept, in events of the script; in a script paced so that none can, every ticket was; and when the
   firmware never answers and the stream takes everything, exactly those whose number comes round are forgotten. Every
   tick that came in was handed on, in order.
   */
  method Run(w: Worker, script: seq<(nat, Event)>, unwatched: bool, released: bool)
      returns (handled: nat, failed: bool)
    requires w.Valid() && w.book == EMPTY
    requires forall k :: 0 <= k < |script| ==> Possible(script[k].1)
    modifies w, w.frame
    ensures w.Valid() && w.pending == map[] && w.handedOn == w.ticks
    ensures handled <= |script| && if failed then handled > 0 else handled == |script|
    ensures if failed then Unserved(script, handled, w.book.issued)
            else Requests(Beats(script), handled) == w.book.issued
    ensures forall t: Ticket ::
              multiset(Tickets(w.answers))[t] == if t < w.book.issued && t !in w.book.lost then 1 else 0
    ensures forall t :: t in w.book.lost ==> WasOvertaken(Beats(script), t)
    ensures Paced(Beats(script)) ==> w.book.lost == {}
    ensures AllQuiet(script) ==> !failed && forall t :: t in w.book.lost <==> WasOvertaken(Beats(script), t)
  {
    ghost var beats, base := Beats(script), w.numbered;
    NobodyWaits(w.State());
    handled, failed := Drive(w, script, base);
    PacedIff(beats);
    if AllQuiet(script) {
      LostIffOvertaken(beats, base, StandingOf(w.State()));
    }
    w.HangUp(unwatched, released);
    EachAnsweredOnce(w.book);
  }

  /** Where a run stands after `n` events. */
  ghost predicate OnTrack(script: seq<(nat, Event)>, base: nat, n: nat, t: Table)
    requires n <= |script|
  {
    && Tracked(Beats(script), n, StandingOf(t))
    && (AllQuiet(script) ==> Pace.Settled(Beats(script), base, n, StandingOf(t)))
  }

  /** Of the requests among the first `n` events all were issued but the one the stream failed at, if it was one. */
  ghost predicate Unserved(script: seq<(nat, Event)>, n: nat, issued: nat)
    requires 0 < n <= |script|
  {
    Requests(Beats(script), n) == issued + if script[n - 1].1.Ask? then 1 else 0
  }

  /** How far a run has come after `n` events, at the last of which the stream failed if it `failed`. */
  ghost predicate Come(script: seq<(nat, Event)>, base: nat, n: nat, failed: bool, t: Table)
    requires n <= |script|
  {
    && OnTrack(script, base, n, t) && (AllQuiet(script) ==> !failed)
    && if failed then n > 0 && Unserved(script, n, t.book.issued) else Requests(Beats(script), n) == t.book.issued
  }

  /** The events, one by one, until the stream fails. */
  method Drive(w: Worker, script: seq<(nat, Event)>, ghost base: nat) returns (handled: nat, failed: bool)
    requires w.Valid() && w.book.issued == 0 && OnTrack(script, base, 0, w.State())
    requires forall k :: 0 <= k < |script| ==> Possible(script[k].1)
    modifies w, w.frame
    ensures w.Valid() && handled <= |script| && (!failed ==> handled == |script|)
    ensures Come(script, base, handled, failed, w.State())
  {
    handled, failed := 0, false;
    var next: Ticket := 0;
    while handled < |script| && !failed
      invariant handled <= |script| && w.Valid() && next == w.book.issued
      invariant Come(script, base, handled, failed, w.State())
    {
      var ok;
      ok, next := TakeUp(w, script, handled, next, base);
      handled, failed := handled + 1, !ok;
    }
  }

  predicate AllQuiet(script: seq<(nat, Event)>) {
    forall k :: 0 <= k < |script| ==> Quiet(script[k].1)
  }

  /** One event of a run. */
  method TakeUp(w: Worker, script: seq<(nat, Event)>, n: nat, ticket: Ticket, ghost base: nat)
    returns (ok: bool, next: Ticket)
    requires w.Valid() && n < |script| && Possible(script[n].1)
    requires ticket == w.book.issued && Come(script, base, n, false, w.State())
    modifies w, w.frame
    ensures w.Valid() && next == w.book.issued && Come(script, base, n + 1, !ok, w.State())
  {
    var (now, e) := script[n];
    ghost var before := w.State();
    ok := Step(w, e, now, ticket);
    next := if e.Ask? && ok then ticket + 1 else ticket;
    Follow(script, base, n, ticket, before, w.State());
  }

  lemma Follow(script: seq<(nat, Event)>, base: nat, n: nat, ticket: Ticket, a: Table, b: Table)
    requires n < |script| && ticket == Requests(Beats(script), n) && OnTrack(script, base, n, a)
    requires a.book.waiting == Waiting(a.pending) && a.pending.Keys <= a.serialOf.Keys
    requires Changed(script[n].1, script[n].0, ticket, a, b)
    ensures OnTrack(script, base, n + 1, b)
    ensures b.book.issued == a.book.issued + if script[n].1.Ask? && script[n].1.taken then 1 else 0
    ensures Requests(Beats(script), n + 1) == ticket + if script[n].1.Ask? then 1 else 0
  {
    var (now, e) := script[n];
    EventIsCall(e, now, ticket, a, b);
    EventIssues(e, now, ticket, a, b);
    CallIsTracked(Beats(script), n, StandingOf(a), StandingOf(b));
    if AllQuiet(script) {
      QuietIsUnheard(e, now, ticket, a, b);
      UnheardIsSettled(Beats(script), base, n, StandingOf(a), StandingOf(b));
    }
  }

  /** `n` saves asked for at once. */
  function Saves(n: nat): (script: seq<(nat, Event)>)
    ensures |script| == n && forall k :: 0 <= k < n ==> script[k] == (0, Ask(SaveAll, true))
  {
    seq(n, k => (0, Ask(SaveAll, true)))
  }

  lemma {:induction false} FramesOfSaves(n: nat, i: nat, j: nat)
    requires i <= j <= n
    ensures Frames(Beats(Saves(n)), i, j) == j - i
  {
    if i < j {
      FramesOfSaves(n, i, j - 1);
    }
  }

  /**
   More saves than there are numbers overtake the first of them, which is then forgotten if the firmware does not
   answer.
   */
  lemma SavesOvertake(n: nat)
    requires n > 0x1_0000
    ensures AllQuiet(Saves(n)) && WasOvertaken(Beats(Saves(n)), 0)
  {
    FramesOfSaves(n, 1, 0x1_0001);
    assert Overtaken(Beats(Saves(n)), 0, 0, 0x1_0000);
  }

  // ----- a firmware short of sample budget -----

  /**
   Up to `n` times in a row the firmware refuses for want of budget a watch request first sent with `period`, and every
   time the stream takes the retry: `k` of them follow, the last of them waiting under `s`. A set that is empty or asked
   for at period 0 is asked for again every time, any other ten times at most.
   */
  method RefuseForBudget(w: Worker, first: Seq, subs: seq<Subscription>, period: nat, now: nat, n: nat)
      returns (s: Seq, k: nat)
    requires w.Orders() && first in w.pending && period <= MAX_PERIOD_MS
    requires subs == Subscriptions(w.wanted, w.kinds) && w.pending[first].what == Watch(subs, PeriodFor(subs, period))
    modifies w`seqNo, w`numbered, w`written, w`pending, w`answers, w`book, w`serialOf, w`retries
    ensures w.Orders() && k <= n && s in w.pending
    ensures w.pending[s].what == Watch(subs, AfterRefusals(subs, period, k))
    ensures |w.written| == |old(w.written)| + k
    ensures k < n ==> AfterRefusals(subs, period, k) == MAX_PERIOD_MS
    ensures n > 10 ==> (k == n <==> subs == [] || period == 0)
    ensures subs == [] || period == 0 ==> k == n && w.pending[s].what == Watch(subs, 0)
    ensures subs != [] && period >= 1 ==> k <= 10
  {
    s, k := first, 0;
    while k < n && AfterRefusals(subs, period, k) < MAX_PERIOD_MS
      invariant w.Orders() && k <= n && s in w.pending && subs == Subscriptions(w.wanted, w.kinds)
      invariant w.pending[s].what == Watch(subs, AfterRefusals(subs, period, k))
      invariant |w.written| == |old(w.written)| + k
      invariant subs != [] && period >= 1 ==> k <= 10
    {
      SettledByTen(subs, period, k);
      s := RefuseOnce(w, s, subs, AfterRefusals(subs, period, k), now);
      k := k + 1;
    }
    PeriodsStayLow(subs, period, k);
    if subs == [] || period == 0 {
      ZeroStaysZero(subs, period, k);
    }
  }

  /** A watch set is wanted, and its request waits under `s`, the newest number. */
  method Want(w: Worker, wanted: seq<(Id, Id)>, now: nat) returns (s: Seq)
    requires w.Orders()
    modifies w`wanted, w`rate, w`answers
    modifies w`seqNo, w`numbered, w`written, w`pending, w`book, w`serialOf, w`retries
    ensures w.Orders() && w.wanted == wanted && s == w.seqNo == Next(old(w.seqNo))
    ensures var subs := Subscriptions(wanted, w.kinds);
            w.pending == old(w.pending)[s := Entry(Watch(subs, PeriodFor(subs, RatePeriod(w.rate))), now)]
  {
    var ok := w.SetWatches(wanted, w.rate, now, true);
    s := w.seqNo;
  }

  /**
   How a set with members comes to be asked for at period 0: nothing is wanted, then something is, and only then is the
   request for nothing refused. What is asked for again is the set wanted now, at the period refused.
   */
  method MembersAtZero(w: Worker, wanted: seq<(Id, Id)>, now: nat) returns (s: Seq)
    requires w.Orders() && Subscriptions(wanted, w.kinds) != []
    modifies w`wanted, w`rate, w`answers
    modifies w`seqNo, w`numbered, w`written, w`pending, w`book, w`serialOf, w`retries
    ensures w.Orders() && s in w.pending && w.wanted == wanted
    ensures w.pending[s].what == Watch(Subscriptions(wanted, w.kinds), 0)
  {
    var nothing := Want(w, [], now);
    var something := Want(w, wanted, now);
    assert w.pending[nothing].what == Watch([], 0);
    w.OnWatchRefused(nothing, [], 0, STATUS_BUDGET, now, true);
    s := w.seqNo;
  }

  /** Such a set is asked for as often as it is refused. */
  method MembersNeverSettle(w: Worker, wanted: seq<(Id, Id)>, now: nat, n: nat) returns (s: Seq, k: nat)
    requires w.Orders() && Subscriptions(wanted, w.kinds) != []
    modifies w`wanted, w`rate, w`answers
    modifies w`seqNo, w`numbered, w`written, w`pending, w`book, w`serialOf, w`retries
    ensures w.Orders() && s in w.pending && w.pending[s].what == Watch(Subscriptions(wanted, w.kinds), 0)
    ensures k == n
  {
    var first := MembersAtZero(w, wanted, now);
    s, k := RefuseForBudget(w, first, Subscriptions(wanted, w.kinds), 0, now, n);
  }

  method RefuseOnce(w: Worker, s: Seq, subs: seq<Subscription>, period: nat, now: nat) returns (next: Seq)
    requires w.Orders() && s in w.pending && w.pending[s].what == Watch(subs, period) && period < MAX_PERIOD_MS
    requires subs == Subscriptions(w.wanted, w.kinds)
    modifies w`seqNo, w`numbered, w`written, w`pending, w`answers, w`book, w`serialOf, w`retries
    ensures w.Orders() && next in w.pending && subs == Subscriptions(w.wanted, w.kinds)
    ensures w.pending[next].what == Watch(subs, PeriodFor(subs, Slower(period)))
    ensures |w.written| == |old(w.written)| + 1
  {
    w.OnWatchRefused(s, subs, period, STATUS_BUDGET, now, true);
    next := w.seqNo;
  }

  // ----- reading the catalog, page by page -----

  /** What a catalog request from an offset brings: no answer in time, a reply that cannot be read, or a page. */
  datatype Page<T> = NoAnswer | Malformed | Page(total: nat, entries: seq<T>)

  datatype CatalogResult<T> = Catalog(entries: seq<T>) | Unanswered | Unreadable

  /** A page's total is a 16-bit count, its own entries an 8-bit one. */
  ghost predicate Pages<T(!new)>(serve: nat -> Page<T>) {
    forall offset: nat :: serve(offset).Page? ==> serve(offset).total < 0x1_0000 && |serve(offset).entries| < 256
  }

  /** The firmware serves `catalog`: from any offset some of what follows, and something while anything does. */
  ghost predicate Serves<T(!new)>(serve: nat -> Page<T>, catalog: seq<T>) {
    forall offset: nat :: offset <= |catalog| ==>
      && serve(offset).Page? && serve(offset).total == |catalog|
      && serve(offset).entries <= catalog[offset..]
      && (offset < |catalog| ==> serve(offset).entries != [])
  }

  /**
   Ask for pages until the total is reached. It ends for any firmware, the offset sent never outgrows its 16 bits, and
   from a firmware that serves a catalog the result is that catalog.
   */
  method ReadCatalog<T(!new)>(serve: nat -> Page<T>, ghost catalog: Option<seq<T>>) returns (r: CatalogResult<T>)
    requires Pages(serve) && (catalog.Some? ==> Serves(serve, catalog.value))
    ensures catalog.Some? ==> r == Catalog(catalog.value)
  {
    var entries: seq<T> := [];
    while true
      invariant |entries| < 0x1_0000
      invariant catalog.Some? ==> |entries| <= |catalog.value| && entries == catalog.value[..|entries|]
      decreases 0x1_0000 - |entries|
    {
      var offset := |entries| % 0x1_0000;
      assert offset == |entries|;
      var page := serve(offset);
      match page {
        case NoAnswer => return Unanswered;
        case Malformed => return Unreadable;
        case Page(total, more) =>
          ghost var before := entries;
          entries := entries + more;
          if catalog.Some? {
            assert catalog.value == before + catalog.value[offset..];
            assert catalog.value[offset..][..|more|] == more;
            assert entries == catalog.value[..|entries|];
          }
          if |entries| >= total {
            return Catalog(entries);
          }
          if more == [] {
            return Unreadable;
          }
      }
    }
  }
}
