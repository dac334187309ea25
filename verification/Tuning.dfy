/**
 Tuning requests over the control channel of a probe session: numbered frames, one reply for each request, and a lease
 under which all requests go out. Times are nanoseconds.
 */
module Tuning {
  import opened Bytes
  import opened Commands
  import opened Common
  import opened Frame
  import opened Ledger
  import opened Pace
  import Framing

  const LEASE_RENEW: nat := 1_000_000_000

  datatype Request = Write(id: Id, tag: byte, bits: Id) | Discard | Save

  /** Why a request failed: the firmware's status, or a reason of the host's. */
  datatype Why = Status(status: byte) | ChannelFull | ChannelFault | Late | SessionClosed

  datatype Result = Ok | Failed(why: Why)

  /** A request that waits; a LEASE has no ticket. */
  datatype Pending = Pending(reply: Option<Ticket>, deadline: nat)

  /** How the channel takes a frame: written, full, or the memory access failed. */
  datatype Outcome = Taken | Full | Broken

  /** What one read of the channel brings: the frames it completes, and whether it filled the buffer. */
  datatype Read = Got(frames: seq<Framing.Frame>, full: bool) | Fault

  ghost predicate Numbered(r: Read) {
    r.Got? ==> forall k :: 0 <= k < |r.frames| ==> r.frames[k].seqNo < 0x1_0000
  }

  /** What happens on the channel, in order: frames written, replies somebody waited for, and its end. */
  datatype Mark = Sent(frame: Framing.Frame) | Heard(frame: Framing.Frame) | Closed

  // ----- lease discipline -----

  predicate NeedsLease(cmd: byte) {
    cmd == WRITE || cmd == DISCARD || cmd == SAVE || cmd == RELEASE
  }

  predicate LeaseReply(f: Framing.Frame) {
    f.cmd as int == LEASE as int + REPLY as int
  }

  predicate LosesLease(f: Framing.Frame) {
    StatusOf(f) == STATUS_LEASE_LOST || (LeaseReply(f) && StatusOf(f) != 0)
  }

  /** The lease has been asked for, and since then neither lost nor given up. */
  function Held(trace: seq<Mark>): bool {
    if trace == [] then false else
    var n := |trace| - 1;
    match trace[n]
    case Sent(f) => if f.cmd == LEASE then true else if f.cmd == RELEASE then false else Held(trace[..n])
    case Heard(f) => !LosesLease(f) && Held(trace[..n])
    case Closed => false
  }

  predicate EndsLease(m: Mark) {
    match m
    case Sent(f) => f.cmd == RELEASE
    case Heard(f) => LosesLease(f)
    case Closed => true
  }

  /** A LEASE was written at `j`, and nothing after it ended it. */
  ghost predicate LeaseSince(trace: seq<Mark>, j: nat) {
    && j < |trace| && trace[j].Sent? && trace[j].frame.cmd == LEASE
    && forall k :: j < k < |trace| ==> !EndsLease(trace[k])
  }

  lemma {:induction false} HeldMeans(trace: seq<Mark>)
    ensures Held(trace) <==> exists j :: LeaseSince(trace, j)
  {
    if trace != [] {
      var n := |trace| - 1;
      var rest := trace[..n];
      HeldMeans(rest);
      if trace[n].Sent? && trace[n].frame.cmd == LEASE {
        assert LeaseSince(trace, n);
      } else if Held(trace) {
        var j :| LeaseSince(rest, j);
        assert LeaseSince(trace, j);
      } else if j :| LeaseSince(trace, j) {
        assert j != n && !EndsLease(trace[n]);
        assert LeaseSince(rest, j);
      }
    }
  }

  /** Every request and every release goes out under the lease. */
  ghost predicate Disciplined(trace: seq<Mark>) {
    forall i :: 0 <= i < |trace| && trace[i].Sent? && NeedsLease(trace[i].frame.cmd) ==> Held(trace[..i])
  }

  ghost predicate WithToken(trace: seq<Mark>, token: Id) {
    forall i :: 0 <= i < |trace| && trace[i].Sent? ==> ToLE(token, 4) <= trace[i].frame.payload
  }

  ghost predicate Silent(trace: seq<Mark>) {
    forall i :: 0 <= i < |trace| ==> !trace[i].Sent?
  }

  lemma DisciplinedNext(trace: seq<Mark>, m: Mark)
    requires Disciplined(trace) && (m.Sent? && NeedsLease(m.frame.cmd) ==> Held(trace))
    ensures Disciplined(trace + [m])
    ensures Held(trace + [m]) ==
            ((m.Sent? && m.frame.cmd == LEASE) || (!EndsLease(m) && Held(trace)))
  {
    var now := trace + [m];
    assert now[..|trace|] == trace;
    forall i | 0 <= i < |now| && now[i].Sent? && NeedsLease(now[i].frame.cmd) ensures Held(now[..i]) {
      assert now[..i] == trace[..i] || i == |trace|;
    }
  }

  // ----- the same in terms of the bytes on the channel -----

  /** A reply that reports the lease lost, or refuses a LEASE; one without a status byte counts as status 1. */
  predicate ReportsLoss(f: Framing.Frame) {
    var status := if |f.payload| > 0 then f.payload[0] as int else 1;
    status == 8 || (f.cmd == 0x82 && status != 0)
  }

  predicate StartsLease(m: Mark, token: Id) {
    && m.Sent? && m.frame.cmd == 0x02 && |m.frame.payload| >= 4
    && FromLE(m.frame.payload[..4]) == token
  }

  predicate WantsLease(m: Mark) {
    m.Sent? && (m.frame.cmd == 0x03 || 0x12 <= m.frame.cmd <= 0x14)
  }

  predicate StopsLease(m: Mark) {
    m.Closed? || (m.Sent? && m.frame.cmd == 0x03) || (m.Heard? && ReportsLoss(m.frame))
  }

  /** What was written at `i` went out behind a LEASE of this token, and nothing in between ended it. */
  ghost predicate Leased(trace: seq<Mark>, token: Id, i: nat)
    requires i < |trace|
  {
    exists j :: 0 <= j < i && StartsLease(trace[j], token) && forall k :: j < k < i ==> !StopsLease(trace[k])
  }

  ghost predicate AlwaysLeased(trace: seq<Mark>, token: Id) {
    forall i :: 0 <= i < |trace| && WantsLease(trace[i]) ==> Leased(trace, token, i)
  }

  /** The requests and the release on the channel were written under the lease. */
  lemma EveryRequestIsLeased(trace: seq<Mark>, token: Id)
    requires Disciplined(trace) && WithToken(trace, token)
    ensures AlwaysLeased(trace, token)
  {
    forall i | 0 <= i < |trace| && WantsLease(trace[i]) ensures Leased(trace, token, i) {
      HeldMeans(trace[..i]);
      var j: nat :| LeaseSince(trace[..i], j);
      assert trace[j] == trace[..i][j];
      TokenIsRead(trace[j].frame.payload, token);
      assert StartsLease(trace[j], token);
      forall k | j < k < i ensures !StopsLease(trace[k]) {
        assert trace[k] == trace[..i][k];
      }
    }
  }

  lemma TokenIsRead(payload: seq<byte>, token: Id)
    requires ToLE(token, 4) <= payload
    ensures |payload| >= 4 && FromLE(payload[..4]) == token
  {
    WordSizes();
    FromToLE(token, 4);
    assert payload[..4] == ToLE(token, 4);
  }

  /** Between a refusal or loss that was heard and the next request there is a new LEASE. */
  lemma LossNeedsNewLease(trace: seq<Mark>, token: Id, h: nat, i: nat)
    requires AlwaysLeased(trace, token)
    requires h < i < |trace| && trace[h].Heard? && ReportsLoss(trace[h].frame) && WantsLease(trace[i])
    ensures exists j :: h < j < i && StartsLease(trace[j], token)
  {
    assert Leased(trace, token, i);
    var j :| 0 <= j < i && StartsLease(trace[j], token) && forall k :: j < k < i ==> !StopsLease(trace[k]);
    assert StopsLease(trace[h]);
  }

  // ----- the pending table as a ledger -----

  /** Who waits under each number. */
  ghost function Waiting(pending: map<Seq, Pending>): map<Seq, Ticket> {
    map s | s in pending && pending[s].reply.Some? :: pending[s].reply.value
  }

  lemma WaitingWith(pending: map<Seq, Pending>, s: Seq, p: Pending)
    ensures Waiting(pending[s := p]) ==
            if p.reply.Some? then Waiting(pending)[s := p.reply.value] else Waiting(pending) - {s}
  {
  }

  lemma WaitingWithout(pending: map<Seq, Pending>, s: Seq)
    ensures Waiting(pending - {s}) == Waiting(pending) - {s}
  {
  }

  function RequestFrame(token: Id, request: Request, s: Seq): Framing.Frame {
    match request
    case Write(id, tag, bits) =>
      Framing.Frame(WRITE, s, ToLE(token, 4) + ToLE(id, 4) + [tag, 0, 0, 0] + ToLE(bits, 4))
    case Discard => Framing.Frame(DISCARD, s, ToLE(token, 4))
    case Save => Framing.Frame(SAVE, s, ToLE(token, 4))
  }

  /** What the requests say on the wire, byte by byte; two different WRITEs are two different frames. */
  lemma RequestBytes(token: Id, request: Request, s: Seq)
    ensures var f := RequestFrame(token, request, s);
            && f.seqNo == s && |f.payload| >= 4 && FromLE(f.payload[..4]) == token
            && f.cmd == (match request case Write(_, _, _) => 0x12 case Discard => 0x13 case Save => 0x14)
            && |f.payload| == (if request.Write? then 16 else 4)
            && (request.Write? ==>
                  && FromLE(f.payload[4..8]) == request.id && f.payload[8] == request.tag
                  && f.payload[9] == f.payload[10] == f.payload[11] == 0
                  && FromLE(f.payload[12..16]) == request.bits)
    ensures FrameFor(token, None, s) == Framing.Frame(0x02, s, ToLE(token, 4))
    ensures ReleaseFrame(token, s) == Framing.Frame(0x03, s, ToLE(token, 4))
  {
    TokenIsRead(RequestFrame(token, request, s).payload, token);
    if request.Write? {
      var p := RequestFrame(token, request, s).payload;
      assert p[4..8] == ToLE(request.id, 4) && p[12..16] == ToLE(request.bits, 4);
      FromToLE(request.id, 4);
      FromToLE(request.bits, 4);
    }
  }

  /** A save may take three seconds, anything else one; the lease is renewed after one. */
  lemma TimesInSeconds(request: Request, at: nat, now: nat)
    ensures Timeout(request) == (if request == Save then 3 else 1) * 1_000_000_000 && TimeoutOf(None) == 1_000_000_000
    ensures RenewalDue(Some(at), now) <==> now >= at + 1_000_000_000
  {
  }

  function Timeout(request: Request): nat {
    if request.Save? then SAVE_TIMEOUT else REPLY_TIMEOUT
  }

  function FrameFor(token: Id, request: Option<Request>, s: Seq): (f: Framing.Frame)
    ensures ToLE(token, 4) <= f.payload
    ensures request.None? ==> f.cmd == LEASE
    ensures request.Some? ==> f == RequestFrame(token, request.value, s) && NeedsLease(f.cmd) && f.cmd != RELEASE
  {
    match request
    case None => Framing.Frame(LEASE, s, ToLE(token, 4))
    case Some(q) => RequestFrame(token, q, s)
  }

  function ReleaseFrame(token: Id, s: Seq): (f: Framing.Frame)
    ensures ToLE(token, 4) <= f.payload && f.cmd == RELEASE
  {
    Framing.Frame(RELEASE, s, ToLE(token, 4))
  }

  lemma WithTokenNext(trace: seq<Mark>, token: Id, m: Mark)
    requires WithToken(trace, token) && (m.Sent? ==> ToLE(token, 4) <= m.frame.payload)
    ensures WithToken(trace + [m], token)
  {
  }

  function TimeoutOf(request: Option<Request>): nat {
    if request.Some? then Timeout(request.value) else REPLY_TIMEOUT
  }

  /** What a reply's status means to whoever asked; behind a refused LEASE, the refusal is the reason. */
  function ResultOf(status: byte, leaseRefused: Option<byte>): Result {
    if status == 0 then Ok
    else if status == STATUS_LEASE_LOST && leaseRefused.Some? then Failed(Status(leaseRefused.value))
    else Failed(Status(status))
  }

  // ----- what reading the channel does -----

  /** The requests waiting, the lease, what every ticket has been told, and what went over the channel. */
  datatype Desk = Desk(pending: map<Seq, Pending>, leasedAt: Option<nat>, leaseRefused: Option<byte>,
                       answers: seq<Answer<Result>>, trace: seq<Mark>)

  function AnswerTo(reply: Option<Ticket>, result: Result): seq<Answer<Result>> {
    if reply.Some? then [Answer(reply.value, result)] else []
  }

  /** A reply is matched by its number alone; one nobody waits for changes nothing. */
  function AfterReply(d: Desk, f: Framing.Frame): Desk {
    if f.seqNo !in d.pending then d else
    var refused := if !LeaseReply(f) then d.leaseRefused
                   else if StatusOf(f) == 0 then None else Some(StatusOf(f));
    Desk(d.pending - {f.seqNo}, if LosesLease(f) then None else d.leasedAt, refused,
         d.answers + AnswerTo(d.pending[f.seqNo].reply, ResultOf(StatusOf(f), refused)), d.trace + [Heard(f)])
  }

  /**
   What a reply somebody waits for does, in terms of its bytes: how it ends the lease, and what is told to whoever
   waits. A lost lease is told as status 8 unless a LEASE was refused and none granted since.
   */
  lemma ReplyInBytes(d: Desk, f: Framing.Frame)
    requires f.seqNo in d.pending
    ensures var after, status := AfterReply(d, f), if |f.payload| > 0 then f.payload[0] as int else 1;
            && (after.leasedAt == None <==>
                d.leasedAt == None || status == 8 || (f.cmd == 0x82 && status != 0))
            && (after.leasedAt.Some? ==> after.leasedAt == d.leasedAt)
            && after.leaseRefused == (if f.cmd != 0x82 then d.leaseRefused else if status == 0 then None
                                      else Some(status))
            && after.pending == d.pending - {f.seqNo} && after.trace == d.trace + [Heard(f)]
            && (d.pending[f.seqNo].reply == None ==> after.answers == d.answers)
            && (d.pending[f.seqNo].reply.Some? ==>
                  after.answers == d.answers +
                    [Answer(d.pending[f.seqNo].reply.value,
                            if status == 0 then Ok
                            else if status == 8 && f.cmd != 0x82 && d.leaseRefused.Some?
                            then Failed(Status(d.leaseRefused.value))
                            else Failed(Status(status)))])
    ensures LosesLease(f) <==> ReportsLoss(f)
  {
  }

  function AfterFrames(d: Desk, frames: seq<Framing.Frame>): Desk {
    if frames == [] then d else AfterReply(AfterFrames(d, frames[..|frames| - 1]), frames[|frames| - 1])
  }

  /** Reading goes on until a read leaves room in the buffer, or fails. */
  function AfterReads(d: Desk, received: seq<Read>): Desk
    decreases |received|
  {
    if received == [] || received[0].Fault? then d else
    var next := AfterFrames(d, received[0].frames);
    if received[0].full then AfterReads(next, received[1..]) else next
  }

  function Unexpired(pending: map<Seq, Pending>, now: nat): map<Seq, Pending> {
    map s | s in pending && now <= pending[s].deadline :: pending[s]
  }

  /** A request waits up to its deadline and no longer. */
  lemma OverdueLeave(pending: map<Seq, Pending>, now: nat, s: Seq)
    ensures s in Unexpired(pending, now) <==> s in pending && now <= pending[s].deadline
    ensures s in Unexpired(pending, now) ==> Unexpired(pending, now)[s] == pending[s]
  {
  }

  predicate RenewalDue(leasedAt: Option<nat>, now: nat) {
    leasedAt.Some? && Since(now, leasedAt.value) >= LEASE_RENEW
  }

  /** The desk once a due renewal went out under number `s`. */
  function Renewed(d: Desk, token: Id, s: Seq, now: nat): Desk {
    d.(pending := d.pending[s := Pending(None, now + REPLY_TIMEOUT)], leasedAt := Some(now),
       trace := d.trace + [Sent(FrameFor(token, None, s))])
  }

  /** The frames of the first `n` reads, in order. */
  function FramesOf(received: seq<Read>, n: nat): seq<Framing.Frame>
    requires n <= |received|
  {
    if n == 0 then [] else FramesOf(received, n - 1) + if received[n - 1].Got? then received[n - 1].frames else []
  }

  /** Reads that each fill the buffer. */
  ghost predicate AllFull(received: seq<Read>, n: nat)
    requires n <= |received|
  {
    forall k :: 0 <= k < n ==> received[k].Got? && received[k].full
  }

  lemma {:induction false} FramesInTurn(d: Desk, a: seq<Framing.Frame>, b: seq<Framing.Frame>)
    ensures AfterFrames(d, a + b) == AfterFrames(AfterFrames(d, a), b)
  {
    if b == [] {
      assert a + b == a;
    } else {
      var n := |b| - 1;
      FramesInTurn(d, a, b[..n]);
      assert (a + b)[..|a + b| - 1] == a + b[..n] && (a + b)[|a + b| - 1] == b[n];
    }
  }

  lemma {:induction false} FramesOfRest(received: seq<Read>, n: nat)
    requires received != [] && received[0].Got? && n < |received|
    ensures FramesOf(received, n + 1) == received[0].frames + FramesOf(received[1..], n)
  {
    if n > 0 {
      FramesOfRest(received, n - 1);
      assert received[1..][n - 1] == received[n];
    }
  }

  /** Full reads are followed by more; a read that leaves room is the last, and a failed one adds nothing. */
  lemma {:induction false} ReadsTakenIn(d: Desk, received: seq<Read>, n: nat)
    requires n <= |received| && AllFull(received, n)
    ensures n == |received| || received[n].Fault? ==> AfterReads(d, received) == AfterFrames(d, FramesOf(received, n))
    ensures n < |received| && received[n].Got? && !received[n].full ==>
              AfterReads(d, received) == AfterFrames(d, FramesOf(received, n + 1))
    decreases n
  {
    if n > 0 {
      var next, rest := AfterFrames(d, received[0].frames), received[1..];
      assert forall k :: 0 <= k < n - 1 ==> rest[k] == received[k + 1];
      ReadsTakenIn(next, rest, n - 1);
      FramesOfRest(received, n - 1);
      FramesInTurn(d, received[0].frames, FramesOf(rest, n - 1));
      if n < |received| {
        FramesOfRest(received, n);
        FramesInTurn(d, received[0].frames, FramesOf(rest, n));
      }
    } else if received != [] && received[0].Got? {
      assert FramesOf(received, 1) == [] + received[0].frames == received[0].frames;
    }
  }

  lemma {:induction false} UnansweredStays(d: Desk, frames: seq<Framing.Frame>, s: Seq)
    requires s in d.pending && forall k :: 0 <= k < |frames| ==> frames[k].seqNo != s
    ensures s in AfterFrames(d, frames).pending && AfterFrames(d, frames).pending[s] == d.pending[s]
  {
    if frames != [] {
      UnansweredStays(d, frames[..|frames| - 1], s);
    }
  }

  /** The first reply with the number of a waiting request or LEASE is heard. */
  lemma {:induction false} FirstReplyIsHeard(d: Desk, frames: seq<Framing.Frame>, s: Seq, k: nat)
    requires s in d.pending
    requires k < |frames| && frames[k].seqNo == s && forall j :: 0 <= j < k ==> frames[j].seqNo != s
    ensures Heard(frames[k]) in AfterFrames(d, frames).trace
    decreases |frames|
  {
    var n := |frames| - 1;
    if k < n {
      FirstReplyIsHeard(d, frames[..n], s, k);
    } else {
      UnansweredStays(d, frames[..n], s);
      assert AfterFrames(d, frames) == AfterReply(AfterFrames(d, frames[..n]), frames[k]);
    }
  }

  /** A waiting request is answered by the first reply with its number, and told what the firmware said. */
  lemma {:induction false} FirstReplyAnswers(d: Desk, frames: seq<Framing.Frame>, s: Seq, k: nat)
    requires s in d.pending && d.pending[s].reply.Some?
    requires k < |frames| && frames[k].seqNo == s && forall j :: 0 <= j < k ==> frames[j].seqNo != s
    ensures var status := StatusOf(frames[k]);
            && (status == 0 ==> Answer(d.pending[s].reply.value, Ok) in AfterFrames(d, frames).answers)
            && (status != 0 && status != STATUS_LEASE_LOST ==>
                  Answer(d.pending[s].reply.value, Failed(Status(status))) in AfterFrames(d, frames).answers)
    decreases |frames|
  {
    var n := |frames| - 1;
    if k < n {
      FirstReplyAnswers(d, frames[..n], s, k);
    } else {
      UnansweredStays(d, frames[..n], s);
    }
  }

  /** Behind a LEASE that was refused, a lost lease is explained by that refusal. */
  lemma RefusalExplains(d: Desk, lease: Framing.Frame, f: Framing.Frame)
    requires lease.seqNo in d.pending && LeaseReply(lease) && StatusOf(lease) != 0
    requires f.seqNo in d.pending && f.seqNo != lease.seqNo && d.pending[f.seqNo].reply.Some?
    requires StatusOf(f) == STATUS_LEASE_LOST && !LeaseReply(f)
    ensures var after := AfterReply(AfterReply(d, lease), f);
            && after.leasedAt == None
            && after.answers == AfterReply(d, lease).answers +
                                [Answer(d.pending[f.seqNo].reply.value, Failed(Status(StatusOf(lease))))]
  {
  }

  // ----- the pending table, call by call -----

  /** The table with what it takes to tell when a number comes round. */
  datatype Table = Table(pending: map<Seq, Pending>, serialOf: map<Seq, nat>, numbered: nat, lost: set<Ticket>)

  /** `p` was sent under `s` and waits, in place of whoever waited for the frame that had the number before. */
  ghost predicate Joined(a: Table, b: Table, s: Seq, p: Pending) {
    && b.pending == a.pending[s := p]
    && b.serialOf == a.serialOf[s := a.numbered + 1] && b.numbered == a.numbered + 1
    && b.lost == a.lost + (if s in a.pending && a.pending[s].reply.Some? then {a.pending[s].reply.value} else {})
    && (s in a.pending ==> s in a.serialOf && a.numbered + 1 >= a.serialOf[s] + 0x1_0000)
  }

  /** A frame was sent under `s`; it waits if the channel took it. */
  ghost predicate Asked(a: Table, b: Table, s: Seq, p: Pending, taken: bool) {
    if taken then Joined(a, b, s, p) else b == a.(numbered := a.numbered + 1)
  }

  function SlotOf(p: Pending, serial: nat): Slot
    requires p.reply.Some?
  {
    Slot(p.reply.value, serial, p.deadline)
  }

  ghost function Slots(pending: map<Seq, Pending>, serialOf: map<Seq, nat>): map<Seq, Slot> {
    map s | s in pending && s in serialOf && pending[s].reply.Some? :: SlotOf(pending[s], serialOf[s])
  }

  /** The tickets waiting, and those that were forgotten. */
  ghost function StandingOf(t: Table): Standing {
    Standing(Slots(t.pending, t.serialOf), t.numbered, t.lost)
  }

  lemma AskingFollows(a: Table, b: Table, s: Seq, p: Pending, taken: bool)
    requires Asked(a, b, s, p, taken)
    ensures Follows(StandingOf(a), StandingOf(b), 1, if p.reply.Some? then Some(SlotOf(p, b.numbered)) else None)
  {
    if taken && s in a.pending && a.pending[s].reply.Some? {
      assert Slots(a.pending, a.serialOf)[s].ticket == a.pending[s].reply.value;
      assert Outnumbered(Slots(a.pending, a.serialOf), a.pending[s].reply.value, b.numbered);
    }
  }

  /** Entries that leave the table take no ticket with them. */
  lemma LeavingFollows(a: Table, b: Table)
    requires b == a.(pending := b.pending)
    requires forall s :: s in b.pending ==> s in a.pending && b.pending[s] == a.pending[s]
    ensures Follows(StandingOf(a), StandingOf(b), 0, None)
  {
  }

  lemma {:induction false} RepliesOnlyRemove(d: Desk, frames: seq<Framing.Frame>)
    ensures var after := AfterFrames(d, frames);
            forall s :: s in after.pending ==> s in d.pending && after.pending[s] == d.pending[s]
    decreases |frames|
  {
    if frames != [] {
      RepliesOnlyRemove(d, frames[..|frames| - 1]);
    }
  }

  lemma {:induction false} ReadsOnlyRemove(d: Desk, received: seq<Read>)
    ensures var after := AfterReads(d, received);
            forall s :: s in after.pending ==> s in d.pending && after.pending[s] == d.pending[s]
    decreases |received|
  {
    if received != [] && received[0].Got? {
      RepliesOnlyRemove(d, received[0].frames);
      ReadsOnlyRemove(AfterFrames(d, received[0].frames), received[1..]);
    }
  }

  /** The table once `p` waits under `s`. */
  function With(a: Table, s: Seq, p: Pending): Table {
    Table(a.pending[s := p], a.serialOf[s := a.numbered + 1], a.numbered + 1,
          a.lost + if s in a.pending && a.pending[s].reply.Some? then {a.pending[s].reply.value} else {})
  }

  /** What the channel takes of a LEASE that is sent under `s` unless the lease is held. */
  function Granted(token: Id, s: Seq, leased: bool, lease: Outcome): seq<Mark> {
    if !leased && lease.Taken? then [Sent(FrameFor(token, None, s))] else []
  }

  function Gone(f: Framing.Frame, outcome: Outcome): seq<Mark> {
    if outcome.Taken? then [Sent(f)] else []
  }

  /** What `reply` is told at once of a frame the channel did not take. */
  function Refusal(reply: Ticket, outcome: Outcome): seq<Answer<Result>> {
    match outcome
    case Taken => []
    case Full => [Answer(reply, Failed(ChannelFull))]
    case Broken => [Answer(reply, Failed(ChannelFault))]
  }

  /** The lease is held, or a LEASE was sent under `s`, and waits if it was `granted`. */
  ghost predicate Secured(a: Table, b: Table, s: Seq, leased: bool, granted: bool, now: nat) {
    if leased then b == a else Asked(a, b, s, Pending(None, now + REPLY_TIMEOUT), granted)
  }

  /** But for what left the table since, a due renewal was sent under `s`, and waited if it was `granted`. */
  ghost predicate Charged(a: Table, b: Table, s: Seq, now: nat, granted: bool) {
    var lease := Pending(None, now + REPLY_TIMEOUT);
    if granted then Joined(a, With(a, s, lease), s, lease) && b == With(a, s, lease).(pending := b.pending)
    else a.numbered <= b.numbered <= a.numbered + 1 && b == a.(pending := b.pending, numbered := b.numbered)
  }

  /** The desk before a poll reads: a renewal that was taken waits. */
  function Started(d: Desk, token: Id, s: Seq, now: nat, granted: bool): Desk {
    if granted then Renewed(d, token, s, now) else d
  }

  /** The desk once a poll has read, if anything waited. */
  function Gathered(d: Desk, received: seq<Read>): Desk {
    if d.pending == map[] then d else AfterReads(d, received)
  }

  lemma SubmitIsCall(
      a: Table, mid: Table, b: Table, s: Seq, q: Seq, leased: bool, granted: bool, now: nat, limit: nat, reply: Ticket,
      taken: bool)
    requires Secured(a, mid, s, leased, granted, now)
    requires if leased || granted then Asked(mid, b, q, Pending(Some(reply), now + limit), taken) else b == mid
    ensures Called(Beat(now, 2, false, Some(limit)), reply, StandingOf(a), StandingOf(b))
  {
    var p, lease := Pending(Some(reply), now + limit), Pending(None, now + REPLY_TIMEOUT);
    if !leased {
      AskingFollows(a, mid, s, lease, granted);
    }
    if leased || granted {
      AskingFollows(mid, b, q, p, taken);
      FollowsTwice(StandingOf(a), StandingOf(mid), StandingOf(b), 1, 1, Some(SlotOf(p, b.numbered)));
    }
  }

  lemma PollIsCall(a: Table, b: Table, d: Desk, token: Id, s: Seq, now: nat, granted: bool, received: seq<Read>,
                   ticket: Ticket)
    requires Charged(a, b, s, now, granted) && d.pending == a.pending
    requires b.pending == Unexpired(Gathered(Started(d, token, s, now, granted), received).pending, now)
    ensures Called(Beat(now, 1, true, None), ticket, StandingOf(a), StandingOf(b))
  {
    var lease := Pending(None, now + REPLY_TIMEOUT);
    ReadsOnlyRemove(Started(d, token, s, now, granted), received);
    if granted {
      var start := With(a, s, lease);
      AskingFollows(a, start, s, lease, true);
      LeavingFollows(start, b);
      FollowsTwice(StandingOf(a), StandingOf(start), StandingOf(b), 1, 0, None);
    } else {
      LeavingFollows(a.(numbered := b.numbered), b);
    }
  }

  class RttTuning {
    const token: Id
    var seqNo: Seq
    /** The time of the newest LEASE that was written, unless the lease has ended since. */
    var leasedAt: Option<nat>
    /** The status of a refused LEASE, reported in place of the ones it caused. */
    var leaseRefused: Option<byte>
    var pending: map<Seq, Pending>

    /** What every ticket has been told so far, and which were never told. */
    ghost var answers: seq<Answer<Result>>
    ghost var issued: nat
    ghost var asked: bool
    ghost var lost: set<Ticket>
    /** What went over the channel. */
    ghost var trace: seq<Mark>
    /** Frames numbered so far, and which one each number last stood for. */
    ghost var numbered: nat
    ghost var serialOf: map<Seq, nat>

    ghost function State(): Desk
      reads this`pending, this`leasedAt, this`leaseRefused, this`answers, this`trace
    {
      Desk(pending, leasedAt, leaseRefused, answers, trace)
    }

    ghost function Accounts(): Book
      reads this`issued, this`pending, this`answers, this`lost
    {
      Book(issued, Waiting(pending), Tickets(answers), lost)
    }

    ghost function Entries(): Table
      reads this`pending, this`serialOf, this`numbered, this`lost
    {
      Table(pending, serialOf, numbered, lost)
    }

    ghost predicate Orderly()
      reads this`trace
    {
      Disciplined(trace) && WithToken(trace, token)
    }

    ghost predicate Leases()
      reads this`trace, this`leasedAt, this`asked
    {
      Orderly() && (leasedAt.Some? <==> Held(trace)) && (!asked ==> Silent(trace) && leasedAt.None?)
    }

    ghost predicate Numbers()
      reads this`seqNo, this`numbered, this`pending, this`serialOf, this`lost
    {
      && seqNo == numbered % 0x1_0000
      && (forall s :: s in pending ==> s in serialOf && serialOf[s] <= numbered && serialOf[s] % 0x1_0000 == s)
      && (numbered < 0x1_0000 ==> lost == {})
    }

    ghost predicate Valid()
      reads this
    {
      Balanced(Accounts()) && Leases() && Numbers()
    }

    constructor (token: Id)
      ensures Valid() && issued == 0 && answers == [] && trace == [] && pending == map[] && leasedAt == None
      ensures this.token == token && numbered == 0 && lost == {}
    {
      this.token, seqNo, leasedAt, leaseRefused, pending := token, 0, None, None, map[];
      answers, issued, asked, lost, trace, numbered, serialOf := [], 0, false, {}, [], 0, map[];
      new;
      assert Tickets(answers) == [] && Waiting(map[]) == map[];
      assert Everyone(0) == {};
    }

    /** Forget the entry `lost` names, if any: its number is issued again. */
    ghost method Wait(s: Seq, p: Pending)
      requires Balanced(Accounts()) && Numbers() && s == seqNo && (s in pending ==> serialOf[s] < numbered)
      requires p.reply.Some? ==> p.reply.value == issued
      modifies this`issued, this`lost, this`serialOf
      ensures issued == old(issued) + (if p.reply.Some? then 1 else 0)
      ensures lost == old(lost) + Dropped(old(Accounts()), s) && serialOf == old(serialOf)[s := numbered]
      ensures Balanced(Book(issued, Waiting(pending[s := p]), Tickets(answers), lost))
      ensures s in pending ==> s in old(serialOf) && numbered >= old(serialOf)[s] + 0x1_0000
    {
      var b := Accounts();
      WaitingWith(pending, s, p);
      if p.reply.Some? {
        AcceptedBalances(b, s);
        issued := issued + 1;
      } else {
        UnattendedBalances(b, s);
      }
      if s in pending {
        SameNumber(serialOf[s], numbered);
      }
      lost, serialOf := lost + Dropped(b, s), serialOf[s := numbered];
    }

    /** Enter the request just sent into the table. */
    method Await(p: Pending)
      requires Balanced(Accounts()) && Numbers() && numbered > 0 && forall s :: s in pending ==> serialOf[s] < numbered
      requires p.reply.Some? ==> p.reply.value == issued
      modifies this`pending, this`issued, this`lost, this`serialOf
      ensures Balanced(Accounts()) && Numbers() && issued == old(issued) + (if p.reply.Some? then 1 else 0)
      ensures Joined(old(Entries()).(numbered := numbered - 1), Entries(), seqNo, p)
    {
      Wait(seqNo, p);
      pending := pending[seqNo := p];
    }

    /**
     Send `request`, or a LEASE, and have its reply wait; a frame the channel does not take leaves no trace. A ticket is
     lost only when its number comes round again, 65536 frames or more after its own.
     */
    method Send(now: nat, request: Option<Request>, reply: Option<Ticket>, outcome: Outcome) returns (r: Result)
      requires Balanced(Accounts()) && Orderly() && Numbers() && (request.Some? ==> Held(trace))
      requires reply == if request.Some? then Some(issued) else None
      modifies this`seqNo, this`numbered, this`pending, this`issued, this`lost, this`serialOf, this`trace
      ensures Balanced(Accounts()) && Orderly() && Numbers()
      ensures seqNo == Next(old(seqNo)) && numbered == old(numbered) + 1
      ensures r == (if outcome.Taken? then Ok else if outcome.Full? then Failed(ChannelFull) else Failed(ChannelFault))
      ensures outcome.Taken? ==>
                && trace == old(trace) + [Sent(FrameFor(token, request, seqNo))] && Held(trace)
                && issued == old(issued) + (if request.Some? then 1 else 0)
      ensures !outcome.Taken? ==> trace == old(trace) && issued == old(issued)
      ensures Asked(old(Entries()), Entries(), seqNo, Pending(reply, now + TimeoutOf(request)), outcome.Taken?)
    {
      seqNo, numbered := Next(seqNo), numbered + 1;
      var frame := FrameFor(token, request, seqNo);
      match outcome
      case Taken =>
        var p := Pending(reply, now + TimeoutOf(request));
        Await(p);
        Record(Sent(frame));
        r := Ok;
      case Full =>
        r := Failed(ChannelFull);
      case Broken =>
        r := Failed(ChannelFault);
    }

    /** Ask for the lease, or renew it. */
    method Lease(now: nat, outcome: Outcome) returns (r: Result)
      requires Valid() && (leasedAt.Some? || asked)
      modifies this`seqNo, this`numbered, this`pending, this`issued, this`lost, this`serialOf, this`trace, this`leasedAt
      ensures Valid() && issued == old(issued) && seqNo == Next(old(seqNo)) && numbered == old(numbered) + 1
      ensures r == (if outcome.Taken? then Ok else if outcome.Full? then Failed(ChannelFull) else Failed(ChannelFault))
      ensures outcome.Taken? ==>
                leasedAt == Some(now) && trace == old(trace) + [Sent(FrameFor(token, None, seqNo))]
      ensures !outcome.Taken? ==> leasedAt == old(leasedAt) && trace == old(trace)
      ensures Asked(old(Entries()), Entries(), seqNo, Pending(None, now + REPLY_TIMEOUT), outcome.Taken?)
    {
      r := Send(now, None, None, outcome);
      if r == Ok {
        leasedAt := Some(now);
      }
    }

    /** Answer the ticket of a request that could not be sent. */
    ghost method Refuse(ticket: Ticket, why: Why)
      requires Balanced(Accounts()) && ticket == issued
      modifies this`answers, this`issued
      ensures Balanced(Accounts()) && issued == old(issued) + 1
      ensures answers == old(answers) + [Answer(ticket, Failed(why))]
    {
      RefusedBalances(Accounts());
      TicketsNext(answers, Answer(ticket, Failed(why)));
      answers, issued := answers + [Answer(ticket, Failed(why))], issued + 1;
    }

    /** Send `request` under the lease; `reply` is answered at once if it cannot go. */
    method SendRequest(now: nat, request: Request, reply: Ticket, outcome: Outcome)
      requires Valid() && leasedAt.Some? && reply == issued && asked
      modifies this`seqNo, this`numbered, this`pending, this`issued, this`lost, this`serialOf, this`trace, this`answers
      ensures Valid() && issued == old(issued) + 1 && numbered == old(numbered) + 1
      ensures trace == old(trace) + Gone(RequestFrame(token, request, seqNo), outcome)
      ensures answers == old(answers) + Refusal(reply, outcome)
      ensures Asked(old(Entries()), Entries(), seqNo, Pending(Some(reply), now + Timeout(request)), outcome.Taken?)
    {
      var r := Send(now, Some(request), Some(reply), outcome);
      if r.Failed? {
        Refuse(reply, r.why);
      }
    }

    /** Send `request`, behind a LEASE if none is held; `reply` is told at once of a frame that cannot go. */
    method Submit(now: nat, request: Request, reply: Ticket, lease: Outcome, outcome: Outcome)
      returns (ghost mid: Table)
      requires Valid() && reply == issued
      modifies this`seqNo, this`numbered, this`pending, this`issued, this`lost, this`serialOf, this`trace, this`leasedAt
      modifies this`answers, this`asked
      ensures Valid() && issued == old(issued) + 1 && asked
      ensures if old(leasedAt).Some? || lease.Taken? then
                && trace == old(trace) + Granted(token, Next(old(seqNo)), old(leasedAt).Some?, lease) +
                            Gone(RequestFrame(token, request, seqNo), outcome)
                && answers == old(answers) + Refusal(reply, outcome)
              else trace == old(trace) && answers == old(answers) + Refusal(reply, lease)
      ensures Secured(old(Entries()), mid, Next(old(seqNo)), old(leasedAt).Some?, lease.Taken?, now)
      ensures if old(leasedAt).Some? || lease.Taken?
              then Asked(mid, Entries(), seqNo, Pending(Some(reply), now + Timeout(request)), outcome.Taken?)
              else Entries() == mid
    {
      Begin();
      var held := Secure(now, reply, lease);
      mid := Entries();
      if held {
        SendRequest(now, request, reply, outcome);
      }
    }

    /** From the first request on, the lease is renewed. */
    ghost method Begin()
      requires Valid()
      modifies this`asked
      ensures Valid() && asked
    {
      asked := true;
    }

    /** Ask for the lease unless it is held; `reply` is answered at once if the LEASE cannot go. */
    method Secure(now: nat, reply: Ticket, lease: Outcome) returns (held: bool)
      requires Valid() && reply == issued && asked
      modifies this`seqNo, this`numbered, this`pending, this`issued, this`lost, this`serialOf, this`trace, this`leasedAt
      modifies this`answers
      ensures Valid() && held == (old(leasedAt).Some? || lease.Taken?) && (held ==> leasedAt.Some?)
      ensures issued == old(issued) + if held then 0 else 1
      ensures answers == old(answers) + if held then [] else Refusal(reply, lease)
      ensures Secured(old(Entries()), Entries(), Next(old(seqNo)), old(leasedAt).Some?, lease.Taken?, now)
      ensures trace == if held then old(trace) + Granted(token, Next(old(seqNo)), old(leasedAt).Some?, lease)
                       else old(trace)
    {
      held := true;
      if leasedAt.None? {
        var r := Lease(now, lease);
        if r.Failed? {
          Refuse(reply, r.why);
          held := false;
        }
      }
    }

    /** Answer whoever waits under `s`, and forget the request. */
    method Finish(s: Seq, result: Result) returns (finished: bool)
      requires Balanced(Accounts()) && Numbers() && s in pending
      modifies this`pending, this`answers
      ensures Balanced(Accounts()) && Numbers() && pending == old(pending) - {s}
      ensures finished == old(pending)[s].reply.Some?
      ensures answers == old(answers) + if finished then [Answer(old(pending)[s].reply.value, result)] else []
    {
      WaitingWithout(pending, s);
      AnsweredBalances(Accounts(), s);
      finished := pending[s].reply.Some?;
      if finished {
        TicketsNext(answers, Answer(pending[s].reply.value, result));
        answers := answers + [Answer(pending[s].reply.value, result)];
      } else {
        assert Waiting(pending) - {s} == Waiting(pending);
      }
      pending := pending - {s};
    }

    /** What a reply says of the lease: refused or granted, and whether to ask again next time. */
    method NoteLease(f: Framing.Frame, status: byte)
      requires Orderly() && (leasedAt.Some? <==> Held(trace)) && (!asked ==> Silent(trace) && leasedAt.None?)
      requires status == StatusOf(f)
      modifies this`leasedAt, this`leaseRefused, this`trace
      ensures Orderly() && (leasedAt.Some? <==> Held(trace)) && (!asked ==> Silent(trace) && leasedAt.None?)
      ensures leaseRefused == (if !LeaseReply(f) then old(leaseRefused) else if status == 0 then None else Some(status))
      ensures leasedAt == (if LosesLease(f) then None else old(leasedAt))
      ensures trace == old(trace) + [Heard(f)]
    {
      Record(Heard(f));
      if LeaseReply(f) {
        leaseRefused := if status != 0 then Some(status) else None;
      }
      if status == STATUS_LEASE_LOST || (LeaseReply(f) && status != 0) {
        leasedAt := None;
      }
    }

    /** Take in one frame. */
    method OnReply(f: Framing.Frame) returns (finished: bool, error: Option<Why>)
      requires Valid() && f.seqNo < 0x1_0000
      modifies this`pending, this`answers, this`leasedAt, this`leaseRefused, this`trace
      ensures Valid() && State() == AfterReply(old(State()), f)
      ensures finished <==> f.seqNo in old(pending) && old(pending)[f.seqNo].reply.Some?
      ensures error.Some? ==> f.seqNo in old(pending) && Failed(error.value) == ResultOf(StatusOf(f), leaseRefused)
    {
      finished, error := false, None;
      if f.seqNo !in pending {
        return;
      }
      var status := StatusOf(f);
      NoteLease(f, status);
      var result := ResultOf(status, leaseRefused);
      finished := Finish(f.seqNo, result);
      if !finished && result.Failed? {
        error := Some(result.why);
      }
    }

    /** Take in the frames of one read, in order. */
    method OnFrames(frames: seq<Framing.Frame>, error: Option<Why>) returns (finished: bool, last: Option<Why>)
      requires Valid() && forall k :: 0 <= k < |frames| ==> frames[k].seqNo < 0x1_0000
      modifies this`pending, this`answers, this`leasedAt, this`leaseRefused, this`trace
      ensures Valid() && State() == AfterFrames(old(State()), frames)
      ensures |answers| >= |old(answers)| && (finished <==> |answers| > |old(answers)|)
    {
      finished, last := false, error;
      for k := 0 to |frames|
        invariant Valid() && State() == AfterFrames(old(State()), frames[..k])
        invariant |answers| >= |old(answers)| && (finished <==> |answers| > |old(answers)|)
      {
        assert frames[..k + 1][..k] == frames[..k];
        var done, why := OnReply(frames[k]);
        finished := finished || done;
        if why.Some? {
          last := why;
        }
      }
      assert frames[..|frames|] == frames;
    }

    /** Read the channel until a read leaves room in the buffer, or fails. */
    method Collect(received: seq<Read>, error: Option<Why>) returns (finished: bool, last: Option<Why>)
      requires Valid() && forall k :: 0 <= k < |received| ==> Numbered(received[k])
      modifies this`pending, this`answers, this`leasedAt, this`leaseRefused, this`trace
      ensures Valid() && State() == AfterReads(old(State()), received)
      ensures |answers| >= |old(answers)| && (finished <==> |answers| > |old(answers)|)
    {
      finished, last := false, error;
      for k := 0 to |received|
        invariant Valid() && AfterReads(State(), received[k..]) == AfterReads(old(State()), received)
        invariant |answers| >= |old(answers)| && (finished <==> |answers| > |old(answers)|)
      {
        assert received[k..][0] == received[k] && received[k..][1..] == received[k + 1..];
        if received[k].Fault? {
          last := Some(ChannelFault);
          return;
        }
        assert Numbered(received[k]);
        var done, why := OnFrames(received[k].frames, last);
        finished, last := finished || done, why;
        if !received[k].full {
          return;
        }
      }
      assert received[|received|..] == [];
    }

    /** Read the channel if anything waits for it. */
    method Gather(received: seq<Read>, error: Option<Why>) returns (finished: bool, last: Option<Why>)
      requires Valid() && forall k :: 0 <= k < |received| ==> Numbered(received[k])
      modifies this`pending, this`answers, this`leasedAt, this`leaseRefused, this`trace
      ensures Valid() && State() == Gathered(old(State()), received)
      ensures |answers| >= |old(answers)| && (finished <==> |answers| > |old(answers)|)
    {
      finished, last := false, error;
      if pending != map[] {
        finished, last := Collect(received, error);
      }
    }

    /** Answer every request whose deadline has passed. */
    method Expire(now: nat) returns (finished: bool)
      requires Valid()
      modifies this`pending, this`answers
      ensures Valid()
      ensures pending == Unexpired(old(pending), now)
      ensures Told(old(answers), answers, Failed(Late)) && (finished <==> |answers| > |old(answers)|)
    {
      finished := false;
      var late := set s | s in pending && now > pending[s].deadline;
      while late != {}
        invariant Valid() && late <= pending.Keys <= old(pending).Keys
        invariant forall s :: s in old(pending) ==>
                    (s in pending <==> s in late || now <= old(pending)[s].deadline)
        invariant forall s :: s in pending ==> pending[s] == old(pending)[s]
        invariant forall s :: s in late ==> now > old(pending)[s].deadline
        invariant Told(old(answers), answers, Failed(Late)) && (finished <==> |answers| > |old(answers)|)
        decreases late
      {
        var s :| s in late;
        late := late - {s};
        var done := Finish(s, Failed(Late));
        finished := finished || done;
      }
    }

    /** Renew the lease when it was last asked for a renewal period ago. */
    method Renew(now: nat, lease: Outcome) returns (error: Option<Why>)
      requires Valid()
      modifies this`seqNo, this`numbered, this`pending, this`issued, this`lost, this`serialOf, this`trace, this`leasedAt
      ensures Valid() && issued == old(issued)
      ensures if RenewalDue(old(leasedAt), now) && lease.Taken? then
                State() == Renewed(old(State()), token, Next(old(seqNo)), now)
              else State() == old(State())
      ensures Charged(old(Entries()), Entries(), Next(old(seqNo)), now, RenewalDue(old(leasedAt), now) && lease.Taken?)
    {
      error := None;
      if leasedAt.Some? && Since(now, leasedAt.value) >= LEASE_RENEW {
        var r := Lease(now, lease);
        if r.Failed? {
          error := Some(r.why);
        }
      }
    }

    /**
     One round: the renewal if its time has come, the replies that came in, the overdue requests. Nothing waits past
     its deadline afterwards, and nothing goes out but the renewal.
     */
    method Poll(now: nat, lease: Outcome, received: seq<Read>) returns (finished: bool, error: Option<Why>)
      requires Valid() && forall k :: 0 <= k < |received| ==> Numbered(received[k])
      modifies this`seqNo, this`numbered, this`pending, this`issued, this`lost, this`serialOf, this`trace, this`leasedAt
      modifies this`leaseRefused, this`answers
      ensures Valid() && issued == old(issued) && asked == old(asked)
      ensures var granted := RenewalDue(old(leasedAt), now) && lease.Taken?;
              var read := Gathered(Started(old(State()), token, Next(old(seqNo)), now, granted), received);
              && pending == Unexpired(read.pending, now)
              && leasedAt == read.leasedAt && leaseRefused == read.leaseRefused && trace == read.trace
              && Told(read.answers, answers, Failed(Late))
      ensures finished <==> |answers| > |old(answers)|
      ensures Charged(old(Entries()), Entries(), Next(old(seqNo)), now, RenewalDue(old(leasedAt), now) && lease.Taken?)
    {
      error := Renew(now, lease);
      finished, error := Gather(received, error);
      var late := Expire(now);
      finished := finished || late;
    }

    /** Note what happened on the channel. */
    ghost method Record(m: Mark)
      requires Orderly() && (m.Sent? ==> ToLE(token, 4) <= m.frame.payload)
      requires m.Sent? && NeedsLease(m.frame.cmd) ==> Held(trace)
      modifies this`trace
      ensures Orderly() && trace == old(trace) + [m]
      ensures Held(trace) == ((m.Sent? && m.frame.cmd == LEASE) || (!EndsLease(m) && Held(old(trace))))
    {
      DisciplinedNext(trace, m);
      WithTokenNext(trace, token, m);
      trace := trace + [m];
    }

    method GiveUp(outcome: Outcome)
      requires Numbers() && Orderly() && Held(trace)
      modifies this`seqNo, this`numbered, this`trace
      ensures Numbers() && Orderly()
      ensures trace == old(trace) + if outcome.Taken? then [Sent(ReleaseFrame(token, seqNo))] else []
    {
      seqNo, numbered := Next(seqNo), numbered + 1;
      if outcome.Taken? {
        Record(Sent(ReleaseFrame(token, seqNo)));
      }
    }

    /** Give the lease up, telling the firmware when its memory can still be reached. */
    method Release(memory: Option<Outcome>)
      requires Valid()
      modifies this`seqNo, this`numbered, this`trace, this`leasedAt
      ensures Valid() && leasedAt == None
      ensures trace == old(trace) + (if memory == Some(Taken) && old(leasedAt).Some?
                                     then [Sent(ReleaseFrame(token, seqNo))] else []) + [Closed]
    {
      if memory.Some? && leasedAt.Some? {
        GiveUp(memory.value);
      }
      Record(Closed);
      leasedAt := None;
    }

    /** Fail whatever is still waiting. */
    method Drain()
      requires Valid()
      modifies this`pending, this`answers
      ensures Valid() && pending == map[] && Told(old(answers), answers, Failed(SessionClosed))
    {
      while pending != map[]
        invariant Valid() && Told(old(answers), answers, Failed(SessionClosed))
        decreases pending.Keys
      {
        var s :| s in pending;
        var done := Finish(s, Failed(SessionClosed));
      }
    }

    /** The end of the session: the lease goes back, and everyone still waiting is told. */
    method Close(memory: Option<Outcome>)
      requires Valid()
      modifies this
      ensures Valid() && pending == map[] && leasedAt == None && issued == old(issued) && lost == old(lost)
      ensures Told(old(answers), answers, Failed(SessionClosed))
      ensures trace == old(trace) + (if memory == Some(Taken) && old(leasedAt).Some?
                                     then [Sent(ReleaseFrame(token, seqNo))] else []) + [Closed]
    {
      Release(memory);
      Drain();
    }
  }

  // ----- whole sessions -----

  datatype Call = Submit(now: nat, request: Request, lease: Outcome, outcome: Outcome)
                | Poll(now: nat, lease: Outcome, received: seq<Read>)

  ghost predicate Possible(c: Call) {
    c.Poll? ==> forall k :: 0 <= k < |c.received| ==> Numbered(c.received[k])
  }

  /** What a call is to the waiting requests. */
  function BeatOf(c: Call): Beat {
    match c
    case Submit(now, request, _, _) => Beat(now, 2, false, Some(Timeout(request)))
    case Poll(now, _, _) => Beat(now, 1, true, None)
  }

  function Beats(calls: seq<Call>): (beats: seq<Beat>)
    ensures |beats| == |calls|
    ensures forall k :: 0 <= k < |calls| ==> beats[k] == BeatOf(calls[k])
  {
    seq(|calls|, k requires 0 <= k < |calls| => BeatOf(calls[k]))
  }

  /** One call of a session. */
  method Make(t: RttTuning, c: Call, ticket: Ticket) returns (next: Ticket)
    requires t.Valid() && Possible(c) && ticket == t.issued
    modifies t
    ensures t.Valid() && next == t.issued == ticket + if c.Submit? then 1 else 0
    ensures Called(BeatOf(c), ticket, old(StandingOf(t.Entries())), StandingOf(t.Entries()))
  {
    match c {
      case Submit(_, _, _, _) =>
        MakeSubmit(t, c, ticket);
        next := ticket + 1;
      case Poll(_, _, _) =>
        MakePoll(t, c, ticket);
        next := ticket;
    }
  }

  method MakeSubmit(t: RttTuning, c: Call, ticket: Ticket)
    requires t.Valid() && c.Submit? && ticket == t.issued
    modifies t
    ensures t.Valid() && t.issued == ticket + 1
    ensures Called(BeatOf(c), ticket, old(StandingOf(t.Entries())), StandingOf(t.Entries()))
  {
    ghost var before, s, leased := t.Entries(), Next(t.seqNo), t.leasedAt.Some?;
    ghost var mid := t.Submit(c.now, c.request, ticket, c.lease, c.outcome);
    SubmitIsCall(before, mid, t.Entries(), s, t.seqNo, leased, c.lease.Taken?, c.now, Timeout(c.request), ticket,
                 c.outcome.Taken?);
  }

  method MakePoll(t: RttTuning, c: Call, ticket: Ticket)
    requires t.Valid() && c.Poll? && Possible(c)
    modifies t
    ensures t.Valid() && t.issued == old(t.issued)
    ensures Called(BeatOf(c), ticket, old(StandingOf(t.Entries())), StandingOf(t.Entries()))
  {
    ghost var before, d, s := t.Entries(), t.State(), Next(t.seqNo);
    ghost var granted := RenewalDue(t.leasedAt, c.now) && c.lease.Taken?;
    var finished, error := t.Poll(c.now, c.lease, c.received);
    PollIsCall(before, t.Entries(), d, t.token, s, c.now, granted, c.received, ticket);
  }

  /**
   Any run of requests and polls that ends in a close: every request was answered once and only once, unless its number
   came round while it waited, unswept, in calls of the run; in a run paced so that none can, every request was. Every
   request went out under the lease.
   */
  method Session(token: Id, calls: seq<Call>, memory: Option<Outcome>) returns (t: RttTuning)
    requires forall k :: 0 <= k < |calls| ==> Possible(calls[k])
    ensures fresh(t) && t.Valid() && t.token == token && t.issued == Requests(Beats(calls), |calls|)
    ensures forall ticket: Ticket ::
              multiset(Tickets(t.answers))[ticket] == if ticket < t.issued && ticket !in t.lost then 1 else 0
    ensures forall ticket :: ticket in t.lost ==> WasOvertaken(Beats(calls), ticket)
    ensures Paced(Beats(calls)) ==> t.lost == {}
    ensures AlwaysLeased(t.trace, token)
  {
    t := new RttTuning(token);
    Calls(t, calls);
    t.Close(memory);
    PacedIff(Beats(calls));
    EveryRequestIsLeased(t.trace, token);
    EachAnsweredOnce(t.Accounts());
  }

  /** The calls, one by one. */
  method Calls(t: RttTuning, calls: seq<Call>)
    requires t.Valid() && t.issued == 0 && Tracked(Beats(calls), 0, StandingOf(t.Entries()))
    requires forall k :: 0 <= k < |calls| ==> Possible(calls[k])
    modifies t
    ensures t.Valid() && t.issued == Requests(Beats(calls), |calls|)
    ensures Tracked(Beats(calls), |calls|, StandingOf(t.Entries()))
  {
    var next: Ticket := 0;
    for k := 0 to |calls|
      invariant t.Valid() && OnTrack(calls, k, next, t.issued, t.Entries())
    {
      next := TakeUp(t, calls, k, next);
    }
  }

  /** Where a run stands after `k` calls. */
  ghost predicate OnTrack(calls: seq<Call>, k: nat, next: Ticket, issued: nat, entries: Table)
    requires k <= |calls|
  {
    next == issued == Requests(Beats(calls), k) && Tracked(Beats(calls), k, StandingOf(entries))
  }

  /** One call of a run. */
  method TakeUp(t: RttTuning, calls: seq<Call>, k: nat, ticket: Ticket) returns (next: Ticket)
    requires t.Valid() && k < |calls| && Possible(calls[k]) && OnTrack(calls, k, ticket, t.issued, t.Entries())
    modifies t
    ensures t.Valid() && OnTrack(calls, k + 1, next, t.issued, t.Entries())
  {
    ghost var before := StandingOf(t.Entries());
    next := Make(t, calls[k], ticket);
    CallIsTracked(Beats(calls), k, before, StandingOf(t.Entries()));
  }
}
