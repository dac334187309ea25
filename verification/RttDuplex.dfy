/** Both directions of a channel pair, attached to when the control block is found. */
module RttDuplex {
  import opened Bytes
  import opened Common
  import opened Rtt
  import opened RttHost

  /** Nanoseconds between two looks for the control block. */
  const RETRY := 500_000_000

  /** What looking for the two channels in the control block gave; the parsing itself is not modelled. */
  datatype Search = SearchFailed | Missing | Found

  datatype Attached = AttachFailed | Attach(found: bool)

  /** `None` for a memory error. */
  type Outcome<T> = Option<T>

  class Duplex {
    const target: Target
    var attached: bool
    var lastTry: Option<nat>

    constructor (target: Target)
      ensures this.target == target && !attached && lastTry == None
    {
      this.target := target;
      attached, lastTry := false, None;
    }

    /** Search for the channels until they are found, with `RETRY` or more between two searches. */
    method Attach(now: nat, search: Search) returns (r: Attached, looked: bool)
      modifies this
      ensures looked <==> !old(attached) && (old(lastTry).Some? ==> now >= old(lastTry).value + 500_000_000)
      ensures lastTry == if looked then Some(now) else old(lastTry)
      ensures attached <==> old(attached) || (looked && search.Found?)
      ensures r == if looked && search.SearchFailed? then AttachFailed else Attached.Attach(attached)
    {
      looked := false;
      if attached {
        return Attached.Attach(true), looked;
      }
      if lastTry.Some? && Since(now, lastTry.value) < RETRY {
        return Attached.Attach(false), looked;
      }
      lastTry, looked := Some(now), true;
      match search
      case SearchFailed => r := AttachFailed;
      case Missing => r := Attached.Attach(false);
      case Found =>
        attached := true;
        r := Attached.Attach(true);
    }

    /**
     Copy pending up-channel bytes; none when detached. From an attached channel come the next published bytes, up to
     `cap` or to what was published at `seen`, which counts no less than was published before the call. Only a failed
     access makes it fail, and bad offsets, which only a reset firmware leaves, detach.
     */
    method Read(cap: nat) returns (r: Outcome<seq<byte>>, ghost seen: nat)
      requires target.Valid()
      modifies this, target
      ensures target.Valid()
      ensures !old(attached) ==> r == Some([]) && !attached && target.sys == old(target.sys)
      ensures target.Faults() == old(target.Faults()) + if r == None then 1 else 0
      ensures target.sys.intact ==>
                && old(target.sys.intact) && old(target.sys.pushed) <= target.sys.pushed
                && attached == old(attached)
                && target.sys.writes == old(target.sys.writes)
                && target.sys.received == old(target.sys.received) + (if r.Some? then r.value else [])
                && (attached && r.Some? ==>
                      && old(|target.sys.pushed|) <= seen <= |target.sys.pushed|
                      && target.sys.received == target.sys.pushed[..Min(seen, old(|target.sys.received|) + cap)])
      ensures lastTry == old(lastTry) && (attached ==> old(attached))
    {
      seen := 0;
      if !attached {
        return Some([]), seen;
      }
      var n;
      n, seen := RingRead(target, cap);
      match n
      case Failed => r := None;
      case Lost =>
        attached := false;
        r := Some([]);
      case Got(bytes) => r := Some(bytes);
    }

    /**
     Queue `bytes` as one write, or answer `false`: detached, or too little room so far. An attached channel accepts
     them exactly when they fit beside what the firmware had not taken at `seen`, which counts no less than it had
     taken before the call.
     */
    method Write(bytes: seq<byte>) returns (r: Outcome<bool>, ghost seen: nat)
      requires target.Valid()
      modifies this, target
      ensures target.Valid()
      ensures !old(attached) ==> r == Some(false) && !attached && target.sys == old(target.sys)
      ensures target.Faults() == old(target.Faults()) + if r == None then 1 else 0
      ensures target.sys.intact ==>
                && old(target.sys.intact) && old(target.sys.pushed) <= target.sys.pushed
                && attached == old(attached)
                && target.sys.received == old(target.sys.received)
                && target.sys.writes == old(target.sys.writes) + (if r == Some(true) then [bytes] else [])
                && (attached && r.Some? ==>
                      && old(|target.sys.taken|) <= seen <= |target.sys.taken|
                      && (r.value <==>
                          old(|Flatten(target.sys.writes)|) - seen + |bytes| < target.pair.down.size))
      ensures lastTry == old(lastTry) && (attached ==> old(attached))
    {
      seen := 0;
      if !attached {
        return Some(false), seen;
      }
      var written;
      written, seen := RingWrite(target, bytes);
      match written
      case WriteFailed => r := None;
      case WriteLost =>
        attached := false;
        r := Some(false);
      case Written(accepted) => r := Some(accepted);
    }
  }

  datatype Io = Recv(cap: nat) | Send(bytes: seq<byte>)

  /** The bytes that the reads of the first `n` steps have room for. */
  function RoomAsked(script: seq<Io>, n: nat): nat
    requires n <= |script|
  {
    if n == 0 then 0 else RoomAsked(script, n - 1) + if script[n - 1].Recv? then script[n - 1].cap else 0
  }

  /** What the first `n` steps want to send, in order. */
  function Sends(script: seq<Io>, n: nat): seq<seq<byte>>
    requires n <= |script|
  {
    if n == 0 then [] else Sends(script, n - 1) + if script[n - 1].Send? then [script[n - 1].bytes] else []
  }

  lemma {:induction false} SendsGrow(script: seq<Io>, n: nat, m: nat)
    requires n <= m <= |script|
    ensures |Flatten(Sends(script, n))| <= |Flatten(Sends(script, m))|
    decreases m
  {
    if n < m {
      SendsGrow(script, n, m - 1);
      if script[m - 1].Send? {
        FlattenAppend(Sends(script, m - 1), script[m - 1].bytes);
      } else {
        assert Sends(script, m) == Sends(script, m - 1);
      }
    }
  }

  /**
   Any script of reads and writes, with any firmware activity and any memory failures in between. `got` is what the
   reads returned and `sent` the writes that were accepted, in order. Unless the firmware reset, what the firmware
   pushed is what the host got, then what is pending; and the firmware has taken a prefix of the accepted writes laid
   end to end. If no access failed, an attached host got all that was published when it began, or as much as its
   reads had room for; and every write was accepted if all of them together are smaller than the ring. A detached host
   got and sent nothing.
   */
  method Session(d: Duplex, script: seq<Io>) returns (got: seq<byte>, sent: seq<seq<byte>>)
    requires d.target.Valid()
    requires d.target.sys.received == [] && d.target.sys.writes == []
    modifies d, d.target
    ensures d.target.Valid()
    ensures d.target.sys.intact ==>
              && InRange(d.target.sys.ram, d.target.pair.up) && InRange(d.target.sys.ram, d.target.pair.down)
              && d.target.sys.pushed == got + Pending(d.target.sys.ram, d.target.pair.up)
              && Flatten(sent) == d.target.sys.taken + Pending(d.target.sys.ram, d.target.pair.down)
    ensures old(d.attached) && d.target.sys.intact && d.target.Faults() == old(d.target.Faults()) ==>
              Served(script, |script|, old(|d.target.sys.pushed|), d.target.pair.down.size, got, sent)
    ensures !old(d.attached) ==> got == [] && sent == []
  {
    got, sent := [], [];
    ghost var pushed, faults := |d.target.sys.pushed|, d.target.Faults();
    for i := 0 to |script|
      invariant d.target.Valid() && faults <= d.target.Faults()
      invariant d.target.sys.intact ==> d.target.sys.received == got && d.target.sys.writes == sent
      invariant d.target.sys.intact ==> d.attached == old(d.attached) && pushed <= |d.target.sys.pushed|
      invariant Attentive(d, faults) ==> Served(script, i, pushed, d.target.pair.down.size, got, sent)
      invariant !old(d.attached) ==> !d.attached && got == [] && sent == []
    {
      var read, taken := Perform(d, script[i]);
      if Attentive(d, faults) {
        ServedNext(script, i, pushed, d.target.pair.down.size, got, sent, read, taken);
      }
      got, sent := got + read, sent + taken;
    }
    if d.target.sys.intact {
      PublishedIsQueued(d.target.pair.up, d.target.sys);
    }
  }

  /**
   After `n` steps the reads returned all of the first `pushed` bytes, or as much as they had room for; and if the
   whole script sends less than `size` bytes, every write so far was accepted.
   */
  ghost predicate Served(
    script: seq<Io>, n: nat, pushed: nat, size: nat, got: seq<byte>, sent: seq<seq<byte>>)
    requires n <= |script|
  {
    && |got| >= Min(pushed, RoomAsked(script, n))
    && (|Flatten(Sends(script, |script|))| < size ==> sent == Sends(script, n))
  }

  lemma ServedNext(script: seq<Io>, n: nat, pushed: nat, size: nat, got: seq<byte>, sent: seq<seq<byte>>,
                   read: seq<byte>, taken: seq<seq<byte>>)
    requires n < |script| && Served(script, n, pushed, size, got, sent)
    requires script[n].Recv? ==> taken == [] && |got + read| >= Min(pushed, |got| + script[n].cap)
    requires script[n].Send? ==>
               read == [] && (|Flatten(sent)| + |script[n].bytes| < size ==> taken == [script[n].bytes])
    ensures Served(script, n + 1, pushed, size, got + read, sent + taken)
  {
    SendsGrow(script, n + 1, |script|);
    if script[n].Send? {
      FlattenAppend(Sends(script, n), script[n].bytes);
    }
  }

  /** One step of a script: what its read returned, and the write that was accepted. */
  method Perform(d: Duplex, io: Io) returns (got: seq<byte>, sent: seq<seq<byte>>)
    requires d.target.Valid()
    modifies d, d.target
    ensures d.target.Valid() && old(d.target.Faults()) <= d.target.Faults()
    ensures d.target.sys.intact ==>
              && old(d.target.sys.intact) && d.attached == old(d.attached)
              && old(|d.target.sys.pushed|) <= |d.target.sys.pushed|
              && d.target.sys.received == old(d.target.sys.received) + got
              && d.target.sys.writes == old(d.target.sys.writes) + sent
    ensures !old(d.attached) ==> !d.attached && got == [] && sent == []
    ensures Attentive(d, old(d.target.Faults())) && io.Recv? ==>
              && sent == []
              && |d.target.sys.received| >= Min(old(|d.target.sys.pushed|), old(|d.target.sys.received|) + io.cap)
    ensures Attentive(d, old(d.target.Faults())) && io.Send? ==>
              && got == []
              && (old(|Flatten(d.target.sys.writes)|) + |io.bytes| < d.target.pair.down.size ==> sent == [io.bytes])
  {
    got, sent := [], [];
    match io
    case Recv(cap) =>
      var r, seen := d.Read(cap);
      if r.Some? {
        got := r.value;
      }
    case Send(bytes) =>
      var r, seen := d.Write(bytes);
      if r == Some(true) {
        sent := [bytes];
      }
  }

  /** Attached to a firmware that has not reset, with no access failed since `faults` were counted. */
  ghost predicate Attentive(d: Duplex, faults: nat)
    reads d, d.target
  {
    d.attached && d.target.sys.intact && d.target.Faults() == faults
  }

  lemma PublishedIsQueued(r: Ring, s: Sys)
    requires UpOk(r, s)
    ensures s.pushed == s.received + Pending(s.ram, r)
  {
    var n := Count(s.ram, r);
    WindowConcat(s.ram.cells, r, RdOff(s.ram, r), n, |s.staged|);
    var tail := Window(s.ram.cells, r, Wrap(RdOff(s.ram, r) + n, r.size), |s.staged|);
    Assoc(s.received, Pending(s.ram, r), tail);
    assert s.pushed == (s.pushed + s.staged)[..|s.pushed|];
    assert s.received + Pending(s.ram, r) == ((s.received + Pending(s.ram, r)) + tail)[..|s.received| + n];
  }
}
