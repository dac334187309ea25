/** The host's reads and writes of the two RTT channels, against a firmware that keeps running. */
module RttHost {
  import opened Bytes
  import opened Common
  import opened Memory
  import opened Rtt

  // ----- what the host's own steps keep -----

  lemma PendingByte(r: Ring, s: Sys, k: nat)
    requires UpOk(r, s) && k < Count(s.ram, r)
    ensures s.pushed[|s.received| + k] == s.ram.cells(Slot(r, RdOff(s.ram, r), k))
  {
    var w := Window(s.ram.cells, r, RdOff(s.ram, r), Count(s.ram, r) + |s.staged|);
    assert (s.pushed + s.staged)[|s.received| + k] == w[k];
  }

  /** `out` is the front of what is pending: the next bytes the firmware published. */
  ghost predicate IsFront(p: Pair, s: Sys, out: seq<byte>) {
    InRange(s.ram, p.up) && |out| <= Count(s.ram, p.up) && s.received + out <= s.pushed
  }

  /** The system after the host moved its read offset past `out`. */
  function Consume(p: Pair, s: Sys, out: seq<byte>): Sys
    requires Laid(p) && InRange(s.ram, p.up) && |out| < p.up.size
  {
    var next := Wrap(RdOff(s.ram, p.up) + |out|, p.up.size);
    s.(ram := PokeWord(s.ram, p.up.descriptor + RD_OFF, next), received := s.received + out)
  }

  lemma FrontIsWindow(p: Pair, s: Sys, out: seq<byte>)
    requires UpOk(p.up, s) && IsFront(p, s, out)
    ensures Window(s.ram.cells, p.up, RdOff(s.ram, p.up), |out|) == out
  {
    forall k | 0 <= k < |out|
      ensures Window(s.ram.cells, p.up, RdOff(s.ram, p.up), |out|)[k] == out[k]
    {
      PendingByte(p.up, s, k);
      assert (s.received + out)[|s.received| + k] == out[k];
    }
  }

  /** Consuming the front keeps the channel a queue. */
  lemma ConsumeKeepsInv(p: Pair, s: Sys, out: seq<byte>)
    requires s.intact && Inv(p, s) && IsFront(p, s, out)
    ensures Inv(p, Consume(p, s, out))
  {
    var rd, m := RdOff(s.ram, p.up), Count(s.ram, p.up) + |s.staged|;
    DropFront(s.ram, p.up, |out|, m);
    FrontIsWindow(p, s, out);
    Assoc(s.received, out, Window(s.ram.cells, p.up, Wrap(rd + |out|, p.up.size), m - |out|));
  }

  lemma ConsumedAt(p: Pair, s: Sys, t: Sys, out: seq<byte>, next: nat)
    requires Inv(p, s) && Inv(p, t) && Moves(p, s, t)
    requires t.intact ==> IsFront(p, t, out) && next == Wrap(RdOff(t.ram, p.up) + |out|, p.up.size)
    ensures Inv(p, t.(ram := PokeWord(t.ram, p.up.descriptor + RD_OFF, next), received := t.received + out))
  {
    if t.intact {
      ConsumeKeepsInv(p, t, out);
    }
  }

  /** The system after the host stored a byte in slot `k` past its write offset. */
  function Fill(p: Pair, s: Sys, k: nat, b: byte): Sys
    requires Laid(p) && InRange(s.ram, p.down) && k < p.down.size
  {
    s.(ram := PokeByte(s.ram, Slot(p.down, WrOff(s.ram, p.down), k), b))
  }

  /** Filling free slots disturbs neither queue. */
  lemma FillKeepsInv(p: Pair, s: Sys, k: nat, b: byte)
    requires s.intact && Inv(p, s) && Count(s.ram, p.down) + k < p.down.size
    ensures var t := Fill(p, s, k, b);
            && Inv(p, t) && Moves(p, s, t)
            && Window(t.ram.cells, p.down, WrOff(s.ram, p.down), k + 1) ==
               Window(s.ram.cells, p.down, WrOff(s.ram, p.down), k) + [b]
  {
    var t, n := Fill(p, s, k, b), Count(s.ram, p.down);
    assert Slot(p.down, WrOff(s.ram, p.down), k) == Slot(p.down, RdOff(s.ram, p.down), n + k);
    StoreBeyond(s.ram, p.down, RdOff(s.ram, p.down), n, n + k, b);
    WindowStore(s.ram, p.down, WrOff(s.ram, p.down), k, b);
    WindowSame(s.ram.cells, t.ram.cells, p.up, RdOff(s.ram, p.up), Count(s.ram, p.up) + |s.staged|);
  }

  /** The system after the host moved its write offset past `bytes`. */
  function PublishWrite(p: Pair, s: Sys, bytes: seq<byte>): Sys
    requires Laid(p) && InRange(s.ram, p.down) && |bytes| < p.down.size
  {
    var next := Wrap(WrOff(s.ram, p.down) + |bytes|, p.down.size);
    s.(ram := PokeWord(s.ram, p.down.descriptor + WR_OFF, next), writes := s.writes + [bytes])
  }

  /** Publishing `bytes`, stored behind the pending ones, adds them to the queue as one write. */
  lemma PublishWriteKeepsInv(p: Pair, s: Sys, bytes: seq<byte>)
    requires s.intact && Inv(p, s) && Count(s.ram, p.down) + |bytes| < p.down.size
    requires Window(s.ram.cells, p.down, WrOff(s.ram, p.down), |bytes|) == bytes
    ensures Inv(p, PublishWrite(p, s, bytes))
  {
    var rd, n := RdOff(s.ram, p.down), Count(s.ram, p.down);
    UsedOfWrap(rd, n + |bytes|, p.down.size);
    WindowConcat(s.ram.cells, p.down, rd, n, |bytes|);
    FlattenAppend(s.writes, bytes);
    Assoc(s.taken, Pending(s.ram, p.down), bytes);
  }

  /** What the firmware takes meanwhile only makes room. */
  lemma CountShrinks(p: Pair, s: Sys, t: Sys)
    requires Inv(p, s) && Inv(p, t) && t.intact && Moves(p, s, t)
    ensures Count(t.ram, p.down) <= Count(s.ram, p.down)
  {
    assert |Flatten(s.writes)| == |s.taken| + Count(s.ram, p.down);
    assert |Flatten(t.writes)| == |t.taken| + Count(t.ram, p.down);
  }

  /** While the firmware runs, the front of the up channel stays the front. */
  lemma FrontStays(p: Pair, s: Sys, t: Sys, out: seq<byte>)
    requires Inv(p, s) && Inv(p, t) && t.intact && Moves(p, s, t)
    requires IsFront(p, s, out)
    ensures IsFront(p, t, out)
  {
    PendingGrows(p, s, t);
  }

  lemma PendingGrows(p: Pair, s: Sys, t: Sys)
    requires Inv(p, s) && Inv(p, t) && t.intact && Moves(p, s, t)
    ensures Count(s.ram, p.up) <= Count(t.ram, p.up)
  {
  }

  lemma MovesTwice(p: Pair, s: Sys, t: Sys, u: Sys)
    requires Moves(p, s, t) && Moves(p, t, u)
    ensures Moves(p, s, u)
  {
  }

  lemma NextOfFront(p: Pair, s: Sys, out: seq<byte>, v: byte)
    requires UpOk(p.up, s) && IsFront(p, s, out) && |out| < Count(s.ram, p.up)
    requires v == s.ram.cells(Slot(p.up, RdOff(s.ram, p.up), |out|))
    ensures IsFront(p, s, out + [v])
  {
    PendingByte(p.up, s, |out|);
    assert s.received + (out + [v]) == (s.received + out) + [v];
  }

  /** Addresses `a..a + n` are the slots `k..k + n` past offset `at`, with no wrap among them. */
  predicate Straight(ring: Ring, at: nat, k: nat, a: nat, n: nat) {
    && at < ring.size && k + n <= ring.size
    && ((at + k + n <= ring.size && a == ring.buffer + at + k) ||
        (at + k >= ring.size && a == ring.buffer + at + k - ring.size))
  }

  // ----- the target as the host sees it -----

  /** How many of the first `n` accesses fail. */
  function Failing(fails: nat -> bool, n: nat): nat {
    if n == 0 then 0 else Failing(fails, n - 1) + if fails(n - 1) then 1 else 0
  }

  class Target {
    const pair: Pair
    /** Which memory accesses fail, by their number. */
    const fails: nat -> bool
    var accesses: nat
    var sys: Sys

    ghost predicate Valid()
      reads this`sys
    {
      Inv(pair, sys)
    }

    /** The accesses that have failed so far. */
    ghost function Faults(): nat
      reads this`accesses
    {
      Failing(fails, accesses)
    }

    /** A freshly initialised control block: both rings empty. */
    constructor (pair: Pair, ram: Ram, fails: nat -> bool)
      requires Laid(pair)
      requires WrOff(ram, pair.up) == RdOff(ram, pair.up) < pair.up.size
      requires WrOff(ram, pair.down) == RdOff(ram, pair.down) < pair.down.size
      ensures Valid() && this.pair == pair && this.fails == fails && Faults() == 0
      ensures sys == Sys(ram, true, [], [], [], [], [], [])
    {
      this.pair, this.fails, this.accesses := pair, fails, 0;
      sys := Sys(ram, true, [], [], [], [], [], []);
    }

    /** Any number of firmware steps, in any order. */
    method FirmwareRuns()
      requires Valid()
      modifies `sys
      ensures Valid() && Advances(pair, old(sys), sys)
    {
      var n: nat := *;
      while n > 0
        invariant Valid() && Advances(pair, old(sys), sys)
      {
        var step: Step := *;
        FirmwareKeepsInv(pair, sys, step);
        AdvancesTwice(pair, old(sys), sys, Firmware(pair, sys, step));
        sys := Firmware(pair, sys, step);
        n := n - 1;
      }
    }

    /** One more access: whether it goes through. */
    method Access() returns (ok: bool)
      modifies `accesses
      ensures ok == !fails(old(accesses)) && accesses == old(accesses) + 1
      ensures Faults() == old(Faults()) + if ok then 0 else 1
    {
      ok := !fails(accesses);
      accesses := accesses + 1;
    }

    /** One word read; it may fail. */
    method ReadWord(a: nat) returns (ok: bool, v: nat)
      requires Valid()
      modifies this
      ensures Valid() && Advances(pair, old(sys), sys)
      ensures Faults() == old(Faults()) + if ok then 0 else 1
      ensures v == sys.ram.words(a)
    {
      FirmwareRuns();
      ok := Access();
      v := sys.ram.words(a);
    }

    /** Read the byte that follows `front` in the up channel, after any firmware steps; it may fail. */
    method ReadByte(a: nat, ghost front: seq<byte>) returns (ok: bool, v: byte)
      requires Valid()
      requires sys.intact ==>
                 && IsFront(pair, sys, front) && |front| < Count(sys.ram, pair.up)
                 && a == Slot(pair.up, RdOff(sys.ram, pair.up), |front|)
      modifies this
      ensures Valid() && Advances(pair, old(sys), sys)
      ensures Faults() == old(Faults()) + if ok then 0 else 1
      ensures sys.intact ==> IsFront(pair, sys, front + [v])
    {
      FirmwareRuns();
      ok := Access();
      v := sys.ram.cells(a);
      if sys.intact {
        FrontStays(pair, old(sys), sys, front);
        PendingGrows(pair, old(sys), sys);
        NextOfFront(pair, sys, front, v);
      }
    }

    /**
     Read `n` bytes from `a` on, the pending bytes that follow `front`, with the firmware running before each of them.
     They are the next bytes the firmware published, however much it publishes meanwhile.
     */
    method ReadPending(a: nat, n: nat, ghost front: seq<byte>) returns (ok: bool, out: seq<byte>)
      requires Valid()
      requires sys.intact ==>
                 && IsFront(pair, sys, front) && |front| + n <= Count(sys.ram, pair.up)
                 && Straight(pair.up, RdOff(sys.ram, pair.up), |front|, a, n)
      modifies this
      ensures Valid() && Advances(pair, old(sys), sys)
      ensures Faults() == old(Faults()) + if ok then 0 else 1
      ensures ok ==> |out| == n
      ensures ok && sys.intact ==> IsFront(pair, sys, front + out)
    {
      ghost var s0 := sys;
      out := [];
      assert front + [] == front;
      for i := 0 to n
        invariant Valid() && Advances(pair, s0, sys) && |out| == i && Faults() == old(Faults())
        invariant sys.intact ==> IsFront(pair, sys, front + out)
      {
        ghost var before := sys;
        if sys.intact {
          PendingGrows(pair, s0, sys);
        }
        var v;
        ok, v := ReadByte(a + i, front + out);
        AdvancesTwice(pair, s0, before, sys);
        if !ok {
          return;
        }
        Assoc(front, out, [v]);
        out := out + [v];
      }
      ok := true;
    }

    /** Store one byte in the free slot `k` past the down channel's write offset; it may fail. */
    method WriteByte(a: nat, b: byte, ghost k: nat) returns (ok: bool)
      requires Valid()
      requires pair.down.buffer <= a < pair.down.buffer + pair.down.size
      requires sys.intact ==>
                 && Count(sys.ram, pair.down) + k < pair.down.size
                 && a == Slot(pair.down, WrOff(sys.ram, pair.down), k)
      modifies this
      ensures Valid() && Moves(pair, old(sys), sys)
      ensures Faults() == old(Faults()) + if ok then 0 else 1
      ensures ok && sys.intact ==>
                Window(sys.ram.cells, pair.down, WrOff(sys.ram, pair.down), k + 1) ==
                old(Window(sys.ram.cells, pair.down, WrOff(sys.ram, pair.down), k)) + [b]
    {
      FirmwareRuns();
      ok := Access();
      if ok {
        ghost var s := sys;
        sys := sys.(ram := PokeByte(sys.ram, a, b));
        if sys.intact {
          CountShrinks(pair, old(sys), s);
          WindowSame(old(sys.ram.cells), s.ram.cells, pair.down, WrOff(s.ram, pair.down), k);
          FillKeepsInv(pair, s, k, b);
        }
      }
    }

    /**
     Write `bytes` from `a` on, into slots of the down channel that are free and `k` past its write offset. It may fail
     part-way, leaving some of the bytes behind. Whatever the control block says, only the ring's own buffer is written.
     */
    method WriteFree(a: nat, bytes: seq<byte>, ghost k: nat) returns (ok: bool)
      requires Valid()
      requires pair.down.buffer <= a && a + |bytes| <= pair.down.buffer + pair.down.size
      requires sys.intact ==>
                 && Count(sys.ram, pair.down) + k + |bytes| < pair.down.size
                 && Straight(pair.down, WrOff(sys.ram, pair.down), k, a, |bytes|)
      modifies this
      ensures Valid() && Moves(pair, old(sys), sys)
      ensures Faults() == old(Faults()) + if ok then 0 else 1
      ensures ok && sys.intact ==>
                Window(sys.ram.cells, pair.down, WrOff(sys.ram, pair.down), k + |bytes|) ==
                old(Window(sys.ram.cells, pair.down, WrOff(sys.ram, pair.down), k)) + bytes
    {
      ghost var s0 := sys;
      for i := 0 to |bytes|
        invariant Valid() && Moves(pair, s0, sys) && Faults() == old(Faults())
        invariant sys.intact ==>
                    Window(sys.ram.cells, pair.down, WrOff(sys.ram, pair.down), k + i) ==
                    Window(s0.ram.cells, pair.down, WrOff(s0.ram, pair.down), k) + bytes[..i]
      {
        ghost var before := sys;
        if sys.intact {
          CountShrinks(pair, s0, sys);
        }
        ok := WriteByte(a + i, bytes[i], k + i);
        MovesTwice(pair, s0, before, sys);
        if !ok {
          return;
        }
        assert bytes[..i + 1] == bytes[..i] + [bytes[i]];
      }
      ok := true;
      assert bytes[..|bytes|] == bytes;
    }

    /** The one step that consumes `out`: storing the offset behind it, whole or not at all. */
    method ConsumeFront(next: nat, out: seq<byte>) returns (ok: bool)
      requires Valid() && |out| < pair.up.size
      requires sys.intact ==> IsFront(pair, sys, out) && next == Wrap(RdOff(sys.ram, pair.up) + |out|, pair.up.size)
      modifies this
      ensures Valid()
      ensures sys.intact ==> old(sys.intact) && old(sys.pushed) <= sys.pushed && sys.writes == old(sys.writes)
      ensures Faults() == old(Faults()) + if ok then 0 else 1
      ensures sys.intact ==> sys.received == old(sys.received) + if ok then out else []
    {
      FirmwareRuns();
      ok := Access();
      if ok {
        ConsumedAt(pair, old(sys), sys, out, next);
        sys := sys.(ram := PokeWord(sys.ram, pair.up.descriptor + RD_OFF, next), received := sys.received + out);
      }
    }

    /** Write the down channel's write offset, all of it or nothing: the one step that makes `bytes` visible. */
    method Publish(next: nat, bytes: seq<byte>) returns (ok: bool)
      requires Valid() && |bytes| < pair.down.size
      requires sys.intact ==>
                 && Count(sys.ram, pair.down) + |bytes| < pair.down.size
                 && Window(sys.ram.cells, pair.down, WrOff(sys.ram, pair.down), |bytes|) == bytes
                 && next == Wrap(WrOff(sys.ram, pair.down) + |bytes|, pair.down.size)
      modifies this
      ensures Valid()
      ensures sys.intact ==> old(sys.intact) && old(sys.pushed) <= sys.pushed
      ensures sys.intact ==> sys.received == old(sys.received) && old(sys.taken) <= sys.taken
      ensures Faults() == old(Faults()) + if ok then 0 else 1
      ensures sys.intact ==> sys.writes == old(sys.writes) + if ok then [bytes] else []
    {
      FirmwareRuns();
      ok := Access();
      if ok {
        if sys.intact {
          CountShrinks(pair, old(sys), sys);
          WindowSame(old(sys.ram.cells), sys.ram.cells, pair.down, WrOff(sys.ram, pair.down), |bytes|);
          PublishWriteKeepsInv(pair, sys, bytes);
        }
        sys := sys.(ram := PokeWord(sys.ram, pair.down.descriptor + WR_OFF, next), writes := sys.writes + [bytes]);
      }
    }
  }

  // ----- the ring operations -----

  /** A failed memory access, a control block that can no longer be trusted, or the bytes. */
  datatype ReadResult = Failed | Lost | Got(bytes: seq<byte>)

  datatype WriteResult = WriteFailed | WriteLost | Written(accepted: bool)

  /** Offsets no ring can have are only seen once the block is no longer the firmware's. */
  datatype Offsets = OffsetsFailed | OffsetsLost | At(write: nat, read: nat)

  /** Read a ring's two offsets. `mid` is the system at the moment the write offset was read. */
  method ReadOffsets(t: Target, ring: Ring) returns (r: Offsets, ghost mid: Sys)
    requires t.Valid() && (ring == t.pair.up || ring == t.pair.down)
    modifies t
    ensures t.Valid() && Inv(t.pair, mid)
    ensures Advances(t.pair, old(t.sys), mid) && Advances(t.pair, mid, t.sys)
    ensures t.Faults() == old(t.Faults()) + if r.OffsetsFailed? then 1 else 0
    ensures r.OffsetsLost? ==> !t.sys.intact
    ensures r.At? ==>
              && r.write < ring.size && r.read < ring.size
              && r.write == WrOff(mid.ram, ring) && r.read == RdOff(t.sys.ram, ring)
  {
    mid := t.sys;
    var ok, write := t.ReadWord(ring.descriptor + WR_OFF);
    mid := t.sys;
    if !ok {
      return OffsetsFailed, mid;
    }
    var read;
    ok, read := t.ReadWord(ring.descriptor + RD_OFF);
    if !ok {
      return OffsetsFailed, mid;
    }
    if write >= ring.size || read >= ring.size {
      return OffsetsLost, mid;
    }
    r := At(write, read);
  }

  /** Copy the bytes between the two offsets, at most `cap` of them, in one or two accesses. */
  method CopyPending(t: Target, write: nat, read: nat, cap: nat) returns (ok: bool, out: seq<byte>)
    requires t.Valid() && write < t.pair.up.size && read < t.pair.up.size && write != read
    requires t.sys.intact ==>
               read == RdOff(t.sys.ram, t.pair.up) && Used(write, read, t.pair.up.size) <= Count(t.sys.ram, t.pair.up)
    modifies t
    ensures t.Valid() && Advances(t.pair, old(t.sys), t.sys)
    ensures t.Faults() == old(t.Faults()) + if ok then 0 else 1
    ensures ok ==> |out| == Min(Used(write, read, t.pair.up.size), cap)
    ensures ok && t.sys.intact ==> IsFront(t.pair, t.sys, out)
  {
    var ring := t.pair.up;
    ghost var s0 := t.sys;
    var tail := if write > read then write - read else ring.size - read;
    var len := Min(tail, cap);
    if s0.intact {
      NothingIsFront(t.pair, s0);
    }
    ok, out := t.ReadPending(ring.buffer + read, len, []);
    if !ok {
      return;
    }
    assert [] + out == out;
    if write < read && len == tail {
      // What is left stands in the first slots
      ghost var s1 := t.sys;
      if s1.intact {
        PendingGrows(t.pair, s0, s1);
      }
      var head := Min(write, cap - len);
      if head > 0 {
        var more;
        ok, more := t.ReadPending(ring.buffer, head, out);
        AdvancesTwice(t.pair, s0, s1, t.sys);
        if !ok {
          return;
        }
        out := out + more;
      }
    }
  }

  /**
   What a read did. On success the host has received exactly what the firmware had published when `seen` was counted,
   or as much of it as fits in `cap`, so a short read drained the channel; on any failure it has consumed nothing.
   */
  ghost predicate ReadEffect(s: Sys, t: Sys, cap: nat, seen: nat, r: ReadResult) {
    t.intact ==>
      && s.intact && s.pushed <= t.pushed && t.writes == s.writes
      && (r.Got? ==>
            && seen <= |t.pushed|
            && t.received == s.received + r.bytes
            && t.received == t.pushed[..Min(seen, |s.received| + cap)])
      && (!r.Got? ==> t.received == s.received)
  }

  lemma ReadEffectAfter(p: Pair, s: Sys, t: Sys, u: Sys, cap: nat, seen: nat, r: ReadResult)
    requires Advances(p, s, t) && ReadEffect(t, u, cap, seen, r)
    ensures ReadEffect(s, u, cap, seen, r)
  {
  }

  /** The rest of a read once its offsets are known. */
  method ReadBetween(t: Target, write: nat, read: nat, cap: nat, ghost seen: nat) returns (r: ReadResult)
    requires t.Valid() && write < t.pair.up.size && read < t.pair.up.size
    requires t.sys.intact ==> Snapshot(t.pair, t.sys, write, read, seen)
    modifies t
    ensures t.Valid() && ReadEffect(old(t.sys), t.sys, cap, seen, r)
    ensures t.Faults() == old(t.Faults()) + if r.Failed? then 1 else 0
    ensures !r.Lost? && (r.Got? ==> |r.bytes| <= cap)
  {
    if write == read {
      return Got([]);
    }
    ghost var s0 := t.sys;
    var ok, out := CopyPending(t, write, read, cap);
    if !ok {
      return Failed;
    }
    ghost var s1 := t.sys;
    if s1.intact {
      ReceivedIsPrefix(t.pair, s1, out, seen, cap);
    }
    WrapIsMod(read + |out|, t.pair.up.size);
    ok := t.ConsumeFront((read + |out|) % t.pair.up.size, out);
    r := if ok then Got(out) else Failed;
    PrefixKept(s0, s1, t.sys, cap, seen, r, out);
  }

  lemma PrefixKept(s: Sys, t: Sys, u: Sys, cap: nat, seen: nat, r: ReadResult, out: seq<byte>)
    requires r == Got(out) || r == Failed
    requires t.intact ==>
               && s.intact && s.pushed <= t.pushed
               && t.writes == s.writes && t.received == s.received && seen <= |s.pushed|
    requires t.intact ==>
               && |t.received| + |out| == Min(seen, |t.received| + cap)
               && t.received + out == t.pushed[..Min(seen, |t.received| + cap)]
    requires u.intact ==>
               t.intact && t.pushed <= u.pushed && u.writes == t.writes &&
               u.received == t.received + if r.Got? then out else []
    ensures ReadEffect(s, u, cap, seen, r)
  {
  }

  /**
   One read of up to `cap` bytes, which consumes what it returns; `seen` counts what the firmware had published
   when the write offset was read. Together with `Valid`, what was received and what is pending is what was pushed, in
   order, whatever the firmware did meanwhile.
   */
  method RingRead(t: Target, cap: nat) returns (r: ReadResult, ghost seen: nat)
    requires t.Valid()
    modifies t
    ensures t.Valid() && ReadEffect(old(t.sys), t.sys, cap, seen, r)
    ensures t.sys.intact ==> old(|t.sys.pushed|) <= seen
    ensures t.Faults() == old(t.Faults()) + if r.Failed? then 1 else 0
    ensures r.Lost? ==> !t.sys.intact
    ensures r.Got? ==> |r.bytes| <= cap
  {
    ghost var s0 := t.sys;
    var at, mid := ReadOffsets(t, t.pair.up);
    AdvancesTwice(t.pair, s0, mid, t.sys);
    seen := |mid.pushed|;
    match at
    case OffsetsFailed => r := Failed;
    case OffsetsLost => r := Lost;
    case At(write, read) =>
      ghost var s1 := t.sys;
      if s1.intact {
        SnapshotIsPending(t.pair, mid, s1, write, read);
      }
      r := ReadBetween(t, write, read, cap, seen);
      ReadEffectAfter(t.pair, s0, s1, t.sys, cap, seen, r);
  }

  /** The two offsets delimit exactly the first `seen` published bytes that were not yet received. */
  ghost predicate Snapshot(p: Pair, s: Sys, write: nat, read: nat, seen: nat)
    requires write < p.up.size && read < p.up.size
  {
    && InRange(s.ram, p.up) && read == RdOff(s.ram, p.up)
    && |s.received| <= seen <= |s.pushed|
    && Used(write, read, p.up.size) == seen - |s.received| <= Count(s.ram, p.up)
    && s.received == s.pushed[..|s.received|]
  }

  lemma SnapshotIsPending(p: Pair, mid: Sys, s: Sys, write: nat, read: nat)
    requires Inv(p, mid) && Inv(p, s) && s.intact && Moves(p, mid, s)
    requires write == WrOff(mid.ram, p.up) && read == RdOff(s.ram, p.up)
    ensures Snapshot(p, s, write, read, |mid.pushed|)
  {
    ReceivedWasPushed(p.up, s);
  }

  lemma ReceivedIsPrefix(p: Pair, s: Sys, out: seq<byte>, seen: nat, cap: nat)
    requires IsFront(p, s, out)
    requires |s.received| <= seen <= |s.pushed| && |out| == Min(seen - |s.received|, cap)
    ensures s.received + out == s.pushed[..Min(seen, |s.received| + cap)]
  {
  }

  lemma NothingIsFront(p: Pair, s: Sys)
    requires Inv(p, s) && s.intact
    ensures IsFront(p, s, [])
  {
    ReceivedWasPushed(p.up, s);
    assert s.received + [] == s.received;
  }

  lemma ReceivedWasPushed(r: Ring, s: Sys)
    requires UpOk(r, s)
    ensures s.received == s.pushed[..|s.received|]
  {
    assert s.received == (s.pushed + s.staged)[..|s.received|];
  }

  /** Store `bytes` behind the pending ones, in one or two accesses. Nothing is visible to the firmware yet. */
  method FillBytes(t: Target, write: nat, bytes: seq<byte>) returns (ok: bool)
    requires t.Valid() && write < t.pair.down.size && |bytes| < t.pair.down.size
    requires t.sys.intact ==>
               write == WrOff(t.sys.ram, t.pair.down) && Count(t.sys.ram, t.pair.down) + |bytes| < t.pair.down.size
    modifies t
    ensures t.Valid() && Moves(t.pair, old(t.sys), t.sys)
    ensures t.Faults() == old(t.Faults()) + if ok then 0 else 1
    ensures ok && t.sys.intact ==> Window(t.sys.ram.cells, t.pair.down, write, |bytes|) == bytes
  {
    var ring := t.pair.down;
    ghost var s0 := t.sys;
    var split := Min(|bytes|, ring.size - write);
    var first, rest := bytes[..split], bytes[split..];
    assert first + rest == bytes;
    ok := t.WriteFree(ring.buffer + write, first, 0);
    if !ok {
      return;
    }
    if rest != [] {
      ghost var s1 := t.sys;
      if s1.intact {
        CountShrinks(t.pair, s0, s1);
      }
      ok := t.WriteFree(ring.buffer, rest, split);
      MovesTwice(t.pair, s0, s1, t.sys);
    }
  }

  /**
   What a write did. It is accepted exactly when it fits beside what the firmware had not consumed when `seen` was
   counted; it becomes visible as a whole, and a refused or failed write leaves no trace.
   */
  ghost predicate WriteEffect(p: Pair, s: Sys, t: Sys, bytes: seq<byte>, seen: nat, r: WriteResult) {
    t.intact ==>
      && s.intact && s.pushed <= t.pushed && t.received == s.received && s.taken <= t.taken
      && (r.Written? ==>
            seen <= |t.taken| && (r.accepted <==> |Flatten(s.writes)| - seen + |bytes| < p.down.size))
      && t.writes == s.writes + if r.Written? && r.accepted then [bytes] else []
  }

  lemma WriteEffectAfter(p: Pair, s: Sys, t: Sys, u: Sys, bytes: seq<byte>, seen: nat, r: WriteResult)
    requires Advances(p, s, t) && WriteEffect(p, t, u, bytes, seen, r)
    ensures WriteEffect(p, s, u, bytes, seen, r)
  {
  }

  /** The rest of a write once it is known to fit. */
  method WriteFitting(t: Target, write: nat, bytes: seq<byte>) returns (ok: bool)
    requires t.Valid() && write < t.pair.down.size && |bytes| < t.pair.down.size
    requires t.sys.intact ==>
               write == WrOff(t.sys.ram, t.pair.down) && Count(t.sys.ram, t.pair.down) + |bytes| < t.pair.down.size
    modifies t
    ensures t.Valid()
    ensures t.Faults() == old(t.Faults()) + if ok then 0 else 1
    ensures t.sys.intact ==> old(t.sys.intact) && old(t.sys.pushed) <= t.sys.pushed
    ensures t.sys.intact ==> t.sys.received == old(t.sys.received) && old(t.sys.taken) <= t.sys.taken
    ensures t.sys.intact ==> t.sys.writes == old(t.sys.writes) + if ok then [bytes] else []
  {
    ghost var s0 := t.sys;
    ok := FillBytes(t, write, bytes);
    if !ok {
      return;
    }
    if t.sys.intact {
      CountShrinks(t.pair, s0, t.sys);
    }
    WrapIsMod(write + |bytes|, t.pair.down.size);
    ok := t.Publish((write + |bytes|) % t.pair.down.size, bytes);
  }

  /**
   One write, accepted whole or refused; `seen` counts what the firmware had
   consumed when its read offset was read. Together with `Valid`, the firmware only ever sees accepted writes, whole
   and in order.
   */
  method RingWrite(t: Target, bytes: seq<byte>) returns (r: WriteResult, ghost seen: nat)
    requires t.Valid()
    modifies t
    ensures t.Valid() && WriteEffect(t.pair, old(t.sys), t.sys, bytes, seen, r)
    ensures t.sys.intact ==> old(|t.sys.taken|) <= seen
    ensures t.Faults() == old(t.Faults()) + if r.WriteFailed? then 1 else 0
    ensures r.WriteLost? ==> !t.sys.intact
  {
    ghost var s0 := t.sys;
    var at, mid := ReadOffsets(t, t.pair.down);
    AdvancesTwice(t.pair, s0, mid, t.sys);
    ghost var s1 := t.sys;
    seen := |s1.taken|;
    match at
    case OffsetsFailed => r := WriteFailed;
    case OffsetsLost => r := WriteLost;
    case At(write, read) =>
      var size := t.pair.down.size;
      // Equal offsets mean empty, so not every slot may be used
      var free := if read > write then read - write - 1 else size - write + read - 1;
      if s1.intact {
        FreeIsRoom(t.pair, s1, write, read);
      }
      if |bytes| > free {
        r := Written(false);
      } else {
        var ok := WriteFitting(t, write, bytes);
        r := if ok then Written(true) else WriteFailed;
      }
      WriteEffectAfter(t.pair, s0, s1, t.sys, bytes, seen, r);
  }

  lemma FreeIsRoom(p: Pair, s: Sys, write: nat, read: nat)
    requires Inv(p, s) && s.intact && write == WrOff(s.ram, p.down) && read == RdOff(s.ram, p.down)
    ensures Count(s.ram, p.down) == |Flatten(s.writes)| - |s.taken|
    ensures Count(s.ram, p.down) + 1 +
            (if read > write then read - write - 1 else p.down.size - write + read - 1) == p.down.size
  {
    assert |Flatten(s.writes)| == |s.taken| + Count(s.ram, p.down);
  }
}
