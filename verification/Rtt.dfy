/**
 A pair of RTT channels in target RAM, with the firmware running while the host reads and writes it.

 Every memory access of the host is a separate step; between any two of them, and between the bytes of one access, the
 firmware may take any number of its own steps. History variables record what each side sent and received.
 */
module Rtt {
  import opened Bytes
  import opened Memory

  const WR_OFF := 12
  const RD_OFF := 16

  /** A channel: where its descriptor and its buffer lie. */
  datatype Ring = Ring(descriptor: nat, buffer: nat, size: nat)

  datatype Pair = Pair(up: Ring, down: Ring)

  // ----- positions in a ring -----

  /** `x` modulo `size`, for positions less than two turns along. */
  function Wrap(x: nat, size: nat): nat
    requires x < 2 * size
  {
    if x < size then x else x - size
  }

  lemma WrapIsMod(x: nat, size: nat)
    requires x < 2 * size
    ensures x % size == Wrap(x, size)
  {
    if x >= size {
      assert x == size * 1 + (x - size);
      ModOnce(x - size, size);
    }
  }

  lemma ModOnce(r: nat, size: nat)
    requires r < size
    ensures (size + r) % size == r
  {
    assert (size + r) / size == 1;
  }

  /** How far the write offset is ahead, going round. */
  function Used(write: nat, read: nat, size: nat): (n: nat)
    requires write < size && read < size
    ensures n < size && Wrap(read + n, size) == write
  {
    if write >= read then write - read else size - read + write
  }

  /** Address of the `k`-th slot after offset `at`. */
  function Slot(ring: Ring, at: nat, k: nat): (a: nat)
    requires at < ring.size && k < ring.size
    ensures ring.buffer <= a < ring.buffer + ring.size
  {
    ring.buffer + Wrap(at + k, ring.size)
  }

  /** The `n` bytes from offset `at` on, through the wrap. */
  function Window(cells: Cells, ring: Ring, at: nat, n: nat): (bytes: seq<byte>)
    requires at < ring.size && n <= ring.size
    ensures |bytes| == n
  {
    seq<byte>(n, k requires 0 <= k < n => cells(Slot(ring, at, k)))
  }

  /** A window depends only on its ring's buffer. */
  lemma WindowSame(c: Cells, d: Cells, ring: Ring, at: nat, n: nat)
    requires at < ring.size && n <= ring.size
    requires forall a :: ring.buffer <= a < ring.buffer + ring.size ==> d(a) == c(a)
    ensures Window(d, ring, at, n) == Window(c, ring, at, n)
  {
    forall k | 0 <= k < n
      ensures d(Slot(ring, at, k)) == c(Slot(ring, at, k))
    {
    }
  }

  lemma WindowConcat(c: Cells, ring: Ring, at: nat, m: nat, n: nat)
    requires at < ring.size && m + n <= ring.size && m < ring.size
    ensures Window(c, ring, at, m + n) == Window(c, ring, at, m) + Window(c, ring, Wrap(at + m, ring.size), n)
  {
    forall k | m <= k < m + n
      ensures Slot(ring, at, k) == Slot(ring, Wrap(at + m, ring.size), k - m)
    {
    }
  }

  /** A slot past the first `n` can be overwritten without touching them. */
  lemma StoreBeyond(ram: Ram, ring: Ring, at: nat, n: nat, m: nat, b: byte)
    requires at < ring.size && n <= m < ring.size
    ensures Window(PokeByte(ram, Slot(ring, at, m), b).cells, ring, at, n) == Window(ram.cells, ring, at, n)
  {
    forall k | 0 <= k < n
      ensures Slot(ring, at, k) != Slot(ring, at, m)
    {
    }
  }

  /** Storing in the first slot past a window extends it. */
  lemma WindowStore(ram: Ram, ring: Ring, at: nat, n: nat, b: byte)
    requires at < ring.size && n < ring.size
    ensures Window(PokeByte(ram, Slot(ring, at, n), b).cells, ring, at, n + 1) == Window(ram.cells, ring, at, n) + [b]
  {
    StoreBeyond(ram, ring, at, n, n, b);
  }

  // ----- offsets in memory -----

  function WrOff(ram: Ram, ring: Ring): nat {
    ram.words(ring.descriptor + WR_OFF)
  }

  function RdOff(ram: Ram, ring: Ring): nat {
    ram.words(ring.descriptor + RD_OFF)
  }

  predicate InRange(ram: Ram, ring: Ring) {
    WrOff(ram, ring) < ring.size && RdOff(ram, ring) < ring.size
  }

  function Count(ram: Ram, ring: Ring): (n: nat)
    requires InRange(ram, ring)
    ensures n < ring.size
  {
    Used(WrOff(ram, ring), RdOff(ram, ring), ring.size)
  }

  function Pending(ram: Ram, ring: Ring): (bytes: seq<byte>)
    requires InRange(ram, ring)
    ensures |bytes| == Count(ram, ring)
  {
    Window(ram.cells, ring, RdOff(ram, ring), Count(ram, ring))
  }

  /** The two channels have offset words and buffers of their own. */
  predicate Laid(p: Pair) {
    && 0 < p.up.size < 0x1_0000_0000
    && 0 < p.down.size < 0x1_0000_0000
    && (p.up.descriptor + 24 <= p.down.descriptor || p.down.descriptor + 24 <= p.up.descriptor)
    && (p.up.buffer + p.up.size <= p.down.buffer || p.down.buffer + p.down.size <= p.up.buffer)
  }

  // ----- the system -----

  /**
   RAM, whether the control block is still the firmware's own, and the histories: what the firmware published on the up
   channel and has stored but not published, what the host consumed, the writes the host published on the down channel,
   what the firmware consumed of them and has fetched but not released.
   */
  datatype Sys = Sys(
    ram: Ram,
    intact: bool,
    pushed: seq<byte>,
    staged: seq<byte>,
    received: seq<byte>,
    writes: seq<seq<byte>>,
    taken: seq<byte>,
    got: seq<byte>)

  /** The up channel is a queue: what was sent is what was received, then what is pending. */
  predicate UpOk(r: Ring, s: Sys) {
    && InRange(s.ram, r)
    && Count(s.ram, r) + |s.staged| < r.size
    && |s.pushed| == |s.received| + Count(s.ram, r)
    && s.pushed + s.staged == s.received + Window(s.ram.cells, r, RdOff(s.ram, r), Count(s.ram, r) + |s.staged|)
  }

  /** So is the down channel, and it holds whole writes. */
  predicate DownOk(r: Ring, s: Sys) {
    && InRange(s.ram, r)
    && Flatten(s.writes) == s.taken + Pending(s.ram, r)
    && s.got <= Pending(s.ram, r)
  }

  predicate Inv(p: Pair, s: Sys) {
    Laid(p) && (s.intact ==> UpOk(p.up, s) && DownOk(p.down, s))
  }

  // ----- the firmware -----

  /** One memory access of the firmware, or a reset that leaves nothing of the control block to rely on. */
  datatype Step =
    | Store(b: byte)
    | Publish
    | Fetch
    | Release
    | Reset(ram: Ram)

  function StoreByte(p: Pair, s: Sys, b: byte): Sys
    requires Laid(p) && UpOk(p.up, s)
  {
    var n := Count(s.ram, p.up) + |s.staged|;
    if n + 1 == p.up.size then s
    else s.(ram := PokeByte(s.ram, Slot(p.up, RdOff(s.ram, p.up), n), b), staged := s.staged + [b])
  }

  function PublishStaged(p: Pair, s: Sys): Sys
    requires Laid(p) && UpOk(p.up, s)
  {
    var w := Wrap(RdOff(s.ram, p.up) + Count(s.ram, p.up) + |s.staged|, p.up.size);
    s.(ram := PokeWord(s.ram, p.up.descriptor + WR_OFF, w), pushed := s.pushed + s.staged, staged := [])
  }

  function FetchByte(p: Pair, s: Sys): Sys
    requires Laid(p) && DownOk(p.down, s)
  {
    if |s.got| == Count(s.ram, p.down) then s
    else s.(got := s.got + [s.ram.cells(Slot(p.down, RdOff(s.ram, p.down), |s.got|))])
  }

  function ReleaseGot(p: Pair, s: Sys): Sys
    requires Laid(p) && DownOk(p.down, s)
  {
    var r := Wrap(RdOff(s.ram, p.down) + |s.got|, p.down.size);
    s.(ram := PokeWord(s.ram, p.down.descriptor + RD_OFF, r), taken := s.taken + s.got, got := [])
  }

  function Firmware(p: Pair, s: Sys, step: Step): Sys
    requires Inv(p, s)
  {
    if step.Reset? then s.(ram := step.ram, intact := false)
    else if !s.intact then s
    else if step.Store? then StoreByte(p, s, step.b)
    else if step.Publish? then PublishStaged(p, s)
    else if step.Fetch? then FetchByte(p, s)
    else ReleaseGot(p, s)
  }

  lemma StoreKeepsInv(p: Pair, s: Sys, b: byte)
    requires s.intact && Inv(p, s)
    ensures Inv(p, StoreByte(p, s, b)) && Advances(p, s, StoreByte(p, s, b))
  {
    var rd, n := RdOff(s.ram, p.up), Count(s.ram, p.up) + |s.staged|;
    var t := StoreByte(p, s, b);
    if n + 1 < p.up.size {
      WindowStore(s.ram, p.up, rd, n, b);
      Assoc(s.pushed, s.staged, [b]);
      Assoc(s.received, Window(s.ram.cells, p.up, rd, n), [b]);
      WindowSame(s.ram.cells, t.ram.cells, p.down, RdOff(s.ram, p.down), Count(s.ram, p.down));
    }
  }

  /** The wrapped offset `n` bytes on from the read offset counts `n` bytes. */
  lemma UsedOfWrap(rd: nat, n: nat, size: nat)
    requires rd < size && n < size
    ensures Wrap(rd + n, size) < size && Used(Wrap(rd + n, size), rd, size) == n
  {
  }

  lemma PublishKeepsInv(p: Pair, s: Sys)
    requires s.intact && Inv(p, s)
    ensures Inv(p, PublishStaged(p, s)) && Advances(p, s, PublishStaged(p, s))
  {
    UsedOfWrap(RdOff(s.ram, p.up), Count(s.ram, p.up) + |s.staged|, p.up.size);
    assert (s.pushed + s.staged) + [] == s.pushed + s.staged;
  }

  lemma FetchKeepsInv(p: Pair, s: Sys)
    requires s.intact && Inv(p, s)
    ensures Inv(p, FetchByte(p, s)) && Advances(p, s, FetchByte(p, s))
  {
  }

  /** Moving the read offset past the first `n` of the `m` bytes behind it. */
  lemma DropFront(ram: Ram, ring: Ring, n: nat, m: nat)
    requires InRange(ram, ring) && n <= Count(ram, ring) <= m <= ring.size
    ensures var next := Wrap(RdOff(ram, ring) + n, ring.size);
            var r := PokeWord(ram, ring.descriptor + RD_OFF, next);
            && InRange(r, ring) && Count(r, ring) == Count(ram, ring) - n
            && Window(ram.cells, ring, RdOff(ram, ring), m) ==
               Window(ram.cells, ring, RdOff(ram, ring), n) + Window(ram.cells, ring, next, m - n)
  {
    WindowConcat(ram.cells, ring, RdOff(ram, ring), n, m - n);
  }

  lemma ReleaseKeepsInv(p: Pair, s: Sys)
    requires s.intact && Inv(p, s)
    ensures Inv(p, ReleaseGot(p, s)) && Advances(p, s, ReleaseGot(p, s))
  {
    var t := ReleaseGot(p, s);
    DropFront(s.ram, p.down, |s.got|, Count(s.ram, p.down));
    assert Window(s.ram.cells, p.down, RdOff(s.ram, p.down), |s.got|) == s.got;
    Assoc(s.taken, s.got, Pending(t.ram, p.down));
  }

  /** Both histories only move forward, and the host's own offsets are left alone. */
  ghost predicate Moves(p: Pair, s: Sys, t: Sys) {
    t.intact ==>
      && s.intact
      && s.pushed <= t.pushed && t.received == s.received
      && RdOff(t.ram, p.up) == RdOff(s.ram, p.up)
      && t.writes == s.writes && s.taken <= t.taken
      && WrOff(t.ram, p.down) == WrOff(s.ram, p.down)
  }

  /** The down channel's buffer is not written. */
  ghost predicate KeepsDown(p: Pair, s: Sys, t: Sys) {
    t.intact ==> forall a :: p.down.buffer <= a < p.down.buffer + p.down.size ==>
      t.ram.cells(a) == s.ram.cells(a)
  }

  /** What firmware steps can and cannot do to a host in the middle of an operation. */
  ghost predicate Advances(p: Pair, s: Sys, t: Sys) {
    Moves(p, s, t) && KeepsDown(p, s, t)
  }

  /** Every firmware step keeps both channels queues, whatever the host is doing. */
  lemma FirmwareKeepsInv(p: Pair, s: Sys, step: Step)
    requires Inv(p, s)
    ensures Inv(p, Firmware(p, s, step)) && Advances(p, s, Firmware(p, s, step))
  {
    if s.intact {
      match step
      case Store(b) => StoreKeepsInv(p, s, b);
      case Publish => PublishKeepsInv(p, s);
      case Fetch => FetchKeepsInv(p, s);
      case Release => ReleaseKeepsInv(p, s);
      case Reset(_) =>
    }
  }

  lemma AdvancesTwice(p: Pair, s: Sys, t: Sys, u: Sys)
    requires Advances(p, s, t) && Advances(p, t, u)
    ensures Advances(p, s, u)
  {
  }
}
