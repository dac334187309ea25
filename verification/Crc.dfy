/**
 CRC-16/MCRF4XX as the rm-telemetry framing computes it, and the errors it is sure to detect.

 A `u16` register is modelled as its sixteen bits, lowest first, so `^` is pointwise and `>> 1` drops the first bit.
 */
module Crc {
  import opened Bytes

  // ----- bit strings -----

  function Xor(a: seq<bool>, b: seq<bool>): (d: seq<bool>)
    requires |a| == |b|
    ensures |d| == |a|
    ensures forall i :: 0 <= i < |a| ==> d[i] == (a[i] != b[i])
  {
    seq(|a|, i requires 0 <= i < |a| => a[i] != b[i])
  }

  function Zeroes(n: nat): (z: seq<bool>)
    ensures |z| == n && forall i :: 0 <= i < n ==> !z[i]
  {
    seq(n, i => false)
  }

  function Ones(n: nat): (u: seq<bool>)
    ensures |u| == n && forall i :: 0 <= i < n ==> u[i]
  {
    seq(n, i => true)
  }

  // ----- the shift register over booleans, lowest bit first -----

  /** The low `n` bits of a number, lowest first. */
  function ToBits(x: nat, n: nat): (bits: seq<bool>)
    ensures |bits| == n
  {
    if n == 0 then [] else [x % 2 == 1] + ToBits(x / 2, n - 1)
  }

  function FromBits(bits: seq<bool>): nat {
    if bits == [] then 0 else (if bits[0] then 1 else 0) + 2 * FromBits(bits[1..])
  }

  lemma {:induction false} FromToBits(x: nat, n: nat)
    requires x < Pow2(n)
    ensures FromBits(ToBits(x, n)) == x
  {
    if n != 0 {
      FromToBits(x / 2, n - 1);
    }
  }

  lemma {:induction false} ToFromBits(bits: seq<bool>)
    ensures FromBits(bits) < Pow2(|bits|)
    ensures ToBits(FromBits(bits), |bits|) == bits
  {
    if bits != [] {
      ToFromBits(bits[1..]);
      assert FromBits(bits) / 2 == FromBits(bits[1..]);
    }
  }

  // ----- the register -----

  type Register = c: seq<bool> | |c| == 16 witness Zeroes(16)

  /** The set bits of 0x8408, the reflected polynomial 0x1021. */
  predicate Tap(i: int) {
    i == 3 || i == 10 || i == 15
  }

  const POLYNOMIAL: Register := [false, false, false, true, false, false, false, false,
                               false, false, true, false, false, false, false, true]
  const INIT: Register := Ones(16)

  lemma BitsOf08()
    ensures ToBits(0x08, 8) == POLYNOMIAL[..8]
  {
  }

  lemma BitsOf84()
    ensures ToBits(0x84, 8) == POLYNOMIAL[8..]
  {
  }

  lemma {:induction false} AllOnes(n: nat)
    ensures ToBits(Pow2(n) - 1, n) == Ones(n)
  {
    if n != 0 {
      AllOnes(n - 1);
      assert (Pow2(n) - 1) / 2 == Pow2(n - 1) - 1;
      assert Ones(n) == [true] + Ones(n - 1);
    }
  }

  /** The polynomial is 0x8408, low byte first, and the register starts at 0xffff. */
  lemma Constants()
    ensures POLYNOMIAL == ToBits(0x08, 8) + ToBits(0x84, 8)
    ensures INIT == ToBits(0xffff, 16)
  {
    BitsOf08();
    BitsOf84();
    assert POLYNOMIAL == POLYNOMIAL[..8] + POLYNOMIAL[8..];
    AllOnes(16);
    Pow16();
  }

  lemma Pow16()
    ensures Pow2(16) == 0x1_0000
  {
    assert Pow2(4) == 16 && Pow2(8) == 256 && Pow2(12) == 4096;
  }

  /** One step of the loop over a byte's bits: shift, and feed the dropped bit back. */
  function Shift(c: Register): Register {
    var half := c[1..] + [false];
    if c[0] then Xor(half, POLYNOMIAL) else half
  }

  function Shifts(c: Register, n: nat): Register
    decreases n
  {
    if n == 0 then c else Shifts(Shift(c), n - 1)
  }

  /** Up to sixteen bits, widened to a register. */
  function Pad(bits: seq<bool>): Register
    requires |bits| <= 16
  {
    bits + Zeroes(16 - |bits|)
  }

  function BitsOf(b: byte): (bits: seq<bool>)
    ensures |bits| == 8
  {
    ToBits(b, 8)
  }

  /** A byte is XORed into the low bits, then shifted out bit by bit. */
  function Mix(c: Register, bits: seq<bool>): Register
    requires |bits| <= 16
  {
    Shifts(Xor(c, Pad(bits)), |bits|)
  }

  /** The register after `bytes`, started at `c`. */
  function Feed(c: Register, bytes: seq<byte>): Register
    decreases |bytes|
  {
    if bytes == [] then c else Feed(Mix(c, BitsOf(bytes[0])), bytes[1..])
  }

  function Residue(bytes: seq<byte>): Register {
    Feed(INIT, bytes)
  }

  /** The CRC as the `u16` that is compared and sent. */
  function Crc(bytes: seq<byte>): (v: nat)
    ensures v < 0x1_0000
  {
    RegisterFits(Residue(bytes));
    FromBits(Residue(bytes))
  }

  lemma RegisterFits(c: Register)
    ensures FromBits(c) < 0x1_0000 && ToBits(FromBits(c), 16) == c
  {
    ToFromBits(c);
    Pow16();
  }

  /** The source's loop over a message, proved against the recursive definition. */
  method Crc16(bytes: seq<byte>) returns (v: nat)
    ensures v == Crc(bytes)
  {
    var crc := INIT;
    for i := 0 to |bytes|
      invariant Feed(crc, bytes[i..]) == Residue(bytes)
    {
      assert bytes[i..][0] == bytes[i] && bytes[i..][1..] == bytes[i + 1..];
      crc := MixByte(crc, bytes[i]);
    }
    assert bytes[|bytes|..] == [];
    v := FromBits(crc);
  }

  /** Its inner loop. */
  method MixByte(c: Register, b: byte) returns (crc: Register)
    ensures crc == Mix(c, BitsOf(b))
  {
    crc := Xor(c, Pad(BitsOf(b)));
    for k := 0 to 8
      invariant Shifts(crc, 8 - k) == Mix(c, BitsOf(b))
    {
      crc := Shift(crc);
    }
  }

  // ----- the same register fed one bit at a time -----

  function Take(c: Register, b: bool): Register {
    Shift(c[0 := c[0] != b])
  }

  function FeedBits(c: Register, bits: seq<bool>): Register
    decreases |bits|
  {
    if bits == [] then c else FeedBits(Take(c, bits[0]), bits[1..])
  }

  lemma FeedBitsConcat(c: Register, a: seq<bool>, b: seq<bool>)
    ensures FeedBits(c, a + b) == FeedBits(FeedBits(c, a), b)
    decreases |a|
  {
    if a == [] {
      assert a + b == b;
    } else {
      assert (a + b)[1..] == a[1..] + b;
      FeedBitsConcat(Take(c, a[0]), a[1..], b);
    }
  }

  lemma TakeIsLinear(c: Register, d: Register, a: bool, b: bool)
    ensures Xor(Take(c, a), Take(d, b)) == Take(Xor(c, d), a != b)
  {
  }

  /** The CRC is affine over XOR: how a difference propagates does not depend on the message. */
  lemma {:induction false} FeedBitsIsAffine(c: Register, d: Register, a: seq<bool>, b: seq<bool>)
    requires |a| == |b|
    ensures Xor(FeedBits(c, a), FeedBits(d, b)) == FeedBits(Xor(c, d), Xor(a, b))
    decreases |a|
  {
    if a != [] {
      TakeIsLinear(c, d, a[0], b[0]);
      FeedBitsIsAffine(Take(c, a[0]), Take(d, b[0]), a[1..], b[1..]);
      assert Xor(a, b)[1..] == Xor(a[1..], b[1..]);
    }
  }

  /** The feedback makes every step invertible: the bit shifted out can be read off bit 15. */
  lemma TakeIsInjective(c: Register, d: Register, b: bool)
    requires Take(c, b) == Take(d, b)
    ensures c == d
  {
    var x, y := c[0 := c[0] != b], d[0 := d[0] != b];
    assert x[0] == Shift(x)[15] && y[0] == Shift(y)[15];
    forall i | 0 <= i < 16 ensures c[i] == d[i] {
      if i > 0 {
        assert Shift(x)[i - 1] == (x[i] != (x[0] && Tap(i - 1)));
        assert Shift(y)[i - 1] == (y[i] != (y[0] && Tap(i - 1)));
      }
    }
  }

  /** What follows an error can never hide it. */
  lemma {:induction false} FeedBitsIsInjective(c: Register, d: Register, bits: seq<bool>)
    requires FeedBits(c, bits) == FeedBits(d, bits)
    ensures c == d
    decreases |bits|
  {
    if bits != [] {
      FeedBitsIsInjective(Take(c, bits[0]), Take(d, bits[0]), bits[1..]);
      TakeIsInjective(c, d, bits[0]);
    }
  }

  lemma {:induction false} FeedZeroes(bits: seq<bool>)
    requires forall i :: 0 <= i < |bits| ==> !bits[i]
    ensures FeedBits(Zeroes(16), bits) == Zeroes(16)
  {
    if bits != [] {
      assert Take(Zeroes(16), bits[0]) == Zeroes(16);
      FeedZeroes(bits[1..]);
    }
  }

  /** Sixteen bits fill the register exactly: only the register that spells them is driven to zero by them. */
  lemma {:induction false} ZeroedByItself(c: Register, bits: seq<bool>)
    requires |bits| <= 16
    requires FeedBits(c, bits) == Zeroes(16)
    ensures c == Pad(bits)
    decreases |bits|
  {
    if bits != [] {
      ZeroedByItself(Take(c, bits[0]), bits[1..]);
      var p := Pad(bits);
      forall i | 0 <= i < 16 ensures Take(p, bits[0])[i] == Pad(bits[1..])[i] {}
      assert Take(p, bits[0]) == Pad(bits[1..]);
      TakeIsInjective(c, p, bits[0]);
    }
  }

  // ----- error detection -----

  /** `a` and `b` agree outside a window of sixteen consecutive bits starting at bit `k`. */
  ghost predicate DifferInBurst(a: seq<bool>, b: seq<bool>, k: nat) {
    |a| == |b| && forall i :: 0 <= i < |a| && !(k <= i < k + 16) ==> a[i] == b[i]
  }

  lemma {:induction false} ZeroPrefix(d: seq<bool>, n: nat)
    requires n <= |d|
    requires forall i :: 0 <= i < n ==> !d[i]
    ensures FeedBits(Zeroes(16), d) == FeedBits(Zeroes(16), d[n..])
  {
    assert d == d[..n] + d[n..];
    FeedBitsConcat(Zeroes(16), d[..n], d[n..]);
    FeedZeroes(d[..n]);
  }

  lemma ZeroSuffix(d: seq<bool>, n: nat)
    requires n <= |d|
    requires forall i :: n <= i < |d| ==> !d[i]
    requires FeedBits(Zeroes(16), d) == Zeroes(16)
    ensures FeedBits(Zeroes(16), d[..n]) == Zeroes(16)
  {
    assert d == d[..n] + d[n..];
    FeedBitsConcat(Zeroes(16), d[..n], d[n..]);
    FeedZeroes(d[n..]);
    FeedBitsIsInjective(FeedBits(Zeroes(16), d[..n]), Zeroes(16), d[n..]);
  }

  lemma BurstAtFront(d: seq<bool>, n: nat)
    requires n <= |d| && n <= 16
    requires forall i :: n <= i < |d| ==> !d[i]
    requires FeedBits(Zeroes(16), d) == Zeroes(16)
    ensures forall i :: 0 <= i < n ==> !d[i]
  {
    var burst := d[..n];
    ZeroSuffix(d, n);
    ZeroedByItself(Zeroes(16), burst);
    forall i | 0 <= i < n ensures !d[i] {
      assert d[i] == burst[i] == Zeroes(16)[i];
    }
  }

  /** A nonzero difference confined to sixteen bits never cancels, whatever follows it. */
  lemma BurstNeverCancels(d: seq<bool>, lo: nat, hi: nat)
    requires lo <= hi <= |d| && hi - lo <= 16
    requires forall i :: 0 <= i < |d| && !(lo <= i < hi) ==> !d[i]
    requires FeedBits(Zeroes(16), d) == Zeroes(16)
    ensures forall i :: lo <= i < hi ==> !d[i]
  {
    var rest := d[lo..];
    ZeroPrefix(d, lo);
    BurstAtFront(rest, hi - lo);
    forall i | lo <= i < hi ensures !d[i] {
      assert d[i] == rest[i - lo];
    }
  }

  /** A burst of at most sixteen bits changes the register, wherever it lies and whatever surrounds it. */
  lemma BurstChangesRegister(c: Register, a: seq<bool>, b: seq<bool>, k: nat)
    requires DifferInBurst(a, b, k)
    requires FeedBits(c, a) == FeedBits(c, b)
    ensures a == b
  {
    var lo := if k < |a| then k else |a|;
    var hi := if k + 16 < |a| then k + 16 else |a|;
    FeedBitsIsAffine(c, c, a, b);
    assert Xor(c, c) == Zeroes(16) && Xor(FeedBits(c, a), FeedBits(c, b)) == Zeroes(16);
    BurstNeverCancels(Xor(a, b), lo, hi);
  }

  // ----- from bits to bytes -----

  function BitString(bytes: seq<byte>): (bits: seq<bool>)
    ensures |bits| == 8 * |bytes|
  {
    if bytes == [] then [] else BitsOf(bytes[0]) + BitString(bytes[1..])
  }

  /** XORing a whole byte in before eight shifts is the same as feeding its bits one by one. */
  lemma {:induction false} ShiftsTakeBits(c: Register, bits: seq<bool>)
    requires |bits| <= 16
    ensures Mix(c, bits) == FeedBits(c, bits)
    decreases |bits|
  {
    if bits == [] {
      assert Xor(c, Pad(bits)) == c;
    } else {
      assert Shift(Xor(c, Pad(bits))) == Xor(Take(c, bits[0]), Pad(bits[1..]));
      ShiftsTakeBits(Take(c, bits[0]), bits[1..]);
    }
  }

  /** The byte-wise register is the bit-wise one. */
  lemma {:induction false} FeedIsFeedBits(c: Register, bytes: seq<byte>)
    ensures Feed(c, bytes) == FeedBits(c, BitString(bytes))
    decreases |bytes|
  {
    if bytes != [] {
      ShiftsTakeBits(c, BitsOf(bytes[0]));
      FeedBitsConcat(c, BitsOf(bytes[0]), BitString(bytes[1..]));
      FeedIsFeedBits(Mix(c, BitsOf(bytes[0])), bytes[1..]);
    }
  }

  lemma SameBitsSameByte(a: byte, b: byte)
    requires BitsOf(a) == BitsOf(b)
    ensures a == b
  {
    assert Pow2(8) == 256;
    FromToBits(a, 8);
    FromToBits(b, 8);
  }

  lemma {:induction false} BitStringIsInjective(a: seq<byte>, b: seq<byte>)
    requires |a| == |b| && BitString(a) == BitString(b)
    ensures a == b
  {
    if a != [] {
      assert BitString(a)[..8] == BitsOf(a[0]) && BitString(b)[..8] == BitsOf(b[0]);
      assert BitString(a)[8..] == BitString(a[1..]) && BitString(b)[8..] == BitString(b[1..]);
      SameBitsSameByte(a[0], b[0]);
      BitStringIsInjective(a[1..], b[1..]);
    }
  }

  /** Two messages that differ only inside sixteen consecutive bits never share a CRC. */
  lemma BurstDetected(a: seq<byte>, b: seq<byte>, k: nat)
    requires |a| == |b| && a != b
    requires DifferInBurst(BitString(a), BitString(b), k)
    ensures Crc(a) != Crc(b)
  {
    FeedIsFeedBits(INIT, a);
    FeedIsFeedBits(INIT, b);
    if Crc(a) == Crc(b) {
      RegisterFits(Residue(a));
      RegisterFits(Residue(b));
      BurstChangesRegister(INIT, BitString(a), BitString(b), k);
      BitStringIsInjective(a, b);
    }
  }

  lemma {:induction false} BitStringAt(bytes: seq<byte>, i: nat)
    requires i < 8 * |bytes|
    ensures BitString(bytes)[i] == BitsOf(bytes[i / 8])[i % 8]
  {
    if i >= 8 {
      BitStringAt(bytes[1..], i - 8);
    }
  }

  lemma AdjacentBytesAreABurst(a: seq<byte>, b: seq<byte>, k: nat)
    requires |a| == |b|
    requires forall j :: 0 <= j < |a| && j != k && j != k + 1 ==> a[j] == b[j]
    ensures DifferInBurst(BitString(a), BitString(b), 8 * k)
  {
    forall j | 0 <= j < 8 * |a| && !(8 * k <= j < 8 * k + 16)
      ensures BitString(a)[j] == BitString(b)[j]
    {
      BitStringAt(a, j);
      BitStringAt(b, j);
    }
  }

  // ----- the trailer -----

  /** The sixteen bits of a little-endian trailer. */
  function Trailer(lo: byte, hi: byte): Register {
    BitsOf(lo) + BitsOf(hi)
  }

  lemma Behead(a: seq<bool>, b: seq<bool>)
    requires a != []
    ensures (a + b)[0] == a[0] && (a + b)[1..] == a[1..] + b
  {
  }

  lemma {:induction false} FromBitsConcat(a: seq<bool>, b: seq<bool>)
    ensures FromBits(a + b) == FromBits(a) + Pow2(|a|) * FromBits(b)
  {
    if a == [] {
      assert a + b == b;
    } else {
      FromBitsConcat(a[1..], b);
      Behead(a, b);
      Double(Pow2(|a| - 1), FromBits(b));
    }
  }

  lemma TrailerValue(lo: byte, hi: byte)
    ensures FromBits(Trailer(lo, hi)) == lo as nat + 256 * hi as nat
  {
    FromBitsConcat(BitsOf(lo), BitsOf(hi));
    assert Pow2(8) == 256;
    FromToBits(lo, 8);
    FromToBits(hi, 8);
  }

  lemma {:induction false} FeedConcat(c: Register, a: seq<byte>, b: seq<byte>)
    ensures Feed(c, a + b) == Feed(Feed(c, a), b)
    decreases |a|
  {
    if a == [] {
      assert a + b == b;
    } else {
      assert (a + b)[1..] == a[1..] + b;
      FeedConcat(Mix(c, BitsOf(a[0])), a[1..], b);
    }
  }

  lemma FeedTrailer(c: Register, lo: byte, hi: byte)
    ensures Feed(c, [lo, hi]) == FeedBits(c, Trailer(lo, hi))
  {
    FeedIsFeedBits(c, [lo, hi]);
    assert [lo, hi][1..] == [hi];
    assert BitString([hi]) == BitsOf(hi);
  }

  lemma OwnBitsZero(c: Register)
    ensures FeedBits(c, c) == Zeroes(16)
  {
    ShiftsTakeBits(c, c);
    assert Xor(c, Pad(c)) == Zeroes(16);
    ShiftsOfZero(16);
  }

  lemma TrailerZeroes(body: seq<byte>, lo: byte, hi: byte)
    ensures Trailer(lo, hi) == Residue(body) <==> Residue(body + [lo, hi]) == Zeroes(16)
  {
    FeedConcat(INIT, body, [lo, hi]);
    FeedTrailer(Residue(body), lo, hi);
    if Residue(body + [lo, hi]) == Zeroes(16) {
      ZeroedByItself(Residue(body), Trailer(lo, hi));
    }
    if Trailer(lo, hi) == Residue(body) {
      OwnBitsZero(Residue(body));
    }
  }

  lemma {:induction false} ZeroIsZero(n: nat)
    ensures FromBits(Zeroes(n)) == 0
  {
    if n != 0 {
      assert Zeroes(n)[1..] == Zeroes(n - 1);
      ZeroIsZero(n - 1);
    }
  }

  /** Registers and the numbers they spell are compared alike. */
  lemma SameNumber(c: Register, d: Register)
    ensures c == d <==> FromBits(c) == FromBits(d)
  {
    RegisterFits(c);
    RegisterFits(d);
  }

  /** A trailer matches exactly when the CRC of the message with its trailer is zero. */
  lemma TrailerMatchesIffResidueZero(body: seq<byte>, lo: byte, hi: byte)
    ensures lo as nat + 256 * hi as nat == Crc(body) <==> Crc(body + [lo, hi]) == 0
  {
    TrailerZeroes(body, lo, hi);
    TrailerValue(lo, hi);
    SameNumber(Trailer(lo, hi), Residue(body));
    SameNumber(Residue(body + [lo, hi]), Zeroes(16));
    ZeroIsZero(16);
  }

  lemma {:induction false} ShiftsOfZero(n: nat)
    ensures Shifts(Zeroes(16), n) == Zeroes(16)
  {
    if n != 0 {
      assert Shift(Zeroes(16)) == Zeroes(16);
      ShiftsOfZero(n - 1);
    }
  }
}
