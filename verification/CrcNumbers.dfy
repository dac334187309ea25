/** The CRC in numbers: what each bit of a message does to the 16-bit register. */
module CrcNumbers {
  import opened Bytes
  import opened Crc
  import Values

  /** `n` with the bit of weight `p` changed. */
  function Flip(n: int, p: nat): int
    requires p > 0
  {
    if n / p % 2 == 1 then n - p else n + p
  }

  /** The register after one bit: XOR it in, shift, and XOR 0x8408 when a one was shifted out. */
  function Step(n: int, bit: bool): int {
    var m := if bit then Flip(n, 1) else n;
    if m % 2 == 1 then Flip(Flip(Flip(m / 2, 0x8), 0x400), 0x8000) else m / 2
  }

  /** The register after the low `k` bits of `x`, lowest first. */
  function Fold(n: int, x: nat, k: nat): int
    decreases k
  {
    if k == 0 then n else Fold(Step(n, x % 2 == 1), x / 2, k - 1)
  }

  function FoldAll(n: int, bytes: seq<byte>): int
    decreases |bytes|
  {
    if bytes == [] then n else FoldAll(Fold(n, bytes[0], 8), bytes[1..])
  }

  lemma {:induction false} BitOfNumber(bits: seq<bool>, i: nat)
    requires i < |bits|
    ensures bits[i] <==> FromBits(bits) / Pow2(i) % 2 == 1
  {
    if i > 0 {
      BitOfNumber(bits[1..], i - 1);
      assert FromBits(bits) / 2 == FromBits(bits[1..]);
      Values.DivDiv(FromBits(bits), 2, Pow2(i - 1));
    }
  }

  lemma {:induction false} FlipOfNumber(bits: seq<bool>, i: nat)
    requires i < |bits|
    ensures FromBits(bits[i := !bits[i]]) == FromBits(bits) + if bits[i] then -(Pow2(i) as int) else Pow2(i)
  {
    var flipped := bits[i := !bits[i]];
    if i > 0 {
      FlipOfNumber(bits[1..], i - 1);
      assert flipped[1..] == bits[1..][i - 1 := !bits[i]];
    } else {
      assert flipped[1..] == bits[1..];
    }
  }

  lemma FlipIs(bits: seq<bool>, i: nat)
    requires i < |bits|
    ensures FromBits(bits[i := !bits[i]]) == Flip(FromBits(bits), Pow2(i))
  {
    BitOfNumber(bits, i);
    FlipOfNumber(bits, i);
  }

  lemma {:induction false} ZeroOnTop(bits: seq<bool>)
    ensures FromBits(bits + [false]) == FromBits(bits)
  {
    if bits == [] {
      assert bits + [false] == [false] && [false][1..] == [];
    } else {
      ZeroOnTop(bits[1..]);
      assert (bits + [false])[1..] == bits[1..] + [false];
    }
  }

  lemma Weights()
    ensures Pow2(0) == 1 && Pow2(3) == 0x8 && Pow2(10) == 0x400 && Pow2(15) == 0x8000
  {
    assert Pow2(5) == 32;
  }

  /** XORing the polynomial in changes the bits of 0x8408. */
  lemma PolynomialFlips(half: Register)
    ensures FromBits(Xor(half, POLYNOMIAL)) == Flip(Flip(Flip(FromBits(half), 0x8), 0x400), 0x8000)
  {
    Weights();
    var a := half[3 := !half[3]];
    var b := a[10 := !a[10]];
    FlipIs(half, 3);
    FlipIs(a, 10);
    FlipIs(b, 15);
    assert Xor(half, POLYNOMIAL) == b[15 := !b[15]];
  }

  lemma ShiftIsHalf(c: Register)
    ensures FromBits(Shift(c)) ==
            if c[0] then Flip(Flip(Flip(FromBits(c) / 2, 0x8), 0x400), 0x8000) else FromBits(c) / 2
    ensures c[0] <==> FromBits(c) % 2 == 1
  {
    var half: Register := c[1..] + [false];
    ZeroOnTop(c[1..]);
    assert FromBits(c) == (if c[0] then 1 else 0) + 2 * FromBits(c[1..]);
    assert FromBits(c) / 2 == FromBits(half);
    PolynomialFlips(half);
  }

  lemma TakeIsStep(c: Register, bit: bool)
    ensures FromBits(Take(c, bit)) == Step(FromBits(c), bit)
  {
    Weights();
    var d := c[0 := c[0] != bit];
    FlipIs(c, 0);
    assert bit ==> d == c[0 := !c[0]];
    assert !bit ==> d == c;
    ShiftIsHalf(d);
  }

  lemma {:induction false} BitsFold(c: Register, x: nat, k: nat)
    ensures FromBits(FeedBits(c, ToBits(x, k))) == Fold(FromBits(c), x, k)
    decreases k
  {
    if k > 0 {
      TakeIsStep(c, x % 2 == 1);
      assert ToBits(x, k)[1..] == ToBits(x / 2, k - 1);
      BitsFold(Take(c, x % 2 == 1), x / 2, k - 1);
    }
  }

  lemma {:induction false} BytesFold(c: Register, bytes: seq<byte>)
    ensures FromBits(Feed(c, bytes)) == FoldAll(FromBits(c), bytes)
    decreases |bytes|
  {
    if bytes != [] {
      ShiftsTakeBits(c, BitsOf(bytes[0]));
      BitsFold(c, bytes[0], 8);
      BytesFold(Mix(c, BitsOf(bytes[0])), bytes[1..]);
    }
  }

  /** The CRC of any message, computed on the number the register holds. */
  lemma CrcInNumbers(bytes: seq<byte>)
    ensures Crc.Crc(bytes) == FoldAll(0xffff, bytes)
  {
    Constants();
    RegisterFits(INIT);
    Pow16();
    FromToBits(0xffff, 16);
    BytesFold(INIT, bytes);
  }
}
