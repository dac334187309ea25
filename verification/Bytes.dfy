/** Bytes and little-endian words, as the wire, the target memory and the sample frames lay them out. */
module Bytes {

  type byte = x: int | 0 <= x < 256

  /** The number a little-endian byte string spells. */
  function FromLE(bytes: seq<byte>): nat {
    if bytes == [] then 0 else bytes[0] + 256 * FromLE(bytes[1..])
  }

  /** The `len` low bytes of `n`, least significant first. */
  function ToLE(n: nat, len: nat): (bytes: seq<byte>)
    ensures |bytes| == len
  {
    if len == 0 then [] else [n % 256] + ToLE(n / 256, len - 1)
  }

  function Pow256(n: nat): (p: nat)
    ensures p > 0
  {
    if n == 0 then 1 else 256 * Pow256(n - 1)
  }

  function Pow2(n: nat): (p: nat)
    ensures p > 0
  {
    if n == 0 then 1 else 2 * Pow2(n - 1)
  }

  lemma Double(p: nat, q: nat)
    ensures 2 * (p * q) == (2 * p) * q
  {
  }

  lemma WordSizes()
    ensures Pow256(1) == 0x100
    ensures Pow256(2) == 0x1_0000
    ensures Pow256(4) == 0x1_0000_0000
    ensures Pow256(8) == 0x1_0000_0000_0000_0000
  {
    assert Pow256(3) == 0x100_0000;
    assert Pow256(5) == 0x100_0000_0000;
    assert Pow256(6) == 0x1_0000_0000_0000;
    assert Pow256(7) == 0x100_0000_0000_0000;
  }

  lemma {:induction false} FromLEBound(bytes: seq<byte>)
    ensures FromLE(bytes) < Pow256(|bytes|)
  {
    if bytes != [] {
      FromLEBound(bytes[1..]);
    }
  }

  /** Decoding what was encoded gives the number back when it fits its width. */
  lemma {:induction false} FromToLE(n: nat, len: nat)
    requires n < Pow256(len)
    ensures FromLE(ToLE(n, len)) == n
  {
    if len != 0 {
      FromToLE(n / 256, len - 1);
      assert ToLE(n, len)[1..] == ToLE(n / 256, len - 1);
    }
  }

  lemma Regroup(p: nat, q: nat)
    ensures 256 * (p * q) == (256 * p) * q
  {
  }

  /** Splitting a little-endian string splits its value at that byte. */
  lemma {:induction false} FromLEConcat(a: seq<byte>, b: seq<byte>)
    ensures FromLE(a + b) == FromLE(a) + Pow256(|a|) * FromLE(b)
  {
    if a == [] {
      assert a + b == b;
    } else {
      FromLEConcat(a[1..], b);
      assert (a + b)[1..] == a[1..] + b;
      Regroup(Pow256(|a| - 1), FromLE(b));
    }
  }

  /** The number of `len` bytes from `at` on, read where it stands. */
  function WordAt(bytes: seq<byte>, at: nat, len: nat): nat
    requires at + len <= |bytes|
    decreases len, bytes
  {
    if len == 0 then 0 else bytes[at] + 256 * WordAt(bytes, at + 1, len - 1)
  }

  lemma {:induction false} WordIs(bytes: seq<byte>, at: nat, len: nat)
    requires at + len <= |bytes|
    ensures WordAt(bytes, at, len) == FromLE(bytes[at..at + len])
    decreases len
  {
    if len != 0 {
      WordIs(bytes, at + 1, len - 1);
      assert bytes[at..at + len][1..] == bytes[at + 1..at + 1 + (len - 1)];
    }
  }

  lemma WordBound(bytes: seq<byte>, at: nat, len: nat)
    requires at + len <= |bytes|
    ensures WordAt(bytes, at, len) < Pow256(len)
  {
    WordIs(bytes, at, len);
    FromLEBound(bytes[at..at + len]);
  }

  lemma Assoc(a: seq<byte>, b: seq<byte>, c: seq<byte>)
    ensures (a + b) + c == a + (b + c)
  {
  }

  /** The pieces laid end to end. */
  function Flatten(pieces: seq<seq<byte>>): seq<byte> {
    if pieces == [] then [] else pieces[0] + Flatten(pieces[1..])
  }

  lemma {:induction false} FlattenAppend(pieces: seq<seq<byte>>, more: seq<byte>)
    ensures Flatten(pieces + [more]) == Flatten(pieces) + more
  {
    if pieces == [] {
      assert [more][1..] == [];
    } else {
      FlattenAppend(pieces[1..], more);
      assert (pieces + [more])[1..] == pieces[1..] + [more];
      Assoc(pieces[0], Flatten(pieces[1..]), more);
    }
  }
}
