/** Watched values: which bytes of target memory hold them, and how those bytes decode. */
module Values {
  import opened Bytes
  import opened Common

  datatype Scalar = U8 | I8 | Bool | U16 | I16 | U32 | I32 | F32 | U64 | I64 | F64 | Raw(size: nat)

  datatype ReadItem = ReadItem(id: nat, address: nat, scalar: Scalar, bitOffset: Option<nat>, bitSize: Option<nat>)

  /** A decoded number: not a number, a whole number, or the bits of an IEEE 754 value. */
  datatype Cell = NaN | Whole(v: int) | Float(bits: nat, size: nat)

  function ScalarLen(s: Scalar): Option<nat> {
    match s
    case U8 | I8 | Bool => Some(1)
    case U16 | I16 => Some(2)
    case U32 | I32 | F32 => Some(4)
    case U64 | I64 | F64 => Some(8)
    case Raw(_) => None
  }

  predicate IsSigned(s: Scalar) {
    s.I8? || s.I16? || s.I32? || s.I64?
  }

  predicate IsBitfield(item: ReadItem) {
    item.bitOffset.Some? && item.bitSize.Some?
  }

  /** Where the value lies in target memory: its start and length. */
  function Span(item: ReadItem): Option<(nat, nat)> {
    if IsBitfield(item) && item.bitSize.value > 0 then
      var bit, bits := item.bitOffset.value, item.bitSize.value;
      Some((item.address + bit / 8, (bit % 8 + bits + 7) / 8))
    else
      match ScalarLen(item.scalar)
      case Some(n) => Some((item.address, n))
      case None => None
  }

  // ----- powers of two -----

  lemma {:induction false} Pow2Add(a: nat, b: nat)
    ensures Pow2(a + b) == Pow2(a) * Pow2(b)
  {
    if a != 0 {
      Pow2Add(a - 1, b);
      Double(Pow2(a - 1), Pow2(b));
    }
  }

  lemma {:induction false} Pow256Is(n: nat)
    ensures Pow256(n) == Pow2(8 * n)
  {
    if n != 0 {
      Pow256Is(n - 1);
      Pow2Add(8, 8 * (n - 1));
      assert Pow2(8) == 256;
    }
  }

  lemma QuotientUnique(x: int, p: int, q: int, r: int)
    requires p > 0 && 0 <= r < p && x == q * p + r
    ensures x / p == q && x % p == r
  {
    var d := x / p - q;
    Distribute(x / p, q, p);
    ScalesUp(d, p);
    ScalesUp(-d, p);
  }

  lemma Distribute(a: int, b: int, p: int)
    ensures (a - b) * p == a * p - b * p
  {
  }

  lemma ScalesUp(d: int, p: int)
    requires p > 0
    ensures d >= 1 ==> d * p >= p
    ensures (-d) * p == -(d * p)
  {
  }

  lemma DivShift(x: nat, p: nat, m: nat)
    requires p > 0
    ensures (x + p * m) / p == x / p + m
    ensures (x + p * m) % p == x % p
  {
    assert x + p * m == (x / p + m) * p + x % p by {
      assert (x / p + m) * p == x / p * p + m * p;
    }
    QuotientUnique(x + p * m, p, x / p + m, x % p);
  }

  lemma Products(c: int, d: int, p: int, q: int)
    ensures (c * q + d) * p == c * (p * q) + d * p
    ensures (d + 1) * p == d * p + p
  {
  }

  lemma LessTimes(d: int, q: int, p: int)
    requires d + 1 <= q && p > 0
    ensures (d + 1) * p <= p * q && p * q >= p * (d + 1)
  {
  }

  lemma DivDiv(x: nat, p: nat, q: nat)
    requires p > 0 && q > 0
    ensures p * q > 0 && x / (p * q) == x / p / q
  {
    var a := x / p;
    var c, d := a / q, a % q;
    assert a == c * q + d && x == a * p + x % p;
    Products(c, d, p, q);
    LessTimes(d, q, p);
    QuotientUnique(x, p * q, c, d * p + x % p);
  }

  // ----- bits of a little-endian number -----

  /** Bits `[bit, bit + bits)` of `x`. */
  function Cut(x: nat, bit: nat, bits: nat): (field: nat)
    ensures field < Pow2(bits)
  {
    x / Pow2(bit) % Pow2(bits)
  }

  lemma Assoc3(p: nat, q: nat, r: nat, h: nat)
    ensures (p * (q * r)) * h == p * (q * (r * h))
  {
    assert (q * r) * h == q * (r * h);
    assert (p * (q * r)) * h == p * ((q * r) * h);
  }

  /** Bits beyond a field, however many, do not affect it. */
  lemma CutIgnoresHigh(mid: nat, high: nat, top: nat, r: nat, bits: nat)
    requires r + bits <= top
    ensures Cut(mid + Pow2(top) * high, r, bits) == Cut(mid, r, bits)
  {
    var rest := top - r - bits;
    Pow2Add(r, bits + rest);
    Pow2Add(bits, rest);
    DropHigh(mid, high, Pow2(r), Pow2(bits), Pow2(rest));
  }

  lemma DropHigh(mid: nat, high: nat, p: nat, q: nat, r: nat)
    requires p > 0 && q > 0
    ensures (mid + p * (q * r) * high) / p % q == mid / p % q
  {
    Assoc3(p, q, r, high);
    DivShift(mid, p, q * (r * high));
    DivShift(mid / p, q, r * high);
  }

  /** Whole bytes below a field can be skipped. */
  lemma CutSkipsLow(low: nat, rest: nat, f: nat, r: nat, bits: nat)
    requires low < Pow2(f)
    ensures Cut(low + Pow2(f) * rest, f + r, bits) == Cut(rest, r, bits)
  {
    Pow2Add(f, r);
    DropLow(low, rest, Pow2(f), Pow2(r));
  }

  lemma DropLow(low: nat, rest: nat, f: nat, r: nat)
    requires low < f && r > 0
    ensures f * r > 0 && (low + f * rest) / (f * r) == rest / r
  {
    DivDiv(low + f * rest, f, r);
    DivShift(low, f, rest);
    QuotientUnique(low, f, 0, low);
  }

  /** `n` bytes of target memory from `a` on. */
  function Memory(mem: nat -> byte, a: nat, n: nat): (bytes: seq<byte>)
    ensures |bytes| == n
  {
    seq<byte>(n, i requires 0 <= i < n => mem(a + i))
  }

  lemma MemorySplit(mem: nat -> byte, a: nat, m: nat, n: nat)
    ensures Memory(mem, a, m + n) == Memory(mem, a, m) + Memory(mem, a + m, n)
  {
  }

  /**
   Reading only the bytes of the span and shifting by `bit % 8` gives the same field as cutting it out of the whole
   little-endian memory that starts at the item's address, for fields of any width at any offset.
   */
  lemma SpanHoldsField(mem: nat -> byte, item: ReadItem, n: nat)
    requires IsBitfield(item) && item.bitSize.value > 0
    requires 8 * n >= item.bitOffset.value + item.bitSize.value
    ensures Span(item).Some?
    ensures var (start, len) := Span(item).value;
            Cut(FromLE(Memory(mem, start, len)), item.bitOffset.value % 8, item.bitSize.value) ==
            Cut(FromLE(Memory(mem, item.address, n)), item.bitOffset.value, item.bitSize.value)
  {
    var bit, bits := item.bitOffset.value, item.bitSize.value;
    var f, r := bit / 8, bit % 8;
    var (start, len) := Span(item).value;
    var m := n - f - len;
    var low, mid, high := Memory(mem, item.address, f), Memory(mem, start, len), Memory(mem, start + len, m);
    MemorySplit(mem, item.address, f, len + m);
    MemorySplit(mem, start, len, m);
    FromLEConcat(low, mid + high);
    FromLEConcat(mid, high);
    FromLEBound(low);
    Pow256Is(f);
    Pow256Is(len);
    CutIgnoresHigh(FromLE(mid), FromLE(high), 8 * len, r, bits);
    CutSkipsLow(FromLE(low), FromLE(mid + high), 8 * f, r, bits);
  }

  // ----- decoding -----

  /** An `i64` holds `x` modulo 2^64. */
  function ToI64(x: int): int {
    (x + 0x8000_0000_0000_0000) % 0x1_0000_0000_0000_0000 - 0x8000_0000_0000_0000
  }

  function TwosComplement(x: nat, bits: nat): int
    requires bits > 0
  {
    if x / Pow2(bits - 1) % 2 == 1 then x - Pow2(bits) else x
  }

  function DecodeField(signed: bool, raw: nat, bit: nat, bits: nat): Cell {
    if bits == 0 || bits > 64 then NaN else
    var field := Cut(raw, bit % 8, bits);
    if signed && bits < 64 && field / Pow2(bits - 1) % 2 == 1 then
      Whole(ToI64(ToI64(field) - ToI64(Pow2(bits))))
    else
      Whole(field)
  }

  function DecodeScalar(s: Scalar, bytes: seq<byte>): Cell {
    match ScalarLen(s)
    case None => NaN
    case Some(n) =>
      if |bytes| < n then NaN else
      var x := FromLE(bytes[..n]);
      match s
      case Bool => Whole(if x != 0 then 1 else 0)
      case F32 | F64 => Float(x, n)
      case I8 | I16 | I32 | I64 => Whole(TwosComplement(x, 8 * n))
      case _ => Whole(x)
  }

  /** What the bytes of an item's span read as. */
  function Decode(item: ReadItem, bytes: seq<byte>): Cell {
    if IsBitfield(item) then
      DecodeField(IsSigned(item.scalar), FromLE(bytes), item.bitOffset.value, item.bitSize.value)
    else DecodeScalar(item.scalar, bytes)
  }

  // ----- what was stored is what is read -----

  /** `v` modulo 2^bits: the bits a store of `v` leaves in a field. */
  function Stored(v: int, bits: nat): (x: nat)
    ensures x < Pow2(bits)
  {
    v % Pow2(bits)
  }

  /** `x` with the field `[bit, bit + bits)` replaced. */
  function Put(x: nat, bit: nat, bits: nat, field: nat): nat {
    PutAt(x, Pow2(bit), Pow2(bits), field)
  }

  /** The same for a field that starts at 2^bit == `p` and is 2^bits == `q` wide. */
  function PutAt(x: nat, p: nat, q: nat, field: nat): nat
    requires p > 0 && q > 0
  {
    x % p + p * (field + q * Above(x, p, q))
  }

  function Above(x: nat, p: nat, q: nat): nat
    requires p > 0 && q > 0
  {
    x / p / q
  }

  lemma CutPut(x: nat, bit: nat, bits: nat, field: nat)
    requires field < Pow2(bits)
    ensures Cut(Put(x, bit, bits, field), bit, bits) == field
    ensures Put(x, bit, bits, field) % Pow2(bit) == x % Pow2(bit)
    ensures Put(x, bit, bits, field) / Pow2(bit) / Pow2(bits) == x / Pow2(bit) / Pow2(bits)
  {
    PutParts(x, Pow2(bit), Pow2(bits), field);
  }

  lemma PutParts(x: nat, p: nat, q: nat, field: nat)
    requires p > 0 && field < q
    ensures var y := PutAt(x, p, q, field);
            y / p % q == field && y % p == x % p && y / p / q == x / p / q
  {
    var low, high := x % p, x / p / q;
    DivShift(low, p, field + q * high);
    QuotientUnique(low, p, 0, low);
    DivShift(field, q, high);
    QuotientUnique(field, q, 0, field);
  }

  /** A value the field can hold. */
  predicate Fits(signed: bool, bits: nat, v: int)
    requires bits > 0
  {
    if signed then 0 - (Pow2(bits - 1) as int) <= v < Pow2(bits - 1) else 0 <= v < Pow2(bits)
  }

  lemma SignBit(v: int, bits: nat)
    requires bits > 0 && Fits(true, bits, v)
    ensures Stored(v, bits) == if v < 0 then v + Pow2(bits) else v
    ensures Stored(v, bits) / Pow2(bits - 1) % 2 == if v < 0 then 1 else 0
  {
    var p := Pow2(bits - 1);
    if v < 0 {
      QuotientUnique(v, 2 * p, -1, v + 2 * p);
      QuotientUnique(v + 2 * p, p, 1, v + p);
    } else {
      QuotientUnique(v, 2 * p, 0, v);
      QuotientUnique(v, p, 0, v);
    }
  }

  lemma WrappingSubtraction(field: nat, bits: nat)
    requires 0 < bits < 64 && Pow2(bits - 1) <= field < Pow2(bits)
    ensures ToI64(ToI64(field) - ToI64(Pow2(bits))) == field - Pow2(bits)
  {
    Pow2Small(bits);
  }

  lemma {:induction false} Pow2Monotone(a: nat, b: nat)
    requires a <= b
    ensures Pow2(a) <= Pow2(b)
  {
    if a < b {
      Pow2Monotone(a, b - 1);
    }
  }

  lemma Pow2Small(bits: nat)
    requires bits < 64
    ensures Pow2(bits) <= 0x8000_0000_0000_0000
    ensures bits < 63 ==> Pow2(bits) <= 0x4000_0000_0000_0000
  {
    Pow256Is(7);
    Pow2Add(7, 56);
    Pow2Add(6, 56);
    assert Pow256(7) == 0x100_0000_0000_0000 by {
      assert Pow256(4) == 0x1_0000_0000;
    }
    assert Pow2(7) == 128 && Pow2(6) == 64;
    if bits < 63 {
      Pow2Monotone(bits, 62);
    } else {
      Pow2Monotone(bits, 63);
    }
  }

  /**
   Storing a value in a field and decoding the field gives the value back, except for a negative value in a signed field
   of all 64 bits, which decodes as an unsigned number.
   */
  lemma FieldRoundTrip(signed: bool, raw: nat, bit: nat, bits: nat, v: int)
    requires 1 <= bits <= 64 && Fits(signed, bits, v)
    requires Cut(raw, bit % 8, bits) == Stored(v, bits)
    ensures DecodeField(signed, raw, bit, bits) == Whole(v) <==> !(signed && bits == 64 && v < 0)
  {
    var field := Stored(v, bits);
    if signed {
      SignBit(v, bits);
      if v < 0 && bits < 64 {
        WrappingSubtraction(field, bits);
      }
    } else {
      QuotientUnique(v, Pow2(bits), 0, v);
    }
  }

  /** The item's memory is as `before`, with `v` stored in the item's bits. */
  ghost predicate StoredIn(mem: nat -> byte, item: ReadItem, n: nat, before: nat, v: int)
    requires IsBitfield(item)
  {
    FromLE(Memory(mem, item.address, n)) ==
    Put(before, item.bitOffset.value, item.bitSize.value, Stored(v, item.bitSize.value))
  }

  /** The same for memory: store a value in a bitfield's window, read its span, decode. */
  lemma BitfieldRoundTrip(mem: nat -> byte, item: ReadItem, n: nat, before: nat, v: int)
    requires IsBitfield(item) && 1 <= item.bitSize.value <= 64
    requires 8 * n >= item.bitOffset.value + item.bitSize.value
    ensures Span(item).Some?
    ensures var (start, len) := Span(item).value;
            Fits(IsSigned(item.scalar), item.bitSize.value, v) && StoredIn(mem, item, n, before, v) ==>
              (Decode(item, Memory(mem, start, len)) == Whole(v) <==>
               !(IsSigned(item.scalar) && item.bitSize.value == 64 && v < 0))
  {
    if Fits(IsSigned(item.scalar), item.bitSize.value, v) && StoredIn(mem, item, n, before, v) {
      var bit, bits := item.bitOffset.value, item.bitSize.value;
      SpanHoldsField(mem, item, n);
      CutPut(before, bit, bits, Stored(v, bits));
      var (start, len) := Span(item).value;
      FieldRoundTrip(IsSigned(item.scalar), FromLE(Memory(mem, start, len)), bit, bits, v);
    }
  }

  // ----- plain scalars -----

  /** The whole numbers a type holds. */
  predicate InType(s: Scalar, v: int) {
    match s
    case U8 => 0 <= v < 0x100
    case I8 => -0x80 <= v < 0x80
    case U16 => 0 <= v < 0x1_0000
    case I16 => -0x8000 <= v < 0x8000
    case U32 => 0 <= v < 0x1_0000_0000
    case I32 => -0x8000_0000 <= v < 0x8000_0000
    case U64 => 0 <= v < 0x1_0000_0000_0000_0000
    case I64 => -0x8000_0000_0000_0000 <= v < 0x8000_0000_0000_0000
    case _ => false
  }

  /** Memory holds the `n` bytes of `v` modulo `size` == 2^(8n) from `a` on, least significant first. */
  ghost predicate HasNumber(mem: nat -> byte, a: nat, n: nat, size: nat, v: int)
    requires size > 0
  {
    Memory(mem, a, n) == ToLE(v % size, n)
  }

  /** Target memory holds `v` where the item is, in as many bytes as its type takes up. */
  ghost predicate ScalarIs(mem: nat -> byte, a: nat, s: Scalar, v: int) {
    match s
    case U8 | I8 => HasNumber(mem, a, 1, 0x100, v)
    case U16 | I16 => HasNumber(mem, a, 2, 0x1_0000, v)
    case U32 | I32 => HasNumber(mem, a, 4, 0x1_0000_0000, v)
    case U64 | I64 => HasNumber(mem, a, 8, 0x1_0000_0000_0000_0000, v)
    case _ => false
  }

  /** Every value of every whole-number type, signed or not, reads as itself. */
  lemma ScalarRoundTrip(mem: nat -> byte, item: ReadItem, v: int)
    requires !IsBitfield(item) && InType(item.scalar, v) && ScalarIs(mem, item.address, item.scalar, v)
    ensures Span(item).Some? && Span(item).value.0 == item.address
    ensures Decode(item, Memory(mem, item.address, Span(item).value.1)) == Whole(v)
  {
    WordSizes();
    var n := Span(item).value.1;
    Pow256Is(n);
    FromToLE(v % Pow256(n), n);
    var bytes := Memory(mem, item.address, n);
    assert bytes[..n] == bytes && FromLE(bytes) == Stored(v, 8 * n);
    assert Pow2(8 * n) == 2 * Pow2(8 * n - 1);
    if IsSigned(item.scalar) {
      SignBit(v, 8 * n);
    } else {
      QuotientUnique(v, Pow2(8 * n), 0, v);
    }
  }

  /** The other types: a flag reads as 0 or 1, floating point keeps its 4 or 8 bytes, and raw bytes are no number. */
  lemma OtherScalars(mem: nat -> byte, item: ReadItem)
    requires !IsBitfield(item)
    ensures item.scalar.Bool? ==>
              && Span(item) == Some((item.address, 1))
              && Decode(item, Memory(mem, item.address, 1)) == Whole(if mem(item.address) == 0 then 0 else 1)
    ensures item.scalar.F32? ==>
              && Span(item) == Some((item.address, 4))
              && Decode(item, Memory(mem, item.address, 4)) == Float(FromLE(Memory(mem, item.address, 4)), 4)
    ensures item.scalar.F64? ==>
              && Span(item) == Some((item.address, 8))
              && Decode(item, Memory(mem, item.address, 8)) == Float(FromLE(Memory(mem, item.address, 8)), 8)
    ensures item.scalar.Raw? ==> Span(item) == None && forall bytes :: Decode(item, bytes) == NaN
  {
    if ScalarLen(item.scalar).Some? {
      var n := ScalarLen(item.scalar).value;
      var bytes := Memory(mem, item.address, n);
      assert bytes[..n] == bytes;
      if item.scalar.Bool? {
        assert bytes == [mem(item.address)] && bytes[1..] == [];
        assert FromLE(bytes) == bytes[0] + 256 * FromLE(bytes[1..]);
      }
    }
  }

  /** Bytes that do not fill the type are no number, nor is a field of no bits or of more than 64. */
  lemma NoNumber(item: ReadItem, bytes: seq<byte>)
    ensures IsBitfield(item) && !(1 <= item.bitSize.value <= 64) ==> Decode(item, bytes) == NaN
    ensures var n := match item.scalar
                     case U8 | I8 | Bool => 1
                     case U16 | I16 => 2
                     case U32 | I32 | F32 => 4
                     case _ => 8;
            !IsBitfield(item) && |bytes| < n ==> Decode(item, bytes) == NaN
  {
  }

  /** A full-width signed bitfield holding -1 reads as 2^64 - 1. */
  lemma FullWidthSignIsLost(raw: nat)
    requires raw == 0xffff_ffff_ffff_ffff
    ensures DecodeField(true, raw, 0, 64) == Whole(0xffff_ffff_ffff_ffff)
  {
    Pow256Is(8);
    WordSizes();
    QuotientUnique(raw, Pow2(64), 0, raw);
  }
}
