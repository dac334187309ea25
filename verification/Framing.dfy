/**
 Frames in a noisy byte stream: what the decoder emits, counts and keeps, for any integrity check over a whole frame.

 A frame has eight bytes of header (magic, version, command, flags, then number and length as 16-bit words), its payload
 and a 16-bit trailer.
 */
module Framing {
  import opened Bytes
  import opened Resync
  import Crc

  const MAGIC: byte := 0xa5
  const VERSION: byte := 1
  const HEADER_LEN := 8
  const MAX_PAYLOAD := 256

  datatype Frame = Frame(cmd: byte, seqNo: nat, payload: seq<byte>)

  // ----- frames in a byte string -----

  function U16(s: seq<byte>, at: nat): (n: nat)
    requires at + 2 <= |s|
    ensures n < 0x1_0000
  {
    (s[at] as nat) + 256 * (s[at + 1] as nat)
  }

  /** Whether the bytes of a whole frame, trailer included, are to be trusted. */
  type Check = seq<byte> -> bool

  /** Header, payload and trailer, as the length field at `i` says. */
  function Size(s: seq<byte>, i: nat): (n: nat)
    requires i + HEADER_LEN <= |s|
    ensures n >= HEADER_LEN + 2
  {
    HEADER_LEN + U16(s, i + 6) + 2
  }

  /** The version and length at `i` are ones the decoder accepts. */
  predicate HeaderOk(s: seq<byte>, i: nat)
    requires i + HEADER_LEN <= |s|
  {
    s[i + 1] == VERSION && U16(s, i + 6) <= MAX_PAYLOAD
  }

  /** A valid frame starts at `i` and ends inside `s`. */
  predicate FrameAt(ok: Check, s: seq<byte>, i: nat) {
    && i + HEADER_LEN <= |s|
    && s[i] == MAGIC
    && HeaderOk(s, i)
    && i + Size(s, i) <= |s|
    && ok(s[i..i + Size(s, i)])
  }

  /** A frame may start at `i`, but `s` ends before that can be told. */
  predicate Undecided(s: seq<byte>, i: nat)
    requires i < |s|
  {
    s[i] == MAGIC && (|s| - i < HEADER_LEN || (HeaderOk(s, i) && |s| - i < Size(s, i)))
  }

  function FrameOf(s: seq<byte>, i: nat): Frame
    requires i + HEADER_LEN <= |s| && i + Size(s, i) <= |s|
  {
    Frame(s[i + 2], U16(s, i + 4), s[i + HEADER_LEN..i + HEADER_LEN + U16(s, i + 6)])
  }

  // ----- the decoder's pass over a byte string -----

  /** The decoder's decision at offset `i`, check by check. */
  function Judge(ok: Check, s: seq<byte>, i: nat): (v: Cell)
    requires i < |s|
    ensures v.Accept? <==> FrameAt(ok, s, i)
    ensures v.Wait? <==> Undecided(s, i)
    ensures v.Skip? <==> s[i] != MAGIC
    ensures v.Accept? ==> v.size == Size(s, i) && i + v.size <= |s|
  {
    if s[i] != MAGIC then Skip else
    if |s| - i < HEADER_LEN then Wait else
    var len := U16(s, i + 6);
    if s[i + 1] != VERSION || len > MAX_PAYLOAD then Reject else
    var body := HEADER_LEN + len;
    if |s| - i < body + 2 then Wait else
    if !ok(s[i..i + body + 2]) then Reject else
    Accept(body + 2)
  }

  function Cells(ok: Check, s: seq<byte>): (cells: seq<Cell>)
    ensures |cells| == |s| && Fits(cells)
    ensures forall i :: 0 <= i < |s| ==> cells[i] == Judge(ok, s, i)
  {
    seq(|s|, i requires 0 <= i < |s| => Judge(ok, s, i))
  }

  /** Where a frame is found, where one may still come, and what it says, byte by byte. */
  lemma FramesInBytes(ok: Check, s: seq<byte>, i: nat)
    requires i < |s|
    ensures FrameAt(ok, s, i) <==>
            && i + 8 <= |s| && s[i] == 0xa5 && s[i + 1] == 1
            && var len := (s[i + 6] as nat) + 256 * s[i + 7] as nat;
               len <= 256 && i + len + 10 <= |s| && ok(s[i..i + len + 10])
    ensures Undecided(s, i) <==>
            && s[i] == 0xa5
            && (i + 8 <= |s| ==>
                  var len := (s[i + 6] as nat) + 256 * s[i + 7] as nat;
                  s[i + 1] == 1 && len <= 256 && |s| < i + len + 10)
    ensures FrameAt(ok, s, i) ==>
              FrameOf(s, i) == Frame(s[i + 2], (s[i + 4] as nat) + 256 * s[i + 5] as nat,
                                     s[i + 8..i + 8 + (s[i + 6] as nat) + 256 * s[i + 7] as nat])
  {
  }

  lemma WaitIsShort(s: seq<byte>, i: nat)
    requires i < |s| && Undecided(s, i)
    ensures |s| - i <= HEADER_LEN + MAX_PAYLOAD + 1
  {
  }

  /**
   The decoder, declaratively: it emits the one ordered, non-overlapping, complete list of valid frames of the
   stream; it counts as bad exactly the magic bytes it consumed outside them; and what it keeps is empty or starts
   with a magic byte and holds at most 265 bytes.
   */
  lemma DecoderIsExact(ok: Check, s: seq<byte>, hits: seq<nat>, end: nat)
    ensures var r := Scan(Cells(ok, s), 0);
            && (IsParse(Cells(ok, s), 0, hits, end) <==> hits == r.hits && end == r.end)
            && r.end <= |s|
            && r.bad == Loose(Cells(ok, s), r.hits, 0, r.end)
            && (r.end < |s| ==> s[r.end] == MAGIC)
            && |s| - r.end <= 265
  {
    var r := Scan(Cells(ok, s), 0);
    ScanIsParse(Cells(ok, s), 0);
    if IsParse(Cells(ok, s), 0, hits, end) {
      ParseIsUnique(Cells(ok, s), 0, hits, end);
    }
    if r.end < |s| {
      assert Cells(ok, s)[r.end].Wait?;
      WaitIsShort(s, r.end);
    }
  }

  /** Offset `i` lies inside one of the frames at `hits`. */
  ghost predicate Inside(s: seq<byte>, hits: seq<nat>, i: nat) {
    exists k :: 0 <= k < |hits| && hits[k] + HEADER_LEN <= |s| && hits[k] <= i < hits[k] + Size(s, hits[k])
  }

  lemma HitIsFrame(ok: Check, s: seq<byte>, k: nat)
    requires k < |Scan(Cells(ok, s), 0).hits|
    ensures var r := Scan(Cells(ok, s), 0);
            FrameAt(ok, s, r.hits[k]) && r.hits[k] + Size(s, r.hits[k]) <= r.end <= |s|
    ensures var hits := Scan(Cells(ok, s), 0).hits;
            k + 1 < |hits| ==> hits[k] + Size(s, hits[k]) <= hits[k + 1]
  {
    var cells := Cells(ok, s);
    ScanIsParse(cells, 0);
    assert cells[Scan(cells, 0).hits[k]] == Judge(ok, s, Scan(cells, 0).hits[k]);
  }

  lemma {:induction false} HitsApart(ok: Check, s: seq<byte>, j: nat, k: nat)
    requires j < k < |Scan(Cells(ok, s), 0).hits|
    ensures var hits := Scan(Cells(ok, s), 0).hits;
            hits[j] + HEADER_LEN <= |s| && hits[j] + Size(s, hits[j]) <= hits[k]
    decreases k - j
  {
    HitIsFrame(ok, s, j);
    if j + 1 < k {
      HitsApart(ok, s, j + 1, k);
    }
  }

  lemma FrameIsInside(ok: Check, s: seq<byte>, i: nat)
    requires i < Scan(Cells(ok, s), 0).end && FrameAt(ok, s, i)
    ensures Inside(s, Scan(Cells(ok, s), 0).hits, i)
  {
    var cells := Cells(ok, s);
    var hits := Scan(cells, 0).hits;
    ScanIsParse(cells, 0);
    assert cells[i] == Judge(ok, s, i) && Covered(cells, hits, i);
    var k :| 0 <= k < |hits| && hits[k] < |cells| && Hit(cells, hits[k], i);
    assert cells[hits[k]] == Judge(ok, s, hits[k]);
  }

  /** The same in terms of the bytes: what each conjunct of a parse says about frames. */
  lemma EmittedFramesAreValidAndComplete(ok: Check, s: seq<byte>)
    ensures var r := Scan(Cells(ok, s), 0);
            && (forall k :: 0 <= k < |r.hits| ==>
                  FrameAt(ok, s, r.hits[k]) && r.hits[k] + Size(s, r.hits[k]) <= r.end <= |s|)
            && (forall j, k :: 0 <= j < k < |r.hits| ==>
                  r.hits[j] + HEADER_LEN <= |s| && r.hits[j] + Size(s, r.hits[j]) <= r.hits[k])
            && (forall i :: 0 <= i < r.end && FrameAt(ok, s, i) ==> Inside(s, r.hits, i))
  {
    var r := Scan(Cells(ok, s), 0);
    forall k | 0 <= k < |r.hits|
      ensures FrameAt(ok, s, r.hits[k]) && r.hits[k] + Size(s, r.hits[k]) <= r.end <= |s|
    {
      HitIsFrame(ok, s, k);
    }
    forall j, k | 0 <= j < k < |r.hits|
      ensures r.hits[j] + HEADER_LEN <= |s| && r.hits[j] + Size(s, r.hits[j]) <= r.hits[k]
    {
      HitsApart(ok, s, j, k);
    }
    forall i | 0 <= i < r.end && FrameAt(ok, s, i) ensures Inside(s, r.hits, i) {
      FrameIsInside(ok, s, i);
    }
  }

  // ----- the decoder over buffers -----

  datatype Decoded = Decoded(frames: seq<Frame>, bad: nat, rest: seq<byte>)

  ghost predicate AllFrames(ok: Check, s: seq<byte>, hits: seq<nat>) {
    forall k :: 0 <= k < |hits| ==> FrameAt(ok, s, hits[k])
  }

  function FramesAt(ok: Check, s: seq<byte>, hits: seq<nat>): (frames: seq<Frame>)
    requires AllFrames(ok, s, hits)
    ensures |frames| == |hits|
    ensures forall k :: 0 <= k < |hits| ==> frames[k] == FrameOf(s, hits[k])
  {
    seq(|hits|, k requires 0 <= k < |hits| && FrameAt(ok, s, hits[k]) => FrameOf(s, hits[k]))
  }

  lemma ScanInRange(ok: Check, s: seq<byte>, i: nat)
    requires i <= |s|
    ensures i <= Scan(Cells(ok, s), i).end <= |s|
    ensures AllFrames(ok, s, Scan(Cells(ok, s), i).hits)
  {
    var r := Scan(Cells(ok, s), i);
    ScanIsParse(Cells(ok, s), i);
    forall k | 0 <= k < |r.hits| ensures FrameAt(ok, s, r.hits[k]) {
      assert Cells(ok, s)[r.hits[k]] == Judge(ok, s, r.hits[k]);
    }
  }

  function Then(a: Decoded, b: Decoded): Decoded {
    Decoded(a.frames + b.frames, a.bad + b.bad, b.rest)
  }

  /** What the decision at `i` emits and counts. */
  function Says(ok: Check, s: seq<byte>, i: nat): Decoded
    requires i < |s|
  {
    match Judge(ok, s, i)
    case Accept(_) => Decoded([FrameOf(s, i)], 0, [])
    case Reject => Decoded([], 1, [])
    case _ => Decoded([], 0, [])
  }

  /** Where the pass goes on after the decision at `i`. */
  function After(ok: Check, s: seq<byte>, i: nat): (j: nat)
    requires i < |s|
    ensures i < j <= |s|
  {
    if Judge(ok, s, i).Accept? then i + Judge(ok, s, i).size else i + 1
  }

  /** The decoder's pass over `s` from offset `i`: the frames it emits and the bytes it keeps. */
  function DecodeFrom(ok: Check, s: seq<byte>, i: nat): Decoded
    requires i <= |s|
    decreases |s| - i
  {
    if i == |s| || Judge(ok, s, i).Wait? then Decoded([], 0, s[i..])
    else Then(Says(ok, s, i), DecodeFrom(ok, s, After(ok, s, i)))
  }

  function Decode(ok: Check, s: seq<byte>): Decoded {
    DecodeFrom(ok, s, 0)
  }

  lemma {:induction false} AllFramesNext(ok: Check, s: seq<byte>, i: nat, hits: seq<nat>)
    requires FrameAt(ok, s, i) && AllFrames(ok, s, hits)
    ensures AllFrames(ok, s, [i] + hits)
  {
    var all := [i] + hits;
    forall k | 0 <= k < |all| ensures FrameAt(ok, s, all[k]) {
      assert k > 0 ==> all[k] == hits[k - 1];
    }
  }

  lemma {:induction false} FirstFrame(ok: Check, s: seq<byte>, i: nat, hits: seq<nat>)
    requires FrameAt(ok, s, i) && AllFrames(ok, s, hits) && AllFrames(ok, s, [i] + hits)
    ensures FramesAt(ok, s, [i] + hits) == [FrameOf(s, i)] + FramesAt(ok, s, hits)
  {
    var all := [i] + hits;
    var left, right := FramesAt(ok, s, all), [FrameOf(s, i)] + FramesAt(ok, s, hits);
    forall k | 0 <= k < |all| ensures left[k] == right[k] {
      assert k > 0 ==> all[k] == hits[k - 1];
    }
  }

  /** The outcome of the parse from `i` on, as frames and kept bytes. */
  ghost predicate ScanGives(ok: Check, s: seq<byte>, i: nat, d: Decoded)
    requires i <= |s|
  {
    var r := Scan(Cells(ok, s), i);
    && i <= r.end <= |s| && AllFrames(ok, s, r.hits)
    && d == Decoded(FramesAt(ok, s, r.hits), r.bad, s[r.end..])
  }

  lemma {:induction false} ScanStops(ok: Check, s: seq<byte>, i: nat)
    requires i <= |s| && (i == |s| || Judge(ok, s, i).Wait?)
    ensures ScanGives(ok, s, i, Decoded([], 0, s[i..]))
  {
    if i < |s| {
      assert Cells(ok, s)[i] == Judge(ok, s, i);
    }
    assert Scan(Cells(ok, s), i) == Outcome([], 0, i);
  }

  lemma {:induction false} ScanAccepts(ok: Check, s: seq<byte>, i: nat, d: Decoded)
    requires i < |s| && FrameAt(ok, s, i) && ScanGives(ok, s, After(ok, s, i), d)
    ensures ScanGives(ok, s, i, Then(Decoded([FrameOf(s, i)], 0, []), d))
  {
    assert Cells(ok, s)[i] == Judge(ok, s, i);
    AllFramesNext(ok, s, i, Scan(Cells(ok, s), After(ok, s, i)).hits);
    FirstFrame(ok, s, i, Scan(Cells(ok, s), After(ok, s, i)).hits);
  }

  lemma {:induction false} PassedOver(cells: seq<Cell>, i: nat)
    requires i < |cells| && (cells[i].Skip? || cells[i].Reject?)
    ensures var r, q := Scan(cells, i), Scan(cells, i + 1);
            r.hits == q.hits && r.end == q.end && r.bad == q.bad + if cells[i].Reject? then 1 else 0
  {
  }

  lemma {:induction false} ScanPasses(ok: Check, s: seq<byte>, i: nat, d: Decoded)
    requires i < |s| && (Judge(ok, s, i).Skip? || Judge(ok, s, i).Reject?) && ScanGives(ok, s, i + 1, d)
    ensures ScanGives(ok, s, i, Then(Decoded([], if Judge(ok, s, i).Reject? then 1 else 0, []), d))
  {
    assert Cells(ok, s)[i] == Judge(ok, s, i);
    PassedOver(Cells(ok, s), i);
  }

  /** The pass emits the frames of the parse, counts its bad ones and keeps what follows its end. */
  lemma {:induction false} DecodeIsScan(ok: Check, s: seq<byte>, i: nat)
    requires i <= |s|
    ensures ScanGives(ok, s, i, DecodeFrom(ok, s, i))
    decreases |s| - i
  {
    if i == |s| || Judge(ok, s, i).Wait? {
      ScanStops(ok, s, i);
    } else {
      var j := After(ok, s, i);
      DecodeIsScan(ok, s, j);
      if FrameAt(ok, s, i) {
        ScanAccepts(ok, s, i, DecodeFrom(ok, s, j));
      } else {
        ScanPasses(ok, s, i, DecodeFrom(ok, s, j));
      }
    }
  }

  lemma JudgeShift(ok: Check, s: seq<byte>, e: nat, i: nat)
    requires e + i < |s|
    ensures Judge(ok, s[e..], i) == Judge(ok, s, e + i)
  {
    if |s| - (e + i) >= HEADER_LEN {
      var n := Size(s, e + i);
      if e + i + n <= |s| {
        assert s[e..][i..i + n] == s[e + i..e + i + n];
      }
    }
  }

  lemma FrameShift(ok: Check, s: seq<byte>, e: nat, h: nat)
    requires e <= |s| && FrameAt(ok, s[e..], h)
    ensures FrameAt(ok, s, e + h) && FrameOf(s, e + h) == FrameOf(s[e..], h)
  {
    JudgeShift(ok, s, e, h);
  }

  lemma LeftOf(s: seq<byte>, e: nat, k: nat)
    requires e + k <= |s|
    ensures s[e..][k..] == s[e + k..]
  {
  }

  lemma SaysShift(ok: Check, s: seq<byte>, e: nat, i: nat)
    requires e + i < |s|
    ensures Judge(ok, s[e..], i) == Judge(ok, s, e + i)
    ensures Says(ok, s[e..], i) == Says(ok, s, e + i) && e + After(ok, s[e..], i) == After(ok, s, e + i)
  {
    JudgeShift(ok, s, e, i);
    if Judge(ok, s[e..], i).Accept? {
      FrameShift(ok, s, e, i);
    }
  }

  lemma StopShift(ok: Check, s: seq<byte>, e: nat, i: nat)
    requires e + i <= |s| && (e + i == |s| || Judge(ok, s[e..], i).Wait?)
    ensures DecodeFrom(ok, s[e..], i) == Decoded([], 0, s[e + i..])
  {
    LeftOf(s, e, i);
  }

  /** Bytes already consumed do not matter: decoding from an offset is decoding what follows it. */
  lemma {:induction false} DecodeShift(ok: Check, s: seq<byte>, e: nat, i: nat)
    requires e + i <= |s|
    ensures DecodeFrom(ok, s[e..], i) == DecodeFrom(ok, s, e + i)
    decreases |s| - e - i
  {
    if e + i < |s| {
      SaysShift(ok, s, e, i);
    }
    if e + i == |s| || Judge(ok, s[e..], i).Wait? {
      StopShift(ok, s, e, i);
    } else {
      DecodeShift(ok, s, e, After(ok, s[e..], i));
    }
  }

  lemma DecodeDrop(ok: Check, s: seq<byte>, e: nat)
    requires e <= |s|
    ensures DecodeFrom(ok, s, e) == Decode(ok, s[e..])
  {
    DecodeShift(ok, s, e, 0);
  }

  lemma JudgeExtend(ok: Check, s: seq<byte>, t: seq<byte>, i: nat)
    requires i < |s| && !Judge(ok, s, i).Wait?
    ensures Judge(ok, s + t, i) == Judge(ok, s, i)
  {
    if i + HEADER_LEN <= |s| {
      var n := Size(s, i);
      if i + n <= |s| {
        assert (s + t)[i..i + n] == s[i..i + n];
      }
    }
  }

  lemma FrameExtend(ok: Check, s: seq<byte>, t: seq<byte>, h: nat)
    requires FrameAt(ok, s, h)
    ensures FrameAt(ok, s + t, h) && FrameOf(s + t, h) == FrameOf(s, h)
  {
    JudgeExtend(ok, s, t, h);
  }

  lemma ThenAssoc(a: Decoded, b: Decoded, c: Decoded)
    ensures Then(a, Then(b, c)) == Then(Then(a, b), c)
  {
  }

  lemma DecodeRest(ok: Check, a: seq<byte>, b: seq<byte>, i: nat)
    requires i <= |a|
    ensures DecodeFrom(ok, a + b, i) == Decode(ok, a[i..] + b)
  {
    assert (a + b)[i..] == a[i..] + b;
    DecodeDrop(ok, a + b, i);
  }

  lemma SaysExtend(ok: Check, a: seq<byte>, b: seq<byte>, i: nat)
    requires i < |a| && !Judge(ok, a, i).Wait?
    ensures Judge(ok, a + b, i) == Judge(ok, a, i)
    ensures Says(ok, a + b, i) == Says(ok, a, i) && After(ok, a + b, i) == After(ok, a, i)
  {
    JudgeExtend(ok, a, b, i);
    if Judge(ok, a, i).Accept? {
      FrameExtend(ok, a, b, i);
    }
  }

  lemma {:induction false} DecodeExtend(ok: Check, a: seq<byte>, b: seq<byte>, i: nat)
    requires i <= |a|
    ensures DecodeFrom(ok, a + b, i) == Then(DecodeFrom(ok, a, i), Decode(ok, DecodeFrom(ok, a, i).rest + b))
    decreases |a| - i
  {
    if i == |a| || Judge(ok, a, i).Wait? {
      DecodeRest(ok, a, b, i);
    } else {
      var j := After(ok, a, i);
      SaysExtend(ok, a, b, i);
      DecodeExtend(ok, a, b, j);
      ThenAssoc(Says(ok, a, i), DecodeFrom(ok, a, j), Decode(ok, DecodeFrom(ok, a, j).rest + b));
    }
  }

  /** Chunk independence: feeding `b` after `a` is feeding them together. */
  lemma DecodeConcat(ok: Check, a: seq<byte>, b: seq<byte>)
    ensures Decode(ok, a + b) == Then(Decode(ok, a), Decode(ok, Decode(ok, a).rest + b))
  {
    DecodeExtend(ok, a, b, 0);
  }

  /** Successive `feed` calls from a buffer `buf`. */
  function FeedAll(ok: Check, buf: seq<byte>, chunks: seq<seq<byte>>): Decoded
    decreases |chunks|
  {
    if chunks == [] then Decoded([], 0, buf)
    else
      var r := Decode(ok, buf + chunks[0]);
      Then(r, FeedAll(ok, r.rest, chunks[1..]))
  }

  lemma {:induction false} RestOfPassIsStuck(ok: Check, s: seq<byte>, i: nat)
    requires i <= |s|
    ensures var rest := DecodeFrom(ok, s, i).rest; Decode(ok, rest) == Decoded([], 0, rest)
    decreases |s| - i
  {
    if i == |s| || Judge(ok, s, i).Wait? {
      DecodeDrop(ok, s, i);
    } else {
      RestOfPassIsStuck(ok, s, After(ok, s, i));
    }
  }

  /** What the decoder keeps yields nothing until more arrives. */
  lemma RestIsStuck(ok: Check, s: seq<byte>)
    ensures Decode(ok, Decode(ok, s).rest) == Decoded([], 0, Decode(ok, s).rest)
  {
    RestOfPassIsStuck(ok, s, 0);
  }

  lemma FirstChunk(buf: seq<byte>, chunks: seq<seq<byte>>)
    requires chunks != []
    ensures buf + Flatten(chunks) == (buf + chunks[0]) + Flatten(chunks[1..])
  {
  }

  /** However the bytes are cut into chunks, the same frames come out and the same bytes are kept. */
  lemma {:induction false} ChunksDoNotMatter(ok: Check, buf: seq<byte>, chunks: seq<seq<byte>>)
    requires Decode(ok, buf) == Decoded([], 0, buf)
    ensures FeedAll(ok, buf, chunks) == Decode(ok, buf + Flatten(chunks))
    decreases |chunks|
  {
    if chunks == [] {
      assert buf + [] == buf;
    } else {
      RestIsStuck(ok, buf + chunks[0]);
      ChunksDoNotMatter(ok, Decode(ok, buf + chunks[0]).rest, chunks[1..]);
      DecodeConcat(ok, buf + chunks[0], Flatten(chunks[1..]));
      FirstChunk(buf, chunks);
    }
  }

  // ----- one step of the decoder's loop -----

  /** The offset of the first magic byte from `i` on, or the end. */
  function MagicFrom(s: seq<byte>, i: nat): (k: nat)
    requires i <= |s|
    ensures i <= k <= |s| && (k < |s| ==> s[k] == MAGIC)
    decreases |s| - i
  {
    if i == |s| || s[i] == MAGIC then i else MagicFrom(s, i + 1)
  }

  function FirstMagic(s: seq<byte>): (k: nat)
    ensures k <= |s|
  {
    MagicFrom(s, 0)
  }

  lemma {:induction false} NoMagicBefore(s: seq<byte>, i: nat)
    requires i <= |s|
    ensures forall j :: i <= j < MagicFrom(s, i) ==> s[j] != MAGIC
    decreases |s| - i
  {
    if i < |s| && s[i] != MAGIC {
      NoMagicBefore(s, i + 1);
    }
  }

  /** Nothing is emitted or counted before the first magic byte. */
  lemma {:induction false} SkipAt(ok: Check, s: seq<byte>, i: nat, k: nat)
    requires i <= k <= |s| && forall j :: i <= j < k ==> s[j] != MAGIC
    ensures DecodeFrom(ok, s, i) == DecodeFrom(ok, s, k)
    decreases k - i
  {
    if i < k {
      SkipAt(ok, s, i + 1, k);
    }
  }

  // ----- one turn of the loop -----

  /** What a turn does: keep what is left for the next call, count a bad frame, or emit a frame. */
  datatype Turn = Keep | Bad | Emit(frame: Frame)

  /** The turn the decision at the first magic byte calls for, and what it leaves of `b`. */
  ghost predicate Turned(ok: Check, b: seq<byte>, turn: Turn, left: seq<byte>) {
    var k := FirstMagic(b);
    if k == |b| || Judge(ok, b, k).Wait? then turn == Keep && left == b[k..]
    else if Judge(ok, b, k).Reject? then turn == Bad && left == b[k + 1..]
    else turn == Emit(FrameOf(b, k)) && left == b[k + Size(b, k)..]
  }

  /** The body of the loop. */
  method Next(ok: Check, b: seq<byte>) returns (turn: Turn, left: seq<byte>)
    ensures Turned(ok, b, turn, left)
    ensures !turn.Keep? ==> |left| < |b|
  {
    ghost var k := FirstMagic(b);
    left := b[FirstMagic(b)..];
    if |left| < HEADER_LEN {
      return Keep, left;
    }
    var len := U16(left, 6);
    if left[1] != VERSION || len > MAX_PAYLOAD {
      return Bad, left[1..];
    }
    var body := HEADER_LEN + len;
    if |left| < body + 2 {
      return Keep, left;
    }
    assert left[..body + 2] == b[k..k + Size(b, k)];
    if !ok(left[..body + 2]) {
      return Bad, left[1..];
    }
    assert left[HEADER_LEN..body] == b[k + HEADER_LEN..k + body];
    return Emit(Frame(left[2], U16(left, 4), left[HEADER_LEN..body])), left[body + 2..];
  }

  /** What a turn emits and counts. */
  function Effect(turn: Turn): Decoded {
    match turn
    case Keep => Decoded([], 0, [])
    case Bad => Decoded([], 1, [])
    case Emit(frame) => Decoded([frame], 0, [])
  }

  lemma TurnIsDecision(ok: Check, b: seq<byte>, turn: Turn, left: seq<byte>)
    requires Turned(ok, b, turn, left) && !turn.Keep?
    ensures var k := FirstMagic(b);
            && k < |b| && !Judge(ok, b, k).Wait?
            && Says(ok, b, k) == Effect(turn) && left == b[After(ok, b, k)..]
  {
  }

  lemma Skipped(ok: Check, b: seq<byte>)
    ensures Decode(ok, b) == DecodeFrom(ok, b, FirstMagic(b))
  {
    NoMagicBefore(b, 0);
    SkipAt(ok, b, 0, FirstMagic(b));
  }

  /** A turn emits and counts what the decision at the first magic byte says, and leaves what follows it. */
  lemma TurnIsPass(ok: Check, b: seq<byte>, turn: Turn, left: seq<byte>)
    requires Turned(ok, b, turn, left) && !turn.Keep?
    ensures Decode(ok, b) == Then(Effect(turn), Decode(ok, left))
  {
    Skipped(ok, b);
    TurnIsDecision(ok, b, turn, left);
    DecodeDrop(ok, b, After(ok, b, FirstMagic(b)));
  }

  lemma KeepIsPass(ok: Check, b: seq<byte>, left: seq<byte>)
    requires Turned(ok, b, Keep, left)
    ensures Decode(ok, b) == Decoded([], 0, left)
  {
    Skipped(ok, b);
  }

  /** Once `frames` were emitted and `bad` counted, `b` is what is left of an input that decodes to `whole`. */
  ghost predicate Left(ok: Check, b: seq<byte>, frames: seq<Frame>, bad: nat, whole: Decoded) {
    Then(Decoded(frames, bad, []), Decode(ok, b)) == whole
  }

  /** What a turn does to an input of which `b` is left. */
  method Advance(ok: Check, b: seq<byte>, ghost frames: seq<Frame>, ghost bad: nat, ghost whole: Decoded)
      returns (turn: Turn, left: seq<byte>)
    requires Left(ok, b, frames, bad, whole)
    ensures turn.Keep? ==> whole == Decoded(frames, bad, left)
    ensures turn.Bad? ==> Left(ok, left, frames, bad + 1, whole)
    ensures turn.Emit? ==> Left(ok, left, frames + [turn.frame], bad, whole)
    ensures !turn.Keep? ==> |left| < |b|
  {
    turn, left := Next(ok, b);
    if turn.Keep? {
      KeepIsPass(ok, b, left);
    } else {
      TurnIsPass(ok, b, turn, left);
      ThenAssoc(Decoded(frames, bad, []), Effect(turn), Decode(ok, left));
    }
  }

  // ----- the stateful decoder -----

  class Decoder {
    var buf: seq<byte>
    var badFrames: nat
    const ok: Check

    constructor (ok: Check)
      ensures buf == [] && badFrames == 0 && this.ok == ok
    {
      buf, badFrames, this.ok := [], 0, ok;
    }

    /** `frames` are the frames handed to the callback, in order. */
    method Feed(bytes: seq<byte>) returns (frames: seq<Frame>)
      modifies this
      ensures var r := Decode(ok, old(buf) + bytes);
              frames == r.frames && buf == r.rest && badFrames == old(badFrames) + r.bad
    {
      var b, bad := buf + bytes, 0;
      frames := [];
      ghost var whole := Decode(ok, b);
      while true
        invariant Left(ok, b, frames, bad, whole)
        invariant badFrames == old(badFrames) + bad
        decreases |b|
      {
        var turn;
        turn, b := Advance(ok, b, frames, bad, whole);
        match turn {
          case Keep =>
            buf := b;
            return;
          case Bad =>
            bad, badFrames := bad + 1, badFrames + 1;
          case Emit(frame) =>
            frames := frames + [frame];
        }
      }
    }
  }

  // ----- streams of frames and noise -----

  /** `f` is one whole frame and nothing else. */
  ghost predicate WholeFrame(ok: Check, f: seq<byte>) {
    FrameAt(ok, f, 0) && Size(f, 0) == |f|
  }

  /** A whole frame is found where it stands among other bytes. */
  lemma WholeInside(ok: Check, s: seq<byte>, i: nat, n: nat)
    requires i + n <= |s| && WholeFrame(ok, s[i..i + n])
    ensures FrameAt(ok, s, i) && Size(s, i) == n
  {
    var f := s[i..i + n];
    assert f[0..n] == f;
    assert f[0] == s[i] && f[1] == s[i + 1] && U16(f, 6) == U16(s, i + 6);
  }

  datatype Part = Noise(bytes: seq<byte>) | Whole(bytes: seq<byte>)

  /** Noise that cannot be mistaken for the start of a frame, or a whole frame. */
  ghost predicate Clean(ok: Check, p: Part) {
    match p
    case Noise(bytes) => MAGIC !in bytes
    case Whole(bytes) => WholeFrame(ok, bytes)
  }

  ghost predicate AllClean(ok: Check, parts: seq<Part>) {
    forall k :: 0 <= k < |parts| ==> Clean(ok, parts[k])
  }

  function Stream(parts: seq<Part>): seq<byte> {
    if parts == [] then [] else parts[0].bytes + Stream(parts[1..])
  }

  ghost function SentFrames(ok: Check, parts: seq<Part>): seq<Frame>
    requires AllClean(ok, parts)
  {
    if parts == [] then []
    else
      assert Clean(ok, parts[0]);
      (if parts[0].Whole? then [FrameOf(parts[0].bytes, 0)] else []) + SentFrames(ok, parts[1..])
  }

  lemma WholeThenRest(ok: Check, f: seq<byte>, rest: seq<byte>)
    requires WholeFrame(ok, f)
    ensures Decode(ok, f + rest) == Then(Decoded([FrameOf(f, 0)], 0, []), Decode(ok, rest))
  {
    FrameExtend(ok, f, rest, 0);
    DecodeDrop(ok, f + rest, |f|);
    assert Size(f + rest, 0) == |f|;
    assert (f + rest)[|f|..] == rest;
  }

  lemma NoiseThenRest(ok: Check, noise: seq<byte>, rest: seq<byte>)
    requires MAGIC !in noise
    ensures Decode(ok, noise + rest) == Decode(ok, rest)
  {
    SkipAt(ok, noise + rest, 0, |noise|);
    DecodeDrop(ok, noise + rest, |noise|);
    assert (noise + rest)[|noise|..] == rest;
  }

  lemma {:induction false} StreamDecodes(ok: Check, parts: seq<Part>)
    requires AllClean(ok, parts)
    ensures Decode(ok, Stream(parts)) == Decoded(SentFrames(ok, parts), 0, [])
  {
    if parts == [] {
      } else {
      assert Clean(ok, parts[0]);
      StreamDecodes(ok, parts[1..]);
      if parts[0].Noise? {
        NoiseThenRest(ok, parts[0].bytes, Stream(parts[1..]));
      } else {
        WholeThenRest(ok, parts[0].bytes, Stream(parts[1..]));
      }
    }
  }

  /** Frames sent through harmless noise and cut anywhere arrive exactly as sent, with nothing counted bad. */
  lemma RoundTrip(ok: Check, parts: seq<Part>, chunks: seq<seq<byte>>)
    requires AllClean(ok, parts) && Flatten(chunks) == Stream(parts)
    ensures FeedAll(ok, [], chunks) == Decoded(SentFrames(ok, parts), 0, [])
  {
    ChunksDoNotMatter(ok, [], chunks);
    assert [] + Flatten(chunks) == Flatten(chunks);
    StreamDecodes(ok, parts);
  }

  /** What the decoder looks at before the check: magic, version and length are the same at `i`. */
  ghost predicate SameFraming(s: seq<byte>, t: seq<byte>, i: nat)
    requires i + HEADER_LEN <= |s| == |t|
  {
    s[i] == t[i] && s[i + 1] == t[i + 1] && s[i + 6] == t[i + 6] && s[i + 7] == t[i + 7]
  }

  /** A frame that fails its check is refused where it starts. */
  lemma FailedCheckIsRejected(ok: Check, s: seq<byte>, t: seq<byte>, i: nat)
    requires |s| == |t| && FrameAt(ok, s, i) && SameFraming(s, t, i)
    requires !ok(t[i..i + Size(s, i)])
    ensures Judge(ok, t, i) == Reject && i !in Scan(Cells(ok, t), 0).hits
  {
    ScanInRange(ok, t, 0);
    assert Size(t, i) == Size(s, i);
  }

  /** `g` is `f` with one burst of at most sixteen bits flipped. */
  ghost predicate BurstDamage(f: seq<byte>, g: seq<byte>) {
    |f| == |g| && f != g && exists k: nat :: Crc.DifferInBurst(Crc.BitString(f), Crc.BitString(g), k)
  }

  ghost predicate DetectsBursts(ok: Check) {
    forall f: seq<byte>, g: seq<byte> :: |f| >= HEADER_LEN && ok(f) && BurstDamage(f, g) ==> !ok(g)
  }

  /**
   A valid frame damaged by one burst of at most sixteen bits, anywhere but in its magic, version and length, is
   refused at its offset, whatever happened to the rest of the stream: payload, header fields and trailer alike.
   */
  lemma BurstIsRejected(ok: Check, s: seq<byte>, t: seq<byte>, i: nat)
    requires DetectsBursts(ok)
    requires |s| == |t| && FrameAt(ok, s, i) && SameFraming(s, t, i)
    requires BurstDamage(s[i..i + Size(s, i)], t[i..i + Size(s, i)])
    ensures Judge(ok, t, i) == Reject && i !in Scan(Cells(ok, t), 0).hits
  {
    FailedCheckIsRejected(ok, s, t, i);
  }

  lemma SliceBurstIsRejected(ok: Check, s: seq<byte>, t: seq<byte>, i: nat, n: nat)
    requires DetectsBursts(ok)
    requires FrameAt(ok, s, i) && Size(s, i) == n && |s| == |t| && SameFraming(s, t, i)
    requires BurstDamage(s[i..i + n], t[i..i + n])
    ensures Judge(ok, t, i) == Reject && i !in Scan(Cells(ok, t), 0).hits
  {
    BurstIsRejected(ok, s, t, i);
  }

  /** `s` and `t` are different, but only in bytes `k` and `k + 1`. */
  ghost predicate DifferOnlyAt(s: seq<byte>, t: seq<byte>, k: nat) {
    |s| == |t| && s != t && forall j :: 0 <= j < |s| && j != k && j != k + 1 ==> s[j] == t[j]
  }

  lemma SlicesDiffer(s: seq<byte>, t: seq<byte>, i: nat, n: nat, k: nat)
    requires i + n <= |s| && HEADER_LEN <= n && DifferOnlyAt(s, t, k)
    requires i + 2 <= k && k + 1 < i + n && (k + 1 < i + 6 || i + 8 <= k)
    ensures SameFraming(s, t, i)
    ensures BurstDamage(s[i..i + n], t[i..i + n])
  {
    var a, b := s[i..i + n], t[i..i + n];
    assert a[k - i] == s[k] && b[k - i] == t[k] && a[k + 1 - i] == s[k + 1] && b[k + 1 - i] == t[k + 1];
    Crc.AdjacentBytesAreABurst(a, b, k - i);
  }

  /** In particular, any change to one byte or to two neighbouring bytes, payload and trailer boundary included. */
  lemma AdjacentBytesAreRejected(ok: Check, s: seq<byte>, t: seq<byte>, i: nat, k: nat)
    requires DetectsBursts(ok)
    requires FrameAt(ok, s, i) && DifferOnlyAt(s, t, k)
    requires i + 2 <= k && k + 1 < i + Size(s, i) && (k + 1 < i + 6 || i + 8 <= k)
    ensures Judge(ok, t, i) == Reject && i !in Scan(Cells(ok, t), 0).hits
  {
    SlicesDiffer(s, t, i, Size(s, i), k);
    BurstIsRejected(ok, s, t, i);
  }
}
