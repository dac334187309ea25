/**
 Frames with a real CRC: the encoder, what its frames decode to, and the damage the check catches.
 */
module Wire {
  import opened Bytes
  import opened Resync
  import opened Framing
  import Crc

  /** The trailer of `f` is the CRC of what precedes it. */
  predicate Genuine(f: seq<byte>) {
    |f| >= 2 && U16(f, |f| - 2) == Crc.Crc(f[..|f| - 2])
  }

  // ----- the encoder -----

  function Encode(cmd: byte, seqNo: nat, payload: seq<byte>): (bytes: seq<byte>)
    requires |payload| <= 256
    ensures |bytes| == |payload| + 10
  {
    var body := [MAGIC, VERSION, cmd, 0] + ToLE(seqNo, 2) + ToLE(|payload|, 2) + payload;
    body + ToLE(Crc.Crc(body), 2)
  }

  lemma WordBytes(n: nat)
    requires n < 0x1_0000
    ensures ToLE(n, 2) == [n % 256, n / 256]
  {
    assert ToLE(n / 256, 1) == [n / 256 % 256] + ToLE(n / 256 / 256, 0);
  }

  /** The bytes of an encoded frame: the header, the payload, and the CRC of both. */
  lemma EncodedBytes(cmd: byte, seqNo: nat, payload: seq<byte>)
    requires seqNo < 0x1_0000 && |payload| <= 256
    ensures var body := [0xa5, 1, cmd, 0, seqNo % 256, seqNo / 256, |payload| % 256, |payload| / 256] + payload;
            Encode(cmd, seqNo, payload) == body + [Crc.Crc(body) % 256, Crc.Crc(body) / 256]
  {
    WordBytes(seqNo);
    WordBytes(|payload|);
    var body := [MAGIC, VERSION, cmd, 0] + ToLE(seqNo, 2) + ToLE(|payload|, 2) + payload;
    WordBytes(Crc.Crc(body));
    assert [MAGIC, VERSION, cmd, 0] + ToLE(seqNo, 2) + ToLE(|payload|, 2) ==
           [0xa5, 1, cmd, 0, seqNo % 256, seqNo / 256, |payload| % 256, |payload| / 256];
  }

  /** An encoded frame of up to 256 bytes of payload is one whole frame, and reads back as it was written. */
  lemma EncodedFrame(cmd: byte, seqNo: nat, payload: seq<byte>)
    requires seqNo < 0x1_0000 && |payload| <= 256
    ensures WholeFrame(Genuine, Encode(cmd, seqNo, payload))
    ensures FrameOf(Encode(cmd, seqNo, payload), 0) == Frame(cmd, seqNo, payload)
  {
    WordBytes(seqNo);
    WordBytes(|payload|);
    var body := [MAGIC, VERSION, cmd, 0] + ToLE(seqNo, 2) + ToLE(|payload|, 2) + payload;
    WordBytes(Crc.Crc(body));
    var f := Encode(cmd, seqNo, payload);
    assert f[..|f| - 2] == body;
    assert f[..HEADER_LEN] == body[..HEADER_LEN];
    assert U16(f, 6) == |payload| && U16(f, 4) == seqNo;
    assert f[0..Size(f, 0)] == f;
    assert f[HEADER_LEN..HEADER_LEN + |payload|] == payload;
  }

  ghost predicate Encodable(f: Frame) {
    f.seqNo < 0x1_0000 && |f.payload| <= 256
  }

  /** The encoded frames, each behind the noise that precedes it. */
  ghost function Interleave(frames: seq<Frame>, noise: seq<seq<byte>>): seq<Part>
    requires |noise| == |frames| && forall k :: 0 <= k < |frames| ==> Encodable(frames[k])
  {
    if frames == [] then []
    else
      assert Encodable(frames[0]);
      [Noise(noise[0]), Whole(Encode(frames[0].cmd, frames[0].seqNo, frames[0].payload))] +
      Interleave(frames[1..], noise[1..])
  }

  lemma {:induction false} InterleaveIsClean(frames: seq<Frame>, noise: seq<seq<byte>>)
    requires |noise| == |frames| && forall k :: 0 <= k < |frames| ==> Encodable(frames[k]) && MAGIC !in noise[k]
    ensures AllClean(Genuine, Interleave(frames, noise))
    ensures SentFrames(Genuine, Interleave(frames, noise)) == frames
  {
    if frames != [] {
      InterleaveIsClean(frames[1..], noise[1..]);
      NextFrameIsClean(frames[0], noise[0], Interleave(frames[1..], noise[1..]));
    }
  }

  lemma NextFrameIsClean(f: Frame, noise: seq<byte>, rest: seq<Part>)
    requires Encodable(f) && MAGIC !in noise && AllClean(Genuine, rest)
    ensures var parts := [Noise(noise), Whole(Encode(f.cmd, f.seqNo, f.payload))] + rest;
            AllClean(Genuine, parts) && SentFrames(Genuine, parts) == [f] + SentFrames(Genuine, rest)
  {
    EncodedFrame(f.cmd, f.seqNo, f.payload);
    TwoParts(Noise(noise), Whole(Encode(f.cmd, f.seqNo, f.payload)), rest);
  }

  lemma TwoParts(noise: Part, whole: Part, rest: seq<Part>)
    requires noise.Noise? && whole.Whole?
    requires Clean(Genuine, noise) && Clean(Genuine, whole) && AllClean(Genuine, rest)
    ensures AllClean(Genuine, [noise, whole] + rest)
    ensures SentFrames(Genuine, [noise, whole] + rest) == [FrameOf(whole.bytes, 0)] + SentFrames(Genuine, rest)
  {
    var parts := [noise, whole] + rest;
    assert AllClean(Genuine, parts);
    assert parts[1..] == [whole] + rest && parts[1..][1..] == rest;
    assert SentFrames(Genuine, parts[1..]) == [FrameOf(whole.bytes, 0)] + SentFrames(Genuine, rest);
  }

  /**
   Encoder and decoder agree: any list of frames, sent with noise free of magic bytes between them and delivered in
   any chunks, decodes to exactly that list, with no bad frame counted and nothing left over.
   */
  lemma EncodedStreamRoundTrip(frames: seq<Frame>, noise: seq<seq<byte>>, chunks: seq<seq<byte>>)
    requires |noise| == |frames| && forall k :: 0 <= k < |frames| ==> Encodable(frames[k]) && MAGIC !in noise[k]
    ensures Flatten(chunks) == Stream(Interleave(frames, noise)) ==>
              FeedAll(Genuine, [], chunks) == Decoded(frames, 0, [])
  {
    InterleaveIsClean(frames, noise);
    if Flatten(chunks) == Stream(Interleave(frames, noise)) {
      RoundTrip(Genuine, Interleave(frames, noise), chunks);
    }
  }

  // ----- corruption -----

  lemma TrailerIsResidue(f: seq<byte>)
    requires |f| >= 2
    ensures Genuine(f) <==> Crc.Crc(f) == 0
  {
    Crc.TrailerMatchesIffResidueZero(f[..|f| - 2], f[|f| - 2], f[|f| - 1]);
    assert f[..|f| - 2] + [f[|f| - 2], f[|f| - 1]] == f;
  }

  /** The CRC detects every burst of at most sixteen bits, trailer included. */
  lemma GenuineDetectsBursts()
    ensures DetectsBursts(Genuine)
  {
    forall f: seq<byte>, g: seq<byte> | |f| >= HEADER_LEN && Genuine(f) && BurstDamage(f, g)
      ensures !Genuine(g)
    {
      BurstFailsCheck(f, g);
    }
  }

  lemma BurstFailsCheck(f: seq<byte>, g: seq<byte>)
    requires |f| >= 2 && Genuine(f) && BurstDamage(f, g)
    ensures !Genuine(g)
  {
    var k :| Crc.DifferInBurst(Crc.BitString(f), Crc.BitString(g), k);
    TrailerIsResidue(f);
    TrailerIsResidue(g);
    Crc.BurstDetected(f, g, k);
  }

  /** A genuine frame in which one byte or two neighbouring bytes outside the framing are changed. */
  lemma ChangedBytesAreRefused(s: seq<byte>, t: seq<byte>, i: nat, k: nat)
    requires FrameAt(Genuine, s, i) && DifferOnlyAt(s, t, k)
    requires i + 2 <= k && k + 1 < i + Size(s, i) && (k + 1 < i + 6 || i + 8 <= k)
    ensures Judge(Genuine, t, i) == Reject && i !in Scan(Cells(Genuine, t), 0).hits
  {
    GenuineDetectsBursts();
    AdjacentBytesAreRejected(Genuine, s, t, i, k);
  }

  /** A whole frame is found where it stands among other bytes. */
  lemma SliceIsFrame(s: seq<byte>, i: nat, n: nat)
    requires i + n <= |s| && WholeFrame(Genuine, s[i..i + n])
    ensures FrameAt(Genuine, s, i) && Size(s, i) == n
  {
    WholeInside(Genuine, s, i, n);
  }

  lemma DamagedSliceIsRefused(s: seq<byte>, t: seq<byte>, i: nat, n: nat)
    requires FrameAt(Genuine, s, i) && Size(s, i) == n && |s| == |t| && SameFraming(s, t, i)
    requires BurstDamage(s[i..i + n], t[i..i + n])
    ensures Judge(Genuine, t, i) == Reject && i !in Scan(Cells(Genuine, t), 0).hits
  {
    GenuineDetectsBursts();
    SliceBurstIsRejected(Genuine, s, t, i, n);
  }

  /** `s` holds the encoding of `f` at `i`. */
  ghost predicate HoldsEncoded(f: Frame, s: seq<byte>, i: nat, n: nat) {
    && Encodable(f) && n == HEADER_LEN + |f.payload| + 2 && i + n <= |s|
    && s[i..i + n] == Encode(f.cmd, f.seqNo, f.payload)
  }

  lemma HeldIsFrame(f: Frame, s: seq<byte>, i: nat, n: nat)
    requires HoldsEncoded(f, s, i, n)
    ensures FrameAt(Genuine, s, i) && Size(s, i) == n
  {
    EncodedFrame(f.cmd, f.seqNo, f.payload);
    SliceIsFrame(s, i, n);
  }

  /**
   Where an encoded frame stood in the stream `s` and stands damaged by one burst in `t`, outside magic, version and
   length, it is refused, whatever else happened to the stream.
   */
  lemma DamagedEncodingIsRefused(f: Frame, s: seq<byte>, t: seq<byte>, i: nat, n: nat)
    requires HoldsEncoded(f, s, i, n) && |s| == |t|
    requires SameFraming(s, t, i) && BurstDamage(s[i..i + n], t[i..i + n])
    ensures Judge(Genuine, t, i) == Reject && i !in Scan(Cells(Genuine, t), 0).hits
  {
    HeldIsFrame(f, s, i, n);
    DamagedSliceIsRefused(s, t, i, n);
  }
}
