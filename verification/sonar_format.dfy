/** The on-disk layout of a sonar ping and the encoding and decoding functions
    that specify the writer and the reader.

    Layout (little-endian, no magic number, no version):
      offset  0: timestamp      8-byte signed integer
      offset  8: ship heading   8-byte IEEE 754 double (bit pattern)
      offset 16: beam count     4-byte signed integer
      offset 20: beam blocks    one 32-byte block per beam, in order
    Beam block (sizeof(Beam) on x86-64):
      offset  0: id             4-byte signed integer
      offset  4: padding        4 bytes of unspecified value
      offset  8: angle          8-byte double
      offset 16: depth          8-byte double
      offset 24: intensity      8-byte double */
module SonarFormat {
  import opened ByteOrder

  /** A `double`, kept as its 64-bit IEEE 754 bit pattern: the codec only
      copies doubles, it never computes with them. */
  type Double = bits: int | 0 <= bits < 0x1_0000_0000_0000_0000
  /** The contents of the four alignment bytes between a beam's id and angle. */
  type Padding = s: seq<byte> | |s| == 4 witness [0, 0, 0, 0]

  datatype Beam = Beam(id: Int32, angle: Double, depth: Double, intensity: Double)

  datatype SonarPing = SonarPing(timestamp: Int64, shipHeading: Double, beams: seq<Beam>)

  datatype Option<T> = None | Some(value: T)

  const TimestampOffset: nat := 0
  const HeadingOffset: nat := 8
  const CountOffset: nat := 16
  const HeaderSize: nat := 20
  const BeamSize: nat := 32

  const IdOffset: nat := 0
  const PaddingOffset: nat := 4
  const AngleOffset: nat := 8
  const DepthOffset: nat := 16
  const IntensityOffset: nat := 24

  /** Where beam block i starts in an encoded ping. */
  function BeamOffset(i: nat): nat
  {
    HeaderSize + i * BeamSize
  }

  /* ---------- fields ---------- */

  function EncodeDouble(d: Double): (r: seq<byte>)
    ensures |r| == 8
  {
    LittleEndian64(d)
  }

  function DecodeDouble(s: seq<byte>): Double
    requires |s| == 8
  {
    FromLittleEndian64(s)
  }

  /** Every 8-byte string is the encoding of the double it decodes to:
      decoding loses no bit pattern. */
  lemma DecodeDoubleInverse(s: seq<byte>)
    requires |s| == 8
    ensures EncodeDouble(DecodeDouble(s)) == s
  {
    FromLittleEndian64Inverse(s);
  }

  lemma DoubleRoundTrip(d: Double)
    ensures DecodeDouble(EncodeDouble(d)) == d
  {
    LittleEndian64Inverse(d);
  }

  /* ---------- beams ---------- */

  /** The 32 bytes the writer emits for one beam: a raw copy of the struct. */
  function EncodeBeam(b: Beam, pad: Padding): (r: seq<byte>)
    ensures |r| == BeamSize
    ensures r[PaddingOffset..AngleOffset] == pad
  {
    EncodeInt32(b.id) + pad + EncodeDouble(b.angle) + EncodeDouble(b.depth) + EncodeDouble(b.intensity)
  }

  /** The beam the reader fills in from one raw 32-byte block; the padding
      bytes are not read into any field. */
  function DecodeBeam(block: seq<byte>): Beam
    requires |block| == BeamSize
  {
    Beam(DecodeInt32(block[IdOffset..PaddingOffset]),
         DecodeDouble(block[AngleOffset..DepthOffset]),
         DecodeDouble(block[DepthOffset..IntensityOffset]),
         DecodeDouble(block[IntensityOffset..BeamSize]))
  }

  /** Writing a decoded beam back with the block's own padding bytes
      reproduces the block: the reader drops nothing but the padding. */
  lemma DecodeBeamInverse(block: seq<byte>)
    requires |block| == BeamSize
    ensures EncodeBeam(DecodeBeam(block), block[PaddingOffset..AngleOffset]) == block
  {
    DecodeInt32Inverse(block[IdOffset..PaddingOffset]);
    DecodeDoubleInverse(block[AngleOffset..DepthOffset]);
    DecodeDoubleInverse(block[DepthOffset..IntensityOffset]);
    DecodeDoubleInverse(block[IntensityOffset..BeamSize]);
    assert block == block[IdOffset..PaddingOffset] + block[PaddingOffset..AngleOffset] + block[AngleOffset..DepthOffset]
      + block[DepthOffset..IntensityOffset] + block[IntensityOffset..BeamSize];
  }

  lemma BeamRoundTrip(b: Beam, pad: Padding)
    ensures DecodeBeam(EncodeBeam(b, pad)) == b
  {
    var r := EncodeBeam(b, pad);
    assert r[IdOffset..PaddingOffset] == EncodeInt32(b.id);
    assert r[AngleOffset..DepthOffset] == EncodeDouble(b.angle);
    assert r[DepthOffset..IntensityOffset] == EncodeDouble(b.depth);
    assert r[IntensityOffset..BeamSize] == EncodeDouble(b.intensity);
    Int32RoundTrip(b.id);
    DoubleRoundTrip(b.angle);
    DoubleRoundTrip(b.depth);
    DoubleRoundTrip(b.intensity);
  }

  /** Whether byte j of a beam block is one of its padding bytes. */
  predicate IsPaddingByte(j: int)
  {
    PaddingOffset <= j < AngleOffset
  }

  lemma {:induction false} DecodeBeamIgnoresPadding(block1: seq<byte>, block2: seq<byte>)
    requires |block1| == |block2| == BeamSize
    requires forall j :: 0 <= j < BeamSize && !IsPaddingByte(j) ==> block1[j] == block2[j]
    ensures DecodeBeam(block1) == DecodeBeam(block2)
  {
    assert block1[IdOffset..PaddingOffset] == block2[IdOffset..PaddingOffset];
    assert block1[AngleOffset..DepthOffset] == block2[AngleOffset..DepthOffset];
    assert block1[DepthOffset..IntensityOffset] == block2[DepthOffset..IntensityOffset];
    assert block1[IntensityOffset..BeamSize] == block2[IntensityOffset..BeamSize];
  }

  /** The first k beam blocks of the writer's loop, one per beam, in vector
      order; pads[i] is whatever the padding of beams[i] held in memory. */
  function EncodeBeams(beams: seq<Beam>, pads: seq<Padding>, k: nat): (r: seq<byte>)
    requires |pads| == |beams| && k <= |beams|
    ensures |r| == k * BeamSize
  {
    if k == 0 then []
    else EncodeBeams(beams, pads, k - 1) + EncodeBeam(beams[k - 1], pads[k - 1])
  }

  /** Block i of the beam area is the encoding of beam i. */
  lemma {:induction false} EncodeBeamsAt(beams: seq<Beam>, pads: seq<Padding>, k: nat, i: nat)
    requires |pads| == |beams| && i < k <= |beams|
    ensures i * BeamSize + BeamSize <= |EncodeBeams(beams, pads, k)|
    ensures EncodeBeams(beams, pads, k)[i * BeamSize .. i * BeamSize + BeamSize] == EncodeBeam(beams[i], pads[i])
  {
    var prefix := EncodeBeams(beams, pads, k - 1);
    if i < k - 1 {
      EncodeBeamsAt(beams, pads, k - 1, i);
      assert i * BeamSize + BeamSize <= |prefix|;
    } else {
      assert i * BeamSize == |prefix|;
    }
  }

  /* ---------- the whole ping ---------- */

  /** The bytes the writer leaves in the file for ping p: a 20-byte header
      and one 32-byte block per beam. */
  function Encode(p: SonarPing, pads: seq<Padding>): (r: seq<byte>)
    requires |pads| == |p.beams|
    ensures |r| == BeamOffset(|p.beams|)
  {
    EncodeInt64(p.timestamp) + EncodeDouble(p.shipHeading) + EncodeInt32(NarrowToInt32(|p.beams|))
      + EncodeBeams(p.beams, pads, |p.beams|)
  }

  /** The beam count a reader finds in a buffer that holds a full header:
      the `int` whose encoding fills bytes 16 to 19. */
  function ReadCount(data: seq<byte>): (c: Int32)
    requires |data| >= HeaderSize
    ensures EncodeInt32(c) == data[CountOffset..HeaderSize]
  {
    DecodeInt32Inverse(data[CountOffset..HeaderSize]);
    DecodeInt32(data[CountOffset..HeaderSize])
  }

  /** The number of beam blocks the reader's counted loop reads: as many as
      the count, none for a zero or negative count. */
  function BlocksToRead(count: int): (k: nat)
    ensures count <= 0 ==> k == 0
    ensures count >= 0 ==> k == count
  {
    if count < 0 then 0 else count
  }

  /** A buffer long enough for every read the reader makes: the header and
      as many beam blocks as its count field announces. */
  predicate HoldsAnnouncedBeams(data: seq<byte>)
  {
    |data| >= HeaderSize && |data| >= BeamOffset(BlocksToRead(ReadCount(data)))
  }

  /** The first k beam blocks, decoded and appended in stream order. */
  function DecodeBeams(data: seq<byte>, k: nat): (beams: seq<Beam>)
    requires BeamOffset(k) <= |data|
    ensures |beams| == k
  {
    if k == 0 then []
    else DecodeBeams(data, k - 1) + [DecodeBeam(data[BeamOffset(k - 1)..BeamOffset(k - 1) + BeamSize])]
  }

  /** Beam i of the result is decoded from the block at 20 + i * 32. */
  lemma {:induction false} DecodeBeamsAt(data: seq<byte>, k: nat, i: nat)
    requires BeamOffset(k) <= |data| && i < k
    ensures DecodeBeams(data, k)[i] == DecodeBeam(data[BeamOffset(i)..BeamOffset(i) + BeamSize])
  {
    if i < k - 1 {
      DecodeBeamsAt(data, k - 1, i);
    }
  }

  /** The ping the reader reconstructs: the header fields in the order they
      were written, then the count's worth of beams. */
  function Decode(data: seq<byte>): (p: SonarPing)
    requires HoldsAnnouncedBeams(data)
    ensures |p.beams| == BlocksToRead(ReadCount(data))
  {
    SonarPing(DecodeInt64(data[TimestampOffset..HeadingOffset]),
              DecodeDouble(data[HeadingOffset..CountOffset]),
              DecodeBeams(data, BlocksToRead(ReadCount(data))))
  }

  /** A reader that checks the buffer before trusting the count: it reports
      a short buffer instead of reading past its end. */
  function DecodeChecked(data: seq<byte>): (r: Option<SonarPing>)
    ensures r.Some? <==> HoldsAnnouncedBeams(data)
    ensures r.Some? ==> r.value == Decode(data)
  {
    if HoldsAnnouncedBeams(data) then Some(Decode(data)) else None
  }

  /* ---------- properties of the format ---------- */

  /** The header fields sit at offsets 0, 8 and 16, the beams follow at
      20 + i * 32, and nothing else is written. */
  lemma {:induction false} EncodeLayout(p: SonarPing, pads: seq<Padding>)
    requires |pads| == |p.beams|
    ensures |Encode(p, pads)| == BeamOffset(|p.beams|)
    ensures Encode(p, pads)[TimestampOffset..HeadingOffset] == EncodeInt64(p.timestamp)
    ensures Encode(p, pads)[HeadingOffset..CountOffset] == EncodeDouble(p.shipHeading)
    ensures Encode(p, pads)[CountOffset..HeaderSize] == EncodeInt32(NarrowToInt32(|p.beams|))
    ensures forall i :: 0 <= i < |p.beams| ==>
      Encode(p, pads)[BeamOffset(i)..BeamOffset(i) + BeamSize] == EncodeBeam(p.beams[i], pads[i])
  {
    var r := Encode(p, pads);
    var body := EncodeBeams(p.beams, pads, |p.beams|);
    assert r[HeaderSize..] == body;
    forall i | 0 <= i < |p.beams|
      ensures r[BeamOffset(i)..BeamOffset(i) + BeamSize] == EncodeBeam(p.beams[i], pads[i])
    {
      EncodeBeamsAt(p.beams, pads, |p.beams|, i);
      assert r[BeamOffset(i)..BeamOffset(i) + BeamSize] == body[i * BeamSize .. i * BeamSize + BeamSize];
    }
  }

  /** The count field holds the number of beams whenever that number fits
      an `int`; from 2^31 up to 2^32 beams it is negative. */
  lemma CountFieldMatches(p: SonarPing, pads: seq<Padding>)
    requires |pads| == |p.beams|
    ensures ReadCount(Encode(p, pads)) == NarrowToInt32(|p.beams|)
    ensures |p.beams| < 0x8000_0000 ==> ReadCount(Encode(p, pads)) == |p.beams|
    ensures 0x8000_0000 <= |p.beams| < 0x1_0000_0000 ==> ReadCount(Encode(p, pads)) < 0
  {
    EncodeLayout(p, pads);
    Int32RoundTrip(NarrowToInt32(|p.beams|));
  }

  /** Reading the first k blocks of an encoding gives back the first k beams. */
  lemma {:induction false} DecodeEncodedBeams(p: SonarPing, pads: seq<Padding>, k: nat)
    requires |pads| == |p.beams| && k <= |p.beams|
    ensures BeamOffset(k) <= |Encode(p, pads)|
    ensures DecodeBeams(Encode(p, pads), k) == p.beams[..k]
  {
    EncodeLayout(p, pads);
    var data := Encode(p, pads);
    forall i | 0 <= i < k
      ensures DecodeBeams(data, k)[i] == p.beams[i]
    {
      DecodeBeamsAt(data, k, i);
      BeamRoundTrip(p.beams[i], pads[i]);
    }
  }

  /** Decoding what the writer wrote gives the original ping back: same
      timestamp, same heading, same beams in the same order, whatever the
      padding bytes held. */
  lemma RoundTrip(p: SonarPing, pads: seq<Padding>)
    requires |pads| == |p.beams| && |p.beams| < 0x8000_0000
    ensures HoldsAnnouncedBeams(Encode(p, pads))
    ensures Decode(Encode(p, pads)) == p
  {
    var data := Encode(p, pads);
    EncodeLayout(p, pads);
    CountFieldMatches(p, pads);
    Int64RoundTrip(p.timestamp);
    DoubleRoundTrip(p.shipHeading);
    DecodeEncodedBeams(p, pads, |p.beams|);
    assert p.beams[..|p.beams|] == p.beams;
  }

  /** Whether byte j of an encoded ping lies in the padding of a beam block. */
  predicate InBeamPadding(j: int)
  {
    j >= HeaderSize && IsPaddingByte((j - HeaderSize) % BeamSize)
  }

  /** The reader's result depends on no padding byte: two buffers that differ
      only inside beam padding decode to the same ping. */
  lemma DecodeIgnoresPadding(data1: seq<byte>, data2: seq<byte>)
    requires |data1| == |data2| && HoldsAnnouncedBeams(data1)
    requires forall j :: 0 <= j < |data1| && !InBeamPadding(j) ==> data1[j] == data2[j]
    ensures HoldsAnnouncedBeams(data2)
    ensures Decode(data1) == Decode(data2)
  {
    assert data1[..HeaderSize] == data2[..HeaderSize];
    assert data1[CountOffset..HeaderSize] == data2[CountOffset..HeaderSize];
    assert data1[TimestampOffset..HeadingOffset] == data2[TimestampOffset..HeadingOffset];
    assert data1[HeadingOffset..CountOffset] == data2[HeadingOffset..CountOffset];
    var k := BlocksToRead(ReadCount(data1));
    forall i | 0 <= i < k
      ensures DecodeBeams(data1, k)[i] == DecodeBeams(data2, k)[i]
    {
      DecodeBeamsAt(data1, k, i);
      DecodeBeamsAt(data2, k, i);
      BlockIgnoresPadding(data1, data2, i);
    }
  }

  lemma BlockIgnoresPadding(data1: seq<byte>, data2: seq<byte>, i: nat)
    requires |data1| == |data2| && BeamOffset(i) + BeamSize <= |data1|
    requires forall j :: 0 <= j < |data1| && !InBeamPadding(j) ==> data1[j] == data2[j]
    ensures DecodeBeam(data1[BeamOffset(i)..BeamOffset(i) + BeamSize])
         == DecodeBeam(data2[BeamOffset(i)..BeamOffset(i) + BeamSize])
  {
    var o := BeamOffset(i);
    var b1 := data1[o..o + BeamSize];
    var b2 := data2[o..o + BeamSize];
    forall j | 0 <= j < BeamSize && !IsPaddingByte(j)
      ensures b1[j] == b2[j]
    {
      OffsetInBlock(i, j);
      assert !InBeamPadding(o + j);
    }
    DecodeBeamIgnoresPadding(b1, b2);
  }

  lemma OffsetInBlock(i: nat, j: nat)
    requires j < BeamSize
    ensures (BeamOffset(i) + j - HeaderSize) % BeamSize == j
  {
    assert BeamOffset(i) + j - HeaderSize == i * BeamSize + j;
  }

  /** A ping without beams encodes to the bare 20-byte header and decodes to
      a ping without beams. */
  lemma EmptyPingRoundTrip(timestamp: Int64, heading: Double)
    ensures |Encode(SonarPing(timestamp, heading, []), [])| == HeaderSize
    ensures ReadCount(Encode(SonarPing(timestamp, heading, []), [])) == 0
    ensures Decode(Encode(SonarPing(timestamp, heading, []), [])) == SonarPing(timestamp, heading, [])
  {
    RoundTrip(SonarPing(timestamp, heading, []), []);
    CountFieldMatches(SonarPing(timestamp, heading, []), []);
  }

  /** The reader's loop does not run for a zero or negative count, so such a
      header yields no beams, whatever follows it. */
  lemma NonPositiveCountReadsNoBeams(data: seq<byte>)
    requires |data| >= HeaderSize && ReadCount(data) <= 0
    ensures HoldsAnnouncedBeams(data)
    ensures Decode(data).beams == []
  {
  }

  /** Cutting an encoded ping short anywhere makes the checking reader report
      failure rather than read past the end. */
  lemma TruncatedEncodingRejected(p: SonarPing, pads: seq<Padding>, m: nat)
    requires |pads| == |p.beams| && |p.beams| < 0x8000_0000
    requires m < |Encode(p, pads)|
    ensures DecodeChecked(Encode(p, pads)[..m]) == None
  {
    var data := Encode(p, pads);
    EncodeLayout(p, pads);
    if m >= HeaderSize {
      CountFieldMatches(p, pads);
      var cut := data[..m];
      assert forall j :: CountOffset <= j < HeaderSize ==> cut[j] == data[j];
      assert cut[CountOffset..HeaderSize] == data[CountOffset..HeaderSize];
    }
  }

  /** A ping with 2^31 to 2^32 - 1 beams is written with a negative count,
      so reading it back yields no beams at all. */
  lemma OversizedPingReadsNoBeams(p: SonarPing, pads: seq<Padding>)
    requires |pads| == |p.beams| && 0x8000_0000 <= |p.beams| < 0x1_0000_0000
    ensures HoldsAnnouncedBeams(Encode(p, pads))
    ensures Decode(Encode(p, pads)).beams == []
  {
    EncodeLayout(p, pads);
    CountFieldMatches(p, pads);
  }

  /** The checking reader accepts every file the writer produces and gives
      back the ping that was written. */
  lemma CheckedRoundTrip(p: SonarPing, pads: seq<Padding>)
    requires |pads| == |p.beams| && |p.beams| < 0x8000_0000
    ensures DecodeChecked(Encode(p, pads)) == Some(p)
  {
    RoundTrip(p, pads);
  }
}
