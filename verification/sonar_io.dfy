/** The program's writer and reader as the step-by-step code they are: the
    writer appends field after field to the output bytes, the reader moves a
    cursor over the input bytes. The file itself is an in-memory byte
    sequence; opening it is a boolean outcome supplied by the caller. */
module SonarIo {
  import opened ByteOrder
  import opened SonarFormat

  /** Serialises a ping: timestamp, heading, beam count, then one raw block
      per beam in vector order. */
  method WritePing(p: SonarPing, pads: seq<Padding>) returns (file: seq<byte>)
    requires |pads| == |p.beams|
    ensures file == Encode(p, pads)
    ensures |file| == BeamOffset(|p.beams|)
  {
    file := [];
    file := file + EncodeInt64(p.timestamp);
    file := file + EncodeDouble(p.shipHeading);
    var beamCount := NarrowToInt32(|p.beams|);
    file := file + EncodeInt32(beamCount);
    ghost var header := file;
    var i := 0;
    while i < |p.beams|
      invariant 0 <= i <= |p.beams|
      invariant file == header + EncodeBeams(p.beams, pads, i)
    {
      file := file + EncodeBeam(p.beams[i], pads[i]);
      i := i + 1;
    }
  }

  /** Deserialises a ping: reads timestamp, heading and count in the order
      they were written, then exactly `count` beam blocks, appending each to
      the result. The count is trusted: the buffer must hold every block it
      announces. Also returns the cursor position after the last read. */
  method ReadPing(file: seq<byte>) returns (p: SonarPing, cursor: nat)
    requires HoldsAnnouncedBeams(file)
    ensures p == Decode(file)
    ensures cursor == BeamOffset(|p.beams|) && cursor <= |file|
    ensures ReadCount(file) >= 0 ==> |p.beams| == ReadCount(file)
    ensures ReadCount(file) <= 0 ==> p.beams == []
  {
    cursor := 0;
    var readTimestamp := DecodeInt64(file[cursor..cursor + 8]);
    cursor := cursor + 8;
    var readHeading := DecodeDouble(file[cursor..cursor + 8]);
    cursor := cursor + 8;
    var readCount := DecodeInt32(file[cursor..cursor + 4]);
    cursor := cursor + 4;
    assert readCount == ReadCount(file);
    var readBeams: seq<Beam> := [];
    var i := 0;
    while i < readCount
      invariant 0 <= i <= BlocksToRead(readCount)
      invariant cursor == BeamOffset(i)
      invariant readBeams == DecodeBeams(file, i)
    {
      var b := DecodeBeam(file[cursor..cursor + BeamSize]);
      cursor := cursor + BeamSize;
      readBeams := readBeams + [b];
      i := i + 1;
    }
    assert i == BlocksToRead(readCount);
    p := SonarPing(readTimestamp, readHeading, readBeams);
  }

  /** The program's write-then-read-back sequence. Failing to open the file
      for writing ends it with exit code 1; failing to open it for reading is
      reported but still ends with 0. Every write is taken to succeed. When
      both opens succeed, the read-back ping equals the one written. */
  method WriteThenReadBack(p: SonarPing, pads: seq<Padding>, writeOpens: bool, readOpens: bool)
    returns (exitCode: int, readBack: Option<SonarPing>)
    requires |pads| == |p.beams| && |p.beams| < 0x8000_0000
    ensures exitCode == (if writeOpens then 0 else 1)
    ensures readBack.Some? <==> writeOpens && readOpens
    ensures readBack.Some? ==> readBack.value == p
  {
    if !writeOpens {
      return 1, None;
    }
    var file := WritePing(p, pads);
    readBack := None;
    if readOpens {
      RoundTrip(p, pads);
      var q, _ := ReadPing(file);
      readBack := Some(q);
    }
    exitCode := 0;
  }

  /** The ping the program builds: four beams at -45, 0, 45 and 60 degrees.
      Doubles are written as their IEEE 754 bit patterns (90.5, -45.0, ...). */
  function SamplePing(): (p: SonarPing)
    ensures |p.beams| == 4
  {
    SonarPing(1716345600, 0x4056_A000_0000_0000,
      [ Beam(1, 0xC046_8000_0000_0000, 0x4059_2000_0000_0000, 0xC034_0000_0000_0000),
        Beam(2, 0x0000_0000_0000_0000, 0x4058_8CCC_CCCC_CCCD, 0xC02F_0000_0000_0000),
        Beam(3, 0x4046_8000_0000_0000, 0x4059_3333_3333_3333, 0xC035_0000_0000_0000),
        Beam(4, 0x404E_0000_0000_0000, 0x405A_4000_0000_0000, 0xC036_8000_0000_0000) ])
  }

  /** The sample ping is written as a 148-byte file with count 4, and read
      back as the same four beams in the same order. */
  lemma SamplePingRoundTrip(pads: seq<Padding>)
    requires |pads| == 4
    ensures |Encode(SamplePing(), pads)| == 148
    ensures ReadCount(Encode(SamplePing(), pads)) == 4
    ensures Decode(Encode(SamplePing(), pads)) == SamplePing()
  {
    EncodeLayout(SamplePing(), pads);
    CountFieldMatches(SamplePing(), pads);
    RoundTrip(SamplePing(), pads);
  }
}
