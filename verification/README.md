# Sonar ping binary codec

This project models the record codec in `main.cpp`. The program builds a sonar
ping in memory: a timestamp, a ship heading and an ordered list of beams, where
each beam has an id, an angle, a depth and an intensity. It dumps the ping to a
flat binary file and then reads it back. The writer emits four things in order:

- the `long long` timestamp;
- the `double` heading;
- the beam count, narrowed to an `int`;
- one raw `Beam` struct per beam, in vector order.

The reader reads the same fields in the same order. It trusts the count and
reads exactly that many beam blocks.

The model has three modules.

- `ByteOrder` (`byte_order.dfy`) covers bytes, the 32- and 64-bit
  two's-complement integers, and their little-endian encodings.
- `SonarFormat` (`sonar_format.dfy`) defines the file layout, the `Beam` and
  `SonarPing` values, the encoding and decoding functions, and the lemmas about
  them: layout and offsets, the count field, round trip, padding independence
  and truncation.
- `SonarIo` (`sonar_io.dfy`) holds the writer and the reader as the
  step-by-step code the program runs. `WritePing` appends field after field.
  `ReadPing` moves a cursor through the bytes and appends beams in a counted
  loop. Both are proved equal to the `SonarFormat` functions. `SonarIo` also
  holds the program's write-then-read-back control flow and its four-beam
  sample ping.

Modelling decisions:

- **Bytes and order.** A file is a `seq<byte>`. Integers are stored
  little-endian, which is the native order of the x86-64 target.
- **Doubles.** A double is its 64-bit IEEE 754 bit pattern, a natural number
  below 2^64. The codec only copies doubles and never computes with them.
- **Beam layout.** `sizeof(Beam)` is fixed at 32 bytes: the id in 4 bytes, then
  4 padding bytes, then angle, depth and intensity in 8 bytes each. This is the
  struct's layout under the usual x86-64 alignment.
- **Padding.** A raw struct copy writes whatever the padding bytes hold. So the
  writer takes one 4-byte `Padding` per beam as a parameter. Every round-trip
  lemma holds for all padding values.
- **Beam count.** `beams.size()` is narrowed to `int` explicitly: the size is
  taken modulo 2^32 and read as two's complement. The round trip therefore
  requires fewer than 2^31 beams.
- **Short input.** The reader ignores the result of each read. So `Decode` and
  `ReadPing` require a buffer that holds the header plus every block the count
  announces.
- **Checked reader.** `DecodeChecked` is a strengthening that the program
  itself does not have. It reports a short buffer as `None`. The program has
  no such check; `DecodeChecked` states what rejecting short input means, and
  `CheckedRoundTrip` and `TruncatedEncodingRejected` prove both halves.

## Model

| member | source | states |
|---|---|---|
| `ByteOrder.EncodeInt32` | main.cpp:59 | an `int` is written as exactly 4 bytes (`sizeof(int)`) |
| `ByteOrder.DecodeInt32Inverse` | main.cpp:92 | every 4-byte string is the encoding of the `int` read from it, so reading the count loses nothing |
| `ByteOrder.Int32RoundTrip` | main.cpp:92 | the 4 bytes written for an `int` read back as the same value, negative values included |
| `ByteOrder.EncodeInt64` | main.cpp:53 | a `long long` is written as exactly 8 bytes (`sizeof(long long)`) |
| `ByteOrder.DecodeInt64Inverse` | main.cpp:88 | every 8-byte string is the encoding of the `long long` read from it |
| `ByteOrder.Int64RoundTrip` | main.cpp:88 | the 8 bytes written for a `long long` read back as the same value, negative values included |
| `ByteOrder.LittleEndian64Inverse` | main.cpp:53-54 | reading 8 little-endian bytes inverts writing them, for every 64-bit pattern |
| `ByteOrder.NarrowToInt32` | main.cpp:58 | narrowing a size to `int` keeps sizes below 2^31 and makes sizes from 2^31 to 2^32 - 1 negative (size minus 2^32) |
| `SonarFormat.EncodeDouble` | main.cpp:54 | a double is written as exactly 8 bytes (`sizeof(double)`) |
| `SonarFormat.DecodeDoubleInverse` | main.cpp:89 | every 8-byte string is the encoding of the double read from it: no bit pattern is lost |
| `SonarFormat.DoubleRoundTrip` | main.cpp:89 | a double's 8 bytes read back as the same bit pattern |
| `SonarFormat.EncodeBeam` | main.cpp:63 | one beam is exactly 32 bytes (`sizeof(Beam)`), and bytes 4 to 7 are the struct's padding as it was in memory |
| `SonarFormat.DecodeBeamInverse` | main.cpp:100-102 | reading one beam block (`DecodeBeam`) and writing the beam back with the block's own padding reproduces the block: only the padding is not kept in a field |
| `SonarFormat.BeamRoundTrip` | main.cpp:10-15 | a 32-byte block read back gives the same id, angle, depth and intensity, whatever the padding held |
| `SonarFormat.DecodeBeamIgnoresPadding` | main.cpp:102 | two blocks that differ only in their padding bytes read back as the same beam |
| `SonarFormat.EncodeBeams` | main.cpp:62-64 | the first k iterations of the writer's beam loop emit exactly 32 k bytes |
| `SonarFormat.EncodeBeamsAt` | main.cpp:62-64 | the writer's loop emits one 32-byte block per beam in vector order: block i is beam i |
| `SonarFormat.Encode` | main.cpp:53-64 | the whole file is 20 + 32 n bytes for n beams; its field offsets are stated by `EncodeLayout` and its inverse by `RoundTrip` |
| `SonarFormat.EncodeLayout` | main.cpp:53-64 | the file is 20 + 32 n bytes: timestamp at 0, heading at 8, count at 16, beam i at 20 + 32 i |
| `SonarFormat.ReadCount` | main.cpp:92 | the count the reader finds is the `int` whose encoding fills bytes 16 to 19 |
| `SonarFormat.CountFieldMatches` | main.cpp:58-59 | the count field a reader finds is the narrowed beam count: the number of beams whenever that fits an `int`, negative from 2^31 to 2^32 - 1 beams |
| `SonarFormat.DecodeBeams` | main.cpp:99-105 | k iterations of the reader's loop append exactly k beams |
| `SonarFormat.DecodeBeamsAt` | main.cpp:99-105 | beam i of the result is read from the block at offset 20 + 32 i, so stream order is kept |
| `SonarFormat.Decode` | main.cpp:88-105 | the read-back ping has exactly as many beams as the loop runs for the count field: the count if it is non-negative, none otherwise |
| `SonarFormat.DecodeEncodedBeams` | main.cpp:99-105 | reading the first k blocks of a written file gives the first k beams in order |
| `SonarFormat.RoundTrip` | main.cpp:53-105 | reading back what was written gives the same timestamp, heading and beams in the same order, for any padding; the file also holds every block its count announces |
| `SonarFormat.DecodeIgnoresPadding` | main.cpp:99-105 | two files that differ only in beam padding bytes read back as the same ping |
| `SonarFormat.EmptyPingRoundTrip` | main.cpp:58-64 | a ping without beams is written as a bare 20-byte header with count 0 and reads back without beams |
| `SonarFormat.NonPositiveCountReadsNoBeams` | main.cpp:99 | a header with a zero or negative count reads back with no beams, whatever follows it |
| `SonarFormat.CheckedRoundTrip` | main.cpp:88-102 | strengthening: the checking reader (`DecodeChecked`) accepts every file the writer produces and returns the ping written; `TruncatedEncodingRejected` gives the rejecting half |
| `SonarFormat.TruncatedEncodingRejected` | main.cpp:88-102 | strengthening: a written file cut short at any length is reported as short by the checking reader |
| `SonarFormat.OversizedPingReadsNoBeams` | main.cpp:58 | a ping with 2^31 to 2^32 - 1 beams is written with a negative count and reads back without beams |
| `SonarIo.WritePing` | main.cpp:53-64 | the bytes appended by the writer's sequence of writes are the encoding of the ping, 20 + 32 n bytes long |
| `SonarIo.ReadPing` | main.cpp:87-105 | the cursor-driven reader yields the decoded ping: header in write order, then the counted loop runs `count` times for a non-negative count and not at all for a zero or negative one, appending blocks in stream order; the cursor ends after the last block |
| `SonarIo.WriteThenReadBack` | main.cpp:49-122 | exit code 1 exactly when the file cannot be opened for writing, otherwise 0; when both opens succeed (and every write succeeds, see below) the ping read back equals the one written |
| `SonarIo.SamplePing` | main.cpp:32-40 | the program's sample ping has four beams |
| `SonarIo.SamplePingRoundTrip` | main.cpp:32-40 | the program's four-beam sample is written as 148 bytes with count 4 and reads back with every field of every beam unchanged, in order |

## Left out

- File handling (opening, closing, `FILE*`) is left out as operating-system I/O. The file is an in-memory byte sequence, and each open's success is a boolean parameter of `WriteThenReadBack`.
- Console output, the progress messages and the printing of read-back beams are left out as presentation only.
- Floating-point values are not interpreted. Doubles are opaque 64-bit patterns, and the sample's values appear as their IEEE 754 encodings.
- Platform-specific struct layout is left out. Only the x86-64 layout with `sizeof(Beam) = 32` and little-endian byte order is modelled.
- SonarFormat.Decode: requires the buffer to hold every block the count announces. In the program, reading past the end of a short file is undefined because the result of each read is ignored. The model does not produce garbage values; `DecodeChecked` is the checked alternative.
- SonarIo.ReadPing: has the same full-buffer precondition as `Decode`, for the same reason.
- SonarIo.WriteThenReadBack: every fwrite and fclose is assumed to succeed; the program ignores their results, so a short write is not modelled.
