/** Fixed-width integers stored as little-endian two's-complement byte strings,
    the native representation of `int` and `long long` on the x86-64 target
    the codec was written for. */
module ByteOrder {

  newtype byte = b: int | 0 <= b < 256

  const Two16: nat := 0x1_0000
  const Two32: nat := 0x1_0000_0000
  const Two64: nat := 0x1_0000_0000_0000_0000

  /* ---------- unsigned, least significant byte first ---------- */

  function LittleEndian16(x: nat): (r: seq<byte>)
    requires x < Two16
    ensures |r| == 2
  {
    [(x % 0x100) as byte, (x / 0x100) as byte]
  }

  function FromLittleEndian16(s: seq<byte>): (x: nat)
    requires |s| == 2
    ensures x < Two16
  {
    s[0] as nat + 0x100 * s[1] as nat
  }

  function LittleEndian32(x: nat): (r: seq<byte>)
    requires x < Two32
    ensures |r| == 4
  {
    LittleEndian16(x % Two16) + LittleEndian16(x / Two16)
  }

  function FromLittleEndian32(s: seq<byte>): (x: nat)
    requires |s| == 4
    ensures x < Two32
  {
    FromLittleEndian16(s[..2]) + Two16 * FromLittleEndian16(s[2..])
  }

  function LittleEndian64(x: nat): (r: seq<byte>)
    requires x < Two64
    ensures |r| == 8
  {
    LittleEndian32(x % Two32) + LittleEndian32(x / Two32)
  }

  function FromLittleEndian64(s: seq<byte>): (x: nat)
    requires |s| == 8
    ensures x < Two64
  {
    FromLittleEndian32(s[..4]) + Two32 * FromLittleEndian32(s[4..])
  }

  lemma LittleEndian16Inverse(x: nat)
    requires x < Two16
    ensures FromLittleEndian16(LittleEndian16(x)) == x
  {
  }

  lemma LittleEndian32Inverse(x: nat)
    requires x < Two32
    ensures FromLittleEndian32(LittleEndian32(x)) == x
  {
    var r := LittleEndian32(x);
    assert r[..2] == LittleEndian16(x % Two16) && r[2..] == LittleEndian16(x / Two16);
    LittleEndian16Inverse(x % Two16);
    LittleEndian16Inverse(x / Two16);
  }

  lemma LittleEndian64Inverse(x: nat)
    requires x < Two64
    ensures FromLittleEndian64(LittleEndian64(x)) == x
  {
    var r := LittleEndian64(x);
    assert r[..4] == LittleEndian32(x % Two32) && r[4..] == LittleEndian32(x / Two32);
    LittleEndian32Inverse(x % Two32);
    LittleEndian32Inverse(x / Two32);
  }

  lemma FromLittleEndian16Inverse(s: seq<byte>)
    requires |s| == 2
    ensures LittleEndian16(FromLittleEndian16(s)) == s
  {
  }

  lemma FromLittleEndian32Inverse(s: seq<byte>)
    requires |s| == 4
    ensures LittleEndian32(FromLittleEndian32(s)) == s
  {
    var lo, hi := FromLittleEndian16(s[..2]), FromLittleEndian16(s[2..]);
    var x := lo + Two16 * hi;
    assert x % Two16 == lo && x / Two16 == hi;
    FromLittleEndian16Inverse(s[..2]);
    FromLittleEndian16Inverse(s[2..]);
    assert s == s[..2] + s[2..];
  }

  lemma FromLittleEndian64Inverse(s: seq<byte>)
    requires |s| == 8
    ensures LittleEndian64(FromLittleEndian64(s)) == s
  {
    var lo, hi := FromLittleEndian32(s[..4]), FromLittleEndian32(s[4..]);
    var x := lo + Two32 * hi;
    assert x % Two32 == lo && x / Two32 == hi;
    FromLittleEndian32Inverse(s[..4]);
    FromLittleEndian32Inverse(s[4..]);
    assert s == s[..4] + s[4..];
  }

  /* ---------- signed, two's complement ---------- */

  /** An `int`. */
  type Int32 = x: int | -0x8000_0000 <= x < 0x8000_0000
  /** A `long long`. */
  type Int64 = x: int | -0x8000_0000_0000_0000 <= x < 0x8000_0000_0000_0000

  /** The two's-complement bit pattern of a 32-bit value. */
  function Unsigned32(x: Int32): (u: nat)
    ensures u < Two32
    ensures x >= 0 ==> u == x
    ensures x < 0 ==> u == x + Two32
  {
    if x >= 0 then x else x + Two32
  }

  /** The 32-bit value a two's-complement bit pattern denotes. */
  function Signed32(u: nat): (x: Int32)
    requires u < Two32
    ensures Unsigned32(x) == u
  {
    if u < 0x8000_0000 then u else u - Two32
  }

  function Unsigned64(x: Int64): (u: nat)
    ensures u < Two64
    ensures x >= 0 ==> u == x
    ensures x < 0 ==> u == x + Two64
  {
    if x >= 0 then x else x + Two64
  }

  function Signed64(u: nat): (x: Int64)
    requires u < Two64
    ensures Unsigned64(x) == u
  {
    if u < 0x8000_0000_0000_0000 then u else u - Two64
  }

  function EncodeInt32(x: Int32): (r: seq<byte>)
    ensures |r| == 4
  {
    LittleEndian32(Unsigned32(x))
  }

  function DecodeInt32(s: seq<byte>): Int32
    requires |s| == 4
  {
    Signed32(FromLittleEndian32(s))
  }

  function EncodeInt64(x: Int64): (r: seq<byte>)
    ensures |r| == 8
  {
    LittleEndian64(Unsigned64(x))
  }

  function DecodeInt64(s: seq<byte>): Int64
    requires |s| == 8
  {
    Signed64(FromLittleEndian64(s))
  }

  lemma Int32RoundTrip(x: Int32)
    ensures DecodeInt32(EncodeInt32(x)) == x
  {
    LittleEndian32Inverse(Unsigned32(x));
  }

  lemma Int64RoundTrip(x: Int64)
    ensures DecodeInt64(EncodeInt64(x)) == x
  {
    LittleEndian64Inverse(Unsigned64(x));
  }

  /** Every 4-byte string is the encoding of the `int` it decodes to:
      decoding loses nothing. */
  lemma DecodeInt32Inverse(s: seq<byte>)
    requires |s| == 4
    ensures EncodeInt32(DecodeInt32(s)) == s
  {
    FromLittleEndian32Inverse(s);
  }

  /** Every 8-byte string is the encoding of the `long long` it decodes to. */
  lemma DecodeInt64Inverse(s: seq<byte>)
    requires |s| == 8
    ensures EncodeInt64(DecodeInt64(s)) == s
  {
    FromLittleEndian64Inverse(s);
  }

  /** C++'s conversion of an unsigned size to `int`: the value modulo 2^32,
      read as two's complement. */
  function NarrowToInt32(k: nat): (x: Int32)
    ensures k < 0x8000_0000 ==> x == k
    ensures 0x8000_0000 <= k < Two32 ==> x == k - Two32
  {
    Signed32(k % Two32)
  }
}
