/**
 * Bytes and the fixed-width little-endian layouts of Node's Buffer
 * (writeUInt32LE / readUInt32LE, writeBigInt64LE / readBigInt64LE),
 * UTF-8 encoding of a string (Buffer.from(str, "utf8")) and the
 * concatenation of a list of chunks (Buffer.concat).
 */
module Bytes {

  type byte = b: int | 0 <= b < 256

  /** The eight bytes of an IEEE 754 double as Buffer.writeDoubleLE lays them out; never interpreted. */
  type Bits64 = s: seq<byte> | |s| == 8 witness [0, 0, 0, 0, 0, 0, 0, 0]

  /** The range Buffer.writeBigInt64LE accepts. */
  type Int64 = x: int | -0x8000_0000_0000_0000 <= x < 0x8000_0000_0000_0000

  const MAX_U32: nat := 0xffff_ffff

  function Pow256(n: nat): (r: nat)
    ensures r >= 1
  {
    if n == 0 then 1 else 256 * Pow256(n - 1)
  }

  /** The `width` little-endian base-256 digits of `n`. */
  function LittleEndian(n: nat, width: nat): (r: seq<byte>)
    ensures |r| == width
  {
    if width == 0 then [] else [n % 256] + LittleEndian(n / 256, width - 1)
  }

  /** The unsigned integer whose little-endian digits are `b`. */
  function FromLittleEndian(b: seq<byte>): (n: nat)
  {
    if b == [] then 0 else b[0] + 256 * FromLittleEndian(b[1..])
  }

  lemma {:induction false} FromLittleEndianBound(b: seq<byte>)
    ensures FromLittleEndian(b) < Pow256(|b|)
  {
    if b != [] {
      FromLittleEndianBound(b[1..]);
      assert FromLittleEndian(b) <= 255 + 256 * (Pow256(|b| - 1) - 1);
    }
  }

  /** Reading back the digits of a number that fits in `width` bytes gives the number. */
  lemma {:induction false} LittleEndianRoundTrip(n: nat, width: nat)
    requires n < Pow256(width)
    ensures FromLittleEndian(LittleEndian(n, width)) == n
  {
    if width > 0 {
      var q := n / 256;
      assert n == n % 256 + 256 * q;
      assert 256 * q <= n < 256 * Pow256(width - 1);
      LittleEndianRoundTrip(q, width - 1);
      assert LittleEndian(n, width)[1..] == LittleEndian(q, width - 1);
    }
  }

  lemma Pow256Values()
    ensures Pow256(4) == MAX_U32 + 1
    ensures Pow256(8) == 0x1_0000_0000_0000_0000
  {
    assert Pow256(2) == 0x1_0000;
    assert Pow256(4) == 0x1_0000_0000;
  }

  /** Buffer.writeUInt32LE: the four little-endian bytes of an unsigned 32-bit value. */
  function U32LE(n: nat): (r: seq<byte>)
    requires n <= MAX_U32
    ensures |r| == 4
  {
    LittleEndian(n, 4)
  }

  /** Buffer.readUInt32LE over exactly four bytes. */
  function ReadU32LE(b: seq<byte>): (n: nat)
    requires |b| == 4
    ensures n <= MAX_U32
  {
    FromLittleEndianBound(b);
    Pow256Values();
    FromLittleEndian(b)
  }

  lemma U32RoundTrip(n: nat)
    requires n <= MAX_U32
    ensures ReadU32LE(U32LE(n)) == n
  {
    Pow256Values();
    LittleEndianRoundTrip(n, 4);
  }

  /** Buffer.writeBigInt64LE: eight little-endian bytes of the two's-complement form. */
  function I64LE(x: Int64): (r: seq<byte>)
    ensures |r| == 8
  {
    LittleEndian(if x < 0 then x + 0x1_0000_0000_0000_0000 else x, 8)
  }

  /** Buffer.readBigInt64LE over exactly eight bytes: a top bit set means a negative value. */
  function ReadI64LE(b: seq<byte>): (x: Int64)
    requires |b| == 8
  {
    FromLittleEndianBound(b);
    Pow256Values();
    var u := FromLittleEndian(b);
    if u >= 0x8000_0000_0000_0000 then u - 0x1_0000_0000_0000_0000 else u
  }

  lemma I64RoundTrip(x: Int64)
    ensures ReadI64LE(I64LE(x)) == x
  {
    Pow256Values();
    LittleEndianRoundTrip(if x < 0 then x + 0x1_0000_0000_0000_0000 else x, 8);
  }

  /** The UTF-8 encoding of one Unicode scalar value. */
  function CharUtf8(c: char): (r: seq<byte>)
    ensures 1 <= |r| <= 4
    ensures (c as int < 0x80) == (|r| == 1)
  {
    var n := c as int;
    if n < 0x80 then [n]
    else if n < 0x800 then [0xC0 + n / 0x40, 0x80 + n % 0x40]
    else if n < 0x1_0000 then [0xE0 + n / 0x1000, 0x80 + n / 0x40 % 0x40, 0x80 + n % 0x40]
    else [0xF0 + n / 0x4_0000, 0x80 + n / 0x1000 % 0x40, 0x80 + n / 0x40 % 0x40, 0x80 + n % 0x40]
  }

  /** Buffer.from(str, "utf8"): every character becomes one to four bytes. */
  function Utf8(s: string): seq<byte>
  {
    if s == [] then [] else CharUtf8(s[0]) + Utf8(s[1..])
  }

  /** Every character takes one to four bytes. */
  lemma {:induction false} Utf8Length(s: string)
    ensures |s| <= |Utf8(s)| <= 4 * |s|
  {
    if s != [] {
      Utf8Length(s[1..]);
    }
  }

  /** A string of ASCII characters takes one byte per character. */
  lemma {:induction false} Utf8Ascii(s: string)
    requires forall i | 0 <= i < |s| :: s[i] as int < 0x80
    ensures |Utf8(s)| == |s|
    ensures forall i | 0 <= i < |s| :: Utf8(s)[i] == s[i] as int
  {
    if s != [] {
      Utf8Ascii(s[1..]);
    }
  }

  /** Buffer.concat: the chunks one after another. */
  function Flatten(chunks: seq<seq<byte>>): seq<byte>
  {
    if chunks == [] then [] else Flatten(chunks[..|chunks| - 1]) + chunks[|chunks| - 1]
  }

  lemma {:induction false} FlattenConcat(a: seq<seq<byte>>, b: seq<seq<byte>>)
    ensures Flatten(a + b) == Flatten(a) + Flatten(b)
  {
    if b != [] {
      assert (a + b)[..|a + b| - 1] == a + b[..|b| - 1];
      FlattenConcat(a, b[..|b| - 1]);
    } else {
      assert a + b == a;
    }
  }

  lemma FlattenSingle(c: seq<byte>)
    ensures Flatten([c]) == c
  {
    assert [c][..0] == [];
  }

}
