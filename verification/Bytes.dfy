/** Bytes as numbers and as bits, and the little-endian fixed-width fields of the file formats. */
module Bytes {

  type Byte = x: int | 0 <= x < 256
  type Bytes = seq<Byte>
  type Bits = seq<bool>

  // ---------- Bits of a number, least significant first ----------

  predicate Bit(n: nat, i: nat)
    decreases i
  {
    if i == 0 then n % 2 == 1 else Bit(n / 2, i - 1)
  }

  /** The low k bits of n: what a cast to a k-bit unsigned type keeps. */
  function BitsOf(n: nat, k: nat): (s: Bits)
    ensures |s| == k
  {
    seq(k, i requires 0 <= i < k => Bit(n, i))
  }

  lemma BitsOfHalf(n: nat, k: nat)
    requires k > 0
    ensures BitsOf(n, k) == [n % 2 == 1] + BitsOf(n / 2, k - 1)
  {
  }

  function Number(s: Bits): nat {
    if s == [] then 0 else (if s[0] then 1 else 0) + 2 * Number(s[1..])
  }

  function Power2(k: nat): (p: nat)
    ensures p > 0
  {
    if k == 0 then 1 else 2 * Power2(k - 1)
  }

  lemma {:induction false} NumberBound(s: Bits)
    ensures Number(s) < Power2(|s|)
  {
    if s != [] {
      NumberBound(s[1..]);
    }
  }

  lemma {:induction false} BitsOfNumber(s: Bits)
    ensures BitsOf(Number(s), |s|) == s
  {
    if s != [] {
      BitsOfNumber(s[1..]);
      BitsOfHalf(Number(s), |s|);
      assert Number(s) / 2 == Number(s[1..]);
    }
  }

  lemma {:induction false} NumberOfBits(n: nat, k: nat)
    requires n < Power2(k)
    ensures Number(BitsOf(n, k)) == n
    decreases k
  {
    if k != 0 {
      NumberOfBits(n / 2, k - 1);
      BitsOfHalf(n, k);
    }
  }

  lemma EightBits()
    ensures Power2(8) == 256
  {
    assert Power2(4) == 16;
  }

  function ByteBits(b: Byte): (s: Bits)
    ensures |s| == 8
  {
    BitsOf(b, 8)
  }

  function ByteOf(s: Bits): Byte
    requires |s| == 8
  {
    NumberBound(s);
    EightBits();
    Number(s)
  }

  lemma ByteOfByteBits(b: Byte)
    ensures ByteOf(ByteBits(b)) == b
  {
    EightBits();
    NumberOfBits(b, 8);
  }

  lemma ByteBitsOfByte(s: Bits)
    requires |s| == 8
    ensures ByteBits(ByteOf(s)) == s
  {
    BitsOfNumber(s);
  }

  // ---------- Little-endian fields ----------

  /** A 16-bit field; the `uint16_t` cast drops everything above bit 15. */
  function U16(n: nat): (d: Bytes)
    ensures |d| == 2
  {
    [n % 65536 % 256, n % 65536 / 256]
  }

  function ReadU16(d: Bytes): (n: nat)
    requires |d| >= 2
    ensures n < 65536
  {
    (d[0] as int) + 256 * (d[1] as int)
  }

  /** Reading a written 16-bit field gives the number back modulo 65536. */
  lemma ReadWrittenU16(n: nat, rest: Bytes)
    ensures ReadU16(U16(n) + rest) == n % 65536
  {
  }

  /** Writing a 16-bit field that was read gives the two bytes back. */
  lemma WriteReadU16(d: Bytes)
    requires |d| >= 2
    ensures U16(ReadU16(d)) == d[..2]
  {
  }

  lemma ReadsU16(d: Bytes, n: nat)
    requires |d| >= 2 && d[..2] == U16(n)
    ensures ReadU16(d) == n % 65536
  {
    hide U16, ReadU16;
    assert d == U16(n) + d[2..];
    ReadWrittenU16(n, d[2..]);
  }

  const TWO_TO_32: nat := 0x1_0000_0000

  /** A 32-bit field; the `uint32_t` cast drops everything above bit 31. */
  function U32(n: nat): (d: Bytes)
    ensures |d| == 4
  {
    U16(n % TWO_TO_32 % 65536) + U16(n % TWO_TO_32 / 65536)
  }

  function ReadU32(d: Bytes): (n: nat)
    requires |d| >= 4
    ensures n < TWO_TO_32
  {
    ReadU16(d) + 65536 * ReadU16(d[2..])
  }

  lemma ReadWrittenU32(n: nat, rest: Bytes)
    ensures ReadU32(U32(n) + rest) == n % TWO_TO_32
  {
    hide U16, ReadU16;
    var w := n % TWO_TO_32;
    var lo, hi := U16(w % 65536), U16(w / 65536);
    assert U32(n) + rest == lo + (hi + rest);
    assert (U32(n) + rest)[2..] == hi + rest;
    ReadWrittenU16(w % 65536, hi + rest);
    ReadWrittenU16(w / 65536, rest);
  }

  lemma WriteReadU32(d: Bytes)
    requires |d| >= 4
    ensures U32(ReadU32(d)) == d[..4]
  {
    hide U16, ReadU16;
    var lo, hi := ReadU16(d), ReadU16(d[2..]);
    assert (lo + 65536 * hi) % TWO_TO_32 % 65536 == lo && (lo + 65536 * hi) % TWO_TO_32 / 65536 == hi;
    WriteReadU16(d);
    WriteReadU16(d[2..]);
    assert d[..4] == d[..2] + d[2..][..2];
  }

  function Repeat<T>(x: T, n: nat): (s: seq<T>)
    ensures |s| == n && forall i :: 0 <= i < n ==> s[i] == x
  {
    seq(n, _ => x)
  }
}
