/** What the algorithm computes, on messages anyone can look up: the empty one, and the check value of CRC-32. */
module Crc32Check {
  import opened Bytes
  import opened Crc32
  import opened Crc32Residue

  lemma {:induction false} ZeroBits(i: nat)
    ensures !Bit(0, i)
  {
    if i > 0 {
      ZeroBits(i - 1);
    }
  }

  /** The empty message has checksum zero. */
  lemma EmptyChecksum()
    ensures Checksum([]) == BitsOf(0, 32)
  {
    hide Bit;
    forall i | 0 <= i < 32
      ensures Checksum([])[i] == BitsOf(0, 32)[i]
    {
      ZeroBits(i);
    }
  }

  /** The preset of all ones is a complement of the first 32 message bits. */
  lemma PresetComplements(m: Bytes)
    requires |m| >= 4
    ensures var s := MessageBits(m);
            Register(m) == FeedBits(Repeat(false, 32), Xor(s[..32], Repeat(true, 32)) + s[32..])
  {
    hide FeedBits, BitStep, Steps, MessageBits, Bit;
    var s := MessageBits(m);
    var first, flipped := s[..32], Xor(s[..32], Repeat(true, 32));
    var zeros: Word := Repeat(false, 32);
    assert s == first + s[32..];
    FeedConcat(ONES, first, s[32..]);
    FeedConcat(zeros, flipped, s[32..]);
    FeedIsSteps(ONES, first);
    FeedIsSteps(zeros, flipped);
    assert Xor(ONES, Pad(first)) == Xor(zeros, Pad(flipped));
  }

  // ---------- The check value ----------

  /** A byte's bits flip the low eight of the register. */
  function Absorbed(f: Flat, t: (bool, bool, bool, bool, bool, bool, bool, bool)): Flat {
    f.(b0 := f.b0 != t.0, b1 := f.b1 != t.1, b2 := f.b2 != t.2, b3 := f.b3 != t.3,
       b4 := f.b4 != t.4, b5 := f.b5 != t.5, b6 := f.b6 != t.6, b7 := f.b7 != t.7)
  }

  /** The bits of the digits one to nine as characters. */
  function DigitBits(d: nat): (bool, bool, bool, bool, bool, bool, bool, bool) {
    var b := 48 + d;
    (Bit(b, 0), Bit(b, 1), Bit(b, 2), Bit(b, 3), Bit(b, 4), Bit(b, 5), Bit(b, 6), Bit(b, 7))
  }

  lemma DigitBitsAre(d: nat)
    requires 1 <= d <= 9
    ensures var (s, t) := (ByteBits(48 + d), DigitBits(d));
            && s[0] == t.0 && s[1] == t.1 && s[2] == t.2 && s[3] == t.3
            && s[4] == t.4 && s[5] == t.5 && s[6] == t.6 && s[7] == t.7
  {
    hide Bit;
  }

  /** Feeding a byte is flipping the low bits and clocking eight times. */
  lemma FeedDigit(f: Flat, w: Word, d: nat) returns (v: Word)
    requires f.Is(w) && 1 <= d <= 9
    ensures Absorbed(f, DigitBits(d)).FourSteps().FourSteps().Is(v) && v == FeedBits(w, ByteBits(48 + d))
  {
    hide Flat.FourSteps, FeedBits, Steps;
    var s := ByteBits(48 + d);
    var x := Xor(w, Pad(s));
    DigitBitsAre(d);
    AbsorbedIs(f, w, s, DigitBits(d));
    hide *;
    FeedIsSteps(w, s);
    v := FlatFourSteps(Absorbed(f, DigitBits(d)), x, 4);
    v := FlatFourSteps(Absorbed(f, DigitBits(d)).FourSteps(), v, 0);
    NoClock(v);
  }

  lemma AbsorbedIs(f: Flat, w: Word, s: Bits, t: (bool, bool, bool, bool, bool, bool, bool, bool))
    requires f.Is(w) && |s| == 8
    requires s[0] == t.0 && s[1] == t.1 && s[2] == t.2 && s[3] == t.3
    requires s[4] == t.4 && s[5] == t.5 && s[6] == t.6 && s[7] == t.7
    ensures Absorbed(f, t).Is(Xor(w, Pad(s)))
  {
    hide Bit;
  }

  /** 0x7C231048. */
  const AFTER_1 := Flat(false, false, false, true, false, false, true, false,
                        false, false, false, false, true, false, false, false,
                        true, true, false, false, false, true, false, false,
                        false, false, true, true, true, true, true, false)

  /** 0xB0ACBB32. */
  const AFTER_2 := Flat(false, true, false, false, true, true, false, false,
                        true, true, false, true, true, true, false, true,
                        false, false, true, true, false, true, false, true,
                        false, false, false, false, true, true, false, true)

  /** 0x77B79C2D. */
  const AFTER_3 := Flat(true, false, true, true, false, true, false, false,
                        false, false, true, true, true, false, false, true,
                        true, true, true, false, true, true, false, true,
                        true, true, true, false, true, true, true, false)

  /** 0x641C1F5C. */
  const AFTER_4 := Flat(false, false, true, true, true, false, true, false,
                        true, true, true, true, true, false, false, false,
                        false, false, true, true, true, false, false, false,
                        false, false, true, false, false, true, true, false)

  /** 0x340AC5E3. */
  const AFTER_5 := Flat(true, true, false, false, false, true, true, true,
                        true, false, true, false, false, false, true, true,
                        false, true, false, true, false, false, false, false,
                        false, false, true, false, true, true, false, false)

  /** 0xF68D2C9E. */
  const AFTER_6 := Flat(false, true, true, true, true, false, false, true,
                        false, false, true, true, false, true, false, false,
                        true, false, true, true, false, false, false, true,
                        false, true, true, false, true, true, true, true)

  /** 0xAFFC9660. */
  const AFTER_7 := Flat(false, false, false, false, false, true, true, false,
                        false, true, true, false, true, false, false, true,
                        false, false, true, true, true, true, true, true,
                        true, true, true, true, false, true, false, true)

  /** 0x651F2550. */
  const AFTER_8 := Flat(false, false, false, false, true, false, true, false,
                        true, false, true, false, false, true, false, false,
                        true, true, true, true, true, false, false, false,
                        true, false, true, false, false, true, true, false)

  /** 0x340BC6D9. */
  const AFTER_9 := Flat(true, false, false, true, true, false, true, true,
                        false, true, true, false, false, false, true, true,
                        true, true, false, true, false, false, false, false,
                        false, false, true, false, true, true, false, false)

  const INTO_1 := Flat(false, true, true, true, false, false, true, true,
                       true, true, true, true, true, true, true, true,
                       true, true, true, true, true, true, true, true,
                       true, true, true, true, true, true, true, true)

  lemma Into1()
    ensures Absorbed(START, DigitBits(1)) == INTO_1
  {
  }

  lemma Clocked1()
    ensures INTO_1.FourSteps().FourSteps() == AFTER_1
  {
  }

  const INTO_2 := Flat(false, true, false, true, true, true, true, false,
                       false, false, false, false, true, false, false, false,
                       true, true, false, false, false, true, false, false,
                       false, false, true, true, true, true, true, false)

  lemma Into2()
    ensures Absorbed(AFTER_1, DigitBits(2)) == INTO_2
  {
  }

  lemma Clocked2()
    ensures INTO_2.FourSteps().FourSteps() == AFTER_2
  {
  }

  const INTO_3 := Flat(true, false, false, false, false, false, false, false,
                       true, true, false, true, true, true, false, true,
                       false, false, true, true, false, true, false, true,
                       false, false, false, false, true, true, false, true)

  lemma Into3()
    ensures Absorbed(AFTER_2, DigitBits(3)) == INTO_3
  {
  }

  lemma Clocked3()
    ensures INTO_3.FourSteps().FourSteps() == AFTER_3
  {
  }

  const INTO_4 := Flat(true, false, false, true, true, false, false, false,
                       false, false, true, true, true, false, false, true,
                       true, true, true, false, true, true, false, true,
                       true, true, true, false, true, true, true, false)

  lemma Into4()
    ensures Absorbed(AFTER_3, DigitBits(4)) == INTO_4
  {
  }

  lemma Clocked4()
    ensures INTO_4.FourSteps().FourSteps() == AFTER_4
  {
  }

  const INTO_5 := Flat(true, false, false, true, false, true, true, false,
                       true, true, true, true, true, false, false, false,
                       false, false, true, true, true, false, false, false,
                       false, false, true, false, false, true, true, false)

  lemma Into5()
    ensures Absorbed(AFTER_4, DigitBits(5)) == INTO_5
  {
  }

  lemma Clocked5()
    ensures INTO_5.FourSteps().FourSteps() == AFTER_5
  {
  }

  const INTO_6 := Flat(true, false, true, false, true, false, true, true,
                       true, false, true, false, false, false, true, true,
                       false, true, false, true, false, false, false, false,
                       false, false, true, false, true, true, false, false)

  lemma Into6()
    ensures Absorbed(AFTER_5, DigitBits(6)) == INTO_6
  {
  }

  lemma Clocked6()
    ensures INTO_6.FourSteps().FourSteps() == AFTER_6
  {
  }

  const INTO_7 := Flat(true, false, false, true, false, true, false, true,
                       false, false, true, true, false, true, false, false,
                       true, false, true, true, false, false, false, true,
                       false, true, true, false, true, true, true, true)

  lemma Into7()
    ensures Absorbed(AFTER_6, DigitBits(7)) == INTO_7
  {
  }

  lemma Clocked7()
    ensures INTO_7.FourSteps().FourSteps() == AFTER_7
  {
  }

  const INTO_8 := Flat(false, false, false, true, true, false, true, false,
                       false, true, true, false, true, false, false, true,
                       false, false, true, true, true, true, true, true,
                       true, true, true, true, false, true, false, true)

  lemma Into8()
    ensures Absorbed(AFTER_7, DigitBits(8)) == INTO_8
  {
  }

  lemma Clocked8()
    ensures INTO_8.FourSteps().FourSteps() == AFTER_8
  {
  }

  const INTO_9 := Flat(true, false, false, true, false, true, true, false,
                       true, false, true, false, false, true, false, false,
                       true, true, true, true, true, false, false, false,
                       true, false, true, false, false, true, true, false)

  lemma Into9()
    ensures Absorbed(AFTER_8, DigitBits(9)) == INTO_9
  {
  }

  lemma Clocked9()
    ensures INTO_9.FourSteps().FourSteps() == AFTER_9
  {
  }

  lemma FeedDigits() returns (v: Word)
    ensures AFTER_9.Is(v) && v == Register([49, 50, 51, 52, 53, 54, 55, 56, 57])
  {
    hide *;
    var w: Word := ONES;
    StartBits();
    NothingFed();
    Into1();
    Clocked1();
    v := FeedDigit(START, w, 1);
    FeedOne([], 49);
    assert [] + [49] == [49];
    w := v;
    Into2();
    Clocked2();
    v := FeedDigit(AFTER_1, w, 2);
    FeedOne([49], 50);
    assert [49] + [50] == [49, 50];
    w := v;
    Into3();
    Clocked3();
    v := FeedDigit(AFTER_2, w, 3);
    FeedOne([49, 50], 51);
    assert [49, 50] + [51] == [49, 50, 51];
    w := v;
    Into4();
    Clocked4();
    v := FeedDigit(AFTER_3, w, 4);
    FeedOne([49, 50, 51], 52);
    assert [49, 50, 51] + [52] == [49, 50, 51, 52];
    w := v;
    Into5();
    Clocked5();
    v := FeedDigit(AFTER_4, w, 5);
    FeedOne([49, 50, 51, 52], 53);
    assert [49, 50, 51, 52] + [53] == [49, 50, 51, 52, 53];
    w := v;
    Into6();
    Clocked6();
    v := FeedDigit(AFTER_5, w, 6);
    FeedOne([49, 50, 51, 52, 53], 54);
    assert [49, 50, 51, 52, 53] + [54] == [49, 50, 51, 52, 53, 54];
    w := v;
    Into7();
    Clocked7();
    v := FeedDigit(AFTER_6, w, 7);
    FeedOne([49, 50, 51, 52, 53, 54], 55);
    assert [49, 50, 51, 52, 53, 54] + [55] == [49, 50, 51, 52, 53, 54, 55];
    w := v;
    Into8();
    Clocked8();
    v := FeedDigit(AFTER_7, w, 8);
    FeedOne([49, 50, 51, 52, 53, 54, 55], 56);
    assert [49, 50, 51, 52, 53, 54, 55] + [56] == [49, 50, 51, 52, 53, 54, 55, 56];
    w := v;
    Into9();
    Clocked9();
    v := FeedDigit(AFTER_8, w, 9);
    FeedOne([49, 50, 51, 52, 53, 54, 55, 56], 57);
    assert [49, 50, 51, 52, 53, 54, 55, 56] + [57] == [49, 50, 51, 52, 53, 54, 55, 56, 57];
    w := v;
  }

  lemma NothingFed()
    ensures Register([]) == ONES
  {
  }

  lemma FeedOne(m: Bytes, b: Byte)
    ensures Register(m + [b]) == FeedBits(Register(m), ByteBits(b))
  {
    hide *;
    RegisterExtends(m, [b]);
    BitsOfOne(b);
  }

  /** The check value: the digits one to nine have checksum 0xCBF43926. */
  lemma CheckValue()
    ensures Checksum([49, 50, 51, 52, 53, 54, 55, 56, 57]) == BitsOf(0xCBF43926, 32)
  {
    hide *;
    var v := FeedDigits();
    FlipsTo(v);
    ChecksumIs([49, 50, 51, 52, 53, 54, 55, 56, 57]);
  }

  lemma ChecksumIs(m: Bytes)
    ensures Checksum(m) == Xor(Register(m), Repeat(true, 32))
  {
    hide Register;
  }

  lemma FlipsTo(v: Word)
    requires AFTER_9.Is(v)
    ensures Xor(v, Repeat(true, 32)) == BitsOf(0xCBF43926, 32)
  {
    BitsByBytes(0xCBF43926, 0xCB, 0xF4, 0x39, 0x26);
    var w: Word := BitsOf(0xCBF43926, 32);
    FlippedIs(w);
    FlipTwice(w);
    hide *;
    FlatUnique(AFTER_9, v, Xor(w, Repeat(true, 32)));
  }

  lemma FlippedIs(w: Word)
    requires w == BitsOf(0xCBF43926, 32)
    ensures AFTER_9.Is(Xor(w, Repeat(true, 32)))
  {
    BitsByBytes(0xCBF43926, 0xCB, 0xF4, 0x39, 0x26);
  }

  lemma FlipTwice(w: Word)
    ensures Xor(Xor(w, Repeat(true, 32)), Repeat(true, 32)) == w
  {
    hide Bit;
  }
}
