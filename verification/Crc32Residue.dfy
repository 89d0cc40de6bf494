/** The fixed residue of the register is the number 0xDEBB20E3. */
module Crc32Residue {
  import opened Bytes
  import opened Crc32

  const RESIDUE: Word := BitsOf(0xDEBB20E3, 32)

  /** A register as a record of its bits, on which a clock is plain evaluation. */
  datatype Flat = Flat(b0: bool, b1: bool, b2: bool, b3: bool, b4: bool, b5: bool, b6: bool, b7: bool,
                       b8: bool, b9: bool, b10: bool, b11: bool, b12: bool, b13: bool, b14: bool, b15: bool,
                       b16: bool, b17: bool, b18: bool, b19: bool, b20: bool, b21: bool, b22: bool, b23: bool,
                       b24: bool, b25: bool, b26: bool, b27: bool, b28: bool, b29: bool, b30: bool, b31: bool)
  {
    ghost predicate Low(w: Word) {
      && w[0] == b0 && w[1] == b1 && w[2] == b2 && w[3] == b3
      && w[4] == b4 && w[5] == b5 && w[6] == b6 && w[7] == b7
      && w[8] == b8 && w[9] == b9 && w[10] == b10 && w[11] == b11
      && w[12] == b12 && w[13] == b13 && w[14] == b14 && w[15] == b15
    }

    ghost predicate High(w: Word) {
      && w[16] == b16 && w[17] == b17 && w[18] == b18 && w[19] == b19
      && w[20] == b20 && w[21] == b21 && w[22] == b22 && w[23] == b23
      && w[24] == b24 && w[25] == b25 && w[26] == b26 && w[27] == b27
      && w[28] == b28 && w[29] == b29 && w[30] == b30 && w[31] == b31
    }

    /** The bits are those of the word w. */
    ghost predicate Is(w: Word) {
      Low(w) && High(w)
    }

    /** One clock: the bits move down, and the polynomial's bits flip if a one falls out. */
    function Step(): Flat {
      if b0 then
        Flat(b1, b2, b3, b4, b5, !b6, b7, b8, !b9, !b10, b11, b12, b13, b14, b15, !b16,
             b17, b18, b19, !b20, !b21, !b22, b23, !b24, !b25, b26, !b27, !b28, b29, !b30, !b31, true)
      else
        Flat(b1, b2, b3, b4, b5, b6, b7, b8, b9, b10, b11, b12, b13, b14, b15, b16,
             b17, b18, b19, b20, b21, b22, b23, b24, b25, b26, b27, b28, b29, b30, b31, false)
    }

    function FourSteps(): Flat {
      Step().Step().Step().Step()
    }
  }

  /** The bits of a 32-bit number by its bytes, most significant first. */
  lemma BitsByBytes(n: nat, b3: Byte, b2: Byte, b1: Byte, b0: Byte)
    requires n == b0 + 256 * (b1 + 256 * (b2 + 256 * b3))
    ensures var w := BitsOf(n, 32);
            && (forall i :: 0 <= i < 8 ==> w[i] == Bit(b0, i))
            && (forall i :: 8 <= i < 16 ==> w[i] == Bit(b1, i - 8))
            && (forall i :: 16 <= i < 24 ==> w[i] == Bit(b2, i - 16))
            && (forall i :: 24 <= i < 32 ==> w[i] == Bit(b3, i - 24))
  {
    hide Bit;
    var n1 := n / 256;
    var n2 := n1 / 256;
    assert n1 == b1 + 256 * (b2 + 256 * b3) && n2 == b2 + 256 * b3 && n2 / 256 == b3;
    forall i | 0 <= i < 8
      ensures Bit(n, i) == Bit(b0, i) && Bit(n, i + 8) == Bit(b1, i)
      ensures Bit(n, i + 16) == Bit(b2, i) && Bit(n, i + 24) == Bit(b3, i)
    {
      BitAbove(n, i);
      BitAbove(n, i + 8);
      BitAbove(n, i + 16);
      BitAbove(n1, i);
      BitAbove(n1, i + 8);
      BitAbove(n2, i);
      LowBits(n, b0, i);
      LowBits(n1, b1, i);
      LowBits(n2, b2, i);
    }
    var w := BitsOf(n, 32);
    assert forall i :: 8 <= i < 16 ==> w[i] == Bit(n, (i - 8) + 8);
    assert forall i :: 16 <= i < 24 ==> w[i] == Bit(n, (i - 16) + 16);
    assert forall i :: 24 <= i < 32 ==> w[i] == Bit(n, (i - 24) + 24);
  }

  /** The low bits of a number are those of its low byte. */
  lemma LowBits(n: nat, b: Byte, i: nat)
    requires n % 256 == b && i < 8
    ensures Bit(n, i) == Bit(b, i)
  {
    EightBits();
    LowBitsAgree(n / 256, b, i, 8);
  }

  lemma {:induction false} LowBitsAgree(q: nat, b: nat, i: nat, k: nat)
    requires i < k
    ensures Bit(Power2(k) * q + b, i) == Bit(b, i)
    decreases i
  {
    var n := Power2(k) * q + b;
    var h := Power2(k - 1) * q;
    assert n == 2 * h + b;
    if i != 0 {
      LowBitsAgree(q, b / 2, i - 1, k - 1);
      assert n / 2 == h + b / 2;
    }
  }

  lemma PolynomialBits()
    ensures var p := POLYNOMIAL;
            && !p[0] && !p[1] && !p[2] && !p[3] && !p[4] && p[5] && !p[6] && !p[7]
            && p[8] && p[9] && !p[10] && !p[11] && !p[12] && !p[13] && !p[14] && p[15]
            && !p[16] && !p[17] && !p[18] && p[19] && p[20] && p[21] && !p[22] && p[23]
            && p[24] && !p[25] && p[26] && p[27] && !p[28] && p[29] && p[30] && p[31]
  {
    BitsByBytes(0xEDB88320, 0xED, 0xB8, 0x83, 0x20);
  }

  lemma ResidueBits()
    ensures END.Is(RESIDUE)
  {
    BitsByBytes(0xDEBB20E3, 0xDE, 0xBB, 0x20, 0xE3);
  }

  lemma BitStepAt(w: Word)
    ensures forall i {:trigger BitStep(w)[i]} :: 0 <= i < 32 ==>
              BitStep(w)[i] == ((i < 31 && w[i + 1]) != (w[0] && POLYNOMIAL[i]))
  {
    hide Bit;
  }

  lemma FlatStepLow(f: Flat, w: Word)
    requires f.Is(w)
    ensures f.Step().Low(BitStep(w))
  {
    hide Bit, BitStep;
    PolynomialBits();
    BitStepAt(w);
    var g := f.Step();
    if f.b0 {} else {}
  }

  lemma FlatStepHigh(f: Flat, w: Word)
    requires f.Is(w)
    ensures f.Step().High(BitStep(w))
  {
    hide Bit, BitStep;
    PolynomialBits();
    BitStepAt(w);
    var g := f.Step();
    if f.b0 {} else {}
  }

  lemma FlatStep(f: Flat, w: Word)
    requires f.Is(w)
    ensures f.Step().Is(BitStep(w))
  {
    hide Flat.Low, Flat.High, BitStep, Flat.Step;
    FlatStepLow(f, w);
    FlatStepHigh(f, w);
  }

  lemma FlatFourSteps(f: Flat, w: Word, n: nat) returns (v: Word)
    requires f.Is(w)
    ensures f.FourSteps().Is(v) && Steps(w, n + 4) == Steps(v, n)
  {
    hide BitStep, Flat.Step, Flat.Is;
    FlatStep(f, w);
    FlatStep(f.Step(), BitStep(w));
    FlatStep(f.Step().Step(), BitStep(BitStep(w)));
    FlatStep(f.Step().Step().Step(), BitStep(BitStep(BitStep(w))));
    v := BitStep(BitStep(BitStep(BitStep(w))));
    assert Steps(w, n + 4) == Steps(BitStep(BitStep(w)), n + 2);
  }

  lemma FlatUnique(f: Flat, v: Word, w: Word)
    requires f.Is(v) && f.Is(w)
    ensures v == w
  {
    SameFour(v, w, 0); SameFour(v, w, 4); SameFour(v, w, 8); SameFour(v, w, 12);
    SameFour(v, w, 16); SameFour(v, w, 20); SameFour(v, w, 24); SameFour(v, w, 28);
    hide *;
    forall i | 0 <= i < 32
      ensures v[i] == w[i]
    {
    }
  }

  lemma SameFour(v: Word, w: Word, k: nat)
    requires k <= 28 && v[k] == w[k] && v[k + 1] == w[k + 1] && v[k + 2] == w[k + 2] && v[k + 3] == w[k + 3]
    ensures forall i :: k <= i < k + 4 ==> v[i] == w[i]
  {
  }

  /** 0xFFFFFFFF. */
  const START := Flat(true, true, true, true, true, true, true, true, true, true, true, true, true, true, true, true,
                      true, true, true, true, true, true, true, true, true, true, true, true, true, true, true, true)

  /** 0xBE26ED00. */
  const HALFWAY := Flat(false, false, false, false, false, false, false, false,
                        true, false, true, true, false, true, true, true,
                        false, true, true, false, false, true, false, false,
                        false, true, true, true, true, true, false, true)

  /** 0xDEBB20E3. */
  const END := Flat(true, true, false, false, false, true, true, true,
                    false, false, false, false, false, true, false, false,
                    true, true, false, true, true, true, false, true,
                    false, true, true, true, true, false, true, true)

  lemma FirstHalf()
    ensures START.FourSteps().FourSteps().FourSteps().FourSteps() == HALFWAY
  {
  }

  lemma SecondHalf()
    ensures HALFWAY.FourSteps().FourSteps().FourSteps().FourSteps() == END
  {
  }

  lemma SixteenSteps(f: Flat, w: Word, n: nat) returns (v: Word)
    requires f.Is(w)
    ensures f.FourSteps().FourSteps().FourSteps().FourSteps().Is(v) && Steps(w, n + 16) == Steps(v, n)
  {
    hide *;
    v := FlatFourSteps(f, w, n + 12);
    v := FlatFourSteps(f.FourSteps(), v, n + 8);
    v := FlatFourSteps(f.FourSteps().FourSteps(), v, n + 4);
    v := FlatFourSteps(f.FourSteps().FourSteps().FourSteps(), v, n);
  }

  lemma StartBits()
    ensures START.Is(ONES)
  {
  }

  lemma ResidueValue()
    ensures Steps(ONES, 32) == RESIDUE
  {
    hide *;
    StartBits();
    var v := SixteenSteps(START, ONES, 16);
    FirstHalf();
    v := SixteenSteps(HALFWAY, v, 0);
    SecondHalf();
    ResidueBits();
    FlatUnique(END, v, RESIDUE);
    NoClock(v);
  }

  lemma NoClock(w: Word)
    ensures Steps(w, 0) == w
  {
  }

  /** Appendix C.3 of RFC 1662: a trailing checksum is right exactly when the register
      run over data and checksum together ends in 0xDEBB20E3. */
  lemma VerifiesIffResidue(d: Bytes, n: nat)
    requires n + 4 == |d|
    ensures Verifies(d, n) <==> Register(d) == RESIDUE
  {
    hide *;
    VerifiesIffFixed(d, n);
    ResidueValue();
  }
}
