/** CRC-32 (crc32.cpp): the table-driven code, the bit-at-a-time definition of
    section 8 of RFC 1952, and what the checksum is guaranteed to detect.
    A `uint32_t` is its 32 bits, least significant first, so `>> k` drops the
    first k bits and `& 0xFF` keeps the first eight. */
module Crc32 {
  import opened Bytes

  type Word = w: Bits | |w| == 32 witness BitsOf(0, 32)

  function Zeros(k: nat): (s: Bits)
    ensures |s| == k && forall i :: 0 <= i < k ==> !s[i]
  {
    Repeat(false, k)
  }

  function Xor(a: Bits, b: Bits): (c: Bits)
    requires |a| == |b|
    ensures |c| == |a|
    ensures forall i :: 0 <= i < |a| ==> c[i] == (a[i] != b[i])
  {
    seq(|a|, i requires 0 <= i < |a| => a[i] != b[i])
  }

  const POLYNOMIAL: Word := BitsOf(0xEDB88320, 32)
  const ONES: Word := Repeat(true, 32)

  // ---------- The bit-at-a-time definition ----------

  /** `c >> k`. */
  function ShiftRight(c: Word, k: nat): Word
    requires k <= 32
  {
    c[k..] + Zeros(k)
  }

  /** One clock of the shift register. */
  function BitStep(c: Word): Word {
    if c[0] then Xor(ShiftRight(c, 1), POLYNOMIAL) else ShiftRight(c, 1)
  }

  function Steps(c: Word, n: nat): Word
    decreases n
  {
    if n == 0 then c else Steps(BitStep(c), n - 1)
  }

  /** The register after the message bits `s` have entered at the low end. */
  function FeedBits(c: Word, s: Bits): Word
    decreases |s|
  {
    if s == [] then c else FeedBits(BitStep(c[0 := c[0] != s[0]]), s[1..])
  }

  /** A message in transmission order: each byte's least significant bit first. */
  function MessageBits(m: Bytes): (s: Bits)
    ensures |s| == 8 * |m|
  {
    if m == [] then [] else ByteBits(m[0]) + MessageBits(m[1..])
  }

  /** The register after a whole message, from the preset of all ones. */
  function Register(m: Bytes): Word {
    FeedBits(ONES, MessageBits(m))
  }

  function Checksum(m: Bytes): Word {
    Xor(Register(m), ONES)
  }

  // ---------- Algebra of the register ----------

  /** The bits of a number's upper bytes are those of the number without its low byte. */
  lemma BitAbove(n: nat, i: nat)
    ensures Bit(n, i + 8) == Bit(n / 256, i)
  {
    assert n / 2 / 2 / 2 / 2 / 2 / 2 / 2 / 2 == n / 256;
    assert Bit(n, i + 8) == Bit(n / 2 / 2, i + 6);
    assert Bit(n / 2 / 2, i + 6) == Bit(n / 2 / 2 / 2 / 2, i + 4);
    assert Bit(n / 2 / 2 / 2 / 2, i + 4) == Bit(n / 2 / 2 / 2 / 2 / 2 / 2, i + 2);
  }

  lemma TopOfPolynomial()
    ensures POLYNOMIAL[31]
  {
    BitAbove(0xEDB88320, 23);
    BitAbove(0xEDB883, 15);
    BitAbove(0xEDB8, 7);
    assert Bit(0xED, 7);
  }

  /** A clock is linear over XOR. */
  lemma BitStepLinear(a: Word, b: Word)
    ensures BitStep(Xor(a, b)) == Xor(BitStep(a), BitStep(b))
  {
    hide Bit;
  }

  lemma {:induction false} StepsLinear(a: Word, b: Word, n: nat)
    ensures Steps(Xor(a, b), n) == Xor(Steps(a, n), Steps(b, n))
    decreases n
  {
    hide BitStep, Xor;
    if n == 0 {
    } else {
      BitStepLinear(a, b);
      StepsLinear(BitStep(a), BitStep(b), n - 1);
    }
  }

  lemma BitStepInjective(a: Word, b: Word)
    requires BitStep(a) == BitStep(b)
    ensures a == b
  {
    TopOfPolynomial();
    var r := BitStep(a);
    assert r[31] == a[0] == b[0];
    forall i | 1 <= i < 32
      ensures a[i] == b[i]
    {
      assert r[i - 1] == if a[0] then a[i] != POLYNOMIAL[i - 1] else a[i];
      assert r[i - 1] == if b[0] then b[i] != POLYNOMIAL[i - 1] else b[i];
    }
  }

  lemma {:induction false} StepsInjective(a: Word, b: Word, n: nat)
    requires Steps(a, n) == Steps(b, n)
    ensures a == b
    decreases n
  {
    hide BitStep;
    if n == 0 {
    } else {
      StepsInjective(BitStep(a), BitStep(b), n - 1);
      BitStepInjective(a, b);
    }
  }

  lemma {:induction false} FeedConcat(c: Word, s: Bits, t: Bits)
    ensures FeedBits(c, s + t) == FeedBits(FeedBits(c, s), t)
    decreases |s|
  {
    hide BitStep;
    if s == [] {
      assert s + t == t;
    } else {
      assert (s + t)[0] == s[0] && (s + t)[1..] == s[1..] + t;
      FeedConcat(BitStep(c[0 := c[0] != s[0]]), s[1..], t);
    }
  }

  /** Feeding fixed bits is a bijection on registers. */
  lemma {:induction false} FeedInjective(a: Word, b: Word, s: Bits)
    requires FeedBits(a, s) == FeedBits(b, s)
    ensures a == b
    decreases |s|
  {
    hide BitStep;
    if s == [] {
    } else {
      var a', b' := a[0 := a[0] != s[0]], b[0 := b[0] != s[0]];
      FeedInjective(BitStep(a'), BitStep(b'), s[1..]);
      BitStepInjective(a', b');
      forall i | 0 <= i < 32
        ensures a[i] == b[i]
      {
        assert a'[i] == b'[i];
      }
    }
  }

  // ---------- Up to 32 bits act as one XOR ----------

  /** At most 32 bits, as a word. */
  function Pad(s: Bits): Word
    requires |s| <= 32
  {
    s + Zeros(32 - |s|)
  }

  /** One clock XORs in the bits that wait behind the incoming one. */
  lemma StepAbsorbs(c: Word, s: Bits)
    requires 0 < |s| <= 32
    ensures BitStep(Xor(c, Pad(s))) == Xor(BitStep(c[0 := c[0] != s[0]]), Pad(s[1..]))
  {
    hide Bit;
    var l, r := BitStep(Xor(c, Pad(s))), Xor(BitStep(c[0 := c[0] != s[0]]), Pad(s[1..]));
    forall i | 0 <= i < 32
      ensures l[i] == r[i]
    {
      if i < 31 {
        assert Pad(s)[i + 1] == Pad(s[1..])[i];
      }
    }
  }

  /** Feeding at most 32 bits is one XOR followed by as many clocks. */
  lemma {:induction false} FeedIsSteps(c: Word, s: Bits)
    requires |s| <= 32
    ensures FeedBits(c, s) == Steps(Xor(c, Pad(s)), |s|)
    decreases |s|
  {
    hide BitStep;
    if s == [] {
      assert Xor(c, Pad(s)) == c;
    } else {
      StepAbsorbs(c, s);
      FeedIsSteps(BitStep(c[0 := c[0] != s[0]]), s[1..]);
    }
  }

  // ---------- Burst detection ----------

  /** Bit strings of one length that differ, and only inside 32 consecutive positions from `at`. */
  ghost predicate Burst(s: Bits, t: Bits, at: nat) {
    && |s| == |t|
    && s != t
    && forall j :: 0 <= j < |s| && !(at <= j < at + 32) ==> s[j] == t[j]
  }

  /** Different bits entering one register lead to different registers. */
  lemma WindowChangesRegister(c: Word, v: Bits, w: Bits)
    requires |v| == |w| <= 32 && FeedBits(c, v) == FeedBits(c, w)
    ensures v == w
  {
    FeedIsSteps(c, v);
    FeedIsSteps(c, w);
    StepsInjective(Xor(c, Pad(v)), Xor(c, Pad(w)), |v|);
    forall i | 0 <= i < |v|
      ensures v[i] == w[i]
    {
      assert Pad(v)[i] == v[i] && Pad(w)[i] == w[i];
      assert Xor(c, Pad(v))[i] == Xor(c, Pad(w))[i];
    }
  }

  /** A burst changes the register, from any starting value and for messages of any length. */
  lemma BurstChangesRegister(c: Word, s: Bits, t: Bits, at: nat)
    requires Burst(s, t, at)
    ensures FeedBits(c, s) != FeedBits(c, t)
  {
    hide FeedBits;
    var lo := if at < |s| then at else |s|;
    var hi := if at + 32 < |s| then at + 32 else |s|;
    var p, v, w, q := s[..lo], s[lo..hi], t[lo..hi], s[hi..];
    assert s == p + (v + q);
    assert t == p + (w + q);
    if FeedBits(c, s) == FeedBits(c, t) {
      FeedConcat(c, p, v + q);
      FeedConcat(c, p, w + q);
      var d := FeedBits(c, p);
      FeedConcat(d, v, q);
      FeedConcat(d, w, q);
      FeedInjective(FeedBits(d, v), FeedBits(d, w), q);
      WindowChangesRegister(d, v, w);
    }
  }

  // ---------- Bytes ----------

  lemma {:induction false} MessageBitsConcat(m: Bytes, n: Bytes)
    ensures MessageBits(m + n) == MessageBits(m) + MessageBits(n)
    decreases |m|
  {
    hide ByteBits;
    if m == [] {
      assert m + n == n;
    } else {
      assert (m + n)[0] == m[0] && (m + n)[1..] == m[1..] + n;
      MessageBitsConcat(m[1..], n);
    }
  }

  lemma BitsOfOne(b: Byte)
    ensures MessageBits([b]) == ByteBits(b)
  {
    hide ByteBits;
    assert [b][1..] == [];
  }

  lemma RegisterExtends(m: Bytes, n: Bytes)
    ensures Register(m + n) == FeedBits(Register(m), MessageBits(n))
  {
    MessageBitsConcat(m, n);
    FeedConcat(ONES, MessageBits(m), MessageBits(n));
  }

  // ---------- The table-driven code ----------

  /** Entry `i` of the table: the byte clocked through an otherwise empty register. */
  function TableEntry(i: Byte): Word {
    Steps(Pad(ByteBits(i)), 8)
  }

  method MakeTable(idx: Byte) returns (crc: Word)
    ensures crc == TableEntry(idx)
  {
    hide Steps, Bit;
    crc := Pad(ByteBits(idx));
    for j := 0 to 8
      invariant Steps(crc, 8 - j) == TableEntry(idx)
    {
      StepsUnfold(crc, 7 - j);
      crc := if crc[0] then Xor(ShiftRight(crc, 1), POLYNOMIAL) else ShiftRight(crc, 1);
    }
    StepsUnfold(crc, 0);
  }

  lemma StepsUnfold(c: Word, n: nat)
    ensures Steps(c, n + 1) == Steps(BitStep(c), n)
    ensures Steps(c, 0) == c
  {
  }

  class Crc32Table {
    const data: array<Word>

    ghost predicate Valid()
      reads data
    {
      && data.Length == 256
      && forall i: Byte :: data[i] == TableEntry(i)
    }

    constructor ()
      ensures Valid() && fresh(data)
    {
      hide TableEntry, ByteBits;
      data := new Word[256](_ => ONES);
      new;
      for i: int := 0 to 256
        invariant forall k: Byte :: k < i ==> data[k] == TableEntry(k)
      {
        data[i] := MakeTable(i);
      }
    }

    /** One byte through the table; the specification is eight clocks of the register. */
    method Crc32Byte(crc: Word, byte: Byte) returns (r: Word)
      requires Valid()
      ensures r == FeedBits(crc, ByteBits(byte))
    {
      r := Xor(data[LowByte(crc, byte)], ShiftRight(crc, 8));
      TableByte(crc, byte);
    }

    /** The table-driven checksum of a whole message is the bit-at-a-time one. */
    method Crc32(m: Bytes) returns (r: Word)
      requires Valid()
      ensures r == Checksum(m)
    {
      var crc := ONES;
      for i := 0 to |m|
        invariant crc == Register(m[..i])
      {
        RegisterExtends(m[..i], [m[i]]);
        BitsOfOne(m[i]);
        assert m[..i + 1] == m[..i] + [m[i]];
        crc := Crc32Byte(crc, m[i]);
      }
      assert m[..|m|] == m;
      r := Xor(crc, ONES);
    }

    method VerifyChecksum(d: Bytes, n: nat) returns (ok: bool)
      requires Valid() && n + 4 <= |d|
      ensures ok == Verifies(d, n)
    {
      var calculated := Crc32(d[..n]);
      ok := ReadChecksum(d[n..]) == calculated;
    }
  }

  /** The table index: the low byte of the register mixed with the message byte. */
  function LowByte(c: Word, b: Byte): Byte {
    ByteOf(Xor(c[..8], ByteBits(b)))
  }

  /** One table lookup is eight clocks fed with the byte's bits. */
  lemma TableByte(c: Word, b: Byte)
    ensures Xor(TableEntry(LowByte(c, b)), ShiftRight(c, 8)) == FeedBits(c, ByteBits(b))
  {
    hide ByteBits, ByteOf, Steps, FeedBits;
    var low := Xor(c[..8], ByteBits(b));
    ByteBitsOfByte(low);
    var high := Zeros(8) + c[8..];
    FeedIsSteps(c, ByteBits(b));
    assert Xor(c, Pad(ByteBits(b))) == Xor(Pad(low), high);
    StepsLinear(Pad(low), high, 8);
    ClockOutZeros(high, 8);
    assert ShiftRight(high, 8) == ShiftRight(c, 8);
  }

  /** With its low k bits clear, k clocks are a plain shift. */
  lemma {:induction false} ClockOutZeros(w: Word, k: nat)
    requires k <= 32 && forall i :: 0 <= i < k ==> !w[i]
    ensures Steps(w, k) == ShiftRight(w, k)
    decreases k
  {
    if k == 0 {
    } else {
      var v := ShiftRight(w, 1);
      assert BitStep(w) == v;
      ClockOutZeros(v, k - 1);
      assert ShiftRight(v, k - 1) == ShiftRight(w, k);
    }
  }

  // ---------- Stored checksums ----------

  /** The four bytes `AppendChecksum` adds, least significant first. */
  function ChecksumBytes(c: Word): (d: Bytes)
    ensures |d| == 4
  {
    [ByteOf(c[0..8]), ByteOf(c[8..16]), ByteOf(c[16..24]), ByteOf(c[24..32])]
  }

  function ReadChecksum(d: Bytes): Word
    requires |d| >= 4
  {
    ByteBits(d[0]) + ByteBits(d[1]) + ByteBits(d[2]) + ByteBits(d[3])
  }

  /** `VerifyChecksum`: the four bytes after the first n are the checksum of the first n. */
  predicate Verifies(d: Bytes, n: nat)
    requires n + 4 <= |d|
  {
    ReadChecksum(d[n..]) == Checksum(d[..n])
  }

  lemma ReadOfWritten(c: Word, rest: Bytes)
    ensures ReadChecksum(ChecksumBytes(c) + rest) == c
  {
    hide ByteBits, ByteOf;
    ByteBitsOfByte(c[0..8]);
    ByteBitsOfByte(c[8..16]);
    ByteBitsOfByte(c[16..24]);
    ByteBitsOfByte(c[24..32]);
  }

  lemma WrittenOfRead(d: Bytes)
    requires |d| >= 4
    ensures ChecksumBytes(ReadChecksum(d)) == d[..4]
  {
    hide ByteBits, ByteOf;
    ByteOfByteBits(d[0]);
    ByteOfByteBits(d[1]);
    ByteOfByteBits(d[2]);
    ByteOfByteBits(d[3]);
    var c := ReadChecksum(d);
    assert c[0..8] == ByteBits(d[0]) && c[8..16] == ByteBits(d[1]);
    assert c[16..24] == ByteBits(d[2]) && c[24..32] == ByteBits(d[3]);
  }

  lemma VerifiesIff(d: Bytes, n: nat)
    requires n + 4 == |d|
    ensures Verifies(d, n) <==> d == d[..n] + ChecksumBytes(Checksum(d[..n]))
  {
    hide ReadChecksum, ChecksumBytes, Checksum;
    var c := Checksum(d[..n]);
    assert d == d[..n] + d[n..];
    if Verifies(d, n) {
      WrittenOfRead(d[n..]);
      assert d[n..][..4] == d[n..];
    }
    if d == d[..n] + ChecksumBytes(c) {
      assert d[n..] == ChecksumBytes(c) + [];
      ReadOfWritten(c, []);
    }
  }

  lemma BitsOfFour(d: Bytes)
    requires |d| == 4
    ensures MessageBits(d) == ReadChecksum(d)
  {
    hide ByteBits;
    assert d[1..][1..] == d[2..] && d[2..][1..] == d[3..] && d[3..][1..] == [];
    assert MessageBits(d[3..]) == ByteBits(d[3]);
    assert MessageBits(d[2..]) == ByteBits(d[2]) + ByteBits(d[3]);
    assert MessageBits(d[1..]) == ByteBits(d[1]) + (ByteBits(d[2]) + ByteBits(d[3]));
  }

  /** A trailing checksum is right exactly when the register run over data and
      checksum together ends in one fixed value. */
  lemma VerifiesIffFixed(d: Bytes, n: nat)
    requires n + 4 == |d|
    ensures Verifies(d, n) <==> Register(d) == Steps(ONES, 32)
  {
    hide ReadChecksum, Register, Steps, MessageBits, FeedBits;
    var body, tail := d[..n], d[n..];
    assert d == body + tail;
    RegisterExtends(body, tail);
    BitsOfFour(tail);
    var c, stored := Register(body), ReadChecksum(tail);
    FeedIsSteps(c, stored);
    assert Pad(stored) == stored;
    assert Register(d) == Steps(Xor(c, stored), 32);
    if stored == Xor(c, ONES) {
      assert Xor(c, stored) == ONES;
    }
    if Register(d) == Steps(ONES, 32) {
      StepsInjective(Xor(c, stored), ONES, 32);
      forall i | 0 <= i < 32
        ensures stored[i] == Xor(c, ONES)[i]
      {
        assert Xor(c, stored)[i] == ONES[i];
      }
    }
  }

  // ---------- What a checksum detects ----------

  /** Equal-length byte strings that differ, and only within 32 consecutive bits. */
  ghost predicate Damaged(m: Bytes, m': Bytes) {
    |m| == |m'| && exists at :: Burst(MessageBits(m), MessageBits(m'), at)
  }

  /** Damage to the data alone always changes the checksum. */
  lemma DamageChangesChecksum(m: Bytes, m': Bytes)
    requires Damaged(m, m')
    ensures Checksum(m) != Checksum(m')
  {
    hide FeedBits, MessageBits;
    var at :| Burst(MessageBits(m), MessageBits(m'), at);
    BurstChangesRegister(ONES, MessageBits(m), MessageBits(m'), at);
    var i :| 0 <= i < 32 && Register(m)[i] != Register(m')[i];
    assert Checksum(m)[i] != Checksum(m')[i];
  }

  /** Damage anywhere in data followed by its checksum, also across the boundary, is detected. */
  lemma DamageDetected(d: Bytes, d': Bytes, n: nat)
    requires n + 4 == |d| && Damaged(d, d') && Verifies(d, n)
    ensures !Verifies(d', n)
  {
    hide FeedBits, MessageBits, Verifies, Steps;
    var at :| Burst(MessageBits(d), MessageBits(d'), at);
    VerifiesIffFixed(d, n);
    VerifiesIffFixed(d', n);
    BurstChangesRegister(ONES, MessageBits(d), MessageBits(d'), at);
  }

  lemma {:induction false} BitsOfByteAt(m: Bytes, k: nat)
    requires k < |m|
    ensures MessageBits(m)[8 * k..8 * k + 8] == ByteBits(m[k])
  {
    hide ByteBits;
    if k == 0 {
    } else {
      BitsOfByteAt(m[1..], k - 1);
      assert MessageBits(m)[8 * k..8 * k + 8] == MessageBits(m[1..])[8 * k - 8..8 * k];
    }
  }

  /** A change confined to four consecutive bytes is such damage. */
  lemma FourByteWindow(m: Bytes, m': Bytes, at: nat)
    requires |m| == |m'| && m != m'
    requires forall k :: 0 <= k < |m| && !(at <= k < at + 4) ==> m[k] == m'[k]
    ensures Damaged(m, m')
  {
    hide ByteBits, MessageBits;
    var s, t := MessageBits(m), MessageBits(m');
    forall j | 0 <= j < |s| && !(8 * at <= j < 8 * at + 32)
      ensures s[j] == t[j]
    {
      var k := j / 8;
      BitsOfByteAt(m, k);
      BitsOfByteAt(m', k);
      assert s[j] == s[8 * k..8 * k + 8][j - 8 * k] && t[j] == t[8 * k..8 * k + 8][j - 8 * k];
    }
    var k :| 0 <= k < |m| && m[k] != m'[k];
    BitsOfByteAt(m, k);
    BitsOfByteAt(m', k);
    ByteOfByteBits(m[k]);
    ByteOfByteBits(m'[k]);
    assert Burst(s, t, 8 * at);
  }
}
