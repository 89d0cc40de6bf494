/** The byte format of write-ahead log records (wal.cpp): a CRC, then the operation,
    the key and the value with 16-bit lengths, and the log as records end to end. */
module WalCodec {
  import opened Bytes
  import opened Options
  import opened Crc32

  const SET: Byte := 1
  const DEL: Byte := 2

  /** `OpType` is an unchecked byte: a decoded record may hold any operation. */
  datatype Record = Record(op: Byte, key: Bytes, value: Bytes)

  // ---------- Serialize ----------

  function Body(r: Record): Bytes {
    [r.op] + U16(|r.key|) + r.key + U16(|r.value|) + r.value
  }

  function Encode(r: Record): (d: Bytes)
    ensures |d| == 9 + |r.key| + |r.value|
  {
    ChecksumBytes(Checksum(Body(r))) + Body(r)
  }

  /** Both lengths survive the cast to `uint16_t`. */
  predicate Fits(r: Record) {
    |r.key| <= 65535 && |r.value| <= 65535
  }

  // ---------- Deserialize ----------

  /** The record at the start of `d` and the bytes it takes; None is `consumed == 0`. */
  function Decode(d: Bytes): (o: Option<(Record, nat)>)
    ensures o.Some? ==> 9 <= o.value.1 <= |d|
  {
    if |d| < 9 then None else
    var keyLen := ReadU16(d[5..]);
    if |d| < 9 + keyLen then None else
    var valLen := ReadU16(d[7 + keyLen..]);
    if |d| < 9 + keyLen + valLen then None else
    var r := Record(d[4], d[7..7 + keyLen], d[9 + keyLen..9 + keyLen + valLen]);
    if ReadChecksum(d) != Checksum(Body(r)) then None else Some((r, 9 + keyLen + valLen))
  }

  /** Where the fields of an encoded record lie. */
  lemma EncodeLayout(r: Record, x: Bytes)
    ensures var d := Encode(r) + x;
            && d[..4] == ChecksumBytes(Checksum(Body(r)))
            && d[4] == r.op
            && d[5..7] == U16(|r.key|)
            && d[7..7 + |r.key|] == r.key
            && d[7 + |r.key|..9 + |r.key|] == U16(|r.value|)
            && d[9 + |r.key|..9 + |r.key| + |r.value|] == r.value
  {
    hide ChecksumBytes, Checksum, U16;
    Parts(ChecksumBytes(Checksum(Body(r))), r.op, U16(|r.key|), r.key, U16(|r.value|), r.value, x);
  }

  lemma Parts(c: Bytes, o: Byte, k: Bytes, key: Bytes, v: Bytes, value: Bytes, x: Bytes)
    requires |c| == 4 && |k| == 2 && |v| == 2
    ensures var d := c + ([o] + k + key + v + value) + x;
            && d[..4] == c
            && d[4] == o
            && d[5..7] == k
            && d[7..7 + |key|] == key
            && d[7 + |key|..9 + |key|] == v
            && d[9 + |key|..9 + |key| + |value|] == value
  {
    var d := c + ([o] + k + key + v + value) + x;
    var tail := v + value + x;
    assert d == c + ([o] + (k + (key + tail)));
    assert d[7..] == key + tail;
    assert d[7 + |key|..] == tail;
  }

  /** Bytes with that layout are the encoding. */
  lemma LayoutIsEncode(d: Bytes, r: Record)
    requires |d| >= 9 + |r.key| + |r.value|
    requires d[..4] == ChecksumBytes(Checksum(Body(r)))
    requires d[4] == r.op
    requires d[5..7] == U16(|r.key|)
    requires d[7..7 + |r.key|] == r.key
    requires d[7 + |r.key|..9 + |r.key|] == U16(|r.value|)
    requires d[9 + |r.key|..9 + |r.key| + |r.value|] == r.value
    ensures d[..9 + |r.key| + |r.value|] == Encode(r)
  {
    hide ChecksumBytes, Checksum, U16;
    var n, v := |r.key|, |r.value|;
    assert d[..9 + n + v] == d[..4] + ([d[4]] + d[5..7] + d[7..7 + n] + d[7 + n..9 + n] + d[9 + n..9 + n + v]);
  }

  /** Decoding accepts a record exactly when its encoding, with lengths that fit, starts the bytes. */
  lemma DecodeIff(d: Bytes, r: Record, n: nat)
    ensures Decode(d) == Some((r, n)) <==> Fits(r) && n == |Encode(r)| && Encode(r) <= d
  {
    hide Encode, Decode, Fits;
    if Decode(d) == Some((r, n)) {
      DecodeSound(d);
    }
    if Fits(r) && n == |Encode(r)| && Encode(r) <= d {
      assert d == Encode(r) + d[n..];
      DecodeComplete(r, d[n..]);
    }
  }

  lemma DecodeSound(d: Bytes)
    requires Decode(d).Some?
    ensures var (r, n) := Decode(d).value; Fits(r) && n == |Encode(r)| && d[..n] == Encode(r)
  {
    hide ReadChecksum, ChecksumBytes, Checksum, U16, ReadU16, Body;
    var (r, n) := Decode(d).value;
    WrittenOfRead(d);
    WriteReadU16(d[5..]);
    assert d[5..][..2] == d[5..7];
    var k := |r.key|;
    WriteReadU16(d[7 + k..]);
    assert d[7 + k..][..2] == d[7 + k..9 + k];
    LayoutIsEncode(d, r);
  }

  lemma DecodeComplete(r: Record, x: Bytes)
    requires Fits(r)
    ensures Decode(Encode(r) + x) == Some((r, |Encode(r)|))
  {
    hide ReadChecksum, ChecksumBytes, Checksum, U16, ReadU16, Body, Encode;
    var d := Encode(r) + x;
    EncodeLayout(r, x);
    var k := |r.key|;
    ReadsU16(d[5..], k);
    ReadsU16(d[7 + k..], |r.value|);
    ReadOfWritten(Checksum(Body(r)), d[4..]);
    assert d == d[..4] + d[4..];
  }

  /** Serialize then Deserialize returns the record exactly when both lengths fit. */
  lemma RoundTripIff(r: Record, x: Bytes)
    ensures Decode(Encode(r) + x) == Some((r, |Encode(r)|)) <==> Fits(r)
  {
    hide Encode, Decode, Fits;
    DecodeIff(Encode(r) + x, r, |Encode(r)|);
    assert Encode(r) <= Encode(r) + x;
  }

  /** No encoding is a proper prefix of another: comparable encodings are of one record. */
  lemma PrefixFree(r: Record, r': Record, d: Bytes)
    requires Fits(r) && Fits(r') && Encode(r) <= d && Encode(r') <= d
    ensures r == r'
  {
    hide Encode, Decode, Fits;
    DecodeIff(d, r, |Encode(r)|);
    DecodeIff(d, r', |Encode(r')|);
  }

  // ---------- The log ----------

  /** The file after the records were appended to an empty log. */
  function Log(rs: seq<Record>): Bytes {
    if rs == [] then [] else Encode(rs[0]) + Log(rs[1..])
  }

  predicate AllFit(rs: seq<Record>) {
    forall r :: r in rs ==> Fits(r)
  }

  /** The parsing loop of `ReadAll`: records until the first position that does not decode. */
  function ReadAll(d: Bytes): (rs: seq<Record>)
    decreases |d|
  {
    match Decode(d)
    case None => []
    case Some((r, n)) => [r] + ReadAll(d[n..])
  }

  lemma {:induction false} LogConcat(rs: seq<Record>, ts: seq<Record>)
    ensures Log(rs + ts) == Log(rs) + Log(ts)
    decreases |rs|
  {
    hide Encode;
    if rs == [] {
      assert rs + ts == ts;
    } else {
      assert (rs + ts)[0] == rs[0] && (rs + ts)[1..] == rs[1..] + ts;
      LogConcat(rs[1..], ts);
    }
  }

  lemma LogOne(r: Record)
    ensures Log([r]) == Encode(r)
  {
    hide Encode;
    assert [r][1..] == [];
  }

  lemma LogAppend(rs: seq<Record>, r: Record)
    ensures Log(rs + [r]) == Log(rs) + Encode(r)
  {
    hide Encode;
    LogConcat(rs, [r]);
    LogOne(r);
  }

  lemma ReadAllStep(r: Record, t: Bytes)
    requires Fits(r)
    ensures ReadAll(Encode(r) + t) == [r] + ReadAll(t)
  {
    hide Encode, Decode, Fits;
    DecodeComplete(r, t);
    assert (Encode(r) + t)[|Encode(r)|..] == t;
  }

  /** Reading starts with the records written, whatever follows them. */
  lemma {:induction false} ReadAllOfLog(rs: seq<Record>, t: Bytes)
    requires AllFit(rs)
    ensures ReadAll(Log(rs) + t) == rs + ReadAll(t)
    decreases |rs|
  {
    hide Encode, ReadAll, Fits;
    if rs == [] {
      assert Log(rs) + t == t;
    } else {
      ReadAllOfLog(rs[1..], t);
      assert Log(rs) + t == Encode(rs[0]) + (Log(rs[1..]) + t);
      ReadAllStep(rs[0], Log(rs[1..]) + t);
      assert rs == [rs[0]] + rs[1..];
    }
  }

  /** What is read was written: the records read re-encode to the bytes read, and nothing decodes after them. */
  lemma {:induction false} ReadAllSound(d: Bytes)
    ensures AllFit(ReadAll(d)) && Log(ReadAll(d)) <= d
    ensures Decode(d[|Log(ReadAll(d))|..]) == None
    decreases |d|
  {
    hide Encode, Decode, Fits;
    match Decode(d)
    case None =>
      assert d[0..] == d;
    case Some((r, n)) =>
      DecodeSound(d);
      ReadAllSound(d[n..]);
      var rs := ReadAll(d[n..]);
      assert ReadAll(d)[1..] == rs;
      assert Log(ReadAll(d)) == Encode(r) + Log(rs);
      assert d == d[..n] + d[n..];
      assert d[n..][|Log(rs)|..] == d[n + |Log(rs)|..];
  }

  lemma DecodeExtends(d: Bytes, rs: seq<Record>)
    requires Log(rs) <= d && Decode(d[|Log(rs)|..]).Some?
    ensures var r := Decode(d[|Log(rs)|..]).value.0; Fits(r) && Log(rs + [r]) <= d
  {
    hide Encode, Decode, Fits;
    var t := d[|Log(rs)|..];
    var (r, n) := Decode(t).value;
    DecodeSound(t);
    LogAppend(rs, r);
    assert t == Encode(r) + t[n..];
    assert d == Log(rs) + (Encode(r) + t[n..]);
  }

  /** The records read are the one list whose log starts the file and that no further record extends. */
  lemma ReadAllIff(d: Bytes, rs: seq<Record>)
    ensures ReadAll(d) == rs <==>
            && AllFit(rs)
            && Log(rs) <= d
            && forall r :: Fits(r) ==> !(Log(rs + [r]) <= d)
  {
    hide Encode, Decode, Fits;
    if ReadAll(d) == rs {
      ReadAllSound(d);
      forall r | Fits(r)
        ensures !(Log(rs + [r]) <= d)
      {
        LogAppend(rs, r);
        if Log(rs + [r]) <= d {
          assert Encode(r) <= d[|Log(rs)|..];
          DecodeIff(d[|Log(rs)|..], r, |Encode(r)|);
        }
      }
    }
    if AllFit(rs) && Log(rs) <= d && forall r :: Fits(r) ==> !(Log(rs + [r]) <= d) {
      var t := d[|Log(rs)|..];
      assert d == Log(rs) + t;
      ReadAllOfLog(rs, t);
      if Decode(t).Some? {
        DecodeExtends(d, rs);
      }
      assert rs + [] == rs;
    }
  }

  /** It is maximal: every list of records whose log starts the file is a prefix of it. */
  lemma ReadAllMaximal(d: Bytes, rs: seq<Record>)
    requires AllFit(rs) && Log(rs) <= d
    ensures rs <= ReadAll(d)
  {
    var t := d[|Log(rs)|..];
    assert d == Log(rs) + t;
    ReadAllOfLog(rs, t);
  }

  /** Two logs are equal only for equal lists of records. */
  lemma LogInjective(rs: seq<Record>, ts: seq<Record>)
    requires AllFit(rs) && AllFit(ts) && Log(rs) == Log(ts)
    ensures rs == ts
  {
    hide Decode;
    ReadAllOfLog(rs, []);
    ReadAllOfLog(ts, []);
    assert Log(rs) + [] == Log(rs) && Log(ts) + [] == Log(ts);
    ReadAllOfNothing();
    assert rs + [] == rs && ts + [] == ts;
  }

  lemma ReadAllUnfold(d: Bytes)
    ensures ReadAll(d) == if Decode(d) == None then [] else [Decode(d).value.0] + ReadAll(d[Decode(d).value.1..])
  {
    hide Decode;
  }

  lemma ReadAllOfNothing()
    ensures ReadAll([]) == []
  {
  }

  // ---------- Torn and damaged logs ----------

  /** A proper prefix of a record does not decode, whatever the checksums are. */
  lemma TornRecord(t: Bytes, r: Record)
    requires Fits(r) && t < Encode(r)
    ensures Decode(t) == None
  {
    hide Encode, Decode, Fits;
    if Decode(t).Some? {
      var (r', n) := Decode(t).value;
      DecodeSound(t);
      assert t == Encode(r') + t[n..];
      PrefixFree(r, r', Encode(r));
    }
  }

  /** A log cut off inside its last record reads back as the records before it. */
  lemma TornTail(rs: seq<Record>, r: Record, t: Bytes)
    requires AllFit(rs) && Fits(r) && t < Encode(r)
    ensures ReadAll(Log(rs) + t) == rs
  {
    hide Encode, Decode, Fits;
    ReadAllOfLog(rs, t);
    TornRecord(t, r);
    assert rs + [] == rs;
  }

  /** Bytes of a record that was damaged after writing: the length fields still stand, and either
      only the stored CRC changed, or the rest changed within 32 consecutive bits. */
  ghost predicate DamagedRecord(r: Record, d: Bytes) {
    var e := Encode(r);
    var k := |r.key|;
    && |d| == |e|
    && d[5..7] == e[5..7]
    && d[7 + k..9 + k] == e[7 + k..9 + k]
    && ((d[..4] != e[..4] && d[4..] == e[4..]) || (d[..4] == e[..4] && Damaged(e[4..], d[4..])))
  }

  lemma BodyOfEncode(r: Record)
    ensures Encode(r)[..4] == ChecksumBytes(Checksum(Body(r))) && Encode(r)[4..] == Body(r)
  {
    hide ChecksumBytes, Checksum, Body;
  }

  /** A damaged record does not decode. */
  lemma DamagedRecordRefused(r: Record, d: Bytes, x: Bytes)
    requires Fits(r) && DamagedRecord(r, d)
    ensures Decode(d + x) == None
  {
    hide Decode, ChecksumBytes, Checksum, Damaged, Body, Encode;
    if Decode(d + x).Some? {
      var (r', n) := Decode(d + x).value;
      DecodeSound(d + x);
      SameLengths(r, d, x, r');
      assert d == (d + x)[..n] == Encode(r');
      BodyOfEncode(r);
      BodyOfEncode(r');
      if d[..4] == Encode(r)[..4] {
        ChecksumBytesInjective(Checksum(Body(r)), Checksum(Body(r')));
        DamageChangesChecksum(Body(r), Body(r'));
      }
    }
  }

  lemma ChecksumBytesInjective(a: Word, b: Word)
    ensures ChecksumBytes(a) == ChecksumBytes(b) ==> a == b
  {
    hide ChecksumBytes, ReadChecksum;
    ReadOfWritten(a, []);
    ReadOfWritten(b, []);
  }

  /** A record's length fields determine its lengths. */
  lemma LengthsOfEncode(r: Record, x: Bytes)
    requires Fits(r)
    ensures var d := Encode(r) + x;
            && ReadU16(d[5..]) == |r.key|
            && ReadU16(d[7 + |r.key|..]) == |r.value|
  {
    hide Encode, U16, ReadU16;
    var d := Encode(r) + x;
    var k := |r.key|;
    EncodeLayout(r, x);
    assert d[5..][..2] == d[5..7] && d[7 + k..][..2] == d[7 + k..9 + k];
    ReadsU16(d[5..], k);
    ReadsU16(d[7 + k..], |r.value|);
  }

  lemma SameField(d: Bytes, e: Bytes, i: nat)
    requires i + 2 <= |d| && i + 2 <= |e| && d[i..i + 2] == e[i..i + 2]
    ensures ReadU16(d[i..]) == ReadU16(e[i..])
  {
    assert d[i] == d[i..i + 2][0] == e[i] && d[i + 1] == d[i..i + 2][1] == e[i + 1];
  }

  /** With the length fields standing, a decoded record has the original lengths. */
  lemma SameLengths(r: Record, d: Bytes, x: Bytes, r': Record)
    requires Fits(r) && Fits(r') && DamagedRecord(r, d)
    requires Encode(r') <= d + x
    ensures |r'.key| == |r.key| && |r'.value| == |r.value|
  {
    hide Damaged, Encode, ReadU16;
    var e, k := Encode(r), |r.key|;
    var y := (d + x)[|Encode(r')|..];
    assert d + x == Encode(r') + y;
    assert e + [] == e;
    LengthsOfEncode(r, []);
    LengthsOfEncode(r', y);
    assert (d + x)[5..7] == d[5..7] && (d + x)[7 + k..9 + k] == d[7 + k..9 + k];
    SameField(d + x, e, 5);
    SameField(d + x, e, 7 + k);
  }

  /** Damage to one record in the middle of a log makes reading stop exactly before it. */
  lemma DamageStopsReading(rs: seq<Record>, r: Record, d: Bytes, rest: Bytes)
    requires AllFit(rs) && Fits(r) && DamagedRecord(r, d)
    ensures ReadAll(Log(rs) + d + rest) == rs
  {
    hide Encode, Decode, Fits, DamagedRecord;
    assert Log(rs) + d + rest == Log(rs) + (d + rest);
    ReadAllOfLog(rs, d + rest);
    DamagedRecordRefused(r, d, rest);
    assert rs + [] == rs;
  }

  // ---------- Appending after a torn tail ----------

  /** A length field that points past the end stops the reading. */
  lemma Overrun(d: Bytes)
    requires |d| >= 9
    requires var k := ReadU16(d[5..]); |d| < 9 + k || |d| < 9 + k + ReadU16(d[7 + k..])
    ensures Decode(d) == None && ReadAll(d) == []
  {
    hide ReadU16, ReadChecksum, Checksum;
  }

  lemma LowLengthByte(n: nat)
    requires n <= 65535
    ensures U16(n)[0] == n % 256
  {
  }

  lemma LengthByte(r: Record, more: Bytes)
    requires Fits(r)
    ensures (Encode(r) + more)[4] == r.op && (Encode(r) + more)[5] == |r.key| % 256
  {
    hide Encode, U16;
    EncodeLayout(r, more);
    LowLengthByte(|r.key|);
    assert (Encode(r) + more)[5] == (Encode(r) + more)[5..7][0] == U16(|r.key|)[0];
  }

  lemma FieldAt(d: Bytes, i: nat)
    requires i + 2 <= |d|
    ensures ReadU16(d[i..]) == (d[i] as int) + 256 * (d[i + 1] as int)
  {
  }

  /** Records appended behind one leftover byte are read at the wrong offset: whenever the
      displaced length field points past the end of the file, they are all lost. */
  lemma AppendAfterTornByte(b: Byte, r: Record, more: Bytes)
    requires Fits(r) && 9 + r.op + 256 * (|r.key| % 256) > 1 + |Encode(r) + more|
    ensures Decode([b] + (Encode(r) + more)) == None && ReadAll([b] + (Encode(r) + more)) == []
  {
    hide Encode, Decode, ReadAll, ReadU16;
    var d := [b] + (Encode(r) + more);
    LengthByte(r, more);
    FieldAt(d, 5);
    Overrun(d);
  }

  /** Behind a torn record whose length fields made it to the file, everything is lost
      until as many bytes follow as the torn record lacks. */
  lemma AppendInsideTornRecord(r: Record, n: nat, more: Bytes)
    requires Fits(r) && 9 + |r.key| <= n && n + |more| < |Encode(r)|
    ensures Decode(Encode(r)[..n] + more) == None && ReadAll(Encode(r)[..n] + more) == []
  {
    hide Encode, ReadU16, Decode, ReadAll;
    var e := Encode(r);
    var d := e[..n] + more;
    var k := |r.key|;
    assert e + [] == e;
    LengthsOfEncode(r, []);
    assert d[5..7] == e[5..7] && d[7 + k..9 + k] == e[7 + k..9 + k];
    SameField(d, e, 5);
    SameField(d, e, 7 + k);
    Overrun(d);
  }

  /** The record that bytes `x` make of a torn record whose length fields made it to the file. */
  function Filled(r: Record, n: nat, x: Bytes): Record
    requires 9 + |r.key| <= n <= |Encode(r)| <= n + |x|
  {
    r.(value := (Encode(r)[..n] + x)[9 + |r.key|..|Encode(r)|])
  }

  /** Once enough bytes follow such a torn record, it is decoded with them filled in exactly when the
      filled-in record happens to have the checksum of the one that was torn. */
  lemma TornRecordFilled(r: Record, n: nat, x: Bytes)
    requires Fits(r) && 9 + |r.key| <= n <= |Encode(r)| <= n + |x|
    ensures Decode(Encode(r)[..n] + x) ==
            if Checksum(Body(Filled(r, n, x))) == Checksum(Body(r))
            then Some((Filled(r, n, x), |Encode(r)|)) else None
  {
    hide Encode, ChecksumBytes, Checksum, ReadU16, ReadChecksum, Body, U16;
    var e, k := Encode(r), |r.key|;
    var d := e[..n] + x;
    assert e + [] == e;
    EncodeLayout(r, []);
    LengthsOfEncode(r, []);
    assert d[5..7] == e[5..7] && d[7 + k..9 + k] == e[7 + k..9 + k];
    SameField(d, e, 5);
    SameField(d, e, 7 + k);
    assert d[7..7 + k] == e[7..7 + k];
    SameChecksum(d, Checksum(Body(r)));
  }

  lemma SameChecksum(d: Bytes, c: Word)
    requires |d| >= 4 && d[..4] == ChecksumBytes(c)
    ensures ReadChecksum(d) == c
  {
    hide ChecksumBytes, ReadChecksum;
    assert d == ChecksumBytes(c) + d[4..];
    ReadOfWritten(c, d[4..]);
  }

  /** A torn record that lacks at most four bytes is completed by exactly the bytes it lacks:
      any others are found out by the checksum. */
  lemma NearlyCompleteRecord(r: Record, n: nat, x: Bytes)
    requires Fits(r) && 9 + |r.key| <= n <= |Encode(r)| <= n + |x| && |Encode(r)| <= n + 4
    ensures Decode(Encode(r)[..n] + x) ==
            if Encode(r)[n..] == x[..|Encode(r)| - n] then Some((r, |Encode(r)|)) else None
  {
    hide Encode, Decode, ChecksumBytes, Checksum, Damaged;
    var e, m, k := Encode(r), |Encode(r)| - n, |r.key|;
    var d := e[..n] + x[..m];
    assert e[..n] + x == d + x[m..];
    if e[n..] == x[..m] {
      assert d == e;
      DecodeComplete(r, x[m..]);
    } else {
      assert d[n..] == x[..m] && d != e;
      assert d[5..7] == e[5..7] && d[7 + k..9 + k] == e[7 + k..9 + k] && d[..4] == e[..4];
      assert d[4..] != e[4..] by {
        assert d[4..][n - 4..] == d[n..] && e[4..][n - 4..] == e[n..];
      }
      FourByteWindow(e[4..], d[4..], n - 4);
      DamagedRecordRefused(r, d, x[m..]);
    }
  }
}
