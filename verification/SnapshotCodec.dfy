/** The byte format of snapshot files (snapshot.cpp): magic, version, entry count,
    the entries each with its own CRC, and a CRC over everything before it. */
module SnapshotCodec {
  import opened Bytes
  import opened Options
  import opened Crc32

  datatype Entry = Entry(key: Bytes, value: Bytes)

  predicate Fits(e: Entry) {
    |e.key| <= 65535 && |e.value| <= 65535
  }

  predicate AllFit(es: seq<Entry>) {
    forall e :: e in es ==> Fits(e)
  }

  // ---------- One entry ----------

  function EntryBody(e: Entry): Bytes {
    U16(|e.key|) + e.key + U16(|e.value|) + e.value
  }

  function EncodeEntry(e: Entry): (d: Bytes)
    ensures |d| == 8 + |e.key| + |e.value|
  {
    EntryBody(e) + ChecksumBytes(Checksum(EntryBody(e)))
  }

  /** The lengths of the key and the value of the entry at the start of `d`, if `d` is long enough for it. */
  function EntryLengths(d: Bytes): (o: Option<(nat, nat)>)
    ensures o.Some? ==> 8 + o.value.0 + o.value.1 <= |d|
  {
    if |d| < 4 then None else
    var keyLen := ReadU16(d);
    if |d| < 8 + keyLen then None else
    var valLen := ReadU16(d[2 + keyLen..]);
    if |d| < 8 + keyLen + valLen then None else Some((keyLen, valLen))
  }

  /** The entry at the start of `d` and the bytes it takes; None is `consumed == 0`. */
  function DecodeEntry(d: Bytes): (o: Option<(Entry, nat)>)
    ensures o.Some? ==> 8 <= o.value.1 <= |d|
  {
    hide Verifies, EntryLengths;
    var lengths := EntryLengths(d);
    if lengths == None then None else
    var k, v := lengths.value.0, lengths.value.1;
    if Verifies(d, 4 + k + v) then Some((Entry(d[2..2 + k], d[4 + k..4 + k + v]), 8 + k + v)) else None
  }

  lemma EntryLayout(e: Entry, x: Bytes)
    ensures var d := EncodeEntry(e) + x;
            var k, v := |e.key|, |e.value|;
            && d[..4 + k + v] == EntryBody(e)
            && d[4 + k + v..8 + k + v] == ChecksumBytes(Checksum(EntryBody(e)))
            && d[..2] == U16(k)
            && d[2..2 + k] == e.key
            && d[2 + k..4 + k] == U16(v)
            && d[4 + k..4 + k + v] == e.value
  {
    hide ChecksumBytes, Checksum, U16;
    var c, k, v := ChecksumBytes(Checksum(EntryBody(e))), U16(|e.key|), U16(|e.value|);
    var d := EncodeEntry(e) + x;
    assert d == k + (e.key + (v + (e.value + (c + x))));
    assert d == EntryBody(e) + (c + x);
  }

  lemma LayoutIsEntry(d: Bytes, e: Entry)
    requires |d| >= 8 + |e.key| + |e.value|
    requires d[..2] == U16(|e.key|)
    requires d[2..2 + |e.key|] == e.key
    requires d[2 + |e.key|..4 + |e.key|] == U16(|e.value|)
    requires d[4 + |e.key|..4 + |e.key| + |e.value|] == e.value
    ensures d[..4 + |e.key| + |e.value|] == EntryBody(e)
  {
    hide U16;
    var k, v := |e.key|, |e.value|;
    assert d[..4 + k + v] == d[..2] + d[2..2 + k] + d[2 + k..4 + k] + d[4 + k..4 + k + v];
  }

  lemma DecodeEntrySound(d: Bytes)
    requires DecodeEntry(d).Some?
    ensures var (e, n) := DecodeEntry(d).value; Fits(e) && n == |EncodeEntry(e)| && d[..n] == EncodeEntry(e)
  {
    hide ReadChecksum, ChecksumBytes, Checksum, U16, ReadU16, EntryBody;
    var (e, n) := DecodeEntry(d).value;
    var k := |e.key|;
    WriteReadU16(d);
    WriteReadU16(d[2 + k..]);
    assert d[2 + k..][..2] == d[2 + k..4 + k];
    LayoutIsEntry(d, e);
    var m := n - 4;
    assert d[..m] == EntryBody(e);
    WrittenOfRead(d[m..]);
    assert d[m..][..4] == d[m..n];
    assert d[..n] == d[..m] + d[m..n];
  }

  lemma DecodeEntryComplete(e: Entry, x: Bytes)
    requires Fits(e)
    ensures DecodeEntry(EncodeEntry(e) + x) == Some((e, |EncodeEntry(e)|))
  {
    hide ReadChecksum, ChecksumBytes, Checksum, U16, ReadU16, EntryBody, EncodeEntry;
    var d := EncodeEntry(e) + x;
    var k, v := |e.key|, |e.value|;
    EntryLayout(e, x);
    ReadsU16(d, k);
    assert d[2 + k..][..2] == d[2 + k..4 + k];
    ReadsU16(d[2 + k..], v);
    var m := 4 + k + v;
    assert d[m..] == d[m..m + 4] + d[m + 4..];
    ReadOfWritten(Checksum(EntryBody(e)), d[m + 4..]);
  }

  /** Decoding accepts an entry exactly when its encoding, with lengths that fit, starts the bytes. */
  lemma DecodeEntryIff(d: Bytes, e: Entry, n: nat)
    ensures DecodeEntry(d) == Some((e, n)) <==> Fits(e) && n == |EncodeEntry(e)| && EncodeEntry(e) <= d
  {
    hide EncodeEntry, DecodeEntry, Fits;
    if DecodeEntry(d) == Some((e, n)) {
      DecodeEntrySound(d);
    }
    if Fits(e) && n == |EncodeEntry(e)| && EncodeEntry(e) <= d {
      assert d == EncodeEntry(e) + d[n..];
      DecodeEntryComplete(e, d[n..]);
    }
  }

  // ---------- A run of entries ----------

  function EncodeEntries(es: seq<Entry>): Bytes {
    if es == [] then [] else EncodeEntry(es[0]) + EncodeEntries(es[1..])
  }

  /** The entry loop of `ReadSnapshot`: exactly n entries from the start of `d`, or refusal. */
  function DecodeEntries(d: Bytes, n: nat): Option<seq<Entry>>
    decreases n
  {
    if n == 0 then Some([]) else
    match DecodeEntry(d)
    case None => None
    case Some((e, k)) =>
      match DecodeEntries(d[k..], n - 1)
      case None => None
      case Some(es) => Some([e] + es)
  }

  lemma {:induction false} EncodeEntriesConcat(es: seq<Entry>, fs: seq<Entry>)
    ensures EncodeEntries(es + fs) == EncodeEntries(es) + EncodeEntries(fs)
    decreases |es|
  {
    hide EncodeEntry;
    if es == [] {
      assert es + fs == fs;
    } else {
      assert (es + fs)[0] == es[0] && (es + fs)[1..] == es[1..] + fs;
      EncodeEntriesConcat(es[1..], fs);
    }
  }

  /** n entries decode exactly when the bytes start with the encodings of n entries that fit. */
  lemma {:induction false} DecodeEntriesIff(d: Bytes, n: nat, es: seq<Entry>)
    ensures DecodeEntries(d, n) == Some(es) <==> |es| == n && AllFit(es) && EncodeEntries(es) <= d
    decreases n
  {
    hide EncodeEntry, DecodeEntry, Fits;
    if n == 0 {
    } else {
      if DecodeEntries(d, n) == Some(es) {
        var k := DecodeEntry(d).value.1;
        DecodeEntrySound(d);
        DecodeEntriesIff(d[k..], n - 1, es[1..]);
        assert d == d[..k] + d[k..];
        assert es == [es[0]] + es[1..];
      }
      if |es| == n && AllFit(es) && EncodeEntries(es) <= d {
        var e := es[0];
        var k := |EncodeEntry(e)|;
        assert EncodeEntry(e) <= d;
        DecodeEntryIff(d, e, k);
        assert EncodeEntries(es)[k..] == EncodeEntries(es[1..]);
        assert EncodeEntries(es[1..]) <= d[k..];
        DecodeEntriesIff(d[k..], n - 1, es[1..]);
        assert es == [e] + es[1..];
      }
    }
  }

  // ---------- The file ----------

  /** "KVSNP". */
  const MAGIC: Bytes := [75, 86, 83, 78, 80]
  const VERSION: nat := 1

  function Header(count: nat): (d: Bytes)
    ensures |d| == 13
  {
    MAGIC + U32(VERSION) + U32(count)
  }

  function Content(es: seq<Entry>): (d: Bytes)
    ensures |d| >= 13
  {
    Header(|es|) + EncodeEntries(es)
  }

  /** The whole file `WriteSnapshot` builds. */
  function SnapshotBytes(es: seq<Entry>): (d: Bytes)
    ensures |d| >= 17
  {
    Content(es) + ChecksumBytes(Checksum(Content(es)))
  }

  /** Outcome of `ReadSnapshot`: `OutOfBounds` is the underflow of `size - offset - 4` in a file
      of 14 to 16 bytes with a count above zero, where the code reads past the buffer. */
  datatype ReadResult = Refused | Loaded(entries: seq<Entry>) | OutOfBounds

  function ReadSnapshot(d: Bytes): ReadResult {
    if |d| <= 13 then Refused
    else if !Verifies(d, |d| - 4) then Refused
    else if d[..5] != MAGIC then Refused
    else if ReadU32(d[5..]) != VERSION then Refused
    else
      var count := ReadU32(d[9..]);
      if |d| < 17 then (if count == 0 then Loaded([]) else OutOfBounds)
      else
        match DecodeEntries(d[13..|d| - 4], count)
        case None => Refused
        case Some(es) => Loaded(es)
  }

  /** Limits under which the casts in the writer lose nothing. */
  predicate Writable(es: seq<Entry>) {
    AllFit(es) && |es| < TWO_TO_32
  }

  lemma HeaderIff(d: Bytes, count: nat)
    requires |d| >= 13 && count < TWO_TO_32
    ensures d[..13] == Header(count) <==> d[..5] == MAGIC && ReadU32(d[5..]) == VERSION && ReadU32(d[9..]) == count
  {
    hide U32, ReadU32;
    if d[..13] == Header(count) {
      assert d[..13][..5] == d[..5];
      assert d[5..] == U32(VERSION) + d[9..];
      assert d[9..] == U32(count) + d[13..];
      ReadWrittenU32(VERSION, d[9..]);
      ReadWrittenU32(count, d[13..]);
    }
    if d[..5] == MAGIC && ReadU32(d[5..]) == VERSION && ReadU32(d[9..]) == count {
      WriteReadU32(d[5..]);
      WriteReadU32(d[9..]);
      assert d[5..][..4] == d[5..9] && d[9..][..4] == d[9..13];
      assert d[..13] == d[..5] + d[5..9] + d[9..13];
    }
  }

  /** A file loads exactly the entries it holds behind its header, with any bytes between the last entry and
      a correct footer; one of 14 to 16 bytes, whose footer overlaps the header, loads only as no entries. */
  lemma ReadSnapshotIff(d: Bytes, es: seq<Entry>)
    ensures ReadSnapshot(d) == Loaded(es) <==>
            && |d| > 13 && Writable(es) && Verifies(d, |d| - 4)
            && (if |d| >= 17 then Content(es) <= d[..|d| - 4] else Content(es) == d[..13])
  {
    hide ReadSnapshot, Writable, Verifies, Content;
    if |d| >= 17 {
      LongSnapshotIff(d, es);
    } else if |d| > 13 {
      ShortSnapshotIff(d, es);
    } else {
      TinySnapshot(d);
    }
  }

  lemma LongSnapshotIff(d: Bytes, es: seq<Entry>)
    requires |d| >= 17
    ensures ReadSnapshot(d) == Loaded(es) <==>
            Writable(es) && Verifies(d, |d| - 4) && Content(es) <= d[..|d| - 4]
  {
    hide Verifies, U32, ReadU32, EncodeEntries, DecodeEntries, Header;
    var count := ReadU32(d[9..]);
    var m := d[13..|d| - 4];
    DecodeEntriesIff(m, count, es);
    if ReadSnapshot(d) == Loaded(es) {
      HeaderIff(d, count);
      assert d[..|d| - 4] == d[..13] + m;
    }
    if Writable(es) && Verifies(d, |d| - 4) && Content(es) <= d[..|d| - 4] {
      assert d[..|d| - 4][..13] == d[..13];
      assert d[..13] == Header(|es|);
      HeaderIff(d, |es|);
      assert Content(es)[13..] == EncodeEntries(es);
      assert d[..|d| - 4][13..] == m;
    }
  }

  lemma ShortSnapshotIff(d: Bytes, es: seq<Entry>)
    requires 13 < |d| < 17
    ensures ReadSnapshot(d) == Loaded(es) <==> Writable(es) && Verifies(d, |d| - 4) && Content(es) == d[..13]
  {
    hide Verifies, U32, ReadU32, EncodeEntry, DecodeEntries, Header;
    HeaderIff(d, 0);
    assert es == [] ==> Content(es) == Header(0);
    assert es != [] ==> |Content(es)| > 13;
  }

  lemma TinySnapshot(d: Bytes)
    requires |d| <= 13
    ensures ReadSnapshot(d) == Refused
  {
  }

  /** Exactly when reading runs past the buffer: a file of 14 to 16 bytes with a good header, a count above
      zero, and last four bytes that are the checksum of the bytes before them. */
  lemma OutOfBoundsIff(d: Bytes)
    ensures ReadSnapshot(d) == OutOfBounds <==>
            && 13 < |d| < 17 && Verifies(d, |d| - 4)
            && ReadU32(d[9..]) > 0 && d[..13] == Header(ReadU32(d[9..]))
  {
    hide Verifies, U32, ReadU32, DecodeEntries, Header;
    if |d| >= 13 {
      HeaderIff(d, ReadU32(d[9..]));
    }
  }

  /** There are such files: one for every low byte of the count. */
  lemma OutOfBoundsOccurs(c: Byte)
    requires c != 0
    ensures var m := MAGIC + U32(VERSION) + [c];
            ReadSnapshot(m + ChecksumBytes(Checksum(m))) == OutOfBounds
  {
    hide Verifies, Checksum, ChecksumBytes;
    var m := MAGIC + U32(VERSION) + [c];
    var d := m + ChecksumBytes(Checksum(m));
    assert d[..10] == m;
    VerifiesIff(d, 10);
    assert d[..5] == MAGIC;
    assert d[5..] == U32(VERSION) + d[9..];
    ReadWrittenU32(VERSION, d[9..]);
    assert d[9..][0] == c;
  }

  /** Reading inverts writing exactly when no length and no count was truncated. */
  lemma SnapshotRoundTripIff(es: seq<Entry>)
    ensures ReadSnapshot(SnapshotBytes(es)) == Loaded(es) <==> Writable(es)
  {
    hide ReadSnapshot, Content, Checksum, ChecksumBytes, Verifies;
    var d := SnapshotBytes(es);
    var n := |d| - 4;
    assert d[..n] == Content(es);
    VerifiesIff(d, n);
    ReadSnapshotIff(d, es);
  }

  // ---------- Truncated files ----------

  lemma {:induction false} EntriesPrefixFree(es: seq<Entry>, fs: seq<Entry>, d: Bytes)
    requires |es| == |fs| && AllFit(es) && AllFit(fs) && EncodeEntries(es) <= d && EncodeEntries(fs) <= d
    ensures es == fs
  {
    hide EncodeEntries;
    DecodeEntriesIff(d, |es|, es);
    DecodeEntriesIff(d, |es|, fs);
  }

  /** Every proper prefix of at least 17 bytes is refused by its framing, whatever its checksums are. */
  lemma TruncatedSnapshot(es: seq<Entry>, p: Bytes)
    requires Writable(es) && p < SnapshotBytes(es) && |p| >= 17
    ensures ReadSnapshot(p) == Refused
  {
    hide Content, Checksum, ChecksumBytes, Verifies, DecodeEntries, EncodeEntries, U32, ReadU32;
    if ReadSnapshot(p) != Refused {
      var fs := ReadSnapshot(p).entries;
      ReadSnapshotIff(p, fs);
      TruncatedContent(es, fs, p);
    }
  }

  lemma TruncatedContent(es: seq<Entry>, fs: seq<Entry>, p: Bytes)
    requires Writable(es) && Writable(fs) && p < SnapshotBytes(es) && |p| >= 17
    ensures !(Content(fs) <= p[..|p| - 4])
  {
    hide Checksum, ChecksumBytes, Content;
    var q := p[..|p| - 4];
    assert q == SnapshotBytes(es)[..|q|];
    if Content(fs) <= q {
      assert Content(fs) <= Content(es);
      ContentPrefixFree(es, fs);
    }
  }

  lemma ContentPrefixFree(es: seq<Entry>, fs: seq<Entry>)
    requires Writable(es) && Writable(fs) && Content(fs) <= Content(es)
    ensures es == fs
  {
    hide EncodeEntries, U32, Header;
    var c, f := Content(es), Content(fs);
    assert c[..13] == Header(|es|) && f[..13] == Header(|fs|);
    assert c[..13] == f[..13];
    HeaderCount(|es|, |fs|);
    assert c[13..] == EncodeEntries(es) && f[13..] == EncodeEntries(fs);
    assert f[13..] <= c[13..];
    EntriesPrefixFree(es, fs, EncodeEntries(es));
  }

  lemma HeaderCount(m: nat, n: nat)
    requires m < TWO_TO_32 && n < TWO_TO_32 && Header(m) == Header(n)
    ensures m == n
  {
    hide Header, U32, ReadU32;
    var d := Header(m);
    assert d[..13] == d;
    HeaderIff(d, m);
    HeaderIff(d, n);
  }

  /** Shorter prefixes: up to 13 bytes are refused; of 14 to 16 bytes, exactly those are refused
      whose last four bytes do not happen to be the checksum of the rest. */
  lemma ShortPrefix(es: seq<Entry>, p: Bytes)
    requires Writable(es) && p < SnapshotBytes(es) && |p| < 17
    ensures ReadSnapshot(p) == Refused <==> |p| <= 13 || !Verifies(p, |p| - 4)
  {
    hide Checksum, ChecksumBytes, EncodeEntries, U32, ReadU32, Verifies, Header;
    if |p| > 13 {
      assert p[..13] == SnapshotBytes(es)[..13] == Header(|es|);
      HeaderIff(p, |es|);
    }
  }

  // ---------- Damaged files ----------

  /** A written file changed anywhere within 32 consecutive bits, body or footer or both, is refused. */
  lemma DamagedSnapshot(es: seq<Entry>, d: Bytes)
    requires Damaged(SnapshotBytes(es), d)
    ensures ReadSnapshot(d) == Refused
  {
    hide Damaged, Content, Checksum, ChecksumBytes, Verifies, DecodeEntries, U32, ReadU32;
    var f := SnapshotBytes(es);
    var n := |f| - 4;
    assert f[..n] == Content(es);
    VerifiesIff(f, n);
    assert |f| == |d| by {
      SameLength(f, d);
    }
    DamageDetected(f, d, n);
  }

  lemma SameLength(f: Bytes, d: Bytes)
    requires Damaged(f, d)
    ensures |f| == |d|
  {
  }
}
