/** The bytes of the file formats (wal.cpp, snapshot.cpp) spelled out, and what recovery makes of any files. */
module Formats {
  import opened Bytes
  import opened Options
  import opened Crc32
  import opened WalCodec
  import opened Replay
  import opened Durability
  import Snap = SnapshotCodec

  // ---------- Fields ----------

  /** 16-bit fields have the low byte first. */
  lemma Field16(n: nat, d: Bytes)
    requires n < 65536 && |d| >= 2
    ensures U16(n) == [n % 256, n / 256]
    ensures ReadU16(d) == (d[0] as int) + 256 * (d[1] as int)
  {
  }

  /** 32-bit fields have the lowest byte first. */
  lemma ReadField32(d: Bytes)
    requires |d| >= 4
    ensures ReadU32(d) == (d[0] as int) + 256 * (d[1] as int) + 65536 * (d[2] as int) + 16777216 * (d[3] as int)
  {
  }

  lemma Field32(n: nat)
    requires n < 4294967296
    ensures U32(n) == [n % 256, n / 256 % 256, n / 65536 % 256, n / 16777216]
  {
    var lo, hi := n % 65536, n / 65536;
    Halves(n);
    hide *;
    Field16(lo, [0, 0]);
    Field16(hi, [0, 0]);
    SplitIn256(lo);
    SplitIn256(hi);
    FourBytes(n, lo % 256, lo / 256, hi % 256, hi / 256);
  }

  lemma Halves(n: nat)
    requires n < 4294967296
    ensures U32(n) == U16(n % 65536) + U16(n / 65536) && n == n % 65536 + 65536 * (n / 65536) && n / 65536 < 65536
  {
    hide U16;
  }

  lemma SplitIn256(n: nat)
    requires n < 65536
    ensures n == n % 256 + 256 * (n / 256) && n / 256 < 256
  {
  }

  lemma FourBytes(n: nat, a: Byte, b: Byte, c: Byte, d: Byte)
    requires n == a + 256 * (b + 256 * (c + 256 * d))
    ensures n % 256 == a && n / 256 % 256 == b && n / 65536 % 256 == c && n / 16777216 == d
  {
    var x := c + 256 * (d as int);
    var y := b + 256 * x;
    assert n / 256 == y && n / 65536 == x && n / 16777216 == d;
    assert y % 256 == b && x % 256 == c;
  }

  /** A checksum's low byte comes first. */
  lemma ChecksumField(c: Word, i: nat)
    requires i < 4
    ensures ByteBits(ChecksumBytes(c)[i]) == c[8 * i..8 * i + 8]
  {
    hide ByteBits, ByteOf;
    ByteBitsOfByte(c[8 * i..8 * i + 8]);
  }

  // ---------- Records and entries ----------

  /** A log record: the checksum of what follows, the operation, and key and value behind their lengths. */
  lemma RecordBytes(r: Record)
    requires Fits(r)
    ensures var e := Encode(r);
            && e[4..] == [r.op, |r.key| % 256, |r.key| / 256] + r.key + [|r.value| % 256, |r.value| / 256] + r.value
            && e[..4] == ChecksumBytes(Checksum(e[4..]))
  {
    hide U16, Checksum, ChecksumBytes;
    Field16(|r.key|, [0, 0]);
    Field16(|r.value|, [0, 0]);
    assert Encode(r)[4..] == Body(r);
  }

  /** A SET has operation 1, a DEL operation 2. */
  lemma OperationBytes(k: Bytes, v: Bytes)
    ensures Encode(Record(SET, k, v))[4] == 1 && Encode(Record(DEL, k, []))[4] == 2
  {
    hide U16, Checksum, ChecksumBytes;
  }

  /** Replaying operation 1 sets the key, operation 2 removes it, and no other does anything. */
  lemma OperationEffects(m: Map, k: Bytes, v: Bytes, op: Byte)
    ensures ApplyRecord(m, Record(1, k, v)) == m[k := v]
    ensures ApplyRecord(m, Record(2, k, v)) == m - {k}
    ensures op != 1 && op != 2 ==> ApplyRecord(m, Record(op, k, v)) == m
  {
  }

  /** A snapshot entry: key and value behind their lengths, and the checksum of these. */
  lemma EntryBytes(e: Entry)
    requires Snap.Fits(e)
    ensures var body := [|e.key| % 256, |e.key| / 256] + e.key + [|e.value| % 256, |e.value| / 256] + e.value;
            Snap.EncodeEntry(e) == body + ChecksumBytes(Checksum(body))
  {
    hide U16, Checksum, ChecksumBytes;
    Field16(|e.key|, [0, 0]);
    Field16(|e.value|, [0, 0]);
  }

  /** A snapshot file: "KVSNP", version 1, the number of entries, the entries, and the checksum of all that. */
  lemma SnapshotLayout(es: seq<Entry>)
    requires |es| < 4294967296
    ensures var d, n := Snap.SnapshotBytes(es), |es|;
            && d[..9] == [75, 86, 83, 78, 80, 1, 0, 0, 0]
            && d[9..13] == [n % 256, n / 256 % 256, n / 65536 % 256, n / 16777216]
            && d[13..|d| - 4] == Snap.EncodeEntries(es)
            && d[|d| - 4..] == ChecksumBytes(Checksum(d[..|d| - 4]))
  {
    hide U32, Checksum, ChecksumBytes, Snap.EncodeEntries;
    Field32(1);
    Field32(|es|);
    var d := Snap.SnapshotBytes(es);
    var head := Snap.Header(|es|);
    var body := Snap.EncodeEntries(es);
    assert d == head + body + ChecksumBytes(Checksum(head + body));
    assert d[..|d| - 4] == head + body;
    assert d[..13] == head;
    assert head[..9] == Snap.MAGIC + U32(Snap.VERSION) && head[9..] == U32(|es|);
    assert d[..9] == d[..13][..9] && d[9..13] == d[..13][9..];
  }

  // ---------- Recovery from any files ----------

  /** Without a snapshot file, or with one that is refused, the log alone counts. */
  lemma RecoveredWithout(wal: Bytes, tmp: Option<Bytes>, f: Bytes)
    ensures Recovered(Disk(wal, None, tmp)) == Replayed(map[], ReadAll(wal))
    ensures Snap.ReadSnapshot(f) == Snap.Refused ==> Recovered(Disk(wal, Some(f), tmp)) == Replayed(map[], ReadAll(wal))
  {
    hide Snap.ReadSnapshot;
  }

  /** So it is behind a written snapshot with a burst of up to 32 bits anywhere in it. */
  lemma RecoveredFromDamaged(es: seq<Entry>, f: Bytes, wal: Bytes, tmp: Option<Bytes>)
    requires Damaged(Snap.SnapshotBytes(es), f)
    ensures Recovered(Disk(wal, Some(f), tmp)) == Replayed(map[], ReadAll(wal))
  {
    hide Damaged, Recovered;
    Snap.DamagedSnapshot(es, f);
    RecoveredWithout(wal, tmp, f);
  }

  /** Behind a written snapshot cut off anywhere from 17 bytes on. */
  lemma RecoveredFromTruncated(es: seq<Entry>, f: Bytes, wal: Bytes, tmp: Option<Bytes>)
    requires Snap.Writable(es) && f < Snap.SnapshotBytes(es) && |f| >= 17
    ensures Recovered(Disk(wal, Some(f), tmp)) == Replayed(map[], ReadAll(wal))
  {
    hide Snap.SnapshotBytes, Recovered;
    Snap.TruncatedSnapshot(es, f);
    RecoveredWithout(wal, tmp, f);
  }

  /** And behind any file that is too short, whose last four bytes are not the checksum of the rest, or that starts
      with another magic word or version. */
  lemma RecoveredFromForeign(f: Bytes, wal: Bytes, tmp: Option<Bytes>)
    requires |f| <= 13 || !Verifies(f, |f| - 4) || f[..9] != [75, 86, 83, 78, 80, 1, 0, 0, 0]
    ensures Recovered(Disk(wal, Some(f), tmp)) == Replayed(map[], ReadAll(wal))
  {
    hide Recovered, Verifies;
    if Snap.ReadSnapshot(f) != Snap.Refused {
      ForeignRefused(f);
    }
    RecoveredWithout(wal, tmp, f);
  }

  lemma ForeignRefused(f: Bytes)
    requires Snap.ReadSnapshot(f) != Snap.Refused
    ensures |f| > 13 && Verifies(f, |f| - 4) && f[..9] == [75, 86, 83, 78, 80, 1, 0, 0, 0]
  {
    hide Verifies, U32, Snap.DecodeEntries;
    WriteReadU32(f[5..]);
    Field32(1);
    assert f[5..][..4] == f[5..9];
    assert f[..9] == f[..5] + f[5..9];
  }

  /** In every other case the file's entries are loaded first. */
  lemma RecoveredFromSnapshot(es: seq<Entry>, f: Bytes, wal: Bytes, tmp: Option<Bytes>)
    requires |f| >= 17 && Snap.Writable(es) && Verifies(f, |f| - 4) && Snap.Content(es) <= f[..|f| - 4]
    ensures Recovered(Disk(wal, Some(f), tmp)) == Replayed(LoadEntries(es), ReadAll(wal))
  {
    hide Verifies, Snap.Content, Snap.ReadSnapshot, Snap.Writable;
    Snap.ReadSnapshotIff(f, es);
  }

  /** Of several entries with one key the last one counts. */
  lemma LastEntryCounts(es: seq<Entry>, i: nat)
    requires i < |es| && forall j :: i < j < |es| ==> es[j].key != es[i].key
    ensures Get(LoadEntries(es), es[i].key) == Some(es[i].value)
  {
    hide LastEffect;
    var rs, k := SetRecords(es), es[i].key;
    ReplayedAt(map[], rs, k);
    LastEffectSplit(rs, i, k);
    NoEffect(rs[i + 1..], k);
  }
}
