/** The persistent store (persistent_kv_store.cpp) and the snapshot file code it calls (snapshot.cpp),
    statement by statement, each system call tied to a step of the state machine. */
module Store {
  import opened Bytes
  import opened Options
  import opened WalCodec
  import opened Replay
  import opened Durability
  import opened Wal
  import opened SlidingWindow
  import Snap = SnapshotCodec

  const SNAPSHOT_INTERVAL: nat := 500
  const BURST_MAX_OPS := 100
  const BURST_WINDOW_MS := 1000

  // ---------- Building and parsing a snapshot ----------

  /** The content `WriteSnapshot` builds by appending. */
  method BuildSnapshot(es: seq<Entry>) returns (content: Bytes)
    ensures content == Snap.SnapshotBytes(es)
  {
    hide Snap.EncodeEntry, Crc32.ChecksumBytes, Crc32.Checksum, U32;
    content := Snap.MAGIC + U32(Snap.VERSION) + U32(|es|);
    ghost var header := content;
    for i := 0 to |es|
      invariant content == header + Snap.EncodeEntries(es[..i])
    {
      assert es[..i + 1] == es[..i] + [es[i]];
      Snap.EncodeEntriesConcat(es[..i], [es[i]]);
      assert Snap.EncodeEntries([es[i]]) == Snap.EncodeEntry(es[i]) + Snap.EncodeEntries([es[i]][1..]);
      content := content + Snap.EncodeEntry(es[i]);
    }
    assert es[..|es|] == es;
    content := content + Crc32.ChecksumBytes(Crc32.Checksum(content));
  }

  /** `ReadSnapshot` after the file was read: header checks, then the entry loop. */
  method ParseSnapshot(content: Bytes) returns (result: Snap.ReadResult)
    ensures result == Snap.ReadSnapshot(content)
  {
    hide Crc32.Verifies, ReadU32, Snap.DecodeEntry, Snap.DecodeEntries, Continues;
    if |content| <= 13 {
      return Snap.Refused;
    }
    if !Crc32.Verifies(content, |content| - 4) {
      return Snap.Refused;
    }
    if content[..5] != Snap.MAGIC {
      return Snap.Refused;
    }
    if ReadU32(content[5..]) != Snap.VERSION {
      return Snap.Refused;
    }
    var count := ReadU32(content[9..]);
    if |content| < 17 {
      return if count == 0 then Snap.Loaded([]) else Snap.OutOfBounds;
    }
    var entries: seq<Entry> := [];
    var offset := 13;
    var end := |content| - 4;
    StartDecoding(content[13..end], count);
    for i := 0 to count
      invariant 13 <= offset <= end
      invariant Continues(content[13..end], count, entries, content[offset..end], count - i)
    {
      ContinueDecoding(content[13..end], count, entries, content[offset..end], count - i);
      var decoded := Snap.DecodeEntry(content[offset..end]);
      if decoded == None {
        return Snap.Refused;
      }
      var (entry, consumed) := decoded.value;
      assert content[offset..end][consumed..] == content[offset + consumed..end];
      entries := entries + [entry];
      offset := offset + consumed;
    }
    StopDecoding(content[13..end], count, entries, content[offset..end]);
    result := Snap.Loaded(entries);
  }

  /** Decoding `n` entries of `d` is `done` followed by decoding `left` more from `rest`. */
  ghost predicate Continues(d: Bytes, n: nat, done: seq<Entry>, rest: Bytes, left: nat) {
    match Snap.DecodeEntries(rest, left)
    case None => Snap.DecodeEntries(d, n) == None
    case Some(es) => Snap.DecodeEntries(d, n) == Some(done + es)
  }

  lemma StartDecoding(d: Bytes, n: nat)
    ensures Continues(d, n, [], d, n)
  {
    hide Snap.DecodeEntries;
    assert forall es: seq<Entry> :: [] + es == es;
  }

  lemma ContinueDecoding(d: Bytes, n: nat, done: seq<Entry>, rest: Bytes, left: nat)
    requires left > 0 && Continues(d, n, done, rest, left)
    ensures match Snap.DecodeEntry(rest)
            case None => Snap.DecodeEntries(d, n) == None
            case Some((e, k)) => Continues(d, n, done + [e], rest[k..], left - 1)
  {
    hide Snap.DecodeEntry;
    assert forall e: Entry, es: seq<Entry> {:trigger done + ([e] + es)} :: done + ([e] + es) == done + [e] + es;
  }

  lemma StopDecoding(d: Bytes, n: nat, done: seq<Entry>, rest: Bytes)
    requires Continues(d, n, done, rest, 0)
    ensures Snap.DecodeEntries(d, n) == Some(done)
  {
    assert done + [] == done;
  }

  /** The entries of the map in iteration order, which is unspecified. */
  method ListEntries(m: Map) returns (es: seq<Entry>)
    ensures Enumerates(es, m) && |es| == |m|
  {
    es := [];
    var keys := m.Keys;
    while keys != {}
      invariant keys <= m.Keys && |es| + |keys| == |m|
      invariant forall e :: e in es ==> e.key in m && m[e.key] == e.value && e.key !in keys
      invariant forall k :: k in m && k !in keys ==> Snap.Entry(k, m[k]) in es
      invariant forall i, j :: 0 <= i < j < |es| ==> es[i].key != es[j].key
    {
      var k :| k in keys;
      ghost var before := es;
      es := es + [Snap.Entry(k, m[k])];
      assert forall e :: e in before ==> e in es;
      keys := keys - {k};
    }
  }

  // ---------- Cadence ----------

  /** From `now` on, the last second never holds more than 100 of these stamps. */
  ghost predicate Calm(stamps: seq<int>, now: int) {
    forall cutoff :: cutoff >= now - BURST_WINDOW_MS ==> CountSince(stamps, cutoff) <= BURST_MAX_OPS
  }

  lemma StaysCalm(stamps: seq<int>, now: int)
    requires CountSince(stamps, now - BURST_WINDOW_MS) <= BURST_MAX_OPS
    ensures Calm(stamps, now)
  {
    forall cutoff | cutoff >= now - BURST_WINDOW_MS
      ensures CountSince(stamps, cutoff) <= BURST_MAX_OPS
    {
      CountShrinks(stamps, now - BURST_WINDOW_MS, cutoff);
    }
  }

  lemma NothingIsCalm(now: int)
    ensures Calm([], now)
  {
  }

  /** A write counted at `at.now` is followed by a snapshot. */
  predicate Triggers(count: nat, stamps: seq<int>, at: Moment) {
    count + 1 >= SNAPSHOT_INTERVAL || CountSince(stamps + [at.now], at.later - BURST_WINDOW_MS) > BURST_MAX_OPS
  }

  // ---------- Traces ----------

  /** `evs` is a run from `s` to `t`; if `good`, a safe one that keeps the invariant. */
  ghost predicate Traced(s: State, evs: seq<Event>, t: State, good: bool) {
    && Run(s, evs, t)
    && (good ==> SafeRun(s, evs, t) && Inv(t))
  }

  lemma {:induction false} RunSnoc(s: State, evs: seq<Event>, t: State, e: Event)
    requires Run(s, evs, t) && Enabled(t, e)
    ensures Run(s, evs + [e], Next(t, e))
    decreases |evs|
  {
    hide Enabled, Next;
    if evs == [] {
      assert [e][1..] == [];
    } else {
      assert (evs + [e])[0] == evs[0] && (evs + [e])[1..] == evs[1..] + [e];
      RunSnoc(Next(s, evs[0]), evs[1..], t, e);
    }
  }

  lemma {:induction false} SafeRunSnoc(s: State, evs: seq<Event>, t: State, e: Event)
    requires SafeRun(s, evs, t) && Enabled(t, e) && Safe(t, e)
    ensures SafeRun(s, evs + [e], Next(t, e))
    decreases |evs|
  {
    hide Enabled, Next, Safe;
    if evs == [] {
      assert [e][1..] == [];
    } else {
      assert (evs + [e])[0] == evs[0] && (evs + [e])[1..] == evs[1..] + [e];
      SafeRunSnoc(Next(s, evs[0]), evs[1..], t, e);
    }
  }

  lemma Extend(s: State, evs: seq<Event>, t: State, e: Event, good: bool)
    requires Traced(s, evs, t, good) && Enabled(t, e) && (good ==> Safe(t, e))
    ensures Traced(s, evs + [e], Next(t, e), good)
  {
    hide Enabled, Next, Safe, Inv, Run, SafeRun;
    RunSnoc(s, evs, t, e);
    if good {
      SafeRunSnoc(s, evs, t, e);
      StepKeeps(t, e);
    }
  }

  lemma TracedNothing(s: State, good: bool)
    requires good ==> Inv(s)
    ensures Traced(s, [], s, good)
  {
    hide Inv;
  }

  lemma ExtendClean(wal: Bytes, r: Record)
    requires Clean(wal) && Fits(r)
    ensures Clean(wal + Encode(r))
  {
    hide WalCodec.ReadAll, Encode, Log;
    ReadAllOfClean(wal, Encode(r));
    ReadAllOne(r);
    LogAppend(WalCodec.ReadAll(wal), r);
  }

  lemma EmptyIsClean()
    ensures Clean([])
  {
    ReadAllOfNothing();
  }

  /** A write that is alone in flight overtakes nothing. */
  lemma AloneIsSafe(r: Record)
    ensures !Overtakes([r], 0)
  {
    assert [r][..0] == [];
  }

  // ---------- The store ----------

  /** What may go wrong with a snapshot file: it does not open, a write fails when `after` bytes are written or
      all but one, or the rename fails. */
  datatype Fault = NoFault | OpenFault | WriteFault(after: nat) | RenameFault

  /** What the environment contributes to a write: the clock when it is counted and when the snapshot triggers
      are checked, and what happens to a snapshot. */
  datatype Moment = Moment(now: int, later: int, fault: Fault)

  /** The snapshot file after a snapshot of `m`. */
  ghost predicate SnapFile(m: Map, before: Option<Bytes>, snap: Option<Bytes>, fault: Fault) {
    if m == map[] then snap == before
    else match fault
      case NoFault => exists es :: Enumerates(es, m) && |es| == |m| && snap == Some(Snap.SnapshotBytes(es))
      case RenameFault => snap == None
      case _ => snap == before
  }

  class PersistentKvStore {
    const wal: WAL
    const window: Window
    /** The snapshot file and the temporary file in the data directory. */
    var snap: Option<Bytes>
    var tmp: Option<Bytes>
    var data: Map
    var opCount: nat
    /** False after reading a snapshot ran past the buffer, where the code's behaviour is undefined. */
    var ready: bool
    /** The rest of the machine's state: writes logged but not applied, all writes logged,
        and how far a snapshot has come. */
    ghost var pending: seq<Record>
    ghost var issued: seq<Record>
    ghost var phase: Phase
    ghost var clock: int

    ghost function View(): State
      reads this, wal
    {
      State(Disk(wal.file, snap, tmp), true, data, pending, phase, issued)
    }

    ghost predicate Consistent()
      reads this, wal, window
    {
      && wal.Valid() && wal.enabled
      && window.maxOps == BURST_MAX_OPS && window.size == BURST_WINDOW_MS
      && Sorted(window.stamps)
      && (forall i :: 0 <= i < |window.stamps| ==> window.stamps[i] <= clock)
      && opCount == |window.stamps|
      && phase == Running && pending == []
    }

    /** Between calls: fewer than 500 writes since the last snapshot, at most 100 of them
        in the last second, and so at any time until the next write. */
    ghost predicate Valid()
      reads this, wal, window
    {
      && Consistent()
      && opCount < SNAPSHOT_INTERVAL
      && Calm(window.stamps, clock)
    }

    /** The process starts over the files it finds, which hold the writes `issued`. */
    constructor (found: Disk, ghost issued: seq<Record>, ghost now: int)
      ensures fresh(wal) && fresh(window)
      ensures ready <==> Readable(found)
      ensures ready ==> Valid() && clock == now && opCount == 0 && window.stamps == []
      ensures ready ==> View() == Next(State(found, false, map[], [], Running, issued), Restart)
    {
      hide Recovered, Next, Enabled, Readable, Calm;
      var w := new WAL(found.wal);
      w.Init(true);
      wal := w;
      window := new Window(BURST_MAX_OPS, BURST_WINDOW_MS);
      snap, tmp := found.snap, found.tmp;
      data := map[];
      opCount := 0;
      this.issued := issued;
      pending := [];
      phase := Running;
      clock := now;
      new;
      NothingIsCalm(now);
      ready := Recover();
      StartView(found, issued);
    }

    /** Loads the snapshot if there is a good one, then replays the log over it. */
    method Recover() returns (ok: bool)
      requires wal.Valid() && wal.enabled && data == map[]
      modifies this`data, wal
      ensures wal.Valid() && wal.enabled && wal.file == old(wal.file)
      ensures ok <==> Readable(Disk(wal.file, snap, tmp))
      ensures ok ==> data == Recovered(Disk(wal.file, snap, tmp))
    {
      hide Snap.ReadSnapshot, WalCodec.ReadAll;
      if snap.Some? {
        var loaded := ParseSnapshot(snap.value);
        if loaded.OutOfBounds? {
          return false;
        }
        if loaded.Loaded? {
          var es := loaded.entries;
          ghost var rs := SetRecords(es);
          for i := 0 to |es|
            invariant wal.Valid() && wal.enabled && wal.file == old(wal.file)
            invariant data == Replayed(map[], rs[..i])
          {
            assert rs[..i + 1] == rs[..i] + [rs[i]];
            ReplayedAppend(map[], rs[..i], rs[i]);
            data := data[es[i].key := es[i].value];
          }
          assert rs[..|es|] == rs;
        }
      }
      ghost var base := Base(snap);
      assert data == base;
      var records := wal.ReadAll(|wal.file|);
      assert wal.file[..|wal.file|] == wal.file;
      for i := 0 to |records|
        invariant wal.Valid() && wal.enabled && wal.file == old(wal.file)
        invariant data == Replayed(base, records[..i])
      {
        assert records[..i + 1] == records[..i] + [records[i]];
        ReplayedAppend(base, records[..i], records[i]);
        var r := records[i];
        if r.op == SET {
          data := data[r.key := r.value];
        } else if r.op == DEL {
          data := data - {r.key};
        }
      }
      assert records[..|records|] == records;
      return true;
    }

    /** What a caller must see to so that a write is durable. */
    ghost predicate WriteSafe(r: Record)
      reads this, wal
    {
      Inv(View()) && Clean(wal.file) && Fits(r) && |ApplyRecord(data, r)| < TWO_TO_32
    }

    /** The log's share of a write: one record appended, or a part of it and an exception. */
    method LogWrite(r: Record, accepted: nat, ghost good: bool) returns (threw: bool, evs: seq<Event>)
      requires Valid() && (r.op == SET || r.op == DEL) && (good ==> WriteSafe(r))
      modifies this`pending, this`issued, wal
      ensures wal.Valid() && wal.enabled && (threw <==> accepted < |Encode(r)|)
      ensures View() == if threw then Torn(old(View()), r, accepted) else Appended(old(View()), r)
      ensures Traced(old(View()), evs, View(), good) && (good && !threw ==> Clean(wal.file))
    {
      hide Inv, Clean, Encode, Traced, Base, Recovered, Snap.SnapshotBytes, Calm, ApplyRecord;
      ghost var start := View();
      threw := wal.Append(r, accepted);
      if threw {
        evs := [ShortWrite(r, accepted)];
        TornStep(start, r, accepted, View(), good);
      } else {
        evs := [Append(r)];
        pending, issued := [r], issued + [r];
        assert Encode(r)[..|Encode(r)|] == Encode(r);
        LoggedStep(start, r, View(), good);
      }
    }

    /** When a write is followed by a snapshot, and where that leaves the counters. */
    ghost predicate Counted(count: nat, stamps: seq<int>, at: Moment, snapshotted: bool)
      reads this, window
    {
      && (snapshotted <==> Triggers(count, stamps, at))
      && opCount == (if snapshotted then 0 else count + 1)
      && window.stamps == (if snapshotted then [] else stamps + [at.now])
      && clock == at.later
    }

    /** What a snapshot comes to, and the file it leaves. */
    ghost function OutcomeOf(fault: Fault): Outcome
      reads this`data
    {
      if data == map[] then EmptyMap else if fault == NoFault then Replaced else NotWritten
    }

    ghost predicate SnapAfter(fault: Fault, before: Option<Bytes>)
      reads this`snap, this`data
    {
      SnapFile(data, before, snap, fault)
    }

    /** The files after a write: the record behind the log, or an empty log behind a snapshot. */
    ghost predicate Filed(log: Bytes, r: Record, before: Option<Bytes>, at: Moment, snapshotted: bool)
      reads this, wal
    {
      if snapshotted then wal.file == [] && SnapAfter(at.fault, before)
      else wal.file == log + Encode(r) && snap == before
    }

    /** Recovering the disk gives the map in memory, which is every write logged, and the log takes more. */
    ghost predicate Kept()
      reads this, wal
    {
      Inv(View()) && Clean(wal.file) && Recovered(View().disk) == data == Replayed(map[], issued)
    }

    /** Logged, applied, counted, and possibly followed by a snapshot. A write the log takes only in part throws
        before anything else happens. `lost` tells that the log was cleared without a snapshot file that gives
        the map. */
    method Set(key: Bytes, value: Bytes, accepted: nat, at: Moment)
      returns (threw: bool, snapshotted: bool, ghost lost: bool, evs: seq<Event>)
      requires Valid() && clock <= at.now <= at.later
      modifies this, wal, window
      ensures Valid() && (threw <==> accepted < |Encode(Record(SET, key, value))|)
      ensures threw ==> unchanged(this) && unchanged(window)
      ensures threw ==> View() == Torn(old(View()), Record(SET, key, value), accepted)
      ensures !threw ==> data == old(data)[key := value] && issued == old(issued) + [Record(SET, key, value)]
      ensures !threw ==> Counted(old(opCount), old(window.stamps), at, snapshotted)
      ensures !threw ==> Filed(old(wal.file), Record(SET, key, value), old(snap), at, snapshotted)
      ensures if threw then !lost && !snapshotted else lost <==> snapshotted && Lost(OutcomeOf(at.fault))
      ensures var good := old(WriteSafe(Record(SET, key, value))) && !lost;
              Traced(old(View()), evs, View(), good) && (good && !threw ==> Kept())
    {
      hide Inv, Clean, Encode, Traced, Base, Recovered, Calm, ApplyRecord, Replayed, Kept, Sorted;
      hide Lost, SnapAfter, OutcomeOf, Triggers;
      var r := Record(SET, key, value);
      WriteApplies(data, r);
      ghost var start, good := View(), WriteSafe(r);
      snapshotted, lost := false, false;
      threw, evs := LogWrite(r, accepted, good);
      if threw {
        return;
      }
      ghost var logged := View();
      data := data[key := value];
      pending := [];
      AppliedStep(start, evs, logged, r, View(), good);
      evs := evs + [Apply(0)];
      assert key in data;
      snapshotted, lost, evs := CountWrite(at, start, evs, good);
    }

    /** As `Set`, telling whether the key was there. */
    method Delete(key: Bytes, accepted: nat, at: Moment)
      returns (threw: bool, result: bool, snapshotted: bool, ghost lost: bool, evs: seq<Event>)
      requires Valid() && clock <= at.now <= at.later
      modifies this, wal, window
      ensures Valid() && (threw <==> accepted < |Encode(Record(DEL, key, []))|)
      ensures threw ==> unchanged(this) && unchanged(window)
      ensures threw ==> View() == Torn(old(View()), Record(DEL, key, []), accepted)
      ensures !threw ==> (result <==> key in old(data))
      ensures !threw ==> data == old(data) - {key} && issued == old(issued) + [Record(DEL, key, [])]
      ensures !threw ==> Counted(old(opCount), old(window.stamps), at, snapshotted)
      ensures !threw ==> Filed(old(wal.file), Record(DEL, key, []), old(snap), at, snapshotted)
      ensures if threw then !lost && !snapshotted else lost <==> snapshotted && Lost(OutcomeOf(at.fault))
      ensures var good := old(WriteSafe(Record(DEL, key, []))) && !lost;
              Traced(old(View()), evs, View(), good) && (good && !threw ==> Kept())
    {
      hide Inv, Clean, Encode, Traced, Base, Recovered, Calm, ApplyRecord, Replayed, Kept, Sorted;
      hide Lost, SnapAfter, OutcomeOf, Triggers;
      var r := Record(DEL, key, []);
      WriteApplies(data, r);
      ghost var start, good := View(), WriteSafe(r);
      result, snapshotted, lost := false, false, false;
      threw, evs := LogWrite(r, accepted, good);
      if threw {
        return;
      }
      ghost var logged := View();
      result := key in data;
      data := data - {key};
      pending := [];
      AppliedStep(start, evs, logged, r, View(), good);
      evs := evs + [Apply(0)];
      snapshotted, lost, evs := CountWrite(at, start, evs, good);
    }

    /** The counters' share of a write, and the snapshot that may follow. */
    method CountWrite(at: Moment, ghost start: State, trace: seq<Event>, ghost good: bool)
      returns (snapshotted: bool, ghost lost: bool, evs: seq<Event>)
      requires Consistent() && clock <= at.now <= at.later && opCount < SNAPSHOT_INTERVAL
      requires Traced(start, trace, View(), good) && (good ==> |data| < TWO_TO_32 && Clean(wal.file))
      modifies this, wal, window
      ensures Valid() && data == old(data) && issued == old(issued)
      ensures Counted(old(opCount), old(window.stamps), at, snapshotted)
      ensures lost <==> snapshotted && Lost(OutcomeOf(at.fault))
      ensures if snapshotted then wal.file == [] && SnapAfter(at.fault, old(snap))
              else wal.file == old(wal.file) && snap == old(snap)
      ensures Traced(start, evs, View(), good && !lost) && (good && !lost ==> Kept())
    {
      hide Inv, Clean, Encode, Traced, Base, Recovered, Calm, Kept, CountSince, Lost, SnapAfter, OutcomeOf;
      opCount := opCount + 1;
      window.AddOp(at.now);
      clock := at.now;
      snapshotted, lost, evs := CheckSnapshotTrigger(at, start, trace, good);
    }

    method CheckSnapshotTrigger(at: Moment, ghost start: State, trace: seq<Event>, ghost good: bool)
      returns (snapshotted: bool, ghost lost: bool, evs: seq<Event>)
      requires Consistent() && clock <= at.later && opCount <= SNAPSHOT_INTERVAL
      requires Traced(start, trace, View(), good) && (good ==> |data| < TWO_TO_32 && Clean(wal.file))
      modifies this, wal, window
      ensures Valid() && clock == at.later && data == old(data) && issued == old(issued)
      ensures snapshotted <==> old(opCount) >= 500 || CountSince(old(window.stamps), at.later - 1000) > 100
      ensures opCount == if snapshotted then 0 else old(opCount)
      ensures window.stamps == if snapshotted then [] else old(window.stamps)
      ensures lost <==> snapshotted && Lost(OutcomeOf(at.fault))
      ensures if snapshotted then wal.file == [] && SnapAfter(at.fault, old(snap))
              else wal.file == old(wal.file) && snap == old(snap)
      ensures Traced(start, evs, View(), good && !lost) && (good && !lost ==> Kept())
    {
      hide Inv, Clean, Base, Recovered, Snap.SnapshotBytes, CountSince, Calm, Traced, Kept, Sorted, Enumerates;
      snapshotted, lost := false, false;
      evs := trace;
      clock := at.later;
      if opCount >= SNAPSHOT_INTERVAL {
        snapshotted := true;
      }
      var exceeded := window.IsExceeded(at.later);
      if exceeded {
        snapshotted := true;
      }
      if snapshotted {
        var outcome;
        outcome, evs := CreateSnapshot(at.fault, start, evs, good);
        lost := Lost(outcome);
      } else {
        StaysCalm(window.stamps, at.later);
        if good {
          TracedKept(start, evs);
        }
      }
    }

    /** The log was cleared, and without a new snapshot file the old one does not give the map. */
    ghost predicate Lost(outcome: Outcome)
      reads this`snap, this`data
    {
      outcome != Replaced && Base(snap) != data
    }

    /** Both locks held: list the map, write the snapshot unless the map is empty, clear the log whether or not
        the file was written, reset the counters. */
    method CreateSnapshot(fault: Fault, ghost start: State, trace: seq<Event>, ghost good: bool)
      returns (outcome: Outcome, evs: seq<Event>)
      requires Consistent()
      requires Traced(start, trace, View(), good) && (good ==> |data| < TWO_TO_32)
      modifies this, wal, window
      ensures Valid() && opCount == 0 && clock == old(clock) && wal.file == []
      ensures data == old(data) && issued == old(issued)
      ensures outcome == OutcomeOf(fault) && SnapAfter(fault, old(snap)) && window.stamps == []
      ensures Traced(start, evs, View(), good && !Lost(outcome)) && (good && !Lost(outcome) ==> Kept())
    {
      hide Inv, Clean, Base, Recovered, CountSince, Traced, Enumerates, Calm, Kept, Lost, SnapAfter, OutcomeOf;
      var es := ListEntries(data);
      outcome, evs := PutSnapshot(es, fault, start, trace, good);
      ghost var safe := good && !Lost(outcome);
      ghost var s := View();
      var threw := wal.ClearWithoutLock(true);
      phase := Running;
      ClearedStep(start, evs, s, View(), safe);
      evs := evs + [Clear];
      opCount := 0;
      window.Clear();
      NothingIsCalm(clock);
      if safe {
        TracedKept(start, evs);
      }
    }

    /** The snapshot's share of `CreateSnapshot`. */
    method PutSnapshot(es: seq<Entry>, fault: Fault, ghost start: State, trace: seq<Event>, ghost good: bool)
      returns (outcome: Outcome, evs: seq<Event>)
      requires Consistent() && Enumerates(es, data) && |es| == |data|
      requires Traced(start, trace, View(), good) && (good ==> |data| < TWO_TO_32)
      modifies this`snap, this`tmp, this`phase
      ensures phase == Clearing(outcome)
      ensures outcome == OutcomeOf(fault) && SnapAfter(fault, old(snap))
      ensures Traced(start, evs, View(), good && !Lost(outcome)) && (good && !Lost(outcome) ==> Base(snap) == data)
    {
      hide Inv, Clean, Encode, Base, Recovered, Snap.SnapshotBytes, CountSince, Traced, Enumerates, Calm, Sorted;
      ghost var s := View();
      if |es| != 0 {
        outcome, evs := WriteSnapshot(es, fault, start, trace, good);
      } else {
        NothingListed(es, data);
        outcome := EmptyMap;
        phase := Clearing(EmptyMap);
        evs := trace + [SkipEmpty];
        SkippedStep(start, trace, s, View(), good);
        WeakenTrace(start, evs, View(), good, good && !Lost(outcome));
      }
    }

    method ForceSnapshot(fault: Fault) returns (outcome: Outcome, evs: seq<Event>)
      requires Valid()
      modifies this, wal, window
      ensures Valid() && clock == old(clock) && data == old(data) && issued == old(issued)
      ensures outcome == OutcomeOf(fault) && SnapAfter(fault, old(snap)) && wal.file == [] && opCount == 0
      ensures var good := old(Inv(View())) && |data| < TWO_TO_32 && !Lost(outcome);
              Traced(old(View()), evs, View(), good) && (good ==> Kept())
    {
      hide Inv, Clean, Encode, Base, Recovered, Snap.SnapshotBytes, CountSince, Traced, Enumerates, Calm, Kept;
      ghost var good := Inv(View()) && |data| < TWO_TO_32;
      TracedNothing(View(), good);
      outcome, evs := CreateSnapshot(fault, View(), [], good);
    }

    /** The invariant at rest says that everything is kept. */
    lemma TracedKept(start: State, evs: seq<Event>)
      requires Traced(start, evs, View(), true) && phase == Running && pending == [] && Clean(wal.file)
      ensures Kept()
    {
      hide Recovered, Clean, Run, SafeRun, Inv;
      TracedInv(start, evs, View());
      TracedDurable(start, evs, View());
    }

    /** The temporary file, opened and written in pieces of any size. */
    method WriteTemporary(es: seq<Entry>, content: Bytes, fault: Fault,
                          ghost start: State, trace: seq<Event>, ghost good: bool)
      returns (ok: bool, evs: seq<Event>)
      requires phase == Running && data != map[] && Enumerates(es, data) && content == Snap.SnapshotBytes(es)
      requires Traced(start, trace, View(), good) && (good ==> |es| < TWO_TO_32)
      modifies this`tmp, this`phase
      ensures ok <==> !fault.WriteFault?
      ensures if ok then phase == Writing(es) && tmp == Some(content) else phase == Clearing(NotWritten) && tmp == None
      ensures Traced(start, evs, View(), good)
    {
      hide Inv, Clean, Encode, Base, Recovered, Snap.SnapshotBytes, Traced, Enumerates;
      ghost var s := View();
      tmp, phase := Some([]), Writing(es);
      BegunStep(start, trace, s, es, View(), good);
      evs := trace + [BeginSnapshot(es)];
      var written := 0;
      var limit := if fault.WriteFault? then Min(fault.after, |content| - 1) else |content|;
      while written < limit
        invariant 0 <= written <= limit <= |content|
        invariant tmp == Some(content[..written]) && phase == Writing(es)
        invariant Traced(start, evs, View(), good)
      {
        s := View();
        var n: nat :| 1 <= n <= limit - written;
        tmp := Some(tmp.value + content[written..written + n]);
        assert content[..written] + content[written..written + n] == content[..written + n];
        written := written + n;
        ChunkStep(start, evs, s, n, View(), good);
        evs := evs + [WriteChunk(n)];
      }
      if fault.WriteFault? {
        s := View();
        tmp, phase := None, Clearing(NotWritten);
        WriteFailedStep(start, evs, s, View(), good);
        return false, evs + [WriteFails];
      }
      assert content[..written] == content;
      ok := true;
    }

    /** The file steps: temporary file written, old file unlinked, temporary file renamed;
        the code goes on after any of them failed. */
    method WriteSnapshot(es: seq<Entry>, fault: Fault, ghost start: State, trace: seq<Event>, ghost good: bool)
      returns (outcome: Outcome, evs: seq<Event>)
      requires Consistent() && Enumerates(es, data) && |es| == |data| && es != []
      requires Traced(start, trace, View(), good) && (good ==> |data| < TWO_TO_32)
      modifies this`snap, this`tmp, this`phase
      ensures outcome != EmptyMap && phase == Clearing(outcome) && data != map[]
      ensures outcome == Replaced <==> fault == NoFault
      ensures outcome == Replaced ==> snap == Some(Snap.SnapshotBytes(es)) && tmp == None
      ensures outcome == NotWritten ==> snap == if fault == RenameFault then None else old(snap)
      ensures fault == OpenFault ==> tmp == old(tmp)
      ensures fault.WriteFault? ==> tmp == None
      ensures fault == RenameFault ==> tmp == Some(Snap.SnapshotBytes(es))
      ensures Traced(start, evs, View(), good && !Lost(outcome)) && (good && !Lost(outcome) ==> Base(snap) == data)
    {
      hide Inv, Clean, Encode, Base, Recovered, Snap.SnapshotBytes, CountSince, Traced, Enumerates, Calm;
      var content := BuildSnapshot(es);
      SomethingListed(es, data);
      ghost var s := View();
      if fault == OpenFault {
        phase := Clearing(NotWritten);
        evs := trace + [OpenFails];
        OpenFailedStep(start, trace, s, View(), good);
        WeakenTrace(start, evs, View(), good, good && !Lost(NotWritten));
        return NotWritten, evs;
      }
      var ok;
      ok, evs := WriteTemporary(es, content, fault, start, trace, good);
      if !ok {
        WeakenTrace(start, evs, View(), good, good && !Lost(NotWritten));
        return NotWritten, evs;
      }
      s := View();
      snap, phase := None, Unlinked(es, Base(snap));
      UnlinkedStep(start, evs, s, View(), good);
      evs := evs + [Unlink];
      s := View();
      if fault == RenameFault {
        phase := Clearing(NotWritten);
        NoSnapshot();
        RenameFailedStep(start, evs, s, View(), good);
        return NotWritten, evs + [RenameFails];
      }
      snap, tmp, phase := tmp, None, Clearing(Replaced);
      RenamedStep(start, evs, s, View(), good);
      return Replaced, evs + [Rename];
    }
  }

  // ---------- Steps of the methods above ----------

  lemma WeakenTrace(s: State, evs: seq<Event>, t: State, good: bool, safe: bool)
    requires Traced(s, evs, t, good) && (safe ==> good)
    ensures Traced(s, evs, t, safe)
  {
    hide Inv, Run, SafeRun;
  }

  lemma TracedInv(s: State, evs: seq<Event>, t: State)
    requires Traced(s, evs, t, true)
    ensures Inv(t)
  {
    hide Inv, Run, SafeRun;
  }

  lemma StartView(found: Disk, issued: seq<Record>)
    ensures var s := State(found, false, map[], [], Running, issued);
            Enabled(s, Restart) && Next(s, Restart) == State(found, true, Recovered(found), [], Running, issued)
  {
    hide Recovered, Encode, Base, Snap.SnapshotBytes;
  }

  lemma WriteApplies(m: Map, r: Record)
    ensures r.op == SET ==> ApplyRecord(m, r) == m[r.key := r.value]
    ensures r.op == DEL ==> ApplyRecord(m, r) == m - {r.key}
  {
  }

  /** Between calls the invariant says: recovering the disk gives the map in memory, which is every write logged. */
  lemma TracedDurable(s: State, evs: seq<Event>, t: State)
    requires Traced(s, evs, t, true) && t.up && t.phase == Running && t.pending == []
    ensures Recovered(t.disk) == t.data == Replayed(map[], t.issued)
  {
    hide Recovered, Run, SafeRun, Snap.SnapshotBytes, Snap.ReadSnapshot;
  }

  lemma NothingListed(es: seq<Entry>, m: Map)
    requires Enumerates(es, m) && es == []
    ensures m == map[]
  {
  }

  lemma SomethingListed(es: seq<Entry>, m: Map)
    requires |es| == |m| && es != []
    ensures m != map[]
  {
  }

  /** The state with a write logged, and with only `n` bytes of it logged. */
  ghost function Appended(s: State, r: Record): State {
    s.(disk := s.disk.(wal := s.disk.wal + Encode(r)), pending := [r], issued := s.issued + [r])
  }

  ghost function Torn(s: State, r: Record, n: nat): State {
    s.(disk := s.disk.(wal := s.disk.wal + Encode(r)[..Min(n, |Encode(r)|)]))
  }

  lemma TornStep(s: State, r: Record, n: nat, t: State, good: bool)
    requires s.up && s.phase == Running && n < |Encode(r)| && t == Torn(s, r, n)
    requires good ==> Inv(s) && Clean(s.disk.wal) && Fits(r)
    ensures Traced(s, [ShortWrite(r, n)], t, good)
  {
    hide Inv, Clean, Encode, Base, Recovered, Snap.SnapshotBytes, Traced, Snap.ReadSnapshot;
    TracedNothing(s, good);
    Extend(s, [], s, ShortWrite(r, n), good);
    assert [] + [ShortWrite(r, n)] == [ShortWrite(r, n)];
  }

  lemma LoggedStep(s: State, r: Record, t: State, good: bool)
    requires s.up && s.phase == Running && s.pending == [] && (r.op == SET || r.op == DEL)
    requires t == Appended(s, r)
    requires good ==> Inv(s) && Clean(s.disk.wal) && Fits(r)
    ensures Traced(s, [Append(r)], t, good)
    ensures good ==> Clean(t.disk.wal)
  {
    hide Inv, Clean, Encode, Base, Recovered, Snap.SnapshotBytes, Traced, Snap.ReadSnapshot;
    TracedNothing(s, good);
    assert [] + [r] == [r];
    Extend(s, [], s, Append(r), good);
    assert [] + [Append(r)] == [Append(r)];
    if good {
      ExtendClean(s.disk.wal, r);
    }
  }

  lemma AppliedStep(start: State, trace: seq<Event>, s: State, r: Record, t: State, good: bool)
    requires Traced(start, trace, s, good)
    requires s.up && s.phase == Running && s.pending == [r]
    requires t == s.(data := ApplyRecord(s.data, r), pending := [])
    ensures Traced(start, trace + [Apply(0)], t, good)
  {
    hide Inv, Encode, Base, Recovered, Snap.SnapshotBytes, Traced, ApplyRecord, Overtakes;
    assert Without(s.pending, 0) == [];
    AloneIsSafe(r);
    Extend(start, trace, s, Apply(0), good);
  }

  lemma BegunStep(start: State, trace: seq<Event>, s: State, es: seq<Entry>, t: State, good: bool)
    requires Traced(start, trace, s, good)
    requires s.up && s.phase == Running && s.data != map[] && Enumerates(es, s.data)
    requires t == s.(disk := s.disk.(tmp := Some([])), phase := Writing(es))
    requires good ==> |es| < TWO_TO_32
    ensures Traced(start, trace + [BeginSnapshot(es)], t, good)
  {
    hide Inv, Encode, Base, Recovered, Snap.SnapshotBytes, Traced, Enumerates;
    Extend(start, trace, s, BeginSnapshot(es), good);
  }

  lemma ChunkStep(start: State, trace: seq<Event>, s: State, n: nat, t: State, good: bool)
    requires Traced(start, trace, s, good)
    requires s.up && s.phase.Writing? && s.disk.tmp.Some?
    requires |s.disk.tmp.value| + n <= |Snap.SnapshotBytes(s.phase.entries)|
    requires t == s.(disk := s.disk.(tmp := Some(Snap.SnapshotBytes(s.phase.entries)[..|s.disk.tmp.value| + n])))
    ensures Traced(start, trace + [WriteChunk(n)], t, good)
  {
    hide Inv, Encode, Base, Recovered, Snap.SnapshotBytes, Traced, Enumerates;
    Extend(start, trace, s, WriteChunk(n), good);
  }

  lemma UnlinkedStep(start: State, trace: seq<Event>, s: State, t: State, good: bool)
    requires Traced(start, trace, s, good)
    requires s.up && s.phase.Writing? && s.disk.tmp == Some(Snap.SnapshotBytes(s.phase.entries))
    requires t == s.(disk := s.disk.(snap := None), phase := Unlinked(s.phase.entries, Base(s.disk.snap)))
    ensures Traced(start, trace + [Unlink], t, good)
  {
    hide Inv, Encode, Base, Recovered, Snap.SnapshotBytes, Traced, Enumerates;
    Extend(start, trace, s, Unlink, good);
  }

  lemma RenamedStep(start: State, trace: seq<Event>, s: State, t: State, good: bool)
    requires Traced(start, trace, s, good)
    requires s.up && s.phase.Unlinked?
    requires t == s.(disk := s.disk.(snap := s.disk.tmp, tmp := None), phase := Clearing(Replaced))
    ensures Traced(start, trace + [Rename], t, good)
    ensures good ==> Base(t.disk.snap) == t.data
  {
    hide Inv, Encode, Base, Recovered, Snap.SnapshotBytes, Traced, Enumerates;
    Extend(start, trace, s, Rename, good);
    if good {
      TracedInv(start, trace, s);
      RenameKeeps(s);
    }
  }

  lemma SkippedStep(start: State, trace: seq<Event>, s: State, t: State, good: bool)
    requires Traced(start, trace, s, good)
    requires s.up && s.phase == Running && s.data == map[]
    requires t == s.(phase := Clearing(EmptyMap))
    ensures Traced(start, trace + [SkipEmpty], t, good)
  {
    hide Inv, Encode, Base, Recovered, Snap.SnapshotBytes, Traced, Enumerates;
    Extend(start, trace, s, SkipEmpty, good);
  }

  lemma OpenFailedStep(start: State, trace: seq<Event>, s: State, t: State, good: bool)
    requires Traced(start, trace, s, good)
    requires s.up && s.phase == Running && s.data != map[]
    requires t == s.(phase := Clearing(NotWritten))
    ensures Traced(start, trace + [OpenFails], t, good)
  {
    hide Inv, Encode, Base, Recovered, Snap.SnapshotBytes, Traced, Enumerates;
    Extend(start, trace, s, OpenFails, good);
  }

  lemma WriteFailedStep(start: State, trace: seq<Event>, s: State, t: State, good: bool)
    requires Traced(start, trace, s, good)
    requires s.up && s.phase.Writing?
    requires t == s.(disk := s.disk.(tmp := None), phase := Clearing(NotWritten))
    ensures Traced(start, trace + [WriteFails], t, good)
  {
    hide Inv, Encode, Base, Recovered, Snap.SnapshotBytes, Traced, Enumerates;
    Extend(start, trace, s, WriteFails, good);
  }

  /** After a failed rename there is no snapshot file, which does for an empty map only. */
  lemma RenameFailedStep(start: State, trace: seq<Event>, s: State, t: State, good: bool)
    requires Traced(start, trace, s, good)
    requires s.up && s.phase.Unlinked? && s.disk.snap == None && s.data != map[]
    requires t == s.(phase := Clearing(NotWritten))
    ensures Traced(start, trace + [RenameFails], t, good && Base(t.disk.snap) == t.data)
  {
    hide Inv, Encode, Recovered, Snap.SnapshotBytes, Traced, Enumerates;
    WeakenTrace(start, trace, s, good, false);
    Extend(start, trace, s, RenameFails, false);
  }

  /** A file that gives the map makes the log redundant, however the snapshot went. */
  lemma ClearSafe(s: State)
    requires Inv(s) && Enabled(s, Clear) && s.pending == [] && Base(s.disk.snap) == s.data
    ensures Safe(s, Clear)
  {
    hide Base, Replayed, WalCodec.ReadAll, Redundant, MapFits, PendingLogged;
    NothingPending(s.data);
    RedundantIff(Base(s.disk.snap), WalCodec.ReadAll(s.disk.wal));
  }

  lemma ClearedStep(start: State, trace: seq<Event>, s: State, t: State, good: bool)
    requires Traced(start, trace, s, good)
    requires s.up && s.phase.Clearing? && s.pending == [] && (good ==> Base(s.disk.snap) == s.data)
    requires t == s.(disk := s.disk.(wal := []), phase := Running)
    ensures Traced(start, trace + [Clear], t, good)
    ensures Clean(t.disk.wal)
  {
    hide Inv, Encode, Base, Recovered, Snap.SnapshotBytes, Traced, Enumerates, Clean, Safe;
    if good {
      TracedInv(start, trace, s);
      ClearSafe(s);
    }
    Extend(start, trace, s, Clear, good);
    EmptyIsClean();
  }
}
