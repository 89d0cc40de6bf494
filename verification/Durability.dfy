/** The store as a state machine over its system calls (persistent_kv_store.cpp over wal.cpp and
    snapshot.cpp): any number of writers, each an append to the log followed later by an update of
    memory; snapshots file operation by file operation; process crashes anywhere; restarts. */
module Durability {
  import opened Bytes
  import opened Options
  import opened WalCodec
  import opened Replay
  import Crc32
  import Snap = SnapshotCodec

  type Entry = Snap.Entry

  // ---------- Disk and recovery ----------

  datatype Disk = Disk(wal: Bytes, snap: Option<Bytes>, tmp: Option<Bytes>)

  /** Loading entries is `insert_or_assign` of each: the replay of as many SET records. */
  function SetRecords(es: seq<Entry>): (rs: seq<Record>)
    ensures |rs| == |es|
  {
    seq(|es|, i requires 0 <= i < |es| => Record(SET, es[i].key, es[i].value))
  }

  function LoadEntries(es: seq<Entry>): Map {
    Replayed(map[], SetRecords(es))
  }

  /** The map a snapshot file gives: none, or one that is refused, gives the empty map. */
  function Base(snap: Option<Bytes>): Map {
    match snap
    case None => map[]
    case Some(f) =>
      match Snap.ReadSnapshot(f)
      case Loaded(es) => LoadEntries(es)
      case _ => map[]
  }

  /** What `Recover` builds from the disk. */
  function Recovered(d: Disk): Map {
    Replayed(Base(d.snap), ReadAll(d.wal))
  }

  /** The log ends with a complete record. */
  ghost predicate Clean(wal: Bytes) {
    wal == Log(ReadAll(wal))
  }

  /** `es` lists the map, each key once, in some order. */
  ghost predicate Enumerates(es: seq<Entry>, m: Map) {
    && (forall i, j :: 0 <= i < j < |es| ==> es[i].key != es[j].key)
    && (forall e :: e in es ==> e.key in m && m[e.key] == e.value)
    && (forall k :: k in m ==> Snap.Entry(k, m[k]) in es)
  }

  // ---------- States and steps ----------

  /** Where `CreateSnapshot` is; it holds both locks, so nothing else runs meanwhile. */
  datatype Phase =
    | Running
    | Writing(entries: seq<Entry>)
    | Unlinked(entries: seq<Entry>, before: Map)
    | Clearing(how: Outcome)

  /** How `CreateSnapshot` came to clearing the log: behind a new snapshot file, without one because
      the map was empty, or without one because a file operation failed. */
  datatype Outcome = Replaced | EmptyMap | NotWritten

  /** `pending` are the writes in the log but not yet in memory, in log order;
      `issued` are all writes ever completely logged, in log order. */
  datatype State = State(disk: Disk, up: bool, data: Map, pending: seq<Record>, phase: Phase, issued: seq<Record>)

  datatype Event =
    | Append(r: Record)
    | TornAppend(r: Record, n: nat)
    | ShortWrite(r: Record, n: nat)
    | Apply(i: nat)
    | BeginSnapshot(entries: seq<Entry>)
    | WriteChunk(n: nat)
    | Unlink
    | Rename
    | SkipEmpty
    | OpenFails
    | WriteFails
    | RenameFails
    | Clear
    | Crash
    | Restart

  ghost predicate Enabled(s: State, e: Event) {
    match e
    case Append(r) => s.up && s.phase == Running && (r.op == SET || r.op == DEL)
    case TornAppend(r, n) => s.up && s.phase == Running && n < |Encode(r)|
    case ShortWrite(r, n) => s.up && s.phase == Running && n < |Encode(r)|
    case Apply(i) => s.up && s.phase == Running && i < |s.pending|
    case BeginSnapshot(es) => s.up && s.phase == Running && s.data != map[] && Enumerates(es, s.data)
    case WriteChunk(n) =>
      && s.up && s.phase.Writing? && s.disk.tmp.Some?
      && |s.disk.tmp.value| + n <= |Snap.SnapshotBytes(s.phase.entries)|
    case Unlink => s.up && s.phase.Writing? && s.disk.tmp == Some(Snap.SnapshotBytes(s.phase.entries))
    case Rename => s.up && s.phase.Unlinked?
    case SkipEmpty => s.up && s.phase == Running && s.data == map[]
    case OpenFails => s.up && s.phase == Running && s.data != map[]
    case WriteFails => s.up && s.phase.Writing?
    case RenameFails => s.up && s.phase.Unlinked?
    case Clear => s.up && s.phase.Clearing?
    case Crash => s.up
    case Restart => !s.up
  }

  function Crashed(s: State): State {
    s.(up := false, data := map[], pending := [], phase := Running)
  }

  function Next(s: State, e: Event): State
    requires Enabled(s, e)
  {
    var d := s.disk;
    match e
    case Append(r) => s.(disk := d.(wal := d.wal + Encode(r)), pending := s.pending + [r], issued := s.issued + [r])
    case TornAppend(r, n) => Crashed(s.(disk := d.(wal := d.wal + Encode(r)[..n])))
    case ShortWrite(r, n) => s.(disk := d.(wal := d.wal + Encode(r)[..n]))
    case Apply(i) => s.(data := ApplyRecord(s.data, s.pending[i]), pending := Without(s.pending, i))
    case BeginSnapshot(es) => s.(disk := d.(tmp := Some([])), phase := Writing(es))
    case WriteChunk(n) =>
      s.(disk := d.(tmp := Some(Snap.SnapshotBytes(s.phase.entries)[..|d.tmp.value| + n])))
    case Unlink => s.(disk := d.(snap := None), phase := Unlinked(s.phase.entries, Base(d.snap)))
    case Rename => s.(disk := d.(snap := d.tmp, tmp := None), phase := Clearing(Replaced))
    case SkipEmpty => s.(phase := Clearing(EmptyMap))
    case OpenFails => s.(phase := Clearing(NotWritten))
    case WriteFails => s.(disk := d.(tmp := None), phase := Clearing(NotWritten))
    case RenameFails => s.(phase := Clearing(NotWritten))
    case Clear => s.(disk := d.(wal := []), phase := Running)
    case Crash => Crashed(s)
    case Restart => s.(up := true, data := Recovered(d))
  }

  /** A fresh process on an empty directory. */
  ghost predicate Initial(s: State) {
    s == State(Disk([], None, None), true, map[], [], Running, [])
  }

  /** Every write in `L` leaves its key as `m` has it. */
  ghost predicate Redundant(m: Map, L: seq<Record>) {
    forall k :: Touches(L, k) ==> LastEffect(L, k) == Left(Get(m, k))
  }

  /** What the code relies on without enforcing it, step by step. */
  ghost predicate Safe(s: State, e: Event)
    requires Enabled(s, e)
  {
    var L := ReadAll(s.disk.wal);
    match e
    case Append(r) => Fits(r) && Clean(s.disk.wal)
    case TornAppend(r, n) => Fits(r) && Clean(s.disk.wal)
    case ShortWrite(r, n) => Fits(r) && Clean(s.disk.wal)
    case Apply(i) => !Overtakes(s.pending, i)
    case BeginSnapshot(es) => |es| < TWO_TO_32
    case RenameFails => forall k :: k in s.phase.before ==> Touches(L, k)
    case Clear =>
      && s.pending == []
      && (s.phase.how == EmptyMap ==> Base(s.disk.snap) == map[])
      && (s.phase.how == NotWritten ==> Redundant(Base(s.disk.snap), L))
    case Crash => s.phase.Unlinked? ==> forall k :: k in s.phase.before ==> Touches(L, k)
    case _ => true
  }

  // ---------- The invariant ----------

  /** The plain map: every write that was completely logged, in order. */
  ghost function Spec(s: State): Map {
    Replayed(map[], s.issued)
  }

  ghost predicate MapFits(m: Map) {
    forall k :: k in m ==> |k| <= 65535 && |m[k]| <= 65535
  }

  /** Recovering now would give every logged write and nothing else. */
  ghost predicate Durable(s: State) {
    Recovered(s.disk) == Spec(s)
  }

  /** Memory plus the writes in flight is every logged write. */
  ghost predicate Coherent(s: State) {
    Replayed(s.data, s.pending) == Spec(s)
  }

  ghost predicate PendingLogged(s: State) {
    forall k :: Touches(s.pending, k) ==> Touches(ReadAll(s.disk.wal), k)
  }

  ghost predicate PhaseInv(s: State) {
    match s.phase
    case Running => true
    case Clearing(how) => (how == Replaced ==> Base(s.disk.snap) == s.data) && (how == EmptyMap ==> s.data == map[])
    case Writing(es) =>
      && Enumerates(es, s.data) && |es| < TWO_TO_32
      && s.disk.tmp.Some? && s.disk.tmp.value <= Snap.SnapshotBytes(es)
    case Unlinked(es, before) =>
      && Enumerates(es, s.data) && |es| < TWO_TO_32
      && s.disk.tmp == Some(Snap.SnapshotBytes(es)) && s.disk.snap == None
      && Replayed(before, ReadAll(s.disk.wal)) == Spec(s)
  }

  ghost predicate Readable(d: Disk) {
    d.snap.Some? ==> Snap.ReadSnapshot(d.snap.value) != Snap.OutOfBounds
  }

  ghost predicate Inv(s: State) {
    && AllFit(s.issued)
    && Readable(s.disk)
    && PhaseInv(s)
    && (s.phase.Unlinked? || Durable(s))
    && (s.up ==> Coherent(s) && PendingLogged(s) && MapFits(s.data) && AllFit(s.pending))
    && (!s.up ==> s.pending == [] && s.phase == Running)
  }

  // ---------- Helper facts ----------

  lemma {:induction false} ReplayedFits(m: Map, rs: seq<Record>)
    requires MapFits(m) && AllFit(rs)
    ensures MapFits(Replayed(m, rs))
    decreases |rs|
  {
    if rs != [] {
      assert Fits(rs[0]);
      ReplayedFits(ApplyRecord(m, rs[0]), rs[1..]);
    }
  }

  lemma EnumeratedFits(es: seq<Entry>, m: Map)
    requires Enumerates(es, m) && MapFits(m) && |es| < TWO_TO_32
    ensures Snap.Writable(es)
  {
  }

  /** Loading a listing of a map gives the map. */
  lemma LoadEnumerated(es: seq<Entry>, m: Map)
    requires Enumerates(es, m)
    ensures LoadEntries(es) == m
  {
    var rs := SetRecords(es);
    assert DistinctKeys(rs);
    forall k
      ensures Get(LoadEntries(es), k) == Get(m, k)
    {
      ReplayedAt(map[], rs, k);
      if k in m {
        assert Snap.Entry(k, m[k]) in es;
        var i :| 0 <= i < |es| && es[i] == Snap.Entry(k, m[k]);
        assert rs[i] == Record(SET, k, m[k]);
        EffectOfOnly(rs, i);
      } else {
        forall r | r in rs
          ensures r.key != k
        {
          var i :| 0 <= i < |rs| && rs[i] == r;
          assert es[i] in es;
        }
        NoEffect(rs, k);
      }
    }
    SameMap(LoadEntries(es), m);
  }

  /** A snapshot file written from a listing of the map loads as the map. */
  lemma BaseOfWritten(es: seq<Entry>, m: Map)
    requires Enumerates(es, m) && MapFits(m) && |es| < TWO_TO_32
    ensures Snap.ReadSnapshot(Snap.SnapshotBytes(es)) == Snap.Loaded(es)
    ensures Base(Some(Snap.SnapshotBytes(es))) == m
  {
    hide Snap.ReadSnapshot, Snap.SnapshotBytes, LoadEntries;
    EnumeratedFits(es, m);
    Snap.SnapshotRoundTripIff(es);
    LoadEnumerated(es, m);
  }

  lemma ReadAllOfClean(wal: Bytes, t: Bytes)
    requires Clean(wal)
    ensures ReadAll(wal + t) == ReadAll(wal) + ReadAll(t)
  {
    hide ReadAll, Log;
    ReadAllSound(wal);
    ReadAllOfLog(ReadAll(wal), t);
  }

  lemma ReadAllOne(r: Record)
    requires Fits(r)
    ensures ReadAll(Encode(r)) == [r]
  {
    hide ReadAll, Encode, Log;
    LogOne(r);
    ReadAllOfLog([r], []);
    ReadAllOfNothing();
    assert Log([r]) + [] == Log([r]);
  }

  lemma ReadAllTorn(r: Record, n: nat)
    requires Fits(r) && n < |Encode(r)|
    ensures ReadAll(Encode(r)[..n]) == []
  {
    hide Encode;
    TornRecord(Encode(r)[..n], r);
  }

  // ---------- Each step keeps the invariant ----------

  lemma AppendKeeps(s: State, r: Record)
    requires Inv(s) && Enabled(s, Append(r)) && Safe(s, Append(r))
    ensures Inv(Next(s, Append(r)))
    ensures Clean(Next(s, Append(r)).disk.wal)
  {
    hide ReadAll, Encode, Log, Base, Replayed, LastEffect, Snap.ReadSnapshot, Snap.SnapshotBytes, ApplyRecord;
    var wal := s.disk.wal;
    var L := ReadAll(wal);
    ReadAllOfClean(wal, Encode(r));
    ReadAllOne(r);
    LogAppend(L, r);
    ReplayedAppend(Base(s.disk.snap), L, r);
    ReplayedAppend(map[], s.issued, r);
    ReplayedAppend(s.data, s.pending, r);
    forall k
      ensures Touches(s.pending + [r], k) ==> Touches(L + [r], k)
    {
      LastEffectConcat(s.pending, [r], k);
      LastEffectConcat(L, [r], k);
      assert Touches(s.pending, k) ==> Touches(L, k);
    }
  }

  lemma TornAppendKeeps(s: State, r: Record, n: nat)
    requires Inv(s) && Enabled(s, TornAppend(r, n)) && Safe(s, TornAppend(r, n))
    ensures Inv(Next(s, TornAppend(r, n)))
  {
    hide ReadAll, Encode, Log, Base, Replayed, LastEffect, Snap.ReadSnapshot, Snap.SnapshotBytes;
    ReadAllOfClean(s.disk.wal, Encode(r)[..n]);
    ReadAllTorn(r, n);
    assert ReadAll(s.disk.wal) + [] == ReadAll(s.disk.wal);
  }

  lemma ShortWriteKeeps(s: State, r: Record, n: nat)
    requires Inv(s) && Enabled(s, ShortWrite(r, n)) && Safe(s, ShortWrite(r, n))
    ensures Inv(Next(s, ShortWrite(r, n)))
    ensures ReadAll(Next(s, ShortWrite(r, n)).disk.wal) == ReadAll(s.disk.wal)
  {
    hide ReadAll, Encode, Log, Base, Replayed, LastEffect, Snap.ReadSnapshot, Snap.SnapshotBytes;
    ReadAllOfClean(s.disk.wal, Encode(r)[..n]);
    ReadAllTorn(r, n);
    assert ReadAll(s.disk.wal) + [] == ReadAll(s.disk.wal);
  }

  lemma ApplyKeeps(s: State, i: nat)
    requires Inv(s) && Enabled(s, Apply(i)) && Safe(s, Apply(i))
    ensures Inv(Next(s, Apply(i)))
  {
    hide ReadAll, Encode, Log, Base, Replayed, LastEffect, Snap.ReadSnapshot, Snap.SnapshotBytes;
    ApplyFirstIff(s.data, s.pending, i);
    forall k
      ensures Touches(Without(s.pending, i), k) ==> Touches(s.pending, k)
    {
      LastEffectConcat(s.pending[..i], s.pending[i + 1..], k);
      LastEffectSplit(s.pending, i, k);
    }
    assert Fits(s.pending[i]);
  }

  lemma BeginKeeps(s: State, es: seq<Entry>)
    requires Inv(s) && Enabled(s, BeginSnapshot(es)) && Safe(s, BeginSnapshot(es))
    ensures Inv(Next(s, BeginSnapshot(es)))
  {
    hide ReadAll, Base, Replayed, LastEffect, Snap.ReadSnapshot, Snap.SnapshotBytes;
    assert [] <= Snap.SnapshotBytes(es);
  }

  lemma UnlinkKeeps(s: State)
    requires Inv(s) && Enabled(s, Unlink)
    ensures Inv(Next(s, Unlink))
  {
    hide ReadAll, Replayed, LastEffect, Snap.ReadSnapshot, Snap.SnapshotBytes;
  }

  /** After the rename the old log is replayed on a snapshot that already contains it. */
  lemma RenameKeeps(s: State)
    requires Inv(s) && Enabled(s, Rename)
    ensures Inv(Next(s, Rename))
    ensures Base(Next(s, Rename).disk.snap) == s.data
  {
    hide ReadAll, Base, Replayed, LastEffect, Snap.ReadSnapshot, Snap.SnapshotBytes;
    var L := ReadAll(s.disk.wal);
    var es, before := s.phase.entries, s.phase.before;
    BaseOfWritten(es, s.data);
    forall k
      ensures Touches(L, k) || Get(s.data, k) == Get(before, k)
    {
      ReplayedAt(before, L, k);
      ReplayedAt(s.data, s.pending, k);
    }
    SameReplayIff(s.data, before, L);
  }

  lemma WithoutSnapshot(s: State)
    requires Inv(s) && s.phase.Unlinked?
    ensures Durable(s) <==> forall k :: k in s.phase.before ==> Touches(ReadAll(s.disk.wal), k)
  {
    hide ReadAll, Replayed, LastEffect;
    SnapshotNeededIff(s.phase.before, ReadAll(s.disk.wal));
  }

  /** A cleared log leaves what the snapshot file gives. */
  lemma RecoveredEmptyLog(d: Disk)
    requires d.wal == []
    ensures Recovered(d) == Base(d.snap)
  {
    ReadAllOfNothing();
  }

  /** Replaying `L` over `m` changes nothing exactly when every write in it is redundant. */
  lemma RedundantIff(m: Map, L: seq<Record>)
    ensures Replayed(m, L) == m <==> Redundant(m, L)
  {
    hide Replayed, LastEffect, Get;
    forall k
      ensures Get(Replayed(m, L), k) == Get(m, k) <==> (Touches(L, k) ==> LastEffect(L, k) == Left(Get(m, k)))
    {
      ReplayedAt(m, L, k);
    }
    if Redundant(m, L) {
      SameMap(Replayed(m, L), m);
    }
  }

  /** Whatever happened before, clearing the log keeps every write exactly when the log was redundant. */
  lemma ClearIff(s: State)
    requires Inv(s) && Enabled(s, Clear)
    ensures Durable(Next(s, Clear)) <==> Redundant(Base(s.disk.snap), ReadAll(s.disk.wal))
  {
    hide ReadAll, Base, Replayed, Redundant, Coherent, PendingLogged, MapFits;
    RecoveredEmptyLog(Next(s, Clear).disk);
    RedundantIff(Base(s.disk.snap), ReadAll(s.disk.wal));
  }

  lemma NothingPending(m: Map)
    ensures Replayed(m, []) == m && forall k :: !Touches([], k)
  {
    hide LastEffect;
    forall k
      ensures !Touches([], k)
    {
      NoEffect([], k);
    }
  }

  /** A snapshot that replaced the file with no write in flight made the log redundant. */
  lemma ClearedFileGivesMap(s: State)
    requires Inv(s) && Enabled(s, Clear) && Safe(s, Clear)
    ensures Base(s.disk.snap) == s.data
  {
    hide ReadAll, Base, Replayed, Redundant, PendingLogged, MapFits;
    NothingPending(s.data);
    if s.phase.how == NotWritten {
      RedundantIff(Base(s.disk.snap), ReadAll(s.disk.wal));
    }
  }

  lemma ClearKeeps(s: State)
    requires Inv(s) && Enabled(s, Clear) && Safe(s, Clear)
    ensures Inv(Next(s, Clear))
    ensures Clean(Next(s, Clear).disk.wal)
  {
    hide ReadAll, Base, Replayed, LastEffect, Snap.ReadSnapshot, Recovered, Redundant;
    ClearedFileGivesMap(s);
    RecoveredEmptyLog(Next(s, Clear).disk);
    NothingPending(s.data);
    ReadAllOfNothing();
  }

  lemma RestartTarget(s: State)
    requires Enabled(s, Restart)
    ensures !s.up && Next(s, Restart) == s.(up := true, data := Recovered(s.disk))
  {
    hide Base, Recovered, Encode, Snap.SnapshotBytes;
  }

  lemma RestartKeeps(s: State)
    requires Inv(s) && Enabled(s, Restart)
    ensures Inv(Next(s, Restart))
  {
    hide Next, Enabled, Base, Replayed, Recovered, MapFits, Touches, AllFit, Snap.SnapshotBytes, Readable;
    RestartTarget(s);
    NothingFits();
    ReplayedFits(map[], s.issued);
    NothingPending(Recovered(s.disk));
    EmptyFits();
  }

  lemma EmptyFits()
    ensures AllFit([])
  {
  }

  lemma NothingFits()
    ensures MapFits(map[])
  {
  }

  /** Every safe step keeps the invariant. */
  lemma StepKeeps(s: State, e: Event)
    requires Inv(s) && Enabled(s, e) && Safe(s, e)
    ensures Inv(Next(s, e))
  {
    hide ReadAll, Base, Replayed, LastEffect, Log, Encode, Snap.ReadSnapshot, Snap.SnapshotBytes;
    match e
    case Append(r) => AppendKeeps(s, r);
    case TornAppend(r, n) => TornAppendKeeps(s, r, n);
    case ShortWrite(r, n) => ShortWriteKeeps(s, r, n);
    case Apply(i) => ApplyKeeps(s, i);
    case BeginSnapshot(es) => BeginKeeps(s, es);
    case WriteChunk(n) =>
    case Unlink => UnlinkKeeps(s);
    case Rename => RenameKeeps(s);
    case SkipEmpty =>
    case OpenFails =>
    case WriteFails =>
    case RenameFails => WithoutSnapshot(s);
    case Clear => ClearKeeps(s);
    case Crash =>
      if s.phase.Unlinked? {
        WithoutSnapshot(s);
      }
    case Restart => RestartKeeps(s);
  }

  // ---------- Whole runs ----------

  /** `es` takes `s` to `s'`, every step enabled. */
  ghost predicate Run(s: State, es: seq<Event>, s': State)
    decreases |es|
  {
    if es == [] then s == s' else Enabled(s, es[0]) && Run(Next(s, es[0]), es[1..], s')
  }

  ghost predicate SafeRun(s: State, es: seq<Event>, s': State)
    decreases |es|
  {
    if es == [] then s == s' else Enabled(s, es[0]) && Safe(s, es[0]) && SafeRun(Next(s, es[0]), es[1..], s')
  }

  /** The writes of a run: the records whose append completed. */
  ghost function Writes(es: seq<Event>): seq<Record> {
    if es == [] then [] else (if es[0].Append? then [es[0].r] else []) + Writes(es[1..])
  }

  lemma IssuedGrows(s: State, e: Event)
    requires Enabled(s, e)
    ensures Next(s, e).issued == s.issued + (if e.Append? then [e.r] else [])
  {
    hide Base, Encode, Recovered, Snap.SnapshotBytes;
  }

  lemma {:induction false} SafeRunKeeps(s: State, es: seq<Event>, s': State)
    requires Inv(s) && SafeRun(s, es, s')
    ensures Inv(s') && s'.issued == s.issued + Writes(es)
    decreases |es|
  {
    hide Inv, Safe, Enabled, Next;
    if es != [] {
      StepKeeps(s, es[0]);
      IssuedGrows(s, es[0]);
      SafeRunKeeps(Next(s, es[0]), es[1..], s');
    }
  }

  lemma InitialInv(s: State)
    requires Initial(s)
    ensures Inv(s)
  {
    hide ReadAll, Replayed, LastEffect, MapFits, Touches;
    NothingFits();
    RecoveredEmptyLog(s.disk);
    NothingPending(map[]);
  }

  /** Durability over whole runs: at every point of every safe run from an empty directory, with any
      interleaving of writers, snapshots, crashes and restarts, recovering the disk gives the plain map of
      all writes logged so far; memory with the writes in flight gives the same map, and so does memory
      alone once none is in flight. Only between unlink and rename does the disk lack the snapshot. */
  lemma DurableRuns(s0: State, es: seq<Event>, s: State)
    requires Initial(s0) && SafeRun(s0, es, s)
    ensures var m := Replayed(map[], Writes(es));
            && (!s.phase.Unlinked? ==> Recovered(s.disk) == m)
            && (s.up ==> Replayed(s.data, s.pending) == m)
            && (s.up && s.pending == [] ==> s.data == m)
  {
    hide Recovered, SafeRun, Snap.SnapshotBytes, Snap.ReadSnapshot;
    InitialInv(s0);
    SafeRunKeeps(s0, es, s);
    assert [] + Writes(es) == Writes(es);
  }

  // ---------- Exactly when the unenforced conditions matter ----------

  /** A crash between unlink and rename loses nothing exactly when the log touches every key of the old snapshot. */
  lemma CrashAfterUnlinkIff(s: State)
    requires Inv(s) && s.up && s.phase.Unlinked?
    ensures Durable(Crashed(s)) <==> forall k :: k in s.phase.before ==> Touches(ReadAll(s.disk.wal), k)
  {
    hide ReadAll, Replayed, LastEffect, Inv;
    WithoutSnapshot(s);
  }

  /** A writer that updates memory out of turn leaves memory right exactly when it overtakes no write to its key. */
  lemma ApplyOutOfTurnIff(s: State, i: nat)
    requires Inv(s) && Enabled(s, Apply(i))
    ensures Coherent(Next(s, Apply(i))) <==> !Overtakes(s.pending, i)
  {
    hide Replayed, LastEffect;
    ApplyFirstIff(s.data, s.pending, i);
  }

  /** Clearing the log behind a new snapshot keeps every write exactly when the writes in flight,
      which the snapshot does not have, would leave memory as it is. */
  lemma ClearWithPendingIff(s: State)
    requires Inv(s) && Enabled(s, Clear) && s.phase == Clearing(Replaced)
    ensures Durable(Next(s, Clear)) <==> Redundant(s.data, s.pending)
  {
    hide ReadAll, Base, Replayed, Redundant, PendingLogged, MapFits, Recovered;
    RecoveredEmptyLog(Next(s, Clear).disk);
    RedundantIff(s.data, s.pending);
  }

  /** Clearing the log of an empty map, for which no snapshot is written, is right exactly when
      the snapshot file left from before gives the empty map too. */
  lemma ClearEmptyIff(s: State)
    requires Inv(s) && Enabled(s, Clear) && s.phase == Clearing(EmptyMap) && s.pending == []
    ensures Durable(Next(s, Clear)) <==> Base(s.disk.snap) == map[]
  {
    hide ReadAll, Base, Replayed, PendingLogged, MapFits, Recovered;
    RecoveredEmptyLog(Next(s, Clear).disk);
    NothingPending(s.data);
  }

  /** A write appended behind a torn tail: what is read after the good records is what the tail and the new
      record decode to together, and the write is durable exactly when replaying that has the write's effect. */
  lemma AppendAfterTornIff(s: State, r: Record, t: Bytes)
    requires Inv(s) && Enabled(s, Append(r))
    requires s.disk.wal == Log(ReadAll(s.disk.wal)) + t
    ensures ReadAll(Next(s, Append(r)).disk.wal) == ReadAll(s.disk.wal) + ReadAll(t + Encode(r))
    ensures Durable(Next(s, Append(r))) <==> Replayed(Spec(s), ReadAll(t + Encode(r))) == ApplyRecord(Spec(s), r)
  {
    hide ReadAll, Base, Log, Encode, ApplyRecord, Replayed;
    var L := ReadAll(s.disk.wal);
    ReadAllSound(s.disk.wal);
    assert s.disk.wal + Encode(r) == Log(L) + (t + Encode(r));
    ReadAllOfLog(L, t + Encode(r));
    ReplayedConcat(Base(s.disk.snap), L, ReadAll(t + Encode(r)));
    ReplayedAppend(map[], s.issued, r);
  }

  /** Behind any torn tail that together with the new record decodes to nothing, the write is lost:
      it is durable exactly when it changes nothing. */
  lemma AppendAfterRefusedIff(s: State, r: Record, t: Bytes)
    requires Inv(s) && Enabled(s, Append(r))
    requires s.disk.wal == Log(ReadAll(s.disk.wal)) + t && Decode(t + Encode(r)) == None
    ensures Durable(Next(s, Append(r))) <==> ApplyRecord(Spec(s), r) == Spec(s)
  {
    hide Base, Log, Encode, ApplyRecord, Inv, Decode, Enabled, Next, Durable, Clean;
    AppendAfterTornIff(s, r, t);
  }

  /** Such a tail is a single torn byte in front of a write whose displaced length field points past the
      end of the file. */
  lemma AppendAfterTornByteIff(s: State, b: Byte, r: Record)
    requires Inv(s) && Enabled(s, Append(r)) && Fits(r)
    requires s.disk.wal == Log(ReadAll(s.disk.wal)) + [b]
    requires 9 + r.op + 256 * (|r.key| % 256) > 1 + |Encode(r)|
    ensures Durable(Next(s, Append(r))) <==> ApplyRecord(Spec(s), r) == Spec(s)
  {
    hide ReadAll, Base, Log, Encode, ApplyRecord, Inv, Decode;
    assert Encode(r) + [] == Encode(r);
    AppendAfterTornByte(b, r, []);
    AppendAfterRefusedIff(s, r, [b]);
  }

  /** So is a torn record that lacks more bytes than the new record has. */
  lemma AppendInsideTornIff(s: State, torn: Record, n: nat, r: Record)
    requires Inv(s) && Enabled(s, Append(r)) && Fits(torn)
    requires 9 + |torn.key| <= n && n + |Encode(r)| < |Encode(torn)|
    requires s.disk.wal == Log(ReadAll(s.disk.wal)) + Encode(torn)[..n]
    ensures Durable(Next(s, Append(r))) <==> ApplyRecord(Spec(s), r) == Spec(s)
  {
    hide ReadAll, Base, Log, Encode, ApplyRecord, Inv, Decode;
    AppendInsideTornRecord(torn, n, Encode(r));
    AppendAfterRefusedIff(s, r, Encode(torn)[..n]);
  }

  /** A torn record that the new record's first bytes fill up is decoded, filled in, exactly when that does not
      change its checksum; otherwise the new write is lost. */
  lemma AppendFillsTornIff(s: State, torn: Record, n: nat, r: Record)
    requires Inv(s) && Enabled(s, Append(r)) && Fits(torn)
    requires 9 + |torn.key| <= n < |Encode(torn)| <= n + |Encode(r)|
    requires s.disk.wal == Log(ReadAll(s.disk.wal)) + Encode(torn)[..n]
    ensures var got, m := Filled(torn, n, Encode(r)), |Encode(torn)| - n;
            if Crc32.Checksum(Body(got)) == Crc32.Checksum(Body(torn))
            then && ReadAll(Next(s, Append(r)).disk.wal) == ReadAll(s.disk.wal) + [got] + ReadAll(Encode(r)[m..])
                 && (Durable(Next(s, Append(r))) <==>
                     Replayed(ApplyRecord(Spec(s), got), ReadAll(Encode(r)[m..])) == ApplyRecord(Spec(s), r))
            else Durable(Next(s, Append(r))) <==> ApplyRecord(Spec(s), r) == Spec(s)
  {
    hide ReadAll, Base, Log, Encode, ApplyRecord, Inv, Decode, Filled, Body, Crc32.Checksum, Replayed;
    var m, t := |Encode(torn)| - n, Encode(torn)[..n];
    TornRecordFilled(torn, n, Encode(r));
    if Decode(t + Encode(r)) == None {
      AppendAfterRefusedIff(s, r, t);
    } else {
      AppendAfterTornIff(s, r, t);
      ReadAllUnfold(t + Encode(r));
      assert (t + Encode(r))[|Encode(torn)|..] == Encode(r)[m..];
      ReplayedFirst(Spec(s), Filled(torn, n, Encode(r)), ReadAll(Encode(r)[m..]));
    }
  }

  /** With at most four bytes missing no checksum collides: the torn write comes back if the new record starts
      with just those bytes, and otherwise the new write is lost. */
  lemma AppendCompletesTornIff(s: State, torn: Record, n: nat, r: Record)
    requires Inv(s) && Enabled(s, Append(r)) && Fits(torn)
    requires 9 + |torn.key| <= n < |Encode(torn)| <= n + 4
    requires s.disk.wal == Log(ReadAll(s.disk.wal)) + Encode(torn)[..n]
    ensures var m := |Encode(torn)| - n;
            if Encode(torn)[n..] == Encode(r)[..m]
            then && ReadAll(Next(s, Append(r)).disk.wal) == ReadAll(s.disk.wal) + [torn] + ReadAll(Encode(r)[m..])
                 && (Durable(Next(s, Append(r))) <==>
                     Replayed(ApplyRecord(Spec(s), torn), ReadAll(Encode(r)[m..])) == ApplyRecord(Spec(s), r))
            else Durable(Next(s, Append(r))) <==> ApplyRecord(Spec(s), r) == Spec(s)
  {
    hide ReadAll, Base, Log, Encode, ApplyRecord, Inv, Decode, Replayed;
    var m, t := |Encode(torn)| - n, Encode(torn)[..n];
    NearlyCompleteRecord(torn, n, Encode(r));
    if Encode(torn)[n..] == Encode(r)[..m] {
      AppendAfterTornIff(s, r, t);
      assert t + Encode(r) == Encode(torn) + Encode(r)[m..];
      ReadAllStep(torn, Encode(r)[m..]);
      ReplayedFirst(Spec(s), torn, ReadAll(Encode(r)[m..]));
    } else {
      AppendAfterRefusedIff(s, r, t);
    }
  }

  // ---------- Runs of whole operations ----------

  lemma {:induction false} RunConcat(s: State, es: seq<Event>, t: State, fs: seq<Event>, u: State)
    requires Run(s, es, t) && Run(t, fs, u)
    ensures Run(s, es + fs, u)
    decreases |es|
  {
    hide Enabled, Next;
    if es == [] {
      assert es + fs == fs;
    } else {
      assert (es + fs)[0] == es[0] && (es + fs)[1..] == es[1..] + fs;
      RunConcat(Next(s, es[0]), es[1..], t, fs, u);
    }
  }

  /** A write by the only writer: logged, then applied. */
  ghost function Written(s: State, r: Record): State {
    s.(disk := s.disk.(wal := s.disk.wal + Encode(r)), data := ApplyRecord(s.data, r), issued := s.issued + [r])
  }

  lemma WriteRun(s: State, r: Record)
    requires s.up && s.phase == Running && s.pending == [] && (r.op == SET || r.op == DEL)
    ensures Run(s, [Append(r), Apply(0)], Written(s, r))
  {
    hide Encode, ApplyRecord, Base, Recovered;
    var t := Next(s, Append(r));
    assert t.pending == [r];
    assert Without(t.pending, 0) == [];
    assert Next(t, Apply(0)) == Written(s, r);
    RunOne(t, Apply(0), [], Written(s, r));
    RunOne(s, Append(r), [Apply(0)], Written(s, r));
  }

  ghost function SnapshotEvents(es: seq<Entry>): seq<Event> {
    [BeginSnapshot(es), WriteChunk(|Snap.SnapshotBytes(es)|), Unlink, Rename, Clear]
  }

  /** The state after a snapshot of `es` replaced the log. */
  ghost function Snapshotted(s: State, es: seq<Entry>): State {
    s.(disk := Disk([], Some(Snap.SnapshotBytes(es)), None))
  }

  lemma SnapshotRun(s: State, es: seq<Entry>)
    requires Enabled(s, BeginSnapshot(es))
    ensures Run(s, SnapshotEvents(es), Snapshotted(s, es))
  {
    hide Base, Encode, Recovered, Snap.SnapshotBytes, Enumerates;
    var f := Snap.SnapshotBytes(es);
    var s1 := Next(s, BeginSnapshot(es));
    var s2 := Next(s1, WriteChunk(|f|));
    assert f[..|f|] == f;
    var s3 := Next(s2, Unlink);
    var s4 := Next(s3, Rename);
    var s5 := Next(s4, Clear);
    RunOne(s4, Clear, [], s5);
    RunOne(s3, Rename, [Clear], s5);
    RunOne(s2, Unlink, [Rename, Clear], s5);
    RunOne(s1, WriteChunk(|f|), [Unlink, Rename, Clear], s5);
    RunOne(s, BeginSnapshot(es), [WriteChunk(|f|), Unlink, Rename, Clear], s5);
  }

  /** The state after the log of an empty map was cleared without a snapshot. */
  ghost function Skipped(s: State): State {
    s.(disk := s.disk.(wal := []))
  }

  lemma SkipRun(s: State)
    requires Enabled(s, SkipEmpty)
    ensures Run(s, [SkipEmpty, Clear], Skipped(s))
  {
    hide Base, Encode, Recovered, Snap.SnapshotBytes;
    var t := Next(s, SkipEmpty);
    RunOne(t, Clear, [], Skipped(s));
    RunOne(s, SkipEmpty, [Clear], Skipped(s));
  }

  /** The condition on empty maps can fail: a map emptied after a snapshot and snapshotted again comes back. */
  lemma EmptiedMapReturns(k: Bytes, v: Bytes)
    requires |k| <= 65535 && |v| <= 65535
    ensures exists s0, es, s ::
              && Initial(s0) && Run(s0, es, s)
              && s.up && s.pending == [] && s.phase == Running
              && s.data == map[] && Recovered(s.disk) == map[k := v]
  {
    hide Base, Encode, Recovered, Snap.SnapshotBytes, Snap.ReadSnapshot, Run;
    var entries := [Snap.Entry(k, v)];
    var put, del := Record(SET, k, v), Record(DEL, k, []);
    var s0 := State(Disk([], None, None), true, map[], [], Running, []);
    WriteRun(s0, put);
    var s1 := Written(s0, put);
    assert s1.data == map[k := v];
    assert Enumerates(entries, s1.data);
    SnapshotRun(s1, entries);
    var s2 := Snapshotted(s1, entries);
    WriteRun(s2, del);
    var s3 := Written(s2, del);
    assert s3.data == map[];
    SkipRun(s3);
    var s5 := Skipped(s3);
    RunConcat(s2, [Append(del), Apply(0)], s3, [SkipEmpty, Clear], s5);
    var tail := [Append(del), Apply(0)] + [SkipEmpty, Clear];
    RunConcat(s1, SnapshotEvents(entries), s2, tail, s5);
    RunConcat(s0, [Append(put), Apply(0)], s1, SnapshotEvents(entries) + tail, s5);
    BaseOfWritten(entries, map[k := v]);
    RecoveredEmptyLog(s5.disk);
  }

  /** The state after two writers on an empty store logged `a` then `b` and updated memory in the other order. */
  ghost function Raced(s: State, a: Record, b: Record): State {
    s.(disk := s.disk.(wal := s.disk.wal + Encode(a) + Encode(b)),
       data := ApplyRecord(ApplyRecord(s.data, b), a), issued := s.issued + [a] + [b])
  }

  lemma RaceRun(s: State, a: Record, b: Record)
    requires s.up && s.phase == Running && s.pending == []
    requires (a.op == SET || a.op == DEL) && (b.op == SET || b.op == DEL)
    ensures Run(s, [Append(a), Append(b)] + [Apply(1), Apply(0)], Raced(s, a, b))
  {
    hide Encode, ApplyRecord, Base, Recovered, Run;
    var s1 := Next(s, Append(a));
    assert s1.pending == [a];
    var s2 := Next(s1, Append(b));
    assert s2.pending == [a, b];
    var s3 := Next(s2, Apply(1));
    assert Without([a, b], 1) == [a];
    assert Without([a], 0) == [];
    RunTwo(s2, Apply(1), Apply(0));
    RunTwo(s, Append(a), Append(b));
    RunConcat(s, [Append(a), Append(b)], s2, [Apply(1), Apply(0)], Raced(s, a, b));
  }

  /** Two writers on one key can leave memory and disk apart for good: the log has the second write last,
      memory the first. */
  lemma RacingWritersDiverge(k: Bytes, v: Bytes, w: Bytes)
    requires |k| <= 65535 && |v| <= 65535 && |w| <= 65535
    ensures exists s0, es, s ::
              && Initial(s0) && Run(s0, es, s)
              && s.up && s.pending == [] && s.phase == Running
              && s.data == map[k := v] && Recovered(s.disk) == map[k := w]
  {
    hide Base, Encode, Recovered, Run;
    var a, b := Record(SET, k, v), Record(SET, k, w);
    var s0 := State(Disk([], None, None), true, map[], [], Running, []);
    RaceRun(s0, a, b);
    var s := Raced(s0, a, b);
    assert s.data == map[k := v];
    RecoveredLog([a, b], s.disk);
  }

  /** A crash between unlink and rename can lose everything, even what an earlier snapshot held. */
  lemma CrashLosesSnapshot(k: Bytes, v: Bytes)
    requires |k| <= 65535 && |v| <= 65535
    ensures exists s0, es, s ::
              && Initial(s0) && Run(s0, es, s)
              && s.issued == [Record(SET, k, v)] && Recovered(s.disk) == map[]
  {
    hide Base, Encode, Recovered, Snap.SnapshotBytes, Snap.ReadSnapshot, Run;
    var put, entries := Record(SET, k, v), [Snap.Entry(k, v)];
    var s0 := State(Disk([], None, None), true, map[], [], Running, []);
    WriteRun(s0, put);
    var s1 := Written(s0, put);
    assert s1.data == map[k := v];
    assert Enumerates(entries, s1.data);
    SnapshotRun(s1, entries);
    var s2 := Snapshotted(s1, entries);
    var f := Snap.SnapshotBytes(entries);
    RunTwo(s2, BeginSnapshot(entries), WriteChunk(|f|));
    var s4 := Next(Next(s2, BeginSnapshot(entries)), WriteChunk(|f|));
    assert f[..|f|] == f;
    RunTwo(s4, Unlink, Crash);
    var s6 := Next(Next(s4, Unlink), Crash);
    RunConcat(s2, [BeginSnapshot(entries), WriteChunk(|f|)], s4, [Unlink, Crash], s6);
    var tail := [BeginSnapshot(entries), WriteChunk(|f|)] + [Unlink, Crash];
    RunConcat(s1, SnapshotEvents(entries), s2, tail, s6);
    RunConcat(s0, [Append(put), Apply(0)], s1, SnapshotEvents(entries) + tail, s6);
    RecoveredEmptyLog(s6.disk);
    NoSnapshot();
  }

  /** A snapshot taken while a write is logged but not yet in memory drops that write from the disk. */
  lemma SnapshotLosesWrite(k: Bytes, v: Bytes, j: Bytes, w: Bytes)
    requires k != j && |k| <= 65535 && |v| <= 65535 && |j| <= 65535 && |w| <= 65535
    ensures exists s0, es, s ::
              && Initial(s0) && Run(s0, es, s)
              && s.up && s.pending == [] && s.phase == Running
              && s.data == map[k := v, j := w] && Recovered(s.disk) == map[k := v]
  {
    hide Base, Encode, Recovered, Snap.SnapshotBytes, Snap.ReadSnapshot, Run;
    var put, late, entries := Record(SET, k, v), Record(SET, j, w), [Snap.Entry(k, v)];
    var s0 := State(Disk([], None, None), true, map[], [], Running, []);
    WriteRun(s0, put);
    var s1 := Written(s0, put);
    assert s1.data == map[k := v];
    var s2 := Next(s1, Append(late));
    assert s2.pending == [late];
    assert Enumerates(entries, s2.data);
    SnapshotRun(s2, entries);
    var s3 := Snapshotted(s2, entries);
    var s4 := Next(s3, Apply(0));
    assert s4.pending == [] && s4.data == map[k := v, j := w];
    RunStep(s1, Append(late));
    RunStep(s3, Apply(0));
    RunConcat(s2, SnapshotEvents(entries), s3, [Apply(0)], s4);
    RunConcat(s1, [Append(late)], s2, SnapshotEvents(entries) + [Apply(0)], s4);
    RunConcat(s0, [Append(put), Apply(0)], s1, [Append(late)] + (SnapshotEvents(entries) + [Apply(0)]), s4);
    BaseOfWritten(entries, map[k := v]);
    RecoveredEmptyLog(s4.disk);
  }

  /** A torn append is never repaired: after a crash that left one byte and a restart, a write with a key of up
      to 255 bytes and a value less than 255 times as long is in memory and not on disk. */
  lemma TornTailLosesWrite(torn: Record, k: Bytes, v: Bytes)
    requires Fits(torn) && 0 < |k| < 256 && |v| <= 65535 && |v| < 255 * |k|
    ensures exists s0, es, s ::
              && Initial(s0) && Run(s0, es, s)
              && s.up && s.pending == [] && s.phase == Running
              && s.data == map[k := v] && Recovered(s.disk) == map[]
  {
    hide Base, Encode, Recovered, Run, ReadAll, Decode;
    var put := Record(SET, k, v);
    var s0 := State(Disk([], None, None), true, map[], [], Running, []);
    var b := Encode(torn)[0];
    assert Encode(torn)[..1] == [b];
    var s2 := s0.(disk := Disk([b], None, None));
    RunTwo(s0, TornAppend(torn, 1), Restart);
    RecoveredTorn([b]);
    assert Next(Next(s0, TornAppend(torn, 1)), Restart) == s2;
    WriteRun(s2, put);
    var s4 := Written(s2, put);
    RunConcat(s0, [TornAppend(torn, 1), Restart], s2, [Append(put), Apply(0)], s4);
    assert s4.data == map[k := v];
    assert Encode(put) + [] == Encode(put);
    AppendAfterTornByte(b, put, []);
    RecoveredTorn(s4.disk.wal);
  }

  lemma RecoveredTorn(wal: Bytes)
    requires |wal| < 9 || ReadAll(wal) == []
    ensures Recovered(Disk(wal, None, None)) == map[]
  {
  }

  /** A snapshot whose file cannot be opened loses the log all the same. */
  lemma FailedSnapshotLosesWrites(k: Bytes, v: Bytes)
    ensures exists s0, es, s ::
              && Initial(s0) && Run(s0, es, s)
              && s.up && s.pending == [] && s.phase == Running
              && s.data == map[k := v] && Recovered(s.disk) == map[]
  {
    hide Base, Encode, Recovered, Run;
    var put := Record(SET, k, v);
    var s0 := State(Disk([], None, None), true, map[], [], Running, []);
    WriteRun(s0, put);
    var s1 := Written(s0, put);
    assert s1.data == map[k := v] && k in s1.data;
    RunTwo(s1, OpenFails, Clear);
    var s3 := Next(Next(s1, OpenFails), Clear);
    RunConcat(s0, [Append(put), Apply(0)], s1, [OpenFails, Clear], s3);
    RecoveredEmptyLog(s3.disk);
    NoSnapshot();
  }

  lemma RunStep(s: State, e: Event)
    requires Enabled(s, e)
    ensures Run(s, [e], Next(s, e))
  {
    hide Enabled, Next;
    assert [e][1..] == [];
  }

  lemma RunTwo(s: State, e: Event, f: Event)
    requires Enabled(s, e) && Enabled(Next(s, e), f)
    ensures Run(s, [e, f], Next(Next(s, e), f))
  {
    hide Enabled, Next;
    RunStep(Next(s, e), f);
    assert [e, f][1..] == [f];
  }

  lemma NoSnapshot()
    ensures Base(None) == map[]
  {
  }

  /** Recovering a log of two records without a snapshot. */
  lemma RecoveredLog(rs: seq<Record>, d: Disk)
    requires |rs| == 2 && AllFit(rs) && rs[0].key == rs[1].key && rs[1].op == SET
    requires d.wal == [] + Encode(rs[0]) + Encode(rs[1]) && d.snap == None && rs[0].op == SET
    ensures Recovered(d) == map[rs[1].key := rs[1].value]
  {
    hide Encode, ReadAll;
    LogOne(rs[0]);
    LogAppend([rs[0]], rs[1]);
    assert rs == [rs[0]] + [rs[1]];
    assert d.wal == Log(rs) + [];
    ReadAllOfLog(rs, []);
    ReadAllOfNothing();
    assert rs + [] == rs;
    ReplayedAppend(map[], [rs[0]], rs[1]);
    ReplayedAppend(map[], [], rs[0]);
    assert [] + [rs[0]] == [rs[0]];
  }

  lemma RunOne(s: State, e: Event, es: seq<Event>, s': State)
    requires Enabled(s, e) && Run(Next(s, e), es, s')
    ensures Run(s, [e] + es, s')
  {
    assert ([e] + es)[1..] == es;
  }
}
