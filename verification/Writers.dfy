/** Interleaved writers (persistent_kv_store.cpp): when writers in flight keep to distinct keys and snapshots
    wait for them, every run is safe. */
module Writers {
  import opened Bytes
  import opened WalCodec
  import opened Replay
  import opened Durability

  /** Steps of such a run. Nothing is asked of the order in which writers update memory, of the snapshot's
      content, or of clearing the log. */
  ghost predicate Orderly(s: State, e: Event)
    requires Enabled(s, e)
  {
    match e
    case Append(r) => Fits(r) && Clean(s.disk.wal) && (forall p :: p in s.pending ==> p.key != r.key)
    case TornAppend(r, _) => Fits(r) && Clean(s.disk.wal)
    case ShortWrite(r, _) => Fits(r) && Clean(s.disk.wal)
    case BeginSnapshot(es) => s.pending == [] && |es| < TWO_TO_32
    case SkipEmpty => s.pending == [] && Base(s.disk.snap) == map[]
    case OpenFails => false
    case WriteFails => false
    case RenameFails => false
    case Crash => s.phase.Unlinked? ==> forall k :: k in s.phase.before ==> Touches(ReadAll(s.disk.wal), k)
    case _ => true
  }

  ghost predicate OrderlyRun(s: State, es: seq<Event>, s': State)
    decreases |es|
  {
    if es == [] then s == s' else Enabled(s, es[0]) && Orderly(s, es[0]) && OrderlyRun(Next(s, es[0]), es[1..], s')
  }

  /** Writers in flight have distinct keys, and there are none while a snapshot is taken. */
  ghost predicate Apart(s: State) {
    && DistinctKeys(s.pending)
    && (s.phase != Running ==> s.pending == [])
    && s.phase != Clearing(NotWritten)
    && (s.phase == Clearing(EmptyMap) ==> Base(s.disk.snap) == map[])
  }

  lemma WithoutDistinct(rs: seq<Record>, i: nat)
    requires DistinctKeys(rs) && i < |rs|
    ensures DistinctKeys(Without(rs, i))
  {
  }

  lemma OrderlyApart(s: State, e: Event)
    requires Apart(s) && Enabled(s, e) && Orderly(s, e)
    ensures Apart(Next(s, e))
  {
    hide Encode, Base, Recovered, ReadAll, Snap.SnapshotBytes, Enumerates, ApplyRecord, Without;
    if e.Apply? {
      WithoutDistinct(s.pending, e.i);
    }
  }

  lemma OrderlySafe(s: State, e: Event)
    requires Apart(s) && Enabled(s, e) && Orderly(s, e)
    ensures Safe(s, e)
  {
    hide Encode, Base, Recovered, ReadAll, Snap.SnapshotBytes, Enumerates, Overtakes, LastEffect;
    if e.Apply? {
      DistinctNeverOvertakes(s.pending, e.i);
    }
  }

  lemma {:induction false} OrderlyRunSafe(s: State, es: seq<Event>, s': State)
    requires Apart(s) && OrderlyRun(s, es, s')
    ensures SafeRun(s, es, s') && Apart(s')
    decreases |es|
  {
    hide Apart, Enabled, Next, Orderly, Safe;
    if es != [] {
      OrderlyApart(s, es[0]);
      OrderlySafe(s, es[0]);
      OrderlyRunSafe(Next(s, es[0]), es[1..], s');
    }
  }

  /** Every orderly run from an empty directory is safe, and at its end recovering the disk gives memory with
      the writes in flight applied in any order whatever: the plain map of all writes logged. */
  lemma OrderlyRuns(s0: State, es: seq<Event>, s: State, order: seq<Record>)
    requires Initial(s0) && OrderlyRun(s0, es, s) && multiset(order) == multiset(s.pending)
    ensures SafeRun(s0, es, s)
    ensures s.up ==> Replayed(s.data, order) == Replayed(map[], Writes(es))
    ensures !s.phase.Unlinked? ==> Recovered(s.disk) == Replayed(map[], Writes(es))
  {
    hide SafeRun, OrderlyRun, Replayed, Recovered, Writes;
    OrderlyRunSafe(s0, es, s);
    DurableRuns(s0, es, s);
    AnyOrder(s.data, s.pending, order);
  }
}
