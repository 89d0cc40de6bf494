/** What a stretch of the store's life amounts to: the writes it logged, the run of the state machine it made,
    and when that run was safe. Stretches can be put end to end. */
module Progress {
  import opened Bytes
  import opened WalCodec
  import opened Replay
  import opened Durability
  import opened Store
  import opened Trails

  /** Writes `log` on a store in state `s` are safe: the state is sound, the log ends with a complete record, the
      writes fit, the map stays countable, and nothing was lost by clearing the log. */
  ghost predicate Good(s: State, log: seq<Record>, lost: bool) {
    Inv(s) && Clean(s.disk.wal) && AllFit(log) && |s.data| + |log| < TWO_TO_32 && !lost
  }

  /** The store as it is between calls. */
  ghost function Seen(store: PersistentKvStore): Sight
    reads store, store.wal, store.window
  {
    Sight(store.View(), store.opCount, store.window.stamps)
  }

  /** Wherever the store was on a trail, it has gone along it, and something was lost exactly when the trail says so. */
  ghost predicate Foretold(x: Sight, y: Sight, ws: seq<Write>, lost: bool) {
    forall c, n: nat :: Shows(x, c) && Within(c, n) && AllFit(RecordsOf(ws)) && n + |ws| < TWO_TO_32 ==>
                     Shows(y, TrailAfter(c, ws)) && (lost <==> Loses(c, ws))
  }

  /** From `x` the store went by the system calls `evs` to `y`, making the writes `ws`. */
  ghost predicate Went(x: Sight, evs: seq<Event>, y: Sight, ws: seq<Write>, lost: bool) {
    var log := RecordsOf(ws);
    && y.state.issued == x.state.issued + log
    && y.state.data == Replayed(x.state.data, log)
    && Traced(x.state, evs, y.state, Good(x.state, log, lost))
    && (Good(x.state, log, lost) ==> Clean(y.state.disk.wal))
    && Foretold(x, y, ws, lost)
  }

  lemma WentNowhere(x: Sight)
    ensures Went(x, [], x, [], false)
  {
    hide Inv, Clean, Shows, Within;
    TracedNothing(x.state, Good(x.state, [], false));
    assert RecordsOf([]) == [];
    assert x.state.issued + [] == x.state.issued;
  }

  lemma {:induction false} SafeRunConcat(s: State, es: seq<Event>, t: State, fs: seq<Event>, u: State)
    requires SafeRun(s, es, t) && SafeRun(t, fs, u)
    ensures SafeRun(s, es + fs, u)
    decreases |es|
  {
    hide Enabled, Next, Safe;
    if es == [] {
      assert es + fs == fs;
    } else {
      assert (es + fs)[0] == es[0] && (es + fs)[1..] == es[1..] + fs;
      SafeRunConcat(Next(s, es[0]), es[1..], t, fs, u);
    }
  }

  lemma TracedConcat(s: State, es: seq<Event>, t: State, fs: seq<Event>, u: State, good: bool)
    requires Traced(s, es, t, good) && Traced(t, fs, u, good)
    ensures Traced(s, es + fs, u, good)
  {
    hide Run, SafeRun, Inv;
    RunConcat(s, es, t, fs, u);
    if good {
      SafeRunConcat(s, es, t, fs, u);
    }
  }

  /** If the whole is good, so are the parts. */
  lemma GoodParts(s: State, es: seq<Event>, t: State, a: seq<Record>, b: seq<Record>, lost: bool, more: bool)
    requires Good(s, a + b, lost || more)
    requires t.data == Replayed(s.data, a) && Traced(s, es, t, Good(s, a, lost))
    requires Good(s, a, lost) ==> Clean(t.disk.wal)
    ensures Good(s, a, lost) && Good(t, b, more)
  {
    hide Inv, Clean, Run, SafeRun, Replayed;
    assert forall i :: 0 <= i < |a| ==> (a + b)[i] == a[i];
    assert forall i :: 0 <= i < |b| ==> (a + b)[|a| + i] == b[i];
    SizeAfter(s.data, a);
  }

  lemma FitParts(a: seq<Record>, b: seq<Record>)
    requires AllFit(a + b)
    ensures AllFit(a) && AllFit(b)
  {
    assert forall i :: 0 <= i < |a| ==> (a + b)[i] == a[i];
    assert forall i :: 0 <= i < |b| ==> (a + b)[|a| + i] == b[i];
  }

  lemma ForetoldOn(x: Sight, y: Sight, z: Sight, ws: seq<Write>, lost: bool, vs: seq<Write>, more: bool)
    requires Foretold(x, y, ws, lost) && Foretold(y, z, vs, more)
    ensures Foretold(x, z, ws + vs, lost || more)
  {
    hide Shows, Within, TrailAfter, Loses, AllFit;
    RecordsConcat(ws, vs);
    forall c, n: nat | Shows(x, c) && Within(c, n) && AllFit(RecordsOf(ws + vs)) && n + |ws + vs| < TWO_TO_32
      ensures Shows(z, TrailAfter(c, ws + vs)) && (lost || more <==> Loses(c, ws + vs))
    {
      FitParts(RecordsOf(ws), RecordsOf(vs));
      TrailConcat(c, ws, vs);
      WithinAfter(c, ws, n);
      assert Within(TrailAfter(c, ws), n + |ws|);
    }
  }

  /** One stretch after the other. */
  lemma WentOn(x: Sight, es: seq<Event>, y: Sight, ws: seq<Write>, lost: bool,
               fs: seq<Event>, z: Sight, vs: seq<Write>, more: bool)
    requires Went(x, es, y, ws, lost) && Went(y, fs, z, vs, more)
    ensures Went(x, es + fs, z, ws + vs, lost || more)
  {
    hide Good, Traced, Clean, Foretold, Replayed, RecordsOf;
    var (s, t, u) := (x.state, y.state, z.state);
    var a, b := RecordsOf(ws), RecordsOf(vs);
    RecordsConcat(ws, vs);
    var good := Good(s, a + b, lost || more);
    ReplayedConcat(s.data, a, b);
    assert s.issued + a + b == s.issued + (a + b);
    if good {
      GoodParts(s, es, t, a, b, lost, more);
    }
    WeakenTrace(s, es, t, Good(s, a, lost), good);
    WeakenTrace(t, fs, u, Good(t, b, more), good);
    TracedConcat(s, es, t, fs, u, good);
    ForetoldOn(x, y, z, ws, lost, vs, more);
  }

  /** A single write of the store. */
  lemma WentOneWrite(x: Sight, evs: seq<Event>, y: Sight, w: Write, lost: bool)
    requires y.state.issued == x.state.issued + [w.r] && y.state.data == ApplyRecord(x.state.data, w.r)
    requires var s := x.state;
             var good := Inv(s) && Clean(s.disk.wal) && Fits(w.r) && |ApplyRecord(s.data, w.r)| < TWO_TO_32 && !lost;
             Traced(s, evs, y.state, good) && (good ==> Clean(y.state.disk.wal))
    requires Wrote(x, y, w, lost)
    ensures Went(x, evs, y, [w], lost)
  {
    hide Inv, Clean, Traced, ApplyRecord, Foretold, Wrote;
    var s, r := x.state, w.r;
    var good := Inv(s) && Clean(s.disk.wal) && Fits(r) && |ApplyRecord(s.data, r)| < TWO_TO_32 && !lost;
    assert RecordsOf([w]) == [r];
    assert [] + [r] == [r];
    ReplayedAppend(s.data, [], r);
    SizeAfterOne(s.data, r);
    assert AllFit([r]) ==> Fits([r][0]);
    WeakenTrace(s, evs, y.state, good, Good(s, [r], lost));
    ForetoldOneWrite(x, y, w, lost);
  }

  lemma ForetoldOneWrite(x: Sight, y: Sight, w: Write, lost: bool)
    requires y.state.data == ApplyRecord(x.state.data, w.r) && Wrote(x, y, w, lost)
    ensures Foretold(x, y, [w], lost)
  {
    hide Shows, Within, Extended, LosesAt, ApplyRecord;
    forall c, n: nat | Shows(x, c) && Within(c, n) && AllFit(RecordsOf([w])) && n + |[w]| < TWO_TO_32
      ensures Shows(y, TrailAfter(c, [w])) && (lost <==> Loses(c, [w]))
    {
      assert Fits(RecordsOf([w])[0]);
      ShownExtended(x, y, c, n, w, lost);
      assert [w][1..] == [];
    }
  }

  lemma {:induction false} RunIssued(s: State, evs: seq<Event>, t: State)
    requires Run(s, evs, t)
    ensures t.issued == s.issued + Writes(evs)
    decreases |evs|
  {
    hide Enabled, Next;
    if evs != [] {
      IssuedGrows(s, evs[0]);
      RunIssued(Next(s, evs[0]), evs[1..], t);
    }
  }

  /** A good stretch was a safe run of just these writes, and at its end recovering the disk gives the map. */
  lemma WentSafely(x: Sight, evs: seq<Event>, y: Sight, ws: seq<Write>, lost: bool)
    requires Went(x, evs, y, ws, lost) && Good(x.state, RecordsOf(ws), lost)
    requires y.state.up && y.state.phase == Running && y.state.pending == []
    ensures SafeRun(x.state, evs, y.state) && Inv(y.state) && Clean(y.state.disk.wal) && Writes(evs) == RecordsOf(ws)
    ensures Recovered(y.state.disk) == y.state.data == Replayed(map[], y.state.issued)
  {
    hide Good, Clean, Run, SafeRun, Inv, Recovered, Replayed, Foretold;
    var s, t := x.state, y.state;
    TracedInv(s, evs, t);
    TracedDurable(s, evs, t);
    RunIssued(s, evs, t);
    assert t.issued[|s.issued|..] == RecordsOf(ws);
    assert t.issued[|s.issued|..] == Writes(evs);
  }
}
