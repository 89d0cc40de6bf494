/** What the files of a store come to, computed from its writes and their moments alone: a trail. It tells before
    any write is made which snapshots will be taken, what a restart will recover, and whether that is the map. */
module Trails {
  import opened Bytes
  import opened Options
  import opened WalCodec
  import opened Replay
  import opened Durability
  import opened Store
  import SlidingWindow
  import Snap = SnapshotCodec

  /** A write with the moment it is made at. */
  datatype Write = Write(r: Record, at: Moment)

  function RecordsOf(ws: seq<Write>): (rs: seq<Record>)
    ensures |rs| == |ws| && forall i :: 0 <= i < |ws| ==> rs[i] == ws[i].r
  {
    seq(|ws|, i requires 0 <= i < |ws| => ws[i].r)
  }

  /** What the snapshot file gives, what memory was when the log was last empty, the writes logged since, and the
      counters that decide the next snapshot. */
  datatype Trail = Trail(base: Map, from: Map, tail: seq<Record>, count: nat, stamps: seq<int>)

  /** The map in memory, and the map a restart would recover. */
  function Memory(c: Trail): Map {
    Replayed(c.from, c.tail)
  }

  function Restored(c: Trail): Map {
    Replayed(c.base, c.tail)
  }

  /** What the snapshot file gives after a snapshot of `m`. */
  function NewBase(base: Map, m: Map, fault: Fault): Map {
    if m == map[] then base else
    match fault
    case NoFault => m
    case RenameFault => map[]
    case _ => base
  }

  function Extended(c: Trail, w: Write): Trail {
    var tail := c.tail + [w.r];
    if Triggers(c.count, c.stamps, w.at) then
      var m := Replayed(c.from, tail);
      Trail(NewBase(c.base, m, w.at.fault), m, [], 0, [])
    else
      Trail(c.base, c.from, tail, c.count + 1, c.stamps + [w.at.now])
  }

  function TrailAfter(c: Trail, ws: seq<Write>): Trail
    decreases |ws|
  {
    if ws == [] then c else TrailAfter(Extended(c, ws[0]), ws[1..])
  }

  /** The process dies and starts again. */
  function Reopened(c: Trail): Trail {
    Trail(c.base, c.base, c.tail, 0, [])
  }

  const EMPTY: Trail := Trail(map[], map[], [], 0, [])

  // ---------- What survives ----------

  ghost predicate Kept(c: Trail) {
    Restored(c) == Memory(c)
  }

  /** A restart brings the map back exactly when the writes since the log was last empty decide every key on which
      the snapshot file and the memory of that time differ. */
  lemma KeptIff(c: Trail)
    ensures Kept(c) <==> forall k :: Touches(c.tail, k) || Get(c.base, k) == Get(c.from, k)
  {
    SameReplayIff(c.base, c.from, c.tail);
  }

  /** The write is followed by a snapshot that leaves a file not giving the map. */
  predicate LosesAt(c: Trail, w: Write) {
    && Triggers(c.count, c.stamps, w.at)
    && var m := Replayed(c.from, c.tail + [w.r]);
       NewBase(c.base, m, w.at.fault) != m
  }

  predicate Loses(c: Trail, ws: seq<Write>)
    decreases |ws|
  {
    ws != [] && (LosesAt(c, ws[0]) || Loses(Extended(c, ws[0]), ws[1..]))
  }

  lemma MemoryExtended(c: Trail, w: Write)
    ensures Memory(Extended(c, w)) == ApplyRecord(Memory(c), w.r)
  {
    hide ApplyRecord, Triggers;
    ReplayedAppend(c.from, c.tail, w.r);
  }

  lemma {:induction false} MemoryAfter(c: Trail, ws: seq<Write>)
    ensures Memory(TrailAfter(c, ws)) == Replayed(Memory(c), RecordsOf(ws))
    decreases |ws|
  {
    hide Extended, Memory, ApplyRecord;
    if ws != [] {
      MemoryExtended(c, ws[0]);
      MemoryAfter(Extended(c, ws[0]), ws[1..]);
      RecordsFirst(ws);
      ReplayedFirst(Memory(c), ws[0].r, RecordsOf(ws[1..]));
    }
  }

  lemma RecordsFirst(ws: seq<Write>)
    requires ws != []
    ensures RecordsOf(ws) == [ws[0].r] + RecordsOf(ws[1..])
  {
  }

  lemma RecordsConcat(ws: seq<Write>, vs: seq<Write>)
    ensures RecordsOf(ws + vs) == RecordsOf(ws) + RecordsOf(vs)
  {
  }

  /** From a trail that is kept, a write leads to one that is kept exactly when it does not lose anything. */
  lemma KeptExtendedIff(c: Trail, w: Write)
    requires Kept(c)
    ensures Kept(Extended(c, w)) <==> !LosesAt(c, w)
  {
    hide ApplyRecord, Triggers;
    ReplayedAppend(c.from, c.tail, w.r);
    ReplayedAppend(c.base, c.tail, w.r);
  }

  lemma {:induction false} KeptUnlessLost(c: Trail, ws: seq<Write>)
    requires Kept(c) && !Loses(c, ws)
    ensures Kept(TrailAfter(c, ws))
    decreases |ws|
  {
    hide Extended, Kept, LosesAt;
    if ws != [] {
      KeptExtendedIff(c, ws[0]);
      KeptUnlessLost(Extended(c, ws[0]), ws[1..]);
    }
  }

  lemma {:induction false} TrailConcat(c: Trail, ws: seq<Write>, vs: seq<Write>)
    ensures TrailAfter(c, ws + vs) == TrailAfter(TrailAfter(c, ws), vs)
    ensures Loses(c, ws + vs) <==> Loses(c, ws) || Loses(TrailAfter(c, ws), vs)
    decreases |ws|
  {
    hide Extended, LosesAt;
    if ws == [] {
      assert ws + vs == vs;
    } else {
      assert (ws + vs)[0] == ws[0] && (ws + vs)[1..] == ws[1..] + vs;
      TrailConcat(Extended(c, ws[0]), ws[1..], vs);
    }
  }

  // ---------- Writes that lose nothing ----------

  lemma {:induction false} CountAtMost(stamps: seq<int>, cutoff: int)
    ensures SlidingWindow.CountSince(stamps, cutoff) <= |stamps|
  {
    if stamps != [] {
      CountAtMost(stamps[1..], cutoff);
    }
  }

  /** Up to a hundred writes take no snapshot. */
  lemma {:induction false} FewWritesKeep(c: Trail, ws: seq<Write>)
    requires c.count == |c.stamps| && c.count + |ws| <= BURST_MAX_OPS
    ensures !Loses(c, ws)
    ensures TrailAfter(c, ws).base == c.base && TrailAfter(c, ws).from == c.from
    decreases |ws|
  {
    hide Replayed, SlidingWindow.CountSince;
    if ws != [] {
      CountAtMost(c.stamps + [ws[0].at.now], ws[0].at.later - BURST_WINDOW_MS);
      FewWritesKeep(Extended(c, ws[0]), ws[1..]);
    }
  }

  /** Where a snapshot is taken, files can be written and the map is not empty, unless the older file is. */
  ghost predicate Harmless(c: Trail, ws: seq<Write>)
    decreases |ws|
  {
    ws == [] ||
    (var m := ApplyRecord(Memory(c), ws[0].r);
     && (Triggers(c.count, c.stamps, ws[0].at) ==> if m == map[] then c.base == map[] else ws[0].at.fault == NoFault)
     && Harmless(Extended(c, ws[0]), ws[1..]))
  }

  lemma {:induction false} HarmlessKeeps(c: Trail, ws: seq<Write>)
    requires Harmless(c, ws)
    ensures !Loses(c, ws)
    decreases |ws|
  {
    hide ApplyRecord, Triggers, Extended, Replayed;
    if ws != [] {
      ReplayedAppend(c.from, c.tail, ws[0].r);
      HarmlessKeeps(Extended(c, ws[0]), ws[1..]);
    }
  }

  // ---------- Writes that lose something ----------

  lemma RepeatMore<T>(x: T, n: nat)
    ensures Repeat(x, n + 1) == Repeat(x, n) + [x]
  {
  }

  /** A hundred equal writes in the same instant take no snapshot. */
  lemma {:induction false} BurstTail(c: Trail, r: Record, n: nat)
    requires c.tail == [] && c.count == 0 && c.stamps == [] && n <= BURST_MAX_OPS
    ensures TrailAfter(c, Repeat(Write(r, Moment(0, 0, NoFault)), n)) ==
            Trail(c.base, c.from, Repeat(r, n), n, Repeat(0, n))
  {
    hide SlidingWindow.CountSince, Replayed;
    var w := Write(r, Moment(0, 0, NoFault));
    if n > 0 {
      BurstTail(c, r, n - 1);
      RepeatMore(w, n - 1);
      RepeatMore(r, n - 1);
      RepeatMore(0, n - 1);
      TrailConcat(c, Repeat(w, n - 1), [w]);
      CountAtMost(Repeat(0, n - 1) + [0], -BURST_WINDOW_MS);
      assert [w][1..] == [];
    }
  }

  lemma {:induction false} ReplayedRepeat(m: Map, r: Record, n: nat)
    requires n > 0
    ensures Replayed(m, Repeat(r, n)) == ApplyRecord(m, r)
  {
    RepeatMore(r, n - 1);
    ReplayedAppend(m, Repeat(r, n - 1), r);
    if n > 1 {
      ReplayedRepeat(m, r, n - 1);
    }
  }

  /** The next one does. */
  lemma BurstSnapshot(c: Trail, r: Record)
    requires c.tail == [] && c.count == 0 && c.stamps == []
    ensures var m := ApplyRecord(c.from, r);
            TrailAfter(c, Repeat(Write(r, Moment(0, 0, NoFault)), BURST_MAX_OPS + 1)) ==
            Trail(NewBase(c.base, m, NoFault), m, [], 0, [])
  {
    hide ApplyRecord, Replayed, SlidingWindow.CountSince;
    var w := Write(r, Moment(0, 0, NoFault));
    var n: nat := BURST_MAX_OPS;
    BurstTail(c, r, n);
    RepeatMore(w, n);
    RepeatMore(r, n);
    TrailConcat(c, Repeat(w, n), [w]);
    SlidingWindow.CountAll(Repeat(0, n) + [0], -BURST_WINDOW_MS);
    ReplayedRepeat(c.from, r, n + 1);
    assert [w][1..] == [];
  }

  /** A burst of SETs of a key followed by a burst of DELs of it: memory is empty, and a restart brings the key back. */
  lemma DeletedKeyReturns(k: Bytes, v: Bytes)
    ensures var at, n := Moment(0, 0, NoFault), BURST_MAX_OPS + 1;
            var sets, dels := Repeat(Write(Record(SET, k, v), at), n), Repeat(Write(Record(DEL, k, []), at), n);
            var c := TrailAfter(EMPTY, sets + dels);
            Memory(c) == map[] && Restored(c) == map[k := v]
  {
    hide TrailAfter;
    var at, n := Moment(0, 0, NoFault), BURST_MAX_OPS + 1;
    var sets, dels := Repeat(Write(Record(SET, k, v), at), n), Repeat(Write(Record(DEL, k, []), at), n);
    BurstSnapshot(EMPTY, Record(SET, k, v));
    assert ApplyRecord(map[], Record(SET, k, v)) == map[k := v];
    assert map[k := v] != map[] by {
      assert k in map[k := v];
    }
    var c := Trail(map[k := v], map[k := v], [], 0, []);
    BurstSnapshot(c, Record(DEL, k, []));
    assert ApplyRecord(map[k := v], Record(DEL, k, [])) == map[];
    TrailConcat(EMPTY, sets, dels);
    assert TrailAfter(EMPTY, sets + dels) == Trail(map[k := v], map[], [], 0, []);
  }

  // ---------- Sizes ----------

  lemma {:induction false} SizeAfter(m: Map, log: seq<Record>)
    ensures |Replayed(m, log)| <= |m| + |log|
    decreases |log|
  {
    if log != [] {
      SizeAfterOne(m, log[0]);
      SizeAfter(ApplyRecord(m, log[0]), log[1..]);
    }
  }

  lemma SizeAfterOne(m: Map, r: Record)
    ensures |ApplyRecord(m, r)| <= |m| + 1
  {
    assert m[r.key := r.value].Keys == m.Keys + {r.key};
    assert (m - {r.key}).Keys == m.Keys - {r.key};
  }

  /** The trail stems from at most `n` writes, all of which fit. */
  ghost predicate Within(c: Trail, n: nat) {
    && |c.base| + |c.tail| <= n && |c.from| + |c.tail| <= n
    && MapFits(c.base) && MapFits(c.from) && AllFit(c.tail)
  }

  lemma WithinExtended(c: Trail, w: Write, n: nat)
    requires Within(c, n) && Fits(w.r)
    ensures Within(Extended(c, w), n + 1)
  {
    hide Replayed, Triggers, MapFits;
    var tail := c.tail + [w.r];
    SizeAfter(c.from, tail);
    ReplayedFits(c.from, tail);
    NothingFits();
  }

  lemma FitsFirst(ws: seq<Write>)
    requires ws != [] && AllFit(RecordsOf(ws))
    ensures Fits(ws[0].r) && AllFit(RecordsOf(ws[1..]))
  {
    hide Fits;
    var rs := RecordsOf(ws);
    assert Fits(rs[0]);
    forall i | 0 <= i < |ws| - 1
      ensures Fits(ws[1..][i].r)
    {
      assert ws[1..][i].r == rs[i + 1];
    }
  }

  lemma {:induction false} WithinAfter(c: Trail, ws: seq<Write>, n: nat)
    requires Within(c, n) && AllFit(RecordsOf(ws))
    ensures Within(TrailAfter(c, ws), n + |ws|)
    decreases |ws|
  {
    hide Within, Extended, AllFit, RecordsOf, Fits;
    if ws != [] {
      FitsFirst(ws);
      WithinExtended(c, ws[0], n);
      WithinAfter(Extended(c, ws[0]), ws[1..], n + 1);
    }
  }

  lemma WithinRestored(c: Trail, n: nat)
    requires Within(c, n)
    ensures Within(Reopened(c), n) && MapFits(Memory(c)) && MapFits(Restored(c))
    ensures |Memory(c)| <= n && |Restored(c)| <= n
  {
    hide Replayed, MapFits;
    SizeAfter(c.from, c.tail);
    SizeAfter(c.base, c.tail);
    ReplayedFits(c.from, c.tail);
    ReplayedFits(c.base, c.tail);
  }

  lemma WithinEmpty()
    ensures Within(EMPTY, 0)
  {
  }

  // ---------- Trails and stores ----------

  /** A store between calls: its state and its counters. */
  datatype Sight = Sight(state: State, count: nat, stamps: seq<int>)

  /** The store is where the trail says. */
  ghost predicate Shows(x: Sight, c: Trail) {
    && ShowsDisk(x.state.disk, c)
    && x.state.data == Memory(c)
    && x.count == c.count && x.stamps == c.stamps
  }

  ghost predicate ShowsDisk(d: Disk, c: Trail) {
    d.wal == Log(c.tail) && AllFit(c.tail) && Base(d.snap) == c.base && Readable(d)
  }

  /** The disk recovers to what the trail says. */
  lemma ShownDisk(d: Disk, c: Trail)
    requires ShowsDisk(d, c)
    ensures Recovered(d) == Restored(c) && Clean(d.wal)
  {
    hide ReadAll, Replayed, Base, Readable;
    assert Log(c.tail) + [] == Log(c.tail);
    ReadAllOfLog(c.tail, []);
    ReadAllOfNothing();
    assert c.tail + [] == c.tail;
  }

  lemma ShownAgain(d: Disk, c: Trail, issued: seq<Record>)
    requires ShowsDisk(d, c)
    ensures Shows(Sight(State(d, true, Recovered(d), [], Running, issued), 0, []), Reopened(c))
  {
    hide Recovered, Readable, Base;
    ShownDisk(d, c);
  }

  lemma ShownEmpty()
    ensures ShowsDisk(Disk([], None, None), EMPTY)
  {
  }

  /** The file a snapshot leaves gives what the trail says. */
  lemma SnapBase(m: Map, before: Option<Bytes>, snap: Option<Bytes>, fault: Fault)
    requires MapFits(m) && |m| < TWO_TO_32 && SnapFile(m, before, snap, fault)
    ensures Base(snap) == NewBase(Base(before), m, fault)
    ensures forall wal, tmp :: Readable(Disk(wal, before, tmp)) ==> Readable(Disk([], snap, None))
  {
    hide Base, Snap.SnapshotBytes, Snap.ReadSnapshot, Enumerates, MapFits;
    NoSnapshot();
    if m != map[] && fault == NoFault {
      var es :| Enumerates(es, m) && |es| == |m| && snap == Some(Snap.SnapshotBytes(es));
      BaseOfWritten(es, m);
    }
  }

  lemma ReadableAnyway(d: Disk, e: Disk)
    requires Readable(d) && d.snap == e.snap
    ensures Readable(e)
  {
  }

  /** What a write of the store does to files and counters. */
  ghost predicate Wrote(x: Sight, y: Sight, w: Write, lost: bool) {
    var (d, e, m) := (x.state.disk, y.state.disk, y.state.data);
    if Triggers(x.count, x.stamps, w.at) then
      && y.count == 0 && y.stamps == [] && e.wal == []
      && SnapFile(m, d.snap, e.snap, w.at.fault)
      && (lost <==> (m == map[] || w.at.fault != NoFault) && Base(e.snap) != m)
    else
      && y.count == x.count + 1 && y.stamps == x.stamps + [w.at.now]
      && e.wal == d.wal + Encode(w.r) && e.snap == d.snap && !lost
  }

  /** A write of the store goes along the trail, and loses something exactly when the trail says so. */
  lemma ShownExtended(x: Sight, y: Sight, c: Trail, n: nat, w: Write, lost: bool)
    requires Shows(x, c) && Within(c, n) && Fits(w.r) && n + 1 < TWO_TO_32
    requires y.state.data == ApplyRecord(x.state.data, w.r)
    requires Wrote(x, y, w, lost)
    ensures Shows(y, Extended(c, w)) && (lost <==> LosesAt(c, w))
  {
    hide Triggers, Replayed, ApplyRecord, Base, Encode, SnapFile, Readable, MapFits;
    var tail := c.tail + [w.r];
    ReplayedAppend(c.from, c.tail, w.r);
    WithinExtended(c, w, n);
    WithinRestored(Extended(c, w), n + 1);
    MemoryExtended(c, w);
    if Triggers(x.count, x.stamps, w.at) {
      SnapBase(y.state.data, x.state.disk.snap, y.state.disk.snap, w.at.fault);
      NothingPending(y.state.data);
      ReadableAnyway(Disk([], y.state.disk.snap, None), y.state.disk);
    } else {
      LogAppend(c.tail, w.r);
      ReadableAnyway(x.state.disk, y.state.disk);
    }
  }
}
