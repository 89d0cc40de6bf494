/** The mutexes of the server and the store, and why threads that take them in order never deadlock.
    A thread is the list of lock actions it still has to do; threads interleave freely. */
module Locks {

  // Locks are numbered in the order in which they are taken: the 16 connection shards
  // (kv_server.h), the log, the map, the burst window (persistent_kv_store.cpp).
  const SHARDS: nat := 16
  const WAL_MUTEX: nat := 16
  const STORE_MUTEX: nat := 17
  const WINDOW_MUTEX: nat := 18
  const LOCKS: nat := 19

  datatype Mode = Exclusive | Shared
  datatype Action = Acquire(lock: nat, mode: Mode) | Release(lock: nat)
  datatype Thread = Thread(held: map<nat, Mode>, todo: seq<Action>)
  type System = seq<Thread>

  // ---------- The code's lock actions ----------

  datatype Call = Write(snapshot: bool) | Read

  function Guarded(lock: nat, mode: Mode): seq<Action> {
    [Acquire(lock, mode), Release(lock)]
  }

  /** `CreateSnapshot`: log, then map, then window, released in reverse. */
  function SnapshotActions(): seq<Action> {
    [Acquire(WAL_MUTEX, Exclusive), Acquire(STORE_MUTEX, Exclusive), Acquire(WINDOW_MUTEX, Exclusive),
     Release(WINDOW_MUTEX), Release(STORE_MUTEX), Release(WAL_MUTEX)]
  }

  /** `Set` and `Delete` append, update, stamp and check the window, each under its own lock;
      `Get`, `Exists` and `AllKeys` share the map lock. */
  function CallActions(c: Call): seq<Action> {
    match c
    case Write(snapshot) =>
      Guarded(WAL_MUTEX, Exclusive) + Guarded(STORE_MUTEX, Exclusive)
      + Guarded(WINDOW_MUTEX, Exclusive) + Guarded(WINDOW_MUTEX, Exclusive)
      + (if snapshot then SnapshotActions() else [])
    case Read => Guarded(STORE_MUTEX, Shared)
  }

  function CallsActions(cs: seq<Call>): seq<Action> {
    if cs == [] then [] else CallActions(cs[0]) + CallsActions(cs[1..])
  }

  /** The message handler holds its connection's shard while it runs the commands of a message. */
  function HandlerActions(shard: nat, cs: seq<Call>): seq<Action> {
    [Acquire(shard, Exclusive)] + CallsActions(cs) + [Release(shard)]
  }

  // ---------- Steps ----------

  predicate Holds(t: Thread, lock: nat) {
    lock in t.held
  }

  predicate WantsExclusive(t: Thread, lock: nat) {
    t.todo != [] && t.todo[0] == Acquire(lock, Exclusive)
  }

  /** Thread i can do its next action. With `writersFirst` a shared request also waits behind
      exclusive requests, as an implementation of `shared_mutex` may choose. */
  ghost predicate CanStep(sys: System, i: nat, writersFirst: bool)
    requires i < |sys|
  {
    && sys[i].todo != []
    && match sys[i].todo[0]
       case Release(l) => true
       case Acquire(l, Exclusive) => forall j :: 0 <= j < |sys| ==> !Holds(sys[j], l)
       case Acquire(l, Shared) =>
         && (forall j :: 0 <= j < |sys| ==> Holds(sys[j], l) ==> sys[j].held[l] == Shared)
         && (writersFirst ==> forall j :: 0 <= j < |sys| ==> !WantsExclusive(sys[j], l))
  }

  function AfterAction(t: Thread): Thread
    requires t.todo != []
  {
    match t.todo[0]
    case Acquire(l, m) => Thread(t.held[l := m], t.todo[1..])
    case Release(l) => Thread(t.held - {l}, t.todo[1..])
  }

  function Step(sys: System, i: nat): System
    requires i < |sys| && sys[i].todo != []
  {
    sys[i := AfterAction(sys[i])]
  }

  // ---------- Lock order ----------

  /** From here on the thread takes locks only above those it holds, releases only what it holds,
      and ends holding nothing. */
  ghost predicate Ordered(t: Thread)
    decreases |t.todo|
  {
    if t.todo == [] then t.held == map[] else
    match t.todo[0]
    case Acquire(l, m) => l < LOCKS && (forall h :: h in t.held ==> h < l) && Ordered(AfterAction(t))
    case Release(l) => l in t.held && Ordered(AfterAction(t))
  }

  ghost predicate Inv(sys: System) {
    forall i :: 0 <= i < |sys| ==> Ordered(sys[i])
  }

  ghost predicate Finished(sys: System) {
    forall i :: 0 <= i < |sys| ==> sys[i].todo == []
  }

  lemma StepKeeps(sys: System, i: nat)
    requires Inv(sys) && i < |sys| && sys[i].todo != []
    ensures Inv(Step(sys, i))
  {
    assert Ordered(sys[i]);
  }

  /** Some thread can go on: follow each blocked thread to one that holds the lock it waits for,
      which itself can only wait for a higher lock. */
  lemma {:induction false} FindRunnable(sys: System, i: nat, writersFirst: bool, above: nat) returns (j: nat)
    requires Inv(sys) && i < |sys| && sys[i].todo != []
    requires sys[i].todo[0].Acquire? ==> above <= sys[i].todo[0].lock
    ensures j < |sys| && CanStep(sys, j, writersFirst)
    decreases LOCKS - above
  {
    assert Ordered(sys[i]);
    if CanStep(sys, i, writersFirst) {
      return i;
    }
    var l := sys[i].todo[0].lock;
    if h: nat :| h < |sys| && Holds(sys[h], l) {
      assert Ordered(sys[h]);
      j := FindRunnable(sys, h, writersFirst, l + 1);
    } else {
      var w: nat :| w < |sys| && WantsExclusive(sys[w], l);
      j := w;
    }
  }

  /** A system in which some thread is unfinished is never stuck, whichever policy the shared lock has. */
  lemma NoDeadlock(sys: System, writersFirst: bool)
    requires Inv(sys) && !Finished(sys)
    ensures exists j :: 0 <= j < |sys| && CanStep(sys, j, writersFirst)
  {
    var i: nat :| i < |sys| && sys[i].todo != [];
    var j := FindRunnable(sys, i, writersFirst, 0);
  }

  // ---------- Whole runs ----------

  ghost predicate Run(sys: System, schedule: seq<nat>, sys': System, writersFirst: bool)
    decreases |schedule|
  {
    if schedule == [] then sys == sys' else
    && schedule[0] < |sys|
    && CanStep(sys, schedule[0], writersFirst)
    && Run(Step(sys, schedule[0]), schedule[1..], sys', writersFirst)
  }

  function Work(sys: System): nat {
    if sys == [] then 0 else |sys[0].todo| + Work(sys[1..])
  }

  lemma {:induction false} WorkShrinks(sys: System, i: nat)
    requires i < |sys| && sys[i].todo != []
    ensures Work(Step(sys, i)) == Work(sys) - 1
  {
    var next := Step(sys, i);
    if i == 0 {
      assert next[1..] == sys[1..];
    } else {
      assert next[1..] == Step(sys[1..], i - 1);
      WorkShrinks(sys[1..], i - 1);
    }
  }

  lemma {:induction false} RunKeeps(sys: System, schedule: seq<nat>, sys': System, writersFirst: bool)
    requires Inv(sys) && Run(sys, schedule, sys', writersFirst)
    ensures Inv(sys') && |sys'| == |sys| && Work(sys') == Work(sys) - |schedule|
    decreases |schedule|
  {
    hide Inv, Ordered;
    if schedule != [] {
      StepKeeps(sys, schedule[0]);
      WorkShrinks(sys, schedule[0]);
      RunKeeps(Step(sys, schedule[0]), schedule[1..], sys', writersFirst);
    }
  }

  // ---------- Mutual exclusion ----------

  /** A lock held exclusively is held by one thread only. */
  ghost predicate Exclusion(sys: System) {
    forall i, j, l :: 0 <= i < |sys| && 0 <= j < |sys| && i != j && Holds(sys[i], l) && Holds(sys[j], l) ==>
                        sys[i].held[l] == Shared && sys[j].held[l] == Shared
  }

  lemma StepExcludes(sys: System, i: nat, writersFirst: bool)
    requires Exclusion(sys) && i < |sys| && CanStep(sys, i, writersFirst)
    ensures Exclusion(Step(sys, i))
  {
    var next := Step(sys, i);
    assert forall j :: 0 <= j < |sys| && j != i ==> next[j] == sys[j];
  }

  /** Over every run of threads that start without locks. */
  lemma {:induction false} MutualExclusion(sys: System, schedule: seq<nat>, sys': System, writersFirst: bool)
    requires Exclusion(sys) && Run(sys, schedule, sys', writersFirst)
    ensures Exclusion(sys')
    decreases |schedule|
  {
    hide Exclusion;
    if schedule != [] {
      StepExcludes(sys, schedule[0], writersFirst);
      MutualExclusion(Step(sys, schedule[0]), schedule[1..], sys', writersFirst);
    }
  }

  // ---------- The code keeps the order ----------

  lemma AcquireThen(held: map<nat, Mode>, l: nat, m: Mode, rest: seq<Action>)
    requires l < LOCKS && (forall h :: h in held ==> h < l) && Ordered(Thread(held[l := m], rest))
    ensures Ordered(Thread(held, [Acquire(l, m)] + rest))
  {
    var t := Thread(held, [Acquire(l, m)] + rest);
    assert t.todo[1..] == rest;
  }

  lemma ReleaseThen(held: map<nat, Mode>, l: nat, m: Mode, rest: seq<Action>)
    requires l !in held && Ordered(Thread(held, rest))
    ensures Ordered(Thread(held[l := m], [Release(l)] + rest))
  {
    var t := Thread(held[l := m], [Release(l)] + rest);
    assert t.todo[1..] == rest;
    assert held[l := m] - {l} == held;
  }

  /** A lock taken and released in front of ordered actions keeps them ordered. */
  lemma GuardedThen(held: map<nat, Mode>, l: nat, m: Mode, rest: seq<Action>)
    requires l < LOCKS && (forall h :: h in held ==> h < l)
    requires Ordered(Thread(held, rest))
    ensures Ordered(Thread(held, Guarded(l, m) + rest))
  {
    hide Ordered;
    ReleaseThen(held, l, m, rest);
    AcquireThen(held, l, m, [Release(l)] + rest);
    assert Guarded(l, m) + rest == [Acquire(l, m)] + ([Release(l)] + rest);
  }

  lemma SnapshotThen(held: map<nat, Mode>, rest: seq<Action>)
    requires (forall h :: h in held ==> h < WAL_MUTEX) && Ordered(Thread(held, rest))
    ensures Ordered(Thread(held, SnapshotActions() + rest))
  {
    hide Ordered;
    var h1 := held[WAL_MUTEX := Exclusive];
    var h2 := h1[STORE_MUTEX := Exclusive];
    var tail1 := [Release(WAL_MUTEX)] + rest;
    ReleaseThen(held, WAL_MUTEX, Exclusive, rest);
    var tail2 := [Release(STORE_MUTEX)] + tail1;
    ReleaseThen(h1, STORE_MUTEX, Exclusive, tail1);
    var all2 := Guarded(WINDOW_MUTEX, Exclusive) + tail2;
    GuardedThen(h2, WINDOW_MUTEX, Exclusive, tail2);
    var all1 := [Acquire(STORE_MUTEX, Exclusive)] + all2;
    AcquireThen(h1, STORE_MUTEX, Exclusive, all2);
    AcquireThen(held, WAL_MUTEX, Exclusive, all1);
    assert [Acquire(WAL_MUTEX, Exclusive)] + all1 == SnapshotActions() + rest;
  }

  lemma CallThen(held: map<nat, Mode>, c: Call, rest: seq<Action>)
    requires (forall h :: h in held ==> h < WAL_MUTEX) && Ordered(Thread(held, rest))
    ensures Ordered(Thread(held, CallActions(c) + rest))
  {
    hide Ordered;
    match c
    case Read => GuardedThen(held, STORE_MUTEX, Shared, rest);
    case Write(snapshot) =>
      var tail := (if snapshot then SnapshotActions() else []) + rest;
      if snapshot {
        SnapshotThen(held, rest);
      } else {
        assert tail == rest;
      }
      var g := Guarded(WINDOW_MUTEX, Exclusive);
      GuardedThen(held, WINDOW_MUTEX, Exclusive, tail);
      GuardedThen(held, WINDOW_MUTEX, Exclusive, g + tail);
      GuardedThen(held, STORE_MUTEX, Exclusive, g + (g + tail));
      GuardedThen(held, WAL_MUTEX, Exclusive, Guarded(STORE_MUTEX, Exclusive) + (g + (g + tail)));
      assert CallActions(c) + rest ==
             Guarded(WAL_MUTEX, Exclusive) + (Guarded(STORE_MUTEX, Exclusive) + (g + (g + tail)));
  }

  lemma {:induction false} CallsThen(held: map<nat, Mode>, cs: seq<Call>, rest: seq<Action>)
    requires (forall h :: h in held ==> h < WAL_MUTEX) && Ordered(Thread(held, rest))
    ensures Ordered(Thread(held, CallsActions(cs) + rest))
    decreases |cs|
  {
    hide Ordered, CallActions;
    if cs == [] {
      assert CallsActions(cs) + rest == rest;
    } else {
      CallsThen(held, cs[1..], rest);
      CallThen(held, cs[0], CallsActions(cs[1..]) + rest);
      assert CallsActions(cs) + rest == CallActions(cs[0]) + (CallsActions(cs[1..]) + rest);
    }
  }

  /** A message on any shard, with any commands, takes its locks in order and releases them all. */
  lemma HandlerThen(shard: nat, cs: seq<Call>, rest: seq<Action>)
    requires shard < SHARDS && Ordered(Thread(map[], rest))
    ensures Ordered(Thread(map[], HandlerActions(shard, cs) + rest))
  {
    hide Ordered, CallsActions;
    var held := map[shard := Exclusive];
    assert map[][shard := Exclusive] == held;
    var last := [Release(shard)] + rest;
    ReleaseThen(map[], shard, Exclusive, rest);
    CallsThen(held, cs, last);
    AcquireThen(map[], shard, Exclusive, CallsActions(cs) + last);
    assert HandlerActions(shard, cs) + rest == [Acquire(shard, Exclusive)] + (CallsActions(cs) + last);
  }

  /** A message: the connection's shard and the store calls of its commands. */
  datatype Message = Message(shard: nat, calls: seq<Call>)

  /** A thread of the pool handles one message after another, of any connections. */
  function MessagesActions(ms: seq<Message>): seq<Action> {
    if ms == [] then [] else HandlerActions(ms[0].shard, ms[0].calls) + MessagesActions(ms[1..])
  }

  lemma {:induction false} HandlerOrdered(ms: seq<Message>)
    requires forall m :: m in ms ==> m.shard < SHARDS
    ensures Ordered(Thread(map[], MessagesActions(ms)))
    decreases |ms|
  {
    hide HandlerActions;
    if ms != [] {
      assert ms[0] in ms;
      HandlerOrdered(ms[1..]);
      HandlerThen(ms[0].shard, ms[0].calls, MessagesActions(ms[1..]));
    }
  }

  /** The threads of a server, each handling any number of messages. */
  ghost predicate ServerThreads(sys: System) {
    forall i :: 0 <= i < |sys| ==> IsHandler(sys[i])
  }

  ghost predicate IsHandler(t: Thread) {
    exists ms: seq<Message> :: (forall m :: m in ms ==> m.shard < SHARDS) && t == Thread(map[], MessagesActions(ms))
  }

  /** Deadlock freedom: however the threads of a server are scheduled, as long as one is unfinished one can go on,
      and after as many steps as there are actions all have finished and hold nothing. */
  lemma ServerNeverDeadlocks(sys: System, schedule: seq<nat>, sys': System, writersFirst: bool)
    requires ServerThreads(sys) && Run(sys, schedule, sys', writersFirst)
    ensures Finished(sys') || exists j :: 0 <= j < |sys'| && CanStep(sys', j, writersFirst)
    ensures |schedule| <= Work(sys)
    ensures Finished(sys') ==> forall i :: 0 <= i < |sys'| ==> sys'[i].held == map[]
  {
    forall i | 0 <= i < |sys|
      ensures Ordered(sys[i])
    {
      assert IsHandler(sys[i]);
      var ms: seq<Message> :|
        (forall m :: m in ms ==> m.shard < SHARDS) && sys[i] == Thread(map[], MessagesActions(ms));
      HandlerOrdered(ms);
    }
    RunKeeps(sys, schedule, sys', writersFirst);
    if !Finished(sys') {
      NoDeadlock(sys', writersFirst);
    }
    assert forall i :: 0 <= i < |sys'| ==> Ordered(sys'[i]);
  }

  /** However a server's threads are scheduled, while one of them takes a snapshot, with log and map locked, no other
      holds either. */
  lemma SnapshotAlone(sys: System, schedule: seq<nat>, sys': System, writersFirst: bool, i: nat, j: nat)
    requires ServerThreads(sys) && Run(sys, schedule, sys', writersFirst) && i < |sys'| && j < |sys'| && i != j
    requires Holds(sys'[i], WAL_MUTEX) && Holds(sys'[i], STORE_MUTEX)
    requires sys'[i].held[WAL_MUTEX] == Exclusive && sys'[i].held[STORE_MUTEX] == Exclusive
    ensures !Holds(sys'[j], WAL_MUTEX) && !Holds(sys'[j], STORE_MUTEX)
  {
    hide Run;
    assert forall k :: 0 <= k < |sys| ==> IsHandler(sys[k]) && sys[k].held == map[];
    MutualExclusion(sys, schedule, sys', writersFirst);
  }

  /** A thread that handles one read, after its first k actions. */
  function Reader(shard: nat, k: nat): Thread {
    if k == 0 then
      Thread(map[], ReaderActions(shard))
    else if k == 1 then
      Thread(map[shard := Exclusive], [Acquire(STORE_MUTEX, Shared), Release(STORE_MUTEX), Release(shard)])
    else
      Thread(map[shard := Exclusive][STORE_MUTEX := Shared], [Release(STORE_MUTEX), Release(shard)])
  }

  lemma ReaderMoves(shard: nat)
    requires shard < SHARDS
    ensures AfterAction(Reader(shard, 0)) == Reader(shard, 1) && AfterAction(Reader(shard, 1)) == Reader(shard, 2)
  {
    assert ReaderActions(shard)[1..] == Reader(shard, 1).todo;
    assert Reader(shard, 1).todo[1..] == Reader(shard, 2).todo;
  }

  /** The reader holds its shard and the map's lock shared at most, and takes what nobody holds otherwise. */
  lemma ReaderTakes(a: nat, i: nat, b: nat, j: nat, rest: seq<nat>, end: System, writersFirst: bool)
    requires a < SHARDS && b < SHARDS && a != b && i < 2 && j <= 2
    requires Run([Reader(a, i + 1), Reader(b, j)], rest, end, writersFirst)
    ensures Run([Reader(a, i), Reader(b, j)], [0] + rest, end, writersFirst)
  {
    ReaderMoves(a);
    var sys := [Reader(a, i), Reader(b, j)];
    assert CanStep(sys, 0, writersFirst);
    hide Run, CanStep, Reader;
    assert Step(sys, 0) == [Reader(a, i + 1), Reader(b, j)];
    RunOne(sys, 0, rest, end, writersFirst);
  }

  lemma OtherTakes(a: nat, i: nat, b: nat, j: nat, rest: seq<nat>, end: System, writersFirst: bool)
    requires a < SHARDS && b < SHARDS && a != b && i <= 2 && j < 2
    requires Run([Reader(a, i), Reader(b, j + 1)], rest, end, writersFirst)
    ensures Run([Reader(a, i), Reader(b, j)], [1] + rest, end, writersFirst)
  {
    ReaderMoves(b);
    var sys := [Reader(a, i), Reader(b, j)];
    assert CanStep(sys, 1, writersFirst);
    hide Run, CanStep, Reader;
    assert Step(sys, 1) == [Reader(a, i), Reader(b, j + 1)];
    RunOne(sys, 1, rest, end, writersFirst);
  }

  /** Readers of the map do not wait for each other: two threads that each read, on any two shards, can hold its lock
      together. */
  lemma ReadersShare(a: nat, b: nat, writersFirst: bool)
    requires a < SHARDS && b < SHARDS && a != b
    ensures ServerThreads([Reader(a, 0), Reader(b, 0)])
    ensures Run([Reader(a, 0), Reader(b, 0)], [0, 1, 0, 1], [Reader(a, 2), Reader(b, 2)], writersFirst)
    ensures Holds(Reader(a, 2), STORE_MUTEX) && Holds(Reader(b, 2), STORE_MUTEX)
  {
    ReaderIsHandler(a);
    ReaderIsHandler(b);
    hide *;
    var end := [Reader(a, 2), Reader(b, 2)];
    RunNowhere(end, writersFirst);
    OtherTakes(a, 2, b, 1, [], end, writersFirst);
    ReaderTakes(a, 1, b, 1, [1], end, writersFirst);
    OtherTakes(a, 1, b, 0, [0, 1], end, writersFirst);
    ReaderTakes(a, 0, b, 0, [1, 0, 1], end, writersFirst);
    BothHandlers(Reader(a, 0), Reader(b, 0));
  }

  lemma BothHandlers(x: Thread, y: Thread)
    requires IsHandler(x) && IsHandler(y)
    ensures ServerThreads([x, y])
  {
    hide IsHandler;
  }

  function ReaderActions(shard: nat): seq<Action> {
    [Acquire(shard, Exclusive), Acquire(STORE_MUTEX, Shared), Release(STORE_MUTEX), Release(shard)]
  }

  lemma ReaderIsHandler(shard: nat)
    requires shard < SHARDS
    ensures IsHandler(Reader(shard, 0)) && Holds(Reader(shard, 2), STORE_MUTEX)
  {
    var ms := [Message(shard, [Read])];
    assert ms[1..] == [] && [Read][1..] == [];
    assert MessagesActions(ms) == ReaderActions(shard);
  }

  lemma RunNowhere(sys: System, writersFirst: bool)
    ensures Run(sys, [], sys, writersFirst)
  {
  }

  lemma RunOne(sys: System, i: nat, rest: seq<nat>, sys': System, writersFirst: bool)
    requires i < |sys| && CanStep(sys, i, writersFirst) && Run(Step(sys, i), rest, sys', writersFirst)
    ensures Run(sys, [i] + rest, sys', writersFirst)
  {
    hide CanStep;
    assert ([i] + rest)[1..] == rest;
  }

  // ---------- What is locked while the store works ----------

  /** The thread after k of its actions. */
  function Advanced(t: Thread, k: nat): Thread
    requires k <= |t.todo|
    decreases k
  {
    if k == 0 then t else Advanced(AfterAction(t), k - 1)
  }

  /** A write holds the log's lock while it appends, the map's while it updates, the window's while it stamps and again
      while it checks; a snapshot holds all three, and at the end none of them is held. */
  lemma WriteHolds(h: map<nat, Mode>)
    requires forall l :: l in h ==> l < WAL_MUTEX
    ensures var t := Thread(h, CallActions(Write(true)));
            && |t.todo| == 14
            && Advanced(t, 1).held == h[WAL_MUTEX := Exclusive]
            && Advanced(t, 3).held == h[STORE_MUTEX := Exclusive]
            && Advanced(t, 5).held == h[WINDOW_MUTEX := Exclusive]
            && Advanced(t, 7).held == h[WINDOW_MUTEX := Exclusive]
            && Advanced(t, 11).held == h[WAL_MUTEX := Exclusive][STORE_MUTEX := Exclusive][WINDOW_MUTEX := Exclusive]
            && Advanced(t, 14).held == h
  {
    assert WAL_MUTEX !in h && STORE_MUTEX !in h && WINDOW_MUTEX !in h;
    hide *;
    var snap := SnapshotActions();
    var last := Guarded(WINDOW_MUTEX, Exclusive) + snap;
    var third := Guarded(WINDOW_MUTEX, Exclusive) + last;
    var second := Guarded(STORE_MUTEX, Exclusive) + third;
    WriteShape();
    SnapshotHolds(h);
    GuardedHolds(h, WAL_MUTEX, second);
    GuardedHolds(h, STORE_MUTEX, third);
    GuardedHolds(h, WINDOW_MUTEX, last);
    GuardedHolds(h, WINDOW_MUTEX, snap);
    GuardedPassed(h, WAL_MUTEX, second, 1);
    GuardedPassed(h, WAL_MUTEX, second, 3);
    GuardedPassed(h, STORE_MUTEX, third, 1);
    GuardedPassed(h, WAL_MUTEX, second, 5);
    GuardedPassed(h, STORE_MUTEX, third, 3);
    GuardedPassed(h, WINDOW_MUTEX, last, 1);
    GuardedPassed(h, WAL_MUTEX, second, 9);
    GuardedPassed(h, STORE_MUTEX, third, 7);
    GuardedPassed(h, WINDOW_MUTEX, last, 5);
    GuardedPassed(h, WINDOW_MUTEX, snap, 3);
    GuardedPassed(h, WAL_MUTEX, second, 12);
    GuardedPassed(h, STORE_MUTEX, third, 10);
    GuardedPassed(h, WINDOW_MUTEX, last, 8);
    GuardedPassed(h, WINDOW_MUTEX, snap, 6);
  }

  lemma WriteShape()
    ensures var g := Guarded(WINDOW_MUTEX, Exclusive);
            CallActions(Write(true)) ==
            Guarded(WAL_MUTEX, Exclusive) + (Guarded(STORE_MUTEX, Exclusive) + (g + (g + SnapshotActions())))
    ensures |CallActions(Write(true))| == 14
  {
  }

  lemma GuardedHolds(h: map<nat, Mode>, l: nat, rest: seq<Action>)
    requires l !in h
    ensures var t := Thread(h, Guarded(l, Exclusive) + rest);
            |t.todo| == 2 + |rest| && Advanced(t, 1).held == h[l := Exclusive]
  {
  }

  lemma GuardedPassed(h: map<nat, Mode>, l: nat, rest: seq<Action>, k: nat)
    requires l !in h && k <= |rest|
    ensures |Guarded(l, Exclusive) + rest| == 2 + |rest|
    ensures Advanced(Thread(h, Guarded(l, Exclusive) + rest), 2 + k) == Advanced(Thread(h, rest), k)
  {
    var t := Thread(h, Guarded(l, Exclusive) + rest);
    var u := Thread(h[l := Exclusive], [Release(l)] + rest);
    assert AfterAction(t) == u;
    assert h[l := Exclusive] - {l} == h && u.todo[1..] == rest;
    assert AfterAction(u) == Thread(h, rest);
    hide AfterAction, Guarded;
    AdvancedOnce(t, 1 + k);
    AdvancedOnce(u, k);
  }

  lemma SnapshotHolds(h: map<nat, Mode>)
    requires forall l :: l in h ==> l < WAL_MUTEX
    ensures var t := Thread(h, SnapshotActions());
            && |t.todo| == 6
            && Advanced(t, 3).held == h[WAL_MUTEX := Exclusive][STORE_MUTEX := Exclusive][WINDOW_MUTEX := Exclusive]
            && Advanced(t, 6).held == h
  {
    var h1 := h[WAL_MUTEX := Exclusive];
    var h2 := h1[STORE_MUTEX := Exclusive];
    var h3 := h2[WINDOW_MUTEX := Exclusive];
    var t0 := Thread(h, SnapshotActions());
    var t1 := Thread(h1, SnapshotActions()[1..]);
    var t2 := Thread(h2, SnapshotActions()[2..]);
    var t3 := Thread(h3, SnapshotActions()[3..]);
    var t4 := Thread(h2, SnapshotActions()[4..]);
    var t5 := Thread(h1, SnapshotActions()[5..]);
    var t6 := Thread(h, []);
    assert h3 - {WINDOW_MUTEX} == h2 && h2 - {STORE_MUTEX} == h1 && h1 - {WAL_MUTEX} == h;
    assert AfterAction(t0) == t1 && AfterAction(t1) == t2 && AfterAction(t2) == t3;
    assert AfterAction(t3) == t4 && AfterAction(t4) == t5 && AfterAction(t5) == t6;
    hide AfterAction, SnapshotActions;
    AdvancedOnce(t0, 2);
    AdvancedOnce(t1, 1);
    AdvancedOnce(t2, 0);
    AdvancedOnce(t0, 5);
    AdvancedOnce(t1, 4);
    AdvancedOnce(t2, 3);
    AdvancedOnce(t3, 2);
    AdvancedOnce(t4, 1);
    AdvancedOnce(t5, 0);
  }

  lemma AdvancedOnce(t: Thread, k: nat)
    requires k < |t.todo|
    ensures Advanced(t, k + 1) == Advanced(AfterAction(t), k)
    ensures Advanced(AfterAction(t), 0) == AfterAction(t)
  {
  }
}
