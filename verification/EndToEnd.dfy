/** From the client's calls over the handler and the persistent store to the bytes on disk, and back after a crash. */
module EndToEnd {
  import opened Options
  import opened Bytes
  import opened Replay
  import opened Durability
  import opened Progress
  import opened Trails
  import opened RespStream
  import WalCodec
  import Resp
  import Store
  import Server
  import Client

  type Call = Client.Call
  type Record = WalCodec.Record

  function CommandsOf(calls: seq<Call>): (cmds: seq<Resp.Command>)
    ensures |cmds| == |calls|
  {
    seq(|calls|, i requires 0 <= i < |calls| => Client.CommandOf(calls[i]))
  }

  /** The records the calls leave in the log, and their writes at the moments they are handled at. */
  function AllLogged(calls: seq<Call>): seq<Record> {
    Server.LogOf(CommandsOf(calls))
  }

  function WritesOf(calls: seq<Call>, env: nat -> Store.Moment, first: nat): seq<Write> {
    Server.Stamped(CommandsOf(calls), env, first)
  }

  /** The plain map after a sequence of calls. */
  function MapAfter(m: Map, calls: seq<Call>): Map
    decreases |calls|
  {
    if calls == [] then m else MapAfter(Client.MapCall(m, calls[0]).1, calls[1..])
  }

  lemma LoggedFirst(calls: seq<Call>)
    requires calls != []
    ensures AllLogged(calls) == Client.CallLog(calls[0]) + AllLogged(calls[1..])
  {
    hide Server.Logged, Client.CommandOf;
    assert CommandsOf(calls)[1..] == CommandsOf(calls[1..]);
  }

  /** The calls change the map as the replay of their records does. */
  lemma {:induction false} CallsAreReplay(m: Map, calls: seq<Call>)
    ensures MapAfter(m, calls) == Replayed(m, AllLogged(calls))
    decreases |calls|
  {
    hide Client.MapCall, Client.CallLog, AllLogged;
    if calls == [] {
      NothingLogged();
    } else {
      Client.DispatchIsMapCall(m, calls[0]);
      CallsAreReplay(Client.MapCall(m, calls[0]).1, calls[1..]);
      LoggedFirst(calls);
      ReplayedConcat(m, Client.CallLog(calls[0]), AllLogged(calls[1..]));
    }
  }

  lemma NothingLogged()
    ensures AllLogged([]) == []
  {
  }

  lemma WritesSnoc(calls: seq<Call>, call: Call, env: nat -> Store.Moment, first: nat)
    ensures WritesOf(calls + [call], env, first) ==
            WritesOf(calls, env, first) + Server.Stamp(Client.CommandOf(call), env(first + |calls|))
  {
    hide Server.Stamp, Client.CommandOf;
    assert CommandsOf(calls + [call]) == CommandsOf(calls) + [Client.CommandOf(call)];
    Server.StampedOne(CommandsOf(calls), Client.CommandOf(call), env, first);
  }

  // ---------- The code, client and server together ----------

  /** The network: any cutting of the bytes into nonempty pieces. */
  method Split(b: Bytes) returns (chunks: seq<Bytes>)
    ensures Concat(chunks) == b && forall c :: c in chunks ==> c != []
  {
    chunks := [];
    var left := b;
    while left != []
      invariant Concat(chunks) + left == b && forall c :: c in chunks ==> c != []
      decreases |left|
    {
      var n: nat :| 1 <= n <= |left|;
      ConcatSnoc(chunks, left[..n]);
      assert Concat(chunks) + left[..n] + left[n..] == Concat(chunks) + left;
      chunks := chunks + [left[..n]];
      left := left[n..];
    }
    assert Concat(chunks) + [] == Concat(chunks);
  }

  lemma {:induction false} ConcatSnoc(chunks: seq<Bytes>, c: Bytes)
    ensures Concat(chunks + [c]) == Concat(chunks) + c
    decreases |chunks|
  {
    if chunks == [] {
      assert [c][1..] == [];
    } else {
      assert (chunks + [c])[0] == chunks[0] && (chunks + [c])[1..] == chunks[1..] + [c];
      ConcatSnoc(chunks[1..], c);
    }
  }

  /** The messages reach the handler one after the other. */
  method Deliver(conn: Server.Connection, messages: seq<Bytes>, env: nat -> Store.Moment, first: nat)
    returns (out: Bytes, stop: Option<Stop>, next: nat, ghost lost: bool, evs: seq<Event>)
    requires conn.store.Valid() && Server.Timely(env) && conn.store.clock <= env(first).now
    modifies conn.reader, conn.store, conn.store.wal, conn.store.window
    ensures conn.store.Valid() && conn.store.clock <= env(next).now
    ensures var served := Server.ServeAll(old(conn.reader.buf), old(conn.store.data), messages);
            && next == first + |served.cmds|
            && Went(old(Seen(conn.store)), evs, Seen(conn.store), Server.Stamped(served.cmds, env, first), lost)
            && match stop
               case None => served == Server.Served(out, conn.reader.buf, conn.store.data, served.cmds)
               case Some(why) => served == Server.Failed(why, conn.store.data, served.cmds)
  {
    hide Server.Serve, Went, Server.Timely, Server.Stamped, Store.PersistentKvStore.Valid, Seen, Served;
    out, stop, next, lost, evs := [], None, first, false, [];
    ghost var left, m, start := conn.reader.buf, conn.store.data, Seen(conn.store);
    ghost var cmds: seq<Resp.Command> := [];
    WentNowhere(start);
    Server.StampedNothing(env, first);
    StartServing(left, m, messages);
    for i := 0 to |messages|
      invariant conn.store.Valid() && conn.store.clock <= env(next).now && stop == None && next == first + |cmds|
      invariant Served(left, m, messages, out, cmds, conn.reader.buf, conn.store.data, i)
      invariant Went(start, evs, Seen(conn.store), Server.Stamped(cmds, env, first), lost)
    {
      ghost var mid := Seen(conn.store);
      ServeOne(left, m, messages, out, cmds, conn.reader.buf, conn.store.data, i);
      ghost var more := Server.Serve(conn.reader.buf, conn.store.data, messages[i]).cmds;
      var result, es;
      ghost var l;
      result, stop, next, l, es := conn.OnMessage(messages[i], env, next);
      Server.StampedConcat(cmds, more, env, first);
      WentOn(start, evs, mid, Server.Stamped(cmds, env, first), lost, es, Seen(conn.store),
             Server.Stamped(more, env, first + |cmds|), l);
      lost, evs, cmds := lost || l, evs + es, cmds + more;
      if stop.Some? {
        return;
      }
      out := out + result;
    }
    AllServed(left, m, messages, out, cmds, conn.reader.buf, conn.store.data);
  }

  /** The first `i` messages were served with these results. */
  ghost predicate Served(left: Bytes, m: Map, messages: seq<Bytes>,
                         out: Bytes, cmds: seq<Resp.Command>, buf: Bytes, data: Map, i: nat)
    requires i <= |messages|
  {
    Server.ServeAll(left, m, messages) == Server.Then(out, cmds, Server.ServeAll(buf, data, messages[i..]))
  }

  lemma AllServed(left: Bytes, m: Map, messages: seq<Bytes>,
                  out: Bytes, cmds: seq<Resp.Command>, buf: Bytes, data: Map)
    requires Served(left, m, messages, out, cmds, buf, data, |messages|)
    ensures Server.ServeAll(left, m, messages) == Server.Served(out, buf, data, cmds)
  {
    assert messages[|messages|..] == [];
    assert out + [] == out && cmds + [] == cmds;
  }

  lemma StartServing(left: Bytes, m: Map, messages: seq<Bytes>)
    ensures Served(left, m, messages, [], [], left, m, 0)
  {
    hide Server.ServeAll;
    assert messages[0..] == messages;
    ThenNothing(Server.ServeAll(left, m, messages));
  }

  lemma ThenNothing(s: Server.Served)
    ensures Server.Then([], [], s) == s
  {
    match s
    case Served(out, _, _, cmds) =>
      assert [] + out == out && [] + cmds == cmds;
    case Failed(_, _, cmds) =>
      assert [] + cmds == cmds;
  }

  lemma ServeOne(left: Bytes, m: Map, messages: seq<Bytes>,
                 out: Bytes, cmds: seq<Resp.Command>, buf: Bytes, data: Map, i: nat)
    requires i < |messages| && Served(left, m, messages, out, cmds, buf, data, i)
    ensures match Server.Serve(buf, data, messages[i])
            case Failed(why, m', l) => Server.ServeAll(left, m, messages) == Server.Failed(why, m', cmds + l)
            case Served(o, buf', m', l) => Served(left, m, messages, out + o, cmds + l, buf', m', i + 1)
  {
    hide Server.Serve;
    assert messages[i..][0] == messages[i] && messages[i..][1..] == messages[i + 1..];
    match Server.Serve(buf, data, messages[i])
    case Failed(_, _, _) =>
    case Served(o, buf', m', l) =>
      ThenThen(out, cmds, o, l, Server.ServeAll(buf', m', messages[i + 1..]));
  }

  lemma ThenThen(out: Bytes, cmds: seq<Resp.Command>, o: Bytes, l: seq<Resp.Command>, s: Server.Served)
    ensures Server.Then(out, cmds, Server.Then(o, l, s)) == Server.Then(out + o, cmds + l, s)
  {
    match s
    case Served(o', _, _, l') =>
      assert out + (o + o') == out + o + o' && cmds + (l + l') == cmds + l + l';
    case Failed(_, _, l') =>
      assert cmds + (l + l') == cmds + l + l';
  }

  /** One call: the request goes out in pieces, the handler answers it, the reply comes back in pieces. */
  method Ask(conn: Server.Connection, call: Call, env: nat -> Store.Moment, first: nat)
    returns (answer: Client.Answer, ghost lost: bool, evs: seq<Event>)
    requires conn.store.Valid() && Server.Timely(env) && conn.store.clock <= env(first).now
    requires conn.reader.buf == [] && Client.MapInt(conn.store.data) && Client.CallInt(call)
    modifies conn.reader, conn.store, conn.store.wal, conn.store.window
    ensures conn.store.Valid() && conn.store.clock <= env(first + 1).now && conn.reader.buf == []
    ensures answer == Client.MapCall(old(conn.store.data), call).0
    ensures conn.store.data == Client.MapCall(old(conn.store.data), call).1
    ensures Went(old(Seen(conn.store)), evs, Seen(conn.store), Server.Stamp(Client.CommandOf(call), env(first)), lost)
  {
    hide Client.MapCall, Client.MapInt, Client.CallInt, Went, Server.Timely, Server.Stamp, Client.CommandOf;
    hide Server.ServeAll, Resp.EncodeCommand, Client.Request, Client.ResponseTo, Server.SerializeResponse;
    hide Client.Receive, Client.Decode, Client.AnswerFrom, Store.PersistentKvStore.Valid, Seen;
    ghost var m := conn.store.data;
    var request := Resp.SerializeCommand(Client.Request(call).0, Client.Request(call).1);
    var messages := Split(request);
    Client.ServeCall(m, call, messages);
    var out, stop, next;
    out, stop, next, lost, evs := Deliver(conn, messages, env, first);
    StampedSingle(Client.CommandOf(call), env, first);
    var chunks := Split(out);
    var reply := Client.ReceiveReply(chunks);
    Client.ReplyDecodes(m, call, chunks);
    answer := Client.AnswerFrom(call, reply);
  }

  lemma StampedSingle(c: Resp.Command, env: nat -> Store.Moment, first: nat)
    ensures Server.Stamped([c], env, first) == Server.Stamp(c, env(first))
  {
    hide Server.Stamp;
    assert [c][1..] == [];
    assert Server.Stamp(c, env(first)) + [] == Server.Stamp(c, env(first));
  }

  /** A session: call after call, the i-th handled at `env(i)`. The client's answers are the plain map's, the store's
      map is the plain map, and the store made a run of the state machine that logs just the session's writes. */
  method RunSession(conn: Server.Connection, calls: seq<Call>, env: nat -> Store.Moment)
    returns (answers: seq<Client.Answer>, ghost lost: bool, evs: seq<Event>)
    requires conn.store.Valid() && Server.Timely(env) && conn.store.clock <= env(0).now
    requires conn.reader.buf == [] && Sized(conn.store.data, calls)
    modifies conn.reader, conn.store, conn.store.wal, conn.store.window
    ensures conn.store.Valid() && conn.store.clock <= env(|calls|).now && conn.reader.buf == []
    ensures answers == Client.MapAnswers(old(conn.store.data), calls)
    ensures conn.store.data == MapAfter(old(conn.store.data), calls)
    ensures Went(old(Seen(conn.store)), evs, Seen(conn.store), WritesOf(calls, env, 0), lost)
  {
    hide Client.MapCall, Client.MapInt, Client.CallInt, Went, Server.Timely, Sized, WritesOf;
    hide Store.PersistentKvStore.Valid, Seen;
    answers, lost, evs := [], false, [];
    ghost var m, start := conn.store.data, Seen(conn.store);
    WentNowhere(start);
    NothingWritten(env, 0);
    assert calls[0..] == calls && calls[..0] == [];
    for i := 0 to |calls|
      invariant conn.store.Valid() && conn.store.clock <= env(i).now && conn.reader.buf == []
      invariant Sized(conn.store.data, calls[i..])
      invariant Client.MapAnswers(m, calls) == answers + Client.MapAnswers(conn.store.data, calls[i..])
      invariant MapAfter(m, calls) == MapAfter(conn.store.data, calls[i..])
      invariant Went(start, evs, Seen(conn.store), WritesOf(calls[..i], env, 0), lost)
    {
      assert calls[i..][0] == calls[i] && calls[i..][1..] == calls[i + 1..];
      assert calls[..i + 1] == calls[..i] + [calls[i]];
      SizedStep(conn.store.data, calls[i..]);
      ghost var mid := Seen(conn.store);
      var answer, es;
      ghost var l;
      answer, l, es := Ask(conn, calls[i], env, i);
      WritesSnoc(calls[..i], calls[i], env, 0);
      WentOn(start, evs, mid, WritesOf(calls[..i], env, 0), lost, es, Seen(conn.store),
             Server.Stamp(Client.CommandOf(calls[i]), env(i)), l);
      answers := answers + [answer];
      lost, evs := lost || l, evs + es;
    }
    assert calls[|calls|..] == [] && calls[..|calls|] == calls;
    assert answers + [] == answers;
  }

  lemma NothingWritten(env: nat -> Store.Moment, first: nat)
    ensures WritesOf([], env, first) == []
  {
  }

  /** Lengths and counts stay within the `int` they are printed into. */
  ghost predicate Sized(m: Map, calls: seq<Call>) {
    && Client.MapInt(m) && |m| + |calls| <= Resp.INT_MAX
    && forall c :: c in calls ==> Client.CallInt(c)
  }

  lemma SizedStep(m: Map, calls: seq<Call>)
    requires Sized(m, calls) && calls != []
    ensures Client.MapInt(m) && Client.CallInt(calls[0])
    ensures Sized(Client.MapCall(m, calls[0]).1, calls[1..])
  {
    hide Client.MapInt, Client.CallInt, Client.MapCall;
    assert calls[0] in calls;
    Client.MapCallInt(m, calls[0]);
    assert forall c :: c in calls[1..] ==> c in calls;
  }

  // ---------- Crashes and restarts ----------

  /** Calls whose writes fit the formats. */
  ghost predicate Fitting(calls: seq<Call>) {
    WalCodec.AllFit(AllLogged(calls)) && forall c :: c in calls ==> Client.CallInt(c)
  }

  /** A process just started over files. */
  ghost function Started(found: Disk, issued: seq<Record>): Sight {
    Sight(State(found, true, Recovered(found), [], Running, issued), 0, [])
  }

  /** A process starts over any files it can read, torn ones too, and answers a session from what it recovered. */
  method Restarted(found: Disk, ghost issued: seq<Record>, calls: seq<Call>, env: nat -> Store.Moment)
    returns (answers: seq<Client.Answer>, conn: Server.Connection, ghost lost: bool, evs: seq<Event>)
    requires Readable(found) && Server.Timely(env) && Sized(Recovered(found), calls)
    ensures fresh(conn) && fresh(conn.reader) && fresh(conn.store) && fresh(conn.store.wal) && fresh(conn.store.window)
    ensures conn.store.Valid() && conn.store.clock <= env(|calls|).now && conn.reader.buf == []
    ensures answers == Client.MapAnswers(Recovered(found), calls)
    ensures conn.store.data == MapAfter(Recovered(found), calls)
    ensures Went(Started(found, issued), evs, Seen(conn.store), WritesOf(calls, env, 0), lost)
  {
    hide Recovered, Sized, Went, Server.Timely, MapAfter, WritesOf, Client.MapAnswers, Readable, Store.Calm;
    var store := new Store.PersistentKvStore(found, issued, env(0).now);
    Store.StartView(found, issued);
    conn := new Server.Connection(store);
    assert Seen(store) == Started(found, issued);
    answers, lost, evs := RunSession(conn, calls, env);
  }

  /** Over the files of a trail, a process answers from what the trail restores, and leaves the files where the trail
      goes from there. */
  method LiveOnce(found: Disk, ghost issued: seq<Record>, ghost c: Trail, ghost n: nat,
               calls: seq<Call>, env: nat -> Store.Moment)
    returns (answers: seq<Client.Answer>, conn: Server.Connection, ghost lost: bool, evs: seq<Event>)
    requires ShowsDisk(found, c) && Within(c, n) && n + |calls| <= Resp.INT_MAX
    requires Server.Timely(env) && Fitting(calls)
    ensures fresh(conn) && fresh(conn.reader) && fresh(conn.store) && fresh(conn.store.wal) && fresh(conn.store.window)
    ensures conn.store.Valid() && conn.store.clock <= env(|calls|).now && conn.reader.buf == []
    ensures answers == Client.MapAnswers(Restored(c), calls)
    ensures conn.store.data == MapAfter(Restored(c), calls)
    ensures Went(Started(found, issued), evs, Seen(conn.store), WritesOf(calls, env, 0), lost)
    ensures Shows(Seen(conn.store), TrailAfter(Reopened(c), WritesOf(calls, env, 0)))
    ensures lost <==> Loses(Reopened(c), WritesOf(calls, env, 0))
  {
    hide Recovered, Sized, Went, Server.Timely, MapAfter, WritesOf, Client.MapAnswers, Restored, Within, Fitting, Shows;
    hide TrailAfter, Loses, Readable, Base, Seen, Store.PersistentKvStore.Valid, Reopened;
    ShownDisk(found, c);
    ShownAgain(found, c, issued);
    SizedRestored(c, n, calls);
    WithinRestored(c, n);
    answers, conn, lost, evs := Restarted(found, issued, calls, env);
    Along(Started(found, issued), evs, Seen(conn.store), Reopened(c), n, calls, env, lost);
  }

  /** A session goes along the trail. */
  lemma Along(x: Sight, evs: seq<Event>, y: Sight, c: Trail, n: nat,
              calls: seq<Call>, env: nat -> Store.Moment, lost: bool)
    requires Went(x, evs, y, WritesOf(calls, env, 0), lost) && Shows(x, c) && Within(c, n)
    requires n + |calls| <= Resp.INT_MAX && Fitting(calls)
    ensures Shows(y, TrailAfter(c, WritesOf(calls, env, 0))) && (lost <==> Loses(c, WritesOf(calls, env, 0)))
    ensures Within(TrailAfter(c, WritesOf(calls, env, 0)), n + |calls|)
  {
    hide Shows, Within, TrailAfter, Loses, Store.Traced, Good, Clean, Replayed, WalCodec.AllFit;
    Server.StampedRecords(CommandsOf(calls), env, 0);
    LoggedLength(calls);
    WithinAfter(c, WritesOf(calls, env, 0), n);
    WithinMore(TrailAfter(c, WritesOf(calls, env, 0)), n + |WritesOf(calls, env, 0)|, n + |calls|);
  }

  lemma WithinMore(c: Trail, n: nat, m: nat)
    requires Within(c, n) && n <= m
    ensures Within(c, m)
  {
  }

  lemma {:induction false} LoggedLength(calls: seq<Call>)
    ensures |AllLogged(calls)| <= |calls|
    decreases |calls|
  {
    hide AllLogged;
    if calls == [] {
      NothingLogged();
    } else {
      LoggedFirst(calls);
      AtMostOne(calls[0]);
      LoggedLength(calls[1..]);
    }
  }

  lemma AtMostOne(c: Call)
    ensures |Client.CallLog(c)| <= 1
  {
  }

  lemma SizedRestored(c: Trail, n: nat, calls: seq<Call>)
    requires Within(c, n) && n + |calls| <= Resp.INT_MAX && Fitting(calls)
    ensures Sized(Restored(c), calls)
  {
    hide Within, Client.CallInt, Restored;
    WithinRestored(c, n);
  }

  // ---------- One life after another ----------

  /** What a process does between its start and its end. */
  datatype Life = Life(calls: seq<Call>, env: nat -> Store.Moment)

  ghost predicate Possible(lives: seq<Life>) {
    forall i :: 0 <= i < |lives| ==> Server.Timely(lives[i].env) && Fitting(lives[i].calls)
  }

  function TotalCalls(lives: seq<Life>): nat {
    if lives == [] then 0 else |lives[0].calls| + TotalCalls(lives[1..])
  }

  /** The trail after a life and the restart that follows. */
  function NextTrail(c: Trail, life: Life): Trail {
    Reopened(TrailAfter(c, WritesOf(life.calls, life.env, 0)))
  }

  /** The answers a trail foretells for lives one after another. */
  function Foreseen(c: Trail, lives: seq<Life>): seq<seq<Client.Answer>>
    decreases |lives|
  {
    if lives == [] then [] else
    [Client.MapAnswers(Memory(c), lives[0].calls)] + Foreseen(NextTrail(c, lives[0]), lives[1..])
  }

  /** Any number of processes one after another over the same directory, each dying after its session: the answers are
      those foretold from the calls and their moments alone, whatever snapshots are taken, fail or lose. */
  method Lives(lives: seq<Life>) returns (answers: seq<seq<Client.Answer>>)
    requires Possible(lives) && TotalCalls(lives) <= Resp.INT_MAX
    ensures answers == Foreseen(EMPTY, lives)
  {
    hide Shows, Within, TrailAfter, Went, Server.Timely, Fitting, WritesOf, Reopened, Client.MapAnswers, Loses;
    answers := [];
    var disk := Disk([], None, None);
    ghost var c, n: nat := EMPTY, 0;
    ShownEmpty();
    WithinEmpty();
    ReopenedEmpty();
    assert lives[0..] == lives;
    for i := 0 to |lives|
      invariant ShowsDisk(disk, c) && Within(c, n) && n + TotalCalls(lives[i..]) <= Resp.INT_MAX
      invariant Foreseen(EMPTY, lives) == answers + Foreseen(Reopened(c), lives[i..])
    {
      assert lives[i..][0] == lives[i] && lives[i..][1..] == lives[i + 1..];
      var now, conn, evs;
      ghost var lost;
      now, conn, lost, evs := LiveOnce(disk, [], c, n, lives[i].calls, lives[i].env);
      ghost var d := TrailAfter(Reopened(c), WritesOf(lives[i].calls, lives[i].env, 0));
      LiveOn(c, n, lives[i]);
      ShowsItsDisk(Seen(conn.store), d);
      RestoredIsMemory(c);
      answers, disk := answers + [now], Disk(conn.store.wal.file, conn.store.snap, conn.store.tmp);
      c, n := d, n + |lives[i].calls|;
    }
    assert lives[|lives|..] == [];
    assert answers + [] == answers;
  }

  lemma ReopenedEmpty()
    ensures Reopened(EMPTY) == EMPTY
  {
  }

  lemma ShowsItsDisk(x: Sight, c: Trail)
    requires Shows(x, c)
    ensures ShowsDisk(x.state.disk, c)
  {
    hide ShowsDisk;
  }

  lemma RestoredIsMemory(c: Trail)
    ensures Memory(Reopened(c)) == Restored(c)
  {
  }

  lemma LiveOn(c: Trail, n: nat, life: Life)
    requires Within(c, n) && Fitting(life.calls)
    ensures Within(TrailAfter(Reopened(c), WritesOf(life.calls, life.env, 0)), n + |life.calls|)
  {
    hide Within, TrailAfter, WalCodec.AllFit;
    var ws := WritesOf(life.calls, life.env, 0);
    WithinRestored(c, n);
    Server.StampedRecords(CommandsOf(life.calls), life.env, 0);
    LoggedLength(life.calls);
    WithinAfter(Reopened(c), ws, n);
    WithinMore(TrailAfter(Reopened(c), ws), n + |ws|, n + |life.calls|);
  }

  function AllCalls(lives: seq<Life>): seq<Call> {
    if lives == [] then [] else lives[0].calls + AllCalls(lives[1..])
  }

  function AllAnswers(answers: seq<seq<Client.Answer>>): seq<Client.Answer> {
    if answers == [] then [] else answers[0] + AllAnswers(answers[1..])
  }

  /** Every life leaves files that restore its map. */
  ghost predicate AllKept(c: Trail, lives: seq<Life>)
    decreases |lives|
  {
    lives == [] ||
    (Kept(TrailAfter(c, WritesOf(lives[0].calls, lives[0].env, 0))) && AllKept(NextTrail(c, lives[0]), lives[1..]))
  }

  /** If so, all the lives together answer like one plain map that saw every call. */
  lemma {:induction false} LivesAreOne(c: Trail, lives: seq<Life>)
    requires AllKept(c, lives)
    ensures AllAnswers(Foreseen(c, lives)) == Client.MapAnswers(Memory(c), AllCalls(lives))
    decreases |lives|
  {
    hide TrailAfter, WritesOf, Memory, Kept, Reopened, Client.MapAnswers;
    if lives == [] {
      NoAnswers(Memory(c));
    } else {
      var calls := lives[0].calls;
      var d := TrailAfter(c, WritesOf(calls, lives[0].env, 0));
      LifeMemory(c, lives[0]);
      KeptMemory(d);
      LivesAreOne(NextTrail(c, lives[0]), lives[1..]);
      AnswersConcat(Memory(c), calls, AllCalls(lives[1..]));
      var rest := Foreseen(NextTrail(c, lives[0]), lives[1..]);
      assert Foreseen(c, lives)[1..] == rest;
    }
  }

  lemma NoAnswers(m: Map)
    ensures Client.MapAnswers(m, []) == []
  {
  }

  lemma KeptMemory(c: Trail)
    requires Kept(c)
    ensures Memory(Reopened(c)) == Memory(c)
  {
  }

  lemma LifeMemory(c: Trail, life: Life)
    ensures Memory(TrailAfter(c, WritesOf(life.calls, life.env, 0))) == MapAfter(Memory(c), life.calls)
  {
    hide TrailAfter, Memory;
    MemoryAfter(c, WritesOf(life.calls, life.env, 0));
    Server.StampedRecords(CommandsOf(life.calls), life.env, 0);
    CallsAreReplay(Memory(c), life.calls);
  }

  lemma {:induction false} AnswersConcat(m: Map, xs: seq<Call>, ys: seq<Call>)
    ensures Client.MapAnswers(m, xs + ys) == Client.MapAnswers(m, xs) + Client.MapAnswers(MapAfter(m, xs), ys)
    decreases |xs|
  {
    hide Client.MapCall;
    if xs == [] {
      assert xs + ys == ys;
    } else {
      assert (xs + ys)[0] == xs[0] && (xs + ys)[1..] == xs[1..] + ys;
      AnswersConcat(Client.MapCall(m, xs[0]).1, xs[1..], ys);
    }
  }

  /** A session on an empty directory and a restart: the files restore the plain map after the session exactly when the
      writes since the log was last empty decide every key on which the snapshot file and the memory of that time
      differ. Up to a hundred writes always do, and so do sessions whose snapshots are harmless. */
  lemma SurvivesIff(calls: seq<Call>, env: nat -> Store.Moment)
    ensures var ws := WritesOf(calls, env, 0);
            var c := TrailAfter(EMPTY, ws);
            && (Restored(c) == MapAfter(map[], calls) <==>
                forall k :: Touches(c.tail, k) || Get(c.base, k) == Get(c.from, k))
            && (|AllLogged(calls)| <= Store.BURST_MAX_OPS || Harmless(EMPTY, ws) ==>
                  Restored(c) == MapAfter(map[], calls))
  {
    hide TrailAfter, WritesOf, Memory, Restored, Loses, Harmless, MapAfter;
    var ws := WritesOf(calls, env, 0);
    var c := TrailAfter(EMPTY, ws);
    LifeMemory(EMPTY, Life(calls, env));
    EmptyKept();
    KeptIff(c);
    WritesLength(calls, env);
    if |AllLogged(calls)| <= Store.BURST_MAX_OPS {
      FewWritesKeep(EMPTY, ws);
      KeptUnlessLost(EMPTY, ws);
    } else if Harmless(EMPTY, ws) {
      HarmlessKeeps(EMPTY, ws);
      KeptUnlessLost(EMPTY, ws);
    }
  }

  lemma EmptyKept()
    ensures Kept(EMPTY) && Memory(EMPTY) == map[]
  {
  }

  lemma WritesLength(calls: seq<Call>, env: nat -> Store.Moment)
    ensures |WritesOf(calls, env, 0)| == |AllLogged(calls)|
  {
    Server.StampedRecords(CommandsOf(calls), env, 0);
  }

  /** Two of these lives: a session, the process dying after it, a restart and a second session answer like one plain
      map if the first session's files restore its map. */
  method SessionSurvivesCrash(xs: seq<Call>, ys: seq<Call>, env: nat -> Store.Moment, later: nat -> Store.Moment)
    returns (before: seq<Client.Answer>, after: seq<Client.Answer>)
    requires Server.Timely(env) && Server.Timely(later) && Fitting(xs) && Fitting(ys)
    requires |xs| + |ys| <= Resp.INT_MAX
    ensures before == Client.MapAnswers(map[], xs)
    ensures after == Client.MapAnswers(Restored(TrailAfter(EMPTY, WritesOf(xs, env, 0))), ys)
    ensures Restored(TrailAfter(EMPTY, WritesOf(xs, env, 0))) == MapAfter(map[], xs) ==>
              before + after == Client.MapAnswers(map[], xs + ys)
  {
    hide Server.Timely, Fitting, WritesOf, TrailAfter, Client.MapAnswers, MapAfter;
    var lives := [Life(xs, env), Life(ys, later)];
    assert lives[1..] == [Life(ys, later)] && lives[1..][1..] == [];
    assert TotalCalls(lives) == |xs| + TotalCalls(lives[1..]) && TotalCalls(lives[1..]) == |ys| + TotalCalls([]);
    var answers := Lives(lives);
    EmptyKept();
    RestoredIsMemory(TrailAfter(EMPTY, WritesOf(xs, env, 0)));
    before, after := answers[0], answers[1];
    AnswersConcat(map[], xs, ys);
  }

  // ---------- Crashes in the middle of a call ----------

  lemma {:induction false} RunPrefix(s: State, evs: seq<Event>, t: State, i: nat) returns (u: State)
    requires SafeRun(s, evs, t) && i <= |evs|
    ensures SafeRun(s, evs[..i], u) && (i < |evs| ==> Enabled(u, evs[i]) && Safe(u, evs[i]))
    decreases i
  {
    hide Enabled, Next, Safe;
    if i == 0 {
      u := s;
    } else {
      u := RunPrefix(Next(s, evs[0]), evs[1..], t, i - 1);
      assert evs[..i][1..] == evs[1..][..i - 1];
      assert i < |evs| ==> evs[1..][i - 1] == evs[i];
    }
  }

  lemma {:induction false} WritesOfPrefix(evs: seq<Event>, i: nat)
    requires i <= |evs|
    ensures Writes(evs[..i]) <= Writes(evs)
    decreases i
  {
    if i > 0 {
      assert evs[..i][1..] == evs[1..][..i - 1];
      WritesOfPrefix(evs[1..], i - 1);
    }
  }

  /** The state a run leads to. */
  function StateAfter(s: State, evs: seq<Event>): (t: State)
    requires exists t :: Run(s, evs, t)
    ensures Run(s, evs, t)
    decreases |evs|
  {
    if evs == [] then s else
    ghost var t :| Run(s, evs, t);
    assert Run(Next(s, evs[0]), evs[1..], t);
    StateAfter(Next(s, evs[0]), evs[1..])
  }

  lemma {:induction false} RunsAgree(s: State, evs: seq<Event>, t: State, u: State)
    requires Run(s, evs, t) && Run(s, evs, u)
    ensures t == u
    decreases |evs|
  {
    hide Enabled, Next;
    if evs != [] {
      RunsAgree(Next(s, evs[0]), evs[1..], t, u);
    }
  }

  lemma {:induction false} SafeRunIsRun(s: State, evs: seq<Event>, t: State)
    requires SafeRun(s, evs, t)
    ensures Run(s, evs, t)
    decreases |evs|
  {
    hide Enabled, Next, Safe;
    if evs != [] {
      SafeRunIsRun(Next(s, evs[0]), evs[1..], t);
    }
  }

  /** The bytes on disk when the process dies before step i, or when that step is an append, after `n` bytes of it. */
  function DiskAt(u: State, evs: seq<Event>, i: nat, n: nat): Disk
    requires i <= |evs|
  {
    if i < |evs| && evs[i].Append? && n <= |WalCodec.Encode(evs[i].r)| then
      u.disk.(wal := u.disk.wal + WalCodec.Encode(evs[i].r)[..n])
    else u.disk
  }

  /** What the code relies on between unlink and rename: the log decides every key of the file just deleted. */
  predicate CrashSafe(u: State) {
    u.phase.Unlinked? ==> forall k :: k in u.phase.before ==> Touches(WalCodec.ReadAll(u.disk.wal), k)
  }

  lemma {:induction false} WritesConcat(es: seq<Event>, fs: seq<Event>)
    ensures Writes(es + fs) == Writes(es) + Writes(fs)
    decreases |es|
  {
    if es == [] {
      assert es + fs == fs;
    } else {
      assert (es + fs)[0] == es[0] && (es + fs)[1..] == es[1..] + fs;
      WritesConcat(es[1..], fs);
    }
  }

  /** After `calls` were answered the process dies at any point of the next call, even inside its append: the disk then
      recovers to the plain map after `calls`, or to that after `calls` and the call. No answered write is lost, and
      the unanswered one is there wholly or not at all. */
  lemma CrashInside(s: State, es: seq<Event>, mid: State, fs: seq<Event>, t: State,
                    calls: seq<Call>, call: Call, i: nat, n: nat) returns (u: State)
    requires Initial(s) && SafeRun(s, es, mid) && SafeRun(mid, fs, t) && i <= |fs|
    requires Writes(es) == AllLogged(calls) && Writes(fs) == Client.CallLog(call)
    requires i < |fs| && fs[i].Append? ==> n < |WalCodec.Encode(fs[i].r)|
    ensures SafeRun(mid, fs[..i], u)
    ensures CrashSafe(u) ==>
              var d := DiskAt(u, fs, i, n);
              && Readable(d)
              && (Recovered(d) == MapAfter(map[], calls) || Recovered(d) == MapAfter(map[], calls + [call]))
  {
    hide SafeRun, Enabled, Next, Safe, Recovered, Readable, Writes, AllLogged, MapAfter, WalCodec.Encode, Inv;
    hide CrashSafe;
    u := RunPrefix(mid, fs, t, i);
    SafeRunConcat(s, es, mid, fs[..i], u);
    WritesConcat(es, fs[..i]);
    WritesOfPrefix(fs, i);
    AtMostOne(call);
    LoggedSnoc(calls, call);
    CallsAreReplay(map[], calls);
    CallsAreReplay(map[], calls + [call]);
    InitialInv(s);
    SafeRunKeeps(s, es + fs[..i], u);
    assert [] + Writes(es + fs[..i]) == Writes(es + fs[..i]);
    assert Writes(fs[..i]) == [] || Writes(fs[..i]) == Client.CallLog(call);
    assert AllLogged(calls) + [] == AllLogged(calls);
    ReadableNow(u);
    if CrashSafe(u) {
      DurableNow(u);
      if i < |fs| && fs[i].Append? {
        TornSame(u, fs[i].r, n);
      }
    }
  }

  lemma LoggedSnoc(calls: seq<Call>, call: Call)
    ensures AllLogged(calls + [call]) == AllLogged(calls) + Client.CallLog(call)
  {
    hide Server.Logged, Client.CommandOf;
    assert CommandsOf(calls + [call]) == CommandsOf(calls) + [Client.CommandOf(call)];
    LogOfSnoc(CommandsOf(calls), Client.CommandOf(call));
  }

  lemma {:induction false} LogOfSnoc(cmds: seq<Resp.Command>, c: Resp.Command)
    ensures Server.LogOf(cmds + [c]) == Server.LogOf(cmds) + Server.Logged(c)
    decreases |cmds|
  {
    hide Server.Logged;
    if cmds == [] {
      assert [c][1..] == [];
    } else {
      assert (cmds + [c])[0] == cmds[0] && (cmds + [c])[1..] == cmds[1..] + [c];
      LogOfSnoc(cmds[1..], c);
    }
  }

  lemma ReadableNow(u: State)
    requires Inv(u)
    ensures Readable(u.disk)
  {
    hide Durable, PhaseInv, Coherent, PendingLogged;
  }

  lemma DurableNow(u: State)
    requires Inv(u) && CrashSafe(u)
    ensures Recovered(u.disk) == Replayed(map[], u.issued)
  {
    hide Recovered, Replayed, Touches, WalCodec.ReadAll;
    if u.phase.Unlinked? {
      WithoutSnapshot(u);
    }
  }

  /** A part of a record leaves the recovered map as it was. */
  lemma TornSame(u: State, r: Record, n: nat)
    requires Enabled(u, Append(r)) && Safe(u, Append(r)) && n < |WalCodec.Encode(r)|
    ensures var d := u.disk.(wal := u.disk.wal + WalCodec.Encode(r)[..n]);
            Recovered(d) == Recovered(u.disk) && (Readable(u.disk) ==> Readable(d))
  {
    hide WalCodec.ReadAll, WalCodec.Encode, Base, Replayed, WalCodec.Log;
    ReadAllOfClean(u.disk.wal, WalCodec.Encode(r)[..n]);
    ReadAllTorn(r, n);
    assert WalCodec.ReadAll(u.disk.wal) + [] == WalCodec.ReadAll(u.disk.wal);
  }

  /** The calls `xs` are answered, the process dies somewhere inside the next one, and another process starts over the
      bytes that are then on disk: it answers from the plain map after `xs`, with or without the call cut short. The
      exception is a death between unlink and rename while the log does not decide every key of the deleted file. */
  method DiesInside(xs: seq<Call>, call: Call, ys: seq<Call>, env: nat -> Store.Moment, later: nat -> Store.Moment)
    returns (before: seq<Client.Answer>, after: seq<Client.Answer>, steps: seq<Event>, died: State)
    requires Server.Timely(env) && Server.Timely(later) && Fitting(xs) && Fitting([call]) && Fitting(ys)
    requires |xs| + 1 + |ys| <= Resp.INT_MAX && !Loses(EMPTY, WritesOf(xs + [call], env, 0))
    ensures before == Client.MapAnswers(map[], xs)
    ensures SafeRun(START, steps, died)
    ensures CrashSafe(died) ==>
              || after == Client.MapAnswers(MapAfter(map[], xs), ys)
              || after == Client.MapAnswers(MapAfter(map[], xs + [call]), ys)
  {
    hide Server.Timely, Fitting, WritesOf, TrailAfter, Client.MapAnswers, MapAfter, SafeRun, CrashSafe, Sized, Loses;
    hide Recovered, Readable, Went, Run, Enabled, Next, Safe, Writes, AllLogged, Server.Stamp, DiskAt, Within;
    after := [];
    var conn, es, answer, fs;
    ghost var lost, more;
    StartOver();
    before, conn, lost, es := LiveOnce(START.disk, [], EMPTY, 0, xs, env);
    ghost var mid := Seen(conn.store);
    CallFits(xs, ys, call);
    answer, more, fs := Ask(conn, call, env, |xs|);
    SafeCalls(es, mid, xs, call, env, lost, fs, Seen(conn.store), more);
    var i: nat :| i <= |fs|;
    var n: nat := 0;
    if i < |fs| && fs[i].Append? {
      n :| n < |WalCodec.Encode(fs[i].r)|;
    }
    ghost var u := CrashInside(START, es, mid.state, fs, conn.store.View(), xs, call, i, n);
    SafeRunConcat(START, es, mid.state, fs[..i], u);
    steps := es + fs[..i];
    SafeRunIsRun(START, steps, u);
    died := StateAfter(START, steps);
    RunsAgree(START, steps, died, u);
    if CrashSafe(died) {
      SizedPlain(xs, call, ys);
      var again, evs;
      ghost var l;
      after, again, l, evs := Restarted(DiskAt(died, fs, i, n), [], ys, later);
    }
  }

  const START: State := State(Disk([], None, None), true, map[], [], Running, [])

  lemma StartOver()
    ensures ShowsDisk(START.disk, EMPTY) && Within(EMPTY, 0) && Reopened(EMPTY) == EMPTY && Restored(EMPTY) == map[]
    ensures Started(START.disk, []) == Sight(START, 0, []) && Initial(START)
  {
    ShownEmpty();
    WithinEmpty();
    RecoveredEmptyLog(START.disk);
    NoSnapshot();
  }

  lemma CallFits(xs: seq<Call>, ys: seq<Call>, call: Call)
    requires Fitting(xs) && Fitting([call]) && |xs| + 1 + |ys| <= Resp.INT_MAX
    ensures Client.MapInt(MapAfter(map[], xs)) && Client.CallInt(call)
  {
    hide Client.CallInt, AllLogged, MapAfter;
    assert call in [call];
    NoneIsInt();
    MapAfterInt(map[], xs);
  }

  lemma NoneIsInt()
    ensures Client.MapInt(map[])
  {
  }

  lemma {:induction false} MapAfterInt(m: Map, calls: seq<Call>)
    requires Client.MapInt(m) && |m| + |calls| <= Resp.INT_MAX
    requires forall c :: c in calls ==> Client.CallInt(c)
    ensures Client.MapInt(MapAfter(m, calls)) && |MapAfter(m, calls)| <= |m| + |calls|
    decreases |calls|
  {
    hide Client.MapInt, Client.CallInt, Client.MapCall;
    if calls != [] {
      assert calls[0] in calls;
      Client.MapCallInt(m, calls[0]);
      MapAfterInt(Client.MapCall(m, calls[0]).1, calls[1..]);
    }
  }

  lemma SizedPlain(xs: seq<Call>, call: Call, ys: seq<Call>)
    requires Fitting(xs) && Fitting([call]) && Fitting(ys) && |xs| + 1 + |ys| <= Resp.INT_MAX
    ensures Sized(MapAfter(map[], xs), ys) && Sized(MapAfter(map[], xs + [call]), ys)
  {
    hide Client.CallInt, AllLogged, MapAfter, Client.MapInt;
    assert call in [call];
    NoneIsInt();
    MapAfterInt(map[], xs);
    MapAfterInt(map[], xs + [call]);
  }

  /** The session and the call after it were safe runs of their writes. */
  lemma SafeCalls(es: seq<Event>, mid: Sight, xs: seq<Call>, call: Call, env: nat -> Store.Moment, lost: bool,
                  fs: seq<Event>, end: Sight, more: bool)
    requires Went(Sight(START, 0, []), es, mid, WritesOf(xs, env, 0), lost) && AtRest(mid)
    requires Went(mid, fs, end, Server.Stamp(Client.CommandOf(call), env(|xs|)), more) && AtRest(end)
    requires Fitting(xs) && Fitting([call]) && |xs| + 1 <= Resp.INT_MAX && !Loses(EMPTY, WritesOf(xs + [call], env, 0))
    ensures SafeRun(START, es, mid.state) && Writes(es) == AllLogged(xs)
    ensures SafeRun(mid.state, fs, end.state) && Writes(fs) == Client.CallLog(call)
  {
    hide Went, Loses, Shows, Within, TrailAfter, SafeRun, Writes, Good, Inv, Clean, WalCodec.AllFit;
    hide AllLogged, WritesOf, Server.Stamp, Client.CallLog;
    StartOver();
    StartShown();
    var ws, w := WritesOf(xs, env, 0), Server.Stamp(Client.CommandOf(call), env(|xs|));
    Along(Sight(START, 0, []), es, mid, EMPTY, 0, xs, env, lost);
    WritesSnoc(xs, call, env, 0);
    TrailConcat(EMPTY, ws, w);
    GoodStart(xs, env, lost);
    WentSafely(Sight(START, 0, []), es, mid, ws, lost);
    WritesAre(xs, env);
    CallIsSafe(mid, fs, end, TrailAfter(EMPTY, ws), |xs|, call, env(|xs|), more);
  }

  ghost predicate AtRest(x: Sight) {
    x.state.up && x.state.phase == Running && x.state.pending == []
  }

  lemma StartShown()
    ensures Shows(Sight(START, 0, []), EMPTY)
  {
    ShownEmpty();
  }

  lemma WritesAre(calls: seq<Call>, env: nat -> Store.Moment)
    ensures RecordsOf(WritesOf(calls, env, 0)) == AllLogged(calls)
  {
    Server.StampedRecords(CommandsOf(calls), env, 0);
  }

  lemma GoodStart(xs: seq<Call>, env: nat -> Store.Moment, lost: bool)
    requires Fitting(xs) && |xs| <= Resp.INT_MAX && !lost
    ensures Good(START, RecordsOf(WritesOf(xs, env, 0)), lost)
  {
    hide Inv, Clean, AllLogged, WritesOf, WalCodec.AllFit;
    StartOver();
    InitialInv(START);
    Store.EmptyIsClean();
    WritesAre(xs, env);
    LoggedLength(xs);
  }

  lemma CallIsSafe(mid: Sight, fs: seq<Event>, end: Sight, c: Trail, n: nat, call: Call, at: Store.Moment, more: bool)
    requires Went(mid, fs, end, Server.Stamp(Client.CommandOf(call), at), more) && AtRest(end)
    requires Inv(mid.state) && Clean(mid.state.disk.wal) && Shows(mid, c) && Within(c, n) && n + 1 <= Resp.INT_MAX
    requires Fitting([call]) && !Loses(c, Server.Stamp(Client.CommandOf(call), at))
    ensures SafeRun(mid.state, fs, end.state) && Writes(fs) == Client.CallLog(call)
  {
    hide Loses, TrailAfter, SafeRun, Writes, Inv, Clean, Within, Store.Traced, Replayed;
    var w := Server.Stamp(Client.CommandOf(call), at);
    assert RecordsOf(w) == Client.CallLog(call);
    LoggedFirst([call]);
    assert [call][1..] == [];
    NothingLogged();
    assert AllLogged([call]) == Client.CallLog(call);
    WithinRestored(c, n);
    assert !more;
    WentSafely(mid, fs, end, w, more);
  }
}
