/** The message handler (kv_server.cpp) over the persistent store, and the replies it prints (protocol.cpp). */
module Server {
  import opened Bytes
  import opened Options
  import opened Resp
  import opened RespStream
  import opened Replay
  import opened Progress
  import opened Trails
  import RespForms
  import WalCodec
  import Durability
  import Store

  type Record = WalCodec.Record
  type State = Durability.State
  type Event = Durability.Event

  // ---------- Replies ----------

  datatype Response = Ok | Value(message: Bytes) | NotFound | Err(message: Bytes) | Count(message: Bytes)

  const PLUS: Byte := 43
  const MINUS: Byte := 45
  const COLON: Byte := 58
  /** "OK", "-1" and "ERR ". */
  const OK_TEXT: Bytes := [79, 75]
  const NIL_TEXT: Bytes := [45, 49]
  const ERR_TEXT: Bytes := [69, 82, 82, 32]
  /** "protocol error". */
  const PROTOCOL_TEXT: Bytes := [112, 114, 111, 116, 111, 99, 111, 108, 32, 101, 114, 114, 111, 114]

  /** "unknown command" and "wrong number of arguments". */
  const UNKNOWN_TEXT: Bytes := [117, 110, 107, 110, 111, 119, 110, 32, 99, 111, 109, 109, 97, 110, 100]
  const ARITY_TEXT: Bytes := [119, 114, 111, 110, 103, 32, 110, 117, 109, 98, 101, 114, 32, 111, 102, 32,
                              97, 114, 103, 117, 109, 101, 110, 116, 115]

  function SerializeResponse(r: Response): Bytes {
    match r
    case Ok => [PLUS] + OK_TEXT + CRLF
    case Value(v) => [DOLLAR] + Dec(|v|) + CRLF + v + CRLF
    case NotFound => [DOLLAR] + NIL_TEXT + CRLF
    case Err(msg) => [MINUS] + ERR_TEXT + msg + CRLF
    case Count(msg) => [COLON] + msg + CRLF
  }

  // ---------- One command on the map ----------

  /** The reply and the new map; None where the code reads arguments that are not there. */
  function Dispatch(m: Map, c: Command): Option<(Response, Map)> {
    match c.kind
    case Set => if |c.args| < 2 then None else Some((Ok, m[c.args[0] := c.args[1]]))
    case Get =>
      if |c.args| < 1 then None
      else Some((if c.args[0] in m then Value(m[c.args[0]]) else NotFound, m))
    case Del =>
      if |c.args| < 1 then None
      else Some((Count(if c.args[0] in m then [49] else [48]), m - {c.args[0]}))
    case Exists => if |c.args| < 1 then None else Some((if c.args[0] in m then Ok else NotFound, m))
    case Keys => Some((Count(Dec(|m|)), m))
    case Unknown => Some((Err(if c.error == UnknownCommand then UNKNOWN_TEXT else ARITY_TEXT), m))
  }

  function HandleItem(m: Map, item: Item): Option<(Bytes, Map)> {
    match item
    case BadLine => Some(([MINUS] + ERR_TEXT + PROTOCOL_TEXT + CRLF, m))
    case Cmd(c) =>
      match Dispatch(m, c)
      case None => None
      case Some((r, m')) => Some((SerializeResponse(r), m'))
  }

  /** The record the store logs for a command. */
  function Logged(c: Command): seq<Record> {
    match c.kind
    case Set => if |c.args| < 2 then [] else [WalCodec.Record(WalCodec.SET, c.args[0], c.args[1])]
    case Del => if |c.args| < 1 then [] else [WalCodec.Record(WalCodec.DEL, c.args[0], [])]
    case _ => []
  }

  /** The records of commands, one after the other. */
  function LogOf(cmds: seq<Command>): seq<Record> {
    if cmds == [] then [] else Logged(cmds[0]) + LogOf(cmds[1..])
  }

  function ItemCommands(item: Item): seq<Command> {
    if item.Cmd? then [item.cmd] else []
  }

  /** The replies to a run of items, the map after them and the commands executed; `ok` is false from the first
      command whose handling reads a missing argument. */
  datatype Handled = Handled(out: Bytes, m: Map, cmds: seq<Command>, ok: bool)

  function HandleAll(m: Map, items: seq<Item>): Handled
    decreases |items|
  {
    if items == [] then Handled([], m, [], true) else
    match HandleItem(m, items[0])
    case None => Handled([], m, [], false)
    case Some((reply, m')) =>
      var rest := HandleAll(m', items[1..]);
      Handled(reply + rest.out, rest.m, ItemCommands(items[0]) + rest.cmds, rest.ok)
  }

  function Joined(h: Handled, k: Handled): Handled {
    Handled(h.out + k.out, k.m, h.cmds + k.cmds, k.ok)
  }

  lemma {:induction false} HandleAllConcat(m: Map, xs: seq<Item>, ys: seq<Item>)
    ensures var h := HandleAll(m, xs);
            HandleAll(m, xs + ys) == if h.ok then Joined(h, HandleAll(h.m, ys)) else h
    decreases |xs|
  {
    hide HandleItem, ItemCommands;
    if xs == [] {
      assert xs + ys == ys;
    } else {
      assert (xs + ys)[0] == xs[0] && (xs + ys)[1..] == xs[1..] + ys;
      if HandleItem(m, xs[0]).Some? {
        HandleAllConcat(HandleItem(m, xs[0]).value.1, xs[1..], ys);
      }
    }
  }

  /** Handling one command changes the map as replaying its record does. */
  lemma DispatchIsReplay(m: Map, c: Command)
    requires Dispatch(m, c).Some?
    ensures Dispatch(m, c).value.1 == Replayed(m, Logged(c))
  {
    hide Dec;
    if Logged(c) != [] {
      var r := Logged(c)[0];
      assert Logged(c) == [] + [r];
      ReplayedAppend(m, [], r);
    }
  }

  lemma {:induction false} HandlingIsReplay(m: Map, items: seq<Item>)
    ensures HandleAll(m, items).m == Replayed(m, LogOf(HandleAll(m, items).cmds))
    decreases |items|
  {
    hide Dispatch, Logged, SerializeResponse;
    if items != [] && HandleItem(m, items[0]).Some? {
      var m' := HandleItem(m, items[0]).value.1;
      HandlingIsReplay(m', items[1..]);
      var rest := HandleAll(m', items[1..]).cmds;
      if items[0].Cmd? {
        var c := items[0].cmd;
        DispatchIsReplay(m, c);
        assert ([c] + rest)[1..] == rest;
        ReplayedConcat(m, Logged(c), LogOf(rest));
      } else {
        assert [] + rest == rest;
      }
    }
  }

  // ---------- Messages ----------

  /** The connection after a message: the bytes sent, the bytes kept, the map and the commands executed. After an
      exception, the read of something missing, or in a loop without end, nothing is sent. */
  datatype Served =
    | Served(out: Bytes, left: Bytes, m: Map, cmds: seq<Command>)
    | Failed(why: Stop, m: Map, cmds: seq<Command>)

  function Serve(left: Bytes, m: Map, message: Bytes): Served {
    Finish(m, Drain(left + message))
  }

  function Finish(m: Map, d: Drained): Served {
    match d
    case Stopped(items, why) =>
      var h := HandleAll(m, items);
      Failed(if h.ok then why else MissingRead, h.m, h.cmds)
    case Idle(items, rest) =>
      var h := HandleAll(m, items);
      if h.ok then Served(h.out, rest, h.m, h.cmds) else Failed(MissingRead, h.m, h.cmds)
  }

  function Then(out: Bytes, cmds: seq<Command>, s: Served): Served {
    match s
    case Served(out', left, m, more) => Served(out + out', left, m, cmds + more)
    case Failed(why, m, more) => Failed(why, m, cmds + more)
  }

  /** Messages one after the other, replies concatenated. */
  function ServeAll(left: Bytes, m: Map, messages: seq<Bytes>): Served
    decreases |messages|
  {
    if messages == [] then Served([], left, m, []) else
    match Serve(left, m, messages[0])
    case Failed(why, m', cmds) => Failed(why, m', cmds)
    case Served(out, left', m', cmds) => Then(out, cmds, ServeAll(left', m', messages[1..]))
  }

  /** What the handler says, stores and executes does not depend on how a settled request stream was split. */
  lemma {:induction false} ServeAllIsServe(left: Bytes, m: Map, messages: seq<Bytes>)
    requires Parse(left) == Partial && SettledStream(left + Concat(messages))
    ensures ServeAll(left, m, messages) == Serve(left, m, Concat(messages))
    decreases |messages|
  {
    hide Parse, SettledStream, HandleAll, Drain;
    if messages == [] {
      assert left + Concat(messages) == left;
      DrainOfPartial(left);
      HandleNothing(m);
    } else {
      var b, x := left + messages[0], Concat(messages[1..]);
      assert left + Concat(messages) == b + x;
      DrainExtends(b, x);
      var d := Drain(b);
      if d.Idle? {
        DrainedIsPartial(b);
        var h := HandleAll(m, d.items);
        if h.ok {
          ServeAllIsServe(d.left, h.m, messages[1..]);
        }
        var rest := Drain(d.left + x);
        HandleAllConcat(m, d.items, rest.items);
      }
    }
  }

  lemma DrainOfPartial(b: Bytes)
    requires Parse(b) == Partial
    ensures Drain(b) == Idle([], b)
  {
    hide Parse;
  }

  lemma HandleNothing(m: Map)
    ensures HandleAll(m, []) == Handled([], m, [], true)
  {
  }

  // ---------- Which commands are handled ----------

  /** A command's name with as many further tokens as handling it reads. */
  predicate Understood(ts: seq<Bytes>)
    requires ts != []
  {
    var name := Upper(ts[0]);
    || name == KEYS_NAME
    || ((name == GET_NAME || name == DEL_NAME || name == EXISTS_NAME) && |ts| >= 2)
    || (name == SET_NAME && |ts| >= 3)
  }

  /** A printed array, followed by anything, is parsed and executed without reading anything missing exactly when
      it holds a command's name with enough further tokens. */
  lemma HandledIff(m: Map, ts: seq<Bytes>, x: Bytes)
    requires ts != [] && |ts| <= INT_MAX && AllInt(ts)
    ensures var r := Parse(EncodeArray(ts) + x);
            r.Parsed? && Dispatch(m, r.cmd).Some? <==> Understood(ts)
  {
    hide Parse, EncodeArray, Upper, Dec;
    NamesApart();
    ArrayRoundTrip(ts, x);
  }

  lemma NamesApart()
    ensures SET_NAME != GET_NAME && SET_NAME != DEL_NAME && GET_NAME != DEL_NAME
    ensures |SET_NAME| == |GET_NAME| == |DEL_NAME| == 3 && |EXISTS_NAME| == 6 && |KEYS_NAME| == 4
  {
    assert SET_NAME[0] == 83 && GET_NAME[0] == 71 && DEL_NAME[0] == 68;
  }

  /** So an unknown command, a SET without a value, or another command without its key, takes the handler to a
      missing token or argument, whatever came before it on the connection was answered or not. */
  lemma NotUnderstood(m: Map, ts: seq<Bytes>, x: Bytes)
    requires ts != [] && |ts| <= INT_MAX && AllInt(ts) && !Understood(ts)
    ensures Serve([], m, EncodeArray(ts) + x) == Failed(MissingRead, m, [])
  {
    hide Parse, EncodeArray, Understood, Dispatch, SerializeResponse, Classify;
    var b := EncodeArray(ts) + x;
    assert [] + b == b;
    HandledIff(m, ts, x);
    ArrayRoundTrip(ts, x);
    NeitherPartialNorRefused(ts, x);
    if Parse(b).Parsed? {
      FirstItem(b);
      var items := Drain(b).items;
      assert HandleItem(m, items[0]) == None;
    }
  }

  lemma NeitherPartialNorRefused(ts: seq<Bytes>, x: Bytes)
    requires ts != []
    ensures Classify(ts, x).Parsed? || Classify(ts, x).Undefined?
  {
    hide Upper;
  }

  // ---------- Replies and refused lines, byte by byte ----------

  /** "+OK", "$-1", "$" with a length and the value, ":" with a number, "-ERR " with a text, each with its line end. */
  lemma ReplyBytes(text: Bytes)
    ensures SerializeResponse(Ok) == [43, 79, 75, 13, 10]
    ensures SerializeResponse(NotFound) == [36, 45, 49, 13, 10]
    ensures SerializeResponse(Value(text)) == [36] + Dec(|text|) + [13, 10] + text + [13, 10]
    ensures SerializeResponse(Count(text)) == [58] + text + [13, 10]
    ensures SerializeResponse(Err(text)) == [45, 69, 82, 82, 32] + text + [13, 10]
  {
    hide Dec;
    Texts();
    hide *;
    PlainReplies();
    TextReplies(text);
  }

  lemma Texts()
    ensures CRLF == [13, 10] && [MINUS] + ERR_TEXT == [45, 69, 82, 82, 32]
    ensures [PLUS] + OK_TEXT + CRLF == [43, 79, 75, 13, 10] && [DOLLAR] + NIL_TEXT + CRLF == [36, 45, 49, 13, 10]
  {
  }

  lemma PlainReplies()
    ensures SerializeResponse(Ok) == [43, 79, 75, 13, 10] && SerializeResponse(NotFound) == [36, 45, 49, 13, 10]
  {
  }

  lemma TextReplies(text: Bytes)
    ensures SerializeResponse(Value(text)) == [36] + Dec(|text|) + [13, 10] + text + [13, 10]
    ensures SerializeResponse(Count(text)) == [58] + text + [13, 10]
    ensures SerializeResponse(Err(text)) == ([MINUS] + ERR_TEXT) + text + [13, 10]
  {
    hide Dec;
  }

  /** A line that is no array header, or one with a count of zero or below, is answered with "-ERR protocol error" and
      its line end, and what follows it is handled as if it had not been there. */
  lemma RefusedLineAnswered(m: Map, line: Bytes, x: Bytes)
    requires RespForms.OneLine(line)
    requires line != [] && line[0] == 42 ==> Stoi(line[1..]).Some? && Stoi(line[1..]).value <= 0
    ensures Serve([], m, line + [13, 10] + x) ==
            Then([45, 69, 82, 82, 32, 112, 114, 111, 116, 111, 99, 111, 108, 32, 101, 114, 114, 111, 114, 13, 10], [],
                 Serve([], m, x))
  {
    hide Parse, Stoi, Drain, HandleAll, RespForms.OneLine;
    var b := line + [13, 10] + x;
    RespForms.FirstLine(line, x);
    assert [] + b == b && [] + x == x;
    DrainUnfold(b);
    RefusalBytes(m);
    HandleSingle(m, BadLine);
    var t := HandleItem(m, BadLine).value.0;
    RefusedThen(m, t, Drain(x));
  }

  lemma RefusedThen(m: Map, t: Bytes, d: Drained)
    requires HandleAll(m, [BadLine]) == Handled(t, m, [], true)
    ensures Finish(m, Before([BadLine], d)) == Then(t, [], Finish(m, d))
  {
    hide HandleAll;
    HandleAllConcat(m, [BadLine], d.items);
  }

  lemma RefusalBytes(m: Map)
    ensures HandleItem(m, BadLine) ==
            Some(([45, 69, 82, 82, 32, 112, 114, 111, 116, 111, 99, 111, 108, 32, 101, 114, 114, 111, 114, 13, 10], m))
  {
    assert [MINUS] + ERR_TEXT + PROTOCOL_TEXT + CRLF ==
           [45, 69, 82, 82, 32, 112, 114, 111, 116, 111, 99, 111, 108, 32, 101, 114, 114, 111, 114, 13, 10];
  }

  // ---------- The code ----------

  /** The moments of successive commands do not go back in time. */
  ghost predicate Timely(env: nat -> Store.Moment) {
    && (forall i :: env(i).now <= env(i).later)
    && (forall i, j :: i < j ==> env(i).later <= env(j).now)
  }

  /** The writes of one command, and of commands executed at successive moments. */
  function Stamp(c: Command, at: Store.Moment): seq<Write> {
    if Logged(c) == [] then [] else [Write(Logged(c)[0], at)]
  }

  function Stamped(cmds: seq<Command>, env: nat -> Store.Moment, first: nat): seq<Write>
    decreases |cmds|
  {
    if cmds == [] then [] else Stamp(cmds[0], env(first)) + Stamped(cmds[1..], env, first + 1)
  }

  lemma {:induction false} StampedConcat(a: seq<Command>, b: seq<Command>, env: nat -> Store.Moment, first: nat)
    ensures Stamped(a + b, env, first) == Stamped(a, env, first) + Stamped(b, env, first + |a|)
    decreases |a|
  {
    hide Stamp;
    if a == [] {
      assert a + b == b;
    } else {
      assert (a + b)[0] == a[0] && (a + b)[1..] == a[1..] + b;
      StampedConcat(a[1..], b, env, first + 1);
    }
  }

  lemma StampedOne(a: seq<Command>, c: Command, env: nat -> Store.Moment, first: nat)
    ensures Stamped(a + [c], env, first) == Stamped(a, env, first) + Stamp(c, env(first + |a|))
  {
    hide Stamp;
    StampedConcat(a, [c], env, first);
    assert [c][1..] == [];
  }

  lemma {:induction false} StampedRecords(cmds: seq<Command>, env: nat -> Store.Moment, first: nat)
    ensures RecordsOf(Stamped(cmds, env, first)) == LogOf(cmds)
    decreases |cmds|
  {
    if cmds != [] {
      StampedRecords(cmds[1..], env, first + 1);
      RecordsConcat(Stamp(cmds[0], env(first)), Stamped(cmds[1..], env, first + 1));
      assert RecordsOf(Stamp(cmds[0], env(first))) == Logged(cmds[0]);
    }
  }

  class Connection {
    const reader: RespReader
    const store: Store.PersistentKvStore

    constructor (store: Store.PersistentKvStore)
      ensures this.store == store && fresh(reader) && reader.buf == []
    {
      reader := new RespReader();
      this.store := store;
    }

    /** The switch over the command's kind; None where it reads missing arguments. */
    method Execute(c: Command, at: Store.Moment)
      returns (resp: Option<Response>, ghost lost: bool, evs: seq<Event>)
      requires store.Valid() && store.clock <= at.now <= at.later
      modifies store, store.wal, store.window
      ensures store.Valid() && store.clock <= at.later
      ensures match Dispatch(old(store.data), c)
              case None => resp == None && unchanged(store)
              case Some((r, m)) => resp == Some(r) && store.data == m
      ensures Went(old(Seen(store)), evs, Seen(store), Stamp(c, at), lost)
    {
      hide Went, Dec;
      resp, lost, evs := None, false, [];
      WentNowhere(Seen(store));
      match c.kind
      case Set =>
        if |c.args| >= 2 {
          lost, evs := Put(c.args[0], c.args[1], at);
          resp := Some(Ok);
        }
      case Get =>
        if |c.args| >= 1 {
          resp := Some(if c.args[0] in store.data then Value(store.data[c.args[0]]) else NotFound);
        }
      case Del =>
        if |c.args| >= 1 {
          var existed;
          existed, lost, evs := Remove(c.args[0], at);
          resp := Some(Count(if existed then [49] else [48]));
        }
      case Exists =>
        if |c.args| >= 1 {
          resp := Some(if c.args[0] in store.data then Ok else NotFound);
        }
      case Keys =>
        resp := Some(Count(Dec(|store.data|)));
      case Unknown =>
        resp := Some(Err(if c.error == UnknownCommand then UNKNOWN_TEXT else ARITY_TEXT));
    }

    /** The store's `Set` with a log that takes the whole record. */
    method Put(key: Bytes, value: Bytes, at: Store.Moment) returns (ghost lost: bool, evs: seq<Event>)
      requires store.Valid() && store.clock <= at.now <= at.later
      modifies store, store.wal, store.window
      ensures store.Valid() && store.clock == at.later
      ensures store.data == old(store.data)[key := value]
      ensures Went(old(Seen(store)), evs, Seen(store), [Write(WalCodec.Record(WalCodec.SET, key, value), at)], lost)
    {
      hide Durability.Inv, WalCodec.Encode, Store.Traced, Durability.Clean, Durability.Base, Durability.Recovered;
      hide ApplyRecord, Replayed, Store.Calm, Went, Store.SnapFile, Store.Triggers;
      var r := WalCodec.Record(WalCodec.SET, key, value);
      Store.WriteApplies(store.data, r);
      ghost var x := Seen(store);
      var threw, snapshotted;
      threw, snapshotted, lost, evs := store.Set(key, value, |WalCodec.Encode(r)|, at);
      WentOneWrite(x, evs, Seen(store), Write(r, at), lost);
    }

    /** The same for `Delete`. */
    method Remove(key: Bytes, at: Store.Moment) returns (existed: bool, ghost lost: bool, evs: seq<Event>)
      requires store.Valid() && store.clock <= at.now <= at.later
      modifies store, store.wal, store.window
      ensures store.Valid() && store.clock == at.later && (existed <==> key in old(store.data))
      ensures store.data == old(store.data) - {key}
      ensures Went(old(Seen(store)), evs, Seen(store), [Write(WalCodec.Record(WalCodec.DEL, key, []), at)], lost)
    {
      hide Durability.Inv, WalCodec.Encode, Store.Traced, Durability.Clean, Durability.Base, Durability.Recovered;
      hide ApplyRecord, Replayed, Store.Calm, Went, Store.SnapFile, Store.Triggers;
      var r := WalCodec.Record(WalCodec.DEL, key, []);
      Store.WriteApplies(store.data, r);
      ghost var x := Seen(store);
      var threw, snapshotted;
      threw, existed, snapshotted, lost, evs := store.Delete(key, |WalCodec.Encode(r)|, at);
      WentOneWrite(x, evs, Seen(store), Write(r, at), lost);
    }

    /** The next command of a session, executed at its moment. */
    method ExecuteNext(c: Command, env: nat -> Store.Moment, ghost first: nat, next: nat,
                       ghost start: Sight, ghost cmds: seq<Command>, ghost before: bool, trace: seq<Event>)
      returns (resp: Option<Response>, ghost lost: bool, evs: seq<Event>)
      requires store.Valid() && Timely(env) && store.clock <= env(next).now && next == first + |cmds|
      requires Went(start, trace, Seen(store), Stamped(cmds, env, first), before)
      modifies store, store.wal, store.window
      ensures store.Valid()
      ensures match Dispatch(old(store.data), c)
              case None =>
                && resp == None && store.data == old(store.data) && store.clock <= env(next).now
                && Went(start, evs, Seen(store), Stamped(cmds, env, first), lost)
              case Some((r, m)) =>
                && resp == Some(r) && store.data == m && store.clock <= env(next + 1).now
                && Went(start, evs, Seen(store), Stamped(cmds + [c], env, first), lost)
    {
      hide Dispatch, Went, Timely, Stamp, Stamped;
      ghost var mid := Seen(store);
      InTime(env, next);
      ghost var more;
      resp, more, evs := Execute(c, env(next));
      StampedOne(cmds, c, env, first);
      WentOn(start, trace, mid, Stamped(cmds, env, first), before, evs, Seen(store), Stamp(c, env(next)), more);
      if Dispatch(mid.state.data, c) == None {
        NothingStamped(mid.state.data, c, env(next));
        assert Stamped(cmds, env, first) + [] == Stamped(cmds, env, first);
      }
      lost, evs := before || more, trace + evs;
    }

    /** Feed, then parse and answer until nothing complete is left. The i-th command executed is executed at
        `env(first + i)`. Where the code throws, reads something missing, or would go round forever, the model stops. */
    method OnMessage(data: Bytes, env: nat -> Store.Moment, first: nat)
      returns (result: Bytes, stop: Option<Stop>, next: nat, ghost lost: bool, evs: seq<Event>)
      requires store.Valid() && Timely(env) && store.clock <= env(first).now
      modifies reader, store, store.wal, store.window
      ensures store.Valid() && store.clock <= env(next).now
      ensures var served := Serve(old(reader.buf), old(store.data), data);
              && next == first + |served.cmds|
              && Went(old(Seen(store)), evs, Seen(store), Stamped(served.cmds, env, first), lost)
              && match stop
                 case None => served == Served(result, reader.buf, store.data, served.cmds)
                 case Some(why) => served == Failed(why, store.data, served.cmds)
    {
      hide Parse, Dispatch, SerializeResponse, Answered, Drain, Went, Timely, Finish, Stamped;
      hide Store.PersistentKvStore.Valid, Seen;
      reader.Feed(data);
      result, stop, next, lost, evs := [], None, first, false, [];
      ghost var b, m, start := reader.buf, store.data, Seen(store);
      ghost var done: seq<Item>, cmds: seq<Command> := [], [];
      StartAnswering(b, m);
      WentNowhere(start);
      StampedNothing(env, first);
      while true
        invariant store.Valid() && store.clock <= env(next).now && next == first + |cmds|
        invariant Answered(b, m, done, result, cmds, reader.buf, store.data)
        invariant Went(start, evs, Seen(store), Stamped(cmds, env, first), lost)
        decreases |reader.buf|
      {
        ghost var buf := reader.buf;
        var size := |reader.buf|;
        TakeOne(b, m, done, result, cmds, buf, store.data);
        var res := reader.TryParse();
        if res == Partial {
          return;
        }
        if res == Throws {
          stop := Some(Exception);
          return;
        }
        if res == Undefined {
          stop := Some(MissingRead);
          return;
        }
        if res.ProtocolError? {
          RefusedLine(b, m, done, result, cmds, buf, reader.buf, store.data);
          result := result + ([MINUS] + ERR_TEXT + PROTOCOL_TEXT + CRLF);
          done := done + [BadLine];
          continue;
        }
        AnswerOne(b, m, done, result, cmds, buf, reader.buf, store.data, res.cmd);
        var resp;
        resp, lost, evs := ExecuteNext(res.cmd, env, first, next, start, cmds, lost, evs);
        if resp == None {
          stop := Some(MissingRead);
          return;
        }
        next := next + 1;
        done, cmds := done + [Cmd(res.cmd)], cmds + [res.cmd];
        result := result + SerializeResponse(resp.value);
        if |reader.buf| >= size {
          stop := Some(Endless);
          return;
        }
      }
    }
  }

  lemma StampedNothing(env: nat -> Store.Moment, first: nat)
    ensures Stamped([], env, first) == []
  {
  }

  lemma NothingStamped(m: Map, c: Command, at: Store.Moment)
    requires Dispatch(m, c) == None
    ensures Stamp(c, at) == []
  {
    hide Dec;
  }

  lemma InTime(env: nat -> Store.Moment, i: nat)
    requires Timely(env)
    ensures env(i).now <= env(i).later <= env(i + 1).now
  {
  }

  /** The drain loop so far: `done` taken, answered and executed, `buf` still to be drained. */
  ghost predicate Answered(b: Bytes, m: Map, done: seq<Item>, result: Bytes, cmds: seq<Command>,
                           buf: Bytes, data: Map)
  {
    && HandleAll(m, done) == Handled(result, data, cmds, true)
    && Drain(b) == Before(done, Drain(buf))
  }

  lemma StartAnswering(b: Bytes, m: Map)
    ensures Answered(b, m, [], [], [], b, m)
  {
    hide Drain;
    BeforeTwice([], [], Drain(b));
  }

  /** What it means for the whole message that the next parse takes nothing. */
  lemma TakeOne(b: Bytes, m: Map, done: seq<Item>, result: Bytes, cmds: seq<Command>, buf: Bytes, data: Map)
    requires Answered(b, m, done, result, cmds, buf, data)
    ensures match Parse(buf)
            case Partial => Finish(m, Drain(b)) == Served(result, buf, data, cmds)
            case Throws => Finish(m, Drain(b)) == Failed(Exception, data, cmds)
            case Undefined => Finish(m, Drain(b)) == Failed(MissingRead, data, cmds)
            case _ => true
  {
    hide Parse, HandleAll;
    assert done + [] == done;
  }

  /** And what the next item means. */
  lemma AnswerItem(b: Bytes, m: Map, done: seq<Item>, result: Bytes, cmds: seq<Command>,
                   buf: Bytes, rest: Bytes, data: Map, item: Item)
    requires Answered(b, m, done, result, cmds, buf, data) && Drain(buf) == Onward(buf, item, rest)
    ensures match HandleItem(data, item)
            case None => Finish(m, Drain(b)) == Failed(MissingRead, data, cmds)
            case Some((reply, m')) =>
              if |rest| >= |buf| then Finish(m, Drain(b)) == Failed(Endless, m', cmds + ItemCommands(item))
              else Answered(b, m, done + [item], result + reply, cmds + ItemCommands(item), rest, m')
  {
    hide HandleItem, Drain, ItemCommands, HandleAll, Finish, Before;
    var taken := done + [item];
    HandleAllConcat(m, done, [item]);
    HandleSingle(data, item);
    assert cmds + [] == cmds && result + [] == result;
    if |rest| >= |buf| {
      BeforeStopped(done, [item], Endless);
      FinishStopped(m, taken, Endless);
    } else {
      BeforeTwice(done, [item], Drain(rest));
      if HandleItem(data, item) == None {
        FinishFailed(m, taken, Drain(rest));
      }
    }
  }

  lemma BeforeStopped(xs: seq<Item>, ys: seq<Item>, why: Stop)
    ensures Before(xs, Stopped(ys, why)) == Stopped(xs + ys, why)
  {
  }

  lemma FinishStopped(m: Map, items: seq<Item>, why: Stop)
    ensures var h := HandleAll(m, items);
            Finish(m, Stopped(items, why)) == Failed(if h.ok then why else MissingRead, h.m, h.cmds)
  {
    hide HandleAll;
  }

  /** Once an item cannot be handled, what comes after it does not matter. */
  lemma FinishFailed(m: Map, items: seq<Item>, d: Drained)
    requires !HandleAll(m, items).ok
    ensures Finish(m, Before(items, d)) == Failed(MissingRead, HandleAll(m, items).m, HandleAll(m, items).cmds)
  {
    hide HandleAll;
    HandleAllConcat(m, items, d.items);
  }

  lemma HandleSingle(m: Map, item: Item)
    ensures HandleAll(m, [item]) == match HandleItem(m, item)
                                    case None => Handled([], m, [], false)
                                    case Some((reply, m')) => Handled(reply, m', ItemCommands(item), true)
  {
    hide HandleItem, ItemCommands;
    assert [item][1..] == [];
    assert ItemCommands(item) + [] == ItemCommands(item);
    if HandleItem(m, item).Some? {
      var reply := HandleItem(m, item).value.0;
      assert reply + [] == reply;
    }
  }

  lemma AnswerOne(b: Bytes, m: Map, done: seq<Item>, result: Bytes, cmds: seq<Command>,
                  buf: Bytes, rest: Bytes, data: Map, c: Command)
    requires Answered(b, m, done, result, cmds, buf, data) && Parse(buf) == Parsed(c, rest)
    ensures match Dispatch(data, c)
            case None => Finish(m, Drain(b)) == Failed(MissingRead, data, cmds)
            case Some((r, m')) =>
              if |rest| >= |buf| then Finish(m, Drain(b)) == Failed(Endless, m', cmds + [c])
              else Answered(b, m, done + [Cmd(c)], result + SerializeResponse(r), cmds + [c], rest, m')
  {
    hide Parse, Dispatch, SerializeResponse, Answered, Finish;
    DrainUnfold(buf);
    AnswerItem(b, m, done, result, cmds, buf, rest, data, Cmd(c));
  }

  lemma RefusedLine(b: Bytes, m: Map, done: seq<Item>, result: Bytes, cmds: seq<Command>,
                    buf: Bytes, rest: Bytes, data: Map)
    requires Answered(b, m, done, result, cmds, buf, data) && Parse(buf) == ProtocolError(rest)
    ensures |rest| < |buf|
    ensures Answered(b, m, done + [BadLine], result + ([MINUS] + ERR_TEXT + PROTOCOL_TEXT + CRLF), cmds, rest, data)
  {
    hide Parse, Answered, Finish;
    ParseShrinksIff(buf);
    DrainUnfold(buf);
    AnswerItem(b, m, done, result, cmds, buf, rest, data, BadLine);
    assert cmds + [] == cmds;
  }

  lemma DrainUnfold(b: Bytes)
    ensures Parse(b).Parsed? ==> Drain(b) == Onward(b, Cmd(Parse(b).cmd), Parse(b).rest)
    ensures Parse(b).ProtocolError? ==> Drain(b) == Onward(b, BadLine, Parse(b).rest)
  {
    hide Parse, Onward;
  }
}
