/** The client (client.cpp): framing a reply that arrives in pieces, decoding it, and calls over the wire. */
module Client {
  import opened Bytes
  import opened Options
  import opened Resp
  import opened RespStream
  import opened Replay
  import opened Server

  // ---------- Framing ----------

  datatype Framing = More | Done | FrameThrows

  /** The test at the top of the receive loop. */
  function Frame(buf: Bytes): Framing {
    if buf == [] then More else
    match FindCrlf(buf, 0)
    case None => More
    case Some(i) =>
      if buf[0] == PLUS || buf[0] == MINUS || buf[0] == COLON then Done
      else if buf[0] == DOLLAR then
        match Stoi(buf[1..i])
        case None => FrameThrows
        case Some(len) =>
          if len == -1 then Done
          else if 0 <= i + 4 + len <= |buf| then Done
          else More
      else More
  }

  /** What `SendCommand` returns: the bytes received, or nothing when the connection ended first. */
  datatype Reply = Reply(bytes: Bytes) | Closed | ReplyThrows

  /** Receiving `chunks` one by one after `buf`; an empty chunk is the end of the connection. */
  function Receive(buf: Bytes, chunks: seq<Bytes>): Reply
    decreases |chunks|
  {
    match Frame(buf)
    case Done => Reply(buf)
    case FrameThrows => ReplyThrows
    case More => if chunks == [] || chunks[0] == [] then Closed else Receive(buf + chunks[0], chunks[1..])
  }

  method ReceiveReply(chunks: seq<Bytes>) returns (reply: Reply)
    ensures reply == Receive([], chunks)
  {
    hide Frame;
    var buf: Bytes := [];
    var next := 0;
    while true
      invariant next <= |chunks| && Receive(buf, chunks[next..]) == Receive([], chunks)
      decreases |chunks| - next
    {
      var framing := Frame(buf);
      if framing == Done {
        return Reply(buf);
      }
      if framing == FrameThrows {
        return ReplyThrows;
      }
      if next == |chunks| || chunks[next] == [] {
        return Closed;
      }
      assert chunks[next..][0] == chunks[next] && chunks[next..][1..] == chunks[next + 1..];
      buf := buf + chunks[next];
      next := next + 1;
    }
  }

  // ---------- A reply is framed exactly when all of it is there ----------

  /** Replies whose printed form the client can frame. */
  ghost predicate Framable(r: Response) {
    match r
    case Ok => true
    case NotFound => true
    case Value(v) => |v| <= INT_MAX
    case Err(msg) => CR !in msg
    case Count(msg) => CR !in msg
  }

  lemma {:induction false} NoCrlf(b: Bytes, pos: nat)
    requires forall j :: pos <= j < |b| - 1 ==> b[j] != CR
    ensures FindCrlf(b, pos) == None
    decreases |b| - pos
  {
    if pos + 2 <= |b| {
      NoCrlf(b, pos + 1);
    }
  }

  /** A one-line reply: no line end before the last two bytes. */
  lemma OneLine(line: Bytes, p: Bytes)
    requires CR !in line && p <= line + CRLF
    ensures FindCrlf(p, 0) == if p == line + CRLF then Some(|line|) else None
  {
    hide FindCrlf;
    var b := line + CRLF;
    forall j | 0 <= j < |p| && j < |line|
      ensures p[j] != CR
    {
      assert p[j] == line[j];
      assert line[j] in line;
    }
    if p == b {
      FindCrlfAt(p, 0, |line|);
    } else {
      NoCrlf(p, 0);
    }
  }

  lemma OneLineFrame(c: Byte, text: Bytes, p: Bytes)
    requires c == PLUS || c == MINUS || c == COLON
    requires CR !in text && p <= [c] + text + CRLF
    ensures Frame(p) == if p == [c] + text + CRLF then Done else More
  {
    hide FindCrlf;
    OneLine([c] + text, p);
  }

  lemma NilFrame(p: Bytes)
    requires p <= [DOLLAR] + NIL_TEXT + CRLF
    ensures Frame(p) == if p == [DOLLAR] + NIL_TEXT + CRLF then Done else More
  {
    hide FindCrlf, Stoi;
    OneLine([DOLLAR] + NIL_TEXT, p);
    StoiOfNegative(1);
    assert Dec(1) == [49];
    assert [45] + [49] == NIL_TEXT;
    if p == [DOLLAR] + NIL_TEXT + CRLF {
      assert p[1..3] == NIL_TEXT;
    }
  }

  lemma ValueFrame(v: Bytes, p: Bytes)
    requires |v| <= INT_MAX && p <= SerializeResponse(Value(v))
    ensures Frame(p) == if p == SerializeResponse(Value(v)) then Done else More
  {
    hide FindCrlf, Stoi, Dec, Frame;
    var line := [DOLLAR] + Dec(|v|);
    var full := SerializeResponse(Value(v));
    assert full == line + CRLF + v + CRLF;
    DecDigits(|v|);
    assert CR !in line;
    if |p| < |line| + 2 {
      assert p <= line + CRLF;
      OneLine(line, p);
      FrameOfPart(p);
    } else {
      assert p[..|line| + 2] == line + CRLF;
      HeaderFrame(v, p);
    }
  }

  lemma FrameOfPart(p: Bytes)
    requires FindCrlf(p, 0) == None
    ensures Frame(p) == More
  {
    hide FindCrlf;
  }

  /** With a complete header line, what counts is the announced length. */
  lemma HeaderFrame(v: Bytes, p: Bytes)
    requires var line := [DOLLAR] + Dec(|v|);
             |v| <= INT_MAX && |p| >= |line| + 2 && p[..|line| + 2] == line + CRLF
    ensures Frame(p) == if |p| >= |Dec(|v|)| + 5 + |v| then Done else More
  {
    hide FindCrlf, Stoi, Dec;
    var line := [DOLLAR] + Dec(|v|);
    var x := p[|line| + 2..];
    assert p == [] + ([DOLLAR] + Dec(|v|) + CRLF + x);
    HeaderFound([], DOLLAR, |v|, x);
    assert p[1..|line|] == Dec(|v|);
    StoiOfDec(|v|);
  }

  /** The receive loop's test holds of a printed reply and of none of its proper prefixes. */
  lemma FrameExact(r: Response, p: Bytes)
    requires Framable(r) && p <= SerializeResponse(r)
    ensures Frame(p) == if p == SerializeResponse(r) then Done else More
  {
    hide Frame, Dec;
    match r
    case Ok => OneLineFrame(PLUS, OK_TEXT, p);
    case Value(v) => ValueFrame(v, p);
    case NotFound => NilFrame(p);
    case Err(msg) =>
      assert [MINUS] + ERR_TEXT + msg + CRLF == [MINUS] + (ERR_TEXT + msg) + CRLF;
      OneLineFrame(MINUS, ERR_TEXT + msg, p);
    case Count(msg) => OneLineFrame(COLON, msg, p);
  }

  /** A reply cut into any nonempty pieces is received whole. */
  lemma {:induction false} ReceiveWhole(r: Response, buf: Bytes, chunks: seq<Bytes>)
    requires Framable(r) && buf + Concat(chunks) == SerializeResponse(r)
    requires forall c :: c in chunks ==> c != []
    ensures Receive(buf, chunks) == Reply(SerializeResponse(r))
    decreases |chunks|
  {
    hide Frame, SerializeResponse;
    FrameExact(r, buf);
    if chunks == [] {
      assert buf + Concat(chunks) == buf;
    } else {
      assert chunks[0] in chunks;
      assert Concat(chunks) == chunks[0] + Concat(chunks[1..]);
      assert |buf| < |SerializeResponse(r)|;
      assert forall c :: c in chunks[1..] ==> c in chunks;
      assert (buf + chunks[0]) + Concat(chunks[1..]) == SerializeResponse(r);
      ReceiveWhole(r, buf + chunks[0], chunks[1..]);
    }
  }

  // ---------- Calls ----------

  datatype Call = SetCall(key: Bytes, value: Bytes) | GetCall(key: Bytes) | DeleteCall(key: Bytes)
                | ExistsCall(key: Bytes) | KeysCall

  /** What a call returns; `Raises` where `stoi` throws. */
  datatype Answer = Bool(b: bool) | Optional(v: Option<Bytes>) | Size(n: int) | Raises

  function Request(c: Call): (Kind, seq<Bytes>) {
    match c
    case SetCall(k, v) => (Set, [k, v])
    case GetCall(k) => (Get, [k])
    case DeleteCall(k) => (Del, [k])
    case ExistsCall(k) => (Exists, [k])
    case KeysCall => (Keys, [])
  }

  function RequestBytes(c: Call): Bytes {
    EncodeCommand(Request(c).0, Request(c).1)
  }

  /** The client's reading of the bytes received; a connection that ended gives the empty string. */
  function Decode(c: Call, resp: Bytes): Answer {
    match c
    case SetCall(_, _) => Bool(|resp| >= 4 && resp[0] == PLUS)
    case ExistsCall(_) => Bool(|resp| >= 4 && resp[0] == PLUS)
    case GetCall(_) =>
      if resp == [] || resp[0] != DOLLAR then Optional(None) else
      (match FindCrlf(resp, 0)
       case None => Optional(None)
       case Some(i) =>
         match Stoi(resp[1..i])
         case None => Raises
         case Some(len) =>
           if len == -1 then Optional(None)
           else if 0 <= len && i + 2 + len <= |resp| then Optional(Some(resp[i + 2..i + 2 + len]))
           else Optional(Some(resp[i + 2..])))
    case DeleteCall(_) =>
      if resp == [] || resp[0] != COLON then Bool(false)
      else Bool(|resp| == 1 || resp[1] != 48)
    case KeysCall =>
      if resp == [] || resp[0] != COLON then Size(0) else
      match Stoi(resp[1..])
      case None => Raises
      case Some(n) => Size(n)
  }

  // ---------- The plain map ----------

  /** The same call on a map. */
  function MapCall(m: Map, c: Call): (Answer, Map) {
    match c
    case SetCall(k, v) => (Bool(true), m[k := v])
    case GetCall(k) => (Optional(if k in m then Some(m[k]) else None), m)
    case DeleteCall(k) => (Bool(k in m), m - {k})
    case ExistsCall(k) => (Bool(k in m), m)
    case KeysCall => (Size(|m|), m)
  }

  function CommandOf(c: Call): Command {
    Command(Request(c).0, Request(c).1, NoError)
  }

  /** The server's reply to the call. */
  function ResponseTo(m: Map, c: Call): Response {
    Dispatch(m, CommandOf(c)).value.0
  }

  /** The record the call leaves in the log. */
  function CallLog(c: Call): seq<Record> {
    Logged(CommandOf(c))
  }

  /** Lengths and counts that fit the `int` they are printed into. */
  ghost predicate MapInt(m: Map) {
    |m| <= INT_MAX && forall k :: k in m ==> |m[k]| <= INT_MAX
  }

  /** The server does to the map what the call does to a plain one, and that is replaying its record. */
  lemma DispatchIsMapCall(m: Map, c: Call)
    ensures Dispatch(m, CommandOf(c)) == Some((ResponseTo(m, c), MapCall(m, c).1))
    ensures MapCall(m, c).1 == Replayed(m, CallLog(c))
  {
    hide Dec, Replayed;
    DispatchIsReplay(m, CommandOf(c));
  }

  lemma ResponseFramable(m: Map, c: Call)
    requires MapInt(m)
    ensures Framable(ResponseTo(m, c))
  {
    hide Dec;
    DecDigits(|m|);
  }

  lemma DecodeValue(k: Bytes, v: Bytes)
    requires |v| <= INT_MAX
    ensures Decode(GetCall(k), SerializeResponse(Value(v))) == Optional(Some(v))
  {
    hide FindCrlf, Stoi, Dec;
    var resp := SerializeResponse(Value(v));
    var n := |Dec(|v|)| + 1;
    var x := v + CRLF;
    assert resp == [] + ([DOLLAR] + Dec(|v|) + CRLF + x);
    HeaderFound([], DOLLAR, |v|, x);
    assert resp[1..n] == Dec(|v|);
    StoiOfDec(|v|);
    assert resp[n + 2..n + 2 + |v|] == v;
  }

  lemma DecodeNil(k: Bytes)
    ensures Decode(GetCall(k), SerializeResponse(NotFound)) == Optional(None)
  {
    hide FindCrlf, Stoi;
    var resp := SerializeResponse(NotFound);
    FindCrlfAt(resp, 0, 3);
    StoiOfNegative(1);
    assert Dec(1) == [49];
    assert resp[1..3] == [45] + [49];
  }

  /** `stoi` reads a count and stops at the line end. */
  lemma DecodeCount(n: nat)
    requires n <= INT_MAX
    ensures Decode(KeysCall, SerializeResponse(Count(Dec(n)))) == Size(n)
  {
    hide Dec, SkipSpace, DigitPrefix, DecValue;
    var resp := SerializeResponse(Count(Dec(n)));
    assert resp[1..] == Dec(n) + CRLF;
    DecDigits(n);
    SkipNoSpace(resp[1..]);
    DigitPrefixStops(Dec(n), CRLF);
  }

  lemma {:induction false} DigitPrefixStops(s: Bytes, t: Bytes)
    requires forall i :: 0 <= i < |s| ==> IsDigit(s[i])
    requires t != [] && !IsDigit(t[0])
    ensures DigitPrefix(s + t) == s
    decreases |s|
  {
    if s == [] {
      assert s + t == t;
    } else {
      assert (s + t)[0] == s[0] && (s + t)[1..] == s[1..] + t;
      DigitPrefixStops(s[1..], t);
      assert s == [s[0]] + s[1..];
    }
  }

  lemma DecodeResponse(m: Map, c: Call)
    requires MapInt(m)
    ensures Decode(c, SerializeResponse(ResponseTo(m, c))) == MapCall(m, c).0
  {
    hide Decode, SerializeResponse, Dec;
    match c
    case SetCall(_, _) => DecodeFlag(c);
    case ExistsCall(_) => DecodeFlag(c);
    case GetCall(k) =>
      if k in m {
        DecodeValue(k, m[k]);
      } else {
        DecodeNil(k);
      }
    case DeleteCall(k) => DecodeDeleted(k);
    case KeysCall => DecodeCount(|m|);
  }

  lemma DecodeFlag(c: Call)
    requires c.SetCall? || c.ExistsCall?
    ensures Decode(c, SerializeResponse(Ok)) == Bool(true)
    ensures Decode(c, SerializeResponse(NotFound)) == Bool(false)
  {
  }

  lemma DecodeDeleted(k: Bytes)
    ensures Decode(DeleteCall(k), SerializeResponse(Count([49]))) == Bool(true)
    ensures Decode(DeleteCall(k), SerializeResponse(Count([48]))) == Bool(false)
  {
  }

  /** What a call answers when the server did nothing for it. */
  function Nothing(c: Call): Answer {
    match c
    case SetCall(_, _) => Bool(false)
    case GetCall(_) => Optional(None)
    case DeleteCall(_) => Bool(false)
    case ExistsCall(_) => Bool(false)
    case KeysCall => Size(0)
  }

  /** A connection that ends before the whole reply has come gives false, no value or zero, however much has come. */
  lemma {:induction false} ReplyCutShort(c: Call, r: Response, buf: Bytes, chunks: seq<Bytes>)
    requires Framable(r) && buf + Concat(chunks) < SerializeResponse(r)
    requires forall k :: k in chunks ==> k != []
    ensures Receive(buf, chunks) == Receive(buf, chunks + [[]]) == Closed
    ensures AnswerFrom(c, Receive(buf, chunks)) == Nothing(c)
    decreases |chunks|
  {
    hide Frame, SerializeResponse, FindCrlf, Stoi;
    FrameExact(r, buf);
    if chunks == [] {
      assert buf + Concat(chunks) == buf;
      assert (chunks + [[]])[0] == [];
    } else {
      assert chunks[0] in chunks;
      assert (chunks + [[]])[0] == chunks[0] && (chunks + [[]])[1..] == chunks[1..] + [[]];
      assert (buf + chunks[0]) + Concat(chunks[1..]) == buf + Concat(chunks);
      assert forall k :: k in chunks[1..] ==> k in chunks;
      ReplyCutShort(c, r, buf + chunks[0], chunks[1..]);
    }
  }

  /** An error reply gives the same. */
  lemma ErrorReply(c: Call, text: Bytes)
    ensures Decode(c, SerializeResponse(Err(text))) == Nothing(c)
  {
    hide FindCrlf, Stoi;
  }

  // ---------- One call over the wire ----------

  ghost predicate CallInt(c: Call) {
    AllInt(Request(c).1)
  }

  /** The request, split anyhow, reaches the handler, is answered as the map answers it, and is executed once. */
  lemma ServeCall(m: Map, c: Call, messages: seq<Bytes>)
    requires CallInt(c) && Concat(messages) == RequestBytes(c)
    ensures ServeAll([], m, messages) ==
            Served(SerializeResponse(ResponseTo(m, c)), [], MapCall(m, c).1, [CommandOf(c)])
  {
    hide Parse, SettledStream, EncodeCommand, Dispatch, SerializeResponse, ResponseTo, MapCall, Drain, Regular;
    var (k, args) := Request(c);
    var e := RequestBytes(c);
    var cmd := CommandOf(c);
    CommandRoundTrip(k, args, []);
    assert e + [] == e;
    ParseOfNothing();
    SettledOne(e, cmd);
    assert [] + e == e;
    ServeAllIsServe([], m, messages);
    DispatchIsMapCall(m, c);
    HandleSingle(m, Cmd(cmd));
  }

  lemma ParseOfNothing()
    ensures Parse([]) == Partial
  {
  }

  lemma SettledOne(b: Bytes, cmd: Command)
    requires Regular(b) && Parse(b) == Parsed(cmd, [])
    ensures SettledStream(b) && Drain(b) == Idle([Cmd(cmd)], [])
  {
    hide Parse, Regular, SettledPrefixes;
    ParseOfNothing();
    NothingIsRegular();
    RegularPrefixes([]);
    RegularPrefixes(b);
    assert b != [];
    DrainUnfold(b);
    DrainOfPartial([]);
    assert [Cmd(cmd)] + [] == [Cmd(cmd)];
  }

  lemma NothingIsRegular()
    ensures Regular([])
  {
  }

  // ---------- Whole sessions ----------

  /** One call with the pieces in which its request reached the server and its reply the client. */
  datatype Exchange = Exchange(call: Call, messages: seq<Bytes>, chunks: seq<Bytes>)

  /** The bytes the server sends for the messages. */
  function Sent(left: Bytes, m: Map, messages: seq<Bytes>): Bytes {
    match ServeAll(left, m, messages)
    case Failed(_, _, _) => []
    case Served(out, _, _, _) => out
  }

  /** The messages are a splitting of the request, the chunks one of what the server sent. */
  ghost predicate Carried(left: Bytes, m: Map, x: Exchange) {
    && Concat(x.messages) == RequestBytes(x.call)
    && Concat(x.chunks) == Sent(left, m, x.messages)
    && forall c :: c in x.chunks ==> c != []
  }

  /** The same for every call, the server going on from where the last call left it. */
  ghost predicate AllCarried(left: Bytes, m: Map, xs: seq<Exchange>)
    decreases |xs|
  {
    xs == [] ||
    (Carried(left, m, xs[0]) &&
     match ServeAll(left, m, xs[0].messages)
     case Failed(_, _, _) => true
     case Served(_, left', m', _) => AllCarried(left', m', xs[1..]))
  }

  function AnswerFrom(c: Call, reply: Reply): Answer {
    match reply
    case Reply(bytes) => Decode(c, bytes)
    case Closed => Decode(c, [])
    case ReplyThrows => Raises
  }

  /** The answers a client gets over the wire, one call after the other; none after the server failed. */
  ghost function Session(left: Bytes, m: Map, xs: seq<Exchange>): seq<Answer>
    decreases |xs|
  {
    if xs == [] then [] else
    var answer := AnswerFrom(xs[0].call, Receive([], xs[0].chunks));
    match ServeAll(left, m, xs[0].messages)
    case Failed(_, _, _) => [answer]
    case Served(_, left', m', _) => [answer] + Session(left', m', xs[1..])
  }

  /** The answers of a plain map. */
  function MapAnswers(m: Map, calls: seq<Call>): seq<Answer>
    decreases |calls|
  {
    if calls == [] then [] else [MapCall(m, calls[0]).0] + MapAnswers(MapCall(m, calls[0]).1, calls[1..])
  }

  function CallsOf(xs: seq<Exchange>): seq<Call> {
    if xs == [] then [] else [xs[0].call] + CallsOf(xs[1..])
  }

  lemma UpdateSize(m: Map, k: Bytes, v: Bytes)
    ensures |m[k := v]| <= |m| + 1 && |m - {k}| <= |m|
  {
    assert m[k := v].Keys == m.Keys + {k};
    assert (m - {k}).Keys == m.Keys - {k};
  }

  lemma MapCallInt(m: Map, c: Call)
    requires MapInt(m) && CallInt(c) && |m| < INT_MAX
    ensures MapInt(MapCall(m, c).1) && |MapCall(m, c).1| <= |m| + 1
  {
    match c
    case SetCall(k, v) =>
      assert v in Request(c).1;
      UpdateSize(m, k, v);
    case DeleteCall(k) => UpdateSize(m, k, []);
    case _ =>
  }

  /** The reply, cut anyhow, is received and decoded as the plain map's answer. */
  lemma ReplyDecodes(m: Map, c: Call, chunks: seq<Bytes>)
    requires MapInt(m) && Concat(chunks) == SerializeResponse(ResponseTo(m, c))
    requires forall k :: k in chunks ==> k != []
    ensures AnswerFrom(c, Receive([], chunks)) == MapCall(m, c).0
  {
    hide Decode, MapCall, SerializeResponse, Receive, MapInt, ResponseTo;
    ResponseFramable(m, c);
    assert [] + Concat(chunks) == Concat(chunks);
    ReceiveWhole(ResponseTo(m, c), [], chunks);
    DecodeResponse(m, c);
  }

  /** End to end: for every sequence of calls of one client, any bytes in keys and values, and any splitting of
      requests and replies, the answers are exactly those of a plain map. */
  lemma {:induction false} SessionIsMap(m: Map, xs: seq<Exchange>)
    requires MapInt(m) && |m| + |xs| <= INT_MAX
    requires forall x :: x in xs ==> CallInt(x.call)
    requires AllCarried([], m, xs)
    ensures Session([], m, xs) == MapAnswers(m, CallsOf(xs))
    decreases |xs|
  {
    hide ServeAll, RequestBytes, Decode, MapCall, SerializeResponse, Receive, MapInt, CallInt, ResponseTo;
    if xs != [] {
      var x := xs[0];
      assert x in xs;
      ServeCall(m, x.call, x.messages);
      ReplyDecodes(m, x.call, x.chunks);
      MapCallInt(m, x.call);
      SessionIsMap(MapCall(m, x.call).1, xs[1..]);
    }
  }
}
