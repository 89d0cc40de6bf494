/** Parsing a byte stream that arrives in pieces: commands survive printing and parsing, incomplete
    commands wait, and the results do not depend on how the stream was split. */
module RespStream {
  import opened Bytes
  import opened Options
  import opened Resp

  // ---------- Lengths below -1 ----------

  /** The length announced by a complete bulk header at `pos`, if it is a number. */
  function HeaderLength(b: Bytes, pos: nat): Option<int> {
    if pos >= |b| || b[pos] != DOLLAR then None else
    match ReadLine(b, pos)
    case None => None
    case Some((line, _)) => Stoi(line[1..])
  }

  /** The header at `pos` announces a length below -1, so that its token is all the buffer holds: it is still open. */
  predicate Open(b: Bytes, pos: nat) {
    HeaderLength(b, pos).Some? && HeaderLength(b, pos).value < -1
  }

  /** Which of the tokens are open. */
  function OpenTokens(b: Bytes, pos: nat, n: nat): (flags: seq<bool>)
    requires pos <= |b| && ReadTokens(b, pos, n).Tokens?
    ensures |flags| == n
    decreases n
  {
    if n == 0 then [] else [Open(b, pos)] + OpenTokens(b, ReadBulk(b, pos).next, n - 1)
  }

  /** None of the bulk headers the parser reaches announces a length below -1. */
  ghost predicate RegularTokens(b: Bytes, pos: nat, n: nat)
    decreases n
  {
    n == 0 ||
    (!Open(b, pos) && (ReadBulk(b, pos).Bulk? ==> RegularTokens(b, ReadBulk(b, pos).next, n - 1)))
  }

  /** The position behind a complete array header and the number of tokens it announces, if it announces any. */
  function ArrayHeader(b: Bytes): (o: Option<(nat, nat)>)
    ensures o.Some? ==> 2 <= o.value.0 <= |b| && o.value.1 > 0
  {
    match ReadLine(b, 0)
    case None => None
    case Some((line, p)) =>
      if line == [] || line[0] != STAR then None else
      match Stoi(line[1..])
      case None => None
      case Some(n) => if n <= 0 then None else Some((p, n))
  }

  ghost predicate Regular(b: Bytes) {
    ArrayHeader(b).Some? ==> RegularTokens(b, ArrayHeader(b).value.0, ArrayHeader(b).value.1)
  }

  /** What the tokens read from `b` come to. */
  function TokensResult(b: Bytes, r: Tokens): Result
    requires r.Tokens? ==> r.tokens != [] && r.next <= |b|
  {
    match r
    case TokensMissing => Partial
    case TokensThrow => Throws
    case Tokens(ts, q) => Classify(ts, b[q..])
  }

  /** Parsing behind an array header is reading the tokens and classifying them. */
  lemma ParseArray(b: Bytes)
    requires ArrayHeader(b).Some?
    ensures Parse(b) == TokensResult(b, ReadTokens(b, ArrayHeader(b).value.0, ArrayHeader(b).value.1))
  {
    hide ReadLine, Stoi, ReadTokens, Classify;
  }

  // ---------- What further bytes can change ----------

  lemma {:induction false} FindCrlfStable(b: Bytes, x: Bytes, pos: nat)
    requires FindCrlf(b, pos).Some?
    ensures FindCrlf(b + x, pos) == FindCrlf(b, pos)
    decreases |b| - pos
  {
    if b[pos] == CR && b[pos + 1] == LF {
    } else {
      FindCrlfStable(b, x, pos + 1);
    }
  }

  lemma ReadLineStable(b: Bytes, x: Bytes, pos: nat)
    requires ReadLine(b, pos).Some?
    ensures ReadLine(b + x, pos) == ReadLine(b, pos)
  {
    hide FindCrlf;
    FindCrlfStable(b, x, pos);
    var i := FindCrlf(b, pos).value;
    assert (b + x)[pos..i] == b[pos..i];
  }

  lemma OpenStable(b: Bytes, x: Bytes, pos: nat)
    requires HeaderLength(b, pos).Some?
    ensures Open(b + x, pos) == Open(b, pos)
  {
    hide ReadLine, Stoi;
    ReadLineStable(b, x, pos);
  }

  function Stretched(t: Bytes, open: bool, x: Bytes): Bytes {
    if open then t + x else t
  }

  /** Further bytes lengthen an open token, and change nothing else about a bulk string once read. */
  lemma ReadBulkExtends(b: Bytes, x: Bytes, pos: nat)
    requires !ReadBulk(b, pos).Missing?
    ensures Open(b + x, pos) == Open(b, pos)
    ensures ReadBulk(b + x, pos) == match ReadBulk(b, pos)
                                    case Bulk(t, p) => Bulk(Stretched(t, Open(b, pos), x), p)
                                    case r => r
  {
    hide Stoi;
    ReadLineStable(b, x, pos);
    var (line, p) := ReadLine(b, pos).value;
    if Stoi(line[1..]).Some? {
      var len := Stoi(line[1..]).value;
      if len >= 0 {
        assert (b + x)[p..p + len] == b[p..p + len];
      } else {
        assert (b + x)[p..] == b[p..] + x;
      }
    }
  }

  function StretchAll(ts: seq<Bytes>, open: seq<bool>, x: Bytes): (us: seq<Bytes>)
    requires |ts| == |open|
    ensures |us| == |ts| && forall i :: 0 <= i < |ts| ==> us[i] == Stretched(ts[i], open[i], x)
  {
    seq(|ts|, i requires 0 <= i < |ts| => Stretched(ts[i], open[i], x))
  }

  lemma StretchFirst(t: Bytes, ts: seq<Bytes>, first: bool, open: seq<bool>, x: Bytes)
    requires |ts| == |open|
    ensures StretchAll([t] + ts, [first] + open, x) == [Stretched(t, first, x)] + StretchAll(ts, open, x)
  {
    hide StretchAll;
  }

  lemma {:induction false} ReadTokensExtends(b: Bytes, x: Bytes, pos: nat, n: nat)
    requires pos <= |b| && !ReadTokens(b, pos, n).TokensMissing?
    ensures ReadTokens(b + x, pos, n) == match ReadTokens(b, pos, n)
                                         case Tokens(ts, q) => Tokens(StretchAll(ts, OpenTokens(b, pos, n), x), q)
                                         case r => r
    decreases n
  {
    hide ReadBulk, Open, StretchAll;
    if n != 0 {
      ReadBulkExtends(b, x, pos);
      if ReadBulk(b, pos).Bulk? {
        var (t, p) := (ReadBulk(b, pos).token, ReadBulk(b, pos).next);
        ReadTokensExtends(b, x, p, n - 1);
        if ReadTokens(b, p, n - 1).Tokens? {
          var ts := ReadTokens(b, p, n - 1).tokens;
          var open := OpenTokens(b, p, n - 1);
          StretchFirst(t, ts, Open(b, pos), open, x);
        }
      }
    }
  }

  lemma ArrayHeaderStable(b: Bytes, x: Bytes)
    requires ReadLine(b, 0).Some?
    ensures ArrayHeader(b + x) == ArrayHeader(b)
  {
    hide ReadLine, Stoi;
    ReadLineStable(b, x, 0);
  }

  function WithMore(r: Result, x: Bytes): Result {
    match r
    case Parsed(c, rest) => Parsed(c, rest + x)
    case ProtocolError(rest) => ProtocolError(rest + x)
    case _ => r
  }

  /** A beginning of a command's name. */
  predicate StartsName(s: Bytes) {
    s <= SET_NAME || s <= GET_NAME || s <= DEL_NAME || s <= EXISTS_NAME || s <= KEYS_NAME
  }

  /** No token that decides the command is open: neither its name, unless what there is of it starts no command's
      name, nor an argument it uses. */
  predicate SettledTokens(ts: seq<Bytes>, open: seq<bool>)
    requires |ts| == |open| > 0
  {
    var name := Upper(ts[0]);
    if open[0] then !StartsName(name)
    else if name == SET_NAME then |ts| < 3 || (!open[1] && !open[2])
    else if name == GET_NAME || name == DEL_NAME || name == EXISTS_NAME then |ts| < 2 || !open[1]
    else true
  }

  /** The same of the command at the front of a buffer. */
  ghost predicate Settled(b: Bytes) {
    match ArrayHeader(b)
    case None => true
    case Some((p, n)) =>
      match ReadTokens(b, p, n)
      case Tokens(ts, _) => SettledTokens(ts, OpenTokens(b, p, n))
      case _ => true
  }

  lemma UpperConcat(s: Bytes, t: Bytes)
    ensures Upper(s + t) == Upper(s) + Upper(t)
  {
  }

  lemma NotStarted(s: Bytes, t: Bytes)
    requires !StartsName(s)
    ensures !StartsName(s + t)
  {
    assert forall n: Bytes :: s + t <= n ==> s == n[..|s|];
  }

  /** Settled tokens are classified once and for all. */
  lemma ClassifyStable(ts: seq<Bytes>, open: seq<bool>, rest: Bytes, x: Bytes)
    requires |ts| == |open| > 0 && SettledTokens(ts, open)
    ensures Classify(StretchAll(ts, open, x), rest + x) == WithMore(Classify(ts, rest), x)
  {
    hide Upper, StartsName;
    var us := StretchAll(ts, open, x);
    if open[0] {
      UpperConcat(ts[0], x);
      NotStarted(Upper(ts[0]), Upper(x));
      NotAName(Upper(ts[0]));
      NotAName(Upper(us[0]));
    }
  }

  lemma NotAName(s: Bytes)
    requires !StartsName(s)
    ensures s != SET_NAME && s != GET_NAME && s != DEL_NAME && s != EXISTS_NAME && s != KEYS_NAME
  {
  }

  lemma UpperOfRest(k: Kind, n: nat)
    requires n <= |Name(k)|
    ensures Upper(Name(k)[n..]) == Name(k)[n..] && Name(k) == Name(k)[..n] + Name(k)[n..]
  {
    NameIsUpper(k);
    hide Name, Upper;
    UpperConcat(Name(k)[..n], Name(k)[n..]);
    assert Name(k) == Name(k)[..n] + Name(k)[n..];
    UpperLength(Name(k)[..n]);
  }

  lemma UpperLength(s: Bytes)
    ensures |Upper(s)| == |s|
  {
  }

  /** Completing a started name gives a command; before that there was none. */
  lemma NameCompleted(k: Kind, s: Bytes)
    requires k != Unknown && Upper(s) <= Name(k)
    ensures Upper(s + Name(k)[|Upper(s)|..]) == Name(k)
  {
    hide Upper, Name;
    var n := |Upper(s)|;
    UpperOfRest(k, n);
    UpperConcat(s, Name(k)[n..]);
  }

  predicate IsName(s: Bytes) {
    s == SET_NAME || s == GET_NAME || s == DEL_NAME || s == EXISTS_NAME || s == KEYS_NAME
  }

  /** Whether the name token is a command's name decides whether the result is an unknown command. */
  lemma ClassifyUnknownIff(ts: seq<Bytes>, rest: Bytes)
    requires ts != []
    ensures Classify(ts, rest) == Parsed(Command(Set, [], UnknownCommand), rest) <==> !IsName(Upper(ts[0]))
  {
    hide Upper;
  }

  /** An open name that starts a command's name can still become one, or stop being one. */
  lemma ChangeName(s: Bytes) returns (x: Bytes)
    requires StartsName(Upper(s))
    ensures IsName(Upper(s + x)) != IsName(Upper(s))
  {
    hide Upper;
    var name := Upper(s);
    if IsName(name) {
      x := [0];
      UpperConcat(s, x);
      UpperZero();
      assert (name + [0])[|name|] == 0;
    } else {
      var k := if name <= SET_NAME then Set else if name <= GET_NAME then Get else if name <= DEL_NAME then Del
      else if name <= EXISTS_NAME then Exists else Keys;
      x := Name(k)[|name|..];
      NameCompleted(k, s);
    }
  }

  lemma UpperZero()
    ensures Upper([0]) == [0]
  {
  }

  /** Tokens that are not settled are classified differently after some further bytes. */
  lemma ClassifyChanges(ts: seq<Bytes>, open: seq<bool>, rest: Bytes) returns (x: Bytes)
    requires |ts| == |open| > 0 && !SettledTokens(ts, open)
    ensures Classify(StretchAll(ts, open, x), rest + x) != WithMore(Classify(ts, rest), x)
  {
    hide Upper;
    if open[0] {
      hide StartsName, IsName, Classify;
      x := ChangeName(ts[0]);
      var us := StretchAll(ts, open, x);
      assert us[0] == ts[0] + x;
      ClassifyUnknownIff(ts, rest);
      ClassifyUnknownIff(us, rest + x);
      RestUnmixed(Classify(ts, rest), rest, x);
    } else {
      x := [0];
      var us := StretchAll(ts, open, x);
      assert us[0] == ts[0];
      assert |ts| >= 2 && open[1] ==> |us[1]| == |ts[1]| + 1;
      assert |ts| >= 3 && open[2] ==> |us[2]| == |ts[2]| + 1;
    }
  }

  lemma RestUnmixed(r: Result, rest: Bytes, x: Bytes)
    requires r.Parsed? ==> r.rest == rest
    ensures WithMore(r, x) == Parsed(Command(Set, [], UnknownCommand), rest + x) <==>
            r == Parsed(Command(Set, [], UnknownCommand), rest)
  {
  }

  /** Once a settled command has been parsed, further bytes only lengthen what is left. */
  lemma ParseStable(b: Bytes, x: Bytes)
    requires Parse(b) != Partial && Settled(b)
    ensures Parse(b + x) == WithMore(Parse(b), x)
  {
    hide ReadLine, Stoi, ReadTokens, OpenTokens, SettledTokens, Classify, StretchAll;
    ReadLineStable(b, x, 0);
    ArrayHeaderStable(b, x);
    var (_, p) := ReadLine(b, 0).value;
    assert (b + x)[p..] == b[p..] + x;
    if ArrayHeader(b).Some? {
      var n := ArrayHeader(b).value.1;
      ReadTokensExtends(b, x, p, n);
      if ReadTokens(b, p, n).Tokens? {
        var (ts, q) := (ReadTokens(b, p, n).tokens, ReadTokens(b, p, n).next);
        assert (b + x)[q..] == b[q..] + x;
        ClassifyStable(ts, OpenTokens(b, p, n), b[q..], x);
      }
    }
  }

  /** And one that is not settled comes out differently after some further bytes. */
  lemma ParseChanges(b: Bytes) returns (x: Bytes)
    requires Parse(b) != Partial && !Settled(b)
    ensures Parse(b + x) != WithMore(Parse(b), x)
  {
    hide ReadLine, Stoi, ReadTokens, OpenTokens, SettledTokens, Classify, StretchAll, Parse;
    var (p, n) := ArrayHeader(b).value;
    var (ts, q) := (ReadTokens(b, p, n).tokens, ReadTokens(b, p, n).next);
    x := ClassifyChanges(ts, OpenTokens(b, p, n), b[q..]);
    HeaderHasLine(b);
    ArrayHeaderStable(b, x);
    ReadTokensExtends(b, x, p, n);
    assert (b + x)[q..] == b[q..] + x;
    ParseArray(b);
    ParseArray(b + x);
  }

  lemma HeaderHasLine(b: Bytes)
    requires ArrayHeader(b).Some?
    ensures ReadLine(b, 0).Some?
  {
    hide ReadLine, Stoi;
  }

  /** Exactly when further bytes cannot change what was parsed: when the command is settled. */
  lemma ParseStableIff(b: Bytes)
    requires Parse(b) != Partial
    ensures (forall x: Bytes :: Parse(b + x) == WithMore(Parse(b), x)) <==> Settled(b)
  {
    hide Parse, Settled, WithMore;
    if Settled(b) {
      forall x: Bytes
        ensures Parse(b + x) == WithMore(Parse(b), x)
      {
        ParseStable(b, x);
      }
    } else {
      var x := ParseChanges(b);
    }
  }

  // ---------- Regular commands are settled ----------

  lemma {:induction false} RegularTokensOfPrefix(b: Bytes, x: Bytes, pos: nat, n: nat)
    requires pos <= |b| && RegularTokens(b + x, pos, n)
    ensures RegularTokens(b, pos, n)
    decreases n
  {
    hide ReadBulk, HeaderLength;
    if n != 0 {
      if HeaderLength(b, pos).Some? {
        OpenStable(b, x, pos);
      }
      if ReadBulk(b, pos).Bulk? {
        ReadBulkExtends(b, x, pos);
        RegularTokensOfPrefix(b, x, ReadBulk(b, pos).next, n - 1);
      }
    }
  }

  lemma RegularOfPrefix(b: Bytes, x: Bytes)
    requires Regular(b + x)
    ensures Regular(b)
  {
    hide ReadLine, ArrayHeader, RegularTokens;
    if ArrayHeader(b).Some? {
      HeaderHasLine(b);
      ArrayHeaderStable(b, x);
      RegularTokensOfPrefix(b, x, ArrayHeader(b).value.0, ArrayHeader(b).value.1);
    }
  }

  lemma {:induction false} RegularNotOpen(b: Bytes, pos: nat, n: nat)
    requires pos <= |b| && RegularTokens(b, pos, n) && ReadTokens(b, pos, n).Tokens?
    ensures forall i :: 0 <= i < n ==> !OpenTokens(b, pos, n)[i]
    decreases n
  {
    hide ReadBulk, Open;
    if n != 0 {
      RegularNotOpen(b, ReadBulk(b, pos).next, n - 1);
    }
  }

  lemma RegularSettled(b: Bytes)
    requires Regular(b)
    ensures Settled(b)
  {
    hide ArrayHeader, ReadTokens, RegularTokens, OpenTokens, Upper, StartsName;
    if ArrayHeader(b).Some? {
      var (p, n) := ArrayHeader(b).value;
      if ReadTokens(b, p, n).Tokens? {
        RegularNotOpen(b, p, n);
      }
    }
  }

  // ---------- What a parse takes off the buffer ----------

  /** The way the token loop moves: over each header line, then by the announced length and two more. */
  function Travel(b: Bytes, pos: nat, n: nat): int
    requires pos <= |b| && ReadTokens(b, pos, n).Tokens?
    decreases n
  {
    if n == 0 then 0 else
    ReadLine(b, pos).value.1 - pos + HeaderLength(b, pos).value + 2 + Travel(b, ReadBulk(b, pos).next, n - 1)
  }

  lemma {:induction false} TokensTravel(b: Bytes, pos: nat, n: nat)
    requires pos <= |b| && ReadTokens(b, pos, n).Tokens?
    ensures ReadTokens(b, pos, n).next == pos + Travel(b, pos, n)
    ensures RegularTokens(b, pos, n) ==> Travel(b, pos, n) >= 0
    decreases n
  {
    hide Stoi, FindCrlf;
    if n != 0 {
      TokensTravel(b, ReadBulk(b, pos).next, n - 1);
    }
  }

  /** A refused line is always taken off the buffer. A parsed command is exactly when lengths below -1 have not led
      the parser back to where it began; if they have, the buffer stays as it was. */
  lemma ParseShrinksIff(b: Bytes)
    ensures Parse(b).ProtocolError? ==> |Parse(b).rest| < |b|
    ensures Parse(b).Parsed? ==>
              && ArrayHeader(b).Some?
              && var (p, n) := ArrayHeader(b).value;
                 && ReadTokens(b, p, n).Tokens?
                 && (|Parse(b).rest| < |b| <==> p + Travel(b, p, n) > 0)
                 && (p + Travel(b, p, n) == 0 ==> Parse(b).rest == b)
    ensures Parse(b).Parsed? && Regular(b) ==> |Parse(b).rest| < |b|
  {
    hide Stoi, FindCrlf, RegularTokens, ReadTokens, Upper, Travel;
    if ArrayHeader(b).Some? {
      var (p, n) := ArrayHeader(b).value;
      if ReadTokens(b, p, n).Tokens? {
        TokensTravel(b, p, n);
        assert b[0..] == b;
      }
    }
  }

  // ---------- Draining ----------

  datatype Item = Cmd(cmd: Command) | BadLine

  /** Why the drain loop does not come to an end: an exception, the read of a missing token or argument,
      or a command that is parsed again and again. */
  datatype Stop = Exception | MissingRead | Endless

  /** What the drain loop takes off a buffer: it goes idle with what is left, or stops for good. */
  datatype Drained = Idle(items: seq<Item>, left: Bytes) | Stopped(items: seq<Item>, why: Stop)

  function Before(items: seq<Item>, d: Drained): Drained {
    match d
    case Idle(more, left) => Idle(items + more, left)
    case Stopped(more, why) => Stopped(items + more, why)
  }

  function Drain(b: Bytes): Drained
    decreases |b|
  {
    match Parse(b)
    case Partial => Idle([], b)
    case Throws => Stopped([], Exception)
    case Undefined => Stopped([], MissingRead)
    case ProtocolError(rest) => Onward(b, BadLine, rest)
    case Parsed(cmd, rest) => Onward(b, Cmd(cmd), rest)
  }

  /** The loop after it took `item` off `b`. */
  function Onward(b: Bytes, item: Item, rest: Bytes): Drained
    decreases |b|, 0
  {
    if |rest| >= |b| then Stopped([item], Endless) else Before([item], Drain(rest))
  }

  /** The loop itself, without that test, is over after at most `n` rounds. */
  ghost predicate EndsWithin(b: Bytes, n: nat) {
    match Parse(b)
    case ProtocolError(rest) => n > 0 && EndsWithin(rest, n - 1)
    case Parsed(_, rest) => n > 0 && EndsWithin(rest, n - 1)
    case _ => true
  }

  /** A command that leaves the buffer as it was is parsed forever. */
  lemma {:induction false} SpinsForever(b: Bytes, n: nat)
    requires Parse(b).Parsed? && Parse(b).rest == b
    ensures !EndsWithin(b, n)
  {
    hide Parse;
    if n > 0 {
      SpinsForever(b, n - 1);
    }
  }

  lemma {:induction false} OthersEnd(b: Bytes)
    requires !(Drain(b).Stopped? && Drain(b).why == Endless)
    ensures EndsWithin(b, |b|)
    decreases |b|
  {
    hide Parse;
    match Parse(b)
    case ProtocolError(rest) =>
      OthersEnd(rest);
      MoreRounds(rest, |rest|, |b| - 1);
    case Parsed(_, rest) =>
      OthersEnd(rest);
      MoreRounds(rest, |rest|, |b| - 1);
    case _ =>
  }

  lemma {:induction false} MoreRounds(b: Bytes, n: nat, m: nat)
    requires EndsWithin(b, n) && n <= m
    ensures EndsWithin(b, m)
    decreases n
  {
    hide Parse;
    match Parse(b)
    case ProtocolError(rest) => MoreRounds(rest, n - 1, m - 1);
    case Parsed(_, rest) => MoreRounds(rest, n - 1, m - 1);
    case _ =>
  }

  /** Lengths below -1 lead the parse of `b`'s first command back to where it began. */
  ghost predicate Returns(b: Bytes) {
    && Parse(b).Parsed?
    && ArrayHeader(b).Some?
    && var (p, n) := ArrayHeader(b).value;
       ReadTokens(b, p, n).Tokens? && p + Travel(b, p, n) == 0
  }

  /** The buffer after `k` rounds of the loop. */
  function AfterRounds(b: Bytes, k: nat): Option<Bytes> {
    if k == 0 then Some(b) else
    match Parse(b)
    case ProtocolError(rest) => AfterRounds(rest, k - 1)
    case Parsed(_, rest) => AfterRounds(rest, k - 1)
    case _ => None
  }

  lemma ReturnsIff(b: Bytes)
    requires Parse(b).Parsed?
    ensures Returns(b) <==> |Parse(b).rest| >= |b|
    ensures Returns(b) ==> Parse(b).rest == b
  {
    hide Parse, ArrayHeader, ReadTokens, Travel;
    ParseShrinksIff(b);
    var (p, n) := ArrayHeader(b).value;
    TokensTravel(b, p, n);
  }

  lemma {:induction false} ReturnReached(b: Bytes) returns (k: nat)
    requires Drain(b).Stopped? && Drain(b).why == Endless
    ensures AfterRounds(b, k).Some? && Returns(AfterRounds(b, k).value)
    decreases |b|
  {
    hide Parse, Returns;
    ParseShrinksIff(b);
    if Parse(b).Parsed? && |Parse(b).rest| >= |b| {
      ReturnsIff(b);
      k := 0;
    } else {
      k := ReturnReached(Parse(b).rest);
      k := k + 1;
    }
  }

  lemma {:induction false} ReturnNeverEnds(b: Bytes, k: nat, n: nat)
    requires AfterRounds(b, k).Some? && Returns(AfterRounds(b, k).value)
    ensures !EndsWithin(b, n)
    decreases k
  {
    hide Parse, Returns;
    if k == 0 {
      ReturnParsed(b);
      ReturnsIff(b);
      SpinsForever(b, n);
    } else if n > 0 {
      ReturnNeverEnds(Parse(b).rest, k - 1, n - 1);
    }
  }

  lemma ReturnParsed(b: Bytes)
    requires Returns(b)
    ensures Parse(b).Parsed?
  {
    hide Parse, ArrayHeader, ReadTokens, Travel;
  }

  /** The drain loop ends exactly when no command it reaches leads the parser back to where that command began. */
  lemma DrainEndsIff(b: Bytes)
    ensures (exists n: nat :: EndsWithin(b, n)) <==>
            !exists k: nat :: AfterRounds(b, k).Some? && Returns(AfterRounds(b, k).value)
    ensures (exists n: nat :: EndsWithin(b, n)) <==> !(Drain(b).Stopped? && Drain(b).why == Endless)
  {
    hide Drain, EndsWithin, Returns, AfterRounds;
    if Drain(b).Stopped? && Drain(b).why == Endless {
      var k := ReturnReached(b);
      forall n: nat
        ensures !EndsWithin(b, n)
      {
        ReturnNeverEnds(b, k, n);
      }
    } else {
      OthersEnd(b);
      if k: nat :| AfterRounds(b, k).Some? && Returns(AfterRounds(b, k).value) {
        ReturnNeverEnds(b, k, |b|);
      }
    }
  }

  /** Messages fed one after the other, each followed by draining. */
  function FeedAll(left: Bytes, chunks: seq<Bytes>): Drained
    decreases |chunks|
  {
    if chunks == [] then Idle([], left) else
    match Drain(left + chunks[0])
    case Stopped(items, why) => Stopped(items, why)
    case Idle(items, rest) => Before(items, FeedAll(rest, chunks[1..]))
  }

  function Concat(chunks: seq<Bytes>): Bytes {
    if chunks == [] then [] else chunks[0] + Concat(chunks[1..])
  }

  /** However much of `b` has arrived when its first command is parsed, that command is settled. */
  ghost predicate SettledPrefixes(b: Bytes) {
    forall c :: 0 <= c <= |b| && Parse(b[..c]) != Partial ==> Settled(b[..c])
  }

  /** The same for every command the drain loop reaches. */
  ghost predicate SettledStream(b: Bytes)
    decreases |b|
  {
    && SettledPrefixes(b)
    && match Parse(b)
       case Parsed(_, rest) => |rest| < |b| ==> SettledStream(rest)
       case ProtocolError(rest) => |rest| < |b| ==> SettledStream(rest)
       case _ => true
  }

  lemma RegularPrefixes(b: Bytes)
    requires Regular(b)
    ensures SettledPrefixes(b)
  {
    hide Parse, Regular, Settled;
    forall c | 0 <= c <= |b| && Parse(b[..c]) != Partial
      ensures Settled(b[..c])
    {
      assert b == b[..c] + b[c..];
      RegularOfPrefix(b[..c], b[c..]);
      RegularSettled(b[..c]);
    }
  }

  /** The first command of what has arrived is parsed as in the whole stream. */
  lemma SettledPrefix(b: Bytes, x: Bytes)
    requires SettledPrefixes(b + x) && Parse(b) != Partial
    ensures Parse(b + x) == WithMore(Parse(b), x)
  {
    hide Parse, Settled, WithMore;
    assert (b + x)[..|b|] == b;
    ParseStable(b, x);
  }

  lemma BeforeTwice(xs: seq<Item>, ys: seq<Item>, d: Drained)
    ensures Before(xs, Before(ys, d)) == Before(xs + ys, d)
    ensures Before([], d) == d
  {
    match d
    case Idle(more, left) =>
      assert xs + (ys + more) == xs + ys + more;
    case Stopped(more, _) =>
      assert xs + (ys + more) == xs + ys + more;
  }

  /** Draining a beginning of the stream first, and the rest later, is draining it all. */
  lemma {:induction false} DrainExtends(b: Bytes, x: Bytes)
    requires SettledStream(b + x)
    ensures match Drain(b)
            case Stopped(items, why) => Drain(b + x) == Stopped(items, why)
            case Idle(items, left) => Drain(b + x) == Before(items, Drain(left + x)) && SettledStream(left + x)
    decreases |b|
  {
    hide Parse, SettledPrefixes;
    if Parse(b) != Partial {
      SettledPrefix(b, x);
    }
    match Parse(b)
    case Partial => BeforeTwice([], [], Drain(b + x));
    case ProtocolError(rest) => DrainStep(b, x, BadLine, rest);
    case Parsed(cmd, rest) => DrainStep(b, x, Cmd(cmd), rest);
    case _ =>
  }

  lemma {:induction false} DrainStep(b: Bytes, x: Bytes, item: Item, rest: Bytes)
    requires SettledStream(b + x)
    requires Parse(b) == match item case Cmd(c) => Parsed(c, rest) case BadLine => ProtocolError(rest)
    requires Parse(b + x) == WithMore(Parse(b), x)
    ensures match Drain(b)
            case Stopped(items, why) => Drain(b + x) == Stopped(items, why)
            case Idle(items, left) => Drain(b + x) == Before(items, Drain(left + x)) && SettledStream(left + x)
    decreases |b|, 0
  {
    hide Parse, SettledPrefixes;
    if |rest| < |b| {
      DrainExtends(rest, x);
      var d := Drain(rest);
      if d.Idle? {
        BeforeTwice([item], d.items, Drain(d.left + x));
      }
    }
  }

  /** Chunking independence: however a settled stream is split into messages, the commands taken from it, the bytes
      left over, and whether, why and after which command handling stops, are those of the stream in one piece. */
  lemma {:induction false} ChunkingIndependence(left: Bytes, chunks: seq<Bytes>)
    requires Parse(left) == Partial && SettledStream(left + Concat(chunks))
    ensures FeedAll(left, chunks) == Drain(left + Concat(chunks))
    decreases |chunks|
  {
    hide Parse, SettledStream;
    if chunks == [] {
      assert left + Concat(chunks) == left;
    } else {
      var b, x := left + chunks[0], Concat(chunks[1..]);
      assert left + Concat(chunks) == b + x;
      DrainExtends(b, x);
      var d := Drain(b);
      if d.Idle? {
        DrainedIsPartial(b);
        ChunkingIndependence(d.left, chunks[1..]);
      }
    }
  }

  /** And where a command has been parsed that is not settled, there is a stream for which the split matters. */
  lemma UnsettledSplit(b: Bytes) returns (x: Bytes)
    requires Parse(b) != Partial && !Settled(b)
    ensures FeedAll([], [b, x]) != Drain(b + x)
  {
    hide Parse, Settled, Drain;
    x := ParseChanges(b);
    UnsettledParse(b);
    ParsedStays(b, x);
    assert [] + b == b;
    FirstItem(b);
    FirstItem(b + x);
    assert [b, x][1..] == [x];
  }

  /** Commands that are not settled were parsed as commands, or read a missing token. */
  lemma UnsettledParse(b: Bytes)
    requires Parse(b) != Partial && !Settled(b)
    ensures Parse(b).Parsed? || Parse(b).Undefined?
  {
    hide ArrayHeader, ReadTokens, OpenTokens, Upper, StartsName, Parse;
    ParseArray(b);
  }

  lemma ParsedStays(b: Bytes, x: Bytes)
    requires Parse(b) != Partial && !Settled(b)
    ensures Parse(b + x).Parsed? || Parse(b + x).Undefined?
    ensures Parse(b).Parsed? && Parse(b + x).Parsed? ==> Parse(b + x).rest == Parse(b).rest + x
  {
    hide ReadLine, Stoi, ReadTokens, OpenTokens, SettledTokens, StretchAll, Parse, Upper;
    var (p, n) := ArrayHeader(b).value;
    HeaderHasLine(b);
    ArrayHeaderStable(b, x);
    ReadTokensExtends(b, x, p, n);
    var q := ReadTokens(b, p, n).next;
    assert (b + x)[q..] == b[q..] + x;
    ParseArray(b);
    ParseArray(b + x);
  }

  /** The first command drained is the one parsed. */
  lemma FirstItem(b: Bytes)
    ensures Parse(b).Parsed? ==> Drain(b).items != [] && Drain(b).items[0] == Cmd(Parse(b).cmd)
    ensures Parse(b).Undefined? ==> Drain(b) == Stopped([], MissingRead)
  {
    hide Parse;
  }

  lemma {:induction false} DrainedIsPartial(b: Bytes)
    ensures Drain(b).Idle? ==> Parse(Drain(b).left) == Partial
    decreases |b|
  {
    hide Parse;
    match Parse(b)
    case ProtocolError(rest) =>
      if |rest| < |b| {
        DrainedIsPartial(rest);
      }
    case Parsed(_, rest) =>
      if |rest| < |b| {
        DrainedIsPartial(rest);
      }
    case _ =>
  }

  // ---------- Commands survive the wire ----------

  lemma {:induction false} FindCrlfAt(b: Bytes, pos: nat, i: nat)
    requires pos <= i && i + 2 <= |b| && b[i] == CR && b[i + 1] == LF
    requires forall j :: pos <= j < i ==> b[j] != CR
    ensures FindCrlf(b, pos) == Some(i)
    decreases i - pos
  {
    if pos < i {
      FindCrlfAt(b, pos + 1, i);
    }
  }

  /** A header line, a type byte and a number, ends at the first line end. */
  lemma HeaderFound(pre: Bytes, c: Byte, n: nat, x: Bytes)
    requires c != CR
    ensures FindCrlf(pre + ([c] + Dec(n) + CRLF + x), |pre|) == Some(|pre| + |Dec(n)| + 1)
  {
    hide FindCrlf, Dec;
    var b := pre + ([c] + Dec(n) + CRLF + x);
    var line := [c] + Dec(n);
    var i := |pre| + |line|;
    DecDigits(n);
    forall j | |pre| <= j < i
      ensures b[j] != CR
    {
      assert b[j] == line[j - |pre|];
    }
    FindCrlfAt(b, |pre|, i);
  }

  lemma HeaderLine(pre: Bytes, c: Byte, n: nat, x: Bytes)
    requires c != CR
    ensures var b := pre + ([c] + Dec(n) + CRLF + x);
            ReadLine(b, |pre|) == Some(([c] + Dec(n), |pre| + |Dec(n)| + 3))
  {
    hide FindCrlf, Dec;
    var b := pre + ([c] + Dec(n) + CRLF + x);
    HeaderFound(pre, c, n, x);
    assert b[|pre|..|pre| + |Dec(n)| + 1] == [c] + Dec(n);
  }

  /** A printed bulk string reads back, with any bytes in it, exactly when its length is within `int`. */
  lemma BulkRoundTrip(pre: Bytes, s: Bytes, x: Bytes)
    ensures var b := pre + (EncodeBulk(s) + x);
            && HeaderLength(b, |pre|) == (if |s| <= INT_MAX then Some(|s|) else None)
            && ReadBulk(b, |pre|) == if |s| <= INT_MAX then Bulk(s, |pre| + |EncodeBulk(s)|) else BulkThrows
  {
    hide FindCrlf, Dec, Stoi, ReadLine;
    var b := pre + (EncodeBulk(s) + x);
    var tail := s + CRLF + x;
    assert EncodeBulk(s) + x == [DOLLAR] + Dec(|s|) + CRLF + tail;
    HeaderLine(pre, DOLLAR, |s|, tail);
    var p := |pre| + |Dec(|s|)| + 3;
    assert ([DOLLAR] + Dec(|s|))[1..] == Dec(|s|);
    StoiOfDec(|s|);
    assert b[|pre|] == DOLLAR;
    assert b[p..p + |s|] == s;
  }

  ghost predicate AllInt(ss: seq<Bytes>) {
    forall s :: s in ss ==> |s| <= INT_MAX
  }

  lemma AllIntSplit(ss: seq<Bytes>)
    ensures AllInt(ss) <==> ss == [] || (|ss[0]| <= INT_MAX && AllInt(ss[1..]))
  {
    if ss != [] {
      assert ss == [ss[0]] + ss[1..];
    }
  }

  lemma {:induction false} TokensRoundTrip(pre: Bytes, ss: seq<Bytes>, x: Bytes)
    ensures var b := pre + (EncodeBulks(ss) + x);
            && RegularTokens(b, |pre|, |ss|)
            && ReadTokens(b, |pre|, |ss|) ==
               if AllInt(ss) then Tokens(ss, |pre| + |EncodeBulks(ss)|) else TokensThrow
    decreases |ss|
  {
    hide EncodeBulk, ReadBulk, HeaderLength, AllInt;
    if ss == [] {
      AllIntSplit(ss);
    } else {
      AllIntSplit(ss);
      var b := pre + (EncodeBulks(ss) + x);
      var e, more := EncodeBulk(ss[0]), EncodeBulks(ss[1..]) + x;
      assert EncodeBulks(ss) + x == e + more;
      BulkRoundTrip(pre, ss[0], more);
      assert ss == [ss[0]] + ss[1..];
      if |ss[0]| <= INT_MAX {
        TokensRoundTrip(pre + e, ss[1..], x);
        assert b == (pre + e) + (EncodeBulks(ss[1..]) + x);
      }
    }
  }

  predicate Arity(k: Kind, args: seq<Bytes>) {
    match k
    case Set => |args| == 2
    case Get => |args| == 1
    case Del => |args| == 1
    case Exists => |args| == 1
    case Keys => |args| == 0
    case Unknown => false
  }

  lemma NameIsUpper(k: Kind)
    ensures Upper(Name(k)) == Name(k) && |Name(k)| <= 7
  {
  }

  lemma ClassifyNamed(k: Kind, args: seq<Bytes>, rest: Bytes)
    requires Arity(k, args)
    ensures Classify([Name(k)] + args, rest) == Parsed(Command(k, args, NoError), rest)
  {
    NameIsUpper(k);
    hide Upper;
    var ts := [Name(k)] + args;
    assert ts[0] == Name(k);
    assert |args| == 2 ==> [ts[1], ts[2]] == args;
    assert |args| == 1 ==> [ts[1]] == args;
    assert SET_NAME[0] != GET_NAME[0] && SET_NAME[0] != DEL_NAME[0] && GET_NAME[0] != DEL_NAME[0];
  }

  /** Tokens as an array of bulk strings. */
  function EncodeArray(ts: seq<Bytes>): Bytes {
    [STAR] + Dec(|ts|) + CRLF + EncodeBulks(ts)
  }

  /** Any printed array followed by anything is classified by its tokens and leaves what follows, exactly when its
      size and its tokens' lengths are within `int`; otherwise the parser throws. */
  lemma ArrayRoundTrip(ts: seq<Bytes>, x: Bytes)
    requires ts != []
    ensures Regular(EncodeArray(ts) + x)
    ensures Parse(EncodeArray(ts) + x) == if |ts| <= INT_MAX && AllInt(ts) then Classify(ts, x) else Throws
  {
    hide Dec, Stoi, ReadLine, ReadTokens, RegularTokens, EncodeBulks, Classify, AllInt;
    var b, n := EncodeArray(ts) + x, |ts|;
    var body := EncodeBulks(ts) + x;
    assert b == [] + ([STAR] + Dec(n) + CRLF + body);
    HeaderLine([], STAR, n, body);
    var p := |Dec(n)| + 3;
    assert ([STAR] + Dec(n))[1..] == Dec(n);
    StoiOfDec(n);
    var pre := b[..p];
    assert b == pre + body;
    TokensRoundTrip(pre, ts, x);
    assert b[p + |EncodeBulks(ts)|..] == x;
  }

  /** A printed command followed by anything parses back to the command and leaves what follows, exactly
      when its arguments' lengths are within `int`; otherwise the parser throws. */
  lemma CommandRoundTrip(k: Kind, args: seq<Bytes>, x: Bytes)
    requires Arity(k, args)
    ensures Regular(EncodeCommand(k, args) + x)
    ensures Parse(EncodeCommand(k, args) + x) ==
            if AllInt(args) then Parsed(Command(k, args, NoError), x) else Throws
  {
    hide Parse, Regular, Name, EncodeBulks, Classify, Dec, AllInt;
    var ts := [Name(k)] + args;
    assert EncodeCommand(k, args) == EncodeArray(ts);
    ArrayRoundTrip(ts, x);
    NameIsUpper(k);
    AllIntSplit(ts);
    assert ts[1..] == args;
    ClassifyNamed(k, args, x);
  }

  /** Every proper prefix of a printed command waits for more. */
  lemma CommandPrefixWaits(k: Kind, args: seq<Bytes>, p: Bytes)
    requires Arity(k, args) && AllInt(args) && p < EncodeCommand(k, args)
    ensures Parse(p) == Partial
  {
    hide Parse, Regular, EncodeCommand, Settled;
    var e := EncodeCommand(k, args);
    var x := e[|p|..];
    assert e == p + x && e + [] == e;
    CommandRoundTrip(k, args, []);
    RegularOfPrefix(p, x);
    RegularSettled(p);
    if Parse(p) != Partial {
      ParseStable(p, x);
    }
  }

  // ---------- Where the code departs from its documentation ----------

  /** An unknown name comes out as a SET without arguments, not as the kind Unknown the server tests for. */
  lemma UnknownName(ts: seq<Bytes>, x: Bytes)
    requires ts != [] && |ts| <= INT_MAX && AllInt(ts) && !IsName(Upper(ts[0]))
    ensures Parse(EncodeArray(ts) + x) == Parsed(Command(Set, [], UnknownCommand), x)
  {
    hide Parse, EncodeArray, Upper, IsName, Classify;
    ArrayRoundTrip(ts, x);
    ClassifyUnknownIff(ts, x);
  }

  /** A SET without a value comes out the same way, with another error. */
  lemma ShortSet(ts: seq<Bytes>, x: Bytes)
    requires 0 < |ts| < 3 && AllInt(ts) && Upper(ts[0]) == SET_NAME
    ensures Parse(EncodeArray(ts) + x) == Parsed(Command(Set, [], WrongArgCount), x)
  {
    hide Parse, EncodeArray, Upper;
    ArrayRoundTrip(ts, x);
  }

  /** A GET, DEL or EXISTS without a key makes the parser read a token that is not there. */
  lemma MissingKey(name: Bytes, x: Bytes)
    requires Upper(name) == GET_NAME || Upper(name) == DEL_NAME || Upper(name) == EXISTS_NAME
    ensures Parse(EncodeArray([name]) + x) == Undefined
  {
    hide Parse, EncodeArray, Upper;
    UpperLength(name);
    assert GET_NAME[0] != SET_NAME[0] && DEL_NAME[0] != SET_NAME[0] && EXISTS_NAME[0] != SET_NAME[0];
    ArrayRoundTrip([name], x);
  }

  /** "*1\r\n$-2\r\n". */
  const NEGATIVE: Bytes := [STAR, 49, CR, LF, DOLLAR, 45, 50, CR, LF]

  /** A length of -2 is not refused: the command's name is then all that happens to be in the buffer,
      and those bytes stay in the buffer. */
  lemma NegativeLength(x: Bytes)
    ensures Parse(NEGATIVE + x) == Classify([x], x)
  {
    hide Upper, Stoi, FindCrlf;
    var b := NEGATIVE + x;
    FindCrlfAt(b, 0, 2);
    assert b[0..2] == [STAR, 49];
    StoiOfDec(1);
    assert Dec(1) == [49];
    FindCrlfAt(b, 4, 7);
    assert b[4..7] == [DOLLAR, 45, 50];
    StoiOfNegative(2);
    assert [45] + Dec(2) == [45, 50];
    assert b[9..] == x;
    assert ReadBulk(b, 4) == Bulk(x, 9);
    assert ReadTokens(b, 4, 1) == Tokens([x] + [], 9);
    assert [x] + [] == [x];
  }

  /** So without regularity the split decides: the same stream is one unknown command followed by a broken
      line when its parts arrive separately, and a KEYS command when they arrive together. */
  lemma SplitMatters()
    ensures Parse(NEGATIVE) == Parsed(Command(Set, [], UnknownCommand), [])
    ensures Parse(NEGATIVE + KEYS_NAME) == Parsed(Command(Keys, [], NoError), KEYS_NAME)
  {
    hide Parse;
    NegativeLength([]);
    NegativeLength(KEYS_NAME);
    assert NEGATIVE + [] == NEGATIVE;
    NameIsUpper(Keys);
    assert KEYS_NAME[0] != SET_NAME[0] && KEYS_NAME[0] != GET_NAME[0] && KEYS_NAME[0] != DEL_NAME[0];
    assert |EXISTS_NAME| != |KEYS_NAME|;
  }

  /** "*1\r\n$-12\r\nKEYS". */
  const SPIN: Bytes := [STAR, 49, CR, LF, DOLLAR, 45, 49, 50, CR, LF] + KEYS_NAME

  /** A length of -12 leads the parser back to the beginning of the buffer: the command is a KEYS, nothing is
      taken off, and the drain loop never ends. */
  lemma SpinOccurs()
    ensures Parse(SPIN) == Parsed(Command(Keys, [], NoError), SPIN)
    ensures Drain(SPIN) == Stopped([Cmd(Command(Keys, [], NoError))], Endless)
    ensures forall n: nat :: !EndsWithin(SPIN, n)
  {
    SpinTokens();
    hide Parse, EndsWithin;
    forall n: nat
      ensures !EndsWithin(SPIN, n)
    {
      SpinsForever(SPIN, n);
    }
  }

  lemma SpinTokens()
    ensures Parse(SPIN) == Parsed(Command(Keys, [], NoError), SPIN)
  {
    hide Upper, Stoi, FindCrlf, Parse, ReadBulk;
    FindCrlfAt(SPIN, 0, 2);
    assert SPIN[0..2] == [STAR, 49];
    StoiOfDec(1);
    assert Dec(1) == [49];
    SpinBulk();
    assert ReadTokens(SPIN, 4, 1) == Tokens([KEYS_NAME] + [], 0);
    assert [KEYS_NAME] + [] == [KEYS_NAME];
    assert SPIN[0..] == SPIN;
    ParseArray(SPIN);
    NameIsUpper(Keys);
    assert KEYS_NAME[0] != SET_NAME[0] && KEYS_NAME[0] != GET_NAME[0] && KEYS_NAME[0] != DEL_NAME[0];
    assert |EXISTS_NAME| != |KEYS_NAME|;
  }

  lemma SpinBulk()
    ensures ReadBulk(SPIN, 4) == Bulk(KEYS_NAME, 0)
  {
    hide Stoi, FindCrlf;
    FindCrlfAt(SPIN, 4, 8);
    assert SPIN[4..8] == [DOLLAR, 45, 49, 50];
    StoiOfNegative(12);
    assert Dec(12) == [49, 50];
    assert [45] + Dec(12) == [45, 49, 50];
    assert SPIN[10..] == KEYS_NAME;
  }
}
