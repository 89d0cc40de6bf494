/** The request side of the Redis serialization protocol (protocol.cpp): lines, bulk strings,
    commands, and the parser over a growing buffer. */
module Resp {
  import opened Bytes
  import opened Options

  const CR: Byte := 13
  const LF: Byte := 10
  const STAR: Byte := 42
  const DOLLAR: Byte := 36
  const CRLF: Bytes := [CR, LF]
  const INT_MAX: int := 0x7FFF_FFFF
  const INT_MIN: int := -0x8000_0000

  // ---------- Decimal numbers ----------

  /** `std::to_string` of a natural number. */
  function Dec(n: nat): (s: Bytes)
    ensures s != []
  {
    if n < 10 then [48 + n] else Dec(n / 10) + [48 + n % 10]
  }

  predicate IsDigit(b: Byte) {
    48 <= b <= 57
  }

  predicate IsSpace(b: Byte) {
    b == 32 || 9 <= b <= 13
  }

  function SkipSpace(s: Bytes): Bytes {
    if s != [] && IsSpace(s[0]) then SkipSpace(s[1..]) else s
  }

  function DigitPrefix(s: Bytes): Bytes {
    if s != [] && IsDigit(s[0]) then [s[0]] + DigitPrefix(s[1..]) else []
  }

  function DecValue(ds: Bytes): int
    decreases |ds|
  {
    if ds == [] then 0 else DecValue(ds[..|ds| - 1]) * 10 + (ds[|ds| - 1] as int - 48)
  }

  /** `std::stoi`: white space, a sign, digits, anything after; None where it throws. */
  function Stoi(s: Bytes): Option<int> {
    var t := SkipSpace(s);
    var signed := t != [] && (t[0] == 43 || t[0] == 45);
    var ds := DigitPrefix(if signed then t[1..] else t);
    if ds == [] then None else
    var v := if signed && t[0] == 45 then -DecValue(ds) else DecValue(ds);
    if INT_MIN <= v <= INT_MAX then Some(v) else None
  }

  lemma {:induction false} DecDigits(n: nat)
    ensures forall i :: 0 <= i < |Dec(n)| ==> IsDigit(Dec(n)[i])
    ensures DecValue(Dec(n)) == n
  {
    if n >= 10 {
      DecDigits(n / 10);
      var s := Dec(n);
      assert s[..|s| - 1] == Dec(n / 10);
    }
  }

  lemma {:induction false} DigitPrefixOfDigits(s: Bytes)
    requires forall i :: 0 <= i < |s| ==> IsDigit(s[i])
    ensures DigitPrefix(s) == s
  {
    if s != [] {
      DigitPrefixOfDigits(s[1..]);
      assert s == [s[0]] + s[1..];
    }
  }

  lemma SkipNoSpace(s: Bytes)
    requires s == [] || !IsSpace(s[0])
    ensures SkipSpace(s) == s
  {
  }

  /** Reading a printed number gives it back exactly when it is within `int`, and throws otherwise. */
  lemma StoiOfDec(n: nat)
    ensures Stoi(Dec(n)) == if n <= 2147483647 then Some(n) else None
  {
    hide Dec, SkipSpace, DigitPrefix, DecValue;
    DecDigits(n);
    SkipNoSpace(Dec(n));
    DigitPrefixOfDigits(Dec(n));
  }

  lemma StoiOfNegative(n: nat)
    requires n <= INT_MAX
    ensures Stoi([45] + Dec(n)) == Some(-(n as int))
  {
    hide Dec, SkipSpace, DigitPrefix, DecValue;
    DecDigits(n);
    SkipNoSpace([45] + Dec(n));
    assert ([45] + Dec(n))[1..] == Dec(n);
    DigitPrefixOfDigits(Dec(n));
  }

  // ---------- Lines and bulk strings ----------

  /** `find("\r\n", pos)`. */
  function FindCrlf(b: Bytes, pos: nat): (o: Option<nat>)
    ensures o.Some? ==> pos <= o.value && o.value + 2 <= |b|
    decreases |b| - pos
  {
    if pos + 2 > |b| then None
    else if b[pos] == CR && b[pos + 1] == LF then Some(pos)
    else FindCrlf(b, pos + 1)
  }

  /** The line at `pos` without its end, and the position after it. */
  function ReadLine(b: Bytes, pos: nat): (o: Option<(Bytes, nat)>)
    ensures o.Some? ==> pos + 2 <= o.value.1 <= |b|
    ensures o.Some? ==> |o.value.0| == o.value.1 - 2 - pos
  {
    match FindCrlf(b, pos)
    case None => None
    case Some(i) => Some((b[pos..i], i + 2))
  }

  datatype Bulk = Missing | BulkThrows | Bulk(token: Bytes, next: nat)

  /** `ReadBulkString`. A length below -1 passes the size check by unsigned wrap-around: the token is
      the rest of the buffer and the position moves back. */
  function ReadBulk(b: Bytes, pos: nat): (r: Bulk)
    ensures r.Bulk? ==> r.next <= |b|
  {
    if pos >= |b| || b[pos] != DOLLAR then Missing else
    match ReadLine(b, pos)
    case None => Missing
    case Some((line, p)) =>
      match Stoi(line[1..])
      case None => BulkThrows
      case Some(len) =>
        if len == -1 then Missing
        else if len >= 0 then (if p + len + 2 > |b| then Missing else Bulk(b[p..p + len], p + len + 2))
        else if p + len + 2 < 0 then Missing
        else Bulk(b[p..], p + len + 2)
  }

  datatype Tokens = TokensMissing | TokensThrow | Tokens(tokens: seq<Bytes>, next: nat)

  /** The token loop of `TryParse`: n bulk strings from `pos`. */
  function ReadTokens(b: Bytes, pos: nat, n: nat): (r: Tokens)
    requires pos <= |b|
    ensures r.Tokens? ==> |r.tokens| == n && r.next <= |b|
    decreases n
  {
    if n == 0 then Tokens([], pos) else
    match ReadBulk(b, pos)
    case Missing => TokensMissing
    case BulkThrows => TokensThrow
    case Bulk(t, p) =>
      match ReadTokens(b, p, n - 1)
      case TokensMissing => TokensMissing
      case TokensThrow => TokensThrow
      case Tokens(ts, q) => Tokens([t] + ts, q)
  }

  // ---------- Commands ----------

  datatype Kind = Set | Get | Del | Exists | Keys | Unknown
  datatype Error = NoError | UnknownCommand | WrongArgCount
  datatype Command = Command(kind: Kind, args: seq<Bytes>, error: Error)

  const SET_NAME: Bytes := [83, 69, 84]
  const GET_NAME: Bytes := [71, 69, 84]
  const DEL_NAME: Bytes := [68, 69, 76]
  const EXISTS_NAME: Bytes := [69, 88, 73, 83, 84, 83]
  const KEYS_NAME: Bytes := [75, 69, 89, 83]
  const UNKNOWN_NAME: Bytes := [85, 78, 75, 78, 79, 87, 78]

  function Name(k: Kind): Bytes {
    match k
    case Set => SET_NAME
    case Get => GET_NAME
    case Del => DEL_NAME
    case Exists => EXISTS_NAME
    case Keys => KEYS_NAME
    case Unknown => UNKNOWN_NAME
  }

  function UpperByte(b: Byte): Byte {
    if 97 <= b <= 122 then b - 32 else b
  }

  function Upper(s: Bytes): Bytes {
    seq(|s|, i requires 0 <= i < |s| => UpperByte(s[i]))
  }

  /** What `TryParse` returns; `Throws` is an exception of `stoi`, `Undefined` the read of a missing token. */
  datatype Result = Parsed(cmd: Command, rest: Bytes) | Partial | ProtocolError(rest: Bytes) | Throws | Undefined

  /** The command in the tokens. An unknown name or a short SET gives a command of kind Set without
      arguments: the error value is initialised to the first enumerator, not to UNKNOWN. */
  function Classify(ts: seq<Bytes>, rest: Bytes): Result
    requires ts != []
  {
    var name := Upper(ts[0]);
    if name == SET_NAME then
      if |ts| < 3 then Parsed(Command(Set, [], WrongArgCount), rest)
      else Parsed(Command(Set, [ts[1], ts[2]], NoError), rest)
    else if name == GET_NAME || name == DEL_NAME || name == EXISTS_NAME then
      var kind := if name == GET_NAME then Get else if name == DEL_NAME then Del else Exists;
      if |ts| < 2 then Undefined else Parsed(Command(kind, [ts[1]], NoError), rest)
    else if name == KEYS_NAME then Parsed(Command(Keys, [], NoError), rest)
    else Parsed(Command(Set, [], UnknownCommand), rest)
  }

  function Parse(b: Bytes): Result {
    match ReadLine(b, 0)
    case None => Partial
    case Some((line, p)) =>
      if line == [] || line[0] != STAR then ProtocolError(b[p..]) else
      match Stoi(line[1..])
      case None => Throws
      case Some(count) =>
        if count <= 0 then ProtocolError(b[p..]) else
        match ReadTokens(b, p, count)
        case TokensMissing => Partial
        case TokensThrow => Throws
        case Tokens(ts, q) => Classify(ts, b[q..])
  }

  // ---------- Printing commands ----------

  function EncodeBulk(s: Bytes): Bytes {
    [DOLLAR] + Dec(|s|) + CRLF + s + CRLF
  }

  function EncodeBulks(ss: seq<Bytes>): Bytes {
    if ss == [] then [] else EncodeBulk(ss[0]) + EncodeBulks(ss[1..])
  }

  function EncodeCommand(k: Kind, args: seq<Bytes>): Bytes {
    [STAR] + Dec(1 + |args|) + CRLF + EncodeBulks([Name(k)] + args)
  }

  method SerializeCommand(k: Kind, args: seq<Bytes>) returns (resp: Bytes)
    ensures resp == EncodeCommand(k, args)
  {
    hide Dec, Name;
    resp := [STAR] + Dec(1 + |args|) + CRLF;
    ghost var head := resp;
    resp := resp + [DOLLAR] + Dec(|Name(k)|) + CRLF + Name(k) + CRLF;
    ghost var all := [Name(k)] + args;
    EncodeBulksOne(Name(k));
    assert resp == head + EncodeBulks([Name(k)]);
    for i := 0 to |args|
      invariant resp == head + EncodeBulks([Name(k)] + args[..i])
    {
      EncodeBulksConcat([Name(k)] + args[..i], [args[i]]);
      EncodeBulksOne(args[i]);
      assert [Name(k)] + args[..i + 1] == ([Name(k)] + args[..i]) + [args[i]];
      resp := resp + [DOLLAR] + Dec(|args[i]|) + CRLF + args[i] + CRLF;
    }
    assert args[..|args|] == args;
  }

  lemma EncodeBulksOne(s: Bytes)
    ensures EncodeBulks([s]) == EncodeBulk(s)
  {
    hide EncodeBulk;
    assert [s][1..] == [];
  }

  lemma {:induction false} EncodeBulksConcat(ss: seq<Bytes>, ts: seq<Bytes>)
    ensures EncodeBulks(ss + ts) == EncodeBulks(ss) + EncodeBulks(ts)
    decreases |ss|
  {
    hide EncodeBulk;
    if ss == [] {
      assert ss + ts == ts;
    } else {
      assert (ss + ts)[0] == ss[0] && (ss + ts)[1..] == ss[1..] + ts;
      EncodeBulksConcat(ss[1..], ts);
    }
  }

  // ---------- The reader ----------

  class RespReader {
    var buf: Bytes

    constructor ()
      ensures buf == []
    {
      buf := [];
    }

    method Feed(data: Bytes)
      modifies this
      ensures buf == old(buf) + data
    {
      buf := buf + data;
    }

    /** Takes one command off the front of the buffer; the buffer changes only when something was taken. */
    method TryParse() returns (result: Result)
      modifies this
      ensures result == Parse(old(buf))
      ensures buf == match result
                     case Parsed(_, rest) => rest
                     case ProtocolError(rest) => rest
                     case _ => old(buf)
    {
      hide FindCrlf, Stoi, ReadBulk, Upper;
      var line := ReadLine(buf, 0);
      if line == None {
        return Partial;
      }
      var (text, pos) := line.value;
      if text == [] || text[0] != STAR {
        buf := buf[pos..];
        return ProtocolError(buf);
      }
      var number := Stoi(text[1..]);
      if number == None {
        return Throws;
      }
      var count := number.value;
      if count <= 0 {
        buf := buf[pos..];
        return ProtocolError(buf);
      }
      var tokens: seq<Bytes> := [];
      ghost var start := pos;
      StartTokens(buf, start, count);
      for i := 0 to count
        invariant buf == old(buf) && pos <= |buf| && |tokens| == i
        invariant TokensContinue(buf, start, count, tokens, pos, count - i)
      {
        ContinueTokens(buf, start, count, tokens, pos, count - i);
        var bulk := ReadBulk(buf, pos);
        if bulk == Missing {
          return Partial;
        }
        if bulk == BulkThrows {
          return Throws;
        }
        pos := bulk.next;
        tokens := tokens + [bulk.token];
      }
      StopTokens(buf, start, count, tokens, pos);
      result := Classify(tokens, buf[pos..]);
      if result.Parsed? {
        buf := buf[pos..];
      }
    }
  }

  ghost predicate TokensContinue(b: Bytes, start: nat, n: nat, done: seq<Bytes>, pos: nat, left: nat)
    requires start <= |b| && pos <= |b|
  {
    match ReadTokens(b, pos, left)
    case TokensMissing => ReadTokens(b, start, n) == TokensMissing
    case TokensThrow => ReadTokens(b, start, n) == TokensThrow
    case Tokens(ts, q) => ReadTokens(b, start, n) == Tokens(done + ts, q)
  }

  lemma StartTokens(b: Bytes, start: nat, n: nat)
    requires start <= |b|
    ensures TokensContinue(b, start, n, [], start, n)
  {
    hide ReadTokens;
    assert forall ts: seq<Bytes> :: [] + ts == ts;
  }

  lemma ContinueTokens(b: Bytes, start: nat, n: nat, done: seq<Bytes>, pos: nat, left: nat)
    requires start <= |b| && pos <= |b| && left > 0 && TokensContinue(b, start, n, done, pos, left)
    ensures match ReadBulk(b, pos)
            case Missing => ReadTokens(b, start, n) == TokensMissing
            case BulkThrows => ReadTokens(b, start, n) == TokensThrow
            case Bulk(t, p) => TokensContinue(b, start, n, done + [t], p, left - 1)
  {
    hide ReadBulk;
    assert forall t: Bytes, ts: seq<Bytes> {:trigger done + ([t] + ts)} :: done + ([t] + ts) == done + [t] + ts;
  }

  lemma StopTokens(b: Bytes, start: nat, n: nat, done: seq<Bytes>, pos: nat)
    requires start <= |b| && pos <= |b| && TokensContinue(b, start, n, done, pos, 0)
    ensures ReadTokens(b, start, n) == Tokens(done, pos)
  {
    assert done + [] == done;
  }
}
