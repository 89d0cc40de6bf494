/** What the request parser (protocol.cpp) makes of bytes that no client of this repository prints: other lines, other
    numbers, other spellings, other bulk strings. Bytes are written out, so that nothing is taken from a constant. */
module RespForms {
  import opened Bytes
  import opened Options
  import opened Resp
  import opened RespStream

  // ---------- Lines ----------

  /** The bytes 13, 10 stand at `i`. */
  predicate EndAt(b: Bytes, i: nat) {
    i + 2 <= |b| && b[i] == 13 && b[i + 1] == 10
  }

  /** The search finds the first line end, and nothing else. */
  lemma {:induction false} FindCrlfIff(b: Bytes, pos: nat, i: nat)
    ensures FindCrlf(b, pos) == Some(i) <==> pos <= i && EndAt(b, i) && forall j: nat :: pos <= j < i ==> !EndAt(b, j)
    decreases |b| - pos
  {
    if pos + 2 <= |b| && !EndAt(b, pos) {
      FindCrlfIff(b, pos + 1, i);
    }
  }

  /** A line: no line end inside. */
  predicate OneLine(line: Bytes) {
    forall j: nat :: j < |line| ==> !EndAt(line, j)
  }

  lemma LineAt(pre: Bytes, line: Bytes, y: Bytes)
    requires OneLine(line)
    ensures ReadLine(pre + (line + [13, 10] + y), |pre|) == Some((line, |pre| + |line| + 2))
  {
    hide FindCrlf, OneLine;
    var b, i := pre + (line + [13, 10] + y), |pre| + |line|;
    assert EndAt(b, i);
    forall j: nat | |pre| <= j < i
      ensures !EndAt(b, j)
    {
      assert b[j] == line[j - |pre|];
      assert j + 1 < i ==> b[j + 1] == line[j + 1 - |pre|];
      LineHasNone(line, j - |pre|);
    }
    FindCrlfIff(b, |pre|, i);
    assert b[|pre|..i] == line;
  }

  lemma LineHasNone(line: Bytes, j: nat)
    requires OneLine(line) && j < |line|
    ensures !EndAt(line, j)
  {
  }

  // ---------- Numbers ----------

  predicate Spaces(w: Bytes) {
    forall i :: 0 <= i < |w| ==> w[i] == 32 || 9 <= w[i] <= 13
  }

  predicate Digits(ds: Bytes) {
    forall i :: 0 <= i < |ds| ==> 48 <= ds[i] <= 57
  }

  lemma {:induction false} SkipSpaces(w: Bytes, t: Bytes)
    requires Spaces(w) && (t == [] || !(t[0] == 32 || 9 <= t[0] <= 13))
    ensures SkipSpace(w + t) == t
    decreases |w|
  {
    if w == [] {
      assert w + t == t;
    } else {
      assert (w + t)[0] == w[0] && (w + t)[1..] == w[1..] + t;
      SkipSpaces(w[1..], t);
    }
  }

  lemma {:induction false} DigitsStop(ds: Bytes, t: Bytes)
    requires Digits(ds) && (t == [] || !(48 <= t[0] <= 57))
    ensures DigitPrefix(ds + t) == ds
    decreases |ds|
  {
    if ds == [] {
      assert ds + t == t;
    } else {
      assert (ds + t)[0] == ds[0] && (ds + t)[1..] == ds[1..] + t;
      DigitsStop(ds[1..], t);
      assert ds == [ds[0]] + ds[1..];
    }
  }

  /** Numbers as `std::stoi` reads them: white space, a sign, digits, and anything after. It throws exactly when the
      value is not a 32-bit integer. */
  lemma StoiReads(w: Bytes, sign: Bytes, ds: Bytes, t: Bytes)
    requires Spaces(w) && (sign == [] || sign == [43] || sign == [45])
    requires Digits(ds) && ds != [] && (t == [] || !(48 <= t[0] <= 57))
    ensures var v := if sign == [45] then -DecValue(ds) else DecValue(ds);
            Stoi(w + (sign + (ds + t))) == if -2147483648 <= v <= 2147483647 then Some(v) else None
  {
    hide SkipSpace, DigitPrefix, DecValue;
    var u := sign + (ds + t);
    assert sign == [] ==> u == ds + t && u[0] == ds[0];
    assert sign != [] ==> u[0] == sign[0] && u[1..] == ds + t;
    SkipSpaces(w, u);
    DigitsStop(ds, t);
  }

  /** Without digits it throws. */
  lemma StoiThrows(w: Bytes, sign: Bytes, t: Bytes)
    requires Spaces(w) && (sign == [] || sign == [43] || sign == [45])
    requires t == [] || !(48 <= t[0] <= 57)
    requires sign == [] && t != [] ==> t[0] != 43 && t[0] != 45 && t[0] != 32 && !(9 <= t[0] <= 13)
    ensures Stoi(w + (sign + t)) == None
  {
    hide SkipSpace, DigitPrefix, DecValue;
    var u := sign + t;
    assert sign == [] ==> u == t;
    assert sign != [] ==> u[0] == sign[0] && u[1..] == t;
    SkipSpaces(w, u);
    DigitsStop([], t);
    assert [] + t == t;
  }

  /** Digits count by tens, and printing puts the last digit last. */
  lemma DecimalDigits(ds: Bytes, d: Byte, n: nat)
    requires d < 10
    ensures DecValue([]) == 0 && DecValue(ds + [48 + d]) == 10 * DecValue(ds) + d
    ensures Dec(d) == [48 + d] && (n > 0 ==> Dec(10 * n + d) == Dec(n) + [48 + d])
  {
    assert (ds + [48 + d])[..|ds|] == ds;
    assert (10 * n + d) / 10 == n && (10 * n + d) % 10 == d;
  }

  // ---------- The first line of a request ----------

  /** A line that does not start with '*' is refused and taken off; one that does throws if no number follows, and is
      refused and taken off if the number is not positive. */
  lemma FirstLine(line: Bytes, x: Bytes)
    requires OneLine(line)
    ensures line == [] || line[0] != 42 ==> Parse(line + [13, 10] + x) == ProtocolError(x)
    ensures line != [] && line[0] == 42 ==>
              match Stoi(line[1..])
              case None => Parse(line + [13, 10] + x) == Throws
              case Some(n) => n <= 0 ==> Parse(line + [13, 10] + x) == ProtocolError(x)
  {
    hide ReadLine, Stoi, ReadTokens, OneLine;
    var b := line + [13, 10] + x;
    LineAt([], line, x);
    assert [] + (line + [13, 10] + x) == b;
    assert b[|line| + 2..] == x;
  }

  // ---------- Bulk strings ----------

  lemma HeaderIsLine(sign: Bytes, c: Byte, n: nat)
    requires c != 13 && (sign == [] || sign == [45])
    ensures OneLine([c] + sign + Dec(n))
  {
    hide Dec;
    DecDigits(n);
    var line := [c] + sign + Dec(n);
    assert forall j: nat :: j < |line| ==> line[j] != 13;
  }

  /** A bulk string of announced length n is the next n bytes, once two more have come; these are not looked at. */
  lemma BulkTakes(pre: Bytes, n: nat, y: Bytes)
    requires n <= 2147483647
    ensures var b, p := pre + ([36] + Dec(n) + [13, 10] + y), |pre| + |Dec(n)| + 3;
            ReadBulk(b, |pre|) == if |y| >= n + 2 then Bulk(y[..n], p + n + 2) else Missing
  {
    hide Dec, Stoi, ReadLine, OneLine;
    var line := [36] + Dec(n);
    assert [36] + [] + Dec(n) == line;
    HeaderIsLine([], 36, n);
    LineAt(pre, line, y);
    var b, p := pre + (line + [13, 10] + y), |pre| + |line| + 2;
    assert line[1..] == Dec(n);
    StoiOfDec(n);
    assert b[|pre|] == 36;
    assert b[p..] == y;
    assert |y| >= n + 2 ==> b[p..p + n] == y[..n];
  }

  /** A length of -1 is a bulk string that never comes. A lower one takes all there is and moves the position back, and
      if that is before the beginning of the buffer, it never comes either. */
  lemma BulkGoesBack(pre: Bytes, n: nat, y: Bytes)
    requires 1 <= n <= 2147483647
    ensures var b, p := pre + ([36] + [45] + Dec(n) + [13, 10] + y), |pre| + |Dec(n)| + 4;
            ReadBulk(b, |pre|) == if n == 1 || n > p + 2 then Missing else Bulk(y, p + 2 - n)
  {
    hide Dec, Stoi, ReadLine, OneLine;
    var line := [36] + [45] + Dec(n);
    HeaderIsLine([45], 36, n);
    LineAt(pre, line, y);
    var b, p := pre + (line + [13, 10] + y), |pre| + |line| + 2;
    assert line[1..] == [45] + Dec(n);
    StoiOfNegative(n);
    assert b[|pre|] == 36;
    assert b[p..] == y;
  }

  /** What is behind an array header decides what happens next. */
  lemma ArrayBegins(n: nat, y: Bytes)
    requires 1 <= n <= 2147483647
    ensures ArrayHeader([42] + Dec(n) + [13, 10] + y) == Some((|Dec(n)| + 3, n))
  {
    hide Dec, Stoi, ReadLine, OneLine;
    var line := [42] + Dec(n);
    assert [42] + [] + Dec(n) == line;
    HeaderIsLine([], 42, n);
    LineAt([], line, y);
    assert [] + (line + [13, 10] + y) == line + [13, 10] + y;
    assert line[1..] == Dec(n);
    StoiOfDec(n);
  }

  /** An array whose first element is not a bulk string, or one of length -1, waits forever, whatever follows. */
  lemma WaitsForever(n: nat, y: Bytes)
    requires 1 <= n <= 2147483647
    requires y == [] || y[0] != 36 || [36, 45, 49, 13, 10] <= y
    ensures Parse([42] + Dec(n) + [13, 10] + y) == Partial
  {
    hide Parse, ArrayHeader, Dec, ReadLine, Stoi;
    var b, p := [42] + Dec(n) + [13, 10] + y, |Dec(n)| + 3;
    ArrayBegins(n, y);
    ParseArray(b);
    assert b[p..] == y;
    if y != [] && y[0] == 36 {
      NullBulk(b[..p], y[5..]);
      assert b == b[..p] + ([36] + [45] + [49] + [13, 10] + y[5..]);
    }
    assert ReadBulk(b, p) == Missing;
  }

  lemma NullBulk(pre: Bytes, x: Bytes)
    ensures ReadBulk(pre + ([36] + [45] + [49] + [13, 10] + x), |pre|) == Missing
  {
    hide ReadBulk;
    assert Dec(1) == [49];
    BulkGoesBack(pre, 1, x);
  }

  // ---------- Names ----------

  /** "SET", "GET", "DEL", "EXISTS" and "KEYS". */
  function Letters(k: Kind): Bytes {
    match k
    case Set => [83, 69, 84]
    case Get => [71, 69, 84]
    case Del => [68, 69, 76]
    case Exists => [69, 88, 73, 83, 84, 83]
    case Keys => [75, 69, 89, 83]
    case Unknown => [85, 78, 75, 78, 79, 87, 78]
  }

  /** Each letter of the name, as it is or in lower case. */
  predicate Spells(s: Bytes, name: Bytes) {
    |s| == |name| && forall i :: 0 <= i < |s| ==> s[i] == name[i] || (s[i] as int) == (name[i] as int) + 32
  }

  lemma LettersAreCapital(k: Kind)
    ensures forall i :: 0 <= i < |Letters(k)| ==> 65 <= Letters(k)[i] <= 90
  {
  }

  lemma LettersAreName(k: Kind)
    ensures Name(k) == Letters(k)
  {
  }

  /** A command's name is recognised in every spelling with capital and small letters, and in no other form. */
  lemma NameIff(s: Bytes, k: Kind)
    ensures Upper(s) == Name(k) <==> Spells(s, Letters(k))
  {
    LettersAreName(k);
    LettersAreCapital(k);
    hide Letters, Name;
    var name := Letters(k);
    if Spells(s, name) {
      assert Upper(s) == name;
    }
    if Upper(s) == name {
      forall i | 0 <= i < |s|
        ensures s[i] == name[i] || (s[i] as int) == (name[i] as int) + 32
      {
        assert UpperByte(s[i]) == name[i];
      }
    }
  }

  /** So a command is understood in every spelling of its name, and tokens beyond those it uses are ignored. */
  lemma AnySpelling(k: Kind, s: Bytes, args: seq<Bytes>, more: seq<Bytes>, x: Bytes)
    requires Arity(k, args) && AllInt(args) && AllInt(more) && 1 + |args| + |more| <= 2147483647
    requires Spells(s, Letters(k))
    ensures Parse(EncodeArray([s] + args + more) + x) == Parsed(Command(k, args, NoError), x)
  {
    hide Parse, EncodeArray, Upper, Letters, Spells, Classify;
    NameIff(s, k);
    UpperLength(s);
    NameIsUpper(k);
    var ts := [s] + args + more;
    assert AllInt(ts);
    ArrayRoundTrip(ts, x);
    ClassifyNamed(k, args, x);
    SameUse(k, s, args, more, x);
  }

  lemma SameUse(k: Kind, s: Bytes, args: seq<Bytes>, more: seq<Bytes>, x: Bytes)
    requires Arity(k, args) && Upper(s) == Name(k) == Upper(Name(k))
    requires Classify([Name(k)] + args, x) == Parsed(Command(k, args, NoError), x)
    ensures Classify([s] + args + more, x) == Parsed(Command(k, args, NoError), x)
  {
    hide Upper;
    var a, b := [s] + args + more, [Name(k)] + args;
    assert a[0] == s && b[0] == Name(k);
    assert forall i :: 1 <= i < |b| ==> a[i] == b[i];
  }

  /** The client prints the names in capitals. */
  lemma PrintedName(k: Kind, args: seq<Bytes>)
    ensures EncodeCommand(k, args) == EncodeArray([Letters(k)] + args)
  {
    hide EncodeBulks, Dec;
    LettersAreName(k);
  }
}
