/** Reading Redis keyspace notifications such as "__keyevent@0__:set" with a chain of strtok calls. */
module Notifications {
  import opened Bytes

  // ---- strtok on values

  predicate NoneIn(s: seq<byte>, delims: seq<byte>) {
    forall i :: 0 <= i < |s| ==> s[i] !in delims
  }

  datatype Split = NoToken | Token(token: seq<byte>, rest: seq<byte>)

  function Skip(s: seq<byte>, delims: seq<byte>): (r: seq<byte>)
    ensures |r| <= |s| && (r != [] ==> r[0] !in delims)
  {
    if s == [] || s[0] !in delims then s else Skip(s[1..], delims)
  }

  /** The longest beginning without delimiters. */
  function Head(s: seq<byte>, delims: seq<byte>): (r: seq<byte>)
    ensures r <= s && NoneIn(r, delims)
    ensures |r| < |s| ==> s[|r|] in delims
  {
    if s == [] || s[0] in delims then [] else [s[0]] + Head(s[1..], delims)
  }

  function Tokenize(s: seq<byte>, delims: seq<byte>): (r: Split)
    ensures r.Token? ==> r.token != [] && NoneIn(r.token, delims)
  {
    var t := Skip(s, delims);
    if t == [] then NoToken
    else
      var head := Head(t, delims);
      Token(head, if |head| < |t| then t[|head| + 1..] else [])
  }

  lemma {:induction false} HeadUpTo(s: seq<byte>, delims: seq<byte>, rest: seq<byte>)
    requires NoneIn(s, delims)
    requires rest == [] || rest[0] in delims
    ensures Head(s + rest, delims) == s
  {
    if s == [] {
      assert s + rest == rest;
    } else {
      assert (s + rest)[1..] == s[1..] + rest;
      HeadUpTo(s[1..], delims, rest);
    }
  }

  /** A token followed by a delimiter or by the end. */
  lemma TokenizeUpTo(s: seq<byte>, delims: seq<byte>, rest: seq<byte>)
    requires s != [] && NoneIn(s, delims)
    requires rest == [] || rest[0] in delims
    ensures Tokenize(s + rest, delims) == Token(s, if rest == [] then [] else rest[1..])
  {
    HeadUpTo(s, delims, rest);
    assert (s + rest)[0] == s[0];
  }

  /** Delimiters in front of a token are passed over. */
  lemma {:induction false} LeadingDelimiters(d: seq<byte>, s: seq<byte>, delims: seq<byte>)
    requires forall i :: 0 <= i < |d| ==> d[i] in delims
    ensures Tokenize(d + s, delims) == Tokenize(s, delims)
  {
    SkipsAll(d, s, delims);
  }

  lemma {:induction false} SkipsAll(d: seq<byte>, s: seq<byte>, delims: seq<byte>)
    requires forall i :: 0 <= i < |d| ==> d[i] in delims
    ensures Skip(d + s, delims) == Skip(s, delims)
  {
    if d == [] {
      assert d + s == s;
    } else {
      assert (d + s)[1..] == d[1..] + s;
      SkipsAll(d[1..], s, delims);
    }
  }

  // ---- strtok on a buffer

  /** strtok's hidden position in the string it cuts. */
  class Tokenizer {
    const str: array<byte>
    var save: nat

    constructor (str: array<byte>, start: nat)
      requires start < str.Length && 0 in str[start..]
      ensures this.str == str && save == start && Valid()
    {
      this.str, save := str, start;
    }

    ghost predicate Valid()
      reads this, str
    {
      save < str.Length && 0 in str[save..]
    }

    /** What has not been cut yet. */
    ghost function Rest(): seq<byte>
      requires Valid()
      reads this, str
    {
      UpToNul(str[save..])
    }

    /** Skips delimiters. */
    method SkipDelims(delims: seq<byte>) returns (p: nat)
      requires Valid()
      ensures save <= p < str.Length && 0 in str[p..]
      ensures UpToNul(str[p..]) == Skip(Rest(), delims)
    {
      hide UpToNul, Skip;
      p := save;
      while str[p] != 0 && str[p] in delims
        invariant save <= p < str.Length && 0 in str[p..]
        invariant Skip(UpToNul(str[p..]), delims) == Skip(Rest(), delims)
        decreases str.Length - p
      {
        Advance(str[p..], delims);
        assert str[p..][1..] == str[p + 1..];
        p := p + 1;
      }
      Stop(str[p..], delims);
    }

    /** The end of the token that begins at start, where t begins. */
    method ScanToken(start: nat, ghost t: seq<byte>, delims: seq<byte>) returns (p: nat)
      requires start + |t| < str.Length && str[start..start + |t|] == t && str[start + |t|] == 0 && 0 !in t
      ensures start <= p <= start + |t| && Head(t, delims) == t[..p - start]
      ensures str[p] == 0 <==> p == start + |t|
    {
      hide Head, NoneIn;
      p := start;
      assert NoneIn(t[..0], delims) by { NothingIn(delims); }
      while str[p] != 0 && str[p] !in delims
        invariant start <= p <= start + |t|
        invariant NoneIn(t[..p - start], delims)
        decreases str.Length - p
      {
        NoneInMore(t[..p - start], str[p], delims);
        assert t[..p - start] + [str[p]] == t[..p + 1 - start];
        p := p + 1;
      }
      HeadIs(t, p - start, delims);
    }

    /** The next token as an index into the string, which is cut after it, or -1. */
    method Next(delims: seq<byte>) returns (token: int)
      requires Valid()
      modifies this`save, str
      ensures Valid()
      ensures match Tokenize(old(Rest()), delims)
              case NoToken => token == -1
              case Token(t, rest) =>
                0 <= token < str.Length && 0 in str[token..] && UpToNul(str[token..]) == t && Rest() == rest
    {
      hide UpToNul, Skip, Head, Tokenize, NoneIn;
      ghost var before := Rest();
      var start := SkipDelims(delims);
      ghost var s := str[start..];
      ghost var t := UpToNul(s);
      Ended(s);
      if str[start] == 0 {
        NoTokenLeft(before, delims);
        save := start;
        return -1;
      }
      var p := ScanToken(start, t, delims);
      TokenFound(before, delims, p - start);
      token := start;
      if str[p] == 0 {
        save := p;
        Ended(str[p..]);
      } else {
        CutAt(str[..], start, p);
        ghost var whole := str[..];
        save := p + 1;
        str[p] := 0;
        assert str[..] == whole[p := 0];
        assert str[token..] == whole[p := 0][token..] && str[save..] == whole[p := 0][save..];
      }
    }
  }

  lemma NoTokenLeft(s: seq<byte>, delims: seq<byte>)
    requires Skip(s, delims) == []
    ensures Tokenize(s, delims) == NoToken
  {
  }

  lemma TokenFound(s: seq<byte>, delims: seq<byte>, k: nat)
    requires var t := Skip(s, delims); t != [] && k <= |t| && Head(t, delims) == t[..k]
    ensures var t := Skip(s, delims);
            Tokenize(s, delims) == Token(t[..k], if k < |t| then t[k + 1..] else [])
  {
  }

  lemma NothingIn(delims: seq<byte>)
    ensures NoneIn([], delims)
  {
  }

  lemma NoneInMore(s: seq<byte>, c: byte, delims: seq<byte>)
    requires NoneIn(s, delims) && c !in delims
    ensures NoneIn(s + [c], delims)
  {
  }

  lemma HeadIs(t: seq<byte>, k: nat, delims: seq<byte>)
    requires k <= |t| && NoneIn(t[..k], delims) && (k == |t| || t[k] in delims)
    ensures Head(t, delims) == t[..k]
  {
    HeadUpTo(t[..k], delims, t[k..]);
    assert t[..k] + t[k..] == t;
  }

  lemma Ended(s: seq<byte>)
    requires s != [] && 0 in s
    ensures var n := |UpToNul(s)|;
            n < |s| && s[..n] == UpToNul(s) && s[n] == 0 && (n == 0 <==> s[0] == 0)
            && UpToNul(s)[..n] == UpToNul(s)
  {
    UpToNulLength(s);
  }

  /** A NUL put into a string, before its end. */
  lemma Cut(s: seq<byte>, k: nat)
    requires 0 in s && k < |UpToNul(s)|
    ensures |UpToNul(s)| < |s| && 0 in s[k := 0] && UpToNul(s[k := 0]) == UpToNul(s)[..k]
    ensures 0 in s[k + 1..] && UpToNul(s[k + 1..]) == UpToNul(s)[k + 1..]
  {
    UpToNulFrom(s, k + 1);
    var cut := s[k := 0];
    assert cut[k] == 0;
    assert cut[..k] == UpToNul(s)[..k];
    UpToNulIs(cut, k);
  }

  /** The same in a larger string, from start on. */
  lemma CutAt(whole: seq<byte>, start: nat, p: nat)
    requires start <= p < |whole| && 0 in whole[start..] && p - start < |UpToNul(whole[start..])|
    ensures var cut, t := whole[p := 0], UpToNul(whole[start..]);
            && 0 in cut[start..] && UpToNul(cut[start..]) == t[..p - start]
            && 0 in cut[p + 1..] && UpToNul(cut[p + 1..]) == t[p - start + 1..]
  {
    hide UpToNul;
    var s := whole[start..];
    Cut(s, p - start);
    assert whole[p := 0][start..] == s[p - start := 0];
    assert whole[p := 0][p + 1..] == s[p - start + 1..];
  }

  lemma Advance(s: seq<byte>, delims: seq<byte>)
    requires 0 in s && s[0] != 0 && s[0] in delims
    ensures 0 in s[1..] && Skip(UpToNul(s[1..]), delims) == Skip(UpToNul(s), delims)
  {
    assert s == [s[0]] + s[1..];
    assert UpToNul(s)[1..] == UpToNul(s[1..]);
  }

  lemma Stop(s: seq<byte>, delims: seq<byte>)
    requires 0 in s && (s[0] == 0 || s[0] !in delims)
    ensures Skip(UpToNul(s), delims) == UpToNul(s)
  {
  }

  // ---- Numbers

  predicate IsDigit(c: byte) {
    0x30 <= c <= 0x39
  }

  predicate IsSpace(c: byte) {
    c == 0x20 || 9 <= c <= 13
  }

  /** The value of the digits that s begins with, after those worth acc. */
  function Digits(s: seq<byte>, acc: nat): nat {
    if s == [] || !IsDigit(s[0]) then acc else Digits(s[1..], 10 * acc + (s[0] as int - 0x30))
  }

  function SkipSpaces(s: seq<byte>): seq<byte> {
    if s == [] || !IsSpace(s[0]) then s else SkipSpaces(s[1..])
  }

  /** The C library's atoi, which is defined where this value is an int. */
  function Atoi(s: seq<byte>): int {
    var t := SkipSpaces(s);
    if t != [] && t[0] == 0x2d then 0 - Digits(t[1..], 0)
    else if t != [] && t[0] == 0x2b then Digits(t[1..], 0)
    else Digits(t, 0)
  }

  function Decimal(n: nat): (r: seq<byte>)
    ensures r != [] && forall i :: 0 <= i < |r| ==> IsDigit(r[i])
  {
    if n < 10 then [0x30 + n] else Decimal(n / 10) + [0x30 + n % 10]
  }

  lemma {:induction false} DigitsMore(s: seq<byte>, d: byte, acc: nat)
    requires IsDigit(d) && forall i :: 0 <= i < |s| ==> IsDigit(s[i])
    ensures Digits(s + [d], acc) == 10 * Digits(s, acc) + (d as int - 0x30)
    decreases |s|
  {
    if s == [] {
      assert [d][1..] == [];
      assert s + [d] == [d];
    } else {
      assert (s + [d])[1..] == s[1..] + [d];
      DigitsMore(s[1..], d, 10 * acc + (s[0] as int - 0x30));
    }
  }

  lemma {:induction false} DecimalDigits(n: nat)
    ensures Digits(Decimal(n), 0) == n
  {
    if n < 10 {
      assert Decimal(n)[1..] == [];
    } else {
      DecimalDigits(n / 10);
      DigitsMore(Decimal(n / 10), 0x30 + n % 10, 0);
    }
  }

  /** Reading what was printed. */
  lemma AtoiDecimal(n: nat)
    ensures Atoi(Decimal(n)) == n
  {
    DecimalDigits(n);
    assert IsDigit(Decimal(n)[0]);
  }

  // ---- The notification

  const AT: byte := 0x40
  const UNDERSCORE: byte := 0x5f
  const COLON: byte := 0x3a

  /** A keyspace event as Redis prints it. */
  function PrintEvent(eventType: seq<byte>, db: nat, op: seq<byte>): seq<byte> {
    [UNDERSCORE, UNDERSCORE] + (eventType + ([AT] + (Decimal(db) + ([UNDERSCORE] + ([UNDERSCORE] + ([COLON] + op))))))
  }

  datatype Event = Event(eventType: seq<byte>, db: int, op: seq<byte>) | Refused(code: int)

  /** The chain of four strtok calls, on the string from its third character on. */
  function ParseEvent(s: seq<byte>): Event
    requires Tokenize(s, [AT]).Token?
  {
    var first := Tokenize(s, [AT]);
    var second := Tokenize(first.rest, [UNDERSCORE]);
    if second.NoToken? then Refused(-3)
    else if Atoi(second.token) < 0 then Refused(-4)
    else
      var third := Tokenize(second.rest, [COLON]);
      if third.NoToken? then Refused(-5)
      else
        var fourth := Tokenize(third.rest, []);
        if fourth.NoToken? then Refused(-6) else Event(first.token, Atoi(second.token), fourth.token)
  }

  predicate ParsesBack(eventType: seq<byte>, db: nat, op: seq<byte>) {
    var s := PrintEvent(eventType, db, op)[2..];
    Tokenize(s, [AT]).Token? && ParseEvent(s) == Event(eventType, db, op)
  }

  /** Parsing gives back what was printed. */
  lemma ParsesPrinted(eventType: seq<byte>, db: nat, op: seq<byte>)
    requires eventType != [] && AT !in eventType && op != []
    ensures ParsesBack(eventType, db, op)
  {
    hide Tokenize, Decimal, Atoi, NoneIn;
    var number := Decimal(db);
    var fourth := [COLON] + op;
    var third := [UNDERSCORE] + fourth;
    var second := number + ([UNDERSCORE] + third);
    assert PrintEvent(eventType, db, op)[2..] == eventType + ([AT] + second);
    PlainTokens(eventType, op);
    TokenThen(eventType, AT, second);
    DigitsAreNot(number, UNDERSCORE);
    TokenThen(number, UNDERSCORE, third);
    AtoiDecimal(db);
    TokenThen([UNDERSCORE], COLON, op);
    TokenizeUpTo(op, [], []);
    assert op + [] == op;
  }

  lemma TokenThen(s: seq<byte>, delim: byte, rest: seq<byte>)
    requires s != [] && NoneIn(s, [delim])
    ensures Tokenize(s + ([delim] + rest), [delim]) == Token(s, rest)
  {
    TokenizeUpTo(s, [delim], [delim] + rest);
    assert ([delim] + rest)[1..] == rest;
  }

  /** Where the chain ends too early, and a negative number: a is the type, n the number, x what follows it. */
  lemma ChainEnds(a: seq<byte>, n: seq<byte>, x: seq<byte>, rest: seq<byte>)
    requires a != [] && AT !in a && n != [] && UNDERSCORE !in n && x != [] && COLON !in x
    ensures Tokenize(a, [AT]).Token? && ParseEvent(a) == Refused(-3)
    ensures Tokenize(a + ([AT] + n), [AT]).Token?
         && ParseEvent(a + ([AT] + n)) == Refused(if Atoi(n) < 0 then -4 else -5)
    ensures Tokenize(a + ([AT] + (n + ([UNDERSCORE] + rest))), [AT]).Token?
         && (Atoi(n) < 0 ==> ParseEvent(a + ([AT] + (n + ([UNDERSCORE] + rest)))) == Refused(-4))
    ensures Tokenize(a + ([AT] + (n + ([UNDERSCORE] + x))), [AT]).Token?
         && (Atoi(n) >= 0 ==> ParseEvent(a + ([AT] + (n + ([UNDERSCORE] + x)))) == Refused(-6))
  {
    hide Tokenize, Atoi, NoneIn;
    NoneOf(a, AT);
    NoneOf(n, UNDERSCORE);
    NoneOf(x, COLON);
    NothingLeft();
    LastToken(a, [AT]);
    LastToken(n, [UNDERSCORE]);
    LastToken(x, [COLON]);
    TokenThen(a, AT, n);
    TokenThen(a, AT, n + ([UNDERSCORE] + rest));
    TokenThen(a, AT, n + ([UNDERSCORE] + x));
    TokenThen(n, UNDERSCORE, rest);
    TokenThen(n, UNDERSCORE, x);
  }

  lemma NoneOf(s: seq<byte>, c: byte)
    requires c !in s
    ensures NoneIn(s, [c])
  {
  }

  lemma NothingLeft()
    ensures Tokenize([], [UNDERSCORE]) == NoToken && Tokenize([], [COLON]) == NoToken && Tokenize([], []) == NoToken
  {
  }

  lemma LastToken(s: seq<byte>, delims: seq<byte>)
    requires s != [] && NoneIn(s, delims)
    ensures Tokenize(s, delims) == Token(s, [])
  {
    TokenizeUpTo(s, delims, []);
    assert s + [] == s;
  }

  lemma PlainTokens(eventType: seq<byte>, op: seq<byte>)
    requires AT !in eventType
    ensures NoneIn(eventType, [AT]) && NoneIn([UNDERSCORE], [COLON]) && NoneIn(op, [])
  {
  }

  lemma DigitsAreNot(s: seq<byte>, c: byte)
    requires !IsDigit(c) && forall i :: 0 <= i < |s| ==> IsDigit(s[i])
    ensures NoneIn(s, [c])
  {
  }

  /** And for no other event types and operations: the chain inverts printing exactly for these. */
  lemma ChainInverts(eventType: seq<byte>, db: nat, op: seq<byte>)
    ensures ParsesBack(eventType, db, op) <==> eventType != [] && AT !in eventType && op != []
  {
    if eventType != [] && AT !in eventType && op != [] {
      ParsesPrinted(eventType, db, op);
    }
    if ParsesBack(eventType, db, op) {
      OnlyPlain(eventType, db, op);
    }
  }

  lemma OnlyPlain(eventType: seq<byte>, db: nat, op: seq<byte>)
    requires ParsesBack(eventType, db, op)
    ensures eventType != [] && AT !in eventType && op != []
  {
    assert NoneIn(eventType, [AT]);
    forall i | 0 <= i < |eventType| ensures eventType[i] != AT {
      assert eventType[i] !in [AT];
    }
  }

  // ---- The code

  /** Static buffers. */
  const BUFFER := 64

  /** atoi is defined on the number, if the chain gets that far. */
  predicate NumberFits(s: seq<byte>)
    requires Tokenize(s, [AT]).Token?
  {
    var second := Tokenize(Tokenize(s, [AT]).rest, [UNDERSCORE]);
    second.Token? ==> -0x8000_0000 <= Atoi(second.token) < 0x8000_0000
  }

  /** A string that the chain of strtok calls can start on, with parts that fit the static buffers and an int. */
  ghost predicate Parsable(str: array<byte>)
    reads str
  {
    && str.Length > 2 && 0 in str[2..]
    && Tokenize(UpToNul(str[2..]), [AT]).Token?
    && |Tokenize(UpToNul(str[2..]), [AT]).token| < BUFFER
    && NumberFits(UpToNul(str[2..]))
    && (ParseEvent(UpToNul(str[2..])).Event? ==> |ParseEvent(UpToNul(str[2..])).op| < BUFFER)
  }

  ghost function Parsed(str: array<byte>): Event
    requires Parsable(str)
    reads str
  {
    ParseEvent(UpToNul(str[2..]))
  }

  /** Cuts the string of a notification's third element; 0, or the code of the refusal. */
  method ParseElement(str: array<byte>) returns (code: int, eventType: seq<byte>, db: int32, op: seq<byte>)
    requires Parsable(str)
    modifies str
    ensures match old(Parsed(str))
            case Event(t, n, o) => code == 0 && eventType == t && db == n && op == o
            case Refused(c) => code == c < 0
  {
    hide Tokenize, Atoi, UpToNul;
    eventType, db, op := [], -1, [];
    var strtok := new Tokenizer(str, 2);
    var tmp := strtok.Next([AT]);
    eventType := UpToNul(str[tmp..]);
    tmp := strtok.Next([UNDERSCORE]);
    if tmp == -1 {
      return -3, eventType, db, op;
    }
    db := Atoi(UpToNul(str[tmp..]));
    if db < 0 {
      return -4, eventType, db, op;
    }
    tmp := strtok.Next([COLON]);
    if tmp == -1 {
      return -5, eventType, db, op;
    }
    tmp := strtok.Next([]);
    if tmp == -1 {
      return -6, eventType, db, op;
    }
    op := UpToNul(str[tmp..]);
    return 0, eventType, db, op;
  }

  /** An element of a reply: a string with its length, or something else. */
  datatype Element = Str(str: array<byte>, len: int32) | Other

  datatype Notification = Notification(
    ntfType: Option<array<byte>>, pattern: Option<array<byte>>, event: Option<(seq<byte>, int, seq<byte>)>,
    target: Option<(array<byte>, int32)>)

  /** What is known after the first i elements, e being the event in the third. */
  ghost function Gathered(elements: seq<Element>, e: Event, i: nat): Notification {
    Notification(
      if i > 0 && |elements| > 0 && elements[0].Str? then Some(elements[0].str) else None,
      if i > 1 && |elements| > 1 && elements[1].Str? then Some(elements[1].str) else None,
      if i > 2 && |elements| > 2 && elements[2].Str? && e.Event? then Some((e.eventType, e.db, e.op)) else None,
      if i > 3 && |elements| > 3 && elements[3].Str? then Some((elements[3].str, elements[3].len)) else None)
  }

  /** The event in the third element, if there is a string there. */
  ghost function EventIn(elements: seq<Element>): Event
    requires |elements| > 2 && elements[2].Str? ==> Parsable(elements[2].str)
    reads if |elements| > 2 && elements[2].Str? then {elements[2].str} else {}
  {
    if |elements| > 2 && elements[2].Str? then Parsed(elements[2].str) else Refused(0)
  }

  /** Reads a whole reply: the number of its elements, or a negative code. */
  method ParseNotification(isArray: bool, elements: seq<Element>) returns (ret: int, n: Notification)
    requires |elements| > 2 && elements[2].Str? ==> Parsable(elements[2].str)
    modifies if |elements| > 2 && elements[2].Str? then {elements[2].str} else {}
    ensures !isArray ==> ret == -1
    ensures isArray && elements == [] ==> ret == -2
    ensures isArray && elements != [] ==>
              var e := old(EventIn(elements));
              if |elements| > 2 && elements[2].Str? && e.Refused? then ret == e.code < 0
              else ret == |elements| && n == Gathered(elements, e, |elements|)
    ensures isArray && |elements| == 4 && ret >= 0 && (forall i :: 0 <= i < 4 ==> elements[i].Str?) ==>
              && n.ntfType == Some(elements[0].str) && n.pattern == Some(elements[1].str)
              && n.target == Some((elements[3].str, elements[3].len)) && old(Parsed(elements[2].str)).Event?
              && var e := old(Parsed(elements[2].str)); n.event == Some((e.eventType, e.db, e.op))
  {
    hide Parsed, Parsable;
    n := Notification(None, None, None, None);
    if !isArray {
      return -1, n;
    }
    if |elements| < 1 {
      return -2, n;
    }
    ghost var e := EventIn(elements);
    for i := 0 to |elements|
      invariant n == Gathered(elements, e, i)
      invariant i <= 2 && |elements| > 2 && elements[2].Str? ==>
                  Parsable(elements[2].str) && Parsed(elements[2].str) == e
      invariant i > 2 && |elements| > 2 && elements[2].Str? ==> e.Event?
    {
      match elements[i] {
        case Str(str, len) =>
          if i == 0 {
            n := n.(ntfType := Some(str));
          } else if i == 1 {
            n := n.(pattern := Some(str));
          } else if i == 2 {
            var code, eventType, db, op := ParseElement(str);
            if code < 0 {
              return code, n;
            }
            n := n.(event := Some((eventType, db, op)));
          } else if i == 3 {
            n := n.(target := Some((str, len)));
          }
        case Other =>
      }
    }
    ret := |elements|;
  }

  /** What a printed event is to the parser: the string without its NUL. */
  lemma PrintedText(str: array<byte>, eventType: seq<byte>, db: nat, op: seq<byte>)
    requires str[..] == PrintEvent(eventType, db, op) + [0] && 0 !in eventType && 0 !in op
    ensures str.Length > 2 && 0 in str[2..] && UpToNul(str[2..]) == PrintEvent(eventType, db, op)[2..]
  {
    hide Decimal;
    var s := PrintEvent(eventType, db, op);
    assert str[2..] == s[2..] + [0];
    UpToNulIs(s[2..] + [0], |s| - 2);
    assert (s[2..] + [0])[..|s| - 2] == s[2..];
  }

  /** A printed event that the chain inverts is in the parser's domain exactly when its parts fit. */
  lemma PrintedIsParsable(str: array<byte>, eventType: seq<byte>, db: nat, op: seq<byte>)
    requires str[..] == PrintEvent(eventType, db, op) + [0] && 0 !in eventType && 0 !in op
    requires eventType != [] && AT !in eventType && op != []
    ensures Parsable(str) <==> |eventType| < 64 && |op| < 64 && db < 0x8000_0000
  {
    hide Tokenize, Atoi, Decimal, ParseEvent;
    PrintedText(str, eventType, db, op);
    ParsesPrinted(eventType, db, op);
    PrintedFirst(eventType, db, op);
    AtoiDecimal(db);
  }

  /** A printed event is parsed, and gives back what was printed, exactly under a condition on its parts. */
  lemma ParsesExactly(str: array<byte>, eventType: seq<byte>, db: nat, op: seq<byte>)
    requires str[..] == PrintEvent(eventType, db, op) + [0] && 0 !in eventType && 0 !in op
    ensures Parsable(str) && Parsed(str) == Event(eventType, db, op)
       <==> && eventType != [] && AT !in eventType && op != []
            && |eventType| < 64 && |op| < 64 && db < 0x8000_0000
  {
    hide Tokenize, Atoi, Decimal, ParseEvent, PrintEvent;
    PrintedText(str, eventType, db, op);
    ChainInverts(eventType, db, op);
    if eventType != [] && AT !in eventType && op != [] {
      PrintedIsParsable(str, eventType, db, op);
    }
  }

  lemma PrintedFirst(eventType: seq<byte>, db: nat, op: seq<byte>)
    requires eventType != [] && AT !in eventType && op != []
    ensures var first := Tokenize(PrintEvent(eventType, db, op)[2..], [AT]);
            first.Token? && first.token == eventType
            && Tokenize(first.rest, [UNDERSCORE]).Token? && Tokenize(first.rest, [UNDERSCORE]).token == Decimal(db)
  {
    hide Tokenize, Decimal;
    PlainTokens(eventType, op);
    var third := [UNDERSCORE] + ([COLON] + op);
    var rest := Decimal(db) + ([UNDERSCORE] + third);
    assert PrintEvent(eventType, db, op)[2..] == eventType + ([AT] + rest);
    TokenThen(eventType, AT, rest);
    DigitsAreNot(Decimal(db), UNDERSCORE);
    TokenThen(Decimal(db), UNDERSCORE, third);
  }
}
