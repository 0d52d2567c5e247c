/** The table-driven UTF-8 decoder, against the grammar and the encoding of RFC 3629. */
module Utf8 {
  import opened Bytes

  const ACCEPT := 0
  const REJECT := 1

  // ---- The automaton

  /** Entries 0 to 255 of the table: the class of an octet. */
  function Class(b: byte): (c: nat)
    ensures c < 12
  {
    if b < 0x80 then 0
    else if b < 0x90 then 1
    else if b < 0xa0 then 9
    else if b < 0xc0 then 7
    else if b < 0xc2 then 8
    else if b < 0xe0 then 2
    else if b == 0xe0 then 10
    else if b < 0xed then 3
    else if b == 0xed then 4
    else if b < 0xf0 then 3
    else if b == 0xf0 then 11
    else if b < 0xf4 then 6
    else if b == 0xf4 then 5
    else 8
  }

  /** Entries from 256 on, sixteen to a state: the state that follows. */
  function Next(state: nat, kind: nat): (r: nat)
    requires state < 9 && kind < 16
    ensures r < 9
  {
    match state
    case 0 =>
      (match kind
       case 0 => 0 case 2 => 2 case 3 => 3 case 4 => 5 case 5 => 8 case 6 => 7
       case 10 => 4 case 11 => 6 case _ => 1)
    case 2 => if kind == 1 || kind == 7 || kind == 9 then 0 else 1
    case 3 => if kind == 1 || kind == 7 || kind == 9 then 2 else 1
    case 4 => if kind == 7 then 2 else 1
    case 5 => if kind == 1 || kind == 9 then 2 else 1
    case 6 => if kind == 7 || kind == 9 then 3 else 1
    case 7 => if kind == 1 || kind == 7 || kind == 9 then 3 else 1
    case 8 => if kind == 1 then 3 else 1
    case _ => 1
  }

  /** The table `utf8d`. */
  function Utf8d(i: nat): (r: nat)
    requires i < 400
    ensures r < 12 && (i >= 256 ==> r < 9)
  {
    if i < 256 then Class(i) else Next((i - 256) / 16, (i - 256) % 16)
  }

  function StepState(state: nat, b: byte): (r: nat)
    requires state < 9
    ensures r < 9
  {
    Next(state, Class(b))
  }

  /** (0xff >> kind) + 1: masking with 0xff >> kind is the remainder modulo this power of two. */
  function LeadSpan(kind: nat): (r: nat)
    ensures 1 <= r <= 256
  {
    match kind
    case 0 => 256 case 1 => 128 case 2 => 64 case 3 => 32 case 4 => 16 case 5 => 8 case 6 => 4 case 7 => 2 case _ => 1
  }

  function StepCode(state: nat, codep: uint32, b: byte): uint32 {
    if state != ACCEPT then (codep * 64) % 0x1_0000_0000 + b % 64 else b % LeadSpan(Class(b))
  }

  function RunState(state: nat, s: seq<byte>): (r: nat)
    requires state < 9
    ensures r < 9
    decreases |s|
  {
    if s == [] then state else RunState(StepState(state, s[0]), s[1..])
  }

  /** The code points seen whenever the automaton comes back to ACCEPT. */
  function Decoded(state: nat, codep: uint32, s: seq<byte>): seq<nat>
    requires state < 9
    decreases |s|
  {
    if s == [] then []
    else
      var q, c := StepState(state, s[0]), StepCode(state, codep, s[0]);
      (if q == ACCEPT then [c] else []) + Decoded(q, c, s[1..])
  }

  /** The decoder's two variables, which `decode` updates through pointers. */
  class Decoder {
    var state: uint32
    var codep: uint32

    /** The scan starts at ACCEPT with an uninitialised code point. */
    constructor (uninitialised: uint32)
      ensures state == ACCEPT && codep == uninitialised
    {
      state, codep := ACCEPT, uninitialised;
    }

    method Decode(b: byte) returns (result: nat)
      requires state < 9
      modifies this
      ensures state == StepState(old(state), b) == result
      ensures codep == StepCode(old(state), old(codep), b)
    {
      var kind := Utf8d(b);
      if state != ACCEPT {
        codep := (codep * 64) % 0x1_0000_0000 + b % 64;
      } else {
        codep := b % LeadSpan(kind);
      }
      state := Utf8d(256 + state * 16 + kind);
      result := state;
    }
  }

  /** Scans a NUL-terminated string; what follows the first NUL is never looked at. */
  method ValidateUtf8Sequence(s: seq<byte>, uninitialised: uint32) returns (ok: bool)
    requires 0 in s
    ensures ok <==> IsOctets(UpToNul(s))
  {
    var d := new Decoder(uninitialised);
    var i := 0;
    ghost var text := UpToNul(s);
    UpToNulLength(s);
    while s[i] != 0
      invariant 0 <= i <= |text| < |s|
      invariant d.state < 9
      invariant RunState(ACCEPT, text) == RunState(d.state, text[i..])
      decreases |s| - i
    {
      if i == |text| { assert false; }
      assert text[i] == s[i];
      var _ := d.Decode(s[i]);
      assert text[i..][1..] == text[i + 1..];
      i := i + 1;
    }
    AcceptsGrammar(text);
    ok := d.state == ACCEPT;
  }

  // ---- The grammar of section 4 of RFC 3629

  predicate IsTail(b: byte) {
    0x80 <= b <= 0xbf
  }

  predicate IsChar(s: seq<byte>) {
    match |s|
    case 1 => s[0] <= 0x7f
    case 2 => 0xc2 <= s[0] <= 0xdf && IsTail(s[1])
    case 3 =>
      && IsTail(s[2])
      && (|| (s[0] == 0xe0 && 0xa0 <= s[1] <= 0xbf)
          || (0xe1 <= s[0] <= 0xec && IsTail(s[1]))
          || (s[0] == 0xed && 0x80 <= s[1] <= 0x9f)
          || (0xee <= s[0] <= 0xef && IsTail(s[1])))
    case 4 =>
      && IsTail(s[2]) && IsTail(s[3])
      && (|| (s[0] == 0xf0 && 0x90 <= s[1] <= 0xbf)
          || (0xf1 <= s[0] <= 0xf3 && IsTail(s[1]))
          || (s[0] == 0xf4 && 0x80 <= s[1] <= 0x8f))
    case _ => false
  }

  /** A sequence of characters. */
  predicate IsOctets(s: seq<byte>) {
    s == [] || exists k :: 1 <= k <= |s| && IsChar(s[..k]) && IsOctets(s[k..])
  }

  /** What each state of the automaton still waits for, told in terms of the grammar. */
  predicate Awaits(state: nat, s: seq<byte>) {
    match state
    case 0 => IsOctets(s)
    case 2 => |s| >= 1 && IsTail(s[0]) && IsOctets(s[1..])
    case 3 => |s| >= 2 && IsTail(s[0]) && IsTail(s[1]) && IsOctets(s[2..])
    case 4 => |s| >= 2 && 0xa0 <= s[0] <= 0xbf && IsTail(s[1]) && IsOctets(s[2..])
    case 5 => |s| >= 2 && 0x80 <= s[0] <= 0x9f && IsTail(s[1]) && IsOctets(s[2..])
    case 6 => |s| >= 3 && 0x90 <= s[0] <= 0xbf && IsTail(s[1]) && IsTail(s[2]) && IsOctets(s[3..])
    case 7 => |s| >= 3 && IsTail(s[0]) && IsTail(s[1]) && IsTail(s[2]) && IsOctets(s[3..])
    case 8 => |s| >= 3 && 0x80 <= s[0] <= 0x8f && IsTail(s[1]) && IsTail(s[2]) && IsOctets(s[3..])
    case _ => false
  }

  lemma CharAwaited(s: seq<byte>, k: nat)
    requires 1 <= k <= |s| && IsChar(s[..k]) && IsOctets(s[k..])
    ensures Awaits(StepState(ACCEPT, s[0]), s[1..])
  {
    hide IsOctets;
    var t := s[1..];
    assert k <= 4;
    assert t[k - 1..] == s[k..];
    if k == 1 {
      assert t[0..] == t;
    }
  }

  lemma AwaitedFirstChar(s: seq<byte>)
    requires s != [] && Awaits(StepState(ACCEPT, s[0]), s[1..])
    ensures IsOctets(s)
  {
    var t := s[1..];
    assert |s| >= 2 ==> t[0] == s[1] && t[1..] == s[2..];
    assert |s| >= 3 ==> t[1] == s[2] && t[2..] == s[3..];
    assert |s| >= 4 ==> t[2] == s[3] && t[3..] == s[4..];
    var q := StepState(ACCEPT, s[0]);
    var k := if q == 0 then 1 else if q == 2 then 2 else if q <= 5 then 3 else 4;
    assert IsChar(s[..k]) && IsOctets(s[k..]);
  }

  lemma LaterOctet(state: nat, s: seq<byte>)
    requires 0 < state < 9
    ensures Awaits(state, s) <==> s != [] && Awaits(StepState(state, s[0]), s[1..])
  {
    if s != [] {
      var t := s[1..];
      assert |s| >= 2 ==> t[0] == s[1] && t[1..] == s[2..];
      assert |s| >= 3 ==> t[1] == s[2] && t[2..] == s[3..];
    }
  }

  lemma {:induction false} RunsToAccept(state: nat, s: seq<byte>)
    requires state < 9
    ensures RunState(state, s) == ACCEPT <==> Awaits(state, s)
    decreases |s|
  {
    if s != [] {
      RunsToAccept(StepState(state, s[0]), s[1..]);
      if state != ACCEPT {
        LaterOctet(state, s);
      } else if IsOctets(s) {
        var k :| 1 <= k <= |s| && IsChar(s[..k]) && IsOctets(s[k..]);
        CharAwaited(s, k);
      } else if Awaits(StepState(ACCEPT, s[0]), s[1..]) {
        AwaitedFirstChar(s);
      }
    }
  }

  /** The automaton accepts exactly the strings of the grammar. */
  lemma AcceptsGrammar(s: seq<byte>)
    ensures RunState(ACCEPT, s) == ACCEPT <==> IsOctets(s)
  {
    RunsToAccept(ACCEPT, s);
  }

  /** Once refused, a string stays refused, however it goes on. */
  lemma {:induction false} RejectIsAbsorbing(s: seq<byte>)
    ensures RunState(REJECT, s) == REJECT
  {
    if s != [] {
      RejectIsAbsorbing(s[1..]);
    }
  }

  lemma {:induction false} RunStateConcat(state: nat, s: seq<byte>, t: seq<byte>)
    requires state < 9
    ensures RunState(state, s + t) == RunState(RunState(state, s), t)
    decreases |s|
  {
    if s == [] {
      assert s + t == t;
    } else {
      assert (s + t)[1..] == s[1..] + t;
      RunStateConcat(StepState(state, s[0]), s[1..], t);
    }
  }

  /** A prefix already refused cannot be completed to a valid string. */
  lemma RefusedPrefix(s: seq<byte>, t: seq<byte>)
    requires RunState(ACCEPT, s) == REJECT
    ensures !IsOctets(s + t)
  {
    RunStateConcat(ACCEPT, s, t);
    RejectIsAbsorbing(t);
    AcceptsGrammar(s + t);
  }

  /** A string that can still become valid. */
  ghost predicate CanBeCompleted(s: seq<byte>) {
    exists t :: IsOctets(s + t)
  }

  /** Octets that lead from a state to ACCEPT. */
  function Completion(state: nat): seq<byte> {
    match state
    case 2 => [0x80]
    case 3 => [0x80, 0x80]
    case 4 => [0xa0, 0x80]
    case 5 => [0x80, 0x80]
    case 6 => [0x90, 0x80, 0x80]
    case 7 => [0x80, 0x80, 0x80]
    case 8 => [0x80, 0x80, 0x80]
    case _ => []
  }

  lemma CompletionIsAwaited(state: nat)
    requires state < 9 && state != REJECT
    ensures RunState(state, Completion(state)) == ACCEPT
  {
    hide RunState;
    RunsToAccept(state, Completion(state));
  }

  /** Exactly the strings that can still become valid are not refused: no error is seen late. */
  lemma RefusedAtOnce(s: seq<byte>)
    ensures CanBeCompleted(s) <==> RunState(ACCEPT, s) != REJECT
  {
    hide RunState, IsOctets;
    if RunState(ACCEPT, s) == REJECT {
      forall t ensures !IsOctets(s + t) {
        RefusedPrefix(s, t);
      }
    } else {
      var q := RunState(ACCEPT, s);
      RunStateConcat(ACCEPT, s, Completion(q));
      CompletionIsAwaited(q);
      AcceptsGrammar(s + Completion(q));
    }
  }

  // ---- The encoding of section 3 of RFC 3629

  predicate IsScalar(v: nat) {
    v <= 0x10ffff && !(0xd800 <= v <= 0xdfff)
  }

  function Encode(v: nat): (r: seq<byte>)
    requires IsScalar(v)
  {
    if v <= 0x7f then [v]
    else if v <= 0x7ff then [0xc0 + v / 64, 0x80 + v % 64]
    else if v <= 0xffff then [0xe0 + v / 4096, 0x80 + v / 64 % 64, 0x80 + v % 64]
    else [0xf0 + v / 262144, 0x80 + v / 4096 % 64, 0x80 + v / 64 % 64, 0x80 + v % 64]
  }

  predicate AllScalars(vs: seq<nat>) {
    forall i :: 0 <= i < |vs| ==> IsScalar(vs[i])
  }

  function EncodeAll(vs: seq<nat>): seq<byte>
    requires AllScalars(vs)
  {
    if vs == [] then [] else Encode(vs[0]) + EncodeAll(vs[1..])
  }

  lemma DecodedCons(state: nat, codep: uint32, b: byte, rest: seq<byte>)
    requires state < 9
    ensures var q, c := StepState(state, b), StepCode(state, codep, b);
            && Decoded(state, codep, [b] + rest) == (if q == ACCEPT then [c] else []) + Decoded(q, c, rest)
            && RunState(state, [b] + rest) == RunState(q, rest)
  {
    assert ([b] + rest)[1..] == rest;
  }

  /** The last tail octet of a character whose other bits are already in codep. */
  lemma LastTail(high: nat, low: nat, rest: seq<byte>)
    requires low < 64 && high * 64 + low <= 0x10ffff
    ensures Decoded(2, high, [0x80 + low] + rest) == [high * 64 + low] + Decoded(ACCEPT, high * 64 + low, rest)
    ensures RunState(2, [0x80 + low] + rest) == RunState(ACCEPT, rest)
  {
    DecodedCons(2, high, 0x80 + low, rest);
  }

  lemma FirstOfTwoTails(high: nat, mid: nat)
    requires mid < 64 && high * 64 + mid < 0x1_0000_0000
    ensures StepState(3, 0x80 + mid) == 2 && StepCode(3, high, 0x80 + mid) == high * 64 + mid
  {
  }

  lemma LastTwoTails(high: nat, mid: nat, low: nat, rest: seq<byte>)
    requires mid < 64 && low < 64
    requires (high * 64 + mid) * 64 + low <= 0x10ffff
    ensures var v := (high * 64 + mid) * 64 + low;
            && Decoded(3, high, [0x80 + mid, 0x80 + low] + rest) == [v] + Decoded(ACCEPT, v, rest)
            && RunState(3, [0x80 + mid, 0x80 + low] + rest) == RunState(ACCEPT, rest)
  {
    hide RunState, Decoded, StepState, StepCode;
    FirstOfTwoTails(high, mid);
    assert [0x80 + mid, 0x80 + low] + rest == [0x80 + mid] + ([0x80 + low] + rest);
    DecodedCons(3, high, 0x80 + mid, [0x80 + low] + rest);
    LastTail(high * 64 + mid, low, rest);
  }

  lemma LeadOfThree(v: nat, codep: uint32)
    requires IsScalar(v) && 0x800 <= v <= 0xffff
    ensures var q := StepState(ACCEPT, 0xe0 + v / 4096);
            q != ACCEPT && StepCode(ACCEPT, codep, 0xe0 + v / 4096) == v / 4096
            && StepState(q, 0x80 + v / 64 % 64) == 2
            && StepCode(q, v / 4096, 0x80 + v / 64 % 64) == v / 4096 * 64 + v / 64 % 64
  {
  }

  lemma LeadOfFour(v: nat, codep: uint32)
    requires 0x10000 <= v <= 0x10ffff
    ensures var q := StepState(ACCEPT, 0xf0 + v / 262144);
            q != ACCEPT && StepCode(ACCEPT, codep, 0xf0 + v / 262144) == v / 262144
            && StepState(q, 0x80 + v / 4096 % 64) == 3
            && StepCode(q, v / 262144, 0x80 + v / 4096 % 64) == v / 262144 * 64 + v / 4096 % 64
  {
  }

  lemma Sextets(v: nat)
    ensures v == ((v / 262144 * 64 + v / 4096 % 64) * 64 + v / 64 % 64) * 64 + v % 64
  {
    assert v / 64 / 64 == v / 4096 && v / 4096 / 64 == v / 262144;
  }

  lemma DecodesThree(v: nat, codep: uint32, rest: seq<byte>)
    requires IsScalar(v) && 0x800 <= v <= 0xffff
    ensures Decoded(ACCEPT, codep, Encode(v) + rest) == [v] + Decoded(ACCEPT, v, rest)
    ensures RunState(ACCEPT, Encode(v) + rest) == RunState(ACCEPT, rest)
  {
    hide RunState, Decoded, StepState, StepCode;
    LeadOfThree(v, codep);
    var e := Encode(v);
    var high, mid, low := v / 4096, v / 64 % 64, v % 64;
    var tail := [0x80 + low] + rest;
    assert e + rest == [e[0]] + ([e[1]] + tail);
    DecodedCons(ACCEPT, codep, e[0], [e[1]] + tail);
    var q := StepState(ACCEPT, e[0]);
    DecodedCons(q, high, e[1], tail);
    LastTail(high * 64 + mid, low, rest);
  }

  lemma DecodesFour(v: nat, codep: uint32, rest: seq<byte>)
    requires 0x10000 <= v <= 0x10ffff
    ensures Decoded(ACCEPT, codep, Encode(v) + rest) == [v] + Decoded(ACCEPT, v, rest)
    ensures RunState(ACCEPT, Encode(v) + rest) == RunState(ACCEPT, rest)
  {
    hide RunState, Decoded, StepState, StepCode;
    LeadOfFour(v, codep);
    Sextets(v);
    var e := Encode(v);
    var top, high, mid, low := v / 262144, v / 4096 % 64, v / 64 % 64, v % 64;
    var tail := [0x80 + mid, 0x80 + low] + rest;
    assert e + rest == [e[0]] + ([e[1]] + tail);
    DecodedCons(ACCEPT, codep, e[0], [e[1]] + tail);
    var q := StepState(ACCEPT, e[0]);
    DecodedCons(q, top, e[1], tail);
    LastTwoTails(top * 64 + high, mid, low, rest);
  }

  /** One character: ACCEPT is reached at its last octet and not before, with its code point. */
  lemma DecodesChar(v: nat, codep: uint32, rest: seq<byte>)
    requires IsScalar(v)
    ensures Decoded(ACCEPT, codep, Encode(v) + rest) == [v] + Decoded(ACCEPT, v, rest)
    ensures RunState(ACCEPT, Encode(v) + rest) == RunState(ACCEPT, rest)
  {
    hide RunState, Decoded;
    var e := Encode(v);
    if v <= 0x7f {
      DecodedCons(ACCEPT, codep, v, rest);
    } else if v <= 0x7ff {
      assert e + rest == [e[0]] + ([e[1]] + rest);
      DecodedCons(ACCEPT, codep, e[0], [e[1]] + rest);
      LastTail(v / 64, v % 64, rest);
    } else if v <= 0xffff {
      DecodesThree(v, codep, rest);
    } else {
      DecodesFour(v, codep, rest);
    }
  }

  /** Decoding undoes encoding: every code point comes out, in order, and nothing else. */
  lemma {:induction false} DecodesEncoding(vs: seq<nat>, codep: uint32)
    requires AllScalars(vs)
    ensures Decoded(ACCEPT, codep, EncodeAll(vs)) == vs
    ensures RunState(ACCEPT, EncodeAll(vs)) == ACCEPT
    decreases |vs|
  {
    if vs != [] {
      DecodesChar(vs[0], codep, EncodeAll(vs[1..]));
      DecodesEncoding(vs[1..], vs[0]);
    }
  }

  /** What decoding has seen after whole characters and a part of the next: it is between ACCEPT and REJECT. */
  lemma BetweenCharacters(vs: seq<nat>, v: nat, k: nat)
    requires AllScalars(vs) && IsScalar(v) && 0 < k < |Encode(v)|
    ensures RunState(ACCEPT, EncodeAll(vs) + Encode(v)[..k]) !in {ACCEPT, REJECT}
  {
    hide Decoded;
    var part := Encode(v)[..k];
    DecodesEncoding(vs, 0);
    RunStateConcat(ACCEPT, EncodeAll(vs), part);
    AcceptsGrammar(part);
    NotWhole(v, k);
    if RunState(ACCEPT, part) == REJECT {
      RefusedPrefix(part, Encode(v)[k..]);
      assert part + Encode(v)[k..] == Encode(v) + [];
      DecodesChar(v, 0, []);
      AcceptsGrammar(Encode(v) + []);
    }
  }

  /** A proper prefix of a character is not a sequence of characters. */
  lemma NotWhole(v: nat, k: nat)
    requires IsScalar(v) && 0 < k < |Encode(v)|
    ensures !IsOctets(Encode(v)[..k])
  {
    var part := Encode(v)[..k];
    forall n | 1 <= n <= |part| ensures !IsChar(part[..n]) {
      assert part[..n][0] == Encode(v)[0];
    }
  }

  lemma FirstChar(s: seq<byte>) returns (k: nat)
    requires IsOctets(s) && s != []
    ensures 1 <= k <= |s| && IsChar(s[..k]) && IsOctets(s[k..])
  {
    k :| 1 <= k <= |s| && IsChar(s[..k]) && IsOctets(s[k..]);
  }

  lemma CharBefore(c: seq<byte>, t: seq<byte>)
    requires IsChar(c) && IsOctets(t)
    ensures IsOctets(c + t)
  {
    hide IsChar;
    var k := |c|;
    CharNotEmpty(c);
    assert (c + t)[..k] == c && (c + t)[k..] == t;
  }

  lemma CharNotEmpty(c: seq<byte>)
    requires IsChar(c)
    ensures |c| >= 1
  {
  }

  /** No character but NUL itself contains a zero octet, so cutting at the first NUL keeps a string valid. */
  lemma {:induction false} UpToNulStaysValid(s: seq<byte>)
    requires IsOctets(s)
    ensures IsOctets(UpToNul(s))
    decreases |s|
  {
    hide IsChar;
    if s != [] && s[0] != 0 {
      var k := FirstChar(s);
      UpToNulStaysValid(s[k..]);
      CharHasNoNul(s[..k]);
      UpToNulAfter(s[..k], s[k..]);
      assert s == s[..k] + s[k..];
      CharBefore(s[..k], UpToNul(s[k..]));
    }
  }

  lemma CharHasNoNul(c: seq<byte>)
    requires IsChar(c) && c[0] != 0
    ensures 0 !in c
  {
    forall i | 0 <= i < |c| ensures c[i] != 0 {
      assert i == 0 || i == 1 || i == 2 || i == 3;
    }
  }

  lemma OneIsEncoding(b: byte)
    requires b <= 0x7f
    ensures Encode(b) == [b]
  {
  }

  lemma TwoIsEncoding(b: int, c: int) returns (v: nat)
    requires 0xc2 <= b <= 0xdf && 0x80 <= c <= 0xbf
    ensures IsScalar(v) && Encode(v) == [b, c]
  {
    v := (b - 0xc0) * 64 + c - 0x80;
  }

  lemma ThreeIsEncoding(b: int, c: int, d: int) returns (v: nat)
    requires 0xe0 <= b <= 0xef && 0x80 <= c <= 0xbf && 0x80 <= d <= 0xbf
    requires (b == 0xe0 ==> c >= 0xa0) && (b == 0xed ==> c <= 0x9f)
    ensures IsScalar(v) && Encode(v) == [b, c, d]
  {
    v := (b - 0xe0) * 4096 + (c - 0x80) * 64 + d - 0x80;
    assert v / 64 == (b - 0xe0) * 64 + c - 0x80;
  }

  lemma FourIsEncoding(b: int, c: int, d: int, e: int) returns (v: nat)
    requires 0xf0 <= b <= 0xf4 && 0x80 <= c <= 0xbf && 0x80 <= d <= 0xbf && 0x80 <= e <= 0xbf
    requires (b == 0xf0 ==> c >= 0x90) && (b == 0xf4 ==> c <= 0x8f)
    ensures IsScalar(v) && Encode(v) == [b, c, d, e]
  {
    v := (b - 0xf0) * 262144 + (c - 0x80) * 4096 + (d - 0x80) * 64 + e - 0x80;
    assert v / 64 == (b - 0xf0) * 4096 + (c - 0x80) * 64 + d - 0x80;
    assert v / 4096 == (b - 0xf0) * 64 + c - 0x80;
  }

  lemma CharIsEncoding(s: seq<byte>) returns (v: nat)
    requires IsChar(s)
    ensures IsScalar(v) && Encode(v) == s
  {
    hide Encode;
    if |s| == 1 {
      v := s[0];
      assert Encode(v) == s by { OneIsEncoding(s[0]); }
    } else if |s| == 2 {
      v := TwoIsEncoding(s[0], s[1]);
    } else if |s| == 3 {
      v := ThreeIsEncoding(s[0], s[1], s[2]);
    } else {
      v := FourIsEncoding(s[0], s[1], s[2], s[3]);
    }
  }

  /** Encoding undoes decoding: the grammar's strings are exactly the encodings of scalar values. */
  lemma {:induction false} EncodesDecoding(s: seq<byte>, codep: uint32)
    requires IsOctets(s)
    ensures var vs := Decoded(ACCEPT, codep, s);
            AllScalars(vs) && EncodeAll(vs) == s
    decreases |s|
  {
    if s != [] {
      hide Decoded, RunState, Encode, IsChar, IsOctets, IsScalar;
      var k := FirstChar(s);
      var v := CharIsEncoding(s[..k]);
      assert s == Encode(v) + s[k..];
      DecodesChar(v, codep, s[k..]);
      EncodesDecoding(s[k..], v);
      var rest := Decoded(ACCEPT, v, s[k..]);
      assert ([v] + rest)[1..] == rest;
    }
  }
}
