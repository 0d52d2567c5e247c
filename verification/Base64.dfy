/** The base64 encoding of section 3 of RFC 3548, and the code that reads and writes it. */
module Base64 {
  import opened Bytes

  const PAD: byte := 0x3d
  const SENTINEL: seq<byte> := [PAD, PAD, PAD, PAD]

  // ---- The encoding

  /** The alphabet: A-Z, a-z, 0-9, + and /. */
  function Char(v: nat): byte
    requires v < 64
  {
    if v < 26 then 0x41 + v else if v < 52 then 0x61 + (v - 26) else if v < 62 then 0x30 + (v - 52)
    else if v == 62 then 0x2b else 0x2f
  }

  /** The value of a character, or -1. */
  function CharValue(c: byte): (v: int)
    ensures -1 <= v < 64
  {
    if 0x41 <= c <= 0x5a then c as int - 0x41
    else if 0x61 <= c <= 0x7a then c as int - 0x61 + 26
    else if 0x30 <= c <= 0x39 then c as int - 0x30 + 52
    else if c == 0x2b then 62
    else if c == 0x2f then 63
    else -1
  }

  lemma ValueOfChar(v: nat)
    requires v < 64
    ensures CharValue(Char(v)) == v && Char(v) != PAD
  {
  }

  /** The 24 bits of three octets. */
  function Bits24(a: byte, b: byte, c: byte): (v: nat)
    ensures v < 0x100_0000
  {
    var x: int, y: int, z: int := a, b, c;
    (x * 256 + y) * 256 + z
  }

  /** Four groups of six bits, as characters. */
  function Quad(v: nat): (r: seq<byte>)
    requires v < 0x100_0000
    ensures |r| == 4
  {
    [Char(v / 262144), Char(v / 4096 % 64), Char(v / 64 % 64), Char(v % 64)]
  }

  function Encoded(s: seq<byte>): (r: seq<byte>)
    ensures |r| == (|s| + 2) / 3 * 4
  {
    if |s| >= 3 then Quad(Bits24(s[0], s[1], s[2])) + Encoded(s[3..])
    else if |s| == 2 then Quad(Bits24(s[0], s[1], 0))[..3] + [PAD]
    else if |s| == 1 then Quad(Bits24(s[0], 0, 0))[..2] + [PAD, PAD]
    else []
  }

  // ---- The decoding, as the code has it

  /** How many characters, from the end, are pads. */
  function Pads(q: seq<byte>): (n: nat)
    ensures n <= |q|
  {
    if q == [] || q[|q| - 1] != PAD then 0 else 1 + Pads(q[..|q| - 1])
  }

  predicate InAlphabet(s: seq<byte>) {
    forall i :: 0 <= i < |s| ==> CharValue(s[i]) >= 0
  }

  function ValueOrZero(c: byte): (v: nat)
    ensures v < 64
  {
    if CharValue(c) < 0 then 0 else CharValue(c)
  }

  function QuadValue(q: seq<byte>): (v: nat)
    requires |q| == 4
    ensures v < 0x100_0000
  {
    ((ValueOrZero(q[0]) * 64 + ValueOrZero(q[1])) * 64 + ValueOrZero(q[2])) * 64 + ValueOrZero(q[3])
  }

  function Octets(v: nat): (r: seq<byte>)
    requires v < 0x100_0000
    ensures |r| == 3
  {
    [v / 65536, v / 256 % 256, v % 256]
  }

  /** A quadruple stands for as many octets as pads leave of three; a bad character in it makes it nothing. */
  function QuadOctets(q: seq<byte>): (r: seq<byte>)
    requires |q| == 4
    ensures |r| <= 3
  {
    var n := Pads(q);
    if n >= 3 || !InAlphabet(q[..4 - n]) then [] else Octets(QuadValue(q))[..3 - n]
  }

  predicate IsSignificant(c: byte) {
    c == PAD || CharValue(c) >= 0
  }

  /** What remains when all other characters are skipped. */
  function Significant(s: seq<byte>): seq<byte> {
    if s == [] then []
    else if IsSignificant(s[0]) then [s[0]] + Significant(s[1..])
    else Significant(s[1..])
  }

  /** Quadruple after quadruple, up to the first that is not a full triple. */
  function Quads(f: seq<byte>): seq<byte> {
    if |f| < 4 then []
    else
      var r := QuadOctets(f[..4]);
      if |r| == 3 then r + Quads(f[4..]) else r
  }

  /** Unpadded text is made up for with pads. */
  function Decoded(text: seq<byte>): seq<byte> {
    Quads(Significant(text) + SENTINEL)
  }

  // ---- Table 1 of RFC 3548

  const ROWS: seq<string> :=
    ["ABCDEFGH", "IJKLMNOP", "QRSTUVWX", "YZabcdef", "ghijklmn", "opqrstuv", "wxyz0123", "456789+/"]

  /** The eight rows of eight characters. */
  function Table(v: nat): char
    requires v < 64
  {
    ROWS[v / 8][v % 8]
  }

  lemma CharsAreTheTable(v: nat)
    requires v < 64
    ensures Char(v) as char == Table(v)
  {
  }

  /** The value of a character is its place in the table. */
  lemma ValuesAreTheTable(c: byte)
    ensures forall v :: 0 <= v < 64 ==> (Table(v) == c as char <==> CharValue(c) == v)
  {
    hide Table;
    forall v | 0 <= v < 64 ensures Table(v) == c as char <==> CharValue(c) == v {
      CharsAreTheTable(v);
      ValueOfChar(v);
      CharOfValue(c);
    }
  }

  lemma CharOfValue(c: byte)
    ensures CharValue(c) >= 0 ==> Char(CharValue(c)) == c
  {
  }

  /** The 24 bits that the octets from i on begin with; what is missing is 0. */
  function Group(s: seq<byte>, i: nat): nat
    requires i < |s|
  {
    s[i] as int * 65536 + (if i + 1 < |s| then s[i + 1] as int else 0) * 256
    + if i + 2 < |s| then s[i + 2] as int else 0
  }

  /** Character k of the encoding: the table at six of the bits, or a pad. */
  function CharacterAt(s: seq<byte>, k: nat): char
    requires k / 4 * 3 < |s|
  {
    var i, n := k / 4 * 3, Group(s, k / 4 * 3);
    if k % 4 == 0 then Table(n / 262144 % 64)
    else if k % 4 == 1 then Table(n / 4096 % 64)
    else if k % 4 == 2 then if i + 1 < |s| then Table(n / 64 % 64) else '='
    else if i + 2 < |s| then Table(n % 64) else '='
  }

  /** The encoding, character by character. */
  lemma {:induction false} EncodedIs(s: seq<byte>, k: nat)
    requires k < |Encoded(s)|
    ensures k / 4 * 3 < |s| && Encoded(s)[k] as char == CharacterAt(s, k)
    decreases |s|
  {
    hide Encoded, CharacterAt, Quad, Bits24;
    if k >= 4 {
      LongerThanThree(s);
      EncodedMore(s);
      EncodedIs(s[3..], k - 4);
      NextQuadOf(s, k);
    } else {
      FirstQuad(s, k);
    }
  }

  lemma LongerThanThree(s: seq<byte>)
    requires |Encoded(s)| > 4
    ensures |s| > 3
  {
  }

  lemma NextQuadOf(s: seq<byte>, k: nat)
    requires |s| > 3 && k >= 4 && (k - 4) / 4 * 3 < |s| - 3
    ensures k / 4 * 3 < |s| && CharacterAt(s, k) == CharacterAt(s[3..], k - 4)
  {
    hide Table;
    var i := (k - 4) / 4 * 3;
    assert k / 4 * 3 == i + 3 && (k - 4) % 4 == k % 4;
    assert Group(s, i + 3) == Group(s[3..], i);
  }

  lemma FirstQuad(s: seq<byte>, k: nat)
    requires k < 4 && k < |Encoded(s)|
    ensures s != [] && Encoded(s)[k] as char == CharacterAt(s, k)
  {
    hide Char, Table, Bits24;
    var n := Group(s, 0);
    FirstOctets(s);
    SixBitsOf(n, k);
  }

  lemma FirstOctets(s: seq<byte>)
    requires Encoded(s) != []
    ensures s != [] && Group(s, 0) < 0x100_0000
    ensures Group(s, 0) == Bits24(s[0], if |s| > 1 then s[1] else 0, if |s| > 2 then s[2] else 0)
  {
  }

  lemma SixBitsOf(n: nat, k: nat)
    requires n < 0x100_0000 && k < 4
    ensures k / 4 == 0 && k % 4 == k && n / 262144 % 64 == n / 262144
    ensures Char(n / 262144) as char == Table(n / 262144) && Char(n / 4096 % 64) as char == Table(n / 4096 % 64)
    ensures Char(n / 64 % 64) as char == Table(n / 64 % 64) && Char(n % 64) as char == Table(n % 64)
  {
    hide Char, Table;
    CharsAreTheTable(n / 262144);
    CharsAreTheTable(n / 4096 % 64);
    CharsAreTheTable(n / 64 % 64);
    CharsAreTheTable(n % 64);
  }

  // ---- They undo each other

  lemma SixBits(v: nat)
    requires v < 0x100_0000
    ensures ((v / 262144 * 64 + v / 4096 % 64) * 64 + v / 64 % 64) * 64 + v % 64 == v
  {
    assert v / 64 / 64 == v / 4096 && v / 4096 / 64 == v / 262144;
  }

  lemma OctetsOfBits(a: byte, b: byte, c: byte)
    ensures Octets(Bits24(a, b, c)) == [a, b, c]
  {
  }

  lemma QuadReads(v: nat)
    requires v < 0x100_0000
    ensures QuadValue(Quad(v)) == v && InAlphabet(Quad(v)) && Pads(Quad(v)) == 0
  {
    hide Char, CharValue;
    ValueOfChar(v / 262144);
    ValueOfChar(v / 4096 % 64);
    ValueOfChar(v / 64 % 64);
    ValueOfChar(v % 64);
    SixBits(v);
  }

  lemma TripleBack(a: byte, b: byte, c: byte)
    ensures QuadOctets(Quad(Bits24(a, b, c))) == [a, b, c]
  {
    hide Char, CharValue, Quad, QuadValue, Octets, InAlphabet;
    var q := Quad(Bits24(a, b, c));
    QuadReads(Bits24(a, b, c));
    OctetsOfBits(a, b, c);
    assert q[..4] == q;
  }

  lemma PairBack(a: byte, b: byte)
    ensures QuadOctets(Quad(Bits24(a, b, 0))[..3] + [PAD]) == [a, b]
  {
    var v := Bits24(a, b, 0);
    PairValue(a, b);
    hide Char, CharValue, Quad, Octets, Bits24;
    QuadReads(v);
    OctetsOfBits(a, b, 0);
    var q := Quad(v)[..3] + [PAD];
    assert q[..3] == Quad(v)[..3];
    assert CharValue(PAD) == -1 by { PadHasNoValue(); }
    ValueOfChar(v / 262144);
    NotPads(v);
    assert Pads(q) == 1 by { assert q[..3][2] != PAD; }
  }

  lemma PairValue(a: byte, b: byte)
    ensures Bits24(a, b, 0) % 64 == 0
  {
    var x: int, y: int := a, b;
    assert Bits24(a, b, 0) == 64 * (x * 1024 + y * 4);
  }

  lemma PadHasNoValue()
    ensures CharValue(PAD) == -1
  {
  }

  lemma NotPads(v: nat)
    requires v < 0x100_0000
    ensures forall i :: 0 <= i < 4 ==> Quad(v)[i] != PAD && CharValue(Quad(v)[i]) >= 0
    ensures CharValue(Quad(v)[0]) == v / 262144 && CharValue(Quad(v)[1]) == v / 4096 % 64
    ensures CharValue(Quad(v)[2]) == v / 64 % 64 && CharValue(Quad(v)[3]) == v % 64
  {
    hide Char, CharValue;
    ValueOfChar(v / 262144);
    ValueOfChar(v / 4096 % 64);
    ValueOfChar(v / 64 % 64);
    ValueOfChar(v % 64);
  }

  lemma SingleBack(a: byte)
    ensures QuadOctets(Quad(Bits24(a, 0, 0))[..2] + [PAD, PAD]) == [a]
  {
    var v := Bits24(a, 0, 0);
    SingleValue(a);
    hide Char, CharValue, Quad, Octets, Bits24;
    QuadReads(v);
    OctetsOfBits(a, 0, 0);
    var q := Quad(v)[..2] + [PAD, PAD];
    assert q[..2] == Quad(v)[..2];
    PadHasNoValue();
    NotPads(v);
    assert q[..3][..2] == q[..2];
    assert Pads(q) == 2 by { assert Pads(q[..3]) == 1 by { assert q[..2][1] != PAD; } }
  }

  lemma SingleValue(a: byte)
    ensures Bits24(a, 0, 0) % 64 == 0 && Bits24(a, 0, 0) / 64 % 64 == 0
  {
    var x: int := a;
    assert Bits24(a, 0, 0) == 64 * (x * 1024) && Bits24(a, 0, 0) / 64 == x * 1024;
  }

  function Stripped(s: seq<byte>): seq<byte> {
    if s == [] then [] else if s[0] == PAD then Stripped(s[1..]) else [s[0]] + Stripped(s[1..])
  }

  lemma {:induction false} StrippedConcat(s: seq<byte>, t: seq<byte>)
    ensures Stripped(s + t) == Stripped(s) + Stripped(t)
  {
    if s == [] {
      assert s + t == t;
    } else {
      assert (s + t)[1..] == s[1..] + t;
      StrippedConcat(s[1..], t);
    }
  }

  lemma {:induction false} StrippedSame(s: seq<byte>)
    requires PAD !in s
    ensures Stripped(s) == s
  {
    if s != [] {
      StrippedSame(s[1..]);
    }
  }

  lemma {:induction false} SignificantSame(s: seq<byte>)
    requires forall i :: 0 <= i < |s| ==> IsSignificant(s[i])
    ensures Significant(s) == s
  {
    if s != [] {
      SignificantSame(s[1..]);
    }
  }

  lemma QuadsMore(q: seq<byte>, f: seq<byte>)
    requires |q| == 4
    ensures Quads(q + f) == if |QuadOctets(q)| == 3 then QuadOctets(q) + Quads(f) else QuadOctets(q)
  {
    assert (q + f)[..4] == q && (q + f)[4..] == f;
  }

  /** The end of an encoding, with its pads or with pads added by the decoder. */
  lemma TailDecodes(s: seq<byte>)
    requires |s| < 3
    ensures Quads(Encoded(s) + SENTINEL) == s && Quads(Stripped(Encoded(s)) + SENTINEL) == s
    ensures forall i :: 0 <= i < |Encoded(s)| ==> IsSignificant(Encoded(s)[i])
  {
    hide Char, CharValue, Quad, Bits24, QuadOctets;
    if |s| == 0 {
      assert QuadOctets(SENTINEL) == [] by { SentinelIsNothing(); }
      QuadsMore(SENTINEL, []);
      assert [] + SENTINEL == SENTINEL + [] == SENTINEL;
    } else {
      var v := if |s| == 2 then Bits24(s[0], s[1], 0) else Bits24(s[0], 0, 0);
      var chars, pads := Quad(v)[..|s| + 1], SENTINEL[..3 - |s|];
      NotPads(v);
      assert Encoded(s) == chars + pads;
      StrippedConcat(chars, pads);
      StrippedSame(chars);
      assert Stripped(pads) == [] by { assert Stripped(pads[1..]) == []; }
      assert Stripped(Encoded(s)) == chars by { assert chars + [] == chars; }
      if |s| == 2 {
        PairBack(s[0], s[1]);
      } else {
        SingleBack(s[0]);
      }
      QuadsMore(chars + pads, SENTINEL);
      QuadsMore(chars + pads, SENTINEL[3 - |s|..]);
      assert chars + SENTINEL == chars + pads + SENTINEL[3 - |s|..];
    }
  }

  lemma SentinelIsNothing()
    ensures QuadOctets(SENTINEL) == []
  {
    PadHasNoValue();
    assert Pads(SENTINEL[..3]) >= 2;
  }

  lemma {:induction false} EncodingDecodes(s: seq<byte>)
    ensures Quads(Encoded(s) + SENTINEL) == s && Quads(Stripped(Encoded(s)) + SENTINEL) == s
    ensures forall i :: 0 <= i < |Encoded(s)| ==> IsSignificant(Encoded(s)[i])
    decreases |s|
  {
    hide Char, CharValue, Quad, Bits24, QuadOctets, Quads, Stripped, Encoded;
    if |s| < 3 {
      TailDecodes(s);
    } else {
      var q, rest := Quad(Bits24(s[0], s[1], s[2])), s[3..];
      EncodingDecodes(rest);
      EncodedMore(s);
      TripleBack(s[0], s[1], s[2]);
      NotPads(Bits24(s[0], s[1], s[2]));
      StrippedConcat(q, Encoded(rest));
      StrippedSame(q);
      QuadsMore(q, Encoded(rest) + SENTINEL);
      QuadsMore(q, Stripped(Encoded(rest)) + SENTINEL);
      assert q + Encoded(rest) + SENTINEL == q + (Encoded(rest) + SENTINEL);
      assert q + Stripped(Encoded(rest)) + SENTINEL == q + (Stripped(Encoded(rest)) + SENTINEL);
      assert [s[0], s[1], s[2]] + rest == s;
    }
  }

  lemma {:induction false} StrippedSignificant(s: seq<byte>)
    requires forall i :: 0 <= i < |s| ==> IsSignificant(s[i])
    ensures forall i :: 0 <= i < |Stripped(s)| ==> IsSignificant(Stripped(s)[i])
  {
    if s != [] {
      StrippedSignificant(s[1..]);
    }
  }

  /** Decoding undoes encoding, with the pads and without them. */
  lemma RoundTrip(s: seq<byte>)
    ensures Decoded(Encoded(s)) == s && Decoded(Stripped(Encoded(s))) == s
  {
    EncodingDecodes(s);
    SignificantSame(Encoded(s));
    StrippedSignificant(Encoded(s));
    SignificantSame(Stripped(Encoded(s)));
  }

  lemma {:induction false} EncodingHasNoNul(s: seq<byte>)
    ensures 0 !in Encoded(s)
    decreases |s|
  {
    hide Encoded, IsSignificant, Quads, Stripped;
    EncodingDecodes(s);
    forall i | 0 <= i < |Encoded(s)| ensures Encoded(s)[i] != 0 {
      NulIsNotSignificant(Encoded(s)[i]);
    }
  }

  lemma NulIsNotSignificant(c: byte)
    requires IsSignificant(c)
    ensures c != 0
  {
  }

  /** What Encode writes, read as a C string, decodes to what was encoded. */
  lemma WrittenRoundTrip(s: seq<byte>)
    ensures Decoded(UpToNul(Encoded(s) + [0])) == s
  {
    hide Encoded, Decoded;
    RoundTrip(s);
    EncodingHasNoNul(s);
    UpToNulWhole(Encoded(s));
  }

  /** Unsigned 64-bit arithmetic. */
  function Wrap64(n: int): uint64 {
    n % 0x1_0000_0000_0000_0000
  }

  /** The length that the code computes for the encoding; it wraps for sources of three quarters of 2^64. */
  function ComputedLength(sourceLen: nat): uint64 {
    Wrap64(Wrap64(sourceLen + 2) / 3 * 4)
  }

  predicate RoomCheck(sourceLen: nat, targetLen: nat) {
    !(ComputedLength(sourceLen) > Wrap64(targetLen - 1))
  }

  /** The largest source whose encoded length is a size. */
  const LAST_LENGTH := 0xBFFF_FFFF_FFFF_FFFD

  /**
   The target has any room, and either the encoded length is a size or the target has no room for what the code
   computes instead.
   */
  predicate RoomCheckApplies(sourceLen: nat, targetLen: nat) {
    targetLen > 0 && (sourceLen <= LAST_LENGTH || targetLen <= ComputedLength(sourceLen))
  }

  /** The check tells whether encoding and NUL fit, exactly for these. */
  lemma RoomCheckIsExact(source: seq<byte>, targetLen: nat)
    requires |source| < 0x1_0000_0000_0000_0000 && targetLen < 0x1_0000_0000_0000_0000
    ensures (RoomCheck(|source|, targetLen) <==> |Encoded(source)| + 1 <= targetLen)
       <==> RoomCheckApplies(|source|, targetLen)
  {
    hide Encoded, Wrap64, ComputedLength;
    LengthComputed(|source|);
    BelowModulus(targetLen);
  }

  /** For a target without any room the check passes, though a single octet needs five. */
  lemma NoRoomIsOverlooked(a: byte)
    ensures RoomCheck(1, 0) && |Encoded([a])| + 1 == 5 && !RoomCheckApplies(1, 0)
  {
    LengthComputed(1);
    BelowModulus(0);
  }

  lemma LengthComputed(n: nat)
    requires n < 0x1_0000_0000_0000_0000
    ensures n <= LAST_LENGTH ==> ComputedLength(n) == (n + 2) / 3 * 4
    ensures n > LAST_LENGTH ==> (n + 2) / 3 * 4 >= 0x1_0000_0000_0000_0000
  {
  }

  lemma BelowModulus(n: nat)
    requires n < 0x1_0000_0000_0000_0000
    ensures Wrap64(n - 1) == if n == 0 then 0xffff_ffff_ffff_ffff else n - 1
  {
  }

  // ---- The code

  /** Characters of one triple, from the last to the first. */
  method EncodeTriple(a: byte, b: byte, c: byte, target: array<byte>, off: nat)
    requires off + 4 <= target.Length
    modifies target
    ensures target[off..off + 4] == Quad(Bits24(a, b, c))
    ensures target[..off] == old(target[..off])
  {
    hide Char, Quad;
    ghost var v := Bits24(a, b, c);
    QuadDigits(v);
    var tripleValue: nat := a;
    tripleValue := tripleValue * 256 + b;
    tripleValue := tripleValue * 256 + c;
    for i := 0 to 4
      invariant target[..off] == old(target[..off])
      invariant tripleValue == Shifted(v, i)
      invariant forall j :: 4 - i <= j < 4 ==> target[off + j] == Quad(v)[j]
    {
      target[off + 3 - i] := Char(tripleValue % 64);
      tripleValue := tripleValue / 64;
    }
  }

  function Shifted(v: nat, i: nat): nat {
    if i == 0 then v else if i == 1 then v / 64 else if i == 2 then v / 64 / 64 else if i == 3 then v / 64 / 64 / 64
    else v / 64 / 64 / 64 / 64
  }

  lemma QuadDigits(v: nat)
    requires v < 0x100_0000
    ensures forall i :: 0 <= i < 4 ==> Quad(v)[3 - i] == Char(Shifted(v, i) % 64)
  {
    hide Char;
    assert v / 64 / 64 == v / 4096 && v / 64 / 64 / 64 == v / 262144;
  }

  lemma EncodedMore(s: seq<byte>)
    requires |s| >= 3
    ensures Encoded(s) == Quad(Bits24(s[0], s[1], s[2])) + Encoded(s[3..])
  {
  }

  lemma EncodedTail(s: seq<byte>)
    requires 0 < |s| < 3
    ensures Encoded(s) == Quad(Bits24(s[0], if |s| == 2 then s[1] else 0, 0))[..|s| + 1] + SENTINEL[..3 - |s|]
  {
    hide Quad, Bits24, Char;
    assert SENTINEL[..1] == [PAD] && SENTINEL[..2] == [PAD, PAD];
  }

  /** Writes the encoding and a NUL, if there is room for both. */
  method Encode(source: seq<byte>, target: array<byte>) returns (ok: int)
    requires |source| < 0x1_0000_0000_0000_0000 && target.Length < 0x1_0000_0000_0000_0000
    requires RoomCheckApplies(|source|, target.Length)
    modifies target
    ensures ok == if |Encoded(source)| + 1 <= target.Length then 1 else 0
    ensures ok == 1 ==> target[..|Encoded(source)| + 1] == Encoded(source) + [0]
    ensures ok == 0 ==> target[..] == old(target[..])
  {
    hide Encoded, Quad, Bits24, Wrap64, ComputedLength;
    RoomCheckIsExact(source, target.Length);
    if ComputedLength(|source|) > Wrap64(target.Length - 1) {
      return 0;
    }
    var i, t := 0, 0;
    while |source| - i >= 3
      invariant i <= |source| && t + |Encoded(source[i..])| == |Encoded(source)|
      invariant target[..t] + Encoded(source[i..]) == Encoded(source)
    {
      ghost var done, rest := target[..t], source[i..];
      EncodedMore(rest);
      EncodeTriple(source[i], source[i + 1], source[i + 2], target, t);
      assert rest[3..] == source[i + 3..];
      i := i + 3;
      t := t + 4;
      assert target[..t] == done + target[t - 4..t];
    }
    t := EncodeTail(source, i, target, t);
    target[t] := 0;
    return 1;
  }

  /** The last one or two octets. */
  method EncodeTail(source: seq<byte>, i: nat, target: array<byte>, t: nat) returns (end: nat)
    requires i <= |source| < i + 3 && t + |Encoded(source[i..])| + 1 <= target.Length
    modifies target
    ensures end == t + |Encoded(source[i..])|
    ensures target[..end] == old(target[..t]) + Encoded(source[i..])
  {
    hide Quad, Bits24;
    end := t;
    if |source| - i > 0 {
      EncodedTail(source[i..]);
      EncodeTriple(source[i], if |source| - i == 2 then source[i + 1] else 0, 0, target, t);
      ghost var q := target[t..t + 4];
      target[t + 3] := PAD;
      if |source| - i == 1 {
        target[t + 2] := PAD;
      }
      end := t + 4;
      assert target[t..end] == q[..|source| - i + 1] + SENTINEL[..3 - (|source| - i)];
      assert target[..end] == target[..t] + target[t..end];
    }
  }

  lemma {:induction false} PadsMeaning(q: seq<byte>)
    ensures forall j :: |q| - Pads(q) <= j < |q| ==> q[j] == PAD
    ensures Pads(q) < |q| ==> q[|q| - 1 - Pads(q)] != PAD
  {
    if q != [] && q[|q| - 1] == PAD {
      PadsMeaning(q[..|q| - 1]);
    }
  }

  /** Looks at the four values from the last to the first: how many octets they stand for, or -1 when one is bad. */
  method CheckQuad(quadruple: seq<byte>) returns (bytesToDecode: int, charValue: seq<int>)
    requires |quadruple| == 4
    ensures |charValue| == 4
    ensures var n := Pads(quadruple);
            if InAlphabet(quadruple[..4 - n])
            then bytesToDecode == (if n == 4 then 0 else 3 - n)
                 && forall j :: 0 <= j < 4 ==> charValue[j] == ValueOrZero(quadruple[j])
            else bytesToDecode == -1
  {
    hide CharValue;
    PadHasNoValue();
    PadsMeaning(quadruple);
    ghost var n := Pads(quadruple);
    charValue := [CharValue(quadruple[0]), CharValue(quadruple[1]), CharValue(quadruple[2]), CharValue(quadruple[3])];
    var onlyEqualsYet := true;
    bytesToDecode := 3;
    var i := 3;
    while i >= 0
      invariant -1 <= i <= 3 && |charValue| == 4
      invariant forall j :: 0 <= j <= i ==> charValue[j] == CharValue(quadruple[j])
      invariant forall j :: i < j < 4 ==> charValue[j] == ValueOrZero(quadruple[j])
      invariant onlyEqualsYet ==> n >= 3 - i && bytesToDecode == i
      invariant !onlyEqualsYet ==> n < 3 - i && bytesToDecode == 3 - n
      invariant forall j :: i < j < 4 - n ==> CharValue(quadruple[j]) >= 0
    {
      if charValue[i] < 0 {
        if onlyEqualsYet && quadruple[i] == PAD {
          charValue := charValue[i := 0];
          bytesToDecode := bytesToDecode - 1;
          i := i - 1;
          continue;
        }
        assert i < 4 - n && quadruple[..4 - n][i] == quadruple[i];
        return -1, charValue;
      }
      onlyEqualsYet := false;
      i := i - 1;
    }
    if bytesToDecode < 0 {
      bytesToDecode := 0;
    }
  }

  function DropOctets(v: nat, n: nat): nat {
    if n == 0 then v else DropOctets(v, n - 1) / 256
  }

  lemma OctetsDropped(v: nat)
    requires v < 0x100_0000
    ensures forall i :: 0 <= i < 3 ==> Octets(v)[2 - i] == DropOctets(v, i) % 256
  {
    assert DropOctets(v, 1) == v / 256;
    assert DropOctets(v, 2) == v / 256 / 256 == v / 65536;
  }

  /** The octets a quadruple stands for, and how many they are. */
  method DecodeTriple(quadruple: seq<byte>, result: array<byte>) returns (len: nat)
    requires |quadruple| == 4 && result.Length == 3
    modifies result
    ensures len == |QuadOctets(quadruple)| && result[..len] == QuadOctets(quadruple)
  {
    hide Octets, InAlphabet, Pads, DropOctets;
    var bytesToDecode, charValue := CheckQuad(quadruple);
    if bytesToDecode < 0 {
      return 0;
    }
    var tripleValue := charValue[0];
    tripleValue := tripleValue * 64 + charValue[1];
    tripleValue := tripleValue * 64 + charValue[2];
    tripleValue := tripleValue * 64 + charValue[3];
    ghost var v := QuadValue(quadruple);
    OctetsDropped(v);
    NoneDropped(v, 0);
    for i := bytesToDecode to 3
      invariant tripleValue == DropOctets(v, i - bytesToDecode)
    {
      NoneDropped(v, i - bytesToDecode);
      tripleValue := tripleValue / 256;
    }
    for i := bytesToDecode downto 0
      invariant tripleValue == DropOctets(v, 3 - i)
      invariant forall j :: i <= j < bytesToDecode ==> result[j] == Octets(v)[j]
    {
      NoneDropped(v, 3 - i - 1);
      result[i] := tripleValue % 256;
      NoneDropped(v, 3 - i - 1);
      tripleValue := tripleValue / 256;
    }
    len := bytesToDecode;
  }

  lemma NoneDropped(v: nat, n: nat)
    ensures DropOctets(v, 0) == v && DropOctets(v, n + 1) == DropOctets(v, n) / 256
  {
  }

  lemma {:induction false} SignificantConcat(s: seq<byte>, t: seq<byte>)
    ensures Significant(s + t) == Significant(s) + Significant(t)
  {
    if s == [] {
      assert s + t == t;
    } else {
      assert (s + t)[1..] == s[1..] + t;
      SignificantConcat(s[1..], t);
    }
  }

  lemma SignificantAt(s: seq<byte>, p: nat)
    requires p < |s|
    ensures Significant(s[p..]) == (if IsSignificant(s[p]) then [s[p]] else []) + Significant(s[p + 1..])
  {
    assert s[p..][1..] == s[p + 1..];
  }

  lemma AlphabetMore(q: seq<byte>, c: byte)
    ensures InAlphabet(q + [c]) <==> InAlphabet(q) && CharValue(c) >= 0
  {
    var r := q + [c];
    assert r[|q|] == c && forall i :: 0 <= i < |q| ==> r[i] == q[i];
  }

  /** Skips characters that do not matter; there is a pad at limit, at the latest. */
  method SkipOthers(src: seq<byte>, start: nat, ghost limit: nat) returns (p: nat)
    requires start <= limit < |src| && src[limit] == PAD
    ensures start <= p <= limit && IsSignificant(src[p])
    ensures Significant(src[p..]) == Significant(src[start..])
  {
    hide Significant, CharValue;
    p := start;
    while src[p] != PAD && CharValue(src[p]) < 0
      invariant start <= p <= limit && Significant(src[p..]) == Significant(src[start..])
      decreases limit - p
    {
      SignificantAt(src, p);
      p := p + 1;
    }
  }

  /**
   Reads four characters, skipping all that do not matter. The scan never passes the four sentinels: each of the four
   reads takes at most one of them, and when it takes none all are still ahead.
   */
  method NextQuad(src: seq<byte>, start: nat, ghost text: seq<byte>) returns (quadruple: seq<byte>, p: nat)
    requires src == text + SENTINEL && start <= |text|
    ensures |quadruple| == 4 && start < p <= |src|
    ensures Significant(src[start..]) == quadruple + Significant(src[p..])
    ensures InAlphabet(quadruple) ==> p <= |text|
  {
    hide Significant, CharValue, InAlphabet, IsSignificant;
    PadHasNoValue();
    NothingInAlphabet();
    quadruple, p := [], start;
    for i := 0 to 4
      invariant start + i <= p <= |text| + i && |quadruple| == i
      invariant quadruple + Significant(src[p..]) == Significant(src[start..])
      invariant InAlphabet(quadruple) ==> p <= |text|
    {
      var limit := if p <= |text| then |text| else |text| + i;
      assert src[limit] == PAD;
      p := SkipOthers(src, p, limit);
      SignificantAt(src, p);
      AlphabetMore(quadruple, src[p]);
      quadruple := quadruple + [src[p]];
      p := p + 1;
    }
  }

  lemma NothingInAlphabet()
    ensures InAlphabet([])
  {
  }

  lemma FullQuad(q: seq<byte>)
    requires |q| == 4 && |QuadOctets(q)| == 3
    ensures InAlphabet(q)
  {
    assert q[..4] == q;
  }

  /** Decodes a C string; -1 when the octets do not fit. */
  method Decode(source: seq<byte>, target: array<byte>) returns (converted: int)
    requires 0 in source
    modifies target
    ensures var d := Decoded(UpToNul(source));
            if |d| <= target.Length
            then converted == |d| && target[..|d|] == d && target[|d|..] == old(target[|d|..])
            else converted == -1
  {
    hide Quads, Significant, QuadOctets, InAlphabet, UpToNul;
    var text := UpToNul(source);
    ghost var d := Decoded(text);
    var src := text + SENTINEL;
    AllSignificant(text);
    var tmpresult := new byte[3];
    var p, tmplen := 0, 3;
    converted := 0;
    while tmplen == 3
      invariant 0 <= converted <= target.Length && 0 <= p <= |src|
      invariant tmplen == 3 ==> p <= |text|
      invariant target[..converted] + (if tmplen == 3 then Quads(Significant(src[p..])) else []) == d
      invariant forall j :: converted <= j < target.Length ==> target[j] == old(target[j])
      decreases tmplen == 3, |src| - p
    {
      var quadruple, next := NextQuad(src, p, text);
      QuadsMore(quadruple, Significant(src[next..]));
      tmplen := DecodeTriple(quadruple, tmpresult);
      if tmplen == 3 {
        FullQuad(quadruple);
      }
      p := next;
      if target.Length - converted < tmplen {
        return -1;
      }
      ghost var done := target[..converted];
      Memcpy(target, converted, tmpresult[..tmplen]);
      assert target[..converted + tmplen] == done + tmpresult[..tmplen];
      converted := converted + tmplen;
    }
  }

  /** A character that is no pad and not in the table makes no difference, wherever it stands: a line break, say. */
  lemma OthersDoNotMatter(a: seq<byte>, c: byte, b: seq<byte>)
    requires c as char != '=' && forall v :: 0 <= v < 64 ==> Table(v) != c as char
    ensures Decoded(a + [c] + b) == Decoded(a + b)
  {
    hide Quads, Table;
    NotInTable(c);
    SignificantConcat(a, b);
    SignificantConcat(a + [c], b);
    SignificantConcat(a, [c]);
    assert Significant([c]) == Significant([]) == [];
    assert Significant(a) + [] == Significant(a);
  }

  lemma NotInTable(c: byte)
    requires c as char != '=' && forall v :: 0 <= v < 64 ==> Table(v) != c as char
    ensures !IsSignificant(c)
  {
    hide Table;
    ValuesAreTheTable(c);
    var v := ValueOrZero(c);
    assert Table(v) != c as char;
  }

  lemma AllSignificant(text: seq<byte>)
    ensures Significant((text + SENTINEL)[0..]) == Significant(text) + SENTINEL
  {
    assert (text + SENTINEL)[0..] == text + SENTINEL;
    SignificantConcat(text, SENTINEL);
    SignificantSame(SENTINEL);
  }
}
