/** The secure hash of FIPS PUB 180-1, and the streaming implementation of it. */
module Sha1 {
  import opened Bytes

  type word = uint32

  // ---- Operations on words (section 3 of FIPS PUB 180-1)

  lemma WordSize()
    ensures Pow2(32) == 0x1_0000_0000
  {
    assert Pow2(8) == 256;
    assert Pow2(16) == 65536;
    assert Pow2(24) == 16777216;
  }

  function Bitwise(op: BitOp, x: word, y: word): word {
    WordSize();
    Bits(op, x, y, 32)
  }

  function And(x: word, y: word): word { Bitwise(AndOp, x, y) }

  function Or(x: word, y: word): word { Bitwise(OrOp, x, y) }

  function Xor3(x: word, y: word, z: word): word { Bitwise(XorOp, Bitwise(XorOp, x, y), z) }

  function Not(x: word): word { 0xFFFF_FFFF - x }

  function Plus(x: word, y: word): word { (x + y) % 0x1_0000_0000 }

  function Shl(x: word, n: nat): word { (x * Pow2(n)) % 0x1_0000_0000 }

  function Shr(x: word, n: nat): (r: word)
  {
    Quotient(x, Pow2(n));
    x / Pow2(n)
  }

  lemma Quotient(x: nat, y: nat)
    requires y > 0
    ensures 0 <= x / y <= x
  {
    var q := x / y;
    AtLeast(q, y);
  }

  lemma AtLeast(q: nat, y: nat)
    requires y > 0
    ensures q <= q * y
  {
  }

  /** The circular left shift. */
  function Rotl(n: nat, x: word): word
    requires 0 < n < 32
  {
    Or(Shl(x, n), Shr(x, 32 - n))
  }

  // ---- The rest of FIPS PUB 180-1

  /** The five words A to E, or H0 to H4. */
  datatype Five = Five(a: word, b: word, c: word, d: word, e: word)

  const H0 := Five(0x67452301, 0xEFCDAB89, 0x98BADCFE, 0x10325476, 0xC3D2E1F0)

  /** Section 5: the functions used. */
  function F(t: nat, b: word, c: word, d: word): word {
    if t < 20 then Or(And(b, c), And(Not(b), d))
    else if t < 40 then Xor3(b, c, d)
    else if t < 60 then Or(Or(And(b, c), And(b, d)), And(c, d))
    else Xor3(b, c, d)
  }

  /** Section 6: the constants used. */
  function K(t: nat): word {
    if t < 20 then 0x5A827999 else if t < 40 then 0x6ED9EBA1 else if t < 60 then 0x8F1BBCDC else 0xCA62C1D6
  }

  /** Four octets put at their places in a word, and or-ed together. */
  function Assembled(s: seq<byte>): word
    requires |s| == 4
  {
    Or(Or(Or(Shl(s[0], 24), Shl(s[1], 16)), Shl(s[2], 8)), s[3])
  }

  lemma Powers()
    ensures Pow2(8) == 0x100 && Pow2(16) == 0x1_0000 && Pow2(24) == 0x100_0000
  {
  }

  /** One more octet or-ed in below those already there. */
  lemma SecondOctet(v: nat, b: nat)
    requires v < 0x100 && b < 0x100
    ensures Bits(OrOp, v * 0x100_0000, b * 0x1_0000, 32) == (0x100 * v + b) * 0x1_0000
  {
    hide Bits;
    Powers();
    WordSize();
    OrIsSum(v, b * 0x1_0000, 24, 32);
  }

  lemma ThirdOctet(v: nat, b: nat)
    requires v < 0x1_0000 && b < 0x100
    ensures Bits(OrOp, v * 0x1_0000, b * 0x100, 32) == (0x100 * v + b) * 0x100
  {
    hide Bits;
    Powers();
    WordSize();
    OrIsSum(v, b * 0x100, 16, 32);
  }

  lemma FourthOctet(v: nat, b: nat)
    requires v < 0x100_0000 && b < 0x100
    ensures Bits(OrOp, v * 0x100, b, 32) == 0x100 * v + b
  {
    hide Bits;
    Powers();
    WordSize();
    OrIsSum(v, b, 8, 32);
  }

  lemma ShlBelow(x: word, n: nat)
    requires x * Pow2(n) < 0x1_0000_0000
    ensures Shl(x, n) == x * Pow2(n)
  {
  }

  lemma ShlOctet(b: word)
    requires b < 0x100
    ensures Shl(b, 24) == 0x100_0000 * b && Shl(b, 16) == 0x1_0000 * b && Shl(b, 8) == 0x100 * b
  {
    hide Shl, Pow2;
    Powers();
    ShlBelow(b, 24);
    ShlBelow(b, 16);
    ShlBelow(b, 8);
  }

  lemma FromBigEndianMore(s: seq<byte>, k: nat)
    requires k < |s|
    ensures FromBigEndian(s[..k + 1]) == 0x100 * FromBigEndian(s[..k]) + s[k]
  {
    assert s[..k + 1][..k] == s[..k];
  }

  /** This is the big-endian value of the octets. */
  lemma AssembledIsBigEndian(s: seq<byte>)
    requires |s| == 4
    ensures Assembled(s) == FromBigEndian(s)
  {
    hide Bits, Shl, Pow2, FromBigEndian;
    var v0: nat, v1: nat, v2: nat, v3: nat
      := FromBigEndian(s[..0]), FromBigEndian(s[..1]), FromBigEndian(s[..2]), FromBigEndian(s[..3]);
    NoOctets(s);
    FromBigEndianMore(s, 0);
    FromBigEndianMore(s, 1);
    FromBigEndianMore(s, 2);
    FromBigEndianMore(s, 3);
    ShlOctet(s[0]);
    ShlOctet(s[1]);
    ShlOctet(s[2]);
    SecondOctet(v1, s[1]);
    ThirdOctet(v2, s[2]);
    FourthOctet(v3, s[3]);
  }

  lemma NoOctets(s: seq<byte>)
    ensures FromBigEndian(s[..0]) == 0 && s[..|s|] == s
  {
  }

  /** Section 7, steps a and b: the words W. */
  function W(block: seq<byte>, t: nat): word
    requires |block| == 64
  {
    if t < 16 then
      AssembledIsBigEndian(block[4 * t..4 * t + 4]);
      FromBigEndian(block[4 * t..4 * t + 4])
    else
      Rotl(1, Bitwise(XorOp, Xor3(W(block, t - 3), W(block, t - 8), W(block, t - 14)), W(block, t - 16)))
  }

  function Add(x: Five, y: Five): Five {
    Five(Plus(x.a, y.a), Plus(x.b, y.b), Plus(x.c, y.c), Plus(x.d, y.d), Plus(x.e, y.e))
  }

  /** Section 7, step d, for one t. */
  function Round(s: Five, w: word, t: nat): Five {
    Five((Rotl(5, s.a) + F(t, s.b, s.c, s.d) + s.e + w + K(t)) % 0x1_0000_0000, s.a, Rotl(30, s.b), s.c, s.d)
  }

  /** The words A to E after the first t rounds. */
  function Rounds(h: Five, block: seq<byte>, t: nat): Five
    requires |block| == 64
  {
    if t == 0 then h else Round(Rounds(h, block, t - 1), W(block, t - 1), t - 1)
  }

  function Compress(h: Five, block: seq<byte>): Five
    requires |block| == 64
  {
    Add(h, Rounds(h, block, 80))
  }

  function Blocks(h: Five, bs: seq<byte>): Five
    requires |bs| % 64 == 0
  {
    if bs == [] then h else Compress(Blocks(h, bs[..|bs| - 64]), bs[|bs| - 64..])
  }

  lemma PaddedSize(n: nat)
    ensures var zeros := (119 - n % 64) % 64; zeros < 64 && (n + 1 + zeros + 8) % 64 == 0
  {
    var q, r := n / 64, n % 64;
    assert n == 64 * q + r;
    if r <= 55 {
      assert (119 - r) % 64 == 55 - r;
      assert n + 1 + (55 - r) + 8 == 64 * (q + 1);
    } else {
      assert (119 - r) % 64 == 119 - r;
      assert n + 1 + (119 - r) + 8 == 64 * (q + 2);
    }
  }

  /** Section 4: as few zeros as fill the last block up, and the length in bits as two words. */
  function Padded(message: seq<byte>): (r: seq<byte>)
    ensures |r| % 64 == 0 && |message| + 9 <= |r| < |message| + 9 + 64
  {
    PaddedSize(|message|);
    message + [0x80] + Zeros((119 - |message| % 64) % 64) + BigEndian(8 * |message|, 8)
  }

  function Digest(message: seq<byte>): Five {
    Blocks(H0, Padded(message))
  }

  // ---- The implementation

  /** Messages of 2^61 octets and more have no length that fits. */
  const TOO_LONG := 0x2000_0000_0000_0000

  class Context {
    const digest: array<word>
    var lengthLow: word
    var lengthHigh: word
    const block: array<byte>
    var index: int32
    var computed: bool
    var corrupted: bool
    /** The octets taken in so far, and those of them that have been hashed. */
    ghost var taken: seq<byte>
    ghost var hashed: seq<byte>

    ghost function State(): Five
      requires digest.Length == 5
      reads digest
    {
      Five(digest[0], digest[1], digest[2], digest[3], digest[4])
    }

    ghost predicate Shaped() {
      digest.Length == 5 && block.Length == 64
    }

    /** The whole blocks have been hashed, the rest waits in the block, and the two words count the bits. */
    ghost predicate Absorbing()
      reads this, digest, block
    {
      && Shaped() && !computed && !corrupted
      && 0 <= index < 64 && taken == hashed + block[..index] && |taken| < TOO_LONG
      && |hashed| % 64 == 0 && State() == Blocks(H0, hashed)
      && lengthHigh * 0x1_0000_0000 + lengthLow == 8 * |taken|
    }

    /** A new context, reset. */
    constructor ()
      ensures Absorbing() && taken == []
      ensures fresh(digest) && fresh(block)
    {
      digest := new word[5];
      block := new byte[64];
      lengthLow, lengthHigh, index := 0, 0, 0;
      computed, corrupted := false, false;
      taken, hashed := [], [];
      new;
      digest[0], digest[1], digest[2], digest[3], digest[4]
        := 0x67452301, 0xEFCDAB89, 0x98BADCFE, 0x10325476, 0xC3D2E1F0;
    }

    /** The first sixteen words W: the octets of the block, four to a word. */
    method LoadWords(w: array<word>)
      requires Shaped() && w.Length == 80
      modifies w
      ensures forall t :: 0 <= t < 16 ==> w[t] == W(block[..], t)
    {
      hide Or, Shl, FromBigEndian;
      for t := 0 to 16
        invariant forall i :: 0 <= i < t ==> w[i] == W(block[..], i)
      {
        AssembledIsBigEndian(block[..][4 * t..4 * t + 4]);
        w[t] := Shl(block[t * 4], 24);
        w[t] := Or(w[t], Shl(block[t * 4 + 1], 16));
        w[t] := Or(w[t], Shl(block[t * 4 + 2], 8));
        w[t] := Or(w[t], block[t * 4 + 3]);
      }
    }

    /** The other words W, each from four before it. */
    method ExtendWords(w: array<word>, ghost m: seq<byte>)
      requires |m| == 64 && w.Length == 80 && forall t :: 0 <= t < 16 ==> w[t] == W(m, t)
      modifies w
      ensures forall t :: 0 <= t < 80 ==> w[t] == W(m, t)
    {
      hide Rotl, Bitwise, Xor3, FromBigEndian;
      for t := 16 to 80
        invariant forall i :: 0 <= i < t ==> w[i] == W(m, i)
      {
        w[t] := Rotl(1, Bitwise(XorOp, Xor3(w[t - 3], w[t - 8], w[t - 14]), w[t - 16]));
      }
    }

    /** Hashes the block. */
    method ProcessMessageBlock()
      requires Shaped()
      modifies digest, this`index
      ensures State() == Compress(old(State()), old(block[..])) && index == 0
    {
      hide Rotl, W, And, Or, Xor3, Not, Bitwise;
      var w := new word[80];
      LoadWords(w);
      ExtendWords(w, block[..]);
      ghost var h, m := State(), block[..];
      var a: word, b: word, c: word, d: word, e: word := digest[0], digest[1], digest[2], digest[3], digest[4];
      for t := 0 to 20
        invariant Five(a, b, c, d, e) == Rounds(h, m, t)
      {
        var temp: word := (Rotl(5, a) + Or(And(b, c), And(Not(b), d)) + e + w[t] + 0x5A827999) % 0x1_0000_0000;
        e, d, c, b, a := d, c, Rotl(30, b), a, temp;
      }
      for t := 20 to 40
        invariant Five(a, b, c, d, e) == Rounds(h, m, t)
      {
        var temp: word := (Rotl(5, a) + Xor3(b, c, d) + e + w[t] + 0x6ED9EBA1) % 0x1_0000_0000;
        e, d, c, b, a := d, c, Rotl(30, b), a, temp;
      }
      for t := 40 to 60
        invariant Five(a, b, c, d, e) == Rounds(h, m, t)
      {
        var temp: word :=
          (Rotl(5, a) + Or(Or(And(b, c), And(b, d)), And(c, d)) + e + w[t] + 0x8F1BBCDC) % 0x1_0000_0000;
        e, d, c, b, a := d, c, Rotl(30, b), a, temp;
      }
      for t := 60 to 80
        invariant Five(a, b, c, d, e) == Rounds(h, m, t)
      {
        var temp: word := (Rotl(5, a) + Xor3(b, c, d) + e + w[t] + 0xCA62C1D6) % 0x1_0000_0000;
        e, d, c, b, a := d, c, Rotl(30, b), a, temp;
      }
      digest[0] := Plus(digest[0], a);
      digest[1] := Plus(digest[1], b);
      digest[2] := Plus(digest[2], c);
      digest[3] := Plus(digest[3], d);
      digest[4] := Plus(digest[4], e);
      index := 0;
    }

    /** Counts one octet, in bits; a message that is too long has no count. */
    method Count(ghost n: nat)
      requires lengthHigh * 0x1_0000_0000 + lengthLow == 8 * n && n < TOO_LONG && !corrupted
      modifies this`lengthLow, this`lengthHigh, this`corrupted
      ensures corrupted <==> n + 1 == 0x2000_0000_0000_0000
      ensures n + 1 < TOO_LONG ==> lengthHigh * 0x1_0000_0000 + lengthLow == 8 * (n + 1)
    {
      lengthLow := (lengthLow + 8) % 0x1_0000_0000;
      if lengthLow == 0 {
        lengthHigh := (lengthHigh + 1) % 0x1_0000_0000;
        if lengthHigh == 0 {
          corrupted := true;
        }
      }
    }

    /** One octet of the message. */
    method Take(b: byte)
      requires Absorbing()
      modifies this, digest, block
      ensures taken == old(taken) + [b]
      ensures if |taken| < TOO_LONG then Absorbing() else corrupted
    {
      hide Blocks, Compress;
      ghost var rest := block[..index] + [b];
      TakeWhole(hashed, rest);
      block[index] := b;
      index := index + 1;
      Count(|taken|);
      taken := taken + [b];
      assert block[..index] == rest;
      if index == 64 {
        assert block[..] == rest;
        ProcessMessageBlock();
        hashed := hashed + rest;
      }
    }

    /** Takes in more of the message, unless the digest has been computed already or the message is too long. */
    method Input(message: seq<byte>)
      requires Absorbing() || (Shaped() && (computed || corrupted))
      modifies this, digest, block
      ensures message == [] ==> computed == old(computed) && corrupted == old(corrupted) && State() == old(State())
      ensures message != [] && old(computed || corrupted) ==> corrupted
      ensures old(Absorbing()) && |old(taken)| + |message| < TOO_LONG ==> Absorbing() && taken == old(taken) + message
      ensures old(Absorbing()) && |old(taken)| + |message| >= TOO_LONG ==> corrupted
      ensures Absorbing() || (Shaped() && (computed || corrupted))
    {
      hide Blocks, State;
      if message == [] {
        assert taken == old(taken) + message;
        return;
      }
      if computed || corrupted {
        corrupted := true;
        return;
      }
      var i := 0;
      while i < |message| && !corrupted
        invariant i <= |message| && taken == old(taken) + message[..i]
        invariant if |taken| < TOO_LONG then Absorbing() else corrupted
        invariant |taken| <= TOO_LONG
      {
        Take(message[i]);
        assert message[..i + 1] == message[..i] + [message[i]];
        i := i + 1;
      }
      assert i == |message| ==> message[..i] == message;
    }

    /** Appends zeros to the block up to a given place. */
    method FillZeros(end: nat)
      requires Shaped() && 0 <= index <= end <= 64
      modifies block, this`index
      ensures index == end && block[..end] == old(block[..index]) + Zeros(end - old(index))
    {
      while index < end
        invariant old(index) <= index <= end
        invariant block[..index] == old(block[..index]) + Zeros(index - old(index))
      {
        block[index] := 0;
        index := index + 1;
      }
    }

    /** Writes the length in bits as the last eight octets of the block. */
    method PutLength(ghost n: nat)
      requires Shaped() && lengthHigh * 0x1_0000_0000 + lengthLow == n
      modifies block
      ensures block[..] == old(block[..56]) + BigEndian(n, 8)
    {
      LengthOctets(lengthHigh, lengthLow);
      block[56] := lengthHigh / 0x100_0000 % 0x100;
      block[57] := lengthHigh / 0x1_0000 % 0x100;
      block[58] := lengthHigh / 0x100 % 0x100;
      block[59] := lengthHigh % 0x100;
      block[60] := lengthLow / 0x100_0000 % 0x100;
      block[61] := lengthLow / 0x1_0000 % 0x100;
      block[62] := lengthLow / 0x100 % 0x100;
      block[63] := lengthLow % 0x100;
      assert block[..] == old(block[..56]) + WordOctets(lengthHigh) + WordOctets(lengthLow);
    }

    /** Pads the message: into the waiting block if the length still fits behind it, or else into one more. */
    method PadMessage()
      requires Absorbing()
      modifies this, digest, block
      ensures State() == Digest(taken) && taken == old(taken)
      ensures Shaped() && computed == old(computed) && corrupted == old(corrupted)
    {
      hide Blocks, Compress, BigEndian, Digest;
      ghost var rest := block[..index];
      ghost var length := BigEndian(8 * |taken|, 8);
      if index > 55 {
        PaddedTwoBlocks(hashed, rest);
        block[index] := 0x80;
        index := index + 1;
        FillZeros(64);
        assert block[..] == block[..64] == rest + [0x80] + Zeros(63 - |rest|);
        ProcessMessageBlock();
        FillZeros(56);
        assert block[..56] == Zeros(56);
      } else {
        PaddedOneBlock(hashed, rest);
        block[index] := 0x80;
        index := index + 1;
        FillZeros(56);
        assert block[..56] == rest + [0x80] + Zeros(55 - |rest|);
      }
      PutLength(8 * |taken|);
      ProcessMessageBlock();
    }

    /** Computes the digest, once. */
    method Result() returns (ok: bool)
      requires Absorbing() || (Shaped() && (computed || corrupted))
      modifies this, digest, block
      ensures ok == !old(corrupted)
      ensures old(Absorbing()) ==> State() == Digest(taken) && computed && !corrupted
      ensures !old(Absorbing()) ==> State() == old(State()) && computed == old(computed) && corrupted == old(corrupted)
      ensures taken == old(taken) && Shaped()
    {
      hide Digest, Blocks;
      if corrupted {
        return false;
      }
      if !computed {
        PadMessage();
        computed := true;
      }
      return true;
    }
  }

  lemma LengthOctets(high: word, low: word)
    ensures BigEndian(high * 0x1_0000_0000 + low, 8) == WordOctets(high) + WordOctets(low)
  {
    WordOctetsValue(high);
    WordOctetsValue(low);
    hide BigEndian, FromBigEndian;
    var s := WordOctets(high) + WordOctets(low);
    FromBigEndianConcat(WordOctets(high), WordOctets(low));
    assert Pow256(4) == 0x1_0000_0000 by {
      assert Pow256(2) == 0x1_0000;
    }
    BigEndianOf(s);
  }

  /** Padding when the length fits behind the waiting octets. */
  lemma PaddedOneBlock(hashed: seq<byte>, rest: seq<byte>)
    requires |hashed| % 64 == 0 && |rest| <= 55
    ensures var message := hashed + rest;
            var last := rest + [0x80] + Zeros(55 - |rest|) + BigEndian(8 * |message|, 8);
            Digest(message) == Compress(Blocks(H0, hashed), last)
  {
    hide Blocks, Compress, BigEndian;
    var message := hashed + rest;
    var last := rest + [0x80] + Zeros(55 - |rest|) + BigEndian(8 * |message|, 8);
    WaitingOctets(|hashed|, |rest|);
    assert Padded(message) == hashed + last;
    TakeWhole(hashed, last);
  }

  /** Padding when it takes a block of its own. */
  lemma PaddedTwoBlocks(hashed: seq<byte>, rest: seq<byte>)
    requires |hashed| % 64 == 0 && 55 < |rest| < 64
    ensures var message := hashed + rest;
            var first, last := rest + [0x80] + Zeros(63 - |rest|), Zeros(56) + BigEndian(8 * |message|, 8);
            Digest(message) == Compress(Compress(Blocks(H0, hashed), first), last)
  {
    hide Blocks, Compress, BigEndian;
    var message := hashed + rest;
    var first, last := rest + [0x80] + Zeros(63 - |rest|), Zeros(56) + BigEndian(8 * |message|, 8);
    WaitingOctets(|hashed|, |rest|);
    assert Zeros(119 - |rest|) == Zeros(63 - |rest|) + Zeros(56);
    assert Padded(message) == hashed + first + last;
    TakeWhole(hashed, first);
    TakeWhole(hashed + first, last);
  }

  lemma WaitingOctets(hashed: nat, rest: nat)
    requires hashed % 64 == 0 && rest < 64
    ensures (hashed + rest) % 64 == rest
    ensures (119 - rest) % 64 == if rest <= 55 then 55 - rest else 119 - rest
  {
  }

  lemma TakeWhole(whole: seq<byte>, block: seq<byte>)
    requires |whole| % 64 == 0
    ensures |block| == 64 ==>
              |whole + block| % 64 == 0 && Blocks(H0, whole + block) == Compress(Blocks(H0, whole), block)
  {
    hide Compress;
    if |block| == 64 {
      var bs := whole + block;
      assert bs[..|bs| - 64] == whole && bs[|bs| - 64..] == block;
    }
  }

  /** However a message is cut into pieces, what comes out is the digest of FIPS PUB 180-1 of the whole. */
  method DigestOfPieces(pieces: seq<seq<byte>>) returns (r: Five)
    requires |Flat(pieces)| < 0x2000_0000_0000_0000
    ensures r == Digest(Flat(pieces))
  {
    hide Blocks, Digest;
    var c := new Context();
    for i := 0 to |pieces|
      invariant c.Absorbing() && c.taken == Flat(pieces[..i])
      invariant fresh(c) && fresh(c.digest) && fresh(c.block)
    {
      FlatSplit(pieces, i);
      c.Input(pieces[i]);
    }
    assert pieces[..|pieces|] == pieces;
    var _ := c.Result();
    r := Five(c.digest[0], c.digest[1], c.digest[2], c.digest[3], c.digest[4]);
  }
}
