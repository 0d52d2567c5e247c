/**
 Known answers of the hash: the words and rounds of the standard on literal messages. Everything is brought down to
 the machine's own `&` and to sums of numbers.
 */
module KnownDigests {
  import opened Bytes
  import opened Bitwise
  import opened Sha1

  // ---- The functions used, as sums

  lemma HalfBits(op: BitOp, a: nat, b: nat, n: nat)
    requires n > 0
    ensures Bits(op, a, b, n) / 2 == Bits(op, a / 2, b / 2, n - 1)
    ensures Bits(op, a, b, n) % 2 == op.Bit(a % 2, b % 2)
    ensures Bits(op, a, b, n) == 2 * Bits(op, a / 2, b / 2, n - 1) + op.Bit(a % 2, b % 2)
  {
    hide BitOp.Bit;
    BitsStep(op, a, b, n);
    LowBit(Bits(op, a / 2, b / 2, n - 1), op.Bit(a % 2, b % 2));
  }

  lemma {:induction false} XorSum(a: nat, b: nat, n: nat)
    requires a < Pow2(n) && b < Pow2(n)
    ensures Bits(XorOp, a, b, n) + 2 * Bits(AndOp, a, b, n) == a + b
  {
    hide Bits, BitOp.Bit;
    if n > 0 {
      XorSum(a / 2, b / 2, n - 1);
      HalfBits(XorOp, a, b, n);
      HalfBits(AndOp, a, b, n);
      XorBit(a % 2, b % 2);
    } else {
      NoBits(XorOp, a, b);
      NoBits(AndOp, a, b);
    }
  }

  lemma XorBit(a: nat, b: nat)
    requires a < 2 && b < 2
    ensures XorOp.Bit(a, b) + 2 * AndOp.Bit(a, b) == a + b
  {
    assert a == 0 || a == 1;
    assert b == 0 || b == 1;
  }

  /** Where the bits of three numbers add up to an odd number. */
  lemma {:induction false} ParitySum(b: nat, c: nat, d: nat, n: nat)
    requires b < Pow2(n) && c < Pow2(n) && d < Pow2(n)
    ensures var u, v, w := Bits(AndOp, b, c, n), Bits(AndOp, b, d, n), Bits(AndOp, c, d, n);
            Bits(XorOp, Bits(XorOp, b, c, n), d, n) + 2 * (u + v + w) == b + c + d + 4 * Bits(AndOp, u, d, n)
  {
    hide Bits, BitOp.Bit;
    var x, u := Bits(XorOp, b, c, n), Bits(AndOp, b, c, n);
    if n > 0 {
      ParitySum(b / 2, c / 2, d / 2, n - 1);
      HalfBits(XorOp, b, c, n);
      HalfBits(XorOp, x, d, n);
      HalfBits(AndOp, b, c, n);
      HalfBits(AndOp, b, d, n);
      HalfBits(AndOp, c, d, n);
      HalfBits(AndOp, u, d, n);
      ParityBit(b % 2, c % 2, d % 2);
    } else {
      NoBits(XorOp, x, d);
      NoBits(AndOp, b, c);
      NoBits(AndOp, b, d);
      NoBits(AndOp, c, d);
      NoBits(AndOp, u, d);
    }
  }

  lemma ParityBit(b: nat, c: nat, d: nat)
    requires b < 2 && c < 2 && d < 2
    ensures XorOp.Bit(XorOp.Bit(b, c), d) + 2 * (AndOp.Bit(b, c) + AndOp.Bit(b, d) + AndOp.Bit(c, d))
         == b + c + d + 4 * AndOp.Bit(AndOp.Bit(b, c), d)
  {
    assert b == 0 || b == 1;
    assert c == 0 || c == 1;
    assert d == 0 || d == 1;
  }

  /** Where two of the bits are 1. */
  lemma {:induction false} MajoritySum(b: nat, c: nat, d: nat, n: nat)
    ensures var u, v, w := Bits(AndOp, b, c, n), Bits(AndOp, b, d, n), Bits(AndOp, c, d, n);
            Bits(OrOp, Bits(OrOp, u, v, n), w, n) + 2 * Bits(AndOp, u, d, n) == u + v + w
  {
    hide Bits, BitOp.Bit;
    var u, v, w := Bits(AndOp, b, c, n), Bits(AndOp, b, d, n), Bits(AndOp, c, d, n);
    var x := Bits(OrOp, u, v, n);
    if n > 0 {
      MajoritySum(b / 2, c / 2, d / 2, n - 1);
      HalfBits(AndOp, b, c, n);
      HalfBits(AndOp, b, d, n);
      HalfBits(AndOp, c, d, n);
      HalfBits(OrOp, u, v, n);
      HalfBits(OrOp, x, w, n);
      HalfBits(AndOp, u, d, n);
      MajorityBit(b % 2, c % 2, d % 2);
    } else {
      NoBits(AndOp, b, c);
      NoBits(AndOp, b, d);
      NoBits(AndOp, c, d);
      NoBits(OrOp, x, w);
      NoBits(AndOp, u, d);
    }
  }

  lemma MajorityBit(b: nat, c: nat, d: nat)
    requires b < 2 && c < 2 && d < 2
    ensures var u, v, w := AndOp.Bit(b, c), AndOp.Bit(b, d), AndOp.Bit(c, d);
            OrOp.Bit(OrOp.Bit(u, v), w) + 2 * AndOp.Bit(u, d) == u + v + w
  {
    assert b == 0 || b == 1;
    assert c == 0 || c == 1;
    assert d == 0 || d == 1;
  }

  /** Where b is 1 the bit of c, and where it is 0 that of d. */
  lemma {:induction false} ChooseSum(b: nat, c: nat, d: nat, n: nat)
    requires b < Pow2(n) && c < Pow2(n) && d < Pow2(n)
    ensures Bits(OrOp, Bits(AndOp, b, c, n), Bits(AndOp, Pow2(n) - 1 - b, d, n), n)
         == Bits(AndOp, b, c, n) + d - Bits(AndOp, b, d, n)
  {
    hide Bits, BitOp.Bit;
    var nb := Pow2(n) - 1 - b;
    var u, v := Bits(AndOp, b, c, n), Bits(AndOp, nb, d, n);
    if n > 0 {
      assert nb / 2 == Pow2(n - 1) - 1 - b / 2 && nb % 2 == 1 - b % 2;
      ChooseSum(b / 2, c / 2, d / 2, n - 1);
      HalfBits(AndOp, b, c, n);
      HalfBits(AndOp, nb, d, n);
      HalfBits(AndOp, b, d, n);
      HalfBits(OrOp, u, v, n);
      ChooseBit(b % 2, c % 2, d % 2);
    } else {
      NoBits(AndOp, b, c);
      NoBits(AndOp, b, d);
      NoBits(OrOp, u, v);
    }
  }

  lemma ChooseBit(b: nat, c: nat, d: nat)
    requires b < 2 && c < 2 && d < 2
    ensures OrOp.Bit(AndOp.Bit(b, c), AndOp.Bit(1 - b, d)) == AndOp.Bit(b, c) + d - AndOp.Bit(b, d)
  {
    assert b == 0 || b == 1;
    assert c == 0 || c == 1;
    assert d == 0 || d == 1;
  }

  // ---- One word and one round

  /** The functions used, as sums: u, v and w are what `&` gives of two of the words, z of all three. */
  function Sum(t: nat, b: int, c: int, d: int, u: int, v: int, w: int, z: int): int {
    if t < 20 then u + d - v
    else if 40 <= t < 60 then u + v + w - 2 * z
    else b + c + d - 2 * (u + v + w) + 4 * z
  }

  lemma FunctionIs(t: nat, b: word, c: word, d: word)
    ensures F(t, b, c, d) == Sum(t, b, c, d, And(b, c), And(b, d), And(c, d), And(And(b, c), d))
  {
    hide Bits;
    WordSize();
    ChooseSum(b, c, d, 32);
    ParitySum(b, c, d, 32);
    MajoritySum(b, c, d, 32);
  }

  lemma RotationsAre(x: word)
    ensures Rotl(1, x) == x % 0x8000_0000 * 2 + x / 0x8000_0000
    ensures Rotl(5, x) == x % 0x800_0000 * 32 + x / 0x800_0000
    ensures Rotl(30, x) == x % 4 * 0x4000_0000 + x / 4
  {
    hide Rotl;
    RotationIs(1, x);
    RotationIs(5, x);
    RotationIs(30, x);
    TheirPowers();
  }

  lemma TheirPowers()
    ensures Pow2(31) == 0x8000_0000 && Pow2(1) == 2 && Pow2(27) == 0x800_0000 && Pow2(5) == 32
    ensures Pow2(2) == 4 && Pow2(30) == 0x4000_0000
  {
    assert Pow2(8) == 256;
    assert Pow2(16) == 65536;
    assert Pow2(24) == 0x100_0000;
  }

  lemma RoundIs(h: Five, m: seq<byte>, t: nat, a: word, b: word, c: word, d: word, e: word, w: word, x: word, r: word)
    requires |m| == 64 && Rounds(h, m, t) == Five(a, b, c, d, e) && W(m, t) == w
    requires x == (a % 0x800_0000 * 32 + a / 0x800_0000
                   + Sum(t, b, c, d, And(b, c), And(b, d), And(c, d), And(And(b, c), d)) + e + w + K(t)) % 0x1_0000_0000
    requires r == b % 4 * 0x4000_0000 + b / 4
    ensures Rounds(h, m, t + 1) == Five(x, a, r, c, d)
  {
    hide F, Sum, W, Rotl, K, And;
    FunctionIs(t, b, c, d);
    RotationsAre(a);
    RotationsAre(b);
  }

  function Num(p: bv32): word {
    p as int
  }

  lemma AndNum(p: bv32, q: bv32)
    ensures And(Num(p), Num(q)) == Num(p & q)
  {
    hide Bits;
    WordAndIsMachine(p, q);
  }

  predicate WordIs(m: seq<byte>, t: nat, w: word) {
    |m| == 64 && W(m, t) == w
  }

  /** Sixteen words, from that at t on. */
  predicate Sixteen(m: seq<byte>, t: nat,
                    w0: word, w1: word, w2: word, w3: word, w4: word, w5: word, w6: word, w7: word,
                    w8: word, w9: word, wA: word, wB: word, wC: word, wD: word, wE: word, wF: word) {
    && WordIs(m, t, w0) && WordIs(m, t + 1, w1) && WordIs(m, t + 2, w2) && WordIs(m, t + 3, w3)
    && WordIs(m, t + 4, w4) && WordIs(m, t + 5, w5) && WordIs(m, t + 6, w6) && WordIs(m, t + 7, w7)
    && WordIs(m, t + 8, w8) && WordIs(m, t + 9, w9) && WordIs(m, t + 10, wA) && WordIs(m, t + 11, wB)
    && WordIs(m, t + 12, wC) && WordIs(m, t + 13, wD) && WordIs(m, t + 14, wE) && WordIs(m, t + 15, wF)
  }

  /** One round, on literals: x is the new word, r the rotated one. */
  lemma OneRound(h: Five, m: seq<byte>, t: nat, a: bv32, b: bv32, c: bv32, d: bv32, e: bv32, w: bv32, x: bv32, r: bv32)
    requires WordIs(m, t, Num(w)) && Rounds(h, m, t) == Five(Num(a), Num(b), Num(c), Num(d), Num(e))
    requires Num(x) == (Num(a) % 0x800_0000 * 32 + Num(a) / 0x800_0000
                        + Sum(t, Num(b), Num(c), Num(d), Num(b & c), Num(b & d), Num(c & d), Num(b & c & d))
                        + Num(e) + Num(w) + K(t)) % 0x1_0000_0000
    requires Num(r) == Num(b) % 4 * 0x4000_0000 + Num(b) / 4
    ensures Rounds(h, m, t + 1) == Five(Num(x), Num(a), Num(r), Num(c), Num(d))
  {
    hide F, Sum, W, Rotl, K, And, Rounds, Num;
    AndNum(b, c);
    AndNum(b, d);
    AndNum(c, d);
    AndNum(b & c, d);
    RoundIs(h, m, t, Num(a), Num(b), Num(c), Num(d), Num(e), Num(w), Num(x), Num(r));
  }

  function X(p: bv32, q: bv32): bv32 {
    p ^ q
  }

  /** Exclusive or, where the machine's own gives the sum that it should. */
  predicate SumsUp(p: bv32, q: bv32) {
    Num(X(p, q)) == Num(p) + Num(q) - 2 * Num(p & q)
  }

  lemma XorNum(p: bv32, q: bv32)
    requires SumsUp(p, q)
    ensures Sha1.Bitwise(XorOp, Num(p), Num(q)) == Num(X(p, q))
  {
    hide Bits, Num, X;
    WordSize();
    AndNum(p, q);
    XorSum(Num(p), Num(q), 32);
  }

  lemma NextWord(m: seq<byte>, t: nat)
    requires |m| == 64 && t >= 16
    ensures var x := Sha1.Bitwise(XorOp, Sha1.Bitwise(XorOp, W(m, t - 3), W(m, t - 8)), W(m, t - 14));
            W(m, t) == Rotl(1, Sha1.Bitwise(XorOp, x, W(m, t - 16)))
  {
  }

  lemma NoRounds(h: Five, m: seq<byte>)
    requires |m| == 64
    ensures Rounds(h, m, 0) == h
  {
  }

  /** One of the first sixteen words. */
  lemma FirstWord(m: seq<byte>, t: nat, a: byte, b: byte, c: byte, d: byte)
    requires |m| == 64 && t < 16 && m[4 * t] == a && m[4 * t + 1] == b && m[4 * t + 2] == c && m[4 * t + 3] == d
    ensures WordIs(m, t, a * 0x100_0000 + b * 0x1_0000 + c * 0x100 + d)
  {
    var s := m[4 * t..4 * t + 4];
    assert s == [a, b, c, d];
    FourOctets(a, b, c, d);
  }

  lemma FourOctets(a: byte, b: byte, c: byte, d: byte)
    ensures FromBigEndian([a, b, c, d]) == a * 0x100_0000 + b * 0x1_0000 + c * 0x100 + d
  {
    var s: seq<byte> := [a, b, c, d];
    NoOctets(s);
    FromBigEndianMore(s, 0);
    FromBigEndianMore(s, 1);
    FromBigEndianMore(s, 2);
    FromBigEndianMore(s, 3);
  }

  /** One word of the schedule, on literals. */
  lemma OneWord(m: seq<byte>, t: nat, p: bv32, q: bv32, r: bv32, s: bv32, y: bv32)
    requires t >= 16 && WordIs(m, t - 3, Num(p)) && WordIs(m, t - 8, Num(q))
    requires WordIs(m, t - 14, Num(r)) && WordIs(m, t - 16, Num(s))
    requires SumsUp(p, q) && SumsUp(X(p, q), r) && SumsUp(X(X(p, q), r), s)
    requires Num(y) == Num(X(X(X(p, q), r), s)) % 0x8000_0000 * 2 + Num(X(X(X(p, q), r), s)) / 0x8000_0000
    ensures WordIs(m, t, Num(y))
  {
    hide Sha1.Bitwise, Num, Rotl, SumsUp, W, X;
    NextWord(m, t);
    XorNum(p, q);
    XorNum(X(p, q), r);
    XorNum(X(X(p, q), r), s);
    RotationsAre(Num(X(X(X(p, q), r), s)));
  }

  // ---- The message "abc"

  /** The message, padded: one block. */
  predicate IsAbc(m: seq<byte>) {
    m == [0x61, 0x62, 0x63, 0x80] + Zeros(59) + [24]
  }

  lemma AbcWords0(m: seq<byte>)
    requires IsAbc(m)
    ensures Sixteen(m, 0,
              0x61626380, 0x00000000, 0x00000000, 0x00000000, 0x00000000, 0x00000000, 0x00000000, 0x00000000,
              0x00000000, 0x00000000, 0x00000000, 0x00000000, 0x00000000, 0x00000000, 0x00000000, 0x00000018)
  {
    hide W;
    assert m[0] == 0x61 && m[1] == 0x62 && m[2] == 0x63 && m[3] == 0x80 && m[63] == 24;
    FirstWord(m, 0, 0x61, 0x62, 0x63, 0x80);
    FirstWord(m, 15, 0, 0, 0, 24);
    forall t | 1 <= t < 15 ensures WordIs(m, t, 0) {
      FirstWord(m, t, 0, 0, 0, 0);
    }
  }

  lemma AbcWords16(m: seq<byte>)
    requires IsAbc(m)
    ensures Sixteen(m, 16,
              0xC2C4C700, 0x00000000, 0x00000030, 0x85898E01, 0x00000000, 0x00000060, 0x0B131C03, 0x00000030,
              0x85898EC1, 0x16263806, 0x00000000, 0x00000180, 0x2C4C700C, 0x000000F0, 0x93AFB507, 0x5898E048)
  {
    hide W, IsAbc;
    AbcWords0(m);
    OneWord(m, 16, 0x00000000, 0x00000000, 0x00000000, 0x61626380, 0xC2C4C700);
    OneWord(m, 17, 0x00000000, 0x00000000, 0x00000000, 0x00000000, 0x00000000);
    OneWord(m, 18, 0x00000018, 0x00000000, 0x00000000, 0x00000000, 0x00000030);
    OneWord(m, 19, 0xC2C4C700, 0x00000000, 0x00000000, 0x00000000, 0x85898E01);
    OneWord(m, 20, 0x00000000, 0x00000000, 0x00000000, 0x00000000, 0x00000000);
    OneWord(m, 21, 0x00000030, 0x00000000, 0x00000000, 0x00000000, 0x00000060);
    OneWord(m, 22, 0x85898E01, 0x00000000, 0x00000000, 0x00000000, 0x0B131C03);
    OneWord(m, 23, 0x00000000, 0x00000018, 0x00000000, 0x00000000, 0x00000030);
    OneWord(m, 24, 0x00000060, 0xC2C4C700, 0x00000000, 0x00000000, 0x85898EC1);
    OneWord(m, 25, 0x0B131C03, 0x00000000, 0x00000000, 0x00000000, 0x16263806);
    OneWord(m, 26, 0x00000030, 0x00000030, 0x00000000, 0x00000000, 0x00000000);
    OneWord(m, 27, 0x85898EC1, 0x85898E01, 0x00000000, 0x00000000, 0x00000180);
    OneWord(m, 28, 0x16263806, 0x00000000, 0x00000000, 0x00000000, 0x2C4C700C);
    OneWord(m, 29, 0x00000000, 0x00000060, 0x00000018, 0x00000000, 0x000000F0);
    OneWord(m, 30, 0x00000180, 0x0B131C03, 0xC2C4C700, 0x00000000, 0x93AFB507);
    OneWord(m, 31, 0x2C4C700C, 0x00000030, 0x00000000, 0x00000018, 0x5898E048);
  }

  lemma AbcWords32(m: seq<byte>)
    requires IsAbc(m)
    ensures Sixteen(m, 32,
              0x8E9A9202, 0x00000600, 0xB131C0F0, 0x16263BC6, 0x4EBED41E, 0x626380A1, 0x16263806, 0x000018C0,
              0xD2E138C4, 0x00000F00, 0x3AFB5079, 0x898E04E5, 0xE2BA3C2B, 0x000060C0, 0x053A37CD, 0x74458547)
  {
    hide W, IsAbc;
    AbcWords16(m);
    OneWord(m, 32, 0x000000F0, 0x85898EC1, 0x00000030, 0xC2C4C700, 0x8E9A9202);
    OneWord(m, 33, 0x93AFB507, 0x16263806, 0x85898E01, 0x00000000, 0x00000600);
    OneWord(m, 34, 0x5898E048, 0x00000000, 0x00000000, 0x00000030, 0xB131C0F0);
    OneWord(m, 35, 0x8E9A9202, 0x00000180, 0x00000060, 0x85898E01, 0x16263BC6);
    OneWord(m, 36, 0x00000600, 0x2C4C700C, 0x0B131C03, 0x00000000, 0x4EBED41E);
    OneWord(m, 37, 0xB131C0F0, 0x000000F0, 0x00000030, 0x00000060, 0x626380A1);
    OneWord(m, 38, 0x16263BC6, 0x93AFB507, 0x85898EC1, 0x0B131C03, 0x16263806);
    OneWord(m, 39, 0x4EBED41E, 0x5898E048, 0x16263806, 0x00000030, 0x000018C0);
    OneWord(m, 40, 0x626380A1, 0x8E9A9202, 0x00000000, 0x85898EC1, 0xD2E138C4);
    OneWord(m, 41, 0x16263806, 0x00000600, 0x00000180, 0x16263806, 0x00000F00);
    OneWord(m, 42, 0x000018C0, 0xB131C0F0, 0x2C4C700C, 0x00000000, 0x3AFB5079);
    OneWord(m, 43, 0xD2E138C4, 0x16263BC6, 0x000000F0, 0x00000180, 0x898E04E5);
    OneWord(m, 44, 0x00000F00, 0x4EBED41E, 0x93AFB507, 0x2C4C700C, 0xE2BA3C2B);
    OneWord(m, 45, 0x3AFB5079, 0x626380A1, 0x5898E048, 0x000000F0, 0x000060C0);
    OneWord(m, 46, 0x898E04E5, 0x16263806, 0x8E9A9202, 0x93AFB507, 0x053A37CD);
    OneWord(m, 47, 0xE2BA3C2B, 0x000018C0, 0x00000600, 0x5898E048, 0x74458547);
  }

  lemma AbcWords48(m: seq<byte>)
    requires IsAbc(m)
    ensures Sixteen(m, 48,
              0xDA9415ED, 0x26380A16, 0x626383A1, 0x4EBF54DE, 0x3835B44B, 0x0000F600, 0x1E84C7A3, 0x98E04D98,
              0x651D16A0, 0x62658CA1, 0x458544D6, 0x44584CB7, 0x7BA06619, 0x6380AEA2, 0x0AE55269, 0x627B49A1)
  {
    hide W, IsAbc;
    AbcWords32(m);
    OneWord(m, 48, 0x000060C0, 0xD2E138C4, 0xB131C0F0, 0x8E9A9202, 0xDA9415ED);
    OneWord(m, 49, 0x053A37CD, 0x00000F00, 0x16263BC6, 0x00000600, 0x26380A16);
    OneWord(m, 50, 0x74458547, 0x3AFB5079, 0x4EBED41E, 0xB131C0F0, 0x626383A1);
    OneWord(m, 51, 0xDA9415ED, 0x898E04E5, 0x626380A1, 0x16263BC6, 0x4EBF54DE);
    OneWord(m, 52, 0x26380A16, 0xE2BA3C2B, 0x16263806, 0x4EBED41E, 0x3835B44B);
    OneWord(m, 53, 0x626383A1, 0x000060C0, 0x000018C0, 0x626380A1, 0x0000F600);
    OneWord(m, 54, 0x4EBF54DE, 0x053A37CD, 0xD2E138C4, 0x16263806, 0x1E84C7A3);
    OneWord(m, 55, 0x3835B44B, 0x74458547, 0x00000F00, 0x000018C0, 0x98E04D98);
    OneWord(m, 56, 0x0000F600, 0xDA9415ED, 0x3AFB5079, 0xD2E138C4, 0x651D16A0);
    OneWord(m, 57, 0x1E84C7A3, 0x26380A16, 0x898E04E5, 0x00000F00, 0x62658CA1);
    OneWord(m, 58, 0x98E04D98, 0x626383A1, 0xE2BA3C2B, 0x3AFB5079, 0x458544D6);
    OneWord(m, 59, 0x651D16A0, 0x4EBF54DE, 0x000060C0, 0x898E04E5, 0x44584CB7);
    OneWord(m, 60, 0x62658CA1, 0x3835B44B, 0x053A37CD, 0xE2BA3C2B, 0x7BA06619);
    OneWord(m, 61, 0x458544D6, 0x0000F600, 0x74458547, 0x000060C0, 0x6380AEA2);
    OneWord(m, 62, 0x44584CB7, 0x1E84C7A3, 0xDA9415ED, 0x053A37CD, 0x0AE55269);
    OneWord(m, 63, 0x7BA06619, 0x98E04D98, 0x26380A16, 0x74458547, 0x627B49A1);
  }

  lemma AbcWords64(m: seq<byte>)
    requires IsAbc(m)
    ensures Sixteen(m, 64,
              0x7CD45C9D, 0x000F0000, 0xFB50753A, 0xEC6765E8, 0xBA3C2BE2, 0x0060C000, 0x3A37CD05, 0x458546F4,
              0xB8599DD6, 0x380A1A26, 0x01E02203, 0xE7CC3456, 0xE6E60B69, 0x00F60A00, 0x5795EF4F, 0x822E0879)
  {
    hide W, IsAbc;
    AbcWords48(m);
    OneWord(m, 64, 0x6380AEA2, 0x651D16A0, 0x626383A1, 0xDA9415ED, 0x7CD45C9D);
    OneWord(m, 65, 0x0AE55269, 0x62658CA1, 0x4EBF54DE, 0x26380A16, 0x000F0000);
    OneWord(m, 66, 0x627B49A1, 0x458544D6, 0x3835B44B, 0x626383A1, 0xFB50753A);
    OneWord(m, 67, 0x7CD45C9D, 0x44584CB7, 0x0000F600, 0x4EBF54DE, 0xEC6765E8);
    OneWord(m, 68, 0x000F0000, 0x7BA06619, 0x1E84C7A3, 0x3835B44B, 0xBA3C2BE2);
    OneWord(m, 69, 0xFB50753A, 0x6380AEA2, 0x98E04D98, 0x0000F600, 0x0060C000);
    OneWord(m, 70, 0xEC6765E8, 0x0AE55269, 0x651D16A0, 0x1E84C7A3, 0x3A37CD05);
    OneWord(m, 71, 0xBA3C2BE2, 0x627B49A1, 0x62658CA1, 0x98E04D98, 0x458546F4);
    OneWord(m, 72, 0x0060C000, 0x7CD45C9D, 0x458544D6, 0x651D16A0, 0xB8599DD6);
    OneWord(m, 73, 0x3A37CD05, 0x000F0000, 0x44584CB7, 0x62658CA1, 0x380A1A26);
    OneWord(m, 74, 0x458546F4, 0xFB50753A, 0x7BA06619, 0x458544D6, 0x01E02203);
    OneWord(m, 75, 0xB8599DD6, 0xEC6765E8, 0x6380AEA2, 0x44584CB7, 0xE7CC3456);
    OneWord(m, 76, 0x380A1A26, 0xBA3C2BE2, 0x0AE55269, 0x7BA06619, 0xE6E60B69);
    OneWord(m, 77, 0x01E02203, 0x0060C000, 0x627B49A1, 0x6380AEA2, 0x00F60A00);
    OneWord(m, 78, 0xE7CC3456, 0x3A37CD05, 0x7CD45C9D, 0x0AE55269, 0x5795EF4F);
    OneWord(m, 79, 0xE6E60B69, 0x458546F4, 0x000F0000, 0x627B49A1, 0x822E0879);
  }

  lemma AbcRounds5(h: Five, m: seq<byte>)
    requires |m| == 64 && IsAbc(m) && h == Five(0x67452301, 0xEFCDAB89, 0x98BADCFE, 0x10325476, 0xC3D2E1F0)
    ensures Rounds(h, m, 5) == Five(0xCFD499DE, 0xCDD8E11B, 0x284E43C2, 0x626414DB, 0xC045BF0C)
  {
    hide W, Rounds, IsAbc;
    AbcWords0(m);
    NoRounds(h, m);
    OneRound(h, m, 0, 0x67452301, 0xEFCDAB89, 0x98BADCFE, 0x10325476, 0xC3D2E1F0, 0x61626380, 0x0116FC33, 0x7BF36AE2);
    OneRound(h, m, 1, 0x0116FC33, 0x67452301, 0x7BF36AE2, 0x98BADCFE, 0x10325476, 0x00000000, 0x8990536D, 0x59D148C0);
    OneRound(h, m, 2, 0x8990536D, 0x0116FC33, 0x59D148C0, 0x7BF36AE2, 0x98BADCFE, 0x00000000, 0xA1390F08, 0xC045BF0C);
    OneRound(h, m, 3, 0xA1390F08, 0x8990536D, 0xC045BF0C, 0x59D148C0, 0x7BF36AE2, 0x00000000, 0xCDD8E11B, 0x626414DB);
    OneRound(h, m, 4, 0xCDD8E11B, 0xA1390F08, 0x626414DB, 0xC045BF0C, 0x59D148C0, 0x00000000, 0xCFD499DE, 0x284E43C2);
  }

  lemma AbcRounds10(h: Five, m: seq<byte>)
    requires |m| == 64 && IsAbc(m) && h == Five(0x67452301, 0xEFCDAB89, 0x98BADCFE, 0x10325476, 0xC3D2E1F0)
    ensures Rounds(h, m, 10) == Five(0x8351F929, 0x4B6AE328, 0x27A301F5, 0x664F8C30, 0x0FF1F290)
  {
    hide W, Rounds, IsAbc;
    AbcWords0(m);
    AbcRounds5(h, m);
    OneRound(h, m, 5, 0xCFD499DE, 0xCDD8E11B, 0x284E43C2, 0x626414DB, 0xC045BF0C, 0x00000000, 0x3FC7CA40, 0xF3763846);
    OneRound(h, m, 6, 0x3FC7CA40, 0xCFD499DE, 0xF3763846, 0x284E43C2, 0x626414DB, 0x00000000, 0x993E30C1, 0xB3F52677);
    OneRound(h, m, 7, 0x993E30C1, 0x3FC7CA40, 0xB3F52677, 0xF3763846, 0x284E43C2, 0x00000000, 0x9E8C07D4, 0x0FF1F290);
    OneRound(h, m, 8, 0x9E8C07D4, 0x993E30C1, 0x0FF1F290, 0xB3F52677, 0xF3763846, 0x00000000, 0x4B6AE328, 0x664F8C30);
    OneRound(h, m, 9, 0x4B6AE328, 0x9E8C07D4, 0x664F8C30, 0x0FF1F290, 0xB3F52677, 0x00000000, 0x8351F929, 0x27A301F5);
  }

  lemma AbcRounds15(h: Five, m: seq<byte>)
    requires |m| == 64 && IsAbc(m) && h == Five(0x67452301, 0xEFCDAB89, 0x98BADCFE, 0x10325476, 0xC3D2E1F0)
    ensures Rounds(h, m, 15) == Five(0x196BEE77, 0x9128F695, 0x1181ED99, 0x18C623F9, 0x7EF6A7A2)
  {
    hide W, Rounds, IsAbc;
    AbcWords0(m);
    AbcRounds10(h, m);
    OneRound(h, m, 10, 0x8351F929, 0x4B6AE328, 0x27A301F5, 0x664F8C30, 0x0FF1F290, 0x00000000, 0xFBDA9E89, 0x12DAB8CA);
    OneRound(h, m, 11, 0xFBDA9E89, 0x8351F929, 0x12DAB8CA, 0x27A301F5, 0x664F8C30, 0x00000000, 0x63188FE4, 0x60D47E4A);
    OneRound(h, m, 12, 0x63188FE4, 0xFBDA9E89, 0x60D47E4A, 0x12DAB8CA, 0x27A301F5, 0x00000000, 0x4607B664, 0x7EF6A7A2);
    OneRound(h, m, 13, 0x4607B664, 0x63188FE4, 0x7EF6A7A2, 0x60D47E4A, 0x12DAB8CA, 0x00000000, 0x9128F695, 0x18C623F9);
    OneRound(h, m, 14, 0x9128F695, 0x4607B664, 0x18C623F9, 0x7EF6A7A2, 0x60D47E4A, 0x00000000, 0x196BEE77, 0x1181ED99);
  }

  lemma AbcRounds20(h: Five, m: seq<byte>)
    requires |m| == 64 && IsAbc(m) && h == Five(0x67452301, 0xEFCDAB89, 0x98BADCFE, 0x10325476, 0xC3D2E1F0)
    ensures Rounds(h, m, 20) == Five(0xFD9E1D7D, 0xDC64901D, 0x20AA99CA, 0xD3A49608, 0xC82F758B)
  {
    hide W, Rounds, IsAbc;
    AbcWords0(m);
    AbcWords16(m);
    AbcRounds15(h, m);
    OneRound(h, m, 15, 0x196BEE77, 0x9128F695, 0x1181ED99, 0x18C623F9, 0x7EF6A7A2, 0x00000018, 0x20BDD62F, 0x644A3DA5);
    OneRound(h, m, 16, 0x20BDD62F, 0x196BEE77, 0x644A3DA5, 0x1181ED99, 0x18C623F9, 0xC2C4C700, 0x4E925823, 0xC65AFB9D);
    OneRound(h, m, 17, 0x4E925823, 0x20BDD62F, 0xC65AFB9D, 0x644A3DA5, 0x1181ED99, 0x00000000, 0x82AA6728, 0xC82F758B);
    OneRound(h, m, 18, 0x82AA6728, 0x4E925823, 0xC82F758B, 0xC65AFB9D, 0x644A3DA5, 0x00000030, 0xDC64901D, 0xD3A49608);
    OneRound(h, m, 19, 0xDC64901D, 0x82AA6728, 0xD3A49608, 0xC82F758B, 0xC65AFB9D, 0x85898E01, 0xFD9E1D7D, 0x20AA99CA);
  }

  lemma AbcRounds25(h: Five, m: seq<byte>)
    requires |m| == 64 && IsAbc(m) && h == Five(0x67452301, 0xEFCDAB89, 0x98BADCFE, 0x10325476, 0xC3D2E1F0)
    ensures Rounds(h, m, 25) == Five(0xC7567DC6, 0xD541F12D, 0x884A0D21, 0x0CE88EFF, 0x868DEC32)
  {
    hide W, Rounds, IsAbc;
    AbcWords16(m);
    AbcRounds20(h, m);
    OneRound(h, m, 20, 0xFD9E1D7D, 0xDC64901D, 0x20AA99CA, 0xD3A49608, 0xC82F758B, 0x00000000, 0x1A37B0CA, 0x77192407);
    OneRound(h, m, 21, 0x1A37B0CA, 0xFD9E1D7D, 0x77192407, 0x20AA99CA, 0xD3A49608, 0x00000060, 0x33A23BFC, 0x7F67875F);
    OneRound(h, m, 22, 0x33A23BFC, 0x1A37B0CA, 0x7F67875F, 0x77192407, 0x20AA99CA, 0x0B131C03, 0x21283486, 0x868DEC32);
    OneRound(h, m, 23, 0x21283486, 0x33A23BFC, 0x868DEC32, 0x7F67875F, 0x77192407, 0x00000030, 0xD541F12D, 0x0CE88EFF);
    OneRound(h, m, 24, 0xD541F12D, 0x21283486, 0x0CE88EFF, 0x868DEC32, 0x7F67875F, 0x85898EC1, 0xC7567DC6, 0x884A0D21);
  }

  lemma AbcRounds30(h: Five, m: seq<byte>)
    requires |m| == 64 && IsAbc(m) && h == Five(0x67452301, 0xEFCDAB89, 0x98BADCFE, 0x10325476, 0xC3D2E1F0)
    ensures Rounds(h, m, 30) == Five(0xC5FBAF5D, 0x8370B52E, 0xD2AA1365, 0x6F8D7EF5, 0x12104EE9)
  {
    hide W, Rounds, IsAbc;
    AbcWords16(m);
    AbcRounds25(h, m);
    OneRound(h, m, 25, 0xC7567DC6, 0xD541F12D, 0x884A0D21, 0x0CE88EFF, 0x868DEC32, 0x16263806, 0x48413BA4, 0x75507C4B);
    OneRound(h, m, 26, 0x48413BA4, 0xC7567DC6, 0x75507C4B, 0x884A0D21, 0x0CE88EFF, 0x00000000, 0xBE35FBD5, 0xB1D59F71);
    OneRound(h, m, 27, 0xBE35FBD5, 0x48413BA4, 0xB1D59F71, 0x75507C4B, 0x884A0D21, 0x00000180, 0x4AA84D97, 0x12104EE9);
    OneRound(h, m, 28, 0x4AA84D97, 0xBE35FBD5, 0x12104EE9, 0xB1D59F71, 0x75507C4B, 0x2C4C700C, 0x8370B52E, 0x6F8D7EF5);
    OneRound(h, m, 29, 0x8370B52E, 0x4AA84D97, 0x6F8D7EF5, 0x12104EE9, 0xB1D59F71, 0x000000F0, 0xC5FBAF5D, 0xD2AA1365);
  }

  lemma AbcRounds35(h: Five, m: seq<byte>)
    requires |m| == 64 && IsAbc(m) && h == Five(0x67452301, 0xEFCDAB89, 0x98BADCFE, 0x10325476, 0xC3D2E1F0)
    ensures Rounds(h, m, 35) == Five(0x21796AD4, 0x2C0EBC11, 0x811BEA82, 0xCEE1174C, 0xC499ED01)
  {
    hide W, Rounds, IsAbc;
    AbcWords16(m);
    AbcWords32(m);
    AbcRounds30(h, m);
    OneRound(h, m, 30, 0xC5FBAF5D, 0x8370B52E, 0xD2AA1365, 0x6F8D7EF5, 0x12104EE9, 0x93AFB507, 0x1267B407, 0xA0DC2D4B);
    OneRound(h, m, 31, 0x1267B407, 0xC5FBAF5D, 0xA0DC2D4B, 0xD2AA1365, 0x6F8D7EF5, 0x5898E048, 0x3B845D33, 0x717EEBD7);
    OneRound(h, m, 32, 0x3B845D33, 0x1267B407, 0x717EEBD7, 0xA0DC2D4B, 0xD2AA1365, 0x8E9A9202, 0x046FAA0A, 0xC499ED01);
    OneRound(h, m, 33, 0x046FAA0A, 0x3B845D33, 0xC499ED01, 0x717EEBD7, 0xA0DC2D4B, 0x00000600, 0x2C0EBC11, 0xCEE1174C);
    OneRound(h, m, 34, 0x2C0EBC11, 0x046FAA0A, 0xCEE1174C, 0xC499ED01, 0x717EEBD7, 0xB131C0F0, 0x21796AD4, 0x811BEA82);
  }

  lemma AbcRounds40(h: Five, m: seq<byte>)
    requires |m| == 64 && IsAbc(m) && h == Five(0x67452301, 0xEFCDAB89, 0x98BADCFE, 0x10325476, 0xC3D2E1F0)
    ensures Rounds(h, m, 40) == Five(0x32DE1CBA, 0x4C986405, 0xF718E5CF, 0x03D447F6, 0xF72EEC32)
  {
    hide W, Rounds, IsAbc;
    AbcWords32(m);
    AbcRounds35(h, m);
    OneRound(h, m, 35, 0x21796AD4, 0x2C0EBC11, 0x811BEA82, 0xCEE1174C, 0xC499ED01, 0x16263BC6, 0xDCBBB0CB, 0x4B03AF04);
    OneRound(h, m, 36, 0xDCBBB0CB, 0x21796AD4, 0x4B03AF04, 0x811BEA82, 0xCEE1174C, 0x4EBED41E, 0x0F511FD8, 0x085E5AB5);
    OneRound(h, m, 37, 0x0F511FD8, 0xDCBBB0CB, 0x085E5AB5, 0x4B03AF04, 0x811BEA82, 0x626380A1, 0xDC63973F, 0xF72EEC32);
    OneRound(h, m, 38, 0xDC63973F, 0x0F511FD8, 0xF72EEC32, 0x085E5AB5, 0x4B03AF04, 0x16263806, 0x4C986405, 0x03D447F6);
    OneRound(h, m, 39, 0x4C986405, 0xDC63973F, 0x03D447F6, 0xF72EEC32, 0x085E5AB5, 0x000018C0, 0x32DE1CBA, 0xF718E5CF);
  }

  lemma AbcRounds45(h: Five, m: seq<byte>)
    requires |m| == 64 && IsAbc(m) && h == Five(0x67452301, 0xEFCDAB89, 0x98BADCFE, 0x10325476, 0xC3D2E1F0)
    ensures Rounds(h, m, 45) == Five(0x40F28E09, 0xEE1B1AAF, 0x5FC64F71, 0x25C28357, 0xFF21F7B7)
  {
    hide W, Rounds, IsAbc;
    AbcWords32(m);
    AbcRounds40(h, m);
    OneRound(h, m, 40, 0x32DE1CBA, 0x4C986405, 0xF718E5CF, 0x03D447F6, 0xF72EEC32, 0xD2E138C4, 0xFC87DEDF, 0x53261901);
    OneRound(h, m, 41, 0xFC87DEDF, 0x32DE1CBA, 0x53261901, 0xF718E5CF, 0x03D447F6, 0x00000F00, 0x970A0D5C, 0x8CB7872E);
    OneRound(h, m, 42, 0x970A0D5C, 0xFC87DEDF, 0x8CB7872E, 0x53261901, 0xF718E5CF, 0x3AFB5079, 0x7F193DC5, 0xFF21F7B7);
    OneRound(h, m, 43, 0x7F193DC5, 0x970A0D5C, 0xFF21F7B7, 0x8CB7872E, 0x53261901, 0x898E04E5, 0xEE1B1AAF, 0x25C28357);
    OneRound(h, m, 44, 0xEE1B1AAF, 0x7F193DC5, 0x25C28357, 0xFF21F7B7, 0x8CB7872E, 0xE2BA3C2B, 0x40F28E09, 0x5FC64F71);
  }

  lemma AbcRounds50(h: Five, m: seq<byte>)
    requires |m| == 64 && IsAbc(m) && h == Five(0x67452301, 0xEFCDAB89, 0x98BADCFE, 0x10325476, 0xC3D2E1F0)
    ensures Rounds(h, m, 50) == Five(0x120731C5, 0xBAF39337, 0xAFAB40B2, 0x2806E11B, 0x8714787C)
  {
    hide W, Rounds, IsAbc;
    AbcWords32(m);
    AbcWords48(m);
    AbcRounds45(h, m);
    OneRound(h, m, 45, 0x40F28E09, 0xEE1B1AAF, 0x5FC64F71, 0x25C28357, 0xFF21F7B7, 0x000060C0, 0x1C51E1F2, 0xFB86C6AB);
    OneRound(h, m, 46, 0x1C51E1F2, 0x40F28E09, 0xFB86C6AB, 0x5FC64F71, 0x25C28357, 0x053A37CD, 0xA01B846C, 0x503CA382);
    OneRound(h, m, 47, 0xA01B846C, 0x1C51E1F2, 0x503CA382, 0xFB86C6AB, 0x5FC64F71, 0x74458547, 0xBEAD02CA, 0x8714787C);
    OneRound(h, m, 48, 0xBEAD02CA, 0xA01B846C, 0x8714787C, 0x503CA382, 0xFB86C6AB, 0xDA9415ED, 0xBAF39337, 0x2806E11B);
    OneRound(h, m, 49, 0xBAF39337, 0xBEAD02CA, 0x2806E11B, 0x8714787C, 0x503CA382, 0x26380A16, 0x120731C5, 0xAFAB40B2);
  }

  lemma AbcRounds55(h: Five, m: seq<byte>)
    requires |m| == 64 && IsAbc(m) && h == Five(0x67452301, 0xEFCDAB89, 0x98BADCFE, 0x10325476, 0xC3D2E1F0)
    ensures Rounds(h, m, 55) == Five(0x7B71F76D, 0x27E9F1D8, 0x792410DB, 0x8E11EB59, 0x99076CB3)
  {
    hide W, Rounds, IsAbc;
    AbcWords48(m);
    AbcRounds50(h, m);
    OneRound(h, m, 50, 0x120731C5, 0xBAF39337, 0xAFAB40B2, 0x2806E11B, 0x8714787C, 0x626383A1, 0x641DB2CE, 0xEEBCE4CD);
    OneRound(h, m, 51, 0x641DB2CE, 0x120731C5, 0xEEBCE4CD, 0xAFAB40B2, 0x2806E11B, 0x4EBF54DE, 0x3847AD66, 0x4481CC71);
    OneRound(h, m, 52, 0x3847AD66, 0x641DB2CE, 0x4481CC71, 0xEEBCE4CD, 0xAFAB40B2, 0x3835B44B, 0xE490436D, 0x99076CB3);
    OneRound(h, m, 53, 0xE490436D, 0x3847AD66, 0x99076CB3, 0x4481CC71, 0xEEBCE4CD, 0x0000F600, 0x27E9F1D8, 0x8E11EB59);
    OneRound(h, m, 54, 0x27E9F1D8, 0xE490436D, 0x8E11EB59, 0x99076CB3, 0x4481CC71, 0x1E84C7A3, 0x7B71F76D, 0x792410DB);
  }

  lemma AbcRounds60(h: Five, m: seq<byte>)
    requires |m| == 64 && IsAbc(m) && h == Five(0x67452301, 0xEFCDAB89, 0x98BADCFE, 0x10325476, 0xC3D2E1F0)
    ensures Rounds(h, m, 60) == Five(0x3F52DE5A, 0x09D785FD, 0x3498BFD4, 0xF211824F, 0xD79915AB)
  {
    hide W, Rounds, IsAbc;
    AbcWords48(m);
    AbcRounds55(h, m);
    OneRound(h, m, 55, 0x7B71F76D, 0x27E9F1D8, 0x792410DB, 0x8E11EB59, 0x99076CB3, 0x98E04D98, 0x5E6456AF, 0x09FA7C76);
    OneRound(h, m, 56, 0x5E6456AF, 0x7B71F76D, 0x09FA7C76, 0x792410DB, 0x8E11EB59, 0x651D16A0, 0xC846093F, 0x5EDC7DDB);
    OneRound(h, m, 57, 0xC846093F, 0x5E6456AF, 0x5EDC7DDB, 0x09FA7C76, 0x792410DB, 0x62658CA1, 0xD262FF50, 0xD79915AB);
    OneRound(h, m, 58, 0xD262FF50, 0xC846093F, 0xD79915AB, 0x5EDC7DDB, 0x09FA7C76, 0x458544D6, 0x09D785FD, 0xF211824F);
    OneRound(h, m, 59, 0x09D785FD, 0xD262FF50, 0xF211824F, 0xD79915AB, 0x5EDC7DDB, 0x44584CB7, 0x3F52DE5A, 0x3498BFD4);
  }

  lemma AbcRounds65(h: Five, m: seq<byte>)
    requires |m| == 64 && IsAbc(m) && h == Five(0x67452301, 0xEFCDAB89, 0x98BADCFE, 0x10325476, 0xC3D2E1F0)
    ensures Rounds(h, m, 65) == Five(0x19DFA7AC, 0x6B61C9E1, 0xED9B0082, 0x9523272C, 0xF5D5B051)
  {
    hide W, Rounds, IsAbc;
    AbcWords48(m);
    AbcWords64(m);
    AbcRounds60(h, m);
    OneRound(h, m, 60, 0x3F52DE5A, 0x09D785FD, 0x3498BFD4, 0xF211824F, 0xD79915AB, 0x7BA06619, 0xD756C147, 0x4275E17F);
    OneRound(h, m, 61, 0xD756C147, 0x3F52DE5A, 0x4275E17F, 0x3498BFD4, 0xF211824F, 0x6380AEA2, 0x548C9CB2, 0x8FD4B796);
    OneRound(h, m, 62, 0x548C9CB2, 0xD756C147, 0x8FD4B796, 0x4275E17F, 0x3498BFD4, 0x0AE55269, 0xB66C020B, 0xF5D5B051);
    OneRound(h, m, 63, 0xB66C020B, 0x548C9CB2, 0xF5D5B051, 0x8FD4B796, 0x4275E17F, 0x627B49A1, 0x6B61C9E1, 0x9523272C);
    OneRound(h, m, 64, 0x6B61C9E1, 0xB66C020B, 0x9523272C, 0xF5D5B051, 0x8FD4B796, 0x7CD45C9D, 0x19DFA7AC, 0xED9B0082);
  }

  lemma AbcRounds70(h: Five, m: seq<byte>)
    requires |m| == 64 && IsAbc(m) && h == Five(0x67452301, 0xEFCDAB89, 0x98BADCFE, 0x10325476, 0xC3D2E1F0)
    ensures Rounds(h, m, 70) == Five(0x3F2588C2, 0x497093C0, 0xDE37534A, 0x030F7CAD, 0x4405957E)
  {
    hide W, Rounds, IsAbc;
    AbcWords64(m);
    AbcRounds65(h, m);
    OneRound(h, m, 65, 0x19DFA7AC, 0x6B61C9E1, 0xED9B0082, 0x9523272C, 0xF5D5B051, 0x000F0000, 0x101655F9, 0x5AD87278);
    OneRound(h, m, 66, 0x101655F9, 0x19DFA7AC, 0x5AD87278, 0xED9B0082, 0x9523272C, 0xFB50753A, 0x0C3DF2B4, 0x0677E9EB);
    OneRound(h, m, 67, 0x0C3DF2B4, 0x101655F9, 0x0677E9EB, 0x5AD87278, 0xED9B0082, 0xEC6765E8, 0x78DD4D2B, 0x4405957E);
    OneRound(h, m, 68, 0x78DD4D2B, 0x0C3DF2B4, 0x4405957E, 0x0677E9EB, 0x5AD87278, 0xBA3C2BE2, 0x497093C0, 0x030F7CAD);
    OneRound(h, m, 69, 0x497093C0, 0x78DD4D2B, 0x030F7CAD, 0x4405957E, 0x0677E9EB, 0x0060C000, 0x3F2588C2, 0xDE37534A);
  }

  lemma AbcRounds75(h: Five, m: seq<byte>)
    requires |m| == 64 && IsAbc(m) && h == Five(0x67452301, 0xEFCDAB89, 0x98BADCFE, 0x10325476, 0xC3D2E1F0)
    ensures Rounds(h, m, 75) == Five(0x5EE76897, 0x11793F6F, 0x3B6D0B79, 0xCE616779, 0xF0667E31)
  {
    hide W, Rounds, IsAbc;
    AbcWords64(m);
    AbcRounds70(h, m);
    OneRound(h, m, 70, 0x3F2588C2, 0x497093C0, 0xDE37534A, 0x030F7CAD, 0x4405957E, 0x3A37CD05, 0xC199F8C7, 0x125C24F0);
    OneRound(h, m, 71, 0xC199F8C7, 0x3F2588C2, 0x125C24F0, 0xDE37534A, 0x030F7CAD, 0x458546F4, 0x39859DE7, 0x8FC96230);
    OneRound(h, m, 72, 0x39859DE7, 0xC199F8C7, 0x8FC96230, 0x125C24F0, 0xDE37534A, 0xB8599DD6, 0xEDB42DE4, 0xF0667E31);
    OneRound(h, m, 73, 0xEDB42DE4, 0x39859DE7, 0xF0667E31, 0x8FC96230, 0x125C24F0, 0x380A1A26, 0x11793F6F, 0xCE616779);
    OneRound(h, m, 74, 0x11793F6F, 0xEDB42DE4, 0xCE616779, 0xF0667E31, 0x8FC96230, 0x01E02203, 0x5EE76897, 0x3B6D0B79);
  }

  lemma AbcRounds80(h: Five, m: seq<byte>)
    requires |m| == 64 && IsAbc(m) && h == Five(0x67452301, 0xEFCDAB89, 0x98BADCFE, 0x10325476, 0xC3D2E1F0)
    ensures Rounds(h, m, 80) == Five(0x42541B35, 0x5738D5E1, 0x21834873, 0x681E6DF6, 0xD8FDF6AD)
  {
    hide W, Rounds, IsAbc;
    AbcWords64(m);
    AbcRounds75(h, m);
    OneRound(h, m, 75, 0x5EE76897, 0x11793F6F, 0x3B6D0B79, 0xCE616779, 0xF0667E31, 0xE7CC3456, 0x63F7DAB7, 0xC45E4FDB);
    OneRound(h, m, 76, 0x63F7DAB7, 0x5EE76897, 0xC45E4FDB, 0x3B6D0B79, 0xCE616779, 0xE6E60B69, 0xA079B7D9, 0xD7B9DA25);
    OneRound(h, m, 77, 0xA079B7D9, 0x63F7DAB7, 0xD7B9DA25, 0xC45E4FDB, 0x3B6D0B79, 0x00F60A00, 0x860D21CC, 0xD8FDF6AD);
    OneRound(h, m, 78, 0x860D21CC, 0xA079B7D9, 0xD8FDF6AD, 0xD7B9DA25, 0xC45E4FDB, 0x5795EF4F, 0x5738D5E1, 0x681E6DF6);
    OneRound(h, m, 79, 0x5738D5E1, 0x860D21CC, 0x681E6DF6, 0xD8FDF6AD, 0xD7B9DA25, 0x822E0879, 0x42541B35, 0x21834873);
  }

  lemma AbcPadded()
    ensures IsAbc(Padded([0x61, 0x62, 0x63]))
  {
    hide BigEndian;
    TwentyFour();
    var m: seq<byte> := [0x61, 0x62, 0x63];
    var z := Zeros(52) + (Zeros(7) + [24]);
    assert Padded(m) == m + [0x80] + Zeros(52) + (Zeros(7) + [24]);
    assert Padded(m) == [0x61, 0x62, 0x63, 0x80] + Zeros(59) + [24];
  }

  lemma TwentyFour()
    ensures BigEndian(24, 8) == Zeros(7) + [24]
  {
    NoughtOctets(7);
  }

  lemma {:induction false} NoughtOctets(k: nat)
    ensures BigEndian(0, k) == Zeros(k)
  {
    if k > 0 {
      NoughtOctets(k - 1);
      assert Zeros(k) == Zeros(k - 1) + [0];
    }
  }

  lemma OneBlock(h: Five, m: seq<byte>)
    requires |m| == 64
    ensures Blocks(h, m) == Add(h, Rounds(h, m, 80))
  {
    assert m[..0] == [] && m[0..] == m;
  }

  /** The known answer of appendix A of FIPS PUB 180-1. */
  lemma DigestOfAbc()
    ensures Digest([0x61, 0x62, 0x63]) == Five(0xA9993E36, 0x4706816A, 0xBA3E2571, 0x7850C26C, 0x9CD0D89D)
  {
    hide Rounds, Padded, IsAbc, Blocks;
    var m := Padded([0x61, 0x62, 0x63]);
    AbcPadded();
    AbcLength(m);
    OneBlock(H0, m);
    AbcRounds80(H0, m);
  }

  lemma AbcLength(m: seq<byte>)
    requires IsAbc(m)
    ensures |m| == 64
  {
  }
}
