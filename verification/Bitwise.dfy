/** The bitwise operations of `Bytes` and `Sha1` are those of the machine: stated on bits, and on bit-vectors. */
module Bitwise {
  import opened Bytes
  import Sha1

  // ---- Bit by bit

  /** Bit i of a number. */
  function BitAt(a: nat, i: nat): nat {
    Shifted(a, i) % 2
  }

  function Shifted(a: nat, i: nat): (r: nat) {
    if i == 0 then a else Shifted(a / 2, i - 1)
  }

  lemma {:induction false} ShiftedIs(a: nat, i: nat)
    ensures Shifted(a, i) == a / Pow2(i)
  {
    if i > 0 {
      ShiftedIs(a / 2, i - 1);
      DivTwice(a, Pow2(i - 1));
    }
  }

  lemma DivTwice(a: nat, p: nat)
    requires p > 0
    ensures a / 2 / p == a / (2 * p)
  {
    var q, r := a / 2 / p, a / 2 % p;
    assert a / 2 == q * p + r;
    var s := 2 * r + a % 2;
    assert a == q * (2 * p) + s && 0 <= s < 2 * p;
    QuotientIs(a, 2 * p, q, s);
  }

  lemma QuotientIs(a: nat, p: nat, q: nat, s: nat)
    requires 0 <= s < p && a == q * p + s
    ensures a / p == q
  {
    var d := a / p;
    assert a == d * p + a % p;
    Difference(d, q, p);
    NoMultiple(d - q, p);
    NoMultiple(q - d, p);
  }

  lemma Difference(d: int, q: int, p: int)
    ensures (d - q) * p == d * p - q * p && (q - d) * p == q * p - d * p
  {
  }

  lemma NoMultiple(k: int, p: int)
    requires p > 0 && k * p < p
    ensures k <= 0
  {
    if k > 0 {
      Sha1.AtLeast(p, k);
    }
  }

  lemma {:induction false} BitsAt(op: BitOp, a: nat, b: nat, n: nat, i: nat)
    requires i < n
    ensures BitAt(Bits(op, a, b, n), i) == op.Bit(BitAt(a, i), BitAt(b, i))
  {
    hide BitOp.Bit;
    var high, low := Bits(op, a / 2, b / 2, n - 1), op.Bit(a % 2, b % 2);
    BitsStep(op, a, b, n);
    LowBit(high, low);
    if i > 0 {
      BitsAt(op, a / 2, b / 2, n - 1, i - 1);
    }
  }

  function Digit(x: nat, i: nat): (r: nat)
    ensures r < 2
  {
    x / Pow2(i) % 2
  }

  lemma DigitIs(a: nat, i: nat)
    ensures Digit(a, i) == BitAt(a, i)
  {
    ShiftedIs(a, i);
  }

  lemma XorDigits(a: byte, b: byte, i: nat)
    requires i < 8
    ensures Digit(Xor(a, b), i) == XorOp.Bit(Digit(a, i), Digit(b, i))
  {
    hide Bits, BitAt, Digit, BitOp.Bit;
    BitsAt(XorOp, a, b, 8, i);
    DigitIs(a, i);
    DigitIs(b, i);
    DigitIs(Xor(a, b), i);
  }

  /** Exclusive or: a bit of the result is 0 exactly where the operands agree. */
  lemma XorBits(a: byte, b: byte, i: nat)
    requires i < 8
    ensures Xor(a, b) / Pow2(i) % 2 == if a / Pow2(i) % 2 == b / Pow2(i) % 2 then 0 else 1
  {
    hide Xor, Pow2;
    XorDigits(a, b, i);
  }

  /** The operations on words, each bit at its place. */
  lemma AndBits(x: Sha1.word, y: Sha1.word, i: nat)
    requires i < 32
    ensures Digit(Sha1.And(x, y), i) == if Digit(x, i) == 1 && Digit(y, i) == 1 then 1 else 0
  {
    hide Bits, BitAt, Digit;
    BitsAt(AndOp, x, y, 32, i);
    DigitIs(x, i);
    DigitIs(y, i);
    DigitIs(Sha1.And(x, y), i);
  }

  lemma OrBits(x: Sha1.word, y: Sha1.word, i: nat)
    requires i < 32
    ensures Digit(Sha1.Or(x, y), i) == if Digit(x, i) == 1 || Digit(y, i) == 1 then 1 else 0
  {
    hide Bits, BitAt, Digit;
    BitsAt(OrOp, x, y, 32, i);
    DigitIs(x, i);
    DigitIs(y, i);
    DigitIs(Sha1.Or(x, y), i);
  }

  lemma WordXorBits(x: Sha1.word, y: Sha1.word, i: nat)
    requires i < 32
    ensures Digit(Sha1.Bitwise(XorOp, x, y), i) == (Digit(x, i) + Digit(y, i)) % 2
  {
    hide Bits, BitAt, Digit;
    BitsAt(XorOp, x, y, 32, i);
    DigitIs(x, i);
    DigitIs(y, i);
    DigitIs(Sha1.Bitwise(XorOp, x, y), i);
  }

  lemma Xor3Bits(x: Sha1.word, y: Sha1.word, z: Sha1.word, i: nat)
    requires i < 32
    ensures Digit(Sha1.Xor3(x, y, z), i) == (Digit(x, i) + Digit(y, i) + Digit(z, i)) % 2
  {
    hide Sha1.Bitwise, Digit;
    WordXorBits(x, y, i);
    WordXorBits(Sha1.Bitwise(XorOp, x, y), z, i);
  }

  lemma {:induction false} NotBits(x: nat, n: nat, i: nat)
    requires i < n && x < Pow2(n)
    ensures BitAt(Pow2(n) - 1 - x, i) == 1 - BitAt(x, i)
  {
    var y := Pow2(n) - 1 - x;
    assert y % 2 == 1 - x % 2 && y / 2 == Pow2(n - 1) - 1 - x / 2;
    if i > 0 {
      NotBits(x / 2, n - 1, i - 1);
    }
  }

  lemma WordNotBits(x: Sha1.word, i: nat)
    requires i < 32
    ensures Digit(Sha1.Not(x), i) == 1 - Digit(x, i)
  {
    hide BitAt, Digit;
    Sha1.WordSize();
    NotBits(x, 32, i);
    DigitIs(x, i);
    DigitIs(Sha1.Not(x), i);
  }

  // ---- Rotation

  lemma {:induction false} Pow2Sum(m: nat, n: nat)
    ensures Pow2(m + n) == Pow2(m) * Pow2(n)
  {
    if m > 0 {
      Pow2Sum(m - 1, n);
    }
  }

  lemma ShiftsAre(n: nat, x: Sha1.word)
    requires 0 < n < 32
    ensures Sha1.Shl(x, n) == x % Pow2(32 - n) * Pow2(n) && Sha1.Shr(x, 32 - n) == x / Pow2(32 - n)
  {
    hide Pow2;
    Sha1.WordSize();
    Pow2Sum(n, 32 - n);
    ShiftKeeps(x, Pow2(n), Pow2(32 - n));
  }

  lemma RotationFits(n: nat, x: Sha1.word)
    requires 0 < n < 32
    ensures x % Pow2(32 - n) * Pow2(n) < Pow2(32) && x / Pow2(32 - n) < Pow2(n)
  {
    hide Pow2;
    Sha1.WordSize();
    Pow2Sum(n, 32 - n);
    LessTimes(x % Pow2(32 - n), Pow2(32 - n), Pow2(n));
    QuotientBelow(x, Pow2(n), Pow2(32 - n));
  }

  /** A rotation: the high bits become the low ones, and none is lost. */
  lemma RotationIs(n: nat, x: Sha1.word)
    requires 0 < n < 32
    ensures Sha1.Rotl(n, x) == x % Pow2(32 - n) * Pow2(n) + x / Pow2(32 - n)
  {
    hide Bits, Pow2, Sha1.Shl, Sha1.Shr;
    ShiftsAre(n, x);
    RotationFits(n, x);
    OrIsSum(x % Pow2(32 - n), x / Pow2(32 - n), n, 32);
  }

  lemma ShiftKeeps(x: nat, p: nat, q: nat)
    requires p > 0 && q > 0
    ensures x * p % (p * q) == x % q * p
  {
    var d, r := x / q, x % q;
    assert x == d * q + r;
    assert x * p == d * (p * q) + r * p by { Distribute(d, q, r, p); }
    assert 0 <= r * p < p * q by { LessTimes(r, q, p); }
    QuotientIs(x * p, p * q, d, r * p);
    assert x * p == x * p / (p * q) * (p * q) + x * p % (p * q);
  }

  lemma Distribute(d: nat, q: nat, r: nat, p: nat)
    ensures (d * q + r) * p == d * (p * q) + r * p
  {
    assert (d * q + r) * p == d * q * p + r * p;
    MulAssoc(d, q, p);
    assert d * q * p == d * (q * p) && q * p == p * q;
  }

  lemma LessTimes(r: nat, q: nat, p: nat)
    requires r < q && p > 0
    ensures r * p < p * q
  {
    Sha1.AtLeast(p, q - r);
    assert (q - r) * p == p * (q - r);
    Difference(q, r, p);
  }

  lemma QuotientBelow(x: nat, p: nat, q: nat)
    requires x < p * q && q > 0
    ensures x / q < p
  {
    var d := x / q;
    assert x == d * q + x % q;
    if d >= p {
      assert (d - p) * q >= 0;
      Difference(d, p, q);
    }
  }

  // ---- On bit-vectors

  lemma Halves(x: bv8)
    ensures (x >> 1) as int == x as int / 2 && (x & 1) as int == x as int % 2
  {
    assert x as int == 2 * ((x >> 1) as int) + ((x & 1) as int);
  }

  /** The operation on bit-vectors. */
  function On8(op: BitOp, x: bv8, y: bv8): bv8 {
    match op case AndOp => x & y case OrOp => x | y case XorOp => x ^ y
  }

  lemma HalvesOf(op: BitOp, x: bv8, y: bv8)
    ensures On8(op, x, y) >> 1 == On8(op, x >> 1, y >> 1) && On8(op, x, y) & 1 == On8(op, x & 1, y & 1)
  {
    AndHalves(x, y);
    OrHalves(x, y);
    XorHalves(x, y);
  }

  lemma AndHalves(x: bv8, y: bv8)
    ensures (x & y) >> 1 == (x >> 1) & (y >> 1) && (x & y) & 1 == (x & 1) & (y & 1)
  {
  }

  lemma OrHalves(x: bv8, y: bv8)
    ensures (x | y) >> 1 == (x >> 1) | (y >> 1) && (x | y) & 1 == (x & 1) | (y & 1)
  {
  }

  lemma XorHalves(x: bv8, y: bv8)
    ensures (x ^ y) >> 1 == (x >> 1) ^ (y >> 1) && (x ^ y) & 1 == (x & 1) ^ (y & 1)
  {
  }

  lemma LowestBit(op: BitOp, x: bv8, y: bv8)
    requires x <= 1 && y <= 1
    ensures x as int < 2 && y as int < 2
    ensures On8(op, x, y) as int == op.Bit(x as int, y as int)
  {
  }

  /** The same about numbers. */
  lemma OctetStep(op: BitOp, x: bv8, y: bv8)
    ensures On8(op, x, y) as int
         == 2 * (On8(op, x >> 1, y >> 1) as int) + op.Bit(x as int % 2, y as int % 2)
  {
    hide On8, BitOp.Bit;
    Halves(x);
    Halves(y);
    Halves(On8(op, x, y));
    HalvesOf(op, x, y);
    LowestBit(op, x & 1, y & 1);
  }

  lemma {:induction false} OctetOp(op: BitOp, x: bv8, y: bv8, n: nat)
    requires n <= 8 && x as int < Pow2(n) && y as int < Pow2(n)
    ensures Bits(op, x as int, y as int, n) == On8(op, x, y) as int
  {
    hide On8, BitOp.Bit, Bits, Pow2;
    Lower(x as int, n);
    Lower(y as int, n);
    if n > 0 {
      Halves(x);
      Halves(y);
      OctetStep(op, x, y);
      OctetOp(op, x >> 1, y >> 1, n - 1);
      BitsStep(op, x as int, y as int, n);
    } else {
      Nothing(op);
      NoBits(op, x as int, y as int);
    }
  }

  lemma Lower(a: nat, n: nat)
    requires a < Pow2(n)
    ensures if n == 0 then a == 0 else a / 2 < Pow2(n - 1)
  {
  }

  lemma Nothing(op: BitOp)
    ensures On8(op, 0, 0) == 0
  {
  }

  /** Masking is the machine's own exclusive or. */
  lemma XorOctets(x: bv8, y: bv8)
    ensures Xor(x as int, y as int) == (x ^ y) as int
  {
    hide Bits;
    assert Pow2(8) == 256;
    OctetOp(XorOp, x, y, 8);
  }

  lemma {:induction false} BitsSplit(op: BitOp, h: nat, l: nat, h': nat, l': nat, n: nat, k: nat)
    requires l < Pow2(k) && l' < Pow2(k)
    ensures Bits(op, h * Pow2(k) + l, h' * Pow2(k) + l', n + k) == Bits(op, h, h', n) * Pow2(k) + Bits(op, l, l', k)
  {
    hide Bits, BitOp.Bit;
    if k > 0 {
      var p := Pow2(k - 1);
      BitsSplit(op, h, l / 2, h', l' / 2, n, k - 1);
      SplitStep(op, h, l, h', l', p, n, k);
    } else {
      NoBits(op, l, l');
      assert h * 1 + l == h && h' * 1 + l' == h';
    }
  }

  lemma SplitStep(op: BitOp, h: nat, l: nat, h': nat, l': nat, p: nat, n: nat, k: nat)
    requires k > 0
    requires Bits(op, h * p + l / 2, h' * p + l' / 2, n + k - 1)
          == Bits(op, h, h', n) * p + Bits(op, l / 2, l' / 2, k - 1)
    ensures Bits(op, h * (2 * p) + l, h' * (2 * p) + l', n + k) == Bits(op, h, h', n) * (2 * p) + Bits(op, l, l', k)
  {
    hide Bits, BitOp.Bit;
    HalfOf(h, l, p);
    HalfOf(h', l', p);
    BitsStep(op, h * (2 * p) + l, h' * (2 * p) + l', n + k);
    BitsStep(op, l, l', k);
    TwiceTimes(Bits(op, h, h', n), p);
  }

  lemma TwiceTimes(b: nat, p: nat)
    ensures b * (2 * p) == 2 * (b * p)
  {
  }

  lemma NoBits(op: BitOp, a: nat, b: nat)
    ensures Bits(op, a, b, 0) == 0 && Pow2(0) == 1
  {
  }

  lemma HalfOf(h: nat, l: nat, p: nat)
    ensures (h * (2 * p) + l) / 2 == h * p + l / 2 && (h * (2 * p) + l) % 2 == l % 2
  {
    TwiceTimes(h, p);
  }

  /** One octet more. */
  lemma OctetMore(op: BitOp, v: nat, v': nat, h: nat, h': nat, l: byte, l': byte, n: nat)
    requires v == h * 256 + l && v' == h' * 256 + l'
    ensures Bits(op, v, v', n + 8) == Bits(op, h, h', n) * 256 + Bits(op, l, l', 8)
  {
    hide Bits;
    assert Pow2(8) == 256;
    BitsSplit(op, h, l, h', l', n, 8);
  }

  /** Four octets, the highest first, as a number and as a word. */
  function Number(a: nat, b: nat, c: nat, d: nat): nat {
    ((a * 256 + b) * 256 + c) * 256 + d
  }

  function Joined(a: bv8, b: bv8, c: bv8, d: bv8): bv32 {
    ((a as bv32) << 24) | ((b as bv32) << 16) | ((c as bv32) << 8) | (d as bv32)
  }

  /** One octet after a number. */
  function Then(v: nat, l: nat): nat {
    v * 256 + l
  }

  lemma ThenOp(op: BitOp, v: nat, v': nat, l: byte, l': byte, n: nat)
    ensures Bits(op, Then(v, l), Then(v', l'), n + 8) == Then(Bits(op, v, v', n), Bits(op, l, l', 8))
  {
    hide Bits;
    OctetMore(op, Then(v, l), Then(v', l'), v, v', l, l', n);
  }

  lemma NumberOp(op: BitOp, a: byte, b: byte, c: byte, d: byte, e: byte, f: byte, g: byte, h: byte)
    ensures Bits(op, Number(a, b, c, d), Number(e, f, g, h), 32)
         == Number(Bits(op, a, e, 8), Bits(op, b, f, 8), Bits(op, c, g, 8), Bits(op, d, h, 8))
  {
    hide Bits, Number, Then;
    ThenOp(op, a, e, b, f, 8);
    ThenOp(op, Then(a, b), Then(e, f), c, g, 16);
    ThenOp(op, Then(Then(a, b), c), Then(Then(e, f), g), d, h, 24);
    OneAfterOther(a, b, c, d);
    OneAfterOther(e, f, g, h);
    OneAfterOther(Bits(op, a, e, 8), Bits(op, b, f, 8), Bits(op, c, g, 8), Bits(op, d, h, 8));
  }

  lemma Together(a: bv8, b: bv8, c: bv8, d: bv8)
    ensures (((a as bv32) << 24) | ((b as bv32) << 16) | ((c as bv32) << 8) | (d as bv32)) as int
         == (((a as int) * 256 + (b as int)) * 256 + (c as int)) * 256 + (d as int)
  {
  }

  lemma JoinedIs(a: bv8, b: bv8, c: bv8, d: bv8)
    ensures Joined(a, b, c, d) == ((a as bv32) << 24) | ((b as bv32) << 16) | ((c as bv32) << 8) | (d as bv32)
  {
  }

  lemma NumberIs(a: nat, b: nat, c: nat, d: nat)
    ensures Number(a, b, c, d) == ((a * 256 + b) * 256 + c) * 256 + d
  {
  }

  lemma OneAfterOther(a: nat, b: nat, c: nat, d: nat)
    ensures Number(a, b, c, d) == Then(Then(Then(a, b), c), d)
  {
  }

  lemma JoinedNumber(a: bv8, b: bv8, c: bv8, d: bv8)
    ensures Joined(a, b, c, d) as int == Number(a as int, b as int, c as int, d as int)
  {
    hide Joined, Number;
    JoinedIs(a, b, c, d);
    Together(a, b, c, d);
    NumberIs(a as int, b as int, c as int, d as int);
  }

  lemma Parts(p: bv32) returns (a: bv8, b: bv8, c: bv8, d: bv8)
    ensures p == Joined(a, b, c, d)
  {
    a, b, c, d := (p >> 24) as bv8, ((p >> 16) & 0xff) as bv8, ((p >> 8) & 0xff) as bv8, (p & 0xff) as bv8;
  }

  lemma AndJoined(a: bv8, b: bv8, c: bv8, d: bv8, e: bv8, f: bv8, g: bv8, h: bv8)
    ensures (((a as bv32) << 24) | ((b as bv32) << 16) | ((c as bv32) << 8) | (d as bv32))
            & (((e as bv32) << 24) | ((f as bv32) << 16) | ((g as bv32) << 8) | (h as bv32))
         == (((a & e) as bv32) << 24) | (((b & f) as bv32) << 16) | (((c & g) as bv32) << 8) | ((d & h) as bv32)
  {
  }

  lemma AndOf(a: bv8, b: bv8, c: bv8, d: bv8, e: bv8, f: bv8, g: bv8, h: bv8)
    ensures Joined(a, b, c, d) & Joined(e, f, g, h) == Joined(a & e, b & f, c & g, d & h)
  {
    hide Joined;
    AndJoined(a, b, c, d, e, f, g, h);
    JoinedIs(a, b, c, d);
    JoinedIs(e, f, g, h);
    JoinedIs(a & e, b & f, c & g, d & h);
  }

  /** And on words is the machine's own. */
  lemma WordAndIsMachine(p: bv32, q: bv32)
    ensures Bits(AndOp, p as int, q as int, 32) == (p & q) as int
  {
    hide Bits, Joined;
    var a, b, c, d := Parts(p);
    var e, f, g, h := Parts(q);
    var r, i, j, k, l := AndParts(p, q, a, b, c, d, e, f, g, h);
    AndOctet(a, e);
    AndOctet(b, f);
    AndOctet(c, g);
    AndOctet(d, h);
    FromOctets(AndOp, p, q, r, a, b, c, d, e, f, g, h, i, j, k, l);
  }

  lemma AndParts(p: bv32, q: bv32, a: bv8, b: bv8, c: bv8, d: bv8, e: bv8, f: bv8, g: bv8, h: bv8)
    returns (r: bv32, i: bv8, j: bv8, k: bv8, l: bv8)
    requires p == Joined(a, b, c, d) && q == Joined(e, f, g, h)
    ensures r == p & q && r == Joined(i, j, k, l)
    ensures i == a & e && j == b & f && k == c & g && l == d & h
  {
    hide Joined;
    AndOf(a, b, c, d, e, f, g, h);
    r, i, j, k, l := p & q, a & e, b & f, c & g, d & h;
  }

  lemma AndOctet(x: bv8, y: bv8)
    ensures Bits(AndOp, x as int, y as int, 8) == (x & y) as int
  {
    hide Bits;
    OctetWhole(AndOp, x, y);
  }

  lemma FromOctets(op: BitOp, p: bv32, q: bv32, r: bv32, a: bv8, b: bv8, c: bv8, d: bv8, e: bv8, f: bv8, g: bv8, h: bv8,
                   i: bv8, j: bv8, k: bv8, l: bv8)
    requires p == Joined(a, b, c, d) && q == Joined(e, f, g, h) && r == Joined(i, j, k, l)
    requires Bits(op, a as int, e as int, 8) == i as int && Bits(op, b as int, f as int, 8) == j as int
    requires Bits(op, c as int, g as int, 8) == k as int && Bits(op, d as int, h as int, 8) == l as int
    ensures Bits(op, p as int, q as int, 32) == r as int
  {
    hide Bits, Joined, Number;
    JoinedNumber(a, b, c, d);
    JoinedNumber(e, f, g, h);
    JoinedNumber(i, j, k, l);
    NumberOp(op, a as int, b as int, c as int, d as int, e as int, f as int, g as int, h as int);
  }

  lemma OctetWhole(op: BitOp, x: bv8, y: bv8)
    ensures Bits(op, x as int, y as int, 8) == On8(op, x, y) as int
  {
    hide Bits, On8;
    assert Pow2(8) == 256;
    OctetOp(op, x, y, 8);
  }
}
