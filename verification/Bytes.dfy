/** Octets, machine integers, bitwise operations, big-endian integers, C strings and buffers. */
module Bytes {

  type byte = x: int | 0 <= x < 256
  type int32 = x: int | -0x8000_0000 <= x < 0x8000_0000
  type uint32 = x: int | 0 <= x < 0x1_0000_0000
  type uint64 = x: int | 0 <= x < 0x1_0000_0000_0000_0000

  datatype Option<T> = None | Some(value: T)

  function Pow2(n: nat): (r: nat)
    ensures r > 0
  {
    if n == 0 then 1 else 2 * Pow2(n - 1)
  }

  datatype BitOp = AndOp | OrOp | XorOp {
    function Bit(a: nat, b: nat): (r: nat)
      requires a < 2 && b < 2
      ensures r < 2
    {
      match this
      case AndOp => a * b
      case OrOp => if a + b > 0 then 1 else 0
      case XorOp => (a + b) % 2
    }
  }

  /** The operation on the low n bits of a and b, bit by bit. */
  function Bits(op: BitOp, a: nat, b: nat, n: nat): (r: nat)
    ensures r < Pow2(n)
  {
    if n == 0 then 0 else 2 * Bits(op, a / 2, b / 2, n - 1) + op.Bit(a % 2, b % 2)
  }

  function Xor(a: byte, b: byte): byte {
    assert Pow2(8) == 256;
    Bits(XorOp, a, b, 8)
  }

  lemma {:induction false} XorBitsCancel(a: nat, b: nat, n: nat)
    requires a < Pow2(n)
    ensures Bits(XorOp, Bits(XorOp, a, b, n), b, n) == a
  {
    if n > 0 {
      var x := Bits(XorOp, a, b, n);
      XorBitsCancel(a / 2, b / 2, n - 1);
      LowBit(Bits(XorOp, a / 2, b / 2, n - 1), XorOp.Bit(a % 2, b % 2));
      XorBitCancel(a % 2, b % 2);
    }
  }

  lemma LowBit(high: nat, low: nat)
    requires low < 2
    ensures (2 * high + low) / 2 == high && (2 * high + low) % 2 == low
  {
  }

  lemma XorBitCancel(a: nat, b: nat)
    requires a < 2 && b < 2
    ensures XorOp.Bit(XorOp.Bit(a, b), b) == a
  {
  }

  /** Masking twice with the same octet is the identity. */
  lemma XorCancel(a: byte, b: byte)
    ensures Xor(Xor(a, b), b) == a
  {
    assert Pow2(8) == 256;
    XorBitsCancel(a, b, 8);
  }

  lemma BitsStep(op: BitOp, a: nat, b: nat, n: nat)
    requires n > 0
    ensures Bits(op, a, b, n) == 2 * Bits(op, a / 2, b / 2, n - 1) + op.Bit(a % 2, b % 2)
  {
  }

  lemma MulAssoc(h: nat, c: nat, p: nat)
    ensures h * (c * p) == c * (h * p)
  {
  }

  /** Bits that do not overlap can be added. */
  lemma {:induction false} OrIsSum(high: nat, low: nat, k: nat, n: nat)
    requires low < Pow2(k) && k <= n && high * Pow2(k) < Pow2(n)
    ensures Bits(OrOp, high * Pow2(k), low, n) == high * Pow2(k) + low
    decreases n
  {
    hide Bits;
    if k == 0 {
      OrZero(high, n);
    } else {
      var x := high * Pow2(k - 1);
      MulAssoc(high, 2, Pow2(k - 1));
      OrIsSum(high, low / 2, k - 1, n - 1);
      BitsStep(OrOp, 2 * x, low, n);
      EvenHalf(x);
    }
  }

  lemma EvenHalf(x: nat)
    ensures 2 * x / 2 == x && 2 * x % 2 == 0
  {
  }

  lemma {:induction false} OrZero(a: nat, n: nat)
    requires a < Pow2(n)
    ensures Bits(OrOp, a, 0, n) == a
  {
    if n > 0 {
      OrZero(a / 2, n - 1);
    }
  }

  function Pow256(k: nat): (r: nat)
    ensures r > 0
  {
    if k == 0 then 1 else 256 * Pow256(k - 1)
  }

  /** The k-octet big-endian representation of n modulo 256^k. */
  function BigEndian(n: nat, k: nat): (s: seq<byte>)
    ensures |s| == k
  {
    if k == 0 then [] else BigEndian(n / 256, k - 1) + [n % 256]
  }

  function FromBigEndian(s: seq<byte>): (n: nat) {
    if s == [] then 0 else 256 * FromBigEndian(s[..|s| - 1]) + s[|s| - 1]
  }

  lemma {:induction false} FromBigEndianOf(n: nat, k: nat)
    requires n < Pow256(k)
    ensures FromBigEndian(BigEndian(n, k)) == n
  {
    if k > 0 {
      FromBigEndianOf(n / 256, k - 1);
      var s := BigEndian(n, k);
      assert s[..|s| - 1] == BigEndian(n / 256, k - 1);
    }
  }

  lemma {:induction false} BigEndianOf(s: seq<byte>)
    ensures FromBigEndian(s) < Pow256(|s|)
    ensures BigEndian(FromBigEndian(s), |s|) == s
  {
    if s != [] {
      var init, last := s[..|s| - 1], s[|s| - 1];
      BigEndianOf(init);
      var n := FromBigEndian(s);
      assert n / 256 == FromBigEndian(init) && n % 256 == last;
    }
  }

  lemma {:induction false} FromBigEndianConcat(a: seq<byte>, b: seq<byte>)
    ensures FromBigEndian(a + b) == FromBigEndian(a) * Pow256(|b|) + FromBigEndian(b)
  {
    if b == [] {
      assert a + b == a;
    } else {
      var init, last := b[..|b| - 1], b[|b| - 1];
      assert (a + b)[..|a + b| - 1] == a + init;
      FromBigEndianConcat(a, init);
      MulAssoc(FromBigEndian(a), 256, Pow256(|init|));
    }
  }

  /** The four octets of a 32-bit word, most significant first. */
  function WordOctets(n: nat): (r: seq<byte>)
    requires n < 0x1_0000_0000
    ensures |r| == 4
  {
    [n / 0x100_0000 % 0x100, n / 0x1_0000 % 0x100, n / 0x100 % 0x100, n % 0x100]
  }

  lemma WordOctetsValue(n: nat)
    requires n < 0x1_0000_0000
    ensures FromBigEndian(WordOctets(n)) == n && BigEndian(n, 4) == WordOctets(n)
  {
    var s := WordOctets(n);
    var a, b, c := n / 0x100_0000, n / 0x1_0000, n / 0x100;
    assert s == [a, b % 0x100, c % 0x100, n % 0x100];
    assert b / 0x100 == a && c / 0x100 == b;
    assert s[..3] == [a, b % 0x100, c % 0x100] && s[..3][..2] == [a, b % 0x100];
    assert s[..2][..1] == [a] && s[..1][..0] == [];
    assert FromBigEndian([a]) == a;
    assert FromBigEndian([a, b % 0x100]) == b by {
      assert [a, b % 0x100][..1] == [a];
    }
    assert FromBigEndian([a, b % 0x100, c % 0x100]) == c by {
      assert [a, b % 0x100, c % 0x100][..2] == [a, b % 0x100];
    }
    BigEndianOf(s);
  }

  /** The first octets of s, up to but excluding the first NUL: a C string. */
  function UpToNul(s: seq<byte>): (r: seq<byte>)
    ensures |r| <= |s| && r == s[..|r|]
    ensures 0 !in r
    ensures |r| < |s| ==> s[|r|] == 0
  {
    if s == [] || s[0] == 0 then [] else [s[0]] + UpToNul(s[1..])
  }

  lemma {:induction false} UpToNulLength(s: seq<byte>)
    requires 0 in s
    ensures |UpToNul(s)| < |s|
  {
    if s[0] != 0 {
      assert s == [s[0]] + s[1..];
      UpToNulLength(s[1..]);
    }
  }

  lemma {:induction false} UpToNulIs(s: seq<byte>, k: nat)
    requires k < |s| && s[k] == 0 && 0 !in s[..k]
    ensures UpToNul(s) == s[..k]
  {
    if k > 0 {
      assert s[0] == s[..k][0];
      assert s[1..][..k - 1] == s[..k][1..];
      UpToNulIs(s[1..], k - 1);
    }
  }

  lemma {:induction false} UpToNulFrom(s: seq<byte>, i: nat)
    requires 0 in s && i <= |UpToNul(s)|
    ensures |UpToNul(s)| < |s| && 0 in s[i..] && UpToNul(s[i..]) == UpToNul(s)[i..]
  {
    UpToNulLength(s);
    var k := |UpToNul(s)|;
    assert s[i..][k - i] == 0;
    assert s[i..][..k - i] == UpToNul(s)[i..];
    UpToNulIs(s[i..], k - i);
  }

  lemma {:induction false} UpToNulAfter(s: seq<byte>, t: seq<byte>)
    requires 0 !in s
    ensures UpToNul(s + t) == s + UpToNul(t)
    decreases |s|
  {
    if s == [] {
      assert s + t == t;
    } else {
      assert (s + t)[1..] == s[1..] + t;
      UpToNulAfter(s[1..], t);
    }
  }

  lemma UpToNulWhole(s: seq<byte>)
    requires 0 !in s
    ensures UpToNul(s) == s && UpToNul(s + [0]) == s
  {
    UpToNulAfter(s, []);
    UpToNulAfter(s, [0]);
    assert s + [] == s;
  }

  function Zeros(n: nat): (r: seq<byte>)
    ensures |r| == n && forall i :: 0 <= i < n ==> r[i] == 0
  {
    seq(n, i => 0)
  }

  /** The pieces end to end. */
  function Flat(pieces: seq<seq<byte>>): seq<byte> {
    if pieces == [] then [] else pieces[0] + Flat(pieces[1..])
  }

  lemma {:induction false} FlatConcat(a: seq<seq<byte>>, b: seq<seq<byte>>)
    ensures Flat(a + b) == Flat(a) + Flat(b)
  {
    if a == [] {
      assert a + b == b;
    } else {
      assert (a + b)[1..] == a[1..] + b;
      FlatConcat(a[1..], b);
    }
  }

  lemma FlatSplit(pieces: seq<seq<byte>>, i: nat)
    requires i < |pieces|
    ensures Flat(pieces[..i + 1]) == Flat(pieces[..i]) + pieces[i]
    ensures |Flat(pieces[..i + 1])| <= |Flat(pieces)|
  {
    assert pieces[..i + 1] == pieces[..i] + [pieces[i]];
    FlatConcat(pieces[..i], [pieces[i]]);
    assert pieces == pieces[..i + 1] + pieces[i + 1..];
    FlatConcat(pieces[..i + 1], pieces[i + 1..]);
  }

  // ---- Parts of sequences and buffers

  lemma Front(a: seq<byte>, b: seq<byte>)
    ensures (a + b)[..|a|] == a
  {
  }

  lemma Middle(s: seq<byte>, i: nat, j: nat)
    requires i <= j <= |s|
    ensures s[i..][..j - i] == s[..j][i..] == s[i..j]
  {
  }

  lemma TwoParts(s: seq<byte>, i: nat, j: nat)
    requires i <= j <= |s|
    ensures s[..j] == s[..i] + s[i..j]
  {
  }

  /** Changing an octet of a prefix. */
  lemma ChangeBefore(s: seq<byte>, k: nat, v: byte, i: nat, j: nat)
    requires k < i <= j <= |s|
    ensures s[k := v][..i] == s[..i][k := v] && s[k := v][i..j] == s[i..j]
  {
  }

  lemma ChangeInPrefix(s: seq<byte>, i: nat, v: byte, k: nat)
    requires i < |s| && k <= |s|
    ensures s[i := v][..k] == if i < k then s[..k][i := v] else s[..k]
  {
  }

  lemma PrefixOfThree(a: seq<byte>, b: seq<byte>, c: seq<byte>, n: nat)
    requires n <= |c|
    ensures (a + b + c)[..|a| + |b| + n] == a + b + c[..n]
  {
  }

  lemma SliceOfSlice(a: array<byte>, off: nat, n: nat, j: nat, k: nat)
    requires off + n <= a.Length && j <= k <= n
    ensures a[off..off + n][j..k] == a[off + j..off + k]
  {
    var s, t := a[off..off + n][j..k], a[off + j..off + k];
    assert |s| == |t| && forall i :: 0 <= i < |s| ==> s[i] == a[off + j + i] == t[i];
  }

  /** The C library's memcpy. */
  method Memcpy(target: array<byte>, off: nat, from: seq<byte>)
    requires off + |from| <= target.Length
    modifies target
    ensures target[..] == old(target[..off]) + from + old(target[off + |from|..])
  {
    forall i | 0 <= i < |from| {
      target[off + i] := from[i];
    }
  }
}
