/** The accept value that a server answers a handshake with (section 4.2.2 of RFC 6455). */
module Handshake {
  import opened Bytes
  import Sha1
  import Base64

  /** "258EAFA5-E914-47DA-95CA-C5AB0DC85B11" */
  const GID: seq<byte> := [
    0x32, 0x35, 0x38, 0x45, 0x41, 0x46, 0x41, 0x35, 0x2d, 0x45, 0x39, 0x31, 0x34, 0x2d, 0x34, 0x37, 0x44, 0x41,
    0x2d, 0x39, 0x35, 0x43, 0x41, 0x2d, 0x43, 0x35, 0x41, 0x42, 0x30, 0x44, 0x43, 0x38, 0x35, 0x42, 0x31, 0x31]

  const CONCAT_SIZE := 1024

  /** The 160 bits of a digest. */
  function DigestOctets(d: Sha1.Five): (r: seq<byte>)
    ensures |r| == 20
  {
    WordOctets(d.a) + WordOctets(d.b) + WordOctets(d.c) + WordOctets(d.d) + WordOctets(d.e)
  }

  function Accept(key: seq<byte>): seq<byte> {
    Base64.Encoded(DigestOctets(Sha1.Digest(key + GID)))
  }

  /** It is always 28 characters, the last of them a pad. */
  lemma AcceptShape(key: seq<byte>)
    ensures |Accept(key)| == 28 && Accept(key)[27] == Base64.PAD
  {
    hide Base64.Encoded, Sha1.Digest, DigestOctets;
    LastIsPad(DigestOctets(Sha1.Digest(key + GID)));
  }

  lemma {:induction false} LastIsPad(s: seq<byte>)
    requires |s| % 3 == 2
    ensures |Base64.Encoded(s)| > 0 && Base64.Encoded(s)[|Base64.Encoded(s)| - 1] == Base64.PAD
    decreases |s|
  {
    hide Base64.Quad, Base64.Bits24;
    if |s| >= 3 {
      LastIsPad(s[3..]);
      Base64.EncodedMore(s);
    }
  }

  // ---- Printing in hexadecimal and reading back

  function HexDigit(v: nat): byte
    requires v < 16
  {
    if v < 10 then 0x30 + v else 0x61 + (v - 10)
  }

  function HexValue(c: byte): nat {
    if 0x30 <= c <= 0x39 then c as int - 0x30
    else if 0x61 <= c <= 0x66 then c as int - 0x61 + 10
    else if 0x41 <= c <= 0x46 then c as int - 0x41 + 10
    else 0
  }

  /** The low k hexadecimal digits of n, zeros included: what "%08x" prints of a word when k is 8. */
  function Hex(n: nat, k: nat): (r: seq<byte>)
    ensures |r| == k
  {
    if k == 0 then [] else Hex(n / 16, k - 1) + [HexDigit(n % 16)]
  }

  /** What "%02hhx" reads at a pair of digits. */
  function Pair(s: seq<byte>, i: nat): byte
    requires i + 1 < |s|
  {
    (16 * HexValue(s[i]) + HexValue(s[i + 1])) % 256
  }

  lemma PairOf(n: nat)
    ensures 16 * HexValue(HexDigit(n / 16 % 16)) + HexValue(HexDigit(n % 16)) == n % 256
  {
    hide HexDigit, HexValue;
    HexDigitValue(n / 16 % 16);
    HexDigitValue(n % 16);
    TwoNibbles(n);
  }

  lemma TwoNibbles(n: nat)
    ensures 16 * (n / 16 % 16) + n % 16 == n % 256
  {
    var h := n / 16;
    assert n == 16 * h + n % 16 && h == 16 * (h / 16) + h % 16;
  }

  lemma HexDigitValue(v: nat)
    requires v < 16
    ensures HexValue(HexDigit(v)) == v
  {
  }

  /** Reading the printed digits pair by pair gives the octets of the number. */
  lemma {:induction false} HexReadsBack(n: nat, k: nat, i: nat)
    requires i < k
    ensures Pair(Hex(n, 2 * k), 2 * i) == BigEndian(n, k)[i]
  {
    hide HexDigit, HexValue;
    var h := Hex(n, 2 * k);
    assert Hex(n, 2 * k) == Hex(n / 16, 2 * k - 1) + [HexDigit(n % 16)];
    assert Hex(n / 16, 2 * k - 1) == Hex(n / 16 / 16, 2 * k - 2) + [HexDigit(n / 16 % 16)];
    assert h == Hex(n / 16 / 16, 2 * (k - 1)) + [HexDigit(n / 16 % 16)] + [HexDigit(n % 16)];
    assert n / 16 / 16 == n / 256;
    if i == k - 1 {
      PairOf(n);
    } else {
      HexReadsBack(n / 256, k - 1, i);
    }
  }

  /** The five words of a digest, printed. */
  function Printed(d: Sha1.Five): (r: seq<byte>)
    ensures |r| == 40
  {
    Hex(d.a, 8) + Hex(d.b, 8) + Hex(d.c, 8) + Hex(d.d, 8) + Hex(d.e, 8)
  }

  lemma WordReadsBack(n: Sha1.word, before: seq<byte>, after: seq<byte>, i: nat)
    requires i < 4 && |before| % 2 == 0
    ensures Pair(before + Hex(n, 8) + after, |before| + 2 * i) == WordOctets(n)[i]
  {
    hide Hex;
    var s := before + Hex(n, 8) + after;
    assert s[|before| + 2 * i] == Hex(n, 8)[2 * i] && s[|before| + 2 * i + 1] == Hex(n, 8)[2 * i + 1];
    HexReadsBack(n, 4, i);
    WordOctetsValue(n);
  }

  /** Printing and reading back is the identity on the twenty octets. */
  lemma PrintedReadsBack(d: Sha1.Five, n: nat)
    requires n < 20
    ensures Pair(Printed(d), 2 * n) == DigestOctets(d)[n]
  {
    hide Hex, WordOctets, Pair;
    var a, b, c, e, f := Hex(d.a, 8), Hex(d.b, 8), Hex(d.c, 8), Hex(d.d, 8), Hex(d.e, 8);
    var s := Printed(d);
    if n < 4 {
      assert s == [] + a + (b + c + e + f);
      WordReadsBack(d.a, [], b + c + e + f, n);
    } else if n < 8 {
      assert s == a + b + (c + e + f);
      WordReadsBack(d.b, a, c + e + f, n - 4);
    } else if n < 12 {
      assert s == (a + b) + c + (e + f);
      WordReadsBack(d.c, a + b, e + f, n - 8);
    } else if n < 16 {
      assert s == (a + b + c) + e + f;
      WordReadsBack(d.d, a + b + c, f, n - 12);
    } else {
      assert s == (a + b + c + e) + f + [];
      WordReadsBack(d.e, a + b + c + e, [], n - 16);
    }
  }

  /** The part of the handshake that computes the accept value of a key that fits. */
  method AcceptValue(key: seq<byte>) returns (base64buf: array<byte>)
    requires 0 !in key && |key| + |GID| < 1024
    ensures base64buf.Length == 256 && base64buf[..29] == Accept(key) + [0]
    ensures base64buf[..28] == Base64.Encoded(DigestOctets(Sha1.Digest(key + GID))) && base64buf[28] == 0
  {
    hide Sha1.Digest, Sha1.Blocks, Base64.Encoded, Printed, DigestOctets, Pair;
    AcceptShape(key);
    var shactx := new Sha1.Context();
    shactx.Input(key + GID);
    assert shactx.taken == key + GID;
    var _ := shactx.Result();
    var d := Sha1.Five(shactx.digest[0], shactx.digest[1], shactx.digest[2], shactx.digest[3], shactx.digest[4]);
    var sha1buf := Printed(d);
    var sha1mac := new byte[20];
    for n := 0 to |sha1buf| / 2
      invariant sha1mac[..n] == DigestOctets(d)[..n]
    {
      PrintedReadsBack(d, n);
      sha1mac[n] := Pair(sha1buf, n * 2);
      assert sha1mac[..n + 1] == sha1mac[..n] + [sha1mac[n]];
    }
    assert sha1mac[..20] == sha1mac[..] && DigestOctets(d)[..20] == DigestOctets(d);
    base64buf := new byte[256];
    var _ := Base64.Encode(sha1mac[..], base64buf);
  }
}
