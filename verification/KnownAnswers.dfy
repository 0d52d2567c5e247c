/** Known answers, octet by octet: the examples of the standards, and what the code does on a few inputs. */
module KnownAnswers {
  import opened Bytes
  import opened Wire
  import opened Receiving
  import Bitwise
  import Base64
  import Clients
  import Framing
  import Handshake
  import Notifications
  import Rules
  import Sha1
  import Utf8

  /** The octets of a text. */
  function Text(s: string): (r: seq<byte>)
    requires forall i :: 0 <= i < |s| ==> s[i] as int < 256
    ensures |r| == |s|
  {
    seq(|s|, i requires 0 <= i < |s| => s[i] as int)
  }

  // ---- Base64

  /** Sextets 62 and 63, and a pad. */
  lemma PlusAndSlash()
    ensures Base64.Encoded([0xfb, 0xff]) == Text("+/8=") == [0x2b, 0x2f, 0x38, 0x3d]
    ensures Base64.Decoded(Text("+/8=")) == [0xfb, 0xff]
  {
    hide Base64.Decoded, Base64.Encoded;
    assert Text("+/8=") == [0x2b, 0x2f, 0x38, 0x3d];
    TwoOctets(0xfb, 0xff, 62, 63, 60);
    Base64.RoundTrip([0xfb, 0xff]);
  }

  /** Two octets, and the three sextets that they make. */
  lemma TwoOctets(a: byte, b: byte, w: nat, x: nat, y: nat)
    requires w < 64 && x < 64 && y < 64 && a as int * 65536 + b as int * 256 == ((w * 64 + x) * 64 + y) * 64
    ensures Base64.Encoded([a, b]) == [Base64.Char(w), Base64.Char(x), Base64.Char(y), Base64.PAD]
  {
    hide Base64.Char;
    Sextets(Base64.Bits24(a, b, 0), w, x, y, 0);
  }

  // ---- The handshake of section 1.3 of RFC 6455

  const GID_TEXT: seq<string> := ["258EAFA5-", "E914-47DA", "-95CA-C5A", "B0DC85B11"]

  lemma GidIs(i: nat)
    requires i < 36
    ensures |Handshake.GID| == 36 && Handshake.GID[i] as char == GID_TEXT[i / 9][i % 9]
  {
  }

  lemma HexDigitsAre(v: nat)
    requires v < 16
    ensures Handshake.HexDigit(v) as char == "0123456789abcdef"[v] && Handshake.HexValue(Handshake.HexDigit(v)) == v
  {
  }

  const DIGEST := Sha1.Five(0xb37a4f2c, 0xc0624f16, 0x90f64606, 0xcf385945, 0xb2bec4ea)

  lemma DigestInOctets()
    ensures Handshake.DigestOctets(DIGEST)
         == [0xb3, 0x7a, 0x4f, 0x2c, 0xc0, 0x62, 0x4f, 0x16, 0x90, 0xf6]
            + [0x46, 0x06, 0xcf, 0x38, 0x59, 0x45, 0xb2, 0xbe, 0xc4, 0xea]
  {
    hide WordOctets;
    InOctets(DIGEST.a, 0xb3, 0x7a, 0x4f, 0x2c);
    InOctets(DIGEST.b, 0xc0, 0x62, 0x4f, 0x16);
    InOctets(DIGEST.c, 0x90, 0xf6, 0x46, 0x06);
    InOctets(DIGEST.d, 0xcf, 0x38, 0x59, 0x45);
    InOctets(DIGEST.e, 0xb2, 0xbe, 0xc4, 0xea);
  }

  /** A word by its four octets. */
  lemma InOctets(x: nat, a: byte, b: byte, c: byte, d: byte)
    requires x == a * 0x100_0000 + b * 0x1_0000 + c * 0x100 + d
    ensures WordOctets(x) == [a, b, c, d]
  {
    var v := a * 0x100 + b;
    var w := v * 0x100 + c;
    LastOctet(x, w, d);
    LastOctet(w, v, c);
    LastOctet(v, a, b);
  }

  lemma LastOctet(x: nat, q: nat, d: byte)
    requires x == q * 0x100 + d
    ensures x / 0x100 == q && x % 0x100 == d
    ensures x / 0x1_0000 == q / 0x100 && x / 0x100_0000 == q / 0x1_0000
  {
  }

  /** Three octets as four sextets, and what the table says of these. */
  predicate Spells(a: byte, b: byte, c: byte, w: nat, x: nat, y: nat, z: nat, text: string) {
    && w < 64 && x < 64 && y < 64 && z < 64
    && a as int * 65536 + b as int * 256 + c as int == ((w * 64 + x) * 64 + y) * 64 + z
    && |text| == 4 && (forall i :: 0 <= i < 4 ==> text[i] as int < 256)
    && text == [Base64.Table(w), Base64.Table(x), Base64.Table(y), Base64.Table(z)]
  }

  lemma Sextets(n: nat, w: nat, x: nat, y: nat, z: nat)
    requires w < 64 && x < 64 && y < 64 && z < 64 && n == ((w * 64 + x) * 64 + y) * 64 + z
    ensures n / 262144 == w && n / 4096 % 64 == x && n / 64 % 64 == y && n % 64 == z
  {
    assert n / 64 == (w * 64 + x) * 64 + y;
    assert n / 4096 == w * 64 + x;
  }

  lemma Triple(a: byte, b: byte, c: byte, w: nat, x: nat, y: nat, z: nat, text: string, s: seq<byte>)
    requires Spells(a, b, c, w, x, y, z, text)
    ensures Base64.Encoded([a, b, c] + s) == Text(text) + Base64.Encoded(s)
  {
    hide Base64.Char, Base64.Table, Base64.Encoded;
    var n := Base64.Bits24(a, b, c);
    Sextets(n, w, x, y, z);
    Base64.CharsAreTheTable(w);
    Base64.CharsAreTheTable(x);
    Base64.CharsAreTheTable(y);
    Base64.CharsAreTheTable(z);
    var t := [a, b, c] + s;
    Base64.EncodedMore(t);
    assert t[3..] == s && Base64.Quad(n) == Text(text);
  }

  /** The value that section 1.3 of RFC 6455 gives for the digest it gives. */
  lemma AcceptOfDigest()
    ensures Base64.Encoded(Handshake.DigestOctets(DIGEST))
         == Text("s3pP") + (Text("LMBi") + (Text("TxaQ")
            + (Text("9kYG") + (Text("zzhZ") + (Text("RbK+") + Text("xOo="))))))
  {
    hide Base64.Encoded, Base64.Table, Text, Spells, Handshake.DigestOctets;
    DigestInOctets();
    FirstLetters();
    LastLetters();
    var s6: seq<byte> := [0xc4, 0xea];
    var s5 := [0x45, 0xb2, 0xbe] + s6;
    var s4 := [0xcf, 0x38, 0x59] + s5;
    var s3 := [0xf6, 0x46, 0x06] + s4;
    var s2 := [0x4f, 0x16, 0x90] + s3;
    var s1 := [0x2c, 0xc0, 0x62] + s2;
    assert Handshake.DigestOctets(DIGEST) == [0xb3, 0x7a, 0x4f] + s1;
    Triple(0xb3, 0x7a, 0x4f, 44, 55, 41, 15, "s3pP", s1);
    Triple(0x2c, 0xc0, 0x62, 11, 12, 1, 34, "LMBi", s2);
    Triple(0x4f, 0x16, 0x90, 19, 49, 26, 16, "TxaQ", s3);
    Triple(0xf6, 0x46, 0x06, 61, 36, 24, 6, "9kYG", s4);
    Triple(0xcf, 0x38, 0x59, 51, 51, 33, 25, "zzhZ", s5);
    Triple(0x45, 0xb2, 0xbe, 17, 27, 10, 62, "RbK+", s6);
    LastTwo();
  }

  lemma FirstLetters()
    ensures Spells(0xb3, 0x7a, 0x4f, 44, 55, 41, 15, "s3pP")
    ensures Spells(0x2c, 0xc0, 0x62, 11, 12, 1, 34, "LMBi")
    ensures Spells(0x4f, 0x16, 0x90, 19, 49, 26, 16, "TxaQ")
  {
  }

  lemma LastLetters()
    ensures Spells(0xf6, 0x46, 0x06, 61, 36, 24, 6, "9kYG")
    ensures Spells(0xcf, 0x38, 0x59, 51, 51, 33, 25, "zzhZ")
    ensures Spells(0x45, 0xb2, 0xbe, 17, 27, 10, 62, "RbK+")
  {
  }

  lemma LastTwo()
    ensures Base64.Encoded([0xc4, 0xea]) == Text("xOo=")
  {
    hide Base64.Encoded;
    TwoOctets(0xc4, 0xea, 49, 14, 40);
  }

  // ---- Frames: section 5.7 of RFC 6455, masked as a client masks them

  const KEY: seq<byte> := [0x37, 0xfa, 0x21, 0x3d]
  const HELLO: seq<byte> := [0x48, 0x65, 0x6c, 0x6c, 0x6f]
  const MASKED: seq<byte> := [0x7f, 0x9f, 0x4d, 0x51, 0x58]

  /** The machine's own exclusive or, on these octets. */
  lemma XorsAre()
    ensures Xor(0x7f, 0x37) == 0x48 && Xor(0x9f, 0xfa) == 0x65 && Xor(0x4d, 0x21) == 0x6c && Xor(0x51, 0x3d) == 0x6c
    ensures Xor(0x58, 0x37) == 0x6f && Xor(0x5b, 0x37) == 0x6c && Xor(0x95, 0xfa) == 0x6f
    ensures Xor(0x34, 0x37) == 0x03 && Xor(0x12, 0xfa) == 0xe8
  {
    hide Xor;
    Bitwise.XorOctets(0x7f, 0x37);
    Bitwise.XorOctets(0x9f, 0xfa);
    Bitwise.XorOctets(0x4d, 0x21);
    Bitwise.XorOctets(0x51, 0x3d);
    Bitwise.XorOctets(0x58, 0x37);
    Bitwise.XorOctets(0x5b, 0x37);
    Bitwise.XorOctets(0x95, 0xfa);
    Bitwise.XorOctets(0x34, 0x37);
    Bitwise.XorOctets(0x12, 0xfa);
  }

  lemma Unmasked()
    ensures Unmask(KEY, MASKED) == HELLO
    ensures Unmask(KEY, [0x7f, 0x9f, 0x4d]) == [0x48, 0x65, 0x6c] && Unmask(KEY, [0x5b, 0x95]) == [0x6c, 0x6f]
    ensures Unmask(KEY, [0x34, 0x12]) == [0x03, 0xe8]
  {
    hide Xor;
    XorsAre();
  }

  /** A masked text frame, whole. */
  lemma HelloIsDelivered()
    ensures Run(Start(false), [0x81, 0x85, 0x37, 0xfa, 0x21, 0x3d, 0x7f, 0x9f, 0x4d, 0x51, 0x58]).fx
         == Effects([], [Message(1, [0x48, 0x65, 0x6c, 0x6c, 0x6f])], None)
  {
    hide Run, Unmask, Serialize, Utf8.IsOctets, UpToNul;
    var f := WireFrame(true, TEXT, Short, KEY, MASKED);
    Unmasked();
    HelloIsText();
    HelloFrame(f);
    Clients.OneMessage(f);
  }

  /** The same octets as a binary message. */
  lemma BinaryIsDelivered()
    ensures Run(Start(false), [0x82, 0x85, 0x37, 0xfa, 0x21, 0x3d, 0x7f, 0x9f, 0x4d, 0x51, 0x58]).fx
         == Effects([], [Message(2, [0x48, 0x65, 0x6c, 0x6c, 0x6f])], None)
  {
    hide Run, Unmask, Serialize;
    var f := WireFrame(true, BINARY, Short, KEY, MASKED);
    Unmasked();
    HelloFrame(f);
    Clients.OneMessage(f);
  }

  /** A ping is answered by the unmasked pong. */
  lemma HelloIsEchoed()
    ensures Run(Start(false), [0x89, 0x85, 0x37, 0xfa, 0x21, 0x3d, 0x7f, 0x9f, 0x4d, 0x51, 0x58]).fx
         == Effects([0x8a, 0x05, 0x48, 0x65, 0x6c, 0x6c, 0x6f], [], None)
  {
    hide Run, Unmask, Serialize, SentFrame, Receive;
    var f := WireFrame(true, PING, Short, KEY, MASKED);
    Unmasked();
    HelloFrame(f);
    SentHello();
    Framing.RunFrame(Start(false), f);
    Rules.PongIsSent(Start(false), f);
  }

  lemma SentHello()
    ensures SentFrame(0x8a, HELLO) == [0x8a, 0x05, 0x48, 0x65, 0x6c, 0x6c, 0x6f]
    ensures SentFrame(0x81, HELLO) == [0x81, 0x05, 0x48, 0x65, 0x6c, 0x6c, 0x6f]
  {
    assert BigEndian(5, 0) == [];
  }

  /** A normal Close, 1000, is echoed as it is. */
  lemma CloseIsEchoed()
    ensures var r := Run(Start(false), [0x88, 0x82, 0x37, 0xfa, 0x21, 0x3d, 0x34, 0x12]);
            r.Closing? && r.fx.output == [0x88, 0x02, 0x03, 0xe8] && r.fx.messages == []
  {
    hide Run, Unmask, Serialize, Receive, StoredReason, Utf8.IsOctets, UpToNul, FromBigEndian;
    var f := WireFrame(true, CLOSE, Short, KEY, [0x34, 0x12]);
    Unmasked();
    CloseFrameIs(f);
    Framing.RunFrame(Start(false), f);
    Rules.CloseIsEchoed(Start(false), f);
    NormalClose(Receive(Start(false), f).fx.output);
    Rules.ClosesWith(Start(false), f);
  }

  lemma CloseFrameIs(f: WireFrame)
    requires f == WireFrame(true, CLOSE, Short, KEY, [0x34, 0x12])
    ensures Serialize(f) == [0x88, 0x82, 0x37, 0xfa, 0x21, 0x3d, 0x34, 0x12]
  {
    assert BigEndian(2, 0) == [];
  }

  /** The number 1000, and no reason. */
  lemma NormalClose(output: seq<byte>)
    ensures var p: seq<byte> := [0x03, 0xe8];
            && p[..2] == p && p[2..] == [] && FromBigEndian(p) == 1000 && Utf8.IsOctets(UpToNul([]))
    ensures |output| == 4 && FromBigEndian(output[2..4]) == 1000 ==> output[2..] == [0x03, 0xe8]
    ensures output[0..] == output
  {
    hide Utf8.IsOctets, UpToNul, FromBigEndian, BigEndian;
    Thousand();
    NoText();
    if |output| == 4 {
      BigEndianOf(output[2..4]);
      assert output[2..4] == output[2..];
    }
  }

  lemma Thousand()
    ensures FromBigEndian([0x03, 0xe8]) == 1000 && BigEndian(1000, 2) == [0x03, 0xe8]
  {
    var p: seq<byte> := [0x03, 0xe8];
    assert p[..1] == [0x03] && p[..1][..0] == [];
    BigEndianOf(p);
  }

  lemma NoText()
    ensures Utf8.IsOctets(UpToNul([]))
  {
    hide Utf8.IsOctets;
    UpToNulWhole([]);
    Utf8.AcceptsGrammar([]);
  }

  lemma HelloFrame(f: WireFrame)
    requires f.opcode < 16 && f == WireFrame(true, f.opcode, Short, KEY, MASKED)
    ensures Serialize(f) == [0x80 + f.opcode, 0x85, 0x37, 0xfa, 0x21, 0x3d, 0x7f, 0x9f, 0x4d, 0x51, 0x58]
  {
    assert BigEndian(5, 0) == [];
  }

  lemma HelloIsText()
    ensures Utf8.IsOctets(UpToNul(HELLO))
  {
    hide Utf8.IsOctets;
    UpToNulWhole(HELLO);
    assert Utf8.RunState(Utf8.ACCEPT, HELLO) == Utf8.ACCEPT;
    Utf8.AcceptsGrammar(HELLO);
  }

  /** The same text in two fragments. */
  lemma FragmentsAreDelivered()
    ensures Run(Start(false), [0x01, 0x83, 0x37, 0xfa, 0x21, 0x3d, 0x7f, 0x9f, 0x4d]
                              + [0x80, 0x82, 0x37, 0xfa, 0x21, 0x3d, 0x5b, 0x95]).fx
         == Effects([], [Message(1, [0x48, 0x65, 0x6c, 0x6c, 0x6f])], None)
  {
    hide Run, Unmask, Serialize, Receive, Utf8.IsOctets, UpToNul;
    var f := WireFrame(false, TEXT, Short, KEY, [0x7f, 0x9f, 0x4d]);
    var g := WireFrame(true, CONTINUATION, Short, KEY, [0x5b, 0x95]);
    FragmentsAre(f, g);
    Unmasked();
    HelloIsText();
    Framing.RunFrame(Start(false), f);
    Framing.RunConcat(Start(false), Serialize(f), Serialize(g));
    assert [0x48, 0x65, 0x6c] + [0x6c, 0x6f] == HELLO;
    TwoFragments(f, g);
    Framing.RunFrame(Receive(Start(false), f), g);
  }

  lemma FragmentsAre(f: WireFrame, g: WireFrame)
    requires f == WireFrame(false, TEXT, Short, KEY, [0x7f, 0x9f, 0x4d])
    requires g == WireFrame(true, CONTINUATION, Short, KEY, [0x5b, 0x95])
    ensures Serialize(f) == [0x01, 0x83, 0x37, 0xfa, 0x21, 0x3d, 0x7f, 0x9f, 0x4d]
    ensures Serialize(g) == [0x80, 0x82, 0x37, 0xfa, 0x21, 0x3d, 0x5b, 0x95]
  {
    assert BigEndian(3, 0) == [] && BigEndian(2, 0) == [];
  }

  lemma TwoFragments(f: WireFrame, g: WireFrame)
    requires f.Valid() && !f.fin && f.opcode == TEXT && g.Valid() && g.fin && g.opcode == CONTINUATION
    requires TextAccepted(Message(TEXT, f.Payload() + g.Payload()))
    ensures var m := Receive(Start(false), f);
            && m == Open([f], [], Some(f), false, Effects([], [], None))
            && Receive(m, g)
               == Open([], [], Some(g), false, Effects([], [Message(TEXT, f.Payload() + g.Payload())], None))
  {
    hide Control, Joined, TextAccepted;
    Clients.OneFragment(f);
    assert [f] + [g] == [f, g] && [f, g][..1] == [f];
    Clients.LastFragment([f, g]);
  }

  /** A text that is not UTF-8: the answer is a Close frame with 1007. */
  lemma NoTextIsRefused()
    ensures var r := Run(Start(false), [0x81, 0x81, 0, 0, 0, 0, 0xff]);
            r.Closing? && r.fx == Effects([0x88, 0x02, 0x03, 0xef], [], None)
  {
    hide Run, Unmask, Serialize, Utf8.IsOctets, UpToNul, BigEndian, Joined;
    var f := WireFrame(true, TEXT, Short, [0, 0, 0, 0], [0xff]);
    OneOctet(f);
    Framing.RunFrame(Start(false), f);
    Clients.OneFragment(f);
    assert [] + [f] == [f];
    assert Unmask([0, 0, 0, 0], [0xff]) == [0xff];
  }

  lemma OneOctet(f: WireFrame)
    requires f == WireFrame(true, TEXT, Short, [0, 0, 0, 0], [0xff])
    ensures Serialize(f) == [0x81, 0x81, 0, 0, 0, 0, 0xff]
    ensures f.Payload() == [0xff] && !Utf8.IsOctets(UpToNul([0xff])) && BigEndian(1007, 2) == [0x03, 0xef]
  {
    hide Xor, Utf8.IsOctets;
    assert BigEndian(1, 0) == [];
    assert BigEndian(3, 1) == [0x03];
    Bitwise.XorOctets(0xff, 0);
    assert Unmask([0, 0, 0, 0], [0xff]) == [0xff];
    UpToNulWhole([0xff]);
    assert Utf8.RunState(Utf8.ACCEPT, [0xff]) == Utf8.REJECT;
    Utf8.AcceptsGrammar([0xff]);
  }

  /** 256 octets, and 65536, in an unmasked binary message. */
  lemma LongerHeaders(data: seq<byte>)
    ensures |data| == 256 ==> SentFrame(0x82, data) == [0x82, 0x7e, 0x01, 0x00] + data
    ensures |data| == 65536 ==> SentFrame(0x82, data) == [0x82, 0x7f, 0, 0, 0, 0, 0, 1, 0, 0] + data
  {
    assert BigEndian(1, 1) == [1];
    assert BigEndian(256, 2) == [1, 0];
    BigEndianOf([0, 0, 0, 0, 0, 1, 0, 0]);
    SixtyFourK();
  }

  lemma SixtyFourK()
    ensures FromBigEndian([0, 0, 0, 0, 0, 1, 0, 0]) == 65536
  {
    var s: seq<byte> := [0, 0, 0, 0, 0, 1, 0, 0];
    Sha1.NoOctets(s);
    Sha1.FromBigEndianMore(s, 0);
    Sha1.FromBigEndianMore(s, 1);
    Sha1.FromBigEndianMore(s, 2);
    Sha1.FromBigEndianMore(s, 3);
    Sha1.FromBigEndianMore(s, 4);
    Sha1.FromBigEndianMore(s, 5);
    Sha1.FromBigEndianMore(s, 6);
    Sha1.FromBigEndianMore(s, 7);
  }

  /** Where the payload of a client's frame begins in each form, and what lengths the form is for. */
  lemma FormsAre(len: nat)
    ensures Short.PayloadOffset() == 6 && Medium.PayloadOffset() == 8 && Long.PayloadOffset() == 14
    ensures MinimalForm(len) == if len <= 125 then Short else if len <= 65535 then Medium else Long
  {
  }

  // ---- UTF-8: section 7 of RFC 3629

  /** Three characters of three octets. */
  lemma ThreeCharacters()
    ensures Utf8.IsOctets([0xe6, 0x97, 0xa5, 0xe6, 0x9c, 0xac, 0xe8, 0xaa, 0x9e])
    ensures Utf8.Decoded(Utf8.ACCEPT, 0, [0xe6, 0x97, 0xa5, 0xe6, 0x9c, 0xac, 0xe8, 0xaa, 0x9e])
         == [0x65e5, 0x672c, 0x8a9e]
  {
    hide Utf8.IsOctets, Utf8.Decoded, Utf8.RunState;
    var vs: seq<nat> := [0x65e5, 0x672c, 0x8a9e];
    Utf8.DecodesEncoding(vs, 0);
    TheirEncoding(vs);
    Utf8.AcceptsGrammar(Utf8.EncodeAll(vs));
  }

  lemma TheirEncoding(vs: seq<nat>)
    requires vs == [0x65e5, 0x672c, 0x8a9e]
    ensures Utf8.AllScalars(vs)
    ensures Utf8.EncodeAll(vs) == [0xe6, 0x97, 0xa5, 0xe6, 0x9c, 0xac, 0xe8, 0xaa, 0x9e]
  {
    assert vs[1..] == [0x672c, 0x8a9e] && [0x672c, 0x8a9e][1..] == [0x8a9e] && [0x8a9e][1..] == [];
    assert Utf8.EncodeAll([0x8a9e]) == [0xe8, 0xaa, 0x9e] + [];
    assert Utf8.EncodeAll([0x672c, 0x8a9e]) == [0xe6, 0x9c, 0xac] + Utf8.EncodeAll([0x8a9e]);
    assert Utf8.EncodeAll(vs) == [0xe6, 0x97, 0xa5] + Utf8.EncodeAll([0x672c, 0x8a9e]);
  }

  /** An overlong NUL, a surrogate, a value above 10FFFF, and a lonely tail are refused. */
  lemma RefusedOctets(rest: seq<byte>)
    ensures !Utf8.IsOctets([0xc0, 0x80] + rest) && !Utf8.IsOctets([0xed, 0xa0, 0x80] + rest)
    ensures !Utf8.IsOctets([0xf4, 0x90, 0x80, 0x80] + rest) && !Utf8.IsOctets([0x80] + rest)
  {
    hide Utf8.IsOctets;
    Utf8.RefusedPrefix([0xc0, 0x80], rest);
    Utf8.RefusedPrefix([0xed, 0xa0, 0x80], rest);
    Utf8.RefusedPrefix([0xf4, 0x90, 0x80, 0x80], rest);
    Utf8.RefusedPrefix([0x80], rest);
  }

  // ---- Notifications

  /** The event that the comment above the parser gives: "__keyevent@0__:sadd". */
  lemma EventIsParsed()
    ensures var s := [0x5f, 0x5f] + Text("keyevent") + [0x40, 0x30, 0x5f, 0x5f, 0x3a] + Text("sadd");
            Notifications.ParseEvent(s[2..]) == Notifications.Event(Text("keyevent"), 0, Text("sadd"))
  {
    hide Notifications.ParseEvent, Notifications.Tokenize, Text;
    EventTexts();
    var s := [0x5f, 0x5f] + Text("keyevent") + [0x40, 0x30, 0x5f, 0x5f, 0x3a] + Text("sadd");
    assert Notifications.PrintEvent(Text("keyevent"), 0, Text("sadd")) == s;
    Notifications.ParsesPrinted(Text("keyevent"), 0, Text("sadd"));
  }

  lemma EventTexts()
    ensures Notifications.Decimal(0) == [0x30] && 0x40 !in Text("keyevent") && |Text("keyevent")| == 8
    ensures |Text("sadd")| == 4
  {
  }

  /** Spaces and a sign are read, and what follows the digits is not: " -12a", "+7 8" and "x1". */
  lemma NumbersAreRead()
    ensures Notifications.Atoi([0x20, 0x2d, 0x31, 0x32, 0x61]) == -12
    ensures Notifications.Atoi([0x2b, 0x37, 0x20, 0x38]) == 7
    ensures Notifications.Atoi([0x78, 0x31]) == 0
  {
    hide Notifications.Digits;
    DigitsAre();
    assert Notifications.SkipSpaces([0x20, 0x2d, 0x31, 0x32, 0x61]) == [0x2d, 0x31, 0x32, 0x61];
    assert [0x2d, 0x31, 0x32, 0x61][1..] == [0x31, 0x32, 0x61];
    assert [0x2b, 0x37, 0x20, 0x38][1..] == [0x37, 0x20, 0x38];
  }

  lemma DigitsAre()
    ensures Notifications.Digits([0x31, 0x32, 0x61], 0) == 12 && Notifications.Digits([0x37, 0x20, 0x38], 0) == 7
    ensures Notifications.Digits([0x78, 0x31], 0) == 0
  {
  }
}
