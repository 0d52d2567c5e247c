/** Frames as section 5.2 of RFC 6455 lays them out on the wire. */
module Wire {
  import opened Bytes

  const CONTINUATION := 0
  const TEXT := 1
  const BINARY := 2
  const CLOSE := 8
  const PING := 9
  const PONG := 10

  /** The three ways of writing a payload length. */
  datatype LenForm = Short | Medium | Long {
    /** Octets of the extended payload length. */
    function Extended(): nat {
      match this case Short => 0 case Medium => 2 case Long => 8
    }

    /** Where the payload of a masked frame starts. */
    function PayloadOffset(): nat {
      2 + Extended() + 4
    }

    predicate Admits(len: nat) {
      match this
      case Short => len <= 125
      case Medium => len < 0x1_0000
      case Long => len < 0x1_0000_0000_0000_0000
    }

    function LengthOctet(len: nat): byte
      requires Admits(len)
    {
      match this case Short => len case Medium => 126 case Long => 127
    }
  }

  /** The form section 5.2 of RFC 6455 asks a sender to use. */
  function MinimalForm(len: nat): LenForm {
    if len <= 125 then Short else if len < 0x1_0000 then Medium else Long
  }

  /** A masked frame as a client sends it; `data` is the payload as transmitted. */
  datatype WireFrame = WireFrame(fin: bool, opcode: nat, form: LenForm, key: seq<byte>, data: seq<byte>) {
    predicate Valid() {
      opcode < 16 && |key| == 4 && form.Admits(|data|)
    }

    predicate IsControl() {
      opcode >= 8
    }

    /** The application data. */
    function Payload(): (r: seq<byte>)
      requires |key| == 4
      ensures |r| == |data|
    {
      Unmask(key, data)
    }
  }

  predicate AllValid(fs: seq<WireFrame>) {
    forall i :: 0 <= i < |fs| ==> fs[i].Valid()
  }

  function Unmask(key: seq<byte>, data: seq<byte>): (r: seq<byte>)
    requires |key| == 4
    ensures |r| == |data|
    ensures forall i :: 0 <= i < |data| ==> r[i] == Xor(data[i], key[i % 4])
  {
    seq(|data|, i requires 0 <= i < |data| => Xor(data[i], key[i % 4]))
  }

  /** Masking is its own inverse (section 5.3 of RFC 6455). */
  lemma UnmaskTwice(key: seq<byte>, data: seq<byte>)
    requires |key| == 4
    ensures Unmask(key, Unmask(key, data)) == data
  {
    forall i | 0 <= i < |data| ensures Unmask(key, Unmask(key, data))[i] == data[i] {
      XorCancel(data[i], key[i % 4]);
    }
  }

  function Header(fin: bool, opcode: nat, masked: bool, form: LenForm, len: nat): (r: seq<byte>)
    requires opcode < 16 && form.Admits(len)
    ensures |r| == 2 + form.Extended()
  {
    [(if fin then 128 else 0) + opcode, (if masked then 128 else 0) + form.LengthOctet(len)]
    + BigEndian(len, form.Extended())
  }

  lemma ClearMaskBit(fin: bool, opcode: nat, form: LenForm, len: nat)
    requires opcode < 16 && form.Admits(len)
    ensures var h := Header(fin, opcode, true, form, len);
            h[1 := h[1] % 128] == Header(fin, opcode, false, form, len)
  {
  }

  function Serialize(f: WireFrame): (r: seq<byte>)
    requires f.Valid()
    ensures |r| == f.form.PayloadOffset() + |f.data|
  {
    Header(f.fin, f.opcode, true, f.form, |f.data|) + f.key + f.data
  }

  function SerializeAll(fs: seq<WireFrame>): seq<byte>
    requires AllValid(fs)
  {
    if fs == [] then [] else SerializeAll(fs[..|fs| - 1]) + Serialize(fs[|fs| - 1])
  }

  /** A frame without mask, as a server sends it. */
  function ServerFrame(fin: bool, opcode: nat, form: LenForm, payload: seq<byte>): (r: seq<byte>)
    requires opcode < 16 && form.Admits(|payload|)
    ensures |r| == 2 + form.Extended() + |payload|
  {
    Header(fin, opcode, false, form, |payload|) + payload
  }

  /** What a peer makes of a frame by setting the mask bit, inserting a key and masking the payload. */
  function MaskFrame(fin: bool, opcode: nat, form: LenForm, key: seq<byte>, payload: seq<byte>): (f: WireFrame)
    requires opcode < 16 && |key| == 4 && form.Admits(|payload|)
    ensures f.Valid()
  {
    WireFrame(fin, opcode, form, key, Unmask(key, payload))
  }

  // Reading a frame: `p` holds the octets received since the frame began.

  /** Reserved bits set, or no mask (sections 5.1 and 5.2 of RFC 6455). */
  predicate HeaderRefused(p: seq<byte>)
    requires |p| >= 2
  {
    (p[0] / 16) % 8 != 0 || p[1] < 128
  }

  function FormOf(p: seq<byte>): LenForm
    requires |p| >= 2
  {
    if p[1] % 128 == 126 then Medium else if p[1] % 128 == 127 then Long else Short
  }

  predicate LengthKnown(p: seq<byte>) {
    |p| >= 2 && |p| >= 2 + FormOf(p).Extended()
  }

  function DeclaredLength(p: seq<byte>): nat
    requires LengthKnown(p)
  {
    if FormOf(p) == Short then p[1] % 128 else FromBigEndian(p[2..2 + FormOf(p).Extended()])
  }

  predicate HeaderComplete(p: seq<byte>) {
    |p| >= 2 && |p| >= FormOf(p).PayloadOffset()
  }

  function FrameSize(p: seq<byte>): nat
    requires HeaderComplete(p)
  {
    FormOf(p).PayloadOffset() + DeclaredLength(p)
  }

  predicate FrameComplete(p: seq<byte>) {
    HeaderComplete(p) && |p| >= FrameSize(p)
  }

  function Parse(p: seq<byte>): (f: WireFrame)
    requires FrameComplete(p)
    ensures |f.key| == 4
  {
    var off := FormOf(p).PayloadOffset();
    WireFrame(p[0] >= 128, p[0] % 16, FormOf(p), p[off - 4..off], p[off..FrameSize(p)])
  }

  lemma DeclaredLengthBound(p: seq<byte>)
    requires LengthKnown(p)
    ensures DeclaredLength(p) < 0x1_0000_0000_0000_0000
  {
    LengthPowers();
    if FormOf(p) != Short {
      BigEndianOf(p[2..2 + FormOf(p).Extended()]);
    }
  }

  /** What has been read of a header stays as more octets arrive. */
  lemma HeaderStable(q: seq<byte>, p: seq<byte>)
    requires q <= p && |q| >= 2
    ensures p[0] == q[0] && p[1] == q[1]
    ensures HeaderRefused(p) == HeaderRefused(q) && FormOf(p) == FormOf(q)
    ensures LengthKnown(q) ==> LengthKnown(p) && DeclaredLength(p) == DeclaredLength(q)
  {
    assert p[0] == q[0] && p[1] == q[1];
    if LengthKnown(q) {
      assert p[2..2 + FormOf(p).Extended()] == q[2..2 + FormOf(q).Extended()];
    }
  }

  /** A frame is never recognised late: the octet that completes it is its last. */
  lemma CompletesOnLastOctet(p: seq<byte>, b: byte)
    requires !FrameComplete(p) && FrameComplete(p + [b])
    ensures |p + [b]| == FrameSize(p + [b])
  {
    if |p| >= 2 {
      HeaderStable(p, p + [b]);
    }
  }

  lemma LengthPowers()
    ensures Pow256(2) == 0x1_0000 && Pow256(8) == 0x1_0000_0000_0000_0000
  {
    assert Pow256(4) == 0x1_0000_0000;
    assert Pow256(6) == 0x1_0000_0000_0000;
  }

  lemma HeaderReadsBack(f: WireFrame, p: seq<byte>)
    requires f.Valid() && p <= Serialize(f) && |p| >= 2
    ensures p[0] == (if f.fin then 128 else 0) + f.opcode && p[1] == 128 + f.form.LengthOctet(|f.data|)
    ensures !HeaderRefused(p) && FormOf(p) == f.form
    ensures LengthKnown(p) ==> DeclaredLength(p) == |f.data|
  {
    var s := Serialize(f);
    var h := Header(f.fin, f.opcode, true, f.form, |f.data|);
    assert p[0] == s[0] == h[0] && p[1] == s[1] == h[1];
    if LengthKnown(p) && f.form != Short {
      var e := f.form.Extended();
      assert p[2..2 + e] == s[2..2 + e] == h[2..2 + e] == BigEndian(|f.data|, e);
      LengthPowers();
      FromBigEndianOf(|f.data|, e);
    }
  }

  /** A frame is never recognised early. */
  lemma IncompleteBeforeEnd(f: WireFrame, k: nat)
    requires f.Valid() && k < |Serialize(f)|
    ensures !FrameComplete(Serialize(f)[..k])
  {
    if k >= 2 {
      HeaderReadsBack(f, Serialize(f)[..k]);
    }
  }

  /** Reading what a client wrote gives its frame back. */
  lemma ParseSerialize(f: WireFrame)
    requires f.Valid()
    ensures FrameComplete(Serialize(f)) && !HeaderRefused(Serialize(f)) && Parse(Serialize(f)) == f
    ensures FrameSize(Serialize(f)) == |Serialize(f)|
  {
    var s := Serialize(f);
    HeaderReadsBack(f, s);
    var off := f.form.PayloadOffset();
    assert s[off - 4..off] == f.key;
    assert s[off..] == f.data;
  }

  lemma HeaderIsPrefix(p: seq<byte>)
    requires LengthKnown(p) && !HeaderRefused(p)
    ensures var form, len := FormOf(p), DeclaredLength(p);
            form.Admits(len)
            && Header(p[0] >= 128, p[0] % 16, true, form, len) == p[..2 + form.Extended()]
  {
    LengthPowers();
    var form := FormOf(p);
    var e := form.Extended();
    var ext := p[2..2 + e];
    if form != Short {
      BigEndianOf(ext);
    }
    FirstOctet(p[0]);
    hide BigEndian, FromBigEndian;
    assert p[..2 + e] == [p[0], p[1]] + ext;
  }

  lemma FirstOctet(b: nat)
    requires b < 256 && b / 16 % 8 == 0
    ensures b == (if b >= 128 then 128 else 0) + b % 16
  {
  }

  lemma ThreeParts(p: seq<byte>, i: nat, j: nat)
    requires i <= j <= |p|
    ensures p == p[..i] + p[i..j] + p[j..]
  {
  }

  /** Every complete frame with an acceptable header is the writing of exactly one frame. */
  lemma SerializeParse(p: seq<byte>)
    requires FrameComplete(p) && |p| == FrameSize(p) && !HeaderRefused(p)
    ensures Parse(p).Valid() && Serialize(Parse(p)) == p
  {
    hide Header, HeaderRefused, DeclaredLength;
    HeaderIsPrefix(p);
    var off := FormOf(p).PayloadOffset();
    ThreeParts(p, off - 4, off);
    assert p[off..FrameSize(p)] == p[off..];
  }

  // ---- Sending

  /** A frame as the server sends it: the first octet given, the shortest length form, no mask. */
  function SentFrame(first: byte, data: seq<byte>): seq<byte>
    requires |data| < 0x1_0000_0000_0000_0000
  {
    var form := MinimalForm(|data|);
    [first, form.LengthOctet(|data|)] + BigEndian(|data|, form.Extended()) + data
  }

  /** No other way of writing the length is shorter. */
  lemma MinimalIsShortest(len: nat, form: LenForm)
    requires form.Admits(len)
    ensures MinimalForm(len).Admits(len) && MinimalForm(len).Extended() <= form.Extended()
  {
  }

  /** What a client makes of a frame it has been sent: the mask bit set, a key put in, the payload masked. */
  function Masked(s: seq<byte>, form: LenForm, key: seq<byte>): seq<byte>
    requires |key| == 4 && |s| >= 2 + form.Extended() && s[1] < 128
  {
    var n := 2 + form.Extended();
    [s[0], s[1] + 128] + s[2..n] + key + Unmask(key, s[n..])
  }

  lemma MaskedIsSerialized(fin: bool, opcode: nat, key: seq<byte>, payload: seq<byte>)
    requires opcode < 16 && |key| == 4 && |payload| < 0x1_0000_0000_0000_0000
    ensures var form := MinimalForm(|payload|);
            var s := SentFrame((if fin then 128 else 0) + opcode, payload);
            |s| >= 2 + form.Extended() && s[1] < 128
            && Masked(s, form, key) == Serialize(MaskFrame(fin, opcode, form, key, payload))
  {
    hide BigEndian, Unmask;
    var form := MinimalForm(|payload|);
    var s := SentFrame((if fin then 128 else 0) + opcode, payload);
    var n := 2 + form.Extended();
    assert s[n..] == payload && s[2..n] == BigEndian(|payload|, form.Extended());
  }

  /**
   Printing and parsing: whatever is sent, masked with any key and read back, has the flag, the opcode, the length
   and, once unmasked, the payload that were sent.
   */
  lemma SentReadsBack(fin: bool, opcode: nat, key: seq<byte>, payload: seq<byte>)
    requires opcode < 16 && |key| == 4 && |payload| < 0x1_0000_0000_0000_0000
    ensures var form := MinimalForm(|payload|);
            var s := SentFrame((if fin then 128 else 0) + opcode, payload);
            |s| >= 2 + form.Extended() && s[1] < 128
            && var p := Masked(s, form, key);
               FrameComplete(p) && !HeaderRefused(p) && |p| == FrameSize(p)
               && Parse(p).fin == fin && Parse(p).opcode == opcode && |Parse(p).data| == |payload|
               && Parse(p).Payload() == payload
  {
    hide SentFrame, Masked, Serialize, Unmask, FrameComplete, Parse, HeaderRefused;
    MaskedIsSerialized(fin, opcode, key, payload);
    ParseSerialize(MaskFrame(fin, opcode, MinimalForm(|payload|), key, payload));
    UnmaskTwice(key, payload);
  }

  /** A frame in the shortest form is what the server would have sent itself. */
  lemma ServerFrameIsSent(fin: bool, opcode: nat, payload: seq<byte>)
    requires opcode < 16 && |payload| < 0x1_0000_0000_0000_0000
    ensures ServerFrame(fin, opcode, MinimalForm(|payload|), payload)
         == SentFrame((if fin then 128 else 0) + opcode, payload)
  {
  }
}
