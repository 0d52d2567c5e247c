/**
 The receive machine on values: what a connection does with the octets it is given. `Step` consumes one octet,
 `Receive` one whole frame. The machine goes as far as the first `break` out of the loop over a buffer, which drops the
 rest of that buffer.
 */
module Receiving {
  import opened Bytes
  import opened Wire
  import Utf8

  const PROTOCOL_ERROR := 1002
  const WRONG_TYPE := 1007

  datatype Message = Message(opcode: nat, payload: seq<byte>)

  /** The status code and the reason of a Close frame; the reason is a zero-filled buffer. */
  datatype CloseInfo = CloseInfo(code: nat, reason: seq<byte>)

  /** All that the peer and the application can see. */
  datatype Effects = Effects(output: seq<byte>, messages: seq<Message>, closeInfo: Option<CloseInfo>)

  /**
   `fragments`: the complete frames of the message being received.
   `partial`: the octets of the frame being received.
   `last`: the last frame received. Its fields may still be in the structure that the next one is read into.
   Refusing: a header has been refused, and the loop goes on, refusing it again at every octet; `raw` is what has been
   received since the frame began, `after` the last frame received.
   Closing: the loop over the buffer has been left to close the connection; the rest of the buffer is dropped.
   */
  datatype Machine =
    | Open(fragments: seq<WireFrame>, partial: seq<byte>, last: Option<WireFrame>, closeSent: bool, fx: Effects)
    | Refusing(raw: seq<byte>, after: Option<WireFrame>, fx: Effects)
    | Closing(fx: Effects)

  /** A connection after its handshake; `closeSent` tells whether the application has already sent a Close frame. */
  function Start(closeSent: bool): Machine {
    Open([], [], None, closeSent, Effects([], [], None))
  }

  // ---- What a frame structure holds before its header has been read

  datatype Fields = Fields(fin: nat, opcode: nat, payloadOffset: nat, payloadLen: nat, mask: seq<byte>)

  const UNREAD := Fields(0, 0, 0, 0xffff_ffff_ffff_ffff, [0, 0, 0, 0])
  const ZEROED := Fields(0, 0, 0, 0, [0, 0, 0, 0])

  /**
   A control frame leaves its fields, the payload having been moved to where the key was. After a fragment the
   structure is new and zeroed, and after a message, as at the start, new with -1 for a length.
   */
  function LeftBy(last: Option<WireFrame>): Fields {
    if last.None? then UNREAD
    else
      var f := last.value;
      if f.IsControl() then Fields(1, f.opcode, 2 + f.form.Extended(), |f.data|, f.key)
      else if f.fin then UNREAD
      else ZEROED
  }

  /** At this many octets the code takes a frame with a refused header for complete. */
  function Reach(last: Option<WireFrame>): nat {
    LeftBy(last).payloadOffset + LeftBy(last).payloadLen
  }

  /** The last frame is one after which the connection is open. */
  predicate LastOk(last: Option<WireFrame>, fragments: seq<WireFrame>) {
    last.Some? ==>
      var f := last.value;
      && f.Valid()
      && (f.IsControl() ==> f.fin && f.opcode in {PING, PONG} && |f.data| <= 125)
      && (!f.IsControl() && !f.fin ==> fragments != [])
  }

  // ---- Whole frames

  function CloseFrame(code: nat): seq<byte>
    requires code < 0x1_0000
  {
    [0x88, 2] + BigEndian(code, 2)
  }

  function Fail(m: Machine, code: nat): Machine
    requires code < 0x1_0000
  {
    Closing(m.fx.(output := m.fx.output + CloseFrame(code)))
  }

  /** The payloads of the fragments, each unmasked with its own key, end to end. */
  function Joined(fs: seq<WireFrame>): seq<byte>
    requires AllValid(fs)
  {
    if fs == [] then [] else Joined(fs[..|fs| - 1]) + fs[|fs| - 1].Payload()
  }

  /** A text is looked at up to its first NUL only. */
  predicate TextAccepted(m: Message) {
    m.opcode == TEXT ==> Utf8.IsOctets(UpToNul(m.payload))
  }

  function Dispatch(m: Machine, fs: seq<WireFrame>): (r: Machine)
    requires m.Open? && fs != [] && AllValid(fs)
    ensures !r.Refusing? && (r.Open? ==> r.fragments == [] && SameButLast(m, r) && r.last == Some(fs[|fs| - 1]))
  {
    var msg := Message(fs[0].opcode, Joined(fs));
    if TextAccepted(msg) then
      m.(fragments := [], last := Some(fs[|fs| - 1]), fx := m.fx.(messages := m.fx.messages + [msg]))
    else
      Fail(m, WRONG_TYPE)
  }

  /** What a frame does not change. */
  predicate SameButLast(m: Machine, r: Machine)
    requires m.Open? && r.Open?
  {
    r.partial == m.partial && r.closeSent == m.closeSent
  }

  predicate CodeRefused(code: nat) {
    code < 1000 || code == 1004 || code == 1005 || code == 1006 || 1011 < code < 3000
  }

  const REASON_SIZE := 124

  /** A reason as stored: cut to the size of the buffer, or filled up with zeros. */
  function StoredReason(reason: seq<byte>): (r: seq<byte>)
    ensures |r| == REASON_SIZE
  {
    if |reason| > REASON_SIZE then reason[..REASON_SIZE] else reason + Zeros(REASON_SIZE - |reason|)
  }

  function CloseInfoOf(payload: seq<byte>): Option<CloseInfo> {
    if |payload| < 2 then None
    else Some(CloseInfo(FromBigEndian(payload[..2]), StoredReason(payload[2..])))
  }

  /** The payload of the answer to a Close frame. */
  function CloseReply(payload: seq<byte>): (r: seq<byte>)
    ensures |r| == |payload|
  {
    if |payload| < 2 then payload
    else if CodeRefused(FromBigEndian(payload[..2])) then BigEndian(PROTOCOL_ERROR, 2) + payload[2..]
    else if !Utf8.IsOctets(UpToNul(payload[2..])) then BigEndian(WRONG_TYPE, 2) + payload[2..]
    else payload
  }

  function Control(m: Machine, f: WireFrame): (r: Machine)
    requires m.Open? && f.Valid()
    ensures !r.Refusing?
    ensures r.Open? ==>
              && r.fragments == m.fragments && SameButLast(m, r)
              && r.last == Some(f) && f.opcode in {PING, PONG} && |f.data| <= 125
  {
    if |f.data| > 125 then Fail(m, PROTOCOL_ERROR)
    else if f.opcode == PING then
      m.(last := Some(f), fx := m.fx.(output := m.fx.output + ServerFrame(true, PONG, f.form, f.Payload())))
    else if f.opcode == PONG then m.(last := Some(f))
    else if f.opcode != CLOSE then Fail(m, PROTOCOL_ERROR)
    else
      Closing(m.fx.(closeInfo := CloseInfoOf(f.Payload()),
                    output := m.fx.output
                    + if m.closeSent then [] else ServerFrame(f.fin, CLOSE, f.form, CloseReply(f.Payload()))))
  }

  function Act(m: Machine, f: WireFrame): (r: Machine)
    requires m.Open? && AllValid(m.fragments) && f.Valid()
    ensures !r.Refusing?
    ensures r.Open? ==>
              && AllValid(r.fragments) && SameButLast(m, r) && r.last == Some(f)
              && (f.IsControl() ==> f.opcode in {PING, PONG} && |f.data| <= 125)
  {
    if f.opcode in {CLOSE, PING, PONG} then Control(m, f)
    else if f.opcode in {TEXT, BINARY, CONTINUATION} then Dispatch(m, m.fragments + [f])
    else Fail(m, PROTOCOL_ERROR)
  }

  predicate Inv(m: Machine) {
    match m
    case Open(fragments, _, last, _, _) => AllValid(fragments) && LastOk(last, fragments)
    case Refusing(_, after, _) => after.Some? ==> after.value.Valid()
    case Closing(_) => true
  }

  /** One complete frame. */
  function Receive(m: Machine, f: WireFrame): (r: Machine)
    requires Inv(m) && f.Valid()
    ensures Inv(r)
    ensures m.Open? && r.Open? ==> r.partial == m.partial && r.closeSent == m.closeSent && r.last == Some(f)
    ensures m.Open? ==> !r.Refusing?
  {
    if !m.Open? then m
    else if m.fragments != [] then
      if f.fin then
        if !f.IsControl() && f.opcode != CONTINUATION then Fail(m, PROTOCOL_ERROR) else Act(m, f)
      else if f.opcode != CONTINUATION then Fail(m, PROTOCOL_ERROR)
      else m.(fragments := m.fragments + [f], last := Some(f))
    else if f.fin then
      if f.opcode == CONTINUATION then Fail(m, PROTOCOL_ERROR) else Act(m, f)
    else if f.IsControl() || f.opcode == CONTINUATION then Fail(m, PROTOCOL_ERROR)
    else m.(fragments := [f], last := Some(f))
  }

  function ReceiveAll(m: Machine, fs: seq<WireFrame>): (r: Machine)
    requires Inv(m) && AllValid(fs)
    ensures Inv(r)
    ensures m.Open? && r.Open? ==> r.partial == m.partial && r.closeSent == m.closeSent
    ensures !m.Open? ==> r == m
    ensures m.Open? ==> !r.Refusing?
    decreases |fs|
  {
    if fs == [] then m else Receive(ReceiveAll(m, fs[..|fs| - 1]), fs[|fs| - 1])
  }

  // ---- Octets

  /** The header is looked at when the third octet of the frame arrives. */
  predicate Refuses(p: seq<byte>) {
    |p| == 3 && HeaderRefused(p)
  }

  /** The octets of the frame being received: its header was not refused, and it is not complete. */
  predicate Pending(p: seq<byte>) {
    !FrameComplete(p) && (|p| >= 3 ==> !HeaderRefused(p))
  }

  predicate Valid(m: Machine) {
    && Inv(m) && (m.Open? ==> Pending(m.partial))
    && (m.Refusing? ==> |m.raw| >= 3 && HeaderRefused(m.raw) && |m.raw| < Reach(m.after))
  }

  /**
   What the control callback sends when it is run once more on the fields of f, the buffer holding p: the payload of f
   is taken from where it would be in p. For the short form there is no room in front of it; see `Overruns`.
   */
  function SentAgain(f: WireFrame, p: seq<byte>): seq<byte>
    requires f.Valid() && |p| >= 3
  {
    var off, n := 2 + f.form.Extended(), |f.data|;
    if f.opcode != PING || f.form == Short || |p| < off + n then []
    else
      var s := ServedAgain(f, p);
      if s == [] then [] else s[0 := 0x8a]
  }

  /** What is in the buffer then, up to the end of the payload. */
  function ServedAgain(f: WireFrame, p: seq<byte>): seq<byte>
    requires f.Valid() && f.form != Short && |p| >= 2 + f.form.Extended() + |f.data|
  {
    var off, n := 2 + f.form.Extended(), |f.data|;
    var s := p[..off - 4] + Unmask(f.key, p[off..off + n]);
    if |s| < 2 then s else s[1 := s[1] % 128]
  }

  /** The callback, run once more on the fields of the last frame, would reach outside of the buffer. */
  predicate Overruns(last: Option<WireFrame>) {
    && last.Some? && last.value.IsControl() && last.value.form == Short
    && (last.value.opcode == PING || last.value.data != [])
  }

  /**
   A refused header, of which p has been received: one more Close frame, and then it depends on what is left over.
   Where p is long enough and `Overruns(last)`, this does not describe the code, which writes outside of the buffer.
   */
  function Refuse(fx: Effects, last: Option<WireFrame>, p: seq<byte>): Machine
    requires |p| >= 3 && (last.Some? ==> last.value.Valid())
  {
    var fx' := fx.(output := fx.output + CloseFrame(PROTOCOL_ERROR));
    if |p| < Reach(last) then Refusing(p, last, fx')
    else if last.Some? && last.value.IsControl() then
      Closing(fx'.(output := fx'.output + SentAgain(last.value, p)))
    else Closing(fx')
  }

  /** One octet. */
  function Step(m: Machine, b: byte): (r: Machine)
    requires Valid(m)
    ensures Valid(r)
  {
    if m.Closing? then m
    else if m.Refusing? then Refuse(m.fx, m.after, m.raw + [b])
    else
      var p := m.partial + [b];
      if Refuses(p) then Refuse(m.fx, m.last, p)
      else if FrameComplete(p) then
        CompletesOnLastOctet(m.partial, b);
        assert |p| >= 3 ==> p[0] == p[..3][0] && p[1] == p[..3][1];
        SerializeParse(p);
        Receive(m.(partial := []), Parse(p))
      else m.(partial := p)
  }

  function Run(m: Machine, bs: seq<byte>): (r: Machine)
    requires Valid(m)
    ensures Valid(r)
    ensures m.Closing? ==> r == m
  {
    if bs == [] then m else Step(Run(m, bs[..|bs| - 1]), bs[|bs| - 1])
  }

  // ---- Stored reasons

  lemma {:induction false} UpToNulPadded(s: seq<byte>, n: nat)
    requires n > 0
    ensures UpToNul(s + Zeros(n)) == UpToNul(s)
    decreases |s|
  {
    if s == [] {
      assert s + Zeros(n) == Zeros(n);
    } else {
      assert (s + Zeros(n))[1..] == s[1..] + Zeros(n);
      UpToNulPadded(s[1..], n);
    }
  }

  /** A reason that comes in a control frame is stored whole and NUL-terminated. */
  lemma StoredReasonText(reason: seq<byte>)
    requires |reason| <= 123
    ensures reason <= StoredReason(reason) && 0 in StoredReason(reason)
    ensures UpToNul(StoredReason(reason)) == UpToNul(reason)
  {
    UpToNulPadded(reason, REASON_SIZE - |reason|);
    assert StoredReason(reason)[REASON_SIZE - 1] == 0;
  }
}
