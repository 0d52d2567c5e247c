/** Rules of RFC 6455 that the receive machine keeps over every run, and what it says when it closes. */
module Rules {
  import opened Bytes
  import opened Wire
  import opened Receiving
  import opened Conformance
  import Utf8

  // ---- The fragments of the message being received

  /** Non-final data frames, the first with an opcode of its own and the others without. */
  predicate FragmentList(fs: seq<WireFrame>) {
    forall i :: 0 <= i < |fs| ==> !fs[i].fin && fs[i].opcode < 8 && (fs[i].opcode != CONTINUATION <==> i == 0)
  }

  lemma ReceiveKeepsFragments(m: Machine, f: WireFrame)
    requires Inv(m) && f.Valid() && (m.Open? ==> FragmentList(m.fragments))
    ensures Receive(m, f).Open? ==> FragmentList(Receive(m, f).fragments)
  {
    hide Joined, TextAccepted, ServerFrame, CloseReply;
  }

  lemma StepKeepsFragments(m: Machine, b: byte)
    requires Valid(m) && (m.Open? ==> FragmentList(m.fragments))
    ensures Step(m, b).Open? ==> FragmentList(Step(m, b).fragments)
  {
    hide FragmentList, Receive;
    if m.Open? {
      var p := m.partial + [b];
      if FrameComplete(p) && !Refuses(p) {
        CompletesOnLastOctet(m.partial, b);
        SerializeParse(p);
        ReceiveKeepsFragments(m.(partial := []), Parse(p));
      }
    }
  }

  /** At every octet of every run. */
  lemma {:induction false} RunKeepsFragments(closeSent: bool, bs: seq<byte>)
    ensures Valid(Start(closeSent))
    ensures Run(Start(closeSent), bs).Open? ==> FragmentList(Run(Start(closeSent), bs).fragments)
    decreases |bs|
  {
    if bs != [] {
      hide FragmentList, Step;
      RunKeepsFragments(closeSent, bs[..|bs| - 1]);
      var m := Run(Start(closeSent), bs[..|bs| - 1]);
      if m.Open? {
        StepKeepsFragments(m, bs[|bs| - 1]);
      }
    }
  }

  // ---- Closing

  /**
   What the frame that closes a connection makes it say: a Close frame is echoed unless one has been sent before, and
   a failure is told by a Close frame in any case, be it the second one.
   */
  function LastWords(m: Machine, f: WireFrame): seq<byte>
    requires m.Open? && f.Valid()
  {
    if f.opcode == CLOSE && f.fin && |f.data| <= 125 then
      if m.closeSent then [] else ServerFrame(true, CLOSE, f.form, CloseReply(f.Payload()))
    else if !f.IsControl() && f.fin && (f.opcode != CONTINUATION <==> m.fragments == [])
            && f.opcode in {CONTINUATION, TEXT, BINARY} then
      CloseFrame(WRONG_TYPE)
    else
      CloseFrame(PROTOCOL_ERROR)
  }

  lemma ClosesWith(m: Machine, f: WireFrame)
    requires Inv(m) && m.Open? && f.Valid() && Receive(m, f).Closing?
    ensures Receive(m, f).fx.output == m.fx.output + LastWords(m, f)
    ensures Receive(m, f).fx.messages == m.fx.messages
  {
    hide Joined, TextAccepted, ServerFrame, CloseReply;
    if f.opcode == CLOSE && f.fin && |f.data| <= 125 && m.closeSent {
      assert m.fx.output + [] == m.fx.output;
    }
  }

  /**
   Whichever frame it is that closes a connection, the frames before it were accepted and have been served, and the
   answer to it is its last words.
   */
  lemma ClosesWithLastWords(closeSent: bool, fs: seq<WireFrame>)
    requires AllValid(fs) && fs != []
    requires ReceiveAll(Start(closeSent), fs[..|fs| - 1]).Open? && !ReceiveAll(Start(closeSent), fs).Open?
    ensures var init, r := fs[..|fs| - 1], ReceiveAll(Start(closeSent), fs);
            && Accepted(init) && !Accepted(fs) && r.Closing?
            && r.fx.output == Pongs(ControlFrames(init)) + LastWords(Reached(closeSent, init), fs[|fs| - 1])
            && r.fx.messages == MessagesOf(DataFrames(init))
  {
    hide Accepted, Receive, LastWords, Pongs, MessagesOf, DataFrames, ControlFrames, OpenTail;
    var init, f := fs[..|fs| - 1], fs[|fs| - 1];
    ReceivesExactly(closeSent, init);
    ReceivesExactly(closeSent, fs);
    ClosesWith(ReceiveAll(Start(closeSent), init), f);
  }

  /**
   The answer to a Close frame in the short form with a status code: the same length and reason, and the same code
   unless that is one of the refused ones (1002) or the reason, up to its first NUL, is not UTF-8 (1007).
   */
  lemma CloseIsEchoed(m: Machine, f: WireFrame)
    requires Inv(m) && m.Open? && !m.closeSent && f.Valid()
    requires f.opcode == CLOSE && f.fin && f.form == Short && |f.data| >= 2
    ensures var p := f.Payload();
            var code := FromBigEndian(p[..2]);
            var r := Receive(m, f);
            && r.Closing? && m.fx.output <= r.fx.output
            && var echo := r.fx.output[|m.fx.output|..];
               |echo| == 2 + |p| && echo[..2] == [0x88, |p|] && echo[4..] == p[2..]
               && FromBigEndian(echo[2..4])
                  == (if code <= 999 || 1004 <= code <= 1006 || 1012 <= code <= 2999 then 1002
                      else if Utf8.IsOctets(UpToNul(p[2..])) then code else 1007)
               && r.fx.closeInfo == Some(CloseInfo(code, StoredReason(p[2..]))) && |StoredReason(p[2..])| == 124
               && 0 in StoredReason(p[2..]) && UpToNul(StoredReason(p[2..])) == UpToNul(p[2..])
  {
    hide Utf8.IsOctets, UpToNul, StoredReason, Unmask, FromBigEndian, BigEndian, Receive, Control, CodeRefused,
      CloseReply, ServerFrame, CloseInfoOf;
    var p := f.Payload();
    var reply := CloseReply(p);
    StoredReasonText(p[2..]);
    ReplyCode(p);
    ShortHeader(reply);
    CloseIsAnswered(m, f);
    var h := ServerFrame(true, CLOSE, Short, reply);
    assert h[2..4] == reply[..2] && h[4..] == reply[2..];
  }

  lemma CloseIsAnswered(m: Machine, f: WireFrame)
    requires Inv(m) && m.Open? && !m.closeSent && f.Valid()
    requires f.opcode == CLOSE && f.fin && f.form == Short && |f.data| >= 2
    ensures var p := f.Payload();
            var r := Receive(m, f);
            && r.Closing? && r.fx.output == m.fx.output + ServerFrame(true, CLOSE, Short, CloseReply(p))
            && r.fx.closeInfo == Some(CloseInfo(FromBigEndian(p[..2]), StoredReason(p[2..])))
  {
    hide StoredReason, Unmask, FromBigEndian, CloseReply, ServerFrame;
  }

  lemma ShortHeader(payload: seq<byte>)
    requires |payload| <= 125
    ensures ServerFrame(true, CLOSE, Short, payload) == [0x88, |payload|] + payload
  {
    assert BigEndian(|payload|, 0) == [];
  }

  lemma ReplyCode(p: seq<byte>)
    requires |p| >= 2
    ensures var code := FromBigEndian(p[..2]);
            CloseReply(p)[2..] == p[2..]
            && FromBigEndian(CloseReply(p)[..2])
               == (if code <= 999 || 1004 <= code <= 1006 || 1012 <= code <= 2999 then 1002
                   else if Utf8.IsOctets(UpToNul(p[2..])) then code else 1007)
  {
    hide Utf8.IsOctets, UpToNul, BigEndian, FromBigEndian;
    TwoOctetCode(PROTOCOL_ERROR);
    TwoOctetCode(WRONG_TYPE);
    assert (BigEndian(PROTOCOL_ERROR, 2) + p[2..])[..2] == BigEndian(PROTOCOL_ERROR, 2);
    assert (BigEndian(WRONG_TYPE, 2) + p[2..])[..2] == BigEndian(WRONG_TYPE, 2);
  }

  lemma TwoOctetCode(code: nat)
    requires code < 0x1_0000
    ensures FromBigEndian(BigEndian(code, 2)) == code
  {
    LengthPowers();
    FromBigEndianOf(code, 2);
  }

  /** A control frame of more than 125 octets, or without FIN, is a protocol error whichever it is. */
  lemma LongControlIsRefused(m: Machine, f: WireFrame)
    requires Inv(m) && m.Open? && f.Valid() && f.opcode in {8, 9, 10} && (|f.data| > 125 || !f.fin)
    ensures Receive(m, f).Closing?
    ensures Receive(m, f).fx == m.fx.(output := m.fx.output + [0x88, 0x02, 0x03, 0xea])
  {
    hide ServerFrame, CloseReply, CloseInfoOf;
    assert BigEndian(3, 1) == [0x03] && BigEndian(1002, 2) == [0x03, 0xea];
  }

  /**
   The answer to a PING is a FIN PONG with its payload and its length form, and so the PONG that the server would send
   itself exactly when the PING is in the short form.
   */
  lemma PongIsSent(m: Machine, f: WireFrame)
    requires Inv(m) && m.Open? && f.Valid() && f.opcode == PING && f.fin && |f.data| <= 125
    ensures Receive(m, f) == Answered(m, f, ServerFrame(true, PONG, f.form, f.Payload()))
    ensures Receive(m, f) == Answered(m, f, SentFrame(0x8a, f.Payload())) <==> f.form == Short
  {
    hide Unmask, SentFrame, ServerFrame;
    ServerFrameIsSent(true, PONG, f.Payload());
    SentLength(0x8a, f.Payload());
    AnsweredLength(m, f, ServerFrame(true, PONG, f.form, f.Payload()));
    AnsweredLength(m, f, SentFrame(0x8a, f.Payload()));
  }

  /** An open connection that has received f and sent s, and done nothing else. */
  function Answered(m: Machine, f: WireFrame, s: seq<byte>): Machine
    requires m.Open?
  {
    m.(last := Some(f), fx := m.fx.(output := m.fx.output + s))
  }

  lemma AnsweredLength(m: Machine, f: WireFrame, s: seq<byte>)
    requires m.Open?
    ensures |Answered(m, f, s).fx.output| == |m.fx.output| + |s|
  {
  }

  lemma SentLength(first: byte, data: seq<byte>)
    requires |data| <= 125
    ensures |SentFrame(first, data)| == 2 + |data|
  {
  }
}
