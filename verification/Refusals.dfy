/**
 What a refused header does. The code answers it, and neither leaves the loop nor clears the frame structure: what
 happens next depends on the fields that the frame before has left over.
 */
module Refusals {
  import opened Bytes
  import opened Wire
  import opened Receiving
  import opened Conformance
  import Framing
  import Connections

  /** k Close frames with the code 1002. */
  function Closes(k: nat): (r: seq<byte>)
    ensures |r| == 4 * k
  {
    if k == 0 then [] else Closes(k - 1) + CloseFrame(PROTOCOL_ERROR)
  }

  function Answered(fx: Effects, k: nat): Effects {
    fx.(output := fx.output + Closes(k))
  }

  lemma OneMore(fx: Effects, k: nat)
    ensures Answered(fx, k).(output := Answered(fx, k).output + CloseFrame(PROTOCOL_ERROR)) == Answered(fx, k + 1)
    ensures Answered(fx, 0) == fx
  {
    assert fx.output + (Closes(k) + CloseFrame(PROTOCOL_ERROR)) == fx.output + Closes(k) + CloseFrame(PROTOCOL_ERROR);
    assert fx.output + [] == fx.output;
  }

  lemma TwoOctets(m: Machine, h: seq<byte>)
    requires Valid(m) && m.Open? && m.partial == [] && |h| == 2
    ensures Run(m, h) == m.(partial := h)
  {
    assert h[..1][..0] == [] && [] + [h[0]] == h[..1] && h[..1] + [h[1]] == h;
    assert Run(m, []) == m;
    assert Run(m, h[..1]) == Step(m, h[0]);
  }

  /** The header is refused at its third octet. */
  lemma AtThirdOctet(m: Machine, h: seq<byte>)
    requires Valid(m) && m.Open? && m.partial == [] && |h| == 3 && HeaderRefused(h)
    ensures Run(m, h) == Refuse(m.fx, m.last, h)
  {
    hide Run, FrameComplete;
    TwoOctets(m, h[..2]);
    Framing.RunLast(m, h);
    assert h[..2] + [h[2]] == h;
  }

  /** As long as less has arrived than the fields left over ask for, every octet is answered by one more Close frame. */
  lemma {:induction false} GoesOn(m: Machine, h: seq<byte>, t: seq<byte>)
    requires Valid(m) && m.Open? && m.partial == [] && |h| == 3 && HeaderRefused(h)
    requires 3 + |t| < Reach(m.last)
    ensures Run(m, h + t) == Refusing(h + t, m.last, Answered(m.fx, 1 + |t|))
    decreases |t|
  {
    hide Step, Answered;
    OneMore(m.fx, |t|);
    if t == [] {
      AtThirdOctet(m, h);
      assert h + t == h;
    } else {
      var init, b := t[..|t| - 1], t[|t| - 1];
      GoesOn(m, h, init);
      assert (h + t)[..|h + t| - 1] == h + init && h + init + [b] == h + t;
      Connections.StepRefusing(Run(m, h + init), b);
    }
  }

  /** Where the fields left over ask for no more than three octets, the loop is left at the third. */
  lemma LeavesLoop(m: Machine, h: seq<byte>, t: seq<byte>)
    requires Valid(m) && m.Open? && m.partial == [] && |h| == 3 && HeaderRefused(h)
    requires Reach(m.last) <= 3
    ensures Run(m, h + t) == Closing(Answered(m.fx, 1))
  {
    hide Run, Answered, Reach;
    OneMore(m.fx, 0);
    AtThirdOctet(m, h);
    ShortReach(m.last, h);
    assert Answered(m.fx, 1).output + [] == Answered(m.fx, 1).output;
    Framing.RunConcat(m, h, t);
  }

  /** The longer length forms ask for more. */
  lemma ShortReach(last: Option<WireFrame>, h: seq<byte>)
    requires Reach(last) <= 3 && |h| == 3 && (last.Some? ==> last.value.Valid())
    ensures last.Some? && last.value.IsControl() ==> SentAgain(last.value, h) == []
  {
  }

  lemma {:induction false} OutputGrows(m: Machine, t: seq<byte>)
    requires Valid(m) && !m.Open?
    ensures !Run(m, t).Open? && |Run(m, t).fx.output| >= |m.fx.output|
    decreases |t|
  {
    if t != [] {
      hide Step, SentAgain;
      var r := Run(m, t[..|t| - 1]);
      OutputGrows(m, t[..|t| - 1]);
      if r.Refusing? {
        Connections.StepRefusing(r, t[|t| - 1]);
      } else {
        Framing.StaysShut(r, t[|t| - 1]);
      }
    }
  }

  /**
   On the machine, which does not tell whether the callback stays inside of the buffer: a refused header is answered by
   one Close frame alone exactly when nothing comes after it or the fields left over make the code leave the loop.
   */
  lemma AnsweredOnce(m: Machine, h: seq<byte>, t: seq<byte>)
    requires Valid(m) && m.Open? && m.partial == [] && |h| == 3 && HeaderRefused(h)
    ensures Run(m, h + t).fx.output == m.fx.output + CloseFrame(PROTOCOL_ERROR)
       <==> t == [] || Reach(m.last) <= 3
  {
    hide Run, Reach, Answered;
    OneMore(m.fx, 0);
    if Reach(m.last) <= 3 {
      LeavesLoop(m, h, t);
    } else if t == [] {
      GoesOn(m, h, t);
    } else {
      TwiceAtLeast(m, h, t);
    }
    AnsweredOutput(m.fx);
  }

  lemma AnsweredOutput(fx: Effects)
    ensures Answered(fx, 1).output == fx.output + CloseFrame(PROTOCOL_ERROR)
    ensures |CloseFrame(PROTOCOL_ERROR)| == 4
  {
    assert [] + CloseFrame(PROTOCOL_ERROR) == CloseFrame(PROTOCOL_ERROR);
  }

  lemma TwiceAtLeast(m: Machine, h: seq<byte>, t: seq<byte>)
    requires Valid(m) && m.Open? && m.partial == [] && |h| == 3 && HeaderRefused(h)
    requires Reach(m.last) > 3 && t != []
    ensures |Run(m, h + t).fx.output| >= |m.fx.output| + 8
  {
    hide Run, Step, Reach, SentAgain;
    GoesOn(m, h, []);
    assert h + [] == h;
    var r := Run(m, h);
    Framing.RunConcat(m, h, t);
    Framing.RunConcat(r, t[..1], t[1..]);
    assert t == t[..1] + t[1..];
    RunOne(r, t[..1]);
    Connections.StepRefusing(r, t[0]);
    OutputGrows(Run(r, t[..1]), t[1..]);
  }

  lemma RunOne(r: Machine, t: seq<byte>)
    requires Valid(r) && |t| == 1
    ensures Run(r, t) == Step(r, t[0])
  {
    assert Run(r, t[..0]) == r;
  }

  // ---- Where the callback is run again

  predicate MovedInside(x: Fields, i: nat, size: nat) {
    0 <= x.payloadOffset + i - 4 && x.payloadOffset + i < size
  }

  /**
   The control callback, run on the fields x and a buffer of that size, reads and writes inside of the buffer: it moves
   each octet of the payload four places to the left, and what it sends for a PING ends where the payload then does.
   */
  predicate CallbackInside(x: Fields, size: nat) {
    || x.payloadLen > 125
    || (&& (forall i :: 0 <= i < x.payloadLen ==> MovedInside(x, i, size))
        && (x.opcode == PING ==> (x.payloadOffset - 4) % 0x1_0000_0000 + x.payloadLen <= size))
  }

  /** It does, except after a PING in the short form and after a PONG in the short form that is not empty. */
  lemma OverrunsExactly(last: Option<WireFrame>, fragments: seq<WireFrame>, size: nat)
    requires LastOk(last, fragments) && last.Some? && last.value.IsControl()
    requires 1024 <= size <= 0x8000_0000
    ensures CallbackInside(LeftBy(last), size) <==> !Overruns(last)
  {
    var x := LeftBy(last);
    if Overruns(last) && x.payloadLen > 0 {
      assert !MovedInside(x, 0, size);
    }
  }

  /** Of a frame with a refused header n octets have arrived, and the callback, if it has been run, stayed inside. */
  predicate StaysInside(last: Option<WireFrame>, n: nat, size: nat) {
    last.Some? && last.value.IsControl() && n >= Reach(last) ==> CallbackInside(LeftBy(last), size)
  }

  /** A short PING of at most one octet, or a short PONG of one. */
  predicate OverrunsAtOnce(last: Option<WireFrame>) {
    && last.Some? && last.value.form == Short
    && (|| (last.value.opcode == PING && |last.value.data| <= 1)
        || (last.value.opcode == PONG && |last.value.data| == 1))
  }

  // ---- In terms of the frame before

  /** The loop is left at once after a fragment, and after a control frame in the short form of at most one octet. */
  predicate LeavesAtOnce(last: Option<WireFrame>) {
    last.Some? && if last.value.IsControl() then last.value.form == Short && |last.value.data| <= 1 else !last.value.fin
  }

  lemma ReachIsShort(last: Option<WireFrame>, fragments: seq<WireFrame>)
    requires LastOk(last, fragments)
    ensures Reach(last) <= 3 <==> LeavesAtOnce(last)
  {
  }

  /**
   From the start, for any accepted frames, with a refused header after them and the rest of a buffer: the code sends
   one Close frame alone, and stays inside of its own buffer, exactly when nothing comes after the header or the loop
   is left at once, and the last frame is no short PING of at most one octet and no short PONG of one.
   */
  lemma RefusedAfterFrames(closeSent: bool, fs: seq<WireFrame>, h: seq<byte>, t: seq<byte>, size: nat)
    requires AllValid(fs) && Accepted(fs) && |h| == 3 && HeaderRefused(h)
    requires 1024 <= size <= 0x8000_0000
    ensures && StaysInside(Last(fs), 3 + |t|, size)
            && Run(Start(closeSent), SerializeAll(fs) + (h + t)).fx.output
               == Pongs(ControlFrames(fs)) + CloseFrame(PROTOCOL_ERROR)
       <==> (t == [] || LeavesAtOnce(Last(fs))) && !OverrunsAtOnce(Last(fs))
  {
    hide Run, Accepted, SerializeAll, DataFrames, ControlFrames, MessagesOf, OpenTail, Pongs, Reach, CallbackInside;
    ReceivesExactly(closeSent, fs);
    Framing.RunFrames(Start(closeSent), fs);
    Framing.RunConcat(Start(closeSent), SerializeAll(fs), h + t);
    AnsweredOnce(Reached(closeSent, fs), h, t);
    ReachIsShort(Last(fs), OpenTail(DataFrames(fs)));
    if Last(fs).Some? && Last(fs).value.IsControl() {
      OverrunsExactly(Last(fs), OpenTail(DataFrames(fs)), size);
    }
  }

  // ---- Two inputs

  /** A header with reserved bits, and three octets more: four Close frames. */
  lemma FourCloses()
    ensures Run(Start(false), [0xf1, 0x80, 0, 0, 0, 0]).fx.output == Closes(4)
  {
    hide Run;
    var h: seq<byte>, t: seq<byte> := [0xf1, 0x80, 0], [0, 0, 0];
    assert h + t == [0xf1, 0x80, 0, 0, 0, 0];
    GoesOn(Start(false), h, t);
    assert [] + Closes(4) == Closes(4);
  }

  const EMPTY_PING := WireFrame(true, PING, Short, [0, 0, 0, 0], [])

  /** An empty PING, and then a header with reserved bits: its third octet is one for which nothing is promised. */
  lemma PingThenRefused()
    ensures Serialize(EMPTY_PING) == [0x89, 0x80, 0, 0, 0, 0]
    ensures var m := Run(Start(false), Serialize(EMPTY_PING) + [0xf0, 0x80]);
            m.Open? && !Connections.OctetFits(m, 0)
  {
    hide Run, Receive;
    assert BigEndian(0, 0) == [];
    Framing.RunFrame(Start(false), EMPTY_PING);
    PingReceived();
    var m := Receive(Start(false), EMPTY_PING);
    Framing.RunConcat(Start(false), Serialize(EMPTY_PING), [0xf0, 0x80]);
    TwoOctets(m, [0xf0, 0x80]);
  }

  lemma PingReceived()
    ensures var m := Receive(Start(false), EMPTY_PING);
            m.Open? && m.last == Some(EMPTY_PING) && m.partial == []
  {
    hide ServerFrame, Unmask;
  }
}
