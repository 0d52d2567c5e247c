/**
 A client connection after its handshake: the receive loop, the handling of whole frames and the default control
 callback, proved to do what the machine of `Receiving` does.
 */
module Connections {
  import opened Bytes
  import opened Wire
  import opened Frames
  import opened FrameLists
  import R = Receiving
  import Utf8
  import Framing

  class Connection {
    var currentFrame: Frame?
    // STATE_SHOULD_CLOSE, STATE_SENT_CLOSE_FRAME, STATE_RECEIVING_FRAGMENT
    var shouldClose: bool
    var sentCloseFrame: bool
    var receivingFragment: bool
    var closeInfo: Option<R.CloseInfo>
    /** Octets handed to the output buffer, and messages handed to the application. */
    var output: seq<byte>
    var delivered: seq<R.Message>

    /** The list that currentFrame ends, and what its complete frames hold. */
    ghost var frames: seq<Frame>
    ghost var wires: seq<WireFrame>
    /** The last frame received. */
    ghost var last: Option<WireFrame>
    /** The frames, and their buffers, that are allocated and not released. */
    ghost var live: set<object>
    ghost var Repr: set<object>

    /** After the handshake; the application may have sent a Close frame already. */
    constructor (closeSent: bool)
      ensures Valid() && Abs() == R.Start(closeSent)
      ensures fresh(Repr)
    {
      currentFrame := null;
      shouldClose, sentCloseFrame, receivingFragment := false, closeSent, false;
      closeInfo := None;
      output, delivered := [], [];
      frames, wires, last, live, Repr := [], [], None, {}, {this};
    }

    /** The complete frames before the one being received. */
    ghost function Earlier(): seq<Frame>
      reads this`frames
    {
      if frames == [] then [] else frames[..|frames| - 1]
    }

    /** The frame list, whatever the frames hold: what can be released. */
    ghost predicate Releasable()
      reads this, Repr
    {
      && this in Repr && (forall i :: 0 <= i < |frames| ==> frames[i] in Repr && frames[i].rawdata in Repr)
      && (currentFrame == null <==> frames == [])
      && (frames != [] ==> currentFrame == frames[|frames| - 1])
      && Linked(frames) && Apart(frames) && live == Blocks(frames)
    }

    /** The frame list, apart from the octets of the frame being received. */
    ghost predicate ListOk()
      reads this, Repr
    {
      Releasable() && Hold(Earlier(), wires)
    }

    /** STATE_RECEIVING_FRAGMENT says that the frame being received has a predecessor. */
    ghost predicate FlagOk()
      reads this
    {
      receivingFragment <==> wires != []
    }

    ghost predicate Valid()
      reads this, Repr
    {
      && !shouldClose && closeInfo == None && ListOk() && FlagOk() && R.LastOk(last, wires)
      && (currentFrame == null ==> R.LeftBy(last) == R.UNREAD)
      && (currentFrame != null ==>
            && currentFrame.Buffered() && currentFrame.HeaderRead(currentFrame.Raw())
            && R.Pending(currentFrame.Raw()) && Fits(currentFrame.Raw())
            && (|currentFrame.Raw()| <= 2 ==> currentFrame.Fields() == R.LeftBy(last)))
    }

    /** A header has been refused, and the loop goes on. */
    ghost predicate Refused()
      reads this, Repr
    {
      && shouldClose && closeInfo == None && ListOk() && FlagOk() && R.LastOk(last, wires)
      && currentFrame != null && currentFrame.Buffered() && currentFrame.Refused()
      && |currentFrame.Raw()| <= MAX_FRAME && |currentFrame.Raw()| < R.Reach(last)
      && currentFrame.Fields() == R.LeftBy(last)
    }

    /** The loop goes on, with a connection that is open or one that is refusing a header. */
    ghost predicate Going()
      reads this, Repr
    {
      Valid() || Refused()
    }

    ghost function Fx(): R.Effects
      reads this
    {
      R.Effects(output, delivered, closeInfo)
    }

    /** The value this connection stands for. */
    ghost function Abs(): R.Machine
      requires Going()
      reads this, Repr
    {
      if shouldClose then R.Refusing(currentFrame.Raw(), last, Fx())
      else R.Open(wires, if currentFrame == null then [] else currentFrame.Raw(), last, sentCloseFrame, Fx())
    }

    /** This connection is where the machine is; its list can be released even when it is to close. */
    ghost predicate Matches(r: R.Machine)
      reads this, Repr
    {
      match r
      case Open(_, _, _, _, _) => Valid() && Abs() == r
      case Refusing(_, _, _) => Refused() && Abs() == r
      case Closing(fx) => shouldClose && Releasable() && Fx() == fx
    }

    method FailConnection(code: nat)
      requires code < 0x1_0000
      modifies this`output, this`shouldClose
      ensures shouldClose && output == old(output) + R.CloseFrame(code)
      ensures old(ListOk()) ==> ListOk() && Releasable()
    {
      hide Frame.Holds, Linked, Apart, Blocks;
      output := output + [0x88, 2] + BigEndian(code, 2);
      shouldClose := true;
    }

    /** The frame being received, allocated when there is none. */
    method NeedFrame()
      requires Going()
      modifies this`currentFrame, this`frames, this`live, this`Repr
      ensures Going() && currentFrame != null && Abs() == old(Abs()) && old(Refused()) == Refused()
      ensures fresh(Repr - old(Repr))
    {
      hide Linked, Hold, Frame.Holds, Apart, Blocks, ListOk, Frame.HeaderRead;
      NothingOwned();
      if currentFrame == null {
        var f := new Frame(0xffff_ffff_ffff_ffff, null);
        currentFrame := f;
        frames, live, Repr := [f], live + {f, f.rawdata}, Repr + {f, f.rawdata};
        OneFrame(f);
      }
    }

    lemma NothingOwned()
      requires ListOk()
      ensures this in Repr && (currentFrame == null ==> wires == [] && live == {})
    {
    }

    /** What a list of one frame is like. */
    lemma OneFrame(f: Frame)
      requires currentFrame == f && frames == [f] && live == {f, f.rawdata} && wires == []
      requires f.prev == null && f.next == null && {this, f, f.rawdata} <= Repr
      ensures ListOk()
    {
      BlocksAdd([], f);
      assert [] + [f] == frames;
    }

    /** What the list is like when there is no frame. */
    lemma NoFrames()
      requires currentFrame == null && frames == [] && wires == [] && live == {} && this in Repr
      ensures ListOk()
    {
    }

    /** The list of init and the frame being received, which share nothing. */
    ghost predicate Parts(init: seq<Frame>)
      reads this, currentFrame, frames`prev, frames`next, init, Buffers(init)
    {
      && currentFrame != null && frames == init + [currentFrame] && Linked(frames) && Hold(init, wires)
      && (forall f :: f in init ==> f != currentFrame && f.rawdata != currentFrame.rawdata)
      && currentFrame.rawdata !in Blocks(init)
      && Apart(init) && live == Blocks(init) + {currentFrame, currentFrame.rawdata} && {this} + live <= Repr
    }

    lemma TakeApart()
      requires ListOk() && currentFrame != null
      ensures Parts(frames[..|frames| - 1])
    {
      hide Frame.Holds, Linked, Hold;
      BlocksMore(frames, |frames| - 1);
      assert frames[..|frames|] == frames;
    }

    lemma PutTogether(init: seq<Frame>)
      requires Parts(init)
      ensures ListOk()
    {
      BlocksAdd(init, currentFrame);
      assert Earlier() == init;
    }

    /** One octet for the frame being received; the rest of the list is not touched. */
    method PutOctet(b: byte) returns (err: int)
      requires ListOk() && currentFrame != null
      requires currentFrame.Buffered() && (currentFrame.HeaderRead(currentFrame.Raw()) || currentFrame.Refused())
      requires currentFrame.rawdataIdx < MAX_FRAME
      modifies this`live, this`Repr, currentFrame, currentFrame.rawdata
      ensures ListOk() && fresh(Repr - old(Repr))
      ensures currentFrame.Buffered() && currentFrame.Raw() == old(currentFrame.Raw()) + [b]
      ensures err == -1 <==> currentFrame.Refused()
      ensures err == -1 <==> old(currentFrame.Refused()) || R.Refuses(currentFrame.Raw())
      ensures err == -1 || |currentFrame.Raw()| <= 2 ==> currentFrame.Fields() == old(currentFrame.Fields())
      ensures err != -1 ==> currentFrame.HeaderRead(currentFrame.Raw())
      ensures err == 0 <==> err != -1 && !HeaderComplete(currentFrame.Raw())
    {
      hide HeaderComplete, HeaderRefused, Blocks, Linked, Apart, Frame.Holds, ListOk, Earlier, Frame.HeaderRead,
        Frame.Buffered;
      TakeApart();
      ghost var init, before := frames[..|frames| - 1], currentFrame.rawdata;
      err := currentFrame.TakeOctet(b);
      live := Free(live, before) + {currentFrame.rawdata};
      Repr := Repr + {currentFrame.rawdata};
      PutTogether(init);
    }

    /** The same, open or refusing a header. */
    method TakeOctet(b: byte) returns (err: int)
      requires Going() && currentFrame != null && OctetFits(Abs(), b)
      modifies this`live, this`Repr, currentFrame, currentFrame.rawdata
      ensures currentFrame.Buffered() && currentFrame.Raw() == old(currentFrame.Raw()) + [b]
      ensures ListOk() && fresh(Repr - old(Repr))
      ensures err == -1 <==> old(Refused()) || R.Refuses(currentFrame.Raw())
      ensures err == -1 ==> currentFrame.Refused()
      ensures err == -1 || |currentFrame.Raw()| <= 2 ==> currentFrame.Fields() == R.LeftBy(last)
      ensures err != -1 ==> currentFrame.HeaderRead(currentFrame.Raw())
      ensures err == 0 <==> err != -1 && !HeaderComplete(currentFrame.Raw())
    {
      hide R.Pending, Fits, HeaderComplete, HeaderRefused, ListOk, Frame.HeaderRead, R.LeftBy, R.LastOk, R.Overruns;
      ReadyForOctet(b);
      err := PutOctet(b);
    }

    lemma ReadyForOctet(b: byte)
      requires Going() && currentFrame != null && OctetFits(Abs(), b)
      ensures currentFrame.rawdataIdx < MAX_FRAME
      ensures Valid() ==> !currentFrame.Refused()
      ensures Refused() || |currentFrame.Raw()| <= 2 ==> currentFrame.Fields() == R.LeftBy(last)
    {
      hide Fits, Hold, Linked, R.LastOk, R.LeftBy, R.Overruns;
      currentFrame.NotBoth(currentFrame.Raw());
      if Valid() {
        PendingIsShort(currentFrame.Raw());
      }
    }

    // ---- Whole frames

    /** A complete frame is at the end of the list. */
    ghost predicate Complete(w: WireFrame)
      reads this, Repr
    {
      && !shouldClose && closeInfo == None && ListOk() && R.LastOk(last, wires)
      && currentFrame != null && currentFrame.Holds(w) && AllValid(wires)
    }

    /** The machine before the complete frame. */
    ghost function Before(): R.Machine
      reads this
    {
      R.Open(wires, [], last, sentCloseFrame, Fx())
    }

    /** A frame without octets at the end of the list. */
    lemma FreshTail()
      requires !shouldClose && closeInfo == None && FlagOk() && ListOk() && R.LastOk(last, wires)
      requires currentFrame != null && currentFrame.Buffered() && currentFrame.Raw() == []
      requires currentFrame.HeaderRead([]) && currentFrame.Fields() == R.LeftBy(last)
      ensures Valid() && Abs() == R.Open(wires, [], last, sentCloseFrame, Fx())
    {
      hide ListOk, Frame.HeaderRead, Frame.Buffered;
    }

    /** Puts f, already linked after the complete frames, at the end of the list. */
    method Join(f: Frame, ghost ws: seq<WireFrame>, ghost w: WireFrame)
      requires live == Blocks(frames) && {this} + live <= Repr && f.rawdata !in live
      requires forall g :: g in frames ==> g != f && g.rawdata != f.rawdata
      requires Linked(frames + [f]) && Hold(frames, ws) && Apart(frames)
      modifies this`currentFrame, this`receivingFragment, this`frames, this`wires, this`last, this`live, this`Repr
      ensures ListOk() && currentFrame == f && receivingFragment && wires == ws && last == Some(w)
      ensures Repr == old(Repr) + {f, f.rawdata}
    {
      hide Linked, Apart, Frame.Holds, Buffers, Blocks, ListOk, Earlier;
      ghost var fs := frames;
      currentFrame := f;
      receivingFragment := true;
      last := Some(w);
      frames, wires, live, Repr := frames + [f], ws, live + {f, f.rawdata}, Repr + {f, f.rawdata};
      PutTogether(fs);
    }

    /** Makes f the frame being received, after the fragment w. */
    method Adopt(f: Frame, ghost ws: seq<WireFrame>, ghost w: WireFrame)
      requires !shouldClose && closeInfo == None && ws != [] && w.Valid() && !w.fin && !w.IsControl()
      requires live == Blocks(frames) && {this} + live <= Repr && f.rawdata !in live
      requires forall g :: g in frames ==> g != f && g.rawdata != f.rawdata
      requires Linked(frames + [f]) && Hold(frames, ws) && Apart(frames)
      requires f.Buffered() && f.Raw() == [] && f.HeaderRead([]) && f.Fields() == R.ZEROED
      modifies this`currentFrame, this`receivingFragment, this`frames, this`wires, this`last, this`live, this`Repr
      ensures Valid() && Repr == old(Repr) + {f, f.rawdata}
      ensures Abs() == R.Open(ws, [], Some(w), old(sentCloseFrame), old(Fx()))
    {
      hide Linked, Apart, Hold, Blocks, Frame.HeaderRead, Frame.Buffered, Valid, Abs, ListOk;
      Join(f, ws, w);
      FreshTail();
    }

    /** The whole list, the complete frame included. */
    lemma WholeList(w: WireFrame)
      requires Complete(w)
      ensures frames != [] && currentFrame == frames[|frames| - 1] && Hold(frames, wires + [w])
      ensures Linked(frames) && Apart(frames) && live == Blocks(frames) && {this} + live <= Repr
      ensures !shouldClose && closeInfo == None
    {
      hide Frame.Holds, Linked, Apart;
      HoldMore(Earlier(), wires, currentFrame, w);
      assert Earlier() + [currentFrame] == frames;
    }

    /** The complete frame stays in the list, and another one is begun after it. */
    method AddFragment(ghost w: WireFrame)
      requires Complete(w) && w.Valid() && !w.fin && !w.IsControl()
      modifies this`currentFrame, this`receivingFragment, this`frames, this`wires, this`last, this`live, this`Repr,
        currentFrame`next
      ensures Valid()
      ensures fresh(Repr - old(Repr))
      ensures Abs() == R.Open(old(wires) + [w], [], Some(w), old(sentCloseFrame), old(Fx()))
    {
      hide Frame.Holds, Frame.HeaderRead, Frame.Buffered, Valid, Abs, ListOk, Linked, Hold;
      WholeList(w);
      var f := Extend(currentFrame, frames, wires + [w]);
      Adopt(f, wires + [w], w);
    }

    // ---- Control frames

    /** Remembers the status code and the reason of a Close frame whose payload has been unmasked. */
    method PopulateCloseInfo(ghost payload: seq<byte>)
      requires currentFrame != null && closeInfo == None
      requires currentFrame.payloadOffset + |payload| <= currentFrame.rawdata.Length
      requires currentFrame.payloadLen == |payload|
      requires currentFrame.rawdata[currentFrame.payloadOffset..currentFrame.payloadOffset + |payload|] == payload
      modifies this`closeInfo
      ensures closeInfo == R.CloseInfoOf(payload)
    {
      var frame := currentFrame;
      var off, len := frame.payloadOffset, frame.payloadLen;
      if len < 2 {
        return;
      }
      var atMost := if len - 2 > R.REASON_SIZE then R.REASON_SIZE else len - 2;
      var code := FromBigEndian(frame.rawdata[off..off + 2]);
      var reason := Zeros(R.REASON_SIZE);
      if len - 2 > 0 {
        reason := frame.rawdata[off + 2..off + 2 + atMost] + reason[atMost..];
      }
      closeInfo := Some(R.CloseInfo(code, reason));
      SliceOfSlice(frame.rawdata, off, len, 0, 2);
      SliceOfSlice(frame.rawdata, off, len, 2, 2 + atMost);
      assert payload[2..][..atMost] == payload[2..2 + atMost];
      assert reason == R.StoredReason(payload[2..]);
    }

    /** The frame being received has been made a server's frame with the payload of w, or another of that length. */
    ghost predicate Served(w: WireFrame, payload: seq<byte>)
      reads this, currentFrame, if currentFrame == null then {} else {currentFrame.rawdata}
    {
      && currentFrame != null && w.Valid() && |payload| == |w.data| <= 125
      && currentFrame.payloadOffset == 2 + w.form.Extended() && currentFrame.payloadLen == |payload|
      && currentFrame.payloadOffset + |payload| <= currentFrame.rawdata.Length
      && currentFrame.rawdata[..currentFrame.payloadOffset + |payload|] == ServerFrame(w.fin, w.opcode, w.form, payload)
    }

    /** Replaces the status code when the remembered code or reason is refused. */
    method CheckClose(ghost w: WireFrame, ghost payload: seq<byte>)
      requires Served(w, payload) && |payload| >= 2 && closeInfo == R.CloseInfoOf(payload)
      modifies currentFrame.rawdata
      ensures Served(w, R.CloseReply(payload))
    {
      hide Header, R.StoredReason, Utf8.IsOctets, UpToNul, ServerFrame, FromBigEndian, BigEndian, R.CodeRefused;
      R.StoredReasonText(payload[2..]);
      var code := closeInfo.value.code;
      var valid := Utf8.ValidateUtf8Sequence(closeInfo.value.reason, 0);
      if R.CodeRefused(code) {
        currentFrame.ReplaceCode(R.PROTOCOL_ERROR, w, payload);
      } else if !valid {
        currentFrame.ReplaceCode(R.WRONG_TYPE, w, payload);
      }
    }

    /** Answers a Close frame and closes. */
    method AnswerClose(ghost w: WireFrame, ghost payload: seq<byte>)
      requires Served(w, payload) && closeInfo == None
      modifies this`closeInfo, this`output, this`shouldClose, currentFrame.rawdata
      ensures shouldClose && closeInfo == R.CloseInfoOf(payload)
      ensures output == old(output) + if sentCloseFrame then []
                                      else ServerFrame(w.fin, w.opcode, w.form, R.CloseReply(payload))
    {
      hide Header, R.StoredReason;
      assert currentFrame.rawdata[currentFrame.payloadOffset..currentFrame.payloadOffset + |payload|] == payload;
      PopulateCloseInfo(payload);
      if closeInfo.Some? {
        CheckClose(w, payload);
      }
      if !sentCloseFrame {
        output := output + currentFrame.rawdata[..currentFrame.payloadOffset + currentFrame.payloadLen];
      }
      shouldClose := true;
    }

    /** Answers a PING: the same frame with the opcode replaced. */
    method AnswerPing(ghost w: WireFrame, ghost payload: seq<byte>)
      requires Served(w, payload)
      modifies this`output, currentFrame.rawdata
      ensures output == old(output) + ServerFrame(true, PONG, w.form, payload)
    {
      hide BigEndian, Unmask;
      ghost var s := currentFrame.rawdata[..currentFrame.payloadOffset + |payload|];
      currentFrame.rawdata[0] := 0x8a;
      assert currentFrame.rawdata[..currentFrame.payloadOffset + |payload|] == [0x8a] + s[1..];
      PongOf(w, payload);
      output := output + currentFrame.rawdata[..currentFrame.payloadOffset + currentFrame.payloadLen];
    }

    /** Turns the frame into a server's frame, in place. */
    method Servify(ghost w: WireFrame)
      requires currentFrame != null && currentFrame.Holds(w) && |w.data| <= 125
      modifies currentFrame.rawdata, currentFrame`payloadOffset
      ensures Served(w, w.Payload()) && currentFrame.Buffered()
    {
      hide Unmask, Header;
      currentFrame.Servify(w);
    }

    /** The default control callback. */
    method ControlCallback(ghost w: WireFrame)
      requires !shouldClose && closeInfo == None && currentFrame != null && currentFrame.Holds(w)
      modifies this`closeInfo, this`output, this`shouldClose, currentFrame.rawdata, currentFrame`payloadOffset
      ensures currentFrame.Buffered()
      ensures var r := R.Control(R.Open([], [], None, sentCloseFrame, old(Fx())), w);
              && shouldClose == r.Closing? && Fx() == r.fx
              && (r.Open? && w.fin && w.IsControl() ==> currentFrame.Fields() == R.LeftBy(Some(w)))
    {
      hide Unmask, Header, R.CloseReply, R.CloseInfoOf, Served;
      HeldFields(w);
      if currentFrame.payloadLen > 125 {
        FailConnection(R.PROTOCOL_ERROR);
        return;
      }
      Servify(w);
      ghost var payload := w.Payload();
      ServedFields(w, payload);
      match currentFrame.opcode {
        case 8 =>
          AnswerClose(w, payload);
        case 9 =>
          AnswerPing(w, payload);
        case 10 =>
        case _ =>
          FailConnection(R.PROTOCOL_ERROR);
      }
    }

    lemma ServedFields(w: WireFrame, payload: seq<byte>)
      requires Served(w, payload)
      ensures currentFrame.payloadOffset == 2 + w.form.Extended() && currentFrame.payloadLen == |w.data|
    {
    }

    lemma HeldFields(w: WireFrame)
      requires currentFrame != null && currentFrame.Holds(w)
      ensures currentFrame.payloadLen == |w.data| && currentFrame.opcode == w.opcode
      ensures currentFrame.fin == (if w.fin then 1 else 0) && w.Valid() && currentFrame.mask == w.key
      ensures currentFrame.Buffered()
    {
    }

    /** Gets the frame ready for the next header, in its place in the list. */
    method Recycle(ghost init: seq<Frame>)
      requires Parts(init) && currentFrame.Buffered()
      modifies currentFrame`prev, currentFrame`state, currentFrame`rawdataIdx
      ensures ListOk() && currentFrame.Buffered() && currentFrame.Raw() == [] && currentFrame.HeaderRead([])
    {
      hide Frame.Holds, Frame.HeaderRead, Linked, Apart, Blocks, Buffers, ListOk, Earlier;
      var previous := currentFrame.prev;
      currentFrame.prev := previous;
      currentFrame.state := FrameState.Start;
      currentFrame.rawdataIdx := 0;
      PutTogether(init);
      currentFrame.NothingRead();
    }

    /** Hands a control frame to the callback and gets the frame ready for the next header. */
    method CallAndRecycle(ghost w: WireFrame)
      requires Complete(w) && w.fin && w.opcode in {CLOSE, PING, PONG}
      modifies this`closeInfo, this`output, this`shouldClose, this`last, currentFrame, currentFrame.rawdata
      ensures ListOk() && last == Some(w)
      ensures currentFrame.Buffered() && currentFrame.Raw() == [] && currentFrame.HeaderRead([])
      ensures var r := R.Control(R.Open([], [], None, sentCloseFrame, old(Fx())), w);
              && shouldClose == r.Closing? && Fx() == r.fx
              && (r.Open? ==> currentFrame.Fields() == R.LeftBy(Some(w)))
    {
      hide Frame.Holds, Frame.HeaderRead, R.Control, Linked, Apart, Blocks, Buffers, ListOk, Earlier, Frame.Buffered,
        R.LeftBy;
      HeldFields(w);
      TakeApart();
      ghost var init := frames[..|frames| - 1];
      last := Some(w);
      ControlCallback(w);
      Recycle(init);
    }

    /** A control frame; its place in the list is kept, so that a fragmented message goes on where it was. */
    method HandleControlFrame(ghost w: WireFrame)
      requires Complete(w) && FlagOk() && w.fin && w.opcode in {CLOSE, PING, PONG}
      modifies this`closeInfo, this`output, this`shouldClose, this`last, currentFrame, currentFrame.rawdata
      ensures Matches(R.Control(old(Before()), w))
    {
      hide Frame.Holds, Frame.HeaderRead, Frame.Buffered, R.Control, ListOk, Releasable, Valid, Refused, Abs, R.LeftBy;
      HeldFields(w);
      ControlOnly(old(Before()), w);
      CallAndRecycle(w);
      InList();
      if !shouldClose {
        FreshTail();
      }
    }

    // ---- Messages

    /**
     Reassembles the message that the list holds, releases the list, and hands the message to the application unless
     it is a text that is refused.
     */
    method DispatchMessage(ghost ws: seq<WireFrame>)
      requires !shouldClose && currentFrame != null && frames != [] && currentFrame == frames[|frames| - 1]
      requires Linked(frames) && Apart(frames) && Hold(frames, ws) && AllValid(ws) && live == Blocks(frames)
      modifies this`output, this`shouldClose, this`delivered, this`live
      ensures live == {}
      ensures var msg := R.Message(ws[0].opcode, R.Joined(ws));
              if R.TextAccepted(msg)
              then !shouldClose && output == old(output) && delivered == old(delivered) + [msg]
              else shouldClose && output == old(output) + R.CloseFrame(R.WRONG_TYPE) && delivered == old(delivered)
    {
      hide Linked, Frame.Holds, TotalLength, R.Joined, UpToNul, Utf8.IsOctets;
      FirstOpcode(ws);
      R.UpToNulPadded(R.Joined(ws), 1);
      assert Zeros(1) == [0];
      var total, first := Measure(currentFrame, frames, ws);
      JoinedEnds(ws);
      var opcode := first.opcode;
      var payload := Reassemble(first, total, frames, ws);
      live := CleanupFrames(first, frames, live);
      if opcode == TEXT {
        var valid := Utf8.ValidateUtf8Sequence(payload[..], 0);
        if !valid {
          FailConnection(R.WRONG_TYPE);
          return;
        }
      }
      assert payload[..total] == R.Joined(ws);
      delivered := delivered + [R.Message(opcode, payload[..total])];
    }

    lemma FirstOpcode(ws: seq<WireFrame>)
      requires frames != [] && Hold(frames, ws)
      ensures frames[0].opcode == ws[0].opcode
    {
      assert frames[0].Holds(ws[0]);
    }

    // ---- Sending

    /** Sends one frame; its size is kept in 32 bits. */
    method SendFragment(data: seq<byte>, flags: nat)
      requires |data| + 10 < 0x1_0000_0000
      modifies this`output
      ensures output == old(output) + SentFrame(flags % 256, data)
    {
      hide BigEndian;
      var len := |data|;
      var finNopcode: byte := flags % 256;
      var payloadOffset := 2;
      var frameSize: uint32;
      var payloadLenSmall: byte;
      if len <= 125 {
        frameSize := 2 + len;
        payloadLenSmall := len;
      } else if len <= 0xffff {
        frameSize := 4 + len;
        payloadLenSmall := 126;
        payloadOffset := payloadOffset + 2;
      } else {
        frameSize := 10 + len;
        payloadLenSmall := 127;
        payloadOffset := payloadOffset + 8;
      }
      var frame := new byte[frameSize](_ => 0);
      frame[0] := finNopcode;
      frame[1] := payloadLenSmall % 128;
      if payloadLenSmall == 126 {
        Memcpy(frame, 2, BigEndian(len, 2));
      }
      if payloadLenSmall == 127 {
        Memcpy(frame, 2, BigEndian(len, 8));
      }
      ghost var form := MinimalForm(len);
      assert payloadOffset == 2 + form.Extended() && payloadLenSmall == form.LengthOctet(len);
      assert frame[..2] == [finNopcode, payloadLenSmall];
      ghost var header := [finNopcode, payloadLenSmall] + BigEndian(len, form.Extended());
      assert frame[..payloadOffset] == header;
      Memcpy(frame, payloadOffset, data);
      assert frame[..payloadOffset + len] == frame[..] == header + data;
      output := output + frame[..];
    }

    // ---- The receive loop

    /** A message has ended: it is dispatched, and there is no frame any more. */
    method EndMessage(ghost w: WireFrame)
      requires Complete(w) && w.Valid() && w.fin && w.opcode in {TEXT, BINARY, CONTINUATION} && !receivingFragment
      modifies this`output, this`shouldClose, this`delivered, this`currentFrame, this`frames, this`wires, this`last,
        this`live
      ensures currentFrame == null && live == {}
      ensures Matches(R.Dispatch(old(Before()), old(wires) + [w]))
    {
      hide Hold, Linked, Apart, Blocks, Frame.Holds, R.Joined, R.TextAccepted, R.LeftBy, ListOk, Releasable, Valid,
        Refused, Abs;
      WholeList(w);
      HeldAreValid(frames, wires + [w]);
      DispatchMessage(wires + [w]);
      currentFrame := null;
      frames, wires, last := [], [], Some(w);
      NoFrames();
      BetweenMessages(w);
    }

    lemma BetweenMessages(w: WireFrame)
      requires ListOk() && currentFrame == null && frames == [] && wires == [] && !receivingFragment
      requires closeInfo == None && last == Some(w) && w.Valid() && w.fin && !w.IsControl()
      ensures Releasable()
      ensures !shouldClose ==> Valid() && Abs() == R.Open([], [], last, sentCloseFrame, Fx())
    {
    }

    method FrameAct(ghost w: WireFrame)
      requires Complete(w) && w.fin
      requires w.opcode in {CLOSE, PING, PONG} ==> FlagOk()
      requires w.opcode in {TEXT, BINARY, CONTINUATION} ==> !receivingFragment
      modifies this`closeInfo, this`output, this`shouldClose, this`delivered, this`currentFrame, this`frames,
        this`wires, this`last, this`live, currentFrame, currentFrame.rawdata
      ensures Matches(R.Act(old(Before()), w))
    {
      hide Linked, Hold, Frame.Holds, R.Joined, R.TextAccepted, R.Dispatch, R.Control, ListOk, Valid, Abs;
      HeldFields(w);
      match currentFrame.opcode {
        case 8 => HandleControlFrame(w);
        case 9 => HandleControlFrame(w);
        case 10 => HandleControlFrame(w);
        case 1 => EndMessage(w);
        case 2 => EndMessage(w);
        case 0 => EndMessage(w);
        case _ => FailConnection(R.PROTOCOL_ERROR);
      }
    }

    /** What a complete frame does, in or out of a fragmented message. */
    method CompleteFrame(ghost w: WireFrame)
      requires Complete(w) && FlagOk()
      modifies this, currentFrame, currentFrame.rawdata
      ensures Matches(R.Receive(old(Before()), w))
      ensures fresh(Repr - old(Repr))
    {
      hide Linked, Frame.Holds, R.Act, Valid, Abs;
      HeldFields(w);
      if receivingFragment {
        if currentFrame.fin == 1 {
          if currentFrame.opcode / 8 % 2 == 0 {
            if currentFrame.opcode != 0 {
              FailConnection(R.PROTOCOL_ERROR);
              return;
            }
            receivingFragment := false;
          }
          FrameAct(w);
        } else {
          if currentFrame.opcode != 0 {
            FailConnection(R.PROTOCOL_ERROR);
            return;
          }
          AddFragment(w);
        }
      } else {
        if currentFrame.fin == 1 {
          if currentFrame.opcode == 0 {
            FailConnection(R.PROTOCOL_ERROR);
            return;
          }
          FrameAct(w);
        } else {
          if currentFrame.opcode / 8 % 2 != 0 {
            FailConnection(R.PROTOCOL_ERROR);
            return;
          }
          if currentFrame.opcode == 0 {
            FailConnection(R.PROTOCOL_ERROR);
            return;
          }
          AddFragment(w);
        }
      }
    }

    lemma InRepr()
      requires ListOk()
      ensures this in Repr && (currentFrame != null ==> currentFrame in Repr && currentFrame.rawdata in Repr)
      ensures AllValid(wires)
    {
      if frames != [] {
        assert currentFrame == frames[|frames| - 1];
        HeldAreValid(frames[..|frames| - 1], wires);
      }
    }

    /** The frame being received is the last of an acyclic list, and the flag says whether it has a predecessor. */
    lemma FrameList()
      requires Valid() && currentFrame != null
      ensures receivingFragment <==> currentFrame.prev != null
      ensures currentFrame.next == null && |frames| == |wires| + 1
      ensures forall i, j :: 0 <= i < j < |frames| ==> frames[i] != frames[j]
      ensures forall i :: 0 <= i < |wires| ==> frames[i].Holds(wires[i]) && frames[i + 1].prev == frames[i]
    {
      hide Frame.Holds, Frame.HeaderRead, Frame.Buffered, R.Pending, Fits;
      var last := |frames| - 1;
      assert currentFrame == frames[last] && (last > 0 ==> frames[last].prev == frames[last - 1]);
      forall i, j | 0 <= i < j < |frames| ensures frames[i] != frames[j] {
        Acyclic(frames, i, j);
      }
    }

    /** What a shutdown releases: every frame of the list and its buffer, each once. */
    method FreeAllFrames()
      requires Releasable()
      modifies this`live
      ensures live == {} && Fx() == old(Fx()) && shouldClose == old(shouldClose)
    {
      if currentFrame != null {
        live := FrameLists.FreeAllFrames(currentFrame, frames, live);
      }
    }

    lemma OwnsItself()
      requires Going()
      ensures this in Repr
    {
    }

    lemma IsOpen()
      requires Going() && Abs().Open?
      ensures Valid()
    {
    }

    lemma InPlace()
      requires Going()
      ensures Matches(Abs()) && !Abs().Closing?
    {
    }

    lemma StillGoing(r: R.Machine)
      requires Matches(r) && !r.Closing?
      ensures Going() && Abs() == r && R.Valid(r)
    {
      hide Linked, Hold, Frame.HeaderRead;
      AbsValid();
    }

    /** In any case, the list can be released, and the rest is what the machine says. */
    lemma InAnyCase(r: R.Machine)
      requires Matches(r)
      ensures Releasable() && Fx() == r.fx && shouldClose == !r.Open?
    {
    }

    lemma AbsValid()
      requires Going()
      ensures R.Valid(Abs())
    {
      hide Linked, Hold, Frame.Holds, Frame.HeaderRead;
      InRepr();
    }

    /** The code's test for the end of a frame. */
    lemma EndOfFrame()
      requires currentFrame != null && currentFrame.Buffered() && currentFrame.HeaderRead(currentFrame.Raw())
      requires HeaderComplete(currentFrame.Raw())
      ensures FrameComplete(currentFrame.Raw())
         <==> currentFrame.rawdataIdx >= currentFrame.payloadOffset + currentFrame.payloadLen
      ensures FrameComplete(currentFrame.Raw()) && |currentFrame.Raw()| == FrameSize(currentFrame.Raw())
         ==> currentFrame.Holds(Parse(currentFrame.Raw()))
    {
      currentFrame.StateTells(currentFrame.Raw());
      if FrameComplete(currentFrame.Raw()) && |currentFrame.Raw()| == FrameSize(currentFrame.Raw()) {
        hide Parse, Frame.Holds;
        currentFrame.CompleteHolds();
      }
    }

    // ---- After a refused header

    /** Links one more frame, as after a fragment, though the last one is none. */
    method LinkAnother()
      requires shouldClose && Releasable() && currentFrame != null
      modifies this`currentFrame, this`frames, this`live, this`Repr, currentFrame`next
      ensures shouldClose && Releasable() && Fx() == old(Fx())
      ensures fresh(Repr - old(Repr))
    {
      hide Linked, Apart, Hold, Frame.HeaderRead, Frame.Buffered, Releasable;
      ghost var fs := frames;
      ToRelease();
      var f := Extend(currentFrame, frames, []);
      currentFrame := f;
      frames, live, Repr := fs + [f], live + {f, f.rawdata}, Repr + {f, f.rawdata};
      OneMoreToRelease(fs);
    }

    lemma ToRelease()
      requires Releasable() && currentFrame != null
      ensures frames != [] && currentFrame == frames[|frames| - 1] && Linked(frames) && Apart(frames)
      ensures live == Blocks(frames) && {this} + live <= Repr
    {
    }

    lemma OneMoreToRelease(fs: seq<Frame>)
      requires currentFrame != null && frames == fs + [currentFrame] && Linked(frames) && Apart(fs)
      requires currentFrame.rawdata !in Blocks(fs) && live == Blocks(fs) + {currentFrame, currentFrame.rawdata}
      requires {this} + live <= Repr
      ensures Releasable()
    {
      hide Linked, Blocks;
      BlocksAdd(fs, currentFrame);
      forall i | 0 <= i < |frames| ensures frames[i] in Repr && frames[i].rawdata in Repr {
        BlocksHold(frames, i);
      }
      forall i | 0 <= i < |fs| ensures fs[i].rawdata != currentFrame.rawdata {
        BlocksHold(fs, i);
      }
    }

    /** The control callback, once more. */
    method CallbackAgain(ghost f: WireFrame, ghost p: seq<byte>)
      requires currentFrame != null && currentFrame.Buffered() && currentFrame.Raw() == p && |p| >= 3
      requires f.Valid() && f.fin && f.opcode in {PING, PONG} && |f.data| <= 125
      requires currentFrame.Fields() == R.LeftBy(Some(f))
      requires |p| >= R.Reach(Some(f)) && !R.Overruns(Some(f))
      modifies this`output, currentFrame.rawdata, currentFrame`payloadOffset
      ensures currentFrame.Buffered() && output == old(output) + R.SentAgain(f, p)
    {
      hide R.ServedAgain, R.SentAgain;
      currentFrame.ServifyAgain(f, p);
      if currentFrame.opcode == PING {
        ghost var s, k := currentFrame.rawdata[..], f.form.Extended() - 2 + |f.data|;
        assert s[..k] == currentFrame.rawdata[..k];
        currentFrame.rawdata[0] := 0x8a;
        ChangeInPrefix(s, 0, 0x8a, k);
        assert currentFrame.rawdata[..] == s[0 := 0x8a];
        assert currentFrame.rawdata[..k] == currentFrame.rawdata[..][..k];
        AnswerAgain(f, p, s[..k]);
        output := output + currentFrame.rawdata[..currentFrame.payloadOffset + currentFrame.payloadLen];
      } else {
        NoAnswer(f, p, output);
      }
    }

    /** A frame whose header has been refused is taken for complete. */
    method FallThrough(ghost p: seq<byte>)
      requires shouldClose && ListOk() && R.LastOk(last, wires) && FlagOk() && currentFrame != null
      requires currentFrame.Buffered() && currentFrame.Raw() == p && |p| >= 3 && currentFrame.Fields() == R.LeftBy(last)
      requires |p| >= R.Reach(last) && !R.Overruns(last)
      modifies this`output, this`currentFrame, this`frames, this`live, this`Repr, currentFrame, currentFrame.rawdata
      ensures shouldClose && Releasable() && fresh(Repr - old(Repr))
      ensures var fx := old(Fx());
              Fx() == if last.Some? && last.value.IsControl()
                      then fx.(output := fx.output + R.SentAgain(last.value, p)) else fx
    {
      hide Linked, Apart, Blocks, Buffers, Frame.Holds, Frame.HeaderRead, Frame.Buffered, Releasable, ListOk, Earlier,
        R.SentAgain, R.Overruns;
      InList();
      if receivingFragment && currentFrame.fin != 1 {
        LinkAnother();
      } else {
        ghost var init := frames[..|frames| - 1];
        TakeApart();
        CallbackAgain(last.value, p);
        Recycle(init);
        InList();
      }
    }

    lemma InList()
      requires ListOk()
      ensures Releasable() && this in Repr
    {
    }

    /**
     What a refused header does. The failure does not end the loop: the octet is taken for the last of a frame if
     what is left over in the structure says so, and otherwise the loop goes on.
     */
    method RefuseHeader(ghost p: seq<byte>) returns (stop: bool)
      requires ListOk() && closeInfo == None && R.LastOk(last, wires) && currentFrame != null
      requires currentFrame.Buffered() && currentFrame.Raw() == p && currentFrame.Refused()
      requires currentFrame.Fields() == R.LeftBy(last) && |p| <= MAX_FRAME
      requires FlagOk() && RefusalFits(last, p)
      modifies this`output, this`shouldClose, this`currentFrame, this`frames, this`live, this`Repr,
        currentFrame, currentFrame.rawdata
      ensures Matches(R.Refuse(old(Fx()), last, p)) && stop == R.Refuse(old(Fx()), last, p).Closing?
      ensures fresh(Repr - old(Repr))
    {
      hide Hold, Linked, Frame.Buffered, R.SentAgain, R.Overruns, Valid;
      FailConnection(R.PROTOCOL_ERROR);
      if currentFrame.rawdataIdx < currentFrame.payloadOffset + currentFrame.payloadLen {
        return false;
      }
      FallThrough(p);
      return true;
    }

    // ---- The loops

    /** The header is complete: the code's test for the end of the frame, and what follows. */
    method CheckEnd(ghost p: seq<byte>)
      requires !shouldClose && closeInfo == None && ListOk() && FlagOk() && R.LastOk(last, wires) && AllValid(wires)
      requires currentFrame != null && currentFrame.Buffered() && currentFrame.Raw() == p && currentFrame.HeaderRead(p)
      requires HeaderComplete(p) && Fits(p) && 2 < |p|
      requires if FrameComplete(p) then |p| == FrameSize(p) && Parse(p).Valid() else R.Pending(p)
      modifies this, currentFrame, currentFrame.rawdata
      ensures Matches(if FrameComplete(p) then R.Receive(old(Before()), Parse(p))
                      else R.Open(old(wires), p, old(last), old(sentCloseFrame), old(Fx())))
      ensures fresh(Repr - old(Repr))
    {
      hide Linked, Hold, R.Receive, R.LeftBy, R.LastOk, ListOk, Frame.HeaderRead, Frame.Holds, Frame.Buffered, Parse,
        FrameComplete, HeaderComplete, HeaderRefused, R.Pending, Fits, Refused;
      EndOfFrame();
      if currentFrame.rawdataIdx < currentFrame.payloadOffset + currentFrame.payloadLen {
        return;
      }
      CompleteFrame(Parse(p));
    }

    /** The octet is in the frame, which is there if it was not, and the header has been looked at. */
    method NextOctet(b: byte) returns (err: int)
      requires Going() && OctetFits(Abs(), b)
      modifies Repr
      ensures ListOk() && FlagOk() && R.LastOk(last, wires) && AllValid(wires) && closeInfo == None
      ensures wires == old(wires) && last == old(last) && shouldClose == old(shouldClose) && Fx() == old(Fx())
      ensures sentCloseFrame == old(sentCloseFrame) && fresh(Repr - old(Repr))
      ensures {this, currentFrame} <= Repr && currentFrame != null && currentFrame.rawdata in Repr
      ensures currentFrame.Buffered() && currentFrame.Raw() == old(Octets(Abs())) + [b]
      ensures err == -1 <==> old(shouldClose) || R.Refuses(currentFrame.Raw())
      ensures err == -1 ==> currentFrame.Refused()
      ensures err == -1 || |currentFrame.Raw()| <= 2 ==> currentFrame.Fields() == R.LeftBy(last)
      ensures err != -1 ==> currentFrame.HeaderRead(currentFrame.Raw())
      ensures err == 0 <==> err != -1 && !HeaderComplete(currentFrame.Raw())
    {
      hide Linked, Hold, R.LeftBy, R.LastOk, R.Reach, ListOk, Frame.HeaderRead, Frame.Refused, HeaderComplete,
        HeaderRefused, R.Pending, R.Refuses, Fits, OctetFits;
      InRepr();
      NeedFrame();
      InRepr();
      err := TakeOctet(b);
      InRepr();
    }

    /** The octets are those of a header that is not complete. */
    lemma StillOpen(p: seq<byte>)
      requires !shouldClose && closeInfo == None && ListOk() && FlagOk() && R.LastOk(last, wires)
      requires currentFrame != null && currentFrame.Buffered() && currentFrame.Raw() == p && currentFrame.HeaderRead(p)
      requires R.Pending(p) && Fits(p) && (|p| <= 2 ==> currentFrame.Fields() == R.LeftBy(last))
      ensures Valid() && Abs() == R.Open(wires, p, last, sentCloseFrame, Fx())
    {
      hide ListOk, R.Pending, Fits, R.LeftBy;
    }

    /** One octet of the receive loop; `stop` says that the loop over the buffer is left. */
    method ReceiveOctet(b: byte) returns (stop: bool)
      requires Going() && OctetFits(Abs(), b)
      modifies Repr
      ensures Matches(R.Step(old(Abs()), b)) && stop == R.Step(old(Abs()), b).Closing?
      ensures fresh(Repr - old(Repr))
    {
      hide Valid, Refused, Linked, Hold, R.Receive, R.Step, R.Refuse, R.LeftBy, R.LastOk, R.Reach, R.Overruns, ListOk,
        FlagOk, Frame.HeaderRead, Frame.Refused, Frame.Fields, Frame.Buffered, Parse, FrameComplete, HeaderComplete,
        HeaderRefused, R.Pending, R.Valid, Fits;
      AbsValid();
      IsWhere();
      ghost var m := Abs();
      ghost var p := Octets(m) + [b];
      if m.Open? {
        StepCases(m, b);
      } else {
        StepRefusing(m, b);
      }
      var err := NextOctet(b);
      if err == -1 {
        stop := RefuseHeader(p);
        return stop;
      }
      if err == 0 {
        StillOpen(p);
        return false;
      }
      HeaderIsLong(p);
      CheckEnd(p);
      return shouldClose;
    }

    /** The fields, open or refusing. */
    lemma IsWhere()
      requires Going()
      ensures Abs().Refusing? == shouldClose && !Abs().Closing? && Abs().fx == Fx()
      ensures Abs().Open? ==> Abs().last == last && Abs().fragments == wires && Abs().closeSent == sentCloseFrame
      ensures Abs().Refusing? ==> Abs().after == last
    {
    }

    /** One buffer of the receive loop. When the loop is left, the rest of the buffer is dropped. */
    method ReceiveBuffer(buf: seq<byte>) returns (stop: bool)
      requires Going() && AllFit(Abs(), buf)
      modifies Repr
      ensures Matches(R.Run(old(Abs()), buf)) && stop == R.Run(old(Abs()), buf).Closing?
      ensures fresh(Repr - old(Repr))
    {
      hide Going, Matches, Valid, Refused, Abs, R.Valid, R.Step, R.Run, OctetFits;
      AbsValid();
      ghost var m := Abs();
      RunNone(m, buf);
      InPlace();
      stop := false;
      for i := 0 to |buf|
        invariant Going() && Matches(R.Run(m, buf[..i])) && Abs() == R.Run(m, buf[..i])
        invariant !stop && !R.Run(m, buf[..i]).Closing?
        invariant fresh(Repr - old(Repr))
      {
        RunMore(m, buf, i);
        stop := ReceiveOctet(buf[i]);
        if stop {
          return true;
        }
        StillGoing(R.Run(m, buf[..i + 1]));
      }
    }

    /**
     The receive loop: reads what has arrived, 1024 octets at a time. When the loop over a buffer has been left to
     close the connection, the code goes on with the next buffer; this method does not. It returns how many octets it
     has accounted for: all of them, or those up to the end of that buffer.
     */
    method HandleRecv(input: seq<byte>) returns (n: nat, stop: bool)
      requires Going() && AllFit(Abs(), input)
      modifies Repr
      ensures n <= |input| && Matches(R.Run(old(Abs()), input[..n]))
      ensures stop == R.Run(old(Abs()), input[..n]).Closing?
      ensures n < |input| ==> n % 1024 == 0 && stop
      ensures n > 0 ==> !R.Run(old(Abs()), input[..BufferStart(n)]).Closing?
      ensures fresh(Repr - old(Repr))
    {
      hide Going, Matches, Valid, Refused, Abs, R.Valid, R.Run, AllFit;
      AbsValid();
      ghost var m := Abs();
      n, stop := 0, false;
      RunNone(m, input);
      InPlace();
      while n < |input|
        invariant n <= |input| && Going() && Matches(R.Run(m, input[..n])) && Abs() == R.Run(m, input[..n])
        invariant !stop && !R.Run(m, input[..n]).Closing?
        invariant n < |input| ==> n % BUFFER_SIZE == 0
        invariant n > 0 ==> !R.Run(m, input[..BufferStart(n)]).Closing?
        invariant fresh(Repr - old(Repr))
      {
        var datalen := if |input| - n < BUFFER_SIZE then |input| - n else BUFFER_SIZE;
        RunParts(m, input, n);
        RunParts(Abs(), input[n..], datalen);
        RunSlice(m, input, n, datalen);
        StartOf(n, datalen);
        stop := ReceiveBuffer(input[n..n + datalen]);
        n := n + datalen;
        if stop {
          return n, true;
        }
        StillGoing(R.Run(m, input[..n]));
      }
    }
  }

  lemma AnswerAgain(f: WireFrame, p: seq<byte>, s: seq<byte>)
    requires f.Valid() && f.opcode == PING && f.form != Short && |p| >= 3
    requires |p| >= 2 + f.form.Extended() + |f.data| && s == R.ServedAgain(f, p)
    ensures R.SentAgain(f, p) == if s == [] then [] else s[0 := 0x8a]
  {
  }

  lemma NoAnswer(f: WireFrame, p: seq<byte>, sent: seq<byte>)
    requires f.Valid() && f.opcode != PING && |p| >= 3
    ensures sent + R.SentAgain(f, p) == sent
  {
  }

  const BUFFER_SIZE := 1024

  /** Where the buffer begins that ends at n. */
  function BufferStart(n: nat): nat
    requires n > 0
  {
    (n - 1) / 1024 * 1024
  }

  lemma StartOf(n: nat, d: nat)
    requires n % BUFFER_SIZE == 0 && 0 < d <= BUFFER_SIZE
    ensures BufferStart(n + d) == n
  {
  }

  /**
   At every octet, no frame is too large for the code's 32-bit sizes, and no refused header makes the control callback
   reach outside of the buffer.
   */
  ghost predicate AllFit(m: R.Machine, bs: seq<byte>)
    requires R.Valid(m)
  {
    forall k :: 0 <= k < |bs| ==> OctetFits(R.Run(m, bs[..k]), bs[k])
  }

  ghost predicate OctetFits(m: R.Machine, b: byte) {
    match m
    case Open(_, partial, last, _, _) =>
      Fits(partial + [b]) && (R.Refuses(partial + [b]) ==> RefusalFits(last, partial + [b]))
    case Refusing(raw, after, _) => |raw| < MAX_FRAME && RefusalFits(after, raw + [b])
    case Closing(_) => true
  }

  predicate RefusalFits(last: Option<WireFrame>, p: seq<byte>) {
    |p| >= R.Reach(last) ==> !R.Overruns(last)
  }

  lemma RunNone(m: R.Machine, bs: seq<byte>)
    requires R.Valid(m)
    ensures R.Run(m, bs[..0]) == m && bs[..|bs|] == bs && R.Run(m, []) == m
  {
  }

  lemma RunMore(m: R.Machine, bs: seq<byte>, k: nat)
    requires R.Valid(m) && k < |bs|
    ensures R.Run(m, bs[..k + 1]) == R.Step(R.Run(m, bs[..k]), bs[k])
    ensures R.Run(m, bs[..k + 1]).Closing? ==> R.Run(m, bs) == R.Run(m, bs[..k + 1])
    ensures AllFit(m, bs) ==> OctetFits(R.Run(m, bs[..k]), bs[k])
  {
    hide R.Step, R.Valid, OctetFits;
    assert bs[..k + 1][..k] == bs[..k];
    Framing.RunConcat(m, bs[..k + 1], bs[k + 1..]);
    assert bs[..k + 1] + bs[k + 1..] == bs;
  }

  lemma RunSlice(m: R.Machine, bs: seq<byte>, n: nat, d: nat)
    requires R.Valid(m) && n + d <= |bs|
    ensures bs[n..][..d] == bs[n..n + d]
    ensures R.Run(m, bs[..n + d]) == R.Run(R.Run(m, bs[..n]), bs[n..n + d])
  {
    hide R.Run, R.Valid;
    Framing.RunConcat(m, bs[..n], bs[n..n + d]);
    assert bs[..n + d] == bs[..n] + bs[n..n + d];
  }

  lemma RunParts(m: R.Machine, bs: seq<byte>, k: nat)
    requires R.Valid(m) && k <= |bs|
    ensures R.Run(m, bs) == R.Run(R.Run(m, bs[..k]), bs[k..])
    ensures R.Run(m, bs[..k]).Closing? ==> R.Run(m, bs) == R.Run(m, bs[..k])
    ensures AllFit(m, bs) ==> AllFit(m, bs[..k]) && AllFit(R.Run(m, bs[..k]), bs[k..])
  {
    hide R.Step, R.Valid, R.Run, OctetFits;
    var a, b := bs[..k], bs[k..];
    Framing.RunConcat(m, a, b);
    assert a + b == bs;
    forall i | 0 <= i < k ensures bs[..i] == a[..i] && bs[i] == a[i] {
    }
    forall i | 0 <= i < |b| ensures R.Run(m, bs[..k + i]) == R.Run(R.Run(m, a), b[..i]) && bs[k + i] == b[i] {
      Framing.RunConcat(m, a, b[..i]);
      assert a + b[..i] == bs[..k + i];
    }
  }

  /** The octets since the frame began. */
  function Octets(m: R.Machine): seq<byte>
    requires !m.Closing?
  {
    if m.Open? then m.partial else m.raw
  }

  lemma HeaderIsLong(p: seq<byte>)
    requires HeaderComplete(p)
    ensures 2 < |p|
  {
  }

  lemma StepRefusing(m: R.Machine, b: byte)
    requires R.Valid(m) && m.Refusing?
    ensures R.Step(m, b) == R.Refuse(m.fx, m.after, m.raw + [b])
  {
  }

  /** What the machine does with one more octet. */
  lemma StepCases(m: R.Machine, b: byte)
    requires R.Valid(m) && m.Open?
    ensures var p := m.partial + [b];
      && (R.Refuses(p) ==> R.Step(m, b) == R.Refuse(m.fx, m.last, p))
      && (!R.Refuses(p) && !FrameComplete(p) ==> R.Step(m, b) == m.(partial := p) && R.Pending(p))
      && (!R.Refuses(p) && FrameComplete(p) ==>
            |p| == FrameSize(p) && Parse(p).Valid() && R.Step(m, b) == R.Receive(m.(partial := []), Parse(p)))
      && (!HeaderComplete(p) ==> !FrameComplete(p))
  {
    var p := m.partial + [b];
    if FrameComplete(p) {
      CompletesOnLastOctet(m.partial, b);
      SerializeParse(p);
    }
  }

  /** A control frame does not see the message being received. */
  lemma ControlOnly(m: R.Machine, w: WireFrame)
    requires m.Open? && w.Valid() && w.opcode in {CLOSE, PING, PONG}
    ensures var r := R.Control(R.Open([], [], None, m.closeSent, m.fx), w);
            && R.Control(m, w) == (if r.Open? then m.(last := Some(w), fx := r.fx) else r)
            && (r.Open? ==> r.fx.closeInfo == m.fx.closeInfo)
  {
    hide ServerFrame, R.CloseReply, R.CloseInfoOf;
  }

  lemma PongOf(w: WireFrame, payload: seq<byte>)
    requires w.opcode < 16 && w.form.Admits(|payload|)
    ensures [0x8a] + ServerFrame(w.fin, w.opcode, w.form, payload)[1..] == ServerFrame(true, PONG, w.form, payload)
  {
  }

  lemma PendingIsShort(p: seq<byte>)
    requires R.Pending(p) && Fits(p)
    ensures |p| < MAX_FRAME
  {
  }
}
