/**
 Which frame sequences the receive machine goes along with, and what it makes of them, told without its state:
 by the data frames on one side and the control frames on the other.
 */
module Conformance {
  import opened Bytes
  import opened Wire
  import opened Receiving

  // ---- Reading a frame sequence without a state

  function DataFrames(fs: seq<WireFrame>): (r: seq<WireFrame>)
    ensures AllValid(fs) ==> AllValid(r)
  {
    if fs == [] then []
    else
      var init, last := fs[..|fs| - 1], fs[|fs| - 1];
      if last.IsControl() then DataFrames(init) else DataFrames(init) + [last]
  }

  function ControlFrames(fs: seq<WireFrame>): (r: seq<WireFrame>)
    ensures AllValid(fs) ==> AllValid(r)
  {
    if fs == [] then []
    else
      var init, last := fs[..|fs| - 1], fs[|fs| - 1];
      if last.IsControl() then ControlFrames(init) + [last] else ControlFrames(init)
  }

  /** The data frames after the last final one. */
  function OpenTail(ds: seq<WireFrame>): (r: seq<WireFrame>)
    ensures AllValid(ds) ==> AllValid(r)
    ensures r != [] <==> ds != [] && !ds[|ds| - 1].fin
  {
    if ds == [] || ds[|ds| - 1].fin then [] else OpenTail(ds[..|ds| - 1]) + [ds[|ds| - 1]]
  }

  function MessageOf(ds: seq<WireFrame>): Message
    requires ds != [] && AllValid(ds)
  {
    Message(ds[0].opcode, Joined(ds))
  }

  /** The messages that end at the final frames. */
  function MessagesOf(ds: seq<WireFrame>): seq<Message>
    requires AllValid(ds)
  {
    if ds == [] then []
    else
      var init, last := ds[..|ds| - 1], ds[|ds| - 1];
      if last.fin then MessagesOf(init) + [MessageOf(OpenTail(init) + [last])] else MessagesOf(init)
  }

  /** One PONG for each PING, with its payload. */
  function Pongs(cs: seq<WireFrame>): seq<byte>
    requires AllValid(cs)
  {
    if cs == [] then []
    else
      var init, last := cs[..|cs| - 1], cs[|cs| - 1];
      if last.opcode == PING then Pongs(init) + ServerFrame(true, PONG, last.form, last.Payload()) else Pongs(init)
  }

  /** Section 5.4 of RFC 6455: a data frame has an opcode of its own exactly when it begins a message. */
  predicate BeginsMessage(ds: seq<WireFrame>, i: nat)
    requires i < |ds|
  {
    i == 0 || ds[i - 1].fin
  }

  predicate FragmentsOk(ds: seq<WireFrame>) {
    forall i :: 0 <= i < |ds| ==> (ds[i].opcode != CONTINUATION <==> BeginsMessage(ds, i))
  }

  /** Section 5.5 of RFC 6455, without Close: not fragmented, at most 125 octets. */
  predicate ControlOk(f: WireFrame) {
    f.fin && f.opcode in {PING, PONG} && |f.data| <= 125
  }

  predicate ControlsOk(cs: seq<WireFrame>) {
    forall i :: 0 <= i < |cs| ==> ControlOk(cs[i])
  }

  /** The code asks for a known opcode only where a message is a single frame. */
  predicate SinglesKnown(ds: seq<WireFrame>) {
    forall i :: 0 <= i < |ds| && ds[i].fin ==> ds[i].opcode in {CONTINUATION, TEXT, BINARY}
  }

  predicate TextsAccepted(ms: seq<Message>) {
    forall i :: 0 <= i < |ms| ==> TextAccepted(ms[i])
  }

  /** What the code goes along with. */
  predicate Accepted(fs: seq<WireFrame>)
    requires AllValid(fs)
  {
    var ds := DataFrames(fs);
    ControlsOk(ControlFrames(fs)) && FragmentsOk(ds) && SinglesKnown(ds) && TextsAccepted(MessagesOf(ds))
  }

  function Last(fs: seq<WireFrame>): Option<WireFrame> {
    if fs == [] then None else Some(fs[|fs| - 1])
  }

  /** Where an accepted frame sequence leads. */
  function Reached(closeSent: bool, fs: seq<WireFrame>): Machine
    requires AllValid(fs)
  {
    Open(OpenTail(DataFrames(fs)), [], Last(fs), closeSent,
         Effects(Pongs(ControlFrames(fs)), MessagesOf(DataFrames(fs)), None))
  }

  // ---- One more frame

  lemma AllValidMore(fs: seq<WireFrame>, f: WireFrame)
    ensures AllValid(fs + [f]) <==> AllValid(fs) && f.Valid()
  {
    var fs' := fs + [f];
    assert fs'[|fs|] == f && forall i :: 0 <= i < |fs| ==> fs'[i] == fs[i];
  }

  lemma SplitMore(init: seq<WireFrame>, f: WireFrame)
    ensures DataFrames(init + [f]) == if f.IsControl() then DataFrames(init) else DataFrames(init) + [f]
    ensures ControlFrames(init + [f]) == if f.IsControl() then ControlFrames(init) + [f] else ControlFrames(init)
  {
    assert (init + [f])[..|init|] == init;
  }

  lemma ControlsMore(cs: seq<WireFrame>, f: WireFrame)
    requires AllValid(cs) && f.Valid()
    ensures ControlsOk(cs + [f]) <==> ControlsOk(cs) && ControlOk(f)
    ensures AllValid(cs + [f])
    ensures Pongs(cs + [f])
         == if f.opcode == PING then Pongs(cs) + ServerFrame(true, PONG, f.form, f.Payload()) else Pongs(cs)
  {
    var cs' := cs + [f];
    assert cs'[..|cs|] == cs && cs'[|cs|] == f;
    assert forall i :: 0 <= i < |cs| ==> cs'[i] == cs[i];
  }

  lemma FragmentsMore(ds: seq<WireFrame>, f: WireFrame)
    ensures FragmentsOk(ds + [f]) <==> FragmentsOk(ds) && (f.opcode != CONTINUATION <==> OpenTail(ds) == [])
    ensures SinglesKnown(ds + [f])
       <==> SinglesKnown(ds) && (f.fin ==> f.opcode in {CONTINUATION, TEXT, BINARY})
  {
    hide OpenTail;
    var ds' := ds + [f];
    assert ds'[|ds|] == f;
    assert forall i :: 0 <= i < |ds| ==> ds'[i] == ds[i] && BeginsMessage(ds', i) == BeginsMessage(ds, i);
    assert BeginsMessage(ds', |ds|) <==> OpenTail(ds) == [];
  }

  lemma MessagesMore(ds: seq<WireFrame>, f: WireFrame)
    requires AllValid(ds) && f.Valid()
    ensures AllValid(ds + [f])
    ensures OpenTail(ds + [f]) == if f.fin then [] else OpenTail(ds) + [f]
    ensures MessagesOf(ds + [f])
         == if f.fin then MessagesOf(ds) + [MessageOf(OpenTail(ds) + [f])] else MessagesOf(ds)
    ensures TextsAccepted(MessagesOf(ds + [f]))
       <==> TextsAccepted(MessagesOf(ds)) && (f.fin ==> TextAccepted(MessageOf(OpenTail(ds) + [f])))
  {
    hide TextAccepted;
    assert (ds + [f])[..|ds|] == ds;
    var ms, ms' := MessagesOf(ds), MessagesOf(ds + [f]);
    assert forall i :: 0 <= i < |ms| ==> ms'[i] == ms[i];
    if f.fin {
      assert ms'[|ms|] == MessageOf(OpenTail(ds) + [f]);
    }
  }

  /** What a data frame must be, given the data frames before it. */
  predicate DataOk(ds: seq<WireFrame>, f: WireFrame)
    requires AllValid(ds) && f.Valid()
  {
    && (f.opcode != CONTINUATION <==> OpenTail(ds) == [])
    && (f.fin ==> f.opcode in {CONTINUATION, TEXT, BINARY} && TextAccepted(MessageOf(OpenTail(ds) + [f])))
  }

  lemma AcceptedMore(init: seq<WireFrame>, f: WireFrame)
    requires AllValid(init) && f.Valid()
    ensures AllValid(init + [f])
    ensures Accepted(init + [f])
       <==> Accepted(init) && if f.IsControl() then ControlOk(f) else DataOk(DataFrames(init), f)
  {
    hide DataFrames, ControlFrames, MessagesOf, OpenTail, TextAccepted, TextsAccepted, FragmentsOk, SinglesKnown,
      ControlsOk, ControlOk, AllValid, Pongs, ServerFrame, Joined, MessageOf;
    AllValidMore(init, f);
    SplitMore(init, f);
    if f.IsControl() {
      ControlsMore(ControlFrames(init), f);
    } else {
      FragmentsMore(DataFrames(init), f);
      MessagesMore(DataFrames(init), f);
    }
  }

  lemma ReachedByControl(closeSent: bool, init: seq<WireFrame>, f: WireFrame)
    requires AllValid(init) && Inv(Reached(closeSent, init)) && f.Valid() && f.IsControl() && ControlOk(f)
    ensures AllValid(init + [f])
    ensures Receive(Reached(closeSent, init), f) == Reached(closeSent, init + [f])
  {
    hide DataFrames, ControlFrames, MessagesOf, OpenTail, Pongs, ServerFrame, Joined, AllValid, MessageOf, Dispatch;
    AllValidMore(init, f);
    SplitMore(init, f);
    ControlsMore(ControlFrames(init), f);
  }

  lemma ReachedByData(closeSent: bool, init: seq<WireFrame>, f: WireFrame)
    requires AllValid(init) && Inv(Reached(closeSent, init))
    requires f.Valid() && !f.IsControl() && DataOk(DataFrames(init), f)
    ensures AllValid(init + [f])
    ensures Receive(Reached(closeSent, init), f) == Reached(closeSent, init + [f])
  {
    hide DataFrames, ControlFrames, MessagesOf, OpenTail, Pongs, TextAccepted, ServerFrame, Joined, Control, AllValid;
    AllValidMore(init, f);
    SplitMore(init, f);
    var ds := DataFrames(init);
    MessagesMore(ds, f);
    if OpenTail(ds) == [] {
      assert OpenTail(ds) + [f] == [f];
    }
  }

  lemma RefusedControl(closeSent: bool, init: seq<WireFrame>, f: WireFrame)
    requires AllValid(init) && Inv(Reached(closeSent, init)) && f.Valid() && f.IsControl() && !ControlOk(f)
    ensures Receive(Reached(closeSent, init), f).Closing?
  {
    hide DataFrames, ControlFrames, MessagesOf, OpenTail, Pongs, ServerFrame, Joined, Dispatch, CloseReply, AllValid;
  }

  lemma OpenAfterData(m: Machine, f: WireFrame)
    requires Inv(m) && m.Open? && f.Valid() && !f.IsControl() && Receive(m, f).Open?
    ensures f.opcode != CONTINUATION <==> m.fragments == []
    ensures f.fin ==> f.opcode in {CONTINUATION, TEXT, BINARY}
    ensures f.fin ==> AllValid(m.fragments + [f]) && TextAccepted(MessageOf(m.fragments + [f]))
  {
    hide TextAccepted, Joined, Control, AllValid;
    AllValidMore(m.fragments, f);
    if f.fin {
      assert f.opcode in {CONTINUATION, TEXT, BINARY};
      assert Receive(m, f) == Dispatch(m, m.fragments + [f]);
    }
  }

  lemma RefusedData(m: Machine, ds: seq<WireFrame>, f: WireFrame)
    requires Inv(m) && m.Open? && AllValid(ds) && m.fragments == OpenTail(ds)
    requires f.Valid() && !f.IsControl() && !DataOk(ds, f)
    ensures Receive(m, f).Closing?
  {
    hide OpenTail, TextAccepted, MessageOf, Receive, AllValid, Inv;
    if Receive(m, f).Open? {
      OpenAfterData(m, f);
    }
  }

  // ---- The machine does exactly this

  /**
   The receive machine, exactly: it stays open if and only if the frames are accepted, and then what it has
   delivered depends on the data frames alone and what it has answered on the control frames alone.
   */
  lemma {:induction false} ReceivesExactly(closeSent: bool, fs: seq<WireFrame>)
    requires AllValid(fs)
    ensures ReceiveAll(Start(closeSent), fs).Open? <==> Accepted(fs)
    ensures Accepted(fs) ==> ReceiveAll(Start(closeSent), fs) == Reached(closeSent, fs)
    decreases |fs|
  {
    if fs != [] {
      var init, f := fs[..|fs| - 1], fs[|fs| - 1];
      assert fs == init + [f];
      ReceivesExactly(closeSent, init);
      AcceptedMore(init, f);
      hide Accepted, Receive;
      if Accepted(fs) {
        if f.IsControl() {
          ReachedByControl(closeSent, init, f);
        } else {
          ReachedByData(closeSent, init, f);
        }
      } else if Accepted(init) {
        if f.IsControl() {
          RefusedControl(closeSent, init, f);
        } else {
          RefusedData(ReceiveAll(Start(closeSent), init), DataFrames(init), f);
        }
      }
    }
  }
}
