/**
 The promises of RFC 6455 to a client, on the octets it sends: every message arrives, every ping is answered.
 Then where the code departs from the standard.
 */
module Clients {
  import opened Bytes
  import opened Wire
  import opened Receiving
  import opened Conformance
  import Framing
  import Utf8

  // ---- Well-behaved clients

  /** One fragment of a message, with the length form and the masking key the client chose for it. */
  datatype Part = Part(form: LenForm, key: seq<byte>, payload: seq<byte>) {
    predicate Valid() {
      |key| == 4 && form.Admits(|payload|)
    }
  }

  datatype ClientMessage = ClientMessage(opcode: nat, parts: seq<Part>) {
    predicate Valid() {
      && parts != [] && (forall i :: 0 <= i < |parts| ==> parts[i].Valid())
      && opcode in {TEXT, BINARY}
      && (opcode == TEXT ==> Utf8.IsOctets(Whole(parts)))
    }

    /** Section 5.4 of RFC 6455: the opcode on the first frame, FIN on the last. */
    function Frames(): (r: seq<WireFrame>)
      requires Valid()
      ensures |r| == |parts| && AllValid(r)
    {
      seq(|parts|, i requires 0 <= i < |parts| =>
        MaskFrame(i == |parts| - 1, if i == 0 then opcode else CONTINUATION,
                  parts[i].form, parts[i].key, parts[i].payload))
    }
  }

  function Whole(parts: seq<Part>): seq<byte> {
    if parts == [] then [] else Whole(parts[..|parts| - 1]) + parts[|parts| - 1].payload
  }

  predicate AllMessagesValid(cms: seq<ClientMessage>) {
    forall i :: 0 <= i < |cms| ==> cms[i].Valid()
  }

  function AllFrames(cms: seq<ClientMessage>): (r: seq<WireFrame>)
    requires AllMessagesValid(cms)
    ensures AllValid(r)
  {
    if cms == [] then [] else AllFrames(cms[..|cms| - 1]) + cms[|cms| - 1].Frames()
  }

  /** What the application should be handed. */
  function Delivered(cms: seq<ClientMessage>): (r: seq<Message>)
    ensures |r| == |cms|
    ensures forall i :: 0 <= i < |cms| ==> r[i] == Message(cms[i].opcode, Whole(cms[i].parts))
  {
    seq(|cms|, i requires 0 <= i < |cms| => Message(cms[i].opcode, Whole(cms[i].parts)))
  }

  lemma {:induction false} JoinedParts(c: ClientMessage, k: nat)
    requires c.Valid() && k <= |c.parts|
    ensures Joined(c.Frames()[..k]) == Whole(c.parts[..k])
  {
    if k > 0 {
      JoinedParts(c, k - 1);
      var fs := c.Frames();
      assert fs[..k][..k - 1] == fs[..k - 1] && c.parts[..k][..k - 1] == c.parts[..k - 1];
      UnmaskTwice(c.parts[k - 1].key, c.parts[k - 1].payload);
      assert fs[k - 1].Payload() == c.parts[k - 1].payload;
    }
  }

  lemma FramesJoin(c: ClientMessage)
    requires c.Valid()
    ensures MessageOf(c.Frames()) == Message(c.opcode, Whole(c.parts))
    ensures TextAccepted(MessageOf(c.Frames()))
  {
    JoinedParts(c, |c.parts|);
    assert c.Frames()[..|c.parts|] == c.Frames() && c.parts[..|c.parts|] == c.parts;
    if c.opcode == TEXT {
      Utf8.UpToNulStaysValid(Whole(c.parts));
    }
  }

  /** Data frames the machine goes along with. */
  predicate DataAccepted(ds: seq<WireFrame>)
    requires AllValid(ds)
  {
    FragmentsOk(ds) && SinglesKnown(ds) && TextsAccepted(MessagesOf(ds))
  }

  lemma DataMore(ds: seq<WireFrame>, f: WireFrame)
    requires AllValid(ds) && f.Valid()
    ensures AllValid(ds + [f])
    ensures DataAccepted(ds + [f]) <==> DataAccepted(ds) && DataOk(ds, f)
    ensures OpenTail(ds + [f]) == if f.fin then [] else OpenTail(ds) + [f]
    ensures MessagesOf(ds + [f])
         == if f.fin then MessagesOf(ds) + [MessageOf(OpenTail(ds) + [f])] else MessagesOf(ds)
  {
    hide OpenTail, MessagesOf, FragmentsOk, SinglesKnown, TextsAccepted, TextAccepted, MessageOf, AllValid;
    FragmentsMore(ds, f);
    MessagesMore(ds, f);
  }

  /** The first k frames of a message, not all of them: a message is in progress. */
  lemma {:induction false} MessageInProgress(ds: seq<WireFrame>, c: ClientMessage, k: nat)
    requires AllValid(ds) && DataAccepted(ds) && OpenTail(ds) == []
    requires c.Valid() && k < |c.parts|
    ensures AllValid(ds + c.Frames()[..k]) && DataAccepted(ds + c.Frames()[..k])
    ensures OpenTail(ds + c.Frames()[..k]) == c.Frames()[..k]
    ensures MessagesOf(ds + c.Frames()[..k]) == MessagesOf(ds)
  {
    hide DataAccepted, MessagesOf, OpenTail;
    var fs := c.Frames();
    if k == 0 {
      assert ds + fs[..0] == ds;
    } else {
      MessageInProgress(ds, c, k - 1);
      var f := fs[k - 1];
      assert fs[..k - 1] + [f] == fs[..k];
      assert ds + fs[..k] == ds + fs[..k - 1] + [f];
      DataMore(ds + fs[..k - 1], f);
    }
  }

  lemma MessageComplete(ds: seq<WireFrame>, c: ClientMessage)
    requires AllValid(ds) && DataAccepted(ds) && OpenTail(ds) == [] && c.Valid()
    ensures AllValid(ds + c.Frames()) && DataAccepted(ds + c.Frames())
    ensures OpenTail(ds + c.Frames()) == []
    ensures MessagesOf(ds + c.Frames()) == MessagesOf(ds) + [Message(c.opcode, Whole(c.parts))]
  {
    hide DataAccepted, MessagesOf, OpenTail;
    var fs := c.Frames();
    var k := |fs| - 1;
    MessageInProgress(ds, c, k);
    var f := fs[k];
    assert fs[..k] + [f] == fs;
    assert ds + fs == ds + fs[..k] + [f];
    FramesJoin(c);
    DataMore(ds + fs[..k], f);
  }

  lemma {:induction false} AllMessagesComplete(cms: seq<ClientMessage>)
    requires AllMessagesValid(cms)
    ensures DataAccepted(AllFrames(cms)) && OpenTail(AllFrames(cms)) == []
    ensures MessagesOf(AllFrames(cms)) == Delivered(cms)
  {
    if cms != [] {
      var init, last := cms[..|cms| - 1], cms[|cms| - 1];
      AllMessagesComplete(init);
      DeliveredMore(cms);
      assert AllFrames(cms) == AllFrames(init) + last.Frames();
      hide MessagesOf, OpenTail, DataAccepted, AllFrames, Delivered;
      MessageComplete(AllFrames(init), last);
    }
  }

  lemma DeliveredMore(cms: seq<ClientMessage>)
    requires cms != []
    ensures var init, last := cms[..|cms| - 1], cms[|cms| - 1];
            Delivered(cms) == Delivered(init) + [Message(last.opcode, Whole(last.parts))]
  {
  }

  /**
   Receive refinement: whatever messages a client sends, cut into any fragments, with pings and pongs interleaved
   anywhere, the application is handed exactly those messages in order, and the client gets exactly one PONG per
   PING in order; nothing is left over.
   */
  lemma ServesClients(closeSent: bool, cms: seq<ClientMessage>, fs: seq<WireFrame>)
    requires AllMessagesValid(cms) && AllValid(fs)
    requires DataFrames(fs) == AllFrames(cms) && ControlsOk(ControlFrames(fs))
    ensures Run(Start(closeSent), SerializeAll(fs))
         == Open([], [], Last(fs), closeSent, Effects(Pongs(ControlFrames(fs)), Delivered(cms), None))
  {
    AllMessagesComplete(cms);
    ReceivesExactly(closeSent, fs);
    Framing.RunFrames(Start(closeSent), fs);
  }

  // ---- Where the code departs from RFC 6455

  /** A message may begin with a reserved opcode when it is fragmented. */
  predicate StartsKnown(ds: seq<WireFrame>) {
    forall i :: 0 <= i < |ds| ==> ds[i].opcode in {CONTINUATION, TEXT, BINARY}
  }

  predicate TextsValid(ms: seq<Message>) {
    forall i :: 0 <= i < |ms| && ms[i].opcode == TEXT ==> Utf8.IsOctets(ms[i].payload)
  }

  /** A text that is not complete yet can still become valid. */
  ghost predicate UnfinishedValid(ds: seq<WireFrame>)
    requires AllValid(ds)
  {
    var tail := OpenTail(ds);
    tail != [] && tail[0].opcode == TEXT ==> Utf8.CanBeCompleted(Joined(tail))
  }

  /** The payload length of section 5.2 of RFC 6455: in as few octets as it can be, and below 2^63. */
  predicate LengthMinimal(f: WireFrame) {
    f.form == MinimalForm(|f.data|) && |f.data| < 0x8000_0000_0000_0000
  }

  predicate LengthsMinimal(fs: seq<WireFrame>) {
    forall i :: 0 <= i < |fs| ==> LengthMinimal(fs[i])
  }

  /** Opcodes, fragments, control frames and texts: sections 5.2, 5.4, 5.5 and 8.1 of RFC 6455. */
  ghost predicate FollowsRules(fs: seq<WireFrame>)
    requires AllValid(fs)
  {
    var ds := DataFrames(fs);
    && ControlsOk(ControlFrames(fs)) && FragmentsOk(ds) && StartsKnown(ds)
    && TextsValid(MessagesOf(ds)) && UnfinishedValid(ds)
  }

  /** All that these sections ask of a client that has not closed. */
  ghost predicate Conforms(fs: seq<WireFrame>)
    requires AllValid(fs)
  {
    LengthsMinimal(fs) && FollowsRules(fs)
  }

  /** Every client that follows the rules is served, in whatever form it writes its lengths. */
  lemma ConformingIsAccepted(closeSent: bool, fs: seq<WireFrame>)
    requires AllValid(fs) && FollowsRules(fs)
    ensures Run(Start(closeSent), SerializeAll(fs)) == Reached(closeSent, fs)
  {
    var ms := MessagesOf(DataFrames(fs));
    forall i | 0 <= i < |ms| ensures TextAccepted(ms[i]) {
      if ms[i].opcode == TEXT {
        Utf8.UpToNulStaysValid(ms[i].payload);
      }
    }
    ReceivesExactly(closeSent, fs);
    Framing.RunFrames(Start(closeSent), fs);
  }

  predicate ReservedStart(f: WireFrame) {
    !f.fin && 3 <= f.opcode < 8
  }

  predicate ErrorAfterNul(m: Message) {
    m.opcode == TEXT && 0 in m.payload && Utf8.IsOctets(UpToNul(m.payload)) && !Utf8.IsOctets(m.payload)
  }

  predicate BeginsReserved(ds: seq<WireFrame>) {
    exists i :: 0 <= i < |ds| && ReservedStart(ds[i])
  }

  predicate HidesError(ms: seq<Message>) {
    exists i :: 0 <= i < |ms| && ErrorAfterNul(ms[i])
  }

  /** The automaton has refused the text that is not complete yet. */
  predicate HopelessText(ds: seq<WireFrame>)
    requires AllValid(ds)
  {
    var tail := OpenTail(ds);
    tail != [] && tail[0].opcode == TEXT && Utf8.RunState(Utf8.ACCEPT, Joined(tail)) == Utf8.REJECT
  }

  lemma StartsUnknown(fs: seq<WireFrame>)
    requires AllValid(fs) && Accepted(fs)
    ensures var ds := DataFrames(fs);
            !StartsKnown(ds) <==> BeginsReserved(ds)
  {
    var ds := DataFrames(fs);
    DataFramesAreData(fs);
    forall i | 0 <= i < |ds| ensures ReservedStart(ds[i]) <==> ds[i].opcode !in {CONTINUATION, TEXT, BINARY} {
    }
  }

  lemma TextsInvalid(ms: seq<Message>)
    requires TextsAccepted(ms)
    ensures !TextsValid(ms) <==> HidesError(ms)
  {
    forall i | 0 <= i < |ms|
      ensures ErrorAfterNul(ms[i]) <==> ms[i].opcode == TEXT && !Utf8.IsOctets(ms[i].payload)
    {
      assert TextAccepted(ms[i]);
      if 0 !in ms[i].payload {
        UpToNulWhole(ms[i].payload);
      }
    }
  }

  /**
   Of the clients that are served, exactly those do not conform that write a length in more octets than needed or
   with its top bit set, begin a fragmented message with a reserved opcode, send a text with an error after a NUL, or
   have sent a part of a text that cannot become valid any more.
   */
  lemma ServedButNotConforming(closeSent: bool, fs: seq<WireFrame>)
    requires AllValid(fs) && Run(Start(closeSent), SerializeAll(fs)).Open?
    ensures !Conforms(fs) <==>
            || !LengthsMinimal(fs) || BeginsReserved(DataFrames(fs)) || HidesError(MessagesOf(DataFrames(fs)))
            || HopelessText(DataFrames(fs))
  {
    Framing.RunFrames(Start(closeSent), fs);
    ReceivesExactly(closeSent, fs);
    StartsUnknown(fs);
    TextsInvalid(MessagesOf(DataFrames(fs)));
    Utf8.RefusedAtOnce(Joined(OpenTail(DataFrames(fs))));
    hide StartsKnown, TextsValid, TextsAccepted, SinglesKnown, BeginsReserved, HidesError, Reached, MessagesOf,
      DataFrames, ControlsOk, FragmentsOk, LengthsMinimal, OpenTail, Joined, ReceiveAll, Run;
  }

  lemma {:induction false} DataFramesAreData(fs: seq<WireFrame>)
    ensures forall i :: 0 <= i < |DataFrames(fs)| ==> DataFrames(fs)[i].opcode < 8
    decreases |fs|
  {
    if fs != [] {
      DataFramesAreData(fs[..|fs| - 1]);
    }
  }

  /** A message of two empty fragments, begun with the reserved opcode 3. */
  const RESERVED: seq<WireFrame> :=
    [WireFrame(false, 3, Short, [0, 0, 0, 0], []), WireFrame(true, 0, Short, [0, 0, 0, 0], [])]

  /** It is delivered, where the standard asks to fail. */
  lemma ReservedOpcodeIsDelivered()
    ensures AllValid(RESERVED) && LengthsMinimal(RESERVED) && !FollowsRules(RESERVED)
    ensures Run(Start(false), SerializeAll(RESERVED))
         == Open([], [], Last(RESERVED), false, Effects([], [Message(3, [])], None))
  {
    hide Run, SerializeAll, Receive, FragmentsOk, ControlsOk, MessagesOf, TextsValid;
    var f, g := RESERVED[0], RESERVED[1];
    assert [] + [f] == [f] && [f] + [g] == RESERVED && RESERVED[..1] == [f] && [f][..0] == [];
    assert DataFrames([]) == [] && DataFrames([f]) == [f];
    assert DataFrames(RESERVED)[0] == f;
    Framing.RunFrames(Start(false), RESERVED);
    assert ReceiveAll(Start(false), []) == Start(false);
    TwoFragments(f, g);
  }

  lemma TwoFragments(f: WireFrame, g: WireFrame)
    requires f.Valid() && !f.fin && !f.IsControl() && f.opcode !in {CONTINUATION, TEXT}
    requires g.Valid() && g.fin && g.opcode == CONTINUATION && f.data == g.data == []
    ensures var m := Receive(Start(false), f);
            m.Open? && Receive(m, g) == Open([], [], Some(g), false, Effects([], [Message(f.opcode, [])], None))
  {
    hide Control, Joined;
    OneFragment(f);
    assert [f, g][..1] == [f] && [f] + [g] == [f, g];
    LastFragment([f, g]);
  }

  lemma LastFragment(fs: seq<WireFrame>)
    requires AllValid(fs) && fs != []
    ensures Joined(fs) == Joined(fs[..|fs| - 1]) + fs[|fs| - 1].Payload()
  {
  }

  /** A message in one frame is delivered, a text when it is UTF-8 up to its first NUL. */
  lemma OneMessage(f: WireFrame)
    requires f.Valid() && f.fin && f.opcode in {TEXT, BINARY} && TextAccepted(Message(f.opcode, f.Payload()))
    ensures Run(Start(false), Serialize(f))
         == Open([], [], Some(f), false, Effects([], [Message(f.opcode, f.Payload())], None))
  {
    hide Serialize, Run, Joined, Control, Unmask, Utf8.IsOctets, UpToNul;
    OneFragment(f);
    Framing.RunFrame(Start(false), f);
    assert [] + [f] == [f];
  }

  /** A text of NUL and the octet 255 is delivered, though it is not UTF-8. */
  lemma ErrorAfterNulIsDelivered()
    ensures var f := MaskFrame(true, TEXT, Short, [0, 0, 0, 0], [0, 0xff]);
            !Utf8.IsOctets([0, 0xff])
            && Run(Start(false), Serialize(f))
               == Open([], [], Some(f), false, Effects([], [Message(TEXT, [0, 0xff])], None))
  {
    hide Serialize, Run, Unmask;
    var text: seq<byte> := [0, 0xff];
    NotOctets();
    assert UpToNul(text) == [];
    UnmaskTwice([0, 0, 0, 0], text);
    OneMessage(MaskFrame(true, TEXT, Short, [0, 0, 0, 0], text));
  }

  /** An empty text whose length is written in 16 bits, where the standard asks for 7. */
  const LONG_LENGTH := WireFrame(true, TEXT, Medium, [0, 0, 0, 0], [])

  /** It is delivered. */
  lemma LongLengthIsDelivered()
    ensures AllValid([LONG_LENGTH]) && FollowsRules([LONG_LENGTH]) && !Conforms([LONG_LENGTH])
    ensures Serialize(LONG_LENGTH) == [0x81, 0xfe, 0, 0, 0, 0, 0, 0]
    ensures Run(Start(false), Serialize(LONG_LENGTH))
         == Open([], [], Some(LONG_LENGTH), false, Effects([], [Message(TEXT, [])], None))
  {
    hide Run, Unmask, FollowsRules, BigEndian, UpToNul;
    OneFrameFollows(LONG_LENGTH);
    ZeroLength();
    assert LONG_LENGTH.Payload() == [] && UpToNul([]) == [];
    OneMessage(LONG_LENGTH);
    assert !LengthMinimal([LONG_LENGTH][0]);
  }

  lemma ZeroLength()
    ensures BigEndian(0, 2) == [0, 0]
  {
    assert BigEndian(0, 1) == [] + [0];
  }

  lemma OneFrameFollows(f: WireFrame)
    requires f.Valid() && f.fin && f.opcode == TEXT && f.Payload() == []
    ensures FollowsRules([f])
  {
    assert [f][..0] == [] && [] + [f] == [f];
    OneFragment(f);
    assert DataFrames([]) == [] && DataFrames([f]) == [f];
    assert ControlFrames([]) == [] && ControlFrames([f]) == [];
    assert OpenTail([]) == [] && MessagesOf([]) == [];
    assert MessagesOf([f]) == [MessageOf([f])];
  }

  /** A first fragment of a text, the octet 255. */
  const HOPELESS := MaskFrame(false, TEXT, Short, [0, 0, 0, 0], [0xff])

  /** The rest of it is waited for, though no text begins so. */
  lemma HopelessTextIsAwaited()
    ensures AllValid([HOPELESS]) && LengthsMinimal([HOPELESS]) && !FollowsRules([HOPELESS])
    ensures Run(Start(false), Serialize(HOPELESS))
         == Open([HOPELESS], [], Some(HOPELESS), false, Effects([], [], None))
  {
    hide Serialize, Run, Unmask, Joined, Utf8.CanBeCompleted, FragmentsOk, StartsKnown, TextsValid, MessagesOf,
      ControlsOk;
    UnmaskTwice([0, 0, 0, 0], [0xff]);
    OneFragment(HOPELESS);
    assert [HOPELESS][..0] == [] && [] + [HOPELESS] == [HOPELESS];
    assert DataFrames([]) == [] && DataFrames([HOPELESS]) == [HOPELESS];
    assert OpenTail([]) == [] && OpenTail([HOPELESS]) == [HOPELESS];
    NoTextBeginsSo();
    Framing.RunFrame(Start(false), HOPELESS);
  }

  lemma NoTextBeginsSo()
    ensures !Utf8.CanBeCompleted([0xff])
  {
    assert Utf8.RunState(Utf8.ACCEPT, [0xff]) == Utf8.REJECT;
    Utf8.RefusedAtOnce([0xff]);
  }

  lemma OneFragment(f: WireFrame)
    requires f.Valid()
    ensures Joined([f]) == f.Payload()
  {
    assert [f][..0] == [];
    assert Joined([]) == [];
  }

  lemma NotOctets()
    ensures !Utf8.IsOctets([0, 0xff])
  {
    Utf8.AcceptsGrammar([0, 0xff]);
    assert [0, 0xff][1..] == [0xff] && [0xff][1..] == [];
    assert Utf8.RunState(0, [0xff]) == 1;
  }
}
