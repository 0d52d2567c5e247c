/** The whole way: from the octets that arrive, in whatever pieces, to the messages handed out and the answers sent. */
module Service {
  import opened Bytes
  import opened Wire
  import opened Frames
  import R = Receiving
  import opened Connections
  import Framing
  import Clients
  import Conformance

  lemma AllFitJoin(m: R.Machine, a: seq<byte>, b: seq<byte>)
    requires R.Valid(m) && AllFit(m, a) && AllFit(R.Run(m, a), b)
    ensures AllFit(m, a + b)
  {
    hide R.Run, R.Valid, OctetFits;
    forall k | 0 <= k < |a + b| ensures OctetFits(R.Run(m, (a + b)[..k]), (a + b)[k]) {
      if k < |a| {
        assert (a + b)[..k] == a[..k];
      } else {
        assert (a + b)[..k] == a + b[..k - |a|];
        Framing.RunConcat(m, a, b[..k - |a|]);
      }
    }
  }

  lemma ClosingFits(m: R.Machine, bs: seq<byte>)
    requires m.Closing?
    ensures R.Valid(m) && AllFit(m, bs)
  {
  }

  lemma FrameFits(m: R.Machine, f: WireFrame)
    requires R.Valid(m) && m.Open? && m.partial == [] && f.Valid() && |Serialize(f)| <= MAX_FRAME
    ensures AllFit(m, Serialize(f))
  {
    hide Serialize, R.Run, R.Valid;
    var s := Serialize(f);
    forall k | 0 <= k < |s| ensures OctetFits(R.Run(m, s[..k]), s[k]) {
      Framing.CollectsFrame(m, f, k);
      assert s[..k] + [s[k]] == s[..k + 1];
      PrefixFits(f, k + 1);
    }
  }

  lemma PrefixFits(f: WireFrame, k: nat)
    requires f.Valid() && k <= |Serialize(f)| <= MAX_FRAME
    ensures Fits(Serialize(f)[..k]) && !R.Refuses(Serialize(f)[..k])
  {
    if k >= 2 {
      HeaderReadsBack(f, Serialize(f)[..k]);
    }
  }

  predicate FramesFit(fs: seq<WireFrame>)
    requires AllValid(fs)
  {
    forall i :: 0 <= i < |fs| ==> |Serialize(fs[i])| <= 0x8000_0000
  }

  lemma {:induction false} FramesFitAll(m: R.Machine, fs: seq<WireFrame>)
    requires R.Valid(m) && m.Open? && m.partial == [] && AllValid(fs) && FramesFit(fs)
    ensures AllFit(m, SerializeAll(fs))
    decreases |fs|
  {
    hide Serialize, R.Receive, AllFit, R.Run;
    if fs == [] {
      NothingFits(m);
    } else {
      var init, last := fs[..|fs| - 1], fs[|fs| - 1];
      FramesFitAll(m, init);
      Framing.RunFrames(m, init);
      var r := R.ReceiveAll(m, init);
      if r.Open? {
        FrameFits(r, last);
      } else {
        ClosingFits(r, Serialize(last));
      }
      AllFitJoin(m, SerializeAll(init), Serialize(last));
    }
  }

  lemma NothingFits(m: R.Machine)
    requires R.Valid(m)
    ensures AllFit(m, [])
  {
  }

  /**
   A new connection that is given the frames of a client, cut into pieces anywhere, hands exactly the client's
   messages to the application and answers exactly its pings.
   */
  method Serve(closeSent: bool, ghost cms: seq<Clients.ClientMessage>, ghost fs: seq<WireFrame>,
               pieces: seq<seq<byte>>)
    returns (c: Connection)
    requires Clients.AllMessagesValid(cms) && AllValid(fs) && FramesFit(fs)
    requires Conformance.DataFrames(fs) == Clients.AllFrames(cms)
    requires Conformance.ControlsOk(Conformance.ControlFrames(fs))
    requires Flat(pieces) == SerializeAll(fs)
    ensures fresh(c) && c.Valid()
    ensures c.Abs() == R.Open([], [], Conformance.Last(fs), closeSent,
              R.Effects(Conformance.Pongs(Conformance.ControlFrames(fs)), Clients.Delivered(cms), None))
  {
    hide R.Run, R.Valid, AllFit, Connection.Valid, Connection.Refused, Connection.Abs, Connection.Matches;
    c := new Connection(closeSent);
    ghost var m := c.Abs();
    c.OwnsItself();
    StartIsValid(closeSent);
    FramesFitAll(m, fs);
    Clients.ServesClients(closeSent, cms, fs);
    ghost var goal := R.Run(m, SerializeAll(fs));
    assert pieces[0..] == pieces;
    for i := 0 to |pieces|
      invariant fresh(c) && fresh(c.Repr) && c.Going() && c in c.Repr && R.Valid(c.Abs())
      invariant AllFit(c.Abs(), Flat(pieces[i..]))
      invariant R.Run(c.Abs(), Flat(pieces[i..])) == goal
    {
      ghost var rest, m := Flat(pieces[i..]), c.Abs();
      FlatHead(pieces, i);
      RunParts(m, rest, |pieces[i]|);
      var n, _ := c.HandleRecv(pieces[i]);
      assert rest[..n] == pieces[i][..n];
      RunParts(m, rest, n);
      assert pieces[i][..|pieces[i]|] == pieces[i];
      c.StillGoing(R.Run(m, pieces[i]));
      c.OwnsItself();
    }
    RunNone(c.Abs(), []);
    c.IsWhere();
    c.IsOpen();
  }

  /**
   A whole connection, for any octets in any pieces: it is read until nothing comes any more, or until the end of the
   buffer at which it is left to be closed, and then shut down. It has said and delivered what the machine says and
   delivers on the first n octets, and nothing stays allocated.
   */
  method Session(closeSent: bool, pieces: seq<seq<byte>>) returns (c: Connection, n: nat)
    requires R.Valid(R.Start(closeSent)) && AllFit(R.Start(closeSent), Flat(pieces))
    ensures fresh(c) && c.live == {} && n <= |Flat(pieces)|
    ensures var r := R.Run(R.Start(closeSent), Flat(pieces)[..n]);
            && c.Fx() == r.fx && c.shouldClose == !r.Open?
            && (n < |Flat(pieces)| ==> r.Closing?)
    ensures n > 1024 ==> !R.Run(R.Start(closeSent), Flat(pieces)[..n - 1024]).Closing?
  {
    hide R.Run, R.Valid, AllFit, Flat, Connection.Valid, Connection.Refused, Connection.Abs, Connection.Matches,
      Connection.Releasable, Connection.Fx;
    c := new Connection(closeSent);
    c.OwnsItself();
    ghost var m, all := R.Start(closeSent), Flat(pieces);
    n := 0;
    RunNone(m, all);
    FlatEnds(pieces);
    c.InPlace();
    for i := 0 to |pieces|
      invariant fresh(c) && fresh(c.Repr) && c.Going() && c in c.Repr && R.Valid(c.Abs())
      invariant n <= |all| && all[..n] == Flat(pieces[..i])
      invariant c.Abs() == R.Run(m, all[..n]) && !c.Abs().Closing?
    {
      ghost var r := c.Abs();
      PieceOf(pieces, i);
      RunParts(m, all, n);
      RunParts(r, all[n..], |pieces[i]|);
      var k, stop := c.HandleRecv(pieces[i]);
      PiecePart(m, all, n, pieces[i], k);
      c.InAnyCase(R.Run(r, pieces[i][..k]));
      InBuffer(m, all, n, pieces[i], k);
      n := n + k;
      if stop {
        c.FreeAllFrames();
        return c, n;
      }
      assert pieces[i][..k] == pieces[i];
      c.StillGoing(R.Run(m, all[..n]));
      c.OwnsItself();
    }
    c.InPlace();
    c.InAnyCase(c.Abs());
    LastBuffer(m, all, n, n);
    c.FreeAllFrames();
  }

  lemma StartIsValid(closeSent: bool)
    ensures R.Valid(R.Start(closeSent))
  {
  }

  lemma FlatEnds(pieces: seq<seq<byte>>)
    ensures Flat(pieces[..0]) == [] && pieces[..|pieces|] == pieces
  {
  }

  /** Where a piece lies in the whole. */
  lemma PieceOf(pieces: seq<seq<byte>>, i: nat)
    requires i < |pieces|
    ensures var all, n := Flat(pieces), |Flat(pieces[..i])|;
            && n + |pieces[i]| <= |all| && all[n..n + |pieces[i]|] == all[n..][..|pieces[i]|] == pieces[i]
            && all[..n + |pieces[i]|] == Flat(pieces[..i + 1])
  {
    FlatSplit(pieces, i);
    FlatConcat(pieces[..i + 1], pieces[i + 1..]);
    assert pieces[..i + 1] + pieces[i + 1..] == pieces;
  }

  lemma PiecePart(m: R.Machine, all: seq<byte>, n: nat, piece: seq<byte>, k: nat)
    requires R.Valid(m) && k <= |piece| && n + |piece| <= |all| && all[n..n + |piece|] == piece
    ensures R.Run(m, all[..n + k]) == R.Run(R.Run(m, all[..n]), piece[..k])
  {
    RunSlice(m, all, n, k);
    assert piece[..k] == all[n..n + k];
  }

  lemma InBuffer(m: R.Machine, all: seq<byte>, n: nat, piece: seq<byte>, k: nat)
    requires R.Valid(m) && k <= |piece| && n + |piece| <= |all| && all[n..n + |piece|] == piece
    requires !R.Run(m, all[..n]).Closing?
    requires k > 0 ==> !R.Run(R.Run(m, all[..n]), piece[..BufferStart(k)]).Closing?
    ensures n + k > BUFFER_SIZE ==> !R.Run(m, all[..n + k - BUFFER_SIZE]).Closing?
  {
    hide R.Run, R.Valid;
    if k > 0 {
      StartBefore(k);
      PiecePart(m, all, n, piece, BufferStart(k));
      LastBuffer(m, all, n + BufferStart(k), n + k);
    } else {
      LastBuffer(m, all, n, n);
    }
  }

  lemma StartBefore(k: nat)
    requires k > 0
    ensures BufferStart(k) < k <= BufferStart(k) + BUFFER_SIZE
  {
  }

  /** A run that goes on at the start of a buffer went on before. */
  lemma LastBuffer(m: R.Machine, all: seq<byte>, start: nat, end: nat)
    requires R.Valid(m) && start <= end <= |all| && end - start <= BUFFER_SIZE
    requires !R.Run(m, all[..start]).Closing?
    ensures end > BUFFER_SIZE ==> !R.Run(m, all[..end - BUFFER_SIZE]).Closing?
  {
    hide R.Run, R.Valid, AllFit;
    if end > BUFFER_SIZE {
      var k := end - BUFFER_SIZE;
      RunParts(m, all[..start], k);
      assert all[..start][..k] == all[..k];
    }
  }

  lemma FlatHead(pieces: seq<seq<byte>>, i: nat)
    requires i < |pieces|
    ensures var rest := Flat(pieces[i..]);
            |pieces[i]| <= |rest| && rest[..|pieces[i]|] == pieces[i]
            && rest[|pieces[i]|..] == Flat(pieces[i + 1..])
  {
    assert pieces[i..][1..] == pieces[i + 1..];
  }
}
