/** From octets to frames: the octet machine is the frame machine run over the frames the octets spell. */
module Framing {
  import opened Bytes
  import opened Wire
  import opened Receiving

  lemma {:induction false} RunConcat(m: Machine, a: seq<byte>, b: seq<byte>)
    requires Valid(m)
    ensures Run(m, a + b) == Run(Run(m, a), b)
  {
    if b == [] {
      assert a + b == a;
    } else {
      var init := b[..|b| - 1];
      assert (a + b)[..|a + b| - 1] == a + init;
      RunConcat(m, a, init);
    }
  }

  function RunChunks(m: Machine, chunks: seq<seq<byte>>): (r: Machine)
    requires Valid(m)
    ensures Valid(r)
    decreases |chunks|
  {
    if chunks == [] then m else RunChunks(Run(m, chunks[0]), chunks[1..])
  }

  /** How the octets are cut into chunks makes no difference, as long as the loop over a buffer is not left. */
  lemma {:induction false} ChunksDoNotMatter(m: Machine, chunks: seq<seq<byte>>)
    requires Valid(m) && !Run(m, Flat(chunks)).Closing?
    ensures RunChunks(m, chunks) == Run(m, Flat(chunks))
    decreases |chunks|
  {
    if chunks != [] {
      RunConcat(m, chunks[0], Flat(chunks[1..]));
      ChunksDoNotMatter(Run(m, chunks[0]), chunks[1..]);
    }
  }

  lemma {:induction false} ReceiveAllConcat(m: Machine, a: seq<WireFrame>, b: seq<WireFrame>)
    requires Inv(m) && AllValid(a) && AllValid(b)
    ensures AllValid(a + b) && ReceiveAll(m, a + b) == ReceiveAll(ReceiveAll(m, a), b)
    decreases |b|
  {
    if b == [] {
      assert a + b == a;
    } else {
      var init := b[..|b| - 1];
      assert (a + b)[..|a + b| - 1] == a + init;
      ReceiveAllConcat(m, a, init);
    }
  }

  lemma StepCollects(m: Machine, b: byte)
    requires Valid(m) && m.Open? && !FrameComplete(m.partial + [b]) && !Refuses(m.partial + [b])
    ensures Step(m, b) == m.(partial := m.partial + [b])
  {
  }

  lemma BeforeEnd(f: WireFrame, k: nat)
    requires f.Valid() && k < |Serialize(f)|
    ensures !FrameComplete(Serialize(f)[..k]) && !Refuses(Serialize(f)[..k])
  {
    IncompleteBeforeEnd(f, k);
    if k == 3 {
      HeaderReadsBack(f, Serialize(f)[..k]);
    }
  }

  /** While a frame arrives, nothing but the collected octets changes. */
  lemma {:induction false} CollectsFrame(m: Machine, f: WireFrame, k: nat)
    requires Valid(m) && m.Open? && m.partial == [] && f.Valid() && k < |Serialize(f)|
    ensures Run(m, Serialize(f)[..k]) == m.(partial := Serialize(f)[..k])
  {
    hide Serialize, Step, FrameComplete, Refuses, Valid;
    var s := Serialize(f);
    if k > 0 {
      CollectsFrame(m, f, k - 1);
      assert s[..k][..k - 1] == s[..k - 1];
      assert s[..k - 1] + [s[k - 1]] == s[..k];
      BeforeEnd(f, k);
      StepCollects(m.(partial := s[..k - 1]), s[k - 1]);
    }
  }

  lemma StepCompletes(m: Machine, b: byte)
    requires Valid(m) && m.Open? && FrameComplete(m.partial + [b]) && !Refuses(m.partial + [b])
    ensures Parse(m.partial + [b]).Valid()
    ensures Step(m, b) == Receive(m.(partial := []), Parse(m.partial + [b]))
  {
    CompletesOnLastOctet(m.partial, b);
    SerializeParse(m.partial + [b]);
  }

  lemma RunLast(m: Machine, bs: seq<byte>)
    requires Valid(m) && bs != []
    ensures Run(m, bs) == Step(Run(m, bs[..|bs| - 1]), bs[|bs| - 1])
  {
  }

  lemma AtEnd(f: WireFrame)
    requires f.Valid()
    ensures FrameComplete(Serialize(f)) && !Refuses(Serialize(f)) && Parse(Serialize(f)) == f
  {
    ParseSerialize(f);
  }

  /** The octets of one frame do what the frame does, at its last octet. */
  lemma RunFrame(m: Machine, f: WireFrame)
    requires Valid(m) && m.Open? && m.partial == [] && f.Valid()
    ensures Run(m, Serialize(f)) == Receive(m, f)
  {
    hide Serialize, Receive, FrameComplete, Parse, Refuses, Step, Run, WireFrame.Valid, Valid;
    var s := Serialize(f);
    var k := |s| - 1;
    CollectsFrame(m, f, k);
    RunLast(m, s);
    AtEnd(f);
    assert s[..k] + [s[k]] == s;
    assert Valid(m.(partial := s[..k])) by { assert Valid(Run(m, s[..k])); }
    StepCompletes(m.(partial := s[..k]), s[k]);
    assert m.(partial := []) == m;
  }

  /** Receive refinement, first half: the octets of any frames do what the frames do. */
  lemma {:induction false} RunFrames(m: Machine, fs: seq<WireFrame>)
    requires Valid(m) && m.Open? && m.partial == [] && AllValid(fs)
    ensures Run(m, SerializeAll(fs)) == ReceiveAll(m, fs)
    decreases |fs|
  {
    if fs != [] {
      var init, last := fs[..|fs| - 1], fs[|fs| - 1];
      RunFrames(m, init);
      RunConcat(m, SerializeAll(init), Serialize(last));
      var r := ReceiveAll(m, init);
      if r.Open? {
        RunFrame(r, last);
      }
    }
  }

  lemma Regroup(a: seq<byte>, b: seq<byte>, c: seq<byte>)
    ensures a + b + c == a + (b + c)
  {
  }

  lemma AppendFrame(m: Machine, fs: seq<WireFrame>, f: WireFrame)
    requires Inv(m) && AllValid(fs) && f.Valid()
    ensures AllValid(fs + [f]) && SerializeAll(fs + [f]) == SerializeAll(fs) + Serialize(f)
    ensures ReceiveAll(m, fs + [f]) == Receive(ReceiveAll(m, fs), f)
  {
    assert (fs + [f])[..|fs|] == fs;
  }

  /** What one octet does to a run that stays open: it is kept, or it ends a frame. */
  lemma OneMoreOctet(r: Machine, b: byte)
    requires Valid(r) && r.Open? && Step(r, b).Open?
    ensures var p := r.partial + [b];
            || Step(r, b) == r.(partial := p)
            || (FrameComplete(p) && Parse(p).Valid() && Serialize(Parse(p)) == p
                && Step(r, b) == Receive(r.(partial := []), Parse(p)))
  {
    var p := r.partial + [b];
    if FrameComplete(p) {
      CompletesOnLastOctet(r.partial, b);
      SerializeParse(p);
    }
  }

  /**
   Every run that is still open has read some sequence of frames and the beginning of one more, and is where those
   frames lead: no octet is lost, none is counted twice.
   */
  lemma {:induction false} OpenRunReadsFrames(m: Machine, bs: seq<byte>) returns (fs: seq<WireFrame>)
    requires Valid(m) && m.Open? && m.partial == []
    requires Run(m, bs).Open?
    ensures AllValid(fs) && bs == SerializeAll(fs) + Run(m, bs).partial
    ensures Pending(Run(m, bs).partial)
    ensures Run(m, bs).(partial := []) == ReceiveAll(m, fs)
    decreases |bs|
  {
    hide Run, Step, Receive, ReceiveAll, FrameComplete, Parse, Serialize, SerializeAll, Pending;
    if bs == [] {
      fs := [];
      NothingRead(m);
    } else {
      var init, b := bs[..|bs| - 1], bs[|bs| - 1];
      RunLast(m, bs);
      var r := Run(m, init);
      if !r.Open? {
        StaysShut(r, b);
      }
      fs := OpenRunReadsFrames(m, init);
      var p := r.partial + [b];
      OneMoreOctet(r, b);
      assert bs == init + [b];
      Regroup(SerializeAll(fs), r.partial, [b]);
      if Step(r, b) != r.(partial := p) {
        AppendFrame(m, fs, Parse(p));
        fs := fs + [Parse(p)];
      }
    }
  }

  lemma NothingRead(m: Machine)
    requires Valid(m) && m.Open? && m.partial == []
    ensures Run(m, []) == m && ReceiveAll(m, []) == m && SerializeAll([]) == [] && Pending(m.partial)
  {
  }

  /** What one octet does to a run that it ends: it shows a refused header, or it ends a frame. */
  lemma LastOctet(r: Machine, b: byte)
    requires Valid(r) && r.Open? && !Step(r, b).Open?
    ensures var p := r.partial + [b];
            || (|p| == 3 && HeaderRefused(p) && Step(r, b) == Refuse(r.fx, r.last, p))
            || (FrameComplete(p) && Parse(p).Valid() && Serialize(Parse(p)) == p
                && Step(r, b) == Receive(r.(partial := []), Parse(p)))
  {
    var p := r.partial + [b];
    if FrameComplete(p) && !Refuses(p) {
      CompletesOnLastOctet(r.partial, b);
      SerializeParse(p);
    }
  }

  /** Where the octets split at which a connection begins to close. */
  datatype Split = Split(before: seq<WireFrame>, last: seq<byte>)

  /** The frames before are received, and the last octets are a refused header or the frame that closes. */
  predicate SplitsAt(m: Machine, bs: seq<byte>, s: Split)
    requires Valid(m)
  {
    && AllValid(s.before) && bs == SerializeAll(s.before) + s.last
    && var r := ReceiveAll(m, s.before);
       r.Open?
       && (|| (|s.last| == 3 && HeaderRefused(s.last) && Run(m, bs) == Refuse(r.fx, r.last, s.last))
           || (FrameComplete(s.last) && Parse(s.last).Valid() && Serialize(Parse(s.last)) == s.last
               && Run(m, bs) == Receive(r, Parse(s.last))))
  }

  /** At the octet at which a connection begins to close it has read some frames, and then what closes. */
  lemma ClosedRunReadsFrames(m: Machine, bs: seq<byte>) returns (s: Split)
    requires Valid(m) && m.Open? && m.partial == [] && bs != []
    requires Run(m, bs[..|bs| - 1]).Open? && !Run(m, bs).Open?
    ensures SplitsAt(m, bs, s)
  {
    hide Step, Receive, FrameComplete, Parse, Serialize, SerializeAll, Pending, HeaderRefused, Refuse;
    var init, b := bs[..|bs| - 1], bs[|bs| - 1];
    assert bs == init + [b];
    var r := Run(m, init);
    LastOctet(r, b);
    var fs := OpenRunReadsFrames(m, init);
    s := Split(fs, r.partial + [b]);
    Regroup(SerializeAll(fs), r.partial, [b]);
  }

  lemma StaysShut(r: Machine, b: byte)
    requires Valid(r) && !r.Open?
    ensures !Step(r, b).Open? && (r.Closing? ==> Step(r, b) == r)
  {
  }
}
