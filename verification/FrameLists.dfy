/** The doubly linked list of the frames of one message: measuring, reassembling and releasing it. */
module FrameLists {
  import opened Bytes
  import opened Wire
  import opened Frames
  import Receiving

  /** fs, first to last, is a whole doubly linked list. */
  ghost predicate Linked(fs: seq<Frame>)
    reads fs`prev, fs`next
  {
    && (fs != [] ==> fs[0].prev == null && fs[|fs| - 1].next == null)
    && (forall i :: 0 < i < |fs| ==> fs[i].prev == fs[i - 1])
    && (forall i :: 0 <= i < |fs| - 1 ==> fs[i].next == fs[i + 1])
  }

  /** Such a list has no cycle: no frame is in it twice. */
  lemma {:induction false} Acyclic(fs: seq<Frame>, i: nat, j: nat)
    requires Linked(fs) && i < j < |fs|
    ensures fs[i] != fs[j]
  {
    if i > 0 {
      Acyclic(fs, i - 1, j - 1);
      assert fs[i].prev == fs[i - 1] && fs[j].prev == fs[j - 1];
    } else {
      assert fs[j].prev == fs[j - 1];
    }
  }

  ghost function Buffers(fs: seq<Frame>): set<array<byte>>
    reads fs`rawdata
  {
    set f | f in fs :: f.rawdata
  }

  /** What a list of frames occupies: the structures and their buffers. */
  ghost function Blocks(fs: seq<Frame>): set<object>
    reads fs`rawdata
  {
    (set f: Frame | f in fs :: f as object) + (set f: Frame | f in fs :: f.rawdata as object)
  }

  /** No buffer belongs to two frames. */
  ghost predicate Apart(fs: seq<Frame>)
    reads fs`rawdata
  {
    forall i, j :: 0 <= i < j < |fs| ==> fs[i].rawdata != fs[j].rawdata
  }

  /** The frames are complete and hold ws. */
  ghost predicate Hold(fs: seq<Frame>, ws: seq<WireFrame>)
    reads fs`rawdata, fs`rawdataSz, fs`rawdataIdx, fs`mask, fs`fin
    reads fs`opcode, fs`payloadOffset, fs`payloadLen, Buffers(fs)
  {
    |fs| == |ws| && forall i :: 0 <= i < |fs| ==> fs[i].Holds(ws[i])
  }

  lemma HoldMore(fs: seq<Frame>, ws: seq<WireFrame>, f: Frame, w: WireFrame)
    requires Hold(fs, ws) && f.Holds(w)
    ensures Hold(fs + [f], ws + [w])
  {
    hide WireFrame.Valid, Header;
    forall i | 0 <= i < |fs + [f]| ensures (fs + [f])[i].Holds((ws + [w])[i]) {
      if i < |fs| {
        assert fs[i].Holds(ws[i]);
      }
    }
  }

  /** Links a new frame after the last one; what the frames hold is not touched. */
  method Extend(current: Frame, ghost fs: seq<Frame>, ghost ws: seq<WireFrame>) returns (f: Frame)
    requires Linked(fs) && fs != [] && current == fs[|fs| - 1]
    modifies current`next
    ensures fresh(f) && fresh(f.rawdata) && Linked(fs + [f]) && (old(Hold(fs, ws)) ==> Hold(fs, ws))
    ensures f.Buffered() && f.Raw() == [] && f.HeaderRead([]) && f.Fields() == Receiving.ZEROED
    ensures forall i :: 0 <= i < |fs| ==> fs[i].rawdata == old(fs[i].rawdata)
  {
    hide Frame.Holds, Frame.HeaderRead, Frame.Buffered;
    f := new Frame(0, current);
    current.next := f;
    ghost var fs' := fs + [f];
    assert forall i :: 0 <= i < |fs| ==> fs'[i] == fs[i];
  }

  function TotalLength(ws: seq<WireFrame>): nat {
    if ws == [] then 0 else |ws[0].data| + TotalLength(ws[1..])
  }

  lemma {:induction false} TotalLengthSplit(a: seq<WireFrame>, b: seq<WireFrame>)
    ensures TotalLength(a + b) == TotalLength(a) + TotalLength(b)
  {
    if a == [] {
      assert a + b == b;
    } else {
      assert (a + b)[1..] == a[1..] + b;
      TotalLengthSplit(a[1..], b);
    }
  }

  /** The length summed backwards is the length written forwards. */
  lemma {:induction false} JoinedLength(ws: seq<WireFrame>)
    requires AllValid(ws)
    ensures |Receiving.Joined(ws)| == TotalLength(ws)
    decreases |ws|
  {
    if ws != [] {
      var init, last := ws[..|ws| - 1], ws[|ws| - 1];
      JoinedLength(init);
      TotalLengthSplit(init, [last]);
      assert ws == init + [last];
    }
  }

  /** Walks back to the first frame, summing the payload lengths. */
  method Measure(current: Frame, ghost fs: seq<Frame>, ghost ws: seq<WireFrame>) returns (total: nat, first: Frame)
    requires Linked(fs) && Hold(fs, ws) && fs != [] && current == fs[|fs| - 1]
    ensures total == TotalLength(ws) && first == fs[0]
  {
    total, first := 0, current;
    ghost var k := |fs| - 1;
    assert ws[k + 1..] == [];
    while first.prev != null
      invariant 0 <= k < |fs| && first == fs[k]
      invariant k > 0 ==> first.prev == fs[k - 1]
      invariant total == TotalLength(ws[k + 1..])
      decreases k
    {
      assert ws[k..][1..] == ws[k + 1..] && fs[k].Holds(ws[k]);
      total := total + first.payloadLen;
      first := first.prev;
      k := k - 1;
    }
    assert ws[0..] == ws && fs[0].Holds(ws[0]);
    total := total + first.payloadLen;
  }

  lemma PrefixLength(ws: seq<WireFrame>, k: nat)
    requires AllValid(ws) && k < |ws|
    ensures AllValid(ws[..k]) && AllValid(ws[..k + 1])
    ensures Receiving.Joined(ws[..k + 1]) == Receiving.Joined(ws[..k]) + ws[k].Payload()
    ensures |Receiving.Joined(ws[..k])| + |ws[k].data| <= TotalLength(ws)
  {
    assert ws[..k + 1][..k] == ws[..k];
    JoinedLength(ws[..k + 1]);
    TotalLengthSplit(ws[..k + 1], ws[k + 1..]);
    assert ws[..k + 1] + ws[k + 1..] == ws;
  }

  lemma HeldAreValid(fs: seq<Frame>, ws: seq<WireFrame>)
    requires Hold(fs, ws)
    ensures AllValid(ws) && |ws| == |fs|
  {
    forall i | 0 <= i < |ws| ensures ws[i].Valid() {
      assert fs[i].Holds(ws[i]);
    }
  }

  /** Walks forward from the first frame, writing the payloads end to end, and a NUL after them. */
  method Reassemble(first: Frame, total: nat, ghost fs: seq<Frame>, ghost ws: seq<WireFrame>)
    returns (payload: array<byte>)
    requires Linked(fs) && Hold(fs, ws) && fs != [] && first == fs[0] && total == TotalLength(ws)
    ensures fresh(payload) && AllValid(ws) && payload[..] == Receiving.Joined(ws) + [0]
  {
    hide Linked, Frame.Holds, Receiving.Joined, TotalLength, WireFrame.Payload;
    HeldAreValid(fs, ws);
    payload := new byte[total + 1];
    var offset := 0;
    var current: Frame? := first;
    ghost var k := 0;
    JoinedEnds(ws);
    while current != null
      invariant 0 <= k <= |fs| && current == if k == |fs| then null else fs[k]
      invariant offset == |Receiving.Joined(ws[..k])| && offset <= total
      invariant payload[..offset] == Receiving.Joined(ws[..k])
      decreases |fs| - k
    {
      PrefixLength(ws, k);
      ListAt(fs, ws, k);
      offset := current.UnmaskInto(payload, offset, ws[k]);
      ListAt(fs, ws, k);
      current := current.next;
      k := k + 1;
    }
    payload[offset] := 0;
  }

  lemma JoinedEnds(ws: seq<WireFrame>)
    requires AllValid(ws)
    ensures Receiving.Joined(ws[..0]) == [] && ws[..|ws|] == ws && |Receiving.Joined(ws)| == TotalLength(ws)
  {
    JoinedLength(ws);
  }

  lemma ListAt(fs: seq<Frame>, ws: seq<WireFrame>, k: nat)
    requires Linked(fs) && Hold(fs, ws) && k < |fs|
    ensures fs[k].Holds(ws[k]) && fs[k].next == if k == |fs| - 1 then null else fs[k + 1]
    ensures fs[k].prev == if k == 0 then null else fs[k - 1]
  {
    hide Frame.Holds;
  }

  /** Releases a block; nothing is released that is not allocated, and so nothing is released twice. */
  ghost function Free(live: set<object>, block: object): set<object>
    requires block in live
  {
    live - {block}
  }

  lemma BlocksHold(fs: seq<Frame>, i: nat)
    requires i < |fs|
    ensures fs[i] in Blocks(fs) && fs[i].rawdata in Blocks(fs)
  {
    assert fs[i] in fs;
  }

  lemma BlocksAdd(fs: seq<Frame>, f: Frame)
    ensures Blocks(fs + [f]) == Blocks(fs) + {f, f.rawdata}
    ensures f in Blocks(fs + [f]) && f.rawdata in Blocks(fs + [f])
  {
    assert forall g: Frame :: g in fs + [f] <==> g in fs || g == f;
    assert f in fs + [f];
  }

  /** One more frame of a list, its blocks apart from those before. */
  lemma BlocksMore(fs: seq<Frame>, k: nat)
    requires Linked(fs) && Apart(fs) && k < |fs|
    ensures Blocks(fs[..k + 1]) == Blocks(fs[..k]) + {fs[k], fs[k].rawdata}
    ensures fs[k] !in Blocks(fs[..k]) && fs[k].rawdata !in Blocks(fs[..k])
    ensures fs[k] in Blocks(fs) && fs[k].rawdata in Blocks(fs)
  {
    forall i | 0 <= i < k ensures fs[i] != fs[k] {
      Acyclic(fs, i, k);
    }
    assert fs[..k + 1] == fs[..k] + [fs[k]];
    BlocksAdd(fs[..k], fs[k]);
    assert fs[k] in fs;
  }

  /** Releases the frames from first on, each with its buffer, and each exactly once. */
  method CleanupFrames(first: Frame, ghost fs: seq<Frame>, ghost live: set<object>) returns (ghost left: set<object>)
    requires Linked(fs) && Apart(fs) && fs != [] && first == fs[0]
    requires Blocks(fs) <= live
    ensures left == live - Blocks(fs)
  {
    hide Blocks, Apart;
    left := live;
    var next: Frame? := first;
    ghost var k := 0;
    BlocksEnds(fs);
    while next != null
      invariant 0 <= k <= |fs| && next == if k == |fs| then null else fs[k]
      invariant left == live - Blocks(fs[..k])
      decreases |fs| - k
    {
      var released := next;
      assert k < |fs| - 1 ==> fs[k].next == fs[k + 1];
      next := released.next;
      BlocksMore(fs, k);
      left := Free(left, released.rawdata);
      left := Free(left, released);
      k := k + 1;
    }
  }

  lemma BlocksEnds(fs: seq<Frame>)
    ensures Blocks(fs[..0]) == {} && fs[..|fs|] == fs
  {
  }

  /** Walks back from any frame and releases the whole list. */
  method FreeAllFrames(current: Frame, ghost fs: seq<Frame>, ghost live: set<object>) returns (ghost left: set<object>)
    requires Linked(fs) && Apart(fs) && fs != [] && current == fs[|fs| - 1]
    requires Blocks(fs) <= live
    ensures left == live - Blocks(fs)
  {
    var first := current;
    ghost var k := |fs| - 1;
    while first.prev != null
      invariant 0 <= k < |fs| && first == fs[k]
      invariant k > 0 ==> first.prev == fs[k - 1]
      decreases k
    {
      first := first.prev;
      k := k - 1;
    }
    left := CleanupFrames(first, fs, live);
  }
}
