/** A frame being received: the header state machine, the growing buffer and the list links. */
module Frames {
  import opened Bytes
  import opened Wire
  import R = Receiving

  const FRAME_CHUNK_LENGTH := 1024
  const MASK_LENGTH := 4

  /** The largest frame, header included, for which the code's 32-bit buffer sizes and indices do not wrap. */
  const MAX_FRAME := 0x8000_0000

  datatype FrameState = Start | GotTwo | GotShortLen | GotFullLen | LoadedMask

  /** The state after the octets p, at most one transition having been made for each of them. */
  function StateAfter(p: seq<byte>): FrameState {
    if |p| < 2 then Start
    else if |p| == 2 then GotTwo
    else if |p| == 3 then GotShortLen
    else if FormOf(p) == Long && |p| < 10 then GotShortLen
    else if |p| < FormOf(p).PayloadOffset() then GotFullLen
    else LoadedMask
  }

  predicate Fits(p: seq<byte>) {
    HeaderComplete(p) ==> FrameSize(p) <= MAX_FRAME
  }

  /**
   Unmasks len octets while moving them four octets to the left, over the key: what is written always lies before
   what is still to be read.
   */
  method UnmaskLeft(a: array<byte>, start: nat, len: nat, key: seq<byte>)
    requires |key| == MASK_LENGTH <= start && start + len <= a.Length
    modifies a
    ensures a[..start - MASK_LENGTH] == old(a[..start - MASK_LENGTH])
    ensures a[start - MASK_LENGTH..start - MASK_LENGTH + len] == Unmask(key, old(a[start..start + len]))
  {
    hide Xor;
    ghost var masked := a[start..start + len];
    for i := 0 to len
      invariant a[..start - MASK_LENGTH] == old(a[..start - MASK_LENGTH])
      invariant forall j :: 0 <= j < i ==> a[start - MASK_LENGTH + j] == Xor(masked[j], key[j % 4])
      invariant forall j :: i <= j < len ==> a[start + j] == masked[j]
    {
      a[start + i - MASK_LENGTH] := Xor(a[start + i], key[i % 4]);
    }
  }

  class Frame {
    var fin: uint32
    var opcode: uint32
    var maskOffset: uint32
    var payloadOffset: uint32
    var rawdataIdx: uint32
    var rawdataSz: uint32
    var payloadLenShort: uint32
    var payloadLen: uint64
    var rawdata: array<byte>
    var next: Frame?
    var prev: Frame?
    var mask: seq<byte>
    var state: FrameState

    /** A zeroed structure with a new buffer; only the first frame of a connection or message gets -1 as length. */
    constructor (length: uint64, predecessor: Frame?)
      ensures Buffered() && Raw() == [] && HeaderRead([])
      ensures Fields() == R.Fields(0, 0, 0, length, [0, 0, 0, 0])
      ensures next == null && prev == predecessor && fresh(rawdata)
    {
      fin, opcode, maskOffset, payloadOffset, rawdataIdx, payloadLenShort := 0, 0, 0, 0, 0, 0;
      payloadLen := length;
      rawdataSz := FRAME_CHUNK_LENGTH;
      rawdata := new byte[FRAME_CHUNK_LENGTH];
      next, prev := null, predecessor;
      mask := [0, 0, 0, 0];
      state := Start;
    }

    ghost predicate Buffered()
      reads `rawdata, `rawdataSz, `rawdataIdx, `mask, rawdata
    {
      rawdata.Length == rawdataSz && FRAME_CHUNK_LENGTH <= rawdataSz && rawdataIdx <= rawdataSz && |mask| == MASK_LENGTH
    }

    /** The octets since the frame began. */
    ghost function Raw(): (r: seq<byte>)
      requires rawdataIdx <= rawdata.Length
      ensures |r| == rawdataIdx
      reads `rawdata, `rawdataIdx, rawdata
    {
      rawdata[..rawdataIdx]
    }

    /** The header fields are what the octets p say, as far as p goes. */
    ghost predicate HeaderRead(p: seq<byte>)
      reads `state, `fin, `opcode, `payloadLenShort, `maskOffset, `payloadOffset, `payloadLen, `mask
    {
      && state == StateAfter(p)
      && (|p| >= 3 ==>
            && !HeaderRefused(p)
            && fin == (if p[0] >= 128 then 1 else 0) && opcode == p[0] % 16 && payloadLenShort == p[1] % 128)
      && (state == GotShortLen ==> maskOffset == 2)
      && (state in {GotFullLen, LoadedMask} ==>
            && payloadOffset == FormOf(p).PayloadOffset() && maskOffset == payloadOffset - MASK_LENGTH
            && LengthKnown(p) && payloadLen == DeclaredLength(p))
      && (state == LoadedMask ==> mask == p[maskOffset..payloadOffset])
    }

    /** The header has been refused. */
    ghost predicate Refused()
      requires rawdataIdx <= rawdata.Length
      reads `state, `rawdata, `rawdataIdx, rawdata
    {
      state == GotTwo && rawdataIdx >= 3 && HeaderRefused(Raw())
    }

    /** The fields that are looked at when a frame is taken for complete. */
    ghost function Fields(): R.Fields
      reads `fin, `opcode, `payloadOffset, `payloadLen, `mask
    {
      R.Fields(fin, opcode, payloadOffset, payloadLen, mask)
    }

    /** Stores one octet; a full buffer is doubled first. */
    method Append(b: byte)
      requires Buffered() && rawdataIdx < MAX_FRAME
      modifies this`rawdata, this`rawdataSz, this`rawdataIdx, rawdata
      ensures Buffered() && Raw() == old(Raw()) + [b]
      ensures rawdata == old(rawdata) || fresh(rawdata)
    {
      if rawdataIdx >= rawdataSz {
        var bigger := new byte[rawdataSz + rawdataSz];
        forall i | 0 <= i < rawdataSz {
          bigger[i] := rawdata[i];
        }
        rawdataSz := rawdataSz + rawdataSz;
        rawdata := bigger;
      }
      rawdata[rawdataIdx] := b;
      rawdataIdx := rawdataIdx + 1;
    }

    /** The first two octets are looked at when the third has arrived. */
    method ReadFirstOctets() returns (err: int)
      requires Buffered() && rawdataIdx >= 3 && state == GotTwo
      modifies this`fin, this`opcode, this`maskOffset, this`payloadLenShort, this`state
      ensures err == -1 <==> HeaderRefused(Raw())
      ensures err in {-1, 0}
      ensures err == -1 ==> Fields() == old(Fields()) && state == GotTwo
      ensures err == 0 && rawdataIdx == 3 ==> HeaderRead(Raw())
    {
      if (rawdata[0] / 16) % 8 != 0 {
        return -1;
      }
      if rawdata[1] < 128 {
        return -1;
      }
      maskOffset := 2;
      fin := if rawdata[0] >= 128 then 1 else 0;
      opcode := rawdata[0] % 16;
      payloadLenShort := rawdata[1] % 128;
      state := GotShortLen;
      return 0;
    }

    lemma RawSlice(i: nat, j: nat)
      requires Buffered() && i <= j <= rawdataIdx
      ensures rawdata[i..j] == Raw()[i..j]
    {
    }

    method ReadLength()
      requires Buffered() && rawdataIdx > 3 && HeaderRead(Raw()[..rawdataIdx - 1]) && state == GotShortLen
      modifies this`maskOffset, this`payloadOffset, this`payloadLen, this`state
      ensures HeaderRead(Raw()) && state != LoadedMask
    {
      hide FromBigEndian, HeaderRefused;
      ghost var p := Raw();
      HeaderStable(p[..rawdataIdx - 1], p);
      if LengthKnown(p) {
        DeclaredLengthBound(p);
      }
      if payloadLenShort == 126 {
        if rawdataIdx < 4 {
          return;
        }
        maskOffset := maskOffset + 2;
        payloadOffset := maskOffset + MASK_LENGTH;
        RawSlice(2, 4);
        payloadLen := FromBigEndian(rawdata[2..4]);
      } else if payloadLenShort == 127 {
        if rawdataIdx < 10 {
          return;
        }
        maskOffset := maskOffset + 8;
        payloadOffset := maskOffset + MASK_LENGTH;
        RawSlice(2, 10);
        payloadLen := FromBigEndian(rawdata[2..10]);
      } else {
        payloadLen := payloadLenShort;
        payloadOffset := maskOffset + MASK_LENGTH;
      }
      state := GotFullLen;
    }

    method LoadMask() returns (err: int)
      requires Buffered() && rawdataIdx > 3 && HeaderRead(Raw()[..rawdataIdx - 1]) && state == GotFullLen
      modifies this`mask, this`state
      ensures HeaderRead(Raw()) && |mask| == MASK_LENGTH
      ensures err == if state == LoadedMask then 1 else 0
    {
      hide FromBigEndian, HeaderRefused, DeclaredLength;
      ghost var p := Raw();
      HeaderStable(p[..rawdataIdx - 1], p);
      if rawdataIdx < maskOffset + MASK_LENGTH {
        return 0;
      }
      for i := 0 to MASK_LENGTH
        invariant |mask| == MASK_LENGTH && mask[..i] == rawdata[maskOffset..maskOffset + i]
      {
        mask := mask[i := rawdata[maskOffset + i]];
      }
      RawSlice(maskOffset, payloadOffset);
      assert mask == mask[..4];
      state := LoadedMask;
      return 1;
    }

    /**
     One look at the header, after one more octet: -1 refuses it, 1 says that it is complete. The header is complete
     at the octet before the payload, with every field as section 5.2 of RFC 6455 reads it.
     */
    method ReadHeader() returns (err: int)
      requires Buffered() && rawdataIdx > 0
      requires HeaderRead(Raw()[..rawdataIdx - 1]) || (rawdataIdx > 3 && Refused())
      requires state != LoadedMask
      modifies this`fin, this`opcode, this`maskOffset, this`payloadOffset, this`payloadLenShort, this`payloadLen,
        this`mask, this`state
      ensures Buffered()
      ensures err == -1 <==> Refused()
      ensures err == -1 ==> state == old(state)
      ensures err == -1 || rawdataIdx <= 2 ==> Fields() == old(Fields())
      ensures err == 1 <==> err != -1 && state == LoadedMask
      ensures err in {-1, 0, 1}
      ensures err != -1 ==> HeaderRead(Raw())
    {
      match state {
        case Start =>
          if rawdataIdx < 2 {
            return 0;
          }
          state := GotTwo;
        case GotTwo =>
          err := ReadFirstOctets();
          return err;
        case GotShortLen =>
          ReadLength();
        case GotFullLen =>
          err := LoadMask();
          return err;
      }
      return 0;
    }

    /** Stores one octet and, unless the header has been read before, looks at it; 2 says that it had been read. */
    method TakeOctet(b: byte) returns (err: int)
      requires Buffered() && (HeaderRead(Raw()) || Refused()) && rawdataIdx < MAX_FRAME
      modifies this`fin, this`opcode, this`maskOffset, this`payloadOffset, this`payloadLenShort, this`payloadLen,
        this`mask, this`state, this`rawdata, this`rawdataSz, this`rawdataIdx, rawdata
      ensures Buffered() && Raw() == old(Raw()) + [b]
      ensures rawdata == old(rawdata) || fresh(rawdata)
      ensures err == -1 <==> Refused()
      ensures err == -1 <==> old(Refused()) || (|Raw()| == 3 && HeaderRefused(Raw()))
      ensures err == -1 || |Raw()| <= 2 ==> Fields() == old(Fields())
      ensures err != -1 ==> HeaderRead(Raw())
      ensures err == 0 <==> err != -1 && !HeaderComplete(Raw())
    {
      hide HeaderRead, HeaderComplete, HeaderRefused, StateAfter, Raw;
      ghost var p := Raw();
      NotBoth(p);
      SameStart(p, b);
      Append(b);
      if state != LoadedMask {
        err := LookAtHeader(p, b);
        return err;
      }
      HeaderStaysRead(p, b);
      return 2;
    }

    /** One look at a header that has not been read, after the octet b. */
    method LookAtHeader(ghost p: seq<byte>, ghost b: byte) returns (err: int)
      requires Buffered() && Raw() == p + [b] && state != LoadedMask
      requires HeaderRead(p) || (state == GotTwo && |p| >= 3 && HeaderRefused(p))
      requires state == GotTwo ==> |p| >= 2
      modifies this`fin, this`opcode, this`maskOffset, this`payloadOffset, this`payloadLenShort, this`payloadLen,
        this`mask, this`state
      ensures Buffered()
      ensures err == -1 <==> Refused()
      ensures err == -1 <==> old(state) == GotTwo && HeaderRefused(p + [b])
      ensures err == -1 || |Raw()| <= 2 ==> Fields() == old(Fields())
      ensures err != -1 ==> HeaderRead(Raw())
      ensures err == 0 <==> err != -1 && !HeaderComplete(Raw())
    {
      hide HeaderRead, HeaderComplete, HeaderRefused, StateAfter, Raw;
      Front(p, [b]);
      SameStart(p, b);
      FirstLook(p);
      err := ReadHeader();
      NotBoth(Raw());
      if err != -1 {
        StateTells(Raw());
      }
    }

    /** A header that has been read was not refused. */
    lemma NotBoth(p: seq<byte>)
      requires rawdataIdx <= rawdata.Length && p == Raw()
      ensures HeaderRead(p) ==> !Refused()
      ensures HeaderRead(p) || Refused() ==> (state == LoadedMask ==> HeaderRead(p) && |p| > 3)
      ensures HeaderRead(p) ==> (state == GotTwo <==> |p| == 2)
    {
    }

    lemma FirstLook(p: seq<byte>)
      ensures HeaderRead(p) && state == GotTwo ==> |p| == 2
    {
    }

    lemma StateTells(p: seq<byte>)
      requires HeaderRead(p)
      ensures state == LoadedMask <==> HeaderComplete(p)
    {
    }

    lemma NothingRead()
      requires state == Start
      ensures HeaderRead([])
    {
    }

    lemma HeaderStaysRead(p: seq<byte>, b: byte)
      requires HeaderRead(p) && state == LoadedMask
      ensures HeaderRead(p + [b]) && HeaderComplete(p + [b])
      ensures |p + [b]| > 3
    {
      HeaderStable(p, p + [b]);
    }

    /** This frame is complete, and it is w. */
    ghost predicate Holds(w: WireFrame)
      reads `rawdata, `rawdataSz, `rawdataIdx, `mask, `fin, `opcode, `payloadOffset, `payloadLen, rawdata
    {
      && Buffered() && w.Valid()
      && fin == (if w.fin then 1 else 0) && opcode == w.opcode
      && payloadOffset == w.form.PayloadOffset() && payloadLen == |w.data| && mask == w.key
      && rawdataIdx == payloadOffset + payloadLen
      && rawdata[..payloadOffset - MASK_LENGTH] == Header(w.fin, w.opcode, true, w.form, |w.data|)
      && rawdata[payloadOffset..rawdataIdx] == w.data
    }

    lemma CompleteHolds()
      requires Buffered() && HeaderRead(Raw()) && FrameComplete(Raw()) && |Raw()| == FrameSize(Raw())
      ensures Holds(Parse(Raw()))
    {
      var p := Raw();
      SerializeParse(p);
      var w := Parse(p);
      var e := w.form.Extended();
      var h := Header(w.fin, w.opcode, true, w.form, |w.data|);
      hide Header, HeaderRefused, DeclaredLength;
      assert Serialize(w)[..2 + e] == h;
      assert rawdata[..2 + e] == p[..2 + e];
      assert p[payloadOffset..] == rawdata[payloadOffset..rawdataIdx];
    }

    /**
     Writes the unmasked payload to dst from offset on. The key starts anew with every frame.
     */
    method UnmaskInto(dst: array<byte>, offset: nat, ghost w: WireFrame) returns (end: nat)
      requires Holds(w) && dst != rawdata && offset + |w.data| <= dst.Length
      modifies dst
      ensures end == offset + |w.data|
      ensures dst[..end] == old(dst[..offset]) + w.Payload()
    {
      hide Xor, Header;
      end := offset;
      ghost var before := dst[..offset];
      for i := 0 to payloadLen
        invariant end == offset + i
        invariant dst[..offset] == before
        invariant dst[offset..end] == w.Payload()[..i]
      {
        assert rawdata[payloadOffset + i] == w.data[i];
        dst[end] := Xor(rawdata[payloadOffset + i], mask[i % 4]);
        assert dst[offset..end + 1] == dst[offset..end] + [dst[end]];
        end := end + 1;
      }
      assert dst[..end] == dst[..offset] + dst[offset..end];
    }

    /** Makes a server's frame of a client's, in place: no mask bit, no key, the payload unmasked. */
    method Servify(ghost w: WireFrame)
      requires Holds(w)
      modifies rawdata, this`payloadOffset
      ensures Buffered()
      ensures payloadOffset == old(payloadOffset) - MASK_LENGTH && payloadOffset + payloadLen <= rawdata.Length
      ensures rawdata[..payloadOffset + payloadLen] == ServerFrame(w.fin, w.opcode, w.form, w.Payload())
    {
      hide Unmask, Xor, Header;
      ghost var h := rawdata[..payloadOffset - MASK_LENGTH];
      ghost var payload := w.Payload();
      UnmaskLeft(rawdata, payloadOffset, payloadLen, mask);
      payloadOffset := payloadOffset - MASK_LENGTH;
      ghost var s, end := rawdata[..], payloadOffset + payloadLen;
      assert s[..payloadOffset] == h && s[payloadOffset..end] == payload;
      rawdata[1] := rawdata[1] % 128;
      assert rawdata[..] == s[1 := h[1] % 128];
      ChangeBefore(s, 1, h[1] % 128, payloadOffset, end);
      TwoParts(rawdata[..], payloadOffset, end);
      ClearMaskBit(w.fin, w.opcode, w.form, |w.data|);
      assert rawdata[..end] == rawdata[..][..end];
    }

    /** Unmasks in place what lies where the payload would be. */
    method ShiftPayload(ghost p: seq<byte>)
      requires Buffered() && Raw() == p && payloadOffset + payloadLen <= |p|
      requires payloadLen > 0 ==> payloadOffset >= MASK_LENGTH
      modifies rawdata
      ensures payloadOffset >= MASK_LENGTH ==>
                var off, len := payloadOffset, payloadLen;
                rawdata[..off - MASK_LENGTH + len] == p[..off - MASK_LENGTH] + Unmask(mask, p[off..off + len])
    {
      hide Unmask, Xor;
      var off, len := payloadOffset, payloadLen;
      RawSlice(off, off + len);
      if len > 0 {
        ghost var to := off - MASK_LENGTH;
        assert rawdata[..to] == p[..to];
        UnmaskLeft(rawdata, off, len, mask);
        ghost var s := rawdata[..];
        assert s[..to] == rawdata[..to] && s[to..to + len] == rawdata[to..to + len];
        TwoParts(s, to, to + len);
        assert rawdata[..to + len] == s[..to + len];
      } else if off >= MASK_LENGTH {
        assert rawdata[..off - MASK_LENGTH] == p[..off - MASK_LENGTH] + [];
      }
    }

    /** Makes a server's frame of p, which is in the buffer, by the fields that the control frame f has left over. */
    method ServifyAgain(ghost f: WireFrame, ghost p: seq<byte>)
      requires Buffered() && Raw() == p && |p| >= 3
      requires f.Valid() && f.IsControl() && Fields() == R.LeftBy(Some(f))
      requires |p| >= 2 + f.form.Extended() + |f.data| && (f.form == Short ==> f.data == [])
      modifies rawdata, this`payloadOffset
      ensures Buffered()
      ensures f.form != Short ==>
                var k := f.form.Extended() - 2 + |f.data|;
                payloadOffset + payloadLen == k <= rawdata.Length && rawdata[..k] == R.ServedAgain(f, p)
    {
      hide Unmask, Header, R.ServedAgain;
      ShiftPayload(p);
      payloadOffset := (payloadOffset - MASK_LENGTH) % 0x1_0000_0000;
      ghost var s := rawdata[..];
      rawdata[1] := rawdata[1] % 128;
      if f.form != Short {
        ghost var k := payloadOffset + payloadLen;
        assert rawdata[..] == s[1 := s[1] % 128];
        assert rawdata[..k] == rawdata[..][..k];
        WithoutMaskBit(f, p, s, k);
      }
    }

    /** Replaces the status code of a Close frame. */
    method ReplaceCode(code: nat, ghost w: WireFrame, ghost payload: seq<byte>)
      requires code < 0x1_0000 && w.opcode < 16 && 2 <= |payload| && w.form.Admits(|payload|)
      requires payloadOffset == 2 + w.form.Extended() && payloadOffset + |payload| <= rawdata.Length
      requires rawdata[..payloadOffset + |payload|] == ServerFrame(w.fin, w.opcode, w.form, payload)
      modifies rawdata
      ensures rawdata[..payloadOffset + |payload|]
           == ServerFrame(w.fin, w.opcode, w.form, BigEndian(code, 2) + payload[2..])
    {
      hide Header, BigEndian, ServerFrame;
      ghost var end := payloadOffset + |payload|;
      ghost var s := rawdata[..end];
      assert s[..payloadOffset] == rawdata[..payloadOffset];
      TwoOctets(code);
      CodeReplaced(s, w, payload, code / 256, code % 256);
      ghost var front, rest := rawdata[..payloadOffset], rawdata[payloadOffset + 2..];
      Middle(rawdata[..], payloadOffset + 2, end);
      Memcpy(rawdata, payloadOffset, BigEndian(code, 2));
      PrefixOfThree(front, BigEndian(code, 2), rest, |payload| - 2);
      assert rawdata[..end] == rawdata[..][..end];
    }
  }

  lemma CodeReplaced(s: seq<byte>, w: WireFrame, payload: seq<byte>, high: byte, low: byte)
    requires w.opcode < 16 && 2 <= |payload| && w.form.Admits(|payload|)
    requires s == ServerFrame(w.fin, w.opcode, w.form, payload)
    ensures var off := 2 + w.form.Extended();
            s[..off] + [high, low] + s[off + 2..] == ServerFrame(w.fin, w.opcode, w.form, [high, low] + payload[2..])
  {
    hide Header;
  }

  lemma WithoutMaskBit(f: WireFrame, p: seq<byte>, s: seq<byte>, k: nat)
    requires f.Valid() && f.form != Short && |p| >= 2 + f.form.Extended() + |f.data| && |s| >= 2
    requires k == f.form.Extended() - 2 + |f.data| <= |s|
    requires var off := 2 + f.form.Extended(); s[..k] == p[..off - 4] + Unmask(f.key, p[off..off + |f.data|])
    ensures s[1 := s[1] % 128][..k] == R.ServedAgain(f, p)
  {
    hide Unmask;
    ChangeInPrefix(s, 1, s[1] % 128, k);
  }

  lemma SameStart(p: seq<byte>, b: byte)
    ensures |p| >= 2 ==> HeaderRefused(p + [b]) == HeaderRefused(p)
  {
  }

  lemma TwoOctets(code: nat)
    requires code < 0x1_0000
    ensures BigEndian(code, 2) == [code / 256, code % 256]
  {
    assert BigEndian(code / 256, 1) == BigEndian(0, 0) + [code / 256];
  }

  /** The header of a frame is recognised at the octet before its payload, never before and never after. */
  lemma HeaderTiming(f: WireFrame, k: nat)
    requires f.Valid() && k <= |Serialize(f)|
    ensures StateAfter(Serialize(f)[..k]) == LoadedMask <==> k >= f.form.PayloadOffset()
  {
    if k >= 2 {
      HeaderReadsBack(f, Serialize(f)[..k]);
    }
  }

  /** One octet makes at most one transition, and never a backward one. */
  lemma OneTransition(p: seq<byte>, b: byte)
    ensures StateAfter(p + [b]) == StateAfter(p) || Rank(StateAfter(p + [b])) == Rank(StateAfter(p)) + 1
  {
    if |p| >= 2 {
      HeaderStable(p, p + [b]);
    }
  }

  function Rank(s: FrameState): nat {
    match s case Start => 0 case GotTwo => 1 case GotShortLen => 2 case GotFullLen => 3 case LoadedMask => 4
  }
}
