/** The bounded send buffer: tokens go in whole, the sender takes out as much as it likes. */
module SendBuf {
  import opened Bytes

  // ---- On values

  /**
   `start`: how much of the buffer has been sent; `pending` follows it. `sent`: all that the sender has accepted.
   `grants`: the regions handed out for tokens since the buffer was last empty, as (offset, size).
   */
  datatype State = State(start: nat, pending: seq<byte>, flushing: bool, sent: seq<byte>, grants: seq<(nat, nat)>) {
    /** The next position to use. */
    function Pos(): nat {
      start + |pending|
    }
  }

  const EMPTY := State(0, [], false, [], [])

  /** What a sender may answer when it is given what is pending: -1, or how many octets it took. */
  predicate AnswerOk(s: State, answer: int) {
    s.Pos() > 0 ==> -1 <= answer <= |s.pending|
  }

  function Taken(answer: int): nat {
    if answer < 0 then 0 else answer
  }

  function FlushStep(s: State, answer: int): State
    requires AnswerOk(s, answer)
  {
    if s.Pos() == 0 then s
    else if answer == |s.pending| then State(0, [], false, s.sent + s.pending, [])
    else
      var n := Taken(answer);
      s.(start := s.start + n, pending := s.pending[n..], flushing := true, sent := s.sent + s.pending[..n])
  }

  predicate FlushDone(s: State, answer: int) {
    s.Pos() == 0 || answer == |s.pending|
  }

  const INT_LIMIT := 0x8000_0000

  /** A sum of two ints, which wraps where it does not fit. */
  function Sum32(x: int, y: int): int32 {
    (x + y + INT_LIMIT) % 0x1_0000_0000 - INT_LIMIT
  }

  predicate MustFlush(size: nat, s: State, len: nat) {
    Sum32(s.Pos(), len) >= size
  }

  predicate PutOk(size: nat, s: State, len: nat, answer: int) {
    MustFlush(size, s, len) ==> AnswerOk(s, answer)
  }

  /** A token is refused only when the flush that it needs does not empty the buffer. */
  predicate PutAccepted(size: nat, s: State, len: nat, answer: int) {
    MustFlush(size, s, len) ==> FlushDone(s, answer)
  }

  function Put(s: State, token: seq<byte>, granted: bool): State {
    s.(pending := s.pending + token, grants := if granted then s.grants + [(s.Pos(), |token|)] else s.grants)
  }

  /** Where the token goes. */
  function Ready(size: nat, s: State, len: nat, answer: int): State
    requires PutOk(size, s, len, answer)
  {
    if MustFlush(size, s, len) then FlushStep(s, answer) else s
  }

  function PutStep(size: nat, s: State, token: seq<byte>, answer: int, granted: bool): State
    requires PutOk(size, s, |token|, answer)
  {
    var f := Ready(size, s, |token|, answer);
    if PutAccepted(size, s, |token|, answer) then Put(f, token, granted) else f
  }

  // ---- All runs

  /** Append copies a token in; GetToken hands out a region, filled before the next step; the timer flushes. */
  datatype Op = Append(token: seq<byte>, answer: int) | GetToken(token: seq<byte>, answer: int) | Flush(answer: int)

  predicate OpOk(size: nat, s: State, op: Op) {
    match op
    case Append(token, answer) => |token| <= size && PutOk(size, s, |token|, answer)
    case GetToken(token, answer) => |token| <= size && PutOk(size, s, |token|, answer)
    case Flush(answer) => AnswerOk(s, answer)
  }

  function Step(size: nat, s: State, op: Op): State
    requires OpOk(size, s, op)
  {
    match op
    case Append(token, answer) => PutStep(size, s, token, answer, false)
    case GetToken(token, answer) => PutStep(size, s, token, answer, true)
    case Flush(answer) => FlushStep(s, answer)
  }

  /** The octets a step accepts for sending. */
  function Accepts(size: nat, s: State, op: Op): seq<byte> {
    match op
    case Append(token, answer) => if PutAccepted(size, s, |token|, answer) then token else []
    case GetToken(token, answer) => if PutAccepted(size, s, |token|, answer) then token else []
    case Flush(_) => []
  }

  predicate RunOk(size: nat, ops: seq<Op>)
    decreases |ops|, 0
  {
    ops == [] ||
    var init := ops[..|ops| - 1];
    RunOk(size, init) && OpOk(size, Run(size, init), ops[|ops| - 1])
  }

  function Run(size: nat, ops: seq<Op>): State
    requires RunOk(size, ops)
    decreases |ops|, 1
  {
    if ops == [] then EMPTY else Step(size, Run(size, ops[..|ops| - 1]), ops[|ops| - 1])
  }

  /** The accepted tokens of a run, end to end. */
  function AcceptedTokens(size: nat, ops: seq<Op>): seq<byte>
    requires RunOk(size, ops)
  {
    if ops == [] then []
    else
      var init := ops[..|ops| - 1];
      AcceptedTokens(size, init) + Accepts(size, Run(size, init), ops[|ops| - 1])
  }

  /** The regions handed out follow each other, and end before the next position to use. */
  predicate GrantsApart(s: State) {
    && (forall i, j :: 0 <= i < j < |s.grants| ==> s.grants[i].0 + s.grants[i].1 <= s.grants[j].0)
    && (forall i :: 0 <= i < |s.grants| ==> s.grants[i].0 + s.grants[i].1 <= s.Pos())
  }

  predicate Inv(size: nat, s: State) {
    s.Pos() <= size && (s.pending == [] ==> s.start == 0) && GrantsApart(s)
  }

  lemma FlushKeeps(size: nat, s: State, answer: int)
    requires Inv(size, s) && AnswerOk(s, answer)
    ensures var f := FlushStep(s, answer);
            Inv(size, f) && f.sent + f.pending == s.sent + s.pending
            && (FlushDone(s, answer) ==> f.Pos() == 0)
  {
    var n := Taken(answer);
    if s.Pos() > 0 && answer != |s.pending| {
      assert s.pending == s.pending[..n] + s.pending[n..];
    }
  }

  lemma PosFits(size: nat, s: State)
    requires Inv(size, s)
    ensures s.Pos() <= size
  {
  }

  lemma PutKeeps(size: nat, s: State, token: seq<byte>, granted: bool)
    requires Inv(size, s) && s.Pos() + |token| <= size
    ensures Inv(size, Put(s, token, granted))
  {
    var p := Put(s, token, granted);
    assert granted ==> p.grants[|s.grants|] == (s.Pos(), |token|);
  }

  /** The sum that the code compares with the size fits its type. */
  predicate SumFits(s: State, op: Op) {
    op.Flush? || s.Pos() + |op.token| < INT_LIMIT
  }

  /** The code's comparison is right exactly where the sum fits. */
  lemma ComparisonIsExact(size: nat, pos: nat, len: nat)
    requires pos <= size < 0x8000_0000 && len <= size
    ensures (Sum32(pos, len) >= size <==> pos + len >= size) <==> pos + len < 0x8000_0000
    ensures pos + len >= 0x8000_0000 ==> Sum32(pos, len) < 0
  {
    if pos + len < INT_LIMIT {
      assert Sum32(pos, len) == pos + len;
    } else {
      assert Sum32(pos, len) == pos + len - 0x1_0000_0000;
    }
  }

  /** One step stays in the buffer exactly when its sum fits, and then accepts its token or nothing. */
  lemma StepKeeps(size: nat, s: State, op: Op)
    requires size < INT_LIMIT && Inv(size, s) && OpOk(size, s, op)
    ensures var t := Step(size, s, op);
            && (Inv(size, t) <==> SumFits(s, op))
            && t.sent + t.pending == s.sent + s.pending + Accepts(size, s, op)
  {
    hide Sum32, GrantsApart, FlushStep;
    if op.Flush? {
      FlushKeeps(size, s, op.answer);
      assert s.sent + s.pending + [] == s.sent + s.pending;
    } else {
      PutOrRefuse(size, s, op.token, op.answer, op.GetToken?);
    }
  }

  /** There is room for a token that is accepted. */
  lemma RoomFor(size: nat, s: State, len: nat, answer: int)
    requires size < INT_LIMIT && Inv(size, s) && len <= size && PutOk(size, s, len, answer)
    requires PutAccepted(size, s, len, answer) && s.Pos() + len < INT_LIMIT
    ensures Inv(size, Ready(size, s, len, answer)) && Ready(size, s, len, answer).Pos() + len <= size
  {
    hide Sum32, GrantsApart, FlushStep;
    ComparisonIsExact(size, s.Pos(), len);
    if MustFlush(size, s, len) {
      FlushKeeps(size, s, answer);
    }
  }

  /** A token that leaves room in the buffer is taken without asking the sender. */
  lemma NoFlushNeeded(size: nat, s: State, len: nat, answer: int)
    requires size < INT_LIMIT && s.Pos() + len < size
    ensures PutOk(size, s, len, answer) && PutAccepted(size, s, len, answer) && Ready(size, s, len, answer) == s
  {
    ComparisonIsExact(size, s.Pos(), len);
  }

  /** Any other is taken only if the sender takes everything that is pending, or nothing has been put in. */
  lemma FlushNeeded(size: nat, s: State, len: nat, answer: int)
    requires size < INT_LIMIT && len <= size && s.Pos() <= size <= s.Pos() + len < INT_LIMIT
    ensures PutAccepted(size, s, len, answer) <==> s.Pos() == 0 || answer == |s.pending|
    ensures PutOk(size, s, len, answer) <==> s.Pos() == 0 || -1 <= answer <= |s.pending|
    ensures PutOk(size, s, len, answer) && PutAccepted(size, s, len, answer) ==> Ready(size, s, len, answer).Pos() == 0
  {
    ComparisonIsExact(size, s.Pos(), len);
  }

  lemma PutOrRefuse(size: nat, s: State, token: seq<byte>, answer: int, granted: bool)
    requires size < INT_LIMIT && Inv(size, s) && |token| <= size && PutOk(size, s, |token|, answer)
    ensures var t := PutStep(size, s, token, answer, granted);
            && (Inv(size, t) <==> s.Pos() + |token| < INT_LIMIT)
            && t.sent + t.pending
               == s.sent + s.pending + if PutAccepted(size, s, |token|, answer) then token else []
  {
    hide Sum32, GrantsApart, FlushStep;
    var len := |token|;
    ComparisonIsExact(size, s.Pos(), len);
    if MustFlush(size, s, len) {
      FlushKeeps(size, s, answer);
    }
    var f := Ready(size, s, len, answer);
    if PutAccepted(size, s, len, answer) {
      if s.Pos() + len < INT_LIMIT {
        PutKeeps(size, f, token, granted);
      }
      assert f.sent + (f.pending + token) == f.sent + f.pending + token;
    } else {
      assert s.sent + s.pending + [] == s.sent + s.pending;
    }
  }

  /**
   Conservation: over every run, with any sender, what the sender has taken followed by what is pending is the
   accepted tokens in order; the positions stay within the buffer; and regions handed out do not overlap.
   */
  lemma {:induction false} RunConserves(size: nat, ops: seq<Op>)
    requires RunOk(size, ops) && 2 * size < 0x8000_0000
    ensures Inv(size, Run(size, ops))
    ensures Run(size, ops).sent + Run(size, ops).pending == AcceptedTokens(size, ops)
    decreases |ops|
  {
    if ops != [] {
      hide Step, OpOk, Accepts, GrantsApart;
      var init := ops[..|ops| - 1];
      RunConserves(size, init);
      SmallSum(size, Run(size, init), ops[|ops| - 1]);
      StepKeeps(size, Run(size, init), ops[|ops| - 1]);
    }
  }

  lemma SmallSum(size: nat, s: State, op: Op)
    requires 2 * size < INT_LIMIT && Inv(size, s) && OpOk(size, s, op)
    ensures SumFits(s, op)
  {
  }

  /** Every run stays in the buffer exactly when twice the size fits the type of the positions. */
  lemma SafeSizes(size: nat)
    requires size < 0x8000_0000
    ensures (forall ops :: RunOk(size, ops) ==> Inv(size, Run(size, ops))) <==> 2 * size < 0x8000_0000
  {
    hide Run, RunOk, Inv;
    if 2 * size < INT_LIMIT {
      forall ops | RunOk(size, ops) ensures Inv(size, Run(size, ops)) {
        RunConserves(size, ops);
      }
    } else {
      var ops := Overflow(size);
    }
  }

  /** Two tokens as large as a buffer that is too large: the second is put behind the first. */
  lemma Overflow(size: nat) returns (ops: seq<Op>)
    requires size < 0x8000_0000 <= 2 * size
    ensures RunOk(size, ops) && !Inv(size, Run(size, ops))
  {
    hide Sum32, GrantsApart;
    var op := Op.Append(Zeros(size), -1);
    ops := [op, op];
    assert ops[..1] == [op] && [op][..0] == [];
    ComparisonIsExact(size, 0, size);
    assert Run(size, [op]).Pos() == size;
    ComparisonIsExact(size, size, size);
    assert Run(size, ops).Pos() == 2 * size;
  }

  // ---- The code

  class Buffer {
    const buffer: array<byte>
    var bufferPos: int32
    var flushing: bool
    var flushingPos: int32
    /** What the sender has accepted, and the regions handed out since the buffer was last empty. */
    ghost var sent: seq<byte>
    ghost var grants: seq<(nat, nat)>

    constructor (bufferSize: nat)
      requires bufferSize < INT_LIMIT
      ensures Valid() && Abs() == EMPTY && buffer.Length == bufferSize
      ensures fresh(buffer)
    {
      buffer := new byte[bufferSize];
      bufferPos, flushing, flushingPos := 0, false, 0;
      sent, grants := [], [];
    }

    ghost predicate Valid()
      reads this, buffer
    {
      && 0 <= flushingPos <= bufferPos <= buffer.Length < INT_LIMIT
      && Inv(buffer.Length, State(flushingPos, buffer[flushingPos..bufferPos], flushing, sent, grants))
    }

    ghost function Abs(): State
      requires Valid()
      reads this, buffer
    {
      State(flushingPos, buffer[flushingPos..bufferPos], flushing, sent, grants)
    }

    /** Offers what is pending to the sender, whose answer is given. */
    method Flush(answer: int) returns (ret: int)
      requires Valid() && AnswerOk(Abs(), answer)
      modifies this
      ensures Valid() && Abs() == FlushStep(old(Abs()), answer)
      ensures ret == if FlushDone(old(Abs()), answer) then 0 else -1
      ensures ret == 0 <==> old(bufferPos) == 0 || answer == old(bufferPos - flushingPos)
      ensures ret == 0 ==> bufferPos == 0 && sent == old(sent) + old(buffer[flushingPos..bufferPos])
      ensures ret == -1 ==> bufferPos == old(bufferPos) && flushing && flushingPos == old(flushingPos) + Taken(answer)
    {
      hide Inv;
      FlushKeeps(buffer.Length, Abs(), answer);
      if bufferPos == 0 {
        return 0;
      }
      flushing := true;
      var tosend := bufferPos - flushingPos;
      ghost var pending := buffer[flushingPos..bufferPos];
      assert pending[..Taken(answer)] == buffer[flushingPos..flushingPos + Taken(answer)];
      assert pending[Taken(answer)..] == buffer[flushingPos + Taken(answer)..bufferPos];
      sent := sent + buffer[flushingPos..flushingPos + Taken(answer)];
      if answer == -1 {
        return -1;
      } else if answer < tosend {
        flushingPos := flushingPos + answer;
        return -1;
      }
      bufferPos := 0;
      flushing := false;
      flushingPos := 0;
      grants := [];
      return 0;
    }

    /** The timer. */
    method CbTimer(answer: int)
      requires Valid() && AnswerOk(Abs(), answer)
      modifies this
      ensures Valid() && Abs() == Step(buffer.Length, old(Abs()), Op.Flush(answer))
    {
      var _ := Flush(answer);
    }

    /** When the sender is asked, on positions. */
    lemma Asked(len: nat, answer: int)
      requires Valid() && len <= buffer.Length && bufferPos + len < INT_LIMIT
      ensures bufferPos + len < buffer.Length ==>
                PutOk(buffer.Length, Abs(), len, answer) && PutAccepted(buffer.Length, Abs(), len, answer)
                && Ready(buffer.Length, Abs(), len, answer) == Abs()
      ensures bufferPos + len >= buffer.Length ==>
                && (PutOk(buffer.Length, Abs(), len, answer)
                    <==> bufferPos == 0 || -1 <= answer <= bufferPos - flushingPos)
                && (PutAccepted(buffer.Length, Abs(), len, answer)
                    <==> bufferPos == 0 || answer == bufferPos - flushingPos)
    {
      hide Inv;
      if bufferPos + len < buffer.Length {
        NoFlushNeeded(buffer.Length, Abs(), len, answer);
      } else {
        FlushNeeded(buffer.Length, Abs(), len, answer);
      }
    }

    /** The test that both ways of putting a token in begin with: the buffer is flushed when the token needs it. */
    method MakeRoom(len: nat, answer: int) returns (ok: bool)
      requires Valid() && len <= buffer.Length && PutOk(buffer.Length, Abs(), len, answer)
      requires bufferPos + len < INT_LIMIT
      modifies this
      ensures Valid() && Abs() == Ready(buffer.Length, old(Abs()), len, answer)
      ensures ok == PutAccepted(buffer.Length, old(Abs()), len, answer)
      ensures ok ==> bufferPos + len <= buffer.Length
      ensures old(bufferPos) + len < buffer.Length ==>
                && ok && bufferPos == old(bufferPos) && sent == old(sent)
                && flushing == old(flushing) && flushingPos == old(flushingPos)
      ensures old(bufferPos) + len >= buffer.Length ==>
                (ok <==> old(bufferPos) == 0 || answer >= old(bufferPos - flushingPos))
    {
      hide Inv, Sum32, FlushStep;
      Asked(len, answer);
      if PutAccepted(buffer.Length, Abs(), len, answer) {
        RoomFor(buffer.Length, Abs(), len, answer);
      }
      if Sum32(bufferPos, len) >= buffer.Length {
        var flushed := Flush(answer);
        if flushed == -1 {
          return false;
        }
      }
      return true;
    }

    /** Copies a token into the buffer, or -1. */
    method Append(token: seq<byte>, answer: int) returns (ret: int)
      requires Valid() && OpOk(buffer.Length, Abs(), Op.Append(token, answer))
      requires SumFits(Abs(), Op.Append(token, answer))
      modifies this, buffer
      ensures Valid() && Abs() == Step(buffer.Length, old(Abs()), Op.Append(token, answer))
      ensures ret == if PutAccepted(buffer.Length, old(Abs()), |token|, answer) then |token| else -1
      ensures old(bufferPos) + |token| < buffer.Length ==>
                && ret == |token| && sent == old(sent) && flushing == old(flushing) && flushingPos == old(flushingPos)
                && bufferPos == old(bufferPos) + |token|
                && buffer[flushingPos..bufferPos] == old(buffer[flushingPos..bufferPos]) + token
      ensures old(bufferPos) + |token| >= buffer.Length && old(bufferPos) > 0 ==>
                (ret == -1 <==> answer < old(bufferPos - flushingPos))
    {
      hide Inv, AnswerOk, MustFlush, Ready;
      var ok := MakeRoom(|token|, answer);
      if !ok {
        return -1;
      }
      PutKeeps(buffer.Length, Abs(), token, false);
      ghost var pending := buffer[flushingPos..bufferPos];
      Memcpy(buffer, bufferPos, token);
      bufferPos := bufferPos + |token|;
      assert buffer[flushingPos..bufferPos] == pending + token;
      return |token|;
    }

    /** Hands out a region for a token, as its offset, or -1. What is pending is not touched. */
    method GetToken(size: nat, answer: int) returns (token: int)
      requires Valid() && size <= buffer.Length && PutOk(buffer.Length, Abs(), size, answer)
      requires bufferPos + size < INT_LIMIT
      modifies this
      ensures Valid()
      ensures var s := Ready(buffer.Length, old(Abs()), size, answer);
              if PutAccepted(buffer.Length, old(Abs()), size, answer)
              then 0 <= token && token + size == bufferPos && Abs() == Put(s, buffer[token..bufferPos], true)
              else token == -1 && Abs() == s
      ensures old(bufferPos) + size < buffer.Length ==>
                && token == old(bufferPos) && bufferPos == old(bufferPos) + size
                && sent == old(sent) && flushing == old(flushing) && flushingPos == old(flushingPos)
      ensures old(bufferPos) + size >= buffer.Length && old(bufferPos) > 0 ==>
                (token == -1 <==> answer < old(bufferPos - flushingPos))
    {
      hide Inv, AnswerOk, MustFlush, Ready;
      var ok := MakeRoom(size, answer);
      if !ok {
        return -1;
      }
      token := Grant(size);
    }

    /** The region behind everything that is pending. */
    method Grant(size: nat) returns (token: nat)
      requires Valid() && bufferPos + size <= buffer.Length
      modifies this`bufferPos, this`grants
      ensures token == old(bufferPos) && token + size == bufferPos <= buffer.Length
      ensures Valid() && Abs() == Put(old(Abs()), buffer[token..bufferPos], true)
    {
      hide Inv;
      ghost var f, region := Abs(), buffer[bufferPos..bufferPos + size];
      PutKeeps(buffer.Length, f, region, true);
      assert buffer[flushingPos..bufferPos + size] == f.pending + region;
      token := bufferPos;
      grants := grants + [(bufferPos as nat, size)];
      bufferPos := bufferPos + size;
    }

    /** A region handed out and filled by its owner before anything else happens. */
    method GetTokenAndFill(token: seq<byte>, answer: int) returns (off: int)
      requires Valid() && OpOk(buffer.Length, Abs(), Op.GetToken(token, answer))
      requires SumFits(Abs(), Op.GetToken(token, answer))
      modifies this, buffer
      ensures Valid() && Abs() == Step(buffer.Length, old(Abs()), Op.GetToken(token, answer))
    {
      hide Inv, AnswerOk, MustFlush, Ready, PutAccepted;
      ghost var f := Ready(buffer.Length, Abs(), |token|, answer);
      off := GetToken(|token|, answer);
      if off != -1 {
        Fill(f, off, token);
      }
    }

    /** The owner writes the token into its region. */
    method Fill(ghost f: State, off: nat, token: seq<byte>)
      requires Valid() && off + |token| == bufferPos <= buffer.Length && Abs() == Put(f, buffer[off..bufferPos], true)
      modifies buffer
      ensures Valid() && Abs() == Put(f, token, true)
    {
      hide Inv;
      assert buffer[flushingPos..bufferPos] == f.pending + buffer[off..bufferPos];
      Front(f.pending, buffer[off..bufferPos]);
      assert buffer[flushingPos..off] == buffer[flushingPos..bufferPos][..off - flushingPos];
      SameShape(buffer.Length, f, buffer[off..bufferPos], token);
      Memcpy(buffer, off, token);
      assert buffer[flushingPos..bufferPos] == f.pending + token;
    }
  }

  lemma SameShape(size: nat, s: State, a: seq<byte>, b: seq<byte>)
    requires Inv(size, Put(s, a, true)) && |a| == |b|
    ensures Inv(size, Put(s, b, true))
  {
    var p, q := Put(s, a, true), Put(s, b, true);
    assert p.grants == q.grants && p.Pos() == q.Pos();
  }
}
