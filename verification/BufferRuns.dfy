/** What holds after every sequence of calls on the buffers. */
module BufferRuns {
  import opened Bits
  import opened PoolSpec
  import opened BufferSpec

  /** The state after the calls, made in order from an empty program. */
  function After(ops: seq<Op>): (s: State)
    ensures Sound(s)
  {
    if ops == [] then
      Start()
    else
      ApplyIsSound(After(ops[..|ops| - 1]), ops[|ops| - 1]);
      Apply(After(ops[..|ops| - 1]), ops[|ops| - 1])
  }

  lemma AfterOneMore(ops: seq<Op>, op: Op)
    ensures After(ops + [op]) == Apply(After(ops), op)
  {
    assert (ops + [op])[..|ops|] == ops;
  }

  /** The accounts balance after every sequence: what is left is free, and the total is that and what the buffers hold. */
  lemma AccountsHold(ops: seq<Op>)
    ensures var s := After(ops);
      && s.acc.left == FreeKb(s.acc.free) && s.acc.total == s.acc.left + HeldKb(s.bufs)
      && Opening().total <= s.acc.total < LIMIT_KB
  {
    TotalGrows(ops);
  }

  lemma {:induction false} TotalGrows(ops: seq<Op>)
    ensures Opening().total <= After(ops).acc.total
  {
    hide Sound, FreeKb;
    if ops != [] {
      TotalGrows(ops[..|ops| - 1]);
      ApplyGrows(After(ops[..|ops| - 1]), ops[|ops| - 1]);
    }
  }

  lemma ApplyGrows(s: State, op: Op)
    requires Sound(s)
    ensures s.acc.total <= Apply(s, op).acc.total
  {
    hide FreeKb, Sound;
  }

  // ---------------------------------------------------------------- first in, first out

  function Bytes(s: State, b: nat): seq<byte> { if b < |s.bufs| then s.bufs[b].bytes else [] }

  /** The bytes a call puts into the buffer: those of a write or read for which the process goes on and which fit 4 MB. */
  function Entered(s: State, op: Op, b: nat): seq<byte>
    requires Sound(s)
  {
    if !s.end.Going? || !Usable(s, op) || !Apply(s, op).end.Going? then []
    else match op
      case Write(c, bytes) => if c == b && |Bytes(s, b)| + |bytes| <= MEM_UP then bytes else []
      case Read(c, need, got) => if c == b && |Bytes(s, b)| + need <= MEM_UP then got else []
      case _ => []
  }

  /** The bytes a call takes out of the buffer. */
  function Left(s: State, op: Op, b: nat): seq<byte>
    requires Sound(s)
  {
    if !s.end.Going? || !Usable(s, op) || !Apply(s, op).end.Going? then []
    else match op
      case Pop(c, len) => if c == b then Bytes(s, b)[..len] else []
      case Flush(c, written) => if c == b then Bytes(s, b)[..written] else []
      case Clear(c) => if c == b then Bytes(s, b) else []
      case Destroy(c) => if c == b then Bytes(s, b) else []
      case _ => []
  }

  function AllEntered(ops: seq<Op>, b: nat): seq<byte> {
    if ops == [] then [] else AllEntered(ops[..|ops| - 1], b) + Entered(After(ops[..|ops| - 1]), ops[|ops| - 1], b)
  }

  function AllLeft(ops: seq<Op>, b: nat): seq<byte> {
    if ops == [] then [] else AllLeft(ops[..|ops| - 1], b) + Left(After(ops[..|ops| - 1]), ops[|ops| - 1], b)
  }

  lemma BufIsOk(s: State, b: nat)
    requires Sound(s)
    ensures b < |s.bufs| ==> BufOk(s.bufs[b])
  {}

  lemma StepIsQueue(s: State, op: Op, b: nat)
    requires Sound(s)
    ensures Bytes(s, b) + Entered(s, op, b) == Left(s, op, b) + Bytes(Apply(s, op), b)
  {
    hide Sound;
    if s.end.Going? && Usable(s, op) && !op.New? && op.b == b {
      hide Entered, Left, OnBuffer, Apply;
      OwnStepIsQueue(s, op);
    } else {
      OtherStepIsQueue(s, op, b);
    }
  }

  lemma OtherStepIsQueue(s: State, op: Op, b: nat)
    requires Sound(s) && (s.end.Going? && Usable(s, op) && !op.New? ==> op.b != b)
    ensures Entered(s, op, b) == Left(s, op, b) == [] && Bytes(Apply(s, op), b) == Bytes(s, b)
    ensures Bytes(s, b) + [] == Bytes(s, b) == [] + Bytes(s, b)
  {
    hide Sound, OnBuffer;
  }

  lemma OwnStepIsQueue(s: State, op: Op)
    requires Sound(s) && s.end.Going? && Usable(s, op) && !op.New?
    ensures Bytes(s, op.b) + Entered(s, op, op.b) == Left(s, op, op.b) + Bytes(Apply(s, op), op.b)
  {
    hide FreeKb, HeldKb, Sizes, Room, Alloc, GiveBack, Sound;
    BufIsOk(s, op.b);
    match op {
      case Write(c, bytes) => RoomIsLocal(s, c, |bytes|);
      case Read(c, need, _) => RoomIsLocal(s, c, need);
      case _ =>
    }
  }

  lemma RoomIsLocal(s: State, c: nat, n: nat)
    requires Sound(s) && Alive(s, c)
    ensures LocalOk(At(s, c))
    ensures var l := At(s, c); var (l', ok) := Room(l, n);
      && l'.buf.bytes == l.buf.bytes && (l.buf.head == 0 ==> l'.buf.head == 0)
      && (ok ==> l'.end == l.end) && (!ok ==> l' == l || l' == l.(end := AtLimit))
      && (l.end.Going? && l'.end.Going? ==> (ok <==> |l.buf.bytes| + n <= MEM_UP))
  {
    hide FreeKb, HeldKb, Room;
    RoomKeeps(At(s, c), n);
  }

  /** What came out of a buffer and what is in it is what went in, in that order. */
  lemma {:induction false} FirstInFirstOut(ops: seq<Op>, b: nat)
    ensures AllLeft(ops, b) + Bytes(After(ops), b) == AllEntered(ops, b)
    decreases |ops|
  {
    hide Apply, Entered, Left, Sound, Bytes;
    if ops != [] {
      var front, op := ops[..|ops| - 1], ops[|ops| - 1];
      var s := After(front);
      FirstInFirstOut(front, b);
      StepIsQueue(s, op, b);
      Regroup(AllLeft(front, b), Left(s, op, b), Bytes(After(ops), b), Bytes(s, b), Entered(s, op, b));
    } else {
      NothingIn(b);
    }
  }

  lemma NothingIn(b: nat)
    ensures Bytes(Start(), b) == []
  {}

  lemma Regroup(out: seq<byte>, more: seq<byte>, now: seq<byte>, before: seq<byte>, entered: seq<byte>)
    requires before + entered == more + now
    ensures (out + more) + now == (out + before) + entered
  {
    assert (out + more) + now == out + (more + now);
    assert (out + before) + entered == out + (before + entered);
  }

  // ---------------------------------------------------------------- the assertion of a write

  function Head(s: State, b: nat): nat { if b < |s.bufs| then s.bufs[b].head else 0 }

  /** The call takes some of the bytes, but not all. */
  predicate PopsPart(s: State, op: Op, b: nat) { op.Pop? && op.b == b && 0 < op.len < |Bytes(s, b)| }

  predicate Adjusts(s: State, op: Op, b: nat) { op == Adjust(b) && Usable(s, op) }

  /** Call `k` popped a part of the buffer, which since then was neither empty nor adjusted. */
  ghost predicate PopsPartAt(ops: seq<Op>, b: nat, k: nat) {
    && k < |ops| && PopsPart(After(ops[..k]), ops[k], b)
    && (forall j :: k < j <= |ops| ==> Bytes(After(ops[..j]), b) != [])
    && (forall j :: k < j < |ops| ==> !Adjusts(After(ops[..j]), ops[j], b))
  }

  ghost predicate PartlyPopped(ops: seq<Op>, b: nat) {
    exists k: nat :: PopsPartAt(ops, b, k)
  }

  lemma PartlyPoppedStep(ops: seq<Op>, op: Op, b: nat)
    ensures PartlyPopped(ops + [op], b) <==>
      && Bytes(After(ops + [op]), b) != []
      && (PopsPart(After(ops), op, b) || (PartlyPopped(ops, b) && !Adjusts(After(ops), op, b)))
  {
    hide Bytes, PopsPart, Adjusts, After;
    var more := ops + [op];
    assert more[..|more|] == more && more[..|ops|] == ops;
    assert forall j :: 0 <= j <= |ops| ==> more[..j] == ops[..j];
    assert ops[..|ops|] == ops;
    if PartlyPopped(more, b) {
      var k: nat :| PopsPartAt(more, b, k);
      if k < |ops| { assert PopsPartAt(ops, b, k); }
    }
    if Bytes(After(more), b) != [] {
      if PopsPart(After(ops), op, b) {
        assert PopsPartAt(more, b, |ops|);
      } else if PartlyPopped(ops, b) && !Adjusts(After(ops), op, b) {
        var k: nat :| PopsPartAt(ops, b, k);
        assert PopsPartAt(more, b, k);
      }
    }
  }

  lemma HeadStep(s: State, op: Op, b: nat)
    requires Sound(s) && s.end.Going? && Apply(s, op).end.Going? && (Head(s, b) > 0 ==> Bytes(s, b) != [])
    ensures var s' := Apply(s, op);
      Head(s', b) > 0 <==> Bytes(s', b) != [] && (PopsPart(s, op, b) || (Head(s, b) > 0 && !Adjusts(s, op, b)))
  {
    hide FreeKb, HeldKb, Sizes, Room, Alloc, GiveBack, Sound;
    BufIsOk(s, b);
    if Usable(s, op) {
      match op {
        case Write(c, bytes) => RoomIsLocal(s, c, |bytes|);
        case Read(c, need, _) => RoomIsLocal(s, c, need);
        case _ =>
      }
    }
  }

  lemma {:induction false} HeadIff(ops: seq<Op>, b: nat)
    requires After(ops).end.Going?
    ensures Head(After(ops), b) > 0 <==> PartlyPopped(ops, b)
    ensures Head(After(ops), b) > 0 ==> Bytes(After(ops), b) != []
    decreases |ops|
  {
    hide Apply, Sound, PopsPart, Adjusts, Head, Bytes;
    if ops != [] {
      var front, op := ops[..|ops| - 1], ops[|ops| - 1];
      assert front + [op] == ops;
      EndsStay(After(front), op);
      HeadIff(front, b);
      HeadStep(After(front), op, b);
      PartlyPoppedStep(front, op, b);
    } else {
      NoHead(b);
    }
  }

  lemma NoHead(b: nat)
    ensures Head(Start(), b) == 0
  {}

  lemma EndsStay(s: State, op: Op)
    requires Sound(s) && Apply(s, op).end.Going?
    ensures s.end.Going?
  {
    hide Sound;
  }

  /**
   The assertion in `write_to_buf` fails exactly when an earlier pop took some but not all of the
   bytes, and the buffer has not been empty since.
   */
  lemma WriteAssertionIff(ops: seq<Op>, b: nat, bytes: seq<byte>)
    requires After(ops).end.Going? && Usable(After(ops), Write(b, bytes))
    ensures Apply(After(ops), Write(b, bytes)).end.AssertFailed? <==> PartlyPopped(ops, b)
  {
    hide PartlyPopped;
    HeadIff(ops, b);
    hide Room;
  }

  /** Call `i` of the sequence is a write that is made. */
  predicate WritesAt(ops: seq<Op>, i: nat) {
    i < |ops| && ops[i].Write? && After(ops[..i]).end.Going? && Usable(After(ops[..i]), ops[i])
  }

  /** The assertion holds at every write of a sequence exactly when none comes while a buffer is partly popped. */
  lemma WritesAssertIff(ops: seq<Op>)
    ensures (forall i: nat :: WritesAt(ops, i) ==> !After(ops[..i + 1]).end.AssertFailed?)
       <==> (forall i: nat :: WritesAt(ops, i) ==> !PartlyPopped(ops[..i], ops[i].b))
  {
    hide PartlyPopped, Apply, Sound, Usable, After;
    forall i: nat | WritesAt(ops, i)
      ensures After(ops[..i + 1]).end.AssertFailed? <==> PartlyPopped(ops[..i], ops[i].b)
    {
      assert ops[..i + 1] == ops[..i] + [ops[i]];
      AfterOneMore(ops[..i], ops[i]);
      WriteAssertionIff(ops[..i], ops[i].b, ops[i].bytes);
    }
  }

  /** Write two bytes, pop one, write again: the assertion fails. */
  lemma WriteAfterPartialPopFails(x: byte, y: byte, z: byte)
    ensures After([New(Output), Write(0, [x, y]), Pop(0, 1), Write(0, [z])]).end.AssertFailed?
  {
    hide Apply, After, Sound;
    var o1, o2, o3, o4 := New(Output), Write(0, [x, y]), Pop(0, 1), Write(0, [z]);
    AfterOneMore([], o1);
    AfterOneMore([o1], o2);
    AfterOneMore([o1, o2], o3);
    AfterOneMore([o1, o2, o3], o4);
    assert [o1] + [o2] == [o1, o2] && [o1, o2] + [o3] == [o1, o2, o3] && [o1, o2, o3] + [o4] == [o1, o2, o3, o4];
    assert [] + [o1] == [o1];
    FirstStep();
    ApplyIsSound(Start(), New(Output));
    SecondStep(Created(), [x, y]);
    WriteAfterPop(x, y, z);
  }

  function Witness(buf: Buf): State {
    State(Opening().(free := Opening().free[0x1000 := 3], left := Opening().left - 4), [buf], Going)
  }

  function Created(): State { State(Opening(), [Buf(Output, true, 0, 0, [])], Going) }

  lemma FirstStep()
    ensures After([]) == Start() && Sound(Start()) && Apply(Start(), New(Output)) == Created()
  {
    hide Sound, DoWrite, LocalOk, Alloc;
    assert After([]) == Start();
    assert [] + Created().bufs == Created().bufs;
  }

  lemma SecondStep(s: State, bytes: seq<byte>)
    requires s == Created() && Sound(s) && |bytes| == 2
    ensures Apply(s, Write(0, bytes)) == Witness(Buf(Output, true, 0x1000, 0, bytes))
  {
    hide Sound, DoWrite, LocalOk, Alloc;
    FirstWrite(bytes[0], bytes[1]);
    assert bytes == [bytes[0], bytes[1]];
    var buf := Buf(Output, true, 0x1000, 0, bytes);
    assert s.bufs[0 := buf] == [buf];
    WriteIsLocal(s, bytes);
  }

  lemma WriteIsLocal(s: State, bytes: seq<byte>)
    requires Sound(s) && s.end.Going? && Usable(s, Write(0, bytes))
    ensures LocalOk(At(s, 0)) && Apply(s, Write(0, bytes)) == With(s, 0, DoWrite(At(s, 0), bytes))
  {
    hide DoWrite, FreeKb, HeldKb;
  }

  lemma FirstWrite(x: byte, y: byte)
    ensures var l := Local(Opening(), Buf(Output, true, 0, 0, []), Going);
      LocalOk(l) && DoWrite(l, [x, y]) == At(Witness(Buf(Output, true, 0x1000, 0, [x, y])), 0)
  {
    hide FreeKb;
    var l := Local(Opening(), Buf(Output, true, 0, 0, []), Going);
    assert Alloc(Opening(), 2).Granted? && Alloc(Opening(), 2).size == 0x1000;
    assert [] + [x, y] == [x, y];
    assert Room(l, 2) == (Local(Alloc(Opening(), 2).after, Buf(Output, true, 0x1000, 0, []), Going), true);
  }

  lemma WriteAfterPop(x: byte, y: byte, z: byte)
    ensures var s2, s3 := Witness(Buf(Output, true, 0x1000, 0, [x, y])), Witness(Buf(Output, true, 0x1000, 1, [y]));
      && Sound(s2) && Apply(s2, Pop(0, 1)) == s3
      && Sound(s3) && Apply(s3, Write(0, [z])).end.AssertFailed?
  {
    var s2, s3 := Witness(Buf(Output, true, 0x1000, 0, [x, y])), Witness(Buf(Output, true, 0x1000, 1, [y]));
    assert HeldKb(s2.bufs) == 4 && HeldKb(s3.bufs) == 4;
  }
}
