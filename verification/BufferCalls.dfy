/**
 What each call on a buffer does in every state that calls can lead to: when it ends the process,
 which bytes, chunk and free chunks it leaves, and when a buffer holds a chunk at all.
 */
module BufferCalls {
  import opened Bits
  import opened PoolSpec
  import opened BufferSpec
  import opened BufferRuns

  predicate Holds(s: State, b: nat) { b < |s.bufs| && s.bufs[b].capacity != 0 }

  predicate OthersSame(s: State, s': State, b: nat) {
    |s'.bufs| == |s.bufs| && forall c :: 0 <= c < |s.bufs| && c != b ==> s'.bufs[c] == s.bufs[c]
  }

  /** One more chunk of the size is free. */
  predicate GaveBack(a: Accounts, a': Accounts, size: nat) {
    && Covers(a) && Covers(a') && size in Sizes()
    && a'.free[size] == a.free[size] + 1 && (forall z :: z in Sizes() && z != size ==> a'.free[z] == a.free[z])
    && a'.total == a.total && a'.left == a.left + size / 1024
  }

  /** A chunk of the size left the free ones, or there was none and one was made below the limit. */
  predicate TookOne(a: Accounts, a': Accounts, size: nat) {
    && Covers(a) && Covers(a') && size in Sizes()
    && (forall z :: z in Sizes() && z != size ==> a'.free[z] == a.free[z])
    && if a.free[size] > 0 then a'.free[size] + 1 == a.free[size] && a'.total == a.total && a'.left == a.left - size / 1024
       else a'.free[size] == 0 && a'.total == a.total + size / 1024 < LIMIT_KB && a'.left == a.left
  }

  lemma GiveBackIsExact(a: Accounts, size: nat)
    requires Covers(a) && size in Sizes()
    ensures GaveBack(a, GiveBack(a, size), size)
  {}

  lemma AllocIsExact(a: Accounts, n: nat)
    requires Covers(a)
    ensures var g := Alloc(a, n);
      && (g.Refused? <==> n > MEM_UP)
      && (g.Granted? ==> IsClass(g.size, n) && TookOne(a, g.after, g.size))
      && (g.OutOfMemory? <==>
           exists size :: size in Sizes() && IsClass(size, n) && a.free[size] == 0 && a.total + size / 1024 >= LIMIT_KB)
  {
    if n <= MEM_UP {
      assert IsClass(ClassOf(n), n);
      forall size | IsClass(size, n)
        ensures size == ClassOf(n)
      {
        ClassIsUnique(size, n);
      }
    }
  }

  // ---------------------------------------------------------------- room

  /** The bytes do not fit the chunk there is. */
  predicate NeedsChunk(buf: Buf, n: nat) { buf.capacity == 0 || |buf.bytes| + n > buf.capacity }

  /** The chunk needed is of a class that has none left, and the pool is at its limit. */
  predicate Exhausted(s: State, b: nat, n: nat)
    requires Sound(s) && b < |s.bufs|
  {
    NeedsChunk(s.bufs[b], n)
    && exists size :: size in Sizes() && IsClass(size, n + |s.bufs[b].bytes|)
        && s.acc.free[size] == 0 && s.acc.total + size / 1024 >= LIMIT_KB
  }

  /** The chunk there is, or one of the smallest class that holds all the bytes, and the old one free again. */
  ghost predicate Roomy(buf: Buf, n: nat, capacity: nat, a: Accounts, a': Accounts) {
    if !NeedsChunk(buf, n) then a' == a && capacity == buf.capacity
    else
      && IsClass(capacity, n + |buf.bytes|)
      && if buf.capacity == 0 then TookOne(a, a', capacity)
         else exists mid :: TookOne(a, mid, capacity) && GaveBack(mid, a', buf.capacity)
  }

  lemma RoomIsExact(s: State, b: nat, n: nat)
    requires Sound(s) && s.end.Going? && Alive(s, b)
    ensures LocalOk(At(s, b))
    ensures var (l, ok) := Room(At(s, b), n);
      && (l.end.AtLimit? <==> Exhausted(s, b, n))
      && (ok <==> |s.bufs[b].bytes| + n <= MEM_UP && !Exhausted(s, b, n))
      && (!ok ==> l.acc == s.acc && l.buf == s.bufs[b])
      && (ok ==> Roomy(s.bufs[b], n, l.buf.capacity, s.acc, l.acc) && l.end.Going? && l.buf == s.bufs[b].(capacity := l.buf.capacity, head := l.buf.head))
      && !l.end.AssertFailed? && (s.bufs[b].head == 0 ==> l.buf.head == 0)
  {
    hide FreeKb, HeldKb, Alloc, GiveBack, TookOne, GaveBack;
    BufIsOk(s, b);
    var l, total := At(s, b), n + |s.bufs[b].bytes|;
    AllocIsExact(s.acc, total);
    if NeedsChunk(l.buf, n) && Alloc(s.acc, total).Granted? && l.buf.capacity != 0 {
      GiveBackIsExact(Alloc(s.acc, total).after, l.buf.capacity);
    }
    ChunkFits(l.buf);
  }

  lemma ChunkFits(buf: Buf)
    requires BufOk(buf)
    ensures buf.capacity <= MEM_UP
  {}

  // ---------------------------------------------------------------- calls that put bytes in

  /** Nothing happens but that the process may be over. */
  predicate OnlyEnds(s: State, s': State) { s'.acc == s.acc && s'.bufs == s.bufs }

  /** The bytes stand behind those there were, in a chunk with room for `n` more. */
  ghost predicate Appends(s: State, s': State, b: nat, n: nat, bytes: seq<byte>)
    requires b < |s.bufs|
  {
    && s'.end.Going? && OthersSame(s, s', b) && Roomy(s.bufs[b], n, s'.bufs[b].capacity, s.acc, s'.acc)
    && s'.bufs[b] == s.bufs[b].(capacity := s'.bufs[b].capacity, bytes := s.bufs[b].bytes + bytes)
  }

  lemma WriteOutcome(s: State, b: nat, bytes: seq<byte>)
    requires Sound(s) && s.end.Going? && Usable(s, Write(b, bytes)) && Head(s, b) == 0
    ensures var s' := Apply(s, Write(b, bytes));
      if Exhausted(s, b, |bytes|) then OnlyEnds(s, s') && s'.end.AtLimit?
      else if |s.bufs[b].bytes| + |bytes| > MEM_UP then s' == s
      else Appends(s, s', b, |bytes|, bytes)
  {
    hide Sound, Room, Roomy, Exhausted;
    RoomIsExact(s, b, |bytes|);
  }

  lemma ReadOutcome(s: State, b: nat, need: nat, got: seq<byte>)
    requires Sound(s) && s.end.Going? && Usable(s, Read(b, need, got)) && Head(s, b) == 0
    ensures var s' := Apply(s, Read(b, need, got));
      if Exhausted(s, b, need) then OnlyEnds(s, s') && s'.end.AtLimit?
      else if |s.bufs[b].bytes| + need > MEM_UP then s' == s
      else if got != [] && |got| < need then s'.end.AssertFailed? && OthersSame(s, s', b) && Bytes(s', b) == Bytes(s, b)
      else Appends(s, s', b, need, got)
  {
    hide Sound, Room, Roomy, Exhausted;
    RoomIsExact(s, b, need);
  }

  // ---------------------------------------------------------------- calls that take bytes out

  /** The chunk is free again, and the buffer has none. */
  predicate Empties(s: State, s': State, b: nat)
    requires b < |s.bufs|
  {
    && OthersSame(s, s', b) && s'.bufs[b] == Buf(s.bufs[b].kind, s'.bufs[b].alive, 0, 0, [])
    && if Holds(s, b) then GaveBack(s.acc, s'.acc, s.bufs[b].capacity) else s'.acc == s.acc
  }

  lemma ReleaseIsExact(s: State, b: nat)
    requires Sound(s) && Alive(s, b)
    ensures LocalOk(At(s, b))
    ensures var l := Release(At(s, b));
      && l.end == s.end && l.buf == Buf(s.bufs[b].kind, true, 0, 0, [])
      && if Holds(s, b) then GaveBack(s.acc, l.acc, s.bufs[b].capacity) else l.acc == s.acc
  {
    hide FreeKb, HeldKb, GiveBack, GaveBack;
    BufIsOk(s, b);
    if Holds(s, b) { GiveBackIsExact(s.acc, s.bufs[b].capacity); }
  }

  lemma PopOutcome(s: State, b: nat, len: nat)
    requires Sound(s) && s.end.Going? && Usable(s, Pop(b, len))
    ensures var s' := Apply(s, Pop(b, len));
      if !Holds(s, b) || len > |Bytes(s, b)| then OnlyEnds(s, s') && s'.end.AssertFailed?
      else if len == |Bytes(s, b)| then s'.end.Going? && Empties(s, s', b) && s'.bufs[b].alive
      else
        && s'.end.Going? && s'.acc == s.acc && OthersSame(s, s', b)
        && s'.bufs[b] == s.bufs[b].(head := Head(s, b) + len, bytes := Bytes(s, b)[len..])
  {
    hide Sound, Release, GaveBack;
    ReleaseIsExact(s, b);
  }

  lemma FlushOutcome(s: State, b: nat, written: nat)
    requires Sound(s) && s.end.Going? && Usable(s, Flush(b, written))
    ensures var s' := Apply(s, Flush(b, written));
      if !Holds(s, b) || Head(s, b) > 0 then OnlyEnds(s, s') && s'.end.AssertFailed?
      else
        && s'.end.Going? && s'.acc == s.acc && OthersSame(s, s', b)
        && s'.bufs[b] == s.bufs[b].(bytes := Bytes(s, b)[written..])
  {
    hide Sound;
    assert Bytes(s, b)[0..] == Bytes(s, b);
  }

  lemma ClearOutcome(s: State, b: nat)
    requires Sound(s) && s.end.Going? && Usable(s, Clear(b))
    ensures var s' := Apply(s, Clear(b)); s'.end.Going? && Empties(s, s', b) && s'.bufs[b].alive
  {
    hide Sound, Release, GaveBack;
    ReleaseIsExact(s, b);
  }

  lemma DestroyOutcome(s: State, b: nat)
    requires Sound(s) && s.end.Going? && Usable(s, Destroy(b))
    ensures var s' := Apply(s, Destroy(b)); s'.end.Going? && Empties(s, s', b) && !s'.bufs[b].alive
  {
    hide Sound, Release, GaveBack;
    ReleaseIsExact(s, b);
  }

  // ---------------------------------------------------------------- which calls end the process

  predicate Short(need: nat, got: seq<byte>) { got != [] && |got| < need }

  /** What makes the assertion of a call fail. */
  ghost predicate Wrong(ops: seq<Op>, op: Op) {
    var s := After(ops);
    match op
    case Write(b, _) => PartlyPopped(ops, b)
    case Read(b, need, got) =>
      b < |s.bufs| && (PartlyPopped(ops, b) || (Short(need, got) && |Bytes(s, b)| + need <= MEM_UP && !Exhausted(s, b, need)))
    case Flush(b, _) => !Holds(s, b) || PartlyPopped(ops, b)
    case Pop(b, len) => !Holds(s, b) || len > |Bytes(s, b)|
    case _ => false
  }

  /** After any calls: a call fails its assertion exactly when something is wrong. */
  lemma AssertionIff(ops: seq<Op>, op: Op)
    requires After(ops).end.Going? && Usable(After(ops), op)
    ensures After(ops + [op]).end.AssertFailed? <==> Wrong(ops, op)
  {
    hide Sound, After, Apply, PartlyPopped, Exhausted, Roomy, GaveBack;
    var s := After(ops);
    AfterOneMore(ops, op);
    match op {
      case New(kind) => NewOutcome(s, kind);
      case Write(b, bytes) => WriteAssertionIff(ops, b, bytes);
      case Read(b, need, got) => ReadAssertionIff(ops, b, need, got);
      case Flush(b, written) =>
        HeadIff(ops, b);
        FlushOutcome(s, b, written);
      case Pop(b, len) => PopOutcome(s, b, len);
      case Clear(b) => ClearOutcome(s, b);
      case Adjust(b) => AdjustOutcome(s, b);
      case Destroy(b) => DestroyOutcome(s, b);
    }
  }

  lemma NewOutcome(s: State, kind: Kind)
    requires Sound(s) && s.end.Going?
    ensures var s' := Apply(s, New(kind)); s'.end.Going? && s'.acc == s.acc && s'.bufs == s.bufs + [Buf(kind, true, 0, 0, [])]
  {
    hide Sound;
  }

  lemma AdjustOutcome(s: State, b: nat)
    requires Sound(s) && s.end.Going? && Usable(s, Adjust(b))
    ensures var s' := Apply(s, Adjust(b));
      s'.end.Going? && s'.acc == s.acc && OthersSame(s, s', b) && s'.bufs[b] == s.bufs[b].(head := 0)
  {
    hide Sound;
  }

  lemma ReadAssertionIff(ops: seq<Op>, b: nat, need: nat, got: seq<byte>)
    requires After(ops).end.Going? && Usable(After(ops), Read(b, need, got))
    ensures Apply(After(ops), Read(b, need, got)).end.AssertFailed? <==> Wrong(ops, Read(b, need, got))
  {
    hide Sound, After, Apply, PartlyPopped, Exhausted, Roomy;
    var s := After(ops);
    HeadIff(ops, b);
    if Head(s, b) == 0 {
      ReadOutcome(s, b, need, got);
    } else {
      HeadFailsRead(s, b, need, got);
    }
  }

  lemma HeadFailsRead(s: State, b: nat, need: nat, got: seq<byte>)
    requires Sound(s) && s.end.Going? && Usable(s, Read(b, need, got)) && Head(s, b) > 0
    ensures Apply(s, Read(b, need, got)).end.AssertFailed?
  {
    hide Sound, Room;
    RoomIsExact(s, b, need);
  }

  ghost predicate OutOfChunks(ops: seq<Op>, op: Op)
    requires Usable(After(ops), op)
  {
    match op
    case Write(b, bytes) => !PartlyPopped(ops, b) && Exhausted(After(ops), b, |bytes|)
    case Read(b, need, _) => !PartlyPopped(ops, b) && Exhausted(After(ops), b, need)
    case _ => false
  }

  /** The process leaves at the limit exactly when a write or a read needs a chunk the pool may not make. */
  lemma LimitIff(ops: seq<Op>, op: Op)
    requires After(ops).end.Going? && Usable(After(ops), op)
    ensures After(ops + [op]).end.AtLimit? <==> OutOfChunks(ops, op)
  {
    hide Sound, After, Apply, PartlyPopped, Exhausted, Roomy, GaveBack;
    var s := After(ops);
    AfterOneMore(ops, op);
    match op {
      case New(kind) => NewOutcome(s, kind);
      case Write(b, bytes) =>
        HeadIff(ops, b);
        WriteAssertionIff(ops, b, bytes);
        if Head(s, b) == 0 { WriteOutcome(s, b, bytes); }
      case Read(b, need, got) =>
        HeadIff(ops, b);
        if Head(s, b) == 0 { ReadOutcome(s, b, need, got); } else { HeadFailsRead(s, b, need, got); }
      case Flush(b, written) => FlushOutcome(s, b, written);
      case Pop(b, len) => PopOutcome(s, b, len);
      case Clear(b) => ClearOutcome(s, b);
      case Adjust(b) => AdjustOutcome(s, b);
      case Destroy(b) => DestroyOutcome(s, b);
    }
  }

  /** After any calls, a pop of all bytes leaves no chunk and one more free; a pop of fewer moves the head. */
  lemma PopGivesBack(ops: seq<Op>, b: nat, len: nat)
    requires After(ops).end.Going? && Usable(After(ops), Pop(b, len)) && Holds(After(ops), b) && len <= |Bytes(After(ops), b)|
    ensures var s, s' := After(ops), After(ops + [Pop(b, len)]);
      && s'.end.Going? && Bytes(s', b) == Bytes(s, b)[len..]
      && (len == |Bytes(s, b)| ==> !Holds(s', b) && GaveBack(s.acc, s'.acc, s.bufs[b].capacity))
      && (len < |Bytes(s, b)| ==> Holds(s', b) && s'.acc == s.acc)
  {
    hide Sound, After, Apply, GaveBack;
    AfterOneMore(ops, Pop(b, len));
    PopOutcome(After(ops), b, len);
  }

  // ---------------------------------------------------------------- when a buffer holds a chunk

  /** The call asks for room that fits a chunk. */
  predicate Stores(s: State, op: Op, b: nat) {
    Usable(s, op) && match op
      case Write(c, bytes) => c == b && |Bytes(s, b)| + |bytes| <= MEM_UP
      case Read(c, need, _) => c == b && |Bytes(s, b)| + need <= MEM_UP
      case _ => false
  }

  /** The call takes everything out. */
  predicate TakesAll(s: State, op: Op, b: nat) {
    Usable(s, op) && match op
      case Pop(c, len) => c == b && len == |Bytes(s, b)|
      case Clear(c) => c == b
      case Destroy(c) => c == b
      case _ => false
  }

  /** Call `k` stored bytes, none or some, and since then nothing took everything out. */
  ghost predicate StoredAt(ops: seq<Op>, b: nat, k: nat) {
    k < |ops| && Stores(After(ops[..k]), ops[k], b) && forall j :: k < j < |ops| ==> !TakesAll(After(ops[..j]), ops[j], b)
  }

  ghost predicate Stored(ops: seq<Op>, b: nat) { exists k: nat :: StoredAt(ops, b, k) }

  lemma StoredStep(ops: seq<Op>, op: Op, b: nat)
    ensures Stored(ops + [op], b) <==> Stores(After(ops), op, b) || (Stored(ops, b) && !TakesAll(After(ops), op, b))
  {
    hide Stores, TakesAll, After;
    var more := ops + [op];
    assert more[..|ops|] == ops;
    assert forall j :: 0 <= j <= |ops| ==> more[..j] == ops[..j];
    if Stored(more, b) {
      var k: nat :| StoredAt(more, b, k);
      if k < |ops| { assert StoredAt(ops, b, k); }
    }
    if Stores(After(ops), op, b) {
      assert StoredAt(more, b, |ops|);
    } else if Stored(ops, b) && !TakesAll(After(ops), op, b) {
      var k: nat :| StoredAt(ops, b, k);
      assert StoredAt(more, b, k);
    }
  }

  lemma HoldsStep(s: State, op: Op, b: nat)
    requires Sound(s) && s.end.Going? && Apply(s, op).end.Going?
    ensures Holds(Apply(s, op), b) <==> Stores(s, op, b) || (Holds(s, b) && !TakesAll(s, op, b))
  {
    if Usable(s, op) && !op.New? && op.b == b {
      OwnHoldsStep(s, op);
    } else {
      hide Sound, OnBuffer;
    }
  }

  lemma OwnHoldsStep(s: State, op: Op)
    requires Sound(s) && s.end.Going? && Apply(s, op).end.Going? && Usable(s, op) && !op.New?
    ensures Holds(Apply(s, op), op.b) <==> Stores(s, op, op.b) || (Holds(s, op.b) && !TakesAll(s, op, op.b))
  {
    hide Sound, Apply, Exhausted, GaveBack, Roomy;
    match op {
      case Write(b, bytes) =>
        if Head(s, b) == 0 { WriteOutcome(s, b, bytes); RoomyHolds(s.bufs[b], |bytes|, Apply(s, op).bufs[b].capacity, s.acc, Apply(s, op).acc); } else { HeadFailsWrite(s, b, bytes); }
      case Read(b, need, got) =>
        if Head(s, b) == 0 { ReadOutcome(s, b, need, got); RoomyHolds(s.bufs[b], need, Apply(s, op).bufs[b].capacity, s.acc, Apply(s, op).acc); } else { HeadFailsRead(s, b, need, got); }
      case Flush(b, written) => FlushOutcome(s, b, written);
      case Pop(b, len) => PopOutcome(s, b, len);
      case Clear(b) => ClearOutcome(s, b);
      case Adjust(b) => AdjustOutcome(s, b);
      case Destroy(b) => DestroyOutcome(s, b);
    }
  }

  lemma RoomyHolds(buf: Buf, n: nat, capacity: nat, a: Accounts, a': Accounts)
    ensures Roomy(buf, n, capacity, a, a') ==> capacity != 0
  {}

  lemma HeadFailsWrite(s: State, b: nat, bytes: seq<byte>)
    requires Sound(s) && s.end.Going? && Usable(s, Write(b, bytes)) && Head(s, b) > 0
    ensures Apply(s, Write(b, bytes)).end.AssertFailed?
  {
    hide Sound, Room;
    RoomIsExact(s, b, |bytes|);
  }

  /** A buffer holds a chunk exactly when something was stored, if only nothing, and not all taken out since. */
  lemma {:induction false} HoldsIff(ops: seq<Op>, b: nat)
    requires After(ops).end.Going?
    ensures Holds(After(ops), b) <==> Stored(ops, b)
    decreases |ops|
  {
    hide Apply, Sound, Stores, TakesAll, Holds;
    if ops != [] {
      var front, op := ops[..|ops| - 1], ops[|ops| - 1];
      assert front + [op] == ops;
      EndsStay(After(front), op);
      HoldsIff(front, b);
      HoldsStep(After(front), op, b);
      StoredStep(front, op, b);
    } else {
      NothingHeld(b);
    }
  }

  lemma NothingHeld(b: nat)
    ensures !Holds(Start(), b)
  {}
}
