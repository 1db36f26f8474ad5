/**
 The buffers on values: what each call does to the buffers and to the accounts of the pool, and
 what holds after every sequence of calls.
 */
module BufferSpec {
  import opened Bits
  import opened PoolSpec

  /** `InputBuffer` has `read_from_fd` and `adjust`, `OutputBuffer` has `write_to_buf` and `write_to_fd`. */
  datatype Kind = Input | Output

  /** A buffer and its chunk; without a chunk the capacity is 0. */
  datatype Buf = Buf(kind: Kind, alive: bool, capacity: nat, head: nat, bytes: seq<byte>)

  /** Whether the process goes on, failed an assertion, or left because the pool was at its limit. */
  datatype End = Going | AssertFailed | AtLimit

  datatype State = State(acc: Accounts, bufs: seq<Buf>, end: End)

  /** The calls. `got` and `written` are what the system call of the source delivered. */
  datatype Op =
    | New(kind: Kind)
    | Write(b: nat, bytes: seq<byte>)
    | Read(b: nat, need: nat, got: seq<byte>)
    | Flush(b: nat, written: nat)
    | Pop(b: nat, len: nat)
    | Clear(b: nat)
    | Adjust(b: nat)
    | Destroy(b: nat)

  function Start(): State { State(Opening(), [], Going) }

  /** What holds of every state: the accounts balance and each chunk has its class and room for its bytes. */
  predicate Sound(s: State) {
    && Covers(s.acc)
    && s.acc.left == FreeKb(s.acc.free)
    && s.acc.total == s.acc.left + HeldKb(s.bufs)
    && s.acc.total < LIMIT_KB
    && forall b :: 0 <= b < |s.bufs| ==> BufOk(s.bufs[b])
  }

  predicate BufOk(buf: Buf) {
    if buf.capacity == 0 then buf.head == 0 && buf.bytes == []
    else buf.alive && buf.capacity in Sizes() && buf.head + |buf.bytes| <= buf.capacity
  }

  /** The kilobytes of the chunks the buffers hold. */
  function HeldKb(bufs: seq<Buf>): nat {
    if bufs == [] then 0 else HeldKb(bufs[..|bufs| - 1]) + bufs[|bufs| - 1].capacity / 1024
  }

  /** What the types, the lifetime of the object and the system call allow. */
  predicate Usable(s: State, op: Op) {
    match op
    case New(_) => true
    case Write(b, _) => Alive(s, b) && s.bufs[b].kind == Output
    case Read(b, need, got) => Alive(s, b) && s.bufs[b].kind == Input && |got| <= need
    case Flush(b, written) => Alive(s, b) && s.bufs[b].kind == Output && written <= |s.bufs[b].bytes|
    case Pop(b, _) => Alive(s, b)
    case Clear(b) => Alive(s, b)
    case Adjust(b) => Alive(s, b) && s.bufs[b].kind == Input
    case Destroy(b) => Alive(s, b)
  }

  predicate Alive(s: State, b: nat) { b < |s.bufs| && s.bufs[b].alive }

  // ---------------------------------------------------------------- the calls

  /** What a call on one buffer reads and changes. */
  datatype Local = Local(acc: Accounts, buf: Buf, end: End)

  function At(s: State, b: nat): Local
    requires b < |s.bufs|
  {
    Local(s.acc, s.bufs[b], s.end)
  }

  function With(s: State, b: nat, l: Local): State
    requires b < |s.bufs|
  {
    State(l.acc, s.bufs[b := l.buf], l.end)
  }

  predicate LocalOk(l: Local) {
    Covers(l.acc) && BufOk(l.buf) && l.buf.alive && l.acc.total < LIMIT_KB
  }

  function Fail(l: Local): Local { l.(end := AssertFailed) }

  /** A chunk with room for `n` more bytes: a first one, a larger one with the same contents, or the one there is. */
  function Room(l: Local, n: nat): (Local, bool)
    requires LocalOk(l)
  {
    if l.buf.capacity != 0 && n <= l.buf.capacity - |l.buf.bytes| then (l, true)
    else match Alloc(l.acc, n + |l.buf.bytes|)
      case Refused => (l, false)
      case OutOfMemory => (l.(end := AtLimit), false)
      case Granted(size, acc) =>
        (l.(acc := if l.buf.capacity == 0 then acc else GiveBack(acc, l.buf.capacity),
            buf := l.buf.(capacity := size, head := 0)), true)
  }

  function Append(l: Local, bytes: seq<byte>): Local {
    l.(buf := l.buf.(bytes := l.buf.bytes + bytes))
  }

  /** The chunk goes back to the pool. */
  function Release(l: Local): Local
    requires LocalOk(l)
  {
    if l.buf.capacity == 0 then l
    else l.(acc := GiveBack(l.acc, l.buf.capacity), buf := l.buf.(capacity := 0, head := 0, bytes := []))
  }

  /** The head of the chunk moves over the first bytes. */
  function Skip(l: Local, len: nat): Local
    requires len <= |l.buf.bytes|
  {
    l.(buf := l.buf.(head := l.buf.head + len, bytes := l.buf.bytes[len..]))
  }

  function ToFront(l: Local): Local { l.(buf := l.buf.(head := 0)) }

  function DoWrite(l: Local, bytes: seq<byte>): Local
    requires LocalOk(l)
  {
    if l.buf.head != 0 then Fail(l)
    else
      var (l', ok) := Room(l, |bytes|);
      if ok then Append(l', bytes) else l'
  }

  function DoRead(l: Local, need: nat, got: seq<byte>): Local
    requires LocalOk(l)
  {
    if l.buf.head != 0 then Fail(l)
    else
      var (l', ok) := Room(l, need);
      if !ok then l' else if got != [] && |got| != need then Fail(l') else Append(l', got)
  }

  function DoFlush(l: Local, written: nat): Local
    requires written <= |l.buf.bytes|
  {
    if l.buf.capacity == 0 || l.buf.head != 0 then Fail(l)
    else if written > 0 then ToFront(Skip(l, written))
    else l
  }

  function DoPop(l: Local, len: nat): Local
    requires LocalOk(l)
  {
    if l.buf.capacity == 0 || len > |l.buf.bytes| then Fail(l)
    else if len == |l.buf.bytes| then Release(l)
    else Skip(l, len)
  }

  function DoDestroy(l: Local): Local
    requires LocalOk(l)
  {
    Release(l).(buf := Release(l).buf.(alive := false))
  }

  /** A call on one buffer. */
  function OnBuffer(s: State, op: Op): Local
    requires Sound(s) && !op.New? && Usable(s, op)
  {
    match op
    case Write(b, bytes) => DoWrite(At(s, b), bytes)
    case Read(b, need, got) => DoRead(At(s, b), need, got)
    case Flush(b, written) => DoFlush(At(s, b), written)
    case Pop(b, len) => DoPop(At(s, b), len)
    case Clear(b) => Release(At(s, b))
    case Adjust(b) => ToFront(At(s, b))
    case Destroy(b) => DoDestroy(At(s, b))
  }

  /** A call that cannot be made, or that comes after the end, changes nothing. */
  function Apply(s: State, op: Op): State
    requires Sound(s)
  {
    if !s.end.Going? || !Usable(s, op) then s
    else if op.New? then s.(bufs := s.bufs + [Buf(op.kind, true, 0, 0, [])])
    else With(s, op.b, OnBuffer(s, op))
  }

  // ---------------------------------------------------------------- every call keeps the accounts

  lemma {:induction false} HeldUpdate(bufs: seq<Buf>, b: nat, buf: Buf)
    requires b < |bufs|
    ensures HeldKb(bufs[b := buf]) == HeldKb(bufs) - bufs[b].capacity / 1024 + buf.capacity / 1024
  {
    var n := |bufs| - 1;
    if b < n {
      HeldUpdate(bufs[..n], b, buf);
      assert bufs[b := buf][..n] == bufs[..n][b := buf];
    } else {
      assert bufs[b := buf][..n] == bufs[..n];
    }
  }

  /** The kilobytes that the accounts have and the buffer has not, before and after. */
  predicate Keeps(l: Local, l': Local) {
    && Covers(l.acc) && Covers(l'.acc) && BufOk(l'.buf) && l'.acc.total < LIMIT_KB && l'.buf.kind == l.buf.kind
    && l'.acc.total - FreeKb(l'.acc.free) - l'.buf.capacity / 1024 == l.acc.total - FreeKb(l.acc.free) - l.buf.capacity / 1024
    && l'.acc.left - FreeKb(l'.acc.free) == l.acc.left - FreeKb(l.acc.free)
  }

  lemma KeptIsSound(s: State, b: nat, l: Local)
    requires Sound(s) && b < |s.bufs| && Keeps(At(s, b), l)
    ensures Sound(With(s, b, l))
  {
    hide FreeKb, Sizes;
    HeldUpdate(s.bufs, b, l.buf);
  }

  lemma RoomKeeps(l: Local, n: nat)
    requires LocalOk(l)
    ensures var (l', ok) := Room(l, n);
      && Keeps(l, l') && l'.buf.alive
      && l'.buf.bytes == l.buf.bytes && (l.buf.head == 0 ==> l'.buf.head == 0)
      && (ok ==> l'.buf.capacity != 0 && |l'.buf.bytes| + n <= l'.buf.capacity && l'.end == l.end)
      && (!ok ==> l' == l || l' == l.(end := AtLimit))
      && (l.end.Going? && l'.end.Going? ==> (ok <==> |l.buf.bytes| + n <= MEM_UP))
  {
    hide FreeKb, GiveBack;
    var g := Alloc(l.acc, n + |l.buf.bytes|);
    if g.Granted? {
      AllocIsAccounted(l.acc, n + |l.buf.bytes|);
      if l.buf.capacity != 0 { GiveBackIsAccounted(g.after, l.buf.capacity); }
    }
  }

  lemma ReleaseKeeps(l: Local)
    requires LocalOk(l)
    ensures Keeps(l, Release(l)) && Release(l).buf == Buf(l.buf.kind, true, 0, 0, []) && Release(l).end == l.end
  {
    hide FreeKb, Sizes, GiveBack;
    if l.buf.capacity != 0 { GiveBackIsAccounted(l.acc, l.buf.capacity); }
  }

  lemma OnBufferKeeps(s: State, op: Op)
    requires Sound(s) && !op.New? && Usable(s, op)
    ensures Keeps(At(s, op.b), OnBuffer(s, op))
  {
    hide FreeKb, Sizes, HeldKb, Room, Release;
    var l := At(s, op.b);
    match op {
      case Write(_, bytes) => RoomKeeps(l, |bytes|);
      case Read(_, need, _) => RoomKeeps(l, need);
      case Pop(_, _) => ReleaseKeeps(l);
      case Clear(_) => ReleaseKeeps(l);
      case Destroy(_) => ReleaseKeeps(l);
      case _ =>
    }
  }

  lemma ApplyIsSound(s: State, op: Op)
    requires Sound(s)
    ensures Sound(Apply(s, op))
  {
    hide FreeKb, Sizes, OnBuffer, Keeps, With;
    if s.end.Going? && Usable(s, op) {
      if op.New? {
        assert (s.bufs + [Buf(op.kind, true, 0, 0, [])])[..|s.bufs|] == s.bufs;
      } else {
        OnBufferKeeps(s, op);
        KeptIsSound(s, op.b, OnBuffer(s, op));
      }
    }
  }
}
