/** Byte buffers on top of the pool: each holds at most one chunk, and each chunk handed out is held by one buffer. */
module DataBuffer {
  import opened Bits
  import opened MemoryChunk
  import opened PoolSpec
  import opened MemoryPool
  import opened BufferSpec
  import opened BufferRuns

  /** An `InputBuffer` or an `OutputBuffer`, until its destructor has run. */
  class Buffer {
    const kind: Kind
    var alive: bool
    var chunk: Chunk?

    constructor (kind: Kind)
      ensures this.kind == kind && alive && chunk == null
    {
      this.kind, alive, chunk := kind, true, null;
    }

    ghost predicate Valid()
      reads this, chunk
    {
      chunk != null ==> chunk.Valid() && chunk.capacity > 0
    }

    ghost function Kept(): set<Chunk>
      reads this
    {
      if chunk == null then {} else {chunk}
    }

    ghost function Value(): Buf
      requires Valid()
      reads this, chunk, if chunk == null then {} else {chunk.data}
    {
      if chunk == null then Buf(kind, alive, 0, 0, [])
      else Buf(kind, alive, chunk.capacity, chunk.head, chunk.Contents())
    }
  }

  lemma ValueOf(b: Buffer)
    requires b.Valid()
    ensures b.chunk == null ==> b.Value() == Buf(b.kind, b.alive, 0, 0, [])
    ensures b.chunk != null ==>
      b.Value().capacity == b.chunk.capacity > 0 && b.Value().head == b.chunk.head && |b.Value().bytes| == b.chunk.length
    ensures b.Value().kind == b.kind && b.Value().alive == b.alive
  {}

  /** `owner` maps the chunks handed out one to one to the buffers that hold one. */
  ghost predicate Owned(owner: map<Chunk, Buffer>, buffers: set<Buffer>)
    reads buffers`chunk
  {
    && (forall b :: b in buffers && b.chunk != null ==> b.chunk in owner && owner[b.chunk] == b)
    && (forall c :: c in owner ==> owner[c] in buffers && owner[c].chunk == c)
  }

  /** The buffers in the order of their creation. */
  ghost predicate Numbered(made: seq<Buffer>, buffers: set<Buffer>) {
    && (forall b :: b in made ==> b in buffers) && (forall b :: b in buffers ==> b in made)
    && (forall i, j :: 0 <= i < j < |made| ==> made[i] != made[j])
  }

  lemma HeldIsValid(pool: MemPool, c: Chunk)
    requires pool.Valid() && c in pool.held
    ensures c.Valid() && 0 < c.capacity <= MEM_UP && c.capacity in Sizes() && c !in pool.free && c.data !in Datas(pool.free)
  {}

  lemma HeldAreApart(pool: MemPool, c: Chunk, d: Chunk)
    requires pool.Valid() && c in pool.held && d in pool.held && c != d
    ensures c.data != d.data
  {}

  lemma NothingOwned()
    ensures Owned(map[], {}) && Numbered([], {})
  {}

  lemma OwnedWithout(owner: map<Chunk, Buffer>, buffers: set<Buffer>, b: Buffer)
    requires Owned(owner, buffers) && b in buffers
    ensures b.chunk != null ==> b.chunk in owner
    ensures Owned(if b.chunk == null then owner else owner - {b.chunk}, buffers - {b})
  {}

  lemma OwnedWith(owner: map<Chunk, Buffer>, buffers: set<Buffer>, b: Buffer)
    requires Owned(owner, buffers) && b !in buffers && b.chunk !in owner
    ensures Owned(if b.chunk == null then owner else owner[b.chunk := b], buffers + {b})
  {}

  lemma NumberedWith(made: seq<Buffer>, buffers: set<Buffer>, b: Buffer)
    requires Numbered(made, buffers) && b !in buffers
    ensures Numbered(made + [b], buffers + {b})
  {}

  lemma MadeAreBuffers(made: seq<Buffer>, buffers: set<Buffer>, i: nat, j: nat)
    requires Numbered(made, buffers) && i < |made| && j < |made|
    ensures made[i] in buffers && made[j] in buffers && (i != j ==> made[i] != made[j])
  {}

  function OutcomeOf(g: Grant): Outcome {
    match g
    case Granted(_, _) => Allocated
    case Refused => TooLarge
    case OutOfMemory => Exhausted
  }

  lemma DataIn(c: Chunk, chunks: set<Chunk>)
    requires c in chunks
    ensures c.data in Datas(chunks)
  {}

  /** The pool and all buffers that use it. */
  class World {
    const pool: MemPool
    var made: seq<Buffer>
    var end: End
    ghost var buffers: set<Buffer>
    ghost var owner: map<Chunk, Buffer>

    /** Every object of the program. */
    ghost function Repr(): set<object>
      reads this, pool
    {
      {this, pool} + pool.free + pool.held + Datas(pool.free) + Datas(pool.held) + buffers
    }

    ghost predicate Linked()
      reads `made, `owner, `buffers, pool, pool.free, pool.held, buffers`chunk
    {
      pool.Valid() && owner.Keys == pool.held && Owned(owner, buffers) && Numbered(made, buffers)
    }

    lemma BufferIsValid(b: Buffer)
      requires Linked() && b in buffers
      ensures pool.Valid() && b.Valid()
      ensures b.chunk != null ==> b.chunk in pool.held && b.chunk.capacity <= MEM_UP && b.chunk !in pool.free
    {
      OwnedWithout(owner, buffers, b);
      if b.chunk != null { HeldIsValid(pool, b.chunk); }
    }

    ghost function BufAt(i: nat): Buf
      requires Linked() && i < |made|
      reads this, pool, pool.free, pool.held, Datas(pool.held), buffers
    {
      MadeAreBuffers(made, buffers, i, i);
      BufferIsValid(made[i]);
      assert made[i].chunk != null ==> made[i].chunk.data in Datas(pool.held);
      made[i].Value()
    }

    ghost function Value(): (s: State)
      requires Linked()
      reads this, pool, pool.free, pool.held, Datas(pool.held), buffers
      ensures |s.bufs| == |made| && forall i :: 0 <= i < |made| ==> s.bufs[i] == BufAt(i)
      ensures s.acc == pool.Acc() && s.end == end
    {
      State(pool.Acc(),
            seq(|made|, i requires 0 <= i < |made| && Linked()
                          reads this, pool, pool.free, pool.held, Datas(pool.held), buffers => BufAt(i)),
            end)
    }

    ghost predicate Valid()
      reads this, pool, pool.free, pool.held, Datas(pool.held), buffers
    {
      Linked() && Sound(Value())
    }

    constructor ()
      ensures Valid() && Value() == Start() && made == [] && fresh(Repr())
    {
      hide MemPool.Valid, Owned, Numbered, Sizes, FreeKb;
      pool := new MemPool();
      made, end := [], Going;
      buffers, owner := {}, map[];
      new;
      NothingOwned();
      StartIsSound();
      assert Value() == Start();
    }

    /**
     What moves between the pool and a buffer: nothing, or the chunk it had becomes free and the one
     it has was free or is new.
     */
    twostate predicate Swapped(b: Buffer)
      reads pool, b
    {
      if b.chunk == old(b.chunk) then pool.free == old(pool.free) && pool.held == old(pool.held)
      else
        && pool.free == old(pool.free) - b.Kept() + old(b.Kept())
        && pool.held == old(pool.held) - old(b.Kept()) + b.Kept()
        && (b.chunk == null || b.chunk in old(pool.free) || (fresh(b.chunk) && fresh(b.chunk.data)))
    }

    twostate lemma NotSwapped(b: Buffer)
      requires b.chunk == old(b.chunk) && pool.free == old(pool.free) && pool.held == old(pool.held)
      ensures Swapped(b)
    {}

    // -------------------------------------------------------------- one buffer and the pool

    ghost predicate Ready(b: Buffer)
      reads `made, `owner, `buffers, pool, pool.free, pool.held, buffers`chunk, b`alive
    {
      Linked() && b in buffers && b.alive
    }

    /** The pool and one buffer. */
    ghost function Here(b: Buffer): (l: Local)
      requires Ready(b)
      reads this, pool, pool.free, pool.held, Datas(pool.held), buffers
      ensures LocalOk(l)
    {
      BufferIsValid(b);
      assert b.chunk != null ==> b.chunk.data in Datas(pool.held) && b.chunk.capacity in Sizes() by {
        if b.chunk != null { HeldIsValid(pool, b.chunk); }
      }
      Local(pool.Acc(), b.Value(), end)
    }

    /** The first chunk of a buffer. */
    method Acquire(b: Buffer, n: int) returns (outcome: Outcome)
      requires Linked() && b in buffers && b.chunk == null
      modifies this`owner, pool, pool.free`next, b`chunk
      ensures Linked() && b.Valid() && outcome == OutcomeOf(Alloc(old(pool.Acc()), n))
      ensures outcome.Allocated? ==>
        && b.chunk != null && b.Value() == Buf(b.kind, b.alive, Alloc(old(pool.Acc()), n).size, 0, [])
        && pool.Acc() == Alloc(old(pool.Acc()), n).after
      ensures Swapped(b)
      ensures !outcome.Allocated? ==> b.chunk == null && pool.Acc() == old(pool.Acc())
    {
      hide MemPool.Valid, Owned, Numbered, Sizes, Alloc, GiveBack, FreeKb, Datas, Buffer.Valid, Buffer.Value, Chunk.Contents, IsClass;
      OwnedWithout(owner, buffers, b);
      var c;
      outcome, c := pool.AllocChunk(n);
      if c != null {
        b.chunk := c;
        OwnedWith(owner, buffers - {b}, b);
        assert buffers - {b} + {b} == buffers;
        owner := owner[c := b];
      }
      BufferIsValid(b);
      ValueOf(b);
    }

    /** Nothing has moved between the pool and the buffer. */
    ghost predicate Unmoved(b: Buffer, chunk: Chunk?, acc: Accounts, free: set<Chunk>, held: set<Chunk>)
      requires pool.Valid()
      reads this, pool, pool.free, pool.held, b
    {
      b.chunk == chunk && pool.Acc() == acc && pool.free == free && pool.held == held
    }

    /** The new chunk `c` takes the place of the one that `b` gives back. */
    method Replace(b: Buffer, c: Chunk)
      requires pool.Valid() && owner.Keys == pool.held - {c} && Owned(owner, buffers) && Numbered(made, buffers)
      requires b in buffers && b.chunk != null && c in pool.held
      modifies this`owner, pool, b`chunk, b.chunk
      ensures Linked() && b.chunk == c && c.Valid() && c.length == old(c.length) && c.head == old(c.head)
      ensures pool.free == old(pool.free) + {old(b.chunk)} && pool.held == old(pool.held) - {old(b.chunk)}
      ensures old(b.chunk).capacity in Sizes() && pool.Acc() == GiveBack(old(pool.Acc()), old(b.chunk).capacity)
    {
      hide MemPool.Valid, Owned, Numbered, Sizes, GiveBack;
      var last := b.chunk;
      OwnedWithout(owner, buffers, b);
      pool.Retrieve(last);
      HeldIsValid(pool, c);
      b.chunk := c;
      OwnedWith(owner - {last}, buffers - {b}, b);
      assert buffers - {b} + {b} == buffers;
      owner := (owner - {last})[c := b];
    }

    /** Copying into a chunk just handed out. */
    method Fill(c: Chunk, from: Chunk)
      requires pool.Valid() && c in pool.held && from in pool.held && c != from && from.length <= c.capacity
      requires from.Valid()
      modifies c`head, c`length, c.data
      ensures pool.Valid() && pool.Acc() == old(pool.Acc())
      ensures c.Valid() && c.head == 0 && c.Contents() == old(from.Contents())
    {
      hide MemPool.Valid, Sizes;
      HeldAreApart(pool, c, from);
      pool.Open(c);
      c.Copy(from);
      pool.Close(c);
    }

    /** A larger chunk with a copy of the contents. */
    method CopyOut(b: Buffer, n: int) returns (outcome: Outcome, c: Chunk?)
      requires Linked() && b in buffers && b.chunk != null && b.chunk.Valid() && b.chunk.length <= n
      modifies pool, pool.free, Datas(pool.free)
      ensures pool.Valid() && Owned(owner, buffers) && b.chunk in owner
      ensures owner.Keys == if c == null then pool.held else pool.held - {c}
      ensures (c != null <==> outcome.Allocated?) && outcome == OutcomeOf(Alloc(old(pool.Acc()), n))
      ensures c != null ==>
        && c.Valid() && c.capacity == Alloc(old(pool.Acc()), n).size && c.head == 0
        && pool.Acc() == Alloc(old(pool.Acc()), n).after && c.Contents() == old(b.chunk.Contents())
      ensures c != null ==>
        && c != b.chunk && pool.free == old(pool.free) - {c} && pool.held == old(pool.held) + {c}
        && (c in old(pool.free) || (fresh(c) && fresh(c.data)))
        && c !in pool.free && c.data !in Datas(pool.free)
      ensures c == null ==> Unmoved(b, b.chunk, old(pool.Acc()), old(pool.free), old(pool.held))
    {
      hide MemPool.Valid, Owned, Numbered, Sizes, Alloc, FreeKb, Chunk.Contents;
      OwnedWithout(owner, buffers, b);
      HeldIsValid(pool, b.chunk);
      outcome, c := pool.AllocChunk(n);
      if c != null {
        GrantHolds(old(pool.Acc()), n);
        HeldIsValid(pool, c);
        HeldIsValid(pool, b.chunk);
        Fill(c, b.chunk);
      }
    }

    /** The move to a larger chunk: the last one goes back to the pool. */
    method Grow(b: Buffer, n: int) returns (outcome: Outcome)
      requires Linked() && b in buffers && b.chunk != null && b.Valid() && b.chunk.length <= n
      modifies this`owner, pool, pool.free, Datas(pool.free), b`chunk, b.chunk
      ensures Linked() && b.Valid() && outcome == OutcomeOf(Alloc(old(pool.Acc()), n))
      ensures outcome.Allocated? ==>
        && b.chunk != null && b.chunk != old(b.chunk) && old(b.chunk).capacity in Sizes()
        && b.Value() == old(b.Value()).(capacity := Alloc(old(pool.Acc()), n).size, head := 0)
        && pool.Acc() == GiveBack(Alloc(old(pool.Acc()), n).after, old(b.chunk).capacity)
      ensures Swapped(b)
      ensures !outcome.Allocated? ==> b.chunk == old(b.chunk) && pool.Acc() == old(pool.Acc()) && b.Value() == old(b.Value())
    {
      hide MemPool.Valid, Owned, Numbered, Sizes, Alloc, GiveBack, FreeKb, Datas, Chunk.Contents;
      OwnedWithout(owner, buffers, b);
      HeldIsValid(pool, b.chunk);
      var c;
      outcome, c := CopyOut(b, n);
      if c != null {
        HeldIsValid(pool, c);
        Replace(b, c);
      }
    }

    /** A chunk with room for `n` more bytes: a first one, a larger one or the one there is. */
    method MakeRoom(b: Buffer, n: nat) returns (outcome: Outcome)
      requires Ready(b)
      modifies this`owner, this`end, pool, pool.free, Datas(pool.free), b`chunk, b.chunk
      ensures Ready(b) && Here(b) == Room(old(Here(b)), n).0
      ensures outcome.Allocated? <==> Room(old(Here(b)), n).1
      ensures outcome.TooLarge? <==> |old(Here(b)).buf.bytes| + n > MEM_UP
      ensures end == if outcome.Exhausted? then AtLimit else old(end)
      ensures !outcome.Allocated? ==> b.chunk == old(b.chunk)
      ensures Swapped(b)
    {
      hide MemPool.Valid, Owned, Numbered, Sizes, Alloc, GiveBack, FreeKb, Datas, Buffer.Valid, Buffer.Value, Chunk.Contents, Room, Linked, LocalOk, Swapped;
      BufferIsValid(b);
      ghost var l := Here(b);
      ValueOf(b);
      RoomCases(l, n);
      NotSwapped(b);
      if b.chunk == null {
        outcome := Acquire(b, n);
      } else if b.chunk.capacity - b.chunk.length < n {
        outcome := Grow(b, n + b.chunk.length);
      } else {
        outcome := Allocated;
      }
      if outcome == Exhausted { end := AtLimit; }
    }

    /** The `memcpy` at the end of a write. */
    method AppendHeld(c: Chunk, bytes: seq<byte>)
      requires pool.Valid() && c in pool.held && c.Valid() && c.head == 0 && c.length + |bytes| <= c.capacity
      modifies c`length, c.data
      ensures pool.Valid() && pool.Acc() == old(pool.Acc())
      ensures c.Valid() && c.Contents() == old(c.Contents()) + bytes
    {
      hide MemPool.Valid, Sizes;
      pool.Open(c);
      c.Append(bytes);
      pool.Close(c);
    }

    method PopHeld(c: Chunk, len: nat)
      requires pool.Valid() && c in pool.held && c.Valid() && len <= c.length
      modifies c`length, c`head
      ensures pool.Valid() && pool.Acc() == old(pool.Acc())
      ensures c.Valid() && c.head == old(c.head) + len && c.Contents() == old(c.Contents())[len..]
    {
      hide MemPool.Valid, Sizes;
      pool.Open(c);
      c.Pop(len);
      pool.Close(c);
    }

    method AdjustHeld(c: Chunk)
      requires pool.Valid() && c in pool.held && c.Valid()
      modifies c`head, c.data
      ensures pool.Valid() && pool.Acc() == old(pool.Acc())
      ensures c.Valid() && c.head == 0 && c.Contents() == old(c.Contents())
    {
      hide MemPool.Valid, Sizes;
      pool.Open(c);
      c.Adjust();
      pool.Close(c);
    }

    method AppendTo(b: Buffer, bytes: seq<byte>)
      requires Ready(b) && b.chunk != null
      requires b.chunk.head == 0 && b.chunk.length + |bytes| <= b.chunk.capacity
      modifies b.chunk`length, b.chunk.data
      ensures Ready(b) && Here(b) == Append(old(Here(b)), bytes)
    {
      hide MemPool.Valid, Owned, Numbered, Sizes, Alloc, GiveBack, FreeKb, Datas, Chunk.Contents;
      BufferIsValid(b);
      AppendHeld(b.chunk, bytes);
    }

    method SkipIn(b: Buffer, len: nat)
      requires Ready(b) && b.chunk != null && len <= b.chunk.length
      modifies b.chunk`length, b.chunk`head
      ensures Linked() && |old(Here(b)).buf.bytes| == old(b.chunk.length) && Here(b) == Skip(old(Here(b)), len)
    {
      hide MemPool.Valid, Owned, Numbered, Sizes, Alloc, GiveBack, FreeKb, Datas, Chunk.Contents;
      BufferIsValid(b);
      PopHeld(b.chunk, len);
    }

    method MoveToFront(b: Buffer)
      requires Ready(b) && b.chunk != null
      modifies b.chunk`head, b.chunk.data
      ensures Ready(b) && Here(b) == ToFront(old(Here(b)))
    {
      hide MemPool.Valid, Owned, Numbered, Sizes, Alloc, GiveBack, FreeKb, Datas, Chunk.Contents;
      BufferIsValid(b);
      AdjustHeld(b.chunk);
    }

    method Detach(b: Buffer)
      requires Linked() && b in buffers && b.chunk != null
      modifies this`owner, pool, b`chunk, b.chunk
      ensures Linked() && b.chunk == null
      ensures pool.free == old(pool.free) + {old(b.chunk)} && pool.held == old(pool.held) - {old(b.chunk)}
      ensures old(b.chunk).capacity in Sizes() && pool.Acc() == GiveBack(old(pool.Acc()), old(b.chunk).capacity)
    {
      hide MemPool.Valid, Owned, Numbered, Sizes, Alloc, GiveBack, FreeKb;
      var last := b.chunk;
      OwnedWithout(owner, buffers, b);
      pool.Retrieve(last);
      b.chunk := null;
      OwnedWith(owner - {last}, buffers - {b}, b);
      assert buffers - {b} + {b} == buffers;
      owner := owner - {last};
    }

    /** `retrieve` on the chunk of the buffer, if it has one. */
    method Drop(b: Buffer)
      requires Ready(b)
      modifies this`owner, pool, b`chunk, b.chunk
      ensures Linked() && b.chunk == null && Here(b) == Release(old(Here(b)))
      ensures pool.free == old(pool.free) + old(b.Kept()) && pool.held == old(pool.held) - old(b.Kept())
    {
      hide MemPool.Valid, Owned, Numbered, Sizes, Alloc, GiveBack, FreeKb;
      BufferIsValid(b);
      if b.chunk != null { Detach(b); }
    }

    // -------------------------------------------------------------- the calls, on one buffer

    method WriteHere(b: Buffer, bytes: seq<byte>, ghost l: Local) returns (outcome: Outcome)
      requires Ready(b) && l == Here(b) && LocalOk(l)
      modifies this`owner, this`end, pool, pool.free, Datas(pool.free), b`chunk, b.chunk, Datas(b.Kept())
      ensures Ready(b) && Here(b) == DoWrite(l, bytes) && Swapped(b)
      ensures end.Going? ==> (outcome.TooLarge? <==> |l.buf.bytes| + |bytes| > MEM_UP)
      ensures l.end.Going? ==> (outcome.Exhausted? <==> end.AtLimit?)
      ensures !outcome.Allocated? ==> b.chunk == old(b.chunk)
    {
      hide MemPool.Valid, Owned, Numbered, Sizes, Alloc, GiveBack, FreeKb, Datas, Buffer.Valid, Buffer.Value, Chunk.Contents, Room, Linked, LocalOk;
      BufferIsValid(b);
      ValueOf(b);
      outcome := Allocated;
      if b.chunk != null && b.chunk.head != 0 {
        end := AssertFailed;
        return;
      }
      RoomKeeps(l, |bytes|);
      outcome := MakeRoom(b, |bytes|);
      BufferIsValid(b);
      ValueOf(b);
      if outcome.Allocated? {
        DataIn(b.chunk, b.Kept());
        if b.chunk in old(pool.free) { DataIn(b.chunk, old(pool.free)); }
        AppendTo(b, bytes);
      }
    }

    method ReadHere(b: Buffer, need: nat, got: seq<byte>, ghost l: Local) returns (outcome: Outcome)
      requires Ready(b) && l == Here(b) && LocalOk(l) && |got| <= need
      modifies this`owner, this`end, pool, pool.free, Datas(pool.free), b`chunk, b.chunk, Datas(b.Kept())
      ensures Ready(b) && Here(b) == DoRead(l, need, got) && Swapped(b)
      ensures end.Going? ==> (outcome.TooLarge? <==> |l.buf.bytes| + need > MEM_UP)
      ensures l.end.Going? ==> (outcome.Exhausted? <==> end.AtLimit?)
      ensures !outcome.Allocated? ==> b.chunk == old(b.chunk)
    {
      hide MemPool.Valid, Owned, Numbered, Sizes, Alloc, GiveBack, FreeKb, Datas, Buffer.Valid, Buffer.Value, Chunk.Contents, Room, Linked, LocalOk;
      BufferIsValid(b);
      ValueOf(b);
      outcome := Allocated;
      if b.chunk != null && b.chunk.head != 0 {
        end := AssertFailed;
        return;
      }
      RoomKeeps(l, need);
      outcome := MakeRoom(b, need);
      BufferIsValid(b);
      ValueOf(b);
      if outcome.Allocated? {
        AppendNothing(Here(b));
        if |got| > 0 && |got| != need {
          end := AssertFailed;
        } else if |got| > 0 {
          DataIn(b.chunk, b.Kept());
          if b.chunk in old(pool.free) { DataIn(b.chunk, old(pool.free)); }
          AppendTo(b, got);
        }
      }
    }

    method FlushHere(b: Buffer, written: nat, ghost l: Local)
      requires Ready(b) && l == Here(b) && LocalOk(l) && written <= |l.buf.bytes|
      modifies this`end, b.chunk, Datas(b.Kept())
      ensures Ready(b) && Here(b) == DoFlush(l, written) && Swapped(b)
    {
      hide MemPool.Valid, Owned, Numbered, Sizes, Alloc, GiveBack, FreeKb, Datas, Buffer.Valid, Buffer.Value, Chunk.Contents, Room, Linked, LocalOk;
      BufferIsValid(b);
      ValueOf(b);
      if b.chunk == null || b.chunk.head != 0 {
        end := AssertFailed;
      } else if written > 0 {
        SkipIn(b, written);
        DataIn(b.chunk, b.Kept());
        MoveToFront(b);
      }
    }

    method PopHere(b: Buffer, len: nat, ghost l: Local)
      requires Ready(b) && l == Here(b) && LocalOk(l)
      modifies this`owner, this`end, pool, b`chunk, b.chunk
      ensures Ready(b) && Here(b) == DoPop(l, len) && Swapped(b)
    {
      hide MemPool.Valid, Owned, Numbered, Sizes, Alloc, GiveBack, FreeKb, Datas, Buffer.Valid, Buffer.Value, Chunk.Contents, Room, Linked, LocalOk;
      BufferIsValid(b);
      ValueOf(b);
      if b.chunk == null || len > b.chunk.length {
        end := AssertFailed;
      } else {
        SkipIn(b, len);
        BufferIsValid(b);
        ValueOf(b);
        if b.chunk.length == 0 {
          ReleaseOfSkip(l, len);
          Drop(b);
        }
      }
    }

    method AdjustHere(b: Buffer, ghost l: Local)
      requires Ready(b) && l == Here(b) && LocalOk(l)
      modifies b.chunk, Datas(b.Kept())
      ensures Ready(b) && Here(b) == ToFront(l) && Swapped(b)
    {
      hide MemPool.Valid, Owned, Numbered, Sizes, Alloc, GiveBack, FreeKb, Datas, Buffer.Valid, Buffer.Value, Chunk.Contents, Room, Linked, LocalOk;
      BufferIsValid(b);
      ValueOf(b);
      if b.chunk != null {
        DataIn(b.chunk, b.Kept());
        MoveToFront(b);
      }
    }

    // -------------------------------------------------------------- all buffers

    /** The buffers other than `b` have no part in what happens to `b` and to the free chunks. */
    lemma OthersAreApart(b: Buffer)
      requires Linked() && b in buffers
      ensures forall d :: d in buffers && d != b && d.chunk != null ==>
        d.chunk != b.chunk && d.chunk in pool.held && d.chunk !in pool.free && d.chunk.data !in Datas(pool.free)
        && d.chunk.data !in Datas(b.Kept())
      ensures b.Kept() <= pool.held
    {
      forall d | d in buffers && d.chunk != null
        ensures d.chunk in pool.held
      {
        OwnedWithout(owner, buffers, d);
      }
    }

    /** What the calls on buffer `i` start from. */
    lemma Made(b: Buffer, i: nat)
      requires Linked() && i < |made| && made[i] == b && b.alive
      ensures b in buffers && Alive(Value(), i) && Value().bufs[i].kind == b.kind && At(Value(), i) == Here(b)
      ensures forall j :: 0 <= j < |made| ==> made[j] in buffers && (j != i ==> made[j] != b)
      ensures b.Kept() <= pool.held && Datas(b.Kept()) <= Datas(pool.held)
    {
      forall j | 0 <= j < |made|
        ensures made[j] in buffers && (j != i ==> made[j] != b)
      {
        MadeAreBuffers(made, buffers, i, j);
      }
      OwnedWithout(owner, buffers, b);
    }

    /** Only `b` differs from `s`. */
    lemma Lifted(s: State, b: Buffer, i: nat)
      requires Linked() && i < |made| == |s.bufs| && made[i] == b && b in buffers && b.alive
      requires forall j :: 0 <= j < |made| && j != i ==> BufAt(j) == s.bufs[j]
      ensures Value() == With(s, i, Here(b))
    {
      assert BufAt(i) == Here(b).buf;
      assert Value().bufs == With(s, i, Here(b)).bufs;
    }

    /** One call on buffer `i`, seen from all. */
    lemma Finished(s: State, b: Buffer, i: nat, op: Op)
      requires Linked() && i < |made| == |s.bufs| && made[i] == b && b in buffers && b.alive
      requires Sound(s) && s.end.Going? && Usable(s, op) && !op.New? && op.b == i
      requires forall j :: 0 <= j < |made| && j != i ==> BufAt(j) == s.bufs[j]
      requires Here(b) == OnBuffer(s, op)
      ensures Valid() && Value() == Apply(s, op)
    {
      hide MemPool.Valid, Owned, Numbered, Sizes, FreeKb, OnBuffer, Sound, Linked;
      Lifted(s, b, i);
      ApplyIsSound(s, op);
    }

    ghost function OneChunk(c: Chunk?): set<object> { if c == null then {} else {c, c.data} }

    /** Where the objects come from after a call on `b`. */
    lemma ReprIs(free: set<Chunk>, held: set<Chunk>, b: Buffer)
      requires pool.free + pool.held <= free + held + b.Kept()
      ensures Repr() <= {this, pool} + free + held + Datas(free) + Datas(held) + buffers + OneChunk(b.chunk)
      ensures b.chunk != null && b.chunk in free ==> b.chunk.data in Datas(free)
      ensures b.chunk != null && b.chunk in held ==> b.chunk.data in Datas(held)
    {}

    /** `write_to_buf`; -1 is the outcome `TooLarge`. After `AssertFailed` and `AtLimit` the process is over. */
    method WriteToBuf(b: Buffer, bytes: seq<byte>, ghost i: nat) returns (outcome: Outcome)
      requires Valid() && i < |made| && made[i] == b && b.alive && b.kind.Output? && end.Going?
      modifies Repr()
      ensures Valid() && Value() == Apply(old(Value()), Write(i, bytes))
      ensures made == old(made) && buffers == old(buffers) && b.alive && Swapped(b) && fresh(Repr() - old(Repr()))
      ensures end.Going? ==> (outcome.TooLarge? <==> |old(Value().bufs[i]).bytes| + |bytes| > MEM_UP)
      ensures (outcome.Exhausted? <==> end.AtLimit?) && (!outcome.Allocated? ==> b.chunk == old(b.chunk))
    {
      hide MemPool.Valid, Owned, Numbered, Sizes, Alloc, GiveBack, FreeKb, Datas, Buffer.Valid, Buffer.Value, Chunk.Contents, Room, Linked, LocalOk, Sound, Apply, Value, DoWrite;
      Made(b, i);
      ghost var s := Value();
      OthersAreApart(b);
      outcome := WriteHere(b, bytes, Here(b));
      forall j | 0 <= j < |made| && j != i
        ensures BufAt(j) == s.bufs[j]
      {}
      Finished(s, b, i, Write(i, bytes));
      ReprIs(old(pool.free), old(pool.held), b);
    }

    /** `read_from_fd`, with what `ioctl` announces and what `read` delivers. */
    method ReadFromFd(b: Buffer, need: nat, got: seq<byte>, ghost i: nat) returns (outcome: Outcome)
      requires Valid() && i < |made| && made[i] == b && b.alive && b.kind.Input? && end.Going? && |got| <= need
      modifies Repr()
      ensures Valid() && Value() == Apply(old(Value()), Read(i, need, got))
      ensures made == old(made) && buffers == old(buffers) && b.alive && Swapped(b) && fresh(Repr() - old(Repr()))
      ensures end.Going? ==> (outcome.TooLarge? <==> |old(Value().bufs[i]).bytes| + need > MEM_UP)
      ensures (outcome.Exhausted? <==> end.AtLimit?) && (!outcome.Allocated? ==> b.chunk == old(b.chunk))
    {
      hide MemPool.Valid, Owned, Numbered, Sizes, Alloc, GiveBack, FreeKb, Datas, Buffer.Valid, Buffer.Value, Chunk.Contents, Room, Linked, LocalOk, Sound, Apply, Value, DoRead;
      Made(b, i);
      ghost var s := Value();
      OthersAreApart(b);
      outcome := ReadHere(b, need, got, Here(b));
      forall j | 0 <= j < |made| && j != i
        ensures BufAt(j) == s.bufs[j]
      {}
      Finished(s, b, i, Read(i, need, got));
      ReprIs(old(pool.free), old(pool.held), b);
    }

    /** `write_to_fd`, with the number of bytes `write` took. */
    method WriteToFd(b: Buffer, written: nat, ghost i: nat)
      requires Valid() && i < |made| && made[i] == b && b.alive && b.kind.Output? && end.Going? && written <= |BufAt(i).bytes|
      modifies Repr()
      ensures Valid() && Value() == Apply(old(Value()), Flush(i, written))
      ensures made == old(made) && buffers == old(buffers) && b.alive && Swapped(b) && fresh(Repr() - old(Repr()))
    {
      hide MemPool.Valid, Owned, Numbered, Sizes, Alloc, GiveBack, FreeKb, Datas, Buffer.Valid, Buffer.Value, Chunk.Contents, Room, Linked, LocalOk, Sound, Apply, Value, DoFlush;
      Made(b, i);
      ghost var s := Value();
      OthersAreApart(b);
      FlushHere(b, written, Here(b));
      forall j | 0 <= j < |made| && j != i
        ensures BufAt(j) == s.bufs[j]
      {}
      Finished(s, b, i, Flush(i, written));
      ReprIs(old(pool.free), old(pool.held), b);
    }

    /** `pop`: an emptied chunk goes back to the pool. */
    method Pop(b: Buffer, len: nat, ghost i: nat)
      requires Valid() && i < |made| && made[i] == b && b.alive && end.Going?
      modifies Repr()
      ensures Valid() && Value() == Apply(old(Value()), Op.Pop(i, len))
      ensures made == old(made) && buffers == old(buffers) && b.alive && Swapped(b) && fresh(Repr() - old(Repr()))
    {
      hide MemPool.Valid, Owned, Numbered, Sizes, Alloc, GiveBack, FreeKb, Datas, Buffer.Valid, Buffer.Value, Chunk.Contents, Room, Linked, LocalOk, Sound, Apply, Value, DoPop;
      Made(b, i);
      ghost var s := Value();
      OthersAreApart(b);
      PopHere(b, len, Here(b));
      forall j | 0 <= j < |made| && j != i
        ensures BufAt(j) == s.bufs[j]
      {}
      Finished(s, b, i, Op.Pop(i, len));
      ReprIs(old(pool.free), old(pool.held), b);
    }

    /** `clear`. */
    method Clear(b: Buffer, ghost i: nat)
      requires Valid() && i < |made| && made[i] == b && b.alive && end.Going?
      modifies Repr()
      ensures Valid() && Value() == Apply(old(Value()), Op.Clear(i))
      ensures made == old(made) && buffers == old(buffers) && b.alive && Swapped(b) && fresh(Repr() - old(Repr()))
    {
      hide MemPool.Valid, Owned, Numbered, Sizes, Alloc, GiveBack, FreeKb, Datas, Buffer.Valid, Buffer.Value, Chunk.Contents, Room, Linked, LocalOk, Sound, Apply, Value, Release;
      Made(b, i);
      ghost var s := Value();
      OthersAreApart(b);
      Drop(b);
      forall j | 0 <= j < |made| && j != i
        ensures BufAt(j) == s.bufs[j]
      {}
      Finished(s, b, i, Op.Clear(i));
      ReprIs(old(pool.free), old(pool.held), b);
    }

    /** `adjust`, of input buffers only. */
    method Adjust(b: Buffer, ghost i: nat)
      requires Valid() && i < |made| && made[i] == b && b.alive && b.kind.Input? && end.Going?
      modifies Repr()
      ensures Valid() && Value() == Apply(old(Value()), Op.Adjust(i))
      ensures made == old(made) && buffers == old(buffers) && b.alive && Swapped(b) && fresh(Repr() - old(Repr()))
    {
      hide MemPool.Valid, Owned, Numbered, Sizes, Alloc, GiveBack, FreeKb, Datas, Buffer.Valid, Buffer.Value, Chunk.Contents, Room, Linked, LocalOk, Sound, Apply, Value, ToFront;
      Made(b, i);
      ghost var s := Value();
      OthersAreApart(b);
      AdjustHere(b, Here(b));
      forall j | 0 <= j < |made| && j != i
        ensures BufAt(j) == s.bufs[j]
      {}
      Finished(s, b, i, Op.Adjust(i));
      ReprIs(old(pool.free), old(pool.held), b);
    }

    /** The destructor. */
    method Destroy(b: Buffer, ghost i: nat)
      requires Valid() && i < |made| && made[i] == b && b.alive && end.Going?
      modifies Repr()
      ensures Valid() && Value() == Apply(old(Value()), Op.Destroy(i)) && b.chunk == null && !b.alive
      ensures made == old(made) && buffers == old(buffers) && Swapped(b) && fresh(Repr() - old(Repr()))
    {
      hide MemPool.Valid, Owned, Numbered, Sizes, Alloc, GiveBack, FreeKb, Datas, Buffer.Valid, Buffer.Value, Chunk.Contents, Room, Linked, LocalOk, Sound, Apply, Value, Release;
      Made(b, i);
      ghost var s := Value();
      OthersAreApart(b);
      Drop(b);
      ghost var l := Here(b);
      Made(b, i);
      EmptyIsLinked(b, i);
      b.alive := false;
      forall j | 0 <= j < |made| && j != i
        ensures BufAt(j) == s.bufs[j]
      {}
      EmptyIsLinked(b, i);
      Destroyed(s, b, i, l);
      ReprIs(old(pool.free), old(pool.held), b);
    }

    lemma EmptyIsLinked(b: Buffer, i: nat)
      requires Linked() && i < |made| && made[i] == b && b.chunk == null
      ensures BufAt(i) == Buf(b.kind, b.alive, 0, 0, [])
    {}

    lemma Destroyed(s: State, b: Buffer, i: nat, l: Local)
      requires Linked() && i < |made| == |s.bufs| && made[i] == b
      requires Sound(s) && s.end.Going? && Usable(s, Op.Destroy(i)) && l == Release(At(s, i))
      requires forall j :: 0 <= j < |made| && j != i ==> BufAt(j) == s.bufs[j]
      requires BufAt(i) == l.buf.(alive := false) && pool.Acc() == l.acc && end == l.end
      ensures Valid() && Value() == Apply(s, Op.Destroy(i))
    {
      hide MemPool.Valid, Owned, Numbered, Sizes, FreeKb, Release, Sound, Linked;
      assert Value().bufs == Apply(s, Op.Destroy(i)).bufs;
      ApplyIsSound(s, Op.Destroy(i));
    }

    method NewBuffer(kind: Kind) returns (b: Buffer)
      requires Valid() && end.Going?
      modifies this`made, this`buffers
      ensures Valid() && Value() == Apply(old(Value()), New(kind))
      ensures fresh(b) && b.alive && b.kind == kind && b.chunk == null && made == old(made) + [b] && fresh(Repr() - old(Repr()))
    {
      hide MemPool.Valid, Owned, Numbered, Sizes, FreeKb, Datas, Sound;
      ghost var s := Value();
      b := new Buffer(kind);
      OwnedWith(owner, buffers, b);
      NumberedWith(made, buffers, b);
      made, buffers := made + [b], buffers + {b};
      forall j | 0 <= j < |s.bufs|
        ensures BufAt(j) == s.bufs[j]
      {}
      EmptyIsLinked(b, |s.bufs|);
      assert Value().bufs == s.bufs + [Buf(kind, true, 0, 0, [])];
      ApplyIsSound(s, New(kind));
    }

    /** `length`. */
    method Length(b: Buffer, ghost i: nat) returns (n: nat)
      requires Valid() && i < |made| && made[i] == b
      ensures n == |Value().bufs[i].bytes|
    {
      n := LengthOf(b, i);
    }

    function LengthOf(b: Buffer, ghost i: nat): (n: nat)
      requires Linked() && i < |made| && made[i] == b
      reads this, pool, pool.free, pool.held, Datas(pool.held), buffers
      ensures n == |BufAt(i).bytes|
    {
      MadeAreBuffers(made, buffers, i, i);
      BufferIsValid(b);
      if b.chunk != null then b.chunk.length else 0
    }

    lemma UsableIs(i: nat)
      requires Linked()
      ensures Alive(Value(), i) <==> i < |made| && made[i].alive
      ensures i < |made| ==> made[i] in buffers && Value().bufs[i].kind == made[i].kind
    {
      if i < |made| { MadeAreBuffers(made, buffers, i, i); }
    }

    /** Any call; one that the types or the lifetime of the buffer rule out, or that comes after the end, is not made. */
    method Step(op: Op)
      requires Valid()
      modifies Repr()
      ensures Valid() && Value() == Apply(old(Value()), op) && fresh(Repr() - old(Repr()))
    {
      hide MemPool.Valid, Owned, Numbered, Sizes, Alloc, GiveBack, FreeKb, Datas, Buffer.Valid, Buffer.Value, Chunk.Contents, Room, Linked, LocalOk, Sound, OnBuffer, Swapped;
      if !end.Going? { return; }
      match op {
        case New(kind) =>
          var _ := NewBuffer(kind);
        case Write(i, bytes) =>
          UsableIs(i);
          if i < |made| && made[i].alive && made[i].kind.Output? { var _ := WriteToBuf(made[i], bytes, i); }
        case Read(i, need, got) =>
          UsableIs(i);
          if i < |made| && made[i].alive && made[i].kind.Input? && |got| <= need {
            var _ := ReadFromFd(made[i], need, got, i);
          }
        case Flush(i, written) =>
          UsableIs(i);
          if i < |made| && made[i].alive && made[i].kind.Output? && written <= LengthOf(made[i], i) {
            WriteToFd(made[i], written, i);
          }
        case Pop(i, len) =>
          UsableIs(i);
          if i < |made| && made[i].alive { this.Pop(made[i], len, i); }
        case Clear(i) =>
          UsableIs(i);
          if i < |made| && made[i].alive { this.Clear(made[i], i); }
        case Adjust(i) =>
          UsableIs(i);
          if i < |made| && made[i].alive && made[i].kind.Input? { this.Adjust(made[i], i); }
        case Destroy(i) =>
          UsableIs(i);
          if i < |made| && made[i].alive { this.Destroy(made[i], i); }
      }
    }
  }

  lemma AppendNothing(l: Local)
    ensures Append(l, []) == l
  {
    assert l.buf.bytes + [] == l.buf.bytes;
  }

  /** `pop` moves the head first and gives the chunk back then. */
  lemma ReleaseOfSkip(l: Local, len: nat)
    requires LocalOk(l) && l.buf.capacity != 0 && len == |l.buf.bytes|
    ensures LocalOk(Skip(l, len)) && Release(Skip(l, len)) == Release(l) && Skip(l, len).buf.bytes == []
  {}

  lemma RoomCases(l: Local, n: nat)
    requires LocalOk(l)
    ensures l.buf.capacity != 0 && n <= l.buf.capacity - |l.buf.bytes| ==> Room(l, n) == (l, true)
    ensures l.buf.capacity == 0 ==> l.buf.bytes == [] && l.buf.head == 0
    ensures !(l.buf.capacity != 0 && n <= l.buf.capacity - |l.buf.bytes|) ==>
      match Alloc(l.acc, n + |l.buf.bytes|)
      case Granted(size, acc) =>
        Room(l, n) == (Local(if l.buf.capacity == 0 then acc else GiveBack(acc, l.buf.capacity),
                             l.buf.(capacity := size, head := 0), l.end), true)
      case Refused => Room(l, n) == (l, false)
      case OutOfMemory => Room(l, n) == (l.(end := AtLimit), false)
  {}

  lemma GrantHolds(a: Accounts, n: int)
    requires Covers(a) && Alloc(a, n).Granted?
    ensures n <= Alloc(a, n).size
  {}

  lemma StartIsSound()
    ensures Sound(Start())
  {}

  /** Any sequence of calls on a new pool: the chunks and buffers are what the calls on values say. */
  method Run(ops: seq<Op>) returns (w: World)
    ensures fresh(w) && fresh(w.Repr()) && w.Valid() && w.Value() == After(ops)
  {
    hide After, Sound, Apply, World.Value, World.Linked, World.Repr, Datas, MemPool.Valid;
    w := new World();
    AfterNone();
    for i := 0 to |ops|
      invariant fresh(w) && fresh(w.Repr()) && w.Valid() && w.Value() == After(ops[..i])
    {
      ghost var before := w.Repr();
      label Called:
      w.Step(ops[i]);
      assert fresh@Called(w.Repr() - before);
      forall o | o in w.Repr()
        ensures fresh(o)
      {
        if o !in before {
          assert o in w.Repr() - before;
          assert !old@Called(allocated(o));
        }
      }
      assert ops[..i + 1] == ops[..i] + [ops[i]];
      AfterOneMore(ops[..i], ops[i]);
    }
    assert ops[..|ops|] == ops;
  }

  lemma AfterNone()
    ensures After([]) == Start()
  {}

  // ---------------------------------------------------------------- what holds in every state of a run

  /** A chunk is held by exactly one buffer, or free and held by none. */
  lemma HeldByOneBuffer(w: World, c: Chunk)
    requires w.Valid() && c in w.pool.free + w.pool.held
    ensures c in w.pool.held <==> exists b :: b in w.buffers && b.chunk == c
    ensures forall b, d :: b in w.buffers && d in w.buffers && b.chunk == c && d.chunk == c ==> b == d
  {
    hide MemPool.Valid, Sound, Sizes, FreeKb;
    if c in w.pool.held {
      assert w.owner[c] in w.buffers && w.owner[c].chunk == c;
    }
    forall b | b in w.buffers && b.chunk == c
      ensures c in w.pool.held
    {
      w.BufferIsValid(b);
    }
  }

  /** No two buffers share bytes, and none shares them with a free chunk. */
  lemma BuffersAreApart(w: World, b: Buffer, d: Buffer)
    requires w.Valid() && b in w.buffers && d in w.buffers && b != d && d.chunk != null
    ensures d.chunk != b.chunk && d.chunk !in w.pool.free && d.chunk.data !in Datas(w.pool.free)
    ensures b.chunk != null ==> d.chunk.data != b.chunk.data
  {
    hide MemPool.Valid, Sound, Sizes, FreeKb, Datas;
    w.OthersAreApart(b);
    w.BufferIsValid(b);
    w.BufferIsValid(d);
    if b.chunk != null { HeldAreApart(w.pool, b.chunk, d.chunk); }
  }
}
