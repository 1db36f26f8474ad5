/** The pool that hands out chunks: free lists by size class and the accounts in kilobytes. */
module MemoryPool {
  import opened MemoryChunk
  import opened PoolSpec

  // ---------------------------------------------------------------- size classes

  /** The smallest size class that holds `n` bytes. */
  method FindClass(n: int) returns (found: bool, index: nat)
    ensures found <==> n <= MEM_UP
    ensures found ==> IsClass(index, n)
  {
    index := MEM_LOW;
    while index <= MEM_UP
      invariant index in Sizes() || index == 4 * MEM_UP
      invariant forall s :: s in Sizes() && s < index ==> s < n
      decreases 4 * MEM_UP - index
    {
      if n <= index { return true, index; }
      index := index * 4;
    }
    found := false;
  }

  // ---------------------------------------------------------------- the pool

  /** `lists` are the chunks of `free`, by size. */
  ghost predicate Sorted(lists: map<nat, seq<Chunk>>, free: set<Chunk>) {
    && (forall s, c :: s in lists && c in lists[s] ==> c in free && c.capacity == s)
    && (forall c :: c in free ==> c.capacity in lists && c in lists[c.capacity])
  }

  /** Each list is linked from its entry in the pool. */
  ghost predicate Links(pool: map<nat, Chunk?>, lists: map<nat, seq<Chunk>>, free: set<Chunk>)
    requires pool.Keys == lists.Keys
    reads free`next
  {
    forall s :: s in lists ==> (forall c :: c in lists[s] ==> c in free) && Linked(pool[s], lists[s])
  }

  ghost predicate Emptied(free: set<Chunk>)
    reads free`length, free`head
  {
    forall c :: c in free ==> c.length == 0 && c.head == 0
  }

  ghost predicate InUse(held: set<Chunk>)
    reads held
  {
    forall c :: c in held ==> c.next == null && c.head + c.length <= c.capacity
  }

  /** No two chunks share their bytes. */
  ghost predicate Separate(chunks: set<Chunk>) {
    && (forall c :: c in chunks ==> c.data.Length == c.capacity && c.capacity in Sizes())
    && (forall c, d :: c in chunks && d in chunks && c.data == d.data ==> c == d)
  }

  lemma FirstIsFree(pool: map<nat, Chunk?>, lists: map<nat, seq<Chunk>>, free: set<Chunk>, index: nat)
    requires pool.Keys == lists.Keys && Sorted(lists, free) && Links(pool, lists, free) && index in lists && pool[index] != null
    ensures lists[index] != [] && lists[index][0] == pool[index]
    ensures pool[index] in free && pool[index].capacity == index
  {}

  lemma EmptyIsNull(pool: map<nat, Chunk?>, lists: map<nat, seq<Chunk>>, free: set<Chunk>, index: nat)
    requires pool.Keys == lists.Keys && Links(pool, lists, free) && index in lists
    ensures pool[index] == null <==> lists[index] == []
  {}

  lemma WithoutFirst(pool: map<nat, Chunk?>, lists: map<nat, seq<Chunk>>, free: set<Chunk>, index: nat)
    requires pool.Keys == lists.Keys && Sorted(lists, free) && Links(pool, lists, free) && index in lists && lists[index] != []
    ensures var c, rest := lists[index][0], lists[index][1..];
      && Sorted(lists[index := rest], free - {c})
      && Links(pool[index := c.next], lists[index := rest], free - {c})
  {
    var list := lists[index];
    var c, rest := list[0], list[1..];
    LinkedRest(pool[index], list);
    forall k | 1 <= k < |list|
      ensures list[k] != c
    {
      LinkedIsAcyclic(pool[index], list, 0, k);
    }
    assert list == [c] + rest;
    assert c !in rest;
  }

  lemma WithFirst(pool: map<nat, Chunk?>, lists: map<nat, seq<Chunk>>, free: set<Chunk>, c: Chunk)
    requires pool.Keys == lists.Keys && Sorted(lists, free) && Links(pool, lists, free) && c.capacity in lists && c !in free && c.next == pool[c.capacity]
    ensures var list := [c] + lists[c.capacity];
      && Sorted(lists[c.capacity := list], free + {c})
      && Links(pool[c.capacity := c], lists[c.capacity := list], free + {c})
  {
    hide Linked, Sizes;
    var index := c.capacity;
    LinkedFirst(c, lists[index]);
    assert forall d :: d in [c] + lists[index] <==> d == c || d in lists[index];
  }

  lemma SeparateWith(chunks: set<Chunk>, c: Chunk)
    requires Separate(chunks) && c.data.Length == c.capacity && c.capacity in Sizes()
    requires forall d :: d in chunks ==> d.data != c.data
    ensures Separate(chunks + {c})
  {}

  lemma SizeIsKnown(chunks: set<Chunk>, c: Chunk)
    requires Separate(chunks) && c in chunks
    ensures c.capacity in Sizes()
  {}

  lemma TakenIsInUse(free: set<Chunk>, held: set<Chunk>, c: Chunk)
    requires Emptied(free) && InUse(held) && c in free && c.next == null
    ensures Emptied(free - {c}) && InUse(held + {c}) && c.length == 0 && c.head == 0
  {}

  lemma GivenIsFree(free: set<Chunk>, held: set<Chunk>, c: Chunk)
    requires Emptied(free) && InUse(held - {c}) && c.length == 0 && c.head == 0
    ensures Emptied(free + {c})
  {}

  lemma InUseWith(held: set<Chunk>, c: Chunk)
    requires InUse(held) && c.next == null && c.head + c.length <= c.capacity
    ensures InUse(held + {c})
  {}

  lemma InUseWithout(held: set<Chunk>, c: Chunk)
    requires InUse(held)
    ensures InUse(held - {c})
  {}

  // ---------------------------------------------------------------- the first chunks

  ghost function SetOf(chain: seq<Chunk>): set<Chunk> { set c | c in chain }

  /** New chunks of one size. */
  ghost predicate Unused(chain: seq<Chunk>, size: nat)
    reads chain
  {
    && (forall c :: c in chain ==> c.capacity == c.data.Length == size && c.length == 0 && c.head == 0)
    && (forall i, j :: 0 <= i < j < |chain| ==> chain[i].data != chain[j].data)
  }

  method NewChain(size: nat, n: nat) returns (first: Chunk, ghost chain: seq<Chunk>)
    requires n >= 1
    ensures |chain| == n && Linked(first, chain) && Unused(chain, size)
    ensures forall c :: c in chain ==> fresh(c) && fresh(c.data)
  {
    first := new Chunk(size);
    chain := [first];
    var prev := first;
    for i := 1 to n
      invariant |chain| == i && chain[i - 1] == prev
      invariant Linked(first, chain) && Unused(chain, size)
      invariant forall c :: c in chain ==> fresh(c) && fresh(c.data)
    {
      var c := new Chunk(size);
      prev.next := c;
      chain := chain + [c];
      prev := c;
    }
  }

  lemma NothingYet()
    ensures Sorted(map[], {}) && Links(map[], map[], {}) && Emptied({}) && InUse({}) && Separate({} + {}) && Kb({} + {}) == 0
    ensures Counts(map[]) == map[]
  {
    var none: set<Chunk> := {};
    assert none + none == none;
  }

  lemma {:induction false} KbOfChain(s: set<Chunk>, chain: seq<Chunk>, size: nat)
    requires Unused(chain, size) && forall c :: c in chain ==> c !in s
    ensures Kb(s + SetOf(chain)) == Kb(s) + |chain| * (size / 1024)
    decreases |chain|
  {
    if chain == [] {
      assert s + SetOf(chain) == s;
    } else {
      var c, rest := chain[0], chain[1..];
      assert forall d :: d in rest ==> d in chain;
      forall i | 0 <= i < |rest|
        ensures rest[i] != c
      {
        assert chain[i + 1].data != chain[0].data;
      }
      KbWith(s, c);
      assert Unused(rest, size);
      KbOfChain(s + {c}, rest, size);
      assert s + SetOf(chain) == s + {c} + SetOf(rest);
      OneMore(|rest|, size / 1024);
    }
  }

  lemma OneMore(n: nat, k: nat)
    ensures (n + 1) * k == n * k + k
  {}

  lemma ChainJoins(pool: map<nat, Chunk?>, lists: map<nat, seq<Chunk>>, free: set<Chunk>, size: nat, first: Chunk, chain: seq<Chunk>)
    requires pool.Keys == lists.Keys && Sorted(lists, free) && Links(pool, lists, free) && Emptied(free) && Separate(free)
    requires Unused(chain, size) && Linked(first, chain) && size in Sizes() && size !in lists
    requires forall c, d :: c in chain && d in free ==> c.data != d.data
    ensures var lists', free' := lists[size := chain], free + SetOf(chain);
      Sorted(lists', free') && Links(pool[size := first], lists', free') && Emptied(free') && Separate(free')
  {}

  /** What `alloc_chunk` comes to; after `Exhausted` the process ends. */
  datatype Outcome = Allocated | TooLarge | Exhausted

  ghost function Counts(lists: map<nat, seq<Chunk>>): (m: map<nat, nat>)
    ensures m.Keys == lists.Keys
  {
    map s | s in lists :: |lists[s]|
  }

  lemma CountOf(lists: map<nat, seq<Chunk>>, s: nat)
    requires s in lists
    ensures Counts(lists)[s] == |lists[s]|
  {}

  lemma AllSizes()
    ensures Opening().free.Keys == Sizes()
  {}

  lemma ClassIsSize(size: nat, n: int)
    requires IsClass(size, n)
    ensures size in Sizes() && n <= size
  {}

  lemma CountsWith(lists: map<nat, seq<Chunk>>, size: nat, chain: seq<Chunk>)
    ensures Counts(lists[size := chain]) == Counts(lists)[size := |chain|]
  {}

  class MemPool {
    var pool: map<nat, Chunk?>
    var total: nat
    var left: nat
    ghost var lists: map<nat, seq<Chunk>>
    ghost var free: set<Chunk>
    ghost var held: set<Chunk>

    /** Every chunk is free, in the list of its size, or held. */
    ghost predicate Structure()
      reads this, free, held
    {
      && pool.Keys == lists.Keys <= Sizes() && free !! held
      && Sorted(lists, free) && Links(pool, lists, free)
      && Emptied(free) && InUse(held) && Separate(free + held)
      && total == Kb(free + held)
    }

    ghost predicate Valid()
      reads this, free, held
    {
      Structure() && lists.Keys == Sizes() && left == Kb(free) && total < LIMIT_KB
    }

    ghost function Acc(): (a: Accounts)
      requires Valid()
      reads this, free, held
      ensures Covers(a)
    {
      Accounts(Counts(lists), total, left)
    }

    /** Valid, whatever the contents of the held chunk `c`. */
    ghost predicate ValidBut(c: Chunk)
      reads this, free, held - {c}
    {
      && pool.Keys == lists.Keys == Sizes() && free !! held && c in held
      && Sorted(lists, free) && Links(pool, lists, free)
      && Emptied(free) && InUse(held - {c}) && Separate(free + held)
      && total == Kb(free + held) && left == Kb(free) && total < LIMIT_KB
    }

    lemma Open(c: Chunk)
      requires Valid() && c in held
      ensures ValidBut(c) && c !in free && c.Valid() && c.next == null && c.capacity in Sizes()
    {
      hide Kb, Sizes, Sorted, Links, Emptied;
    }

    lemma Close(c: Chunk)
      requires ValidBut(c) && c.Valid() && c.next == null
      ensures Valid()
    {
      hide Kb, Sizes, Sorted, Links, Emptied, Separate;
    }

    constructor ()
      ensures Valid() && held == {} && fresh(free) && fresh(Datas(free)) && Acc() == Opening()
    {
      hide Sizes, Sorted, Links, Emptied, InUse, Separate, Kb, Counts;
      pool, total, left := map[], 0, 0;
      lists, free, held := map[], {}, {};
      new;
      NothingYet();
      InitAll();
      left := total;
      assert free + held == free;
      AllSizes();
    }

    method InitAll()
      requires Structure() && held == {} && Counts(lists) == map[] && total == 0
      modifies this`pool, this`total, this`lists, this`free
      ensures Structure()
      ensures total == Opening().total && Counts(lists) == Opening().free
      ensures fresh(free - old(free))
      ensures forall c :: c in free - old(free) ==> fresh(c.data)
    {
      hide Structure, Counts, Sizes, Datas;
      SizesAre();
      MemInit(0x1000, 4);
      MemInit(0x4000, 500);
      MemInit(0x1_0000, 250);
      MemInit(0x4_0000, 100);
      MemInit(0x10_0000, 25);
      MemInit(0x40_0000, 10);
    }

    method MemInit(size: nat, n: nat)
      requires Structure() && held == {} && size in Sizes() && size !in lists && n >= 1
      modifies this`pool, this`total, this`lists, this`free
      ensures Structure() && Counts(lists) == old(Counts(lists))[size := n]
      ensures total == old(total) + size / 1024 * n
      ensures fresh(free - old(free))
      ensures forall c :: c in free - old(free) ==> fresh(c.data)
    {
      hide Sizes, Sorted, Links, Emptied, InUse, Separate, Kb, Linked, Unused, Counts;
      var first, chain := NewChain(size, n);
      assert free + held == free;
      CountsWith(lists, size, chain);
      ChainJoins(pool, lists, free, size, first, chain);
      KbOfChain(free, chain, size);
      pool := pool[size := first];
      lists := lists[size := chain];
      free := free + SetOf(chain);
      total := total + size / 1024 * n;
      assert free + held == free;
      assert total == Kb(free);
    }

    method TakeFirst(index: nat) returns (target: Chunk)
      requires Valid() && index in Sizes() && pool[index] != null
      modifies this, free`next
      ensures Valid() && target in old(free) && target.capacity == index
      ensures free == old(free) - {target} && held == old(held) + {target}
      ensures lists == old(lists)[index := old(lists)[index][1..]] && target == old(lists)[index][0]
      ensures total == old(total) && left == old(left) - index / 1024 && target.length == 0 && target.head == 0
    {
      hide Sizes, Sorted, Links, Emptied, InUse, Separate, Kb;
      FirstIsFree(pool, lists, free, index);
      target := pool[index];
      KbWithout(free, target);
      WithoutFirst(pool, lists, free, index);
      pool := pool[index := target.next];
      target.next := null;
      TakenIsInUse(free, held, target);
      left := left - index / 1024;
      lists := lists[index := lists[index][1..]];
      free, held := free - {target}, held + {target};
      assert free + held == old(free + held);
    }

    method NewChunk(index: nat) returns (c: Chunk)
      requires Valid() && index in Sizes() && total + index / 1024 < LIMIT_KB
      modifies this
      ensures Valid() && fresh(c) && fresh(c.data) && c.capacity == index
      ensures free == old(free) && held == old(held) + {c}
      ensures lists == old(lists)
      ensures total == old(total) + index / 1024 && left == old(left) && c.length == 0 && c.head == 0
    {
      hide Sizes, Sorted, Links, Emptied, InUse, Separate, Kb;
      c := new Chunk(index);
      KbWith(free + held, c);
      SeparateWith(free + held, c);
      InUseWith(held, c);
      assert free + held + {c} == free + (held + {c});
      total := total + index / 1024;
      held := held + {c};
    }

    method Retrieve(block: Chunk)
      requires Valid() && block in held
      modifies this, block
      ensures Valid()
      ensures free == old(free) + {block} && held == old(held) - {block}
      ensures lists == old(lists)[block.capacity := [block] + old(lists)[block.capacity]]
      ensures block.capacity in Sizes() && Acc() == GiveBack(old(Acc()), block.capacity)
    {
      hide Sizes, Sorted, Links, Emptied, InUse, Separate, Kb, Counts, FreeKb;
      var index := block.capacity;
      InUseWithout(held, block);
      SizeIsKnown(free + held, block);
      CountOf(lists, index);
      CountsWith(lists, index, [block] + lists[index]);
      block.length := 0;
      block.head := 0;
      KbWith(free, block);
      assert free + held == (free + {block}) + (held - {block});
      block.next := pool[index];
      WithFirst(pool, lists, free, block);
      GivenIsFree(free, held, block);
      pool := pool[index := block];
      left := left + index / 1024;
      lists := lists[index := [block] + lists[index]];
      free, held := free + {block}, held - {block};
    }

    method AllocChunk(n: int) returns (outcome: Outcome, c: Chunk?)
      requires Valid()
      modifies this, free`next
      ensures Valid()
      ensures c != null <==> outcome.Allocated?
      ensures outcome.TooLarge? <==> n > MEM_UP
      ensures outcome.Exhausted? ==> exists s: nat :: IsClass(s, n) && old(lists)[s] == [] && total + s / 1024 >= LIMIT_KB
      ensures outcome.Allocated? ==>
        && IsClass(c.capacity, n) && c.length == 0 && c.head == 0
        && c !in old(held) && held == old(held) + {c} && free == old(free) - {c}
        && (if old(lists)[c.capacity] == [] then fresh(c) && fresh(c.data) && old(total) + c.capacity / 1024 < LIMIT_KB
            else c in old(free) && c == old(lists)[c.capacity][0])
      ensures !outcome.Allocated? ==> held == old(held) && free == old(free) && lists == old(lists)
      ensures match Alloc(old(Acc()), n)
        case Granted(size, after) => outcome == Allocated && c.capacity == size && Acc() == after
        case Refused => outcome == TooLarge && Acc() == old(Acc())
        case OutOfMemory => outcome == Exhausted && Acc() == old(Acc())
    {
      hide Sizes, Sorted, Links, Emptied, InUse, Separate, Kb, IsClass, Counts;
      var found, index := FindClass(n);
      if !found { return TooLarge, null; }
      ClassIsUnique(index, n);
      ClassIsSize(index, n);
      CountOf(lists, index);
      EmptyIsNull(pool, lists, free, index);
      if pool[index] == null {
        if total + index / 1024 >= LIMIT_KB { return Exhausted, null; }
        c := NewChunk(index);
        assert free - {c} == free;
      } else {
        CountsWith(lists, index, lists[index][1..]);
        c := TakeFirst(index);
      }
      outcome := Allocated;
    }

    /** The bytes of the free chunks of one size. */
    method ListSizeByte(index: nat) returns (size: nat)
      requires Valid()
      ensures size == if index in lists then |lists[index]| * index else 0
    {
      if index !in pool { return 0; }
      size := 0;
      var node := pool[index];
      ghost var list := lists[index];
      ghost var i := 0;
      while node != null
        invariant i <= |list| && Linked(node, list[i..]) && size == i * index
        decreases |list| - i
      {
        LinkedRest(node, list[i..]);
        assert list[i..][1..] == list[i + 1..];
        assert list[i] in list;
        OneMore(i, index);
        size := size + node.capacity;
        node := node.next;
        i := i + 1;
      }
    }
  }

  // ---------------------------------------------------------------- what holds of every pool in use

  /** A chunk is in one place: held, or once on the list of its own capacity. */
  lemma EveryChunkInOnePlace(pool: MemPool, c: Chunk)
    requires pool.Valid() && c in pool.free + pool.held
    ensures c in pool.held <==> c !in pool.free
    ensures c in pool.free <==> exists s, i :: s in pool.lists && 0 <= i < |pool.lists[s]| && pool.lists[s][i] == c
    ensures forall s, i, t, j ::
      (s in pool.lists && t in pool.lists && 0 <= i < |pool.lists[s]| && 0 <= j < |pool.lists[t]|
       && pool.lists[s][i] == c && pool.lists[t][j] == c) ==> s == t == c.capacity && i == j
  {
    if c in pool.free {
      var list := pool.lists[c.capacity];
      var i :| 0 <= i < |list| && list[i] == c;
      assert pool.lists[c.capacity][i] == c;
    }
    forall s, i, t, j | s in pool.lists && t in pool.lists && 0 <= i < |pool.lists[s]| && 0 <= j < |pool.lists[t]|
                        && pool.lists[s][i] == c && pool.lists[t][j] == c
      ensures s == t == c.capacity && i == j
    {
      assert c in pool.lists[s] && c in pool.lists[t];
      if i < j { LinkedIsAcyclic(pool.pool[s], pool.lists[s], i, j); }
      if j < i { LinkedIsAcyclic(pool.pool[s], pool.lists[s], j, i); }
    }
  }

  /** The counters: what is left is what is free, and the total is that and what is held. */
  lemma AccountsBalance(pool: MemPool)
    requires pool.Valid()
    ensures pool.left == Kb(pool.free) && pool.total == pool.left + Kb(pool.held) && pool.total < LIMIT_KB
  {
    KbOfUnion(pool.free, pool.held);
  }
}
