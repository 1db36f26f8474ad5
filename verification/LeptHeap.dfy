/**
 The tree the parser builds, with the heap block behind every string, array and object, and
 `lept_free`. The heap counts every block it handed out and has not got back.
 */
module LeptHeap {
  import opened Bits
  import opened Json

  /** The address of a heap block; 0 is NULL. */
  type Ptr = nat

  datatype Node =
    | NullN
    | FalseN
    | TrueN
    | NumberN(n: Double)
    | StringN(p: Ptr, s: seq<byte>)
    | ArrayN(p: Ptr, es: seq<Node>)
    | ObjectN(p: Ptr, ms: seq<MemberN>)

  datatype MemberN = MemberN(kp: Ptr, k: seq<byte>, v: Node)

  /** The value a tree stands for. */
  function ValueOf(v: Node): Value {
    match v
    case NullN => Null
    case FalseN => False
    case TrueN => True
    case NumberN(n) => Number(n)
    case StringN(_, s) => String(s)
    case ArrayN(_, es) => Array(ValuesOf(es))
    case ObjectN(_, ms) => Object(MembersOf(ms))
  }

  function ValuesOf(es: seq<Node>): seq<Value> {
    seq(|es|, i requires 0 <= i < |es| => ValueOf(es[i]))
  }

  function MembersOf(ms: seq<MemberN>): seq<Member> {
    seq(|ms|, i requires 0 <= i < |ms| => Member(ms[i].k, ValueOf(ms[i].v)))
  }

  lemma MembersOfSnoc(ms: seq<MemberN>, m: MemberN)
    ensures MembersOf(ms + [m]) == MembersOf(ms) + [Member(m.k, ValueOf(m.v))]
  {}

  /** The blocks reachable from a tree, each as often as it is reached. */
  function Blocks(v: Node): multiset<Ptr>
    decreases v
  {
    match v
    case StringN(p, _) => Block(p)
    case ArrayN(p, es) => BlocksFrom(es, 0) + Block(p)
    case ObjectN(p, ms) => MemberBlocksFrom(ms, 0) + Block(p)
    case _ => multiset{}
  }

  function Block(p: Ptr): multiset<Ptr> { if p == 0 then multiset{} else multiset{p} }

  function BlocksFrom(es: seq<Node>, i: nat): multiset<Ptr>
    requires i <= |es|
    decreases es, |es| - i
  {
    if i == |es| then multiset{} else Blocks(es[i]) + BlocksFrom(es, i + 1)
  }

  function MemberBlocks(m: MemberN): multiset<Ptr>
    decreases m
  {
    Block(m.kp) + Blocks(m.v)
  }

  function MemberBlocksFrom(ms: seq<MemberN>, i: nat): multiset<Ptr>
    requires i <= |ms|
    decreases ms, |ms| - i
  {
    if i == |ms| then multiset{} else MemberBlocks(ms[i]) + MemberBlocksFrom(ms, i + 1)
  }

  lemma {:induction false} BlocksSnoc(es: seq<Node>, v: Node, i: nat)
    requires i <= |es|
    ensures BlocksFrom(es + [v], i) == BlocksFrom(es, i) + Blocks(v)
    decreases |es| - i
  {
    if i < |es| {
      BlocksSnoc(es, v, i + 1);
    } else {
      assert BlocksFrom(es + [v], i + 1) == multiset{};
    }
  }

  lemma {:induction false} MemberBlocksSnoc(ms: seq<MemberN>, m: MemberN, i: nat)
    requires i <= |ms|
    ensures MemberBlocksFrom(ms + [m], i) == MemberBlocksFrom(ms, i) + MemberBlocks(m)
    decreases |ms| - i
  {
    if i < |ms| {
      MemberBlocksSnoc(ms, m, i + 1);
    } else {
      assert MemberBlocksFrom(ms + [m], i + 1) == multiset{};
    }
  }

  lemma TakeAway(live: multiset<Ptr>, a: multiset<Ptr>, b: multiset<Ptr>)
    requires a + b <= live
    ensures a <= live && b <= live - a && live - (a + b) == (live - a) - b
  {}

  /** Strings always own a block, arrays and objects own one unless they are empty. */
  predicate Rooted(v: Node) {
    match v
    case StringN(p, _) => p != 0
    case ArrayN(p, es) => p == 0 <==> es == []
    case ObjectN(p, ms) => p == 0 <==> ms == []
    case _ => true
  }

  predicate NeedsBlock(v: Value) {
    v.String? || (v.Array? && v.es != []) || (v.Object? && v.ms != [])
  }

  lemma BlocklessIff(v: Node)
    requires Rooted(v)
    ensures Blocks(v) == multiset{} <==> !NeedsBlock(ValueOf(v))
  {
    hide BlocksFrom, MemberBlocksFrom;
    match v
    case StringN(p, _) => assert p in Blocks(v);
    case ArrayN(p, es) =>
      NoneInNone();
      assert es != [] ==> p in Blocks(v);
    case ObjectN(p, ms) =>
      NoneInNone();
      assert ms != [] ==> p in Blocks(v);
    case _ =>
  }

  lemma NoneInNone()
    ensures BlocksFrom([], 0) == multiset{} && MemberBlocksFrom([], 0) == multiset{}
  {}

  class Heap {
    var live: multiset<Ptr>
    var next: Ptr

    /** Every live block was handed out once. */
    ghost predicate Valid()
      reads this
    {
      next > 0 && forall p :: p in live ==> 0 < p < next && live[p] == 1
    }

    constructor ()
      ensures Valid() && live == multiset{}
    {
      live, next := multiset{}, 1;
    }

    method Malloc() returns (p: Ptr)
      requires Valid()
      modifies this
      ensures Valid() && p != 0 && p !in old(live) && live == old(live) + Block(p)
    {
      p := next;
      live, next := live + multiset{p}, next + 1;
    }

    /** `free`: never on a block that is not live. */
    method Free(p: Ptr)
      requires Valid() && Block(p) <= live
      modifies this
      ensures Valid() && live == old(live) - Block(p)
    {
      if p != 0 {
        live := live - multiset{p};
      }
    }

    /** `lept_free`: releases each block of the tree exactly once, and nothing else. */
    method FreeTree(v: Node) returns (v': Node)
      requires Valid() && Blocks(v) <= live
      modifies this
      ensures Valid() && live == old(live) - Blocks(v) && v' == NullN
      decreases v
    {
      hide BlocksFrom, MemberBlocksFrom, Block;
      match v {
        case StringN(p, _) =>
          Free(p);
        case ArrayN(p, es) =>
          TakeAway(live, BlocksFrom(es, 0), Block(p));
          FreeElements(es);
          Free(p);
        case ObjectN(p, ms) =>
          TakeAway(live, MemberBlocksFrom(ms, 0), Block(p));
          FreeMembers(ms);
          Free(p);
        case _ =>
      }
      v' := NullN;
    }

    method FreeElements(es: seq<Node>)
      requires Valid() && BlocksFrom(es, 0) <= live
      modifies this
      ensures Valid() && live == old(live) - BlocksFrom(es, 0)
      decreases es
    {
      ghost var rest := live - BlocksFrom(es, 0);
      var i := 0;
      while i < |es|
        invariant 0 <= i <= |es| && Valid()
        invariant live == rest + BlocksFrom(es, i)
      {
        var _ := FreeTree(es[i]);
        i := i + 1;
      }
    }

    method FreeMembers(ms: seq<MemberN>)
      requires Valid() && MemberBlocksFrom(ms, 0) <= live
      modifies this
      ensures Valid() && live == old(live) - MemberBlocksFrom(ms, 0)
      decreases ms
    {
      ghost var rest := live - MemberBlocksFrom(ms, 0);
      var i := 0;
      while i < |ms|
        invariant 0 <= i <= |ms| && Valid()
        invariant live == rest + MemberBlocksFrom(ms, i)
      {
        FreeMember(ms[i]);
        i := i + 1;
      }
    }

    method FreeMember(m: MemberN)
      requires Valid() && MemberBlocks(m) <= live
      modifies this
      ensures Valid() && live == old(live) - MemberBlocks(m)
      decreases m
    {
      TakeAway(live, Block(m.kp), Blocks(m.v));
      Free(m.kp);
      var _ := FreeTree(m.v);
    }
  }
}
