/** Growable arrays: `lept_set_array`, `lept_reserve_array`, `lept_pushback_array_element`, `lept_popback_array_element`. */
module LeptArray {
  import opened Bits
  import opened LeptHeap

  /** Length and capacity, and what the run so far has cost: elements moved by `realloc`, and pushes. */
  datatype Shape = Shape(len: nat, capacity: nat, moved: nat, pushes: nat)

  datatype Op = PushOp | PopOp

  function Reserved(s: Shape, capacity: nat): Shape {
    if s.capacity < capacity then s.(capacity := capacity, moved := s.moved + s.len) else s
  }

  function Pushed(s: Shape): Shape {
    var r := if s.len == s.capacity then Reserved(s, if s.capacity == 0 then 1 else s.capacity * 2) else s;
    r.(len := r.len + 1, pushes := r.pushes + 1)
  }

  function Popped(s: Shape): Shape {
    if s.len == 0 then s else s.(len := s.len - 1)
  }

  /** A run from `lept_set_array(v, 0)`; a pop of an empty array is not made. */
  function Run(ops: seq<Op>): Shape {
    if ops == [] then Shape(0, 0, 0, 0)
    else
      var s := Run(ops[..|ops| - 1]);
      if ops[|ops| - 1].PushOp? then Pushed(s) else Popped(s)
  }

  /** What growth by doubling keeps: a full array has been paid for by its pushes. */
  predicate Paid(s: Shape) {
    && s.len <= s.capacity && s.len <= s.pushes
    && if s.capacity == 0 then s.moved == 0 else s.moved < s.capacity && s.capacity <= 2 * s.pushes - 1
  }

  lemma PushPays(s: Shape)
    requires Paid(s)
    ensures Paid(Pushed(s))
  {}

  lemma PopPays(s: Shape)
    requires Paid(s)
    ensures Paid(Popped(s))
  {}

  /** Any run moves fewer than two elements per push. */
  lemma {:induction false} RunIsAmortized(ops: seq<Op>)
    ensures Paid(Run(ops))
    ensures Run(ops).pushes > 0 ==> Run(ops).moved < 2 * Run(ops).pushes
  {
    if ops != [] {
      RunIsAmortized(ops[..|ops| - 1]);
      PushPays(Run(ops[..|ops| - 1]));
      PopPays(Run(ops[..|ops| - 1]));
    }
  }

  /** The length, from the calls alone. */
  function Height(ops: seq<Op>): nat {
    if ops == [] then 0
    else
      var h := Height(ops[..|ops| - 1]);
      if ops[|ops| - 1].PushOp? then h + 1 else if h == 0 then 0 else h - 1
  }

  /** The largest length on the way. */
  function Peak(ops: seq<Op>): (p: nat)
    ensures p >= Height(ops)
  {
    if ops == [] then 0
    else
      var p := Peak(ops[..|ops| - 1]);
      if p < Height(ops) then Height(ops) else p
  }

  function Pushes(ops: seq<Op>): nat {
    if ops == [] then 0 else Pushes(ops[..|ops| - 1]) + if ops[|ops| - 1].PushOp? then 1 else 0
  }

  ghost predicate IsPower(c: nat) { exists n: nat :: c == Pow2(n) }

  lemma DoubleIsPower(c: nat)
    requires IsPower(c)
    ensures IsPower(2 * c)
  {
    var n: nat :| c == Pow2(n);
    assert 2 * c == Pow2(n + 1);
  }

  lemma OneIsPower()
    ensures IsPower(1)
  {
    assert Pow2(0) == 1;
  }

  /**
   After any run the capacity is the power of two at or next above the largest length, never less,
   and growing has moved one element fewer than that in all.
   */
  lemma {:induction false} RunIsExact(ops: seq<Op>)
    ensures var s := Run(ops);
      && s.len == Height(ops) && s.pushes == Pushes(ops)
      && (Peak(ops) == 0 ==> s.capacity == 0 && s.moved == 0)
      && (Peak(ops) > 0 ==> IsPower(s.capacity) && Peak(ops) <= s.capacity < 2 * Peak(ops) && s.moved == s.capacity - 1)
  {
    hide IsPower;
    OneIsPower();
    if ops != [] {
      var front := ops[..|ops| - 1];
      RunIsExact(front);
      if Peak(front) > 0 { DoubleIsPower(Run(front).capacity); }
    }
  }

  class ArrayValue {
    var len: nat
    var capacity: nat
    var e: array<Node>
    const heap: Heap
    ghost var moved: nat
    ghost var pushes: nat

    ghost predicate Valid()
      reads this
    {
      len <= capacity == e.Length
    }

    ghost function ShapeNow(): Shape
      reads this
    {
      Shape(len, capacity, moved, pushes)
    }

    ghost function Elements(): seq<Node>
      requires Valid()
      reads this, e
    {
      e[..len]
    }

    constructor (heap: Heap, capacity: nat)
      ensures Valid() && Elements() == [] && ShapeNow() == Shape(0, capacity, 0, 0)
      ensures this.heap == heap && fresh(e)
    {
      this.heap, len, this.capacity := heap, 0, capacity;
      e := new Node[capacity];
      moved, pushes := 0, 0;
    }

    method Reserve(capacity: nat)
      requires Valid()
      modifies this
      ensures Valid() && Elements() == old(Elements()) && (e == old(e) || fresh(e))
      ensures ShapeNow() == Reserved(old(ShapeNow()), capacity)
      ensures this.capacity == if old(this.capacity) < capacity then capacity else old(this.capacity)
    {
      if this.capacity < capacity {
        var e' := new Node[capacity];
        forall i | 0 <= i < len {
          e'[i] := e[i];
        }
        this.capacity, e, moved := capacity, e', moved + len;
      }
    }

    /** Appends a null value and returns its place. */
    method Pushback() returns (index: nat)
      requires Valid()
      modifies this, e
      ensures Valid() && index == old(len) && Elements() == old(Elements()) + [NullN] && (e == old(e) || fresh(e))
      ensures ShapeNow() == Pushed(old(ShapeNow()))
    {
      if len == capacity {
        Reserve(if capacity == 0 then 1 else capacity * 2);
      }
      e[len] := NullN;
      index := len;
      len, pushes := len + 1, pushes + 1;
    }

    /** Removes the last value and frees the blocks of its tree. */
    method Popback()
      requires Valid() && len > 0 && heap.Valid() && Blocks(e[len - 1]) <= heap.live
      modifies this`len, e, heap
      ensures Valid() && Elements() == old(Elements())[..old(len) - 1]
      ensures heap.Valid() && heap.live == old(heap.live) - Blocks(old(e[len - 1]))
      ensures ShapeNow() == Popped(old(ShapeNow()))
    {
      len := len - 1;
      e[len] := heap.FreeTree(e[len]);
    }
  }

  /** `lept_set_array`: what the value held is freed first. */
  method SetArray(v: Node, heap: Heap, capacity: nat) returns (a: ArrayValue)
    requires heap.Valid() && Blocks(v) <= heap.live
    modifies heap
    ensures heap.Valid() && heap.live == old(heap.live) - Blocks(v)
    ensures fresh(a) && fresh(a.e) && a.heap == heap
    ensures a.Valid() && a.Elements() == [] && a.ShapeNow() == Shape(0, capacity, 0, 0)
  {
    var _ := heap.FreeTree(v);
    a := new ArrayValue(heap, capacity);
  }
}
