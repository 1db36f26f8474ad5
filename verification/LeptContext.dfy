/**
 `lept_context`: the text and a byte stack that grows by halves. The parser keeps the bytes of a
 string, the elements of arrays and the members of objects on one stack; the printer writes its text there.
 */
module LeptContext {
  import opened Bits
  import opened Json
  import opened LeptHeap

  const SIZEOF_VALUE := 24
  const SIZEOF_MEMBER := 40
  const INIT_SIZE := 256

  /** What `memcpy` puts on the stack: an element or a member. */
  datatype Item = ValueItem(v: Node) | MemberItem(m: MemberN)

  function SizeOf(item: Item): nat { if item.ValueItem? then SIZEOF_VALUE else SIZEOF_MEMBER }

  /** One byte of the stack: a character, or the byte at an offset in the memory of an item. */
  datatype Slot = Raw(b: byte) | Field(item: Item, offset: nat)

  function Raws(bs: seq<byte>): seq<Slot> {
    seq(|bs|, i requires 0 <= i < |bs| => Raw(bs[i]))
  }

  function ItemBytes(item: Item): (r: seq<Slot>)
    ensures |r| == SizeOf(item) && r[0] == Field(item, 0)
  {
    seq(SizeOf(item), i requires 0 <= i < SizeOf(item) => Field(item, i))
  }

  /** Items one on top of the other. */
  function Flat(items: seq<Item>): seq<Slot> {
    if items == [] then [] else Flat(items[..|items| - 1]) + ItemBytes(items[|items| - 1])
  }

  lemma FlatSnoc(items: seq<Item>, item: Item)
    ensures Flat(items + [item]) == Flat(items) + ItemBytes(item)
  {
    assert (items + [item])[..|items|] == items;
  }

  predicate SameSize(items: seq<Item>, size: nat) { forall i :: 0 <= i < |items| ==> SizeOf(items[i]) == size }

  /** Items of one size lie at multiples of it. */
  lemma {:induction false} FlatAt(items: seq<Item>, size: nat)
    requires size > 0 && SameSize(items, size)
    ensures |Flat(items)| == size * |items|
    ensures forall k :: 0 <= k < |items| ==> 0 <= size * k < |Flat(items)| && Flat(items)[size * k] == Field(items[k], 0)
  {
    if items != [] {
      var n := |items| - 1;
      FlatAt(items[..n], size);
      assert size * |items| == size * n + size;
      forall k | 0 <= k < |items|
        ensures 0 <= size * k < |Flat(items)| && Flat(items)[size * k] == Field(items[k], 0)
      {
        if k < n {
          assert items[..n][k] == items[k];
        }
      }
    }
  }

  /** The first NUL is the last byte. */
  predicate IsCString(text: seq<byte>) {
    |text| > 0 && text[|text| - 1] == 0 && 0 !in text[..|text| - 1]
  }

  class Context {
    const text: seq<byte>
    const heap: Heap
    var json: nat
    var stack: array<Slot>
    var size: nat
    var top: nat

    constructor (text: seq<byte>, heap: Heap, size: nat)
      requires size == 0 || size >= INIT_SIZE
      ensures Valid() && top == 0 && json == 0 && this.text == text && this.heap == heap && this.size == size
      ensures fresh(stack)
    {
      this.text, this.heap := text, heap;
      json, top := 0, 0;
      stack, this.size := new Slot[size], size;
    }

    ghost predicate Valid()
      reads `stack, `size, `top
    {
      stack.Length == size && top <= size && (size == 0 || size >= INIT_SIZE)
    }

    /** What is on the stack, bottom first. */
    ghost function Used(): (s: seq<Slot>)
      requires Valid()
      reads `stack, `size, `top, stack
    {
      stack[..top]
    }

    ghost predicate ValidText()
      reads this
    {
      json < |text| && IsCString(text)
    }

    /** The text from position `p` up to its NUL. */
    ghost function RestAt(p: nat): seq<byte>
      requires p < |text|
    {
      text[p..|text| - 1]
    }

    ghost function Rest(): seq<byte>
      requires json < |text|
      reads this
    {
      RestAt(json)
    }

    /**
     `lept_context_push`: reserves `n` bytes above the top, and returns where they start. The block is
     moved only when it is too small, and then to no more than half as much again as is needed.
     */
    method Push(n: nat) returns (at: nat)
      requires Valid() && n > 0
      modifies this`size, this`stack, this`top
      ensures Valid() && at == old(top) && top == at + n && top < size
      ensures if top < old(size) then stack == old(stack) && size == old(size)
              else fresh(stack) && (size == INIT_SIZE || 2 * size <= 3 * top)
      ensures stack[..at] == old(stack[..top])
    {
      if top + n >= size {
        var size' := if size == 0 then INIT_SIZE else size;
        while top + n >= size'
          invariant size' >= INIT_SIZE && size' >= size
          invariant size' == INIT_SIZE || size' == size || 2 * size' <= 3 * (top + n)
          decreases top + n - size'
        {
          size' := size' + size' / 2;
        }
        var stack' := new Slot[size'];
        forall i | 0 <= i < size {
          stack'[i] := stack[i];
        }
        size, stack := size', stack';
      }
      at := top;
      top := top + n;
    }

    /** `lept_context_pop`: the popped bytes stay readable until the next push. */
    method Pop(n: nat) returns (at: nat)
      requires Valid() && n <= top
      modifies this`top
      ensures Valid() && at == top == old(top) - n
      ensures Used() == old(Used())[..at]
    {
      top := top - n;
      at := top;
    }

    /** `PUTC`. */
    method PutByte(b: byte)
      requires Valid()
      modifies this`size, this`stack, this`top, stack
      ensures Valid() && (stack == old(stack) || fresh(stack))
      ensures Used() == old(Used()) + [Raw(b)]
    {
      var at := Push(1);
      stack[at] := Raw(b);
    }

    /** `PUTS`. */
    method PutBytes(bs: seq<byte>)
      requires Valid() && bs != []
      modifies this`size, this`stack, this`top, stack
      ensures Valid() && (stack == old(stack) || fresh(stack))
      ensures Used() == old(Used()) + Raws(bs)
    {
      var at := Push(|bs|);
      forall i | 0 <= i < |bs| {
        stack[at + i] := Raw(bs[i]);
      }
    }

    /** `memcpy(lept_context_push(c, sizeof ...), ...)`. */
    method PushItem(item: Item)
      requires Valid()
      modifies this`size, this`stack, this`top, stack
      ensures Valid() && (stack == old(stack) || fresh(stack))
      ensures Used() == old(Used()) + ItemBytes(item)
    {
      var at := Push(SizeOf(item));
      forall i | 0 <= i < SizeOf(item) {
        stack[at + i] := Field(item, i);
      }
    }

    /** `memcpy` of characters off the stack. */
    method CopyBytes(at: nat, ghost bs: seq<byte>, len: nat) returns (r: seq<byte>)
      requires |bs| == len && at + len <= stack.Length && stack[at..at + len] == Raws(bs)
      ensures r == bs
    {
      r := [];
      var i := 0;
      while i < len
        invariant 0 <= i <= len && r == bs[..i]
      {
        assert stack[at + i] == stack[at..at + len][i] == Raw(bs[i]);
        r := r + [stack[at + i].b];
        i := i + 1;
      }
    }

    /** `memcpy` of `|items|` items off the stack. */
    method CopyItems(at: nat, ghost items: seq<Item>, count: nat, sizeof: nat) returns (r: seq<Item>)
      requires |items| == count && sizeof > 0 && SameSize(items, sizeof)
      requires at + |Flat(items)| <= stack.Length && stack[at..at + |Flat(items)|] == Flat(items)
      ensures r == items
    {
      r := [];
      var i := 0;
      FlatAt(items, sizeof);
      while i < count
        invariant 0 <= i <= count && r == items[..i]
      {
        assert stack[at + sizeof * i] == stack[at..at + |Flat(items)|][sizeof * i];
        r := r + [stack[at + sizeof * i].item];
        i := i + 1;
      }
    }
  }
}
