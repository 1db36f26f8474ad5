/** The chunks of the memory pool, the lists they are linked into, and their size in kilobytes. */
module MemoryChunk {
  import opened Bits

  // ---------------------------------------------------------------- chunks

  class Chunk {
    const capacity: nat
    const data: array<byte>
    var next: Chunk?
    var length: nat
    var head: nat

    ghost predicate Valid()
      reads this`length, this`head
    {
      data.Length == capacity && head + length <= capacity
    }

    /** The bytes stored and not yet popped. */
    ghost function Contents(): (s: seq<byte>)
      requires Valid()
      reads this`length, this`head, data
      ensures |s| == length
    {
      data[head..head + length]
    }

    constructor (size: nat)
      ensures Valid() && capacity == size && next == null && length == 0 && head == 0 && fresh(data)
    {
      capacity, next, length, head := size, null, 0, 0;
      data := new byte[size];
    }

    method Clear()
      requires Valid()
      modifies this`length, this`head
      ensures Valid() && head == 0 && Contents() == []
    {
      length, head := 0, 0;
    }

    /** `memmove` to the front: source and target may overlap. */
    method Adjust()
      requires Valid()
      modifies this`head, data
      ensures Valid() && head == 0 && Contents() == old(Contents())
    {
      if head != 0 {
        if length != 0 {
          forall i | 0 <= i < length {
            data[i] := data[head + i];
          }
        }
      }
      head := 0;
    }

    method Copy(other: Chunk)
      requires Valid() && other.Valid() && other != this && data != other.data && other.length <= capacity
      modifies this`head, this`length, data
      ensures Valid() && head == 0 && Contents() == old(other.Contents())
    {
      forall i | 0 <= i < other.length {
        data[i] := other.data[other.head + i];
      }
      head := 0;
      length := other.length;
    }

    method Pop(len: nat)
      requires Valid() && len <= length
      modifies this`head, this`length
      ensures Valid() && head == old(head) + len && Contents() == old(Contents())[len..]
    {
      length := length - len;
      head := head + len;
    }

    /** The `memcpy` at the end of a write. */
    method Append(bytes: seq<byte>)
      requires Valid() && head == 0 && length + |bytes| <= capacity
      modifies this`length, data
      ensures Valid() && Contents() == old(Contents()) + bytes
    {
      forall i | 0 <= i < |bytes| {
        data[length + i] := bytes[i];
      }
      length := length + |bytes|;
    }
  }

  ghost function Datas(chunks: set<Chunk>): set<array<byte>> { set c | c in chunks :: c.data }

  // ---------------------------------------------------------------- linked lists

  /** Following `next` from `first` visits `s` and ends in null. */
  ghost predicate Linked(first: Chunk?, s: seq<Chunk>)
    reads s`next
  {
    && (if s == [] then first == null else first == s[0] && s[|s| - 1].next == null)
    && (forall i :: 0 <= i < |s| - 1 ==> s[i].next == s[i + 1])
  }

  /** A list that ends is not cyclic: no chunk is on it twice. */
  lemma {:induction false} LinkedIsAcyclic(first: Chunk?, s: seq<Chunk>, i: nat, j: nat)
    requires Linked(first, s) && i < j < |s|
    ensures s[i] != s[j]
    decreases |s| - j
  {
    assert s[i].next == s[i + 1];
    if j + 1 < |s| {
      assert s[j].next == s[j + 1];
      LinkedIsAcyclic(first, s, i + 1, j + 1);
    } else {
      assert s[j].next == null;
    }
  }

  lemma LinkedRest(first: Chunk?, s: seq<Chunk>)
    requires Linked(first, s) && s != []
    ensures first == s[0] && Linked(s[0].next, s[1..])
  {
    var rest := s[1..];
    assert 1 < |s| ==> s[0].next == s[1];
    forall i | 0 <= i < |rest| - 1
      ensures rest[i].next == rest[i + 1]
    {
      assert rest[i] == s[i + 1];
    }
  }

  lemma LinkedFirst(c: Chunk, s: seq<Chunk>)
    requires Linked(c.next, s)
    ensures Linked(c, [c] + s)
  {}

  /** The links determine the list. */
  lemma {:induction false} LinkedIsUnique(first: Chunk?, s: seq<Chunk>, t: seq<Chunk>)
    requires Linked(first, s) && Linked(first, t)
    ensures s == t
    decreases |s|
  {
    if s != [] && t != [] {
      LinkedRest(first, s);
      LinkedRest(first, t);
      LinkedIsUnique(s[0].next, s[1..], t[1..]);
      assert s == [s[0]] + s[1..] && t == [t[0]] + t[1..];
    }
  }

  // ---------------------------------------------------------------- accounts

  ghost function Pick(s: set<Chunk>): (c: Chunk)
    requires s != {}
    ensures c in s
  {
    var c :| c in s; c
  }

  /** The kilobytes of a set of chunks. */
  ghost function Kb(s: set<Chunk>): nat {
    if s == {} then 0 else Pick(s).capacity / 1024 + Kb(s - {Pick(s)})
  }

  lemma {:induction false} KbWithout(s: set<Chunk>, c: Chunk)
    requires c in s
    ensures Kb(s) == c.capacity / 1024 + Kb(s - {c})
  {
    var d := Pick(s);
    if c != d {
      KbWithout(s - {d}, c);
      KbWithout(s - {c}, d);
      assert s - {d} - {c} == s - {c} - {d};
    }
  }

  lemma KbWith(s: set<Chunk>, c: Chunk)
    requires c !in s
    ensures Kb(s + {c}) == Kb(s) + c.capacity / 1024
  {
    KbWithout(s + {c}, c);
    assert s + {c} - {c} == s;
  }

  lemma {:induction false} KbOfUnion(s: set<Chunk>, t: set<Chunk>)
    requires s !! t
    ensures Kb(s + t) == Kb(s) + Kb(t)
    decreases s
  {
    if s == {} {
      assert s + t == t;
    } else {
      var c := Pick(s);
      KbWithout(s + t, c);
      KbOfUnion(s - {c}, t);
      assert s + t - {c} == s - {c} + t;
    }
  }
}
