/** Counting sort: prefix sums give every value its slots, and a scan from the back fills each slot once. */
module CountSort {

  /** How many of the first `n` are below, or equal to, `x`. */
  function Below(a: seq<int>, n: nat, x: int): (r: nat)
    requires n <= |a|
    ensures r <= n
  {
    if n == 0 then 0 else Below(a, n - 1, x) + (if a[n - 1] < x then 1 else 0)
  }

  function Same(a: seq<int>, n: nat, x: int): (r: nat)
    requires n <= |a|
    ensures r <= n
  {
    if n == 0 then 0 else Same(a, n - 1, x) + (if a[n - 1] == x then 1 else 0)
  }

  /** The slot of `a[i]`: behind everything smaller and behind the equal values to its left. */
  function Rank(a: seq<int>, i: nat): nat
    requires i < |a|
  {
    Below(a, |a|, a[i]) + Same(a, i, a[i])
  }

  ghost predicate Sorted(s: seq<int>) { forall i, j :: 0 <= i < j < |s| ==> s[i] <= s[j] }

  // ---------------------------------------------------------------- ranks are places

  lemma {:induction false} BelowNext(a: seq<int>, n: nat, x: int)
    requires n <= |a|
    ensures Below(a, n, x + 1) == Below(a, n, x) + Same(a, n, x)
  {
    if n > 0 { BelowNext(a, n - 1, x); }
  }

  lemma {:induction false} BelowMonotone(a: seq<int>, n: nat, x: int, y: int)
    requires n <= |a| && x <= y
    ensures Below(a, n, x) <= Below(a, n, y)
  {
    if n > 0 { BelowMonotone(a, n - 1, x, y); }
  }

  lemma {:induction false} SameMonotone(a: seq<int>, m: nat, n: nat, x: int)
    requires m <= n <= |a|
    ensures Same(a, m, x) <= Same(a, n, x)
    decreases n
  {
    if m < n { SameMonotone(a, m, n - 1, x); }
  }

  lemma RankInRange(a: seq<int>, i: nat)
    requires i < |a|
    ensures Rank(a, i) < Below(a, |a|, a[i] + 1) <= |a|
  {
    BelowNext(a, |a|, a[i]);
    SameMonotone(a, i + 1, |a|, a[i]);
  }

  /** Ranks follow the values, and positions among equal values: the order is stable. */
  lemma RankIsStableOrder(a: seq<int>, i: nat, j: nat)
    requires i < |a| && j < |a|
    ensures Rank(a, i) < Rank(a, j) <==> a[i] < a[j] || (a[i] == a[j] && i < j)
    ensures Rank(a, i) == Rank(a, j) <==> i == j
  {
    RankBefore(a, i, j);
    RankBefore(a, j, i);
  }

  lemma RankBefore(a: seq<int>, i: nat, j: nat)
    requires i < |a| && j < |a|
    ensures a[i] < a[j] || (a[i] == a[j] && i < j) ==> Rank(a, i) < Rank(a, j)
  {
    if a[i] < a[j] {
      RankInRange(a, i);
      BelowMonotone(a, |a|, a[i] + 1, a[j]);
    } else if a[i] == a[j] && i < j {
      SameMonotone(a, i + 1, j, a[i]);
    }
  }

  /** `b` holds every value of `a` at its rank. */
  ghost predicate Placed(a: seq<int>, b: seq<int>) {
    |b| == |a| && forall i :: 0 <= i < |a| ==> 0 <= Rank(a, i) < |b| && b[Rank(a, i)] == a[i]
  }

  // ---------------------------------------------------------------- every slot is taken

  ghost function RanksFrom(a: seq<int>, i: nat): set<int>
    requires i <= |a|
    decreases |a| - i
  {
    if i == |a| then {} else {Rank(a, i)} + RanksFrom(a, i + 1)
  }

  lemma {:induction false} RanksAreDistinct(a: seq<int>, i: nat)
    requires i <= |a|
    ensures |RanksFrom(a, i)| == |a| - i
    ensures forall s :: s in RanksFrom(a, i) ==> exists k :: i <= k < |a| && Rank(a, k) == s
    decreases |a| - i
  {
    if i < |a| {
      RanksAreDistinct(a, i + 1);
      if Rank(a, i) in RanksFrom(a, i + 1) {
        var k :| i + 1 <= k < |a| && Rank(a, k) == Rank(a, i);
        RankIsStableOrder(a, i, k);
      }
    }
  }

  ghost function Places(n: nat): (r: set<int>)
    ensures forall s :: s in r <==> 0 <= s < n
    ensures |r| == n
  {
    if n == 0 then {} else Places(n - 1) + {n - 1}
  }

  lemma FullSubset(s: set<int>, t: set<int>)
    requires s <= t && |s| == |t|
    ensures s == t
  {
    assert |t - s| == |t| - |s|;
  }

  /** Each slot is the rank of some position: with distinct ranks, of exactly one. */
  lemma EverySlotIsTaken(a: seq<int>, s: nat)
    requires s < |a|
    ensures exists k :: 0 <= k < |a| && Rank(a, k) == s
  {
    RanksAreDistinct(a, 0);
    var ranks := RanksFrom(a, 0);
    assert ranks <= Places(|a|) by {
      forall r | r in ranks
        ensures 0 <= r < |a|
      {
        var k :| 0 <= k < |a| && Rank(a, k) == r;
        RankInRange(a, k);
      }
    }
    FullSubset(ranks, Places(|a|));
    assert s in ranks;
    var k :| 0 <= k < |a| && Rank(a, k) == s;
  }

  lemma PlacedIsSorted(a: seq<int>, b: seq<int>)
    requires Placed(a, b)
    ensures Sorted(b)
  {
    forall p: nat, q: nat | p < q < |b|
      ensures b[p] <= b[q]
    {
      EverySlotIsTaken(a, p);
      EverySlotIsTaken(a, q);
      var i: nat :| i < |a| && Rank(a, i) == p;
      var j: nat :| j < |a| && Rank(a, j) == q;
      RankIsStableOrder(a, i, j);
    }
  }

  // ---------------------------------------------------------------- a placement is a permutation

  ghost predicate Injective(p: seq<nat>, n: nat) {
    && (forall i :: 0 <= i < |p| ==> p[i] < n)
    && (forall i, j :: 0 <= i < j < |p| ==> p[i] != p[j])
  }

  lemma {:induction false} PermutedAlong(a: seq<int>, b: seq<int>, p: seq<nat>)
    requires |a| == |b| == |p| && Injective(p, |b|) && forall i :: 0 <= i < |a| ==> b[p[i]] == a[i]
    ensures multiset(a) == multiset(b)
    decreases |a|
  {
    if a == [] {
    } else {
      var n := |a| - 1;
      var s := p[n];
      var b' := b[..s] + b[s + 1..];
      var p' := seq(n, i requires 0 <= i < n => if p[i] < s then p[i] else (p[i] - 1) as nat);
      PermutedAlong(a[..n], b', p');
      assert a == a[..n] + [a[n]];
      assert b == b[..s] + [b[s]] + b[s + 1..];
    }
  }

  lemma PlacedIsPermutation(a: seq<int>, b: seq<int>)
    requires Placed(a, b)
    ensures multiset(b) == multiset(a)
  {
    var p: seq<nat> := seq(|a|, i requires 0 <= i < |a| => Rank(a, i));
    forall i: nat, j: nat | i < j < |p|
      ensures p[i] != p[j]
    {
      RankIsStableOrder(a, i, j);
    }
    PermutedAlong(a, b, p);
  }

  // ---------------------------------------------------------------- the sort

  method Bounds(arr: array<int>) returns (min: int, max: int)
    requires arr.Length > 0
    ensures min <= max && forall i :: 0 <= i < arr.Length ==> min <= arr[i] <= max
  {
    min, max := arr[0], arr[0];
    var i := 1;
    while i < arr.Length
      invariant 1 <= i <= arr.Length && min <= max
      invariant forall k :: 0 <= k < i ==> min <= arr[k] <= max
    {
      if arr[i] > max { max := arr[i]; }
      if arr[i] < min { min := arr[i]; }
      i := i + 1;
    }
  }

  /** `tmp[v]` becomes the number of occurrences of `min + v`. */
  method Tally(arr: array<int>, min: int, max: int) returns (tmp: array<int>)
    requires min <= max && forall i :: 0 <= i < arr.Length ==> min <= arr[i] <= max
    ensures fresh(tmp) && tmp.Length == max - min + 1
    ensures forall v :: 0 <= v < tmp.Length ==> tmp[v] == Same(arr[..], arr.Length, min + v)
  {
    tmp := new int[max - min + 1](_ => 0);
    var i := 0;
    while i < arr.Length
      invariant 0 <= i <= arr.Length
      invariant forall v :: 0 <= v < tmp.Length ==> tmp[v] == Same(arr[..], i, min + v)
    {
      tmp[arr[i] - min] := tmp[arr[i] - min] + 1;
      i := i + 1;
    }
  }

  /** `tmp[v]` becomes the number of values up to `min + v`. */
  method PrefixSums(tmp: array<int>, ghost a: seq<int>, min: int)
    requires tmp.Length > 0 && Below(a, |a|, min) == 0
    requires forall v :: 0 <= v < tmp.Length ==> tmp[v] == Same(a, |a|, min + v)
    modifies tmp
    ensures forall v :: 0 <= v < tmp.Length ==> tmp[v] == Below(a, |a|, min + v + 1)
  {
    hide Below, Same;
    BelowNext(a, |a|, min);
    var i := 1;
    while i < tmp.Length
      invariant 1 <= i <= tmp.Length
      invariant forall v :: 0 <= v < i ==> tmp[v] == Below(a, |a|, min + v + 1)
      invariant forall v :: i <= v < tmp.Length ==> tmp[v] == Same(a, |a|, min + v)
    {
      BelowNext(a, |a|, min + i);
      tmp[i] := tmp[i] + tmp[i - 1];
      i := i + 1;
    }
  }

  lemma {:induction false} NothingBelow(a: seq<int>, n: nat, x: int)
    requires n <= |a| && forall i :: 0 <= i < |a| ==> x <= a[i]
    ensures Below(a, n, x) == 0
  {
    if n > 0 { NothingBelow(a, n - 1, x); }
  }

  /** Every slot is written in bounds and once; the result is the stable sorted permutation. */
  method Sort(arr: array<int>) returns (obj: array<int>)
    requires arr.Length > 0
    ensures fresh(obj) && Placed(arr[..], obj[..])
    ensures Sorted(obj[..]) && multiset(obj[..]) == multiset(arr[..])
  {
    ghost var a := arr[..];
    var min, max := Bounds(arr);
    NothingBelow(a, |a|, min);
    var tmp := Tally(arr, min, max);
    PrefixSums(tmp, a, min);
    obj := Place(arr, tmp, min);
    PlacedIsSorted(a, obj[..]);
    PlacedIsPermutation(a, obj[..]);
  }

  method Place(arr: array<int>, tmp: array<int>, min: int) returns (obj: array<int>)
    requires arr != tmp && forall i :: 0 <= i < arr.Length ==> 0 <= arr[i] - min < tmp.Length
    requires forall v :: 0 <= v < tmp.Length ==> tmp[v] == Below(arr[..], arr.Length, min + v + 1)
    modifies tmp
    ensures fresh(obj) && Placed(arr[..], obj[..])
  {
    hide Below, Same;
    ghost var a := arr[..];
    ghost var written: set<int> := {};
    BelowNextAll(a);
    obj := new int[arr.Length];
    var i := arr.Length - 1;
    while i >= 0
      invariant -1 <= i < arr.Length && arr[..] == a
      invariant forall v :: 0 <= v < tmp.Length ==> tmp[v] == Below(a, |a|, min + v) + Same(a, i + 1, min + v)
      invariant written == set k | i < k < |a| :: Rank(a, k)
      invariant forall k :: i < k < |a| ==> 0 <= Rank(a, k) < |a| && obj[Rank(a, k)] == a[k]
    {
      var v := arr[i] - min;
      SameStep(a, i);
      assert tmp[v] - 1 == Rank(a, i);
      RankInRange(a, i);
      forall k: nat | i < k < |a| { RankIsStableOrder(a, i, k); }
      assert tmp[v] - 1 !in written;
      tmp[v] := tmp[v] - 1;
      obj[tmp[v]] := arr[i];
      written := written + {tmp[v]};
      i := i - 1;
    }
  }

  lemma BelowNextAll(a: seq<int>)
    ensures forall x :: Below(a, |a|, x + 1) == Below(a, |a|, x) + Same(a, |a|, x)
  {
    forall x
      ensures Below(a, |a|, x + 1) == Below(a, |a|, x) + Same(a, |a|, x)
    {
      BelowNext(a, |a|, x);
    }
  }

  lemma SameStep(a: seq<int>, i: nat)
    requires i < |a|
    ensures forall x :: Same(a, i + 1, x) == Same(a, i, x) + (if a[i] == x then 1 else 0)
  {}
}
