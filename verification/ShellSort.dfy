/**
 Shell's sort with the gaps 1, 4, 13, ...: an insertion pass with one gap keeps the order
 that every other gap has reached.
 */
module ShellSort {

  /** Sorted along the gap `k`. */
  ghost predicate GapSorted(a: seq<int>, k: nat) {
    forall i :: 0 <= i && i + k < |a| ==> a[i] <= a[i + k]
  }

  /** How many of the places c, c + h, c + 2h, ... hold a value up to `t`. */
  ghost function Count(a: seq<int>, c: nat, h: nat, t: int): nat
    requires h > 0
    decreases |a| - c
  {
    if c >= |a| then 0 else (if a[c] <= t then 1 else 0) + Count(a, c + h, h, t)
  }

  /** Every chain of the gap `h` holds the same values in both. */
  ghost predicate SameChains(a: seq<int>, b: seq<int>, h: nat)
    requires h > 0
  {
    |a| == |b| && forall c: nat, t :: c < h ==> Count(a, c, h, t) == Count(b, c, h, t)
  }

  // ---------------------------------------------------------------- a pass keeps other gaps

  lemma {:induction false} CountSkips(a: seq<int>, c: nat, j: nat, h: nat, t: int)
    requires h > 0
    ensures Count(a, c, h, t) <= j + Count(a, c + j * h, h, t)
    decreases j
  {
    if j > 0 {
      assert c + j * h == (c + h) + (j - 1) * h;
      CountSkips(a, c + h, j - 1, h, t);
    }
  }

  /** A sorted chain holds, up to a place, nothing above the value there. */
  lemma {:induction false} CountUpTo(a: seq<int>, c: nat, m: nat, h: nat, t: int)
    requires h > 0 && GapSorted(a, h) && c + m * h < |a| && a[c + m * h] <= t
    ensures Count(a, c, h, t) >= m + 1 && a[c] <= t
    decreases m
  {
    if m > 0 {
      assert c + m * h == (c + h) + (m - 1) * h;
      assert (m - 1) * h >= 0;
      CountUpTo(a, c + h, m - 1, h, t);
    }
  }

  lemma {:induction false} CountAbove(a: seq<int>, c: nat, h: nat, t: int)
    requires h > 0 && GapSorted(a, h) && (c < |a| ==> a[c] > t)
    ensures Count(a, c, h, t) == 0
    decreases |a| - c
  {
    if c < |a| { CountAbove(a, c + h, h, t); }
  }

  /** Along a gap that is sorted, the chain that starts earlier holds no fewer small values. */
  lemma {:induction false} CountOfShifted(a: seq<int>, b: nat, k: nat, h: nat, t: int)
    requires h > 0 && GapSorted(a, k)
    ensures Count(a, b, h, t) >= Count(a, b + k, h, t)
    decreases |a| - b
  {
    if b < |a| { CountOfShifted(a, b + h, k, h, t); }
  }

  lemma DivMod(x: nat, h: nat) returns (r: nat, q: nat)
    requires h > 0
    ensures r < h && x == r + q * h
  {
    r, q := x % h, x / h;
  }

  /** The chain through `p + k`, sorted, holds enough values up to the one there for the chain through `p`. */
  lemma SmallValues(a: seq<int>, b: seq<int>, h: nat, k: nat, r: nat, i: nat, c: nat, j: nat, t: int)
    requires h > 0 && SameChains(a, b, h) && GapSorted(b, h) && GapSorted(a, k)
    requires r < h && c < h && c + j * h == r + k
    requires c + (j + i) * h < |b| && b[c + (j + i) * h] <= t
    ensures Count(b, r, h, t) >= i + 1
  {
    CountUpTo(b, c, j + i, h, t);
    CountSkips(a, c, j, h, t);
    CountOfShifted(a, r, k, h, t);
  }

  /** A place of a sorted chain that holds more than `i` values up to `t`. */
  lemma CountBounds(b: seq<int>, h: nat, r: nat, i: nat, t: int)
    requires h > 0 && GapSorted(b, h) && r + i * h < |b| && Count(b, r, h, t) >= i + 1
    ensures b[r + i * h] <= t
  {
    CountSkips(b, r, i, h, t);
    if b[r + i * h] > t {
      CountAbove(b, r + i * h, h, t);
    }
  }

  /** Sorting every chain of one gap leaves any other gap sorted. */
  lemma GapIsKept(a: seq<int>, b: seq<int>, h: nat, k: nat, p: nat)
    requires h > 0 && SameChains(a, b, h) && GapSorted(b, h) && GapSorted(a, k) && p + k < |a|
    ensures b[p] <= b[p + k]
  {
    hide Count, SameChains, GapSorted;
    var r, i := DivMod(p, h);
    var c, j := DivMod(r + k, h);
    Distribute(j, i, h);
    SameLength(a, b, h);
    SmallValues(a, b, h, k, r, i, c, j, b[p + k]);
    CountBounds(b, h, r, i, b[p + k]);
  }

  lemma SameLength(a: seq<int>, b: seq<int>, h: nat)
    requires h > 0 && SameChains(a, b, h)
    ensures |a| == |b|
  {}

  lemma Distribute(j: nat, i: nat, h: nat)
    ensures (j + i) * h == j * h + i * h
  {}

  lemma GapsAreKept(a: seq<int>, b: seq<int>, h: nat)
    requires h > 0 && SameChains(a, b, h) && GapSorted(b, h)
    ensures forall k: nat :: GapSorted(a, k) ==> GapSorted(b, k)
  {
    forall k: nat | GapSorted(a, k)
      ensures GapSorted(b, k)
    {
      forall p: nat | p + k < |b|
        ensures b[p] <= b[p + k]
      {
        GapIsKept(a, b, h, k, p);
      }
    }
  }

  // ---------------------------------------------------------------- an exchange keeps the chains

  ghost function Exchanged(a: seq<int>, j: nat, h: nat): seq<int>
    requires h <= j < |a|
  {
    a[j := a[j - h]][j - h := a[j]]
  }

  lemma {:induction false} CountOfTail(a: seq<int>, b: seq<int>, c: nat, h: nat, t: int)
    requires h > 0 && |a| == |b| && forall i :: c <= i < |a| ==> a[i] == b[i]
    ensures Count(a, c, h, t) == Count(b, c, h, t)
    decreases |a| - c
  {
    if c < |a| { CountOfTail(a, b, c + h, h, t); }
  }

  lemma ModShift(x: int, h: nat)
    requires h > 0
    ensures (x - h) % h == x % h
  {
    var q, r := x / h, x % h;
    assert x - h == h * (q - 1) + r;
    UniqueMod(x - h, h, q - 1, r);
  }

  lemma UniqueMod(x: int, h: nat, q: int, r: int)
    requires h > 0 && 0 <= r < h && x == h * q + r
    ensures x % h == r
  {
    var q', r' := x / h, x % h;
    assert h * (q - q') == r' - r by {
      assert h * (q - q') == h * q - h * q';
    }
    Multiple(h, q - q');
  }

  lemma Multiple(h: nat, m: int)
    ensures m >= 1 ==> h * m >= h
    ensures m <= -1 ==> h * m + h <= 0
  {
    if m >= 1 {
      assert h * m == h + h * (m - 1);
    } else if m <= -1 {
      assert h * m + h == h * (m + 1);
    }
  }

  /** A chain holds both places of an exchange or neither. */
  lemma {:induction false} CountOfExchanged(a: seq<int>, c: nat, j: nat, h: nat, t: int)
    requires h > 0 && h <= j < |a|
    requires (j - c) % h != 0 || c <= j - h
    ensures Count(Exchanged(a, j, h), c, h, t) == Count(a, c, h, t)
    decreases |a| - c
  {
    var b := Exchanged(a, j, h);
    if c < |a| {
      ModShift(j - c, h);
      if c == j - h {
        CountOfTail(a, b, j + h, h, t);
        assert Count(b, c, h, t) == (if b[c] <= t then 1 else 0) + ((if b[j] <= t then 1 else 0) + Count(b, j + h, h, t));
      } else {
        if (j - c) % h == 0 { MultipleAbove(j - c, h); }
        assert c != j by { ZeroMod(h); }
        CountOfExchanged(a, c + h, j, h, t);
      }
    }
  }

  lemma ZeroMod(h: nat)
    requires h > 0
    ensures 0 % h == 0
  {}

  lemma MultipleAbove(x: int, h: nat)
    requires h > 0 && x % h == 0 && x > h
    ensures x >= 2 * h
  {
    var q := x / h;
    assert x == h * q;
    assert h * (q - 1) == x - h && h * (q - 2) == x - 2 * h;
    Multiple(h, q - 1);
    Multiple(h, q - 2);
  }

  /** A rearrangement inside the chains of `h`. */
  ghost predicate Rearranged(a: seq<int>, b: seq<int>, h: nat)
    requires h > 0
  {
    SameChains(a, b, h) && multiset(a) == multiset(b)
  }

  lemma ExchangeRearranges(a: seq<int>, b: seq<int>, j: nat, h: nat)
    requires h > 0 && h <= j < |b| && Rearranged(a, b, h)
    ensures Rearranged(a, Exchanged(b, j, h), h)
  {
    forall c: nat, t | c < h
      ensures Count(a, c, h, t) == Count(Exchanged(b, j, h), c, h, t)
    {
      if (j - c) % h == 0 && c > j - h { BelowGap(j - c, h); }
      CountOfExchanged(b, c, j, h, t);
    }
  }

  lemma BelowGap(x: int, h: nat)
    requires h > 0 && 0 < x < h
    ensures x % h != 0
  {}

  // ---------------------------------------------------------------- the sort

  /** Sorted along `h` among the first `n` places. */
  ghost predicate PrefixSorted(a: seq<int>, h: nat, n: nat) {
    forall q :: h <= q < n && q < |a| ==> a[q - h] <= a[q]
  }

  /** Everything up to `i` is in order along `h`, except that the value at `j` may belong further down. */
  ghost predicate Sinking(a: seq<int>, h: nat, i: nat, j: nat) {
    && j <= i < |a|
    && (forall q :: h <= q <= i && q != j ==> a[q - h] <= a[q])
    && (j == i || (j + h <= i && (j >= h ==> a[j - h] <= a[j + h])))
  }

  lemma SinkStarts(a: seq<int>, h: nat, i: nat)
    requires h <= i < |a| && PrefixSorted(a, h, i)
    ensures Sinking(a, h, i, i)
  {}

  lemma Sinks(a: seq<int>, h: nat, i: nat, j: nat)
    requires h > 0 && h <= j && Sinking(a, h, i, j) && a[j] < a[j - h]
    ensures Sinking(Exchanged(a, j, h), h, i, j - h)
  {}

  lemma SinkEnds(a: seq<int>, h: nat, i: nat, j: nat)
    requires h > 0 && Sinking(a, h, i, j) && (j < h || a[j] >= a[j - h])
    ensures PrefixSorted(a, h, i + 1)
  {}

  /** The two inner loops: insertion along one gap. */
  method Pass(a: array<int>, h: nat)
    requires h > 0
    modifies a
    ensures GapSorted(a[..], h) && SameChains(old(a[..]), a[..], h)
    ensures multiset(a[..]) == multiset(old(a[..]))
    ensures forall k: nat :: GapSorted(old(a[..]), k) ==> GapSorted(a[..], k)
  {
    ghost var a0 := a[..];
    var i := h;
    while i < a.Length
      invariant i >= h && PrefixSorted(a[..], h, i)
      invariant Rearranged(a0, a[..], h)
    {
      Sink(a, h, i, a0);
      i := i + 1;
    }
    assert GapSorted(a[..], h) by {
      forall p: nat | p + h < |a[..]|
        ensures a[..][p] <= a[..][p + h]
      {
        assert a[..][(p + h) - h] <= a[..][p + h];
      }
    }
    GapsAreKept(a0, a[..], h);
  }

  method Sink(a: array<int>, h: nat, i: nat, ghost a0: seq<int>)
    requires h > 0 && h <= i < a.Length && PrefixSorted(a[..], h, i)
    requires Rearranged(a0, a[..], h)
    modifies a
    ensures PrefixSorted(a[..], h, i + 1)
    ensures Rearranged(a0, a[..], h)
  {
    hide Rearranged, PrefixSorted;
    assert Sinking(a[..], h, i, i) by { SinkStarts(a[..], h, i); }
    hide Sinking;
    var j: nat := i;
    while j >= h && a[j] < a[j - h]
      invariant Sinking(a[..], h, i, j)
      invariant Rearranged(a0, a[..], h)
      invariant j <= i
      decreases j
    {
      ghost var before := a[..];
      Sinks(before, h, i, j);
      ExchangeRearranges(a0, before, j, h);
      a[j], a[j - h] := a[j - h], a[j];
      assert a[..] == Exchanged(before, j, h);
      j := j - h;
    }
    SinkEnds(a[..], h, i, j);
  }

  /** The gaps reached by h = 3h + 1 from 1. */
  predicate IsGap(h: nat) {
    h == 1 || (h > 1 && h % 3 == 1 && IsGap(h / 3))
  }

  ghost predicate Sorted(a: seq<int>) {
    forall i, j :: 0 <= i < j < |a| ==> a[i] <= a[j]
  }

  lemma {:induction false} GapOneIsSorted(a: seq<int>, i: nat, j: nat)
    requires GapSorted(a, 1) && i <= j < |a|
    ensures a[i] <= a[j]
    decreases j - i
  {
    if i < j {
      GapOneIsSorted(a, i + 1, j);
      assert a[i] <= a[i + 1];
    }
  }

  method Sort(a: array<int>)
    modifies a
    ensures Sorted(a[..]) && multiset(a[..]) == multiset(old(a[..]))
  {
    var h: nat := 1;
    while h < a.Length / 3
      invariant IsGap(h)
      decreases a.Length - h
    {
      h := h * 3 + 1;
    }
    ghost var passed: set<nat> := {};
    while h >= 1
      invariant h == 0 || IsGap(h)
      invariant h == 0 ==> 1 in passed
      invariant forall k :: k in passed ==> GapSorted(a[..], k)
      invariant multiset(a[..]) == multiset(old(a[..]))
      decreases h
    {
      Pass(a, h);
      passed := passed + {h};
      h := h / 3;
    }
    forall i, j | 0 <= i < j < |a[..]|
      ensures a[..][i] <= a[..][j]
    {
      GapOneIsSorted(a[..], i, j);
    }
  }
}
