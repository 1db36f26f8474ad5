/** Least-significant-digit radix sort with ten buckets. */
module RadixSort {

  type int32 = x: int | -0x8000_0000 <= x < 0x8000_0000

  function Pow10(d: nat): (p: nat)
    ensures p > 0
  {
    if d == 0 then 1 else 10 * Pow10(d - 1)
  }

  function Digit(x: nat, d: nat): (r: nat)
    ensures r < 10
  {
    x / Pow10(d) % 10
  }

  /** The number the last `d` digits spell. */
  function LowDigits(x: nat, d: nat): nat { x % Pow10(d) }

  ghost predicate SortedByLow(s: seq<int>, d: nat)
    requires NonNegative(s)
  {
    forall i, j :: 0 <= i < j < |s| ==> LowDigits(s[i], d) <= LowDigits(s[j], d)
  }

  ghost predicate NonNegative(s: seq<int>) { forall i :: 0 <= i < |s| ==> s[i] >= 0 }

  ghost predicate Sorted(s: seq<int>) { forall i, j :: 0 <= i < j < |s| ==> s[i] <= s[j] }

  // ---------------------------------------------------------------- digits

  lemma DivMod(x: int, p: int)
    requires p > 0
    ensures x == x / p * p + x % p && 0 <= x % p < p
  {}

  lemma Uniquely(x: int, p: int, q: int, r: int)
    requires p > 0 && 0 <= r < p && x == q * p + r
    ensures x / p == q && x % p == r
  {
    var q', r' := x / p, x % p;
    assert (q - q') * p == r' - r by {
      DivMod(x, p);
      assert (q - q') * p == q * p - q' * p;
    }
    Multiple(q - q', p);
  }

  lemma Multiple(m: int, p: int)
    ensures m >= 1 && p >= 0 ==> m * p >= p
    ensures m <= -1 && p >= 0 ==> m * p <= -p
  {
    if m >= 1 && p >= 0 {
      assert m * p == p + (m - 1) * p;
    } else if m <= -1 && p >= 0 {
      assert m * p == -p + (m + 1) * p;
    }
  }

  /** One more digit on the left. */
  lemma LowDigitsStep(x: nat, d: nat)
    ensures LowDigits(x, d + 1) == Digit(x, d) * Pow10(d) + LowDigits(x, d)
  {
    var p := Pow10(d);
    var q, r := x / p, x % p;
    DivMod(x, p);
    assert q == q / 10 * 10 + q % 10;
    Regroup(q / 10, q % 10, p);
    Multiple(9 - q % 10, p);
    assert (9 - q % 10) * p == 9 * p - q % 10 * p;
    Uniquely(x, 10 * p, q / 10, q % 10 * p + r);
  }

  lemma Regroup(a: int, b: int, p: int)
    ensures (a * 10 + b) * p == a * (10 * p) + b * p
  {}

  lemma {:induction false} Pow10Monotone(d: nat, e: nat)
    requires d <= e
    ensures Pow10(d) <= Pow10(e)
    decreases e
  {
    if d < e { Pow10Monotone(d, e - 1); }
  }

  lemma DivisorFits(max: int, digits: nat, digit: nat)
    requires 0 <= max < 0x8000_0000 && digit < digits && Pow10(digits - 1) <= max
    ensures Pow10(digit) <= 1_000_000_000
  {
    assert Pow10(10) == 10_000_000_000;
    if digits > 10 { Pow10Monotone(10, digits - 1); }
    Pow10Monotone(digit, 9);
    assert Pow10(9) == 1_000_000_000;
  }

  /** `get_digit`: the divisor grows by tens and stays a 32-bit number. */
  method GetDigit(num: int, digit: nat) returns (r: nat)
    requires 0 <= num && Pow10(digit) <= 1_000_000_000
    ensures r == Digit(num, digit)
  {
    var divisor: int32 := 1;
    var i := 0;
    while i < digit
      invariant 0 <= i <= digit && divisor == Pow10(i)
    {
      Pow10Monotone(i + 1, digit);
      divisor := divisor * 10;
      i := i + 1;
    }
    r := num / divisor % 10;
  }

  // ---------------------------------------------------------------- one pass

  /** The numbers with digit `b`, in their order. */
  function Bucket(s: seq<int>, d: nat, b: nat): (r: seq<int>)
    requires NonNegative(s)
  {
    if s == [] then []
    else
      var front, x := s[..|s| - 1], s[|s| - 1];
      if Digit(x, d) == b then Bucket(front, d, b) + [x] else Bucket(front, d, b)
  }

  /** The first `n` buckets, one after the other. */
  function Collected(s: seq<int>, d: nat, n: nat): seq<int>
    requires NonNegative(s)
  {
    if n == 0 then [] else Collected(s, d, n - 1) + Bucket(s, d, n - 1)
  }

  /** The members of a bucket are numbers of `s` with its digit. */
  lemma {:induction false} BucketIsPart(s: seq<int>, d: nat, b: nat)
    requires NonNegative(s)
    ensures forall y :: y in Bucket(s, d, b) ==> y in s && y >= 0 && Digit(y, d) == b
  {
    hide LowDigits, Digit, Pow10;
    if s != [] {
      var front, x := s[..|s| - 1], s[|s| - 1];
      BucketIsPart(front, d, b);
      assert s == front + [x];
    }
  }

  /** A bucket is as sorted by the lower digits as `s` was. */
  lemma {:induction false} BucketKeepsOrder(s: seq<int>, d: nat, b: nat)
    requires NonNegative(s) && SortedByLow(s, d)
    ensures NonNegative(Bucket(s, d, b)) && SortedByLow(Bucket(s, d, b), d)
  {
    hide LowDigits, Digit, Pow10;
    if s != [] {
      var front, x := s[..|s| - 1], s[|s| - 1];
      BucketKeepsOrder(front, d, b);
      BucketIsPart(front, d, b);
      LastIsLargest(s, d);
      SortedWith(Bucket(front, d, b), x, d);
    }
  }

  lemma LastIsLargest(s: seq<int>, d: nat)
    requires NonNegative(s) && SortedByLow(s, d) && s != []
    ensures forall y :: y in s[..|s| - 1] ==> y >= 0 && LowDigits(y, d) <= LowDigits(s[|s| - 1], d)
  {
    hide LowDigits;
    forall y | y in s[..|s| - 1]
      ensures y >= 0 && LowDigits(y, d) <= LowDigits(s[|s| - 1], d)
    {
      var k :| 0 <= k < |s| - 1 && s[..|s| - 1][k] == y;
      assert s[k] == y;
    }
  }

  lemma SortedWith(r: seq<int>, x: nat, d: nat)
    requires NonNegative(r) && SortedByLow(r, d) && forall y :: y in r ==> y >= 0 && LowDigits(y, d) <= LowDigits(x, d)
    ensures NonNegative(r + [x]) && SortedByLow(r + [x], d)
  {
    hide LowDigits;
    forall i, j | 0 <= i < j < |r + [x]|
      ensures LowDigits((r + [x])[i], d) <= LowDigits((r + [x])[j], d)
    {
      assert (r + [x])[i] == r[i] && r[i] in r;
    }
  }

  /** Buckets in order: smaller digits first, and the lower digits decide among equals. */
  lemma {:induction false} CollectedIsSorted(s: seq<int>, d: nat, n: nat)
    requires NonNegative(s) && SortedByLow(s, d) && n <= 10
    ensures var r := Collected(s, d, n);
      NonNegative(r) && SortedByLow(r, d + 1) && forall i :: 0 <= i < |r| ==> Digit(r[i], d) < n
    decreases n
  {
    hide Bucket, Digit, LowDigits, Pow10;
    if n > 0 {
      CollectedIsSorted(s, d, n - 1);
      BucketKeepsOrder(s, d, n - 1);
      BucketIsPart(s, d, n - 1);
      var low, high := Collected(s, d, n - 1), Bucket(s, d, n - 1);
      assert forall i :: 0 <= i < |high| ==> high[i] in high;
      Joined(low, high, d, n - 1);
      assert Collected(s, d, n) == low + high by { CollectedStep(s, d, n); }
    }
  }

  lemma CollectedStep(s: seq<int>, d: nat, n: nat)
    requires NonNegative(s) && n > 0
    ensures Collected(s, d, n) == Collected(s, d, n - 1) + Bucket(s, d, n - 1)
  {}

  lemma Joined(low: seq<int>, high: seq<int>, d: nat, b: nat)
    requires NonNegative(low) && SortedByLow(low, d + 1) && forall i :: 0 <= i < |low| ==> Digit(low[i], d) < b
    requires NonNegative(high) && SortedByLow(high, d) && forall i :: 0 <= i < |high| ==> Digit(high[i], d) == b
    ensures NonNegative(low + high) && SortedByLow(low + high, d + 1)
    ensures forall i :: 0 <= i < |low + high| ==> Digit((low + high)[i], d) < b + 1
  {
    hide Digit, LowDigits;
    var s := low + high;
    forall i, j | 0 <= i < j < |s|
      ensures LowDigits(s[i], d + 1) <= LowDigits(s[j], d + 1)
    {
      if j >= |low| {
        if i < |low| {
          SmallerDigit(s[i], s[j], d);
        } else {
          assert s[i] == high[i - |low|] && s[j] == high[j - |low|];
          LowDigitsStep(s[i], d);
          LowDigitsStep(s[j], d);
        }
      }
    }
  }

  lemma SmallerDigit(x: nat, y: nat, d: nat)
    requires Digit(x, d) < Digit(y, d)
    ensures LowDigits(x, d + 1) <= LowDigits(y, d + 1)
  {
    var p := Pow10(d);
    LowDigitsStep(x, d);
    LowDigitsStep(y, d);
    Multiple(Digit(y, d) - Digit(x, d), p);
    assert (Digit(y, d) - Digit(x, d)) * p == Digit(y, d) * p - Digit(x, d) * p;
    DivMod(x, p);
    DivMod(y, p);
  }

  lemma {:induction false} CollectedOfSnoc(s: seq<int>, x: int, d: nat, n: nat)
    requires NonNegative(s) && x >= 0
    ensures multiset(Collected(s + [x], d, n))
         == multiset(Collected(s, d, n)) + (if Digit(x, d) < n then multiset{x} else multiset{})
    decreases n
  {
    hide Digit, Pow10, LowDigits;
    if n > 0 {
      CollectedOfSnoc(s, x, d, n - 1);
      assert (s + [x])[..|s|] == s;
    }
  }

  /** Nothing is lost or added by going through the buckets. */
  lemma {:induction false} CollectedIsPermutation(s: seq<int>, d: nat)
    requires NonNegative(s)
    ensures multiset(Collected(s, d, 10)) == multiset(s) && |Collected(s, d, 10)| == |s|
  {
    if s == [] {
      NothingCollected(d, 10);
    } else {
      var front, x := s[..|s| - 1], s[|s| - 1];
      assert s == front + [x];
      CollectedIsPermutation(front, d);
      CollectedOfSnoc(front, x, d, 10);
    }
    assert |multiset(Collected(s, d, 10))| == |multiset(s)|;
  }

  lemma {:induction false} NothingCollected(d: nat, n: nat)
    ensures Collected([], d, n) == []
    decreases n
  {
    if n > 0 { NothingCollected(d, n - 1); }
  }

  /** Distribution into the buckets, collection back into the array. */
  method Pass(a: array<int>, buckets: array<seq<int>>, digit: nat)
    requires NonNegative(a[..]) && buckets.Length == 10 && Pow10(digit) <= 1_000_000_000
    requires forall b :: 0 <= b < 10 ==> buckets[b] == []
    modifies a, buckets
    ensures a[..] == Collected(old(a[..]), digit, 10)
    ensures forall b :: 0 <= b < 10 ==> buckets[b] == []
  {
    ghost var s := a[..];
    Distribute(a, buckets, digit);
    CollectedIsPermutation(s, digit);
    Collect(a, buckets, digit, s);
  }

  method Distribute(a: array<int>, buckets: array<seq<int>>, digit: nat)
    requires NonNegative(a[..]) && buckets.Length == 10 && Pow10(digit) <= 1_000_000_000
    requires forall b :: 0 <= b < 10 ==> buckets[b] == []
    modifies buckets
    ensures forall b :: 0 <= b < 10 ==> buckets[b] == Bucket(a[..], digit, b)
  {
    var i := 0;
    while i < a.Length
      invariant 0 <= i <= a.Length
      invariant forall b :: 0 <= b < 10 ==> buckets[b] == Bucket(a[..i], digit, b)
    {
      var index := GetDigit(a[i], digit);
      assert a[..i + 1][..i] == a[..i];
      buckets[index] := buckets[index] + [a[i]];
      i := i + 1;
    }
    assert a[..i] == a[..];
  }

  method Collect(a: array<int>, buckets: array<seq<int>>, digit: nat, ghost s: seq<int>)
    requires NonNegative(s) && buckets.Length == 10 && a.Length == |Collected(s, digit, 10)|
    requires forall b :: 0 <= b < 10 ==> buckets[b] == Bucket(s, digit, b)
    modifies a, buckets
    ensures a[..] == Collected(s, digit, 10)
    ensures forall b :: 0 <= b < 10 ==> buckets[b] == []
  {
    hide Bucket;
    var pos := 0;
    var b := 0;
    while b < 10
      invariant 0 <= b <= 10 && pos == |Collected(s, digit, b)| <= a.Length
      invariant a[..pos] == Collected(s, digit, b)
      invariant forall k :: 0 <= k < b ==> buckets[k] == []
      invariant forall k :: b <= k < 10 ==> buckets[k] == Bucket(s, digit, k)
    {
      CollectedLength(s, digit, b + 1, 10);
      pos := WriteBucket(a, buckets[b], pos);
      buckets[b] := [];
      b := b + 1;
    }
  }

  lemma {:induction false} CollectedLength(s: seq<int>, d: nat, m: nat, n: nat)
    requires NonNegative(s) && m <= n
    ensures |Collected(s, d, m)| <= |Collected(s, d, n)|
    decreases n
  {
    hide Bucket;
    if m < n { CollectedLength(s, d, m, n - 1); }
  }

  method WriteBucket(a: array<int>, bucket: seq<int>, pos: nat) returns (pos': nat)
    requires pos + |bucket| <= a.Length
    modifies a
    ensures pos' == pos + |bucket| && a[..pos'] == old(a[..pos]) + bucket
  {
    pos' := pos;
    var i := 0;
    while i < |bucket|
      invariant 0 <= i <= |bucket| && pos' == pos + i
      invariant a[..pos'] == old(a[..pos]) + bucket[..i]
    {
      a[pos'] := bucket[i];
      pos' := pos' + 1;
      i := i + 1;
    }
  }

  // ---------------------------------------------------------------- the sort

  /** The maximum and its number of decimal digits. */
  method CountDigits(a: array<int>) returns (digits: nat, max: int)
    requires a.Length > 0 && NonNegative(a[..])
    ensures forall i :: 0 <= i < a.Length ==> a[i] <= max
    ensures max in a[..] && max < Pow10(digits) && (digits > 0 ==> Pow10(digits - 1) <= max)
  {
    max := a[0];
    var i := 0;
    while i < a.Length
      invariant 0 <= i <= a.Length && max in a[..]
      invariant forall k :: 0 <= k < i ==> a[k] <= max
    {
      if a[i] > max { max := a[i]; }
      i := i + 1;
    }
    digits := 0;
    var left := max;
    assert max >= 0;
    while left > 0
      invariant left >= 0 && left == max / Pow10(digits)
      invariant digits > 0 ==> Pow10(digits - 1) <= max
      decreases left
    {
      Quotient(max, Pow10(digits));
      left := left / 10;
      digits := digits + 1;
    }
    Quotient(max, Pow10(digits));
  }

  lemma Quotient(x: int, p: int)
    requires p > 0 && x >= 0
    ensures x / p > 0 ==> p <= x
    ensures x / p == 0 ==> x < p
    ensures x / p / 10 == x / (10 * p)
  {
    DivMod(x, p);
    var q := x / p;
    Multiple(q, p);
    Regroup(q / 10, q % 10, p);
    Multiple(9 - q % 10, p);
    assert (9 - q % 10) * p == 9 * p - q % 10 * p;
    Uniquely(x, 10 * p, q / 10, q % 10 * p + x % p);
  }

  lemma AllDigitsSorted(s: seq<int>, d: nat)
    requires NonNegative(s) && SortedByLow(s, d) && forall i :: 0 <= i < |s| ==> s[i] < Pow10(d)
    ensures Sorted(s)
  {
    hide LowDigits, Pow10;
    forall i, j | 0 <= i < j < |s|
      ensures s[i] <= s[j]
    {
      SmallNumber(s[i], d);
      SmallNumber(s[j], d);
    }
  }

  lemma SmallNumber(x: nat, d: nat)
    requires x < Pow10(d)
    ensures LowDigits(x, d) == x
  {
    var p := Pow10(d);
    Uniquely(x, p, 0, x);
  }

  /** The array after the passes for the digits below `d`. */
  ghost predicate AfterPasses(a: seq<int>, s: seq<int>, d: nat) {
    NonNegative(s) && SortedByLow(s, d) && multiset(s) == multiset(a)
  }

  lemma PassSortsOneMore(a: seq<int>, s: seq<int>, d: nat)
    requires AfterPasses(a, s, d)
    ensures AfterPasses(a, Collected(s, d, 10), d + 1)
  {
    CollectedIsSorted(s, d, 10);
    CollectedIsPermutation(s, d);
  }

  method Sort(a: array<int>)
    requires a.Length > 0 && NonNegative(a[..]) && forall i :: 0 <= i < a.Length ==> a[i] < 0x8000_0000
    modifies a
    ensures Sorted(a[..]) && multiset(a[..]) == multiset(old(a[..]))
  {
    ghost var a0 := a[..];
    var digits, max := CountDigits(a);
    var buckets := new seq<int>[10](_ => []);
    var digit := 0;
    while digit < digits
      invariant 0 <= digit <= digits
      invariant AfterPasses(a0, a[..], digit)
      invariant forall b :: 0 <= b < 10 ==> buckets[b] == []
    {
      PassSortsOneMore(a0, a[..], digit);
      DivisorFits(max, digits, digit);
      Pass(a, buckets, digit);
      digit := digit + 1;
    }
    SameMembers(a0, a[..], Pow10(digits));
    AllDigitsSorted(a[..], digits);
  }

  lemma SameMembers(a: seq<int>, b: seq<int>, bound: int)
    requires multiset(a) == multiset(b) && forall i :: 0 <= i < |a| ==> a[i] < bound
    ensures forall i :: 0 <= i < |b| ==> b[i] < bound
  {
    forall i | 0 <= i < |b|
      ensures b[i] < bound
    {
      assert b[i] in multiset(b);
      assert b[i] in multiset(a);
      assert b[i] in a;
    }
  }
}
