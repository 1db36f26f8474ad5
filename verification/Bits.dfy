/** The C operators `<<`, `>>`, `&` and `|` on unsigned values, and the bytes they are applied to. */
module Bits {

  type byte = b: int | 0 <= b < 256

  function Pow2(k: nat): (p: nat)
    ensures p > 0
  {
    if k == 0 then 1 else 2 * Pow2(k - 1)
  }

  function Shl(a: nat, k: nat): nat { a * Pow2(k) }

  /** Drops the last `k` binary digits. */
  function Shr(a: nat, k: nat): nat
    decreases k
  {
    if k == 0 then a else Shr(a / 2, k - 1)
  }

  /** Bitwise and, one binary digit at a time. */
  function And(a: nat, b: nat): nat
  {
    if a == 0 || b == 0 then 0
    else 2 * And(a / 2, b / 2) + (if a % 2 == 1 && b % 2 == 1 then 1 else 0)
  }

  /** Bitwise or, one binary digit at a time. */
  function Or(a: nat, b: nat): nat
  {
    if a == 0 then b
    else if b == 0 then a
    else 2 * Or(a / 2, b / 2) + (if a % 2 == 1 || b % 2 == 1 then 1 else 0)
  }

  lemma {:induction false} ShrDivides(a: nat, k: nat)
    ensures Shr(a, k) == a / Pow2(k)
    decreases k
  {
    if k > 0 {
      var p := Pow2(k - 1);
      ShrDivides(a / 2, k - 1);
      ModDouble(a, p);
    }
  }

  /** Masking with `k` ones keeps the last `k` binary digits. */
  lemma {:induction false} AndMask(a: nat, k: nat)
    ensures And(a, Pow2(k) - 1) == a % Pow2(k)
  {
    if k > 0 {
      var p, mask := Pow2(k - 1), Pow2(k) - 1;
      OddHalves(p - 1);
      assert mask % 2 == 1 && mask / 2 == p - 1;
      calc {
        And(a, mask);
        { AndStep(a, mask); }
        2 * And(a / 2, p - 1) + a % 2;
        { AndMask(a / 2, k - 1); }
        2 * ((a / 2) % p) + a % 2;
        { ModDouble(a, p); }
        a % (2 * p);
      }
    }
  }

  lemma OddHalves(m: nat)
    ensures (2 * m + 1) / 2 == m && (2 * m + 1) % 2 == 1
  {}

  /** One unfolding of `And` against an odd mask. */
  lemma AndStep(a: nat, b: nat)
    requires b % 2 == 1
    ensures And(a, b) == 2 * And(a / 2, b / 2) + a % 2
  {
    if a == 0 {
    } else {
      assert b > 0;
    }
  }

  lemma ModDouble(a: nat, p: nat)
    requires p > 0
    ensures a % (2 * p) == 2 * ((a / 2) % p) + a % 2
    ensures a / (2 * p) == a / 2 / p
  {
    var q, r := (a / 2) / p, (a / 2) % p;
    assert a == (2 * p) * q + (2 * r + a % 2) by {
      assert a / 2 == p * q + r;
    }
    DivModUnique(a, 2 * p, q, 2 * r + a % 2);
  }

  lemma DivModUnique(a: nat, d: nat, q: nat, r: nat)
    requires d > 0 && r < d && a == d * q + r
    ensures a / d == q && a % d == r
  {
    var q', r' := a / d, a % d;
    assert d * (q - q') == r' - r by {
      assert a == d * q' + r';
      assert d * (q - q') == d * q - d * q';
    }
    NonzeroMultiple(d, q - q');
  }

  lemma NonzeroMultiple(d: nat, x: int)
    ensures x >= 1 ==> d * x >= d
    ensures x <= -1 ==> d * x + d <= 0
  {
    if x >= 1 {
      assert d * x == d + d * (x - 1);
    } else if x <= -1 {
      assert d * x + d == d * (x + 1);
    }
  }

  /** Or-ing values without a common binary digit adds them. */
  lemma {:induction false} OrDisjoint(a: nat, b: nat, k: nat)
    requires b < Pow2(k)
    ensures Or(a * Pow2(k), b) == a * Pow2(k) + b
  {
    if k == 0 || a == 0 || b == 0 {
    } else {
      var p := Pow2(k - 1);
      assert a * Pow2(k) == 2 * (a * p);
      assert (2 * (a * p)) / 2 == a * p;
      OrDisjoint(a, b / 2, k - 1);
      assert a * p > 0;
    }
  }
}
