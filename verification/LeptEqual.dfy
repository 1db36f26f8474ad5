/** `lept_is_equal` on values. */
module LeptEqual {
  import opened Bits
  import opened Json

  /** Same type, same length, same bytes, keys in the same order, and numbers equal as doubles. */
  ghost predicate Equal(libc: Libc, a: Value, b: Value)
    decreases a
  {
    match a
    case Number(n) => b.Number? && libc.same(n, b.n)
    case Array(es) => b.Array? && |es| == |b.es| && forall i :: 0 <= i < |es| ==> Equal(libc, es[i], b.es[i])
    case Object(ms) =>
      && b.Object? && |ms| == |b.ms|
      && forall i :: 0 <= i < |ms| ==> ms[i].k == b.ms[i].k && Equal(libc, ms[i].v, b.ms[i].v)
    case _ => a == b
  }

  method IsEqual(libc: Libc, lhs: Value, rhs: Value) returns (r: bool)
    ensures r <==> Equal(libc, lhs, rhs)
    decreases lhs
  {
    match (lhs, rhs) {
      case (Null, Null) => return true;
      case (False, False) => return true;
      case (True, True) => return true;
      case (Number(n), Number(m)) => return libc.same(n, m);
      case (String(s), String(t)) => return |s| == |t| && s == t;
      case (Array(es), Array(fs)) =>
        if |es| != |fs| { return false; }
        var i := 0;
        while i < |es|
          invariant 0 <= i <= |es|
          invariant forall j :: 0 <= j < i ==> Equal(libc, es[j], fs[j])
        {
          var same := IsEqual(libc, es[i], fs[i]);
          if !same { return false; }
          i := i + 1;
        }
        return true;
      case (Object(ms), Object(ns)) =>
        if |ms| != |ns| { return false; }
        var i := 0;
        while i < |ms|
          invariant 0 <= i <= |ms|
          invariant forall j :: 0 <= j < i ==> ms[j].k == ns[j].k && Equal(libc, ms[j].v, ns[j].v)
        {
          if |ms[i].k| != |ns[i].k| || ms[i].k != ns[i].k { return false; }
          var same := IsEqual(libc, ms[i].v, ns[i].v);
          if !same { return false; }
          i := i + 1;
        }
        return true;
      case _ => return false;
    }
  }

  /** No number of the value is a NaN. */
  ghost predicate SelfEqual(libc: Libc, v: Value)
    decreases v
  {
    match v
    case Number(n) => libc.same(n, n)
    case Array(es) => forall i :: 0 <= i < |es| ==> SelfEqual(libc, es[i])
    case Object(ms) => forall i :: 0 <= i < |ms| ==> SelfEqual(libc, ms[i].v)
    case _ => true
  }

  /** A value equals itself exactly when none of its numbers is a NaN. */
  lemma {:induction false} EqualIsReflexive(libc: Libc, v: Value)
    ensures Equal(libc, v, v) <==> SelfEqual(libc, v)
    decreases v
  {
    match v
    case Array(es) => forall i | 0 <= i < |es| { EqualIsReflexive(libc, es[i]); }
    case Object(ms) => forall i | 0 <= i < |ms| { EqualIsReflexive(libc, ms[i].v); }
    case _ =>
  }

  lemma {:induction false} EqualIsSymmetric(libc: Libc, a: Value, b: Value)
    requires forall x, y :: libc.same(x, y) ==> libc.same(y, x)
    requires Equal(libc, a, b)
    ensures Equal(libc, b, a)
    decreases a
  {
    match a
    case Array(es) => forall i | 0 <= i < |es| { EqualIsSymmetric(libc, es[i], b.es[i]); }
    case Object(ms) => forall i | 0 <= i < |ms| { EqualIsSymmetric(libc, ms[i].v, b.ms[i].v); }
    case _ =>
  }

  lemma {:induction false} EqualIsTransitive(libc: Libc, a: Value, b: Value, c: Value)
    requires forall x, y, z :: libc.same(x, y) && libc.same(y, z) ==> libc.same(x, z)
    requires Equal(libc, a, b) && Equal(libc, b, c)
    ensures Equal(libc, a, c)
    decreases a
  {
    match a
    case Array(es) => forall i | 0 <= i < |es| { EqualIsTransitive(libc, es[i], b.es[i], c.es[i]); }
    case Object(ms) => forall i | 0 <= i < |ms| { EqualIsTransitive(libc, ms[i].v, b.ms[i].v, c.ms[i].v); }
    case _ =>
  }

  /** Where numbers are equal only to themselves, so are values. */
  lemma {:induction false} EqualIsIdentity(libc: Libc, a: Value, b: Value)
    requires forall x, y :: libc.same(x, y) <==> x == y
    ensures Equal(libc, a, b) <==> a == b
    decreases a
  {
    match a
    case Array(es) =>
      if b.Array? && |es| == |b.es| {
        forall i | 0 <= i < |es| { EqualIsIdentity(libc, es[i], b.es[i]); }
      }
    case Object(ms) =>
      if b.Object? && |ms| == |b.ms| {
        forall i | 0 <= i < |ms| { EqualIsIdentity(libc, ms[i].v, b.ms[i].v); }
        assert Equal(libc, a, b) ==> forall i :: 0 <= i < |ms| ==> ms[i] == b.ms[i];
      }
    case _ =>
  }
}
