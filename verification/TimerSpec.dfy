/**
 The timer manager on values: the timers by address, the order in which the set keeps them, the
 wake-up flag, and every public operation with the clock reading passed in.
 */
module TimerSpec {

  datatype Option<+T> = None | Some(value: T)

  type Addr = nat
  type Cb = nat

  datatype Rec = Rec(recurring: bool, ms: nat, next: nat, cb: Option<Cb>)

  /**
   `order` is `m_timers`, first to last. `fired` counts the calls of `onTimerInsertedAtFront` since
   the last `getNextTime`, and `seen` is the first deadline that call saw.
   */
  datatype Mgr = Mgr(
    recs: map<Addr, Rec>,
    order: seq<Addr>,
    tickled: bool,
    previous: nat,
    fired: nat,
    seen: Option<nat>)

  const HOUR: nat := 60 * 60 * 1000
  const WORD: nat := 0x1_0000_0000_0000_0000
  const NEVER: nat := 0xFFFF_FFFF_FFFF_FFFF

  predicate Known(recs: map<Addr, Rec>, order: seq<Addr>) { forall a :: a in order ==> a in recs }

  // ---------------------------------------------------------------- the ordered set

  /** `Timer::Comparator` on two timers. */
  predicate Less(next: nat, a: Addr, next': nat, b: Addr) {
    if next < next' then true else if next' < next then false else a < b
  }

  predicate Before(recs: map<Addr, Rec>, a: Addr, b: Addr)
    requires a in recs && b in recs
  {
    Less(recs[a].next, a, recs[b].next, b)
  }

  predicate Ordered(recs: map<Addr, Rec>, order: seq<Addr>)
    requires Known(recs, order)
  {
    forall i, j :: 0 <= i < j < |order| ==> Before(recs, order[i], order[j])
  }

  /** How many timers of the set come before the key. */
  function Rank(recs: map<Addr, Rec>, order: seq<Addr>, next: nat, a: Addr): (r: nat)
    requires Known(recs, order)
    ensures r <= |order|
    ensures r < |order| ==> !Less(recs[order[r]].next, order[r], next, a)
    ensures forall i :: 0 <= i < r ==> Less(recs[order[i]].next, order[i], next, a)
  {
    if order == [] || !Less(recs[order[0]].next, order[0], next, a) then 0
    else 1 + Rank(recs, order[1..], next, a)
  }

  /** `insert`. */
  function Inserted(recs: map<Addr, Rec>, order: seq<Addr>, a: Addr): (r: seq<Addr>)
    requires Known(recs, order) && a in recs
    ensures |r| == |order| + 1
  {
    var i := Rank(recs, order, recs[a].next, a);
    order[..i] + [a] + order[i..]
  }

  function Without(order: seq<Addr>, a: Addr): (r: seq<Addr>)
    ensures forall b :: b in r <==> b in order && b != a
  {
    if order == [] then [] else if order[0] == a then Without(order[1..], a) else [order[0]] + Without(order[1..], a)
  }

  /** The first timer whose deadline lies behind `now`: `lower_bound` with a probe, then the equal deadlines. */
  function FirstLater(recs: map<Addr, Rec>, order: seq<Addr>, now: nat, probe: Addr): (n: nat)
    requires Known(recs, order)
    ensures n <= |order|
  {
    SkipEqual(recs, order, now, Rank(recs, order, now, probe))
  }

  function SkipEqual(recs: map<Addr, Rec>, order: seq<Addr>, now: nat, i: nat): (n: nat)
    requires Known(recs, order) && i <= |order|
    ensures i <= n <= |order|
    ensures n < |order| ==> recs[order[n]].next != now
    ensures forall k :: i <= k < n ==> recs[order[k]].next == now
    decreases |order| - i
  {
    if i < |order| && recs[order[i]].next == now then SkipEqual(recs, order, now, i + 1) else i
  }

  // ---------------------------------------------------------------- operations

  /** The private `addTimer`: insertion and the wake-up of an earlier sleeper. */
  function AddVal(m: Mgr, a: Addr): Mgr
    requires Known(m.recs, m.order) && a in m.recs
  {
    var order := Inserted(m.recs, m.order, a);
    if order[0] == a && !m.tickled then m.(order := order, tickled := true, fired := m.fired + 1)
    else m.(order := order)
  }

  function Add(m: Mgr, a: Addr, ms: nat, cb: Cb, recurring: bool, now: nat): Mgr
    requires Known(m.recs, m.order)
  {
    AddVal(m.(recs := m.recs[a := Rec(recurring, ms, now + ms, Some(cb))]), a)
  }

  function Cancel(m: Mgr, a: Addr): (Mgr, bool)
    requires a in m.recs
  {
    if m.recs[a].cb.None? then (m, false)
    else (m.(recs := m.recs[a := m.recs[a].(cb := None)], order := Without(m.order, a)), true)
  }

  function Refresh(m: Mgr, a: Addr, now: nat): (Mgr, bool)
    requires Known(m.recs, m.order) && a in m.recs
  {
    if m.recs[a].cb.None? || a !in m.order then (m, false)
    else
      var recs := m.recs[a := m.recs[a].(next := now + m.recs[a].ms)];
      (m.(recs := recs, order := Inserted(recs, Without(m.order, a), a)), true)
  }

  function Reset(m: Mgr, a: Addr, ms: nat, fromNow: bool, now: nat): (Mgr, bool)
    requires Known(m.recs, m.order) && a in m.recs && m.recs[a].ms <= m.recs[a].next
  {
    var r := m.recs[a];
    if ms == r.ms && !fromNow then (m, true)
    else if r.cb.None? || a !in m.order then (m, false)
    else
      var start := if fromNow then now else r.next - r.ms;
      (AddVal(m.(recs := m.recs[a := r.(ms := ms, next := start + ms)], order := Without(m.order, a)), a), true)
  }

  function GetNextTime(m: Mgr, now: nat): (Mgr, nat)
    requires Known(m.recs, m.order)
  {
    if m.order == [] then (m.(tickled := false, fired := 0, seen := None), NEVER)
    else
      var next := m.recs[m.order[0]].next;
      (m.(tickled := false, fired := 0, seen := Some(next)), if now >= next then 0 else next - now)
  }

  /** Unsigned subtraction of one hour wraps around. */
  predicate Rollover(previous: nat, now: nat) {
    now < previous && now < (previous - HOUR) % WORD
  }

  /** One turn of the loop over the expired timers. */
  function Retire(m: Mgr, a: Addr, now: nat): Mgr
    requires Known(m.recs, m.order) && a in m.recs
  {
    var r := m.recs[a];
    if r.recurring then
      var recs := m.recs[a := r.(next := now + r.ms)];
      m.(recs := recs, order := Inserted(recs, m.order, a))
    else
      m.(recs := m.recs[a := r.(cb := None)])
  }

  function RetireAll(m: Mgr, expired: seq<Addr>, now: nat): (m': Mgr)
    requires Known(m.recs, m.order) && Known(m.recs, expired)
    ensures Known(m'.recs, m'.order) && m'.recs.Keys == m.recs.Keys
    decreases |expired|
  {
    if expired == [] then m else RetireAll(Retire(m, expired[0], now), expired[1..], now)
  }

  function Callbacks(recs: map<Addr, Rec>, timers: seq<Addr>): seq<Option<Cb>>
    requires Known(recs, timers)
  {
    seq(|timers|, i requires 0 <= i < |timers| => recs[timers[i]].cb)
  }

  function ListExpired(m: Mgr, now: nat, probe: Addr): (Mgr, seq<Option<Cb>>)
    requires Known(m.recs, m.order)
  {
    if m.order == [] then (m, [])
    else
      var rollover := Rollover(m.previous, now);
      var m1 := m.(previous := now);
      if !rollover && m.recs[m.order[0]].next > now then (m1, [])
      else
        var n := if rollover then |m.order| else FirstLater(m.recs, m.order, now, probe);
        var expired := m.order[..n];
        (RetireAll(m1.(order := m.order[n..]), expired, now), Callbacks(m.recs, expired))
  }

  // ---------------------------------------------------------------- what holds in every state

  /** Whatever the clock does: the set is ordered, holds exactly the timers with a callback, and no deadline underflows. */
  predicate Structure(m: Mgr) {
    && Known(m.recs, m.order)
    && Ordered(m.recs, m.order)
    && (forall a :: a in m.recs ==> (m.recs[a].cb.Some? <==> a in m.order))
    && (forall a :: a in m.recs ==> m.recs[a].ms <= m.recs[a].next)
  }

  /** While the clock does not go back: an earlier deadline than the one seen has woken the waiter, once. */
  predicate Wakeup(m: Mgr, clock: nat) {
    && m.previous <= clock
    && (forall a :: a in m.recs ==> m.recs[a].next <= clock + m.recs[a].ms)
    && Promise(m)
  }

  /** The waiter has been woken since it last asked, once, or no deadline is earlier than the one it saw. */
  predicate Promise(m: Mgr) {
    && (m.fired == if m.tickled then 1 else 0)
    && (m.tickled || forall a :: a in m.order && a in m.recs ==> m.seen.Some? && m.recs[a].next >= m.seen.value)
  }

  // ---------------------------------------------------------------- the set stays ordered

  lemma OrderedWithout(recs: map<Addr, Rec>, order: seq<Addr>, a: Addr)
    requires Known(recs, order) && Ordered(recs, order)
    ensures Ordered(recs, Without(order, a))
  {
    if order != [] {
      OrderedWithout(recs, order[1..], a);
      var rest := Without(order[1..], a);
      forall j | 0 <= j < |rest|
        ensures Before(recs, order[0], rest[j])
      {
        assert rest[j] in order[1..];
      }
    }
  }

  lemma OrderedIsDistinct(recs: map<Addr, Rec>, order: seq<Addr>)
    requires Known(recs, order) && Ordered(recs, order)
    ensures forall j, k :: 0 <= j < k < |order| ==> order[j] != order[k]
  {
    forall j, k | 0 <= j < k < |order|
      ensures order[j] != order[k]
    {
      assert Before(recs, order[j], order[k]);
    }
  }

  /** Keys of other timers do not matter. */
  lemma OrderedUnder(recs: map<Addr, Rec>, recs': map<Addr, Rec>, order: seq<Addr>)
    requires Known(recs, order) && Ordered(recs, order) && Known(recs', order)
    requires forall a :: a in order ==> recs'[a].next == recs[a].next
    ensures Ordered(recs', order)
  {}

  lemma InsertedIsOrdered(recs: map<Addr, Rec>, order: seq<Addr>, a: Addr)
    requires Known(recs, order) && Ordered(recs, order) && a in recs && a !in order
    ensures Known(recs, Inserted(recs, order, a)) && Ordered(recs, Inserted(recs, order, a))
    ensures forall b :: b in Inserted(recs, order, a) <==> b in order || b == a
  {
    var n := Rank(recs, order, recs[a].next, a);
    var r := Inserted(recs, order, a);
    forall b
      ensures b in r <==> b in order || b == a
    {
      if b in order {
        var k :| 0 <= k < |order| && order[k] == b;
        assert r[if k < n then k else k + 1] == b;
      }
      assert r[n] == a;
    }
    forall i, j | 0 <= i < j < |r|
      ensures Before(recs, r[i], r[j])
    {
      if i == n {
        assert r[j] == order[j - 1];
        FollowsRank(recs, order, a, j - 1);
      }
    }
  }

  lemma FollowsRank(recs: map<Addr, Rec>, order: seq<Addr>, a: Addr, k: nat)
    requires Known(recs, order) && Ordered(recs, order) && a in recs && a !in order
    requires Rank(recs, order, recs[a].next, a) <= k < |order|
    ensures Before(recs, a, order[k])
  {
    hide Less, Rank;
    var n := Rank(recs, order, recs[a].next, a);
    var b, c := order[n], order[k];
    assert b in order && c in order;
    ComparatorIsStrictOrder(recs[a].next, a, recs[b].next, b, recs[c].next, c);
    assert k > n ==> Before(recs, b, c);
  }

  /** The comparator is a strict order, total on different addresses. */
  lemma ComparatorIsStrictOrder(x: nat, a: Addr, y: nat, b: Addr, z: nat, c: Addr)
    ensures !(Less(x, a, y, b) && Less(y, b, x, a)) && !Less(x, a, x, a)
    ensures a != b ==> Less(x, a, y, b) || Less(y, b, x, a)
    ensures Less(x, a, y, b) && Less(y, b, z, c) ==> Less(x, a, z, c)
  {}

  /** In an ordered set the timers due are a prefix, and the probe's address does not matter. */
  lemma DueIsPrefix(recs: map<Addr, Rec>, order: seq<Addr>, now: nat, probe: Addr)
    requires Known(recs, order) && Ordered(recs, order)
    ensures var n := FirstLater(recs, order, now, probe);
      && (forall i :: 0 <= i < n ==> recs[order[i]].next <= now)
      && (forall i :: n <= i < |order| ==> recs[order[i]].next > now)
  {
    var r := Rank(recs, order, now, probe);
    var n := FirstLater(recs, order, now, probe);
    forall i | n <= i < |order|
      ensures recs[order[i]].next > now
    {
      assert n < i ==> Before(recs, order[n], order[i]);
      assert r < i ==> Before(recs, order[r], order[i]);
      assert recs[order[r]].next >= now;
      assert recs[order[n]].next >= now by { assert r < n ==> Before(recs, order[r], order[n]); }
    }
  }

  // ---------------------------------------------------------------- every operation keeps the structure

  lemma AddKeepsStructure(m: Mgr, a: Addr, ms: nat, cb: Cb, recurring: bool, now: nat)
    requires Structure(m) && a !in m.recs
    ensures Structure(Add(m, a, ms, cb, recurring, now))
  {
    var recs := m.recs[a := Rec(recurring, ms, now + ms, Some(cb))];
    OrderedUnder(m.recs, recs, m.order);
    InsertedIsOrdered(recs, m.order, a);
  }

  lemma CancelKeepsStructure(m: Mgr, a: Addr)
    requires Structure(m) && a in m.recs
    ensures Structure(Cancel(m, a).0)
  {
    OrderedWithout(m.recs, m.order, a);
    OrderedUnder(m.recs, Cancel(m, a).0.recs, Without(m.order, a));
  }

  lemma MoveKeepsStructure(m: Mgr, a: Addr, r: Rec)
    requires Structure(m) && a in m.order && r.cb.Some? && r.ms <= r.next
    ensures var recs := m.recs[a := r];
      Structure(m.(recs := recs, order := Inserted(recs, Without(m.order, a), a)))
  {
    var recs := m.recs[a := r];
    OrderedWithout(m.recs, m.order, a);
    OrderedUnder(m.recs, recs, Without(m.order, a));
    InsertedIsOrdered(recs, Without(m.order, a), a);
  }

  lemma RefreshKeepsStructure(m: Mgr, a: Addr, now: nat)
    requires Structure(m) && a in m.recs
    ensures Structure(Refresh(m, a, now).0)
  {
    hide Ordered, Inserted, Without;
    if a in m.order { MoveKeepsStructure(m, a, m.recs[a].(next := now + m.recs[a].ms)); }
  }

  lemma ResetKeepsStructure(m: Mgr, a: Addr, ms: nat, fromNow: bool, now: nat)
    requires Structure(m) && a in m.recs
    ensures Structure(Reset(m, a, ms, fromNow, now).0)
  {
    hide Ordered, Inserted, Without;
    var r := m.recs[a];
    var start := if fromNow then now else r.next - r.ms;
    if a in m.order { MoveKeepsStructure(m, a, r.(ms := ms, next := start + ms)); }
  }

  lemma NextKeepsStructure(m: Mgr, now: nat)
    requires Structure(m)
    ensures Structure(GetNextTime(m, now).0)
  {}

  /** In the middle of the loop over the expired timers: `left` are still to be retired. */
  predicate Retiring(m: Mgr, left: seq<Addr>) {
    && Known(m.recs, m.order) && Known(m.recs, left)
    && Ordered(m.recs, m.order)
    && (forall a :: a in m.recs ==> (m.recs[a].cb.Some? <==> a in m.order || a in left))
    && (forall a :: a in left ==> a !in m.order)
    && (forall i, j :: 0 <= i < j < |left| ==> left[i] != left[j])
    && (forall a :: a in m.recs ==> m.recs[a].ms <= m.recs[a].next)
  }

  lemma RetireKeeps(m: Mgr, left: seq<Addr>, now: nat)
    requires Retiring(m, left) && left != []
    ensures Retiring(Retire(m, left[0], now), left[1..])
  {
    var a := left[0];
    var m' := Retire(m, a, now);
    OrderedUnder(m.recs, m'.recs, m.order);
    if m.recs[a].recurring { InsertedIsOrdered(m'.recs, m.order, a); }
    assert forall b :: b in left <==> b == a || b in left[1..];
    assert a !in left[1..];
  }

  lemma {:induction false} RetireAllKeeps(m: Mgr, left: seq<Addr>, now: nat)
    requires Retiring(m, left)
    ensures Structure(RetireAll(m, left, now))
    decreases |left|
  {
    if left != [] {
      RetireKeeps(m, left, now);
      RetireAllKeeps(Retire(m, left[0], now), left[1..], now);
    }
  }

  lemma SplitRetires(m: Mgr, n: nat, now: nat)
    requires Structure(m) && n <= |m.order|
    ensures Retiring(m.(order := m.order[n..], previous := now), m.order[..n])
  {
    forall i, j | 0 <= i < j < |m.order|
      ensures m.order[i] != m.order[j]
    {
      assert Before(m.recs, m.order[i], m.order[j]);
    }
    assert forall a :: a in m.order <==> a in m.order[..n] || a in m.order[n..] by {
      assert m.order == m.order[..n] + m.order[n..];
    }
  }

  lemma ListExpiredKeepsStructure(m: Mgr, now: nat, probe: Addr)
    requires Structure(m)
    ensures Structure(ListExpired(m, now, probe).0)
  {
    if m.order != [] {
      var n := if Rollover(m.previous, now) then |m.order| else FirstLater(m.recs, m.order, now, probe);
      SplitRetires(m, n, now);
      RetireAllKeeps(m.(order := m.order[n..], previous := now), m.order[..n], now);
    }
  }

  // ---------------------------------------------------------------- expiry is exact

  /** What becomes of a timer that expires. */
  function Retired(r: Rec, now: nat): Rec {
    if r.recurring then r.(next := now + r.ms) else r.(cb := None)
  }

  lemma {:induction false} RetireAllIsExact(m: Mgr, left: seq<Addr>, now: nat)
    requires Retiring(m, left)
    ensures forall a :: a in m.recs ==> RetireAll(m, left, now).recs[a] == if a in left then Retired(m.recs[a], now) else m.recs[a]
    ensures var m' := RetireAll(m, left, now);
      m'.tickled == m.tickled && m'.previous == m.previous && m'.fired == m.fired && m'.seen == m.seen
    decreases |left|
  {
    if left != [] {
      RetireKeeps(m, left, now);
      RetireAllIsExact(Retire(m, left[0], now), left[1..], now);
      assert left[0] !in left[1..];
    }
  }

  /** The timers that `listExpiredCb` takes: all after a rollover, and otherwise those due. */
  predicate Taken(m: Mgr, now: nat, a: Addr)
    requires a in m.recs
  {
    a in m.order && (Rollover(m.previous, now) || m.recs[a].next <= now)
  }

  /**
   Exactly the timers taken are returned, in the order of deadline and address; the recurring ones
   are armed again, the others lose their callback, and nothing else changes.
   */
  lemma ExpiryIsExact(m: Mgr, now: nat, probe: Addr)
    requires Structure(m)
    ensures var (m', cbs) := ListExpired(m, now, probe);
      && |cbs| <= |m.order| && (forall i :: 0 <= i < |cbs| ==> cbs[i].Some? && cbs[i] == m.recs[m.order[i]].cb)
      && (forall i :: 0 <= i < |m.order| ==> (i < |cbs| <==> Taken(m, now, m.order[i])))
      && m'.recs.Keys == m.recs.Keys
      && (forall a :: a in m.recs ==> m'.recs[a] == if Taken(m, now, a) then Retired(m.recs[a], now) else m.recs[a])
      && m'.tickled == m.tickled && m'.fired == m.fired && m'.seen == m.seen
      && m'.previous == if m.order == [] then m.previous else now
  {
    hide FirstLater, Rollover, Ordered;
    if m.order != [] {
      var n := TakenCount(m, now, probe);
      TakenIsPrefix(m, now, probe);
      SplitRetires(m, n, now);
      RetireAllIsExact(m.(order := m.order[n..], previous := now), m.order[..n], now);
    }
  }

  function TakenCount(m: Mgr, now: nat, probe: Addr): (n: nat)
    requires Known(m.recs, m.order)
    ensures n <= |m.order|
  {
    if Rollover(m.previous, now) then |m.order| else FirstLater(m.recs, m.order, now, probe)
  }

  lemma TakenIsPrefix(m: Mgr, now: nat, probe: Addr)
    requires Structure(m) && m.order != []
    ensures var n := TakenCount(m, now, probe);
      && (forall i :: 0 <= i < |m.order| ==> (i < n <==> Taken(m, now, m.order[i])))
      && (forall a :: a in m.recs ==> (a in m.order[..n] <==> Taken(m, now, a)))
      && (!Rollover(m.previous, now) && m.recs[m.order[0]].next > now ==> n == 0)
  {
    hide FirstLater, Rollover, Ordered;
    var n := TakenCount(m, now, probe);
    DueIsPrefix(m.recs, m.order, now, probe);
    forall a | a in m.recs
      ensures a in m.order[..n] <==> Taken(m, now, a)
    {
      if a in m.order {
        var k :| 0 <= k < |m.order| && m.order[k] == a;
        assert k < n ==> m.order[..n][k] == a;
      }
    }
  }

  lemma ProbeDoesNotMatter(m: Mgr, now: nat, probe: Addr, probe': Addr)
    requires Structure(m)
    ensures ListExpired(m, now, probe) == ListExpired(m, now, probe')
  {
    DueIsPrefix(m.recs, m.order, now, probe);
    DueIsPrefix(m.recs, m.order, now, probe');
    DueAreCounted(m.recs, m.order, now, FirstLater(m.recs, m.order, now, probe));
    DueAreCounted(m.recs, m.order, now, FirstLater(m.recs, m.order, now, probe'));
  }

  function DueCount(recs: map<Addr, Rec>, order: seq<Addr>, now: nat): nat
    requires Known(recs, order)
  {
    if order == [] then 0 else (if recs[order[0]].next <= now then 1 else 0) + DueCount(recs, order[1..], now)
  }

  lemma {:induction false} DueAreCounted(recs: map<Addr, Rec>, order: seq<Addr>, now: nat, n: nat)
    requires Known(recs, order) && n <= |order|
    requires forall i :: 0 <= i < n ==> recs[order[i]].next <= now
    requires forall i :: n <= i < |order| ==> recs[order[i]].next > now
    ensures DueCount(recs, order, now) == n
  {
    if order != [] { DueAreCounted(recs, order[1..], now, if n == 0 then 0 else n - 1); }
  }

  // ---------------------------------------------------------------- the step back of the clock

  /** A rollover is a step back by more than an hour, and in the first hour of the clock any step back. */
  lemma RolloverIff(previous: nat, now: nat)
    requires previous < WORD
    ensures Rollover(previous, now) <==> if previous >= HOUR then now + HOUR < previous else now < previous
  {
    if previous < HOUR {
      assert (previous - HOUR) % WORD == previous - HOUR + WORD;
    }
  }

  /** After such a step every timer of the set expires; after a smaller one those due do. */
  lemma StepBackExpires(m: Mgr, now: nat, probe: Addr)
    requires Structure(m) && m.previous < WORD
    ensures var back := if m.previous >= HOUR then now + HOUR < m.previous else now < m.previous;
      forall a :: a in m.recs ==>
        (ListExpired(m, now, probe).0.recs[a] == if a in m.order && (back || m.recs[a].next <= now) then Retired(m.recs[a], now) else m.recs[a])
  {
    hide ListExpired;
    RolloverIff(m.previous, now);
    ExpiryIsExact(m, now, probe);
  }

  // ---------------------------------------------------------------- what callers see

  /** `getNextTime` gives the time to the earliest deadline of the set. */
  lemma NextIsEarliest(m: Mgr, now: nat)
    requires Structure(m)
    ensures var wait := GetNextTime(m, now).1;
      && (m.order == [] ==> wait == NEVER)
      && (forall a :: a in m.order ==> now + wait <= m.recs[a].next || wait == 0)
      && (m.order != [] ==> exists a :: a in m.order && (m.recs[a].next == now + wait || (wait == 0 && m.recs[a].next <= now)))
  {
    FirstIsEarliest(m);
    if m.order != [] { assert m.order[0] in m.order; }
  }

  lemma FirstIsEarliest(m: Mgr)
    requires Structure(m)
    ensures forall a :: a in m.order ==> m.recs[m.order[0]].next <= m.recs[a].next
  {
    forall a | a in m.order
      ensures m.recs[m.order[0]].next <= m.recs[a].next
    {
      var k :| 0 <= k < |m.order| && m.order[k] == a;
      assert k > 0 ==> Before(m.recs, m.order[0], m.order[k]);
    }
  }

  /** From now on the waiter has seen the earliest deadline, and nobody has been woken; nothing else changes. */
  lemma NextIsExact(m: Mgr, now: nat)
    requires Structure(m)
    ensures var m' := GetNextTime(m, now).0;
      && m'.recs == m.recs && m'.order == m.order && m'.previous == m.previous
      && !m'.tickled && m'.fired == 0
      && (m'.seen.None? <==> m.order == [])
      && (m'.seen.Some? ==>
           && (forall a :: a in m.order ==> m'.seen.value <= m.recs[a].next)
           && (exists a :: a in m.order && m'.seen.value == m.recs[a].next))
  {
    FirstIsEarliest(m);
    if m.order != [] { assert m.order[0] in m.order; }
  }

  /** Which timers are in the set says in which order they are. */
  lemma {:induction false} OrderIsDetermined(recs: map<Addr, Rec>, order: seq<Addr>, order': seq<Addr>)
    requires Known(recs, order) && Ordered(recs, order) && Known(recs, order') && Ordered(recs, order')
    requires forall a :: a in order <==> a in order'
    ensures order == order'
  {
    assert order' != [] ==> order'[0] in order;
    if order != [] {
      assert order[0] in order' && order'[0] in order;
      FirstIsFirst(recs, order, order'[0]);
      FirstIsFirst(recs, order', order[0]);
      TailMembers(recs, order);
      TailMembers(recs, order');
      OrderIsDetermined(recs, order[1..], order'[1..]);
    }
  }

  lemma TailMembers(recs: map<Addr, Rec>, order: seq<Addr>)
    requires Known(recs, order) && Ordered(recs, order) && order != []
    ensures forall a :: a in order[1..] <==> a in order && a != order[0]
  {
    OrderedIsDistinct(recs, order);
    assert order == [order[0]] + order[1..];
    assert forall k :: 0 <= k < |order| - 1 ==> order[1..][k] == order[k + 1];
  }

  lemma FirstIsFirst(recs: map<Addr, Rec>, order: seq<Addr>, a: Addr)
    requires Known(recs, order) && Ordered(recs, order) && a in order
    ensures a == order[0] || Before(recs, order[0], a)
  {
    var k :| 0 <= k < |order| && order[k] == a;
    assert k > 0 ==> Before(recs, order[0], order[k]);
  }

  /** Only the record of `a` may differ. */
  predicate OthersSame(m: Mgr, m': Mgr, a: Addr) {
    m'.recs.Keys == m.recs.Keys && forall b :: b in m.recs && b != a ==> m'.recs[b] == m.recs[b]
  }

  /** A cancel answers whether there was a callback, drops it and takes the timer out of the set, and that is all. */
  lemma CancelIsExact(m: Mgr, a: Addr)
    requires Structure(m) && a in m.recs
    ensures var (m', ok) := Cancel(m, a);
      && Structure(m') && OthersSame(m, m', a)
      && (ok <==> m.recs[a].cb.Some?)
      && m'.recs[a] == m.recs[a].(cb := None)
      && (forall b :: b in m'.order <==> b in m.order && b != a)
      && m'.tickled == m.tickled && m'.previous == m.previous && m'.fired == m.fired && m'.seen == m.seen
  {
    CancelKeepsStructure(m, a);
  }

  /** A refresh finds a timer of the set, counts its period from now, and that is all. */
  lemma RefreshIsExact(m: Mgr, a: Addr, now: nat)
    requires Structure(m) && a in m.recs
    ensures var (m', ok) := Refresh(m, a, now);
      && Structure(m') && OthersSame(m, m', a)
      && (ok <==> a in m.order)
      && m'.recs[a] == (if ok then m.recs[a].(next := now + m.recs[a].ms) else m.recs[a])
      && (forall b :: b in m'.order <==> b in m.order)
      && m'.tickled == m.tickled && m'.previous == m.previous && m'.fired == m.fired && m'.seen == m.seen
  {
    hide Ordered, Inserted, Without;
    RefreshKeepsStructure(m, a, now);
  }

  /** `a` is due before every other timer of the set. */
  predicate Foremost(recs: map<Addr, Rec>, order: seq<Addr>, a: Addr)
    requires Known(recs, order) && a in recs
  {
    forall b :: b in order && b != a ==> Before(recs, a, b)
  }

  /** The waiter is woken once if the timer is `first`, and then `m_tickled` says so. */
  predicate Wakes(m: Mgr, m': Mgr, first: bool) {
    m'.tickled == (m.tickled || first) && m'.fired == m.fired + if first then 1 else 0
  }

  /** A timer put into the set wakes the waiter exactly when it is due before all others, and only once. */
  lemma AddValIsExact(m: Mgr, a: Addr)
    requires Known(m.recs, m.order) && Ordered(m.recs, m.order) && a in m.recs && a !in m.order
    ensures var m' := AddVal(m, a);
      && m'.recs == m.recs && m'.previous == m.previous && m'.seen == m.seen
      && (forall b :: b in m'.order <==> b in m.order || b == a)
      && Wakes(m, m', !m.tickled && Foremost(m.recs, m.order, a))
  {
    InsertedIsOrdered(m.recs, m.order, a);
    var order := Inserted(m.recs, m.order, a);
    assert order[0] in order;
    FirstIsFirst(m.recs, order, a);
    forall b | b in m.order
      ensures b == order[0] || Before(m.recs, order[0], b)
    {
      FirstIsFirst(m.recs, order, b);
    }
  }

  lemma AddIsExact(m: Mgr, a: Addr, ms: nat, cb: Cb, recurring: bool, now: nat)
    requires Structure(m) && a !in m.recs
    ensures var m' := Add(m, a, ms, cb, recurring, now);
      && Structure(m') && m'.recs == m.recs[a := Rec(recurring, ms, now + ms, Some(cb))]
      && m'.previous == m.previous && m'.seen == m.seen
      && (forall b :: b in m'.order <==> b in m.order || b == a)
      && Wakes(m, m', !m.tickled && Foremost(m'.recs, m'.order, a))
  {
    hide Ordered, Inserted;
    AddKeepsStructure(m, a, ms, cb, recurring, now);
    var m1 := m.(recs := m.recs[a := Rec(recurring, ms, now + ms, Some(cb))]);
    OrderedUnder(m.recs, m1.recs, m.order);
    AddValIsExact(m1, a);
  }

  /** A reset that finds its timer in the set moves it there, and wakes the waiter exactly when it is then the first. */
  lemma ResetIsExact(m: Mgr, a: Addr, ms: nat, fromNow: bool, now: nat)
    requires Structure(m) && a in m.recs
    ensures var m' := Reset(m, a, ms, fromNow, now).0;
      && Structure(m') && m'.previous == m.previous && m'.seen == m.seen
      && (forall b :: b in m'.order <==> b in m.order)
      && Wakes(m, m', !m.tickled && a in m.order && (ms != m.recs[a].ms || fromNow) && Foremost(m'.recs, m'.order, a))
  {
    hide Ordered, Inserted, Without, AddVal;
    ResetKeepsStructure(m, a, ms, fromNow, now);
    if a in m.order && (ms != m.recs[a].ms || fromNow) {
      var r := m.recs[a];
      var start := if fromNow then now else r.next - r.ms;
      var m1 := m.(recs := m.recs[a := r.(ms := ms, next := start + ms)], order := Without(m.order, a));
      OrderedWithout(m.recs, m.order, a);
      OrderedUnder(m.recs, m1.recs, m1.order);
      AddValIsExact(m1, a);
    }
  }

  /** A reset counts from now or from where the timer started; the other timers keep deadline and callback. */
  lemma ResetKeepsStart(m: Mgr, a: Addr, ms: nat, fromNow: bool, now: nat)
    requires Structure(m) && a in m.recs
    ensures var (m', ok) := Reset(m, a, ms, fromNow, now);
      && (ok <==> m.recs[a].cb.Some? || (ms == m.recs[a].ms && !fromNow))
      && (ok && m.recs[a].cb.Some? ==>
           m'.recs[a].ms == ms && m'.recs[a].next - ms == if fromNow then now else m.recs[a].next - m.recs[a].ms)
      && m'.recs.Keys == m.recs.Keys && (forall b :: b in m.recs && (b != a || !ok) ==> m'.recs[b] == m.recs[b])
  {
    hide Inserted, Without, Ordered;
  }
}
