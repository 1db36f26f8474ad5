/** Runs of the timer manager: any operations, with a clock that does not go back. */
module TimerRuns {
  import opened TimerSpec

  datatype Op =
    | AddOp(a: Addr, ms: nat, cb: Cb, recurring: bool)
    | CancelOp(a: Addr)
    | RefreshOp(a: Addr)
    | ResetOp(a: Addr, ms: nat, fromNow: bool)
    | NextOp
    | ExpireOp(probe: Addr)

  /** One operation at the time `now`; a new timer gets an address of its own. */
  datatype Call = Call(op: Op, now: nat)

  predicate Allowed(m: Mgr, op: Op) {
    match op
    case AddOp(a, _, _, _) => a !in m.recs
    case CancelOp(a) => a in m.recs
    case RefreshOp(a) => a in m.recs
    case ResetOp(a, _, _) => a in m.recs
    case NextOp => true
    case ExpireOp(_) => true
  }

  function Apply(m: Mgr, c: Call): Mgr
    requires Structure(m) && Allowed(m, c.op)
  {
    match c.op
    case AddOp(a, ms, cb, recurring) => Add(m, a, ms, cb, recurring, c.now)
    case CancelOp(a) => Cancel(m, a).0
    case RefreshOp(a) => Refresh(m, a, c.now).0
    case ResetOp(a, ms, fromNow) => Reset(m, a, ms, fromNow, c.now).0
    case NextOp => GetNextTime(m, c.now).0
    case ExpireOp(probe) => ListExpired(m, c.now, probe).0
  }

  lemma ApplyKeepsStructure(m: Mgr, c: Call)
    requires Structure(m) && Allowed(m, c.op)
    ensures Structure(Apply(m, c))
  {
    hide Structure, Add, Cancel, Refresh, Reset, ListExpired;
    match c.op {
      case AddOp(a, ms, cb, recurring) => AddKeepsStructure(m, a, ms, cb, recurring, c.now);
      case CancelOp(a) => CancelKeepsStructure(m, a);
      case RefreshOp(a) => RefreshKeepsStructure(m, a, c.now);
      case ResetOp(a, ms, fromNow) => ResetKeepsStructure(m, a, ms, fromNow, c.now);
      case NextOp => NextKeepsStructure(m, c.now);
      case ExpireOp(probe) => ListExpiredKeepsStructure(m, c.now, probe);
    }
  }

  // ---------------------------------------------------------------- wake-ups

  /** A timer with deadline at or after what the waiter saw, or one that has woken it. */
  lemma AddValKeepsPromise(m: Mgr, a: Addr)
    requires Known(m.recs, m.order) && Ordered(m.recs, m.order) && a in m.recs && a !in m.order
    requires Promise(m)
    ensures Promise(AddVal(m, a))
  {
    InsertedIsOrdered(m.recs, m.order, a);
    var order := Inserted(m.recs, m.order, a);
    if !m.tickled && order[0] != a {
      // the timer in front of the new one was not early
      var k :| 0 <= k < |order| && order[k] == a;
      assert Before(m.recs, order[0], order[k]);
      assert order[0] in order;
    }
  }

  lemma AddValKeepsWakeup(m: Mgr, a: Addr, clock: nat)
    requires Known(m.recs, m.order) && Ordered(m.recs, m.order) && a in m.recs && a !in m.order
    requires Wakeup(m, clock)
    ensures Wakeup(AddVal(m, a), clock)
  {
    AddValKeepsPromise(m, a);
  }

  lemma InsertKeepsWakeup(m: Mgr, a: Addr, clock: nat)
    requires Known(m.recs, m.order) && Ordered(m.recs, m.order) && a in m.recs && a !in m.order
    requires Wakeup(m, clock) && (m.tickled || (m.seen.Some? && m.recs[a].next >= m.seen.value))
    ensures Wakeup(m.(order := Inserted(m.recs, m.order, a)), clock)
  {
    InsertedIsOrdered(m.recs, m.order, a);
  }

  lemma LaterClock(m: Mgr, clock: nat, now: nat)
    requires Wakeup(m, clock) && clock <= now
    ensures Wakeup(m, now)
  {}

  lemma AddKeepsWakeup(m: Mgr, a: Addr, ms: nat, cb: Cb, recurring: bool, now: nat)
    requires Structure(m) && Wakeup(m, now) && a !in m.recs
    ensures Wakeup(Add(m, a, ms, cb, recurring, now), now)
  {
    var m1 := m.(recs := m.recs[a := Rec(recurring, ms, now + ms, Some(cb))]);
    OrderedUnder(m.recs, m1.recs, m.order);
    AddValKeepsWakeup(m1, a, now);
  }

  lemma CancelKeepsWakeup(m: Mgr, a: Addr, now: nat)
    requires Structure(m) && Wakeup(m, now) && a in m.recs
    ensures Wakeup(Cancel(m, a).0, now)
  {}

  /** A refreshed timer is never due earlier than before. */
  lemma RefreshKeepsWakeup(m: Mgr, a: Addr, now: nat)
    requires Structure(m) && Wakeup(m, now) && a in m.recs
    ensures Wakeup(Refresh(m, a, now).0, now)
  {
    hide Ordered, Inserted, Without;
    if a in m.order {
      var m1 := m.(recs := m.recs[a := m.recs[a].(next := now + m.recs[a].ms)], order := Without(m.order, a));
      OrderedWithout(m.recs, m.order, a);
      OrderedUnder(m.recs, m1.recs, m1.order);
      assert m1.recs[a].next >= m.recs[a].next;
      InsertKeepsWakeup(m1, a, now);
    }
  }

  lemma ResetKeepsWakeup(m: Mgr, a: Addr, ms: nat, fromNow: bool, now: nat)
    requires Structure(m) && Wakeup(m, now) && a in m.recs
    ensures Wakeup(Reset(m, a, ms, fromNow, now).0, now)
  {
    hide Ordered, Inserted, Without, AddVal;
    if a in m.order {
      var r := m.recs[a];
      var start := if fromNow then now else r.next - r.ms;
      var m1 := m.(recs := m.recs[a := r.(ms := ms, next := start + ms)], order := Without(m.order, a));
      OrderedWithout(m.recs, m.order, a);
      OrderedUnder(m.recs, m1.recs, m1.order);
      AddValKeepsWakeup(m1, a, now);
    }
  }

  lemma NextKeepsWakeup(m: Mgr, now: nat)
    requires Structure(m) && Wakeup(m, now)
    ensures Wakeup(GetNextTime(m, now).0, now)
  {
    forall a | a in m.order
      ensures m.recs[a].next >= m.recs[m.order[0]].next
    {
      var k :| 0 <= k < |m.order| && m.order[k] == a;
      assert k > 0 ==> Before(m.recs, m.order[0], m.order[k]);
    }
  }

  lemma {:induction false} RetireAllKeepsWakeup(m: Mgr, left: seq<Addr>, now: nat)
    requires Retiring(m, left) && Wakeup(m, now)
    requires m.tickled || left == [] || (m.seen.Some? && now >= m.seen.value)
    ensures Wakeup(RetireAll(m, left, now), now)
    decreases |left|
  {
    if left != [] {
      var a := left[0];
      var m' := Retire(m, a, now);
      RetireKeeps(m, left, now);
      if m.recs[a].recurring {
        var m1 := m.(recs := m'.recs);
        OrderedUnder(m.recs, m1.recs, m.order);
        InsertKeepsWakeup(m1, a, now);
      }
      RetireAllKeepsWakeup(m', left[1..], now);
    }
  }

  /** Without a step back of the clock there is no rollover, and what expires was due after all that was seen. */
  lemma ExpireKeepsWakeup(m: Mgr, now: nat, probe: Addr)
    requires Structure(m) && Wakeup(m, now)
    ensures Wakeup(ListExpired(m, now, probe).0, now)
  {
    if m.order != [] {
      var n := FirstLater(m.recs, m.order, now, probe);
      DueIsPrefix(m.recs, m.order, now, probe);
      SplitRetires(m, n, now);
      var m1 := m.(order := m.order[n..], previous := now);
      assert Wakeup(m1, now);
      if n > 0 {
        assert m.order[0] in m.order && m.recs[m.order[0]].next <= now;
      }
      RetireAllKeepsWakeup(m1, m.order[..n], now);
    }
  }

  lemma ApplyKeepsWakeup(m: Mgr, c: Call, clock: nat)
    requires Structure(m) && Allowed(m, c.op) && Wakeup(m, clock) && clock <= c.now
    ensures Wakeup(Apply(m, c), c.now)
  {
    LaterClock(m, clock, c.now);
    hide Structure, Wakeup, Add, Cancel, Refresh, Reset, ListExpired;
    match c.op {
      case AddOp(a, ms, cb, recurring) => AddKeepsWakeup(m, a, ms, cb, recurring, c.now);
      case CancelOp(a) => CancelKeepsWakeup(m, a, c.now);
      case RefreshOp(a) => RefreshKeepsWakeup(m, a, c.now);
      case ResetOp(a, ms, fromNow) => ResetKeepsWakeup(m, a, ms, fromNow, c.now);
      case NextOp => NextKeepsWakeup(m, c.now);
      case ExpireOp(probe) => ExpireKeepsWakeup(m, c.now, probe);
    }
  }

  // ---------------------------------------------------------------- runs

  function Created(clock: nat): Mgr { Mgr(map[], [], false, clock, 0, None) }

  ghost predicate Runs(m: Mgr, calls: seq<Call>)
    requires Structure(m)
    decreases |calls|
  {
    if calls == [] then true
    else if !Allowed(m, calls[0].op) then false
    else
      ApplyKeepsStructure(m, calls[0]);
      Runs(Apply(m, calls[0]), calls[1..])
  }

  /** Where a run leads: with any clock, to a state of the same structure. */
  ghost function After(m: Mgr, calls: seq<Call>): (m': Mgr)
    requires Structure(m) && Runs(m, calls)
    ensures Structure(m')
    decreases |calls|
  {
    if calls == [] then m
    else
      ApplyKeepsStructure(m, calls[0]);
      After(Apply(m, calls[0]), calls[1..])
  }

  predicate Monotone(clock: nat, calls: seq<Call>)
    decreases |calls|
  {
    calls == [] || (clock <= calls[0].now && Monotone(calls[0].now, calls[1..]))
  }

  function LastClock(clock: nat, calls: seq<Call>): nat {
    if calls == [] then clock else calls[|calls| - 1].now
  }

  lemma {:induction false} RunKeepsWakeup(m: Mgr, clock: nat, calls: seq<Call>)
    requires Structure(m) && Wakeup(m, clock) && Runs(m, calls) && Monotone(clock, calls)
    ensures Wakeup(After(m, calls), LastClock(clock, calls))
    decreases |calls|
  {
    hide Structure, Wakeup;
    if calls != [] {
      ApplyKeepsStructure(m, calls[0]);
      ApplyKeepsWakeup(m, calls[0], clock);
      RunKeepsWakeup(Apply(m, calls[0]), calls[0].now, calls[1..]);
      assert LastClock(clock, calls) == LastClock(calls[0].now, calls[1..]);
    }
  }

  /** A timer that was cancelled, or fired for the last time: no operation arms it again. */
  lemma ApplyKeepsDead(m: Mgr, c: Call, a: Addr)
    requires Structure(m) && Allowed(m, c.op) && a in m.recs && m.recs[a].cb.None?
    ensures a in Apply(m, c).recs && Apply(m, c).recs[a].cb.None?
  {
    hide Inserted, Without, Ordered, ListExpired, Rollover;
    match c.op {
      case ExpireOp(probe) => ExpiryIsExact(m, c.now, probe);
      case _ =>
    }
  }

  /** Once without a callback, in no state a run leads to is the timer in the set, whatever the clock does. */
  lemma {:induction false} DeadStaysDead(m: Mgr, calls: seq<Call>, a: Addr)
    requires Structure(m) && Runs(m, calls) && a in m.recs && m.recs[a].cb.None?
    ensures a in After(m, calls).recs && After(m, calls).recs[a].cb.None? && a !in After(m, calls).order
    decreases |calls|
  {
    hide Apply;
    if calls != [] {
      ApplyKeepsStructure(m, calls[0]);
      ApplyKeepsDead(m, calls[0], a);
      DeadStaysDead(Apply(m, calls[0]), calls[1..], a);
    }
  }

  /** Once a timer is cancelled, no expiry of any run takes it, whatever the clock does. */
  lemma CancelledNeverExpires(m: Mgr, a: Addr, at: nat, calls: seq<Call>, now: nat, probe: Addr)
    requires Structure(m) && a in m.recs && Runs(m, [Call(CancelOp(a), at)] + calls)
    ensures var m' := After(m, [Call(CancelOp(a), at)] + calls);
      && a in m'.recs && !Taken(m', now, a)
      && var cbs := ListExpired(m', now, probe).1;
        && |cbs| <= |m'.order| && (forall i :: 0 <= i < |cbs| ==> m'.order[i] != a && cbs[i] == m'.recs[m'.order[i]].cb)
  {
    hide ListExpired, Ordered;
    var full := [Call(CancelOp(a), at)] + calls;
    assert full[0] == Call(CancelOp(a), at) && full[1..] == calls;
    var m1 := Apply(m, full[0]);
    ApplyKeepsStructure(m, full[0]);
    CancelIsExact(m, a);
    DeadStaysDead(m1, calls, a);
    ExpiryIsExact(After(m, full), now, probe);
  }

  /** In every state a run can reach, with any clock: membership, order and no underflow. */
  lemma MembershipHolds(clock: nat, calls: seq<Call>)
    requires Runs(Created(clock), calls)
    ensures var m := After(Created(clock), calls);
      && Known(m.recs, m.order) && Ordered(m.recs, m.order)
      && (forall a :: a in m.recs ==> (m.recs[a].cb.Some? <==> a in m.order) && m.recs[a].ms <= m.recs[a].next)
  {}

  /**
   No wake-up is lost: either the waiter has been woken since it last asked, and once, or no
   deadline is earlier than the one it saw.
   */
  lemma NoLostWakeup(clock: nat, calls: seq<Call>)
    requires Runs(Created(clock), calls) && Monotone(clock, calls)
    ensures var m := After(Created(clock), calls);
      && m.fired <= 1 && (m.tickled <==> m.fired == 1)
      && (!m.tickled ==> forall a :: a in m.order ==> m.seen.Some? && m.recs[a].next >= m.seen.value)
  {
    RunKeepsWakeup(Created(clock), clock, calls);
  }

  // ---------------------------------------------------------------- a clock that goes back

  /** Armed at `now`, the timer is due no earlier than the waiter saw. */
  predicate LateEnough(m: Mgr, a: Addr, now: nat)
    requires a in m.recs
  {
    m.seen.Some? && now + m.recs[a].ms >= m.seen.value
  }

  /** What `refresh` and `listExpiredCb` put back is late enough. */
  predicate PutsBackLate(m: Mgr, c: Call)
    requires Structure(m)
  {
    match c.op
    case RefreshOp(a) => a in m.order ==> LateEnough(m, a, c.now)
    case ExpireOp(_) => forall a :: a in m.recs && Taken(m, c.now, a) && m.recs[a].recurring ==> LateEnough(m, a, c.now)
    case _ => true
  }

  /**
   With any clock: `refresh` and `listExpiredCb`, which wake nobody, keep the promise exactly when
   the waiter has been woken already or what they put back is late enough; every other operation keeps it.
   */
  lemma PromiseIff(m: Mgr, c: Call)
    requires Structure(m) && Allowed(m, c.op) && Promise(m)
    ensures Structure(Apply(m, c)) && (Promise(Apply(m, c)) <==> m.tickled || PutsBackLate(m, c))
  {
    ApplyKeepsStructure(m, c);
    match c.op {
      case AddOp(a, ms, cb, recurring) => AddKeepsPromise(m, a, ms, cb, recurring, c.now);
      case CancelOp(a) =>
      case RefreshOp(a) => RefreshPromise(m, a, c.now);
      case ResetOp(a, ms, fromNow) => ResetKeepsPromise(m, a, ms, fromNow, c.now);
      case NextOp => NextKeepsPromise(m, c.now);
      case ExpireOp(probe) => ExpirePromise(m, c.now, probe);
    }
  }

  lemma AddKeepsPromise(m: Mgr, a: Addr, ms: nat, cb: Cb, recurring: bool, now: nat)
    requires Structure(m) && Promise(m) && a !in m.recs
    ensures Promise(Add(m, a, ms, cb, recurring, now))
  {
    var m1 := m.(recs := m.recs[a := Rec(recurring, ms, now + ms, Some(cb))]);
    OrderedUnder(m.recs, m1.recs, m.order);
    AddValKeepsPromise(m1, a);
  }

  lemma RefreshPromise(m: Mgr, a: Addr, now: nat)
    requires Structure(m) && Promise(m) && a in m.recs
    ensures Promise(Refresh(m, a, now).0) <==> m.tickled || (a in m.order ==> LateEnough(m, a, now))
  {
    hide Ordered, Inserted, Without;
    if a in m.order {
      var m1 := m.(recs := m.recs[a := m.recs[a].(next := now + m.recs[a].ms)], order := Without(m.order, a));
      OrderedWithout(m.recs, m.order, a);
      OrderedUnder(m.recs, m1.recs, m1.order);
      InsertedIsOrdered(m1.recs, m1.order, a);
    }
  }

  lemma ResetKeepsPromise(m: Mgr, a: Addr, ms: nat, fromNow: bool, now: nat)
    requires Structure(m) && Promise(m) && a in m.recs
    ensures Promise(Reset(m, a, ms, fromNow, now).0)
  {
    hide Ordered, Inserted, Without, AddVal;
    if a in m.order {
      var r := m.recs[a];
      var start := if fromNow then now else r.next - r.ms;
      var m1 := m.(recs := m.recs[a := r.(ms := ms, next := start + ms)], order := Without(m.order, a));
      OrderedWithout(m.recs, m.order, a);
      OrderedUnder(m.recs, m1.recs, m1.order);
      AddValKeepsPromise(m1, a);
    }
  }

  lemma NextKeepsPromise(m: Mgr, now: nat)
    requires Structure(m)
    ensures Promise(GetNextTime(m, now).0)
  {
    forall a | a in m.order
      ensures m.recs[a].next >= m.recs[m.order[0]].next
    {
      var k :| 0 <= k < |m.order| && m.order[k] == a;
      assert k > 0 ==> Before(m.recs, m.order[0], m.order[k]);
    }
  }

  lemma ExpirePromise(m: Mgr, now: nat, probe: Addr)
    requires Structure(m) && Promise(m)
    ensures Promise(ListExpired(m, now, probe).0) <==>
      m.tickled || forall a :: a in m.recs && Taken(m, now, a) && m.recs[a].recurring ==> LateEnough(m, a, now)
  {
    hide ListExpired, Rollover, Ordered;
    ExpiryIsExact(m, now, probe);
    ListExpiredKeepsStructure(m, now, probe);
    var m' := ListExpired(m, now, probe).0;
    if Promise(m') && !m.tickled {
      forall a | a in m.recs && Taken(m, now, a) && m.recs[a].recurring
        ensures LateEnough(m, a, now)
      {
        assert m'.recs[a] == Retired(m.recs[a], now) && a in m'.order;
      }
    }
  }

  /**
   The step back that breaks the promise: a recurring timer, a waiter that has seen its deadline,
   and a clock set back by two hours. The timer is due earlier, and nobody is woken.
   */
  lemma StepBackLosesWakeup(clock: nat, ms: nat, cb: Cb, probe: Addr)
    requires 2 * HOUR <= clock < WORD
    ensures var calls := [Call(AddOp(0, ms, cb, true), clock), Call(NextOp, clock), Call(ExpireOp(probe), clock - 2 * HOUR)];
      && Runs(Created(clock), calls)
      && var m := After(Created(clock), calls);
        !m.tickled && m.order == [0] && m.seen == Some(clock + ms) && m.recs[0].next == clock - 2 * HOUR + ms
  {
    hide Runs, After, ListExpired;
    var c1, c2, c3 := Call(AddOp(0, ms, cb, true), clock), Call(NextOp, clock), Call(ExpireOp(probe), clock - 2 * HOUR);
    var m0 := Created(clock);
    var m1 := Apply(m0, c1);
    var r := Rec(true, ms, clock + ms, Some(cb));
    assert m1 == Mgr(map[0 := r], [0], true, clock, 1, None);
    ApplyKeepsStructure(m0, c1);
    var m2 := Apply(m1, c2);
    assert m2 == Mgr(map[0 := r], [0], false, clock, 0, Some(clock + ms));
    ApplyKeepsStructure(m1, c2);
    var m3 := Apply(m2, c3);
    ApplyKeepsStructure(m2, c3);
    RolloverIff(clock, clock - 2 * HOUR);
    ExpiryIsExact(m2, clock - 2 * HOUR, probe);
    assert m3.recs[0] == Retired(r, clock - 2 * HOUR);
    OnlyOne(m3);
    NoMoreCalls(m3);
    OneMoreCall(m2, c3, [], [c3]);
    OneMoreCall(m1, c2, [c3], [c2, c3]);
    OneMoreCall(m0, c1, [c2, c3], [c1, c2, c3]);
  }

  lemma OnlyOne(m: Mgr)
    requires Structure(m) && m.recs.Keys == {0} && m.recs[0].cb.Some?
    ensures m.order == [0]
  {
    assert 0 in m.order;
    OrderedIsDistinct(m.recs, m.order);
    assert forall i :: 0 <= i < |m.order| ==> m.order[i] in m.order;
    assert m.order[0] == 0 == m.order[|m.order| - 1];
  }

  lemma NoMoreCalls(m: Mgr)
    requires Structure(m)
    ensures Runs(m, []) && After(m, []) == m
  {}

  lemma OneMoreCall(m: Mgr, c: Call, calls: seq<Call>, full: seq<Call>)
    requires Structure(m) && Allowed(m, c.op) && Structure(Apply(m, c)) && Runs(Apply(m, c), calls) && full == [c] + calls
    ensures Runs(m, full) && After(m, full) == After(Apply(m, c), calls)
  {
    assert full[1..] == calls;
  }
}
