/** The timers and their manager as objects; every method does what its function on values says. */
module TimerManager {
  import opened TimerSpec

  class Timer {
    const addr: Addr
    const recurring: bool
    var ms: nat
    var next: nat
    var cb: Option<Cb>

    constructor (addr: Addr, ms: nat, cb: Cb, recurring: bool, now: nat)
      ensures this.addr == addr && Record() == Rec(recurring, ms, now + ms, Some(cb))
    {
      this.addr, this.recurring := addr, recurring;
      this.ms, this.next, this.cb := ms, now + ms, Some(cb);
    }

    ghost function Record(): Rec
      reads this
    {
      Rec(recurring, ms, next, cb)
    }
  }

  function Addrs(ts: seq<Timer>): (r: seq<Addr>)
    ensures |r| == |ts|
    ensures forall i :: 0 <= i < |ts| ==> r[i] == ts[i].addr
  {
    seq(|ts|, i requires 0 <= i < |ts| => ts[i].addr)
  }

  /** Every timer has an address of its own. */
  ghost predicate Unique(all: set<Timer>) {
    forall t, u :: t in all && u in all && t.addr == u.addr ==> t == u
  }

  ghost function Recs(all: set<Timer>): (r: map<Addr, Rec>)
    requires Unique(all)
    reads all
    ensures forall t :: t in all ==> t.addr in r && r[t.addr] == t.Record()
    ensures r.Keys == Occupied(all)
  {
    map t | t in all :: t.addr := t.Record()
  }

  ghost function Occupied(all: set<Timer>): set<Addr> {
    set t | t in all :: t.addr
  }

  /** Only `t` is not as in `before`. */
  lemma RecsUpdated(all: set<Timer>, before: map<Addr, Rec>, t: Timer)
    requires Unique(all) && t in all && before.Keys + {t.addr} == Occupied(all)
    requires forall u :: u in all && u != t ==> u.addr in before && before[u.addr] == u.Record()
    ensures Recs(all) == before[t.addr := t.Record()]
  {
    var after := before[t.addr := t.Record()];
    assert Recs(all).Keys == after.Keys;
    forall a | a in after
      ensures Recs(all)[a] == after[a]
    {
      var u :| u in all && u.addr == a;
    }
  }

  lemma AddrsOfCat(ts: seq<Timer>, us: seq<Timer>)
    ensures Addrs(ts + us) == Addrs(ts) + Addrs(us)
  {}

  lemma InsertedAtFront(recs: map<Addr, Rec>, order: seq<Addr>, a: Addr)
    requires Known(recs, order) && a in recs && a !in order
    ensures Inserted(recs, order, a)[0] == a <==> Rank(recs, order, recs[a].next, a) == 0
  {}

  lemma AddrsInserted(ts: seq<Timer>, i: nat, t: Timer)
    requires i <= |ts|
    ensures Addrs(ts[..i] + [t] + ts[i..]) == Addrs(ts)[..i] + [t.addr] + Addrs(ts)[i..]
  {}

  lemma AddrsOfSlices(ts: seq<Timer>, i: nat)
    requires i <= |ts|
    ensures Addrs(ts[..i]) == Addrs(ts)[..i] && Addrs(ts[i..]) == Addrs(ts)[i..]
  {}

  lemma {:induction false} WithoutNone(order: seq<Addr>, a: Addr)
    requires a !in order
    ensures Without(order, a) == order
  {
    if order != [] { WithoutNone(order[1..], a); }
  }

  lemma {:induction false} WithoutOne(order: seq<Addr>, i: nat)
    requires i < |order| && forall j, k :: 0 <= j < k < |order| ==> order[j] != order[k]
    ensures Without(order, order[i]) == order[..i] + order[i + 1..]
    decreases order
  {
    var a, rest := order[i], order[1..];
    if i == 0 {
      WithoutNone(rest, a);
    } else {
      assert rest[i - 1] == a && order[0] != order[i];
      WithoutOne(rest, i - 1);
      assert order[..i] == [order[0]] + rest[..i - 1] && order[i + 1..] == rest[i..];
    }
  }

  /** A timer that is not where `lower_bound` points is not in the set. */
  lemma NotElsewhere(recs: map<Addr, Rec>, order: seq<Addr>, a: Addr, k: nat)
    requires Known(recs, order) && Ordered(recs, order) && k < |order| && order[k] == a
    ensures k == Rank(recs, order, recs[a].next, a)
  {}

  lemma StructureHas(m: Mgr, a: Addr)
    requires Structure(m) && a in m.recs
    ensures Known(m.recs, m.order) && Ordered(m.recs, m.order)
    ensures (m.recs[a].cb.Some? <==> a in m.order) && m.recs[a].ms <= m.recs[a].next
  {}

  lemma StructureUnderClock(m: Mgr, previous: nat)
    requires Structure(m)
    ensures Structure(m.(previous := previous))
  {}

  class Manager {
    var timers: seq<Timer>
    var tickled: bool
    var previous: nat
    ghost var all: set<Timer>
    ghost var fired: nat
    ghost var seen: Option<nat>

    ghost predicate Known()
      reads this
    {
      Unique(all) && forall t :: t in timers ==> t in all
    }

    ghost function Value(): (m: Mgr)
      requires Known()
      reads this, all
      ensures TimerSpec.Known(m.recs, m.order)
    {
      Mgr(Recs(all), Addrs(timers), tickled, previous, fired, seen)
    }

    ghost predicate Valid()
      reads this, all
    {
      Known() && Structure(Value())
    }

    constructor (now: nat)
      ensures Valid() && all == {} && Value() == Mgr(map[], [], false, now, 0, None)
    {
      timers, tickled, previous := [], false, now;
      all, fired, seen := {}, 0, None;
    }

    // -------------------------------------------------------------- the set

    /** `lower_bound`. */
    method LowerBound(next: nat, addr: Addr) returns (it: nat)
      requires Known()
      ensures it == Rank(Recs(all), Addrs(timers), next, addr)
    {
      ghost var recs, order := Recs(all), Addrs(timers);
      it := 0;
      while it < |timers| && Less(timers[it].next, timers[it].addr, next, addr)
        invariant it <= |timers|
        invariant Rank(recs, order, next, addr) == it + Rank(recs, order[it..], next, addr)
      {
        assert order[it] == timers[it].addr && timers[it] in all;
        assert order[it..][1..] == order[it + 1..];
        it := it + 1;
      }
      if it < |timers| {
        assert order[it..][0] == timers[it].addr && timers[it] in all;
      }
    }

    /** `find`: the end when the set has no equivalent timer. */
    method Find(t: Timer) returns (it: nat)
      requires Known() && t in all && Ordered(Recs(all), Addrs(timers))
      ensures it <= |timers|
      ensures it < |timers| ==> timers[it] == t
      ensures it == |timers| <==> t.addr !in Addrs(timers)
    {
      it := LowerBound(t.next, t.addr);
      ghost var recs, order := Recs(all), Addrs(timers);
      forall k | 0 <= k < |order| && order[k] == t.addr
        ensures k == it
      {
        NotElsewhere(recs, order, t.addr, k);
      }
      if it < |timers| {
        assert timers[it] in all && order[it] == timers[it].addr;
        if Less(t.next, t.addr, timers[it].next, timers[it].addr) {
          assert timers[it] != t;
          it := |timers|;
        }
      }
    }

    method Erase(it: nat)
      requires Known() && it < |timers| && Ordered(Recs(all), Addrs(timers))
      modifies this`timers
      ensures Known()
      ensures Addrs(timers) == Without(old(Addrs(timers)), old(timers[it].addr))
    {
      hide Ordered, Without;
      ghost var order := Addrs(timers);
      OrderedIsDistinct(Recs(all), order);
      WithoutOne(order, it);
      AddrsOfSlices(timers, it);
      AddrsOfSlices(timers, it + 1);
      AddrsOfCat(timers[..it], timers[it + 1..]);
      timers := timers[..it] + timers[it + 1..];
    }

    method Insert(t: Timer) returns (it: nat)
      requires Known() && t in all
      modifies this`timers
      ensures Known()
      ensures Addrs(timers) == Inserted(Recs(all), old(Addrs(timers)), t.addr)
      ensures it < |timers| && timers[it] == t && it == Rank(Recs(all), old(Addrs(timers)), t.next, t.addr)
    {
      hide Rank, Recs, Occupied, Addrs;
      it := LowerBound(t.next, t.addr);
      AddrsInserted(timers, it, t);
      timers := timers[..it] + [t] + timers[it..];
    }

    // -------------------------------------------------------------- the operations

    /** The private `addTimer`. */
    method AddVal(t: Timer)
      requires Known() && t in all && t.addr !in Addrs(timers)
      modifies this`timers, this`tickled, this`fired
      ensures Known() && Value() == TimerSpec.AddVal(old(Value()), t.addr)
    {
      hide Rank, Inserted, Recs, Occupied, Addrs;
      ghost var m := Value();
      var it := Insert(t);
      InsertedAtFront(m.recs, m.order, t.addr);
      var atFront := it == 0 && !tickled;
      if atFront {
        tickled := true;
        fired := fired + 1;
      }
    }

    method AddTimer(addr: Addr, ms: nat, cb: Cb, recurring: bool, now: nat) returns (t: Timer)
      requires Valid() && forall u :: u in all ==> u.addr != addr
      modifies this
      ensures Valid() && fresh(t) && all == old(all) + {t}
      ensures Value() == Add(old(Value()), addr, ms, cb, recurring, now)
    {
      hide Recs, Addrs, Structure, Ordered, Inserted, Rank, TimerSpec.AddVal;
      ghost var m := Value();
      assert TimerSpec.Known(m.recs, m.order);
      assert addr !in m.recs && addr !in m.order;
      AddKeepsStructure(m, addr, ms, cb, recurring, now);
      t := new Timer(addr, ms, cb, recurring, now);
      all := all + {t};
      RecsUpdated(all, m.recs, t);
      AddVal(t);
    }

    method Cancel(t: Timer) returns (ok: bool)
      requires Valid() && t in all
      modifies this`timers, t`cb
      ensures Valid() && (Value(), ok) == TimerSpec.Cancel(old(Value()), t.addr)
    {
      hide Ordered, Without, Rank;
      ghost var m := Value();
      CancelKeepsStructure(m, t.addr);
      if t.cb.Some? {
        t.cb := None;
        RecsUpdated(all, m.recs, t);
        OrderedUnder(m.recs, Recs(all), m.order);
        var it := Find(t);
        Erase(it);
        ok := true;
      } else {
        ok := false;
      }
    }

    /** A key changes only while the timer is out of the set. */
    method TakeOut(t: Timer, it: nat, ms: nat, next: nat)
      requires Known() && Ordered(Recs(all), Addrs(timers))
      requires t in all && it < |timers| && timers[it] == t
      modifies this`timers, t`ms, t`next
      ensures Known()
      ensures var m := old(Value()); var r := m.recs[t.addr].(ms := ms, next := next);
        Value() == m.(recs := m.recs[t.addr := r], order := Without(m.order, t.addr))
    {
      hide Ordered, Without;
      ghost var recs := Recs(all);
      Erase(it);
      t.ms, t.next := ms, next;
      RecsUpdated(all, recs, t);
    }

    method Refresh(t: Timer, now: nat) returns (ok: bool)
      requires Valid() && t in all
      modifies this`timers, t`ms, t`next
      ensures Valid() && (Value(), ok) == TimerSpec.Refresh(old(Value()), t.addr, now)
    {
      hide Recs, Occupied, Addrs, Ordered, Structure, Without, Rank, Inserted;
      ghost var m := Value();
      StructureHas(m, t.addr);
      RefreshKeepsStructure(m, t.addr, now);
      if t.cb.None? { return false; }
      var it := Find(t);
      if it == |timers| { return false; }
      TakeOut(t, it, t.ms, now + t.ms);
      var _ := Insert(t);
      ok := true;
    }

    method Reset(t: Timer, ms: nat, fromNow: bool, now: nat) returns (ok: bool)
      requires Valid() && t in all
      modifies this`timers, this`tickled, this`fired, t`next, t`ms
      ensures Valid() && (Value(), ok) == TimerSpec.Reset(old(Value()), t.addr, ms, fromNow, now)
    {
      hide Recs, Occupied, Addrs, Ordered, Structure, Without, Rank, Inserted, TimerSpec.AddVal;
      ghost var m := Value();
      StructureHas(m, t.addr);
      ResetKeepsStructure(m, t.addr, ms, fromNow, now);
      if ms == t.ms && !fromNow { return true; }
      if t.cb.None? { return false; }
      var it := Find(t);
      if it == |timers| { return false; }
      var start := if fromNow then now else t.next - t.ms;
      TakeOut(t, it, ms, start + ms);
      AddVal(t);
      ok := true;
    }

    /** The wait until the first deadline. */
    method GetNextTime(now: nat) returns (wait: nat)
      requires Valid()
      modifies this`tickled, this`fired, this`seen
      ensures Valid() && (Value(), wait) == TimerSpec.GetNextTime(old(Value()), now)
    {
      hide Recs, Occupied, Addrs, Ordered, Structure;
      ghost var m := Value();
      NextKeepsStructure(m, now);
      tickled := false;
      fired, seen := 0, None;
      assert Value() == m.(tickled := false, fired := 0, seen := None);
      if |timers| == 0 { return NEVER; }
      var next := timers[0];
      assert next in all && Addrs(timers)[0] == next.addr;
      seen := Some(next.next);
      wait := if now >= next.next then 0 else next.next - now;
    }

    /** `detectClockRollover`: a step back by more than an hour, and in the first hour of the clock any step back. */
    method DetectClockRollover(now: nat) returns (rollover: bool)
      modifies this`previous
      ensures previous == now && rollover == Rollover(old(previous), now)
      ensures HOUR <= old(previous) < WORD ==> (rollover <==> now + HOUR < old(previous))
      ensures old(previous) < HOUR ==> (rollover <==> now < old(previous))
    {
      if previous < WORD { RolloverIff(previous, now); }
      rollover := now < previous && now < (previous - HOUR) % WORD;
      previous := now;
    }

    /** One turn of the loop over the expired timers. */
    method Retire(t: Timer, now: nat) returns (cb: Option<Cb>)
      requires Known() && t in all
      modifies this`timers, t`next, t`cb
      ensures Known() && cb == old(t.cb) && Value() == TimerSpec.Retire(old(Value()), t.addr, now)
    {
      hide Rank, Inserted, Recs, Occupied, Addrs;
      ghost var m := Value();
      cb := t.cb;
      if t.recurring {
        t.next := now + t.ms;
        RecsUpdated(all, m.recs, t);
        var _ := Insert(t);
      } else {
        t.cb := None;
        RecsUpdated(all, m.recs, t);
      }
    }

    method RetireExpired(expired: seq<Timer>, now: nat) returns (cbs: seq<Option<Cb>>)
      requires Known() && (forall t :: t in expired ==> t in all) && Retiring(Value(), Addrs(expired))
      modifies this`timers, all
      ensures Known() && Value() == RetireAll(old(Value()), Addrs(expired), now)
      ensures cbs == old(Callbacks(Recs(all), Addrs(expired)))
    {
      hide Recs, Occupied, Unique, Addrs, Progress, Retiring, TimerSpec.Retire, RetireAll, Callbacks;
      ghost var m, left := Value(), Addrs(expired);
      cbs := [];
      ProgressStarts(m, left, now);
      for i := 0 to |expired|
        invariant Known() && Progress(m, left, Value(), i, cbs, now)
      {
        var t := expired[i];
        assert t in expired && t.addr == left[i];
        ProgressStep(m, left, Value(), i, cbs, now);
        var cb := Retire(t, now);
        cbs := cbs + [cb];
      }
      ProgressEnds(m, left, Value(), cbs, now);
    }

    method ListExpired(now: nat, probe: Addr) returns (cbs: seq<Option<Cb>>)
      requires Valid()
      modifies this`timers, this`previous, all
      ensures Valid() && (Value(), cbs) == TimerSpec.ListExpired(old(Value()), now, probe)
    {
      hide RetireAll, Retiring, Structure, Rollover, FirstLater;
      ghost var m := Value();
      ListExpiredKeepsStructure(m, now, probe);
      if |timers| == 0 { return []; }
      assert timers[0] in all && m.order[0] == timers[0].addr;
      var rollover := DetectClockRollover(now);
      assert Value() == m.(previous := now);
      if !rollover && timers[0].next > now { return []; }
      var it := |timers|;
      if !rollover { it := FindLater(now, probe); }
      StructureUnderClock(m, now);
      cbs := ExpireFirst(it, now);
    }

    /** Take the first `it` timers out of the set and retire them. */
    method ExpireFirst(it: nat, now: nat) returns (cbs: seq<Option<Cb>>)
      requires Known() && it <= |timers| && Structure(Value()) && previous == now
      modifies this`timers, all
      ensures Known()
      ensures var m := old(Value());
        && Value() == RetireAll(m.(order := m.order[it..]), m.order[..it], now)
        && cbs == Callbacks(m.recs, m.order[..it])
    {
      hide RetireAll, Retiring, Structure;
      ghost var m := Value();
      SplitRetires(m, it, now);
      AddrsOfSlices(timers, it);
      var expired := timers[..it];
      timers := timers[it..];
      assert Value() == m.(order := m.order[it..]);
      cbs := RetireExpired(expired, now);
    }

    /** The first timer due after `now`. */
    method FindLater(now: nat, probe: Addr) returns (it: nat)
      requires Known()
      ensures it == FirstLater(Recs(all), Addrs(timers), now, probe)
    {
      it := LowerBound(now, probe);
      ghost var recs, order := Recs(all), Addrs(timers);
      while it < |timers| && timers[it].next == now
        invariant it <= |timers| && SkipEqual(recs, order, now, it) == FirstLater(recs, order, now, probe)
      {
        assert timers[it] in all && order[it] == timers[it].addr;
        it := it + 1;
      }
      if it < |timers| {
        assert timers[it] in all && order[it] == timers[it].addr;
      }
    }
  }

  /** After `i` turns: the rest is retired from here as it would have been from the start. */
  ghost predicate Progress(m: Mgr, left: seq<Addr>, v: Mgr, i: nat, cbs: seq<Option<Cb>>, now: nat)
    requires Retiring(m, left)
  {
    && i <= |left| && Retiring(v, left[i..])
    && RetireAll(v, left[i..], now) == RetireAll(m, left, now)
    && cbs == Callbacks(m.recs, left[..i])
    && forall k :: i <= k < |left| ==> left[k] in v.recs && v.recs[left[k]] == m.recs[left[k]]
  }

  lemma ProgressStarts(m: Mgr, left: seq<Addr>, now: nat)
    requires Retiring(m, left)
    ensures Progress(m, left, m, 0, [], now)
  {
    assert left[0..] == left;
  }

  lemma ProgressStep(m: Mgr, left: seq<Addr>, v: Mgr, i: nat, cbs: seq<Option<Cb>>, now: nat)
    requires Retiring(m, left) && i < |left| && Progress(m, left, v, i, cbs, now)
    ensures left[i] in v.recs && Known(v.recs, v.order)
    ensures left[i] !in v.order
    ensures Progress(m, left, TimerSpec.Retire(v, left[i], now), i + 1, cbs + [v.recs[left[i]].cb], now)
  {
    hide Retiring, TimerSpec.Retire;
    var rest := left[i..];
    assert rest[0] == left[i] && rest[1..] == left[i + 1..];
    RetireStep(v, rest, now);
    assert left[..i + 1] == left[..i] + [left[i]];
    CallbacksOfMore(m, left, i);
    forall k | i + 1 <= k < |left|
      ensures TimerSpec.Retire(v, left[i], now).recs[left[k]] == m.recs[left[k]]
    {
      assert rest[k - i] == left[k];
    }
  }

  lemma CallbacksOfMore(m: Mgr, left: seq<Addr>, i: nat)
    requires Retiring(m, left) && i < |left|
    ensures Known(m.recs, left) && Callbacks(m.recs, left[..i + 1]) == Callbacks(m.recs, left[..i]) + [m.recs[left[i]].cb]
  {}

  lemma ProgressEnds(m: Mgr, left: seq<Addr>, v: Mgr, cbs: seq<Option<Cb>>, now: nat)
    requires Retiring(m, left) && Progress(m, left, v, |left|, cbs, now)
    ensures Known(m.recs, m.order) && Known(m.recs, left) && v == RetireAll(m, left, now) && cbs == Callbacks(m.recs, left)
  {
    assert left[..|left|] == left && left[|left|..] == [];
  }

  lemma RetireStep(m: Mgr, left: seq<Addr>, now: nat)
    requires Retiring(m, left) && left != []
    ensures left[0] in m.recs && left[0] !in m.order && Known(m.recs, m.order) && Known(m.recs, left)
    ensures Retiring(TimerSpec.Retire(m, left[0], now), left[1..])
    ensures RetireAll(m, left, now) == RetireAll(TimerSpec.Retire(m, left[0], now), left[1..], now)
    ensures forall k :: 1 <= k < |left| ==> left[k] in TimerSpec.Retire(m, left[0], now).recs
    ensures forall k :: 1 <= k < |left| ==> TimerSpec.Retire(m, left[0], now).recs[left[k]] == m.recs[left[k]]
  {
    RetireKeeps(m, left, now);
  }
}
