/**
 The fiber scheduler as a step system: workers dequeue under the lock, run, decrement the active
 count and put a fiber that came back ready into the queue again.
 */
module Scheduler {

  datatype FiberState = Initial | Hold | Exec | Term | ReadyState | Except

  type FiberId = nat

  datatype Option<+T> = None | Some(value: T)

  datatype Job = FiberJob(f: FiberId) | CallbackJob

  /** `FiberAndThread`, numbered in the order of the pushes; `thread` is -1 for any thread. */
  datatype Entry = Entry(id: nat, job: Job, thread: int)

  /** Where a worker stands in `run`. */
  datatype Phase =
    | Scanning
    | Dequeued(e: Entry)
    | Running(e: Entry)
    | Returned(e: Entry, again: Job, state: FiberState)
    | Requeue(again: Job)
    | Idling
    | Left

  datatype Worker = Worker(phase: Phase, idleTerm: bool)

  /** `pushed` and `passed` count the entries put into the queue, and list those whose worker is past its decrement. */
  datatype State = State(
    queue: seq<Entry>,
    active: int,
    autoStop: bool,
    stopping: bool,
    fibers: map<FiberId, FiberState>,
    workers: seq<Worker>,
    pushed: nat,
    passed: multiset<nat>)

  predicate Init(s: State) {
    && s.queue == [] && s.active == 0 && s.pushed == 0 && s.passed == multiset{} && !s.autoStop && !s.stopping
    && forall w :: 0 <= w < |s.workers| ==> s.workers[w] == Worker(Scanning, false)
  }

  function StateOf(fibers: map<FiberId, FiberState>, j: Job): FiberState {
    if j.FiberJob? && j.f in fibers then fibers[j.f] else Initial
  }

  // ---------------------------------------------------------------- the scan of the queue

  predicate Pinned(e: Entry, tid: int) { e.thread != -1 && e.thread != tid }

  predicate Eligible(e: Entry, tid: int, fibers: map<FiberId, FiberState>) {
    !Pinned(e, tid) && !(e.job.FiberJob? && StateOf(fibers, e.job) == Exec)
  }

  /** The first entry the thread may take, or the end. */
  function FirstEligible(q: seq<Entry>, tid: int, fibers: map<FiberId, FiberState>): (i: nat)
    ensures i <= |q|
    ensures i < |q| ==> Eligible(q[i], tid, fibers)
    ensures forall j :: 0 <= j < i ==> !Eligible(q[j], tid, fibers)
  {
    if q == [] || Eligible(q[0], tid, fibers) then 0 else 1 + FirstEligible(q[1..], tid, fibers)
  }

  /**
   The loop of `run` under the lock: takes the first eligible entry out of the list, and asks for a
   tickle when it passed an entry of another thread or left something behind the one it took.
   */
  method Scan(q: seq<Entry>, tid: int, fibers: map<FiberId, FiberState>)
    returns (found: bool, ft: Entry, q': seq<Entry>, tickleMe: bool)
    ensures found <==> exists i :: 0 <= i < |q| && Eligible(q[i], tid, fibers)
    ensures var i := FirstEligible(q, tid, fibers);
      if found then i < |q| && ft == q[i] && q' == q[..i] + q[i + 1..] else q' == q
    ensures var i := FirstEligible(q, tid, fibers);
      tickleMe <==> (exists j :: 0 <= j < i && Pinned(q[j], tid)) || (found && i + 1 < |q|)
  {
    var it := 0;
    tickleMe, found, q' := false, false, q;
    ft := Entry(0, CallbackJob, -1);
    while it < |q|
      invariant 0 <= it <= |q| && !found && q' == q
      invariant forall j :: 0 <= j < it ==> !Eligible(q[j], tid, fibers)
      invariant tickleMe <==> exists j :: 0 <= j < it && Pinned(q[j], tid)
    {
      if q[it].thread != -1 && q[it].thread != tid {
        assert Pinned(q[it], tid);
        it := it + 1;
        tickleMe := true;
        continue;
      }
      if q[it].job.FiberJob? && StateOf(fibers, q[it].job) == Exec {
        it := it + 1;
        continue;
      }
      assert Eligible(q[it], tid, fibers);
      ft, q', found := q[it], q[..it] + q[it + 1..], true;
      break;
    }
    FirstIsUnique(q, tid, fibers, it);
    tickleMe := tickleMe || (found && it < |q'|);
  }

  lemma FirstIsUnique(q: seq<Entry>, tid: int, fibers: map<FiberId, FiberState>, i: nat)
    requires i <= |q| && (i < |q| ==> Eligible(q[i], tid, fibers))
    requires forall j :: 0 <= j < i ==> !Eligible(q[j], tid, fibers)
    ensures FirstEligible(q, tid, fibers) == i
  {
    var k := FirstEligible(q, tid, fibers);
    assert !(k < i) && !(i < k);
  }

  // ---------------------------------------------------------------- steps

  datatype Step =
    | Schedule(j: Job, thread: int)
    | CallAutoStop
    | CallStopping
    | Dequeue(w: nat)
    | FindNothing(w: nat)
    | SwapIn(w: nat)
    | SwapOut(w: nat, again: Job, state: FiberState)
    | Decrement(w: nat)
    | Reschedule(w: nat)
    | IdleTurn(w: nat)

  /** `stopping()`. */
  predicate Stopping(s: State) {
    s.autoStop && s.stopping && s.queue == [] && s.active == 0
  }

  predicate At(s: State, w: nat) { w < |s.workers| }

  predicate Enabled(s: State, step: Step) {
    match step
    case Schedule(_, _) => true
    case CallAutoStop => true
    case CallStopping => true
    case Dequeue(w) =>
      At(s, w) && s.workers[w].phase == Scanning && FirstEligible(s.queue, w, s.fibers) < |s.queue|
    case FindNothing(w) =>
      At(s, w) && s.workers[w].phase == Scanning && FirstEligible(s.queue, w, s.fibers) == |s.queue|
    case SwapIn(w) => At(s, w) && s.workers[w].phase.Dequeued?
    case SwapOut(w, again, state) =>
      // a fiber entry comes back as itself, a callback as the fiber that carried it
      At(s, w) && s.workers[w].phase.Running? && again.FiberJob?
      && (s.workers[w].phase.e.job.FiberJob? ==> again == s.workers[w].phase.e.job)
    case Decrement(w) => At(s, w) && s.workers[w].phase.Returned?
    case Reschedule(w) => At(s, w) && s.workers[w].phase.Requeue?
    case IdleTurn(w) => At(s, w) && s.workers[w].phase == Idling
  }

  function Put(s: State, w: nat, p: Phase): seq<Worker>
    requires w < |s.workers|
  {
    s.workers[w := s.workers[w].(phase := p)]
  }

  /** `scheduleNoBlock`: an empty task is not queued; the answer is whether the queue was empty. */
  method ScheduleNoBlock(q: seq<Entry>, task: Option<Job>, id: nat, thread: int) returns (q': seq<Entry>, needTickle: bool)
    ensures needTickle <==> q == []
    ensures q <= q' && q'[|q|..] == if task.None? then [] else [Entry(id, task.value, thread)]
  {
    needTickle := |q| == 0;
    q' := q;
    if task.Some? { q' := q' + [Entry(id, task.value, thread)]; }
  }

  function Push(s: State, j: Job, thread: int): State {
    s.(queue := s.queue + [Entry(s.pushed, j, thread)], pushed := s.pushed + 1)
  }

  function Apply(s: State, step: Step): State
    requires Enabled(s, step)
  {
    match step
    case Schedule(j, thread) => Push(s, j, thread)
    case CallAutoStop => s.(autoStop := true)
    case CallStopping => s.(stopping := true)
    case Dequeue(w) =>
      var i := FirstEligible(s.queue, w, s.fibers);
      s.(queue := s.queue[..i] + s.queue[i + 1..], active := s.active + 1, workers := Put(s, w, Dequeued(s.queue[i])))
    case FindNothing(w) =>
      if s.workers[w].idleTerm then s.(workers := Put(s, w, Left)) else s.(workers := Put(s, w, Idling))
    case SwapIn(w) =>
      var e := s.workers[w].phase.e;
      if e.job.FiberJob? && StateOf(s.fibers, e.job) in {Term, Except} then
        // a finished fiber is dropped: the worker only takes back its count
        s.(active := s.active - 1, passed := s.passed + multiset{e.id}, workers := Put(s, w, Scanning))
      else if e.job.FiberJob? then
        s.(fibers := s.fibers[e.job.f := Exec], workers := Put(s, w, Running(e)))
      else
        s.(workers := Put(s, w, Running(e)))
    case SwapOut(w, again, state) =>
      s.(fibers := s.fibers[again.f := state], workers := Put(s, w, Returned(s.workers[w].phase.e, again, state)))
    case Decrement(w) =>
      var p := s.workers[w].phase;
      s.(active := s.active - 1, passed := s.passed + multiset{p.e.id},
         fibers := if p.state in {ReadyState, Term, Except} || !p.again.FiberJob? then s.fibers else s.fibers[p.again.f := Hold],
         workers := Put(s, w, if p.state == ReadyState then Requeue(p.again) else Scanning))
    case Reschedule(w) =>
      Push(s.(workers := Put(s, w, Scanning)), s.workers[w].phase.again, -1)
    case IdleTurn(w) =>
      s.(workers := s.workers[w := Worker(Scanning, s.workers[w].idleTerm || Stopping(s))])
  }

  predicate Runs(s: State, run: seq<Step>)
    decreases |run|
  {
    run == [] || (Enabled(s, run[0]) && Runs(Apply(s, run[0]), run[1..]))
  }

  function After(s: State, run: seq<Step>): State
    requires Runs(s, run)
    decreases |run|
  {
    if run == [] then s else After(Apply(s, run[0]), run[1..])
  }

  // ---------------------------------------------------------------- the invariant

  /** Between its dequeue and its decrement. */
  predicate Holding(w: Worker) { w.phase.Dequeued? || w.phase.Running? || w.phase.Returned? }

  function Count(ws: seq<Worker>): nat {
    if ws == [] then 0 else Count(ws[1..]) + (if Holding(ws[0]) then 1 else 0)
  }

  function Held(w: Worker): multiset<nat> { if Holding(w) then multiset{w.phase.e.id} else multiset{} }

  function AllHeld(ws: seq<Worker>): multiset<nat> {
    if ws == [] then multiset{} else AllHeld(ws[1..]) + Held(ws[0])
  }

  function Queued(q: seq<Entry>): multiset<nat> {
    if q == [] then multiset{} else Queued(q[1..]) + multiset{q[0].id}
  }

  function Numbers(n: nat): multiset<nat> {
    if n == 0 then multiset{} else Numbers(n - 1) + multiset{n - 1}
  }

  /** The active count is the number of holding workers, and each entry is queued, held or passed, once. */
  predicate Inv(s: State) {
    && s.active == Count(s.workers)
    && Numbers(s.pushed) == Queued(s.queue) + AllHeld(s.workers) + s.passed
  }

  lemma {:induction false} CountUpdate(ws: seq<Worker>, w: nat, v: Worker)
    requires w < |ws|
    ensures Count(ws[w := v]) + (if Holding(ws[w]) then 1 else 0) == Count(ws) + (if Holding(v) then 1 else 0)
  {
    var tail := ws[1..];
    if w == 0 {
      assert ws[w := v][1..] == tail;
    } else {
      assert ws[w := v][1..] == tail[w - 1 := v];
      CountUpdate(tail, w - 1, v);
    }
  }

  lemma {:induction false} HeldUpdate(ws: seq<Worker>, w: nat, v: Worker)
    requires w < |ws|
    ensures AllHeld(ws[w := v]) + Held(ws[w]) == AllHeld(ws) + Held(v)
  {
    hide Held;
    var tail := ws[1..];
    if w == 0 {
      assert ws[w := v][1..] == tail;
      Swap(AllHeld(tail), Held(v), Held(ws[0]));
    } else {
      assert ws[w := v][1..] == tail[w - 1 := v];
      HeldUpdate(tail, w - 1, v);
      Swap(AllHeld(tail[w - 1 := v]), Held(ws[0]), Held(ws[w]));
      Swap(AllHeld(tail), Held(ws[0]), Held(v));
    }
  }

  lemma Swap(a: multiset<nat>, b: multiset<nat>, c: multiset<nat>)
    ensures (a + b) + c == (a + c) + b
  {}

  lemma {:induction false} NoneHeld(ws: seq<Worker>)
    requires Count(ws) == 0
    ensures AllHeld(ws) == multiset{}
  {
    if ws != [] { NoneHeld(ws[1..]); }
  }

  lemma {:induction false} FreshWorkers(ws: seq<Worker>)
    requires forall w :: 0 <= w < |ws| ==> !Holding(ws[w])
    ensures Count(ws) == 0 && AllHeld(ws) == multiset{}
  {
    if ws != [] { FreshWorkers(ws[1..]); }
  }

  lemma {:induction false} QueuedSnoc(q: seq<Entry>, e: Entry)
    ensures Queued(q + [e]) == Queued(q) + multiset{e.id}
  {
    if q != [] {
      assert (q + [e])[1..] == q[1..] + [e];
      QueuedSnoc(q[1..], e);
      Swap(Queued(q[1..]), multiset{e.id}, multiset{q[0].id});
    }
  }

  lemma {:induction false} QueuedWithout(q: seq<Entry>, i: nat)
    requires i < |q|
    ensures Queued(q) == Queued(q[..i] + q[i + 1..]) + multiset{q[i].id}
  {
    var r := q[..i] + q[i + 1..];
    if i == 0 {
      assert r == q[1..];
    } else {
      assert r[1..] == q[1..][..i - 1] + q[1..][i..];
      QueuedWithout(q[1..], i - 1);
      Swap(Queued(r[1..]), multiset{q[i].id}, multiset{q[0].id});
    }
  }

  /** An entry goes from the queue to a worker. */
  lemma DequeueKeeps(s: State, w: nat)
    requires Inv(s) && Enabled(s, Dequeue(w))
    ensures Inv(Apply(s, Dequeue(w)))
  {
    hide Count, AllHeld, Queued, Numbers, FirstEligible;
    var i := FirstEligible(s.queue, w, s.fibers);
    var v := s.workers[w].(phase := Dequeued(s.queue[i]));
    QueuedWithout(s.queue, i);
    CountUpdate(s.workers, w, v);
    HeldUpdate(s.workers, w, v);
    var q := Queued(s.queue[..i] + s.queue[i + 1..]);
    var id := multiset{s.queue[i].id};
    assert AllHeld(s.workers[w := v]) + multiset{} == AllHeld(s.workers[w := v]);
    assert (q + id) + AllHeld(s.workers) + s.passed == q + (AllHeld(s.workers) + id) + s.passed;
  }

  /** An entry goes from a worker to the passed ones. */
  lemma PassingKeeps(s: State, s': State, w: nat, v: Worker)
    requires Inv(s) && w < |s.workers| && Holding(s.workers[w]) && !Holding(v)
    requires s'.queue == s.queue && s'.pushed == s.pushed && s'.workers == s.workers[w := v]
    requires s'.active == s.active - 1 && s'.passed == s.passed + multiset{s.workers[w].phase.e.id}
    ensures Inv(s')
  {
    hide Count, AllHeld, Queued, Numbers;
    CountUpdate(s.workers, w, v);
    HeldUpdate(s.workers, w, v);
    var id := multiset{s.workers[w].phase.e.id};
    assert AllHeld(s.workers) + multiset{} == AllHeld(s.workers);
    assert Queued(s.queue) + (AllHeld(s'.workers) + id) + s.passed
        == Queued(s.queue) + AllHeld(s'.workers) + (s.passed + id);
  }

  /** A worker changes its phase and keeps what it holds. */
  lemma MovingKeeps(s: State, s': State, w: nat, v: Worker)
    requires Inv(s) && w < |s.workers| && Held(s.workers[w]) == Held(v) && (Holding(s.workers[w]) <==> Holding(v))
    requires s'.active == s.active && s'.passed == s.passed && s'.queue == s.queue && s'.pushed == s.pushed
    requires s'.workers == s.workers[w := v]
    ensures Inv(s')
  {
    hide Count, AllHeld, Queued, Numbers, Held;
    CountUpdate(s.workers, w, v);
    HeldUpdate(s.workers, w, v);
    Cancel(AllHeld(s.workers), AllHeld(s'.workers), Held(v));
  }

  lemma Cancel(a: multiset<nat>, b: multiset<nat>, c: multiset<nat>)
    requires a + c == b + c
    ensures a == b
  {
    assert (a + c) - c == a;
    assert (b + c) - c == b;
  }

  lemma PushKeeps(s: State, j: Job, thread: int)
    requires Inv(s)
    ensures Inv(Push(s, j, thread))
  {
    hide Count, AllHeld, Queued;
    QueuedSnoc(s.queue, Entry(s.pushed, j, thread));
    var id := multiset{s.pushed};
    assert (Queued(s.queue) + AllHeld(s.workers) + s.passed) + id
        == (Queued(s.queue) + id) + AllHeld(s.workers) + s.passed;
  }

  lemma StepKeepsInv(s: State, step: Step)
    requires Inv(s) && Enabled(s, step)
    ensures Inv(Apply(s, step))
  {
    hide Inv, FirstEligible, Put, Push;
    match step {
      case Schedule(j, thread) => PushKeeps(s, j, thread);
      case CallAutoStop => SameParts(s, Apply(s, step));
      case CallStopping => SameParts(s, Apply(s, step));
      case Dequeue(w) => DequeueKeeps(s, w);
      case SwapIn(w) => SwapInKeeps(s, w);
      case Decrement(w) => DecrementKeeps(s, w);
      case Reschedule(w) => RescheduleKeeps(s, w);
      case FindNothing(w) => MoveKeeps(s, step, w);
      case SwapOut(w, _, _) => MoveKeeps(s, step, w);
      case IdleTurn(w) => MoveKeeps(s, step, w);
    }
  }

  lemma MoveKeeps(s: State, step: Step, w: nat)
    requires Inv(s) && Enabled(s, step) && (step.FindNothing? || step.SwapOut? || step.IdleTurn?) && step.w == w
    ensures Inv(Apply(s, step))
  {
    hide Inv, Apply, Held, Holding, Count, AllHeld, Queued, Numbers;
    match step {
      case FindNothing(_) => FindNothingMoves(s, w);
      case SwapOut(_, again, state) => SwapOutMoves(s, w, again, state);
      case IdleTurn(_) => IdleTurnMoves(s, w);
    }
    MovingKeeps(s, Apply(s, step), w, Apply(s, step).workers[w]);
  }

  ghost predicate OnlyMoves(s: State, s': State, w: nat) {
    && w < |s.workers| == |s'.workers| && s'.workers == s.workers[w := s'.workers[w]]
    && Held(s.workers[w]) == Held(s'.workers[w]) && (Holding(s.workers[w]) <==> Holding(s'.workers[w]))
    && s'.active == s.active && s'.passed == s.passed && s'.queue == s.queue && s'.pushed == s.pushed
  }

  lemma FindNothingMoves(s: State, w: nat)
    requires Enabled(s, FindNothing(w))
    ensures OnlyMoves(s, Apply(s, FindNothing(w)), w)
  {
    hide FirstEligible, Stopping, StateOf, Count, AllHeld, Queued, Numbers, Held;
    NothingHeld(s.workers[w]);
    NothingHeld(Apply(s, FindNothing(w)).workers[w]);
  }

  lemma NothingHeld(v: Worker)
    ensures !Holding(v) ==> Held(v) == multiset{}
  {}

  lemma SwapOutMoves(s: State, w: nat, again: Job, state: FiberState)
    requires Enabled(s, SwapOut(w, again, state))
    ensures OnlyMoves(s, Apply(s, SwapOut(w, again, state)), w)
  {
    hide FirstEligible, Stopping, Count, AllHeld, Queued, Numbers;
  }

  lemma IdleTurnMoves(s: State, w: nat)
    requires Enabled(s, IdleTurn(w))
    ensures OnlyMoves(s, Apply(s, IdleTurn(w)), w)
  {
    hide FirstEligible, Stopping, Count, AllHeld, Queued, Numbers;
  }

  lemma DecrementKeeps(s: State, w: nat)
    requires Inv(s) && Enabled(s, Decrement(w))
    ensures Inv(Apply(s, Decrement(w)))
  {
    hide Inv;
    PassingKeeps(s, Apply(s, Decrement(w)), w, Apply(s, Decrement(w)).workers[w]);
  }

  lemma SwapInKeeps(s: State, w: nat)
    requires Inv(s) && Enabled(s, SwapIn(w))
    ensures Inv(Apply(s, SwapIn(w)))
  {
    hide Inv;
    var s' := Apply(s, SwapIn(w));
    if s'.active == s.active {
      MovingKeeps(s, s', w, s'.workers[w]);
    } else {
      PassingKeeps(s, s', w, s'.workers[w]);
    }
  }

  lemma RescheduleKeeps(s: State, w: nat)
    requires Inv(s) && Enabled(s, Reschedule(w))
    ensures Inv(Apply(s, Reschedule(w)))
  {
    hide Inv;
    var s1 := s.(workers := Put(s, w, Scanning));
    MovingKeeps(s, s1, w, s1.workers[w]);
    PushKeeps(s1, s.workers[w].phase.again, -1);
  }

  lemma SameParts(s: State, s': State)
    requires Inv(s) && s' == s.(autoStop := s'.autoStop, stopping := s'.stopping)
    ensures Inv(s')
  {}

  lemma {:induction false} InvariantHolds(s: State, run: seq<Step>)
    requires Inv(s) && Runs(s, run)
    ensures Inv(After(s, run))
    decreases |run|
  {
    hide Inv;
    if run != [] {
      StepKeepsInv(s, run[0]);
      InvariantHolds(Apply(s, run[0]), run[1..]);
    }
  }

  // ---------------------------------------------------------------- the results

  /** `m_activeThreadCount` always is the number of workers between dequeue and decrement. */
  lemma ActiveCountIsExact(s: State, run: seq<Step>)
    requires Init(s) && Runs(s, run)
    ensures After(s, run).active == Count(After(s, run).workers)
  {
    FreshWorkers(s.workers);
    InvariantHolds(s, run);
  }

  /** When `stopping()` is true every entry ever pushed has been dequeued and its worker is past the decrement. */
  lemma StoppingIsQuiescent(s: State, run: seq<Step>)
    requires Init(s) && Runs(s, run) && Stopping(After(s, run))
    ensures After(s, run).passed == Numbers(After(s, run).pushed)
    ensures forall w :: 0 <= w < |After(s, run).workers| ==> !Holding(After(s, run).workers[w])
  {
    FreshWorkers(s.workers);
    InvariantHolds(s, run);
    var s' := After(s, run);
    NoneHeld(s'.workers);
    NoneHolds(s'.workers);
  }

  lemma {:induction false} NoneHolds(ws: seq<Worker>)
    requires Count(ws) == 0
    ensures forall w :: 0 <= w < |ws| ==> !Holding(ws[w])
  {
    if ws != [] { NoneHolds(ws[1..]); }
  }

  /** A fiber that came back ready, already uncounted and not yet back in the queue. */
  predicate Overlooked(s: State) {
    exists w :: 0 <= w < |s.workers| && s.workers[w].phase.Requeue?
  }

  /** Every step but a call of `schedule` from outside. */
  predicate FromInside(run: seq<Step>) { forall i :: 0 <= i < |run| ==> !run[i].Schedule? }

  /** Nothing is queued, counted or about to be queued. */
  predicate Quiet(s: State) {
    Stopping(s) && forall w :: 0 <= w < |s.workers| ==> !Holding(s.workers[w]) && !s.workers[w].phase.Requeue?
  }

  lemma StepKeepsQuiet(s: State, step: Step)
    requires Quiet(s) && Enabled(s, step) && !step.Schedule?
    ensures Quiet(Apply(s, step))
  {}

  lemma {:induction false} RunKeepsQuiet(s: State, run: seq<Step>)
    requires Quiet(s) && Runs(s, run) && FromInside(run)
    ensures Quiet(After(s, run))
    decreases |run|
  {
    hide Quiet;
    if run != [] {
      StepKeepsQuiet(s, run[0]);
      RunKeepsQuiet(Apply(s, run[0]), run[1..]);
    }
  }

  /**
   The decrement comes before the fiber is scheduled again, so `stopping()` can be true while a
   worker still has a ready fiber to put back: it stays true over every run of the workers exactly when none has.
   */
  lemma StoppingIsStableIff(s: State, run: seq<Step>)
    requires Init(s) && Runs(s, run) && Stopping(After(s, run))
    ensures var s' := After(s, run);
      (forall more :: Runs(s', more) && FromInside(more) ==> Stopping(After(s', more))) <==> !Overlooked(s')
  {
    hide Runs, After;
    var s' := After(s, run);
    StoppingIsQuiescent(s, run);
    if Overlooked(s') {
      var w :| 0 <= w < |s'.workers| && s'.workers[w].phase.Requeue?;
      var more := [Reschedule(w)];
      NoMore(Apply(s', Reschedule(w)));
      OneMore(s', Reschedule(w), [], more);
      assert Runs(s', more) && FromInside(more) && After(s', more).queue != [];
    } else {
      forall more | Runs(s', more) && FromInside(more)
        ensures Stopping(After(s', more))
      {
        RunKeepsQuiet(s', more);
      }
    }
  }

  // ---------------------------------------------------------------- when all workers have left

  predicate AllLeft(s: State) { forall w :: 0 <= w < |s.workers| ==> s.workers[w].phase == Left }

  predicate FromOutside(run: seq<Step>) {
    forall i :: 0 <= i < |run| ==> run[i].Schedule? || run[i].CallAutoStop? || run[i].CallStopping?
  }

  /** In `run` worker `w` is the last to leave; entries pushed before that are none it could have taken. */
  predicate LastLeaves(s: State, run: seq<Step>, pre: seq<Step>, w: nat, post: seq<Step>)
    requires Runs(s, run)
  {
    && run == pre + [FindNothing(w)] + post && Runs(s, pre) && FromOutside(post)
    && forall i :: 0 <= i < |After(s, run).queue| ==>
      var e := After(s, run).queue[i];
      e.id >= After(s, pre).pushed || !Eligible(e, w, After(s, run).fibers)
  }

  /** Only calls from outside are left, and they push behind what is there. */
  lemma {:induction false} OnlyOutside(s: State, run: seq<Step>)
    requires AllLeft(s) && Runs(s, run)
    ensures var s' := After(s, run);
      && FromOutside(run) && s'.fibers == s.fibers && |s.queue| <= |s'.queue|
      && (forall i :: 0 <= i < |s.queue| ==> s'.queue[i] == s.queue[i])
      && (forall i :: |s.queue| <= i < |s'.queue| ==> s'.queue[i].id >= s.pushed)
    decreases |run|
  {
    if run != [] {
      var s1 := Apply(s, run[0]);
      OnlyOutside(s1, run[1..]);
      assert forall i :: 0 < i < |run| ==> run[i] == run[1..][i - 1];
    }
  }

  /** Only a worker that finds nothing leaves. */
  lemma OthersStay(s: State, step: Step)
    requires !AllLeft(s) && Enabled(s, step) && !step.FindNothing?
    ensures !AllLeft(Apply(s, step))
  {
    var v: nat :| v < |s.workers| && s.workers[v].phase != Left;
    assert Apply(s, step).workers[v].phase != Left;
  }

  lemma LastStep(s: State, step: Step)
    requires !AllLeft(s) && Enabled(s, step) && AllLeft(Apply(s, step))
    ensures step.FindNothing? && Apply(s, step).queue == s.queue && Apply(s, step).fibers == s.fibers
    ensures Apply(s, step).pushed == s.pushed
    ensures forall i :: 0 <= i < |s.queue| ==> !Eligible(s.queue[i], step.w, s.fibers)
  {
    if !step.FindNothing? { OthersStay(s, step); }
  }

  /**
   When all workers have left, each entry still queued is pinned to another thread than the last one
   that left or its fiber is executing, or it was pushed from outside after that.
   */
  lemma {:induction false} LeftBehind(s: State, run: seq<Step>)
    requires Runs(s, run) && !AllLeft(s) && AllLeft(After(s, run))
    ensures exists pre, w, post :: LastLeaves(s, run, pre, w, post)
    decreases |run|
  {
    hide AllLeft, Apply, Enabled;
    var s1 := Apply(s, run[0]);
    if AllLeft(s1) {
      LastStep(s, run[0]);
      OnlyOutside(s1, run[1..]);
      assert run == [] + [FindNothing(run[0].w)] + run[1..];
      assert LastLeaves(s, run, [], run[0].w, run[1..]);
    } else {
      LeftBehind(s1, run[1..]);
      var pre, w, post :| LastLeaves(s1, run[1..], pre, w, post);
      var full := [run[0]] + pre;
      OneMore(s, run[0], pre, full);
      assert run == full + [FindNothing(w)] + post;
      assert LastLeaves(s, run, full, w, post);
    }
  }

  /** One worker, one fiber that yields ready: `stopping()` is true while the fiber waits to be queued. */
  lemma StoppingOverlooksAFiber(f: FiberId)
    ensures var s := State([], 0, false, false, map[], [Worker(Scanning, false)], 0, multiset{});
      var run := [Schedule(FiberJob(f), -1), CallAutoStop, CallStopping]
        + [Dequeue(0), SwapIn(0), SwapOut(0, FiberJob(f), ReadyState), Decrement(0)];
      Init(s) && Runs(s, run) && Stopping(After(s, run)) && Overlooked(After(s, run))
  {
    var s := State([], 0, false, false, map[], [Worker(Scanning, false)], 0, multiset{});
    var j := FiberJob(f);
    var out := SwapOut(0, j, ReadyState);
    hide Runs, After, FirstEligible;
    var s3 := Apply(Apply(Apply(s, Schedule(j, -1)), CallAutoStop), CallStopping);
    assert s3 == State([Entry(0, j, -1)], 0, true, true, map[], [Worker(Scanning, false)], 1, multiset{});
    LastSteps(f, s3);
    var run := [Dequeue(0), SwapIn(0), out, Decrement(0)];
    OneMore(Apply(Apply(s, Schedule(j, -1)), CallAutoStop), CallStopping, run, [CallStopping] + run);
    OneMore(Apply(s, Schedule(j, -1)), CallAutoStop, [CallStopping] + run, [CallAutoStop, CallStopping] + run);
    OneMore(s, Schedule(j, -1), [CallAutoStop, CallStopping] + run, [Schedule(j, -1), CallAutoStop, CallStopping] + run);
  }

  lemma LastSteps(f: FiberId, s: State)
    requires s == State([Entry(0, FiberJob(f), -1)], 0, true, true, map[], [Worker(Scanning, false)], 1, multiset{})
    ensures var run := [Dequeue(0), SwapIn(0), SwapOut(0, FiberJob(f), ReadyState), Decrement(0)];
      Runs(s, run) && Stopping(After(s, run)) && Overlooked(After(s, run))
  {
    hide Runs, After;
    var j := FiberJob(f);
    var out := SwapOut(0, j, ReadyState);
    var s4 := Apply(s, Dequeue(0));
    assert s4.queue == [] && s4.workers == [Worker(Dequeued(Entry(0, j, -1)), false)];
    var s5 := Apply(s4, SwapIn(0));
    assert s5.workers == [Worker(Running(Entry(0, j, -1)), false)];
    var s6 := Apply(s5, out);
    assert s6.workers == [Worker(Returned(Entry(0, j, -1), j, ReadyState), false)];
    var s7 := Apply(s6, Decrement(0));
    assert s7.workers[0].phase == Requeue(j);
    NoMore(s7);
    OneMore(s6, Decrement(0), [], [Decrement(0)]);
    OneMore(s5, out, [Decrement(0)], [out, Decrement(0)]);
    OneMore(s4, SwapIn(0), [out, Decrement(0)], [SwapIn(0), out, Decrement(0)]);
    OneMore(s, Dequeue(0), [SwapIn(0), out, Decrement(0)], [Dequeue(0), SwapIn(0), out, Decrement(0)]);
  }

  lemma NoMore(s: State)
    ensures Runs(s, []) && After(s, []) == s
  {}

  lemma OneMore(s: State, step: Step, run: seq<Step>, full: seq<Step>)
    requires Enabled(s, step) && Runs(Apply(s, step), run) && full == [step] + run
    ensures Runs(s, full) && After(s, full) == After(Apply(s, step), run)
  {
    assert full[1..] == run;
  }
}
