/**
 The thread pool as a step system: each critical section, wait, notification, task run and join is
 one step, and any step that is enabled may be the next one.
 */
module ThreadPool {

  type Task(==, !new)

  datatype Worker =
    | Ready              // about to take the lock and test the wait predicate
    | Sleeping           // inside `condition_.wait`
    | Running(t: Task)   // the lock released, a task moved out of the queue
    | Exited

  /** Where the destructor stands. */
  datatype Shutdown = NotStopped | MustNotify | Joining(joined: nat) | Done

  /**
   `accepted`, `started` and `finished` record the tasks that `enqueue` took, that a worker popped
   and whose call returned, each in order; `notifies` counts the `notify_one` calls still to come.
   */
  datatype State = State(
    workers: seq<Worker>,
    tasks: seq<Task>,
    stop: bool,
    notifies: nat,
    shutdown: Shutdown,
    accepted: seq<Task>,
    started: seq<Task>,
    finished: seq<Task>)

  ghost predicate Init(s: State) {
    && s.tasks == s.accepted == s.started == s.finished == []
    && !s.stop && s.notifies == 0 && s.shutdown == NotStopped
    && forall w :: 0 <= w < |s.workers| ==> s.workers[w] == Ready
  }

  datatype Step =
    | Enqueue(t: Task)
    | Reject
    | NotifyOne(w: nat)
    | Test(w: nat)
    | Wake(w: nat)
    | Finish(w: nat)
    | Stop
    | NotifyAll
    | Join
    | Destroyed

  predicate SomeSleeping(s: State) {
    exists w :: 0 <= w < |s.workers| && s.workers[w] == Sleeping
  }

  ghost predicate Enabled(s: State, step: Step) {
    match step
    case Enqueue(_) => !s.stop
    case Reject => s.stop
    case NotifyOne(w) =>
      s.notifies > 0 && (SomeSleeping(s) ==> w < |s.workers| && s.workers[w] == Sleeping)
    case Test(w) => w < |s.workers| && s.workers[w] == Ready
    case Wake(w) => w < |s.workers| && s.workers[w] == Sleeping
    case Finish(w) => w < |s.workers| && s.workers[w].Running?
    case Stop => s.shutdown == NotStopped
    case NotifyAll => s.shutdown == MustNotify
    case Join => s.shutdown.Joining? && s.shutdown.joined < |s.workers| && s.workers[s.shutdown.joined] == Exited
    case Destroyed => s.shutdown.Joining? && s.shutdown.joined == |s.workers|
  }

  function WakeAll(ws: seq<Worker>): seq<Worker> {
    seq(|ws|, i requires 0 <= i < |ws| => if ws[i] == Sleeping then Ready else ws[i])
  }

  ghost function Apply(s: State, step: Step): State
    requires Enabled(s, step)
  {
    match step
    case Enqueue(t) => s.(tasks := s.tasks + [t], accepted := s.accepted + [t], notifies := s.notifies + 1)
    case Reject => s
    case NotifyOne(w) =>
      if SomeSleeping(s) then s.(notifies := s.notifies - 1, workers := s.workers[w := Ready])
      else s.(notifies := s.notifies - 1)
    case Test(w) =>
      if !s.stop && s.tasks == [] then s.(workers := s.workers[w := Sleeping])
      else if s.stop && s.tasks == [] then s.(workers := s.workers[w := Exited])
      else
        var t := s.tasks[0];
        s.(workers := s.workers[w := Running(t)], tasks := s.tasks[1..], started := s.started + [t])
    case Wake(w) => s.(workers := s.workers[w := Ready])
    case Finish(w) => s.(workers := s.workers[w := Ready], finished := s.finished + [s.workers[w].t])
    case Stop => s.(stop := true, shutdown := MustNotify)
    case NotifyAll => s.(workers := WakeAll(s.workers), shutdown := Joining(0))
    case Join => s.(shutdown := Joining(s.shutdown.joined + 1))
    case Destroyed => s.(shutdown := Done)
  }

  /** The steps of `run` can be taken one after the other from `s`; `After` is where they lead. */
  ghost predicate Runs(s: State, run: seq<Step>)
    decreases |run|
  {
    run == [] || (Enabled(s, run[0]) && Runs(Apply(s, run[0]), run[1..]))
  }

  ghost function After(s: State, run: seq<Step>): State
    requires Runs(s, run)
    decreases |run|
  {
    if run == [] then s else After(Apply(s, run[0]), run[1..])
  }

  // ---------------------------------------------------------------- what every step keeps

  function Load(w: Worker): multiset<Task> { if w.Running? then multiset{w.t} else multiset{} }

  /** The tasks workers are running. */
  function InFlight(ws: seq<Worker>): multiset<Task> {
    if ws == [] then multiset{} else InFlight(ws[1..]) + Load(ws[0])
  }

  ghost predicate Conserved(s: State) {
    && s.started + s.tasks == s.accepted
    && multiset(s.started) == multiset(s.finished) + InFlight(s.workers)
  }

  /** Workers leave only when nothing is left to do, and are joined only after they left. */
  ghost predicate Drained(s: State) {
    && (s.stop <==> s.shutdown != NotStopped)
    && (forall w :: 0 <= w < |s.workers| && s.workers[w] == Exited ==> s.stop && s.tasks == [])
    && (s.shutdown.Joining? ==>
         s.shutdown.joined <= |s.workers| && forall w :: 0 <= w < s.shutdown.joined ==> s.workers[w] == Exited)
    && (s.shutdown == Done ==> forall w :: 0 <= w < |s.workers| ==> s.workers[w] == Exited)
  }

  predicate Awake(w: Worker) { w == Ready || w.Running? }

  ghost predicate SomeAwake(s: State) { exists w :: 0 <= w < |s.workers| && Awake(s.workers[w]) }

  /** A queued task is never forgotten, and after the stop no worker sleeps unnoticed. */
  ghost predicate NeverStuck(s: State) {
    && (s.tasks != [] && s.workers != [] ==> SomeAwake(s) || s.notifies > 0)
    && (s.stop ==> s.shutdown == MustNotify || !SomeSleeping(s))
  }

  ghost predicate Inv(s: State) { Conserved(s) && Drained(s) && NeverStuck(s) }

  lemma {:induction false} InFlightUpdate(ws: seq<Worker>, w: nat, v: Worker)
    requires w < |ws|
    ensures InFlight(ws[w := v]) + Load(ws[w]) == InFlight(ws) + Load(v)
  {
    hide Load;
    var tail := ws[1..];
    if w == 0 {
      assert ws[w := v][1..] == tail;
      Swap(InFlight(tail), Load(v), Load(ws[0]));
    } else {
      assert ws[w := v][1..] == tail[w - 1 := v];
      InFlightUpdate(tail, w - 1, v);
      Swap(InFlight(tail[w - 1 := v]), Load(ws[0]), Load(ws[w]));
      Swap(InFlight(tail), Load(ws[0]), Load(v));
    }
  }

  lemma Swap(a: multiset<Task>, b: multiset<Task>, c: multiset<Task>)
    ensures (a + b) + c == (a + c) + b
  {}

  lemma Nothing(a: multiset<Task>)
    ensures a + multiset{} == a
  {}

  /** A worker that was not running turns into one that is not running. */
  lemma InFlightIdle(ws: seq<Worker>, w: nat, v: Worker)
    requires w < |ws| && !ws[w].Running? && !v.Running?
    ensures InFlight(ws[w := v]) == InFlight(ws)
  {
    InFlightUpdate(ws, w, v);
    Nothing(InFlight(ws));
    Nothing(InFlight(ws[w := v]));
  }

  lemma {:induction false} InFlightOfWoken(ws: seq<Worker>)
    ensures InFlight(WakeAll(ws)) == InFlight(ws)
  {
    if ws != [] {
      assert WakeAll(ws)[1..] == WakeAll(ws[1..]);
      InFlightOfWoken(ws[1..]);
    }
  }

  lemma {:induction false} NoneInFlight(ws: seq<Worker>)
    requires forall w :: 0 <= w < |ws| ==> !ws[w].Running?
    ensures InFlight(ws) == multiset{}
  {
    if ws != [] { NoneInFlight(ws[1..]); }
  }

  lemma InitHolds(s: State)
    requires Init(s)
    ensures Inv(s)
  {
    NoneInFlight(s.workers);
  }

  lemma StepConserves(s: State, step: Step)
    requires Conserved(s) && Enabled(s, step)
    ensures Conserved(Apply(s, step))
  {
    hide InFlight;
    match step {
      case NotifyOne(w) => if SomeSleeping(s) { InFlightIdle(s.workers, w, Ready); }
      case Test(w) => TestConserves(s, w);
      case Wake(w) => InFlightIdle(s.workers, w, Ready);
      case Finish(w) => FinishConserves(s, w);
      case NotifyAll => InFlightOfWoken(s.workers);
      case _ =>
    }
  }

  lemma TestConserves(s: State, w: nat)
    requires Conserved(s) && Enabled(s, Test(w))
    ensures Conserved(Apply(s, Test(w)))
  {
    hide InFlight;
    if s.tasks == [] {
      InFlightIdle(s.workers, w, if s.stop then Exited else Sleeping);
    } else {
      var t := s.tasks[0];
      InFlightUpdate(s.workers, w, Running(t));
      Nothing(InFlight(s.workers[w := Running(t)]));
      assert s.tasks == [t] + s.tasks[1..];
      assert multiset(s.started + [t]) == multiset(s.started) + multiset{t};
    }
  }

  lemma FinishConserves(s: State, w: nat)
    requires Conserved(s) && Enabled(s, Finish(w))
    ensures Conserved(Apply(s, Finish(w)))
  {
    hide InFlight;
    var t := s.workers[w].t;
    InFlightUpdate(s.workers, w, Ready);
    Nothing(InFlight(s.workers));
    assert multiset(s.finished + [t]) == multiset(s.finished) + multiset{t};
  }

  lemma StepKeepsDrained(s: State, step: Step)
    requires Drained(s) && Enabled(s, step)
    ensures Drained(Apply(s, step))
  {}

  lemma StepNeverSticks(s: State, step: Step)
    requires Drained(s) && NeverStuck(s) && Enabled(s, step)
    ensures NeverStuck(Apply(s, step))
  {
    var s' := Apply(s, step);
    match step
    case NotifyOne(w) =>
      if SomeSleeping(s) {
        assert s'.workers[w] == Ready;
      } else if s.workers != [] && s.tasks != [] {
        assert Awake(s.workers[0]);
      }
    case Test(w) =>
      if s.tasks != [] { assert s'.workers[w].Running?; }
    case Wake(w) => assert s'.workers[w] == Ready;
    case Finish(w) => assert s'.workers[w] == Ready;
    case NotifyAll =>
      if SomeAwake(s) {
        var w :| 0 <= w < |s.workers| && Awake(s.workers[w]);
        assert Awake(s'.workers[w]);
      }
    case _ =>
  }

  lemma {:induction false} InvariantHolds(s: State, run: seq<Step>)
    requires Inv(s) && Runs(s, run)
    ensures Inv(After(s, run)) && |After(s, run).workers| == |s.workers|
    decreases |run|
  {
    hide Conserved, Drained, NeverStuck;
    if run != [] {
      StepConserves(s, run[0]);
      StepKeepsDrained(s, run[0]);
      StepNeverSticks(s, run[0]);
      InvariantHolds(Apply(s, run[0]), run[1..]);
    }
  }

  // ---------------------------------------------------------------- the results

  /** The tasks handed to `enqueue` in a run. */
  function Submitted(run: seq<Step>): seq<Task> {
    if run == [] then [] else (if run[0].Enqueue? then [run[0].t] else []) + Submitted(run[1..])
  }

  /** The tasks workers run after testing the queue. */
  ghost function TakenUp(s: State, run: seq<Step>): seq<Task>
    requires Runs(s, run)
    decreases |run|
  {
    if run == [] then []
    else
      var s1 := Apply(s, run[0]);
      (if run[0].Test? && run[0].w < |s1.workers| && s1.workers[run[0].w].Running? then [s1.workers[run[0].w].t] else [])
      + TakenUp(s1, run[1..])
  }

  /** The tasks whose call returns. */
  ghost function Returned(s: State, run: seq<Step>): seq<Task>
    requires Runs(s, run)
    decreases |run|
  {
    if run == [] then []
    else (if run[0].Finish? then [s.workers[run[0].w].t] else []) + Returned(Apply(s, run[0]), run[1..])
  }

  /** The records hold what was handed in, taken up and returned. */
  lemma {:induction false} RecordsAreTrue(s: State, run: seq<Step>)
    requires Runs(s, run)
    ensures After(s, run).accepted == s.accepted + Submitted(run)
    ensures After(s, run).started == s.started + TakenUp(s, run)
    ensures After(s, run).finished == s.finished + Returned(s, run)
    decreases |run|
  {
    hide Apply;
    if run != [] {
      var s1 := Apply(s, run[0]);
      StepIsRecorded(s, run[0]);
      RecordsAreTrue(s1, run[1..]);
    }
  }

  lemma StepIsRecorded(s: State, step: Step)
    requires Enabled(s, step)
    ensures var s' := Apply(s, step);
      && s'.accepted == s.accepted + (if step.Enqueue? then [step.t] else [])
      && (step.Test? ==> step.w < |s'.workers|)
      && s'.started == s.started + (if step.Test? && s'.workers[step.w].Running? then [s'.workers[step.w].t] else [])
      && s'.finished == s.finished + (if step.Finish? then [s.workers[step.w].t] else [])
  {}

  /** Tasks are taken up in the order they were handed in, and each is queued, running or returned, once. */
  lemma EachTaskOnce(s: State, run: seq<Step>)
    requires Init(s) && Runs(s, run)
    ensures var s' := After(s, run);
      && TakenUp(s, run) + s'.tasks == Submitted(run)
      && multiset(Submitted(run)) == multiset(s'.tasks) + InFlight(s'.workers) + multiset(Returned(s, run))
  {
    hide Returned, TakenUp, Submitted;
    InitHolds(s);
    InvariantHolds(s, run);
    RecordsAreTrue(s, run);
    var s' := After(s, run);
    assert s.accepted + Submitted(run) == Submitted(run);
    assert s.started + TakenUp(s, run) == TakenUp(s, run);
    assert s.finished + Returned(s, run) == Returned(s, run);
    assert multiset(s'.accepted) == multiset(s'.started) + multiset(s'.tasks);
  }

  /** When the destructor has returned, every task handed in has been run, provided there was a worker. */
  lemma DestructorDrains(s: State, run: seq<Step>)
    requires Init(s) && Runs(s, run) && After(s, run).shutdown == Done && |s.workers| > 0
    ensures After(s, run).tasks == [] && multiset(Returned(s, run)) == multiset(Submitted(run))
  {
    InitHolds(s);
    InvariantHolds(s, run);
    var s' := After(s, run);
    assert s'.workers[0] == Exited;
    NoneInFlight(s'.workers);
    EachTaskOnce(s, run);
  }

  /** A pool of no workers runs nothing: its destructor returns over whatever was accepted. */
  lemma NoWorkersNoDrain(t: Task)
    ensures var s := State([], [], false, 0, NotStopped, [], [], []);
      var run := [Enqueue(t), Stop, NotifyAll, Destroyed];
      Init(s) && Runs(s, run) && After(s, run).shutdown == Done && After(s, run).tasks == [t]
  {
    var s := State([], [], false, 0, NotStopped, [], [], []);
    var s1 := Apply(s, Enqueue(t));
    var s2 := Apply(s1, Stop);
    var s3 := Apply(s2, NotifyAll);
    var s4 := Apply(s3, Destroyed);
    OneMore(s3, Destroyed, []);
    OneMore(s2, NotifyAll, [Destroyed]);
    OneMore(s1, Stop, [NotifyAll, Destroyed]);
    OneMore(s, Enqueue(t), [Stop, NotifyAll, Destroyed]);
  }

  lemma {:induction false} NothingReturns(s: State, run: seq<Step>)
    requires s.workers == [] && Runs(s, run)
    ensures Returned(s, run) == []
    decreases |run|
  {
    if run != [] { NothingReturns(Apply(s, run[0]), run[1..]); }
  }

  /** The destructor leaves no task behind exactly when there was a worker or nothing had been handed in. */
  lemma DestructorDrainsIff(s: State, run: seq<Step>)
    requires Init(s) && Runs(s, run) && After(s, run).shutdown == Done
    ensures multiset(Returned(s, run)) == multiset(Submitted(run)) <==> |s.workers| > 0 || Submitted(run) == []
  {
    EachTaskOnce(s, run);
    if |s.workers| > 0 {
      DestructorDrains(s, run);
    } else {
      NothingReturns(s, run);
      assert |multiset(Submitted(run))| == |Submitted(run)|;
    }
  }

  lemma OneMore(s: State, step: Step, run: seq<Step>)
    requires Enabled(s, step) && Runs(Apply(s, step), run)
    ensures Runs(s, [step] + run) && After(s, [step] + run) == After(Apply(s, step), run)
  {
    assert ([step] + run)[1..] == run;
  }

  /** No reachable state has lost a wake-up. */
  lemma NoLostWakeup(s: State, run: seq<Step>)
    requires Init(s) && Runs(s, run)
    ensures var s' := After(s, run);
      && (s'.tasks != [] && |s.workers| > 0 ==> SomeAwake(s') || s'.notifies > 0)
      && (s'.stop ==> s'.shutdown == MustNotify || !SomeSleeping(s'))
  {
    InitHolds(s);
    InvariantHolds(s, run);
  }

  // ---------------------------------------------------------------- shutdown finishes

  function Weight(w: Worker): nat {
    match w
    case Ready => 1
    case Sleeping => 2
    case Running(_) => 2
    case Exited => 0
  }

  function Weights(ws: seq<Worker>): nat {
    if ws == [] then 0 else Weight(ws[0]) + Weights(ws[1..])
  }

  /** What the stopped pool still has to do. */
  function Measure(s: State): nat {
    2 * |s.tasks| + Weights(s.workers) + s.notifies +
    match s.shutdown
    case NotStopped => |s.workers| + 4
    case MustNotify => |s.workers| + 3
    case Joining(n) => if n <= |s.workers| then |s.workers| - n + 1 else 1
    case Done => 0
  }

  lemma {:induction false} WeightsUpdate(ws: seq<Worker>, w: nat, v: Worker)
    requires w < |ws|
    ensures Weights(ws[w := v]) + Weight(ws[w]) == Weights(ws) + Weight(v)
  {
    if w == 0 {
      assert ws[w := v][1..] == ws[1..];
    } else {
      assert ws[w := v][1..] == ws[1..][w - 1 := v];
      WeightsUpdate(ws[1..], w - 1, v);
    }
  }

  lemma {:induction false} WeightsOfWoken(ws: seq<Worker>)
    ensures Weights(WakeAll(ws)) <= Weights(ws)
  {
    if ws != [] {
      assert WakeAll(ws)[1..] == WakeAll(ws[1..]);
      WeightsOfWoken(ws[1..]);
    }
  }

  /** Once stopped, every step but a rejected `enqueue` makes progress. */
  lemma StoppedStepsProgress(s: State, step: Step)
    requires s.stop && Drained(s) && Enabled(s, step) && step != Reject
    ensures Apply(s, step).stop && Measure(Apply(s, step)) < Measure(s)
  {
    match step
    case NotifyOne(w) => if SomeSleeping(s) { WeightsUpdate(s.workers, w, Ready); }
    case Test(w) =>
      WeightsUpdate(s.workers, w, if s.tasks == [] then Exited else Running(s.tasks[0]));
    case Wake(w) => WeightsUpdate(s.workers, w, Ready);
    case Finish(w) => WeightsUpdate(s.workers, w, Ready);
    case NotifyAll => WeightsOfWoken(s.workers);
    case _ =>
  }

  /**
   Until the destructor has returned some other step is enabled, without counting on a stray
   wake-up or on a notification: shutdown cannot deadlock.
   */
  lemma StoppedCanStep(s: State, run: seq<Step>)
    requires Init(s) && Runs(s, run) && After(s, run).stop && After(s, run).shutdown != Done
    ensures exists step :: Enabled(After(s, run), step) && !step.Reject? && !step.Wake? && !step.NotifyOne?
  {
    InitHolds(s);
    InvariantHolds(s, run);
    var s' := After(s, run);
    if s'.shutdown == MustNotify {
      assert Enabled(s', NotifyAll);
    } else if s'.shutdown.joined == |s'.workers| {
      assert Enabled(s', Destroyed);
    } else {
      var w := s'.shutdown.joined;
      assert s'.workers[w] != Sleeping;
      if s'.workers[w] == Ready {
        assert Enabled(s', Test(w));
      } else if s'.workers[w].Running? {
        assert Enabled(s', Finish(w));
      } else {
        assert Enabled(s', Join);
      }
    }
  }

  /** And a stopped pool takes at most `Measure` steps more. */
  lemma {:induction false} ShutdownIsBounded(s: State, run: seq<Step>)
    requires s.stop && Drained(s) && Runs(s, run) && forall i :: 0 <= i < |run| ==> run[i] != Reject
    ensures |run| <= Measure(s)
    decreases |run|
  {
    if run != [] {
      StoppedStepsProgress(s, run[0]);
      StepKeepsDrained(s, run[0]);
      ShutdownIsBounded(Apply(s, run[0]), run[1..]);
    }
  }

  // ---------------------------------------------------------------- no busy waiting

  function Effort(w: Worker): nat {
    match w
    case Exited => 0
    case Sleeping => 1
    case Ready => 2
    case Running(_) => 3
  }

  function Efforts(ws: seq<Worker>): nat {
    if ws == [] then 0 else Effort(ws[0]) + Efforts(ws[1..])
  }

  lemma {:induction false} EffortsUpdate(ws: seq<Worker>, w: nat, v: Worker)
    requires w < |ws|
    ensures Efforts(ws[w := v]) + Effort(ws[w]) == Efforts(ws) + Effort(v)
  {
    if w == 0 {
      assert ws[w := v][1..] == ws[1..];
    } else {
      assert ws[w := v][1..] == ws[1..][w - 1 := v];
      EffortsUpdate(ws[1..], w - 1, v);
    }
  }

  lemma {:induction false} EffortsOfWoken(ws: seq<Worker>)
    ensures Efforts(WakeAll(ws)) <= Efforts(ws) + |ws|
  {
    if ws != [] {
      assert WakeAll(ws)[1..] == WakeAll(ws[1..]);
      EffortsOfWoken(ws[1..]);
    }
  }

  /** What the pool can still do when nothing more is handed in. */
  function Budget(s: State): nat {
    2 * |s.tasks| + Efforts(s.workers) + 2 * s.notifies +
    match s.shutdown
    case NotStopped => 2 * |s.workers| + 3
    case MustNotify => 2 * |s.workers| + 2
    case Joining(n) => if n <= |s.workers| then |s.workers| - n + 1 else 1
    case Done => 0
  }

  /** What a step adds to it: a task handed in brings a notification, a stray wake-up a test. */
  function Brought(step: Step): nat {
    match step
    case Enqueue(_) => 4
    case Wake(_) => 1
    case _ => 0
  }

  predicate IsWork(step: Step) { !step.Enqueue? && !step.Wake? && !step.Reject? }

  lemma StepCosts(s: State, step: Step)
    requires Drained(s) && Enabled(s, step)
    ensures Budget(Apply(s, step)) + (if IsWork(step) then 1 else 0) <= Budget(s) + Brought(step)
  {
    match step
    case NotifyOne(w) => if SomeSleeping(s) { EffortsUpdate(s.workers, w, Ready); }
    case Test(w) =>
      EffortsUpdate(s.workers, w, if s.tasks != [] then Running(s.tasks[0]) else if s.stop then Exited else Sleeping);
    case Wake(w) => EffortsUpdate(s.workers, w, Ready);
    case Finish(w) => EffortsUpdate(s.workers, w, Ready);
    case NotifyAll => EffortsOfWoken(s.workers);
    case _ =>
  }

  function WorkSteps(run: seq<Step>): nat {
    if run == [] then 0 else (if IsWork(run[0]) then 1 else 0) + WorkSteps(run[1..])
  }

  function AllBrought(run: seq<Step>): nat {
    if run == [] then 0 else Brought(run[0]) + AllBrought(run[1..])
  }

  /**
   The pool does not spin: however long the run, its steps are bounded by the tasks handed in and
   the stray wake-ups, whether it is stopped or not.
   */
  lemma {:induction false} WorkIsBounded(s: State, run: seq<Step>)
    requires Drained(s) && Runs(s, run)
    ensures WorkSteps(run) <= Budget(s) + AllBrought(run)
    decreases |run|
  {
    hide Budget, Brought, Drained;
    if run != [] {
      StepCosts(s, run[0]);
      StepKeepsDrained(s, run[0]);
      WorkIsBounded(Apply(s, run[0]), run[1..]);
    }
  }
}
