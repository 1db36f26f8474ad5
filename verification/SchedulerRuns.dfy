/** What becomes of the entries, of the fibers that come back ready and of the workers, over whole runs. */
module SchedulerRuns {
  import opened Scheduler

  // ---------------------------------------------------------------- sums over the workers

  function SumOf<T(==)>(ws: seq<Worker>, f: Worker -> multiset<T>): multiset<T> {
    if ws == [] then multiset{} else SumOf(ws[1..], f) + f(ws[0])
  }

  lemma {:induction false} SumUpdate<T>(ws: seq<Worker>, f: Worker -> multiset<T>, w: nat, v: Worker)
    requires w < |ws|
    ensures SumOf(ws[w := v], f) + f(ws[w]) == SumOf(ws, f) + f(v)
  {
    var tail := ws[1..];
    if w == 0 {
      assert ws[w := v][1..] == tail;
      SwapLast(SumOf(tail, f), f(v), f(ws[0]));
    } else {
      assert ws[w := v][1..] == tail[w - 1 := v];
      SumUpdate(tail, f, w - 1, v);
      SwapLast(SumOf(tail[w - 1 := v], f), f(ws[0]), f(ws[w]));
      SwapLast(SumOf(tail, f), f(ws[0]), f(v));
    }
  }

  lemma SwapLast<T>(a: multiset<T>, b: multiset<T>, c: multiset<T>)
    ensures (a + b) + c == (a + c) + b
  {}

  lemma {:induction false} SumOfNothing<T>(ws: seq<Worker>, f: Worker -> multiset<T>)
    requires forall w :: 0 <= w < |ws| ==> f(ws[w]) == multiset{}
    ensures SumOf(ws, f) == multiset{}
  {
    if ws != [] { SumOfNothing(ws[1..], f); }
  }

  /** Only worker `w` may differ. */
  predicate OnlyWorker(s: State, s': State, w: nat) {
    w < |s.workers| == |s'.workers| && s'.workers == s.workers[w := s'.workers[w]]
  }

  lemma StepsOneWorker(s: State, step: Step)
    requires Enabled(s, step)
    ensures step.Schedule? || step.CallAutoStop? || step.CallStopping? ==> Apply(s, step).workers == s.workers
    ensures step.Schedule? || step.CallAutoStop? || step.CallStopping? || OnlyWorker(s, Apply(s, step), step.w)
  {
    hide FirstEligible, Stopping;
  }

  lemma Group<T>(a: multiset<T>, b: multiset<T>, c: multiset<T>)
    ensures (a + b) + c == a + (b + c)
  {}

  lemma Interleave<T>(a: multiset<T>, b: multiset<T>, a': multiset<T>, b': multiset<T>)
    ensures (a + b) + (a' + b') == (a + a') + (b + b')
  {}

  lemma Swapped<T>(a: multiset<T>, b: multiset<T>)
    ensures a + b == b + a
  {}

  /** What balances at one worker balances over all. */
  lemma Balance<T>(s: State, s': State, w: nat, f: Worker -> multiset<T>, a: multiset<T>, a': multiset<T>)
    requires OnlyWorker(s, s', w) && f(s.workers[w]) + a == f(s'.workers[w]) + a'
    ensures SumOf(s.workers, f) + a == SumOf(s'.workers, f) + a'
  {
    SumUpdate(s.workers, f, w, s'.workers[w]);
    var x, x', y, y' := f(s.workers[w]), f(s'.workers[w]), SumOf(s.workers, f), SumOf(s'.workers, f);
    Interleave(y, a, x', x);
    Interleave(y', a', x, x');
    Swapped(x, x');
    Swapped(a, x);
    Swapped(a', x');
    Less(y + a, y' + a', x + x');
  }

  lemma Less<T>(a: multiset<T>, b: multiset<T>, c: multiset<T>)
    ensures a + c == b + c ==> a == b
  {
    assert (a + c) - c == a && (b + c) - c == b;
  }

  lemma Chain<T>(a: multiset<T>, i: multiset<T>, b: multiset<T>, o: multiset<T>, i': multiset<T>, c: multiset<T>, o': multiset<T>)
    requires a + i == b + o && b + i' == c + o'
    ensures a + (i + i') == c + (o + o')
  {
    Group(a, i, i');
    SwapLast(b, o, i');
    SwapLast(c, o', o);
    Group(c, o, o');
  }

  lemma NoneAdded<T>(a: multiset<T>)
    ensures a + multiset{} == a == multiset{} + a
  {}

  // ---------------------------------------------------------------- entries

  /** The entry a step puts into the queue, as the `n`-th of all. */
  function HandedBy(s: State, step: Step, n: nat): seq<Entry>
    requires Enabled(s, step)
  {
    match step
    case Schedule(j, thread) => [Entry(n, j, thread)]
    case Reschedule(w) => [Entry(n, s.workers[w].phase.again, -1)]
    case _ => []
  }

  /** The entry whose fiber or callback a step has run. */
  function RanBy(s: State, step: Step): seq<Entry>
    requires Enabled(s, step)
  {
    if step.SwapOut? then [s.workers[step.w].phase.e] else []
  }

  /** The entry a step drops, because its fiber has finished or thrown. */
  function DroppedBy(s: State, step: Step): seq<Entry>
    requires Enabled(s, step)
  {
    if step.SwapIn? && s.workers[step.w].phase.e.job.FiberJob?
      && StateOf(s.fibers, s.workers[step.w].phase.e.job) in {Term, Except}
    then [s.workers[step.w].phase.e] else []
  }

  function Handed(s: State, run: seq<Step>, n: nat): seq<Entry>
    requires Runs(s, run)
    decreases |run|
  {
    if run == [] then []
    else
      var h := HandedBy(s, run[0], n);
      h + Handed(Apply(s, run[0]), run[1..], n + |h|)
  }

  function Ran(s: State, run: seq<Step>): seq<Entry>
    requires Runs(s, run)
    decreases |run|
  {
    if run == [] then [] else RanBy(s, run[0]) + Ran(Apply(s, run[0]), run[1..])
  }

  function Dropped(s: State, run: seq<Step>): seq<Entry>
    requires Runs(s, run)
    decreases |run|
  {
    if run == [] then [] else DroppedBy(s, run[0]) + Dropped(Apply(s, run[0]), run[1..])
  }

  /** Dequeued, and not yet run or dropped. */
  function Work(w: Worker): multiset<Entry> {
    if w.phase.Dequeued? || w.phase.Running? then multiset{w.phase.e} else multiset{}
  }

  lemma TakeOut(q: seq<Entry>, i: nat)
    requires i < |q|
    ensures multiset(q) == multiset(q[..i] + q[i + 1..]) + multiset{q[i]}
  {
    assert q == q[..i] + ([q[i]] + q[i + 1..]);
  }

  lemma DequeueMoves(s: State, w: nat)
    requires Enabled(s, Dequeue(w))
    ensures var s' := Apply(s, Dequeue(w));
      && w < |s.workers| == |s'.workers| && s'.pushed == s.pushed
      && Work(s.workers[w]) == multiset{} && multiset(s.queue) == Work(s'.workers[w]) + multiset(s'.queue)
  {
    hide FirstEligible, Stopping;
    FoundOne(s, w);
    TakeOut(s.queue, FirstEligible(s.queue, w, s.fibers));
  }

  /** How the worker of a step goes on. */
  lemma PhaseAfter(s: State, step: Step)
    requires Enabled(s, step) && !step.Schedule? && !step.CallAutoStop? && !step.CallStopping?
    ensures step.w < |s.workers| == |Apply(s, step).workers|
    ensures var p, p' := s.workers[step.w].phase, Apply(s, step).workers[step.w].phase;
      && (step.Dequeue? ==> p == Scanning && p'.Dequeued?)
      && (step.FindNothing? ==> p == Scanning && (p' == Idling || p' == Left))
      && (step.SwapIn? ==> p.Dequeued? && p' == if DroppedBy(s, step) != [] then Scanning else Running(p.e))
      && (step.SwapOut? ==> p.Running? && p' == Returned(p.e, step.again, step.state))
      && (step.Decrement? ==> p.Returned? && p' == if p.state == ReadyState then Requeue(p.again) else Scanning)
      && (step.Reschedule? ==> p.Requeue? && p' == Scanning)
      && (step.IdleTurn? ==> p == Idling && p' == Scanning)
  {
    hide FirstEligible, Stopping, StateOf;
  }

  lemma QueueAfter(s: State, step: Step)
    requires Enabled(s, step) && !step.Dequeue?
    ensures Apply(s, step).queue == s.queue + HandedBy(s, step, s.pushed)
    ensures Apply(s, step).pushed == s.pushed + |HandedBy(s, step, s.pushed)|
  {
    hide FirstEligible, Stopping, StateOf;
    assert s.queue + [] == s.queue;
  }

  lemma WorkAfter(s: State, step: Step)
    requires Enabled(s, step) && !step.Schedule? && !step.CallAutoStop? && !step.CallStopping? && !step.Dequeue?
    ensures step.w < |s.workers| == |Apply(s, step).workers|
    ensures Work(s.workers[step.w]) == Work(Apply(s, step).workers[step.w]) + (multiset(RanBy(s, step)) + multiset(DroppedBy(s, step)))
  {
    hide Apply, Enabled, StateOf;
    PhaseAfter(s, step);
  }

  /** What a step takes out of the queue, its worker gets. */
  lemma WorkerMovesEntries(s: State, step: Step)
    requires Enabled(s, step) && !step.Schedule? && !step.CallAutoStop? && !step.CallStopping?
    ensures var s' := Apply(s, step);
      && OnlyWorker(s, s', step.w) && s'.pushed == s.pushed + |HandedBy(s, step, s.pushed)|
      && Work(s.workers[step.w]) + (multiset(s.queue) + multiset(HandedBy(s, step, s.pushed)))
      == Work(s'.workers[step.w]) + (multiset(s'.queue) + (multiset(RanBy(s, step)) + multiset(DroppedBy(s, step))))
  {
    hide Enabled, Apply, Work;
    StepsOneWorker(s, step);
    var s', w := Apply(s, step), step.w;
    var o := multiset(RanBy(s, step)) + multiset(DroppedBy(s, step));
    if step.Dequeue? {
      DequeueMoves(s, w);
      NoneAdded(multiset(s.queue));
      NoneAdded(multiset(s'.queue));
    } else {
      WorkAfter(s, step);
      QueueAfter(s, step);
      SwapLast(Work(s'.workers[w]), o, multiset(s'.queue));
      Group(Work(s'.workers[w]), multiset(s'.queue), o);
    }
  }

  lemma StepMovesEntries(s: State, step: Step)
    requires Enabled(s, step)
    ensures var s' := Apply(s, step);
      && s'.pushed == s.pushed + |HandedBy(s, step, s.pushed)|
      && (SumOf(s.workers, Work) + multiset(s.queue)) + multiset(HandedBy(s, step, s.pushed))
      == (SumOf(s'.workers, Work) + multiset(s'.queue)) + (multiset(RanBy(s, step)) + multiset(DroppedBy(s, step)))
  {
    hide FirstEligible, SumOf, Work, Stopping, Put, StateOf;
    var s', h := Apply(s, step), multiset(HandedBy(s, step, s.pushed));
    var o := multiset(RanBy(s, step)) + multiset(DroppedBy(s, step));
    if !step.Schedule? && !step.CallAutoStop? && !step.CallStopping? {
      WorkerMovesEntries(s, step);
      Balance(s, s', step.w, Work, multiset(s.queue) + h, multiset(s'.queue) + o);
      Group(SumOf(s.workers, Work), multiset(s.queue), h);
      Group(SumOf(s'.workers, Work), multiset(s'.queue), o);
    }
  }

  lemma FoundOne(s: State, w: nat)
    requires Enabled(s, Dequeue(w))
    ensures FirstEligible(s.queue, w, s.fibers) < |s.queue|
  {}

  lemma {:induction false} RunMovesEntries(s: State, run: seq<Step>)
    requires Runs(s, run)
    ensures var s' := After(s, run);
      && s'.pushed == s.pushed + |Handed(s, run, s.pushed)|
      && (SumOf(s.workers, Work) + multiset(s.queue)) + multiset(Handed(s, run, s.pushed))
      == (SumOf(s'.workers, Work) + multiset(s'.queue)) + (multiset(Ran(s, run)) + multiset(Dropped(s, run)))
    decreases |run|
  {
    hide Apply, Enabled, HandedBy, RanBy, DroppedBy, SumOf, Work;
    if run != [] {
      var s1, tail := Apply(s, run[0]), run[1..];
      StepMovesEntries(s, run[0]);
      RunMovesEntries(s1, tail);
      var h := HandedBy(s, run[0], s.pushed);
      var r, d := RanBy(s, run[0]), DroppedBy(s, run[0]);
      Chain(SumOf(s.workers, Work) + multiset(s.queue), multiset(h),
            SumOf(s1.workers, Work) + multiset(s1.queue), multiset(r) + multiset(d), multiset(Handed(s1, tail, s1.pushed)),
            SumOf(After(s, run).workers, Work) + multiset(After(s, run).queue), multiset(Ran(s1, tail)) + multiset(Dropped(s1, tail)));
      Interleave(multiset(r), multiset(d), multiset(Ran(s1, tail)), multiset(Dropped(s1, tail)));
    }
  }

  /** Entries are numbered in the order in which they are handed in, so no two are alike. */
  lemma {:induction false} Numbered(s: State, run: seq<Step>, n: nat)
    requires Runs(s, run)
    ensures forall i :: 0 <= i < |Handed(s, run, n)| ==> Handed(s, run, n)[i].id == n + i
    decreases |run|
  {
    hide Apply;
    if run != [] { Numbered(Apply(s, run[0]), run[1..], n + |HandedBy(s, run[0], n)|); }
  }

  /**
   Each entry handed in, from outside or for a fiber that came back ready, is still queued or with
   a worker, or was run, or was dropped because its fiber had finished or thrown: once, and nothing else is run.
   */
  lemma EachEntryOnce(s: State, run: seq<Step>)
    requires Init(s) && Runs(s, run)
    ensures var s' := After(s, run);
      multiset(Handed(s, run, 0))
      == (SumOf(s'.workers, Work) + multiset(s'.queue)) + (multiset(Ran(s, run)) + multiset(Dropped(s, run)))
    ensures forall i :: 0 <= i < |Handed(s, run, 0)| ==> Handed(s, run, 0)[i].id == i
  {
    hide Handed, Ran, Dropped;
    Numbered(s, run, 0);
    SumOfNothing(s.workers, Work);
    RunMovesEntries(s, run);
  }

  /** When `stopping()` is true every entry handed in was run, or dropped because its fiber had finished or thrown. */
  lemma StoppingMeansAllRan(s: State, run: seq<Step>)
    requires Init(s) && Runs(s, run) && Stopping(After(s, run))
    ensures multiset(Handed(s, run, 0)) == multiset(Ran(s, run)) + multiset(Dropped(s, run))
  {
    hide Handed, Ran, Dropped, Init, Runs;
    EachEntryOnce(s, run);
    StoppingIsQuiescent(s, run);
    SumOfNothing(After(s, run).workers, Work);
  }

  // ---------------------------------------------------------------- the entries that have passed

  /** Run, and before the decrement. */
  function Back(w: Worker): multiset<nat> { if w.phase.Returned? then multiset{w.phase.e.id} else multiset{} }

  lemma WorkerPasses(s: State, step: Step)
    requires Enabled(s, step) && !step.Schedule? && !step.CallAutoStop? && !step.CallStopping?
    ensures var s' := Apply(s, step);
      && OnlyWorker(s, s', step.w)
      && Back(s.workers[step.w]) + (s.passed + Queued(RanBy(s, step) + DroppedBy(s, step))) == Back(s'.workers[step.w]) + s'.passed
  {
    hide FirstEligible, Stopping;
    StepsOneWorker(s, step);
    var out := RanBy(s, step) + DroppedBy(s, step);
    assert Queued([]) == multiset{};
    if out != [] {
      assert out == [out[0]] && out[1..] == [];
      assert Queued(out) == multiset{out[0].id};
    }
  }

  lemma StepPasses(s: State, step: Step)
    requires Enabled(s, step)
    ensures var s' := Apply(s, step);
      (SumOf(s.workers, Back) + s.passed) + Queued(RanBy(s, step) + DroppedBy(s, step)) == SumOf(s'.workers, Back) + s'.passed
  {
    hide FirstEligible, Stopping, SumOf, Back;
    var s', o := Apply(s, step), Queued(RanBy(s, step) + DroppedBy(s, step));
    if !step.Schedule? && !step.CallAutoStop? && !step.CallStopping? {
      WorkerPasses(s, step);
      Balance(s, s', step.w, Back, s.passed + o, s'.passed);
      Group(SumOf(s.workers, Back), s.passed, o);
    }
  }

  lemma {:induction false} QueuedConcat(p: seq<Entry>, q: seq<Entry>)
    ensures Queued(p + q) == Queued(p) + Queued(q)
  {
    if p == [] {
      assert p + q == q;
    } else {
      assert (p + q)[1..] == p[1..] + q;
      QueuedConcat(p[1..], q);
      SwapLast(Queued(p[1..]), Queued(q), multiset{p[0].id});
    }
  }

  lemma {:induction false} RunPasses(s: State, run: seq<Step>)
    requires Runs(s, run)
    ensures (SumOf(s.workers, Back) + s.passed) + (Queued(Ran(s, run)) + Queued(Dropped(s, run)))
         == SumOf(After(s, run).workers, Back) + After(s, run).passed
    decreases |run|
  {
    hide Apply, Enabled, RanBy, DroppedBy, SumOf, Back;
    if run != [] {
      var s1, tail := Apply(s, run[0]), run[1..];
      StepPasses(s, run[0]);
      RunPasses(s1, tail);
      var r, d := RanBy(s, run[0]), DroppedBy(s, run[0]);
      QueuedConcat(r, d);
      QueuedConcat(r, Ran(s1, tail));
      QueuedConcat(d, Dropped(s1, tail));
      var before := SumOf(s.workers, Back) + s.passed;
      Group(before, Queued(r) + Queued(d), Queued(Ran(s1, tail)) + Queued(Dropped(s1, tail)));
      Interleave(Queued(r), Queued(d), Queued(Ran(s1, tail)), Queued(Dropped(s1, tail)));
    }
  }

  /** The entries whose worker is past its decrement, and those before it whose run is over: exactly those run or dropped. */
  lemma PassedWereRun(s: State, run: seq<Step>)
    requires Init(s) && Runs(s, run)
    ensures SumOf(After(s, run).workers, Back) + After(s, run).passed == Queued(Ran(s, run)) + Queued(Dropped(s, run))
  {
    hide Ran, Dropped, Runs, After;
    SumOfNothing(s.workers, Back);
    NoneAdded(Queued(Ran(s, run)) + Queued(Dropped(s, run)));
    RunPasses(s, run);
  }

  // ---------------------------------------------------------------- fibers that come back ready

  /** The fibers that yielded ready, in order. */
  function CameBackReady(run: seq<Step>): seq<Job> {
    if run == [] then [] else ReadyBy(run[0]) + CameBackReady(run[1..])
  }

  /** The fibers put back into the queue. */
  function PutBack(s: State, run: seq<Step>): seq<Job>
    requires Runs(s, run)
    decreases |run|
  {
    if run == [] then [] else PutBackBy(s, run[0]) + PutBack(Apply(s, run[0]), run[1..])
  }

  /** Ready, and not yet back in the queue. */
  function Pending(w: Worker): multiset<Job> {
    if (w.phase.Returned? && w.phase.state == ReadyState) || w.phase.Requeue? then multiset{w.phase.again} else multiset{}
  }

  function ReadyBy(step: Step): seq<Job> { if step.SwapOut? && step.state == ReadyState then [step.again] else [] }

  function PutBackBy(s: State, step: Step): seq<Job>
    requires Enabled(s, step)
  {
    if step.Reschedule? then [s.workers[step.w].phase.again] else []
  }

  lemma WorkerKeepsReady(s: State, step: Step)
    requires Enabled(s, step) && !step.Schedule? && !step.CallAutoStop? && !step.CallStopping?
    ensures var s' := Apply(s, step);
      && OnlyWorker(s, s', step.w)
      && Pending(s.workers[step.w]) + multiset(ReadyBy(step)) == Pending(s'.workers[step.w]) + multiset(PutBackBy(s, step))
  {
    hide Apply, Enabled;
    StepsOneWorker(s, step);
    PhaseAfter(s, step);
  }

  lemma StepKeepsReady(s: State, step: Step)
    requires Enabled(s, step)
    ensures SumOf(s.workers, Pending) + multiset(ReadyBy(step))
         == SumOf(Apply(s, step).workers, Pending) + multiset(PutBackBy(s, step))
  {
    hide FirstEligible, Stopping, SumOf, Pending;
    if !step.Schedule? && !step.CallAutoStop? && !step.CallStopping? {
      WorkerKeepsReady(s, step);
      Balance(s, Apply(s, step), step.w, Pending, multiset(ReadyBy(step)), multiset(PutBackBy(s, step)));
    }
  }

  lemma {:induction false} RunKeepsReady(s: State, run: seq<Step>)
    requires Runs(s, run)
    ensures SumOf(s.workers, Pending) + multiset(CameBackReady(run))
         == SumOf(After(s, run).workers, Pending) + multiset(PutBack(s, run))
    decreases |run|
  {
    hide Apply, Enabled, SumOf, Pending, ReadyBy, PutBackBy;
    if run != [] {
      var s1, tail := Apply(s, run[0]), run[1..];
      StepKeepsReady(s, run[0]);
      RunKeepsReady(s1, tail);
      Chain(SumOf(s.workers, Pending), multiset(ReadyBy(run[0])), SumOf(s1.workers, Pending), multiset(PutBackBy(s, run[0])),
            multiset(CameBackReady(tail)), SumOf(After(s1, tail).workers, Pending), multiset(PutBack(s1, tail)));
    }
  }

  /** A fiber that yields ready is put back into the queue, once for each time, or its worker still has it. */
  lemma ReadyComesBack(s: State, run: seq<Step>)
    requires Init(s) && Runs(s, run)
    ensures multiset(CameBackReady(run)) == SumOf(After(s, run).workers, Pending) + multiset(PutBack(s, run))
  {
    hide Runs, After, PutBack, CameBackReady;
    SumOfNothing(s.workers, Pending);
    NoneAdded(multiset(CameBackReady(run)));
    RunKeepsReady(s, run);
  }

  // ---------------------------------------------------------------- workers that leave

  /** In `run` the idle fiber of `w` sees `stopping()`, if it has not before, and `w` finds nothing after that. */
  predicate Leaves(s: State, run: seq<Step>, w: nat, saw: bool)
    requires Runs(s, run)
    decreases |run|
  {
    run != [] && (
      || (saw && run[0] == FindNothing(w))
      || Leaves(Apply(s, run[0]), run[1..], w, saw || (run[0] == IdleTurn(w) && Stopping(s))))
  }

  lemma StepOfWorker(s: State, step: Step, w: nat)
    requires Enabled(s, step) && w < |s.workers|
    ensures var v, v' := s.workers[w], Apply(s, step).workers[w];
      && |Apply(s, step).workers| == |s.workers|
      && v'.idleTerm == (v.idleTerm || (step == IdleTurn(w) && Stopping(s)))
      && (v'.phase == Left <==> v.phase == Left || (v.idleTerm && step == FindNothing(w)))
  {
    hide FirstEligible, Stopping, StateOf;
  }

  lemma {:induction false} LeftStays(s: State, run: seq<Step>, w: nat)
    requires Runs(s, run) && w < |s.workers| && s.workers[w].phase == Left
    ensures w < |After(s, run).workers| && After(s, run).workers[w].phase == Left
    decreases |run|
  {
    hide Apply, Enabled;
    if run != [] {
      StepOfWorker(s, run[0], w);
      LeftStays(Apply(s, run[0]), run[1..], w);
    }
  }

  lemma {:induction false} LeavesIff(s: State, run: seq<Step>, w: nat)
    requires Runs(s, run) && w < |s.workers| && s.workers[w].phase != Left
    ensures w < |After(s, run).workers|
    ensures After(s, run).workers[w].phase == Left <==> Leaves(s, run, w, s.workers[w].idleTerm)
    decreases |run|
  {
    hide Apply, Enabled, Stopping;
    if run != [] {
      StepOfWorker(s, run[0], w);
      var s1 := Apply(s, run[0]);
      if s1.workers[w].phase == Left { LeftStays(s1, run[1..], w); } else { LeavesIff(s1, run[1..], w); }
    }
  }

  /** A worker has left exactly when it saw `stopping()` and then found nothing to do. */
  lemma LeftSawStopping(s: State, run: seq<Step>, w: nat)
    requires Init(s) && Runs(s, run) && w < |s.workers|
    ensures w < |After(s, run).workers|
    ensures After(s, run).workers[w].phase == Left <==> Leaves(s, run, w, false)
  {
    hide Runs, After, Leaves;
    LeavesIff(s, run, w);
  }

  // ---------------------------------------------------------------- the state of a fiber

  /** The step lets a worker begin or end a run of the fiber. */
  predicate Touches(s: State, step: Step, f: FiberId)
    requires Enabled(s, step)
  {
    || (step.SwapIn? && s.workers[step.w].phase.e.job == FiberJob(f))
    || (step.SwapOut? && step.again == FiberJob(f))
    || (step.Decrement? && s.workers[step.w].phase.again == FiberJob(f))
  }

  predicate Untouched(s: State, run: seq<Step>, f: FiberId)
    requires Runs(s, run)
    decreases |run|
  {
    run == [] || (!Touches(s, run[0], f) && Untouched(Apply(s, run[0]), run[1..], f))
  }

  lemma StepKeepsFiber(s: State, step: Step, f: FiberId)
    requires Enabled(s, step) && !Touches(s, step, f)
    ensures StateOf(Apply(s, step).fibers, FiberJob(f)) == StateOf(s.fibers, FiberJob(f))
  {
    hide FirstEligible, Stopping, Put;
  }

  lemma {:induction false} UntouchedStays(s: State, run: seq<Step>, f: FiberId)
    requires Runs(s, run) && Untouched(s, run, f)
    ensures StateOf(After(s, run).fibers, FiberJob(f)) == StateOf(s.fibers, FiberJob(f))
    decreases |run|
  {
    hide Apply, Enabled, Touches, StateOf;
    if run != [] {
      StepKeepsFiber(s, run[0], f);
      UntouchedStays(Apply(s, run[0]), run[1..], f);
    }
  }

  /** From its swap-in until its run is over no worker may take another entry of the fiber. */
  lemma ExecutingIsLeftAlone(s: State, w: nat, run: seq<Step>, f: FiberId)
    requires Enabled(s, SwapIn(w)) && s.workers[w].phase.e.job == FiberJob(f) && DroppedBy(s, SwapIn(w)) == []
    requires Runs(Apply(s, SwapIn(w)), run) && Untouched(Apply(s, SwapIn(w)), run, f)
    ensures var s' := After(Apply(s, SwapIn(w)), run);
      forall e: Entry, tid :: e.job == FiberJob(f) ==> !Eligible(e, tid, s'.fibers)
  {
    hide Runs, After, Untouched, Put;
    UntouchedStays(Apply(s, SwapIn(w)), run, f);
  }

  /** Past the decrement the fiber is held, unless it yielded ready, finished or threw; in any case it may be taken again. */
  lemma HeldAfterItsRun(s: State, w: nat, state: FiberState, run: seq<Step>, f: FiberId)
    requires Enabled(s, SwapOut(w, FiberJob(f), state))
    requires var s1 := Apply(s, SwapOut(w, FiberJob(f), state));
      Runs(s1, run) && Untouched(s1, run, f) && Enabled(After(s1, run), Decrement(w))
      && After(s1, run).workers[w].phase == s1.workers[w].phase
    ensures var s' := Apply(After(Apply(s, SwapOut(w, FiberJob(f), state)), run), Decrement(w));
      && StateOf(s'.fibers, FiberJob(f)) == (if state in {ReadyState, Term, Except} then state else Hold)
      && forall e: Entry, tid :: e.job == FiberJob(f) && !Pinned(e, tid) ==> Eligible(e, tid, s'.fibers)
  {
    hide Runs, After, Untouched, FirstEligible;
    UntouchedStays(Apply(s, SwapOut(w, FiberJob(f), state)), run, f);
  }
}
