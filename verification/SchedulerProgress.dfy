/** Progress of a pool with at least one worker whose thunks do not wait on
    tasks (so a running thunk can always return). */
module SchedulerProgress {
  import opened Scheduler
  import opened SchedulerInvariants
  import opened SchedulerSafety
  import opened SchedulerRuns

  /** Steps the runtime takes by itself: not the callers' `Spawn`, `JoinAll`
      and `Select`, and not a spurious condvar wake-up. */
  predicate Internal(step: Step) {
    !step.Spawn? && !step.JoinAll? && !step.Select? && !step.Wake?
  }

  ghost predicate CanMove(s: State) {
    exists step :: Internal(step) && Enabled(s, step)
  }

  /** A worker that has something to do can do it. */
  lemma BusyWorkerStep(s: State, w: nat) returns (step: Step)
    requires Inv(s) && IsWorker(s, w) && !s.threads[w].work.Idle?
    ensures Internal(step) && Enabled(s, step) && Actor(s, step) == w
  {
    hide Conserved, OnePublisher, Subscriptions, Messages, LogOk, Results, Joins;
    assert ThreadOk(s.tasks, s.threads[w]);
    step := match s.threads[w].work
      case Idle => Take(w)
      case Running(_) => Run(w, 0)
      case Returned(_, _) => Publish(w)
      case Published(_) => DropJob(w);
  }

  /** A total that is not zero comes from some thread. */
  lemma {:induction false} Claimant(c: Claim, threads: seq<Thread>, t: nat) returns (k: nat)
    requires Total(c, threads, t) > 0
    ensures k < |threads| && Weight(c, threads[k], t) > 0
    decreases |threads|
  {
    hide Weight;
    k := |threads| - 1;
    if Weight(c, threads[k], t) == 0 {
      k := Claimant(c, threads[..k], t);
    }
  }

  /** As long as a task is pending some internal step is possible: its own
      completion is under way, or it waits, through selects, for one that is.
      The step need not be one of the dispatcher of a later task. */
  lemma {:induction false} PendingStep(s: State, w: nat, t: nat, avoid: nat) returns (step: Step)
    requires Inv(s) && IsWorker(s, w) && t < |s.tasks| && s.tasks[t].state.Pending?
    requires avoid < |s.threads| ==> s.threads[avoid].Dispatcher? && s.threads[avoid].result > t
    ensures Internal(step) && Enabled(s, step) && Actor(s, step) != avoid
    decreases t
  {
    hide Conserved, LogOk, Results, Joins;
    if !s.threads[w].work.Idle? {
      step := BusyWorkerStep(s, w);
    } else if |s.queue| > 0 {
      step := Take(w);
    } else {
      assert PublishersOk(s, t);
      var k := Claimant(Publication, s.threads, t);
      var th := s.threads[k];
      assert ThreadOk(s.tasks, th);
      if th.Worker? {
        step := BusyWorkerStep(s, k);
      } else {
        assert OriginOk(t, s.tasks[t].origin) && DispatcherOk(s, th) && SendersOk(s, k);
        if th.phase.Receiving? && |th.channel| == 0 {
          assert th.sources[..|th.sources|] == th.sources;
          assert th.sources[0] in th.sources;
          step := PendingStep(s, w, th.sources[0], avoid);
        } else {
          step := DispatcherStep(s, k);
        }
      }
    }
  }

  lemma PendingMoves(s: State, w: nat, t: nat)
    requires Inv(s) && IsWorker(s, w) && t < |s.tasks| && s.tasks[t].state.Pending?
    ensures CanMove(s)
  {
    var step := PendingStep(s, w, t, |s.threads|);
  }

  /** A dispatcher can move unless it waits on an empty channel. */
  lemma DispatcherStep(s: State, d: nat) returns (step: Step)
    requires Ids(s) && IsDispatcher(s, d) && !s.threads[d].phase.Finished?
    requires !(s.threads[d].phase.Receiving? && |s.threads[d].channel| == 0)
    ensures Internal(step) && Enabled(s, step) && Actor(s, step) == d
  {
    var th := s.threads[d];
    assert ThreadOk(s.tasks, th);
    step := match th.phase
      case Subscribing => Subscribe(d)
      case Receiving => Receive(d)
      case Won(_, _) => Announce(d)
      case Announced(_, _) => DropClones(d)
      case Finished(_, _) => Receive(d);
    if th.phase.Subscribing? {
      assert OriginOk(th.result, s.tasks[th.result].origin);
      assert th.sources[th.subscribed] in th.sources;
    }
  }

  // ----- a measure that every internal step decreases

  /** Internal steps a thread still has ahead of it. */
  function Ahead(tasks: seq<Task>, th: Thread): nat {
    match th
    case Worker(work) =>
      (match work
       case Idle => 0
       case Running(_) => 3
       case Returned(_, _) => 2
       case Published(_) => 1)
    case Joiner(hs, rs, asleep) =>
      if |rs| >= |hs| then 0
      else if hs[|rs|] < |tasks| && tasks[hs[|rs|]].state.Done? then 3 * (|hs| - |rs|) - 2
      else 3 * (|hs| - |rs|) - if asleep then 1 else 0
    case Dispatcher(sources, _, subscribed, phase, _) =>
      (match phase
       case Subscribing => 4 + if subscribed <= |sources| then |sources| - subscribed else 0
       case Receiving => 4
       case Won(_, _) => 2
       case Announced(_, _) => 1
       case Finished(_, _) => 0)
  }

  function AllAhead(tasks: seq<Task>, threads: seq<Thread>): nat
    decreases |threads|
  {
    if |threads| == 0 then 0
    else AllAhead(tasks, threads[..|threads| - 1]) + Ahead(tasks, threads[|threads| - 1])
  }

  function Measure(s: State): nat {
    4 * |s.queue| + AllAhead(s.tasks, s.threads)
  }

  lemma {:induction false} AllAheadLess(tasks: seq<Task>, threads: seq<Thread>, tasks': seq<Task>,
      threads': seq<Thread>, a: nat, change: int)
    requires |threads'| == |threads| && a < |threads|
    requires forall k :: 0 <= k < |threads| && k != a ==> Ahead(tasks', threads'[k]) <= Ahead(tasks, threads[k])
    requires Ahead(tasks', threads'[a]) <= Ahead(tasks, threads[a]) + change
    ensures AllAhead(tasks', threads') <= AllAhead(tasks, threads) + change
    decreases |threads|
  {
    hide Ahead;
    var n := |threads| - 1;
    if a < n {
      AllAheadLess(tasks, threads[..n], tasks', threads'[..n], a, change);
    } else {
      AllAheadLeast(tasks, threads[..n], tasks', threads'[..n]);
    }
  }

  lemma {:induction false} AllAheadLeast(tasks: seq<Task>, threads: seq<Thread>, tasks': seq<Task>,
      threads': seq<Thread>)
    requires |threads'| == |threads|
    requires forall k :: 0 <= k < |threads| ==> Ahead(tasks', threads'[k]) <= Ahead(tasks, threads[k])
    ensures AllAhead(tasks', threads') <= AllAhead(tasks, threads)
    decreases |threads|
  {
    hide Ahead;
    if |threads| > 0 {
      var n := |threads| - 1;
      AllAheadLeast(tasks, threads[..n], tasks', threads'[..n]);
    }
  }

  /** Nobody else gets more to do. */
  lemma OthersAhead(s: State, step: Step, k: nat)
    requires Inv(s) && Enabled(s, step) && Internal(step) && k < |s.threads| && k != Actor(s, step)
    ensures k < |Apply(s, step).threads|
    ensures Ahead(Apply(s, step).tasks, Apply(s, step).threads[k]) <= Ahead(s.tasks, s.threads[k])
  {
    hide Conserved, OnePublisher, Subscriptions, Messages, LogOk, Results;
    Others(s, step, k);
    StepGrows(s, step);
    var th := s.threads[k];
    assert ThreadOk(s.tasks, th) && JoinerOk(s, th);
    if th.Joiner? && |th.results| < |th.handles| {
      assert th.handles[|th.results|] in th.handles;
      TaskAfter(s, step, th.handles[|th.results|]);
    }
  }

  /** The acting thread has at least one step fewer to do, or four more than
      the queue loses. */
  lemma ActorAhead(s: State, step: Step)
    requires Inv(s) && Enabled(s, step) && Internal(step)
    ensures var s', a := Apply(s, step), Actor(s, step);
      && |s'.threads| == |s.threads| && a < |s.threads|
      && 4 * |s'.queue| + Ahead(s'.tasks, s'.threads[a]) < 4 * |s.queue| + Ahead(s.tasks, s.threads[a])
  {
    hide Conserved, OnePublisher, Subscriptions, Messages, LogOk, Results;
    var th := s.threads[Actor(s, step)];
    assert ThreadOk(s.tasks, th) && JoinerOk(s, th);
    if step.Check? {
      TaskAfter(s, step, th.handles[|th.results|]);
    }
  }

  /** Every internal step lowers the measure. */
  lemma MeasureDrops(s: State, step: Step)
    requires Inv(s) && Enabled(s, step) && Internal(step)
    ensures Measure(Apply(s, step)) < Measure(s)
  {
    hide Inv, Ahead;
    var s', a := Apply(s, step), Actor(s, step);
    ActorAhead(s, step);
    forall k | 0 <= k < |s.threads| && k != a ensures Ahead(s'.tasks, s'.threads[k]) <= Ahead(s.tasks, s.threads[k]) {
      OthersAhead(s, step, k);
    }
    AllAheadLess(s.tasks, s.threads, s'.tasks, s'.threads, a,
      Ahead(s'.tasks, s'.threads[a]) - Ahead(s.tasks, s.threads[a]));
  }

  /** So the runtime, left alone, takes at most `Measure(s)` steps. */
  lemma {:induction false} InternalRunsEnd(s: State, steps: seq<Step>, end: State)
    requires Inv(s) && Reaches(s, steps, end) && forall i :: 0 <= i < |steps| ==> Internal(steps[i])
    ensures |steps| + Measure(end) <= Measure(s)
    decreases |steps|
  {
    hide Inv;
    if |steps| > 0 {
      assert Internal(steps[0]);
      StepKeeps(s, steps[0]);
      MeasureDrops(s, steps[0]);
      InternalRunsEnd(Apply(s, steps[0]), steps[1..], end);
    }
  }

  /** And when it stops, every task is done and every join has the results of
      all its tasks. */
  lemma StillMeansDone(n: nat, s: State)
    requires n > 0 && Reachable(n, s) && !CanMove(s)
    ensures forall t :: 0 <= t < |s.tasks| ==> s.tasks[t].state.Done?
    ensures forall j :: 0 <= j < |s.threads| && s.threads[j].Joiner? ==>
      |s.threads[j].results| == |s.threads[j].handles|
  {
    hide Inv;
    ReachableInv(n, s);
    PoolStays(n, s);
    forall t | 0 <= t < |s.tasks| ensures s.tasks[t].state.Done? {
      if s.tasks[t].state.Pending? {
        PendingMoves(s, 0, t);
      }
    }
    forall j | 0 <= j < |s.threads| && s.threads[j].Joiner?
      ensures |s.threads[j].results| == |s.threads[j].handles|
    {
      JoinerMoves(s, j);
    }
  }

  /** With every task done, a join that still waits can go on. */
  lemma JoinerMoves(s: State, j: nat)
    requires Inv(s) && j < |s.threads| && s.threads[j].Joiner?
    requires forall t :: 0 <= t < |s.tasks| ==> s.tasks[t].state.Done?
    ensures |s.threads[j].results| == |s.threads[j].handles| || CanMove(s)
  {
    hide Conserved, OnePublisher, Subscriptions, Messages, LogOk, Results;
    var th := s.threads[j];
    assert ThreadOk(s.tasks, th) && JoinerOk(s, th);
    if |th.results| < |th.handles| {
      assert th.handles[|th.results|] in th.handles;
      assert Internal(Check(j)) && Enabled(s, Check(j));
    }
  }

  lemma PoolStays(n: nat, s: State)
    requires n > 0 && Reachable(n, s)
    ensures IsWorker(s, 0)
  {
    var steps :| Reaches(Init(n), steps, s);
    WorkerStays(Init(n), steps, s, 0);
  }

  lemma {:induction false} WorkerStays(s: State, steps: seq<Step>, end: State, w: nat)
    requires Reaches(s, steps, end) && IsWorker(s, w)
    ensures IsWorker(end, w)
    decreases |steps|
  {
    if |steps| > 0 {
      if w != Actor(s, steps[0]) {
        Others(s, steps[0], w);
      }
      WorkerStays(Apply(s, steps[0]), steps[1..], end, w);
    }
  }
}
