/** What the callers of `spawn`, `join_all` and `select` are promised, in terms
    of what they passed and of the run that follows. */
module SchedulerCalls {
  import opened Scheduler
  import opened SchedulerInvariants
  import opened SchedulerSafety
  import opened SchedulerRuns
  import opened SchedulerProgress
  import opened SchedulerSelect

  lemma ReachesFrom(n: nat, s: State, steps: seq<Step>, end: State)
    requires Reachable(n, s) && Reaches(s, steps, end)
    ensures Reachable(n, end)
  {
    hide Enabled, Apply, Reaches;
    var before :| Reaches(Init(n), before, s);
    ReachesThen(Init(n), before, s, steps, end);
  }

  lemma ReachesAfter(n: nat, s: State, step: Step)
    requires Reachable(n, s) && Enabled(s, step)
    ensures Reachable(n, Apply(s, step))
  {
    hide Enabled, Apply, Reachable;
    ReachesOne(s, step);
    ReachesFrom(n, s, [step], Apply(s, step));
  }

  // ----- join

  lemma {:induction false} JoinerStays(s: State, steps: seq<Step>, end: State, j: nat)
    requires Reaches(s, steps, end) && j < |s.threads| && s.threads[j].Joiner?
    ensures j < |end.threads| && end.threads[j].Joiner? && end.threads[j].handles == s.threads[j].handles
    decreases |steps|
  {
    if |steps| > 0 {
      if j != Actor(s, steps[0]) {
        Others(s, steps[0], j);
      }
      JoinerStays(Apply(s, steps[0]), steps[1..], end, j);
    }
  }

  /** A join of `hs` collects, one after the other, the results of the tasks
      the caller passed, in the caller's order; and all of them by the time
      nothing can move. */
  lemma JoinAnswers(n: nat, s: State, hs: seq<nat>, steps: seq<Step>, end: State)
    requires Reachable(n, s) && Enabled(s, JoinAll(hs)) && Reaches(Apply(s, JoinAll(hs)), steps, end)
    ensures var j := |s.threads|;
      && j < |end.threads| && end.threads[j].Joiner? && |end.threads[j].results| <= |hs|
      && (forall i :: 0 <= i < |end.threads[j].results| ==>
            hs[i] < |end.tasks| && end.tasks[hs[i]].state == Done(end.threads[j].results[i]))
      && (n > 0 && !CanMove(end) ==> |end.threads[j].results| == |hs|)
  {
    hide Reachable, Reaches, CanMove, Inv;
    var j := |s.threads|;
    JoinStarts(s, hs);
    ReachesAfter(n, s, JoinAll(hs));
    JoinerStays(Apply(s, JoinAll(hs)), steps, end, j);
    ReachesFrom(n, Apply(s, JoinAll(hs)), steps, end);
    forall i | 0 <= i < |end.threads[j].results|
      ensures i < |hs| && hs[i] < |end.tasks| && end.tasks[hs[i]].state == Done(end.threads[j].results[i])
    {
      JoinInOrder(n, end, j, i);
    }
    if |end.threads[j].results| > |hs| {
      JoinInOrder(n, end, j, |hs|);
    }
    if n > 0 && !CanMove(end) {
      StillMeansDone(n, end);
    }
  }

  lemma JoinStarts(s: State, hs: seq<nat>)
    requires Enabled(s, JoinAll(hs))
    ensures var s' := Apply(s, JoinAll(hs));
      |s.threads| < |s'.threads| && s'.threads[|s.threads|] == Joiner(hs, [], false)
  {
  }

  // ----- spawn

  /** What the thunk of task `t` returns along a run, once for each time it is
      run to its end. */
  ghost function Returns(s: State, steps: seq<Step>, end: State, t: nat): seq<Pointer>
    requires Reaches(s, steps, end)
    decreases |steps|
  {
    if |steps| == 0 then []
    else
      (if steps[0].Run? && s.threads[steps[0].w].work.task == t then [steps[0].value] else [])
      + Returns(Apply(s, steps[0]), steps[1..], end, t)
  }

  lemma RunRecords(s: State, step: Step, t: nat)
    requires Inv(s) && Enabled(s, step)
    ensures var s' := Apply(s, step);
      if step.Run? && s.threads[step.w].work.task == t
      then t !in s.returned && t in s'.returned && s'.returned[t] == step.value
      else (t in s'.returned <==> t in s.returned) && (t in s.returned ==> s'.returned[t] == s.returned[t])
  {
    hide Ids, Conserved, OnePublisher, Subscriptions, Messages, LogOk, Joins;
    if step.Run? {
      assert WorkOk(s, s.threads[step.w]);
    }
  }

  lemma {:induction false} ReturnsOnce(s: State, steps: seq<Step>, end: State, t: nat)
    requires Inv(s) && Reaches(s, steps, end)
    ensures t in s.returned ==> Returns(s, steps, end, t) == [] && t in end.returned && end.returned[t] == s.returned[t]
    ensures t !in s.returned ==>
      Returns(s, steps, end, t) == if t in end.returned then [end.returned[t]] else []
    decreases |steps|
  {
    hide Inv, Enabled, Apply;
    if |steps| > 0 {
      StepKeeps(s, steps[0]);
      RunRecords(s, steps[0], t);
      ReturnsOnce(Apply(s, steps[0]), steps[1..], end, t);
    }
  }

  /** `spawn` hands out a new handle. Its thunk is run at most once, and if the
      task is done at the end of a run, its result is what the thunk returned
      in that run. */
  lemma SpawnAnswers(n: nat, s: State, steps: seq<Step>, end: State)
    requires Reachable(n, s) && Reaches(Apply(s, Spawn), steps, end)
    ensures var t, s' := |s.tasks|, Apply(s, Spawn);
      && t !in s.handles && t in s'.handles && t < |end.tasks| && s'.tasks[t].state.Pending?
      && |Returns(s', steps, end, t)| <= 1
      && (end.tasks[t].state.Done? ==> Returns(s', steps, end, t) == [end.tasks[t].state.result])
  {
    hide Reachable, Reaches, Conserved, OnePublisher, Subscriptions, Messages, LogOk, Joins;
    var t, s' := |s.tasks|, Apply(s, Spawn);
    ReachableInv(n, s);
    ReachesAfter(n, s, Spawn);
    ReachableInv(n, s');
    ReturnsOnce(s', steps, end, t);
    OriginKept(s', steps, end, t);
    ReachesFrom(n, s', steps, end);
    ReachableInv(n, end);
    assert ResultOk(end, t);
  }

  lemma {:induction false} OriginKept(s: State, steps: seq<Step>, end: State, t: nat)
    requires Reaches(s, steps, end) && t < |s.tasks|
    ensures t < |end.tasks| && end.tasks[t].origin == s.tasks[t].origin
    decreases |steps|
  {
    hide Enabled, Apply;
    if |steps| > 0 {
      TaskAfter(s, steps[0], t);
      OriginKept(Apply(s, steps[0]), steps[1..], end, t);
    }
  }

  /** Jobs wait in the order they were spawned. */
  ghost predicate InTurn(s: State) {
    && (forall i, j :: 0 <= i < j < |s.queue| ==> s.queue[i] < s.queue[j])
    && (forall q :: q in s.queue ==> q < |s.tasks|)
  }

  lemma InTurnStep(s: State, step: Step)
    requires InTurn(s) && Enabled(s, step)
    ensures InTurn(Apply(s, step))
  {
    var s' := Apply(s, step);
    forall q | q in s'.queue ensures q < |s'.tasks| {
      assert !step.Spawn? ==> q in s.queue;
    }
    if step.Spawn? {
      forall i | 0 <= i < |s.queue| ensures s'.queue[i] < |s.tasks| {
        assert s.queue[i] in s.queue;
      }
    }
  }

  lemma {:induction false} RunInTurn(s: State, steps: seq<Step>, end: State)
    requires InTurn(s) && Reaches(s, steps, end)
    ensures InTurn(end)
    decreases |steps|
  {
    hide InTurn, Enabled, Apply;
    if |steps| > 0 {
      InTurnStep(s, steps[0]);
      RunInTurn(Apply(s, steps[0]), steps[1..], end);
    }
  }

  /** A worker takes the task that was spawned first of those waiting. */
  lemma FirstSpawnedTaken(n: nat, s: State, w: nat)
    requires Reachable(n, s) && Enabled(s, Take(w))
    ensures var s' := Apply(s, Take(w));
      && w < |s'.threads| && s'.threads[w].Worker? && s'.threads[w].work.Running?
      && var t := s'.threads[w].work.task;
         t in s.queue && t !in s'.queue && forall q :: q in s.queue ==> q == t || (t < q && q in s'.queue)
  {
    var steps :| Reaches(Init(n), steps, s);
    RunInTurn(Init(n), steps, s);
    var s' := Apply(s, Take(w));
    assert s.queue == [s.queue[0]] + s'.queue;
  }

  // ----- select

  /** At some point of the run the dispatcher examined its source number `i`,
      which was in the state `done` says. */
  ghost predicate Examined(s: State, steps: seq<Step>, d: nat, t: nat, i: nat, pending: bool) {
    exists m: nat, mid :: ExaminedAt(s, steps, d, t, i, pending, m, mid)
  }

  ghost predicate ExaminedAt(s: State, steps: seq<Step>, d: nat, t: nat, i: nat, pending: bool, m: nat, mid: State) {
    && m < |steps| && Reaches(s, steps[..m], mid) && steps[m] == Subscribe(d)
    && IsDispatcher(mid, d) && mid.threads[d].subscribed == i
    && t < |mid.tasks| && mid.tasks[t].state.Pending? == pending
  }

  lemma ExaminedLater(s: State, steps: seq<Step>, more: seq<Step>, d: nat, t: nat, i: nat, pending: bool)
    requires Examined(s, steps, d, t, i, pending) && steps <= more
    ensures Examined(s, more, d, t, i, pending)
  {
    hide Reaches;
    var m: nat, mid :| ExaminedAt(s, steps, d, t, i, pending, m, mid);
    assert more[..m] == steps[..m];
    assert ExaminedAt(s, more, d, t, i, pending, m, mid);
  }

  /** A run without its last step. */
  lemma {:induction false} ReachesBefore(s: State, steps: seq<Step>, end: State) returns (mid: State)
    requires Reaches(s, steps, end) && |steps| > 0
    ensures var n := |steps| - 1;
      Reaches(s, steps[..n], mid) && Enabled(mid, steps[n]) && Apply(mid, steps[n]) == end
    decreases |steps|
  {
    hide Enabled, Apply;
    var n := |steps| - 1;
    if n == 0 {
      mid := s;
    } else {
      mid := ReachesBefore(Apply(s, steps[0]), steps[1..], end);
      assert steps[1..][..n - 1] == steps[..n][1..];
      assert steps[1..][n - 1] == steps[n];
    }
  }

  /** The dispatcher of a select of `hs`, and which sources it has examined. */
  ghost predicate Serves(s: State, steps: seq<Step>, end: State, d: nat, t: nat, hs: seq<nat>) {
    && IsDispatcher(end, d) && end.threads[d].sources == hs && end.threads[d].result == t
    && end.threads[d].subscribed <= |hs|
    && (forall i :: 0 <= i < end.threads[d].subscribed ==> Examined(s, steps, d, hs[i], i, true))
    && (Decided(end.threads[d].phase) && end.threads[d].phase.early ==>
          end.threads[d].subscribed < |hs|
          && Examined(s, steps, d, hs[end.threads[d].subscribed], end.threads[d].subscribed, false))
  }

  lemma ServesStep(s: State, steps: seq<Step>, mid: State, d: nat, t: nat, hs: seq<nat>, step: Step)
    requires Reaches(s, steps, mid) && Serves(s, steps, mid, d, t, hs) && Enabled(mid, step)
    ensures Serves(s, steps + [step], Apply(mid, step), d, t, hs)
  {
    hide Reaches, Examined;
    var more := steps + [step];
    var th := mid.threads[d];
    assert steps <= more;
    forall i: nat, p | i < |hs| && Examined(s, steps, d, hs[i], i, p) ensures Examined(s, more, d, hs[i], i, p) {
      ExaminedLater(s, steps, more, d, hs[i], i, p);
    }
    if Actor(mid, step) != d {
      Bystands(mid, step, d);
    } else if step == Subscribe(d) {
      ExaminedNow(s, steps, mid, d, hs[th.subscribed]);
    }
  }

  lemma ExaminedNow(s: State, steps: seq<Step>, mid: State, d: nat, t: nat)
    requires Reaches(s, steps, mid) && Enabled(mid, Subscribe(d))
    requires t == mid.threads[d].sources[mid.threads[d].subscribed]
    ensures t < |mid.tasks|
    ensures Examined(s, steps + [Subscribe(d)], d, t, mid.threads[d].subscribed, mid.tasks[t].state.Pending?)
  {
    hide Reaches;
    var more := steps + [Subscribe(d)];
    assert more[..|steps|] == steps;
    assert ExaminedAt(s, more, d, t, mid.threads[d].subscribed, mid.tasks[t].state.Pending?, |steps|, mid);
  }

  lemma {:induction false} ServesRun(s: State, steps: seq<Step>, end: State, d: nat, t: nat, hs: seq<nat>)
    requires Serves(s, [], s, d, t, hs) && Reaches(s, steps, end)
    ensures Serves(s, steps, end, d, t, hs)
    decreases |steps|
  {
    hide Serves, Enabled, Apply;
    if |steps| > 0 {
      var n := |steps| - 1;
      var mid := ReachesBefore(s, steps, end);
      ServesRun(s, steps[..n], mid, d, t, hs);
      ServesStep(s, steps[..n], mid, d, t, hs, steps[n]);
      assert steps[..n] + [steps[n]] == steps;
    } else {
      assert steps == [];
    }
  }

  /** A select of `hs` hands out a new handle `t`. If `t` is done at the end of
      a run, either all of `hs` were pending when examined, one after the other
      in the order passed, and the result is that of the one that completed
      first of all; or the first `k` were, the next was done when examined, and
      the result is its. */
  lemma SelectAnswers(n: nat, s: State, hs: seq<nat>, steps: seq<Step>, end: State) returns (k: nat)
    requires Reachable(n, s) && Enabled(s, Select(hs)) && Reaches(Apply(s, Select(hs)), steps, end)
    ensures var t, d, s' := |s.tasks|, |s.threads|, Apply(s, Select(hs));
      && t !in s.handles && t in s'.handles && t < |end.tasks| && s'.tasks[t].state.Pending?
      && (end.tasks[t].state.Done? ==>
            && k <= |hs| && (forall i :: 0 <= i < k ==> Examined(s', steps, d, hs[i], i, true))
            && if k == |hs| then FirstValue(end, hs, end.tasks[t].state.result)
               else && Examined(s', steps, d, hs[k], k, false)
                    && hs[k] < |end.tasks| && end.tasks[hs[k]].state == end.tasks[t].state)
  {
    hide Reachable, Reaches, Examined, FirstValue;
    var t, d, s' := |s.tasks|, |s.threads|, Apply(s, Select(hs));
    SelectStarts(n, s, hs);
    ReachesAfter(n, s, Select(hs));
    assert Reaches(s', [], s') by { NoSteps(s'); }
    ServesRun(s', steps, end, d, t, hs);
    ReachesFrom(n, s', steps, end);
    k := end.threads[d].subscribed;
    OriginKept(s', steps, end, t);
    if end.tasks[t].state.Done? {
      DispatcherSays(n, end, t, d);
    }
  }

  lemma NoSteps(s: State)
    ensures Reaches(s, [], s)
  {
  }

  lemma SelectStarts(n: nat, s: State, hs: seq<nat>)
    requires Reachable(n, s) && Enabled(s, Select(hs))
    ensures var t, d, s' := |s.tasks|, |s.threads|, Apply(s, Select(hs));
      && t !in s.handles && t in s'.handles && t < |s'.tasks| && s'.tasks[t] == Task(Pending, [], 2, Selected(hs))
      && Serves(s', [], s', d, t, hs)
  {
    ReachableInv(n, s);
  }

  // ----- memory

  /** Once nothing can move and no caller holds a handle, every task has been
      let go of. */
  lemma NothingLeaks(n: nat, s: State, t: nat)
    requires n > 0 && Reachable(n, s) && !CanMove(s) && s.handles == {} && t < |s.tasks|
    ensures s.tasks[t].state.Done? && s.tasks[t].strong == 0
  {
    hide Reachable, CanMove;
    StillMeansDone(n, s);
    ReachableInv(n, s);
    PoolStays(n, s);
    forall k | 0 <= k < |s.threads| ensures Weight(Reference, s.threads[k], t) == 0 {
      ThreadRests(n, s, k, t);
    }
    TotalNone(Reference, s.threads, t);
    QueueRests(s);
    assert Balanced(s, t);
  }

  lemma QueueRests(s: State)
    requires Inv(s) && IsWorker(s, 0) && !CanMove(s)
    ensures s.queue == []
  {
    if |s.queue| > 0 {
      if s.threads[0].work.Idle? {
        assert Internal(Take(0)) && Enabled(s, Take(0));
      } else {
        var step := BusyWorkerStep(s, 0);
      }
    }
  }

  lemma BlockedOnPending(n: nat, s: State, d: nat)
    requires Reachable(n, s) && IsDispatcher(s, d)
    requires s.threads[d].phase.Receiving? && |s.threads[d].channel| == 0
    ensures !forall t :: 0 <= t < |s.tasks| ==> s.tasks[t].state.Done?
  {
    hide Reachable;
    NoLostCompletion(n, s, d);
    assert s.threads[d].sources[0] in s.threads[d].sources;
  }

  lemma ThreadRests(n: nat, s: State, k: nat, t: nat)
    requires n > 0 && Reachable(n, s) && !CanMove(s) && k < |s.threads|
    ensures Weight(Reference, s.threads[k], t) == 0
  {
    hide Reachable, Conserved, OnePublisher, Subscriptions, Messages, LogOk, Results, Joins;
    ReachableInv(n, s);
    StillMeansDone(n, s);
    var th := s.threads[k];
    if th.Worker? && !th.work.Idle? {
      var step := BusyWorkerStep(s, k);
    }
    if th.Dispatcher? && !th.phase.Finished? {
      if th.phase.Receiving? && |th.channel| == 0 {
        BlockedOnPending(n, s, k);
      } else {
        var step := DispatcherStep(s, k);
      }
    }
  }
}
