/** What holds in every state any run can reach. */
module SchedulerRuns {
  import opened Scheduler
  import opened SchedulerInvariants
  import opened SchedulerSafety

  /** A state some interleaving of a pool of `n` workers leads to. */
  ghost predicate Reachable(n: nat, s: State) {
    exists steps :: Reaches(Init(n), steps, s)
  }

  lemma ReachableInv(n: nat, s: State)
    requires Reachable(n, s)
    ensures Inv(s)
  {
    hide Inv, Reaches;
    var steps :| Reaches(Init(n), steps, s);
    InitInv(n);
    RunKeeps(Init(n), steps, s);
  }

  // ----- select

  /** `recv` cannot fail: a dispatcher blocked on an empty channel has a live
      sender with every one of its sources, all still pending. */
  lemma NoLostCompletion(n: nat, s: State, d: nat)
    requires Reachable(n, s) && IsDispatcher(s, d)
    requires s.threads[d].phase.Receiving? && |s.threads[d].channel| == 0
    ensures |s.threads[d].sources| > 0
    ensures forall x :: x in s.threads[d].sources ==>
      x < |s.tasks| && s.tasks[x].state.Pending? && d in s.tasks[x].waiters
  {
    hide Conserved, OnePublisher, LogOk, Results, Joins;
    ReachableInv(n, s);
    var th := s.threads[d];
    assert ThreadOk(s.tasks, th) && DispatcherOk(s, th) && SendersOk(s, d);
    assert OriginOk(th.result, s.tasks[th.result].origin);
    assert th.sources[..|th.sources|] == th.sources;
  }

  /** Any later completion of a source wakes it. */
  lemma CompletionWakes(n: nat, s: State, d: nat, step: Step)
    requires Reachable(n, s) && IsDispatcher(s, d)
    requires s.threads[d].phase.Receiving? && |s.threads[d].channel| == 0
    requires Enabled(s, step) && Completing(step) && Completed(s, step) in s.threads[d].sources
    ensures Enabled(Apply(s, step), Receive(d))
    ensures Apply(Apply(s, step), Receive(d)).threads[d].phase == Won(Outcome(s, step), false)
  {
    NoLostCompletion(n, s, d);
    Others(s, step, d);
  }

  /** Every select task is served by a dispatcher of its own. */
  ghost predicate Served(s: State) {
    forall t :: 0 <= t < |s.tasks| && s.tasks[t].origin.Selected? ==> HasDispatcher(s, t)
  }

  ghost predicate HasDispatcher(s: State, t: nat) {
    exists d :: 0 <= d < |s.threads| && s.threads[d].Dispatcher? && s.threads[d].result == t
  }

  lemma DispatcherStays(s: State, step: Step, d: nat)
    requires Enabled(s, step) && IsDispatcher(s, d)
    ensures IsDispatcher(Apply(s, step), d) && Apply(s, step).threads[d].result == s.threads[d].result
  {
    if d != Actor(s, step) {
      Others(s, step, d);
    }
  }

  lemma OriginStays(s: State, step: Step, t: nat)
    requires Enabled(s, step) && t < |Apply(s, step).tasks| && Apply(s, step).tasks[t].origin.Selected?
    ensures if t < |s.tasks| then s.tasks[t].origin.Selected? else HasDispatcher(Apply(s, step), t)
  {
    if t < |s.tasks| {
      TaskAfter(s, step, t);
    } else {
      assert Apply(s, step).threads[|s.threads|].result == t;
    }
  }

  lemma ServedStep(s: State, step: Step)
    requires Served(s) && Enabled(s, step)
    ensures Served(Apply(s, step))
  {
    hide Enabled, Apply;
    var s' := Apply(s, step);
    forall t | 0 <= t < |s'.tasks| && s'.tasks[t].origin.Selected? ensures HasDispatcher(s', t) {
      OriginStays(s, step, t);
      if t < |s.tasks| {
        assert HasDispatcher(s, t);
        var d :| 0 <= d < |s.threads| && s.threads[d].Dispatcher? && s.threads[d].result == t;
        DispatcherStays(s, step, d);
      }
    }
  }

  lemma {:induction false} RunServes(s: State, steps: seq<Step>, end: State)
    requires Inv(s) && Served(s) && Reaches(s, steps, end)
    ensures Served(end)
    decreases |steps|
  {
    if |steps| > 0 {
      StepKeeps(s, steps[0]);
      ServedStep(s, steps[0]);
      RunServes(Apply(s, steps[0]), steps[1..], end);
    }
  }

  lemma ReachableServed(n: nat, s: State)
    requires Reachable(n, s)
    ensures Served(s)
  {
    hide Inv, Reaches;
    var steps :| Reaches(Init(n), steps, s);
    InitInv(n);
    RunServes(Init(n), steps, s);
  }

  /** What the dispatcher of a done select decided. */
  lemma DispatcherSays(n: nat, s: State, t: nat, d: nat)
    requires Reachable(n, s) && t < |s.tasks| && s.tasks[t].origin.Selected? && s.tasks[t].state.Done?
    requires IsDispatcher(s, d) && s.threads[d].result == t
    ensures var th := s.threads[d];
      && Decided(th.phase) && th.phase.value == s.tasks[t].state.result
      && if th.phase.early then
           && th.subscribed < |th.sources| && th.sources[th.subscribed] < |s.tasks|
           && s.tasks[th.sources[th.subscribed]].state == s.tasks[t].state
         else th.subscribed == |th.sources| && FirstValue(s, th.sources, th.phase.value)
  {
    hide Conserved, Subscriptions, LogOk, Results, Joins, FirstValue;
    ReachableInv(n, s);
    assert ThreadOk(s.tasks, s.threads[d]) && DispatcherOk(s, s.threads[d]);
    assert PublishersOk(s, t);
    TotalCovers(Publication, s.threads, d, t);
  }

  /** What a done select task's result is: its dispatcher either found every
      source pending while subscribing, and then the value is that of the
      source that completed first of all, or it stopped at the first source
      in list order it found done, and the value is that source's. */
  lemma SelectWinner(n: nat, s: State, t: nat) returns (d: nat)
    requires Reachable(n, s) && t < |s.tasks| && s.tasks[t].origin.Selected? && s.tasks[t].state.Done?
    ensures IsDispatcher(s, d) && s.threads[d].result == t
    ensures var th := s.threads[d];
      && th.sources == s.tasks[t].origin.sources
      && Decided(th.phase) && th.phase.value == s.tasks[t].state.result
      && if th.phase.early then
           && th.subscribed < |th.sources| && th.sources[th.subscribed] < |s.tasks|
           && s.tasks[th.sources[th.subscribed]].state == s.tasks[t].state
         else th.subscribed == |th.sources| && FirstValue(s, th.sources, th.phase.value)
  {
    ReachableServed(n, s);
    assert HasDispatcher(s, t);
    d :| 0 <= d < |s.threads| && s.threads[d].Dispatcher? && s.threads[d].result == t;
    DispatcherSays(n, s, t, d);
    ReachableInv(n, s);
    assert ThreadOk(s.tasks, s.threads[d]);
  }

  /** Even through nested selects, a result is one that the thunk of some
      spawned task returned. */
  lemma {:induction false} ResultComesFromThunk(n: nat, s: State, t: nat) returns (u: nat)
    requires Reachable(n, s) && t < |s.tasks| && s.tasks[t].state.Done?
    ensures u <= t && s.tasks[u].origin.Spawned? && s.tasks[u].state == s.tasks[t].state
    ensures u in s.returned && s.returned[u] == s.tasks[t].state.result
    decreases t
  {
    ReachableInv(n, s);
    assert ResultOk(s, t) && OriginOk(t, s.tasks[t].origin);
    if s.tasks[t].origin.Spawned? {
      u := t;
    } else {
      var x: nat :| x in s.tasks[t].origin.sources && x < |s.tasks| && s.tasks[x].state == s.tasks[t].state;
      u := ResultComesFromThunk(n, s, x);
    }
  }

  // ----- references

  /** The tasks whose memory a step reads or writes. */
  ghost predicate Touches(s: State, step: Step, t: nat)
    requires Enabled(s, step)
  {
    match step
    case Spawn => false
    case Take(w) => t == s.queue[0]
    case Run(w, _) => t == s.threads[w].work.task
    case Publish(w) => t == s.threads[w].work.task
    case DropJob(w) => t == s.threads[w].work.task
    case JoinAll(hs) => t in hs
    case Check(j) => t == s.threads[j].handles[|s.threads[j].results|]
    case Wake(j) => t == s.threads[j].handles[|s.threads[j].results|]
    case Select(hs) => t in hs
    case Subscribe(d) => t in s.threads[d].sources
    case Receive(d) => t in s.threads[d].sources
    case Announce(d) => t == s.threads[d].result
    case DropClones(d) => t == s.threads[d].result || t in s.threads[d].sources
  }

  /** A strong count is exactly the references that exist: unconsumed handles,
      the queued or running job, or the dispatcher that publishes, the clones
      of dispatchers, and joins in progress. */
  lemma ReferencesConserved(n: nat, s: State, t: nat)
    requires Reachable(n, s) && t < |s.tasks|
    ensures s.tasks[t].strong == Outside(s, t) + Total(Reference, s.threads, t)
  {
    ReachableInv(n, s);
    assert Balanced(s, t);
  }

  lemma ActorHolds(s: State, step: Step, t: nat)
    requires Inv(s) && Enabled(s, step) && Touches(s, step, t) && Actor(s, step) < |s.threads| && !step.Take?
    ensures Weight(Reference, s.threads[Actor(s, step)], t) >= 1
  {
    hide Conserved, OnePublisher, Subscriptions, Messages, LogOk, Results, Joins;
    var th := s.threads[Actor(s, step)];
    if step.Check? || step.Wake? {
      assert th.handles[|th.results|..][0] == t;
    }
  }

  /** No step touches a task whose count has dropped to zero. */
  lemma NoUseAfterFree(n: nat, s: State, step: Step, t: nat)
    requires Reachable(n, s) && Enabled(s, step) && Touches(s, step, t)
    ensures t < |s.tasks| && s.tasks[t].strong >= 1
  {
    hide OnePublisher, Subscriptions, Messages, LogOk, Results, Joins, Weight, Total;
    ReachableInv(n, s);
    if Actor(s, step) < |s.threads| && !step.Take? {
      ActorHolds(s, step, t);
      TotalCovers(Reference, s.threads, Actor(s, step), t);
    }
    TouchedExists(s, step, t);
    assert Balanced(s, t);
  }

  lemma TouchedExists(s: State, step: Step, t: nat)
    requires Ids(s) && Enabled(s, step) && Touches(s, step, t)
    ensures t < |s.tasks|
  {
    if Actor(s, step) < |s.threads| {
      var th := s.threads[Actor(s, step)];
      assert ThreadOk(s.tasks, th);
      if th.Dispatcher? {
        assert OriginOk(th.result, s.tasks[th.result].origin);
      }
      if step.Check? || step.Wake? {
        assert t in th.handles;
      }
      assert step.Take? ==> t in s.queue;
    }
  }

  // ----- joins

  /** A finished join has the result of every task, in handle order; a task
      that was spawned yields what its own thunk returned. */
  lemma JoinInOrder(n: nat, s: State, j: nat, i: nat)
    requires Reachable(n, s) && j < |s.threads| && s.threads[j].Joiner? && i < |s.threads[j].results|
    ensures i < |s.threads[j].handles| && s.threads[j].handles[i] < |s.tasks|
    ensures var t := s.threads[j].handles[i];
      && s.tasks[t].state == Done(s.threads[j].results[i])
      && (s.tasks[t].origin.Spawned? ==> t in s.returned && s.returned[t] == s.threads[j].results[i])
  {
    ReachableInv(n, s);
    assert JoinerOk(s, s.threads[j]);
    assert ResultOk(s, s.threads[j].handles[i]);
  }

  /** A task becomes done once: every later state has it done with the same
      result, and the log lists it once. */
  lemma {:induction false} DoneForever(s: State, steps: seq<Step>, end: State, t: nat)
    requires Inv(s) && Reaches(s, steps, end) && t < |s.tasks| && s.tasks[t].state.Done?
    ensures t < |end.tasks| && end.tasks[t].state == s.tasks[t].state
    ensures t in end.log && NoRepeats(end.log)
    decreases |steps|
  {
    if |steps| == 0 {
      assert LogOk(s);
    } else {
      StepKeeps(s, steps[0]);
      StepGrows(s, steps[0]);
      DoneForever(Apply(s, steps[0]), steps[1..], end, t);
    }
  }
}
