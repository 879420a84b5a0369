/** The remaining invariants, and that every step and so every run keeps them
    all: subscriptions, messages, the log, joins and results. What follows for
    whole runs is in `SchedulerRuns`. */
module SchedulerSafety {
  import opened Scheduler
  import opened SchedulerInvariants

  // ----- the log and the results

  lemma LogKept(s: State, step: Step)
    requires Ids(s) && OnePublisher(s) && LogOk(s) && Enabled(s, step)
    ensures LogOk(Apply(s, step))
  {
    hide OnePublisher, Ids;
    var s' := Apply(s, step);
    forall t | 0 <= t < |s.tasks|
      ensures |s.tasks| <= |s'.tasks|
      ensures s'.tasks[t].state ==
        if Completing(step) && t == Completed(s, step) then Done(Outcome(s, step)) else s.tasks[t].state
    {
      TaskAfter(s, step, t);
    }
    if Completing(step) {
      CompletesPending(s, step);
      assert s'.log == s.log + [Completed(s, step)];
      assert Completed(s, step) !in s.log;
    } else {
      assert s'.log == s.log;
    }
  }

  lemma ResultOkGrows(s: State, s': State, t: nat)
    requires Grows(s, s') && t < |s.tasks| && s.tasks[t].state.Done? && ResultOk(s, t)
    ensures ResultOk(s', t)
  {
  }

  /** The result a completing step stores is the right one. */
  lemma CompletedResult(s: State, step: Step)
    requires Inv(s) && Enabled(s, step) && Completing(step)
    ensures Completed(s, step) < |s.tasks| && ResultOk(Apply(s, step), Completed(s, step))
  {
    hide Conserved, Subscriptions, Joins;
    CompletesPending(s, step);
    StepGrows(s, step);
    var th := s.threads[Actor(s, step)];
    var t := Completed(s, step);
    assert ThreadOk(s.tasks, th);
    TaskAfter(s, step, t);
    if step.Publish? {
      assert WorkOk(s, th);
    } else {
      assert DispatcherOk(s, th);
      var u: nat :| u in th.sources && u < |s.tasks| && s.tasks[u].state == Done(th.phase.value);
    }
  }

  lemma {:induction false} TotalTwo(c: Claim, threads: seq<Thread>, a: nat, b: nat, t: nat)
    requires a < b < |threads|
    ensures Weight(c, threads[a], t) + Weight(c, threads[b], t) <= Total(c, threads, t)
    decreases |threads|
  {
    hide Weight;
    var n := |threads| - 1;
    if b < n {
      TotalTwo(c, threads[..n], a, b, t);
    } else {
      TotalCovers(c, threads[..n], a, t);
    }
  }

  /** The worker running a thunk is the only one with a claim on its task. */
  lemma SoleClaim(s: State, w: nat, t: nat)
    requires Ids(s) && OnePublisher(s) && IsWorker(s, w) && s.threads[w].work == Running(t)
    ensures t !in s.queue
    ensures forall k :: 0 <= k < |s.threads| && k != w ==> Weight(Publication, s.threads[k], t) == 0
  {
    assert ThreadOk(s.tasks, s.threads[w]);
    assert PublishersOk(s, t);
    TotalCovers(Publication, s.threads, w, t);
    forall k | 0 <= k < |s.threads| && k != w ensures Weight(Publication, s.threads[k], t) == 0 {
      if k < w {
        TotalTwo(Publication, s.threads, k, w, t);
      } else {
        TotalTwo(Publication, s.threads, w, k, t);
      }
    }
  }

  lemma WorkKept(s: State, step: Step, k: nat)
    requires Inv(s) && Enabled(s, step) && k < |Apply(s, step).threads|
    ensures WorkOk(Apply(s, step), Apply(s, step).threads[k])
  {
    hide Conserved, Subscriptions, Messages, LogOk, Joins;
    if k == Actor(s, step) {
      assert k < |s.threads| ==> WorkOk(s, s.threads[k]);
      if step.Take? {
        assert s.queue[0] in s.queue;
      }
    } else {
      Others(s, step, k);
      assert WorkOk(s, s.threads[k]);
      if step.Run? {
        SoleClaim(s, step.w, s.threads[step.w].work.task);
      }
    }
  }

  lemma ResultsKept(s: State, step: Step)
    requires Inv(s) && Enabled(s, step)
    ensures Results(Apply(s, step))
  {
    hide Conserved, Subscriptions, Messages, LogOk, Joins, WorkOk, ResultOk;
    var s' := Apply(s, step);
    StepGrows(s, step);
    forall t | 0 <= t < |s'.tasks| ensures ResultOk(s', t) {
      if t < |s.tasks| {
        TaskAfter(s, step, t);
        if Completing(step) && t == Completed(s, step) {
          CompletedResult(s, step);
        } else if s.tasks[t].state.Done? {
          ResultOkGrows(s, s', t);
        } else {
          PendingResult(s', t);
        }
      } else {
        PendingResult(s', t);
      }
    }
    forall k | 0 <= k < |s'.threads| ensures WorkOk(s', s'.threads[k]) {
      WorkKept(s, step, k);
    }
    UnreturnedKept(s, step);
  }

  lemma PendingResult(s: State, t: nat)
    requires t < |s.tasks| && s.tasks[t].state.Pending?
    ensures ResultOk(s, t)
  {
  }

  lemma UnreturnedKept(s: State, step: Step)
    requires Inv(s) && Enabled(s, step)
    ensures forall q :: q in Apply(s, step).queue ==> q !in Apply(s, step).returned
    ensures forall t :: t in Apply(s, step).returned ==> t < |Apply(s, step).tasks|
  {
    hide Conserved, Subscriptions, Messages, LogOk, Joins;
    if step.Run? {
      SoleClaim(s, step.w, s.threads[step.w].work.task);
      assert ThreadOk(s.tasks, s.threads[step.w]);
    }
    assert forall q :: q in Apply(s, step).queue ==> q in s.queue || q == |s.tasks|;
  }

  // ----- joins

  /** A bystander: its results stay right, and a completion of the task it
      sleeps on wakes it. */
  lemma JoinerWaits(s: State, step: Step, k: nat)
    requires Inv(s) && Enabled(s, step) && k < |s.threads| && k != Actor(s, step)
    ensures k < |Apply(s, step).threads| && JoinerOk(Apply(s, step), Apply(s, step).threads[k])
  {
    hide Conserved, OnePublisher, Subscriptions, Messages, LogOk, Results;
    StepGrows(s, step);
    Others(s, step, k);
    var th := s.threads[k];
    assert JoinerOk(s, th) && ThreadOk(s.tasks, th);
    if th.Joiner? && th.asleep {
      TaskAfter(s, step, th.handles[|th.results|]);
    }
  }

  lemma JoinerActs(s: State, step: Step)
    requires Inv(s) && Enabled(s, step) && Actor(s, step) < |Apply(s, step).threads|
    ensures JoinerOk(Apply(s, step), Apply(s, step).threads[Actor(s, step)])
  {
    hide Conserved, OnePublisher, Subscriptions, Messages, LogOk, Results;
    StepGrows(s, step);
    if step.Check? || step.Wake? {
      var th := s.threads[step.j];
      assert JoinerOk(s, th) && ThreadOk(s.tasks, th);
      TaskAfter(s, step, th.handles[|th.results|]);
    }
  }

  lemma JoinsKept(s: State, step: Step)
    requires Inv(s) && Enabled(s, step)
    ensures Joins(Apply(s, step))
  {
    hide Inv, JoinerOk;
    forall k | 0 <= k < |Apply(s, step).threads| ensures JoinerOk(Apply(s, step), Apply(s, step).threads[k]) {
      if k == Actor(s, step) {
        JoinerActs(s, step);
      } else {
        JoinerWaits(s, step, k);
      }
    }
  }

  // ----- subscriptions

  /** The subscribed prefix of a dispatcher never shrinks. */
  lemma SubscribedGrows(s: State, step: Step, d: nat)
    requires Ids(s) && Enabled(s, step) && IsDispatcher(s, d)
    ensures var s' := Apply(s, step);
      && IsDispatcher(s', d)
      && s'.threads[d].sources == s.threads[d].sources
      && s.threads[d].subscribed <= s'.threads[d].subscribed <= |s.threads[d].sources|
      && s.threads[d].sources[..s.threads[d].subscribed] <= s'.threads[d].sources[..s'.threads[d].subscribed]
  {
    assert ThreadOk(s.tasks, s.threads[d]);
    if d != Actor(s, step) {
      Others(s, step, d);
    }
  }

  /** Waiter lists only gain the dispatcher that subscribes, and a completed
      task's list is drained. */
  lemma WaitersAfter(s: State, step: Step, t: nat)
    requires Enabled(s, step) && t < |s.tasks|
    ensures |Apply(s, step).tasks| >= |s.tasks|
    ensures Apply(s, step).tasks[t].waiters ==
      if Completing(step) && t == Completed(s, step) then []
      else if step.Subscribe? && t == s.threads[step.d].sources[s.threads[step.d].subscribed]
        && s.tasks[t].state.Pending?
      then s.tasks[t].waiters + [step.d]
      else s.tasks[t].waiters
  {
  }

  lemma WaitersKept(s: State, step: Step, t: nat)
    requires Inv(s) && Enabled(s, step) && t < |Apply(s, step).tasks|
    ensures WaitersOk(Apply(s, step), t)
  {
    hide Conserved, OnePublisher, Messages, LogOk, Results, Joins, ThreadOk;
    if t < |s.tasks| {
      assert WaitersOk(s, t);
      TaskAfter(s, step, t);
      WaitersAfter(s, step, t);
      forall w | w in s.tasks[t].waiters
        ensures IsDispatcher(Apply(s, step), w)
        ensures Apply(s, step).threads[w].subscribed <= |Apply(s, step).threads[w].sources|
        ensures t in Apply(s, step).threads[w].sources[..Apply(s, step).threads[w].subscribed]
      {
        SubscribedGrows(s, step, w);
      }
      if step.Subscribe? {
        SubscribedGrows(s, step, step.d);
        SubscribedOne(s, step);
      }
    }
  }

  lemma SubscribedOne(s: State, step: Step)
    requires Enabled(s, step) && step.Subscribe?
    ensures var t := s.threads[step.d].sources[s.threads[step.d].subscribed];
      s.tasks[t].state.Pending? ==>
        && Apply(s, step).threads[step.d].subscribed == s.threads[step.d].subscribed + 1
        && t in s.threads[step.d].sources[..s.threads[step.d].subscribed + 1]
  {
    var th := s.threads[step.d];
    assert th.sources[..th.subscribed + 1][th.subscribed] == th.sources[th.subscribed];
  }

  lemma SendersKept(s: State, step: Step, d: nat)
    requires Inv(s) && Enabled(s, step) && IsDispatcher(Apply(s, step), d)
    ensures SendersOk(Apply(s, step), d)
  {
    hide Inv;
    var th := Apply(s, step).threads[d];
    if d < |s.threads| {
      forall j | 0 <= j < th.subscribed
        ensures j < |th.sources| && th.sources[j] < |Apply(s, step).tasks|
        ensures Apply(s, step).tasks[th.sources[j]].state.Pending? ==> d in Apply(s, step).tasks[th.sources[j]].waiters
      {
        SenderKept(s, step, d, j);
      }
      if th.subscribed > 0 {
        SenderKept(s, step, d, th.subscribed - 1);
      }
    }
  }

  lemma SenderKept(s: State, step: Step, d: nat, j: nat)
    requires Inv(s) && Enabled(s, step) && d < |s.threads| && IsDispatcher(Apply(s, step), d)
    requires j < Apply(s, step).threads[d].subscribed
    ensures var s' := Apply(s, step);
      var th := s'.threads[d];
      && j < |th.sources| && th.sources[j] < |s'.tasks|
      && (s'.tasks[th.sources[j]].state.Pending? ==> d in s'.tasks[th.sources[j]].waiters)
  {
    hide Conserved, OnePublisher, Messages, LogOk, Results, Joins;
    if d != Actor(s, step) {
      Others(s, step, d);
    }
    assert IsDispatcher(s, d) && SendersOk(s, d) && ThreadOk(s.tasks, s.threads[d]);
    SubscribedGrows(s, step, d);
    var x := Apply(s, step).threads[d].sources[j];
    TaskAfter(s, step, x);
    WaitersAfter(s, step, x);
  }

  lemma SubscriptionsKept(s: State, step: Step)
    requires Inv(s) && Enabled(s, step)
    ensures Subscriptions(Apply(s, step))
  {
    hide Inv, WaitersOk, SendersOk;
    forall t | 0 <= t < |Apply(s, step).tasks| ensures WaitersOk(Apply(s, step), t) {
      WaitersKept(s, step, t);
    }
    forall d | 0 <= d < |Apply(s, step).threads| && IsDispatcher(Apply(s, step), d)
      ensures SendersOk(Apply(s, step), d) {
      SendersKept(s, step, d);
    }
  }

  // ----- messages

  lemma FirstGrows(s: State, s': State, among: seq<nat>, v: Pointer)
    requires Grows(s, s') && FirstValue(s, among, v)
    ensures FirstValue(s', among, v)
  {
    var t: nat :| t < |s.tasks| && First(s.log, among, t) && s.tasks[t].state == Done(v);
    var p :| 0 <= p < |s.log| && s.log[p] == t && forall q :: 0 <= q < p ==> s.log[q] !in among;
    assert s'.log[p] == t && forall q :: 0 <= q < p ==> s'.log[q] == s.log[q];
    assert First(s'.log, among, t);
  }

  lemma OutcomeGrows(s: State, s': State, th: Thread)
    requires Grows(s, s') && th.Dispatcher? && Decided(th.phase) && DispatcherOk(s, th)
    ensures DispatcherOk(s', th)
  {
    if !th.phase.early {
      FirstGrows(s, s', th.sources, th.phase.value);
    }
  }

  /** A completion reaches the channel of every dispatcher subscribed to the
      task, and is its first message exactly when it is the first completion
      among the subscribed sources. */
  lemma CompletionArrives(s: State, step: Step, d: nat)
    requires Inv(s) && Enabled(s, step) && Completing(step)
    requires IsDispatcher(s, d) && d != Actor(s, step) && !Decided(s.threads[d].phase)
    ensures d < |Apply(s, step).threads| && Apply(s, step).threads[d].Dispatcher?
    ensures DispatcherOk(Apply(s, step), Apply(s, step).threads[d])
  {
    hide Conserved, Results, Joins, First;
    var s' := Apply(s, step);
    var t, v := Completed(s, step), Outcome(s, step);
    var th := s.threads[d];
    var among := th.sources[..th.subscribed];
    CompletesPending(s, step);
    StepGrows(s, step);
    Others(s, step, d);
    assert DispatcherOk(s, th) && WaitersOk(s, t) && SendersOk(s, d);
    if |th.channel| > 0 {
      FirstGrows(s, s', among, th.channel[0]);
    } else if t in among {
      var j :| 0 <= j < th.subscribed && th.sources[j] == t;
      assert d in s.tasks[t].waiters;
      FirstOfAll(s, step, among);
    } else {
      assert d !in s.tasks[t].waiters;
      forall x | x in among ensures x < |s'.tasks| && s'.tasks[x].state.Pending? {
        TaskAfter(s, step, x);
      }
    }
  }

  /** The first completion among tasks that were all pending. */
  lemma FirstOfAll(s: State, step: Step, among: seq<nat>)
    requires LogOk(s) && Enabled(s, step) && Completing(step) && Completed(s, step) in among
    requires Completed(s, step) < |s.tasks|
    requires forall x :: x in among ==> x < |s.tasks| && s.tasks[x].state.Pending?
    ensures FirstValue(Apply(s, step), among, Outcome(s, step))
  {
    var s' := Apply(s, step);
    var t := Completed(s, step);
    TaskAfter(s, step, t);
    var p := |s.log|;
    assert s'.log == s.log + [t];
    forall q | 0 <= q < p ensures s'.log[q] !in among {
      assert s.log[q] in s.log;
    }
    assert s'.log[p] == t;
    assert First(s'.log, among, t);
  }

  /** Subscribing to a pending source leaves the first completion first. */
  lemma FirstAmongMore(s: State, among: seq<nat>, t: nat, v: Pointer)
    requires LogOk(s) && FirstValue(s, among, v) && t < |s.tasks| && s.tasks[t].state.Pending?
    ensures FirstValue(s, among + [t], v)
  {
    var x: nat :| x < |s.tasks| && First(s.log, among, x) && s.tasks[x].state == Done(v);
    var p :| 0 <= p < |s.log| && s.log[p] == x && forall q :: 0 <= q < p ==> s.log[q] !in among;
    forall q | 0 <= q < p ensures s.log[q] !in among + [t] {
      assert s.log[q] in s.log;
    }
    assert First(s.log, among + [t], x);
  }

  lemma DispatcherActs(s: State, step: Step)
    requires Inv(s) && Enabled(s, step) && Actor(s, step) < |Apply(s, step).threads|
    requires Apply(s, step).threads[Actor(s, step)].Dispatcher?
    ensures DispatcherOk(Apply(s, step), Apply(s, step).threads[Actor(s, step)])
  {
    hide Conserved, Results, Joins, First, OnePublisher;
    var s' := Apply(s, step);
    StepGrows(s, step);
    if step.Subscribe? {
      SubscriberOk(s, step);
    } else if step.Receive? {
      var th := s.threads[step.d];
      assert DispatcherOk(s, th) && ThreadOk(s.tasks, th);
      assert th.sources[..|th.sources|] == th.sources;
      FirstGrows(s, s', th.sources, th.channel[0]);
    } else if step.Announce? {
      AnnouncerOk(s, step);
    } else if step.DropClones? {
      assert DispatcherOk(s, s.threads[step.d]);
      OutcomeGrows(s, s', s.threads[step.d]);
    }
  }

  lemma AnnouncerOk(s: State, step: Step)
    requires Inv(s) && Enabled(s, step) && step.Announce?
    ensures DispatcherOk(Apply(s, step), Apply(s, step).threads[step.d])
  {
    hide Conserved, Results, Joins, First, OnePublisher;
    StepGrows(s, step);
    var th := s.threads[step.d];
    assert DispatcherOk(s, th);
    OutcomeGrows(s, Apply(s, step), th);
    TaskAfter(s, step, th.result);
  }

  lemma SubscriberOk(s: State, step: Step)
    requires Inv(s) && Enabled(s, step) && step.Subscribe?
    ensures DispatcherOk(Apply(s, step), Apply(s, step).threads[step.d])
  {
    hide Conserved, Results, Joins, First, OnePublisher;
    var s' := Apply(s, step);
    StepGrows(s, step);
    var th := s.threads[step.d];
    var t := th.sources[th.subscribed];
    var among := th.sources[..th.subscribed];
    assert DispatcherOk(s, th) && ThreadOk(s.tasks, th);
    TaskAfter(s, step, t);
    if s.tasks[t].state.Pending? {
      assert th.sources[..th.subscribed + 1] == among + [t];
      if |th.channel| > 0 {
        FirstAmongMore(s, among, t, th.channel[0]);
        FirstGrows(s, s', among + [t], th.channel[0]);
      } else {
        forall x | x in among + [t] ensures x < |s'.tasks| && s'.tasks[x].state.Pending? {
          TaskAfter(s, step, x);
        }
      }
    }
  }

  lemma BystanderOk(s: State, step: Step, d: nat)
    requires Inv(s) && Enabled(s, step) && IsDispatcher(s, d) && d != Actor(s, step)
    ensures d < |Apply(s, step).threads| && Apply(s, step).threads[d].Dispatcher?
    ensures DispatcherOk(Apply(s, step), Apply(s, step).threads[d])
  {
    hide Conserved, Results, Joins, First, OnePublisher, Ids, Subscriptions;
    var s' := Apply(s, step);
    var th := s.threads[d];
    StepGrows(s, step);
    Others(s, step, d);
    assert DispatcherOk(s, th);
    if Decided(th.phase) {
      OutcomeGrows(s, s', th);
    } else if Completing(step) {
      CompletionArrives(s, step, d);
    } else {
      var among := th.sources[..th.subscribed];
      if |th.channel| > 0 {
        FirstGrows(s, s', among, th.channel[0]);
      } else {
        forall x | x in among ensures x < |s'.tasks| && s'.tasks[x].state.Pending? {
          TaskAfter(s, step, x);
        }
      }
    }
  }

  lemma MessagesKept(s: State, step: Step)
    requires Inv(s) && Enabled(s, step)
    ensures Messages(Apply(s, step))
  {
    hide Inv, DispatcherOk;
    var s' := Apply(s, step);
    forall d | 0 <= d < |s'.threads| && s'.threads[d].Dispatcher? ensures DispatcherOk(s', s'.threads[d]) {
      if d == Actor(s, step) {
        DispatcherActs(s, step);
      } else {
        Others(s, step, d);
        BystanderOk(s, step, d);
      }
    }
  }

  // ----- every run

  /** Each step of any thread keeps all invariants. */
  lemma StepKeeps(s: State, step: Step)
    requires Inv(s) && Enabled(s, step)
    ensures Inv(Apply(s, step))
  {
    hide Ids, Conserved, OnePublisher, Subscriptions, Messages, LogOk, Results, Joins;
    IdsKept(s, step);
    ConservedKept(s, step);
    OnePublisherKept(s, step);
    SubscriptionsKept(s, step);
    MessagesKept(s, step);
    LogKept(s, step);
    ResultsKept(s, step);
    JoinsKept(s, step);
  }

  lemma {:induction false} RunKeeps(s: State, steps: seq<Step>, end: State)
    requires Inv(s) && Reaches(s, steps, end)
    ensures Inv(end)
    decreases |steps|
  {
    hide Inv;
    if |steps| > 0 {
      StepKeeps(s, steps[0]);
      RunKeeps(Apply(s, steps[0]), steps[1..], end);
    }
  }
}
