/** What every step of the runtime keeps. */
module SchedulerInvariants {
  import opened Scheduler

  // ----- identifiers

  ghost predicate ThreadOk(tasks: seq<Task>, th: Thread) {
    match th
    case Worker(work) => !work.Idle? ==> work.task < |tasks| && tasks[work.task].origin.Spawned?
    case Joiner(hs, rs, asleep) =>
      && |rs| <= |hs| && NoRepeats(hs)
      && (forall h :: h in hs ==> h < |tasks|)
      && (asleep ==> |rs| < |hs|)
    case Dispatcher(sources, result, subscribed, phase, _) =>
      && result < |tasks| && tasks[result].origin == Selected(sources)
      && subscribed <= |sources|
      && (subscribed == |sources| <==> phase.Receiving? || (Decided(phase) && !phase.early))
  }

  /** The dispatcher has its value. */
  predicate Decided(phase: Phase) {
    phase.Won? || phase.Announced? || phase.Finished?
  }

  /** A select's sources are older than its own task. */
  ghost predicate OriginOk(t: nat, origin: Origin) {
    origin.Selected? ==> |origin.sources| > 0 && forall x :: x in origin.sources ==> x < t
  }

  ghost predicate Ids(s: State) {
    && (forall q :: q in s.queue ==> q < |s.tasks| && s.tasks[q].origin.Spawned?)
    && (forall h :: h in s.handles ==> h < |s.tasks|)
    && (forall t :: 0 <= t < |s.tasks| ==> OriginOk(t, s.tasks[t].origin))
    && (forall k :: 0 <= k < |s.threads| ==> ThreadOk(s.tasks, s.threads[k]))
  }

  // ----- counting

  datatype Claim = Reference | Publication

  /** How many references to task `t` a thread holds, or how many times it is
      still going to complete `t`. */
  function Weight(c: Claim, th: Thread, t: nat): nat {
    match th
    case Worker(work) =>
      if work.Idle? || work.task != t || (c.Publication? && work.Published?) then 0 else 1
    case Joiner(hs, rs, _) =>
      if c.Publication? || |rs| > |hs| then 0 else multiset(hs[|rs|..])[t]
    case Dispatcher(sources, result, _, phase, _) =>
      if phase.Finished? then 0
      else if c.Publication? then (if result == t && !phase.Announced? then 1 else 0)
      else multiset(sources)[t] + if result == t then 1 else 0
  }

  function Total(c: Claim, threads: seq<Thread>, t: nat): nat
    decreases |threads|
  {
    if |threads| == 0 then 0
    else Total(c, threads[..|threads| - 1], t) + Weight(c, threads[|threads| - 1], t)
  }

  lemma {:induction false} TotalSame(c: Claim, a: seq<Thread>, b: seq<Thread>, t: nat)
    requires |a| == |b| && forall k :: 0 <= k < |a| ==> Weight(c, a[k], t) == Weight(c, b[k], t)
    ensures Total(c, a, t) == Total(c, b, t)
    decreases |a|
  {
    hide Weight;
    if |a| > 0 {
      TotalSame(c, a[..|a| - 1], b[..|a| - 1], t);
    }
  }

  lemma {:induction false} TotalSet(c: Claim, threads: seq<Thread>, k: nat, th: Thread, t: nat)
    requires k < |threads|
    ensures Total(c, threads[k := th], t) + Weight(c, threads[k], t) == Total(c, threads, t) + Weight(c, th, t)
    decreases |threads|
  {
    hide Weight;
    var n := |threads| - 1;
    if k < n {
      TotalSet(c, threads[..n], k, th, t);
      assert threads[k := th][..n] == threads[..n][k := th];
    } else {
      assert threads[k := th][..n] == threads[..n];
    }
  }

  lemma TotalAdd(c: Claim, threads: seq<Thread>, th: Thread, t: nat)
    ensures Total(c, threads + [th], t) == Total(c, threads, t) + Weight(c, th, t)
  {
    hide Weight;
    assert (threads + [th])[..|threads|] == threads;
  }

  lemma {:induction false} TotalCovers(c: Claim, threads: seq<Thread>, k: nat, t: nat)
    requires k < |threads|
    ensures Weight(c, threads[k], t) <= Total(c, threads, t)
    decreases |threads|
  {
    hide Weight;
    if k < |threads| - 1 {
      TotalCovers(c, threads[..|threads| - 1], k, t);
    }
  }

  lemma {:induction false} TotalNone(c: Claim, threads: seq<Thread>, t: nat)
    requires forall k :: 0 <= k < |threads| ==> Weight(c, threads[k], t) == 0
    ensures Total(c, threads, t) == 0
    decreases |threads|
  {
    hide Weight;
    if |threads| > 0 {
      TotalNone(c, threads[..|threads| - 1], t);
    }
  }

  /** References held outside the threads: the caller's handle and the queued
      job. */
  function Outside(s: State, t: nat): nat {
    (if t in s.handles then 1 else 0) + multiset(s.queue)[t]
  }

  /** The books balance at task `t`. */
  ghost predicate Balanced(s: State, t: nat) {
    t < |s.tasks| && s.tasks[t].strong == Outside(s, t) + Total(Reference, s.threads, t)
  }

  /** A strong count is exactly the references in existence. */
  ghost predicate Conserved(s: State) {
    forall t :: 0 <= t < |s.tasks| ==> Balanced(s, t)
  }

  /** A pending task has exactly one completion ahead of it, a done task
      none. */
  ghost predicate OnePublisher(s: State) {
    forall t :: 0 <= t < |s.tasks| ==> PublishersOk(s, t)
  }

  ghost predicate PublishersOk(s: State, t: nat)
    requires t < |s.tasks|
  {
    multiset(s.queue)[t] + Total(Publication, s.threads, t) == if s.tasks[t].state.Pending? then 1 else 0
  }

  // ----- subscriptions and messages

  ghost predicate WaitersOk(s: State, t: nat)
    requires t < |s.tasks|
  {
    && (s.tasks[t].state.Done? ==> s.tasks[t].waiters == [])
    && (forall w :: w in s.tasks[t].waiters ==>
          && IsDispatcher(s, w)
          && s.threads[w].subscribed <= |s.threads[w].sources|
          && t in s.threads[w].sources[..s.threads[w].subscribed])
  }

  /** Every source a dispatcher subscribed to that is still pending has one of
      its live senders. */
  ghost predicate SendersOk(s: State, d: nat)
    requires IsDispatcher(s, d)
  {
    var th := s.threads[d];
    && th.subscribed <= |th.sources|
    && forall j :: 0 <= j < th.subscribed ==>
         && th.sources[j] < |s.tasks|
         && (s.tasks[th.sources[j]].state.Pending? ==> d in s.tasks[th.sources[j]].waiters)
  }

  ghost predicate Subscriptions(s: State) {
    && (forall t :: 0 <= t < |s.tasks| ==> WaitersOk(s, t))
    && (forall d :: 0 <= d < |s.threads| && IsDispatcher(s, d) ==> SendersOk(s, d))
  }

  /** `t` is the first task of `among` in the order of completion. */
  ghost predicate First(log: seq<nat>, among: seq<nat>, t: nat) {
    t in among && exists p :: 0 <= p < |log| && log[p] == t && forall q :: 0 <= q < p ==> log[q] !in among
  }

  ghost predicate FirstValue(s: State, among: seq<nat>, v: Pointer) {
    exists t: nat :: t < |s.tasks| && First(s.log, among, t) && s.tasks[t].state == Done(v)
  }

  /** What a channel holds while the dispatcher still listens: nothing as long
      as every subscribed source is pending, and otherwise first of all the
      value of the subscribed source that completed first. */
  ghost predicate ChannelOk(s: State, among: seq<nat>, channel: seq<Pointer>) {
    if |channel| == 0 then forall x :: x in among ==> x < |s.tasks| && s.tasks[x].state.Pending?
    else FirstValue(s, among, channel[0])
  }

  /** What a decided dispatcher decided: the value of the first source found
      done when examined, or, if none was, of the source that completed
      first of all. */
  ghost predicate OutcomeOk(s: State, th: Thread)
    requires th.Dispatcher? && Decided(th.phase)
  {
    if th.phase.early then
      && th.subscribed < |th.sources| && th.sources[th.subscribed] < |s.tasks|
      && s.tasks[th.sources[th.subscribed]].state == Done(th.phase.value)
    else FirstValue(s, th.sources, th.phase.value)
  }

  ghost predicate DispatcherOk(s: State, th: Thread)
    requires th.Dispatcher?
  {
    && (!Decided(th.phase) ==> th.subscribed <= |th.sources| && ChannelOk(s, th.sources[..th.subscribed], th.channel))
    && (Decided(th.phase) ==> OutcomeOk(s, th))
    && (th.phase.Announced? || th.phase.Finished? ==>
          th.result < |s.tasks| && s.tasks[th.result].state == Done(th.phase.value))
  }

  ghost predicate Messages(s: State) {
    forall d :: 0 <= d < |s.threads| && s.threads[d].Dispatcher? ==> DispatcherOk(s, s.threads[d])
  }

  // ----- history

  ghost predicate LogOk(s: State) {
    && NoRepeats(s.log)
    && (forall x :: x in s.log ==> x < |s.tasks| && s.tasks[x].state.Done?)
    && (forall t :: 0 <= t < |s.tasks| && s.tasks[t].state.Done? ==> t in s.log)
  }

  /** A done task's result: what its own thunk returned, or the result of one
      of the tasks it selected from. */
  ghost predicate ResultOk(s: State, t: nat)
    requires t < |s.tasks|
  {
    match s.tasks[t].state
    case Pending => true
    case Done(v) =>
      if s.tasks[t].origin.Spawned? then t in s.returned && s.returned[t] == v
      else exists u :: u in s.tasks[t].origin.sources && u < |s.tasks| && s.tasks[u].state == Done(v)
  }

  /** A thunk that has not returned yet has no result on record. */
  ghost predicate WorkOk(s: State, th: Thread) {
    th.Worker? ==>
      && (th.work.Running? ==> th.work.task !in s.returned)
      && (th.work.Returned? ==> th.work.task in s.returned && s.returned[th.work.task] == th.work.value)
  }

  ghost predicate Results(s: State) {
    && (forall t :: 0 <= t < |s.tasks| ==> ResultOk(s, t))
    && (forall k :: 0 <= k < |s.threads| ==> WorkOk(s, s.threads[k]))
    && (forall q :: q in s.queue ==> q !in s.returned)
    && (forall t :: t in s.returned ==> t < |s.tasks|)
  }

  // ----- joins

  /** Results so far answer the handles in order; a sleeping joiner's task is
      pending, so its notification is still to come. */
  ghost predicate JoinerOk(s: State, th: Thread) {
    th.Joiner? ==>
      && |th.results| <= |th.handles|
      && (forall i :: 0 <= i < |th.results| ==>
            th.handles[i] < |s.tasks| && s.tasks[th.handles[i]].state == Done(th.results[i]))
      && (th.asleep ==>
            && |th.results| < |th.handles| && th.handles[|th.results|] < |s.tasks|
            && s.tasks[th.handles[|th.results|]].state.Pending?)
  }

  ghost predicate Joins(s: State) {
    forall k :: 0 <= k < |s.threads| ==> JoinerOk(s, s.threads[k])
  }

  ghost predicate Inv(s: State) {
    && Ids(s) && Conserved(s) && OnePublisher(s)
    && Subscriptions(s) && Messages(s)
    && LogOk(s) && Results(s) && Joins(s)
  }

  // ----- the initial state

  lemma InitInv(n: nat)
    ensures Inv(Init(n))
  {
  }

  // ----- what a step changes

  /** The thread that takes the step, or the one the step starts. */
  function Actor(s: State, step: Step): nat {
    match step
    case Spawn => |s.threads|
    case Take(w) => w
    case Run(w, _) => w
    case Publish(w) => w
    case DropJob(w) => w
    case JoinAll(_) => |s.threads|
    case Check(j) => j
    case Wake(j) => j
    case Select(_) => |s.threads|
    case Subscribe(d) => d
    case Receive(d) => d
    case Announce(d) => d
    case DropClones(d) => d
  }

  predicate Completing(step: Step) {
    step.Publish? || step.Announce?
  }

  /** The task a completing step completes, and its result. */
  function Completed(s: State, step: Step): nat
    requires Enabled(s, step) && Completing(step)
  {
    if step.Publish? then s.threads[step.w].work.task else s.threads[step.d].result
  }

  function Outcome(s: State, step: Step): Pointer
    requires Enabled(s, step) && Completing(step)
  {
    if step.Publish? then s.threads[step.w].work.value else s.threads[step.d].phase.value
  }

  /** Every other thread is left alone, or notified of a completion. */
  lemma Others(s: State, step: Step, k: nat)
    requires Enabled(s, step) && k < |s.threads| && k != Actor(s, step)
    ensures |Apply(s, step).threads| >= |s.threads|
    ensures Apply(s, step).threads[k] ==
      if Completing(step)
      then Notified(s.threads[k], k, s.tasks[Completed(s, step)].waiters, Completed(s, step), Outcome(s, step))
      else s.threads[k]
  {
  }

  /** Only a completion changes the state of an existing task, and only that
      of the task it completes; origins never change. */
  lemma TaskAfter(s: State, step: Step, t: nat)
    requires Enabled(s, step) && t < |s.tasks|
    ensures |s.tasks| <= |Apply(s, step).tasks| <= |s.tasks| + 1
    ensures var after := Apply(s, step).tasks[t];
      && after.origin == s.tasks[t].origin
      && after.state == (if Completing(step) && t == Completed(s, step) then Done(Outcome(s, step))
        else s.tasks[t].state)
  {
  }

  /** A later state: tasks keep their origin and, once done, their result; the
      log and the record of returned values only grow. */
  ghost predicate Grows(s: State, s': State) {
    && |s.tasks| <= |s'.tasks|
    && (forall t :: 0 <= t < |s.tasks| ==> s'.tasks[t].origin == s.tasks[t].origin)
    && (forall t :: 0 <= t < |s.tasks| && s.tasks[t].state.Done? ==> s'.tasks[t].state == s.tasks[t].state)
    && s.log <= s'.log
    && (forall x :: x in s.returned ==> x in s'.returned && s'.returned[x] == s.returned[x])
  }

  /** The publisher of a task that is about to complete finds it pending. */
  lemma CompletesPending(s: State, step: Step)
    requires Ids(s) && OnePublisher(s) && Enabled(s, step) && Completing(step)
    ensures Completed(s, step) < |s.tasks| && s.tasks[Completed(s, step)].state.Pending?
  {
    var t := Completed(s, step);
    assert ThreadOk(s.tasks, s.threads[Actor(s, step)]);
    assert t < |s.tasks| && PublishersOk(s, t);
    TotalCovers(Publication, s.threads, Actor(s, step), t);
  }

  lemma StepGrows(s: State, step: Step)
    requires Inv(s) && Enabled(s, step)
    ensures Grows(s, Apply(s, step))
  {
    hide Conserved, Subscriptions, Messages, LogOk, Joins;
    forall t | 0 <= t < |s.tasks|
      ensures |s.tasks| <= |Apply(s, step).tasks|
      ensures Apply(s, step).tasks[t].origin == s.tasks[t].origin
      ensures s.tasks[t].state.Done? ==> Apply(s, step).tasks[t].state == s.tasks[t].state
    {
      TaskAfter(s, step, t);
      if Completing(step) {
        CompletesPending(s, step);
      }
    }
    assert step.Run? ==> WorkOk(s, s.threads[Actor(s, step)]);
  }

  // ----- preservation, one invariant at a time

  lemma ThreadOkGrows(s: State, s': State, th: Thread)
    requires Grows(s, s') && ThreadOk(s.tasks, th)
    ensures ThreadOk(s'.tasks, th)
  {
  }

  lemma ThreadOkNotified(tasks: seq<Task>, th: Thread, k: nat, waiters: seq<nat>, t: nat, v: Pointer)
    requires ThreadOk(tasks, th)
    ensures ThreadOk(tasks, Notified(th, k, waiters, t, v))
  {
  }

  lemma ActorOk(s: State, step: Step)
    requires Ids(s) && Enabled(s, step) && Actor(s, step) < |Apply(s, step).threads|
    ensures ThreadOk(Apply(s, step).tasks, Apply(s, step).threads[Actor(s, step)])
  {
    hide ThreadOk, Ids;
    if Actor(s, step) < |s.threads| {
      ThreadOf(s, Actor(s, step));
      if s.threads[Actor(s, step)].Worker? {
        WorkerOk(s, step);
      } else {
        WaiterOk(s, step);
      }
    } else {
      StarterOk(s, step);
    }
  }

  lemma ThreadOf(s: State, k: nat)
    requires Ids(s) && k < |s.threads|
    ensures ThreadOk(s.tasks, s.threads[k])
  {
    hide ThreadOk;
  }

  lemma WorkerOk(s: State, step: Step)
    requires Ids(s) && Enabled(s, step) && Actor(s, step) < |s.threads| && s.threads[Actor(s, step)].Worker?
    requires ThreadOk(s.tasks, s.threads[Actor(s, step)])
    ensures Actor(s, step) < |Apply(s, step).threads|
    ensures ThreadOk(Apply(s, step).tasks, Apply(s, step).threads[Actor(s, step)])
  {
    var th := s.threads[Actor(s, step)];
    if !th.work.Idle? {
      TaskAfter(s, step, th.work.task);
    } else {
      assert s.queue[0] in s.queue;
    }
  }

  lemma WaiterOk(s: State, step: Step)
    requires Enabled(s, step) && Actor(s, step) < |s.threads| && !s.threads[Actor(s, step)].Worker?
    requires ThreadOk(s.tasks, s.threads[Actor(s, step)])
    ensures Actor(s, step) < |Apply(s, step).threads|
    ensures ThreadOk(Apply(s, step).tasks, Apply(s, step).threads[Actor(s, step)])
  {
    var th := s.threads[Actor(s, step)];
    if th.Dispatcher? {
      TaskAfter(s, step, th.result);
    }
  }

  lemma StarterOk(s: State, step: Step)
    requires Ids(s) && Enabled(s, step) && |s.threads| <= Actor(s, step) < |Apply(s, step).threads|
    ensures ThreadOk(Apply(s, step).tasks, Apply(s, step).threads[Actor(s, step)])
  {
  }

  lemma ThreadsOk(s: State, step: Step)
    requires Inv(s) && Enabled(s, step)
    ensures forall k :: 0 <= k < |Apply(s, step).threads| ==> ThreadOk(Apply(s, step).tasks, Apply(s, step).threads[k])
  {
    hide ThreadOk, Conserved, OnePublisher, Subscriptions, Messages, LogOk, Results, Joins;
    var s' := Apply(s, step);
    StepGrows(s, step);
    forall k | 0 <= k < |s'.threads| ensures ThreadOk(s'.tasks, s'.threads[k]) {
      if k == Actor(s, step) {
        ActorOk(s, step);
      } else {
        Others(s, step, k);
        ThreadOkGrows(s, s', s.threads[k]);
        if Completing(step) {
          ThreadOkNotified(s'.tasks, s.threads[k], k, s.tasks[Completed(s, step)].waiters, Completed(s, step),
            Outcome(s, step));
        }
      }
    }
  }

  lemma IdsKept(s: State, step: Step)
    requires Inv(s) && Enabled(s, step)
    ensures Ids(Apply(s, step))
  {
    hide ThreadOk, Conserved, OnePublisher, Subscriptions, Messages, LogOk, Results, Joins;
    var s' := Apply(s, step);
    StepGrows(s, step);
    ThreadsOk(s, step);
    forall t | 0 <= t < |s'.tasks| ensures OriginOk(t, s'.tasks[t].origin) {
      if t < |s.tasks| {
        TaskAfter(s, step, t);
      }
    }
    assert forall q :: q in s'.queue ==> q in s.queue || (step.Spawn? && q == |s.tasks|);
    assert forall h :: h in s'.handles ==> h in s.handles || ((step.Spawn? || step.Select?) && h == |s.tasks|);
  }

  // ----- conservation

  lemma NotifiedWeight(c: Claim, th: Thread, k: nat, waiters: seq<nat>, t: nat, v: Pointer, x: nat)
    ensures Weight(c, Notified(th, k, waiters, t, v), x) == Weight(c, th, x)
  {
  }

  /** A thread mentions only existing tasks. */
  lemma UnknownWeight(c: Claim, tasks: seq<Task>, th: Thread, t: nat)
    requires ThreadOk(tasks, th) && |tasks| <= t
    requires th.Dispatcher? ==> OriginOk(th.result, Selected(th.sources))
    ensures Weight(c, th, t) == 0
  {
    if th.Joiner? {
      assert t !in th.handles;
      assert t !in th.handles[|th.results|..];
    } else if th.Dispatcher? {
      assert t !in th.sources;
    }
  }

  /** Only the acting thread's own claims change the totals. */
  lemma TotalAfter(c: Claim, s: State, step: Step, t: nat)
    requires Enabled(s, step)
    ensures var s', a := Apply(s, step), Actor(s, step);
      if a < |s.threads| then
        && a < |s'.threads|
        && Total(c, s'.threads, t) + Weight(c, s.threads[a], t) == Total(c, s.threads, t) + Weight(c, s'.threads[a], t)
      else if a < |s'.threads| then
        Total(c, s'.threads, t) == Total(c, s.threads, t) + Weight(c, s'.threads[a], t)
      else s'.threads == s.threads
  {
    hide Weight, Total;
    var s', a := Apply(s, step), Actor(s, step);
    if Completing(step) {
      var done, v := Completed(s, step), Outcome(s, step);
      var notified := NotifyAll(s.threads, s.tasks[done].waiters, done, v);
      forall k | 0 <= k < |s.threads| ensures Weight(c, notified[k], t) == Weight(c, s.threads[k], t) {
        NotifiedWeight(c, s.threads[k], k, s.tasks[done].waiters, done, v, t);
      }
      TotalSame(c, notified, s.threads, t);
      TotalSet(c, notified, a, s'.threads[a], t);
      assert s'.threads == notified[a := s'.threads[a]];
    } else if a < |s.threads| {
      TotalSet(c, s.threads, a, s'.threads[a], t);
      assert s'.threads == s.threads[a := s'.threads[a]];
    } else if a < |s'.threads| {
      TotalAdd(c, s.threads, s'.threads[a], t);
      assert s'.threads == s.threads + [s'.threads[a]];
    }
  }

  lemma UnknownTotal(c: Claim, s: State, t: nat)
    requires Ids(s) && |s.tasks| <= t
    ensures Total(c, s.threads, t) == 0 && multiset(s.queue)[t] == 0 && t !in s.handles
  {
    hide Total, Weight;
    forall k | 0 <= k < |s.threads| ensures Weight(c, s.threads[k], t) == 0 {
      var th := s.threads[k];
      assert ThreadOk(s.tasks, th);
      if th.Dispatcher? {
        assert OriginOk(th.result, s.tasks[th.result].origin);
      }
      UnknownWeight(c, s.tasks, th, t);
    }
    TotalNone(c, s.threads, t);
    assert t !in s.queue;
  }

  lemma HeadOccurs(q: seq<nat>, t: nat)
    requires |q| > 0
    ensures multiset(q)[t] == multiset(q[1..])[t] + if q[0] == t then 1 else 0
  {
    assert q == [q[0]] + q[1..];
  }

  lemma {:induction false} OccursOnce(hs: seq<nat>, t: nat)
    requires NoRepeats(hs)
    ensures multiset(hs)[t] == if t in hs then 1 else 0
    decreases |hs|
  {
    if |hs| > 0 {
      HeadOccurs(hs, t);
      OccursOnce(hs[1..], t);
    }
  }

  /** Steps that move no reference, or move one from the queue to a worker. */
  lemma BalancedWorker(s: State, step: Step, t: nat)
    requires Balanced(s, t) && Enabled(s, step)
    requires step.Spawn? || step.Take? || step.Run? || step.DropJob?
    ensures Balanced(Apply(s, step), t)
  {
    hide Total;
    TotalAfter(Reference, s, step, t);
    if step.Take? {
      HeadOccurs(s.queue, t);
    }
  }

  lemma BalancedCompletion(s: State, step: Step, t: nat)
    requires Balanced(s, t) && Enabled(s, step) && Completing(step)
    ensures Balanced(Apply(s, step), t)
  {
    hide Total;
    TotalAfter(Reference, s, step, t);
  }

  /** Handles passed to a join move to its thread. */
  lemma BalancedJoin(s: State, step: Step, t: nat)
    requires Balanced(s, t) && Enabled(s, step) && step.JoinAll?
    ensures Balanced(Apply(s, step), t)
  {
    hide Total;
    TotalAfter(Reference, s, step, t);
    OccursOnce(step.hs, t);
    assert step.hs[0..] == step.hs;
  }

  /** They leave it one by one. */
  lemma BalancedCheck(s: State, step: Step, t: nat)
    requires Balanced(s, t) && Enabled(s, step) && (step.Check? || step.Wake?)
    ensures Balanced(Apply(s, step), t)
  {
    hide Total, Weight;
    TotalAfter(Reference, s, step, t);
    var th := s.threads[step.j];
    if step.Check? && s.tasks[th.handles[|th.results|]].state.Done? {
      AnsweredWeight(th, s.tasks[th.handles[|th.results|]].state.result, t);
    } else {
      SleepWeight(th, step.Check?, t);
    }
  }

  lemma SleepWeight(th: Thread, asleep: bool, t: nat)
    requires th.Joiner?
    ensures Weight(Reference, th.(asleep := asleep), t) == Weight(Reference, th, t)
  {
  }

  lemma AnsweredWeight(th: Thread, v: Pointer, t: nat)
    requires th.Joiner? && |th.results| < |th.handles|
    ensures Weight(Reference, th, t) ==
      Weight(Reference, th.(results := th.results + [v]), t) + if th.handles[|th.results|] == t then 1 else 0
  {
    var rest := th.handles[|th.results|..];
    HeadOccurs(rest, t);
    assert rest[1..] == th.handles[|th.results| + 1..];
  }

  /** A select clones every source, and its dispatcher drops every clone. */
  lemma BalancedSelect(s: State, step: Step, t: nat)
    requires Ids(s) && Balanced(s, t) && Enabled(s, step)
    requires step.Select? || step.Subscribe? || step.Receive? || step.DropClones?
    ensures Balanced(Apply(s, step), t)
  {
    hide Total, Ids;
    TotalAfter(Reference, s, step, t);
    if step.Select? {
      BalancedStart(s, step, t);
    } else if step.DropClones? {
      BalancedDrop(s, step, t);
    }
  }

  lemma BalancedStart(s: State, step: Step, t: nat)
    requires Ids(s) && Balanced(s, t) && Enabled(s, step) && step.Select?
    ensures Balanced(Apply(s, step), t)
  {
    hide Total;
    TotalAfter(Reference, s, step, t);
  }

  lemma BalancedDrop(s: State, step: Step, t: nat)
    requires Ids(s) && Balanced(s, t) && Enabled(s, step) && step.DropClones?
    ensures Balanced(Apply(s, step), t)
  {
    hide Total;
    TotalAfter(Reference, s, step, t);
  }

  /** A new task starts with the two references its creator made. */
  lemma BalancedNew(s: State, step: Step)
    requires Ids(s) && Enabled(s, step) && |Apply(s, step).tasks| > |s.tasks|
    ensures Balanced(Apply(s, step), |s.tasks|)
  {
    hide Total;
    var t := |s.tasks|;
    UnknownTotal(Reference, s, t);
    TotalAfter(Reference, s, step, t);
    if step.Select? {
      assert t !in step.hs;
    }
  }

  lemma ConservedKept(s: State, step: Step)
    requires Ids(s) && Conserved(s) && Enabled(s, step)
    ensures Conserved(Apply(s, step))
  {
    hide Total, Ids;
    var s' := Apply(s, step);
    forall t | 0 <= t < |s'.tasks| ensures Balanced(s', t) {
      if t >= |s.tasks| {
        BalancedNew(s, step);
      } else {
        assert Balanced(s, t);
        if step.Spawn? || step.Take? || step.Run? || step.DropJob? {
          BalancedWorker(s, step, t);
        } else if Completing(step) {
          BalancedCompletion(s, step, t);
        } else if step.JoinAll? {
          BalancedJoin(s, step, t);
        } else if step.Check? || step.Wake? {
          BalancedCheck(s, step, t);
        } else {
          BalancedSelect(s, step, t);
        }
      }
    }
  }

  /** The completions still ahead of an existing task. */
  lemma PublisherAt(s: State, step: Step, t: nat)
    requires Ids(s) && OnePublisher(s) && Enabled(s, step) && t < |s.tasks|
    ensures t < |Apply(s, step).tasks| && PublishersOk(Apply(s, step), t)
  {
    hide Total, ThreadOk;
    assert PublishersOk(s, t);
    TaskAfter(s, step, t);
    PublicationAfter(s, step, t);
    if Completing(step) {
      CompletesPending(s, step);
    }
  }

  /** Claims to complete a task are made with it, and used up by completing
      it; in between they only pass from the queue to a worker. */
  ghost predicate ClaimsMove(s: State, step: Step, t: nat)
    requires Enabled(s, step)
  {
    var s' := Apply(s, step);
    multiset(s'.queue)[t] + Total(Publication, s'.threads, t) ==
    multiset(s.queue)[t] + Total(Publication, s.threads, t) - if Completing(step) && t == Completed(s, step)
      then 1 else 0
  }

  lemma WorkerClaims(s: State, step: Step, t: nat)
    requires Enabled(s, step) && t < |s.tasks|
    requires step.Spawn? || step.Take? || step.Run? || step.Publish? || step.DropJob?
    ensures ClaimsMove(s, step, t)
  {
    hide Total;
    TotalAfter(Publication, s, step, t);
    if step.Take? {
      HeadOccurs(s.queue, t);
    }
  }

  lemma JoinerClaims(s: State, step: Step, t: nat)
    requires Enabled(s, step) && t < |s.tasks|
    requires step.JoinAll? || step.Check? || step.Wake?
    ensures ClaimsMove(s, step, t)
  {
    hide Total;
    TotalAfter(Publication, s, step, t);
  }

  lemma DispatcherClaims(s: State, step: Step, t: nat)
    requires Enabled(s, step) && t < |s.tasks|
    requires step.Select? || step.Subscribe? || step.Receive? || step.Announce? || step.DropClones?
    ensures ClaimsMove(s, step, t)
  {
    hide Total;
    TotalAfter(Publication, s, step, t);
  }

  lemma PublicationAfter(s: State, step: Step, t: nat)
    requires Enabled(s, step) && t < |s.tasks|
    ensures ClaimsMove(s, step, t)
  {
    hide ClaimsMove;
    if step.JoinAll? || step.Check? || step.Wake? {
      JoinerClaims(s, step, t);
    } else if step.Spawn? || step.Take? || step.Run? || step.Publish? || step.DropJob? {
      WorkerClaims(s, step, t);
    } else {
      DispatcherClaims(s, step, t);
    }
  }

  lemma OnePublisherKept(s: State, step: Step)
    requires Ids(s) && OnePublisher(s) && Enabled(s, step)
    ensures OnePublisher(Apply(s, step))
  {
    hide Total, Ids;
    var s' := Apply(s, step);
    forall t | 0 <= t < |s'.tasks| ensures PublishersOk(s', t) {
      if t < |s.tasks| {
        PublisherAt(s, step, t);
      } else {
        PublisherNew(s, step);
      }
    }
  }

  lemma PublisherNew(s: State, step: Step)
    requires Ids(s) && Enabled(s, step) && |Apply(s, step).tasks| > |s.tasks|
    ensures PublishersOk(Apply(s, step), |s.tasks|)
  {
    hide Total;
    UnknownTotal(Publication, s, |s.tasks|);
    TotalAfter(Publication, s, step, |s.tasks|);
  }
}
