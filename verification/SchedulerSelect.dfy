/** When a select is sure to return the source that completed first. */
module SchedulerSelect {
  import opened Scheduler
  import opened SchedulerInvariants
  import opened SchedulerSafety
  import opened SchedulerRuns
  import opened SchedulerProgress

  /** The dispatcher settled on a source that did not complete first. */
  ghost predicate Missed(s: State, d: nat) {
    && IsDispatcher(s, d) && Decided(s.threads[d].phase) && s.threads[d].phase.early
    && s.threads[d].subscribed < |s.threads[d].sources|
    && !First(s.log, s.threads[d].sources, s.threads[d].sources[s.threads[d].subscribed])
  }

  /** What a caller can check before the select: there is one source only, or
      the first listed is done and completed before all others. */
  ghost predicate SurelyFirst(s: State, hs: seq<nat>)
    requires |hs| > 0
  {
    || (forall i :: 0 <= i < |hs| ==> hs[i] == hs[0])
    || DoneFirst(s, hs, hs[0])
  }

  ghost predicate DoneFirst(s: State, hs: seq<nat>, t: nat) {
    t < |s.tasks| && s.tasks[t].state.Done? && First(s.log, hs, t)
  }

  // ----- completions in the log

  lemma FirstExtends(log: seq<nat>, later: seq<nat>, among: seq<nat>, t: nat)
    requires First(log, among, t) && log <= later
    ensures First(later, among, t)
  {
    var p :| 0 <= p < |log| && log[p] == t && forall q :: 0 <= q < p ==> log[q] !in among;
    assert later[p] == t && forall q :: 0 <= q < p ==> later[q] == log[q];
  }

  lemma FirstUnique(log: seq<nat>, among: seq<nat>, t: nat, u: nat)
    requires First(log, among, t) && First(log, among, u)
    ensures t == u
  {
    var p :| 0 <= p < |log| && log[p] == t && forall q :: 0 <= q < p ==> log[q] !in among;
    var r :| 0 <= r < |log| && log[r] == u && forall q :: 0 <= q < r ==> log[q] !in among;
    assert p == r;
  }

  /** Alone in the list, a done source is the first. */
  lemma FirstAlone(s: State, among: seq<nat>, t: nat)
    requires LogOk(s) && t < |s.tasks| && s.tasks[t].state.Done?
    requires |among| > 0 && forall i :: 0 <= i < |among| ==> among[i] == t
    ensures First(s.log, among, t)
  {
    var p :| 0 <= p < |s.log| && s.log[p] == t;
    assert among[0] in among;
    forall q | 0 <= q < p ensures s.log[q] !in among {
    }
  }

  /** The first completion of a list that had none before. */
  lemma FirstNow(s: State, among: seq<nat>, t: nat)
    requires LogOk(s) && t in among
    requires forall x :: x in among ==> x < |s.tasks| && s.tasks[x].state.Pending?
    ensures First(s.log + [t], among, t)
  {
    var log := s.log + [t];
    assert log[|s.log|] == t;
    forall q | 0 <= q < |s.log| ensures log[q] !in among {
      assert log[q] in s.log;
    }
  }

  // ----- runs

  lemma {:induction false} ReachesThen(s: State, a: seq<Step>, mid: State, b: seq<Step>, end: State)
    requires Reaches(s, a, mid) && Reaches(mid, b, end)
    ensures Reaches(s, a + b, end)
    decreases |a|
  {
    hide Enabled, Apply;
    if |a| == 0 {
      assert a + b == b;
    } else {
      ReachesThen(Apply(s, a[0]), a[1..], mid, b, end);
      assert (a + b)[0] == a[0] && (a + b)[1..] == a[1..] + b;
    }
  }

  lemma ReachesOne(s: State, step: Step)
    requires Enabled(s, step)
    ensures Reaches(s, [step], Apply(s, step))
  {
    assert [step][1..] == [];
  }

  /** What other threads do leaves a dispatcher where it is. */
  lemma Bystands(s: State, step: Step, d: nat)
    requires Enabled(s, step) && IsDispatcher(s, d) && Actor(s, step) != d
    ensures IsDispatcher(Apply(s, step), d)
    ensures var th, th' := s.threads[d], Apply(s, step).threads[d];
      && th'.sources == th.sources && th'.result == th.result
      && th'.subscribed == th.subscribed && th'.phase == th.phase
  {
    Others(s, step, d);
  }

  /** Where the dispatcher stands, with sources older than its own task. */
  ghost predicate Stands(s: State, w: nat, d: nat, hs: seq<nat>, k: nat) {
    && Inv(s) && IsWorker(s, w) && IsDispatcher(s, d)
    && s.threads[d].sources == hs && s.threads[d].phase.Subscribing? && s.threads[d].subscribed == k
    && k < |hs| && forall x :: x in hs ==> x < s.threads[d].result && x < |s.tasks|
  }

  lemma StandsOn(s: State, w: nat, d: nat, hs: seq<nat>, k: nat, step: Step)
    requires Stands(s, w, d, hs, k) && Enabled(s, step) && Actor(s, step) != d
    ensures Stands(Apply(s, step), w, d, hs, k) && s.log <= Apply(s, step).log
  {
    hide Inv, Enabled, Apply;
    StepKeeps(s, step);
    Bystands(s, step, d);
    StepGrows(s, step);
    WorkerOn(s, step, w);
  }

  lemma WorkerOn(s: State, step: Step, w: nat)
    requires Enabled(s, step) && IsWorker(s, w)
    ensures IsWorker(Apply(s, step), w)
  {
    if w != Actor(s, step) {
      Others(s, step, w);
    }
  }

  /** Without the dispatcher taking a step, a source can be run to completion. */
  lemma {:induction false} RunToDone(s: State, w: nat, d: nat, hs: seq<nat>, k: nat, t: nat)
    returns (steps: seq<Step>, end: State)
    requires Stands(s, w, d, hs, k) && t in hs
    ensures Reaches(s, steps, end) && Stands(end, w, d, hs, k) && s.log <= end.log
    ensures end.tasks[t].state.Done?
    decreases Measure(s)
  {
    hide Inv, Enabled, Apply, Measure;
    steps, end := [], s;
    if s.tasks[t].state.Pending? {
      var step := PendingStep(s, w, t, d);
      StandsOn(s, w, d, hs, k, step);
      MeasureDrops(s, step);
      var rest;
      rest, end := RunToDone(Apply(s, step), w, d, hs, k, t);
      steps := [step] + rest;
      assert steps[1..] == rest;
    }
  }

  ghost predicate AllPending(s: State, hs: seq<nat>) {
    forall x :: x in hs ==> x < |s.tasks| && s.tasks[x].state.Pending?
  }

  /** And a list of pending sources to the point where the next step completes
      the first of them. */
  lemma {:induction false} RunToBrink(s: State, w: nat, d: nat, hs: seq<nat>)
    returns (steps: seq<Step>, end: State, last: Step)
    requires Stands(s, w, d, hs, 0) && AllPending(s, hs)
    ensures Reaches(s, steps, end) && Stands(end, w, d, hs, 0) && AllPending(end, hs)
    ensures Enabled(end, last) && Actor(end, last) != d && Completing(last) && Completed(end, last) in hs
    decreases Measure(s)
  {
    hide Inv, Enabled, Apply, Measure;
    assert hs[0] in hs;
    var step := PendingStep(s, w, hs[0], d);
    if Completing(step) && Completed(s, step) in hs {
      steps, end, last := [], s, step;
    } else {
      StandsOn(s, w, d, hs, 0, step);
      MeasureDrops(s, step);
      forall x | x in hs ensures x < |Apply(s, step).tasks| && Apply(s, step).tasks[x].state.Pending? {
        TaskAfter(s, step, x);
      }
      var rest;
      rest, end, last := RunToBrink(Apply(s, step), w, d, hs);
      steps := [step] + rest;
      assert steps[1..] == rest;
    }
  }

  // ----- the two ways to miss

  /** Examining a done source that did not complete first. */
  lemma MissNow(s: State, w: nat, d: nat, hs: seq<nat>, k: nat)
    requires Stands(s, w, d, hs, k) && hs[k] < |s.tasks| && s.tasks[hs[k]].state.Done?
    requires !First(s.log, hs, hs[k])
    ensures Enabled(s, Subscribe(d)) && Missed(Apply(s, Subscribe(d)), d)
  {
    hide Inv, First;
    assert hs[k] in hs;
  }

  /** The dispatcher subscribes to pending sources, up to source `k`. */
  lemma {:induction false} SubscribeUpTo(s: State, w: nat, d: nat, hs: seq<nat>, j: nat, k: nat, last: Step)
    returns (steps: seq<Step>, end: State)
    requires Stands(s, w, d, hs, j) && j <= k < |hs| && AllPending(s, hs)
    requires Enabled(s, last) && Actor(s, last) != d && Completing(last)
    ensures Reaches(s, steps, end) && Stands(end, w, d, hs, k) && AllPending(end, hs) && end.log == s.log
    ensures Enabled(end, last) && Completed(end, last) == Completed(s, last)
    decreases k - j
  {
    hide Inv, Apply;
    steps, end := [], s;
    if j < k {
      assert hs[j] in hs;
      SubscribeOne(s, w, d, hs, j, last);
      var rest;
      rest, end := SubscribeUpTo(Apply(s, Subscribe(d)), w, d, hs, j + 1, k, last);
      steps := [Subscribe(d)] + rest;
      assert steps[1..] == rest;
    }
  }

  lemma SubscribeOne(s: State, w: nat, d: nat, hs: seq<nat>, j: nat, last: Step)
    requires Stands(s, w, d, hs, j) && j + 1 < |hs| && AllPending(s, hs) && hs[j] in hs
    requires Enabled(s, last) && Actor(s, last) != d && Completing(last)
    ensures Enabled(s, Subscribe(d))
    ensures var s' := Apply(s, Subscribe(d));
      && Stands(s', w, d, hs, j + 1) && AllPending(s', hs) && s'.log == s.log
      && Enabled(s', last) && Completed(s', last) == Completed(s, last) && Actor(s', last) != d
  {
    hide Inv;
    StepKeeps(s, Subscribe(d));
  }

  // ----- a miss from any doubtful state

  lemma SomeMiss(s: State, w: nat, d: nat, hs: seq<nat>, b: nat) returns (steps: seq<Step>, end: State)
    requires Stands(s, w, d, hs, 0) && b < |hs| && hs[b] != hs[0]
    requires forall i :: 0 <= i < b ==> hs[i] == hs[0]
    requires !DoneFirst(s, hs, hs[0])
    ensures Reaches(s, steps, end) && Missed(end, d)
  {
    hide Inv, Enabled, Apply, Measure;
    assert hs[0] in hs && hs[b] in hs;
    if !AllPending(s, hs) {
      var c :| c in hs && s.tasks[c].state.Done?;
      steps, end := MissFirstDone(s, w, d, hs, c);
    } else {
      var pre, brink, last := RunToBrink(s, w, d, hs);
      var rest;
      if Completed(brink, last) != hs[0] {
        rest, end := MissOther(brink, w, d, hs, last);
      } else {
        rest, end := MissLater(brink, w, d, hs, b, last);
      }
      ReachesThen(s, pre, brink, rest, end);
      steps := pre + rest;
    }
  }

  /** Some source is done and the first listed one is not the first. */
  lemma MissFirstDone(s: State, w: nat, d: nat, hs: seq<nat>, c: nat) returns (steps: seq<Step>, end: State)
    requires Stands(s, w, d, hs, 0) && c in hs && s.tasks[c].state.Done?
    requires !DoneFirst(s, hs, hs[0])
    ensures Reaches(s, steps, end) && Missed(end, d)
  {
    hide Inv, Enabled, Apply, Measure, First;
    assert hs[0] in hs;
    var pre, mid := RunToDone(s, w, d, hs, 0, hs[0]);
    if First(mid.log, hs, hs[0]) {
      FirstWasBefore(s, mid.log, hs, c, hs[0]);
    }
    MissNow(mid, w, d, hs, 0);
    ReachesOne(mid, Subscribe(d));
    end := Apply(mid, Subscribe(d));
    ReachesThen(s, pre, mid, [Subscribe(d)], end);
    steps := pre + [Subscribe(d)];
  }

  /** Once a source is done, the first completion is decided. */
  lemma FirstWasBefore(s: State, later: seq<nat>, hs: seq<nat>, c: nat, t: nat)
    requires Inv(s) && s.log <= later && c in hs && c < |s.tasks| && s.tasks[c].state.Done?
    requires First(later, hs, t)
    ensures DoneFirst(s, hs, t)
  {
    hide Ids, Conserved, OnePublisher, Subscriptions, Messages, Results, Joins;
    var p :| 0 <= p < |later| && later[p] == t && forall q :: 0 <= q < p ==> later[q] !in hs;
    var r :| 0 <= r < |s.log| && s.log[r] == c;
    assert later[r] == c;
    assert p <= r && s.log[p] == t && s.log[p] in s.log;
    forall q | 0 <= q < p ensures s.log[q] !in hs {
      assert later[q] == s.log[q];
    }
  }

  /** Another source completes first, then the first listed one. */
  lemma MissOther(s: State, w: nat, d: nat, hs: seq<nat>, last: Step) returns (steps: seq<Step>, end: State)
    requires Stands(s, w, d, hs, 0) && AllPending(s, hs)
    requires Enabled(s, last) && Actor(s, last) != d && Completing(last)
    requires Completed(s, last) in hs && Completed(s, last) != hs[0]
    ensures Reaches(s, steps, end) && Missed(end, d)
  {
    hide Inv, Enabled, Apply, Measure, First;
    var c, next := Completed(s, last), Apply(s, last);
    CompletedNow(s, w, d, hs, 0, last);
    if First(next.log, hs, hs[0]) {
      FirstUnique(next.log, hs, c, hs[0]);
    }
    var rest;
    rest, end := MissFirstDone(next, w, d, hs, c);
    steps := [last] + rest;
    assert steps[1..] == rest;
  }

  lemma CompletedNow(s: State, w: nat, d: nat, hs: seq<nat>, k: nat, last: Step)
    requires Stands(s, w, d, hs, k) && AllPending(s, hs)
    requires Enabled(s, last) && Actor(s, last) != d && Completing(last) && Completed(s, last) in hs
    ensures var next := Apply(s, last);
      && Stands(next, w, d, hs, k) && First(next.log, hs, Completed(s, last))
      && next.tasks[Completed(s, last)].state.Done?
  {
    hide First;
    StandsOn(s, w, d, hs, k, last);
    TaskAfter(s, last, Completed(s, last));
    assert Apply(s, last).log == s.log + [Completed(s, last)];
    FirstNow(s, hs, Completed(s, last));
  }

  /** The first listed source completes once the dispatcher has subscribed to
      it, and another one before it is examined. */
  lemma MissLater(s: State, w: nat, d: nat, hs: seq<nat>, b: nat, last: Step) returns (steps: seq<Step>, end: State)
    requires Stands(s, w, d, hs, 0) && AllPending(s, hs) && b < |hs| && hs[b] != hs[0]
    requires Enabled(s, last) && Actor(s, last) != d && Completing(last) && Completed(s, last) == hs[0]
    ensures Reaches(s, steps, end) && Missed(end, d)
  {
    hide Inv, Enabled, Apply, Measure, First;
    assert hs[0] in hs && hs[b] in hs;
    var subs, ready := SubscribeUpTo(s, w, d, hs, 0, b, last);
    SameActor(s, ready, last);
    CompletedNow(ready, w, d, hs, b, last);
    var next := Apply(ready, last);
    var rest, mid := RunToDone(next, w, d, hs, b, hs[b]);
    FirstExtends(next.log, mid.log, hs, hs[0]);
    if First(mid.log, hs, hs[b]) {
      FirstUnique(mid.log, hs, hs[b], hs[0]);
    }
    MissNow(mid, w, d, hs, b);
    ReachesOne(mid, Subscribe(d));
    end := Apply(mid, Subscribe(d));
    ReachesThen(next, rest, mid, [Subscribe(d)], end);
    ReachesOne(ready, last);
    ReachesThen(ready, [last], next, rest + [Subscribe(d)], end);
    ReachesThen(s, subs, ready, [last] + (rest + [Subscribe(d)]), end);
    steps := subs + ([last] + (rest + [Subscribe(d)]));
  }

  lemma SameActor(s: State, t: State, step: Step)
    requires Completing(step)
    ensures Actor(s, step) == Actor(t, step)
  {
  }

  // ----- at the step that finds a source done

  /** Decided early, at source `k`. */
  ghost predicate Early(s: State, d: nat, k: nat) {
    && Inv(s) && IsDispatcher(s, d) && Decided(s.threads[d].phase) && s.threads[d].phase.early
    && s.threads[d].subscribed == k && k < |s.threads[d].sources|
  }

  lemma {:induction false} EarlyRun(s: State, d: nat, k: nat, steps: seq<Step>, end: State)
    requires Early(s, d, k) && Reaches(s, steps, end)
    ensures Early(end, d, k) && end.threads[d].sources == s.threads[d].sources && s.log <= end.log
    decreases |steps|
  {
    hide Inv;
    if |steps| > 0 {
      StepKeeps(s, steps[0]);
      StepGrows(s, steps[0]);
      if Actor(s, steps[0]) != d {
        Bystands(s, steps[0], d);
      }
      EarlyRun(Apply(s, steps[0]), d, k, steps[1..], end);
    }
  }

  /** A dispatcher that finds a source done has missed, then and for ever,
      exactly when at that moment this source had not completed first. */
  lemma EarlyMisses(n: nat, s: State, d: nat, steps: seq<Step>, end: State)
    requires Reachable(n, s) && Enabled(s, Subscribe(d))
    requires s.tasks[s.threads[d].sources[s.threads[d].subscribed]].state.Done?
    requires Reaches(Apply(s, Subscribe(d)), steps, end)
    ensures var th := s.threads[d];
      Missed(end, d) <==> !First(s.log, th.sources, th.sources[th.subscribed])
  {
    hide Inv, First;
    ReachableInv(n, s);
    StepKeeps(s, Subscribe(d));
    var hs, k := s.threads[d].sources, s.threads[d].subscribed;
    EarlyRun(Apply(s, Subscribe(d)), d, k, steps, end);
    assert hs[k] in hs;
    if First(s.log, hs, hs[k]) {
      FirstExtends(s.log, end.log, hs, hs[k]);
    }
    if First(end.log, hs, hs[k]) {
      FirstWasBefore(s, end.log, hs, hs[k], hs[k]);
    }
  }

  // ----- the exact condition

  /** Right after the call. */
  lemma SelectStands(n: nat, s: State, hs: seq<nat>)
    requires n > 0 && Reachable(n, s) && Enabled(s, Select(hs))
    ensures Stands(Apply(s, Select(hs)), 0, |s.threads|, hs, 0) && Apply(s, Select(hs)).log == s.log
    ensures DoneFirst(Apply(s, Select(hs)), hs, hs[0]) <==> DoneFirst(s, hs, hs[0])
  {
    hide Conserved, OnePublisher, Subscriptions, Messages, LogOk, Results, Joins, First;
    ReachableInv(n, s);
    PoolStays(n, s);
    StepKeeps(s, Select(hs));
    WorkerOn(s, Select(hs), 0);
    assert hs[0] in hs && hs[0] in s.handles;
    TaskAfter(s, Select(hs), hs[0]);
  }

  /** What stays true of a dispatcher whose first source is done and first. */
  ghost predicate Settled(s: State, d: nat, hs: seq<nat>) {
    && Inv(s) && IsDispatcher(s, d) && |hs| > 0
    && s.threads[d].sources == hs && s.threads[d].subscribed == 0
    && DoneFirst(s, hs, hs[0])
    && (s.threads[d].phase.Subscribing? || (Decided(s.threads[d].phase) && s.threads[d].phase.early))
  }

  lemma SettledStep(s: State, d: nat, hs: seq<nat>, step: Step)
    requires Settled(s, d, hs) && Enabled(s, step)
    ensures Settled(Apply(s, step), d, hs)
  {
    hide Inv, First;
    StepKeeps(s, step);
    StepGrows(s, step);
    FirstExtends(s.log, Apply(s, step).log, hs, hs[0]);
    if Actor(s, step) != d {
      Bystands(s, step, d);
    }
  }

  lemma {:induction false} SettledRun(s: State, d: nat, hs: seq<nat>, steps: seq<Step>, end: State)
    requires Settled(s, d, hs) && Reaches(s, steps, end)
    ensures Settled(end, d, hs)
    decreases |steps|
  {
    hide Settled, Enabled, Apply;
    if |steps| > 0 {
      SettledStep(s, d, hs, steps[0]);
      SettledRun(Apply(s, steps[0]), d, hs, steps[1..], end);
    }
  }

  lemma {:induction false} SourcesStay(s: State, d: nat, steps: seq<Step>, end: State)
    requires Inv(s) && IsDispatcher(s, d) && Reaches(s, steps, end)
    ensures Inv(end) && IsDispatcher(end, d) && end.threads[d].sources == s.threads[d].sources
    decreases |steps|
  {
    hide Inv;
    if |steps| > 0 {
      StepKeeps(s, steps[0]);
      if Actor(s, steps[0]) != d {
        Bystands(s, steps[0], d);
      }
      SourcesStay(Apply(s, steps[0]), d, steps[1..], end);
    }
  }

  /** With one source only there is nothing to miss. */
  lemma OneSourceHits(s: State, d: nat)
    requires Inv(s) && IsDispatcher(s, d) && |s.threads[d].sources| > 0
    requires forall i :: 0 <= i < |s.threads[d].sources| ==> s.threads[d].sources[i] == s.threads[d].sources[0]
    ensures !Missed(s, d)
  {
    hide Conserved, OnePublisher, Subscriptions, Results, Joins, First;
    var th := s.threads[d];
    assert DispatcherOk(s, th);
    if Decided(th.phase) && th.phase.early {
      FirstAlone(s, th.sources, th.sources[th.subscribed]);
    }
  }

  /** A select is sure to settle on the source that completed first, whatever
      the interleaving, exactly when there is one source only or the first
      listed is done and completed before all others. */
  lemma SurelyFirstExactly(n: nat, s: State, hs: seq<nat>)
    requires n > 0 && Reachable(n, s) && Enabled(s, Select(hs))
    ensures SurelyFirst(s, hs) <==>
      forall steps, end :: Reaches(Apply(s, Select(hs)), steps, end) ==> !Missed(end, |s.threads|)
  {
    hide Inv, Enabled, Apply, Missed, DoneFirst;
    var s1, d := Apply(s, Select(hs)), |s.threads|;
    SelectStands(n, s, hs);
    if SurelyFirst(s, hs) {
      forall steps, end | Reaches(s1, steps, end) ensures !Missed(end, d) {
        SureRun(s1, d, hs, steps, end);
      }
    } else {
      var b := FirstOther(hs);
      var steps, end := SomeMiss(s1, 0, d, hs, b);
      assert Reaches(s1, steps, end) && Missed(end, d);
    }
  }

  lemma FirstOther(hs: seq<nat>) returns (b: nat)
    requires exists i :: 0 <= i < |hs| && hs[i] != hs[0]
    ensures b < |hs| && hs[b] != hs[0] && forall i :: 0 <= i < b ==> hs[i] == hs[0]
  {
    b := 0;
    while hs[b] == hs[0]
      invariant b < |hs| && forall i :: 0 <= i < b ==> hs[i] == hs[0]
      invariant exists i :: b <= i < |hs| && hs[i] != hs[0]
      decreases |hs| - b
    {
      b := b + 1;
    }
  }

  lemma SureRun(s: State, d: nat, hs: seq<nat>, steps: seq<Step>, end: State)
    requires Stands(s, 0, d, hs, 0) && Reaches(s, steps, end)
    requires (forall i :: 0 <= i < |hs| ==> hs[i] == hs[0]) || DoneFirst(s, hs, hs[0])
    ensures !Missed(end, d)
  {
    hide Inv, First;
    if DoneFirst(s, hs, hs[0]) {
      SettledRun(s, d, hs, steps, end);
    } else {
      SourcesStay(s, d, steps, end);
      OneSourceHits(end, d);
    }
  }

  /** So with two tasks just spawned it is not sure: some run ends
      with the select settled on the one that completed second. */
  lemma TwoTasksMayMiss(n: nat) returns (steps: seq<Step>, end: State)
    requires n > 0
    ensures |steps| >= 3 && steps[..3] == [Spawn, Spawn, Select([0, 1])]
    ensures Reaches(Init(n), steps, end) && Missed(end, n)
  {
    hide Missed;
    var s := Apply(Apply(Init(n), Spawn), Spawn);
    ReachesOne(Init(n), Spawn);
    ReachesOne(Apply(Init(n), Spawn), Spawn);
    ReachesThen(Init(n), [Spawn], Apply(Init(n), Spawn), [Spawn], s);
    assert Reaches(Init(n), [Spawn] + [Spawn], s);
    assert Reachable(n, s);
    assert !SurelyFirst(s, [0, 1]) by { assert [0, 1][1] != [0, 1][0]; }
    SurelyFirstExactly(n, s, [0, 1]);
    var rest;
    rest, end :| Reaches(Apply(s, Select([0, 1])), rest, end) && Missed(end, n);
    ReachesOne(s, Select([0, 1]));
    ReachesThen(s, [Select([0, 1])], Apply(s, Select([0, 1])), rest, end);
    ReachesThen(Init(n), [Spawn] + [Spawn], s, [Select([0, 1])] + rest, end);
    steps := [Spawn] + [Spawn] + ([Select([0, 1])] + rest);
  }
}
