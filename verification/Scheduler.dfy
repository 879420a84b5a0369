/** The task runtime as a step system. Every mutex-held section is one step,
    the sends a completion makes from it included, and so is every receive;
    steps of different threads interleave freely. Names of steps follow the
    runtime's functions. */
module Scheduler {

  /** A result pointer; the runtime never looks inside. */
  type Pointer = int

  datatype TaskState = Pending | Done(result: Pointer)

  /** How a task came to be. Not part of the runtime's state; kept to say
      what a result means. */
  datatype Origin = Spawned | Selected(sources: seq<nat>)

  /** `Task`: the state and the subscribed senders guarded by its mutex, and
      the `Arc` strong count. A sender is named by its dispatcher thread. */
  datatype Task = Task(state: TaskState, waiters: seq<nat>, strong: int, origin: Origin)

  /** Where a worker is in `worker_loop`. */
  datatype Work =
    | Idle
    | Running(task: nat)
    | Returned(task: nat, value: Pointer)
    | Published(task: nat)

  /** Where a select dispatcher is. `early` tells whether the value was found
      in a source that was already done. */
  datatype Phase =
    | Subscribing
    | Receiving
    | Won(value: Pointer, early: bool)
    | Announced(value: Pointer, early: bool)
    | Finished(value: Pointer, early: bool)

  datatype Thread =
    | Worker(work: Work)
    /** `tyra_task_join_all`, and `tyra_task_await` as its one-handle case:
        `results` answers a prefix of `handles`. */
    | Joiner(handles: seq<nat>, results: seq<Pointer>, asleep: bool)
    /** The thread `tyra_task_select` starts: the first `subscribed` sources
        were found pending. */
    | Dispatcher(sources: seq<nat>, result: nat, subscribed: nat, phase: Phase, channel: seq<Pointer>)

  /** `handles` are the raw handles callers own and have not consumed; `log`
      lists the tasks in the order they became done and `returned` what each
      thunk returned (both history). */
  datatype State = State(
    tasks: seq<Task>,
    queue: seq<nat>,
    threads: seq<Thread>,
    handles: set<nat>,
    log: seq<nat>,
    returned: map<nat, Pointer>)

  datatype Step =
    | Spawn
    | Take(w: nat)
    | Run(w: nat, value: Pointer)
    | Publish(w: nat)
    | DropJob(w: nat)
    | JoinAll(hs: seq<nat>)
    | Check(j: nat)
    | Wake(j: nat)
    | Select(hs: seq<nat>)
    | Subscribe(d: nat)
    | Receive(d: nat)
    | Announce(d: nat)
    | DropClones(d: nat)

  // ----- the effect of a step

  function Repeat(v: Pointer, n: nat): (r: seq<Pointer>)
    ensures |r| == n && forall i :: 0 <= i < n ==> r[i] == v
  {
    seq(n, _ => v)
  }

  /** What completing task `t` with `v` does to thread number `k`: a joiner
      asleep on `t` is notified, and each sender of a dispatcher in the
      drained waiter list delivers one message. */
  function Notified(th: Thread, k: nat, waiters: seq<nat>, t: nat, v: Pointer): Thread {
    match th
    case Worker(_) => th
    case Joiner(hs, rs, asleep) =>
      if asleep && |rs| < |hs| && hs[|rs|] == t then Joiner(hs, rs, false) else th
    case Dispatcher(_, _, _, phase, channel) =>
      if phase.Finished? then th else th.(channel := channel + Repeat(v, multiset(waiters)[k]))
  }

  function NotifyAll(threads: seq<Thread>, waiters: seq<nat>, t: nat, v: Pointer): (r: seq<Thread>)
    ensures |r| == |threads|
    ensures forall k :: 0 <= k < |threads| ==> r[k] == Notified(threads[k], k, waiters, t, v)
  {
    seq(|threads|, k requires 0 <= k < |threads| => Notified(threads[k], k, waiters, t, v))
  }

  /** The locked section shared by workers and dispatchers: set `Done`, drain
      and send, notify. */
  function Complete(s: State, t: nat, v: Pointer): State
    requires t < |s.tasks|
  {
    s.(tasks := s.tasks[t := s.tasks[t].(state := Done(v), waiters := [])],
       threads := NotifyAll(s.threads, s.tasks[t].waiters, t, v),
       log := s.log + [t])
  }

  function SetThread(s: State, k: nat, th: Thread): State
    requires k < |s.threads|
  {
    s.(threads := s.threads[k := th])
  }

  /** Adds `by` to the strong count of `t`. */
  function Count(s: State, t: nat, amount: int): State
    requires t < |s.tasks|
  {
    s.(tasks := s.tasks[t := s.tasks[t].(strong := s.tasks[t].strong + amount)])
  }

  /** Adds `sign` to the strong count of every handle in `hs`, once per
      occurrence. */
  function CountAll(tasks: seq<Task>, hs: seq<nat>, sign: int): (r: seq<Task>)
    ensures |r| == |tasks|
    ensures forall t :: 0 <= t < |tasks| ==>
      r[t] == tasks[t].(strong := tasks[t].strong + sign * multiset(hs)[t])
  {
    seq(|tasks|, t requires 0 <= t < |tasks| => tasks[t].(strong := tasks[t].strong + sign * multiset(hs)[t]))
  }

  predicate IsWorker(s: State, w: nat) {
    w < |s.threads| && s.threads[w].Worker?
  }

  predicate IsDispatcher(s: State, d: nat) {
    d < |s.threads| && s.threads[d].Dispatcher?
  }

  predicate IsJoiner(s: State, j: nat) {
    j < |s.threads| && s.threads[j].Joiner? && |s.threads[j].results| < |s.threads[j].handles|
  }

  /** Distinct handles: each may be awaited once. */
  predicate NoRepeats(hs: seq<nat>) {
    forall i, j :: 0 <= i < j < |hs| ==> hs[i] != hs[j]
  }

  /** When a step can happen. The conditions on `JoinAll` and `Select` are the
      callers' contract: only handles still owned are passed, and a handle is
      awaited at most once. */
  predicate Enabled(s: State, step: Step) {
    match step
    case Spawn => true
    case Take(w) => IsWorker(s, w) && s.threads[w].work.Idle? && |s.queue| > 0
    case Run(w, _) => IsWorker(s, w) && s.threads[w].work.Running?
    case Publish(w) => IsWorker(s, w) && s.threads[w].work.Returned? && s.threads[w].work.task < |s.tasks|
    case DropJob(w) => IsWorker(s, w) && s.threads[w].work.Published? && s.threads[w].work.task < |s.tasks|
    case JoinAll(hs) => NoRepeats(hs) && forall h :: h in hs ==> h in s.handles
    case Check(j) =>
      && IsJoiner(s, j) && !s.threads[j].asleep
      && s.threads[j].handles[|s.threads[j].results|] < |s.tasks|
    case Wake(j) => IsJoiner(s, j) && s.threads[j].asleep
    case Select(hs) => |hs| > 0 && forall h :: h in hs ==> h in s.handles
    case Subscribe(d) =>
      && IsDispatcher(s, d) && s.threads[d].phase.Subscribing?
      && s.threads[d].subscribed < |s.threads[d].sources|
      && s.threads[d].sources[s.threads[d].subscribed] < |s.tasks|
    case Receive(d) => IsDispatcher(s, d) && s.threads[d].phase.Receiving? && |s.threads[d].channel| > 0
    case Announce(d) => IsDispatcher(s, d) && s.threads[d].phase.Won? && s.threads[d].result < |s.tasks|
    case DropClones(d) => IsDispatcher(s, d) && s.threads[d].phase.Announced? && s.threads[d].result < |s.tasks|
  }

  function Apply(s: State, step: Step): State
    requires Enabled(s, step)
  {
    match step
    case Spawn =>
      s.(tasks := s.tasks + [Task(Pending, [], 2, Spawned)],
         queue := s.queue + [|s.tasks|],
         handles := s.handles + {|s.tasks|})
    case Take(w) =>
      SetThread(s, w, Worker(Running(s.queue[0]))).(queue := s.queue[1..])
    case Run(w, v) =>
      var t := s.threads[w].work.task;
      SetThread(s, w, Worker(Returned(t, v))).(returned := s.returned[t := v])
    case Publish(w) =>
      var work := s.threads[w].work;
      SetThread(Complete(s, work.task, work.value), w, Worker(Published(work.task)))
    case DropJob(w) =>
      Count(SetThread(s, w, Worker(Idle)), s.threads[w].work.task, -1)
    case JoinAll(hs) =>
      s.(threads := s.threads + [Joiner(hs, [], false)],
         handles := s.handles - (set h | h in hs))
    case Check(j) =>
      var th := s.threads[j];
      var t := th.handles[|th.results|];
      if s.tasks[t].state.Pending? then SetThread(s, j, th.(asleep := true))
      else Count(SetThread(s, j, th.(results := th.results + [s.tasks[t].state.result])), t, -1)
    case Wake(j) =>
      SetThread(s, j, s.threads[j].(asleep := false))
    case Select(hs) =>
      var r := |s.tasks|;
      s.(tasks := CountAll(s.tasks, hs, 1) + [Task(Pending, [], 2, Selected(hs))],
         threads := s.threads + [Dispatcher(hs, r, 0, Subscribing, [])],
         handles := s.handles + {r})
    case Subscribe(d) =>
      var th := s.threads[d];
      var t := th.sources[th.subscribed];
      if s.tasks[t].state.Done? then SetThread(s, d, th.(phase := Won(s.tasks[t].state.result, true)))
      else
        var n := th.subscribed + 1;
        SetThread(s, d, th.(subscribed := n, phase := if n < |th.sources| then Subscribing else Receiving))
          .(tasks := s.tasks[t := s.tasks[t].(waiters := s.tasks[t].waiters + [d])])
    case Receive(d) =>
      var th := s.threads[d];
      SetThread(s, d, th.(phase := Won(th.channel[0], false), channel := th.channel[1..]))
    case Announce(d) =>
      var th := s.threads[d];
      var after := Complete(s, th.result, th.phase.value);
      SetThread(after, d, after.threads[d].(phase := Announced(th.phase.value, th.phase.early)))
    case DropClones(d) =>
      var th := s.threads[d];
      Count(SetThread(s, d, th.(phase := Finished(th.phase.value, th.phase.early)))
              .(tasks := CountAll(s.tasks, th.sources, -1)), th.result, -1)
  }

  /** `tyra_rt_init` with a pool of `n` workers. */
  function Init(n: nat): State {
    State([], [], seq(n, _ => Worker(Idle)), {}, [], map[])
  }

  /** A run is a sequence of steps, each enabled where it happens. */
  ghost predicate Reaches(s: State, steps: seq<Step>, end: State)
    decreases |steps|
  {
    if |steps| == 0 then s == end
    else Enabled(s, steps[0]) && Reaches(Apply(s, steps[0]), steps[1..], end)
  }
}
