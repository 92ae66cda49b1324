/** The cross-thread task queue of ae/async_task.cpp as a protocol between any number of posting
    threads and one loop thread. Each step is one atomic action: a critical section, the test of
    the handle, one call into libuv, or one move of the loop. Memory is sequentially consistent. */
module TaskQueue {

  type Task = string

  /** `Async::init`: the handle pointer is set before the handle is initialised, and the wake-up it
      sends for tasks posted earlier comes last. */
  datatype Init = NoHandle | Assigned | Initialised | Sent

  /** `Async::runInThisLoop` in one thread: between the push and the test of the handle, and
      between that test and the send. */
  datatype Poster = Idle | Pushed | Sending

  /** The loop thread: polling, between a wake-up and the swap, or draining a batch. */
  datatype Loop = Polling | Woken | Draining

  datatype Status = NotStarted | Started

  /** `batch` is the local queue of `process`; its front stays in it while it is called. `posted`
      and `executed` record the history. */
  datatype State = State(init: Init, status: Status, posters: seq<Poster>, pending: bool, loop: Loop,
                         calling: bool, queue: seq<Task>, batch: seq<Task>,
                         posted: seq<Task>, executed: seq<Task>)

  datatype Step =
    | Push(t: nat, task: Task) | CheckHandle(t: nat) | Send(t: nat)
    | AssignHandle | InitHandle | InitSend
    | Start | Return
    | Wake | Swap | Call | Pop | Finish

  function Initial(threads: nat): State {
    State(NoHandle, NotStarted, seq(threads, _ => Idle), false, Polling, false, [], [], [], [])
  }

  predicate Enabled(s: State, step: Step) {
    match step
    case Push(t, _) => t < |s.posters| && s.posters[t] == Idle
    case CheckHandle(t) => t < |s.posters| && s.posters[t] == Pushed
    case Send(t) => t < |s.posters| && s.posters[t] == Sending
    case AssignHandle => s.init == NoHandle
    case InitHandle => s.init == Assigned
    case InitSend => s.init == Initialised
    case Start => s.init == Sent && s.status == NotStarted
    case Return => s.status == Started && s.loop == Polling
    case Wake => s.status == Started && s.loop == Polling && s.pending
    case Swap => s.loop == Woken
    case Call => s.loop == Draining && !s.calling && s.batch != []
    case Pop => s.loop == Draining && s.calling && s.batch != []
    case Finish => s.loop == Draining && s.batch == []
  }

  /** Wake-ups coalesce into one pending flag. A send on a handle that is assigned but not yet
      initialised is taken to be lost, and initialising the handle clears the flag. */
  function Next(s: State, step: Step): State
    requires Enabled(s, step)
  {
    match step
    case Push(t, task) => s.(posters := s.posters[t := Pushed], queue := s.queue + [task], posted := s.posted + [task])
    case CheckHandle(t) => s.(posters := s.posters[t := if s.init == NoHandle then Idle else Sending])
    case Send(t) => s.(posters := s.posters[t := Idle], pending := s.pending || s.init in {Initialised, Sent})
    case AssignHandle => s.(init := Assigned)
    case InitHandle => s.(init := Initialised, pending := false)
    case InitSend => s.(init := Sent, pending := true)
    case Start => s.(status := Started)
    case Return => s.(status := NotStarted)
    case Wake => s.(pending := false, loop := Woken)
    case Swap => s.(loop := Draining, batch := s.queue, queue := [])
    case Call => s.(calling := true, executed := s.executed + [s.batch[0]])
    case Pop => s.(calling := false, batch := s.batch[1..])
    case Finish => s.(loop := Polling)
  }

  /** `steps` is a run from `s` to `end`: any interleaving of the threads. */
  predicate IsRun(s: State, steps: seq<Step>, end: State)
    decreases |steps|
  {
    if steps == [] then s == end
    else Enabled(s, steps[0]) && IsRun(Next(s, steps[0]), steps[1..], end)
  }

  // ---------- What every step keeps ----------

  /** The batch without a task that is being called, which counts as executed. */
  function Unexecuted(s: State): seq<Task> {
    if s.calling && s.batch != [] then s.batch[1..] else s.batch
  }

  /** Executed tasks, then the batch, then the shared queue: the exact posting order. */
  ghost predicate Conserved(s: State) {
    s.executed + Unexecuted(s) + s.queue == s.posted
  }

  ghost predicate SomeoneWillSend(s: State) {
    exists t :: 0 <= t < |s.posters| && s.posters[t] != Idle
  }

  /** A task in the queue is not forgotten. */
  ghost predicate NoLostWakeUp(s: State) {
    s.queue != [] ==> s.pending || SomeoneWillSend(s) || s.loop == Woken || s.init != Sent
  }

  ghost predicate Consistent(s: State) {
    && (s.loop != Draining ==> s.batch == [] && !s.calling)
    && (s.calling ==> s.batch != [])
    && (s.loop != Polling ==> s.status == Started)
    && (s.status == Started ==> s.init == Sent)
  }

  ghost predicate Inv(s: State) {
    Consistent(s) && Conserved(s) && NoLostWakeUp(s)
  }

  lemma PostersKept(s: State, t: nat, p: Poster, s': State)
    requires t < |s.posters| && s'.posters == s.posters[t := p]
    ensures p != Idle ==> SomeoneWillSend(s')
    ensures s.posters[t] == Idle && SomeoneWillSend(s) ==> SomeoneWillSend(s')
  {
    if p != Idle { assert s'.posters[t] != Idle; }
    if s.posters[t] == Idle && SomeoneWillSend(s) {
      var u :| 0 <= u < |s.posters| && s.posters[u] != Idle;
      assert s'.posters[u] != Idle;
    }
  }

  lemma ConservedStep(s: State, step: Step)
    requires Enabled(s, step) && Consistent(s) && Conserved(s)
    ensures Conserved(Next(s, step))
  {
    var s' := Next(s, step);
    match step {
      case Push(_, task) =>
        assert s.executed + Unexecuted(s) + (s.queue + [task]) == s.posted + [task];
      case Swap =>
        assert s'.executed + Unexecuted(s') + [] == s.executed + [] + s.queue;
      case Call =>
        assert s.executed + s.batch == s'.executed + s.batch[1..];
      case _ =>
    }
  }

  lemma WakeUpStep(s: State, step: Step)
    requires Enabled(s, step) && Consistent(s) && NoLostWakeUp(s)
    ensures NoLostWakeUp(Next(s, step))
  {
    var s' := Next(s, step);
    match step {
      case Push(t, _) => PostersKept(s, t, Pushed, s');
      case CheckHandle(t) => PostersKept(s, t, s'.posters[t], s');
      case Send(t) => PostersKept(s, t, Idle, s');
      case _ => if SomeoneWillSend(s) { assert s'.posters == s.posters; assert SomeoneWillSend(s'); }
    }
  }

  lemma InvStep(s: State, step: Step)
    requires Enabled(s, step) && Inv(s)
    ensures Inv(Next(s, step))
  {
    ConservedStep(s, step);
    WakeUpStep(s, step);
  }

  /** Over every interleaving: nothing is lost, reordered or run twice, and no wake-up is lost,
      not even for tasks posted before the handle exists. */
  lemma {:induction false} RunKeepsInv(s: State, steps: seq<Step>, end: State)
    requires Inv(s) && IsRun(s, steps, end)
    ensures Inv(end)
    decreases |steps|
  {
    if steps != [] {
      InvStep(s, steps[0]);
      RunKeepsInv(Next(s, steps[0]), steps[1..], end);
    }
  }

  /** Each posted task is run at most once and in posting order. */
  lemma ExecutedInOrder(threads: nat, steps: seq<Step>, end: State)
    requires IsRun(Initial(threads), steps, end)
    ensures end.executed <= end.posted
  {
    RunKeepsInv(Initial(threads), steps, end);
    assert end.executed + Unexecuted(end) + end.queue == end.executed + (Unexecuted(end) + end.queue);
  }

  // ---------- Seen from outside ----------

  /** The tasks not executed yet, in the batch or in the shared queue. */
  function Outside(s: State): seq<Task> {
    Unexecuted(s) + s.queue
  }

  /** A FIFO queue: a post appends, a call takes the front, and nothing else is visible. */
  function Fifo(queue: seq<Task>, step: Step): seq<Task> {
    match step
    case Push(_, task) => queue + [task]
    case Call => if queue == [] then [] else queue[1..]
    case _ => queue
  }

  function FifoRun(queue: seq<Task>, steps: seq<Step>): seq<Task>
    decreases |steps|
  {
    if steps == [] then queue else FifoRun(Fifo(queue, steps[0]), steps[1..])
  }

  lemma OutsideStep(s: State, step: Step)
    requires Enabled(s, step) && Consistent(s)
    ensures Outside(Next(s, step)) == Fifo(Outside(s), step)
    ensures step == Call ==> Outside(s) != [] && Next(s, step).executed == s.executed + [Outside(s)[0]]
  {
    match step {
      case Push(_, task) =>
        assert Unexecuted(s) + (s.queue + [task]) == Unexecuted(s) + s.queue + [task];
      case Swap =>
        assert s.queue + [] == [] + s.queue;
      case Call =>
        assert (s.batch + s.queue)[1..] == s.batch[1..] + s.queue;
      case _ =>
    }
  }

  /** The batch, the swap and the coalesced wake-ups cannot be told from one FIFO queue of which
      each call runs the front: over every interleaving. */
  lemma {:induction false} OutsideIsFifo(s: State, steps: seq<Step>, end: State)
    requires Inv(s) && IsRun(s, steps, end)
    ensures Outside(end) == FifoRun(Outside(s), steps)
    decreases |steps|
  {
    if steps != [] {
      OutsideStep(s, steps[0]);
      InvStep(s, steps[0]);
      OutsideIsFifo(Next(s, steps[0]), steps[1..], end);
    }
  }

  // ---------- Progress ----------

  /** A step that neither posts nor leaves the loop. */
  predicate IsProgress(step: Step) {
    !step.Push? && !step.Return?
  }

  ghost predicate Quiescent(s: State) {
    forall step :: IsProgress(step) ==> !Enabled(s, step)
  }

  /** When nothing can move any more, every posted task has been run, once and in order. */
  lemma QuiescentIsDone(s: State)
    requires Inv(s) && Quiescent(s)
    ensures s.executed == s.posted && s.queue == [] && s.batch == []
  {
    assert !Enabled(s, AssignHandle) && !Enabled(s, InitHandle) && !Enabled(s, InitSend) && !Enabled(s, Start);
    assert !Enabled(s, Wake) && !Enabled(s, Swap) && !Enabled(s, Call) && !Enabled(s, Pop) && !Enabled(s, Finish);
    forall t: nat | t < |s.posters| ensures s.posters[t] == Idle {
      assert !Enabled(s, CheckHandle(t)) && !Enabled(s, Send(t));
    }
    assert s.executed + [] + [] == s.executed;
  }

  function PosterWork(posters: seq<Poster>): nat {
    if posters == [] then 0
    else PosterWork(posters[1..]) + (match posters[0] case Idle => 0 case Pushed => 6 case Sending => 5)
  }

  /** An upper bound on the progress steps left. */
  function Work(s: State): nat {
    PosterWork(s.posters)
    + (match s.init case NoHandle => 7 case Assigned => 6 case Initialised => 5 case Sent => 0)
    + (if s.status == NotStarted then 1 else 0)
    + (if s.pending then 4 else 0)
    + (match s.loop case Polling => 0 case Woken => 3 case Draining => 2)
    + 2 * |s.queue| + (if s.calling && s.batch != [] then 2 * |s.batch| - 1 else 2 * |s.batch|)
  }

  lemma {:induction false} PosterWorkUpdate(posters: seq<Poster>, t: nat, p: Poster)
    requires t < |posters|
    ensures PosterWork(posters[t := p]) - PosterWork([p]) == PosterWork(posters) - PosterWork([posters[t]])
  {
    if t == 0 {
      assert posters[t := p][1..] == posters[1..];
    } else {
      assert posters[t := p][1..] == posters[1..][t - 1 := p];
      PosterWorkUpdate(posters[1..], t - 1, p);
    }
  }

  lemma WorkDecreases(s: State, step: Step)
    requires Enabled(s, step) && IsProgress(step) && Consistent(s)
    ensures Work(Next(s, step)) < Work(s)
  {
    match step {
      case CheckHandle(t) => PosterWorkUpdate(s.posters, t, Next(s, step).posters[t]);
      case Send(t) => PosterWorkUpdate(s.posters, t, Idle);
      case _ =>
    }
  }

  /** Once posting stops, every interleaving of the remaining steps comes to an end within a bound
      known in advance, and then all tasks have been run. */
  lemma {:induction false} AllTasksRun(s: State, steps: seq<Step>, end: State)
    requires Inv(s) && IsRun(s, steps, end) && forall step :: step in steps ==> IsProgress(step)
    ensures |steps| <= Work(s) && end.posted == s.posted
    ensures Quiescent(end) ==> end.executed == s.posted
    decreases |steps|
  {
    if steps == [] {
      if Quiescent(end) { QuiescentIsDone(end); }
    } else {
      var next := Next(s, steps[0]);
      assert steps[0] in steps;
      InvStep(s, steps[0]);
      WorkDecreases(s, steps[0]);
      AllTasksRun(next, steps[1..], end);
    }
  }

  /** From every reachable state the remaining steps can be taken to the end. */
  lemma CanFinish(s: State) returns (steps: seq<Step>, end: State)
    requires Inv(s)
    ensures IsRun(s, steps, end) && Quiescent(end) && forall step :: step in steps ==> IsProgress(step)
    decreases Work(s)
  {
    if step :| IsProgress(step) && Enabled(s, step) {
      InvStep(s, step);
      WorkDecreases(s, step);
      steps, end := CanFinish(Next(s, step));
      steps := [step] + steps;
    } else {
      return [], s;
    }
  }

  // ---------- The handle ----------

  /** No thread stands at its send while there is no handle. */
  ghost predicate SendersHaveHandle(s: State) {
    s.init == NoHandle ==> Sending !in s.posters
  }

  /** The handle pointer is null until it is assigned, and never again. */
  lemma {:induction false} HandleOnceAssigned(s: State, steps: seq<Step>, end: State)
    requires IsRun(s, steps, end)
    ensures end.init == NoHandle <==> s.init == NoHandle && AssignHandle !in steps
    ensures SendersHaveHandle(s) ==> SendersHaveHandle(end)
    decreases |steps|
  {
    if steps != [] {
      HandleOnceAssigned(Next(s, steps[0]), steps[1..], end);
    }
  }

  lemma {:induction false} RunUntil(s: State, steps: seq<Step>, end: State, n: nat) returns (mid: State)
    requires IsRun(s, steps, end) && n <= |steps|
    ensures IsRun(s, steps[..n], mid) && IsRun(mid, steps[n..], end)
    decreases n
  {
    if n == 0 {
      mid := s;
      assert steps[0..] == steps;
    } else {
      mid := RunUntil(Next(s, steps[0]), steps[1..], end, n - 1);
      assert steps[..n][1..] == steps[1..][..n - 1];
    }
  }

  /** In no interleaving of any number of threads is a wake-up sent on a null handle. */
  lemma NoSendBeforeAssign(threads: nat, steps: seq<Step>, end: State, k: nat)
    requires IsRun(Initial(threads), steps, end) && k < |steps| && steps[k].Send?
    ensures AssignHandle in steps[..k]
  {
    var mid := RunUntil(Initial(threads), steps, end, k);
    HandleOnceAssigned(Initial(threads), steps[..k], mid);
    assert steps[k..][0] == steps[k];
    assert mid.posters[steps[k].t] == Sending;
  }

  // ---------- Runs put together ----------

  lemma {:induction false} RunAppend(s: State, left: seq<Step>, mid: State, right: seq<Step>, end: State)
    requires IsRun(s, left, mid) && IsRun(mid, right, end)
    ensures IsRun(s, left + right, end)
    decreases |left|
  {
    if left == [] {
      assert left + right == right;
    } else {
      assert (left + right)[1..] == left[1..] + right;
      RunAppend(Next(s, left[0]), left[1..], mid, right, end);
    }
  }

  datatype Actor = Thread(t: nat) | LoopThread

  function ActorOf(step: Step): Actor {
    match step
    case Push(t, _) => Thread(t)
    case CheckHandle(t) => Thread(t)
    case Send(t) => Thread(t)
    case _ => LoopThread
  }

  /** The steps of one actor in a run. */
  function StepsOf(steps: seq<Step>, a: Actor): seq<Step> {
    if steps == [] then []
    else (if ActorOf(steps[0]) == a then [steps[0]] else []) + StepsOf(steps[1..], a)
  }

  lemma {:induction false} StepsOfAppend(left: seq<Step>, right: seq<Step>, a: Actor)
    ensures StepsOf(left + right, a) == StepsOf(left, a) + StepsOf(right, a)
  {
    if left == [] {
      assert left + right == right;
    } else {
      assert (left + right)[1..] == left[1..] + right;
      StepsOfAppend(left[1..], right, a);
      var first := if ActorOf(left[0]) == a then [left[0]] else [];
      assert first + (StepsOf(left[1..], a) + StepsOf(right, a)) == first + StepsOf(left[1..], a) + StepsOf(right, a);
    }
  }

  /** A run in which `a` takes no step. */
  ghost predicate Others(s: State, steps: seq<Step>, end: State, a: Actor) {
    IsRun(s, steps, end) && StepsOf(steps, a) == []
  }

  /** While the others move, a thread stays where it is in its code. */
  lemma {:induction false} OthersKeepThread(s: State, steps: seq<Step>, end: State, t: nat)
    requires Others(s, steps, end, Thread(t)) && t < |s.posters|
    ensures |end.posters| == |s.posters| && end.posters[t] == s.posters[t]
    decreases |steps|
  {
    if steps != [] {
      OthersKeepThread(Next(s, steps[0]), steps[1..], end, t);
    }
  }

  /** While the others move, the loop keeps its place, its batch and what it has executed, and the
      shared queue only grows. */
  lemma {:induction false} OthersKeepLoop(s: State, steps: seq<Step>, end: State)
    requires Others(s, steps, end, LoopThread)
    ensures end.loop == s.loop && end.calling == s.calling && end.batch == s.batch
    ensures end.executed == s.executed && s.queue <= end.queue
    ensures end.init == s.init && end.status == s.status
    decreases |steps|
  {
    if steps != [] {
      OthersKeepLoop(Next(s, steps[0]), steps[1..], end);
    }
  }
}
