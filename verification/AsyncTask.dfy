/** `Async` of ae/async_task.cpp, running between the other threads: before and after each atomic
    action of a method any number of steps of the others may happen. */
module AsyncTask {
  import opened TaskQueue

  /** Where thread `t` stands after steps of the others. */
  ghost predicate Mine(s: State, end: State, t: nat) {
    |end.posters| == |s.posters| && t < |s.posters| && end.posters[t] == s.posters[t]
  }

  ghost predicate MineLoop(s: State, end: State) {
    && end.loop == s.loop && end.calling == s.calling && end.batch == s.batch
    && end.executed == s.executed && end.init == s.init && end.status == s.status
  }

  class Async {
    var handle: Init
    var callbacks: seq<Task>
    var batch: seq<Task>
    var calling: bool
    var loop: Loop
    var status: Status
    var posters: seq<Poster>
    var pending: bool
    var executed: seq<Task>
    var posted: seq<Task>

    function View(): State
      reads this
    {
      State(handle, status, posters, pending, loop, calling, callbacks, batch, posted, executed)
    }

    constructor (threads: nat)
      ensures View() == Initial(threads)
    {
      handle, status, loop, pending, calling := NoHandle, NotStarted, Polling, false, false;
      posters := seq(threads, _ => Idle);
      callbacks, batch, executed, posted := [], [], [], [];
    }

    /** One step of some thread. */
    method Perform(step: Step)
      requires Enabled(View(), step)
      modifies this
      ensures View() == Next(old(View()), step)
    {
      match step {
        case Push(t, task) =>
          callbacks, posted := callbacks + [task], posted + [task];
          posters := posters[t := Pushed];
        case CheckHandle(t) =>
          posters := posters[t := if handle == NoHandle then Idle else Sending];
        case Send(t) =>
          if handle == Initialised || handle == Sent { pending := true; }
          posters := posters[t := Idle];
        case AssignHandle => handle := Assigned;
        case InitHandle => handle, pending := Initialised, false;
        case InitSend => handle, pending := Sent, true;
        case Start => status := Started;
        case Return => status := NotStarted;
        case Wake => pending, loop := false, Woken;
        case Swap => callbacks, batch, loop := [], callbacks, Draining;
        case Call => executed, calling := executed + [batch[0]], true;
        case Pop => batch, calling := batch[1..], false;
        case Finish => loop := Polling;
      }
    }

    /** Any number of steps of the other actors. */
    method Interfere(me: Actor) returns (ghost trace: seq<Step>)
      requires Inv(View())
      modifies this
      ensures Others(old(View()), trace, View(), me) && Inv(View())
    {
      trace := [];
      var rounds: nat := *;
      while rounds > 0
        invariant Others(old(View()), trace, View(), me) && Inv(View())
      {
        var step: Step := *;
        if ActorOf(step) != me && Enabled(View(), step) {
          ghost var before := View();
          InvStep(before, step);
          Perform(step);
          assert IsRun(before, [step], View());
          RunAppend(old(View()), trace, before, [step], View());
          StepsOfAppend(trace, [step], me);
          trace := trace + [step];
        }
        rounds := rounds - 1;
      }
    }

    /** One own step between steps of the others. */
    method Take(step: Step) returns (ghost trace: seq<Step>)
      requires Inv(View()) && Enabled(View(), step)
      modifies this
      ensures trace != [] && trace[0] == step && Inv(View())
      ensures Others(Next(old(View()), step), trace[1..], View(), ActorOf(step))
      ensures IsRun(old(View()), trace, View()) && StepsOf(trace, ActorOf(step)) == [step]
    {
      InvStep(View(), step);
      Perform(step);
      trace := Interfere(ActorOf(step));
      assert ([step] + trace)[1..] == trace;
      trace := [step] + trace;
    }

    /** Called once by the loop thread before it runs; later calls find the handle. */
    method Init() returns (ghost trace: seq<Step>)
      requires Inv(View()) && (handle == NoHandle || handle == Sent)
      modifies this
      ensures Inv(View()) && handle == Sent && IsRun(old(View()), trace, View())
      ensures StepsOf(trace, LoopThread) ==
        if old(handle) == NoHandle then [AssignHandle, InitHandle, InitSend] else []
    {
      trace := [];
      if handle == NoHandle {
        trace := Extend(View(), [], AssignHandle);
        trace := Extend(old(View()), trace, InitHandle);
        trace := Extend(old(View()), trace, InitSend);
      }
    }

    /** An own step at the end of a run of `Take`s. */
    method Extend(ghost start: State, ghost run: seq<Step>, step: Step) returns (ghost trace: seq<Step>)
      requires Inv(View()) && Enabled(View(), step) && IsRun(start, run, View())
      modifies this
      ensures Inv(View()) && IsRun(start, trace, View())
      ensures StepsOf(trace, ActorOf(step)) == StepsOf(run, ActorOf(step)) + [step]
      ensures run + [step] <= trace
      ensures match ActorOf(step)
        case Thread(t) => Mine(Next(old(View()), step), View(), t)
        case LoopThread => MineLoop(Next(old(View()), step), View())
    {
      ghost var more := Take(step);
      trace := run + more;
      RunAppend(start, run, old(View()), more, View());
      StepsOfAppend(run, more, ActorOf(step));
      match ActorOf(step) {
        case Thread(t) => OthersKeepThread(Next(old(View()), step), more[1..], View(), t);
        case LoopThread => OthersKeepLoop(Next(old(View()), step), more[1..], View());
      }
    }

    /** `Async::runInThisLoop`, called in thread `t`: its own steps are one push, the test of the handle
        at position `check` of the trace, and one send if the handle had been assigned by then. */
    method RunInThisLoop(t: nat, callback: Task) returns (ghost trace: seq<Step>, ghost check: nat)
      requires Inv(View()) && t < |posters| && posters[t] == Idle
      modifies this
      ensures Inv(View()) && IsRun(old(View()), trace, View())
      ensures t < |posters| && posters[t] == Idle
      ensures check < |trace| && trace[check] == CheckHandle(t)
      ensures StepsOf(trace, Thread(t)) ==
        [Push(t, callback), CheckHandle(t)]
        + (if old(handle) != NoHandle || AssignHandle in trace[..check] then [Send(t)] else [])
    {
      ghost var run := Extend(View(), [], Push(t, callback));
      HandleOnceAssigned(old(View()), run, View());
      trace := SendIfHandle(t, old(View()), run);
      check := |run|;
      assert trace[check] == (run + [CheckHandle(t)])[check] && trace[..check] == run;
    }

    /** The test of the handle, and the send. */
    method SendIfHandle(t: nat, ghost start: State, ghost run: seq<Step>) returns (ghost trace: seq<Step>)
      requires Inv(View()) && IsRun(start, run, View()) && t < |posters| && posters[t] == Pushed
      modifies this
      ensures Inv(View()) && IsRun(start, trace, View()) && run + [CheckHandle(t)] <= trace
      ensures t < |posters| && posters[t] == Idle
      ensures StepsOf(trace, Thread(t)) ==
        StepsOf(run, Thread(t)) + [CheckHandle(t)] + (if old(handle) != NoHandle then [Send(t)] else [])
    {
      var hasHandle := handle != NoHandle;
      trace := Extend(start, run, CheckHandle(t));
      if hasHandle {
        trace := Extend(start, trace, Send(t));
      }
    }

    /** Runs the front task of the batch, then removes it. */
    method RunFront(ghost start: State, ghost run: seq<Step>) returns (ghost trace: seq<Step>)
      requires Inv(View()) && IsRun(start, run, View())
      requires loop == Draining && !calling && batch != []
      modifies this
      ensures Inv(View()) && IsRun(start, trace, View()) && loop == Draining && !calling
      ensures executed == old(executed) + [old(batch)[0]] && batch == old(batch)[1..]
    {
      trace := Extend(start, run, Call);
      trace := Extend(start, trace, Pop);
    }

    /** `Async::process`, called by the loop after a wake-up: runs all the tasks there are, in
        order; tasks posted meanwhile wait for the next wake-up. */
    method Process() returns (ghost trace: seq<Step>)
      requires Inv(View()) && loop == Woken
      modifies this
      ensures Inv(View()) && IsRun(old(View()), trace, View())
      ensures loop == Polling && executed == old(executed) + old(callbacks)
    {
      trace := Extend(View(), [], Swap);
      trace := DrainBatch(old(View()), trace);
      trace := Extend(old(View()), trace, Finish);
    }

    /** The loop of `process`: the batch taken out at the swap is run to the end. */
    method DrainBatch(ghost start: State, ghost run: seq<Step>) returns (ghost trace: seq<Step>)
      requires Inv(View()) && IsRun(start, run, View()) && loop == Draining && !calling
      modifies this
      ensures Inv(View()) && IsRun(start, trace, View()) && loop == Draining && !calling
      ensures batch == [] && executed == old(executed) + old(batch)
    {
      trace := run;
      while batch != []
        invariant Inv(View()) && IsRun(start, trace, View()) && loop == Draining && !calling
        invariant executed + batch == old(executed) + old(batch)
        decreases |batch|
      {
        assert batch == [batch[0]] + batch[1..];
        assert executed + [batch[0]] + batch[1..] == executed + batch;
        trace := RunFront(start, trace);
      }
    }
  }
}
