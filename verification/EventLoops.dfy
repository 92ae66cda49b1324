/** `EventLoop` of ae/event_loop.cpp: its status, and where a function given to it runs. Its queue
    stands for that of `TaskQueue` as `TaskQueue.OutsideIsFifo` shows it: first in, first out.
    Testing the status and setting it is one step. */
module EventLoops {
  import opened Options

  datatype Status = NotStarted | Started | Stopped

  class EventLoop<T> {
    var status: Status
    var loopThread: nat
    var tasks: seq<T>

    constructor ()
      ensures status == NotStarted && tasks == []
    {
      status, loopThread, tasks := NotStarted, 0, [];
    }

    /** The first half of `run` and of `run_no_wait`. A loop is entered by one thread at a time, and
        never again once `run` has returned. */
    method Enter(me: nat) returns (entered: bool)
      modifies this
      ensures tasks == old(tasks) && entered == (old(status) == NotStarted)
      ensures if entered then status == Started && loopThread == me
        else status == old(status) && loopThread == old(loopThread)
    {
      entered := status == NotStarted;
      if entered {
        loopThread := me;
        status := Started;
      }
    }

    /** libuv returns: after `run_no_wait` the loop may be run again. */
    method Leave(noWait: bool)
      requires status == Started
      modifies this
      ensures tasks == old(tasks) && loopThread == old(loopThread)
      ensures status == if noWait then NotStarted else Stopped
    {
      status := if noWait then NotStarted else Stopped;
    }

    predicate RunsHere(me: nat)
      reads this
    {
      (status == Started && me == loopThread) || status == Stopped
    }

    /** `run_in_this_loop`, called in thread `me`: the caller runs the function at once, past any
        task already queued, or it is queued behind all of them. */
    method RunInThisLoop(me: nat, func: Option<T>) returns (direct: bool)
      modifies this`tasks
      ensures direct <==> func.Some? && RunsHere(me)
      ensures tasks == if func.Some? && !RunsHere(me) then old(tasks) + [func.value] else old(tasks)
    {
      direct := false;
      if func == None {
        return;
      }
      if (status == Started && me == loopThread) || status == Stopped {
        direct := true;
      } else {
        tasks := tasks + [func.value];
      }
    }
  }
}
