/** What a history of events says about the loop and the connections of `ServerWrites`: which thread
    runs the loop, which names have a connection, and hence which writes wait in the queue. */
module WriteHistory {
  import opened EventLoops
  import opened ServerWrites

  /** Thread `t` has entered the loop by event `k` and not come back. */
  ghost predicate HeldBy(events: seq<Event>, n: nat, t: nat, k: nat) {
    && k < n <= |events| && events[k] == Run(t) && After(events[..k]).status == NotStarted
    && forall j :: k < j < n ==> !events[j].Return?
  }

  ghost predicate RunBy(events: seq<Event>, n: nat, t: nat) {
    exists k: nat :: HeldBy(events, n, t, k)
  }

  /** By event `k` a `run`, not a `run_no_wait`, has returned. */
  ghost predicate StoppedAt(events: seq<Event>, k: nat) {
    k < |events| && events[k] == Return(false) && exists t: nat :: RunBy(events, k, t)
  }

  ghost predicate StoppedBy(events: seq<Event>, n: nat) {
    exists k: nat :: k < n && StoppedAt(events, k)
  }

  /** Event `k` made a connection of that name, and nothing has removed it. */
  ghost predicate MadeAt(events: seq<Event>, n: nat, name: string, k: nat) {
    k < n <= |events| && events[k] == Connect(name) && forall j :: k < j < n ==> events[j] != Remove(name)
  }

  ghost predicate HasConnection(events: seq<Event>, n: nat, name: string) {
    exists k: nat :: MadeAt(events, n, name, k)
  }

  lemma RunByStep(events: seq<Event>, n: nat, t: nat)
    requires n < |events|
    ensures RunBy(events, n + 1, t) <==>
      (events[n] == Run(t) && After(events[..n]).status == NotStarted) || (RunBy(events, n, t) && !events[n].Return?)
  {
    var m := n + 1;
    if RunBy(events, n, t) {
      var k: nat :| HeldBy(events, n, t, k);
      assert !events[n].Return? ==> HeldBy(events, m, t, k);
    }
    if RunBy(events, m, t) {
      var k: nat :| HeldBy(events, m, t, k);
      assert k < n ==> HeldBy(events, n, t, k);
    }
    if events[n] == Run(t) && After(events[..n]).status == NotStarted { assert HeldBy(events, m, t, n); }
  }

  lemma StoppedByStep(events: seq<Event>, n: nat)
    requires n < |events|
    ensures StoppedBy(events, n + 1) <==> StoppedBy(events, n) || StoppedAt(events, n)
  {}

  lemma HasConnectionStep(events: seq<Event>, n: nat, name: string)
    requires n < |events|
    ensures HasConnection(events, n + 1, name) <==>
      events[n] == Connect(name) || (HasConnection(events, n, name) && events[n] != Remove(name))
  {
    var m := n + 1;
    if HasConnection(events, n, name) {
      var k: nat :| MadeAt(events, n, name, k);
      assert events[n] != Remove(name) ==> MadeAt(events, m, name, k);
    }
    if HasConnection(events, m, name) {
      var k: nat :| MadeAt(events, m, name, k);
      assert k < n ==> MadeAt(events, n, name, k);
    }
    if events[n] == Connect(name) { assert MadeAt(events, m, name, n); }
  }

  /** What an event does to the status of the loop. */
  lemma StatusStep(v: World, e: Event, t: nat)
    ensures var u := Step(v, e);
      && (u.status == Started && u.thread == t <==>
            (e == Run(t) && v.status == NotStarted) || (v.status == Started && v.thread == t && !e.Return?))
      && (u.status == Stopped <==> v.status == Stopped || (e == Return(false) && v.status == Started))
  {}

  lemma StoppedAtMeaning(events: seq<Event>, n: nat)
    requires n < |events|
    requires forall t: nat :: RunBy(events, n, t) <==>
      After(events[..n]).status == Started && After(events[..n]).thread == t
    ensures StoppedAt(events, n) <==> events[n] == Return(false) && After(events[..n]).status == Started
  {
    assert RunBy(events, n, After(events[..n]).thread) <==> After(events[..n]).status == Started;
  }

  /** The loop is run by exactly the thread that has entered it and not come back, and it is stopped
      exactly if some `run` has returned. */
  lemma {:induction false} LoopStatus(events: seq<Event>, n: nat)
    requires n <= |events|
    ensures forall t: nat :: RunBy(events, n, t) <==>
      After(events[..n]).status == Started && After(events[..n]).thread == t
    ensures StoppedBy(events, n) <==> After(events[..n]).status == Stopped
  {
    if n == 0 {
      assert events[..0] == [];
      return;
    }
    LoopStatus(events, n - 1);
    AfterSnoc(events, n - 1);
    forall t: nat ensures RunBy(events, n, t) <==>
      After(events[..n]).status == Started && After(events[..n]).thread == t
    {
      RunByStep(events, n - 1, t);
      StatusStep(After(events[..n - 1]), events[n - 1], t);
    }
    StoppedAtMeaning(events, n - 1);
    StoppedByStep(events, n - 1);
    StatusStep(After(events[..n - 1]), events[n - 1], 0);
  }

  /** A name has a connection exactly if one was made and not removed since. */
  lemma {:induction false} LiveNames(events: seq<Event>, n: nat, name: string)
    requires n <= |events|
    ensures name in After(events[..n]).live <==> HasConnection(events, n, name)
  {
    if n > 0 {
      LiveNames(events, n - 1, name);
      AfterSnoc(events, n - 1);
      HasConnectionStep(events, n - 1, name);
    } else {
      assert events[..0] == [];
    }
  }

  /** A `write_in_loop` waits exactly if its name has a connection, the calling thread is not the one
      that runs the loop, and the loop has not been stopped. */
  lemma WaitsIff(events: seq<Event>, n: nat)
    requires n < |events| && events[n].WriteInLoop?
    ensures |After(events[..n + 1]).waiting| > |After(events[..n]).waiting| <==>
      HasConnection(events, n, events[n].name) && !RunBy(events, n, events[n].thread) && !StoppedBy(events, n)
  {
    AfterSnoc(events, n);
    LoopStatus(events, n);
    LiveNames(events, n, events[n].name);
  }
}
