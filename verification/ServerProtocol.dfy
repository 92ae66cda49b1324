/** What a TCP server promises about its connections: a plain state machine with a clock of
    seconds, in which every idle connection has one deadline. `TcpServers` implements it with
    callbacks, reference counts and a timer wheel. */
module ServerProtocol {

  /** Open; asked to close and waiting for libuv; closed, notified and forgotten. */
  datatype Phase = Open | Closing | Closed

  /** `connected` says whether writes are still tried. `last` is the tick of the accept or of the
      last message. `shutdowns` are half-closes libuv has not completed. `closeCalls` and `notices`
      count the calls of `uv_close` and of the close notification for this connection. */
  datatype Session = Session(name: string, phase: Phase, connected: bool, last: nat,
                             shutdowns: nat, closeCalls: nat, notices: nat)

  /** A timeout of zero means that idle connections are kept. */
  datatype Server = Server(timeout: nat, now: nat, listening: bool, sessions: seq<Session>)

  /** What may happen, in any order. Connections are numbered in the order they were accepted. */
  datatype Event =
    | Accept(name: string) | Message(i: nat) | ReadError(i: nat)
    | Eof(i: nat) | ShutdownDone(i: nat) | CloseDone(i: nat)
    | UserClose(i: nat) | Tick | ServerClosed

  function Initial(timeout: nat): Server {
    Server(timeout, 0, true, [])
  }

  ghost predicate NameInUse(s: Server, name: string) {
    exists i :: 0 <= i < |s.sessions| && s.sessions[i].phase != Closed && s.sessions[i].name == name
  }

  /** The environment: peer names of live connections differ; a closed handle reports nothing more;
      libuv completes a half-close before the close of the same handle; users close open
      connections only. */
  ghost predicate Enabled(s: Server, e: Event) {
    match e
    case Accept(name) => s.listening && !NameInUse(s, name)
    case Message(i) => i < |s.sessions| && s.sessions[i].phase != Closed
    case ReadError(i) => i < |s.sessions| && s.sessions[i].phase != Closed
    case Eof(i) => i < |s.sessions| && s.sessions[i].phase != Closed
    case ShutdownDone(i) => i < |s.sessions| && s.sessions[i].phase != Closed && s.sessions[i].shutdowns > 0
    case CloseDone(i) => i < |s.sessions| && s.sessions[i].phase == Closing && s.sessions[i].shutdowns == 0
    case UserClose(i) => i < |s.sessions| && s.sessions[i].phase == Open
    case Tick => true
    case ServerClosed => s.listening
  }

  function AskToClose(c: Session): Session {
    if c.phase == Open then c.(phase := Closing, closeCalls := c.closeCalls + 1) else c
  }

  function Touch(c: Session, now: nat): Session {
    if c.phase == Open then c.(last := now) else c
  }

  /** The deadline: the `timeout`-th tick after the accept or the last message. */
  function Expire(c: Session, now: nat, timeout: nat): Session {
    if timeout > 0 && c.last + timeout == now then AskToClose(c) else c
  }

  function Next(s: Server, e: Event): (s': Server)
    requires Enabled(s, e)
  {
    match e
    case Accept(name) => s.(sessions := s.sessions + [Session(name, Open, true, s.now, 0, 0, 0)])
    case Message(i) => s.(sessions := s.sessions[i := Touch(s.sessions[i], s.now)])
    case ReadError(i) => s.(sessions := s.sessions[i := AskToClose(s.sessions[i].(connected := false))])
    case Eof(i) =>
      var c := s.sessions[i];
      s.(sessions := s.sessions[i := c.(connected := false, shutdowns := c.shutdowns + 1)])
    case ShutdownDone(i) =>
      var c := s.sessions[i];
      s.(sessions := s.sessions[i := AskToClose(c.(shutdowns := c.shutdowns - 1))])
    case CloseDone(i) =>
      var c := s.sessions[i];
      s.(sessions := s.sessions[i := c.(phase := Closed, notices := c.notices + 1)])
    case UserClose(i) => s.(sessions := s.sessions[i := AskToClose(s.sessions[i])])
    case Tick => s.(now := s.now + 1, sessions := Expired(s.sessions, s.now + 1, s.timeout))
    case ServerClosed => s.(listening := false, sessions := AllAsked(s.sessions))
  }

  function Expired(sessions: seq<Session>, now: nat, timeout: nat): (r: seq<Session>)
    ensures |r| == |sessions|
    ensures forall i :: 0 <= i < |r| ==> r[i] == Expire(sessions[i], now, timeout)
  {
    seq(|sessions|, i requires 0 <= i < |sessions| => Expire(sessions[i], now, timeout))
  }

  function AllAsked(sessions: seq<Session>): (r: seq<Session>)
    ensures |r| == |sessions|
    ensures forall i :: 0 <= i < |r| ==> r[i] == AskToClose(sessions[i])
  {
    seq(|sessions|, i requires 0 <= i < |sessions| => AskToClose(sessions[i]))
  }

  ghost predicate IsRun(s: Server, events: seq<Event>, end: Server)
    decreases |events|
  {
    if events == [] then s == end
    else Enabled(s, events[0]) && IsRun(Next(s, events[0]), events[1..], end)
  }

  // ---------- What every event keeps ----------

  /** Each connection is in exactly one phase: it is closed with libuv once, when it stops being
      open, and its notification fires once, when it is closed. */
  ghost predicate Accounted(s: Server, c: Session) {
    && c.closeCalls == (if c.phase == Open then 0 else 1)
    && c.notices == (if c.phase == Closed then 1 else 0)
    && (c.phase == Closed ==> c.shutdowns == 0)
    && (c.shutdowns > 0 ==> !c.connected)
    && c.last <= s.now
    && (c.phase == Open && s.timeout > 0 ==> s.now < c.last + s.timeout)
    && (c.phase == Open ==> s.listening)
  }

  ghost predicate Distinct(s: Server, i: nat, j: nat)
    requires i < |s.sessions| && j < |s.sessions|
  {
    var c, d := s.sessions[i], s.sessions[j];
    c.name == d.name && c.phase != Closed && d.phase != Closed ==> i == j
  }

  ghost predicate Inv(s: Server) {
    && (forall i: nat {:trigger Accounted(s, s.sessions[i])} :: i < |s.sessions| ==> Accounted(s, s.sessions[i]))
    && (forall i: nat, j: nat {:trigger Distinct(s, i, j)} ::
          i < |s.sessions| && j < |s.sessions| ==> Distinct(s, i, j))
  }

  lemma InvStep(s: Server, e: Event)
    requires Inv(s) && Enabled(s, e)
    ensures Inv(Next(s, e))
  {
    var s' := Next(s, e);
    forall i: nat | i < |s'.sessions| ensures Accounted(s', s'.sessions[i]) {
      AccountedStep(s, e, i);
    }
    forall i: nat, j: nat | i < |s'.sessions| && j < |s'.sessions| ensures Distinct(s', i, j) {
      DistinctStep(s, e, i, j);
    }
  }

  lemma AccountedStep(s: Server, e: Event, i: nat)
    requires Inv(s) && Enabled(s, e) && i < |Next(s, e).sessions|
    ensures Accounted(Next(s, e), Next(s, e).sessions[i])
  {
    if i < |s.sessions| { assert Accounted(s, s.sessions[i]); }
  }

  lemma DistinctStep(s: Server, e: Event, i: nat, j: nat)
    requires Inv(s) && Enabled(s, e) && i < |Next(s, e).sessions| && j < |Next(s, e).sessions|
    ensures Distinct(Next(s, e), i, j)
  {
    if i < |s.sessions| && j < |s.sessions| { assert Distinct(s, i, j); }
  }

  /** Over every interleaving each accepted connection is closed and notified exactly once. */
  lemma {:induction false} RunKeepsInv(s: Server, events: seq<Event>, end: Server)
    requires Inv(s) && IsRun(s, events, end)
    ensures Inv(end) && |s.sessions| <= |end.sessions|
    decreases |events|
  {
    if events != [] {
      InvStep(s, events[0]);
      RunKeepsInv(Next(s, events[0]), events[1..], end);
    }
  }

  /** Once the server is closed and libuv has completed what it was asked, no connection is left
      and every one was notified once. */
  lemma ClosedServerDrains(timeout: nat, events: seq<Event>, end: Server)
    requires IsRun(Initial(timeout), events, end) && !end.listening
    requires forall i: nat :: !Enabled(end, CloseDone(i)) && !Enabled(end, ShutdownDone(i))
    ensures forall i :: 0 <= i < |end.sessions| ==> end.sessions[i].phase == Closed && end.sessions[i].notices == 1
    ensures forall name :: !NameInUse(end, name)
  {
    assert Inv(Initial(timeout));
    RunKeepsInv(Initial(timeout), events, end);
    forall i: nat | i < |end.sessions| ensures end.sessions[i].phase == Closed && end.sessions[i].notices == 1 {
      assert Accounted(end, end.sessions[i]);
      assert !Enabled(end, CloseDone(i)) && !Enabled(end, ShutdownDone(i));
    }
  }

  /** The reports libuv still owes: one for each half-close, and one for each connection that is not
      closed. */
  function Owed(sessions: seq<Session>): nat {
    if sessions == [] then 0
    else sessions[0].shutdowns + (if sessions[0].phase.Closed? then 0 else 1) + Owed(sessions[1..])
  }

  lemma {:induction false} OwedUpdate(sessions: seq<Session>, i: nat, c: Session)
    requires i < |sessions|
    ensures Owed(sessions[i := c]) + sessions[i].shutdowns + (if sessions[i].phase.Closed? then 0 else 1)
      == Owed(sessions) + c.shutdowns + (if c.phase.Closed? then 0 else 1)
  {
    if i == 0 {
      assert sessions[i := c][1..] == sessions[1..];
    } else {
      assert sessions[i := c][1..] == sessions[1..][i - 1 := c];
      OwedUpdate(sessions[1..], i - 1, c);
    }
  }

  lemma OwedOne(s: Server, i: nat) returns (e: Event)
    requires Inv(s) && !s.listening && i < |s.sessions| && s.sessions[i].phase != Closed
    ensures (e.CloseDone? || e.ShutdownDone?) && Enabled(s, e) && !Next(s, e).listening
    ensures Owed(Next(s, e).sessions) + 1 == Owed(s.sessions)
  {
    assert Accounted(s, s.sessions[i]);
    e := if s.sessions[i].shutdowns > 0 then ShutdownDone(i) else CloseDone(i);
    OwedUpdate(s.sessions, i, Next(s, e).sessions[i]);
  }

  /** Such an end can be reached from every state of a closed server, and by the reports owed alone:
      as many of them as there are. */
  lemma {:induction false} CanDrain(s: Server) returns (events: seq<Event>, end: Server)
    requires Inv(s) && !s.listening
    ensures IsRun(s, events, end) && !end.listening && |events| == Owed(s.sessions)
    ensures forall e :: e in events ==> e.CloseDone? || e.ShutdownDone?
    ensures forall i: nat :: !Enabled(end, CloseDone(i)) && !Enabled(end, ShutdownDone(i))
    decreases Owed(s.sessions)
  {
    if i: nat :| i < |s.sessions| && s.sessions[i].phase != Closed {
      var e := OwedOne(s, i);
      InvStep(s, e);
      var more, last := CanDrain(Next(s, e));
      events, end := [e] + more, last;
    } else {
      forall i: nat | i < |s.sessions| ensures s.sessions[i].phase == Closed && s.sessions[i].shutdowns == 0 {
        assert Accounted(s, s.sessions[i]);
      }
      NothingOwed(s.sessions);
      events, end := [], s;
    }
  }

  lemma {:induction false} NothingOwed(sessions: seq<Session>)
    requires forall i: nat :: i < |sessions| ==> sessions[i].phase == Closed && sessions[i].shutdowns == 0
    ensures Owed(sessions) == 0
  {
    if sessions != [] { NothingOwed(sessions[1..]); }
  }

  // ---------- The idle timeout over whole runs ----------

  function Ticks(events: seq<Event>): nat {
    if events == [] then 0 else (if events[0] == Tick then 1 else 0) + Ticks(events[1..])
  }

  /** The event neither is a message of connection `i` nor asks for its close: a half-close of the
      peer alone does not. */
  predicate Spares(e: Event, i: nat) {
    match e
    case Message(j) => i != j
    case ReadError(j) => i != j
    case ShutdownDone(j) => i != j
    case CloseDone(j) => i != j
    case UserClose(j) => i != j
    case ServerClosed => false
    case _ => true
  }

  /** An open connection that hears nothing more, half-closed or not, stays open before its
      deadline and is asked to close at exactly that tick. */
  lemma {:induction false} IdleTimeout(s: Server, events: seq<Event>, end: Server, i: nat)
    requires Inv(s) && IsRun(s, events, end) && forall e :: e in events ==> Spares(e, i)
    requires i < |s.sessions| && s.timeout > 0 && s.sessions[i].phase != Closed
    ensures i < |end.sessions| && end.sessions[i].last == s.sessions[i].last && end.now == s.now + Ticks(events)
    ensures s.sessions[i].phase == Open ==>
      end.sessions[i].phase == if end.now < s.sessions[i].last + s.timeout then Open else Closing
    ensures s.sessions[i].phase == Closing ==> end.sessions[i].phase == Closing
    decreases |events|
  {
    assert Accounted(s, s.sessions[i]);
    if events != [] {
      assert events[0] in events;
      InvStep(s, events[0]);
      IdleTimeout(Next(s, events[0]), events[1..], end, i);
      TimeAdvances(Next(s, events[0]), events[1..], end);
    }
  }

  /** Whatever happens later, messages of that connection included: once asked to close it is never
      open again, its last activity stays where it was, and it is not asked a second time. */
  lemma {:induction false} NeverRevived(s: Server, events: seq<Event>, end: Server, i: nat)
    requires IsRun(s, events, end) && i < |s.sessions| && s.sessions[i].phase != Open
    ensures i < |end.sessions| && end.sessions[i].phase != Open
    ensures end.sessions[i].last == s.sessions[i].last && end.sessions[i].closeCalls == s.sessions[i].closeCalls
    decreases |events|
  {
    if events != [] {
      NeverRevived(Next(s, events[0]), events[1..], end, i);
    }
  }

  /** A deadline that has passed stays passed. */
  lemma PastDeadline(s: Server, events: seq<Event>, end: Server, i: nat)
    requires Inv(s) && IsRun(s, events, end) && i < |s.sessions|
    requires s.timeout > 0 && s.sessions[i].last + s.timeout <= s.now
    ensures i < |end.sessions| && end.sessions[i].phase != Open && end.timeout == s.timeout
    ensures end.sessions[i].last + end.timeout <= end.now
  {
    assert Accounted(s, s.sessions[i]);
    NeverRevived(s, events, end, i);
    TimeAdvances(s, events, end);
  }

  lemma {:induction false} TimeAdvances(s: Server, events: seq<Event>, end: Server)
    requires IsRun(s, events, end)
    ensures s.now <= end.now && end.timeout == s.timeout
    decreases |events|
  {
    if events != [] {
      TimeAdvances(Next(s, events[0]), events[1..], end);
    }
  }
}
