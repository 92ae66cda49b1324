/** What a history of events, and nothing else, says about every connection of a server: when it was
    last heard of, whether it is still open, whether writes are still tried. */
module ServerHistory {
  import opened ServerProtocol

  // ---------- Events alone ----------

  /** The ticks among the first `n` events. */
  function TicksBy(events: seq<Event>, n: nat): nat
    requires n <= |events|
  {
    if n == 0 then 0 else TicksBy(events, n - 1) + if events[n - 1].Tick? then 1 else 0
  }

  function AcceptsBy(events: seq<Event>, n: nat): nat
    requires n <= |events|
  {
    if n == 0 then 0 else AcceptsBy(events, n - 1) + if events[n - 1].Accept? then 1 else 0
  }

  /** How often `e` is among the first `n` events. */
  function CountBy(events: seq<Event>, e: Event, n: nat): nat
    requires n <= |events|
  {
    if n == 0 then 0 else CountBy(events, e, n - 1) + if events[n - 1] == e then 1 else 0
  }

  /** Event `a` is the accept of connection `i`. */
  predicate AcceptedAt(events: seq<Event>, i: nat, a: nat) {
    a < |events| && events[a].Accept? && AcceptsBy(events, a) == i
  }

  /** What asks for the close of connection `i`, the deadline apart. */
  predicate AsksFor(e: Event, i: nat) {
    e == ReadError(i) || e == ShutdownDone(i) || e == UserClose(i) || e == ServerClosed
  }

  /** The accept of connection `i`, or a message of it. */
  predicate Heard(events: seq<Event>, i: nat, a: nat, m: nat) {
    a <= m < |events| && (m == a || events[m] == Message(i))
  }

  /** Fewer than `timeout` ticks of the first `n` events lie behind some sign of the connection. */
  ghost predicate Recent(events: seq<Event>, timeout: nat, i: nat, a: nat, n: nat)
    requires n <= |events|
  {
    exists m: nat {:trigger Heard(events, i, a, m)} ::
      m < n && Heard(events, i, a, m) && TicksBy(events, n) < TicksBy(events, m) + timeout
  }

  ghost predicate Spared(events: seq<Event>, timeout: nat, i: nat, a: nat, k: nat)
    requires k < |events|
  {
    !AsksFor(events[k], i) && (timeout > 0 ==> Recent(events, timeout, i, a, k + 1))
  }

  /** None of the first `n` events asked for the close of the connection accepted by event `a`, and at
      each of them it had been heard of less than one timeout ago. */
  ghost predicate StaysOpen(events: seq<Event>, timeout: nat, i: nat, a: nat, n: nat)
    requires n <= |events|
  {
    forall k: nat {:trigger Spared(events, timeout, i, a, k)} :: a < k < n ==> Spared(events, timeout, i, a, k)
  }

  /** The accept, or a message that came while the connection had not been asked to close. */
  ghost predicate Counts(events: seq<Event>, timeout: nat, i: nat, a: nat, m: nat) {
    Heard(events, i, a, m) && StaysOpen(events, timeout, i, a, m)
  }

  /** Event `m` is the last of these among the first `n`. */
  ghost predicate LastHeard(events: seq<Event>, timeout: nat, i: nat, a: nat, n: nat, m: nat) {
    && m < n && Counts(events, timeout, i, a, m)
    && forall j: nat {:trigger Counts(events, timeout, i, a, j)} :: m < j < n ==> !Counts(events, timeout, i, a, j)
  }

  lemma {:induction false} TicksGrow(events: seq<Event>, m: nat, n: nat)
    requires m <= n <= |events|
    ensures TicksBy(events, m) <= TicksBy(events, n)
  {
    if m < n { TicksGrow(events, m, n - 1); }
  }

  lemma {:induction false} AcceptsGrow(events: seq<Event>, m: nat, n: nat)
    requires m <= n <= |events|
    ensures AcceptsBy(events, m) <= AcceptsBy(events, n)
  {
    if m < n { AcceptsGrow(events, m, n - 1); }
  }

  /** Every connection has its accept. */
  lemma {:induction false} AcceptOf(events: seq<Event>, n: nat, i: nat) returns (a: nat)
    requires n <= |events| && i < AcceptsBy(events, n)
    ensures a < n && AcceptedAt(events, i, a)
  {
    if i < AcceptsBy(events, n - 1) { a := AcceptOf(events, n - 1, i); } else { a := n - 1; }
  }

  /** While nothing has asked for the close, a sign of the connection is recent exactly if the last
      one is. */
  lemma RecentIsLast(events: seq<Event>, timeout: nat, i: nat, a: nat, n: nat, m: nat)
    requires n < |events| && timeout > 0 && StaysOpen(events, timeout, i, a, n)
    requires LastHeard(events, timeout, i, a, n, m)
    ensures Recent(events, timeout, i, a, n + 1) <==>
      events[n] == Message(i) || TicksBy(events, n + 1) < TicksBy(events, m) + timeout
  {
    if events[n] == Message(i) { assert Heard(events, i, a, n); }
    assert Heard(events, i, a, m);
    if Recent(events, timeout, i, a, n + 1) && events[n] != Message(i) {
      var j: nat :| j < n + 1 && Heard(events, i, a, j) && TicksBy(events, n + 1) < TicksBy(events, j) + timeout;
      assert j < n && Counts(events, timeout, i, a, j);
      TicksGrow(events, j, m);
    }
  }

  // ---------- Runs ----------

  lemma {:induction false} RunSnoc(s: Server, events: seq<Event>, end: Server) returns (mid: Server)
    requires events != [] && IsRun(s, events, end)
    ensures IsRun(s, events[..|events| - 1], mid)
    ensures Enabled(mid, events[|events| - 1]) && end == Next(mid, events[|events| - 1])
    decreases |events|
  {
    var past := events[..|events| - 1];
    if |events| == 1 {
      mid := s;
    } else {
      mid := RunSnoc(Next(s, events[0]), events[1..], end);
      assert past[1..] == events[1..][..|events| - 2];
    }
  }

  lemma LastStep(s: Server, events: seq<Event>, n: nat, end: Server) returns (mid: Server)
    requires n < |events| && IsRun(s, events[..n + 1], end)
    ensures IsRun(s, events[..n], mid) && Enabled(mid, events[n]) && end == Next(mid, events[n])
  {
    mid := RunSnoc(s, events[..n + 1], end);
    assert events[..n + 1][..n] == events[..n];
  }

  /** The clock, the number of connections, and whether the server listens. */
  lemma {:induction false} Overall(timeout: nat, events: seq<Event>, n: nat, s: Server)
    requires n <= |events| && IsRun(Initial(timeout), events[..n], s)
    ensures s.now == TicksBy(events, n) && |s.sessions| == AcceptsBy(events, n) && s.timeout == timeout
    ensures s.listening <==> CountBy(events, ServerClosed, n) == 0
    ensures Inv(s)
  {
    if n > 0 {
      var mid := LastStep(Initial(timeout), events, n - 1, s);
      Overall(timeout, events, n - 1, mid);
      InvStep(mid, events[n - 1]);
    }
  }

  /** Nothing is reported of a connection before its accept. */
  lemma {:induction false} NotBefore(timeout: nat, events: seq<Event>, n: nat, s: Server, i: nat, e: Event)
    requires n <= |events| && IsRun(Initial(timeout), events[..n], s) && AcceptsBy(events, n) <= i
    requires e in {ReadError(i), Eof(i), ShutdownDone(i), CloseDone(i)}
    ensures CountBy(events, e, n) == 0
  {
    if n > 0 {
      var mid := LastStep(Initial(timeout), events, n - 1, s);
      Overall(timeout, events, n - 1, mid);
      NotBefore(timeout, events, n - 1, mid, i, e);
    }
  }

  /** The name, and the counts of reports, of one connection. */
  ghost predicate Reported(events: seq<Event>, i: nat, a: nat, n: nat, c: Session)
    requires a < n <= |events| && events[a].Accept?
  {
    && c.name == events[a].name
    && (c.connected <==> CountBy(events, ReadError(i), n) == 0 && CountBy(events, Eof(i), n) == 0)
    && c.shutdowns + CountBy(events, ShutdownDone(i), n) == CountBy(events, Eof(i), n)
    && (c.phase == Closed <==> CountBy(events, CloseDone(i), n) > 0)
  }

  lemma ReportStep(s: Server, e: Event, i: nat)
    requires Inv(s) && Enabled(s, e) && i < |s.sessions|
    ensures i < |Next(s, e).sessions|
    ensures var c, d := s.sessions[i], Next(s, e).sessions[i];
      && d.name == c.name && (d.connected <==> c.connected && e != ReadError(i) && e != Eof(i))
      && d.shutdowns + (if e == ShutdownDone(i) then 1 else 0) == c.shutdowns + (if e == Eof(i) then 1 else 0)
      && (d.phase == Closed <==> c.phase == Closed || e == CloseDone(i))
  {}

  lemma {:induction false} Reports(timeout: nat, events: seq<Event>, n: nat, s: Server, i: nat, a: nat)
    requires a < n <= |events| && IsRun(Initial(timeout), events[..n], s) && AcceptedAt(events, i, a)
    ensures i < |s.sessions| && Reported(events, i, a, n, s.sessions[i])
  {
    var mid := LastStep(Initial(timeout), events, n - 1, s);
    if a == n - 1 {
      FirstReport(timeout, events, mid, s, i, a);
    } else {
      Reports(timeout, events, n - 1, mid, i, a);
      Overall(timeout, events, n - 1, mid);
      ReportStep(mid, events[n - 1], i);
    }
  }

  lemma FirstReport(timeout: nat, events: seq<Event>, mid: Server, s: Server, i: nat, a: nat)
    requires AcceptedAt(events, i, a) && IsRun(Initial(timeout), events[..a], mid)
    requires Enabled(mid, events[a]) && s == Next(mid, events[a])
    ensures i < |s.sessions| && Reported(events, i, a, a + 1, s.sessions[i])
  {
    Overall(timeout, events, a, mid);
    NotBefore(timeout, events, a, mid, i, ReadError(i));
    NotBefore(timeout, events, a, mid, i, Eof(i));
    NotBefore(timeout, events, a, mid, i, ShutdownDone(i));
    NotBefore(timeout, events, a, mid, i, CloseDone(i));
  }

  /** After the first `n` events: whether connection `i` is open, and the event it was last heard by. */
  lemma {:induction false} OpenAfter(timeout: nat, events: seq<Event>, n: nat, s: Server, i: nat, a: nat)
    returns (m: nat)
    requires a < n <= |events| && IsRun(Initial(timeout), events[..n], s) && AcceptedAt(events, i, a)
    ensures i < |s.sessions| && (s.sessions[i].phase == Open <==> StaysOpen(events, timeout, i, a, n))
    ensures LastHeard(events, timeout, i, a, n, m) && s.sessions[i].last == TicksBy(events, m)
  {
    var k := n - 1;
    var mid := LastStep(Initial(timeout), events, k, s);
    Overall(timeout, events, k, mid);
    Overall(timeout, events, n, s);
    if a == k {
      m := a;
      assert Counts(events, timeout, i, a, a);
    } else {
      AcceptsGrow(events, a + 1, k);
      m := OpenAfter(timeout, events, k, mid, i, a);
      OpenStep(timeout, events, k, mid, i, a, m);
      assert Counts(events, timeout, i, a, k) <==> events[k] == Message(i) && mid.sessions[i].phase == Open;
      if events[k] == Message(i) && mid.sessions[i].phase == Open { m := k; }
    }
  }

  lemma OpenStep(timeout: nat, events: seq<Event>, k: nat, s: Server, i: nat, a: nat, m: nat)
    requires a < k < |events| && Inv(s) && Enabled(s, events[k]) && i < |s.sessions|
    requires s.now == TicksBy(events, k) && s.timeout == timeout
    requires s.sessions[i].phase == Open <==> StaysOpen(events, timeout, i, a, k)
    requires LastHeard(events, timeout, i, a, k, m) && s.sessions[i].last == TicksBy(events, m)
    ensures Next(s, events[k]).sessions[i].phase == Open <==> StaysOpen(events, timeout, i, a, k + 1)
  {
    assert Accounted(s, s.sessions[i]);
    if s.sessions[i].phase == Open {
      if timeout > 0 { RecentIsLast(events, timeout, i, a, k, m); }
      assert StaysOpen(events, timeout, i, a, k + 1) <==> Spared(events, timeout, i, a, k);
    }
  }

  // ---------- The laws ----------

  /** A connection is open exactly if, since its accept, no read error of it, no completed half-close,
      no close by its user and no close of the server came, and it was never silent for a timeout. */
  lemma OpenIff(timeout: nat, events: seq<Event>, end: Server, i: nat, a: nat)
    requires IsRun(Initial(timeout), events, end) && AcceptedAt(events, i, a)
    ensures i < |end.sessions|
    ensures end.sessions[i].phase == Open <==> StaysOpen(events, timeout, i, a, |events|)
  {
    assert events[..|events|] == events;
    var m := OpenAfter(timeout, events, |events|, end, i, a);
  }

  /** The last activity of a connection: the ticks before its accept, or before the latest message that
      came while it had not been asked to close. */
  lemma LastActivity(timeout: nat, events: seq<Event>, end: Server, i: nat, a: nat) returns (m: nat)
    requires IsRun(Initial(timeout), events, end) && AcceptedAt(events, i, a)
    ensures LastHeard(events, timeout, i, a, |events|, m)
    ensures i < |end.sessions| && end.sessions[i].last == TicksBy(events, m)
  {
    assert events[..|events|] == events;
    m := OpenAfter(timeout, events, |events|, end, i, a);
  }

  /** A message of an open connection is worth exactly one turn: if nothing more is heard of it and
      nothing else asks for its close, it is open before the `timeout`-th tick behind the message and
      asked to close from that tick on. */
  lemma MessageBuysOneTurn(timeout: nat, events: seq<Event>, end: Server, i: nat, a: nat, m: nat)
    requires IsRun(Initial(timeout), events, end) && AcceptedAt(events, i, a) && timeout > 0
    requires Counts(events, timeout, i, a, m)
    requires forall k :: m < k < |events| ==> events[k] != Message(i) && !AsksFor(events[k], i)
    ensures i < |end.sessions|
    ensures end.sessions[i].phase == Open <==> TicksBy(events, |events|) < TicksBy(events, m) + timeout
  {
    var n := |events|;
    OpenIff(timeout, events, end, i, a);
    assert Heard(events, i, a, m);
    if TicksBy(events, n) < TicksBy(events, m) + timeout {
      forall k: nat | a < k < n ensures Spared(events, timeout, i, a, k) {
        if k >= m { TicksGrow(events, k + 1, n); }
      }
    } else if StaysOpen(events, timeout, i, a, n) {
      TicksGrow(events, m, n);
      assert Spared(events, timeout, i, a, n - 1);
      var j: nat :| j < n && Heard(events, i, a, j) && TicksBy(events, n) < TicksBy(events, j) + timeout;
      TicksGrow(events, j, m);
    }
  }

  /** Writes are tried until a read error or the end of the stream; half-closes asked for at the end of
      the stream and not completed are pending; and what libuv reported closed is closed. */
  lemma ReportsMeaning(timeout: nat, events: seq<Event>, end: Server, i: nat, a: nat)
    requires IsRun(Initial(timeout), events, end) && AcceptedAt(events, i, a)
    ensures i < |end.sessions| && Reported(events, i, a, |events|, end.sessions[i])
  {
    assert events[..|events|] == events;
    Reports(timeout, events, |events|, end, i, a);
  }
}
