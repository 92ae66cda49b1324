/** `TcpServer`, `TcpConnection` and `ConnectionWrapper` of ae/tcp_server.cpp and
    ae/tcp_connection.cpp, proved to implement `ServerProtocol`.

    A callback field is modelled by whether it is set: each one is only ever bound to one function.
    A wrapper is owned by the buckets of the timer wheel that hold it; the connection's own pointer
    to it is weak. */
module TcpServers {
  import opened Options
  import opened ServerHistory
  import opened ServerProtocol
  import opened TimerWheels

  datatype Handle = Active | HandleClosing | HandleClosed

  class TcpConnection {
    const name: string
    ghost const id: nat
    var connected: bool
    var onMessage: bool
    var onConnectClose: bool
    var closeComplete: bool
    var handle: Handle
    var wrapper: ConnectionWrapper?
    var shutdowns: nat
    var closeCalls: nat
    var notices: nat

    constructor (name: string, ghost id: nat)
      ensures this.name == name && this.id == id
      ensures connected && !onMessage && !onConnectClose && !closeComplete && handle == Active && wrapper == null
      ensures shutdowns == 0 && closeCalls == 0 && notices == 0
    {
      this.name := name;
      this.id := id;
      connected, onMessage, onConnectClose, closeComplete := true, false, false, false;
      handle, wrapper := Active, null;
      shutdowns, closeCalls, notices := 0, 0, 0;
    }
  }

  class ConnectionWrapper {
    const connection: TcpConnection
    var refs: nat

    constructor (connection: TcpConnection)
      ensures this.connection == connection && refs == 1
    {
      this.connection := connection;
      refs := 1;
    }
  }

  // ---------- Reference counts ----------

  /** How many buckets hold `w`. */
  ghost function Count<T>(wheel: seq<set<T>>, w: T): nat {
    if wheel == [] then 0 else (if w in wheel[0] then 1 else 0) + Count(wheel[1..], w)
  }

  lemma {:induction false} CountUpdate<T>(wheel: seq<set<T>>, k: nat, bucket: set<T>, w: T)
    requires k < |wheel|
    ensures Count(wheel[k := bucket], w) + (if w in wheel[k] then 1 else 0)
      == Count(wheel, w) + (if w in bucket then 1 else 0)
  {
    if k == 0 {
      assert wheel[k := bucket][1..] == wheel[1..];
    } else {
      assert wheel[k := bucket][1..] == wheel[1..][k - 1 := bucket];
      CountUpdate(wheel[1..], k - 1, bucket, w);
    }
  }

  lemma {:induction false} CountHeld<T>(wheel: seq<set<T>>, w: T)
    ensures Count(wheel, w) > 0 <==> Held(wheel, w)
  {
    if wheel != [] {
      CountHeld(wheel[1..], w);
      if Held(wheel[1..], w) {
        var i :| 0 <= i < |wheel[1..]| && w in wheel[1..][i];
        assert w in wheel[i + 1];
      }
      if Held(wheel, w) && w !in wheel[0] {
        var i :| 0 <= i < |wheel| && w in wheel[i];
        assert w in wheel[1..][i - 1];
      }
    }
  }

  function HandleOf(phase: Phase): Handle {
    match phase case Open => Active case Closing => HandleClosing case Closed => HandleClosed
  }

  /** Connection `c` is in the state of its session. In particular a close callback that is still
      set means that the handle is not closing, and an entry is in the map until it is closed. */
  ghost predicate Matches(c: TcpConnection, i: nat, s: Session, connections: map<string, TcpConnection>)
    reads c
  {
    && c.id == i && c.name == s.name && c.connected == s.connected && c.handle == HandleOf(s.phase)
    && c.onConnectClose == c.onMessage == s.phase.Open? && (s.phase == Closing ==> c.closeComplete)
    && c.shutdowns == s.shutdowns && c.closeCalls == s.closeCalls && c.notices == s.notices
    && (s.phase != Closed ==> c.name in connections && connections[c.name] == c)
  }

  /** The wrapper of `c` has one reference for each bucket that holds it, `extra` being the one a
      cleared bucket has not given up yet, and was last inserted at the last activity. */
  ghost predicate Wrapped(c: TcpConnection, wheel: seq<set<ConnectionWrapper>>, log: seq<set<ConnectionWrapper>>,
      extra: set<ConnectionWrapper>, last: nat, now: nat)
    reads c`wrapper, c.wrapper
  {
    c.wrapper != null &&
    var w: ConnectionWrapper := c.wrapper;
    && w.connection == c
    && w.refs == Count(wheel, w) + (if w in extra then 1 else 0)
    && LastAge(log, w) + last == now
  }

  // ---------- What one event does to the wheel, for every connection ----------

  /** The wrapper of an open connection with a timeout is alive. */
  lemma OpenIsHeld(c: TcpConnection, wheel: seq<set<ConnectionWrapper>>, index: nat,
      log: seq<set<ConnectionWrapper>>, last: nat, now: nat)
    requires Wrapped(c, wheel, log, {}, last, now) && Aligned(wheel, index, log)
    requires last <= now && |log| == now + 1
    ensures c.wrapper.refs > 0 <==> now < last + |wheel|
  {
    var w: ConnectionWrapper := c.wrapper;
    HeldIffRecent(wheel, index, log, w);
    CountHeld(wheel, w);
  }

  ghost predicate AskedToClose(c: TcpConnection, closeCalls: nat)
    reads c
  {
    !c.onMessage && !c.onConnectClose && c.closeComplete && c.handle == HandleClosing && c.closeCalls == closeCalls + 1
  }

  ghost predicate Uninvolved(c: TcpConnection, connected: bool, wrapper: ConnectionWrapper?, shutdowns: nat,
      notices: nat)
    reads c
  {
    c.connected == connected && c.wrapper == wrapper && c.shutdowns == shutdowns && c.notices == notices
  }

  ghost predicate SameCallbacks(c: TcpConnection, onMessage: bool, onConnectClose: bool, closeComplete: bool,
      handle: Handle, closeCalls: nat)
    reads c
  {
    && c.onMessage == onMessage && c.onConnectClose == onConnectClose && c.closeComplete == closeComplete
    && c.handle == handle && c.closeCalls == closeCalls
  }

  lemma InsertedWrapper(wheel: seq<set<ConnectionWrapper>>, k: nat, log: seq<set<ConnectionWrapper>>,
      x: ConnectionWrapper, w: ConnectionWrapper)
    requires k < |wheel| && log != []
    ensures Count(wheel[k := wheel[k] + {x}], w) == Count(wheel, w) + if w == x && x !in wheel[k] then 1 else 0
    ensures LastAge(log[|log| - 1 := log[|log| - 1] + {x}], w) == if w == x then 0 else LastAge(log, w)
  {
    CountUpdate(wheel, k, wheel[k] + {x}, w);
    LastAgeInsert(log, x, w);
  }

  /** What a tick drops was inserted one turn ago, and its last reference goes exactly when it was
      not inserted since. */
  lemma DueMeaning(wheel: seq<set<ConnectionWrapper>>, index: nat, log: seq<set<ConnectionWrapper>>,
      dropped: set<ConnectionWrapper>, w: ConnectionWrapper)
    requires Aligned(wheel, index, log + [{}]) && LastAge(log, w) < |log|
    requires dropped == InsertedAgo(log, |wheel| - 1)
    ensures w in dropped && Count(wheel, w) == 0 <==> LastAge(log, w) + 1 == |wheel|
  {
    LastAgeNextTick(log, w);
    HeldIffRecent(wheel, index, log + [{}], w);
    CountHeld(wheel, w);
    InsertedThen(log, |wheel| - 1, w);
  }

  lemma InsertedThen(log: seq<set<ConnectionWrapper>>, age: nat, w: ConnectionWrapper)
    requires LastAge(log, w) < |log|
    ensures age < LastAge(log, w) ==> w !in InsertedAgo(log, age)
    ensures age == LastAge(log, w) ==> w in InsertedAgo(log, age)
  {
    LastAgeMeaning(log, w);
  }

  class TcpServer {
    var connections: map<string, TcpConnection>
    var listening: bool
    const timerWheel: TimerWheel<ConnectionWrapper>
    ghost var all: seq<TcpConnection>
    ghost var spec: Server
    ghost var Repr: set<object>

    /** The server implements the protocol state `spec`; `all` has every connection ever accepted. */
    ghost predicate Valid()
      reads this, Repr
    {
      Implements(spec)
    }

    /** The fields, the connections and the wheel implement the protocol state `s`. */
    ghost predicate Implements(s: Server)
      reads this`connections, this`listening, this`all, this`Repr, Repr
    {
      ImplementsUpTo(s, |s.sessions|)
    }

    /** `Implements`, with the wrappers of the first `n` connections only. */
    ghost predicate ImplementsUpTo(s: Server, n: nat)
      reads this`connections, this`listening, this`all, this`Repr, Repr
    {
      && Owns() && InRepr()
      && |all| == |s.sessions| && Inv(s) && listening == s.listening
      && (forall i: nat {:trigger Conn(i, s)} :: i < |all| ==> Conn(i, s))
      && (forall name {:trigger Entry(name, s)} :: name in connections ==> Entry(name, s))
      && WheelGood(s)
      && (forall i: nat {:trigger Wrap(i, s)} :: i < |all| && i < n ==> Wrap(i, s))
    }

    ghost predicate Owns()
      reads this`all, this`Repr
    {
      this !in Repr && timerWheel in Repr && forall i :: 0 <= i < |all| ==> all[i] in Repr
    }

    ghost predicate InRepr()
      reads this`all, this`Repr, all`wrapper
    {
      Owns() && forall i :: 0 <= i < |all| && all[i].wrapper != null ==> all[i].wrapper in Repr
    }

    ghost predicate Conn(i: nat, s: Server)
      requires i < |all| == |s.sessions|
      reads this`connections, this`all, all[i]
    {
      Matches(all[i], i, s.sessions[i], connections)
    }

    ghost predicate Wrap(i: nat, s: Server)
      requires i < |all| == |s.sessions|
      reads this`all, all`wrapper, all[i].wrapper, timerWheel
    {
      if s.timeout > 0 then Wrapped(all[i], timerWheel.wheel, timerWheel.log, {}, s.sessions[i].last, s.now)
      else all[i].wrapper == null
    }

    /** Every entry of the map is a connection that is not closed yet. */
    ghost predicate Entry(name: string, s: Server)
      requires name in connections && |all| == |s.sessions|
      reads this`connections, this`all
    {
      Listing(name, connections[name], s)
    }

    ghost predicate Listing(name: string, c: TcpConnection, s: Server)
      requires |all| == |s.sessions|
      reads this`all
    {
      Knows(c) && c.name == name && s.sessions[c.id].phase != Closed
    }

    ghost predicate Knows(c: TcpConnection)
      reads this`all
    {
      c.id < |all| && all[c.id] == c
    }

    ghost predicate WheelGood(s: Server)
      requires InRepr()
      reads this`all, this`Repr, all`wrapper, timerWheel
    {
      && timerWheel.Running() && timerWheel.timeoutSec == s.timeout
      && (s.timeout > 0 ==> |timerWheel.log| == s.now + 1)
      && forall k, w {:trigger Listed(w), timerWheel.wheel[k]} ::
           0 <= k < |timerWheel.wheel| && w in timerWheel.wheel[k] ==> Listed(w)
    }

    ghost predicate Listed(w: ConnectionWrapper)
      requires InRepr()
      reads this`all, this`Repr, all`wrapper
    {
      Knows(w.connection) && w.connection.wrapper == w
    }

    /** The connections but `i`, with the map `m`, are in the state of their sessions. */
    ghost predicate Others(i: nat, s: Server, m: map<string, TcpConnection>)
      requires i < |all| == |s.sessions|
      reads this`listening, this`all, this`Repr, Repr - {all[i], timerWheel}
    {
      && Owns() && listening == s.listening
      && (forall j: nat {:trigger all[j]} :: j < |all| ==> all[j].id == j)
      && (forall j: nat {:trigger Matches(all[j], j, s.sessions[j], m)} ::
            j < |all| && all[j] != all[i] ==> Matches(all[j], j, s.sessions[j], m))
      && (forall name {:trigger Listing(name, m[name], s)} :: name in m ==> Listing(name, m[name], s))
    }

    /** The wheel and the wrappers of the first `n` connections are those of `s`, whatever the flags of
        connection `i`. */
    ghost predicate WheelSide(i: nat, s: Server, n: nat)
      requires i < |all| == |s.sessions|
      reads this`all, this`Repr, Repr - {all[i]}, all`wrapper
    {
      && Owns() && InRepr() && WheelGood(s)
      && (forall j: nat {:trigger Wrap(j, s)} :: j < |all| && j < n ==> Wrap(j, s))
    }

    /** A change of connection `i` alone begins, and ends with its session changed alike. A
        connection that is closed has lost its entry. */
    lemma BeginChange(i: nat, n: nat)
      requires ImplementsUpTo(spec, n) && i < |all|
      ensures Others(i, spec, connections) && WheelSide(i, spec, n) && Conn(i, spec)
    {
      forall j: nat | j < |all| ensures all[j].id == j && Matches(all[j], j, spec.sessions[j], connections) {
        assert Conn(j, spec);
      }
      forall name | name in connections ensures Listing(name, connections[name], spec) {
        assert Entry(name, spec);
      }
    }

    lemma EndChange(i: nat, before: Server, m: map<string, TcpConnection>, s: Server)
      requires i < |all| == |before.sessions| && Others(i, before, m) && WheelSide(i, before, |all|)
      requires Inv(before) && i < |s.sessions| && Inv(s)
      requires s == before.(sessions := before.sessions[i := s.sessions[i]]) && Conn(i, s)
      requires before.sessions[i].phase != Closed && s.sessions[i].last == before.sessions[i].last
      requires s.sessions[i].name == before.sessions[i].name
      requires connections == if s.sessions[i].phase == Closed then m - {all[i].name} else m
      ensures Implements(s)
    {
      forall j: nat | j < |all| ensures Conn(j, s) && Wrap(j, s) {
        assert Wrap(j, before) && all[j].id == j && all[i].id == i;
        if j != i {
          assert Matches(all[j], j, before.sessions[j], m) && Distinct(before, i, j);
        }
      }
      forall name | name in connections ensures Entry(name, s) {
        assert Listing(name, m[name], before);
      }
    }

    /** A server that has begun to listen, with its timeout set before. */
    constructor (timeout: nat)
      ensures Valid() && fresh(Repr) && spec == ServerProtocol.Initial(timeout) && all == []
      ensures listening && connections == map[]
    {
      connections, listening := map[], true;
      timerWheel := new TimerWheel(0);
      all, spec := [], ServerProtocol.Initial(timeout);
      new;
      timerWheel.SetTimeout(timeout);
      timerWheel.Start();
      Repr := {timerWheel};
    }

    // ---------- Wrappers ----------

    /** `TcpConnection::get_wrapper`: locks the weak pointer. */
    method GetWrapper(c: TcpConnection) returns (wrapper: Option<ConnectionWrapper>)
      ensures if c.wrapper != null && c.wrapper.refs > 0 then wrapper.Some? && wrapper.value == c.wrapper
        else wrapper.None?
    {
      wrapper := None;
      if c.wrapper != null && c.wrapper.refs > 0 {
        wrapper := Some(c.wrapper);
      }
    }

    /** Inserts a shared pointer into the current bucket, a set: it is counted if it is new there. */
    method InsertWrapper(w: ConnectionWrapper)
      requires timerWheel.Running() && timerWheel.timeoutSec > 0
      modifies timerWheel, w`refs
      ensures timerWheel.Running() && timerWheel.timeoutSec == old(timerWheel.timeoutSec)
      ensures timerWheel.index == old(timerWheel.index)
      ensures var wheel, log, k := old(timerWheel.wheel), old(timerWheel.log), old(timerWheel.index);
        && k < |wheel| && log != []
        && timerWheel.wheel == wheel[k := wheel[k] + {w}]
        && timerWheel.log == log[|log| - 1 := log[|log| - 1] + {w}]
        && w.refs == old(w.refs) + if w in wheel[k] then 0 else 1
    {
      var present := w in timerWheel.wheel[timerWheel.index];
      timerWheel.Insert(Some(w));
      if !present {
        w.refs := w.refs + 1;
      }
    }

    // ---------- Closing ----------

    method GetConnection(name: string) returns (connection: TcpConnection?)
      ensures connection == if name in connections then connections[name] else null
    {
      connection := null;
      if name in connections {
        connection := connections[name];
      }
    }

    /** `TcpConnection::on_socket_close`, whose callback is `close_connection` of this server. As a
        callback that is set means an active handle, it never removes an entry of the map. */
    method SocketClose(c: TcpConnection)
      requires c.onConnectClose ==> c.handle == Active && c.name in connections && connections[c.name] == c
      modifies this`connections, c
      ensures connections == old(connections)
      ensures if old(c.onConnectClose) then AskedToClose(c, old(c.closeCalls)) else SameCallbacks(c,
        old(c.onMessage), old(c.onConnectClose), old(c.closeComplete), old(c.handle), old(c.closeCalls))
      ensures Uninvolved(c, old(c.connected), old(c.wrapper), old(c.shutdowns), old(c.notices))
    {
      if c.onConnectClose {
        CloseConnection(c.name);
      }
    }

    /** `TcpServer::close_connection`. A second close of a connection that is still closing would
        complete at once: it is notified and removed before libuv has reported its handle closed. */
    method CloseConnection(name: string)
      requires name in connections ==> connections[name].name == name
      modifies this`connections, if name in connections then {connections[name]} else {}
      ensures name in old(connections) ==>
        var c := old(connections)[name];
        if old(c.handle) == Active then
          && connections == old(connections) && AskedToClose(c, old(c.closeCalls))
          && Uninvolved(c, old(c.connected), old(c.wrapper), old(c.shutdowns), old(c.notices))
        else
          && connections == old(connections) - {name} && c.notices == old(c.notices) + 1
          && c.handle == old(c.handle) && c.closeCalls == old(c.closeCalls)
      ensures name !in old(connections) ==> connections == old(connections)
    {
      var connection := GetConnection(name);
      if connection != null {
        connection.onMessage := false;
        connection.onConnectClose := false;
        connection.closeComplete := true;
        if connection.handle == Active {
          connection.handle := HandleClosing;
          connection.closeCalls := connection.closeCalls + 1;
        } else {
          CloseComplete(connection);
        }
      }
    }

    /** The completion callback given to `close`: notifies and removes the entry of that name, which
        is `c` itself as long as no other connection has taken the name. */
    method CloseComplete(c: TcpConnection)
      modifies this`connections, (if c.name in connections then {connections[c.name]} else {})`notices
      ensures if c.closeComplete && c.name in old(connections)
        then
          var d := old(connections)[c.name];
          d.notices == old(d.notices) + 1 && connections == old(connections) - {c.name}
        else
          connections == old(connections) && (c.name in connections ==>
            connections[c.name].notices == old(connections[c.name].notices))
    {
      if c.closeComplete {
        var connection := GetConnection(c.name);
        if connection != null {
          connection.notices := connection.notices + 1;
          connections := connections - {c.name};
        }
      }
    }

    // ---------- Events ----------

    /** The current bucket holds `w`. */
    ghost predicate JustInserted(w: ConnectionWrapper)
      reads timerWheel
    {
      timerWheel.index < |timerWheel.wheel| && w in timerWheel.wheel[timerWheel.index]
    }

    /** The wrapper of connection `i` goes into the current bucket: its deadline moves. */
    method Refresh(ghost i: nat, w: ConnectionWrapper, ghost s: Server)
      requires Valid() && i < |all| && all[i].wrapper == w && spec.timeout > 0
      requires Enabled(spec, Message(i)) && s == Next(spec, Message(i)) && spec.sessions[i].phase == Open
      modifies timerWheel, w`refs
      ensures forall j: nat {:trigger Wrap(j, s)} :: j < |all| ==> Wrap(j, s)
      ensures WheelGood(s) && JustInserted(w)
    {
      ghost var wheel, log, k := timerWheel.wheel, timerWheel.log, timerWheel.index;
      assert Wrap(i, spec) && Conn(i, spec) && Listed(w);
      InsertWrapper(w);
      forall j: nat | j < |all| ensures Wrap(j, s) {
        assert old(Wrap(j, spec)) && old(Conn(j, spec));
        InsertedWrapper(wheel, k, log, w, all[j].wrapper);
      }
      forall b, v | 0 <= b < |timerWheel.wheel| && v in timerWheel.wheel[b] ensures Listed(v) {
        assert v == w || v in wheel[b];
        assert old(Listed(v));
      }
    }

    /** What `TcpServer::on_message` does to the wheel, called while the message callback is set. */
    method KeepAlive(c: TcpConnection, ghost s: Server)
      requires Valid() && Knows(c) && Enabled(spec, Message(c.id)) && s == Next(spec, Message(c.id))
      modifies timerWheel, if c.wrapper == null then {} else {c.wrapper}
      ensures forall j: nat {:trigger Wrap(j, s)} :: j < |all| ==> Wrap(j, s)
      ensures WheelGood(s)
      ensures spec.timeout > 0 && c.handle == Active ==> c.wrapper != null && JustInserted(c.wrapper)
    {
      ghost var i := c.id;
      assert Conn(i, spec) && Wrap(i, spec) && Accounted(spec, spec.sessions[i]);
      if c.onMessage && timerWheel.timeoutSec > 0 {
        OpenIsHeld(c, timerWheel.wheel, timerWheel.index, timerWheel.log, spec.sessions[i].last, spec.now);
        var wrapper := GetWrapper(c);
        if wrapper.Some? {
          Refresh(i, wrapper.value, s);
        }
      } else {
        forall j: nat | j < |all| ensures Wrap(j, s) {
          assert Wrap(j, spec);
        }
      }
    }

    /** A message arrives. The callbacks of the user are taken not to call back into the server. */
    method OnMessage(c: TcpConnection)
      requires Valid() && Knows(c) && spec.sessions[c.id].phase != Closed
      modifies this, Repr
      ensures Valid() && Repr == old(Repr) && all == old(all) && connections == old(connections)
      ensures spec == Next(old(spec), Message(c.id)) && c.handle == old(c.handle)
      ensures spec.timeout > 0 && c.handle == Active ==> c.wrapper != null && JustInserted(c.wrapper)
    {
      ghost var s := Next(spec, Message(c.id));
      InvStep(spec, Message(c.id));
      KeepAlive(c, s);
      spec := s;
      forall j: nat | j < |all| ensures Conn(j, s) {
        assert old(Conn(j, spec));
      }
      forall name | name in connections ensures Entry(name, s) {
        assert old(Entry(name, spec));
      }
    }

    /** `TcpConnection::on_mesage_receive` with an error other than the end of the stream. */
    method OnReadError(c: TcpConnection)
      requires Valid() && Knows(c) && spec.sessions[c.id].phase != Closed
      modifies this, Repr
      ensures Valid() && Repr == old(Repr) && all == old(all) && connections == old(connections)
      ensures spec == Next(old(spec), ReadError(c.id))
      ensures !c.connected && c.handle != Active && c.closeCalls == 1
    {
      ghost var s := Next(spec, ReadError(c.id));
      InvStep(spec, ReadError(c.id));
      BeginChange(c.id, |all|);
      assert Accounted(spec, spec.sessions[c.id]);
      c.connected := false;
      SocketClose(c);
      EndChange(c.id, spec, connections, s);
      spec := s;
    }

    /** The end of the stream: a half-close is requested, and the rest waits for its completion. */
    method OnEof(c: TcpConnection)
      requires Valid() && Knows(c) && spec.sessions[c.id].phase != Closed
      modifies this, Repr
      ensures Valid() && Repr == old(Repr) && all == old(all) && connections == old(connections)
      ensures spec == Next(old(spec), Eof(c.id))
      ensures !c.connected && c.handle == old(c.handle) && c.shutdowns == old(c.shutdowns) + 1
    {
      ghost var s := Next(spec, Eof(c.id));
      InvStep(spec, Eof(c.id));
      BeginChange(c.id, |all|);
      c.connected := false;
      c.shutdowns := c.shutdowns + 1;
      EndChange(c.id, spec, connections, s);
      spec := s;
    }

    method OnShutdownDone(c: TcpConnection)
      requires Valid() && Knows(c) && Enabled(spec, ShutdownDone(c.id))
      modifies this, Repr
      ensures Valid() && Repr == old(Repr) && all == old(all) && connections == old(connections)
      ensures spec == Next(old(spec), ShutdownDone(c.id))
      ensures c.handle != Active && c.closeCalls == 1 && c.shutdowns + 1 == old(c.shutdowns)
    {
      ghost var s := Next(spec, ShutdownDone(c.id));
      InvStep(spec, ShutdownDone(c.id));
      BeginChange(c.id, |all|);
      assert Accounted(spec, spec.sessions[c.id]);
      c.shutdowns := c.shutdowns - 1;
      SocketClose(c);
      EndChange(c.id, spec, connections, s);
      spec := s;
    }

    /** A user closes a connection by its name. Closing it again while it is closing leaves the
        protocol: it is notified and forgotten although its handle is not closed. */
    method UserCloses(name: string)
      requires Valid()
      modifies this, Repr
      ensures Repr == old(Repr) && all == old(all)
      ensures name !in old(connections) ==> Valid() && spec == old(spec) && connections == old(connections)
      ensures name in old(connections) ==>
        var c := old(connections)[name];
        if old(c.handle) == Active then
          && Valid() && connections == old(connections)
          && Enabled(old(spec), UserClose(c.id)) && spec == Next(old(spec), UserClose(c.id))
        else
          && connections == old(connections) - {name} && c.notices == 1 && c.handle == HandleClosing
          && forall s {:trigger Implements(s)} :: !Implements(s)
    {
      if name in connections {
        ghost var c := connections[name];
        assert Entry(name, spec);
        BeginChange(c.id, |all|);
        assert Accounted(spec, spec.sessions[c.id]);
        CloseConnection(name);
        if spec.sessions[c.id].phase == Open {
          ghost var s := Next(spec, UserClose(c.id));
          InvStep(spec, UserClose(c.id));
          EndChange(c.id, spec, connections, s);
          spec := s;
        } else {
          NoProtocolState(c);
        }
      } else {
        CloseConnection(name);
      }
    }

    lemma NoProtocolState(c: TcpConnection)
      requires Knows(c) && c.notices == 1 && c.handle == HandleClosing
      ensures forall s {:trigger Implements(s)} :: !Implements(s)
    {
      forall s ensures !Implements(s) {
        NotifiedIsClosed(c, s);
      }
    }

    lemma NotifiedIsClosed(c: TcpConnection, s: Server)
      requires Knows(c)
      ensures Implements(s) ==> c.notices == (if c.handle == HandleClosed then 1 else 0)
    {
      if Implements(s) {
        assert Conn(c.id, s) && Accounted(s, s.sessions[c.id]);
      }
    }

    /** libuv reports the handle closed: the notification fires and the entry is removed. */
    method OnCloseDone(c: TcpConnection)
      requires Valid() && Knows(c) && Enabled(spec, CloseDone(c.id))
      modifies this, Repr
      ensures Valid() && Repr == old(Repr) && all == old(all) && connections == old(connections) - {c.name}
      ensures spec == Next(old(spec), CloseDone(c.id)) && c.notices == old(c.notices) + 1
    {
      ghost var s, m := Next(spec, CloseDone(c.id)), connections;
      InvStep(spec, CloseDone(c.id));
      BeginChange(c.id, |all|);
      c.handle := HandleClosed;
      CloseComplete(c);
      EndChange(c.id, spec, m, s);
      spec := s;
    }

    // ---------- Accepting ----------

    /** Gives up one shared pointer to a wrapper; the last one to go runs its destructor, which asks
        the connection to close. */
    method Release(w: ConnectionWrapper)
      requires w.refs > 0
      requires var c := w.connection;
        w.refs == 1 && c.onConnectClose ==> c.handle == Active && c.name in connections && connections[c.name] == c
      modifies this`connections, w`refs, w.connection
      ensures connections == old(connections) && w.refs == old(w.refs) - 1
      ensures var c := w.connection;
        && (if w.refs == 0 && old(c.onConnectClose) then AskedToClose(c, old(c.closeCalls)) else SameCallbacks(c,
              old(c.onMessage), old(c.onConnectClose), old(c.closeComplete), old(c.handle), old(c.closeCalls)))
        && Uninvolved(c, old(c.connected), old(c.wrapper), old(c.shutdowns), old(c.notices))
    {
      w.refs := w.refs - 1;
      if w.refs == 0 {
        SocketClose(w.connection);
      }
    }

    /** The wrapper of a new connection: once the local pointer is gone the wheel alone owns it. */
    method AddWrapper(c: TcpConnection) returns (wrapper: ConnectionWrapper)
      requires timerWheel.Running() && timerWheel.timeoutSec > 0
      modifies this`connections, timerWheel, c
      ensures fresh(wrapper) && wrapper.connection == c && connections == old(connections)
      ensures timerWheel.Running() && timerWheel.timeoutSec == old(timerWheel.timeoutSec)
      ensures var wheel, log, k := old(timerWheel.wheel), old(timerWheel.log), old(timerWheel.index);
        && k < |wheel| && log != []
        && timerWheel.wheel == wheel[k := wheel[k] + {wrapper}]
        && timerWheel.log == log[|log| - 1 := log[|log| - 1] + {wrapper}]
        && wrapper.refs == 1 == Count(timerWheel.wheel, wrapper) && LastAge(timerWheel.log, wrapper) == 0
      ensures Uninvolved(c, old(c.connected), wrapper, old(c.shutdowns), old(c.notices))
      ensures SameCallbacks(c, old(c.onMessage), old(c.onConnectClose), old(c.closeComplete), old(c.handle),
        old(c.closeCalls))
    {
      ghost var wheel, log, k := timerWheel.wheel, timerWheel.log, timerWheel.index;
      wrapper := new ConnectionWrapper(c);
      c.wrapper := wrapper;
      assert forall b :: 0 <= b < |wheel| ==> wrapper !in wheel[b];
      CountHeld(wheel, wrapper);
      InsertWrapper(wrapper);
      InsertedWrapper(wheel, k, log, wrapper, wrapper);
      Release(wrapper);
    }

    /** The wheel takes the wrapper of the last connection. */
    method AttachWrapper(c: TcpConnection, ghost i: nat)
      requires i + 1 == |all| == |spec.sessions| && all[i] == c && c.wrapper == null && spec.timeout > 0
      requires Others(i, spec, connections) && WheelSide(i, spec, i) && spec.sessions[i].last == spec.now
      modifies this`connections, this`Repr, timerWheel, c
      ensures Others(i, spec, connections) && WheelSide(i, spec, i + 1) && connections == old(connections)
      ensures Repr >= old(Repr) && fresh(Repr - old(Repr))
      ensures c.connected == old(c.connected) && c.shutdowns == old(c.shutdowns) && c.notices == old(c.notices)
      ensures SameCallbacks(c, old(c.onMessage), old(c.onConnectClose), old(c.closeComplete), old(c.handle),
        old(c.closeCalls))
    {
      ghost var wheel, log, k := timerWheel.wheel, timerWheel.log, timerWheel.index;
      var wrapper := AddWrapper(c);
      assert Others(i, spec, connections) && all[i].id == i;
      Repr := Repr + {wrapper};
      forall j: nat | j < |all| ensures Wrap(j, spec) {
        if j < i {
          assert old(Wrap(j, spec));
          InsertedWrapper(wheel, k, log, wrapper, all[j].wrapper);
        }
      }
      forall b, w | 0 <= b < |timerWheel.wheel| && w in timerWheel.wheel[b] ensures Listed(w) {
        assert w == wrapper || w in wheel[b];
        if w != wrapper { assert old(Listed(w)); }
      }
    }

    /** Completes the accept of the last connection: a wrapper if there is a timeout. */
    method Attach(c: TcpConnection, ghost i: nat)
      requires i + 1 == |all| && all[i] == c && c.wrapper == null && ImplementsUpTo(spec, i)
      requires spec.sessions[i].phase == Open && spec.sessions[i].last == spec.now
      modifies this`connections, this`Repr, timerWheel, c
      ensures Valid() && Repr >= old(Repr) && fresh(Repr - old(Repr)) && connections == old(connections)
    {
      if timerWheel.timeoutSec > 0 {
        BeginChange(i, i);
        AttachWrapper(c, i);
        EndChange(i, spec, connections, spec);
      }
    }

    /** The map has exactly the names of the connections that are not closed yet. */
    lemma NamesInUse(name: string)
      requires Valid()
      ensures name in connections <==> NameInUse(spec, name)
    {
      forall j: nat | j < |all| && spec.sessions[j].phase != Closed ensures spec.sessions[j].name in connections {
        assert Conn(j, spec);
      }
      if name in connections {
        assert Entry(name, spec) && Conn(connections[name].id, spec);
      }
    }

    ghost predicate IsNew(c: TcpConnection)
      reads this`all, this`Repr, c
    {
      && c !in Repr && c.id == |all| && c.wrapper == null && c.connected && c.onMessage && c.onConnectClose
      && c.handle == Active && c.shutdowns == c.closeCalls == c.notices == 0
    }

    /** `TcpServer::add_connection`: an insertion into the map never replaces. */
    method AddConnection(c: TcpConnection)
      requires Valid() && listening && IsNew(c)
      modifies this`connections, this`all, this`Repr, this`spec
      ensures c.name in old(connections) ==>
        connections == old(connections) && all == old(all) && Repr == old(Repr) && spec == old(spec)
      ensures c.name !in old(connections) ==>
        && connections == old(connections)[c.name := c] && all == old(all) + [c] && Repr == old(Repr) + {c}
        && !NameInUse(old(spec), c.name) && spec == Next(old(spec), Accept(c.name)) && ImplementsUpTo(spec, c.id)
    {
      NamesInUse(c.name);
      if c.name !in connections {
        ghost var s := Next(spec, Accept(c.name));
        InvStep(spec, Accept(c.name));
        connections := connections[c.name := c];
        all, Repr, spec := all + [c], Repr + {c}, s;
        forall j: nat | j < |all| ensures Conn(j, s) && (j < c.id ==> Wrap(j, s)) {
          if j < c.id { assert old(Conn(j, spec)) && old(Wrap(j, spec)); }
        }
        forall k, w | 0 <= k < |timerWheel.wheel| && w in timerWheel.wheel[k] ensures Listed(w) {
          assert old(Listed(w));
        }
        forall n | n in connections ensures Entry(n, s) {
          if n != c.name { assert old(Entry(n, spec)); }
        }
      }
    }

    /** `TcpServer::on_accept`. With a name that is still in the map the new connection gets no entry,
        and with a timeout the wheel then holds a wrapper of a connection the server does not know. */
    method OnAccept(name: string) returns (c: TcpConnection)
      requires Valid() && listening
      modifies this, Repr
      ensures fresh(Repr - old(Repr)) && fresh(c)
      ensures name !in old(connections) ==>
        && Valid() && !NameInUse(old(spec), name) && spec == Next(old(spec), Accept(name))
        && all == old(all) + [c] && connections == old(connections)[name := c]
      ensures name in old(connections) ==>
        && connections == old(connections) && all == old(all)
        && if old(spec).timeout == 0 then Valid() && spec == old(spec)
           else forall s {:trigger Implements(s)} :: !Implements(s)
    {
      c := new TcpConnection(name, |all|);
      c.onMessage := true;
      c.onConnectClose := true;
      var isNew := name !in connections;
      AddConnection(c);
      if isNew {
        Attach(c, c.id);
      } else if timerWheel.timeoutSec > 0 {
        AttachStray(c);
      }
    }

    method AttachStray(c: TcpConnection)
      requires timerWheel.Running() && timerWheel.timeoutSec > 0 && c !in all
      modifies this`connections, timerWheel, c
      ensures connections == old(connections)
      ensures forall s {:trigger Implements(s)} :: !Implements(s)
    {
      ghost var k := timerWheel.index;
      var wrapper := AddWrapper(c);
      assert wrapper in timerWheel.wheel[k];
      Stray(wrapper);
    }

    lemma Stray(w: ConnectionWrapper)
      requires w.connection !in all
      requires exists k :: 0 <= k < |timerWheel.wheel| && w in timerWheel.wheel[k]
      ensures forall s {:trigger Implements(s)} :: !Implements(s)
    {
      forall s ensures !Implements(s) {
        HeldIsListed(w, s);
      }
    }

    lemma HeldIsListed(w: ConnectionWrapper, s: Server)
      requires exists k :: 0 <= k < |timerWheel.wheel| && w in timerWheel.wheel[k]
      ensures Implements(s) ==> w.connection in all
    {
      if Implements(s) {
        var k :| 0 <= k < |timerWheel.wheel| && w in timerWheel.wheel[k];
        assert Listed(w);
      }
    }

    // ---------- The timer ----------

    /** A tick has moved the wheel on and cleared the wrappers `D` out of it; those in `rest` still
        have to give up their reference. A connection whose last reference is gone has been asked to
        close. */
    ghost predicate Ticking(s: Server, D: set<ConnectionWrapper>, rest: set<ConnectionWrapper>)
      requires |all| == |s.sessions| && InRepr()
      reads this`connections, this`all, this`Repr, Repr
    {
      forall j: nat {:trigger Dropping(j, s, D, rest)} :: j < |all| ==> Dropping(j, s, D, rest)
    }

    ghost predicate Dropping(j: nat, s: Server, D: set<ConnectionWrapper>, rest: set<ConnectionWrapper>)
      requires j < |all| == |s.sessions|
      reads this`connections, this`all, all[j], all[j].wrapper, timerWheel
    {
      && Wrapped(all[j], timerWheel.wheel, timerWheel.log, rest, s.sessions[j].last, s.now + 1)
      && var w: ConnectionWrapper := all[j].wrapper;
         Matches(all[j], j,
           if w in D && w !in rest && Count(timerWheel.wheel, w) == 0 then AskToClose(s.sessions[j]) else s.sessions[j],
           connections)
    }

    method DropOne(w: ConnectionWrapper, ghost D: set<ConnectionWrapper>, ghost rest: set<ConnectionWrapper>)
      requires |all| == |spec.sessions| && InRepr() && Ticking(spec, D, rest)
      requires w in rest && rest <= D && Knows(w.connection) && w.connection.wrapper == w
      modifies this`connections, w.connection, w
      ensures connections == old(connections) && InRepr() && Ticking(spec, D, rest - {w})
      ensures w.connection.wrapper == w
    {
      ghost var i := w.connection.id;
      assert Dropping(i, spec, D, rest);
      Release(w);
      assert InRepr();
      forall j: nat | j < |all| ensures Dropping(j, spec, D, rest - {w}) {
        assert old(Dropping(j, spec, D, rest));
      }
    }

    /** The cleared set of shared pointers is destroyed, one by one and in any order. */
    method DropAll(D: set<ConnectionWrapper>)
      requires |all| == |spec.sessions| && InRepr() && Ticking(spec, D, D)
      requires forall w {:trigger Listed(w)} :: w in D ==> Listed(w)
      modifies this`connections, Repr - {timerWheel}
      ensures connections == old(connections) && InRepr() && Ticking(spec, D, {})
      ensures forall j :: 0 <= j < |all| ==> all[j].wrapper == old(all[j].wrapper)
    {
      var rest := D;
      while rest != {}
        invariant rest <= D && connections == old(connections)
        invariant InRepr() && Ticking(spec, D, rest)
        invariant forall j :: 0 <= j < |all| ==> all[j].wrapper == old(all[j].wrapper)
        decreases |rest|
      {
        var w :| w in rest;
        assert old(Listed(w));
        DropOne(w, D, rest);
        rest := rest - {w};
      }
    }

    /** Moves the wheel on: what the cleared bucket held is about to be released. */
    method Turn() returns (dropped: set<ConnectionWrapper>)
      requires Valid() && spec.timeout > 0
      modifies timerWheel
      ensures InRepr() && timerWheel.Running() && timerWheel.timeoutSec == spec.timeout
      ensures |timerWheel.log| == spec.now + 2 && Ticking(spec, dropped, dropped)
      ensures forall w {:trigger Listed(w)} :: w in dropped ==> Listed(w)
      ensures forall k, w {:trigger Listed(w), timerWheel.wheel[k]} ::
        0 <= k < |timerWheel.wheel| && w in timerWheel.wheel[k] ==> Listed(w)
      ensures forall j: nat {:trigger IsDue(j, dropped)} :: j < |all| ==> IsDue(j, dropped)
    {
      ghost var wheel, log := timerWheel.wheel, timerWheel.log;
      dropped := timerWheel.WheelCallback();
      ghost var k := timerWheel.index;
      forall j: nat | j < |all| ensures Dropping(j, spec, dropped, dropped) && IsDue(j, dropped) {
        assert old(Wrap(j, spec)) && old(Conn(j, spec)) && Accounted(spec, spec.sessions[j]);
        var w: ConnectionWrapper := all[j].wrapper;
        CountUpdate(wheel, k, {}, w);
        LastAgeNextTick(log, w);
        DueMeaning(timerWheel.wheel, k, log, dropped, w);
      }
      forall w | w in dropped ensures Listed(w) {
        assert w in wheel[k] && old(Listed(w));
      }
      forall b, w | 0 <= b < |timerWheel.wheel| && w in timerWheel.wheel[b] ensures Listed(w) {
        assert w in wheel[b] && old(Listed(w));
      }
    }

    /** The tick takes the last reference to the wrapper exactly when the deadline has come. */
    ghost predicate IsDue(j: nat, dropped: set<ConnectionWrapper>)
      requires j < |all| == |spec.sessions|
      reads this`all, this`spec, all[j], timerWheel
    {
      all[j].wrapper != null &&
      var w: ConnectionWrapper := all[j].wrapper;
      (w in dropped && Count(timerWheel.wheel, w) == 0) <==> spec.sessions[j].last + spec.timeout == spec.now + 1
    }

    /** A tick with a timeout: `s` is the protocol state after it. */
    method Expire(ghost s: Server)
      requires Valid() && spec.timeout > 0 && s == Next(spec, Tick)
      modifies this`connections, Repr
      ensures connections == old(connections) && InRepr() && WheelGood(s)
      ensures forall j: nat {:trigger Conn(j, s)} {:trigger Wrap(j, s)} :: j < |all| ==> Conn(j, s) && Wrap(j, s)
    {
      var dropped := Turn();
      label Turned:
      DropAll(dropped);
      forall j: nat | j < |all| ensures Conn(j, s) && Wrap(j, s) {
        assert old@Turned(IsDue(j, dropped)) && Dropping(j, spec, dropped, {});
      }
      forall k, w | 0 <= k < |timerWheel.wheel| && w in timerWheel.wheel[k] ensures Listed(w) {
        assert old@Turned(Listed(w));
      }
    }

    /** The one-second timer: the idle connections are asked to close. */
    method OnTick()
      requires Valid()
      modifies this, Repr
      ensures Valid() && Repr == old(Repr) && all == old(all) && connections == old(connections)
      ensures spec == Next(old(spec), Tick)
    {
      ghost var s := Next(spec, Tick);
      InvStep(spec, Tick);
      if timerWheel.timeoutSec > 0 {
        Expire(s);
      } else {
        var dropped := timerWheel.WheelCallback();
        forall j: nat | j < |all| ensures Conn(j, s) && Wrap(j, s) {
          assert old(Conn(j, spec)) && old(Wrap(j, spec));
        }
      }
      forall name | name in connections ensures Entry(name, s) {
        assert old(Entry(name, spec));
      }
      spec := s;
    }

    // ---------- Closing the server ----------

    /** The connections of the map whose turn has come were asked to close. */
    ghost predicate Asked(j: nat, s: Server, names: set<string>)
      requires j < |all| == |s.sessions|
      reads this`connections, this`all, all[j]
    {
      var c := s.sessions[j];
      Matches(all[j], j, if c.name in names then c else AskToClose(c), connections)
    }

    method AskAll(ghost s: Server)
      requires |all| == |s.sessions| && InRepr() && Inv(s)
      requires forall j: nat {:trigger Conn(j, s)} :: j < |all| ==> Conn(j, s)
      requires forall name {:trigger Entry(name, s)} :: name in connections ==> Entry(name, s)
      modifies this`connections, all
      ensures connections == old(connections) && InRepr()
      ensures forall j: nat {:trigger Asked(j, s, {})} :: j < |all| ==> Asked(j, s, {})
      ensures forall j :: 0 <= j < |all| ==> all[j].wrapper == old(all[j].wrapper)
    {
      var names := connections.Keys;
      forall j: nat | j < |all| ensures Asked(j, s, names) { assert Conn(j, s); }
      while names != {}
        invariant names <= connections.Keys && connections == old(connections)
        invariant InRepr()
        invariant forall j: nat {:trigger Asked(j, s, names)} :: j < |all| ==> Asked(j, s, names)
        invariant forall j :: 0 <= j < |all| ==> all[j].wrapper == old(all[j].wrapper)
        decreases |names|
      {
        var name :| name in names;
        AskOne(name, s, names);
        names := names - {name};
      }
    }

    method AskOne(name: string, ghost s: Server, ghost names: set<string>)
      requires |all| == |s.sessions| && InRepr() && Inv(s)
      requires name in connections && Entry(name, s) && name in names
      requires forall j: nat {:trigger Asked(j, s, names)} :: j < |all| ==> Asked(j, s, names)
      modifies this`connections, all
      ensures connections == old(connections) && InRepr()
      ensures forall j: nat {:trigger Asked(j, s, names - {name})} :: j < |all| ==> Asked(j, s, names - {name})
      ensures forall j :: 0 <= j < |all| ==> all[j].wrapper == old(all[j].wrapper)
    {
      var c := connections[name];
      ghost var i := c.id;
      assert Entry(name, s) && Asked(i, s, names);
      SocketClose(c);
      forall j: nat | j < |all| ensures Asked(j, s, names - {name}) {
        assert old(Asked(j, s, names)) && Distinct(s, i, j);
      }
    }

    /** The completion of `TcpServer::close`. Asking a connection to close leaves the map alone, so
        iterating over the map is safe. */
    method OnServerClosed()
      requires Valid() && listening
      modifies this, Repr
      ensures Valid() && Repr == old(Repr) && all == old(all) && connections == old(connections)
      ensures spec == Next(old(spec), ServerClosed)
    {
      ghost var s := Next(spec, ServerClosed);
      InvStep(spec, ServerClosed);
      listening := false;
      AskAll(spec);
      spec := s;
      forall j: nat | j < |all| ensures Conn(j, s) && Wrap(j, s) {
        assert Asked(j, old(spec), {}) && old(Wrap(j, spec));
      }
      forall k, w | 0 <= k < |timerWheel.wheel| && w in timerWheel.wheel[k] ensures Listed(w) {
        assert old(Listed(w));
      }
      forall name | name in connections ensures Entry(name, s) {
        assert old(Entry(name, spec));
      }
    }

    // ---------- What this means for the objects ----------

    /** A wrapper is alive exactly while some bucket of the wheel holds it. */
    lemma AliveWhileHeld(i: nat)
      requires Valid() && i < |all| && timerWheel.timeoutSec > 0
      ensures all[i].wrapper != null
      ensures var w: ConnectionWrapper := all[i].wrapper; w.refs > 0 <==> Held(timerWheel.wheel, w)
    {
      assert Wrap(i, spec);
      var w: ConnectionWrapper := all[i].wrapper;
      CountHeld(timerWheel.wheel, w);
    }

    /** A wrapper that had expired in some earlier state `s` of the server is still gone, whatever
        happened since: no message has revived it. */
    lemma ExpiredForGood(s: Server, events: seq<Event>, i: nat)
      requires Valid() && Inv(s) && IsRun(s, events, spec) && i < |s.sessions|
      requires s.timeout > 0 && s.sessions[i].last + s.timeout <= s.now
      ensures i < |all| && all[i].wrapper != null && all[i].wrapper.refs == 0 && !all[i].onConnectClose
    {
      PastDeadline(s, events, spec, i);
      assert Wrap(i, spec) && Conn(i, spec) && Accounted(spec, spec.sessions[i]);
      OpenIsHeld(all[i], timerWheel.wheel, timerWheel.index, timerWheel.log, spec.sessions[i].last, spec.now);
    }

    /** What the history of the server says of connection `i`, accepted by event `a`: its handle is active
        exactly while nothing has asked for its close and it has been heard of, it writes until a read
        error or the end of the stream, and each of these and of the completions has had its effect. */
    lemma HistoryOf(timeout: nat, events: seq<Event>, i: nat, a: nat)
      requires Valid() && IsRun(ServerProtocol.Initial(timeout), events, spec) && AcceptedAt(events, i, a)
      ensures i < |all|
      ensures var c, n := all[i], |events|;
        && c.name == events[a].name && (c.handle == Active <==> StaysOpen(events, timeout, i, a, n))
        && (c.connected <==> CountBy(events, ReadError(i), n) == 0 && CountBy(events, Eof(i), n) == 0)
        && c.shutdowns + CountBy(events, ShutdownDone(i), n) == CountBy(events, Eof(i), n)
        && (c.handle == HandleClosed <==> CountBy(events, CloseDone(i), n) > 0)
    {
      OpenIff(timeout, events, spec, i, a);
      ReportsMeaning(timeout, events, spec, i, a);
      assert Conn(i, spec);
    }

    lemma IsKnown(i: nat)
      requires Valid() && i < |all|
      ensures Knows(all[i]) && all[i].id == i && all[i].handle == HandleOf(spec.sessions[i].phase)
      ensures spec.sessions[i].phase != Closed ==> all[i].name in connections && connections[all[i].name] == all[i]
    {
      assert Conn(i, spec);
    }

    /** A close callback that is still set means that the handle is not closing, so asking for the
        close never completes it at once and never removes an entry of the map. */
    lemma SafeToAsk(i: nat)
      requires Valid() && i < |all| && all[i].onConnectClose
      ensures all[i].handle == Active && all[i].name in connections && connections[all[i].name] == all[i]
      ensures all[i].closeCalls == 0 && all[i].notices == 0
    {
      assert Conn(i, spec) && Accounted(spec, spec.sessions[i]);
    }

    /** After the server has closed and libuv has nothing left to report, the map is empty, and each
        connection was closed once and its notification fired once. */
    lemma Drained()
      requires Valid() && !listening
      requires forall i: nat :: !Enabled(spec, CloseDone(i)) && !Enabled(spec, ShutdownDone(i))
      ensures connections == map[]
      ensures forall i :: 0 <= i < |all| ==>
        all[i].closeCalls == 1 && all[i].notices == 1 && all[i].handle == HandleClosed
    {
      forall i: nat | i < |all|
        ensures spec.sessions[i].phase == Closed
        ensures all[i].closeCalls == 1 && all[i].notices == 1 && all[i].handle == HandleClosed
      {
        assert Conn(i, spec) && Accounted(spec, spec.sessions[i]);
        assert !Enabled(spec, CloseDone(i)) && !Enabled(spec, ShutdownDone(i));
      }
      forall name ensures name !in connections {
        NamesInUse(name);
      }
    }
  }

  /** Performs one event; `accepted` has the connections so far. */
  method Perform(server: TcpServer, accepted: seq<TcpConnection>, e: Event) returns (accepted': seq<TcpConnection>)
    requires server.Valid() && accepted == server.all && Enabled(server.spec, e)
    modifies server, server.Repr
    ensures server.Valid() && fresh(server.Repr - old(server.Repr))
    ensures accepted' == server.all && server.spec == Next(old(server.spec), e)
  {
    accepted' := accepted;
    match e
    case Accept(name) =>
      server.NamesInUse(name);
      var c := server.OnAccept(name);
      accepted' := accepted + [c];
    case Message(i) => server.IsKnown(i); server.OnMessage(accepted[i]);
    case ReadError(i) => server.IsKnown(i); server.OnReadError(accepted[i]);
    case Eof(i) => server.IsKnown(i); server.OnEof(accepted[i]);
    case ShutdownDone(i) => server.IsKnown(i); server.OnShutdownDone(accepted[i]);
    case CloseDone(i) => server.IsKnown(i); server.OnCloseDone(accepted[i]);
    case UserClose(i) => server.IsKnown(i); server.UserCloses(accepted[i].name);
    case Tick => server.OnTick();
    case ServerClosed => server.OnServerClosed();
  }

  /** Whatever happens and in whatever order, the server does what the protocol says. */
  method Serve(timeout: nat, events: seq<Event>, ghost end: Server)
      returns (server: TcpServer, accepted: seq<TcpConnection>)
    requires IsRun(ServerProtocol.Initial(timeout), events, end)
    ensures server.Valid() && server.spec == end && accepted == server.all
  {
    server := new TcpServer(timeout);
    accepted := [];
    var n := 0;
    while n < |events|
      invariant 0 <= n <= |events|
      invariant server.Valid() && fresh(server) && fresh(server.Repr) && accepted == server.all
      invariant IsRun(server.spec, events[n..], end)
    {
      assert events[n..][1..] == events[n + 1..];
      accepted := Perform(server, accepted, events[n]);
      n := n + 1;
    }
  }

  /** A second close of a connection that is still closing is reached, and no protocol state is left. */
  method ServeSecondClose(timeout: nat, name: string) returns (server: TcpServer, c: TcpConnection)
    ensures c.notices == 1 && c.handle == HandleClosing && server.connections == map[]
    ensures forall s {:trigger server.Implements(s)} :: !server.Implements(s)
  {
    server := new TcpServer(timeout);
    c := server.OnAccept(name);
    assert c == server.all[0];
    server.IsKnown(0);
    server.UserCloses(name);
    server.IsKnown(0);
    server.UserCloses(name);
  }

  /** So is a second connection under a name that is still in the map, when there is a timeout. */
  method ServeReusedName(timeout: nat, name: string) returns (server: TcpServer)
    requires timeout > 0
    ensures forall s {:trigger server.Implements(s)} :: !server.Implements(s)
  {
    server := new TcpServer(timeout);
    var first := server.OnAccept(name);
    var second := server.OnAccept(name);
  }
}
