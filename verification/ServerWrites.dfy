/** The `write` and `write_in_loop` family of ae/tcp_server.cpp and ae/tcp_connection.cpp: every
    callback given to it is owed one call, and each is either still owed or has been made once.

    What libuv answers is a parameter: the result of `uv_write` and the status of a completion. The
    callbacks of the user are taken not to write in turn. */
module ServerWrites {
  import opened EventLoops
  import opened Options
  import opened TcpServers

  const DISCONNECTED := -1

  /** What a caller asks for. A callback is known by a number. */
  datatype Ask = Ask(data: string, callback: Option<nat>)

  /** A write that waits, in the queue of the loop or in libuv. `connection` is a weak pointer. */
  datatype Request = Request(connection: TcpConnection, ask: Ask)

  /** One call of a callback, with the data of its write. */
  datatype Notice = Notice(callback: nat, data: string, status: int)

  // ---------- Accounting ----------

  /** Whether `ask` owes the call `k`, a callback with its data. */
  function Owes(ask: Ask, k: (nat, string)): nat {
    if ask.callback == Some(k.0) && ask.data == k.1 then 1 else 0
  }

  function Asked(asks: seq<Ask>, k: (nat, string)): nat {
    if asks == [] then 0 else Owes(asks[0], k) + Asked(asks[1..], k)
  }

  function Awaited(requests: seq<Request>, k: (nat, string)): nat {
    if requests == [] then 0 else Owes(requests[0].ask, k) + Awaited(requests[1..], k)
  }

  function Made(fired: seq<Notice>, k: (nat, string)): nat {
    if fired == [] then 0 else (if (fired[0].callback, fired[0].data) == k then 1 else 0) + Made(fired[1..], k)
  }

  /** How often callback `id` was called, whatever it was told. */
  function Fires(fired: seq<Notice>, id: nat): nat {
    if fired == [] then 0 else (if fired[0].callback == id then 1 else 0) + Fires(fired[1..], id)
  }

  /** The calls asked for are those made and those that waiting writes still owe. */
  ghost predicate Balanced(asked: seq<Ask>, fired: seq<Notice>, inFlight: seq<Request>, tasks: seq<Request>,
      k: (nat, string))
  {
    Asked(asked, k) == Made(fired, k) + Awaited(inFlight, k) + Awaited(tasks, k)
  }

  lemma {:induction false} AskedAppend(asks: seq<Ask>, ask: Ask, k: (nat, string))
    ensures Asked(asks + [ask], k) == Asked(asks, k) + Owes(ask, k)
  {
    if asks == [] {
      assert asks + [ask] == [ask];
    } else {
      assert (asks + [ask])[1..] == asks[1..] + [ask];
      AskedAppend(asks[1..], ask, k);
    }
  }

  lemma {:induction false} AwaitedAppend(requests: seq<Request>, r: Request, k: (nat, string))
    ensures Awaited(requests + [r], k) == Awaited(requests, k) + Owes(r.ask, k)
  {
    if requests == [] {
      assert requests + [r] == [r];
    } else {
      assert (requests + [r])[1..] == requests[1..] + [r];
      AwaitedAppend(requests[1..], r, k);
    }
  }

  lemma {:induction false} AwaitedRemove(requests: seq<Request>, i: nat, k: (nat, string))
    requires i < |requests|
    ensures Awaited(requests, k) == Awaited(requests[..i] + requests[i + 1..], k) + Owes(requests[i].ask, k)
  {
    var rest := requests[..i] + requests[i + 1..];
    if i == 0 {
      assert rest == requests[1..];
    } else {
      assert rest[1..] == requests[1..][..i - 1] + requests[1..][i..];
      AwaitedRemove(requests[1..], i - 1, k);
    }
  }

  lemma {:induction false} MadeAppend(fired: seq<Notice>, n: Notice, k: (nat, string))
    ensures Made(fired + [n], k) == Made(fired, k) + if (n.callback, n.data) == k then 1 else 0
  {
    if fired == [] {
      assert fired + [n] == [n];
    } else {
      assert (fired + [n])[1..] == fired[1..] + [n];
      MadeAppend(fired[1..], n, k);
    }
  }

  function Told(ask: Ask, status: int): seq<Notice> {
    if ask.callback.Some? then [Notice(ask.callback.value, ask.data, status)] else []
  }

  /** The write was taken by libuv, or else its callback was told `status` at once. */
  ghost predicate Written(fired0: seq<Notice>, inFlight0: seq<Request>, fired: seq<Notice>, inFlight: seq<Request>,
      request: Request, status: int)
  {
    if status == 0 then fired == fired0 && inFlight == inFlight0 + [request]
    else fired == fired0 + Told(request.ask, status) && inFlight == inFlight0
  }

  /** One more write, `ask`, has been accounted for. */
  ghost predicate Settles(fired0: seq<Notice>, inFlight0: seq<Request>, tasks0: seq<Request>,
      fired: seq<Notice>, inFlight: seq<Request>, tasks: seq<Request>, ask: Ask, k: (nat, string))
  {
    Made(fired, k) + Awaited(inFlight, k) + Awaited(tasks, k)
      == Made(fired0, k) + Awaited(inFlight0, k) + Awaited(tasks0, k) + Owes(ask, k)
  }

  lemma ToldMade(fired: seq<Notice>, ask: Ask, status: int, k: (nat, string))
    ensures Made(fired + Told(ask, status), k) == Made(fired, k) + Owes(ask, k)
  {
    if ask.callback.Some? {
      MadeAppend(fired, Notice(ask.callback.value, ask.data, status), k);
    } else {
      assert fired + Told(ask, status) == fired;
    }
  }

  lemma WrittenSettles(fired0: seq<Notice>, inFlight0: seq<Request>, fired: seq<Notice>, inFlight: seq<Request>,
      tasks: seq<Request>, request: Request, status: int, k: (nat, string))
    requires Written(fired0, inFlight0, fired, inFlight, request, status)
    ensures Settles(fired0, inFlight0, tasks, fired, inFlight, tasks, request.ask, k)
  {
    ToldMade(fired0, request.ask, status, k);
    AwaitedAppend(inFlight0, request, k);
  }

  // ---------- One callback ----------

  /** How many writes were given callback `id`. */
  function Uses(asks: seq<Ask>, id: nat): nat {
    if asks == [] then 0 else (if asks[0].callback == Some(id) then 1 else 0) + Uses(asks[1..], id)
  }

  lemma {:induction false} AskedIsUse(asks: seq<Ask>, id: nat, data: string, other: string)
    ensures Asked(asks, (id, data)) + (if other == data then 0 else Asked(asks, (id, other))) <= Uses(asks, id)
  {
    if asks != [] {
      AskedIsUse(asks[1..], id, data, other);
    }
  }

  lemma {:induction false} FiresMeaning(fired: seq<Notice>, id: nat, data: string)
    requires forall d :: d != data ==> Made(fired, (id, d)) == 0
    ensures Fires(fired, id) == Made(fired, (id, data))
  {
    if fired != [] {
      forall d | d != data ensures Made(fired[1..], (id, d)) == 0 {
        assert Made(fired, (id, d)) == 0;
      }
      assert Made(fired, (fired[0].callback, fired[0].data)) > 0;
      FiresMeaning(fired[1..], id, data);
    }
  }

  /** A callback given with one write is called once, with the data of that write, or is still to
      be called by exactly one of the writes that wait. */
  lemma FiresOnce(asked: seq<Ask>, fired: seq<Notice>, inFlight: seq<Request>, tasks: seq<Request>,
      id: nat, data: string)
    requires forall k {:trigger Balanced(asked, fired, inFlight, tasks, k)} ::
      Balanced(asked, fired, inFlight, tasks, k)
    requires Uses(asked, id) == 1 == Asked(asked, (id, data))
    ensures Fires(fired, id) == Made(fired, (id, data))
    ensures Fires(fired, id) + Awaited(inFlight, (id, data)) + Awaited(tasks, (id, data)) == 1
  {
    forall d | d != data ensures Made(fired, (id, d)) == 0 {
      AskedIsUse(asked, id, data, d);
      assert Balanced(asked, fired, inFlight, tasks, (id, d));
    }
    FiresMeaning(fired, id, data);
    assert Balanced(asked, fired, inFlight, tasks, (id, data));
  }

  // ---------- The server ----------

  class Writer {
    const loop: EventLoop<Request>
    var connections: map<string, TcpConnection>
    var gone: set<TcpConnection>
    var inFlight: seq<Request>
    var fired: seq<Notice>
    ghost var asked: seq<Ask>

    /** Conservation: the calls asked for are those made and those that waiting writes still owe.
        A connection of the map is alive. */
    ghost predicate Valid()
      reads this, loop
    {
      && (forall k {:trigger Balanced(asked, fired, inFlight, loop.tasks, k)} ::
            Balanced(asked, fired, inFlight, loop.tasks, k))
      && forall name :: name in connections ==> connections[name] !in gone
    }

    constructor ()
      ensures Valid() && fresh(loop) && asked == [] && connections == map[] && gone == {}
      ensures loop.status == NotStarted && loop.tasks == [] && inFlight == [] && fired == []
    {
      connections, gone, inFlight, fired, asked := map[], {}, [], [], [];
      loop := new EventLoop();
    }

    method Notify(ask: Ask, status: int)
      modifies this`fired
      ensures fired == old(fired) + Told(ask, status)
    {
      if ask.callback.Some? {
        fired := fired + [Notice(ask.callback.value, ask.data, status)];
      }
    }

    /** `TcpConnection::write`, where libuv answers `answer` if it is asked. The callback is called
        at once exactly when libuv has not taken the write. */
    method WriteTo(c: TcpConnection, ask: Ask, answer: int) returns (rst: int)
      modifies this`inFlight, this`fired
      ensures rst == if c.connected then answer else -1
      ensures rst == 0 ==> inFlight == old(inFlight) + [Request(c, ask)] && fired == old(fired)
      ensures rst != 0 ==> inFlight == old(inFlight) && match ask.callback
        case None => fired == old(fired)
        case Some(id) => fired == old(fired) + [Notice(id, ask.data, rst)]
    {
      if c.connected {
        rst := answer;
        if rst == 0 {
          inFlight := inFlight + [Request(c, ask)];
        } else {
          Notify(ask, rst);
        }
      } else {
        rst := -1;
        Notify(ask, DISCONNECTED);
      }
    }

    /** `TcpServer::write` by name. */
    method Write(name: string, ask: Ask, answer: int)
      requires Valid()
      modifies this`inFlight, this`fired, this`asked
      ensures Valid() && asked == old(asked) + [ask]
      ensures var status := if name in connections && connections[name].connected then answer else -1;
        if status == 0 then inFlight == old(inFlight) + [Request(connections[name], ask)] && fired == old(fired)
        else inFlight == old(inFlight) && match ask.callback
          case None => fired == old(fired)
          case Some(id) => fired == old(fired) + [Notice(id, ask.data, status)]
    {
      if name in connections {
        var c := connections[name];
        var rst := WriteTo(c, ask, answer);
        forall k ensures Settles(old(fired), old(inFlight), loop.tasks, fired, inFlight, loop.tasks, ask, k) {
          WrittenSettles(old(fired), old(inFlight), fired, inFlight, loop.tasks, Request(c, ask), rst, k);
        }
      } else {
        Notify(ask, DISCONNECTED);
        forall k ensures Settles(old(fired), old(inFlight), loop.tasks, fired, inFlight, loop.tasks, ask, k) {
          ToldMade(old(fired), ask, DISCONNECTED, k);
        }
      }
      Record(ask, old(fired), old(inFlight), loop.tasks);
    }

    ghost method Record(ask: Ask, fired0: seq<Notice>, inFlight0: seq<Request>, tasks0: seq<Request>)
      requires forall k {:trigger Balanced(asked, fired0, inFlight0, tasks0, k)} ::
        Balanced(asked, fired0, inFlight0, tasks0, k)
      requires forall k {:trigger Settles(fired0, inFlight0, tasks0, fired, inFlight, loop.tasks, ask, k)} ::
        Settles(fired0, inFlight0, tasks0, fired, inFlight, loop.tasks, ask, k)
      requires forall name :: name in connections ==> connections[name] !in gone
      modifies this`asked
      ensures Valid() && asked == old(asked) + [ask]
    {
      forall k ensures Balanced(asked + [ask], fired, inFlight, loop.tasks, k) {
        assert Balanced(asked, fired0, inFlight0, tasks0, k);
        assert Settles(fired0, inFlight0, tasks0, fired, inFlight, loop.tasks, ask, k);
        AskedAppend(asked, ask, k);
      }
      asked := asked + [ask];
    }

    /** `TcpServer::write_in_loop` by name, called in thread `me`. */
    method WriteInLoop(me: nat, name: string, ask: Ask, answer: int)
      requires Valid()
      modifies this`inFlight, this`fired, this`asked, loop`tasks
      ensures Valid() && asked == old(asked) + [ask]
      ensures name in connections && !loop.RunsHere(me) ==>
        && fired == old(fired) && inFlight == old(inFlight)
        && loop.tasks == old(loop.tasks) + [Request(connections[name], ask)]
      ensures name !in connections || loop.RunsHere(me) ==>
        var status := if name in connections && connections[name].connected then answer else -1;
        && loop.tasks == old(loop.tasks)
        && if status == 0 then inFlight == old(inFlight) + [Request(connections[name], ask)] && fired == old(fired)
           else inFlight == old(inFlight) && match ask.callback
             case None => fired == old(fired)
             case Some(id) => fired == old(fired) + [Notice(id, ask.data, status)]
    {
      if name in connections {
        var request := Request(connections[name], ask);
        var direct := loop.RunInThisLoop(me, Some(request));
        if direct {
          var ok := Perform(request, answer);
          ghost var status := if request.connection.connected then answer else -1;
          forall k ensures Settles(old(fired), old(inFlight), loop.tasks, fired, inFlight, loop.tasks, ask, k) {
            WrittenSettles(old(fired), old(inFlight), fired, inFlight, loop.tasks, request, status, k);
          }
        } else {
          forall k ensures Settles(fired, inFlight, old(loop.tasks), fired, inFlight, loop.tasks, ask, k) {
            AwaitedAppend(old(loop.tasks), request, k);
          }
        }
      } else {
        Notify(ask, DISCONNECTED);
        forall k ensures Settles(old(fired), old(inFlight), loop.tasks, fired, inFlight, loop.tasks, ask, k) {
          ToldMade(old(fired), ask, DISCONNECTED, k);
        }
      }
      Record(ask, old(fired), old(inFlight), old(loop.tasks));
    }

    /** The function that `TcpConnection::write_in_loop` gives to the loop. It calls an empty
        callback, which throws, exactly when the connection is gone and there is no callback. */
    method Perform(request: Request, answer: int) returns (ok: bool)
      modifies this`inFlight, this`fired
      ensures var status := if request.connection !in gone && request.connection.connected then answer else -1;
        if status == 0 then inFlight == old(inFlight) + [request] && fired == old(fired)
        else inFlight == old(inFlight) && match request.ask.callback
          case None => fired == old(fired)
          case Some(id) => fired == old(fired) + [Notice(id, request.ask.data, status)]
      ensures ok <==> request.connection !in gone || request.ask.callback.Some?
    {
      ok := true;
      if request.connection !in gone {
        var rst := WriteTo(request.connection, request.ask, answer);
      } else {
        ok := request.ask.callback.Some?;
        Notify(request.ask, DISCONNECTED);
      }
    }

    /** The next task throws: the connection is gone and the write came without a callback. */
    predicate Throws()
      reads this, loop
    {
      loop.status == Started && loop.tasks != [] && loop.tasks[0].connection in gone && loop.tasks[0].ask.callback.None?
    }

    /** The running loop takes the front task of its queue. */
    method RunTask(answer: int) returns (ok: bool)
      requires Valid() && loop.status == Started && loop.tasks != []
      modifies this`inFlight, this`fired, loop`tasks
      ensures Valid() && loop.tasks == old(loop.tasks)[1..]
      ensures ok <==> !old(Throws())
      ensures var request := old(loop.tasks)[0];
        var status := if request.connection !in gone && request.connection.connected then answer else -1;
        if status == 0 then inFlight == old(inFlight) + [request] && fired == old(fired)
        else inFlight == old(inFlight) && match request.ask.callback
          case None => fired == old(fired)
          case Some(id) => fired == old(fired) + [Notice(id, request.ask.data, status)]
    {
      var request := loop.tasks[0];
      loop.tasks := loop.tasks[1..];
      ok := Perform(request, answer);
      ghost var status := if request.connection !in gone && request.connection.connected then answer else -1;
      forall k ensures Balanced(asked, fired, inFlight, loop.tasks, k) {
        WrittenSettles(old(fired), old(inFlight), fired, inFlight, loop.tasks, request, status, k);
        assert Balanced(asked, old(fired), old(inFlight), old(loop.tasks), k);
      }
    }

    /** libuv completes a write it has taken, and reports `status`. */
    method Complete(i: nat, status: int)
      requires Valid() && i < |inFlight|
      modifies this`inFlight, this`fired
      ensures Valid() && inFlight == old(inFlight)[..i] + old(inFlight)[i + 1..]
      ensures var ask := old(inFlight)[i].ask;
        match ask.callback
        case None => fired == old(fired)
        case Some(id) => fired == old(fired) + [Notice(id, ask.data, status)]
    {
      var request := inFlight[i];
      inFlight := inFlight[..i] + inFlight[i + 1..];
      Notify(request.ask, status);
      forall k ensures Balanced(asked, fired, inFlight, loop.tasks, k) {
        AwaitedRemove(old(inFlight), i, k);
        ToldMade(old(fired), request.ask, status, k);
        assert Balanced(asked, old(fired), old(inFlight), loop.tasks, k);
      }
    }

    // ---------- Connections come and go ----------

    method Connect(name: string)
      requires Valid()
      modifies this`connections
      ensures Valid() && (name in old(connections) ==> connections == old(connections))
      ensures name !in old(connections) ==>
        name in connections && fresh(connections[name]) && connections == old(connections)[name := connections[name]]
    {
      if name !in connections {
        var c := new TcpConnection(name, 0);
        connections := connections[name := c];
      }
    }

    /** The map gives up its pointer; someone else may still hold one. */
    method Remove(name: string)
      requires Valid()
      modifies this`connections
      ensures Valid() && connections == old(connections) - {name}
    {
      connections := connections - {name};
    }

    /** The last pointer to a connection that is not in the map goes. */
    method Expire(c: TcpConnection)
      requires Valid() && forall name :: name in connections ==> connections[name] != c
      modifies this`gone
      ensures Valid() && gone == old(gone) + {c}
    {
      gone := gone + {c};
    }
  }

  // ---------- Whole runs ----------

  /** What may happen, in any order; an event that is impossible at its time does not happen.
      `Expire(i)` drops the last pointer to the `i`-th connection made. */
  datatype Event =
    | Run(thread: nat) | Return(noWait: bool)
    | Connect(name: string) | Disconnect(name: string) | Remove(name: string) | Expire(i: nat)
    | Write(name: string, ask: Ask, answer: int) | WriteInLoop(thread: nat, name: string, ask: Ask, answer: int)
    | Task(answer: int) | Completion(i: nat, status: int)

  function AsksOf(e: Event): seq<Ask> {
    match e
    case Write(_, ask, _) => [ask]
    case WriteInLoop(_, _, ask, _) => [ask]
    case _ => []
  }

  /** All the writes asked for, in order. */
  function Asks(events: seq<Event>): seq<Ask> {
    if events == [] then [] else Asks(events[..|events| - 1]) + AsksOf(events[|events| - 1])
  }

  /** What decides where a task runs and whether it finds its connection: no answer of libuv does.
      Connections are numbered as they are made. */
  datatype World = World(status: Status, thread: nat, made: nat, live: map<string, nat>, gone: set<nat>,
                         waiting: seq<(nat, Ask)>)

  function Step(v: World, e: Event): World {
    match e
    case Run(thread) => if v.status == NotStarted then v.(status := Started, thread := thread) else v
    case Return(noWait) => if v.status == Started then v.(status := if noWait then NotStarted else Stopped) else v
    case Connect(name) => if name in v.live then v else v.(made := v.made + 1, live := v.live[name := v.made])
    case Remove(name) => v.(live := v.live - {name})
    case Expire(i) => if i < v.made && i !in v.live.Values then v.(gone := v.gone + {i}) else v
    case WriteInLoop(thread, name, ask, _) =>
      if name in v.live && v.status != Stopped && !(v.status == Started && thread == v.thread)
      then v.(waiting := v.waiting + [(v.live[name], ask)]) else v
    case Task(_) => if v.status == Started && v.waiting != [] then v.(waiting := v.waiting[1..]) else v
    case _ => v
  }

  function After(events: seq<Event>): World {
    if events == [] then World(NotStarted, 0, 0, map[], {}, [])
    else Step(After(events[..|events| - 1]), events[|events| - 1])
  }

  /** The front task throws: its connection is gone and its write came without a callback. */
  predicate FrontThrows(v: World) {
    v.status == Started && v.waiting != [] && v.waiting[0].0 in v.gone && v.waiting[0].1.callback.None?
  }

  predicate ThrowsAt(events: seq<Event>, n: nat)
    requires n < |events|
  {
    events[n].Task? && FrontThrows(After(events[..n]))
  }

  lemma AfterSnoc(events: seq<Event>, n: nat)
    requires n < |events|
    ensures After(events[..n + 1]) == Step(After(events[..n]), events[n])
    ensures Asks(events[..n + 1]) == Asks(events[..n]) + AsksOf(events[n])
  {
    assert events[..n + 1][..n] == events[..n];
  }

  ghost predicate Apart(made: seq<TcpConnection>, i: nat, j: nat) {
    i < |made| && j < |made| && i != j ==> made[i] != made[j]
  }

  ghost predicate NameAlike(v: World, connections: map<string, TcpConnection>, made: seq<TcpConnection>, name: string) {
    && (name in connections <==> name in v.live)
    && (name in v.live ==> v.live[name] < |made| && connections[name] == made[v.live[name]])
  }

  ghost predicate GoneAlike(v: World, gone: set<TcpConnection>, made: seq<TcpConnection>, i: nat) {
    if i < |made| then made[i] in gone <==> i in v.gone else i !in v.gone
  }

  ghost predicate TaskAlike(v: World, tasks: seq<Request>, made: seq<TcpConnection>, k: nat) {
    k < |tasks| && k < |v.waiting| ==>
      v.waiting[k].0 < |made| && tasks[k] == Request(made[v.waiting[k].0], v.waiting[k].1)
  }

  /** The connections are those of the state `v`; `made` has all of them. */
  ghost predicate Connected(v: World, connections: map<string, TcpConnection>, gone: set<TcpConnection>,
      tasks: seq<Request>, made: seq<TcpConnection>)
  {
    && |made| == v.made && |tasks| == |v.waiting|
    && (forall i: nat, j: nat {:trigger Apart(made, i, j)} :: Apart(made, i, j))
    && (forall name {:trigger NameAlike(v, connections, made, name)} :: NameAlike(v, connections, made, name))
    && (forall i: nat {:trigger GoneAlike(v, gone, made, i)} :: GoneAlike(v, gone, made, i))
    && (forall k: nat {:trigger TaskAlike(v, tasks, made, k)} :: TaskAlike(v, tasks, made, k))
  }

  /** The objects are in the state `v`. */
  ghost predicate Mirrors(v: World, w: Writer, made: seq<TcpConnection>)
    reads w, w.loop
  {
    && w.loop.status == v.status && (v.status == Started ==> w.loop.loopThread == v.thread)
    && Connected(v, w.connections, w.gone, w.loop.tasks, made)
  }

  lemma ConnectAlike(v: World, connections: map<string, TcpConnection>, gone: set<TcpConnection>,
      tasks: seq<Request>, made: seq<TcpConnection>, name: string, c: TcpConnection)
    requires Connected(v, connections, gone, tasks, made) && name !in connections && c !in made && c !in gone
    ensures Connected(Step(v, Connect(name)), connections[name := c], gone, tasks, made + [c])
  {
    var v', made', connections' := Step(v, Connect(name)), made + [c], connections[name := c];
    assert NameAlike(v, connections, made, name);
    forall i: nat, j: nat ensures Apart(made', i, j) { assert Apart(made, i, j); }
    forall n ensures NameAlike(v', connections', made', n) { assert NameAlike(v, connections, made, n); }
    forall i: nat ensures GoneAlike(v', gone, made', i) { assert GoneAlike(v, gone, made, i); }
    forall k: nat ensures TaskAlike(v', tasks, made', k) { assert TaskAlike(v, tasks, made, k); }
  }

  lemma RemoveAlike(v: World, connections: map<string, TcpConnection>, gone: set<TcpConnection>,
      tasks: seq<Request>, made: seq<TcpConnection>, name: string)
    requires Connected(v, connections, gone, tasks, made)
    ensures Connected(Step(v, Remove(name)), connections - {name}, gone, tasks, made)
  {
    var v', connections' := Step(v, Remove(name)), connections - {name};
    forall n ensures NameAlike(v', connections', made, n) { assert NameAlike(v, connections, made, n); }
    forall i: nat ensures GoneAlike(v', gone, made, i) { assert GoneAlike(v, gone, made, i); }
    forall k: nat ensures TaskAlike(v', tasks, made, k) { assert TaskAlike(v, tasks, made, k); }
  }

  lemma ExpireAlike(v: World, connections: map<string, TcpConnection>, gone: set<TcpConnection>,
      tasks: seq<Request>, made: seq<TcpConnection>, i: nat)
    requires Connected(v, connections, gone, tasks, made)
    ensures i < |made| ==> (made[i] in connections.Values <==> i in v.live.Values)
    ensures Connected(Step(v, Expire(i)), connections,
      if i < |made| && made[i] !in connections.Values then gone + {made[i]} else gone, tasks, made)
  {
    if i < |made| {
      if n :| n in connections && connections[n] == made[i] {
        assert NameAlike(v, connections, made, n) && Apart(made, i, v.live[n]);
      }
      if n :| n in v.live && v.live[n] == i {
        assert NameAlike(v, connections, made, n);
      }
    }
    var v' := Step(v, Expire(i));
    var gone' := if i < |made| && made[i] !in connections.Values then gone + {made[i]} else gone;
    forall n ensures NameAlike(v', connections, made, n) { assert NameAlike(v, connections, made, n); }
    forall j: nat ensures GoneAlike(v', gone', made, j) { assert GoneAlike(v, gone, made, j) && Apart(made, i, j); }
    forall k: nat ensures TaskAlike(v', tasks, made, k) { assert TaskAlike(v, tasks, made, k); }
  }

  lemma TasksAlike(v: World, connections: map<string, TcpConnection>, gone: set<TcpConnection>,
      tasks: seq<Request>, made: seq<TcpConnection>, e: Event, tasks': seq<Request>)
    requires Connected(v, connections, gone, tasks, made) && !e.Connect? && !e.Remove? && !e.Expire?
    requires |tasks'| == |Step(v, e).waiting|
    requires forall k: nat {:trigger TaskAlike(Step(v, e), tasks', made, k)} :: TaskAlike(Step(v, e), tasks', made, k)
    ensures Connected(Step(v, e), connections, gone, tasks', made)
  {
    forall n ensures NameAlike(Step(v, e), connections, made, n) { assert NameAlike(v, connections, made, n); }
    forall i: nat ensures GoneAlike(Step(v, e), gone, made, i) { assert GoneAlike(v, gone, made, i); }
  }

  // ---------- What a callback is told, and by which event ----------

  /** A write that libuv has not taken: -1 for a connection that is missing, disconnected or gone, else
      what libuv answered. */
  predicate Failed(answer: int, status: int) {
    status == -1 || (status == answer && answer != 0)
  }

  /** Event `e` may make the call `n`: a completion with its status, a failed write with the data and
      callback of that write. */
  predicate Causes(e: Event, n: Notice) {
    match e
    case Completion(_, status) => n.status == status
    case Write(_, ask, answer) => ask == Ask(n.data, Some(n.callback)) && Failed(answer, n.status)
    case WriteInLoop(_, _, ask, answer) => ask == Ask(n.data, Some(n.callback)) && Failed(answer, n.status)
    case Task(answer) => Failed(answer, n.status)
    case _ => false
  }

  /** The calls made since are caused by `e`. */
  ghost predicate OnlyCaused(fired0: seq<Notice>, fired: seq<Notice>, e: Event) {
    fired0 <= fired && forall k :: |fired0| <= k < |fired| ==> Causes(e, fired[k])
  }

  ghost predicate HasCause(events: seq<Event>, n: nat, notice: Notice) {
    exists m: nat {:trigger events[m]} :: m < n && m < |events| && Causes(events[m], notice)
  }

  ghost predicate AllCaused(events: seq<Event>, n: nat, fired: seq<Notice>) {
    forall k {:trigger fired[k]} :: 0 <= k < |fired| ==> HasCause(events, n, fired[k])
  }

  lemma CausedStep(events: seq<Event>, n: nat, fired0: seq<Notice>, fired: seq<Notice>)
    requires n < |events| && AllCaused(events, n, fired0) && OnlyCaused(fired0, fired, events[n])
    ensures AllCaused(events, n + 1, fired)
  {
    forall k | 0 <= k < |fired| ensures HasCause(events, n + 1, fired[k]) {
      if k < |fired0| {
        assert fired[k] == fired0[k] && HasCause(events, n, fired0[k]);
        var m: nat :| m < n && m < |events| && Causes(events[m], fired0[k]);
        assert Causes(events[m], fired[k]);
      } else {
        assert Causes(events[n], fired[k]);
      }
    }
  }

  predicate IsConnecting(e: Event) {
    e.Connect? || e.Disconnect? || e.Remove? || e.Expire?
  }

  /** A connection comes, changes or goes. */
  method PerformConnecting(w: Writer, made: seq<TcpConnection>, e: Event, ghost v: World)
    returns (made': seq<TcpConnection>)
    requires w.Valid() && Mirrors(v, w, made) && IsConnecting(e)
    modifies w, made
    ensures w.Valid() && w.asked == old(w.asked) && w.fired == old(w.fired) && Mirrors(Step(v, e), w, made')
    ensures e.Disconnect? && e.name in w.connections ==> !w.connections[e.name].connected
    ensures made <= made' && forall i :: |made| <= i < |made'| ==> fresh(made'[i])
  {
    made' := made;
    match e {
      case Connect(name) =>
        assert NameAlike(v, w.connections, made, name);
        if name !in w.connections {
          ghost var before := w.connections;
          w.Connect(name);
          made' := made + [w.connections[name]];
          ConnectAlike(v, before, w.gone, w.loop.tasks, made, name, w.connections[name]);
        }
      case Disconnect(name) =>
        assert NameAlike(v, w.connections, made, name);
        if name in w.connections { w.connections[name].connected := false; }
      case Remove(name) =>
        RemoveAlike(v, w.connections, w.gone, w.loop.tasks, made, name);
        w.Remove(name);
      case Expire(i) =>
        ExpireAlike(v, w.connections, w.gone, w.loop.tasks, made, i);
        if i < |made| && made[i] !in w.connections.Values { w.Expire(made[i]); }
    }
  }

  /** The loop or a write moves. */
  method PerformMoving(w: Writer, made: seq<TcpConnection>, e: Event, ghost v: World) returns (ok: bool)
    requires w.Valid() && Mirrors(v, w, made) && !IsConnecting(e)
    modifies w, w.loop
    ensures w.Valid() && w.asked == old(w.asked) + AsksOf(e) && Mirrors(Step(v, e), w, made)
    ensures OnlyCaused(old(w.fired), w.fired, e)
    ensures ok <==> !(e.Task? && FrontThrows(v))
  {
    ok := true;
    match e {
      case Run(thread) => var entered := w.loop.Enter(thread);
      case Return(noWait) => if w.loop.status == Started { w.loop.Leave(noWait); }
      case Write(name, ask, answer) => w.Write(name, ask, answer);
      case WriteInLoop(thread, name, ask, answer) =>
        assert NameAlike(v, w.connections, made, name);
        w.WriteInLoop(thread, name, ask, answer);
      case Task(answer) =>
        if w.loop.status == Started && w.loop.tasks != [] {
          assert TaskAlike(v, w.loop.tasks, made, 0) && GoneAlike(v, w.gone, made, v.waiting[0].0);
          ok := w.RunTask(answer);
        }
      case Completion(i, status) =>
        if w.loop.status == Started && i < |w.inFlight| { w.Complete(i, status); }
    }
    forall k: nat ensures TaskAlike(Step(v, e), w.loop.tasks, made, k) {
      assert TaskAlike(v, old(w.loop.tasks), made, k) && TaskAlike(v, old(w.loop.tasks), made, k + 1);
    }
    TasksAlike(v, w.connections, w.gone, old(w.loop.tasks), made, e, w.loop.tasks);
  }

  method Perform(w: Writer, made: seq<TcpConnection>, e: Event, ghost v: World)
    returns (ok: bool, made': seq<TcpConnection>)
    requires w.Valid() && Mirrors(v, w, made)
    modifies w, w.loop, made
    ensures w.Valid() && w.asked == old(w.asked) + AsksOf(e) && Mirrors(Step(v, e), w, made')
    ensures OnlyCaused(old(w.fired), w.fired, e)
    ensures ok <==> !(e.Task? && FrontThrows(v))
    ensures made <= made' && forall i :: |made| <= i < |made'| ==> fresh(made'[i])
  {
    ok, made' := true, made;
    if IsConnecting(e) {
      made' := PerformConnecting(w, made, e, v);
    } else {
      ok := PerformMoving(w, made, e, v);
    }
  }

  /** None of the first `n` events throws. */
  predicate NoThrow(events: seq<Event>, n: nat)
    requires n <= |events|
  {
    n == 0 || (NoThrow(events, n - 1) && !ThrowsAt(events, n - 1))
  }

  lemma {:induction false} NoThrowMeaning(events: seq<Event>, n: nat)
    requires n <= |events|
    ensures NoThrow(events, n) <==> forall m {:trigger ThrowsAt(events, m)} :: 0 <= m < n ==> !ThrowsAt(events, m)
  {
    if n > 0 { NoThrowMeaning(events, n - 1); }
  }

  /** The next event of a run. */
  method ServeOne(w: Writer, made: seq<TcpConnection>, events: seq<Event>, n: nat)
    returns (ok: bool, made': seq<TcpConnection>)
    requires n < |events| && w.Valid() && w.asked == Asks(events[..n]) && Mirrors(After(events[..n]), w, made)
    requires AllCaused(events, n, w.fired)
    modifies w, w.loop, made
    ensures w.Valid() && w.asked == Asks(events[..n + 1]) && Mirrors(After(events[..n + 1]), w, made')
    ensures AllCaused(events, n + 1, w.fired)
    ensures ok <==> !ThrowsAt(events, n)
    ensures made <= made' && forall i :: |made| <= i < |made'| ==> fresh(made'[i])
  {
    AfterSnoc(events, n);
    ok, made' := Perform(w, made, events[n], After(events[..n]));
    CausedStep(events, n, old(w.fired), w.fired);
  }

  /** How a run ends: after all events, none of which throws, or behind the first that does. */
  predicate Ends(events: seq<Event>, ok: bool, done: nat) {
    && done <= |events|
    && if ok then done == |events| && NoThrow(events, done) else done > 0 && ThrowsAt(events, done - 1)
  }

  method ServeAll(events: seq<Event>) returns (w: Writer, ok: bool, done: nat)
    ensures done <= |events| && w.Valid() && w.asked == Asks(events[..done]) && Ends(events, ok, done)
    ensures AllCaused(events, done, w.fired)
  {
    w := new Writer();
    ok, done := true, 0;
    var made := [];
    while done < |events| && ok
      invariant 0 <= done <= |events| && w.Valid() && w.asked == Asks(events[..done])
      invariant fresh(w) && fresh(w.loop) && forall i :: 0 <= i < |made| ==> fresh(made[i])
      invariant Mirrors(After(events[..done]), w, made) && AllCaused(events, done, w.fired)
      invariant if ok then NoThrow(events, done) else done > 0 && ThrowsAt(events, done - 1)
      decreases |events| - done, ok
    {
      ok, made := ServeOne(w, made, events, done);
      done := done + 1;
    }
  }

  /** Over any run every callback asked for is called once for each time it was asked for, or is
      still owed by a write that waits; once none waits, all were called. What a callback is told comes
      from the event that called it: success from a completion only. The run ends early exactly when
      some task throws, which the events alone tell. */
  method Serve(events: seq<Event>) returns (w: Writer, ok: bool, done: nat)
    ensures done <= |events| && w.Valid() && w.asked == Asks(events[..done]) && (ok ==> done == |events|)
    ensures ok <==> NoThrow(events, |events|)
    ensures !ok ==> done > 0 && ThrowsAt(events, done - 1)
    ensures ok && w.inFlight == w.loop.tasks == [] ==> forall k :: Made(w.fired, k) == Asked(Asks(events), k)
    ensures AllCaused(events, done, w.fired)
    ensures forall k :: 0 <= k < |w.fired| && w.fired[k].status == 0 ==>
      exists m :: 0 <= m < done && events[m].Completion? && events[m].status == 0
  {
    w, ok, done := ServeAll(events);
    assert events[..|events|] == events;
    NoThrowMeaning(events, |events|);
    if ok && w.inFlight == w.loop.tasks == [] {
      AllMade(w.asked, w.fired);
    }
    forall k | 0 <= k < |w.fired| && w.fired[k].status == 0
      ensures exists m :: 0 <= m < done && events[m].Completion? && events[m].status == 0
    {
      SuccessIsCompletion(events, done, w.fired[k]);
    }
  }

  lemma SuccessIsCompletion(events: seq<Event>, n: nat, notice: Notice)
    requires HasCause(events, n, notice) && notice.status == 0
    ensures exists m :: 0 <= m < n && m < |events| && events[m].Completion? && events[m].status == 0
  {
    var m: nat :| m < n && m < |events| && Causes(events[m], notice);
    assert events[m].Completion?;
  }

  lemma AllMade(asked: seq<Ask>, fired: seq<Notice>)
    requires forall k {:trigger Balanced(asked, fired, [], [], k)} :: Balanced(asked, fired, [], [], k)
    ensures forall k :: Made(fired, k) == Asked(asked, k)
  {
    forall k ensures Made(fired, k) == Asked(asked, k) {
      assert Balanced(asked, fired, [], [], k);
    }
  }

  // ---------- When a run throws ----------

  /** Never, if every `write_in_loop` comes with a callback. */
  lemma {:induction false} CallbacksPreventThrow(events: seq<Event>)
    requires forall n :: 0 <= n < |events| && events[n].WriteInLoop? ==> events[n].ask.callback.Some?
    ensures forall k :: 0 <= k < |After(events).waiting| ==> After(events).waiting[k].1.callback.Some?
    ensures NoThrow(events, |events|)
  {
    if events != [] {
      var past := events[..|events| - 1];
      CallbacksPreventThrow(past);
      NoThrowMeaning(past, |past|);
      forall n | 0 <= n < |events| ensures !ThrowsAt(events, n) {
        assert events[..n] == past[..n];
        assert past[..|past|] == past;
        if n < |past| { assert !ThrowsAt(past, n); }
      }
      NoThrowMeaning(events, |events|);
    }
  }

  /** A write without a callback is queued, and its connection is gone before the loop gets to it. */
  function TooLate(name: string, data: string): seq<Event> {
    [Connect(name), WriteInLoop(0, name, Ask(data, None), 0), Remove(name), Expire(0), Run(0), Task(0)]
  }

  lemma Queued(name: string, data: string)
    ensures After(TooLate(name, data)[..2]) ==
      World(NotStarted, 0, 1, map[name := 0], {}, [(0, Ask(data, None))])
  {
    var events := TooLate(name, data);
    assert events[..0] == [];
    AfterSnoc(events, 0);
    AfterSnoc(events, 1);
  }

  lemma Dropped(v: World, name: string)
    requires v.made == 1 && v.live == map[name := 0] && v.gone == {}
    ensures Step(Step(v, Remove(name)), Expire(0)) == v.(live := map[], gone := {0})
  {
    assert v.live - {name} == map[];
  }

  lemma TooLateThrows(name: string, data: string)
    ensures ThrowsAt(TooLate(name, data), 5) && forall n :: 0 <= n < 5 ==> !TooLate(name, data)[n].Task?
  {
    var events := TooLate(name, data);
    Queued(name, data);
    AfterSnoc(events, 2);
    AfterSnoc(events, 3);
    Dropped(After(events[..2]), name);
    AfterSnoc(events, 4);
  }

  /** The throw is reached. */
  method ServeTooLate(name: string, data: string) returns (w: Writer, ok: bool, done: nat)
    ensures !ok && done == 6
  {
    TooLateThrows(name, data);
    w, ok, done := Serve(TooLate(name, data));
  }
}
