/** The session cache of app/udp_proxy.cpp: agents are looked up by a formatted string, and the
    cache must behave as a map on (client ip, client port, server ip, server port). */
module UdpSessions {

  // ---------- Decimal numbers, as std::to_string writes them ----------

  function Digits(n: nat): (s: string)
    ensures |s| > 0 && OnlyDigits(s)
  {
    if n < 10 then [Digit(n)] else Digits(n / 10) + [Digit(n % 10)]
  }

  function Digit(d: nat): (c: char)
    requires d < 10
    ensures '0' <= c <= '9' && c as int - '0' as int == d
  {
    (d + '0' as int) as char
  }

  ghost predicate OnlyDigits(s: string) {
    forall i :: 0 <= i < |s| ==> '0' <= s[i] <= '9'
  }

  function ToString(n: int): string {
    if n < 0 then "-" + Digits(-n) else Digits(n)
  }

  /** The number a digit string stands for. */
  ghost function Value(s: string): int {
    if s == "" then 0 else Value(s[..|s| - 1]) * 10 + (s[|s| - 1] as int - '0' as int)
  }

  lemma {:induction false} ValueOfDigits(n: nat)
    ensures Value(Digits(n)) == n
  {
    var s := Digits(n);
    if n < 10 {
      assert s[..0] == "";
    } else {
      ValueOfDigits(n / 10);
      assert s[..|s| - 1] == Digits(n / 10);
    }
  }

  lemma SignShows(n: int)
    ensures ToString(n) != "" && (n < 0 <==> ToString(n)[0] == '-')
    ensures n < 0 ==> ToString(n)[1..] == Digits(-n)
  {}

  lemma DigitsInjective(m: nat, n: nat)
    requires Digits(m) == Digits(n)
    ensures m == n
  {
    ValueOfDigits(m);
    ValueOfDigits(n);
  }

  lemma ToStringInjective(m: int, n: int)
    requires ToString(m) == ToString(n)
    ensures m == n
  {
    SignShows(m);
    SignShows(n);
    if m < 0 { DigitsInjective(-m, -n); } else { DigitsInjective(m, n); }
  }

  lemma ToStringChars(n: int)
    ensures ':' !in ToString(n) && '@' !in ToString(n)
  {
    if n < 0 { assert OnlyDigits(Digits(-n)); } else { assert OnlyDigits(Digits(n)); }
  }

  // ---------- The key ----------

  datatype Tuple = Tuple(cip: string, cport: int, sip: string, sport: int)

  function Key(t: Tuple): string {
    t.cip + (":" + ToString(t.cport) + "@" + t.sip + ":" + ToString(t.sport))
  }

  lemma SplitAtFirst(a: string, b: string, c: string, d: string, mark: char)
    requires a + [mark] + b == c + [mark] + d && mark !in a && mark !in c
    ensures a == c && b == d
  {
    var s := a + [mark] + b;
    assert s[|a|] == mark && s[|c|] == mark;
    assert forall i :: 0 <= i < |a| ==> s[i] == a[i] != mark;
    assert forall i :: 0 <= i < |c| ==> s[i] == c[i] != mark;
    assert a == s[..|a|] && c == s[..|c|] && b == s[|a| + 1..] && d == s[|c| + 1..];
  }

  lemma SplitAtLast(a: string, b: string, c: string, d: string, mark: char)
    requires a + [mark] + b == c + [mark] + d && mark !in b && mark !in d
    ensures a == c && b == d
  {
    var s := a + [mark] + b;
    assert s[|a|] == mark && s[|c|] == mark;
    assert forall i :: |a| < i < |s| ==> s[i] == b[i - |a| - 1] != mark;
    assert forall i :: |c| < i < |s| ==> s[i] == d[i - |c| - 1] != mark;
    assert a == s[..|a|] && c == s[..|c|] && b == s[|a| + 1..] && d == s[|c| + 1..];
  }

  /** An address and a port, as the key has them twice. */
  function Host(ip: string, port: int): string {
    ip + [':'] + ToString(port)
  }

  lemma KeyParts(t: Tuple)
    ensures Key(t) == Host(t.cip, t.cport) + ['@'] + Host(t.sip, t.sport)
  {
    var cport, sport := ToString(t.cport), ToString(t.sport);
    assert ":" + cport + "@" + t.sip + ":" + sport == ":" + cport + "@" + (t.sip + ":" + sport);
    assert t.cip + (":" + cport + "@" + (t.sip + ":" + sport)) == t.cip + ":" + cport + "@" + (t.sip + ":" + sport);
  }

  lemma HostHasNoAt(ip: string, port: int)
    requires '@' !in ip
    ensures '@' !in Host(ip, port)
  {
    ToStringChars(port);
  }

  lemma HostInjective(a: string, m: int, b: string, n: int)
    requires Host(a, m) == Host(b, n)
    ensures a == b && m == n
  {
    ToStringChars(m);
    ToStringChars(n);
    SplitAtLast(a, ToString(m), b, ToString(n), ':');
    ToStringInjective(m, n);
  }

  /** Two requests have the same key only if they are the same, whatever the server strings and
      the ports, if no client address has an '@' in it: an address never does. */
  lemma KeyInjective(t: Tuple, u: Tuple)
    requires '@' !in t.cip && '@' !in u.cip
    ensures Key(t) == Key(u) <==> t == u
  {
    if Key(t) == Key(u) {
      KeyParts(t);
      KeyParts(u);
      HostHasNoAt(t.cip, t.cport);
      HostHasNoAt(u.cip, u.cport);
      SplitAtFirst(Host(t.cip, t.cport), Host(t.sip, t.sport), Host(u.cip, u.cport), Host(u.sip, u.sport), '@');
      HostInjective(t.cip, t.cport, u.cip, u.cport);
      HostInjective(t.sip, t.sport, u.sip, u.sport);
    }
  }

  /** The condition matters: an '@' in the client address can make two requests collide. */
  lemma AtSignCollides()
    ensures Key(Tuple("a", 1, "b:2@c", 3)) == Key(Tuple("a:1@b", 2, "c", 3))
  {
    assert "a" + (":" + "1" + "@" + "b:2@c" + ":" + "3") == "a:1@b" + (":" + "2" + "@" + "c" + ":" + "3");
  }

  lemma PortTexts()
    ensures ToString(53) == "53" && ToString(4096) == "4096"
  {
    assert Digits(4) == "4" && Digits(5) == "5";
    assert Digits(40) == "40" && Digits(409) == "409";
  }

  /** The key of a usual request, letter by letter. */
  lemma KeyExample()
    ensures Key(Tuple("10.0.0.1", 4096, "1.2.3.4", 53)) == "10.0.0.1:4096@1.2.3.4:53"
  {
    PortTexts();
  }

  // ---------- Agents and the cache ----------

  /** Ports are kept as `unsigned short`. */
  function UnsignedShort(port: int): int {
    port % 0x1_0000
  }

  lemma PortsKept(port: int)
    ensures 0 <= UnsignedShort(port) < 65536 && (UnsignedShort(port) - port) % 65536 == 0
    ensures 0 <= port < 65536 ==> UnsignedShort(port) == port
  {
    var q := port / 0x1_0000;
    assert UnsignedShort(port) - port == -q * 65536;
  }

  class UdpAgent {
    const cip: string
    const cport: int
    const sip: string
    const sport: int
    var toServer: seq<string>

    constructor (cip: string, cport: int, sip: string, sport: int)
      ensures Serves(Tuple(cip, cport, sip, sport)) && toServer == []
      ensures 0 <= this.cport < 65536 && (this.cport - cport) % 65536 == 0
      ensures 0 <= this.sport < 65536 && (this.sport - sport) % 65536 == 0
    {
      PortsKept(cport);
      PortsKept(sport);
      this.cip := cip;
      this.cport := UnsignedShort(cport);
      this.sip := sip;
      this.sport := UnsignedShort(sport);
      toServer := [];
    }

    predicate Serves(t: Tuple) {
      cip == t.cip && cport == UnsignedShort(t.cport) && sip == t.sip && sport == UnsignedShort(t.sport)
    }

    method SendToServer(message: string)
      modifies this
      ensures toServer == old(toServer) + [message]
    {
      toServer := toServer + [message];
    }
  }

  /** An agent for a request keeps its addresses, and its ports modulo 65536: those of a real request,
      from 0 to 65535, as they are. */
  lemma AgentMeaning(agent: UdpAgent, t: Tuple)
    requires agent.Serves(t)
    ensures agent.cip == t.cip && agent.sip == t.sip
    ensures 0 <= agent.cport < 65536 && (agent.cport - t.cport) % 65536 == 0
    ensures 0 <= agent.sport < 65536 && (agent.sport - t.sport) % 65536 == 0
    ensures 0 <= t.cport < 65536 ==> agent.cport == t.cport
    ensures 0 <= t.sport < 65536 ==> agent.sport == t.sport
  {
    PortsKept(t.cport);
    PortsKept(t.sport);
  }

  /** What a `const char*` made from a string stands for: it ends at the first NUL. */
  function CStr(s: string): (c: string)
    ensures c <= s && '\0' !in c && (|c| < |s| ==> s[|c|] == '\0')
    ensures '\0' !in s ==> c == s
  {
    if s == "" || s[0] == '\0' then "" else [s[0]] + CStr(s[1..])
  }

  /** The string-keyed cache `session` is the map `agents` on tuples. */
  ghost predicate Refines(session: map<string, UdpAgent>, agents: map<Tuple, UdpAgent>) {
    && (forall t {:trigger Cached(session, agents, t)} :: t in agents ==> Cached(session, agents, t))
    && (forall key {:trigger Known(agents, key)} :: key in session ==> Known(agents, key))
    && (forall t, u {:trigger Apart(agents, t, u)} :: t in agents && u in agents ==> Apart(agents, t, u))
  }

  ghost predicate Cached(session: map<string, UdpAgent>, agents: map<Tuple, UdpAgent>, t: Tuple)
    requires t in agents
  {
    '@' !in t.cip && Key(t) in session && session[Key(t)] == agents[t] && agents[t].Serves(t)
  }

  ghost predicate Known(agents: map<Tuple, UdpAgent>, key: string) {
    exists t :: t in agents && key == Key(t)
  }

  ghost predicate Apart(agents: map<Tuple, UdpAgent>, t: Tuple, u: Tuple)
    requires t in agents && u in agents
  {
    agents[t] == agents[u] ==> t == u
  }

  lemma KeyHits(session: map<string, UdpAgent>, agents: map<Tuple, UdpAgent>, t: Tuple)
    requires Refines(session, agents) && '@' !in t.cip
    ensures Key(t) in session <==> t in agents
    ensures t in agents ==> session[Key(t)] == agents[t] && agents[t].Serves(t)
  {
    if t in agents { assert Cached(session, agents, t); }
    if Key(t) in session {
      assert Known(agents, Key(t));
      var u :| u in agents && Key(t) == Key(u);
      assert Cached(session, agents, u);
      KeyInjective(t, u);
    }
  }

  lemma AddSession(session: map<string, UdpAgent>, agents: map<Tuple, UdpAgent>, t: Tuple, agent: UdpAgent)
    requires Refines(session, agents) && '@' !in t.cip && t !in agents
    requires agent.Serves(t) && forall u :: u in agents ==> agents[u] != agent
    ensures Refines(session[Key(t) := agent], agents[t := agent])
  {
    var session', agents' := session[Key(t) := agent], agents[t := agent];
    forall u | u in agents' ensures Cached(session', agents', u) {
      if u != t {
        assert Cached(session, agents, u);
        KeyInjective(t, u);
      }
    }
    forall key | key in session' ensures Known(agents', key) {
      if key == Key(t) {
        assert t in agents';
      } else {
        assert Known(agents, key);
        var u :| u in agents && key == Key(u);
        assert u in agents';
      }
    }
    forall u, v | u in agents' && v in agents' ensures Apart(agents', u, v) {
      if u in agents && v in agents { assert Apart(agents, u, v); }
    }
  }

  class UdpProxy {
    var session: map<string, UdpAgent>
    ghost var agents: map<Tuple, UdpAgent>

    ghost predicate Valid()
      reads this
    {
      Refines(session, agents)
    }

    constructor ()
      ensures Valid() && agents == map[]
    {
      session := map[];
      agents := map[];
    }

    /** The agent of a request: the one it had before, or a new one. */
    method GetAgent(cip: string, cport: int, sip: string, sport: int) returns (agent: UdpAgent)
      requires Valid() && '@' !in cip
      modifies this
      ensures Valid()
      ensures var t := Tuple(cip, cport, sip, sport);
        && agents == old(agents)[t := agent] && agent.Serves(t)
        && (t in old(agents) ==> agent == old(agents)[t])
        && agent.cip == cip && 0 <= agent.cport < 65536 && (agent.cport - cport) % 65536 == 0
        && agent.sip == sip && 0 <= agent.sport < 65536 && (agent.sport - sport) % 65536 == 0
        && (t !in old(agents) ==> fresh(agent) && agent.toServer == [])
    {
      ghost var t := Tuple(cip, cport, sip, sport);
      KeyHits(session, agents, t);
      var key := cip;
      key := key + (":" + ToString(cport) + "@" + sip + ":" + ToString(sport));
      if key !in session {
        agent := new UdpAgent(cip, cport, sip, sport);
        AddSession(session, agents, t, agent);
        session := session[key := agent];
        agents := agents[t := agent];
      } else {
        agent := session[key];
        assert agents[t := agent] == agents;
      }
      AgentMeaning(agent, t);
    }

    /** Relays one message; the client address and the unpacked server, port and message are given. */
    method Forward(ip: string, port: int, sip: string, sport: int, message: string)
      requires Valid() && '@' !in ip
      modifies this, agents.Values
      ensures Valid()
      ensures var t := Tuple(CStr(ip), port, CStr(sip), sport);
        && t in agents && agents.Keys == old(agents).Keys + {t}
        && agents[t].sip == CStr(sip) && 0 <= agents[t].sport < 65536 && (agents[t].sport - sport) % 65536 == 0
        && agents[t].toServer == (if t in old(agents) then old(agents[t].toServer) else []) + [message]
        && forall u :: u in old(agents) ==>
             agents[u] == old(agents)[u] && (u != t ==> agents[u].toServer == old(agents[u].toServer))
    {
      var agent := GetAgent(CStr(ip), port, CStr(sip), sport);
      ghost var t := Tuple(CStr(ip), port, CStr(sip), sport);
      forall u | u in agents && u != t ensures agents[u] != agent { assert Apart(agents, t, u); }
      agent.SendToServer(message);
    }
  }

  /** Over any history two requests get the same agent exactly when they are the same request, and
      every agent is one for the client and server asked for. */
  method Serve(requests: seq<Tuple>) returns (answers: seq<UdpAgent>)
    requires forall i :: 0 <= i < |requests| ==> '@' !in requests[i].cip
    ensures |answers| == |requests|
    ensures forall i :: 0 <= i < |requests| ==>
      && answers[i].cip == requests[i].cip && answers[i].sip == requests[i].sip
      && 0 <= answers[i].cport < 65536 && (answers[i].cport - requests[i].cport) % 65536 == 0
      && 0 <= answers[i].sport < 65536 && (answers[i].sport - requests[i].sport) % 65536 == 0
    ensures forall i, j :: 0 <= i < |requests| && 0 <= j < |requests| ==>
      (answers[i] == answers[j] <==> requests[i] == requests[j])
  {
    var proxy := new UdpProxy();
    answers := [];
    for n := 0 to |requests|
      invariant proxy.Valid() && fresh(proxy) && |answers| == n
      invariant Answered(requests[..n], answers, proxy.agents)
    {
      var t := requests[n];
      var agent := proxy.GetAgent(t.cip, t.cport, t.sip, t.sport);
      answers := answers + [agent];
    }
    AnswersApart(requests, answers, proxy.session, proxy.agents);
    forall i | 0 <= i < |requests|
      ensures answers[i].cip == requests[i].cip && answers[i].sip == requests[i].sip
      ensures 0 <= answers[i].cport < 65536 && (answers[i].cport - requests[i].cport) % 65536 == 0
      ensures 0 <= answers[i].sport < 65536 && (answers[i].sport - requests[i].sport) % 65536 == 0
    {
      AgentMeaning(answers[i], requests[i]);
    }
  }

  lemma AnswersApart(requests: seq<Tuple>, answers: seq<UdpAgent>, session: map<string, UdpAgent>,
      agents: map<Tuple, UdpAgent>)
    requires Refines(session, agents) && Answered(requests, answers, agents)
    ensures forall i :: 0 <= i < |requests| ==> answers[i].Serves(requests[i])
    ensures forall i, j :: 0 <= i < |requests| && 0 <= j < |requests| ==>
      (answers[i] == answers[j] <==> requests[i] == requests[j])
  {
    forall i | 0 <= i < |requests| ensures answers[i].Serves(requests[i]) {
      assert Cached(session, agents, requests[i]);
    }
    forall i, j | 0 <= i < |requests| && 0 <= j < |requests|
      ensures answers[i] == answers[j] <==> requests[i] == requests[j]
    {
      assert Apart(agents, requests[i], requests[j]);
    }
  }

  ghost predicate Answered(requests: seq<Tuple>, answers: seq<UdpAgent>, agents: map<Tuple, UdpAgent>) {
    && |answers| == |requests|
    && forall i :: 0 <= i < |requests| ==> requests[i] in agents && agents[requests[i]] == answers[i]
  }
}
