/** The agent list: gateway ports, the position index that may be stale, and the reconciler. */
module Agents {
  import opened Prelude

  datatype AgentStatus = Running | Stopped | Starting | Stopping | Error

  datatype Agent = Agent(id: string, name: string, status: AgentStatus, runtime: Option<string>, gatewayPort: nat)

  const BASE_AGENT_PORT: nat := 18790
  const MAX_AGENT_PORT: nat := 18799
  const PORTS: nat := 110

  // ---- Ports -----------------------------------------------------------------

  ghost function Ports(agents: seq<Agent>): set<nat> {
    set a | a in agents :: a.gatewayPort
  }

  predicate InRange(port: nat) {
    BASE_AGENT_PORT <= port < BASE_AGENT_PORT + PORTS
  }

  ghost predicate IsFree(agents: seq<Agent>, port: nat) {
    InRange(port) && port !in Ports(agents)
  }

  method AllocatePort(existing: seq<Agent>) returns (port: nat)
    ensures 18790 <= port <= 18899
    ensures port !in Ports(existing) ==> forall p :: 18790 <= p < port ==> p in Ports(existing)
    ensures port in Ports(existing) ==> port == 18800 && forall p :: 18790 <= p <= 18899 ==> p in Ports(existing)
    ensures (exists p :: IsFree(existing, p)) <==> port !in Ports(existing)
    ensures port !in Ports(existing) ==> IsFree(existing, port) && forall p :: IsFree(existing, p) ==> port <= p
    ensures port in Ports(existing) ==> port == MAX_AGENT_PORT + 1
  {
    var used := set a | a in existing :: a.gatewayPort;
    port := BASE_AGENT_PORT;
    while port <= MAX_AGENT_PORT
      invariant BASE_AGENT_PORT <= port <= MAX_AGENT_PORT + 1
      invariant forall p :: BASE_AGENT_PORT <= p < port ==> p in used
    {
      if port !in used {
        assert IsFree(existing, port);
        return;
      }
      port := port + 1;
    }
    while port <= MAX_AGENT_PORT + 100
      invariant MAX_AGENT_PORT + 1 <= port <= MAX_AGENT_PORT + 101
      invariant forall p :: BASE_AGENT_PORT <= p < port ==> p in used
    {
      if port !in used {
        assert IsFree(existing, port);
        return;
      }
      port := port + 1;
    }
    port := MAX_AGENT_PORT + 1;
  }

  lemma {:induction false} PortCount(agents: seq<Agent>)
    ensures |Ports(agents)| <= |agents|
  {
    if agents == [] {
      assert Ports(agents) == {};
    } else {
      var init, last := agents[..|agents| - 1], agents[|agents| - 1];
      PortCount(init);
      assert agents == init + [last];
      assert Ports(agents) == Ports(init) + {last.gatewayPort};
    }
  }

  lemma {:induction false} RangeCount(lo: nat, n: nat) returns (r: set<nat>)
    ensures |r| == n && forall p :: p in r <==> lo <= p < lo + n
  {
    if n == 0 {
      r := {};
    } else {
      var s := RangeCount(lo, n - 1);
      r := s + {lo + n - 1};
    }
  }

  /** Fewer agents than ports: some port is free. */
  lemma SomePortFree(agents: seq<Agent>)
    requires |agents| < PORTS
    ensures exists p :: IsFree(agents, p)
  {
    var range := RangeCount(BASE_AGENT_PORT, PORTS);
    PortCount(agents);
    if range <= Ports(agents) {
      SubsetCount(range, Ports(agents));
    }
    var p :| p in range && p !in Ports(agents);
    assert IsFree(agents, p);
  }

  ghost predicate DistinctPorts(agents: seq<Agent>) {
    forall i, j :: 0 <= i < j < |agents| ==> agents[i].gatewayPort != agents[j].gatewayPort
  }

  lemma DistinctPortsSnoc(agents: seq<Agent>, a: Agent)
    requires DistinctPorts(agents)
    ensures DistinctPorts(agents + [a]) <==> a.gatewayPort !in Ports(agents)
  {
    var all := agents + [a];
    if a.gatewayPort in Ports(agents) {
      var i :| 0 <= i < |agents| && agents[i].gatewayPort == a.gatewayPort;
      assert all[i].gatewayPort == all[|agents|].gatewayPort;
    } else {
      assert forall i :: 0 <= i < |agents| ==> agents[i] in agents;
    }
  }

  /** `retain`: what is kept keeps its order. */
  function Without(agents: seq<Agent>, id: string): seq<Agent> {
    if agents == [] then []
    else if agents[0].id == id then Without(agents[1..], id)
    else [agents[0]] + Without(agents[1..], id)
  }

  lemma {:induction false} WithoutKeepsDistinctPorts(agents: seq<Agent>, id: string)
    requires DistinctPorts(agents)
    ensures DistinctPorts(Without(agents, id))
    ensures forall a :: a in Without(agents, id) <==> a in agents && a.id != id
  {
    if agents == [] {
    } else {
      WithoutKeepsDistinctPorts(agents[1..], id);
      assert agents == [agents[0]] + agents[1..];
      var rest := Without(agents[1..], id);
      forall i | 0 <= i < |rest|
        ensures rest[i].gatewayPort != agents[0].gatewayPort
      {
        assert rest[i] in agents[1..];
      }
    }
  }

  /** Each agent is kept or dropped by itself, and what is kept stays in order. */
  lemma {:induction false} WithoutAppend(a: seq<Agent>, b: seq<Agent>, id: string)
    ensures Without(a + b, id) == Without(a, id) + Without(b, id)
    ensures forall x: Agent :: Without([x], id) == if x.id == id then [] else [x]
  {
    if a == [] {
      assert a + b == b;
    } else {
      assert (a + b)[1..] == a[1..] + b;
      WithoutAppend(a[1..], b, id);
      Regroup([a[0]], Without(a[1..], id), Without(b, id));
    }
  }

  lemma {:induction false} WithoutAbsent(agents: seq<Agent>, id: string)
    requires forall a :: a in agents ==> a.id != id
    ensures Without(agents, id) == agents
  {
    if agents == [] {
    } else {
      WithoutAbsent(agents[1..], id);
    }
  }

  // ---- Lookup ----------------------------------------------------------------

  type Index = map<string, nat>

  predicate Matches(a: Agent, q: string) {
    a.id == q || a.name == q
  }

  function FirstById(agents: seq<Agent>, q: string): Option<Agent> {
    if agents == [] then None
    else if agents[0].id == q then Some(agents[0])
    else FirstById(agents[1..], q)
  }

  function FirstByName(agents: seq<Agent>, q: string): Option<Agent> {
    if agents == [] then None
    else if agents[0].name == q then Some(agents[0])
    else FirstByName(agents[1..], q)
  }

  /** The plain search: by id, then by name. */
  function Scan(agents: seq<Agent>, q: string): Option<Agent> {
    if FirstById(agents, q).Some? then FirstById(agents, q) else FirstByName(agents, q)
  }

  /** The chat handler's search: the index first, if the position it gives still matches. */
  function Lookup(index: Index, agents: seq<Agent>, q: string): Option<Agent> {
    if q in index && index[q] < |agents| && Matches(agents[index[q]], q) then Some(agents[index[q]])
    else Scan(agents, q)
  }

  lemma {:induction false} FirstByIdFinds(agents: seq<Agent>, q: string) returns (i: nat)
    ensures i <= |agents| && forall j :: 0 <= j < i ==> agents[j].id != q
    ensures if i < |agents| then agents[i].id == q && FirstById(agents, q) == Some(agents[i])
            else FirstById(agents, q) == None
  {
    if agents == [] || agents[0].id == q {
      i := 0;
    } else {
      var k := FirstByIdFinds(agents[1..], q);
      i := k + 1;
    }
  }

  lemma {:induction false} FirstByNameFinds(agents: seq<Agent>, q: string) returns (i: nat)
    ensures i <= |agents| && forall j :: 0 <= j < i ==> agents[j].name != q
    ensures if i < |agents| then agents[i].name == q && FirstByName(agents, q) == Some(agents[i])
            else FirstByName(agents, q) == None
  {
    if agents == [] || agents[0].name == q {
      i := 0;
    } else {
      var k := FirstByNameFinds(agents[1..], q);
      i := k + 1;
    }
  }

  /** The plain search finds the first agent with that id, without one the first with that name. */
  lemma ScanFinds(agents: seq<Agent>, q: string)
    ensures Scan(agents, q).Some? <==> exists a :: a in agents && Matches(a, q)
    ensures Scan(agents, q).Some? ==> Scan(agents, q).value in agents && Matches(Scan(agents, q).value, q)
    ensures Scan(agents, q).Some? ==>
              exists i :: 0 <= i < |agents| && Scan(agents, q).value == agents[i]
                && if exists a :: a in agents && a.id == q
                   then agents[i].id == q && forall j :: 0 <= j < i ==> agents[j].id != q
                   else agents[i].name == q && forall j :: 0 <= j < i ==> agents[j].name != q
  {
    var i := FirstByIdFinds(agents, q);
    var k := FirstByNameFinds(agents, q);
    if i < |agents| {
      assert Scan(agents, q).value == agents[i] && agents[i] in agents;
    } else if k < |agents| {
      assert Scan(agents, q).value == agents[k] && agents[k] in agents;
    }
  }

  /** All agents that match are the same one. */
  ghost predicate Unambiguous(agents: seq<Agent>, q: string) {
    forall a, b :: a in agents && b in agents && Matches(a, q) && Matches(b, q) ==> a == b
  }

  /** The index cannot be noticed, however stale, exactly for the queries that only one agent matches. */
  lemma StaleIndexHarmlessIff(agents: seq<Agent>, q: string)
    ensures (forall index: Index :: Lookup(index, agents, q) == Scan(agents, q)) <==> Unambiguous(agents, q)
  {
    ScanFinds(agents, q);
    if forall index: Index :: Lookup(index, agents, q) == Scan(agents, q) {
      forall a | a in agents && Matches(a, q)
        ensures Scan(agents, q) == Some(a)
      {
        var i :| 0 <= i < |agents| && agents[i] == a;
        assert Lookup(map[q := i], agents, q) == Scan(agents, q);
      }
    }
  }

  ghost predicate UniqueKeys(agents: seq<Agent>) {
    forall a, b :: a in agents && b in agents && a != b ==> a.id != b.id && a.name != b.name && a.name != b.id
  }

  /** With unique ids and names, and no name equal to another agent's id, every query is of that kind. */
  lemma StaleIndexHarmless(agents: seq<Agent>, index: Index, q: string)
    requires UniqueKeys(agents)
    ensures Lookup(index, agents, q) == Scan(agents, q)
  {
    assert Unambiguous(agents, q);
    StaleIndexHarmlessIff(agents, q);
  }

  // ---- The reconciler --------------------------------------------------------

  /** What one pass makes of an agent: runtimes are observed by name, gateways by port. */
  function Reconciled(a: Agent, observed: map<string, AgentStatus>, gatewayAlive: nat -> bool): Agent {
    if a.name !in observed then
      if a.runtime == Some("direct") then a
      else if a.status == Running || a.status == Starting then a.(status := Stopped)
      else a
    else
      match observed[a.name]
      case Running => a.(status := Running)
      case Stopped | Error =>
        if a.status == Running && !(a.runtime == Some("exo") && gatewayAlive(a.gatewayPort))
        then a.(status := observed[a.name]) else a
      case Starting | Stopping =>
        if a.status == Running || a.status == Starting then a else a.(status := Starting)
  }

  /** What is observed of the agent contradicts its status, which therefore has to change. */
  ghost predicate IsContradicted(a: Agent, observed: map<string, AgentStatus>, gatewayAlive: nat -> bool) {
    if a.name !in observed then a.status in {Running, Starting} && a.runtime != Some("direct")
    else if observed[a.name] == Running then a.status != Running
    else if observed[a.name] in {Stopped, Error} then
      a.status == Running && (a.runtime == Some("exo") ==> !gatewayAlive(a.gatewayPort))
    else a.status !in {Running, Starting}
  }

  /**
   * A pass changes nothing but the status, and that exactly if it is contradicted:
   * to the observed one, where Stopping counts as Starting and nothing as Stopped.
   */
  lemma ReconciledMeaning(a: Agent, observed: map<string, AgentStatus>, gatewayAlive: nat -> bool)
    ensures var r := Reconciled(a, observed, gatewayAlive);
            && r.(status := a.status) == a
            && (r.status != a.status <==> IsContradicted(a, observed, gatewayAlive))
            && (r.status != a.status ==>
                  r.status == if a.name !in observed then Stopped
                              else if observed[a.name] == Stopping then Starting
                              else observed[a.name])
  {
  }

  /** After a pass the list claims a running agent only where a runtime or a gateway bears it out. */
  lemma ReconciledIsBorneOut(a: Agent, observed: map<string, AgentStatus>, gatewayAlive: nat -> bool)
    ensures var r := Reconciled(a, observed, gatewayAlive);
            && r.(status := a.status) == a
            && (r.status == Running ==>
                  || (a.name in observed && observed[a.name] !in {Stopped, Error})
                  || (a.name in observed && a.runtime == Some("exo") && gatewayAlive(a.gatewayPort))
                  || (a.name !in observed && a.runtime == Some("direct")))
            && (a.name in observed && observed[a.name] == Running ==> r.status == Running)
  {
  }

  ghost function AllReconciled(agents: seq<Agent>, observed: map<string, AgentStatus>, gatewayAlive: nat -> bool)
    : (r: seq<Agent>)
    ensures |r| == |agents| && forall i :: 0 <= i < |r| ==> r[i] == Reconciled(agents[i], observed, gatewayAlive)
  {
    seq(|agents|, i requires 0 <= i < |agents| => Reconciled(agents[i], observed, gatewayAlive))
  }

  /** Collecting (id, position) pairs; the last position of an id stays. */
  function PositionIndex(agents: seq<Agent>): Index {
    if agents == [] then map[]
    else PositionIndex(agents[..|agents| - 1])[agents[|agents| - 1].id := |agents| - 1]
  }

  /** Each id of the list is indexed at the last position that has it, and nothing else is. */
  lemma {:induction false} PositionIndexExact(agents: seq<Agent>)
    ensures forall id :: id in PositionIndex(agents) <==> exists a :: a in agents && a.id == id
    ensures forall id :: id in PositionIndex(agents) ==>
              PositionIndex(agents)[id] < |agents| && agents[PositionIndex(agents)[id]].id == id
    ensures forall j :: 0 <= j < |agents| ==>
              agents[j].id in PositionIndex(agents) && j <= PositionIndex(agents)[agents[j].id]
  {
    if agents == [] {
    } else {
      var init := agents[..|agents| - 1];
      PositionIndexExact(init);
      assert agents == init + [agents[|agents| - 1]];
    }
  }

  /** Reconciling again on the same observations changes nothing. */
  lemma ReconcileIdempotent(agents: seq<Agent>, observed: map<string, AgentStatus>, gatewayAlive: nat -> bool)
    ensures var once := AllReconciled(agents, observed, gatewayAlive);
            AllReconciled(once, observed, gatewayAlive) == once
  {
    forall a
      ensures var once := Reconciled(a, observed, gatewayAlive);
              Reconciled(once, observed, gatewayAlive) == once
    {
    }
  }

  class AppState {
    var containers: seq<Agent>
    var agentIndex: Index

    constructor ()
      ensures containers == [] && agentIndex == map[]
    {
      containers, agentIndex := [], map[];
    }

    /** A create with no other create in between: the port chosen is still free at the push. */
    method CreateAgent(id: string, name: string, runtime: Option<string>) returns (agent: Agent)
      modifies this
      ensures containers == old(containers) + [agent]
      ensures agentIndex == old(agentIndex)[id := |old(containers)|]
      ensures agent == Agent(id, name, Stopped, runtime, agent.gatewayPort)
      ensures |old(containers)| < PORTS ==> exists p :: IsFree(old(containers), p)
      ensures (exists p :: IsFree(old(containers), p)) ==> IsFree(old(containers), agent.gatewayPort)
      ensures DistinctPorts(old(containers)) ==>
                (DistinctPorts(containers) <==> exists p :: IsFree(old(containers), p))
    {
      var port := AllocatePort(containers);
      if |containers| < PORTS {
        SomePortFree(containers);
      }
      if DistinctPorts(containers) {
        DistinctPortsSnoc(containers, Agent(id, name, Stopped, runtime, port));
      }
      agent := Agent(id, name, Stopped, runtime, port);
      agentIndex := agentIndex[id := |containers|];
      containers := containers + [agent];
    }

    /** The index is left as it is, and may now point elsewhere. */
    method DeleteAgent(id: string) returns (found: bool)
      modifies this`containers
      ensures found <==> exists a :: a in old(containers) && a.id == id
      ensures containers == Without(old(containers), id)
      ensures DistinctPorts(old(containers)) ==> DistinctPorts(containers)
    {
      found := exists a :: a in containers && a.id == id;
      if DistinctPorts(containers) {
        WithoutKeepsDistinctPorts(containers, id);
      }
      if found {
        containers := Without(containers, id);
      } else {
        WithoutAbsent(containers, id);
      }
    }

    method SyncContainerStates(observed: map<string, AgentStatus>, gatewayAlive: nat -> bool) returns (hasChanges: bool)
      modifies this
      ensures containers == AllReconciled(old(containers), observed, gatewayAlive)
      ensures hasChanges <==> containers != old(containers)
      ensures agentIndex == if hasChanges then PositionIndex(containers) else old(agentIndex)
    {
      hasChanges := false;
      var i := 0;
      while i < |containers|
        invariant 0 <= i <= |containers| == |old(containers)|
        invariant forall j :: 0 <= j < i ==> containers[j] == Reconciled(old(containers)[j], observed, gatewayAlive)
        invariant forall j :: i <= j < |containers| ==> containers[j] == old(containers)[j]
        invariant hasChanges <==> exists j :: 0 <= j < i && containers[j] != old(containers)[j]
        invariant agentIndex == old(agentIndex)
      {
        var agent := containers[i];
        var status := agent.status;
        if agent.name in observed {
          match observed[agent.name] {
            case Stopped | Error =>
              if agent.status == Running {
                var alive := agent.runtime == Some("exo") && gatewayAlive(agent.gatewayPort);
                if !alive {
                  status := observed[agent.name];
                  hasChanges := true;
                }
              }
            case Running =>
              if agent.status != Running {
                status := Running;
                hasChanges := true;
              }
            case Starting | Stopping =>
              if agent.status != Running && agent.status != Starting {
                status := Starting;
                hasChanges := true;
              }
          }
        } else if agent.runtime != Some("direct") && (agent.status == Running || agent.status == Starting) {
          status := Stopped;
          hasChanges := true;
        }
        containers := containers[i := agent.(status := status)];
        i := i + 1;
      }
      if hasChanges {
        agentIndex := PositionIndex(containers);
      }
    }
  }

  // ---- The exceptions are reached --------------------------------------------

  /**
   * A history that leaves a stale index which can be noticed: after the first of
   * three agents is deleted, the index entry of the id "q" leads to the agent
   * named "q", and the plain search by id to the one with that id.
   */
  method StaleIndexNoticed(runtime: Option<string>) returns (state: AppState)
    ensures fresh(state)
    ensures Lookup(state.agentIndex, state.containers, "q") != Scan(state.containers, "q")
  {
    state := new AppState();
    var x := state.CreateAgent("x", "x", runtime);
    var a := state.CreateAgent("q", "a", runtime);
    var b := state.CreateAgent("b", "q", runtime);
    assert Without([a, b], "x") == [a] + Without([b], "x");
    var _ := state.DeleteAgent("x");
    assert state.containers == [a, b];
  }

  /** A history of creates alone after which two agents share a port. */
  method PortsRunOut(runtime: Option<string>) returns (state: AppState)
    ensures fresh(state) && |state.containers| == PORTS + 1
    ensures !DistinctPorts(state.containers)
  {
    state := new AppState();
    while |state.containers| < PORTS
      invariant fresh(state) && |state.containers| <= PORTS && DistinctPorts(state.containers)
      invariant forall a :: a in state.containers ==> InRange(a.gatewayPort)
      decreases PORTS - |state.containers|
    {
      var name := seq(|state.containers|, _ => 'a');
      var _ := state.CreateAgent(name, name, runtime);
    }
    NoneFreeWhenFull(state.containers);
    var _ := state.CreateAgent("last", "last", runtime);
  }

  /** As many agents on distinct ports of the range as it has: none is free. */
  lemma NoneFreeWhenFull(agents: seq<Agent>)
    requires DistinctPorts(agents) && |agents| >= PORTS
    requires forall a :: a in agents ==> InRange(a.gatewayPort)
    ensures !exists p :: IsFree(agents, p)
  {
    var range := RangeCount(BASE_AGENT_PORT, PORTS);
    assert forall p :: p in range <==> InRange(p);
    DistinctPortCount(agents);
    SubsetCount(Ports(agents), range);
  }

  lemma {:induction false} DistinctPortCount(agents: seq<Agent>)
    requires DistinctPorts(agents)
    ensures |Ports(agents)| == |agents|
  {
    if agents == [] {
    } else {
      var init, last := agents[..|agents| - 1], agents[|agents| - 1];
      DistinctPortCount(init);
      assert agents == init + [last];
      DistinctPortsSnoc(init, last);
      assert Ports(agents) == Ports(init) + {last.gatewayPort};
    }
  }
}
