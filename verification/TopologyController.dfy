/** The topology controller of src/topology_controller.cpp: faults addressed by port or link.
    `ControllerState` is its value; the class's methods are proved to move that value as the functions say. */
module TopologyControllerModel {
  import opened Arith
  import opened Durations
  import opened Words
  import opened Results
  import opened Random
  import opened FaultEngineModel
  import opened Targets
  import opened TopologyModel

  const LATEST: int := MAX_I64

  datatype ControllerError = NoTopology | UnknownPort | UnknownLink | InvalidFaultConfiguration

  datatype ControllerState = ControllerState(topology: Option<Topology>, revision: u64, seed: bv64, faults: Faults)

  predicate ValidState(cs: ControllerState) {
    ValidFaults(cs.faults)
  }

  function PortIdsOf(nodes: seq<Node>): seq<string> {
    if nodes == [] then []
    else
      var last := nodes[|nodes| - 1];
      PortIdsOf(nodes[..|nodes| - 1]) + if last.kind == Host then [last.id] else []
  }

  function PortIds(topology: Option<Topology>): seq<string> {
    if topology.Some? then PortIdsOf(topology.value.configuration.nodes) else []
  }

  function PortIdAt(cs: ControllerState, ingress: nat): Option<string> {
    if ingress < |PortIds(cs.topology)| then Some(PortIds(cs.topology)[ingress]) else None
  }

  predicate IsPort(topology: Option<Topology>, port: string)
    ensures IsPort(topology, port) ==> topology.Some?
  {
    topology.Some? &&
    var nodes := topology.value.configuration.nodes;
    exists i :: 0 <= i < |nodes| && nodes[i].id == port && nodes[i].kind == Host
  }

  predicate Joins(link: Link, first: string, second: string) {
    (link.from == first && link.to == second) || (link.from == second && link.to == first)
  }

  predicate IsLink(topology: Option<Topology>, first: string, second: string)
    ensures IsLink(topology, first, second) ==> topology.Some?
  {
    topology.Some? &&
    var links := topology.value.configuration.links;
    exists i :: 0 <= i < |links| && Joins(links[i], first, second)
  }

  /** The latency of the first link between two nodes. */
  function LinkLatency(links: seq<Link>, first: string, second: string): int
    requires exists i :: 0 <= i < |links| && Joins(links[i], first, second)
  {
    if Joins(links[0], first, second) then links[0].latency
    else
      assert exists i :: 0 <= i < |links[1..]| && Joins(links[1..][i], first, second) by {
        var i :| 0 <= i < |links| && Joins(links[i], first, second);
        assert links[1..][i - 1] == links[i];
      }
      LinkLatency(links[1..], first, second)
  }

  lemma {:induction false} PortIdsAreHosts(nodes: seq<Node>, port: string)
    ensures port in PortIdsOf(nodes) <==> exists i :: 0 <= i < |nodes| && nodes[i].id == port && nodes[i].kind == Host
  {
    if nodes != [] {
      var front, last := nodes[..|nodes| - 1], nodes[|nodes| - 1];
      PortIdsAreHosts(front, port);
      assert forall i | 0 <= i < |front| :: nodes[i] == front[i];
      if port in PortIdsOf(nodes) && port in PortIdsOf(front) {
        var i :| 0 <= i < |front| && front[i].id == port && front[i].kind == Host;
        assert nodes[i].id == port;
      }
    }
  }

  /** An index that names a port names one the controller knows. */
  lemma PortAtIsPort(cs: ControllerState, ingress: nat)
    requires PortIdAt(cs, ingress).Some?
    ensures IsPort(cs.topology, PortIdAt(cs, ingress).value)
  {
    PortIdsAreHosts(cs.topology.value.configuration.nodes, PortIdAt(cs, ingress).value);
  }

  /** How many hosts there are among the first nodes. */
  function HostsBefore(nodes: seq<Node>, n: nat): nat
    requires n <= |nodes|
  {
    if n == 0 then 0 else HostsBefore(nodes, n - 1) + if nodes[n - 1].kind == Host then 1 else 0
  }

  /** Port `ingress` is the host with that many hosts before it, if there is one. */
  predicate IsHostNumber(topology: Option<Topology>, ingress: nat, port: Option<string>) {
    if topology.None? then port == None
    else
      var nodes := topology.value.configuration.nodes;
      && (port.Some? <==> ingress < HostsBefore(nodes, |nodes|))
      && (forall i | 0 <= i < |nodes| ::
            nodes[i].kind == Host && HostsBefore(nodes, i) == ingress ==> port == Some(nodes[i].id))
      && (port.Some? ==> exists i :: 0 <= i < |nodes| && nodes[i].kind == Host && HostsBefore(nodes, i) == ingress)
  }

  /** Ports are numbered in the order of the nodes, switches left out. */
  lemma PortAtExactly(cs: ControllerState, ingress: nat)
    ensures IsHostNumber(cs.topology, ingress, PortIdAt(cs, ingress))
  {
    if cs.topology.Some? {
      var nodes := cs.topology.value.configuration.nodes;
      PortsCounted(nodes);
      forall i | 0 <= i < |nodes| && nodes[i].kind == Host
        ensures HostsBefore(nodes, i) < |PortIdsOf(nodes)| && PortIdsOf(nodes)[HostsBefore(nodes, i)] == nodes[i].id
      {
        HostAt(nodes, i);
      }
      if ingress < |PortIdsOf(nodes)| {
        var i := HostNumbered(nodes, ingress);
      }
    }
  }

  lemma {:induction false} SameHosts(a: seq<Node>, b: seq<Node>, n: nat)
    requires n <= |a| && a <= b
    ensures HostsBefore(a, n) == HostsBefore(b, n)
  {
    if n > 0 {
      SameHosts(a, b, n - 1);
    }
  }

  lemma {:induction false} PortsCounted(nodes: seq<Node>)
    ensures |PortIdsOf(nodes)| == HostsBefore(nodes, |nodes|)
  {
    if nodes != [] {
      PortsCounted(nodes[..|nodes| - 1]);
      SameHosts(nodes[..|nodes| - 1], nodes, |nodes| - 1);
    }
  }

  lemma {:induction false} HostAt(nodes: seq<Node>, i: nat)
    requires i < |nodes| && nodes[i].kind == Host
    ensures HostsBefore(nodes, i) < |PortIdsOf(nodes)| && PortIdsOf(nodes)[HostsBefore(nodes, i)] == nodes[i].id
  {
    var front := nodes[..|nodes| - 1];
    SameHosts(front, nodes, i);
    if i < |front| {
      HostAt(front, i);
    } else {
      PortsCounted(front);
    }
  }

  lemma {:induction false} HostNumbered(nodes: seq<Node>, number: nat) returns (i: nat)
    requires number < |PortIdsOf(nodes)|
    ensures i < |nodes| && nodes[i].kind == Host && HostsBefore(nodes, i) == number
  {
    var front := nodes[..|nodes| - 1];
    if number < |PortIdsOf(front)| {
      i := HostNumbered(front, number);
      SameHosts(front, nodes, i);
    } else {
      i := |front|;
      PortsCounted(front);
      SameHosts(front, nodes, i);
    }
  }

  // ---- operations ----

  function PortFault(cs: ControllerState, port: string): Option<FaultConfiguration> {
    if IsPort(cs.topology, port) then FaultEngineModel.Configuration(cs.faults, PortTarget(port)) else None
  }

  function LinkFault(cs: ControllerState, first: string, second: string): Option<FaultConfiguration> {
    if IsLink(cs.topology, first, second) then FaultEngineModel.Configuration(cs.faults, LinkTarget(first, second))
    else None
  }

  function Install(cs: ControllerState, target: string, configuration: FaultConfiguration): ControllerState {
    cs.(faults := cs.faults[target := Installed(cs.seed, target, configuration)])
  }

  function Remove(cs: ControllerState, target: string): ControllerState {
    cs.(faults := cs.faults - {target})
  }

  function SetPortFault(cs: ControllerState, port: string, configuration: FaultConfiguration)
    : (Result<(), ControllerError>, ControllerState)
  {
    if cs.topology.None? then (Err(NoTopology), cs)
    else if !IsPort(cs.topology, port) then (Err(UnknownPort), cs)
    else if !ValidConfiguration(configuration) then (Err(InvalidFaultConfiguration), cs)
    else (Ok(()), Install(cs, PortTarget(port), configuration))
  }

  function SetLinkFault(cs: ControllerState, first: string, second: string, configuration: FaultConfiguration)
    : (Result<(), ControllerError>, ControllerState)
  {
    if cs.topology.None? then (Err(NoTopology), cs)
    else if !IsLink(cs.topology, first, second) then (Err(UnknownLink), cs)
    else if !ValidConfiguration(configuration) then (Err(InvalidFaultConfiguration), cs)
    else (Ok(()), Install(cs, LinkTarget(first, second), configuration))
  }

  function ClearPortFault(cs: ControllerState, port: string): (bool, ControllerState) {
    if IsPort(cs.topology, port) then (PortTarget(port) in cs.faults, Remove(cs, PortTarget(port))) else (false, cs)
  }

  function ClearLinkFault(cs: ControllerState, first: string, second: string): (bool, ControllerState) {
    if IsLink(cs.topology, first, second) then
      (LinkTarget(first, second) in cs.faults, Remove(cs, LinkTarget(first, second)))
    else (false, cs)
  }

  function EvaluatePort(cs: ControllerState, port: string, frameBytes: u64, arrival: int)
    : (Result<FaultDecision, ControllerError>, ControllerState)
    requires ValidState(cs)
  {
    if cs.topology.None? then (Err(NoTopology), cs)
    else if !IsPort(cs.topology, port) then (Err(UnknownPort), cs)
    else
      var (decision, faults) := Evaluated(cs.faults, PortTarget(port), frameBytes, arrival);
      (Ok(decision), cs.(faults := faults))
  }

  /** A link adds its own latency to every copy, saturated at the end of time. */
  function Later(time: int, latency: int): int {
    if time > LATEST - latency then LATEST else time + latency
  }

  function Delayed(decision: FaultDecision, latency: int): FaultDecision {
    if latency == 0 then decision
    else
      decision.(deliveries := seq(|decision.deliveries|,
                                  i requires 0 <= i < |decision.deliveries| => Later(decision.deliveries[i], latency)))
  }

  function EvaluateLink(cs: ControllerState, first: string, second: string, frameBytes: u64, arrival: int)
    : (Result<FaultDecision, ControllerError>, ControllerState)
    requires ValidState(cs)
  {
    if cs.topology.None? then (Err(NoTopology), cs)
    else if !IsLink(cs.topology, first, second) then (Err(UnknownLink), cs)
    else
      var (decision, faults) := Evaluated(cs.faults, LinkTarget(first, second), frameBytes, arrival);
      var latency := LinkLatency(cs.topology.value.configuration.links, first, second) * NANOSECONDS_PER_MILLISECOND;
      (Ok(Delayed(decision, latency)), cs.(faults := faults))
  }

  function Loaded(cs: ControllerState, topology: Topology): ControllerState {
    ControllerState(Some(topology), if cs.revision == TWO_64 - 1 then cs.revision else cs.revision + 1, cs.seed, map[])
  }

  // ---- what the operations mean ----

  /** A port's fault can be set exactly when a topology has the port and the fault is valid; then it is what is
      installed, started over, and no other target has changed. */
  lemma SetPortExactly(cs: ControllerState, port: string, c: FaultConfiguration, other: string)
    ensures var (r, after) := SetPortFault(cs, port, c);
            && (r.Ok? <==> IsPort(cs.topology, port) && ValidConfiguration(c))
            && (r.Err? ==> after == cs)
            && (r.Ok? ==> PortFault(after, port) == Some(c) && StartedOver(after, PortTarget(port)))
            && (other != PortTarget(port) ==> SameAt(cs, after, other))
  {
    hide PortTarget, IsPort;
  }

  lemma SetLinkExactly(cs: ControllerState, first: string, second: string, c: FaultConfiguration, other: string)
    ensures var (r, after) := SetLinkFault(cs, first, second, c);
            && (r.Ok? <==> IsLink(cs.topology, first, second) && ValidConfiguration(c))
            && (r.Err? ==> after == cs)
            && (r.Ok? ==> LinkFault(after, first, second) == Some(c) == LinkFault(after, second, first)
                          && StartedOver(after, LinkTarget(first, second)))
            && (other != LinkTarget(first, second) ==> SameAt(cs, after, other))
  {
    hide LinkTarget;
    LinkTargetInjective(first, second, second, first);
  }

  /** A fault can be cleared exactly when there is one, and then there is none. */
  lemma ClearExactly(cs: ControllerState, port: string, first: string, second: string, other: string)
    ensures var (cleared, after) := ClearPortFault(cs, port);
            && (cleared <==> PortFault(cs, port).Some?) && PortFault(after, port) == None
            && (other != PortTarget(port) ==> SameAt(cs, after, other))
    ensures var (cleared, after) := ClearLinkFault(cs, first, second);
            && (cleared <==> LinkFault(cs, first, second).Some?) && LinkFault(after, first, second) == None
            && (other != LinkTarget(first, second) ==> SameAt(cs, after, other))
  {
    hide PortTarget, LinkTarget, IsPort, IsLink;
  }

  predicate SameAt(a: ControllerState, b: ControllerState, target: string) {
    && a.topology == b.topology && a.revision == b.revision && a.seed == b.seed
    && (target in a.faults <==> target in b.faults) && (target in a.faults ==> a.faults[target] == b.faults[target])
  }

  /** Its random state is the seed's for the target and its line is free. */
  predicate StartedOver(cs: ControllerState, target: string) {
    && target in cs.faults && cs.faults[target].nextTransmit == 0
    && cs.faults[target].random == TargetSeed(cs.seed, target)
  }

  /** A link adds the latency of the first link between the two ends to each copy, up to the end of time. */
  lemma LinkAddsLatency(cs: ControllerState, first: string, second: string, frameBytes: u64, arrival: int, at: nat)
    requires ValidState(cs) && cs.topology.Some?
    requires var links := cs.topology.value.configuration.links;
             && at < |links| && Joins(links[at], first, second)
             && forall j | 0 <= j < at :: !Joins(links[j], first, second)
    ensures var engine := Evaluated(cs.faults, LinkTarget(first, second), frameBytes, arrival);
            var latency := cs.topology.value.configuration.links[at].latency * 1_000_000;
            var (r, after) := EvaluateLink(cs, first, second, frameBytes, arrival);
            && r.Ok? && r.value.dropped == engine.0.dropped && |r.value.deliveries| == |engine.0.deliveries|
            && after == cs.(faults := engine.1)
            && forall i | 0 <= i < |r.value.deliveries| ::
                 r.value.deliveries[i] == if latency == 0 then engine.0.deliveries[i]
                                          else Min(engine.0.deliveries[i] + latency, MAX_I64)
  {
    hide Evaluated, LinkTarget;
    FirstLatency(cs.topology.value.configuration.links, first, second, at);
  }

  lemma {:induction false} FirstLatency(links: seq<Link>, first: string, second: string, at: nat)
    requires at < |links| && Joins(links[at], first, second)
    requires forall j | 0 <= j < at :: !Joins(links[j], first, second)
    ensures LinkLatency(links, first, second) == links[at].latency
    decreases at
  {
    if at > 0 {
      assert forall j | 0 <= j < at - 1 :: links[1..][j] == links[j + 1];
      FirstLatency(links[1..], first, second, at - 1);
    }
  }

  /** A load forgets every fault and moves the revision on, so a command for the one before is stale; only the last
      revision stays. */
  lemma LoadMovesOn(cs: ControllerState, topology: Topology)
    ensures var after := Loaded(cs, topology);
            && after.topology == Some(topology) && after.faults == map[] && after.seed == cs.seed
            && (after.revision == cs.revision <==> cs.revision == 0xffff_ffff_ffff_ffff)
            && (after.revision != cs.revision ==> after.revision == cs.revision + 1)
  {
  }

  class TopologyController {
    const faultSeed: bv64
    const engine: FaultEngine
    var topology: Option<Topology>
    var revision: u64

    ghost predicate Valid()
      reads this, engine
    {
      engine.Valid() && engine.seed == faultSeed
    }

    ghost function State(): (cs: ControllerState)
      reads this, engine
      ensures Valid() ==> ValidState(cs)
    {
      ControllerState(topology, revision, faultSeed, engine.states)
    }

    constructor (faultSeed: bv64)
      ensures Valid() && fresh(engine) && State() == ControllerState(None, 0, faultSeed, map[])
    {
      this.faultSeed := faultSeed;
      engine := new FaultEngine(faultSeed);
      topology := None;
      revision := 0;
    }

    method Load(topology: Topology)
      requires Valid()
      modifies this, engine
      ensures Valid() && State() == Loaded(old(State()), topology) && this.topology == Some(topology)
    {
      this.topology := Some(topology);
      engine.Reset();
      if revision != 0xffff_ffff_ffff_ffff {
        revision := revision + 1;
      }
    }

    method PortIdList() returns (ports: seq<string>)
      requires Valid()
      ensures ports == PortIds(topology)
    {
      ports := [];
      if topology.None? {
        return;
      }
      var nodes := topology.value.configuration.nodes;
      for i := 0 to |nodes|
        invariant ports == PortIdsOf(nodes[..i])
      {
        if nodes[i].kind == Host {
          ports := ports + [nodes[i].id];
        }
        assert nodes[..i + 1][..i] == nodes[..i];
      }
      assert nodes[..|nodes|] == nodes;
    }

    method PortAt(ingress: u32) returns (port: Option<string>)
      requires Valid()
      ensures port == PortIdAt(State(), ingress)
    {
      var ports := PortIdList();
      port := if ingress < |ports| then Some(ports[ingress]) else None;
    }

    method CurrentPortFault(port: string) returns (fault: Option<FaultConfiguration>)
      requires Valid()
      ensures fault == PortFault(State(), port)
    {
      if !IsPort(topology, port) {
        return None;
      }
      fault := engine.FaultFor(PortTarget(port));
    }

    method SetPort(port: string, configuration: FaultConfiguration) returns (r: Result<(), ControllerError>)
      requires Valid()
      modifies engine
      ensures Valid() && (r, State()) == SetPortFault(old(State()), port, configuration)
    {
      if topology.None? {
        return Err(NoTopology);
      }
      if !IsPort(topology, port) {
        return Err(UnknownPort);
      }
      var installed := engine.SetFault(PortTarget(port), configuration);
      r := if installed.Ok? then Ok(()) else Err(InvalidFaultConfiguration);
    }

    method SetLink(first: string, second: string, configuration: FaultConfiguration)
      returns (r: Result<(), ControllerError>)
      requires Valid()
      modifies engine
      ensures Valid() && (r, State()) == SetLinkFault(old(State()), first, second, configuration)
    {
      if topology.None? {
        return Err(NoTopology);
      }
      if !IsLink(topology, first, second) {
        return Err(UnknownLink);
      }
      var installed := engine.SetFault(LinkTarget(first, second), configuration);
      r := if installed.Ok? then Ok(()) else Err(InvalidFaultConfiguration);
    }

    method ClearPort(port: string) returns (cleared: bool)
      requires Valid()
      modifies engine
      ensures Valid() && (cleared, State()) == ClearPortFault(old(State()), port)
    {
      if !IsPort(topology, port) {
        return false;
      }
      cleared := engine.ClearFault(PortTarget(port));
    }

    method ClearLink(first: string, second: string) returns (cleared: bool)
      requires Valid()
      modifies engine
      ensures Valid() && (cleared, State()) == ClearLinkFault(old(State()), first, second)
    {
      if !IsLink(topology, first, second) {
        return false;
      }
      cleared := engine.ClearFault(LinkTarget(first, second));
    }

    method JudgePort(port: string, frameBytes: u64, arrival: int) returns (r: Result<FaultDecision, ControllerError>)
      requires Valid()
      modifies engine
      ensures Valid() && (r, State()) == EvaluatePort(old(State()), port, frameBytes, arrival)
    {
      if topology.None? {
        return Err(NoTopology);
      }
      if !IsPort(topology, port) {
        return Err(UnknownPort);
      }
      var decision := engine.Evaluate(PortTarget(port), frameBytes, arrival);
      r := Ok(decision);
    }

    method JudgeLink(first: string, second: string, frameBytes: u64, arrival: int)
      returns (r: Result<FaultDecision, ControllerError>)
      requires Valid()
      modifies engine
      ensures Valid() && (r, State()) == EvaluateLink(old(State()), first, second, frameBytes, arrival)
    {
      if topology.None? {
        return Err(NoTopology);
      }
      if !IsLink(topology, first, second) {
        return Err(UnknownLink);
      }
      var decision := engine.Evaluate(LinkTarget(first, second), frameBytes, arrival);
      var latency := LinkLatency(topology.value.configuration.links, first, second) * NANOSECONDS_PER_MILLISECOND;
      if latency == 0 {
        return Ok(decision);
      }
      var times := decision.deliveries;
      for index := 0 to |times|
        invariant |times| == |decision.deliveries|
        invariant forall i | 0 <= i < index :: times[i] == Later(decision.deliveries[i], latency)
        invariant forall i | index <= i < |times| :: times[i] == decision.deliveries[i]
      {
        times := times[index := Later(times[index], latency)];
      }
      assert decision.(deliveries := times) == Delayed(decision, latency);
      r := Ok(decision.(deliveries := times));
    }
  }
}
