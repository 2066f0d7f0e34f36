/** The rules of the control service in a client's terms: which requests are checked away, which runs can start, what a
    fault command changes, and what is listed. */
module ServiceRules {
  import opened Arith
  import opened Words
  import opened Results
  import opened Targets
  import opened FaultEngineModel
  import TopologyModel
  import opened TopologyControllerModel
  import opened PolicyEnforcerModel
  import opened AnalysisPipelineModel
  import opened ControlProtocolModel
  import opened Benchmark
  import opened TrafficGenerator
  import opened ControlEvents
  import opened ControlServiceModel

  /** A parsed request is refused for another version, for no id, or for a benchmark out of range; in that order. */
  lemma RefusedExactly(request: ControlRequest)
    ensures var refused, b := Refused(request), request.benchmark;
            var inRange := && b.scenario != "" && 1 <= b.batchSize <= 8192 && b.durationSeconds >= 1
                           && b.packetCount >= 1 && 14 <= b.frameSize <= 9000;
            && (refused == None <==>
                  && request.apiVersion == 1 && request.requestId != ""
                  && (request.command == StartBenchmark ==> inRange))
            && (request.apiVersion != 1 ==> refused == Some("unsupported API version"))
            && (request.apiVersion == 1 && request.requestId == "" ==> refused == Some("request_id is required"))
            && (request.apiVersion == 1 && request.requestId != "" && refused.Some? ==>
                  refused == Some("invalid benchmark configuration"))
  {
  }

  const SCENARIOS := [
    "known-unicast", "broadcast", "unknown-unicast", "mixed-traffic", "udp-flood", "port-scan", "broadcast-storm"]

  /** A run can start when it names one of the seven scenarios and the CPU twice, and its frames fit a batch. */
  lemma StartableExactly(b: BenchmarkParameters)
    requires 1 <= b.batchSize && b.packetCount >= 1 && 14 <= b.frameSize <= 9000
    ensures Startable(b) <==>
            && b.scenario in SCENARIOS && b.backend == Cpu && b.generator == "cpu"
            && b.batchSize * b.frameSize <= 0xffff_ffff
  {
    hide Quotient;
    ScenariosNamed(b.scenario);
    QuotientBounds(TWO_32 - 1, b.frameSize);
    var q := Quotient(TWO_32 - 1, b.frameSize);
    if b.batchSize <= q {
      MulMono(b.batchSize, q, b.frameSize);
    } else {
      MulMono(q + 1, b.batchSize, b.frameSize);
      assert (q + 1) * b.frameSize == q * b.frameSize + b.frameSize;
    }
    assert |"cuda"| == 4 && |"cpu"| == 3;
  }

  /** Each name is one scenario, and the run has that scenario's frames between sixteen hosts, as many and as large as
      asked for, from the seed given. */
  lemma ScenariosNamed(name: string)
    ensures ScenarioNamed(name).Some? <==> name in SCENARIOS
    ensures forall other :: ScenarioNamed(name).Some? && ScenarioNamed(other) == ScenarioNamed(name) ==> other == name
    ensures name == "udp-flood" <==> ScenarioNamed(name) == Some(UdpFloodTraffic)
    ensures name == "port-scan" <==> ScenarioNamed(name) == Some(PortScanTraffic)
    ensures name == "broadcast-storm" <==> ScenarioNamed(name) == Some(BroadcastStormTraffic)
    ensures name == "broadcast" <==> ScenarioNamed(name) == Some(BroadcastTraffic)
    ensures name == "unknown-unicast" <==> ScenarioNamed(name) == Some(UnknownUnicastTraffic)
    ensures name == "mixed-traffic" <==> ScenarioNamed(name) == Some(MixedTraffic)
  {
    assert SCENARIOS[0] == "known-unicast" && SCENARIOS[1] == "broadcast" && SCENARIOS[2] == "unknown-unicast";
    assert SCENARIOS[3] == "mixed-traffic" && SCENARIOS[4] == "udp-flood" && SCENARIOS[5] == "port-scan";
    assert SCENARIOS[6] == "broadcast-storm";
  }

  lemma RunExactly(b: BenchmarkParameters)
    requires Startable(b)
    ensures var run := RunFor(b);
            && Some(run.traffic.scenario) == ScenarioNamed(b.scenario) && run.traffic.hostCount == 16
            && run.traffic.seed == b.seed as bv64 && run.traffic.frameSize == b.frameSize
            && run.packetCount == b.packetCount && run.batchSize == b.batchSize
  {
    hide ScenarioNamed, Benchmark.Validate;
  }

  // ---- fault commands ----

  /** A set is accepted when its port or link exists and the configuration is valid, and installs that; a clear when
      something is installed there, and removes it. No other target changes, and neither does the topology. */
  lemma ChangedExactly(cs: ControllerState, request: ControlRequest, other: string)
    requires request.command in {SetPortFault, ClearPortFault, SetLinkFault, ClearLinkFault}
    ensures var (accepted, after) := Changed(cs, request);
            var f := request.fault;
            var onPort := request.command in {SetPortFault, ClearPortFault};
            var sets := request.command in {SetPortFault, SetLinkFault};
            var target := if onPort then PortTarget(f.portId) else LinkTarget(f.firstEndpoint, f.secondEndpoint);
            var present := if onPort then IsPort(cs.topology, f.portId)
                           else IsLink(cs.topology, f.firstEndpoint, f.secondEndpoint);
            && (accepted <==> present && if sets then ValidConfiguration(f.configuration) else target in cs.faults)
            && (accepted && sets ==> FaultEngineModel.Configuration(after.faults, target) == Some(f.configuration))
            && (accepted && !sets ==> target !in after.faults)
            && (other != target || !accepted ==> SameAt(cs, after, other))
            && after.topology == cs.topology && after.revision == cs.revision
  {
    hide PortTarget, LinkTarget, IsPort, IsLink;
    var f := request.fault;
    PortNamed(f.portId);
    LinkNamed(f.firstEndpoint, f.secondEndpoint);
  }

  lemma PortNamed(port: string)
    ensures PortTarget(port) != ""
  {
  }

  lemma LinkNamed(first: string, second: string)
    ensures LinkTarget(first, second) != ""
  {
  }

  // ---- what is listed ----

  /** A fault is listed exactly when it is installed on a host of the topology or on one of its links. */
  lemma ListedExactly(cs: ControllerState, fault: TopologyFault)
    requires cs.topology.Some?
    ensures var c := cs.topology.value.configuration;
            fault in AllFaults(cs) <==>
            || (exists i :: 0 <= i < |c.nodes| && c.nodes[i].kind == TopologyModel.Host
                            && fault.first == c.nodes[i].id && fault.second == ""
                            && PortTarget(fault.first) in cs.faults
                            && fault.configuration == cs.faults[PortTarget(fault.first)].configuration)
            || (exists i :: 0 <= i < |c.links|
                            && fault.first == c.links[i].from && fault.second == c.links[i].to
                            && LinkTarget(fault.first, fault.second) in cs.faults
                            && fault.configuration
                               == cs.faults[LinkTarget(fault.first, fault.second)].configuration)
  {
    hide PortTarget, LinkTarget;
    PortListed(cs, cs.topology.value.configuration.nodes, fault);
    LinkListed(cs, cs.topology.value.configuration.links, fault);
  }

  lemma {:induction false} PortListed(cs: ControllerState, nodes: seq<TopologyModel.Node>, fault: TopologyFault)
    ensures fault in PortFaults(cs, nodes) <==>
            exists i :: 0 <= i < |nodes| && nodes[i].kind == TopologyModel.Host
                        && fault.first == nodes[i].id && fault.second == ""
                        && PortTarget(fault.first) in cs.faults
                        && fault.configuration == cs.faults[PortTarget(fault.first)].configuration
  {
    hide PortTarget;
    if nodes != [] {
      PortListed(cs, nodes[..|nodes| - 1], fault);
    }
  }

  lemma {:induction false} LinkListed(cs: ControllerState, links: seq<TopologyModel.Link>, fault: TopologyFault)
    ensures fault in LinkFaults(cs, links) <==>
            exists i :: 0 <= i < |links|
                        && fault.first == links[i].from && fault.second == links[i].to
                        && LinkTarget(fault.first, fault.second) in cs.faults
                        && fault.configuration == cs.faults[LinkTarget(fault.first, fault.second)].configuration
  {
    hide LinkTarget;
    if links != [] {
      LinkListed(cs, links[..|links| - 1], fault);
    }
  }

  /** The published actions are the releases and then the enforcements that took effect on a named port, all of them
      and in order: `at` are their places. */
  lemma {:induction false} NamedExactly(actions: seq<EnforcementAction>) returns (at: seq<nat>)
    ensures |at| == |Named(actions)|
    ensures forall k | 0 <= k < |at| :: at[k] < |actions| && Named(actions)[k] == actions[at[k]]
    ensures forall k, l | 0 <= k < l < |at| :: at[k] < at[l]
    ensures forall i: nat | i < |actions| ::
              i in at <==> actions[i].portId != "" && actions[i].outcome in {Released, Applied, Extended}
  {
    hide Named;
    at := [];
    NamedNext(actions);
    if actions != [] {
      var last := |actions| - 1;
      var before := NamedExactly(actions[..last]);
      assert forall k | 0 <= k < |before| :: actions[..last][before[k]] == actions[before[k]];
      var published := actions[last].portId != "" && actions[last].outcome in {Released, Applied, Extended};
      at := before + if published then [last] else [];
      forall i: nat | i < |actions|
        ensures i in at <==> actions[i].portId != "" && actions[i].outcome in {Released, Applied, Extended}
      {
        assert i in at <==> i in before || (i == last && published);
        assert i < last ==> actions[..last][i] == actions[i];
      }
    }
  }

  lemma NamedNext(actions: seq<EnforcementAction>)
    ensures Named([]) == []
    ensures actions != [] ==>
              var last := actions[|actions| - 1];
              Named(actions) == Named(actions[..|actions| - 1])
              + if last.portId != "" && last.outcome in {Released, Applied, Extended} then [last] else []
  {
  }
}
