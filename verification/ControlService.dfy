/** The control service of src/control_service.cpp: requests become changes, replies and numbered events. The
    file a topology is loaded from, the supervisor's counters and the time a benchmark took are inputs. */
module ControlServiceModel {
  import opened Arith
  import opened Durations
  import opened Words
  import opened Results
  import opened Text
  import opened Sorting
  import FaultEngineModel
  import Targets
  import TopologyModel
  import opened TopologyControllerModel
  import opened PolicyEnforcerModel
  import opened AnalysisPipelineModel
  import opened JsonText
  import opened ControlProtocolModel
  import ControlParser
  import Grouping
  import opened ControlEvents
  import PacketAnalyzerModel
  import TrafficGenerator
  import opened Benchmark

  const DEFAULT_HOSTS: u32 := 16

  /** What a request meets: the topology file it names, and what the supervisor would report. */
  datatype Surroundings = Surroundings(
    file: Result<TopologyModel.Configuration, string>,
    supervision: Option<(nat, nat)>)

  datatype ControlDispatch = ControlDispatch(reply: ControlReply, events: seq<ControlEvent>)

  // ---- checks before anything happens ----

  /** Why a parsed request is refused, if it is. */
  function Refused(request: ControlRequest): Option<string> {
    if request.apiVersion != API_VERSION then Some("unsupported API version")
    else if request.requestId == "" then Some("request_id is required")
    else if request.command == StartBenchmark && !ValidBenchmark(request.benchmark) then
      Some("invalid benchmark configuration")
    else None
  }

  predicate ValidBenchmark(b: BenchmarkParameters) {
    && b.scenario != "" && 0 < b.batchSize <= 8192 && b.durationSeconds > 0 && b.packetCount > 0
    && 14 <= b.frameSize <= 9000
  }

  function ParseErrorText(error: ParseError): string {
    match error
    case MalformedJson => "malformed JSON"
    case InvalidField => "invalid control request field"
    case MissingRequiredField => "missing required control request field"
  }

  function ControllerErrorText(error: ControllerError): string {
    match error
    case NoTopology => "no topology is loaded"
    case UnknownPort => "unknown topology port"
    case UnknownLink => "unknown topology link"
    case InvalidFaultConfiguration => "invalid fault configuration"
  }

  function TopologyErrorText(error: TopologyModel.TopologyError): string {
    match error
    case MissingName => "topology name is required"
    case MissingNodes => "topology requires at least one node"
    case MissingNodeId => "topology node id is required"
    case DuplicateNodeId => "topology node ids must be unique"
    case MissingSwitch => "topology requires exactly one switch"
    case MultipleSwitches => "topology requires exactly one switch"
    case UnknownLinkEndpoint => "topology link endpoint does not exist"
    case SelfLink => "topology link cannot connect a node to itself"
    case DuplicateLink => "topology links must be unique"
    case InvalidLinkShape => "topology links must connect the switch to a host"
    case NegativeLatency => "topology link latency cannot be negative"
  }

  function BenchmarkErrorText(error: BenchmarkError): string {
    match error
    case UnknownBackend => "unknown benchmark backend"
    case InvalidConfiguration => "invalid benchmark configuration"
  }

  function ScenarioNamed(name: string): Option<TrafficGenerator.TrafficScenario> {
    if name == "known-unicast" then Some(TrafficGenerator.KnownUnicastTraffic)
    else if name == "broadcast" then Some(TrafficGenerator.BroadcastTraffic)
    else if name == "unknown-unicast" then Some(TrafficGenerator.UnknownUnicastTraffic)
    else if name == "mixed-traffic" then Some(TrafficGenerator.MixedTraffic)
    else if name == "udp-flood" then Some(TrafficGenerator.UdpFloodTraffic)
    else if name == "port-scan" then Some(TrafficGenerator.PortScanTraffic)
    else if name == "broadcast-storm" then Some(TrafficGenerator.BroadcastStormTraffic)
    else None
  }

  /** The run a request asks for. */
  function ConfigFor(b: BenchmarkParameters, scenario: TrafficGenerator.TrafficScenario): (config: BenchmarkConfig)
    ensures config.packetCount == b.packetCount
  {
    BenchmarkConfig(
      TrafficGenerator.TrafficConfig(scenario, b.seed as bv64, b.frameSize, DEFAULT_HOSTS),
      b.packetCount, b.batchSize, BackendName(b.backend), b.generator)
  }

  /** Whether there is such a run. */
  predicate Startable(b: BenchmarkParameters) {
    ScenarioNamed(b.scenario).Some? && Validate(ConfigFor(b, ScenarioNamed(b.scenario).value)).Ok?
  }

  function RunFor(b: BenchmarkParameters): BenchmarkConfig {
    ConfigFor(b, ScenarioNamed(b.scenario).Or(TrafficGenerator.KnownUnicastTraffic))
  }

  ghost predicate IsTopology(c: TopologyModel.Configuration) {
    exists at: nat :: TopologyModel.Accepts(c, at)
  }

  lemma NoTopologyIn(c: TopologyModel.Configuration, error: TopologyModel.TopologyError)
    requires TopologyModel.Explains(error, c)
    ensures !IsTopology(c)
  {
    hide TopologyModel.Accepts, TopologyModel.Explains;
    forall at: nat
      ensures !TopologyModel.Accepts(c, at)
    {
      if TopologyModel.Accepts(c, at) {
        TopologyModel.AcceptedHasNoFault(c, error, at);
      }
    }
  }

  // ---- active faults ----

  datatype TopologyFault = TopologyFault(first: string, second: string,
                                         configuration: FaultEngineModel.FaultConfiguration)

  predicate FaultLess(a: TopologyFault, b: TopologyFault) {
    Less(a.first, b.first) || (a.first == b.first && Less(a.second, b.second))
  }

  function PortFaults(cs: ControllerState, nodes: seq<TopologyModel.Node>): seq<TopologyFault> {
    if nodes == [] then []
    else
      var last := nodes[|nodes| - 1];
      var fault := FaultEngineModel.Configuration(cs.faults, Targets.PortTarget(last.id));
      PortFaults(cs, nodes[..|nodes| - 1])
      + if last.kind == TopologyModel.Host && fault.Some? then [TopologyFault(last.id, "", fault.value)] else []
  }

  function LinkFaults(cs: ControllerState, links: seq<TopologyModel.Link>): seq<TopologyFault> {
    if links == [] then []
    else
      var last := links[|links| - 1];
      var fault := FaultEngineModel.Configuration(cs.faults, Targets.LinkTarget(last.from, last.to));
      LinkFaults(cs, links[..|links| - 1])
      + if fault.Some? then [TopologyFault(last.from, last.to, fault.value)] else []
  }

  /** Every fault on a port or link of the topology, ports first. */
  function AllFaults(cs: ControllerState): seq<TopologyFault> {
    if cs.topology.None? then []
    else
      PortFaults(cs, cs.topology.value.configuration.nodes) + LinkFaults(cs, cs.topology.value.configuration.links)
  }

  lemma FaultLessOrders()
    ensures Orders(FaultLess)
  {
    forall a: TopologyFault, b: TopologyFault
      ensures FaultLess(a, b) ==> !FaultLess(b, a)
    {
      LessTotal(a.first, b.first);
      LessTotal(a.second, b.second);
    }
    forall a: TopologyFault, b: TopologyFault, c: TopologyFault
      ensures FaultLess(a, b) && FaultLess(b, c) ==> FaultLess(a, c)
      ensures !FaultLess(a, b) && !FaultLess(b, c) ==> !FaultLess(a, c)
    {
      FaultsTransitive(a, b, c);
      FaultsTransitive(c, b, a);
      FaultsTotal(a, b);
      FaultsTotal(b, c);
      FaultsTotal(a, c);
    }
  }

  lemma FaultsTotal(a: TopologyFault, b: TopologyFault)
    ensures FaultLess(a, b) || FaultLess(b, a) || (a.first == b.first && a.second == b.second)
    ensures !(FaultLess(a, b) && FaultLess(b, a))
  {
    LessTotal(a.first, b.first);
    LessTotal(a.second, b.second);
  }

  lemma FaultsTransitive(a: TopologyFault, b: TopologyFault, c: TopologyFault)
    ensures FaultLess(a, b) && FaultLess(b, c) ==> FaultLess(a, c)
  {
    if Less(a.first, b.first) && Less(b.first, c.first) {
      LessTransitive(a.first, b.first, c.first);
    }
    if Less(a.second, b.second) && Less(b.second, c.second) {
      LessTransitive(a.second, b.second, c.second);
    }
  }

  method ListFaults(controller: TopologyController) returns (faults: Result<seq<TopologyFault>, ControllerError>)
    requires controller.Valid()
    ensures faults.Ok? <==> controller.topology.Some?
    ensures faults.Err? ==> faults.error == NoTopology
    ensures faults.Ok? ==>
              multiset(faults.value) == multiset(AllFaults(controller.State())) && InOrder(faults.value, FaultLess)
  {
    hide Targets.PortTarget, Targets.LinkTarget, Less;
    if controller.topology.None? {
      return Err(NoTopology);
    }
    var nodes, links := controller.topology.value.configuration.nodes, controller.topology.value.configuration.links;
    var found: seq<TopologyFault> := [];
    for i := 0 to |nodes|
      invariant found == PortFaults(controller.State(), nodes[..i])
    {
      assert nodes[..i + 1][..i] == nodes[..i];
      if nodes[i].kind == TopologyModel.Host {
        var fault := controller.engine.FaultFor(Targets.PortTarget(nodes[i].id));
        if fault.Some? {
          found := found + [TopologyFault(nodes[i].id, "", fault.value)];
        }
      }
    }
    assert nodes[..|nodes|] == nodes;
    ghost var ports := found;
    for i := 0 to |links|
      invariant found == ports + LinkFaults(controller.State(), links[..i])
    {
      assert links[..i + 1][..i] == links[..i];
      var fault := controller.engine.FaultFor(Targets.LinkTarget(links[i].from, links[i].to));
      if fault.Some? {
        found := found + [TopologyFault(links[i].from, links[i].to, fault.value)];
      }
    }
    assert links[..|links|] == links;
    FaultLessOrders();
    var sorted := Sort(found, FaultLess);
    return Ok(sorted);
  }

  /** The events list the faults there are, one event for each, by endpoints. */
  ghost predicate ListsFaults(events: seq<ControlEvent>, all: seq<TopologyFault>) {
    exists faults :: Lists(events, faults, all)
  }

  ghost predicate Lists(events: seq<ControlEvent>, faults: seq<TopologyFault>, all: seq<TopologyFault>) {
    && multiset(faults) == multiset(all) && InOrder(faults, FaultLess) && |events| == |faults|
    && forall i | 0 <= i < |events| :: events[i].body == FaultBodies(faults)[i]
  }

  // ---- the service ----

  class ControlService {
    const controller: Option<TopologyController>
    const fixedRevision: u64
    var run: Option<BenchmarkRun>
    var operation: string
    var deadline: nat
    var nextBenchmark: nat
    var nextSequence: nat

    ghost var log: seq<ControlEvent>   // every event ever emitted
    ghost var reported: nat            // the progress last reported of the open run

    ghost predicate Valid()
      reads this, if controller.Some? then {controller.value, controller.value.engine} else {},
            if run.Some? then {run.value, run.value.aggregator} else {}
    {
      && (controller.Some? ==> controller.value.Valid())
      && (run.Some? ==> run.value.Valid() && reported <= run.value.completed)
      && nextSequence == 1 + |log| && Consecutive(log, 1) && nextBenchmark >= 1
      && StandingOf(log) == Standing(true, if run.Some? then Some((operation, reported)) else None, nextBenchmark - 1)
    }

    function Revision(): u64
      reads this, if controller.Some? then {controller.value} else {}
    {
      if controller.Some? then controller.value.revision else fixedRevision
    }

    /** Nothing a client could observe has changed. */
    twostate predicate Unmoved()
      reads this, if controller.Some? then {controller.value, controller.value.engine} else {}
    {
      && unchanged(this)
      && (controller.Some? ==> controller.value.State() == old(controller.value.State()))
    }

    ghost function Controlled(): ControllerState
      reads this, if controller.Some? then {controller.value, controller.value.engine} else {}
    {
      if controller.Some? then controller.value.State() else BLANK
    }

    /** A reply to a request carries its id and the revision there is now, and no error unless it refuses. */
    ghost predicate Answers(d: ControlDispatch, request: ControlRequest)
      reads this, if controller.Some? then {controller.value} else {}
    {
      && d.reply.apiVersion == API_VERSION && d.reply.requestId == request.requestId
      && d.reply.topologyRevision == Revision()
      && (d.reply.accepted ==> d.reply.error == "") && (!d.reply.accepted ==> d.reply.operationId == "")
      && Stamped(d.events)
    }

    /** The events carry the revision there is now. */
    ghost predicate Stamped(events: seq<ControlEvent>)
      reads this, if controller.Some? then {controller.value} else {}
    {
      forall i | 0 <= i < |events| :: events[i].revision == Revision()
    }

    /** When a valid request of the present revision is accepted. */
    ghost predicate Servable(request: ControlRequest, around: Surroundings)
      reads this, if controller.Some? then {controller.value, controller.value.engine} else {}
    {
      match request.command
      case GetSwitchState => true
      case GetSupervisionState => around.supervision.Some?
      case LoadTopology => controller.Some? && around.file.Ok? && IsTopology(around.file.value)
      case StartBenchmark => run == None && Startable(request.benchmark)
      case StopRun => run.Some?
      case GetActiveFaults => controller.Some? && controller.value.topology.Some?
      case _ => controller.Some? && Changed(Controlled(), request).0
    }

    /** What an accepted request did and said, command by command. */
    twostate predicate Fulfilled(request: ControlRequest, around: Surroundings, events: seq<ControlEvent>)
      reads this, if controller.Some? then {controller.value, controller.value.engine} else {}
    {
      && (request.command !in {GetActiveFaults} ==> |events| == 1)
      && (request.command !in {StartBenchmark, StopRun} ==> run == old(run) && operation == old(operation))
      && (request.command != StartBenchmark ==> deadline == old(deadline) && nextBenchmark == old(nextBenchmark))
      && match request.command
         case GetSwitchState => events[0].body == MetricsReport && Controlled() == old(Controlled())
         case GetSupervisionState =>
           && around.supervision.Some? && Controlled() == old(Controlled())
           && events[0].body == SupervisionReport(around.supervision.value.0, around.supervision.value.1)
         case LoadTopology =>
           && controller.Some? && around.file.Ok? && events[0].body == TopologyLoaded(around.file.value)
           && controller.value.topology.Some? && controller.value.topology.value.configuration == around.file.value
           && TopologyModel.Accepts(around.file.value, controller.value.topology.value.switchIndex)
           && Controlled() == Loaded(old(Controlled()), controller.value.topology.value)
         case StartBenchmark =>
           && old(run) == None && run.Some? && run.value.config == RunFor(request.benchmark)
           && operation == OperationName(old(nextBenchmark))
           && deadline == request.benchmark.durationSeconds * NANOSECONDS_PER_SECOND
           && events[0].body == Progress(operation, 0, request.benchmark.packetCount)
           && Controlled() == old(Controlled())
         case StopRun =>
           && old(run).Some? && run == None && Controlled() == old(Controlled())
           && events[0].body == RunEnded(old(operation), false, old(if run.Some? then run.value.totals else NO_COUNTS))
         case GetActiveFaults =>
           && controller.Some? && Controlled() == old(Controlled()) && ListsFaults(events, AllFaults(Controlled()))
         case _ =>
           && controller.Some? && (true, Controlled()) == Changed(old(Controlled()), request)
           && events[0].body == FaultBody(request)
    }

    constructor (controller: Option<TopologyController>, fixedRevision: u64)
      requires controller.Some? ==> controller.value.Valid()
      ensures Valid() && this.controller == controller && log == [] && run == None
    {
      this.controller := controller;
      this.fixedRevision := fixedRevision;
      run, operation, deadline, nextBenchmark, nextSequence := None, "", 0, 1, 1;
      log, reported := [], 0;
    }

    method Emit(body: EventBody) returns (e: ControlEvent)
      requires nextSequence == 1 + |log| && Consecutive(log, 1)
      modifies this`nextSequence, this`log
      ensures nextSequence == 1 + |log| && Consecutive(log, 1)
      ensures e == ControlEvent(old(nextSequence), Revision(), body) && log == old(log) + [e]
      ensures StandingOf(log) == Follow(old(StandingOf(log)), body)
    {
      e := ControlEvent(nextSequence, Revision(), body);
      FollowNext(log, e);
      log := log + [e];
      nextSequence := nextSequence + 1;
    }

    /** Events that are no part of a run, one after the other. */
    method EmitAll(bodies: seq<EventBody>) returns (events: seq<ControlEvent>)
      requires nextSequence == 1 + |log| && Consecutive(log, 1)
      requires forall i | 0 <= i < |bodies| :: !bodies[i].Progress? && !bodies[i].RunEnded?
      modifies this`nextSequence, this`log
      ensures nextSequence == 1 + |log| && Consecutive(log, 1) && StandingOf(log) == old(StandingOf(log))
      ensures log == old(log) + events && |events| == |bodies|
      ensures forall i | 0 <= i < |events| ::
                events[i] == ControlEvent(old(nextSequence) + i, Revision(), bodies[i])
    {
      hide StandingOf;
      events := [];
      for i := 0 to |bodies|
        invariant nextSequence == 1 + |log| && Consecutive(log, 1) && StandingOf(log) == old(StandingOf(log))
        invariant log == old(log) + events && |events| == i && nextSequence == old(nextSequence) + i
        invariant forall j | 0 <= j < i :: events[j] == ControlEvent(old(nextSequence) + j, Revision(), bodies[j])
      {
        var e := Emit(bodies[i]);
        events := events + [e];
      }
    }

    method Accept(requestId: string, operationId: string) returns (reply: ControlReply)
      ensures reply == ControlReply(API_VERSION, requestId, true, Revision(), operationId, "")
    {
      reply := ControlReply(API_VERSION, requestId, true, Revision(), operationId, "");
    }

    method Reject(requestId: string, error: string) returns (d: ControlDispatch)
      ensures d == ControlDispatch(ControlReply(API_VERSION, requestId, false, Revision(), "", error), [])
    {
      d := ControlDispatch(ControlReply(API_VERSION, requestId, false, Revision(), "", error), []);
    }

    /** An accepted query of the switch or its supervisor: one event. */
    method Report(requestId: string, body: EventBody, name: string) returns (d: ControlDispatch)
      requires Valid() && !body.Progress? && !body.RunEnded?
      modifies this`nextSequence, this`log
      ensures Valid() && d.reply.accepted && log == old(log) + d.events && |d.events| == 1 && d.events[0].body == body
      ensures d.reply == ControlReply(API_VERSION, requestId, true, Revision(), d.reply.operationId, "")
      ensures Stamped(d.events)
    {
      hide StandingOf;
      var e := Emit(body);
      var reply := Accept(requestId, name + Decimal(e.sequence));
      d := ControlDispatch(reply, [e]);
    }

    /** Loads the topology a file holds. `topology` is what was loaded. */
    method LoadTopology(request: ControlRequest, file: Result<TopologyModel.Configuration, string>)
      returns (d: ControlDispatch, ghost topology: Option<TopologyModel.Topology>)
      requires Valid()
      modifies this`nextSequence, this`log, if controller.Some? then {controller.value, controller.value.engine} else {}
      ensures Valid() && log == old(log) + d.events && Answers(d, request)
      ensures d.reply.accepted <==> controller.Some? && file.Ok? && IsTopology(file.value)
      ensures !d.reply.accepted ==> d.events == [] && Unmoved()
      ensures d.reply.accepted ==>
                && controller.Some? && file.Ok? && |d.events| == 1 && d.events[0].body == TopologyLoaded(file.value)
                && topology.Some? && topology.value.configuration == file.value && controller.value.topology == topology
                && TopologyModel.Accepts(file.value, topology.value.switchIndex)
                && controller.value.State()
                   == Loaded(old(if controller.Some? then controller.value.State() else BLANK), topology.value)
    {
      hide StandingOf, TopologyModel.Accepts, TopologyModel.Explains, Loaded, BenchmarkRun.Valid, Decimal;
      topology := None;
      if controller.None? {
        d := Reject(request.requestId, "topology loading is unavailable");
        return;
      }
      if file.Err? {
        d := Reject(request.requestId, file.error);
        return;
      }
      var created := TopologyModel.Create(file.value);
      if created.Err? {
        NoTopologyIn(file.value, created.error);
        d := Reject(request.requestId, TopologyErrorText(created.error));
        return;
      }
      topology := Some(created.value);
      controller.value.Load(created.value);
      var e := Emit(TopologyLoaded(created.value.configuration));
      var reply := Accept(request.requestId, "topology-loaded-" + Decimal(e.sequence));
      d := ControlDispatch(reply, [e]);
    }

    /** One run at a time; a start reports that nothing has been measured yet. */
    method Start(request: ControlRequest) returns (d: ControlDispatch)
      requires Valid()
      modifies this
      ensures Valid() && log == old(log) + d.events
      ensures Answers(d, request) && (d.reply.accepted <==> old(run) == None && Startable(request.benchmark))
      ensures !d.reply.accepted ==> d.events == [] && Unmoved()
      ensures d.reply.accepted ==>
                && run.Some? && fresh(run.value) && run.value.completed == 0
                && run.value.config == RunFor(request.benchmark)
                && deadline == request.benchmark.durationSeconds * NANOSECONDS_PER_SECOND
                && d.reply.operationId == operation == OperationName(old(nextBenchmark))
                && |d.events| == 1 && d.events[0].body == Progress(operation, 0, request.benchmark.packetCount)
    {
      hide StandingOf, OperationName, Validate, PacketAnalyzerModel.TotalsOf, PacketAnalyzerModel.Learned, RunPackets,
           PacketAnalyzerModel.Plus, SumOf, ConfigFor, ScenarioNamed, BenchmarkRun.Valid;
      if run.Some? {
        d := Reject(request.requestId, "a benchmark run is already active");
        return;
      }
      var scenario := ScenarioNamed(request.benchmark.scenario);
      if scenario.None? {
        d := Reject(request.requestId, "unknown traffic scenario");
        return;
      }
      var created := BenchmarkRun.Create(ConfigFor(request.benchmark, scenario.value), false);
      if created.Err? {
        d := Reject(request.requestId, BenchmarkErrorText(created.error));
        return;
      }
      run := Some(created.value);
      operation := OperationName(nextBenchmark);
      nextBenchmark := nextBenchmark + 1;
      deadline := request.benchmark.durationSeconds * NANOSECONDS_PER_SECOND;
      reported := 0;
      var reply := Accept(request.requestId, operation);
      var e := Emit(Progress(operation, 0, created.value.config.packetCount));
      d := ControlDispatch(reply, [e]);
    }

    /** A stopped run reports what it has measured. */
    method Stop(request: ControlRequest) returns (d: ControlDispatch)
      requires Valid()
      modifies this
      ensures Valid() && log == old(log) + d.events
      ensures Answers(d, request) && (d.reply.accepted <==> old(run).Some?)
      ensures deadline == old(deadline) && nextBenchmark == old(nextBenchmark)
      ensures !d.reply.accepted ==> d.events == [] && Unmoved()
      ensures d.reply.accepted ==>
                && run == None && |d.events| == 1
                && d.events[0].body == RunEnded(old(operation), false,
                                                old(if run.Some? then run.value.totals else NO_COUNTS))
    {
      hide StandingOf;
      if run.None? {
        d := Reject(request.requestId, "no run is active");
        return;
      }
      var reply := Accept(request.requestId, operation);
      var e := Emit(RunEnded(operation, false, run.value.totals));
      run := None;
      d := ControlDispatch(reply, [e]);
    }

    /** One event for each active fault. */
    method ActiveFaults(request: ControlRequest) returns (d: ControlDispatch)
      requires Valid()
      modifies this`nextSequence, this`log
      ensures Valid() && log == old(log) + d.events
      ensures Answers(d, request)
      ensures d.reply.accepted <==> controller.Some? && controller.value.topology.Some?
      ensures !d.reply.accepted ==> d.events == [] && Unmoved()
      ensures d.reply.accepted ==> controller.Some? && ListsFaults(d.events, AllFaults(controller.value.State()))
    {
      hide StandingOf, AllFaults, BenchmarkRun.Valid, Decimal;
      if controller.None? {
        d := Reject(request.requestId, "topology fault control is unavailable");
        return;
      }
      var faults := ListFaults(controller.value);
      if faults.Err? {
        d := Reject(request.requestId, ControllerErrorText(faults.error));
        return;
      }
      ghost var all := AllFaults(controller.value.State());
      var reply := Accept(request.requestId, "active-faults-" + Decimal(nextSequence));
      var events := EmitAll(FaultBodies(faults.value));
      assert Lists(events, faults.value, all);
      d := ControlDispatch(reply, events);
    }

    /** The change a fault command asks for, or why it cannot be made. */
    method ChangeFault(request: ControlRequest) returns (refused: Option<string>)
      requires controller.Some? && controller.value.Valid()
      requires request.command in {SetPortFault, ClearPortFault, SetLinkFault, ClearLinkFault}
      modifies controller.value.engine
      ensures controller.value.Valid()
      ensures (refused.None?, controller.value.State()) == Changed(old(controller.value.State()), request)
    {
      hide IsPort, IsLink, Targets.PortTarget, Targets.LinkTarget;
      var f := request.fault;
      match request.command {
        case SetPortFault =>
          var outcome := controller.value.SetPort(f.portId, f.configuration);
          return if outcome.Ok? then None else Some(ControllerErrorText(outcome.error));
        case SetLinkFault =>
          var outcome := controller.value.SetLink(f.firstEndpoint, f.secondEndpoint, f.configuration);
          return if outcome.Ok? then None else Some(ControllerErrorText(outcome.error));
        case ClearPortFault =>
          var cleared := controller.value.ClearPort(f.portId);
          return if cleared then None else Some("fault target has no active configuration");
        case ClearLinkFault =>
          var cleared := controller.value.ClearLink(f.firstEndpoint, f.secondEndpoint);
          return if cleared then None else Some("fault target has no active configuration");
      }
    }

    /** A fault command: the change and its event, or nothing. */
    method Fault(request: ControlRequest) returns (d: ControlDispatch)
      requires Valid() && request.command in {SetPortFault, ClearPortFault, SetLinkFault, ClearLinkFault}
      modifies this`nextSequence, this`log, if controller.Some? then {controller.value.engine} else {}
      ensures Valid() && log == old(log) + d.events
      ensures Answers(d, request)
      ensures d.reply.accepted <==> controller.Some? && Changed(old(Controlled()), request).0
      ensures !d.reply.accepted ==> d.events == [] && Unmoved()
      ensures d.reply.accepted ==>
                && controller.Some?
                && (true, controller.value.State())
                   == Changed(old(if controller.Some? then controller.value.State() else BLANK), request)
                && |d.events| == 1 && d.events[0].body == FaultBody(request)
    {
      hide StandingOf, Changed, FaultBody, BenchmarkRun.Valid, Decimal;
      if controller.None? {
        d := Reject(request.requestId, "topology fault control is unavailable");
        return;
      }
      RefusedKeeps(controller.value.State(), request);
      var refused := ChangeFault(request);
      if refused.Some? {
        d := Reject(request.requestId, refused.value);
        return;
      }
      var e := Emit(FaultBody(request));
      var prefix := if FaultBody(request).active then "fault-set-" else "fault-cleared-";
      var reply := Accept(request.requestId, prefix + Decimal(e.sequence));
      d := ControlDispatch(reply, [e]);
    }

    /** A valid request of the present revision. */
    method Serve(request: ControlRequest, around: Surroundings) returns (d: ControlDispatch)
      requires Valid()
      modifies this, if controller.Some? then {controller.value, controller.value.engine} else {}
      ensures Valid() && log == old(log) + d.events
      ensures Answers(d, request) && (d.reply.accepted <==> old(Servable(request, around)))
      ensures !d.reply.accepted ==> d.events == [] && Unmoved()
      ensures d.reply.accepted ==> Fulfilled(request, around, d.events)
    {
      hide StandingOf, BenchmarkRun.Valid, Decimal, Changed, FaultBody, AllFaults, Loaded, TopologyModel.Accepts,
           OperationName, ListsFaults, IsTopology, Startable, ConfigFor, ScenarioNamed;
      match request.command {
        case GetSwitchState => d := Report(request.requestId, MetricsReport, "switch-state-");
        case GetSupervisionState =>
          if around.supervision.None? {
            d := Reject(request.requestId, "supervision state is unavailable");
          } else {
            var (analysed, blocked) := around.supervision.value;
            d := Report(request.requestId, SupervisionReport(analysed, blocked), "supervision-state-");
          }
        case LoadTopology =>
          var loaded, topology := LoadTopology(request, around.file);
          d := loaded;
        case StartBenchmark => d := Start(request);
        case StopRun => d := Stop(request);
        case GetActiveFaults => d := ActiveFaults(request);
        case _ => d := Fault(request);
      }
    }

    /** One request: parsed, checked, served. A request that is refused, for whatever reason, changes nothing
        and takes no sequence number. */
    method Dispatch(json: string, around: Surroundings) returns (d: ControlDispatch)
      requires Valid()
      modifies this, if controller.Some? then {controller.value, controller.value.engine} else {}
      ensures Valid()
      ensures log == old(log) + d.events && nextSequence == old(nextSequence) + |d.events|
      ensures Consecutive(d.events, old(nextSequence))
      ensures !d.reply.accepted ==> d.events == [] && Unmoved()
      ensures match RequestFrom(json)
              case Err(error) =>
                d.reply == ControlReply(API_VERSION, "", false, old(Revision()), "", ParseErrorText(error))
              case Ok(request) =>
                && Answers(d, request)
                && (d.reply.accepted <==>
                      && Refused(request) == None && request.topologyRevision == old(Revision())
                      && old(Servable(request, around)))
                && (d.reply.accepted ==> Fulfilled(request, around, d.events))
                && (Refused(request).Some? ==> d.reply.error == Refused(request).value)
    {
      hide StandingOf, BenchmarkRun.Valid, RequestFrom, Refused;
      var request := ControlParser.ParseRequest(json);
      if request.Err? {
        d := Reject("", ParseErrorText(request.error));
        return;
      }
      var refused := Refused(request.value);
      if refused.Some? {
        d := Reject(request.value.requestId, refused.value);
        return;
      }
      if request.value.topologyRevision != Revision() {
        d := Reject(request.value.requestId, "stale topology revision");
        return;
      }
      d := Serve(request.value, around);
      NumberedTail(old(log), d.events);
    }

    /** A slice of the open run: what moved, and the result if that ended it. */
    method AdvanceBenchmark(maxPackets: u64, ready: seq<nat>, elapsed: nat) returns (events: seq<ControlEvent>)
      requires Valid()
      modifies this, if run.Some? then {run.value, run.value.aggregator} else {}
      ensures Valid()
      ensures log == old(log) + events && Consecutive(events, old(nextSequence)) && Stamped(events)
      ensures old(run) == None ==> events == [] && run == None
      ensures events != [] <==> old(run).Some? && (maxPackets > 0 || old(run.Some? && run.value.Finished()))
      ensures events == [] ==> run == old(run)
      ensures events != [] ==>
                var ran := old(run).value;
                && old(run).Some? && events[0].body == Progress(old(operation), ran.completed, ran.config.packetCount)
                && (ran.Finished() || ran.completed >= old(if run.Some? then run.value.completed else 0) + maxPackets)
                && if ran.Finished() || (old(deadline) != 0 && elapsed >= old(deadline)) then
                     |events| == 2 && run == None && events[1].body == RunEnded(old(operation), true, ran.totals)
                   else |events| == 1 && run == old(run)
    {
      hide StandingOf, BenchmarkRun.Valid;
      events := [];
      if run.None? {
        return;
      }
      var advanced := run.value.Advance(maxPackets, ready);
      if advanced == 0 && !run.value.Finished() {
        return;
      }
      var progress := Emit(Progress(operation, run.value.completed, run.value.config.packetCount));
      reported := run.value.completed;
      events := [progress];
      if run.value.Finished() || (deadline != 0 && elapsed >= deadline) {
        var result := Emit(RunEnded(operation, true, run.value.totals));
        run := None;
        events := events + [result];
      }
      NumberedTail(old(log), events);
    }

    /** One outcome of the pipeline as events: anomalies, decisions, then the ports enforced or released. */
    method AnalysisEvents(outcome: AnalysisOutcome) returns (events: seq<ControlEvent>)
      requires Valid()
      modifies this`nextSequence, this`log
      ensures Valid()
      ensures log == old(log) + events && Consecutive(events, old(nextSequence)) && Stamped(events)
      ensures |events| == |outcome.anomalies| + |outcome.decisions|
                          + if controller.Some? then |FaultActions(outcome)| else 0
      ensures forall i | 0 <= i < |outcome.anomalies| :: events[i].body == AnomalyDetected(outcome.anomalies[i])
      ensures forall i | 0 <= i < |outcome.decisions| ::
                events[|outcome.anomalies| + i].body == PolicyTaken(outcome.decisions[i])
      ensures controller.Some? ==> forall i | 0 <= i < |FaultActions(outcome)| ::
                events[|outcome.anomalies| + |outcome.decisions| + i].body
                == ActionBody(controller.value.State(), FaultActions(outcome)[i])
    {
      hide StandingOf, BenchmarkRun.Valid, FaultActions, PortFault;
      var bodies := seq(|outcome.anomalies|,
                        i requires 0 <= i < |outcome.anomalies| => AnomalyDetected(outcome.anomalies[i]))
                  + seq(|outcome.decisions|,
                        i requires 0 <= i < |outcome.decisions| => PolicyTaken(outcome.decisions[i]));
      if controller.Some? {
        var actions := FaultActions(outcome);
        for i := 0 to |actions|
          invariant unchanged(this) && unchanged(controller.value, controller.value.engine)
          invariant |bodies| == |outcome.anomalies| + |outcome.decisions| + i
          invariant forall j | 0 <= j < |bodies| :: !bodies[j].Progress? && !bodies[j].RunEnded?
          invariant forall j | 0 <= j < |outcome.anomalies| :: bodies[j] == AnomalyDetected(outcome.anomalies[j])
          invariant forall j | 0 <= j < |outcome.decisions| ::
                      bodies[|outcome.anomalies| + j] == PolicyTaken(outcome.decisions[j])
          invariant forall j | 0 <= j < i ::
                      bodies[|outcome.anomalies| + |outcome.decisions| + j]
                        == ActionBody(controller.value.State(), actions[j])
        {
          var fault := controller.value.CurrentPortFault(actions[i].portId);
          bodies := bodies + [FaultChanged(actions[i].portId, "", fault.Or(FaultEngineModel.NO_FAULT),
                                           if actions[i].outcome == Released then fault.Some? else true)];
        }
      }
      events := EmitAll(bodies);
      NumberedTail(old(log), events);
    }

    method SupervisionEvent(analysed: nat, blocked: nat) returns (e: ControlEvent)
      requires Valid()
      modifies this`nextSequence, this`log
      ensures Valid() && log == old(log) + [e]
      ensures e == ControlEvent(old(nextSequence), Revision(), SupervisionReport(analysed, blocked))
    {
      hide StandingOf, BenchmarkRun.Valid;
      e := Emit(SupervisionReport(analysed, blocked));
    }
  }

  /** The end of a numbered log is numbered from where it begins. */
  lemma NumberedTail(before: seq<ControlEvent>, events: seq<ControlEvent>)
    requires Consecutive(before + events, 1)
    ensures Consecutive(events, 1 + |before|)
  {
    assert forall i | 0 <= i < |events| :: events[i] == (before + events)[|before| + i];
  }

  predicate Enforces(action: EnforcementAction) {
    action.outcome == Applied || action.outcome == Extended
  }

  function Named(actions: seq<EnforcementAction>): seq<EnforcementAction> {
    if actions == [] then []
    else
      var last := actions[|actions| - 1];
      Named(actions[..|actions| - 1])
      + if last.portId != "" && (last.outcome == Released || Enforces(last)) then [last] else []
  }

  /** The actions that changed what is installed on a port, releases first. */
  function FaultActions(outcome: AnalysisOutcome): seq<EnforcementAction> {
    Named(outcome.released + outcome.enforced)
  }

  /** What a client is told about a port: the configuration installed on it now. */
  function ActionBody(cs: ControllerState, action: EnforcementAction): EventBody {
    var fault := PortFault(cs, action.portId);
    FaultChanged(action.portId, "", fault.Or(FaultEngineModel.NO_FAULT),
                 if action.outcome == Released then fault.Some? else true)
  }

  function FaultBodies(faults: seq<TopologyFault>): (bodies: seq<EventBody>)
    ensures |bodies| == |faults|
    ensures forall i | 0 <= i < |faults| ::
              bodies[i] == FaultChanged(faults[i].first, faults[i].second, faults[i].configuration, true)
  {
    seq(|faults|,
        i requires 0 <= i < |faults| =>
          FaultChanged(faults[i].first, faults[i].second, faults[i].configuration, true))
  }

  /** What a fault command does to the controller, and whether it is accepted. */
  function Changed(cs: ControllerState, request: ControlRequest): (bool, ControllerState)
    requires request.command in {SetPortFault, ClearPortFault, SetLinkFault, ClearLinkFault}
  {
    var f := request.fault;
    match request.command
    case SetPortFault =>
      var (r, after) := TopologyControllerModel.SetPortFault(cs, f.portId, f.configuration);
      (r.Ok?, after)
    case SetLinkFault =>
      var (r, after) := TopologyControllerModel.SetLinkFault(cs, f.firstEndpoint, f.secondEndpoint, f.configuration);
      (r.Ok?, after)
    case ClearPortFault => TopologyControllerModel.ClearPortFault(cs, f.portId)
    case ClearLinkFault => TopologyControllerModel.ClearLinkFault(cs, f.firstEndpoint, f.secondEndpoint)
  }

  function FaultBody(request: ControlRequest): (body: EventBody)
    requires request.command in {SetPortFault, ClearPortFault, SetLinkFault, ClearLinkFault}
    ensures body.FaultChanged?
  {
    var f, port := request.fault, request.command == SetPortFault || request.command == ClearPortFault;
    FaultChanged(if port then f.portId else f.firstEndpoint, if port then "" else f.secondEndpoint, f.configuration,
                 request.command == SetPortFault || request.command == SetLinkFault)
  }

  /** A fault command that is not accepted leaves the controller as it was. */
  lemma RefusedKeeps(cs: ControllerState, request: ControlRequest)
    requires request.command in {SetPortFault, ClearPortFault, SetLinkFault, ClearLinkFault}
    ensures !Changed(cs, request).0 ==> Changed(cs, request).1 == cs
  {
    hide IsPort, IsLink, Targets.PortTarget, Targets.LinkTarget;
    if request.command == ClearPortFault {
      RemovedNothing(cs, Targets.PortTarget(request.fault.portId));
    } else if request.command == ClearLinkFault {
      RemovedNothing(cs, Targets.LinkTarget(request.fault.firstEndpoint, request.fault.secondEndpoint));
    }
  }

  lemma RemovedNothing(cs: ControllerState, target: string)
    ensures target !in cs.faults ==> Remove(cs, target) == cs
  {
    if target !in cs.faults {
      assert cs.faults - {target} == cs.faults;
    }
  }

  ghost const BLANK := ControllerState(None, 0, 0, map[])
  ghost const NO_COUNTS := PacketAnalyzerModel.NO_TOTALS
}
