/** The supervisor of src/switch_supervisor.cpp: senders become ports in first-seen order, frames are recorded
    before they are judged, and a full batch is analysed at once. */
module SwitchSupervisorModel {
  import opened Arith
  import opened Words
  import opened Results
  import Packets
  import opened PacketParser
  import opened PacketAnalyzerModel
  import opened TrafficSums
  import opened PacketBatches
  import opened FaultEngineModel
  import TopologyModel
  import opened TopologyControllerModel
  import Isolation
  import opened PolicyEngineModel
  import opened PolicyEnforcerModel
  import opened Enforcement
  import EnforcementHistory
  import Targets
  import opened AnalysisPipelineModel
  import opened DetectorWindow
  import opened Detector
  import DetectorRuns
  import Sorting

  datatype Binding = Binding(ingressPort: u32, portId: string)

  datatype SupervisorConfig = SupervisorConfig(tickInterval: int, maxBatchFrames: nat)

  /** The sender that was seen `i`-th has index `i`, and every sender is bound once. */
  ghost predicate BoundInOrder(bindings: map<string, Binding>, order: seq<string>) {
    && |order| == |bindings|
    && (forall i, j | 0 <= i < j < |order| :: order[i] != order[j])
    && (forall sender :: sender in order <==> sender in bindings)
    && (forall i | 0 <= i < |order| :: order[i] in bindings && bindings[order[i]].ingressPort == i % TWO_32)
  }

  /** A sender is bound to the host that has as many hosts before it as senders came before, or to no port. */
  ghost predicate BoundTo(topology: Option<TopologyModel.Topology>, number: nat, binding: Binding) {
    binding.ingressPort == number
    && exists port :: IsHostNumber(topology, number, port) && binding.portId == port.Or("")
  }

  lemma BoundNext(bindings: map<string, Binding>, order: seq<string>, sender: string, binding: Binding)
    requires BoundInOrder(bindings, order) && sender !in bindings && binding.ingressPort == |bindings| % TWO_32
    ensures BoundInOrder(bindings[sender := binding], order + [sender])
  {
    var more, next := bindings[sender := binding], order + [sender];
    MapGrows(bindings, sender, binding);
    forall i | 0 <= i < |next|
      ensures next[i] in more && more[next[i]].ingressPort == i % TWO_32
      ensures i < |order| ==> next[i] == order[i] && order[i] in bindings
    {
      if i < |order| {
        assert order[i] in bindings;
      }
    }
    forall other
      ensures other in next <==> other in more
    {
      assert other in next <==> other in order || other == sender;
    }
  }

  lemma MapGrows<K, V>(m: map<K, V>, key: K, value: V)
    requires key !in m
    ensures |m[key := value]| == |m| + 1
  {
    assert m[key := value].Keys == m.Keys + {key};
    assert |m[key := value]| == |m[key := value].Keys| && |m| == |m.Keys|;
  }

  /** Up to what 32 bits can count, two senders never share an index. */
  lemma IndicesAreDistinct(bindings: map<string, Binding>, order: seq<string>, a: string, b: string)
    requires BoundInOrder(bindings, order) && |order| <= TWO_32
    requires a in bindings && b in bindings && a != b
    ensures bindings[a].ingressPort != bindings[b].ingressPort
    ensures bindings[a].ingressPort < |bindings|
  {
    var i :| 0 <= i < |order| && order[i] == a;
    var j :| 0 <= j < |order| && order[j] == b;
    SmallRemainder(i);
    SmallRemainder(j);
  }

  lemma SmallRemainder(i: nat)
    requires i < TWO_32
    ensures i % TWO_32 == i
  {
  }

  /** Whether enough time has passed since the last analysis; the first is always due. */
  predicate IsDue(lastTick: int, now: int, interval: int) {
    lastTick == 0 || now - lastTick >= interval
  }

  /** A batch with one more frame, if it has room for one. */
  function Filled(batch: seq<PacketView>, frame: PacketView, capacity: nat): seq<PacketView> {
    if |batch| < capacity then batch + [frame] else batch
  }

  /** What the analysis remembers between batches. */
  datatype Memory = Memory(
    learned: set<Packets.Mac>,
    lastTimestamp: u64,
    detector: DetectorRuns.State,
    hits: Hits,
    leases: map<string, Lease>)

  /** `frames` are analysed after what was learned before, the detector takes its step on their packets, the rules
      decide on what it reports, and `order` goes over the leases that have expired. */
  ghost predicate Evaluates(config: DetectorConfig, rules: seq<PolicyRule>, before: Memory, frames: seq<PacketView>,
                            analysis: AnalysisBatch, outcome: AnalysisOutcome, order: seq<string>, now: int,
                            after: Memory)
  {
    && Analysed(analysis, before.learned, Measure(frames))
    && after.learned == Learned(before.learned, Measure(frames))
    && after.lastTimestamp == Max(before.lastTimestamp, now % TWO_64)
    && DetectorRuns.Step(config, before.detector, DetectorRuns.Call(analysis.packets, after.lastTimestamp),
                         outcome.anomalies, after.detector)
    && (outcome.decisions, after.hits) == Decide(rules, before.hits, outcome.anomalies)
    && Visits(order, Expired(before.leases, now))
  }

  lemma EvaluationVisits(config: DetectorConfig, rules: seq<PolicyRule>, before: Memory, frames: seq<PacketView>,
                         analysis: AnalysisBatch, outcome: AnalysisOutcome, order: seq<string>, now: int,
                         after: Memory)
    requires Evaluates(config, rules, before, frames, analysis, outcome, order, now, after)
    ensures Visits(order, Expired(before.leases, now))
  {
  }

  // ---- the control channel ----

  /** What a command from the control channel asks of the controller. Loading a topology leaves the leases. */
  datatype Command =
    | Change(subject: Isolation.Subject, configuration: FaultConfiguration)
    | Clear(subject: Isolation.Subject)
    | Load(topology: TopologyModel.Topology)

  function Obeyed(cs: ControllerState, command: Command): (after: ControllerState)
    requires ValidState(cs)
    ensures ValidState(after)
  {
    match command
    case Change(subject, configuration) =>
      Isolation.PerformKeepsValid(cs, Isolation.Operation(subject, Isolation.Set(configuration)));
      Isolation.Perform(cs, Isolation.Operation(subject, Isolation.Set(configuration))).1
    case Clear(subject) =>
      Isolation.PerformKeepsValid(cs, Isolation.Operation(subject, Isolation.Clear));
      Isolation.Perform(cs, Isolation.Operation(subject, Isolation.Clear)).1
    case Load(topology) => Loaded(cs, topology)
  }

  /** The controller after the commands that were waiting, in order. */
  function Served(cs: ControllerState, commands: seq<Command>): (after: ControllerState)
    requires ValidState(cs)
    ensures ValidState(after)
  {
    if commands == [] then cs else Obeyed(Served(cs, commands[..|commands| - 1]), commands[|commands| - 1])
  }

  method Poll(controller: TopologyController, commands: seq<Command>)
    requires controller.Valid()
    modifies controller, controller.engine
    ensures controller.Valid() && controller.State() == Served(old(controller.State()), commands)
  {
    hide Isolation.Perform;
    ghost var before := controller.State();
    for i := 0 to |commands|
      invariant controller.Valid() && controller.State() == Served(before, commands[..i])
    {
      assert commands[..i + 1][..i] == commands[..i];
      Obey(controller, commands[i]);
    }
    assert commands[..|commands|] == commands;
  }

  method Obey(controller: TopologyController, command: Command)
    requires controller.Valid()
    modifies controller, controller.engine
    ensures controller.Valid() && controller.State() == Obeyed(old(controller.State()), command)
  {
    hide SetPortFault, SetLinkFault, ClearPortFault, ClearLinkFault;
    match command
    case Change(Port(port), configuration) =>
      var _ := controller.SetPort(port, configuration);
    case Change(LinkBetween(first, second), configuration) =>
      var _ := controller.SetLink(first, second, configuration);
    case Clear(Port(port)) =>
      var _ := controller.ClearPort(port);
    case Clear(LinkBetween(first, second)) =>
      var _ := controller.ClearLink(first, second);
    case Load(topology) => controller.Load(topology);
  }

  class SwitchSupervisor {
    const pipeline: AnalysisPipeline
    const controller: TopologyController
    const config: SupervisorConfig
    const aggregator: PacketAnalysisAggregator
    var bindings: map<string, Binding>
    var batch: seq<PacketView>
    var lastTick: int
    var analysedFrames: nat
    var blockedFrames: nat
    var published: (nat, nat, nat)

    ghost var inspected: nat
    ghost var firstSeen: seq<string>

    ghost predicate Valid()
      reads this, pipeline, pipeline.detector, pipeline.policies, controller, controller.engine
    {
      && pipeline.Valid() && controller.Valid() && pipeline.controller == Some(controller)
      && BoundInOrder(bindings, firstSeen)
      && (if config.maxBatchFrames == 0 then batch == [] && analysedFrames == 0
          else |batch| < config.maxBatchFrames && analysedFrames + |batch| == inspected)
    }

    constructor (pipeline: AnalysisPipeline, controller: TopologyController, config: SupervisorConfig)
      requires pipeline.Valid() && controller.Valid()
      modifies pipeline`controller
      ensures Valid() && this.pipeline == pipeline && this.controller == controller && this.config == config
      ensures fresh(aggregator) && inspected == 0 && bindings == map[] && batch == []
    {
      this.pipeline := pipeline;
      this.controller := controller;
      this.config := config;
      aggregator := new PacketAnalysisAggregator();
      bindings, batch, lastTick, analysedFrames, blockedFrames, published := map[], [], 0, 0, 0, (0, 0, 0);
      inspected, firstSeen := 0, [];
      new;
      pipeline.Attach(controller);
    }

    /** The leases beside the controller once `commands` are served. */
    ghost function Polled(commands: seq<Command>): Enforced
      requires controller.Valid()
      reads this, pipeline, pipeline.enforcer, controller, controller.engine
    {
      pipeline.Held(controller).(cs := Served(controller.State(), commands))
    }

    ghost function Remembered(): Memory
      reads this, aggregator, pipeline, pipeline.detector, pipeline.policies, pipeline.enforcer
    {
      Memory(aggregator.learned, pipeline.lastTimestamp,
             DetectorRuns.State(pipeline.detector.observations, pipeline.detector.active),
             pipeline.policies.hitCounts, pipeline.enforcer.leases)
    }

    /** The evaluation of `frames`, from what was remembered `before` to what is now. */
    ghost predicate Evaluated(before: Memory, frames: seq<PacketView>, analysis: AnalysisBatch,
                              outcome: AnalysisOutcome, order: seq<string>, now: int)
      reads this, aggregator, pipeline, pipeline.detector, pipeline.policies, pipeline.enforcer
    {
      Evaluates(pipeline.detector.config, pipeline.policies.rules, before, frames, analysis, outcome, order, now,
                Remembered())
    }

    method Bind(sender: string) returns (binding: Binding)
      requires controller.Valid() && BoundInOrder(bindings, firstSeen)
      modifies this`bindings, this`firstSeen
      ensures BoundInOrder(bindings, firstSeen) && sender in bindings && binding == bindings[sender]
      ensures forall other | other in old(bindings) :: other in bindings && bindings[other] == old(bindings)[other]
      ensures firstSeen == if sender in old(bindings) then old(firstSeen) else old(firstSeen) + [sender]
      ensures sender !in old(bindings) ==> BoundTo(controller.topology, |old(bindings)| % TWO_32, binding)
    {
      hide PortIdAt, BoundInOrder, IsHostNumber;
      if sender in bindings {
        return bindings[sender];
      }
      var ingress := |bindings| % TWO_32;
      var port := controller.PortAt(ingress);
      PortAtExactly(controller.State(), ingress);
      binding := Binding(ingress, port.Or(""));
      BoundNext(bindings, firstSeen, sender, binding);
      bindings := bindings[sender := binding];
      firstSeen := firstSeen + [sender];
    }

    /** Serves the commands that are waiting, then analyses the batch when that is due or the batch is full. */
    method Tick(now: int, commands: seq<Command>)
      returns (outcome: Option<AnalysisOutcome>, ghost analysis: AnalysisBatch, ghost order: seq<string>)
      requires pipeline.Valid() && controller.Valid() && pipeline.controller == Some(controller)
      requires config.maxBatchFrames == 0 ==> batch == []
      modifies this`batch, this`lastTick, this`analysedFrames, aggregator,
               pipeline`lastTimestamp, pipeline.detector, pipeline.policies`hitCounts, pipeline.enforcer,
               controller, controller.engine
      ensures pipeline.Valid() && controller.Valid() && pipeline.controller == Some(controller)
      ensures outcome.Some? <==>
                || old(lastTick) == 0 || now - old(lastTick) >= config.tickInterval
                || |old(batch)| >= config.maxBatchFrames
      ensures outcome.None? ==> batch == old(batch) && analysedFrames == old(analysedFrames)
                                && pipeline.Held(controller) == old(Polled(commands))
      ensures outcome.Some? ==>
                && lastTick == now && batch == [] && analysedFrames == old(analysedFrames) + |old(batch)|
                && Evaluated(old(Remembered()), old(batch), analysis, outcome.value, order, now)
                && pipeline.Held(controller)
                   == Run(pipeline.enforcer.config, old(Polled(commands)),
                          Evaluation(order, outcome.value.decisions, now))
                && outcome.value.enforced
                   == ApplyAll(pipeline.enforcer.config, ReleaseEach(old(Polled(commands)), order),
                               outcome.value.decisions, now).0
                && (forall action :: action in outcome.value.released <==>
                      exists port :: port in order
                                     && action == old(pipeline.enforcer.leases)[port].action.(outcome := Released))
    {
      hide Run, Analysed, Learned, Measure, TotalsOf, DetectorRuns.Step, Decide, Visits, ApplyAll, ReleaseEach,
           Sorting.InOrder, Evaluation, Served;
      analysis, order := NO_ANALYSIS, [];
      Poll(controller, commands);
      if !IsDue(lastTick, now, config.tickInterval) && |batch| < config.maxBatchFrames {
        return None, analysis, order;
      }
      lastTick := now;
      ghost var known := aggregator.learned;
      ghost var frames := batch;
      var analysed := AnalyzeViews(aggregator, batch);
      analysis := analysed;
      ReceivedAll(analysed, known, frames);
      analysedFrames := analysedFrames + analysed.totals.receivedPackets;
      batch := [];
      var evaluated, walked := pipeline.Evaluate(analysed.packets, now % TWO_64, now);
      return Some(evaluated), analysis, walked;
    }

    /** Records a frame, serves what is waiting and analyses the batch if the frame fills it, and judges the frame
        by what is installed then. `judged` is the state it is judged in. */
    method Inspect(frame: seq<u8>, sender: string, arrival: int, commands: seq<Command>)
      returns (decision: FaultDecision, ghost judged: ControllerState,
               ghost analysis: AnalysisBatch, ghost outcome: AnalysisOutcome, ghost order: seq<string>)
      requires Valid() && |frame| < TWO_64
      modifies this`bindings, this`firstSeen, this`batch, this`lastTick, this`analysedFrames, this`blockedFrames,
               this`inspected, aggregator,
               pipeline`lastTimestamp, pipeline.detector, pipeline.policies`hitCounts, pipeline.enforcer,
               controller, controller.engine
      ensures Valid() && inspected == old(inspected) + 1
      ensures sender in bindings
      ensures forall other | other in old(bindings) :: other in bindings && bindings[other] == old(bindings)[other]
      ensures |old(batch)| + 1 < config.maxBatchFrames ==>
                && batch == old(batch) + [PacketView(frame, bindings[sender].ingressPort)]
                && judged == old(controller.State())
      ensures |old(batch)| + 1 >= config.maxBatchFrames ==>
                && batch == []
                && Evaluated(old(Remembered()),
                             Filled(old(batch), PacketView(frame, bindings[sender].ingressPort), config.maxBatchFrames),
                             analysis, outcome, order, arrival)
                && judged == Run(pipeline.enforcer.config, old(Polled(commands)),
                                 Evaluation(order, outcome.decisions, arrival)).cs
      ensures (decision, controller.State()) == Judged(judged, bindings[sender].portId, |frame|, arrival)
      ensures blockedFrames
           == old(blockedFrames) + if decision.dropped || decision.deliveries == [] then 1 else 0
      ensures sender !in old(bindings) ==>
                BoundTo(old(controller.topology), |old(bindings)| % TWO_32, bindings[sender])
      ensures |old(batch)| + 1 >= config.maxBatchFrames ==>
                forall o, i | 0 <= i < |outcome.decisions|
                              && Contains(old(Polled(commands)), o, outcome.decisions[i], bindings[sender]) ::
                  decision.dropped || decision.deliveries == []
    {
      hide Run, BoundInOrder, Judged, Evaluation, Served, Evaluates, Contains, BoundTo;
      var binding := Bind(sender);
      judged, analysis, outcome, order := Record(PacketView(frame, binding.ingressPort), arrival, commands);
      ghost var memory := Remembered();
      decision := Judge(binding.portId, |frame|, arrival);
      if |old(batch)| + 1 >= config.maxBatchFrames {
        ghost var before := old(Polled(commands));
        EvaluationVisits(pipeline.detector.config, pipeline.policies.rules, old(Remembered()),
                         Filled(old(batch), PacketView(frame, binding.ingressPort), config.maxBatchFrames),
                         analysis, outcome, order, arrival, memory);
        forall o, i | 0 <= i < |outcome.decisions| && Contains(before, o, outcome.decisions[i], binding)
          ensures Blocks(judged, binding.portId, |frame|, arrival)
        {
          SenderContained(pipeline.enforcer.config, before, o, order, outcome.decisions, arrival, i, binding, |frame|,
                          arrival);
        }
      }
    }

    /** Puts a frame into the batch, and analyses the batch if that fills it. */
    method Record(frame: PacketView, arrival: int, commands: seq<Command>)
      returns (ghost judged: ControllerState,
               ghost analysis: AnalysisBatch, ghost outcome: AnalysisOutcome, ghost order: seq<string>)
      requires Valid()
      modifies this`batch, this`lastTick, this`analysedFrames, this`inspected, aggregator,
               pipeline`lastTimestamp, pipeline.detector, pipeline.policies`hitCounts, pipeline.enforcer,
               controller, controller.engine
      ensures Valid() && inspected == old(inspected) + 1 && judged == controller.State()
      ensures |old(batch)| + 1 < config.maxBatchFrames ==>
                batch == old(batch) + [frame] && judged == old(controller.State())
      ensures |old(batch)| + 1 >= config.maxBatchFrames ==>
                && batch == []
                && Evaluated(old(Remembered()), Filled(old(batch), frame, config.maxBatchFrames),
                             analysis, outcome, order, arrival)
                && judged == Run(pipeline.enforcer.config, old(Polled(commands)),
                                 Evaluation(order, outcome.decisions, arrival)).cs
    {
      hide Run, BoundInOrder, Evaluation, Served, Evaluates;
      inspected := inspected + 1;
      analysis, outcome, order := NO_ANALYSIS, AnalysisOutcome([], [], [], [], 0), [];
      judged := controller.State();
      if |batch| < config.maxBatchFrames {
        batch := batch + [frame];
      }
      if |batch| >= config.maxBatchFrames {
        var evaluated, basis, walked := Tick(arrival, commands);
        analysis, outcome, order := basis, evaluated.value, walked;
        judged := controller.State();
      }
    }

    /** Judges a frame by its sender's port, and counts it if it is blocked. */
    method Judge(port: string, size: u64, arrival: int) returns (decision: FaultDecision)
      requires controller.Valid()
      modifies this`blockedFrames, controller.engine
      ensures controller.Valid()
      ensures (decision, controller.State()) == Judged(old(controller.State()), port, size, arrival)
      ensures blockedFrames
           == old(blockedFrames) + if Blocks(old(controller.State()), port, size, arrival) then 1 else 0
    {
      hide EvaluatePort;
      decision := FaultDecision(false, [arrival]);
      if port == "" {
        return;
      }
      ghost var before := controller.State();
      var evaluated := controller.JudgePort(port, size, arrival);
      if evaluated.Err? {
        RefusedChangesNothing(before, port, size, arrival);
        return;
      }
      decision := evaluated.value;
      if decision.dropped || decision.deliveries == [] {
        blockedFrames := blockedFrames + 1;
      }
    }

    /** Whether the counters moved since they were last published; if so, they are published now. */
    method Publish() returns (event: Option<(nat, nat, nat)>)
      modifies this`published
      ensures event.Some? <==> old(published) != (analysedFrames, blockedFrames, |bindings|)
      ensures published == (analysedFrames, blockedFrames, |bindings|)
      ensures event.Some? ==> event.value == published
    {
      var bound: nat := |bindings|;
      var now := (analysedFrames, blockedFrames, bound);
      if published == now {
        return None;
      }
      published := now;
      return Some(now);
    }
  }

  /** The judgement of a frame: undisturbed if its sender has no port or the port is not known. */
  function Judged(cs: ControllerState, port: string, size: u64, arrival: int): (FaultDecision, ControllerState)
    requires ValidState(cs)
  {
    if port == "" then (FaultDecision(false, [arrival]), cs)
    else
      var (r, after) := EvaluatePort(cs, port, size, arrival);
      if r.Err? then (FaultDecision(false, [arrival]), cs) else (r.value, after)
  }

  predicate Blocks(cs: ControllerState, port: string, size: u64, arrival: int)
    requires ValidState(cs)
  {
    var decision := Judged(cs, port, size, arrival).0;
    decision.dropped || decision.deliveries == []
  }

  /** An evaluation that drops or quarantines a port blocks the frames of that port at once, the one that brought
      the evaluation about included. */
  lemma ContainedAtOnce(config: EnforcerConfig, s: Enforced, o: ControllerState, order: seq<string>,
                        decisions: seq<PolicyDecision>, now: int, i: nat, port: string, size: u64, arrival: int)
    requires EnforcementHistory.Sound(s) && Transparent(s, o) && Visits(order, Expired(s.leases, now))
    requires i < |decisions| && KindFor(decisions[i].action) in {Blackholed, Isolated} && port != ""
    requires EnforcementHistory.Hits(config, s, Decision(decisions[i], now)) == Some(port)
    ensures Blocks(Run(config, s, Evaluation(order, decisions, now)).cs, port, size, arrival)
  {
    hide Run, Visits, EnforcementHistory.Hits, EnforcementHistory.Sound, Transparent;
    var events := Evaluation(order, decisions, now);
    var end := Run(config, s, events);
    EnforcementHistory.StaysAsStrong(config, s, events, |order| + i, port);
    EnforcementHistory.RunSound(config, s, events);
    EvaluationTransparent(config, s, o, events);
    OverlaidBlocks(end, o, port, size, arrival);
  }

  /** Where the leases and the operator's run stand so that a decision contains a bound sender. */
  ghost predicate Contains(s: Enforced, o: ControllerState, decision: PolicyDecision, binding: Binding) {
    && EnforcementHistory.Sound(s) && Transparent(s, o)
    && decision.action in {Drop, Quarantine} && decision.anomaly.key.ingressPort == binding.ingressPort
    && binding.portId != "" && IsHostNumber(s.cs.topology, binding.ingressPort, Some(binding.portId))
  }

  /** A drop or quarantine decided for what came in by a sender's port blocks the sender. */
  lemma SenderContained(config: EnforcerConfig, s: Enforced, o: ControllerState, order: seq<string>,
                        decisions: seq<PolicyDecision>, now: int, i: nat, binding: Binding, size: u64, arrival: int)
    requires i < |decisions| && Contains(s, o, decisions[i], binding) && Visits(order, Expired(s.leases, now))
    ensures Blocks(Run(config, s, Evaluation(order, decisions, now)).cs, binding.portId, size, arrival)
  {
    hide Run, Visits, EnforcementHistory.Sound, Transparent, IsHostNumber, PortIdAt, Blocks, Evaluation;
    PortAtExactly(s.cs, binding.ingressPort);
    HostNumberUnique(s.cs.topology, binding.ingressPort, PortIdAt(s.cs, binding.ingressPort), Some(binding.portId));
    ContainedAtOnce(config, s, o, order, decisions, now, i, binding.portId, size, arrival);
  }

  lemma HostNumberUnique(topology: Option<TopologyModel.Topology>, ingress: nat, a: Option<string>, b: Option<string>)
    requires IsHostNumber(topology, ingress, a) && IsHostNumber(topology, ingress, b)
    ensures a == b
  {
    hide HostsBefore;
  }

  lemma {:induction false} EvaluationTransparent(config: EnforcerConfig, s: Enforced, o: ControllerState,
                                                 events: seq<Event>)
    requires ValidState(s.cs) && Transparent(s, o)
    requires forall i | 0 <= i < |events| :: events[i].Decision? || events[i].Release?
    ensures Transparent(Run(config, s, events), o)
    decreases |events|
  {
    hide Transparent, ApplyOne, ReleaseOne;
    if events != [] {
      var front, last := events[..|events| - 1], events[|events| - 1];
      EvaluationTransparent(config, s, o, front);
      if last.Decision? {
        DecisionTransparent(config, Run(config, s, front), o, last.decision, last.now);
      } else {
        ReleaseTransparent(Run(config, s, front), o, last.port);
      }
    }
  }

  lemma OverlaidBlocks(s: Enforced, o: ControllerState, port: string, size: u64, arrival: int)
    requires Transparent(s, o) && EnforcementHistory.Sound(s) && port != ""
    requires port in s.leases && s.leases[port].action.kind in {Blackholed, EnforcementKind.Isolated}
    ensures Blocks(s.cs, port, size, arrival)
  {
    hide IsPort, Targets.PortTarget;
    assert Covers(s, o, port);
    assert EnforcementHistory.SoundLease(s, port);
  }

  lemma RefusedChangesNothing(cs: ControllerState, port: string, size: u64, arrival: int)
    requires ValidState(cs)
    ensures EvaluatePort(cs, port, size, arrival).0.Err? ==> EvaluatePort(cs, port, size, arrival).1 == cs
  {
  }

  lemma ReceivedAll(batch: AnalysisBatch, known: set<Packets.Mac>, frames: seq<PacketView>)
    requires Analysed(batch, known, Measure(frames))
    ensures batch.totals.receivedPackets == |frames|
  {
    hide TotalsOf;
    EveryPacketCountedOnce(known, Measure(frames));
  }
}
