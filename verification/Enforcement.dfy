/** Enforcement is transparent: in every run, a port shows the operator's own configuration, or that
    configuration under one overlay while it is leased, and gives it back exactly. */
module Enforcement {
  import opened Words
  import opened Results
  import opened Targets
  import opened FaultEngineModel
  import opened TopologyModel
  import opened TopologyControllerModel
  import opened PolicyEngineModel
  import opened PolicyEnforcerModel
  import opened Isolation

  /** What can happen to the controller and the leases. `Reload` is the session's: it loads a topology and
      forgets the leases. */
  datatype Event =
    | Decision(decision: PolicyDecision, now: int)
    | Release(port: string)
    | Operate(operation: Operation)
    | Reload(topology: Topology)

  function Step(config: EnforcerConfig, s: Enforced, e: Event): (next: Enforced)
    requires ValidState(s.cs)
    ensures ValidState(next.cs)
  {
    match e
    case Decision(decision, now) =>
      ApplyKeepsValid(config, s, decision, now);
      ApplyOne(config, s, decision, now).1
    case Release(port) =>
      ReleaseKeepsValid(s, port);
      ReleaseOne(s, port)
    case Operate(operation) =>
      PerformKeepsValid(s.cs, operation);
      s.(cs := Perform(s.cs, operation).1)
    case Reload(topology) => Enforced(map[], Loaded(s.cs, topology))
  }

  lemma ApplyKeepsValid(config: EnforcerConfig, s: Enforced, decision: PolicyDecision, now: int)
    requires ValidState(s.cs)
    ensures ValidState(ApplyOne(config, s, decision, now).1.cs)
  {
    hide RateLimitBits, IsPort, PortIdAt, PortTarget;
    PortTargetNonEmpty(PortIdAt(s.cs, decision.anomaly.key.ingressPort).Or(""));
  }

  lemma ReleaseKeepsValid(s: Enforced, port: string)
    requires ValidState(s.cs)
    ensures ValidState(ReleaseOne(s, port).cs)
  {
    hide IsPort, PortTarget;
    if port in s.leases {
      PortTargetNonEmpty(s.leases[port].action.portId);
    }
  }

  lemma PortTargetNonEmpty(port: string)
    ensures PortTarget(port) != ""
  {
  }

  function Run(config: EnforcerConfig, s: Enforced, events: seq<Event>): (end: Enforced)
    requires ValidState(s.cs)
    ensures ValidState(end.cs)
  {
    if events == [] then s else Step(config, Run(config, s, events[..|events| - 1]), events[|events| - 1])
  }

  /** The same run without any enforcement: what the operator configured. */
  function OperatorRun(cs: ControllerState, events: seq<Event>): (end: ControllerState)
    requires ValidState(cs)
    ensures ValidState(end)
  {
    if events == [] then cs
    else
      var before := OperatorRun(cs, events[..|events| - 1]);
      match events[|events| - 1]
      case Operate(operation) =>
        PerformKeepsValid(before, operation);
        Perform(before, operation).1
      case Reload(topology) => Loaded(before, topology)
      case _ => before
  }

  /** An operator's write to a port that is under a lease. */
  predicate WritesLeased(s: Enforced, e: Event) {
    e.Operate? && !e.operation.action.Judge? && e.operation.subject.Port? && e.operation.subject.port in s.leases
  }

  predicate Undisturbed(config: EnforcerConfig, s: Enforced, events: seq<Event>)
    requires ValidState(s.cs)
  {
    forall i | 0 <= i < |events| :: !WritesLeased(Run(config, s, events[..i]), events[i])
  }

  // ---- the invariant ----

  predicate SameConfiguration(a: Faults, b: Faults, target: string) {
    FaultEngineModel.Configuration(a, target) == FaultEngineModel.Configuration(b, target)
  }

  predicate Leased(leases: map<string, Lease>, target: string) {
    exists port :: port in leases && PortTarget(port) == target
  }

  /** The lease on `port` remembers what the operator has, and its overlay is installed. */
  predicate Covers(s: Enforced, o: ControllerState, port: string)
    requires port in s.leases
  {
    var lease, target := s.leases[port], PortTarget(port);
    && IsPort(s.cs.topology, port) && lease.action.portId == port
    && lease.action.kind != Unenforced
    && ValidConfiguration(lease.restore)
    && lease.hadRestore == (target in o.faults)
    && lease.restore == FaultEngineModel.Configuration(o.faults, target).Or(NO_FAULT)
    && FaultEngineModel.Configuration(s.cs.faults, target)
       == Some(Overlay(lease.restore, lease.action.kind, lease.action.rateBits))
  }

  ghost predicate Transparent(s: Enforced, o: ControllerState) {
    && ValidState(s.cs) && ValidState(o)
    && s.cs.topology == o.topology && s.cs.seed == o.seed && s.cs.revision == o.revision
    && (forall port | port in s.leases :: Covers(s, o, port))
    && (forall target :: !Leased(s.leases, target) ==> SameConfiguration(s.cs.faults, o.faults, target))
  }

  lemma OverlayValid(base: FaultConfiguration, kind: EnforcementKind, rate: u64)
    ensures ValidConfiguration(Overlay(base, kind, rate)) <==> ValidConfiguration(base)
  {
  }

  /** Writing one port's target leaves the other leases as they were. */
  lemma OthersKept(s: Enforced, next: Enforced, o: ControllerState, port: string)
    requires Transparent(s, o)
    requires next.cs.topology == s.cs.topology && next.cs.seed == s.cs.seed && next.cs.revision == s.cs.revision
    requires next.cs.faults - {PortTarget(port)} == s.cs.faults - {PortTarget(port)}
    requires next.leases - {port} == s.leases - {port}
    ensures forall other | other in next.leases && other != port :: Covers(next, o, other)
    ensures forall target | target != PortTarget(port) ::
              !Leased(next.leases, target) ==> SameConfiguration(next.cs.faults, o.faults, target)
  {
    hide PortTarget, Overlay, IsPort;
    forall other | other in next.leases && other != port
      ensures Covers(next, o, other)
    {
      assert other in (next.leases - {port}) && next.leases[other] == (s.leases - {port})[other];
      assert Covers(s, o, other);
      if PortTarget(other) == PortTarget(port) {
        PortTargetInjective(other, port);
      }
      KeptBy(next.cs.faults, s.cs.faults, PortTarget(port), PortTarget(other));
    }
    forall target | target != PortTarget(port) && !Leased(next.leases, target)
      ensures SameConfiguration(next.cs.faults, o.faults, target)
    {
      NowhereLeased(s, next, port, target);
      KeptBy(next.cs.faults, s.cs.faults, PortTarget(port), target);
    }
  }

  lemma NowhereLeased(s: Enforced, next: Enforced, port: string, target: string)
    requires next.leases - {port} == s.leases - {port}
    requires target != PortTarget(port) && !Leased(next.leases, target)
    ensures !Leased(s.leases, target)
  {
    hide PortTarget;
    forall other | other in s.leases && other != port
      ensures PortTarget(other) != target
    {
      assert other in s.leases - {port};
      assert other in next.leases;
    }
  }

  lemma KeptBy(a: Faults, b: Faults, without: string, target: string)
    requires a - {without} == b - {without} && target != without
    ensures SameConfiguration(a, b, target)
  {
    assert target in a - {without} <==> target in b - {without};
    if target in a {
      assert (a - {without})[target] == (b - {without})[target];
    }
  }

  /** A decision that changes anything covers its own port, and touches nothing else. */
  lemma DecisionCovers(config: EnforcerConfig, s: Enforced, o: ControllerState, decision: PolicyDecision, now: int,
                       port: string)
    requires Transparent(s, o) && ApplyOne(config, s, decision, now).1 != s
    requires PortIdAt(s.cs, decision.anomaly.key.ingressPort) == Some(port)
    ensures var next := ApplyOne(config, s, decision, now).1;
            && port in next.leases && Covers(next, o, port)
            && next.cs.topology == s.cs.topology && next.cs.seed == s.cs.seed && next.cs.revision == s.cs.revision
            && next.cs.faults - {PortTarget(port)} == s.cs.faults - {PortTarget(port)}
            && next.leases - {port} == s.leases - {port}
  {
    hide RateLimitBits, PortTarget, IsPort, PortIdAt, Overlay, KindFor, Severity, LeaseFor;
    if port !in s.leases {
      NotLeased(s, port);
      assert SameConfiguration(s.cs.faults, o.faults, PortTarget(port));
    } else {
      assert Covers(s, o, port);
    }
  }

  lemma DecisionTransparent(config: EnforcerConfig, s: Enforced, o: ControllerState, decision: PolicyDecision, now: int)
    requires Transparent(s, o)
    ensures Transparent(ApplyOne(config, s, decision, now).1, o)
  {
    hide RateLimitBits, PortTarget, IsPort, PortIdAt, Overlay, Enforce, Covers;
    var next := ApplyOne(config, s, decision, now).1;
    if next != s {
      var port := PortIdAt(s.cs, decision.anomaly.key.ingressPort).value;
      ApplyKeepsValid(config, s, decision, now);
      DecisionCovers(config, s, o, decision, now, port);
      OthersKept(s, next, o, port);
      assert Leased(next.leases, PortTarget(port));
    }
  }

  lemma NotLeased(s: Enforced, port: string)
    requires port !in s.leases
    ensures !Leased(s.leases, PortTarget(port))
  {
    hide PortTarget;
    forall other | other in s.leases
      ensures PortTarget(other) != PortTarget(port)
    {
      if PortTarget(other) == PortTarget(port) {
        PortTargetInjective(other, port);
      }
    }
  }

  /** Giving a port back installs the operator's configuration, present or absent. */
  lemma ReleaseTransparent(s: Enforced, o: ControllerState, port: string)
    requires Transparent(s, o)
    ensures Transparent(ReleaseOne(s, port), o)
  {
    hide PortTarget, IsPort;
    if port in s.leases {
      var next := ReleaseOne(s, port);
      ReleaseKeepsValid(s, port);
      assert Covers(s, o, port);
      OthersKept(s, next, o, port);
      assert SameConfiguration(next.cs.faults, o.faults, PortTarget(port));
    }
  }

  /** An operation that is no write to a leased port does the same to both. */
  lemma OperationTransparent(s: Enforced, o: ControllerState, operation: Operation)
    requires Transparent(s, o) && !WritesLeased(s, Operate(operation))
    ensures Transparent(s.(cs := Perform(s.cs, operation).1), Perform(o, operation).1)
  {
    hide PortTarget, LinkTarget, IsPort, IsLink, LinkLatency, FaultEngineModel.Judge, Overlay;
    var next, after := s.(cs := Perform(s.cs, operation).1), Perform(o, operation).1;
    PerformKeepsValid(s.cs, operation);
    PerformKeepsValid(o, operation);
    var target := TargetOf(operation.subject);
    forall port | port in next.leases
      ensures Covers(next, after, port)
    {
      assert Covers(s, o, port);
      TargetsIdentify(operation.subject, Port(port));
      ConfigurationAfter(s.cs, operation, PortTarget(port));
      ConfigurationAfter(o, operation, PortTarget(port));
    }
    forall other | !Leased(next.leases, other)
      ensures SameConfiguration(next.cs.faults, after.faults, other)
    {
      ConfigurationAfter(s.cs, operation, other);
      ConfigurationAfter(o, operation, other);
    }
  }

  /** Only a write changes a configuration, and only its own target's. */
  lemma ConfigurationAfter(cs: ControllerState, operation: Operation, target: string)
    requires ValidState(cs)
    ensures var after := Perform(cs, operation).1;
            && after.topology == cs.topology && after.seed == cs.seed && after.revision == cs.revision
            && (operation.action.Judge? || TargetOf(operation.subject) != target ==>
                  SameConfiguration(after.faults, cs.faults, target))
            && (!operation.action.Judge? && TargetOf(operation.subject) == target ==>
                  FaultEngineModel.Configuration(after.faults, target)
                  == Written(cs.topology, operation, FaultEngineModel.Configuration(cs.faults, target)))
  {
    hide PortTarget, LinkTarget, IsPort, IsLink, LinkLatency, FaultEngineModel.Judge;
    if operation.action.Judge? && TargetOf(operation.subject) in cs.faults {
      JudgeKeepsConfiguration(cs.faults[TargetOf(operation.subject)], operation.action.frameBytes,
                              operation.action.arrival);
    }
  }

  /** What a write leaves: the new configuration or none if its subject exists, else what was there. */
  function Written(topology: Option<Topology>, operation: Operation, before: Option<FaultConfiguration>)
    : Option<FaultConfiguration>
    requires !operation.action.Judge?
  {
    var known := match operation.subject
      case Port(port) => IsPort(topology, port)
      case LinkBetween(a, b) => IsLink(topology, a, b);
    if !known then before
    else if operation.action.Clear? then None
    else if ValidConfiguration(operation.action.configuration) then Some(operation.action.configuration)
    else before
  }

  lemma {:induction false} RunTransparent(config: EnforcerConfig, s: Enforced, events: seq<Event>)
    requires ValidState(s.cs) && s.leases == map[] && Undisturbed(config, s, events)
    ensures Transparent(Run(config, s, events), OperatorRun(s.cs, events))
    decreases |events|
  {
    hide Perform, ApplyOne, ReleaseOne, WritesLeased, PortTarget;
    if events != [] {
      var front, last := events[..|events| - 1], events[|events| - 1];
      assert forall i | 0 <= i < |front| :: front[..i] == events[..i];
      RunTransparent(config, s, front);
      var now, o := Run(config, s, front), OperatorRun(s.cs, front);
      assert !WritesLeased(now, last);
      match last
      case Decision(decision, at) => DecisionTransparent(config, now, o, decision, at);
      case Release(port) => ReleaseTransparent(now, o, port);
      case Operate(operation) => OperationTransparent(now, o, operation);
      case Reload(_) =>
    }
  }

  // ---- what it means for an operator ----

  /** At every point of every run without operator writes on leased ports: a port without a lease has the
      operator's configuration. A leased one has it with one field changed: the bandwidth is the lease's rate, or the
      blackhole is on, or the isolation is; the other six are the operator's. */
  lemma EveryPortAccountedFor(config: EnforcerConfig, s: Enforced, events: seq<Event>, port: string)
    requires ValidState(s.cs) && s.leases == map[] && Undisturbed(config, s, events)
    ensures var now, o := Run(config, s, events), OperatorRun(s.cs, events);
            && (port !in now.leases ==> PortFault(now.cs, port) == PortFault(o, port))
            && (port in now.leases ==>
                  && PortFault(now.cs, port).Some?
                  && var kind, on := now.leases[port].action.kind, PortFault(now.cs, port).value;
                  var base := PortFault(o, port).Or(FaultConfiguration(0, 0, 0, 0, 0, false, false));
                  && kind != Unenforced
                  && on.latency == base.latency && on.jitter == base.jitter
                  && on.loss == base.loss && on.duplication == base.duplication
                  && on.bandwidth == (if kind == Limited then now.leases[port].action.rateBits else base.bandwidth)
                  && (on.blackhole <==> kind == Blackholed || base.blackhole)
                  && (on.isolated <==> kind == Isolated || base.isolated))
  {
    hide Run, OperatorRun, PortTarget, IsPort;
    RunTransparent(config, s, events);
    var now, o := Run(config, s, events), OperatorRun(s.cs, events);
    if port in now.leases {
      assert Covers(now, o, port);
    } else {
      NotLeased(now, port);
      assert SameConfiguration(now.cs.faults, o.faults, PortTarget(port));
    }
  }

  /** Links are never touched. */
  lemma EveryLinkUntouched(config: EnforcerConfig, s: Enforced, events: seq<Event>, a: string, b: string)
    requires ValidState(s.cs) && s.leases == map[] && Undisturbed(config, s, events)
    ensures LinkFault(Run(config, s, events).cs, a, b) == LinkFault(OperatorRun(s.cs, events), a, b)
  {
    hide Run, OperatorRun, PortTarget, LinkTarget, IsLink;
    RunTransparent(config, s, events);
    var now, o := Run(config, s, events), OperatorRun(s.cs, events);
    forall port | port in now.leases
      ensures PortTarget(port) != LinkTarget(a, b)
    {
      PortIsNoLink(port, a, b);
    }
    assert SameConfiguration(now.cs.faults, o.faults, LinkTarget(a, b));
  }

  /** No decision is ever rejected by the controller: a lease can always be installed. */
  lemma NeverRejectedByController(config: EnforcerConfig, s: Enforced, events: seq<Event>, decision: PolicyDecision,
                                  now: int)
    requires ValidState(s.cs) && s.leases == map[] && Undisturbed(config, s, events)
    requires Applicable(config, Run(config, s, events).cs, decision)
    ensures ApplyOne(config, Run(config, s, events), decision, now).0.outcome in {Applied, Extended}
  {
    hide Run, OperatorRun, RateLimitBits, PortTarget, IsPort, PortIdAt;
    RunTransparent(config, s, events);
    var at, o := Run(config, s, events), OperatorRun(s.cs, events);
    PortAtIsPort(at.cs, decision.anomaly.key.ingressPort);
    var port := PortIdAt(at.cs, decision.anomaly.key.ingressPort).value;
    if port in at.leases {
      assert Covers(at, o, port);
    }
  }

  /** A write to a leased port is what the theorem must exclude: after the release the port has what the
      lease remembered, so the write survives exactly when it wrote that. */
  lemma OperatorWriteLost(s: Enforced, port: string, action: Action)
    requires ValidState(s.cs) && port in s.leases && !action.Judge?
    requires IsPort(s.cs.topology, port) && s.leases[port].action.portId == port
    requires ValidConfiguration(s.leases[port].restore)
    requires action.Set? ==> ValidConfiguration(action.configuration)
    ensures var written := s.(cs := Perform(s.cs, Operation(Port(port), action)).1);
            var released := ReleaseOne(written, port);
            var remembered := if s.leases[port].hadRestore then Some(s.leases[port].restore) else None;
            && PortFault(released.cs, port) == remembered
            && (PortFault(released.cs, port) == PortFault(written.cs, port) <==>
                remembered == if action.Set? then Some(action.configuration) else None)
  {
    hide PortTarget, IsPort;
  }

  /** Loading a topology throws every fault away, so the leases must be forgotten with it: a load that keeps
      leases leaves ports their leases no longer describe. */
  lemma ReloadMustForget(s: Enforced, o: ControllerState, topology: Topology)
    requires Transparent(s, o)
    ensures Transparent(Enforced(s.leases, Loaded(s.cs, topology)), Loaded(o, topology)) <==> s.leases == map[]
  {
    hide Overlay, IsPort;
    var kept, reloaded := Enforced(s.leases, Loaded(s.cs, topology)), Loaded(o, topology);
    if s.leases != map[] {
      var port :| port in s.leases;
      NothingCovered(kept, reloaded, port);
    }
  }

  lemma NothingCovered(s: Enforced, o: ControllerState, port: string)
    requires port in s.leases && s.cs.faults == map[]
    ensures !Covers(s, o, port)
  {
  }
}
