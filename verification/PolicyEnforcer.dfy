/** Leased enforcement of src/policy_enforcer.cpp: decisions become faults on the offending port, laid over
    the operator's own configuration and taken off again when the lease ends. */
module PolicyEnforcerModel {
  import opened Arith
  import opened Words
  import opened Results
  import opened Text
  import opened Sorting
  import opened Targets
  import opened FaultEngineModel
  import opened TopologyControllerModel
  import opened DetectorWindow
  import opened PolicyEngineModel

  datatype EnforcementKind = Unenforced | Limited | Blackholed | Isolated

  datatype Outcome = Applied | Extended | Released | Skipped | PortUnknown | Rejected

  datatype EnforcementAction = EnforcementAction(
    portId: string,
    ruleName: string,
    anomalyType: AnomalyType,
    action: PolicyAction,
    kind: EnforcementKind,
    outcome: Outcome,
    rateBits: u64,
    observedPackets: nat,
    threshold: u64,
    expiresAt: int)

  datatype Lease = Lease(action: EnforcementAction, restore: FaultConfiguration, hadRestore: bool)

  datatype EnforcerConfig = EnforcerConfig(
    rateLimitLease: i64,
    dropLease: i64,
    quarantineLease: i64,
    assumedFrameBytes: u64)

  /** Ten, five and thirty seconds. */
  const DEFAULT_LEASES := EnforcerConfig(10_000_000_000, 5_000_000_000, 30_000_000_000, 64)

  /** The enforcer's leases beside the controller it writes to. */
  datatype Enforced = Enforced(leases: map<string, Lease>, cs: ControllerState)

  function KindFor(action: PolicyAction): EnforcementKind {
    match action
    case Drop => Blackholed
    case Quarantine => Isolated
    case RateLimit => Limited
    case _ => Unenforced
  }

  function Severity(kind: EnforcementKind): nat {
    match kind
    case Unenforced => 0
    case Limited => 1
    case Blackholed => 2
    case Isolated => 3
  }

  function Overlay(base: FaultConfiguration, kind: EnforcementKind, rateBits: u64): FaultConfiguration {
    match kind
    case Limited => base.(bandwidth := rateBits)
    case Blackholed => base.(blackhole := true)
    case Isolated => base.(isolated := true)
    case Unenforced => base
  }

  /** A packet rate as a bandwidth, by the mean frame size observed. */
  function RateLimitBits(config: EnforcerConfig, decision: PolicyDecision): u64 {
    if decision.rate == 0 then 0
    else
      var event := decision.anomaly;
      var mean := if event.packets == 0 then config.assumedFrameBytes else Quotient(event.bytes, event.packets);
      var frame := if mean == 0 then config.assumedFrameBytes else mean;
      decision.rate * frame * 8 % TWO_64
  }

  function LeaseFor(config: EnforcerConfig, kind: EnforcementKind): i64 {
    match kind
    case Limited => config.rateLimitLease
    case Blackholed => config.dropLease
    case Isolated => config.quarantineLease
    case Unenforced => 0
  }

  // ---- one decision ----

  /** Whether a decision is one the enforcer acts on: it names a known port and an enforceable action. */
  predicate Applicable(config: EnforcerConfig, cs: ControllerState, decision: PolicyDecision) {
    && KindFor(decision.action) != Unenforced
    && PortIdAt(cs, decision.anomaly.key.ingressPort).Some?
    && (KindFor(decision.action) == Limited ==> RateLimitBits(config, decision) != 0)
  }

  /** The kind and rate a lease has after a decision: the decision's own if it is at least as severe. */
  function Effective(config: EnforcerConfig, existing: Option<Lease>, decision: PolicyDecision)
    : (EnforcementKind, u64)
  {
    var kind := KindFor(decision.action);
    var supersedes := existing.None? || Severity(kind) >= Severity(existing.value.action.kind);
    (if supersedes then kind else existing.value.action.kind,
     if supersedes && kind == Limited then RateLimitBits(config, decision)
     else if existing.Some? then existing.value.action.rateBits else 0)
  }

  function Existing(leases: map<string, Lease>, port: string): Option<Lease> {
    if port in leases then Some(leases[port]) else None
  }

  /** What the action reports before its outcome is known. */
  function Report(cs: ControllerState, decision: PolicyDecision): EnforcementAction {
    var port := PortIdAt(cs, decision.anomaly.key.ingressPort);
    EnforcementAction(port.Or(""), decision.ruleName, decision.anomaly.key.kind, decision.action,
                      KindFor(decision.action), Skipped, 0, decision.anomaly.packets, decision.anomaly.threshold, 0)
  }

  function ApplyOne(config: EnforcerConfig, s: Enforced, decision: PolicyDecision, now: int)
    : (EnforcementAction, Enforced)
  {
    var report := Report(s.cs, decision);
    var at := PortIdAt(s.cs, decision.anomaly.key.ingressPort);
    if report.kind == Unenforced then (report, s)
    else if at.None? then (report.(outcome := PortUnknown), s)
    else
      var bits := if report.kind == Limited then RateLimitBits(config, decision) else 0;
      if report.kind == Limited && bits == 0 then (report.(outcome := Rejected), s)
      else Enforce(config, s, report.(rateBits := bits), decision, at.value, now)
  }

  /** Lays the effective kind over the remembered configuration and starts or extends the lease. */
  function Enforce(config: EnforcerConfig, s: Enforced, report: EnforcementAction, decision: PolicyDecision,
                   port: string, now: int): (EnforcementAction, Enforced)
  {
    var existing := Existing(s.leases, port);
    var (kind, rate) := Effective(config, existing, decision);
    var previous := PortFault(s.cs, port);
    var restore := if existing.Some? then existing.value.restore else previous.Or(NO_FAULT);
    var hadRestore := if existing.Some? then existing.value.hadRestore else previous.Some?;
    var (r, cs) := SetPortFault(s.cs, port, Overlay(restore, kind, rate));
    if r.Err? then (report.(outcome := Rejected), s)
    else
      var expires := now + LeaseFor(config, kind);
      var action := report.(
        kind := kind,
        rateBits := rate,
        expiresAt := if existing.Some? then Max(expires, existing.value.action.expiresAt) else expires,
        outcome := if existing.Some? then Extended else Applied);
      (action, Enforced(s.leases[port := Lease(action, restore, hadRestore)], cs))
  }

  function ApplyAll(config: EnforcerConfig, s: Enforced, decisions: seq<PolicyDecision>, now: int)
    : (seq<EnforcementAction>, Enforced)
  {
    if decisions == [] then ([], s)
    else
      var (actions, before) := ApplyAll(config, s, decisions[..|decisions| - 1], now);
      var (action, after) := ApplyOne(config, before, decisions[|decisions| - 1], now);
      (actions + [action], after)
  }

  // ---- release ----

  function RestorePort(lease: Lease, cs: ControllerState): ControllerState {
    if lease.hadRestore then SetPortFault(cs, lease.action.portId, lease.restore).1
    else ClearPortFault(cs, lease.action.portId).1
  }

  /** Giving back one port; nothing if it has no lease. */
  function ReleaseOne(s: Enforced, port: string): Enforced {
    if port in s.leases then Enforced(s.leases - {port}, RestorePort(s.leases[port], s.cs)) else s
  }

  function ReleaseEach(s: Enforced, ports: seq<string>): Enforced {
    if ports == [] then s else ReleaseOne(ReleaseEach(s, ports[..|ports| - 1]), ports[|ports| - 1])
  }

  function Expired(leases: map<string, Lease>, now: int): set<string> {
    set port | port in leases && leases[port].action.expiresAt <= now
  }

  predicate Distinct(ports: seq<string>) {
    forall i, j | 0 <= i < j < |ports| :: ports[i] != ports[j]
  }

  /** An order in which all the expired leases, each once, are visited. */
  ghost predicate Visits(order: seq<string>, ports: set<string>) {
    Distinct(order) && forall port :: port in order <==> port in ports
  }

  predicate PortLess(a: EnforcementAction, b: EnforcementAction) {
    Less(a.portId, b.portId)
  }

  lemma PortLessOrders()
    ensures Orders(PortLess)
  {
    forall a: EnforcementAction, b: EnforcementAction
      ensures PortLess(a, b) ==> !PortLess(b, a)
    {
      LessTotal(a.portId, b.portId);
    }
    forall a: EnforcementAction, b: EnforcementAction, c: EnforcementAction
      ensures PortLess(a, b) && PortLess(b, c) ==> PortLess(a, c)
    {
      if PortLess(a, b) && PortLess(b, c) {
        LessTransitive(a.portId, b.portId, c.portId);
      }
    }
    forall a: EnforcementAction, b: EnforcementAction, c: EnforcementAction
      ensures !PortLess(a, b) && !PortLess(b, c) ==> !PortLess(a, c)
    {
      NotLessTransitive(a.portId, b.portId, c.portId);
    }
  }

  lemma NotLessTransitive(a: string, b: string, c: string)
    ensures !Less(a, b) && !Less(b, c) ==> !Less(a, c)
  {
    LessTotal(a, b);
    LessTotal(b, c);
    LessTotal(a, c);
    if Less(b, a) && Less(c, b) {
      LessTransitive(c, b, a);
    }
  }

  class PolicyEnforcer {
    const config: EnforcerConfig
    var leases: map<string, Lease>

    constructor (config: EnforcerConfig)
      ensures this.config == config && leases == map[]
    {
      this.config := config;
      leases := map[];
    }

    method ApplyDecision(decision: PolicyDecision, controller: TopologyController, now: int)
      returns (result: EnforcementAction)
      requires controller.Valid()
      modifies this, controller.engine
      ensures controller.Valid()
      ensures (result, Enforced(leases, controller.State()))
           == ApplyOne(config, Enforced(old(leases), old(controller.State())), decision, now)
    {
      hide RateLimitBits, Enforce;
      var port := controller.PortAt(decision.anomaly.key.ingressPort);
      result := EnforcementAction(port.Or(""), decision.ruleName, decision.anomaly.key.kind, decision.action,
                                  KindFor(decision.action), Skipped, 0, decision.anomaly.packets,
                                  decision.anomaly.threshold, 0);
      if result.kind == Unenforced {
        return;
      }
      if port.None? {
        return result.(outcome := PortUnknown);
      }
      result := result.(rateBits := if result.kind == Limited then RateLimitBits(config, decision) else 0);
      if result.kind == Limited && result.rateBits == 0 {
        return result.(outcome := Rejected);
      }
      result := EnforceOn(result, decision, port.value, controller, now);
    }

    method EnforceOn(report: EnforcementAction, decision: PolicyDecision, port: string,
                     controller: TopologyController, now: int) returns (result: EnforcementAction)
      requires controller.Valid()
      modifies this, controller.engine
      ensures controller.Valid()
      ensures (result, Enforced(leases, controller.State()))
           == Enforce(config, Enforced(old(leases), old(controller.State())), report, decision, port, now)
    {
      hide Effective, PortTarget, IsPort;
      var existing := Existing(leases, port);
      var (kind, rate) := Effective(config, existing, decision);
      var restore, hadRestore := NO_FAULT, false;
      if existing.Some? {
        restore, hadRestore := existing.value.restore, existing.value.hadRestore;
      } else {
        var previous := controller.CurrentPortFault(port);
        restore, hadRestore := previous.Or(NO_FAULT), previous.Some?;
      }
      var installed := controller.SetPort(port, Overlay(restore, kind, rate));
      if installed.Err? {
        return report.(outcome := Rejected);
      }
      var expires := now + LeaseFor(config, kind);
      if existing.Some? && expires < existing.value.action.expiresAt {
        expires := existing.value.action.expiresAt;
      }
      result := report.(kind := kind, rateBits := rate, expiresAt := expires,
                        outcome := if existing.Some? then Extended else Applied);
      leases := leases[port := Lease(result, restore, hadRestore)];
    }

    method Apply(decisions: seq<PolicyDecision>, controller: TopologyController, now: int)
      returns (results: seq<EnforcementAction>)
      requires controller.Valid()
      modifies this, controller.engine
      ensures controller.Valid()
      ensures (results, Enforced(leases, controller.State()))
           == ApplyAll(config, Enforced(old(leases), old(controller.State())), decisions, now)
    {
      hide ApplyOne;
      results := [];
      for i := 0 to |decisions|
        invariant controller.Valid()
        invariant (results, Enforced(leases, controller.State()))
               == ApplyAll(config, Enforced(old(leases), old(controller.State())), decisions[..i], now)
      {
        assert decisions[..i + 1][..i] == decisions[..i];
        var result := ApplyDecision(decisions[i], controller, now);
        results := results + [result];
      }
      assert decisions[..|decisions|] == decisions;
    }

    method Restore(lease: Lease, controller: TopologyController)
      requires controller.Valid()
      modifies controller.engine
      ensures controller.Valid() && controller.State() == RestorePort(lease, old(controller.State()))
    {
      if lease.hadRestore {
        var _ := controller.SetPort(lease.action.portId, lease.restore);
        return;
      }
      var _ := controller.ClearPort(lease.action.portId);
    }

    /** Gives back every lease that is over, in whatever order the table is walked. */
    method ReleaseExpired(controller: TopologyController, now: int)
      returns (released: seq<EnforcementAction>, ghost order: seq<string>)
      requires controller.Valid()
      modifies this, controller.engine
      ensures controller.Valid()
      ensures Visits(order, Expired(old(leases), now))
      ensures Enforced(leases, controller.State())
           == ReleaseEach(Enforced(old(leases), old(controller.State())), order)
      ensures leases == old(leases) - Expired(old(leases), now)
      ensures InOrder(released, PortLess) && |released| == |order|
      ensures forall action :: action in released <==>
                exists port :: port in order && action == old(leases)[port].action.(outcome := Released)
    {
      hide RestorePort, Less;
      var actions: seq<EnforcementAction> := [];
      order := [];
      ghost var before := Enforced(leases, controller.State());
      var todo := Expired(leases, now);
      ghost var all := todo;
      while todo != {}
        invariant controller.Valid() && todo <= all
        invariant Visits(order, all - todo)
        invariant Enforced(leases, controller.State()) == ReleaseEach(before, order)
        invariant leases == before.leases - (all - todo)
        invariant |actions| == |order|
        invariant forall i | 0 <= i < |order| ::
                    order[i] in before.leases
                    && actions[i] == before.leases[order[i]].action.(outcome := Released)
      {
        var port :| port in todo;
        Restore(leases[port], controller);
        actions := actions + [leases[port].action.(outcome := Released)];
        assert (order + [port])[..|order|] == order;
        order := order + [port];
        leases := leases - {port};
        todo := todo - {port};
      }
      assert all - todo == all;
      PortLessOrders();
      released := Sort(actions, PortLess);
      forall action
        ensures action in released <==> action in actions
      {
        SameElements(released, actions, action);
      }
      assert forall i | 0 <= i < |order| :: order[i] in order && actions[i] in actions;
    }

    method Release(port: string, controller: TopologyController) returns (found: bool)
      requires controller.Valid()
      modifies this, controller.engine
      ensures controller.Valid() && found == (port in old(leases))
      ensures Enforced(leases, controller.State()) == ReleaseOne(Enforced(old(leases), old(controller.State())), port)
    {
      if port !in leases {
        return false;
      }
      Restore(leases[port], controller);
      leases := leases - {port};
      return true;
    }

    /** Drops the leases without touching the controller. */
    method Forget()
      modifies this
      ensures leases == map[]
    {
      leases := map[];
    }
  }
}
