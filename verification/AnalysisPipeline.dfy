/** The closed loop of src/analysis_pipeline.cpp: detect, decide, release, enforce, on one clock. */
module AnalysisPipelineModel {
  import opened Arith
  import opened Words
  import opened Results
  import opened Packets
  import opened Sorting
  import opened DetectorWindow
  import opened Detector
  import opened PolicyEngineModel
  import opened PolicyEnforcerModel
  import opened TopologyModel
  import opened TopologyControllerModel
  import opened Enforcement
  import EnforcementHistory
  import DetectorRuns

  datatype AnalysisOutcome = AnalysisOutcome(
    anomalies: seq<AnomalyEvent>,
    decisions: seq<PolicyDecision>,
    released: seq<EnforcementAction>,
    enforced: seq<EnforcementAction>,
    timestamp: u64)

  // ---- an evaluation as a run of enforcement events ----

  function Releases(order: seq<string>): (events: seq<Event>)
    ensures |events| == |order| && forall i | 0 <= i < |order| :: events[i] == Release(order[i])
  {
    seq(|order|, i requires 0 <= i < |order| => Release(order[i]))
  }

  function Decisions(decisions: seq<PolicyDecision>, now: int): (events: seq<Event>)
    ensures |events| == |decisions| && forall i | 0 <= i < |decisions| :: events[i] == Decision(decisions[i], now)
  {
    seq(|decisions|, i requires 0 <= i < |decisions| => Decision(decisions[i], now))
  }

  lemma {:induction false} RunConcat(config: EnforcerConfig, s: Enforced, a: seq<Event>, b: seq<Event>)
    requires ValidState(s.cs)
    ensures Run(config, s, a + b) == Run(config, Run(config, s, a), b)
    decreases |b|
  {
    hide Step;
    if b == [] {
      assert a + b == a;
    } else {
      RunConcat(config, s, a, b[..|b| - 1]);
      assert (a + b)[..|a + b| - 1] == a + b[..|b| - 1];
    }
  }

  lemma {:induction false} ReleasesRun(config: EnforcerConfig, s: Enforced, order: seq<string>)
    requires ValidState(s.cs)
    ensures Run(config, s, Releases(order)) == ReleaseEach(s, order)
    decreases |order|
  {
    hide ReleaseOne, ApplyOne;
    if order != [] {
      ReleasesRun(config, s, order[..|order| - 1]);
      assert Releases(order)[..|order| - 1] == Releases(order[..|order| - 1]);
    }
  }

  lemma {:induction false} DecisionsRun(config: EnforcerConfig, s: Enforced, decisions: seq<PolicyDecision>, now: int)
    requires ValidState(s.cs)
    ensures Run(config, s, Decisions(decisions, now)) == ApplyAll(config, s, decisions, now).1
    decreases |decisions|
  {
    hide ReleaseOne, ApplyOne;
    if decisions != [] {
      DecisionsRun(config, s, decisions[..|decisions| - 1], now);
      assert Decisions(decisions, now)[..|decisions| - 1] == Decisions(decisions[..|decisions| - 1], now);
    }
  }

  /** What an evaluation with a controller does to the leases: the expired ones are given back in some
      order, then each decision is enforced. */
  function Evaluation(order: seq<string>, decisions: seq<PolicyDecision>, now: int): seq<Event> {
    Releases(order) + Decisions(decisions, now)
  }

  lemma EvaluationIsRun(config: EnforcerConfig, s: Enforced, order: seq<string>, decisions: seq<PolicyDecision>,
                        now: int)
    requires ValidState(s.cs)
    ensures ApplyAll(config, ReleaseEach(s, order), decisions, now).1
            == Run(config, s, Evaluation(order, decisions, now))
  {
    hide Run, ApplyAll, ReleaseEach;
    ReleasesRun(config, s, order);
    RunConcat(config, s, Releases(order), Decisions(decisions, now));
    DecisionsRun(config, Run(config, s, Releases(order)), decisions, now);
  }

  /** Right after an evaluation no held lease has expired, when leases last any time at all. */
  lemma EvaluationLeavesUnexpired(config: EnforcerConfig, s: Enforced, order: seq<string>,
                                  decisions: seq<PolicyDecision>, now: int)
    requires EnforcementHistory.Sound(s) && EnforcementHistory.PositiveLeases(config)
    requires Visits(order, Expired(s.leases, now))
    ensures EnforcementHistory.Unexpired(Run(config, s, Evaluation(order, decisions, now)).leases, now)
  {
    hide Run, ApplyAll, ReleaseEach;
    EvaluationIsRun(config, s, order, decisions, now);
    EnforcementHistory.ReleasedAt(s, order);
    EnforcementHistory.ApplyLeavesUnexpired(config, ReleaseEach(s, order), decisions, now);
  }

  /** A decision in the evaluation that ends a lease finds the operator's configuration restored: whatever
      it enforces is laid over that, not over the old overlay. */
  lemma ReenforcedFromBaseline(config: EnforcerConfig, s: Enforced, o: ControllerState, order: seq<string>,
                               decision: PolicyDecision, now: int, port: string)
    requires EnforcementHistory.Sound(s) && Transparent(s, o)
    requires Visits(order, Expired(s.leases, now)) && port in Expired(s.leases, now)
    requires EnforcementHistory.Hits(config, s, Decision(decision, now)) == Some(port)
    ensures var next := Run(config, s, Evaluation(order, [decision], now));
            && port in next.leases
            && next.leases[port].restore == PortFault(o, port).Or(FaultEngineModel.NO_FAULT)
            && next.leases[port].action.outcome == Applied
  {
    hide Run, ReleaseEach, ApplyOne, RateLimitBits, IsPort, PortIdAt, Transparent, Targets.PortTarget, Effective;
    EvaluationIsRun(config, s, order, [decision], now);
    var released := ReleaseEach(s, order);
    EnforcementHistory.ReleasedAt(s, order);
    ReleasesTransparent(config, s, o, order);
    assert ApplyAll(config, released, [decision], now).1 == ApplyOne(config, released, decision, now).1 by {
      assert [decision][..0] == [];
    }
    EnforcementHistory.SameHits(config, released, s, Decision(decision, now));
    EnforcementHistory.AlwaysEnforced(config, released, decision, now);
    RestoredAt(released, o, port);
  }

  lemma RestoredAt(s: Enforced, o: ControllerState, port: string)
    requires Transparent(s, o) && port !in s.leases
    ensures PortFault(s.cs, port) == PortFault(o, port)
  {
    hide IsPort, Targets.PortTarget;
    NotLeased(s, port);
    assert SameConfiguration(s.cs.faults, o.faults, Targets.PortTarget(port));
  }

  lemma {:induction false} ReleasesTransparent(config: EnforcerConfig, s: Enforced, o: ControllerState,
                                               order: seq<string>)
    requires Transparent(s, o)
    ensures Transparent(ReleaseEach(s, order), o)
    decreases |order|
  {
    hide ReleaseOne, Transparent;
    if order != [] {
      ReleasesTransparent(config, s, o, order[..|order| - 1]);
      ReleaseTransparent(ReleaseEach(s, order[..|order| - 1]), o, order[|order| - 1]);
    }
  }

  // ---- the clock ----

  /** The clock the detector sees: the latest timestamp so far. */
  function Clamp(timestamps: seq<u64>): u64 {
    if timestamps == [] then 0
    else Max(Clamp(timestamps[..|timestamps| - 1]), timestamps[|timestamps| - 1])
  }

  lemma {:induction false} ClampIsLatest(timestamps: seq<u64>)
    ensures forall i | 0 <= i < |timestamps| :: timestamps[i] <= Clamp(timestamps)
    ensures timestamps != [] ==> Clamp(timestamps) in timestamps || Clamp(timestamps) == 0
  {
    if timestamps != [] {
      ClampIsLatest(timestamps[..|timestamps| - 1]);
    }
  }

  lemma {:induction false} ClampMonotone(timestamps: seq<u64>, i: nat, j: nat)
    requires i <= j <= |timestamps|
    ensures Clamp(timestamps[..i]) <= Clamp(timestamps[..j])
    decreases j
  {
    if i < j {
      ClampMonotone(timestamps, i, j - 1);
      assert timestamps[..j][..j - 1] == timestamps[..j - 1];
    }
  }

  /** What the detector is called with when batches arrive with arbitrary timestamps. */
  function Calls(batches: seq<seq<PacketAnalysis>>, timestamps: seq<u64>): (calls: seq<DetectorRuns.Call>)
    requires |batches| == |timestamps|
    ensures |calls| == |batches|
    ensures forall i | 0 <= i < |calls| :: calls[i] == DetectorRuns.Call(batches[i], Clamp(timestamps[..i + 1]))
  {
    seq(|batches|, i requires 0 <= i < |batches| => DetectorRuns.Call(batches[i], Clamp(timestamps[..i + 1])))
  }

  /** Whatever the timestamps, the chain of the detector's steps is one of its runs: each report holds
      exactly the rising edges over the complete history. */
  lemma AnyTimestampsMakeARun(config: DetectorConfig, batches: seq<seq<PacketAnalysis>>, timestamps: seq<u64>,
                              reports: seq<seq<AnomalyEvent>>, states: seq<DetectorRuns.State>, n: nat)
    requires |batches| == |timestamps| == |reports| && |states| == |batches| + 1 && n < |batches|
    requires states[0] == DetectorRuns.State([], {})
    requires forall i | 0 <= i < |batches| ::
               DetectorRuns.Step(config, states[i], Calls(batches, timestamps)[i], reports[i], states[i + 1])
    ensures var calls := Calls(batches, timestamps);
            forall e ::
              e in reports[n] <==>
              && Candidate(DetectorRuns.Window(config, calls, n + 1), config, e)
              && !(n > 0 && exists f :: Candidate(DetectorRuns.Window(config, calls, n), config, f) && f.key == e.key)
  {
    hide DetectorRuns.Step, Candidate, DetectorRuns.Window;
    var calls := Calls(batches, timestamps);
    forall i, j | 0 <= i < j < |calls|
      ensures calls[i].timestamp <= calls[j].timestamp
    {
      ClampMonotone(timestamps, i + 1, j + 1);
    }
    DetectorRuns.ReportsAreEdges(config, calls, reports, states, n);
  }

  class AnalysisPipeline {
    const detector: AnomalyDetector
    const policies: PolicyEngine
    const enforcer: PolicyEnforcer
    var controller: Option<TopologyController>
    var lastTimestamp: u64

    ghost predicate Valid()
      reads this, detector, policies
    {
      && detector.Valid() && policies.Valid()
      && (detector.hasTimestamp ==> detector.lastTimestamp <= lastTimestamp)
    }

    ghost function Held(c: TopologyController): Enforced
      reads this, enforcer, c, c.engine
    {
      Enforced(enforcer.leases, c.State())
    }

    constructor (detectorConfig: DetectorConfig, enforcerConfig: EnforcerConfig)
      requires detectorConfig.window != 0
      ensures Valid() && controller == None && lastTimestamp == 0 && enforcer.leases == map[]
      ensures detector.config == detectorConfig && enforcer.config == enforcerConfig
      ensures fresh(detector) && fresh(policies) && fresh(enforcer)
    {
      detector := new AnomalyDetector(detectorConfig);
      policies := new PolicyEngine();
      enforcer := new PolicyEnforcer(enforcerConfig);
      controller := None;
      lastTimestamp := 0;
    }

    method Attach(c: TopologyController)
      requires Valid()
      modifies this`controller
      ensures Valid() && controller == Some(c)
    {
      controller := Some(c);
    }

    method Detach()
      requires Valid()
      modifies this`controller
      ensures Valid() && controller == None
    {
      controller := None;
    }

    /** One evaluation. The detector never refuses the clamped clock; without a controller nothing is
        enforced, and with one the leases move as `Evaluation` says. */
    method Evaluate(packets: seq<PacketAnalysis>, timestamp: u64, now: int)
      returns (outcome: AnalysisOutcome, ghost order: seq<string>)
      requires Valid() && (controller.Some? ==> controller.value.Valid())
      modifies this`lastTimestamp, detector, policies`hitCounts, enforcer,
               if controller.Some? then {controller.value.engine} else {}
      ensures Valid() && (controller.Some? ==> controller.value.Valid())
      ensures outcome.timestamp == lastTimestamp == Max(old(lastTimestamp), timestamp)
      ensures DetectorRuns.Step(detector.config,
                                DetectorRuns.State(old(detector.observations), old(detector.active)),
                                DetectorRuns.Call(packets, lastTimestamp), outcome.anomalies,
                                DetectorRuns.State(detector.observations, detector.active))
      ensures (outcome.decisions, policies.hitCounts)
           == Decide(policies.rules, old(policies.hitCounts), outcome.anomalies)
      ensures controller.None? ==>
                outcome.released == [] && outcome.enforced == [] && enforcer.leases == old(enforcer.leases)
      ensures controller.Some? ==>
                var before := old(if controller.Some? then Held(controller.value) else Enforced(map[], NOTHING));
                && Visits(order, Expired(before.leases, now))
                && |outcome.released| == |order| && InOrder(outcome.released, PortLess)
                && (forall action :: action in outcome.released <==>
                      exists port :: port in order && action == before.leases[port].action.(outcome := Released))
                && outcome.enforced
                   == ApplyAll(enforcer.config, ReleaseEach(before, order), outcome.decisions, now).0
                && Held(controller.value) == Run(enforcer.config, before, Evaluation(order, outcome.decisions, now))
    {
      hide Decide, ApplyAll, ReleaseEach, Run, Emits, Since, Expired, Visits;
      order := [];
      lastTimestamp := Max(lastTimestamp, timestamp);
      outcome := AnalysisOutcome([], [], [], [], lastTimestamp);
      var anomalies := detector.Evaluate(packets, lastTimestamp);
      outcome := outcome.(anomalies := anomalies.value);
      var decisions := policies.Evaluate(outcome.anomalies);
      outcome := outcome.(decisions := decisions);
      if controller.None? {
        return;
      }
      ghost var before := Held(controller.value);
      var released, walked := enforcer.ReleaseExpired(controller.value, now);
      order := walked;
      var enforced := enforcer.Apply(decisions, controller.value, now);
      outcome := outcome.(released := released, enforced := enforced);
      EvaluationIsRun(enforcer.config, before, order, decisions, now);
    }

    method Release(port: string) returns (found: bool)
      requires Valid() && (controller.Some? ==> controller.value.Valid())
      modifies enforcer, if controller.Some? then {controller.value.engine} else {}
      ensures Valid() && (controller.Some? ==> controller.value.Valid())
      ensures found == (controller.Some? && port in old(enforcer.leases))
      ensures controller.None? ==> enforcer.leases == old(enforcer.leases)
      ensures controller.Some? ==>
                Held(controller.value)
                == ReleaseOne(old(if controller.Some? then Held(controller.value) else Enforced(map[], NOTHING)), port)
    {
      if controller.None? {
        return false;
      }
      found := enforcer.Release(port, controller.value);
    }

    /** Leases are forgotten, not given back. */
    method Reset()
      requires Valid()
      modifies this`lastTimestamp, detector, policies`hitCounts, enforcer
      ensures Valid() && lastTimestamp == 0 && !detector.hasTimestamp
      ensures detector.observations == [] && detector.active == {}
      ensures policies.hitCounts == map[] && enforcer.leases == map[]
    {
      detector.Reset();
      policies.Reset();
      enforcer.Forget();
      lastTimestamp := 0;
    }
  }

  ghost const NOTHING := ControllerState(None, 0, 0, map[])
}
