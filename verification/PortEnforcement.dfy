/** What a decision means for the port it names, action by action, and what a rate limit does to its traffic. */
module PortEnforcement {
  import opened Arith
  import opened Durations
  import opened Words
  import opened Results
  import opened Targets
  import opened FaultEngineModel
  import opened TopologyModel
  import opened TopologyControllerModel
  import opened PolicyEngineModel
  import opened PolicyEnforcerModel
  import opened Enforcement
  import EnforcementHistory
  import opened Shaper

  /** The limit in bits a second: the packet rate times the mean size of the packets seen, which is the assumed size
      if none was seen or they are smaller than a byte on the mean. */
  lemma RateExactly(config: EnforcerConfig, decision: PolicyDecision, mean: nat, rest: nat)
    requires decision.anomaly.packets > 0 ==>
               decision.anomaly.bytes == mean * decision.anomaly.packets + rest && rest < decision.anomaly.packets
    ensures var size := if decision.anomaly.packets == 0 || mean == 0 then config.assumedFrameBytes else mean;
            RateLimitBits(config, decision) == decision.rate * size * 8 % 0x1_0000_0000_0000_0000
  {
    if decision.anomaly.packets > 0 {
      QuotientUnique(decision.anomaly.bytes, decision.anomaly.packets, mean, rest);
    }
    if decision.rate == 0 {
      assert forall size: nat :: 0 * size == 0;
    }
  }

  /** What becomes of every decision, in the order of its checks. */
  lemma DecidedExactly(config: EnforcerConfig, s: Enforced, decision: PolicyDecision, now: int)
    requires EnforcementHistory.Sound(s)
    ensures var (report, next) := ApplyOne(config, s, decision, now);
            var port := PortIdAt(s.cs, decision.anomaly.key.ingressPort);
            && (report.outcome == Skipped <==> decision.action in {Allow, Mirror, AlertOnly})
            && (report.outcome == PortUnknown <==> decision.action in {Drop, RateLimit, Quarantine} && port == None)
            && (report.outcome == Rejected <==>
                  decision.action == RateLimit && port != None && RateLimitBits(config, decision) == 0)
            && (report.outcome == Extended ==> port.Some? && port.value in s.leases)
            && (report.outcome == Applied ==> port.Some? && port.value !in s.leases)
            && report.outcome != Released
            && (report.outcome in {Skipped, PortUnknown, Rejected} ==> next == s)
            && report.portId == port.Or("") && report.ruleName == decision.ruleName
            && report.anomalyType == decision.anomaly.key.kind && report.action == decision.action
            && report.observedPackets == decision.anomaly.packets && report.threshold == decision.anomaly.threshold
  {
    hide RateLimitBits, IsPort, PortIdAt, PortTarget, Effective, Overlay;
    if Applicable(config, s.cs, decision) {
      EnforcementHistory.AlwaysEnforced(config, s, decision, now);
    }
  }

  /** A decision on a port without a lease: its action turns on one thing, for that action's lease from now. */
  lemma FirstDecision(config: EnforcerConfig, s: Enforced, decision: PolicyDecision, now: int, port: string)
    requires EnforcementHistory.Sound(s) && port !in s.leases
    requires EnforcementHistory.Hits(config, s, Decision(decision, now)) == Some(port)
    ensures var next := Step(config, s, Decision(decision, now));
            && port in next.leases
            && var base := PortFault(s.cs, port).Or(FaultConfiguration(0, 0, 0, 0, 0, false, false));
            var lease := next.leases[port];
            var change := match decision.action
              case Drop => base.(blackhole := true)
              case Quarantine => base.(isolated := true)
              case _ => base.(bandwidth := RateLimitBits(config, decision));
            && decision.action in {Drop, Quarantine, RateLimit}
            && PortFault(next.cs, port) == Some(change)
            && lease.hadRestore == PortFault(s.cs, port).Some? && lease.restore == base
            && lease.action.expiresAt == now + match decision.action
              case Drop => config.dropLease
              case Quarantine => config.quarantineLease
              case _ => config.rateLimitLease
  {
    hide RateLimitBits, IsPort, PortIdAt, PortTarget;
    EnforcementHistory.AlwaysEnforced(config, s, decision, now);
  }

  /** A decision on a leased port: quarantine over drop over rate limit, a new rate only from a rate limit on a
      limited port, the later of the two ends, and the operator's configuration still remembered. */
  lemma NextDecision(config: EnforcerConfig, s: Enforced, decision: PolicyDecision, now: int, port: string)
    requires EnforcementHistory.Sound(s) && port in s.leases
    requires EnforcementHistory.Hits(config, s, Decision(decision, now)) == Some(port)
    ensures var next := Step(config, s, Decision(decision, now));
            && port in next.leases
            && var was, becomes := s.leases[port].action, next.leases[port].action;
            var base := s.leases[port].restore;
            && (becomes.kind == Isolated <==> was.kind == Isolated || decision.action == Quarantine)
            && (becomes.kind == Limited <==> was.kind == Limited && decision.action == RateLimit)
            && becomes.kind != Unenforced
            && becomes.rateBits == (if becomes.kind == Limited then RateLimitBits(config, decision) else was.rateBits)
            && becomes.expiresAt
               == Max(was.expiresAt,
                      now + if becomes.kind == Isolated then config.quarantineLease
                            else if becomes.kind == Limited then config.rateLimitLease else config.dropLease)
            && next.leases[port].restore == base && next.leases[port].hadRestore == s.leases[port].hadRestore
            && PortFault(next.cs, port)
               == Some(if becomes.kind == Isolated then base.(isolated := true)
                       else if becomes.kind == Limited then base.(bandwidth := becomes.rateBits)
                       else base.(blackhole := true))
  {
    hide RateLimitBits, IsPort, PortIdAt, PortTarget;
    EnforcementHistory.AlwaysEnforced(config, s, decision, now);
    assert EnforcementHistory.SoundLease(s, port);
  }

  /** A lease is over exactly from its end on, and nothing is given back before. */
  lemma OverExactly(s: Enforced, now: int, order: seq<string>, port: string)
    requires EnforcementHistory.Sound(s) && Visits(order, Expired(s.leases, now)) && port in s.leases
    ensures port in ReleaseEach(s, order).leases <==> now < s.leases[port].action.expiresAt
  {
    hide ReleaseEach;
    EnforcementHistory.ReleasedAt(s, order);
  }

  // ---- what a limited port may send ----

  /** A limited port's rate is the one its last decision asked for, a rate limit. */
  lemma {:induction false} LimitedByLast(config: EnforcerConfig, s: Enforced, events: seq<Event>, port: string)
    returns (i: nat)
    requires EnforcementHistory.Sound(s) && s.leases == map[]
    requires port in Run(config, s, events).leases && Run(config, s, events).leases[port].action.kind == Limited
    ensures i < |events| && EnforcementHistory.Hits(config, Run(config, s, events[..i]), events[i]) == Some(port)
    ensures events[i].decision.action == RateLimit
    ensures Run(config, s, events).leases[port].action.rateBits == RateLimitBits(config, events[i].decision) != 0
    ensures forall j | i < j < |events| ::
              EnforcementHistory.Hits(config, Run(config, s, events[..j]), events[j]) != Some(port)
    decreases |events|
  {
    hide Step, RateLimitBits, EnforcementHistory.Sound, EnforcementHistory.Hits;
    i := |events| - 1;
    var front, last := events[..i], events[i];
    var before := Run(config, s, front);
    EnforcementHistory.RunSound(config, s, front);
    if EnforcementHistory.Hits(config, before, last) == Some(port) {
      RateOfStep(config, before, last, port);
    } else {
      EnforcementHistory.StepOnPort(config, before, last, port);
      i := LimitedByLast(config, s, front, port);
      assert forall j | 0 <= j <= |front| :: front[..j] == events[..j];
    }
  }

  lemma RateOfStep(config: EnforcerConfig, s: Enforced, e: Event, port: string)
    requires EnforcementHistory.Sound(s) && EnforcementHistory.Hits(config, s, e) == Some(port)
    requires port in Step(config, s, e).leases && Step(config, s, e).leases[port].action.kind == Limited
    ensures e.decision.action == RateLimit
    ensures Step(config, s, e).leases[port].action.rateBits == RateLimitBits(config, e.decision) != 0
  {
    hide RateLimitBits, PortIdAt, Step;
    if port in s.leases {
      NextDecision(config, s, e.decision, e.now, port);
    } else {
      FirstLimited(config, s, e, port);
    }
  }

  lemma FirstLimited(config: EnforcerConfig, s: Enforced, e: Event, port: string)
    requires EnforcementHistory.Sound(s) && EnforcementHistory.Hits(config, s, e) == Some(port) && port !in s.leases
    requires port in Step(config, s, e).leases && Step(config, s, e).leases[port].action.kind == Limited
    ensures e.decision.action == RateLimit
    ensures Step(config, s, e).leases[port].action.rateBits == RateLimitBits(config, e.decision)
  {
    hide RateLimitBits, IsPort, PortIdAt, PortTarget;
    EnforcementHistory.AlwaysEnforced(config, s, e.decision, e.now);
  }

  lemma {:induction false} SentSizes(state: FaultState, arrivals: seq<Arrival>, bound: nat, k: nat)
    requires ValidConfiguration(state.configuration) && k < |Sent(state, arrivals)|
    requires forall i | 0 <= i < |arrivals| :: arrivals[i].frameBytes <= bound
    ensures Sent(state, arrivals)[k].frameBytes <= bound
    decreases |arrivals|
  {
    hide TransmissionTime, Judge;
    JudgeExactly(state, arrivals[0].frameBytes, arrivals[0].at);
    var (decision, next) := Judge(state, arrivals[0].frameBytes, arrivals[0].at);
    if k >= |decision.deliveries| {
      SentSizes(next, arrivals[1..], bound, k - |decision.deliveries|);
    }
  }

  /** What a rate limit is for: in every undisturbed run, the frames sent through a limited port leave in order, and
      between any two the line carries no more bits than the lease's rate allows, whatever the operator had there. */
  lemma LimitedPortKeepsRate(config: EnforcerConfig, s: Enforced, events: seq<Event>, port: string,
                             arrivals: seq<Arrival>, i: nat, j: nat)
    requires EnforcementHistory.Sound(s) && s.leases == map[] && Undisturbed(config, s, events)
    requires port in Run(config, s, events).leases && Run(config, s, events).leases[port].action.kind == Limited
    requires forall k | 0 <= k < |arrivals| :: arrivals[k].frameBytes <= 0xffff
    requires Run(config, s, events).leases[port].action.rateBits <= 0x8000_0000_0000_0000
    ensures var now := Run(config, s, events);
            && PortTarget(port) in now.cs.faults && ValidConfiguration(now.cs.faults[PortTarget(port)].configuration)
            && var sent := Sent(now.cs.faults[PortTarget(port)], arrivals);
            i <= j < |sent| ==>
              && sent[i].at <= sent[j].at
              && Bits(sent[i..j]) * 1_000_000_000
                 <= now.leases[port].action.rateBits * (sent[j].at - sent[i].at)
  {
    hide Run, Sent, PortTarget, IsPort, Undisturbed, EnforcementHistory.Sound, TransmissionTime, Timed, RateLimitBits;
    var last := LimitedByLast(config, s, events, port);
    EveryPortAccountedFor(config, s, events, port);
    var now := Run(config, s, events);
    var state, rate := now.cs.faults[PortTarget(port)], now.leases[port].action.rateBits;
    if i <= j < |Sent(state, arrivals)| {
      forall k | i <= k < j
        ensures Timed(Sent(state, arrivals)[k].frameBytes, rate)
      {
        SentSizes(state, arrivals, 0xffff, k);
        FramesAreExact(Sent(state, arrivals)[k].frameBytes, rate);
      }
      NeverFasterThanRate(state, arrivals, i, j);
    }
  }
}
