/** What a lease says about the past: its kind is the strongest action asked for since it began, in whatever
    order the decisions came; it only gets stronger and longer; it starts and ends in turn. */
module EnforcementHistory {
  import opened Arith
  import opened Words
  import opened Results
  import opened Targets
  import opened FaultEngineModel
  import opened TopologyModel
  import opened TopologyControllerModel
  import opened PolicyEngineModel
  import opened PolicyEnforcerModel
  import opened Isolation
  import opened Enforcement

  /** Every lease is on a port of the loaded topology and remembers a valid configuration. */
  ghost predicate Sound(s: Enforced)
    ensures Sound(s) ==> ValidState(s.cs)
  {
    && ValidState(s.cs)
    && forall port | port in s.leases :: SoundLease(s, port)
  }

  predicate SoundLease(s: Enforced, port: string)
    requires port in s.leases
  {
    && IsPort(s.cs.topology, port)
    && ValidConfiguration(s.leases[port].restore)
    && s.leases[port].action.portId == port
    && s.leases[port].action.kind != Unenforced
  }

  /** The port a decision is enforced on, if it is. */
  function Hits(config: EnforcerConfig, s: Enforced, e: Event): (port: Option<string>)
    ensures port.Some? ==> e.Decision?
  {
    if e.Decision? && Applicable(config, s.cs, e.decision)
    then PortIdAt(s.cs, e.decision.anomaly.key.ingressPort) else None
  }

  /** An applicable decision always takes effect. */
  lemma AlwaysEnforced(config: EnforcerConfig, s: Enforced, decision: PolicyDecision, now: int)
    requires Sound(s) && Applicable(config, s.cs, decision)
    ensures PortIdAt(s.cs, decision.anomaly.key.ingressPort).Some?
    ensures var port := PortIdAt(s.cs, decision.anomaly.key.ingressPort).value;
            var (action, next) := ApplyOne(config, s, decision, now);
            && IsPort(s.cs.topology, port)
            && (forall other :: other in next.leases <==> other in s.leases || other == port)
            && (forall other | other in s.leases && other != port :: next.leases[other] == s.leases[other])
            && next.leases[port].action == action
            && action.portId == port
            && action.outcome == (if port in s.leases then Extended else Applied)
            && next.leases[port].restore
               == (if port in s.leases then s.leases[port].restore else PortFault(s.cs, port).Or(NO_FAULT))
            && (action.kind, action.rateBits) == Effective(config, Existing(s.leases, port), decision)
            && action.expiresAt >= now + LeaseFor(config, action.kind)
            && (port in s.leases ==> action.expiresAt >= s.leases[port].action.expiresAt)
            && next.cs.topology == s.cs.topology
  {
    hide RateLimitBits, IsPort, PortIdAt, PortTarget, Effective;
    PortAtIsPort(s.cs, decision.anomaly.key.ingressPort);
    var port := PortIdAt(s.cs, decision.anomaly.key.ingressPort).value;
    var existing := Existing(s.leases, port);
    var (kind, rate) := Effective(config, existing, decision);
    if port in s.leases {
      assert SoundLease(s, port);
    }
    OverlayValid(PortFault(s.cs, port).Or(NO_FAULT), kind, rate);
  }

  /** A decision that is not applicable changes nothing. */
  lemma Ignored(config: EnforcerConfig, s: Enforced, decision: PolicyDecision, now: int)
    requires !Applicable(config, s.cs, decision)
    ensures ApplyOne(config, s, decision, now).1 == s
    ensures ApplyOne(config, s, decision, now).0.outcome in {Skipped, PortUnknown, Rejected}
  {
    hide RateLimitBits, IsPort, PortIdAt, Effective;
  }

  lemma StepSound(config: EnforcerConfig, s: Enforced, e: Event)
    requires Sound(s)
    ensures Sound(Step(config, s, e))
  {
    hide RateLimitBits, IsPort, PortIdAt, PortTarget, ApplyOne, Perform, Applicable;
    var next := Step(config, s, e);
    match e
    case Decision(decision, now) =>
      if Applicable(config, s.cs, decision) {
        DecisionSound(config, s, decision, now);
      } else {
        Ignored(config, s, decision, now);
      }
    case Release(port) =>
      forall other | other in next.leases
        ensures SoundLease(next, other)
      {
        assert SoundLease(s, other);
      }
    case Operate(operation) =>
      ConfigurationAfter(s.cs, operation, "");
      forall other | other in next.leases
        ensures SoundLease(next, other)
      {
        assert SoundLease(s, other);
      }
    case Reload(_) =>
  }

  lemma DecisionSound(config: EnforcerConfig, s: Enforced, decision: PolicyDecision, now: int)
    requires Sound(s) && Applicable(config, s.cs, decision)
    ensures Sound(ApplyOne(config, s, decision, now).1)
  {
    hide RateLimitBits, IsPort, PortIdAt, PortTarget, ApplyOne;
    AlwaysEnforced(config, s, decision, now);
    ApplyKeepsValid(config, s, decision, now);
    var next := ApplyOne(config, s, decision, now).1;
    var port := PortIdAt(s.cs, decision.anomaly.key.ingressPort).value;
    forall other | other in next.leases
      ensures SoundLease(next, other)
    {
      if other in s.leases {
        assert SoundLease(s, other);
      } else if PortFault(s.cs, port).Some? {
        assert PortTarget(port) in s.cs.faults;
      }
    }
  }

  lemma {:induction false} RunSound(config: EnforcerConfig, s: Enforced, events: seq<Event>)
    requires Sound(s)
    ensures Sound(Run(config, s, events))
    decreases |events|
  {
    hide Step, Sound;
    if events != [] {
      RunSound(config, s, events[..|events| - 1]);
      StepSound(config, Run(config, s, events[..|events| - 1]), events[|events| - 1]);
    }
  }

  // ---- the strongest wins ----

  /** What was asked for on a port since its lease began. */
  function Asked(config: EnforcerConfig, s: Enforced, events: seq<Event>, port: string): seq<EnforcementKind>
    requires ValidState(s.cs)
    decreases |events|
  {
    if events == [] || port !in Run(config, s, events).leases then []
    else
      var front, last := events[..|events| - 1], events[|events| - 1];
      Asked(config, s, front, port)
      + if Hits(config, Run(config, s, front), last) == Some(port) then [KindFor(last.decision.action)] else []
  }

  predicate IsStrongest(kind: EnforcementKind, asked: seq<EnforcementKind>) {
    kind in asked && forall i | 0 <= i < |asked| :: Severity(asked[i]) <= Severity(kind)
  }

  /** There is one strongest kind, whatever the order and the repetitions. */
  lemma StrongestIsUnique(a: EnforcementKind, xs: seq<EnforcementKind>, b: EnforcementKind, ys: seq<EnforcementKind>)
    requires IsStrongest(a, xs) && IsStrongest(b, ys)
    requires forall kind :: kind in xs <==> kind in ys
    ensures a == b
  {
    assert a in ys && b in xs;
    assert Severity(a) == Severity(b);
  }

  /** What one step does to one port's lease. */
  lemma StepOnPort(config: EnforcerConfig, s: Enforced, e: Event, port: string)
    requires Sound(s)
    ensures var next := Step(config, s, e);
            if Hits(config, s, e) == Some(port) then
              && port in next.leases
              && next.leases[port].action.kind == Effective(config, Existing(s.leases, port), e.decision).0
              && (port in s.leases ==> next.leases[port].action.expiresAt >= s.leases[port].action.expiresAt)
            else if e.Reload? || e == Release(port) then port !in next.leases
            else Existing(next.leases, port) == Existing(s.leases, port)
  {
    hide RateLimitBits, IsPort, PortIdAt, PortTarget, ApplyOne, Perform, Effective, Applicable;
    if e.Decision? {
      if Applicable(config, s.cs, e.decision) {
        AlwaysEnforced(config, s, e.decision, e.now);
      } else {
        Ignored(config, s, e.decision, e.now);
      }
    }
  }

  /** A live lease enforces the strongest of all applicable decisions on its port since it began. */
  lemma {:induction false} LeaseIsStrongest(config: EnforcerConfig, s: Enforced, events: seq<Event>, port: string)
    requires Sound(s) && s.leases == map[]
    requires port in Run(config, s, events).leases
    ensures IsStrongest(Run(config, s, events).leases[port].action.kind, Asked(config, s, events, port))
    decreases |events|
  {
    hide Step, Applicable, Sound, RateLimitBits, Hits;
    var front, last := events[..|events| - 1], events[|events| - 1];
    var before := Run(config, s, front);
    RunSound(config, s, front);
    StepOnPort(config, before, last, port);
    var asked := Asked(config, s, front, port);
    if port in before.leases {
      LeaseIsStrongest(config, s, front, port);
    } else {
      assert asked == [];
    }
    if Hits(config, before, last) == Some(port) {
      var kind := KindFor(last.decision.action);
      assert (asked + [kind])[|asked|] == kind;
      assert Asked(config, s, events, port) == asked + [kind];
      assert forall k | k in asked :: k in asked + [kind];
    }
  }

  /** While a lease lives, it never gets weaker and never ends earlier. */
  lemma NeverWeaker(config: EnforcerConfig, s: Enforced, e: Event, port: string)
    requires Sound(s) && port in s.leases && port in Step(config, s, e).leases
    ensures var was, becomes := s.leases[port].action, Step(config, s, e).leases[port].action;
            && Severity(was.kind) <= Severity(becomes.kind)
            && was.expiresAt <= becomes.expiresAt
  {
    hide Step, Applicable, RateLimitBits;
    StepOnPort(config, s, e, port);
  }

  lemma {:induction false} TopologyStays(config: EnforcerConfig, s: Enforced, events: seq<Event>)
    requires Sound(s) && forall i | 0 <= i < |events| :: events[i].Decision? || events[i].Release?
    ensures Run(config, s, events).cs.topology == s.cs.topology
    decreases |events|
  {
    hide Step, Sound;
    if events != [] {
      var front, last := events[..|events| - 1], events[|events| - 1];
      TopologyStays(config, s, front);
      RunSound(config, s, front);
      if last.Decision? {
        DecisionKeepsTopology(config, Run(config, s, front), last);
      } else {
        ReleaseKeepsTopology(config, Run(config, s, front), last);
      }
    }
  }

  lemma ReleaseKeepsTopology(config: EnforcerConfig, s: Enforced, e: Event)
    requires Sound(s) && e.Release?
    ensures Step(config, s, e).cs.topology == s.cs.topology
  {
    hide IsPort, PortTarget;
  }

  /** After a decision on a port and only decisions since, the port has a lease at least as severe. */
  lemma {:induction false} StaysAsStrong(config: EnforcerConfig, s: Enforced, events: seq<Event>, i: nat, port: string)
    requires Sound(s) && i < |events|
    requires forall j | 0 <= j < |events| :: events[j].Decision? || (events[j].Release? && j < i)
    requires Hits(config, s, events[i]) == Some(port)
    ensures var end := Run(config, s, events);
            && port in end.leases
            && Severity(end.leases[port].action.kind) >= Severity(KindFor(events[i].decision.action))
    decreases |events|
  {
    hide Step, Applicable, Sound, RateLimitBits, Hits;
    var front, last := events[..|events| - 1], events[|events| - 1];
    var before := Run(config, s, front);
    RunSound(config, s, front);
    TopologyStays(config, s, front);
    SameHits(config, before, s, last);
    StepOnPort(config, before, last, port);
    if i < |front| {
      StaysAsStrong(config, s, front, i, port);
      NeverWeaker(config, before, last, port);
    }
  }

  /** Over any stretch of a run in which the lease lives throughout. */
  lemma {:induction false} NeverWeakerMeanwhile(config: EnforcerConfig, s: Enforced, events: seq<Event>, port: string)
    requires Sound(s)
    requires forall i | 0 <= i <= |events| :: port in Run(config, s, events[..i]).leases
    ensures port in s.leases && port in Run(config, s, events).leases
    ensures var was, becomes := s.leases[port].action, Run(config, s, events).leases[port].action;
            && Severity(was.kind) <= Severity(becomes.kind)
            && was.expiresAt <= becomes.expiresAt
    decreases |events|
  {
    hide Step, Sound;
    assert events[..0] == [] && events[..|events|] == events;
    if events != [] {
      var front := events[..|events| - 1];
      assert forall i | 0 <= i <= |front| :: front[..i] == events[..i];
      NeverWeakerMeanwhile(config, s, front, port);
      RunSound(config, s, front);
      NeverWeaker(config, Run(config, s, front), events[|events| - 1], port);
    }
  }

  // ---- order ----

  /** In a run of decisions alone, a port is asked for exactly what some applicable decision asks. */
  lemma {:induction false} AskedBySomeDecision(config: EnforcerConfig, s: Enforced, events: seq<Event>, port: string,
                                               kind: EnforcementKind)
    requires Sound(s) && s.leases == map[] && forall i | 0 <= i < |events| :: events[i].Decision?
    ensures Run(config, s, events).cs.topology == s.cs.topology
    ensures kind in Asked(config, s, events, port) <==>
            exists i :: 0 <= i < |events| && Hits(config, s, events[i]) == Some(port)
                        && KindFor(events[i].decision.action) == kind
    ensures port in Run(config, s, events).leases <==>
            exists i :: 0 <= i < |events| && Hits(config, s, events[i]) == Some(port)
    decreases |events|
  {
    hide Step, Applicable, Sound, RateLimitBits, Hits;
    if events != [] {
      var front, last := events[..|events| - 1], events[|events| - 1];
      var before := Run(config, s, front);
      AskedBySomeDecision(config, s, front, port, kind);
      RunSound(config, s, front);
      StepOnPort(config, before, last, port);
      DecisionKeepsTopology(config, before, last);
      SameHits(config, before, s, last);
      assert forall i | 0 <= i < |front| :: events[i] == front[i];
      if port !in before.leases {
        assert Asked(config, s, front, port) == [];
      }
      if kind in Asked(config, s, front, port) || port in before.leases {
        var i :| 0 <= i < |front| && Hits(config, s, front[i]) == Some(port);
        assert Hits(config, s, events[i]) == Some(port);
      }
    }
  }

  lemma DecisionKeepsTopology(config: EnforcerConfig, s: Enforced, e: Event)
    requires Sound(s) && e.Decision?
    ensures Step(config, s, e).cs.topology == s.cs.topology
  {
    hide RateLimitBits, IsPort, PortIdAt, PortTarget, ApplyOne, Applicable;
    if Applicable(config, s.cs, e.decision) {
      AlwaysEnforced(config, s, e.decision, e.now);
    } else {
      Ignored(config, s, e.decision, e.now);
    }
  }

  /** Who is hit depends on the topology only. */
  lemma SameHits(config: EnforcerConfig, s: Enforced, t: Enforced, e: Event)
    requires s.cs.topology == t.cs.topology
    ensures Hits(config, s, e) == Hits(config, t, e)
  {
  }

  /** The enforced kinds do not depend on the order in which decisions arrive. */
  lemma OrderIrrelevant(config: EnforcerConfig, s: Enforced, xs: seq<Event>, ys: seq<Event>, port: string)
    requires Sound(s) && s.leases == map[] && forall i | 0 <= i < |xs| :: xs[i].Decision?
    requires multiset(xs) == multiset(ys)
    ensures port in Run(config, s, xs).leases <==> port in Run(config, s, ys).leases
    ensures port in Run(config, s, xs).leases ==>
              Run(config, s, xs).leases[port].action.kind == Run(config, s, ys).leases[port].action.kind
  {
    hide Run, Asked, Sound, Hits;
    forall e: Event
      ensures e in xs <==> e in ys
    {
      assert e in multiset(xs) <==> e in multiset(ys);
    }
    forall i | 0 <= i < |ys|
      ensures ys[i].Decision?
    {
      assert ys[i] in ys;
    }
    forall kind
      ensures kind in Asked(config, s, xs, port) <==> kind in Asked(config, s, ys, port)
    {
      AskedBySomeDecision(config, s, xs, port, kind);
      AskedBySomeDecision(config, s, ys, port, kind);
      FoundInBoth(config, s, xs, ys, port, kind);
      FoundInBoth(config, s, ys, xs, port, kind);
    }
    AskedBySomeDecision(config, s, xs, port, Limited);
    AskedBySomeDecision(config, s, ys, port, Limited);
    HitInBoth(config, s, xs, ys, port);
    HitInBoth(config, s, ys, xs, port);
    if port in Run(config, s, xs).leases {
      LeaseIsStrongest(config, s, xs, port);
      LeaseIsStrongest(config, s, ys, port);
      StrongestIsUnique(Run(config, s, xs).leases[port].action.kind, Asked(config, s, xs, port),
                        Run(config, s, ys).leases[port].action.kind, Asked(config, s, ys, port));
    }
  }

  lemma FoundInBoth(config: EnforcerConfig, s: Enforced, xs: seq<Event>, ys: seq<Event>, port: string,
                    kind: EnforcementKind)
    requires forall i | 0 <= i < |xs| :: xs[i].Decision?
    requires forall i | 0 <= i < |ys| :: ys[i].Decision?
    requires forall e :: e in xs ==> e in ys
    ensures (exists i ::
               0 <= i < |xs| && Hits(config, s, xs[i]) == Some(port) && KindFor(xs[i].decision.action) == kind)
        ==> (exists i ::
               0 <= i < |ys| && Hits(config, s, ys[i]) == Some(port) && KindFor(ys[i].decision.action) == kind)
  {
    hide Hits;
    if i :| 0 <= i < |xs| && Hits(config, s, xs[i]) == Some(port) && KindFor(xs[i].decision.action) == kind {
      assert xs[i] in ys;
      var j :| 0 <= j < |ys| && ys[j] == xs[i];
      assert Hits(config, s, ys[j]) == Some(port);
    }
  }

  lemma HitInBoth(config: EnforcerConfig, s: Enforced, xs: seq<Event>, ys: seq<Event>, port: string)
    requires forall e :: e in xs ==> e in ys
    ensures (exists i :: 0 <= i < |xs| && Hits(config, s, xs[i]) == Some(port))
        ==> (exists i :: 0 <= i < |ys| && Hits(config, s, ys[i]) == Some(port))
  {
    hide Hits;
    if i :| 0 <= i < |xs| && Hits(config, s, xs[i]) == Some(port) {
      assert xs[i] in ys;
      var j :| 0 <= j < |ys| && ys[j] == xs[i];
      assert Hits(config, s, ys[j]) == Some(port);
    }
  }

  /** The expiry does depend on the order: a weaker decision that comes second extends the lease by the
      stronger action's duration, one that comes first by its own. */
  lemma ExpiryDependsOnOrder(config: EnforcerConfig, s: Enforced, weak: PolicyDecision, strong: PolicyDecision,
                             now: int)
    requires Sound(s) && s.leases == map[]
    requires Applicable(config, s.cs, weak) && Applicable(config, s.cs, strong)
    requires PortIdAt(s.cs, weak.anomaly.key.ingressPort) == PortIdAt(s.cs, strong.anomaly.key.ingressPort)
    requires Severity(KindFor(weak.action)) < Severity(KindFor(strong.action))
    ensures var port := PortIdAt(s.cs, weak.anomaly.key.ingressPort).value;
            var up := Run(config, s, [Decision(weak, now), Decision(strong, now)]);
            var down := Run(config, s, [Decision(strong, now), Decision(weak, now)]);
            && port in up.leases && port in down.leases
            && (up.leases[port].action.expiresAt == down.leases[port].action.expiresAt
                <==> LeaseFor(config, KindFor(weak.action)) <= LeaseFor(config, KindFor(strong.action)))
  {
    hide RateLimitBits, IsPort, Run;
    TwoSteps(config, s, Decision(weak, now), Decision(strong, now));
    TwoSteps(config, s, Decision(strong, now), Decision(weak, now));
    ExactExpiry(config, s, weak, now);
    ExactExpiry(config, s, strong, now);
    DecisionSound(config, s, weak, now);
    DecisionSound(config, s, strong, now);
    var one, two := ApplyOne(config, s, weak, now).1, ApplyOne(config, s, strong, now).1;
    SameHits(config, one, s, Decision(strong, now));
    SameHits(config, two, s, Decision(weak, now));
    ExactExpiry(config, one, strong, now);
    ExactExpiry(config, two, weak, now);
  }

  /** With the leases the switch starts with, a rate limit and then a drop last longer than a drop and then a
      rate limit. */
  lemma DefaultsDependOnOrder(s: Enforced, limit: PolicyDecision, drop: PolicyDecision, now: int)
    requires Sound(s) && s.leases == map[] && limit.action == RateLimit && drop.action == Drop
    requires Applicable(DEFAULT_LEASES, s.cs, limit) && Applicable(DEFAULT_LEASES, s.cs, drop)
    requires PortIdAt(s.cs, limit.anomaly.key.ingressPort) == PortIdAt(s.cs, drop.anomaly.key.ingressPort)
    ensures var port := PortIdAt(s.cs, limit.anomaly.key.ingressPort).value;
            var up := Run(DEFAULT_LEASES, s, [Decision(limit, now), Decision(drop, now)]);
            var down := Run(DEFAULT_LEASES, s, [Decision(drop, now), Decision(limit, now)]);
            && port in up.leases && port in down.leases
            && up.leases[port].action.expiresAt != down.leases[port].action.expiresAt
  {
    hide Run, Applicable, Sound, PortIdAt;
    ExpiryDependsOnOrder(DEFAULT_LEASES, s, limit, drop, now);
  }

  lemma TwoSteps(config: EnforcerConfig, s: Enforced, e: Event, f: Event)
    requires ValidState(s.cs)
    ensures Run(config, s, [e, f]) == Step(config, Step(config, s, e), f)
  {
    hide Step;
    assert [e, f][..1] == [e] && [e][..0] == [];
    assert Run(config, s, [e]) == Step(config, Run(config, s, []), e);
  }

  lemma ExactExpiry(config: EnforcerConfig, s: Enforced, decision: PolicyDecision, now: int)
    requires Sound(s) && Applicable(config, s.cs, decision)
    ensures var port := PortIdAt(s.cs, decision.anomaly.key.ingressPort).value;
            var next := ApplyOne(config, s, decision, now).1;
            && port in next.leases && next.cs.topology == s.cs.topology
            && next.leases[port].action.kind == Effective(config, Existing(s.leases, port), decision).0
            && next.leases[port].action.expiresAt
               == Max(now + LeaseFor(config, next.leases[port].action.kind),
                      if port in s.leases then s.leases[port].action.expiresAt
                      else now + LeaseFor(config, next.leases[port].action.kind))
  {
    hide RateLimitBits, IsPort, PortIdAt, PortTarget, Effective, LeaseFor;
    AlwaysEnforced(config, s, decision, now);
  }

  // ---- alternation ----

  /** Whether a step starts or ends the lease on a port. */
  function Mark(config: EnforcerConfig, s: Enforced, e: Event, port: string): seq<Outcome> {
    match e
    case Decision(decision, now) =>
      var action := ApplyOne(config, s, decision, now).0;
      if action.portId == port && action.outcome == Applied then [Applied] else []
    case Release(other) => if other == port && port in s.leases then [Released] else []
    case Operate(_) => []
    case Reload(_) => if port in s.leases then [Released] else []
  }

  function Marks(config: EnforcerConfig, s: Enforced, events: seq<Event>, port: string): seq<Outcome>
    requires ValidState(s.cs)
  {
    if events == [] then []
    else
      var front := events[..|events| - 1];
      Marks(config, s, front, port) + Mark(config, Run(config, s, front), events[|events| - 1], port)
  }

  /** Starts and ends of a port's lease strictly alternate, and the lease is live after a start. */
  lemma {:induction false} MarksAlternate(config: EnforcerConfig, s: Enforced, events: seq<Event>, port: string)
    requires Sound(s) && s.leases == map[]
    ensures var marks := Marks(config, s, events, port);
            && (forall i | 0 <= i < |marks| :: marks[i] == if i % 2 == 0 then Applied else Released)
            && (port in Run(config, s, events).leases <==> |marks| % 2 == 1)
    decreases |events|
  {
    hide Step, Mark, Sound;
    if events != [] {
      var front, last := events[..|events| - 1], events[|events| - 1];
      MarksAlternate(config, s, front, port);
      RunSound(config, s, front);
      MarkTells(config, Run(config, s, front), last, port);
    }
  }

  lemma MarkTells(config: EnforcerConfig, s: Enforced, e: Event, port: string)
    requires Sound(s)
    ensures var held, holds := port in s.leases, port in Step(config, s, e).leases;
            Mark(config, s, e, port) == if !held && holds then [Applied] else if held && !holds then [Released] else []
  {
    hide RateLimitBits, IsPort, PortIdAt, PortTarget, ApplyOne, Perform, Effective, Applicable;
    if e.Decision? {
      if Applicable(config, s.cs, e.decision) {
        AlwaysEnforced(config, s, e.decision, e.now);
      } else {
        Ignored(config, s, e.decision, e.now);
      }
    }
  }

  // ---- expiry ----

  ghost predicate Unexpired(leases: map<string, Lease>, now: int) {
    forall port | port in leases :: leases[port].action.expiresAt > now
  }

  predicate PositiveLeases(config: EnforcerConfig) {
    config.rateLimitLease > 0 && config.dropLease > 0 && config.quarantineLease > 0
  }

  /** Decisions applied once the expired leases are gone leave none that has expired. */
  lemma {:induction false} ApplyLeavesUnexpired(config: EnforcerConfig, s: Enforced, decisions: seq<PolicyDecision>,
                                                now: int)
    requires Sound(s) && Unexpired(s.leases, now) && PositiveLeases(config)
    ensures Sound(ApplyAll(config, s, decisions, now).1)
    ensures Unexpired(ApplyAll(config, s, decisions, now).1.leases, now)
    decreases |decisions|
  {
    hide ApplyOne, Applicable, Sound, SoundLease, IsPort, PortFault, PortIdAt, Effective;
    if decisions != [] {
      var front, last := decisions[..|decisions| - 1], decisions[|decisions| - 1];
      ApplyLeavesUnexpired(config, s, front, now);
      var before := ApplyAll(config, s, front, now).1;
      if Applicable(config, before.cs, last) {
        DecisionSound(config, before, last, now);
        AlwaysEnforced(config, before, last, now);
        EffectiveEnforces(config, before, last);
      } else {
        Ignored(config, before, last, now);
      }
    }
  }

  lemma EffectiveEnforces(config: EnforcerConfig, s: Enforced, decision: PolicyDecision)
    requires Sound(s) && Applicable(config, s.cs, decision)
    ensures var port := PortIdAt(s.cs, decision.anomaly.key.ingressPort).value;
            Effective(config, Existing(s.leases, port), decision).0 != Unenforced
  {
    hide RateLimitBits, IsPort, PortIdAt;
    var port := PortIdAt(s.cs, decision.anomaly.key.ingressPort).value;
    if port in s.leases {
      assert SoundLease(s, port);
    }
  }

  // ---- the order of releases ----

  /** What a run of releases leaves at one target. */
  lemma {:induction false} ReleasedAt(s: Enforced, order: seq<string>)
    requires Sound(s) && Distinct(order) && forall port :: port in order ==> port in s.leases
    ensures var end := ReleaseEach(s, order);
            && Sound(end)
            && end.cs == s.cs.(faults := end.cs.faults)
            && (forall port :: port in end.leases <==> port in s.leases && port !in order)
            && (forall port | port in end.leases :: end.leases[port] == s.leases[port])
            && (forall port | port in order ::
                  StateOf(end.cs.faults, PortTarget(port))
                  == if s.leases[port].hadRestore
                     then Some(Installed(s.cs.seed, PortTarget(port), s.leases[port].restore)) else None)
            && (forall target | !TargetedBy(order, target) ::
                  StateOf(end.cs.faults, target) == StateOf(s.cs.faults, target))
    decreases |order|
  {
    hide PortTarget, Installed, IsPort;
    if order != [] {
      var front, last := order[..|order| - 1], order[|order| - 1];
      assert forall port :: port in order <==> port in front || port == last;
      ReleasedAt(s, front);
      var before, end := ReleaseEach(s, front), ReleaseEach(s, order);
      assert last !in front;
      assert SoundLease(before, last);
      ReleaseKeepsValid(before, last);
      forall port | port in end.leases
        ensures SoundLease(end, port)
      {
        assert SoundLease(before, port);
      }
      forall port | port in front
        ensures PortTarget(port) != PortTarget(last)
      {
        if PortTarget(port) == PortTarget(last) {
          PortTargetInjective(port, last);
        }
      }
      forall target | !TargetedBy(order, target)
        ensures StateOf(end.cs.faults, target) == StateOf(s.cs.faults, target)
      {
        assert last in order;
        assert !TargetedBy(front, target);
      }
    }
  }

  function StateOf(faults: Faults, target: string): Option<FaultState> {
    if target in faults then Some(faults[target]) else None
  }

  ghost predicate TargetedBy(order: seq<string>, target: string) {
    exists port :: port in order && PortTarget(port) == target
  }

  /** The hash table may be walked in any order: expired leases are given back to the same effect. */
  lemma ReleaseOrderIrrelevant(s: Enforced, now: int, xs: seq<string>, ys: seq<string>)
    requires Sound(s) && Visits(xs, Expired(s.leases, now)) && Visits(ys, Expired(s.leases, now))
    ensures ReleaseEach(s, xs) == ReleaseEach(s, ys)
  {
    hide PortTarget, Installed, ReleaseEach, Sound;
    ReleasedAt(s, xs);
    ReleasedAt(s, ys);
    var a, b := ReleaseEach(s, xs), ReleaseEach(s, ys);
    forall target
      ensures StateOf(a.cs.faults, target) == StateOf(b.cs.faults, target)
    {
      if TargetedBy(xs, target) {
        var port :| port in xs && PortTarget(port) == target;
        assert port in ys;
      } else {
        assert forall port | port in ys :: port in xs;
        assert !TargetedBy(ys, target);
      }
    }
    SameStates(a.cs.faults, b.cs.faults);
    assert a.leases == b.leases;
  }

  lemma SameStates(a: Faults, b: Faults)
    requires forall target :: StateOf(a, target) == StateOf(b, target)
    ensures a == b
  {
    assert forall target :: target in a <==> StateOf(a, target).Some?;
    assert forall target | target in a :: StateOf(a, target).value == StateOf(b, target).value;
  }
}
