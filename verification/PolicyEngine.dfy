/** The first-match policy engine of src/policy_engine.cpp. */
module PolicyEngineModel {
  import opened Words
  import opened Results
  import opened DetectorWindow

  datatype PolicyAction = Allow | Drop | Mirror | RateLimit | Quarantine | AlertOnly

  datatype PolicyError = EmptyName | DuplicateName | MissingRateLimit

  datatype PolicyRule = PolicyRule(name: string, kind: AnomalyType, action: PolicyAction, enabled: bool, rate: u64)

  datatype PolicyDecision = PolicyDecision(
    ruleName: string,
    action: PolicyAction,
    anomaly: AnomalyEvent,
    hitCount: nat,
    rate: u64)

  function Validate(rule: PolicyRule): Result<(), PolicyError> {
    if rule.name == "" then Err(EmptyName)
    else if rule.action == RateLimit && rule.rate == 0 then Err(MissingRateLimit)
    else Ok(())
  }

  predicate Sound(rules: seq<PolicyRule>) {
    && (forall i | 0 <= i < |rules| :: Validate(rules[i]).Ok?)
    && (forall i, j | 0 <= i < j < |rules| :: rules[i].name != rules[j].name)
  }

  /** Sound rules have names, all different, and a rate where they limit one. */
  lemma SoundExactly(rules: seq<PolicyRule>)
    ensures Sound(rules) <==>
            && (forall i | 0 <= i < |rules| ::
                  rules[i].name != "" && (rules[i].action == RateLimit ==> rules[i].rate > 0))
            && (forall i, j | 0 <= i < j < |rules| :: rules[i].name != rules[j].name)
  {
  }

  /** The first enabled rule for a kind of anomaly. */
  predicate IsFirstMatch(rules: seq<PolicyRule>, kind: AnomalyType, at: nat) {
    && at < |rules| && rules[at].enabled && rules[at].kind == kind
    && forall i | 0 <= i < at :: !(rules[i].enabled && rules[i].kind == kind)
  }

  function FirstMatch(rules: seq<PolicyRule>, kind: AnomalyType, from: nat): (at: Option<nat>)
    requires from <= |rules| && forall i | 0 <= i < from :: !(rules[i].enabled && rules[i].kind == kind)
    ensures at.Some? ==> IsFirstMatch(rules, kind, at.value)
    ensures at.None? ==> forall i | 0 <= i < |rules| :: !(rules[i].enabled && rules[i].kind == kind)
    decreases |rules| - from
  {
    if from == |rules| then None
    else if rules[from].enabled && rules[from].kind == kind then Some(from)
    else FirstMatch(rules, kind, from + 1)
  }

  type Hits = map<string, nat>

  function HitCount(hits: Hits, name: string): nat {
    if name in hits then hits[name] else 0
  }

  /** One decision per anomaly that a rule covers, in order, each counting a hit of its rule. */
  function Decide(rules: seq<PolicyRule>, hits: Hits, anomalies: seq<AnomalyEvent>): (seq<PolicyDecision>, Hits) {
    if anomalies == [] then ([], hits)
    else
      var (decisions, before) := Decide(rules, hits, anomalies[..|anomalies| - 1]);
      var anomaly := anomalies[|anomalies| - 1];
      var at := FirstMatch(rules, anomaly.key.kind, 0);
      if at.None? then (decisions, before)
      else
        var rule := rules[at.value];
        var count := HitCount(before, rule.name) + 1;
        (decisions + [PolicyDecision(rule.name, rule.action, anomaly, count, rule.rate)], before[rule.name := count])
  }

  function DecisionsBy(decisions: seq<PolicyDecision>, name: string): nat {
    if decisions == [] then 0
    else
      DecisionsBy(decisions[..|decisions| - 1], name)
      + if decisions[|decisions| - 1].ruleName == name then 1 else 0
  }

  /** A decision's number is its rule's hit count before the batch plus its place among the rule's decisions. */
  predicate Numbered(hits: Hits, decisions: seq<PolicyDecision>, i: nat)
    requires i < |decisions|
  {
    var name := decisions[i].ruleName;
    decisions[i].hitCount == HitCount(hits, name) + DecisionsBy(decisions[..i + 1], name)
  }

  lemma NothingDecided(rules: seq<PolicyRule>, hits: Hits)
    ensures Decide(rules, hits, []) == ([], hits) && Covered(rules, []) == []
  {
  }

  /** What the last of the anomalies adds. */
  lemma DecideLast(rules: seq<PolicyRule>, hits: Hits, anomalies: seq<AnomalyEvent>)
    requires anomalies != []
    ensures var front, last := anomalies[..|anomalies| - 1], anomalies[|anomalies| - 1];
            var (decisions, before) := Decide(rules, hits, front);
            match FirstMatch(rules, last.key.kind, 0)
            case None =>
              && Decide(rules, hits, anomalies) == (decisions, before)
              && Covered(rules, anomalies) == Covered(rules, front)
            case Some(at) =>
              var rule := rules[at];
              var count := HitCount(before, rule.name) + 1;
              && Decide(rules, hits, anomalies)
                 == (decisions + [PolicyDecision(rule.name, rule.action, last, count, rule.rate)],
                     before[rule.name := count])
              && Covered(rules, anomalies) == Covered(rules, front) + [last]
  {
    hide HitCount, FirstMatch;
  }

  /** A rule's hit count moves by exactly the decisions made in its name, which number them. */
  lemma {:induction false} HitsCountDecisions(rules: seq<PolicyRule>, hits: Hits, anomalies: seq<AnomalyEvent>)
    ensures var (decisions, after) := Decide(rules, hits, anomalies);
            && (forall name :: HitCount(after, name) == HitCount(hits, name) + DecisionsBy(decisions, name))
            && (forall i | 0 <= i < |decisions| :: Numbered(hits, decisions, i))
  {
    hide FirstMatch, Decide;
    NothingDecided(rules, hits);
    if anomalies != [] {
      DecideLast(rules, hits, anomalies);
      HitsCountDecisions(rules, hits, anomalies[..|anomalies| - 1]);
      var before := Decide(rules, hits, anomalies[..|anomalies| - 1]).0;
      var decisions := Decide(rules, hits, anomalies).0;
      if decisions != before {
        assert decisions[..|before|] == before;
        assert decisions[..|decisions|] == decisions;
        forall i | 0 <= i < |before|
          ensures Numbered(hits, decisions, i)
        {
          assert Numbered(hits, before, i);
          assert decisions[..i + 1] == before[..i + 1];
        }
      }
    }
  }

  predicate IsCovered(rules: seq<PolicyRule>, anomaly: AnomalyEvent) {
    exists i :: 0 <= i < |rules| && rules[i].enabled && rules[i].kind == anomaly.key.kind
  }

  /** The anomalies some enabled rule covers, in order. */
  function Covered(rules: seq<PolicyRule>, anomalies: seq<AnomalyEvent>): seq<AnomalyEvent> {
    if anomalies == [] then []
    else
      Covered(rules, anomalies[..|anomalies| - 1])
      + if IsCovered(rules, anomalies[|anomalies| - 1]) then [anomalies[|anomalies| - 1]] else []
  }

  /** The decision is the one the first enabled rule for its anomaly makes. */
  ghost predicate FromFirstRule(rules: seq<PolicyRule>, d: PolicyDecision) {
    exists at: nat :: IsFirstMatch(rules, d.anomaly.key.kind, at)
                      && d.ruleName == rules[at].name && d.action == rules[at].action && d.rate == rules[at].rate
  }

  /** One decision per covered anomaly, in order, each from the first enabled rule for it. */
  lemma {:induction false} DecisionsAreFirstMatches(rules: seq<PolicyRule>, hits: Hits, anomalies: seq<AnomalyEvent>)
    ensures var decisions, covered := Decide(rules, hits, anomalies).0, Covered(rules, anomalies);
            && |decisions| == |covered|
            && forall i | 0 <= i < |decisions| ::
                 decisions[i].anomaly == covered[i] && FromFirstRule(rules, decisions[i])
  {
    hide FromFirstRule, HitCount, FirstMatch, Decide, Covered;
    NothingDecided(rules, hits);
    if anomalies != [] {
      var last := anomalies[|anomalies| - 1];
      DecideLast(rules, hits, anomalies);
      DecisionsAreFirstMatches(rules, hits, anomalies[..|anomalies| - 1]);
      var before := Decide(rules, hits, anomalies[..|anomalies| - 1]).1;
      var at := FirstMatch(rules, last.key.kind, 0);
      if at.Some? {
        var rule := rules[at.value];
        DecidedFromFirst(rules, at.value,
                         PolicyDecision(rule.name, rule.action, last, HitCount(before, rule.name) + 1, rule.rate));
      }
    }
  }

  lemma DecidedFromFirst(rules: seq<PolicyRule>, at: nat, d: PolicyDecision)
    requires IsFirstMatch(rules, d.anomaly.key.kind, at)
    requires d.ruleName == rules[at].name && d.action == rules[at].action && d.rate == rules[at].rate
    ensures FromFirstRule(rules, d)
  {
  }

  /** The rules before a place are sound; what is wrong there: no name, else a limit without a rate, else a name that
      was used before. */
  predicate IsFirstFault(rules: seq<PolicyRule>, at: nat, error: PolicyError)
    requires at < |rules|
  {
    && Sound(rules[..at])
    && match error
       case EmptyName => rules[at].name == ""
       case MissingRateLimit => rules[at].name != "" && rules[at].action == RateLimit && rules[at].rate == 0
       case DuplicateName =>
         && rules[at].name != "" && (rules[at].action == RateLimit ==> rules[at].rate > 0)
         && exists k :: 0 <= k < at && rules[k].name == rules[at].name
  }

  class PolicyEngine {
    var rules: seq<PolicyRule>
    var hitCounts: Hits

    ghost predicate Valid()
      reads this
    {
      Sound(rules)
    }

    constructor ()
      ensures Valid() && rules == [] && hitCounts == map[]
    {
      rules, hitCounts := [], map[];
    }

    /** Replaces the rules, or reports the first rule that is unsound by itself or repeats a name. */
    method SetRules(candidates: seq<PolicyRule>) returns (r: Result<(), PolicyError>)
      requires Valid()
      modifies this
      ensures Valid() && (r.Ok? <==> Sound(candidates))
      ensures r.Ok? ==> rules == candidates && hitCounts == map[]
      ensures r.Err? ==> rules == old(rules) && hitCounts == old(hitCounts)
      ensures r.Err? ==> exists i :: 0 <= i < |candidates| && IsFirstFault(candidates, i, r.error)
    {
      var names: set<string> := {};
      for i := 0 to |candidates|
        invariant Sound(candidates[..i]) && names == set k | 0 <= k < i :: candidates[k].name
        invariant rules == old(rules) && hitCounts == old(hitCounts)
      {
        var rule := candidates[i];
        var validation := Validate(rule);
        if validation.Err? {
          assert IsFirstFault(candidates, i, validation.error);
          return validation;
        }
        if rule.name in names {
          assert IsFirstFault(candidates, i, DuplicateName);
          return Err(DuplicateName);
        }
        names := names + {rule.name};
      }
      assert candidates[..|candidates|] == candidates;
      rules := candidates;
      hitCounts := map[];
      return Ok(());
    }

    method AddRule(rule: PolicyRule) returns (r: Result<(), PolicyError>)
      requires Valid()
      modifies this
      ensures Valid() && (r.Ok? <==> Sound(old(rules) + [rule]))
      ensures r.Ok? ==> rules == old(rules) + [rule]
      ensures r.Err? ==> rules == old(rules)
      ensures hitCounts == old(hitCounts)
    {
      var validation := Validate(rule);
      if validation.Err? {
        assert (rules + [rule])[|rules|] == rule;
        return validation;
      }
      if exists i :: 0 <= i < |rules| && rules[i].name == rule.name {
        ghost var i :| 0 <= i < |rules| && rules[i].name == rule.name;
        assert (rules + [rule])[|rules|] == rule && (rules + [rule])[i] == rules[i];
        return Err(DuplicateName);
      }
      rules := rules + [rule];
      return Ok(());
    }

    method Find(name: string) returns (at: Option<nat>)
      requires Valid()
      ensures at.Some? ==> at.value < |rules| && rules[at.value].name == name
      ensures at.None? ==> forall i | 0 <= i < |rules| :: rules[i].name != name
    {
      for i := 0 to |rules|
        invariant forall k | 0 <= k < i :: rules[k].name != name
      {
        if rules[i].name == name {
          return Some(i);
        }
      }
      return None;
    }

    /** Removes the one rule of that name, and its hit count. */
    method RemoveRule(name: string) returns (removed: bool)
      requires Valid()
      modifies this
      ensures Valid() && forall i | 0 <= i < |rules| :: rules[i].name != name
      ensures removed ==> exists at :: 0 <= at < |old(rules)| && old(rules)[at].name == name
                                       && rules == old(rules)[..at] + old(rules)[at + 1..]
      ensures !removed ==> rules == old(rules)
      ensures hitCounts == if removed then old(hitCounts) - {name} else old(hitCounts)
    {
      var at := Find(name);
      if at.None? {
        return false;
      }
      hitCounts := hitCounts - {name};
      rules := rules[..at.value] + rules[at.value + 1..];
      return true;
    }

    method SetEnabled(name: string, enabled: bool) returns (found: bool)
      requires Valid()
      modifies this
      ensures Valid() && |rules| == |old(rules)| && hitCounts == old(hitCounts)
      ensures forall i | 0 <= i < |rules| ::
                rules[i] == if old(rules)[i].name == name then old(rules)[i].(enabled := enabled) else old(rules)[i]
      ensures found <==> exists i :: 0 <= i < |old(rules)| && old(rules)[i].name == name
    {
      var at := Find(name);
      if at.None? {
        return false;
      }
      rules := rules[at.value := rules[at.value].(enabled := enabled)];
      return true;
    }

    method Evaluate(anomalies: seq<AnomalyEvent>) returns (decisions: seq<PolicyDecision>)
      requires Valid()
      modifies this`hitCounts
      ensures Valid() && (decisions, hitCounts) == Decide(rules, old(hitCounts), anomalies)
    {
      decisions := [];
      for i := 0 to |anomalies|
        invariant (decisions, hitCounts) == Decide(rules, old(hitCounts), anomalies[..i])
      {
        assert anomalies[..i + 1][..i] == anomalies[..i];
        var anomaly := anomalies[i];
        var at := FirstMatch(rules, anomaly.key.kind, 0);
        if at.None? {
          continue;
        }
        var rule := rules[at.value];
        var count := HitCount(hitCounts, rule.name) + 1;
        hitCounts := hitCounts[rule.name := count];
        decisions := decisions + [PolicyDecision(rule.name, rule.action, anomaly, count, rule.rate)];
      }
      assert anomalies[..|anomalies|] == anomalies;
    }

    method Reset()
      requires Valid()
      modifies this`hitCounts
      ensures Valid() && hitCounts == map[]
    {
      hitCounts := map[];
    }
  }
}
