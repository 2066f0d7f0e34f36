/** The sliding-window detector of src/anomaly_detector.cpp: its counters, its deque and its
    edge-triggered events, proved against the window's meaning. */
module Detector {
  import opened Arith
  import opened Words
  import opened Results
  import opened Packets
  import opened Sorting
  import opened DetectorWindow

  datatype DetectorError = ZeroWindow | TimestampsMustBeMonotonic

  datatype Counter = Counter(packets: nat, bytes: nat, ingressPort: u32)

  /** The maps one evaluation fills, keyed by the part of a source the rule counts by. */
  datatype Tables = Tables(
    broadcasts: map<Group, Counter>,
    unknownUnicasts: map<Group, Counter>,
    udpSources: map<Group, Counter>,
    scanDestinations: map<Group, set<u16>>,
    scanIngressPorts: map<Group, u32>,
    ingressPorts: map<Group, seq<u32>>,
    sourceTraffic: map<Group, Counter>,
    malformedIngressPorts: map<Group, Counter>)

  const EMPTY := Tables(map[], map[], map[], map[], map[], map[], map[], map[])

  function Bump(counters: map<Group, Counter>, group: Group, o: Observation): map<Group, Counter> {
    var was := if group in counters then counters[group] else Counter(0, 0, 0);
    counters[group := Counter(was.packets + 1, was.bytes + o.frameLength, o.ingressPort)]
  }

  function AddPort(ports: map<Group, set<u16>>, group: Group, port: u16): map<Group, set<u16>> {
    ports[group := (if group in ports then ports[group] else {}) + {port}]
  }

  function PushPort(ports: map<Group, seq<u32>>, group: Group, port: u32): map<Group, seq<u32>> {
    ports[group := (if group in ports then ports[group] else []) + [port]]
  }

  /** One observation entered in every table it belongs to. */
  function Note(t: Tables, o: Observation): Tables {
    var mac, ip := Group(o.sourceMac, 0, 0), Group(0, o.sourceIpv4, 0);
    var scans := o.validity == Valid && (o.protocol == TCP || o.protocol == UDP);
    Tables(
      if o.classification == Broadcast then Bump(t.broadcasts, mac, o) else t.broadcasts,
      if o.classification == UnknownUnicast then Bump(t.unknownUnicasts, mac, o) else t.unknownUnicasts,
      if o.validity == Valid && o.protocol == UDP then Bump(t.udpSources, ip, o) else t.udpSources,
      if scans then AddPort(t.scanDestinations, ip, o.destinationPort) else t.scanDestinations,
      if scans then t.scanIngressPorts[ip := o.ingressPort] else t.scanIngressPorts,
      if o.classification != Malformed then PushPort(t.ingressPorts, mac, o.ingressPort) else t.ingressPorts,
      if o.validity == Valid then Bump(t.sourceTraffic, mac, o) else t.sourceTraffic,
      if o.validity == Valid then t.malformedIngressPorts
      else Bump(t.malformedIngressPorts, Group(0, 0, o.ingressPort), o))
  }

  function TablesOf(window: seq<Observation>): Tables {
    if window == [] then EMPTY else Note(TablesOf(window[..|window| - 1]), window[|window| - 1])
  }

  /** The groups a rule iterates over. */
  function GroupsIn(t: Tables, kind: AnomalyType): set<Group> {
    match kind
    case BroadcastStorm => t.broadcasts.Keys
    case MacFlap => t.ingressPorts.Keys
    case UnknownUnicastFlood => t.unknownUnicasts.Keys
    case UdpFlood => t.udpSources.Keys
    case PortScan => t.scanDestinations.Keys
    case HotTalker => t.sourceTraffic.Keys
    case MalformedFrame => t.malformedIngressPorts.Keys
  }

  /** The entry of a rule's table as an event. */
  function Entry(t: Tables, kind: AnomalyType, g: Group, config: DetectorConfig): AnomalyEvent
    requires g in GroupsIn(t, kind)
  {
    var threshold := Threshold(kind, config);
    match kind
    case MacFlap =>
      var ports := t.ingressPorts[g];
      AnomalyEvent(Key(kind, g.mac, 0, if ports == [] then 0 else ports[|ports| - 1]), Transitions(ports), 0, 0,
                   threshold, config.window)
    case PortScan =>
      var port := if g in t.scanIngressPorts then t.scanIngressPorts[g] else 0;
      AnomalyEvent(Key(kind, 0, g.ip, port), 0, 0, |t.scanDestinations[g]|, threshold, config.window)
    case MalformedFrame =>
      var c := t.malformedIngressPorts[g];
      AnomalyEvent(Key(kind, 0, 0, g.port), c.packets, c.bytes, 0, threshold, config.window)
    case UdpFlood =>
      var c := t.udpSources[g];
      AnomalyEvent(Key(kind, 0, g.ip, c.ingressPort), c.packets, c.bytes, 0, threshold, config.window)
    case BroadcastStorm => MacEntry(kind, g, t.broadcasts[g], config)
    case UnknownUnicastFlood => MacEntry(kind, g, t.unknownUnicasts[g], config)
    case HotTalker => MacEntry(kind, g, t.sourceTraffic[g], config)
  }

  function MacEntry(kind: AnomalyType, g: Group, c: Counter, config: DetectorConfig): AnomalyEvent {
    AnomalyEvent(Key(kind, g.mac, 0, c.ingressPort), c.packets, c.bytes, 0, Threshold(kind, config), config.window)
  }

  // ---- the tables hold the groups ----

  predicate Counts(counters: map<Group, Counter>, g: Group, members: seq<Observation>) {
    && (g in counters <==> members != [])
    && (g in counters ==>
          counters[g] == Counter(|members|, Bytes(members), members[|members| - 1].ingressPort))
  }

  function CountersOf(t: Tables, kind: AnomalyType): map<Group, Counter> {
    match kind
    case BroadcastStorm => t.broadcasts
    case UnknownUnicastFlood => t.unknownUnicasts
    case UdpFlood => t.udpSources
    case HotTalker => t.sourceTraffic
    case _ => t.malformedIngressPorts
  }

  lemma BumpCounts(counters: map<Group, Counter>, h: Group, o: Observation, g: Group, members: seq<Observation>)
    requires Counts(counters, g, members)
    ensures Counts(Bump(counters, h, o), g, if g == h then members + [o] else members)
  {
    assert (members + [o])[..|members|] == members;
  }

  lemma {:induction false} CountersHold(window: seq<Observation>, kind: AnomalyType, g: Group)
    requires kind in {BroadcastStorm, UnknownUnicastFlood, UdpFlood, HotTalker, MalformedFrame}
    ensures Counts(CountersOf(TablesOf(window), kind), g, Members(window, kind, g))
  {
    hide Counts, Bump;
    if window == [] {
      NothingCounts(g);
    } else {
      var front, o := window[..|window| - 1], window[|window| - 1];
      CountersHold(front, kind, g);
      var t, members := TablesOf(front), Members(front, kind, g);
      assert members + [] == members;
      match kind
      case BroadcastStorm => BumpCounts(t.broadcasts, Group(o.sourceMac, 0, 0), o, g, members);
      case UnknownUnicastFlood => BumpCounts(t.unknownUnicasts, Group(o.sourceMac, 0, 0), o, g, members);
      case UdpFlood => BumpCounts(t.udpSources, Group(0, o.sourceIpv4, 0), o, g, members);
      case HotTalker => BumpCounts(t.sourceTraffic, Group(o.sourceMac, 0, 0), o, g, members);
      case MalformedFrame => BumpCounts(t.malformedIngressPorts, Group(0, 0, o.ingressPort), o, g, members);
    }
  }

  lemma NothingCounts(g: Group)
    ensures Counts(map[], g, [])
  {
  }

  lemma DestinationPortsNext(members: seq<Observation>, o: Observation)
    ensures DestinationPorts(members + [o]) == DestinationPorts(members) + {o.destinationPort}
  {
    var more := members + [o];
    assert more[|members|] == o;
    assert forall i | 0 <= i < |members| :: more[i] == members[i];
  }

  lemma {:induction false} ScansHold(window: seq<Observation>, g: Group)
    ensures var t, members := TablesOf(window), Members(window, PortScan, g);
            && (g in t.scanDestinations <==> members != []) && (g in t.scanIngressPorts <==> members != [])
            && (members != [] ==> t.scanDestinations[g] == DestinationPorts(members)
                                  && t.scanIngressPorts[g] == members[|members| - 1].ingressPort)
  {
    hide DestinationPorts, Bump, PushPort;
    if window != [] {
      var front, o := window[..|window| - 1], window[|window| - 1];
      ScansHold(front, g);
      var members := Members(front, PortScan, g);
      assert members + [] == members;
      DestinationPortsNext(members, o);
      NoPorts();
    }
  }

  lemma NoPorts()
    ensures DestinationPorts([]) == {}
  {
  }

  lemma {:induction false} FlapsHold(window: seq<Observation>, g: Group)
    ensures var t, members := TablesOf(window), Members(window, MacFlap, g);
            && (g in t.ingressPorts <==> members != [])
            && (members != [] ==> t.ingressPorts[g] == IngressPorts(members))
  {
    hide Bump, AddPort;
    if window != [] {
      var front, o := window[..|window| - 1], window[|window| - 1];
      FlapsHold(front, g);
      var members := Members(front, MacFlap, g);
      assert members + [] == members;
      assert IngressPorts(members + [o]) == IngressPorts(members) + [o.ingressPort];
      assert IngressPorts([]) == [];
    }
  }

  lemma CounterEvidence(t: Tables, kind: AnomalyType, g: Group, members: seq<Observation>, config: DetectorConfig)
    requires kind != MacFlap && kind != PortScan
    requires Counts(CountersOf(t, kind), g, members)
    requires members != [] ==>
               g == if kind == MalformedFrame then Group(0, 0, members[|members| - 1].ingressPort)
                    else if kind == UdpFlood then Group(0, g.ip, 0) else Group(g.mac, 0, 0)
    ensures g in GroupsIn(t, kind) <==> members != []
    ensures members != [] ==> Entry(t, kind, g, config) == Evidence(kind, g, members, config)
  {
  }

  /** The groups found are the groups with members, and an entry is the evidence its members make. */
  lemma EntriesAreEvidence(window: seq<Observation>, kind: AnomalyType, g: Group, config: DetectorConfig)
    ensures g in GroupsIn(TablesOf(window), kind) <==> Members(window, kind, g) != []
    ensures Members(window, kind, g) != [] ==>
              Entry(TablesOf(window), kind, g, config) == Evidence(kind, g, Members(window, kind, g), config)
  {
    hide TablesOf, Transitions, DestinationPorts, Bytes, Members, Counts;
    var t, members := TablesOf(window), Members(window, kind, g);
    if members != [] {
      MembersSelected(window, kind, g);
      assert members[|members| - 1] in members;
    }
    if kind == MacFlap {
      FlapsHold(window, g);
    } else if kind == PortScan {
      ScansHold(window, g);
    } else {
      CountersHold(window, kind, g);
      CounterEvidence(t, kind, g, members, config);
    }
  }

  // ---- candidates ----

  /** The order in which the source goes through its tables. */
  const RULES: seq<AnomalyType> :=
    [BroadcastStorm, UnknownUnicastFlood, UdpFlood, PortScan, MacFlap, HotTalker, MalformedFrame]

  predicate DistinctKeys(events: seq<AnomalyEvent>) {
    forall i, j | 0 <= i < j < |events| :: events[i].key != events[j].key
  }

  /** The candidates of the first `rules` rules, and of `groups` of the next. */
  ghost predicate Gathered(window: seq<Observation>, config: DetectorConfig, rules: nat, groups: set<Group>,
                           candidates: seq<AnomalyEvent>)
    requires rules <= |RULES|
  {
    && DistinctKeys(candidates)
    && (forall e | e in candidates ::
          exists k, g :: Against(window, config, k, g, e)
                         && (k in RULES[..rules] || (rules < |RULES| && k == RULES[rules] && g in groups)))
    && (forall k, g, e | Against(window, config, k, g, e)
                         && (k in RULES[..rules] || (rules < |RULES| && k == RULES[rules] && g in groups)) ::
          e in candidates)
  }

  lemma GatherOne(window: seq<Observation>, config: DetectorConfig, rules: nat, groups: set<Group>,
                  candidates: seq<AnomalyEvent>, g: Group, event: AnomalyEvent)
    requires rules < |RULES| && Gathered(window, config, rules, groups, candidates) && g !in groups
    requires Members(window, RULES[rules], g) != []
    requires event == Evidence(RULES[rules], g, Members(window, RULES[rules], g), config)
    ensures Gathered(window, config, rules, groups + {g}, if Exceeds(event) then candidates + [event] else candidates)
  {
    hide Members, Evidence;
    var kind, more := RULES[rules], candidates + [event];
    assert kind !in RULES[..rules];
    if Exceeds(event) {
      assert Against(window, config, kind, g, event);
      forall i | 0 <= i < |candidates|
        ensures candidates[i].key != event.key
      {
        assert candidates[i] in candidates;
        var k, h :| Against(window, config, k, h, candidates[i])
                    && (k in RULES[..rules] || (k == kind && h in groups));
        if candidates[i].key == event.key {
          OneGroupPerKey(window, config, k, h, candidates[i], kind, g, event);
        }
      }
      assert forall e :: e in more <==> e in candidates || e == event;
    }
  }

  lemma GatherRule(window: seq<Observation>, config: DetectorConfig, rules: nat, candidates: seq<AnomalyEvent>,
                   groups: set<Group>)
    requires rules < |RULES| && Gathered(window, config, rules, groups, candidates)
    requires forall g :: Members(window, RULES[rules], g) != [] ==> g in groups
    ensures Gathered(window, config, rules + 1, {}, candidates)
  {
    hide Members, Evidence;
    assert RULES[..rules + 1] == RULES[..rules] + [RULES[rules]];
  }

  method Consider(window: seq<Observation>, t: Tables, config: DetectorConfig, rules: nat,
                  candidates: seq<AnomalyEvent>)
    returns (more: seq<AnomalyEvent>)
    requires rules < |RULES| && t == TablesOf(window) && Gathered(window, config, rules, {}, candidates)
    ensures Gathered(window, config, rules + 1, {}, more)
  {
    hide TablesOf, Members, Evidence, Gathered, GroupsIn, Entry;
    var kind := RULES[rules];
    var all := GroupsIn(t, kind);
    var todo := all;
    more := candidates;
    assert all - todo == {};
    while todo != {}
      invariant todo <= all && Gathered(window, config, rules, all - todo, more)
    {
      var g :| g in todo;
      EntriesAreEvidence(window, kind, g, config);
      var event := Entry(t, kind, g, config);
      GatherOne(window, config, rules, all - todo, more, g, event);
      if Exceeds(event) {
        more := more + [event];
      }
      assert all - (todo - {g}) == all - todo + {g};
      todo := todo - {g};
    }
    forall g
      ensures Members(window, kind, g) != [] ==> g in all - todo
    {
      EntriesAreEvidence(window, kind, g, config);
    }
    GatherRule(window, config, rules, more, all - todo);
  }

  method Candidates(window: seq<Observation>, config: DetectorConfig) returns (candidates: seq<AnomalyEvent>)
    ensures DistinctKeys(candidates)
    ensures forall e :: e in candidates <==> Candidate(window, config, e)
  {
    hide Against;
    var t := EMPTY;
    for i := 0 to |window|
      invariant t == TablesOf(window[..i])
    {
      assert window[..i + 1][..i] == window[..i];
      t := Note(t, window[i]);
    }
    assert window[..|window|] == window;
    candidates := [];
    for rules := 0 to |RULES|
      invariant Gathered(window, config, rules, {}, candidates)
    {
      candidates := Consider(window, t, config, rules, candidates);
    }
    AllGathered(window, config, candidates);
  }

  lemma EveryRule(k: AnomalyType)
    ensures k in RULES
  {
    assert RULES[0] == BroadcastStorm && RULES[1] == UnknownUnicastFlood && RULES[2] == UdpFlood;
    assert RULES[3] == PortScan && RULES[4] == MacFlap && RULES[5] == HotTalker && RULES[6] == MalformedFrame;
  }

  lemma AllGathered(window: seq<Observation>, config: DetectorConfig, candidates: seq<AnomalyEvent>)
    requires Gathered(window, config, |RULES|, {}, candidates)
    ensures DistinctKeys(candidates)
    ensures forall e :: e in candidates <==> Candidate(window, config, e)
  {
    hide Against;
    assert RULES[..|RULES|] == RULES;
    forall e
      ensures e in candidates <==> Candidate(window, config, e)
    {
      if Candidate(window, config, e) {
        var k, g :| Against(window, config, k, g, e);
        EveryRule(k);
      }
    }
  }

  /** Candidates in key order: strictly, as their keys differ. */
  lemma SortedStrictly(candidates: seq<AnomalyEvent>, sorted: seq<AnomalyEvent>)
    requires DistinctKeys(candidates) && multiset(sorted) == multiset(candidates) && InOrder(sorted, EventLess)
    ensures StrictlySorted(sorted)
  {
    forall i, j | 0 <= i < j < |sorted|
      ensures KeyLess(sorted[i].key, sorted[j].key)
    {
      assert !EventLess(sorted[j], sorted[i]);
      KeyLessTotal(sorted[i].key, sorted[j].key);
      KeysStayDistinct(candidates, sorted, i, j);
    }
  }

  lemma {:induction false} OncePerKey(candidates: seq<AnomalyEvent>, e: AnomalyEvent)
    requires DistinctKeys(candidates)
    ensures multiset(candidates)[e] <= 1
  {
    if candidates != [] {
      var front, last := candidates[..|candidates| - 1], candidates[|candidates| - 1];
      OncePerKey(front, e);
      assert candidates == front + [last];
      assert e in front ==> e.key != last.key;
    }
  }

  lemma SameKeySameEvent(candidates: seq<AnomalyEvent>, e: AnomalyEvent, f: AnomalyEvent)
    requires DistinctKeys(candidates) && e in candidates && f in candidates
    ensures e.key == f.key ==> e == f
  {
  }

  lemma CountedTwice(s: seq<AnomalyEvent>, i: nat, j: nat)
    requires i < j < |s|
    ensures s[i] == s[j] ==> multiset(s)[s[i]] >= 2
  {
    var rest := s[i + 1..];
    assert s == s[..i] + [s[i]] + rest;
    assert rest[j - i - 1] == s[j];
  }

  lemma KeysStayDistinct(candidates: seq<AnomalyEvent>, sorted: seq<AnomalyEvent>, i: nat, j: nat)
    requires DistinctKeys(candidates) && multiset(sorted) == multiset(candidates)
    requires i < j < |sorted|
    ensures sorted[i].key != sorted[j].key
  {
    SameElements(sorted, candidates, sorted[i]);
    SameElements(sorted, candidates, sorted[j]);
    OncePerKey(candidates, sorted[i]);
    CountedTwice(sorted, i, j);
    SameKeySameEvent(candidates, sorted[i], sorted[j]);
  }

  lemma EventLessOrders()
    ensures Orders(EventLess)
  {
  }

  // ---- the detector ----

  predicate Chronological(observations: seq<Observation>) {
    forall i, j | 0 <= i < j < |observations| :: observations[i].timestamp <= observations[j].timestamp
  }

  /** In order of time, up to a moment. */
  predicate NotAfter(observations: seq<Observation>, now: u64) {
    Chronological(observations) && (observations != [] ==> observations[|observations| - 1].timestamp <= now)
  }

  lemma RecordNext(before: seq<Observation>, packets: seq<PacketAnalysis>, now: u64, i: nat)
    requires i < |packets| && NotAfter(before + ObserveAll(packets, now)[..i], now)
    ensures before + ObserveAll(packets, now)[..i] + [Observe(packets[i], now)]
            == before + ObserveAll(packets, now)[..i + 1]
    ensures NotAfter(before + ObserveAll(packets, now)[..i + 1], now)
  {
    var some, more := before + ObserveAll(packets, now)[..i], before + ObserveAll(packets, now)[..i + 1];
    assert more == some + [Observe(packets[i], now)];
  }

  lemma {:induction false} SinceAll(observations: seq<Observation>, cutoff: u64)
    requires forall i | 0 <= i < |observations| :: observations[i].timestamp >= cutoff
    ensures Since(observations, cutoff) == observations
  {
    if observations != [] {
      SinceAll(observations[..|observations| - 1], cutoff);
    }
  }

  lemma {:induction false} SinceWithoutFirst(observations: seq<Observation>, cutoff: u64)
    requires observations != [] && observations[0].timestamp < cutoff
    ensures Since(observations, cutoff) == Since(observations[1..], cutoff)
  {
    if |observations| > 1 {
      var front := observations[..|observations| - 1];
      SinceWithoutFirst(front, cutoff);
      assert front[1..] == observations[1..][..|observations| - 2];
    }
  }

  /** Sorts the candidates and keeps those whose key was not active before. */
  method Report(window: seq<Observation>, config: DetectorConfig, before: set<Key>)
    returns (events: seq<AnomalyEvent>, current: set<Key>)
    ensures Emits(window, config, before, events, current)
  {
    hide Candidate, KeyLess, EventLess, DistinctKeys;
    var candidates := Candidates(window, config);
    EventLessOrders();
    var sorted := Sort(candidates, EventLess);
    SortedStrictly(candidates, sorted);
    events, current := Emit(sorted, before);
    forall e
      ensures e in sorted <==> Candidate(window, config, e)
    {
      SameElements(sorted, candidates, e);
    }
  }

  method Emit(sorted: seq<AnomalyEvent>, before: set<Key>) returns (events: seq<AnomalyEvent>, current: set<Key>)
    requires StrictlySorted(sorted)
    ensures StrictlySorted(events)
    ensures forall e :: e in events <==> e in sorted && e.key !in before
    ensures forall k :: k in current <==> exists e :: e in sorted && e.key == k
  {
    hide KeyLess;
    current, events := {}, [];
    for i := 0 to |sorted|
      invariant forall e :: e in sorted[..i] ==> e.key in current
      invariant forall k :: k in current ==> exists e :: e in sorted[..i] && e.key == k
      invariant forall e :: e in events <==> e in sorted[..i] && e.key !in before
      invariant StrictlySorted(events)
    {
      var candidate := sorted[i];
      assert forall e :: e in sorted[..i + 1] <==> e in sorted[..i] || e == candidate;
      assert forall j | 0 <= j < |events| :: events[j] in events;
      current := current + {candidate.key};
      if candidate.key !in before {
        events := events + [candidate];
      }
    }
    assert sorted[..|sorted|] == sorted;
  }

  class AnomalyDetector {
    const config: DetectorConfig
    var observations: seq<Observation>
    var active: set<Key>
    var lastTimestamp: u64
    var hasTimestamp: bool

    ghost predicate Valid()
      reads this
    {
      && config.window != 0
      && Chronological(observations)
      && (observations != [] ==> hasTimestamp && observations[|observations| - 1].timestamp <= lastTimestamp)
    }

    constructor (config: DetectorConfig)
      requires config.window != 0
      ensures Valid() && this.config == config && observations == [] && active == {} && !hasTimestamp
    {
      this.config := config;
      observations, active, lastTimestamp, hasTimestamp := [], {}, 0, false;
    }

    /** A window of zero is refused, as the constructor's exception does. */
    static method Create(config: DetectorConfig) returns (r: Result<AnomalyDetector, DetectorError>)
      ensures r.Err? <==> config.window == 0
      ensures r.Ok? ==> fresh(r.value) && r.value.Valid() && r.value.config == config
                        && r.value.observations == [] && r.value.active == {} && !r.value.hasTimestamp
    {
      if config.window == 0 {
        return Err(ZeroWindow);
      }
      var detector := new AnomalyDetector(config);
      return Ok(detector);
    }

    method Expire(timestamp: u64)
      requires Chronological(observations)
      modifies this`observations
      ensures observations == Since(old(observations), Cutoff(timestamp, config.window))
      ensures Chronological(observations) && |observations| <= |old(observations)|
      ensures observations != [] ==> observations[|observations| - 1] == old(observations[|observations| - 1])
    {
      var cutoff := Cutoff(timestamp, config.window);
      while observations != [] && observations[0].timestamp < cutoff
        invariant Since(observations, cutoff) == Since(old(observations), cutoff)
        invariant |observations| <= |old(observations)|
        invariant observations == old(observations)[|old(observations)| - |observations|..]
        decreases |observations|
      {
        SinceWithoutFirst(observations, cutoff);
        observations := observations[1..];
      }
      SinceAll(observations, cutoff);
    }

    method Evaluate(packets: seq<PacketAnalysis>, timestamp: u64) returns (r: Result<seq<AnomalyEvent>, DetectorError>)
      requires Valid()
      modifies this
      ensures Valid()
      ensures r.Err? <==> old(hasTimestamp) && timestamp < old(lastTimestamp)
      ensures r.Err? ==> observations == old(observations) && active == old(active)
                         && lastTimestamp == old(lastTimestamp) && hasTimestamp == old(hasTimestamp)
      ensures r.Ok? ==>
                && hasTimestamp && lastTimestamp == timestamp
                && observations == Since(old(observations) + ObserveAll(packets, timestamp),
                                         Cutoff(timestamp, config.window))
                && Emits(observations, config, old(active), r.value, active)
    {
      hide Emits, Since, Cutoff, Observe, ObserveAll;
      if hasTimestamp && timestamp < lastTimestamp {
        return Err(TimestampsMustBeMonotonic);
      }
      hasTimestamp := true;
      lastTimestamp := timestamp;
      for i := 0 to |packets|
        invariant config.window != 0 && hasTimestamp && lastTimestamp == timestamp && active == old(active)
        invariant observations == old(observations) + ObserveAll(packets, timestamp)[..i]
        invariant NotAfter(observations, timestamp)
      {
        RecordNext(old(observations), packets, timestamp, i);
        observations := observations + [Observe(packets[i], timestamp)];
      }
      assert ObserveAll(packets, timestamp)[..|packets|] == ObserveAll(packets, timestamp);
      Expire(timestamp);
      var events, current := Report(observations, config, active);
      active := current;
      return Ok(events);
    }

    method Reset()
      requires Valid()
      modifies this
      ensures Valid() && observations == [] && active == {} && lastTimestamp == 0 && !hasTimestamp
    {
      observations, active, lastTimestamp, hasTimestamp := [], {}, 0, false;
    }
  }
}
