/** What the anomaly detector of src/anomaly_detector.cpp means: the packets of the last window, grouped by
    rule and source, and the groups that exceed their rule's threshold. */
module DetectorWindow {
  import opened Arith
  import opened Words
  import opened Packets

  datatype AnomalyType =
    | BroadcastStorm
    | MacFlap
    | UnknownUnicastFlood
    | UdpFlood
    | PortScan
    | HotTalker
    | MalformedFrame

  datatype DetectorConfig = DetectorConfig(
    window: u64,
    broadcastPackets: u64,
    macFlapTransitions: u64,
    unknownUnicastPackets: u64,
    udpPackets: u64,
    portScanDestinations: u64,
    hotTalkerPackets: u64,
    malformedFrames: u64)

  /** What identifies an anomaly while it lasts. */
  datatype Key = Key(kind: AnomalyType, sourceMac: Mac, sourceIpv4: u32, ingressPort: u32)

  datatype AnomalyEvent = AnomalyEvent(
    key: Key,
    packets: nat,
    bytes: nat,
    destinations: nat,
    threshold: u64,
    window: u64)

  datatype Observation = Observation(
    timestamp: u64,
    sourceMac: Mac,
    sourceIpv4: u32,
    destinationPort: u16,
    frameLength: u16,
    ingressPort: u32,
    protocol: u8,
    classification: Classification,
    validity: Validity)

  function Observe(packet: PacketAnalysis, timestamp: u64): Observation {
    Observation(timestamp, packet.sourceMac, packet.sourceIpv4, packet.destinationPort, packet.frameLength,
                packet.ingressPort, packet.protocol, packet.classification, packet.validity)
  }

  function ObserveAll(packets: seq<PacketAnalysis>, timestamp: u64): (observed: seq<Observation>)
    ensures |observed| == |packets|
    ensures forall i | 0 <= i < |packets| :: observed[i] == Observe(packets[i], timestamp)
  {
    seq(|packets|, i requires 0 <= i < |packets| => Observe(packets[i], timestamp))
  }

  // ---- the window ----

  function Cutoff(now: u64, window: u64): u64 {
    if now > window then now - window else 0
  }

  /** The observations not older than `cutoff`. */
  function Since(history: seq<Observation>, cutoff: u64): seq<Observation> {
    if history == [] then []
    else
      var last := history[|history| - 1];
      Since(history[..|history| - 1], cutoff) + if last.timestamp >= cutoff then [last] else []
  }

  /** The observations at most `window` old. */
  function Recent(history: seq<Observation>, now: u64, window: u64): seq<Observation> {
    if history == [] then []
    else
      var last := history[|history| - 1];
      Recent(history[..|history| - 1], now, window) + if last.timestamp + window >= now then [last] else []
  }

  lemma {:induction false} SinceIsRecent(history: seq<Observation>, now: u64, window: u64)
    ensures Since(history, Cutoff(now, window)) == Recent(history, now, window)
  {
    if history != [] {
      SinceIsRecent(history[..|history| - 1], now, window);
    }
  }

  /** Exactly the observations at most `window` old are recent, each as often as it came and in that order: `at` are
      their places in the history. */
  lemma {:induction false} RecentExactly(history: seq<Observation>, now: u64, window: u64) returns (at: seq<nat>)
    ensures |at| == |Recent(history, now, window)|
    ensures forall k | 0 <= k < |at| :: at[k] < |history| && Recent(history, now, window)[k] == history[at[k]]
    ensures forall k, l | 0 <= k < l < |at| :: at[k] < at[l]
    ensures forall i: nat | i < |history| :: i in at <==> history[i].timestamp + window >= now
  {
    hide Recent;
    at := [];
    RecentNext(history, now, window);
    if history != [] {
      var last := |history| - 1;
      var before := RecentExactly(history[..last], now, window);
      assert forall k | 0 <= k < |before| :: history[..last][before[k]] == history[before[k]];
      at := before + if history[last].timestamp + window >= now then [last] else [];
      forall i: nat | i < |history|
        ensures i in at <==> history[i].timestamp + window >= now
      {
        assert i in at <==> i in before || (i == last && history[i].timestamp + window >= now);
        assert i < last ==> history[..last][i] == history[i];
      }
    }
  }

  lemma RecentNext(history: seq<Observation>, now: u64, window: u64)
    ensures Recent([], now, window) == []
    ensures history != [] ==>
              var last := history[|history| - 1];
              Recent(history, now, window) == Recent(history[..|history| - 1], now, window)
              + if last.timestamp + window >= now then [last] else []
  {
  }

  // ---- groups ----

  /** The source a rule counts by: a MAC address, an IPv4 address, or an ingress port. */
  datatype Group = Group(mac: Mac, ip: u32, port: u32)

  predicate Selects(kind: AnomalyType, o: Observation) {
    match kind
    case BroadcastStorm => o.classification == Broadcast
    case UnknownUnicastFlood => o.classification == UnknownUnicast
    case UdpFlood => o.validity == Valid && o.protocol == UDP
    case PortScan => o.validity == Valid && (o.protocol == TCP || o.protocol == UDP)
    case MacFlap => o.classification != Malformed
    case HotTalker => o.validity == Valid
    case MalformedFrame => o.validity != Valid
  }

  function GroupOf(kind: AnomalyType, o: Observation): Group {
    match kind
    case UdpFlood => Group(0, o.sourceIpv4, 0)
    case PortScan => Group(0, o.sourceIpv4, 0)
    case MalformedFrame => Group(0, 0, o.ingressPort)
    case _ => Group(o.sourceMac, 0, 0)
  }

  /** The observations a rule counts for one group. */
  function Members(window: seq<Observation>, kind: AnomalyType, group: Group): seq<Observation> {
    if window == [] then []
    else
      var last := window[|window| - 1];
      Members(window[..|window| - 1], kind, group)
      + if Selects(kind, last) && GroupOf(kind, last) == group then [last] else []
  }

  function Bytes(members: seq<Observation>): nat {
    if members == [] then 0 else Bytes(members[..|members| - 1]) + members[|members| - 1].frameLength
  }

  function DestinationPorts(members: seq<Observation>): set<u16> {
    set i | 0 <= i < |members| :: members[i].destinationPort
  }

  function IngressPorts(members: seq<Observation>): (ports: seq<u32>)
    ensures |ports| == |members|
  {
    seq(|members|, i requires 0 <= i < |members| => members[i].ingressPort)
  }

  /** How often consecutive entries differ. */
  function Transitions(ports: seq<u32>): nat {
    if |ports| < 2 then 0
    else Transitions(ports[..|ports| - 1]) + if ports[|ports| - 1] != ports[|ports| - 2] then 1 else 0
  }

  function Threshold(kind: AnomalyType, config: DetectorConfig): u64 {
    match kind
    case BroadcastStorm => config.broadcastPackets
    case MacFlap => config.macFlapTransitions
    case UnknownUnicastFlood => config.unknownUnicastPackets
    case UdpFlood => config.udpPackets
    case PortScan => config.portScanDestinations
    case HotTalker => config.hotTalkerPackets
    case MalformedFrame => config.malformedFrames
  }

  /** What the members of a group are evidence of; the key carries their latest ingress port. */
  function Evidence(kind: AnomalyType, group: Group, members: seq<Observation>, config: DetectorConfig): AnomalyEvent
    requires members != []
  {
    var key := Key(kind, group.mac, group.ip, members[|members| - 1].ingressPort);
    match kind
    case MacFlap => AnomalyEvent(key, Transitions(IngressPorts(members)), 0, 0, Threshold(kind, config), config.window)
    case PortScan => AnomalyEvent(key, 0, 0, |DestinationPorts(members)|, Threshold(kind, config), config.window)
    case _ => AnomalyEvent(key, |members|, Bytes(members), 0, Threshold(kind, config), config.window)
  }

  /** A threshold of zero disables a rule. */
  predicate Exceeds(event: AnomalyEvent) {
    event.threshold != 0 && (event.packets > event.threshold || event.destinations > event.threshold)
  }

  /** `event` is what the window holds against one group, and it exceeds the rule's threshold. */
  predicate Against(window: seq<Observation>, config: DetectorConfig, kind: AnomalyType, group: Group,
                    event: AnomalyEvent)
  {
    var members := Members(window, kind, group);
    members != [] && event == Evidence(kind, group, members, config) && Exceeds(event)
  }

  ghost predicate Candidate(window: seq<Observation>, config: DetectorConfig, event: AnomalyEvent) {
    exists kind, group :: Against(window, config, kind, group, event)
  }

  // ---- order of events ----

  function Rank(kind: AnomalyType): nat {
    match kind
    case BroadcastStorm => 0
    case MacFlap => 1
    case UnknownUnicastFlood => 2
    case UdpFlood => 3
    case PortScan => 4
    case HotTalker => 5
    case MalformedFrame => 6
  }

  predicate KeyLess(a: Key, b: Key) {
    if a.kind != b.kind then Rank(a.kind) < Rank(b.kind)
    else if a.sourceMac != b.sourceMac then a.sourceMac < b.sourceMac
    else if a.sourceIpv4 != b.sourceIpv4 then a.sourceIpv4 < b.sourceIpv4
    else a.ingressPort < b.ingressPort
  }

  predicate StrictlySorted(events: seq<AnomalyEvent>) {
    forall i, j | 0 <= i < j < |events| :: KeyLess(events[i].key, events[j].key)
  }

  /** A group is a kind's own part of a key, so one group has one key. */
  lemma GroupFromKey(window: seq<Observation>, kind: AnomalyType, group: Group)
    requires Members(window, kind, group) != []
    ensures var members := Members(window, kind, group);
            var last := members[|members| - 1];
            group == if kind == MalformedFrame then Group(0, 0, last.ingressPort) else Group(group.mac, group.ip, 0)
  {
    MembersSelected(window, kind, group);
  }

  lemma {:induction false} MembersSelected(window: seq<Observation>, kind: AnomalyType, group: Group)
    ensures forall o | o in Members(window, kind, group) ::
              Selects(kind, o) && GroupOf(kind, o) == group && o in window
  {
    if window != [] {
      MembersSelected(window[..|window| - 1], kind, group);
    }
  }

  /** One group, so one event, per key. */
  lemma OneGroupPerKey(window: seq<Observation>, config: DetectorConfig,
                       k: AnomalyType, g: Group, a: AnomalyEvent, l: AnomalyType, h: Group, b: AnomalyEvent)
    requires Against(window, config, k, g, a) && Against(window, config, l, h, b) && a.key == b.key
    ensures k == l && g == h && a == b
  {
    hide Members, Transitions, Bytes, DestinationPorts;
    GroupFromKey(window, k, g);
    GroupFromKey(window, l, h);
  }

  /** A strictly sorted list is determined by what is in it. */
  lemma {:induction false} SortedListsAgree(a: seq<AnomalyEvent>, b: seq<AnomalyEvent>)
    requires StrictlySorted(a) && StrictlySorted(b)
    requires forall e :: e in a <==> e in b
    ensures a == b
    decreases |a|
  {
    assert b != [] ==> b[0] in b;
    if a != [] {
      assert a[0] in b && b != [];
      assert b[0] in a;
      assert a[0] == b[0];
      forall e
        ensures e in a[1..] <==> e in b[1..]
      {
        RestWithoutFirst(a, e);
        RestWithoutFirst(b, e);
      }
      SortedListsAgree(a[1..], b[1..]);
    }
  }

  lemma RestWithoutFirst(a: seq<AnomalyEvent>, e: AnomalyEvent)
    requires a != [] && StrictlySorted(a)
    ensures e in a[1..] <==> e in a && e != a[0]
  {
  }

  predicate EventLess(a: AnomalyEvent, b: AnomalyEvent) {
    KeyLess(a.key, b.key)
  }

  lemma KeyLessTotal(a: Key, b: Key)
    ensures a == b || KeyLess(a, b) || KeyLess(b, a)
    ensures !(KeyLess(a, b) && KeyLess(b, a))
  {
  }

  // ---- emission ----

  /** What one evaluation reports: the candidates whose key was not a candidate's before, each once, in
      key order; and the keys it remembers. */
  ghost predicate Emits(window: seq<Observation>, config: DetectorConfig, before: set<Key>,
                        events: seq<AnomalyEvent>, after: set<Key>) {
    && StrictlySorted(events)
    && (forall e :: e in events <==> Candidate(window, config, e) && e.key !in before)
    && (forall k :: k in after <==> exists e :: Candidate(window, config, e) && e.key == k)
  }

  /** The report and the memory are determined by the window and the earlier memory. */
  lemma EmissionUnique(window: seq<Observation>, config: DetectorConfig, before: set<Key>,
                       a: seq<AnomalyEvent>, x: set<Key>, b: seq<AnomalyEvent>, y: set<Key>)
    requires Emits(window, config, before, a, x) && Emits(window, config, before, b, y)
    ensures a == b && x == y
  {
    SortedListsAgree(a, b);
  }
}
