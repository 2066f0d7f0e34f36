/** The seven rules of src/anomaly_detector.cpp, each in its own terms: which packets of the window it counts, how it
    counts them, and which threshold it holds them to. */
module DetectorRules {
  import opened Words
  import opened Packets
  import opened DetectorWindow

  /** The places of the packets that meet a condition. */
  function Positions(window: seq<Observation>, keep: Observation -> bool): set<nat> {
    set i: nat | i < |window| && keep(window[i])
  }

  function Sum(window: seq<Observation>, keep: Observation -> bool): nat {
    if window == [] then 0
    else
      var last := window[|window| - 1];
      Sum(window[..|window| - 1], keep) + if keep(last) then last.frameLength else 0
  }

  /** The last of the packets that meet a condition came in through `port`. */
  predicate CameLastThrough(window: seq<Observation>, keep: Observation -> bool, port: u32) {
    exists i: nat :: i < |window| && keep(window[i]) && window[i].ingressPort == port
                     && forall j | i < j < |window| :: !keep(window[j])
  }

  /** `event` reports how many packets meet a condition, and how many bytes they are, which is too many. */
  predicate TooMany(window: seq<Observation>, event: AnomalyEvent, keep: Observation -> bool, threshold: u64) {
    && threshold != 0 && event.threshold == threshold
    && event.packets == |Positions(window, keep)| > threshold
    && event.bytes == Sum(window, keep) && event.destinations == 0
    && CameLastThrough(window, keep, event.key.ingressPort)
  }

  /** The places at which a packet came in through another port than the one before it. */
  function Moves(window: seq<Observation>, keep: Observation -> bool): set<nat> {
    set j: nat | j < |window| && MovesAt(window, keep, j)
  }

  predicate MovesAt(window: seq<Observation>, keep: Observation -> bool, j: nat)
    requires j < |window|
  {
    && keep(window[j])
    && exists port :: port != window[j].ingressPort && CameLastThrough(window[..j], keep, port)
  }

  /** Events come by kind in this order, then by address, and by port last. */
  lemma OrderExactly(a: Key, b: Key)
    ensures var kinds := [BroadcastStorm, MacFlap, UnknownUnicastFlood, UdpFlood, PortScan, HotTalker, MalformedFrame];
            && (forall i, j | 0 <= i < j < 7 && a.kind == kinds[i] && b.kind == kinds[j] :: KeyLess(a, b))
            && (a.kind == b.kind ==>
                  (KeyLess(a, b) <==>
                   || a.sourceMac < b.sourceMac
                   || (a.sourceMac == b.sourceMac && a.sourceIpv4 < b.sourceIpv4)
                   || (a.sourceMac == b.sourceMac && a.sourceIpv4 == b.sourceIpv4 && a.ingressPort < b.ingressPort)))
  {
  }

  // ---- members ----

  /** A condition is a rule's own for one group. */
  ghost predicate Is(keep: Observation -> bool, kind: AnomalyType, group: Group) {
    forall o :: keep(o) <==> Selects(kind, o) && GroupOf(kind, o) == group
  }

  /** Which packets are a group's, and in which order: `at` are their places. */
  lemma {:induction false} MembersAt(window: seq<Observation>, kind: AnomalyType, group: Group,
                                     keep: Observation -> bool) returns (at: seq<nat>)
    requires Is(keep, kind, group)
    ensures |at| == |Members(window, kind, group)|
    ensures forall k | 0 <= k < |at| :: at[k] < |window| && Members(window, kind, group)[k] == window[at[k]]
    ensures forall k, l | 0 <= k < l < |at| :: at[k] < at[l]
    ensures forall i: nat :: i in at <==> i in Positions(window, keep)
    ensures Bytes(Members(window, kind, group)) == Sum(window, keep)
  {
    hide Members, Bytes, Positions, Is;
    at := [];
    if window == [] {
      NoMembers(kind, group, keep);
    } else {
      var last := |window| - 1;
      at := MembersAt(window[..last], kind, group, keep);
      MembersNext(window, kind, group, keep);
      PositionsNext(window, keep);
      if keep(window[last]) {
        at := at + [last];
      }
    }
  }

  lemma NoMembers(kind: AnomalyType, group: Group, keep: Observation -> bool)
    ensures Members([], kind, group) == [] && Bytes([]) == 0 && Positions([], keep) == {} && Sum([], keep) == 0
  {
  }

  lemma MembersNext(window: seq<Observation>, kind: AnomalyType, group: Group, keep: Observation -> bool)
    requires Is(keep, kind, group) && window != []
    ensures var last := window[|window| - 1];
            var front := Members(window[..|window| - 1], kind, group);
            && Members(window, kind, group) == front + (if keep(last) then [last] else [])
            && Bytes(Members(window, kind, group)) == Bytes(front) + if keep(last) then last.frameLength else 0
  {
    hide Selects, GroupOf, Bytes;
    var front, last := Members(window[..|window| - 1], kind, group), window[|window| - 1];
    assert keep(last) <==> Selects(kind, last) && GroupOf(kind, last) == group;
    assert front + [] == front;
    BytesNext(front, last);
  }

  lemma BytesNext(front: seq<Observation>, last: Observation)
    ensures Bytes(front + [last]) == Bytes(front) + last.frameLength
  {
    assert (front + [last])[..|front|] == front;
  }

  lemma PositionsNext(window: seq<Observation>, keep: Observation -> bool)
    requires window != []
    ensures Positions(window, keep)
         == Positions(window[..|window| - 1], keep) + if keep(window[|window| - 1]) then {|window| - 1} else {}
  {
  }

  lemma {:induction false} DistinctCount(at: seq<nat>, all: set<nat>)
    requires forall k, l | 0 <= k < l < |at| :: at[k] < at[l]
    requires forall i: nat :: i in at <==> i in all
    ensures |at| == |all|
    decreases |at|
  {
    if at == [] {
      assert all == {};
    } else {
      var last := at[|at| - 1];
      var front := at[..|at| - 1];
      assert last in at;
      forall i: nat
        ensures i in front <==> i in all - {last}
      {
        assert i in at <==> i in front || i == last;
      }
      DistinctCount(front, all - {last});
    }
  }

  lemma MembersCounted(window: seq<Observation>, kind: AnomalyType, group: Group, keep: Observation -> bool)
    requires Is(keep, kind, group)
    ensures var members := Members(window, kind, group);
            && |members| == |Positions(window, keep)| && Bytes(members) == Sum(window, keep)
            && (members == [] ==> forall port :: !CameLastThrough(window, keep, port))
            && (members != [] ==>
                  forall port :: CameLastThrough(window, keep, port) <==> port == members[|members| - 1].ingressPort)
  {
    hide Members, Selects, GroupOf, Bytes, Sum, Is;
    var members := Members(window, kind, group);
    var at := MembersAt(window, kind, group, keep);
    DistinctCount(at, Positions(window, keep));
    if members != [] {
      LastPlace(window, keep, at);
    } else {
      forall port
        ensures !CameLastThrough(window, keep, port)
      {
        assert forall i: nat | i < |window| && keep(window[i]) :: i in Positions(window, keep);
      }
    }
  }

  lemma LastPlace(window: seq<Observation>, keep: Observation -> bool, at: seq<nat>)
    requires at != [] && forall k | 0 <= k < |at| :: at[k] < |window|
    requires forall k, l | 0 <= k < l < |at| :: at[k] < at[l]
    requires forall i: nat :: i in at <==> i in Positions(window, keep)
    ensures forall port ::
              CameLastThrough(window, keep, port) <==> port == window[at[|at| - 1]].ingressPort
  {
    var last := at[|at| - 1];
    assert last in at && last in Positions(window, keep);
    forall j | last < j < |window|
      ensures !keep(window[j])
    {
      assert j !in at;
      assert j !in Positions(window, keep);
    }
  }

  /** A rule that counts packets raises exactly the events that report too many of them. */
  lemma CountingRule(window: seq<Observation>, config: DetectorConfig, event: AnomalyEvent, group: Group,
                     keep: Observation -> bool)
    requires event.key.kind !in {MacFlap, PortScan} && Is(keep, event.key.kind, group)
    requires event.key.sourceMac == group.mac && event.key.sourceIpv4 == group.ip
    ensures Against(window, config, event.key.kind, group, event) <==>
            && TooMany(window, event, keep, Threshold(event.key.kind, config)) && event.window == config.window
  {
    hide Members, Bytes, Sum, Is, Positions, CameLastThrough, Threshold;
    MembersCounted(window, event.key.kind, group, keep);
  }

  /** An event's key names the only group it can be held against. */
  lemma OnlyGroup(window: seq<Observation>, config: DetectorConfig, event: AnomalyEvent)
    ensures var group := if event.key.kind == MalformedFrame then Group(0, 0, event.key.ingressPort)
                         else Group(event.key.sourceMac, event.key.sourceIpv4, 0);
            Candidate(window, config, event) <==> Against(window, config, event.key.kind, group, event)
  {
    hide Members, Exceeds, Selects, GroupOf, Transitions, Bytes, DestinationPorts;
    if Candidate(window, config, event) {
      var kind, group :| Against(window, config, kind, group, event);
      GroupFromKey(window, kind, group);
    }
  }

  /** No packet belongs to a group that its rule never makes. */
  lemma NoSuchGroup(window: seq<Observation>, config: DetectorConfig, kind: AnomalyType, group: Group,
                    event: AnomalyEvent)
    requires forall o :: GroupOf(kind, o) != group
    ensures !Against(window, config, kind, group, event)
  {
    hide Members, GroupOf, Evidence;
    MembersSelected(window, kind, group);
    SomeMember(Members(window, kind, group));
  }

  lemma SomeMember(members: seq<Observation>)
    ensures members == [] || exists o :: o in members
  {
    assert members == [] || members[0] in members;
  }

  // ---- the rules ----

  function BroadcastsOf(mac: Mac): Observation -> bool {
    (o: Observation) => o.classification == Broadcast && o.sourceMac == mac
  }

  /** More broadcasts from one address than the threshold. */
  lemma BroadcastStormExactly(window: seq<Observation>, config: DetectorConfig, event: AnomalyEvent)
    requires event.key.kind == BroadcastStorm
    ensures Candidate(window, config, event) <==>
            && event.key.sourceIpv4 == 0 && event.window == config.window
            && TooMany(window, event, BroadcastsOf(event.key.sourceMac), config.broadcastPackets)
  {
    ByAddress(window, config, event, BroadcastsOf(event.key.sourceMac));
  }

  function UnknownUnicastsOf(mac: Mac): Observation -> bool {
    (o: Observation) => o.classification == UnknownUnicast && o.sourceMac == mac
  }

  /** More frames to unknown addresses from one address than the threshold. */
  lemma UnknownUnicastFloodExactly(window: seq<Observation>, config: DetectorConfig, event: AnomalyEvent)
    requires event.key.kind == UnknownUnicastFlood
    ensures Candidate(window, config, event) <==>
            && event.key.sourceIpv4 == 0 && event.window == config.window
            && TooMany(window, event, UnknownUnicastsOf(event.key.sourceMac), config.unknownUnicastPackets)
  {
    ByAddress(window, config, event, UnknownUnicastsOf(event.key.sourceMac));
  }

  function WellFormedOf(mac: Mac): Observation -> bool {
    (o: Observation) => o.validity == Valid && o.sourceMac == mac
  }

  /** More valid packets from one address than the threshold. */
  lemma HotTalkerExactly(window: seq<Observation>, config: DetectorConfig, event: AnomalyEvent)
    requires event.key.kind == HotTalker
    ensures Candidate(window, config, event) <==>
            && event.key.sourceIpv4 == 0 && event.window == config.window
            && TooMany(window, event, WellFormedOf(event.key.sourceMac), config.hotTalkerPackets)
  {
    ByAddress(window, config, event, WellFormedOf(event.key.sourceMac));
  }

  lemma ByAddress(window: seq<Observation>, config: DetectorConfig, event: AnomalyEvent, keep: Observation -> bool)
    requires event.key.kind in {BroadcastStorm, UnknownUnicastFlood, HotTalker}
    requires Is(keep, event.key.kind, Group(event.key.sourceMac, 0, 0))
    ensures Candidate(window, config, event) <==>
            && event.key.sourceIpv4 == 0 && event.window == config.window
            && TooMany(window, event, keep, Threshold(event.key.kind, config))
  {
    hide Against, TooMany, Threshold, Is;
    OnlyGroup(window, config, event);
    var group := Group(event.key.sourceMac, event.key.sourceIpv4, 0);
    if event.key.sourceIpv4 == 0 {
      CountingRule(window, config, event, group, keep);
    } else {
      NoSuchGroup(window, config, event.key.kind, group, event);
    }
  }

  function DatagramsOf(ip: u32): Observation -> bool {
    (o: Observation) => o.validity == Valid && o.protocol == 17 && o.sourceIpv4 == ip
  }

  /** More valid UDP packets from one IPv4 address than the threshold. */
  lemma UdpFloodExactly(window: seq<Observation>, config: DetectorConfig, event: AnomalyEvent)
    requires event.key.kind == UdpFlood
    ensures Candidate(window, config, event) <==>
            && event.key.sourceMac == 0 && event.window == config.window
            && TooMany(window, event, DatagramsOf(event.key.sourceIpv4), config.udpPackets)
  {
    hide Against, TooMany;
    OnlyGroup(window, config, event);
    var group := Group(event.key.sourceMac, event.key.sourceIpv4, 0);
    if event.key.sourceMac == 0 {
      CountingRule(window, config, event, group, DatagramsOf(event.key.sourceIpv4));
    } else {
      NoSuchGroup(window, config, UdpFlood, group, event);
    }
  }

  function DefectiveAt(port: u32): Observation -> bool {
    (o: Observation) => o.validity != Valid && o.ingressPort == port
  }

  /** More malformed packets through one port than the threshold. */
  lemma MalformedFrameExactly(window: seq<Observation>, config: DetectorConfig, event: AnomalyEvent)
    requires event.key.kind == MalformedFrame
    ensures Candidate(window, config, event) <==>
            && event.key.sourceMac == 0 && event.key.sourceIpv4 == 0 && event.window == config.window
            && TooMany(window, event, DefectiveAt(event.key.ingressPort), config.malformedFrames)
  {
    hide Against, TooMany;
    OnlyGroup(window, config, event);
    var group := Group(0, 0, event.key.ingressPort);
    if event.key.sourceMac == 0 && event.key.sourceIpv4 == 0 {
      CountingRule(window, config, event, group, DefectiveAt(event.key.ingressPort));
    } else if Against(window, config, MalformedFrame, group, event) {
      KeyOfGroup(window, config, event);
    }
  }

  lemma KeyOfGroup(window: seq<Observation>, config: DetectorConfig, event: AnomalyEvent)
    requires event.key.kind == MalformedFrame
    requires Against(window, config, MalformedFrame, Group(0, 0, event.key.ingressPort), event)
    ensures event.key.sourceMac == 0 && event.key.sourceIpv4 == 0
  {
    hide Members;
  }

  function SegmentsOf(ip: u32): Observation -> bool {
    (o: Observation) => o.validity == Valid && (o.protocol == 6 || o.protocol == 17) && o.sourceIpv4 == ip
  }

  /** More distinct destination ports in TCP and UDP packets from one IPv4 address than the threshold. */
  lemma PortScanExactly(window: seq<Observation>, config: DetectorConfig, event: AnomalyEvent)
    requires event.key.kind == PortScan
    ensures var keep := SegmentsOf(event.key.sourceIpv4);
            Candidate(window, config, event) <==>
            && event.key.sourceMac == 0 && event.window == config.window
            && config.portScanDestinations != 0 && event.threshold == config.portScanDestinations
            && event.packets == 0 && event.bytes == 0
            && event.destinations == |set i: nat | i < |window| && keep(window[i]) :: window[i].destinationPort|
               > config.portScanDestinations
            && CameLastThrough(window, keep, event.key.ingressPort)
  {
    hide Members, Positions, CameLastThrough, Bytes;
    OnlyGroup(window, config, event);
    var group, keep := Group(event.key.sourceMac, event.key.sourceIpv4, 0), SegmentsOf(event.key.sourceIpv4);
    if event.key.sourceMac == 0 {
      MembersCounted(window, PortScan, group, keep);
      PortsOfMembers(window, PortScan, group, keep);
    } else {
      NoSuchGroup(window, config, PortScan, group, event);
    }
  }

  lemma PortsOfMembers(window: seq<Observation>, kind: AnomalyType, group: Group, keep: Observation -> bool)
    requires Is(keep, kind, group)
    ensures DestinationPorts(Members(window, kind, group))
         == set i: nat | i < |window| && keep(window[i]) :: window[i].destinationPort
  {
    hide Members, Is;
    var members := Members(window, kind, group);
    var at := MembersAt(window, kind, group, keep);
    forall i: nat | i < |window| && keep(window[i])
      ensures window[i].destinationPort in DestinationPorts(members)
    {
      assert i in Positions(window, keep);
      var k :| 0 <= k < |at| && at[k] == i;
    }
    forall k | 0 <= k < |members|
      ensures members[k].destinationPort
           in set i: nat | i < |window| && keep(window[i]) :: window[i].destinationPort
    {
      assert at[k] in at;
      assert at[k] in Positions(window, keep);
    }
  }

  function AddressedFrom(mac: Mac): Observation -> bool {
    (o: Observation) => o.classification != Malformed && o.sourceMac == mac
  }

  /** One address came in through another port than the time before more often than the threshold. */
  lemma MacFlapExactly(window: seq<Observation>, config: DetectorConfig, event: AnomalyEvent)
    requires event.key.kind == MacFlap
    ensures var keep := AddressedFrom(event.key.sourceMac);
            Candidate(window, config, event) <==>
            && event.key.sourceIpv4 == 0 && event.window == config.window
            && config.macFlapTransitions != 0 && event.threshold == config.macFlapTransitions
            && event.packets == |Moves(window, keep)| > config.macFlapTransitions
            && event.bytes == 0 && event.destinations == 0
            && CameLastThrough(window, keep, event.key.ingressPort)
  {
    hide Members, Positions, CameLastThrough, Moves, Transitions, Bytes;
    OnlyGroup(window, config, event);
    var group, keep := Group(event.key.sourceMac, event.key.sourceIpv4, 0), AddressedFrom(event.key.sourceMac);
    if event.key.sourceIpv4 == 0 {
      MembersCounted(window, MacFlap, group, keep);
      TransitionsAreMoves(window, MacFlap, group, keep);
    } else {
      NoSuchGroup(window, config, MacFlap, group, event);
    }
  }

  lemma {:induction false} TransitionsAreMoves(window: seq<Observation>, kind: AnomalyType, group: Group,
                                               keep: Observation -> bool)
    requires Is(keep, kind, group)
    ensures Transitions(IngressPorts(Members(window, kind, group))) == |Moves(window, keep)|
  {
    hide CameLastThrough, Members, Bytes, Transitions, Is, Moves;
    if window == [] {
      NoMembers(kind, group, keep);
      NoMoves(keep);
    } else {
      var last := |window| - 1;
      var front := window[..last];
      TransitionsAreMoves(front, kind, group, keep);
      MovesNext(window, keep);
      MembersNext(window, kind, group, keep);
      MembersCounted(front, kind, group, keep);
      var members := Members(front, kind, group);
      assert members + [] == members;
      TransitionsNext(members, window[last]);
      if members != [] {
        assert CameLastThrough(front, keep, members[|members| - 1].ingressPort);
      }
    }
  }

  lemma NoMoves(keep: Observation -> bool)
    ensures Moves([], keep) == {} && Transitions(IngressPorts([])) == 0
  {
  }

  lemma TransitionsNext(members: seq<Observation>, last: Observation)
    ensures Transitions(IngressPorts(members + [last])) == Transitions(IngressPorts(members))
            + if members != [] && members[|members| - 1].ingressPort != last.ingressPort then 1 else 0
  {
    var ports := IngressPorts(members);
    assert IngressPorts(members + [last]) == ports + [last.ingressPort];
    assert (ports + [last.ingressPort])[..|ports|] == ports;
  }

  /** The last packet moves if it is kept and the packet kept before it came in through another port. */
  lemma MovesNext(window: seq<Observation>, keep: Observation -> bool)
    requires window != []
    ensures var last := |window| - 1;
            var front := window[..last];
            |Moves(window, keep)| == |Moves(front, keep)|
            + if MovesAt(window, keep, last) then 1 else 0
  {
    hide CameLastThrough;
    var last := |window| - 1;
    var front := window[..last];
    assert forall j | 0 <= j < last :: front[..j] == window[..j];
    assert Moves(window, keep) - {last} == Moves(front, keep);
    assert last in Moves(window, keep) <==> MovesAt(window, keep, last);
  }
}
