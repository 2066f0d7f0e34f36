/** Generator, parser and detector together: a port-scan run raises the port-scan anomaly exactly when the ports
    it can reach exceed the threshold. */
module PortScan {
  import opened Arith
  import opened Words
  import Random
  import opened Packets
  import opened PacketParser
  import opened DetectorWindow
  import opened Detector
  import opened TrafficGenerator
  import opened TrafficWriter

  function ScannedPort(first: nat, i: nat): u16 {
    1 + (first + i) % PORT_SCAN_PORTS
  }

  /** The ports that `n` consecutive frames address. */
  function ScannedPorts(first: nat, n: nat): set<u16> {
    if n == 0 then {} else ScannedPorts(first, n - 1) + {ScannedPort(first, n - 1)}
  }

  lemma {:induction false} ScannedBy(first: nat, n: nat, port: u16)
    ensures port in ScannedPorts(first, n) <==> exists i: nat :: i < n && ScannedPort(first, i) == port
    decreases n
  {
    hide ScannedPort;
    if n > 0 {
      ScannedBy(first, n - 1, port);
    }
  }

  /** The ports march through all of them before any comes again. */
  lemma {:induction false} ScannedCount(first: nat, n: nat)
    ensures |ScannedPorts(first, n)| == Min(n, PORT_SCAN_PORTS)
    decreases n
  {
    hide ScannedPort;
    if n > 0 {
      var port := ScannedPort(first, n - 1);
      ScannedCount(first, n - 1);
      ScannedBy(first, n - 1, port);
      if n <= PORT_SCAN_PORTS {
        forall i: nat | i < n - 1
          ensures ScannedPort(first, i) != port
        {
          PortsDiffer(first, i, n - 1);
        }
      } else {
        PortsRepeat(first, n - 1 - PORT_SCAN_PORTS);
        assert port in ScannedPorts(first, n - 1);
        assert ScannedPorts(first, n) == ScannedPorts(first, n - 1);
      }
    }
  }

  lemma PortsDiffer(first: nat, i: nat, j: nat)
    requires i < j < i + PORT_SCAN_PORTS
    ensures ScannedPort(first, i) != ScannedPort(first, j)
  {
  }

  lemma PortsRepeat(first: nat, i: nat)
    ensures ScannedPort(first, i) == ScannedPort(first, i + PORT_SCAN_PORTS)
  {
  }

  lemma CounterWraps(first: u64, i: nat)
    ensures 1 + (first + i) % TWO_64 % PORT_SCAN_PORTS == ScannedPort(first, i)
  {
    var n := first + i;
    var q, r := n / TWO_64, n % TWO_64;
    Division(n, TWO_64);
    Division(r, PORT_SCAN_PORTS);
    QuotientUnique(n, PORT_SCAN_PORTS, q * 0x40_0000_0000_0000 + r / PORT_SCAN_PORTS, r % PORT_SCAN_PORTS);
  }

  lemma ScanShape(config: TrafficConfig, sequence: u64)
    requires config.scenario == PortScanTraffic && config.hostCount >= 2
    ensures Shape(config, sequence)
         == FrameShape(HostMac(1), HostMac(0), 0, 1, true, 44444, 1 + sequence % PORT_SCAN_PORTS)
  {
    hide Random.Draw, StartState;
  }

  /** What a packet of a port scan says, however it was classified. */
  predicate IsScanPacket(p: PacketAnalysis, port: u16) {
    && p.validity == Valid && p.protocol == UDP && p.sourceIpv4 == HostIp(0) && p.destinationPort == port
  }

  lemma ScanFrames(config: TrafficConfig, first: u64, i: nat, ingress: u32)
    requires config.scenario == PortScanTraffic && config.hostCount >= 2 && 42 <= config.frameSize <= LARGEST_IPV4_FRAME
    ensures IsScanPacket(ParsePacket(PacketView(FrameAt(config, first, i), ingress)), ScannedPort(first, i))
  {
    hide TrafficFrame, ParsePacket, Shape, HostMac, HostIp, ScannedPort;
    var sequence := (first + i) % TWO_64;
    FramesParse(config, sequence, ingress);
    ScanShape(config, sequence);
    CounterWraps(first, i);
  }

  const SCANNER := Group(0, 0x0a00_0000, 0)

  /** All the packets are the scanner's, and nobody else's. */
  lemma {:induction false} ScannerMembers(window: seq<Observation>, group: Group)
    requires forall i | 0 <= i < |window| ::
               window[i].validity == Valid && window[i].protocol == UDP && window[i].sourceIpv4 == HostIp(0)
    ensures Members(window, AnomalyType.PortScan, group) == if group == SCANNER then window else []
  {
    if window != [] {
      ScannerMembers(window[..|window| - 1], group);
    }
  }

  /** `n` consecutive frames in one fresh window raise the anomaly exactly when the threshold is set and below
      the ports they reach. */
  lemma ScanRaised(config: TrafficConfig, first: u64, ingress: u32, packets: seq<PacketAnalysis>, timestamp: u64,
                   rules: DetectorConfig, events: seq<AnomalyEvent>, after: set<Key>)
    requires config.scenario == PortScanTraffic && config.hostCount >= 2 && 42 <= config.frameSize <= LARGEST_IPV4_FRAME
    requires forall i | 0 <= i < |packets| ::
               packets[i].(classification := Malformed) == ParsePacket(PacketView(FrameAt(config, first, i), ingress))
    requires Emits(Recent(ObserveAll(packets, timestamp), timestamp, rules.window), rules, {}, events, after)
    ensures (exists e :: e in events && e.key.kind == AnomalyType.PortScan) <==>
            rules.portScanDestinations != 0 && Min(|packets|, PORT_SCAN_PORTS) > rules.portScanDestinations
    ensures forall e | e in events && e.key.kind == AnomalyType.PortScan ::
              e.destinations == Min(|packets|, PORT_SCAN_PORTS) && e.key.sourceIpv4 == HostIp(0)
  {
    hide ParsePacket, FrameAt, Since, Recent, Members, DestinationPorts, ScannedPorts, ScannedPort;
    var window := ObserveAll(packets, timestamp);
    var n := |packets|;
    forall i | 0 <= i < n
      ensures window[i].validity == Valid && window[i].protocol == UDP && window[i].sourceIpv4 == HostIp(0)
      ensures window[i].destinationPort == ScannedPort(first, i)
    {
      ScanFrames(config, first, i, ingress);
    }
    SinceIsRecent(window, timestamp, rules.window);
    SinceAll(window, Cutoff(timestamp, rules.window));
    PortsOfWindow(window, first);
    ScannedCount(first, n);
    forall group
      ensures Members(window, AnomalyType.PortScan, group) == if group == SCANNER then window else []
    {
      ScannerMembers(window, group);
    }
    forall e | e in events && e.key.kind == AnomalyType.PortScan
      ensures window != [] && e == Evidence(AnomalyType.PortScan, SCANNER, window, rules) && Exceeds(e)
    {
      assert Candidate(window, rules, e);
      var kind, group :| Against(window, rules, kind, group, e);
    }
    if window != [] {
      var e := Evidence(AnomalyType.PortScan, SCANNER, window, rules);
      if Exceeds(e) {
        assert Against(window, rules, AnomalyType.PortScan, SCANNER, e);
        assert Candidate(window, rules, e);
        assert e in events;
      }
    }
  }

  lemma PortsOfWindow(window: seq<Observation>, first: u64)
    requires forall i | 0 <= i < |window| :: window[i].destinationPort == ScannedPort(first, i)
    ensures DestinationPorts(window) == ScannedPorts(first, |window|)
  {
    hide ScannedPort, ScannedPorts;
    forall port: u16
      ensures port in DestinationPorts(window) <==> port in ScannedPorts(first, |window|)
    {
      ScannedBy(first, |window|, port);
      if port in DestinationPorts(window) {
        var i: nat :| i < |window| && window[i].destinationPort == port;
        assert ScannedPort(first, i) == port;
      }
      if i: nat :| i < |window| && ScannedPort(first, i) == port {
        assert window[i].destinationPort == port;
      }
    }
  }
}
