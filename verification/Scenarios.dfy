/** What each traffic scenario sends, as a receiver parses it. */
module Scenarios {
  import opened Arith
  import opened Words
  import Random
  import opened Packets
  import opened PacketParser
  import opened TrafficGenerator

  /** The scenario whose turn it is: a mixed run goes round the three benign ones. */
  predicate InTurn(config: TrafficConfig, sequence: u64, scenario: TrafficScenario) {
    || (config.scenario == scenario && scenario != MixedTraffic)
    || (config.scenario == MixedTraffic
        && (|| (scenario == KnownUnicastTraffic && sequence % 3 == 0)
            || (scenario == BroadcastTraffic && sequence % 3 == 1)
            || (scenario == UnknownUnicastTraffic && sequence % 3 == 2)))
  }

  /** The address of a host: 02:57:4c and the last three bytes of its number. */
  predicate IsHost(mac: Mac, host: nat) {
    mac == 0x0257_4c00_0000 + host % 0x100_0000
  }

  /** One frame of the benign scenarios goes from the host whose turn it is, over IPv4 without a transport: to the next
      host, to everybody, or to an address that no host has. */
  lemma BenignExactly(config: TrafficConfig, sequence: u64, ingress: u32)
    requires 34 <= config.frameSize <= LARGEST_IPV4_FRAME && config.hostCount >= 2
    ensures var a := ParsePacket(PacketView(TrafficFrame(config, sequence), ingress));
            var source, next := sequence % config.hostCount, (sequence + 1) % config.hostCount;
            && (InTurn(config, sequence, KnownUnicastTraffic) ==> IsHost(a.destinationMac, next))
            && (InTurn(config, sequence, BroadcastTraffic) ==> a.destinationMac == 0xffff_ffff_ffff)
            && (InTurn(config, sequence, UnknownUnicastTraffic) ==> a.destinationMac / 0x1_0000_0000 == 0x02fe)
            && (|| InTurn(config, sequence, KnownUnicastTraffic) || InTurn(config, sequence, BroadcastTraffic)
                || InTurn(config, sequence, UnknownUnicastTraffic) ==>
                  && a.validity == Valid && a.ethertype == 0x0800 && a.protocol == 0
                  && IsHost(a.sourceMac, source)
                  && a.sourceIpv4 == 0x0a00_0000 + source % 0x1_0000
                  && a.destinationIpv4 == 0x0a00_0000 + next % 0x1_0000)
  {
    hide TrafficFrame, ParsePacket, Random.Draw, StartState;
    FramesParse(config, sequence, ingress);
    NextInTurn(sequence, config.hostCount);
  }

  lemma NextInTurn(sequence: nat, hosts: nat)
    requires hosts >= 2
    ensures (sequence % hosts + 1) % hosts == (sequence + 1) % hosts
  {
    Division(sequence, hosts);
    var q, r := sequence / hosts, sequence % hosts;
    if r + 1 == hosts {
      assert (q + 1) * hosts == q * hosts + hosts;
      QuotientUnique(sequence + 1, hosts, q + 1, 0);
      QuotientUnique(r + 1, hosts, 1, 0);
    } else {
      QuotientUnique(sequence + 1, hosts, q, r + 1);
      QuotientUnique(r + 1, hosts, 0, r + 1);
    }
  }

  /** One frame of an attack is UDP where its header fits: a flood from one host to port 9000 of another, a scan of it
      port by port, or a storm of at most three hosts to everybody. */
  lemma AttacksExactly(config: TrafficConfig, sequence: u64, ingress: u32)
    requires 34 <= config.frameSize <= LARGEST_IPV4_FRAME && config.hostCount >= 2
    requires config.scenario in {UdpFloodTraffic, PortScanTraffic, BroadcastStormTraffic}
    ensures var a := ParsePacket(PacketView(TrafficFrame(config, sequence), ingress));
            && a.validity == Valid && a.ethertype == 0x0800
            && (config.frameSize < 42 ==> a.protocol == 0 && a.sourcePort == 0 && a.destinationPort == 0)
            && (config.frameSize >= 42 ==>
                  && a.protocol == 17
                  && (config.scenario == UdpFloodTraffic ==> a.sourcePort >= 0xc000 && a.destinationPort == 9000)
                  && (config.scenario == PortScanTraffic ==>
                        a.sourcePort == 44444 && a.destinationPort == 1 + sequence % 1024)
                  && (config.scenario == BroadcastStormTraffic ==> a.sourcePort == 137 && a.destinationPort == 137))
            && (if config.scenario == BroadcastStormTraffic then
                  var host := sequence % if config.hostCount < 3 then config.hostCount else 3;
                  && a.destinationMac == 0xffff_ffff_ffff && IsHost(a.sourceMac, host)
                  && a.sourceIpv4 == 0x0a00_0000 + host && a.destinationIpv4 == 0x0a00_ffff
                else
                  && IsHost(a.sourceMac, 0) && IsHost(a.destinationMac, 1)
                  && a.sourceIpv4 == 0x0a00_0000 && a.destinationIpv4 == 0x0a00_0001)
  {
    hide TrafficFrame, ParsePacket, Shape, HostMac, HostIp, IsHost;
    FramesParse(config, sequence, ingress);
    AttackShape(config, sequence);
    HostIs(0);
    HostIs(1);
    HostIs(0xffff);
    StormHost(sequence, config.hostCount);
    HostIs(sequence % Min(config.hostCount, 3));
  }

  lemma StormHost(sequence: nat, hosts: nat)
    requires hosts >= 2
    ensures 0 <= sequence % Min(hosts, 3) < 3 && Min(hosts, 3) == if hosts < 3 then hosts else 3
  {
  }

  lemma HostIs(host: u32)
    requires host <= 0xffff
    ensures IsHost(HostMac(host), host) && HostIp(host) == 0x0a00_0000 + host
  {
  }

  lemma AttackShape(config: TrafficConfig, sequence: u64)
    requires config.hostCount >= 2
    requires config.scenario in {UdpFloodTraffic, PortScanTraffic, BroadcastStormTraffic}
    ensures var shape := Shape(config, sequence);
            && shape.udp
            && (config.scenario == UdpFloodTraffic ==> shape.sourcePort >= 0xc000 && shape.destinationPort == 9000)
            && (config.scenario == PortScanTraffic ==>
                  shape.sourcePort == 44444 && shape.destinationPort == 1 + sequence % 1024)
            && (config.scenario == BroadcastStormTraffic ==>
                  var host := sequence % Min(config.hostCount, 3);
                  && shape.sourcePort == shape.destinationPort == 137
                  && shape.sourceMac == HostMac(host) && shape.sourceHost == host
                  && shape.destinationMac == 0xffff_ffff_ffff && shape.destinationHost == 0xffff)
            && (config.scenario != BroadcastStormTraffic ==>
                  && shape.sourceMac == HostMac(0) && shape.sourceHost == 0
                  && shape.destinationMac == HostMac(1) && shape.destinationHost == 1)
  {
    hide HostMac, Random.Draw, StartState;
  }
}
