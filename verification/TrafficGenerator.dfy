/** The deterministic frames of src/traffic_generator.cpp: a pure function of the configuration and a counter,
    written into a caller's buffer. */
module TrafficGenerator {
  import opened Arith
  import opened Words
  import opened Results
  import opened Random
  import opened Packets
  import opened PacketParser

  const PORT_SCAN_PORTS := 1024
  const LARGEST_IPV4_FRAME := 65549

  datatype TrafficScenario =
    | KnownUnicastTraffic
    | BroadcastTraffic
    | UnknownUnicastTraffic
    | MixedTraffic
    | UdpFloodTraffic
    | PortScanTraffic
    | BroadcastStormTraffic

  datatype TrafficConfig = TrafficConfig(scenario: TrafficScenario, seed: bv64, frameSize: nat, hostCount: u32)

  // ---- addresses and ports ----

  function HostMac(host: u32): Mac {
    0x0257_4c00_0000 + host % 0x100_0000
  }

  function UnknownMac(entropy: u64): Mac {
    0x02fe_0000_0000 + entropy % TWO_32
  }

  /** 10.0.h.h: the address of a host in the lab's subnet. */
  function HostIp(host: u32): u32 {
    0x0a00_0000 + host % TWO_16
  }

  datatype FrameShape = FrameShape(
    destinationMac: Mac,
    sourceMac: Mac,
    sourceHost: u32,
    destinationHost: u32,
    udp: bool,
    sourcePort: u16,
    destinationPort: u16)

  function FrameScenario(config: TrafficConfig, sequence: u64): TrafficScenario {
    if config.scenario != MixedTraffic then config.scenario
    else if sequence % 3 == 0 then KnownUnicastTraffic
    else if sequence % 3 == 1 then BroadcastTraffic
    else UnknownUnicastTraffic
  }

  function ShapeOf(config: TrafficConfig, scenario: TrafficScenario, sequence: u64, entropy: u64): FrameShape
    requires config.hostCount >= 2
  {
    match scenario
    case UdpFloodTraffic =>
      FrameShape(HostMac(1), HostMac(0), 0, 1, true, 0xc000 + entropy % 0x4000, 9000)
    case PortScanTraffic =>
      FrameShape(HostMac(1), HostMac(0), 0, 1, true, 44444, 1 + sequence % PORT_SCAN_PORTS)
    case BroadcastStormTraffic =>
      var host := sequence % Min(config.hostCount, 3);
      FrameShape(BROADCAST_MAC, HostMac(host), host, 0xffff, true, 137, 137)
    case _ =>
      var source := Host(sequence, config.hostCount);
      var destination := NextHost(source, config.hostCount);
      FrameShape(
        if scenario == BroadcastTraffic then BROADCAST_MAC
        else if scenario == UnknownUnicastTraffic then UnknownMac(entropy)
        else HostMac(destination),
        HostMac(source), source, destination, false, 0, 0)
  }

  /** The host whose turn it is. */
  function Host(sequence: u64, hosts: u32): (host: u32)
    requires hosts > 0
    ensures host < hosts
  {
    sequence % hosts
  }

  /** The host after it, round the table. */
  function NextHost(host: u32, hosts: u32): (next: u32)
    requires host < hosts
    ensures next < hosts && next == (host + 1) % hosts
  {
    if host + 1 == hosts then 0 else host + 1
  }

  function StartState(config: TrafficConfig, sequence: u64): bv64 {
    config.seed ^ (sequence as bv64 * GAMMA)
  }

  function Shape(config: TrafficConfig, sequence: u64): FrameShape
    requires config.hostCount >= 2
  {
    ShapeOf(config, FrameScenario(config, sequence), sequence, Draw(NextState(StartState(config, sequence))))
  }

  // ---- bytes ----

  function Big16(value: u16): (bytes: seq<u8>)
    ensures |bytes| == 2 && Network16(bytes, 0) == value
  {
    [value / 0x100, value % 0x100]
  }

  function MacBytes(mac: Mac): (bytes: seq<u8>)
    ensures |bytes| == 6
  {
    Big16(mac / TWO_32) + Big16(mac / TWO_16 % TWO_16) + Big16(mac % TWO_16)
  }

  /** The low bytes of a value, least significant first. */
  function LowBytes(value: u64, count: nat): (bytes: seq<u8>)
    ensures |bytes| == count
  {
    if count == 0 then [] else [value % 0x100] + LowBytes(value / 0x100, count - 1)
  }

  function RandomBytes(state: bv64, size: nat): (bytes: seq<u8>)
    ensures |bytes| == size
    decreases size
  {
    var next := NextState(state);
    if size == 0 then []
    else if size < 8 then LowBytes(Draw(next), size)
    else LowBytes(Draw(next), 8) + RandomBytes(next, size - 8)
  }

  // ---- the checksum ----

  function WordSum(header: seq<u8>): nat
    requires |header| % 2 == 0
  {
    if header == [] then 0
    else WordSum(header[..|header| - 2]) + Network16(header, |header| - 2)
  }

  /** The carries of a sum added back until it fits a word. */
  function Carried(sum: nat): (word: u16)
    decreases sum
  {
    if sum < TWO_16 then sum else Carried(sum % TWO_16 + sum / TWO_16)
  }

  /** Adding carries back keeps the value modulo 0xffff, and zero only for zero. */
  lemma {:induction false} CarriedCongruent(sum: nat)
    ensures Carried(sum) % 0xffff == sum % 0xffff
    ensures Carried(sum) == 0 <==> sum == 0
    decreases sum
  {
    if sum >= TWO_16 {
      var less := sum % TWO_16 + sum / TWO_16;
      CarriedCongruent(less);
      assert sum == less + sum / TWO_16 * 0xffff;
      assert sum % 0xffff == less % 0xffff;
    }
  }

  function ChecksumOf(sum: nat): u16 {
    0xffff - Carried(sum)
  }

  /** With its checksum added, the sum of a header is all ones. */
  lemma ChecksumCompletes(sum: nat)
    requires sum > 0
    ensures Carried(sum + ChecksumOf(sum)) == 0xffff
  {
    hide Carried;
    CarriedCongruent(sum);
    CarriedCongruent(sum + ChecksumOf(sum));
    ComplementIsMultiple(sum, Carried(sum));
  }

  lemma ComplementIsMultiple(sum: nat, word: nat)
    requires sum % 0xffff == word % 0xffff
    ensures (sum + (0xffff - word)) % 0xffff == 0
  {
    var q, r := sum / 0xffff, word / 0xffff;
    assert sum + (0xffff - word) == (q - r + 1) * 0xffff;
  }

  // ---- headers ----

  /** An IPv4 header without options, with a given checksum field. */
  function Ipv4Fields(size: u16, identification: u16, protocol: u8, source: u32, destination: u32, checksum: u16)
    : (header: seq<u8>)
    ensures |header| == 20
  {
    var length, id, sum := Big16(size), Big16(identification), Big16(checksum);
    var from, to := Big16(source % TWO_16), Big16(destination % TWO_16);
    [0x45, 0, length[0], length[1], id[0], id[1], 0, 0, 64, protocol, sum[0], sum[1],
     10, 0, from[0], from[1], 10, 0, to[0], to[1]]
  }

  function Ipv4Header(size: u16, identification: u16, protocol: u8, source: u32, destination: u32): (header: seq<u8>)
    ensures |header| == 20
  {
    Ipv4Fields(size, identification, protocol, source, destination,
               ChecksumOf(WordSum(Ipv4Fields(size, identification, protocol, source, destination, 0))))
  }

  lemma SumOfFields(size: u16, identification: u16, protocol: u8, source: u32, destination: u32, checksum: u16)
    ensures WordSum(Ipv4Fields(size, identification, protocol, source, destination, checksum))
         == 0x4500 + size + identification + (64 * 0x100 + protocol) + checksum
            + 2 * 0x0a00 + source % TWO_16 + destination % TWO_16
  {
    var h := Ipv4Fields(size, identification, protocol, source, destination, checksum);
    WordSumTwo(h, 18);
    WordSumTwo(h, 16);
    WordSumTwo(h, 14);
    WordSumTwo(h, 12);
    WordSumTwo(h, 10);
    WordSumTwo(h, 8);
    WordSumTwo(h, 6);
    WordSumTwo(h, 4);
    WordSumTwo(h, 2);
    WordSumTwo(h, 0);
    assert h[..20] == h && h[..0] == [];
  }

  lemma WordSumTwo(header: seq<u8>, at: nat)
    requires at % 2 == 0 && at + 2 <= |header|
    ensures WordSum(header[..at + 2]) == WordSum(header[..at]) + Network16(header, at)
  {
    assert header[..at + 2][..at] == header[..at];
  }

  /** RFC 1071, section 1: the words of a correct header add up to all ones. */
  predicate SumsToOnes(header: seq<u8>) {
    |header| == 20 && Carried(WordSum(header)) == 0xffff
  }

  /** The one's-complement sum of every generated header is all ones, as RFC 791, section 3.1, asks. */
  lemma HeaderSumsToOnes(size: u16, identification: u16, protocol: u8, source: u32, destination: u32)
    ensures SumsToOnes(Ipv4Header(size, identification, protocol, source, destination))
  {
    hide Ipv4Fields, WordSum, Carried;
    var blank := WordSum(Ipv4Fields(size, identification, protocol, source, destination, 0));
    SumOfFields(size, identification, protocol, source, destination, 0);
    SumOfFields(size, identification, protocol, source, destination, ChecksumOf(blank));
    ChecksumCompletes(blank);
  }

  function UdpHeader(size: u16, sourcePort: u16, destinationPort: u16): (header: seq<u8>)
    ensures |header| == 8
  {
    Big16(sourcePort) + Big16(destinationPort) + Big16(size) + [0, 0]
  }

  // ---- frames ----

  /** What a frame carries behind its Ethernet header: random bytes, under headers if they fit. */
  function Payload(config: TrafficConfig, sequence: u64): (payload: seq<u8>)
    requires config.frameSize >= ETHERNET_HEADER_SIZE && config.hostCount >= 2
    ensures |payload| == config.frameSize - ETHERNET_HEADER_SIZE
  {
    var size := config.frameSize - ETHERNET_HEADER_SIZE;
    var random := RandomBytes(NextState(StartState(config, sequence)), size);
    if size < 20 || size >= TWO_16 then random
    else
      var shape := Shape(config, sequence);
      var udp := shape.udp && size >= 28;
      Ipv4Header(size, sequence % TWO_16, if udp then UDP else 0, shape.sourceHost, shape.destinationHost)
      + if udp then UdpHeader(size - 20, shape.sourcePort, shape.destinationPort) + random[28..] else random[20..]
  }

  function TrafficFrame(config: TrafficConfig, sequence: u64): (frame: seq<u8>)
    requires config.frameSize >= ETHERNET_HEADER_SIZE && config.hostCount >= 2
    ensures |frame| == config.frameSize
  {
    var shape := Shape(config, sequence);
    MacBytes(shape.destinationMac) + MacBytes(shape.sourceMac) + Big16(ETHERTYPE_IPV4) + Payload(config, sequence)
  }

  // ---- what the parser reads ----

  lemma MacReadBack(mac: Mac)
    ensures MacAt(MacBytes(mac), 0) == mac
  {
    var bytes := MacBytes(mac);
    assert Network16(bytes, 0) == mac / TWO_32;
    assert Network16(bytes, 2) == mac / TWO_16 % TWO_16;
    assert Network16(bytes, 4) == mac % TWO_16;
    assert mac / TWO_16 == mac / TWO_32 * TWO_16 + mac / TWO_16 % TWO_16;
  }

  /** Words and addresses depend on their own bytes only. */
  lemma ReadsAt(frame: seq<u8>, at: nat, part: seq<u8>)
    requires at + |part| <= |frame| && frame[at..at + |part|] == part
    ensures forall k: nat | k < |part| :: frame[at + k] == part[k]
    ensures forall k: nat | k + 2 <= |part| :: Network16(frame, at + k) == Network16(part, k)
    ensures |part| == 6 ==> MacAt(frame, at) == MacAt(part, 0)
  {
    forall k: nat | k < |part|
      ensures frame[at + k] == part[k]
    {
      assert frame[at..at + |part|][k] == frame[at + k];
    }
    if |part| == 6 {
      assert frame[at + 0] == part[0];
    }
  }

  lemma FrameParts(config: TrafficConfig, sequence: u64)
    requires config.frameSize >= ETHERNET_HEADER_SIZE && config.hostCount >= 2
    ensures var frame, shape := TrafficFrame(config, sequence), Shape(config, sequence);
            && MacAt(frame, 0) == shape.destinationMac && MacAt(frame, 6) == shape.sourceMac
            && Network16(frame, 12) == ETHERTYPE_IPV4 && frame[14..] == Payload(config, sequence)
  {
    hide Shape, Payload, MacBytes, MacAt, Network16;
    var frame, shape := TrafficFrame(config, sequence), Shape(config, sequence);
    assert frame[0..6] == MacBytes(shape.destinationMac);
    assert frame[6..12] == MacBytes(shape.sourceMac);
    assert frame[12..14] == Big16(ETHERTYPE_IPV4);
    ReadsAt(frame, 0, MacBytes(shape.destinationMac));
    ReadsAt(frame, 6, MacBytes(shape.sourceMac));
    ReadsAt(frame, 12, Big16(ETHERTYPE_IPV4));
    MacReadBack(shape.destinationMac);
    MacReadBack(shape.sourceMac);
    assert Network16(frame, 12 + 0) == ETHERTYPE_IPV4;
  }

  /** The fields of a generated IPv4 header, as words. */
  lemma HeaderWords(size: u16, identification: u16, protocol: u8, source: u32, destination: u32)
    ensures var h := Ipv4Header(size, identification, protocol, source, destination);
            && h[0] == 0x45 && h[9] == protocol && Network16(h, 2) == size && Network16(h, 6) == 0
            && Network16(h, 12) == 0x0a00 && Network16(h, 14) == source % TWO_16
            && Network16(h, 16) == 0x0a00 && Network16(h, 18) == destination % TWO_16
  {
    hide WordSum, Carried;
  }

  lemma UdpWords(size: u16, sourcePort: u16, destinationPort: u16)
    ensures var h := UdpHeader(size, sourcePort, destinationPort);
            Network16(h, 0) == sourcePort && Network16(h, 2) == destinationPort && Network16(h, 4) == size
  {
  }

  /** The IPv4 header of a frame. */
  function HeaderOf(config: TrafficConfig, sequence: u64): (header: seq<u8>)
    requires 34 <= config.frameSize <= LARGEST_IPV4_FRAME && config.hostCount >= 2
    ensures |header| == 20
  {
    var shape := Shape(config, sequence);
    Ipv4Header(config.frameSize - ETHERNET_HEADER_SIZE, sequence % TWO_16,
               if shape.udp && config.frameSize >= 42 then UDP else 0, shape.sourceHost, shape.destinationHost)
  }

  lemma HeaderInFrame(config: TrafficConfig, sequence: u64)
    requires 34 <= config.frameSize <= LARGEST_IPV4_FRAME && config.hostCount >= 2
    ensures TrafficFrame(config, sequence)[14..34] == HeaderOf(config, sequence)
  {
    hide Shape, TrafficFrame, Ipv4Header, UdpHeader, RandomBytes;
    FrameParts(config, sequence);
    assert TrafficFrame(config, sequence)[14..34] == Payload(config, sequence)[..20];
    assert Payload(config, sequence)[..20] == HeaderOf(config, sequence);
  }

  /** Every frame big enough for an IPv4 header, and no bigger than one can say, parses as valid: with the
      addresses and ports intended, and as UDP exactly when its header fits. */
  lemma FramesParse(config: TrafficConfig, sequence: u64, ingress: u32)
    requires 34 <= config.frameSize <= LARGEST_IPV4_FRAME && config.hostCount >= 2
    ensures var shape := Shape(config, sequence);
            var udp := shape.udp && config.frameSize >= 42;
            ParsePacket(PacketView(TrafficFrame(config, sequence), ingress))
            == PacketAnalysis(
                 shape.sourceMac, shape.destinationMac, HostIp(shape.sourceHost), HostIp(shape.destinationHost),
                 if udp then shape.sourcePort else 0, if udp then shape.destinationPort else 0,
                 ETHERTYPE_IPV4, Min(config.frameSize, TWO_16 - 1), ingress,
                 if udp then UDP else 0, 0, Valid, Malformed)
  {
    hide Shape, TrafficFrame, Ipv4Header, Payload, MacAt, ReadTransport;
    var frame, shape := TrafficFrame(config, sequence), Shape(config, sequence);
    var size: u16 := config.frameSize - ETHERNET_HEADER_SIZE;
    var udp := shape.udp && config.frameSize >= 42;
    var protocol := if udp then UDP else 0;
    FrameParts(config, sequence);
    HeaderInFrame(config, sequence);
    HeaderWords(size, sequence % TWO_16, protocol, shape.sourceHost, shape.destinationHost);
    Ipv4Reads(frame, HeaderOf(config, sequence), size);
    TransportReads(config, sequence, ingress);
  }

  /** A header's words at their places in the frame. */
  lemma Ipv4Reads(frame: seq<u8>, header: seq<u8>, size: u16)
    requires |frame| == 14 + size && size >= 20 && |header| == 20 && frame[14..34] == header
    ensures frame[14] == header[0] && frame[23] == header[9] && Network16(frame, 16) == Network16(header, 2)
    ensures Network16(frame, 20) == Network16(header, 6)
    ensures Network32(frame, 26) == Network16(header, 12) * TWO_16 + Network16(header, 14)
    ensures Network32(frame, 30) == Network16(header, 16) * TWO_16 + Network16(header, 18)
  {
    hide Network16;
    ReadsAt(frame, 14, header);
    assert frame[14 + 0] == header[0] && frame[14 + 9] == header[9];
    assert Network16(frame, 14 + 2) == Network16(header, 2) && Network16(frame, 14 + 6) == Network16(header, 6);
    assert Network16(frame, 14 + 12) == Network16(header, 12) && Network16(frame, 14 + 14) == Network16(header, 14);
    assert Network16(frame, 14 + 16) == Network16(header, 16) && Network16(frame, 14 + 18) == Network16(header, 18);
  }

  lemma TransportReads(config: TrafficConfig, sequence: u64, ingress: u32)
    requires 34 <= config.frameSize <= LARGEST_IPV4_FRAME && config.hostCount >= 2
    ensures var shape := Shape(config, sequence);
            var udp := shape.udp && config.frameSize >= 42;
            forall a: PacketAnalysis | a.protocol == (if udp then UDP else 0) ::
              ReadTransport(TrafficFrame(config, sequence), a, 34, config.frameSize - 34)
              == if udp then a.(sourcePort := shape.sourcePort, destinationPort := shape.destinationPort,
                                validity := Valid)
                 else a.(validity := Valid)
  {
    hide Shape, TrafficFrame, Ipv4Header, UdpHeader, RandomBytes, Network16;
    var frame, shape := TrafficFrame(config, sequence), Shape(config, sequence);
    if shape.udp && config.frameSize >= 42 {
      var udp := UdpHeader(config.frameSize - 34, shape.sourcePort, shape.destinationPort);
      FrameParts(config, sequence);
      UdpWords(config.frameSize - 34, shape.sourcePort, shape.destinationPort);
      assert frame[34..42] == frame[14..][20..28] == udp;
      ReadsAt(frame, 34, udp);
      assert Network16(frame, 34 + 0) == Network16(udp, 0) && Network16(frame, 34 + 2) == Network16(udp, 2)
          && Network16(frame, 34 + 4) == Network16(udp, 4);
    }
  }

  /** A frame with addresses but no room for an IPv4 header is malformed IPv4. */
  lemma ShortFramesAreMalformed(config: TrafficConfig, sequence: u64, ingress: u32)
    requires ETHERNET_HEADER_SIZE <= config.frameSize < 34 && config.hostCount >= 2
    ensures ParsePacket(PacketView(TrafficFrame(config, sequence), ingress)).validity == MalformedIpv4
  {
    hide Shape, TrafficFrame, Payload;
    FrameParts(config, sequence);
  }

  /** A frame bigger than an IPv4 header can say has random bytes where the header would be. */
  lemma LargeFramesAreRandom(config: TrafficConfig, sequence: u64)
    requires config.frameSize > LARGEST_IPV4_FRAME && config.hostCount >= 2
    ensures var frame := TrafficFrame(config, sequence);
            && Network16(frame, 12) == ETHERTYPE_IPV4
            && frame[14..]
               == RandomBytes(NextState(StartState(config, sequence)), config.frameSize - ETHERNET_HEADER_SIZE)
  {
    hide Shape, TrafficFrame, RandomBytes, StartState, NextState, Network16;
    FrameParts(config, sequence);
  }

  /** The header inside every such frame sums to all ones. */
  lemma FrameHeaderSumsToOnes(config: TrafficConfig, sequence: u64)
    requires 34 <= config.frameSize <= LARGEST_IPV4_FRAME && config.hostCount >= 2
    ensures SumsToOnes(TrafficFrame(config, sequence)[14..34])
  {
    hide Shape, TrafficFrame, Ipv4Header, SumsToOnes;
    var shape := Shape(config, sequence);
    HeaderInFrame(config, sequence);
    HeaderSumsToOnes(config.frameSize - ETHERNET_HEADER_SIZE, sequence % TWO_16,
                     if shape.udp && config.frameSize >= 42 then UDP else 0, shape.sourceHost, shape.destinationHost);
  }
}
