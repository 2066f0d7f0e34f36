/** Frames and how src/packet_analyzer.cpp reads one. */
module PacketParser {
  import opened Arith
  import opened Words
  import opened Packets

  const ETHERNET_HEADER_SIZE := 14
  const IPV4_MINIMUM_HEADER_SIZE := 20
  const UDP_HEADER_SIZE := 8
  const TCP_MINIMUM_HEADER_SIZE := 20
  const ICMP_MINIMUM_HEADER_SIZE := 4

  /** A frame as it came in. */
  datatype PacketView = PacketView(bytes: seq<u8>, ingressPort: u32)

  /** Words in network order. */
  function Network16(bytes: seq<u8>, at: nat): u16
    requires at + 2 <= |bytes|
  {
    var high: int := bytes[at];
    high * 0x100 + bytes[at + 1]
  }

  function Network32(bytes: seq<u8>, at: nat): u32
    requires at + 4 <= |bytes|
  {
    Network16(bytes, at) * TWO_16 + Network16(bytes, at + 2)
  }

  function MacAt(bytes: seq<u8>, at: nat): Mac
    requires at + 6 <= |bytes|
  {
    Network16(bytes, at) * TWO_32 + Network32(bytes, at + 2)
  }

  /** What is known of a frame too short to have addresses. */
  function Unread(packet: PacketView): PacketAnalysis {
    PacketAnalysis(0, 0, 0, 0, 0, 0, 0, Min(|packet.bytes|, TWO_16 - 1), packet.ingressPort, 0, 0,
                   MalformedEthernet, Malformed)
  }

  function Ports(a: PacketAnalysis, bytes: seq<u8>, transport: nat): PacketAnalysis
    requires transport + 4 <= |bytes|
  {
    a.(sourcePort := Network16(bytes, transport), destinationPort := Network16(bytes, transport + 2), validity := Valid)
  }

  /** The transport header of `size` bytes at `transport`. */
  function ReadTransport(bytes: seq<u8>, a: PacketAnalysis, transport: nat, size: nat): PacketAnalysis
    requires transport + size <= |bytes|
  {
    if a.protocol == UDP then
      if size < UDP_HEADER_SIZE || Network16(bytes, transport + 4) < UDP_HEADER_SIZE
         || Network16(bytes, transport + 4) > size
      then a.(validity := MalformedTransport)
      else Ports(a, bytes, transport)
    else if a.protocol == TCP then
      if size < TCP_MINIMUM_HEADER_SIZE then a.(validity := MalformedTransport)
      else
        var header := bytes[transport + 12] / 16 * 4;
        if header < TCP_MINIMUM_HEADER_SIZE || header > size then a.(validity := MalformedTransport)
        else Ports(a, bytes, transport).(tcpFlags := bytes[transport + 13])
    else if a.protocol == ICMP && size < ICMP_MINIMUM_HEADER_SIZE then a.(validity := MalformedTransport)
    else a.(validity := Valid)
  }

  function ReadIpv4(bytes: seq<u8>, a: PacketAnalysis): PacketAnalysis
    requires |bytes| >= ETHERNET_HEADER_SIZE
  {
    var payload := |bytes| - ETHERNET_HEADER_SIZE;
    if payload < IPV4_MINIMUM_HEADER_SIZE then a.(validity := MalformedIpv4)
    else
      var ip := ETHERNET_HEADER_SIZE;
      var header, total := bytes[ip] % 16 * 4, Network16(bytes, ip + 2);
      if bytes[ip] / 16 != 4 || header < IPV4_MINIMUM_HEADER_SIZE || header > payload
         || total < header || total > payload
      then a.(validity := MalformedIpv4)
      else
        var addressed := a.(sourceIpv4 := Network32(bytes, ip + 12), destinationIpv4 := Network32(bytes, ip + 16),
                            protocol := bytes[ip + 9]);
        if Network16(bytes, ip + 6) % 0x2000 != 0 then addressed.(validity := Valid)
        else ReadTransport(bytes, addressed, ip + header, total - header)
  }

  /** The analysis of one frame, before it is classified. */
  function ParsePacket(packet: PacketView): (a: PacketAnalysis)
    ensures a.validity == MalformedEthernet <==> |packet.bytes| < ETHERNET_HEADER_SIZE
    ensures a.ingressPort == packet.ingressPort && a.frameLength == Min(|packet.bytes|, TWO_16 - 1)
    ensures a.validity != MalformedEthernet ==>
              a.destinationMac == MacAt(packet.bytes, 0) && a.sourceMac == MacAt(packet.bytes, 6)
              && a.ethertype == Network16(packet.bytes, 12)
  {
    var a := Unread(packet);
    if |packet.bytes| < ETHERNET_HEADER_SIZE then a
    else
      var ethernet := a.(destinationMac := MacAt(packet.bytes, 0), sourceMac := MacAt(packet.bytes, 6),
                         ethertype := Network16(packet.bytes, 12));
      if ethernet.ethertype == ETHERTYPE_IPV4 then ReadIpv4(packet.bytes, ethernet)
      else ethernet.(validity := Valid)
  }

  /** Ports are only ever read from a transport header that the packet's own lengths contain. */
  lemma PortsAreInside(packet: PacketView)
    ensures var a, b := ParsePacket(packet), packet.bytes;
            (a.sourcePort != 0 || a.destinationPort != 0 || a.tcpFlags != 0) ==>
              && a.validity == Valid && a.ethertype == ETHERTYPE_IPV4 && (a.protocol == TCP || a.protocol == UDP)
              && |b| >= ETHERNET_HEADER_SIZE + IPV4_MINIMUM_HEADER_SIZE
              && b[14] % 16 * 4 + UDP_HEADER_SIZE <= Network16(b, 16) <= |b| - ETHERNET_HEADER_SIZE
              && a.sourcePort == Network16(b, 14 + b[14] % 16 * 4)
              && a.destinationPort == Network16(b, 16 + b[14] % 16 * 4)
  {
  }
}
