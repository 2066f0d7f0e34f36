/** What the analyzer knows of a frame. A MAC address is its six bytes read as one number, most
    significant first, so that the source's byte-wise comparison is the order of numbers. */
module Packets {
  import opened Words

  type Mac = x: int | 0 <= x < 0x1_0000_0000_0000

  const BROADCAST_MAC: Mac := 0xffff_ffff_ffff
  const TCP: u8 := 6
  const UDP: u8 := 17
  const ICMP: u8 := 1
  const ETHERTYPE_IPV4: u16 := 0x0800

  datatype Classification = Malformed | Broadcast | UnknownUnicast | KnownUnicast

  datatype Validity = Valid | MalformedEthernet | MalformedIpv4 | MalformedTransport

  datatype PacketAnalysis = PacketAnalysis(
    sourceMac: Mac,
    destinationMac: Mac,
    sourceIpv4: u32,
    destinationIpv4: u32,
    sourcePort: u16,
    destinationPort: u16,
    ethertype: u16,
    frameLength: u16,
    ingressPort: u32,
    protocol: u8,
    tcpFlags: u8,
    validity: Validity,
    classification: Classification)
}
