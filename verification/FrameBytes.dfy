/** A frame's analysis from its bytes: what it is taken for, and where each field is read. */
module FrameBytes {
  import opened Words
  import opened Packets
  import opened PacketParser

  /** The frame says it carries IPv4. */
  predicate SaysIpv4(b: seq<u8>) {
    |b| >= 14 && b[12] == 0x08 && b[13] == 0x00
  }

  function HeaderLength(b: seq<u8>): nat
    requires |b| >= 34
  {
    b[14] % 16 * 4
  }

  function TotalLength(b: seq<u8>): nat
    requires |b| >= 34
  {
    var high: nat := b[16];
    high * 256 + b[17]
  }

  /** A version 4 header of at least twenty bytes, within the packet's length, which is within the frame. */
  predicate SoundIpv4(b: seq<u8>) {
    && |b| >= 34 && b[14] / 16 == 4
    && 20 <= HeaderLength(b) <= TotalLength(b) <= |b| - 14
  }

  /** Not the first fragment of its packet, so without a transport header. */
  predicate LaterFragment(b: seq<u8>)
    requires |b| >= 34
  {
    b[20] % 32 != 0 || b[21] != 0
  }

  /** A UDP header of eight bytes whose length is within the packet; a TCP header of its own length within it; four
      bytes of ICMP; anything of another protocol. */
  predicate SoundTransport(b: seq<u8>)
    requires SoundIpv4(b)
  {
    var at, size := 14 + HeaderLength(b), TotalLength(b) - HeaderLength(b);
    && (b[23] == 17 ==> size >= 8 && var high: nat := b[at + 4]; 8 <= high * 256 + b[at + 5] <= size)
    && (b[23] == 6 ==> size >= 20 && 20 <= b[at + 12] / 16 * 4 <= size)
    && (b[23] == 1 ==> size >= 4)
  }

  /** What each frame is taken for, and where each of its fields is read, from the bytes alone. */
  lemma ParsedExactly(packet: PacketView)
    ensures var a, b := ParsePacket(packet), packet.bytes;
            && (a.validity == MalformedEthernet <==> |b| < 14)
            && (a.validity == MalformedIpv4 <==> SaysIpv4(b) && !SoundIpv4(b))
            && (a.validity == MalformedTransport <==>
                  SaysIpv4(b) && SoundIpv4(b) && !LaterFragment(b) && !SoundTransport(b))
            && (SaysIpv4(b) && SoundIpv4(b) ==>
                  && a.protocol == b[23]
                  && a.sourceIpv4 == Word32(b, 26) && a.destinationIpv4 == Word32(b, 30))
            && (!(SaysIpv4(b) && SoundIpv4(b)) ==> a.protocol == 0 && a.sourceIpv4 == 0 && a.destinationIpv4 == 0)
            && (if SaysIpv4(b) && SoundIpv4(b) && !LaterFragment(b) && SoundTransport(b) && b[23] in {6, 17} then
                  var at := 14 + HeaderLength(b);
                  && a.sourcePort == Word16(b, at) && a.destinationPort == Word16(b, at + 2)
                  && a.tcpFlags == if b[23] == 6 then b[at + 13] else 0
                else a.sourcePort == 0 && a.destinationPort == 0 && a.tcpFlags == 0)
            && (|b| >= 14 ==>
                  && a.destinationMac == Word48(b, 0) && a.sourceMac == Word48(b, 6) && a.ethertype == Word16(b, 12))
  {
    hide MacAt, Word48;
    if |packet.bytes| >= 14 {
      MacBytes(packet.bytes, 0);
      MacBytes(packet.bytes, 6);
    }
  }

  /** Numbers of two, four and six bytes, the most significant first. */
  function Word16(b: seq<u8>, at: nat): nat
    requires at + 2 <= |b|
  {
    var high: nat := b[at];
    high * 256 + b[at + 1]
  }

  function Word32(b: seq<u8>, at: nat): nat
    requires at + 4 <= |b|
  {
    Word16(b, at) * 65536 + Word16(b, at + 2)
  }

  function Word48(b: seq<u8>, at: nat): nat
    requires at + 6 <= |b|
  {
    Word32(b, at) * 65536 + Word16(b, at + 4)
  }

  lemma MacBytes(b: seq<u8>, at: nat)
    requires at + 6 <= |b|
    ensures MacAt(b, at) == Word48(b, at)
  {
  }
}
