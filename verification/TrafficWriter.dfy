/** The frame writer of src/traffic_generator.cpp, in place in a caller's buffer, and the source of
    src/traffic_source.cpp that fills batches with it. */
module TrafficWriter {
  import opened Arith
  import opened Words
  import opened Sequences
  import opened Random
  import opened Packets
  import opened PacketParser
  import opened TrafficGenerator

  /** Only `size` bytes from `at` on may differ. */
  twostate predicate OnlyWritten(out: array<u8>, at: nat, size: nat)
    reads out
  {
    forall i | 0 <= i < out.Length && !(at <= i < at + size) :: out[i] == old(out[i])
  }

  method WriteNetwork16(out: array<u8>, at: nat, value: u16)
    requires at + 2 <= out.Length
    modifies out
    ensures out[at..at + 2] == Big16(value) && OnlyWritten(out, at, 2)
  {
    out[at] := value / 0x100;
    out[at + 1] := value % 0x100;
  }

  method CopyBytes(bytes: seq<u8>, out: array<u8>, at: nat)
    requires at + |bytes| <= out.Length
    modifies out
    ensures out[at..at + |bytes|] == bytes && OnlyWritten(out, at, |bytes|)
  {
    for i := 0 to |bytes|
      invariant out[at..at + i] == bytes[..i] && OnlyWritten(out, at, |bytes|)
    {
      out[at + i] := bytes[i];
    }
  }

  /** Low bytes of one draw, into `count` places. */
  method WriteLowBytes(draw: u64, out: array<u8>, at: nat, count: nat)
    requires at + count <= out.Length
    modifies out
    ensures out[at..at + count] == LowBytes(draw, count) && OnlyWritten(out, at, count)
  {
    var value := draw;
    for offset := 0 to count
      invariant LowBytes(draw, count) == out[at..at + offset] + LowBytes(value, count - offset)
      invariant OnlyWritten(out, at, count)
    {
      ghost var done, left := out[at..at + offset], LowBytes(value / 0x100, count - offset - 1);
      out[at + offset] := value % 0x100;
      assert out[at..at + offset + 1] == done + [value % 0x100];
      assert done + ([value % 0x100] + left) == done + [value % 0x100] + left;
      value := value / 0x100;
    }
    assert out[at..at + count] + LowBytes(value, 0) == out[at..at + count];
  }

  lemma RandomSteps(state: bv64, size: nat)
    ensures size >= 8 ==> RandomBytes(state, size)
                          == LowBytes(Draw(NextState(state)), 8) + RandomBytes(NextState(state), size - 8)
    ensures 0 < size < 8 ==> RandomBytes(state, size) == LowBytes(Draw(NextState(state)), size)
    ensures size == 0 ==> RandomBytes(state, size) == []
  {
  }

  method FillRandom(start: bv64, out: array<u8>, at: nat, size: nat)
    requires at + size <= out.Length
    modifies out
    ensures out[at..at + size] == RandomBytes(start, size) && OnlyWritten(out, at, size)
  {
    hide Draw, NextState, LowBytes, RandomBytes;
    var state, index := start, 0;
    ghost var done: seq<u8> := [];
    while index + 8 <= size
      invariant index <= size && OnlyWritten(out, at, size)
      invariant |done| == index && done == out[at..at + index]
      invariant forall i | 0 <= i < index :: out[at + i] == done[i]
      invariant RandomBytes(start, size) == done + RandomBytes(state, size - index)
    {
      RandomSteps(state, size - index);
      state := NextState(state);
      WriteLowBytes(Draw(state), out, at + index, 8);
      Assoc(done, LowBytes(Draw(state), 8), RandomBytes(state, size - index - 8));
      Extended(out, at, index, 8, done);
      done := done + LowBytes(Draw(state), 8);
      index := index + 8;
    }
    RandomSteps(state, size - index);
    if index < size {
      state := NextState(state);
      WriteLowBytes(Draw(state), out, at + index, size - index);
      Extended(out, at, index, size - index, done);
    } else {
      assert done + [] == done;
    }
  }

  lemma Extended(out: array<u8>, at: nat, index: nat, more: nat, done: seq<u8>)
    requires at + index + more <= out.Length
    requires |done| == index && forall i | 0 <= i < index :: out[at + i] == done[i]
    ensures out[at..at + index + more] == done + out[at + index..at + index + more]
  {
  }

  /** The Internet checksum of the twenty bytes at `at`. */
  method Ipv4Checksum(out: array<u8>, at: nat) returns (checksum: u16)
    requires at + 20 <= out.Length
    ensures checksum == ChecksumOf(WordSum(out[at..at + 20]))
  {
    hide WordSum, Carried;
    ghost var header := out[at..at + 20];
    NothingSums();
    var sum: nat := 0;
    var index := 0;
    assert header[..0] == [];
    while index < 20
      invariant 0 <= index <= 20 && index % 2 == 0 && sum == WordSum(header[..index])
    {
      WordSumTwo(header, index);
      assert header[index] == out[at + index] && header[index + 1] == out[at + index + 1];
      var high: int := out[at + index];
      sum := sum + (high * 0x100 + out[at + index + 1]);
      index := index + 2;
    }
    assert header[..20] == header;
    while sum >= TWO_16
      invariant Carried(sum) == Carried(WordSum(header))
      decreases sum
    {
      CarriedStep(sum);
      sum := sum % TWO_16 + sum / TWO_16;
    }
    CarriedStep(sum);
    checksum := 0xffff - sum;
  }

  lemma NothingSums()
    ensures WordSum([]) == 0
  {
  }

  lemma CarriedStep(sum: nat)
    ensures Carried(sum) == if sum < TWO_16 then sum else Carried(sum % TWO_16 + sum / TWO_16)
  {
  }

  method WriteIpv4Header(out: array<u8>, at: nat, size: u16, identification: u16, protocol: u8,
                         source: u32, destination: u32)
    requires at + 20 <= out.Length
    modifies out
    ensures out[at..at + 20] == Ipv4Header(size, identification, protocol, source, destination)
    ensures OnlyWritten(out, at, 20)
  {
    hide WordSum;
    WriteBlankHeader(out, at, size, identification, protocol, source, destination);
    label Blank:
    var checksum := Ipv4Checksum(out, at);
    WriteNetwork16(out, at + 10, checksum);
    ghost var fields := Ipv4Fields(size, identification, protocol, source, destination, checksum);
    forall k | 0 <= k < 20
      ensures out[at + k] == fields[k]
    {
      assert k < 10 || k >= 12 ==> old@Blank(out[at..at + 20])[k] == out[at + k];
      assert out[at + 10] == out[at + 10..at + 12][0] && out[at + 11] == out[at + 10..at + 12][1];
    }
    assert out[at..at + 20] == fields;
  }

  /** The header with a checksum of zero. */
  method WriteBlankHeader(out: array<u8>, at: nat, size: u16, identification: u16, protocol: u8,
                          source: u32, destination: u32)
    requires at + 20 <= out.Length
    modifies out
    ensures out[at..at + 20] == Ipv4Fields(size, identification, protocol, source, destination, 0)
    ensures OnlyWritten(out, at, 20)
  {
    ghost var fields := Ipv4Fields(size, identification, protocol, source, destination, 0);
    WriteFirstFields(out, at, size, identification, protocol);
    label First:
    WriteAddresses(out, at + 10, source, destination);
    assert out[at..at + 10] == old@First(out[at..at + 10]);
    assert out[at..at + 20] == out[at..at + 10] + out[at + 10..at + 20];
    assert fields == fields[..10] + fields[10..];
  }

  method WriteFirstFields(out: array<u8>, at: nat, size: u16, identification: u16, protocol: u8)
    requires at + 10 <= out.Length
    modifies out
    ensures out[at..at + 10] == Ipv4Fields(size, identification, protocol, 0, 0, 0)[..10]
    ensures OnlyWritten(out, at, 10)
  {
    out[at], out[at + 1] := 0x45, 0;
    out[at + 2], out[at + 3] := size / 0x100, size % 0x100;
    out[at + 4], out[at + 5] := identification / 0x100, identification % 0x100;
    out[at + 6], out[at + 7] := 0, 0;
    out[at + 8], out[at + 9] := 64, protocol;
  }

  /** A zero checksum and the two addresses. */
  method WriteAddresses(out: array<u8>, at: nat, source: u32, destination: u32)
    requires at + 10 <= out.Length
    modifies out
    ensures out[at..at + 10] == Ipv4Fields(0, 0, 0, source, destination, 0)[10..]
    ensures OnlyWritten(out, at, 10)
  {
    out[at], out[at + 1] := 0, 0;
    out[at + 2], out[at + 3] := 10, 0;
    out[at + 4], out[at + 5] := source % TWO_16 / 0x100, source % TWO_16 % 0x100;
    out[at + 6], out[at + 7] := 10, 0;
    out[at + 8], out[at + 9] := destination % TWO_16 / 0x100, destination % TWO_16 % 0x100;
  }

  method WriteUdpHeader(out: array<u8>, at: nat, size: u16, sourcePort: u16, destinationPort: u16)
    requires at + 8 <= out.Length
    modifies out
    ensures out[at..at + 8] == UdpHeader(size, sourcePort, destinationPort) && OnlyWritten(out, at, 8)
  {
    WriteNetwork16(out, at, sourcePort);
    WriteNetwork16(out, at + 2, destinationPort);
    WriteNetwork16(out, at + 4, size);
    WriteNetwork16(out, at + 6, 0);
    assert out[at..at + 8] == out[at..at + 2] + out[at + 2..at + 4] + out[at + 4..at + 6] + out[at + 6..at + 8];
  }

  /** Writes one frame; nothing for a configuration that cannot produce one. */
  method WriteTrafficFrame(config: TrafficConfig, sequence: u64, out: array<u8>) returns (written: nat)
    requires config.frameSize <= out.Length
    modifies out
    ensures written == 0 <==> config.frameSize < ETHERNET_HEADER_SIZE || config.hostCount < 2
    ensures written == 0 ==> out[..] == old(out[..])
    ensures written > 0 ==> written == config.frameSize && out[..written] == TrafficFrame(config, sequence)
                            && OnlyWritten(out, 0, written)
  {
    hide Shape, RandomBytes, Ipv4Header, UdpHeader, MacBytes;
    if config.frameSize < ETHERNET_HEADER_SIZE || config.hostCount < 2 {
      return 0;
    }
    var shape := Shape(config, sequence);
    CopyBytes(MacBytes(shape.destinationMac), out, 0);
    CopyBytes(MacBytes(shape.sourceMac), out, 6);
    WriteNetwork16(out, 12, ETHERTYPE_IPV4);
    ghost var ethernet := MacBytes(shape.destinationMac) + MacBytes(shape.sourceMac) + Big16(ETHERTYPE_IPV4);
    assert out[..14] == out[0..6] + out[6..12] + out[12..14] == ethernet;
    WritePayload(config, sequence, shape, out);
    assert out[..config.frameSize] == out[..14] + out[14..config.frameSize];
    return config.frameSize;
  }

  /** A payload in terms of the random bytes under its headers. */
  lemma PayloadIs(config: TrafficConfig, sequence: u64, random: seq<u8>)
    requires config.frameSize >= ETHERNET_HEADER_SIZE && config.hostCount >= 2
    requires random == RandomBytes(NextState(StartState(config, sequence)), config.frameSize - ETHERNET_HEADER_SIZE)
    ensures var size, shape := config.frameSize - ETHERNET_HEADER_SIZE, Shape(config, sequence);
            var udp := shape.udp && size >= 28;
            Payload(config, sequence) ==
            if size < 20 || size >= TWO_16 then random
            else
              Ipv4Header(size, sequence % TWO_16, if udp then UDP else 0, shape.sourceHost, shape.destinationHost)
              + if udp then UdpHeader(size - 20, shape.sourcePort, shape.destinationPort) + random[28..]
                else random[20..]
  {
    hide Shape, RandomBytes, Ipv4Header, UdpHeader;
  }

  lemma Joined(out: array<u8>, from: nat, middle: nat, to: nat)
    requires from <= middle <= to <= out.Length
    ensures out[from..to] == out[from..middle] + out[middle..to]
  {
  }

  /** The headers, over the random bytes that are there. */
  method WriteHeaders(config: TrafficConfig, sequence: u64, shape: FrameShape, out: array<u8>, ghost random: seq<u8>)
    requires 34 <= config.frameSize <= out.Length && config.frameSize - ETHERNET_HEADER_SIZE < TWO_16
    requires random == out[14..config.frameSize]
    modifies out
    ensures var size := config.frameSize - ETHERNET_HEADER_SIZE;
            var udp := shape.udp && size >= 28;
            out[14..config.frameSize] ==
            Ipv4Header(size, sequence % TWO_16, if udp then UDP else 0, shape.sourceHost, shape.destinationHost)
            + if udp then UdpHeader(size - 20, shape.sourcePort, shape.destinationPort) + random[28..] else random[20..]
    ensures OnlyWritten(out, 14, config.frameSize - 14)
  {
    hide Ipv4Header, UdpHeader;
    var size := config.frameSize - ETHERNET_HEADER_SIZE;
    var udp := shape.udp && size >= 28;
    WriteIpv4Header(out, 14, size, sequence % TWO_16, if udp then UDP else 0, shape.sourceHost, shape.destinationHost);
    if udp {
      WriteUdpHeader(out, 34, size - 20, shape.sourcePort, shape.destinationPort);
      assert forall k | 42 <= k < config.frameSize :: out[k] == random[k - 14];
      assert out[42..config.frameSize] == random[28..];
      Joined(out, 34, 42, config.frameSize);
    } else {
      assert forall k | 34 <= k < config.frameSize :: out[k] == random[k - 14];
      assert out[34..config.frameSize] == random[20..];
    }
    Joined(out, 14, 34, config.frameSize);
  }

  method WritePayload(config: TrafficConfig, sequence: u64, shape: FrameShape, out: array<u8>)
    requires ETHERNET_HEADER_SIZE <= config.frameSize <= out.Length && config.hostCount >= 2
    requires shape == Shape(config, sequence)
    modifies out
    ensures out[14..config.frameSize] == Payload(config, sequence)
    ensures OnlyWritten(out, 14, config.frameSize - 14)
  {
    hide Shape, RandomBytes, Ipv4Header, UdpHeader, Payload;
    var size := config.frameSize - ETHERNET_HEADER_SIZE;
    FillRandom(NextState(StartState(config, sequence)), out, 14, size);
    ghost var random := out[14..config.frameSize];
    PayloadIs(config, sequence, random);
    if size < 20 || size >= TWO_16 {
      return;
    }
    WriteHeaders(config, sequence, shape, out, random);
  }

  // ---- batches ----

  /** Frame `index` of a run that started at `first`; the counter wraps at 64 bits. */
  function FrameAt(config: TrafficConfig, first: u64, index: nat): (frame: seq<u8>)
    requires config.frameSize >= ETHERNET_HEADER_SIZE && config.hostCount >= 2
    ensures |frame| == config.frameSize
  {
    TrafficFrame(config, (first + index) % TWO_64)
  }

  /** Consecutive frames. */
  function Frames(config: TrafficConfig, first: u64, count: nat): (frames: seq<seq<u8>>)
    requires config.frameSize >= ETHERNET_HEADER_SIZE && config.hostCount >= 2
    ensures |frames| == count && forall i | 0 <= i < count :: frames[i] == FrameAt(config, first, i)
  {
    seq(count, i requires 0 <= i < count => FrameAt(config, first, i))
  }

  /** The CPU source: a batch of frames, each written into a buffer of its size. */
  method Fill(config: TrafficConfig, first: u64, count: nat) returns (frames: seq<seq<u8>>)
    requires config.frameSize >= ETHERNET_HEADER_SIZE && config.hostCount >= 2
    ensures frames == Frames(config, first, count)
  {
    hide TrafficFrame;
    frames := [];
    for index := 0 to count
      invariant |frames| == index && forall i | 0 <= i < index :: frames[i] == FrameAt(config, first, i)
    {
      var buffer := new u8[config.frameSize](_ => 0);
      var _ := WriteTrafficFrame(config, (first + index) % TWO_64, buffer);
      frames := frames + [buffer[..]];
    }
  }
}
