/** The pcapng reader of src/pcap.cpp: draft-ietf-opsawg-pcapng, sections 3.1, 3.5 and 4.1 to 4.4.
    `ReadPcapng` is the block walk as a function; the methods are the source's loops, proved equal to it. */
module PcapReader {
  import opened Arith
  import opened Durations
  import opened Words
  import opened Results

  datatype PcapError =
    | FileWrite
    | TruncatedHeader
    | UnknownMagic
    | UnsupportedLinkType
    | TruncatedPacket
    | OversizePacket

  const SECTION_HEADER: u32 := 0x0a0d0d0a
  const INTERFACE_DESCRIPTION: u32 := 1
  const SIMPLE_PACKET: u32 := 3
  const ENHANCED_PACKET: u32 := 6
  const BYTE_ORDER_MAGIC: u32 := 0x1a2b3c4d
  const BYTE_ORDER_MAGIC_SWAPPED: u32 := 0x4d3c2b1a
  const BLOCK_MINIMUM_SIZE := 12
  const DEFAULT_RESOLUTION: u8 := 6
  const NANOSECOND_RESOLUTION: u8 := 9
  const OPTION_END: u16 := 0
  const OPTION_TIMESTAMP_RESOLUTION: u16 := 9
  const MAXIMUM_SNAPLEN: u32 := 262144
  const LINKTYPE_ETHERNET: u32 := 1

  /** A frame as an index into the capture's byte buffer. */
  datatype Packet = Packet(timestamp: u64, offset: nat, captured: nat, original: nat)

  datatype Capture = Capture(packets: seq<Packet>, linkType: u32, snaplen: u32, nanoseconds: bool)

  /** Where the block walk stands, and the per-section state it carries. */
  datatype Cursor = Cursor(at: nat, swapped: bool, resolutions: seq<u8>, capture: Capture)

  const START := Cursor(0, false, [], Capture([], LINKTYPE_ETHERNET, 0, false))

  function Padded(length: nat): (padded: nat)
    ensures padded % 4 == 0 && length <= padded < length + 4
  {
    (length + 3) / 4 * 4
  }

  /** if_tsresol among the options that start at `offset`, or microseconds. */
  function Resolution(options: seq<u8>, offset: nat, swapped: bool): u8
    decreases |options| - offset
  {
    if offset + 4 > |options| then DEFAULT_RESOLUTION
    else
      var code := ReadU16(options, offset, swapped);
      var length := ReadU16(options, offset + 2, swapped);
      if code == OPTION_END then DEFAULT_RESOLUTION
      else if code == OPTION_TIMESTAMP_RESOLUTION && length >= 1 && offset + 4 + length <= |options| then
        options[offset + 4]
      else Resolution(options, offset + 4 + Padded(length), swapped)
  }

  method ReadTimestampResolution(options: seq<u8>, swapped: bool) returns (resolution: u8)
    ensures resolution == Resolution(options, 0, swapped)
  {
    var offset := 0;
    while offset + 4 <= |options|
      invariant Resolution(options, 0, swapped) == Resolution(options, offset, swapped)
      decreases |options| - offset
    {
      var code := ReadU16(options, offset, swapped);
      var length := ReadU16(options, offset + 2, swapped);
      if code == OPTION_END {
        break;
      }
      if code == OPTION_TIMESTAMP_RESOLUTION && length >= 1 && offset + 4 + length <= |options| {
        return options[offset + 4];
      }
      offset := offset + 4 + Padded(length);
    }
    return DEFAULT_RESOLUTION;
  }

  /** Scaling by powers of ten in 64-bit arithmetic. */
  function ScaledUp(ticks: u64, decimals: nat): u64 {
    ticks * Pow(10, decimals) % TWO_64
  }

  function ScaledDown(ticks: u64, decimals: nat): u64 {
    DivideBound(ticks, Pow(10, decimals));
    ticks / Pow(10, decimals)
  }

  lemma ScaleUpStep(ticks: u64, decimals: nat)
    ensures ScaledUp(ticks, 0) == ticks
    ensures ScaledUp(ticks, decimals) * 10 % TWO_64 == ScaledUp(ticks, decimals + 1)
  {
    WrapTwice(ticks * Pow(10, decimals), 10, TWO_64);
    assert ticks * Pow(10, decimals) * 10 == ticks * Pow(10, decimals + 1);
  }

  lemma ScaleDownStep(ticks: u64, decimals: nat)
    ensures ScaledDown(ticks, 0) == ticks
    ensures ScaledDown(ticks, decimals) / 10 == ScaledDown(ticks, decimals + 1)
  {
    DivideTwice(ticks, Pow(10, decimals), 10);
  }

  /** Ticks of 10^-r or 2^-p seconds as nanoseconds. */
  function Nanoseconds(ticks: u64, resolution: u8): u64 {
    if resolution >= 0x80 then
      var power := resolution - 0x80;
      if power >= 64 then 0
      else
        DivideBound(ticks * NANOSECONDS_PER_SECOND % TWO_64, Pow(2, power));
        ticks * NANOSECONDS_PER_SECOND % TWO_64 / Pow(2, power)
    else if resolution <= 9 then ScaledUp(ticks, 9 - resolution)
    else ScaledDown(ticks, resolution - 9)
  }

  method TicksToNanoseconds(ticks: u64, resolution: u8) returns (nanoseconds: u64)
    ensures nanoseconds == Nanoseconds(ticks, resolution)
  {
    hide ScaledUp, ScaledDown;
    if resolution >= 0x80 {
      return Nanoseconds(ticks, resolution);
    }
    nanoseconds := ticks;
    var decimals := resolution;
    ScaleUpStep(ticks, 0);
    ScaleDownStep(ticks, 0);
    while decimals < 9
      invariant resolution <= decimals <= Max(9, resolution)
      invariant nanoseconds == ScaledUp(ticks, decimals - resolution)
    {
      ScaleUpStep(ticks, decimals - resolution);
      nanoseconds := nanoseconds * 10 % TWO_64;
      decimals := decimals + 1;
    }
    while decimals > 9
      invariant 9 <= decimals <= Max(9, resolution)
      invariant resolution <= 9 ==> nanoseconds == ScaledUp(ticks, 9 - resolution)
      invariant resolution > 9 ==> nanoseconds == ScaledDown(ticks, resolution - decimals)
    {
      ScaleDownStep(ticks, resolution - decimals);
      nanoseconds := nanoseconds / 10;
      decimals := decimals - 1;
    }
  }

  // ---- one block ----

  /** A section header fixes the byte order and forgets the interfaces. */
  function EnterSection(bytes: seq<u8>, c: Cursor): (r: Result<Cursor, PcapError>)
    requires c.at + BLOCK_MINIMUM_SIZE <= |bytes|
    ensures r.Ok? ==> r.value.at == c.at && r.value.capture == c.capture
    ensures ReadU32(bytes, c.at, c.swapped) != SECTION_HEADER ==> r == Ok(c)
  {
    if ReadU32(bytes, c.at, c.swapped) != SECTION_HEADER then Ok(c)
    else if |bytes| - c.at < 16 then Err(TruncatedHeader)
    else
      var order := ReadU32(bytes, c.at + 8, false);
      if order == BYTE_ORDER_MAGIC then Ok(c.(swapped := false, resolutions := []))
      else if order == BYTE_ORDER_MAGIC_SWAPPED then Ok(c.(swapped := true, resolutions := []))
      else Err(UnknownMagic)
  }

  function AddPacket(c: Cursor, packet: Packet): Cursor {
    c.(capture := c.capture.(packets := c.capture.packets + [packet]))
  }

  function AddInterface(c: Cursor, linkType: u16, snaplen: u32, resolution: u8): Result<Cursor, PcapError> {
    if linkType != LINKTYPE_ETHERNET then Err(UnsupportedLinkType)
    else Ok(c.(resolutions := c.resolutions + [resolution],
               capture := c.capture.(
               linkType := linkType,
               snaplen := Max(c.capture.snaplen, snaplen),
               nanoseconds := c.capture.nanoseconds || DEFAULT_RESOLUTION < resolution < 0x80)))
  }

  function AddEnhanced(c: Cursor, room: nat, id: u32, ticks: u64, captured: u32, original: u32)
    : Result<Cursor, PcapError>
  {
    if captured > MAXIMUM_SNAPLEN then Err(OversizePacket)
    else if room < captured || id >= |c.resolutions| then Err(TruncatedPacket)
    else Ok(AddPacket(c, Packet(Nanoseconds(ticks, c.resolutions[id]), c.at + 28, captured, original)))
  }

  function AddSimple(c: Cursor, room: nat, original: u32): Result<Cursor, PcapError> {
    var captured := if c.capture.snaplen == 0 then original else Min(original, c.capture.snaplen);
    if captured > MAXIMUM_SNAPLEN then Err(OversizePacket)
    else if room < captured then Err(TruncatedPacket)
    else Ok(AddPacket(c, Packet(0, c.at + 12, captured, original)))
  }

  /** The blocks that carry frames, by type; anything else is skipped. */
  function ReadBody(bytes: seq<u8>, c: Cursor, kind: u32, room: nat): (r: Result<Cursor, PcapError>)
    requires c.at + 8 + room <= |bytes|
  {
    var body := c.at + 8;
    if kind == INTERFACE_DESCRIPTION then
      if room < 8 then Err(TruncatedHeader)
      else
        AddInterface(c, ReadU16(bytes, body, c.swapped), ReadU32(bytes, body + 4, c.swapped),
                     Resolution(bytes[body + 8..body + room], 0, c.swapped))
    else if kind == ENHANCED_PACKET then
      if room < 20 then Err(TruncatedHeader)
      else
        AddEnhanced(c, room - 20, ReadU32(bytes, body, c.swapped),
                    ReadU32(bytes, body + 4, c.swapped) * TWO_32 + ReadU32(bytes, body + 8, c.swapped),
                    ReadU32(bytes, body + 12, c.swapped), ReadU32(bytes, body + 16, c.swapped))
    else if kind == SIMPLE_PACKET then
      if room < 4 || c.resolutions == [] then Err(TruncatedPacket)
      else AddSimple(c, room - 4, ReadU32(bytes, body, c.swapped))
    else Ok(c)
  }

  function ReadBlock(bytes: seq<u8>, c: Cursor): (r: Result<Cursor, PcapError>)
    requires c.at < |bytes|
    ensures r.Ok? ==> c.at + BLOCK_MINIMUM_SIZE <= r.value.at <= |bytes|
  {
    if |bytes| - c.at < BLOCK_MINIMUM_SIZE then Err(TruncatedPacket)
    else
      var kind := ReadU32(bytes, c.at, c.swapped);
      var entered :- EnterSection(bytes, c);
      var length := ReadU32(bytes, c.at + 4, entered.swapped);
      if length < BLOCK_MINIMUM_SIZE || length % 4 != 0 || length > |bytes| - c.at then Err(TruncatedPacket)
      else
        var next :- ReadBody(bytes, entered, kind, length - BLOCK_MINIMUM_SIZE);
        if ReadU32(bytes, c.at + length - 4, entered.swapped) != length then Err(TruncatedPacket)
        else Ok(next.(at := c.at + length))
  }

  function ReadBlocks(bytes: seq<u8>, c: Cursor): Result<Cursor, PcapError>
    decreases |bytes| - c.at
  {
    if c.at >= |bytes| then Ok(c)
    else
      var next :- ReadBlock(bytes, c);
      ReadBlocks(bytes, next)
  }

  function Finish(capture: Capture): Capture {
    if capture.snaplen == 0 then capture.(snaplen := MAXIMUM_SNAPLEN) else capture
  }

  function ReadPcapng(bytes: seq<u8>): Result<Capture, PcapError> {
    var c :- ReadBlocks(bytes, START);
    Ok(Finish(c.capture))
  }

  method TakeBody(bytes: seq<u8>, c: Cursor, kind: u32, room: nat) returns (r: Result<Cursor, PcapError>)
    requires c.at + 8 + room <= |bytes|
    ensures r == ReadBody(bytes, c, kind, room)
  {
    hide Nanoseconds;
    var body := c.at + 8;
    if kind == INTERFACE_DESCRIPTION {
      if room < 8 {
        return Err(TruncatedHeader);
      }
      var resolution := ReadTimestampResolution(bytes[body + 8..body + room], c.swapped);
      r := AddInterface(c, ReadU16(bytes, body, c.swapped), ReadU32(bytes, body + 4, c.swapped), resolution);
    } else if kind == ENHANCED_PACKET {
      if room < 20 {
        return Err(TruncatedHeader);
      }
      var id := ReadU32(bytes, body, c.swapped);
      var ticks: u64 := ReadU32(bytes, body + 4, c.swapped) * TWO_32 + ReadU32(bytes, body + 8, c.swapped);
      var captured := ReadU32(bytes, body + 12, c.swapped);
      var original := ReadU32(bytes, body + 16, c.swapped);
      if captured > MAXIMUM_SNAPLEN {
        return Err(OversizePacket);
      }
      if room - 20 < captured || id >= |c.resolutions| {
        return Err(TruncatedPacket);
      }
      var timestamp := TicksToNanoseconds(ticks, c.resolutions[id]);
      r := Ok(AddPacket(c, Packet(timestamp, body + 20, captured, original)));
    } else if kind == SIMPLE_PACKET {
      if room < 4 || |c.resolutions| == 0 {
        return Err(TruncatedPacket);
      }
      r := AddSimple(c, room - 4, ReadU32(bytes, body, c.swapped));
    } else {
      r := Ok(c);
    }
  }

  method FromPcapngBytes(bytes: seq<u8>) returns (r: Result<Capture, PcapError>)
    ensures r == ReadPcapng(bytes)
  {
    hide ReadBody, EnterSection, ReadU32, Finish;
    var c := START;
    while c.at < |bytes|
      invariant ReadBlocks(bytes, START) == ReadBlocks(bytes, c)
      decreases |bytes| - c.at
    {
      if |bytes| - c.at < BLOCK_MINIMUM_SIZE {
        return Err(TruncatedPacket);
      }
      var kind := ReadU32(bytes, c.at, c.swapped);
      var entered :- EnterSection(bytes, c);
      var length := ReadU32(bytes, c.at + 4, entered.swapped);
      if length < BLOCK_MINIMUM_SIZE || length % 4 != 0 || length > |bytes| - c.at {
        return Err(TruncatedPacket);
      }
      var next: Result<Cursor, PcapError> := TakeBody(bytes, entered, kind, length - BLOCK_MINIMUM_SIZE);
      if next.Err? {
        return Err(next.error);
      }
      if ReadU32(bytes, c.at + length - 4, entered.swapped) != length {
        return Err(TruncatedPacket);
      }
      c := next.value.(at := c.at + length);
    }
    return Ok(Finish(c.capture));
  }
}
