/** The pcapng writer of src/pcap.cpp, and the round trip through the reader. */
module PcapWriter {
  import opened Arith
  import opened Words
  import opened Sequences
  import opened Results
  import opened PcapReader
  import opened PcapBlocks
  import opened PcapStreams

  const OPTION_COMMENT: u16 := 1
  const OPTION_INTERFACE_NAME: u16 := 2
  const OPTION_USER_APPLICATION: u16 := 4
  const USER_APPLICATION: seq<u8> := [0x57, 0x69, 0x72, 0x65, 0x4c, 0x61, 0x62]  // "WireLab"

  /** A growing buffer whose blocks get their length written in once they are complete. */
  class ByteBuffer {
    var data: seq<u8>

    constructor ()
      ensures data == []
    {
      data := [];
    }

    method AppendU16(value: u16)
      modifies this
      ensures data == old(data) + Bytes16(value, false)
    {
      data := data + [value % 0x100];
      data := data + [value / 0x100];
    }

    method AppendU32(value: u32)
      modifies this
      ensures data == old(data) + Bytes32(value, false)
    {
      data := data + [value % 0x100];
      data := data + [value / 0x100 % 0x100];
      data := data + [value / 0x1_0000 % 0x100];
      data := data + [value / 0x100_0000];
      Bytes32Flat(value);
    }

    method AppendU64(value: u64)
      modifies this
      ensures data == old(data) + (Bytes32(value % TWO_32, false) + Bytes32(value / TWO_32, false))
    {
      AppendU32(value % TWO_32);
      AppendU32(value / TWO_32);
    }

    method AppendBytes(bytes: seq<u8>)
      modifies this
      ensures data == old(data) + bytes
    {
      data := data + bytes;
    }

    method AppendPadding(length: nat)
      modifies this
      ensures data == old(data) + Padding(length)
    {
      var remainder := length % 4;
      if remainder != 0 {
        data := data + Zeros(4 - remainder);
      }
    }

    method AppendOption(code: u16, value: seq<u8>)
      modifies this
      ensures data == old(data) + RawOption(code, value)
    {
      AppendU16(code);
      AppendU16(|value| % TWO_16);
      AppendBytes(value);
      AppendPadding(|value|);
    }

    method AppendOptionEnd()
      modifies this
      ensures data == old(data) + OptionEnd()
    {
      AppendU16(OPTION_END);
      AppendU16(0);
    }

    /** Patches the length of the block that starts at `start` and repeats it after the block. */
    method CloseBlock(start: nat)
      requires start + 8 <= |data|
      modifies this
      ensures var total := Bytes32((old(|data|) - start + 4) % TWO_32, false);
              data == old(data)[..start + 4] + total + old(data)[start + 8..] + total
    {
      var total := (|data| - start + 4) % TWO_32;
      ghost var before := data;
      data := data[start + 4 := total % 0x100];
      data := data[start + 5 := total / 0x100 % 0x100];
      data := data[start + 6 := total / 0x1_0000 % 0x100];
      data := data[start + 7 := total / 0x100_0000];
      Bytes32Flat(total);
      assert data == before[..start + 4] + Bytes32(total, false) + before[start + 8..];
      AppendU32(total);
    }
  }

  /** An option as written: its length field keeps sixteen bits, its value is whole. */
  function RawOption(code: u16, value: seq<u8>): (bytes: seq<u8>)
    ensures |bytes| == 4 + Padded(|value|)
  {
    Bytes16(code, false) + (Bytes16(|value| % TWO_16, false) + (value + Padding(|value|)))
  }

  function OptionEnd(): (bytes: seq<u8>)
    ensures |bytes| == 4
  {
    Bytes16(OPTION_END, false) + Bytes16(0, false)
  }

  // ---- what is written, as blocks ----

  const VERSION_AND_LENGTH: seq<u8> := [1, 0, 0, 0, 255, 255, 255, 255, 255, 255, 255, 255]

  function SectionBlock(): Block {
    Section(false, VERSION_AND_LENGTH + (RawOption(OPTION_USER_APPLICATION, USER_APPLICATION) + OptionEnd()))
  }

  function InterfaceBlock(name: seq<u8>, snaplen: u32): Block {
    Interface(LINKTYPE_ETHERNET, 0, snaplen,
              [Item(OPTION_INTERFACE_NAME, name), Item(OPTION_TIMESTAMP_RESOLUTION, [NANOSECOND_RESOLUTION])], [])
  }

  /** One call of `write`. */
  datatype Record = Record(timestamp: u64, frame: seq<u8>, original: u64, comment: seq<u8>)

  function Trailer(record: Record): seq<u8> {
    Padding(|record.frame|)
    + (if record.comment == [] then [] else RawOption(OPTION_COMMENT, record.comment) + OptionEnd())
  }

  function PacketBlock(record: Record): Block {
    Enhanced(0, record.timestamp, |record.frame| % TWO_32, Max(record.original, |record.frame|) % TWO_32,
             record.frame + Trailer(record))
  }

  /** The lengths a record writes fit their 32-bit fields. */
  predicate FitsWord(record: Record) {
    Size(PacketBlock(record)) < TWO_32 && record.original < TWO_32
  }

  predicate FitsName(name: seq<u8>) {
    |name| < TWO_16
  }

  lemma PacketEncodable(record: Record)
    requires FitsWord(record)
    ensures Encodable(PacketBlock(record))
  {
    hide RawOption, OptionEnd, Padding, Padded;
    assert |record.frame + Trailer(record)|
        == Padded(|record.frame|) + if record.comment == [] then 0 else 8 + Padded(|record.comment|);
  }

  lemma HeaderEncodable(name: seq<u8>, snaplen: u32)
    requires FitsName(name)
    ensures Encodable(SectionBlock()) && Encodable(InterfaceBlock(name, snaplen))
  {
    var options := InterfaceBlock(name, snaplen).options;
    var resolution := Item(OPTION_TIMESTAMP_RESOLUTION, [NANOSECOND_RESOLUTION]);
    assert options[1..] == [resolution] && options[1..][1..] == [];
    assert ItemsSize([resolution]) == 4 + 4 + ItemsSize([]);
    assert ItemsSize(options) == 4 + Padded(|name|) + 12;
  }

  // ---- the bytes of a block as the writer makes them ----

  function RawBlock(kind: u32, body: seq<u8>): seq<u8> {
    var total := Bytes32((|body| + BLOCK_MINIMUM_SIZE) % TWO_32, false);
    Bytes32(kind, false) + (total + (body + total))
  }

  function SectionBody(): seq<u8> {
    Bytes32(BYTE_ORDER_MAGIC, false) + SectionBlock().rest
  }

  function InterfaceBody(name: seq<u8>, snaplen: u32): seq<u8> {
    Bytes16(LINKTYPE_ETHERNET, false)
    + (Bytes16(0, false)
       + (Bytes32(snaplen, false)
          + (RawOption(OPTION_INTERFACE_NAME, name)
             + (RawOption(OPTION_TIMESTAMP_RESOLUTION, [NANOSECOND_RESOLUTION]) + OptionEnd()))))
  }

  function HeaderBytes(name: seq<u8>, snaplen: u32): seq<u8> {
    RawBlock(SECTION_HEADER, SectionBody()) + RawBlock(INTERFACE_DESCRIPTION, InterfaceBody(name, snaplen))
  }

  function PacketBody(record: Record): seq<u8>
    requires |record.frame| <= MAXIMUM_SNAPLEN
  {
    Bytes32(0, false)
    + (Bytes32(record.timestamp / TWO_32, false)
       + (Bytes32(record.timestamp % TWO_32, false)
          + (Bytes32(|record.frame|, false)
             + (Bytes32(Max(record.original, |record.frame|) % TWO_32, false) + (record.frame + Trailer(record))))))
  }

  function PacketBytes(record: Record): seq<u8>
    requires |record.frame| <= MAXIMUM_SNAPLEN
  {
    RawBlock(ENHANCED_PACKET, PacketBody(record))
  }

  /** Patching the length into a block under construction makes the finished block. */
  lemma Closed(buffer: seq<u8>, start: nat, before: seq<u8>, kind: u32, body: seq<u8>)
    requires start == |before| && buffer == before + (Bytes32(kind, false) + Bytes32(0, false) + body)
    ensures start + 8 <= |buffer|
    ensures var total := Bytes32((|buffer| - start + 4) % TWO_32, false);
            buffer[..start + 4] + total + buffer[start + 8..] + total == before + RawBlock(kind, body)
  {
    var total := Bytes32((|buffer| - start + 4) % TWO_32, false);
    assert buffer[..start + 4] == before + Bytes32(kind, false);
    assert buffer[start + 8..] == body;
    Assoc(before + Bytes32(kind, false) + total, body, total);
    Assoc(before + Bytes32(kind, false), total, body + total);
    Assoc(before, Bytes32(kind, false), total + (body + total));
  }

  class PcapNgWriter {
    var stream: seq<u8>
    var writtenPackets: nat

    constructor (interfaceName: seq<u8>, snaplen: u32)
      ensures stream == HeaderBytes(interfaceName, snaplen) && writtenPackets == 0
    {
      hide SectionBody, InterfaceBody, RawBlock;
      var header := new ByteBuffer();
      AppendSection(header);
      AppendInterface(header, interfaceName, snaplen);
      stream := header.data;
      writtenPackets := 0;
    }

    /** Writes the first `captured` bytes of `bytes`, which is None for a null pointer. */
    method Write(timestamp: u64, bytes: Option<seq<u8>>, captured: nat, original: u64, comment: seq<u8>)
      returns (r: Result<(), PcapError>)
      requires bytes.Some? ==> captured <= |bytes.value|
      modifies this
      ensures bytes.None? && captured != 0 ==> r == Err(FileWrite)
      ensures bytes.Some? && captured > MAXIMUM_SNAPLEN ==> r == Err(OversizePacket)
      ensures (bytes.Some? || captured == 0) && captured <= MAXIMUM_SNAPLEN ==> r == Ok(())
      ensures r.Err? ==> stream == old(stream) && writtenPackets == old(writtenPackets)
      ensures r.Ok? ==>
                var frame := if bytes.Some? then bytes.value[..captured] else [];
                && stream == old(stream) + PacketBytes(Record(timestamp, frame, original, comment))
                && writtenPackets == old(writtenPackets) + 1
    {
      hide Bytes32, PacketBody, RawBlock, Trailer, FieldBytes;
      if bytes.None? && captured != 0 {
        return Err(FileWrite);
      }
      if captured > MAXIMUM_SNAPLEN {
        return Err(OversizePacket);
      }
      var frame := if bytes.Some? then bytes.value[..captured] else [];
      var record := Record(timestamp, frame, original, comment);
      var block := new ByteBuffer();
      block.AppendU32(ENHANCED_PACKET);
      block.AppendU32(0);
      ghost var base := block.data;
      AppendFields(block, timestamp, frame, original);
      ghost var fields := block.data;
      AppendTrailer(block, record);
      PacketFlat(base, fields, block.data, record);
      Closed(block.data, 0, [], ENHANCED_PACKET, PacketBody(record));
      block.CloseBlock(0);
      stream := stream + block.data;
      writtenPackets := writtenPackets + 1;
      return Ok(());
    }
  }

  method AppendSection(header: ByteBuffer)
    requires header.data == []
    modifies header
    ensures header.data == RawBlock(SECTION_HEADER, SectionBody())
  {
    hide Bytes32, Bytes16, RawOption, OptionEnd, SectionBody, RawBlock;
    header.AppendU32(SECTION_HEADER);
    header.AppendU32(0);
    ghost var base := header.data;
    header.AppendU32(BYTE_ORDER_MAGIC);
    header.AppendU16(1);
    header.AppendU16(0);
    header.AppendU64(0xffff_ffff_ffff_ffff);
    header.AppendOption(OPTION_USER_APPLICATION, USER_APPLICATION);
    header.AppendOptionEnd();
    SectionFlat(base, header.data);
    Closed(header.data, 0, [], SECTION_HEADER, SectionBody());
    header.CloseBlock(0);
  }

  method AppendInterface(header: ByteBuffer, name: seq<u8>, snaplen: u32)
    modifies header
    ensures header.data == old(header.data) + RawBlock(INTERFACE_DESCRIPTION, InterfaceBody(name, snaplen))
  {
    hide Bytes32, Bytes16, RawOption, OptionEnd, InterfaceBody, RawBlock;
    ghost var section := header.data;
    var start := |header.data|;
    header.AppendU32(INTERFACE_DESCRIPTION);
    header.AppendU32(0);
    ghost var base := header.data;
    header.AppendU16(LINKTYPE_ETHERNET);
    header.AppendU16(0);
    header.AppendU32(snaplen);
    header.AppendOption(OPTION_INTERFACE_NAME, name);
    header.AppendOption(OPTION_TIMESTAMP_RESOLUTION, [NANOSECOND_RESOLUTION]);
    header.AppendOptionEnd();
    InterfaceFlat(base, header.data, name, snaplen);
    Assoc(section, Bytes32(INTERFACE_DESCRIPTION, false), Bytes32(0, false));
    Assoc(section, Bytes32(INTERFACE_DESCRIPTION, false) + Bytes32(0, false), InterfaceBody(name, snaplen));
    Closed(header.data, start, section, INTERFACE_DESCRIPTION, InterfaceBody(name, snaplen));
    header.CloseBlock(start);
  }

  function FieldBytes(timestamp: u64, frame: seq<u8>, original: u64): seq<u8>
    requires |frame| <= MAXIMUM_SNAPLEN
  {
    Bytes32(0, false) + Bytes32(timestamp / TWO_32, false) + Bytes32(timestamp % TWO_32, false)
    + Bytes32(|frame|, false) + Bytes32(Max(original, |frame|) % TWO_32, false) + frame
  }

  method AppendFields(block: ByteBuffer, timestamp: u64, frame: seq<u8>, original: u64)
    requires |frame| <= MAXIMUM_SNAPLEN
    modifies block
    ensures block.data == old(block.data) + FieldBytes(timestamp, frame, original)
  {
    hide Bytes32;
    ghost var base := block.data;
    var wire := Max(original, |frame|) % TWO_32;
    block.AppendU32(0);
    block.AppendU32(timestamp / TWO_32);
    Assoc(base, Bytes32(0, false), Bytes32(timestamp / TWO_32, false));
    block.AppendU32(timestamp % TWO_32);
    ghost var three := Bytes32(0, false) + Bytes32(timestamp / TWO_32, false);
    Assoc(base, three, Bytes32(timestamp % TWO_32, false));
    three := three + Bytes32(timestamp % TWO_32, false);
    block.AppendU32(|frame|);
    Assoc(base, three, Bytes32(|frame|, false));
    block.AppendU32(wire);
    Assoc(base, three + Bytes32(|frame|, false), Bytes32(wire, false));
    block.AppendBytes(frame);
    Assoc(base, three + Bytes32(|frame|, false) + Bytes32(wire, false), frame);
  }

  method AppendTrailer(block: ByteBuffer, record: Record)
    modifies block
    ensures block.data == old(block.data) + Trailer(record)
  {
    hide RawOption, OptionEnd, Padding;
    ghost var fields := block.data;
    block.AppendPadding(|record.frame|);
    if record.comment != [] {
      block.AppendOption(OPTION_COMMENT, record.comment);
      block.AppendOptionEnd();
    }
    TrailerFlat(fields, block.data, record);
  }

  lemma SectionFlat(base: seq<u8>, built: seq<u8>)
    requires built == base + Bytes32(BYTE_ORDER_MAGIC, false) + Bytes16(1, false) + Bytes16(0, false)
                      + (Bytes32(0xffff_ffff, false) + Bytes32(0xffff_ffff, false))
                      + RawOption(OPTION_USER_APPLICATION, USER_APPLICATION) + OptionEnd()
    ensures built == base + SectionBody()
  {
    var options := RawOption(OPTION_USER_APPLICATION, USER_APPLICATION);
    var magic := Bytes32(BYTE_ORDER_MAGIC, false);
    assert Bytes16(1, false) + Bytes16(0, false) + (Bytes32(0xffff_ffff, false) + Bytes32(0xffff_ffff, false))
        == VERSION_AND_LENGTH;
    assert built == base + magic + VERSION_AND_LENGTH + options + OptionEnd();
    Assoc(base + magic + VERSION_AND_LENGTH, options, OptionEnd());
    Assoc(base + magic, VERSION_AND_LENGTH, options + OptionEnd());
    Assoc(base, magic, VERSION_AND_LENGTH + (options + OptionEnd()));
  }

  lemma InterfaceFlat(base: seq<u8>, built: seq<u8>, name: seq<u8>, snaplen: u32)
    requires built == base + Bytes16(LINKTYPE_ETHERNET, false) + Bytes16(0, false) + Bytes32(snaplen, false)
                      + RawOption(OPTION_INTERFACE_NAME, name)
                      + RawOption(OPTION_TIMESTAMP_RESOLUTION, [NANOSECOND_RESOLUTION]) + OptionEnd()
    ensures built == base + InterfaceBody(name, snaplen)
  {
    var a, b, c := Bytes16(LINKTYPE_ETHERNET, false), Bytes16(0, false), Bytes32(snaplen, false);
    var d := RawOption(OPTION_INTERFACE_NAME, name);
    var e := RawOption(OPTION_TIMESTAMP_RESOLUTION, [NANOSECOND_RESOLUTION]);
    Assoc(base + a + b + c + d, e, OptionEnd());
    Assoc(base + a + b + c, d, e + OptionEnd());
    Assoc(base + a + b, c, d + (e + OptionEnd()));
    Assoc(base + a, b, c + (d + (e + OptionEnd())));
    Assoc(base, a, b + (c + (d + (e + OptionEnd()))));
  }

  lemma TrailerFlat(fields: seq<u8>, built: seq<u8>, record: Record)
    requires built == if record.comment == [] then fields + Padding(|record.frame|)
                      else fields + Padding(|record.frame|) + RawOption(OPTION_COMMENT, record.comment) + OptionEnd()
    ensures built == fields + Trailer(record)
  {
    var padding, option := Padding(|record.frame|), RawOption(OPTION_COMMENT, record.comment);
    Assoc(fields + padding, option, OptionEnd());
    Assoc(fields, padding, option + OptionEnd());
  }

  lemma PacketFlat(base: seq<u8>, fields: seq<u8>, built: seq<u8>, record: Record)
    requires |record.frame| <= MAXIMUM_SNAPLEN
    requires fields == base + FieldBytes(record.timestamp, record.frame, record.original)
    requires built == fields + Trailer(record)
    ensures built == base + PacketBody(record)
  {
    hide Bytes32, Trailer;
    var a, b := Bytes32(0, false), Bytes32(record.timestamp / TWO_32, false);
    var c, d := Bytes32(record.timestamp % TWO_32, false), Bytes32(|record.frame|, false);
    var e, t := Bytes32(Max(record.original, |record.frame|) % TWO_32, false), Trailer(record);
    Assoc(base, a + b + c + d + e + record.frame, t);
    Assoc(a + b + c + d + e, record.frame, t);
    Assoc(a + b + c + d, e, record.frame + t);
    Assoc(a + b + c, d, e + (record.frame + t));
    Assoc(a + b, c, d + (e + (record.frame + t)));
    Assoc(a, b, c + (d + (e + (record.frame + t))));
  }

  // ---- the round trip ----

  lemma SectionIsEncoded()
    ensures Encodable(SectionBlock())
    ensures RawBlock(SECTION_HEADER, SectionBody()) == Encode(SectionBlock(), false)
  {
    HeaderEncodable([], 0);
  }

  lemma InterfaceIsEncoded(name: seq<u8>, snaplen: u32)
    requires FitsName(name)
    ensures Encodable(InterfaceBlock(name, snaplen))
    ensures RawBlock(INTERFACE_DESCRIPTION, InterfaceBody(name, snaplen))
            == Encode(InterfaceBlock(name, snaplen), false)
    ensures ItemResolution(InterfaceBlock(name, snaplen).options) == NANOSECOND_RESOLUTION
  {
    hide Bytes32, Bytes16, RawOption, EncodeItem, OptionEnd;
    HeaderEncodable(name, snaplen);
    var n, r := Item(OPTION_INTERFACE_NAME, name), Item(OPTION_TIMESTAMP_RESOLUTION, [NANOSECOND_RESOLUTION]);
    OptionIsItem(n);
    OptionIsItem(r);
    ItemsOfTwo(n, r);
    assert InterfaceBody(name, snaplen) == Body(InterfaceBlock(name, snaplen), false);
  }

  lemma OptionIsItem(item: Item)
    requires ValidItem(item)
    ensures RawOption(item.code, item.value) == EncodeItem(item, false)
  {
    hide Bytes16, Padding;
  }

  lemma ItemsOfTwo(n: Item, r: Item)
    requires ValidItem(n) && ValidItem(r)
    ensures ValidItems([n, r])
    ensures EncodeItems([n, r], false) == EncodeItem(n, false) + (EncodeItem(r, false) + OptionEnd())
    ensures n.code != OPTION_TIMESTAMP_RESOLUTION && r.code == OPTION_TIMESTAMP_RESOLUTION && r.value != [] ==>
              ItemResolution([n, r]) == r.value[0]
  {
    hide EncodeItem;
    assert [n, r][1..] == [r] && [r][1..] == [];
    assert EncodeItems([r], false) == EncodeItem(r, false) + EncodeItems([], false);
    assert ItemResolution([n, r]) == ItemResolution([r]) || n.code == OPTION_TIMESTAMP_RESOLUTION;
  }

  lemma PacketIsEncoded(record: Record)
    requires FitsWord(record) && |record.frame| <= MAXIMUM_SNAPLEN
    ensures Encodable(PacketBlock(record)) && PacketBytes(record) == Encode(PacketBlock(record), false)
  {
    hide Bytes32, RawOption, Padding, OptionEnd, Encodable;
    PacketEncodable(record);
    assert PacketBody(record) == Body(PacketBlock(record), false);
  }

  /** Records the reader can give back: what `write` accepts, in 32-bit lengths. */
  predicate Recoverable(record: Record)
    ensures Recoverable(record) ==> |record.frame| <= MAXIMUM_SNAPLEN
  {
    |record.frame| <= MAXIMUM_SNAPLEN && FitsWord(record)
  }

  predicate AcceptedAll(records: seq<Record>) {
    forall i | 0 <= i < |records| :: |records[i].frame| <= MAXIMUM_SNAPLEN
  }

  predicate RecoverableAll(records: seq<Record>) {
    forall i | 0 <= i < |records| :: Recoverable(records[i])
  }

  /** What accepted `write` calls append to the file, in order. */
  function Written(records: seq<Record>): seq<u8>
    requires AcceptedAll(records)
  {
    if records == [] then [] else PacketBytes(records[0]) + Written(records[1..])
  }

  lemma {:induction false} WrittenThen(records: seq<Record>, last: Record)
    requires AcceptedAll(records) && |last.frame| <= MAXIMUM_SNAPLEN
    ensures AcceptedAll(records + [last])
    ensures Written(records + [last]) == Written(records) + PacketBytes(last)
  {
    hide PacketBytes;
    if records == [] {
      assert [last][1..] == [];
    } else {
      assert (records + [last])[1..] == records[1..] + [last];
      WrittenThen(records[1..], last);
      Assoc(PacketBytes(records[0]), Written(records[1..]), PacketBytes(last));
    }
  }

  /** The packet read back from `data` is the record that was written. */
  predicate Recovers(data: seq<u8>, packet: Packet, record: Record) {
    && packet.timestamp == record.timestamp
    && packet.captured == |record.frame|
    && packet.original == Max(record.original, |record.frame|)
    && At(data, packet.offset, record.frame)
  }

  predicate RecoversAll(data: seq<u8>, packets: seq<Packet>, records: seq<Record>) {
    |packets| == |records| && forall i | 0 <= i < |records| :: Recovers(data, packets[i], records[i])
  }

  lemma ReadsRecord(data: seq<u8>, c: Cursor, record: Record)
    requires Recoverable(record) && !c.swapped && c.resolutions == [NANOSECOND_RESOLUTION]
    requires At(data, c.at, PacketBytes(record))
    ensures |PacketBytes(record)| > 0
    ensures var r := ReadBlock(data, c);
            && r.Ok?
            && var packet := Packet(record.timestamp, c.at + 28, |record.frame|, Max(record.original, |record.frame|));
            && Recovers(data, packet, record)
            && r.value == AddPacket(c, packet).(at := c.at + |PacketBytes(record)|)
  {
    hide At, Encode, Body, ReadBlock, ReadBody, PacketBytes;
    var block := PacketBlock(record);
    PacketIsEncoded(record);
    ReadsBlock(data, c, block);
    BodyOfBlock(data, c.at, block, false);
    ReadsEnhanced(data, c, block);
    Split(data, c.at + 28, record.frame, Trailer(record));
    ScaleUpStep(record.timestamp, 0);
  }

  lemma {:induction false} ReadsRecords(data: seq<u8>, c: Cursor, records: seq<Record>)
    requires RecoverableAll(records)
    requires !c.swapped && c.resolutions == [NANOSECOND_RESOLUTION]
    requires At(data, c.at, Written(records)) && c.at + |Written(records)| == |data|
    ensures var r := ReadBlocks(data, c);
            && r.Ok?
            && c.capture.packets <= r.value.capture.packets
            && RecoversAll(data, r.value.capture.packets[|c.capture.packets|..], records)
            && r.value.capture == c.capture.(packets := r.value.capture.packets)
    decreases |records|
  {
    hide At, ReadBlock, PacketBytes, Recovers;
    if records != [] {
      Split(data, c.at, PacketBytes(records[0]), Written(records[1..]));
      ReadsRecord(data, c, records[0]);
      var next := ReadBlock(data, c).value;
      ReadsRecords(data, next, records[1..]);
    }
  }

  /** The file `create` and `write` produce reads back as exactly the records written, in order, with
      their nanosecond timestamps, frame bytes and wire lengths, whatever their comments. */
  lemma RoundTrip(name: seq<u8>, snaplen: u32, records: seq<Record>)
    requires FitsName(name) && RecoverableAll(records)
    ensures var file := HeaderBytes(name, snaplen) + Written(records);
            && ReadPcapng(file).Ok?
            && var capture := ReadPcapng(file).value;
            && RecoversAll(file, capture.packets, records)
            && capture.nanoseconds && capture.linkType == LINKTYPE_ETHERNET
            && capture.snaplen == if snaplen == 0 then MAXIMUM_SNAPLEN else snaplen
  {
    hide At, ReadBlock, Encode, SectionBody, InterfaceBody, RawBlock, RecoversAll;
    var header, written := HeaderBytes(name, snaplen), Written(records);
    var file := header + written;
    var section, face := SectionBlock(), InterfaceBlock(name, snaplen);
    SectionIsEncoded();
    InterfaceIsEncoded(name, snaplen);
    Whole(file);
    Split(file, 0, header, written);
    Split(file, 0, Encode(section, false), Encode(face, false));
    ReadsBlock(file, START, section);
    var c1 := Meaning(section, START).value;
    ReadsBlock(file, c1, face);
    var c2 := Meaning(face, c1).value;
    assert ReadBlocks(file, START) == ReadBlocks(file, c1) == ReadBlocks(file, c2);
    ReadsRecords(file, c2, records);
    var packets := ReadBlocks(file, c2).value.capture.packets;
    assert packets[0..] == packets;
  }
}
