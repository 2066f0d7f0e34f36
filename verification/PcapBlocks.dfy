/** What a pcapng byte stream means: a list of blocks, each section in its own byte order.
    The reader of PcapReader is proved to compute exactly this meaning from the encoded bytes. */
module PcapBlocks {
  import opened Arith
  import opened Words
  import opened Results
  import opened PcapReader

  /** An option of a block: section 3.5. */
  datatype Item = Item(code: u16, value: seq<u8>)

  /** A block without the framing that the encoding adds. `data` is whatever follows the lengths in a packet block:
      the frame, if they are honest, padding, and options; `ignored` stands behind the options that an end closes.
      `Short` is a block too short for its own fields. */
  datatype Block =
    | Section(swapped: bool, rest: seq<u8>)
    | Interface(linkType: u16, reserved: u16, snaplen: u32, options: seq<Item>, ignored: seq<u8>)
    | Enhanced(id: u32, ticks: u64, captured: u32, original: u32, data: seq<u8>)
    | Simple(original: u32, data: seq<u8>)
    | Short(kind: u32, body: seq<u8>)
    | Other(kind: u32, body: seq<u8>)

  function Zeros(count: nat): (zeros: seq<u8>)
    ensures |zeros| == count
  {
    seq(count, _ => 0)
  }

  function Padding(length: nat): (padding: seq<u8>)
    ensures |padding| == Padded(length) - length
  {
    Zeros(Padded(length) - length)
  }

  // ---- encoding ----

  predicate ValidItem(item: Item) {
    item.code != OPTION_END && |item.value| < TWO_16
  }

  predicate ValidItems(items: seq<Item>) {
    forall item <- items :: ValidItem(item)
  }

  function EncodeItem(item: Item, swapped: bool): (bytes: seq<u8>)
    requires ValidItem(item)
    ensures |bytes| == 4 + Padded(|item.value|)
  {
    Bytes16(item.code, swapped) + (Bytes16(|item.value|, swapped) + (item.value + Padding(|item.value|)))
  }

  function ItemsSize(items: seq<Item>): nat {
    if items == [] then 4 else 4 + Padded(|items[0].value|) + ItemsSize(items[1..])
  }

  /** The options, closed by the end marker. */
  function EncodeItems(items: seq<Item>, swapped: bool): (bytes: seq<u8>)
    requires ValidItems(items)
    ensures |bytes| == ItemsSize(items)
  {
    if items == [] then Bytes16(OPTION_END, swapped) + Bytes16(0, swapped)
    else EncodeItem(items[0], swapped) + EncodeItems(items[1..], swapped)
  }

  function Kind(block: Block): u32 {
    match block
    case Section(_, _) => SECTION_HEADER
    case Interface(_, _, _, _, _) => INTERFACE_DESCRIPTION
    case Enhanced(_, _, _, _, _) => ENHANCED_PACKET
    case Simple(_, _) => SIMPLE_PACKET
    case Short(kind, _) => kind
    case Other(kind, _) => kind
  }

  function BodySize(block: Block): nat {
    match block
    case Section(_, rest) => 4 + |rest|
    case Interface(_, _, _, options, ignored) => 8 + ItemsSize(options) + |ignored|
    case Enhanced(_, _, _, _, data) => 20 + |data|
    case Simple(_, data) => 4 + |data|
    case Short(_, body) => |body|
    case Other(_, body) => |body|
  }

  function Size(block: Block): nat { BodySize(block) + BLOCK_MINIMUM_SIZE }

  /** The bytes of a block's own fields, before options and frames. */
  function Fields(kind: u32): nat {
    if kind == INTERFACE_DESCRIPTION then 8 else if kind == ENHANCED_PACKET then 20 else 4
  }

  /** What the format can carry: aligned blocks whose lengths fit 32 bits. */
  predicate Encodable(block: Block) {
    && BodySize(block) % 4 == 0
    && Size(block) < TWO_32
    && (block.Interface? ==> ValidItems(block.options))
    && (block.Short? ==> block.kind in {INTERFACE_DESCRIPTION, ENHANCED_PACKET, SIMPLE_PACKET}
                         && |block.body| < Fields(block.kind))
    && (block.Other? ==>
          block.kind !in {SECTION_HEADER, INTERFACE_DESCRIPTION, ENHANCED_PACKET, SIMPLE_PACKET})
  }

  function Body(block: Block, swapped: bool): (body: seq<u8>)
    requires Encodable(block)
    ensures |body| == BodySize(block)
  {
    match block
    case Section(order, rest) => Bytes32(BYTE_ORDER_MAGIC, order) + rest
    case Interface(linkType, reserved, snaplen, options, ignored) =>
      Bytes16(linkType, swapped)
      + (Bytes16(reserved, swapped) + (Bytes32(snaplen, swapped) + (EncodeItems(options, swapped) + ignored)))
    case Enhanced(id, ticks, captured, original, data) =>
      Bytes32(id, swapped)
      + (Bytes32(ticks / TWO_32, swapped)
         + (Bytes32(ticks % TWO_32, swapped)
            + (Bytes32(captured, swapped) + (Bytes32(original, swapped) + data))))
    case Simple(original, data) => Bytes32(original, swapped) + data
    case Short(_, body) => body
    case Other(_, body) => body
  }

  /** A section is written in the order it announces; any other block in the current one. */
  function Order(block: Block, swapped: bool): bool {
    if block.Section? then block.swapped else swapped
  }

  function Encode(block: Block, swapped: bool): (bytes: seq<u8>)
    requires Encodable(block)
    ensures |bytes| == Size(block)
  {
    Bytes32(Kind(block), swapped)
    + (Bytes32(Size(block), swapped) + (Body(block, swapped) + Bytes32(Size(block), swapped)))
  }

  predicate EncodableAll(blocks: seq<Block>) {
    forall block <- blocks :: Encodable(block)
  }

  function EncodeAll(blocks: seq<Block>, swapped: bool): seq<u8>
    requires EncodableAll(blocks)
  {
    if blocks == [] then []
    else
      var order := Order(blocks[0], swapped);
      Encode(blocks[0], order) + EncodeAll(blocks[1..], order)
  }

  // ---- meaning ----

  function ItemResolution(items: seq<Item>): u8 {
    if items == [] then DEFAULT_RESOLUTION
    else if items[0].code == OPTION_TIMESTAMP_RESOLUTION && items[0].value != [] then items[0].value[0]
    else ItemResolution(items[1..])
  }

  function Effect(block: Block, c: Cursor): Result<Cursor, PcapError>
    requires Encodable(block)
  {
    match block
    case Section(order, _) => Ok(c.(swapped := order, resolutions := []))
    case Interface(linkType, _, snaplen, options, _) => AddInterface(c, linkType, snaplen, ItemResolution(options))
    case Enhanced(id, ticks, captured, original, data) => AddEnhanced(c, |data|, id, ticks, captured, original)
    case Simple(original, data) =>
      if c.resolutions == [] then Err(TruncatedPacket) else AddSimple(c, |data|, original)
    case Short(kind, _) => Err(if kind == SIMPLE_PACKET then TruncatedPacket else TruncatedHeader)
    case Other(_, _) => Ok(c)
  }

  function Meaning(block: Block, c: Cursor): Result<Cursor, PcapError>
    requires Encodable(block)
  {
    var next :- Effect(block, c);
    Ok(next.(at := c.at + Size(block)))
  }

  function MeaningAll(blocks: seq<Block>, c: Cursor): Result<Cursor, PcapError>
    requires EncodableAll(blocks)
  {
    if blocks == [] then Ok(c)
    else
      var next :- Meaning(blocks[0], c);
      MeaningAll(blocks[1..], next)
  }

  // ---- the reader computes the meaning ----

  lemma ReadsItem(options: seq<u8>, at: nat, item: Item, swapped: bool)
    requires ValidItem(item) && At(options, at, EncodeItem(item, swapped))
    ensures ReadU16(options, at, swapped) == item.code
    ensures ReadU16(options, at + 2, swapped) == |item.value|
    ensures item.value != [] ==> options[at + 4] == item.value[0]
  {
    hide Bytes16, ReadU16, Padded;
    var value := item.value;
    Split(options, at, Bytes16(item.code, swapped), Bytes16(|value|, swapped) + (value + Padding(|value|)));
    Split(options, at + 2, Bytes16(|value|, swapped), value + Padding(|value|));
    Split(options, at + 4, value, Padding(|value|));
    Read16(options, at, item.code, swapped);
    Read16(options, at + 2, |value|, swapped);
    if value != [] {
      var run := options[at + 4..at + 4 + |value|];
      assert run[0] == options[at + 4];
    }
  }

  lemma {:induction false} ReadsItems(options: seq<u8>, at: nat, items: seq<Item>, swapped: bool)
    requires ValidItems(items) && At(options, at, EncodeItems(items, swapped))
    ensures Resolution(options, at, swapped) == ItemResolution(items)
    decreases |items|
  {
    hide At, Bytes16, ReadU16, Padded, EncodeItem;
    if items == [] {
      Split(options, at, Bytes16(OPTION_END, swapped), Bytes16(0, swapped));
      Read16(options, at, OPTION_END, swapped);
    } else {
      var item := items[0];
      assert ValidItem(item);
      Split(options, at, EncodeItem(item, swapped), EncodeItems(items[1..], swapped));
      ReadsItem(options, at, item, swapped);
      if item.code != OPTION_TIMESTAMP_RESOLUTION || item.value == [] {
        ReadsItems(options, at + 4 + Padded(|item.value|), items[1..], swapped);
      }
    }
  }

  lemma Whole(data: seq<u8>)
    ensures At(data, 0, data)
  {
  }

  lemma ReadsInterface(data: seq<u8>, c: Cursor, block: Block)
    requires block.Interface? && Encodable(block) && At(data, c.at + 8, Body(block, c.swapped))
    ensures ReadBody(data, c, Kind(block), BodySize(block)) == Effect(block, c)
  {
    hide At, Bytes16, Bytes32, ReadU16, ReadU32, Resolution, EncodeItems, AddInterface, ItemResolution;
    var Interface(linkType, reserved, snaplen, options, ignored) := block;
    var at, order, items := c.at + 8, c.swapped, EncodeItems(options, c.swapped) + ignored;
    Split(data, at, Bytes16(linkType, order), Bytes16(reserved, order) + (Bytes32(snaplen, order) + items));
    Split(data, at + 2, Bytes16(reserved, order), Bytes32(snaplen, order) + items);
    Split(data, at + 4, Bytes32(snaplen, order), items);
    Read16(data, at, linkType, order);
    Read32(data, at + 4, snaplen, order);
    Whole(items);
    Split(items, 0, EncodeItems(options, order), ignored);
    ReadsItems(items, 0, options, order);
  }

  lemma ReadsEnhanced(data: seq<u8>, c: Cursor, block: Block)
    requires block.Enhanced? && Encodable(block) && At(data, c.at + 8, Body(block, c.swapped))
    ensures ReadBody(data, c, Kind(block), BodySize(block)) == Effect(block, c)
    ensures At(data, c.at + 28, block.data)
  {
    hide At, Bytes16, Bytes32, ReadU16, ReadU32, Resolution, EncodeItems, AddInterface, AddEnhanced, AddSimple;
    var Enhanced(id, ticks, captured, original, rest) := block;
    var at, order := c.at + 8, c.swapped;
    var r4 := Bytes32(original, order) + rest;
    var r3 := Bytes32(captured, order) + r4;
    var r2 := Bytes32(ticks % TWO_32, order) + r3;
    var r1 := Bytes32(ticks / TWO_32, order) + r2;
    Split(data, at, Bytes32(id, order), r1);
    Split(data, at + 4, Bytes32(ticks / TWO_32, order), r2);
    Split(data, at + 8, Bytes32(ticks % TWO_32, order), r3);
    Split(data, at + 12, Bytes32(captured, order), r4);
    Split(data, at + 16, Bytes32(original, order), rest);
    Read32(data, at, id, order);
    Read32(data, at + 4, ticks / TWO_32, order);
    Read32(data, at + 8, ticks % TWO_32, order);
    Read32(data, at + 12, captured, order);
    Read32(data, at + 16, original, order);
  }

  lemma BodyOfBlock(data: seq<u8>, at: nat, block: Block, swapped: bool)
    requires Encodable(block) && At(data, at, Encode(block, swapped))
    ensures At(data, at + 8, Body(block, swapped))
  {
    hide At, Bytes32, Body;
    var size, body := Bytes32(Size(block), swapped), Body(block, swapped);
    Split(data, at, Bytes32(Kind(block), swapped), size + (body + size));
    Split(data, at + 4, size, body + size);
    Split(data, at + 8, body, size);
  }

  lemma ReadsBody(data: seq<u8>, c: Cursor, block: Block)
    requires !block.Section? && Encodable(block) && At(data, c.at + 8, Body(block, c.swapped))
    ensures ReadBody(data, c, Kind(block), BodySize(block)) == Effect(block, c)
  {
    hide At, Nanoseconds, Bytes32, Bytes16, ReadU32, ReadU16, Resolution;
    match block
    case Interface(_, _, _, _, _) => ReadsInterface(data, c, block);
    case Enhanced(_, _, _, _, _) => ReadsEnhanced(data, c, block);
    case Simple(original, rest) =>
      Split(data, c.at + 8, Bytes32(original, c.swapped), rest);
      Read32(data, c.at + 8, original, c.swapped);
    case Short(_, _) =>
    case Other(_, _) =>
  }

  /** Section header types and the order magic read the same before the order is known. */
  lemma Palindromes(order: bool)
    ensures Bytes32(SECTION_HEADER, true) == Bytes32(SECTION_HEADER, false)
    ensures Bytes32(BYTE_ORDER_MAGIC, order)
         == Bytes32(if order then BYTE_ORDER_MAGIC_SWAPPED else BYTE_ORDER_MAGIC, false)
  {
  }

  lemma Enters(data: seq<u8>, c: Cursor, block: Block)
    requires Encodable(block) && At(data, c.at, Encode(block, Order(block, c.swapped)))
    ensures EnterSection(data, c) == if block.Section? then Effect(block, c) else Ok(c)
    ensures ReadU32(data, c.at, c.swapped) == Kind(block)
  {
    hide At, Bytes32, ReadU32;
    var order, size := Order(block, c.swapped), Bytes32(Size(block), Order(block, c.swapped));
    Split(data, c.at, Bytes32(Kind(block), order), size + (Body(block, order) + size));
    Palindromes(order);
    Read32(data, c.at, Kind(block), c.swapped);
    if block.Section? {
      Split(data, c.at + 4, size, Body(block, order) + size);
      Split(data, c.at + 8, Body(block, order), size);
      Split(data, c.at + 8, Bytes32(BYTE_ORDER_MAGIC, order), block.rest);
      Read32(data, c.at + 8, if order then BYTE_ORDER_MAGIC_SWAPPED else BYTE_ORDER_MAGIC, false);
    }
  }

  /** One encoded block at the cursor, whatever follows it, is read as its meaning. */
  lemma ReadsBlock(data: seq<u8>, c: Cursor, block: Block)
    requires Encodable(block) && At(data, c.at, Encode(block, Order(block, c.swapped)))
    ensures ReadBlock(data, c) == Meaning(block, c)
  {
    hide At, ReadBody, EnterSection, Bytes32, ReadU32, Body, Nanoseconds;
    var order := Order(block, c.swapped);
    var size, body := Bytes32(Size(block), order), Body(block, order);
    Split(data, c.at, Bytes32(Kind(block), order), size + (body + size));
    Split(data, c.at + 4, size, body + size);
    Split(data, c.at + 8, body, size);
    Read32(data, c.at + 4, Size(block), order);
    Read32(data, c.at + 8 + BodySize(block), Size(block), order);
    Enters(data, c, block);
    if block.Section? {
      OtherBody(data, c.(swapped := order, resolutions := []), block);
    } else {
      ReadsBody(data, c, block);
    }
  }

  lemma OtherBody(data: seq<u8>, c: Cursor, block: Block)
    requires block.Section? && c.at + 8 + BodySize(block) <= |data|
    ensures ReadBody(data, c, Kind(block), BodySize(block)) == Ok(c)
  {
  }
}
