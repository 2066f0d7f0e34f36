/** What each block of a pcapng stream contributes, from the blocks before it: whose clock stamps a packet, how long
    it is, where it stands in the file, and when the file is refused. */
module PcapRecords {
  import opened Arith
  import opened Words
  import opened Sequences
  import opened Results
  import opened PcapReader
  import opened PcapBlocks
  import opened PcapStreams

  // ---- what the blocks before say ----

  /** The interfaces described since the last section header, in order. */
  function Faces(blocks: seq<Block>): seq<Block> {
    if blocks == [] then []
    else
      var last := blocks[|blocks| - 1];
      if last.Section? then []
      else if last.Interface? then Faces(blocks[..|blocks| - 1]) + [last]
      else Faces(blocks[..|blocks| - 1])
  }

  /** `snaplen` is the largest of any interface in the file so far, or zero. */
  predicate IsLargest(blocks: seq<Block>, snaplen: u32) {
    && (forall i | 0 <= i < |blocks| && blocks[i].Interface? :: blocks[i].snaplen <= snaplen)
    && (snaplen == 0 || exists i :: 0 <= i < |blocks| && blocks[i].Interface? && blocks[i].snaplen == snaplen)
  }

  predicate CarriesPacket(block: Block) {
    block.Enhanced? || block.Simple?
  }

  /** How many packets a stream holds. */
  function PacketsIn(blocks: seq<Block>): nat {
    if blocks == [] then 0
    else PacketsIn(blocks[..|blocks| - 1]) + if CarriesPacket(blocks[|blocks| - 1]) then 1 else 0
  }

  /** The ticks of an interface: the first byte of its first if_tsresol option that is not empty, which counts as
      microseconds if there is none. */
  predicate TicksIn(face: Block, resolution: u8)
    requires face.Interface?
  {
    || (exists j :: 0 <= j < |face.options| && Resolves(face.options[j]) && resolution == face.options[j].value[0]
                    && forall k | 0 <= k < j :: !Resolves(face.options[k]))
    || (resolution == 6 && forall k | 0 <= k < |face.options| :: !Resolves(face.options[k]))
  }

  predicate Resolves(item: Item) {
    item.code == 9 && item.value != []
  }

  /** Ticks of 10^-r or 2^-p seconds in nanoseconds, in 64 bits. */
  predicate InNanoseconds(ticks: u64, resolution: u8, time: u64) {
    && (resolution <= 9 ==> time == ticks * Pow(10, 9 - resolution) % 0x1_0000_0000_0000_0000)
    && (9 < resolution < 0x80 ==> time * Pow(10, resolution - 9) <= ticks < (time + 1) * Pow(10, resolution - 9))
    && (0x80 <= resolution < 0xc0 ==>
          time * Pow(2, resolution - 0x80) <= ticks * 1_000_000_000 % 0x1_0000_0000_0000_0000
          < (time + 1) * Pow(2, resolution - 0x80))
    && (0xc0 <= resolution ==> time == 0)
  }

  // ---- the walk, from the blocks before ----

  lemma {:induction false} MeaningSnoc(blocks: seq<Block>, last: Block, c: Cursor)
    requires EncodableAll(blocks) && Encodable(last)
    ensures EncodableAll(blocks + [last])
    ensures MeaningAll(blocks + [last], c)
         == match MeaningAll(blocks, c) case Ok(d) => Meaning(last, d) case Err(error) => Err(error)
    decreases |blocks|
  {
    hide Meaning, Encodable;
    var all := blocks + [last];
    forall block <- all
      ensures Encodable(block)
    {
    }
    if blocks == [] {
      assert all[1..] == [] && all[0] == last;
    } else {
      assert all[1..] == blocks[1..] + [last] && all[0] == blocks[0];
      var next := Meaning(blocks[0], c);
      if next.Ok? {
        MeaningSnoc(blocks[1..], last, next.value);
      }
    }
  }

  /** The file that holds `blocks`. */
  function File(blocks: seq<Block>): seq<u8>
    requires EncodableAll(blocks)
  {
    EncodeAll(blocks, false)
  }

  /** The cursor after `blocks` agrees with what they say. */
  ghost predicate Tracks(blocks: seq<Block>, c: Cursor)
    requires EncodableAll(blocks)
  {
    && c.at == |File(blocks)|
    && |c.resolutions| == |Faces(blocks)|
    && (forall i | 0 <= i < |Faces(blocks)| ::
          Faces(blocks)[i].Interface? && TicksIn(Faces(blocks)[i], c.resolutions[i]))
    && IsLargest(blocks, c.capture.snaplen)
    && |c.capture.packets| == PacketsIn(blocks)
  }

  lemma {:induction false} FileSnoc(blocks: seq<Block>, last: Block, swapped: bool) returns (order: bool)
    requires EncodableAll(blocks) && Encodable(last)
    ensures EncodableAll(blocks + [last])
    ensures EncodeAll(blocks + [last], swapped) == EncodeAll(blocks, swapped) + Encode(last, order)
    decreases |blocks|
  {
    hide Encode, Encodable;
    var all := blocks + [last];
    forall block <- all
      ensures Encodable(block)
    {
    }
    if blocks == [] {
      order := Order(last, swapped);
      assert all[1..] == [] && all[0] == last;
    } else {
      var first := Order(blocks[0], swapped);
      assert all[1..] == blocks[1..] + [last] && all[0] == blocks[0];
      order := FileSnoc(blocks[1..], last, first);
      Assoc(Encode(blocks[0], first), EncodeAll(blocks[1..], first), Encode(last, order));
    }
  }

  lemma {:induction false} ItemResolutionExactly(face: Block)
    requires face.Interface?
    ensures TicksIn(face, ItemResolution(face.options))
    decreases |face.options|
  {
    var items := face.options;
    if items != [] && !Resolves(items[0]) {
      var rest := face.(options := items[1..]);
      ItemResolutionExactly(rest);
      var resolution := ItemResolution(items);
      if j :| 0 <= j < |rest.options| && Resolves(rest.options[j]) && resolution == rest.options[j].value[0]
              && forall k | 0 <= k < j :: !Resolves(rest.options[k]) {
        assert items[j + 1] == rest.options[j];
        forall k | 0 <= k < j + 1
          ensures !Resolves(items[k])
        {
          assert k > 0 ==> items[k] == rest.options[k - 1];
        }
      } else {
        forall k | 0 <= k < |items|
          ensures !Resolves(items[k])
        {
          assert k > 0 ==> items[k] == rest.options[k - 1];
        }
      }
    }
  }

  lemma NanosecondsExactly(ticks: u64, resolution: u8)
    ensures InNanoseconds(ticks, resolution, Nanoseconds(ticks, resolution))
  {
    if 9 < resolution < 0x80 {
      Floor(ticks, Pow(10, resolution - 9));
    } else if 0x80 <= resolution < 0xc0 {
      Floor(ticks * 1_000_000_000 % TWO_64, Pow(2, resolution - 0x80));
    }
  }

  lemma Floor(value: nat, divisor: nat)
    requires divisor > 0
    ensures value / divisor * divisor <= value < (value / divisor + 1) * divisor
  {
    Division(value, divisor);
    assert (value / divisor + 1) * divisor == value / divisor * divisor + divisor;
  }

  lemma {:induction false} WalkTracks(blocks: seq<Block>)
    requires EncodableAll(blocks) && MeaningAll(blocks, START).Ok?
    ensures Tracks(blocks, MeaningAll(blocks, START).value)
    decreases |blocks|
  {
    hide Meaning, Tracks, EncodeAll;
    if blocks == [] {
      NothingTracks();
    } else {
      var front, last := blocks[..|blocks| - 1], blocks[|blocks| - 1];
      assert blocks == front + [last];
      MeaningSnoc(front, last, START);
      WalkTracks(front);
      var order := FileSnoc(front, last, false);
      TracksNext(front, last, MeaningAll(front, START).value);
    }
  }

  lemma NothingTracks()
    ensures Tracks([], START) && MeaningAll([], START) == Ok(START)
  {
  }

  lemma TracksNext(blocks: seq<Block>, last: Block, c: Cursor)
    requires EncodableAll(blocks) && Encodable(last) && EncodableAll(blocks + [last])
    requires |File(blocks + [last])| == |File(blocks)| + Size(last)
    requires Tracks(blocks, c) && Meaning(last, c).Ok?
    ensures Tracks(blocks + [last], Meaning(last, c).value)
  {
    hide File, Encodable, TicksIn, IsLargest, Nanoseconds;
    var next, all := Meaning(last, c).value, blocks + [last];
    assert all[..|all| - 1] == blocks && all[|all| - 1] == last;
    LargestNext(blocks, last, c.capture.snaplen, next.capture.snaplen);
    if last.Interface? {
      ItemResolutionExactly(last);
    }
  }

  lemma LargestNext(blocks: seq<Block>, last: Block, snaplen: u32, next: u32)
    requires IsLargest(blocks, snaplen)
    requires next == if last.Interface? then Max(snaplen, last.snaplen) else snaplen
    ensures IsLargest(blocks + [last], next)
  {
    var all := blocks + [last];
    forall i | 0 <= i < |all| && all[i].Interface?
      ensures all[i].snaplen <= next
    {
      if i < |blocks| {
        assert all[i] == blocks[i];
      }
    }
    if next != 0 {
      if last.Interface? && next == last.snaplen {
        assert all[|blocks|].snaplen == next;
      } else {
        var i :| 0 <= i < |blocks| && blocks[i].Interface? && blocks[i].snaplen == snaplen;
        assert all[i] == blocks[i];
      }
    }
  }

  // ---- one block after an accepted file ----

  /** Reading a file with one more block: the walk so far, and then the block's own meaning. */
  lemma ReadsNext(before: seq<Block>, last: Block) returns (c: Cursor)
    requires EncodableAll(before) && Encodable(last) && ReadPcapng(File(before)).Ok?
    ensures EncodableAll(before + [last]) && Tracks(before, c)
    ensures ReadPcapng(File(before)) == Ok(Finish(c.capture))
    ensures ReadPcapng(File(before + [last]))
         == match Meaning(last, c) case Ok(d) => Ok(Finish(d.capture)) case Err(error) => Err(error)
  {
    hide Meaning, Tracks, EncodeAll, Encodable, Finish, ReadBlocks;
    MeaningSnoc(before, last, START);
    ReadsEncoded(before);
    ReadsEncoded(before + [last]);
    WalkTracks(before);
    c := MeaningAll(before, START).value;
  }

  /** An empty file is an empty capture, of Ethernet frames up to the limit. */
  lemma EmptyFile()
    ensures ReadPcapng(File([])) == Ok(Capture([], 1, 262144, false))
  {
  }

  /** An enhanced packet is refused exactly when it says it is longer than any frame, when it says so of more bytes
      than its block has, or when its interface is not among those of its section. Otherwise it adds one packet: at
      the time its ticks are by the resolution of its own interface, as long as it says, standing where it stands. */
  lemma EnhancedExactly(before: seq<Block>, last: Block) returns (resolution: u8)
    requires EncodableAll(before) && Encodable(last) && last.Enhanced? && ReadPcapng(File(before)).Ok?
    ensures EncodableAll(before + [last])
    ensures var r, faces := ReadPcapng(File(before + [last])), Faces(before);
            && (r == Err(OversizePacket) <==> last.captured > 262144)
            && (r == Err(TruncatedPacket) <==>
                  last.captured <= 262144 && (last.captured > |last.data| || last.id >= |faces|))
            && (r.Ok? <==> last.captured <= 262144 && last.captured <= |last.data| && last.id < |faces|)
            && (r.Ok? ==>
                  && faces[last.id].Interface? && TicksIn(faces[last.id], resolution)
                  && var was, now := ReadPcapng(File(before)).value, r.value;
                  && |now.packets| == |was.packets| + 1 && now == was.(packets := now.packets)
                  && now.packets[..|was.packets|] == was.packets
                  && var packet := now.packets[|was.packets|];
                  && InNanoseconds(last.ticks, resolution, packet.timestamp)
                  && packet.offset == |File(before)| + 28
                  && packet.captured == last.captured && packet.original == last.original)
    ensures At(File(before + [last]), |File(before)| + 28, last.data)
  {
    hide File, Encodable, TicksIn, IsLargest, Nanoseconds, InNanoseconds, ReadPcapng, At;
    var c := ReadsNext(before, last);
    StandsAt(before, last);
    resolution := 0;
    if last.id < |c.resolutions| {
      resolution := c.resolutions[last.id];
      NanosecondsExactly(last.ticks, resolution);
    }
  }

  lemma StandsAt(before: seq<Block>, last: Block)
    requires EncodableAll(before) && Encodable(last) && last.Enhanced?
    ensures EncodableAll(before + [last])
    ensures At(File(before + [last]), |File(before)| + 28, last.data)
  {
    hide Encode, Encodable, At, EncodeAll, Body, ReadBody, Effect;
    var order := FileSnoc(before, last, false);
    var file, at := File(before + [last]), |File(before)|;
    EndsWith(File(before), Encode(last, order));
    BodyOfBlock(file, at, last, order);
    ReadsEnhanced(file, START.(at := at, swapped := order), last);
  }

  lemma EndsWith(a: seq<u8>, b: seq<u8>)
    ensures At(a + b, |a|, b)
  {
  }

  /** A simple packet needs an interface; it is cut at the largest snaplen the file has declared, and has no time. */
  lemma SimpleExactly(before: seq<Block>, last: Block, snaplen: u32)
    requires EncodableAll(before) && Encodable(last) && last.Simple? && ReadPcapng(File(before)).Ok?
    requires IsLargest(before, snaplen)
    ensures EncodableAll(before + [last])
    ensures var r, faces := ReadPcapng(File(before + [last])), Faces(before);
            var captured := if snaplen == 0 || last.original < snaplen then last.original else snaplen;
            && (r == Err(OversizePacket) <==> faces != [] && captured > 262144)
            && (r == Err(TruncatedPacket) <==> faces == [] || (captured <= 262144 && captured > |last.data|))
            && (r.Ok? <==> faces != [] && captured <= 262144 && captured <= |last.data|)
            && (r.Ok? ==>
                  var was, now := ReadPcapng(File(before)).value, r.value;
                  now == was.(packets := was.packets
                                         + [Packet(0, |File(before)| + 12, captured, last.original)]))
  {
    hide File, Encodable, TicksIn, IsLargest, ReadPcapng;
    var c := ReadsNext(before, last);
    LargestUnique(before, snaplen, c.capture.snaplen);
  }

  lemma LargestUnique(blocks: seq<Block>, a: u32, b: u32)
    requires IsLargest(blocks, a) && IsLargest(blocks, b)
    ensures a == b
  {
  }

  /** Only Ethernet interfaces are taken, and they change no packet. The snaplen of the capture is the largest
      declared, or the limit of a frame; its clock is finer than microseconds if any interface's is, in decimals. */
  lemma InterfaceExactly(before: seq<Block>, last: Block, snaplen: u32) returns (resolution: u8)
    requires EncodableAll(before) && Encodable(last) && last.Interface? && ReadPcapng(File(before)).Ok?
    ensures EncodableAll(before + [last])
    ensures TicksIn(last, resolution)
    ensures var r := ReadPcapng(File(before + [last]));
            && (r == Err(UnsupportedLinkType) <==> last.linkType != 1)
            && (r.Ok? <==> last.linkType == 1)
            && (r.Ok? && IsLargest(before + [last], snaplen) ==>
                  var was := ReadPcapng(File(before)).value;
                  r.value == Capture(was.packets, 1, if snaplen == 0 then 262144 else snaplen,
                                     was.nanoseconds || 6 < resolution < 0x80))
  {
    hide File, Encodable, TicksIn, IsLargest, ReadPcapng;
    var c := ReadsNext(before, last);
    resolution := ItemResolution(last.options);
    ItemResolutionExactly(last);
    LargestNext(before, last, c.capture.snaplen, Max(c.capture.snaplen, last.snaplen));
    if IsLargest(before + [last], snaplen) {
      LargestUnique(before + [last], snaplen, Max(c.capture.snaplen, last.snaplen));
    }
  }

  /** Sections and blocks of other types add nothing, and a block too short for its own fields is refused. */
  lemma OthersExactly(before: seq<Block>, last: Block)
    requires EncodableAll(before) && Encodable(last) && ReadPcapng(File(before)).Ok?
    requires last.Section? || last.Other? || last.Short?
    ensures EncodableAll(before + [last])
    ensures ReadPcapng(File(before + [last]))
         == if !last.Short? then ReadPcapng(File(before))
            else if last.kind == SIMPLE_PACKET then Err(TruncatedPacket) else Err(TruncatedHeader)
  {
    hide File, Encodable, TicksIn, IsLargest, ReadPcapng;
    var c := ReadsNext(before, last);
  }

  // ---- whole files ----

  /** What follows never changes the packets before it, and never mends a fault. */
  lemma {:induction false} PrefixStands(before: seq<Block>, after: seq<Block>)
    requires EncodableAll(before) && EncodableAll(after)
    ensures EncodableAll(before + after)
    ensures match ReadPcapng(File(before))
            case Err(error) => ReadPcapng(File(before + after)) == Err(error)
            case Ok(was) => ReadPcapng(File(before + after)).Ok? ==>
              was.packets <= ReadPcapng(File(before + after)).value.packets
    decreases |after|
  {
    hide File, Encodable, ReadPcapng, Meaning;
    if after == [] {
      assert before + after == before;
    } else {
      var front, last := after[..|after| - 1], after[|after| - 1];
      PrefixStands(before, front);
      assert before + after == before + front + [last];
      MeaningSnoc(before + front, last, START);
      LastStands(before + front, last);
    }
  }

  lemma LastStands(before: seq<Block>, last: Block)
    requires EncodableAll(before) && Encodable(last)
    ensures EncodableAll(before + [last])
    ensures match ReadPcapng(File(before))
            case Err(error) => ReadPcapng(File(before + [last])) == Err(error)
            case Ok(was) => ReadPcapng(File(before + [last])).Ok? ==>
              was.packets <= ReadPcapng(File(before + [last])).value.packets
  {
    hide Encodable, ReadBlocks, EncodeAll, Nanoseconds;
    MeaningSnoc(before, last, START);
    ReadsEncoded(before);
    ReadsEncoded(before + [last]);
  }

  /** Every enhanced packet of an accepted file, by its place among the blocks that carry packets. */
  lemma PacketOfFile(blocks: seq<Block>, i: nat) returns (resolution: u8)
    requires EncodableAll(blocks) && ReadPcapng(File(blocks)).Ok?
    requires i < |blocks| && blocks[i].Enhanced?
    ensures EncodableAll(blocks[..i])
    ensures var file, block, faces := File(blocks), blocks[i], Faces(blocks[..i]);
            var packets := ReadPcapng(file).value.packets;
            && |packets| == PacketsIn(blocks) && PacketsIn(blocks[..i]) < |packets|
            && block.id < |faces| && faces[block.id].Interface? && TicksIn(faces[block.id], resolution)
            && block.captured <= |block.data| && block.captured <= 262144
            && var packet := packets[PacketsIn(blocks[..i])];
            && InNanoseconds(block.ticks, resolution, packet.timestamp)
            && packet.captured == block.captured && packet.original == block.original
            && At(file, packet.offset, block.data[..block.captured])
  {
    hide File, Encodable, ReadPcapng, TicksIn, InNanoseconds, At, Faces;
    var before, after := blocks[..i], blocks[i + 1..];
    assert blocks == before + [blocks[i]] + after;
    PrefixStands(before + [blocks[i]], after);
    PrefixStands(before, [blocks[i]] + after);
    assert blocks == before + ([blocks[i]] + after);
    resolution := EnhancedExactly(before, blocks[i]);
    WholeTracks(blocks);
    WholeTracks(before);
    StandsInPrefix(before + [blocks[i]], after, |File(before)| + 28, blocks[i].data, blocks[i].captured);
  }

  lemma WholeTracks(blocks: seq<Block>)
    requires EncodableAll(blocks) && ReadPcapng(File(blocks)).Ok?
    ensures |ReadPcapng(File(blocks)).value.packets| == PacketsIn(blocks)
  {
    hide Encodable, ReadBlocks, EncodeAll;
    ReadsEncoded(blocks);
    WalkTracks(blocks);
  }

  lemma StandsInPrefix(before: seq<Block>, after: seq<Block>, at: nat, data: seq<u8>, n: nat)
    requires EncodableAll(before) && EncodableAll(after) && EncodableAll(before + after) && n <= |data|
    requires At(File(before), at, data)
    ensures At(File(before + after), at, data[..n])
  {
    hide File;
    FilePrefix(before, after);
    assert File(before)[at..at + |data|][..n] == File(before)[at..at + n] == File(before + after)[at..at + n];
  }

  lemma {:induction false} FilePrefix(before: seq<Block>, after: seq<Block>)
    requires EncodableAll(before) && EncodableAll(after) && EncodableAll(before + after)
    ensures File(before) <= File(before + after)
    decreases |after|
  {
    hide EncodeAll, Encode, Encodable;
    if after == [] {
      assert before + after == before;
    } else {
      var front, last := after[..|after| - 1], after[|after| - 1];
      assert before + after == before + front + [last];
      assert EncodableAll(before + front);
      FilePrefix(before, front);
      var order := FileSnoc(before + front, last, false);
    }
  }

  // ---- any accepted file ----

  /** A block stands between two places: aligned, with its length in front and at its end, and a section header
      with its magic in its own byte order. */
  predicate Framed(bytes: seq<u8>, from: nat, to: nat, before: bool, order: bool) {
    && from + 12 <= to <= |bytes| && (to - from) % 4 == 0
    && ReadU32(bytes, from + 4, order) == to - from == ReadU32(bytes, to - 4, order)
    && if ReadU32(bytes, from, before) == 0x0a0d0d0a
       then from + 16 <= |bytes| && ReadU32(bytes, from + 8, order) == 0x1a2b3c4d
       else order == before
  }

  /** Whatever bytes a file has, if it is accepted it is blocks from its first byte to its last. */
  lemma {:induction false} AcceptedIsFramed(bytes: seq<u8>, c: Cursor) returns (starts: seq<nat>, orders: seq<bool>)
    requires ReadBlocks(bytes, c).Ok? && c.at <= |bytes|
    ensures |starts| == |orders| && orders != [] && orders[0] == c.swapped
    ensures starts[0] == c.at && starts[|starts| - 1] == |bytes|
    ensures forall i | 0 <= i < |starts| - 1 :: Framed(bytes, starts[i], starts[i + 1], orders[i], orders[i + 1])
    decreases |bytes| - c.at
  {
    hide Framed, ReadBlock;
    starts, orders := [c.at], [c.swapped];
    if c.at < |bytes| {
      var next := ReadBlock(bytes, c).value;
      BlockIsFramed(bytes, c);
      var rest, more := AcceptedIsFramed(bytes, next);
      starts, orders := starts + rest, orders + more;
    }
  }

  lemma BlockIsFramed(bytes: seq<u8>, c: Cursor)
    requires c.at < |bytes| && ReadBlock(bytes, c).Ok?
    ensures var next := ReadBlock(bytes, c).value; Framed(bytes, c.at, next.at, c.swapped, next.swapped)
  {
    hide ReadU32, Resolution, Nanoseconds;
    if c.at + 12 <= |bytes| {
      MagicEitherWay(bytes, c.at + 8);
    }
  }

  /** How a block that is no block is refused: too few bytes for any; for a section header, too few for its magic or
      other bytes in its place; then a length that is too small, not aligned or beyond the file. */
  lemma BlockRefused(bytes: seq<u8>, c: Cursor)
    requires c.at < |bytes|
    ensures var left, r := |bytes| - c.at, ReadBlock(bytes, c);
            && (left < 12 ==> r == Err(TruncatedPacket))
            && (left >= 12 && ReadU32(bytes, c.at, c.swapped) == 0x0a0d0d0a ==>
                  var magic := bytes[c.at + 8..c.at + 12];
                  && (left < 16 ==> r == Err(TruncatedHeader))
                  && (left >= 16 && magic != [0x1a, 0x2b, 0x3c, 0x4d] && magic != [0x4d, 0x3c, 0x2b, 0x1a] ==>
                        r == Err(UnknownMagic)))
            && (left >= 12 && ReadU32(bytes, c.at, c.swapped) != 0x0a0d0d0a ==>
                  var length := ReadU32(bytes, c.at + 4, c.swapped);
                  length < 12 || length % 4 != 0 || length > left ==> r == Err(TruncatedPacket))
  {
    hide ReadBody;
    if c.at + 12 <= |bytes| {
      MagicBytes(bytes, c.at + 8);
    }
  }

  lemma MagicBytes(data: seq<u8>, at: nat)
    requires at + 4 <= |data|
    ensures ReadU32(data, at, false) == 0x1a2b3c4d ==> data[at..at + 4] == [0x4d, 0x3c, 0x2b, 0x1a]
    ensures ReadU32(data, at, false) == 0x4d3c2b1a ==> data[at..at + 4] == [0x1a, 0x2b, 0x3c, 0x4d]
  {
  }

  lemma MagicEitherWay(data: seq<u8>, at: nat)
    requires at + 4 <= |data|
    ensures ReadU32(data, at, false) == 0x4d3c2b1a ==> ReadU32(data, at, true) == 0x1a2b3c4d
  {
    if ReadU32(data, at, false) == 0x4d3c2b1a {
      assert data[at] == 0x1a && data[at + 1] == 0x2b && data[at + 2] == 0x3c && data[at + 3] == 0x4d;
    }
  }
}
