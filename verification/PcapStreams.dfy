/** Whole streams: what encoded blocks read back as, in either byte order, and what reading one
    file after another gives. */
module PcapStreams {
  import opened Arith
  import opened Words
  import opened Results
  import opened PcapReader
  import opened PcapBlocks

  lemma {:induction false} ReadsBlocks(data: seq<u8>, c: Cursor, blocks: seq<Block>)
    requires EncodableAll(blocks) && At(data, c.at, EncodeAll(blocks, c.swapped))
    requires c.at + |EncodeAll(blocks, c.swapped)| == |data|
    ensures ReadBlocks(data, c) == MeaningAll(blocks, c)
    decreases |blocks|
  {
    hide At, ReadBlock, Effect, Encode;
    if blocks != [] {
      var order := Order(blocks[0], c.swapped);
      assert Encodable(blocks[0]);
      Split(data, c.at, Encode(blocks[0], order), EncodeAll(blocks[1..], order));
      ReadsBlock(data, c, blocks[0]);
      var next := Meaning(blocks[0], c);
      if next.Ok? {
        MeaningOrder(blocks[0], c);
        ReadsBlocks(data, next.value, blocks[1..]);
      }
    }
  }

  lemma MeaningOrder(block: Block, c: Cursor)
    requires Encodable(block) && Meaning(block, c).Ok?
    ensures Meaning(block, c).value.swapped == Order(block, c.swapped)
    ensures Meaning(block, c).value.at == c.at + Size(block)
  {
  }

  /** Reading an encoded stream gives its meaning, errors included. */
  lemma ReadsEncoded(blocks: seq<Block>)
    requires EncodableAll(blocks)
    ensures ReadBlocks(EncodeAll(blocks, false), START) == MeaningAll(blocks, START)
  {
    var data := EncodeAll(blocks, false);
    assert data[0..|data|] == data;
    ReadsBlocks(data, START, blocks);
  }

  // ---- byte order ----

  /** The same blocks, but for the order each section is written in. */
  predicate SameButOrder(a: seq<Block>, b: seq<Block>) {
    && |a| == |b|
    && forall i | 0 <= i < |a| :: a[i] == b[i] || (a[i].Section? && b[i].Section? && a[i].rest == b[i].rest)
  }

  predicate AgreeButOrder(a: Result<Cursor, PcapError>, b: Result<Cursor, PcapError>) {
    match (a, b)
    case (Ok(x), Ok(y)) => x.(swapped := false) == y.(swapped := false)
    case (Err(x), Err(y)) => x == y
    case _ => false
  }

  lemma {:induction false} OrderIrrelevant(a: seq<Block>, b: seq<Block>, c: Cursor, d: Cursor)
    requires EncodableAll(a) && EncodableAll(b) && SameButOrder(a, b)
    requires AgreeButOrder(Ok(c), Ok(d))
    ensures AgreeButOrder(MeaningAll(a, c), MeaningAll(b, d))
    decreases |a|
  {
    hide Nanoseconds, ItemResolution;
    if a != [] {
      assert Encodable(a[0]) && Encodable(b[0]);
      assert AgreeButOrder(Meaning(a[0], c), Meaning(b[0], d));
      if Meaning(a[0], c).Ok? {
        OrderIrrelevant(a[1..], b[1..], Meaning(a[0], c).value, Meaning(b[0], d).value);
      }
    }
  }

  /** The same blocks written in other byte orders read as the same capture, or fail alike. */
  lemma ByteOrderIndependent(a: seq<Block>, b: seq<Block>)
    requires EncodableAll(a) && EncodableAll(b) && SameButOrder(a, b)
    ensures ReadPcapng(EncodeAll(a, false)) == ReadPcapng(EncodeAll(b, false))
  {
    hide ReadBlocks, MeaningAll, EncodeAll;
    ReadsEncoded(a);
    ReadsEncoded(b);
    OrderIrrelevant(a, b, START, START);
  }

  // ---- one file after another ----

  lemma SamePrefix(a: seq<u8>, b: seq<u8>, at: nat, swapped: bool)
    ensures at + 2 <= |a| ==> ReadU16(a + b, at, swapped) == ReadU16(a, at, swapped)
    ensures at + 4 <= |a| ==> ReadU32(a + b, at, swapped) == ReadU32(a, at, swapped)
  {
  }

  lemma SameSuffix(a: seq<u8>, b: seq<u8>, at: nat, swapped: bool)
    ensures at + 2 <= |b| ==> ReadU16(a + b, |a| + at, swapped) == ReadU16(b, at, swapped)
    ensures at + 4 <= |b| ==> ReadU32(a + b, |a| + at, swapped) == ReadU32(b, at, swapped)
  {
  }

  /** A block that reads reads the same when bytes follow. */
  lemma BlockIgnoresTail(a: seq<u8>, b: seq<u8>, c: Cursor)
    requires c.at < |a| && ReadBlock(a, c).Ok?
    ensures ReadBlock(a + b, c) == ReadBlock(a, c)
  {
    hide ReadU32, ReadU16, AddInterface, AddEnhanced, AddSimple;
    SamePrefix(a, b, c.at, c.swapped);
    SamePrefix(a, b, c.at + 8, false);
    var s := EnterSection(a, c).value.swapped;
    SamePrefix(a, b, c.at + 4, s);
    var length := ReadU32(a, c.at + 4, s);
    SamePrefix(a, b, c.at + length - 4, s);
    BodyIgnoresTail(a, b, EnterSection(a, c).value, ReadU32(a, c.at, c.swapped), length - BLOCK_MINIMUM_SIZE);
  }

  lemma BodyIgnoresTail(a: seq<u8>, b: seq<u8>, c: Cursor, kind: u32, room: nat)
    requires c.at + 8 + room <= |a|
    ensures ReadBody(a + b, c, kind, room) == ReadBody(a, c, kind, room)
  {
    hide ReadU32, ReadU16, AddInterface, AddEnhanced, AddSimple, Resolution;
    var body := c.at + 8;
    SamePrefix(a, b, body, c.swapped);
    SamePrefix(a, b, body + 4, c.swapped);
    SamePrefix(a, b, body + 8, c.swapped);
    SamePrefix(a, b, body + 12, c.swapped);
    SamePrefix(a, b, body + 16, c.swapped);
    if room >= 8 {
      assert (a + b)[body + 8..body + room] == a[body + 8..body + room];
    }
  }

  lemma {:induction false} WalkIgnoresTail(a: seq<u8>, b: seq<u8>, c: Cursor)
    requires c.at <= |a| && ReadBlocks(a, c).Ok?
    ensures ReadBlocks(a, c).value.at == |a|
    ensures ReadBlocks(a + b, c) == ReadBlocks(a + b, ReadBlocks(a, c).value)
    decreases |a| - c.at
  {
    hide ReadBlock;
    if c.at < |a| {
      BlockIgnoresTail(a, b, c);
      WalkIgnoresTail(a, b, ReadBlock(a, c).value);
    }
  }

  function Shifted(packets: seq<Packet>, shift: nat): (shifted: seq<Packet>)
    ensures |shifted| == |packets|
    ensures forall i | 0 <= i < |packets| :: shifted[i] == packets[i].(offset := packets[i].offset + shift)
  {
    seq(|packets|, i requires 0 <= i < |packets| => packets[i].(offset := packets[i].offset + shift))
  }

  /** `c` walks the second file inside the concatenation, `d` walks it alone; `before` is what the
      first file left behind. */
  predicate Follows(c: Cursor, d: Cursor, before: Cursor) {
    && c.at == before.at + d.at
    && c.swapped == d.swapped
    && c.resolutions == d.resolutions
    && FollowsCapture(c.capture, d.capture, before)
  }

  predicate FollowsCapture(c: Capture, d: Capture, before: Cursor) {
    && c.packets == before.capture.packets + Shifted(d.packets, before.at)
    && c.snaplen == Max(before.capture.snaplen, d.snaplen)
    && c.nanoseconds == (before.capture.nanoseconds || d.nanoseconds)
    && c.linkType == d.linkType
  }

  predicate BothFollow(c: Result<Cursor, PcapError>, d: Result<Cursor, PcapError>, before: Cursor) {
    match (c, d)
    case (Ok(x), Ok(y)) => Follows(x, y, before)
    case (Err(x), Err(y)) => x == y
    case _ => false
  }

  /** A frame a Simple Packet Block carries is cut by the largest snaplen read so far: the cut is the
      same with and without `larger` before when `larger` adds nothing or the frame was not cut. */
  predicate CutAlike(original: u32, snaplen: u32, larger: u32) {
    larger <= snaplen || (if snaplen == 0 then original <= larger else original <= snaplen)
  }

  lemma BodyFollows(a: seq<u8>, b: seq<u8>, c: Cursor, d: Cursor, kind: u32, room: nat, before: Cursor)
    requires before.at == |a| && Follows(c, d, before) && d.at + 8 + room <= |b|
    requires kind == SIMPLE_PACKET && room >= 4 ==>
               CutAlike(ReadU32(b, d.at + 8, d.swapped), d.capture.snaplen, before.capture.snaplen)
    ensures BothFollow(ReadBody(a + b, c, kind, room), ReadBody(b, d, kind, room), before)
  {
    hide ReadU32, ReadU16, Resolution, Nanoseconds, Shifted;
    var body, s := d.at + 8, d.swapped;
    SameSuffix(a, b, body, s);
    SameSuffix(a, b, body + 4, s);
    SameSuffix(a, b, body + 8, s);
    SameSuffix(a, b, body + 12, s);
    SameSuffix(a, b, body + 16, s);
    if kind == INTERFACE_DESCRIPTION && room >= 8 {
      assert (a + b)[|a| + body + 8..|a| + body + room] == b[body + 8..body + room];
    } else if kind in {ENHANCED_PACKET, SIMPLE_PACKET} && ReadBody(b, d, kind, room).Ok? {
      var p := ReadBody(b, d, kind, room).value.capture.packets[|d.capture.packets|];
      AddedFollows(c, d, before, p);
    }
  }

  lemma AddedFollows(c: Cursor, d: Cursor, before: Cursor, p: Packet)
    requires Follows(c, d, before)
    ensures Follows(AddPacket(c, p.(offset := p.offset + before.at)), AddPacket(d, p), before)
  {
    assert Shifted(d.capture.packets + [p], before.at)
        == Shifted(d.capture.packets, before.at) + [p.(offset := p.offset + before.at)];
  }

  /** At a section header the state the first file left does not matter. */
  lemma EntersAlike(a: seq<u8>, b: seq<u8>, c: Cursor, d: Cursor, before: Cursor)
    requires before.at == |a| && c.at == |a| + d.at && d.at + BLOCK_MINIMUM_SIZE <= |b|
    requires FollowsCapture(c.capture, d.capture, before)
    requires Follows(c, d, before) || ReadU32(b, d.at, false) == SECTION_HEADER
    ensures ReadU32(a + b, c.at, c.swapped) == ReadU32(b, d.at, d.swapped)
    ensures BothFollow(EnterSection(a + b, c), EnterSection(b, d), before)
  {
    SameSuffix(a, b, d.at, c.swapped);
    SameSuffix(a, b, d.at + 8, false);
    if ReadU32(b, d.at, false) == SECTION_HEADER {
      HeaderEitherWay(b, d.at);
    }
  }

  lemma HeaderEitherWay(data: seq<u8>, at: nat)
    requires at + 4 <= |data| && ReadU32(data, at, false) == SECTION_HEADER
    ensures ReadU32(data, at, true) == SECTION_HEADER
  {
    assert data[at] == 0x0a && data[at + 1] == 0x0d && data[at + 2] == 0x0d && data[at + 3] == 0x0a;
  }

  lemma BlockFollows(a: seq<u8>, b: seq<u8>, c: Cursor, d: Cursor, before: Cursor)
    requires before.at == |a| && c.at == |a| + d.at && d.at < |b|
    requires FollowsCapture(c.capture, d.capture, before)
    requires |b| - d.at >= BLOCK_MINIMUM_SIZE ==>
               && (Follows(c, d, before) || ReadU32(b, d.at, false) == SECTION_HEADER)
               && CutAlikeAt(b, d, before.capture.snaplen)
    ensures BothFollow(ReadBlock(a + b, c), ReadBlock(b, d), before)
  {
    hide ReadU32, ReadBody, EnterSection, FollowsCapture;
    if |b| - d.at >= BLOCK_MINIMUM_SIZE {
      EntersAlike(a, b, c, d, before);
      var x, y := EnterSection(a + b, c), EnterSection(b, d);
      if y.Ok? {
        var kind, s := ReadU32(b, d.at, d.swapped), y.value.swapped;
        SameSuffix(a, b, d.at + 4, s);
        var length := ReadU32(b, d.at + 4, s);
        if BLOCK_MINIMUM_SIZE <= length <= |b| - d.at && length % 4 == 0 {
          SameSuffix(a, b, d.at + length - 4, s);
          BodyFollows(a, b, x.value, y.value, kind, length - BLOCK_MINIMUM_SIZE, before);
        }
      }
    }
  }

  predicate CutAlikeAt(bytes: seq<u8>, c: Cursor, larger: u32)
    requires c.at + BLOCK_MINIMUM_SIZE <= |bytes|
  {
    ReadU32(bytes, c.at, c.swapped) == SIMPLE_PACKET ==>
      CutAlike(ReadU32(bytes, c.at + 8, c.swapped), c.capture.snaplen, larger)
  }

  /** Every Simple Packet Block the walk meets is cut as it would be after a file with snaplen `larger`.
      A file without such blocks qualifies. */
  predicate CutAlikeAll(bytes: seq<u8>, c: Cursor, larger: u32)
    decreases |bytes| - c.at
  {
    c.at >= |bytes| ||
    (&& (|bytes| - c.at >= BLOCK_MINIMUM_SIZE ==> CutAlikeAt(bytes, c, larger))
     && (ReadBlock(bytes, c).Ok? ==> CutAlikeAll(bytes, ReadBlock(bytes, c).value, larger)))
  }

  lemma {:induction false} WalkFollows(a: seq<u8>, b: seq<u8>, c: Cursor, d: Cursor, before: Cursor)
    requires before.at == |a| && c.at == |a| + d.at && CutAlikeAll(b, d, before.capture.snaplen)
    requires FollowsCapture(c.capture, d.capture, before)
    requires Follows(c, d, before) ||
             (d.at + 4 <= |b| && ReadU32(b, d.at, false) == SECTION_HEADER)
    ensures BothFollow(ReadBlocks(a + b, c), ReadBlocks(b, d), before)
    decreases |b| - d.at
  {
    hide ReadU32, ReadBlock, FollowsCapture;
    if d.at < |b| {
      BlockFollows(a, b, c, d, before);
      if ReadBlock(b, d).Ok? {
        WalkFollows(a, b, ReadBlock(a + b, c).value, ReadBlock(b, d).value, before);
      }
    }
  }

  /** The largest snaplen the interfaces of an accepted file declare, zero if none does. */
  function DeclaredSnaplen(bytes: seq<u8>): u32
    requires ReadPcapng(bytes).Ok?
  {
    ReadBlocks(bytes, START).value.capture.snaplen
  }

  predicate StartsSection(bytes: seq<u8>) {
    |bytes| >= 4 && ReadU32(bytes, 0, false) == SECTION_HEADER
  }

  /** Reading an accepted file followed by another that starts a section: the packets of both in
      order, the second's offsets moved past the first file, or the second file's error. */
  lemma ReadsConcatenation(a: seq<u8>, b: seq<u8>)
    requires ReadPcapng(a).Ok? && StartsSection(b)
    requires CutAlikeAll(b, START, DeclaredSnaplen(a))
    ensures match ReadPcapng(b)
            case Err(error) => ReadPcapng(a + b) == Err(error)
            case Ok(second) =>
              var first := ReadPcapng(a).value;
              && ReadPcapng(a + b).Ok?
              && var both := ReadPcapng(a + b).value;
              && both.packets == first.packets + Shifted(second.packets, |a|)
              && both.nanoseconds == (first.nanoseconds || second.nanoseconds)
              && both.linkType == second.linkType
  {
    hide ReadU32, ReadBlocks, CutAlikeAll;
    WalkIgnoresTail(a, b, START);
    var before := ReadBlocks(a, START).value;
    LinkTypeKept(a, START);
    assert Shifted([], |a|) == [];
    assert before.capture.packets + [] == before.capture.packets;
    WalkFollows(a, b, before, START, before);
  }

  /** The cut is the only obstacle: for two accepted files the packets are the two lists one after the
      other exactly when no Simple Packet Block of the second is cut differently. */
  lemma ConcatenationExactly(a: seq<u8>, b: seq<u8>)
    requires ReadPcapng(a).Ok? && ReadPcapng(b).Ok? && StartsSection(b)
    ensures CutAlikeAll(b, START, DeclaredSnaplen(a)) <==>
            (&& ReadPcapng(a + b).Ok?
             && ReadPcapng(a + b).value.packets
                == ReadPcapng(a).value.packets + Shifted(ReadPcapng(b).value.packets, |a|))
  {
    hide ReadU32, ReadBlocks, CutAlikeAll;
    if CutAlikeAll(b, START, DeclaredSnaplen(a)) {
      ReadsConcatenation(a, b);
    } else {
      WalkIgnoresTail(a, b, START);
      var before := ReadBlocks(a, START).value;
      LinkTypeKept(a, START);
      assert Shifted([], |a|) == [];
      assert before.capture.packets + [] == before.capture.packets;
      WalkDiverges(a, b, before, START, before);
    }
  }

  lemma {:induction false} WalkDiverges(a: seq<u8>, b: seq<u8>, c: Cursor, d: Cursor, before: Cursor)
    requires before.at == |a| && c.at == |a| + d.at && !CutAlikeAll(b, d, before.capture.snaplen)
    requires ReadBlocks(b, d).Ok?
    requires FollowsCapture(c.capture, d.capture, before)
    requires Follows(c, d, before) || (d.at + 4 <= |b| && ReadU32(b, d.at, false) == SECTION_HEADER)
    ensures ReadBlocks(a + b, c).Ok? ==>
              ReadBlocks(a + b, c).value.capture.packets
              != before.capture.packets + Shifted(ReadBlocks(b, d).value.capture.packets, |a|)
    decreases |b| - d.at
  {
    hide ReadU32, ReadBlock, FollowsCapture;
    if CutAlikeAt(b, d, before.capture.snaplen) {
      BlockFollows(a, b, c, d, before);
      WalkDiverges(a, b, ReadBlock(a + b, c).value, ReadBlock(b, d).value, before);
    } else if ReadBlock(a + b, c).Ok? {
      BlockDiverges(a, b, c, d, before);
      var k, m := |before.capture.packets|, |d.capture.packets|;
      PacketsGrow(b, ReadBlock(b, d).value);
      PacketsGrow(a + b, ReadBlock(a + b, c).value);
      if ReadBlocks(a + b, c).Ok? {
        var x, y := ReadBlocks(a + b, c).value.capture.packets, ReadBlocks(b, d).value.capture.packets;
        assert (before.capture.packets + Shifted(y, |a|))[k + m].captured == y[m].captured;
      }
    }
  }

  lemma BlockDiverges(a: seq<u8>, b: seq<u8>, c: Cursor, d: Cursor, before: Cursor)
    requires before.at == |a| && c.at == |a| + d.at && d.at + BLOCK_MINIMUM_SIZE <= |b|
    requires Follows(c, d, before) || ReadU32(b, d.at, false) == SECTION_HEADER
    requires FollowsCapture(c.capture, d.capture, before)
    requires !CutAlikeAt(b, d, before.capture.snaplen)
    requires ReadBlock(b, d).Ok? && ReadBlock(a + b, c).Ok?
    ensures var x, y, m := ReadBlock(a + b, c).value.capture.packets, ReadBlock(b, d).value.capture.packets,
                           |d.capture.packets|;
            && |y| == m + 1 && |x| == |before.capture.packets| + m + 1
            && x[|before.capture.packets| + m].captured != y[m].captured
  {
    hide ReadU32;
    if ReadU32(b, d.at, false) == SECTION_HEADER {
      HeaderEitherWay(b, d.at);
    }
    SameSuffix(a, b, d.at, d.swapped);
    SameSuffix(a, b, d.at + 8, d.swapped);
  }

  lemma {:induction false} PacketsGrow(bytes: seq<u8>, c: Cursor)
    ensures ReadBlocks(bytes, c).Ok? ==> c.capture.packets <= ReadBlocks(bytes, c).value.capture.packets
    decreases |bytes| - c.at
  {
    hide ReadU32, ReadU16, Resolution, Nanoseconds;
    if c.at < |bytes| && ReadBlock(bytes, c).Ok? {
      PacketsGrow(bytes, ReadBlock(bytes, c).value);
    }
  }

  /** Only Ethernet captures are accepted. */
  lemma {:induction false} LinkTypeKept(bytes: seq<u8>, c: Cursor)
    requires c.capture.linkType == LINKTYPE_ETHERNET && ReadBlocks(bytes, c).Ok?
    ensures ReadBlocks(bytes, c).value.capture.linkType == LINKTYPE_ETHERNET
    decreases |bytes| - c.at
  {
    hide ReadU32, ReadU16, Resolution, Nanoseconds;
    if c.at < |bytes| {
      LinkTypeKept(bytes, ReadBlock(bytes, c).value);
    }
  }

  // ---- where a concatenation is no concatenation ----

  /** Two streams of little-endian sections, encoded one after the other. */
  lemma {:induction false} EncodeConcat(a: seq<Block>, b: seq<Block>)
    requires EncodableAll(a) && EncodableAll(b) && EncodableAll(a + b)
    requires forall block <- a :: block.Section? ==> !block.swapped
    ensures EncodeAll(a + b, false) == EncodeAll(a, false) + EncodeAll(b, false)
    decreases |a|
  {
    hide Encode;
    if a == [] {
      assert a + b == b;
    } else {
      assert (a + b)[1..] == a[1..] + b && (a + b)[0] == a[0];
      EncodeConcat(a[1..], b);
    }
  }

  /** A section with one interface. */
  function Opening(snaplen: u32): (blocks: seq<Block>)
    ensures EncodableAll(blocks)
  {
    [Section(false, Zeros(12)), Interface(LINKTYPE_ETHERNET, 0, snaplen, [], [])]
  }

  const OPENING_SIZE := 52

  lemma OpeningSize(snaplen: u32)
    ensures |EncodeAll(Opening(snaplen), false)| == OPENING_SIZE
  {
    hide Encode;
    var blocks := Opening(snaplen);
    assert Size(blocks[0]) == 28 && Size(blocks[1]) == 24;
    assert EncodeAll(blocks[1..][1..], false) == [];
  }

  lemma FirstMeans(first: Block, rest: seq<Block>, c: Cursor, next: Cursor)
    requires Encodable(first) && EncodableAll(rest) && Meaning(first, c) == Ok(next)
    ensures MeaningAll([first] + rest, c) == MeaningAll(rest, next)
  {
    hide Meaning;
    assert ([first] + rest)[1..] == rest;
  }

  lemma SectionMeans(c: Cursor)
    ensures Encodable(Section(false, Zeros(12)))
    ensures Meaning(Section(false, Zeros(12)), c) == Ok(c.(at := c.at + 28, swapped := false, resolutions := []))
  {
  }

  lemma InterfaceMeans(snaplen: u32, c: Cursor)
    ensures Encodable(Interface(LINKTYPE_ETHERNET, 0, snaplen, [], []))
    ensures Meaning(Interface(LINKTYPE_ETHERNET, 0, snaplen, [], []), c)
         == Ok(c.(at := c.at + 24, resolutions := c.resolutions + [DEFAULT_RESOLUTION],
                  capture := c.capture.(linkType := LINKTYPE_ETHERNET, snaplen := Max(c.capture.snaplen, snaplen))))
  {
  }

  lemma OpeningMeans(snaplen: u32, c: Cursor, rest: seq<Block>)
    requires EncodableAll(rest)
    ensures var next := Cursor(c.at + OPENING_SIZE, false, [DEFAULT_RESOLUTION],
                               c.capture.(linkType := LINKTYPE_ETHERNET, snaplen := Max(c.capture.snaplen, snaplen)));
            MeaningAll(Opening(snaplen) + rest, c) == MeaningAll(rest, next)
  {
    hide MeaningAll, Meaning, Encodable, Zeros, Max;
    var blocks := Opening(snaplen);
    assert EncodableAll([blocks[1]] + rest);
    var middle := c.(at := c.at + 28, swapped := false, resolutions := []);
    SectionMeans(c);
    InterfaceMeans(snaplen, middle);
    FirstMeans(blocks[0], [blocks[1]] + rest, c, middle);
    assert middle.resolutions + [DEFAULT_RESOLUTION] == [DEFAULT_RESOLUTION];
    FirstMeans(blocks[1], rest, middle, Meaning(blocks[1], middle).value);
    assert blocks + rest == [blocks[0]] + ([blocks[1]] + rest);
  }

  /** The cut does fail: behind a file with a larger snaplen, a frame keeps bytes it loses when its own file is
      read alone. Both files are accepted, and so is the one after the other. */
  lemma CutByEarlierFile(large: u32, small: u32, original: u32, frame: seq<u8>)
    requires 0 < small < large && small < original && |frame| % 4 == 0 && |frame| < TWO_16
    requires Min(original, large) <= |frame|
    ensures var a, b := EncodeAll(Opening(large), false), EncodeAll(Opening(small) + [Simple(original, frame)], false);
            && ReadPcapng(a).Ok? && ReadPcapng(b).Ok? && ReadPcapng(a + b).Ok? && StartsSection(b)
            && !CutAlikeAll(b, START, DeclaredSnaplen(a))
            && ReadPcapng(b).value.packets == [Packet(0, OPENING_SIZE + 12, small, original)]
            && ReadPcapng(a + b).value.packets
               == [Packet(0, |a| + OPENING_SIZE + 12, Min(original, large), original)]
  {
    hide ReadBlocks, CutAlikeAll, EncodeAll, MeaningAll, ReadU32, Encode;
    var simple := Simple(original, frame);
    var first, second := Opening(large), Opening(small) + [simple];
    assert Encodable(simple);
    assert EncodableAll(second) && EncodableAll(first + second);
    var a, b := EncodeAll(first, false), EncodeAll(second, false);
    EncodeConcat(first, second);
    ReadsEncoded(first);
    ReadsEncoded(second);
    ReadsEncoded(first + second);
    assert first + [] == first;
    OpeningMeans(large, START, []);
    OpeningMeans(small, START, [simple]);
    OpeningMeans(large, START, second);
    var behind := Cursor(|a|, false, [DEFAULT_RESOLUTION], Capture([], LINKTYPE_ETHERNET, large, false));
    NothingMeans(behind);
    OpeningMeans(small, behind, [simple]);
    OpeningSize(large);
    var at := OPENING_SIZE;
    SimpleMeans(simple, Cursor(at, false, [DEFAULT_RESOLUTION], Capture([], LINKTYPE_ETHERNET, small, false)));
    SimpleMeans(simple, Cursor(|a| + at, false, [DEFAULT_RESOLUTION], Capture([], LINKTYPE_ETHERNET, large, false)));
    StartsWithSection(second);
    assert ReadPcapng(b).value.packets == [Packet(0, at + 12, small, original)];
    assert ReadPcapng(a + b).value.packets == [Packet(0, |a| + at + 12, Min(original, large), original)];
    ConcatenationExactly(a, b);
    assert (ReadPcapng(a).value.packets + Shifted(ReadPcapng(b).value.packets, |a|))[0].captured == small;
  }

  lemma NothingMeans(c: Cursor)
    ensures MeaningAll([], c) == Ok(c)
  {
  }

  lemma SimpleMeans(block: Block, c: Cursor)
    requires block.Simple? && Encodable(block) && c.resolutions != [] && c.capture.snaplen != 0
    requires Min(block.original, c.capture.snaplen) <= |block.data| < TWO_16
    ensures MeaningAll([block], c).Ok?
    ensures MeaningAll([block], c).value.capture
         == c.capture.(packets := c.capture.packets
                                  + [Packet(0, c.at + 12, Min(block.original, c.capture.snaplen), block.original)])
  {
    hide Encodable, MeaningAll;
    var next := AddSimple(c, |block.data|, block.original).value.(at := c.at + Size(block));
    assert Meaning(block, c) == Ok(next);
    FirstMeans(block, [], c, next);
    NothingMeans(next);
    assert [block] + [] == [block];
  }

  lemma StartsWithSection(blocks: seq<Block>)
    requires EncodableAll(blocks) && blocks != [] && blocks[0].Section? && !blocks[0].swapped
    ensures StartsSection(EncodeAll(blocks, false))
  {
    hide ReadU32;
    var data := EncodeAll(blocks, false);
    assert At(data, 0, Encode(blocks[0], false));
    Enters(data, START, blocks[0]);
  }
}
