/** Packed batches of src/packet_batch.cpp, and the two ways src/packet_analyzer.cpp analyses packets: from
    views, and from one packed batch. */
module PacketBatches {
  import opened Arith
  import opened Words
  import opened Results
  import opened Packets
  import opened PacketParser
  import opened PacketAnalyzerModel

  datatype PacketBatchError = PacketTooLarge | BatchTooLarge

  /** Contiguous packet bytes; packet `i` starts at `offsets[i]` and the last offset is the end. */
  datatype PacketBatch = PacketBatch(
    bytes: seq<u8>,
    offsets: seq<u32>,
    lengths: seq<u16>,
    senders: seq<u32>,
    timestamp: u64)
  {
    predicate Valid() {
      && |offsets| == |lengths| + 1 && |senders| == |lengths|
      && (forall i | 0 <= i < |lengths| :: offsets[i] + lengths[i] == offsets[i + 1])
      && (forall i | 0 <= i < |offsets| :: offsets[i] <= |bytes|)
    }

    function View(i: nat): PacketView
      requires Valid() && i < |lengths|
    {
      assert offsets[i + 1] <= |bytes|;
      PacketView(bytes[offsets[i]..offsets[i] + lengths[i]], senders[i])
    }
  }

  function TotalSize(packets: seq<PacketView>): nat {
    if packets == [] then 0 else TotalSize(packets[..|packets| - 1]) + |packets[|packets| - 1].bytes|
  }

  /** What packing refuses: a packet over 65535 bytes, or all together over what a 32-bit offset reaches. */
  function Refusal(packets: seq<PacketView>): Option<PacketBatchError> {
    if packets == [] then None
    else
      var before := Refusal(packets[..|packets| - 1]);
      if before.Some? then before
      else if |packets[|packets| - 1].bytes| >= TWO_16 then Some(PacketTooLarge)
      else if TotalSize(packets) >= TWO_32 then Some(BatchTooLarge)
      else None
  }

  /** The batch holds exactly the packets. */
  ghost predicate Packs(batch: PacketBatch, packets: seq<PacketView>)
    ensures Packs(batch, packets) ==> batch.Valid() && |batch.lengths| == |packets|
  {
    && batch.Valid() && |batch.lengths| == |packets|
    && forall i | 0 <= i < |packets| :: batch.View(i) == packets[i]
  }

  method Create(packets: seq<PacketView>, timestamp: u64) returns (r: Result<PacketBatch, PacketBatchError>)
    ensures r.Err? <==> Refusal(packets).Some?
    ensures r.Err? ==> Some(r.error) == Refusal(packets)
    ensures r.Ok? ==> Packs(r.value, packets) && r.value.timestamp == timestamp
  {
    hide Packs;
    var batch := PacketBatch([], [0], [], [], timestamp);
    NothingPacked(timestamp);
    for index := 0 to |packets|
      invariant Refusal(packets[..index]) == None && batch.timestamp == timestamp
      invariant |batch.bytes| == TotalSize(packets[..index]) < TWO_32
      invariant batch.offsets != [] && batch.offsets[|batch.offsets| - 1] == |batch.bytes|
      invariant Packs(batch, packets[..index])
    {
      assert packets[..index + 1][..index] == packets[..index];
      var packet := packets[index];
      var size := |packet.bytes|;
      if size >= TWO_16 {
        RefusalStands(packets, index + 1);
        return Err(PacketTooLarge);
      }
      if size > TWO_32 - 1 - |batch.bytes| {
        RefusalStands(packets, index + 1);
        return Err(BatchTooLarge);
      }
      PacksNext(batch, packets[..index], packet);
      assert packets[..index + 1] == packets[..index] + [packet];
      batch := PacketBatch(batch.bytes + packet.bytes, batch.offsets + [|batch.bytes| + size], batch.lengths + [size],
                           batch.senders + [packet.ingressPort], timestamp);
    }
    assert packets[..|packets|] == packets;
    return Ok(batch);
  }

  lemma NothingPacked(timestamp: u64)
    ensures Packs(PacketBatch([], [0], [], [], timestamp), [])
  {
  }

  lemma {:induction false} RefusalStands(packets: seq<PacketView>, n: nat)
    requires n <= |packets| && Refusal(packets[..n]).Some?
    ensures Refusal(packets) == Refusal(packets[..n])
    decreases |packets|
  {
    if n == |packets| {
      assert packets[..n] == packets;
    } else {
      assert packets[..|packets| - 1][..n] == packets[..n];
      RefusalStands(packets[..|packets| - 1], n);
    }
  }

  lemma PacksNext(batch: PacketBatch, packets: seq<PacketView>, packet: PacketView)
    requires Packs(batch, packets) && batch.offsets[|batch.offsets| - 1] == |batch.bytes|
    requires |packet.bytes| < TWO_16 && |batch.bytes| + |packet.bytes| < TWO_32
    ensures Packs(PacketBatch(batch.bytes + packet.bytes, batch.offsets + [|batch.bytes| + |packet.bytes|],
                              batch.lengths + [|packet.bytes|], batch.senders + [packet.ingressPort], batch.timestamp),
                  packets + [packet])
  {
    var next := PacketBatch(batch.bytes + packet.bytes, batch.offsets + [|batch.bytes| + |packet.bytes|],
                            batch.lengths + [|packet.bytes|], batch.senders + [packet.ingressPort], batch.timestamp);
    forall i | 0 <= i < |next.lengths|
      ensures next.offsets[i] + next.lengths[i] == next.offsets[i + 1]
    {
      if i < |batch.lengths| {
        assert batch.offsets[i] + batch.lengths[i] == batch.offsets[i + 1];
      }
    }
    assert next.Valid();
    forall i | 0 <= i < |packets| + 1
      ensures next.View(i) == (packets + [packet])[i]
    {
      if i < |packets| {
        assert batch.View(i) == packets[i];
        assert batch.offsets[i + 1] <= |batch.bytes|;
        assert next.bytes[next.offsets[i]..next.offsets[i] + next.lengths[i]]
            == batch.bytes[batch.offsets[i]..batch.offsets[i] + batch.lengths[i]];
      } else {
        assert next.bytes[|batch.bytes|..] == packet.bytes;
      }
    }
  }

  // ---- analysis ----

  /** A packet as it is analysed from its view: with its true length. */
  function Measure(packets: seq<PacketView>): (measured: seq<Measured>)
    ensures |measured| == |packets|
    ensures forall i | 0 <= i < |packets| :: measured[i] == Measured(ParsePacket(packets[i]), |packets[i].bytes|)
  {
    seq(|packets|, i requires 0 <= i < |packets| => Measured(ParsePacket(packets[i]), |packets[i].bytes|))
  }

  /** Analysis of views. */
  method AnalyzeViews(aggregator: PacketAnalysisAggregator, packets: seq<PacketView>) returns (batch: AnalysisBatch)
    modifies aggregator
    ensures aggregator.learned == Learned(old(aggregator.learned), Measure(packets))
    ensures Analysed(batch, old(aggregator.learned), Measure(packets))
  {
    hide Learned, Analysed;
    var measured := [];
    for index := 0 to |packets|
      invariant measured == Measure(packets)[..index]
    {
      measured := measured + [Measured(ParsePacket(packets[index]), |packets[index].bytes|)];
    }
    assert measured == Measure(packets);
    batch := aggregator.Aggregate(measured);
  }

  /** Analysis of a packed batch, which counts the length the parser recorded. What it says of the packets is
      what the analysis of their views says. */
  method AnalyzeBatch(aggregator: PacketAnalysisAggregator, packed: PacketBatch, ghost packets: seq<PacketView>)
    returns (batch: AnalysisBatch)
    requires Packs(packed, packets)
    modifies aggregator
    ensures aggregator.learned == Learned(old(aggregator.learned), Measure(packets))
    ensures Analysed(batch, old(aggregator.learned), Measure(packets))
  {
    hide Learned, Analysed, ParsePacket;
    var measured: seq<Measured> := [];
    for index := 0 to |packed.lengths|
      invariant measured == Measure(packets)[..index] && unchanged(aggregator)
    {
      var analysis := ParsePacket(packed.View(index));
      SizeOfView(packed, packets, index);
      measured := measured + [Measured(analysis, analysis.frameLength)];
    }
    assert measured == Measure(packets);
    batch := aggregator.Aggregate(measured);
  }

  lemma SizeOfView(packed: PacketBatch, packets: seq<PacketView>, index: nat)
    requires Packs(packed, packets) && index < |packets|
    ensures packed.View(index) == packets[index] && |packets[index].bytes| < TWO_16
  {
    assert packed.View(index) == packets[index];
    assert packed.offsets[index] + packed.lengths[index] == packed.offsets[index + 1] <= |packed.bytes|;
    assert |packed.View(index).bytes| == packed.lengths[index];
  }
}
