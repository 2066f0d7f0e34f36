/** The analyzer of src/packet_analyzer.cpp: frames parsed one by one, classified by the addresses learned so
    far, and summed up by address, protocol, port, flow and size. */
module PacketAnalyzerModel {
  import opened Arith
  import opened Words
  import opened Packets
  import opened PacketParser
  import opened Grouping

  /** A parsed frame and the length it is counted with. */
  datatype Measured = Measured(analysis: PacketAnalysis, length: nat)

  datatype FlowKey = FlowKey(source: u32, destination: u32, sourcePort: u16, destinationPort: u16, protocol: u8)

  datatype MacPair = MacPair(source: int, destination: int)

  datatype SizeBucket = SizeBucket(minimum: u64, maximum: u64, packets: nat, bytes: nat)

  datatype Totals = Totals(
    receivedPackets: nat,
    receivedBytes: nat,
    malformed: nat,
    broadcast: nat,
    unknownUnicast: nat,
    knownUnicast: nat)

  const NO_TOTALS := Totals(0, 0, 0, 0, 0, 0)

  datatype AnalysisBatch = AnalysisBatch(
    packets: seq<PacketAnalysis>,
    sizes: seq<SizeBucket>,
    ethertypes: seq<Record<int>>,
    protocols: seq<Record<int>>,
    destinationPorts: seq<Record<int>>,
    sources: seq<Record<int>>,
    destinations: seq<Record<int>>,
    matrix: seq<Record<MacPair>>,
    flows: seq<Record<FlowKey>>,
    totals: Totals)

  const NO_ANALYSIS := AnalysisBatch([], [], [], [], [], [], [], [], [], NO_TOTALS)

  // ---- which packet counts where ----

  predicate HasAddresses(a: PacketAnalysis) {
    a.validity != MalformedEthernet
  }

  predicate IsIpv4(a: PacketAnalysis) {
    a.ethertype == ETHERTYPE_IPV4 && a.validity == Valid
  }

  predicate HasPorts(a: PacketAnalysis) {
    IsIpv4(a) && (a.protocol == TCP || a.protocol == UDP)
  }

  function EthertypeOf(a: PacketAnalysis): int { a.ethertype }

  function ProtocolOf(a: PacketAnalysis): int { a.protocol }

  function DestinationPortOf(a: PacketAnalysis): int { a.destinationPort }

  function SourceOf(a: PacketAnalysis): int { a.sourceMac }

  function DestinationOf(a: PacketAnalysis): int { a.destinationMac }

  function PairOf(a: PacketAnalysis): MacPair { MacPair(a.sourceMac, a.destinationMac) }

  function FlowOf(a: PacketAnalysis): FlowKey {
    FlowKey(a.sourceIpv4, a.destinationIpv4, a.sourcePort, a.destinationPort, a.protocol)
  }

  /** One record for each packet that counts, under its key. */
  function RecordsOf<K>(packets: seq<Measured>, counts: PacketAnalysis -> bool,
                        key: PacketAnalysis -> K): seq<Record<K>> {
    if packets == [] then []
    else
      var last := packets[|packets| - 1];
      RecordsOf(packets[..|packets| - 1], counts, key)
      + if counts(last.analysis) then [Record(key(last.analysis), 1, last.length)] else []
  }

  predicate IntLess(a: int, b: int) { a < b }

  predicate PairLess(a: MacPair, b: MacPair) {
    if a.source == b.source then a.destination < b.destination else a.source < b.source
  }

  predicate FlowLess(a: FlowKey, b: FlowKey) {
    if a.source != b.source then a.source < b.source
    else if a.destination != b.destination then a.destination < b.destination
    else if a.sourcePort != b.sourcePort then a.sourcePort < b.sourcePort
    else if a.destinationPort != b.destinationPort then a.destinationPort < b.destinationPort
    else a.protocol < b.protocol
  }

  // ---- learning and classification ----

  /** The addresses known after some packets: those known before and the sources of every frame with addresses. */
  function Learned(known: set<Mac>, packets: seq<Measured>): set<Mac> {
    if packets == [] then known
    else
      var last := packets[|packets| - 1].analysis;
      Learned(known, packets[..|packets| - 1]) + if HasAddresses(last) then {last.sourceMac} else {}
  }

  function Classify(known: set<Mac>, a: PacketAnalysis): Classification {
    if !HasAddresses(a) then a.classification
    else if a.destinationMac == BROADCAST_MAC then Broadcast
    else if a.destinationMac in known then KnownUnicast
    else UnknownUnicast
  }

  /** Each packet classified by what was known before it. */
  function Classified(known: set<Mac>, packets: seq<Measured>): (classified: seq<PacketAnalysis>)
    ensures |classified| == |packets|
    ensures forall i | 0 <= i < |packets| ::
              classified[i]
              == packets[i].analysis.(classification := Classify(Learned(known, packets[..i]), packets[i].analysis))
  {
    seq(|packets|, i requires 0 <= i < |packets| =>
      packets[i].analysis.(classification := Classify(Learned(known, packets[..i]), packets[i].analysis)))
  }

  function Counted(t: Totals, a: PacketAnalysis, length: nat): Totals {
    var received := t.(receivedPackets := t.receivedPackets + 1, receivedBytes := t.receivedBytes + length,
                       malformed := t.malformed + if a.validity != Valid then 1 else 0);
    if !HasAddresses(a) then received
    else match a.classification
      case Broadcast => received.(broadcast := t.broadcast + 1)
      case UnknownUnicast => received.(unknownUnicast := t.unknownUnicast + 1)
      case KnownUnicast => received.(knownUnicast := t.knownUnicast + 1)
      case Malformed => received
  }

  /** The counters of one fold over all packets, starting from what is known. */
  function TotalsOf(known: set<Mac>, packets: seq<Measured>): Totals {
    if packets == [] then NO_TOTALS
    else
      var front, last := packets[..|packets| - 1], packets[|packets| - 1];
      var a := last.analysis.(classification := Classify(Learned(known, front), last.analysis));
      Counted(TotalsOf(known, front), a, last.length)
  }

  function Plus(s: Totals, t: Totals): Totals {
    Totals(s.receivedPackets + t.receivedPackets, s.receivedBytes + t.receivedBytes, s.malformed + t.malformed,
           s.broadcast + t.broadcast, s.unknownUnicast + t.unknownUnicast, s.knownUnicast + t.knownUnicast)
  }

  // ---- sizes ----

  const BUCKET_MINIMUMS: seq<u64> := [0, 64, 128, 256, 512, 1024, 1519]

  /** The bucket a length falls into. */
  function BucketOf(length: nat): (bucket: nat)
    ensures bucket < 7 && BUCKET_MINIMUMS[bucket] <= length && (bucket < 6 ==> length < BUCKET_MINIMUMS[bucket + 1])
  {
    if length < 64 then 0
    else if length < 128 then 1
    else if length < 256 then 2
    else if length < 512 then 3
    else if length < 1024 then 4
    else if length < 1519 then 5
    else 6
  }

  function SizeRecord(m: Measured): Record<int> {
    Record(BucketOf(m.length), 1, m.length)
  }

  function Sized(packets: seq<Measured>): (records: seq<Record<int>>)
    ensures |records| == |packets| && forall i | 0 <= i < |packets| :: records[i] == SizeRecord(packets[i])
  {
    seq(|packets|, i requires 0 <= i < |packets| => SizeRecord(packets[i]))
  }

  function EmptyBuckets(): (buckets: seq<SizeBucket>)
    ensures |buckets| == 7
  {
    seq(7, i requires 0 <= i < 7 =>
      SizeBucket(BUCKET_MINIMUMS[i], if i == 6 then TWO_64 - 1 else BUCKET_MINIMUMS[i + 1] - 1, 0, 0))
  }

  /** Each bucket holds the packets whose length falls into it. */
  predicate SizesOf(buckets: seq<SizeBucket>, packets: seq<Measured>) {
    && |buckets| == 7
    && forall i | 0 <= i < 7 ::
         buckets[i] == EmptyBuckets()[i].(packets := PacketsOf(Sized(packets), i), bytes := BytesOf(Sized(packets), i))
  }

  // ---- the batch ----

  /** What the analysis of a batch says, each part against the packets themselves. */
  ghost predicate Analysed(batch: AnalysisBatch, known: set<Mac>, packets: seq<Measured>) {
    && batch.packets == Classified(known, packets)
    && batch.totals == TotalsOf(known, packets)
    && SizesOf(batch.sizes, packets)
    && GroupedBy(batch.ethertypes, RecordsOf(packets, HasAddresses, EthertypeOf))
    && KeysAscend(batch.ethertypes, IntLess)
    && GroupedBy(batch.protocols, RecordsOf(packets, IsIpv4, ProtocolOf)) && KeysAscend(batch.protocols, IntLess)
    && GroupedBy(batch.destinationPorts, RecordsOf(packets, HasPorts, DestinationPortOf))
    && KeysAscend(batch.destinationPorts, IntLess)
    && GroupedBy(batch.sources, RecordsOf(packets, HasAddresses, SourceOf)) && Ranked(batch.sources, IntLess)
    && GroupedBy(batch.destinations, RecordsOf(packets, HasAddresses, DestinationOf))
    && Ranked(batch.destinations, IntLess)
    && GroupedBy(batch.matrix, RecordsOf(packets, HasAddresses, PairOf)) && KeysAscend(batch.matrix, PairLess)
    && GroupedBy(batch.flows, RecordsOf(packets, IsIpv4, FlowOf)) && Ranked(batch.flows, FlowLess)
  }

  lemma OrdersAreTotal()
    ensures TotalOrder(IntLess) && TotalOrder(PairLess) && TotalOrder(FlowLess)
  {
  }

  /** There is one analysis of given packets: no table depends on how equal elements were sorted. */
  lemma AnalysisUnique(a: AnalysisBatch, b: AnalysisBatch, known: set<Mac>, packets: seq<Measured>)
    requires Analysed(a, known, packets) && Analysed(b, known, packets)
    ensures a == b
  {
    hide GroupedBy, KeysAscend, Ranked, RecordsOf, TotalsOf, TotalOrder;
    OrdersAreTotal();
    assert a.sizes == b.sizes;
    GroupingUnique(a.ethertypes, b.ethertypes, RecordsOf(packets, HasAddresses, EthertypeOf), IntLess);
    GroupingUnique(a.protocols, b.protocols, RecordsOf(packets, IsIpv4, ProtocolOf), IntLess);
    GroupingUnique(a.destinationPorts, b.destinationPorts, RecordsOf(packets, HasPorts, DestinationPortOf), IntLess);
    RankingUnique(a.sources, b.sources, RecordsOf(packets, HasAddresses, SourceOf), IntLess);
    RankingUnique(a.destinations, b.destinations, RecordsOf(packets, HasAddresses, DestinationOf), IntLess);
    GroupingUnique(a.matrix, b.matrix, RecordsOf(packets, HasAddresses, PairOf), PairLess);
    RankingUnique(a.flows, b.flows, RecordsOf(packets, IsIpv4, FlowOf), FlowLess);
  }

  /** The analyzer's memory between batches. */
  class PacketAnalysisAggregator {
    var learned: set<Mac>

    constructor ()
      ensures learned == {}
    {
      learned := {};
    }

    method Aggregate(packets: seq<Measured>) returns (batch: AnalysisBatch)
      modifies this
      ensures learned == Learned(old(learned), packets)
      ensures Analysed(batch, old(learned), packets)
    {
      hide GroupedBy, KeysAscend, Ranked, SizesOf, RecordsOf, TotalsOf, TotalOrder;
      OrdersAreTotal();
      var classified, totals := Classification(packets);
      var sizes := Sizes(packets);
      var ethertypes := Group(packets, HasAddresses, EthertypeOf, IntLess);
      var protocols := Group(packets, IsIpv4, ProtocolOf, IntLess);
      var destinationPorts := Group(packets, HasPorts, DestinationPortOf, IntLess);
      var sources := Group(packets, HasAddresses, SourceOf, IntLess);
      var destinations := Group(packets, HasAddresses, DestinationOf, IntLess);
      var matrix := Group(packets, HasAddresses, PairOf, PairLess);
      var flows := Group(packets, IsIpv4, FlowOf, FlowLess);
      sources := Rank(sources, RecordsOf(packets, HasAddresses, SourceOf), IntLess);
      destinations := Rank(destinations, RecordsOf(packets, HasAddresses, DestinationOf), IntLess);
      flows := Rank(flows, RecordsOf(packets, IsIpv4, FlowOf), FlowLess);
      batch := AnalysisBatch(classified, sizes, ethertypes, protocols, destinationPorts, sources, destinations, matrix,
                             flows, totals);
    }

    method Reset()
      modifies this
      ensures learned == {}
    {
      learned := {};
    }

    /** Classifies each packet by the addresses learned before it, then learns its source. */
    method Classification(packets: seq<Measured>) returns (classified: seq<PacketAnalysis>, totals: Totals)
      modifies this
      ensures learned == Learned(old(learned), packets)
      ensures classified == Classified(old(learned), packets) && totals == TotalsOf(old(learned), packets)
    {
      hide Counted;
      classified, totals := [], NO_TOTALS;
      for index := 0 to |packets|
        invariant learned == Learned(old(learned), packets[..index])
        invariant totals == TotalsOf(old(learned), packets[..index])
        invariant |classified| == index
        invariant forall i | 0 <= i < index :: classified[i] == Classified(old(learned), packets)[i]
      {
        assert packets[..index + 1][..index] == packets[..index];
        var analysis := packets[index].analysis;
        if HasAddresses(analysis) {
          if analysis.destinationMac == BROADCAST_MAC {
            analysis := analysis.(classification := Broadcast);
          } else if analysis.destinationMac !in learned {
            analysis := analysis.(classification := UnknownUnicast);
          } else {
            analysis := analysis.(classification := KnownUnicast);
          }
          learned := learned + {analysis.sourceMac};
        }
        totals := Counted(totals, analysis, packets[index].length);
        classified := classified + [analysis];
      }
      assert packets[..|packets|] == packets;
    }

    method Sizes(packets: seq<Measured>) returns (buckets: seq<SizeBucket>)
      ensures SizesOf(buckets, packets)
    {
      buckets := EmptyBuckets();
      for index := 0 to |packets|
        invariant SizesOf(buckets, packets[..index])
      {
        var at, length := BucketOf(packets[index].length), packets[index].length;
        buckets := buckets[at := buckets[at].(packets := buckets[at].packets + 1, bytes := buckets[at].bytes + length)];
        SizedNext(packets[..index], packets[index]);
        assert packets[..index + 1] == packets[..index] + [packets[index]];
      }
      assert packets[..|packets|] == packets;
    }
  }

  /** The records of one table, and their groups. */
  method Group<K(!new, ==)>(packets: seq<Measured>, counts: PacketAnalysis -> bool, key: PacketAnalysis -> K,
                            less: (K, K) -> bool) returns (groups: seq<Record<K>>)
    requires TotalOrder(less)
    ensures GroupedBy(groups, RecordsOf(packets, counts, key)) && KeysAscend(groups, less)
  {
    var records: seq<Record<K>> := [];
    for index := 0 to |packets|
      invariant records == RecordsOf(packets[..index], counts, key)
    {
      assert packets[..index + 1][..index] == packets[..index];
      var m := packets[index];
      if counts(m.analysis) {
        records := records + [Record(key(m.analysis), 1, m.length)];
      }
    }
    assert packets[..|packets|] == packets;
    groups := Grouping.Aggregate(records, less);
  }

  lemma SizedNext(packets: seq<Measured>, m: Measured)
    ensures forall i :: PacketsOf(Sized(packets + [m]), i)
                        == PacketsOf(Sized(packets), i) + if BucketOf(m.length) == i then 1 else 0
    ensures forall i :: BytesOf(Sized(packets + [m]), i)
                        == BytesOf(Sized(packets), i) + if BucketOf(m.length) == i then m.length else 0
  {
    assert Sized(packets + [m]) == Sized(packets) + [SizeRecord(m)];
    forall i
      ensures PacketsOf(Sized(packets) + [SizeRecord(m)], i)
           == PacketsOf(Sized(packets), i) + if BucketOf(m.length) == i then 1 else 0
      ensures BytesOf(Sized(packets) + [SizeRecord(m)], i)
           == BytesOf(Sized(packets), i) + if BucketOf(m.length) == i then m.length else 0
    {
      SumsNext(Sized(packets), SizeRecord(m), i);
    }
  }
}
