/** What an analysis says of its packets, counted directly: who was known when, and for every counter and every row of
    every table the set of packets it stands for. */
module AnalysisTables {
  import opened Words
  import opened Packets
  import opened Grouping
  import opened PacketAnalyzerModel

  // ---- classification ----

  /** An address is known once it was before the batch, or was the source of a frame long enough to have one. */
  lemma {:induction false} LearnedExactly(known: set<Mac>, packets: seq<Measured>, mac: Mac)
    ensures mac in Learned(known, packets) <==>
            mac in known || exists j :: 0 <= j < |packets| && packets[j].analysis.validity != MalformedEthernet
                                        && packets[j].analysis.sourceMac == mac
  {
    if packets != [] {
      LearnedExactly(known, packets[..|packets| - 1], mac);
    }
  }

  /** A packet with addresses is a broadcast if it is sent to all ones, known if its destination was known before the
      batch or sent an earlier packet of it, and unknown otherwise; nothing else of it changes. */
  lemma ClassifiedExactly(known: set<Mac>, packets: seq<Measured>, i: nat)
    requires i < |packets|
    ensures var a, c := packets[i].analysis, Classified(known, packets)[i];
            && c == a.(classification := c.classification)
            && (a.validity == MalformedEthernet ==> c == a)
            && (a.validity != MalformedEthernet ==>
                  && (c.classification == Broadcast <==> a.destinationMac == 0xffff_ffff_ffff)
                  && (c.classification == KnownUnicast <==>
                        && a.destinationMac != 0xffff_ffff_ffff
                        && (a.destinationMac in known
                            || exists j :: 0 <= j < i && packets[j].analysis.validity != MalformedEthernet
                                           && packets[j].analysis.sourceMac == a.destinationMac))
                  && c.classification != Malformed)
  {
    LearnedExactly(known, packets[..i], packets[i].analysis.destinationMac);
  }

  // ---- counters ----

  /** The places of the classified packets that are one thing. */
  function Those(packets: seq<PacketAnalysis>, are: PacketAnalysis -> bool): set<nat> {
    set i: nat | i < |packets| && are(packets[i])
  }

  function Lengths(packets: seq<Measured>): nat {
    if packets == [] then 0 else Lengths(packets[..|packets| - 1]) + packets[|packets| - 1].length
  }

  function Defective(): PacketAnalysis -> bool {
    (a: PacketAnalysis) => a.validity != Valid
  }

  function ClassifiedAs(classification: Classification): PacketAnalysis -> bool {
    (a: PacketAnalysis) => a.validity != MalformedEthernet && a.classification == classification
  }

  /** Every counter is the number of packets it is named after. */
  lemma {:induction false} CountersExactly(known: set<Mac>, packets: seq<Measured>)
    ensures var t, c := TotalsOf(known, packets), Classified(known, packets);
            && t.receivedPackets == |packets| && t.receivedBytes == Lengths(packets)
            && t.malformed == |Those(c, Defective())|
            && t.broadcast == |Those(c, ClassifiedAs(Broadcast))|
            && t.unknownUnicast == |Those(c, ClassifiedAs(UnknownUnicast))|
            && t.knownUnicast == |Those(c, ClassifiedAs(KnownUnicast))|
  {
    hide Learned, Classify, Those;
    if packets == [] {
      NoneOfThem(Defective());
      NoneOfThem(ClassifiedAs(Broadcast));
      NoneOfThem(ClassifiedAs(UnknownUnicast));
      NoneOfThem(ClassifiedAs(KnownUnicast));
    } else {
      var front, c := packets[..|packets| - 1], Classified(known, packets);
      CountersExactly(known, front);
      assert forall i | 0 <= i < |front| :: packets[..i] == front[..i];
      assert c[..|front|] == Classified(known, front);
      ThoseNext(c, Defective());
      ThoseNext(c, ClassifiedAs(Broadcast));
      ThoseNext(c, ClassifiedAs(UnknownUnicast));
      ThoseNext(c, ClassifiedAs(KnownUnicast));
    }
  }

  lemma NoneOfThem(are: PacketAnalysis -> bool)
    ensures Those([], are) == {}
  {
  }

  lemma ThoseNext(packets: seq<PacketAnalysis>, are: PacketAnalysis -> bool)
    requires packets != []
    ensures var last := |packets| - 1;
            |Those(packets, are)| == |Those(packets[..last], are)| + if are(packets[last]) then 1 else 0
  {
    var last := |packets| - 1;
    assert Those(packets, are) == Those(packets[..last], are) + if are(packets[last]) then {last} else {};
  }

  // ---- tables ----

  /** The places of the packets that belong to one row. */
  function RowOf<K>(packets: seq<Measured>, of: (PacketAnalysis, K) -> bool, key: K): set<nat> {
    set i: nat | i < |packets| && of(packets[i].analysis, key)
  }

  function RowBytes<K>(packets: seq<Measured>, of: (PacketAnalysis, K) -> bool, key: K): nat {
    if packets == [] then 0
    else
      var last := packets[|packets| - 1];
      RowBytes(packets[..|packets| - 1], of, key) + if of(last.analysis, key) then last.length else 0
  }

  /** A table has one row for every key that any packet belongs to, and no other; a row is those packets and their
      lengths. */
  ghost predicate Tallies<K(!new)>(table: seq<Record<K>>, packets: seq<Measured>, of: (PacketAnalysis, K) -> bool) {
    && (forall i, j | 0 <= i < j < |table| :: table[i].key != table[j].key)
    && (forall key :: (exists i :: 0 <= i < |table| && table[i].key == key) <==> RowOf(packets, of, key) != {})
    && (forall i | 0 <= i < |table| ::
          && table[i].packets == |RowOf(packets, of, table[i].key)|
          && table[i].bytes == RowBytes(packets, of, table[i].key))
  }

  lemma {:induction false} RowCounted<K(!new)>(packets: seq<Measured>, counts: PacketAnalysis -> bool,
                                               key: PacketAnalysis -> K, of: (PacketAnalysis, K) -> bool, k: K)
    requires forall a :: of(a, k) <==> counts(a) && key(a) == k
    ensures PacketsOf(RecordsOf(packets, counts, key), k) == |RowOf(packets, of, k)|
    ensures BytesOf(RecordsOf(packets, counts, key), k) == RowBytes(packets, of, k)
    ensures HasKey(RecordsOf(packets, counts, key), k) <==> RowOf(packets, of, k) != {}
  {
    hide PacketsOf, BytesOf, HasKey;
    if packets == [] {
      NoRow(counts, key, of, k);
    } else {
      var front, last := packets[..|packets| - 1], packets[|packets| - 1];
      RowCounted(front, counts, key, of, k);
      assert RowOf(packets, of, k) == RowOf(front, of, k) + if of(last.analysis, k) then {|front|} else {};
      if counts(last.analysis) {
        var record := Record(key(last.analysis), 1, last.length);
        SumsNext(RecordsOf(front, counts, key), record, k);
        HasKeyNext(RecordsOf(front, counts, key), record, k);
      } else {
        assert RecordsOf(packets, counts, key) == RecordsOf(front, counts, key);
      }
    }
  }

  lemma NoRow<K(!new)>(counts: PacketAnalysis -> bool, key: PacketAnalysis -> K, of: (PacketAnalysis, K) -> bool, k: K)
    ensures RecordsOf([], counts, key) == [] && RowOf([], of, k) == {} && RowBytes([], of, k) == 0
    ensures PacketsOf<K>([], k) == 0 && BytesOf<K>([], k) == 0 && !HasKey<K>([], k)
  {
  }

  lemma TableCounted<K(!new)>(table: seq<Record<K>>, packets: seq<Measured>, counts: PacketAnalysis -> bool,
                              key: PacketAnalysis -> K, of: (PacketAnalysis, K) -> bool)
    requires GroupedBy(table, RecordsOf(packets, counts, key))
    requires forall a, k :: of(a, k) <==> counts(a) && key(a) == k
    ensures Tallies(table, packets, of)
  {
    hide RecordsOf, PacketsOf, BytesOf, RowOf, RowBytes;
    forall k
      ensures PacketsOf(RecordsOf(packets, counts, key), k) == |RowOf(packets, of, k)|
      ensures BytesOf(RecordsOf(packets, counts, key), k) == RowBytes(packets, of, k)
      ensures HasKey(RecordsOf(packets, counts, key), k) <==> RowOf(packets, of, k) != {}
      ensures HasKey(table, k) <==> RowOf(packets, of, k) != {}
    {
      RowCounted(packets, counts, key, of, k);
    }
  }

  predicate HasEthertype(a: PacketAnalysis, ethertype: int) {
    a.validity != MalformedEthernet && a.ethertype == ethertype
  }

  predicate HasProtocol(a: PacketAnalysis, protocol: int) {
    a.validity == Valid && a.ethertype == 0x0800 && a.protocol == protocol
  }

  predicate GoesToPort(a: PacketAnalysis, port: int) {
    && a.validity == Valid && a.ethertype == 0x0800 && (a.protocol == 6 || a.protocol == 17)
    && a.destinationPort == port
  }

  predicate ComesFrom(a: PacketAnalysis, mac: int) {
    a.validity != MalformedEthernet && a.sourceMac == mac
  }

  predicate GoesTo(a: PacketAnalysis, mac: int) {
    a.validity != MalformedEthernet && a.destinationMac == mac
  }

  predicate GoesBetween(a: PacketAnalysis, pair: MacPair) {
    a.validity != MalformedEthernet && a.sourceMac == pair.source && a.destinationMac == pair.destination
  }

  predicate IsOfFlow(a: PacketAnalysis, flow: FlowKey) {
    && a.validity == Valid && a.ethertype == 0x0800 && a.protocol == flow.protocol
    && a.sourceIpv4 == flow.source && a.destinationIpv4 == flow.destination
    && a.sourcePort == flow.sourcePort && a.destinationPort == flow.destinationPort
  }

  /** Every row of every table is the packets with its key: of all packets with addresses by type, source, destination
      and pair, of the valid IPv4 packets by protocol and flow, and of those over TCP and UDP by destination port. */
  lemma TablesExactly(batch: AnalysisBatch, known: set<Mac>, packets: seq<Measured>)
    requires Analysed(batch, known, packets)
    ensures Tallies(batch.ethertypes, packets, HasEthertype) && Tallies(batch.protocols, packets, HasProtocol)
    ensures Tallies(batch.destinationPorts, packets, GoesToPort)
    ensures Tallies(batch.sources, packets, ComesFrom) && Tallies(batch.destinations, packets, GoesTo)
    ensures Tallies(batch.matrix, packets, GoesBetween) && Tallies(batch.flows, packets, IsOfFlow)
  {
    hide GroupedBy, RecordsOf, KeysAscend, Ranked, TotalsOf, SizesOf, Tallies;
    TableCounted(batch.ethertypes, packets, HasAddresses, EthertypeOf, HasEthertype);
    TableCounted(batch.protocols, packets, IsIpv4, ProtocolOf, HasProtocol);
    TableCounted(batch.destinationPorts, packets, HasPorts, DestinationPortOf, GoesToPort);
    TableCounted(batch.sources, packets, HasAddresses, SourceOf, ComesFrom);
    TableCounted(batch.destinations, packets, HasAddresses, DestinationOf, GoesTo);
    TableCounted(batch.matrix, packets, HasAddresses, PairOf, GoesBetween);
    TableCounted(batch.flows, packets, IsIpv4, FlowOf, IsOfFlow);
  }

  /** Types, protocols, ports and pairs come by key; addresses and flows by bytes, then packets, then key. */
  lemma TablesAreOrdered(batch: AnalysisBatch, known: set<Mac>, packets: seq<Measured>, i: nat, j: nat)
    requires Analysed(batch, known, packets) && i < j
    ensures j < |batch.ethertypes| ==> batch.ethertypes[i].key < batch.ethertypes[j].key
    ensures j < |batch.protocols| ==> batch.protocols[i].key < batch.protocols[j].key
    ensures j < |batch.destinationPorts| ==> batch.destinationPorts[i].key < batch.destinationPorts[j].key
    ensures j < |batch.matrix| ==>
              var a, b := batch.matrix[i].key, batch.matrix[j].key;
              a.source < b.source || (a.source == b.source && a.destination < b.destination)
    ensures j < |batch.sources| ==> BusierFirst(batch.sources[i], batch.sources[j])
    ensures j < |batch.destinations| ==> BusierFirst(batch.destinations[i], batch.destinations[j])
    ensures j < |batch.flows| ==>
              var a, b := batch.flows[i], batch.flows[j];
              && a.bytes >= b.bytes && (a.bytes == b.bytes ==> a.packets >= b.packets)
              && (a.bytes == b.bytes && a.packets == b.packets ==>
                    || a.key.source < b.key.source
                    || (&& a.key.source == b.key.source
                        && (|| a.key.destination < b.key.destination
                            || (a.key.destination == b.key.destination && PortsFirst(a.key, b.key)))))
  {
    hide GroupedBy, RecordsOf, TotalsOf, SizesOf;
  }

  predicate BusierFirst(a: Record<int>, b: Record<int>) {
    && a.bytes >= b.bytes && (a.bytes == b.bytes ==> a.packets >= b.packets)
    && (a.bytes == b.bytes && a.packets == b.packets ==> a.key < b.key)
  }

  predicate PortsFirst(a: FlowKey, b: FlowKey) {
    || a.sourcePort < b.sourcePort
    || (&& a.sourcePort == b.sourcePort
        && (|| a.destinationPort < b.destinationPort
            || (a.destinationPort == b.destinationPort && a.protocol < b.protocol)))
  }

  /** The histogram has these seven ranges, and each holds the packets whose length is in it; the last has no end. */
  lemma SizesExactly(batch: AnalysisBatch, known: set<Mac>, packets: seq<Measured>, i: nat)
    requires Analysed(batch, known, packets) && i < 7
    ensures |batch.sizes| == 7
    ensures var size := batch.sizes[i];
            && size.minimum == [0, 64, 128, 256, 512, 1024, 1519][i]
            && size.maximum == [63, 127, 255, 511, 1023, 1518, 0xffff_ffff_ffff_ffff][i]
            && size.packets == |InRange(packets, size.minimum, size.maximum, i == 6)|
  {
    hide GroupedBy, RecordsOf, KeysAscend, Ranked, TotalsOf, BucketOf, InRange, PacketsOf;
    var size := batch.sizes[i];
    forall length: nat
      ensures BucketOf(length) == i <==> size.minimum <= length && (i == 6 || length <= size.maximum)
    {
      BucketRange(length, i);
    }
    BucketCounted(packets, i, size.minimum, size.maximum);
  }

  lemma BucketRange(length: nat, i: nat)
    requires i < 7
    ensures BucketOf(length) == i <==>
            [0, 64, 128, 256, 512, 1024, 1519][i] <= length
            && (i == 6 || length <= [63, 127, 255, 511, 1023, 1518, 0xffff_ffff_ffff_ffff][i])
  {
  }

  /** The places of the packets of some lengths. */
  function InRange(packets: seq<Measured>, minimum: nat, maximum: nat, unbounded: bool): set<nat> {
    set p: nat | p < |packets| && minimum <= packets[p].length && (unbounded || packets[p].length <= maximum)
  }

  lemma {:induction false} BucketCounted(packets: seq<Measured>, i: nat, minimum: nat, maximum: nat)
    requires forall length: nat ::
               BucketOf(length) == i <==> minimum <= length && (i == 6 || length <= maximum)
    ensures PacketsOf(PacketAnalyzerModel.Sized(packets), i) == |InRange(packets, minimum, maximum, i == 6)|
  {
    hide BucketOf, PacketsOf, BytesOf, InRange;
    if packets == [] {
      NothingOf(i, minimum, maximum);
    } else {
      var front, last := packets[..|packets| - 1], packets[|packets| - 1];
      BucketCounted(front, i, minimum, maximum);
      SizedNext(front, last);
      assert packets == front + [last];
      InRangeNext(front, last, minimum, maximum, i == 6);
    }
  }

  lemma InRangeNext(front: seq<Measured>, last: Measured, minimum: nat, maximum: nat, unbounded: bool)
    ensures |InRange(front + [last], minimum, maximum, unbounded)|
         == |InRange(front, minimum, maximum, unbounded)|
            + if minimum <= last.length && (unbounded || last.length <= maximum) then 1 else 0
  {
    assert InRange(front + [last], minimum, maximum, unbounded)
        == InRange(front, minimum, maximum, unbounded)
           + if minimum <= last.length && (unbounded || last.length <= maximum) then {|front|} else {};
  }

  lemma NothingOf(i: int, minimum: nat, maximum: nat)
    ensures PacketsOf(PacketAnalyzerModel.Sized([]), i) == 0 && InRange([], minimum, maximum, i == 6) == {}
  {
  }
}
