/** What the analyzer's tables owe each other, and what a batch boundary may not change. */
module TrafficSums {
  import opened Words
  import opened Packets
  import opened PacketParser
  import opened Grouping
  import opened PacketAnalyzerModel

  /** The packets too short for addresses. */
  function Short(packets: seq<Measured>): nat {
    if packets == [] then 0
    else Short(packets[..|packets| - 1]) + if HasAddresses(packets[|packets| - 1].analysis) then 0 else 1
  }

  function Bytes(packets: seq<Measured>): nat {
    if packets == [] then 0 else Bytes(packets[..|packets| - 1]) + packets[|packets| - 1].length
  }

  function Invalid(packets: seq<Measured>): nat {
    if packets == [] then 0
    else Invalid(packets[..|packets| - 1]) + if packets[|packets| - 1].analysis.validity != Valid then 1 else 0
  }

  /** Every packet is counted once: too short for addresses, broadcast, or unicast to an unknown or known
      address. A malformed packet with addresses is counted as malformed as well. */
  lemma {:induction false} EveryPacketCountedOnce(known: set<Mac>, packets: seq<Measured>)
    ensures var t := TotalsOf(known, packets);
            && t.receivedPackets == |packets| && t.receivedBytes == Bytes(packets) && t.malformed == Invalid(packets)
            && t.receivedPackets == Short(packets) + t.broadcast + t.unknownUnicast + t.knownUnicast
            && Short(packets) <= t.malformed
  {
    if packets != [] {
      EveryPacketCountedOnce(known, packets[..|packets| - 1]);
    }
  }

  /** So malformed and classified packets together make the received ones if and only if nothing is malformed but
      what is too short for addresses. */
  lemma DisjointExactly(known: set<Mac>, packets: seq<Measured>)
    ensures var t := TotalsOf(known, packets);
            t.malformed + t.broadcast + t.unknownUnicast + t.knownUnicast == t.receivedPackets
            <==> Invalid(packets) == Short(packets)
  {
    hide TotalsOf;
    EveryPacketCountedOnce(known, packets);
  }

  /** Packets with a malformed IPv4 header are all counted as both. */
  lemma {:induction false} CountedAsBoth(known: set<Mac>, packets: seq<Measured>)
    requires forall i | 0 <= i < |packets| :: packets[i].analysis.validity == MalformedIpv4
    ensures var t := TotalsOf(known, packets);
            t.malformed == |packets| == t.broadcast + t.unknownUnicast + t.knownUnicast
    decreases |packets|
  {
    hide TotalsOf, Bytes;
    EveryPacketCountedOnce(known, packets);
    if packets != [] {
      CountedAsBoth(known, packets[..|packets| - 1]);
      EveryPacketCountedOnce(known, packets[..|packets| - 1]);
    }
  }

  // ---- the traffic matrix ----

  /** A sum over the records of packets is the sum of the packets selected. */
  lemma {:induction false} RecordsAgree<K(!new), L(!new)>(
    packets: seq<Measured>, counts: PacketAnalysis -> bool,
    key: PacketAnalysis -> K, selects: K -> bool, other: PacketAnalysis -> L, selectsOther: L -> bool)
    requires forall a: PacketAnalysis :: selects(key(a)) <==> selectsOther(other(a))
    ensures Total(RecordsOf(packets, counts, key), selects) == Total(RecordsOf(packets, counts, other), selectsOther)
  {
    if packets != [] {
      var front, last := packets[..|packets| - 1], packets[|packets| - 1];
      RecordsAgree(front, counts, key, selects, other, selectsOther);
      if counts(last.analysis) {
        TotalNext(RecordsOf(front, counts, key), Record(key(last.analysis), 1, last.length), selects);
        TotalNext(RecordsOf(front, counts, other), Record(other(last.analysis), 1, last.length), selectsOther);
      } else {
        assert RecordsOf(packets, counts, key) == RecordsOf(front, counts, key);
        assert RecordsOf(packets, counts, other) == RecordsOf(front, counts, other);
      }
    }
  }

  function Row(source: int): MacPair -> bool {
    (pair: MacPair) => pair.source == source
  }

  function Column(destination: int): MacPair -> bool {
    (pair: MacPair) => pair.destination == destination
  }

  function Only(key: int): int -> bool {
    (k: int) => k == key
  }

  function Everything<K(!new)>(): K -> bool {
    (k: K) => true
  }

  /** The rows of the matrix add up to the source records, the columns to the destination records. */
  lemma MatrixAddsUp(batch: AnalysisBatch, known: set<Mac>, packets: seq<Measured>, mac: int)
    requires Analysed(batch, known, packets)
    ensures Total(batch.matrix, Row(mac)) == Total(batch.sources, Only(mac))
    ensures Total(batch.matrix, Column(mac)) == Total(batch.destinations, Only(mac))
  {
    hide GroupedBy, Total, RecordsOf;
    GroupedTotals(batch.matrix, RecordsOf(packets, HasAddresses, PairOf), Row(mac));
    GroupedTotals(batch.matrix, RecordsOf(packets, HasAddresses, PairOf), Column(mac));
    GroupedTotals(batch.sources, RecordsOf(packets, HasAddresses, SourceOf), Only(mac));
    GroupedTotals(batch.destinations, RecordsOf(packets, HasAddresses, DestinationOf), Only(mac));
    RecordsAgree(packets, HasAddresses, PairOf, Row(mac), SourceOf, Only(mac));
    RecordsAgree(packets, HasAddresses, PairOf, Column(mac), DestinationOf, Only(mac));
  }

  /** Every table over addressed packets holds them all: as many packets as were not too short. */
  lemma TablesAreComplete(batch: AnalysisBatch, known: set<Mac>, packets: seq<Measured>)
    requires Analysed(batch, known, packets)
    ensures var addressed := batch.totals.receivedPackets - Short(packets);
            && Total(batch.sources, Everything<int>()).0 == addressed
            && Total(batch.destinations, Everything<int>()).0 == addressed
            && Total(batch.matrix, Everything<MacPair>()).0 == addressed
            && Total(batch.ethertypes, Everything<int>()).0 == addressed
  {
    hide GroupedBy, Total, RecordsOf, TotalsOf;
    EveryPacketCountedOnce(known, packets);
    GroupedTotals(batch.sources, RecordsOf(packets, HasAddresses, SourceOf), Everything<int>());
    GroupedTotals(batch.destinations, RecordsOf(packets, HasAddresses, DestinationOf), Everything<int>());
    GroupedTotals(batch.matrix, RecordsOf(packets, HasAddresses, PairOf), Everything<MacPair>());
    GroupedTotals(batch.ethertypes, RecordsOf(packets, HasAddresses, EthertypeOf), Everything<int>());
    AllAddressed(packets, SourceOf);
    AllAddressed(packets, DestinationOf);
    AllAddressed(packets, PairOf);
    AllAddressed(packets, EthertypeOf);
  }

  lemma {:induction false} AllAddressed<K(!new)>(packets: seq<Measured>, key: PacketAnalysis -> K)
    ensures Total(RecordsOf(packets, HasAddresses, key), Everything<K>()).0 == |packets| - Short(packets)
  {
    if packets != [] {
      var front, last := packets[..|packets| - 1], packets[|packets| - 1];
      AllAddressed(front, key);
      if HasAddresses(last.analysis) {
        TotalNext(RecordsOf(front, HasAddresses, key), Record(key(last.analysis), 1, last.length), Everything<K>());
      } else {
        assert RecordsOf(packets, HasAddresses, key) == RecordsOf(front, HasAddresses, key);
      }
    }
  }

  // ---- the size histogram ----

  function BucketPackets(buckets: seq<SizeBucket>): nat {
    if buckets == [] then 0 else BucketPackets(buckets[..|buckets| - 1]) + buckets[|buckets| - 1].packets
  }

  function BucketBytes(buckets: seq<SizeBucket>): nat {
    if buckets == [] then 0 else BucketBytes(buckets[..|buckets| - 1]) + buckets[|buckets| - 1].bytes
  }

  /** The sum of the first `n` buckets of the records. */
  function FirstPackets(records: seq<Record<int>>, n: nat): nat {
    if n == 0 then 0 else FirstPackets(records, n - 1) + PacketsOf(records, n - 1)
  }

  function FirstBytes(records: seq<Record<int>>, n: nat): nat {
    if n == 0 then 0 else FirstBytes(records, n - 1) + BytesOf(records, n - 1)
  }

  lemma {:induction false} FirstNext(records: seq<Record<int>>, r: Record<int>, n: nat)
    requires r.key >= 0
    ensures FirstPackets(records + [r], n) == FirstPackets(records, n) + if r.key < n then r.packets else 0
    ensures FirstBytes(records + [r], n) == FirstBytes(records, n) + if r.key < n then r.bytes else 0
    decreases n
  {
    if n > 0 {
      FirstNext(records, r, n - 1);
      SumsNext(records, r, n - 1);
    }
  }

  lemma {:induction false} NothingFirst(n: nat)
    ensures FirstPackets([], n) == 0 && FirstBytes([], n) == 0
    decreases n
  {
    if n > 0 {
      NothingFirst(n - 1);
    }
  }

  lemma {:induction false} AllBuckets(packets: seq<Measured>)
    ensures FirstPackets(Sized(packets), 7) == |packets| && FirstBytes(Sized(packets), 7) == Bytes(packets)
    decreases |packets|
  {
    hide FirstPackets, FirstBytes;
    if packets == [] {
      NothingFirst(7);
    } else {
      var front, last := packets[..|packets| - 1], packets[|packets| - 1];
      AllBuckets(front);
      FirstNext(Sized(front), SizeRecord(last), 7);
      assert Sized(packets) == Sized(front) + [SizeRecord(last)];
    }
  }

  lemma {:induction false} BucketsAreFirst(buckets: seq<SizeBucket>, records: seq<Record<int>>)
    requires forall i | 0 <= i < |buckets| ::
               buckets[i].packets == PacketsOf(records, i) && buckets[i].bytes == BytesOf(records, i)
    ensures BucketPackets(buckets) == FirstPackets(records, |buckets|)
            && BucketBytes(buckets) == FirstBytes(records, |buckets|)
    decreases |buckets|
  {
    if buckets != [] {
      BucketsAreFirst(buckets[..|buckets| - 1], records);
    }
  }

  /** The size histogram adds up to everything received. */
  lemma SizesAddUp(batch: AnalysisBatch, known: set<Mac>, packets: seq<Measured>)
    requires Analysed(batch, known, packets)
    ensures BucketPackets(batch.sizes) == batch.totals.receivedPackets
    ensures BucketBytes(batch.sizes) == batch.totals.receivedBytes
  {
    hide GroupedBy, KeysAscend, Ranked, TotalsOf, PacketsOf, BytesOf;
    EveryPacketCountedOnce(known, packets);
    AllBuckets(packets);
    BucketsAreFirst(batch.sizes, Sized(packets));
  }

  // ---- batch boundaries ----

  lemma {:induction false} LearnedConcat(known: set<Mac>, a: seq<Measured>, b: seq<Measured>)
    ensures Learned(known, a + b) == Learned(Learned(known, a), b)
    decreases |b|
  {
    if b == [] {
      assert a + b == a;
    } else {
      LearnedConcat(known, a, b[..|b| - 1]);
      assert (a + b)[..|a + b| - 1] == a + b[..|b| - 1];
    }
  }

  lemma CountedPlus(s: Totals, t: Totals, a: PacketAnalysis, length: nat)
    ensures Counted(Plus(s, t), a, length) == Plus(s, Counted(t, a, length))
  {
  }

  lemma TotalsNext(known: set<Mac>, front: seq<Measured>, last: Measured)
    ensures TotalsOf(known, front + [last])
         == Counted(TotalsOf(known, front),
                    last.analysis.(classification := Classify(Learned(known, front), last.analysis)), last.length)
  {
    assert (front + [last])[..|front|] == front;
  }

  lemma TotalsConcatNext(known: set<Mac>, a: seq<Measured>, front: seq<Measured>, last: Measured)
    requires TotalsOf(known, a + front) == Plus(TotalsOf(known, a), TotalsOf(Learned(known, a), front))
    ensures TotalsOf(known, a + front + [last]) == Plus(TotalsOf(known, a), TotalsOf(Learned(known, a), front + [last]))
  {
    hide Counted, Classify, Learned, TotalsOf, Plus;
    LearnedConcat(known, a, front);
    TotalsNext(known, a + front, last);
    TotalsNext(Learned(known, a), front, last);
    CountedPlus(TotalsOf(known, a), TotalsOf(Learned(known, a), front),
                last.analysis.(classification := Classify(Learned(known, a + front), last.analysis)), last.length);
  }

  /** Analysing in two batches counts what analysing at once counts. */
  lemma {:induction false} TotalsConcat(known: set<Mac>, a: seq<Measured>, b: seq<Measured>)
    ensures TotalsOf(known, a + b) == Plus(TotalsOf(known, a), TotalsOf(Learned(known, a), b))
    decreases |b|
  {
    if b == [] {
      TotalsConcatNothing(known, a);
    } else {
      hide TotalsOf, Plus, Learned;
      var front, last := b[..|b| - 1], b[|b| - 1];
      TotalsConcat(known, a, front);
      TotalsConcatNext(known, a, front, last);
      LastApart(a, b);
    }
  }

  lemma TotalsConcatNothing(known: set<Mac>, a: seq<Measured>)
    ensures TotalsOf(known, a + []) == Plus(TotalsOf(known, a), TotalsOf(Learned(known, a), []))
  {
    hide TotalsOf, Learned, Plus;
    assert a + [] == a;
    NothingCounted(Learned(known, a), TotalsOf(known, a));
  }

  lemma NothingCounted(known: set<Mac>, t: Totals)
    ensures TotalsOf(known, []) == NO_TOTALS && Plus(t, NO_TOTALS) == t
  {
  }

  lemma LastApart<T>(a: seq<T>, b: seq<T>)
    requires b != []
    ensures b[..|b| - 1] + [b[|b| - 1]] == b && a + b[..|b| - 1] + [b[|b| - 1]] == a + b
  {
  }

  /** And classifies every packet the same. */
  lemma ClassifiedConcat(known: set<Mac>, a: seq<Measured>, b: seq<Measured>)
    ensures Classified(known, a + b) == Classified(known, a) + Classified(Learned(known, a), b)
  {
    hide Classify, Learned;
    forall i | 0 <= i < |a + b|
      ensures Classified(known, a + b)[i] == (Classified(known, a) + Classified(Learned(known, a), b))[i]
    {
      if i < |a| {
        assert (a + b)[..i] == a[..i];
      } else {
        assert (a + b)[..i] == a + b[..i - |a|];
        LearnedConcat(known, a, b[..i - |a|]);
      }
    }
  }
}
