/** The sliced benchmark of src/benchmark.cpp: frames are generated, packed and analysed batch by batch, within
    a budget per call. Whatever the batches and the budgets, a finished run has counted the same. */
module Benchmark {
  import opened Arith
  import opened Words
  import opened Results
  import opened Packets
  import opened PacketParser
  import opened PacketAnalyzerModel
  import opened TrafficSums
  import opened PacketBatches
  import opened TrafficGenerator
  import opened TrafficWriter

  const MAX_FRAME_SIZE := 9000

  datatype BenchmarkError = UnknownBackend | InvalidConfiguration

  datatype BenchmarkConfig = BenchmarkConfig(
    traffic: TrafficConfig,
    packetCount: u64,
    batchSize: u64,
    backend: string,
    generator: string)

  /** What a run is refused for. */
  function Validate(config: BenchmarkConfig): (r: Result<(), BenchmarkError>)
    ensures r.Ok? ==> config.traffic.frameSize >= ETHERNET_HEADER_SIZE && config.traffic.hostCount >= 2
  {
    if config.packetCount == 0 || config.batchSize == 0 then Err(InvalidConfiguration)
    else if config.traffic.frameSize < ETHERNET_HEADER_SIZE || config.traffic.frameSize > MAX_FRAME_SIZE then
      Err(InvalidConfiguration)
    else if config.traffic.hostCount < 2 then Err(InvalidConfiguration)
    else if config.batchSize > Quotient(TWO_32 - 1, config.traffic.frameSize) then Err(InvalidConfiguration)
    else if config.backend != "cpu" || config.generator != "cpu" then Err(UnknownBackend)
    else Ok(())
  }

  // ---- what a run analyses ----

  function Views(frames: seq<seq<u8>>): (views: seq<PacketView>)
    ensures |views| == |frames| && forall i | 0 <= i < |frames| :: views[i] == PacketView(frames[i], 0)
  {
    seq(|frames|, i requires 0 <= i < |frames| => PacketView(frames[i], 0))
  }

  /** The packets of a run, from frame `first` on. */
  function RunPackets(traffic: TrafficConfig, first: u64, count: nat): seq<Measured>
    requires traffic.frameSize >= ETHERNET_HEADER_SIZE && traffic.hostCount >= 2
  {
    Measure(Views(Frames(traffic, first, count)))
  }

  lemma RunContinues(traffic: TrafficConfig, done: u64, more: nat)
    requires traffic.frameSize >= ETHERNET_HEADER_SIZE && traffic.hostCount >= 2
    ensures RunPackets(traffic, 0, done + more) == RunPackets(traffic, 0, done) + RunPackets(traffic, done, more)
  {
    hide TrafficFrame, ParsePacket;
    forall i | 0 <= i < more
      ensures FrameAt(traffic, 0, done + i) == FrameAt(traffic, done, i)
    {
    }
  }

  lemma {:induction false} SameSizes(views: seq<PacketView>, size: nat)
    requires forall i | 0 <= i < |views| :: |views[i].bytes| == size
    ensures TotalSize(views) == |views| * size
  {
    if views != [] {
      SameSizes(views[..|views| - 1], size);
    }
  }

  lemma {:induction false} NothingRefused(views: seq<PacketView>, size: nat)
    requires forall i | 0 <= i < |views| :: |views[i].bytes| == size
    requires size < TWO_16 && |views| * size < TWO_32
    ensures Refusal(views) == None
  {
    if views != [] {
      SameSizes(views, size);
      MulMono(|views| - 1, |views|, size);
      NothingRefused(views[..|views| - 1], size);
    }
  }

  /** A batch of an accepted configuration can always be packed. */
  lemma BatchFits(config: BenchmarkConfig, count: nat, views: seq<PacketView>)
    requires Validate(config).Ok? && count <= config.batchSize && |views| == count
    requires forall i | 0 <= i < |views| :: |views[i].bytes| == config.traffic.frameSize
    ensures Refusal(views) == None
  {
    hide Quotient, Refusal;
    var size := config.traffic.frameSize;
    QuotientBounds(TWO_32 - 1, size);
    MulMono(count, Quotient(TWO_32 - 1, size), size);
    NothingRefused(views, size);
  }

  function SumOf(batches: seq<Totals>): Totals {
    if batches == [] then NO_TOTALS else Plus(batches[0], SumOf(batches[1..]))
  }

  lemma {:induction false} SumNext(batches: seq<Totals>, t: Totals)
    ensures SumOf(batches + [t]) == Plus(SumOf(batches), t)
    decreases |batches|
  {
    if batches == [] {
      assert (batches + [t])[1..] == [];
    } else {
      SumNext(batches[1..], t);
      assert (batches + [t])[1..] == batches[1..] + [t];
    }
  }

  class BenchmarkRun {
    const config: BenchmarkConfig
    const streaming: bool
    const aggregator: PacketAnalysisAggregator
    var completed: u64
    var totals: Totals
    var latencies: nat              // how many batch latencies were recorded
    var pending: seq<Totals>        // batches submitted and not collected, oldest first

    ghost predicate Valid()
      reads this, aggregator
    {
      && Validate(config).Ok?
      && completed <= config.packetCount
      && aggregator.learned == Learned({}, RunPackets(config.traffic, 0, completed))
      && Plus(totals, SumOf(pending)) == TotalsOf({}, RunPackets(config.traffic, 0, completed))
      && (!streaming || Finished() ==> pending == [])
    }

    predicate Finished()
      reads this
    {
      completed >= config.packetCount
    }

    constructor (config: BenchmarkConfig, streaming: bool)
      requires Validate(config).Ok?
      ensures Valid() && fresh(aggregator) && this.config == config && this.streaming == streaming && completed == 0
    {
      hide RunPackets, Learned, TotalsOf, Validate, Plus, SumOf;
      this.config := config;
      this.streaming := streaming;
      aggregator := new PacketAnalysisAggregator();
      completed, totals, latencies, pending := 0, NO_TOTALS, 0, [];
      new;
      ValidateMeans(config);
      NothingRun(config.traffic);
      NothingLearned();
      NothingPending(NO_TOTALS, NO_TOTALS);
    }

    static method Create(config: BenchmarkConfig, streaming: bool) returns (r: Result<BenchmarkRun, BenchmarkError>)
      ensures r.Ok? <==> Validate(config).Ok?
      ensures r.Err? ==> r.error == Validate(config).error
      ensures r.Ok? ==> fresh(r.value) && fresh(r.value.aggregator) && r.value.Valid() && r.value.config == config
                        && r.value.streaming == streaming && r.value.completed == 0
    {
      var valid := Validate(config);
      if valid.Err? {
        return Err(valid.error);
      }
      var run := new BenchmarkRun(config, streaming);
      return Ok(run);
    }

    method Account(analysis: Totals)
      modifies this`totals
      ensures totals == Plus(old(totals), analysis)
    {
      totals := Plus(totals, analysis);
    }

    /** Takes the `ready` oldest results of the pipeline. */
    method Collect(ready: nat)
      modifies this`totals, this`pending
      ensures Plus(totals, SumOf(pending)) == old(Plus(totals, SumOf(pending)))
      ensures |pending| == |old(pending)| - Min(ready, |old(pending)|)
    {
      hide Plus;
      var taken := 0;
      while taken < ready && pending != []
        invariant Plus(totals, SumOf(pending)) == old(Plus(totals, SumOf(pending)))
        invariant taken <= ready && |pending| == |old(pending)| - taken
        decreases |pending|
      {
        PlusAssociates(totals, pending[0], SumOf(pending[1..]));
        Account(pending[0]);
        pending := pending[1..];
        taken := taken + 1;
      }
    }

    /** One batch: generated, packed, and analysed now or handed to the pipeline. */
    method Batch(size: u64)
      requires Validate(config).Ok? && (!streaming ==> pending == [])
      requires aggregator.learned == Learned({}, RunPackets(config.traffic, 0, completed))
      requires Plus(totals, SumOf(pending)) == TotalsOf({}, RunPackets(config.traffic, 0, completed))
      requires 0 < size <= config.batchSize && completed + size <= config.packetCount
      modifies this`completed, this`totals, this`latencies, this`pending, aggregator
      ensures completed == old(completed) + size
      ensures aggregator.learned == Learned({}, RunPackets(config.traffic, 0, completed))
      ensures Plus(totals, SumOf(pending)) == TotalsOf({}, RunPackets(config.traffic, 0, completed))
      ensures !streaming ==> pending == []
    {
      hide Learned, TotalsOf, Analysed, TrafficFrame, Validate, Measure, SumOf, Plus;
      ValidateMeans(config);
      ghost var before := RunPackets(config.traffic, 0, completed);
      var frames := Fill(config.traffic, completed, size);
      var packets := Views(frames);
      BatchFits(config, size, packets);
      var packed := PacketBatches.Create(packets, 0);
      var analysis := AnalyzeBatch(aggregator, packed.value, packets);
      AnalysedTotals(analysis, Learned({}, before), Measure(packets));
      RunContinues(config.traffic, completed, size);
      LearnedConcat({}, before, Measure(packets));
      TotalsConcat({}, before, Measure(packets));
      PlusAssociates(totals, SumOf(pending), analysis.totals);
      if streaming {
        SumNext(pending, analysis.totals);
        pending := pending + [analysis.totals];
      } else {
        latencies := latencies + 1;
        NothingPending(totals, analysis.totals);
        Account(analysis.totals);
      }
      completed := completed + size;
    }

    /** Analyses whole batches until the budget is met or the run is over. `ready` is how many results of the
        pipeline are there when it is asked for, batch after batch. */
    method Advance(maxPackets: u64, ready: seq<nat>) returns (count: nat)
      requires Valid()
      modifies this`completed, this`totals, this`latencies, this`pending, aggregator
      ensures Valid()
      ensures completed == old(completed) + count
      ensures count == 0 <==> maxPackets == 0 || old(Finished())
      ensures !Finished() ==> maxPackets <= count && (count == 0 || count < maxPackets + config.batchSize)
    {
      hide RunPackets, Learned, TotalsOf, Plus, SumOf, Validate;
      count := 0;
      if maxPackets == 0 || completed >= config.packetCount {
        return;
      }
      ValidateMeans(config);
      var more, calls := true, 0;
      while more
        invariant completed == old(completed) + count <= config.packetCount
        invariant more <==> count < maxPackets && completed < config.packetCount
        invariant count < maxPackets + config.batchSize && (!more ==> count > 0)
        invariant aggregator.learned == Learned({}, RunPackets(config.traffic, 0, completed))
        invariant Plus(totals, SumOf(pending)) == TotalsOf({}, RunPackets(config.traffic, 0, completed))
        invariant !streaming ==> pending == []
        decreases config.packetCount - completed, more
      {
        var size := Min(config.batchSize, config.packetCount - completed);
        Batch(size);
        if streaming {
          Collect(if calls < |ready| then ready[calls] else 0);
        }
        calls := calls + 1;
        count := count + size;
        more := count < maxPackets && completed < config.packetCount;
      }
      if streaming && completed >= config.packetCount {
        Collect(|pending|);
      }
    }
  }

  lemma PlusAssociates(a: Totals, b: Totals, c: Totals)
    ensures Plus(Plus(a, b), c) == Plus(a, Plus(b, c))
  {
  }

  lemma NothingPending(t: Totals, u: Totals)
    ensures SumOf([]) == NO_TOTALS && Plus(t, NO_TOTALS) == t && Plus(Plus(t, u), NO_TOTALS) == Plus(t, u)
  {
  }

  lemma NothingRun(traffic: TrafficConfig)
    requires traffic.frameSize >= ETHERNET_HEADER_SIZE && traffic.hostCount >= 2
    ensures RunPackets(traffic, 0, 0) == []
  {
    hide FrameAt;
    assert |RunPackets(traffic, 0, 0)| == 0;
  }

  lemma NothingLearned()
    ensures Learned({}, []) == {} && TotalsOf({}, []) == NO_TOTALS
  {
  }

  lemma ValidateMeans(config: BenchmarkConfig)
    requires Validate(config).Ok?
    ensures ETHERNET_HEADER_SIZE <= config.traffic.frameSize <= MAX_FRAME_SIZE && config.traffic.hostCount >= 2
    ensures config.packetCount > 0 && config.batchSize > 0
  {
    hide Quotient;
  }

  lemma AnalysedTotals(batch: AnalysisBatch, known: set<Mac>, packets: seq<Measured>)
    requires Analysed(batch, known, packets)
    ensures batch.totals == TotalsOf(known, packets)
  {
  }

  // ---- runs ----

  /** A finished run has counted one fold over all its frames: neither the batch size nor how the run was
      sliced nor when a pipeline answered shows in the counters. */
  method Drive(run: BenchmarkRun, budgets: seq<u64>, ready: seq<seq<nat>>)
    requires run.Valid()
    modifies run, run.aggregator
    ensures run.Valid()
    ensures run.completed >= Min(run.config.packetCount, old(run.completed) + Given(budgets))
    ensures run.Finished() ==>
              run.totals == TotalsOf({}, RunPackets(run.config.traffic, 0, run.config.packetCount))
  {
    hide RunPackets, Learned, TotalsOf, Plus, SumOf, Validate;
    for i := 0 to |budgets|
      invariant run.Valid()
      invariant run.completed >= Min(run.config.packetCount, old(run.completed) + Given(budgets[..i]))
    {
      assert budgets[..i + 1][..i] == budgets[..i];
      var _ := run.Advance(budgets[i], if i < |ready| then ready[i] else []);
    }
    assert budgets[..|budgets|] == budgets;
    NothingPending(run.totals, NO_TOTALS);
  }

  /** How much progress budgets are sure to make: one packet for every one that is not zero, and all of each
      until the run is over. */
  function Given(budgets: seq<u64>): nat {
    if budgets == [] then 0 else Given(budgets[..|budgets| - 1]) + budgets[|budgets| - 1]
  }

  /** With any budget but zero, a run ends. */
  method Complete(run: BenchmarkRun, budget: u64)
    requires run.Valid() && budget > 0
    modifies run, run.aggregator
    ensures run.Valid() && run.Finished()
    ensures run.totals == TotalsOf({}, RunPackets(run.config.traffic, 0, run.config.packetCount))
  {
    hide RunPackets, Learned, TotalsOf, Plus, SumOf, Validate;
    while !run.Finished()
      invariant run.Valid()
      decreases run.config.packetCount - run.completed
    {
      var _ := run.Advance(budget, []);
    }
    NothingPending(run.totals, NO_TOTALS);
  }

  // ---- frames that count twice ----

  /** A run of frames between 14 and 33 bytes counts every one of them as malformed and as classified. */
  lemma ShortFramesCountTwice(traffic: TrafficConfig, first: u64, count: nat)
    requires ETHERNET_HEADER_SIZE <= traffic.frameSize < 34 && traffic.hostCount >= 2
    ensures var t := TotalsOf({}, RunPackets(traffic, first, count));
            && t.receivedPackets == t.malformed == count
            && t.broadcast + t.unknownUnicast + t.knownUnicast == count
  {
    hide TrafficFrame, TotalsOf, ParsePacket;
    var packets := RunPackets(traffic, first, count);
    forall i | 0 <= i < |packets|
      ensures packets[i].analysis.validity == MalformedIpv4
    {
      ShortFramesAreMalformed(traffic, (first + i) % TWO_64, 0);
    }
    CountedAsBoth({}, packets);
    EveryPacketCountedOnce({}, packets);
  }

  // ---- percentiles ----

  /** The position of a percentile among sorted latencies. */
  function PercentileIndex(count: nat, percent: nat): (index: nat)
    requires count > 0 && 0 < percent <= 100
    ensures index < count
    ensures index * 100 < count * percent <= (index + 1) * 100
  {
    var index := (count * percent + 99) / 100 - 1;
    MulMono(percent, 100, count);
    AtLeast(count, percent);
    index
  }
}
