/** The fault engine of src/fault_engine.cpp: per-target configuration, random state and shaper clock.
    Time points are unbounded integers of nanoseconds. */
module FaultEngineModel {
  import opened Arith
  import opened Durations
  import opened Words
  import opened Results
  import opened Random

  const BASIS_POINTS := 10000

  datatype FaultError = MissingTarget | NegativeLatency | InvalidLossPercentage | InvalidDuplicationPercentage

  datatype FaultConfiguration = FaultConfiguration(
    latency: i64,
    jitter: i64,
    loss: u32,
    duplication: u32,
    bandwidth: u64,
    blackhole: bool,
    isolated: bool)

  const NO_FAULT := FaultConfiguration(0, 0, 0, 0, 0, false, false)

  datatype FaultState = FaultState(configuration: FaultConfiguration, random: bv64, nextTransmit: int)

  /** When each delivered copy is due; none when the frame is dropped. */
  datatype FaultDecision = FaultDecision(dropped: bool, deliveries: seq<int>)

  type Faults = map<string, FaultState>

  function Validate(target: string, configuration: FaultConfiguration): Result<(), FaultError> {
    if target == "" then Err(MissingTarget)
    else if configuration.latency < 0 || configuration.jitter < 0 then Err(NegativeLatency)
    else if configuration.loss > BASIS_POINTS then Err(InvalidLossPercentage)
    else if configuration.duplication > BASIS_POINTS then Err(InvalidDuplicationPercentage)
    else Ok(())
  }

  predicate ValidConfiguration(configuration: FaultConfiguration) {
    && configuration.latency >= 0 && configuration.jitter >= 0
    && configuration.loss <= BASIS_POINTS && configuration.duplication <= BASIS_POINTS
  }

  /** Installing a fault starts its random state and its shaper over. */
  function Installed(seed: bv64, target: string, configuration: FaultConfiguration): FaultState {
    FaultState(configuration, TargetSeed(seed, target), 0)
  }

  function Configuration(faults: Faults, target: string): Option<FaultConfiguration> {
    if target in faults then Some(faults[target].configuration) else None
  }

  const MAX_SECONDS: u64 := 18_446_744_073  // the largest u64 over NANOSECONDS_PER_SECOND

  /** The part of a sending time after its whole seconds, in nanoseconds rounded up. */
  function Fraction(remainder: u64, rate: u64): u64
    requires rate != 0
  {
    Quotient((remainder * NANOSECONDS_PER_SECOND % TWO_64 + rate - 1) % TWO_64, rate)
  }

  /** Time to send a frame at a rate, rounded up, in the source's 64-bit arithmetic. */
  function TransmissionTime(frameBytes: u64, rate: u64): i64
    requires rate != 0
  {
    var bits := frameBytes * 8 % TWO_64;
    if bits == 0 then 0
    else
      DivideBound(bits, rate);
      Division(bits, rate);
      var seconds, remainder := bits / rate, bits % rate;
      if seconds > MAX_SECONDS then MAX_I64
      else Min((seconds * NANOSECONDS_PER_SECOND + Fraction(remainder, rate)) % TWO_64, MAX_I64)
  }

  /** The shaper: a copy leaves once the previous one has been sent, and occupies the line in turn. */
  function Shape(clock: int, earliest: int, frameBytes: u64, rate: u64): (sent: (int, int))
    ensures sent.0 >= earliest
  {
    if rate == 0 then (earliest, clock)
    else
      var at := Max(earliest, clock);
      (at, at + TransmissionTime(frameBytes, rate))
  }

  /** What the engine decides for one frame, and the state it leaves. */
  function Judge(state: FaultState, frameBytes: u64, arrival: int): (FaultDecision, FaultState)
    requires ValidConfiguration(state.configuration)
  {
    var c := state.configuration;
    if c.blackhole || c.isolated then (FaultDecision(true, []), state)
    else
      var (loss, r1) := Bounded(state.random, BASIS_POINTS - 1);
      if loss < c.loss then (FaultDecision(true, []), state.(random := r1))
      else
        var (duplication, r2) := Bounded(r1, BASIS_POINTS - 1);
        var (jitter, r3) := Bounded(r2, c.jitter);
        var earliest := arrival + c.latency + jitter;
        var (first, clock1) := Shape(state.nextTransmit, earliest, frameBytes, c.bandwidth);
        if duplication < c.duplication then
          var (second, clock2) := Shape(clock1, earliest, frameBytes, c.bandwidth);
          (FaultDecision(false, [first, second]), FaultState(c, r3, clock2))
        else (FaultDecision(false, [first]), FaultState(c, r3, clock1))
  }

  predicate ValidFaults(faults: Faults) {
    forall target | target in faults :: target != "" && ValidConfiguration(faults[target].configuration)
  }

  function Evaluated(faults: Faults, target: string, frameBytes: u64, arrival: int): (FaultDecision, Faults)
    requires ValidFaults(faults)
  {
    if target !in faults then (FaultDecision(false, [arrival]), faults)
    else
      var (decision, state) := Judge(faults[target], frameBytes, arrival);
      (decision, faults[target := state])
  }

  // ---- what decides ----

  /** When a frame is lost, when it is doubled, and when its copies are due without a bandwidth: by the first, the
      second and the third draw of the target's random state. */
  lemma JudgeExactly(state: FaultState, frameBytes: u64, arrival: int)
    requires ValidConfiguration(state.configuration)
    ensures var (decision, next) := Judge(state, frameBytes, arrival);
            var c, r1 := state.configuration, NextState(state.random);
            var r2 := NextState(r1);
            && (decision.dropped <==> c.blackhole || c.isolated || Draw(r1) % 10000 < c.loss)
            && (decision.dropped ==> decision.deliveries == [] && next.nextTransmit == state.nextTransmit)
            && (!decision.dropped ==> |decision.deliveries| == if Draw(r2) % 10000 < c.duplication then 2 else 1)
            && (!decision.dropped && c.bandwidth == 0 ==>
                  forall i | 0 <= i < |decision.deliveries| ::
                    decision.deliveries[i]
                    == arrival + c.latency + if c.jitter == 0 then 0 else Draw(NextState(r2)) % (c.jitter + 1))
            && next.configuration == c
            && next.random == (if c.blackhole || c.isolated then state.random
                               else if decision.dropped then r1
                               else if c.jitter == 0 then r2 else NextState(r2))
  {
    hide Draw, NextState, TransmissionTime;
  }

  /** A loss of nothing loses nothing, a loss of everything everything, and so with duplication. */
  lemma SureOutcomes(state: FaultState, frameBytes: u64, arrival: int)
    requires ValidConfiguration(state.configuration)
    ensures var decision, c := Judge(state, frameBytes, arrival).0, state.configuration;
            && (c.loss == 0 && !c.blackhole && !c.isolated ==> !decision.dropped)
            && (c.loss == 10000 ==> decision.dropped)
            && (!decision.dropped && c.duplication == 0 ==> |decision.deliveries| == 1)
            && (!decision.dropped && c.duplication == 10000 ==> |decision.deliveries| == 2)
  {
    hide Draw, NextState, Judge;
    JudgeExactly(state, frameBytes, arrival);
  }

  /** A target without a fault delivers at once; one with a fault decides from its own state, and only that moves. */
  lemma EvaluatedExactly(faults: Faults, target: string, other: string, frameBytes: u64, arrival: int)
    requires ValidFaults(faults)
    ensures var (decision, after) := Evaluated(faults, target, frameBytes, arrival);
            && (target !in faults ==> decision == FaultDecision(false, [arrival]) && after == faults)
            && (target in faults ==>
                  && target in after && decision == Judge(faults[target], frameBytes, arrival).0
                  && after[target] == Judge(faults[target], frameBytes, arrival).1)
            && (other != target ==> (other in after <==> other in faults)
                                    && (other in faults ==> after[other] == faults[other]))
  {
    hide Judge;
  }

  class FaultEngine {
    const seed: bv64
    var states: Faults

    ghost predicate Valid()
      reads this
    {
      ValidFaults(states)
    }

    constructor (seed: bv64)
      ensures Valid() && this.seed == seed && states == map[]
    {
      this.seed := seed;
      states := map[];
    }

    /** The assignment of a fresh engine over this one. */
    method Reset()
      modifies this
      ensures Valid() && states == map[]
    {
      states := map[];
    }

    method SetFault(target: string, configuration: FaultConfiguration) returns (r: Result<(), FaultError>)
      requires Valid()
      modifies this
      ensures Valid()
      ensures r.Ok? <==> target != "" && ValidConfiguration(configuration)
      ensures r.Ok? ==> states == old(states)[target := Installed(seed, target, configuration)]
      ensures r.Err? ==> r == Validate(target, configuration) && states == old(states)
    {
      r := Validate(target, configuration);
      if r.Ok? {
        states := states[target := Installed(seed, target, configuration)];
      }
    }

    method ClearFault(target: string) returns (cleared: bool)
      requires Valid()
      modifies this
      ensures Valid() && states == old(states) - {target} && cleared == (target in old(states))
    {
      cleared := target in states;
      states := states - {target};
    }

    function FaultFor(target: string): Option<FaultConfiguration>
      reads this
    {
      Configuration(states, target)
    }

    method Evaluate(target: string, frameBytes: u64, arrival: int) returns (decision: FaultDecision)
      requires Valid()
      modifies this
      ensures Valid() && (decision, states) == Evaluated(old(states), target, frameBytes, arrival)
    {
      hide TransmissionTime, Bounded;
      if target !in states {
        return FaultDecision(false, [arrival]);
      }
      var state := states[target];
      var c := state.configuration;
      if c.blackhole || c.isolated {
        assert states[target := state] == states;
        return FaultDecision(true, []);
      }
      var (loss, r1) := Bounded(state.random, BASIS_POINTS - 1);
      state := state.(random := r1);
      if loss < c.loss {
        states := states[target := state];
        return FaultDecision(true, []);
      }
      var (duplication, r2) := Bounded(state.random, BASIS_POINTS - 1);
      var count := if duplication < c.duplication then 2 else 1;
      var (jitter, r3) := Bounded(r2, c.jitter);
      var earliest := arrival + c.latency + jitter;
      state := state.(random := r3);
      var deliveries: seq<int> := [];
      ghost var start := state;
      for index := 0 to count
        invariant |deliveries| == index
        invariant state == start.(nextTransmit := state.nextTransmit)
        invariant index == 0 ==> state == start
        invariant index == 1 ==>
                    (deliveries[0], state.nextTransmit) == Shape(start.nextTransmit, earliest, frameBytes, c.bandwidth)
        invariant index == 2 ==>
                    var (first, clock) := Shape(start.nextTransmit, earliest, frameBytes, c.bandwidth);
                    && deliveries[0] == first
                    && (deliveries[1], state.nextTransmit) == Shape(clock, earliest, frameBytes, c.bandwidth)
      {
        var at := earliest;
        if c.bandwidth != 0 {
          at := Max(at, state.nextTransmit);
          state := state.(nextTransmit := at + TransmissionTime(frameBytes, c.bandwidth));
        }
        deliveries := deliveries + [at];
      }
      states := states[target := state];
      assert count == 1 ==> deliveries == [deliveries[0]];
      assert count == 2 ==> deliveries == [deliveries[0], deliveries[1]];
      return FaultDecision(false, deliveries);
    }
  }
}
