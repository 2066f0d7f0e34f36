/** What a bandwidth limit guarantees: copies leave in order, spaced by their exact sending times,
    so no stretch of a run carries more bits than the rate allows. */
module Shaper {
  import opened Arith
  import opened Durations
  import opened Words
  import opened Random
  import opened FaultEngineModel

  // ---- the sending time ----

  function CeilDiv(value: nat, divisor: nat): nat
    requires divisor > 0
  {
    Quotient(value + divisor - 1, divisor)
  }

  /** Sending `frameBytes` at `rate`, rounded up, saturated at the clock's range. */
  function SendingTime(frameBytes: u64, rate: u64): i64
    requires rate != 0
  {
    Min(CeilDiv(frameBytes * 8 * NANOSECONDS_PER_SECOND, rate), MAX_I64)
  }

  /** No 64-bit sum of the computation wraps, or it saturates before it could. */
  predicate Unwrapped(frameBytes: u64, rate: u64)
    requires rate != 0
  {
    var seconds, remainder := frameBytes * 8 / rate, frameBytes * 8 % rate;
    var numerator := remainder * NANOSECONDS_PER_SECOND + rate - 1;
    || seconds > MAX_SECONDS
    || (numerator < TWO_64 && seconds * NANOSECONDS_PER_SECOND + Quotient(numerator, rate) < TWO_64)
  }

  /** Whole seconds split off a ceiling. */
  lemma CeilSplit(bits: nat, rate: nat, seconds: nat, remainder: nat)
    requires rate > 0 && bits == seconds * rate + remainder && remainder < rate
    ensures CeilDiv(bits * NANOSECONDS_PER_SECOND, rate)
         == seconds * NANOSECONDS_PER_SECOND + CeilDiv(remainder * NANOSECONDS_PER_SECOND, rate)
  {
    var n := remainder * NANOSECONDS_PER_SECOND + rate - 1;
    var q, r := n / rate, n % rate;
    Division(n, rate);
    assert bits * NANOSECONDS_PER_SECOND + rate - 1 == seconds * NANOSECONDS_PER_SECOND * rate + n by {
      assert (seconds * rate + remainder) * NANOSECONDS_PER_SECOND
          == seconds * NANOSECONDS_PER_SECOND * rate + remainder * NANOSECONDS_PER_SECOND;
    }
    assert (seconds * NANOSECONDS_PER_SECOND + q) * rate == seconds * NANOSECONDS_PER_SECOND * rate + q * rate;
    QuotientUnique(bits * NANOSECONDS_PER_SECOND + rate - 1, rate, seconds * NANOSECONDS_PER_SECOND + q, r);
  }

  lemma WrapSum(value: nat, rate: u64)
    requires rate > 0
    ensures (value % TWO_64 + rate - 1) % TWO_64 == (value + rate - 1) % TWO_64
  {
  }

  /** Less than a second is left after the whole seconds. */
  lemma FractionBound(remainder: nat, rate: nat)
    requires remainder < rate
    ensures Quotient(remainder * NANOSECONDS_PER_SECOND + rate - 1, rate) <= NANOSECONDS_PER_SECOND
  {
    QuotientAtMost(remainder * NANOSECONDS_PER_SECOND + rate - 1, rate, NANOSECONDS_PER_SECOND);
  }

  /** A wrapped numerator loses at least one whole quotient. */
  lemma WrapLoses(n: nat, rate: u64)
    requires n >= TWO_64 && rate > 0
    ensures Quotient(n % TWO_64, rate) < Quotient(n, rate)
  {
    hide Quotient;
    var m := n % TWO_64;
    var a, b := Quotient(m, rate), Quotient(n, rate);
    QuotientBounds(m, rate);
    QuotientBounds(n, rate);
    if a >= b {
      MulMono(b, a, rate);
    }
  }

  /** A wrapping numerator means a fast line, so few whole seconds. */
  lemma FewSeconds(bits: u64, rate: u64, seconds: nat, remainder: nat)
    requires bits == seconds * rate + remainder && remainder < rate
    requires remainder * NANOSECONDS_PER_SECOND + rate - 1 >= TWO_64
    ensures seconds <= 2_000_000_000
  {
    assert rate >= 10_000_000_000;
    MulMono(10_000_000_000, rate, seconds);
    assert rate * seconds == seconds * rate;
  }

  lemma Decide(seconds: nat, q: nat, wrapped: nat, n: nat)
    requires seconds <= MAX_SECONDS && wrapped <= q <= NANOSECONDS_PER_SECOND
    requires n < TWO_64 ==> wrapped == q
    requires n >= TWO_64 ==> wrapped < q && seconds <= 2_000_000_000
    ensures Min((seconds * NANOSECONDS_PER_SECOND + wrapped) % TWO_64, MAX_I64)
         == Min(seconds * NANOSECONDS_PER_SECOND + q, MAX_I64)
       <==> n < TWO_64 && seconds * NANOSECONDS_PER_SECOND + q < TWO_64
  {
  }

  /** From this size on, the number of bits no longer fits 64 bits. */
  const WRAPPING_BYTES := 0x2000_0000_0000_0000

  /** Sending takes to the end of the clock, or longer. */
  predicate OutlastsClock(frameBytes: u64, rate: u64) {
    frameBytes * 8 * NANOSECONDS_PER_SECOND > rate * (MAX_I64 - 1)
  }

  /** The computed sending time is the exact one, up to the end of the clock, if and only if no sum wraps and, when
      the number of bits itself wraps, what is left of it still outlasts the clock. */
  lemma TransmissionTimeExactly(frameBytes: u64, rate: u64)
    requires rate != 0
    ensures TransmissionTime(frameBytes, rate) == SendingTime(frameBytes, rate) <==>
            var left := frameBytes % WRAPPING_BYTES;
            Unwrapped(left, rate) && (left != frameBytes ==> OutlastsClock(left, rate))
  {
    hide TransmissionTime, SendingTime, Unwrapped, OutlastsClock;
    if frameBytes < WRAPPING_BYTES {
      ExactlyUnwrapped(frameBytes, rate);
    } else {
      BitsWrap(frameBytes, rate);
      Saturates(frameBytes % WRAPPING_BYTES, rate);
    }
  }

  /** A ceiling is the least number that covers the value. */
  lemma CeilIsLeast(value: nat, rate: nat, bound: nat)
    requires rate > 0
    ensures CeilDiv(value, rate) <= bound <==> value <= bound * rate
  {
    hide Quotient;
    var q := CeilDiv(value, rate);
    QuotientBounds(value + rate - 1, rate);
    if q <= bound {
      MulMono(q, bound, rate);
    } else {
      MulMono(bound + 1, q, rate);
      assert (bound + 1) * rate == bound * rate + rate;
    }
  }

  lemma Saturates(frameBytes: u64, rate: u64)
    requires rate != 0 && frameBytes < WRAPPING_BYTES
    ensures TransmissionTime(frameBytes, rate) == MAX_I64 <==>
            Unwrapped(frameBytes, rate) && OutlastsClock(frameBytes, rate)
  {
    hide TransmissionTime, Unwrapped, CeilDiv;
    ExactlyUnwrapped(frameBytes, rate);
    NeverLonger(frameBytes, rate);
    CeilIsLeast(frameBytes * 8 * NANOSECONDS_PER_SECOND, rate, MAX_I64 - 1);
    assert (MAX_I64 - 1) * rate == rate * (MAX_I64 - 1);
  }

  /** A frame whose exact sending time the clock and the computation can hold. */
  predicate Timed(frameBytes: u64, rate: u64)
    requires rate != 0
  {
    && frameBytes < WRAPPING_BYTES && Unwrapped(frameBytes, rate)
    && frameBytes * 8 * NANOSECONDS_PER_SECOND <= MAX_I64 * rate
  }

  /** The computed time of a timed frame is the exact ceiling, and of any other it is too short. */
  lemma TimedExactly(frameBytes: u64, rate: u64)
    requires rate != 0
    ensures var exact := CeilDiv(frameBytes * 8 * NANOSECONDS_PER_SECOND, rate);
            && 0 <= TransmissionTime(frameBytes, rate) <= exact
            && (TransmissionTime(frameBytes, rate) == exact <==> Timed(frameBytes, rate))
  {
    hide TransmissionTime, Unwrapped, CeilDiv;
    CeilIsLeast(frameBytes * 8 * NANOSECONDS_PER_SECOND, rate, MAX_I64);
    NotNegative(frameBytes, rate);
    if frameBytes < WRAPPING_BYTES {
      ExactlyUnwrapped(frameBytes, rate);
      NeverLonger(frameBytes, rate);
    } else {
      BitsWrap(frameBytes, rate);
    }
  }

  lemma NotNegative(frameBytes: u64, rate: u64)
    requires rate != 0
    ensures TransmissionTime(frameBytes, rate) >= 0
  {
    hide Fraction;
  }

  /** Losing multiples of 2^64 bits loses time, unless what is left already takes for ever. */
  lemma BitsWrap(frameBytes: u64, rate: u64)
    requires rate != 0 && frameBytes >= WRAPPING_BYTES
    ensures TransmissionTime(frameBytes, rate) == TransmissionTime(frameBytes % WRAPPING_BYTES, rate)
    ensures TransmissionTime(frameBytes, rate) < CeilDiv(frameBytes * 8 * NANOSECONDS_PER_SECOND, rate)
    ensures TransmissionTime(frameBytes, rate) == SendingTime(frameBytes, rate) <==>
            TransmissionTime(frameBytes, rate) == MAX_I64
  {
    hide TransmissionTime, CeilDiv;
    var left := frameBytes % WRAPPING_BYTES;
    BitsLeft(frameBytes);
    SameBitsSameTime(frameBytes, left, rate);
    NeverLonger(left, rate);
    LongerCeiling(left * 8 * NANOSECONDS_PER_SECOND, frameBytes * 8 * NANOSECONDS_PER_SECOND, rate);
  }

  lemma BitsLeft(frameBytes: u64)
    requires frameBytes >= WRAPPING_BYTES
    ensures var left := frameBytes % WRAPPING_BYTES;
            && 0 <= left < WRAPPING_BYTES && left + WRAPPING_BYTES <= frameBytes
            && frameBytes * 8 % TWO_64 == left * 8 == left * 8 % TWO_64
  {
    var left := frameBytes % WRAPPING_BYTES;
    Division(frameBytes, WRAPPING_BYTES);
    QuotientUnique(frameBytes * 8, TWO_64, frameBytes / WRAPPING_BYTES, left * 8);
  }

  lemma SameBitsSameTime(a: u64, b: u64, rate: u64)
    requires rate != 0 && a * 8 % TWO_64 == b * 8 % TWO_64
    ensures TransmissionTime(a, rate) == TransmissionTime(b, rate)
  {
    hide Fraction, Quotient;
  }

  lemma LongerCeiling(a: nat, b: nat, rate: nat)
    requires rate > 0 && a + rate <= b
    ensures CeilDiv(a, rate) < CeilDiv(b, rate)
  {
    hide Quotient;
    var q, r := CeilDiv(a, rate), CeilDiv(b, rate);
    QuotientBounds(a + rate - 1, rate);
    QuotientBounds(b + rate - 1, rate);
    if r <= q {
      MulMono(r, q, rate);
    }
  }

  /** A computed time is never too long. */
  lemma NeverLonger(frameBytes: u64, rate: u64)
    requires rate != 0 && frameBytes < WRAPPING_BYTES
    ensures TransmissionTime(frameBytes, rate) <= SendingTime(frameBytes, rate)
  {
    hide TransmissionTime, CeilDiv, Fraction, Quotient;
    var bits := frameBytes * 8;
    if bits == 0 {
      NothingToSend(rate);
    } else {
      var seconds, remainder := bits / rate, bits % rate;
      Division(bits, rate);
      DivideBound(bits, rate);
      CeilSplit(bits, rate, seconds, remainder);
      TransmissionBranches(frameBytes, rate, seconds, remainder);
      var n := remainder * NANOSECONDS_PER_SECOND + rate - 1;
      FractionFacts(remainder, rate, n, Quotient(n, rate));
      WrapShrinks(seconds * NANOSECONDS_PER_SECOND + Fraction(remainder, rate));
    }
  }

  lemma WrapShrinks(value: nat)
    ensures 0 <= value % TWO_64 <= value
  {
  }

  lemma ExactlyUnwrapped(frameBytes: u64, rate: u64)
    requires rate != 0 && frameBytes < WRAPPING_BYTES
    ensures TransmissionTime(frameBytes, rate) == SendingTime(frameBytes, rate) <==> Unwrapped(frameBytes, rate)
  {
    hide TransmissionTime, CeilDiv, Fraction, Quotient;
    var bits := frameBytes * 8;
    if bits == 0 {
      NothingToSend(rate);
    } else {
      var seconds, remainder := bits / rate, bits % rate;
      Division(bits, rate);
      DivideBound(bits, rate);
      CeilSplit(bits, rate, seconds, remainder);
      TransmissionBranches(frameBytes, rate, seconds, remainder);
      if seconds <= MAX_SECONDS {
        var n := remainder * NANOSECONDS_PER_SECOND + rate - 1;
        FractionExactly(bits, rate, seconds, remainder, n, Quotient(n, rate));
      }
    }
  }

  lemma TransmissionBranches(frameBytes: u64, rate: u64, seconds: nat, remainder: u64)
    requires rate != 0 && 0 < frameBytes * 8 < TWO_64
    requires seconds == frameBytes * 8 / rate && remainder == frameBytes * 8 % rate
    ensures TransmissionTime(frameBytes, rate) ==
            if seconds > MAX_SECONDS then MAX_I64
            else Min((seconds * NANOSECONDS_PER_SECOND + Fraction(remainder, rate)) % TWO_64, MAX_I64)
  {
    hide Fraction, Quotient;
  }

  lemma FractionWraps(remainder: u64, rate: u64)
    requires rate != 0
    ensures Fraction(remainder, rate) == Quotient((remainder * NANOSECONDS_PER_SECOND + rate - 1) % TWO_64, rate)
  {
    hide Quotient;
    WrapSum(remainder * NANOSECONDS_PER_SECOND, rate);
  }

  /** Wrapping is the only way the fraction of a second is lost. */
  lemma FractionFacts(remainder: u64, rate: u64, n: nat, q: int)
    requires remainder < rate
    requires n == remainder * NANOSECONDS_PER_SECOND + rate - 1 && q == Quotient(n, rate)
    ensures 0 <= q <= NANOSECONDS_PER_SECOND && q == CeilDiv(remainder * NANOSECONDS_PER_SECOND, rate)
    ensures if n < TWO_64 then Fraction(remainder, rate) == q else Fraction(remainder, rate) < q
  {
    hide Fraction, Quotient;
    FractionWraps(remainder, rate);
    FractionBound(remainder, rate);
    if n >= TWO_64 {
      WrapLoses(n, rate);
    }
  }

  /** The same with the whole seconds added, where a sum may wrap too. */
  lemma FractionExactly(bits: u64, rate: u64, seconds: nat, remainder: u64, n: nat, q: int)
    requires rate != 0 && bits == seconds * rate + remainder && remainder < rate && seconds <= MAX_SECONDS
    requires n == remainder * NANOSECONDS_PER_SECOND + rate - 1 && q == Quotient(n, rate)
    ensures q == CeilDiv(remainder * NANOSECONDS_PER_SECOND, rate)
    ensures (Min((seconds * NANOSECONDS_PER_SECOND + Fraction(remainder, rate)) % TWO_64, MAX_I64)
             == Min(seconds * NANOSECONDS_PER_SECOND + q, MAX_I64))
            <==> (n < TWO_64 && seconds * NANOSECONDS_PER_SECOND + q < TWO_64)
  {
    hide CeilDiv, Fraction, Quotient;
    FractionFacts(remainder, rate, n, q);
    if n >= TWO_64 {
      FewSeconds(bits, rate, seconds, remainder);
    }
    Decide(seconds, q, Fraction(remainder, rate), n);
  }

  lemma NothingToSend(rate: u64)
    requires rate != 0
    ensures TransmissionTime(0, rate) == SendingTime(0, rate) && Unwrapped(0, rate)
  {
    QuotientUnique(0, rate, 0, 0);
    QuotientUnique(rate - 1, rate, 0, rate - 1);
  }

  /** Any frame a switch can carry, at any rate up to 2^63 bits a second, is timed exactly. */
  lemma FramesAreExact(frameBytes: u64, rate: u64)
    requires rate != 0 && frameBytes <= 0xffff && rate <= 0x8000_0000_0000_0000
    ensures Timed(frameBytes, rate)
    ensures TransmissionTime(frameBytes, rate) == CeilDiv(frameBytes * 8 * NANOSECONDS_PER_SECOND, rate)
  {
    var bits := frameBytes * 8;
    var seconds, remainder := bits / rate, bits % rate;
    Division(bits, rate);
    DivideBound(bits, rate);
    assert remainder <= bits by {
      assert seconds * rate >= 0;
    }
    FractionBound(remainder, rate);
    CeilSplit(bits, rate, seconds, remainder);
    TimedExactly(frameBytes, rate);
  }

  /** Not every input is: at the highest rate one byte takes no time at all. */
  lemma FastLineWraps()
    ensures TransmissionTime(1, 0xffff_ffff_ffff_ffff) == 0 && SendingTime(1, 0xffff_ffff_ffff_ffff) == 1
  {
  }

  /** A frame's bits fit its sending time. */
  lemma CeilCovers(value: nat, rate: nat)
    requires rate > 0
    ensures value <= CeilDiv(value, rate) * rate < value + rate
  {
    QuotientBounds(value + rate - 1, rate);
  }

  // ---- runs of one target ----

  datatype Arrival = Arrival(frameBytes: u64, at: int)

  /** A copy that left: when, how large, and when its frame had arrived. */
  datatype Copy = Copy(at: int, frameBytes: u64, arrived: int)

  function Copies(decision: FaultDecision, arrival: Arrival): (copies: seq<Copy>)
    ensures |copies| == |decision.deliveries|
  {
    seq(|decision.deliveries|,
        i requires 0 <= i < |decision.deliveries| => Copy(decision.deliveries[i], arrival.frameBytes, arrival.at))
  }

  /** All the copies a sequence of arrivals sends, in order, under one configuration. */
  function Sent(state: FaultState, arrivals: seq<Arrival>): seq<Copy>
    requires ValidConfiguration(state.configuration)
    decreases |arrivals|
  {
    if arrivals == [] then []
    else
      var (decision, next) := Judge(state, arrivals[0].frameBytes, arrivals[0].at);
      Copies(decision, arrivals[0]) + Sent(next, arrivals[1..])
  }

  /** When the line is free again after `copies`. */
  function Free(clock: int, copies: seq<Copy>, rate: u64): int
    requires rate != 0
  {
    if copies == [] then clock
    else copies[|copies| - 1].at + TransmissionTime(copies[|copies| - 1].frameBytes, rate)
  }

  /** Every copy waits for its latency and for the line, and leaves as soon as both allow: no later than
      its largest jitter unless the line is what it waits for. */
  predicate Paced(clock: int, copies: seq<Copy>, c: FaultConfiguration)
    requires c.bandwidth != 0
  {
    forall i | 0 <= i < |copies| ::
      var free, ready := Free(clock, copies[..i], c.bandwidth), copies[i].arrived + c.latency;
      && free <= copies[i].at
      && ready <= copies[i].at
      && (copies[i].at <= ready + c.jitter || copies[i].at == free)
  }

  lemma PacedThen(clock: int, first: seq<Copy>, second: seq<Copy>, c: FaultConfiguration)
    requires c.bandwidth != 0
    requires Paced(clock, first, c) && Paced(Free(clock, first, c.bandwidth), second, c)
    ensures Paced(clock, first + second, c)
    ensures Free(clock, first + second, c.bandwidth) == Free(Free(clock, first, c.bandwidth), second, c.bandwidth)
  {
    hide TransmissionTime;
    var all := first + second;
    forall i | 0 <= i < |all|
      ensures var free, ready := Free(clock, all[..i], c.bandwidth), all[i].arrived + c.latency;
              free <= all[i].at && ready <= all[i].at && (all[i].at <= ready + c.jitter || all[i].at == free)
    {
      if i < |first| {
        assert all[..i] == first[..i];
      } else {
        assert all[..i] == first + second[..i - |first|];
      }
    }
  }

  lemma JudgePaces(state: FaultState, arrival: Arrival)
    requires ValidConfiguration(state.configuration) && state.configuration.bandwidth != 0
    ensures var (decision, next) := Judge(state, arrival.frameBytes, arrival.at);
            var copies := Copies(decision, arrival);
            && next.configuration == state.configuration
            && Paced(state.nextTransmit, copies, state.configuration)
            && next.nextTransmit == Free(state.nextTransmit, copies, state.configuration.bandwidth)
  {
    hide TransmissionTime, Bounded;
    var (decision, next) := Judge(state, arrival.frameBytes, arrival.at);
    var copies := Copies(decision, arrival);
    assert copies[..0] == [];
    if |copies| == 2 {
      assert copies[..1] == [copies[0]];
    }
  }

  lemma {:induction false} RunPaces(state: FaultState, arrivals: seq<Arrival>)
    requires ValidConfiguration(state.configuration) && state.configuration.bandwidth != 0
    ensures Paced(state.nextTransmit, Sent(state, arrivals), state.configuration)
    decreases |arrivals|
  {
    hide Judge, Paced, Free;
    if arrivals == [] {
      EmptyPaces(state.nextTransmit, state.configuration);
    } else {
      JudgePaces(state, arrivals[0]);
      var (decision, next) := Judge(state, arrivals[0].frameBytes, arrivals[0].at);
      RunPaces(next, arrivals[1..]);
      PacedThen(state.nextTransmit, Copies(decision, arrivals[0]), Sent(next, arrivals[1..]), state.configuration);
    }
  }

  lemma EmptyPaces(clock: int, c: FaultConfiguration)
    requires c.bandwidth != 0
    ensures Paced(clock, [], c)
  {
  }

  // ---- the guarantee ----

  function Bits(copies: seq<Copy>): nat {
    if copies == [] then 0 else Bits(copies[..|copies| - 1]) + copies[|copies| - 1].frameBytes * 8
  }

  /** Consecutive copies are apart by at least the sending time of the first, and by exactly that when the second
      was waiting for the line; so two copies back to back keep within the rate if and only if the first is timed. */
  lemma SpacedExactly(state: FaultState, arrivals: seq<Arrival>, k: nat)
    requires ValidConfiguration(state.configuration) && state.configuration.bandwidth != 0
    requires k + 1 < |Sent(state, arrivals)|
    ensures var sent, c := Sent(state, arrivals), state.configuration;
            var bits := sent[k].frameBytes * 8;
            var gap := TransmissionTime(sent[k].frameBytes, c.bandwidth);
            && 0 <= gap && sent[k].at + gap <= sent[k + 1].at
            && (gap == CeilDiv(bits * NANOSECONDS_PER_SECOND, c.bandwidth) <==> Timed(sent[k].frameBytes, c.bandwidth))
            && (sent[k + 1].at > sent[k + 1].arrived + c.latency + c.jitter ==>
                  && sent[k + 1].at == sent[k].at + gap
                  && (bits * NANOSECONDS_PER_SECOND <= (sent[k + 1].at - sent[k].at) * c.bandwidth
                      <==> Timed(sent[k].frameBytes, c.bandwidth)))
  {
    hide Sent, TransmissionTime, CeilDiv, Timed;
    RunPaces(state, arrivals);
    var sent, rate := Sent(state, arrivals), state.configuration.bandwidth;
    assert sent[..k + 1][|sent[..k + 1]| - 1] == sent[k];
    var gap := TransmissionTime(sent[k].frameBytes, rate);
    TimedExactly(sent[k].frameBytes, rate);
    CeilIsLeast(sent[k].frameBytes * 8 * NANOSECONDS_PER_SECOND, rate, gap);
  }

  lemma BitsNext(copies: seq<Copy>, last: Copy)
    ensures Bits(copies + [last]) == Bits(copies) + last.frameBytes * 8
  {
    assert (copies + [last])[..|copies|] == copies;
  }

  lemma NoBits()
    ensures Bits([]) == 0
  {
  }

  lemma Accumulate(rate: nat, before: nat, bits: nat, start: int, previous: int, time: int, next: int)
    requires before * NANOSECONDS_PER_SECOND <= rate * (previous - start)
    requires bits * NANOSECONDS_PER_SECOND <= time * rate && previous + time <= next
    ensures (before + bits) * NANOSECONDS_PER_SECOND <= rate * (next - start)
  {
    MulMono(previous + time, next, rate);
    assert rate * (previous - start) == previous * rate - start * rate;
    assert rate * (next - start) == next * rate - start * rate;
    assert (previous + time) * rate == previous * rate + time * rate;
  }

  /** Over any arrivals: copies leave in order, and between one copy and a later one the line never carries more
      bits than its rate times the time between them, whatever was lost, duplicated, delayed or jittered, as long
      as the copies before the later one are timed. */
  lemma {:induction false} NeverFasterThanRate(state: FaultState, arrivals: seq<Arrival>, i: nat, j: nat)
    requires ValidConfiguration(state.configuration) && state.configuration.bandwidth != 0
    requires i <= j < |Sent(state, arrivals)|
    ensures var sent, rate := Sent(state, arrivals), state.configuration.bandwidth;
            && sent[i].at <= sent[j].at
            && ((forall k | i <= k < j :: Timed(sent[k].frameBytes, rate)) ==>
                  Bits(sent[i..j]) * NANOSECONDS_PER_SECOND <= rate * (sent[j].at - sent[i].at))
    decreases j
  {
    hide Sent, TransmissionTime, CeilDiv, Timed, Bits;
    var sent, rate := Sent(state, arrivals), state.configuration.bandwidth;
    NoBits();
    if i < j {
      NeverFasterThanRate(state, arrivals, i, j - 1);
      var last := sent[j - 1];
      var time := CeilDiv(last.frameBytes * 8 * NANOSECONDS_PER_SECOND, rate);
      SpacedExactly(state, arrivals, j - 1);
      if forall k | i <= k < j :: Timed(sent[k].frameBytes, rate) {
        assert Timed(last.frameBytes, rate);
        BitsNext(sent[i..j - 1], last);
        assert sent[i..j - 1] + [last] == sent[i..j];
        CeilCovers(last.frameBytes * 8 * NANOSECONDS_PER_SECOND, rate);
        Accumulate(rate, Bits(sent[i..j - 1]), last.frameBytes * 8, sent[i].at, last.at, time, sent[j].at);
      }
    } else {
      assert sent[i..j] == [];
    }
  }
}
