/** Runs of the detector: its deque is a window on the complete history of packets, and a report is the
    difference between two consecutive windows. */
module DetectorRuns {
  import opened Arith
  import opened Words
  import opened Packets
  import opened DetectorWindow

  datatype Call = Call(packets: seq<PacketAnalysis>, timestamp: u64)

  datatype State = State(observations: seq<Observation>, active: set<Key>)

  /** One accepted evaluation, as the contract of `Detector.AnomalyDetector.Evaluate` gives it. */
  ghost predicate Step(config: DetectorConfig, s: State, call: Call, events: seq<AnomalyEvent>, next: State) {
    && next.observations == Since(s.observations + ObserveAll(call.packets, call.timestamp),
                                  Cutoff(call.timestamp, config.window))
    && Emits(next.observations, config, s.active, events, next.active)
  }

  /** A run from the initial state, with clocks that never go back. */
  ghost predicate Run(config: DetectorConfig, calls: seq<Call>, reports: seq<seq<AnomalyEvent>>, states: seq<State>) {
    && |states| == |calls| + 1 && |reports| == |calls|
    && states[0] == State([], {})
    && (forall i | 0 <= i < |calls| :: Step(config, states[i], calls[i], reports[i], states[i + 1]))
    && (forall i, j | 0 <= i < j < |calls| :: calls[i].timestamp <= calls[j].timestamp)
  }

  /** Every packet ever evaluated, with its time. */
  function History(calls: seq<Call>): seq<Observation> {
    if calls == [] then []
    else
      var last := calls[|calls| - 1];
      History(calls[..|calls| - 1]) + ObserveAll(last.packets, last.timestamp)
  }

  /** How many packets the calls before the `c`-th brought. */
  function PacketsBefore(calls: seq<Call>, c: nat): nat
    requires c <= |calls|
  {
    if c == 0 then 0 else PacketsBefore(calls, c - 1) + |calls[c - 1].packets|
  }

  /** The history has every packet at its place, with its own fields and the time of its call. */
  lemma {:induction false} HistoryExactly(calls: seq<Call>, c: nat, i: nat)
    requires c < |calls| && i < |calls[c].packets|
    ensures |History(calls)| == PacketsBefore(calls, |calls|)
    ensures PacketsBefore(calls, c) + i < |History(calls)|
    ensures var o, packet := History(calls)[PacketsBefore(calls, c) + i], calls[c].packets[i];
            && o.timestamp == calls[c].timestamp
            && o.sourceMac == packet.sourceMac && o.sourceIpv4 == packet.sourceIpv4
            && o.destinationPort == packet.destinationPort && o.frameLength == packet.frameLength
            && o.ingressPort == packet.ingressPort && o.protocol == packet.protocol
            && o.classification == packet.classification && o.validity == packet.validity
    decreases |calls|
  {
    var front := calls[..|calls| - 1];
    HistorySize(front);
    SameBefore(calls, |front|);
    if c < |front| {
      SameBefore(calls, c);
      HistoryExactly(front, c, i);
    }
  }

  lemma {:induction false} HistorySize(calls: seq<Call>)
    ensures |History(calls)| == PacketsBefore(calls, |calls|)
  {
    if calls != [] {
      HistorySize(calls[..|calls| - 1]);
      SameBefore(calls, |calls| - 1);
    }
  }

  lemma {:induction false} SameBefore(calls: seq<Call>, c: nat)
    requires c < |calls|
    ensures PacketsBefore(calls[..|calls| - 1], c) == PacketsBefore(calls, c)
    decreases c
  {
    if c > 0 {
      SameBefore(calls, c - 1);
    }
  }

  /** What a window of the history holds after the first `n` calls. */
  function Window(config: DetectorConfig, calls: seq<Call>, n: nat): seq<Observation>
    requires n <= |calls|
  {
    if n == 0 then [] else Recent(History(calls[..n]), calls[n - 1].timestamp, config.window)
  }

  lemma {:induction false} SinceConcat(a: seq<Observation>, b: seq<Observation>, cutoff: u64)
    ensures Since(a + b, cutoff) == Since(a, cutoff) + Since(b, cutoff)
    decreases |b|
  {
    if b == [] {
      assert a + b == a;
    } else {
      SinceConcat(a, b[..|b| - 1], cutoff);
      assert (a + b)[..|a + b| - 1] == a + b[..|b| - 1];
    }
  }

  /** Forgetting early loses nothing a later, stricter cutoff would have kept. */
  lemma {:induction false} SinceTwice(a: seq<Observation>, early: u64, late: u64)
    requires early <= late
    ensures Since(Since(a, early), late) == Since(a, late)
  {
    if a != [] {
      var front, last := a[..|a| - 1], a[|a| - 1];
      SinceTwice(front, early, late);
      SinceConcat(Since(front, early), if last.timestamp >= early then [last] else [], late);
      assert [last][..0] == [];
      assert Since([last], late) == if last.timestamp >= late then [last] else [];
    }
  }

  lemma {:induction false} DequeIsSince(config: DetectorConfig, calls: seq<Call>, reports: seq<seq<AnomalyEvent>>,
                                        states: seq<State>, n: nat)
    requires Run(config, calls, reports, states) && n <= |calls|
    ensures states[n].observations
         == if n == 0 then [] else Since(History(calls[..n]), Cutoff(calls[n - 1].timestamp, config.window))
    decreases n
  {
    hide Emits, Since, Cutoff, History;
    if n > 0 {
      DequeIsSince(config, calls, reports, states, n - 1);
      var call, history := calls[n - 1], History(calls[..n - 1]);
      var now := ObserveAll(call.packets, call.timestamp);
      HistoryNext(calls, n);
      assert Step(config, states[n - 1], call, reports[n - 1], states[n]);
      if n > 1 {
        assert calls[n - 2].timestamp <= call.timestamp;
        ForgettingEarly(history, now, calls[n - 2].timestamp, call.timestamp, config.window);
      } else {
        assert history == [] && [] + now == now;
      }
    }
  }

  lemma HistoryNext(calls: seq<Call>, n: nat)
    requires 0 < n <= |calls|
    ensures History(calls[..n])
         == History(calls[..n - 1]) + ObserveAll(calls[n - 1].packets, calls[n - 1].timestamp)
    ensures n == 1 ==> History(calls[..n - 1]) == []
  {
    assert calls[..n][..n - 1] == calls[..n - 1];
  }

  lemma ForgettingEarly(history: seq<Observation>, now: seq<Observation>, before: u64, at: u64, window: u64)
    requires before <= at
    ensures Since(Since(history, Cutoff(before, window)) + now, Cutoff(at, window))
         == Since(history + now, Cutoff(at, window))
  {
    hide Since;
    SinceConcat(Since(history, Cutoff(before, window)), now, Cutoff(at, window));
    SinceTwice(history, Cutoff(before, window), Cutoff(at, window));
    SinceConcat(history, now, Cutoff(at, window));
  }

  /** At every point of every run the deque holds exactly the packets of the complete history that are at most a
      window older than the last evaluation, each as often as it came and in the order they came: `at` are their
      places in the history. */
  lemma DequeRefinesHistory(config: DetectorConfig, calls: seq<Call>, reports: seq<seq<AnomalyEvent>>,
                            states: seq<State>, n: nat) returns (at: seq<nat>)
    requires Run(config, calls, reports, states) && n <= |calls|
    ensures states[n].observations == Window(config, calls, n)
    ensures var deque, history := states[n].observations, History(calls[..n]);
            && |at| == |deque|
            && (forall k | 0 <= k < |at| :: at[k] < |history| && deque[k] == history[at[k]])
            && (forall k, l | 0 <= k < l < |at| :: at[k] < at[l])
            && (forall i: nat | i < |history| ::
                  i in at <==> history[i].timestamp + config.window >= calls[n - 1].timestamp)
  {
    hide Run, Since, Recent, Cutoff;
    DequeIsSince(config, calls, reports, states, n);
    at := [];
    if n > 0 {
      SinceIsRecent(History(calls[..n]), calls[n - 1].timestamp, config.window);
      at := RecentExactly(History(calls[..n]), calls[n - 1].timestamp, config.window);
    }
  }

  /** A report in terms of the history alone: the candidates of the present window whose key was no
      candidate of the window before, each once, in key order. */
  lemma ReportsAreEdges(config: DetectorConfig, calls: seq<Call>, reports: seq<seq<AnomalyEvent>>,
                        states: seq<State>, n: nat)
    requires Run(config, calls, reports, states) && n < |calls|
    ensures StrictlySorted(reports[n])
    ensures forall e ::
              e in reports[n] <==>
              && Candidate(Window(config, calls, n + 1), config, e)
              && !(n > 0 && exists f :: Candidate(Window(config, calls, n), config, f) && f.key == e.key)
  {
    hide Candidate, Since, Window;
    assert Step(config, states[n], calls[n], reports[n], states[n + 1]);
    var _ := DequeRefinesHistory(config, calls, reports, states, n);
    var _ := DequeRefinesHistory(config, calls, reports, states, n + 1);
    if n > 0 {
      assert Step(config, states[n - 1], calls[n - 1], reports[n - 1], states[n]);
    }
  }
}
