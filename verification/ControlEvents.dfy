/** The events a control service emits, and what a client may rely on in any stream of them: consecutive
    sequence numbers, and benchmark runs that are opened, followed and closed one at a time. */
module ControlEvents {
  import opened Words
  import opened Results
  import opened Text
  import opened FaultEngineModel
  import opened TopologyModel
  import opened DetectorWindow
  import opened PolicyEngineModel
  import opened PacketAnalyzerModel

  datatype EventBody =
    | MetricsReport
    | FaultChanged(first: string, second: string, configuration: FaultConfiguration, active: bool)
    | TopologyLoaded(topology: TopologyModel.Configuration)
    | SupervisionReport(analysed: nat, blocked: nat)
    | AnomalyDetected(anomaly: AnomalyEvent)
    | PolicyTaken(decision: PolicyDecision)
    | Progress(operation: string, packets: nat, total: nat)
    | RunEnded(operation: string, finished: bool, totals: Totals)

  datatype ControlEvent = ControlEvent(sequence: nat, revision: u64, body: EventBody)

  /** Numbered in emission order, without a gap. */
  predicate Consecutive(events: seq<ControlEvent>, from: nat) {
    forall i | 0 <= i < |events| :: events[i].sequence == from + i
  }

  // ---- runs in the stream ----

  function OperationName(number: nat): string {
    "benchmark-" + Decimal(number)
  }

  lemma OperationNamesDiffer(a: nat, b: nat)
    requires OperationName(a) == OperationName(b)
    ensures a == b
  {
    assert OperationName(a)[10..] == Decimal(a) && OperationName(b)[10..] == Decimal(b);
    DecimalInjective(a, b);
  }

  /** Where the stream stands: the open run and the progress it reported, and how many were started. */
  datatype Standing = Standing(sound: bool, running: Option<(string, nat)>, starts: nat)

  function Follow(before: Standing, body: EventBody): Standing {
    match body
    case Progress(operation, packets, _) =>
      if before.running.None? then
        Standing(before.sound && packets == 0 && operation == OperationName(before.starts + 1),
                 Some((operation, packets)), before.starts + 1)
      else
        Standing(before.sound && operation == before.running.value.0 && before.running.value.1 <= packets,
                 Some((operation, packets)), before.starts)
    case RunEnded(operation, _, _) =>
      Standing(before.sound && before.running.Some? && operation == before.running.value.0, None, before.starts)
    case _ => before
  }

  function StandingOf(log: seq<ControlEvent>): Standing {
    if log == [] then Standing(true, None, 0)
    else Follow(StandingOf(log[..|log| - 1]), log[|log| - 1].body)
  }

  lemma FollowNext(log: seq<ControlEvent>, e: ControlEvent)
    ensures StandingOf(log + [e]) == Follow(StandingOf(log), e.body)
  {
    assert (log + [e])[..|log|] == log;
  }

  /** Where an event begins a run. */
  predicate IsStart(log: seq<ControlEvent>, i: nat)
    requires i < |log|
  {
    log[i].body.Progress? && StandingOf(log[..i]).running.None?
  }

  function Ends(log: seq<ControlEvent>, operation: string): nat {
    if log == [] then 0
    else
      var last := log[|log| - 1].body;
      Ends(log[..|log| - 1], operation) + if last.RunEnded? && last.operation == operation then 1 else 0
  }

  lemma {:induction false} SoundBefore(log: seq<ControlEvent>, n: nat)
    requires n <= |log| && StandingOf(log).sound
    ensures StandingOf(log[..n]).sound
    decreases |log|
  {
    if n < |log| {
      assert log[..|log| - 1][..n] == log[..n];
      SoundBefore(log[..|log| - 1], n);
    } else {
      assert log[..n] == log;
    }
  }

  /** The run that is open is the last one started. */
  lemma {:induction false} OpenIsLast(log: seq<ControlEvent>)
    requires StandingOf(log).sound
    ensures StandingOf(log).running.Some? ==>
              StandingOf(log).starts > 0 && StandingOf(log).running.value.0 == OperationName(StandingOf(log).starts)
  {
    hide OperationName;
    if log != [] {
      OpenIsLast(log[..|log| - 1]);
    }
  }

  /** Every run that was started is ended exactly once, except the one that is open, which is not ended yet;
      and no run ends that was not started. */
  lemma {:induction false} EndedExactlyOnce(log: seq<ControlEvent>, number: nat)
    requires StandingOf(log).sound && number > 0
    ensures var s := StandingOf(log);
            Ends(log, OperationName(number)) ==
            if number > s.starts || (s.running.Some? && number == s.starts) then 0 else 1
  {
    hide OperationName;
    if log != [] {
      var front, last := log[..|log| - 1], log[|log| - 1].body;
      EndedExactlyOnce(front, number);
      OpenIsLast(front);
      if last.RunEnded? && last.operation == OperationName(number) {
        OperationNamesDiffer(number, StandingOf(front).starts);
      }
    }
  }

  lemma {:induction false} StartsGrow(log: seq<ControlEvent>, n: nat)
    requires n <= |log|
    ensures StandingOf(log[..n]).starts <= StandingOf(log).starts
    decreases |log|
  {
    if n < |log| {
      assert log[..|log| - 1][..n] == log[..n];
      StartsGrow(log[..|log| - 1], n);
    } else {
      assert log[..n] == log;
    }
  }

  lemma {:induction false} EndsBetween(log: seq<ControlEvent>, n: nat, operation: string)
    requires n <= |log|
    ensures Ends(log[..n], operation) < Ends(log, operation) ==>
              exists k :: n <= k < |log| && log[k].body.RunEnded? && log[k].body.operation == operation
    decreases |log|
  {
    if n == |log| {
      assert log[..n] == log;
    } else {
      var front, last := log[..|log| - 1], log[|log| - 1].body;
      assert front[..n] == log[..n];
      EndsBetween(front, n, operation);
      if Ends(log[..n], operation) < Ends(front, operation) {
        var k :| n <= k < |front| && front[k].body.RunEnded? && front[k].body.operation == operation;
        assert log[k] == front[k];
      }
    }
  }

  /** What the stream says right after a start. */
  lemma StartStands(log: seq<ControlEvent>, i: nat)
    requires StandingOf(log).sound && i < |log| && IsStart(log, i)
    ensures var starts := StandingOf(log[..i]).starts;
            && log[i].body.operation == OperationName(starts + 1)
            && StandingOf(log[..i + 1]) == Standing(true, Some((OperationName(starts + 1), 0)), starts + 1)
  {
    hide OperationName, StandingOf;
    SoundBefore(log, i + 1);
    FollowNext(log[..i], log[i]);
    assert log[..i + 1] == log[..i] + [log[i]];
  }

  /** Between two starts the first run was ended, once. */
  lemma ClosedBeforeNext(log: seq<ControlEvent>, i: nat, j: nat)
    requires StandingOf(log).sound && i < j < |log| && IsStart(log, i) && IsStart(log, j)
    ensures log[i].body.operation != log[j].body.operation
    ensures Ends(log[..j], log[i].body.operation) == 1
    ensures exists k :: i < k < j && log[k].body.RunEnded? && log[k].body.operation == log[i].body.operation
  {
    hide OperationName, StandingOf, Ends, Follow;
    var first, before := StandingOf(log[..i]).starts + 1, log[..j];
    StartStands(log, i);
    StartStands(log, j);
    SoundBefore(log, i + 1);
    SoundBefore(log, j);
    assert before[..i + 1] == log[..i + 1];
    StartsGrow(before, i + 1);
    EndedExactlyOnce(before, first);
    EndedExactlyOnce(log[..i + 1], first);
    EndsBetween(before, i + 1, OperationName(first));
    if OperationName(first) == OperationName(StandingOf(before).starts + 1) {
      OperationNamesDiffer(first, StandingOf(before).starts + 1);
    }
  }

  /** The progress of a run never goes back. */
  lemma {:induction false} ProgressGrows(log: seq<ControlEvent>, i: nat)
    requires StandingOf(log).sound && i < |log| && log[i].body.Progress?
    ensures var s := StandingOf(log);
            s.running.Some? && s.running.value.0 == log[i].body.operation ==> log[i].body.packets <= s.running.value.1
    decreases |log|
  {
    hide OperationName;
    var front, last := log[..|log| - 1], log[|log| - 1].body;
    OpenIsLast(front);
    OpenIsLast(log);
    if i < |front| {
      assert front[i] == log[i];
      ProgressGrows(front, i);
      StartedBefore(front, i);
    }
  }

  /** A run that reported progress is one of those started. */
  lemma {:induction false} StartedBefore(log: seq<ControlEvent>, i: nat)
    requires StandingOf(log).sound && i < |log| && log[i].body.Progress?
    ensures log[i].body.operation != OperationName(StandingOf(log).starts + 1)
    decreases |log|
  {
    hide OperationName;
    SoundBefore(log, i);
    SoundBefore(log, i + 1);
    assert log[..i + 1][..i] == log[..i];
    OpenIsLast(log[..i + 1]);
    StartsGrow(log, i + 1);
    if log[i].body.operation == OperationName(StandingOf(log).starts + 1) {
      OperationNamesDiffer(StandingOf(log[..i + 1]).starts, StandingOf(log).starts + 1);
    }
  }
}
