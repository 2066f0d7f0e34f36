/** Faults of different ports and links do not interfere: what one of them answers over any run is what
    it would answer in the run of its own operations alone. */
module Isolation {
  import opened Words
  import opened Results
  import opened FaultEngineModel
  import opened Targets
  import opened TopologyModel
  import opened TopologyControllerModel

  datatype Subject = Port(port: string) | LinkBetween(first: string, second: string)

  datatype Action =
    | Set(configuration: FaultConfiguration)
    | Clear
    | Judge(frameBytes: u64, arrival: int)

  /** One operation of the controller on one port or link. */
  datatype Operation = Operation(subject: Subject, action: Action)

  datatype Answer =
    | WasSet(result: Result<(), ControllerError>)
    | WasCleared(cleared: bool)
    | Judged(decision: Result<FaultDecision, ControllerError>)

  /** The same port, or the same link from either end. */
  predicate Same(a: Subject, b: Subject) {
    match (a, b)
    case (Port(p), Port(q)) => p == q
    case (LinkBetween(x, y), LinkBetween(z, w)) => (x == z && y == w) || (x == w && y == z)
    case _ => false
  }

  function TargetOf(subject: Subject): string {
    match subject
    case Port(port) => PortTarget(port)
    case LinkBetween(first, second) => LinkTarget(first, second)
  }

  lemma TargetsIdentify(a: Subject, b: Subject)
    ensures TargetOf(a) == TargetOf(b) <==> Same(a, b)
  {
    hide PortTarget, LinkTarget;
    match (a, b)
    case (Port(p), Port(q)) =>
      if PortTarget(p) == PortTarget(q) {
        PortTargetInjective(p, q);
      }
    case (LinkBetween(x, y), LinkBetween(z, w)) => LinkTargetInjective(x, y, z, w);
    case (Port(p), LinkBetween(x, y)) => PortIsNoLink(p, x, y);
    case (LinkBetween(x, y), Port(p)) => PortIsNoLink(p, x, y);
  }

  function Perform(cs: ControllerState, operation: Operation): (Answer, ControllerState)
    requires ValidState(cs)
  {
    match operation
    case Operation(Port(port), Set(configuration)) =>
      var (r, next) := SetPortFault(cs, port, configuration);
      (WasSet(r), next)
    case Operation(Port(port), Clear) =>
      var (r, next) := ClearPortFault(cs, port);
      (WasCleared(r), next)
    case Operation(Port(port), Judge(frameBytes, arrival)) =>
      var (r, next) := EvaluatePort(cs, port, frameBytes, arrival);
      (Judged(r), next)
    case Operation(LinkBetween(a, b), Set(configuration)) =>
      var (r, next) := SetLinkFault(cs, a, b, configuration);
      (WasSet(r), next)
    case Operation(LinkBetween(a, b), Clear) =>
      var (r, next) := ClearLinkFault(cs, a, b);
      (WasCleared(r), next)
    case Operation(LinkBetween(a, b), Judge(frameBytes, arrival)) =>
      var (r, next) := EvaluateLink(cs, a, b, frameBytes, arrival);
      (Judged(r), next)
  }

  /** Two controllers a target cannot tell apart. */
  predicate AgreeOn(a: ControllerState, b: ControllerState, target: string) {
    && a.topology == b.topology && a.seed == b.seed
    && (target in a.faults <==> target in b.faults)
    && (target in a.faults ==> a.faults[target] == b.faults[target])
  }

  lemma JudgeKeepsConfiguration(state: FaultState, frameBytes: u64, arrival: int)
    requires ValidConfiguration(state.configuration)
    ensures FaultEngineModel.Judge(state, frameBytes, arrival).1.configuration == state.configuration
  {
    hide Shape;
  }

  lemma PerformKeepsValid(cs: ControllerState, operation: Operation)
    requires ValidState(cs)
    ensures ValidState(Perform(cs, operation).1)
  {
    hide FaultEngineModel.Judge, LinkLatency, IsLink, IsPort;
    var target := TargetOf(operation.subject);
    if operation.action.Judge? && target in cs.faults {
      JudgeKeepsConfiguration(cs.faults[target], operation.action.frameBytes, operation.action.arrival);
    }
  }

  lemma JudgeLocal(a: ControllerState, b: ControllerState, target: string, own: string, frameBytes: u64, arrival: int)
    requires ValidState(a) && ValidState(b) && AgreeOn(a, b, target)
    ensures var x, y := Evaluated(a.faults, own, frameBytes, arrival), Evaluated(b.faults, own, frameBytes, arrival);
            && (own == target ==> x.0 == y.0 && AgreeOn(a.(faults := x.1), b.(faults := y.1), target))
            && (own != target ==> AgreeOn(a.(faults := x.1), b, target))
  {
    hide FaultEngineModel.Judge;
  }

  lemma WriteLocal(a: ControllerState, b: ControllerState, target: string, own: string,
                   configuration: FaultConfiguration)
    requires AgreeOn(a, b, target)
    ensures own == target ==> AgreeOn(Install(a, own, configuration), Install(b, own, configuration), target)
                              && AgreeOn(Remove(a, own), Remove(b, own), target)
                              && (own in a.faults <==> own in b.faults)
    ensures own != target ==> AgreeOn(Install(a, own, configuration), b, target) && AgreeOn(Remove(a, own), b, target)
  {
  }

  /** An operation reads and writes its own target only. */
  lemma PerformLocal(a: ControllerState, b: ControllerState, operation: Operation, target: string)
    requires ValidState(a) && ValidState(b) && AgreeOn(a, b, target)
    ensures TargetOf(operation.subject) == target ==>
              && Perform(a, operation).0 == Perform(b, operation).0
              && AgreeOn(Perform(a, operation).1, Perform(b, operation).1, target)
    ensures TargetOf(operation.subject) != target ==> AgreeOn(Perform(a, operation).1, b, target)
  {
    hide Evaluated, Install, Remove, AgreeOn, LinkLatency, IsLink, IsPort, PortTarget, LinkTarget, Delayed;
    var own := TargetOf(operation.subject);
    SameTopology(a, b, target);
    match operation.action
    case Set(configuration) => WriteLocal(a, b, target, own, configuration);
    case Clear => WriteLocal(a, b, target, own, NO_FAULT);
    case Judge(frameBytes, arrival) => JudgeLocal(a, b, target, own, frameBytes, arrival);
  }

  lemma SameTopology(a: ControllerState, b: ControllerState, target: string)
    requires AgreeOn(a, b, target)
    ensures a.topology == b.topology
  {
  }

  function Own(operations: seq<Operation>, subject: Subject): seq<Operation> {
    if operations == [] then []
    else (if Same(operations[0].subject, subject) then [operations[0]] else []) + Own(operations[1..], subject)
  }

  /** What `subject` is answered along a run of all the operations. */
  function Answers(cs: ControllerState, operations: seq<Operation>, subject: Subject): seq<Answer>
    requires ValidState(cs)
    decreases |operations|
  {
    if operations == [] then []
    else
      var (answer, next) := Perform(cs, operations[0]);
      PerformKeepsValid(cs, operations[0]);
      (if Same(operations[0].subject, subject) then [answer] else []) + Answers(next, operations[1..], subject)
  }

  /** Erasing everyone else's operations changes nothing that a port or link is answered, even when the
      others' faults differ from the start. */
  lemma {:induction false} NoInterference(a: ControllerState, b: ControllerState, operations: seq<Operation>,
                                          subject: Subject)
    requires ValidState(a) && ValidState(b) && AgreeOn(a, b, TargetOf(subject))
    ensures Answers(a, operations, subject) == Answers(b, Own(operations, subject), subject)
    decreases |operations|
  {
    hide Perform, AgreeOn, TargetOf;
    if operations != [] {
      var operation, target := operations[0], TargetOf(subject);
      TargetsIdentify(operation.subject, subject);
      PerformKeepsValid(a, operation);
      PerformKeepsValid(b, operation);
      PerformLocal(a, b, operation, target);
      var own := Own(operations[1..], subject);
      if Same(operation.subject, subject) {
        NoInterference(Perform(a, operation).1, Perform(b, operation).1, operations[1..], subject);
        assert Own(operations, subject)[1..] == own;
        assert Same(Own(operations, subject)[0].subject, subject);
      } else {
        NoInterference(Perform(a, operation).1, b, operations[1..], subject);
        assert Own(operations, subject) == own;
      }
    }
  }
}
