/** Which requests are taken and which are refused, and why, by the sets of fields they have. */
module ControlRequests {
  import opened Words
  import opened Results
  import opened JsonText
  import opened ControlJson
  import opened ControlProtocolModel

  /** The fields that are there. */
  function FieldsOf(members: seq<Member>): set<Field> {
    set i | 0 <= i < |members| :: members[i].field
  }

  const HEADER := {ApiVersion, RequestId, Command, TopologyRevision}
  const FAULT := {LatencyMs, JitterMs, Loss, Duplication, Bandwidth, Blackhole, Isolated}

  /** The parameters a command cannot do without. */
  function Required(command: ControlCommand): set<Field> {
    match command
    case LoadTopology => {TopologyPath}
    case StartBenchmark => {Scenario, Backend, BatchSize, DurationSeconds, Seed}
    case SetPortFault => {PortId} + FAULT
    case ClearPortFault => {PortId}
    case SetLinkFault => {FirstEndpoint, SecondEndpoint} + FAULT
    case ClearLinkFault => {FirstEndpoint, SecondEndpoint}
    case _ => {}
  }

  /** Those it may have. */
  function Allowed(command: ControlCommand): set<Field> {
    if command == StartBenchmark then Required(command) + {Generator, Packets, FrameSize} else Required(command)
  }

  lemma HasExactly(members: seq<Member>, field: Field)
    ensures Has(members, field) <==> field in FieldsOf(members)
  {
  }

  /** Parameters are those of a command exactly when none is missing and none is another command's. */
  lemma ValidExactly(command: ControlCommand, p: seq<Member>)
    requires WellFormed(PARAMETER_FIELDS, p)
    ensures ParametersValid(command, p) <==>
            TakesParameters(command) && Required(command) <= FieldsOf(p) <= Allowed(command)
  {
    hide Has, FieldsOf, WellFormed, ParameterAt;
    HasAll(p);
    if !TakesParameters(command) {
      return;
    }
    ForeignTo(command, p);
    if command in {LoadTopology, StartBenchmark} {
      assert ParametersValid(command, p) <==> Required(command) <= FieldsOf(p) <= Allowed(command);
    } else if command in {SetPortFault, ClearPortFault} {
      assert ParametersValid(command, p) <==> Required(command) <= FieldsOf(p) <= Allowed(command);
    } else {
      assert ParametersValid(command, p) <==> Required(command) <= FieldsOf(p) <= Allowed(command);
    }
  }

  /** Of the parameters that are not, missing ones are reported unless another command's are there too; and a port
      fault without its port is not. */
  lemma MissingExactly(command: ControlCommand, p: seq<Member>)
    requires WellFormed(PARAMETER_FIELDS, p) && !ParametersValid(command, p)
    ensures ParametersMissing(command, p) <==>
            TakesParameters(command) && FieldsOf(p) <= Allowed(command)
            && (command == SetPortFault ==> PortId in FieldsOf(p))
  {
    hide Has, FieldsOf, WellFormed, ParameterAt;
    HasAll(p);
    if TakesParameters(command) {
      ForeignTo(command, p);
    }
  }

  lemma HasAll(p: seq<Member>)
    ensures forall field :: Has(p, field) <==> field in FieldsOf(p)
  {
    hide Has, FieldsOf;
    forall field
      ensures Has(p, field) <==> field in FieldsOf(p)
    {
      HasExactly(p, field);
    }
  }

  predicate WithoutBenchmark(s: set<Field>) {
    && Scenario !in s && Backend !in s && Generator !in s && BatchSize !in s && DurationSeconds !in s && Seed !in s
    && Packets !in s && FrameSize !in s
  }

  predicate WithoutFault(s: set<Field>) {
    && LatencyMs !in s && JitterMs !in s && Loss !in s && Duplication !in s && Bandwidth !in s && Blackhole !in s
    && Isolated !in s
  }

  /** What it is to have no other command's parameters, one by one. */
  lemma ForeignTo(command: ControlCommand, p: seq<Member>)
    requires WellFormed(PARAMETER_FIELDS, p) && TakesParameters(command)
    ensures var s := FieldsOf(p);
            s <= Allowed(command) <==>
            match command
            case LoadTopology =>
              WithoutBenchmark(s) && WithoutFault(s) && PortId !in s && FirstEndpoint !in s && SecondEndpoint !in s
            case StartBenchmark =>
              WithoutFault(s) && TopologyPath !in s && PortId !in s && FirstEndpoint !in s && SecondEndpoint !in s
            case SetPortFault =>
              WithoutBenchmark(s) && TopologyPath !in s && FirstEndpoint !in s && SecondEndpoint !in s
            case ClearPortFault =>
              && WithoutBenchmark(s) && WithoutFault(s) && TopologyPath !in s && FirstEndpoint !in s
              && SecondEndpoint !in s
            case SetLinkFault => WithoutBenchmark(s) && TopologyPath !in s && PortId !in s
            case _ => WithoutBenchmark(s) && WithoutFault(s) && TopologyPath !in s && PortId !in s
  {
    hide FieldsOf, WellFormed;
    OnlyParameters(p);
  }

  lemma OnlyParameters(p: seq<Member>)
    requires WellFormed(PARAMETER_FIELDS, p)
    ensures forall field | field in FieldsOf(p) :: ParameterAt(field) < 19
  {
    hide Fits;
    forall field | field in PARAMETER_FIELDS
      ensures ParameterAt(field) < 19
    {
    }
  }

  // ---- whole requests ----

  /** A request as any client may write it: members in any order, some perhaps missing or too many. */
  ghost predicate Written(members: seq<Member>, command: ControlCommand, p: seq<Member>) {
    && members != [] && WellFormed(REQUEST_FIELDS, members)
    && (Command in FieldsOf(members) ==> Member(Command, Text(CommandName(command))) in members)
    && (Parameters in FieldsOf(members) ==> Member(Parameters, Object(p)) in members)
    && (Parameters !in FieldsOf(members) ==> p == [])
  }

  /** It is taken exactly when its header is whole and its parameters are all its command needs and nothing that
      belongs to another. It is told that something is missing when the header or the parameters are not there, or
      when parameters are missing but none is another command's; otherwise that a field is wrong. */
  lemma RequestExactly(members: seq<Member>, command: ControlCommand, p: seq<Member>)
    requires Written(members, command, p)
    ensures var r, there := RequestFrom(Print(Object(members))), FieldsOf(members);
            var needed := command in {LoadTopology, StartBenchmark, SetPortFault, ClearPortFault, SetLinkFault,
                                      ClearLinkFault};
            && (r.Ok? <==> && HEADER <= there && (Parameters in there <==> needed)
                           && Required(command) <= FieldsOf(p) <= Allowed(command))
            && (r == Err(InvalidField) <==>
                  && HEADER <= there && Parameters in there
                  && !(needed && Required(command) <= FieldsOf(p) <= Allowed(command))
                  && !(&& needed && FieldsOf(p) <= Allowed(command)
                       && (command == SetPortFault ==> PortId in FieldsOf(p))))
            && (r.Err? ==> r.error in {InvalidField, MissingRequiredField})
  {
    hide WellFormed, Print, ReadMembers, ParametersValid, ParametersMissing, Required, Allowed, CommandName;
    hide CommandNamed, BenchmarkIn, FaultIn, Has;
    HasAll(members);
    ReadsOnlyObject(REQUEST_FIELDS, members);
    if HEADER <= FieldsOf(members) {
      Values(members, command, p);
      NoParameters(command);
      if Parameters in FieldsOf(members) {
        ValidExactly(command, p);
        if !ParametersValid(command, p) {
          MissingExactly(command, p);
        }
      }
    }
  }

  lemma Values(members: seq<Member>, command: ControlCommand, p: seq<Member>)
    requires Written(members, command, p) && Command in FieldsOf(members)
    ensures CommandNamed(TextOf(members, Command, "")) == command
    ensures ParametersIn(members) == p
    ensures Parameters in FieldsOf(members) ==> WellFormed(PARAMETER_FIELDS, p)
  {
    hide CommandName, CommandNamed, Has;
    HasAll(members);
    FindsAll(members);
    CommandNamesDiffer(command);
    if Parameters in FieldsOf(members) {
      var i :| 0 <= i < |members| && members[i] == Member(Parameters, Object(p));
      ObjectFits(members[i], p);
    }
  }

  lemma ObjectFits(member: Member, p: seq<Member>)
    requires member == Member(Parameters, Object(p)) && Fits(member)
    ensures WellFormed(PARAMETER_FIELDS, p)
  {
    assert TypeOf(Parameters) == ParametersField;
    assert Conforms(ParametersField, member.value);
  }

  lemma NoParameters(command: ControlCommand)
    ensures !TakesParameters(command) ==> Required(command) == {} && Allowed(command) == {}
    ensures TakesParameters(command) ==> Required(command) != {}
    ensures FieldsOf([]) == {}
  {
    if TakesParameters(command) && command != LoadTopology && command != StartBenchmark {
      assert PortId in Required(command) || FirstEndpoint in Required(command);
    } else if TakesParameters(command) {
      assert TopologyPath in Required(command) || Scenario in Required(command);
    }
  }
}
