/** Control requests and replies of src/control_protocol.cpp as JSON: printed, parsed, checked. */
module ControlProtocolModel {
  import opened Arith
  import opened Durations
  import opened Words
  import opened Results
  import opened Text
  import opened FaultEngineModel
  import opened JsonText
  import opened ControlJson

  const API_VERSION := 1

  datatype AnalyzerBackend = Cpu | Cuda

  datatype ControlCommand =
    | LoadTopology
    | GetSwitchState
    | GetActiveFaults
    | GetSupervisionState
    | StartBenchmark
    | StopRun
    | SetPortFault
    | ClearPortFault
    | SetLinkFault
    | ClearLinkFault

  datatype BenchmarkParameters = BenchmarkParameters(
    scenario: string,
    backend: AnalyzerBackend,
    generator: string,
    packetCount: u64,
    frameSize: u32,
    batchSize: u32,
    durationSeconds: u32,
    seed: u64)

  datatype FaultParameters = FaultParameters(
    portId: string,
    firstEndpoint: string,
    secondEndpoint: string,
    configuration: FaultConfiguration)

  datatype ControlRequest = ControlRequest(
    apiVersion: u32,
    requestId: string,
    command: ControlCommand,
    topologyRevision: u64,
    benchmark: BenchmarkParameters,
    topologyPath: string,
    fault: FaultParameters)

  datatype ControlReply = ControlReply(
    apiVersion: u32,
    requestId: string,
    accepted: bool,
    topologyRevision: u64,
    operationId: string,
    error: string)

  const NO_BENCHMARK := BenchmarkParameters("", Cpu, "cpu", 0, 64, 1, 0, 1)
  const NO_TARGET := FaultParameters("", "", "", NO_FAULT)

  function BackendName(backend: AnalyzerBackend): string {
    if backend == Cpu then "cpu" else "cuda"
  }

  function CommandName(command: ControlCommand): string {
    match command
    case LoadTopology => "load_topology"
    case GetSwitchState => "get_switch_state"
    case GetActiveFaults => "get_active_faults"
    case GetSupervisionState => "get_supervision_state"
    case StartBenchmark => "start_benchmark"
    case StopRun => "stop_run"
    case SetPortFault => "set_port_fault"
    case ClearPortFault => "clear_port_fault"
    case SetLinkFault => "set_link_fault"
    case ClearLinkFault => "clear_link_fault"
  }

  function CommandNamed(name: string): ControlCommand {
    if name == "load_topology" then LoadTopology
    else if name == "get_switch_state" then GetSwitchState
    else if name == "get_active_faults" then GetActiveFaults
    else if name == "get_supervision_state" then GetSupervisionState
    else if name == "start_benchmark" then StartBenchmark
    else if name == "stop_run" then StopRun
    else if name == "set_port_fault" then SetPortFault
    else if name == "clear_port_fault" then ClearPortFault
    else if name == "set_link_fault" then SetLinkFault
    else ClearLinkFault
  }

  lemma CommandNamesDiffer(command: ControlCommand)
    ensures CommandName(command) in COMMAND_NAMES && CommandNamed(CommandName(command)) == command
  {
    assert COMMAND_NAMES[0] == "load_topology" && COMMAND_NAMES[1] == "get_switch_state";
    assert COMMAND_NAMES[2] == "get_active_faults" && COMMAND_NAMES[3] == "get_supervision_state";
    assert COMMAND_NAMES[4] == "start_benchmark" && COMMAND_NAMES[5] == "stop_run";
    assert COMMAND_NAMES[6] == "set_port_fault" && COMMAND_NAMES[7] == "clear_port_fault";
    assert COMMAND_NAMES[8] == "set_link_fault" && COMMAND_NAMES[9] == "clear_link_fault";
    assert "set_port_fault"[4] == 'p' && "set_link_fault"[4] == 'l';
    assert "clear_port_fault"[6] == 'p' && "clear_link_fault"[6] == 'l';
    assert "get_switch_state"[0] == 'g' && "clear_port_fault"[0] == 'c' && "clear_link_fault"[0] == 'c';
  }

  // ---- printing ----

  function BenchmarkMembers(b: BenchmarkParameters): seq<Member> {
    [Member(Scenario, Text(b.scenario)), Member(Backend, Text(BackendName(b.backend))),
     Member(Generator, Text(b.generator)), Member(BatchSize, Number(b.batchSize)),
     Member(DurationSeconds, Number(b.durationSeconds)), Member(Seed, Number(b.seed)),
     Member(Packets, Number(b.packetCount)), Member(FrameSize, Number(b.frameSize))]
  }

  function FaultMembers(c: FaultConfiguration): seq<Member> {
    [Member(LatencyMs, Number(Milliseconds(c.latency))), Member(JitterMs, Number(Milliseconds(c.jitter))),
     Member(Loss, Number(c.loss)), Member(Duplication, Number(c.duplication)),
     Member(Bandwidth, Number(c.bandwidth)), Member(Blackhole, Flag(c.blackhole)), Member(Isolated, Flag(c.isolated))]
  }

  function EndpointMembers(fault: FaultParameters): seq<Member> {
    [Member(FirstEndpoint, Text(fault.firstEndpoint)), Member(SecondEndpoint, Text(fault.secondEndpoint))]
  }

  /** The parameters a command carries, if it carries any. */
  function ParameterMembers(r: ControlRequest): seq<Member> {
    match r.command
    case LoadTopology => [Member(TopologyPath, Text(r.topologyPath))]
    case StartBenchmark => BenchmarkMembers(r.benchmark)
    case SetPortFault => [Member(PortId, Text(r.fault.portId))] + FaultMembers(r.fault.configuration)
    case SetLinkFault => EndpointMembers(r.fault) + FaultMembers(r.fault.configuration)
    case ClearPortFault => [Member(PortId, Text(r.fault.portId))]
    case ClearLinkFault => EndpointMembers(r.fault)
    case _ => []
  }

  predicate TakesParameters(command: ControlCommand) {
    command in {LoadTopology, StartBenchmark, SetPortFault, ClearPortFault, SetLinkFault, ClearLinkFault}
  }

  function HeaderMembers(r: ControlRequest): seq<Member> {
    [Member(ApiVersion, Number(r.apiVersion)), Member(RequestId, Text(r.requestId)),
     Member(Command, Text(CommandName(r.command))), Member(TopologyRevision, Number(r.topologyRevision))]
  }

  function RequestMembers(r: ControlRequest): seq<Member> {
    HeaderMembers(r) + if TakesParameters(r.command) then [Member(Parameters, Object(ParameterMembers(r)))] else []
  }

  function RequestJson(r: ControlRequest): string {
    Print(Object(RequestMembers(r)))
  }

  function ReplyMembers(r: ControlReply): seq<Member> {
    [Member(ApiVersion, Number(r.apiVersion)), Member(RequestId, Text(r.requestId)),
     Member(Accepted, Flag(r.accepted)), Member(TopologyRevision, Number(r.topologyRevision)),
     if r.accepted then Member(OperationId, Text(r.operationId)) else Member(ErrorText, Text(r.error))]
  }

  function ReplyJson(r: ControlReply): string {
    Print(Object(ReplyMembers(r)))
  }

  // ---- parsing ----

  /** What a member holds; a member that is absent holds what the source's structures start with. */
  function Find(members: seq<Member>, field: Field): Option<Value> {
    if members == [] then None
    else if members[0].field == field then Some(members[0].value)
    else Find(members[1..], field)
  }

  function TextOf(members: seq<Member>, field: Field, default: string): string {
    match Find(members, field)
    case Some(Text(text)) => text
    case _ => default
  }

  function NumberOf(members: seq<Member>, field: Field, default: int): int {
    match Find(members, field)
    case Some(Number(number)) => number
    case _ => default
  }

  function FlagOf(members: seq<Member>, field: Field): bool {
    match Find(members, field)
    case Some(Flag(flag)) => flag
    case _ => false
  }

  function Within(n: int, bound: nat): (w: int)
    requires bound > 0
    ensures 0 <= w < bound
    ensures 0 <= n < bound ==> w == n
  {
    if 0 <= n < bound then n else 0
  }

  /** A number of milliseconds in nanoseconds, in 64-bit arithmetic. */
  function Nanoseconds(milliseconds: int): i64 {
    (milliseconds * NANOSECONDS_PER_MILLISECOND + 0x8000_0000_0000_0000) % TWO_64 - 0x8000_0000_0000_0000
  }

  predicate HasBenchmark(p: seq<Member>) {
    || Has(p, Scenario) || Has(p, Backend) || Has(p, Generator) || Has(p, BatchSize) || Has(p, DurationSeconds)
    || Has(p, Seed) || Has(p, Packets) || Has(p, FrameSize)
  }

  /** The benchmark parameters that are not optional. */
  predicate WholeBenchmark(p: seq<Member>) {
    Has(p, Scenario) && Has(p, Backend) && Has(p, BatchSize) && Has(p, DurationSeconds) && Has(p, Seed)
  }

  predicate HasFault(p: seq<Member>) {
    || Has(p, LatencyMs) || Has(p, JitterMs) || Has(p, Loss) || Has(p, Duplication) || Has(p, Bandwidth)
    || Has(p, Blackhole) || Has(p, Isolated)
  }

  predicate WholeFault(p: seq<Member>) {
    && Has(p, LatencyMs) && Has(p, JitterMs) && Has(p, Loss) && Has(p, Duplication) && Has(p, Bandwidth)
    && Has(p, Blackhole) && Has(p, Isolated)
  }

  predicate HasEndpoint(p: seq<Member>) {
    Has(p, FirstEndpoint) || Has(p, SecondEndpoint)
  }

  predicate ParametersValid(command: ControlCommand, p: seq<Member>) {
    match command
    case LoadTopology =>
      Has(p, TopologyPath) && !HasBenchmark(p) && !Has(p, PortId) && !HasEndpoint(p) && !HasFault(p)
    case StartBenchmark =>
      WholeBenchmark(p) && !Has(p, TopologyPath) && !Has(p, PortId) && !HasEndpoint(p) && !HasFault(p)
    case SetPortFault =>
      Has(p, PortId) && !Has(p, TopologyPath) && WholeFault(p) && !HasEndpoint(p) && !HasBenchmark(p)
    case ClearPortFault =>
      Has(p, PortId) && !Has(p, TopologyPath) && !HasEndpoint(p) && !HasBenchmark(p) && !HasFault(p)
    case SetLinkFault =>
      Has(p, FirstEndpoint) && Has(p, SecondEndpoint) && !Has(p, TopologyPath) && WholeFault(p) && !Has(p, PortId)
      && !HasBenchmark(p)
    case ClearLinkFault =>
      Has(p, FirstEndpoint) && Has(p, SecondEndpoint) && !Has(p, TopologyPath) && !Has(p, PortId) && !HasBenchmark(p)
      && !HasFault(p)
    case _ => false
  }

  /** Whether invalid parameters are reported as missing rather than as wrong. */
  predicate ParametersMissing(command: ControlCommand, p: seq<Member>) {
    match command
    case LoadTopology =>
      !HasBenchmark(p) && !HasFault(p) && !Has(p, PortId) && !HasEndpoint(p)
    case StartBenchmark =>
      !Has(p, TopologyPath) && !Has(p, PortId) && !HasEndpoint(p) && !HasFault(p)
    case SetPortFault =>
      Has(p, PortId) && !Has(p, TopologyPath) && !HasEndpoint(p) && !HasBenchmark(p)
    case ClearPortFault =>
      !Has(p, TopologyPath) && !HasBenchmark(p) && !HasFault(p) && !HasEndpoint(p)
    case SetLinkFault => !Has(p, TopologyPath) && !Has(p, PortId) && !HasBenchmark(p)
    case ClearLinkFault =>
      !Has(p, TopologyPath) && !Has(p, PortId) && !HasBenchmark(p) && !HasFault(p)
    case _ => false
  }

  function ParametersIn(members: seq<Member>): seq<Member> {
    match Find(members, Parameters)
    case Some(Object(parameters)) => parameters
    case _ => []
  }

  function BenchmarkIn(p: seq<Member>): BenchmarkParameters {
    BenchmarkParameters(
      TextOf(p, Scenario, ""),
      if TextOf(p, Backend, "cpu") == "cpu" then Cpu else Cuda,
      TextOf(p, Generator, "cpu"),
      Within(NumberOf(p, Packets, 0), TWO_64),
      Within(NumberOf(p, FrameSize, 64), TWO_32),
      Within(NumberOf(p, BatchSize, 1), TWO_32),
      Within(NumberOf(p, DurationSeconds, 0), TWO_32),
      Within(NumberOf(p, Seed, 1), TWO_64))
  }

  function FaultIn(p: seq<Member>): FaultParameters {
    FaultParameters(
      TextOf(p, PortId, ""), TextOf(p, FirstEndpoint, ""), TextOf(p, SecondEndpoint, ""),
      FaultConfiguration(
        Nanoseconds(NumberOf(p, LatencyMs, 0)), Nanoseconds(NumberOf(p, JitterMs, 0)),
        Within(NumberOf(p, Loss, 0), TWO_32), Within(NumberOf(p, Duplication, 0), TWO_32),
        Within(NumberOf(p, Bandwidth, 0), TWO_64), FlagOf(p, Blackhole), FlagOf(p, Isolated)))
  }

  /** A request from the members read, or what is wrong with them. */
  function Assembled(members: seq<Member>): Result<ControlRequest, ParseError> {
    if !(Has(members, ApiVersion) && Has(members, RequestId) && Has(members, Command)
         && Has(members, TopologyRevision))
    then Err(MissingRequiredField)
    else
      var command := CommandNamed(TextOf(members, Command, ""));
      var p := ParametersIn(members);
      if !Has(members, Parameters) && TakesParameters(command) then Err(MissingRequiredField)
      else if Has(members, Parameters) && !ParametersValid(command, p) then
        Err(if ParametersMissing(command, p) then MissingRequiredField else InvalidField)
      else
        Ok(ControlRequest(
             Within(NumberOf(members, ApiVersion, API_VERSION), TWO_32), TextOf(members, RequestId, ""), command,
             Within(NumberOf(members, TopologyRevision, 0), TWO_64),
             BenchmarkIn(p), TextOf(p, TopologyPath, ""), FaultIn(p)))
  }

  /** The members of the one object a text consists of. */
  function OnlyObject(fields: seq<Field>, input: string): Result<seq<Member>, ParseError> {
    var open := Consume(input, '{');
    if open.None? then Err(MalformedJson)
    else if Consume(open.value, '}').Some? then Err(MissingRequiredField)
    else
      var (members, rest) :- ReadMembers(fields, open.value, []);
      if SkipSpace(rest) != "" then Err(MalformedJson) else Ok(members)
  }

  function RequestFrom(input: string): Result<ControlRequest, ParseError> {
    var members :- OnlyObject(REQUEST_FIELDS, input);
    Assembled(members)
  }

  function ReplyFrom(input: string): Result<ControlReply, ParseError> {
    var members :- OnlyObject(REPLY_FIELDS, input);
    if !(Has(members, ApiVersion) && Has(members, RequestId) && Has(members, Accepted)
         && Has(members, TopologyRevision))
    then Err(MissingRequiredField)
    else Ok(ReplyOf(members))
  }

  function ReplyOf(members: seq<Member>): ControlReply {
    ControlReply(
      Within(NumberOf(members, ApiVersion, API_VERSION), TWO_32), TextOf(members, RequestId, ""),
      FlagOf(members, Accepted), Within(NumberOf(members, TopologyRevision, 0), TWO_64),
      TextOf(members, OperationId, ""), TextOf(members, ErrorText, ""))
  }

  // ---- round trips ----

  lemma {:induction false} FindsAt(members: seq<Member>, i: nat)
    requires DistinctFields(members) && i < |members|
    ensures Find(members, members[i].field) == Some(members[i].value)
    ensures Has(members, members[i].field)
  {
    if i > 0 {
      assert members[0].field != members[i].field;
      assert forall k | 0 <= k < |members[1..]| :: members[1..][k] == members[k + 1];
      FindsAt(members[1..], i - 1);
    }
  }

  lemma {:induction false} FindsNothing(members: seq<Member>, field: Field)
    requires !Has(members, field)
    ensures Find(members, field) == None
  {
    if members != [] {
      assert members[0].field != field;
      assert forall k | 0 <= k < |members[1..]| :: members[1..][k] == members[k + 1];
      FindsNothing(members[1..], field);
    }
  }

  /** Everything there is to know of a list of distinct members. */
  lemma FindsAll(members: seq<Member>)
    requires DistinctFields(members)
    ensures forall i | 0 <= i < |members| :: Find(members, members[i].field) == Some(members[i].value)
    ensures forall field | !Has(members, field) :: Find(members, field) == None
  {
    forall i | 0 <= i < |members|
      ensures Find(members, members[i].field) == Some(members[i].value)
    {
      FindsAt(members, i);
    }
    forall field | !Has(members, field)
      ensures Find(members, field) == None
    {
      FindsNothing(members, field);
    }
  }

  /** A printed object, and nothing else, reads back as its members. */
  lemma ReadsOnlyObject(fields: seq<Field>, members: seq<Member>)
    requires members != [] && WellFormed(fields, members)
    ensures OnlyObject(fields, Print(Object(members))) == Ok(members)
  {
    hide ReadMembers, WellFormed, Consume, PrintMembers, Has;
    var inside := PrintMembers(members) + ("}" + "");
    assert Print(Object(members)) == ['{'] + inside;
    ConsumesFirst('{', inside);
    StartsQuoted(members, "}" + "");
    NoneFound(members);
    ReadsMembers(fields, members, [], "");
    assert [] + members == members;
  }

  /** A request as its command carries it: the parameters of other commands are not sent. */
  function Carried(r: ControlRequest): ControlRequest {
    var f := r.fault;
    r.(benchmark := if r.command == StartBenchmark then r.benchmark else NO_BENCHMARK,
       topologyPath := if r.command == LoadTopology then r.topologyPath else "",
       fault := match r.command
         case SetPortFault => FaultParameters(f.portId, "", "", f.configuration)
         case ClearPortFault => FaultParameters(f.portId, "", "", NO_FAULT)
         case SetLinkFault => FaultParameters("", f.firstEndpoint, f.secondEndpoint, f.configuration)
         case ClearLinkFault => FaultParameters("", f.firstEndpoint, f.secondEndpoint, NO_FAULT)
         case _ => NO_TARGET)
  }

  predicate SetsFault(command: ControlCommand) {
    command == SetPortFault || command == SetLinkFault
  }

  function WholeMilliseconds(duration: i64): i64 {
    Nanoseconds(Milliseconds(duration))
  }

  /** What the protocol's resolution leaves of a request. */
  function Rounded(r: ControlRequest): ControlRequest {
    var c := r.fault.configuration;
    if SetsFault(r.command) then
      r.(fault := r.fault.(configuration :=
                           c.(latency := WholeMilliseconds(c.latency), jitter := WholeMilliseconds(c.jitter))))
    else r
  }

  lemma MillisecondsBack(duration: i64)
    ensures duration >= 0 ==> 0 <= Milliseconds(duration) <= MAX_I64
    ensures duration >= 0 ==> WholeMilliseconds(duration) == duration - duration % NANOSECONDS_PER_MILLISECOND
    ensures Milliseconds(duration) >= 0 && duration < 0 ==> WholeMilliseconds(duration) == 0
    ensures Milliseconds(duration) < 0 ==> duration < 0
    ensures Milliseconds(duration) <= MAX_I64
  {
  }

  lemma HeaderParsed(r: ControlRequest)
    ensures DistinctFields(HeaderMembers(r)) && WellFormed(REQUEST_FIELDS, HeaderMembers(r))
  {
    hide CommandName, CommandNamed, Fits;
    CommandNamesDiffer(r.command);
    NumberFits(ApiVersion, r.apiVersion);
    TextFits(RequestId, r.requestId);
    TextFits(Command, CommandName(r.command));
    NumberFits(TopologyRevision, r.topologyRevision);
    assert REQUEST_FIELDS[0] == ApiVersion && REQUEST_FIELDS[1] == RequestId && REQUEST_FIELDS[2] == Command
        && REQUEST_FIELDS[3] == TopologyRevision;
  }

  /** Members that come in the order of the fields and fit them. */
  predicate Arranged(members: seq<Member>) {
    && (forall i | 0 <= i < |members| :: ParameterAt(members[i].field) < 19 && Fits(members[i]))
    && (forall i, j | 0 <= i < j < |members| :: ParameterAt(members[i].field) < ParameterAt(members[j].field))
  }

  lemma {:induction false} ArrangedByPairs(members: seq<Member>)
    requires forall i | 0 <= i < |members| :: ParameterAt(members[i].field) < 19 && Fits(members[i])
    requires forall i | 0 <= i < |members| - 1 :: ParameterAt(members[i].field) < ParameterAt(members[i + 1].field)
    ensures Arranged(members)
  {
    hide ParameterAt, Fits;
    if |members| > 1 {
      var front := members[..|members| - 1];
      ArrangedByPairs(front);
      forall i, j | 0 <= i < j < |members|
        ensures ParameterAt(members[i].field) < ParameterAt(members[j].field)
      {
        if j == |members| - 1 {
          assert members[j - 1] == front[j - 1] && members[i] == front[i];
        } else {
          assert members[i] == front[i] && members[j] == front[j];
        }
      }
    }
  }

  lemma NumberFits(field: Field, n: int)
    requires TypeOf(field).UintField? && 0 <= n <= TypeOf(field).max
    ensures Fits(Member(field, Number(n)))
  {
  }

  lemma TextFits(field: Field, text: string)
    requires TypeOf(field).StringField? || (TypeOf(field).OneOf? && text in TypeOf(field).names)
    ensures Fits(Member(field, Text(text)))
  {
  }

  lemma FlagFits(field: Field, flag: bool)
    requires TypeOf(field).BoolField?
    ensures Fits(Member(field, Flag(flag)))
  {
  }

  lemma FaultTypes()
    ensures TypeOf(LatencyMs) == TypeOf(JitterMs) == UintField(MAX_I64)
    ensures TypeOf(Loss) == TypeOf(Duplication) == UintField(TWO_32 - 1) && TypeOf(Bandwidth) == UintField(TWO_64 - 1)
    ensures TypeOf(Blackhole) == TypeOf(Isolated) == BoolField
  {
  }

  lemma FaultFits(c: FaultConfiguration)
    requires Milliseconds(c.latency) >= 0 && Milliseconds(c.jitter) >= 0
    ensures forall i | 0 <= i < |FaultMembers(c)| :: Fits(FaultMembers(c)[i])
  {
    hide Milliseconds, Fits, TypeOf;
    MillisecondsBack(c.latency);
    MillisecondsBack(c.jitter);
    FaultTypes();
    NumberFits(LatencyMs, Milliseconds(c.latency));
    NumberFits(JitterMs, Milliseconds(c.jitter));
    NumberFits(Loss, c.loss);
    NumberFits(Duplication, c.duplication);
    NumberFits(Bandwidth, c.bandwidth);
    FlagFits(Blackhole, c.blackhole);
    FlagFits(Isolated, c.isolated);
  }

  lemma FaultArranged(c: FaultConfiguration)
    requires Milliseconds(c.latency) >= 0 && Milliseconds(c.jitter) >= 0
    ensures Arranged(FaultMembers(c))
  {
    hide Milliseconds, Fits;
    FaultFits(c);
    ArrangedByPairs(FaultMembers(c));
  }

  lemma BenchmarkArranged(b: BenchmarkParameters)
    ensures Arranged(BenchmarkMembers(b))
  {
    hide BackendName, Fits;
    BackendNames(b.backend);
    var m := BenchmarkMembers(b);
    TextFits(Scenario, b.scenario);
    TextFits(Backend, BackendName(b.backend));
    TextFits(Generator, b.generator);
    NumberFits(BatchSize, b.batchSize);
    NumberFits(DurationSeconds, b.durationSeconds);
    NumberFits(Seed, b.seed);
    NumberFits(Packets, b.packetCount);
    NumberFits(FrameSize, b.frameSize);
    ArrangedByPairs(m);
  }

  lemma ArrangedConcat(a: seq<Member>, b: seq<Member>)
    requires Arranged(a) && Arranged(b)
    requires a != [] && b != [] ==> ParameterAt(a[|a| - 1].field) < ParameterAt(b[0].field)
    ensures Arranged(a + b)
  {
    hide Fits, ParameterAt;
    var all := a + b;
    forall i | 0 <= i < |all| - 1
      ensures ParameterAt(all[i].field) < ParameterAt(all[i + 1].field)
    {
    }
    ArrangedByPairs(all);
  }

  /** The parameters as printed are well formed when the durations are no negative number of milliseconds. */
  lemma ParametersWellFormed(r: ControlRequest)
    requires SetsFault(r.command) ==>
               Milliseconds(r.fault.configuration.latency) >= 0 && Milliseconds(r.fault.configuration.jitter) >= 0
    ensures WellFormed(PARAMETER_FIELDS, ParameterMembers(r))
  {
    hide Milliseconds, BackendName, Arranged;
    TargetsArranged(r.fault);
    match r.command {
      case SetPortFault =>
        FaultArranged(r.fault.configuration);
        ArrangedConcat([Member(PortId, Text(r.fault.portId))], FaultMembers(r.fault.configuration));
      case SetLinkFault =>
        FaultArranged(r.fault.configuration);
        ArrangedConcat(EndpointMembers(r.fault), FaultMembers(r.fault.configuration));
      case StartBenchmark => BenchmarkArranged(r.benchmark);
      case LoadTopology => PathArranged(r.topologyPath);
      case _ => ArrangedByPairs([]);
    }
    ArrangedIsWellFormed(ParameterMembers(r));
  }

  lemma TargetsArranged(fault: FaultParameters)
    ensures Arranged([Member(PortId, Text(fault.portId))]) && Arranged(EndpointMembers(fault))
  {
  }

  lemma PathArranged(path: string)
    ensures Arranged([Member(TopologyPath, Text(path))])
  {
  }

  lemma ArrangedIsWellFormed(members: seq<Member>)
    requires Arranged(members)
    ensures WellFormed(PARAMETER_FIELDS, members)
  {
    hide Fits, ParameterAt;
    forall i | 0 <= i < |members|
      ensures members[i].field in PARAMETER_FIELDS
    {
      IsParameter(members[i].field);
    }
  }

  function ParameterAt(field: Field): nat {
    match field
    case TopologyPath => 0
    case Scenario => 1
    case Backend => 2
    case Generator => 3
    case BatchSize => 4
    case DurationSeconds => 5
    case Seed => 6
    case Packets => 7
    case FrameSize => 8
    case PortId => 9
    case FirstEndpoint => 10
    case SecondEndpoint => 11
    case LatencyMs => 12
    case JitterMs => 13
    case Loss => 14
    case Duplication => 15
    case Bandwidth => 16
    case Blackhole => 17
    case Isolated => 18
    case _ => 19
  }

  lemma IsParameter(field: Field)
    ensures ParameterAt(field) < 19 ==> field in PARAMETER_FIELDS
  {
    if ParameterAt(field) < 19 {
      assert PARAMETER_FIELDS[ParameterAt(field)] == field;
    }
  }

  lemma BackendNames(backend: AnalyzerBackend)
    ensures BackendName(backend) in BACKEND_NAMES && ("cuda" != "cpu")
  {
    assert BACKEND_NAMES[0] == "cpu" && BACKEND_NAMES[1] == "cuda";
    assert |"cuda"| == 4 && |"cpu"| == 3;
  }

  lemma {:induction false} FindConcat(a: seq<Member>, b: seq<Member>, field: Field)
    ensures Has(a + b, field) <==> Has(a, field) || Has(b, field)
    ensures Find(a + b, field) == if Has(a, field) then Find(a, field) else Find(b, field)
    decreases |a|
  {
    HasConcat(a, b, field);
    if a == [] {
      assert a + b == b;
    } else {
      FindConcat(a[1..], b, field);
      assert (a + b)[1..] == a[1..] + b;
      assert [a[0]] + a[1..] == a;
      HasConcat([a[0]], a[1..], field);
      assert Has([a[0]], field) ==> a[0].field == field;
    }
  }

  lemma HasConcat(a: seq<Member>, b: seq<Member>, field: Field)
    ensures Has(a + b, field) <==> Has(a, field) || Has(b, field)
  {
    var all := a + b;
    assert forall i | 0 <= i < |a| :: all[i] == a[i];
    assert forall i | 0 <= i < |b| :: all[|a| + i] == b[i];
    assert forall i | 0 <= i < |all| :: all[i] == if i < |a| then a[i] else b[i - |a|];
  }

  /** The fault parameters, read from their members behind those of the target. */
  lemma FaultRead(target: seq<Member>, c: FaultConfiguration)
    requires forall i | 0 <= i < |target| :: target[i].field in {PortId, FirstEndpoint, SecondEndpoint}
    ensures FaultIn(target + FaultMembers(c))
         == FaultParameters(TextOf(target, PortId, ""), TextOf(target, FirstEndpoint, ""),
                            TextOf(target, SecondEndpoint, ""),
                            c.(latency := WholeMilliseconds(c.latency), jitter := WholeMilliseconds(c.jitter)))
  {
    hide Milliseconds, WholeMilliseconds, Find, Has, Nanoseconds;
    var m, p := FaultMembers(c), target + FaultMembers(c);
    FaultFields(c);
    TargetFields(target);
    forall field
      ensures Has(p, field) <==> Has(target, field) || Has(m, field)
      ensures Find(p, field) == if Has(target, field) then Find(target, field) else Find(m, field)
    {
      FindConcat(target, m, field);
    }
    FindsAll(m);
    FaultValues(p, c);
  }

  lemma FaultPresent(target: seq<Member>, c: FaultConfiguration, command: ControlCommand)
    requires SetsFault(command)
    requires forall field :: Has(target, field) <==> Expects(command, field) && ParameterAt(field) < 12
    ensures Presents(command, target + FaultMembers(c))
  {
    hide FaultMembers, Has;
    FaultFields(c);
    forall field
      ensures Has(target + FaultMembers(c), field) <==> Expects(command, field)
    {
      HasConcat(target, FaultMembers(c), field);
    }
  }

  lemma FaultValues(p: seq<Member>, c: FaultConfiguration)
    requires var m := FaultMembers(c); forall i | 0 <= i < |m| :: Find(p, m[i].field) == Some(m[i].value)
    ensures FaultIn(p).configuration
         == c.(latency := WholeMilliseconds(c.latency), jitter := WholeMilliseconds(c.jitter))
  {
    hide Milliseconds, Find, Nanoseconds, TextOf;
    var m := FaultMembers(c);
    assert Find(p, m[0].field) == Some(Number(Milliseconds(c.latency)));
    assert Find(p, m[1].field) == Some(Number(Milliseconds(c.jitter)));
    assert Find(p, m[2].field) == Some(Number(c.loss)) && Find(p, m[3].field) == Some(Number(c.duplication));
    assert Find(p, m[4].field) == Some(Number(c.bandwidth));
    assert Find(p, m[5].field) == Some(Flag(c.blackhole)) && Find(p, m[6].field) == Some(Flag(c.isolated));
  }

  lemma TargetFields(target: seq<Member>)
    requires forall i | 0 <= i < |target| :: target[i].field in {PortId, FirstEndpoint, SecondEndpoint}
    ensures forall field | Has(target, field) :: field in {PortId, FirstEndpoint, SecondEndpoint}
    ensures forall field | !Has(target, field) :: Find(target, field) == None
  {
    forall field | !Has(target, field)
      ensures Find(target, field) == None
    {
      FindsNothing(target, field);
    }
  }

  lemma FaultFields(c: FaultConfiguration)
    ensures DistinctFields(FaultMembers(c))
    ensures forall field :: Has(FaultMembers(c), field) <==> 12 <= ParameterAt(field) < 19
  {
    hide Milliseconds;
    var m := FaultMembers(c);
    forall field
      ensures Has(m, field) <==> 12 <= ParameterAt(field) < 19
    {
      if 12 <= ParameterAt(field) < 19 {
        assert m[ParameterAt(field) - 12].field == field;
      }
    }
  }

  lemma BenchmarkFields(b: BenchmarkParameters)
    ensures DistinctFields(BenchmarkMembers(b))
    ensures forall field :: Has(BenchmarkMembers(b), field) <==> 1 <= ParameterAt(field) < 9
  {
    hide BackendName;
    var m := BenchmarkMembers(b);
    forall field
      ensures Has(m, field) <==> 1 <= ParameterAt(field) < 9
    {
      if 1 <= ParameterAt(field) < 9 {
        assert m[ParameterAt(field) - 1].field == field;
      }
    }
  }

  lemma BenchmarkRead(b: BenchmarkParameters)
    ensures BenchmarkIn(BenchmarkMembers(b)) == b
  {
    hide Find, BackendName, Has;
    var m := BenchmarkMembers(b);
    BenchmarkFields(b);
    FindsAll(m);
    BackendRead(b.backend);
    assert m[0].field == Scenario && m[1].field == Backend && m[2].field == Generator && m[3].field == BatchSize
        && m[4].field == DurationSeconds && m[5].field == Seed && m[6].field == Packets && m[7].field == FrameSize;
  }

  lemma BackendRead(backend: AnalyzerBackend)
    ensures (if BackendName(backend) == "cpu" then Cpu else Cuda) == backend
  {
    BackendNames(backend);
  }

  /** Parameters without any of a kind leave that kind as it starts. */
  lemma NothingRead(p: seq<Member>)
    ensures !HasBenchmark(p) ==> BenchmarkIn(p) == NO_BENCHMARK
    ensures !HasFault(p) ==> FaultIn(p).configuration == NO_FAULT
    ensures forall field | !Has(p, field) :: Find(p, field) == None
  {
    hide Find, Has;
    forall field | !Has(p, field)
      ensures Find(p, field) == None
    {
      FindsNothing(p, field);
    }
    assert Nanoseconds(0) == 0;
  }

  lemma OneMember(m: Member)
    ensures forall field :: Has([m], field) <==> field == m.field
    ensures forall field :: Find([m], field) == if field == m.field then Some(m.value) else None
  {
    assert [m][0] == m && [m][1..] == [];
  }

  lemma TwoMembers(m: Member, n: Member)
    requires m.field != n.field
    ensures forall field :: Has([m, n], field) <==> field == m.field || field == n.field
    ensures forall field ::
              Find([m, n], field)
              == if field == m.field then Some(m.value) else if field == n.field then Some(n.value) else None
  {
    assert [m, n][0] == m && [m, n][1] == n && [m, n][1..] == [n];
    OneMember(n);
  }

  /** Parameters are accepted for their command, and give back what it carries. */
  ghost predicate ReadsAsCarried(r: ControlRequest) {
    var p, c := ParameterMembers(r), Carried(Rounded(r));
    && ParametersValid(r.command, p)
    && BenchmarkIn(p) == c.benchmark && TextOf(p, TopologyPath, "") == c.topologyPath && FaultIn(p) == c.fault
  }

  /** Which parameters there are decides what is valid, and that the others are as they start. */
  lemma ValidParameters(command: ControlCommand, p: seq<Member>)
    requires TakesParameters(command)
    requires Presents(command, p)
    ensures ParametersValid(command, p)
    ensures command != StartBenchmark ==> BenchmarkIn(p) == NO_BENCHMARK
    ensures !SetsFault(command) ==> FaultIn(p).configuration == NO_FAULT
    ensures forall field | !Expects(command, field) :: Find(p, field) == None
  {
    hide Find, Has, BenchmarkIn, FaultIn, HasBenchmark, WholeBenchmark, HasFault, WholeFault, Expects;
    GroupsPresent(command, p);
    SinglesExpected(command);
    NothingRead(p);
  }

  lemma SinglesExpected(command: ControlCommand)
    requires TakesParameters(command)
    ensures Expects(command, TopologyPath) <==> command == LoadTopology
    ensures Expects(command, PortId) <==> command == SetPortFault || command == ClearPortFault
    ensures Expects(command, FirstEndpoint) <==> command == SetLinkFault || command == ClearLinkFault
    ensures Expects(command, SecondEndpoint) <==> command == SetLinkFault || command == ClearLinkFault
  {
  }

  lemma GroupsPresent(command: ControlCommand, p: seq<Member>)
    requires TakesParameters(command)
    requires Presents(command, p)
    ensures HasBenchmark(p) <==> command == StartBenchmark
    ensures command == StartBenchmark ==> WholeBenchmark(p)
    ensures HasFault(p) <==> SetsFault(command)
    ensures SetsFault(command) ==> WholeFault(p)
  {
    hide Has, Expects;
    BenchmarkExpected(command);
    FaultExpected(command);
  }

  lemma BenchmarkExpected(command: ControlCommand)
    requires TakesParameters(command)
    ensures var asked := command == StartBenchmark;
            && Expects(command, Scenario) == asked && Expects(command, Backend) == asked
            && Expects(command, Generator) == asked && Expects(command, BatchSize) == asked
            && Expects(command, DurationSeconds) == asked && Expects(command, Seed) == asked
            && Expects(command, Packets) == asked && Expects(command, FrameSize) == asked
  {
  }

  lemma FaultExpected(command: ControlCommand)
    requires TakesParameters(command)
    ensures var asked := SetsFault(command);
            && Expects(command, LatencyMs) == asked && Expects(command, JitterMs) == asked
            && Expects(command, Loss) == asked && Expects(command, Duplication) == asked
            && Expects(command, Bandwidth) == asked && Expects(command, Blackhole) == asked
            && Expects(command, Isolated) == asked
  {
  }

  /** The parameters are those a command expects, no more and no less. */
  ghost predicate Presents(command: ControlCommand, p: seq<Member>) {
    forall field :: Has(p, field) <==> Expects(command, field)
  }

  predicate Expects(command: ControlCommand, field: Field) {
    match command
    case LoadTopology => field == TopologyPath
    case StartBenchmark => 1 <= ParameterAt(field) < 9
    case SetPortFault => field == PortId || 12 <= ParameterAt(field) < 19
    case ClearPortFault => field == PortId
    case SetLinkFault => field == FirstEndpoint || field == SecondEndpoint || 12 <= ParameterAt(field) < 19
    case ClearLinkFault => field == FirstEndpoint || field == SecondEndpoint
    case _ => false
  }

  lemma PortFaultRead(r: ControlRequest)
    requires r.command == SetPortFault
    ensures ReadsAsCarried(r)
  {
    hide Find, Has, FaultMembers, FaultIn, BenchmarkIn, WholeMilliseconds, ParametersValid, Presents;
    var port := Member(PortId, Text(r.fault.portId));
    OneMember(port);
    FaultRead([port], r.fault.configuration);
    FaultPresent([port], r.fault.configuration, r.command);
    ValidParameters(r.command, ParameterMembers(r));
  }

  lemma LinkFaultRead(r: ControlRequest)
    requires r.command == SetLinkFault
    ensures ReadsAsCarried(r)
  {
    hide Find, Has, FaultMembers, FaultIn, BenchmarkIn, WholeMilliseconds, ParametersValid, Presents;
    var first := Member(FirstEndpoint, Text(r.fault.firstEndpoint));
    var second := Member(SecondEndpoint, Text(r.fault.secondEndpoint));
    TwoMembers(first, second);
    FaultRead([first, second], r.fault.configuration);
    FaultPresent([first, second], r.fault.configuration, r.command);
    ValidParameters(r.command, ParameterMembers(r));
  }

  lemma TargetIn(p: seq<Member>)
    ensures FaultIn(p) == FaultParameters(TextOf(p, PortId, ""), TextOf(p, FirstEndpoint, ""),
                                          TextOf(p, SecondEndpoint, ""), FaultIn(p).configuration)
  {
  }

  lemma ClearPortRead(r: ControlRequest)
    requires r.command == ClearPortFault
    ensures ReadsAsCarried(r)
  {
    hide Find, Has, FaultIn, BenchmarkIn, ParametersValid;
    OneMember(Member(PortId, Text(r.fault.portId)));
    TargetIn(ParameterMembers(r));
    ValidParameters(r.command, ParameterMembers(r));
  }

  lemma ClearLinkRead(r: ControlRequest)
    requires r.command == ClearLinkFault
    ensures ReadsAsCarried(r)
  {
    hide Find, Has, FaultIn, BenchmarkIn, ParametersValid;
    TwoMembers(Member(FirstEndpoint, Text(r.fault.firstEndpoint)),
               Member(SecondEndpoint, Text(r.fault.secondEndpoint)));
    TargetIn(ParameterMembers(r));
    ValidParameters(r.command, ParameterMembers(r));
  }

  lemma LoadRead(r: ControlRequest)
    requires r.command == LoadTopology
    ensures ReadsAsCarried(r)
  {
    hide Find, Has, FaultIn, BenchmarkIn, ParametersValid;
    OneMember(Member(TopologyPath, Text(r.topologyPath)));
    TargetIn(ParameterMembers(r));
    ValidParameters(r.command, ParameterMembers(r));
  }

  lemma StartRead(r: ControlRequest)
    requires r.command == StartBenchmark
    ensures ReadsAsCarried(r)
  {
    hide Find, Has, FaultIn, BenchmarkIn, BenchmarkMembers, ParametersValid;
    BenchmarkFields(r.benchmark);
    BenchmarkRead(r.benchmark);
    TargetIn(ParameterMembers(r));
    ValidParameters(r.command, ParameterMembers(r));
  }

  lemma ParametersRead(r: ControlRequest)
    requires TakesParameters(r.command)
    ensures ReadsAsCarried(r)
  {
    hide ReadsAsCarried;
    match r.command {
      case SetPortFault => PortFaultRead(r);
      case SetLinkFault => LinkFaultRead(r);
      case ClearPortFault => ClearPortRead(r);
      case ClearLinkFault => ClearLinkRead(r);
      case StartBenchmark => StartRead(r);
      case LoadTopology => LoadRead(r);
    }
  }

  /** What the members of a printed request assemble to. */
  lemma RequestAssembled(r: ControlRequest)
    ensures Assembled(RequestMembers(r)) == Ok(Carried(Rounded(r)))
  {
    hide Find, Has, ParametersValid, BenchmarkIn, FaultIn, CommandName, CommandNamed, ParameterMembers,
         WholeMilliseconds;
    var members, header := RequestMembers(r), HeaderMembers(r);
    var p := if TakesParameters(r.command) then ParameterMembers(r) else [];
    HeaderParsed(r);
    HeaderFields(r);
    FindsAll(header);
    CommandNamesDiffer(r.command);
    var parameters := Member(Parameters, Object(p));
    OneMember(parameters);
    forall field
      ensures var rest := if TakesParameters(r.command) then [parameters] else [];
              && (Has(members, field) <==> Has(header, field) || Has(rest, field))
              && Find(members, field) == if Has(header, field) then Find(header, field) else Find(rest, field)
    {
      FindConcat(header, if TakesParameters(r.command) then [parameters] else [], field);
    }
    assert header[0].field == ApiVersion && header[1].field == RequestId && header[2].field == Command
        && header[3].field == TopologyRevision;
    if TakesParameters(r.command) {
      ParametersRead(r);
    } else {
      NothingFound();
    }
  }

  lemma NothingFound()
    ensures forall field :: !Has([], field) && Find([], field) == None
    ensures BenchmarkIn([]) == NO_BENCHMARK && FaultIn([]) == NO_TARGET
  {
    assert forall field :: !Has([], field);
    NothingRead([]);
  }

  lemma HeaderFields(r: ControlRequest)
    ensures forall field ::
              Has(HeaderMembers(r), field) <==> field in {ApiVersion, RequestId, Command, TopologyRevision}
  {
    hide CommandName;
    var m := HeaderMembers(r);
    assert m[0].field == ApiVersion && m[1].field == RequestId && m[2].field == Command
           && m[3].field == TopologyRevision;
  }

  /** An object of which a member is refused is refused. */
  lemma OnlyObjectRefused(fields: seq<Field>, members: seq<Member>, bad: Member, error: ParseError)
    requires WellFormed(fields, members) && bad.field in fields && Unreadable(bad, error) && !Has(members, bad.field)
    ensures OnlyObject(fields, Print(Object(members + [bad]))) == Err(error)
  {
    hide ReadMembers, WellFormed, Consume, PrintMembers, Has, Unreadable;
    var all := members + [bad];
    var inside := PrintMembers(all) + ("}" + "");
    assert Print(Object(all)) == ['{'] + inside;
    ConsumesFirst('{', inside);
    StartsQuoted(all, "}" + "");
    NoneFound(members);
    assert [] + members == members && members + [bad] + [] == all;
    ReadsUntilRefused(fields, members, bad, [], [], "", error);
  }

  /** The fault members up to the first negative duration. */
  lemma NegativeRefused(target: seq<Member>, c: FaultConfiguration)
    requires Arranged(target) && forall i | 0 <= i < |target| :: ParameterAt(target[i].field) < 12
    requires Milliseconds(c.latency) < 0 || Milliseconds(c.jitter) < 0
    ensures Unreadable(Member(Parameters, Object(target + FaultMembers(c))), InvalidField)
  {
    hide Milliseconds, Unreadable, Arranged;
    var m := FaultMembers(c);
    IsParameter(LatencyMs);
    IsParameter(JitterMs);
    if Milliseconds(c.latency) < 0 {
      OutOfRange(m[0]);
      ArrangedIsWellFormed(target);
      assert target + [m[0]] + m[1..] == target + m;
      ParametersRefused(target, m[0], m[1..], InvalidField);
    } else {
      OutOfRange(m[1]);
      MillisecondsBack(c.latency);
      LatencyArranged(Milliseconds(c.latency));
      ArrangedConcat(target, [m[0]]);
      ArrangedIsWellFormed(target + [m[0]]);
      assert target + [m[0]] + [m[1]] + m[2..] == target + m;
      ParametersRefused(target + [m[0]], m[1], m[2..], InvalidField);
    }
  }

  lemma LatencyArranged(n: int)
    requires 0 <= n <= MAX_I64
    ensures Arranged([Member(LatencyMs, Number(n))])
  {
    NumberFits(LatencyMs, n);
  }

  lemma RefusesNegative(r: ControlRequest)
    requires SetsFault(r.command)
    requires Milliseconds(r.fault.configuration.latency) < 0 || Milliseconds(r.fault.configuration.jitter) < 0
    ensures OnlyObject(REQUEST_FIELDS, RequestJson(r)) == Err(InvalidField)
  {
    hide Milliseconds, OnlyObject, Print, FaultMembers, Unreadable, WellFormed, Arranged, Has, HeaderMembers;
    HeaderParsed(r);
    HeaderFields(r);
    TargetsArranged(r.fault);
    NegativeRefused(if r.command == SetPortFault then [Member(PortId, Text(r.fault.portId))]
                    else EndpointMembers(r.fault),
                    r.fault.configuration);
    assert REQUEST_FIELDS[4] == Parameters;
    OnlyObjectRefused(REQUEST_FIELDS, HeaderMembers(r), Member(Parameters, Object(ParameterMembers(r))), InvalidField);
  }

  // ---- the main theorems ----

  /** Parsing any printed request: what its command carries comes back, durations to the millisecond; a
      duration of a negative number of milliseconds is an invalid field. */
  lemma ParsesPrinted(r: ControlRequest)
    ensures RequestFrom(RequestJson(r)) ==
            if SetsFault(r.command)
               && (Milliseconds(r.fault.configuration.latency) < 0 || Milliseconds(r.fault.configuration.jitter) < 0)
            then Err(InvalidField) else Ok(Carried(Rounded(r)))
  {
    hide Milliseconds, Print, OnlyObject, RequestMembers, Assembled, Carried, Rounded;
    var c := r.fault.configuration;
    if SetsFault(r.command) && (Milliseconds(c.latency) < 0 || Milliseconds(c.jitter) < 0) {
      RefusesNegative(r);
    } else {
      RequestWellFormed(r);
      ReadsOnlyObject(REQUEST_FIELDS, RequestMembers(r));
      RequestAssembled(r);
    }
  }

  lemma RequestWellFormed(r: ControlRequest)
    requires SetsFault(r.command) ==>
               Milliseconds(r.fault.configuration.latency) >= 0 && Milliseconds(r.fault.configuration.jitter) >= 0
    ensures RequestMembers(r) != [] && WellFormed(REQUEST_FIELDS, RequestMembers(r))
  {
    hide Milliseconds, CommandName, ParameterMembers, Fits;
    HeaderParsed(r);
    ParametersWellFormed(r);
    ObjectFits(ParameterMembers(r));
    assert REQUEST_FIELDS[4] == Parameters;
  }

  lemma ObjectFits(members: seq<Member>)
    ensures Fits(Member(Parameters, Object(members))) <==> WellFormed(PARAMETER_FIELDS, members)
  {
    hide WellFormed;
  }

  /** A printed request comes back unchanged exactly when the durations it sets are whole, non-negative
      numbers of milliseconds. */
  lemma RoundTripExactly(r: ControlRequest)
    ensures RequestFrom(RequestJson(r)) == Ok(Carried(r)) <==>
            (SetsFault(r.command) ==>
               && r.fault.configuration.latency >= 0 && r.fault.configuration.latency % NANOSECONDS_PER_MILLISECOND == 0
               && r.fault.configuration.jitter >= 0 && r.fault.configuration.jitter % NANOSECONDS_PER_MILLISECOND == 0)
  {
    hide Milliseconds, RequestFrom, RequestJson, WholeMilliseconds;
    var c := r.fault.configuration;
    ParsesPrinted(r);
    MillisecondsBack(c.latency);
    MillisecondsBack(c.jitter);
  }

  /** A nanosecond of latency does not survive the channel. */
  lemma NanosecondIsLost(r: ControlRequest)
    requires r.command == SetPortFault && r.fault.configuration.latency == 1
    ensures RequestFrom(RequestJson(r)) != Ok(Carried(r))
  {
    hide RequestFrom, RequestJson, Carried;
    RoundTripExactly(r);
  }

  /** What a printed reply carries: its operation if it accepts, its error if not. */
  function Answered(r: ControlReply): ControlReply {
    r.(operationId := if r.accepted then r.operationId else "", error := if r.accepted then "" else r.error)
  }

  /** Replies: the operation of an accepted request or the error of a rejected one comes back. */
  lemma ReplyRoundTrip(r: ControlReply)
    ensures ReplyFrom(ReplyJson(r)) == Ok(Answered(r))
  {
    hide Print, OnlyObject, Find, Has, Fits, ReplyMembers;
    ReplyWellFormed(r);
    ReplyRead(r);
    ReadsOnlyObject(REPLY_FIELDS, ReplyMembers(r));
  }

  lemma NotBoth(r: ControlReply)
    ensures !Has(ReplyMembers(r), if r.accepted then ErrorText else OperationId)
  {
  }

  lemma ReplyRead(r: ControlReply)
    ensures var m := ReplyMembers(r);
            && Has(m, ApiVersion) && Has(m, RequestId) && Has(m, Accepted) && Has(m, TopologyRevision)
            && Find(m, ApiVersion) == Some(Number(r.apiVersion)) && Find(m, RequestId) == Some(Text(r.requestId))
            && Find(m, Accepted) == Some(Flag(r.accepted))
            && Find(m, TopologyRevision) == Some(Number(r.topologyRevision))
            && Find(m, OperationId) == (if r.accepted then Some(Text(r.operationId)) else None)
            && Find(m, ErrorText) == (if r.accepted then None else Some(Text(r.error)))
  {
    hide Find;
    var m := ReplyMembers(r);
    FindsAll(m);
    assert Find(m, m[0].field) == Some(Number(r.apiVersion)) && Find(m, m[1].field) == Some(Text(r.requestId));
    assert Find(m, m[2].field) == Some(Flag(r.accepted)) && Find(m, m[3].field) == Some(Number(r.topologyRevision));
    assert Find(m, m[4].field) == Some(m[4].value);
    NotBoth(r);
  }

  lemma ReplyWellFormed(r: ControlReply)
    ensures WellFormed(REPLY_FIELDS, ReplyMembers(r)) && ReplyMembers(r) != []
  {
    hide Fits;
    NumberFits(ApiVersion, r.apiVersion);
    TextFits(RequestId, r.requestId);
    FlagFits(Accepted, r.accepted);
    NumberFits(TopologyRevision, r.topologyRevision);
    TextFits(OperationId, r.operationId);
    TextFits(ErrorText, r.error);
    assert REPLY_FIELDS[0] == ApiVersion && REPLY_FIELDS[1] == RequestId && REPLY_FIELDS[2] == Accepted
        && REPLY_FIELDS[3] == TopologyRevision && REPLY_FIELDS[4] == OperationId && REPLY_FIELDS[5] == ErrorText;
  }

  /** An event is told from a reply by its second field: whatever follows that, it does not parse as one. */
  lemma EventIsNoReply(version: u32, rest: string)
    ensures ReplyFrom("{"
                      + (PrintMember(Member(ApiVersion, Number(version)))
                         + ("," + (Quoted("event_sequence") + (":" + rest)))))
         == Err(InvalidField)
  {
    hide ReadMembers, PrintMember, Quoted, Consume, Fits, FieldNamed;
    var first := Member(ApiVersion, Number(version));
    var second := Quoted("event_sequence") + (":" + rest);
    var tail := "," + second;
    NumberFits(ApiVersion, version);
    assert REPLY_FIELDS[0] == ApiVersion;
    ConsumesFirst('{', PrintMember(first) + tail);
    StartsQuoted([first], tail);
    assert PrintMembers([first]) == PrintMember(first);
    ReadsFirst(REPLY_FIELDS, first, [], tail);
    ConsumesFirst(',', second);
    assert [] + [first] == [first];
    UnknownKey(REPLY_FIELDS, "event_sequence", [first], rest);
    NoReplyField("event_sequence", REPLY_FIELDS);
  }

  lemma UnknownKey(fields: seq<Field>, key: string, found: seq<Member>, rest: string)
    ensures FieldNamed(key, fields) == None
            ==> ReadMembers(fields, Quoted(key) + (":" + rest), found) == Err(InvalidField)
  {
    hide Quoted, ReadString, Consume, FieldNamed;
    ReadsQuoted(key, ":" + rest);
    ConsumesFirst(':', rest);
  }

  lemma {:induction false} NoReplyField(key: string, fields: seq<Field>)
    requires key == "event_sequence"
    ensures FieldNamed(key, fields) == None
  {
    if fields != [] {
      NameShape(fields[0]);
      assert |key| == 14 && key[0] == 'e';
      assert ControlJson.Shape(fields[0]).0 == 14 ==> ControlJson.Shape(fields[0]).1 != 'e';
      NoReplyField(key, fields[1..]);
    }
  }
}
