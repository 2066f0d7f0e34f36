/** The objects of the control protocol: which fields there are, what each holds, how they are printed and
    read. A field may come once; anything else is an invalid field. */
module ControlJson {
  import opened Words
  import opened Results
  import opened Text
  import opened JsonText

  datatype Field =
    | ApiVersion | RequestId | Command | TopologyRevision | Parameters
    | TopologyPath | Scenario | Backend | Generator | BatchSize | DurationSeconds | Seed | Packets | FrameSize
    | PortId | FirstEndpoint | SecondEndpoint
    | LatencyMs | JitterMs | Loss | Duplication | Bandwidth | Blackhole | Isolated
    | Accepted | OperationId | ErrorText

  function Name(field: Field): string {
    match field
    case ApiVersion => "api_version"
    case RequestId => "request_id"
    case Command => "command"
    case TopologyRevision => "topology_revision"
    case Parameters => "parameters"
    case TopologyPath => "topology_path"
    case Scenario => "scenario"
    case Backend => "backend"
    case Generator => "generator"
    case BatchSize => "batch_size"
    case DurationSeconds => "duration_seconds"
    case Seed => "seed"
    case Packets => "packets"
    case FrameSize => "frame_size"
    case PortId => "port_id"
    case FirstEndpoint => "first_endpoint"
    case SecondEndpoint => "second_endpoint"
    case LatencyMs => "latency_ms"
    case JitterMs => "jitter_ms"
    case Loss => "loss_basis_points"
    case Duplication => "duplication_basis_points"
    case Bandwidth => "bandwidth_bits_per_second"
    case Blackhole => "blackhole"
    case Isolated => "isolated"
    case Accepted => "accepted"
    case OperationId => "operation_id"
    case ErrorText => "error"
  }

  const REQUEST_FIELDS := [ApiVersion, RequestId, Command, TopologyRevision, Parameters]
  const PARAMETER_FIELDS := [
    TopologyPath, Scenario, Backend, Generator, BatchSize, DurationSeconds, Seed, Packets, FrameSize,
    PortId, FirstEndpoint, SecondEndpoint, LatencyMs, JitterMs, Loss, Duplication, Bandwidth, Blackhole, Isolated]
  const REPLY_FIELDS := [ApiVersion, RequestId, Accepted, TopologyRevision, OperationId, ErrorText]

  const COMMAND_NAMES := [
    "load_topology", "get_switch_state", "get_active_faults", "get_supervision_state", "start_benchmark",
    "stop_run", "set_port_fault", "clear_port_fault", "set_link_fault", "clear_link_fault"]
  const BACKEND_NAMES := ["cpu", "cuda"]

  datatype FieldType =
    | StringField
    | OneOf(names: seq<string>)
    | UintField(max: nat)
    | BoolField
    | ParametersField

  function TypeOf(field: Field): (kind: FieldType)
    ensures kind.UintField? ==> kind.max >= 9
  {
    match field
    case ApiVersion => UintField(TWO_32 - 1)
    case Command => OneOf(COMMAND_NAMES)
    case TopologyRevision => UintField(TWO_64 - 1)
    case Parameters => ParametersField
    case Backend => OneOf(BACKEND_NAMES)
    case BatchSize => UintField(TWO_32 - 1)
    case DurationSeconds => UintField(TWO_32 - 1)
    case Seed => UintField(TWO_64 - 1)
    case Packets => UintField(TWO_64 - 1)
    case FrameSize => UintField(TWO_32 - 1)
    case LatencyMs => UintField(MAX_I64)
    case JitterMs => UintField(MAX_I64)
    case Loss => UintField(TWO_32 - 1)
    case Duplication => UintField(TWO_32 - 1)
    case Bandwidth => UintField(TWO_64 - 1)
    case Blackhole => BoolField
    case Isolated => BoolField
    case Accepted => BoolField
    case _ => StringField
  }

  datatype Value = Text(text: string) | Number(number: int) | Flag(flag: bool) | Object(members: seq<Member>)

  datatype Member = Member(field: Field, value: Value)

  function FieldNamed(key: string, fields: seq<Field>): (field: Option<Field>)
    ensures field.Some? ==> field.value in fields && Name(field.value) == key
  {
    if fields == [] then None
    else if Name(fields[0]) == key then Some(fields[0])
    else FieldNamed(key, fields[1..])
  }

  predicate Has(members: seq<Member>, field: Field) {
    exists i :: 0 <= i < |members| && members[i].field == field
  }

  // ---- reading ----

  /** One value; of an object of parameters, all of it. */
  function ReadValue(kind: FieldType, s: string): (r: Scan<Value>)
    ensures r.Ok? ==> |r.value.1| < |s|
    decreases |s|, 0
  {
    match kind
    case StringField =>
      var (text, rest) :- ReadString(s);
      Ok((Text(text), rest))
    case OneOf(names) =>
      var (text, rest) :- ReadString(s);
      if text in names then Ok((Text(text), rest)) else Err(InvalidField)
    case UintField(max) =>
      var (number, rest) :- ReadUint(s, max);
      Ok((Number(number), rest))
    case BoolField =>
      var (flag, rest) :- ReadBool(s);
      Ok((Flag(flag), rest))
    case ParametersField =>
      var open := Consume(s, '{');
      if open.None? then Err(MalformedJson)
      else
        var close := Consume(open.value, '}');
        if close.Some? then Ok((Object([]), close.value))
        else
          var (members, rest) :- ReadMembers(PARAMETER_FIELDS, open.value, []);
          Ok((Object(members), rest))
  }

  /** The members of an object up to its closing brace, behind those already found. */
  function ReadMembers(fields: seq<Field>, s: string, found: seq<Member>): (r: Scan<seq<Member>>)
    ensures r.Ok? ==> |r.value.1| < |s|
    decreases |s|, 1
  {
    var (key, behindKey) :- ReadString(s);
    var colon := Consume(behindKey, ':');
    if colon.None? then Err(MalformedJson)
    else
      var field := FieldNamed(key, fields);
      if field.None? || Has(found, field.value) then Err(InvalidField)
      else
        var (value, rest) :- ReadValue(TypeOf(field.value), colon.value);
        var members := found + [Member(field.value, value)];
        var close := Consume(rest, '}');
        if close.Some? then Ok((members, close.value))
        else
          var comma := Consume(rest, ',');
          if comma.None? then Err(MalformedJson) else ReadMembers(fields, comma.value, members)
  }

  // ---- printing ----

  function SignedDecimal(n: int): string {
    if n < 0 then "-" + Decimal(-n) else Decimal(n)
  }

  function Print(value: Value): string {
    match value
    case Text(text) => Quoted(text)
    case Number(number) => SignedDecimal(number)
    case Flag(flag) => BoolText(flag)
    case Object(members) => "{" + (PrintMembers(members) + "}")
  }

  function PrintMember(member: Member): string {
    Quoted(Name(member.field)) + (":" + Print(member.value))
  }

  function PrintMembers(members: seq<Member>): string {
    if members == [] then ""
    else if |members| == 1 then PrintMember(members[0])
    else PrintMember(members[0]) + ("," + PrintMembers(members[1..]))
  }

  // ---- round trips ----

  predicate DistinctFields(members: seq<Member>) {
    forall i, j | 0 <= i < j < |members| :: members[i].field != members[j].field
  }

  predicate WellFormed(fields: seq<Field>, members: seq<Member>)
    decreases members
  {
    && DistinctFields(members)
    && forall i | 0 <= i < |members| :: members[i].field in fields && Fits(members[i])
  }

  predicate Fits(member: Member)
    decreases member
  {
    Conforms(TypeOf(member.field), member.value)
  }

  predicate Conforms(kind: FieldType, value: Value)
    decreases value
  {
    match kind
    case StringField => value.Text?
    case OneOf(names) => value.Text? && value.text in names
    case UintField(max) => value.Number? && 0 <= value.number <= max
    case BoolField => value.Flag?
    case ParametersField => value.Object? && WellFormed(PARAMETER_FIELDS, value.members)
  }

  function Shape(field: Field): (nat, char, char) {
    match field
    case ApiVersion => (11, 'a', 'n')
    case RequestId => (10, 'r', 'd')
    case Command => (7, 'c', 'd')
    case TopologyRevision => (17, 't', 'n')
    case Parameters => (10, 'p', 's')
    case TopologyPath => (13, 't', 'h')
    case Scenario => (8, 's', 'o')
    case Backend => (7, 'b', 'd')
    case Generator => (9, 'g', 'r')
    case BatchSize => (10, 'b', 'e')
    case DurationSeconds => (16, 'd', 's')
    case Seed => (4, 's', 'd')
    case Packets => (7, 'p', 's')
    case FrameSize => (10, 'f', 'e')
    case PortId => (7, 'p', 'd')
    case FirstEndpoint => (14, 'f', 't')
    case SecondEndpoint => (15, 's', 't')
    case LatencyMs => (10, 'l', 's')
    case JitterMs => (9, 'j', 's')
    case Loss => (17, 'l', 's')
    case Duplication => (24, 'd', 's')
    case Bandwidth => (25, 'b', 'd')
    case Blackhole => (9, 'b', 'e')
    case Isolated => (8, 'i', 'd')
    case Accepted => (8, 'a', 'd')
    case OperationId => (12, 'o', 'd')
    case ErrorText => (5, 'e', 'r')
  }

  lemma NameShape(field: Field)
    ensures |Name(field)| > 0 && Shape(field) == (|Name(field)|, Name(field)[0], Name(field)[|Name(field)| - 1])
  {
  }

  lemma ShapeInjective(a: Field, b: Field)
    requires Shape(a) == Shape(b)
    ensures a == b
  {
  }

  lemma {:induction false} FindsField(field: Field, fields: seq<Field>)
    requires field in fields
    ensures FieldNamed(Name(field), fields) == Some(field)
  {
    hide Name, Shape;
    NameShape(field);
    NameShape(fields[0]);
    if Name(fields[0]) == Name(field) {
      ShapeInjective(fields[0], field);
    } else {
      FindsField(field, fields[1..]);
    }
  }

  /** What may follow a printed value. */
  predicate Ends(rest: string) {
    rest != [] ==> rest[0] == ',' || rest[0] == '}'
  }

  lemma ConsumesFirst(c: char, rest: string)
    requires !IsSpace(c)
    ensures Consume([c] + rest, c) == Some(rest)
    ensures forall d | d != c :: Consume([c] + rest, d) == None
  {
    assert ([c] + rest)[1..] == rest;
  }

  /** A printed value reads back as itself, and so do printed members behind others. */
  lemma {:induction false} ReadsValue(kind: FieldType, value: Value, rest: string)
    requires Conforms(kind, value) && Ends(rest)
    ensures ReadValue(kind, Print(value) + rest) == Ok((value, rest))
    decreases value, 0
  {
    hide Quoted, ReadString, ReadUint, ReadBool, Decimal, BoolText, PrintMembers, ReadMembers, WellFormed;
    match value
    case Text(text) => ReadsQuoted(text, rest);
    case Number(number) => ReadsDecimal(number, kind.max, rest);
    case Flag(flag) => ReadsBoolText(flag, rest);
    case Object(members) => ReadsObject(members, rest);
  }

  lemma {:induction false} ReadsObject(members: seq<Member>, rest: string)
    requires WellFormed(PARAMETER_FIELDS, members)
    ensures ReadValue(ParametersField, Print(Object(members)) + rest) == Ok((Object(members), rest))
    decreases members, 1
  {
    hide ReadMembers, WellFormed, Consume, PrintMembers, Has;
    var inside := PrintMembers(members) + ("}" + rest);
    assert Print(Object(members)) + rest == ['{'] + inside;
    ConsumesFirst('{', inside);
    if members == [] {
      NothingPrinted(rest);
      ConsumesFirst('}', rest);
    } else {
      StartsQuoted(members, "}" + rest);
      NoneFound(members);
      ReadsMembers(PARAMETER_FIELDS, members, [], rest);
      assert [] + members == members;
    }
  }

  lemma NothingPrinted(rest: string)
    ensures PrintMembers([]) + ("}" + rest) == ['}'] + rest
  {
  }

  lemma NoneFound(members: seq<Member>)
    ensures forall i | 0 <= i < |members| :: !Has([], members[i].field)
  {
  }

  lemma StartsQuoted(members: seq<Member>, rest: string)
    requires members != []
    ensures Consume(PrintMembers(members) + rest, '}') == None
  {
    hide Escaped;
    assert PrintMember(members[0])[0] == '"';
    ConsumesFirst('"', (PrintMembers(members) + rest)[1..]);
    assert PrintMembers(members) + rest == ['"'] + (PrintMembers(members) + rest)[1..];
  }

  lemma {:induction false} ReadsMembers(fields: seq<Field>, members: seq<Member>, found: seq<Member>, rest: string)
    requires members != [] && WellFormed(fields, members)
    requires forall i | 0 <= i < |members| :: !Has(found, members[i].field)
    ensures ReadMembers(fields, PrintMembers(members) + ("}" + rest), found) == Ok((found + members, rest))
    decreases members, 0
  {
    hide ReadMembers, PrintMember, WellFormed, Has, Consume, TypeOf, Conforms, Fits;
    var first, others := members[0], members[1..];
    WellFormedParts(fields, members, found);
    if others == [] {
      ReadsFirst(fields, first, found, "}" + rest);
      ConsumesFirst('}', rest);
      assert found + [first] == found + members;
      assert PrintMembers(members) == PrintMember(first);
    } else {
      var tail := PrintMembers(others) + ("}" + rest);
      assert PrintMembers(members) + ("}" + rest) == PrintMember(first) + ("," + tail);
      ReadsFirst(fields, first, found, "," + tail);
      ConsumesFirst(',', tail);
      ReadsMembers(fields, others, found + [first], rest);
      assert found + [first] + others == found + members;
    }
  }

  lemma WellFormedParts(fields: seq<Field>, members: seq<Member>, found: seq<Member>)
    requires members != [] && WellFormed(fields, members)
    requires forall i | 0 <= i < |members| :: !Has(found, members[i].field)
    ensures members[0].field in fields && Fits(members[0])
    ensures WellFormed(fields, members[1..]) && !Has(found, members[0].field)
    ensures forall i | 0 <= i < |members[1..]| :: !Has(found + [members[0]], members[1..][i].field)
  {
    hide Conforms, TypeOf;
    assert forall i | 0 <= i < |members[1..]| :: members[1..][i] == members[i + 1];
  }

  /** What reading the members does with the first one. */
  lemma {:induction false} ReadsFirst(fields: seq<Field>, member: Member, found: seq<Member>, rest: string)
    requires member.field in fields && Fits(member) && Ends(rest) && !Has(found, member.field)
    ensures ReadMembers(fields, PrintMember(member) + rest, found)
         == (if Consume(rest, '}').Some? then Ok((found + [member], Consume(rest, '}').value))
             else if Consume(rest, ',').None? then Err(MalformedJson)
             else ReadMembers(fields, Consume(rest, ',').value, found + [member]))
    decreases member, 1
  {
    hide Quoted, ReadString, ReadValue, Consume, Name, Print, PrintMember, TypeOf, FieldNamed, Has, Conforms;
    ReadsKey(fields, member, rest);
    ReadsValue(TypeOf(member.field), member.value, rest);
  }

  /** A member's name, up to its value. */
  lemma ReadsKey(fields: seq<Field>, member: Member, rest: string)
    requires member.field in fields
    ensures var value := Print(member.value) + rest;
            && ReadString(PrintMember(member) + rest) == Ok((Name(member.field), ":" + value))
            && Consume(":" + value, ':') == Some(value)
            && FieldNamed(Name(member.field), fields) == Some(member.field)
  {
    hide Quoted, ReadString, Consume, Name, Print, FieldNamed;
    var behind := ":" + (Print(member.value) + rest);
    assert PrintMember(member) + rest == Quoted(Name(member.field)) + behind;
    ReadsQuoted(Name(member.field), behind);
    ConsumesFirst(':', Print(member.value) + rest);
    FindsField(member.field, fields);
  }

  // ---- what cannot be read back ----

  /** A member whose value is refused, whatever follows it. */
  ghost predicate Unreadable(member: Member, error: ParseError) {
    forall rest | Ends(rest) :: ReadValue(TypeOf(member.field), Print(member.value) + rest) == Err(error)
  }

  /** A number its field cannot hold is refused. */
  lemma OutOfRange(member: Member)
    requires TypeOf(member.field).UintField? && member.value.Number?
    requires !(0 <= member.value.number <= TypeOf(member.field).max)
    ensures Unreadable(member, InvalidField)
  {
    hide Decimal, ReadUint, TypeOf;
    var number := member.value.number;
    forall rest | Ends(rest)
      ensures ReadValue(TypeOf(member.field), Print(member.value) + rest) == Err(InvalidField)
    {
      if number >= 0 {
        ReadsDecimal(number, TypeOf(member.field).max, rest);
      } else {
        RefusesSign(Decimal(-number) + rest, TypeOf(member.field).max);
        assert SignedDecimal(number) + rest == "-" + (Decimal(-number) + rest);
      }
    }
  }

  lemma RefusesSign(rest: string, max: nat)
    ensures ReadUint("-" + rest, max) == Err(InvalidField)
  {
    assert !IsDigit(("-" + rest)[0]);
  }

  /** Reading stops at the first member that is refused. */
  lemma {:induction false} ReadsUntilRefused(fields: seq<Field>, members: seq<Member>, bad: Member, more: seq<Member>,
                                             found: seq<Member>, rest: string, error: ParseError)
    requires WellFormed(fields, members) && bad.field in fields && Unreadable(bad, error)
    requires forall i | 0 <= i < |members| :: !Has(found, members[i].field)
    requires !Has(found + members, bad.field)
    ensures ReadMembers(fields, PrintMembers(members + [bad] + more) + ("}" + rest), found) == Err(error)
    decreases |members|
  {
    hide ReadMembers, PrintMember, WellFormed, Has, Unreadable;
    var all := members + [bad] + more;
    var tail := if |all| == 1 then "}" + rest else "," + (PrintMembers(all[1..]) + ("}" + rest));
    assert PrintMembers(all) + ("}" + rest) == PrintMember(all[0]) + tail;
    if members == [] {
      assert found + members == found;
      RefusesFirst(fields, bad, found, tail, error);
    } else {
      var first, others := members[0], members[1..];
      WellFormedParts(fields, members, found);
      ReadsFirst(fields, first, found, tail);
      assert all[1..] == others + [bad] + more;
      ConsumesFirst(',', PrintMembers(all[1..]) + ("}" + rest));
      assert found + [first] + others == found + members;
      ReadsUntilRefused(fields, others, bad, more, found + [first], rest, error);
    }
  }

  lemma RefusesFirst(fields: seq<Field>, member: Member, found: seq<Member>, rest: string, error: ParseError)
    requires member.field in fields && Unreadable(member, error) && Ends(rest) && !Has(found, member.field)
    ensures ReadMembers(fields, PrintMember(member) + rest, found) == Err(error)
  {
    hide Quoted, ReadString, ReadValue, Consume, Name, Print, PrintMember, TypeOf, FieldNamed, Has;
    ReadsKey(fields, member, rest);
  }

  /** An object of parameters with a refused member is itself refused. */
  lemma ParametersRefused(members: seq<Member>, bad: Member, more: seq<Member>, error: ParseError)
    requires WellFormed(PARAMETER_FIELDS, members) && bad.field in PARAMETER_FIELDS && Unreadable(bad, error)
    requires !Has(members, bad.field)
    ensures Unreadable(Member(Parameters, Object(members + [bad] + more)), error)
  {
    hide ReadMembers, WellFormed, Consume, PrintMembers, Has, Unreadable;
    var all := members + [bad] + more;
    forall rest | Ends(rest)
      ensures ReadValue(ParametersField, Print(Object(all)) + rest) == Err(error)
    {
      var inside := PrintMembers(all) + ("}" + rest);
      assert Print(Object(all)) + rest == ['{'] + inside;
      ConsumesFirst('{', inside);
      StartsQuoted(all, "}" + rest);
      NoneFound(members);
      assert [] + members == members;
      ReadsUntilRefused(PARAMETER_FIELDS, members, bad, more, [], rest, error);
    }
    RefusedValue(Member(Parameters, Object(all)), error);
  }

  lemma RefusedValue(member: Member, error: ParseError)
    requires forall rest | Ends(rest) :: ReadValue(TypeOf(member.field), Print(member.value) + rest) == Err(error)
    ensures Unreadable(member, error)
  {
  }

  // ---- one line ----

  predicate Printable(s: string) {
    forall i | 0 <= i < |s| :: s[i] >= ' '
  }

  lemma PrintableConcat(a: string, b: string)
    requires Printable(a) && Printable(b)
    ensures Printable(a + b)
  {
  }

  lemma {:induction false} EscapedPrintable(text: string)
    ensures Printable(Escaped(text))
  {
    if text != [] {
      EscapedPrintable(text[..|text| - 1]);
      PrintableConcat(Escaped(text[..|text| - 1]), EscapedChar(text[|text| - 1]));
    }
  }

  lemma QuotedPrintable(text: string)
    ensures Printable(Quoted(text))
  {
    hide Escaped;
    EscapedPrintable(text);
  }

  /** Whatever is in the strings, printed JSON has no control character, so no line break. */
  lemma {:induction false} PrintIsPrintable(value: Value)
    ensures Printable(Print(value))
    decreases value
  {
    hide Quoted, Decimal, PrintMembers;
    match value
    case Text(text) => QuotedPrintable(text);
    case Number(number) => assert forall c | IsDigit(c) :: c >= ' ';
    case Flag(_) =>
    case Object(members) => MembersPrintable(members);
  }

  lemma {:induction false} MembersPrintable(members: seq<Member>)
    ensures Printable(PrintMembers(members))
    decreases members
  {
    hide PrintMember;
    if members != [] {
      MemberPrintable(members[0]);
      MembersPrintable(members[1..]);
    }
  }

  lemma {:induction false} MemberPrintable(member: Member)
    ensures Printable(PrintMember(member))
    decreases member
  {
    hide Quoted, Name, Print;
    QuotedPrintable(Name(member.field));
    PrintIsPrintable(member.value);
  }
}
