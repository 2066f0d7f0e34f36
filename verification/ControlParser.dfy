/** The request and reply parsers of src/control_protocol.cpp: a scanner driven over one object. */
module ControlParser {
  import opened Results
  import opened JsonText
  import opened JsonScannerModel
  import opened ControlJson
  import opened ControlProtocolModel

  method TakeText(scanner: JsonScanner) returns (ok: bool, value: Value)
    requires scanner.Valid()
    modifies scanner
    ensures scanner.Valid() && scanner.Outcome(ok, value) == ReadValue(StringField, old(scanner.Rest()))
  {
    hide ReadString;
    var read, text := scanner.TakeString();
    return read, Text(text);
  }

  method TakeName(scanner: JsonScanner, names: seq<string>) returns (ok: bool, value: Value)
    requires scanner.Valid()
    modifies scanner
    ensures scanner.Valid() && scanner.Outcome(ok, value) == ReadValue(OneOf(names), old(scanner.Rest()))
  {
    hide ReadString;
    var read, text := scanner.TakeString();
    if read && text !in names {
      scanner.error := InvalidField;
      return false, Text(text);
    }
    return read, Text(text);
  }

  method TakeNumber(scanner: JsonScanner, max: nat) returns (ok: bool, value: Value)
    requires scanner.Valid() && max >= 9
    modifies scanner
    ensures scanner.Valid() && scanner.Outcome(ok, value) == ReadValue(UintField(max), old(scanner.Rest()))
  {
    hide ReadUint;
    var read, number := scanner.TakeUint(max);
    return read, Number(number);
  }

  method TakeFlag(scanner: JsonScanner) returns (ok: bool, value: Value)
    requires scanner.Valid()
    modifies scanner
    ensures scanner.Valid() && scanner.Outcome(ok, value) == ReadValue(BoolField, old(scanner.Rest()))
  {
    hide ReadBool;
    var read, flag := scanner.TakeBool();
    return read, Flag(flag);
  }

  method TakeValue(scanner: JsonScanner, kind: FieldType) returns (ok: bool, value: Value)
    requires scanner.Valid() && (kind.UintField? ==> kind.max >= 9)
    modifies scanner
    ensures scanner.Valid() && scanner.Outcome(ok, value) == ReadValue(kind, old(scanner.Rest()))
    decreases |scanner.Rest()|, 2
  {
    hide ReadValue;
    match kind {
      case StringField => ok, value := TakeText(scanner);
      case OneOf(names) => ok, value := TakeName(scanner, names);
      case UintField(max) => ok, value := TakeNumber(scanner, max);
      case BoolField => ok, value := TakeFlag(scanner);
      case ParametersField => ok, value := TakeParameters(scanner);
    }
  }

  method TakeParameters(scanner: JsonScanner) returns (ok: bool, value: Value)
    requires scanner.Valid()
    modifies scanner
    ensures scanner.Valid() && scanner.Outcome(ok, value) == ReadValue(ParametersField, old(scanner.Rest()))
    decreases |scanner.Rest()|, 0
  {
    hide ReadMembers, Consume;
    value := Object([]);
    var braced := scanner.Take('{');
    if !braced {
      return false, value;
    }
    ghost var inside := scanner.Rest();
    var closed := scanner.Take('}');
    if closed {
      return true, value;
    }
    MembersSkipSpace(PARAMETER_FIELDS, inside, []);
    var read, members := TakeMembers(scanner, PARAMETER_FIELDS);
    return read, Object(members);
  }

  /** Members up to the closing brace: a known name that has not come before, a colon and its value. */
  method TakeMembers(scanner: JsonScanner, fields: seq<Field>) returns (ok: bool, members: seq<Member>)
    requires scanner.Valid()
    modifies scanner
    ensures scanner.Valid() && scanner.Outcome(ok, members) == ReadMembers(fields, old(scanner.Rest()), [])
    decreases |scanner.Rest()|, 1
  {
    hide ReadString, ReadValue, Consume, FieldNamed, Has, SkipSpace;
    members := [];
    while true
      invariant scanner.Valid() && |scanner.Rest()| <= |old(scanner.Rest())|
      invariant ReadMembers(fields, scanner.Rest(), members) == ReadMembers(fields, old(scanner.Rest()), [])
      decreases |scanner.Rest()|
    {
      var named, key := scanner.TakeString();
      if !named {
        return false, members;
      }
      var colon := scanner.Take(':');
      if !colon {
        return false, members;
      }
      var field := FieldNamed(key, fields);
      if field.None? || Has(members, field.value) {
        scanner.error := InvalidField;
        return false, members;
      }
      var read, value := TakeValue(scanner, TypeOf(field.value));
      if !read {
        return false, members;
      }
      members := members + [Member(field.value, value)];
      ghost var behind := scanner.Rest();
      var closed := scanner.Take('}');
      if closed {
        return true, members;
      }
      ConsumeSkipsSpace(behind, ',');
      var comma := scanner.Take(',');
      if !comma {
        return false, members;
      }
    }
  }

  lemma {:induction false} SkipSpaceTwice(s: string)
    ensures SkipSpace(SkipSpace(s)) == SkipSpace(s)
  {
    if s != [] && IsSpace(s[0]) {
      SkipSpaceTwice(s[1..]);
    }
  }

  lemma ConsumeSkipsSpace(s: string, expected: char)
    ensures Consume(SkipSpace(s), expected) == Consume(s, expected)
    ensures |SkipSpace(s)| <= |s|
  {
    SkipSpaceTwice(s);
  }

  lemma MembersSkipSpace(fields: seq<Field>, s: string, found: seq<Member>)
    ensures ReadMembers(fields, SkipSpace(s), found) == ReadMembers(fields, s, found)
    ensures |SkipSpace(s)| <= |s|
  {
    hide ReadBody, ReadValue, Has, FieldNamed;
    ConsumeSkipsSpace(s, '"');
  }

  /** The one object of a text. */
  method TakeOnlyObject(input: string, fields: seq<Field>) returns (r: Result<seq<Member>, ParseError>)
    ensures r == OnlyObject(fields, input)
  {
    hide ReadMembers, Consume, SkipSpace;
    var scanner := new JsonScanner(input);
    var open := scanner.Take('{');
    if !open {
      return Err(scanner.error);
    }
    ghost var inside := scanner.Rest();
    var closed := scanner.Take('}');
    if closed {
      return Err(MissingRequiredField);
    }
    MembersSkipSpace(fields, inside, []);
    var ok, members := TakeMembers(scanner, fields);
    if !ok {
      return Err(scanner.error);
    }
    scanner.SkipWhitespace();
    if scanner.position != |scanner.input| {
      return Err(MalformedJson);
    }
    return Ok(members);
  }

  method ParseRequest(input: string) returns (r: Result<ControlRequest, ParseError>)
    ensures r == RequestFrom(input)
  {
    hide OnlyObject, Assembled;
    var members := TakeOnlyObject(input, REQUEST_FIELDS);
    if members.Err? {
      return Err(members.error);
    }
    return Assembled(members.value);
  }

  method ParseReply(input: string) returns (r: Result<ControlReply, ParseError>)
    ensures r == ReplyFrom(input)
  {
    hide OnlyObject, Find, Has;
    var members := TakeOnlyObject(input, REPLY_FIELDS);
    if members.Err? {
      return Err(members.error);
    }
    var m := members.value;
    if !(Has(m, ApiVersion) && Has(m, RequestId) && Has(m, Accepted) && Has(m, TopologyRevision)) {
      return Err(MissingRequiredField);
    }
    return Ok(ReplyOf(m));
  }
}
