/** What the JSON reader takes and refuses beyond what the printer writes: blanks, escapes, and names. */
module JsonGrammar {
  import opened Results
  import opened Sequences
  import opened Text
  import opened JsonText
  import opened ControlJson

  /** Blanks, tabs and line breaks before any token change nothing, and nothing else is skipped. */
  lemma {:induction false} BlanksSkipped(blanks: string, s: string)
    requires forall i | 0 <= i < |blanks| :: blanks[i] in {' ', '\t', '\n', '\r'}
    ensures SkipSpace(blanks + s) == SkipSpace(s)
    ensures s != [] && s[0] !in {' ', '\t', '\n', '\r'} ==> SkipSpace(s) == s
  {
    if blanks == [] {
      assert blanks + s == s;
    } else {
      BlanksSkipped(blanks[1..], s);
      assert (blanks + s)[1..] == blanks[1..] + s;
    }
  }

  /** Wherever an object, a member, a value or a mark is read, blanks may stand before it. */
  lemma BlanksAnywhere(blanks: string, s: string, mark: char, max: nat, kind: FieldType, fields: seq<Field>,
                       found: seq<Member>)
    requires forall i | 0 <= i < |blanks| :: blanks[i] in {' ', '\t', '\n', '\r'}
    ensures Consume(blanks + s, mark) == Consume(s, mark) && ReadString(blanks + s) == ReadString(s)
    ensures ReadUint(blanks + s, max) == ReadUint(s, max) && ReadBool(blanks + s) == ReadBool(s)
    ensures ReadValue(kind, blanks + s) == ReadValue(kind, s)
    ensures ReadMembers(fields, blanks + s, found) == ReadMembers(fields, s, found)
  {
    hide SkipSpace, ReadBody;
    BlanksSkipped(blanks, s);
    assert Consume(blanks + s, '{') == Consume(s, '{');
    assert ReadString(blanks + s) == ReadString(s);
    if kind.UintField? {
      assert ReadUint(blanks + s, kind.max) == ReadUint(s, kind.max);
    }
  }

  // ---- strings ----

  /** The characters a backslash may introduce, beside `u`, and what they stand for. */
  const ESCAPES := [
    ('"', '"'), ('\\', '\\'), ('/', '/'), ('b', 8 as char), ('f', 12 as char), ('n', '\n'), ('r', '\r'), ('t', '\t')]

  lemma EscapesExactly(c: char, rest: string)
    ensures forall i | 0 <= i < |ESCAPES| && ESCAPES[i].0 == c ::
              ReadBody(['\\', c] + rest) == Prepend([ESCAPES[i].1], ReadBody(rest))
    ensures c != 'u' && (forall i | 0 <= i < |ESCAPES| :: ESCAPES[i].0 != c) ==>
              ReadBody(['\\', c] + rest) == Err(MalformedJson)
  {
    hide Prepend, ReadUnicode;
    var s := ['\\', c] + rest;
    assert s[1..] == [c] + rest && s[1..][1..] == rest;
    assert ESCAPES[0].0 == '"' && ESCAPES[1].0 == '\\' && ESCAPES[2].0 == '/' && ESCAPES[3].0 == 'b';
    assert ESCAPES[4].0 == 'f' && ESCAPES[5].0 == 'n' && ESCAPES[6].0 == 'r' && ESCAPES[7].0 == 't';
  }

  /** A control character, the end of the text, or one right behind a backslash, ends no string well. */
  lemma {:induction false} Unfinished(text: string, rest: string)
    requires forall i | 0 <= i < |text| :: text[i] !in {'"', '\\'} && text[i] >= ' '
    requires rest == [] || rest == ['\\'] || rest[0] < ' '
    ensures ReadBody(text + rest) == Err(MalformedJson)
    decreases |text|
  {
    if text == [] {
      assert text + rest == rest;
    } else {
      Unfinished(text[1..], rest);
      assert (text + rest)[1..] == text[1..] + rest;
    }
  }

  // ---- names ----

  /** A member whose name is not one of the fields, or was there before, is refused, whatever its value and whatever
      follows. */
  lemma {:induction false} NameRefused(fields: seq<Field>, members: seq<Member>, key: string, rest: string,
                                       found: seq<Member>)
    requires WellFormed(fields, members)
    requires forall i | 0 <= i < |members| :: !Has(found, members[i].field)
    requires forall i | 0 <= i < |fields| :: Name(fields[i]) == key ==> Has(found + members, fields[i])
    ensures ReadMembers(fields, Separated(members) + (Quoted(key) + (":" + rest)), found) == Err(InvalidField)
    decreases |members|
  {
    hide ReadMembers, PrintMember, WellFormed, Has, Consume, Quoted;
    var s := Quoted(key) + (":" + rest);
    if members == [] {
      assert Separated(members) + s == s && found + members == found;
      FirstNameRefused(fields, key, rest, found);
    } else {
      var first, others := members[0], members[1..];
      WellFormedParts(fields, members, found);
      var tail := Separated(others) + s;
      assert Separated(members) + s == PrintMember(first) + ("," + tail);
      ReadsFirst(fields, first, found, "," + tail);
      ConsumesFirst(',', tail);
      assert found + [first] + others == found + members;
      NameRefused(fields, others, key, rest, found + [first]);
    }
  }

  lemma FirstNameRefused(fields: seq<Field>, key: string, rest: string, found: seq<Member>)
    requires forall i | 0 <= i < |fields| :: Name(fields[i]) == key ==> Has(found, fields[i])
    ensures ReadMembers(fields, Quoted(key) + (":" + rest), found) == Err(InvalidField)
  {
    hide ReadValue, ReadString, Has, Consume, Quoted, FieldNamed;
    ReadsQuoted(key, ":" + rest);
    ConsumesFirst(':', rest);
    RefusedName(fields, key);
  }

  /** Printed members, each with a comma behind it. */
  function Separated(members: seq<Member>): string {
    if members == [] then "" else PrintMember(members[0]) + ("," + Separated(members[1..]))
  }

  lemma {:induction false} RefusedName(fields: seq<Field>, key: string)
    ensures var field := FieldNamed(key, fields);
            field.Some? ==> exists i :: 0 <= i < |fields| && fields[i] == field.value && Name(fields[i]) == key
  {
    hide Name;
    var field := FieldNamed(key, fields);
    if field.Some? {
      var i :| 0 <= i < |fields| && fields[i] == field.value;
    }
  }
}
