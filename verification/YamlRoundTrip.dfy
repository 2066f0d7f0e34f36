/** Saving a topology and reading the file: it comes back exactly when nothing in its strings would have had to
    be unescaped. */
module YamlRoundTrip {
  import Words
  import opened Results
  import opened Sequences
  import opened Text
  import opened TopologyModel
  import opened TopologyYaml
  import opened YamlText

  // ---- lines of no entry ----

  lemma UnmarkedLine(line: string)
    requires Unmarked(line)
    ensures WithoutComment(line) == line
  {
    KeepUnmarked(NO_QUOTE, line, "");
    assert line + "" == line;
    KeepStep(LastOf(NO_QUOTE, line), NO_QUOTE, "#");
  }

  lemma EmptyLine(s: State)
    ensures Step(s, "") == Ok(s)
  {
    UnmarkedLine("");
  }

  lemma WordLine(s: State, line: string)
    requires line != [] && Unmarked(line) && !IsBlank(line[0]) && !IsBlank(line[|line| - 1])
    ensures Step(s, line) == if Flush(s).Err? then Err(Flush(s).error) else TopLevel(Flush(s).value, line)
  {
    hide Flush, TopLevel, Trim, Keep;
    UnmarkedLine(line);
    TrimsWord(line, false, false);
    assert "" + (line + "") == line;
    assert Indent(line) == 0 && line[0..] == line && line[..0] == [];
  }

  lemma SectionLines()
    ensures Unmarked("network:") && Unmarked("nodes:") && Unmarked("links:")
    ensures "network:" != "nodes:" && "network:" != "links:" && "nodes:" != "links:"
  {
    assert |"network:"| == 8 && |"nodes:"| == 6 && |"links:"| == 6 && "nodes:"[0] == 'n' && "links:"[0] == 'l';
  }

  // ---- the name ----

  /** What the reader makes of the printed name. */
  function NameRead(name: string): Option<string> {
    Unquoted(Trim(" \"" + Keep('"', '"', TopologyYaml.Escaped(name) + "\"")))
  }

  lemma NameStep(s: State, name: string)
    requires s.section == NetworkSection && s.name.None?
    ensures Step(s, NameLine(name)) ==
            if NameRead(name).None? then Err(InvalidNetworkField) else Ok(s.(name := NameRead(name)))
  {
    hide Keep, Trim, Unquoted, SplitField;
    var escaped := TopologyYaml.Escaped(name) + "\"";
    var p := Keep('"', '"', escaped);
    var line := "  name: " + ("\"" + p);
    assert NameLine(name) == "  name: " + ("\"" + escaped);
    NamePrefix();
    KeepOpens("  name: ", escaped);
    IndentedTwo(line);
    var content := line[2..];
    assert content == Blank(false) + "name" + [':'] + (" \"" + p);
    SplitsAt("name", false, " \"" + p);
  }

  lemma NamePrefix()
    ensures Unmarked("  name: ") && ':' !in "name"
  {
  }

  /** A line indented by two blanks. */
  lemma IndentedTwo(line: string)
    requires |line| > 2 && line[0] == ' ' && line[1] == ' ' && !IsBlank(line[2])
    ensures Indent(line) == 2 && '\t' !in line[..2] && Trim(line) != []
  {
    hide TrimRight;
    var rest := line[1..];
    assert rest[0] == ' ' && rest[1..] == line[2..] && line[2..][0] == line[2];
    assert Indent(line[2..]) == 0;
    assert Indent(rest) == 1;
    assert TrimLeft(line[2..]) == line[2..];
    assert TrimLeft(rest) == line[2..];
    assert TrimLeft(line) == line[2..];
    var t := line[2..];
    assert t == [t[0]] + t[1..];
    TrimRightKeeps([t[0]], t[1..]);
  }

  /** The name comes back exactly when it is plain and not empty. */
  lemma NameReadExactly(name: string)
    ensures NameRead(name) == Some(name) <==> Plain(name) && name != []
  {
    hide Keep, Trim, Unquoted;
    var escaped := TopologyYaml.Escaped(name) + "\"";
    var p := Keep('"', '"', escaped);
    if Plain(name) {
      EscapedPlain(name);
      KeepInside('"', name, "\"");
      KeepCloses(LastOf('"', name), "");
      NothingKept('"', NO_QUOTE);
      assert "\"" + "" == "\"";
      assert p == name + "\"";
      assert " \"" + p == Blank(true) + (YamlQuote(name) + Blank(false));
      TrimsWord(YamlQuote(name), true, false);
      if name != [] {
        UnquotesBack(name);
      } else {
        NothingUnquoted();
      }
    }
    OpenQuote(p);
    if NameRead(name) == Some(name) {
      CutFromLonger(name, p, escaped);
      assert escaped == TopologyYaml.Escaped(name) + ("\"" + "");
      CutIsPlain(name, "");
    }
  }

  lemma NothingUnquoted()
    ensures Unquoted(YamlQuote("")) == None
  {
  }

  lemma KeepCloses(previous: char, rest: string)
    requires previous != '\\'
    ensures Keep(previous, '"', "\"" + rest) == "\"" + Keep('"', NO_QUOTE, rest)
  {
    hide Keep;
    assert ("\"" + rest)[1..] == rest;
    KeepStep(previous, '"', "\"" + rest);
  }

  lemma NothingKept(previous: char, quote: char)
    ensures Keep(previous, quote, "") == ""
  {
  }

  // ---- entries ----

  /** What the reader keeps of an entry behind its first opening quote. */
  function EntryText(first: string, kept: string): string {
    "{ " + first + ": " + ("\"" + TrimRight(kept))
  }

  function EntryStart(first: string): string {
    "  - { " + first + ": "
  }

  lemma EntryStep(s: State, first: string, behind: string)
    requires s.section == NodeSection || s.section == LinkSection
    requires first == "id" || first == "from"
    ensures var fields := (fields: Fields) => FlowMapping(fields, EntryText(first, Keep('"', '"', behind)));
            Step(s, EntryStart(first) + ("\"" + behind)) ==
            if Flush(s).Err? then Err(Flush(s).error)
            else if fields(Flush(s).value.fields).None? then Err(FieldError(s.section))
            else Ok(Flush(s).value.(entrySection := s.section, fields := fields(Flush(s).value.fields).value,
                                    hasEntry := true))
  {
    hide Keep, Flush, FlowMapping, TrimLeft, TrimRight, EntryStart, Unmarked;
    var p := Keep('"', '"', behind);
    var line := EntryStart(first) + ("\"" + p);
    EntryPrefix(first);
    KeepOpens(EntryStart(first), behind);
    IndentedTwo(line);
    var content := line[2..];
    var word := "{ " + first + ": ";
    EntryParts(first, "\"" + p);
    assert word + ("\"" + p) == (word + "\"") + p;
    TrimLeftOne(word + ("\"" + p));
    TrimRightKeeps(word + "\"", p);
    assert (word + "\"") + TrimRight(p) == EntryText(first, p);
  }

  lemma EntryParts(first: string, rest: string)
    ensures (EntryStart(first) + rest)[2..] == "- { " + first + ": " + rest
    ensures (EntryStart(first) + rest)[2..][0] == '-'
    ensures (EntryStart(first) + rest)[2..][1..] == [' '] + ("{ " + first + ": " + rest)
  {
  }

  lemma EntryPrefix(first: string)
    requires first == "id" || first == "from"
    ensures Unmarked(EntryStart(first)) && |EntryStart(first)| > 2
    ensures EntryStart(first)[0] == ' ' && EntryStart(first)[1] == ' ' && EntryStart(first)[2] == '-'
  {
  }

  // ---- the first field of an entry ----

  /** Fields that are there stay as they are. */
  lemma {:induction false} FieldsStay(fields: Fields, pieces: seq<string>, key: string)
    requires key in fields
    ensures var all := AddFields(fields, pieces);
            all.Some? ==> key in all.value && all.value[key] == fields[key]
  {
    hide SplitField;
    if pieces != [] {
      FieldsStay(fields, pieces[..|pieces| - 1], key);
    }
  }

  lemma {:induction false} AddFieldsFront(fields: Fields, first: string, pieces: seq<string>)
    ensures AddFields(fields, [first] + pieces) ==
            if AddField(fields, first).None? then None else AddFields(AddField(fields, first).value, pieces)
    decreases |pieces|
  {
    hide AddField;
    var all := [first] + pieces;
    if pieces == [] {
      assert all[..0] == [] && all == [first];
    } else {
      AddFieldsFront(fields, first, pieces[..|pieces| - 1]);
      assert all[..|all| - 1] == [first] + pieces[..|pieces| - 1];
    }
  }

  /** What is before the first comma of an entry. */
  function FirstText(first: string, text: string): (r: string)
    ensures r <= text && ',' !in r
  {
    var at := IndexOf(text, ',');
    if at.None? then text else text[..at.value]
  }

  /** The value the reader gives an entry's first field: cut from the text behind the quote, before a comma. */
  lemma FirstFieldIsCut(first: string, kept: string)
    requires first == "id" || first == "from"
    ensures var fields := FlowMapping(map[], EntryText(first, kept));
            fields.Some? ==> first in fields.value && CutFrom(fields.value[first], kept) && ',' !in fields.value[first]
  {
    hide TrimRight, Pieces, AddFields, AddField, CutFrom;
    var t := TrimRight(kept);
    var entry := EntryText(first, kept);
    assert entry[|entry| - 1] == if t == [] then '"' else t[|t| - 1];
    if FlowMapping(map[], entry).Some? {
      var inner := " " + first + ": \"";
      var r0 := t[..|t| - 1];
      assert entry[1..|entry| - 1] == inner + r0;
      FirstKey(first);
      FirstPiece(inner, r0, ',');
      var r := FirstText(first, r0);
      var pieces := Pieces(inner + r0, ',');
      assert pieces[0] == inner + r;
      assert pieces == [inner + r] + pieces[1..];
      AddFieldsFront(map[], inner + r, pieces[1..]);
      FirstValue(first, r);
      FieldsStay(AddField(map[], inner + r).value, pieces[1..], first);
      CutFromLonger(AddField(map[], inner + r).value[first], r, kept);
    }
  }

  /** The value of the first field, from the text before the first comma. */
  lemma FirstValue(first: string, r: string)
    requires (first == "id" || first == "from") && ',' !in r
    ensures var fields := AddField(map[], " " + first + ": \"" + r);
            fields.Some? ==> first in fields.value && CutFrom(fields.value[first], r) && ',' !in fields.value[first]
  {
    hide Unquoted, Trim, CutFrom, SplitField;
    FirstKey(first);
    assert " " + first + ": \"" + r == Blank(true) + first + [':'] + (" \"" + r);
    SplitsAt(first, true, " \"" + r);
    OpenQuote(r);
    var value := Unquoted(Trim(" \"" + r));
    if value.Some? {
      CutWithin(value.value, r);
    }
  }

  lemma FirstKey(first: string)
    requires first == "id" || first == "from"
    ensures first != [] && ':' !in first && !IsBlank(first[0]) && !IsBlank(first[|first| - 1])
    ensures ',' !in (" " + first + ": \"")
  {
  }

  lemma CutWithin(value: string, text: string)
    requires CutFrom(value, text) && ',' !in text
    ensures ',' !in value
  {
    assert forall i | 0 <= i < |value| :: value[i] == text[..|value|][i] == text[i];
  }

  /** A longer cut than the printed text is not that text. */
  lemma CutIsOwn(s: string, kept: string, rest: string)
    requires kept <= TopologyYaml.Escaped(s) + ("\"" + rest) && CutFrom(s, kept)
    ensures Plain(s)
  {
    CutFromLonger(s, kept, TopologyYaml.Escaped(s) + ("\"" + rest));
    CutIsPlain(s, rest);
  }

  // ---- entries that come back ----

  /** An id that needs no unescaping and is no separator. */
  predicate Simple(id: string) {
    Plain(id) && ',' !in id && id != []
  }

  /** What stays of a node's line behind its id. */
  function NodeTail(kind: NodeKind): string {
    ", type: " + KindName(kind) + " }"
  }

  /** Plain text behind a quote, and unmarked text behind it, is kept and not trimmed. */
  lemma KeptWhole(s: string, tail: string)
    requires Plain(s) && Unmarked(tail) && tail != [] && !IsBlank(tail[|tail| - 1])
    ensures Keep('"', '"', TopologyYaml.Escaped(s) + ("\"" + tail)) == s + ("\"" + tail)
    ensures TrimRight(s + ("\"" + tail)) == s + ("\"" + tail)
  {
    hide Keep;
    EscapedPlain(s);
    KeepInside('"', s, "\"" + tail);
    KeepCloses(LastOf('"', s), tail);
    KeepUnmarked('"', tail, "");
    NothingKept(LastOf('"', tail), NO_QUOTE);
    assert tail + "" == tail;
    var all := s + ("\"" + tail);
    TrimRightKeeps(all, "");
    OneBlank();
    assert all + "" == all;
  }

  lemma NodeTailUnmarked(kind: NodeKind)
    ensures Unmarked(NodeTail(kind)) && NodeTail(kind) != [] && NodeTail(kind)[|NodeTail(kind)| - 1] == '}'
  {
  }

  lemma TwoPieces(a: string, b: string)
    requires ',' !in a && ',' !in b && b != []
    ensures Pieces(a + "," + b, ',') == [a] + [b]
  {
    PiecesCons(a, ',', b);
    PiecesOne(b, ',');
  }

  lemma OneField(fields: Fields, key: string, lead: bool, value: string, tail: bool)
    requires key != [] && ':' !in key && !IsBlank(key[0]) && !IsBlank(key[|key| - 1])
    requires value != [] && !IsBlank(value[0]) && !IsBlank(value[|value| - 1]) && Unquoted(value).Some?
    requires key !in fields
    ensures AddField(fields, Blank(lead) + key + [':'] + ([' '] + (value + Blank(tail))))
            == Some(fields[key := Unquoted(value).value])
  {
    hide SplitField, Unquoted;
    SplitsField(key, lead, value, tail);
  }

  lemma NoFields(fields: Fields)
    ensures AddFields(fields, []) == Some(fields)
  {
  }

  lemma KindFields(kind: NodeKind)
    ensures Unquoted(KindName(kind)) == Some(KindName(kind)) && !IsBlank(KindName(kind)[0])
    ensures !IsBlank(KindName(kind)[|KindName(kind)| - 1]) && "type" != "id"
    ensures ',' !in Printed("type", KindName(kind), true) && Printed("type", KindName(kind), true) != []
  {
    assert |"type"| == 4 && |"id"| == 2;
  }

  /** A printed field, with its key known. */
  function Printed(key: string, value: string, tail: bool): string {
    Blank(true) + key + [':'] + ([' '] + (value + Blank(tail)))
  }

  lemma QuoteThen(s: string, tail: string)
    ensures "\"" + (s + ("\"" + tail)) == ("\"" + s + "\"") + tail
  {
  }

  lemma Braced(a: string, b: string)
    ensures ("{" + a) + ("," + b + "}") == "{" + (a + "," + b) + "}"
    ensures var all := "{" + (a + "," + b) + "}";
            all[0] == '{' && all[|all| - 1] == '}' && all[1..|all| - 1] == a + "," + b
  {
  }

  lemma FirstPrinted(key: string, value: string)
    ensures ("{ " + key + ": ") + value == "{" + Printed(key, value, false)
  {
    assert value + "" == value;
  }

  lemma NodeTailIs(kind: NodeKind)
    ensures NodeTail(kind) == "," + Printed("type", KindName(kind), true) + "}"
  {
  }

  /** The text of a printed node between its braces. */
  lemma NodeEntry(node: Node)
    requires Simple(node.id)
    ensures var entry := EntryText("id", node.id + ("\"" + NodeTail(node.kind)));
            && |entry| >= 2 && entry[0] == '{' && entry[|entry| - 1] == '}'
            && entry[1..|entry| - 1]
               == Printed("id", YamlQuote(node.id), false) + "," + Printed("type", KindName(node.kind), true)
  {
    hide TrimRight, TopologyYaml.Escaped, Printed, NodeTail, KindName, Plain;
    var tail, q := NodeTail(node.kind), "\"" + node.id + "\"";
    var first, second := Printed("id", q, false), Printed("type", KindName(node.kind), true);
    NodeTailUnmarked(node.kind);
    KeptWhole(node.id, tail);
    EscapedPlain(node.id);
    QuoteThen(node.id, tail);
    Assoc("{ " + "id" + ": ", q, tail);
    FirstPrinted("id", q);
    NodeTailIs(node.kind);
    Braced(first, second);
  }

  /** The fields of a printed node. */
  lemma NodeMapping(node: Node)
    requires Simple(node.id)
    ensures var entry := EntryText("id", node.id + ("\"" + NodeTail(node.kind)));
            FlowMapping(map[], entry) == Some(map["id" := node.id, "type" := KindName(node.kind)])
  {
    hide EntryText, Pieces, AddFields, Printed, TopologyYaml.Escaped, KindName, NodeTail, Simple;
    var id, kind := node.id, KindName(node.kind);
    var first, second := Printed("id", YamlQuote(id), false), Printed("type", kind, true);
    NodeEntry(node);
    KindFields(node.kind);
    FirstHasNoComma(id);
    TwoPieces(first, second);
    AddFieldsFront(map[], first, [second]);
    AddFieldsFront(map["id" := id], second, []);
    assert [second] + [] == [second];
    NoFields(map["id" := id]["type" := kind]);
    PrintedField(map[], "id", id);
    OneField(map["id" := id], "type", true, kind, true);
    PrintedIs("type", kind, true);
    assert map["id" := id]["type" := kind] == map["id" := id, "type" := kind];
  }

  lemma PrintedIs(key: string, value: string, tail: bool)
    ensures Printed(key, value, tail) == Blank(true) + key + [':'] + ([' '] + (value + Blank(tail)))
  {
  }

  /** A printed string field adds the string. */
  lemma PrintedField(fields: Fields, key: string, s: string)
    requires key in {"id", "from", "to"} && key !in fields && Simple(s)
    ensures AddField(fields, Printed(key, YamlQuote(s), false)) == Some(fields[key := s])
  {
    hide Unquoted, AddField, TopologyYaml.Escaped;
    UnquotesBack(s);
    QuoteIsNoBlank(s);
    OneField(fields, key, true, YamlQuote(s), false);
  }

  lemma QuoteIsNoBlank(s: string)
    ensures YamlQuote(s) != [] && YamlQuote(s)[0] == '"' && YamlQuote(s)[|YamlQuote(s)| - 1] == '"'
  {
  }

  lemma FirstHasNoComma(id: string)
    requires Simple(id)
    ensures ',' !in Printed("id", YamlQuote(id), false) && ',' !in Printed("from", YamlQuote(id), false)
    ensures ',' !in Printed("to", YamlQuote(id), false)
  {
    EscapedPlain(id);
  }

  lemma NodeBack(node: Node)
    ensures NodeOf(map["id" := node.id, "type" := KindName(node.kind)]) == Ok(node)
  {
    var fields := map["id" := node.id, "type" := KindName(node.kind)];
    assert |"type"| == 4 && |"id"| == 2 && |"host"| == 4 && |"switch"| == 6;
    assert fields.Keys == {"id", "type"};
    assert |fields| == |fields.Keys|;
  }

  // ---- links ----

  function LinkTail(link: Link): string
    requires link.latency >= 0
  {
    ", to: " + (YamlQuote(link.to) + (", latency_ms: " + Decimal(link.latency) + " }"))
  }

  lemma DigitsUnmarked(n: nat)
    ensures Unmarked(", latency_ms: " + Decimal(n) + " }") && Unmarked(", to: ")
    ensures ',' !in Printed("latency_ms", Decimal(n), true) && Printed("latency_ms", Decimal(n), true) != []
    ensures !IsBlank(Decimal(n)[0]) && !IsBlank(Decimal(n)[|Decimal(n)| - 1])
            && Unquoted(Decimal(n)) == Some(Decimal(n))
  {
    var d := Decimal(n);
    assert forall i | 0 <= i < |d| :: IsDigit(d[i]);
  }

  lemma LinkKept(link: Link)
    requires Plain(link.from) && Plain(link.to) && link.latency >= 0
    ensures var kept := link.from + ("\"" + LinkTail(link));
            Keep('"', '"', TopologyYaml.Escaped(link.from) + ("\"" + LinkTail(link))) == kept && TrimRight(kept) == kept
  {
    hide Keep, TopologyYaml.Escaped, Decimal, TrimRight;
    var rest := ", latency_ms: " + Decimal(link.latency) + " }";
    var tail := LinkTail(link);
    DigitsUnmarked(link.latency);
    EscapedPlain(link.from);
    KeepInside('"', link.from, "\"" + tail);
    KeepCloses(LastOf('"', link.from), tail);
    KeepUnmarked('"', ", to: ", YamlQuote(link.to) + rest);
    KeepQuoted(' ', link.to, rest);
    KeepUnmarked('"', rest, "");
    NothingKept(LastOf('"', rest), NO_QUOTE);
    assert rest + "" == rest;
    var all := link.from + ("\"" + tail);
    assert all[|all| - 1] == '}';
    TrimRightKeeps(all, "");
    OneBlank();
    assert all + "" == all;
  }

  lemma LinkTailIs(link: Link)
    requires link.latency >= 0
    ensures LinkTail(link)
            == "," + (Printed("to", YamlQuote(link.to), false) + ","
                      + Printed("latency_ms", Decimal(link.latency), true)) + "}"
  {
    hide YamlQuote, Decimal, Printed;
    var q, d := YamlQuote(link.to), Decimal(link.latency);
    var to, latency := Printed("to", q, false), Printed("latency_ms", d, true);
    ToPrinted(q);
    LatencyPrinted(d);
    Assoc(", to: ", q, ", latency_ms: " + d + " }");
    Assoc(",", to, "," + latency);
    Assoc("," + to, "," + latency, "}");
  }

  lemma ToPrinted(q: string)
    ensures "," + Printed("to", q, false) == ", to: " + q
  {
    assert q + "" == q;
  }

  lemma LatencyPrinted(d: string)
    ensures "," + Printed("latency_ms", d, true) + "}" == ", latency_ms: " + d + " }"
  {
  }

  lemma LinkEntry(link: Link)
    requires Simple(link.from) && Simple(link.to) && link.latency >= 0
    ensures var entry := EntryText("from", link.from + ("\"" + LinkTail(link)));
            && |entry| >= 2 && entry[0] == '{' && entry[|entry| - 1] == '}'
            && entry[1..|entry| - 1]
               == Printed("from", YamlQuote(link.from), false) + ","
                  + (Printed("to", YamlQuote(link.to), false) + ","
                     + Printed("latency_ms", Decimal(link.latency), true))
  {
    hide TrimRight, TopologyYaml.Escaped, Printed, LinkTail, Decimal, Plain;
    var tail, q := LinkTail(link), "\"" + link.from + "\"";
    LinkKept(link);
    EscapedPlain(link.from);
    QuoteThen(link.from, tail);
    Assoc("{ " + "from" + ": ", q, tail);
    FirstPrinted("from", q);
    LinkTailIs(link);
    Braced(Printed("from", q, false),
           Printed("to", YamlQuote(link.to), false) + "," + Printed("latency_ms", Decimal(link.latency), true));
  }

  lemma LinkKeys()
    ensures "from" != "to" && "from" != "latency_ms" && "to" != "latency_ms"
    ensures !IsBlank("latency_ms"[0]) && !IsBlank("latency_ms"[|"latency_ms"| - 1]) && ':' !in "latency_ms"
  {
    assert |"from"| == 4 && |"to"| == 2 && |"latency_ms"| == 10;
  }

  function LinkFields(link: Link): Fields
    requires link.latency >= 0
  {
    map["from" := link.from]["to" := link.to]["latency_ms" := Decimal(link.latency)]
  }

  lemma LinkMapping(link: Link)
    requires Simple(link.from) && Simple(link.to) && link.latency >= 0
    ensures FlowMapping(map[], EntryText("from", link.from + ("\"" + LinkTail(link)))) == Some(LinkFields(link))
  {
    hide EntryText, Pieces, AddFields, AddField, Printed, TopologyYaml.Escaped, LinkTail, Simple, Decimal;
    var from, to := Printed("from", YamlQuote(link.from), false), Printed("to", YamlQuote(link.to), false);
    var latency := Printed("latency_ms", Decimal(link.latency), true);
    LinkEntry(link);
    LinkKeys();
    DigitsUnmarked(link.latency);
    FirstHasNoComma(link.from);
    FirstHasNoComma(link.to);
    TwoPieces(to, latency);
    PiecesCons(from, ',', to + "," + latency);
    AddFieldsFront(map[], from, [to] + [latency]);
    AddFieldsFront(map["from" := link.from], to, [latency]);
    AddFieldsFront(map["from" := link.from]["to" := link.to], latency, []);
    assert [latency] + [] == [latency];
    NoFields(LinkFields(link));
    PrintedField(map[], "from", link.from);
    PrintedField(map["from" := link.from], "to", link.to);
    OneField(map["from" := link.from]["to" := link.to], "latency_ms", true, Decimal(link.latency), true);
    PrintedIs("latency_ms", Decimal(link.latency), true);
  }

  lemma LinkBack(link: Link)
    requires 0 <= link.latency <= Words.MAX_I64
    ensures LinkOf(LinkFields(link)) == Ok(link)
  {
    hide Decimal, Value;
    var fields := LinkFields(link);
    LinkKeys();
    assert fields.Keys == {"from", "to", "latency_ms"};
    assert |fields| == |fields.Keys|;
    DecimalValue(link.latency);
  }

  // ---- whole sections ----

  lemma {:induction false} FoldConcat(s: State, a: seq<string>, b: seq<string>)
    ensures Fold(s, a + b) == if Fold(s, a).Err? then Fold(s, a) else Fold(Fold(s, a).value, b)
    decreases |b|
  {
    hide Step;
    if b == [] {
      assert a + b == a;
    } else {
      FoldConcat(s, a, b[..|b| - 1]);
      assert (a + b)[..|a + b| - 1] == a + b[..|b| - 1];
    }
  }

  lemma FoldFront(s: State, line: string, rest: seq<string>)
    ensures Fold(s, [line] + rest) == if Step(s, line).Err? then Step(s, line) else Fold(Step(s, line).value, rest)
  {
    hide Step;
    FoldConcat(s, [line], rest);
    assert [line][..0] == [];
  }

  lemma FoldNothing(s: State)
    ensures Fold(s, []) == Ok(s)
  {
  }

  /** Nothing but the list of entries, and which section they were in, may differ. */
  predicate SameFrame(a: State, b: State) {
    && a.section == b.section && a.name == b.name && !a.hasEntry && a.fields == map[]
    && a.hasNetwork == b.hasNetwork && a.hasNodes == b.hasNodes && a.hasLinks == b.hasLinks
  }

  /** The state once the entry that is open is finished. */
  function Done(s: State, lines: seq<string>): Result<State, YamlError> {
    var r :- Fold(s, lines);
    Flush(r)
  }

  predicate Untouched(id: string) {
    Plain(id) && ',' !in id
  }

  lemma NodeLineIsEntry(node: Node)
    ensures NodeLine(node) == EntryStart("id") + ("\"" + (TopologyYaml.Escaped(node.id) + ("\"" + NodeTail(node.kind))))
  {
    hide TopologyYaml.Escaped, KindName;
  }

  lemma LinkLineIsEntry(link: Link)
    requires link.latency >= 0
    ensures LinkLine(link) == EntryStart("from") + ("\"" + (TopologyYaml.Escaped(link.from) + ("\"" + LinkTail(link))))
  {
    hide TopologyYaml.Escaped, Decimal;
    var e, q, d := TopologyYaml.Escaped(link.from), YamlQuote(link.to), Decimal(link.latency);
    assert LinkLine(link) == "  - { from: " + ("\"" + e + "\"") + ", to: " + q + ", latency_ms: " + d + " }";
    assert "  - { from: " + ("\"" + e + "\"") + ", to: " + q + ", latency_ms: " + d + " }"
        == "  - { from: " + ("\"" + (e + ("\"" + (", to: " + (q + (", latency_ms: " + d + " }"))))));
  }

  /** One more node: the entry before it is finished, and its own id is what was cut from the line. */
  lemma NodeRead(u: State, node: Node)
    requires u.section == NodeSection && (Flush(u).Ok? ==> Flush(u).value.fields == map[])
    ensures var next := Step(u, NodeLine(node));
            && (next.Ok? ==> next.value.section == NodeSection && Flush(u).Ok?)
            && (next.Ok? && Flush(next.value).Ok? ==>
                  var before, after := Flush(u).value, Flush(next.value).value;
                  && SameFrame(after, before) && after.links == before.links && |after.nodes| == |before.nodes| + 1
                  && after.nodes[..|before.nodes|] == before.nodes
                  && (after.nodes[|before.nodes|].id == node.id ==> Untouched(node.id)))
            && (Flush(u).Ok? && Simple(node.id) ==>
                  next.Ok? && Flush(next.value).Ok? && Flush(next.value).value.nodes == Flush(u).value.nodes + [node])
  {
    hide Step, Keep, FlowMapping, EntryText, TopologyYaml.Escaped, NodeLine, NodeTail, KindName;
    var tail := "\"" + NodeTail(node.kind);
    var behind := TopologyYaml.Escaped(node.id) + tail;
    var kept := Keep('"', '"', behind);
    NodeLineIsEntry(node);
    EntryStep(u, "id", behind);
    FirstFieldIsCut("id", kept);
    var fields := FlowMapping(map[], EntryText("id", kept));
    if fields.Some? && fields.value["id"] == node.id {
      CutIsOwn(node.id, kept, NodeTail(node.kind));
    }
    if Simple(node.id) {
      NodeTailUnmarked(node.kind);
      KeptWhole(node.id, NodeTail(node.kind));
      NodeMapping(node);
      NodeBack(node);
    }
  }

  /** What reading the lines of some nodes does: only untouched ids come back, and simple ones do. */
  ghost predicate NodesRead(s: State, nodes: seq<Node>, done: Result<State, YamlError>) {
    && (done.Ok? ==> NodesAdded(s, nodes, done.value))
    && ((forall i | 0 <= i < |nodes| :: Simple(nodes[i].id)) ==> done.Ok? && done.value.nodes == s.nodes + nodes)
  }

  predicate NodesAdded(s: State, nodes: seq<Node>, end: State) {
    && SameFrame(end, s) && end.links == s.links && |end.nodes| == |s.nodes| + |nodes|
    && forall i | 0 <= i < |nodes| :: end.nodes[|s.nodes| + i].id == nodes[i].id ==> Untouched(nodes[i].id)
  }

  lemma {:induction false} NodesFolded(s: State, nodes: seq<Node>)
    requires s.section == NodeSection && !s.hasEntry && s.fields == map[]
    ensures Fold(s, NodeLines(nodes)).Ok? ==> Fold(s, NodeLines(nodes)).value.section == NodeSection
    ensures NodesRead(s, nodes, Done(s, NodeLines(nodes)))
    decreases |nodes|
  {
    hide Step, NodeLine, Flush, NodesRead;
    var lines := NodeLines(nodes);
    if nodes == [] {
      assert lines == [];
      FlushNothing(s);
      NoNodesRead(s);
    } else {
      var front, last := nodes[..|nodes| - 1], nodes[|nodes| - 1];
      NodesFolded(s, front);
      assert lines[..|lines| - 1] == NodeLines(front);
      assert nodes == front + [last];
      var r := Fold(s, NodeLines(front));
      if r.Ok? {
        NodesReadMeans(s, front, Flush(r.value));
        NodeRead(r.value, last);
        OneMoreRead(s, front, last, r.value);
      } else {
        NodesFailed(s, front, last, r.error);
      }
    }
  }

  lemma NodesReadMeans(s: State, nodes: seq<Node>, done: Result<State, YamlError>)
    requires NodesRead(s, nodes, done)
    ensures done.Ok? ==> done.value.fields == map[]
  {
  }

  lemma NoNodesRead(s: State)
    requires !s.hasEntry && s.fields == map[]
    ensures NodesRead(s, [], Ok(s))
  {
    assert s.nodes + [] == s.nodes;
  }

  lemma SimpleFront(front: seq<Node>, last: Node)
    ensures (forall i | 0 <= i < |front + [last]| :: Simple((front + [last])[i].id)) ==>
              (forall i | 0 <= i < |front| :: Simple(front[i].id)) && Simple(last.id)
  {
    hide Simple;
    assert (front + [last])[|front|] == last;
    assert forall i | 0 <= i < |front| :: (front + [last])[i] == front[i];
  }

  lemma NodesFailed(s: State, front: seq<Node>, last: Node, error: YamlError)
    requires NodesRead(s, front, Err(error))
    ensures NodesRead(s, front + [last], Err(error))
  {
    hide Simple;
    SimpleFront(front, last);
  }

  lemma OneMoreRead(s: State, front: seq<Node>, last: Node, u: State)
    requires NodesRead(s, front, Flush(u))
    requires var next := Step(u, NodeLine(last));
            && (next.Ok? ==> Flush(u).Ok?)
            && (next.Ok? && Flush(next.value).Ok? ==>
                  var before, after := Flush(u).value, Flush(next.value).value;
                  && SameFrame(after, before) && after.links == before.links && |after.nodes| == |before.nodes| + 1
                  && after.nodes[..|before.nodes|] == before.nodes
                  && (after.nodes[|before.nodes|].id == last.id ==> Untouched(last.id)))
            && (Flush(u).Ok? && Simple(last.id) ==>
                  next.Ok? && Flush(next.value).Ok? && Flush(next.value).value.nodes == Flush(u).value.nodes + [last])
    ensures var next := Step(u, NodeLine(last));
            NodesRead(s, front + [last], if next.Err? then Err(next.error) else Flush(next.value))
  {
    hide Step, NodeLine, Flush, Simple, Untouched;
    var nodes, next := front + [last], Step(u, NodeLine(last));
    SimpleFront(front, last);
    if next.Ok? && Flush(next.value).Ok? {
      var before, after := Flush(u).value, Flush(next.value).value;
      forall i | 0 <= i < |nodes|
        ensures after.nodes[|s.nodes| + i].id == nodes[i].id ==> Untouched(nodes[i].id)
      {
        if i < |front| {
          assert after.nodes[..|before.nodes|][|s.nodes| + i] == before.nodes[|s.nodes| + i];
        }
      }
    }
    assert s.nodes + front + [last] == s.nodes + nodes;
  }

  lemma FlushNothing(s: State)
    requires !s.hasEntry
    ensures Flush(s) == Ok(s)
  {
  }

  predicate GoodLink(link: Link) {
    Simple(link.from) && Simple(link.to) && 0 <= link.latency <= Words.MAX_I64
  }

  lemma LinkRead(u: State, link: Link)
    requires u.section == LinkSection && Flush(u).Ok? && Flush(u).value.fields == map[] && GoodLink(link)
    ensures var next := Step(u, LinkLine(link));
            && next.Ok? && next.value.section == LinkSection && Flush(next.value).Ok?
            && SameFrame(Flush(next.value).value, Flush(u).value)
            && Flush(next.value).value.nodes == Flush(u).value.nodes
            && Flush(next.value).value.links == Flush(u).value.links + [link]
  {
    hide Step, Keep, FlowMapping, EntryText, TopologyYaml.Escaped, LinkLine, LinkTail, LinkFields;
    LinkLineIsEntry(link);
    EntryStep(u, "from", TopologyYaml.Escaped(link.from) + ("\"" + LinkTail(link)));
    LinkKept(link);
    LinkMapping(link);
    LinkBack(link);
  }

  lemma {:induction false} LinksFolded(s: State, links: seq<Link>)
    requires s.section == LinkSection && !s.hasEntry && s.fields == map[]
    requires forall i | 0 <= i < |links| :: GoodLink(links[i])
    ensures var r, done := Fold(s, LinkLines(links)), Done(s, LinkLines(links));
            && r.Ok? && r.value.section == LinkSection && done.Ok?
            && SameFrame(done.value, s) && done.value.nodes == s.nodes && done.value.links == s.links + links
    decreases |links|
  {
    hide Step, LinkLine, Flush, GoodLink;
    var lines := LinkLines(links);
    if links == [] {
      assert lines == [];
      FlushNothing(s);
      assert s.links + links == s.links;
    } else {
      var front, last := links[..|links| - 1], links[|links| - 1];
      LinksFolded(s, front);
      assert lines[..|lines| - 1] == LinkLines(front);
      LinkRead(Fold(s, LinkLines(front)).value, last);
      assert s.links + front + [last] == s.links + links;
    }
  }

  // ---- the whole file ----

  const NETWORK_STATE := START.(section := NetworkSection, hasNetwork := true)

  lemma NetworkLine()
    ensures Step(START, "network:") == Ok(NETWORK_STATE)
  {
    SectionLines();
    WordLine(START, "network:");
  }

  lemma NodesHeader(s: State)
    requires !s.hasEntry && !s.hasNodes
    ensures Step(s, "nodes:") == Ok(s.(section := NodeSection, hasNodes := true))
  {
    SectionLines();
    WordLine(s, "nodes:");
    FlushNothing(s);
  }

  lemma LinksHeader(s: State)
    requires Flush(s).Ok? ==> !Flush(s).value.hasLinks
    ensures Step(s, "links:") ==
            if Flush(s).Err? then Err(Flush(s).error) else Ok(Flush(s).value.(section := LinkSection, hasLinks := true))
  {
    hide Flush;
    SectionLines();
    WordLine(s, "links:");
  }

  /** The lines above the nodes set the name, if it can be read. */
  lemma HeadFolded(name: string)
    ensures Fold(START, ["network:", NameLine(name), "", "nodes:"]) ==
            if NameRead(name).None? then Err(InvalidNetworkField)
            else Ok(NETWORK_STATE.(name := NameRead(name), section := NodeSection, hasNodes := true))
  {
    hide Step, NameLine, NameRead, Fold;
    NetworkLine();
    NameStep(NETWORK_STATE, name);
    FoldFront(START, "network:", [NameLine(name), "", "nodes:"]);
    FoldFront(NETWORK_STATE, NameLine(name), ["", "nodes:"]);
    assert ["network:"] + [NameLine(name), "", "nodes:"] == ["network:", NameLine(name), "", "nodes:"];
    assert [NameLine(name)] + ["", "nodes:"] == [NameLine(name), "", "nodes:"];
    if NameRead(name).Some? {
      var named := NETWORK_STATE.(name := NameRead(name));
      EmptyLine(named);
      NodesHeader(named);
      FoldFront(named, "", ["nodes:"]);
      FoldFront(named, "nodes:", []);
      FoldNothing(named.(section := NodeSection, hasNodes := true));
      assert [""] + ["nodes:"] == ["", "nodes:"] && ["nodes:"] + [] == ["nodes:"];
    }
  }

  /** The lines between nodes and links finish the last node. */
  lemma MiddleFolded(s: State)
    requires Flush(s).Ok? ==> !Flush(s).value.hasLinks
    ensures Fold(s, ["", "links:"]) ==
            if Flush(s).Err? then Err(Flush(s).error) else Ok(Flush(s).value.(section := LinkSection, hasLinks := true))
  {
    hide Step, Flush;
    EmptyLine(s);
    LinksHeader(s);
    FoldFront(s, "", ["links:"]);
    FoldFront(s, "links:", []);
    assert [""] + ["links:"] == ["", "links:"] && ["links:"] + [] == ["links:"];
    if Flush(s).Ok? {
      FoldNothing(Flush(s).value.(section := LinkSection, hasLinks := true));
    }
  }

  /** Whatever its strings are, a printed link adds to the links at most. */
  lemma LinkKeeps(u: State, link: Link)
    requires u.section == LinkSection && link.latency >= 0
    ensures var next := Step(u, LinkLine(link));
            && (next.Ok? ==> next.value.section == LinkSection && Flush(u).Ok?)
            && (next.Ok? && Flush(next.value).Ok? ==>
                  var before, after := Flush(u).value, Flush(next.value).value;
                  SameFrame(after, before) && after.nodes == before.nodes)
  {
    hide Step, Keep, FlowMapping, EntryText, TopologyYaml.Escaped, LinkLine, LinkTail;
    LinkLineIsEntry(link);
    EntryStep(u, "from", TopologyYaml.Escaped(link.from) + ("\"" + LinkTail(link)));
  }

  lemma {:induction false} LinksKeep(s: State, links: seq<Link>)
    requires s.section == LinkSection && !s.hasEntry && s.fields == map[]
    requires forall i | 0 <= i < |links| :: links[i].latency >= 0
    ensures Fold(s, LinkLines(links)).Ok? ==> Fold(s, LinkLines(links)).value.section == LinkSection
    ensures Done(s, LinkLines(links)).Ok? ==>
              SameFrame(Done(s, LinkLines(links)).value, s) && Done(s, LinkLines(links)).value.nodes == s.nodes
    decreases |links|
  {
    hide Step, LinkLine, Flush;
    var lines := LinkLines(links);
    if links == [] {
      assert lines == [];
      FlushNothing(s);
    } else {
      var front, last := links[..|links| - 1], links[|links| - 1];
      LinksKeep(s, front);
      assert lines[..|lines| - 1] == LinkLines(front);
      if Fold(s, LinkLines(front)).Ok? {
        LinkKeeps(Fold(s, LinkLines(front)).value, last);
      }
    }
  }

  /** Links between nodes of a topology. */
  predicate LinksKnown(c: Configuration) {
    forall i | 0 <= i < |c.links| ::
      0 <= c.links[i].latency <= Words.MAX_I64 && c.links[i].from in Ids(c.nodes) && c.links[i].to in Ids(c.nodes)
  }

  predicate AllUntouched(nodes: seq<Node>) {
    forall i | 0 <= i < |nodes| :: Untouched(nodes[i].id)
  }

  lemma LinksGood(c: Configuration)
    requires LinksKnown(c) && AllUntouched(c.nodes) && forall i | 0 <= i < |c.nodes| :: c.nodes[i].id != []
    ensures forall i | 0 <= i < |c.links| :: GoodLink(c.links[i])
  {
  }

  /** What reading the links and finishing gives, from the state behind the nodes. */
  lemma LinksFinished(s: State, c: Configuration)
    requires s.section == LinkSection && !s.hasEntry && s.fields == map[] && s.links == []
    requires s.hasNetwork && s.hasNodes && s.hasLinks && s.name.Some?
    requires LinksKnown(c) && forall i | 0 <= i < |c.nodes| :: c.nodes[i].id != []
    ensures var r := Fold(s, LinkLines(c.links));
            var read := if r.Err? then Err(r.error) else Finish(r.value);
            && (read.Ok? ==> read.value.name == s.name.value && read.value.nodes == s.nodes)
            && (AllUntouched(c.nodes) && s.name.value == c.name && s.nodes == c.nodes ==> read == Ok(c))
  {
    hide LinkLines, Flush, GoodLink, Fold;
    LinksKeep(s, c.links);
    if AllUntouched(c.nodes) {
      LinksGood(c);
      LinksFolded(s, c.links);
      assert [] + c.links == c.links;
    }
  }

  /** Reading the printed lines: what is read is what was printed exactly when nothing had to be unescaped. */
  lemma LinesRead(c: Configuration)
    requires LinksKnown(c) && c.name != [] && forall i | 0 <= i < |c.nodes| :: c.nodes[i].id != []
    ensures var r := Fold(START, SavedLines(c));
            (if r.Err? then Err(r.error) else Finish(r.value)) == Ok(c) <==> Plain(c.name) && AllUntouched(c.nodes)
  {
    hide Step, Flush, NodeLines, LinkLines, NameLine, NameRead, NodesRead, Fold, AllUntouched, Plain, LinksKnown,
         Finish;
    var head, middle := ["network:", NameLine(c.name), "", "nodes:"], ["", "links:"];
    FoldConcat(START, head + NodeLines(c.nodes) + middle, LinkLines(c.links));
    FoldConcat(START, head + NodeLines(c.nodes), middle);
    FoldConcat(START, head, NodeLines(c.nodes));
    HeadFolded(c.name);
    NameReadExactly(c.name);
    if NameRead(c.name).Some? {
      var named := NETWORK_STATE.(name := NameRead(c.name), section := NodeSection, hasNodes := true);
      NodesFolded(named, c.nodes);
      SimpleNodes(c.nodes, named);
      var u := Fold(named, NodeLines(c.nodes));
      if u.Ok? {
        MiddleFolded(u.value);
        if Flush(u.value).Ok? {
          LinksFinished(Flush(u.value).value.(section := LinkSection, hasLinks := true), c);
        }
      }
    }
  }

  /** What `NodesRead` says of a state behind the name. */
  lemma SimpleNodes(nodes: seq<Node>, s: State)
    requires s.nodes == [] && forall i | 0 <= i < |nodes| :: nodes[i].id != []
    ensures forall done: Result<State, YamlError> | NodesRead(s, nodes, done) ::
              && (AllUntouched(nodes) ==> done.Ok? && done.value.nodes == nodes)
              && (done.Ok? ==> SameFrame(done.value, s) && done.value.links == s.links)
              && (done.Ok? && done.value.nodes == nodes ==> AllUntouched(nodes))
  {
    assert [] + nodes == nodes;
    forall done: Result<State, YamlError> | NodesRead(s, nodes, done)
      ensures done.Ok? && done.value.nodes == nodes ==> AllUntouched(nodes)
    {
      if done.Ok? && done.value.nodes == nodes {
        assert forall i | 0 <= i < |nodes| :: done.value.nodes[0 + i].id == nodes[i].id;
      }
    }
  }

  // ---- line breaks ----

  predicate Clean(s: string) {
    '\n' !in s
  }

  predicate CleanFields(fields: Fields) {
    forall key | key in fields :: Clean(fields[key])
  }

  predicate CleanState(s: State) {
    && (s.name.Some? ==> Clean(s.name.value))
    && (forall i | 0 <= i < |s.nodes| :: Clean(s.nodes[i].id))
    && CleanFields(s.fields)
  }

  lemma {:induction false} TrimClean(s: string)
    requires Clean(s)
    ensures Clean(TrimLeft(s)) && Clean(TrimRight(s))
    decreases |s|
  {
    if s != [] {
      TrimClean(s[1..]);
      TrimClean(s[..|s| - 1]);
    }
  }

  lemma TrimmedClean(s: string)
    requires Clean(s)
    ensures Clean(Trim(s))
  {
    TrimClean(s);
    TrimClean(TrimLeft(s));
  }

  lemma SplitClean(text: string)
    requires Clean(text)
    ensures SplitField(text).Some? ==> Clean(SplitField(text).value.1)
  {
    hide Trim;
    var at := IndexOf(text, ':');
    if at.Some? {
      TrimmedClean(text[at.value + 1..]);
    }
  }

  lemma {:induction false} PiecesClean(s: string, separator: char)
    requires Clean(s)
    ensures forall i | 0 <= i < |Pieces(s, separator)| :: Clean(Pieces(s, separator)[i])
    decreases |s|
  {
    var at := IndexOf(s, separator);
    if at.Some? {
      PiecesClean(s[at.value + 1..], separator);
    }
  }

  lemma {:induction false} LinesClean(s: string)
    ensures forall i | 0 <= i < |Pieces(s, '\n')| :: Clean(Pieces(s, '\n')[i])
    decreases |s|
  {
    var at := IndexOf(s, '\n');
    if at.Some? {
      LinesClean(s[at.value + 1..]);
    }
  }

  lemma {:induction false} AddClean(fields: Fields, pieces: seq<string>)
    requires CleanFields(fields) && forall i | 0 <= i < |pieces| :: Clean(pieces[i])
    ensures AddFields(fields, pieces).Some? ==> CleanFields(AddFields(fields, pieces).value)
  {
    hide SplitField, Clean;
    if pieces != [] {
      AddClean(fields, pieces[..|pieces| - 1]);
      SplitClean(pieces[|pieces| - 1]);
    }
  }

  lemma FlowClean(fields: Fields, input: string)
    requires CleanFields(fields) && Clean(input)
    ensures FlowMapping(fields, input).Some? ==> CleanFields(FlowMapping(fields, input).value)
  {
    hide Pieces, AddFields;
    if |input| >= 2 {
      PiecesClean(input[1..|input| - 1], ',');
      AddClean(fields, Pieces(input[1..|input| - 1], ','));
    }
  }

  lemma FlushClean(s: State)
    requires CleanState(s)
    ensures Flush(s).Ok? ==> CleanState(Flush(s).value)
  {
    hide Clean;
  }

  lemma StepClean(s: State, raw: string)
    requires CleanState(s) && Clean(raw)
    ensures Step(s, raw).Ok? ==> CleanState(Step(s, raw).value)
  {
    hide Flush, Trim, Keep, Indent, NewEntry, EntryField, NetworkField, TopLevel, CleanState;
    var line := WithoutComment(raw);
    var indent := Indent(line);
    var content := line[indent..];
    FlushClean(s);
    NetworkClean(s, indent, content);
    EntryFieldClean(s, indent, content);
    if content != [] {
      NewEntryClean(s, content);
    }
    if Flush(s).Ok? {
      TopLevelClean(Flush(s).value, content);
    }
  }

  lemma TopLevelClean(s: State, content: string)
    requires CleanState(s)
    ensures TopLevel(s, content).Ok? ==> CleanState(TopLevel(s, content).value)
  {
    hide Clean, CleanFields;
  }

  lemma NetworkClean(s: State, indent: nat, content: string)
    requires CleanState(s) && Clean(content)
    ensures NetworkField(s, indent, content).Ok? ==> CleanState(NetworkField(s, indent, content).value)
  {
    hide SplitField, CleanFields, Clean;
    SplitClean(content);
  }

  lemma EntryFieldClean(s: State, indent: nat, content: string)
    requires CleanState(s) && Clean(content)
    ensures EntryField(s, indent, content).Ok? ==> CleanState(EntryField(s, indent, content).value)
  {
    hide AddField, CleanFields, Clean;
    AddOneClean(s.fields, content);
  }

  lemma NewEntryClean(s: State, content: string)
    requires CleanState(s) && Clean(content) && content != []
    ensures NewEntry(s, content).Ok? ==> CleanState(NewEntry(s, content).value)
  {
    hide Flush, Trim, FlowMapping, CleanFields;
    FlushClean(s);
    TrimmedClean(content[1..]);
    if Flush(s).Ok? {
      FlowClean(Flush(s).value.fields, Trim(content[1..]));
    }
  }

  lemma AddOneClean(fields: Fields, text: string)
    requires CleanFields(fields) && Clean(text)
    ensures AddField(fields, text).Some? ==> CleanFields(AddField(fields, text).value)
  {
    hide SplitField;
    SplitClean(text);
  }

  lemma {:induction false} FoldClean(s: State, lines: seq<string>)
    requires CleanState(s) && forall i | 0 <= i < |lines| :: Clean(lines[i])
    ensures Fold(s, lines).Ok? ==> CleanState(Fold(s, lines).value)
    decreases |lines|
  {
    hide Step, CleanState, Clean;
    if lines != [] {
      FoldClean(s, lines[..|lines| - 1]);
      if Fold(s, lines[..|lines| - 1]).Ok? {
        StepClean(Fold(s, lines[..|lines| - 1]).value, lines[|lines| - 1]);
      }
    }
  }

  /** No file is read into a name or an id with a line break. */
  lemma ReadIsClean(yaml: string)
    ensures ParseYaml(yaml).Ok? ==>
              Clean(ParseYaml(yaml).value.name)
              && forall i | 0 <= i < |ParseYaml(yaml).value.nodes| :: Clean(ParseYaml(yaml).value.nodes[i].id)
  {
    hide Fold, Flush, Pieces, Clean;
    var lines := Pieces(yaml, '\n');
    LinesClean(yaml);
    StartClean();
    FoldClean(START, lines);
    if Fold(START, lines).Ok? {
      FlushClean(Fold(START, lines).value);
    }
  }

  lemma StartClean()
    ensures CleanState(START)
  {
  }

  lemma {:induction false} EscapedClean(s: string)
    requires Clean(s)
    ensures Clean(TopologyYaml.Escaped(s))
  {
    if s != [] {
      EscapedClean(s[1..]);
    }
  }

  lemma QuoteClean(s: string)
    requires Clean(s)
    ensures Clean(YamlQuote(s))
  {
    EscapedClean(s);
  }

  lemma NodeClean(node: Node)
    requires Clean(node.id)
    ensures Clean(NodeLine(node))
  {
    hide YamlQuote;
    QuoteClean(node.id);
  }

  lemma LinkClean(link: Link)
    requires Clean(link.from) && Clean(link.to) && link.latency >= 0
    ensures Clean(LinkLine(link))
  {
    hide YamlQuote, Decimal;
    QuoteClean(link.from);
    QuoteClean(link.to);
    var d := Decimal(link.latency);
    assert forall i | 0 <= i < |d| :: IsDigit(d[i]);
  }

  lemma SavedClean(c: Configuration)
    requires LinksKnown(c) && Clean(c.name) && forall i | 0 <= i < |c.nodes| :: Clean(c.nodes[i].id)
    ensures forall i | 0 <= i < |SavedLines(c)| :: Clean(SavedLines(c)[i])
  {
    hide NodeLine, LinkLine, YamlQuote;
    QuoteClean(c.name);
    forall i | 0 <= i < |c.nodes|
      ensures Clean(NodeLines(c.nodes)[i])
    {
      NodeClean(c.nodes[i]);
    }
    forall i | 0 <= i < |c.links|
      ensures Clean(LinkLines(c.links)[i])
    {
      LinkClean(c.links[i]);
    }
  }

  // ---- the theorem ----

  /** Saving a valid topology and reading the file gives it back exactly when its name and ids have no line
      break, double quote or backslash, and its ids no comma. */
  lemma SavedComesBack(c: Configuration, at: nat)
    requires Accepts(c, at) && forall i | 0 <= i < |c.links| :: c.links[i].latency <= Words.MAX_I64
    ensures ParseYaml(Save(c)) == Ok(c) <==>
            && Clean(c.name) && Plain(c.name)
            && forall i | 0 <= i < |c.nodes| :: Clean(c.nodes[i].id) && Untouched(c.nodes[i].id)
  {
    hide Fold, Finish, Pieces, SavedLines, Save, Plain, Untouched, Clean;
    assert LinksKnown(c);
    if Clean(c.name) && forall i | 0 <= i < |c.nodes| :: Clean(c.nodes[i].id) {
      SavedRead(c);
    } else {
      ReadIsClean(Save(c));
    }
  }

  lemma SavedRead(c: Configuration)
    requires LinksKnown(c) && c.name != [] && forall i | 0 <= i < |c.nodes| :: c.nodes[i].id != []
    requires Clean(c.name) && forall i | 0 <= i < |c.nodes| :: Clean(c.nodes[i].id)
    ensures ParseYaml(Save(c)) == Ok(c) <==> Plain(c.name) && forall i | 0 <= i < |c.nodes| :: Untouched(c.nodes[i].id)
  {
    hide Fold, Finish, Pieces, SavedLines, Plain, Untouched, Ended;
    SavedClean(c);
    PiecesOfEnded(SavedLines(c));
    LinesRead(c);
  }

  /** What is quoted is not unquoted: this topology is valid and comes back with another name. */
  lemma BackslashDoubles(c: Configuration)
    requires c == Configuration("a\\b", [Node("s", Switch), Node("h", Host)], [Link("s", "h", 1)])
    ensures Accepts(c, 0) && ParseYaml(Save(c)) != Ok(c)
  {
    hide ParseYaml, Save;
    assert c.nodes[0].id == "s" && c.nodes[1].id == "h" && "s"[0] != "h"[0];
    assert LinkSound(c.links[0], c.nodes, "s");
    assert OneSwitch(c.nodes, 0) && DistinctIds(c.nodes);
    assert c.name[1] == '\\';
    SavedComesBack(c, 0);
  }
}
