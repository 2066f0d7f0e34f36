/** The topology file: the reader of src/topology_yaml.cpp, line by line, and the printer of
    src/session_topology.cpp. */
module TopologyYaml {
  import Words
  import opened Results
  import opened Sequences
  import opened Text
  import opened TopologyModel

  datatype YamlError =
    | MalformedDocument
    | MissingNetwork
    | MissingNetworkName
    | MissingNodeSection
    | MissingLinkSection
    | InvalidTopLevelKey
    | InvalidNetworkField
    | InvalidNodeField
    | InvalidLinkField
    | InvalidNodeType
    | InvalidLatency

  // ---- text ----

  /** Where a character first is. */
  function IndexOf(s: string, c: char): (at: Option<nat>)
    ensures at.Some? ==> at.value < |s| && s[at.value] == c && c !in s[..at.value]
    ensures at.None? <==> c !in s
  {
    if s == [] then None
    else if s[0] == c then Some(0)
    else
      var rest := IndexOf(s[1..], c);
      if rest.None? then None
      else
        assert s[..rest.value + 1] == [s[0]] + s[1..][..rest.value];
        Some(rest.value + 1)
  }

  /** The pieces std::getline reads: what the separator ends, and a last piece that is not empty. */
  function Pieces(s: string, separator: char): (pieces: seq<string>)
    decreases |s|
  {
    if s == [] then []
    else
      var at := IndexOf(s, separator);
      if at.None? then [s] else [s[..at.value]] + Pieces(s[at.value + 1..], separator)
  }

  predicate IsBlank(c: char) {
    c == ' ' || c == '\t' || c == '\r'
  }

  function TrimLeft(s: string): (rest: string)
    ensures |rest| <= |s| && (rest != [] ==> !IsBlank(rest[0]))
  {
    if s != [] && IsBlank(s[0]) then TrimLeft(s[1..]) else s
  }

  function TrimRight(s: string): (rest: string)
    ensures rest <= s && (rest != [] ==> !IsBlank(rest[|rest| - 1]))
  {
    if s != [] && IsBlank(s[|s| - 1]) then TrimRight(s[..|s| - 1]) else s
  }

  function Trim(s: string): string {
    TrimRight(TrimLeft(s))
  }

  const NO_QUOTE: char := 0 as char

  predicate IsQuote(c: char) {
    c == '\'' || c == '"'
  }

  /** The quote that is open after a quote character. */
  function Toggled(quote: char, c: char): char {
    if quote == NO_QUOTE then c else if quote == c then NO_QUOTE else quote
  }

  /** What a comment leaves of a line, from a place with a previous character and an open quote. */
  function Keep(previous: char, quote: char, s: string): (kept: string)
    ensures kept <= s
    decreases |s|
  {
    if s == [] then []
    else if IsQuote(s[0]) && previous != '\\' then [s[0]] + Keep(s[0], Toggled(quote, s[0]), s[1..])
    else if s[0] == '#' && quote == NO_QUOTE then []
    else [s[0]] + Keep(s[0], quote, s[1..])
  }

  function WithoutComment(line: string): string {
    Keep(NO_QUOTE, NO_QUOTE, line)
  }

  /** A value, out of its quotes if it has them; they are not unescaped. */
  function Unquoted(value: string): Option<string> {
    if value == [] then None
    else if IsQuote(value[0]) then
      if |value| < 2 || value[|value| - 1] != value[0] || |value| == 2 then None else Some(value[1..|value| - 1])
    else Some(value)
  }

  function SplitField(text: string): Option<(string, string)> {
    var at := IndexOf(text, ':');
    if at.None? then None
    else
      var key, value := Trim(text[..at.value]), Unquoted(Trim(text[at.value + 1..]));
      if key == [] || value.None? then None else Some((key, value.value))
  }

  type Fields = map<string, string>

  /** Adds a field, once. */
  function AddField(fields: Fields, text: string): Option<Fields> {
    var field := SplitField(text);
    if field.None? || field.value.0 in fields then None else Some(fields[field.value.0 := field.value.1])
  }

  function AddFields(fields: Fields, pieces: seq<string>): Option<Fields> {
    if pieces == [] then Some(fields)
    else
      var before := AddFields(fields, pieces[..|pieces| - 1]);
      if before.None? then None else AddField(before.value, pieces[|pieces| - 1])
  }

  /** The fields between braces, added to those there are. */
  function FlowMapping(fields: Fields, input: string): Option<Fields> {
    if |input| < 2 || input[0] != '{' || input[|input| - 1] != '}' then None
    else
      var all := AddFields(fields, Pieces(input[1..|input| - 1], ','));
      if all.None? || all.value == map[] then None else all
  }

  /** An unsigned 64-bit number kept as a signed one: from 2^63 on a latency is read as a negative one. */
  function ParseLatency(text: string): Option<int> {
    if text == [] || !AllDigits(text) || Value(text) >= Words.TWO_64 then None
    else Some(if Value(text) <= Words.MAX_I64 then Value(text) else Value(text) - Words.TWO_64)
  }

  // ---- the reader ----

  datatype Section = NoSection | NetworkSection | NodeSection | LinkSection

  datatype State = State(
    section: Section,
    name: Option<string>,
    nodes: seq<Node>,
    links: seq<Link>,
    hasNetwork: bool,
    hasNodes: bool,
    hasLinks: bool,
    hasEntry: bool,
    entrySection: Section,
    fields: Fields)

  const START := State(NoSection, None, [], [], false, false, false, false, NoSection, map[])

  function NodeOf(fields: Fields): Result<Node, YamlError> {
    if |fields| != 2 || "id" !in fields || "type" !in fields then Err(InvalidNodeField)
    else if fields["type"] == "host" then Ok(Node(fields["id"], Host))
    else if fields["type"] == "switch" then Ok(Node(fields["id"], Switch))
    else Err(InvalidNodeType)
  }

  function LinkOf(fields: Fields): Result<Link, YamlError> {
    if "from" !in fields || "to" !in fields || |fields| > 3 then Err(InvalidLinkField)
    else if "latency_ms" !in fields then Ok(Link(fields["from"], fields["to"], 0))
    else
      var latency := ParseLatency(fields["latency_ms"]);
      if latency.None? then Err(InvalidLatency) else Ok(Link(fields["from"], fields["to"], latency.value))
  }

  /** Finishes the entry that is open, if one is. */
  function Flush(s: State): (r: Result<State, YamlError>)
    ensures r.Ok? ==> r.value.section == s.section && !r.value.hasEntry
  {
    if !s.hasEntry then Ok(s)
    else if s.entrySection == NodeSection then
      var node :- NodeOf(s.fields);
      Ok(s.(nodes := s.nodes + [node], hasEntry := false, fields := map[]))
    else
      var link :- LinkOf(s.fields);
      Ok(s.(links := s.links + [link], hasEntry := false, fields := map[]))
  }

  function FieldError(section: Section): YamlError {
    if section == NodeSection then InvalidNodeField else InvalidLinkField
  }

  function TopLevel(s: State, content: string): Result<State, YamlError> {
    if content == "network:" then
      if s.hasNetwork then Err(MalformedDocument) else Ok(s.(section := NetworkSection, hasNetwork := true))
    else if content == "nodes:" then
      if s.hasNodes then Err(MalformedDocument) else Ok(s.(section := NodeSection, hasNodes := true))
    else if content == "links:" then
      if s.hasLinks then Err(MalformedDocument) else Ok(s.(section := LinkSection, hasLinks := true))
    else Err(InvalidTopLevelKey)
  }

  function NetworkField(s: State, indent: nat, content: string): Result<State, YamlError> {
    var field := SplitField(content);
    if indent != 2 || field.None? || field.value.0 != "name" || s.name.Some? then Err(InvalidNetworkField)
    else Ok(s.(name := Some(field.value.1)))
  }

  /** A new entry, with the fields on its own line. */
  function NewEntry(s: State, content: string): Result<State, YamlError>
    requires content != []
  {
    var flushed :- Flush(s);
    var reset := flushed.(entrySection := s.section);
    var entry := Trim(content[1..]);
    if entry == [] then Ok(reset.(hasEntry := true))
    else
      var fields := FlowMapping(reset.fields, entry);
      if fields.None? then Err(FieldError(s.section)) else Ok(reset.(fields := fields.value, hasEntry := true))
  }

  function EntryField(s: State, indent: nat, content: string): Result<State, YamlError> {
    var fields := AddField(s.fields, content);
    if indent != 4 || !s.hasEntry || fields.None? then Err(FieldError(s.section)) else Ok(s.(fields := fields.value))
  }

  /** How far a line is indented by blanks and tabs. */
  function Indent(line: string): (n: nat)
    ensures n <= |line| && (n < |line| ==> line[n] != ' ' && line[n] != '\t')
  {
    if line != [] && (line[0] == ' ' || line[0] == '\t') then 1 + Indent(line[1..]) else 0
  }

  function Step(s: State, raw: string): Result<State, YamlError> {
    var line := WithoutComment(raw);
    if Trim(line) == [] then Ok(s)
    else
      var indent := Indent(line);
      if indent == |line| || '\t' in line[..indent] then Err(MalformedDocument)
      else
        var content := line[indent..];
        if indent == 0 then
          var flushed :- Flush(s);
          TopLevel(flushed, content)
        else if s.section == NetworkSection then NetworkField(s, indent, content)
        else if s.section != NodeSection && s.section != LinkSection then Err(MalformedDocument)
        else if indent == 2 && content[0] == '-' then NewEntry(s, content)
        else EntryField(s, indent, content)
  }

  function Fold(s: State, lines: seq<string>): Result<State, YamlError> {
    if lines == [] then Ok(s)
    else
      var before :- Fold(s, lines[..|lines| - 1]);
      Step(before, lines[|lines| - 1])
  }

  function Finish(s: State): Result<Configuration, YamlError> {
    var end :- Flush(s);
    if !end.hasNetwork then Err(MissingNetwork)
    else if end.name.None? then Err(MissingNetworkName)
    else if !end.hasNodes then Err(MissingNodeSection)
    else if !end.hasLinks then Err(MissingLinkSection)
    else Ok(Configuration(end.name.value, end.nodes, end.links))
  }

  function ParseYaml(yaml: string): Result<Configuration, YamlError> {
    var end :- Fold(START, Pieces(yaml, '\n'));
    Finish(end)
  }

  // ---- the printer ----

  function Escaped(text: string): string {
    if text == [] then []
    else
      var c := text[0];
      (if c == '\\' || c == '"' then ['\\', c] else [c]) + Escaped(text[1..])
  }

  function YamlQuote(text: string): string {
    "\"" + Escaped(text) + "\""
  }

  function KindName(kind: NodeKind): string {
    if kind == Switch then "switch" else "host"
  }

  function NameLine(name: string): string {
    "  name: " + YamlQuote(name)
  }

  function NodeLine(node: Node): string {
    "  - { id: " + YamlQuote(node.id) + ", type: " + KindName(node.kind) + " }"
  }

  function SignedText(n: int): string {
    if n < 0 then "-" + Decimal(-n) else Decimal(n)
  }

  function LinkLine(link: Link): string {
    "  - { from: " + YamlQuote(link.from) + ", to: " + YamlQuote(link.to) + ", latency_ms: "
      + SignedText(link.latency) + " }"
  }

  function NodeLines(nodes: seq<Node>): (lines: seq<string>)
    ensures |lines| == |nodes| && forall i | 0 <= i < |nodes| :: lines[i] == NodeLine(nodes[i])
  {
    seq(|nodes|, i requires 0 <= i < |nodes| => NodeLine(nodes[i]))
  }

  function LinkLines(links: seq<Link>): (lines: seq<string>)
    ensures |lines| == |links| && forall i | 0 <= i < |links| :: lines[i] == LinkLine(links[i])
  {
    seq(|links|, i requires 0 <= i < |links| => LinkLine(links[i]))
  }

  function SavedLines(c: Configuration): seq<string> {
    ["network:", NameLine(c.name), "", "nodes:"] + NodeLines(c.nodes) + ["", "links:"] + LinkLines(c.links)
  }

  /** Lines, each ended by a line break. */
  function Ended(lines: seq<string>): string {
    if lines == [] then [] else Ended(lines[..|lines| - 1]) + (lines[|lines| - 1] + "\n")
  }

  function Save(c: Configuration): string {
    Ended(SavedLines(c))
  }

  method QuoteYaml(text: string) returns (result: string)
    ensures result == YamlQuote(text)
  {
    result := "\"";
    for i := 0 to |text|
      invariant result + Escaped(text[i..]) == "\"" + Escaped(text)
    {
      var c := text[i];
      assert text[i..][0] == c && text[i..][1..] == text[i + 1..];
      if c == '\\' || c == '"' {
        result := result + "\\";
      }
      result := result + [c];
    }
    result := result + "\"";
  }

  /** Writes a topology, section by section. */
  method SaveTopology(c: Configuration) returns (output: string)
    ensures output == Save(c)
  {
    hide YamlQuote, Decimal, Ended, NodeLine, LinkLine, NameLine;
    var name := QuoteYaml(c.name);
    output := "network:\n  name: " + name + "\n\nnodes:\n";
    ghost var written := ["network:", NameLine(c.name), "", "nodes:"];
    ghost var head := written;
    HeadEnded(c.name);
    assert head + NodeLines(c.nodes)[..0] == head;
    for i := 0 to |c.nodes|
      invariant output == Ended(written) && written == head + NodeLines(c.nodes)[..i]
    {
      var id := QuoteYaml(c.nodes[i].id);
      var line := "  - { id: " + id + ", type: " + KindName(c.nodes[i].kind) + " }";
      NodeLineIs(c.nodes[i]);
      OneMoreEnded(written, line);
      output := output + (line + "\n");
      written := written + [line];
    }
    assert NodeLines(c.nodes)[..|c.nodes|] == NodeLines(c.nodes);
    OneMoreEnded(written, "");
    OneMoreEnded(written + [""], "links:");
    assert Ended(written) + "\n" + "links:\n" == Ended(written) + "\nlinks:\n";
    output := output + "\nlinks:\n";
    written := written + [""] + ["links:"];
    ghost var above := written;
    assert above + LinkLines(c.links)[..0] == above;
    for i := 0 to |c.links|
      invariant output == Ended(written) && written == above + LinkLines(c.links)[..i]
    {
      var from := QuoteYaml(c.links[i].from);
      var to := QuoteYaml(c.links[i].to);
      var line := "  - { from: " + from + ", to: " + to + ", latency_ms: " + SignedText(c.links[i].latency) + " }";
      LinkLineIs(c.links[i]);
      OneMoreEnded(written, line);
      output := output + (line + "\n");
      written := written + [line];
    }
    assert LinkLines(c.links)[..|c.links|] == LinkLines(c.links);
    assert written == SavedLines(c);
  }

  lemma NodeLineIs(node: Node)
    ensures NodeLine(node) == "  - { id: " + YamlQuote(node.id) + ", type: " + KindName(node.kind) + " }"
  {
  }

  lemma LinkLineIs(link: Link)
    ensures LinkLine(link) == "  - { from: " + YamlQuote(link.from) + ", to: " + YamlQuote(link.to)
                              + ", latency_ms: " + SignedText(link.latency) + " }"
  {
  }

  lemma OneMoreEnded(lines: seq<string>, line: string)
    ensures Ended(lines + [line]) == Ended(lines) + (line + "\n")
  {
    assert (lines + [line])[..|lines|] == lines;
  }

  lemma HeadEnded(name: string)
    ensures Ended(["network:", NameLine(name), "", "nodes:"])
         == "network:\n  name: " + YamlQuote(name) + "\n\nnodes:\n"
  {
    hide YamlQuote, Ended, NameLine;
    NameLineIs(name);
    OneMoreEnded([], "network:");
    OneMoreEnded(["network:"], NameLine(name));
    OneMoreEnded(["network:", NameLine(name)], "");
    OneMoreEnded(["network:", NameLine(name), ""], "nodes:");
    assert [] + ["network:"] == ["network:"];
    assert ["network:"] + [NameLine(name)] == ["network:", NameLine(name)];
    assert ["network:", NameLine(name)] + [""] == ["network:", NameLine(name), ""];
    assert ["network:", NameLine(name), ""] + ["nodes:"] == ["network:", NameLine(name), "", "nodes:"];
    NothingEnded();
  }

  lemma NameLineIs(name: string)
    ensures NameLine(name) == "  name: " + YamlQuote(name)
  {
  }

  lemma NothingEnded()
    ensures Ended([]) == ""
  {
  }

  // ---- the parser object ----

  lemma KeepStep(previous: char, quote: char, s: string)
    requires s != []
    ensures Keep(previous, quote, s) ==
            if IsQuote(s[0]) && previous != '\\' then [s[0]] + Keep(s[0], Toggled(quote, s[0]), s[1..])
            else if s[0] == '#' && quote == NO_QUOTE then []
            else [s[0]] + Keep(s[0], quote, s[1..])
    ensures Keep(previous, quote, []) == []
  {
  }

  /** What a comment leaves, found with the loop's three variables. */
  method StripComment(line: string) returns (kept: string)
    ensures kept == WithoutComment(line)
  {
    hide Keep, IsQuote, Toggled;
    var quote := NO_QUOTE;
    assert line[0..] == line;
    ghost var previous := NO_QUOTE;
    for index := 0 to |line|
      invariant previous == if index == 0 then NO_QUOTE else line[index - 1]
      invariant WithoutComment(line) == line[..index] + Keep(previous, quote, line[index..])
    {
      var c := line[index];
      ghost var rest := line[index..];
      assert rest[0] == c && rest[1..] == line[index + 1..];
      KeepStep(previous, quote, rest);
      assert line[..index + 1] == line[..index] + [c];
      if IsQuote(c) && (index == 0 || line[index - 1] != '\\') {
        quote := Toggled(quote, c);
      } else if c == '#' && quote == NO_QUOTE {
        assert line[..index] + [] == line[..index];
        return line[..index];
      }
      Assoc(line[..index], [c], Keep(c, quote, line[index + 1..]));
      previous := c;
    }
    KeepStep(previous, quote, [NO_QUOTE]);
    assert line[|line|..] == [] && line[..|line|] + [] == line;
    return line;
  }

  class TopologyYamlParser {
    const yaml: string
    var state: State

    constructor (yaml: string)
      ensures this.yaml == yaml && state == START
    {
      this.yaml := yaml;
      state := START;
    }

    method FlushEntry() returns (r: Result<(), YamlError>)
      modifies this
      ensures r.Ok? ==> Flush(old(state)) == Ok(state)
      ensures r.Err? ==> Flush(old(state)) == Err(r.error)
    {
      if !state.hasEntry {
        return Ok(());
      }
      if state.entrySection == NodeSection {
        var node := NodeOf(state.fields);
        if node.Err? {
          return Err(node.error);
        }
        state := state.(nodes := state.nodes + [node.value], hasEntry := false, fields := map[]);
      } else {
        var link := LinkOf(state.fields);
        if link.Err? {
          return Err(link.error);
        }
        state := state.(links := state.links + [link.value], hasEntry := false, fields := map[]);
      }
      return Ok(());
    }

    method ReadLine(raw: string) returns (r: Result<(), YamlError>)
      modifies this
      ensures r.Ok? ==> Step(old(state), raw) == Ok(state)
      ensures r.Err? ==> Step(old(state), raw) == Err(r.error)
    {
      hide Flush, Keep, FlowMapping, SplitField, Indent, Trim, TopLevel, NetworkField;
      var line := StripComment(raw);
      if Trim(line) == [] {
        return Ok(());
      }
      var indent := Indent(line);
      if indent == |line| || '\t' in line[..indent] {
        return Err(MalformedDocument);
      }
      var content := line[indent..];
      if indent == 0 {
        var flushed := FlushEntry();
        if flushed.Err? {
          return flushed;
        }
        var topLevel := TopLevel(state, content);
        if topLevel.Err? {
          return Err(topLevel.error);
        }
        state := topLevel.value;
        return Ok(());
      }
      if state.section == NetworkSection {
        var named := NetworkField(state, indent, content);
        if named.Err? {
          return Err(named.error);
        }
        state := named.value;
        return Ok(());
      }
      if state.section != NodeSection && state.section != LinkSection {
        return Err(MalformedDocument);
      }
      if indent == 2 && content[0] == '-' {
        var flushed := FlushEntry();
        if flushed.Err? {
          return flushed;
        }
        state := state.(entrySection := state.section);
        var entry := Trim(content[1..]);
        if entry != [] {
          var fields := FlowMapping(state.fields, entry);
          if fields.None? {
            return Err(FieldError(state.section));
          }
          state := state.(fields := fields.value);
        }
        state := state.(hasEntry := true);
        return Ok(());
      }
      var fields := AddField(state.fields, content);
      if indent != 4 || !state.hasEntry || fields.None? {
        return Err(FieldError(state.section));
      }
      state := state.(fields := fields.value);
      return Ok(());
    }

    method Parse() returns (r: Result<Configuration, YamlError>)
      requires state == START
      modifies this
      ensures r == ParseYaml(yaml)
    {
      hide Step, Flush, Pieces;
      var lines := Pieces(yaml, '\n');
      for i := 0 to |lines|
        invariant Fold(START, lines[..i]) == Ok(state)
      {
        assert lines[..i + 1][..i] == lines[..i];
        var read := ReadLine(lines[i]);
        if read.Err? {
          assert Fold(START, lines[..i + 1]) == Err(read.error);
          FoldStops(lines, i + 1);
          return Err(read.error);
        }
      }
      assert lines[..|lines|] == lines;
      ghost var end := state;
      var flushed := FlushEntry();
      if flushed.Err? {
        return Err(flushed.error);
      }
      if !state.hasNetwork {
        return Err(MissingNetwork);
      }
      if state.name.None? {
        return Err(MissingNetworkName);
      }
      if !state.hasNodes {
        return Err(MissingNodeSection);
      }
      if !state.hasLinks {
        return Err(MissingLinkSection);
      }
      return Ok(Configuration(state.name.value, state.nodes, state.links));
    }
  }

  lemma {:induction false} FoldStops(lines: seq<string>, n: nat)
    requires n <= |lines| && Fold(START, lines[..n]).Err?
    ensures Fold(START, lines) == Fold(START, lines[..n])
    decreases |lines|
  {
    if n == |lines| {
      assert lines[..n] == lines;
    } else {
      assert lines[..|lines| - 1][..n] == lines[..n];
      FoldStops(lines[..|lines| - 1], n);
    }
  }
}
