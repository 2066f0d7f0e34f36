/** Topology files that people write: comments and blank lines anywhere, entries field by field, and exactly which of
    them are a topology. */
module YamlDocuments {
  import Words
  import opened Results
  import opened Sequences
  import opened Text
  import opened TopologyModel
  import opened TopologyYaml
  import opened YamlText
  import opened YamlRoundTrip

  // ---- lines that say nothing ----

  /** Blanks, and perhaps a comment behind them. */
  predicate Ignorable(line: string) {
    exists n :: 0 <= n <= |line| && (forall i | 0 <= i < n :: IsBlank(line[i])) && (n == |line| || line[n] == '#')
  }

  lemma {:induction false} BlanksKept(previous: char, line: string, n: nat)
    requires n <= |line| && (forall i | 0 <= i < n :: IsBlank(line[i])) && (n == |line| || line[n] == '#')
    ensures Keep(previous, NO_QUOTE, line) == line[..n]
    decreases n
  {
    if n > 0 {
      BlanksKept(line[0], line[1..], n - 1);
      assert line[..n] == [line[0]] + line[1..][..n - 1];
    }
  }

  lemma {:induction false} BlanksTrimmed(s: string)
    requires forall i | 0 <= i < |s| :: IsBlank(s[i])
    ensures Trim(s) == []
  {
    if s != [] {
      BlanksTrimmed(s[1..]);
    }
  }

  lemma IgnorableStep(s: State, line: string)
    requires Ignorable(line)
    ensures Step(s, line) == Ok(s)
  {
    var n :| 0 <= n <= |line| && (forall i | 0 <= i < n :: IsBlank(line[i])) && (n == |line| || line[n] == '#');
    BlanksKept(NO_QUOTE, line, n);
    BlanksTrimmed(line[..n]);
  }

  /** A blank line or a comment of its own, anywhere in any file, changes nothing: what is read, or what is wrong. */
  lemma IgnorableAnywhere(before: seq<string>, line: string, after: seq<string>)
    requires Ignorable(line) && Clean(line)
    requires forall i | 0 <= i < |before| :: Clean(before[i])
    requires forall i | 0 <= i < |after| :: Clean(after[i])
    ensures ParseYaml(Ended(before + [line] + after)) == ParseYaml(Ended(before + after))
  {
    hide Step, Finish, Ended, Pieces, Ignorable;
    PiecesOfEnded(before + [line] + after);
    PiecesOfEnded(before + after);
    FoldConcat(START, before, after);
    FoldConcat(START, before + [line], after);
    FoldConcat(START, before, [line]);
    assert [line][..0] == [];
    if Fold(START, before).Ok? {
      var s := Fold(START, before).value;
      IgnorableStep(s, line);
      FoldFront(s, line, []);
      FoldNothing(s);
      assert [line] + [] == [line];
    }
  }

  /** A comment behind anything that has no quote and no backslash changes nothing either. */
  lemma CommentBehind(s: State, line: string, comment: string)
    requires Unmarked(line)
    ensures Step(s, line + ("#" + comment)) == Step(s, line)
  {
    hide Keep;
    KeepUnmarked(NO_QUOTE, line, "#" + comment);
    KeepStep(LastOf(NO_QUOTE, line), NO_QUOTE, "#" + comment);
    assert line + [] == line;
    UnmarkedLine(line);
  }

  // ---- entries field by field ----

  /** A word that needs no quotes. */
  predicate IsWord(w: string) {
    w != [] && Unmarked(w) && !IsBlank(w[0]) && !IsBlank(w[|w| - 1]) && '\n' !in w
  }

  datatype Field = Field(key: string, value: string)

  predicate Writable(entry: seq<Field>) {
    forall i | 0 <= i < |entry| :: IsWord(entry[i].key) && ':' !in entry[i].key && IsWord(entry[i].value)
  }

  function FieldLine(field: Field): string {
    "    " + field.key + ": " + field.value
  }

  /** An entry: a dash, and its fields below it. */
  function EntryLines(entry: seq<Field>): (lines: seq<string>)
    ensures |lines| == 1 + |entry|
  {
    ["  -"] + seq(|entry|, i requires 0 <= i < |entry| => FieldLine(entry[i]))
  }

  predicate DistinctKeys(entry: seq<Field>) {
    forall i, j | 0 <= i < j < |entry| :: entry[i].key != entry[j].key
  }

  function FieldMap(entry: seq<Field>): Fields {
    if entry == [] then map[]
    else FieldMap(entry[..|entry| - 1])[entry[|entry| - 1].key := entry[|entry| - 1].value]
  }

  lemma {:induction false} FieldMapHas(entry: seq<Field>, key: string)
    requires DistinctKeys(entry)
    ensures key in FieldMap(entry) <==> exists i :: 0 <= i < |entry| && entry[i].key == key
    ensures forall i | 0 <= i < |entry| && entry[i].key == key ::
              key in FieldMap(entry) && FieldMap(entry)[key] == entry[i].value
    ensures |FieldMap(entry)| == |entry|
  {
    if entry != [] {
      var front, last := entry[..|entry| - 1], entry[|entry| - 1];
      FieldMapHas(front, key);
      FieldMapHas(front, last.key);
      assert FieldMap(entry).Keys == FieldMap(front).Keys + {last.key};
      assert |FieldMap(entry)| == |FieldMap(entry).Keys| && |FieldMap(front)| == |FieldMap(front).Keys|;
    }
  }

  lemma FieldLineStep(s: State, field: Field)
    requires IsWord(field.key) && ':' !in field.key && IsWord(field.value)
    requires (s.section == NodeSection || s.section == LinkSection) && s.hasEntry
    ensures Step(s, FieldLine(field)) ==
            if field.key in s.fields then Err(FieldError(s.section))
            else Ok(s.(fields := s.fields[field.key := field.value]))
  {
    hide SplitField, Trim, Keep;
    var line := FieldLine(field);
    assert Unmarked(line);
    UnmarkedLine(line);
    IndentedFour(line);
    assert line[4..] == Blank(false) + field.key + [':'] + ([' '] + (field.value + Blank(false)));
    SplitsField(field.key, false, field.value, false);
  }

  lemma IndentedFour(line: string)
    requires |line| > 4 && line[..4] == "    " && !IsBlank(line[4])
    ensures Indent(line) == 4 && '\t' !in line[..4] && Trim(line) != []
  {
    hide TrimRight;
    assert forall i | 0 <= i < 4 :: line[i] == line[..4][i] == ' ';
    assert Indent(line[4..]) == 0;
    assert line[3..][1..] == line[4..] && Indent(line[3..]) == 1;
    assert line[2..][1..] == line[3..] && Indent(line[2..]) == 2;
    assert line[1..][1..] == line[2..] && Indent(line[1..]) == 3;
    assert TrimLeft(line) == TrimLeft(line[1..]) == TrimLeft(line[2..]) == TrimLeft(line[3..]) == line[4..];
    TrimRightKeeps([line[4]], line[5..]);
    assert line[4..] == [line[4]] + line[5..];
  }

  lemma DashStep(s: State)
    requires s.section == NodeSection || s.section == LinkSection
    ensures Step(s, "  -") ==
            if Flush(s).Err? then Err(Flush(s).error)
            else Ok(Flush(s).value.(entrySection := s.section, hasEntry := true))
  {
    hide Flush, Trim, Keep, FlowMapping;
    assert Unmarked("  -");
    UnmarkedLine("  -");
    IndentedTwo("  -");
    assert "  -"[2..] == "-" && "-"[1..] == "";
    BlanksTrimmed("");
  }

  lemma EntryLinesNext(entry: seq<Field>)
    requires entry != []
    ensures EntryLines(entry) == EntryLines(entry[..|entry| - 1]) + [FieldLine(entry[|entry| - 1])]
  {
    hide FieldLine;
  }

  lemma DistinctNext(entry: seq<Field>)
    requires entry != []
    ensures var front := entry[..|entry| - 1];
            DistinctKeys(entry) <==> DistinctKeys(front) && entry[|entry| - 1].key !in FieldMap(front)
  {
    hide FieldMap;
    var front := entry[..|entry| - 1];
    if DistinctKeys(front) {
      FieldMapHas(front, entry[|entry| - 1].key);
    }
  }

  /** An entry is read as its fields, unless it repeats a key. */
  lemma {:induction false} EntryFolded(s: State, entry: seq<Field>)
    requires (s.section == NodeSection || s.section == LinkSection) && Writable(entry)
    requires Flush(s).Ok? && Flush(s).value.fields == map[]
    ensures Fold(s, EntryLines(entry)) ==
            if DistinctKeys(entry) then
              Ok(Flush(s).value.(entrySection := s.section, hasEntry := true, fields := FieldMap(entry)))
            else Err(FieldError(s.section))
    decreases |entry|
  {
    hide Step, Flush, FieldLine, IsWord, DistinctKeys;
    if entry == [] {
      DashStep(s);
      assert EntryLines(entry) == ["  -"] && ["  -"][..0] == [];
      NoKeys();
    } else {
      var front, last := entry[..|entry| - 1], entry[|entry| - 1];
      EntryFolded(s, front);
      EntryLinesNext(entry);
      DistinctNext(entry);
      if DistinctKeys(front) {
        FieldLineStep(Fold(s, EntryLines(front)).value, last);
      }
    }
  }

  lemma NoKeys()
    ensures DistinctKeys([])
  {
  }

  // ---- what an entry says ----

  /** Its two fields are the id and the kind of a node. */
  predicate SaysNode(entry: seq<Field>, node: Node) {
    && |entry| == 2 && DistinctKeys(entry)
    && Field("id", node.id) in entry
    && Field("type", if node.kind == Host then "host" else "switch") in entry
  }

  /** A number of milliseconds; from 2^63 on it is read as a negative one, and from 2^64 on not at all. */
  predicate SaysLatency(value: string, latency: int) {
    && value != [] && AllDigits(value) && Value(value) < 0x1_0000_0000_0000_0000
    && latency == if Value(value) < 0x8000_0000_0000_0000 then Value(value)
                  else Value(value) - 0x1_0000_0000_0000_0000
  }

  /** It has both ends of a link and at most one field more: the latency, which is zero without it. */
  predicate SaysLink(entry: seq<Field>, link: Link) {
    && |entry| <= 3 && DistinctKeys(entry)
    && Field("from", link.from) in entry && Field("to", link.to) in entry
    && (forall i | 0 <= i < |entry| && entry[i].key == "latency_ms" :: SaysLatency(entry[i].value, link.latency))
    && ((forall i | 0 <= i < |entry| :: entry[i].key != "latency_ms") ==> link.latency == 0)
  }

  ghost predicate IsNode(entry: seq<Field>) {
    exists node :: SaysNode(entry, node)
  }

  ghost predicate IsLink(entry: seq<Field>) {
    exists link :: SaysLink(entry, link)
  }

  lemma KeysDiffer()
    ensures "id" != "type" && "from" != "to" && "from" != "latency_ms" && "to" != "latency_ms" && "host" != "switch"
  {
    assert |"id"| == 2 && |"type"| == 4 && |"from"| == 4 && |"to"| == 2 && |"latency_ms"| == 10;
    assert |"host"| == 4 && |"switch"| == 6;
  }

  lemma NodeSaid(entry: seq<Field>)
    requires DistinctKeys(entry)
    ensures forall node :: NodeOf(FieldMap(entry)) == Ok(node) <==> SaysNode(entry, node)
    ensures NodeOf(FieldMap(entry)).Ok? <==> IsNode(entry)
  {
    hide FieldMap;
    KeysDiffer();
    FieldMapHas(entry, "id");
    FieldMapHas(entry, "type");
  }

  lemma LatencySaid(value: string, latency: int)
    ensures ParseLatency(value) == Some(latency) <==> SaysLatency(value, latency)
  {
    hide Value;
  }

  lemma LinkSaid(entry: seq<Field>)
    requires DistinctKeys(entry)
    ensures forall link :: LinkOf(FieldMap(entry)) == Ok(link) <==> SaysLink(entry, link)
    ensures LinkOf(FieldMap(entry)).Ok? <==> IsLink(entry)
  {
    hide FieldMap, ParseLatency, SaysLatency;
    KeysDiffer();
    FieldMapHas(entry, "from");
    FieldMapHas(entry, "to");
    FieldMapHas(entry, "latency_ms");
    forall value: string, latency
      ensures ParseLatency(value) == Some(latency) <==> SaysLatency(value, latency)
    {
      LatencySaid(value, latency);
    }
  }

  // ---- sections ----

  function Blocks(entries: seq<seq<Field>>): seq<string> {
    if entries == [] then [] else Blocks(entries[..|entries| - 1]) + EntryLines(entries[|entries| - 1])
  }

  predicate WritableAll(entries: seq<seq<Field>>) {
    forall i | 0 <= i < |entries| :: Writable(entries[i])
  }

  /** Reading a section's entries and finishing the last of them. */
  function Section(s: State, entries: seq<seq<Field>>): Result<State, YamlError> {
    Done(s, Blocks(entries))
  }

  /** One more entry finishes the one before it, and is finished in turn. */
  lemma SectionNext(s: State, entries: seq<seq<Field>>)
    requires entries != [] && WritableAll(entries)
    requires s.section == NodeSection || s.section == LinkSection
    requires var front := Fold(s, Blocks(entries[..|entries| - 1]));
             front.Ok? ==> front.value.section == s.section
                           && (Flush(front.value).Ok? ==> Flush(front.value).value.fields == map[])
    ensures var before, entry := Section(s, entries[..|entries| - 1]), entries[|entries| - 1];
            && (before.Err? ==> Section(s, entries).Err?)
            && (before.Ok? && !DistinctKeys(entry) ==> Section(s, entries).Err?)
            && (before.Ok? && DistinctKeys(entry) ==>
                  Section(s, entries)
                  == Flush(before.value.(entrySection := s.section, hasEntry := true, fields := FieldMap(entry))))
            && (Fold(s, Blocks(entries)).Ok? ==> Fold(s, Blocks(entries)).value.section == s.section)
  {
    hide Step, Flush, EntryLines, Writable, DistinctKeys, FieldMap;
    var front, entry := entries[..|entries| - 1], entries[|entries| - 1];
    FoldConcat(s, Blocks(front), EntryLines(entry));
    assert Writable(entry);
    if Fold(s, Blocks(front)).Ok? {
      var u := Fold(s, Blocks(front)).value;
      if Flush(u).Ok? {
        EntryFolded(u, entry);
      } else {
        DashFails(u, entry);
      }
    }
  }

  /** Nothing is read behind an entry that cannot be finished. */
  lemma DashFails(u: State, entry: seq<Field>)
    requires (u.section == NodeSection || u.section == LinkSection) && Flush(u).Err?
    ensures Fold(u, EntryLines(entry)).Err?
  {
    hide Step, Flush, FieldLine;
    var fields := seq(|entry|, i requires 0 <= i < |entry| => FieldLine(entry[i]));
    DashStep(u);
    FoldFront(u, "  -", fields);
  }

  /** Entries of a section: read exactly when each is a node, and then as those nodes. */
  lemma {:induction false} NodesFold(s: State, entries: seq<seq<Field>>)
    requires s.section == NodeSection && !s.hasEntry && s.fields == map[] && WritableAll(entries)
    ensures var r, done := Fold(s, Blocks(entries)), Section(s, entries);
            && (r.Ok? ==> r.value.section == NodeSection)
            && (done.Ok? <==> forall i | 0 <= i < |entries| :: IsNode(entries[i]))
            && (done.Ok? ==>
                  && done.value == s.(nodes := done.value.nodes, entrySection := done.value.entrySection)
                  && |done.value.nodes| == |s.nodes| + |entries| && done.value.nodes[..|s.nodes|] == s.nodes
                  && forall i | 0 <= i < |entries| :: SaysNode(entries[i], done.value.nodes[|s.nodes| + i]))
    decreases |entries|
  {
    hide Step, EntryLines, Writable, DistinctKeys, FieldMap, IsNode, SaysNode, NodeOf;
    if entries != [] {
      var front, entry := entries[..|entries| - 1], entries[|entries| - 1];
      NodesFold(s, front);
      FlushClears(s, front);
      SectionNext(s, entries);
      assert entries == front + [entry];
      if DistinctKeys(entry) {
        NodeSaid(entry);
      } else {
        NoNode(entry);
      }
      assert (forall i | 0 <= i < |entries| :: IsNode(entries[i]))
         <==> (forall i | 0 <= i < |front| :: IsNode(front[i])) && IsNode(entry);
    }
  }

  lemma NoNode(entry: seq<Field>)
    requires !DistinctKeys(entry)
    ensures !IsNode(entry) && !IsLink(entry)
  {
  }

  lemma FlushClears(s: State, entries: seq<seq<Field>>)
    requires Section(s, entries).Ok? ==> Section(s, entries).value.fields == map[]
    ensures var r := Fold(s, Blocks(entries));
            r.Ok? && Flush(r.value).Ok? ==> Flush(r.value).value.fields == map[]
  {
    hide Step;
  }

  lemma {:induction false} LinksFold(s: State, entries: seq<seq<Field>>)
    requires s.section == LinkSection && !s.hasEntry && s.fields == map[] && WritableAll(entries)
    ensures var r, done := Fold(s, Blocks(entries)), Section(s, entries);
            && (r.Ok? ==> r.value.section == LinkSection)
            && (done.Ok? <==> forall i | 0 <= i < |entries| :: IsLink(entries[i]))
            && (done.Ok? ==>
                  && done.value == s.(links := done.value.links, entrySection := done.value.entrySection)
                  && |done.value.links| == |s.links| + |entries| && done.value.links[..|s.links|] == s.links
                  && forall i | 0 <= i < |entries| :: SaysLink(entries[i], done.value.links[|s.links| + i]))
    decreases |entries|
  {
    hide Step, EntryLines, Writable, DistinctKeys, FieldMap, IsLink, SaysLink, LinkOf;
    if entries != [] {
      var front, entry := entries[..|entries| - 1], entries[|entries| - 1];
      LinksFold(s, front);
      FlushClears(s, front);
      SectionNext(s, entries);
      assert entries == front + [entry];
      if DistinctKeys(entry) {
        LinkSaid(entry);
      } else {
        NoNode(entry);
      }
      assert (forall i | 0 <= i < |entries| :: IsLink(entries[i]))
         <==> (forall i | 0 <= i < |front| :: IsLink(front[i])) && IsLink(entry);
    }
  }

  // ---- whole files ----

  /** A file with its nodes and links field by field. */
  function Document(name: string, nodes: seq<seq<Field>>, links: seq<seq<Field>>): seq<string> {
    ["network:", "  name: " + name, "nodes:"] + Blocks(nodes) + ["links:"] + Blocks(links)
  }

  /** It is accepted exactly when each node entry is a node and each link entry a link, and is read as those. */
  lemma DocumentRead(name: string, nodes: seq<seq<Field>>, links: seq<seq<Field>>)
    requires IsWord(name) && WritableAll(nodes) && WritableAll(links)
    ensures var r := ParseYaml(Ended(Document(name, nodes, links)));
            && (r.Ok? <==>
                  && (forall i | 0 <= i < |nodes| :: IsNode(nodes[i]))
                  && (forall i | 0 <= i < |links| :: IsLink(links[i])))
            && (r.Ok? ==>
                  && r.value.name == name && |r.value.nodes| == |nodes| && |r.value.links| == |links|
                  && (forall i | 0 <= i < |nodes| :: SaysNode(nodes[i], r.value.nodes[i]))
                  && (forall i | 0 <= i < |links| :: SaysLink(links[i], r.value.links[i])))
  {
    hide Step, Flush, Fold, Blocks, Pieces, Ended, WritableAll, IsNode, IsLink, SaysNode, SaysLink, IsWord, Section;
    var head, lines := ["network:", "  name: " + name, "nodes:"], Document(name, nodes, links);
    DocumentClean(name, nodes, links);
    PiecesOfEnded(lines);
    FoldConcat(START, head + Blocks(nodes) + ["links:"], Blocks(links));
    FoldConcat(START, head + Blocks(nodes), ["links:"]);
    FoldConcat(START, head, Blocks(nodes));
    HeadRead(name);
    var named := NETWORK_STATE.(name := Some(name), section := NodeSection, hasNodes := true);
    NodesFold(named, nodes);
    var u := Fold(named, Blocks(nodes));
    if u.Ok? {
      SectionIs(named, nodes);
      OneLine(u.value, "links:");
      LinksHeader(u.value);
      if Flush(u.value).Ok? {
        var s := Flush(u.value).value.(section := LinkSection, hasLinks := true);
        LinksFold(s, links);
        SectionIs(s, links);
      }
    } else {
      SectionIs(named, nodes);
    }
  }

  lemma SectionIs(s: State, entries: seq<seq<Field>>)
    ensures var r := Fold(s, Blocks(entries));
            Section(s, entries) == if r.Err? then Err(r.error) else Flush(r.value)
  {
    hide Step, Flush;
  }

  lemma OneLine(s: State, line: string)
    ensures Fold(s, [line]) == Step(s, line)
  {
    hide Step;
    FoldFront(s, line, []);
    if Step(s, line).Ok? {
      FoldNothing(Step(s, line).value);
    }
    assert [line] + [] == [line];
  }

  lemma HeadRead(name: string)
    requires IsWord(name)
    ensures Fold(START, ["network:", "  name: " + name, "nodes:"])
         == Ok(NETWORK_STATE.(name := Some(name), section := NodeSection, hasNodes := true))
  {
    hide Step, Fold;
    NetworkLine();
    NameWord(NETWORK_STATE, name);
    var named := NETWORK_STATE.(name := Some(name));
    NodesHeader(named);
    FoldFront(START, "network:", ["  name: " + name, "nodes:"]);
    FoldFront(NETWORK_STATE, "  name: " + name, ["nodes:"]);
    OneLine(named, "nodes:");
    assert ["network:"] + ["  name: " + name, "nodes:"] == ["network:", "  name: " + name, "nodes:"];
    assert ["  name: " + name] + ["nodes:"] == ["  name: " + name, "nodes:"];
  }

  lemma NameWord(s: State, name: string)
    requires s.section == NetworkSection && s.name.None? && IsWord(name)
    ensures Step(s, "  name: " + name) == Ok(s.(name := Some(name)))
  {
    hide Keep, Trim, SplitField;
    var line := "  name: " + name;
    NamePrefix();
    assert Unmarked(line);
    UnmarkedLine(line);
    IndentedTwo(line);
    assert line[2..] == Blank(false) + "name" + [':'] + ([' '] + (name + Blank(false)));
    SplitsField("name", false, name, false);
  }

  lemma DocumentClean(name: string, nodes: seq<seq<Field>>, links: seq<seq<Field>>)
    requires IsWord(name) && WritableAll(nodes) && WritableAll(links)
    ensures var lines := Document(name, nodes, links); forall i | 0 <= i < |lines| :: '\n' !in lines[i]
  {
    hide WritableAll, Blocks;
    BlocksClean(nodes);
    BlocksClean(links);
    assert '\n' !in "network:" && '\n' !in "  name: " && '\n' !in "nodes:" && '\n' !in "links:";
  }

  lemma {:induction false} BlocksClean(entries: seq<seq<Field>>)
    requires WritableAll(entries)
    ensures forall i | 0 <= i < |Blocks(entries)| :: '\n' !in Blocks(entries)[i]
  {
    if entries != [] {
      var entry := entries[|entries| - 1];
      BlocksClean(entries[..|entries| - 1]);
      assert Writable(entry);
      assert '\n' !in "  -" && '\n' !in "    " && '\n' !in ": ";
      assert forall i | 0 <= i < |entry| :: '\n' !in FieldLine(entry[i]);
    }
  }

  // ---- any accepted file ----

  predicate IsHead(line: string, head: string) {
    WithoutComment(line) == head
  }

  /** `head` stands in these lines once if it was met, and not at all otherwise. */
  ghost predicate Met(lines: seq<string>, head: string, met: bool) {
    && (met <==> exists i :: 0 <= i < |lines| && IsHead(lines[i], head))
    && forall i, j | 0 <= i < j < |lines| :: !(IsHead(lines[i], head) && IsHead(lines[j], head))
  }

  lemma HeadStep(s: State, line: string)
    requires Step(s, line).Ok?
    ensures var next := Step(s, line).value;
            && (IsHead(line, "network:") <==> !s.hasNetwork && next.hasNetwork)
            && (IsHead(line, "nodes:") <==> !s.hasNodes && next.hasNodes)
            && (IsHead(line, "links:") <==> !s.hasLinks && next.hasLinks)
            && (s.hasNetwork ==> next.hasNetwork) && (s.hasNodes ==> next.hasNodes) && (s.hasLinks ==> next.hasLinks)
  {
    hide Keep, FlowMapping, SplitField, Trim;
    var kept := WithoutComment(line);
    SectionLines();
    Heading("network:");
    Heading("nodes:");
    Heading("links:");
    if Trim(kept) != [] && Indent(kept) == 0 {
      assert kept[0..] == kept;
    }
  }

  lemma Heading(head: string)
    requires head != [] && !IsBlank(head[0]) && !IsBlank(head[|head| - 1])
    ensures Trim(head) == head && Indent(head) == 0
  {
    hide TrimLeft, TrimRight;
    TrimsWord(head, false, false);
    assert "" + (head + "") == head;
  }

  lemma {:induction false} HeadersMet(lines: seq<string>)
    requires Fold(START, lines).Ok?
    ensures var s := Fold(START, lines).value;
            Met(lines, "network:", s.hasNetwork) && Met(lines, "nodes:", s.hasNodes) && Met(lines, "links:", s.hasLinks)
    decreases |lines|
  {
    hide Step, IsHead, Met;
    if lines == [] {
      NoneMet();
    } else {
      var front, last := lines[..|lines| - 1], lines[|lines| - 1];
      HeadersMet(front);
      var before := Fold(START, front).value;
      HeadStep(before, last);
      assert lines == front + [last];
      MetNext(front, last, "network:", before.hasNetwork);
      MetNext(front, last, "nodes:", before.hasNodes);
      MetNext(front, last, "links:", before.hasLinks);
    }
  }

  lemma NoneMet()
    ensures Met([], "network:", false) && Met([], "nodes:", false) && Met([], "links:", false)
  {
  }

  lemma MetNext(front: seq<string>, last: string, head: string, met: bool)
    requires Met(front, head, met) && !(met && IsHead(last, head))
    ensures Met(front + [last], head, met || IsHead(last, head))
  {
    hide IsHead;
    var lines := front + [last];
    assert forall i | 0 <= i < |front| :: lines[i] == front[i];
    assert lines[|front|] == last;
  }

  /** Every accepted file has each of the three headings exactly once, whatever else is in it. */
  lemma HeadersOnce(yaml: string)
    requires ParseYaml(yaml).Ok?
    ensures var lines := Pieces(yaml, '\n');
            Met(lines, "network:", true) && Met(lines, "nodes:", true) && Met(lines, "links:", true)
  {
    hide Step, IsHead, Pieces, Fold;
    HeadersMet(Pieces(yaml, '\n'));
  }
}
