/** How the topology reader takes apart text it printed itself: lines, quotes, fields. */
module YamlText {
  import opened Results
  import opened Sequences
  import opened Text
  import opened TopologyModel
  import opened TopologyYaml

  // ---- pieces ----

  lemma {:induction false} IndexIs(a: string, c: char, rest: string)
    requires c !in a
    ensures IndexOf(a + [c] + rest, c) == Some(|a|)
    decreases |a|
  {
    if a != [] {
      IndexIs(a[1..], c, rest);
      assert (a + [c] + rest)[1..] == a[1..] + [c] + rest;
    }
  }

  lemma PiecesCons(a: string, c: char, rest: string)
    requires c !in a
    ensures Pieces(a + [c] + rest, c) == [a] + Pieces(rest, c)
  {
    IndexIs(a, c, rest);
    var s := a + [c] + rest;
    assert s[..|a|] == a && s[|a| + 1..] == rest;
  }

  lemma PiecesOne(a: string, c: char)
    requires c !in a && a != []
    ensures Pieces(a, c) == [a]
  {
  }

  lemma {:induction false} EndedFront(line: string, lines: seq<string>)
    ensures Ended([line] + lines) == line + "\n" + Ended(lines)
    decreases |lines|
  {
    var all := [line] + lines;
    if lines == [] {
      assert all[..0] == [];
      assert Ended([]) == "";
      assert "" + (line + "\n") == line + "\n" + "";
    } else {
      EndedFront(line, lines[..|lines| - 1]);
      assert all[..|all| - 1] == [line] + lines[..|lines| - 1] && all[|all| - 1] == lines[|lines| - 1];
      Assoc(line + "\n", Ended(lines[..|lines| - 1]), lines[|lines| - 1] + "\n");
    }
  }

  /** Lines without line breaks come back. */
  lemma {:induction false} PiecesOfEnded(lines: seq<string>)
    requires forall i | 0 <= i < |lines| :: '\n' !in lines[i]
    ensures Pieces(Ended(lines), '\n') == lines
    decreases |lines|
  {
    if lines != [] {
      var first, rest := lines[0], lines[1..];
      assert forall i | 0 <= i < |rest| :: rest[i] == lines[i + 1];
      PiecesOfEnded(rest);
      EndedFront(first, rest);
      assert lines == [first] + rest;
      PiecesCons(first, '\n', Ended(rest));
    }
  }

  /** The first piece is what comes before the first separator. */
  lemma FirstPiece(a: string, rest: string, c: char)
    requires c !in a && a != []
    ensures Pieces(a + rest, c) != []
    ensures var at := IndexOf(rest, c);
            var r := if at.None? then rest else rest[..at.value];
            Pieces(a + rest, c)[0] == a + r && c !in r && r <= rest
  {
    var at := IndexOf(rest, c);
    if at.None? {
      PiecesOne(a + rest, c);
    } else {
      var r := rest[..at.value];
      assert a + rest == (a + r) + [c] + rest[at.value + 1..];
      PiecesCons(a + r, c, rest[at.value + 1..]);
    }
  }

  // ---- blanks ----

  lemma {:induction false} TrimRightKeeps(a: string, rest: string)
    requires a != [] && !IsBlank(a[|a| - 1])
    ensures TrimRight(a + rest) == a + TrimRight(rest)
    decreases |rest|
  {
    if rest == [] {
      assert a + rest == a;
      assert a + [] == a;
    } else if IsBlank(rest[|rest| - 1]) {
      TrimRightKeeps(a, rest[..|rest| - 1]);
      assert (a + rest)[..|a + rest| - 1] == a + rest[..|rest| - 1];
    }
  }

  lemma TrimLeftOne(s: string)
    requires s != [] && !IsBlank(s[0])
    ensures TrimLeft([' '] + s) == s && TrimLeft(s) == s
  {
    assert ([' '] + s)[1..] == s;
  }

  lemma OneBlank()
    ensures TrimRight(" ") == "" && TrimRight("") == ""
  {
    assert " "[..0] == "";
  }

  function Blank(there: bool): string {
    if there then " " else ""
  }

  /** A word between at most one blank on each side. */
  lemma TrimsWord(word: string, lead: bool, tail: bool)
    requires word != [] && !IsBlank(word[0]) && !IsBlank(word[|word| - 1])
    ensures Trim(Blank(lead) + (word + Blank(tail))) == word
  {
    hide TrimLeft, TrimRight;
    var padded := word + Blank(tail);
    TrimLeftOne(padded);
    assert lead ==> Blank(lead) + padded == [' '] + padded;
    assert !lead ==> Blank(lead) + padded == padded;
    TrimRightKeeps(word, Blank(tail));
    OneBlank();
    assert word + "" == word;
  }

  // ---- comments and quotes ----

  predicate Plain(s: string) {
    '"' !in s && '\\' !in s
  }

  predicate Unmarked(s: string) {
    forall i | 0 <= i < |s| :: !IsQuote(s[i]) && s[i] != '#' && s[i] != '\\'
  }

  function LastOf(previous: char, s: string): char {
    if s == [] then previous else s[|s| - 1]
  }

  /** Text without quotes and hashes stays, outside quotes. */
  lemma {:induction false} KeepUnmarked(previous: char, s: string, rest: string)
    requires Unmarked(s)
    ensures Keep(previous, NO_QUOTE, s + rest) == s + Keep(LastOf(previous, s), NO_QUOTE, rest)
    decreases |s|
  {
    hide Keep;
    if s == [] {
      assert s + rest == rest;
      assert [] + Keep(previous, NO_QUOTE, rest) == Keep(previous, NO_QUOTE, rest);
    } else {
      KeepUnmarked(s[0], s[1..], rest);
      FirstApart(s, rest);
      KeepStep(previous, NO_QUOTE, s + rest);
      Assoc([s[0]], s[1..], Keep(LastOf(s[0], s[1..]), NO_QUOTE, rest));
    }
  }

  lemma FirstApart(s: string, rest: string)
    requires s != []
    ensures (s + rest)[0] == s[0] && (s + rest)[1..] == s[1..] + rest && [s[0]] + s[1..] == s
  {
  }

  /** Inside double quotes, plain text stays whatever is in it. */
  lemma {:induction false} KeepInside(previous: char, s: string, rest: string)
    requires Plain(s) && previous != '\\'
    ensures Keep(previous, '"', s + rest) == s + Keep(LastOf(previous, s), '"', rest)
    ensures LastOf(previous, s) != '\\'
    decreases |s|
  {
    hide Keep;
    if s == [] {
      assert s + rest == rest;
      assert [] + Keep(previous, '"', rest) == Keep(previous, '"', rest);
    } else {
      KeepInside(s[0], s[1..], rest);
      FirstApart(s, rest);
      KeepStep(previous, '"', s + rest);
      Assoc([s[0]], s[1..], Keep(LastOf(s[0], s[1..]), '"', rest));
    }
  }

  lemma {:induction false} EscapedPlain(s: string)
    requires Plain(s)
    ensures Escaped(s) == s
  {
    if s != [] {
      EscapedPlain(s[1..]);
      assert s == [s[0]] + s[1..];
    }
  }

  /** A quoted plain text stays whole, and closes its quote. */
  lemma KeepQuoted(previous: char, s: string, rest: string)
    requires Plain(s) && previous != '\\'
    ensures Keep(previous, NO_QUOTE, YamlQuote(s) + rest) == YamlQuote(s) + Keep('"', NO_QUOTE, rest)
  {
    hide Keep;
    var q, behind := YamlQuote(s) + rest, "\"" + rest;
    EscapedPlain(s);
    assert q == "\"" + (s + behind) && q[1..] == s + behind;
    KeepStep(previous, NO_QUOTE, q);
    KeepInside('"', s, behind);
    assert behind[1..] == rest;
    KeepStep(LastOf('"', s), '"', behind);
    assert "\"" + (s + ("\"" + Keep('"', NO_QUOTE, rest))) == YamlQuote(s) + Keep('"', NO_QUOTE, rest);
  }

  /** What an opening quote after unmarked text leaves. */
  lemma KeepOpens(a: string, s: string)
    requires Unmarked(a)
    ensures WithoutComment(a + ("\"" + s)) == a + ("\"" + Keep('"', '"', s))
  {
    hide Keep;
    KeepUnmarked(NO_QUOTE, a, "\"" + s);
    assert ("\"" + s)[1..] == s;
    assert LastOf(NO_QUOTE, a) != '\\';
    KeepStep(LastOf(NO_QUOTE, a), NO_QUOTE, "\"" + s);
  }

  // ---- fields ----

  /** A field with a known key: its value is what its text is, out of quotes. */
  lemma SplitsAt(key: string, lead: bool, text: string)
    requires key != [] && ':' !in key && !IsBlank(key[0]) && !IsBlank(key[|key| - 1])
    ensures SplitField(Blank(lead) + key + [':'] + text) ==
            if Unquoted(Trim(text)).None? then None else Some((key, Unquoted(Trim(text)).value))
  {
    hide Trim, Unquoted, IndexOf;
    var before := Blank(lead) + key;
    var whole := before + [':'] + text;
    IndexIs(before, ':', text);
    assert whole[..|before|] == before && whole[|before| + 1..] == text;
    TrimsWord(key, lead, false);
    assert key + "" == key;
  }

  /** A printed field reads back. */
  lemma SplitsField(key: string, lead: bool, value: string, tail: bool)
    requires key != [] && ':' !in key && !IsBlank(key[0]) && !IsBlank(key[|key| - 1])
    requires value != [] && !IsBlank(value[0]) && !IsBlank(value[|value| - 1]) && Unquoted(value).Some?
    ensures SplitField(Blank(lead) + key + [':'] + ([' '] + (value + Blank(tail))))
         == Some((key, Unquoted(value).value))
  {
    hide Trim, Unquoted, SplitField;
    SplitsAt(key, lead, [' '] + (value + Blank(tail)));
    TrimsWord(value, true, tail);
  }

  lemma UnquotesBack(s: string)
    requires Plain(s) && s != []
    ensures Unquoted(YamlQuote(s)) == Some(s)
  {
    EscapedPlain(s);
    assert YamlQuote(s)[1..|YamlQuote(s)| - 1] == s;
  }

  // ---- what an open quote can turn into ----

  /** A value read from text behind an opening quote: it ends where that text has a quote. */
  predicate CutFrom(value: string, text: string) {
    |value| < |text| && text[..|value|] == value && text[|value|] == '"'
  }

  lemma OpenQuote(text: string)
    ensures var value := Unquoted(Trim(" \"" + text)); value.Some? ==> CutFrom(value.value, text)
  {
    var t := TrimRight(text);
    TrimLeftOne("\"" + text);
    assert [' '] + ("\"" + text) == " \"" + text;
    TrimRightKeeps("\"", text);
    assert Trim(" \"" + text) == "\"" + t;
    if Unquoted("\"" + t).Some? {
      assert ("\"" + t)[1..|t|] == t[..|t| - 1];
      assert ("\"" + t)[|t|] == t[|t| - 1];
    }
  }

  /** A prefix of kept text is a prefix of the text. */
  lemma CutFromLonger(value: string, part: string, whole: string)
    requires CutFrom(value, part) && part <= whole
    ensures CutFrom(value, whole)
  {
    assert whole[..|part|] == part;
  }

  lemma {:induction false} EscapedConcat(a: string, b: string)
    ensures Escaped(a + b) == Escaped(a) + Escaped(b)
    decreases |a|
  {
    if a == [] {
      assert a + b == b;
    } else {
      EscapedConcat(a[1..], b);
      assert (a + b)[1..] == a[1..] + b && (a + b)[0] == a[0];
      var first := if a[0] == '\\' || a[0] == '"' then ['\\', a[0]] else [a[0]];
      Assoc(first, Escaped(a[1..]), Escaped(b));
    }
  }

  predicate Backslashes(s: string) {
    forall i | 0 <= i < |s| :: s[i] == '\\'
  }

  lemma {:induction false} EscapedBackslashes(s: string)
    requires Backslashes(s)
    ensures |Escaped(s)| == 2 * |s| && Backslashes(Escaped(s))
  {
    if s != [] {
      EscapedBackslashes(s[1..]);
    }
  }

  /** A text that starts with a character that is escaped cannot be what is cut from its escaped form. */
  lemma {:induction false} AllBackslashes(t: string, rest: string, k: nat)
    requires t != [] && (t[0] == '"' || t[0] == '\\') && k <= |t|
    requires CutFrom(t, Escaped(t) + ("\"" + rest))
    ensures Backslashes(t[..k])
    decreases k
  {
    var whole := Escaped(t) + ("\"" + rest);
    if k == 1 {
      assert whole[0] == '\\' && whole[..|t|][0] == t[0];
    } else if k > 1 {
      AllBackslashes(t, rest, k - 1);
      var front := t[..k - 1];
      EscapedBackslashes(front);
      EscapedConcat(front, t[k - 1..]);
      assert t == front + t[k - 1..];
      assert whole[k - 1] == Escaped(front)[k - 1] == '\\';
      assert whole[..|t|][k - 1] == t[k - 1];
    }
  }

  lemma EscapedNeverCut(t: string, rest: string)
    requires t != [] && (t[0] == '"' || t[0] == '\\')
    ensures !CutFrom(t, Escaped(t) + ("\"" + rest))
  {
    var whole := Escaped(t) + ("\"" + rest);
    if CutFrom(t, whole) {
      AllBackslashes(t, rest, |t|);
      assert t[..|t|] == t;
      EscapedBackslashes(t);
    }
  }

  /** A text is cut from its own printed form only if nothing in it was escaped. */
  lemma {:induction false} CutIsPlain(s: string, rest: string)
    requires CutFrom(s, Escaped(s) + ("\"" + rest))
    ensures Plain(s)
    decreases |s|
  {
    if s != [] {
      if s[0] == '"' || s[0] == '\\' {
        EscapedNeverCut(s, rest);
      } else {
        var whole, t := Escaped(s) + ("\"" + rest), s[1..];
        var less := Escaped(t) + ("\"" + rest);
        assert whole == [s[0]] + less;
        assert whole[1..] == less && whole[..|s|][1..] == less[..|t|];
        assert less[|t|] == whole[|s|];
        CutIsPlain(t, rest);
        assert s == [s[0]] + t;
      }
    }
  }
}
