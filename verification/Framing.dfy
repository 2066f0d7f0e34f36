/** Newline framing of src/control_server.cpp: messages end with a line break, arrive in any chunks, and come
    out whole, in order, one at a time or all at once. */
module Framing {
  import opened Results
  import opened Sequences

  predicate OneLine(s: string) {
    '\n' !in s
  }

  /** Where the first line break is. */
  function LineEnd(s: string): (at: Option<nat>)
    ensures at.Some? ==> at.value < |s| && s[at.value] == '\n' && OneLine(s[..at.value])
    ensures at.None? <==> OneLine(s)
  {
    if s == [] then None
    else if s[0] == '\n' then Some(0)
    else
      var rest := LineEnd(s[1..]);
      if rest.None? then None
      else
        assert s[..rest.value + 1] == [s[0]] + s[1..][..rest.value];
        Some(rest.value + 1)
  }

  /** A line without one carriage return at its end. */
  function Stripped(line: string): string {
    if line != [] && line[|line| - 1] == '\r' then line[..|line| - 1] else line
  }

  /** A line as the messages it holds: one, or none if it is empty. */
  function MessageOf(line: string): seq<string> {
    if Stripped(line) == [] then [] else [Stripped(line)]
  }

  /** Every complete message of a buffer, and the partial line that stays. */
  function Extract(buffer: string): (r: (seq<string>, string))
    ensures OneLine(r.1)
    decreases |buffer|
  {
    var end := LineEnd(buffer);
    if end.None? then ([], buffer)
    else
      var (others, tail) := Extract(buffer[end.value + 1..]);
      (MessageOf(buffer[..end.value]) + others, tail)
  }

  /** The first complete message, and what is behind it. */
  function ExtractOne(buffer: string): (r: (Option<string>, string))
    ensures r.0.Some? ==> |r.1| < |buffer|
    decreases |buffer|
  {
    var end := LineEnd(buffer);
    if end.None? then (None, buffer)
    else
      var message, rest := Stripped(buffer[..end.value]), buffer[end.value + 1..];
      if message == [] then ExtractOne(rest) else (Some(message), rest)
  }

  lemma {:induction false} LineEndIs(line: string, rest: string)
    requires OneLine(line)
    ensures LineEnd(line + "\n" + rest) == Some(|line|)
    decreases |line|
  {
    if line != [] {
      LineEndIs(line[1..], rest);
      assert (line + "\n" + rest)[1..] == line[1..] + "\n" + rest;
    }
  }

  lemma EmptyFirst<T>(s: seq<T>)
    ensures [] + s == s
  {
  }

  /** The buffer may be cut anywhere: what comes later continues the partial line. */
  lemma {:induction false} ExtractConcat(a: string, b: string)
    ensures var (first, tail) := Extract(a);
            var (second, rest) := Extract(tail + b);
            Extract(a + b) == (first + second, rest)
    decreases |a|
  {
    hide MessageOf;
    var end := LineEnd(a);
    if end.None? {
      EmptyFirst(Extract(a + b).0);
    } else {
      var line, others := a[..end.value], a[end.value + 1..];
      assert a + b == line + "\n" + (others + b);
      LineEndIs(line, others + b);
      assert (a + b)[..|line|] == line && (a + b)[|line| + 1..] == others + b;
      ExtractConcat(others, b);
      Assoc(MessageOf(line), Extract(others).0, Extract(Extract(others).1 + b).0);
    }
  }

  function Joined(chunks: seq<string>): string {
    if chunks == [] then "" else Joined(chunks[..|chunks| - 1]) + chunks[|chunks| - 1]
  }

  /** Reading chunk after chunk: every message so far, and the partial line. */
  function Received(chunks: seq<string>): (seq<string>, string) {
    if chunks == [] then ([], "")
    else
      var (before, inbox) := Received(chunks[..|chunks| - 1]);
      var (now, tail) := Extract(inbox + chunks[|chunks| - 1]);
      (before + now, tail)
  }

  /** However the bytes are cut into chunks, the messages are those of the whole. */
  lemma {:induction false} ChunksIrrelevant(chunks: seq<string>)
    ensures Received(chunks) == Extract(Joined(chunks))
    decreases |chunks|
  {
    if chunks != [] {
      ChunksIrrelevant(chunks[..|chunks| - 1]);
      ExtractConcat(Joined(chunks[..|chunks| - 1]), chunks[|chunks| - 1]);
    }
  }

  lemma ExtractStep(buffer: string, end: nat)
    requires LineEnd(buffer) == Some(end)
    ensures Extract(buffer).0 == MessageOf(buffer[..end]) + Extract(buffer[end + 1..]).0
    ensures Extract(buffer).1 == Extract(buffer[end + 1..]).1
  {
  }

  lemma ExtractDone(buffer: string)
    requires LineEnd(buffer) == None
    ensures Extract(buffer) == ([], buffer)
  {
  }

  /** Taking messages one at a time takes the same messages, and leaves the same partial line. */
  lemma {:induction false} OneAtATime(buffer: string)
    ensures var (message, rest) := ExtractOne(buffer);
            && Extract(buffer) == (if message.Some? then [message.value] + Extract(rest).0 else [], Extract(rest).1)
            && (message.None? ==> OneLine(rest))
    decreases |buffer|
  {
    hide Stripped, OneLine, Extract, LineEnd;
    var end := LineEnd(buffer);
    if end.Some? {
      var rest := buffer[end.value + 1..];
      ExtractStep(buffer, end.value);
      OneAtATime(rest);
      EmptyFirst(Extract(rest).0);
    } else {
      ExtractDone(buffer);
    }
  }

  // ---- sending and receiving ----

  function Framed(messages: seq<string>): string {
    if messages == [] then "" else Framed(messages[..|messages| - 1]) + (messages[|messages| - 1] + "\n")
  }

  /** A message that framing preserves. */
  predicate Frameable(message: string) {
    message != [] && OneLine(message) && message[|message| - 1] != '\r'
  }

  predicate AllFrameable(messages: seq<string>) {
    forall i | 0 <= i < |messages| :: Frameable(messages[i])
  }

  lemma ExtractLine(line: string)
    requires OneLine(line)
    ensures Extract(line + "\n") == (MessageOf(line), "")
  {
    LineEndIs(line, "");
    assert line + "\n" + "" == line + "\n";
    assert (line + "\n")[..|line|] == line && (line + "\n")[|line| + 1..] == "";
    assert Extract("") == ([], "");
    assert MessageOf(line) + [] == MessageOf(line);
  }

  /** The messages that lines without breaks turn into. */
  function Messages(lines: seq<string>): seq<string> {
    if lines == [] then [] else Messages(lines[..|lines| - 1]) + MessageOf(lines[|lines| - 1])
  }

  lemma {:induction false} ExtractFramed(lines: seq<string>)
    requires forall i | 0 <= i < |lines| :: OneLine(lines[i])
    ensures Extract(Framed(lines)) == (Messages(lines), "")
    decreases |lines|
  {
    if lines != [] {
      var front, last := lines[..|lines| - 1], lines[|lines| - 1];
      ExtractFramed(front);
      ExtractConcat(Framed(front), last + "\n");
      assert "" + (last + "\n") == last + "\n";
      ExtractLine(last);
    }
  }

  function StrippedAll(lines: seq<string>): (stripped: seq<string>)
    ensures |stripped| == |lines| && forall i | 0 <= i < |lines| :: stripped[i] == Stripped(lines[i])
  {
    seq(|lines|, i requires 0 <= i < |lines| => Stripped(lines[i]))
  }

  /** Nothing grows: as many messages as lines means each line is its own message. */
  lemma {:induction false} MessagesAreLines(lines: seq<string>)
    ensures |Messages(lines)| <= |lines|
    ensures |Messages(lines)| == |lines| ==> Messages(lines) == StrippedAll(lines)
    ensures [] !in StrippedAll(lines) ==> |Messages(lines)| == |lines|
    decreases |lines|
  {
    hide Stripped;
    if lines != [] {
      var front, last := lines[..|lines| - 1], lines[|lines| - 1];
      MessagesAreLines(front);
      assert StrippedAll(lines) == StrippedAll(front) + [Stripped(last)];
    }
  }

  lemma {:induction false} ExtractedAreMessages(buffer: string)
    ensures forall i | 0 <= i < |Extract(buffer).0| :: Extract(buffer).0[i] != [] && OneLine(Extract(buffer).0[i])
    decreases |buffer|
  {
    var end := LineEnd(buffer);
    if end.Some? {
      ExtractedAreMessages(buffer[end.value + 1..]);
    }
  }

  /** What was framed is recovered exactly when no message is empty, has a line break, or ends with a
      carriage return. */
  lemma RecoveredExactly(messages: seq<string>)
    ensures Extract(Framed(messages)).0 == messages <==> AllFrameable(messages)
  {
    hide Extract, Framed, Messages;
    if AllFrameable(messages) {
      ExtractFramed(messages);
      MessagesAreLines(messages);
      assert StrippedAll(messages) == messages;
    }
    if Extract(Framed(messages)).0 == messages {
      ExtractedAreMessages(Framed(messages));
      ExtractFramed(messages);
      MessagesAreLines(messages);
      forall i | 0 <= i < |messages|
        ensures Frameable(messages[i])
      {
        assert messages[i] == Stripped(messages[i]);
      }
    }
  }

  /** An empty message is lost, and so is a carriage return at the end of one. */
  lemma LostInFraming()
    ensures Extract(Framed([""])).0 != [""] && Extract(Framed(["a\r"])).0 != ["a\r"]
  {
    hide Extract, Framed;
    RecoveredExactly([""]);
    RecoveredExactly(["a\r"]);
    assert [""][0] == "" && ["a\r"][0] == "a\r";
  }

  /** Framed messages, cut into any chunks, come out whole and in order. */
  lemma ReceivedInOrder(messages: seq<string>, chunks: seq<string>)
    requires AllFrameable(messages) && Joined(chunks) == Framed(messages)
    ensures Received(chunks) == (messages, "")
  {
    hide Extract, Framed, Received, Joined;
    ChunksIrrelevant(chunks);
    RecoveredExactly(messages);
    ExtractFramed(messages);
  }

  /** From any part of the stream that has arrived, the messages out of it are the first ones sent. */
  lemma PartialIsPrefix(messages: seq<string>, arrived: string)
    requires AllFrameable(messages) && arrived <= Framed(messages)
    ensures Extract(arrived).0 <= messages
  {
    hide Extract, Framed;
    var whole := Framed(messages);
    assert whole == arrived + whole[|arrived|..];
    ExtractConcat(arrived, whole[|arrived|..]);
    RecoveredExactly(messages);
  }

  // ---- the two readers ----

  method TakeMessages(buffer: string) returns (messages: seq<string>, rest: string)
    ensures (messages, rest) == Extract(buffer)
  {
    hide Extract, LineEnd;
    messages := [];
    var start := 0;
    assert buffer[0..] == buffer;
    EmptyFirst(Extract(buffer).0);
    var newline := LineEnd(buffer);
    while newline.Some?
      invariant start <= |buffer| && newline == LineEnd(buffer[start..])
      invariant messages + Extract(buffer[start..]).0 == Extract(buffer).0
      invariant Extract(buffer[start..]).1 == Extract(buffer).1
      decreases |buffer| - start
    {
      ghost var left, before := buffer[start..], messages;
      var length := newline.value;
      assert left[..length] == buffer[start..start + length];
      assert left[length + 1..] == buffer[start + length + 1..];
      if length > 0 && buffer[start + length - 1] == '\r' {
        length := length - 1;
      }
      var message := buffer[start..start + length];
      assert message == Stripped(left[..newline.value]);
      ExtractStep(left, newline.value);
      start := start + newline.value + 1;
      Assoc(before, MessageOf(left[..newline.value]), Extract(buffer[start..]).0);
      if message != [] {
        messages := messages + [message];
      } else {
        assert before + [] == before;
      }
      newline := LineEnd(buffer[start..]);
    }
    rest := buffer[start..];
    ExtractDone(rest);
    assert messages + [] == messages;
  }

  method TakeMessage(buffer: string) returns (message: Option<string>, rest: string)
    ensures (message, rest) == ExtractOne(buffer)
  {
    rest := buffer;
    var newline := LineEnd(rest);
    while newline.Some?
      invariant newline == LineEnd(rest) && ExtractOne(rest) == ExtractOne(buffer)
      decreases |rest|
    {
      var length := newline.value;
      if length > 0 && rest[length - 1] == '\r' {
        length := length - 1;
      }
      var line := rest[..length];
      assert line == Stripped(rest[..newline.value]);
      rest := rest[newline.value + 1..];
      if line != [] {
        return Some(line), rest;
      }
      newline := LineEnd(rest);
    }
    return None, rest;
  }
}
