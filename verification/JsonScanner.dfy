/** The scanner of src/control_protocol.cpp: a position that moves over the input, and the last error. */
module JsonScannerModel {
  import opened Arith
  import opened Results
  import opened Text
  import opened JsonText

  /** A longer run of digits is no smaller a number. */
  lemma {:induction false} ValueGrows(s: string, i: nat)
    requires AllDigits(s) && i <= |s|
    ensures AllDigits(s[..i]) && Value(s[..i]) <= Value(s)
    decreases |s|
  {
    if i < |s| {
      var front := s[..|s| - 1];
      ValueGrows(front, i);
      assert front[..i] == s[..i];
    } else {
      assert s[..i] == s;
    }
  }

  lemma RunOfSlice(s: string, n: nat)
    requires n <= |s| && AllDigits(s[..n]) && (n < |s| ==> !IsDigit(s[n]))
    ensures DigitRun(s) == n
  {
    assert s == s[..n] + s[n..];
    RunOf(s[..n], s[n..]);
  }

  lemma {:induction false} RunCovers(s: string, n: nat)
    requires n <= |s| && AllDigits(s[..n])
    ensures n <= DigitRun(s)
  {
    if n > 0 {
      assert IsDigit(s[..n][0]);
      assert s[1..][..n - 1] == s[..n][1..];
      RunCovers(s[1..], n - 1);
    }
  }

  /** One more digit of a number. */
  lemma DigitStep(s: string, n: nat)
    requires n < |s| && AllDigits(s[..n]) && IsDigit(s[n])
    ensures AllDigits(s[..n + 1]) && n + 1 <= DigitRun(s)
    ensures Value(s[..n + 1]) == Value(s[..n]) * 10 + (s[n] as int - '0' as int)
    ensures Value(s[..n + 1]) <= Value(s[..DigitRun(s)])
  {
    hide Value, DigitRun;
    assert forall i | 0 <= i < n :: s[..n + 1][i] == s[..n][i];
    DigitAppended(s[..n + 1], n);
    assert s[..n + 1][..n] == s[..n];
    RunCovers(s, n + 1);
    ValueGrows(s[..DigitRun(s)], n + 1);
    assert s[..DigitRun(s)][..n + 1] == s[..n + 1];
  }

  lemma DigitAppended(s: string, n: nat)
    requires |s| == n + 1 && AllDigits(s)
    ensures AllDigits(s[..n]) && IsDigit(s[n]) && Value(s) == Value(s[..n]) * 10 + (s[n] as int - '0' as int)
  {
  }

  /** Four digits cannot be read across one that is missing or is none. */
  lemma HexNeeds(s: string, i: nat)
    requires i < 4 && (|s| <= i || HexDigit(s[i]).None?)
    ensures ReadHex(s) == Err(MalformedJson)
  {
    if |s| >= 4 {
      assert s[..4][i] == s[i];
    }
  }

  lemma HexStep(s: string, n: nat)
    requires n < |s| && AllHex(s[..n]) && HexDigit(s[n]).Some?
    ensures AllHex(s[..n + 1]) && HexValue(s[..n + 1]) == HexValue(s[..n]) * 16 + HexDigit(s[n]).value
  {
    var longer := s[..n + 1];
    assert longer[..|longer| - 1] == s[..n];
    forall i | 0 <= i < n + 1
      ensures HexDigit(longer[i]).Some?
    {
      assert longer[i] == if i < n then s[..n][i] else s[n];
    }
  }

  lemma PrefixSlice(prefix: string, s: string)
    ensures prefix <= s <==> |prefix| <= |s| && s[..|prefix|] == prefix
  {
  }

  class JsonScanner {
    const input: string
    var position: nat
    var error: ParseError

    ghost predicate Valid()
      reads this
    {
      position <= |input|
    }

    ghost function Rest(): string
      requires Valid()
      reads this
    {
      input[position..]
    }

    constructor (input: string)
      ensures Valid() && this.input == input && Rest() == input
    {
      this.input := input;
      position := 0;
      error := MalformedJson;
    }

    method SkipWhitespace()
      requires Valid()
      modifies this`position
      ensures Valid() && Rest() == SkipSpace(old(Rest()))
    {
      while position < |input| && IsSpace(input[position])
        invariant Valid() && SkipSpace(Rest()) == SkipSpace(old(Rest()))
      {
        assert Rest()[1..] == input[position + 1..];
        position := position + 1;
      }
    }

    method Take(expected: char) returns (taken: bool)
      requires Valid()
      modifies this
      ensures Valid()
      ensures taken <==> Consume(old(Rest()), expected).Some?
      ensures taken ==> Some(Rest()) == Consume(old(Rest()), expected) && error == old(error)
      ensures !taken ==> Rest() == SkipSpace(old(Rest())) && error == MalformedJson
    {
      SkipWhitespace();
      if position == |input| || input[position] != expected {
        error := MalformedJson;
        return false;
      }
      assert Rest()[1..] == input[position + 1..];
      position := position + 1;
      return true;
    }

    /** What a reader's success or failure says, in the form of the functions. */
    ghost function Outcome<T>(ok: bool, value: T): Scan<T>
      requires Valid()
      reads this
    {
      if ok then Ok((value, Rest())) else Err(error)
    }

    method TakeHex() returns (ok: bool, value: nat)
      requires Valid()
      modifies this
      ensures Valid() && position >= old(position) && Outcome(ok, value) == ReadHex(old(Rest()))
    {
      hide HexDigit, HexValue;
      value := 0;
      ghost var text := Rest();
      NoHex();
      for index := 0 to 4
        invariant Valid() && index <= |text| && Rest() == text[index..]
        invariant position == old(position) + index
        invariant AllHex(text[..index]) && value == HexValue(text[..index])
      {
        if position == |input| {
          HexNeeds(text, index);
          error := MalformedJson;
          return false, 0;
        }
        var digit := HexDigit(input[position]);
        assert text[index] == input[position] && Rest()[1..] == input[position + 1..];
        position := position + 1;
        if digit.None? {
          HexNeeds(text, index);
          error := MalformedJson;
          return false, 0;
        }
        HexStep(text, index);
        value := value * 16 + digit.value;
      }
      return true, value;
    }

    method TakeUnicode() returns (ok: bool, decoded: string)
      requires Valid()
      modifies this
      ensures Valid() && position >= old(position) && Outcome(ok, decoded) == ReadUnicode(old(Rest()))
    {
      hide ReadHex, Utf8;
      var read, unit := TakeHex();
      if !read {
        return false, "";
      }
      var point := unit;
      if IsHighSurrogate(unit) {
        if position + 2 > |input| || input[position] != '\\' || input[position + 1] != 'u' {
          error := MalformedJson;
          return false, "";
        }
        assert Rest()[2..] == input[position + 2..];
        position := position + 2;
        var readLow, low := TakeHex();
        if !readLow || !IsLowSurrogate(low) {
          error := MalformedJson;
          return false, "";
        }
        point := 0x1_0000 + (unit - 0xd800) * 0x400 + (low - 0xdc00);
      } else if IsLowSurrogate(unit) {
        error := MalformedJson;
        return false, "";
      }
      return true, Utf8(point);
    }

    method TakeEscape() returns (ok: bool, decoded: string)
      requires Valid()
      modifies this
      ensures Valid() && position >= old(position) && Outcome(ok, decoded) == ReadEscape(old(Rest()))
    {
      hide ReadUnicode;
      if position == |input| {
        error := MalformedJson;
        return false, "";
      }
      var c := input[position];
      assert Rest()[0] == c && Rest()[1..] == input[position + 1..];
      position := position + 1;
      match c {
        case '"' => return true, "\"";
        case '\\' => return true, "\\";
        case '/' => return true, "/";
        case 'b' => return true, [BACKSPACE];
        case 'f' => return true, [FORM_FEED];
        case 'n' => return true, "\n";
        case 'r' => return true, "\r";
        case 't' => return true, "\t";
        case 'u' =>
          ok, decoded := TakeUnicode();
        case _ =>
          error := MalformedJson;
          return false, "";
      }
    }

    method TakeString() returns (ok: bool, output: string)
      requires Valid()
      modifies this
      ensures Valid() && Outcome(ok, output) == ReadString(old(Rest()))
      ensures ok ==> position > old(position)
    {
      hide ReadEscape;
      output := "";
      var opening := Take('"');
      if !opening {
        return false, output;
      }
      ghost var body := Rest();
      assert Prepend("", ReadBody(body)) == ReadBody(body) by {
        if ReadBody(body).Ok? { assert "" + ReadBody(body).value.0 == ReadBody(body).value.0; }
      }
      while position < |input|
        invariant Valid() && Prepend(output, ReadBody(Rest())) == ReadBody(body)
        invariant |input| - position <= |body|
        decreases |input| - position
      {
        var c := input[position];
        assert Rest()[0] == c && Rest()[1..] == input[position + 1..];
        position := position + 1;
        if c == '"' {
          assert output + "" == output;
          return true, output;
        }
        if c < ' ' {
          error := MalformedJson;
          return false, output;
        }
        if c != '\\' {
          PrependTwice(output, [c], ReadBody(Rest()));
          output := output + [c];
        } else {
          var ok, decoded := TakeEscape();
          if !ok {
            return false, output;
          }
          PrependTwice(output, decoded, ReadBody(Rest()));
          output := output + decoded;
        }
      }
      error := MalformedJson;
      return false, output;
    }

    method TakeUint(max: nat) returns (ok: bool, output: nat)
      requires Valid() && max >= 9
      modifies this
      ensures Valid() && Outcome(ok, output) == ReadUint(old(Rest()), max)
      ensures ok ==> position > old(position)
    {
      hide Value, DigitRun, SkipSpace, IsDigit;
      SkipWhitespace();
      ghost var start, text := position, Rest();
      output := 0;
      if position == |input| || !IsDigit(input[position]) {
        error := InvalidField;
        RunOfSlice(text, 0);
        return false, 0;
      }
      EmptyValue();
      while position < |input| && IsDigit(input[position])
        invariant start <= position <= |input|
        invariant position == start ==> position < |input| && IsDigit(input[position])
        invariant AllDigits(text[..position - start]) && output == Value(text[..position - start]) <= max
      {
        var digit := input[position] as int - '0' as int;
        assert text[position - start] == input[position];
        DigitStep(text, position - start);
        position := position + 1;
        if output > (max - digit) / 10 {
          error := InvalidField;
          return false, 0;
        }
        output := output * 10 + digit;
      }
      assert Rest() == text[position - start..];
      RunOfSlice(text, position - start);
      return true, output;
    }

    method TakeBool() returns (ok: bool, output: bool)
      requires Valid()
      modifies this
      ensures Valid() && Outcome(ok, output) == ReadBool(old(Rest()))
      ensures ok ==> position > old(position)
    {
      SkipWhitespace();
      ghost var text := Rest();
      PrefixSlice("true", text);
      PrefixSlice("false", text);
      assert position + 4 <= |input|
             ==> text[..4] == input[position..position + 4] && text[4..] == input[position + 4..];
      assert position + 5 <= |input|
             ==> text[..5] == input[position..position + 5] && text[5..] == input[position + 5..];
      if position + 4 <= |input| && input[position..position + 4] == "true" {
        position := position + 4;
        return true, true;
      }
      if position + 5 <= |input| && input[position..position + 5] == "false" {
        position := position + 5;
        return true, false;
      }
      error := InvalidField;
      return false, false;
    }
  }

  lemma NoHex()
    ensures HexValue("") == 0
  {
  }

  lemma EmptyValue()
    ensures Value("") == 0
  {
  }
}
