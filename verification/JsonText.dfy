/** The JSON scanning of src/control_protocol.cpp, on the text that remains. A character stands for a byte.
    Each reader gives what it read and what is left, or the error it reports. */
module JsonText {
  import opened Results
  import opened Sequences
  import opened Text

  datatype ParseError = MalformedJson | InvalidField | MissingRequiredField

  type Scan<T> = Result<(T, string), ParseError>

  predicate IsSpace(c: char) {
    c == ' ' || c == '\n' || c == '\r' || c == '\t'
  }

  function SkipSpace(s: string): (rest: string)
    ensures |rest| <= |s|
    ensures rest != [] ==> !IsSpace(rest[0])
  {
    if s != [] && IsSpace(s[0]) then SkipSpace(s[1..]) else s
  }

  /** What is left after an expected character. */
  function Consume(s: string, expected: char): (rest: Option<string>)
    ensures rest.Some? ==> |rest.value| < |s|
  {
    var t := SkipSpace(s);
    if t != [] && t[0] == expected then Some(t[1..]) else None
  }

  // ---- strings ----

  const BACKSPACE := 8 as char
  const FORM_FEED := 12 as char

  function HexDigit(c: char): (digit: Option<nat>)
    ensures digit.Some? ==> digit.value < 16
  {
    if '0' <= c <= '9' then Some(c as int - '0' as int)
    else if 'a' <= c <= 'f' then Some(c as int - 'a' as int + 10)
    else if 'A' <= c <= 'F' then Some(c as int - 'A' as int + 10)
    else None
  }

  predicate AllHex(s: string) {
    forall i | 0 <= i < |s| :: HexDigit(s[i]).Some?
  }

  function HexValue(s: string): nat
    requires AllHex(s)
  {
    if s == [] then 0 else HexValue(s[..|s| - 1]) * 16 + HexDigit(s[|s| - 1]).value
  }

  lemma {:induction false} FourDigits(s: string)
    requires |s| == 4 && AllHex(s)
    ensures HexValue(s) == HexDigit(s[0]).value * 0x1000 + HexDigit(s[1]).value * 0x100
                           + HexDigit(s[2]).value * 0x10 + HexDigit(s[3]).value
  {
    assert s[..3][..2] == s[..2] && s[..2][..1] == s[..1] && s[..1][..0] == [];
    assert HexValue(s[..1]) == HexDigit(s[0]).value;
    assert HexValue(s[..2]) == HexValue(s[..1]) * 16 + HexDigit(s[1]).value;
    assert HexValue(s[..3]) == HexValue(s[..2]) * 16 + HexDigit(s[2]).value;
  }

  /** Four hexadecimal digits. */
  function ReadHex(s: string): (r: Scan<nat>)
    ensures r.Ok? ==> r.value.0 < 0x1_0000 && |r.value.1| + 4 == |s|
    ensures r.Err? ==> r.error == MalformedJson
  {
    if |s| >= 4 && AllHex(s[..4]) then
      FourDigits(s[..4]);
      Ok((HexValue(s[..4]), s[4..]))
    else Err(MalformedJson)
  }

  /** A code point in UTF-8. */
  function Utf8(point: nat): (bytes: string)
    requires point < 0x11_0000
    ensures bytes != []
  {
    if point <= 0x7f then [point as char]
    else if point <= 0x7ff then [(0xc0 + point / 0x40) as char, (0x80 + point % 0x40) as char]
    else if point <= 0xffff then
      [(0xe0 + point / 0x1000) as char, (0x80 + point / 0x40 % 0x40) as char, (0x80 + point % 0x40) as char]
    else
      [(0xf0 + point / 0x4_0000) as char, (0x80 + point / 0x1000 % 0x40) as char,
       (0x80 + point / 0x40 % 0x40) as char, (0x80 + point % 0x40) as char]
  }

  predicate IsHighSurrogate(point: nat) {
    0xd800 <= point <= 0xdbff
  }

  predicate IsLowSurrogate(point: nat) {
    0xdc00 <= point <= 0xdfff
  }

  /** A \u escape behind its `u`: one unit, or a high and a low surrogate. */
  function ReadUnicode(s: string): (r: Scan<string>)
    ensures r.Ok? ==> |r.value.1| < |s|
  {
    var (unit, rest) :- ReadHex(s);
    if IsHighSurrogate(unit) then
      if |rest| < 2 || rest[0] != '\\' || rest[1] != 'u' then Err(MalformedJson)
      else
        var (low, last) :- ReadHex(rest[2..]);
        if !IsLowSurrogate(low) then Err(MalformedJson)
        else Ok((Utf8(0x1_0000 + (unit - 0xd800) * 0x400 + (low - 0xdc00)), last))
    else if IsLowSurrogate(unit) then Err(MalformedJson)
    else Ok((Utf8(unit), rest))
  }

  /** What a backslash introduces. */
  function ReadEscape(s: string): (r: Scan<string>)
    ensures r.Ok? ==> |r.value.1| < |s|
  {
    if s == [] then Err(MalformedJson)
    else match s[0]
      case '"' => Ok(("\"", s[1..]))
      case '\\' => Ok(("\\", s[1..]))
      case '/' => Ok(("/", s[1..]))
      case 'b' => Ok(([BACKSPACE], s[1..]))
      case 'f' => Ok(([FORM_FEED], s[1..]))
      case 'n' => Ok(("\n", s[1..]))
      case 'r' => Ok(("\r", s[1..]))
      case 't' => Ok(("\t", s[1..]))
      case 'u' => ReadUnicode(s[1..])
      case _ => Err(MalformedJson)
  }

  function Prepend(front: string, r: Scan<string>): Scan<string> {
    if r.Ok? then Ok((front + r.value.0, r.value.1)) else r
  }

  /** A string behind its opening quote, up to its closing one. */
  function ReadBody(s: string): (r: Scan<string>)
    ensures r.Ok? ==> |r.value.1| < |s|
    decreases |s|
  {
    if s == [] then Err(MalformedJson)
    else if s[0] == '"' then Ok(("", s[1..]))
    else if s[0] < ' ' then Err(MalformedJson)
    else if s[0] != '\\' then Prepend([s[0]], ReadBody(s[1..]))
    else
      var (decoded, rest) :- ReadEscape(s[1..]);
      Prepend(decoded, ReadBody(rest))
  }

  function ReadString(s: string): (r: Scan<string>)
    ensures r.Ok? ==> |r.value.1| < |s|
  {
    var open := Consume(s, '"');
    if open.None? then Err(MalformedJson) else ReadBody(open.value)
  }

  // ---- numbers and flags ----

  /** How many digits a text starts with. */
  function DigitRun(s: string): (n: nat)
    ensures n <= |s| && AllDigits(s[..n]) && (n < |s| ==> !IsDigit(s[n]))
  {
    if s != [] && IsDigit(s[0]) then
      var rest := DigitRun(s[1..]);
      assert forall i | 0 <= i < rest :: s[1..][..rest][i] == s[i + 1];
      rest + 1
    else 0
  }

  /** An unsigned number of a type whose largest value is `max`. */
  function ReadUint(s: string, max: nat): (r: Scan<nat>)
    ensures r.Ok? ==> |r.value.1| < |s| && r.value.0 <= max
  {
    var t := SkipSpace(s);
    var n := DigitRun(t);
    if n == 0 || Value(t[..n]) > max then Err(InvalidField) else Ok((Value(t[..n]), t[n..]))
  }

  function ReadBool(s: string): (r: Scan<bool>)
    ensures r.Ok? ==> |r.value.1| < |s|
  {
    var t := SkipSpace(s);
    if "true" <= t then Ok((true, t[4..]))
    else if "false" <= t then Ok((false, t[5..]))
    else Err(InvalidField)
  }

  // ---- printing ----

  function HexChar(n: nat): (c: char)
    requires n < 16
    ensures HexDigit(c) == Some(n) && c >= ' '
  {
    if n < 10 then '0' + n as char else 'a' + (n - 10) as char
  }

  function EscapedChar(c: char): string {
    if c == '"' then "\\\""
    else if c == '\\' then "\\\\"
    else if c == BACKSPACE then "\\b"
    else if c == FORM_FEED then "\\f"
    else if c == '\n' then "\\n"
    else if c == '\r' then "\\r"
    else if c == '\t' then "\\t"
    else if c < ' ' then "\\u00" + [HexChar(c as int / 16), HexChar(c as int % 16)]
    else [c]
  }

  function Escaped(text: string): string {
    if text == [] then [] else Escaped(text[..|text| - 1]) + EscapedChar(text[|text| - 1])
  }

  function Quoted(text: string): string {
    "\"" + Escaped(text) + "\""
  }

  method JsonString(value: string) returns (result: string)
    ensures result == Quoted(value)
  {
    hide EscapedChar;
    result := "\"";
    assert value[..0] == [];
    for i := 0 to |value|
      invariant result == "\"" + Escaped(value[..i])
    {
      assert value[..i + 1][..i] == value[..i];
      assert Escaped(value[..i + 1]) == Escaped(value[..i]) + EscapedChar(value[i]);
      Assoc("\"", Escaped(value[..i]), EscapedChar(value[i]));
      result := result + EscapedChar(value[i]);
    }
    assert value[..|value|] == value;
    result := result + "\"";
  }

  // ---- round trips ----

  /** One step of reading a body. */
  lemma BodyStep(s: string)
    requires s != [] && s[0] != '"' && s[0] >= ' '
    ensures s[0] != '\\' ==> ReadBody(s) == Prepend([s[0]], ReadBody(s[1..]))
    ensures s[0] == '\\' && ReadEscape(s[1..]).Ok? ==>
              ReadBody(s) == Prepend(ReadEscape(s[1..]).value.0, ReadBody(ReadEscape(s[1..]).value.1))
  {
    hide ReadEscape, Prepend;
  }

  /** An escaped character reads back as itself, before anything. */
  lemma ReadsChar(c: char, rest: string)
    ensures ReadBody(EscapedChar(c) + rest) == Prepend([c], ReadBody(rest))
  {
    hide ReadUnicode, ReadBody, Prepend;
    var s := EscapedChar(c) + rest;
    if c == '"' || c == '\\' || c == BACKSPACE || c == FORM_FEED || c == '\n' || c == '\r' || c == '\t' {
      BodyStep(s);
      assert s[1..][1..] == rest;
    } else if c < ' ' {
      ReadsControl(c, rest);
    } else {
      BodyStep(s);
      assert s[1..] == rest;
    }
  }

  lemma ReadsControl(c: char, rest: string)
    requires c < ' '
    requires EscapedChar(c) == "\\u00" + [HexChar(c as int / 16), HexChar(c as int % 16)]
    ensures ReadBody(EscapedChar(c) + rest) == Prepend([c], ReadBody(rest))
  {
    var s := EscapedChar(c) + rest;
    var t := s[2..];
    var digits := ['0', '0', HexChar(c as int / 16), HexChar(c as int % 16)];
    assert t == digits + rest;
    assert t[..4] == digits && t[4..] == rest;
    FourDigits(digits);
    assert HexValue(digits) == c as int;
    assert ReadUnicode(t) == Ok(([c], rest));
    assert s[1..][1..] == t;
  }

  lemma {:induction false} ReadsEscaped(text: string, s: string)
    ensures ReadBody(Escaped(text) + s) == Prepend(text, ReadBody(s))
    decreases |text|
  {
    hide ReadBody, EscapedChar;
    if text == [] {
      assert Escaped(text) + s == s;
      if ReadBody(s).Ok? {
        assert [] + ReadBody(s).value.0 == ReadBody(s).value.0;
      }
    } else {
      var front, c := text[..|text| - 1], text[|text| - 1];
      assert Escaped(text) + s == Escaped(front) + (EscapedChar(c) + s);
      ReadsEscaped(front, EscapedChar(c) + s);
      ReadsChar(c, s);
      PrependTwice(front, [c], ReadBody(s));
      assert front + [c] == text;
    }
  }

  lemma PrependTwice(a: string, b: string, r: Scan<string>)
    ensures Prepend(a, Prepend(b, r)) == Prepend(a + b, r)
  {
    if r.Ok? {
      assert a + (b + r.value.0) == a + b + r.value.0;
    }
  }

  /** Any text, printed, reads back as itself. */
  lemma ReadsQuoted(text: string, rest: string)
    ensures ReadString(Quoted(text) + rest) == Ok((text, rest))
  {
    hide Escaped;
    var s := Quoted(text) + rest;
    assert s[1..] == Escaped(text) + ("\"" + rest);
    ReadsEscaped(text, "\"" + rest);
    assert ("\"" + rest)[1..] == rest;
    assert text + "" == text;
  }

  /** A number, printed, reads back as itself when its type can hold it. */
  lemma ReadsDecimal(n: nat, max: nat, rest: string)
    requires rest != [] ==> !IsDigit(rest[0])
    ensures ReadUint(Decimal(n) + rest, max) == if n <= max then Ok((n, rest)) else Err(InvalidField)
  {
    var s := Decimal(n) + rest;
    RunOf(Decimal(n), rest);
    DecimalValue(n);
    assert IsDigit(s[0]) && !IsSpace(s[0]);
    assert s[..|Decimal(n)|] == Decimal(n) && s[|Decimal(n)|..] == rest;
  }

  lemma {:induction false} RunOf(digits: string, rest: string)
    requires AllDigits(digits) && (rest != [] ==> !IsDigit(rest[0]))
    ensures DigitRun(digits + rest) == |digits|
    decreases |digits|
  {
    if digits == [] {
      assert digits + rest == rest;
    } else {
      RunOf(digits[1..], rest);
      assert (digits + rest)[1..] == digits[1..] + rest;
    }
  }

  function BoolText(b: bool): string {
    if b then "true" else "false"
  }

  lemma ReadsBoolText(b: bool, rest: string)
    ensures ReadBool(BoolText(b) + rest) == Ok((b, rest))
  {
    var s := BoolText(b) + rest;
    assert s[|BoolText(b)|..] == rest;
    assert s[0] == if b then 't' else 'f';
  }

  function UnicodeEscape(unit: nat): (s: string)
    requires unit < 0x1_0000
    ensures |s| == 4
  {
    [HexChar(unit / 0x1000), HexChar(unit / 0x100 % 16), HexChar(unit / 16 % 16), HexChar(unit % 16)]
  }

  lemma ReadsUnit(unit: nat, rest: string)
    requires unit < 0x1_0000
    ensures ReadHex(UnicodeEscape(unit) + rest) == Ok((unit, rest))
  {
    hide HexChar, HexDigit, HexValue;
    var s, digits := UnicodeEscape(unit) + rest, UnicodeEscape(unit);
    assert s[..4] == digits && s[4..] == rest;
    FourDigits(digits);
    Nibbles(unit);
  }

  lemma Nibbles(unit: nat)
    requires unit < 0x1_0000
    ensures unit == unit / 0x1000 * 0x1000 + unit / 0x100 % 16 * 0x100 + unit / 16 % 16 * 0x10 + unit % 16
  {
    assert unit / 16 / 16 == unit / 0x100 && unit / 0x100 / 16 == unit / 0x1000;
  }

  /** Every Unicode scalar value can be escaped, and reads as its UTF-8; a lone surrogate cannot. */
  lemma ReadsScalar(point: nat, rest: string)
    requires point < 0x1_0000 && (IsHighSurrogate(point) ==> !("\\u" <= rest))
    ensures ReadUnicode(UnicodeEscape(point) + rest)
         == if IsHighSurrogate(point) || IsLowSurrogate(point) then Err(MalformedJson) else Ok((Utf8(point), rest))
  {
    hide UnicodeEscape, ReadHex, Utf8;
    ReadsUnit(point, rest);
  }

  lemma ReadsSurrogatePair(point: nat, rest: string)
    requires 0x1_0000 <= point < 0x11_0000
    ensures var high, low := 0xd800 + (point - 0x1_0000) / 0x400, 0xdc00 + (point - 0x1_0000) % 0x400;
            ReadUnicode(UnicodeEscape(high) + ("\\u" + (UnicodeEscape(low) + rest))) == Ok((Utf8(point), rest))
  {
    hide UnicodeEscape, ReadHex, Utf8;
    var high, low := 0xd800 + (point - 0x1_0000) / 0x400, 0xdc00 + (point - 0x1_0000) % 0x400;
    var tail := "\\u" + (UnicodeEscape(low) + rest);
    ReadsUnit(high, tail);
    assert tail[2..] == UnicodeEscape(low) + rest;
    ReadsUnit(low, rest);
    assert 0x1_0000 + (high - 0xd800) * 0x400 + (low - 0xdc00) == point;
  }

  /** The code point that starts a text, read back from UTF-8 by the lead byte. */
  function DecodeUtf8(s: string): Option<(nat, string)> {
    if s == [] then None
    else
      var b := s[0] as int;
      if b < 0x80 then Some((b, s[1..]))
      else if 0xc0 <= b < 0xe0 && |s| >= 2 && IsTail(s[1]) then Some(((b - 0xc0) * 0x40 + Tail(s[1]), s[2..]))
      else if 0xe0 <= b < 0xf0 && |s| >= 3 && IsTail(s[1]) && IsTail(s[2]) then
        Some(((b - 0xe0) * 0x1000 + Tail(s[1]) * 0x40 + Tail(s[2]), s[3..]))
      else if 0xf0 <= b < 0xf8 && |s| >= 4 && IsTail(s[1]) && IsTail(s[2]) && IsTail(s[3]) then
        Some(((b - 0xf0) * 0x4_0000 + Tail(s[1]) * 0x1000 + Tail(s[2]) * 0x40 + Tail(s[3]), s[4..]))
      else None
  }

  predicate IsTail(c: char) {
    0x80 <= c as int < 0xc0
  }

  function Tail(c: char): nat
    requires IsTail(c)
  {
    c as int - 0x80
  }

  /** The encoder's output is a byte string that decodes to the code point, and only to it. */
  lemma Utf8Decodes(point: nat, rest: string)
    requires point < 0x11_0000
    ensures forall i | 0 <= i < |Utf8(point)| :: Utf8(point)[i] as int < 0x100
    ensures DecodeUtf8(Utf8(point) + rest) == Some((point, rest))
  {
    var s := Utf8(point) + rest;
    assert s[|Utf8(point)|..] == rest;
    Sextets(point);
  }

  lemma Sextets(point: nat)
    requires point < 0x11_0000
    ensures point == point / 0x40 * 0x40 + point % 0x40
    ensures point / 0x40 == point / 0x1000 * 0x40 + point / 0x40 % 0x40
    ensures point / 0x1000 == point / 0x4_0000 * 0x40 + point / 0x1000 % 0x40
  {
  }
}
