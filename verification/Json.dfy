// The JSON texts of the release list: strings and objects of RFC 8259, sections 4 and 7.
// The reader accepts no white space, numbers or arrays, so whatever it accepts is well formed.
module Json {
  import opened Text

  datatype Value = Null | String(s: string) | Object(members: seq<(string, Value)>)

  predicate IsControl(c: char) {
    c < ' '
  }

  /** A character that RFC 8259 section 7 lets stand for itself between quotes. */
  predicate Unescaped(c: char) {
    !IsControl(c) && c != '"' && c != '\\'
  }

  function HexDigit(d: nat): char
    requires d < 16
  {
    "0123456789abcdef"[d]
  }

  function Hex4(n: nat): string
    requires n < 0x10000
  {
    [HexDigit(n / 4096), HexDigit(n / 256 % 16), HexDigit(n / 16 % 16), HexDigit(n % 16)]
  }

  /** How encoding/json writes one character of a string, with its HTML escapes. */
  function EscapeChar(c: char): string {
    if c == '"' then "\\\""
    else if c == '\\' then "\\\\"
    else if c == '\U{8}' then "\\b"
    else if c == '\U{C}' then "\\f"
    else if c == '\n' then "\\n"
    else if c == '\r' then "\\r"
    else if c == '\t' then "\\t"
    else if IsControl(c) || c == '<' || c == '>' || c == '&' || c == '\U{2028}' || c == '\U{2029}' then
      "\\u" + Hex4(c as int)
    else [c]
  }

  function Escape(s: string): string {
    if s == "" then "" else EscapeChar(s[0]) + Escape(s[1..])
  }

  /** The character behind a two-character escape. */
  function ShortEscape(c: char): Option<char> {
    if c == '"' || c == '\\' || c == '/' then Some(c)
    else if c == 'b' then Some('\U{8}')
    else if c == 'f' then Some('\U{C}')
    else if c == 'n' then Some('\n')
    else if c == 'r' then Some('\r')
    else if c == 't' then Some('\t')
    else None
  }

  /** The code point of a \u escape; halves of surrogate pairs are not read. */
  function LongEscape(s: string): Option<char>
    requires |s| >= 4
  {
    match (HexValue(s[0]), HexValue(s[1]), HexValue(s[2]), HexValue(s[3]))
    case (Some(a), Some(b), Some(c), Some(d)) =>
      var n := a * 4096 + b * 256 + c * 16 + d;
      if n < 0xD800 || 0xE000 <= n < 0x10000 then Some(n as char) else None
    case _ => None
  }

  /** Reads one possibly escaped character; returns it and the text behind it. */
  function ReadChar(s: string): (r: Option<(char, string)>)
    ensures r.Some? ==> |r.value.1| < |s|
  {
    if s == "" then None
    else if Unescaped(s[0]) then Some((s[0], s[1..]))
    else if s[0] != '\\' || |s| < 2 then None
    else if s[1] == 'u' then
      if |s| < 6 then None
      else
        var c := LongEscape(s[2..6]);
        if c.Some? then Some((c.value, s[6..])) else None
    else
      var c := ShortEscape(s[1]);
      if c.Some? then Some((c.value, s[2..])) else None
  }

  /** Reads the characters of a string up to and including the closing quote. */
  function ReadChars(s: string): (r: Option<(string, string)>)
    ensures r.Some? ==> |r.value.1| < |s|
    decreases |s|
  {
    if s == "" then None
    else if s[0] == '"' then Some(("", s[1..]))
    else
      var first := ReadChar(s);
      if first.None? then None
      else
        var rest := ReadChars(first.value.1);
        if rest.None? then None else Some(([first.value.0] + rest.value.0, rest.value.1))
  }

  predicate Starts(s: string, c: char) {
    s != "" && s[0] == c
  }

  function ReadString(s: string): (r: Option<(string, string)>)
    ensures r.Some? ==> |r.value.1| < |s|
  {
    if Starts(s, '"') then ReadChars(s[1..]) else None
  }

  function ReadValue(s: string): (r: Option<(Value, string)>)
    ensures r.Some? ==> |r.value.1| < |s|
    decreases |s|, 0
  {
    if HasPrefix(s, "null") then Some((Null, s[4..]))
    else if Starts(s, '{') then
      if |s| > 1 && s[1] == '}' then Some((Object([]), s[2..]))
      else
        var members := ReadMembers(s[1..]);
        if members.None? then None else Some((Object(members.value.0), members.value.1))
    else
      var text := ReadString(s);
      if text.None? then None else Some((String(text.value.0), text.value.1))
  }

  /** Reads one or more members and the closing brace. */
  function ReadMembers(s: string): (r: Option<(seq<(string, Value)>, string)>)
    ensures r.Some? ==> |r.value.1| < |s|
    decreases |s|, 1
  {
    var key := ReadString(s);
    if key.None? || !Starts(key.value.1, ':') then None
    else
      var value := ReadValue(key.value.1[1..]);
      if value.None? then None
      else
        var member := (key.value.0, value.value.0);
        if Starts(value.value.1, '}') then Some(([member], value.value.1[1..]))
        else if Starts(value.value.1, ',') then
          var rest := ReadMembers(value.value.1[1..]);
          if rest.None? then None else Some(([member] + rest.value.0, rest.value.1))
        else None
  }

  /** A whole text that is one value. */
  function Read(s: string): Option<Value> {
    var r := ReadValue(s);
    if r.Some? && r.value.1 == "" then Some(r.value.0) else None
  }

  lemma {:induction false} HexValueDigit(d: nat)
    requires d < 16
    ensures HexValue(HexDigit(d)) == Some(d)
  {
  }

  lemma {:induction false} HexDigitsAddUp(n: nat)
    requires n < 0x10000
    ensures n / 4096 * 4096 + n / 256 % 16 * 256 + n / 16 % 16 * 16 + n % 16 == n
  {
    assert n / 16 / 16 == n / 256 && n / 256 / 16 == n / 4096;
  }

  lemma {:induction false} LongEscapeHex(n: nat)
    requires n < 0xD800
    ensures LongEscape(Hex4(n)) == Some(n as char)
  {
    var a, b, c, d := n / 4096, n / 256 % 16, n / 16 % 16, n % 16;
    HexDigitsAddUp(n);
    HexValueDigit(a);
    HexValueDigit(b);
    HexValueDigit(c);
    HexValueDigit(d);
    var s := Hex4(n);
    assert s[0] == HexDigit(a) && s[1] == HexDigit(b) && s[2] == HexDigit(c) && s[3] == HexDigit(d);
  }

  lemma {:induction false} ReadLongEscape(n: nat, rest: string)
    requires n < 0xD800
    ensures ReadChar("\\u" + Hex4(n) + rest) == Some((n as char, rest))
  {
    var s := "\\u" + Hex4(n) + rest;
    LongEscapeHex(n);
    assert s[2..6] == Hex4(n) && s[6..] == rest;
  }

  lemma {:induction false} ReadShortEscape(e: char, c: char, rest: string)
    requires ShortEscape(e) == Some(c)
    ensures ReadChar(['\\', e] + rest) == Some((c, rest))
  {
    var s := ['\\', e] + rest;
    assert s[0] == '\\' && s[1] == e && s[2..] == rest;
  }

  lemma {:induction false} ReadEscapedChar(c: char, rest: string)
    ensures ReadChar(EscapeChar(c) + rest) == Some((c, rest))
    ensures EscapeChar(c) != "" && EscapeChar(c)[0] != '"'
  {
    if c == '"' { ReadShortEscape('"', c, rest); }
    else if c == '\\' { ReadShortEscape('\\', c, rest); }
    else if c == '\U{8}' { ReadShortEscape('b', c, rest); }
    else if c == '\U{C}' { ReadShortEscape('f', c, rest); }
    else if c == '\n' { ReadShortEscape('n', c, rest); }
    else if c == '\r' { ReadShortEscape('r', c, rest); }
    else if c == '\t' { ReadShortEscape('t', c, rest); }
    else if |EscapeChar(c)| > 1 { ReadLongEscape(c as nat, rest); }
    else {
      assert ([c] + rest)[1..] == rest;
    }
  }

  /** What encoding/json writes for a string is read back as that string. */
  lemma {:induction false} ReadEscaped(text: string, rest: string)
    ensures ReadChars(Escape(text) + ['"'] + rest) == Some((text, rest))
  {
    var s := Escape(text) + ['"'] + rest;
    if text == "" {
      assert s == ['"'] + rest && s[1..] == rest;
    } else {
      var behind := Escape(text[1..]) + ['"'] + rest;
      assert s == EscapeChar(text[0]) + behind;
      ReadEscapedChar(text[0], behind);
      ReadEscaped(text[1..], rest);
      assert s[0] == EscapeChar(text[0])[0];
      assert [text[0]] + text[1..] == text;
    }
  }

  predicate Plain(s: string) {
    forall i :: 0 <= i < |s| ==> Unescaped(s[i])
  }

  /** A string without quotes, backslashes and control characters needs no escapes. */
  lemma {:induction false} ReadPlain(text: string, rest: string)
    requires Plain(text)
    ensures ReadChars(text + ['"'] + rest) == Some((text, rest))
  {
    var s := text + ['"'] + rest;
    if text == "" {
      assert s == ['"'] + rest && s[1..] == rest;
    } else {
      var behind := text[1..] + ['"'] + rest;
      assert s[0] == text[0] && s[1..] == behind;
      ReadPlain(text[1..], rest);
      assert [text[0]] + text[1..] == text;
    }
  }

  function Quote(text: string): string {
    ['"'] + text + ['"']
  }

  lemma {:induction false} ReadPlainString(text: string, rest: string)
    requires Plain(text)
    ensures ReadString(Quote(text) + rest) == Some((text, rest))
  {
    ReadPlain(text, rest);
    assert (Quote(text) + rest)[1..] == text + ['"'] + rest;
  }

  lemma {:induction false} ReadEscapedString(text: string, rest: string)
    ensures ReadValue(Quote(Escape(text)) + rest) == Some((String(text), rest))
  {
    hide Escape, ReadChars, ReadMembers;
    ReadEscaped(text, rest);
    var s := Quote(Escape(text)) + rest;
    assert s[1..] == Escape(text) + ['"'] + rest;
    assert s[0] == '"' && !HasPrefix(s, "null");
  }

  lemma {:induction false} ReadLastMember(key: string, body: string, value: Value, rest: string)
    requires Plain(key) && ReadValue(body + ['}'] + rest) == Some((value, ['}'] + rest))
    ensures ReadMembers(Quote(key) + [':'] + body + ['}'] + rest) == Some(([(key, value)], rest))
  {
    var tail := [':'] + body + ['}'] + rest;
    ReadPlainString(key, tail);
    assert Quote(key) + [':'] + body + ['}'] + rest == Quote(key) + tail;
    assert tail[1..] == body + ['}'] + rest;
    assert (['}'] + rest)[1..] == rest;
  }

  lemma {:induction false} ReadNextMember(key: string, body: string, value: Value, behind: string, members: seq<(string, Value)>, rest: string)
    requires Plain(key) && ReadValue(body + [','] + behind) == Some((value, [','] + behind))
    requires ReadMembers(behind) == Some((members, rest))
    ensures ReadMembers(Quote(key) + [':'] + body + [','] + behind) == Some(([(key, value)] + members, rest))
  {
    hide ReadString, ReadValue, Quote, Plain;
    var tail := [':'] + body + [','] + behind;
    ReadPlainString(key, tail);
    assert Quote(key) + [':'] + body + [','] + behind == Quote(key) + tail;
    assert tail[1..] == body + [','] + behind;
    assert ([','] + behind)[1..] == behind;
    assert Starts(tail, ':') && Starts([','] + behind, ',');
  }

  lemma {:induction false} ReadObject(body: string, members: seq<(string, Value)>, rest: string)
    requires ReadMembers(body) == Some((members, rest))
    ensures ReadValue(['{'] + body) == Some((Object(members), rest))
  {
    assert (['{'] + body)[1..] == body;
  }

  lemma {:induction false} ReadEmptyObject(rest: string)
    ensures ReadValue(['{', '}'] + rest) == Some((Object([]), rest))
  {
    var s := ['{', '}'] + rest;
    assert s[0] == '{' && s[1] == '}' && s[2..] == rest;
  }

  lemma {:induction false} ReadNull(rest: string)
    ensures ReadValue("null" + rest) == Some((Null, rest))
  {
    assert ("null" + rest)[4..] == rest;
  }

  /** The one member of an object. */
  function Wrap(key: string, body: string): string {
    ['{'] + (Quote(key) + ([':'] + (body + ['}'])))
  }

  lemma {:induction false} ReadWrapped(key: string, body: string, value: Value)
    requires Plain(key) && ReadValue(body + ['}']) == Some((value, ['}']))
    ensures Read(Wrap(key, body)) == Some(Object([(key, value)]))
  {
    var tail := [':'] + (body + ['}']);
    ReadPlainString(key, tail);
    assert tail[1..] == body + ['}'] && ['}'][1..] == [];
    assert ReadMembers(Quote(key) + tail) == Some(([(key, value)], ""));
    ReadObject(Quote(key) + tail, [(key, value)], "");
  }

  lemma {:induction false} WrappedUnreadable(key: string, body: string)
    requires Plain(key) && ReadValue(body + ['}']).None?
    ensures Read(Wrap(key, body)).None?
  {
    var tail := [':'] + (body + ['}']);
    ReadPlainString(key, tail);
    assert tail[1..] == body + ['}'];
    BadMembers(Quote(key) + tail);
  }

  lemma {:induction false} BadMembers(text: string)
    requires Starts(text, '"') && ReadMembers(text).None?
    ensures ReadValue(['{'] + text).None?
  {
    assert (['{'] + text)[1..] == text && text[0] == '"';
  }

  lemma {:induction false} NoColon(key: string, tail: string)
    requires Plain(key) && !Starts(tail, ':')
    ensures ReadValue(['{'] + (Quote(key) + tail)).None?
  {
    ReadPlainString(key, tail);
    BadMembers(Quote(key) + tail);
  }
}
