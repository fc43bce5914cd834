/** Flat JSON between the firmwares: the Rust and the C++ printer, and the C++ field scanner
    that reads both. A char stands for one byte; all the special ones are ASCII. */
module Json {
  import opened Wrappers
  import opened Heapless

  datatype Value = Text(text: string) | Number(number: int) | Flag(flag: bool) | Null

  datatype Field = Field(key: string, value: Value)

  datatype Style = Rust | Cpp

  // ---------------------------------------------------------------------------
  // Printing
  // ---------------------------------------------------------------------------

  function EscapedChar(c: char, style: Style): string {
    if c == '\\' then "\\\\"
    else if c == '"' then "\\\""
    else if c == '\n' then "\\n"
    else if c == '\r' then "\\r"
    else if c == '\t' then "\\t"
    else if style.Cpp? && c as int == 8 then "\\b"
    else if style.Cpp? && c as int == 12 then "\\f"
    else if style.Cpp? && c as int < 0x20 then "?"
    else [c]
  }

  function Escaped(s: string, style: Style): string {
    if s == "" then "" else EscapedChar(s[0], style) + Escaped(s[1..], style)
  }

  function DigitChar(d: nat): char
    requires d < 10
  {
    ('0' as int + d) as char
  }

  function Decimal(n: nat): string {
    if n < 10 then [DigitChar(n)] else Decimal(n / 10) + [DigitChar(n % 10)]
  }

  function Signed(n: int): string {
    if n < 0 then "-" + Decimal(-n) else Decimal(n)
  }

  function ValueText(value: Value, style: Style): string {
    match value
    case Text(text) => "\"" + Escaped(text, style) + "\""
    case Number(number) => Signed(number)
    case Flag(flag) => if flag then "true" else "false"
    case Null => "null"
  }

  function FieldText(field: Field, style: Style): string {
    "\"" + field.key + "\":" + ValueText(field.value, style)
  }

  /** Everything from a field to the closing brace. */
  function Rest(fields: seq<Field>, style: Style): string {
    if fields == [] then "}"
    else FieldText(fields[0], style) + (if |fields| == 1 then "}" else "," + Rest(fields[1..], style))
  }

  function Print(fields: seq<Field>, style: Style): string {
    "{" + Rest(fields, style)
  }

  // ---------------------------------------------------------------------------
  // Scanning
  // ---------------------------------------------------------------------------

  function Pattern(key: string): string {
    "\"" + key + "\":"
  }

  /** What follows the first occurrence of a pattern. */
  function AfterFirst(s: string, pattern: string): Option<string> {
    if pattern <= s then Some(s[|pattern|..])
    else if s == "" then None
    else AfterFirst(s[1..], pattern)
  }

  function Unescaped(c: char): char {
    if c == 'n' then '\n' else if c == 'r' then '\r' else if c == 't' then '\t' else c
  }

  /** The text up to the next unescaped quote, with escapes undone. */
  function ScanText(s: string): string
    decreases |s|
  {
    if s == "" || s[0] == '"' then ""
    else if s[0] == '\\' && |s| > 1 then [Unescaped(s[1])] + ScanText(s[2..])
    else [s[0]] + ScanText(s[1..])
  }

  function IndexOfChar(s: string, c: char): (i: nat)
    ensures i <= |s| && (i < |s| ==> s[i] == c) && c !in s[..i]
  {
    if s == "" || s[0] == c then 0 else 1 + IndexOfChar(s[1..], c)
  }

  /** An unquoted value ends at the next comma, or else at the next brace, or else at the end. */
  function ScanBare(s: string): string {
    var comma := IndexOfChar(s, ',');
    if comma < |s| then s[..comma] else s[..IndexOfChar(s, '}')]
  }

  function ScanValue(s: string): string {
    if s == "" then ""
    else if s[0] == '"' then ScanText(s[1..])
    else ScanBare(s)
  }

  function FieldString(json: string, key: string): string {
    match AfterFirst(json, Pattern(key))
    case None => ""
    case Some(rest) => ScanValue(rest)
  }

  lemma NextEscaped(s: string, i: nat)
    requires i + 1 < |s| && s[i] == '\\'
    ensures ScanText(s[i..]) == [Unescaped(s[i + 1])] + ScanText(s[i + 2..])
  {
    assert s[i..][2..] == s[i + 2..];
  }

  lemma NextPlain(s: string, i: nat)
    requires i < |s| && s[i] != '"' && (s[i] == '\\' ==> i + 1 == |s|)
    ensures ScanText(s[i..]) == [s[i]] + ScanText(s[i + 1..])
  {
    assert s[i..][1..] == s[i + 1..];
  }

  /** The loop over a quoted value, whose opening quote it has passed. */
  method ReadQuoted(rest: string) returns (value: string)
    requires rest != ""
    ensures value == ScanText(rest[1..])
  {
    value := "";
    var i := 1;
    while i < |rest|
      invariant 1 <= i <= |rest|
      invariant value + ScanText(rest[i..]) == ScanText(rest[1..])
    {
      var c := rest[i];
      if c == '"' {
        return value;
      }
      if c == '\\' && i + 1 < |rest| {
        NextEscaped(rest, i);
        Associative(value, [Unescaped(rest[i + 1])], ScanText(rest[i + 2..]));
        value := value + [Unescaped(rest[i + 1])];
        i := i + 2;
        continue;
      }
      NextPlain(rest, i);
      Associative(value, [c], ScanText(rest[i + 1..]));
      value := value + [c];
      i := i + 1;
    }
  }

  method JsonFieldString(json: string, key: string) returns (value: string)
    ensures value == FieldString(json, key)
  {
    var after := AfterFirst(json, Pattern(key));
    if after.None? || after.value == "" {
      return "";
    }
    if after.value[0] != '"' {
      return ScanBare(after.value);
    }
    value := ReadQuoted(after.value);
  }

  // ---------------------------------------------------------------------------
  // Texts come back
  // ---------------------------------------------------------------------------

  /** Inside escaped text every quote follows a backslash. */
  ghost predicate QuotesGuarded(s: string) {
    forall i :: 0 <= i < |s| && s[i] == '"' ==> 0 < i && s[i - 1] == '\\'
  }

  lemma {:induction false} EscapedQuotesGuarded(s: string, style: Style)
    ensures QuotesGuarded(Escaped(s, style))
  {
    if s != "" {
      var head, tail := EscapedChar(s[0], style), Escaped(s[1..], style);
      EscapedQuotesGuarded(s[1..], style);
      forall i | 0 <= i < |head + tail| && (head + tail)[i] == '"'
        ensures 0 < i && (head + tail)[i - 1] == '\\'
      {
        if i >= |head| {
          assert tail[i - |head|] == '"';
        }
      }
    }
  }

  /** What the scanner makes of one printed character. */
  function Recovered(c: char, style: Style): char {
    if style.Cpp? && c as int == 8 then 'b'
    else if style.Cpp? && c as int == 12 then 'f'
    else if style.Cpp? && c as int < 0x20 && c !in "\n\r\t" then '?'
    else c
  }

  function RecoveredText(s: string, style: Style): string {
    seq(|s|, i requires 0 <= i < |s| => Recovered(s[i], style))
  }

  lemma {:induction false} UnescapesOne(c: char, style: Style, rest: string)
    ensures ScanText(EscapedChar(c, style) + rest) == [Recovered(c, style)] + ScanText(rest)
  {
    var head := EscapedChar(c, style);
    var s := head + rest;
    if |head| == 2 {
      assert s[0] == '\\' && s[1] == head[1] && s[2..] == rest;
    } else {
      assert s[0] == head[0] && s[1..] == rest;
    }
  }

  lemma {:induction false} TextComesBack(s: string, style: Style, rest: string)
    ensures ScanText(Escaped(s, style) + "\"" + rest) == RecoveredText(s, style)
  {
    if s == "" {
      assert Escaped(s, style) + "\"" + rest == "\"" + rest;
    } else {
      var head, tail := EscapedChar(s[0], style), Escaped(s[1..], style) + "\"" + rest;
      TextComesBack(s[1..], style, rest);
      UnescapesOne(s[0], style, tail);
      assert Escaped(s, style) + "\"" + rest == head + tail;
      assert RecoveredText(s, style) == [Recovered(s[0], style)] + RecoveredText(s[1..], style);
    }
  }

  /** Texts that lose nothing: the C++ printer blots out control characters other than newline,
      carriage return and tab. */
  ghost predicate Clean(s: string, style: Style) {
    style.Rust? || forall i :: 0 <= i < |s| ==> s[i] as int >= 0x20 || s[i] in "\n\r\t"
  }

  /** Exactly the clean texts come back as they were. */
  lemma RecoveredExactly(s: string, style: Style)
    ensures RecoveredText(s, style) == s <==> Clean(s, style)
  {
    if style.Rust? {
      assert RecoveredText(s, style) == s;
    } else if RecoveredText(s, style) == s {
      forall i | 0 <= i < |s| ensures s[i] as int >= 0x20 || s[i] in "\n\r\t" {
        assert RecoveredText(s, style)[i] == s[i];
      }
    }
  }
}
