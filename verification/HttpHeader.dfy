/** HTTP response headers: the parser, and what it makes of a response printed the usual way.
    The bytes are taken as text, one character each. */
module HttpHeader {
  import opened Wrappers
  import opened Decimals
  import opened Json
  import opened JsonScan
  import opened Texts
  import opened Utf8

  /** Lengths are read as usize, which has 32 bits on this chip. */
  datatype ResponseHeader = ResponseHeader(status: nat, contentLength: Option<nat>, location: Option<string>)

  function Text(bytes: seq<byte>): string {
    seq(|bytes|, i requires 0 <= i < |bytes| => bytes[i] as char)
  }

  // ---------------------------------------------------------------------------
  // Lines and words
  // ---------------------------------------------------------------------------

  /** The first CR LF, or the end. */
  function BreakAt(s: string): (i: nat)
    ensures i <= |s| && (i < |s| ==> i + 2 <= |s|)
  {
    if s == "" then 0 else if "\r\n" <= s then 0 else 1 + BreakAt(s[1..])
  }

  /** split("\r\n") */
  function Lines(s: string): seq<string>
    decreases |s|
  {
    var i := BreakAt(s);
    if i == |s| then [s] else [s[..i]] + Lines(s[i + 2..])
  }

  function WordEnd(s: string): (i: nat)
    ensures i <= |s|
  {
    if s == "" || IsSpace(s[0]) then 0 else 1 + WordEnd(s[1..])
  }

  /** split_whitespace().nth(1) */
  function SecondWord(line: string): Option<string> {
    var first := TrimStart(line);
    var second := TrimStart(first[WordEnd(first)..]);
    if second == "" then None else Some(second[..WordEnd(second)])
  }

  function StatusOf(line: string): Option<nat> {
    match SecondWord(line)
    case None => None
    case Some(word) => ParseUnsigned(word, 0xFFFF)
  }

  /** Name and trimmed value of a header line; lines without a colon are passed over. */
  function FieldOf(line: string): Option<(string, string)> {
    var colon := IndexOfChar(line, ':');
    if colon == |line| then None else Some((line[..colon], Trim(line[colon + 1..])))
  }

  const CONTENT_LENGTH := "content-length"
  const LOCATION := "location"

  predicate IsField(line: string, name: string) {
    FieldOf(line).Some? && SameLetters(FieldOf(line).value.0, name)
  }

  // ---------------------------------------------------------------------------
  // The parser
  // ---------------------------------------------------------------------------

  /** The last content-length line decides, even if its value is no number. */
  function LengthIn(lines: seq<string>): Option<nat> {
    if lines == [] then None
    else
      var last := lines[|lines| - 1];
      if IsField(last, CONTENT_LENGTH) then ParseUnsigned(FieldOf(last).value.1, U32_MAX)
      else LengthIn(lines[..|lines| - 1])
  }

  function LocationIn(lines: seq<string>): Option<string> {
    if lines == [] then None
    else
      var last := lines[|lines| - 1];
      if IsField(last, LOCATION) then Some(FieldOf(last).value.1) else LocationIn(lines[..|lines| - 1])
  }

  function ParseHeader(header: seq<byte>): Option<ResponseHeader> {
    if !ValidUtf8(header) then None
    else
      var lines := Lines(Text(header));
      match StatusOf(lines[0])
      case None => None
      case Some(status) => Some(ResponseHeader(status, LengthIn(lines[1..]), LocationIn(lines[1..])))
  }

  /** No name is both. */
  lemma NotBoth(line: string)
    ensures !(IsField(line, CONTENT_LENGTH) && IsField(line, LOCATION))
  {
    assert |CONTENT_LENGTH| == 14 && |LOCATION| == 8;
  }

  /** The loop over the lines after the first. */
  method ReadFields(lines: seq<string>) returns (contentLength: Option<nat>, location: Option<string>)
    ensures contentLength == LengthIn(lines) && location == LocationIn(lines)
  {
    contentLength, location := None, None;
    for i := 0 to |lines|
      invariant contentLength == LengthIn(lines[..i]) && location == LocationIn(lines[..i])
    {
      var line := lines[i];
      assert lines[..i + 1][..i] == lines[..i];
      NotBoth(line);
      if line == "" {
        continue;
      }
      var field := FieldOf(line);
      if field.None? {
        continue;
      }
      if SameLetters(field.value.0, CONTENT_LENGTH) {
        contentLength := ParseUnsigned(field.value.1, U32_MAX);
      } else if SameLetters(field.value.0, LOCATION) {
        location := Some(field.value.1);
      }
    }
    assert lines[..|lines|] == lines;
  }

  method ParseResponseHeader(header: seq<byte>) returns (parsed: Option<ResponseHeader>)
    ensures parsed == ParseHeader(header)
  {
    if !ValidUtf8(header) {
      return None;
    }
    var lines := Lines(Text(header));
    var status := StatusOf(lines[0]);
    if status.None? {
      return None;
    }
    var contentLength, location := ReadFields(lines[1..]);
    parsed := Some(ResponseHeader(status.value, contentLength, location));
  }

  // ---------------------------------------------------------------------------
  // Printed responses
  // ---------------------------------------------------------------------------

  datatype HeaderField = HeaderField(name: string, value: string)

  function StatusLine(status: nat, reason: string): string {
    "HTTP/1.1 " + (Decimal(status) + (" " + reason))
  }

  function FieldLine(f: HeaderField): string {
    f.name + ":" + (" " + f.value)
  }

  function LinesOf(status: nat, reason: string, fields: seq<HeaderField>): seq<string> {
    [StatusLine(status, reason)] + FieldLines(fields)
  }

  function FieldLines(fields: seq<HeaderField>): seq<string> {
    seq(|fields|, i requires 0 <= i < |fields| => FieldLine(fields[i]))
  }

  /** Every line, and the empty line at the end. */
  function HeaderText(lines: seq<string>): string {
    if lines == [] then "\r\n" else lines[0] + ("\r\n" + HeaderText(lines[1..]))
  }

  predicate Ascii(s: string) {
    forall i :: 0 <= i < |s| ==> s[i] as int < 128
  }

  function Bytes(s: string): seq<byte>
    requires Ascii(s)
  {
    seq(|s|, i requires 0 <= i < |s| => s[i] as int)
  }

  ghost predicate OneLine(s: string) {
    s != "" && Ascii(s) && '\r' !in s && '\n' !in s
  }

  ghost predicate AllLines(lines: seq<string>) {
    forall i :: 0 <= i < |lines| ==> OneLine(lines[i])
  }

  /** Field names have no colon, and values no white space around them. */
  ghost predicate ValidField(f: HeaderField) {
    && OneLine(FieldLine(f)) && ':' !in f.name
    && (f.value != "" ==> !IsSpace(f.value[0]) && !IsSpace(f.value[|f.value| - 1]))
  }

  ghost predicate ValidResponse(status: nat, reason: string, fields: seq<HeaderField>) {
    status <= 0xFFFF && OneLine("-" + reason) && forall i :: 0 <= i < |fields| ==> ValidField(fields[i])
  }

  /** What the fields announce: the last content length, and the last location. */
  ghost function Announced(fields: seq<HeaderField>): Option<nat> {
    if fields == [] then None
    else
      var last := fields[|fields| - 1];
      if SameLetters(last.name, CONTENT_LENGTH) then ParseUnsigned(last.value, U32_MAX)
      else Announced(fields[..|fields| - 1])
  }

  ghost function Target(fields: seq<HeaderField>): Option<string> {
    if fields == [] then None
    else
      var last := fields[|fields| - 1];
      if SameLetters(last.name, LOCATION) then Some(last.value) else Target(fields[..|fields| - 1])
  }

  lemma {:induction false} BreakAfter(line: string, rest: string)
    requires '\r' !in line
    ensures BreakAt(line + ("\r\n" + rest)) == |line|
  {
    var s := line + ("\r\n" + rest);
    if line == "" {
      assert "\r\n" <= s;
    } else {
      assert s[0] == line[0] && s[1..] == line[1..] + ("\r\n" + rest);
      Differs(s, "\r\n", 0);
      BreakAfter(line[1..], rest);
    }
  }

  lemma FirstLine(line: string, rest: string)
    requires '\r' !in line
    ensures Lines(line + ("\r\n" + rest)) == [line] + Lines(rest)
  {
    BreakAfter(line, rest);
    var s := line + ("\r\n" + rest);
    assert s[..|line|] == line && s[|line| + 2..] == rest;
  }

  lemma {:induction false} LinesBack(lines: seq<string>)
    requires AllLines(lines)
    ensures Lines(HeaderText(lines)) == lines + ["", ""]
  {
    if lines == [] {
      assert "\r\n" == "" + ("\r\n" + "");
      FirstLine("", "");
      assert [""] + [""] == ["", ""];
    } else {
      LinesBack(lines[1..]);
      FirstLine(lines[0], HeaderText(lines[1..]));
      assert lines + ["", ""] == [lines[0]] + (lines[1..] + ["", ""]);
    }
  }

  lemma {:induction false} WordThen(word: string, rest: string)
    requires forall i :: 0 <= i < |word| ==> !IsSpace(word[i])
    requires rest != "" && IsSpace(rest[0])
    ensures WordEnd(word + rest) == |word|
  {
    if word == "" {
      assert word + rest == rest;
    } else {
      assert (word + rest)[1..] == word[1..] + rest;
      WordThen(word[1..], rest);
    }
  }

  lemma StatusBack(status: nat, reason: string)
    requires status <= 0xFFFF
    ensures StatusOf(StatusLine(status, reason)) == Some(status)
  {
    var protocol, digits := "HTTP/1.1", Decimal(status);
    var line, tail := StatusLine(status, reason), digits + (" " + reason);
    DecimalDigits(status);
    ParsesDecimal(status, 0xFFFF);
    assert line == protocol + (" " + tail);
    WordThen(protocol, " " + tail);
    assert TrimStart(line) == line;
    assert line[|protocol|..] == " " + tail;
    assert (" " + tail)[1..] == tail && tail[0] == digits[0];
    assert TrimStart(" " + tail) == tail;
    WordThen(digits, " " + reason);
    assert tail[..|digits|] == digits;
  }

  lemma FieldBack(f: HeaderField)
    requires ValidField(f)
    ensures FieldOf(FieldLine(f)) == Some((f.name, f.value))
  {
    var line := FieldLine(f);
    Associative(f.name, ":", " " + f.value);
    IndexSkips(f.name, ":" + (" " + f.value), ':');
    assert line[..|f.name|] == f.name && line[|f.name| + 1..] == " " + f.value;
    TrimsBlank(f.value);
  }

  lemma TrimsBlank(value: string)
    requires value != "" ==> !IsSpace(value[0]) && !IsSpace(value[|value| - 1])
    ensures Trim(" " + value) == value
  {
    assert (" " + value)[1..] == value;
    TrimmedStays(value);
  }

  lemma {:induction false} FieldsBack(fields: seq<HeaderField>)
    requires forall i :: 0 <= i < |fields| ==> ValidField(fields[i])
    ensures LengthIn(FieldLines(fields)) == Announced(fields) && LocationIn(FieldLines(fields)) == Target(fields)
  {
    if fields != [] {
      var n := |fields| - 1;
      FieldBack(fields[n]);
      FieldsBack(fields[..n]);
      assert FieldLines(fields)[..n] == FieldLines(fields[..n]);
    }
  }

  lemma EmptyLinesPass(lines: seq<string>)
    ensures LengthIn(lines + ["", ""]) == LengthIn(lines) && LocationIn(lines + ["", ""]) == LocationIn(lines)
  {
    var all := lines + ["", ""];
    assert all[..|all| - 1] == lines + [""] && (lines + [""])[..|lines|] == lines;
  }

  lemma {:induction false} AsciiIsUtf8(bytes: seq<byte>)
    requires forall i :: 0 <= i < |bytes| ==> bytes[i] < 128
    ensures ValidUtf8(bytes)
  {
    if bytes != [] {
      AsciiIsUtf8(bytes[1..]);
    }
  }

  lemma {:induction false} HeaderIsAscii(lines: seq<string>)
    requires AllLines(lines)
    ensures Ascii(HeaderText(lines))
  {
    if lines != [] {
      HeaderIsAscii(lines[1..]);
    }
  }

  lemma ValidLines(status: nat, reason: string, fields: seq<HeaderField>)
    requires ValidResponse(status, reason, fields)
    ensures AllLines(LinesOf(status, reason, fields))
  {
    DecimalDigits(status);
    var line := StatusLine(status, reason);
    assert forall i :: 0 <= i < |reason| ==> reason[i] == ("-" + reason)[i + 1];
    forall i | 0 <= i < |line| ensures line[i] as int < 128 && line[i] != '\r' && line[i] != '\n' {
    }
  }

  /** The header of a response, as bytes. */
  ghost function Printed(status: nat, reason: string, fields: seq<HeaderField>): seq<byte>
    requires ValidResponse(status, reason, fields)
  {
    ValidLines(status, reason, fields);
    HeaderIsAscii(LinesOf(status, reason, fields));
    Bytes(HeaderText(LinesOf(status, reason, fields)))
  }

  lemma TextOfBytes(s: string)
    requires Ascii(s)
    ensures Text(Bytes(s)) == s && ValidUtf8(Bytes(s))
  {
    AsciiIsUtf8(Bytes(s));
  }

  lemma LinesRead(lines: seq<string>, fields: seq<string>, line: string)
    requires AllLines(lines) && lines == [line] + fields && StatusOf(line).Some? && Ascii(HeaderText(lines))
    ensures ParseHeader(Bytes(HeaderText(lines)))
         == Some(ResponseHeader(StatusOf(line).value, LengthIn(fields), LocationIn(fields)))
  {
    TextOfBytes(HeaderText(lines));
    LinesBack(lines);
    EmptyLinesPass(fields);
    assert (lines + ["", ""])[0] == line && (lines + ["", ""])[1..] == fields + ["", ""];
  }

  /** A printed header is read back: its status, its last content length and its last location. */
  lemma HeaderRead(status: nat, reason: string, fields: seq<HeaderField>)
    requires ValidResponse(status, reason, fields)
    ensures ParseHeader(Printed(status, reason, fields))
         == Some(ResponseHeader(status, Announced(fields), Target(fields)))
  {
    var lines := LinesOf(status, reason, fields);
    ValidLines(status, reason, fields);
    HeaderIsAscii(lines);
    StatusBack(status, reason);
    FieldsBack(fields);
    LinesRead(lines, FieldLines(fields), StatusLine(status, reason));
  }
}
