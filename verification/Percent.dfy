/** Configuration commands: percent-encoded fields joined by '|' (section 2.1 of RFC 3986), as
    the dashboard writes them and splitConfigFields reads them. A char stands for one byte. */
module Percent {
  import opened Wrappers
  import opened Json
  import opened JsonScan

  // ---------------------------------------------------------------------------
  // Encoding
  // ---------------------------------------------------------------------------

  /** What encodeURIComponent leaves alone. */
  predicate Unreserved(c: char) {
    'A' <= c <= 'Z' || 'a' <= c <= 'z' || '0' <= c <= '9' || c in "-_.!~*'()"
  }

  function HexDigit(d: nat): char
    requires d < 16
  {
    if d < 10 then ('0' as int + d) as char else ('A' as int + d - 10) as char
  }

  predicate Bytes(s: string) {
    forall i :: 0 <= i < |s| ==> s[i] as int < 256
  }

  function EncodedChar(c: char): string
    requires c as int < 256
  {
    if Unreserved(c) then [c] else ['%', HexDigit(c as int / 16), HexDigit(c as int % 16)]
  }

  function Encode(s: string): string
    requires Bytes(s)
  {
    if s == "" then "" else EncodedChar(s[0]) + Encode(s[1..])
  }

  function Join(pieces: seq<string>): string {
    if pieces == [] then ""
    else if |pieces| == 1 then pieces[0]
    else pieces[0] + "|" + Join(pieces[1..])
  }

  function Encoded(fields: seq<string>): seq<string>
    requires forall k :: 0 <= k < |fields| ==> Bytes(fields[k])
  {
    seq(|fields|, k requires 0 <= k < |fields| => Encode(fields[k]))
  }

  // ---------------------------------------------------------------------------
  // Decoding
  // ---------------------------------------------------------------------------

  /** -1 for anything but a hexadecimal digit of either case. */
  function HexValue(c: char): int {
    if '0' <= c <= '9' then c as int - '0' as int
    else if 'a' <= c <= 'f' then 10 + (c as int - 'a' as int)
    else if 'A' <= c <= 'F' then 10 + (c as int - 'A' as int)
    else -1
  }

  /** Digits of either case count, and nothing else does. */
  lemma HexValueExactly(c: char)
    ensures var n := c as int;
      HexValue(c) == if 48 <= n < 58 then n - 48 else if 65 <= n < 71 then n - 55 else if 97 <= n < 103 then n - 87 else -1
  {
  }

  predicate Escape(s: string) {
    |s| > 2 && s[0] == '%' && HexValue(s[1]) >= 0 && HexValue(s[2]) >= 0
  }

  function EscapeValue(s: string): char
    requires Escape(s)
  {
    (HexValue(s[1]) * 16 + HexValue(s[2])) as char
  }

  function Plain(c: char): char { if c == '+' then ' ' else c }

  function Decode(s: string): string
    decreases |s|
  {
    if s == "" then ""
    else if Escape(s) then [EscapeValue(s)] + Decode(s[3..])
    else [Plain(s[0])] + Decode(s[1..])
  }

  lemma NextEscape(value: string, i: nat)
    requires i <= |value| && Escape(value[i..])
    ensures i + 2 < |value|
    ensures Decode(value[i..]) == [EscapeValue(value[i..])] + Decode(value[i + 3..])
  {
    assert value[i..][3..] == value[i + 3..];
  }

  lemma NextPlain(value: string, i: nat)
    requires i < |value| && !Escape(value[i..])
    ensures Decode(value[i..]) == [Plain(value[i])] + Decode(value[i + 1..])
  {
    assert value[i..][1..] == value[i + 1..];
  }

  method PercentDecode(value: string) returns (decoded: string)
    ensures decoded == Decode(value)
  {
    decoded := "";
    var i := 0;
    assert value[0..] == value;
    while i < |value|
      invariant i <= |value|
      invariant decoded + Decode(value[i..]) == Decode(value)
    {
      var c := value[i];
      if c == '%' && i + 2 < |value| {
        var highValue, lowValue := HexValue(value[i + 1]), HexValue(value[i + 2]);
        if highValue >= 0 && lowValue >= 0 {
          NextEscape(value, i);
          var byteValue := (highValue * 16 + lowValue) as char;
          Associative(decoded, [byteValue], Decode(value[i + 3..]));
          decoded := decoded + [byteValue];
          i := i + 3;
          continue;
        }
      }
      NextPlain(value, i);
      Associative(decoded, [Plain(c)], Decode(value[i + 1..]));
      decoded := decoded + [Plain(c)];
      i := i + 1;
    }
  }

  lemma HexComesBack(d: nat)
    requires d < 16
    ensures HexValue(HexDigit(d)) == d
  {
  }

  /** Letters, digits and nine marks are left alone; every other byte becomes a percent sign and
      its two hexadecimal digits, so that neither of them can separate fields. */
  lemma EncodesOne(c: char)
    requires c as int < 256
    ensures var n := c as int;
      if 65 <= n < 91 || 97 <= n < 123 || 48 <= n < 58 || n in {33, 39, 40, 41, 42, 45, 46, 95, 126} then EncodedChar(c) == [c]
      else |EncodedChar(c)| == 3 && EncodedChar(c)[0] == '%' && 16 * HexValue(EncodedChar(c)[1]) + HexValue(EncodedChar(c)[2]) == n
  {
    HexComesBack(c as int / 16);
    HexComesBack(c as int % 16);
  }

  lemma DecodesOne(c: char, rest: string)
    requires c as int < 256
    ensures Decode(EncodedChar(c) + rest) == [c] + Decode(rest)
  {
    var s := EncodedChar(c) + rest;
    if Unreserved(c) {
      assert s[0] == c && s[1..] == rest;
    } else {
      HexComesBack(c as int / 16);
      HexComesBack(c as int % 16);
      assert s[1] == HexDigit(c as int / 16) && s[2] == HexDigit(c as int % 16) && s[3..] == rest;
    }
  }

  /** Every byte string is decoded from its encoding. */
  lemma {:induction false} DecodesEncoded(s: string)
    requires Bytes(s)
    ensures Decode(Encode(s)) == s
  {
    if s != "" {
      DecodesOne(s[0], Encode(s[1..]));
      DecodesEncoded(s[1..]);
    }
  }

  /** A text is its own decoding exactly when it holds no plus and no whole escape; bad escapes
      are kept. Decoding never makes a text longer. */
  lemma {:induction false} DecodesToItself(s: string)
    ensures |Decode(s)| <= |s|
    ensures Decode(s) == s <==> '+' !in s && forall i :: 0 <= i < |s| ==> !Escape(s[i..])
  {
    if s != "" {
      assert s[0..] == s;
      if Escape(s) {
        DecodesToItself(s[3..]);
      } else {
        var rest := s[1..];
        DecodesToItself(rest);
        assert forall i :: 0 <= i < |rest| ==> rest[i..] == s[i + 1..];
        assert s == [s[0]] + rest;
        assert Decode(s)[0] == Plain(s[0]) && Decode(s)[1..] == Decode(rest);
        if forall i :: 0 <= i < |rest| ==> !Escape(rest[i..]) {
          forall i | 0 <= i < |s| ensures !Escape(s[i..]) {
            if i > 0 {
              assert rest[i - 1..] == s[i..];
            }
          }
        }
      }
    }
  }

  // ---------------------------------------------------------------------------
  // Splitting
  // ---------------------------------------------------------------------------

  function Split(s: string): seq<string>
    decreases |s|
  {
    var i := IndexOfChar(s, '|');
    if i == |s| then [s] else [s[..i]] + Split(s[i + 1..])
  }

  /** The k-th field a command carries; fields it does not carry are empty. */
  function FieldAt(payload: string, k: nat): string {
    var pieces := Split(payload);
    if k < |pieces| then Decode(pieces[k]) else ""
  }

  /** The pieces from the k-th on are those of the rest of the payload. */
  ghost predicate Carries(all: seq<string>, k: nat, rest: string) {
    k <= |all| && all[k..] == Split(rest)
  }

  lemma {:induction false} NextPiece(all: seq<string>, k: nat, rest: string, i: nat)
    requires Carries(all, k, rest) && i == IndexOfChar(rest, '|')
    ensures k < |all| && all[k] == rest[..i]
    ensures i == |rest| ==> |all| == k + 1
    ensures i < |rest| ==> Carries(all, k + 1, rest[i + 1..])
  {
    assert all[k] == all[k..][0];
    if i == |rest| {
      assert rest[..i] == rest;
    } else {
      assert all[k + 1..] == all[k..][1..];
    }
  }

  /** The first n fields are in place. */
  ghost predicate Filled(fields: seq<string>, payload: string, n: nat) {
    n <= |fields| && forall k :: 0 <= k < n ==> fields[k] == FieldAt(payload, k)
  }

  method StoreField(fields: array<string>, n: nat, piece: string, ghost payload: string)
    requires Filled(fields[..], payload, n) && n < fields.Length && piece == FieldAt(payload, n)
    modifies fields
    ensures Filled(fields[..], payload, n + 1)
  {
    fields[n] := piece;
  }

  lemma NextField(payload: string, k: nat, start: nat, separator: nat)
    requires start <= |payload| && Carries(Split(payload), k, payload[start..])
    requires separator == start + IndexOfChar(payload[start..], '|')
    ensures start <= separator <= |payload| && FieldAt(payload, k) == Decode(payload[start..separator])
    ensures separator == |payload| ==> |Split(payload)| == k + 1
    ensures separator < |payload| ==> Carries(Split(payload), k + 1, payload[separator + 1..])
  {
    var rest := payload[start..];
    NextPiece(Split(payload), k, rest, separator - start);
    assert payload[start..separator] == rest[..separator - start];
    if separator < |payload| {
      assert rest[separator - start + 1..] == payload[separator + 1..];
    }
  }

  method FillEmpty(ghost payload: string, fields: array<string>, first: nat)
    requires Filled(fields[..], payload, first) && (first < fields.Length ==> |Split(payload)| <= first)
    modifies fields
    ensures Filled(fields[..], payload, fields.Length)
  {
    var fieldIndex := first;
    while fieldIndex < fields.Length
      invariant first <= fieldIndex
      invariant Filled(fields[..], payload, fieldIndex)
    {
      StoreField(fields, fieldIndex, "", payload);
      fieldIndex := fieldIndex + 1;
    }
  }

  /** Fills the whole array: with the first fields of the payload, then with empty ones. */
  method SplitConfigFields(payload: string, fields: array<string>)
    modifies fields
    ensures Filled(fields[..], payload, fields.Length)
  {
    var fieldIndex, start := 0, 0;
    assert payload[0..] == payload;
    while fieldIndex < fields.Length
      invariant start <= |payload| && Filled(fields[..], payload, fieldIndex)
      invariant Carries(Split(payload), fieldIndex, payload[start..])
    {
      var separator := start + IndexOfChar(payload[start..], '|');
      NextField(payload, fieldIndex, start, separator);
      var piece := PercentDecode(payload[start..separator]);
      StoreField(fields, fieldIndex, piece, payload);
      fieldIndex := fieldIndex + 1;
      if separator == |payload| {
        break;
      }
      start := separator + 1;
    }
    FillEmpty(payload, fields, fieldIndex);
  }

  lemma {:induction false} EncodedHasNoBar(s: string)
    requires Bytes(s)
    ensures '|' !in Encode(s)
  {
    if s != "" {
      EncodedHasNoBar(s[1..]);
      assert '|' !in EncodedChar(s[0]);
    }
  }

  lemma BarAfter(a: string, b: string)
    requires '|' !in a
    ensures IndexOfChar(a + "|" + b, '|') == |a| && IndexOfChar(a, '|') == |a|
  {
    Associative(a, "|", b);
    IndexSkips(a, "|" + b, '|');
    IndexSkips(a, "", '|');
    assert a + "" == a;
  }

  lemma {:induction false} SplitsJoined(pieces: seq<string>)
    requires pieces != [] && forall k :: 0 <= k < |pieces| ==> '|' !in pieces[k]
    ensures Split(Join(pieces)) == pieces
  {
    if |pieces| == 1 {
      BarAfter(pieces[0], "");
    } else {
      var rest := Join(pieces[1..]);
      SplitsJoined(pieces[1..]);
      BarAfter(pieces[0], rest);
      var s := pieces[0] + "|" + rest;
      assert s[..|pieces[0]|] == pieces[0] && s[|pieces[0]| + 1..] == rest;
    }
  }

  /** Every list of byte strings arrives field for field. */
  lemma CommandArrives(fields: seq<string>, k: nat)
    requires forall j :: 0 <= j < |fields| ==> Bytes(fields[j])
    requires k < |fields|
    ensures FieldAt(Join(Encoded(fields)), k) == fields[k]
  {
    forall j | 0 <= j < |fields| ensures '|' !in Encoded(fields)[j] {
      EncodedHasNoBar(fields[j]);
    }
    SplitsJoined(Encoded(fields));
    DecodesEncoded(fields[k]);
  }
}
