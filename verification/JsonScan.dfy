/** Reading back: the scanner finds every field of a flat object, whatever its texts hold,
    because escaped text can never look like a key. */
module JsonScan {
  import opened Wrappers
  import opened Json
  import opened Texts

  /** The keys the firmware uses are letters and underscores; this is all that matters. */
  ghost predicate ValidKey(key: string) {
    key != "" && forall i :: 0 <= i < |key| ==> key[i] !in "\"\\:,}"
  }

  ghost predicate ValidFields(fields: seq<Field>) {
    && (forall k :: 0 <= k < |fields| ==> ValidKey(fields[k].key))
    && (forall j, k :: 0 <= j < k < |fields| ==> fields[j].key != fields[k].key)
  }

  /** A value is always followed by a comma or the closing brace. */
  ghost predicate Separated(tail: string) {
    tail != "" && (tail[0] == ',' || tail[0] == '}')
  }

  // ---------------------------------------------------------------------------
  // No false match
  // ---------------------------------------------------------------------------

  lemma Differs(s: string, pattern: string, j: nat)
    requires j < |s| && j < |pattern| && s[j] != pattern[j]
    ensures !(pattern <= s)
  {
  }

  lemma PatternChars(name: string)
    ensures |Pattern(name)| == |name| + 3 && Pattern(name)[0] == '"'
    ensures Pattern(name)[|name| + 1] == '"' && Pattern(name)[|name| + 2] == ':'
    ensures forall i :: 0 <= i < |name| ==> Pattern(name)[i + 1] == name[i]
  {
  }

  lemma {:induction false} DecimalDigits(n: nat)
    ensures Decimal(n) != "" && forall i :: 0 <= i < |Decimal(n)| ==> '0' <= Decimal(n)[i] <= '9'
  {
    if n >= 10 {
      DecimalDigits(n / 10);
    }
  }

  /** Numbers, flags and null hold no quote, comma or brace. */
  lemma BareIsPlain(value: Value, style: Style)
    requires !value.Text?
    ensures ValueText(value, style) != ""
    ensures forall i :: 0 <= i < |ValueText(value, style)| ==> ValueText(value, style)[i] !in "\",}"
  {
    if value.Number? {
      DecimalDigits(if value.number < 0 then -value.number else value.number);
    }
  }

  lemma TextChars(e: string, tail: string, s: string)
    requires tail != "" && s == "\"" + e + "\"" + tail
    ensures |s| == |e| + 2 + |tail| && s[|e| + 1] == '"' && s[|e| + 2] == tail[0]
    ensures forall i :: 0 <= i < |e| ==> s[i + 1] == e[i]
  {
  }

  /** Where a pattern placed on a printed text first disagrees with it. */
  lemma NoMatchInText(e: string, tail: string, name: string, v: nat)
    requires QuotesGuarded(e) && ValidKey(name) && Separated(tail) && v < |e| + 2
    ensures !(Pattern(name) <= ("\"" + e + "\"" + tail)[v..])
  {
    var s, n := "\"" + e + "\"" + tail, |name|;
    PatternChars(name);
    TextChars(e, tail, s);
    var j: nat :=
      if v == |e| + 1 then 1
      else if |e| + 1 - v <= n then |e| + 1 - v
      else if |e| + 1 - v == n + 1 then n + 2
      else if e[v + n] == '"' then n
      else n + 1;
    assert s[v..][j] == s[v + j];
    Differs(s[v..], Pattern(name), j);
  }

  /** No key pattern starts anywhere inside a printed value, its quotes included. */
  lemma {:induction false} NoMatchInValue(value: Value, style: Style, tail: string, name: string, v: nat)
    requires ValidKey(name) && Separated(tail) && v < |ValueText(value, style)|
    ensures !(Pattern(name) <= (ValueText(value, style) + tail)[v..])
  {
    PatternChars(name);
    match value
    case Text(text) =>
      EscapedQuotesGuarded(text, style);
      NoMatchInText(Escaped(text, style), tail, name, v);
    case _ =>
      BareIsPlain(value, style);
      var s := ValueText(value, style) + tail;
      assert s[v..][0] == s[v] == ValueText(value, style)[v];
      Differs(s[v..], Pattern(name), 0);
  }

  lemma KeyChars(key: string, rest: string, s: string)
    requires s == Pattern(key) + rest
    ensures |s| >= |key| + 3 && s[|key| + 1] == '"' && s[|key| + 2] == ':'
    ensures forall i :: 0 <= i < |key| ==> s[i + 1] == key[i]
  {
    PatternChars(key);
  }

  lemma DiffersSomewhere(a: string, b: string) returns (j: nat)
    requires |a| == |b| && a != b
    ensures j < |a| && a[j] != b[j]
  {
    j :| j < |a| && a[j] != b[j];
  }

  lemma NoMatchInKey(key: string, rest: string, name: string, i: nat)
    requires ValidKey(name) && ValidKey(key) && i < |key| + 3 && (i == 0 ==> key != name)
    ensures !(Pattern(name) <= (Pattern(key) + rest)[i..])
  {
    var s := Pattern(key) + rest;
    PatternChars(name);
    KeyChars(key, rest, s);
    var j: nat := if i == |key| + 1 then 1 else 0;
    if i == 0 {
      if |name| == |key| {
        j := DiffersSomewhere(name, key);
        j := j + 1;
      } else {
        j := Min(|name|, |key|) + 1;
      }
    } else if i <= |key| {
      assert s[i] == key[i - 1];
    }
    assert s[i..][j] == s[i + j];
    Differs(s[i..], Pattern(name), j);
  }

  /** The only place in a printed field where a pattern matches is its start, and only that of
      its own key. */
  lemma {:induction false} NoMatchInField(field: Field, style: Style, tail: string, name: string, i: nat)
    requires ValidKey(name) && ValidKey(field.key) && Separated(tail)
    requires i < |FieldText(field, style)| && (i == 0 ==> field.key != name)
    ensures !(Pattern(name) <= (FieldText(field, style) + tail)[i..])
  {
    var key, value := Pattern(field.key), ValueText(field.value, style);
    Associative(key, value, tail);
    if i < |key| {
      NoMatchInKey(field.key, value + tail, name, i);
    } else {
      NoMatchInValue(field.value, style, tail, name, i - |key|);
      DropsPrefix(key, value + tail, i);
    }
  }

  lemma DropsPrefix(a: string, b: string, i: nat)
    requires |a| <= i <= |a| + |b|
    ensures (a + b)[i..] == b[i - |a|..]
  {
  }

  lemma {:induction false} Skips(a: string, b: string, pattern: string)
    requires forall i :: 0 <= i < |a| ==> !(pattern <= (a + b)[i..])
    ensures AfterFirst(a + b, pattern) == AfterFirst(b, pattern)
  {
    if a == "" {
      assert a + b == b;
    } else {
      assert !(pattern <= (a + b)[0..]);
      assert (a + b)[1..] == a[1..] + b;
      forall i | 0 <= i < |a[1..]| ensures !(pattern <= (a[1..] + b)[i..]) {
        assert (a + b)[i + 1..] == (a[1..] + b)[i..];
      }
      Skips(a[1..], b, pattern);
    }
  }

  // ---------------------------------------------------------------------------
  // Finding
  // ---------------------------------------------------------------------------

  /** What follows the k-th field. */
  ghost function After(fields: seq<Field>, k: nat, style: Style): string
    requires k < |fields|
  {
    if k + 1 == |fields| then "}" else "," + Rest(fields[k + 1..], style)
  }

  lemma StepOver(fields: seq<Field>, style: Style, name: string)
    requires fields != [] && ValidKey(fields[0].key) && ValidKey(name) && fields[0].key != name
    ensures AfterFirst(Rest(fields, style), Pattern(name)) == AfterFirst(Rest(fields[1..], style), Pattern(name))
  {
    var text, tail := FieldText(fields[0], style), After(fields, 0, style);
    forall i | 0 <= i < |text| ensures !(Pattern(name) <= (text + tail)[i..]) {
      NoMatchInField(fields[0], style, tail, name, i);
    }
    Skips(text, tail, Pattern(name));
    if |fields| > 1 {
      StepOverOne(',', Rest(fields[1..], style), name);
    }
  }

  lemma StepOverOne(c: char, rest: string, name: string)
    requires c != '"'
    ensures AfterFirst([c] + rest, Pattern(name)) == AfterFirst(rest, Pattern(name))
  {
    assert ([c] + rest)[1..] == rest;
    PatternChars(name);
    Differs([c] + rest, Pattern(name), 0);
  }

  lemma FindsFirst(fields: seq<Field>, style: Style)
    requires fields != []
    ensures AfterFirst(Rest(fields, style), Pattern(fields[0].key))
         == Some(ValueText(fields[0].value, style) + After(fields, 0, style))
  {
    RestOpens(fields, style);
    FoundAtOnce(Pattern(fields[0].key), ValueText(fields[0].value, style) + After(fields, 0, style));
  }

  /** The text from the k-th value on. */
  ghost function FromValue(fields: seq<Field>, k: nat, style: Style): string
    requires k < |fields|
  {
    ValueText(fields[k].value, style) + After(fields, k, style)
  }

  lemma ValueShifts(fields: seq<Field>, style: Style, k: nat)
    requires 0 < k < |fields|
    ensures fields[1..][k - 1] == fields[k]
    ensures FromValue(fields, k, style) == FromValue(fields[1..], k - 1, style)
  {
    assert fields[1..][k..] == fields[k + 1..];
  }

  /** The name is that of the k-th field, and of none before it. */
  ghost predicate FirstNamed(fields: seq<Field>, name: string, k: nat) {
    && k < |fields| && fields[k].key == name && ValidKey(name)
    && forall j :: 0 <= j < k ==> ValidKey(fields[j].key) && fields[j].key != name
  }

  lemma NamedInTail(fields: seq<Field>, name: string, k: nat)
    requires FirstNamed(fields, name, k) && k > 0
    ensures FirstNamed(fields[1..], name, k - 1)
  {
  }

  lemma FoundFurther(fields: seq<Field>, style: Style, name: string, k: nat)
    requires FirstNamed(fields, name, k) && k > 0
    requires AfterFirst(Rest(fields[1..], style), Pattern(name)) == Some(FromValue(fields[1..], k - 1, style))
    ensures AfterFirst(Rest(fields, style), Pattern(name)) == Some(FromValue(fields, k, style))
  {
    StepOver(fields, style, name);
    ValueShifts(fields, style, k);
  }

  lemma {:induction false} FindsNamed(fields: seq<Field>, style: Style, name: string, k: nat)
    requires FirstNamed(fields, name, k)
    ensures AfterFirst(Rest(fields, style), Pattern(name)) == Some(FromValue(fields, k, style))
    decreases k
  {
    if k == 0 {
      FindsFirst(fields, style);
    } else {
      NamedInTail(fields, name, k);
      FindsNamed(fields[1..], style, name, k - 1);
      FoundFurther(fields, style, name, k);
    }
  }

  lemma FindsField(fields: seq<Field>, style: Style, k: nat)
    requires ValidFields(fields) && k < |fields|
    ensures AfterFirst(Rest(fields, style), Pattern(fields[k].key)) == Some(FromValue(fields, k, style))
  {
    FindsNamed(fields, style, fields[k].key, k);
  }

  lemma RestOpens(fields: seq<Field>, style: Style)
    requires fields != []
    ensures Rest(fields, style)
         == Pattern(fields[0].key) + (ValueText(fields[0].value, style) + After(fields, 0, style))
  {
    var key, value, tail := Pattern(fields[0].key), ValueText(fields[0].value, style), After(fields, 0, style);
    Associative(key, value, tail);
  }

  lemma FoundAtOnce(pattern: string, rest: string)
    ensures AfterFirst(pattern + rest, pattern) == Some(rest)
  {
    assert (pattern + rest)[|pattern|..] == rest;
  }

  lemma {:induction false} FindsNothing(fields: seq<Field>, style: Style, name: string)
    requires ValidFields(fields) && ValidKey(name)
    requires forall k :: 0 <= k < |fields| ==> fields[k].key != name
    ensures AfterFirst(Rest(fields, style), Pattern(name)) == None
  {
    if fields == [] {
      StepOverOne('}', "", name);
      assert "}" == "}" + "";
      assert !(Pattern(name) <= "");
    } else {
      StepOver(fields, style, name);
      FindsNothing(fields[1..], style, name);
    }
  }

  // ---------------------------------------------------------------------------
  // Values
  // ---------------------------------------------------------------------------

  /** What the scanner returns for a printed value. */
  ghost function ValueBack(value: Value, style: Style): string {
    if value.Text? then RecoveredText(value.text, style) else ValueText(value, style)
  }

  lemma IndexSkips(a: string, b: string, c: char)
    requires c !in a
    ensures IndexOfChar(a + b, c) == |a| + IndexOfChar(b, c)
  {
    if a == "" {
      assert a + b == b;
    } else {
      assert (a + b)[1..] == a[1..] + b;
      IndexSkips(a[1..], b, c);
    }
  }

  lemma ScansValue(value: Value, style: Style, fields: seq<Field>, k: nat)
    requires k < |fields|
    ensures ScanValue(ValueText(value, style) + After(fields, k, style)) == ValueBack(value, style)
  {
    var text, tail := ValueText(value, style), After(fields, k, style);
    if value.Text? {
      TextComesBack(value.text, style, tail);
      Opens(Escaped(value.text, style), tail);
    } else {
      BareIsPlain(value, style);
      ScansBare(text, tail);
    }
  }

  lemma Opens(e: string, tail: string)
    ensures ("\"" + e + "\"" + tail)[0] == '"' && ("\"" + e + "\"" + tail)[1..] == e + "\"" + tail
  {
  }

  lemma ScansBare(text: string, tail: string)
    requires text != "" && text[0] != '"' && ',' !in text && '}' !in text
    requires tail == "}" || (tail != "" && tail[0] == ',')
    ensures ScanValue(text + tail) == text
  {
    assert (text + tail)[0] == text[0];
    IndexSkips(text, tail, ',');
    IndexSkips(text, tail, '}');
    assert (text + tail)[..|text|] == text;
  }

  /** Every field is read back from a printed object, under either printer. */
  lemma ReadBack(fields: seq<Field>, style: Style, k: nat)
    requires ValidFields(fields) && k < |fields|
    ensures FieldString(Print(fields, style), fields[k].key) == ValueBack(fields[k].value, style)
  {
    StepOverOne('{', Rest(fields, style), fields[k].key);
    FindsField(fields, style, k);
    ScansValue(fields[k].value, style, fields, k);
  }

  /** A key the object does not have reads as the empty string. */
  lemma AbsentReadsEmpty(fields: seq<Field>, style: Style, name: string)
    requires ValidFields(fields) && ValidKey(name)
    requires forall k :: 0 <= k < |fields| ==> fields[k].key != name
    ensures FieldString(Print(fields, style), name) == ""
  {
    StepOverOne('{', Rest(fields, style), name);
    FindsNothing(fields, style, name);
  }

  // ---------------------------------------------------------------------------
  // Numbers
  // ---------------------------------------------------------------------------

  const I32_MIN: int := -0x8000_0000
  const I32_MAX: int := 0x7FFF_FFFF

  /** The number the leading digits of s continue, starting from acc. */
  function Leading(s: string, acc: nat): nat {
    if s == "" || !IsDigit(s[0]) then acc
    else Leading(s[1..], acc * 10 + (s[0] as int - '0' as int))
  }

  /** The platform's string-to-long: blanks, a sign, digits; it saturates at 32 bits. */
  function ToInt(s: string): int {
    var t := TrimStart(s);
    if t != "" && t[0] == '-' then Max(0 - Leading(t[1..], 0), I32_MIN)
    else Min(Leading(if t != "" && t[0] == '+' then t[1..] else t, 0), I32_MAX)
  }

  /** An absent or null value gives the fallback. */
  function IntOf(value: string, fallback: int): int {
    if |value| == 0 || value == "null" then fallback else ToInt(value)
  }

  function FieldInt(json: string, key: string, fallback: int): int {
    IntOf(FieldString(json, key), fallback)
  }

  lemma {:induction false} LeadingOfDecimal(n: nat, rest: string)
    ensures Leading(Decimal(n) + rest, 0) == Leading(rest, n)
  {
    if n < 10 {
      assert Decimal(n) + rest == [DigitChar(n)] + rest;
      LeadingStep(DigitChar(n), rest, 0);
    } else {
      var last := [DigitChar(n % 10)];
      assert Decimal(n) + rest == Decimal(n / 10) + (last + rest);
      LeadingOfDecimal(n / 10, last + rest);
      LeadingStep(DigitChar(n % 10), rest, n / 10);
    }
  }

  lemma LeadingStep(c: char, rest: string, acc: nat)
    requires IsDigit(c)
    ensures Leading([c] + rest, acc) == Leading(rest, acc * 10 + (c as int - '0' as int))
  {
    assert ([c] + rest)[1..] == rest;
  }

  /** A printed number reads back as itself, held to 32 bits. */
  lemma SignedReadsBack(n: int)
    ensures ToInt(Signed(n)) == Max(Min(n, I32_MAX), I32_MIN)
  {
    var digits := Decimal(if n < 0 then -n else n);
    DecimalDigits(if n < 0 then -n else n);
    LeadingOfDecimal(if n < 0 then -n else n, "");
    assert digits + "" == digits;
    assert IsDigit(digits[0]);
    if n < 0 {
      assert Signed(n)[0] == '-' && Signed(n)[1..] == digits;
    }
  }

  lemma NumberReads(n: int, fallback: int)
    ensures IntOf(Signed(n), fallback) == Max(Min(n, I32_MAX), I32_MIN)
  {
    DecimalDigits(if n < 0 then -n else n);
    assert Signed(n)[0] == '-' || IsDigit(Signed(n)[0]);
    assert "null"[0] == 'n';
    SignedReadsBack(n);
  }

  /** An integer field is read back exactly when it lies in the 32-bit range. */
  lemma NumberReadBack(fields: seq<Field>, style: Style, k: nat, fallback: int)
    requires ValidFields(fields) && k < |fields| && fields[k].value.Number?
    ensures FieldInt(Print(fields, style), fields[k].key, fallback) == fields[k].value.number
       <==> I32_MIN <= fields[k].value.number <= I32_MAX
  {
    ReadBack(fields, style, k);
    NumberReads(fields[k].value.number, fallback);
  }

  /** A number that is absent or null is what the caller falls back to. */
  lemma NoNumberFallsBack(fields: seq<Field>, style: Style, name: string, fallback: int)
    requires ValidFields(fields) && ValidKey(name)
    requires forall k :: 0 <= k < |fields| && fields[k].key == name ==> fields[k].value.Null?
    ensures FieldInt(Print(fields, style), name, fallback) == fallback
  {
    if k :| 0 <= k < |fields| && fields[k].key == name {
      ReadBack(fields, style, k);
    } else {
      AbsentReadsEmpty(fields, style, name);
    }
  }
}
