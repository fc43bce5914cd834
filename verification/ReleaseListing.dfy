/** Whose digest the C++ firmware takes from a release listing: that of the first entry with a
    digest, from the entry of the named asset on. */
module ReleaseListing {
  import opened Wrappers
  import opened Json
  import opened JsonScan
  import opened FirmwareUpdate
  import opened RustReader
  import opened Texts

  // ---------------------------------------------------------------------------
  // Streams of fields
  // ---------------------------------------------------------------------------

  /** A printed field, or the key of a nested object or list, and the punctuation behind it. */
  datatype Token = Token(field: Field, gap: string) | Nested(key: string, gap: string)

  ghost predicate ValidToken(t: Token) {
    && '"' !in t.gap
    && (t.Token? ==> ValidKey(t.field.key) && Separated(t.gap))
    && (t.Nested? ==> ValidKey(t.key) && t.gap != "")
  }

  ghost function TokenText(t: Token): string {
    match t
    case Token(field, _) => FieldText(field, Rust)
    case Nested(key, _) => Pattern(key)
  }

  ghost predicate ValidTokens(tokens: seq<Token>) {
    forall i :: 0 <= i < |tokens| ==> ValidToken(tokens[i])
  }

  ghost function Stream(tokens: seq<Token>): string {
    if tokens == [] then "" else TokenText(tokens[0]) + (tokens[0].gap + Stream(tokens[1..]))
  }

  /** A field with this key and a text for a value: a given one, or any. */
  ghost predicate Hit(t: Token, key: string, wanted: Option<string>) {
    && t.Token? && t.field.key == key
    && t.field.value.Text? && (wanted.Some? ==> t.field.value.text == wanted.value)
  }

  function Opening(wanted: Option<string>): string {
    match wanted
    case None => "\""
    case Some(text) => "\"" + (text + "\"")
  }

  function Needle(key: string, wanted: Option<string>): string {
    Pattern(key) + Opening(wanted)
  }

  /** The tokens from the first hit on. */
  ghost function From(tokens: seq<Token>, key: string, wanted: Option<string>): seq<Token> {
    if tokens == [] then []
    else if Hit(tokens[0], key, wanted) then tokens
    else From(tokens[1..], key, wanted)
  }

  ghost predicate Plain(wanted: Option<string>) {
    wanted.Some? ==> Verbatim(wanted.value, Rust)
  }

  lemma {:induction false} NoBackslash(text: string)
    requires '\\' !in Escaped(text, Rust)
    ensures Verbatim(text, Rust)
  {
    if text != "" {
      var head, tail := EscapedChar(text[0], Rust), Escaped(text[1..], Rust);
      EscapedAsIs(text[0], Rust);
      assert forall i :: 0 <= i < |tail| ==> (head + tail)[|head| + i] == tail[i];
      NoBackslash(text[1..]);
      assert head[0] == (head + tail)[0];
    }
  }

  /** Only a text itself is printed so that its verbatim form is what stands before the quote. */
  lemma RawIs(text: string, wanted: string)
    requires Verbatim(wanted, Rust)
    ensures Raw(text, Rust) == wanted <==> text == wanted
  {
    var e := Escaped(text, Rust);
    var i := IndexOfChar(e, '"');
    RawExactly(wanted, Rust);
    EscapedQuotesGuarded(text, Rust);
    assert i < |e| ==> 0 < i && Raw(text, Rust)[i - 1] == e[i - 1] == '\\';
    if Raw(text, Rust) == wanted {
      if i < |e| {
        assert false;
      }
      assert e[..i] == e;
      NoBackslash(text);
      RawExactly(text, Rust);
    }
  }

  lemma QuotedPrefix(a: string, s: string)
    requires '"' !in a
    ensures a + "\"" <= s <==> IndexOfChar(s, '"') == |a| < |s| && s[..|a|] == a
  {
    if a + "\"" <= s {
      assert s[..|a| + 1] == a + "\"";
      assert forall k :: 0 <= k < |a| ==> s[k] == a[k];
      assert s[|a|] == '"';
      IndexOfFirst(s, '"', |a|);
      assert s[..|a|] == a;
    }
  }

  /** A printed value opens as wanted exactly when it is such a text. */
  lemma OpensAs(value: Value, tail: string, wanted: Option<string>)
    requires Plain(wanted) && Separated(tail)
    ensures Opening(wanted) <= ValueText(value, Rust) + tail
       <==> value.Text? && (wanted.Some? ==> value.text == wanted.value)
  {
    var s := ValueText(value, Rust) + tail;
    if value.Text? {
      var e := Escaped(value.text, Rust);
      Opens(e, tail);
      CutsAtQuote(e, tail);
      assert s == "\"" + (e + "\"" + tail);
      if wanted.Some? {
        QuotedPrefix(wanted.value, e + "\"" + tail);
        RawIs(value.text, wanted.value);
        SamePrefix("\"", wanted.value + "\"", e + "\"" + tail);
      }
    } else {
      BareIsPlain(value, Rust);
      assert s[0] == ValueText(value, Rust)[0];
      Differs(s, Opening(wanted), 0);
    }
  }

  lemma SamePrefix(a: string, b: string, s: string)
    ensures a + b <= a + s <==> b <= s
  {
    assert (a + b)[|a|..] == b && (a + s)[|a|..] == s;
    if a + b <= a + s {
      assert (a + s)[..|a + b|][|a|..] == s[..|b|];
    }
    if b <= s {
      assert a + s == (a + b) + s[|b|..];
    }
  }

  lemma NeedleInField(f: Field, tail: string, key: string, wanted: Option<string>, i: nat)
    requires ValidKey(f.key) && ValidKey(key) && Plain(wanted) && Separated(tail) && i < |FieldText(f, Rust)|
    ensures Needle(key, wanted) <= (FieldText(f, Rust) + tail)[i..]
       <==> i == 0 && f.key == key && f.value.Text? && (wanted.Some? ==> f.value.text == wanted.value)
  {
    var s, value := FieldText(f, Rust) + tail, ValueText(f.value, Rust);
    if i > 0 || f.key != key {
      NoMatchInField(f, Rust, tail, key, i);
      if Needle(key, wanted) <= s[i..] {
        ShorterPattern(s[i..], Pattern(key), Opening(wanted));
      }
    } else {
      Associative(Pattern(key), value, tail);
      assert s[0..] == s;
      SamePrefix(Pattern(key), Opening(wanted), value + tail);
      OpensAs(f.value, tail, wanted);
    }
  }

  lemma NeedleInKey(key: string, tail: string, sought: string, wanted: Option<string>, i: nat)
    requires ValidKey(key) && ValidKey(sought) && tail != "" && tail[0] != '"' && i < |Pattern(key)|
    ensures !(Needle(sought, wanted) <= (Pattern(key) + tail)[i..])
  {
    var s := Pattern(key) + tail;
    PatternChars(key);
    if i > 0 || key != sought {
      NoMatchInKey(key, tail, sought, i);
      if Needle(sought, wanted) <= s[i..] {
        ShorterPattern(s[i..], Pattern(sought), Opening(wanted));
      }
    } else {
      assert s[0..] == s;
      SamePrefix(Pattern(key), Opening(wanted), tail);
      assert Opening(wanted)[0] == '"';
    }
  }

  /** Within a token a search stops at its start if it is a hit, and nowhere else. */
  lemma NeedleInToken(t: Token, rest: string, key: string, wanted: Option<string>, i: nat)
    requires ValidToken(t) && ValidKey(key) && Plain(wanted) && i < |TokenText(t)|
    ensures Needle(key, wanted) <= (TokenText(t) + (t.gap + rest))[i..] <==> i == 0 && Hit(t, key, wanted)
  {
    var tail := t.gap + rest;
    assert tail[0] == t.gap[0];
    match t
    case Token(field, _) => NeedleInField(field, tail, key, wanted, i);
    case Nested(name, _) => NeedleInKey(name, tail, key, wanted, i);
  }

  lemma SkipsGap(gap: string, rest: string, needle: string)
    requires '"' !in gap && needle != "" && needle[0] == '"'
    ensures AfterFirst(gap + rest, needle) == AfterFirst(rest, needle)
  {
    forall i | 0 <= i < |gap| ensures !(needle <= (gap + rest)[i..]) {
      assert (gap + rest)[i..][0] == gap[i];
      Differs((gap + rest)[i..], needle, 0);
    }
    Skips(gap, rest, needle);
  }

  lemma TokenOpens(t: Token)
    ensures TokenText(t) != ""
  {
  }

  /** Searching the text finds the first hit among the tokens. */
  lemma {:induction false} Searches(tokens: seq<Token>, key: string, wanted: Option<string>)
    requires ValidTokens(tokens) && ValidKey(key) && Plain(wanted)
    ensures From(tokens, key, wanted) == [] ==> AfterFirst(Stream(tokens), Needle(key, wanted)) == None
    ensures From(tokens, key, wanted) != [] ==>
      && Needle(key, wanted) <= Stream(From(tokens, key, wanted))
      && AfterFirst(Stream(tokens), Needle(key, wanted))
         == Some(Stream(From(tokens, key, wanted))[|Needle(key, wanted)|..])
  {
    var needle := Needle(key, wanted);
    if tokens == [] {
      assert !(needle <= "");
    } else {
      var text, tail := TokenText(tokens[0]), tokens[0].gap + Stream(tokens[1..]);
      TokenOpens(tokens[0]);
      NeedleInToken(tokens[0], Stream(tokens[1..]), key, wanted, 0);
      assert (text + tail)[0..] == text + tail;
      if !Hit(tokens[0], key, wanted) {
        forall i | 0 <= i < |text| ensures !(needle <= (text + tail)[i..]) {
          NeedleInToken(tokens[0], Stream(tokens[1..]), key, wanted, i);
        }
        Skips(text, tail, needle);
        PatternChars(key);
        SkipsGap(tokens[0].gap, Stream(tokens[1..]), needle);
        Searches(tokens[1..], key, wanted);
      }
    }
  }

  lemma {:induction false} FromAppend(a: seq<Token>, b: seq<Token>, key: string, wanted: Option<string>)
    ensures From(a + b, key, wanted)
         == if From(a, key, wanted) == [] then From(b, key, wanted) else From(a, key, wanted) + b
  {
    if a == [] {
      assert a + b == b;
    } else {
      assert (a + b)[1..] == a[1..] + b;
      FromAppend(a[1..], b, key, wanted);
    }
  }

  lemma {:induction false} FromNone(tokens: seq<Token>, key: string, wanted: Option<string>)
    requires forall i :: 0 <= i < |tokens| ==> !Hit(tokens[i], key, wanted)
    ensures From(tokens, key, wanted) == []
  {
    if tokens != [] {
      FromNone(tokens[1..], key, wanted);
    }
  }

  // ---------------------------------------------------------------------------
  // The firmware's lookup
  // ---------------------------------------------------------------------------

  lemma {:induction false} FindIsAfter(s: string, pattern: string, from: nat)
    requires from <= |s| && pattern != ""
    ensures FindFrom(s, pattern, from).None? <==> AfterFirst(s[from..], pattern).None?
    ensures FindFrom(s, pattern, from).Some? ==>
      AfterFirst(s[from..], pattern) == Some(s[FindFrom(s, pattern, from).value + |pattern|..])
    decreases |s| - from
  {
    if pattern <= s[from..] {
      assert s[from..][|pattern|..] == s[from + |pattern|..];
    } else if from < |s| {
      assert s[from..][1..] == s[from + 1..];
      FindIsAfter(s, pattern, from + 1);
    }
  }

  /** What the search leaves tells where it stopped. */
  lemma Stopped(s: string, pattern: string, from: nat, whole: string)
    requires from <= |s| && pattern != "" && pattern <= whole && |whole| <= |s| && s[|s| - |whole|..] == whole
    requires AfterFirst(s[from..], pattern) == Some(whole[|pattern|..])
    ensures FindFrom(s, pattern, from) == Some(|s| - |whole|)
  {
    FindIsAfter(s, pattern, from);
    var i := FindFrom(s, pattern, from).value;
    assert |s[i + |pattern|..]| == |whole[|pattern|..]|;
  }

  /** A rest is a tail of a text. */
  ghost predicate Tails(rest: string, s: string) {
    |rest| <= |s| && s[|s| - |rest|..] == rest
  }

  lemma {:induction false} StreamEnds(tokens: seq<Token>, key: string, wanted: Option<string>)
    ensures Tails(Stream(From(tokens, key, wanted)), Stream(tokens))
  {
    if tokens != [] && !Hit(tokens[0], key, wanted) {
      StreamEnds(tokens[1..], key, wanted);
      StreamHead(tokens);
      EndsWith(TokenText(tokens[0]) + tokens[0].gap, Stream(tokens[1..]), Stream(From(tokens, key, wanted)));
    }
  }

  lemma StreamHead(tokens: seq<Token>)
    requires tokens != []
    ensures Stream(tokens) == (TokenText(tokens[0]) + tokens[0].gap) + Stream(tokens[1..])
  {
    Associative(TokenText(tokens[0]), tokens[0].gap, Stream(tokens[1..]));
  }

  lemma EndsWith(a: string, b: string, rest: string)
    requires Tails(rest, b)
    ensures Tails(rest, a + b)
  {
  }

  lemma NeedlesAreFields(asset: string)
    ensures NameField(asset) == Needle("name", Some(asset)) && DIGEST_FIELD == Needle("digest", None)
  {
    assert Pattern("name") + ("\"" + (asset + "\"")) == "\"name\":\"" + asset + "\"";
    assert Pattern("digest") + "\"" == "\"digest\":\"";
  }

  lemma KeysValid()
    ensures ValidKey("name") && ValidKey("digest")
  {
  }

  ghost function Named(tokens: seq<Token>, asset: string): seq<Token> {
    From(tokens, "name", Some(asset))
  }

  ghost function WithDigest(tokens: seq<Token>): seq<Token> {
    From(tokens, "digest", None)
  }

  /** What the firmware makes of the text of a digest: nothing if it is empty, and no more than
      up to its first quote. */
  ghost function Shown(text: string): Option<string> {
    if Raw(text, Rust) == "" then None else Some(Raw(text, Rust))
  }

  /** The search stops where this rest of the text begins. */
  ghost predicate StopsAt(body: string, needle: string, from: nat, rest: string) {
    && |rest| <= |body| && body[|body| - |rest|..] == rest
    && FindFrom(body, needle, from) == Some(|body| - |rest|)
  }

  lemma Locates(body: string, from: nat, head: string, stream: string, rest: string, needle: string)
    requires from <= |body| && body[from..] == head + stream && needle != ""
    requires needle <= rest && Tails(rest, stream)
    requires AfterFirst(head + stream, needle) == Some(rest[|needle|..])
    ensures StopsAt(body, needle, from, rest)
  {
    EndsWith(head, stream, rest);
    assert body == body[..from] + (head + stream);
    EndsWith(body[..from], head + stream, rest);
    Stopped(body, needle, from, rest);
  }

  lemma NeedleOpens(key: string, wanted: Option<string>)
    ensures Needle(key, wanted) != "" && Needle(key, wanted)[0] == '"'
  {
    PatternChars(key);
  }

  /** From a position where tokens follow, the search stops at the first hit among them. */
  lemma FindsToken(body: string, from: nat, head: string, tokens: seq<Token>, key: string, wanted: Option<string>)
    requires ValidTokens(tokens) && ValidKey(key) && Plain(wanted) && '"' !in head
    requires from <= |body| && body[from..] == head + Stream(tokens)
    ensures From(tokens, key, wanted) == [] ==> FindFrom(body, Needle(key, wanted), from) == None
    ensures From(tokens, key, wanted) != [] ==> StopsAt(body, Needle(key, wanted), from, Stream(From(tokens, key, wanted)))
  {
    NeedleOpens(key, wanted);
    SkipsGap(head, Stream(tokens), Needle(key, wanted));
    Searches(tokens, key, wanted);
    if From(tokens, key, wanted) == [] {
      FindIsAfter(body, Needle(key, wanted), from);
    } else {
      StreamEnds(tokens, key, wanted);
      Locates(body, from, head, Stream(tokens), Stream(From(tokens, key, wanted)), Needle(key, wanted));
    }
  }

  /** The first occurrence of a character. */
  lemma FindsChar(body: string, start: nat, rest: string, c: char, pattern: string, i: nat)
    requires start <= |body| && body[start..] == rest && pattern == [c]
    requires i < |rest| && rest[i] == c && c !in rest[..i]
    ensures FindFrom(body, pattern, start) == Some(start + i)
  {
    forall j: nat | start <= j < start + i ensures !OccursAt(body, pattern, j) {
      assert body[j] == rest[j - start] == rest[..i][j - start];
      assert body[j..][0] == body[j];
    }
    assert body[start + i] == rest[i];
    assert OccursAt(body, pattern, start + i);
  }

  lemma FindsQuote(body: string, start: nat, e: string, tail: string)
    requires start <= |body| && body[start..] == e + "\"" + tail
    ensures FindFrom(body, "\"", start) == Some(start + IndexOfChar(e, '"'))
    ensures body[start..start + IndexOfChar(e, '"')] == e[..IndexOfChar(e, '"')]
  {
    var i, rest := IndexOfChar(e, '"'), e + "\"" + tail;
    CutsAtQuote(e, tail);
    FindsChar(body, start, rest, '"', "\"", i);
    assert body[start..start + i] == rest[..i];
  }

  lemma {:induction false} HitsAreTexts(tokens: seq<Token>, key: string, wanted: Option<string>)
    ensures var found := From(tokens, key, wanted); found != [] ==> Hit(found[0], key, wanted)
  {
    if tokens != [] {
      HitsAreTexts(tokens[1..], key, wanted);
    }
  }

  lemma {:induction false} FromValid(tokens: seq<Token>, key: string, wanted: Option<string>)
    requires ValidTokens(tokens)
    ensures ValidTokens(From(tokens, key, wanted))
  {
    if tokens != [] {
      FromValid(tokens[1..], key, wanted);
    }
  }

  /** Where a digest field opens, its text follows, a quote, and the rest. */
  lemma DigestText(found: seq<Token>)
    requires found != [] && Hit(found[0], "digest", None)
    ensures var t := found[0];
      Stream(found) == Needle("digest", None) + (Escaped(t.field.value.text, Rust) + "\"" + (t.gap + Stream(found[1..])))
  {
    var t := found[0];
    var e, tail := Escaped(t.field.value.text, Rust), t.gap + Stream(found[1..]);
    Reopens(Pattern("digest"), e, tail);
  }

  lemma Reopens(pattern: string, e: string, tail: string)
    ensures pattern + ("\"" + e + "\"") + tail == pattern + "\"" + (e + "\"" + tail)
  {
  }

  /** A value from a position up to the next quote, if there is one and something before it. */
  ghost function UpToQuote(body: string, start: nat): Option<string> {
    var end := FindFrom(body, "\"", start);
    if end.None? || end.value == start then None else Some(body[start..end.value])
  }

  lemma ShowsText(body: string, from: nat, needle: string, e: string, tail: string)
    requires from <= |body| && body[from..] == needle + (e + "\"" + tail)
    ensures from + |needle| <= |body|
    ensures UpToQuote(body, from + |needle|)
         == var raw := e[..IndexOfChar(e, '"')]; if raw == "" then None else Some(raw)
  {
    var start := from + |needle|;
    assert body[start..] == body[from..][|needle|..];
    FindsQuote(body, start, e, tail);
  }

  /** The three outcomes of the two searches. */
  lemma Published(body: string, asset: string, first: string, second: string)
    requires first == NameField(asset) && second == DIGEST_FIELD
    ensures var name := FindFrom(body, first, 0);
      PublishedValue(body, asset)
      == if name.None? then None else PublishedFrom(body, second, name.value)
  {
  }

  ghost function PublishedFrom(body: string, needle: string, from: nat): Option<string> {
    var field := FindFrom(body, needle, from);
    if field.None? then None else UpToQuote(body, field.value + |needle|)
  }

  lemma TakesText(body: string, from: nat, needle: string, rest: string, e: string, tail: string)
    requires rest == needle + (e + "\"" + tail) && StopsAt(body, needle, from, rest)
    ensures PublishedFrom(body, needle, from)
         == var raw := e[..IndexOfChar(e, '"')]; if raw == "" then None else Some(raw)
  {
    ShowsText(body, |body| - |rest|, needle, e, tail);
  }

  lemma TakesAt(body: string, from: nat, needle: string, found: seq<Token>)
    requires found != [] && Hit(found[0], "digest", None) && needle == Needle("digest", None)
    requires StopsAt(body, needle, from, Stream(found))
    ensures PublishedFrom(body, needle, from) == Shown(found[0].field.value.text)
  {
    var t := found[0];
    DigestText(found);
    TakesText(body, from, needle, Stream(found), Escaped(t.field.value.text, Rust), t.gap + Stream(found[1..]));
  }

  /** From a position where tokens follow, the value taken is the text of their first digest. */
  lemma TakesFrom(body: string, from: nat, tokens: seq<Token>, needle: string)
    requires ValidTokens(tokens) && from <= |body| && body[from..] == Stream(tokens)
    requires needle == Needle("digest", None)
    ensures PublishedFrom(body, needle, from) == FirstShown(tokens)
  {
    assert "" + Stream(tokens) == Stream(tokens);
    KeysValid();
    FindsToken(body, from, "", tokens, "digest", None);
    HitsAreTexts(tokens, "digest", None);
    if WithDigest(tokens) != [] {
      TakesAt(body, from, needle, WithDigest(tokens));
    }
  }

  /** What is shown of the first digest among the tokens. */
  ghost function FirstShown(tokens: seq<Token>): Option<string> {
    HitsAreTexts(tokens, "digest", None);
    var found := WithDigest(tokens);
    if found == [] then None else Shown(found[0].field.value.text)
  }

  /** The value the firmware takes is that of the first digest from the asset's name on. */
  lemma TakesDigest(head: string, tokens: seq<Token>, asset: string)
    requires ValidTokens(tokens) && Verbatim(asset, Rust) && '"' !in head
    ensures PublishedValue(head + Stream(tokens), asset) == FirstShown(Named(tokens, asset))
  {
    var body, named, first := head + Stream(tokens), Named(tokens, asset), Needle("name", Some(asset));
    NeedlesAreFields(asset);
    Published(body, asset, first, Needle("digest", None));
    KeysValid();
    assert body[0..] == body;
    FindsToken(body, 0, head, tokens, "name", Some(asset));
    FromValid(tokens, "name", Some(asset));
    if named != [] {
      TakesFrom(body, |body| - |Stream(named)|, named, Needle("digest", None));
    }
  }

  // ---------------------------------------------------------------------------
  // Releases
  // ---------------------------------------------------------------------------

  /** One asset's entry: what stands before its name, its name, and what stands behind it. */
  datatype Entry = Entry(before: seq<Token>, name: string, gap: string, behind: seq<Token>)

  datatype Release = Release(before: seq<Token>, assets: seq<Entry>, after: seq<Token>)

  ghost predicate Without(tokens: seq<Token>, key: string) {
    forall i :: 0 <= i < |tokens| ==> !Hit(tokens[i], key, None)
  }

  ghost function NameToken(e: Entry): Token {
    Token(Field("name", Text(e.name)), e.gap)
  }

  /** The entry has no other name, and no digest before its name. */
  ghost predicate ValidEntry(e: Entry) {
    && ValidTokens(e.before) && ValidToken(NameToken(e)) && ValidTokens(e.behind)
    && Without(e.before, "name") && Without(e.before, "digest") && Without(e.behind, "name")
  }

  /** Nothing behind the list of assets is called a digest. */
  ghost predicate ValidRelease(r: Release) {
    && ValidTokens(r.before) && ValidTokens(r.after) && Without(r.after, "name") && Without(r.after, "digest")
    && forall k :: 0 <= k < |r.assets| ==> ValidEntry(r.assets[k])
  }

  /** The digest of an entry; `"digest":null` is none. */
  ghost function DigestOf(e: Entry): Option<string> {
    HitsAreTexts(e.behind, "digest", None);
    var found := WithDigest(e.behind);
    if found == [] then None else Some(found[0].field.value.text)
  }

  ghost function EntryTokens(e: Entry): seq<Token> {
    e.before + ([NameToken(e)] + e.behind)
  }

  /** The entries one after the other, and what follows the last. */
  ghost function Listing(entries: seq<Entry>, after: seq<Token>): seq<Token> {
    if entries == [] then after else EntryTokens(entries[0]) + Listing(entries[1..], after)
  }

  ghost function Body(r: Release): string {
    "{" + Stream(r.before + Listing(r.assets, r.after))
  }

  /** The entry is the first with the name. */
  ghost predicate IsNamed(entries: seq<Entry>, asset: string, k: nat) {
    k < |entries| && entries[k].name == asset && forall i :: 0 <= i < k ==> entries[i].name != asset
  }

  /** The digest of the first entry that has one. */
  ghost function FirstDigest(entries: seq<Entry>): Option<string> {
    if entries == [] then None
    else if DigestOf(entries[0]).Some? then DigestOf(entries[0])
    else FirstDigest(entries[1..])
  }

  ghost predicate Entries(entries: seq<Entry>, after: seq<Token>) {
    && (forall k :: 0 <= k < |entries| ==> ValidEntry(entries[k]))
    && ValidTokens(after) && Without(after, "name") && Without(after, "digest")
  }

  lemma {:induction false} ListingValid(entries: seq<Entry>, after: seq<Token>)
    requires Entries(entries, after)
    ensures ValidTokens(Listing(entries, after))
  {
    if entries != [] {
      ListingValid(entries[1..], after);
    }
  }

  ghost function OptionShown(text: Option<string>): Option<string> {
    match text case None => None case Some(t) => Shown(t)
  }

  lemma ShownOfEntry(e: Entry, rest: seq<Token>)
    requires Without(e.before, "digest")
    ensures FirstShown([NameToken(e)] + e.behind + rest)
         == if DigestOf(e).Some? then Shown(DigestOf(e).value) else FirstShown(rest)
    ensures FirstShown(EntryTokens(e) + rest)
         == if DigestOf(e).Some? then Shown(DigestOf(e).value) else FirstShown(rest)
  {
    var name := [NameToken(e)];
    FromNone(name, "digest", None);
    FromNone(e.before, "digest", None);
    HitsAreTexts(e.behind, "digest", None);
    FromAppend(name + e.behind, rest, "digest", None);
    FromAppend(name, e.behind, "digest", None);
    FromAppend(EntryTokens(e), rest, "digest", None);
    FromAppend(e.before, name + e.behind, "digest", None);
  }

  lemma {:induction false} ListingShows(entries: seq<Entry>, after: seq<Token>)
    requires Entries(entries, after)
    ensures FirstShown(Listing(entries, after)) == OptionShown(FirstDigest(entries))
  {
    if entries == [] {
      FromNone(after, "digest", None);
    } else {
      ListingShows(entries[1..], after);
      ShownOfEntry(entries[0], Listing(entries[1..], after));
    }
  }

  lemma {:induction false} NoneNamed(tokens: seq<Token>, asset: string)
    requires Without(tokens, "name")
    ensures Named(tokens, asset) == []
  {
    FromNone(tokens, "name", Some(asset));
  }

  lemma NamesOfEntry(e: Entry, asset: string, rest: seq<Token>)
    requires ValidEntry(e)
    ensures Named(EntryTokens(e) + rest, asset)
         == if e.name == asset then [NameToken(e)] + e.behind + rest else Named(rest, asset)
  {
    var name := [NameToken(e)];
    NoneNamed(e.before, asset);
    NoneNamed(e.behind, asset);
    FromAppend(EntryTokens(e), rest, "name", Some(asset));
    FromAppend(e.before, name + e.behind, "name", Some(asset));
    FromAppend(name, e.behind, "name", Some(asset));
    if e.name != asset {
      FromNone(name, "name", Some(asset));
    }
  }

  lemma {:induction false} ListingNamed(entries: seq<Entry>, after: seq<Token>, asset: string, k: nat)
    requires Entries(entries, after) && IsNamed(entries, asset, k)
    ensures FirstShown(Named(Listing(entries, after), asset)) == OptionShown(FirstDigest(entries[k..]))
  {
    var rest := Listing(entries[1..], after);
    NamesOfEntry(entries[0], asset, rest);
    if k == 0 {
      assert entries[0..] == entries;
      ShownOfEntry(entries[0], rest);
      ListingShows(entries[1..], after);
    } else {
      assert entries[1..][k - 1..] == entries[k..];
      ListingNamed(entries[1..], after, asset, k - 1);
    }
  }

  lemma {:induction false} ListingNameless(entries: seq<Entry>, after: seq<Token>, asset: string)
    requires Entries(entries, after) && forall i :: 0 <= i < |entries| ==> entries[i].name != asset
    ensures Named(Listing(entries, after), asset) == []
  {
    if entries == [] {
      NoneNamed(after, asset);
    } else {
      NamesOfEntry(entries[0], asset, Listing(entries[1..], after));
      ListingNameless(entries[1..], after, asset);
    }
  }

  /** The release itself is not called like the asset. */
  ghost predicate Distinguished(r: Release, asset: string) {
    forall i :: 0 <= i < |r.before| ==> !Hit(r.before[i], "name", Some(asset))
  }

  lemma BodyNamed(r: Release, asset: string)
    requires ValidRelease(r) && Verbatim(asset, Rust) && Distinguished(r, asset)
    ensures PublishedValue(Body(r), asset) == FirstShown(Named(Listing(r.assets, r.after), asset))
  {
    var listing := Listing(r.assets, r.after);
    ListingValid(r.assets, r.after);
    TakesDigest("{", r.before + listing, asset);
    FromNone(r.before, "name", Some(asset));
    FromAppend(r.before, listing, "name", Some(asset));
  }

  /** What the firmware takes for an asset's digest is the digest of the first entry that has
      one, from the asset's own entry on. */
  lemma DigestTaken(r: Release, asset: string, k: nat)
    requires ValidRelease(r) && Verbatim(asset, Rust) && Distinguished(r, asset) && IsNamed(r.assets, asset, k)
    ensures PublishedValue(Body(r), asset) == OptionShown(FirstDigest(r.assets[k..]))
  {
    BodyNamed(r, asset);
    ListingNamed(r.assets, r.after, asset, k);
  }

  /** An asset that is not listed has no digest. */
  lemma NotListed(r: Release, asset: string)
    requires ValidRelease(r) && Verbatim(asset, Rust) && Distinguished(r, asset)
    requires forall i :: 0 <= i < |r.assets| ==> r.assets[i].name != asset
    ensures PublishedValue(Body(r), asset) == None
  {
    BodyNamed(r, asset);
    ListingNameless(r.assets, r.after, asset);
  }

  /** Digests as they are published: not empty, and printed as they are. */
  ghost predicate PlainDigests(entries: seq<Entry>) {
    forall i :: 0 <= i < |entries| && DigestOf(entries[i]).Some? ==>
      DigestOf(entries[i]).value != "" && Verbatim(DigestOf(entries[i]).value, Rust)
  }

  lemma {:induction false} FirstIsPlain(entries: seq<Entry>)
    requires PlainDigests(entries)
    ensures OptionShown(FirstDigest(entries)) == FirstDigest(entries)
    ensures FirstDigest(entries).None? <==> forall i :: 0 <= i < |entries| ==> DigestOf(entries[i]).None?
  {
    if entries != [] {
      assert forall i :: 0 <= i < |entries[1..]| ==> entries[1..][i] == entries[i + 1];
      FirstIsPlain(entries[1..]);
      if DigestOf(entries[0]).Some? {
        RawExactly(DigestOf(entries[0]).value, Rust);
      } else if forall i :: 0 <= i < |entries[1..]| ==> DigestOf(entries[1..][i]).None? {
        assert forall i :: 1 <= i < |entries| ==> entries[i] == entries[1..][i - 1];
      }
    }
  }

  /** The digest taken is the asset's own exactly when its entry has one or no later entry has
      one either; for an entry without a digest the digest of another asset is taken. */
  lemma OwnDigestExactly(r: Release, asset: string, k: nat)
    requires ValidRelease(r) && Verbatim(asset, Rust) && Distinguished(r, asset) && IsNamed(r.assets, asset, k)
    requires PlainDigests(r.assets)
    ensures PublishedValue(Body(r), asset) == DigestOf(r.assets[k])
       <==> DigestOf(r.assets[k]).Some? || forall j :: k < j < |r.assets| ==> DigestOf(r.assets[j]).None?
  {
    var rest := r.assets[k..];
    assert forall i :: 0 <= i < |rest| ==> rest[i] == r.assets[k + i];
    DigestTaken(r, asset, k);
    FirstIsPlain(rest);
    if forall j :: k < j < |r.assets| ==> DigestOf(r.assets[j]).None? {
      assert forall i :: 1 <= i < |rest| ==> rest[i] == r.assets[k + i];
    } else {
      var j :| k < j < |r.assets| && DigestOf(r.assets[j]).Some?;
      assert rest[j - k] == r.assets[j];
    }
  }

  /** Digits behind something that ends in another character are the first digits in a row. */
  lemma DigitsBehind(kind: string, digits: string)
    requires 0 < |kind| <= DIGEST_HEX_LENGTH && !IsHex(kind[|kind| - 1])
    requires |digits| == DIGEST_HEX_LENGTH && forall i :: 0 <= i < |digits| ==> IsHex(digits[i])
    ensures IsFirstDigest(kind + digits, Lowered(digits))
  {
    var digest := kind + digits;
    forall j: nat | j < |kind| ensures !DigestAt(digest, j) {
      NotAcross(digest, j, |kind| - 1);
    }
    assert digest[|kind|..|kind| + DIGEST_HEX_LENGTH] == digits;
    assert DigestAt(digest, |kind|);
  }

  lemma VerbatimHex(kind: string, bytes: seq<byte>)
    requires Verbatim(kind, Rust)
    ensures Verbatim(kind + HexText(bytes), Rust)
  {
    HexTextIsHex(bytes);
    var digest := kind + HexText(bytes);
    forall i | 0 <= i < |digest| ensures digest[i] !in "\"\\\n\r\t" {
      if i < |kind| {
        assert digest[i] == kind[i];
      } else {
        assert digest[i] in HEX_DIGITS;
      }
    }
  }

  /** And they are the only ones. */
  lemma OnlyDigest(kind: string, digits: string, value: string, d: string)
    requires 0 < |kind| <= DIGEST_HEX_LENGTH && !IsHex(kind[|kind| - 1]) && value == kind + digits
    requires |digits| == DIGEST_HEX_LENGTH && forall i :: 0 <= i < |digits| ==> IsHex(digits[i])
    ensures IsFirstDigest(value, d) <==> d == Lowered(digits)
  {
    DigitsBehind(kind, digits);
    if IsFirstDigest(value, d) {
      FirstDigestUnique(value, d, Lowered(digits));
    }
  }

  lemma ValueTaken(r: Release, asset: string, k: nat, value: string)
    requires ValidRelease(r) && Verbatim(asset, Rust) && Distinguished(r, asset) && IsNamed(r.assets, asset, k)
    requires DigestOf(r.assets[k]) == Some(value) && Verbatim(value, Rust) && value != ""
    ensures PublishedValue(Body(r), asset) == Some(value)
  {
    DigestTaken(r, asset, k);
    assert r.assets[k..][0] == r.assets[k];
    RawExactly(value, Rust);
  }

  /** An asset whose entry carries the digest of an image, as it is published, has exactly the
      digest accepted that is computed from the image. */
  lemma GenuineAccepted(r: Release, asset: string, k: nat, digest: seq<byte>, d: string)
    requires ValidRelease(r) && Verbatim(asset, Rust) && Distinguished(r, asset) && IsNamed(r.assets, asset, k)
    requires |digest| == 32 && DigestOf(r.assets[k]) == Some("sha256:" + HexText(digest))
    ensures Publishes(Body(r), asset, d) <==> d == HexText(digest)
  {
    var value, digits := "sha256:" + HexText(digest), HexText(digest);
    VerbatimHex("sha256:", digest);
    ValueTaken(r, asset, k, value);
    HexTextIsHex(digest);
    LoweredHexText(digest);
    OnlyDigest("sha256:", digits, value, d);
  }

  // ---------------------------------------------------------------------------
  // A release for which it is not
  // ---------------------------------------------------------------------------

  /** Two assets, the first of them without a digest. */
  function TwoAssets(first: string, second: string, digest: string): string {
    "{\"assets\":[{" + ("\"name\":\"" + first + "\",") + "\"digest\":null},{"
    + ("\"name\":\"" + second + "\",") + ("\"digest\":\"" + digest + "\"}]}")
  }

  function NullDigest(gap: string): Token { Token(Field("digest", Null), gap) }

  function DigestToken(digest: string, gap: string): Token { Token(Field("digest", Text(digest)), gap) }

  ghost function TwoEntries(first: string, second: string, digest: string): Release {
    Release([Nested("assets", "[{")],
            [Entry([], first, ",", [NullDigest("},{")]), Entry([], second, ",", [DigestToken(digest, "}]}")])],
            [])
  }

  ghost function Printed(t: Token): string { TokenText(t) + t.gap }

  lemma TextToken(key: string, text: string, gap: string)
    requires Verbatim(text, Rust)
    ensures Printed(Token(Field(key, Text(text)), gap)) == "\"" + key + "\":\"" + text + ("\"" + gap)
  {
    EscapedVerbatim(text, Rust);
  }

  lemma StreamStep(t: Token, rest: seq<Token>)
    ensures Stream([t] + rest) == Printed(t) + Stream(rest)
  {
    assert ([t] + rest)[1..] == rest;
  }

  lemma StreamOfFive(a: Token, b: Token, c: Token, d: Token, e: Token)
    ensures "{" + Stream([a] + ([b] + ([c] + ([d] + ([e] + [])))))
         == "{" + Printed(a) + Printed(b) + Printed(c) + Printed(d) + Printed(e)
  {
    StreamStep(e, []);
    StreamStep(d, [e] + []);
    StreamStep(c, [d] + ([e] + []));
    StreamStep(b, [c] + ([d] + ([e] + [])));
    StreamStep(a, [b] + ([c] + ([d] + ([e] + []))));
    Flattened("{", Printed(a), Printed(b), Printed(c), Printed(d), Printed(e));
  }

  lemma TwoTokens(first: string, second: string, digest: string)
    ensures var r := TwoEntries(first, second, digest);
      r.before + Listing(r.assets, r.after)
      == [Nested("assets", "[{")] + ([NameToken(r.assets[0])] + ([NullDigest("},{")]
         + ([NameToken(r.assets[1])] + ([DigestToken(digest, "}]}")] + []))))
  {
    var r := TwoEntries(first, second, digest);
    assert r.assets[1..] == [r.assets[1]];
    assert Listing([r.assets[1]], []) == EntryTokens(r.assets[1]);
  }

  lemma Flattened(a: string, b: string, c: string, d: string, e: string, f: string)
    ensures a + (b + (c + (d + (e + f)))) == a + b + c + d + e + f
  {
  }

  lemma OpensLike(first: string, second: string, digest: string)
    ensures ("\"" + "name" + "\":\"" + first + ("\"" + ",")) == "\"name\":\"" + first + "\","
    ensures "\"digest\":null" + "},{" == "\"digest\":null},{"
    ensures ("\"" + "digest" + "\":\"" + digest + ("\"" + "}]}")) == "\"digest\":\"" + digest + "\"}]}"
    ensures "{" + ("\"" + "assets" + "\":" + "[{") == "{\"assets\":[{"
  {
  }

  lemma TwoBody(first: string, second: string, digest: string)
    ensures Body(TwoEntries(first, second, digest))
         == "{" + Printed(Nested("assets", "[{")) + Printed(NameToken(Entry([], first, ",", []))) + Printed(NullDigest("},{"))
            + Printed(NameToken(Entry([], second, ",", []))) + Printed(DigestToken(digest, "}]}"))
  {
    TwoTokens(first, second, digest);
    StreamOfFive(Nested("assets", "[{"), NameToken(Entry([], first, ",", [])), NullDigest("},{"),
                 NameToken(Entry([], second, ",", [])), DigestToken(digest, "}]}"));
  }

  lemma NamePrinted(asset: string)
    requires Verbatim(asset, Rust)
    ensures Printed(NameToken(Entry([], asset, ",", []))) == "\"name\":\"" + asset + "\","
  {
    TextToken("name", asset, ",");
    OpensLike(asset, asset, asset);
  }

  lemma DigestPrinted(digest: string)
    requires Verbatim(digest, Rust)
    ensures Printed(DigestToken(digest, "}]}")) == "\"digest\":\"" + digest + "\"}]}"
  {
    TextToken("digest", digest, "}]}");
    OpensLike(digest, digest, digest);
  }

  lemma FixedPrinted()
    ensures Printed(NullDigest("},{")) == "\"digest\":null},{"
    ensures "{" + Printed(Nested("assets", "[{")) == "{\"assets\":[{"
  {
    OpensLike("", "", "");
    assert FieldText(Field("digest", Null), Rust) == "\"digest\":null";
    assert Pattern("assets") + "[{" == "\"" + "assets" + "\":" + "[{";
  }

  lemma TwoPrinted(first: string, second: string, digest: string)
    requires Verbatim(first, Rust) && Verbatim(second, Rust) && Verbatim(digest, Rust)
    ensures Body(TwoEntries(first, second, digest)) == TwoAssets(first, second, digest)
  {
    TwoBody(first, second, digest);
    NamePrinted(first);
    NamePrinted(second);
    DigestPrinted(digest);
    FixedPrinted();
  }

  lemma TwoAreValid(first: string, second: string, digest: string)
    requires Verbatim(first, Rust) && Verbatim(digest, Rust) && digest != ""
    ensures var r := TwoEntries(first, second, digest);
      ValidRelease(r) && Distinguished(r, first) && IsNamed(r.assets, first, 0)
      && DigestOf(r.assets[0]) == None && DigestOf(r.assets[1]) == Some(digest) && PlainDigests(r.assets)
  {
    var r := TwoEntries(first, second, digest);
    KeysValid();
    FromNone(r.assets[0].behind, "digest", None);
  }

  /** The other asset's digest is published for the first one. */
  lemma OthersTaken(first: string, second: string, digest: string)
    requires Verbatim(first, Rust) && Verbatim(second, Rust) && Verbatim(digest, Rust) && digest != ""
    ensures PublishedValue(TwoAssets(first, second, digest), first) == Some(digest)
  {
    var r := TwoEntries(first, second, digest);
    TwoPrinted(first, second, digest);
    TwoAreValid(first, second, digest);
    DigestTaken(r, first, 0);
    assert r.assets[0..] == r.assets;
    FirstIsPlain(r.assets);
  }

  /** A digest as it is published: its kind, a colon, and 64 hexadecimal digits. */
  lemma OthersAccepted(first: string, second: string, digits: string)
    requires Verbatim(first, Rust) && Verbatim(second, Rust)
    requires |digits| == DIGEST_HEX_LENGTH && forall i :: 0 <= i < |digits| ==> IsHex(digits[i])
    ensures Publishes(TwoAssets(first, second, "sha256:" + digits), first, Lowered(digits))
  {
    OthersTaken(first, second, "sha256:" + digits);
    DigitsBehind("sha256:", digits);
  }
}
