/** Download addresses: the parser, as the inverse of a printer, and the release asset addresses
    it is fed. */
module ReleaseUrl {
  import opened Wrappers
  import J = Json
  import JS = JsonScan
  import opened Decimals
  import opened Texts
  import opened Versions

  datatype Scheme = Http | Https

  datatype Url = Url(scheme: Scheme, host: string, port: nat, path: string)

  // ---------------------------------------------------------------------------
  // Parsing
  // ---------------------------------------------------------------------------

  /** What precedes and what follows the first "://". */
  function SplitScheme(s: string): Option<(string, string)> {
    if s == "" then None
    else if "://" <= s then Some(("", s[3..]))
    else
      match SplitScheme(s[1..])
      case None => None
      case Some((before, after)) => Some(([s[0]] + before, after))
  }

  function SchemeOf(text: string): Option<Scheme> {
    if SameLetters(text, "http") then Some(Http)
    else if SameLetters(text, "https") then Some(Https)
    else None
  }

  function DefaultPort(scheme: Scheme): nat {
    if scheme.Http? then 80 else 443
  }

  /** One past the last colon, 0 if there is none. */
  function AfterLastColon(s: string): (i: nat)
    ensures i <= |s| && ':' !in s[i..] && (i > 0 ==> s[i - 1] == ':')
  {
    if s == "" then 0
    else if s[|s| - 1] == ':' then |s|
    else
      var i := AfterLastColon(s[..|s| - 1]);
      assert s[i..] == s[..|s| - 1][i..] + [s[|s| - 1]];
      i
  }

  /** Host and port of an authority; the port must be all digits and fit 16 bits. */
  function ParseAuthority(authority: string, scheme: Scheme): Option<(string, nat)> {
    var colon := AfterLastColon(authority);
    if colon == 0 then Some((authority, DefaultPort(scheme)))
    else
      var (host, port) := (authority[..colon - 1], DigitsValue(authority[colon..]));
      if host == "" || port.None? || port.value > 0xFFFF then None else Some((host, port.value))
  }

  function ParseRemainder(remainder: string, scheme: Scheme): Option<Url> {
    var slash := J.IndexOfChar(remainder, '/');
    if slash == |remainder| || slash == 0 then None
    else
      match ParseAuthority(remainder[..slash], scheme)
      case None => None
      case Some((host, port)) => Some(Url(scheme, host, port, remainder[slash..]))
  }

  function ParseDownloadUrl(url: string): Option<Url> {
    match SplitScheme(Trim(url))
    case None => None
    case Some((schemeText, remainder)) =>
      var scheme := SchemeOf(schemeText);
      if scheme.None? then None else ParseRemainder(remainder, scheme.value)
  }

  // ---------------------------------------------------------------------------
  // Printing
  // ---------------------------------------------------------------------------

  function SchemeText(scheme: Scheme): string {
    if scheme.Http? then "http" else "https"
  }

  function Print(u: Url): string {
    SchemeText(u.scheme) + "://" + (u.host + ":" + J.Decimal(u.port) + u.path)
  }

  /** The addresses that can be asked for. */
  ghost predicate Valid(u: Url) {
    && u.host != "" && '/' !in u.host && u.port <= 0xFFFF
    && u.path != "" && u.path[0] == '/' && !IsSpace(u.path[|u.path| - 1])
  }

  lemma SplitsAtScheme(scheme: Scheme, rest: string)
    ensures SplitScheme(SchemeText(scheme) + "://" + rest) == Some((SchemeText(scheme), rest))
  {
    SplitsAfter(SchemeText(scheme), rest);
  }

  lemma {:induction false} SplitsAfter(before: string, rest: string)
    requires ':' !in before
    ensures SplitScheme(before + "://" + rest) == Some((before, rest))
  {
    var s := before + "://" + rest;
    if before == "" {
      assert s == "://" + rest;
      assert s[3..] == rest;
    } else {
      assert s[0] == before[0] && s[1..] == before[1..] + "://" + rest;
      JS.Differs(s, "://", 0);
      assert before == [before[0]] + before[1..];
      SplitsAfter(before[1..], rest);
    }
  }

  lemma {:induction false} LastColonIs(s: string, i: nat)
    requires 0 < i <= |s| && s[i - 1] == ':' && forall k :: i <= k < |s| ==> s[k] != ':'
    ensures AfterLastColon(s) == i
  {
    if i < |s| {
      LastColonIs(s[..|s| - 1], i);
    }
  }

  lemma {:induction false} ColonBefore(host: string, port: string)
    requires ':' !in port
    ensures AfterLastColon(host + ":" + port) == |host| + 1
  {
    var s := host + ":" + port;
    assert forall k :: |host| + 1 <= k < |s| ==> s[k] == port[k - |host| - 1];
    LastColonIs(s, |host| + 1);
  }

  lemma ParsesRemainder(u: Url)
    requires Valid(u)
    ensures ParseRemainder(u.host + ":" + J.Decimal(u.port) + u.path, u.scheme) == Some(u)
  {
    var digits := J.Decimal(u.port);
    var authority := u.host + ":" + digits;
    JS.DecimalDigits(u.port);
    DigitsOfDecimal(u.port);
    AuthorityParses(u.host, digits, u.port, u.scheme);
    assert '/' !in authority;
    JS.IndexSkips(authority, u.path, '/');
    assert (authority + u.path)[..|authority|] == authority && (authority + u.path)[|authority|..] == u.path;
  }

  lemma AuthorityParses(host: string, digits: string, port: nat, scheme: Scheme)
    requires host != "" && ':' !in digits && DigitsValue(digits) == Some(port) && port <= 0xFFFF
    ensures ParseAuthority(host + ":" + digits, scheme) == Some((host, port))
  {
    var authority := host + ":" + digits;
    ColonBefore(host, digits);
    assert authority[..|host|] == host && authority[|host| + 1..] == digits;
  }

  /** What a parsed address looks like. */
  lemma ParsedIsValid(url: string, u: Url)
    requires ParseDownloadUrl(url) == Some(u)
    ensures Valid(u)
  {
    var trimmed := Trim(url);
    var (schemeText, remainder) := SplitScheme(trimmed).value;
    RemainderIsValid(remainder, u);
    SplitKeepsEnd(trimmed, schemeText, remainder);
    TrimEndsClean(TrimStart(url));
  }

  lemma RemainderIsValid(remainder: string, u: Url)
    requires ParseRemainder(remainder, u.scheme) == Some(u)
    ensures u.host != "" && '/' !in u.host && u.port <= 0xFFFF
    ensures u.path != "" && u.path[0] == '/' && u.path[|u.path| - 1] == remainder[|remainder| - 1]
  {
    var slash := J.IndexOfChar(remainder, '/');
    var authority := remainder[..slash];
    assert forall k :: 0 <= k < |u.host| ==> u.host[k] == authority[k];
  }

  lemma {:induction false} SplitKeepsEnd(s: string, before: string, after: string)
    requires SplitScheme(s) == Some((before, after)) && after != ""
    ensures s != "" && s[|s| - 1] == after[|after| - 1]
  {
    if !("://" <= s) {
      SplitKeepsEnd(s[1..], before[1..], after);
    }
  }

  lemma TrimsNothing(u: Url)
    requires u.path != "" && !IsSpace(u.path[|u.path| - 1])
    ensures Trim(Print(u)) == Print(u)
  {
    var s := Print(u);
    assert s[0] == 'h';
    assert s[|s| - 1] == u.path[|u.path| - 1];
    TrimmedStays(s);
  }

  lemma SchemeComesBack(scheme: Scheme)
    ensures SchemeOf(SchemeText(scheme)) == Some(scheme)
  {
    assert |"http"| == 4 && |"https"| == 5;
  }

  /** Printing and parsing give the address back exactly when it can be asked for at all. */
  lemma PrintParse(u: Url)
    ensures ParseDownloadUrl(Print(u)) == Some(u) <==> Valid(u)
  {
    if Valid(u) {
      TrimsNothing(u);
      SplitsAtScheme(u.scheme, u.host + ":" + J.Decimal(u.port) + u.path);
      SchemeComesBack(u.scheme);
      ParsesRemainder(u);
    } else if ParseDownloadUrl(Print(u)) == Some(u) {
      ParsedIsValid(Print(u), u);
      assert false;
    }
  }

  lemma {:induction false} NoColonAnywhere(s: string)
    requires ':' !in s
    ensures AfterLastColon(s) == 0
  {
    if s != "" {
      NoColonAnywhere(s[..|s| - 1]);
    }
  }

  lemma RemainderWithoutPort(host: string, path: string, scheme: Scheme)
    requires host != "" && '/' !in host && ':' !in host && path != "" && path[0] == '/'
    ensures ParseRemainder(host + path, scheme) == Some(Url(scheme, host, if scheme.Http? then 80 else 443, path))
  {
    JS.IndexSkips(host, path, '/');
    NoColonAnywhere(host);
    assert (host + path)[..|host|] == host && (host + path)[|host|..] == path;
  }

  /** Without a port it is 80 for http and 443 for https. */
  lemma UsualPort(scheme: Scheme, host: string, path: string)
    requires host != "" && '/' !in host && ':' !in host
    requires path != "" && path[0] == '/' && !IsSpace(path[|path| - 1])
    ensures ParseDownloadUrl(SchemeText(scheme) + "://" + (host + path))
         == Some(Url(scheme, host, if scheme.Http? then 80 else 443, path))
  {
    var s := SchemeText(scheme) + "://" + (host + path);
    assert s[0] == 'h' && s[|s| - 1] == path[|path| - 1];
    TrimmedStays(s);
    SplitsAtScheme(scheme, host + path);
    SchemeComesBack(scheme);
    RemainderWithoutPort(host, path, scheme);
  }

  // ---------------------------------------------------------------------------
  // Release assets
  // ---------------------------------------------------------------------------

  ghost function AssetName(version: string, target: string, extension: string): string {
    if Core(version) == "" || Trim(target) == "" then ""
    else "EspWaveRider-" + Core(version) + "-" + Trim(target) + extension
  }

  ghost function AssetFolder(owner: string, repo: string, version: string): string {
    Trim(owner) + "/" + Trim(repo) + "/releases/download/v" + Core(version) + "/"
  }

  ghost function AssetPath(owner: string, repo: string, version: string, target: string): string {
    "/" + (AssetFolder(owner, repo, version) + AssetName(Core(version), target, ".bin"))
  }

  ghost function AssetUrl(owner: string, repo: string, version: string, target: string): string {
    if Core(version) == "" || Trim(owner) == "" || Trim(repo) == "" || AssetName(Core(version), target, ".bin") == "" then ""
    else "https://github.com" + AssetPath(owner, repo, version, target)
  }

  lemma PathEnds(folder: string, name: string)
    requires name != "" && !IsSpace(name[|name| - 1])
    ensures ("/" + (folder + name))[0] == '/' && !IsSpace(("/" + (folder + name))[|folder| + |name|])
  {
  }

  lemma NameEnds(version: string, target: string)
    requires AssetName(version, target, ".bin") != ""
    ensures !IsSpace(AssetName(version, target, ".bin")[|AssetName(version, target, ".bin")| - 1])
  {
    var stem := "EspWaveRider-" + Core(version) + "-" + Trim(target);
    assert (stem + ".bin")[|stem| + 3] == 'n';
  }

  /** Whatever is asked for, a release address the firmware builds is one it can download from:
      the parser finds github.com, port 443 and the asset's path in it. */
  lemma AssetUrlParses(owner: string, repo: string, version: string, target: string)
    requires AssetUrl(owner, repo, version, target) != ""
    ensures ParseDownloadUrl(AssetUrl(owner, repo, version, target))
         == Some(Url(Https, "github.com", 443, AssetPath(owner, repo, version, target)))
  {
    var folder, name := AssetFolder(owner, repo, version), AssetName(Core(version), target, ".bin");
    NameEnds(Core(version), target);
    PathEnds(folder, name);
    GithubParses("/" + (folder + name));
  }

  lemma GithubParses(path: string)
    requires path != "" && path[0] == '/' && !IsSpace(path[|path| - 1])
    ensures ParseDownloadUrl("https://github.com" + path) == Some(Url(Https, "github.com", 443, path))
  {
    SecurePrefix();
    HostedParses("https://", "github.com", "https://github.com", path);
  }

  lemma SecurePrefix()
    ensures SchemeText(Https) + "://" == "https://" && "https://" + "github.com" == "https://github.com"
  {
  }

  lemma HostedParses(prefix: string, host: string, start: string, path: string)
    requires prefix == SchemeText(Https) + "://" && start == prefix + host
    requires host != "" && '/' !in host && ':' !in host
    requires path != "" && path[0] == '/' && !IsSpace(path[|path| - 1])
    ensures ParseDownloadUrl(start + path) == Some(Url(Https, host, 443, path))
  {
    UsualPort(Https, host, path);
    Associative(prefix, host, path);
  }
}
