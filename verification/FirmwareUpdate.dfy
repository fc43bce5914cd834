/** The C++ firmware's update: the published checksum, the hash-then-activate download, and
    the queue of at most one requested update. */
module FirmwareUpdate {
  import opened Wrappers
  import opened Heapless
  import opened Texts
  import Versions

  const DOWNLOAD_BUFFER_SIZE: nat := 4096
  const DIGEST_HEX_LENGTH: nat := 64

  // ---------------------------------------------------------------------------
  // The published checksum
  // ---------------------------------------------------------------------------

  predicate IsHex(c: char) { '0' <= c <= '9' || 'a' <= c <= 'f' || 'A' <= c <= 'F' }

  /** 64 hexadecimal digits in a row, starting at i. */
  ghost predicate DigestAt(s: string, i: nat) {
    i + DIGEST_HEX_LENGTH <= |s| && forall k :: i <= k < i + DIGEST_HEX_LENGTH ==> IsHex(s[k])
  }

  lemma NotAcross(s: string, i: nat, k: nat)
    requires i <= k < i + DIGEST_HEX_LENGTH && k < |s| && !IsHex(s[k])
    ensures !DigestAt(s, i)
  {
  }

  /** The first 64 hexadecimal digits in a row, in lower case, or nothing if there are none. */
  method ExtractSha256Hex(s: string) returns (digest: string)
    ensures digest == "" ==> forall i: nat :: !DigestAt(s, i)
    ensures digest != "" ==>
              exists i: nat :: DigestAt(s, i) && digest == Lowered(s[i..i + DIGEST_HEX_LENGTH])
                            && forall j: nat :: j < i ==> !DigestAt(s, j)
  {
    digest := "";
    ghost var start: nat := 0;  // where the run collected so far began
    for index := 0 to |s|
      invariant start + |digest| == index && |digest| < DIGEST_HEX_LENGTH
      invariant digest == Lowered(s[start..index])
      invariant forall k :: start <= k < index ==> IsHex(s[k])
      invariant forall j: nat :: j < start ==> !DigestAt(s, j)
    {
      if IsHex(s[index]) {
        assert s[start..index + 1] == s[start..index] + [s[index]];
        digest := digest + [Lower(s[index])];
        if |digest| == DIGEST_HEX_LENGTH {
          assert DigestAt(s, start);
          return;
        }
        continue;
      }
      forall j: nat | j < index + 1 ensures !DigestAt(s, j) {
        if start <= j {
          NotAcross(s, j, index);
        }
      }
      digest, start := "", index + 1;
    }
    digest := "";
  }

  predicate OccursAt(s: string, pattern: string, i: nat) {
    i <= |s| && pattern <= s[i..]
  }

  /** indexOf: the first occurrence from a position on. */
  function FindFrom(s: string, pattern: string, from: nat): (found: Option<nat>)
    ensures found.Some? ==> from <= found.value && OccursAt(s, pattern, found.value)
    ensures found.Some? ==> found.value + |pattern| <= |s|
    ensures forall j: nat :: from <= j && (found.Some? ==> j < found.value) ==> !OccursAt(s, pattern, j)
    decreases |s| - from
  {
    if from > |s| then None
    else if OccursAt(s, pattern, from) then Some(from)
    else if from == |s| then None
    else FindFrom(s, pattern, from + 1)
  }

  const DIGEST_FIELD := "\"digest\":\""

  function NameField(asset: string): string { "\"name\":\"" + asset + "\"" }

  /** Where the release text names the asset, and the first digest field from there on. */
  function DigestField(body: string, asset: string): Option<(nat, nat)> {
    match FindFrom(body, NameField(asset), 0)
    case None => None
    case Some(name) =>
      match FindFrom(body, DIGEST_FIELD, name)
      case None => None
      case Some(field) => Some((name, field))
  }

  /** The value of that field, if it is closed and not empty. */
  function PublishedValue(body: string, asset: string): Option<string> {
    match DigestField(body, asset)
    case None => None
    case Some((_, field)) =>
      var start := field + |DIGEST_FIELD|;
      var end := FindFrom(body, "\"", start);
      if end.None? || end.value == start then None else Some(body[start..end.value])
  }

  /** A digest is the published one: the first 64 hexadecimal digits of the field's value. */
  ghost predicate Publishes(body: string, asset: string, digest: string) {
    PublishedValue(body, asset).Some? && IsFirstDigest(PublishedValue(body, asset).value, digest)
  }

  ghost predicate IsFirstDigest(value: string, digest: string) {
    exists i: nat :: DigestAt(value, i) && digest == Lowered(value[i..i + DIGEST_HEX_LENGTH])
                  && forall j: nat :: j < i ==> !DigestAt(value, j)
  }

  datatype Lookup = Found(digest: string) | Missing(error: string)

  /** fetchFirmwareReleaseChecksum, from the text of the release on. */
  method LookUpChecksum(body: string, asset: string) returns (lookup: Lookup)
    ensures lookup.Found? ==> Publishes(body, asset, lookup.digest) && |lookup.digest| == DIGEST_HEX_LENGTH
    ensures lookup.Missing? ==> forall digest :: !Publishes(body, asset, digest)
    ensures lookup == Missing("release_api_asset_missing") <==> forall i: nat :: !OccursAt(body, NameField(asset), i)
    ensures lookup == Missing("release_api_digest_missing") <==>
      FindFrom(body, NameField(asset), 0).Some? && DigestField(body, asset).None?
    ensures lookup == Missing("release_api_digest_parse_failed") <==>
      DigestField(body, asset).Some? && PublishedValue(body, asset).None?
    ensures lookup == Missing("release_api_digest_invalid") <==>
      PublishedValue(body, asset).Some? && forall i: nat :: !DigestAt(PublishedValue(body, asset).value, i)
  {
    var name := FindFrom(body, NameField(asset), 0);
    if name.None? {
      return Missing("release_api_asset_missing");
    }
    var field := FindFrom(body, DIGEST_FIELD, name.value);
    if field.None? {
      return Missing("release_api_digest_missing");
    }
    var start := field.value + |DIGEST_FIELD|;
    var end := FindFrom(body, "\"", start);
    if end.None? || end.value <= start {
      return Missing("release_api_digest_parse_failed");
    }
    var value := body[start..end.value];
    assert PublishedValue(body, asset) == Some(value);
    var checksum := ExtractSha256Hex(value);
    if |checksum| == DIGEST_HEX_LENGTH {
      assert IsFirstDigest(value, checksum);
      return Found(checksum);
    }
    return Missing("release_api_digest_invalid");
  }

  lemma FirstDigestUnique(value: string, d: string, e: string)
    requires IsFirstDigest(value, d) && IsFirstDigest(value, e)
    ensures d == e
  {
    var i: nat :| DigestAt(value, i) && d == Lowered(value[i..i + DIGEST_HEX_LENGTH]) && forall j: nat :: j < i ==> !DigestAt(value, j);
    var k: nat :| DigestAt(value, k) && e == Lowered(value[k..k + DIGEST_HEX_LENGTH]) && forall j: nat :: j < k ==> !DigestAt(value, j);
    assert i == k;
  }

  // ---------------------------------------------------------------------------
  // Downloading and activating
  // ---------------------------------------------------------------------------

  datatype Stage = Idle | Open | Aborted | Finalised

  /** The platform's updater: it stores what it is given, and may fail at any point unless it is
      reliable. */
  class Updater {
    const reliable: bool
    var stage: Stage
    var size: nat
    var flashed: seq<byte>
    var finished: bool  // the platform has found the image complete

    constructor (reliable: bool)
      ensures stage == Idle && flashed == [] && !finished && this.reliable == reliable
    {
      stage, size, flashed, finished, this.reliable := Idle, 0, [], false, reliable;
    }

    method Begin(length: nat) returns (ok: bool)
      modifies this
      ensures if ok then stage == Open && size == length && flashed == [] && !finished
              else stage == old(stage) && flashed == old(flashed) && finished == old(finished)
      ensures reliable ==> ok
    {
      ok := *;
      ok := ok || reliable;
      if ok {
        stage, size, flashed, finished := Open, length, [], false;
      }
    }

    method Write(bytes: seq<byte>) returns (stored: nat)
      requires stage == Open
      modifies this`flashed
      ensures stored <= |bytes| && flashed == old(flashed) + bytes[..stored]
      ensures reliable ==> stored == |bytes|
    {
      stored :| 0 <= stored <= |bytes| && (reliable ==> stored == |bytes|);
      flashed := flashed + bytes[..stored];
    }

    method End() returns (ok: bool)
      requires stage == Open
      modifies this`stage, this`finished
      ensures stage == if ok then Finalised else Open
      ensures reliable ==> ok && (finished <==> |flashed| == size)
    {
      ok := *;
      ok := ok || reliable;
      stage := if ok then Finalised else Open;
      finished := *;
      if reliable {
        finished := |flashed| == size;
      }
    }

    method IsFinished() returns (answer: bool)
      ensures answer == finished
    {
      answer := finished;
    }

    method Abort()
      modifies this`stage
      ensures stage == Aborted
    {
      stage := Aborted;
    }
  }

  /** The SHA-256 digest of a byte string, as 32 bytes; any function will do here. */
  type Hash = seq<byte> -> seq<byte>

  const HEX_DIGITS := "0123456789abcdef"

  function HexByte(b: byte): string {
    [HEX_DIGITS[b / 16], HEX_DIGITS[b % 16]]
  }

  function HexText(bytes: seq<byte>): string {
    if bytes == [] then "" else HexText(bytes[..|bytes| - 1]) + HexByte(bytes[|bytes| - 1])
  }

  /** The text identifies the bytes, so comparing texts compares digests. */
  lemma {:induction false} HexTextInjective(a: seq<byte>, b: seq<byte>)
    requires |a| == |b| && HexText(a) == HexText(b)
    ensures a == b
  {
    if a != [] {
      var p, x, q, y := a[..|a| - 1], a[|a| - 1], b[..|b| - 1], b[|b| - 1];
      HexTextLength(p);
      HexTextLength(q);
      SameParts(HexText(p), HexByte(x), HexText(q), HexByte(y));
      HexByteInjective(x, y);
      HexTextInjective(p, q);
      assert a == p + [x] && b == q + [y];
    }
  }

  lemma SameParts(a: string, b: string, c: string, d: string)
    requires |a| == |c| && a + b == c + d
    ensures a == c && b == d
  {
    assert (a + b)[..|a|] == a && (c + d)[..|c|] == c;
    assert (a + b)[|a|..] == b && (c + d)[|c|..] == d;
  }

  lemma {:induction false} HexTextLength(bytes: seq<byte>)
    ensures |HexText(bytes)| == 2 * |bytes|
  {
    if bytes != [] { HexTextLength(bytes[..|bytes| - 1]); }
  }

  /** A digest is published in the digits it is computed in, in either case. */
  lemma HexDigitsAre(c: char)
    ensures IsHex(c) <==> Lower(c) in HEX_DIGITS
  {
  }

  lemma HexByteIsHex(b: byte)
    ensures forall i :: 0 <= i < 2 ==> HexByte(b)[i] in HEX_DIGITS
  {
  }

  lemma SmallDigits(c: char)
    requires c in HEX_DIGITS
    ensures Lower(c) == c && IsHex(c)
  {
  }

  /** A computed digest is in small letters. */
  lemma {:induction false} HexTextIsHex(bytes: seq<byte>)
    ensures |HexText(bytes)| == 2 * |bytes|
    ensures forall i :: 0 <= i < |HexText(bytes)| ==> HexText(bytes)[i] in HEX_DIGITS
  {
    if bytes != [] {
      HexTextIsHex(bytes[..|bytes| - 1]);
      HexByteIsHex(bytes[|bytes| - 1]);
    }
  }

  lemma LoweredHexText(bytes: seq<byte>)
    ensures Lowered(HexText(bytes)) == HexText(bytes)
    ensures forall i :: 0 <= i < |HexText(bytes)| ==> IsHex(HexText(bytes)[i])
  {
    HexTextIsHex(bytes);
    forall i | 0 <= i < |HexText(bytes)| ensures Lower(HexText(bytes)[i]) == HexText(bytes)[i] && IsHex(HexText(bytes)[i]) {
      SmallDigits(HexText(bytes)[i]);
    }
  }

  lemma HexByteInjective(x: byte, y: byte)
    requires HexByte(x) == HexByte(y)
    ensures x == y
  {
    assert HexByte(x)[0] == HEX_DIGITS[x / 16] && HexByte(x)[1] == HEX_DIGITS[x % 16];
    assert HexByte(y)[0] == HEX_DIGITS[y / 16] && HexByte(y)[1] == HEX_DIGITS[y % 16];
    HexDigitsDistinct(x / 16, y / 16);
    HexDigitsDistinct(x % 16, y % 16);
  }

  lemma HexDigitsDistinct(i: nat, j: nat)
    requires i < 16 && j < 16 && HEX_DIGITS[i] == HEX_DIGITS[j]
    ensures i == j
  {
  }

  datatype Verdict =
    | Applied
    | SizeMissing | BeginFailed | TimedOut | WriteFailed | Incomplete | Mismatch | FinalizeFailed | NotFinished

  /** What is recorded for it; the platform's own words, after a colon, are left out. */
  function ErrorText(verdict: Verdict): string {
    match verdict
    case Applied => ""
    case SizeMissing => "download_size_missing"
    case BeginFailed => "update_begin_failed"
    case TimedOut => "download_timeout"
    case WriteFailed => "update_write_failed"
    case Incomplete => "download_incomplete"
    case Mismatch => "sha256_mismatch"
    case FinalizeFailed => "update_finalize_failed"
    case NotFinished => "update_not_finished"
  }

  lemma ErrorsTell(a: Verdict, b: Verdict)
    ensures ErrorText(a) == ErrorText(b) ==> a == b
  {
  }

  /** One look at the open connection: something can be read, or nothing, so many milliseconds
      after the last bytes came. */
  datatype Look = Ready | Silent(quietMs: nat)

  ghost predicate Expires(look: Look) { look.Silent? && look.quietMs > 15_000 }

  ghost predicate Patient(looks: seq<Look>) { forall i :: 0 <= i < |looks| ==> !Expires(looks[i]) }

  ghost function ReadyLooks(looks: seq<Look>): nat {
    if looks == [] then 0 else ReadyLooks(looks[..|looks| - 1]) + if looks[|looks| - 1].Ready? then 1 else 0
  }

  lemma NextLook(looks: seq<Look>, i: nat)
    requires i < |looks|
    ensures ReadyLooks(looks[..i + 1]) == ReadyLooks(looks[..i]) + if looks[i].Ready? then 1 else 0
    ensures Patient(looks[..i]) && !Expires(looks[i]) ==> Patient(looks[..i + 1])
  {
    assert looks[..i + 1][..i] == looks[..i];
  }

  /** Nothing stands in the way of the first n bytes of a stream. */
  ghost predicate Unhindered(stream: seq<byte>, n: int, network: bool, platform: bool, looks: seq<Look>) {
    0 < n <= |stream| && network && platform && Patient(looks) && n <= ReadyLooks(looks)
  }

  ghost predicate Expected(stream: seq<byte>, n: int, network: bool, platform: bool, looks: seq<Look>, hash: Hash, digest: string) {
    Unhindered(stream, n, network, platform, looks) && HexText(hash(stream[..n])) == digest
  }

  /** What each failure means: with a reliable network and platform only a silence, a closed
      connection, or an image that is not the expected one is left. */
  ghost predicate Explained(verdict: Verdict, network: bool, platform: bool, looks: seq<Look>, received: nat,
                            contentLength: int, left: nat)
  {
    && (verdict == TimedOut ==> !Patient(looks))
    && (verdict in {BeginFailed, WriteFailed, FinalizeFailed, NotFinished} ==> !platform)
    && (verdict == Incomplete ==> received < contentLength && Patient(looks))
    && (verdict == Incomplete && network ==> left == 0 || ReadyLooks(looks) <= received)
  }

  /** The bytes received so far, after some of the looks. */
  ghost predicate Progress(looks: seq<Look>, i: nat, received: nat, network: bool, left: nat)
    requires i <= |looks|
  {
    Patient(looks[..i]) && (network ==> left == 0 || ReadyLooks(looks[..i]) <= received)
  }

  /** downloadAndApplyFirmware, from the response's content length on; `looks` are what the loop
      finds until the connection closes. The image is activated only if it is complete and its
      digest is the expected one, and it is activated if nothing stands in the way; every failure
      after Begin aborts the update. */
  method DownloadAndApply(socket: Socket, updater: Updater, contentLength: int, expected: string, hash: Hash, looks: seq<Look>)
    returns (verdict: Verdict, ghost received: seq<byte>)
    requires updater.stage != Finalised
    modifies socket, updater
    ensures old(socket.pending) == received + socket.pending
    ensures verdict == Applied <==> updater.stage == Finalised
    ensures verdict == Applied ==>
              && |received| == contentLength && updater.flashed == received && updater.size == contentLength
              && HexText(hash(received)) == expected && updater.finished
    ensures verdict == Mismatch ==> |received| == contentLength && HexText(hash(received)) != expected
    ensures Explained(verdict, socket.reliable, updater.reliable, looks, |received|, contentLength, |socket.pending|)
    ensures Expected(old(socket.pending), contentLength, socket.reliable, updater.reliable, looks, hash, expected) ==>
      verdict == Applied
    ensures verdict == SizeMissing <==> contentLength <= 0
    ensures verdict in {SizeMissing, BeginFailed} ==> updater.stage == old(updater.stage) && received == []
    ensures verdict !in {Applied, SizeMissing, BeginFailed} ==> updater.stage == Aborted
  {
    received := [];
    if contentLength <= 0 {
      return SizeMissing, received;
    }
    var ok := updater.Begin(contentLength);
    if !ok {
      return BeginFailed, received;
    }
    var failure, hashed;
    ghost var stream := socket.pending;
    failure, hashed := ReceiveImage(socket, updater, contentLength, looks);
    received := hashed;
    assert stream[..|received|] == received;
    if failure.Some? {
      updater.Abort();
      return failure.value, received;
    }
    if HexText(hash(hashed)) != expected {
      updater.Abort();
      return Mismatch, received;
    }
    ok := updater.End();
    if !ok {
      updater.Abort();
      return FinalizeFailed, received;
    }
    ok := updater.IsFinished();
    if !ok {
      updater.Abort();
      return NotFinished, received;
    }
    return Applied, received;
  }

  /** The loop: every byte read is hashed and written. */
  method ReceiveImage(socket: Socket, updater: Updater, contentLength: nat, looks: seq<Look>)
    returns (failure: Option<Verdict>, hashed: seq<byte>)
    requires updater.stage == Open && updater.flashed == [] && contentLength > 0
    modifies socket, updater`flashed
    ensures old(socket.pending) == hashed + socket.pending && |hashed| <= contentLength
    ensures failure.None? ==> |hashed| == contentLength && updater.flashed == hashed
    ensures failure.Some? ==>
              && failure.value in {TimedOut, WriteFailed, Incomplete}
              && Explained(failure.value, socket.reliable, updater.reliable, looks, |hashed|, contentLength, |socket.pending|)
  {
    hashed := [];
    var bytesWritten: nat, i: nat := 0, 0;
    while i < |looks| && bytesWritten < contentLength
      invariant i <= |looks| && bytesWritten == |hashed| <= contentLength && updater.flashed == hashed
      invariant old(socket.pending) == hashed + socket.pending
      invariant Progress(looks, i, |hashed|, socket.reliable, |socket.pending|)
    {
      NextLook(looks, i);
      var look := looks[i];
      i := i + 1;
      if look.Silent? {
        if look.quietMs > 15_000 {
          assert Expires(looks[i - 1]);
          return Some(TimedOut), hashed;
        }
        continue;
      }
      var requested := Min(DOWNLOAD_BUFFER_SIZE, contentLength - bytesWritten);
      var chunk := socket.Read(requested);
      if chunk.None? || chunk.value == [] {
        continue;
      }
      Associative(hashed, chunk.value, socket.pending);
      hashed := hashed + chunk.value;
      var stored := updater.Write(chunk.value);
      if stored != |chunk.value| {
        return Some(WriteFailed), hashed;
      }
      assert chunk.value[..stored] == chunk.value;
      bytesWritten := bytesWritten + |chunk.value|;
    }
    if bytesWritten != contentLength {
      assert looks[..|looks|] == looks;
      return Some(Incomplete), hashed;
    }
    return None, hashed;
  }

  // ---------------------------------------------------------------------------
  // The request queue
  // ---------------------------------------------------------------------------

  datatype Target = Target(version: string, nodeId: string, source: string)

  function AssetName(core: string, buildTarget: string): string {
    "EspWaveRider-" + core + "-" + buildTarget + ".bin"
  }

  /** Where a release is published; empty for a text that is not a release. */
  function AssetUrl(core: string, buildTarget: string): string {
    if core == "" then ""
    else "https://github.com/JerrettDavis/EspWaveRider/releases/download/v" + core + "/" + AssetName(core, buildTarget)
  }

  class SyncQueue {
    const buildTarget: string
    var pending: bool
    var inProgress: bool
    var target: Target
    var downloadUrl: string
    var lastSuccess: bool
    var lastError: string

    /** At most one update is queued or running, and its URL is that of its target. */
    ghost predicate Valid()
      reads this
    {
      && !(pending && inProgress)
      && (pending || inProgress ==>
            target.version != "" && Versions.Core(target.version) == target.version
            && downloadUrl == AssetUrl(target.version, buildTarget))
    }

    constructor (buildTarget: string)
      ensures Valid() && !pending && !inProgress && !lastSuccess && lastError == "" && target == Target("", "", "")
      ensures this.buildTarget == buildTarget && downloadUrl == ""
    {
      this.buildTarget := buildTarget;
      pending, inProgress, lastSuccess := false, false, false;
      target, downloadUrl, lastError := Target("", "", ""), "", "";
    }

    ghost predicate Busy()
      reads this
    {
      pending || inProgress
    }

    /** A request is queued exactly when it names a release and nothing is queued or running;
        otherwise the target, its URL and the queue stay as they are. */
    method RequestUpdate(version: string, nodeId: string, source: string)
      requires Valid()
      modifies this
      ensures Valid() && inProgress == old(inProgress)
      ensures var core := Versions.Core(version);
              if core == "" || old(Busy()) then
                && pending == old(pending) && target == old(target) && downloadUrl == old(downloadUrl)
                && !lastSuccess
                && lastError == (if core == "" then "target_version_is_not_a_release" else "firmware_sync_busy")
              else
                pending && target == Target(core, nodeId, source) && lastError == ""
    {
      var core := Versions.SemanticVersionCore(version);
      lastSuccess := false;
      if core == "" {
        lastError := "target_version_is_not_a_release";
        return;
      }
      if pending || inProgress {
        lastError := "firmware_sync_busy";
        return;
      }
      Versions.CoreIdempotent(version);
      Queue(core, nodeId, source);
    }

    /** The address is built from the core of the core, which is the core. */
    method Queue(core: string, nodeId: string, source: string)
      requires core != "" && Versions.Core(core) == core && !inProgress
      modifies this`pending, this`target, this`downloadUrl, this`lastError
      ensures Valid() && pending && target == Target(core, nodeId, source) && lastError == ""
    {
      pending := true;
      target := Target(core, nodeId, source);
      var urlCore := Versions.SemanticVersionCore(core);
      downloadUrl := AssetUrl(urlCore, buildTarget);
      lastError := "";
    }

    /** The first half of serviceFirmwareSync: the queued request becomes the running one. */
    method TakePending() returns (taken: bool)
      requires Valid()
      modifies this`pending, this`inProgress, this`lastError
      ensures Valid() && taken == old(pending && !inProgress)
      ensures if taken then inProgress && !pending && lastError == ""
              else pending == old(pending) && inProgress == old(inProgress) && lastError == old(lastError)
    {
      taken := pending && !inProgress;
      if taken {
        pending, inProgress, lastError := false, true, "";
      }
    }

    method Complete(success: bool, error: string)
      requires Valid() && inProgress
      modifies this`inProgress, this`lastSuccess, this`lastError
      ensures Valid() && !Busy() && lastSuccess == success && lastError == (if success then old(lastError) else error)
    {
      inProgress, lastSuccess := false, success;
      if !success {
        lastError := error;
      }
    }

    /** The rest of it: success is reported only for an image that was received whole, has the
        checksum published for the target's asset, and has been activated. `release` is the
        text of the release, if it could be fetched. */
    method Run(wifiConnected: bool, clockError: Option<string>, release: Option<string>, socket: Socket,
               updater: Updater, contentLength: int, hash: Hash, looks: seq<Look>)
      requires Valid() && inProgress && updater.stage != Finalised
      modifies this`inProgress, this`lastSuccess, this`lastError, socket, updater
      ensures Valid() && !Busy()
      ensures lastSuccess <==> updater.stage == Finalised
      ensures !wifiConnected ==> lastError == "wifi_not_connected"
      ensures wifiConnected && clockError.Some? ==> lastError == clockError.value
      ensures wifiConnected && clockError.None? && release.None? ==> lastError == "release_api_http"
      ensures var asset := AssetName(target.version, buildTarget);
        wifiConnected && clockError.None? && release.Some? && (forall d :: !Publishes(release.value, asset, d)) ==>
          !lastSuccess && updater.stage == old(updater.stage)
      ensures wifiConnected && clockError.None? && release.Some? ==>
        forall digest :: Publishes(release.value, AssetName(target.version, buildTarget), digest)
          && Expected(old(socket.pending), contentLength, socket.reliable, updater.reliable, looks, hash, digest)
          ==> lastSuccess
      ensures lastSuccess ==>
                && wifiConnected && clockError.None? && release.Some?
                && |updater.flashed| == contentLength && updater.flashed <= old(socket.pending)
                && Publishes(release.value, AssetName(target.version, buildTarget), HexText(hash(updater.flashed)))
    {
      if !wifiConnected {
        Complete(false, "wifi_not_connected");
        return;
      }
      // a queued target is a release, so the source's missing-URL error cannot occur here
      assert downloadUrl != "";
      if clockError.Some? {
        Complete(false, clockError.value);
        return;
      }
      if release.None? {
        Complete(false, "release_api_http");
        return;
      }
      var lookup := LookUpChecksum(release.value, AssetName(target.version, buildTarget));
      forall digest | Publishes(release.value, AssetName(target.version, buildTarget), digest) && lookup.Found?
        ensures digest == lookup.digest
      {
        FirstDigestUnique(PublishedValue(release.value, AssetName(target.version, buildTarget)).value, digest, lookup.digest);
      }
      if lookup.Missing? {
        Complete(false, lookup.error);
        return;
      }
      var verdict, received := DownloadAndApply(socket, updater, contentLength, lookup.digest, hash, looks);
      if verdict == Applied {
        Complete(true, "");
      } else {
        Complete(false, ErrorText(verdict));
      }
    }
  }
}
