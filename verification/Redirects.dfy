/** Redirects in full: from the text of a redirect to the image on the flash. */
module Redirects {
  import opened Wrappers
  import opened Flash
  import opened HttpDownload
  import opened HttpHeader
  import opened Ota
  import opened StagedImage
  import U = ReleaseUrl

  /** A redirect as it is printed, whatever follows it: its last Location is the address. */
  ghost predicate PrintsRedirect(s: seq<byte>, next: U.Url, status: nat, reason: string, fields: seq<HeaderField>) {
    && status in {301, 302, 303, 307, 308}
    && ValidResponse(status, reason, fields) && |Printed(status, reason, fields)| <= HEADER_BUFFER_SIZE
    && Target(fields).Some? && U.ParseDownloadUrl(Target(fields).value) == Some(next)
    && Printed(status, reason, fields) <= s
  }

  ghost predicate RedirectsTo(s: seq<byte>, next: U.Url) {
    exists status: nat, reason, fields :: PrintsRedirect(s, next, status, reason, fields)
  }

  /** It is followed if it keeps the scheme, and refused if it does not. */
  lemma RedirectFollowed(s: seq<byte>, next: U.Url, capacity: nat, secure: bool, outcome: Outcome)
    requires RedirectsTo(s, next) && Decided(outcome, s, capacity, secure)
    ensures outcome == if next.scheme.Https? == secure then Redirected(next) else Failed(LocationBadScheme)
  {
    var status: nat, reason, fields :| PrintsRedirect(s, next, status, reason, fields);
    var header := Printed(status, reason, fields);
    assert s == header + s[|header|..];
    PrintedEnds(status, reason, fields);
    HeaderEndsThere(header, s[|header|..]);
    HeaderRead(status, reason, fields);
    AnswerLeadsTo(outcome, s, |header|, capacity, secure);
  }

  /** A 200 response that announces its body and holds all of it. */
  ghost predicate Delivers(s: seq<byte>, header: seq<byte>, image: seq<byte>) {
    s == header + image && Announces(header, |image|)
  }

  lemma DeliveryStaged(s: seq<byte>, header: seq<byte>, image: seq<byte>, capacity: nat, secure: bool, outcome: Outcome)
    requires Delivers(s, header, image) && |image| <= capacity && Decided(outcome, s, capacity, secure)
    ensures outcome.Staged?
  {
    HeaderEndsThere(header, image);
    AnswerLeadsTo(outcome, s, |header|, capacity, secure);
  }

  /** What is written of an answer that holds all of what it announces is all of it. */
  lemma DeliveryWritten(s: seq<byte>, header: seq<byte>, image: seq<byte>, secure: bool, h: nat, prefix: nat,
                        written: seq<byte>, length: Option<nat>)
    requires Delivers(s, header, image) && StagedFrom(s, secure, h, prefix, written, length)
    ensures written == image && length == Some(|image|)
  {
    HeaderEndsThere(header, image);
    HeaderEndUnique(s, h, |header|);
    assert image[..|image|] == image;
  }

  /** Every answer on the path redirects to the next address, and the last delivers the image. */
  ghost predicate Leads(serve: Servers, path: seq<U.Url>, secure: bool, header: seq<byte>, image: seq<byte>) {
    && path != []
    && (forall i :: 0 <= i < |path| - 1 ==> Forwards(serve, i, path[i], path[i + 1], secure))
    && serve(|path| - 1, path[|path| - 1]).Some?
    && Delivers(serve(|path| - 1, path[|path| - 1]).value, header, image)
  }

  ghost predicate Forwards(serve: Servers, i: nat, url: U.Url, next: U.Url, secure: bool) {
    serve(i, url).Some? && RedirectsTo(serve(i, url).value, next) && next.scheme.Https? == secure
  }

  /** What the last answer calls for is the outcome, or would be if the flash had not failed. */
  ghost function CalledFor(outcome: Outcome): Outcome {
    if FlashFailed(outcome) then Staged(0) else outcome
  }

  /** A download keeps to the path. */
  lemma {:induction false} KeepsToPath(hops: seq<U.Url>, serve: Servers, capacity: nat, secure: bool, path: seq<U.Url>,
                                       header: seq<byte>, image: seq<byte>, k: nat)
    requires Follows(hops, serve, capacity, secure) && k < |hops|
    requires Leads(serve, path, secure, header, image) && |image| <= capacity && hops[0] == path[0]
    ensures k < |path| && hops[k] == path[k]
  {
    if k > 0 {
      var i: nat := k - 1;
      KeepsToPath(hops, serve, capacity, secure, path, header, image, i);
      assert Answered(Redirected(hops[i + 1]), serve, i, hops[i], capacity, secure);
      if k == |path| {
        DeliveryStaged(serve(i, path[i]).value, header, image, capacity, secure, Redirected(hops[k]));
      } else {
        assert Forwards(serve, i, path[i], path[i + 1], secure);
        RedirectFollowed(serve(i, path[i]).value, path[k], capacity, secure, Redirected(hops[k]));
      }
    }
  }

  /** And it goes to the end of it. */
  lemma WholePath(hops: seq<U.Url>, serve: Servers, outcome: Outcome, capacity: nat, secure: bool, path: seq<U.Url>,
                  header: seq<byte>, image: seq<byte>)
    requires Follows(hops, serve, capacity, secure) && !outcome.Redirected?
    requires Leads(serve, path, secure, header, image) && |image| <= capacity
    requires hops[0] == path[0] && |hops| <= |path|
    requires Answered(CalledFor(outcome), serve, |hops| - 1, hops[|hops| - 1], capacity, secure)
    ensures hops == path && CalledFor(outcome).Staged?
  {
    forall k | 0 <= k < |hops| ensures hops[k] == path[k] {
      KeepsToPath(hops, serve, capacity, secure, path, header, image, k);
    }
    var i: nat := |hops| - 1;
    if |hops| < |path| {
      assert Forwards(serve, i, path[i], path[i + 1], secure);
      RedirectFollowed(serve(i, path[i]).value, path[i + 1], capacity, secure, CalledFor(outcome));
    } else {
      DeliveryStaged(serve(i, path[i]).value, header, image, capacity, secure, CalledFor(outcome));
    }
  }

  lemma PathLength(hops: seq<U.Url>, serve: Servers, capacity: nat, secure: bool, path: seq<U.Url>,
                   header: seq<byte>, image: seq<byte>)
    requires Follows(hops, serve, capacity, secure) && Leads(serve, path, secure, header, image) && |image| <= capacity
    requires hops[0] == path[0]
    ensures |hops| <= |path| && serve(|hops| - 1, hops[|hops| - 1]).Some?
  {
    var k: nat := |hops| - 1;
    KeepsToPath(hops, serve, capacity, secure, path, header, image, k);
    if k < |path| - 1 {
      assert Forwards(serve, k, path[k], path[k + 1], secure);
    }
  }

  /** The way a release is downloaded: over a reliable network and flash the image behind at
      most three redirects ends up on the partition, whole. */
  method RedirectedImage(serve: Servers, partition: Region, secure: bool, path: seq<U.Url>,
                         ghost header: seq<byte>, ghost image: seq<byte>)
    returns (outcome: Outcome)
    requires partition.Valid() && partition.reliable && |image| <= partition.cells.Length
    requires Leads(serve, path, secure, header, image) && |path| <= 4
    modifies partition.cells, partition`log
    ensures outcome == Staged(|image|)
    ensures |Padded(image)| <= partition.cells.Length && partition.cells[..|Padded(image)|] == Padded(image)
  {
    ghost var before, earlier := partition.cells[..], partition.log;
    outcome := FetchAlong(serve, partition, secure, path, header, image);
    WholeWhenErased(partition, before, earlier, image, Some(|image|));
  }

  method FetchAlong(serve: Servers, partition: Region, secure: bool, path: seq<U.Url>,
                    ghost header: seq<byte>, ghost image: seq<byte>)
    returns (outcome: Outcome)
    requires partition.Valid() && partition.reliable && |image| <= partition.cells.Length
    requires Leads(serve, path, secure, header, image) && |path| <= 4
    modifies partition.cells, partition`log
    ensures outcome == Staged(|image|)
    ensures Flashed(partition, old(partition.cells[..]), old(partition.log), image, Some(|image|))
  {
    ghost var capacity, last := partition.cells.Length, |path| - 1;
    ghost var hops, h, prefix, written, length;
    outcome, hops, h, prefix, written, length := Fetch(path[0], serve, partition, secure, true);
    PathLength(hops, serve, capacity, secure, path, header, image);
    WholePath(hops, serve, outcome, capacity, secure, path, header, image);
    DeliveryWritten(serve(last, path[last]).value, header, image, secure, h, prefix, written, length);
  }
}
