/** From a TCP stream to the flash: the scan that separates an HTTP response header from the
    body, and the HTTP and HTTPS loops that feed the body to the partition writer. */
module HttpDownload {
  import opened Wrappers
  import opened Heapless
  import opened Flash
  import opened HttpHeader
  import opened Ota
  import opened ReleaseUrl

  const HEADER_BUFFER_SIZE: nat := 8192
  const READ_BUFFER_SIZE: nat := 2048

  // ---------------------------------------------------------------------------
  // Finding the end of the header
  // ---------------------------------------------------------------------------

  /** CR LF CR LF. */
  predicate TerminatorAt(s: seq<byte>, i: nat) {
    i + 4 <= |s| && s[i] == 13 && s[i + 1] == 10 && s[i + 2] == 13 && s[i + 3] == 10
  }

  ghost predicate NoneBefore(s: seq<byte>, i: nat) {
    forall j: nat :: j < i ==> !TerminatorAt(s, j)
  }

  /** The header of the response in this stream is its first h bytes. */
  ghost predicate HeaderEnds(s: seq<byte>, h: nat) {
    4 <= h && TerminatorAt(s, h - 4) && NoneBefore(s, h - 4)
  }

  datatype HeaderScan = ScanFailed | Scanned(filled: nat, end: Option<nat>)

  method FindTerminator(buffer: array<byte>, filled: nat) returns (end: Option<nat>)
    requires filled <= buffer.Length
    ensures end.Some? ==> end.value <= filled && HeaderEnds(buffer[..filled], end.value)
    ensures end.None? ==> NoneBefore(buffer[..filled], filled)
  {
    if filled < 4 {
      return None;
    }
    for index := 0 to filled - 3
      invariant NoneBefore(buffer[..filled], index)
    {
      if buffer[index] == 13 && buffer[index + 1] == 10 && buffer[index + 2] == 13 && buffer[index + 3] == 10 {
        return Some(index + 4);
      }
    }
    return None;
  }

  /** What was found in the part received so far is what the whole stream contains. */
  lemma PrefixDecides(s: seq<byte>, filled: nat)
    requires filled <= |s|
    ensures forall j: nat :: TerminatorAt(s[..filled], j) <==> j + 4 <= filled && TerminatorAt(s, j)
  {
  }

  lemma FillsUp(s: seq<byte>, filled: nat, chunk: seq<byte>, pending: seq<byte>)
    requires filled <= |s| && s[filled..] == chunk + pending
    ensures s[..filled] + chunk == s[..filled + |chunk|] && s[filled + |chunk|..] == pending
  {
    var rest := s[filled..];
    assert s == s[..filled] + rest && rest[..|chunk|] == chunk && rest[|chunk|..] == pending;
    assert s[filled + |chunk|..] == rest[|chunk|..];
  }

  /** However the stream is split into reads, the scan finds the end of the header exactly
      when the header fits in the buffer, and hands over what it read beyond. */
  method ReadHeader(socket: Socket, buffer: array<byte>) returns (scan: HeaderScan)
    requires buffer.Length == HEADER_BUFFER_SIZE
    modifies socket, buffer
    ensures scan.ScanFailed? ==> !socket.reliable
    ensures scan.Scanned? ==>
              var s := old(socket.pending);
              && scan.filled <= Min(HEADER_BUFFER_SIZE, |s|)
              && buffer[..scan.filled] == s[..scan.filled]
              && socket.pending == s[scan.filled..]
              && (scan.end.Some? ==> scan.end.value <= scan.filled && HeaderEnds(s, scan.end.value))
              && (scan.end.None? ==> forall h: nat :: HeaderEnds(s, h) ==> h > HEADER_BUFFER_SIZE)
  {
    ghost var s := socket.pending;
    var filled: nat, end: Option<nat> := 0, None;
    while filled < buffer.Length
      invariant filled <= Min(HEADER_BUFFER_SIZE, |s|)
      invariant buffer[..filled] == s[..filled] && socket.pending == s[filled..]
      invariant end.None? && NoneBefore(s[..filled], filled)
      decreases buffer.Length - filled
    {
      var chunk := socket.Read(buffer.Length - filled);
      if chunk.None? {
        return ScanFailed;
      }
      if chunk.value == [] {
        break;
      }
      ghost var before := buffer[..filled];
      forall k | 0 <= k < |chunk.value| {
        buffer[filled + k] := chunk.value[k];
      }
      FillsUp(s, filled, chunk.value, socket.pending);
      filled := filled + |chunk.value|;
      assert buffer[..filled] == before + chunk.value;

      end := FindTerminator(buffer, filled);
      PrefixDecides(s, filled);
      if end.Some? {
        assert NoneBefore(s, end.value - 4);
        return Scanned(filled, end);
      }
    }
    PrefixDecides(s, filled);
    return Scanned(filled, end);
  }

  // ---------------------------------------------------------------------------
  // Responses
  // ---------------------------------------------------------------------------

  datatype Failure =
    | ConnectFailed | ReadFailed | EraseFailed | WriteFailed
    | HeaderTooLarge | HeaderInvalid | ExceedsPartition | NotFound | RateLimited | BadStatus
    | LocationMissing | LocationInvalid | LocationBadScheme | RedirectLimit

  datatype Outcome = Staged(total: nat) | Redirected(next: Url) | Failed(failure: Failure)

  /** Whether a failure is the network's or the flash's, and so independent of the stream. */
  predicate IsIoFailure(outcome: Outcome) {
    outcome in {Failed(ConnectFailed), Failed(ReadFailed), Failed(EraseFailed), Failed(WriteFailed)}
  }

  /** The flash is only touched for an answer that calls for it. */
  predicate FlashFailed(outcome: Outcome) {
    outcome == Failed(EraseFailed) || outcome == Failed(WriteFailed)
  }

  /** Which failures blame the network or the flash: over reliable ones there is only the write
      of an image that is too long. */
  ghost predicate Excused(outcome: Outcome, network: bool, flash: bool, written: nat, capacity: nat) {
    && outcome != Failed(ConnectFailed)
    && (outcome == Failed(ReadFailed) ==> !network)
    && (outcome == Failed(EraseFailed) ==> !flash)
    && (outcome == Failed(WriteFailed) ==> !flash || written > capacity)
  }

  /** Where a redirect leads; it must not leave the scheme it came by. */
  function Redirection(location: Option<string>, secure: bool): Outcome {
    match location
    case None => Failed(LocationMissing)
    case Some(text) =>
      match ParseDownloadUrl(text)
      case None => Failed(LocationInvalid)
      case Some(url) => if url.scheme.Https? == secure then Redirected(url) else Failed(LocationBadScheme)
  }

  /** The branch taken for a header: None means the body is downloaded. */
  function Branch(header: Option<ResponseHeader>, capacity: nat, secure: bool): Option<Outcome> {
    match header
    case None => Some(Failed(HeaderInvalid))
    case Some(ResponseHeader(status, length, location)) =>
      if status == 200 then
        if length.Some? && length.value > capacity then Some(Failed(ExceedsPartition)) else None
      else if status in {301, 302, 303, 307, 308} then Some(Redirection(location, secure))
      else if status == 404 then Some(Failed(NotFound))
      else if status == 429 then Some(Failed(RateLimited))
      else Some(Failed(BadStatus))
  }

  /** What a stream must lead to, apart from I/O failures, given how headers are parsed. */
  ghost predicate DecidedBy(outcome: Outcome, s: seq<byte>, capacity: nat, secure: bool,
                            parse: seq<byte> -> Option<ResponseHeader>)
  {
    && (forall h: nat :: HeaderEnds(s, h) && h <= HEADER_BUFFER_SIZE ==>
          match Branch(parse(s[..h]), capacity, secure)
          case Some(refusal) => outcome == refusal
          case None => outcome.Staged?)
    && ((forall h: nat :: HeaderEnds(s, h) ==> h > HEADER_BUFFER_SIZE) ==> outcome == Failed(HeaderTooLarge))
  }

  ghost predicate Decided(outcome: Outcome, s: seq<byte>, capacity: nat, secure: bool) {
    DecidedBy(outcome, s, capacity, secure, ParseHeader)
  }

  /** What each kind of answer leads to, apart from failures of the network and the flash. */
  lemma AnswerLeadsTo(outcome: Outcome, s: seq<byte>, h: nat, capacity: nat, secure: bool)
    requires Decided(outcome, s, capacity, secure) && HeaderEnds(s, h) && h <= HEADER_BUFFER_SIZE
    ensures ParseHeader(s[..h]).None? ==> outcome == Failed(HeaderInvalid)
    ensures ParseHeader(s[..h]).Some? ==>
              var header := ParseHeader(s[..h]).value;
              && (header.status == 200 ==>
                    if exists n :: header.contentLength == Some(n) && n > capacity then outcome == Failed(ExceedsPartition)
                    else outcome.Staged?)
              && (header.status == 404 ==> outcome == Failed(NotFound))
              && (header.status == 429 ==> outcome == Failed(RateLimited))
              && (header.status !in {200, 301, 302, 303, 307, 308, 404, 429} ==> outcome == Failed(BadStatus))
    ensures ParseHeader(s[..h]).Some? && ParseHeader(s[..h]).value.status in {301, 302, 303, 307, 308} ==>
              var location := ParseHeader(s[..h]).value.location;
              && (location == None ==> outcome == Failed(LocationMissing))
              && (location.Some? && ParseDownloadUrl(location.value) == None ==> outcome == Failed(LocationInvalid))
              && (location.Some? && ParseDownloadUrl(location.value).Some? ==>
                    var next := ParseDownloadUrl(location.value).value;
                    && (next.scheme.Https? == secure ==> outcome == Redirected(next))
                    && (next.scheme.Https? != secure ==> outcome == Failed(LocationBadScheme)))
  {
  }

  lemma HeaderEndUnique(s: seq<byte>, h: nat, h': nat)
    requires HeaderEnds(s, h) && HeaderEnds(s, h')
    ensures h == h'
  {
    assert !(h < h') && !(h' < h) by {
      assert TerminatorAt(s, h - 4) && TerminatorAt(s, h' - 4);
    }
  }

  /** The whole partition after a successful download of `written`, from what it held before:
      erased as far as the announced length asks for, then programmed from offset 0. Cells
      beyond the erased range are programmed over what they held. */
  ghost predicate Flashed(partition: Region, before: seq<byte>, earlier: seq<Write>, written: seq<byte>,
                          length: Option<nat>)
    requires partition.Valid()
    reads partition, partition.cells
  {
    && |Padded(written)| <= partition.cells.Length == |before|
    && partition.cells[..] == Burned(Prepared(before, length, partition.eraseSize), 0, Padded(written))
    && exists writes :: partition.log == earlier + writes && LaysOut(writes, Padded(written))
  }

  // ---------------------------------------------------------------------------
  // The two body loops
  // ---------------------------------------------------------------------------

  /** HTTP: the bytes read along with the header, then everything until the stream ends. */
  method ReceiveHttpBody(writer: PartitionWriter, socket: Socket, prefix: seq<byte>) returns (failure: Option<Failure>)
    requires writer.Valid() && writer.fed == []
    modifies socket, writer, writer.trailing, writer.partition.cells, writer.partition`log
    ensures failure.None? ==> writer.Programmed() && writer.done == Padded(prefix + old(socket.pending))
    ensures failure.None? ==> writer.totalBytes == |prefix + old(socket.pending)|
    ensures failure.Some? ==> failure.value in {ReadFailed, WriteFailed}
    ensures failure.Some? ==>
      Excused(Failed(failure.value), socket.reliable, writer.partition.reliable, |prefix + old(socket.pending)|,
              writer.partition.cells.Length)
  {
    ghost var body := prefix + socket.pending;
    var ok := WriteNonEmpty(writer, prefix);
    if !ok {
      return Some(WriteFailed);
    }
    while true
      invariant writer.Valid() && writer.fed + socket.pending == body
      decreases |socket.pending|
    {
      var chunk := socket.Read(READ_BUFFER_SIZE);
      if chunk.None? {
        return Some(ReadFailed);
      }
      if chunk.value == [] {
        break;
      }
      assert (writer.fed + chunk.value) + socket.pending == body;
      ok := writer.WriteChunk(chunk.value);
      if !ok {
        return Some(WriteFailed);
      }
    }
    assert writer.fed == body;
    ok := writer.Finish();
    return if ok then None else Some(WriteFailed);
  }

  /** How much of a body the HTTPS loop writes: it stops at the announced length, but never
      within the bytes that were read along with the header. */
  function HttpsLength(prefix: nat, body: nat, expected: Option<nat>): (n: nat)
    requires prefix <= body
    ensures prefix <= n <= body
  {
    match expected
    case None => body
    case Some(limit) => Max(prefix, Min(limit, body))
  }

  /** So the clamp is exact if and only if the first reads did not already go beyond it. */
  lemma ClampExact(prefix: nat, body: nat, limit: nat)
    requires prefix <= body
    ensures HttpsLength(prefix, body, Some(limit)) == Min(limit, body) <==> prefix <= limit
  {
  }

  /** The bytes written so far, on the way to the target: everything received has been
      written and the target is not passed, or the announced length has cut a chunk short. */
  ghost predicate Approaches(fed: seq<byte>, pending: seq<byte>, body: seq<byte>, prefix: nat, expected: Option<nat>)
    requires prefix <= |body|
  {
    var target := HttpsLength(prefix, |body|, expected);
    && prefix <= |fed|
    && ((fed + pending == body && |fed| <= target)
        || (expected.Some? && |fed| >= expected.value && fed == body[..target]))
  }

  function Clamp(chunk: nat, expected: Option<nat>, written: nat): nat {
    if expected.Some? then Min(chunk, SaturatingSub(expected.value, written)) else chunk
  }

  /** One chunk, clamped: the target is never passed, and nothing is skipped before it. */
  lemma ClampedStep(fed: seq<byte>, chunk: seq<byte>, pending: seq<byte>, body: seq<byte>, prefix: nat, expected: Option<nat>)
    requires prefix <= |body| && fed + (chunk + pending) == body && chunk != []
    requires prefix <= |fed| <= HttpsLength(prefix, |body|, expected)
    ensures var n := Clamp(|chunk|, expected, |fed|);
            && n <= |chunk|
            && Approaches(fed + chunk[..n], pending, body, prefix, expected)
            && (n == 0 ==> expected.Some? && |fed| >= expected.value)
  {
    var n := Clamp(|chunk|, expected, |fed|);
    var next := fed + chunk[..n];
    assert next == body[..|next|];
    if n == |chunk| {
      assert chunk[..n] == chunk;
      assert next + pending == body;
    }
  }

  /** Where the loop may stop, the target is reached. */
  lemma StopsAtTarget(fed: seq<byte>, pending: seq<byte>, body: seq<byte>, prefix: nat, expected: Option<nat>)
    requires prefix <= |body| && Approaches(fed, pending, body, prefix, expected)
    requires pending == [] || (expected.Some? && |fed| >= expected.value)
    ensures fed == body[..HttpsLength(prefix, |body|, expected)]
  {
  }

  /** Writes what the announced length still allows of a chunk; stops when that is nothing. */
  method WriteClamped(writer: PartitionWriter, chunk: seq<byte>, expected: Option<nat>,
                      ghost pending: seq<byte>, ghost body: seq<byte>, ghost prefix: nat)
    returns (ok: bool, stop: bool)
    requires writer.Valid() && chunk != []
    requires prefix <= |body| && writer.fed + (chunk + pending) == body
    requires prefix <= |writer.fed| <= HttpsLength(prefix, |body|, expected)
    modifies writer, writer.trailing, writer.partition.cells, writer.partition`log
    ensures ok ==> writer.Valid() && Approaches(writer.fed, pending, body, prefix, expected)
    ensures ok && stop ==> expected.Some? && |writer.fed| >= expected.value
    ensures !ok && writer.partition.reliable ==>
      HttpsLength(prefix, |body|, expected) > writer.partition.cells.Length
  {
    writer.CounterExact();
    var writeLength := Clamp(|chunk|, expected, writer.totalBytes);
    ClampedStep(writer.fed, chunk, pending, body, prefix, expected);
    assert writer.fed + chunk[..0] == writer.fed;
    if writeLength == 0 {
      return true, true;
    }
    ok := writer.WriteChunk(chunk[..writeLength]);
    stop := false;
  }

  /** HTTPS: the bytes read along with the header are held back until the first further
      read, and what follows is clamped to the announced length. */
  method ReceiveHttpsBody(writer: PartitionWriter, socket: Socket, prefix: seq<byte>, expected: Option<nat>)
    returns (failure: Option<Failure>)
    requires writer.Valid() && writer.fed == []
    modifies socket, writer, writer.trailing, writer.partition.cells, writer.partition`log
    ensures failure.None? ==>
              var body := prefix + old(socket.pending);
              && writer.Programmed()
              && writer.done == Padded(body[..HttpsLength(|prefix|, |body|, expected)])
              && writer.totalBytes == HttpsLength(|prefix|, |body|, expected)
    ensures failure.Some? ==> failure.value in {ReadFailed, WriteFailed}
    ensures failure.Some? ==>
              var body := prefix + old(socket.pending);
              Excused(Failed(failure.value), socket.reliable, writer.partition.reliable,
                      HttpsLength(|prefix|, |body|, expected), writer.partition.cells.Length)
  {
    ghost var body := prefix + socket.pending;
    var deferred, ok := true, true;
    while true
      invariant writer.Valid()
      invariant deferred ==> writer.fed == [] && prefix + socket.pending == body
      invariant !deferred ==> Approaches(writer.fed, socket.pending, body, |prefix|, expected)
      decreases |socket.pending|
    {
      writer.CounterExact();
      if expected.Some? && writer.totalBytes >= expected.value {
        break;
      }
      ghost var pending := socket.pending;
      var chunk := socket.Read(READ_BUFFER_SIZE);
      if chunk.None? {
        return Some(ReadFailed);
      }
      if chunk.value == [] {
        break;
      }
      if deferred {
        ok := WriteNonEmpty(writer, prefix);
        if !ok {
          return Some(WriteFailed);
        }
        deferred := false;
        assert writer.fed == prefix;
      }
      assert writer.fed + pending == body;
      var stop;
      ok, stop := WriteClamped(writer, chunk.value, expected, socket.pending, body, |prefix|);
      if !ok {
        return Some(WriteFailed);
      }
      if stop {
        break;
      }
    }
    failure := FinishHttpsBody(writer, prefix, deferred, expected, socket.pending, body);
  }

  /** After the loop: the prefix, if nothing followed it, and the last word. */
  method FinishHttpsBody(writer: PartitionWriter, prefix: seq<byte>, deferred: bool, expected: Option<nat>,
                         ghost pending: seq<byte>, ghost body: seq<byte>)
    returns (failure: Option<Failure>)
    requires writer.Valid() && |prefix| <= |body|
    requires deferred ==> writer.fed == [] && prefix + pending == body
    requires !deferred ==> Approaches(writer.fed, pending, body, |prefix|, expected)
    requires pending == [] || (expected.Some? && |writer.fed| >= expected.value)
    modifies writer, writer.trailing, writer.partition.cells, writer.partition`log
    ensures failure.None? ==>
              && writer.Programmed()
              && writer.done == Padded(body[..HttpsLength(|prefix|, |body|, expected)])
              && writer.totalBytes == HttpsLength(|prefix|, |body|, expected)
    ensures failure.Some? ==>
              && failure.value == WriteFailed
              && Excused(Failed(failure.value), true, writer.partition.reliable,
                         HttpsLength(|prefix|, |body|, expected), writer.partition.cells.Length)
  {
    var ok := true;
    if deferred {
      ok := WriteNonEmpty(writer, prefix);
      if !ok {
        return Some(WriteFailed);
      }
      assert writer.fed == prefix;
    }
    StopsAtTarget(writer.fed, pending, body, |prefix|, expected);
    ok := writer.Finish();
    return if ok then None else Some(WriteFailed);
  }

  method WriteNonEmpty(writer: PartitionWriter, bytes: seq<byte>) returns (ok: bool)
    requires writer.Valid()
    modifies writer, writer.trailing, writer.partition.cells, writer.partition`log
    ensures ok ==> writer.Valid() && writer.fed == old(writer.fed) + bytes
    ensures !ok && writer.partition.reliable ==> |old(writer.fed)| + |bytes| > writer.partition.cells.Length
  {
    ok := true;
    if bytes != [] {
      ok := writer.WriteChunk(bytes);
    } else {
      assert writer.fed + [] == writer.fed;
    }
  }

  // ---------------------------------------------------------------------------
  // The download
  // ---------------------------------------------------------------------------

  /** How much of the body is staged, on either path. */
  function StagedLength(secure: bool, prefix: nat, body: nat, expected: Option<nat>): (n: nat)
    requires prefix <= body
    ensures n <= body
  {
    if secure then HttpsLength(prefix, body, expected) else body
  }

  /** From the bytes that came with the header to the finished image. */
  method StageBody(socket: Socket, partition: Region, prefix: seq<byte>, length: Option<nat>, secure: bool)
    returns (outcome: Outcome, ghost written: seq<byte>)
    requires partition.Valid()
    modifies socket, partition.cells, partition`log
    ensures IsIoFailure(outcome) || outcome.Staged?
    ensures var body := prefix + old(socket.pending);
            written == body[..StagedLength(secure, |prefix|, |body|, length)]
    ensures Excused(outcome, socket.reliable, partition.reliable, |written|, partition.cells.Length)
    ensures outcome.Staged? ==> outcome.total == |written|
    ensures outcome.Staged? ==> Flashed(partition, old(partition.cells[..]), old(partition.log), written, length)
  {
    ghost var body := prefix + socket.pending;
    written := body[..StagedLength(secure, |prefix|, |body|, length)];
    assert body[..|body|] == body;
    var writer := PartitionWriter.Open(partition, length);
    if writer == null {
      outcome := Failed(EraseFailed);
      return;
    }
    var failure;
    if secure {
      failure := ReceiveHttpsBody(writer, socket, prefix, length);
    } else {
      failure := ReceiveHttpBody(writer, socket, prefix);
    }
    if failure.Some? {
      outcome := Failed(failure.value);
      return;
    }
    outcome := Staged(writer.totalBytes);
  }

  /** What a staged image has to do with the stream it came from. */
  ghost predicate StagedFrom(s: seq<byte>, secure: bool, h: nat, prefix: nat, written: seq<byte>, length: Option<nat>) {
    && HeaderEnds(s, h) && ParseHeader(s[..h]).Some? && ParseHeader(s[..h]).value.contentLength == length
    && prefix <= |s| - h && written == s[h..][..StagedLength(secure, prefix, |s| - h, length)]
  }

  lemma PrefixAndRest(s: seq<byte>, h: nat, filled: nat)
    requires h <= filled <= |s|
    ensures s[h..] == s[..filled][h..] + s[filled..] && s[..filled][..h] == s[..h]
  {
  }

  lemma BodyIs(s: seq<byte>, secure: bool, h: nat, filled: nat, prefix: seq<byte>, pending: seq<byte>, length: Option<nat>)
    requires h <= filled <= |s| && prefix == s[..filled][h..] && pending == s[filled..]
    requires HeaderEnds(s, h) && ParseHeader(s[..h]).Some? && ParseHeader(s[..h]).value.contentLength == length
    ensures prefix + pending == s[h..]
    ensures StagedFrom(s, secure, h, |prefix|, s[h..][..StagedLength(secure, |prefix|, |s| - h, length)], length)
  {
    PrefixAndRest(s, h, filled);
  }

  lemma DecidedByHeader(outcome: Outcome, s: seq<byte>, end: nat, capacity: nat, secure: bool,
                        parse: seq<byte> -> Option<ResponseHeader>, header: Option<ResponseHeader>)
    requires HeaderEnds(s, end) && end <= HEADER_BUFFER_SIZE && header == parse(s[..end])
    requires match Branch(header, capacity, secure)
             case Some(refusal) => outcome == refusal
             case None => outcome.Staged?
    ensures DecidedBy(outcome, s, capacity, secure, parse)
  {
    forall h: nat | HeaderEnds(s, h) ensures h == end {
      HeaderEndUnique(s, h, end);
    }
  }

  lemma RefusesOnly(header: Option<ResponseHeader>, capacity: nat, secure: bool)
    ensures var branch := Branch(header, capacity, secure);
      branch.Some? ==> !branch.value.Staged? && !IsIoFailure(branch.value)
  {
  }

  lemma AnyLengthStaged(s: seq<byte>, capacity: nat, secure: bool, parse: seq<byte> -> Option<ResponseHeader>, total: nat)
    requires DecidedBy(Staged(0), s, capacity, secure, parse)
    ensures DecidedBy(Staged(total), s, capacity, secure, parse)
  {
  }

  lemma DecidedTooLarge(s: seq<byte>, capacity: nat, secure: bool, parse: seq<byte> -> Option<ResponseHeader>)
    requires forall h: nat :: HeaderEnds(s, h) ==> h > HEADER_BUFFER_SIZE
    ensures DecidedBy(Failed(HeaderTooLarge), s, capacity, secure, parse)
  {
  }

  /** The branch a complete header takes; without one the body is to be downloaded. */
  method Judge(header: seq<byte>, capacity: nat, secure: bool, ghost s: seq<byte>, ghost end: nat)
    returns (branch: Option<Outcome>, length: Option<nat>)
    requires HeaderEnds(s, end) && end <= HEADER_BUFFER_SIZE && header == s[..end]
    ensures branch.Some? ==> Decided(branch.value, s, capacity, secure) && !branch.value.Staged?
    ensures branch.Some? ==> !IsIoFailure(branch.value)
    ensures branch.None? ==> Decided(Staged(0), s, capacity, secure)
    ensures branch.None? ==> ParseHeader(header).Some? && ParseHeader(header).value.contentLength == length
  {
    var parsed := ParseResponseHeader(header);
    branch := Branch(parsed, capacity, secure);
    length := if branch.None? then parsed.value.contentLength else None;
    RefusesOnly(parsed, capacity, secure);
    DecidedByHeader(if branch.Some? then branch.value else Staged(0), s, end, capacity, secure, ParseHeader, parsed);
  }

  /** The header, and the branch it takes. */
  method ReceiveHead(socket: Socket, buffer: array<byte>, capacity: nat, secure: bool)
    returns (branch: Option<Outcome>, length: Option<nat>, end: nat, filled: nat)
    requires buffer.Length == HEADER_BUFFER_SIZE
    modifies socket, buffer
    ensures branch.Some? ==> IsIoFailure(branch.value) || Decided(branch.value, old(socket.pending), capacity, secure)
    ensures branch.Some? && IsIoFailure(branch.value) ==> branch.value == Failed(ReadFailed) && !socket.reliable
    ensures branch.Some? ==> !branch.value.Staged?
    ensures branch.None? ==> Decided(Staged(0), old(socket.pending), capacity, secure)
    ensures branch.None? ==>
              var s := old(socket.pending);
              && end <= filled <= Min(HEADER_BUFFER_SIZE, |s|)
              && buffer[..filled] == s[..filled] && socket.pending == s[filled..]
              && HeaderEnds(s, end) && ParseHeader(s[..end]).Some? && ParseHeader(s[..end]).value.contentLength == length
  {
    ghost var s := socket.pending;
    length, end, filled := None, 0, 0;
    var scan := ReadHeader(socket, buffer);
    if scan.ScanFailed? {
      branch := Some(Failed(ReadFailed));
      return;
    }
    if scan.end.None? {
      DecidedTooLarge(s, capacity, secure, ParseHeader);
      branch := Some(Failed(HeaderTooLarge));
      return;
    }
    end, filled := scan.end.value, scan.filled;
    PrefixAndRest(s, end, filled);
    assert buffer[..end] == buffer[..filled][..end];
    branch, length := Judge(buffer[..end], capacity, secure, s, end);
  }

  /** The second half: the header `s[..h]` calls for its body to be staged. */
  method StageRest(socket: Socket, partition: Region, prefix: seq<byte>, length: Option<nat>, secure: bool,
                   ghost s: seq<byte>, ghost h: nat)
    returns (outcome: Outcome, ghost written: seq<byte>)
    requires partition.Valid() && h <= |s| && prefix + socket.pending == s[h..]
    requires Decided(Staged(0), s, partition.cells.Length, secure)
    modifies socket, partition.cells, partition`log
    ensures IsIoFailure(outcome) || (outcome.Staged? && Decided(outcome, s, partition.cells.Length, secure))
    ensures |prefix| <= |s| - h && written == s[h..][..StagedLength(secure, |prefix|, |s| - h, length)]
    ensures Excused(outcome, socket.reliable, partition.reliable, |written|, partition.cells.Length)
    ensures outcome.Staged? ==> outcome.total == |written|
    ensures outcome.Staged? ==> Flashed(partition, old(partition.cells[..]), old(partition.log), written, length)
  {
    outcome, written := StageBody(socket, partition, prefix, length, secure);
    if outcome.Staged? {
      AnyLengthStaged(s, partition.cells.Length, secure, ParseHeader, outcome.total);
    }
  }

  ghost predicate Untouched(partition: Region, cells: seq<byte>, log: seq<Write>)
    reads partition, partition.cells
  {
    partition.cells[..] == cells && partition.log == log
  }

  /** One response, from its first byte to the flash. `secure` selects the HTTPS body loop.
      However the network splits the stream: the outcome is the one the header calls for,
      and a staged image is exactly the body, up to the announced length on HTTPS unless
      the first reads had already gone beyond it. */
  method Download(socket: Socket, partition: Region, secure: bool)
    returns (outcome: Outcome, ghost headerLength: nat, ghost prefixLength: nat, ghost written: seq<byte>,
             ghost length: Option<nat>)
    requires partition.Valid()
    modifies socket, partition.cells, partition`log
    ensures IsIoFailure(outcome) || Decided(outcome, old(socket.pending), partition.cells.Length, secure)
    ensures Excused(outcome, socket.reliable, partition.reliable, |written|, partition.cells.Length)
    ensures FlashFailed(outcome) ==> Decided(Staged(0), old(socket.pending), partition.cells.Length, secure)
    ensures outcome.Staged? || outcome == Failed(WriteFailed) ==>
              StagedFrom(old(socket.pending), secure, headerLength, prefixLength, written, length)
    ensures outcome.Staged? ==>
              && outcome.total == |written|
              && Flashed(partition, old(partition.cells[..]), old(partition.log), written, length)
    ensures outcome.Staged? || IsIoFailure(outcome) || Untouched(partition, old(partition.cells[..]), old(partition.log))
  {
    ghost var s := socket.pending;
    headerLength, prefixLength, written, length := 0, 0, [], None;
    var buffer := new byte[HEADER_BUFFER_SIZE];
    var branch, announced, end, filled := ReceiveHead(socket, buffer, partition.cells.Length, secure);
    if branch.Some? {
      outcome := branch.value;
      return;
    }
    var prefix := buffer[end..filled];
    assert prefix == buffer[..filled][end..];
    BodyIs(s, secure, end, filled, prefix, socket.pending, announced);
    headerLength, prefixLength, length := end, |prefix|, announced;
    outcome, written := StageRest(socket, partition, prefix, announced, secure, s, end);
  }

  // ---------------------------------------------------------------------------
  // Redirects
  // ---------------------------------------------------------------------------

  const MAX_REDIRECTS: nat := 4

  /** What the servers out there answer: the stream for the n-th request, at an address, unless
      nobody can be reached there. */
  type Servers = (nat, Url) -> Option<seq<byte>>

  /** The outcome is what the i-th answer calls for. */
  ghost predicate Answered(outcome: Outcome, serve: Servers, i: nat, url: Url, capacity: nat, secure: bool) {
    serve(i, url).Some? && Decided(outcome, serve(i, url).value, capacity, secure)
  }

  /** Each address is where the answer of the one before it redirects to. */
  ghost predicate Follows(hops: seq<Url>, serve: Servers, capacity: nat, secure: bool) {
    && hops != []
    && forall i :: 0 <= i < |hops| - 1 ==> Answered(Redirected(hops[i + 1]), serve, i, hops[i], capacity, secure)
  }

  lemma FollowsOne(hops: seq<Url>, next: Url, serve: Servers, capacity: nat, secure: bool)
    requires Follows(hops, serve, capacity, secure)
    requires Answered(Redirected(next), serve, |hops| - 1, hops[|hops| - 1], capacity, secure)
    ensures Follows(hops + [next], serve, capacity, secure) && (hops + [next])[0] == hops[0]
  {
  }

  /** One request on a fresh connection. */
  method Request(stream: seq<byte>, partition: Region, secure: bool, network: bool)
    returns (outcome: Outcome, ghost h: nat, ghost prefix: nat, ghost written: seq<byte>, ghost length: Option<nat>)
    requires partition.Valid()
    modifies partition.cells, partition`log
    ensures IsIoFailure(outcome) || Decided(outcome, stream, partition.cells.Length, secure)
    ensures Excused(outcome, network, partition.reliable, |written|, partition.cells.Length)
    ensures FlashFailed(outcome) ==> Decided(Staged(0), stream, partition.cells.Length, secure)
    ensures outcome.Staged? || outcome == Failed(WriteFailed) ==> StagedFrom(stream, secure, h, prefix, written, length)
    ensures outcome.Staged? ==>
              && outcome.total == |written|
              && Flashed(partition, old(partition.cells[..]), old(partition.log), written, length)
    ensures outcome.Staged? || IsIoFailure(outcome) || Untouched(partition, old(partition.cells[..]), old(partition.log))
  {
    var socket := new Socket(stream, network);
    outcome, h, prefix, written, length := Download(socket, partition, secure);
  }

  /** The whole download: at most four requests, along redirects of one scheme. The outcome is
      what the last answer calls for, or the redirect limit; until an answer is staged the
      partition is not touched. */
  method Fetch(start: Url, serve: Servers, partition: Region, secure: bool, network: bool)
    returns (outcome: Outcome, ghost hops: seq<Url>, ghost h: nat, ghost prefix: nat, ghost written: seq<byte>,
             ghost length: Option<nat>)
    requires partition.Valid()
    modifies partition.cells, partition`log
    ensures Follows(hops, serve, partition.cells.Length, secure) && hops[0] == start && !outcome.Redirected?
    ensures |hops| <= MAX_REDIRECTS + 1
    ensures |hops| <= MAX_REDIRECTS ==>
      || IsIoFailure(outcome)
      || Answered(outcome, serve, |hops| - 1, hops[|hops| - 1], partition.cells.Length, secure)
    ensures outcome == Failed(ConnectFailed) <==> |hops| <= MAX_REDIRECTS && serve(|hops| - 1, hops[|hops| - 1]).None?
    ensures outcome != Failed(ConnectFailed) ==>
      Excused(outcome, network, partition.reliable, |written|, partition.cells.Length)
    ensures FlashFailed(outcome) ==>
      |hops| <= MAX_REDIRECTS && Answered(Staged(0), serve, |hops| - 1, hops[|hops| - 1], partition.cells.Length, secure)
    ensures |hops| > MAX_REDIRECTS ==> outcome == Failed(RedirectLimit)
    ensures outcome.Staged? || outcome == Failed(WriteFailed) ==>
              && |hops| <= MAX_REDIRECTS && serve(|hops| - 1, hops[|hops| - 1]).Some?
              && StagedFrom(serve(|hops| - 1, hops[|hops| - 1]).value, secure, h, prefix, written, length)
    ensures outcome.Staged? ==>
              && outcome.total == |written|
              && Flashed(partition, old(partition.cells[..]), old(partition.log), written, length)
    ensures outcome.Staged? || IsIoFailure(outcome) || Untouched(partition, old(partition.cells[..]), old(partition.log))
  {
    ghost var cells, log := partition.cells[..], partition.log;
    var url := start;
    hops, h, prefix, written, length := [start], 0, 0, [], None;
    for attempt := 0 to MAX_REDIRECTS
      invariant |hops| == attempt + 1 && hops[0] == start && hops[attempt] == url
      invariant Follows(hops, serve, partition.cells.Length, secure)
      invariant Untouched(partition, cells, log)
    {
      var answer := serve(attempt, url);
      assert answer == serve(|hops| - 1, hops[|hops| - 1]);
      if answer.None? {
        outcome := Failed(ConnectFailed);
        return;
      }
      outcome, h, prefix, written, length := Request(answer.value, partition, secure, network);
      if !outcome.Redirected? {
        return;
      }
      url := outcome.next;
      FollowsOne(hops, url, serve, partition.cells.Length, secure);
      hops := hops + [url];
    }
    outcome := Failed(RedirectLimit);
  }
}
