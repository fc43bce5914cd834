/** When the image a download stages is the one the response announced, and responses for which
    it is not. */
module StagedImage {
  import opened Wrappers
  import opened Heapless
  import opened Decimals
  import opened Flash
  import opened HttpDownload
  import opened HttpHeader
  import opened Json
  import opened JsonScan
  import opened Ota
  import opened Texts

  // ---------------------------------------------------------------------------
  // When the staged image is the announced one
  // ---------------------------------------------------------------------------

  /** A download that stages what arrived has staged the announced image exactly when the body
      was neither cut short nor, as far as it is not clamped, too long. */
  ghost predicate AnnouncedArrived(secure: bool, prefix: nat, body: nat, n: nat) {
    if secure then prefix <= n <= body else body == n
  }

  /** The number of bytes staged is the announced one in exactly those cases, and the partition
      then holds the announced image, whole and padded. */
  lemma StagesAnnounced(partition: Region, before: seq<byte>, earlier: seq<Write>, body: seq<byte>, prefix: nat,
                        secure: bool, n: nat)
    requires partition.Valid() && prefix <= |body| && n <= partition.cells.Length
    requires Flashed(partition, before, earlier, body[..StagedLength(secure, prefix, |body|, Some(n))], Some(n))
    ensures StagedLength(secure, prefix, |body|, Some(n)) == n <==> AnnouncedArrived(secure, prefix, |body|, n)
    ensures AnnouncedArrived(secure, prefix, |body|, n) ==>
      |Padded(body[..n])| <= partition.cells.Length && partition.cells[..|Padded(body[..n])|] == Padded(body[..n])
  {
    if AnnouncedArrived(secure, prefix, |body|, n) {
      WholeWhenErased(partition, before, earlier, body[..n], Some(n));
    }
  }

  /** In particular a body of exactly the announced length ends up on the partition whole, on
      either path and however much of it arrived with the header. */
  lemma ExactBodyOnFlash(partition: Region, before: seq<byte>, earlier: seq<Write>, body: seq<byte>, prefix: nat, secure: bool)
    requires partition.Valid() && prefix <= |body| <= partition.cells.Length
    requires Flashed(partition, before, earlier, body[..StagedLength(secure, prefix, |body|, Some(|body|))], Some(|body|))
    ensures |Padded(body)| <= partition.cells.Length && partition.cells[..|Padded(body)|] == Padded(body)
  {
    StagesAnnounced(partition, before, earlier, body, prefix, secure, |body|);
    assert body[..|body|] == body;
  }

  /** What was written stands on the flash whole if it does not pass the announced length. */
  lemma WholeWhenErased(partition: Region, before: seq<byte>, earlier: seq<Write>, written: seq<byte>, length: Option<nat>)
    requires partition.Valid() && Flashed(partition, before, earlier, written, length)
    requires length.Some? ==> |written| <= length.value
    ensures partition.cells[..|Padded(written)|] == Padded(written)
  {
    var cells, p := partition.cells[..], Padded(written);
    var erased := EraseLength(length, |cells|, partition.eraseSize);
    EraseCovers(length, |cells|, partition.eraseSize);
    BurnedHolds(Prepared(before, length, partition.eraseSize), p, erased);
    ImageOnFlash(cells, written, erased);
    assert partition.cells[..|p|] == cells[..|p|];
  }

  /** In general it does so exactly when the cells beyond the erased range could still take it. */
  lemma WholeExactly(partition: Region, before: seq<byte>, earlier: seq<Write>, written: seq<byte>, length: Option<nat>)
    requires partition.Valid() && Flashed(partition, before, earlier, written, length)
    ensures partition.cells[..|Padded(written)|] == Padded(written) <==>
      forall k :: EraseLength(length, |before|, partition.eraseSize) <= k < |Padded(written)| ==>
        Programmed(before[k], Padded(written)[k]) == Padded(written)[k]
  {
    var cells, p := partition.cells[..], Padded(written);
    var erased := EraseLength(length, |before|, partition.eraseSize);
    forall k | 0 <= k < |p|
      ensures cells[k] == Programmed(if k < erased then ERASED else before[k], p[k])
      ensures k < erased ==> cells[k] == p[k]
    {
      ErasedCellTakes(p[k]);
    }
    assert partition.cells[..|p|] == cells[..|p|];
    if cells[..|p|] == p {
      forall k | erased <= k < |p| ensures Programmed(before[k], p[k]) == p[k] {
        assert cells[..|p|][k] == p[k];
      }
    }
  }

  // ---------------------------------------------------------------------------
  // Responses for which it is not
  // ---------------------------------------------------------------------------

  /** A 200 response that announces n bytes. */
  ghost predicate Announces(header: seq<byte>, n: nat) {
    && |header| <= HEADER_BUFFER_SIZE && HeaderEnds(header, |header|)
    && ParseHeader(header).Some? && ParseHeader(header).value.status == 200
    && ParseHeader(header).value.contentLength == Some(n)
  }

  lemma HeaderEndsThere(header: seq<byte>, body: seq<byte>)
    requires HeaderEnds(header, |header|)
    ensures HeaderEnds(header + body, |header|) && (header + body)[..|header|] == header
    ensures (header + body)[|header|..] == body
  {
    var s, h := header + body, |header|;
    forall j: nat | j < h - 4 ensures !TerminatorAt(s, j) {
      assert TerminatorAt(s, j) <==> TerminatorAt(header, j);
    }
  }

  /** A body shorter than announced is staged as it is, on either path, unless the network or
      the flash fails. */
  method ShortBodyStaged(partition: Region, header: seq<byte>, body: seq<byte>, secure: bool, network: bool, ghost n: nat)
    returns (outcome: Outcome)
    requires partition.Valid() && Announces(header, n) && |body| < n <= partition.cells.Length
    modifies partition.cells, partition`log
    ensures IsIoFailure(outcome) || outcome == Staged(|body|)
    ensures network && partition.reliable ==> outcome == Staged(|body|)
  {
    HeaderEndsThere(header, body);
    var socket := new Socket(header + body, network);
    ghost var h, prefix, written, length;
    outcome, h, prefix, written, length := Download(socket, partition, secure);
    if outcome.Staged? || outcome == Failed(WriteFailed) {
      HeaderEndUnique(header + body, h, |header|);
    }
  }

  /** Over HTTP a body longer than announced is staged whole too. */
  method LongBodyStaged(partition: Region, header: seq<byte>, body: seq<byte>, network: bool, ghost n: nat)
    returns (outcome: Outcome)
    requires partition.Valid() && Announces(header, n) && n < |body| && n <= partition.cells.Length
    modifies partition.cells, partition`log
    ensures IsIoFailure(outcome) || outcome == Staged(|body|)
    ensures network && partition.reliable && |body| <= partition.cells.Length ==> outcome == Staged(|body|)
  {
    HeaderEndsThere(header, body);
    var socket := new Socket(header + body, network);
    ghost var h, prefix, written, length;
    outcome, h, prefix, written, length := Download(socket, partition, false);
    if outcome.Staged? || outcome == Failed(WriteFailed) {
      HeaderEndUnique(header + body, h, |header|);
    }
  }

  predicate BlankAt(text: string, j: nat) {
    j + 4 <= |text| && text[j] == '\r' && text[j + 1] == '\n' && text[j + 2] == '\r' && text[j + 3] == '\n'
  }

  lemma BlankAfterLine(line: string, later: string, j: nat)
    requires '\r' !in line
    ensures BlankAt(line + ("\r\n" + later), j)
       <==> (j == |line| && "\r\n" <= later) || (j >= |line| + 2 && BlankAt(later, j - |line| - 2))
  {
    var text := line + ("\r\n" + later);
    assert text[|line|] == '\r' && text[|line| + 1] == '\n';
    assert forall k :: 0 <= k < |later| ==> text[|line| + 2 + k] == later[k];
    if j < |line| {
      assert text[j] == line[j];
    } else if |line| + 2 <= j && j + 4 <= |text| {
      var k: nat := j - |line| - 2;
      assert text[|line| + 2 + k] == later[k] && text[|line| + 2 + (k + 1)] == later[k + 1];
      assert text[|line| + 2 + (k + 2)] == later[k + 2] && text[|line| + 2 + (k + 3)] == later[k + 3];
    }
  }

  /** In a printed header the only CR LF CR LF is the end: no line is empty or holds a CR. */
  lemma {:induction false} EndsOnce(lines: seq<string>, j: nat)
    requires lines != [] && AllLines(lines)
    ensures BlankAt(HeaderText(lines), j) <==> j + 4 == |HeaderText(lines)|
  {
    var line, later := lines[0], HeaderText(lines[1..]);
    BlankAfterLine(line, later, j);
    if |lines| > 1 {
      assert later[0] == lines[1][0];
      Differs(later, "\r\n", 0);
      if j >= |line| + 2 {
        EndsOnce(lines[1..], j - |line| - 2);
      } else {
        LongEnough(lines[1..]);
      }
    }
  }

  lemma LongEnough(lines: seq<string>)
    requires lines != []
    ensures |HeaderText(lines)| >= 4
  {
  }

  lemma PrintedEnds(status: nat, reason: string, fields: seq<HeaderField>)
    requires ValidResponse(status, reason, fields)
    ensures HeaderEnds(Printed(status, reason, fields), |Printed(status, reason, fields)|)
  {
    var lines := LinesOf(status, reason, fields);
    ValidLines(status, reason, fields);
    HeaderIsAscii(lines);
    var h := |HeaderText(lines)|;
    LongEnough(lines);
    forall j: nat ensures TerminatorAt(Bytes(HeaderText(lines)), j) <==> j + 4 == h {
      EndsOnce(lines, j);
    }
  }

  /** The usual response for n bytes. */
  function LengthField(n: nat): HeaderField { HeaderField("Content-Length", Decimal(n)) }

  ghost predicate Token(name: string) {
    name != "" && forall i :: 0 <= i < |name| ==> 'a' <= Lower(name[i]) <= 'z' || name[i] == '-'
  }

  lemma TokenField(name: string, n: nat)
    requires Token(name)
    ensures ValidField(HeaderField(name, Decimal(n)))
  {
    DecimalDigits(n);
    var line := FieldLine(HeaderField(name, Decimal(n)));
    forall i | 0 <= i < |line| ensures line[i] as int < 128 && line[i] != '\r' && line[i] != '\n' {
    }
  }

  lemma NamesLength(name: string)
    requires name == "Content-Length"
    ensures Token(name) && SameLetters(name, CONTENT_LENGTH)
  {
  }

  lemma UsualResponse(n: nat)
    ensures ValidResponse(200, "OK", [LengthField(n)])
    ensures Announced([LengthField(n)]) == if n <= U32_MAX then Some(n) else None
  {
    var name := "Content-Length";
    NamesLength(name);
    TokenField(name, n);
    ParsesDecimal(n, U32_MAX);
  }

  lemma UsualIsShort(n: nat)
    requires n <= U32_MAX && ValidResponse(200, "OK", [LengthField(n)])
    ensures |Printed(200, "OK", [LengthField(n)])| <= 100
  {
    var fields := [LengthField(n)];
    TenDigits(n);
    TenDigits(200);
    assert LinesOf(200, "OK", fields)[1..] == [FieldLine(LengthField(n))];
    TwoLines(StatusLine(200, "OK"), FieldLine(LengthField(n)));
    assert LinesOf(200, "OK", fields) == [StatusLine(200, "OK"), FieldLine(LengthField(n))];
  }

  lemma TwoLines(a: string, b: string)
    ensures HeaderText([a, b]) == a + ("\r\n" + (b + ("\r\n" + "\r\n")))
    ensures |HeaderText([a, b])| == |a| + |b| + 6
  {
    var both, one := [a, b], [b];
    assert both[1..] == one && one[1..] == [];
    assert HeaderText(one[1..]) == "\r\n";
    assert HeaderText(one) == b + ("\r\n" + "\r\n");
    assert HeaderText(both) == a + ("\r\n" + HeaderText(one));
  }

  /** So a server that announces n bytes and sends fewer, or over HTTP more, has what it sent
      staged. */
  lemma UsualAnnounces(n: nat)
    requires n <= U32_MAX
    ensures ValidResponse(200, "OK", [LengthField(n)])
    ensures Announces(Printed(200, "OK", [LengthField(n)]), n)
  {
    UsualResponse(n);
    HeaderRead(200, "OK", [LengthField(n)]);
    PrintedEnds(200, "OK", [LengthField(n)]);
    UsualIsShort(n);
  }

  const ANNOUNCES_TWO := "HTTP/1.1 200 OK\r\nContent-Length: 2\r\n\r\n"

  lemma LiteralHeader(text: string)
    requires text == ANNOUNCES_TWO
    ensures text == HeaderText(["HTTP/1.1 200 OK", "Content-Length: 2"])
  {
    TwoLines("HTTP/1.1 200 OK", "Content-Length: 2");
  }

  lemma LiteralLines()
    ensures LinesOf(200, "OK", [LengthField(2)]) == ["HTTP/1.1 200 OK", "Content-Length: 2"]
  {
    assert Decimal(2) == "2";
    assert Decimal(20) == Decimal(2) + "0" == "20";
    assert Decimal(200) == Decimal(20) + "0" == "200";
    assert StatusLine(200, "OK") == "HTTP/1.1 200 OK";
    assert FieldLine(LengthField(2)) == "Content-Length: 2";
  }

  lemma LiteralAnnounces()
    ensures Ascii(ANNOUNCES_TWO) && Announces(Bytes(ANNOUNCES_TWO), 2)
  {
    var text := ANNOUNCES_TWO;
    LiteralHeader(text);
    LiteralLines();
    UsualAnnounces(2);
    ValidLines(200, "OK", [LengthField(2)]);
    HeaderIsAscii(LinesOf(200, "OK", [LengthField(2)]));
  }

  /** One byte where two were announced, in full. */
  method ShortResponse(partition: Region, b: byte, secure: bool, network: bool) returns (outcome: Outcome)
    requires partition.Valid() && partition.cells.Length >= 2
    modifies partition.cells, partition`log
    ensures IsIoFailure(outcome) || outcome == Staged(1)
    ensures network && partition.reliable ==> outcome == Staged(1)
  {
    LiteralAnnounces();
    outcome := ShortBodyStaged(partition, Bytes(ANNOUNCES_TWO), [b], secure, network, 2);
  }

  /** Three bytes where two were announced. */
  method LongResponse(partition: Region, b: byte, network: bool) returns (outcome: Outcome)
    requires partition.Valid() && partition.cells.Length >= 2
    modifies partition.cells, partition`log
    ensures IsIoFailure(outcome) || outcome == Staged(3)
    ensures network && partition.reliable ==> outcome == Staged(3)
  {
    LiteralAnnounces();
    outcome := LongBodyStaged(partition, Bytes(ANNOUNCES_TWO), [b, b, b], network, 2);
  }
}
