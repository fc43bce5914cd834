/** The Rust field readers, which stop at the first quote and undo no escapes, on what either
    firmware prints: when they return what was sent. */
module RustReader {
  import opened Wrappers
  import opened Json
  import opened JsonScan
  import opened Decimals
  import opened Texts
  import Announcement
  import Peers

  // ---------------------------------------------------------------------------
  // The readers
  // ---------------------------------------------------------------------------

  function TextField(json: string, key: string): Option<string> {
    match AfterFirst(json, Pattern(key) + "\"")
    case None => None
    case Some(rest) =>
      var end := IndexOfChar(rest, '"');
      if end == |rest| then None else Some(rest[..end])
  }

  function NumberField(json: string, key: string): Option<string> {
    match AfterFirst(json, Pattern(key))
    case None => None
    case Some(rest) => Some(Trim(rest[..Min(IndexOfChar(rest, ','), IndexOfChar(rest, '}'))]))
  }

  function ParseField(json: string, key: string, low: int, high: int): Option<int> {
    match NumberField(json, key)
    case None => None
    case Some(text) => ParseBetween(text, low, high)
  }

  // ---------------------------------------------------------------------------
  // Texts
  // ---------------------------------------------------------------------------

  lemma ShorterPattern(s: string, p: string, q: string)
    requires p + q <= s
    ensures p <= s
  {
    assert p == (p + q)[..|p|] == s[..|p|];
  }

  /** A match of the longer pattern is a match of the shorter one, followed by the rest. */
  lemma {:induction false} LongerPattern(s: string, p: string, q: string)
    ensures AfterFirst(s, p).Some? && q <= AfterFirst(s, p).value ==>
      AfterFirst(s, p + q) == Some(AfterFirst(s, p).value[|q|..])
  {
    if p <= s {
      if q <= s[|p|..] {
        assert s == p + s[|p|..] && s[|p|..] == q + s[|p|..][|q|..];
        assert p + q <= s && s[|p + q|..] == s[|p|..][|q|..];
      }
    } else if s != "" {
      LongerPattern(s[1..], p, q);
      if p + q <= s {
        ShorterPattern(s, p, q);
      }
    }
  }

  /** What the reader returns for a printed text: its escaped form up to the first quote. */
  ghost function Raw(text: string, style: Style): string {
    var e := Escaped(text, style);
    e[..IndexOfChar(e, '"')]
  }

  lemma {:induction false} IndexOfFirst(s: string, c: char, i: nat)
    requires i < |s| && s[i] == c && forall k :: 0 <= k < i ==> s[k] != c
    ensures IndexOfChar(s, c) == i
  {
    if i > 0 {
      IndexOfFirst(s[1..], c, i - 1);
    }
  }

  lemma CutsAtQuote(e: string, tail: string)
    ensures IndexOfChar(e + "\"" + tail, '"') == IndexOfChar(e, '"')
    ensures (e + "\"" + tail)[..IndexOfChar(e, '"')] == e[..IndexOfChar(e, '"')]
  {
    var i, s := IndexOfChar(e, '"'), e + "\"" + tail;
    assert s[..i] == e[..i];
    assert forall k :: 0 <= k < i ==> s[k] == e[..i][k];
    IndexOfFirst(s, '"', i);
  }

  lemma TextRead(fields: seq<Field>, style: Style, k: nat)
    requires ValidFields(fields) && k < |fields| && fields[k].value.Text?
    ensures TextField(Print(fields, style), fields[k].key) == Some(Raw(fields[k].value.text, style))
  {
    var name, e, tail := fields[k].key, Escaped(fields[k].value.text, style), After(fields, k, style);
    StepOverOne('{', Rest(fields, style), name);
    FindsField(fields, style, k);
    Opens(e, tail);
    LongerPattern(Print(fields, style), Pattern(name), "\"");
    CutsAtQuote(e, tail);
  }

  /** Texts that need no escaping. */
  ghost predicate Verbatim(text: string, style: Style) {
    forall i :: 0 <= i < |text| ==> text[i] !in "\"\\\n\r\t" && (style.Cpp? ==> text[i] as int >= 0x20)
  }

  lemma EscapedAsIs(c: char, style: Style)
    ensures EscapedChar(c, style) == [c] <==> c !in "\"\\\n\r\t" && (style.Cpp? ==> c as int >= 0x20)
    ensures '"' in EscapedChar(c, style) <==> c == '"'
    ensures 1 <= |EscapedChar(c, style)| <= 2
  {
  }

  lemma {:induction false} EscapedVerbatim(text: string, style: Style)
    ensures |Escaped(text, style)| >= |text|
    ensures Escaped(text, style) == text <==> Verbatim(text, style)
    ensures '"' in Escaped(text, style) <==> '"' in text
  {
    if text != "" {
      var c, rest := text[0], text[1..];
      var head, tail := EscapedChar(c, style), Escaped(rest, style);
      EscapedAsIs(c, style);
      EscapedVerbatim(rest, style);
      assert text == [c] + rest;
      assert Verbatim(text, style) <==> head == [c] && Verbatim(rest, style);
      if Escaped(text, style) == text {
        assert |head| == 1 && |tail| == |rest|;
        assert (head + tail)[0] == head[0] && (head + tail)[1..] == tail;
      }
    }
  }

  /** A text is read as it was sent exactly when it holds nothing that is escaped. */
  lemma RawExactly(text: string, style: Style)
    ensures Raw(text, style) == text <==> Verbatim(text, style)
  {
    var e := Escaped(text, style);
    EscapedVerbatim(text, style);
    if IndexOfChar(e, '"') == |e| {
      assert e[..|e|] == e;
    } else {
      assert '"' in e && '"' !in Raw(text, style);
    }
  }

  // ---------------------------------------------------------------------------
  // Numbers
  // ---------------------------------------------------------------------------

  lemma NumberCut(text: string, tail: string)
    requires ',' !in text && '}' !in text && Separated(tail)
    ensures Min(IndexOfChar(text + tail, ','), IndexOfChar(text + tail, '}')) == |text|
    ensures (text + tail)[..|text|] == text
  {
    IndexSkips(text, tail, ',');
    IndexSkips(text, tail, '}');
  }

  lemma SignedIsTrim(n: int)
    ensures Trim(Signed(n)) == Signed(n)
  {
    var digits := Decimal(if n < 0 then -n else n);
    DecimalDigits(if n < 0 then -n else n);
    assert Signed(n)[|Signed(n)| - 1] == digits[|digits| - 1];
    TrimmedStays(Signed(n));
  }

  lemma NumberRead(fields: seq<Field>, style: Style, k: nat, low: int, high: int)
    requires ValidFields(fields) && k < |fields| && fields[k].value.Number? && low <= 0 <= high
    ensures ParseField(Print(fields, style), fields[k].key, low, high)
         == if low <= fields[k].value.number <= high then Some(fields[k].value.number) else None
  {
    var name, n := fields[k].key, fields[k].value.number;
    StepOverOne('{', Rest(fields, style), name);
    FindsField(fields, style, k);
    BareIsPlain(fields[k].value, style);
    NumberCut(Signed(n), After(fields, k, style));
    SignedIsTrim(n);
    ParsesSigned(n, low, high);
  }

  // ---------------------------------------------------------------------------
  // Announcements
  // ---------------------------------------------------------------------------

  function Or<T>(value: Option<T>, fallback: T): T {
    if value.Some? then value.value else fallback
  }

  /** What the discovery handler takes from a datagram; the last arguments look up one key. */
  function ReadBy(text: string -> Option<string>, signed: string -> Option<int>, unsigned: string -> Option<int>,
                  looksLikeRoomSummary: bool): Peers.Payload
  {
    Peers.Payload(
      text("kind"), looksLikeRoomSummary, text("node_id"),
      Peers.Details(
        Or(text("friendly_name"), ""), Or(text("room_id"), ""), Or(text("sensor_role"), ""),
        Or(text("firmware_version"), ""), Or(text("build_target"), ""), Or(text("hostname"), ""),
        Or(text("ip_address"), ""),
        Or(signed("wifi_rssi_dbm"), 0), Max(Or(signed("wifi_channel"), 0), 0) % 256,
        Max(Or(unsigned("uptime_s"), 0), 0), Max(Or(unsigned("free_heap_bytes"), 0), 0)),
      Peers.NO_POSE)
  }

  function ReadPayload(json: string, looksLikeRoomSummary: bool): Peers.Payload {
    ReadBy(key => TextField(json, key), key => ParseField(json, key, I32_MIN, I32_MAX),
           key => ParseField(json, key, 0, U32_MAX), looksLikeRoomSummary)
  }

  /** The payload the sender meant. */
  ghost function Sent(n: Announcement.Node, looksLikeRoomSummary: bool): Peers.Payload {
    Peers.Payload(
      Some("lb_udp_discovery"), looksLikeRoomSummary, Some(n.nodeId),
      Peers.Details(n.friendlyName, n.roomId, n.sensorRole, n.firmwareVersion, n.buildTarget, n.hostname, n.ipAddress,
                    n.rssi, n.channel, n.uptime, n.freeHeap),
      Peers.NO_POSE)
  }

  /** The payload that is read. */
  ghost function Received(n: Announcement.Node, style: Style, looksLikeRoomSummary: bool): Peers.Payload {
    Peers.Payload(
      Some("lb_udp_discovery"), looksLikeRoomSummary, Some(Raw(n.nodeId, style)),
      Peers.Details(
        Raw(n.friendlyName, style), Raw(n.roomId, style), Raw(n.sensorRole, style), Raw(n.firmwareVersion, style),
        Raw(n.buildTarget, style), Raw(n.hostname, style), Raw(n.ipAddress, style),
        Or(Within(n.rssi, I32_MIN, I32_MAX), 0), Or(Within(n.channel, I32_MIN, I32_MAX), 0) % 256,
        Or(Within(n.uptime, 0, U32_MAX), 0), Or(Within(n.freeHeap, 0, U32_MAX), 0)),
      Peers.NO_POSE)
  }

  /** The lookups give each field what the lemmas above say. */
  ghost predicate Looks(text: string -> Option<string>, signed: string -> Option<int>,
                        unsigned: string -> Option<int>, fields: seq<Field>, style: Style)
  {
    forall k :: 0 <= k < |fields| ==>
      && (fields[k].value.Text? ==> text(fields[k].key) == Some(Raw(fields[k].value.text, style)))
      && (fields[k].value.Number? ==> signed(fields[k].key) == Within(fields[k].value.number, I32_MIN, I32_MAX))
      && (fields[k].value.Number? ==> unsigned(fields[k].key) == Within(fields[k].value.number, 0, U32_MAX))
  }

  lemma PrintLooks(fields: seq<Field>, style: Style, text: string -> Option<string>,
                   signed: string -> Option<int>, unsigned: string -> Option<int>)
    requires ValidFields(fields)
    requires forall key :: text(key) == TextField(Print(fields, style), key)
    requires forall key :: signed(key) == ParseField(Print(fields, style), key, I32_MIN, I32_MAX)
    requires forall key :: unsigned(key) == ParseField(Print(fields, style), key, 0, U32_MAX)
    ensures Looks(text, signed, unsigned, fields, style)
  {
    forall k | 0 <= k < |fields|
      ensures fields[k].value.Text? ==> text(fields[k].key) == Some(Raw(fields[k].value.text, style))
      ensures fields[k].value.Number? ==>
        signed(fields[k].key) == Within(fields[k].value.number, I32_MIN, I32_MAX)
        && unsigned(fields[k].key) == Within(fields[k].value.number, 0, U32_MAX)
    {
      if fields[k].value.Text? {
        TextRead(fields, style, k);
      } else if fields[k].value.Number? {
        NumberRead(fields, style, k, I32_MIN, I32_MAX);
        NumberRead(fields, style, k, 0, U32_MAX);
      }
    }
  }

  lemma TextLooked(text: string -> Option<string>, signed: string -> Option<int>, unsigned: string -> Option<int>,
                   n: Announcement.Node, style: Style, k: nat, key: string, value: string)
    requires Looks(text, signed, unsigned, Announcement.FieldsOf(n), style)
    requires k < 13 && Announcement.FieldsOf(n)[k] == Field(key, Text(value))
    ensures text(key) == Some(Raw(value, style))
  {
  }

  lemma NumberLooked(text: string -> Option<string>, signed: string -> Option<int>, unsigned: string -> Option<int>,
                     n: Announcement.Node, style: Style, k: nat, key: string, value: int)
    requires Looks(text, signed, unsigned, Announcement.FieldsOf(n), style)
    requires k < 13 && Announcement.FieldsOf(n)[k] == Field(key, Number(value))
    ensures signed(key) == Within(value, I32_MIN, I32_MAX) && unsigned(key) == Within(value, 0, U32_MAX)
  {
  }

  lemma KindLooked(text: string -> Option<string>, signed: string -> Option<int>, unsigned: string -> Option<int>,
                   n: Announcement.Node, style: Style, kind: string)
    requires Looks(text, signed, unsigned, Announcement.FieldsOf(n), style)
    requires Announcement.FieldsOf(n)[0] == Field("kind", Text(kind)) && Announcement.IsName(kind)
    ensures text("kind") == Some(kind)
  {
    TextLooked(text, signed, unsigned, n, style, 0, "kind", kind);
    NameIsRaw(kind, style);
  }

  lemma KindIsName(kind: string)
    requires kind == "lb_udp_discovery"
    ensures Announcement.IsName(kind)
  {
  }

  lemma KindRead(text: string -> Option<string>, signed: string -> Option<int>, unsigned: string -> Option<int>,
                 n: Announcement.Node, style: Style)
    requires Looks(text, signed, unsigned, Announcement.FieldsOf(n), style)
    ensures text("kind") == Some("lb_udp_discovery")
  {
    var kind := "lb_udp_discovery";
    KindIsName(kind);
    KindLooked(text, signed, unsigned, n, style, kind);
  }

  lemma NameIsRaw(name: string, style: Style)
    requires Announcement.IsName(name)
    ensures Raw(name, style) == name
  {
    RawExactly(name, style);
  }

  lemma PlaceLooked(text: string -> Option<string>, signed: string -> Option<int>, unsigned: string -> Option<int>,
                    n: Announcement.Node, style: Style)
    requires Looks(text, signed, unsigned, Announcement.FieldsOf(n), style)
    ensures text("node_id") == Some(Raw(n.nodeId, style))
    ensures text("friendly_name") == Some(Raw(n.friendlyName, style))
    ensures text("room_id") == Some(Raw(n.roomId, style)) && text("sensor_role") == Some(Raw(n.sensorRole, style))
  {
    TextLooked(text, signed, unsigned, n, style, 1, "node_id", n.nodeId);
    TextLooked(text, signed, unsigned, n, style, 2, "friendly_name", n.friendlyName);
    TextLooked(text, signed, unsigned, n, style, 3, "room_id", n.roomId);
    TextLooked(text, signed, unsigned, n, style, 4, "sensor_role", n.sensorRole);
  }

  lemma BuildLooked(text: string -> Option<string>, signed: string -> Option<int>, unsigned: string -> Option<int>,
                    n: Announcement.Node, style: Style)
    requires Looks(text, signed, unsigned, Announcement.FieldsOf(n), style)
    ensures text("firmware_version") == Some(Raw(n.firmwareVersion, style))
    ensures text("build_target") == Some(Raw(n.buildTarget, style))
    ensures text("hostname") == Some(Raw(n.hostname, style)) && text("ip_address") == Some(Raw(n.ipAddress, style))
  {
    TextLooked(text, signed, unsigned, n, style, 5, "firmware_version", n.firmwareVersion);
    TextLooked(text, signed, unsigned, n, style, 6, "build_target", n.buildTarget);
    TextLooked(text, signed, unsigned, n, style, 7, "hostname", n.hostname);
    TextLooked(text, signed, unsigned, n, style, 8, "ip_address", n.ipAddress);
  }

  lemma NumbersLooked(text: string -> Option<string>, signed: string -> Option<int>, unsigned: string -> Option<int>,
                      n: Announcement.Node, style: Style)
    requires Looks(text, signed, unsigned, Announcement.FieldsOf(n), style)
    ensures signed("wifi_rssi_dbm") == Within(n.rssi, I32_MIN, I32_MAX)
    ensures signed("wifi_channel") == Within(n.channel, I32_MIN, I32_MAX)
    ensures unsigned("uptime_s") == Within(n.uptime, 0, U32_MAX)
    ensures unsigned("free_heap_bytes") == Within(n.freeHeap, 0, U32_MAX)
  {
    NumberLooked(text, signed, unsigned, n, style, 9, "wifi_rssi_dbm", n.rssi);
    NumberLooked(text, signed, unsigned, n, style, 10, "wifi_channel", n.channel);
    NumberLooked(text, signed, unsigned, n, style, 11, "uptime_s", n.uptime);
    NumberLooked(text, signed, unsigned, n, style, 12, "free_heap_bytes", n.freeHeap);
  }

  lemma AnnouncementRead(n: Announcement.Node, style: Style, looksLikeRoomSummary: bool)
    ensures ReadPayload(Print(Announcement.FieldsOf(n), style), looksLikeRoomSummary)
         == Received(n, style, looksLikeRoomSummary)
  {
    Announcement.ValidAnnouncement(n);
    AnyFieldsRead(Announcement.FieldsOf(n), n, style, looksLikeRoomSummary);
  }

  lemma AnyFieldsRead(fields: seq<Field>, n: Announcement.Node, style: Style, looksLikeRoomSummary: bool)
    requires ValidFields(fields) && fields == Announcement.FieldsOf(n)
    ensures ReadPayload(Print(fields, style), looksLikeRoomSummary) == Received(n, style, looksLikeRoomSummary)
  {
    var json := Print(fields, style);
    var text := key => TextField(json, key);
    var signed := key => ParseField(json, key, I32_MIN, I32_MAX);
    var unsigned := key => ParseField(json, key, 0, U32_MAX);
    PrintLooks(fields, style, text, signed, unsigned);
    ReaderReads(text, signed, unsigned, n, style, looksLikeRoomSummary);
  }

  lemma ReaderReads(text: string -> Option<string>, signed: string -> Option<int>, unsigned: string -> Option<int>,
                    n: Announcement.Node, style: Style, looksLikeRoomSummary: bool)
    requires Looks(text, signed, unsigned, Announcement.FieldsOf(n), style)
    ensures ReadBy(text, signed, unsigned, looksLikeRoomSummary) == Received(n, style, looksLikeRoomSummary)
  {
    KindRead(text, signed, unsigned, n, style);
    PlaceLooked(text, signed, unsigned, n, style);
    DetailsRead(text, signed, unsigned, n, style, looksLikeRoomSummary);
  }

  lemma DetailsRead(text: string -> Option<string>, signed: string -> Option<int>, unsigned: string -> Option<int>,
                    n: Announcement.Node, style: Style, looksLikeRoomSummary: bool)
    requires Looks(text, signed, unsigned, Announcement.FieldsOf(n), style)
    ensures ReadBy(text, signed, unsigned, looksLikeRoomSummary).details == Received(n, style, looksLikeRoomSummary).details
  {
    PlaceLooked(text, signed, unsigned, n, style);
    BuildLooked(text, signed, unsigned, n, style);
    NumbersLooked(text, signed, unsigned, n, style);
    TextsFrom(text, signed, unsigned, n, style, looksLikeRoomSummary);
    NumbersFrom(text, signed, unsigned, n, style, looksLikeRoomSummary);
  }

  lemma TextsFrom(text: string -> Option<string>, signed: string -> Option<int>, unsigned: string -> Option<int>,
                  n: Announcement.Node, style: Style, looksLikeRoomSummary: bool)
    requires text("friendly_name") == Some(Raw(n.friendlyName, style)) && text("room_id") == Some(Raw(n.roomId, style))
    requires text("sensor_role") == Some(Raw(n.sensorRole, style))
    requires text("firmware_version") == Some(Raw(n.firmwareVersion, style))
    requires text("build_target") == Some(Raw(n.buildTarget, style))
    requires text("hostname") == Some(Raw(n.hostname, style)) && text("ip_address") == Some(Raw(n.ipAddress, style))
    ensures SameTexts(ReadBy(text, signed, unsigned, looksLikeRoomSummary).details,
                      Received(n, style, looksLikeRoomSummary).details)
  {
  }

  lemma NumbersFrom(text: string -> Option<string>, signed: string -> Option<int>, unsigned: string -> Option<int>,
                    n: Announcement.Node, style: Style, looksLikeRoomSummary: bool)
    requires signed("wifi_rssi_dbm") == Within(n.rssi, I32_MIN, I32_MAX)
    requires signed("wifi_channel") == Within(n.channel, I32_MIN, I32_MAX)
    requires unsigned("uptime_s") == Within(n.uptime, 0, U32_MAX)
    requires unsigned("free_heap_bytes") == Within(n.freeHeap, 0, U32_MAX)
    ensures SameNumbers(ReadBy(text, signed, unsigned, looksLikeRoomSummary).details,
                        Received(n, style, looksLikeRoomSummary).details)
  {
    NotNegative(signed("wifi_channel"));
    NotNegative(unsigned("uptime_s"));
    NotNegative(unsigned("free_heap_bytes"));
  }

  lemma NotNegative(n: Option<int>)
    requires n.Some? ==> n.value >= 0
    ensures Max(Or(n, 0), 0) == Or(n, 0)
  {
  }

  ghost predicate SameTexts(d: Peers.Details, e: Peers.Details) {
    && d.friendlyName == e.friendlyName && d.roomId == e.roomId && d.sensorRole == e.sensorRole
    && d.firmwareVersion == e.firmwareVersion && d.buildTarget == e.buildTarget
    && d.hostname == e.hostname && d.ipAddress == e.ipAddress
  }

  ghost predicate SameNumbers(d: Peers.Details, e: Peers.Details) {
    && d.wifiRssiDbm == e.wifiRssiDbm && d.wifiChannel == e.wifiChannel
    && d.uptimeS == e.uptimeS && d.freeHeapBytes == e.freeHeapBytes

  }

  ghost predicate AllVerbatim(n: Announcement.Node, style: Style) {
    && Verbatim(n.nodeId, style) && Verbatim(n.friendlyName, style) && Verbatim(n.roomId, style)
    && Verbatim(n.sensorRole, style) && Verbatim(n.firmwareVersion, style) && Verbatim(n.buildTarget, style)
    && Verbatim(n.hostname, style) && Verbatim(n.ipAddress, style)
  }

  /** A Rust node reads an announcement of either firmware as it was meant exactly when no text
      needs escaping and every number fits its machine type. */
  lemma AnnouncementReadExactly(n: Announcement.Node, style: Style, looksLikeRoomSummary: bool)
    ensures ReadPayload(Print(Announcement.FieldsOf(n), style), looksLikeRoomSummary) == Sent(n, looksLikeRoomSummary)
       <==> AllVerbatim(n, style) && Announcement.InRange(n)
  {
    AnnouncementRead(n, style, looksLikeRoomSummary);
    ReceivedExactly(n, style, looksLikeRoomSummary);
  }

  lemma ReceivedExactly(n: Announcement.Node, style: Style, looksLikeRoomSummary: bool)
    ensures Received(n, style, looksLikeRoomSummary) == Sent(n, looksLikeRoomSummary)
       <==> AllVerbatim(n, style) && Announcement.InRange(n)
  {
    RawExactly(n.nodeId, style);
    RawExactly(n.friendlyName, style);
    RawExactly(n.roomId, style);
    RawExactly(n.sensorRole, style);
    RawExactly(n.firmwareVersion, style);
    RawExactly(n.buildTarget, style);
    RawExactly(n.hostname, style);
    RawExactly(n.ipAddress, style);
  }
}
