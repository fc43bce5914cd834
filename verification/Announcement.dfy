/** The discovery announcement: the Rust printer with its 384-byte buffer, and what a C++ node
    reads from an announcement of either firmware. */
module Announcement {
  import opened Wrappers
  import opened Heapless
  import opened Decimals
  import opened Json
  import opened JsonScan

  const ANNOUNCEMENT_CAPACITY := 384

  datatype Node = Node(
    nodeId: string, friendlyName: string, roomId: string, sensorRole: string,
    firmwareVersion: string, buildTarget: string, hostname: string, ipAddress: string,
    rssi: int, channel: nat, uptime: nat, freeHeap: nat)

  function FieldsOf(n: Node): seq<Field> {
    [ Field("kind", Text("lb_udp_discovery")),
      Field("node_id", Text(n.nodeId)),
      Field("friendly_name", Text(n.friendlyName)),
      Field("room_id", Text(n.roomId)),
      Field("sensor_role", Text(n.sensorRole)),
      Field("firmware_version", Text(n.firmwareVersion)),
      Field("build_target", Text(n.buildTarget)),
      Field("hostname", Text(n.hostname)),
      Field("ip_address", Text(n.ipAddress)),
      Field("wifi_rssi_dbm", Number(n.rssi)),
      Field("wifi_channel", Number(n.channel)),
      Field("uptime_s", Number(n.uptime)),
      Field("free_heap_bytes", Number(n.freeHeap)) ]
  }

  // ---------------------------------------------------------------------------
  // The Rust printer
  // ---------------------------------------------------------------------------

  /** The characters of digits stored last first. */
  function Backwards(digits: seq<nat>): string
    requires forall i :: 0 <= i < |digits| ==> digits[i] < 10
  {
    if digits == [] then "" else [DigitChar(digits[|digits| - 1])] + Backwards(digits[..|digits| - 1])
  }

  /** Fills the array from the low end; ten places are enough for 32 bits. */
  method SplitDigits(digits: array<nat>, value: nat) returns (count: nat)
    requires digits.Length == 10 && value <= U32_MAX
    modifies digits
    ensures 0 < count <= 10 && forall i :: 0 <= i < count ==> digits[i] < 10
    ensures Backwards(digits[..count]) == Decimal(value)
  {
    var remaining: nat := value;
    count := 0;
    assert Pow10(10) == 10_000_000_000 by {
      assert Pow10(5) == 100_000;
    }
    while true
      invariant count < 10 && remaining < Pow10(10 - count)
      invariant forall i :: 0 <= i < count ==> digits[i] < 10
      invariant Decimal(value) == Decimal(remaining) + Backwards(digits[..count])
      decreases 10 - count
    {
      ghost var low := digits[..count];
      digits[count] := remaining % 10;
      assert digits[..count + 1][..count] == low;
      ghost var whole: nat := remaining;
      count := count + 1;
      remaining := remaining / 10;
      if remaining == 0 {
        break;
      }
      assert Decimal(whole) + Backwards(low) == Decimal(remaining) + Backwards(digits[..count]);
    }
  }

  method AppendU32(output: FixedVec<char>, value: nat) returns (ok: bool)
    requires output.Valid() && value <= U32_MAX
    modifies output`len, output.data
    ensures output.Valid()
    ensures ok <==> |old(output.Contents())| + |Decimal(value)| <= output.data.Length
    ensures ok ==> output.Contents() == old(output.Contents()) + Decimal(value)
  {
    var digits := new nat[10];
    var count := SplitDigits(digits, value);
    ghost var goal := output.Contents() + Decimal(value);
    var index := count;
    while index > 0
      invariant output.Valid() && index <= count
      invariant forall i :: 0 <= i < count ==> digits[i] < 10
      invariant goal == output.Contents() + Backwards(digits[..index])
    {
      ghost var before := output.Contents();
      index := index - 1;
      assert digits[..index + 1][..index] == digits[..index];
      Associative(before, [DigitChar(digits[index])], Backwards(digits[..index]));
      ok := output.Push(DigitChar(digits[index]));
      if !ok {
        return;
      }
    }
    ok := true;
  }

  method AppendI32(output: FixedVec<char>, value: int) returns (ok: bool)
    requires output.Valid() && I32_MIN <= value <= U32_MAX
    modifies output`len, output.data
    ensures output.Valid()
    ensures ok <==> |old(output.Contents())| + |Signed(value)| <= output.data.Length
    ensures ok ==> output.Contents() == old(output.Contents()) + Signed(value)
  {
    if value < 0 {
      Associative(output.Contents(), "-", Decimal(-value));
      ok := output.Push('-');
      if ok {
        ok := AppendU32(output, -value);
      }
    } else {
      ok := AppendU32(output, value);
    }
  }

  method AppendEscaped(output: FixedVec<char>, value: string) returns (ok: bool)
    requires output.Valid()
    modifies output`len, output.data
    ensures output.Valid()
    ensures ok <==> |old(output.Contents())| + |Escaped(value, Rust)| <= output.data.Length
    ensures ok ==> output.Contents() == old(output.Contents()) + Escaped(value, Rust)
  {
    ghost var goal := output.Contents() + Escaped(value, Rust);
    var i := 0;
    while i < |value|
      invariant output.Valid() && i <= |value|
      invariant goal == output.Contents() + Escaped(value[i..], Rust)
    {
      Associative(output.Contents(), EscapedChar(value[i], Rust), Escaped(value[i + 1..], Rust));
      assert value[i..][1..] == value[i + 1..];
      ok := output.ExtendFromSlice(EscapedChar(value[i], Rust));
      if !ok {
        return;
      }
      i := i + 1;
    }
    ok := true;
  }

  method PushJsonStringField(payload: FixedVec<char>, key: string, value: string) returns (ok: bool)
    requires payload.Valid()
    modifies payload`len, payload.data
    ensures payload.Valid()
    ensures ok <==> |old(payload.Contents())| + |FieldText(Field(key, Text(value)), Rust)| <= payload.data.Length
    ensures ok ==> payload.Contents() == old(payload.Contents()) + FieldText(Field(key, Text(value)), Rust)
  {
    ghost var start := payload.Contents();
    ok := payload.ExtendFromSlice(Pattern(key));
    if !ok {
      return;
    }
    ok := payload.Push('"');
    if !ok {
      return;
    }
    ok := AppendEscaped(payload, value);
    if !ok {
      return;
    }
    ok := payload.Push('"');
    if ok {
      FieldPieces(start, key, value);
    }
  }

  lemma FieldPieces(start: string, key: string, value: string)
    ensures start + Pattern(key) + ['"'] + Escaped(value, Rust) + ['"']
         == start + FieldText(Field(key, Text(value)), Rust)
  {
  }

  /** The field, after a comma unless it is the first. */
  ghost function Piece(fields: seq<Field>, k: nat): string
    requires k < |fields|
  {
    (if k == 0 then "" else ",") + FieldText(fields[k], Rust)
  }

  ghost function Pieces(fields: seq<Field>): seq<string> {
    seq(|fields|, k requires 0 <= k < |fields| => Piece(fields, k))
  }

  /** What remains to be printed from the k-th piece on. */
  ghost function Remaining(pieces: seq<string>, k: nat): string
    requires k <= |pieces|
    decreases |pieces| - k
  {
    if k == |pieces| then "}" else pieces[k] + Remaining(pieces, k + 1)
  }

  lemma {:induction false} RemainingIsRest(fields: seq<Field>, k: nat)
    requires k < |fields|
    ensures Remaining(Pieces(fields), k) == (if k == 0 then "" else ",") + Rest(fields[k..], Rust)
    decreases |fields| - k
  {
    var comma, text := if k == 0 then "" else ",", FieldText(fields[k], Rust);
    assert fields[k..][0] == fields[k] && fields[k..][1..] == fields[k + 1..];
    if k + 1 < |fields| {
      RemainingIsRest(fields, k + 1);
    }
    Associative(comma, text, Remaining(Pieces(fields), k + 1));
  }

  lemma AllRemaining(fields: seq<Field>)
    ensures Remaining(Pieces(fields), 0) == Rest(fields, Rust)
  {
    if fields != [] {
      RemainingIsRest(fields, 0);
      assert fields[0..] == fields;
      assert "" + Rest(fields, Rust) == Rest(fields, Rust);
    }
  }

  lemma PiecesMakePrint(fields: seq<Field>)
    ensures "{" + Remaining(Pieces(fields), 0) == Print(fields, Rust)
  {
    AllRemaining(fields);
  }

  /** The numbers the printers handle are machine integers, and they print no nulls. */
  ghost predicate MachineValue(value: Value) {
    !value.Null? && (value.Number? ==> I32_MIN <= value.number <= U32_MAX)
  }

  method AppendPlainField(payload: FixedVec<char>, key: string, value: Value) returns (ok: bool)
    requires payload.Valid() && MachineValue(value) && !value.Text?
    modifies payload`len, payload.data
    ensures payload.Valid()
    ensures ok <==> |old(payload.Contents())| + |FieldText(Field(key, value), Rust)| <= payload.data.Length
    ensures ok ==> payload.Contents() == old(payload.Contents()) + FieldText(Field(key, value), Rust)
  {
    Associative(payload.Contents(), Pattern(key), ValueText(value, Rust));
    ok := payload.ExtendFromSlice(Pattern(key));
    if ok {
      match value {
        case Number(number) => ok := AppendI32(payload, number);
        case Flag(flag) => ok := payload.ExtendFromSlice(if flag then "true" else "false");
      }
    }
  }

  method AppendField(payload: FixedVec<char>, field: Field) returns (ok: bool)
    requires payload.Valid() && MachineValue(field.value)
    modifies payload`len, payload.data
    ensures payload.Valid()
    ensures ok <==> |old(payload.Contents())| + |FieldText(field, Rust)| <= payload.data.Length
    ensures ok ==> payload.Contents() == old(payload.Contents()) + FieldText(field, Rust)
  {
    if field.value.Text? {
      ok := PushJsonStringField(payload, field.key, field.value.text);
    } else {
      ok := AppendPlainField(payload, field.key, field.value);
    }
  }

  method AppendPiece(payload: FixedVec<char>, fields: seq<Field>, k: nat) returns (ok: bool)
    requires payload.Valid() && k < |fields| && MachineValue(fields[k].value)
    modifies payload`len, payload.data
    ensures payload.Valid()
    ensures ok <==> |old(payload.Contents())| + |Piece(fields, k)| <= payload.data.Length
    ensures ok ==> payload.Contents() == old(payload.Contents()) + Piece(fields, k)
  {
    Associative(payload.Contents(), if k == 0 then "" else ",", FieldText(fields[k], Rust));
    ok := true;
    if k > 0 {
      ok := payload.Push(',');
    }
    if ok {
      ok := AppendField(payload, fields[k]);
    }
  }

  /** Prints the whole object, or nothing when it does not fit the buffer. */
  method PrintFlat(fields: seq<Field>, capacity: nat) returns (printed: Option<string>)
    requires forall k :: 0 <= k < |fields| ==> MachineValue(fields[k].value)
    ensures printed.Some? <==> |Print(fields, Rust)| <= capacity
    ensures printed.Some? ==> printed.value == Print(fields, Rust)
  {
    ghost var pieces, whole := Pieces(fields), Print(fields, Rust);
    PiecesMakePrint(fields);
    var payload := new FixedVec<char>(capacity);
    var ok := payload.Push('{');
    if !ok {
      return None;
    }
    for k := 0 to |fields|
      invariant payload.Valid() && payload.data.Length == capacity
      invariant payload.Contents() + Remaining(pieces, k) == whole
    {
      Associative(payload.Contents(), pieces[k], Remaining(pieces, k + 1));
      ok := AppendPiece(payload, fields, k);
      if !ok {
        return None;
      }
    }
    ok := payload.Push('}');
    if !ok {
      return None;
    }
    printed := Some(payload.Contents());
  }

  /** The numbers of an announcement are machine integers. */
  ghost predicate InRange(n: Node) {
    I32_MIN <= n.rssi <= I32_MAX && n.channel < 256 && n.uptime <= U32_MAX && n.freeHeap <= U32_MAX
  }

  method BuildPayload(n: Node) returns (announcement: Option<string>)
    requires InRange(n)
    ensures announcement.Some? <==> |Print(FieldsOf(n), Rust)| <= ANNOUNCEMENT_CAPACITY
    ensures announcement.Some? ==> announcement.value == Print(FieldsOf(n), Rust)
  {
    announcement := PrintFlat(FieldsOf(n), ANNOUNCEMENT_CAPACITY);
  }

  // ---------------------------------------------------------------------------
  // What a C++ node hears
  // ---------------------------------------------------------------------------

  /** The peer record a datagram gives, if it is an announcement of another node; `text` and
      `number` look up one key of the datagram. */
  function HeardBy(text: string -> string, number: string -> int, ownId: string, remoteIp: string): Option<Node> {
    var nodeId := text("node_id");
    if text("kind") != "lb_udp_discovery" || |nodeId| == 0 || nodeId == ownId then None
    else
      var ip := text("ip_address");
      Some(Node(
        nodeId, text("friendly_name"), text("room_id"), text("sensor_role"),
        text("firmware_version"), text("build_target"), text("hostname"),
        if |ip| == 0 then remoteIp else ip,
        number("wifi_rssi_dbm"), Max(0, number("wifi_channel")),
        Max(0, number("uptime_s")), Max(0, number("free_heap_bytes"))))
  }

  function Heard(json: string, ownId: string, remoteIp: string): Option<Node> {
    HeardBy(key => FieldString(json, key), key => FieldInt(json, key, 0), ownId, remoteIp)
  }

  ghost predicate IsName(key: string) {
    key != "" && forall i :: 0 <= i < |key| ==> 'a' <= key[i] <= 'z' || key[i] == '_'
  }

  lemma NamesAreValid(key: string)
    requires IsName(key)
    ensures ValidKey(key)
  {
    forall i | 0 <= i < |key| ensures key[i] !in "\"\\:,}" {
      assert forall c :: c in "\"\\:,}" ==> c == '"' || c == '\\' || c == ':' || c == ',' || c == '}';
    }
  }

  /** Length and first letter already tell the keys apart. */
  ghost predicate HasSignature(key: string, length: nat, initial: char) {
    IsName(key) && |key| == length && key[0] == initial
  }

  ghost function Lengths(): seq<nat> { [4, 7, 13, 7, 11, 16, 12, 8, 10, 13, 12, 8, 15] }

  ghost function Initials(): seq<char> { ['k', 'n', 'f', 'r', 's', 'f', 'b', 'h', 'i', 'w', 'w', 'u', 'f'] }

  lemma LowSignatures(n: Node, k: nat)
    requires k < 5
    ensures HasSignature(FieldsOf(n)[k].key, Lengths()[k], Initials()[k])
  {
  }

  lemma MiddleSignatures(n: Node, k: nat)
    requires 5 <= k < 9
    ensures HasSignature(FieldsOf(n)[k].key, Lengths()[k], Initials()[k])
  {
  }

  lemma HighSignatures(n: Node, k: nat)
    requires 9 <= k < 13
    ensures HasSignature(FieldsOf(n)[k].key, Lengths()[k], Initials()[k])
  {
  }

  lemma SignaturesDiffer(j: nat, k: nat)
    requires j < k < 13
    ensures Lengths()[j] != Lengths()[k] || Initials()[j] != Initials()[k]
  {
  }

  lemma ValidAnnouncement(n: Node)
    ensures ValidFields(FieldsOf(n))
  {
    var fields := FieldsOf(n);
    forall k: nat | k < 13 ensures HasSignature(fields[k].key, Lengths()[k], Initials()[k]) {
      if k < 5 { LowSignatures(n, k); } else if k < 9 { MiddleSignatures(n, k); } else { HighSignatures(n, k); }
    }
    ValidBySignature(fields);
  }

  lemma ValidBySignature(fields: seq<Field>)
    requires |fields| == 13
    requires forall k: nat :: k < 13 ==> HasSignature(fields[k].key, Lengths()[k], Initials()[k])
    ensures ValidFields(fields)
  {
    forall k: nat | k < 13 ensures ValidKey(fields[k].key) {
      NamesAreValid(fields[k].key);
    }
    forall j: nat, k: nat | j < k < 13 ensures fields[j].key != fields[k].key {
      SignaturesDiffer(j, k);
    }
  }

  /** The record a C++ node keeps of an announcement it accepts. */
  ghost function Delivered(n: Node, style: Style, remoteIp: string): Node {
    Node(
      RecoveredText(n.nodeId, style), RecoveredText(n.friendlyName, style), RecoveredText(n.roomId, style),
      RecoveredText(n.sensorRole, style), RecoveredText(n.firmwareVersion, style),
      RecoveredText(n.buildTarget, style), RecoveredText(n.hostname, style),
      if n.ipAddress == "" then remoteIp else RecoveredText(n.ipAddress, style),
      Clamped(n.rssi), Clamped(n.channel), Clamped(n.uptime), Clamped(n.freeHeap))
  }

  /** The lookups give each field what it gives back. */
  ghost predicate ReadsAs(text: string -> string, number: string -> int, fields: seq<Field>, style: Style) {
    forall k :: 0 <= k < |fields| ==>
      if fields[k].value.Text? then text(fields[k].key) == RecoveredText(fields[k].value.text, style)
      else fields[k].value.Number? ==> number(fields[k].key) == Clamped(fields[k].value.number)
  }

  function Clamped(n: int): int { Max(Min(n, I32_MAX), I32_MIN) }

  lemma PrintReadsAs(fields: seq<Field>, style: Style, text: string -> string, number: string -> int)
    requires ValidFields(fields)
    requires forall key :: text(key) == FieldString(Print(fields, style), key)
    requires forall key :: number(key) == FieldInt(Print(fields, style), key, 0)
    ensures ReadsAs(text, number, fields, style)
  {
    forall k | 0 <= k < |fields|
      ensures if fields[k].value.Text? then text(fields[k].key) == RecoveredText(fields[k].value.text, style)
              else fields[k].value.Number? ==> number(fields[k].key) == Clamped(fields[k].value.number)
    {
      ReadBack(fields, style, k);
      if fields[k].value.Number? {
        NumberReads(fields[k].value.number, 0);
      }
    }
  }

  lemma KindIsClean(style: Style)
    ensures RecoveredText("lb_udp_discovery", style) == "lb_udp_discovery"
  {
    RecoveredExactly("lb_udp_discovery", style);
  }

  lemma TextHeard(text: string -> string, number: string -> int, n: Node, style: Style, k: nat, key: string, value: string)
    requires ReadsAs(text, number, FieldsOf(n), style) && k < 13 && FieldsOf(n)[k] == Field(key, Text(value))
    ensures text(key) == RecoveredText(value, style)
  {
  }

  lemma NumberHeard(text: string -> string, number: string -> int, n: Node, style: Style, k: nat, key: string, value: int)
    requires ReadsAs(text, number, FieldsOf(n), style) && k < 13 && FieldsOf(n)[k] == Field(key, Number(value))
    ensures number(key) == Clamped(value)
  {
  }

  lemma PlaceHeard(text: string -> string, number: string -> int, n: Node, style: Style)
    requires ReadsAs(text, number, FieldsOf(n), style)
    ensures text("kind") == "lb_udp_discovery"
    ensures text("node_id") == RecoveredText(n.nodeId, style)
    ensures text("friendly_name") == RecoveredText(n.friendlyName, style)
    ensures text("room_id") == RecoveredText(n.roomId, style)
    ensures text("sensor_role") == RecoveredText(n.sensorRole, style)
  {
    KindIsClean(style);
    TextHeard(text, number, n, style, 0, "kind", "lb_udp_discovery");
    TextHeard(text, number, n, style, 1, "node_id", n.nodeId);
    TextHeard(text, number, n, style, 2, "friendly_name", n.friendlyName);
    TextHeard(text, number, n, style, 3, "room_id", n.roomId);
    TextHeard(text, number, n, style, 4, "sensor_role", n.sensorRole);
  }

  lemma BuildHeard(text: string -> string, number: string -> int, n: Node, style: Style)
    requires ReadsAs(text, number, FieldsOf(n), style)
    ensures text("firmware_version") == RecoveredText(n.firmwareVersion, style)
    ensures text("build_target") == RecoveredText(n.buildTarget, style)
    ensures text("hostname") == RecoveredText(n.hostname, style)
    ensures text("ip_address") == RecoveredText(n.ipAddress, style)
  {
    TextHeard(text, number, n, style, 5, "firmware_version", n.firmwareVersion);
    TextHeard(text, number, n, style, 6, "build_target", n.buildTarget);
    TextHeard(text, number, n, style, 7, "hostname", n.hostname);
    TextHeard(text, number, n, style, 8, "ip_address", n.ipAddress);
  }

  lemma ReadingsHeard(text: string -> string, number: string -> int, n: Node, style: Style)
    requires ReadsAs(text, number, FieldsOf(n), style)
    ensures number("wifi_rssi_dbm") == Clamped(n.rssi)
    ensures number("wifi_channel") == Clamped(n.channel)
    ensures number("uptime_s") == Clamped(n.uptime)
    ensures number("free_heap_bytes") == Clamped(n.freeHeap)
  {
    NumberHeard(text, number, n, style, 9, "wifi_rssi_dbm", n.rssi);
    NumberHeard(text, number, n, style, 10, "wifi_channel", n.channel);
    NumberHeard(text, number, n, style, 11, "uptime_s", n.uptime);
    NumberHeard(text, number, n, style, 12, "free_heap_bytes", n.freeHeap);
  }

  lemma ReaderHears(text: string -> string, number: string -> int, n: Node, style: Style, ownId: string, remoteIp: string)
    requires ReadsAs(text, number, FieldsOf(n), style)
    ensures HeardBy(text, number, ownId, remoteIp)
         == if n.nodeId == "" || RecoveredText(n.nodeId, style) == ownId then None
            else Some(Delivered(n, style, remoteIp))
  {
    PlaceHeard(text, number, n, style);
    BuildHeard(text, number, n, style);
    ReadingsHeard(text, number, n, style);
  }

  /** An announcement of either firmware is heard, unless it is nameless or one's own, and gives
      the sender's fields. */
  lemma AnnouncementHeard(n: Node, style: Style, ownId: string, remoteIp: string)
    ensures Heard(Print(FieldsOf(n), style), ownId, remoteIp)
         == if n.nodeId == "" || RecoveredText(n.nodeId, style) == ownId then None
            else Some(Delivered(n, style, remoteIp))
  {
    ValidAnnouncement(n);
    AnyFieldsHeard(FieldsOf(n), n, style, ownId, remoteIp);
  }

  lemma AnyFieldsHeard(fields: seq<Field>, n: Node, style: Style, ownId: string, remoteIp: string)
    requires ValidFields(fields) && fields == FieldsOf(n)
    ensures Heard(Print(fields, style), ownId, remoteIp)
         == if n.nodeId == "" || RecoveredText(n.nodeId, style) == ownId then None
            else Some(Delivered(n, style, remoteIp))
  {
    var json := Print(fields, style);
    var text, number := key => FieldString(json, key), key => FieldInt(json, key, 0);
    PrintReadsAs(fields, style, text, number);
    ReaderHears(text, number, n, style, ownId, remoteIp);
  }

  ghost predicate AllClean(n: Node, style: Style) {
    && Clean(n.nodeId, style) && Clean(n.friendlyName, style) && Clean(n.roomId, style)
    && Clean(n.sensorRole, style) && Clean(n.firmwareVersion, style) && Clean(n.buildTarget, style)
    && Clean(n.hostname, style) && Clean(n.ipAddress, style)
  }

  /** The receiver's record is the sender's exactly when no text loses a character, every number
      fits 32 signed bits, and a missing address is not filled in by the receiver. */
  lemma DeliveredExactly(n: Node, style: Style, remoteIp: string)
    ensures Delivered(n, style, remoteIp) == n
       <==> AllClean(n, style) && I32_MIN <= n.rssi <= I32_MAX && n.channel <= I32_MAX
            && n.uptime <= I32_MAX && n.freeHeap <= I32_MAX && (n.ipAddress == "" ==> remoteIp == "")
  {
    RecoveredExactly(n.nodeId, style);
    RecoveredExactly(n.friendlyName, style);
    RecoveredExactly(n.roomId, style);
    RecoveredExactly(n.sensorRole, style);
    RecoveredExactly(n.firmwareVersion, style);
    RecoveredExactly(n.buildTarget, style);
    RecoveredExactly(n.hostname, style);
    RecoveredExactly(n.ipAddress, style);
  }
}
