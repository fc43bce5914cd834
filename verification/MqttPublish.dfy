/** PUBLISH packets, section 3.3 of MQTT 3.1.1: what the firmware builds, what it extracts,
    and the whole way from one node's messages to another node's payloads. */
module MqttPublish {
  import opened Wrappers
  import opened Heapless
  import opened Mqtt
  import opened Utf8

  // ---------------------------------------------------------------------------
  // Building
  // ---------------------------------------------------------------------------

  function BigEndian16(high: byte, low: byte): nat {
    (high as int) * 256 + low
  }

  /** A two-byte length, most significant byte first, and the bytes themselves. */
  function Utf8Field(text: seq<byte>): seq<byte>
    requires |text| <= 0xFFFF
  {
    [|text| / 256, |text| % 256] + text
  }

  method EncodeUtf8(output: FixedVec<byte>, text: seq<byte>) returns (ok: bool)
    requires output.Valid()
    modifies output`len, output.data
    ensures output.Valid()
    ensures ok <==> |text| <= 0xFFFF && |old(output.Contents())| + 2 + |text| <= output.data.Length
    ensures ok ==> output.Contents() == old(output.Contents()) + Utf8Field(text)
  {
    if |text| > 0xFFFF {
      return false;
    }
    ok := output.ExtendFromSlice([|text| / 256, |text| % 256]);
    if ok {
      ok := output.ExtendFromSlice(text);
    }
  }

  function PublishBody(topic: seq<byte>, payload: seq<byte>): seq<byte>
    requires |topic| <= 0xFFFF
  {
    Utf8Field(topic) + payload
  }

  /** The packet a message becomes. */
  ghost function PublishPacket(topic: seq<byte>, payload: seq<byte>, retain: bool): Packet
    requires |topic| <= 0xFFFF
  {
    var body := PublishBody(topic, payload);
    Packet(if retain then 0x31 else 0x30, EncodedLength(|body|), body)
  }

  /** When a message can be sent: body and packet must both fit in 768 bytes. */
  ghost predicate Fits(topic: seq<byte>, payload: seq<byte>) {
    |topic| + |payload| + 2 + 1 + |EncodedLength(|topic| + |payload| + 2)| <= PUBLISH_CAPACITY
  }

  /** The variable header and payload, if they fit. */
  method BuildBody(topic: seq<byte>, payload: seq<byte>) returns (body: Option<seq<byte>>)
    ensures body.Some? <==> |topic| + |payload| + 2 <= PUBLISH_CAPACITY
    ensures body.Some? ==> body.value == PublishBody(topic, payload)
  {
    var output := new FixedVec<byte>(PUBLISH_CAPACITY);
    var ok := EncodeUtf8(output, topic);
    if !ok {
      return None;
    }
    ok := output.ExtendFromSlice(payload);
    if !ok {
      return None;
    }
    body := Some(output.Contents());
  }

  method BuildPublish(topic: seq<byte>, payload: seq<byte>, retain: bool) returns (packet: Option<seq<byte>>)
    ensures packet.Some? <==> Fits(topic, payload)
    ensures packet.Some? ==> packet.value == PublishPacket(topic, payload, retain).Wire()
  {
    var body := BuildBody(topic, payload);
    if body.None? {
      return None;
    }
    var output := new FixedVec<byte>(PUBLISH_CAPACITY);
    var kind: byte := if retain then 0x31 else 0x30;
    var ok := output.Push(kind);
    assert output.Contents() == [kind];
    ok := EncodeRemainingLength(output, |body.value|);
    if !ok {
      return None;
    }
    ok := output.ExtendFromSlice(body.value);
    if !ok {
      return None;
    }
    packet := Some(output.Contents());
  }

  // ---------------------------------------------------------------------------
  // Extracting
  // ---------------------------------------------------------------------------

  /** What mqtt_publish_payload returns for any byte string. */
  ghost function PayloadOf(packet: seq<byte>): Option<seq<byte>> {
    if packet == [] || packet[0] / 16 != 3 then None
    else
      match StopAt(packet, 1, 3)
      case None => None
      case Some(header) => PayloadAfter(packet, header)
  }

  /** The topic follows the fixed header, then a packet identifier if the QoS is not 0. */
  ghost function PayloadAfter(packet: seq<byte>, header: nat): Option<seq<byte>>
    requires packet != []
  {
    if |packet| < header + 2 then None
    else
      var topicLength := BigEndian16(packet[header], packet[header + 1]);
      var qos := packet[0] / 2 % 4;
      var offset := header + 2 + topicLength + (if qos > 0 then 2 else 0);
      if offset <= |packet| && ValidUtf8(packet[offset..]) then Some(packet[offset..]) else None
  }

  method ExtractPayload(packet: seq<byte>) returns (payload: Option<seq<byte>>)
    ensures payload == PayloadOf(packet)
  {
    if packet == [] || packet[0] / 16 != 3 {
      return None;
    }
    var header: nat, multiplier: nat := 1, 1;
    ghost var more: nat := 3;
    while true
      invariant more <= 3 && 1 <= header
      invariant more == 3 ==> multiplier == 1
      invariant more == 2 ==> multiplier == 128
      invariant more == 1 ==> multiplier == 128 * 128
      invariant more == 0 ==> multiplier == 128 * 128 * 128
      invariant StopAt(packet, 1, 3) == StopAt(packet, header, more)
      decreases more
    {
      if header >= |packet| {
        return None;
      }
      var encoded := packet[header];
      header := header + 1;
      if encoded < 128 {
        break;
      }
      multiplier := multiplier * 128;
      if multiplier > 128 * 128 * 128 {
        return None;
      }
      more := more - 1;
    }
    if |packet| < header + 2 {
      return None;
    }
    var offset := header + 2 + BigEndian16(packet[header], packet[header + 1]);
    var qos := packet[0] / 2 % 4;
    if qos > 0 {
      offset := offset + 2;
    }
    if offset <= |packet| && ValidUtf8(packet[offset..]) {
      return Some(packet[offset..]);
    }
    return None;
  }

  // ---------------------------------------------------------------------------
  // There and back
  // ---------------------------------------------------------------------------

  lemma PublishIsValid(topic: seq<byte>, payload: seq<byte>, retain: bool)
    requires Fits(topic, payload)
    ensures PublishPacket(topic, payload, retain).Valid()
    ensures |PublishPacket(topic, payload, retain).Wire()| <= PUBLISH_CAPACITY
  {
    var n := |PublishBody(topic, payload)|;
    EncodedLengthValue(n);
    EncodedLengthSize(n, 4);
    assert Base128(4) == 128 * (128 * (128 * (128 * Base128(0))));
  }

  lemma FindsPayload(before: seq<byte>, topic: seq<byte>, payload: seq<byte>)
    requires before != [] && before[0] / 2 % 4 == 0
    requires |topic| <= 0xFFFF && ValidUtf8(payload)
    ensures PayloadAfter(before + PublishBody(topic, payload), |before|) == Some(payload)
  {
    BodyBytes(topic, payload);
    var body := PublishBody(topic, payload);
    var wire, header := before + body, |before|;
    assert wire[header] == body[0] && wire[header + 1] == body[1];
    assert wire[header + 2 + |topic|..] == body[2 + |topic|..];
  }

  lemma SplitLength(n: nat)
    requires n <= 0xFFFF
    ensures BigEndian16(n / 256, n % 256) == n
  {
  }

  lemma BodyBytes(topic: seq<byte>, payload: seq<byte>)
    requires |topic| <= 0xFFFF
    ensures |PublishBody(topic, payload)| == 2 + |topic| + |payload|
    ensures BigEndian16(PublishBody(topic, payload)[0], PublishBody(topic, payload)[1]) == |topic|
    ensures PublishBody(topic, payload)[2 + |topic|..] == payload
  {
    SplitLength(|topic|);
  }

  lemma FindsHeader(kind: byte, length: seq<byte>, body: seq<byte>)
    requires IsLengthField(length) && |length| <= 4
    ensures StopAt([kind] + length + body, 1, 3) == Some(1 + |length|)
  {
    ParseField([kind], length, body, 3);
    DecodersAgree([kind] + length + body, 1, 3);
  }

  /** The first byte says PUBLISH, quality of service 0, not a duplicate, and whether the broker is
      to retain the message (section 3.3.1 of MQTT 3.1.1). */
  lemma KindSays(topic: seq<byte>, payload: seq<byte>, retain: bool)
    requires |topic| <= 0xFFFF
    ensures var kind := PublishPacket(topic, payload, retain).Wire()[0];
      kind / 16 == 3 && kind / 2 % 8 == 0 && (kind % 2 == 1 <==> retain)
  {
  }

  /** The topic stands behind the fixed header and its own length. */
  ghost function TopicIn(packet: seq<byte>, header: nat): Option<seq<byte>> {
    if |packet| < header + 2 || |packet| < header + 2 + BigEndian16(packet[header], packet[header + 1]) then None
    else Some(packet[header + 2..header + 2 + BigEndian16(packet[header], packet[header + 1])])
  }

  lemma TopicBuilt(topic: seq<byte>, payload: seq<byte>, retain: bool)
    requires Fits(topic, payload)
    ensures var p := PublishPacket(topic, payload, retain); TopicIn(p.Wire(), 1 + |p.length|) == Some(topic)
  {
    var p := PublishPacket(topic, payload, retain);
    var before := [p.kind] + p.length;
    TopicBehind(before, topic, payload);
  }

  lemma TopicBehind(before: seq<byte>, topic: seq<byte>, payload: seq<byte>)
    requires |topic| <= 0xFFFF
    ensures TopicIn(before + PublishBody(topic, payload), |before|) == Some(topic)
  {
    BodyBytes(topic, payload);
    var body, header := PublishBody(topic, payload), |before|;
    var wire := before + body;
    assert wire[header] == body[0] && wire[header + 1] == body[1];
    assert wire[header + 2..header + 2 + |topic|] == body[2..2 + |topic|] == topic;
  }

  /** Extraction undoes building, for every topic and payload that fit. */
  lemma ExtractBuilt(topic: seq<byte>, payload: seq<byte>, retain: bool)
    requires Fits(topic, payload) && ValidUtf8(payload)
    ensures PayloadOf(PublishPacket(topic, payload, retain).Wire()) == Some(payload)
  {
    var p := PublishPacket(topic, payload, retain);
    PublishIsValid(topic, payload, retain);
    FindsHeader(p.kind, p.length, p.body);
    FindsPayload([p.kind] + p.length, topic, payload);
  }

  datatype Message = Message(topic: seq<byte>, payload: seq<byte>, retain: bool)

  ghost predicate Sendable(messages: seq<Message>) {
    forall i :: 0 <= i < |messages| ==> Fits(messages[i].topic, messages[i].payload) && ValidUtf8(messages[i].payload)
  }

  ghost function PacketsOf(messages: seq<Message>): seq<Packet>
    requires Sendable(messages)
  {
    seq(|messages|, i requires 0 <= i < |messages| =>
      PublishPacket(messages[i].topic, messages[i].payload, messages[i].retain))
  }

  /** From node to node: whatever part of a stream of published messages has arrived, and
      however it was split, the packets cut from it carry the payloads of a prefix of the
      messages, in order, and all of them once the stream is complete. */
  lemma PublishedIsReceived(messages: seq<Message>, arrived: seq<byte>, cut: seq<seq<byte>>, rest: seq<byte>)
    requires Sendable(messages)
    requires arrived <= WireAll(PacketsOf(messages)) && Received(arrived, cut, rest)
    ensures |cut| <= |messages|
    ensures forall i :: 0 <= i < |cut| ==> PayloadOf(cut[i]) == Some(messages[i].payload)
    ensures arrived == WireAll(PacketsOf(messages)) ==> |cut| == |messages|
  {
    var packets := PacketsOf(messages);
    forall i | 0 <= i < |packets|
      ensures packets[i].Valid() && |packets[i].Wire()| <= PACKET_CAPACITY
      ensures PayloadOf(packets[i].Wire()) == Some(messages[i].payload)
    {
      PublishIsValid(messages[i].topic, messages[i].payload, messages[i].retain);
      ExtractBuilt(messages[i].topic, messages[i].payload, messages[i].retain);
    }
    var whole := DrainRecovers(packets, arrived);
    if whole < |packets| {
      WireAllGrows(packets, whole);
    }
  }

  lemma {:induction false} WireAllGrows(packets: seq<Packet>, whole: nat)
    requires whole < |packets|
    ensures |WireAll(packets[..whole])| + |packets[whole].Wire()| <= |WireAll(packets)|
  {
    if whole > 0 {
      PrefixStep(packets, whole - 1);
      WireAllGrows(packets[1..], whole - 1);
    }
  }
}
