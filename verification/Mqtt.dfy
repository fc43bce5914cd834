/** MQTT 3.1.1 framing: the remaining-length encoder and its two decoders, the publish
    packet builder and extractor, and the cutter that recovers packets from a TCP stream. */
module Mqtt {
  import opened Wrappers
  import opened Heapless

  const INBOUND_CAPACITY: nat := 2048
  const PACKET_CAPACITY: nat := 1024
  const READ_SIZE: nat := 512
  const PUBLISH_CAPACITY: nat := 768

  // ---------------------------------------------------------------------------
  // The standard: sections 2.2.3 and 3.3
  // ---------------------------------------------------------------------------

  /** What a remaining-length field stands for: base-128 digits, least significant first. */
  ghost function LengthValue(digits: seq<byte>): nat {
    if digits == [] then 0 else digits[0] % 128 + 128 * LengthValue(digits[1..])
  }

  /** Every byte but the last has its continuation bit set. */
  ghost predicate IsLengthField(digits: seq<byte>) {
    && digits != []
    && digits[|digits| - 1] < 128
    && forall i :: 0 <= i < |digits| - 1 ==> digits[i] >= 128
  }

  /** A control packet as the standard lays it out: at most four length bytes, and a body
      of the announced length. */
  datatype Packet = Packet(kind: byte, length: seq<byte>, body: seq<byte>) {
    ghost predicate Valid() {
      |length| <= 4 && IsLengthField(length) && LengthValue(length) == |body|
    }

    ghost function Wire(): seq<byte> {
      [kind] + length + body
    }
  }

  ghost predicate AllValid(packets: seq<Packet>) {
    forall i :: 0 <= i < |packets| ==> packets[i].Valid() && |packets[i].Wire()| <= PACKET_CAPACITY
  }

  /** The stream a broker sends: packets back to back. */
  ghost function WireAll(packets: seq<Packet>): seq<byte> {
    if packets == [] then [] else packets[0].Wire() + WireAll(packets[1..])
  }

  ghost function Wires(packets: seq<Packet>): seq<seq<byte>> {
    seq(|packets|, i requires 0 <= i < |packets| => packets[i].Wire())
  }

  // ---------------------------------------------------------------------------
  // Remaining length: encoder
  // ---------------------------------------------------------------------------

  function EncodedLength(value: nat): (digits: seq<byte>)
    ensures digits != []
  {
    if value < 128 then [value] else [128 + value % 128] + EncodedLength(value / 128)
  }

  /** The encoder writes a well-formed field that stands for the value it was given. */
  lemma {:induction false} EncodedLengthValue(value: nat)
    ensures IsLengthField(EncodedLength(value)) && LengthValue(EncodedLength(value)) == value
  {
    if value >= 128 {
      var rest := EncodedLength(value / 128);
      EncodedLengthValue(value / 128);
      assert EncodedLength(value)[1..] == rest;
      assert forall i :: 0 < i < |rest| ==> EncodedLength(value)[i] == rest[i - 1];
    } else {
      assert LengthValue([value]) == value % 128 + 128 * LengthValue([]);
    }
  }

  ghost function Base128(digits: nat): nat {
    if digits == 0 then 1 else 128 * Base128(digits - 1)
  }

  /** The field is as short as it can be: it has at most n bytes exactly when n base-128
      digits can hold the value. */
  lemma {:induction false} EncodedLengthSize(value: nat, n: nat)
    requires n >= 1
    ensures |EncodedLength(value)| <= n <==> value < Base128(n)
  {
    assert Base128(n) == 128 * Base128(n - 1);
    BasePositive(n - 1);
    if value >= 128 && n > 1 {
      EncodedLengthSize(value / 128, n - 1);
    }
  }

  lemma {:induction false} BasePositive(n: nat)
    ensures Base128(n) >= 1
  {
    if n > 0 { BasePositive(n - 1); }
  }

  method EncodeRemainingLength(output: FixedVec<byte>, initial: nat) returns (ok: bool)
    requires output.Valid()
    modifies output`len, output.data
    ensures output.Valid()
    ensures ok <==> |old(output.Contents())| + |EncodedLength(initial)| <= output.data.Length
    ensures ok ==> output.Contents() == old(output.Contents()) + EncodedLength(initial)
  {
    var value := initial;
    ghost var start, done: seq<byte> := output.Contents(), [];
    while true
      invariant output.Valid() && output.Contents() == start + done
      invariant done + EncodedLength(value) == EncodedLength(initial)
      decreases value
    {
      var encoded: byte := value % 128;
      var rest := value / 128;
      if rest > 0 {
        encoded := encoded + 128;
      }
      ok := output.Push(encoded);
      if !ok {
        return;
      }
      Associative(start, done, [encoded]);
      if rest == 0 {
        return;
      }
      Associative(done, [encoded], EncodedLength(rest));
      done, value := done + [encoded], rest;
    }
  }

  // ---------------------------------------------------------------------------
  // Remaining length: the two decoders
  // ---------------------------------------------------------------------------

  /** A length field read from a byte string: not all there yet, longer than four bytes,
      or complete, with the header's size and the value. */
  datatype Header = Short | TooLong | Parsed(size: nat, value: nat)

  /** Reads on from `index` when `more` further continuation bytes are still allowed. */
  ghost function ParseLength(buffer: seq<byte>, index: nat, more: nat): (h: Header)
    ensures h.Parsed? ==> index < h.size <= |buffer| && h.size <= index + more + 1
    decreases more
  {
    if index >= |buffer| then Short
    else if buffer[index] < 128 then Parsed(index + 1, buffer[index])
    else if more == 0 then TooLong
    else
      match ParseLength(buffer, index + 1, more - 1)
      case Parsed(size, value) => Parsed(size, buffer[index] % 128 + 128 * value)
      case other => other
  }

  datatype Cut = Incomplete | Malformed | Complete(total: nat)

  ghost function PacketLengthOf(buffer: seq<byte>): (c: Cut)
    ensures c.Complete? ==> 2 <= c.total <= |buffer|
  {
    match ParseLength(buffer, 1, 3)
    case Short => Incomplete
    case TooLong => Malformed
    case Parsed(size, value) => if |buffer| < size + value then Incomplete else Complete(size + value)
  }

  /** The digits read so far stand for `value`; what follows counts `multiplier` times. */
  ghost function Shifted(h: Header, value: nat, multiplier: nat): Header {
    match h
    case Parsed(size, v) => Parsed(size, value + multiplier * v)
    case other => other
  }

  /** What one length byte adds. */
  function Contribution(encoded: byte, multiplier: nat): nat {
    (encoded % 128) * multiplier
  }

  /** One turn of the decoding loop. */
  lemma ShiftDigit(buffer: seq<byte>, index: nat, more: nat, value: nat, multiplier: nat)
    requires index < |buffer|
    ensures var digit := Contribution(buffer[index], multiplier);
            Shifted(ParseLength(buffer, index, more), value, multiplier) ==
            if buffer[index] < 128 then Parsed(index + 1, value + digit)
            else if more == 0 then TooLong
            else Shifted(ParseLength(buffer, index + 1, more - 1), value + digit, multiplier * 128)
  {
    var d := buffer[index] % 128;
    if buffer[index] >= 128 && more > 0 && ParseLength(buffer, index + 1, more - 1).Parsed? {
      var v := ParseLength(buffer, index + 1, more - 1).value;
      Distribute(multiplier, d, v);
    }
  }

  lemma Distribute(m: nat, d: nat, v: nat)
    ensures m * (d + 128 * v) == d * m + (m * 128) * v
  {
    assert m * (128 * v) == (m * 128) * v;
  }

  method PacketLength(buffer: seq<byte>) returns (cut: Cut)
    ensures cut == PacketLengthOf(buffer)
  {
    if |buffer| < 2 {
      return Incomplete;
    }
    var multiplier: nat, value: nat, index: nat := 1, 0, 1;
    ghost var more: nat, header := 3, ParseLength(buffer, 1, 3);
    while true
      invariant more <= 3 && 1 <= index
      invariant more == 3 ==> multiplier == 1
      invariant more == 2 ==> multiplier == 128
      invariant more == 1 ==> multiplier == 128 * 128
      invariant more == 0 ==> multiplier == 128 * 128 * 128
      invariant header == Shifted(ParseLength(buffer, index, more), value, multiplier)
      decreases more
    {
      if index >= |buffer| {
        return Incomplete;
      }
      ShiftDigit(buffer, index, more, value, multiplier);
      var encoded := buffer[index];
      value := value + Contribution(encoded, multiplier);
      index := index + 1;
      if encoded < 128 {
        break;
      }
      multiplier := multiplier * 128;
      if multiplier > 128 * 128 * 128 {
        return Malformed;
      }
      more := more - 1;
    }
    var total := index + value;
    if |buffer| < total {
      cut := Incomplete;
    } else {
      cut := Complete(total);
    }
  }

  /** The size of a packet's fixed header as mqtt.rs finds it: it only looks for the byte
      that ends the length field and never computes the length. */
  ghost function StopAt(packet: seq<byte>, index: nat, more: nat): Option<nat>
    decreases more
  {
    if index >= |packet| then None
    else if packet[index] < 128 then Some(index + 1)
    else if more == 0 then None
    else StopAt(packet, index + 1, more - 1)
  }

  /** On every byte string the two decoders find the same header, or neither finds one. */
  lemma {:induction false} DecodersAgree(packet: seq<byte>, index: nat, more: nat)
    ensures match ParseLength(packet, index, more)
            case Parsed(size, _) => StopAt(packet, index, more) == Some(size)
            case _ => StopAt(packet, index, more) == None
    decreases more
  {
    if index < |packet| && packet[index] >= 128 && more > 0 {
      DecodersAgree(packet, index + 1, more - 1);
    }
  }

  // ---------------------------------------------------------------------------
  // Cutting packets off the front of a stream
  // ---------------------------------------------------------------------------

  /** The size of the packet take_mqtt_packet would remove, if any. */
  ghost function TakeSize(buffer: seq<byte>): (size: Option<nat>)
    ensures size.Some? ==> 2 <= size.value <= Min(|buffer|, PACKET_CAPACITY)
  {
    match PacketLengthOf(buffer)
    case Complete(total) => if total <= PACKET_CAPACITY then Some(total) else None
    case _ => None
  }

  method TakePacket(buffer: FixedVec<byte>) returns (packet: Option<seq<byte>>)
    requires buffer.Valid()
    modifies buffer`len, buffer.data
    ensures buffer.Valid()
    ensures var size := TakeSize(old(buffer.Contents()));
            if size.None? then packet == None && buffer.Contents() == old(buffer.Contents())
            else && packet == Some(old(buffer.Contents())[..size.value])
                 && buffer.Contents() == old(buffer.Contents())[size.value..]
  {
    var cut := PacketLength(buffer.Contents());
    if !cut.Complete? || cut.total > PACKET_CAPACITY {
      return None;
    }
    var taken := buffer.Contents()[..cut.total];
    var remaining := buffer.len - cut.total;
    buffer.CopyToFront(cut.total);
    buffer.Truncate(remaining);
    packet := Some(taken);
  }

  /** All the packets the drain loop removes, and what it leaves. */
  ghost function Drained(buffer: seq<byte>): seq<seq<byte>>
    decreases |buffer|
  {
    match TakeSize(buffer)
    case None => []
    case Some(n) => [buffer[..n]] + Drained(buffer[n..])
  }

  ghost function Residue(buffer: seq<byte>): (rest: seq<byte>)
    ensures TakeSize(rest).None?
    ensures |rest| <= |buffer|
    decreases |buffer|
  {
    match TakeSize(buffer)
    case None => buffer
    case Some(n) => Residue(buffer[n..])
  }

  /** A decision once made is not changed by bytes that arrive later. */
  lemma {:induction false} ParseStable(b: seq<byte>, c: seq<byte>, index: nat, more: nat)
    requires !ParseLength(b, index, more).Short?
    ensures ParseLength(b + c, index, more) == ParseLength(b, index, more)
    decreases more
  {
    if b[index] >= 128 && more > 0 {
      ParseStable(b, c, index + 1, more - 1);
    }
  }

  lemma TakeStable(b: seq<byte>, c: seq<byte>)
    requires TakeSize(b).Some?
    ensures TakeSize(b + c) == TakeSize(b)
  {
    ParseStable(b, c, 1, 3);
  }

  /** Draining early is the same as draining late, on every byte stream whatsoever: valid,
      malformed, or stalled behind an oversized packet. */
  lemma {:induction false} DrainSplit(b: seq<byte>, c: seq<byte>)
    ensures Drained(b + c) == Drained(b) + Drained(Residue(b) + c)
    ensures Residue(b + c) == Residue(Residue(b) + c)
    decreases |b|
  {
    var size := TakeSize(b);
    if size.None? {
      assert [] + Drained(b + c) == Drained(b + c);
    } else {
      var n := size.value;
      var head, tail := b[..n], b[n..];
      TakeStable(b, c);
      assert (b + c)[..n] == head && (b + c)[n..] == tail + c;
      DrainSplit(tail, c);
      calc {
        Drained(b + c);
        [head] + Drained(tail + c);
        [head] + (Drained(tail) + Drained(Residue(tail) + c));
        ([head] + Drained(tail)) + Drained(Residue(tail) + c);
        Drained(b) + Drained(Residue(b) + c);
      }
    }
  }

  /** The bytes of a well-formed length field are read back as its value. */
  lemma {:induction false} ParseField(before: seq<byte>, digits: seq<byte>, rest: seq<byte>, more: nat)
    requires IsLengthField(digits) && |digits| <= more + 1
    ensures ParseLength(before + digits + rest, |before|, more)
         == Parsed(|before| + |digits|, LengthValue(digits))
    decreases |digits|
  {
    var all := before + digits + rest;
    if |digits| > 1 {
      assert all == before + [digits[0]] + digits[1..] + rest;
      ParseField(before + [digits[0]], digits[1..], rest, more - 1);
    } else {
      assert LengthValue(digits) == digits[0] % 128 + 128 * LengthValue([]);
    }
  }

  lemma CutsExactly(p: Packet, rest: seq<byte>)
    requires p.Valid()
    ensures PacketLengthOf(p.Wire() + rest) == Complete(|p.Wire()|)
  {
    ParseField([p.kind], p.length, p.body + rest, 3);
    assert p.Wire() + rest == [p.kind] + p.length + (p.body + rest);
  }

  /** A packet that is not all there yet is never cut. */
  lemma WaitsForAll(p: Packet, k: nat)
    requires p.Valid() && k < |p.Wire()|
    ensures PacketLengthOf(p.Wire()[..k]) == Incomplete
  {
    var b := p.Wire()[..k];
    CutsExactly(p, []);
    assert p.Wire() + [] == p.Wire() && b + p.Wire()[k..] == p.Wire();
    if !ParseLength(b, 1, 3).Short? {
      ParseStable(b, p.Wire()[k..], 1, 3);
    }
  }

  lemma DrainsFirst(p: Packet, later: seq<byte>)
    requires p.Valid() && |p.Wire()| <= PACKET_CAPACITY
    ensures Drained(p.Wire() + later) == [p.Wire()] + Drained(later)
    ensures Residue(p.Wire() + later) == Residue(later)
  {
    CutsExactly(p, later);
    var b, n := p.Wire() + later, |p.Wire()|;
    assert TakeSize(b) == Some(n) && b[..n] == p.Wire() && b[n..] == later;
  }

  lemma {:induction false} DrainsAll(packets: seq<Packet>, tail: seq<byte>)
    requires AllValid(packets)
    ensures Drained(WireAll(packets) + tail) == Wires(packets) + Drained(tail)
    ensures Residue(WireAll(packets) + tail) == Residue(tail)
    decreases |packets|
  {
    if packets == [] {
      assert [] + tail == tail;
      assert Wires(packets) == [];
    } else {
      var p, others := packets[0], packets[1..];
      var later := WireAll(others) + tail;
      DrainsAll(others, tail);
      DrainsFirst(p, later);
      Associative(p.Wire(), WireAll(others), tail);
      WiresStep(packets);
      Associative([p.Wire()], Wires(others), Drained(tail));
    }
  }

  lemma WiresStep(packets: seq<Packet>)
    requires packets != []
    ensures Wires(packets) == [packets[0].Wire()] + Wires(packets[1..])
  {
  }

  /** `arrived` is the first `whole` packets followed by an unfinished one. */
  ghost predicate Splits(packets: seq<Packet>, arrived: seq<byte>, whole: nat, tail: seq<byte>) {
    && whole <= |packets|
    && arrived == WireAll(packets[..whole]) + tail
    && (whole == |packets| ==> tail == [])
    && (whole < |packets| ==> tail < packets[whole].Wire())
  }

  lemma {:induction false} SplitsSomewhere(packets: seq<Packet>, arrived: seq<byte>)
    returns (whole: nat, tail: seq<byte>)
    requires arrived <= WireAll(packets)
    ensures Splits(packets, arrived, whole, tail)
    decreases |packets|
  {
    if packets == [] {
      return 0, [];
    }
    var first, others := packets[0].Wire(), packets[1..];
    if |arrived| < |first| {
      assert arrived == first[..|arrived|];
      assert arrived == WireAll(packets[..0]) + arrived;
      return 0, arrived;
    }
    var later := arrived[|first|..];
    assert arrived == first + later;
    assert WireAll(packets)[|first|..] == WireAll(others);
    var w;
    w, tail := SplitsSomewhere(others, later);
    whole := w + 1;
    PrefixStep(packets, w);
    assert arrived == (first + WireAll(others[..w])) + tail;
  }

  /** Whatever part of a broker's stream has arrived, draining yields the packets that have
      arrived whole, in order and unchanged, and leaves less than one packet behind. */
  lemma DrainRecovers(packets: seq<Packet>, arrived: seq<byte>) returns (whole: nat)
    requires AllValid(packets) && arrived <= WireAll(packets)
    ensures whole <= |packets|
    ensures Drained(arrived) == Wires(packets[..whole])
    ensures Splits(packets, arrived, whole, Residue(arrived))
    ensures |Residue(arrived)| < PACKET_CAPACITY
  {
    var tail;
    whole, tail := SplitsSomewhere(packets, arrived);
    DrainsAll(packets[..whole], tail);
    if whole < |packets| {
      WaitsForAll(packets[whole], |tail|);
      assert tail == packets[whole].Wire()[..|tail|];
    }
    assert Drained(tail) == [] && Residue(tail) == tail;
  }

  lemma PrefixStep(packets: seq<Packet>, w: nat)
    requires w < |packets|
    ensures Wires(packets[..w + 1]) == [packets[0].Wire()] + Wires(packets[1..][..w])
    ensures WireAll(packets[..w + 1]) == packets[0].Wire() + WireAll(packets[1..][..w])
  {
    assert packets[..w + 1][1..] == packets[1..][..w];
  }

  /** The cutter's limit, exactly: a complete packet at the head of the stream is handed on
      if and only if it has at most 1024 bytes. A longer one blocks everything behind it. */
  lemma HeadDelivered(p: Packet, later: seq<byte>)
    requires p.Valid()
    ensures |p.Wire()| <= PACKET_CAPACITY ==> Drained(p.Wire() + later) == [p.Wire()] + Drained(later)
    ensures |p.Wire()| > PACKET_CAPACITY ==> Drained(p.Wire() + later) == [] && Residue(p.Wire() + later) == p.Wire() + later
  {
    CutsExactly(p, later);
    if |p.Wire()| <= PACKET_CAPACITY {
      DrainsFirst(p, later);
    }
  }

  ghost predicate AllSmall(packets: seq<Packet>) {
    forall i :: 0 <= i < |packets| ==> |packets[i].Wire()| <= PACKET_CAPACITY
  }

  lemma SameHead<T>(head: T, a: seq<T>, b: seq<T>)
    ensures [head] + a == [head] + b <==> a == b
  {
    assert ([head] + a)[1..] == a && ([head] + b)[1..] == b;
  }

  /** For the whole stream: all its packets are delivered if and only if none is longer. */
  lemma {:induction false} StreamDelivered(packets: seq<Packet>)
    requires forall i :: 0 <= i < |packets| ==> packets[i].Valid()
    ensures Drained(WireAll(packets)) == Wires(packets) <==> AllSmall(packets)
  {
    if packets != [] {
      var first, others := packets[0], packets[1..];
      HeadDelivered(first, WireAll(others));
      WiresStep(packets);
      StreamDelivered(others);
      SameHead(first.Wire(), Drained(WireAll(others)), Wires(others));
      assert AllSmall(packets) <==> |first.Wire()| <= PACKET_CAPACITY && AllSmall(others);
    }
  }

  /** How one run of the receive loop ended. */
  datatype Ending = Closed | Failed | Overflowed

  /** The inner loop: take packets until none is complete. */
  method DrainInbound(inbound: FixedVec<byte>) returns (packets: seq<seq<byte>>)
    requires inbound.Valid()
    modifies inbound`len, inbound.data
    ensures inbound.Valid()
    ensures packets == Drained(old(inbound.Contents()))
    ensures inbound.Contents() == Residue(old(inbound.Contents()))
  {
    packets := [];
    ghost var start := inbound.Contents();
    var more := true;
    while more
      invariant inbound.Valid()
      invariant packets + Drained(inbound.Contents()) == Drained(start)
      invariant Residue(inbound.Contents()) == Residue(start)
      invariant !more ==> TakeSize(inbound.Contents()).None?
      decreases more, |inbound.Contents()|
    {
      ghost var before := inbound.Contents();
      var packet := TakePacket(inbound);
      match packet {
        case None =>
          more := false;
        case Some(p) =>
          Associative(packets, [p], Drained(inbound.Contents()));
          packets := packets + [p];
      }
    }
  }

  /** A broker's stream never leaves so much behind that the next read could overflow. */
  lemma RoomToRead(sent: seq<Packet>, arrived: seq<byte>)
    requires AllValid(sent) && arrived <= WireAll(sent)
    ensures |Residue(arrived)| + READ_SIZE <= INBOUND_CAPACITY
  {
    var whole := DrainRecovers(sent, arrived);
  }

  /** The loop has handed on `packets` and still holds `rest` of the bytes that arrived. */
  ghost predicate Received(arrived: seq<byte>, packets: seq<seq<byte>>, rest: seq<byte>) {
    packets == Drained(arrived) && rest == Residue(arrived)
  }

  lemma ReceivedMore(arrived: seq<byte>, packets: seq<seq<byte>>, rest: seq<byte>, chunk: seq<byte>)
    requires Received(arrived, packets, rest)
    ensures Received(arrived + chunk, packets + Drained(rest + chunk), Residue(rest + chunk))
  {
    DrainSplit(arrived, chunk);
  }

  /** The drain-then-read loop of the MQTT task, over one connection. Which bytes each read
      returns is up to the network; `arrived` is all of them, after what the buffer held at
      the start. The packets handed on are those of `arrived`, however it was split, and a
      broker that sends valid packets of at most 1024 bytes can never overflow the buffer. */
  method ReceiveLoop(socket: Socket, inbound: FixedVec<byte>, ghost sent: seq<Packet>)
    returns (packets: seq<seq<byte>>, ending: Ending, ghost arrived: seq<byte>, ghost rejected: nat)
    requires inbound.Valid() && inbound.data.Length == INBOUND_CAPACITY
    modifies socket, inbound`len, inbound.data
    ensures inbound.Valid()
    ensures old(inbound.Contents() + socket.pending) == arrived + socket.pending
    ensures ending.Closed? ==> socket.pending == []
    ensures ending.Failed? ==> socket.failed && !socket.reliable
    ensures rejected <= |arrived|
    ensures ending.Overflowed? ==> Received(arrived[..|arrived| - rejected], packets, inbound.Contents())
    ensures ending.Overflowed? ==> rejected <= READ_SIZE && |inbound.Contents()| + rejected > INBOUND_CAPACITY
    ensures !ending.Overflowed? ==> Received(arrived, packets, inbound.Contents())
    ensures AllValid(sent) && old(inbound.Contents() + socket.pending) <= WireAll(sent)
            ==> !ending.Overflowed?
  {
    packets, arrived, rejected := [], inbound.Contents(), 0;
    ghost var stream := arrived + socket.pending;
    while true
      invariant inbound.Valid()
      invariant stream == arrived + socket.pending && rejected <= |arrived|
      invariant Received(arrived, packets + Drained(inbound.Contents()), Residue(inbound.Contents()))
      decreases |socket.pending|
    {
      var cut := DrainInbound(inbound);
      packets := packets + cut;
      if AllValid(sent) && stream <= WireAll(sent) {
        RoomToRead(sent, arrived);
      }
      var chunk := socket.Read(READ_SIZE);
      if chunk.None? {
        return packets, Failed, arrived, 0;
      }
      if chunk.value == [] {
        return packets, Closed, arrived, 0;
      }
      ReceivedMore(arrived, packets, inbound.Contents(), chunk.value);
      Associative(arrived, chunk.value, socket.pending);
      ghost var before := arrived;
      arrived := arrived + chunk.value;
      var fits := inbound.ExtendFromSlice(chunk.value);
      if !fits {
        assert arrived[..|before|] == before;
        return packets, Overflowed, arrived, |chunk.value|;
      }
    }
  }

  /** Once a packet's worth of bytes holds no packet that can be taken, later bytes bring none. */
  lemma TakenByThen(b: seq<byte>, c: seq<byte>)
    requires |b| >= PACKET_CAPACITY && TakeSize(b).None?
    ensures TakeSize(b + c).None?
  {
    if ParseLength(b, 1, 3).Short? {
      ShortIsShort(b, 1, 3);
    }
    ParseStable(b, c, 1, 3);
  }

  lemma {:induction false} ShortIsShort(b: seq<byte>, index: nat, more: nat)
    requires ParseLength(b, index, more).Short?
    ensures |b| <= index + more
    decreases more
  {
    if index < |b| && more > 0 {
      ShortIsShort(b, index + 1, more - 1);
    }
  }

  /** A stream of valid packets of at most 1024 bytes that holds the first of them whole. */
  ghost predicate FirstWhole(stream: seq<byte>, sent: seq<Packet>) {
    sent != [] && AllValid(sent) && stream <= WireAll(sent) && |sent[0].Wire()| <= |stream|
  }

  /** What can be taken of such a stream is its first packet, as soon as that has arrived. */
  lemma FirstTaken(stream: seq<byte>, arrived: seq<byte>, sent: seq<Packet>)
    requires FirstWhole(stream, sent) && arrived <= stream
    ensures if |arrived| < |sent[0].Wire()| then TakeSize(arrived).None?
            else TakeSize(arrived) == Some(|sent[0].Wire()|) && arrived[..|sent[0].Wire()|] == sent[0].Wire()
  {
    var p, n := sent[0], |sent[0].Wire()|;
    assert WireAll(sent) == p.Wire() + WireAll(sent[1..]);
    if |arrived| < n {
      WaitsForAll(p, |arrived|);
      assert arrived == p.Wire()[..|arrived|];
    } else {
      assert arrived == p.Wire() + arrived[n..];
      CutsExactly(p, arrived[n..]);
    }
  }

  /** mqtt_wait_for_packet, which reads the CONNACK and SUBACK before the loop above starts:
      the packet it returns is the first of the stream, and nothing behind it is lost. Without
      a failed read it gives up only when no packet is complete and the stream has ended or
      passes the buffer; so it returns the first packet of every stream that holds it whole. */
  method WaitForPacket(socket: Socket, inbound: FixedVec<byte>, ghost sent: seq<Packet>)
    returns (packet: Option<seq<byte>>, ghost arrived: seq<byte>)
    requires inbound.Valid() && inbound.data.Length == INBOUND_CAPACITY && !socket.failed
    modifies socket, inbound`len, inbound.data
    ensures inbound.Valid()
    ensures old(inbound.Contents() + socket.pending) == arrived + socket.pending
    ensures packet.Some? ==> TakeSize(arrived) == Some(|packet.value|)
    ensures packet.Some? ==> arrived == packet.value + inbound.Contents()
    ensures packet.None? && !socket.failed ==>
              TakeSize(arrived).None? && (socket.pending == [] || |arrived| > INBOUND_CAPACITY)
    ensures FirstWhole(old(inbound.Contents() + socket.pending), sent) ==>
              packet == Some(sent[0].Wire()) || socket.failed
    ensures socket.reliable ==> !socket.failed
  {
    arrived := inbound.Contents();
    ghost var stream := arrived + socket.pending;
    while true
      invariant inbound.Valid() && inbound.Contents() == arrived
      invariant stream == arrived + socket.pending && !socket.failed
      decreases |socket.pending|
    {
      packet := TakePacket(inbound);
      if FirstWhole(stream, sent) {
        FirstTaken(stream, arrived, sent);
      }
      if packet.Some? {
        assert arrived[..|packet.value|] == packet.value;
        return packet, arrived;
      }
      var chunk := socket.Read(READ_SIZE);
      if chunk.None? || chunk.value == [] {
        return None, arrived;
      }
      Associative(arrived, chunk.value, socket.pending);
      ghost var before := arrived;
      arrived := arrived + chunk.value;
      var fits := inbound.ExtendFromSlice(chunk.value);
      if !fits {
        TakenByThen(before, chunk.value);
        return None, arrived;
      }
    }
  }
}
