/** The Rust radar frame parser, as the inverse of a frame encoder. */
module RadarFrame {
  import opened Wrappers
  import opened Radar

  const GATE_COUNT: nat := 16

  type u16 = v: int | 0 <= v < 0x1_0000

  datatype EnergyFrame = EnergyFrame(
    length: nat, payloadLength: u16, presence: bool, distanceCm: u16, gates: seq<u16>)

  function Low(v: u16): byte { v % 256 }

  function High(v: u16): byte { v / 256 }

  function Whole(low: byte, high: byte): u16 { (low as int) + (high as int) * 256 }

  /** The i-th byte of the 45 that carry a frame. */
  function FrameByte(f: EnergyFrame, i: nat): byte
    requires |f.gates| == GATE_COUNT && i < FRAME_LENGTH
  {
    if i < 4 then 0xF4 - i
    else if i < 6 then (if i == 4 then Low(f.payloadLength) else High(f.payloadLength))
    else if i == 6 then (if f.presence then 1 else 0)
    else if i < 9 then (if i == 7 then Low(f.distanceCm) else High(f.distanceCm))
    else if i < 41 then (if i % 2 == 1 then Low(f.gates[(i - 9) / 2]) else High(f.gates[(i - 9) / 2]))
    else 0xF8 - (i - 41)
  }

  function Encode(f: EnergyFrame): seq<byte>
    requires |f.gates| == GATE_COUNT
  {
    seq(FRAME_LENGTH, i requires 0 <= i < FRAME_LENGTH => FrameByte(f, i))
  }

  function ReadLe16(data: seq<byte>, offset: nat): Option<u16> {
    if offset + 1 < |data| then Some(Whole(data[offset], data[offset + 1])) else None
  }

  /** Any length from 45 on is accepted; the footer is looked for at the very end. */
  predicate LooksLikeEnergy(data: seq<byte>) {
    |data| >= FRAME_LENGTH && StartsWithHeader(data, 0) && EndsWithFooter(data, |data|)
  }

  /** What the bytes of a frame say. */
  ghost predicate Says(data: seq<byte>, f: EnergyFrame) {
    && |f.gates| == GATE_COUNT && f.length == |data|
    && ReadLe16(data, 4) == Some(f.payloadLength)
    && ReadLe16(data, 7) == Some(f.distanceCm)
    && (forall i :: 0 <= i < GATE_COUNT ==> ReadLe16(data, 9 + i * 2) == Some(f.gates[i]))
  }

  method TryParseEnergyFrame(data: seq<byte>) returns (frame: Option<EnergyFrame>)
    ensures frame.Some? <==> LooksLikeEnergy(data)
    ensures frame.Some? ==> Says(data, frame.value) && frame.value.presence == (data[6] != 0)
  {
    if |data| < FRAME_LENGTH {
      return None;
    }
    if !StartsWithHeader(data, 0) || !EndsWithFooter(data, |data|) {
      return None;
    }
    var payloadLength, distance := ReadLe16(data, 4), ReadLe16(data, 7);
    var gates := new u16[GATE_COUNT](_ => 0);
    for index := 0 to GATE_COUNT
      invariant forall i :: 0 <= i < index ==> ReadLe16(data, 9 + i * 2) == Some(gates[i])
    {
      gates[index] := ReadLe16(data, 9 + index * 2).value;
    }
    frame := Some(EnergyFrame(|data|, payloadLength.value, data[6] != 0, distance.value, gates[..]));
  }

  lemma HalvesMakeWhole(v: u16)
    ensures Whole(Low(v), High(v)) == v
  {
  }

  lemma WholeMakesHalves(low: byte, high: byte, v: u16)
    requires Whole(low, high) == v
    ensures Low(v) == low && High(v) == high
  {
  }

  /** An encoded frame says what it was made of, and looks like one. */
  lemma {:induction false} EncodedSays(f: EnergyFrame)
    requires |f.gates| == GATE_COUNT && f.length == FRAME_LENGTH
    ensures LooksLikeEnergy(Encode(f)) && Says(Encode(f), f) && (Encode(f)[6] != 0) == f.presence
  {
    var data := Encode(f);
    ReadsHalves(data, 4, f.payloadLength);
    ReadsHalves(data, 7, f.distanceCm);
    forall i | 0 <= i < GATE_COUNT ensures ReadLe16(data, 9 + i * 2) == Some(f.gates[i]) {
      GateHalves(f, i);
      ReadsHalves(data, 9 + i * 2, f.gates[i]);
    }
  }

  lemma GateHalves(f: EnergyFrame, i: nat)
    requires |f.gates| == GATE_COUNT && i < GATE_COUNT
    ensures FrameByte(f, 9 + i * 2) == Low(f.gates[i]) && FrameByte(f, 9 + i * 2 + 1) == High(f.gates[i])
  {
  }

  lemma ReadsHalves(data: seq<byte>, offset: nat, v: u16)
    requires offset + 1 < |data| && data[offset] == Low(v) && data[offset + 1] == High(v)
    ensures ReadLe16(data, offset) == Some(v)
  {
    HalvesMakeWhole(v);
  }

  /** The bytes leave no choice: two frames they say are the same up to presence. */
  lemma SaysOneThing(data: seq<byte>, f: EnergyFrame, g: EnergyFrame)
    requires Says(data, f) && Says(data, g) && f.presence == g.presence
    ensures f == g
  {
    forall i | 0 <= i < GATE_COUNT ensures f.gates[i] == g.gates[i] {
      assert ReadLe16(data, 9 + i * 2) == Some(f.gates[i]);
    }
    assert f.gates == g.gates;
  }

  /** What the parser makes of an encoded frame is the frame. */
  method ParseEncoded(f: EnergyFrame) returns (frame: Option<EnergyFrame>)
    requires |f.gates| == GATE_COUNT && f.length == FRAME_LENGTH
    ensures frame == Some(f)
  {
    EncodedSays(f);
    frame := TryParseEnergyFrame(Encode(f));
    SaysOneThing(Encode(f), frame.value, f);
  }

  lemma {:induction false} GateByte(data: seq<byte>, f: EnergyFrame, i: nat)
    requires |data| == FRAME_LENGTH && Says(data, f) && 9 <= i < 41
    ensures data[i] == FrameByte(f, i)
  {
    var gate := (i - 9) / 2;
    var low := 9 + gate * 2;
    assert ReadLe16(data, low) == Some(f.gates[gate]);
    WholeMakesHalves(data[low], data[low + 1], f.gates[gate]);
    if i % 2 == 1 {
      assert i == low;
    } else {
      assert i == low + 1;
    }
  }

  /** Parsing loses nothing exactly when the datagram is one frame long and its presence byte is
      0 or 1; any other non-zero presence byte is read as 1. */
  lemma {:induction false} EncodeOfParsed(data: seq<byte>, f: EnergyFrame)
    requires LooksLikeEnergy(data) && Says(data, f) && f.presence == (data[6] != 0)
    ensures Encode(f) == data <==> |data| == FRAME_LENGTH && data[6] <= 1
  {
    if |data| == FRAME_LENGTH && data[6] <= 1 {
      WholeMakesHalves(data[4], data[5], f.payloadLength);
      WholeMakesHalves(data[7], data[8], f.distanceCm);
      forall i | 0 <= i < FRAME_LENGTH ensures data[i] == FrameByte(f, i) {
        if 9 <= i < 41 {
          GateByte(data, f, i);
        }
      }
    } else {
      assert |Encode(f)| == FRAME_LENGTH && Encode(f)[6] <= 1;
    }
  }

  /** Only printable characters, carriage return, newline and tab make a text frame. */
  predicate Textish(data: seq<byte>) {
    forall i :: 0 <= i < |data| ==> data[i] in [9, 10, 13] || 32 <= data[i] <= 126
  }

  /** What is not text: controls other than tab, newline and return, and everything above 126. */
  lemma TextishExactly(data: seq<byte>)
    ensures !Textish(data) <==>
      exists i :: 0 <= i < |data| && (data[i] < 9 || data[i] == 11 || data[i] == 12 || 13 < data[i] < 32 || data[i] > 126)
  {
  }

  /** The order in which the parsers are tried does not matter. */
  lemma EnergyIsNeverText(data: seq<byte>)
    ensures !(LooksLikeEnergy(data) && Textish(data))
  {
    if LooksLikeEnergy(data) {
      assert data[0] == 0xF4;
    }
  }
}
