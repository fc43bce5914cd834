/** Bluetooth advertising data: a cursor over length-prefixed structures, and the local name
    found in them. */
module AdStructures {
  import opened Wrappers
  import opened Utf8

  const COMPLETE_NAME: byte := 0x09
  const SHORTENED_NAME: byte := 0x08

  datatype Structure = Structure(kind: byte, data: seq<byte>)

  /** One structure on the air: its length, which counts the kind, then kind and data. */
  ghost function Wire(s: Structure): seq<byte>
    requires |s.data| < 255
  {
    [|s.data| + 1, s.kind] + s.data
  }

  ghost predicate Sendable(list: seq<Structure>) {
    forall i :: 0 <= i < |list| ==> |list[i].data| < 255
  }

  ghost function WireAll(list: seq<Structure>): seq<byte>
    requires Sendable(list)
  {
    if list == [] then [] else Wire(list[0]) + WireAll(list[1..])
  }

  /** Reading stops at the end, at a zero length, and at a structure that is cut short. */
  ghost predicate Stops(payload: seq<byte>) {
    payload == [] || payload[0] == 0 || |payload| <= payload[0]
  }

  ghost function Structures(payload: seq<byte>): seq<Structure> {
    if Stops(payload) then []
    else [Structure(payload[1], payload[2..payload[0] + 1])] + Structures(payload[payload[0] + 1..])
  }

  class Cursor {
    var payload: seq<byte>

    constructor (bytes: seq<byte>)
      ensures payload == bytes
    {
      payload := bytes;
    }

    method Next() returns (found: Option<Structure>)
      modifies this
      ensures found.None? <==> Stops(old(payload))
      ensures found.Some? ==> Structures(old(payload)) == [found.value] + Structures(payload)
      ensures found.Some? ==> |payload| < |old(payload)|
    {
      if payload == [] {
        return None;
      }
      var length := payload[0];
      var rest := payload[1..];
      payload := rest;
      if length == 0 {
        return None;
      }
      if |payload| < length {
        payload := [];
        return None;
      }
      var field := payload[..length];
      payload := payload[length..];
      found := Some(Structure(field[0], field[1..]));
      assert field[1..] == old(payload)[2..length + 1] && payload == old(payload)[length + 1..];
    }
  }

  /** What was sent is read, up to and not beyond the first stop. */
  lemma {:induction false} ReadsSent(list: seq<Structure>, tail: seq<byte>)
    requires Sendable(list)
    ensures Structures(WireAll(list) + tail) == list + Structures(tail)
  {
    if list == [] {
      assert WireAll(list) + tail == tail;
    } else {
      var head, rest := Wire(list[0]), WireAll(list[1..]) + tail;
      ReadsSent(list[1..], tail);
      Associative(head, WireAll(list[1..]), tail);
      ReadsOne(list[0], rest);
      Associative([list[0]], list[1..], Structures(tail));
      assert list == [list[0]] + list[1..];
    }
  }

  lemma ReadsOne(s: Structure, rest: seq<byte>)
    requires |s.data| < 255
    ensures Structures(Wire(s) + rest) == [s] + Structures(rest)
  {
    var payload := Wire(s) + rest;
    assert payload[2..payload[0] + 1] == s.data && payload[payload[0] + 1..] == rest;
  }

  // ---------------------------------------------------------------------------
  // Names
  // ---------------------------------------------------------------------------

  /** The first structure of a kind whose data is text. */
  ghost function FirstText(list: seq<Structure>, kind: byte): Option<seq<byte>> {
    if list == [] then None
    else if list[0].kind == kind && ValidUtf8(list[0].data) then Some(list[0].data)
    else FirstText(list[1..], kind)
  }

  /** A complete name wins over a shortened one, wherever it stands. */
  ghost function NameIn(list: seq<Structure>): seq<byte> {
    match FirstText(list, COMPLETE_NAME)
    case Some(name) => name
    case None =>
      match FirstText(list, SHORTENED_NAME)
      case Some(name) => name
      case None => []
  }

  /** Looks through one payload; `complete` ends the search. */
  method SearchNames(payload: seq<byte>, earlier: Option<seq<byte>>)
    returns (complete: Option<seq<byte>>, shortened: Option<seq<byte>>)
    ensures complete == FirstText(Structures(payload), COMPLETE_NAME)
    ensures complete.None? ==>
      shortened == if earlier.Some? then earlier else FirstText(Structures(payload), SHORTENED_NAME)
  {
    shortened := earlier;
    var cursor := new Cursor(payload);
    while true
      invariant fresh(cursor)
      invariant FirstText(Structures(cursor.payload), COMPLETE_NAME) == FirstText(Structures(payload), COMPLETE_NAME)
      invariant (if shortened.Some? then shortened else FirstText(Structures(cursor.payload), SHORTENED_NAME))
             == if earlier.Some? then earlier else FirstText(Structures(payload), SHORTENED_NAME)
      decreases |cursor.payload|
    {
      ghost var before := Structures(cursor.payload);
      var found := cursor.Next();
      if found.None? {
        return None, shortened;
      }
      assert before[1..] == Structures(cursor.payload);
      if found.value.kind == COMPLETE_NAME && ValidUtf8(found.value.data) {
        return Some(found.value.data), shortened;
      }
      if found.value.kind == SHORTENED_NAME && shortened.None? && ValidUtf8(found.value.data) {
        shortened := Some(found.value.data);
      }
    }
  }

  lemma {:induction false} FirstTextOfBoth(a: seq<Structure>, b: seq<Structure>, kind: byte)
    ensures FirstText(a + b, kind) == if FirstText(a, kind).Some? then FirstText(a, kind) else FirstText(b, kind)
  {
    if a == [] {
      assert a + b == b;
    } else {
      assert (a + b)[1..] == a[1..] + b;
      FirstTextOfBoth(a[1..], b, kind);
    }
  }

  /** The scan response is searched before the advertisement. */
  method ExtractLocalName(advData: seq<byte>, scanData: seq<byte>) returns (name: seq<byte>)
    ensures name == NameIn(Structures(scanData) + Structures(advData))
  {
    FirstTextOfBoth(Structures(scanData), Structures(advData), COMPLETE_NAME);
    FirstTextOfBoth(Structures(scanData), Structures(advData), SHORTENED_NAME);
    var complete, shortened := SearchNames(scanData, None);
    if complete.Some? {
      return complete.value;
    }
    complete, shortened := SearchNames(advData, shortened);
    if complete.Some? {
      return complete.value;
    }
    name := if shortened.Some? then shortened.value else [];
  }

  /** A name that was sent is found: a complete one in either payload, behind any structures of
      other kinds. */
  lemma {:induction false} CompleteNameFound(before: seq<Structure>, name: seq<byte>, after: seq<Structure>)
    requires ValidUtf8(name) && forall i :: 0 <= i < |before| ==> before[i].kind != COMPLETE_NAME
    ensures NameIn(before + [Structure(COMPLETE_NAME, name)] + after) == name
  {
    var found := [Structure(COMPLETE_NAME, name)];
    NoneOfKind(before, COMPLETE_NAME);
    FirstTextOfBoth(before, found, COMPLETE_NAME);
    FirstTextOfBoth(before + found, after, COMPLETE_NAME);
  }

  lemma {:induction false} NoneOfKind(list: seq<Structure>, kind: byte)
    requires forall i :: 0 <= i < |list| ==> list[i].kind != kind
    ensures FirstText(list, kind).None?
  {
    if list != [] {
      NoneOfKind(list[1..], kind);
    }
  }
}
