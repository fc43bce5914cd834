/** A flash region: erasing sets bytes to 0xFF, and programming can only clear bits, so a
    byte holds what was written to it only if it was erased and not written before. */
module Flash {
  import opened Wrappers

  const ERASED: byte := 0xFF
  const WORD: nat := 4

  /** Bitwise and of the low `bits` bits. */
  function And(a: nat, b: nat, bits: nat): (r: nat)
    ensures r <= b
  {
    if bits == 0 then 0
    else 2 * And(a / 2, b / 2, bits - 1) + if a % 2 == 1 && b % 2 == 1 then 1 else 0
  }

  ghost function PowerOfTwo(n: nat): nat { if n == 0 then 1 else 2 * PowerOfTwo(n - 1) }

  lemma {:induction false} AndOnes(b: nat, bits: nat)
    requires b < PowerOfTwo(bits)
    ensures PowerOfTwo(bits) >= 1 && And(PowerOfTwo(bits) - 1, b, bits) == b
  {
    if bits > 0 {
      AndOnes(b / 2, bits - 1);
    }
  }

  /** What a cell holds after a byte is programmed over it. */
  function Programmed(cell: byte, b: byte): byte {
    And(cell, b, 8)
  }

  lemma ErasedCellTakes(b: byte)
    ensures Programmed(ERASED, b) == b
  {
    assert PowerOfTwo(8) == 256 by {
      assert PowerOfTwo(8) == 16 * PowerOfTwo(4);
    }
    AndOnes(b, 8);
  }

  ghost function Erased(cells: seq<byte>, length: nat): seq<byte> {
    seq(|cells|, k requires 0 <= k < |cells| => if k < length then ERASED else cells[k])
  }

  ghost function Burned(cells: seq<byte>, offset: nat, data: seq<byte>): seq<byte> {
    seq(|cells|, k requires 0 <= k < |cells| =>
      if offset <= k < offset + |data| then Programmed(cells[k], data[k - offset]) else cells[k])
  }

  datatype Write = Write(offset: nat, data: seq<byte>)

  class Region {
    const cells: array<byte>
    const eraseSize: nat
    const reliable: bool       // no operation within the region ever fails
    ghost var log: seq<Write>  // every successful write, oldest first

    ghost predicate Valid() {
      && 0 < eraseSize && eraseSize % WORD == 0
      && cells.Length % eraseSize == 0 && cells.Length % WORD == 0 && cells.Length <= U32_MAX
    }

    constructor (capacity: nat, eraseSize: nat, reliable: bool)
      requires 0 < eraseSize && eraseSize % WORD == 0 && capacity % eraseSize == 0 && capacity % WORD == 0 && capacity <= U32_MAX
      ensures Valid() && cells.Length == capacity && this.eraseSize == eraseSize && fresh(cells) && log == []
      ensures this.reliable == reliable
    {
      cells := new byte[capacity](_ => 0);
      this.eraseSize, this.reliable := eraseSize, reliable;
      log := [];
    }

    /** Erases [0, length). May fail, like any flash operation. */
    method Erase(length: nat) returns (ok: bool)
      requires Valid()
      modifies cells
      ensures ok ==> length <= cells.Length && length % eraseSize == 0
      ensures ok ==> cells[..] == Erased(old(cells[..]), length)
      ensures reliable ==> (ok <==> length <= cells.Length && length % eraseSize == 0)
    {
      ok := *;
      ok := ok || reliable;
      if !ok || length > cells.Length || length % eraseSize != 0 {
        return false;
      }
      forall k | 0 <= k < length {
        cells[k] := ERASED;
      }
    }

    /** Programs whole words at a word-aligned offset inside the region, or fails. */
    method Program(offset: nat, data: seq<byte>) returns (ok: bool)
      requires Valid()
      modifies cells, this`log
      ensures ok ==> offset % WORD == 0 && |data| % WORD == 0 && offset + |data| <= cells.Length
      ensures ok ==> log == old(log) + [Write(offset, data)]
      ensures ok ==> cells[..] == Burned(old(cells[..]), offset, data)
      ensures reliable ==>
        (ok <==> offset % WORD == 0 && |data| % WORD == 0 && offset + |data| <= cells.Length)
    {
      ok := *;
      ok := ok || reliable;
      if !ok || offset % WORD != 0 || |data| % WORD != 0 || offset + |data| > cells.Length {
        return false;
      }
      forall k | 0 <= k < |data| {
        cells[offset + k] := Programmed(cells[offset + k], data[k]);
      }
      log := log + [Write(offset, data)];
    }
  }
}
