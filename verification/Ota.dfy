/** The Rust firmware's OTA partition writer: chunks of any size are realigned to flash
    words, the target is erased first, and every word is programmed once. */
module Ota {
  import opened Wrappers
  import opened Flash

  // ---------------------------------------------------------------------------
  // What is on the flash
  // ---------------------------------------------------------------------------

  /** The erased part of the region holds `data` followed by untouched erased cells. */
  ghost predicate Holds(cells: seq<byte>, data: seq<byte>, erased: nat) {
    && erased <= |cells|
    && forall k :: 0 <= k < erased ==> cells[k] == if k < |data| then data[k] else ERASED
  }

  /** The writes lay `data` out from offset 0: whole words, each starting where the one
      before it ended. */
  ghost predicate LaysOut(writes: seq<Write>, data: seq<byte>) {
    if writes == [] then data == []
    else
      var last := writes[|writes| - 1];
      && last.offset + |last.data| == |data| && last.data != []
      && last.offset % WORD == 0 && |last.data| % WORD == 0
      && last.data == data[last.offset..]
      && LaysOut(writes[..|writes| - 1], data[..last.offset])
  }

  ghost predicate Covers(writes: seq<Write>, i: nat, k: nat) {
    i < |writes| && writes[i].offset <= k < writes[i].offset + |writes[i].data|
  }

  /** Each write carries its own stretch of the data, and the writes go upwards: of any two
      the earlier one ends before the later one begins. */
  lemma {:induction false} LaidOutInOrder(writes: seq<Write>, data: seq<byte>)
    requires LaysOut(writes, data)
    ensures forall i :: 0 <= i < |writes| ==> writes[i].offset % WORD == 0 && writes[i].offset + |writes[i].data| <= |data|
    ensures forall i, k :: 0 <= i < |writes| && 0 <= k < |writes[i].data| ==>
              writes[i].data[k] == data[writes[i].offset + k]
    ensures forall i, j :: 0 <= i < j < |writes| ==> writes[i].offset + |writes[i].data| <= writes[j].offset
  {
    if writes != [] {
      var front, last := writes[..|writes| - 1], writes[|writes| - 1];
      LaidOutInOrder(front, data[..last.offset]);
      forall i, k | 0 <= i < |writes| && 0 <= k < |writes[i].data|
        ensures writes[i].data[k] == data[writes[i].offset + k]
      {
        if i < |front| {
          assert writes[i] == front[i];
        }
      }
    }
  }

  /** And every byte of the data is written: with the order above, exactly once. */
  lemma {:induction false} LaidOutWhole(writes: seq<Write>, data: seq<byte>, k: nat) returns (i: nat)
    requires LaysOut(writes, data) && k < |data|
    ensures Covers(writes, i, k)
  {
    var last := writes[|writes| - 1];
    if k < last.offset {
      i := LaidOutWhole(writes[..|writes| - 1], data[..last.offset], k);
    } else {
      i := |writes| - 1;
    }
  }

  function Padding(n: nat): nat { (WORD - n % WORD) % WORD }

  /** The image as it ends up on flash: filled up to a whole word with 0xFF. */
  function Padded(image: seq<byte>): (p: seq<byte>)
    ensures |p| % WORD == 0 && |image| <= |p| < |image| + WORD && image <= p
  {
    image + seq(Padding(|image|), _ => ERASED)
  }

  /** How much of the partition is erased before the first write. */
  function EraseLength(imageLength: Option<nat>, capacity: nat, eraseSize: nat): nat
    requires eraseSize > 0
  {
    match imageLength
    case None => capacity
    case Some(n) => Min(NextMultiple(Min(n, capacity), eraseSize), capacity)
  }

  /** next_multiple_of. */
  function NextMultiple(n: nat, m: nat): (r: nat)
    requires m > 0
    ensures n <= r < n + m && r % m == 0
  {
    var excess := n % m;
    if excess == 0 then n
    else
      Remainder(n + m - excess, m, n / m + 1, 0);
      n + m - excess
  }

  /** Euclidean division is unique. */
  lemma Remainder(n: nat, m: nat, q: nat, r: nat)
    requires m > 0 && r < m && n == q * m + r
    ensures n / m == q && n % m == r
  {
    assert n == (n / m) * m + n % m;
    Apart(q, n / m, m);
    Apart(n / m, q, m);
  }

  lemma {:induction false} Apart(q: nat, p: nat, m: nat)
    ensures q > p ==> q * m >= p * m + m
  {
    if q > p {
      assert q * m == (q - 1) * m + m;
      Apart(q - 1, p, m);
    }
  }

  /** What is erased covers the announced image, in whole words, with not a block to spare. */
  lemma EraseCovers(imageLength: Option<nat>, capacity: nat, eraseSize: nat)
    requires eraseSize > 0 && eraseSize % WORD == 0 && capacity % eraseSize == 0
    ensures var erased := EraseLength(imageLength, capacity, eraseSize);
            && erased <= capacity && erased % eraseSize == 0 && erased % WORD == 0
            && Min(if imageLength.Some? then imageLength.value else capacity, capacity) <= erased
            && (imageLength.Some? ==> erased < Min(imageLength.value, capacity) + eraseSize)
  {
    WordsInBlocks(EraseLength(imageLength, capacity, eraseSize), eraseSize);
  }

  lemma WordsInBlocks(n: nat, block: nat)
    requires block > 0 && block % WORD == 0 && n % block == 0
    ensures n % WORD == 0
  {
    var q, w := n / block, block / WORD;
    assert n == q * block;
    Regroup(q, w);
    Remainder(n, WORD, q * w, 0);
  }

  lemma Regroup(q: nat, w: nat)
    ensures q * (w * WORD) == (q * w) * WORD
  {
  }

  /** Programming the next words over erased cells. */
  lemma ProgramExtends(cells: seq<byte>, done: seq<byte>, data: seq<byte>, erased: nat)
    requires Holds(cells, done, erased)
    ensures Holds(Burned(cells, |done|, data), done + data, erased)
  {
    var after := Burned(cells, |done|, data);
    forall k | 0 <= k < erased
      ensures after[k] == if k < |done + data| then (done + data)[k] else ERASED
    {
      if |done| <= k < |done| + |data| {
        ErasedCellTakes(data[k - |done|]);
      }
    }
  }

  lemma LayOutNext(writes: seq<Write>, done: seq<byte>, data: seq<byte>)
    requires LaysOut(writes, done) && data != [] && |done| % WORD == 0 && |data| % WORD == 0
    ensures LaysOut(writes + [Write(|done|, data)], done + data)
  {
    var more := writes + [Write(|done|, data)];
    assert more[..|more| - 1] == writes && (done + data)[..|done|] == done;
  }

  /** Everything the flash knows about the data programmed so far: the cells as they were when
      writing began, with the data burned in from offset 0. */
  ghost predicate OnFlash(cells: seq<byte>, initial: seq<byte>, writes: seq<Write>, done: seq<byte>) {
    |done| % WORD == 0 && |done| <= |cells| && cells == Burned(initial, 0, done) && LaysOut(writes, done)
  }

  lemma BurnedNext(initial: seq<byte>, done: seq<byte>, data: seq<byte>)
    ensures Burned(Burned(initial, 0, done), |done|, data) == Burned(initial, 0, done + data)
  {
  }

  lemma EmitKeeps(cells: seq<byte>, initial: seq<byte>, writes: seq<Write>, done: seq<byte>, data: seq<byte>)
    requires OnFlash(cells, initial, writes, done)
    requires data != [] && |data| % WORD == 0 && |done| + |data| <= |cells|
    ensures OnFlash(Burned(cells, |done|, data), initial, writes + [Write(|done|, data)], done + data)
  {
    BurnedNext(initial, done, data);
    LayOutNext(writes, done, data);
  }

  /** Over erased cells the data is held as it is. */
  lemma BurnedHolds(initial: seq<byte>, done: seq<byte>, erased: nat)
    requires Holds(initial, [], erased)
    ensures Holds(Burned(initial, 0, done), done, erased)
  {
    ProgramExtends(initial, [], done, erased);
    assert [] + done == done;
  }

  /** The partition as a download finds it after erasing for an image of this length. */
  ghost function Prepared(cells: seq<byte>, imageLength: Option<nat>, eraseSize: nat): seq<byte>
    requires eraseSize > 0
  {
    Erased(cells, EraseLength(imageLength, |cells|, eraseSize))
  }

  /** The trailing word, with its unused bytes still 0xFF, is the padding. */
  lemma PadsOut(done: seq<byte>, word: seq<byte>, n: nat)
    requires |done| % WORD == 0 && |word| == WORD && 0 < n < WORD
    requires forall k :: n <= k < WORD ==> word[k] == ERASED
    ensures done + word == Padded(done + word[..n])
  {
    assert Padding(|done| + n) == WORD - n;
    assert word == word[..n] + seq(WORD - n, _ => ERASED);
  }

  /** If the next word does not fit, not even its first byte does. */
  lemma NoRoom(done: nat, n: nat, capacity: nat)
    requires done % WORD == 0 && capacity % WORD == 0 && n > 0
    ensures done + WORD > capacity ==> done + n > capacity
  {
  }

  lemma WholeWords(n: nat)
    ensures (n - n % WORD) % WORD == 0 && n - n % WORD <= n
  {
  }

  // ---------------------------------------------------------------------------
  // The writer
  // ---------------------------------------------------------------------------

  class PartitionWriter {
    const partition: Region
    const trailing: array<byte>
    var offset: nat
    var trailingLen: nat
    var totalBytes: nat
    ghost var fed: seq<byte>     // every byte handed to WriteChunk so far
    ghost var done: seq<byte>    // what has been programmed
    ghost const initial: seq<byte>  // the partition when writing began
    ghost var writes: seq<Write> // the writes of this writer, after those logged before it
    ghost const earlier: seq<Write>

    ghost predicate Valid()
      reads this, trailing, partition, partition.cells
    {
      && Programmed()
      && trailingLen < WORD
      && fed == done + trailing[..trailingLen]
      && totalBytes == Min(|fed|, U32_MAX)
    }

    /** The flash agrees with what the writer thinks it has programmed. */
    ghost predicate Programmed()
      reads this, trailing, partition, partition.cells
    {
      && partition.Valid() && trailing.Length == WORD && trailing != partition.cells
      && offset == |done|
      && trailingLen <= WORD
      && (forall k :: trailingLen <= k < WORD ==> trailing[k] == ERASED)
      && partition.log == earlier + writes
      && OnFlash(partition.cells[..], initial, writes, done)
    }

    /** The counter never saturates: it would take more bytes than the flash can hold. */
    lemma CounterExact()
      requires Valid()
      ensures totalBytes == |fed|
    {
      assert |done| <= partition.cells.Length && partition.cells.Length % WORD == 0;
    }

    constructor Over(partition: Region)
      requires partition.Valid()
      ensures Valid() && this.partition == partition && initial == partition.cells[..] && fed == [] && fresh(trailing)
      ensures earlier == partition.log && writes == []
    {
      this.partition := partition;
      this.trailing := new byte[WORD](_ => ERASED);
      offset, trailingLen, totalBytes := 0, 0, 0;
      initial, earlier, writes, fed, done := partition.cells[..], partition.log, [], [], [];
    }

    /** Erases the target and starts writing; null if the erase fails. */
    static method Open(partition: Region, imageLength: Option<nat>) returns (writer: PartitionWriter?)
      requires partition.Valid()
      modifies partition.cells
      ensures writer != null ==>
                && fresh(writer) && fresh(writer.trailing) && writer.Valid()
                && writer.partition == partition && writer.fed == []
                && writer.earlier == partition.log
                && writer.initial == Prepared(old(partition.cells[..]), imageLength, partition.eraseSize)
      ensures writer == null ==> !partition.reliable
    {
      EraseCovers(imageLength, partition.cells.Length, partition.eraseSize);
      var length := EraseLength(imageLength, partition.cells.Length, partition.eraseSize);
      var ok := partition.Erase(Min(length, U32_MAX));
      if !ok {
        return null;
      }
      writer := new PartitionWriter.Over(partition);
    }

    /** One flash write at the current offset. */
    method Emit(data: seq<byte>) returns (ok: bool)
      requires Programmed() && data != []
      modifies this`offset, this`done, this`writes, partition.cells, partition`log
      ensures ok ==> Programmed() && done == old(done) + data
      ensures !ok && partition.reliable ==> |data| % WORD != 0 || |old(done)| + |data| > partition.cells.Length
    {
      ghost var before := partition.cells[..];
      ok := partition.Program(offset, data);
      if !ok {
        return;
      }
      EmitKeeps(before, initial, writes, done, data);
      writes := writes + [Write(|done|, data)];
      offset := SaturatingAdd(offset, |data|);
      done := done + data;
    }

    /** Between the steps of WriteChunk: `chunk` is what is still to be taken up. */
    ghost predicate Taking(chunk: seq<byte>)
      reads this, trailing, partition, partition.cells
    {
      && Programmed()
      && fed == done + (trailing[..trailingLen] + chunk)
      && totalBytes == Min(|fed|, U32_MAX)
    }

    method WriteChunk(bytes: seq<byte>) returns (ok: bool)
      requires Valid()
      modifies this, trailing, partition.cells, partition`log
      ensures ok ==> Valid() && fed == old(fed) + bytes
      ensures !ok && partition.reliable ==> |old(fed)| + |bytes| > partition.cells.Length
    {
      totalBytes := SaturatingAdd(totalBytes, |bytes|);
      Associative(done, trailing[..trailingLen], bytes);
      fed := fed + bytes;
      ok := TakeUp(bytes);
    }

    /** The trailing word first, then whole words, and what is left over is held back. */
    method TakeUp(bytes: seq<byte>) returns (ok: bool)
      requires Taking(bytes) && trailingLen < WORD
      modifies this`offset, this`done, this`writes, this`trailingLen, trailing, partition.cells, partition`log
      ensures ok ==> Valid()
      ensures !ok && partition.reliable ==> |fed| > partition.cells.Length
    {
      var chunk := bytes;
      if trailingLen > 0 {
        ok, chunk := TopUp(chunk);
        if !ok {
          return;
        }
      }
      WholeWords(|chunk|);
      var alignedLen := |chunk| - |chunk| % WORD;
      if alignedLen > 0 {
        ok := EmitAligned(chunk, alignedLen);
        if !ok {
          return;
        }
        chunk := chunk[alignedLen..];
      }
      if chunk != [] {
        chunk := FillTrailing(chunk);
      }
      assert trailing[..trailingLen] + [] == trailing[..trailingLen];
      ok := true;
    }

    /** Fills the trailing word first, and programs it if that completes it. */
    method TopUp(chunk: seq<byte>) returns (ok: bool, rest: seq<byte>)
      requires Taking(chunk) && trailingLen < WORD
      modifies this`offset, this`done, this`writes, this`trailingLen, trailing, partition.cells, partition`log
      ensures ok ==> Taking(rest) && trailingLen < WORD && (trailingLen == 0 || rest == [])
      ensures !ok && partition.reliable ==> |fed| > partition.cells.Length
    {
      ok := true;
      rest := FillTrailing(chunk);
      if trailingLen == WORD {
        ok := EmitTrailing(rest);
      }
    }

    /** Programs the full trailing word and empties it. */
    method EmitTrailing(ghost chunk: seq<byte>) returns (ok: bool)
      requires Taking(chunk) && trailingLen == WORD
      modifies this`offset, this`done, this`writes, this`trailingLen, trailing, partition.cells, partition`log
      ensures ok ==> Taking(chunk) && trailingLen == 0
      ensures !ok && partition.reliable ==> |fed| > partition.cells.Length
    {
      ghost var before := done;
      var word := trailing[..];
      ok := Emit(word);
      if !ok {
        return;
      }
      ResetTrailing();
      assert before + (word + chunk) == (before + word) + chunk;
      assert trailing[..0] + chunk == chunk;
    }

    /** Programs the whole words of the chunk straight from it. */
    method EmitAligned(chunk: seq<byte>, alignedLen: nat) returns (ok: bool)
      requires Taking(chunk) && trailingLen == 0 && 0 < alignedLen <= |chunk| && alignedLen % WORD == 0
      modifies this`offset, this`done, this`writes, partition.cells, partition`log
      ensures ok ==> Taking(chunk[alignedLen..])
      ensures !ok && partition.reliable ==> |fed| > partition.cells.Length
    {
      ghost var before, words, rest := done, chunk[..alignedLen], chunk[alignedLen..];
      assert trailing[..0] + chunk == words + rest;
      ok := Emit(chunk[..alignedLen]);
      if !ok {
        return;
      }
      assert before + (words + rest) == (before + words) + rest;
      assert trailing[..0] + rest == rest;
    }

    /** Moves what fits from the front of the chunk into the trailing word. */
    method FillTrailing(chunk: seq<byte>) returns (rest: seq<byte>)
      requires Taking(chunk)
      modifies this`trailingLen, trailing
      ensures Taking(rest)
      ensures var fill := Min(WORD - old(trailingLen), |chunk|);
              rest == chunk[fill..] && trailingLen == old(trailingLen) + fill
    {
      var fill := Min(WORD - trailingLen, |chunk|);
      ghost var word := trailing[..trailingLen];
      forall k | 0 <= k < fill {
        trailing[trailingLen + k] := chunk[k];
      }
      trailingLen := trailingLen + fill;
      rest := chunk[fill..];
      assert trailing[..trailingLen] == word + chunk[..fill];
      assert trailing[..trailingLen] + rest == word + chunk;
    }

    method ResetTrailing()
      requires Programmed()
      modifies this`trailingLen, trailing
      ensures Programmed() && trailingLen == 0
    {
      forall k | 0 <= k < WORD {
        trailing[k] := ERASED;
      }
      trailingLen := 0;
    }

    /** Programs the last word, with its unused bytes as they were reset. */
    method EmitPadding() returns (ok: bool)
      requires Valid() && trailingLen > 0
      modifies this`offset, this`done, this`writes, this`trailingLen, trailing, partition.cells, partition`log
      ensures ok ==> Programmed() && done == Padded(old(fed)) && trailingLen == 0
      ensures !ok && partition.reliable ==> |old(fed)| > partition.cells.Length
    {
      var word := trailing[..];
      assert word[..trailingLen] == trailing[..trailingLen];
      PadsOut(done, word, trailingLen);
      NoRoom(|done|, trailingLen, partition.cells.Length);
      ok := Emit(word);
      if ok {
        ResetTrailing();
      }
    }

    /** Programs the last, padded word. The partition then holds the whole padded image. */
    method Finish() returns (ok: bool)
      requires Valid()
      modifies this, trailing, partition.cells, partition`log
      ensures ok ==> Programmed() && done == Padded(old(fed)) && totalBytes == |old(fed)| && trailingLen == 0
      ensures !ok && partition.reliable ==> |old(fed)| > partition.cells.Length
    {
      CounterExact();
      if trailingLen == 0 {
        assert trailing[..0] == [];
        return true;
      }
      ok := EmitPadding();
    }
  }

  /** An image no longer than what was erased is written within the erased range only. */
  lemma WritesInside(writes: seq<Write>, image: seq<byte>, erased: nat)
    requires LaysOut(writes, Padded(image)) && |image| <= erased && erased % WORD == 0
    ensures forall i :: 0 <= i < |writes| ==> writes[i].offset + |writes[i].data| <= erased
  {
    LaidOutInOrder(writes, Padded(image));
  }

  /** And it is on the flash to the last byte. */
  lemma ImageOnFlash(cells: seq<byte>, image: seq<byte>, erased: nat)
    requires Holds(cells, Padded(image), erased) && |image| <= erased && erased % WORD == 0
    ensures |Padded(image)| <= erased && cells[..|Padded(image)|] == Padded(image)
  {
    var p := Padded(image);
    assert |p| <= erased;
    forall k | 0 <= k < |p| ensures cells[k] == p[k] {
    }
  }
}
