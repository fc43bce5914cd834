/** The fixed-capacity vector (heapless::Vec and heapless::String) that the Rust firmware
    fills by pushing, and the socket it reads from. */
module Heapless {
  import opened Wrappers

  class FixedVec<T(0)> {
    const data: array<T>
    var len: nat

    ghost predicate Valid()
      reads this
    {
      len <= data.Length
    }

    function Contents(): (s: seq<T>)
      requires Valid()
      reads this, data
    {
      data[..len]
    }

    constructor (capacity: nat)
      ensures Valid() && fresh(data) && data.Length == capacity && Contents() == []
    {
      data := new T[capacity];
      len := 0;
    }

    /** Refuses, and changes nothing, when the vector is full. */
    method Push(x: T) returns (ok: bool)
      requires Valid()
      modifies this`len, data
      ensures Valid()
      ensures ok <==> |old(Contents())| < data.Length
      ensures Contents() == if ok then old(Contents()) + [x] else old(Contents())
    {
      ok := len < data.Length;
      if ok {
        data[len] := x;
        len := len + 1;
      }
    }

    /** Refuses, and changes nothing, when the slice does not fit. */
    method ExtendFromSlice(xs: seq<T>) returns (ok: bool)
      requires Valid()
      modifies this`len, data
      ensures Valid()
      ensures ok <==> |old(Contents())| + |xs| <= data.Length
      ensures Contents() == if ok then old(Contents()) + xs else old(Contents())
    {
      ok := len + |xs| <= data.Length;
      if ok {
        forall i | 0 <= i < |xs| {
          data[len + i] := xs[i];
        }
        len := len + |xs|;
      }
    }

    /** copy_within(from.., 0): the elements after `from` move to the front, the length stays. */
    method CopyToFront(from: nat)
      requires Valid() && from <= len
      modifies data
      ensures Valid() && data[..len - from] == old(data[from..len])
    {
      var n := len - from;
      for k := 0 to n
        invariant data[..k] == old(data[from..from + k])
        invariant forall j :: from + k <= j < len ==> data[j] == old(data[j])
      {
        data[k] := data[k + from];
      }
    }

    method Truncate(newLen: nat)
      requires Valid() && newLen <= len
      modifies this`len
      ensures Valid() && Contents() == old(Contents())[..newLen]
    {
      len := newLen;
    }
  }

  /** A connected socket, seen as the bytes the peer will still deliver. How the network
      splits them is unknown: a read returns any non-empty piece that fits, an empty piece
      only when the stream has ended, and None when the read fails, which no read does on a
      reliable network. */
  class Socket {
    var pending: seq<byte>
    const reliable: bool
    ghost var failed: bool  // some read has failed

    constructor (stream: seq<byte>, reliable: bool)
      ensures pending == stream && this.reliable == reliable && !failed
    {
      pending, this.reliable, failed := stream, reliable, false;
    }

    method Read(limit: nat) returns (chunk: Option<seq<byte>>)
      modifies this
      ensures chunk.None? ==> pending == old(pending) && failed && !reliable
      ensures chunk.Some? ==> failed == old(failed)
      ensures chunk.Some? ==> old(pending) == chunk.value + pending && |chunk.value| <= limit
      ensures chunk.Some? ==> (chunk.value == [] <==> limit == 0 || old(pending) == [])
    {
      var fails: bool := *;
      if fails && !reliable {
        failed := true;
        return None;
      }
      if limit == 0 || pending == [] {
        return Some([]);
      }
      var most: nat := Min(limit, |pending|);
      var size: nat :| 1 <= size <= most;
      chunk := Some(pending[..size]);
      pending := pending[size..];
    }
  }
}
