/** The byte-stream client that the C++ firmware puts on top of WebSocket frames: a transmit
    buffer that collects writes into frames, and a receive buffer that keeps the newest bytes. */
module WebSocket {
  import opened Wrappers

  const RX_CAPACITY: nat := 2048
  const TX_CAPACITY: nat := 1024

  /** The last n bytes, or all of them if there are fewer. */
  function LastBytes(s: seq<byte>, n: nat): (t: seq<byte>)
    ensures |t| == Min(|s|, n)
  {
    if |s| <= n then s else s[|s| - n..]
  }

  /** The unread bytes are the newest of those received, and unless the buffer was ever
      exceeded they are exactly those not yet delivered. */
  ghost predicate Window(received: seq<byte>, delivered: seq<byte>, unread: seq<byte>, overrun: bool) {
    && |unread| <= |received| && unread == received[|received| - |unread|..]
    && (!overrun ==> delivered + unread == received)
  }

  class Client {
    const rxBuffer: array<byte>
    const txBuffer: array<byte>
    const reliable: bool           // the WebSocket library never refuses a frame
    var rxLength: nat
    var txLength: nat
    var connected: bool
    var connectFailed: bool
    ghost var accepted: seq<byte>  // all bytes whose write was accepted, since the last stop
    ghost var sent: seq<byte>      // the payloads of all frames sent since then
    ghost var received: seq<byte>  // all payload bytes that arrived since then
    ghost var delivered: seq<byte> // all bytes handed out by Read since then
    ghost var overrun: bool        // the receive window has ever been exceeded since then

    /** Nothing accepted is lost or reordered on the way out. On the way in the buffer holds
        the newest bytes, and all that are unread unless the window was exceeded. */
    ghost predicate Valid()
      reads this, rxBuffer, txBuffer
    {
      && rxBuffer.Length == RX_CAPACITY && txBuffer.Length == TX_CAPACITY && rxBuffer != txBuffer
      && rxLength <= RX_CAPACITY && txLength <= TX_CAPACITY
      && sent + Pending() == accepted
      && Window(received, delivered, Unread(), overrun)
    }

    ghost function Pending(): seq<byte>
      requires txLength <= txBuffer.Length
      reads this, txBuffer
    {
      txBuffer[..txLength]
    }

    ghost function Unread(): seq<byte>
      requires rxLength <= rxBuffer.Length
      reads this, rxBuffer
    {
      rxBuffer[..rxLength]
    }

    constructor (reliable: bool)
      ensures Valid() && fresh(rxBuffer) && fresh(txBuffer) && this.reliable == reliable
      ensures !connected && accepted == [] && received == [] && !overrun
    {
      rxBuffer, txBuffer, this.reliable := new byte[RX_CAPACITY], new byte[TX_CAPACITY], reliable;
      rxLength, txLength, connected, connectFailed := 0, 0, false, false;
      accepted, sent, received, delivered, overrun := [], [], [], [], false;
    }

    // -------------------------------------------------------------------------
    // Transmit
    // -------------------------------------------------------------------------

    /** Hands one frame to the WebSocket library, which may refuse it. */
    method SendBin(payload: seq<byte>) returns (ok: bool)
      modifies this`sent
      ensures sent == if ok then old(sent) + payload else old(sent)
      ensures reliable ==> ok
    {
      ok := *;
      ok := ok || reliable;
      if ok {
        sent := sent + payload;
      }
    }

    method FlushPendingFrame() returns (ok: bool)
      requires Valid()
      modifies this`sent, this`txLength
      ensures Valid()
      ensures ok ==> txLength == 0 && sent == old(sent + Pending())
      ensures !ok ==> txLength == old(txLength) && sent == old(sent)
      ensures old(txLength) > 0 && !connected ==> !ok
      ensures old(txLength) == 0 || (connected && reliable) ==> ok
    {
      if txLength == 0 {
        assert sent + Pending() == sent;
        return true;
      }
      if !connected {
        return false;
      }
      ok := SendBin(txBuffer[..txLength]);
      if ok {
        txLength := 0;
        assert sent + [] == accepted;
      }
    }

    /** Appends to the transmit buffer what fits there. */
    method Store(bytes: seq<byte>)
      requires Valid() && txLength + |bytes| <= TX_CAPACITY
      modifies this`txLength, this`accepted, txBuffer
      ensures Valid() && accepted == old(accepted) + bytes && txLength == old(txLength) + |bytes|
      ensures Pending() == old(Pending()) + bytes
    {
      ghost var pending := Pending();
      forall k | 0 <= k < |bytes| {
        txBuffer[txLength + k] := bytes[k];
      }
      txLength := txLength + |bytes|;
      accepted := accepted + bytes;
      assert Pending() == pending + bytes;
      assert sent + (pending + bytes) == (sent + pending) + bytes;
    }

    method WriteByte(value: byte) returns (count: nat)
      requires Valid()
      modifies this`sent, this`txLength, this`accepted, txBuffer
      ensures Valid() && count <= 1
      ensures accepted == if count == 1 then old(accepted) + [value] else old(accepted)
      ensures count == 0 ==> old(txLength) == TX_CAPACITY && !(connected && reliable)
      ensures old(txLength) < TX_CAPACITY ==> sent == old(sent)
    {
      if txLength >= TX_CAPACITY {
        var ok := FlushPendingFrame();
        if !ok {
          return 0;
        }
      }
      Store([value]);
      return 1;
    }

    /** All or nothing: the bytes are accepted whole, behind everything accepted before. */
    method Write(bytes: seq<byte>) returns (count: nat)
      requires Valid()
      modifies this`sent, this`txLength, this`accepted, txBuffer
      ensures Valid()
      ensures count == 0 || count == |bytes|
      ensures accepted == if count == 0 then old(accepted) else old(accepted) + bytes
      ensures count == 0 && bytes != [] ==> old(txLength) + |bytes| > TX_CAPACITY && !(connected && reliable)
      ensures old(txLength) + |bytes| <= TX_CAPACITY ==> sent == old(sent)
      ensures count > 0 && old(txLength) + |bytes| > TX_CAPACITY ==>
                sent == old(sent + Pending()) + if |bytes| > TX_CAPACITY then bytes else []
    {
      if |bytes| == 0 {
        return 0;
      }
      if txLength > 0 && txLength + |bytes| <= TX_CAPACITY {
        Store(bytes);
        return |bytes|;
      }
      if txLength > 0 {
        var flushed := FlushPendingFrame();
        if !flushed {
          return 0;
        }
      }
      if |bytes| <= TX_CAPACITY {
        Store(bytes);
        return |bytes|;
      }
      assert sent + [] == sent;
      var ok := SendBin(bytes);
      if ok {
        accepted := accepted + bytes;
        assert sent + [] == accepted;
        return |bytes|;
      }
      return 0;
    }

    // -------------------------------------------------------------------------
    // Receive
    // -------------------------------------------------------------------------

    /** A binary frame: the buffer keeps the newest 2048 bytes of what it held and the
        payload, and every older byte is dropped for good. */
    method AppendRx(payload: seq<byte>)
      requires Valid()
      modifies this`rxLength, this`received, this`overrun, rxBuffer
      ensures Valid()
      ensures Unread() == LastBytes(old(Unread()) + payload, RX_CAPACITY)
      ensures received == old(received) + payload
      ensures overrun == (old(overrun) || old(rxLength) + |payload| > RX_CAPACITY)
    {
      ghost var before := Unread();
      WindowKeeps(received, delivered, before, payload, overrun);
      KeepNewest(payload);
      overrun := overrun || |before| + |payload| > RX_CAPACITY;
      received := received + payload;
    }

    /** appendRx itself: trims the payload, then the buffer, then copies. */
    method KeepNewest(payload: seq<byte>)
      requires rxLength <= rxBuffer.Length == RX_CAPACITY
      modifies this`rxLength, rxBuffer
      ensures rxLength <= RX_CAPACITY
      ensures rxBuffer[..rxLength] == LastBytes(old(rxBuffer[..rxLength]) + payload, RX_CAPACITY)
    {
      NewestKept(rxBuffer[..rxLength], payload);
      if |payload| == 0 {
        return;
      }
      var start := if |payload| > RX_CAPACITY then |payload| - RX_CAPACITY else 0;
      var bytes := payload[start..];
      assert bytes == LastBytes(payload, RX_CAPACITY);
      MakeRoom(|bytes|);
      AppendTail(bytes);
    }

    method AppendTail(bytes: seq<byte>)
      requires rxLength + |bytes| <= rxBuffer.Length
      modifies this`rxLength, rxBuffer
      ensures rxLength <= rxBuffer.Length && rxBuffer[..rxLength] == old(rxBuffer[..rxLength]) + bytes
    {
      forall k | 0 <= k < |bytes| {
        rxBuffer[rxLength + k] := bytes[k];
      }
      rxLength := rxLength + |bytes|;
    }

    /** Drops as much of the front as n further bytes need. */
    method MakeRoom(n: nat)
      requires rxLength <= rxBuffer.Length == RX_CAPACITY && n <= RX_CAPACITY
      modifies this`rxLength, rxBuffer
      ensures rxLength + n <= RX_CAPACITY
      ensures rxBuffer[..rxLength] == LastBytes(old(rxBuffer[..rxLength]), RX_CAPACITY - n)
    {
      if rxLength + n > RX_CAPACITY {
        var overflow := rxLength + n - RX_CAPACITY;
        if overflow >= rxLength {
          rxLength := 0;
        } else {
          DropFront(overflow);
        }
      }
    }

    /** memmove within the receive buffer. */
    method DropFront(n: nat)
      requires n <= rxLength <= rxBuffer.Length
      modifies this`rxLength, rxBuffer
      ensures rxLength == old(rxLength) - n && rxBuffer[..rxLength] == old(rxBuffer[n..rxLength])
    {
      var rest := rxLength - n;
      forall k | 0 <= k < rest {
        rxBuffer[k] := rxBuffer[n + k];
      }
      rxLength := rest;
    }

    /** Reading takes from the front; with the buffer never exceeded, what is read is what
        was received, in order. */
    method Read(size: nat) returns (bytes: seq<byte>)
      requires Valid()
      modifies this`rxLength, this`delivered, rxBuffer
      ensures Valid()
      ensures |bytes| == Min(size, old(rxLength)) && old(Unread()) == bytes + Unread()
      ensures delivered == old(delivered) + bytes
    {
      if size == 0 || rxLength == 0 {
        return [];
      }
      ghost var before := Unread();
      var count := Min(rxLength, size);
      bytes := rxBuffer[..count];
      DropFront(count);
      assert before == bytes + Unread();
      assert delivered + (bytes + Unread()) == (delivered + bytes) + Unread();
      delivered := delivered + bytes;
    }

    method Stop()
      requires Valid()
      modifies this
      ensures Valid() && txLength == 0 && rxLength == 0 && !connected
      ensures accepted == [] && received == [] && !overrun
    {
      txLength, rxLength, connected, connectFailed := 0, 0, false, false;
      accepted, sent, received, delivered, overrun := [], [], [], [], false;
    }

    method SetConnected(up: bool)
      requires Valid()
      modifies this`connected, this`connectFailed
      ensures Valid() && connected == up && connectFailed == !up
    {
      connected, connectFailed := up, !up;
    }
  }

  /** Trimming the payload and then the buffer is keeping the newest bytes of both. */
  lemma NewestKept(unread: seq<byte>, payload: seq<byte>)
    ensures var bytes := LastBytes(payload, RX_CAPACITY);
            LastBytes(unread, RX_CAPACITY - |bytes|) + bytes == LastBytes(unread + payload, RX_CAPACITY)
    ensures payload == [] && |unread| <= RX_CAPACITY ==> LastBytes(unread + payload, RX_CAPACITY) == unread
  {
  }

  /** The receive side of the invariant, one frame later. */
  lemma WindowKeeps(received: seq<byte>, delivered: seq<byte>, unread: seq<byte>, payload: seq<byte>, overrun: bool)
    requires Window(received, delivered, unread, overrun)
    ensures Window(received + payload, delivered, LastBytes(unread + payload, RX_CAPACITY),
                   overrun || |unread| + |payload| > RX_CAPACITY)
  {
    if !overrun && |unread| + |payload| <= RX_CAPACITY {
      assert (delivered + unread) + payload == delivered + (unread + payload);
    }
  }
}
