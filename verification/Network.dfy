/** A TCP connection that delivers in pieces of any size, and the loops that make up for it. */
module Network {
  import opened Bytes

  /** What one send or receive call does: move some bytes, get interrupted (EINTR), or fail. */
  datatype Outcome = Moved(n: nat) | Interrupted | Broken

  /** A buffer after `data` has been stored at `at`. */
  function Filled(buffer: seq<byte>, at: nat, data: seq<byte>): (r: seq<byte>)
    requires at + |data| <= |buffer|
    ensures |r| == |buffer| && r[..at] == buffer[..at]
    ensures r[at..at + |data|] == data && r[at + |data|..] == buffer[at + |data|..]
  {
    buffer[..at] + data + buffer[at + |data|..]
  }

  lemma FilledMore(buffer: seq<byte>, at: nat, stream: seq<byte>, n: nat, m: nat)
    requires n + m <= |stream| && at + n + m <= |buffer|
    ensures Filled(Filled(buffer, at, stream[..n]), at + n, stream[n..][..m]) == Filled(buffer, at, stream[..n + m])
    ensures stream[n..][m..] == stream[n + m..]
  {
    var (x, y) := (stream[..n], stream[n..][..m]);
    assert stream[..n + m] == x + y;
    assert Filled(buffer, at, x)[at + n + m..] == buffer[at + n + m..];
    assert Filled(buffer, at, x)[..at + n] == buffer[..at] + x;
  }

  lemma FilledFrame(buffer: seq<byte>, at: nat, data: seq<byte>, end: nat)
    requires at + |data| <= end <= |buffer|
    ensures Filled(buffer, at, data)[end..] == buffer[end..]
  {
    assert Filled(buffer, at, data)[end..] == Filled(buffer, at, data)[at + |data|..][end - at - |data|..];
  }

  lemma FilledFront(buffer: seq<byte>, data: seq<byte>)
    requires |data| <= |buffer|
    ensures Filled(buffer, 0, data)[..|data|] == data
  {
  }

  /**
   One end of a connection. `incoming` holds the bytes the other end has sent, in order,
   `outgoing` the bytes sent from this end. The scripts say what the next calls do; a call
   beyond its script moves all it can. An empty `incoming` means the other end has closed.
   After a failed receive nothing more arrives.
   */
  class Connection {
    var incoming: seq<byte>
    var outgoing: seq<byte>
    var receives: seq<Outcome>
    var sends: seq<Outcome>

    /** No call is going to fail; short and interrupted calls are allowed. */
    ghost predicate Reliable()
      reads this
    {
      Broken !in receives && Broken !in sends
    }

    constructor (incoming: seq<byte>, receives: seq<Outcome>, sends: seq<Outcome>)
      ensures this.incoming == incoming && outgoing == []
      ensures this.receives == receives && this.sends == sends
    {
      this.incoming, outgoing, this.receives, this.sends := incoming, [], receives, sends;
    }

    /** recvfrom */
    method Receive(buffer: array<byte>, at: nat, size: nat) returns (received: int, interrupted: bool)
      requires 0 < size && at + size <= buffer.Length
      modifies this`incoming, this`receives, buffer
      ensures received <= size
      ensures received <= 0 ==> buffer[..] == old(buffer[..])
      ensures received <= 0 ==> incoming == if received < 0 && interrupted then old(incoming) else []
      ensures 0 < received ==>
                && received <= |old(incoming)| && incoming == old(incoming)[received..]
                && buffer[..] == Filled(old(buffer[..]), at, old(incoming)[..received])
      ensures received == 0 ==> old(incoming) == []
      ensures received < 0 ==> old(receives) != [] && old(receives)[0] == if interrupted then Interrupted else Broken
      ensures receives == if old(receives) == [] then [] else old(receives)[1..]
    {
      var outcome := if receives == [] then Moved(size) else receives[0];
      if receives != [] { receives := receives[1..]; }
      if outcome.Interrupted? { return -1, true; }
      if outcome.Broken? { incoming := []; return -1, false; }
      received, interrupted := Min(Min(Max(outcome.n, 1), size), |incoming|), false;
      forall i | 0 <= i < received {
        buffer[at + i] := incoming[i];
      }
      incoming := incoming[received..];
    }

    /** One call of the receive loop, after `total` bytes of the stream. */
    method ReceiveMore(buffer: array<byte>, at: nat, total: nat, size: int, ghost start: seq<byte>, ghost stream: seq<byte>)
      returns (received: int, interrupted: bool)
      requires total < size && at + size <= buffer.Length == |start| && total <= |stream|
      requires buffer[..] == Filled(start, at, stream[..total]) && incoming == stream[total..]
      modifies this`incoming, this`receives, buffer
      ensures received <= size - total
      ensures received <= 0 ==>
                && buffer[..] == old(buffer[..])
                && incoming == if received < 0 && interrupted then old(incoming) else []
      ensures received == 0 ==> total == |stream|
      ensures 0 < received ==>
                && total + received <= |stream| && incoming == stream[total + received..]
                && buffer[..] == Filled(start, at, stream[..total + received])
      ensures received < 0 ==> old(receives) != [] && old(receives)[0] == if interrupted then Interrupted else Broken
      ensures receives == if old(receives) == [] then [] else old(receives)[1..]
    {
      received, interrupted := Receive(buffer, at + total, size - total);
      if 0 < received { FilledMore(start, at, stream, total, received); }
    }

    /** The receive loop: how much came before the size was reached or a call gave nothing. */
    method ReceiveUpTo(buffer: array<byte>, at: nat, size: int) returns (total: nat)
      requires at + Max(size, 0) <= buffer.Length
      modifies this`incoming, this`receives, buffer
      ensures total <= Max(size, 0) && total <= |old(incoming)|
      ensures buffer[..] == Filled(old(buffer[..]), at, old(incoming)[..total])
      ensures incoming == if total < size then [] else old(incoming)[total..]
      ensures Broken !in old(receives) ==> Broken !in receives && (total < size ==> total == |old(incoming)|)
    {
      ghost var (start, stream) := (buffer[..], incoming);
      total := 0;
      while total < size
        invariant 0 <= total <= Max(size, 0) && total <= |stream|
        invariant buffer[..] == Filled(start, at, stream[..total])
        invariant incoming == stream[total..]
        invariant Broken !in old(receives) ==> Broken !in receives
        decreases size - total, |receives|
      {
        var received, interrupted := ReceiveMore(buffer, at, total, size, start, stream);
        if received <= 0 {
          if received < 0 && interrupted { continue; }
          return;
        }
        total := total + received;
      }
    }

    /** network_receive_all */
    method ReceiveAll(buffer: array<byte>, at: nat, size: int) returns (result: int)
      requires at + Max(size, 0) <= buffer.Length
      modifies this`incoming, this`receives, buffer
      ensures result == -1 || result == Max(size, 0)
      ensures result >= 0 ==>
                && |old(incoming)| >= result
                && buffer[..] == Filled(old(buffer[..]), at, old(incoming)[..result])
                && incoming == old(incoming)[result..]
      ensures buffer[..at] == old(buffer[..at])
      ensures buffer[at + Max(size, 0)..] == old(buffer[at + Max(size, 0)..])
      ensures |incoming| <= |old(incoming)|
      ensures Broken !in old(receives) ==> Broken !in receives
      ensures Broken !in old(receives) ==> (result == -1 <==> |old(incoming)| < Max(size, 0))
      ensures result == -1 ==> incoming == []
    {
      ghost var (start, stream) := (buffer[..], incoming);
      var total := ReceiveUpTo(buffer, at, size);
      FilledFrame(start, at, stream[..total], at + Max(size, 0));
      assert buffer[at + Max(size, 0)..] == buffer[..][at + Max(size, 0)..];
      assert buffer[..at] == buffer[..][..at] == start[..at];
      return if total < size then -1 else total;
    }

    /** send */
    method Send(data: seq<byte>) returns (sent: int, interrupted: bool)
      requires data != []
      modifies this`outgoing, this`sends
      ensures sent <= |data| && sent != 0
      ensures outgoing == old(outgoing) + if sent > 0 then data[..sent] else []
      ensures sent < 0 ==> old(sends) != [] && old(sends)[0] == if interrupted then Interrupted else Broken
      ensures sends == if old(sends) == [] then [] else old(sends)[1..]
    {
      var outcome := if sends == [] then Moved(|data|) else sends[0];
      if sends != [] { sends := sends[1..]; }
      if outcome.Interrupted? { return -1, true; }
      if outcome.Broken? { return -1, false; }
      sent, interrupted := Min(Max(outcome.n, 1), |data|), false;
      outgoing := outgoing + data[..sent];
    }

    /** network_send: a size that is not positive sends nothing. */
    method SendAll(data: seq<byte>, size: int) returns (result: int)
      requires size <= |data|
      modifies this`outgoing, this`sends
      ensures result == -1 || result == Max(size, 0)
      ensures result >= 0 ==> outgoing == old(outgoing) + data[..result]
      ensures old(outgoing) <= outgoing <= old(outgoing) + data[..Max(size, 0)]
      ensures Broken !in old(sends) ==> Broken !in sends && result >= 0
    {
      var total := 0;
      while total < size
        invariant 0 <= total <= Max(size, 0)
        invariant outgoing == old(outgoing) + data[..total]
        invariant Broken !in old(sends) ==> Broken !in sends
        decreases size - total, |sends|
      {
        var sent, interrupted := Send(data[total..size]);
        if sent <= 0 {
          if sent < 0 && interrupted { continue; }
          return -1;
        }
        assert data[..total] + data[total..size][..sent] == data[..total + sent];
        total := total + sent;
      }
      return total;
    }
  }
}
