/**
 The PS2's side of the request connection, as the fake ps2link of the tests plays it, joined to
 the client's request service. The peer waits for each response before it asks again, so one
 exchange at a time crosses the connection.
 */
module Peer {
  import opened Bytes
  import opened Utility
  import opened Protocol
  import opened Network
  import H = HostFiles
  import S = ServerSpec
  import F = ServerFacts
  import opened Server

  const CHUNK: nat := 128 * 1024

  /** Transfers may be short, but are not interrupted and do not fail. */
  ghost predicate Steady(script: seq<Outcome>) {
    Interrupted !in script && Broken !in script
  }

  lemma SteadyRest(script: seq<Outcome>, rest: seq<Outcome>)
    requires rest == if script == [] then [] else script[1..]
    ensures Steady(script) ==> Steady(rest)
  {
  }

  /** What a peer gets that opens, reads to the end and closes; an empty file gives nothing. */
  function Loaded(st: S.State, name: seq<byte>, flags: uint32): Option<seq<byte>> {
    var (after, reply) := S.Open(st, flags, name);
    if reply.result < 0 then None
    else
      match after.host.handles[reply.result]
      case NullDevice => None
      case OpenFile(path, _, fixed) =>
        if fixed.access.WriteOnly? || path !in after.host.files || after.host.files[path] == [] then None
        else Some(after.host.files[path])
  }

  /** The descriptor an OPEN returns is new, and what the peer gets is what can be read through it. */
  lemma LoadedThrough(st: S.State, name: seq<byte>, flags: uint32)
    ensures var (after, reply) := S.Open(st, flags, name);
            var (h, fd) := (after.host, reply.result);
            if fd < 0 then Loaded(st, name, flags).None? && h.handles == st.host.handles
            else
              && H.NewHandle(h, fd) && fd !in st.host.handles && h.handles - {fd} == st.host.handles
              && Loaded(st, name, flags) ==
                 if H.Readable(h, fd) && h.files[h.handles[fd].path] != [] then Some(h.files[h.handles[fd].path]) else None
  {
    var (after, reply) := S.Open(st, flags, name);
    if reply.result >= 0 {
      assert after.host.handles == st.host.handles[reply.result := after.host.handles[reply.result]];
    }
  }

  /** Closing a descriptor that was read leaves the files and the other descriptors as they were. */
  lemma ClosedAfterReading(start: S.State, st: S.State, fd: int32, n: nat)
    requires fd in start.host.handles && (st.host == start.host || H.Reading(st.host, start.host, fd, n))
    ensures var closed := S.Close(st, fd).0.host;
            closed.files == start.host.files && closed.handles == start.host.handles - {fd}
  {
  }

  lemma NothingToFix(path: seq<byte>, name: seq<byte>)
    requires path != [] && BACKSLASH !in path && 0 !in path && path[0] != SLASH && |path| < PATH_SIZE - 1
    requires name == path || name == [SLASH] + path
    ensures FixedPath(name) == path && 0 !in name && |name| < PATH_SIZE
  {
    PlainPath(path);
  }

  /** The name in the client's DUMPREG command is the ping file's, as it is and with a slash in front. */
  lemma PingName(name: seq<byte>)
    requires name == S.PING || name == [SLASH] + S.PING
    ensures FixedPath(name) == S.PING && 0 !in name && |name| < PATH_SIZE
  {
    S.PingBytes();
    NothingToFix(S.PING, name);
  }

  /** OPEN, WRITE and CLOSE of the ping file, one after the other. */
  lemma PingRound(st: S.State, name: seq<byte>, flags: uint32, data: seq<byte>)
    requires FixedPath(name) == S.PING
    ensures var (after, reply) := S.Open(st, flags, name);
            var fd := reply.result;
            var closed := S.Close(S.Write(after, fd, data).0, fd).0;
            if H.NextDescriptor(st.host).None? then fd < 0 && after.host == st.host && after.answered == st.answered
            else fd >= 0 && closed.answered && closed.pingFd == -1 && closed.host == st.host
  {
    var (after, reply) := S.Open(st, flags, name);
    if reply.result >= 0 {
      assert after.host.handles - {reply.result} == st.host.handles;
    }
  }

  lemma FrameIsGood(r: Request)
    requires Askable(r)
    ensures GoodFrame(FrameOf(r))
  {
    RequestRoundTrip(r);
  }

  /** One request alone on the wire is one whole frame, in its documented shape. */
  lemma OneFrame(r: Request)
    requires Askable(r)
    ensures GoodFrame(FrameOf(r)) && NextFrame(EncodeFrame(FrameOf(r))) == Some((FrameOf(r), []))
  {
    FrameIsGood(r);
    NextEncoded(FrameOf(r), []);
    assert EncodeFrame(FrameOf(r)) + [] == EncodeFrame(FrameOf(r));
  }

  lemma OneShaped(st: S.State, r: Request)
    requires Askable(r)
    ensures GoodFrame(FrameOf(r)) && S.ShapedStream(EncodeFrame(FrameOf(r)))
  {
    F.ServeRequest(st, [], r, []);
    assert EncodeFrame(FrameOf(r)) + [] == EncodeFrame(FrameOf(r));
  }

  /** Performing it is handling the request and sending the reply. */
  lemma OneRequest(st: S.State, r: Request)
    requires Askable(r) && Recognised(NumberOf(r))
    ensures GoodFrame(FrameOf(r)) && Shaped(FrameOf(r).number, FrameOf(r).body)
    ensures var (next, reply) := S.Handle(st, r);
            && reply.Some? && GoodReply(NumberOf(r), reply.value)
            && S.Perform(st, FrameOf(r)) == (next, EncodeReply(NumberOf(r), reply.value))
  {
    F.PerformRequest(st, r);
  }

  class FakePs2link {
    const link: Connection
    const server: RequestServer
    const packet: array<byte>

    /** Between exchanges nothing is on the way. */
    ghost predicate Idle()
      reads this, link, server, server.link, server.slots
    {
      && link != server.link && packet.Length == PACKET_SIZE && server.Valid()
      && link.incoming == link.outgoing == server.link.incoming == server.link.outgoing == []
      && Steady(link.receives) && Steady(link.sends) && server.link.Reliable()
    }

    /** Both ends of a new connection, and whatever pieces its transfers come in. */
    constructor (server: RequestServer, receives: seq<Outcome>, sends: seq<Outcome>)
      requires server.Valid() && server.link.incoming == server.link.outgoing == [] && server.link.Reliable()
      requires Steady(receives) && Steady(sends)
      ensures this.server == server && fresh(link) && fresh(packet) && Idle()
    {
      this.server := server;
      link := new Connection([], receives, sends);
      packet := new byte[PACKET_SIZE];
    }

    /** recv_exact: an interrupted call is a failure here. */
    method ReceiveExact(buffer: array<byte>, length: nat) returns (ok: bool)
      requires length <= buffer.Length
      modifies link`incoming, link`receives, buffer
      ensures old(Steady(link.receives)) ==> Steady(link.receives) && (ok <==> length <= |old(link.incoming)|)
      ensures ok ==>
                && length <= |old(link.incoming)| && link.incoming == old(link.incoming)[length..]
                && buffer[..length] == old(link.incoming)[..length]
    {
      ghost var (start, stream) := (buffer[..], link.incoming);
      var done := 0;
      while done < length
        invariant 0 <= done <= length && done <= |stream|
        invariant link.incoming == stream[done..] && (old(Steady(link.receives)) ==> Steady(link.receives))
        invariant buffer[..] == Filled(start, 0, stream[..done])
      {
        ghost var script := link.receives;
        var received, _ := link.Receive(buffer, done, length - done);
        SteadyRest(script, link.receives);
        if received <= 0 { return false; }
        FilledMore(start, 0, stream, done, received);
        done := done + received;
      }
      FilledFront(start, stream[..length]);
      assert buffer[..length] == buffer[..][..length];
      return true;
    }

    /** send_exact: an interrupted call is a failure here; a front of the data may have gone out. */
    method SendExact(data: seq<byte>) returns (ok: bool)
      modifies link`outgoing, link`sends
      ensures ok ==> link.outgoing == old(link.outgoing) + data
      ensures old(link.outgoing) <= link.outgoing <= old(link.outgoing) + data
      ensures old(Steady(link.sends)) ==> Steady(link.sends) && ok
    {
      var done := 0;
      while done < |data|
        invariant 0 <= done <= |data|
        invariant link.outgoing == old(link.outgoing) + data[..done]
        invariant old(Steady(link.sends)) ==> Steady(link.sends)
      {
        ghost var script := link.sends;
        var sent, _ := link.Send(data[done..]);
        SteadyRest(script, link.sends);
        if sent <= 0 { return false; }
        assert data[..done] + data[done..][..sent] == data[..done + sent];
        done := done + sent;
      }
      assert data[..|data|] == data;
      return true;
    }

    /** request_locked: the header, the payload and the data, one after the other. */
    method Request(number: uint32, payload: seq<byte>, data: seq<byte>) returns (ok: bool)
      requires GoodFrame(Frame(number, payload, data))
      modifies link`outgoing, link`sends
      ensures ok ==> link.outgoing == old(link.outgoing) + EncodeFrame(Frame(number, payload, data))
      ensures old(Steady(link.sends)) ==> Steady(link.sends) && ok
    {
      ghost var before := link.outgoing;
      ok := SendExact(EncodeHeader(number, |payload|));
      if !ok { return; }
      ok := SendExact(payload);
      if !ok { return; }
      ok := SendExact(data);
      AppendAssociative(EncodeHeader(number, |payload|), payload, data);
      AppendAssociative(before, EncodeHeader(number, |payload|), payload);
      AppendAssociative(before, EncodeHeader(number, |payload|) + payload, data);
    }

    /** What was sent reaches the client, the client serves it, and its answer comes back. */
    method Deliver(ghost r: Protocol.Request) returns (ghost reply: Reply)
      requires Askable(r) && Recognised(NumberOf(r)) && GoodFrame(FrameOf(r)) && link.outgoing == EncodeFrame(FrameOf(r))
      requires link != server.link && packet.Length == PACKET_SIZE && server.Valid() && server.link.Reliable()
      requires link.incoming == server.link.incoming == server.link.outgoing == []
      modifies link`incoming, link`outgoing, packet, server, server.link, server.slots
      ensures server.Valid() && server.link.Reliable()
      ensures link.outgoing == server.link.incoming == server.link.outgoing == []
      ensures S.Handle(old(server.State()), r) == (server.State(), Some(reply))
      ensures GoodReply(NumberOf(r), reply) && link.incoming == EncodeReply(NumberOf(r), reply)
    {
      OneFrame(r);
      OneShaped(server.State(), r);
      OneRequest(server.State(), r);
      reply := S.Handle(server.State(), r).1.value;
      server.link.incoming := link.outgoing;
      link.outgoing := [];
      var _, _ := server.ServeNext(packet);
      link.incoming := server.link.outgoing;
      server.link.outgoing := [];
    }

    /** The result of the response that has come, for every request without data in the response. */
    method ReadResult(number: uint32, ghost reply: Reply) returns (result: int32)
      requires Steady(link.receives) && Recognised(number) && number != READ && ExtraSize(number) == 0
      requires GoodReply(number, reply) && link.incoming == EncodeReply(number, reply)
      modifies link`incoming, link`receives
      ensures Steady(link.receives) && link.incoming == [] && result == reply.result
    {
      var buffer := new byte[10];
      ghost var stream := link.incoming;
      ReplyRoundTrip(number, reply, []);
      assert stream + [] == stream && |stream| == 10;
      var _ := ReceiveExact(buffer, 10);
      assert buffer[..] == stream && buffer[6..] == stream[6..];
      return Signed(Get32(buffer[6..]));
    }

    /** The size and the data of a READ response; -1 for an error or too much data. */
    method ReadData(buffer: array<byte>, size: nat, ghost reply: Reply) returns (count: int32)
      requires Steady(link.receives) && GoodReply(READ, reply) && -1 <= reply.result <= size <= buffer.Length
      requires link.incoming == EncodeReply(READ, reply)
      modifies link`incoming, link`receives, buffer
      ensures Steady(link.receives) && link.incoming == [] && count == reply.result
      ensures buffer[..|reply.data|] == reply.data
    {
      var head := new byte[14];
      ghost var stream := link.incoming;
      ReplyRoundTrip(READ, reply, []);
      assert stream + [] == stream;
      var _ := ReceiveExact(head, 14);
      assert head[..] == stream[..14];
      assert Get32(stream[10..]) == Get32(head[10..]) by {
        assert head[10..] == stream[10..14];
      }
      count := Signed(Get32(head[10..]));
      if count < 0 || count > size { return -1; }
      if count != 0 {
        var _ := ReceiveExact(buffer, count);
      }
    }

    /** A request and its response, for every request without data in the response. */
    method AskResult(number: uint32, payload: seq<byte>, data: seq<byte>, ghost r: Protocol.Request) returns (result: int32)
      requires Idle() && Askable(r) && FrameOf(r) == Frame(number, payload, data)
      requires Recognised(number) && number != READ && ExtraSize(number) == 0
      modifies link, packet, server, server.link, server.slots
      ensures Idle() && S.Handle(old(server.State()), r) == (server.State(), Some(Reply(result, [])))
    {
      FrameIsGood(r);
      var _ := Request(number, payload, data);
      ghost var reply := Deliver(r);
      result := ReadResult(number, reply);
    }

    method FakeOpen(name: seq<byte>, flags: uint32) returns (result: int32)
      requires Idle() && |name| < PATH_SIZE && 0 !in name
      modifies link, packet, server, server.link, server.slots
      ensures Idle() && S.Handle(old(server.State()), Protocol.Open(flags, name)) == (server.State(), Some(Reply(result, [])))
    {
      result := AskResult(OPEN, Put32(flags) + PathField(name), [], Protocol.Open(flags, name));
    }

    method FakeClose(fd: int32)
      requires Idle()
      modifies link, packet, server, server.link, server.slots
      ensures Idle() && S.Handle(old(server.State()), Protocol.Close(fd)).0 == server.State()
    {
      var _ := AskResult(CLOSE, Put32(Unsigned(fd)), [], Protocol.Close(fd));
    }

    method FakeWrite(fd: int32, data: seq<byte>) returns (result: int32)
      requires Idle() && |data| < 0x8000_0000
      modifies link, packet, server, server.link, server.slots
      ensures Idle() && S.Handle(old(server.State()), Protocol.Write(fd, data)) == (server.State(), Some(Reply(result, [])))
    {
      result := AskResult(WRITE, Put32(Unsigned(fd)) + Put32(|data|), data, Protocol.Write(fd, data));
    }

    method FakeRead(fd: int32, buffer: array<byte>, size: nat) returns (count: int32)
      requires Idle() && size <= buffer.Length && size < 0x8000_0000 && buffer != packet
      modifies link, packet, server, server.link, server.slots, buffer
      ensures Idle()
      ensures var (next, reply) := S.Read(old(server.State()), fd, size);
              server.State() == next && count == reply.result && |reply.data| <= size && buffer[..|reply.data|] == reply.data
    {
      FrameIsGood(Protocol.Read(fd, size));
      var _ := Request(READ, Put32(Unsigned(fd)) + Put32(size), []);
      ghost var reply := Deliver(Protocol.Read(fd, size));
      count := ReadData(buffer, size, reply);
    }

    /** The read loop of load_file; the buffer grows as needed. */
    method ReadToEnd(fd: int32) returns (n: int32, data: seq<byte>)
      requires Idle() && H.NewHandle(server.host, fd)
      modifies link, packet, server, server.link, server.slots
      ensures Idle() && var start := old(server.host);
              if H.Readable(start, fd)
              then n == 0 && data == start.files[start.handles[fd].path] && H.Reading(server.host, start, fd, |data|)
              else n == -1 && data == [] && server.host == start
      ensures server.State() == old(server.State()).(host := server.host)
    {
      ghost var start := server.host;
      H.ReadingStarts(start, fd);
      ghost var contents := if H.Readable(start, fd) then start.files[start.handles[fd].path] else [];
      var chunk := new byte[CHUNK];
      data := [];
      while true
        invariant Idle() && fresh(chunk)
        invariant server.State() == old(server.State()).(host := server.host)
        invariant |data| <= |contents| && data == contents[..|data|]
        invariant if H.Readable(start, fd) then H.Reading(server.host, start, fd, |data|) else server.host == start
        decreases |contents| - |data|
      {
        ghost var before := server.host;
        n := FakeRead(fd, chunk, CHUNK);
        if H.Readable(start, fd) { H.ReadStep(before, start, fd, |data|, CHUNK); }
        if n <= 0 { break; }
        assert contents[..|data| + n] == contents[..|data|] + contents[|data|..|data| + n];
        data := data + chunk[..n];
      }
    }

    /** What the peer does with a DUMPREG command: the handshake is answered unless no descriptor is left. */
    method DumpRegisters(name: seq<byte>)
      requires Idle() && |name| < PATH_SIZE && 0 !in name && FixedPath(name) == S.PING
      modifies link, packet, server, server.link, server.slots
      ensures Idle() && server.host == old(server.host)
      ensures H.NextDescriptor(server.host).Some? ==> server.answered && server.pingFd == -1
      ensures H.NextDescriptor(server.host).None? ==> server.answered == old(server.answered)
    {
      var zeros: seq<byte> := [0, 0, 0, 0, 0, 0, 0, 0];
      PingRound(server.State(), name, 0x0202, zeros);
      var fd := FakeOpen(name, 0x0202);
      if fd >= 0 {
        var _ := FakeWrite(fd, zeros);
        FakeClose(fd);
      }
    }

    /** The DUMPREG command with the name the client gives it, as it is or with a slash in front. */
    method AnswerHandshake(name: seq<byte>)
      requires Idle() && (name == S.PING || name == [SLASH] + S.PING)
      modifies link, packet, server, server.link, server.slots
      ensures Idle() && server.host == old(server.host)
      ensures server.answered <==> old(server.answered) || H.NextDescriptor(server.host).Some?
    {
      PingName(name);
      DumpRegisters(name);
    }

    /** load_file */
    method LoadFile(name: seq<byte>, flags: uint32) returns (contents: Option<seq<byte>>)
      requires Idle() && |name| < PATH_SIZE && 0 !in name
      modifies link, packet, server, server.link, server.slots
      ensures Idle() && contents == Loaded(old(server.State()), name, flags)
      ensures server.host.files == S.Open(old(server.State()), flags, name).0.host.files
      ensures server.host.handles == old(server.host.handles)
    {
      LoadedThrough(server.State(), name, flags);
      var fd := FakeOpen(name, flags);
      if fd < 0 { return None; }
      ghost var atOpen := server.State();
      var n, data := ReadToEnd(fd);
      ClosedAfterReading(atOpen, server.State(), fd, |data|);
      FakeClose(fd);
      return if n < 0 || data == [] then None else Some(data);
    }
  }

  /** An existing, non-empty file opened to be read comes over whole and is left as it is. */
  lemma LoadsTheFile(st: S.State, name: seq<byte>, flags: uint32)
    requires var path := FixedPath(name);
             path != S.PING && path in st.host.files && path !in st.host.dirs && H.NextDescriptor(st.host).Some?
    requires !FixFlags(flags).access.WriteOnly? && !FixFlags(flags).truncate
    ensures var contents := st.host.files[FixedPath(name)];
            Loaded(st, name, flags) == (if contents == [] then None else Some(contents))
            && S.Open(st, flags, name).0.host.files == st.host.files
  {
    assert st.host.files == st.host.files[FixedPath(name) := st.host.files[FixedPath(name)]];
  }
}
