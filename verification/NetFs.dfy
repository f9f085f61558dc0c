/**
 The ps2netfs client commands under the copy loops: one command packet out, one response in, with
 file data behind a WRITE command and behind a READ response. The server may answer anything, or be
 an honest one that keeps files.
 */
module NetFs {
  import opened Bytes
  import opened Network
  import opened Utility
  import P = Protocol
  import H = HostFiles

  const NETFS_OPEN: uint32 := 0xBEEF8011
  const NETFS_CLOSE: uint32 := 0xBEEF8021
  const NETFS_READ: uint32 := 0xBEEF8031
  const NETFS_WRITE: uint32 := 0xBEEF8041
  const NETFS_LSEEK: uint32 := 0xBEEF8051

  datatype Command =
    | Open(path: seq<byte>, flags: uint32)
    | Close(fd: int32)
    | Read(fd: int32, size: nat)
    | Write(fd: int32, data: seq<byte>)
    | Lseek(fd: int32, offset: int32, whence: uint32)

  /** A command that got its response: the result, and the data a READ brought. */
  datatype Exchange = Exchange(command: Command, result: int32, data: seq<byte>)

  function Packet(number: uint32, body: seq<byte>): seq<byte>
    requires P.HEADER + |body| < 0x1_0000
  {
    P.EncodeHeader(number, |body|) + body
  }

  predicate Sendable(c: Command) {
    match c
    case Open(path, _) => |path| < P.PATH_SIZE && 0 !in path
    case Read(_, size) => size < 0x8000_0000
    case Write(_, data) => |data| < 0x8000_0000
    case _ => true
  }

  function Encode(c: Command): seq<byte>
    requires Sendable(c)
  {
    match c
    case Open(path, flags) => Packet(NETFS_OPEN, Put32(flags) + P.PathField(path))
    case Close(fd) => Packet(NETFS_CLOSE, Put32(Unsigned(fd)))
    case Read(fd, size) => Packet(NETFS_READ, Put32(Unsigned(fd)) + Put32(size))
    case Write(fd, data) => Packet(NETFS_WRITE, Put32(Unsigned(fd)) + Put32(|data|)) + data
    case Lseek(fd, offset, whence) => Packet(NETFS_LSEEK, Put32(Unsigned(fd)) + (Put32(Unsigned(offset)) + Put32(whence)))
  }

  /** A server that reads the packets field by field; None for anything but these five commands. */
  function Decode(stream: seq<byte>): Option<(Command, seq<byte>)> {
    if |stream| < P.HEADER || P.HeaderLength(stream) < P.HEADER || |stream| < P.HeaderLength(stream) then None else
      var (number, body, rest) := (P.HeaderNumber(stream), stream[P.HEADER..P.HeaderLength(stream)], stream[P.HeaderLength(stream)..]);
      if number == NETFS_OPEN && |body| == 260 then Some((Open(CString(body[4..]), Get32(body)), rest))
      else if number == NETFS_CLOSE && |body| == 4 then Some((Close(Signed(Get32(body))), rest))
      else if number == NETFS_READ && |body| == 8 then Some((Read(Signed(Get32(body)), Get32(body[4..])), rest))
      else if number == NETFS_WRITE && |body| == 8 && |rest| >= Get32(body[4..]) then
        Some((Write(Signed(Get32(body)), rest[..Get32(body[4..])]), rest[Get32(body[4..])..]))
      else if number == NETFS_LSEEK && |body| == 12 then
        Some((Lseek(Signed(Get32(body)), Signed(Get32(body[4..])), Get32(body[8..])), rest))
      else None
  }

  lemma PacketRoundTrip(number: uint32, body: seq<byte>, rest: seq<byte>)
    requires P.HEADER + |body| < 0x1_0000
    ensures var s := Packet(number, body) + rest;
            && P.HeaderNumber(s) == number && P.HeaderLength(s) == P.HEADER + |body| <= |s|
            && s[P.HEADER..P.HeaderLength(s)] == body && s[P.HeaderLength(s)..] == rest
  {
    var s := Packet(number, body) + rest;
    assert s == P.EncodeHeader(number, |body|) + (body + rest);
    P.HeaderRoundTrip(number, |body|, body + rest);
  }

  lemma WriteRoundTrip(fd: int32, data: seq<byte>, rest: seq<byte>)
    requires |data| < 0x8000_0000
    ensures Decode(Encode(Write(fd, data)) + rest) == Some((Write(fd, data), rest))
  {
    var body := Put32(Unsigned(fd)) + Put32(|data|);
    PacketRoundTrip(NETFS_WRITE, body, data + rest);
    P.TwoFieldsRoundTrip(Unsigned(fd), |data|);
    SignedOfUnsigned(fd);
    AppendAssociative(Packet(NETFS_WRITE, body), data, rest);
    SliceOfFront(data, rest);
  }

  lemma SliceOfFront(a: seq<byte>, b: seq<byte>)
    ensures (a + b)[..|a|] == a && (a + b)[|a|..] == b
  {
  }

  /** A command says to the server exactly what the client asked, and where the next one starts. */
  lemma CommandRoundTrip(c: Command, rest: seq<byte>)
    requires Sendable(c)
    ensures Decode(Encode(c) + rest) == Some((c, rest))
  {
    match c
    case Open(path, flags) =>
      PacketRoundTrip(NETFS_OPEN, Put32(flags) + P.PathField(path), rest);
      P.PathRoundTrip(flags, path);
    case Close(fd) =>
      PacketRoundTrip(NETFS_CLOSE, Put32(Unsigned(fd)), rest);
      P.FieldRoundTrip(Unsigned(fd));
      SignedOfUnsigned(fd);
    case Read(fd, size) =>
      PacketRoundTrip(NETFS_READ, Put32(Unsigned(fd)) + Put32(size), rest);
      P.TwoFieldsRoundTrip(Unsigned(fd), size);
      SignedOfUnsigned(fd);
    case Write(fd, data) => WriteRoundTrip(fd, data, rest);
    case Lseek(fd, offset, whence) =>
      PacketRoundTrip(NETFS_LSEEK, Put32(Unsigned(fd)) + (Put32(Unsigned(offset)) + Put32(whence)), rest);
      P.ThreeFieldsRoundTrip(Unsigned(fd), Unsigned(offset), whence);
      SignedOfUnsigned(fd);
      SignedOfUnsigned(offset);
  }

  /** The answer at the front of the response stream; None when it is cut off or has more data than asked for. */
  function Answer(c: Command, stream: seq<byte>): Option<(int32, seq<byte>, seq<byte>)> {
    var head := if c.Read? then 14 else 10;
    if |stream| < head then None else
      var result := Signed(Get32(stream[6..]));
      if !c.Read? || result < 0 then Some((result, [], stream[head..]))
      else if result > c.size || |stream| < head + result then None
      else Some((result, stream[head..head + result], stream[head + result..]))
  }

  /** The packet of every command, byte offset by byte offset: the number, the length, and the fields in their places. */
  lemma CommandLayout(c: Command)
    requires Sendable(c)
    ensures var s := Encode(c);
            match c
            case Open(path, flags) =>
              |s| == 266 && Get32(s) == 0xBEEF8011 && Get16(s[4..]) == 266 && Get32(s[6..]) == flags && CString(s[10..]) == path
            case Close(fd) => |s| == 10 && Get32(s) == 0xBEEF8021 && Get16(s[4..]) == 10 && Signed(Get32(s[6..])) == fd
            case Read(fd, size) =>
              |s| == 14 && Get32(s) == 0xBEEF8031 && Get16(s[4..]) == 14 && Signed(Get32(s[6..])) == fd && Get32(s[10..]) == size
            case Write(fd, data) =>
              |s| == 14 + |data| && Get32(s) == 0xBEEF8041 && Get16(s[4..]) == 14 && Signed(Get32(s[6..])) == fd
              && Get32(s[10..]) == |data| && s[14..] == data
            case Lseek(fd, offset, whence) =>
              |s| == 18 && Get32(s) == 0xBEEF8051 && Get16(s[4..]) == 18 && Signed(Get32(s[6..])) == fd
              && Signed(Get32(s[10..])) == offset && Get32(s[14..]) == whence
  {
    var s := Encode(c);
    match c
    case Open(path, flags) =>
      PacketStart(NETFS_OPEN, Put32(flags) + P.PathField(path), []);
      P.PathLayout(s, flags, path);
    case Close(fd) =>
      PacketStart(NETFS_CLOSE, Put32(Unsigned(fd)), []);
      SignedOfUnsigned(fd);
      assert s[6..] == Put32(Unsigned(fd)) + [];
      P.OneField(s, 6, Unsigned(fd), []);
    case Read(fd, size) =>
      PacketStart(NETFS_READ, Put32(Unsigned(fd)) + Put32(size), []);
      SignedOfUnsigned(fd);
      assert s[6..] == Put32(Unsigned(fd)) + (Put32(size) + []);
      P.TwoFields(s, Unsigned(fd), size, []);
    case Write(fd, data) =>
      PacketStart(NETFS_WRITE, Put32(Unsigned(fd)) + Put32(|data|), data);
      SignedOfUnsigned(fd);
      assert s[6..] == Put32(Unsigned(fd)) + (Put32(|data|) + data);
      P.TwoFields(s, Unsigned(fd), |data|, data);
    case Lseek(fd, offset, whence) =>
      PacketStart(NETFS_LSEEK, Put32(Unsigned(fd)) + (Put32(Unsigned(offset)) + Put32(whence)), []);
      SignedOfUnsigned(fd);
      SignedOfUnsigned(offset);
      assert s[6..] == Put32(Unsigned(fd)) + (Put32(Unsigned(offset)) + (Put32(whence) + []));
      P.TwoFields(s, Unsigned(fd), Unsigned(offset), Put32(whence) + []);
      P.OneField(s, 14, whence, []);
  }

  lemma PacketStart(number: uint32, body: seq<byte>, data: seq<byte>)
    requires P.HEADER + |body| < 0x1_0000
    ensures var s := Packet(number, body) + data;
            && |s| == 6 + |body| + |data| && Get32(s) == number && Get16(s[4..]) == 6 + |body| && s[6..] == body + data
            && (data == [] ==> s == Packet(number, body) && s[6..] == body)
  {
    PacketRoundTrip(number, body, data);
    var s := Packet(number, body) + data;
    assert s[6..] == s[6..6 + |body|] + s[6 + |body|..];
  }

  /** What a server sends for a result; a READ response has a size field, and its data follows. */
  function EncodeAnswer(number: uint32, c: Command, result: int32, size: uint32, data: seq<byte>): seq<byte> {
    P.EncodeHeader(number, if c.Read? then 8 else 4) + (Put32(Unsigned(result)) + ((if c.Read? then Put32(size) else []) + data))
  }

  /** The client takes the result and the data off the stream, and refuses only more data than it asked for. */
  lemma AnswerRoundTrip(number: uint32, c: Command, result: int32, size: uint32, data: seq<byte>, rest: seq<byte>)
    requires |data| == if c.Read? then Max(0, result) else 0
    ensures Answer(c, EncodeAnswer(number, c, result, size, data) + rest) ==
            if c.Read? && result > c.size then None else Some((result, data, rest))
  {
    var extra := if c.Read? then Put32(size) else [];
    var stream := EncodeAnswer(number, c, result, size, data) + rest;
    var tail := extra + (data + rest);
    assert stream == P.EncodeHeader(number, 4 + |extra|) + (Put32(Unsigned(result)) + tail);
    assert stream[6..] == Put32(Unsigned(result)) + tail;
    Get32Put32(Unsigned(result), tail);
    SignedOfUnsigned(result);
    assert stream[10 + |extra|..] == data + rest;
    SliceOfFront(data, rest);
    if c.Read? && 0 <= result <= c.size {
      SliceOfEnd(stream, 14, result);
    }
  }

  // ---------- An honest server ----------

  /** The server's reply: short reads and writes are allowed. */
  function Reply(h: H.Host, c: Command): (H.Host, int32, seq<byte>) {
    match c
    case Open(path, flags) => var (next, fd) := H.Open(h, path, FixFlags(flags)); (next, fd, [])
    case Close(fd) => var (next, result) := H.Close(h, fd); (next, result, [])
    case Read(fd, size) => H.Read(h, fd, size)
    case Write(fd, data) => var (next, result) := H.Write(h, fd, data); (next, result, [])
    case Lseek(fd, offset, whence) => var (next, result) := H.Lseek(h, fd, offset, whence); (next, result, [])
  }

  /** Every answer is the true one. */
  ghost predicate Honest(h: H.Host, log: seq<Exchange>)
    decreases |log|
  {
    log == [] ||
    var (next, result, data) := Reply(h, log[0].command);
    log[0].result == result && log[0].data == data && Honest(next, log[1..])
  }

  /** The server's files after the commands. */
  ghost function After(h: H.Host, log: seq<Exchange>): H.Host
    decreases |log|
  {
    if log == [] then h else After(Reply(h, log[0].command).0, log[1..])
  }

  lemma {:induction false} HonestAppend(h: H.Host, a: seq<Exchange>, b: seq<Exchange>)
    ensures Honest(h, a + b) <==> Honest(h, a) && Honest(After(h, a), b)
    ensures After(h, a + b) == After(After(h, a), b)
    decreases |a|
  {
    if a == [] {
      assert a + b == b;
    } else {
      assert (a + b)[1..] == a[1..] + b;
      HonestAppend(Reply(h, a[0].command).0, a[1..], b);
    }
  }

  /** One more true answer. */
  lemma HonestOne(h: H.Host, e: Exchange)
    ensures Honest(h, [e]) <==> var (_, result, data) := Reply(h, e.command); e.result == result && e.data == data
    ensures After(h, [e]) == Reply(h, e.command).0
  {
    assert [e][1..] == [];
  }

  /** An honest server's data is what it says it is. */
  lemma ReplyFits(h: H.Host, c: Command)
    ensures var (_, result, data) := Reply(h, c);
            |data| == (if c.Read? then Max(0, result) else 0) && (c.Read? ==> result <= c.size)
  {
  }

  lemma AnswerAlone(number: uint32, c: Command, result: int32, size: uint32, data: seq<byte>)
    requires |data| == (if c.Read? then Max(0, result) else 0) && (c.Read? ==> result <= c.size)
    ensures Answer(c, EncodeAnswer(number, c, result, size, data)) == Some((result, data, []))
  {
    AnswerRoundTrip(number, c, result, size, data, []);
    var stream := EncodeAnswer(number, c, result, size, data);
    assert stream + [] == stream;
  }

  class Client {
    const link: Connection
    /** The server at the other end, if it is an honest one; else the stream already holds what it will send. */
    var server: Option<H.Host>
    ghost const first: Option<H.Host>
    ghost var issued: seq<Command>
    ghost var log: seq<Exchange>

    constructor (link: Connection, server: Option<H.Host>)
      requires server.Some? ==> link.Reliable() && link.incoming == []
      ensures this.link == link && this.server == first == server && issued == [] && log == [] && Valid()
    {
      this.link, this.server, first := link, server, server;
      issued, log := [], [];
    }

    /** With an honest server every command gets its true answer. */
    ghost predicate Valid()
      reads this, link
    {
      match server
      case None => first.None?
      case Some(h) =>
        && link.Reliable() && link.incoming == []
        && first.Some? && Honest(first.value, log) && h == After(first.value, log) && |log| == |issued|
    }

    /** After one more true answer the log is still honest. */
    lemma TrueMore(before: seq<Exchange>, c: Command, result: int32, data: seq<byte>)
      ensures var more := before + [Exchange(c, result, data)];
              first.Some? && Honest(first.value, before) ==>
                var (next, r, d) := Reply(After(first.value, before), c);
                (Honest(first.value, more) <==> r == result && d == data) && After(first.value, more) == next
    {
      if first.Some? {
        HonestAppend(first.value, before, [Exchange(c, result, data)]);
        HonestOne(After(first.value, before), Exchange(c, result, data));
      }
    }

    /** The command is issued; it completes with an answer, or gives -1. */
    twostate predicate Issues(c: Command, result: int32, data: seq<byte>, ok: bool)
      requires Sendable(c)
      reads this, link
    {
      && issued == old(issued) + [c]
      && log == (if ok then old(log) + [Exchange(c, result, data)] else old(log))
      && (!ok ==> result == -1)
      && (ok ==> link.outgoing == old(link.outgoing) + Encode(c))
      && if old(server).Some? then TrueAnswer(c, result, data, ok) else StreamAnswer(c, result, data, ok)
    }

    /** The answer is the honest server's. */
    twostate predicate TrueAnswer(c: Command, result: int32, data: seq<byte>, ok: bool)
      requires old(server).Some?
      reads this, link
    {
      ok && server.Some? && (server.value, result, data) == Reply(old(server).value, c)
    }

    /** The answer is the one at the front of the stream. */
    twostate predicate StreamAnswer(c: Command, result: int32, data: seq<byte>, ok: bool)
      reads this, link
    {
      && server.None?
      && (ok ==> Answer(c, old(link.incoming)) == Some((result, data, link.incoming)))
      && (old(link.Reliable()) ==> link.Reliable() && (ok <==> Answer(c, old(link.incoming)).Some?))
    }

    /** An honest server reads the packets that were sent, and its answer comes in. */
    method Arrive(packet: seq<byte>, ghost c: Command)
      requires Sendable(c) && packet == Encode(c)
      requires server.Some? ==> link.incoming == []
      modifies this`server, link`incoming
      ensures old(server).None? ==> server.None? && link.incoming == old(link.incoming)
      ensures old(server).Some? ==>
                var (next, result, data) := Reply(old(server).value, c);
                server == Some(next) && Answer(c, link.incoming) == Some((result, data, []))
    {
      if server.Some? {
        assert Decode(packet) == Some((c, [])) by {
          CommandRoundTrip(c, []);
          assert packet + [] == packet;
        }
        var command := Decode(packet).value.0;
        var (next, result, data) := Reply(server.value, command);
        var number := P.HeaderNumber(packet);
        ReplyFits(server.value, c);
        AnswerAlone(number, c, result, Unsigned(result), data);
        link.incoming := EncodeAnswer(number, command, result, Unsigned(result), data);
        server := Some(next);
      }
    }

    /** A response packet of `size` bytes, whose result is its first field. */
    method ReceiveResult(size: nat) returns (result: int32, ok: bool)
      requires 10 <= size
      modifies link`incoming, link`receives
      ensures ok ==>
                && size <= |old(link.incoming)| && link.incoming == old(link.incoming)[size..]
                && result == Signed(Get32(old(link.incoming)[6..]))
      ensures !ok ==> result == -1
      ensures Broken !in old(link.receives) ==> Broken !in link.receives && (ok <==> size <= |old(link.incoming)|)
    {
      var response := new byte[size];
      ghost var (start, stream) := (response[..], link.incoming);
      var received := link.ReceiveAll(response, 0, size);
      if received < 0 { return -1, false; }
      FilledFront(start, stream[..size]);
      assert response[..] == stream[..size];
      FieldOfFront(stream, size);
      return Signed(Get32(response[6..])), true;
    }

    /** A packet and the data behind it. */
    method SendBoth(command: seq<byte>, data: seq<byte>) returns (sent: bool)
      modifies link`outgoing, link`sends
      ensures sent ==> link.outgoing == old(link.outgoing) + (command + data)
      ensures Broken !in old(link.sends) ==> Broken !in link.sends && sent
    {
      AppendAssociative(link.outgoing, command, data);
      var result := link.SendAll(command, |command|);
      if result < 0 { return false; }
      result := link.SendAll(data, |data|);
      return result >= 0;
    }

    /** A command whose response is only a result. */
    method Ask(packet: seq<byte>, ghost c: Command) returns (result: int32, ghost ok: bool)
      requires Valid() && Sendable(c) && !c.Read? && !c.Write? && packet == Encode(c)
      modifies this, link
      ensures Valid() && Issues(c, result, [], ok)
    {
      issued := issued + [c];
      var sent := link.SendAll(packet, |packet|);
      if sent < 0 { return -1, false; }
      result, ok := Finish(packet, c);
      TrueMore(old(log), c, result, []);
    }

    /** What follows the sending of a command whose response is only a result. */
    method Finish(packet: seq<byte>, ghost c: Command) returns (result: int32, ghost ok: bool)
      requires Sendable(c) && !c.Read? && packet == Encode(c)
      requires server.Some? ==> link.Reliable() && link.incoming == []
      modifies this`server, this`log, link`incoming, link`receives
      ensures log == if ok then old(log) + [Exchange(c, result, [])] else old(log)
      ensures !ok ==> result == -1
      ensures if old(server).Some? then TrueAnswer(c, result, [], ok) && link.Reliable() && link.incoming == []
              else StreamAnswer(c, result, [], ok)
    {
      Arrive(packet, c);
      var answered: bool;
      result, answered := ReceiveResult(10);
      ok := answered;
      if ok { log := log + [Exchange(c, result, [])]; }
    }

    /** ps2netfs_command_open: a path that does not fit is refused here. */
    method CommandOpen(path: seq<byte>, flags: uint32) returns (result: int32, ghost ok: bool)
      requires Valid() && 0 !in path
      modifies this, link
      ensures Valid()
      ensures |path| < P.PATH_SIZE ==> Issues(Open(path, flags), result, [], ok)
      ensures |path| >= P.PATH_SIZE ==>
                result == -1 && !ok && issued == old(issued) && log == old(log) && server == old(server)
    {
      if |path| >= P.PATH_SIZE { return -1, false; }
      result, ok := Ask(Packet(NETFS_OPEN, Put32(flags) + P.PathField(path)), Open(path, flags));
    }

    method CommandClose(fd: int32) returns (result: int32, ghost ok: bool)
      requires Valid()
      modifies this, link
      ensures Valid() && Issues(Close(fd), result, [], ok)
    {
      result, ok := Ask(Packet(NETFS_CLOSE, Put32(Unsigned(fd))), Close(fd));
    }

    method CommandLseek(fd: int32, offset: int32, whence: uint32) returns (result: int32, ghost ok: bool)
      requires Valid()
      modifies this, link
      ensures Valid() && Issues(Lseek(fd, offset, whence), result, [], ok)
    {
      var packet := Packet(NETFS_LSEEK, Put32(Unsigned(fd)) + (Put32(Unsigned(offset)) + Put32(whence)));
      result, ok := Ask(packet, Lseek(fd, offset, whence));
    }

    /** ps2netfs_command_write: the packet, then the data. */
    method CommandWrite(fd: int32, data: seq<byte>) returns (result: int32, ghost ok: bool)
      requires Valid() && |data| < 0x8000_0000
      modifies this, link
      ensures Valid() && Issues(Write(fd, data), result, [], ok)
    {
      ghost var c := Write(fd, data);
      issued := issued + [c];
      var command := Packet(NETFS_WRITE, Put32(Unsigned(fd)) + Put32(|data|));
      var sent := SendBoth(command, data);
      if !sent { return -1, false; }
      result, ok := Finish(command + data, c);
      TrueMore(old(log), c, result, []);
    }

    /** ps2netfs_command_read: a result beyond what was asked for is refused, its data left unread. */
    method CommandRead(fd: int32, buffer: array<byte>, size: nat) returns (result: int32, ghost data: seq<byte>, ghost ok: bool)
      requires Valid() && size <= buffer.Length && size < 0x8000_0000
      modifies this, link, buffer
      ensures Valid() && Issues(Read(fd, size), result, data, ok)
      ensures result >= 0 ==> ok && result == |data| <= size && buffer[..result] == data
    {
      ghost var c := Read(fd, size);
      issued := issued + [c];
      var command := Packet(NETFS_READ, Put32(Unsigned(fd)) + Put32(size));
      var sent := link.SendAll(command, |command|);
      if sent < 0 { return -1, [], false; }
      Arrive(command, c);
      result, data, ok := ReceiveData(fd, buffer, size);
      if ok { log := log + [Exchange(c, result, data)]; }
      TrueMore(old(log), c, result, data);
    }

    /** The response of a READ, and the data behind it. */
    method ReceiveData(ghost fd: int32, buffer: array<byte>, size: nat)
      returns (result: int32, ghost data: seq<byte>, ghost ok: bool)
      requires size <= buffer.Length && size < 0x8000_0000
      modifies link`incoming, link`receives, buffer
      ensures ok ==> Answer(Read(fd, size), old(link.incoming)) == Some((result, data, link.incoming))
      ensures !ok ==> result == -1
      ensures old(link.Reliable()) ==> link.Reliable() && (ok <==> Answer(Read(fd, size), old(link.incoming)).Some?)
      ensures result >= 0 ==> ok && result == |data| <= size && buffer[..result] == data
    {
      data, ok := [], false;
      ghost var stream := link.incoming;
      var answered: bool;
      result, answered := ReceiveResult(14);
      if !answered { return -1, [], false; }
      if result < 0 { return result, [], true; }
      if result > size { return -1, [], false; }
      ghost var (before, rest) := (buffer[..], link.incoming);
      var received := link.ReceiveAll(buffer, 0, result);
      if received < 0 { return -1, [], false; }
      data := rest[..result];
      FilledFront(before, data);
      assert buffer[..result] == buffer[..][..result];
      SliceOfEnd(stream, 14, result);
      ok := true;
    }
  }

  lemma FieldOfFront(s: seq<byte>, n: nat)
    requires 10 <= n <= |s|
    ensures Get32(s[..n][6..]) == Get32(s[6..])
  {
    assert s[..n][6..][..4] == s[6..][..4];
    assert s[..n][6..][2..][..2] == s[6..][2..][..2];
  }

  lemma SliceOfEnd(s: seq<byte>, at: nat, n: nat)
    requires at + n <= |s|
    ensures s[at..][..n] == s[at..at + n] && s[at..][n..] == s[at + n..]
  {
  }
}
