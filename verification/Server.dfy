/** The request thread: it reads packets into a buffer, performs them, and sends the responses. */
module Server {
  import opened Bytes
  import opened Utility
  import opened Protocol
  import opened Network
  import H = HostFiles
  import S = ServerSpec

  const PACKET_SIZE := HEADER + BODY_SIZE
  const BUFFER_SIZE := 65536

  lemma CStringInFront(front: seq<byte>, rest: seq<byte>)
    requires 0 in front
    ensures CString(front + rest) == CString(front)
  {
    if front[0] != 0 {
      assert (front + rest)[1..] == front[1..] + rest;
      CStringInFront(front[1..], rest);
    }
  }

  class RequestServer {
    const link: Connection
    const slots: array<Option<seq<H.Entry>>>
    const stale: S.Stale
    const heap: S.Heap
    var host: H.Host
    var pingFd: int
    var answered: bool
    var lost: bool
    var others: seq<int32>

    ghost predicate Valid()
      reads this, slots
    {
      slots.Length == S.SLOTS
    }

    ghost function State(): S.State
      reads this, slots
      requires Valid()
    {
      S.State(host, pingFd, answered, slots[..], others, stale, heap)
    }

    constructor (link: Connection, host: H.Host, others: seq<int32>, stale: S.Stale, heap: S.Heap)
      ensures Valid() && fresh(slots) && this.link == link && !lost
      ensures State() == S.State(host, -1, false, seq(S.SLOTS, _ => None), others, stale, heap)
    {
      this.link, this.host, this.others, this.stale, this.heap := link, host, others, stale, heap;
      pingFd, answered, lost := -1, false, false;
      slots := new Option<seq<H.Entry>>[S.SLOTS](_ => None);
      new;
      assert slots[..] == seq(S.SLOTS, _ => None);
    }

    /** The packet's header and body are in the buffer, in the documented shape. */
    ghost predicate Ready(packet: array<byte>, length: nat, number: uint32)
      reads packet
    {
      && packet.Length == PACKET_SIZE && HEADER <= length <= PACKET_SIZE
      && Get32(packet[..]) == number && Shaped(number, packet[HEADER..length])
    }

    /** The state, what was taken and, unless a send failed, what was sent are as the service specifies. */
    twostate predicate Performed(number: uint32, body: seq<byte>)
      requires Valid() && old(Valid()) && Shaped(number, body)
      reads this, slots, link
    {
      var (next, incoming, sent) := S.Outcome(old(State()), old(link.incoming), number, body);
      && State() == next && link.incoming == incoming
      && (Broken !in old(link.receives) ==> Broken !in link.receives)
      && (Broken !in old(link.sends) ==> Broken !in link.sends && link.outgoing == old(link.outgoing) + sent)
      && (sent == [] ==> link.outgoing == old(link.outgoing))
    }

    /** A receive failed while a WRITE waited for its data, and nothing was done. */
    twostate predicate Dropped()
      requires Valid() && old(Valid())
      reads this, slots, link
    {
      && Broken in old(link.receives) && (Broken !in old(link.sends) ==> Broken !in link.sends)
      && State() == old(State()) && link.incoming == [] && link.outgoing == old(link.outgoing)
    }

    /** The state is `next`, nothing was received, and the reply was sent. */
    twostate predicate Answers(number: uint32, next: S.State, reply: Reply)
      requires Valid() && old(Valid()) && Recognised(number) && GoodReply(number, reply)
      reads this, slots, link
    {
      && State() == next && link.incoming == old(link.incoming) && link.receives == old(link.receives)
      && (Broken !in old(link.sends) ==>
            Broken !in link.sends && link.outgoing == old(link.outgoing) + EncodeReply(number, reply))
    }

    /** The ps2link_response functions: fill the structure, send it. */
    method Respond(number: uint32, result: int32, extra: seq<byte>)
      requires Recognised(number) && |extra| == ExtraSize(number)
      modifies link`outgoing, link`sends
      ensures Broken !in old(link.sends) ==>
                && Broken !in link.sends
                && link.outgoing == old(link.outgoing) +
                     (EncodeHeader(ResponseNumber(number), 4 + |extra|) + (Put32(Unsigned(result)) + extra))
    {
      var response := EncodeHeader(ResponseNumber(number), 4 + |extra|) + (Put32(Unsigned(result)) + extra);
      var _ := link.SendAll(response, |response|);
    }

    /** The response of every request but READ. */
    method SendReply(number: uint32, result: int32, data: seq<byte>)
      requires Recognised(number) && number != READ && |data| == ExtraSize(number)
      modifies link`outgoing, link`sends
      ensures Broken !in old(link.sends) ==>
                && Broken !in link.sends
                && link.outgoing == old(link.outgoing) + EncodeReply(number, Protocol.Reply(result, data))
    {
      Respond(number, result, data);
    }

    /** The path field of the packet, fixed in place. */
    method FixField(packet: array<byte>) returns (pathname: seq<byte>)
      requires packet.Length == PACKET_SIZE && 0 in packet[10..10 + PATH_SIZE]
      modifies packet
      ensures pathname == FixedPath(CString(old(packet[10..])))
    {
      assert packet[10..] == packet[10..10 + PATH_SIZE] + packet[10 + PATH_SIZE..];
      CStringInFront(packet[10..10 + PATH_SIZE], packet[10 + PATH_SIZE..]);
      FixPathname(packet, 10);
      pathname := CString(packet[10..]);
    }

    // ---------- Files ----------

    method OpenAndReply(pathname: seq<byte>, flags: Flags)
      requires Valid()
      modifies this`host, this`pingFd, link`outgoing, link`sends
      ensures var (next, fd) := S.OpenFixed(old(State()), pathname, flags); Answers(OPEN, next, Reply(fd, []))
    {
      var result: int32 := -1;
      if pathname == S.PING {
        var (next, fd) := H.OpenHandle(host, H.NullDevice);
        host, result, pingFd := next, fd, fd;
        SendReply(OPEN, result, []);
        return;
      }
      if pathname in host.files || flags.create {
        var (next, fd) := H.Open(host, pathname, flags);
        host, result := next, fd;
      }
      SendReply(OPEN, result, []);
    }

    method RequestOpen(packet: array<byte>, ghost length: nat)
      requires Valid() && Ready(packet, length, OPEN)
      modifies this`host, this`pingFd, link`outgoing, link`sends, packet
      ensures Performed(OPEN, old(packet[HEADER..length]))
    {
      ghost var (st, incoming, body) := (State(), link.incoming, packet[HEADER..length]);
      PacketPath(packet, length, OPEN);
      var flags := FixFlags(Get32(packet[6..]));
      var pathname := FixField(packet);
      OpenAndReply(pathname, flags);
      S.OutcomeOpen(st, incoming, body);
    }

    method RequestClose(packet: array<byte>, ghost length: nat)
      requires Valid() && Ready(packet, length, CLOSE)
      modifies this`host, this`pingFd, this`answered, link`outgoing, link`sends
      ensures Performed(CLOSE, old(packet[HEADER..length]))
    {
      ghost var (st, incoming, body) := (State(), link.incoming, packet[HEADER..length]);
      PacketFields(packet, length, CLOSE);
      S.OutcomeAtOnce(st, incoming, CLOSE, body);
      var fd := Signed(Get32(packet[6..]));
      var closed := H.Close(host, fd);
      host := closed.0;
      if pingFd >= 0 && fd == pingFd {
        pingFd := -1;
        answered := true;
      }
      SendReply(CLOSE, closed.1, []);
    }

    /** read(): fills the front of the buffer. */
    method HostRead(fd: int32, buffer: array<byte>, size: nat) returns (result: int32)
      requires size <= buffer.Length
      modifies this`host, buffer
      ensures var r := H.Read(old(host), fd, size);
              host == r.0 && result == r.1 && buffer[..|r.2|] == r.2
    {
      var (next, n, data) := H.Read(host, fd, size);
      host, result := next, n;
      forall i | 0 <= i < |data| {
        buffer[i] := data[i];
      }
    }

    /** The end of both READ branches: the response, then as many bytes as the result says. */
    method SendRead(result: int32, buffer: array<byte>, ghost data: seq<byte>)
      requires |data| == Max(0, result) <= buffer.Length && buffer[..|data|] == data
      modifies link`outgoing, link`sends
      ensures Broken !in old(link.sends) ==>
                && Broken !in link.sends
                && link.outgoing == old(link.outgoing) + EncodeReply(READ, Protocol.Reply(result, data))
    {
      var size := result;
      Respond(READ, result, Put32(Unsigned(size)));
      var _ := link.SendAll(buffer[..], size);
      assert buffer[..][..|data|] == data;
    }

    /** What a READ does once it has a buffer. */
    method ReadAndSend(fd: int32, buffer: array<byte>, size: uint32)
      requires Valid() && size <= buffer.Length
      modifies this`host, link`outgoing, link`sends, buffer
      ensures var r := S.Read(old(State()), fd, size); Answers(READ, r.0, r.1)
    {
      ghost var data := H.Read(host, fd, size).2;
      var result := HostRead(fd, buffer, size);
      SendRead(result, buffer, data);
    }

    /** A big read gets a buffer of its own size, a normal one the usual buffer. */
    method ReadBySize(fd: int32, size: uint32)
      requires Valid()
      modifies this`host, link`outgoing, link`sends
      ensures var r := S.Read(old(State()), fd, size); Answers(READ, r.0, r.1)
    {
      if size > BUFFER_SIZE {
        var bigbuffer := new byte[size];
        ReadAndSend(fd, bigbuffer, size);
      } else {
        var buffer := new byte[BUFFER_SIZE];
        ReadAndSend(fd, buffer, size);
      }
    }

    method RequestRead(packet: array<byte>, ghost length: nat)
      requires Valid() && Ready(packet, length, READ)
      modifies this`host, link`outgoing, link`sends
      ensures Performed(READ, old(packet[HEADER..length]))
    {
      ghost var (st, incoming, body) := (State(), link.incoming, packet[HEADER..length]);
      PacketFields(packet, length, READ);
      ReadBySize(Signed(Get32(packet[6..])), Get32(packet[10..]));
      S.OutcomeRead(st, incoming, body);
    }

    /** The data of a WRITE into its buffer; of a size that is negative as an int nothing is received. */
    method ReceiveInto(buffer: array<byte>, size: uint32) returns (ok: bool)
      requires size <= buffer.Length
      requires size >= HALF ==> buffer[..size] == heap[..size]
      modifies link`incoming, link`receives, buffer
      ensures Broken !in old(link.receives) ==> Broken !in link.receives
      ensures !ok ==> link.incoming == [] && (Broken !in old(link.receives) ==> |old(link.incoming)| < S.Receivable(size))
      ensures ok ==>
                && S.Receivable(size) <= |old(link.incoming)| && link.incoming == old(link.incoming)[S.Receivable(size)..]
                && buffer[..size] == S.WriteData(size, old(link.incoming), heap)
    {
      ghost var (held, stream) := (buffer[..], link.incoming);
      var received := link.ReceiveAll(buffer, 0, Signed(size));
      if received < 0 { return false; }
      assert buffer[..size] == buffer[..][..size] && buffer[..][0..] == buffer[0..];
      DataReceived(held, buffer[..], stream, size, heap);
      return true;
    }

    /** What a WRITE does once its data has a buffer; nothing when the data does not arrive. */
    method ReceiveAndWrite(fd: int32, buffer: array<byte>, size: uint32) returns (ghost done: bool)
      requires Valid() && size <= buffer.Length
      requires size >= HALF ==> buffer[..size] == heap[..size]
      modifies this`host, link, buffer
      ensures Broken !in old(link.receives) ==> Broken !in link.receives
      ensures Broken !in old(link.sends) ==> Broken !in link.sends
      ensures !done ==>
                && (|old(link.incoming)| < S.Receivable(size) || Broken in old(link.receives))
                && State() == old(State()) && link.incoming == [] && link.outgoing == old(link.outgoing)
      ensures done ==>
                && S.Receivable(size) <= |old(link.incoming)|
                && var r := S.Write(old(State()), fd, S.WriteData(size, old(link.incoming), heap));
                && State() == r.0 && link.incoming == old(link.incoming)[S.Receivable(size)..]
                && (Broken !in old(link.sends) ==> link.outgoing == old(link.outgoing) + EncodeReply(WRITE, r.1))
    {
      var received := ReceiveInto(buffer, size);
      done := received;
      if !received { return; }
      var written := H.Write(host, fd, buffer[..size]);
      host := written.0;
      SendReply(WRITE, written.1, []);
    }

    method RequestWrite(packet: array<byte>, ghost length: nat) returns (ghost dropped: bool)
      requires Valid() && Ready(packet, length, WRITE)
      modifies this`host, link
      ensures if dropped then Dropped() else Performed(WRITE, old(packet[HEADER..length]))
    {
      ghost var (st, incoming, body) := (State(), link.incoming, packet[HEADER..length]);
      PacketFields(packet, length, WRITE);
      S.OutcomeWrite(st, incoming, body);
      var fd, size := Signed(Get32(packet[6..])), Get32(packet[10..]);
      if size > BUFFER_SIZE {
        var bigbuffer := new byte[size](i requires 0 <= i < size => heap[i]);
        assert bigbuffer[..size] == heap[..size];
        ghost var done := ReceiveAndWrite(fd, bigbuffer, size);
        dropped := !done && S.Receivable(size) <= |incoming|;
      } else {
        var buffer := new byte[BUFFER_SIZE];
        ghost var done := ReceiveAndWrite(fd, buffer, size);
        dropped := !done && S.Receivable(size) <= |incoming|;
      }
    }

    method RequestLseek(packet: array<byte>, ghost length: nat)
      requires Valid() && Ready(packet, length, LSEEK)
      modifies this`host, link`outgoing, link`sends
      ensures Performed(LSEEK, old(packet[HEADER..length]))
    {
      ghost var (st, incoming, body) := (State(), link.incoming, packet[HEADER..length]);
      PacketFields(packet, length, LSEEK);
      S.OutcomeLseek(st, incoming, body);
      var moved := H.Lseek(host, Signed(Get32(packet[6..])), Get32(packet[10..]), Get32(packet[14..]));
      host := moved.0;
      SendReply(LSEEK, moved.1, []);
    }

    // ---------- Directories ----------

    method OpenDirAndReply(pathname: seq<byte>)
      requires Valid()
      modifies slots, link`outgoing, link`sends
      ensures var (next, dd) := S.OpenDirFixed(old(State()), pathname); Answers(OPENDIR, next, Reply(dd, []))
    {
      ghost var st := State();
      var result: int32 := -1;
      if pathname in host.dirs {
        for loop0 := 0 to S.SLOTS
          invariant result == -1 && slots[..] == st.slots
          invariant S.FreeSlot(st.slots, loop0) == S.FreeSlot(st.slots, 0)
        {
          if slots[loop0].None? { result := loop0; break; }
        }
        if result != -1 {
          slots[result] := Some(host.dirs[pathname]);
        }
      }
      SendReply(OPENDIR, result, []);
    }

    method RequestOpenDir(packet: array<byte>, ghost length: nat)
      requires Valid() && Ready(packet, length, OPENDIR)
      modifies slots, link`outgoing, link`sends, packet
      ensures Performed(OPENDIR, old(packet[HEADER..length]))
    {
      ghost var (st, incoming, body) := (State(), link.incoming, packet[HEADER..length]);
      PacketPath(packet, length, OPENDIR);
      var pathname := FixField(packet);
      OpenDirAndReply(pathname);
      S.OutcomeOpenDir(st, incoming, body);
    }

    method RequestCloseDir(packet: array<byte>, ghost length: nat)
      requires Valid() && Ready(packet, length, CLOSEDIR)
      modifies slots, link`outgoing, link`sends
      ensures Performed(CLOSEDIR, old(packet[HEADER..length]))
    {
      ghost var (st, incoming, body) := (State(), link.incoming, packet[HEADER..length]);
      PacketFields(packet, length, CLOSEDIR);
      S.OutcomeAtOnce(st, incoming, CLOSEDIR, body);
      var dd := Get32(packet[6..]);
      if dd >= S.SLOTS || slots[dd].None? {
        SendReply(CLOSEDIR, -1, []);
        return;
      }
      slots[dd] := None;
      SendReply(CLOSEDIR, 0, []);
    }

    method RequestReadDir(packet: array<byte>, ghost length: nat)
      requires Valid() && Ready(packet, length, READDIR)
      modifies slots, link`outgoing, link`sends
      ensures Performed(READDIR, old(packet[HEADER..length]))
    {
      ghost var (st, incoming, body) := (State(), link.incoming, packet[HEADER..length]);
      PacketFields(packet, length, READDIR);
      S.OutcomeAtOnce(st, incoming, READDIR, body);
      var dd := Get32(packet[6..]);
      if dd >= S.SLOTS || slots[dd].None? {
        SendReply(READDIR, -1, S.NoEntryFields(stale));
        return;
      }
      var left := slots[dd].value;
      if left == [] {
        SendReply(READDIR, 0, S.NoEntryFields(stale));
        return;
      }
      slots[dd] := Some(left[1..]);
      SendReply(READDIR, 1, S.EntryFields(left[0], stale));
    }

    /** REMOVE, MKDIR, RMDIR and GETSTAT, with the result the host will have. */
    method RequestOther(packet: array<byte>, ghost length: nat, number: uint32)
      requires Valid() && Ready(packet, length, number) && number in [REMOVE, MKDIR, RMDIR, GETSTAT]
      modifies this`others, link`outgoing, link`sends
      ensures Performed(number, packet[HEADER..length])
    {
      S.OutcomeAtOnce(State(), link.incoming, number, packet[HEADER..length]);
      var result: int32 := -1;
      if others != [] { result, others := others[0], others[1..]; }
      SendReply(number, result, if number == GETSTAT then stale[..40] else []);
    }

    // ---------- The service loop ----------

    /** Performs the request in the packet; a number it does not know gets no response. */
    method ServePacket(packet: array<byte>, ghost length: nat) returns (ghost dropped: bool)
      requires Valid() && packet.Length == PACKET_SIZE && Ready(packet, length, Get32(packet[..]))
      modifies this`host, this`pingFd, this`answered, this`others, slots, link, packet
      ensures if dropped then Dropped() else Performed(Get32(old(packet[..])), old(packet[HEADER..length]))
    {
      var number := Get32(packet[..]);
      dropped := false;
      if number == OPEN { RequestOpen(packet, length); }
      else if number == CLOSE { RequestClose(packet, length); }
      else if number == READ { RequestRead(packet, length); }
      else if number == WRITE { dropped := RequestWrite(packet, length); }
      else if number == LSEEK { RequestLseek(packet, length); }
      else if number == OPENDIR { RequestOpenDir(packet, length); }
      else if number == CLOSEDIR { RequestCloseDir(packet, length); }
      else if number == READDIR { RequestReadDir(packet, length); }
      else if number in [REMOVE, MKDIR, RMDIR, GETSTAT] { RequestOther(packet, length, number); }
    }

    /** A header, its length check, and the body; -1 when there is no further packet. */
    method ReceivePacket(packet: array<byte>) returns (length: int)
      requires packet.Length == PACKET_SIZE
      modifies link`incoming, link`receives, packet
      ensures length == -1 || HEADER <= length <= PACKET_SIZE
      ensures length != -1 ==>
                && |link.incoming| < |old(link.incoming)|
                && NextPacket(old(link.incoming)) == Some((Get32(packet[..]), packet[HEADER..length], link.incoming))
      ensures Broken !in old(link.receives) ==> Broken !in link.receives
      ensures Broken !in old(link.receives) && length == -1 ==> NextPacket(old(link.incoming)).None?
    {
      ghost var stream := link.incoming;
      var received := link.ReceiveAll(packet, 0, HEADER);
      if received < 0 { return -1; }
      ghost var header := packet[..];
      assert header[..HEADER] == stream[..HEADER];
      assert Get16(packet[4..]) == HeaderLength(stream) && Get32(packet[..]) == HeaderNumber(stream);
      length := Get16(packet[4..]);
      if length < HEADER || length - HEADER > BODY_SIZE { return -1; }
      received := link.ReceiveAll(packet, HEADER, length - HEADER);
      if received < 0 { return -1; }
      assert packet[..HEADER] == header[..HEADER];
      assert packet[HEADER..length] == packet[..][HEADER..length] == stream[HEADER..][..length - HEADER] == stream[HEADER..length];
      assert stream[HEADER..][length - HEADER..] == stream[length..];
    }

    /**
     One turn of the service loop: a whole frame is performed, or nothing is, and that only when no
     whole frame is left or a receive failed.
     */
    method ServeNext(packet: array<byte>) returns (more: bool, ghost whole: bool)
      requires Valid() && packet.Length == PACKET_SIZE && S.ShapedStream(link.incoming)
      modifies this`host, this`pingFd, this`answered, this`others, slots, link, packet
      ensures Broken !in old(link.receives) ==> Broken !in link.receives
      ensures Broken !in old(link.sends) ==> Broken !in link.sends
      ensures more ==> |link.incoming| < |old(link.incoming)|
      ensures whole ==>
                && more && NextFrame(old(link.incoming)).Some?
                && var (f, rest) := NextFrame(old(link.incoming)).value;
                && Shaped(f.number, f.body)
                && var (next, sent) := S.Perform(old(State()), f);
                && State() == next && link.incoming == rest
                && (Broken !in old(link.sends) ==> link.outgoing == old(link.outgoing) + sent)
      ensures !whole ==>
                && State() == old(State()) && link.outgoing == old(link.outgoing)
                && (Broken in old(link.receives) || NextFrame(old(link.incoming)).None?)
                && (more ==> link.incoming == [])
    {
      ghost var stream := link.incoming;
      var length := ReceivePacket(packet);
      if length == -1 { return false, false; }
      more := true;
      ghost var dropped := ServePacket(packet, length);
      whole := NextFrame(stream).Some? && !dropped;
    }

    /**
     The thread. Whatever the receives and sends do, it ends, with the lost flag set, having served
     whole frames from the front of the stream; unless a receive failed, all that there are.
     */
    method ThreadRequest() returns (ghost served: seq<byte>)
      requires Valid() && S.ShapedStream(link.incoming)
      modifies this, slots, link
      ensures Valid() && lost
      ensures served <= old(link.incoming) && (Broken !in old(link.receives) ==> served == old(link.incoming))
      ensures State() == S.Serve(old(State()), old(link.outgoing), served).0
      ensures Broken !in old(link.sends) ==> link.outgoing == S.Serve(old(State()), old(link.outgoing), served).1
    {
      var packet := new byte[PACKET_SIZE];
      ghost var (st, before, all) := (State(), link.outgoing, link.incoming);
      ghost var (done: seq<byte>, left, cut) := ([], all, false);
      assert done + left == all;
      while true
        invariant Valid() && fresh(packet)
        invariant all == done + left && Complete(done) && S.ShapedStream(left)
        invariant State() == S.Serve(st, before, done).0
        invariant Broken !in old(link.sends) ==> Broken !in link.sends && link.outgoing == S.Serve(st, before, done).1
        invariant Broken !in old(link.receives) ==> Broken !in link.receives
        invariant link.incoming == if cut then [] else left
        invariant cut && Broken !in old(link.receives) ==> NextFrame(left).None?
        decreases |link.incoming|
      {
        var more, whole := ServeNext(packet);
        if !more { break; }
        if whole {
          S.ServeOneMore(st, before, done, left);
          done, left := done + EncodeFrame(NextFrame(left).value.0), link.incoming;
          S.ShapedAppend(done, left);
        } else {
          cut := true;
        }
      }
      lost := true;
      served := if Broken !in old(link.receives) then all else done;
      if Broken !in old(link.receives) {
        S.ShapedAppend(done, left);
        S.ServeAppend(st, before, done, left);
      }
    }

    /** The fields where the request functions look for them are the body's fields. */
    lemma PacketFields(packet: array<byte>, length: nat, number: uint32)
      requires Ready(packet, length, number)
      ensures var body := packet[HEADER..length];
              && (4 <= |body| ==> Get32(packet[6..]) == Get32(body))
              && (8 <= |body| ==> Get32(packet[10..]) == Get32(body[4..]))
              && (12 <= |body| ==> Get32(packet[14..]) == Get32(body[8..]))
    {
      var body := packet[HEADER..length];
      assert packet[..][HEADER..length] == body;
      assert packet[..][6..] == packet[6..] && packet[..][10..] == packet[10..] && packet[..][14..] == packet[14..];
      if 4 <= |body| { FieldInFront(packet[..], length, 0); assert body[0..] == body; }
      if 8 <= |body| { FieldInFront(packet[..], length, 4); }
      if 12 <= |body| { FieldInFront(packet[..], length, 8); }
    }

    lemma PacketPath(packet: array<byte>, length: nat, number: uint32)
      requires Ready(packet, length, number) && number in [OPEN, OPENDIR]
      ensures Get32(packet[6..]) == Get32(packet[HEADER..length])
      ensures 0 in packet[10..10 + PATH_SIZE] && CString(packet[10..]) == CString(packet[HEADER..length][4..])
    {
      PacketFields(packet, length, number);
      assert packet[..][HEADER..length] == packet[HEADER..length];
      PathInFront(packet[..], length);
      assert packet[..][10..] == packet[10..] && packet[..][10..10 + PATH_SIZE] == packet[10..10 + PATH_SIZE];
    }
  }

  lemma DataReceived(held: seq<byte>, now: seq<byte>, stream: seq<byte>, size: uint32, heap: S.Heap)
    requires size <= |held| == |now| && S.Receivable(size) <= |stream|
    requires size >= HALF ==> held[..size] == heap[..size] && now[0..] == held[0..]
    requires size < HALF ==> now == Filled(held, 0, stream[..size])
    ensures now[..size] == S.WriteData(size, stream, heap)
  {
    if size >= HALF {
      assert now == now[0..] == held[0..] == held;
    } else {
      FilledFront(held, stream[..size]);
    }
  }

  lemma Get32InFront(s: seq<byte>, n: nat)
    requires 4 <= n <= |s|
    ensures Get32(s[..n]) == Get32(s)
  {
    assert s[..n][2..][..2] == s[2..][..2];
  }

  /** A field of the body is the field of the buffer, although the buffer goes on after the body. */
  lemma FieldInFront(packet: seq<byte>, length: nat, at: nat)
    requires HEADER + at + 4 <= length <= |packet|
    ensures Get32(packet[HEADER + at..]) == Get32(packet[HEADER..length][at..])
  {
    SliceOfSlice(packet, HEADER, length, at, length - HEADER);
    assert packet[HEADER..length][at..] == packet[HEADER..length][at..length - HEADER];
    assert packet[HEADER + at..][..length - HEADER - at] == packet[HEADER + at..length];
    Get32InFront(packet[HEADER + at..], length - HEADER - at);
  }

  lemma PathInFront(packet: seq<byte>, length: nat)
    requires 10 + PATH_SIZE <= length <= |packet| && 0 in packet[HEADER..length][4..4 + PATH_SIZE]
    ensures 0 in packet[10..10 + PATH_SIZE]
    ensures CString(packet[10..]) == CString(packet[HEADER..length][4..])
  {
    var field := packet[10..10 + PATH_SIZE];
    SliceOfSlice(packet, HEADER, length, 4, 4 + PATH_SIZE);
    assert packet[10..] == field + packet[10 + PATH_SIZE..];
    SliceOfSlice(packet, HEADER, length, 4, length - HEADER);
    assert packet[HEADER..length][4..] == packet[HEADER..length][4..length - HEADER];
    assert packet[10..length] == field + packet[10 + PATH_SIZE..length];
    CStringInFront(field, packet[10 + PATH_SIZE..]);
    CStringInFront(field, packet[10 + PATH_SIZE..length]);
  }
}
