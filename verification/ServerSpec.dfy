/** What the request service does with each request, on values. */
module ServerSpec {
  import opened Bytes
  import opened Utility
  import opened Protocol
  import H = HostFiles

  /** ps2client.ping: the file the handshake dumps registers to. */
  const PING: seq<byte> := [112, 115, 50, 99, 108, 105, 101, 110, 116, 46, 112, 105, 110, 103]

  lemma PingBytes()
    ensures |PING| == 14 && BACKSLASH !in PING && 0 !in PING && PING[0] != SLASH
  {
  }

  const SLOTS: nat := 10
  const EXTRA: nat := 296

  /** The directory table: the entries that an open directory has left to read. */
  type Slots = s: seq<Option<seq<H.Entry>>> | |s| == 10 witness seq(10, _ => None)

  /** What a response structure holds where nothing is stored. */
  type Stale = s: seq<byte> | |s| == 296 witness seq(296, _ => 0)

  /** What freshly allocated memory holds. */
  type Heap = s: seq<byte> | |s| == 0x1_0000_0000 witness seq(0x1_0000_0000, _ => 0)

  /** `others` are the results REMOVE, MKDIR, RMDIR and GETSTAT will have; -1 when it runs out. */
  datatype State = State(host: H.Host, pingFd: int, answered: bool, slots: Slots, others: seq<int32>, stale: Stale, heap: Heap)

  /** OPEN with its path and flags fixed: the ping file is the null device. */
  function OpenFixed(st: State, path: seq<byte>, flags: Flags): (State, int32) {
    if path == PING then
      var (host, fd) := H.OpenHandle(st.host, H.NullDevice);
      (st.(host := host, pingFd := fd), fd)
    else if path in st.host.files || flags.create then
      var (host, fd) := H.Open(st.host, path, flags);
      (st.(host := host), fd)
    else (st, -1)
  }

  function Open(st: State, flags: uint32, path: seq<byte>): (State, Reply) {
    var (next, result) := OpenFixed(st, FixedPath(path), FixFlags(flags));
    (next, Reply(result, []))
  }

  function Close(st: State, fd: int32): (State, Reply) {
    var (host, result) := H.Close(st.host, fd);
    var closed := st.(host := host);
    if st.pingFd >= 0 && fd == st.pingFd then (closed.(pingFd := -1, answered := true), Reply(result, []))
    else (closed, Reply(result, []))
  }

  function Read(st: State, fd: int32, size: uint32): (State, Reply) {
    var (host, result, data) := H.Read(st.host, fd, size);
    (st.(host := host), Reply(result, data))
  }

  function Write(st: State, fd: int32, data: seq<byte>): (State, Reply) {
    var (host, result) := H.Write(st.host, fd, data);
    (st.(host := host), Reply(result, []))
  }

  /** The offset is taken unsigned. */
  function Lseek(st: State, fd: int32, offset: uint32, whence: uint32): (State, Reply) {
    var (host, result) := H.Lseek(st.host, fd, offset, whence);
    (st.(host := host), Reply(result, []))
  }

  /** The first slot that is free, from `i` on; SLOTS when there is none. */
  function FreeSlot(slots: Slots, i: nat): (r: nat)
    requires i <= SLOTS
    ensures i <= r <= SLOTS && (r < SLOTS ==> slots[r].None?)
    ensures forall j :: i <= j < r ==> slots[j].Some?
    decreases |slots| - i
  {
    if i == SLOTS || slots[i].None? then i else FreeSlot(slots, i + 1)
  }

  function OpenDirFixed(st: State, path: seq<byte>): (State, int32) {
    var slot: int := FreeSlot(st.slots, 0);
    if path !in st.host.dirs || slot == SLOTS then (st, -1)
    else (st.(slots := st.slots[slot := Some(st.host.dirs[path])]), slot)
  }

  function OpenDir(st: State, path: seq<byte>): (State, Reply) {
    var (next, result) := OpenDirFixed(st, FixedPath(path));
    (next, Reply(result, []))
  }

  function CloseDir(st: State, dd: uint32): (State, Reply) {
    if dd >= SLOTS || st.slots[dd].None? then (st, Reply(-1, []))
    else (st.(slots := st.slots[dd := None]), Reply(0, []))
  }

  /** A name field: the name cut to 255 bytes, its null, and what was there before. */
  function NameField(name: seq<byte>, stale: Stale): (s: seq<byte>)
    ensures |s| == PATH_SIZE
  {
    var front := name[..Min(|name|, PATH_SIZE - 1)] + [0];
    front + stale[40 + |front|..]
  }

  function EntryFields(e: H.Entry, stale: Stale): (s: seq<byte>)
    ensures |s| == EXTRA
  {
    var stored := e.attributes[..Min(|e.attributes|, 40)];
    stored + stale[|stored|..40] + NameField(e.name, stale)
  }

  /** Without an entry the numbers are 0, and the times and the name are not stored. */
  function NoEntryFields(stale: Stale): (s: seq<byte>)
    ensures |s| == EXTRA
  {
    Put32(0) + Put32(0) + Put32(0) + stale[12..36] + Put32(0) + stale[40..]
  }

  function ReadDir(st: State, dd: uint32): (State, Reply) {
    if dd >= SLOTS || st.slots[dd].None? then (st, Reply(-1, NoEntryFields(st.stale)))
    else
      var left := st.slots[dd].value;
      if left == [] then (st, Reply(0, NoEntryFields(st.stale)))
      else (st.(slots := st.slots[dd := Some(left[1..])]), Reply(1, EntryFields(left[0], st.stale)))
  }

  /** REMOVE, MKDIR, RMDIR and GETSTAT: only the response is modelled. */
  function Others(st: State, number: uint32): (State, Reply) {
    var data := if number == GETSTAT then st.stale[..40] else [];
    if st.others == [] then (st, Reply(-1, data)) else (st.(others := st.others[1..]), Reply(st.others[0], data))
  }

  /** One request; a number the service does not know gets no response. */
  function Handle(st: State, r: Request): (State, Option<Reply>) {
    match r
    case Open(flags, path) => Answered(Open(st, flags, path))
    case Close(fd) => Answered(Close(st, fd))
    case Read(fd, size) => Answered(Read(st, fd, size))
    case Write(fd, data) => Answered(Write(st, fd, data))
    case WriteUnread(fd, size) => Answered(Write(st, fd, st.heap[..size]))
    case Lseek(fd, offset, whence) => Answered(Lseek(st, fd, offset, whence))
    case OpenDir(_, path) => Answered(OpenDir(st, path))
    case CloseDir(dd) => Answered(CloseDir(st, dd))
    case ReadDir(dd) => Answered(ReadDir(st, dd))
    case Other(number, _) => if Recognised(number) then Answered(Others(st, number)) else (st, None)
  }

  function Answered(r: (State, Reply)): (State, Option<Reply>) {
    (r.0, Some(r.1))
  }

  /** Every response has the size its packet announces. */
  lemma HandleGood(st: State, r: Request)
    requires r.Other? ==> r.number !in [OPEN, CLOSE, READ, WRITE, LSEEK, OPENDIR, CLOSEDIR, READDIR]
    ensures var reply := Handle(st, r).1;
            && (reply.Some? <==> Recognised(NumberOf(r)))
            && (reply.Some? ==> GoodReply(NumberOf(r), reply.value))
  {
  }

  // ---------- The service over a stream ----------

  function WireReply(number: uint32, reply: Option<Reply>): seq<byte> {
    if reply.Some? && Recognised(number) && GoodReply(number, reply.value) then EncodeReply(number, reply.value) else []
  }

  /** A whole frame: the state after it, and what is sent. */
  function Perform(st: State, f: Frame): (State, seq<byte>)
    requires Shaped(f.number, f.body)
  {
    var (next, reply) := Handle(st, Parse(f));
    (next, WireReply(f.number, reply))
  }

  /**
   One packet whose header and body are in: the state after it, what is left to receive, and
   what is sent. A WRITE whose data is cut off by the end of the stream does nothing.
   */
  function Outcome(st: State, incoming: seq<byte>, number: uint32, body: seq<byte>): (State, seq<byte>, seq<byte>)
    requires Shaped(number, body)
  {
    var size := PayloadSize(number, body);
    if |incoming| < size then (st, [], [])
    else var (next, sent) := Perform(st, Frame(number, body, incoming[..size])); (next, incoming[size..], sent)
  }

  lemma PerformReply(st: State, f: Frame, request: Request, r: (State, Reply))
    requires Shaped(f.number, f.body) && Parse(f) == request && NumberOf(request) == f.number
    requires Handle(st, request) == Answered(r) && Recognised(f.number) && GoodReply(f.number, r.1)
    ensures Perform(st, f) == (r.0, EncodeReply(f.number, r.1))
  {
  }

  lemma OpenDirHandled(st: State, flags: uint32, path: seq<byte>)
    ensures Handle(st, Request.OpenDir(flags, path)) == Answered(OpenDir(st, path))
    ensures OpenDir(st, path).1.data == []
  {
  }

  lemma OpenHandled(st: State, flags: uint32, path: seq<byte>)
    ensures Handle(st, Request.Open(flags, path)) == Answered(Open(st, flags, path))
    ensures Open(st, flags, path).1.data == []
  {
  }

  lemma PerformWrite(st: State, f: Frame)
    requires f.number == WRITE && Shaped(f.number, f.body)
    ensures var size := Get32(f.body[4..]);
            var r := Write(st, Signed(Get32(f.body)), if size < HALF then f.payload else st.heap[..size]);
            Perform(st, f) == (r.0, EncodeReply(WRITE, r.1))
  {
  }

  /** How much a WRITE receives: a size of 2 GB or more is negative as an int. */
  function Receivable(size: uint32): (n: nat)
    ensures n == if size < HALF then size else 0
  {
    Max(0, Signed(size))
  }

  /** What a WRITE writes: the data received, or what the memory for it held. */
  function WriteData(size: uint32, incoming: seq<byte>, heap: Heap): seq<byte>
    requires Receivable(size) <= |incoming|
  {
    if size < HALF then incoming[..size] else heap[..size]
  }

  lemma OutcomeWrite(st: State, incoming: seq<byte>, body: seq<byte>)
    requires Shaped(WRITE, body)
    ensures var size := Get32(body[4..]);
            Outcome(st, incoming, WRITE, body) ==
            if |incoming| < Receivable(size) then (st, [], [])
            else
              var r := Write(st, Signed(Get32(body)), WriteData(size, incoming, st.heap));
              (r.0, incoming[Receivable(size)..], EncodeReply(WRITE, r.1))
  {
    var n := Receivable(Get32(body[4..]));
    assert PayloadSize(WRITE, body) == n;
    if n <= |incoming| { PerformWrite(st, Frame(WRITE, body, incoming[..n])); }
  }

  /** Without a payload to wait for, an answered request is performed at once. */
  lemma OutcomeAnswered(st: State, incoming: seq<byte>, number: uint32, body: seq<byte>, request: Request, r: (State, Reply))
    requires Shaped(number, body) && number != WRITE && Recognised(number) && GoodReply(number, r.1)
    requires Parse(Frame(number, body, [])) == request && NumberOf(request) == number
    requires Handle(st, request) == Answered(r)
    ensures Outcome(st, incoming, number, body) == (r.0, incoming, EncodeReply(number, r.1))
  {
    OutcomeAtOnce(st, incoming, number, body);
    PerformReply(st, Frame(number, body, []), request, r);
  }

  lemma ParsePath(body: seq<byte>)
    requires Shaped(OPEN, body)
    ensures Parse(Frame(OPEN, body, [])) == Request.Open(Get32(body), CString(body[4..]))
    ensures Parse(Frame(OPENDIR, body, [])) == Request.OpenDir(Get32(body), CString(body[4..]))
  {
  }

  /** OPEN and OPENDIR are answered with a result alone. */
  lemma OutcomePath(st: State, incoming: seq<byte>, number: uint32, body: seq<byte>, request: Request, r: (State, Reply))
    requires (number == OPEN || number == OPENDIR) && Shaped(number, body) && r.1.data == []
    requires Parse(Frame(number, body, [])) == request && NumberOf(request) == number
    requires Handle(st, request) == Answered(r)
    ensures Outcome(st, incoming, number, body) == (r.0, incoming, EncodeReply(number, r.1))
  {
    OutcomeAnswered(st, incoming, number, body, request, r);
  }

  lemma OutcomeOpen(st: State, incoming: seq<byte>, body: seq<byte>)
    requires Shaped(OPEN, body)
    ensures var r := Open(st, Get32(body), CString(body[4..]));
            Outcome(st, incoming, OPEN, body) == (r.0, incoming, EncodeReply(OPEN, r.1))
  {
    ParsePath(body);
    var (flags, path) := (Get32(body), CString(body[4..]));
    OpenHandled(st, flags, path);
    OutcomePath(st, incoming, OPEN, body, Request.Open(flags, path), Open(st, flags, path));
  }

  lemma OutcomeOpenDir(st: State, incoming: seq<byte>, body: seq<byte>)
    requires Shaped(OPENDIR, body)
    ensures var r := OpenDir(st, CString(body[4..]));
            Outcome(st, incoming, OPENDIR, body) == (r.0, incoming, EncodeReply(OPENDIR, r.1))
  {
    ParsePath(body);
    var (flags, path) := (Get32(body), CString(body[4..]));
    OpenDirHandled(st, flags, path);
    OutcomePath(st, incoming, OPENDIR, body, Request.OpenDir(flags, path), OpenDir(st, path));
  }

  lemma OutcomeRead(st: State, incoming: seq<byte>, body: seq<byte>)
    requires Shaped(READ, body)
    ensures var r := Read(st, Signed(Get32(body)), Get32(body[4..]));
            Outcome(st, incoming, READ, body) == (r.0, incoming, EncodeReply(READ, r.1))
  {
    var (fd, size) := (Signed(Get32(body)), Get32(body[4..]));
    OutcomeAnswered(st, incoming, READ, body, Request.Read(fd, size), Read(st, fd, size));
  }

  lemma OutcomeLseek(st: State, incoming: seq<byte>, body: seq<byte>)
    requires Shaped(LSEEK, body)
    ensures var r := Lseek(st, Signed(Get32(body)), Get32(body[4..]), Get32(body[8..]));
            Outcome(st, incoming, LSEEK, body) == (r.0, incoming, EncodeReply(LSEEK, r.1))
  {
    var (fd, offset, whence) := (Signed(Get32(body)), Get32(body[4..]), Get32(body[8..]));
    OutcomeAnswered(st, incoming, LSEEK, body, Request.Lseek(fd, offset, whence), Lseek(st, fd, offset, whence));
  }

  /** Without a payload to wait for, the outcome is the frame performed. */
  lemma OutcomeAtOnce(st: State, incoming: seq<byte>, number: uint32, body: seq<byte>)
    requires Shaped(number, body) && number != WRITE
    ensures var (next, sent) := Perform(st, Frame(number, body, [])); Outcome(st, incoming, number, body) == (next, incoming, sent)
  {
    assert incoming[..0] == [] && incoming[0..] == incoming;
  }

  /** The service from here to the end of the stream, `sent` being what it has sent before. */
  function Serve(st: State, sent: seq<byte>, stream: seq<byte>): (State, seq<byte>)
    decreases |stream|
  {
    match NextFrame(stream)
    case None => (st, sent)
    case Some((f, rest)) =>
      if !Shaped(f.number, f.body) then (st, sent)
      else var (next, more) := Perform(st, f); Serve(next, sent + more, rest)
  }

  /** The peer keeps to the documented packet shapes. */
  ghost predicate ShapedStream(stream: seq<byte>)
    decreases |stream|
  {
    match NextPacket(stream)
    case None => true
    case Some((number, body, rest)) =>
      Shaped(number, body) && (NextFrame(stream).Some? ==> ShapedStream(NextFrame(stream).value.1))
  }

  lemma {:induction false} ShapedAppend(p: seq<byte>, q: seq<byte>)
    requires Complete(p) && ShapedStream(p + q)
    ensures ShapedStream(p) && ShapedStream(q)
    decreases |p|
  {
    if p == [] {
      assert p + q == q;
    } else {
      NextPacketAppend(p, q);
      NextFrameAppend(p, q);
      ShapedAppend(NextFrame(p).value.1, q);
    }
  }

  /** The service goes on where it was, whole frame by whole frame. */
  lemma {:induction false} ServeAppend(st: State, sent: seq<byte>, p: seq<byte>, q: seq<byte>)
    requires Complete(p) && ShapedStream(p)
    ensures Serve(st, sent, p + q) == Serve(Serve(st, sent, p).0, Serve(st, sent, p).1, q)
    decreases |p|
  {
    if p == [] {
      assert p + q == q;
    } else {
      var (f, rest) := NextFrame(p).value;
      NextFrameAppend(p, q);
      var (next, more) := Perform(st, f);
      ServeAppend(next, sent + more, rest, q);
    }
  }

  /** One more whole frame after a run of whole frames. */
  lemma ServeOneMore(st: State, sent: seq<byte>, done: seq<byte>, left: seq<byte>)
    requires Complete(done) && ShapedStream(done + left) && NextFrame(left).Some?
    ensures var (f, rest) := NextFrame(left).value;
            && Shaped(f.number, f.body)
            && done + left == (done + EncodeFrame(f)) + rest && Complete(done + EncodeFrame(f))
            && var (mid, before) := Serve(st, sent, done); var (next, more) := Perform(mid, f);
               Serve(st, sent, done + EncodeFrame(f)) == (next, before + more)
  {
    var (f, rest) := NextFrame(left).value;
    NextFrameAlone(left);
    AppendAssociative(done, EncodeFrame(f), rest);
    CompleteAppend(done, EncodeFrame(f));
    ShapedAppend(done, left);
    ServeAppend(st, sent, done, EncodeFrame(f));
    var (mid, before) := Serve(st, sent, done);
    var (next, more) := Perform(mid, f);
    assert Serve(mid, before, EncodeFrame(f)) == Serve(next, before + more, []);
  }
}
