/** The request connection's packets, as both ends read and write them. */
module Protocol {
  import opened Bytes

  const OPEN: uint32 := 0xBABE0111
  const CLOSE: uint32 := 0xBABE0121
  const READ: uint32 := 0xBABE0131
  const WRITE: uint32 := 0xBABE0141
  const LSEEK: uint32 := 0xBABE0151
  const OPENDIR: uint32 := 0xBABE0161
  const CLOSEDIR: uint32 := 0xBABE0171
  const READDIR: uint32 := 0xBABE0181
  const REMOVE: uint32 := 0xBABE0191
  const MKDIR: uint32 := 0xBABE01A1
  const RMDIR: uint32 := 0xBABE01B1
  const GETSTAT: uint32 := 0xBABE01C1

  const HEADER := 6
  const BODY_SIZE := 512
  const PATH_SIZE := 256
  const HALF: uint32 := 0x8000_0000

  predicate Recognised(number: uint32) {
    number in [OPEN, CLOSE, READ, WRITE, LSEEK, OPENDIR, CLOSEDIR, READDIR, REMOVE, MKDIR, RMDIR, GETSTAT]
  }

  /** The requests that are answered, in the order of their numbers: sixteen apart, from 0xBABE0111 on. */
  lemma RequestNumbers(number: uint32)
    ensures Recognised(number) <==> exists i :: 0 <= i < 12 && number == 0xBABE0111 + 16 * i
    ensures [OPEN, CLOSE, READ, WRITE, LSEEK, OPENDIR, CLOSEDIR, READDIR, REMOVE, MKDIR, RMDIR, GETSTAT]
            == seq(12, i => 0xBABE0111 + 16 * i)
  {
    var numbers := [OPEN, CLOSE, READ, WRITE, LSEEK, OPENDIR, CLOSEDIR, READDIR, REMOVE, MKDIR, RMDIR, GETSTAT];
    assert numbers == seq(12, i => 0xBABE0111 + 16 * i);
    if Recognised(number) {
      var i :| 0 <= i < |numbers| && numbers[i] == number;
      assert number == 0xBABE0111 + 16 * i;
    }
    forall i | 0 <= i < 12 && number == 0xBABE0111 + 16 * i
      ensures Recognised(number)
    {
      assert numbers[i] == number;
    }
  }

  // ---------- Frames ----------

  /** A packet as the stream carries it: the payload is the data that follows a WRITE packet. */
  datatype Frame = Frame(number: uint32, body: seq<byte>, payload: seq<byte>)

  /** How much follows a packet: only WRITE announces data, in its second field. */
  function PayloadSize(number: uint32, body: seq<byte>): nat {
    if number == WRITE && 8 <= |body| then Max(0, Signed(Get32(body[4..]))) else 0
  }

  predicate GoodFrame(f: Frame) {
    |f.body| <= BODY_SIZE && |f.payload| == PayloadSize(f.number, f.body)
  }

  function EncodeHeader(number: uint32, size: nat): (s: seq<byte>)
    requires HEADER + size < 0x1_0000
    ensures |s| == HEADER
  {
    Put32(number) + Put16(HEADER + size)
  }

  function EncodeFrame(f: Frame): seq<byte>
    requires GoodFrame(f)
  {
    EncodeHeader(f.number, |f.body|) + (f.body + f.payload)
  }

  function HeaderNumber(s: seq<byte>): uint32
    requires HEADER <= |s|
  {
    Get32(s)
  }

  function HeaderLength(s: seq<byte>): nat
    requires HEADER <= |s|
  {
    Get16(s[4..])
  }

  lemma HeaderRoundTrip(number: uint32, size: nat, rest: seq<byte>)
    requires HEADER + size < 0x1_0000
    ensures var s := EncodeHeader(number, size) + rest;
            HeaderNumber(s) == number && HeaderLength(s) == HEADER + size && s[HEADER..] == rest
  {
    var s := EncodeHeader(number, size) + rest;
    assert s == Put32(number) + (Put16(HEADER + size) + rest);
    Get32Put32(number, Put16(HEADER + size) + rest);
    assert s[4..] == Put16(HEADER + size) + rest;
    Get16Put16(HEADER + size, rest);
  }

  /** The header and body at the front of a stream; None at end of stream or a bad length. */
  function NextPacket(stream: seq<byte>): (r: Option<(uint32, seq<byte>, seq<byte>)>)
    ensures r.Some? ==> HEADER + |r.value.1| + |r.value.2| == |stream| && |r.value.1| <= BODY_SIZE
  {
    if |stream| < HEADER then None else
      var length := HeaderLength(stream);
      if length < HEADER || length - HEADER > BODY_SIZE || |stream| < length then None
      else Some((HeaderNumber(stream), stream[HEADER..length], stream[length..]))
  }

  /** The service stops at a header exactly when its length is outside 6..518 or its body is cut off. */
  lemma StopsAtBadLength(number: uint32, length: nat, rest: seq<byte>)
    requires length < 0x1_0000
    ensures NextPacket(Put32(number) + Put16(length) + rest).None? <==>
            length < 6 || length > 518 || |rest| < length - HEADER
  {
    var stream := Put32(number) + Put16(length) + rest;
    assert stream[4..] == Put16(length) + rest;
    Get16Put16(length, rest);
  }

  /** The whole frame at the front of a stream, and what follows it. */
  function NextFrame(stream: seq<byte>): (r: Option<(Frame, seq<byte>)>)
    ensures r.Some? ==> |r.value.1| < |stream| && GoodFrame(r.value.0)
  {
    match NextPacket(stream)
    case None => None
    case Some((number, body, rest)) =>
      var size := PayloadSize(number, body);
      if |rest| < size then None else Some((Frame(number, body, rest[..size]), rest[size..]))
  }

  /** A frame takes exactly its own bytes off the stream, whatever its number is. */
  lemma NextEncoded(f: Frame, rest: seq<byte>)
    requires GoodFrame(f)
    ensures NextFrame(EncodeFrame(f) + rest) == Some((f, rest))
  {
    var after := f.body + (f.payload + rest);
    var stream := EncodeFrame(f) + rest;
    assert stream == EncodeHeader(f.number, |f.body|) + after;
    HeaderRoundTrip(f.number, |f.body|, after);
    assert stream[HEADER..HEADER + |f.body|] == after[..|f.body|] == f.body;
    assert stream[HEADER + |f.body|..] == after[|f.body|..] == f.payload + rest;
  }

  lemma NextPacketAppend(p: seq<byte>, q: seq<byte>)
    requires NextPacket(p).Some?
    ensures var (number, body, rest) := NextPacket(p).value; NextPacket(p + q) == Some((number, body, rest + q))
  {
    var length := HeaderLength(p);
    assert (p + q)[4..][..2] == p[4..][..2];
    assert (p + q)[2..][..2] == p[2..][..2];
    assert (p + q)[HEADER..length] == p[HEADER..length];
    assert (p + q)[length..] == p[length..] + q;
  }

  /** A frame that is whole stays what it is when more arrives. */
  lemma NextFrameAppend(p: seq<byte>, q: seq<byte>)
    requires NextFrame(p).Some?
    ensures NextFrame(p + q) == Some((NextFrame(p).value.0, NextFrame(p).value.1 + q))
  {
    NextPacketAppend(p, q);
    var (number, body, rest) := NextPacket(p).value;
    var size := PayloadSize(number, body);
    assert (rest + q)[..size] == rest[..size] && (rest + q)[size..] == rest[size..] + q;
  }

  /** Nothing but whole frames. */
  ghost predicate Complete(p: seq<byte>)
    decreases |p|
  {
    p == [] || (NextFrame(p).Some? && Complete(NextFrame(p).value.1))
  }

  lemma {:induction false} CompleteAppend(p: seq<byte>, q: seq<byte>)
    requires Complete(p) && Complete(q)
    ensures Complete(p + q)
    decreases |p|
  {
    if p == [] {
      assert p + q == q;
    } else {
      NextFrameAppend(p, q);
      CompleteAppend(NextFrame(p).value.1, q);
    }
  }

  ghost predicate GoodFrames(fs: seq<Frame>) {
    forall i :: 0 <= i < |fs| ==> GoodFrame(fs[i])
  }

  function EncodeFrames(fs: seq<Frame>): seq<byte>
    requires GoodFrames(fs)
  {
    if fs == [] then [] else EncodeFrame(fs[0]) + EncodeFrames(fs[1..])
  }

  /** Taking frames off the stream one by one gives `fs` and leaves `left`. */
  ghost predicate Decodes(stream: seq<byte>, fs: seq<Frame>, left: seq<byte>) {
    if fs == [] then stream == left
    else match NextFrame(stream)
      case None => false
      case Some((f, rest)) => f == fs[0] && Decodes(rest, fs[1..], left)
  }

  /** Any sequence of frames is decoded to itself, and decoding goes on with what follows. */
  lemma {:induction false} FramesInStep(fs: seq<Frame>, rest: seq<byte>)
    requires GoodFrames(fs)
    ensures Decodes(EncodeFrames(fs) + rest, fs, rest)
    decreases |fs|
  {
    if fs == [] {
      assert EncodeFrames(fs) + rest == rest;
    } else {
      var after := EncodeFrames(fs[1..]) + rest;
      assert EncodeFrames(fs) + rest == EncodeFrame(fs[0]) + after;
      NextEncoded(fs[0], after);
      FramesInStep(fs[1..], rest);
    }
  }

  lemma HeaderBytes(s: seq<byte>)
    requires HEADER <= |s| && HEADER <= HeaderLength(s)
    ensures EncodeHeader(HeaderNumber(s), HeaderLength(s) - HEADER) == s[..HEADER]
  {
    assert Get32(s[..4]) == Get32(s) by {
      assert s[..4][2..] == s[2..4];
    }
    Put32Get32(s[..4]);
    assert Put16(Get16(s[4..])) == s[4..HEADER];
    assert s[..HEADER] == s[..4] + s[4..HEADER];
  }

  lemma Reassembled(s: seq<byte>, i: nat, j: nat, k: nat)
    requires i <= j <= k <= |s|
    ensures s[..i] + (s[i..j] + s[j..][..k - j]) + s[j..][k - j..] == s
  {
  }

  lemma NextFrameBytes(stream: seq<byte>)
    requires NextFrame(stream).Some?
    ensures var (f, rest) := NextFrame(stream).value; EncodeFrame(f) + rest == stream
  {
    var f := NextFrame(stream).value.0;
    var length := HeaderLength(stream);
    HeaderBytes(stream);
    Reassembled(stream, HEADER, length, length + |f.payload|);
  }

  lemma NextFrameAlone(stream: seq<byte>)
    requires NextFrame(stream).Some?
    ensures var (f, rest) := NextFrame(stream).value;
            EncodeFrame(f) + rest == stream && Complete(EncodeFrame(f)) && NextFrame(EncodeFrame(f)) == Some((f, []))
  {
    var f := NextFrame(stream).value.0;
    NextFrameBytes(stream);
    NextEncoded(f, []);
    assert EncodeFrame(f) + [] == EncodeFrame(f);
  }

  /** Decoding drops no byte: what is decoded is what was sent. */
  lemma {:induction false} FramesAreTheStream(stream: seq<byte>, fs: seq<Frame>, left: seq<byte>)
    requires Decodes(stream, fs, left)
    ensures GoodFrames(fs) && EncodeFrames(fs) + left == stream
    decreases |fs|
  {
    if fs == [] {
      assert EncodeFrames(fs) + left == left;
    } else {
      var (f, others, rest) := (fs[0], fs[1..], NextFrame(stream).value.1);
      FramesAreTheStream(rest, others, left);
      assert GoodFrames(fs) by {
        assert forall i :: 1 <= i < |fs| ==> fs[i] == others[i - 1];
      }
      assert stream == EncodeFrame(f) + (EncodeFrames(others) + left) by {
        NextFrameBytes(stream);
      }
      AppendAssociative(EncodeFrame(f), EncodeFrames(others), left);
    }
  }

  // ---------- Requests ----------

  /**
   `WriteUnread` is a WRITE of 2 GB or more, whose data the client does not take for the request's;
   `Other` is REMOVE, MKDIR, RMDIR, GETSTAT and every number ps2link does not use.
   */
  datatype Request =
    | Open(flags: uint32, path: seq<byte>)
    | Close(fd: int32)
    | Read(fd: int32, size: uint32)
    | Write(fd: int32, data: seq<byte>)
    | WriteUnread(fd: int32, size: uint32)
    | Lseek(fd: int32, offset: uint32, whence: uint32)
    | OpenDir(flags: uint32, path: seq<byte>)
    | CloseDir(dd: uint32)
    | ReadDir(dd: uint32)
    | Other(number: uint32, body: seq<byte>)

  /** The packet is as long as its documented shape, and its path ends. */
  predicate Shaped(number: uint32, body: seq<byte>) {
    if number == OPEN || number == OPENDIR then 4 + PATH_SIZE <= |body| && 0 in body[4..4 + PATH_SIZE]
    else if number == CLOSE || number == CLOSEDIR || number == READDIR then 4 <= |body|
    else if number == READ || number == WRITE then 8 <= |body|
    else if number == LSEEK then 12 <= |body|
    else true
  }

  function Parse(f: Frame): Request
    requires Shaped(f.number, f.body)
  {
    if f.number == OPEN then Open(Get32(f.body), CString(f.body[4..]))
    else if f.number == CLOSE then Close(Signed(Get32(f.body)))
    else if f.number == READ then Read(Signed(Get32(f.body)), Get32(f.body[4..]))
    else if f.number == WRITE && Get32(f.body[4..]) < HALF then Write(Signed(Get32(f.body)), f.payload)
    else if f.number == WRITE then WriteUnread(Signed(Get32(f.body)), Get32(f.body[4..]))
    else if f.number == LSEEK then Lseek(Signed(Get32(f.body)), Get32(f.body[4..]), Get32(f.body[8..]))
    else if f.number == OPENDIR then OpenDir(Get32(f.body), CString(f.body[4..]))
    else if f.number == CLOSEDIR then CloseDir(Get32(f.body))
    else if f.number == READDIR then ReadDir(Get32(f.body))
    else Other(f.number, f.body)
  }

  /** What a peer can ask for. */
  predicate Askable(r: Request) {
    match r
    case Open(_, path) => |path| < PATH_SIZE && 0 !in path
    case OpenDir(_, path) => |path| < PATH_SIZE && 0 !in path
    case Write(_, data) => |data| < HALF
    case WriteUnread(_, size) => size >= HALF
    case Other(number, body) => number !in [OPEN, CLOSE, READ, WRITE, LSEEK, OPENDIR, CLOSEDIR, READDIR] && |body| <= BODY_SIZE
    case _ => true
  }

  function NumberOf(r: Request): uint32 {
    match r
    case Open(_, _) => OPEN
    case Close(_) => CLOSE
    case Read(_, _) => READ
    case Write(_, _) => WRITE
    case WriteUnread(_, _) => WRITE
    case Lseek(_, _, _) => LSEEK
    case OpenDir(_, _) => OPENDIR
    case CloseDir(_) => CLOSEDIR
    case ReadDir(_) => READDIR
    case Other(number, _) => number
  }

  /** A path field: the path, and nulls to the end. */
  function PathField(path: seq<byte>): (s: seq<byte>)
    requires |path| < PATH_SIZE
    ensures |s| == PATH_SIZE
  {
    path + [0] + seq(PATH_SIZE - 1 - |path|, _ => 0)
  }

  function BodyOf(r: Request): seq<byte>
    requires Askable(r)
  {
    match r
    case Open(flags, path) => Put32(flags) + PathField(path)
    case Close(fd) => Put32(Unsigned(fd))
    case Read(fd, size) => Put32(Unsigned(fd)) + Put32(size)
    case Write(fd, data) => Put32(Unsigned(fd)) + Put32(|data|)
    case WriteUnread(fd, size) => Put32(Unsigned(fd)) + Put32(size)
    case Lseek(fd, offset, whence) => Put32(Unsigned(fd)) + (Put32(offset) + Put32(whence))
    case OpenDir(flags, path) => Put32(flags) + PathField(path)
    case CloseDir(dd) => Put32(dd)
    case ReadDir(dd) => Put32(dd)
    case Other(_, body) => body
  }

  function PayloadOf(r: Request): seq<byte> {
    if r.Write? then r.data else []
  }

  /** The request as the peer packs it. */
  function FrameOf(r: Request): Frame
    requires Askable(r)
  {
    Frame(NumberOf(r), BodyOf(r), PayloadOf(r))
  }

  lemma FieldsRoundTrip(u: uint32, v: uint32, rest: seq<byte>)
    ensures Get32(Put32(u) + rest) == u
    ensures (Put32(u) + rest)[4..] == rest
    ensures Get32((Put32(u) + (Put32(v) + rest))[4..]) == v
    ensures (Put32(u) + (Put32(v) + rest))[8..] == rest
  {
    Get32Put32(u, rest);
    Get32Put32(v, rest);
    assert (Put32(u) + (Put32(v) + rest))[4..] == Put32(v) + rest;
  }

  lemma PathRoundTrip(flags: uint32, path: seq<byte>)
    requires |path| < PATH_SIZE && 0 !in path
    ensures var body := Put32(flags) + PathField(path);
            Get32(body) == flags && CString(body[4..]) == path && 0 in body[4..4 + PATH_SIZE]
  {
    var body := Put32(flags) + PathField(path);
    FieldsRoundTrip(flags, 0, PathField(path));
    CStringStops(path, seq(PATH_SIZE - 1 - |path|, _ => 0));
    assert body[4..4 + PATH_SIZE] == PathField(path);
    assert PathField(path)[|path|] == 0;
  }

  lemma PathRequests(flags: uint32, path: seq<byte>)
    requires |path| < PATH_SIZE && 0 !in path
    ensures RoundTrips(Open(flags, path)) && RoundTrips(OpenDir(flags, path))
  {
    PathRoundTrip(flags, path);
  }

  lemma FieldRequests(fd: int32, dd: uint32)
    ensures RoundTrips(Close(fd)) && RoundTrips(CloseDir(dd)) && RoundTrips(ReadDir(dd))
  {
    FieldRoundTrip(Unsigned(fd));
    SignedOfUnsigned(fd);
    FieldRoundTrip(dd);
  }

  lemma ReadRequest(fd: int32, size: uint32)
    ensures RoundTrips(Read(fd, size))
  {
    TwoFieldsRoundTrip(Unsigned(fd), size);
    SignedOfUnsigned(fd);
  }

  lemma WriteRequest(fd: int32, data: seq<byte>)
    requires |data| < HALF
    ensures RoundTrips(Write(fd, data))
  {
    TwoFieldsRoundTrip(Unsigned(fd), |data|);
    SignedOfUnsigned(fd);
    assert Signed(|data|) == |data|;
  }

  lemma WriteUnreadRequest(fd: int32, size: uint32)
    requires HALF <= size
    ensures RoundTrips(WriteUnread(fd, size))
  {
    TwoFieldsRoundTrip(Unsigned(fd), size);
    SignedOfUnsigned(fd);
    assert Signed(size) < 0;
  }

  lemma LseekRequest(fd: int32, offset: uint32, whence: uint32)
    ensures RoundTrips(Lseek(fd, offset, whence))
  {
    ThreeFieldsRoundTrip(Unsigned(fd), offset, whence);
    SignedOfUnsigned(fd);
  }

  predicate RoundTrips(r: Request)
    requires Askable(r)
  {
    GoodFrame(FrameOf(r)) && Shaped(NumberOf(r), BodyOf(r)) && Parse(FrameOf(r)) == r
  }

  /** The client reads back exactly what the peer asked. */
  lemma RequestRoundTrip(r: Request)
    requires Askable(r)
    ensures GoodFrame(FrameOf(r)) && Shaped(NumberOf(r), BodyOf(r)) && Parse(FrameOf(r)) == r
  {
    assert RoundTrips(r) by {
      match r
      case Open(flags, path) => PathRequests(flags, path);
      case OpenDir(flags, path) => PathRequests(flags, path);
      case Close(fd) => FieldRequests(fd, 0);
      case Read(fd, size) => ReadRequest(fd, size);
      case Write(fd, data) => WriteRequest(fd, data);
      case WriteUnread(fd, size) => WriteUnreadRequest(fd, size);
      case Lseek(fd, offset, whence) => LseekRequest(fd, offset, whence);
      case CloseDir(dd) => FieldRequests(0, dd);
      case ReadDir(dd) => FieldRequests(0, dd);
      case Other(_, _) =>
    }
  }

  lemma FieldRoundTrip(u: uint32)
    ensures Get32(Put32(u)) == u
  {
    Get32Put32(u, []);
    assert Put32(u) + [] == Put32(u);
  }

  lemma TwoFieldsRoundTrip(u: uint32, v: uint32)
    ensures var body := Put32(u) + Put32(v); Get32(body) == u && Get32(body[4..]) == v
  {
    Get32Put32(u, Put32(v));
    assert (Put32(u) + Put32(v))[4..] == Put32(v);
    FieldRoundTrip(v);
  }

  lemma ThreeFieldsRoundTrip(u: uint32, v: uint32, w: uint32)
    ensures var body := Put32(u) + (Put32(v) + Put32(w));
            Get32(body) == u && Get32(body[4..]) == v && Get32(body[8..]) == w
  {
    var body := Put32(u) + (Put32(v) + Put32(w));
    Get32Put32(u, Put32(v) + Put32(w));
    assert body[4..] == Put32(v) + Put32(w);
    assert body[8..] == body[4..][4..];
    TwoFieldsRoundTrip(v, w);
  }

  // ---------- Where the fields are ----------

  lemma FrameLayout(f: Frame)
    requires GoodFrame(f)
    ensures var s := EncodeFrame(f);
            && |s| == 6 + |f.body| + |f.payload| && Get32(s) == f.number && Get16(s[4..]) == 6 + |f.body|
            && s[6..] == f.body + f.payload
  {
    HeaderRoundTrip(f.number, |f.body|, f.body + f.payload);
  }

  lemma OneField(s: seq<byte>, at: nat, u: uint32, rest: seq<byte>)
    requires at <= |s| && s[at..] == Put32(u) + rest
    ensures Get32(s[at..]) == u && at + 4 <= |s| && s[at + 4..] == rest
  {
    Get32Put32(u, rest);
    assert s[at + 4..] == s[at..][4..];
  }

  lemma TwoFields(s: seq<byte>, u: uint32, v: uint32, rest: seq<byte>)
    requires 6 <= |s| && s[6..] == Put32(u) + (Put32(v) + rest)
    ensures |s| >= 14 && Get32(s[6..]) == u && Get32(s[10..]) == v && s[14..] == rest
  {
    OneField(s, 6, u, Put32(v) + rest);
    OneField(s, 10, v, rest);
  }

  lemma PathLayout(s: seq<byte>, flags: uint32, path: seq<byte>)
    requires 6 <= |s| && |path| < PATH_SIZE && 0 !in path && s[6..] == Put32(flags) + PathField(path)
    ensures Get32(s[6..]) == flags && CString(s[10..]) == path
  {
    OneField(s, 6, flags, PathField(path));
    CStringStops(path, seq(PATH_SIZE - 1 - |path|, _ => 0));
  }

  /** The packet of a request, byte offset by byte offset: the number, the length, and the fields in their places. */
  predicate LaidOut(r: Request, s: seq<byte>) {
    && |s| >= 6 && Get32(s) == NumberOf(r)
    && match r
       case Open(flags, path) => |s| == 266 == Get16(s[4..]) && Get32(s[6..]) == flags && CString(s[10..]) == path
       case OpenDir(flags, path) => |s| == 266 == Get16(s[4..]) && Get32(s[6..]) == flags && CString(s[10..]) == path
       case Close(fd) => |s| == 10 == Get16(s[4..]) && Signed(Get32(s[6..])) == fd
       case Read(fd, size) => |s| == 14 == Get16(s[4..]) && Signed(Get32(s[6..])) == fd && Get32(s[10..]) == size
       case Write(fd, data) =>
         |s| == 14 + |data| && Get16(s[4..]) == 14 && Signed(Get32(s[6..])) == fd && Get32(s[10..]) == |data| && s[14..] == data
       case WriteUnread(fd, size) => |s| == 14 == Get16(s[4..]) && Signed(Get32(s[6..])) == fd && Get32(s[10..]) == size
       case Lseek(fd, offset, whence) =>
         |s| == 18 == Get16(s[4..]) && Signed(Get32(s[6..])) == fd && Get32(s[10..]) == offset && Get32(s[14..]) == whence
       case CloseDir(dd) => |s| == 10 == Get16(s[4..]) && Get32(s[6..]) == dd
       case ReadDir(dd) => |s| == 10 == Get16(s[4..]) && Get32(s[6..]) == dd
       case Other(_, body) => Get16(s[4..]) == |s| && s[6..] == body
  }

  lemma PathRequestLayout(r: Request, s: seq<byte>, flags: uint32, path: seq<byte>)
    requires |path| < PATH_SIZE && 0 !in path && (r == Open(flags, path) || r == OpenDir(flags, path))
    requires |s| == 266 && Get32(s) == NumberOf(r) && Get16(s[4..]) == 266 && s[6..] == Put32(flags) + PathField(path)
    ensures LaidOut(r, s)
  {
    PathLayout(s, flags, path);
  }

  lemma PathBody(r: Request)
    requires Askable(r) && (r.Open? || r.OpenDir?)
    ensures BodyOf(r) == Put32(r.flags) + PathField(r.path) && |BodyOf(r)| == 260 && PayloadOf(r) == []
  {
  }

  lemma PathFrameLayout(r: Request)
    requires Askable(r) && (r.Open? || r.OpenDir?) && GoodFrame(FrameOf(r))
    ensures LaidOut(r, EncodeFrame(FrameOf(r)))
  {
    var s := EncodeFrame(FrameOf(r));
    PathBody(r);
    FrameLayout(FrameOf(r));
    assert s[6..] == BodyOf(r) + [] == BodyOf(r);
    PathRequestLayout(r, s, r.flags, r.path);
  }

  lemma OneNumberLayout(r: Request, s: seq<byte>, u: uint32)
    requires r == Close(Signed(u)) || r == CloseDir(u) || r == ReadDir(u)
    requires |s| == 10 == Get16(s[4..]) && Get32(s) == NumberOf(r) && s[6..] == Put32(u) + []
    ensures LaidOut(r, s)
  {
    OneField(s, 6, u, []);
  }

  lemma TwoNumbersLayout(r: Request, s: seq<byte>, u: uint32, v: uint32, rest: seq<byte>)
    requires if r.Write? then r == Write(Signed(u), rest) && v == |rest|
             else (r == Read(Signed(u), v) || r == WriteUnread(Signed(u), v)) && rest == []
    requires |s| == 14 + |rest| && Get16(s[4..]) == 14 && Get32(s) == NumberOf(r)
    requires s[6..] == Put32(u) + (Put32(v) + rest)
    ensures LaidOut(r, s)
  {
    TwoFields(s, u, v, rest);
  }

  lemma ThreeNumbersLayout(s: seq<byte>, u: uint32, v: uint32, w: uint32)
    requires |s| == 18 == Get16(s[4..]) && Get32(s) == LSEEK && s[6..] == Put32(u) + (Put32(v) + (Put32(w) + []))
    ensures LaidOut(Lseek(Signed(u), v, w), s)
  {
    TwoFields(s, u, v, Put32(w) + []);
    OneField(s, 14, w, []);
  }

  /** A request that is one, two or three numbers, and the data after it. */
  lemma NumberFrameLayout(r: Request)
    requires Askable(r) && GoodFrame(FrameOf(r)) && !r.Open? && !r.OpenDir? && !r.Other?
    ensures LaidOut(r, EncodeFrame(FrameOf(r)))
  {
    var s := EncodeFrame(FrameOf(r));
    FrameLayout(FrameOf(r));
    if r.Close? || r.Read? || r.Write? || r.WriteUnread? || r.Lseek? { SignedOfUnsigned(r.fd); }
    match r
    case Close(fd) => OneNumberLayout(r, s, Unsigned(fd));
    case CloseDir(dd) => OneNumberLayout(r, s, dd);
    case ReadDir(dd) => OneNumberLayout(r, s, dd);
    case Read(fd, size) => TwoNumbersLayout(r, s, Unsigned(fd), size, []);
    case WriteUnread(fd, size) => TwoNumbersLayout(r, s, Unsigned(fd), size, []);
    case Write(fd, data) => TwoNumbersLayout(r, s, Unsigned(fd), |data|, data);
    case Lseek(fd, offset, whence) => ThreeNumbersLayout(s, Unsigned(fd), offset, whence);
  }

  lemma RequestLayout(r: Request)
    requires Askable(r)
    ensures GoodFrame(FrameOf(r)) && LaidOut(r, EncodeFrame(FrameOf(r)))
  {
    RequestRoundTrip(r);
    if r.Open? || r.OpenDir? {
      PathFrameLayout(r);
    } else if r.Other? {
      FrameLayout(FrameOf(r));
      assert r.body + [] == r.body;
    } else {
      NumberFrameLayout(r);
    }
  }

  /** A WRITE packet and its data are taken together exactly when the data is shorter than 2 GB. */
  lemma WriteTaken(fd: int32, data: seq<byte>, rest: seq<byte>)
    requires |data| < 0x1_0000_0000
    ensures var body := Put32(Unsigned(fd)) + Put32(|data|);
            NextFrame(EncodeHeader(WRITE, 8) + (body + (data + rest))) == Some((Frame(WRITE, body, data), rest))
            <==> |data| < HALF
  {
    var body := Put32(Unsigned(fd)) + Put32(|data|);
    var stream := EncodeHeader(WRITE, 8) + (body + (data + rest));
    HeaderRoundTrip(WRITE, 8, body + (data + rest));
    TwoFieldsRoundTrip(Unsigned(fd), |data|);
    assert stream[HEADER..14] == body;
    assert stream[14..] == data + rest;
    assert (data + rest)[..|data|] == data && (data + rest)[|data|..] == rest;
  }

  // ---------- Replies ----------

  /** A result, and what follows it: file data after READ, attributes after READDIR and GETSTAT. */
  datatype Reply = Reply(result: int32, data: seq<byte>)

  function ResponseNumber(number: uint32): uint32
    requires Recognised(number)
  {
    if number == OPEN then 0xBABE0112
    else if number == CLOSE then 0xBABE0122
    else if number == READ then 0xBABE0132
    else if number == WRITE then 0xBABE0142
    else if number == LSEEK then 0xBABE0152
    else if number == OPENDIR then 0xBABE0162
    else if number == CLOSEDIR then 0xBABE0172
    else if number == READDIR then 0xBABE0182
    else if number == REMOVE then 0xBABE0192
    else if number == MKDIR then 0xBABE01A2
    else if number == RMDIR then 0xBABE01B2
    else 0xBABE01C2
  }

  /** The bytes of a response packet after its result. */
  function ExtraSize(number: uint32): nat {
    if number == READ then 4 else if number == READDIR then 296 else if number == GETSTAT then 40 else 0
  }

  predicate GoodReply(number: uint32, r: Reply) {
    if number == READ then |r.data| == Max(0, r.result) else |r.data| == ExtraSize(number)
  }

  /** A READ response repeats its result as the size, and the data follows the packet. */
  function EncodeReply(number: uint32, r: Reply): seq<byte>
    requires Recognised(number) && GoodReply(number, r)
  {
    EncodeHeader(ResponseNumber(number), 4 + ExtraSize(number)) +
    (Put32(Unsigned(r.result)) + (if number == READ then Put32(Unsigned(r.result)) + r.data else r.data))
  }

  /** What the peer takes off its stream after a request with this number. */
  function DecodeReply(number: uint32, stream: seq<byte>): Option<(Reply, seq<byte>)> {
    if |stream| < HEADER + 4 + ExtraSize(number) then None else
      var result := Signed(Get32(stream[6..]));
      if number == READ then
        var size := Max(0, Signed(Get32(stream[10..])));
        if |stream| < 14 + size then None else Some((Reply(result, stream[14..14 + size]), stream[14 + size..]))
      else
        var end := 10 + ExtraSize(number);
        Some((Reply(result, stream[10..end]), stream[end..]))
  }

  /** A response is numbered one up from its request, and its length field is its packet's size. */
  lemma ReplyHeader(number: uint32, r: Reply)
    requires Recognised(number) && GoodReply(number, r)
    ensures var s := EncodeReply(number, r);
            && HeaderNumber(s) == number + 1
            && HeaderLength(s) == 10 + ExtraSize(number)
            && |s| == HeaderLength(s) + (if number == READ then Max(0, r.result) else 0)
  {
    var after := Put32(Unsigned(r.result)) + (if number == READ then Put32(Unsigned(r.result)) + r.data else r.data);
    HeaderRoundTrip(ResponseNumber(number), 4 + ExtraSize(number), after);
  }

  lemma ReadReplyLayout(r: Reply, rest: seq<byte>)
    requires GoodReply(READ, r)
    ensures var result := Put32(Unsigned(r.result));
            var stream := EncodeReply(READ, r) + rest;
            && |stream| == 14 + |r.data| + |rest| && stream[6..] == result + (result + (r.data + rest))
            && stream[10..] == result + (r.data + rest) && stream[14..] == r.data + rest
  {
    var result := Put32(Unsigned(r.result));
    var stream := EncodeReply(READ, r) + rest;
    assert stream == EncodeHeader(ResponseNumber(READ), 8) + (result + (result + (r.data + rest)));
    assert stream[10..] == stream[6..][4..];
    assert stream[14..] == stream[10..][4..];
  }

  lemma ReadReplyRoundTrip(r: Reply, rest: seq<byte>)
    requires GoodReply(READ, r)
    ensures DecodeReply(READ, EncodeReply(READ, r) + rest) == Some((r, rest))
  {
    var u := Unsigned(r.result);
    var stream := EncodeReply(READ, r) + rest;
    ReadReplyLayout(r, rest);
    assert Get32(stream[6..]) == u by {
      Get32Put32(u, Put32(u) + (r.data + rest));
    }
    assert Get32(stream[10..]) == u by {
      Get32Put32(u, r.data + rest);
    }
    SignedOfUnsigned(r.result);
    assert stream[14..14 + |r.data|] == (r.data + rest)[..|r.data|] == r.data;
    assert stream[14 + |r.data|..] == (r.data + rest)[|r.data|..] == rest;
  }

  lemma PlainReplyRoundTrip(number: uint32, r: Reply, rest: seq<byte>)
    requires Recognised(number) && number != READ && GoodReply(number, r)
    ensures DecodeReply(number, EncodeReply(number, r) + rest) == Some((r, rest))
  {
    var stream := EncodeReply(number, r) + rest;
    var after := Put32(Unsigned(r.result)) + (r.data + rest);
    assert stream == EncodeHeader(ResponseNumber(number), 4 + ExtraSize(number)) + after;
    assert stream[6..] == after;
    assert stream[10..] == r.data + rest;
    Get32Put32(Unsigned(r.result), r.data + rest);
    SignedOfUnsigned(r.result);
    assert stream[10..10 + |r.data|] == r.data;
    assert stream[10 + |r.data|..] == rest;
  }

  /** A peer that knows what it asked recovers the result and the data, and is left in step. */
  lemma ReplyRoundTrip(number: uint32, r: Reply, rest: seq<byte>)
    requires Recognised(number) && GoodReply(number, r)
    ensures DecodeReply(number, EncodeReply(number, r) + rest) == Some((r, rest))
  {
    if number == READ {
      ReadReplyRoundTrip(r, rest);
    } else {
      PlainReplyRoundTrip(number, r, rest);
    }
  }
}
