/** What the request service means for a peer: its requests are file operations, done one by one. */
module ServerFacts {
  import opened Bytes
  import Server
  import opened Utility
  import opened Protocol
  import H = HostFiles
  import S = ServerSpec

  ghost predicate AllAskable(rs: seq<Request>) {
    forall i :: 0 <= i < |rs| ==> Askable(rs[i])
  }

  function EncodeRequests(rs: seq<Request>): seq<byte>
    requires AllAskable(rs)
  {
    if rs == [] then [] else
      RequestRoundTrip(rs[0]);
      EncodeFrame(FrameOf(rs[0])) + EncodeRequests(rs[1..])
  }

  function AddReply(replies: seq<Reply>, reply: Option<Reply>): seq<Reply> {
    if reply.Some? then replies + [reply.value] else replies
  }

  /** The requests performed one after the other, with the replies so far. */
  function RunRequests(st: S.State, replies: seq<Reply>, rs: seq<Request>): (S.State, seq<Reply>)
    decreases |rs|
  {
    if rs == [] then (st, replies) else
      var (next, reply) := S.Handle(st, rs[0]);
      RunRequests(next, AddReply(replies, reply), rs[1..])
  }

  /** What a peer that remembers its requests reads from the response stream. */
  function ReadReplies(rs: seq<Request>, replies: seq<Reply>, stream: seq<byte>): Option<(seq<Reply>, seq<byte>)>
    decreases |rs|
  {
    if rs == [] then Some((replies, stream))
    else if !Recognised(NumberOf(rs[0])) then ReadReplies(rs[1..], replies, stream)
    else
      match DecodeReply(NumberOf(rs[0]), stream)
      case None => None
      case Some((reply, rest)) => ReadReplies(rs[1..], replies + [reply], rest)
  }

  lemma PerformRequest(st: S.State, r: Request)
    requires Askable(r)
    ensures GoodFrame(FrameOf(r)) && Shaped(FrameOf(r).number, FrameOf(r).body)
    ensures var (next, reply) := S.Handle(st, r);
            && (reply.Some? <==> Recognised(NumberOf(r)))
            && (reply.Some? ==> GoodReply(NumberOf(r), reply.value))
            && S.Perform(st, FrameOf(r)) == (next, if reply.Some? then EncodeReply(NumberOf(r), reply.value) else [])
  {
    RequestRoundTrip(r);
    S.HandleGood(st, r);
  }

  /** The first request on the wire is performed, and the service goes on in step. */
  lemma ServeRequest(st: S.State, sent: seq<byte>, r: Request, rest: seq<byte>)
    requires Askable(r)
    ensures GoodFrame(FrameOf(r)) && Shaped(FrameOf(r).number, FrameOf(r).body)
    ensures var (next, more) := S.Perform(st, FrameOf(r));
            S.Serve(st, sent, EncodeFrame(FrameOf(r)) + rest) == S.Serve(next, sent + more, rest)
    ensures S.ShapedStream(EncodeFrame(FrameOf(r)) + rest) <==> S.ShapedStream(rest)
  {
    PerformRequest(st, r);
    NextEncoded(FrameOf(r), rest);
  }

  lemma ReadFirstReply(st: S.State, rs: seq<Request>, replies: seq<Reply>, tail: seq<byte>)
    requires rs != [] && Askable(rs[0])
    ensures GoodFrame(FrameOf(rs[0])) && Shaped(FrameOf(rs[0]).number, FrameOf(rs[0]).body)
    ensures ReadReplies(rs, replies, S.Perform(st, FrameOf(rs[0])).1 + tail)
            == ReadReplies(rs[1..], AddReply(replies, S.Handle(st, rs[0]).1), tail)
  {
    var (r, reply) := (rs[0], S.Handle(st, rs[0]).1);
    PerformRequest(st, r);
    if reply.Some? {
      ReplyRoundTrip(NumberOf(r), reply.value, tail);
    } else {
      assert [] + tail == tail;
    }
  }

  lemma CutFront(sent: seq<byte>, more: seq<byte>, out: seq<byte>)
    requires sent + more <= out
    ensures sent <= out && out[|sent|..] == more + out[|sent + more|..]
  {
  }

  /** The replies a peer will read, as the service appends them to what it has sent. */
  lemma {:induction false} ServiceInStep(st: S.State, sent: seq<byte>, replies: seq<Reply>, rs: seq<Request>)
    requires AllAskable(rs)
    ensures S.ShapedStream(EncodeRequests(rs))
    ensures S.Serve(st, sent, EncodeRequests(rs)).0 == RunRequests(st, replies, rs).0
    ensures var out := S.Serve(st, sent, EncodeRequests(rs)).1;
            sent <= out && ReadReplies(rs, replies, out[|sent|..]) == Some((RunRequests(st, replies, rs).1, []))
    decreases |rs|
  {
    if rs != [] {
      var (r, others) := (rs[0], rs[1..]);
      PerformRequest(st, r);
      var (next, reply) := S.Handle(st, r);
      var more := S.Perform(st, FrameOf(r)).1;
      ServeRequest(st, sent, r, EncodeRequests(others));
      ServiceInStep(next, sent + more, AddReply(replies, reply), others);
      var out := S.Serve(st, sent, EncodeRequests(rs)).1;
      CutFront(sent, more, out);
      ReadFirstReply(st, rs, replies, out[|sent + more|..]);
    }
  }

  // ---------- Direct file operations ----------

  predicate FileRequest(r: Request) {
    r.Open? || r.Close? || r.Read? || r.Write? || r.Lseek?
  }

  /** The operating system call a request stands for. */
  function Direct(h: H.Host, r: Request): (H.Host, Reply)
    requires FileRequest(r)
  {
    match r
    case Open(flags, path) =>
      var (next, fd) :=
        if FixedPath(path) == S.PING then H.OpenHandle(h, H.NullDevice)
        else H.Open(h, FixedPath(path), FixFlags(flags));
      (next, Reply(fd, []))
    case Close(fd) => var (next, result) := H.Close(h, fd); (next, Reply(result, []))
    case Read(fd, size) => var (next, result, data) := H.Read(h, fd, size); (next, Reply(result, data))
    case Write(fd, data) => var (next, result) := H.Write(h, fd, data); (next, Reply(result, []))
    case Lseek(fd, offset, whence) => var (next, result) := H.Lseek(h, fd, offset, whence); (next, Reply(result, []))
  }

  function RunDirect(h: H.Host, replies: seq<Reply>, rs: seq<Request>): (H.Host, seq<Reply>)
    requires forall i :: 0 <= i < |rs| ==> FileRequest(rs[i])
    decreases |rs|
  {
    if rs == [] then (h, replies) else
      var (next, reply) := Direct(h, rs[0]);
      RunDirect(next, replies + [reply], rs[1..])
  }

  lemma HandleIsDirect(st: S.State, r: Request)
    requires FileRequest(r)
    ensures S.Handle(st, r).0.host == Direct(st.host, r).0
    ensures S.Handle(st, r).1 == Some(Direct(st.host, r).1)
  {
  }

  lemma {:induction false} RunIsDirect(st: S.State, replies: seq<Reply>, rs: seq<Request>)
    requires forall i :: 0 <= i < |rs| ==> FileRequest(rs[i])
    ensures RunRequests(st, replies, rs).0.host == RunDirect(st.host, replies, rs).0
    ensures RunRequests(st, replies, rs).1 == RunDirect(st.host, replies, rs).1
    decreases |rs|
  {
    if rs != [] {
      HandleIsDirect(st, rs[0]);
      RunIsDirect(S.Handle(st, rs[0]).0, replies + [Direct(st.host, rs[0]).1], rs[1..]);
    }
  }

  /**
   A peer that sends any file requests finds the files and reads the results exactly as if it had
   made the calls itself, one after the other.
   */
  lemma WireRefinesFiles(st: S.State, rs: seq<Request>)
    requires AllAskable(rs) && forall i :: 0 <= i < |rs| ==> FileRequest(rs[i])
    ensures var (served, out) := S.Serve(st, [], EncodeRequests(rs));
            var (files, replies) := RunDirect(st.host, [], rs);
            served.host == files && ReadReplies(rs, [], out) == Some((replies, []))
  {
    ServiceInStep(st, [], [], rs);
    RunIsDirect(st, [], rs);
    var out := S.Serve(st, [], EncodeRequests(rs)).1;
    assert out[0..] == out;
  }

  /**
   The thread and a peer together: whatever pieces the requests arrive in and the responses leave in,
   the host ends as after the direct calls, and the peer reads exactly their results.
   */
  method ThreadServesFiles(server: Server.RequestServer, ghost rs: seq<Request>)
    requires server.Valid() && AllAskable(rs) && forall i :: 0 <= i < |rs| ==> FileRequest(rs[i])
    requires server.link.Reliable() && server.link.incoming == EncodeRequests(rs) && server.link.outgoing == []
    modifies server, server.slots, server.link
    ensures server.Valid() && server.lost
    ensures var (files, replies) := RunDirect(old(server.host), [], rs);
            server.host == files && ReadReplies(rs, [], server.link.outgoing) == Some((replies, []))
  {
    ServiceInStep(server.State(), [], [], rs);
    WireRefinesFiles(server.State(), rs);
    ghost var served := server.ThreadRequest();
  }

  // ---------- The requests whose work is not modelled ----------

  ghost predicate OnlyOthers(rs: seq<Request>) {
    forall i :: 0 <= i < |rs| ==> rs[i].Other? && rs[i].number in [REMOVE, MKDIR, RMDIR, GETSTAT]
  }

  /** The replies go on from `replies` with these results. */
  ghost predicate GoesOn(all: seq<Reply>, replies: seq<Reply>, results: seq<int32>) {
    && |all| == |replies| + |results| && all[..|replies|] == replies
    && forall i :: 0 <= i < |results| ==> all[|replies| + i].result == results[i]
  }

  lemma GoesOnFrom(all: seq<Reply>, replies: seq<Reply>, reply: Reply, results: seq<int32>)
    requires results != [] && reply.result == results[0] && GoesOn(all, replies + [reply], results[1..])
    ensures GoesOn(all, replies, results)
  {
    var more := replies + [reply];
    assert all[..|replies|] == all[..|more|][..|replies|];
    assert all[|replies|] == all[..|more|][|replies|];
    forall i | 0 < i < |results|
      ensures all[|replies| + i].result == results[i]
    {
      assert all[|more| + (i - 1)].result == results[1..][i - 1];
    }
  }

  lemma OneOther(st: S.State, r: Request)
    requires OnlyOthers([r]) && st.others != []
    ensures var (next, reply) := S.Handle(st, r);
            next == st.(others := st.others[1..]) && reply.Some? && reply.value.result == st.others[0]
  {
    assert [r][0].number in [REMOVE, MKDIR, RMDIR, GETSTAT];
  }

  /** REMOVE, MKDIR, RMDIR and GETSTAT answer what their system calls return, one each, in order, and change nothing else. */
  lemma {:induction false} OthersInOrder(st: S.State, replies: seq<Reply>, rs: seq<Request>)
    requires OnlyOthers(rs) && |rs| <= |st.others|
    ensures RunRequests(st, replies, rs).0 == st.(others := st.others[|rs|..])
    ensures GoesOn(RunRequests(st, replies, rs).1, replies, st.others[..|rs|])
    decreases |rs|
  {
    if rs == [] {
      assert st.others[0..] == st.others;
    } else {
      assert [rs[0]][0] == rs[0];
      OneOther(st, rs[0]);
      var (next, reply) := S.Handle(st, rs[0]);
      OthersInOrder(next, replies + [reply.value], rs[1..]);
      assert next.others[|rs| - 1..] == st.others[|rs|..];
      assert next.others[..|rs| - 1] == st.others[..|rs|][1..];
      GoesOnFrom(RunRequests(st, replies, rs).1, replies, reply.value, st.others[..|rs|]);
    }
  }

  // ---------- lseek takes its offset unsigned ----------

  /** An LSEEK with the offset it was asked for. */
  function SeekAsAsked(st: S.State, fd: int32, offset: int32, whence: uint32): (S.State, Option<Reply>) {
    var (host, result) := H.Lseek(st.host, fd, offset, whence);
    (st.(host := host), Some(Reply(result, [])))
  }

  /** The service seeks where it was asked to, in every state, exactly for offsets that are not negative. */
  lemma LseekAsAsked(offset: int32, whence: uint32)
    ensures (forall st: S.State, fd: int32 ::
               S.Handle(st, Lseek(fd, Unsigned(offset), whence)) == SeekAsAsked(st, fd, offset, whence))
            <==> offset >= 0 || whence > 2
  {
    if offset < 0 && whence <= 2 {
      var flags := Flags(ReadOnly, false, false, false, false);
      var h := H.Host(map[[DOT] := []], map[], map[0 := H.OpenFile([DOT], 0, flags)], 0, 1, [], []);
      var st := S.State(h, -1, false, seq(10, _ => None), [], seq(S.EXTRA, _ => 0), seq(0x1_0000_0000, _ => 0));
      assert SeekAsAsked(st, 0, offset, whence).0.host.handles[0].at == 0;
      assert S.Handle(st, Lseek(0, Unsigned(offset), whence)).0.host.handles[0].at > 0;
    }
  }

  // ---------- The handshake's descriptor ----------

  /** The ping descriptor is negative or open on the null device. */
  ghost predicate PingOk(st: S.State) {
    st.pingFd >= 0 ==> st.pingFd in st.host.handles && st.host.handles[st.pingFd].NullDevice?
  }

  lemma HandleKeepsPing(st: S.State, r: Request)
    requires PingOk(st)
    ensures PingOk(S.Handle(st, r).0)
    ensures S.Handle(st, r).0.answered && !st.answered ==>
              r == Close(st.pingFd) && st.host.handles[st.pingFd].NullDevice? && S.Handle(st, r).1 == Some(Reply(0, []))
    ensures S.Handle(st, r).0.pingFd >= 0 && S.Handle(st, r).0.pingFd != st.pingFd ==>
              r.Open? && FixedPath(r.path) == S.PING
  {
  }

  /** Over every request trace. */
  lemma {:induction false} RunKeepsPing(st: S.State, replies: seq<Reply>, rs: seq<Request>)
    requires PingOk(st)
    ensures PingOk(RunRequests(st, replies, rs).0)
    decreases |rs|
  {
    if rs != [] {
      var (next, reply) := S.Handle(st, rs[0]);
      HandleKeepsPing(st, rs[0]);
      RunKeepsPing(next, AddReply(replies, reply), rs[1..]);
    }
  }

  // ---------- The directory table ----------

  /** The open directories, by descriptor, with the entries each has left to read. */
  function Live(slots: S.Slots): map<nat, seq<H.Entry>> {
    map i: nat | i < S.SLOTS && slots[i].Some? :: slots[i].value
  }

  /** The table as a map: what a request does to it and the result it gets; None for other requests. */
  ghost predicate LiveStep(h: H.Host, live: map<nat, seq<H.Entry>>, r: Request, live': map<nat, seq<H.Entry>>, reply: Option<Reply>) {
    match r
    case OpenDir(_, path) =>
      var p := FixedPath(path);
      if p !in h.dirs || (forall i: nat :: i < S.SLOTS ==> i in live) then live' == live && reply == Some(Reply(-1, []))
      else exists dd: nat :: dd < S.SLOTS && Least(live, dd) && live' == live[dd := h.dirs[p]] && reply == Some(Reply(dd, []))
    case CloseDir(dd) =>
      if dd !in live then live' == live && reply == Some(Reply(-1, []))
      else live' == live - {dd} && reply == Some(Reply(0, []))
    case ReadDir(dd) =>
      && reply.Some?
      && if dd !in live then live' == live && reply.value.result == -1
         else if live[dd] == [] then live' == live && reply.value.result == 0
         else
           live' == live[dd := live[dd][1..]] && reply.value.result == 1 && ReadsAs(reply.value.data, live[dd][0])
    case _ => live' == live
  }

  /** The fields of a READDIR response hold the entry's attributes and its name. */
  ghost predicate ReadsAs(fields: seq<byte>, e: H.Entry) {
    && |fields| == S.EXTRA
    && (|e.attributes| <= 40 ==> e.attributes <= fields)
    && (|e.name| < PATH_SIZE && 0 !in e.name ==> CString(fields[40..]) == e.name)
  }

  lemma EntryReadsAs(e: H.Entry, stale: S.Stale)
    ensures ReadsAs(S.EntryFields(e, stale), e)
  {
    var fields := S.EntryFields(e, stale);
    assert fields[40..] == S.NameField(e.name, stale);
    if |e.name| < PATH_SIZE && 0 !in e.name {
      assert e.name[..|e.name|] == e.name;
      CStringStops(e.name, stale[40 + |e.name| + 1..]);
    }
  }

  /** A READDIR response without an entry: mode, attributes, size and high size read as 0, the rest is as it was. */
  lemma NoEntryReadsAs(stale: S.Stale)
    ensures var fields := S.NoEntryFields(stale);
            && Get32(fields) == Get32(fields[4..]) == Get32(fields[8..]) == Get32(fields[36..]) == 0
            && fields[12..36] == stale[12..36] && fields[40..] == stale[40..]
  {
    var fields := S.NoEntryFields(stale);
    assert Put32(0) == [0, 0, 0, 0];
    assert fields[..4] == fields[4..8] == fields[8..12] == fields[36..40] == [0, 0, 0, 0];
    ZeroField(fields, 0);
    ZeroField(fields, 4);
    ZeroField(fields, 8);
    ZeroField(fields, 36);
  }

  lemma ZeroField(fields: seq<byte>, at: nat)
    requires at + 4 <= |fields| && fields[at..at + 4] == [0, 0, 0, 0]
    ensures Get32(fields[at..]) == 0
  {
    var field := fields[at..];
    assert forall i :: 0 <= i < 4 ==> field[i] == fields[at..at + 4][i];
  }

  ghost predicate Least(live: map<nat, seq<H.Entry>>, dd: nat) {
    dd !in live && forall i: nat :: i < dd ==> i in live
  }

  lemma LiveMore(slots: S.Slots, dd: nat, entries: seq<H.Entry>)
    requires dd < S.SLOTS
    ensures Live(slots[dd := Some(entries)]) == Live(slots)[dd := entries]
  {
  }

  lemma OpenDirRefinesLive(st: S.State, path: seq<byte>)
    ensures var (next, reply) := S.OpenDirFixed(st, path);
            if path !in st.host.dirs || (forall i: nat :: i < S.SLOTS ==> i in Live(st.slots)) then next == st && reply == -1
            else Least(Live(st.slots), reply) && reply < S.SLOTS && Live(next.slots) == Live(st.slots)[reply := st.host.dirs[path]]
  {
    var slot := S.FreeSlot(st.slots, 0);
    if slot == S.SLOTS {
      assert forall i: nat :: i < S.SLOTS ==> i in Live(st.slots);
    } else {
      assert slot !in Live(st.slots);
      if path in st.host.dirs { LiveMore(st.slots, slot, st.host.dirs[path]); }
    }
  }

  lemma ReadDirRefinesLive(st: S.State, dd: uint32)
    ensures var (next, reply) := S.ReadDir(st, dd); LiveStep(st.host, Live(st.slots), ReadDir(dd), Live(next.slots), Some(reply))
  {
    if dd in Live(st.slots) && Live(st.slots)[dd] != [] {
      EntryReadsAs(Live(st.slots)[dd][0], st.stale);
    }
  }

  /** Every request does to the table what it does to the map, whatever happened before. */
  lemma HandleRefinesLive(st: S.State, r: Request)
    ensures var (next, reply) := S.Handle(st, r); LiveStep(st.host, Live(st.slots), r, Live(next.slots), reply)
  {
    match r
    case OpenDir(_, path) => OpenDirRefinesLive(st, FixedPath(path));
    case ReadDir(dd) => ReadDirRefinesLive(st, dd);
    case _ =>
  }
}
