/** The copy loops of fsclient: short transfers on both sides, and one clean-up for every way out. */
module FsClient {
  import opened Bytes
  import opened NetFs
  import H = HostFiles
  import P = Protocol

  const BUFFER_SIZE := 28000
  const OPEN_READ: uint32 := 0x0001
  const OPEN_WRITE_NEW: uint32 := 0x0602 // OPEN_WRITE | OPEN_CREATE | OPEN_TRUNCATE

  /**
   The local file of a copy. `transfers` is what its reads and writes will return, cut to what is
   possible; without more of it they move all they can. `opens`, `closes` and `failures` count the
   calls that opened it, that closed it, and that failed or moved nothing.
   */
  class LocalFile {
    var contents: seq<byte>
    var position: nat
    var opens: nat
    var closes: nat
    var failures: nat
    var transfers: seq<int32>
    const canOpen: bool
    const canSeek: bool
    const canClose: bool

    constructor (contents: seq<byte>, transfers: seq<int32>, canOpen: bool, canSeek: bool, canClose: bool)
      ensures this.contents == contents && position == 0 && opens == closes == failures == 0
      ensures this.transfers == transfers
      ensures this.canOpen == canOpen && this.canSeek == canSeek && this.canClose == canClose
    {
      this.contents, position, opens, closes, failures, this.transfers := contents, 0, 0, 0, 0, transfers;
      this.canOpen, this.canSeek, this.canClose := canOpen, canSeek, canClose;
    }

    /** No call is going to fail; transfers may be short. */
    ghost predicate Works()
      reads this
    {
      canOpen && canSeek && canClose && forall i :: 0 <= i < |transfers| ==> 0 < transfers[i]
    }

    method Open(truncate: bool) returns (fd: int)
      modifies this
      ensures closes == old(closes) && opens == old(opens) + (if fd >= 0 then 1 else 0)
      ensures failures == old(failures) + if fd >= 0 then 0 else 1
      ensures fd >= 0 ==> position == 0 && contents == if truncate then [] else old(contents)
      ensures fd < 0 ==> contents == old(contents)
      ensures old(Works()) ==> Works() && fd >= 0
    {
      if !canOpen { failures := failures + 1; return -1; }
      opens, position := opens + 1, 0;
      if truncate { contents := []; }
      return 3;
    }

    /** lseek to the end, into an int, and back to the start. */
    method Size() returns (size: int32)
      modifies this
      ensures contents == old(contents) && opens == old(opens) && closes == old(closes)
      ensures failures == old(failures) || (failures == old(failures) + 1 && size < 0)
      ensures failures == old(failures) ==> size == Signed(|contents|) && position == 0
      ensures old(Works()) ==> Works() && failures == old(failures)
    {
      if !canSeek { failures := failures + 1; return -1; }
      position := 0;
      return Signed(|contents|);
    }

    /** How much a transfer of at most `most` bytes moves. */
    method Outcome(most: nat) returns (n: int)
      modifies this`transfers, this`failures
      ensures n <= most && failures == old(failures) + if n > 0 then 0 else 1
      ensures old(Works()) ==> Works() && (most > 0 ==> n > 0)
    {
      n := most;
      if transfers != [] {
        n, transfers := Min(transfers[0], most), transfers[1..];
      }
      if n <= 0 { failures := failures + 1; }
    }

    method Read(buffer: array<byte>, count: nat) returns (n: int)
      requires count <= buffer.Length
      modifies this, buffer
      ensures contents == old(contents) && opens == old(opens) && closes == old(closes)
      ensures failures == old(failures) + if n > 0 then 0 else 1
      ensures n <= count && (n > 0 ==> position == old(position) + n <= |contents| && buffer[..n] == contents[old(position)..position])
      ensures old(Works()) ==> Works() && (0 < count && old(position) < |contents| ==> n > 0)
    {
      n := Outcome(Min(count, Max(0, |contents| - position)));
      if n > 0 {
        forall i | 0 <= i < n {
          buffer[i] := contents[position + i];
        }
        position := position + n;
      }
    }

    method Write(data: seq<byte>) returns (n: int)
      modifies this
      ensures opens == old(opens) && closes == old(closes)
      ensures failures == old(failures) + if n > 0 then 0 else 1
      ensures n <= |data| && contents == old(contents) + (if n > 0 then data[..n] else [])
      ensures old(Works()) ==> Works() && (data != [] ==> n > 0)
    {
      n := Outcome(|data|);
      if n > 0 { contents := contents + data[..n]; }
    }

    method Close() returns (result: int)
      modifies this
      ensures contents == old(contents) && opens == old(opens) && closes == old(closes) + 1
      ensures failures == old(failures) + if result < 0 then 1 else 0
      ensures old(Works()) ==> Works() && result >= 0
    {
      closes := closes + 1;
      if !canClose { failures := failures + 1; }
      return if canClose then 0 else -1;
    }
  }

  // ---------- What is issued, and what is answered ----------

  ghost predicate NoClose(work: seq<Command>) {
    forall i :: 0 <= i < |work| ==> !work[i].Close?
  }

  /** An answer that does not end the copy. */
  ghost predicate Well(e: Exchange) {
    match e.command
    case Read(_, _) => 0 < e.result
    case Write(_, data) => 0 < e.result <= |data|
    case _ => 0 <= e.result
  }

  /** Every command was answered, and well. */
  ghost predicate Went(work: seq<Command>, added: seq<Exchange>) {
    |added| == |work| && forall i :: 0 <= i < |added| ==> Well(added[i])
  }

  lemma WentAppend(work: seq<Command>, added: seq<Exchange>, work': seq<Command>, added': seq<Exchange>)
    requires |added| <= |work| && |added'| <= |work'|
    ensures Went(work + work', added + added') <==> Went(work, added) && Went(work', added')
  {
    if Went(work + work', added + added') {
      assert forall i :: 0 <= i < |added| ==> added[i] == (added + added')[i];
      assert forall i :: 0 <= i < |added'| ==> added'[i] == (added + added')[|added| + i];
    }
  }

  lemma WentOne(c: Command, added: seq<Exchange>)
    requires |added| <= 1
    ensures Went([c], added) <==> added != [] && Well(added[0])
  {
  }

  lemma FrontAndNext(s: seq<byte>, a: nat, b: nat)
    requires a <= b <= |s|
    ensures s[..a] + s[a..b] == s[..b]
  {
  }

  lemma AppendExchanges(a: seq<Exchange>, b: seq<Exchange>, c: seq<Exchange>)
    ensures (a + b) + c == a + (b + c)
  {
  }

  lemma AppendCommands(a: seq<Command>, b: seq<Command>, c: seq<Command>)
    ensures (a + b) + c == a + (b + c)
  {
  }

  /** The answers of a copy: those before the transfers, the good transfers, a bad one, and the close. */
  datatype Trace = Trace(lead: seq<Exchange>, moves: seq<Exchange>, bad: seq<Exchange>, closing: seq<Exchange>) {
    function All(): seq<Exchange> {
      lead + moves + bad + closing
    }
  }

  method Seek(net: Client, fd: int32, whence: uint32) returns (result: int32, ghost added: seq<Exchange>)
    requires net.Valid()
    modifies net, net.link
    ensures net.Valid() && net.issued == old(net.issued) + [Lseek(fd, 0, whence)] && net.log == old(net.log) + added
    ensures added == [Exchange(Lseek(fd, 0, whence), result, [])] || (added == [] && result < 0)
  {
    ghost var answered;
    result, answered := net.CommandLseek(fd, 0, whence);
    added := if answered then [Exchange(Lseek(fd, 0, whence), result, [])] else [];
  }

  /** Opens the remote file. */
  method OpenRemote(net: Client, path: seq<byte>, flags: uint32)
    returns (fd: int32, ghost work: seq<Command>, ghost lead: seq<Exchange>)
    requires net.Valid() && 0 !in path
    modifies net, net.link
    ensures net.Valid() && net.log == old(net.log) + lead && net.issued == old(net.issued) + work
    ensures NoClose(work) && |lead| <= |work|
    ensures lead <= [Exchange(Open(path, flags), fd, [])] && (fd >= 0 ==> |lead| == 1)
    ensures fd >= 0 <==> |path| < P.PATH_SIZE && Went(work, lead)
  {
    ghost var answered;
    fd, answered := net.CommandOpen(path, flags);
    work := if |path| < P.PATH_SIZE then [Open(path, flags)] else [];
    lead := if answered then [Exchange(Open(path, flags), fd, [])] else [];
    WentOne(Open(path, flags), lead);
  }

  method Push(net: Client, fd: int32, data: seq<byte>) returns (result: int32, ghost added: seq<Exchange>)
    requires net.Valid() && |data| < 0x8000_0000
    modifies net, net.link
    ensures net.Valid() && net.issued == old(net.issued) + [Write(fd, data)] && net.log == old(net.log) + added
    ensures added == [Exchange(Write(fd, data), result, [])] || (added == [] && result < 0)
  {
    ghost var answered;
    result, answered := net.CommandWrite(fd, data);
    added := if answered then [Exchange(Write(fd, data), result, [])] else [];
  }

  // ---------- copyfrom ----------

  /** READ exchanges on one descriptor that all brought something. */
  ghost predicate OnlyReads(pulls: seq<Exchange>, fd: int32) {
    forall i :: 0 <= i < |pulls| ==>
      && pulls[i].command.Read? && pulls[i].command.fd == fd && 0 < pulls[i].command.size
      && 0 < pulls[i].result == |pulls[i].data|
  }

  /** At most one READ exchange that brought nothing. */
  ghost predicate BadRead(bad: seq<Exchange>, fd: int32) {
    |bad| <= 1 && forall i :: 0 <= i < |bad| ==>
      bad[i].command.Read? && bad[i].command.fd == fd && 0 < bad[i].command.size && bad[i].result <= 0
  }

  ghost function Pulled(pulls: seq<Exchange>): seq<byte> {
    if pulls == [] then [] else Pulled(pulls[..|pulls| - 1]) + pulls[|pulls| - 1].data
  }

  /** The inner loop: one buffer goes to the local file, or the copy fails. */
  method WriteOut(disk: LocalFile, buffer: array<byte>, bytes: nat) returns (ok: bool)
    requires bytes <= buffer.Length
    modifies disk
    ensures disk.opens == old(disk.opens) && disk.closes == old(disk.closes)
    ensures disk.failures >= old(disk.failures) && (ok <==> disk.failures == old(disk.failures))
    ensures ok ==> disk.contents == old(disk.contents) + buffer[..bytes]
    ensures old(disk.Works()) ==> disk.Works() && ok
  {
    var sent := 0;
    while sent < bytes
      invariant 0 <= sent <= bytes
      invariant disk.opens == old(disk.opens) && disk.closes == old(disk.closes) && disk.failures == old(disk.failures)
      invariant disk.contents == old(disk.contents) + buffer[..sent]
      invariant old(disk.Works()) ==> disk.Works()
    {
      var written := disk.Write(buffer[sent..bytes]);
      if written <= 0 { return false; }
      assert buffer[..sent] + buffer[sent..bytes][..written] == buffer[..sent + written];
      sent := sent + written;
    }
    return true;
  }

  /** One turn of the outer loop: a READ, and what it brought goes to the local file. */
  method PullOne(net: Client, disk: LocalFile, fd: int32, buffer: array<byte>, count: nat)
    returns (ok: bool, bytes: int32, ghost pulls: seq<Exchange>, ghost bad: seq<Exchange>)
    requires net.Valid() && 0 < count <= buffer.Length && count < 0x8000_0000
    modifies net, net.link, disk, buffer
    ensures net.Valid() && net.issued == old(net.issued) + [Read(fd, count)] && net.log == old(net.log) + (pulls + bad)
    ensures disk.opens == old(disk.opens) && disk.closes == old(disk.closes)
    ensures OnlyReads(pulls, fd) && BadRead(bad, fd) && |pulls + bad| <= 1
    ensures ok <==> Went([Read(fd, count)], pulls + bad) && disk.failures == old(disk.failures)
    ensures ok ==>
              && bad == [] && |pulls| == 1 && 0 < bytes == |pulls[0].data| <= count
              && disk.contents == old(disk.contents) + pulls[0].data
    ensures disk.failures >= old(disk.failures)
    ensures old(disk.Works()) ==> disk.Works() && disk.failures == old(disk.failures)
  {
    pulls, bad := [], [];
    ghost var data, answered;
    bytes, data, answered := net.CommandRead(fd, buffer, count);
    if bytes <= 0 || bytes > count {
      if answered { bad := [Exchange(Read(fd, count), bytes, data)]; }
      WentOne(Read(fd, count), bad);
      assert pulls + bad == bad;
      return false, bytes, pulls, bad;
    }
    pulls := [Exchange(Read(fd, count), bytes, data)];
    WentOne(Read(fd, count), pulls);
    assert pulls + bad == pulls;
    ok := WriteOut(disk, buffer, bytes);
  }

  /** All commands so far were READs that went well, and brought `brought`. */
  ghost predicate Pulling(work: seq<Command>, pulls: seq<Exchange>, fd: int32, brought: seq<byte>) {
    NoClose(work) && Went(work, pulls) && OnlyReads(pulls, fd) && Pulled(pulls) == brought
  }

  lemma PullAppend(work: seq<Command>, pulls: seq<Exchange>, fd: int32, brought: seq<byte>,
                   c: Command, more: seq<Exchange>, worse: seq<Exchange>)
    requires Pulling(work, pulls, fd, brought)
    requires !c.Close? && OnlyReads(more, fd) && |more + worse| <= 1
    ensures NoClose(work + [c]) && OnlyReads(pulls + more, fd) && pulls + (more + worse) == (pulls + more) + worse
    ensures Went(work + [c], pulls + more + worse) <==> Went([c], more + worse)
    ensures Pulled(pulls + more) == brought + if more == [] then [] else more[0].data
  {
    AppendExchanges(pulls, more, worse);
    WentAppend(work, pulls, [c], more + worse);
    PulledMore(pulls, more, worse, fd);
  }

  /** The outer loop. */
  method PullAll(net: Client, disk: LocalFile, fd: int32, size: int32)
    returns (ok: bool, ghost pulls: seq<Exchange>, ghost bad: seq<Exchange>, ghost work: seq<Command>)
    requires net.Valid() && disk.contents == [] && size >= 0
    modifies net, net.link, disk
    ensures net.Valid() && disk.opens == old(disk.opens) && disk.closes == old(disk.closes)
    ensures net.issued == old(net.issued) + work && NoClose(work)
    ensures net.log == old(net.log) + (pulls + bad) && |pulls + bad| <= |work|
    ensures OnlyReads(pulls, fd) && BadRead(bad, fd) && (bad != [] ==> |Pulled(pulls)| < size)
    ensures ok <==> Went(work, pulls + bad) && disk.failures == old(disk.failures)
    ensures ok ==> bad == [] && disk.contents == Pulled(pulls) && |disk.contents| == size
    ensures disk.failures >= old(disk.failures)
    ensures old(disk.Works()) ==> disk.Works() && disk.failures == old(disk.failures)
  {
    var buffer := new byte[BUFFER_SIZE];
    var total := 0;
    pulls, bad, work := [], [], [];
    while total < size
      invariant 0 <= total <= size && total == |disk.contents| && fresh(buffer) && net.Valid()
      invariant disk.opens == old(disk.opens) && disk.closes == old(disk.closes) && disk.failures == old(disk.failures)
      invariant net.issued == old(net.issued) + work && net.log == old(net.log) + pulls
      invariant Pulling(work, pulls, fd, disk.contents)
      invariant old(disk.Works()) ==> disk.Works()
    {
      var count := if size - total < BUFFER_SIZE then size - total else BUFFER_SIZE;
      var bytes;
      ghost var before := disk.contents;
      ghost var more, worse;
      ok, bytes, more, worse := PullOne(net, disk, fd, buffer, count);
      PullAppend(work, pulls, fd, before, Read(fd, count), more, worse);
      AppendExchanges(old(net.log), pulls, more + worse);
      AppendCommands(old(net.issued), work, [Read(fd, count)]);
      work, pulls := work + [Read(fd, count)], pulls + more;
      if !ok { return false, pulls, worse, work; }
      assert pulls + worse == pulls;
      total := total + bytes;
    }
    assert pulls + [] == pulls;
    return true, pulls, [], work;
  }

  lemma PulledMore(pulls: seq<Exchange>, more: seq<Exchange>, worse: seq<Exchange>, fd: int32)
    requires OnlyReads(pulls, fd) && OnlyReads(more, fd) && |more + worse| <= 1
    ensures OnlyReads(pulls + more, fd) && (pulls + more) + worse == pulls + (more + worse)
    ensures Pulled(pulls + more) == Pulled(pulls) + if more == [] then [] else more[0].data
  {
    if more == [] {
      assert pulls + more == pulls;
    } else {
      assert (pulls + more)[..|pulls|] == pulls && (pulls + more)[|pulls|] == more[0];
    }
  }

  /** The first three answers of a copy from the server, and the reads. */
  ghost function FromLog(source: seq<byte>, fd: int32, size: int32, rewound: int32, pulls: seq<Exchange>): seq<Exchange> {
    [Exchange(Open(source, OPEN_READ), fd, []), Exchange(Lseek(fd, 0, H.SEEK_END), size, []),
     Exchange(Lseek(fd, 0, H.SEEK_SET), rewound, [])] + pulls
  }

  ghost predicate ClosedOnce(closing: seq<Exchange>, fd: int32, closed: int32) {
    closing == [] || (fd >= 0 && closing == [Exchange(Close(fd), closed, [])])
  }

  /** The answers of a copy from the server, however far it got. */
  ghost predicate FromShape(t: Trace, source: seq<byte>, fd: int32, size: int32, rewound: int32, closed: int32) {
    && t.lead <= FromLog(source, fd, size, rewound, [])
    && (fd >= 0 ==> t.lead != [])
    && (t.moves + t.bad != [] ==> |t.lead| == 3)
    && OnlyReads(t.moves, fd) && BadRead(t.bad, fd) && (t.bad != [] ==> |Pulled(t.moves)| < size)
    && ClosedOnce(t.closing, fd, closed)
  }

  /** The two seeks that find the size and go back to the start. */
  method Measure(net: Client, fd: int32)
    returns (ok: bool, size: int32, ghost rewound: int32, ghost work: seq<Command>, ghost added: seq<Exchange>)
    requires net.Valid()
    modifies net, net.link
    ensures net.Valid() && net.log == old(net.log) + added && net.issued == old(net.issued) + work
    ensures NoClose(work) && |added| <= |work|
    ensures added <= [Exchange(Lseek(fd, 0, H.SEEK_END), size, []), Exchange(Lseek(fd, 0, H.SEEK_SET), rewound, [])]
    ensures ok <==> Went(work, added)
    ensures ok ==> size >= 0 && |added| == 2
  {
    rewound := -1;
    size, added := Seek(net, fd, H.SEEK_END);
    work := [Lseek(fd, 0, H.SEEK_END)];
    WentOne(Lseek(fd, 0, H.SEEK_END), added);
    if size < 0 { return false, size, rewound, work, added; }
    var position;
    ghost var more;
    position, more := Seek(net, fd, H.SEEK_SET);
    WentOne(Lseek(fd, 0, H.SEEK_SET), more);
    WentAppend(work, added, [Lseek(fd, 0, H.SEEK_SET)], more);
    AppendExchanges(old(net.log), added, more);
    AppendCommands(old(net.issued), work, [Lseek(fd, 0, H.SEEK_SET)]);
    work, added, rewound := work + [Lseek(fd, 0, H.SEEK_SET)], added + more, position;
    ok := position >= 0;
  }

  /** Opens the source and finds its size; `ok` when both worked. */
  method OpenAndMeasure(net: Client, source: seq<byte>)
    returns (ok: bool, fd: int32, size: int32, ghost rewound: int32, ghost work: seq<Command>, ghost lead: seq<Exchange>)
    requires net.Valid() && 0 !in source
    modifies net, net.link
    ensures net.Valid() && net.log == old(net.log) + lead && net.issued == old(net.issued) + work
    ensures NoClose(work) && |lead| <= |work|
    ensures lead <= FromLog(source, fd, size, rewound, []) && (fd >= 0 ==> lead != [])
    ensures ok <==> |source| < P.PATH_SIZE && Went(work, lead)
    ensures ok ==> fd >= 0 && size >= 0 && |lead| == 3
  {
    ok, size, rewound := false, -1, -1;
    ghost var more, added;
    fd, work, lead := OpenRemote(net, source, OPEN_READ);
    if fd < 0 { return; }
    ok, size, rewound, more, added := Measure(net, fd);
    WentAppend(work, lead, more, added);
    AppendExchanges(old(net.log), lead, added);
    AppendCommands(old(net.issued), work, more);
    work, lead := work + more, lead + added;
  }

  /** Everything up to the clean-up; an early return is a jump to it. */
  method TryCopyFrom(net: Client, disk: LocalFile, source: seq<byte>)
    returns (done: bool, fd0: int32, fd1: int, size: int32, ghost rewound: int32, ghost t: Trace, ghost work: seq<Command>)
    requires net.Valid() && 0 !in source
    modifies net, net.link, disk
    ensures net.Valid() && net.log == old(net.log) + t.All() && net.issued == old(net.issued) + work
    ensures NoClose(work) && |t.All()| <= |work|
    ensures FromShape(t, source, fd0, size, rewound, -1) && t.closing == []
    ensures disk.closes == old(disk.closes) && disk.opens == old(disk.opens) + (if fd1 >= 0 then 1 else 0)
    ensures done <==> |source| < P.PATH_SIZE && Went(work, t.All()) && disk.failures == old(disk.failures)
    ensures done ==>
              && fd0 >= 0 && fd1 >= 0 && size >= 0 && t.bad == [] && |t.lead| == 3
              && disk.contents == Pulled(t.moves) && |disk.contents| == size
    ensures disk.failures >= old(disk.failures)
    ensures old(disk.Works()) ==> disk.Works() && disk.failures == old(disk.failures)
  {
    var ok;
    ghost var lead, pulls, bad, more;
    fd1 := -1;
    ok, fd0, size, rewound, work, lead := OpenAndMeasure(net, source);
    t := Trace(lead, [], [], []);
    assert t.All() == lead;
    if !ok { return false, fd0, fd1, size, rewound, t, work; }
    fd1 := disk.Open(true);
    if fd1 < 0 { return false, fd0, fd1, size, rewound, t, work; }
    done, pulls, bad, more := PullAll(net, disk, fd0, size);
    WentAppend(work, lead, more, pulls + bad);
    AppendExchanges(old(net.log), lead, pulls + bad);
    AppendCommands(old(net.issued), work, more);
    work, t := work + more, Trace(lead, pulls, bad, []);
    assert t.All() == lead + (pulls + bad);
  }

  /** fsclient_copyfrom */
  method CopyFrom(net: Client, disk: LocalFile, source: seq<byte>)
    returns (status: int, ghost fd: int32, ghost size: int32, ghost rewound: int32, ghost closed: int32,
             ghost t: Trace, ghost work: seq<Command>)
    requires net.Valid() && 0 !in source
    modifies net, net.link, disk
    ensures status == 0 || status == -1
    ensures net.Valid() && net.log == old(net.log) + t.All() && FromShape(t, source, fd, size, rewound, closed)
    ensures net.issued == old(net.issued) + Closing(work, fd) && NoClose(work)
    ensures status == 0 <==>
            |source| < P.PATH_SIZE && Went(Closing(work, fd), t.All()) && disk.failures == old(disk.failures)
    ensures status == 0 ==>
              && fd >= 0 && size >= 0 && t.bad == [] && |t.lead| == 3 && |t.closing| == 1
              && disk.contents == Pulled(t.moves) && |disk.contents| == size
    ensures disk.closes - old(disk.closes) == disk.opens - old(disk.opens) <= 1
    ensures disk.failures >= old(disk.failures)
    ensures old(disk.Works()) ==> disk.Works() && disk.failures == old(disk.failures)
  {
    var done, fd0, fd1, length, sought, tried, issued := TryCopyFrom(net, disk, source);
    fd, size, rewound, work := fd0, length, sought, issued;
    var ok;
    ok, closed, t := CloseRemote(net, fd0, tried, work);
    AppendCommands(old(net.issued), work, if fd >= 0 then [Close(fd)] else []);
    AppendExchanges(old(net.log), tried.All(), t.closing);
    status := if done && ok then 0 else -1;
    if fd1 >= 0 {
      var result := disk.Close();
      if result < 0 { status := -1; }
    }
  }

  // ---------- The clean-up ----------

  /** The commands of a copy, with the close of what was opened. */
  ghost function Closing(work: seq<Command>, fd: int32): seq<Command> {
    work + if fd >= 0 then [Close(fd)] else []
  }

  /** Closes the remote file if it was opened. */
  method CloseRemote(net: Client, fd: int32, ghost t: Trace, ghost work: seq<Command>)
    returns (ok: bool, ghost closed: int32, ghost more: Trace)
    requires net.Valid() && t.closing == [] && |t.All()| <= |work|
    modifies net, net.link
    ensures net.Valid() && net.issued == old(net.issued) + if fd >= 0 then [Close(fd)] else []
    ensures net.log == old(net.log) + more.closing && ClosedOnce(more.closing, fd, closed)
    ensures more == t.(closing := more.closing) && more.All() == t.All() + more.closing
    ensures Went(Closing(work, fd), more.All()) <==> Went(work, t.All()) && ok
    ensures ok && fd >= 0 ==> |more.closing| == 1
  {
    ok, closed, more := true, -1, t;
    assert work + [] == work;
    if fd >= 0 {
      var result, answered := net.CommandClose(fd);
      ok, closed := result >= 0, result;
      ghost var closing := if answered then [Exchange(Close(fd), result, [])] else [];
      more := t.(closing := closing);
      WentOne(Close(fd), closing);
      WentAppend(work, t.All(), [Close(fd)], closing);
      assert t.All() == t.lead + t.moves + t.bad;
    }
  }

  // ---------- copyto ----------

  /** WRITE exchanges on one descriptor that were all accepted in part. */
  ghost predicate OnlyWrites(pushes: seq<Exchange>, fd: int32) {
    forall i :: 0 <= i < |pushes| ==>
      && pushes[i].command.Write? && pushes[i].command.fd == fd && pushes[i].data == []
      && 0 < pushes[i].result <= |pushes[i].command.data|
  }

  /** At most one WRITE exchange that was not accepted, or said to take more than there was. */
  ghost predicate BadWrite(bad: seq<Exchange>, fd: int32) {
    |bad| <= 1 && forall i :: 0 <= i < |bad| ==>
      && bad[i].command.Write? && bad[i].command.fd == fd && bad[i].command.data != []
      && (bad[i].result <= 0 || bad[i].result > |bad[i].command.data|)
  }

  /** What the server says it took, in order. */
  ghost function Pushed(pushes: seq<Exchange>): seq<byte> {
    if pushes == [] then [] else
      var last := pushes[|pushes| - 1];
      Pushed(pushes[..|pushes| - 1]) +
      if last.command.Write? && 0 <= last.result <= |last.command.data| then last.command.data[..last.result] else []
  }

  /** The answers of a copy to the server, however far it got. */
  ghost predicate ToShape(t: Trace, destination: seq<byte>, fd: int32, closed: int32) {
    && t.lead <= [Exchange(Open(destination, OPEN_WRITE_NEW), fd, [])]
    && (fd >= 0 ==> t.lead != [])
    && (t.moves + t.bad != [] ==> |t.lead| == 1 && fd >= 0)
    && OnlyWrites(t.moves, fd) && BadWrite(t.bad, fd)
    && ClosedOnce(t.closing, fd, closed)
  }

  lemma PushedOneMore(pushes: seq<Exchange>, fd: int32, data: seq<byte>, result: int32)
    requires OnlyWrites(pushes, fd) && 0 < result <= |data|
    ensures var more := pushes + [Exchange(Write(fd, data), result, [])];
            OnlyWrites(more, fd) && Pushed(more) == Pushed(pushes) + data[..result]
  {
    assert (pushes + [Exchange(Write(fd, data), result, [])])[..|pushes|] == pushes;
  }

  lemma {:induction false} PushedAppend(a: seq<Exchange>, b: seq<Exchange>)
    ensures Pushed(a + b) == Pushed(a) + Pushed(b)
    decreases |b|
  {
    if b == [] {
      assert a + b == a;
    } else {
      assert (a + b)[..|a + b| - 1] == a + b[..|b| - 1];
      PushedAppend(a, b[..|b| - 1]);
    }
  }

  /** All commands so far were WRITEs that went well, and took `taken`. */
  ghost predicate Pushing(work: seq<Command>, pushes: seq<Exchange>, fd: int32, taken: seq<byte>) {
    NoClose(work) && Went(work, pushes) && OnlyWrites(pushes, fd) && Pushed(pushes) == taken
  }

  lemma PushStep(work: seq<Command>, pushes: seq<Exchange>, fd: int32, taken: seq<byte>,
                 data: seq<byte>, result: int32, added: seq<Exchange>)
    requires Pushing(work, pushes, fd, taken) && data != []
    requires added == [Exchange(Write(fd, data), result, [])] || (added == [] && result < 0)
    ensures NoClose(work + [Write(fd, data)])
    ensures if 0 < result <= |data|
            then Pushing(work + [Write(fd, data)], pushes + added, fd, taken + data[..result])
            else BadWrite(added, fd) && !Went(work + [Write(fd, data)], pushes + added)
  {
    WentOne(Write(fd, data), added);
    WentAppend(work, pushes, [Write(fd, data)], added);
    if 0 < result <= |data| { PushedOneMore(pushes, fd, data, result); }
  }

  lemma PushAppend(work: seq<Command>, pushes: seq<Exchange>, fd: int32, taken: seq<byte>,
                   work': seq<Command>, pushes': seq<Exchange>, bad: seq<Exchange>)
    requires Pushing(work, pushes, fd, taken)
    requires NoClose(work') && OnlyWrites(pushes', fd) && |pushes' + bad| <= |work'|
    ensures NoClose(work + work') && OnlyWrites(pushes + pushes', fd) && pushes + (pushes' + bad) == (pushes + pushes') + bad
    ensures Went(work + work', pushes + pushes' + bad) <==> Went(work', pushes' + bad)
    ensures Pushed(pushes + pushes') == taken + Pushed(pushes')
  {
    AppendExchanges(pushes, pushes', bad);
    WentAppend(work, pushes, work', pushes' + bad);
    PushedAppend(pushes, pushes');
  }

  /** One turn of the inner loop: a WRITE of what is left of the buffer. */
  method PushPart(net: Client, fd: int32, data: seq<byte>, ghost issued: seq<Command>, ghost log: seq<Exchange>,
                  ghost work: seq<Command>, ghost pushes: seq<Exchange>, ghost taken: seq<byte>)
    returns (written: int32, ghost more: seq<Exchange>)
    requires net.Valid() && data != [] && |data| < 0x8000_0000
    requires net.issued == issued + work && net.log == log + pushes && Pushing(work, pushes, fd, taken)
    modifies net, net.link
    ensures net.Valid() && net.issued == issued + (work + [Write(fd, data)]) && net.log == log + (pushes + more)
    ensures NoClose(work + [Write(fd, data)]) && |more| <= 1
    ensures if 0 < written <= |data|
            then Pushing(work + [Write(fd, data)], pushes + more, fd, taken + data[..written])
            else BadWrite(more, fd) && !Went(work + [Write(fd, data)], pushes + more)
  {
    written, more := Push(net, fd, data);
    PushStep(work, pushes, fd, taken, data, written, more);
    AppendExchanges(log, pushes, more);
    AppendCommands(issued, work, [Write(fd, data)]);
  }

  /** The inner loop: one buffer goes to the server, the part not taken being sent again. */
  method PushBuffer(net: Client, fd: int32, buffer: array<byte>, bytes: nat)
    returns (ok: bool, ghost pushes: seq<Exchange>, ghost bad: seq<Exchange>, ghost work: seq<Command>)
    requires net.Valid() && bytes <= buffer.Length < 0x8000_0000
    modifies net, net.link
    ensures net.Valid() && net.issued == old(net.issued) + work && NoClose(work)
    ensures net.log == old(net.log) + (pushes + bad) && |pushes + bad| <= |work|
    ensures OnlyWrites(pushes, fd) && BadWrite(bad, fd)
    ensures ok <==> Went(work, pushes + bad)
    ensures ok ==> bad == [] && Pushed(pushes) == buffer[..bytes]
  {
    var sent := 0;
    pushes, bad, work := [], [], [];
    while sent < bytes
      invariant 0 <= sent <= bytes && net.Valid()
      invariant net.issued == old(net.issued) + work && net.log == old(net.log) + pushes
      invariant Pushing(work, pushes, fd, buffer[..sent])
    {
      var data := buffer[sent..bytes];
      var written, more := PushPart(net, fd, data, old(net.issued), old(net.log), work, pushes, buffer[..sent]);
      work := work + [Write(fd, data)];
      if written <= 0 || written > bytes - sent { return false, pushes, more, work; }
      assert buffer[..sent] + data[..written] == buffer[..sent + written];
      pushes, sent := pushes + more, sent + written;
    }
    assert pushes + [] == pushes;
    return true, pushes, [], work;
  }

  /** One turn of the outer loop: the next bytes of the local file, and all of them to the server. */
  method PushNext(net: Client, disk: LocalFile, fd: int32, buffer: array<byte>, count: nat)
    returns (ok: bool, ghost pushes: seq<Exchange>, ghost bad: seq<Exchange>, ghost work: seq<Command>)
    requires net.Valid() && 0 < count <= buffer.Length < 0x8000_0000 && disk.position < |disk.contents|
    modifies net, net.link, disk, buffer
    ensures net.Valid()
    ensures disk.contents == old(disk.contents) && disk.opens == old(disk.opens) && disk.closes == old(disk.closes)
    ensures net.issued == old(net.issued) + work && NoClose(work)
    ensures net.log == old(net.log) + (pushes + bad) && |pushes + bad| <= |work|
    ensures OnlyWrites(pushes, fd) && BadWrite(bad, fd)
    ensures ok <==> Went(work, pushes + bad) && disk.failures == old(disk.failures)
    ensures ok ==>
              && bad == [] && old(disk.position) < disk.position <= Min(old(disk.position) + count, |disk.contents|)
              && Pushed(pushes) == disk.contents[old(disk.position)..disk.position]
    ensures disk.failures >= old(disk.failures)
    ensures old(disk.Works()) ==> disk.Works() && disk.failures == old(disk.failures)
  {
    var bytes := disk.Read(buffer, count);
    if bytes <= 0 { return false, [], [], []; }
    ok, pushes, bad, work := PushBuffer(net, fd, buffer, bytes);
  }

  /** The outer loop. */
  method PushAll(net: Client, disk: LocalFile, fd: int32, size: int32)
    returns (ok: bool, ghost pushes: seq<Exchange>, ghost bad: seq<Exchange>, ghost work: seq<Command>)
    requires net.Valid() && disk.position == 0 && 0 <= size <= |disk.contents|
    modifies net, net.link, disk
    ensures net.Valid()
    ensures disk.contents == old(disk.contents) && disk.opens == old(disk.opens) && disk.closes == old(disk.closes)
    ensures net.issued == old(net.issued) + work && NoClose(work)
    ensures net.log == old(net.log) + (pushes + bad) && |pushes + bad| <= |work|
    ensures OnlyWrites(pushes, fd) && BadWrite(bad, fd)
    ensures ok <==> Went(work, pushes + bad) && disk.failures == old(disk.failures)
    ensures ok ==> bad == [] && Pushed(pushes) == disk.contents[..size]
    ensures disk.failures >= old(disk.failures)
    ensures old(disk.Works()) ==> disk.Works() && disk.failures == old(disk.failures)
  {
    var buffer := new byte[BUFFER_SIZE];
    var total := 0;
    pushes, bad, work := [], [], [];
    while total < size
      invariant 0 <= total <= size && total == disk.position && fresh(buffer) && net.Valid()
      invariant disk.contents == old(disk.contents) && disk.opens == old(disk.opens) && disk.closes == old(disk.closes)
      invariant disk.failures == old(disk.failures) && (old(disk.Works()) ==> disk.Works())
      invariant net.issued == old(net.issued) + work && net.log == old(net.log) + pushes
      invariant Pushing(work, pushes, fd, disk.contents[..total])
    {
      var count := if size - total < BUFFER_SIZE then size - total else BUFFER_SIZE;
      ghost var more, worse, issued;
      ok, more, worse, issued := PushNext(net, disk, fd, buffer, count);
      PushAppend(work, pushes, fd, disk.contents[..total], issued, more, worse);
      AppendExchanges(old(net.log), pushes, more + worse);
      AppendCommands(old(net.issued), work, issued);
      work, pushes := work + issued, pushes + more;
      if !ok { return false, pushes, worse, work; }
      assert pushes + worse == pushes;
      FrontAndNext(disk.contents, total, disk.position);
      total := disk.position;
    }
    assert pushes + [] == pushes;
    return true, pushes, [], work;
  }

  /** Opens the destination and writes it. */
  method OpenAndPush(net: Client, disk: LocalFile, destination: seq<byte>, size: int32)
    returns (done: bool, fd: int32, ghost t: Trace, ghost work: seq<Command>)
    requires net.Valid() && 0 !in destination && disk.position == 0 && 0 <= size <= |disk.contents|
    modifies net, net.link, disk
    ensures net.Valid() && net.log == old(net.log) + t.All() && net.issued == old(net.issued) + work
    ensures NoClose(work) && |t.All()| <= |work|
    ensures ToShape(t, destination, fd, -1) && t.closing == []
    ensures disk.contents == old(disk.contents) && disk.opens == old(disk.opens) && disk.closes == old(disk.closes)
    ensures done <==> |destination| < P.PATH_SIZE && Went(work, t.All()) && disk.failures == old(disk.failures)
    ensures done ==> fd >= 0 && t.bad == [] && Pushed(t.moves) == disk.contents[..size]
    ensures disk.failures >= old(disk.failures)
    ensures old(disk.Works()) ==> disk.Works() && disk.failures == old(disk.failures)
  {
    ghost var lead;
    fd, work, lead := OpenRemote(net, destination, OPEN_WRITE_NEW);
    done, t := false, Trace(lead, [], [], []);
    assert t.All() == lead;
    if fd < 0 { return; }
    ghost var pushes, bad, issued;
    done, pushes, bad, issued := PushAll(net, disk, fd, size);
    WentAppend(work, lead, issued, pushes + bad);
    AppendExchanges(old(net.log), lead, pushes + bad);
    AppendCommands(old(net.issued), work, issued);
    work, t := work + issued, Trace(lead, pushes, bad, []);
    assert t.All() == lead + (pushes + bad);
  }

  /** Everything up to the clean-up; an early return is a jump to it. */
  method TryCopyTo(net: Client, disk: LocalFile, destination: seq<byte>)
    returns (done: bool, fd0: int, fd1: int32, size: int32, ghost t: Trace, ghost work: seq<Command>)
    requires net.Valid() && 0 !in destination
    modifies net, net.link, disk
    ensures net.Valid() && net.log == old(net.log) + t.All() && net.issued == old(net.issued) + work
    ensures NoClose(work) && |t.All()| <= |work|
    ensures ToShape(t, destination, fd1, -1) && t.closing == []
    ensures disk.contents == old(disk.contents)
    ensures disk.closes == old(disk.closes) && disk.opens == old(disk.opens) + (if fd0 >= 0 then 1 else 0)
    ensures done <==>
            && Signed(|disk.contents|) >= 0 && |destination| < P.PATH_SIZE
            && Went(work, t.All()) && disk.failures == old(disk.failures)
    ensures done ==>
              && fd0 >= 0 && fd1 >= 0 && 0 <= size == Signed(|disk.contents|) <= |disk.contents|
              && t.bad == [] && Pushed(t.moves) == disk.contents[..size]
    ensures disk.failures >= old(disk.failures)
    ensures old(disk.Works()) ==> disk.Works() && disk.failures == old(disk.failures)
  {
    t := Trace([], [], [], []);
    assert t.All() == [];
    done, fd0, fd1, size, work := false, -1, -1, -1, [];
    fd0 := disk.Open(false);
    if fd0 < 0 { return; }
    size := disk.Size();
    if size < 0 { return; }
    done, fd1, t, work := OpenAndPush(net, disk, destination, size);
  }

  /** fsclient_copyto */
  method CopyTo(net: Client, disk: LocalFile, destination: seq<byte>)
    returns (status: int, ghost fd: int32, ghost size: int32, ghost closed: int32, ghost t: Trace, ghost work: seq<Command>)
    requires net.Valid() && 0 !in destination
    modifies net, net.link, disk
    ensures status == 0 || status == -1
    ensures net.Valid() && net.log == old(net.log) + t.All() && ToShape(t, destination, fd, closed)
    ensures net.issued == old(net.issued) + Closing(work, fd) && NoClose(work)
    ensures disk.contents == old(disk.contents)
    ensures status == 0 <==>
            && Signed(|disk.contents|) >= 0 && |destination| < P.PATH_SIZE
            && Went(Closing(work, fd), t.All()) && disk.failures == old(disk.failures)
    ensures status == 0 ==>
              && fd >= 0 && t.bad == [] && |t.closing| == 1
              && 0 <= size == Signed(|disk.contents|) <= |disk.contents| && Pushed(t.moves) == disk.contents[..size]
    ensures disk.closes - old(disk.closes) == disk.opens - old(disk.opens) <= 1
    ensures disk.failures >= old(disk.failures)
    ensures old(disk.Works()) ==> disk.Works() && disk.failures == old(disk.failures)
  {
    var done, fd0, fd1, length, tried, issued := TryCopyTo(net, disk, destination);
    fd, size, work := fd1, length, issued;
    status := if done then 0 else -1;
    if fd0 >= 0 {
      var result := disk.Close();
      if result < 0 { status := -1; }
    }
    var ok;
    ok, closed, t := CloseRemote(net, fd1, tried, work);
    AppendCommands(old(net.issued), work, if fd >= 0 then [Close(fd)] else []);
    AppendExchanges(old(net.log), tried.All(), t.closing);
    if !ok { status := -1; }
  }
}
