/** What a copy that returns 0 has copied, when the server keeps its files honestly. */
module CopyFacts {
  import opened Bytes
  import opened Utility
  import opened NetFs
  import opened FsClient
  import Network
  import H = HostFiles
  import P = Protocol

  // ---------- copyfrom ----------

  /** What the reads have brought is the front of the file, as far as the descriptor has been read. */
  ghost predicate Brought(h: H.Host, start: H.Host, fd: int32, brought: seq<byte>) {
    && H.Reading(h, start, fd, |brought|)
    && brought == start.files[start.handles[fd].path][..|brought|]
  }

  lemma PullStep(h: H.Host, start: H.Host, fd: int32, brought: seq<byte>, e: Exchange)
    requires Brought(h, start, fd, brought) && OnlyReads([e], fd) && Honest(h, [e])
    ensures Brought(After(h, [e]), start, fd, brought + e.data)
  {
    var at := |brought|;
    assert [e][0] == e;
    HonestOne(h, e);
    H.ReadStep(h, start, fd, at, e.command.size);
    var contents := start.files[start.handles[fd].path];
    assert contents[..at] + contents[at..at + |e.data|] == contents[..at + |e.data|];
  }

  lemma LastRead(before: seq<Exchange>, e: Exchange, fd: int32)
    requires OnlyReads(before + [e], fd)
    ensures OnlyReads(before, fd) && OnlyReads([e], fd) && Pulled(before + [e]) == Pulled(before) + e.data
  {
    var all := before + [e];
    assert all[..|before|] == before && all[|before|] == e;
    assert forall i :: 0 <= i < |before| ==> before[i] == all[i];
  }

  lemma MorePulls(h: H.Host, start: H.Host, fd: int32, before: seq<Exchange>, e: Exchange)
    requires Brought(After(h, before), start, fd, Pulled(before))
    requires OnlyReads(before + [e], fd) && Honest(h, before + [e])
    ensures Brought(After(h, before + [e]), start, fd, Pulled(before + [e]))
  {
    HonestAppend(h, before, [e]);
    LastRead(before, e, fd);
    PullStep(After(h, before), start, fd, Pulled(before), e);
  }

  /** The reads bring the file's bytes in order, from where they start. */
  lemma {:induction false} HonestPulls(h: H.Host, start: H.Host, fd: int32, pulls: seq<Exchange>)
    requires H.Reading(h, start, fd, 0) && OnlyReads(pulls, fd) && Honest(h, pulls)
    ensures Brought(After(h, pulls), start, fd, Pulled(pulls))
    decreases |pulls|
  {
    if pulls != [] {
      var (before, e) := (pulls[..|pulls| - 1], pulls[|pulls| - 1]);
      assert pulls == before + [e];
      HonestAppend(h, before, [e]);
      LastRead(before, e, fd);
      HonestPulls(h, start, fd, before);
      MorePulls(h, start, fd, before, e);
    }
  }

  /** A file that can be opened to be read. */
  predicate Openable(h: H.Host, path: seq<byte>) {
    H.NextDescriptor(h).Some? && path in h.files && path !in h.dirs
  }

  lemma OpenedToRead(h: H.Host, source: seq<byte>)
    ensures var (next, fd, _) := Reply(h, Open(source, OPEN_READ));
            && (fd >= 0 <==> Openable(h, source))
            && (fd >= 0 ==> OpenAt(next, h, source, fd, 0))
  {
    assert FixFlags(OPEN_READ) == Flags(ReadOnly, false, false, false, false);
    assert source in h.files ==> h.files == h.files[source := h.files[source]];
  }

  /** The source is open on the server to be read at `at`, and no file has changed. */
  ghost predicate OpenAt(h: H.Host, start: H.Host, source: seq<byte>, fd: int32, at: nat) {
    && h.files == start.files && source in h.files && fd in h.handles
    && h.handles[fd] == H.OpenFile(source, at, Flags(ReadOnly, false, false, false, false))
  }

  lemma Sought(h: H.Host, start: H.Host, source: seq<byte>, fd: int32, at: nat, whence: uint32)
    requires OpenAt(h, start, source, fd, at) && (whence == H.SEEK_END || whence == H.SEEK_SET)
    ensures var (next, result, _) := Reply(h, Lseek(fd, 0, whence));
            var target := if whence == H.SEEK_END then |start.files[source]| else 0;
            result == Signed(target) && OpenAt(next, start, source, fd, target)
  {
  }

  /** The first `n` answers of a copy from an honest server. */
  lemma {:induction false} LeadHonest(h: H.Host, source: seq<byte>, fd: int32, size: int32, rewound: int32, n: nat)
    requires fd >= 0 && 1 <= n <= 3 && Honest(h, FromLog(source, fd, size, rewound, [])[..n])
    ensures Openable(h, source)
    ensures OpenAt(After(h, FromLog(source, fd, size, rewound, [])[..n]), h, source, fd, if n == 2 then |h.files[source]| else 0)
    ensures n >= 2 ==> size == Signed(|h.files[source]|)
    ensures n == 3 ==> rewound == 0
    decreases n
  {
    var all := FromLog(source, fd, size, rewound, []);
    var (before, e) := (all[..n - 1], all[n - 1]);
    assert all[..n] == before + [e];
    HonestAppend(h, before, [e]);
    HonestOne(After(h, before), e);
    if n == 1 {
      OpenedToRead(h, source);
    } else {
      LeadHonest(h, source, fd, size, rewound, n - 1);
      Sought(After(h, before), h, source, fd, if n == 3 then |h.files[source]| else 0, e.command.whence);
    }
  }

  lemma ReadingFrom(h: H.Host, start: H.Host, source: seq<byte>, fd: int32)
    requires OpenAt(h, start, source, fd, 0)
    ensures H.Reading(h, h, fd, 0) && h.handles[fd].path == source
  {
    assert h.handles == h.handles[fd := h.handles[fd].(at := 0)];
  }

  lemma WholeExactlyWhenSmall(contents: seq<byte>, moved: seq<byte>, size: int32)
    requires |moved| == size == Signed(|contents|) && |moved| <= |contents| && moved == contents[..|moved|]
    ensures moved == contents <==> |contents| < 0x8000_0000
  {
  }

  /** The three openings were true: what the reads brought is the front of the source. */
  lemma PulledFromSource(h: H.Host, t: Trace, source: seq<byte>, fd: int32, size: int32, rewound: int32, closed: int32)
    requires fd >= 0 && FromShape(t, source, fd, size, rewound, closed) && |t.lead| == 3
    requires Honest(h, t.lead + t.moves)
    ensures Openable(h, source) && size == Signed(|h.files[source]|)
    ensures |Pulled(t.moves)| <= |h.files[source]| && Pulled(t.moves) == h.files[source][..|Pulled(t.moves)|]
    ensures Honest(After(h, t.lead + t.moves), t.bad) && size >= 0 ==> t.bad == []
    ensures fd in After(h, t.lead + t.moves).handles
  {
    var all := FromLog(source, fd, size, rewound, []);
    assert t.lead == all[..3];
    HonestAppend(h, t.lead, t.moves);
    LeadHonest(h, source, fd, size, rewound, 3);
    PulledFrom(After(h, t.lead), h, source, fd, size, t.moves, t.bad);
  }

  /** The transfers of a source that is open at its start. */
  lemma PulledFrom(h: H.Host, start: H.Host, source: seq<byte>, fd: int32, size: int32, moves: seq<Exchange>, bad: seq<Exchange>)
    requires OpenAt(h, start, source, fd, 0) && size == Signed(|start.files[source]|)
    requires OnlyReads(moves, fd) && BadRead(bad, fd) && (bad != [] ==> |Pulled(moves)| < size) && Honest(h, moves)
    ensures |Pulled(moves)| <= |start.files[source]| && Pulled(moves) == start.files[source][..|Pulled(moves)|]
    ensures Honest(After(h, moves), bad) && size >= 0 ==> bad == []
    ensures fd in After(h, moves).handles
  {
    ReadingFrom(h, start, source, fd);
    HonestPulls(h, h, fd, moves);
    if Honest(After(h, moves), bad) && size >= 0 {
      NoBadRead(After(h, moves), h, fd, |Pulled(moves)|, size, bad);
    }
  }

  /**
   A copy from an honest server that returns 0 has the first `size` bytes of the source, where `size`
   is the source's length as an int: the whole source exactly when it is shorter than 2 GB.
   */
  lemma CopyFromHonest(h: H.Host, t: Trace, source: seq<byte>, fd: int32, size: int32, rewound: int32, closed: int32)
    requires fd >= 0 && FromShape(t, source, fd, size, rewound, closed) && |t.lead| == 3
    requires Honest(h, t.All()) && |Pulled(t.moves)| == size
    ensures Openable(h, source) && size == Signed(|h.files[source]|) <= |h.files[source]|
    ensures Pulled(t.moves) == h.files[source][..size]
    ensures Pulled(t.moves) == h.files[source] <==> |h.files[source]| < 0x8000_0000
  {
    HonestFronts(h, t);
    PulledFromSource(h, t, source, fd, size, rewound, closed);
    WholeExactlyWhenSmall(h.files[source], Pulled(t.moves), size);
  }

  /** An honest run is honest up to each of its parts. */
  lemma HonestFronts(h: H.Host, t: Trace)
    requires Honest(h, t.All())
    ensures Honest(h, t.lead) && Honest(h, t.lead + t.moves) && Honest(h, t.lead + t.moves + t.bad)
    ensures Honest(After(h, t.lead + t.moves), t.bad) && Honest(After(h, t.lead + t.moves + t.bad), t.closing)
  {
    HonestAppend(h, t.lead + t.moves + t.bad, t.closing);
    HonestAppend(h, t.lead + t.moves, t.bad);
    HonestAppend(h, t.lead, t.moves);
  }

  /** An honest server's READ brings something before the end, and leaves the descriptor open. */
  lemma NoBadRead(h: H.Host, start: H.Host, fd: int32, at: nat, size: int, bad: seq<Exchange>)
    requires H.Reading(h, start, fd, at) && size <= |start.files[start.handles[fd].path]|
    requires BadRead(bad, fd) && (bad != [] ==> at < size) && Honest(h, bad)
    ensures bad == [] && fd in h.handles
  {
    if bad != [] {
      assert bad == [bad[0]];
      HonestOne(h, bad[0]);
      H.ReadStep(h, start, fd, at, bad[0].command.size);
    }
  }

  lemma ClosesWell(h: H.Host, fd: int32, closed: int32, closing: seq<Exchange>)
    requires fd in h.handles && ClosedOnce(closing, fd, closed) && Honest(h, closing)
    ensures forall i :: 0 <= i < |closing| ==> Well(closing[i])
  {
    if closing != [] {
      HonestOne(h, closing[0]);
    }
  }

  lemma AllWell(t: Trace)
    requires forall i :: 0 <= i < |t.lead| ==> Well(t.lead[i])
    requires forall i :: 0 <= i < |t.moves| ==> Well(t.moves[i])
    requires t.bad == []
    requires forall i :: 0 <= i < |t.closing| ==> Well(t.closing[i])
    ensures forall i :: 0 <= i < |t.All()| ==> Well(t.All()[i])
  {
    assert t.All() == t.lead + t.moves + t.closing;
  }

  lemma LeadWell(h: H.Host, source: seq<byte>, fd: int32, size: int32, rewound: int32, lead: seq<Exchange>)
    requires lead <= FromLog(source, fd, size, rewound, []) && Honest(h, lead)
    requires Openable(h, source) && Signed(|h.files[source]|) >= 0
    ensures forall i :: 0 <= i < |lead| ==> Well(lead[i])
    ensures lead != [] ==> fd >= 0 && fd in After(h, lead).handles
  {
    var all := FromLog(source, fd, size, rewound, []);
    if lead != [] {
      assert lead == all[..|lead|] && lead == [all[0]] + lead[1..];
      HonestAppend(h, [all[0]], lead[1..]);
      HonestOne(h, all[0]);
      OpenedToRead(h, source);
      LeadHonest(h, source, fd, size, rewound, |lead|);
    }
  }

  lemma LeadOnly(t: Trace)
    requires t.moves + t.bad == []
    ensures t.moves == [] && t.bad == [] && t.lead + t.moves == t.lead && t.lead + t.moves + t.bad == t.lead
  {
  }

  /** Against an honest server nothing goes wrong with a source that opens and has a length. */
  lemma FromGoesWell(h: H.Host, t: Trace, source: seq<byte>, fd: int32, size: int32, rewound: int32, closed: int32)
    requires FromShape(t, source, fd, size, rewound, closed) && Honest(h, t.All())
    requires Openable(h, source) && Signed(|h.files[source]|) >= 0
    ensures forall i :: 0 <= i < |t.All()| ==> Well(t.All()[i])
  {
    HonestFronts(h, t);
    LeadWell(h, source, fd, size, rewound, t.lead);
    if |t.lead| == 3 {
      PulledFromSource(h, t, source, fd, size, rewound, closed);
    } else {
      LeadOnly(t);
    }
    assert t.lead + t.moves + t.bad == t.lead + t.moves;
    if t.closing != [] {
      ClosesWell(After(h, t.lead + t.moves), fd, closed, t.closing);
    }
    AllWell(t);
  }

  // ---------- copyto ----------

  /** A file that can be opened to be written anew. */
  predicate Creatable(h: H.Host, path: seq<byte>) {
    H.NextDescriptor(h).Some? && path !in h.dirs
  }

  /** The descriptor writes at the end of a file that holds `contents`. */
  ghost predicate Writing(h: H.Host, fd: int32, path: seq<byte>, contents: seq<byte>) {
    && fd in h.handles && path in h.files && h.files[path] == contents
    && h.handles[fd] == H.OpenFile(path, |contents|, FixFlags(OPEN_WRITE_NEW))
  }

  lemma WriteFlags()
    ensures FixFlags(OPEN_WRITE_NEW) == Flags(WriteOnly, false, false, true, true)
  {
  }

  lemma WriteStep(h: H.Host, fd: int32, path: seq<byte>, contents: seq<byte>, data: seq<byte>)
    requires Writing(h, fd, path, contents)
    ensures var (next, n) := H.Write(h, fd, data);
            0 <= n <= |data| && (data != [] ==> 0 < n) && Writing(next, fd, path, contents + data[..n])
  {
    var n: int := H.Short(h.shortWrites, Min(|data|, H.MOST));
    WriteFlags();
    assert H.Pad(contents, |contents|) == contents;
    assert H.Put(contents, |contents|, data[..n]) == contents + data[..n];
  }

  lemma LastWrite(before: seq<Exchange>, e: Exchange, fd: int32)
    requires OnlyWrites(before + [e], fd)
    ensures OnlyWrites(before, fd) && e.command.Write? && e.command.fd == fd && 0 < e.result <= |e.command.data|
    ensures Pushed(before + [e]) == Pushed(before) + e.command.data[..e.result]
  {
    var all := before + [e];
    assert all[..|before|] == before && all[|before|] == e;
    assert forall i :: 0 <= i < |before| ==> before[i] == all[i];
  }

  lemma MorePushes(h: H.Host, fd: int32, path: seq<byte>, before: seq<Exchange>, e: Exchange)
    requires Writing(After(h, before), fd, path, Pushed(before))
    requires OnlyWrites(before + [e], fd) && Honest(h, before + [e])
    ensures Writing(After(h, before + [e]), fd, path, Pushed(before + [e]))
  {
    HonestAppend(h, before, [e]);
    LastWrite(before, e, fd);
    PushOne(After(h, before), fd, path, Pushed(before), e);
  }

  /** What the server says it took is what it has. */
  lemma {:induction false} HonestPushes(h: H.Host, fd: int32, path: seq<byte>, pushes: seq<Exchange>)
    requires Writing(h, fd, path, []) && OnlyWrites(pushes, fd) && Honest(h, pushes)
    ensures Writing(After(h, pushes), fd, path, Pushed(pushes))
    decreases |pushes|
  {
    if pushes != [] {
      var (before, e) := (pushes[..|pushes| - 1], pushes[|pushes| - 1]);
      assert pushes == before + [e];
      HonestAppend(h, before, [e]);
      LastWrite(before, e, fd);
      HonestPushes(h, fd, path, before);
      MorePushes(h, fd, path, before, e);
    }
  }

  lemma PushOne(h: H.Host, fd: int32, path: seq<byte>, contents: seq<byte>, e: Exchange)
    requires Writing(h, fd, path, contents) && Honest(h, [e])
    requires e.command.Write? && e.command.fd == fd && 0 < e.result <= |e.command.data|
    ensures Writing(After(h, [e]), fd, path, contents + e.command.data[..e.result])
  {
    HonestOne(h, e);
    WriteStep(h, fd, path, contents, e.command.data);
  }

  lemma OpenedToWrite(h: H.Host, destination: seq<byte>)
    ensures var (next, fd, _) := Reply(h, Open(destination, OPEN_WRITE_NEW));
            && (fd >= 0 <==> Creatable(h, destination))
            && (fd >= 0 ==> Writing(next, fd, destination, []))
  {
    WriteFlags();
  }

  lemma DestinationOpened(h: H.Host, destination: seq<byte>, fd: int32, lead: seq<Exchange>)
    requires lead == [Exchange(Open(destination, OPEN_WRITE_NEW), fd, [])] && Honest(h, lead)
    ensures fd >= 0 <==> Creatable(h, destination)
    ensures fd >= 0 ==> Writing(After(h, lead), fd, destination, [])
  {
    HonestOne(h, lead[0]);
    OpenedToWrite(h, destination);
  }

  /** What the server took is what it has, before the transfers, between them and after them. */
  lemma PushedToDestination(h: H.Host, t: Trace, destination: seq<byte>, fd: int32, closed: int32)
    requires fd >= 0 && ToShape(t, destination, fd, closed) && Honest(h, t.lead + t.moves)
    ensures Creatable(h, destination)
    ensures Writing(After(h, t.lead + t.moves), fd, destination, Pushed(t.moves))
  {
    HonestAppend(h, t.lead, t.moves);
    DestinationOpened(h, destination, fd, t.lead);
    HonestPushes(After(h, t.lead), fd, destination, t.moves);
  }

  /** A copy to an honest server that returns 0 leaves there exactly what the server says it took. */
  lemma CopyToHonest(h: H.Host, t: Trace, destination: seq<byte>, fd: int32, closed: int32)
    requires fd >= 0 && ToShape(t, destination, fd, closed) && t.bad == [] && Honest(h, t.All())
    ensures Creatable(h, destination)
    ensures var files := After(h, t.All()).files; destination in files && files[destination] == Pushed(t.moves)
  {
    HonestFronts(h, t);
    PushedToDestination(h, t, destination, fd, closed);
    assert t.lead + t.moves + t.bad == t.lead + t.moves;
    HonestAppend(h, t.lead + t.moves, t.closing);
    if t.closing != [] {
      HonestOne(After(h, t.lead + t.moves), t.closing[0]);
    }
  }

  /** The transfers: an honest server's WRITE takes something, and no more than there is. */
  lemma NoBadWrite(h: H.Host, fd: int32, path: seq<byte>, contents: seq<byte>, bad: seq<Exchange>)
    requires Writing(h, fd, path, contents) && BadWrite(bad, fd) && Honest(h, bad)
    ensures bad == []
  {
    if bad != [] {
      assert bad == [bad[0]];
      HonestOne(h, bad[0]);
      WriteStep(h, fd, path, contents, bad[0].command.data);
    }
  }

  /** Against an honest server nothing goes wrong with a destination that can be made. */
  lemma ToGoesWell(h: H.Host, t: Trace, destination: seq<byte>, fd: int32, closed: int32)
    requires ToShape(t, destination, fd, closed) && Honest(h, t.All()) && Creatable(h, destination)
    ensures forall i :: 0 <= i < |t.All()| ==> Well(t.All()[i])
  {
    HonestFronts(h, t);
    if t.lead != [] {
      DestinationOpened(h, destination, fd, t.lead);
      PushedToDestination(h, t, destination, fd, closed);
      NoBadWrite(After(h, t.lead + t.moves), fd, destination, Pushed(t.moves), t.bad);
      assert t.lead + t.moves + t.bad == t.lead + t.moves;
      ClosesWell(After(h, t.lead + t.moves), fd, closed, t.closing);
    }
    AllWell(t);
  }

  // ---------- The copies themselves ----------

  /** What has been answered since the log was `before`. */
  ghost function Since(before: seq<Exchange>, log: seq<Exchange>): seq<Exchange> {
    if before <= log then log[|before|..] else []
  }

  /** An honest client's log since then is honest from where the server was then. */
  lemma HonestSince(net: Client, before: seq<Exchange>, added: seq<Exchange>)
    requires net.Valid() && net.server.Some? && net.log == before + added
    ensures Honest(net.first.value, before) && Honest(After(net.first.value, before), added)
    ensures net.server.value == After(After(net.first.value, before), added)
  {
    HonestAppend(net.first.value, before, added);
  }

  /**
   fsclient_copyfrom. Against any server whose answers are true, 0 means the front of the source by its
   length as an int; against an honest server, with a local file that works, 0 is returned exactly
   when there is such a source.
   */
  method CopyFromServer(net: Client, disk: LocalFile, source: seq<byte>, ghost h: H.Host) returns (status: int)
    requires net.Valid() && 0 !in source
    modifies net, net.link, disk
    ensures net.Valid() && old(net.log) <= net.log && (status == 0 || status == -1)
    ensures old(net.server) == Some(h) ==>
              Honest(h, Since(old(net.log), net.log)) && net.server == Some(After(h, Since(old(net.log), net.log)))
    ensures status == 0 && Honest(h, Since(old(net.log), net.log)) ==>
              && source in h.files && 0 <= Signed(|h.files[source]|) <= |h.files[source]|
              && disk.contents == h.files[source][..Signed(|h.files[source]|)]
              && (disk.contents == h.files[source] <==> |h.files[source]| < 0x8000_0000)
    ensures old(net.server) == Some(h) && old(disk.Works()) ==>
              (status == 0 <==> |source| < P.PATH_SIZE && Openable(h, source) && Signed(|h.files[source]|) >= 0)
  {
    ghost var fd, size, rewound, closed, t, work;
    status, fd, size, rewound, closed, t, work := CopyFrom(net, disk, source);
    assert Since(old(net.log), net.log) == t.All();
    if old(net.server) == Some(h) { HonestSince(net, old(net.log), t.All()); }
    if Honest(h, t.All()) {
      if status == 0 {
        CopyFromHonest(h, t, source, fd, size, rewound, closed);
      } else if Openable(h, source) && Signed(|h.files[source]|) >= 0 {
        FromGoesWell(h, t, source, fd, size, rewound, closed);
      }
    }
  }

  /** fsclient_copyto, in the same way. */
  method CopyToServer(net: Client, disk: LocalFile, destination: seq<byte>, ghost h: H.Host) returns (status: int)
    requires net.Valid() && 0 !in destination
    modifies net, net.link, disk
    ensures net.Valid() && old(net.log) <= net.log && (status == 0 || status == -1)
    ensures disk.contents == old(disk.contents)
    ensures old(net.server) == Some(h) ==>
              Honest(h, Since(old(net.log), net.log)) && net.server == Some(After(h, Since(old(net.log), net.log)))
    ensures status == 0 && Honest(h, Since(old(net.log), net.log)) ==>
              var files := After(h, Since(old(net.log), net.log)).files;
              && destination in files && 0 <= Signed(|disk.contents|) <= |disk.contents|
              && files[destination] == disk.contents[..Signed(|disk.contents|)]
              && (files[destination] == disk.contents <==> |disk.contents| < 0x8000_0000)
    ensures old(net.server) == Some(h) && old(disk.Works()) ==>
              (status == 0 <==> |destination| < P.PATH_SIZE && Creatable(h, destination) && Signed(|disk.contents|) >= 0)
  {
    ghost var fd, size, closed, t, work;
    status, fd, size, closed, t, work := CopyTo(net, disk, destination);
    assert Since(old(net.log), net.log) == t.All();
    if old(net.server) == Some(h) { HonestSince(net, old(net.log), t.All()); }
    if Honest(h, t.All()) {
      if status == 0 {
        CopyToHonest(h, t, destination, fd, closed);
        WholeExactlyWhenSmall(disk.contents, Pushed(t.moves), size);
      } else if Creatable(h, destination) {
        ToGoesWell(h, t, destination, fd, closed);
      }
    }
  }

  // ---------- A file of 4 GB ----------

  const BIG: nat := 0x1_0000_0000

  /** A server with one file. */
  function OneFile(path: seq<byte>, contents: seq<byte>): H.Host {
    H.Host(map[path := contents], map[], map[], 3, 1024, [], [])
  }

  /** A copy of a file of 2^32 bytes from an honest server: it returns 0, and the copy is empty. */
  method BigFileCopiedFrom() returns (status: int, disk: LocalFile, net: Client)
    ensures net.first.Some? && [DOT] in net.first.value.files && |net.first.value.files[[DOT]]| == BIG
    ensures status == 0 && disk.contents == []
  {
    var h := OneFile([DOT], seq(BIG, _ => 1));
    var link := new Network.Connection([], [], []);
    net := new Client(link, Some(h));
    disk := new LocalFile([2], [], true, true, true);
    status := CopyFromServer(net, disk, [DOT], h);
  }

  /** And to it: it returns 0, and the server has an empty file. */
  method BigFileCopiedTo() returns (status: int, disk: LocalFile, net: Client)
    ensures status == 0 && |disk.contents| == BIG
    ensures net.server.Some? && [DOT] in net.server.value.files && net.server.value.files[[DOT]] == []
  {
    var h := OneFile([SLASH], []);
    var link := new Network.Connection([], [], []);
    net := new Client(link, Some(h));
    disk := new LocalFile(seq(BIG, _ => 1), [], true, true, true);
    status := CopyToServer(net, disk, [DOT], h);
  }
}
