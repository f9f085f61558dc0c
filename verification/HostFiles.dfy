/**
 The host's files as the operating system shows them: regular files, directories and
 open descriptors. Short reads and writes follow scripts, so a lemma about every host
 is about every pattern of short results.
 */
module HostFiles {
  import opened Bytes
  import opened Utility

  type Path = seq<byte>

  /** No read or write moves more than this in one call. */
  const MOST := 0x7fff_f000

  /** A directory entry: its name, and its mode, size and times as they go to the PS2. */
  datatype Entry = Entry(name: seq<byte>, attributes: seq<byte>)

  datatype Handle =
    | NullDevice
    | OpenFile(path: Path, at: nat, flags: Flags)

  /** `spare` is the lowest descriptor number that the client does not use for itself. */
  datatype Host = Host(
    files: map<Path, seq<byte>>,
    dirs: map<Path, seq<Entry>>,
    handles: map<int, Handle>,
    spare: nat,
    limit: nat,
    shortReads: seq<nat>,
    shortWrites: seq<nat>)

  function LeastFree(used: set<int>, from: nat): (n: nat)
    ensures from <= n && n !in used
    ensures forall m :: from <= m < n ==> m in used
    decreases |used|
  {
    if from !in used then from else
      var others := used - {from};
      var n := LeastFree(others, from + 1);
      assert forall m :: from <= m < n ==> m in used by {
        forall m | from <= m < n
          ensures m in used
        {
          if m != from { assert m in others; }
        }
      }
      n
  }

  /** The descriptor the next open returns, the lowest free one; None at the process limit. */
  function NextDescriptor(h: Host): (r: Option<int32>)
    ensures r.Some? ==> 0 <= r.value && r.value !in h.handles
  {
    var n := LeastFree(h.handles.Keys, h.spare);
    if n < h.limit && n < 0x8000_0000 then Some(n) else None
  }

  function OpenHandle(h: Host, handle: Handle): (Host, int32) {
    match NextDescriptor(h)
    case None => (h, -1)
    case Some(fd) => (h.(handles := h.handles[fd := handle]), fd)
  }

  /** open: only a file that exists or may be created, and never a directory. */
  function Open(h: Host, path: Path, flags: Flags): (Host, int32) {
    if NextDescriptor(h).None? || path in h.dirs || (path !in h.files && !flags.create) then (h, -1)
    else
      var contents := if path !in h.files || flags.truncate then [] else h.files[path];
      OpenHandle(h.(files := h.files[path := contents]), OpenFile(path, 0, flags))
  }

  function Close(h: Host, fd: int32): (Host, int32) {
    if fd in h.handles then (h.(handles := h.handles - {fd}), 0) else (h, -1)
  }

  /** The first `n` of the script is how much the call moves, at least 1 and at most `most`. */
  function Short(script: seq<nat>, most: nat): (n: nat)
    ensures n <= most && (0 < most ==> 0 < n)
  {
    if script == [] then most else Min(Max(script[0], 1), most)
  }

  function Rest(script: seq<nat>): seq<nat> {
    if script == [] then [] else script[1..]
  }

  /** The bytes between `at` and the end of a file. */
  function Left(h: Host, file: Handle): seq<byte>
    requires file.OpenFile?
  {
    if file.path in h.files && file.at <= |h.files[file.path]| then h.files[file.path][file.at..] else []
  }

  /** read: the result, and the data it puts in the buffer. */
  function Read(h: Host, fd: int32, size: nat): (r: (Host, int32, seq<byte>))
    ensures |r.2| <= Min(size, MOST)
    ensures (r.1 == -1 && r.2 == []) || r.1 == |r.2|
  {
    if fd !in h.handles || h.handles[fd].NullDevice? || h.handles[fd].flags.access.WriteOnly? then (h, -1, [])
    else
      var file := h.handles[fd];
      var n: int := Short(h.shortReads, Min(Min(size, MOST), |Left(h, file)|));
      (h.(shortReads := Rest(h.shortReads), handles := h.handles[fd := file.(at := file.at + n)]), n, Left(h, file)[..n])
  }

  function Pad(contents: seq<byte>, n: nat): (r: seq<byte>)
    ensures |r| >= n
  {
    contents + seq(Max(n - |contents|, 0), _ => 0)
  }

  /** A file after `data` has been put at `at`; a gap fills with nulls. */
  function Put(contents: seq<byte>, at: nat, data: seq<byte>): seq<byte> {
    if data == [] then contents else
      Pad(contents, at)[..at] + data + Pad(contents, at)[Min(at + |data|, |Pad(contents, at)|)..]
  }

  /** write */
  function Write(h: Host, fd: int32, data: seq<byte>): (r: (Host, int32))
    ensures -1 <= r.1 <= |data|
  {
    if fd !in h.handles then (h, -1)
    else
      match h.handles[fd]
      case NullDevice => (h, Min(|data|, MOST))
      case OpenFile(path, at, flags) =>
        if flags.access.ReadOnly? then (h, -1)
        else
          var contents := if path in h.files then h.files[path] else [];
          var start := if flags.append then |contents| else at;
          var n := Short(h.shortWrites, Min(|data|, MOST));
          (h.(shortWrites := Rest(h.shortWrites),
              files := h.files[path := Put(contents, start, data[..n])],
              handles := h.handles[fd := OpenFile(path, start + n, flags)]), n)
  }

  const SEEK_SET: uint32 := 0
  const SEEK_CUR: uint32 := 1
  const SEEK_END: uint32 := 2

  /** lseek, with the 64-bit result cut down to an int. */
  function Lseek(h: Host, fd: int32, offset: int, whence: uint32): (Host, int32) {
    if fd !in h.handles || whence > 2 then (h, -1)
    else
      match h.handles[fd]
      case NullDevice => (h, 0)
      case OpenFile(path, at, flags) =>
        var size := if path in h.files then |h.files[path]| else 0;
        var target := offset + (if whence == SEEK_SET then 0 else if whence == SEEK_CUR then at else size);
        if target < 0 then (h, -1)
        else (h.(handles := h.handles[fd := OpenFile(path, target, flags)]), Signed(target))
  }

  // ---------- Reading a file through a descriptor ----------

  /** `h` is the host `start`, except that `at` bytes have been read through the descriptor. */
  ghost predicate Reading(h: Host, start: Host, fd: int32, at: nat) {
    && fd in start.handles && start.handles[fd].OpenFile? && start.handles[fd].path in start.files
    && !start.handles[fd].flags.access.WriteOnly?
    && h == start.(shortReads := h.shortReads, handles := start.handles[fd := start.handles[fd].(at := at)])
    && at <= |start.files[start.handles[fd].path]|
  }

  /** A read takes the next bytes, and none only at the end of the file. */
  lemma ReadStep(h: Host, start: Host, fd: int32, at: nat, size: nat)
    requires Reading(h, start, fd, at) && 0 < size
    ensures var (next, n, data) := Read(h, fd, size);
            var contents := start.files[start.handles[fd].path];
            && n == |data| && at + n <= |contents| && data == contents[at..at + n]
            && Reading(next, start, fd, at + n) && (n == 0 <==> at == |contents|)
  {
    var (next, n, data) := Read(h, fd, size);
    assert next.handles == start.handles[fd := start.handles[fd].(at := at + n)];
  }

  /** A descriptor as OPEN returns it: nothing has been read through it. */
  ghost predicate NewHandle(h: Host, fd: int32) {
    && fd in h.handles
    && (h.handles[fd].OpenFile? ==> h.handles[fd].path in h.files && h.handles[fd].at == 0)
  }

  predicate Readable(h: Host, fd: int32)
    requires fd in h.handles
  {
    h.handles[fd].OpenFile? && !h.handles[fd].flags.access.WriteOnly?
  }

  lemma ReadingStarts(h: Host, fd: int32)
    requires NewHandle(h, fd)
    ensures Reading(h, h, fd, 0) <==> Readable(h, fd)
  {
    if Readable(h, fd) {
      assert h.handles == h.handles[fd := h.handles[fd].(at := 0)];
    }
  }
}
