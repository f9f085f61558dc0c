/** What the host's file operations mean for the bytes of a file and for the operations after them. */
module HostFacts {
  import opened Bytes
  import opened Utility
  import H = HostFiles

  /** An open file that exists. */
  predicate IsOpen(h: H.Host, fd: int32) {
    fd in h.handles && h.handles[fd].OpenFile? && h.handles[fd].path in h.files
  }

  function Contents(h: H.Host, fd: int32): seq<byte>
    requires IsOpen(h, fd)
  {
    h.files[h.handles[fd].path]
  }

  /** Seeking moves the descriptor only, to the offset from the start, the position or the end, and refuses to go before the start. */
  lemma SeekMeaning(h: H.Host, fd: int32, offset: int, whence: uint32)
    requires IsOpen(h, fd) && whence <= 2
    ensures var (next, result) := H.Lseek(h, fd, offset, whence);
            var at := h.handles[fd].at;
            var target := if whence == 0 then offset else if whence == 1 then at + offset else |Contents(h, fd)| + offset;
            && next.files == h.files && next.handles.Keys == h.handles.Keys
            && if target < 0 then next == h && result == -1
               else
                 && IsOpen(next, fd) && next.handles[fd].at == target && (result - target) % 0x1_0000_0000 == 0
                 && H.Left(next, next.handles[fd]) == if target <= |Contents(h, fd)| then Contents(h, fd)[target..] else []
  {
    SignedKeepsLowBits(if whence == 0 then offset else if whence == 1 then h.handles[fd].at + offset else |Contents(h, fd)| + offset);
  }

  /** Seeking back by what was read undoes the read. */
  lemma SeekBack(h: H.Host, fd: int32, size: nat)
    requires IsOpen(h, fd) && H.Read(h, fd, size).1 >= 0
    ensures var (next, n, _) := H.Read(h, fd, size); H.Lseek(next, fd, 0 - n, 1).0.handles == h.handles
  {
    var (next, n, _) := H.Read(h, fd, size);
    assert H.Lseek(next, fd, 0 - n, 1).0.handles[fd] == h.handles[fd];
  }

  /** The bytes of a file after a write at `at`: the data there, nulls in a gap before it, the rest as it was. */
  lemma PutMeaning(contents: seq<byte>, at: nat, data: seq<byte>)
    requires data != []
    ensures var after := H.Put(contents, at, data);
            && |after| == Max(|contents|, at + |data|)
            && forall i :: 0 <= i < |after| ==>
                 after[i] == if at <= i < at + |data| then data[i - at] else if i < |contents| then contents[i] else 0
  {
    var padded := H.Pad(contents, at);
    var rest := padded[Min(at + |data|, |padded|)..];
    assert H.Put(contents, at, data) == padded[..at] + data + rest;
  }

  /** A write that took something put it at the position, or at the end for an appending descriptor, and moved behind it. */
  lemma WriteMeaning(h: H.Host, fd: int32, data: seq<byte>)
    requires IsOpen(h, fd) && H.Write(h, fd, data).1 > 0
    ensures var (next, n) := H.Write(h, fd, data);
            var start := if h.handles[fd].flags.append then |Contents(h, fd)| else h.handles[fd].at;
            && IsOpen(next, fd) && next.handles[fd].at == start + n && next.handles[fd].path == h.handles[fd].path
            && |Contents(next, fd)| == Max(|Contents(h, fd)|, start + n) && Contents(next, fd)[start..start + n] == data[..n]
            && (forall i :: 0 <= i < Min(start, |Contents(h, fd)|) ==> Contents(next, fd)[i] == Contents(h, fd)[i])
            && forall path :: path in h.files && path != h.handles[fd].path ==> path in next.files && next.files[path] == h.files[path]
  {
    var (next, n) := H.Write(h, fd, data);
    var start := if h.handles[fd].flags.append then |Contents(h, fd)| else h.handles[fd].at;
    assert Contents(next, fd) == H.Put(Contents(h, fd), start, data[..n]);
    PutMeaning(Contents(h, fd), start, data[..n]);
  }

  /** Opening needs a free descriptor and a file that exists or may be created; it empties what it truncates and touches no other file. */
  lemma OpenMeaning(h: H.Host, path: seq<byte>, flags: Flags)
    ensures var (next, fd) := H.Open(h, path, flags);
            && (fd >= 0 <==> H.NextDescriptor(h).Some? && path !in h.dirs && (path in h.files || flags.create))
            && (fd < 0 ==> next == h && fd == -1)
            && (fd >= 0 ==>
                  && fd !in h.handles && IsOpen(next, fd) && next.handles[fd].at == 0 && next.handles[fd].path == path
                  && next.handles - {fd} == h.handles
                  && Contents(next, fd) == (if path in h.files && !flags.truncate then h.files[path] else [])
                  && forall other :: other in h.files && other != path ==> other in next.files && next.files[other] == h.files[other])
  {
    var (next, fd) := H.Open(h, path, flags);
    if fd >= 0 {
      assert next.handles == h.handles[fd := H.OpenFile(path, 0, flags)];
    }
  }
}
