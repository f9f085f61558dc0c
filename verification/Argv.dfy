/** Packing a program's arguments into a command packet, and the peer's unpacking. */
module Argv {
  import opened Bytes

  const ARGV_SIZE := 256

  ghost predicate Strings(argv: seq<seq<byte>>) {
    forall i :: 0 <= i < |argv| ==> 0 !in argv[i]
  }

  /** The arguments, each with its null. */
  function Packed(argv: seq<seq<byte>>): seq<byte> {
    if argv == [] then [] else Packed(argv[..|argv| - 1]) + argv[|argv| - 1] + [0]
  }

  function Zeros(n: nat): seq<byte> {
    seq(n, _ => 0)
  }

  lemma {:induction false} PackedGrows(argv: seq<seq<byte>>, n: nat)
    requires n <= |argv|
    ensures Packed(argv[..n]) <= Packed(argv)
    decreases |argv| - n
  {
    if n < |argv| {
      assert argv[..n + 1][..n] == argv[..n];
      PackedGrows(argv, n + 1);
    } else {
      assert argv[..n] == argv;
    }
  }

  method FixArgv(destination: array<byte>, size: nat, argv: seq<seq<byte>>) returns (result: int)
    requires size <= destination.Length
    modifies destination
    ensures result == if |Packed(argv)| <= size then 0 else -1
    ensures result == 0 ==> destination[..size] == Packed(argv) + Zeros(size - |Packed(argv)|)
    ensures destination[size..] == old(destination[size..])
  {
    var used := 0;
    assert argv[..0] == [];
    for loop0 := 0 to |argv|
      invariant used == |Packed(argv[..loop0])| <= size
      invariant destination[..used] == Packed(argv[..loop0])
      invariant destination[size..] == old(destination[size..])
    {
      var length := |argv[loop0]| + 1;
      assert argv[..loop0 + 1][..loop0] == argv[..loop0];
      PackedGrows(argv, loop0 + 1);
      if used + length > size { return -1; }
      CopyIn(destination, used, argv[loop0] + [0]);
      used := used + length;
    }
    assert argv[..|argv|] == argv;
    CopyIn(destination, used, Zeros(size - used));
    assert destination[..size] == destination[..used] + destination[used..size];
    return 0;
  }

  /** memcpy and memset to a place inside the destination. */
  method CopyIn(destination: array<byte>, at: nat, bytes: seq<byte>)
    requires at + |bytes| <= destination.Length
    modifies destination
    ensures destination[..at] == old(destination[..at])
    ensures destination[at..at + |bytes|] == bytes
    ensures destination[..at + |bytes|] == old(destination[..at]) + bytes
    ensures destination[at + |bytes|..] == old(destination[at + |bytes|..])
  {
    forall i | 0 <= i < |bytes| {
      destination[at + i] := bytes[i];
    }
    assert destination[..at + |bytes|] == destination[..at] + destination[at..at + |bytes|];
  }

  /** The client's check before it connects: lengths capped at 257, and 256 bytes at most. */
  method ArgumentsFit(argv: seq<seq<byte>>) returns (fit: bool)
    ensures fit <==> |Packed(argv)| <= 256
  {
    var length := 0;
    assert argv[..0] == [];
    for loop0 := 0 to |argv|
      invariant length <= |Packed(argv[..loop0])|
      invariant length < |Packed(argv[..loop0])| ==> length > ARGV_SIZE
    {
      assert argv[..loop0 + 1][..loop0] == argv[..loop0];
      length := length + Min(|argv[loop0]|, 257) + 1;
    }
    assert argv[..|argv|] == argv;
    return length <= ARGV_SIZE;
  }

  /** The strings a walk of at most `count` steps from `offset` adds to those it has, as the peer reads them. */
  function Unpacked(done: seq<seq<byte>>, args: seq<byte>, offset: nat, count: nat): seq<seq<byte>>
    decreases count
  {
    if count == 0 || offset >= |args| then done
    else
      var current := CString(args[offset..]);
      Unpacked(done + [current], args, offset + |current| + 1, count - 1)
  }

  /** The peer's walk over its copy of the packet's argument field. */
  method ReadArguments(field: seq<byte>, count: nat) returns (arguments: seq<seq<byte>>)
    requires |field| == ARGV_SIZE && 0 < count
    ensures arguments == Unpacked([], field[..ARGV_SIZE - 1] + [0], 0, count)
  {
    var args := field[..ARGV_SIZE - 1] + [0];
    assert args[0..] == args;
    arguments := [CString(args)];
    assert arguments == [] + [CString(args)];
    var offset: nat := |CString(args)| + 1;
    var i := 1;
    while i < count && offset < ARGV_SIZE
      invariant 1 <= i <= count
      invariant Unpacked([], args, 0, count) == Unpacked(arguments, args, offset, count - i)
    {
      var current := CString(args[offset..]);
      arguments := arguments + [current];
      offset := offset + |current| + 1;
      i := i + 1;
    }
  }

  lemma {:induction false} PackedFront(argv: seq<seq<byte>>)
    requires argv != []
    ensures Packed(argv) == argv[0] + [0] + Packed(argv[1..])
  {
    var last := |argv| - 1;
    if last > 0 {
      PackedFront(argv[..last]);
      assert argv[..last][1..] == argv[1..][..last - 1];
    } else {
      assert argv[..0] == [] == argv[1..];
    }
  }

  lemma {:induction false} UnpackedPacked(done: seq<seq<byte>>, args: seq<byte>, at: nat, argv: seq<seq<byte>>, rest: seq<byte>)
    requires Strings(argv) && at <= |args| && args[at..] == Packed(argv) + rest
    ensures Unpacked(done, args, at, |argv|) == done + argv
    decreases |argv|
  {
    if argv != [] {
      FirstPacked(args, at, argv, rest);
      UnpackedPacked(done + [argv[0]], args, at + |argv[0]| + 1, argv[1..], rest);
      assert done + argv == done + [argv[0]] + argv[1..];
    }
  }

  lemma {:induction false} FirstPacked(args: seq<byte>, at: nat, argv: seq<seq<byte>>, rest: seq<byte>)
    requires argv != [] && Strings(argv) && at <= |args| && args[at..] == Packed(argv) + rest
    ensures CString(args[at..]) == argv[0] && at + |argv[0]| < |args|
    ensures args[at + |argv[0]| + 1..] == Packed(argv[1..]) + rest
  {
    PackedFront(argv);
    Regrouped(argv[0], Packed(argv[1..]), rest);
    FirstString(args, at, argv[0], Packed(argv[1..]) + rest);
  }

  lemma Regrouped(text: seq<byte>, more: seq<byte>, rest: seq<byte>)
    ensures text + [0] + more + rest == text + [0] + (more + rest)
  {
  }

  lemma {:induction false} FirstString(args: seq<byte>, at: nat, text: seq<byte>, after: seq<byte>)
    requires 0 !in text && at <= |args| && args[at..] == text + [0] + after
    ensures CString(args[at..]) == text && at + |text| < |args| && args[at + |text| + 1..] == after
  {
    CStringStops(text, after);
    assert args[at + |text| + 1..] == args[at..][|text| + 1..];
  }

  /** Arguments that fit come back unchanged at the peer, empty ones included. */
  lemma {:induction false} ArgvRoundTrip(argv: seq<seq<byte>>, field: seq<byte>)
    requires argv != [] && Strings(argv) && |Packed(argv)| <= 256
    requires field == Packed(argv) + Zeros(256 - |Packed(argv)|)
    ensures Unpacked([], field[..255] + [0], 0, |argv|) == argv
  {
    LastIsNull(argv, field);
    var padding := Zeros(256 - |Packed(argv)|);
    var args := field[..255] + [0];
    assert args[0..] == Packed(argv) + padding;
    UnpackedPacked([], args, 0, argv, padding);
    assert [] + argv == argv;
  }

  lemma {:induction false} LastIsNull(argv: seq<seq<byte>>, field: seq<byte>)
    requires argv != [] && |Packed(argv)| <= 256 && field == Packed(argv) + Zeros(256 - |Packed(argv)|)
    ensures |field| == 256 && field[255] == 0
  {
    if |Packed(argv)| == 256 { assert field[255] == Packed(argv)[255]; }
  }
}
