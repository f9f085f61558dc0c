/** The helpers that put a request's path, open flags and arguments in the client's own terms. */
module Utility {
  import opened Bytes

  const BACKSLASH: byte := 92
  const SLASH: byte := 47
  const DOT: byte := 46

  // ---------- fix_flags ----------

  datatype Access = ReadOnly | WriteOnly | ReadWrite

  datatype Flags = Flags(access: Access, nonblock: bool, append: bool, create: bool, truncate: bool)

  predicate Bit(flags: uint32, mask: nat)
    requires mask != 0
  {
    flags / mask % 2 == 1
  }

  /** The host's open flags for ps2link's: access 2 also truncates. */
  function FixFlags(flags: uint32): Flags {
    var access := flags % 4;
    Flags(
      if access == 2 then WriteOnly else if access == 3 then ReadWrite else ReadOnly,
      Bit(flags, 0x10), Bit(flags, 0x100), Bit(flags, 0x200), access == 2 || Bit(flags, 0x400))
  }

  function When(b: bool, mask: nat): nat {
    if b then mask else 0
  }

  lemma {:induction false} Multiples(a: nat, b: nat, m: nat)
    ensures a < b ==> a * m + m <= b * m
    decreases b
  {
    if a < b {
      Multiples(a, b - 1, m);
      var c := b - 1;
      assert (c + 1) * m == c * m + m;
    }
  }

  lemma Quotient(n: nat, mask: nat, q: nat, below: nat)
    requires below < mask && n == q * mask + below
    ensures n / mask == q
  {
    var r := n / mask;
    Multiples(r, q, mask);
    Multiples(q, r, mask);
    assert r * mask <= n < r * mask + mask;
  }

  /** What a number has at a bit does not depend on what is below or above it. */
  lemma BitBetween(flags: uint32, below: nat, b: bool, mask: nat, above: nat)
    requires below < mask && flags == below + When(b, mask) + above * (2 * mask)
    ensures Bit(flags, mask) == b
  {
    var q := When(b, 1) + 2 * above;
    assert above * (2 * mask) == (2 * above) * mask;
    assert q * mask == When(b, 1) * mask + (2 * above) * mask;
    Quotient(flags, mask, q, below);
  }

  /** The flags a program asks for come out as asked, whatever the other bits; only access 2 adds truncation. */
  lemma FixFlagsMeaning(reading: bool, writing: bool, nonblock: bool, append: bool, create: bool, truncate: bool,
                        low: nat, middle: nat, high: nat)
    requires low < 4 && middle < 8 && high < 0x20_0000
    ensures FixFlags(When(reading, 1) + When(writing, 2) + 4 * low + When(nonblock, 0x10) + 0x20 * middle
                     + When(append, 0x100) + When(create, 0x200) + When(truncate, 0x400) + 0x800 * high)
            == Flags(if !writing then ReadOnly else if reading then ReadWrite else WriteOnly,
                     nonblock, append, create, truncate || (writing && !reading))
  {
    var access := When(reading, 1) + When(writing, 2);
    var flags := access + 4 * low + When(nonblock, 0x10) + 0x20 * middle
                 + When(append, 0x100) + When(create, 0x200) + When(truncate, 0x400) + 0x800 * high;
    LowBits(flags, access, low + When(nonblock, 4) + 8 * middle + When(append, 0x40) + When(create, 0x80)
                           + When(truncate, 0x100) + 0x200 * high);
    HighBits(flags, access + 4 * low, nonblock, append, create, truncate, middle, high);
    Combined(flags, access, reading, writing, truncate);
  }

  lemma HighBits(flags: uint32, low: nat, nonblock: bool, append: bool, create: bool, truncate: bool, middle: nat, high: nat)
    requires low < 0x10 && middle < 8
    requires flags == low + When(nonblock, 0x10) + 0x20 * middle
                      + When(append, 0x100) + When(create, 0x200) + When(truncate, 0x400) + 0x800 * high
    ensures Bit(flags, 0x10) == nonblock && Bit(flags, 0x100) == append
    ensures Bit(flags, 0x200) == create && Bit(flags, 0x400) == truncate
  {
    var above := When(append, 1) + When(create, 2) + When(truncate, 4) + 8 * high;
    assert Bit(flags, 0x10) == nonblock by {
      BitBetween(flags, low, nonblock, 0x10, middle + 8 * above);
    }
    var under := low + When(nonblock, 0x10) + 0x20 * middle;
    assert Bit(flags, 0x100) == append by {
      BitBetween(flags, under, append, 0x100, When(create, 1) + When(truncate, 2) + 4 * high);
    }
    assert Bit(flags, 0x200) == create by {
      BitBetween(flags, under + When(append, 0x100), create, 0x200, When(truncate, 1) + 2 * high);
    }
    BitBetween(flags, under + When(append, 0x100) + When(create, 0x200), truncate, 0x400, high);
  }

  lemma LowBits(flags: uint32, access: nat, above: nat)
    requires access < 4 && flags == access + 4 * above
    ensures flags % 4 == access
  {
  }

  lemma Combined(flags: uint32, access: nat, reading: bool, writing: bool, truncate: bool)
    requires flags % 4 == access == When(reading, 1) + When(writing, 2) && Bit(flags, 0x400) == truncate
    ensures FixFlags(flags).access == if !writing then ReadOnly else if reading then ReadWrite else WriteOnly
    ensures FixFlags(flags).truncate == (truncate || (writing && !reading))
  {
  }

  // ---------- fix_pathname ----------

  function Forward(c: byte): byte {
    if c == BACKSLASH then SLASH else c
  }

  function Slashed(path: seq<byte>): (r: seq<byte>)
    ensures |r| == |path| && forall i :: 0 <= i < |r| ==> r[i] == Forward(path[i])
  {
    seq(|path|, i requires 0 <= i < |path| => Forward(path[i]))
  }

  function FixedPath(path: seq<byte>): seq<byte> {
    var slashed := Slashed(if path == [] then [DOT] else path);
    if slashed[0] == SLASH && |slashed| > 1 then slashed[1..] else slashed
  }

  /**
   Byte by byte: one leading slash of either kind is dropped unless it is all there is, and every
   backslash becomes a slash; an empty path becomes a dot.
   */
  lemma FixedPathBytes(path: seq<byte>)
    ensures path == [] ==> FixedPath(path) == [46]
    ensures path != [] ==>
              var skip := if |path| > 1 && (path[0] == 47 || path[0] == 92) then 1 else 0;
              && |FixedPath(path)| == |path| - skip
              && forall i :: 0 <= i < |path| - skip ==>
                   FixedPath(path)[i] == if path[i + skip] == 92 then 47 else path[i + skip]
  {
    if path == [] {
      assert Slashed([DOT]) == [46];
    }
  }

  /** A fixed path is not empty, has no backslash and no null. */
  lemma FixedPathShape(path: seq<byte>)
    requires 0 !in path
    ensures var p := FixedPath(path); p != [] && BACKSLASH !in p && 0 !in p && |p| <= Max(1, |path|)
  {
  }

  /** A path with nothing to fix, and the same with a slash in front. */
  lemma PlainPath(path: seq<byte>)
    requires path != [] && BACKSLASH !in path && path[0] != SLASH
    ensures FixedPath(path) == path && FixedPath([SLASH] + path) == path
  {
    assert Slashed(path) == path;
    assert Slashed([SLASH] + path) == [SLASH] + path;
    assert ([SLASH] + path)[1..] == path;
  }

  /** Fixing a path again changes it exactly when two slashes (of either kind) and something more lead it. */
  lemma FixedPathTwice(path: seq<byte>)
    ensures FixedPath(FixedPath(path)) != FixedPath(path) <==>
            |path| > 2 && Forward(path[0]) == SLASH && Forward(path[1]) == SLASH
  {
    var p := FixedPath(path);
    assert Slashed(p) == p;
    if path != [] && Forward(path[0]) == SLASH && |path| > 1 {
      assert p[0] == Forward(path[1]);
      assert |p[1..]| != |p|;
    }
  }

  function Strlen(a: array<byte>, start: nat): nat
    requires start <= a.Length
    reads a
  {
    |CString(a[start..])|
  }

  /** `text` and its null stand at `start`. */
  ghost predicate Holds(a: array<byte>, start: nat, text: seq<byte>)
    reads a
  {
    start + |text| < a.Length && a[start..start + |text|] == text && a[start + |text|] == 0 && 0 !in text
  }

  lemma HoldsCString(a: array<byte>, start: nat, text: seq<byte>)
    requires Holds(a, start, text)
    ensures CString(a[start..]) == text && Strlen(a, start) == |text|
  {
    assert a[start..] == text + [0] + a[start + |text| + 1..];
    CStringStops(text, a[start + |text| + 1..]);
  }

  /** pathname[i] = c */
  method SetChar(a: array<byte>, start: nat, i: nat, c: byte, ghost text: seq<byte>)
    requires Holds(a, start, text) && i < |text| && c != 0
    modifies a
    ensures Holds(a, start, text[i := c]) && Strlen(a, start) == |text|
    ensures a[..start] == old(a[..start])
  {
    a[start + i] := c;
    assert a[start..start + |text|] == text[i := c];
    HoldsCString(a, start, text[i := c]);
  }

  /** One turn of the conversion. */
  method ConvertOne(a: array<byte>, start: nat, i: nat, ghost text: seq<byte>)
    requires Holds(a, start, text) && i < |text| && Strlen(a, start) == |text|
    modifies a
    ensures Holds(a, start, text[i := Forward(text[i])]) && Strlen(a, start) == |text|
    ensures a[..start] == old(a[..start])
  {
    assert a[start + i] == a[start..start + |text|][i] == text[i];
    if a[start + i] == BACKSLASH {
      SetChar(a, start, i, SLASH, text);
    } else {
      assert text[i := Forward(text[i])] == text;
    }
  }

  method ConvertBackslashes(a: array<byte>, start: nat, ghost text: seq<byte>)
    requires Holds(a, start, text)
    modifies a
    ensures Holds(a, start, Slashed(text))
    ensures a[..start] == old(a[..start])
  {
    HoldsCString(a, start, text);
    ghost var now: seq<byte> := text;
    var loop0 := 0;
    while loop0 < Strlen(a, start)
      invariant loop0 <= |text| == |now| == Strlen(a, start)
      invariant Holds(a, start, now)
      invariant forall i :: 0 <= i < |text| ==> now[i] == if i < loop0 then Forward(text[i]) else text[i]
      invariant a[..start] == old(a[..start])
      decreases |text| - loop0
    {
      ConvertOne(a, start, loop0, now);
      now := now[loop0 := Forward(now[loop0])];
      loop0 := loop0 + 1;
    }
    assert now == Slashed(text);
  }

  method DropFirst(a: array<byte>, start: nat, ghost text: seq<byte>)
    requires Holds(a, start, text) && |text| > 1
    modifies a
    ensures Holds(a, start, text[1..])
    ensures a[..start] == old(a[..start])
  {
    HoldsCString(a, start, text);
    ghost var now: seq<byte> := text;
    var loop0 := 0;
    while loop0 < Strlen(a, start) - 1
      invariant loop0 < |text| == |now| == Strlen(a, start)
      invariant Holds(a, start, now)
      invariant forall i :: 0 <= i < loop0 ==> now[i] == text[1..][i]
      invariant forall i :: loop0 <= i < |text| ==> now[i] == text[i]
      invariant a[..start] == old(a[..start])
      decreases |text| - loop0
    {
      assert a[start + loop0 + 1] == a[start..start + |now|][loop0 + 1] == now[loop0 + 1];
      SetChar(a, start, loop0, a[start + loop0 + 1], now);
      now := now[loop0 := now[loop0 + 1]];
      loop0 := loop0 + 1;
    }
    assert now[..loop0] == text[1..];
    Terminate(a, start, loop0, now);
  }

  /** pathname[i] = 0 */
  method Terminate(a: array<byte>, start: nat, i: nat, ghost text: seq<byte>)
    requires Holds(a, start, text) && i < |text|
    modifies a
    ensures Holds(a, start, text[..i])
    ensures a[..start] == old(a[..start])
  {
    assert text[..i] == a[start..start + |text|][..i] == a[start..start + i];
    a[start + i] := 0;
    assert a[start..start + i] == text[..i];
  }

  /** An empty path becomes ".". */
  method SetDefault(a: array<byte>, start: nat)
    requires start + 2 <= a.Length && start + Strlen(a, start) < a.Length
    modifies a
    ensures Holds(a, start, if old(CString(a[start..])) == [] then [DOT] else old(CString(a[start..])))
    ensures a[..start] == old(a[..start])
  {
    ghost var path := CString(a[start..]);
    assert a[start..][|path|] == a[start + |path|] == 0;
    if a[start] == 0 {
      assert path == [];
      a[start], a[start + 1] := DOT, 0;
      assert a[start..start + 1] == [DOT];
    } else {
      assert a[start..start + |path|] == a[start..][..|path|] == path;
    }
  }

  /** Rewrites the null-terminated path that starts at `start`, in place. */
  method FixPathname(a: array<byte>, start: nat)
    requires start + 2 <= a.Length && start + Strlen(a, start) < a.Length
    modifies a
    ensures CString(a[start..]) == FixedPath(old(CString(a[start..])))
    ensures a[..start] == old(a[..start])
  {
    ghost var path := CString(a[start..]);
    ghost var text := if path == [] then [DOT] else path;
    SetDefault(a, start);
    ConvertBackslashes(a, start, text);
    ghost var slashed := Slashed(text);
    assert a[start..start + |slashed|][0] == a[start];
    assert |slashed| > 1 ==> a[start..start + |slashed|][1] == a[start + 1];
    if a[start] == SLASH && a[start + 1] != 0 {
      DropFirst(a, start, slashed);
    }
    HoldsCString(a, start, FixedPath(path));
  }
}
