/** Bytes, 32-bit integers in both readings, big-endian fields, and C strings. */
module Bytes {
  type byte = b: int | 0 <= b < 256
  type uint32 = x: int | 0 <= x < 0x1_0000_0000
  type int32 = x: int | -0x8000_0000 <= x < 0x8000_0000

  datatype Option<+T> = None | Some(value: T)

  function Min(a: int, b: int): int {
    if a <= b then a else b
  }

  function Max(a: int, b: int): int {
    if a <= b then b else a
  }

  /** A C conversion to `unsigned int`. */
  function Unsigned(x: int): uint32 {
    x % 0x1_0000_0000
  }

  /** A C conversion to `int`, which keeps the low 32 bits. */
  function Signed(x: int): int32 {
    (x + 0x8000_0000) % 0x1_0000_0000 - 0x8000_0000
  }

  lemma SignedOfUnsigned(x: int32)
    ensures Signed(Unsigned(x)) == x
  {
  }

  /** htonl, and the four bytes it leaves in memory. */
  function Put32(u: uint32): (s: seq<byte>)
    ensures |s| == 4
  {
    Put16(u / 0x1_0000) + Put16(u % 0x1_0000)
  }

  /** ntohl of the four bytes at the front. */
  function Get32(s: seq<byte>): uint32
    requires 4 <= |s|
  {
    Get16(s) * 0x1_0000 + Get16(s[2..])
  }

  function Put16(u: nat): (s: seq<byte>)
    requires u < 0x1_0000
    ensures |s| == 2
  {
    [u / 256, u % 256]
  }

  function Get16(s: seq<byte>): (u: nat)
    requires 2 <= |s|
    ensures u < 0x1_0000
  {
    (s[0] as int) * 256 + s[1]
  }

  /** Network byte order: the first byte is the most significant one. */
  lemma BigEndian(u: uint32, s: seq<byte>)
    requires s == Put32(u)
    ensures u == (s[0] as int) * 0x100_0000 + (s[1] as int) * 0x1_0000 + (s[2] as int) * 0x100 + s[3]
  {
  }

  lemma Get32Put32(u: uint32, rest: seq<byte>)
    ensures Get32(Put32(u) + rest) == u
  {
    var high, low := u / 0x1_0000, u % 0x1_0000;
    assert Put32(u) + rest == Put16(high) + (Put16(low) + rest);
    assert (Put32(u) + rest)[2..] == Put16(low) + rest;
    Get16Put16(high, Put16(low) + rest);
    Get16Put16(low, rest);
  }

  lemma Put16Get16(s: seq<byte>)
    requires |s| == 2
    ensures Put16(Get16(s)) == s
  {
  }

  lemma Put32Get32(s: seq<byte>)
    requires |s| == 4
    ensures Put32(Get32(s)) == s
  {
    var (high, low) := (Get16(s), Get16(s[2..]));
    HalvesOf(high, low);
    assert Put16(high) == s[..2] by {
      Put16Get16(s[..2]);
    }
    assert Put16(low) == s[2..] by {
      Put16Get16(s[2..]);
    }
    assert s == s[..2] + s[2..];
  }

  lemma HalvesOf(high: nat, low: nat)
    requires high < 0x1_0000 && low < 0x1_0000
    ensures (high * 0x1_0000 + low) / 0x1_0000 == high && (high * 0x1_0000 + low) % 0x1_0000 == low
  {
  }

  lemma Get16Put16(u: nat, rest: seq<byte>)
    requires u < 0x1_0000
    ensures Get16(Put16(u) + rest) == u
  {
  }

  lemma AppendAssociative(a: seq<byte>, b: seq<byte>, c: seq<byte>)
    ensures (a + b) + c == a + (b + c)
  {
  }

  /** The pieces one after the other. */
  function Join(pieces: seq<seq<byte>>): seq<byte> {
    if pieces == [] then [] else pieces[0] + Join(pieces[1..])
  }

  lemma {:induction false} JoinMore(pieces: seq<seq<byte>>, piece: seq<byte>)
    ensures Join(pieces + [piece]) == Join(pieces) + piece
    decreases |pieces|
  {
    if pieces == [] {
      assert Join([piece]) == piece;
    } else {
      assert (pieces + [piece])[1..] == pieces[1..] + [piece];
      JoinMore(pieces[1..], piece);
    }
  }

  lemma SliceOfSlice(s: seq<byte>, a: nat, b: nat, c: nat, d: nat)
    requires a <= b <= |s| && c <= d <= b - a
    ensures s[a..b][c..d] == s[a + c..a + d]
  {
    var (x, y) := (s[a..b][c..d], s[a + c..a + d]);
    assert |x| == |y|;
    forall i | 0 <= i < |x|
      ensures x[i] == y[i]
    {
      assert x[i] == s[a..b][c + i] == s[a + c + i] == y[i];
    }
  }

  // ---------- C strings ----------

  /** The C string at the front of `s`: the bytes before the first null. */
  function CString(s: seq<byte>): (r: seq<byte>)
    ensures r <= s && 0 !in r
    ensures |r| < |s| ==> s[|r|] == 0
  {
    if s == [] || s[0] == 0 then [] else [s[0]] + CString(s[1..])
  }

  lemma {:induction false} CStringStops(text: seq<byte>, rest: seq<byte>)
    requires 0 !in text
    ensures CString(text + [0] + rest) == text
  {
    var all := text + [0] + rest;
    if text == [] {
    } else {
      assert all[1..] == text[1..] + [0] + rest;
      CStringStops(text[1..], rest);
    }
  }

  ghost predicate OccursAt(text: seq<byte>, word: seq<byte>, i: int) {
    0 <= i && i + |word| <= |text| && text[i..i + |word|] == word
  }

  ghost predicate Contains(text: seq<byte>, word: seq<byte>) {
    exists i :: OccursAt(text, word, i)
  }

  ghost predicate FirstAt(text: seq<byte>, word: seq<byte>, i: int) {
    OccursAt(text, word, i) && forall j :: 0 <= j < i ==> !OccursAt(text, word, j)
  }

  /** strstr (section 7.21.5.7 of ISO C99), as the index of the first match. */
  function Find(text: seq<byte>, word: seq<byte>): (r: Option<nat>)
    ensures r.Some? ==> FirstAt(text, word, r.value)
    ensures r.None? ==> !Contains(text, word)
  {
    FindFrom(text, word, 0)
  }

  lemma FindIsFirst(text: seq<byte>, word: seq<byte>, i: nat)
    requires FirstAt(text, word, i)
    ensures Find(text, word) == Some(i)
  {
  }

  function FindFrom(text: seq<byte>, word: seq<byte>, from: nat): (r: Option<nat>)
    requires from <= |text|
    ensures r.Some? ==> from <= r.value && OccursAt(text, word, r.value)
    ensures r.Some? ==> forall j :: from <= j < r.value ==> !OccursAt(text, word, j)
    ensures r.None? ==> forall j :: from <= j ==> !OccursAt(text, word, j)
    decreases |text| - from
  {
    if from + |word| <= |text| && text[from..from + |word|] == word then Some(from)
    else if from == |text| then None
    else FindFrom(text, word, from + 1)
  }

  // ---------- strtol, base 10 ----------

  predicate IsSpace(c: byte) {
    c == 32 || 9 <= c <= 13
  }

  predicate IsDigit(c: byte) {
    48 <= c <= 57
  }

  function SkipSpace(s: seq<byte>): seq<byte> {
    if s != [] && IsSpace(s[0]) then SkipSpace(s[1..]) else s
  }

  /** The number read so far, continued with the digits at the front of `s`. */
  function ReadDigits(s: seq<byte>, sofar: nat): nat {
    if s != [] && IsDigit(s[0]) then ReadDigits(s[1..], sofar * 10 + (s[0] - 48)) else sofar
  }

  /** A 64-bit `long`: strtol returns the nearest value that fits. */
  function ClampLong(x: int): int {
    Max(-0x8000_0000_0000_0000, Min(x, 0x7fff_ffff_ffff_ffff))
  }

  /** strtol with base 10 (section 7.20.1.4 of ISO C99). */
  function Strtol(s: seq<byte>): int {
    var t := SkipSpace(s);
    if t != [] && t[0] == 45 then ClampLong(0 - (ReadDigits(t[1..], 0) as int))
    else if t != [] && t[0] == 43 then ClampLong(ReadDigits(t[1..], 0))
    else ClampLong(ReadDigits(t, 0))
  }

  /** What printf("%d") prints for a number that is not negative. */
  function Decimal(n: nat): (s: seq<byte>)
    ensures s != [] && IsDigit(s[0])
  {
    if n < 10 then [48 + n] else Decimal(n / 10) + [48 + n % 10]
  }

  lemma {:induction false} ReadDigitsOfDecimal(n: nat, rest: seq<byte>)
    ensures ReadDigits(Decimal(n) + rest, 0) == ReadDigits(rest, n)
    decreases n
  {
    if n < 10 {
      assert (Decimal(n) + rest)[1..] == rest;
    } else {
      var last := [48 + n % 10];
      assert Decimal(n) + rest == Decimal(n / 10) + (last + rest);
      ReadDigitsOfDecimal(n / 10, last + rest);
      assert (last + rest)[1..] == rest;
    }
  }

  /** Positional notation in base 10: one more digit makes ten times the number and the digit. */
  lemma {:induction false} OneMoreDigit(digits: seq<byte>, d: byte, sofar: nat)
    requires (forall i :: 0 <= i < |digits| ==> 48 <= digits[i] <= 57) && 48 <= d <= 57
    ensures ReadDigits(digits + [d], sofar) == 10 * ReadDigits(digits, sofar) + (d - 48)
    decreases |digits|
  {
    if digits == [] {
      assert (digits + [d])[1..] == [];
    } else {
      assert (digits + [d])[1..] == digits[1..] + [d];
      OneMoreDigit(digits[1..], d, sofar * 10 + (digits[0] - 48));
    }
  }

  datatype Sign = NoSign | Plus | Minus

  function SignText(sign: Sign): seq<byte> {
    match sign case NoSign => [] case Plus => [43] case Minus => [45]
  }

  function SignedNumber(sign: Sign, n: nat): int {
    if sign.Minus? then 0 - (n as int) else n
  }

  /** White space, a sign, digits. */
  function Printed(spaces: seq<byte>, sign: Sign, n: nat): seq<byte> {
    spaces + (SignText(sign) + Decimal(n))
  }

  /** isspace in the C locale */
  ghost predicate Blank(spaces: seq<byte>) {
    forall i :: 0 <= i < |spaces| ==> spaces[i] in {9, 10, 11, 12, 13, 32}
  }

  /** What can follow a number without being part of it. */
  predicate NumberEnds(rest: seq<byte>) {
    rest == [] || rest[0] < 48 || rest[0] > 57
  }

  lemma {:induction false} SkipBlank(spaces: seq<byte>, rest: seq<byte>)
    requires Blank(spaces) && (rest == [] || rest[0] !in {9, 10, 11, 12, 13, 32})
    ensures SkipSpace(spaces + rest) == rest
    decreases |spaces|
  {
    if spaces == [] {
      assert spaces + rest == rest;
    } else {
      assert (spaces + rest)[1..] == spaces[1..] + rest;
      SkipBlank(spaces[1..], rest);
    }
  }

  lemma DigitsRead(n: nat, rest: seq<byte>)
    requires NumberEnds(rest)
    ensures ReadDigits(Decimal(n) + rest, 0) == n
  {
    ReadDigitsOfDecimal(n, rest);
  }

  /** Reading back a printed number gives the number, with white space and a sign before it, cut to 64 bits. */
  lemma StrtolOfPrinted(spaces: seq<byte>, sign: Sign, n: nat, rest: seq<byte>)
    requires Blank(spaces) && NumberEnds(rest)
    ensures Strtol(Printed(spaces, sign, n) + rest) ==
            Max(-0x8000_0000_0000_0000, Min(SignedNumber(sign, n), 0x7fff_ffff_ffff_ffff))
  {
    var t := SignText(sign) + (Decimal(n) + rest);
    assert Printed(spaces, sign, n) + rest == spaces + t;
    assert t[0] == if sign.NoSign? then Decimal(n)[0] else SignText(sign)[0];
    SkipBlank(spaces, t);
    DigitsRead(n, rest);
    if sign.NoSign? {
      assert t == Decimal(n) + rest;
    } else {
      assert t[1..] == Decimal(n) + rest;
    }
  }

  /** Text that does not begin with white space, a sign or a digit reads as 0. */
  lemma StrtolOfText(s: seq<byte>)
    requires s == [] || (s[0] !in {9, 10, 11, 12, 13, 32, 43, 45} && !(48 <= s[0] <= 57))
    ensures Strtol(s) == 0
  {
    SkipBlank([], s);
    assert [] + s == s;
  }

  /** The conversion to int keeps a number up to a multiple of 2^32. */
  lemma SignedKeepsLowBits(x: int)
    ensures (Signed(x) - x) % 0x1_0000_0000 == 0 && Signed(x) % 256 == x % 256
  {
    var q := (x + 0x8000_0000) / 0x1_0000_0000;
    assert Signed(x) == x + 0x1_0000_0000 * -q;
    LowBits(x, -q);
  }

  lemma LowBits(x: int, k: int)
    ensures (x + 0x1_0000_0000 * k) % 256 == x % 256 && 0x1_0000_0000 * k % 0x1_0000_0000 == 0
  {
    assert 0x1_0000_0000 * k == 256 * (0x100_0000 * k);
  }
}
