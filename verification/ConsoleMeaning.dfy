/**
 What the scanner means: its state after any stretch of console output, in terms
 of the lines of that output and not of the bytes as they came in.
 */
module ConsoleMeaning {
  import opened Bytes
  import opened Scanner

  /** The kept bytes (no returns, no nulls) after the last newline. */
  function OpenLine(s: seq<byte>): seq<byte> {
    if s == [] then [] else
      var (before, c) := (s[..|s| - 1], s[|s| - 1]);
      if c == NEWLINE then []
      else if c == RETURN || c == 0 then OpenLine(before)
      else OpenLine(before) + [c]
  }

  /** The kept bytes of each line that has ended. */
  function Lines(s: seq<byte>): seq<seq<byte>> {
    if s == [] then [] else
      var (before, c) := (s[..|s| - 1], s[|s| - 1]);
      if c == NEWLINE then Lines(before) + [OpenLine(before)] else Lines(before)
  }

  /** The output without the bytes that are dropped. */
  function Cleaned(s: seq<byte>): seq<byte> {
    if s == [] then [] else
      var (before, c) := (s[..|s| - 1], s[|s| - 1]);
      if c == 13 || c == 0 then Cleaned(before) else Cleaned(before) + [c]
  }

  function Ended(lines: seq<seq<byte>>): seq<byte> {
    if lines == [] then [] else Ended(lines[..|lines| - 1]) + (lines[|lines| - 1] + [10])
  }

  ghost predicate Clean(line: seq<byte>) {
    10 !in line && 13 !in line && 0 !in line
  }

  /** The lines, each with a newline, and the open line are the output without returns and nulls. */
  lemma {:induction false} LinesAreTheOutput(s: seq<byte>)
    ensures Ended(Lines(s)) + OpenLine(s) == Cleaned(s)
    ensures Clean(OpenLine(s)) && forall i :: 0 <= i < |Lines(s)| ==> Clean(Lines(s)[i])
  {
    if s != [] {
      var (before, c) := (s[..|s| - 1], s[|s| - 1]);
      LinesAreTheOutput(before);
      if c == 10 {
        var lines := Lines(before) + [OpenLine(before)];
        assert lines[..|lines| - 1] == Lines(before);
        AppendAssociative(Ended(Lines(before)), OpenLine(before), [10]);
      } else if c != 13 && c != 0 {
        AppendAssociative(Ended(Lines(before)), OpenLine(before), [c]);
      }
    }
  }

  /** How many of the `n` bytes of a line the buffer holds. */
  function Held(n: nat): (h: nat)
    ensures h < LINE_SIZE && h <= n && (h == 0 <==> n == 0)
  {
    if n < LINE_SIZE then n else 257 + (n - LINE_SIZE) % 3839
  }

  function Window(line: seq<byte>): seq<byte> {
    line[|line| - Held(|line|)..]
  }

  lemma HeldMore(n: nat)
    ensures Held(n + 1) == if Held(n) == LINE_SIZE - 1 then KEEP + 1 else Held(n) + 1
  {
  }

  /** The last `keep` bytes of a line, and one more. */
  lemma EndMore(line: seq<byte>, c: byte, keep: nat)
    requires keep <= |line|
    ensures (line + [c])[|line| - keep..] == line[|line| - keep..] + [c]
  {
  }

  lemma EndOfEnd(line: seq<byte>, held: nat, keep: nat)
    requires keep <= held <= |line|
    ensures line[|line| - held..][held - keep..] == line[|line| - keep..]
  {
  }

  lemma PutWindow(line: seq<byte>, c: byte)
    ensures Put(Window(line), c) == Window(line + [c])
  {
    var held: int := Held(|line|);
    var keep := if held == LINE_SIZE - 1 then KEEP else held;
    assert Held(|line| + 1) == keep + 1 by {
      HeldMore(|line|);
    }
    assert Put(Window(line), c) == line[|line| - keep..] + [c] by {
      EndOfEnd(line, held, keep);
    }
    EndMore(line, c, keep);
  }

  // ---------- The first line that holds the marker ----------

  ghost predicate Hit(line: seq<byte>, marker: seq<byte>) {
    Contains(Window(line), marker)
  }

  ghost predicate FirstHit(lines: seq<seq<byte>>, marker: seq<byte>, k: int) {
    0 <= k < |lines| && Hit(lines[k], marker) && forall j :: 0 <= j < k ==> !Hit(lines[j], marker)
  }

  ghost predicate SomeHit(lines: seq<seq<byte>>, marker: seq<byte>) {
    exists k :: FirstHit(lines, marker, k)
  }

  /** The status from the first line that holds the marker. */
  function Verdict(lines: seq<seq<byte>>, marker: seq<byte>): Option<int32> {
    if lines == [] then None else
      var earlier := Verdict(lines[..|lines| - 1], marker);
      if earlier.Some? then earlier else LineStatus(Window(lines[|lines| - 1]), marker)
  }

  /** Among lines without a first hit there is no hit. */
  lemma {:induction false} NoHit(lines: seq<seq<byte>>, marker: seq<byte>)
    requires !SomeHit(lines, marker)
    ensures forall k :: 0 <= k < |lines| ==> !Hit(lines[k], marker)
  {
    var n := 0;
    while n < |lines|
      invariant n <= |lines|
      invariant forall k :: 0 <= k < n ==> !Hit(lines[k], marker)
    {
      assert !FirstHit(lines, marker, n);
      n := n + 1;
    }
  }

  lemma FirstHitAppend(before: seq<seq<byte>>, line: seq<byte>, marker: seq<byte>, k: int)
    ensures FirstHit(before + [line], marker, k) <==>
            FirstHit(before, marker, k) || (k == |before| && Hit(line, marker) && !SomeHit(before, marker))
  {
    var lines := before + [line];
    assert forall j :: 0 <= j < |before| ==> lines[j] == before[j];
    if !SomeHit(before, marker) {
      NoHit(before, marker);
    }
  }

  lemma {:induction false} VerdictMeaning(lines: seq<seq<byte>>, marker: seq<byte>)
    ensures Verdict(lines, marker).Some? <==> SomeHit(lines, marker)
    ensures forall k :: FirstHit(lines, marker, k) ==> Verdict(lines, marker) == LineStatus(Window(lines[k]), marker)
  {
    if lines != [] {
      var last := |lines| - 1;
      var (before, line) := (lines[..last], lines[last]);
      VerdictMeaning(before, marker);
      assert lines == before + [line];
      forall k
        ensures FirstHit(lines, marker, k) <==>
                FirstHit(before, marker, k) || (k == last && Hit(line, marker) && !SomeHit(before, marker))
      {
        FirstHitAppend(before, line, marker, k);
      }
      if Hit(line, marker) && !SomeHit(before, marker) {
        assert FirstHit(lines, marker, last);
      }
    }
  }

  ghost predicate Latch(st: ScanState, lines: seq<seq<byte>>, marker: seq<byte>) {
    Verdict(lines, marker) == if st.seen then Some(st.status) else None
  }

  lemma LatchAtNewline(st: ScanState, lines: seq<seq<byte>>, line: seq<byte>, marker: seq<byte>)
    requires Latch(st, lines, marker) && st.line == Window(line)
    ensures Latch(LineChecked(st, marker), lines + [line], marker)
  {
    assert (lines + [line])[..|lines|] == lines;
  }

  lemma {:induction false} ScanLatch(marker: seq<byte>, s: seq<byte>)
    ensures Scan(Fresh, marker, s).line == Window(OpenLine(s))
    ensures Latch(Scan(Fresh, marker, s), Lines(s), marker)
  {
    if s != [] {
      var (before, c) := (s[..|s| - 1], s[|s| - 1]);
      ScanLatch(marker, before);
      if c == NEWLINE {
        LatchAtNewline(Scan(Fresh, marker, before), Lines(before), OpenLine(before), marker);
      } else if c != RETURN && c != 0 {
        PutWindow(OpenLine(before), c);
      }
    }
  }

  /**
   After any console output: the buffer is the closed-form window on the open
   line, and the latch is set exactly when some ended line holds the marker,
   with the status of the first such line.
   */
  lemma ScanMeaning(marker: seq<byte>, s: seq<byte>)
    ensures Scan(Fresh, marker, s).line == Window(OpenLine(s))
    ensures Scan(Fresh, marker, s).seen <==> SomeHit(Lines(s), marker)
    ensures forall k :: FirstHit(Lines(s), marker, k) ==>
              LineStatus(Window(Lines(s)[k]), marker) == Some(Scan(Fresh, marker, s).status)
  {
    ScanLatch(marker, s);
    VerdictMeaning(Lines(s), marker);
    assert Scan(Fresh, marker, s).seen <==> Verdict(Lines(s), marker).Some?;
  }

  // ---------- How the packets are cut does not matter ----------

  lemma {:induction false} ScanAppend(st: ScanState, marker: seq<byte>, a: seq<byte>, b: seq<byte>)
    ensures Scan(st, marker, a + b) == Scan(Scan(st, marker, a), marker, b)
  {
    if b == [] {
      assert a + b == a;
    } else {
      assert (a + b)[..|a + b| - 1] == a + b[..|b| - 1];
      ScanAppend(st, marker, a, b[..|b| - 1]);
    }
  }

  function ScanPackets(st: ScanState, marker: Option<seq<byte>>, packets: seq<seq<byte>>): ScanState
    decreases |packets|
  {
    if packets == [] then st else ScanPackets(Scanned(st, marker, packets[0]), marker, packets[1..])
  }

  lemma {:induction false} CuttingUnobservable(st: ScanState, marker: Option<seq<byte>>, packets: seq<seq<byte>>)
    ensures ScanPackets(st, marker, packets) == Scanned(st, marker, Join(packets))
    decreases |packets|
  {
    if packets != [] {
      CuttingUnobservable(Scanned(st, marker, packets[0]), marker, packets[1..]);
      if marker.Some? {
        ScanAppend(st, marker.value, packets[0], Join(packets[1..]));
      }
    }
  }

  lemma {:induction false} LatchIsFinal(st: ScanState, marker: Option<seq<byte>>, s: seq<byte>)
    requires st.seen
    ensures var after := Scanned(st, marker, s);
            after.seen && after.status == st.status && PartialChecked(after, marker) == after
  {
    if marker.Some? && s != [] {
      LatchIsFinal(st, marker, s[..|s| - 1]);
    }
  }

  // ---------- Lines of any length ----------

  lemma OccursInEnd(text: seq<byte>, word: seq<byte>, skip: nat, i: nat)
    requires skip <= |text|
    ensures OccursAt(text[skip..], word, i) <==> OccursAt(text, word, skip + i)
  {
    if skip + i + |word| <= |text| {
      assert text[skip..][i..i + |word|] == text[skip + i..skip + i + |word|];
    }
  }

  /** A line is a hit exactly when the marker starts inside the window. */
  lemma HitIffInWindow(line: seq<byte>, marker: seq<byte>)
    ensures Hit(line, marker) <==> exists i :: |line| - Held(|line|) <= i && OccursAt(line, marker, i)
  {
    var skip := |line| - Held(|line|);
    if Hit(line, marker) {
      var i :| OccursAt(Window(line), marker, i);
      OccursInEnd(line, marker, skip, i);
    }
    forall i | skip <= i && OccursAt(line, marker, i)
      ensures Hit(line, marker)
    {
      OccursInEnd(line, marker, skip, i - skip);
    }
  }

  /** Up to 4095 kept bytes nothing is lost. */
  lemma ShortLineHit(line: seq<byte>, marker: seq<byte>)
    requires |line| < LINE_SIZE
    ensures Window(line) == line
    ensures Hit(line, marker) <==> Contains(line, marker)
  {
    assert Window(line) == line;
  }

  /** No false positives at any length; no misses in the last 257 kept bytes. */
  lemma LongLineHit(line: seq<byte>, marker: seq<byte>)
    ensures Hit(line, marker) ==> Contains(line, marker)
    ensures forall i :: |line| - 257 <= i && OccursAt(line, marker, i) ==> Hit(line, marker)
  {
    HitIffInWindow(line, marker);
    assert |line| >= LINE_SIZE ==> Held(|line|) >= 257;
  }

  /** An empty marker would be on every line; the client refuses it. */
  lemma EmptyMarkerHitsAll(line: seq<byte>)
    ensures Hit(line, [])
  {
    assert OccursAt(Window(line), [], 0);
  }

  lemma {:induction false} KeptLine(line: seq<byte>)
    requires forall i :: 0 <= i < |line| ==> line[i] != NEWLINE && line[i] != RETURN && line[i] != 0
    ensures OpenLine(line) == line && Lines(line) == []
  {
    if line != [] {
      KeptLine(line[..|line| - 1]);
    }
  }

  lemma OnlyHit(line: seq<byte>, marker: seq<byte>)
    ensures SomeHit([line], marker) <==> Hit(line, marker)
  {
    assert FirstHit([line], marker, 0) <==> Hit(line, marker);
  }

  /** One line on its own latches exactly when a copy of the marker starts inside the window. */
  lemma OneLine(line: seq<byte>, marker: seq<byte>)
    requires forall i :: 0 <= i < |line| ==> line[i] != NEWLINE && line[i] != RETURN && line[i] != 0
    ensures Scan(Fresh, marker, line + [NEWLINE]).seen <==>
            exists i :: |line| - Held(|line|) <= i && OccursAt(line, marker, i)
  {
    var s := line + [NEWLINE];
    assert Lines(s) == [line] by {
      KeptLine(line);
      assert s[..|s| - 1] == line;
    }
    assert Scan(Fresh, marker, s).seen <==> SomeHit(Lines(s), marker) by {
      ScanMeaning(marker, s);
    }
    OnlyHit(line, marker);
    HitIffInWindow(line, marker);
  }

  /** So a marker in front of 4095 more bytes is missed. */
  lemma FrontMarkerMissed(c: byte, d: byte)
    requires c != d && c !in [NEWLINE, RETURN, 0] && d !in [NEWLINE, RETURN, 0]
    ensures var line := [c] + seq(LINE_SIZE - 1, _ => d);
            Contains(line, [c]) && !Scan(Fresh, [c], line + [NEWLINE]).seen
  {
    var line := [c] + seq(LINE_SIZE - 1, _ => d);
    assert OccursAt(line, [c], 0);
    forall i | |line| - Held(|line|) <= i
      ensures !OccursAt(line, [c], i)
    {
      if i < |line| {
        assert line[i..i + 1][0] == d;
      }
    }
    OneLine(line, [c]);
  }

  // ---------- The exit status a program prints ----------

  /** A line: some text, a part that ends in its first "status=", a number, more text. */
  function StatusLine(before: seq<byte>, head: seq<byte>, number: seq<byte>, after: seq<byte>): seq<byte> {
    before + (head + (number + after))
  }

  /** What comes first in the front of a text comes first in the text. */
  lemma FirstInFront(head: seq<byte>, rest: seq<byte>, word: seq<byte>, p: nat)
    requires FirstAt(head, word, p)
    ensures FirstAt(head + rest, word, p)
  {
    var text := head + rest;
    forall j | 0 <= j <= p
      ensures OccursAt(text, word, j) == OccursAt(head, word, j)
    {
      assert text[j..j + |word|] == head[j..j + |word|];
    }
  }

  lemma FirstField(head: seq<byte>, number: seq<byte>)
    requires FirstAt(head, STATUS_FIELD, |head| - 7)
    ensures StatusOf(head + number) == Signed(Strtol(number))
  {
    FirstInFront(head, number, STATUS_FIELD, |head| - 7);
    FindIsFirst(head + number, STATUS_FIELD, |head| - 7);
    assert (head + number)[|head|..] == number;
  }

  lemma StatusFromFirst(line: seq<byte>, marker: seq<byte>, i: nat)
    requires FirstAt(line, marker, i)
    ensures LineStatus(line, marker) == Some(StatusOf(line[i..]))
  {
    FindIsFirst(line, marker, i);
  }

  /** A marker line without the field from the marker on has status 0. */
  lemma NoField(line: seq<byte>, marker: seq<byte>, i: nat)
    requires FirstAt(line, marker, i)
    requires forall j :: i <= j ==> !OccursAt(line, STATUS_FIELD, j)
    ensures LineStatus(line, marker) == Some(0)
  {
    StatusFromFirst(line, marker, i);
    forall j | 0 <= j
      ensures !OccursAt(line[i..], STATUS_FIELD, j)
    {
      OccursInEnd(line, STATUS_FIELD, i, j);
    }
    assert !Contains(line[i..], STATUS_FIELD);
  }

  /** The status of a line with a number after the first field from the marker on. */
  lemma FieldStatus(marker: seq<byte>, before: seq<byte>, head: seq<byte>, number: seq<byte>, after: seq<byte>)
    requires FirstAt(StatusLine(before, head, number, after), marker, |before|)
    requires FirstAt(head, STATUS_FIELD, |head| - 7)
    ensures LineStatus(StatusLine(before, head, number, after), marker) == Some(Signed(Strtol(number + after)))
  {
    var line := StatusLine(before, head, number, after);
    assert LineStatus(line, marker) == Some(StatusOf(line[|before|..])) by {
      StatusFromFirst(line, marker, |before|);
    }
    assert line[|before|..] == head + (number + after);
    FirstField(head, number + after);
  }

  /** Printed with white space, a sign and as many digits as a long has room for: its value as an int. */
  lemma PrintedStatus(marker: seq<byte>, before: seq<byte>, head: seq<byte>,
                      spaces: seq<byte>, sign: Sign, n: nat, after: seq<byte>)
    requires n < 0x8000_0000_0000_0000 && Blank(spaces) && NumberEnds(after)
    requires FirstAt(StatusLine(before, head, Printed(spaces, sign, n), after), marker, |before|)
    requires FirstAt(head, STATUS_FIELD, |head| - 7)
    ensures LineStatus(StatusLine(before, head, Printed(spaces, sign, n), after), marker) == Some(Signed(SignedNumber(sign, n)))
  {
    FieldStatus(marker, before, head, Printed(spaces, sign, n), after);
    StrtolOfPrinted(spaces, sign, n, after);
  }

  /** When no line overflows, the first line that contains the marker decides. */
  lemma FirstMarkerLineDecides(s: seq<byte>, marker: seq<byte>, k: nat)
    requires k < |Lines(s)| && forall j :: 0 <= j <= k ==> |Lines(s)[j]| < LINE_SIZE
    requires Contains(Lines(s)[k], marker) && forall j :: 0 <= j < k ==> !Contains(Lines(s)[j], marker)
    ensures Scan(Fresh, marker, s).seen
    ensures LineStatus(Lines(s)[k], marker) == Some(Scan(Fresh, marker, s).status)
  {
    FirstShortHit(Lines(s), marker, k);
    ScanMeaning(marker, s);
  }

  /** The first marker line of the output, with no line too long up to it. */
  ghost predicate FirstMarkerLine(s: seq<byte>, marker: seq<byte>, k: int, i: nat) {
    && 0 <= k < |Lines(s)| && FirstAt(Lines(s)[k], marker, i)
    && (forall j :: 0 <= j <= k ==> |Lines(s)[j]| < LINE_SIZE)
    && forall j :: 0 <= j < k ==> !Contains(Lines(s)[j], marker)
  }

  lemma MarkerLineLatched(s: seq<byte>, marker: seq<byte>, k: nat, i: nat)
    requires FirstMarkerLine(s, marker, k, i)
    ensures Scan(Fresh, marker, s).seen && LineStatus(Lines(s)[k], marker) == Some(Scan(Fresh, marker, s).status)
  {
    assert OccursAt(Lines(s)[k], marker, i);
    FirstMarkerLineDecides(s, marker, k);
  }

  /** Output whose first marker line has a number after "status=" ends the run with that number's low byte. */
  lemma PrintedExit(s: seq<byte>, k: nat, marker: seq<byte>, before: seq<byte>, head: seq<byte>,
                    spaces: seq<byte>, sign: Sign, n: nat, after: seq<byte>)
    requires FirstMarkerLine(s, marker, k, |before|)
    requires Lines(s)[k] == StatusLine(before, head, Printed(spaces, sign, n), after)
    requires n < 0x8000_0000_0000_0000 && Blank(spaces) && NumberEnds(after)
    requires FirstAt(head, STATUS_FIELD, |head| - 7)
    ensures var st := Scan(Fresh, marker, s); st.seen && st.status % 256 == SignedNumber(sign, n) % 256
  {
    MarkerLineLatched(s, marker, k, |before|);
    PrintedStatus(marker, before, head, spaces, sign, n, after);
    SignedKeepsLowBits(SignedNumber(sign, n));
  }

  /** Output whose first marker line has no "status=" from the marker on latches status 0. */
  lemma PlainExit(s: seq<byte>, k: nat, marker: seq<byte>, i: nat)
    requires FirstMarkerLine(s, marker, k, i)
    requires forall j :: i <= j ==> !OccursAt(Lines(s)[k], STATUS_FIELD, j)
    ensures var st := Scan(Fresh, marker, s); st.seen && st.status == 0
  {
    MarkerLineLatched(s, marker, k, i);
    NoField(Lines(s)[k], marker, i);
  }

  /** In lines without overflow the first hit is the first line that contains the marker. */
  lemma FirstShortHit(lines: seq<seq<byte>>, marker: seq<byte>, k: nat)
    requires k < |lines| && forall j :: 0 <= j <= k ==> |lines[j]| < LINE_SIZE
    ensures FirstHit(lines, marker, k) <==> Contains(lines[k], marker) && forall j :: 0 <= j < k ==> !Contains(lines[j], marker)
    ensures Window(lines[k]) == lines[k]
  {
    forall j | 0 <= j <= k
      ensures Hit(lines[j], marker) <==> Contains(lines[j], marker)
    {
      ShortLineHit(lines[j], marker);
    }
    ShortLineHit(lines[k], marker);
  }
}
