/**
 The lines of an exception in the log: how their numbers and names are read, and exactly which lines
 lead to a resolver call.
 */
module ExceptionLines {
  import opened Bytes
  import opened Symbolize

  // ---------- Numbers in base 16 ----------

  function HexChar(d: nat, upper: bool): byte
    requires d < 16
  {
    if d < 10 then 48 + d else if upper then 55 + d else 87 + d
  }

  /** What printf("%x") or ("%X") prints. */
  function Hex(n: nat, upper: bool): (s: seq<byte>)
    ensures s != []
  {
    if n < 16 then [HexChar(n, upper)] else Hex(n / 16, upper) + [HexChar(n % 16, upper)]
  }

  lemma HexDigitOfChar(d: nat, upper: bool)
    requires d < 16
    ensures HexDigit(HexChar(d, upper)) == Some(d)
  {
  }

  lemma {:induction false} HexValueOfHex(n: nat, upper: bool, rest: seq<byte>)
    ensures HexValue(Hex(n, upper) + rest, 0) == HexValue(rest, n)
    decreases n
  {
    HexDigitOfChar(n % 16, upper);
    if n < 16 {
      assert (Hex(n, upper) + rest)[1..] == rest;
    } else {
      var last := [HexChar(n % 16, upper)];
      assert Hex(n, upper) + rest == Hex(n / 16, upper) + (last + rest);
      HexValueOfHex(n / 16, upper, last + rest);
      assert (last + rest)[1..] == rest;
    }
  }

  function Zeros(n: nat): seq<byte> {
    seq(n, _ => 48)
  }

  lemma {:induction false} LeadingZeros(n: nat, rest: seq<byte>)
    ensures HexValue(Zeros(n) + rest, 0) == HexValue(rest, 0)
  {
    if n == 0 {
      assert Zeros(n) + rest == rest;
    } else {
      assert (Zeros(n) + rest)[1..] == Zeros(n - 1) + rest;
      LeadingZeros(n - 1, rest);
    }
  }

  /** What can follow a number in base 16 without being part of it, or of a 0x before it. */
  predicate HexEnds(rest: seq<byte>) {
    rest == [] || !(48 <= rest[0] <= 57 || 65 <= rest[0] <= 70 || 97 <= rest[0] <= 102 || rest[0] == 88 || rest[0] == 120)
  }

  lemma HexEndsValue(rest: seq<byte>, n: nat)
    requires HexEnds(rest)
    ensures HexValue(rest, n) == n
  {
  }

  /** How the number is written: with 0x, with 0X, or without. */
  datatype Prefix = NoPrefix | LowerPrefix | UpperPrefix

  function PrefixText(prefix: Prefix): seq<byte> {
    match prefix case NoPrefix => [] case LowerPrefix => [48, 120] case UpperPrefix => [48, 88]
  }

  function HexNumber(spaces: seq<byte>, prefix: Prefix, zeros: nat, n: nat, upper: bool): seq<byte> {
    spaces + (PrefixText(prefix) + (Zeros(zeros) + Hex(n, upper)))
  }

  lemma {:induction false} HexText(n: nat, upper: bool)
    ensures forall i :: 0 <= i < |Hex(n, upper)| ==> HexDigit(Hex(n, upper)[i]).Some? && Hex(n, upper)[i] != 88 && Hex(n, upper)[i] != 120
    decreases n
  {
    if n >= 16 {
      HexText(n / 16, upper);
    }
  }

  lemma DigitsValue(zeros: nat, n: nat, upper: bool, rest: seq<byte>)
    requires HexEnds(rest)
    ensures HexValue(Zeros(zeros) + Hex(n, upper) + rest, 0) == n
  {
    assert Zeros(zeros) + Hex(n, upper) + rest == Zeros(zeros) + (Hex(n, upper) + rest);
    LeadingZeros(zeros, Hex(n, upper) + rest);
    HexValueOfHex(n, upper, rest);
    HexEndsValue(rest, n);
  }

  /** The digits of a number: the first is a digit, and no x follows it. */
  lemma DigitsShape(zeros: nat, n: nat, upper: bool, rest: seq<byte>)
    requires HexEnds(rest)
    ensures var v := Zeros(zeros) + Hex(n, upper) + rest;
            && v != [] && HexDigit(v[0]).Some? && v[0] !in {9, 10, 11, 12, 13, 32, 43, 45}
            && (|v| >= 2 ==> v[1] != 88 && v[1] != 120)
  {
    HexText(n, upper);
    var digits := Zeros(zeros) + Hex(n, upper);
    assert forall i :: 0 <= i < |digits| ==> HexDigit(digits[i]).Some? && digits[i] != 88 && digits[i] != 120;
    var v := digits + rest;
    assert v[0] == digits[0];
    assert |v| >= 2 ==> v[1] == if |digits| > 1 then digits[1] else rest[0];
  }

  /** Text that starts with a digit, and no x behind it, is read as the value of its digits. */
  lemma ScanDigits(v: seq<byte>, n: uint32)
    requires v != [] && HexDigit(v[0]).Some? && v[0] !in {9, 10, 11, 12, 13, 32, 43, 45}
    requires (|v| >= 2 ==> v[1] != 88 && v[1] != 120) && HexValue(v, 0) == n
    ensures ScanHex(v) == Some(n)
  {
    SkipBlank([], v);
    assert [] + v == v;
  }

  /** And the same behind a 0x. */
  lemma ScanPrefixed(x: byte, v: seq<byte>, n: uint32)
    requires x == 88 || x == 120
    requires v != [] && HexDigit(v[0]).Some? && HexValue(v, 0) == n
    ensures ScanHex([48, x] + v) == Some(n)
  {
    var t := [48, x] + v;
    SkipBlank([], t);
    assert [] + t == t && t[2..] == v;
  }

  lemma ScanBehindBlank(spaces: seq<byte>, t: seq<byte>)
    requires Blank(spaces) && t != [] && t[0] !in {9, 10, 11, 12, 13, 32}
    ensures ScanHex(spaces + t) == ScanHex(t)
  {
    SkipBlank(spaces, t);
    SkipBlank([], t);
    assert [] + t == t;
  }

  /** A number of 32 bits is read back, in lower and upper case, with leading zeros, white space and a 0x before it. */
  lemma ScanHexOfNumber(spaces: seq<byte>, prefix: Prefix, zeros: nat, n: uint32, upper: bool, rest: seq<byte>)
    requires Blank(spaces) && HexEnds(rest)
    ensures ScanHex(HexNumber(spaces, prefix, zeros, n, upper) + rest) == Some(n)
  {
    var v := Zeros(zeros) + Hex(n, upper) + rest;
    var t := PrefixText(prefix) + v;
    assert HexNumber(spaces, prefix, zeros, n, upper) + rest == spaces + t;
    DigitsShape(zeros, n, upper, rest);
    DigitsValue(zeros, n, upper, rest);
    if prefix.NoPrefix? {
      assert t == v;
      ScanDigits(v, n);
    } else {
      ScanPrefixed(PrefixText(prefix)[1], v, n);
    }
    ScanBehindBlank(spaces, t);
  }

  /** Positional notation in base 16: one more digit makes sixteen times the number and the digit. */
  lemma {:induction false} OneMoreHexDigit(digits: seq<byte>, d: byte, sofar: nat)
    requires (forall i :: 0 <= i < |digits| ==> HexDigit(digits[i]).Some?) && HexDigit(d).Some?
    ensures HexValue(digits + [d], sofar) == 16 * HexValue(digits, sofar) + HexDigit(d).value
    decreases |digits|
  {
    if digits == [] {
      assert (digits + [d])[1..] == [];
    } else {
      assert (digits + [d])[1..] == digits[1..] + [d];
      OneMoreHexDigit(digits[1..], d, sofar * 16 + HexDigit(digits[0]).value);
    }
  }

  // ---------- Lines ----------

  /** The address on a line: the number behind the first "EPC ". */
  lemma EpcLine(front: seq<byte>, spaces: seq<byte>, prefix: Prefix, zeros: nat, n: uint32, upper: bool, rest: seq<byte>)
    requires var line := front + (EPC + (HexNumber(spaces, prefix, zeros, n, upper) + rest)); FirstAt(line, EPC, |front|)
    requires Blank(spaces) && HexEnds(rest)
    ensures ScanEpc(front + (EPC + (HexNumber(spaces, prefix, zeros, n, upper) + rest))) == Some(n)
  {
    var number := HexNumber(spaces, prefix, zeros, n, upper) + rest;
    var line := front + (EPC + number);
    FindIsFirst(line, EPC, |front|);
    EpcBytes();
    BehindWord(front, EPC, number, 3);
    MoreBlank(spaces, prefix, zeros, n, upper, rest);
    ScanHexOfNumber([32] + spaces, prefix, zeros, n, upper, rest);
  }

  lemma EpcBytes()
    ensures |EPC| == 4 && EPC[3..] == [32]
  {
  }

  lemma BehindWord(front: seq<byte>, word: seq<byte>, number: seq<byte>, k: nat)
    requires k <= |word|
    ensures (front + (word + number))[|front| + k..] == word[k..] + number
  {
  }

  lemma MoreBlank(spaces: seq<byte>, prefix: Prefix, zeros: nat, n: uint32, upper: bool, rest: seq<byte>)
    ensures [32] + (HexNumber(spaces, prefix, zeros, n, upper) + rest)
            == HexNumber([32] + spaces, prefix, zeros, n, upper) + rest
  {
    var digits := PrefixText(prefix) + (Zeros(zeros) + Hex(n, upper));
    AppendAssociative([32], spaces, digits);
    AppendAssociative([32], spaces + digits, rest);
  }

  /** A line without "EPC " has no address, and without `Module Name "` no module. */
  lemma NothingOnLine(line: seq<byte>)
    ensures !Contains(line, EPC) ==> ScanEpc(line).None?
    ensures !Contains(line, MODULE_NAME) ==> ScanModule(line).None?
  {
    if Find(line, EPC).Some? { assert OccursAt(line, EPC, Find(line, EPC).value); }
    if Find(line, MODULE_NAME).Some? { assert OccursAt(line, MODULE_NAME, Find(line, MODULE_NAME).value); }
  }

  lemma {:induction false} NameLengthOf(name: seq<byte>, rest: seq<byte>, limit: nat)
    requires QUOTE !in name && |name| <= limit && rest != [] && rest[0] == QUOTE
    ensures NameLength(name + rest, limit) == |name|
    decreases |name|
  {
    if name == [] {
      assert (name + rest)[0] == QUOTE;
    } else {
      assert (name + rest)[1..] == name[1..] + rest;
      NameLengthOf(name[1..], rest, limit - 1);
    }
  }

  lemma ScanWordOf(spaces: seq<byte>, word: seq<byte>, rest: seq<byte>)
    requires Blank(spaces) && word != [] && word[0] !in {9, 10, 11, 12, 13, 32}
    ensures ScanWord(spaces + (word + rest), word) == Some(rest)
  {
    SkipBlank(spaces, word + rest);
  }

  /** The end of a module line: a quote, Relative, EPC and a number, with any white space between. */
  function RelativeText(s0: seq<byte>, s1: seq<byte>, number: seq<byte>): seq<byte> {
    [QUOTE] + (s0 + (RELATIVE + (s1 + (EPC[..3] + number))))
  }

  lemma RelativeRead(s0: seq<byte>, s1: seq<byte>, spaces: seq<byte>, prefix: Prefix, zeros: nat, n: uint32, upper: bool, rest: seq<byte>)
    requires Blank(s0) && Blank(s1) && Blank(spaces) && HexEnds(rest)
    ensures ScanRelative(RelativeText(s0, s1, HexNumber(spaces, prefix, zeros, n, upper) + rest)) == Some(n)
  {
    var number := HexNumber(spaces, prefix, zeros, n, upper) + rest;
    assert RelativeText(s0, s1, number)[1..] == s0 + (RELATIVE + (s1 + (EPC[..3] + number)));
    assert RELATIVE[0] == 82 && EPC[..3][0] == 69;
    ScanWordOf(s0, RELATIVE, s1 + (EPC[..3] + number));
    ScanWordOf(s1, EPC[..3], number);
    ScanHexOfNumber(spaces, prefix, zeros, n, upper, rest);
  }

  /** The module on a line: the name between its quotes, up to 127 bytes, and the number behind "Relative EPC". */
  lemma ModuleLine(front: seq<byte>, name: seq<byte>, s0: seq<byte>, s1: seq<byte>,
                   spaces: seq<byte>, prefix: Prefix, zeros: nat, n: uint32, upper: bool, rest: seq<byte>)
    requires name != [] && |name| <= 127 && QUOTE !in name
    requires Blank(s0) && Blank(s1) && Blank(spaces) && HexEnds(rest)
    requires FirstAt(front + (MODULE_NAME + (name + RelativeText(s0, s1, HexNumber(spaces, prefix, zeros, n, upper) + rest))),
                     MODULE_NAME, |front|)
    ensures ScanModule(front + (MODULE_NAME + (name + RelativeText(s0, s1, HexNumber(spaces, prefix, zeros, n, upper) + rest))))
            == Some((name, n))
  {
    var relative := RelativeText(s0, s1, HexNumber(spaces, prefix, zeros, n, upper) + rest);
    var line := front + (MODULE_NAME + (name + relative));
    RelativeRead(s0, s1, spaces, prefix, zeros, n, upper, rest);
    NameAndRelative(front, name, relative, n);
  }

  lemma NameAndRelative(front: seq<byte>, name: seq<byte>, relative: seq<byte>, n: uint32)
    requires name != [] && |name| <= 127 && QUOTE !in name && relative != [] && relative[0] == QUOTE
    requires FirstAt(front + (MODULE_NAME + (name + relative)), MODULE_NAME, |front|) && ScanRelative(relative) == Some(n)
    ensures ScanModule(front + (MODULE_NAME + (name + relative))) == Some((name, n))
  {
    var line := front + (MODULE_NAME + (name + relative));
    ModuleFound(line, |front|);
    assert line[|front| + 13..] == name + relative by {
      ModuleBytes();
      BehindWord(front, MODULE_NAME, name + relative, 13);
      assert [] + (name + relative) == name + relative;
    }
    NameRead(name, relative, n);
  }

  lemma ModuleFound(line: seq<byte>, i: nat)
    requires FirstAt(line, MODULE_NAME, i)
    ensures i + 13 <= |line| && ScanModule(line) == ReadModule(line[i + 13..])
  {
    ModuleBytes();
    FindIsFirst(line, MODULE_NAME, i);
  }

  lemma NameRead(name: seq<byte>, relative: seq<byte>, n: uint32)
    requires name != [] && |name| <= 127 && QUOTE !in name && relative != [] && relative[0] == QUOTE
    requires ScanRelative(relative) == Some(n)
    ensures ReadModule(name + relative) == Some((name, n))
  {
    NameLengthOf(name, relative, 127);
    assert (name + relative)[..|name|] == name && (name + relative)[|name|..] == relative;
  }

  lemma ModuleBytes()
    ensures |MODULE_NAME| == 13 && MODULE_NAME[13..] == []
  {
  }

  /** A line with both headers is the IOP's. */
  lemma HeaderMeaning(line: seq<byte>)
    ensures Header(line) == IOP <==> Contains(line, IOP_HEADER)
    ensures Header(line) == EE <==> Contains(line, EE_HEADER) && !Contains(line, IOP_HEADER)
  {
    if Find(line, EE_HEADER).Some? { assert OccursAt(line, EE_HEADER, Find(line, EE_HEADER).value); }
    if Find(line, IOP_HEADER).Some? { assert OccursAt(line, IOP_HEADER, Find(line, IOP_HEADER).value); }
  }

  // ---------- Exactly which calls ----------

  /** The line settles an exception of the processor. */
  predicate Settles(config: Config, p: Processor, scan: Scan) {
    match p
    case Neither => false
    case EE => config.eeElf.Some? && scan.epc.Some?
    case IOP => scan.named.Some?
  }

  /** The exception of the header at line `h` is still open at the end of these lines. */
  ghost predicate StillOpen(config: Config, scans: seq<Scan>, h: int) {
    && 0 <= h < |scans| && !scans[h].header.Neither?
    && (forall m :: h < m < |scans| ==> scans[m].header.Neither?)
    && forall m :: h <= m < |scans| ==> !Settles(config, scans[h].header, scans[m])
  }

  /** The exception that line `n` is about: of its own header, or of an earlier one that is still open. */
  ghost predicate About(config: Config, scans: seq<Scan>, h: int, n: int) {
    && 0 <= h <= n < |scans|
    && if h == n then !scans[n].header.Neither? else scans[n].header.Neither? && StillOpen(config, scans[..n], h)
  }

  /** The call that line `c.at` is due: it settles the exception it is about, and there is a file for it. */
  ghost predicate Due(config: Config, scans: seq<Scan>, c: Call) {
    exists h :: About(config, scans, h, c.at) && DueFor(config, scans[h].header, scans[c.at], c)
  }

  ghost predicate DueFor(config: Config, p: Processor, scan: Scan, c: Call) {
    && c.processor == p
    && match p
       case Neither => false
       case EE => config.eeElf == Some(c.elf) && scan.epc == Some(c.pc) && c.name == []
       case IOP => scan.named == Some((c.name, c.pc)) && FirstElf(config.modules, c.name) == Some(c.elf)
  }

  ghost predicate WaitsFor(config: Config, scans: seq<Scan>, waiting: Processor) {
    if waiting.Neither? then forall h :: !StillOpen(config, scans, h)
    else exists h :: StillOpen(config, scans, h) && scans[h].header == waiting
  }

  /** One more line: which exception is open then. */
  lemma OpenMore(config: Config, before: seq<Scan>, scan: Scan, h: int)
    ensures StillOpen(config, before + [scan], h) <==>
            About(config, before + [scan], h, |before|) && !Settles(config, (before + [scan])[h].header, scan)
  {
    var scans := before + [scan];
    assert scans[..|before|] == before;
    assert forall m :: 0 <= m < |before| ==> scans[m] == before[m];
  }

  lemma AboutLast(config: Config, before: seq<Scan>, scan: Scan, waiting: Processor, h: int)
    requires WaitsFor(config, before, waiting) && About(config, before + [scan], h, |before|)
    ensures (before + [scan])[h].header == if scan.header.Neither? then waiting else scan.header
  {
    var scans := before + [scan];
    assert scans[..|before|] == before;
    if scan.header.Neither? {
      assert StillOpen(config, before, h);
      if !waiting.Neither? {
        var k :| StillOpen(config, before, k) && before[k].header == waiting;
        assert k == h;
      }
    }
  }

  lemma AboutExists(config: Config, before: seq<Scan>, scan: Scan, waiting: Processor) returns (h: int)
    requires WaitsFor(config, before, waiting) && !(scan.header.Neither? && waiting.Neither?)
    ensures About(config, before + [scan], h, |before|)
  {
    assert (before + [scan])[..|before|] == before;
    if scan.header.Neither? {
      h :| StillOpen(config, before, h) && before[h].header == waiting;
    } else {
      h := |before|;
    }
  }

  lemma WaitsMore(config: Config, before: seq<Scan>, scan: Scan, waiting: Processor)
    requires WaitsFor(config, before, waiting)
    ensures WaitsFor(config, before + [scan], Step(config, waiting, scan, |before|).0)
  {
    var scans := before + [scan];
    var now := if scan.header.Neither? then waiting else scan.header;
    var next := Step(config, waiting, scan, |before|).0;
    assert next == if Settles(config, now, scan) then Neither else now;
    forall h
      ensures StillOpen(config, scans, h) ==> scans[h].header == now && !Settles(config, now, scan)
    {
      OpenMore(config, before, scan, h);
      if About(config, scans, h, |before|) { AboutLast(config, before, scan, waiting, h); }
    }
    if !next.Neither? {
      var h := AboutExists(config, before, scan, waiting);
      AboutLast(config, before, scan, waiting, h);
      OpenMore(config, before, scan, h);
    }
  }

  /** At its line, the call that is made is the one that is due. */
  lemma CallIsDue(config: Config, before: seq<Scan>, scan: Scan, waiting: Processor, c: Call)
    requires WaitsFor(config, before, waiting) && c.at == |before|
    ensures Step(config, waiting, scan, |before|).1 == Some(c) <==> Due(config, before + [scan], c)
  {
    var scans := before + [scan];
    var now := if scan.header.Neither? then waiting else scan.header;
    assert scans[|before|] == scan;
    assert Step(config, waiting, scan, |before|).1 == Some(c) <==> DueFor(config, now, scan, c);
    if DueFor(config, now, scan, c) {
      var h := AboutExists(config, before, scan, waiting);
      AboutLast(config, before, scan, waiting, h);
    }
    forall h | About(config, scans, h, |before|)
      ensures scans[h].header == now
    {
      AboutLast(config, before, scan, waiting, h);
    }
  }

  lemma DueEarlier(config: Config, before: seq<Scan>, scan: Scan, c: Call)
    requires c.at < |before|
    ensures Due(config, before + [scan], c) <==> Due(config, before, c)
  {
    var scans := before + [scan];
    assert forall m :: 0 <= m < |before| ==> scans[m] == before[m];
    assert scans[..c.at] == before[..c.at];
    forall h
      ensures About(config, scans, h, c.at) <==> About(config, before, h, c.at)
    {
    }
  }

  ghost predicate InOrder(calls: seq<Call>) {
    forall i, j :: 0 <= i < j < |calls| ==> calls[i].at < calls[j].at
  }

  lemma CallsWithout(calls: seq<Call>, last: nat, call: Option<Call>)
    requires InOrder(calls) && forall i :: 0 <= i < |calls| ==> calls[i].at < last
    requires call.Some? ==> call.value.at == last
    ensures InOrder(calls + if call.Some? then [call.value] else [])
  {
  }

  /**
   Over a whole log the calls are exactly those that are due, each made once and in the order of the
   lines: none is left out and none is made up.
   */
  lemma {:induction false} CallsAreExactlyDue(config: Config, scans: seq<Scan>)
    ensures var (waiting, calls) := Run(config, scans);
            && WaitsFor(config, scans, waiting) && InOrder(calls)
            && (forall i :: 0 <= i < |calls| ==> calls[i].at < |scans|)
            && forall c :: c in calls <==> Due(config, scans, c)
  {
    if scans != [] {
      var last := |scans| - 1;
      var (before, scan) := (scans[..last], scans[last]);
      assert scans == before + [scan];
      CallsAreExactlyDue(config, before);
      var (waiting, calls) := Run(config, before);
      var call := Step(config, waiting, scan, last).1;
      WaitsMore(config, before, scan, waiting);
      CallsWithout(calls, last, call);
      forall c
        ensures c in Run(config, scans).1 <==> Due(config, scans, c)
      {
        if c.at < last {
          DueEarlier(config, before, scan, c);
        } else if c.at == last {
          CallIsDue(config, before, scan, waiting, c);
        }
      }
    }
  }
}
