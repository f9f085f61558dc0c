/** The exception-log symbolizer: which log lines it resolves, and what it leaves of the log. */
module Symbolize {
  import opened Bytes

  const LINE_SIZE := 8192
  const NAME_SIZE := 128
  const NEWLINE: byte := 10
  const QUOTE: byte := 34

  // EE Exception handler:
  const EE_HEADER: seq<byte> :=
    [69, 69, 32, 69, 120, 99, 101, 112, 116, 105, 111, 110, 32, 104, 97, 110, 100, 108, 101, 114, 58]
  // IOP Exception handler:
  const IOP_HEADER: seq<byte> :=
    [73, 79, 80, 32, 69, 120, 99, 101, 112, 116, 105, 111, 110, 32, 104, 97, 110, 100, 108, 101, 114, 58]
  const EPC: seq<byte> := [69, 80, 67, 32] // EPC and a space
  const MODULE_NAME: seq<byte> := [77, 111, 100, 117, 108, 101, 32, 78, 97, 109, 101, 32, 34] // Module Name "
  const RELATIVE: seq<byte> := [82, 101, 108, 97, 116, 105, 118, 101] // Relative

  // ---------- sscanf ----------

  function HexDigit(c: byte): Option<nat> {
    if 48 <= c <= 57 then Some(c - 48)
    else if 97 <= c <= 102 then Some(c - 87)
    else if 65 <= c <= 70 then Some(c - 55)
    else None
  }

  function HexValue(s: seq<byte>, sofar: nat): nat {
    if s != [] && HexDigit(s[0]).Some? then HexValue(s[1..], sofar * 16 + HexDigit(s[0]).value) else sofar
  }

  /** %x, which skips white space: a 64-bit strtoul, cut to 32 bits. */
  function ScanHex(s: seq<byte>): Option<uint32> {
    var t := SkipSpace(s);
    var signed := t != [] && (t[0] == 45 || t[0] == 43);
    var u := if signed then t[1..] else t;
    var v := if |u| >= 2 && u[0] == 48 && (u[1] == 120 || u[1] == 88) then u[2..] else u;
    if v == [] || HexDigit(v[0]).None? then None
    else
      var n := HexValue(v, 0);
      if n > 0xffff_ffff_ffff_ffff then Some(0xffff_ffff)
      else Some(Unsigned(if signed && t[0] == 45 then 0 - (n as int) else n))
  }

  /** A literal of the format: white space before it, then its characters. */
  function ScanWord(s: seq<byte>, word: seq<byte>): Option<seq<byte>> {
    var t := SkipSpace(s);
    if word <= t then Some(t[|word|..]) else None
  }

  /** The address on a line: "EPC %x" from the first "EPC ". */
  function ScanEpc(line: seq<byte>): Option<uint32> {
    match Find(line, EPC)
    case None => None
    case Some(i) => ScanHex(line[i + 3..])
  }

  /** How many bytes %127[^"] takes. */
  function NameLength(s: seq<byte>, limit: nat): (n: nat)
    ensures n <= |s| && n <= limit
    ensures forall i :: 0 <= i < n ==> s[i] != QUOTE
    decreases limit
  {
    if limit == 0 || s == [] || s[0] == QUOTE then 0 else
      var n := NameLength(s[1..], limit - 1);
      assert forall i :: 0 < i <= n ==> s[i] == s[1..][i - 1];
      n + 1
  }

  /** What follows the name: the quote, "Relative EPC" and the number. */
  function ScanRelative(s: seq<byte>): Option<uint32> {
    if s == [] || s[0] != QUOTE then None else
      match ScanWord(s[1..], RELATIVE)
      case None => None
      case Some(rest) =>
        match ScanWord(rest, EPC[..3])
        case None => None
        case Some(number) => ScanHex(number)
  }

  /** The name up to its quote, and the number that follows it. */
  function ReadModule(after: seq<byte>): Option<(seq<byte>, uint32)> {
    var n := NameLength(after, NAME_SIZE - 1);
    match if n == 0 then None else ScanRelative(after[n..])
    case None => None
    case Some(pc) => Some((after[..n], pc))
  }

  /** The module and the relative address, from the first `Module Name "`. */
  function ScanModule(line: seq<byte>): Option<(seq<byte>, uint32)> {
    match Find(line, MODULE_NAME)
    case None => None
    case Some(i) => ReadModule(line[i + 13..])
  }

  // ---------- Modules ----------

  function Lower(c: byte): byte {
    if 65 <= c <= 90 then c + 32 else c
  }

  predicate SameName(a: seq<byte>, b: seq<byte>) {
    |a| == |b| && forall i :: 0 <= i < |a| ==> Lower(a[i]) == Lower(b[i])
  }

  /** Two letters agree up to case exactly when they are the same byte, or the two cases of one letter. */
  lemma CaseMeaning(a: byte, b: byte)
    ensures Lower(a) == Lower(b) <==>
            a == b || (65 <= a <= 90 && b == a + 32) || (65 <= b <= 90 && a == b + 32)
  {
  }

  method EqualsIgnoreCase(a: seq<byte>, b: seq<byte>) returns (same: bool)
    ensures same <==> SameName(a, b)
  {
    var i := 0;
    while i < |a| && i < |b|
      invariant i <= |a| && i <= |b| && forall j :: 0 <= j < i ==> Lower(a[j]) == Lower(b[j])
    {
      if Lower(a[i]) != Lower(b[i]) { return false; }
      i := i + 1;
    }
    return i == |a| && i == |b|;
  }

  datatype Module = Module(name: seq<byte>, elf: seq<byte>)

  datatype Config = Config(eeElf: Option<seq<byte>>, modules: seq<Module>)

  /** The ELF file of the first module with that name, whatever its case. */
  function FirstElf(modules: seq<Module>, name: seq<byte>): Option<seq<byte>> {
    if modules == [] then None
    else if SameName(name, modules[0].name) then Some(modules[0].elf)
    else FirstElf(modules[1..], name)
  }

  // ---------- One line ----------

  datatype Processor = Neither | EE | IOP

  /** A resolver call: the line it was made at, for which processor and module, file and address. */
  datatype Call = Call(at: nat, processor: Processor, name: seq<byte>, elf: seq<byte>, pc: uint32)

  /** What matters on a line. */
  datatype Scan = Scan(header: Processor, epc: Option<uint32>, named: Option<(seq<byte>, uint32)>)

  function Header(line: seq<byte>): Processor {
    if Find(line, IOP_HEADER).Some? then IOP else if Find(line, EE_HEADER).Some? then EE else Neither
  }

  function ScanLine(line: seq<byte>): Scan {
    Scan(Header(line), ScanEpc(line), ScanModule(line))
  }

  /** The exception that waits after line number `at`, and the call made at it. */
  function Step(config: Config, waiting: Processor, scan: Scan, at: nat): (Processor, Option<Call>) {
    var now := if scan.header.Neither? then waiting else scan.header;
    if now.EE? && config.eeElf.Some? then
      match scan.epc
      case None => (now, None)
      case Some(pc) => (Neither, Some(Call(at, EE, [], config.eeElf.value, pc)))
    else if now.IOP? then
      match scan.named
      case None => (now, None)
      case Some((name, pc)) =>
        (Neither, match FirstElf(config.modules, name) case None => None case Some(elf) => Some(Call(at, IOP, name, elf, pc)))
    else (now, None)
  }

  /** A whole log, line by line: what waits at its end, and the calls made. */
  function Run(config: Config, scans: seq<Scan>): (Processor, seq<Call>) {
    if scans == [] then (Neither, []) else
      var last := |scans| - 1;
      var (waiting, calls) := Run(config, scans[..last]);
      var (next, call) := Step(config, waiting, scans[last], last);
      (next, if call.Some? then calls + [call.value] else calls)
  }

  function Scans(lines: seq<seq<byte>>): seq<Scan> {
    seq(|lines|, i requires 0 <= i < |lines| => ScanLine(lines[i]))
  }

  /** A line as a C string, which is all that fputs and strstr see of it. */
  function Texts(lines: seq<seq<byte>>): seq<seq<byte>> {
    seq(|lines|, i requires 0 <= i < |lines| => CString(lines[i]))
  }

  // ---------- What is written ----------

  /** A resolved symbol: one line without its end. */
  type Symbol = s: seq<byte> | NEWLINE !in s && 0 !in s witness []

  /** What the resolver will do: a symbol (positive), nothing (0), or failure (negative). */
  datatype Answer = Answer(value: int, symbol: Symbol)

  const IOP_LABEL: seq<byte> := [32, 32, 91, 73, 79, 80, 32] // two spaces, [IOP and a space
  const IOP_LABEL_END: seq<byte> := [32, 115, 121, 109, 98, 111, 108, 93, 32] // a space, symbol] and a space
  const EE_LABEL: seq<byte> := [32, 32, 91, 69, 69, 32, 115, 121, 109, 98, 111, 108, 93, 32] // the same for EE

  /** What fprintf writes for a symbol. */
  function AnnotationText(name: seq<byte>, symbol: seq<byte>): seq<byte> {
    (if name != [] then IOP_LABEL + name + IOP_LABEL_END else EE_LABEL) + symbol + [NEWLINE]
  }

  /** The answer to call number `n`; beyond the script the resolver finds nothing. */
  function AnswerAt(answers: seq<Answer>, n: nat): Answer {
    if n < |answers| then answers[n] else Answer(0, [])
  }

  function Failed(answers: seq<Answer>, n: nat): nat {
    if n == 0 then 0 else Failed(answers, n - 1) + if AnswerAt(answers, n - 1).value < 0 then 1 else 0
  }

  lemma {:induction false} FailedMeaning(answers: seq<Answer>, n: nat)
    ensures Failed(answers, n) == 0 <==> forall k :: 0 <= k < n ==> AnswerAt(answers, k).value >= 0
  {
    if n > 0 {
      FailedMeaning(answers, n - 1);
    }
  }

  /** One write to the output, and what it was for. */
  datatype Piece = Log(text: seq<byte>) | Annotation(text: seq<byte>)

  /** The bytes of the output. */
  function Written(pieces: seq<Piece>): seq<byte> {
    if pieces == [] then [] else Written(pieces[..|pieces| - 1]) + pieces[|pieces| - 1].text
  }

  function Originals(pieces: seq<Piece>): seq<byte> {
    if pieces == [] then [] else
      var last := pieces[|pieces| - 1];
      Originals(pieces[..|pieces| - 1]) + if last.Log? then last.text else []
  }

  function Annotations(pieces: seq<Piece>): seq<seq<byte>> {
    if pieces == [] then [] else
      var last := pieces[|pieces| - 1];
      Annotations(pieces[..|pieces| - 1]) + if last.Annotation? then [last.text] else []
  }

  lemma OneMorePiece(pieces: seq<Piece>, p: Piece)
    ensures Written(pieces + [p]) == Written(pieces) + p.text
    ensures Originals(pieces + [p]) == Originals(pieces) + if p.Log? then p.text else []
    ensures Annotations(pieces + [p]) == Annotations(pieces) + if p.Annotation? then [p.text] else []
  {
    assert (pieces + [p])[..|pieces|] == pieces;
  }

  /** The writes for one line: the line, and the symbol if a call found one. */
  function LinePieces(line: seq<byte>, call: Option<Call>, answer: Answer): seq<Piece> {
    [Log(line)] +
    if call.Some? && answer.value > 0 then [Annotation(AnnotationText(call.value.name, answer.symbol))] else []
  }

  /** The call that line number `n` makes, and its answer. */
  function CallAt(config: Config, lines: seq<seq<byte>>, answers: seq<Answer>, n: nat): (Option<Call>, Answer)
    requires n < |lines|
  {
    var (waiting, calls) := Run(config, Scans(lines[..n]));
    (Step(config, waiting, ScanLine(lines[n]), n).1, AnswerAt(answers, |calls|))
  }

  /** All writes for a log. */
  function Shown(config: Config, lines: seq<seq<byte>>, answers: seq<Answer>): seq<Piece> {
    if lines == [] then [] else
      var last := |lines| - 1;
      var (call, answer) := CallAt(config, lines, answers, last);
      Shown(config, lines[..last], answers) + LinePieces(lines[last], call, answer)
  }

  // ---------- The program ----------

  class Symbolizer {
    const config: Config
    const answers: seq<Answer>
    var waiting: Processor
    var errors: nat
    var out: seq<byte>
    var calls: seq<Call>
    ghost var pieces: seq<Piece>

    constructor (config: Config, answers: seq<Answer>)
      ensures this.config == config && this.answers == answers && waiting == Neither
      ensures out == [] && calls == [] && pieces == [] && Valid()
    {
      this.config, this.answers, waiting, errors, out, calls, pieces := config, answers, Neither, 0, [], [], [];
    }

    /** The output is what was written, and every failed call was counted. */
    ghost predicate Valid()
      reads this
    {
      out == Written(pieces) && errors == Failed(answers, |calls|)
    }

    method FindModule(name: seq<byte>) returns (elf: Option<seq<byte>>)
      ensures elf == FirstElf(config.modules, name)
    {
      for i := 0 to |config.modules|
        invariant FirstElf(config.modules, name) == FirstElf(config.modules[i..], name)
      {
        var same := EqualsIgnoreCase(name, config.modules[i].name);
        if same { return Some(config.modules[i].elf); }
      }
      return None;
    }

    method Put(ghost p: Piece, text: seq<byte>)
      requires Valid() && text == p.text
      modifies this`out, this`pieces
      ensures Valid() && pieces == old(pieces) + [p]
    {
      OneMorePiece(pieces, p);
      out, pieces := out + text, pieces + [p];
    }

    method Resolve(call: Call)
      requires Valid()
      modifies this`calls, this`out, this`errors, this`pieces
      ensures Valid() && calls == old(calls) + [call]
      ensures var answer := AnswerAt(answers, |old(calls)|);
              pieces == if answer.value > 0 then old(pieces) + [Annotation(AnnotationText(call.name, answer.symbol))] else old(pieces)
    {
      var answer := AnswerAt(answers, |calls|);
      calls := calls + [call];
      if answer.value < 0 { errors := errors + 1; }
      if answer.value > 0 {
        var text := AnnotationText(call.name, answer.symbol);
        Put(Annotation(text), text);
      }
    }

    /** The two header checks: the later one wins. */
    method Note(line: seq<byte>)
      modifies this`waiting
      ensures waiting == if Header(line).Neither? then old(waiting) else Header(line)
    {
      if Find(line, EE_HEADER).Some? { waiting := EE; }
      if Find(line, IOP_HEADER).Some? { waiting := IOP; }
    }

    /** An IOP exception waits: the module's line. */
    method ResolveModule(line: seq<byte>, at: nat) returns (ghost call: Option<Call>)
      requires Valid() && waiting.IOP?
      modifies this
      ensures Valid() && (waiting, call) == Step(config, IOP, Scan(Neither, None, ScanModule(line)), at)
      ensures calls == old(calls) + if call.Some? then [call.value] else []
      ensures old(pieces) + LinePieces(line, call, AnswerAt(answers, |old(calls)|))[1..] == pieces
    {
      call := None;
      var scanned := ScanModule(line);
      if scanned.None? { return; }
      var (name, pc) := scanned.value;
      var elf := FindModule(name);
      waiting := Neither;
      if elf.None? { return; }
      call := Some(Call(at, IOP, name, elf.value, pc));
      Resolve(Call(at, IOP, name, elf.value, pc));
    }

    /** An EE exception waits, and there is a file for it: the line with the address. */
    method ResolveAddress(line: seq<byte>, at: nat) returns (ghost call: Option<Call>)
      requires Valid() && waiting.EE? && config.eeElf.Some?
      modifies this
      ensures Valid() && (waiting, call) == Step(config, EE, Scan(Neither, ScanEpc(line), None), at)
      ensures calls == old(calls) + if call.Some? then [call.value] else []
      ensures old(pieces) + LinePieces(line, call, AnswerAt(answers, |old(calls)|))[1..] == pieces
    {
      call := None;
      var pc := ScanEpc(line);
      if pc.None? { return; }
      waiting := Neither;
      call := Some(Call(at, EE, [], config.eeElf.value, pc.value));
      Resolve(Call(at, EE, [], config.eeElf.value, pc.value));
    }

    /** What the line does for the exception that waits. */
    method ResolveWaiting(line: seq<byte>, at: nat) returns (ghost call: Option<Call>)
      requires Valid()
      modifies this
      ensures Valid() && (waiting, call) == Step(config, old(waiting), Scan(Neither, ScanEpc(line), ScanModule(line)), at)
      ensures calls == old(calls) + if call.Some? then [call.value] else []
      ensures old(pieces) + LinePieces(line, call, AnswerAt(answers, |old(calls)|))[1..] == pieces
    {
      call := None;
      if waiting.EE? && config.eeElf.Some? {
        call := ResolveAddress(line, at);
      } else if waiting.IOP? {
        call := ResolveModule(line, at);
      }
    }

    method AnnotateLine(line: seq<byte>, at: nat)
      requires Valid()
      modifies this
      ensures Valid()
      ensures var (next, call) := Step(config, old(waiting), ScanLine(line), at);
              && waiting == next && calls == old(calls) + (if call.Some? then [call.value] else [])
              && pieces == old(pieces) + LinePieces(line, call, AnswerAt(answers, |old(calls)|))
    {
      Put(Log(line), line);
      Note(line);
      StepByHeader(config, old(waiting), ScanLine(line), at);
      ghost var call := ResolveWaiting(line, at);
      ghost var more := LinePieces(line, call, AnswerAt(answers, |old(calls)|));
      assert more == [Log(line)] + more[1..];
      assert old(pieces) + [Log(line)] + more[1..] == old(pieces) + ([Log(line)] + more[1..]);
    }

    /** The line loop: fgets until the end of the input. */
    method Annotate(input: seq<byte>) returns (status: int, ghost lines: seq<seq<byte>>)
      requires waiting == Neither && calls == [] && pieces == [] && Valid()
      modifies this
      ensures Valid() && lines == Texts(Split(input))
      ensures (waiting, calls) == Run(config, Scans(lines)) && pieces == Shown(config, lines, answers)
      ensures out == Written(Shown(config, lines, answers))
      ensures status == if forall k :: 0 <= k < |calls| ==> AnswerAt(answers, k).value >= 0 then 0 else 1
    {
      var rest := input;
      var at := 0;
      lines := [];
      assert lines + Texts(Split(rest)) == Texts(Split(input));
      while rest != []
        invariant lines + Texts(Split(rest)) == Texts(Split(input)) && at == |lines| && Valid()
        invariant (waiting, calls) == Run(config, Scans(lines)) && pieces == Shown(config, lines, answers)
        decreases |rest|
      {
        var n := LineLength(rest, LINE_SIZE - 1);
        var line := CString(rest[..n]);
        TextsFront(lines, rest);
        RunMore(config, lines, line);
        ShownMore(config, lines, line, answers);
        AnnotateLine(line, at);
        lines, at, rest := lines + [line], at + 1, rest[n..];
      }
      assert lines == Texts(Split(input)) by {
        assert Texts(Split(rest)) == [];
      }
      FailedMeaning(answers, |calls|);
      return if errors > 0 then 1 else 0, lines;
    }
  }

  /** The header of a line counts first. */
  lemma StepByHeader(config: Config, waiting: Processor, scan: Scan, at: nat)
    ensures var now := if scan.header.Neither? then waiting else scan.header;
            Step(config, waiting, scan, at) == Step(config, now, Scan(Neither, scan.epc, scan.named), at)
  {
  }

  lemma RunMore(config: Config, lines: seq<seq<byte>>, line: seq<byte>)
    ensures var (waiting, calls) := Run(config, Scans(lines));
            var (next, call) := Step(config, waiting, ScanLine(line), |lines|);
            Run(config, Scans(lines + [line])) == (next, calls + if call.Some? then [call.value] else [])
  {
    var scans := Scans(lines + [line]);
    assert scans[..|lines|] == Scans(lines) && scans[|lines|] == ScanLine(line);
    assert Run(config, Scans(lines)).1 + [] == Run(config, Scans(lines)).1;
  }

  lemma ShownMore(config: Config, lines: seq<seq<byte>>, line: seq<byte>, answers: seq<Answer>)
    ensures var (waiting, calls) := Run(config, Scans(lines));
            var (next, call) := Step(config, waiting, ScanLine(line), |lines|);
            Shown(config, lines + [line], answers) ==
            Shown(config, lines, answers) + LinePieces(line, call, AnswerAt(answers, |calls|))
  {
    assert (lines + [line])[..|lines|] == lines;
  }

  lemma TextsFront(lines: seq<seq<byte>>, rest: seq<byte>)
    requires rest != []
    ensures var n := LineLength(rest, LINE_SIZE - 1);
            lines + Texts(Split(rest)) == (lines + [CString(rest[..n])]) + Texts(Split(rest[n..]))
  {
    var n := LineLength(rest, LINE_SIZE - 1);
    assert Texts(Split(rest)) == [CString(rest[..n])] + Texts(Split(rest[n..]));
  }

  /** How much fgets takes: up to and with a newline, or until the buffer is full. */
  function LineLength(s: seq<byte>, limit: nat): (n: nat)
    ensures n <= |s| && n <= limit && (s != [] && limit > 0 ==> n > 0)
    decreases limit
  {
    if limit == 0 || s == [] then 0 else if s[0] == NEWLINE then 1 else 1 + LineLength(s[1..], limit - 1)
  }

  function Split(s: seq<byte>): seq<seq<byte>>
    decreases |s|
  {
    if s == [] then [] else
      var n := LineLength(s, LINE_SIZE - 1);
      [s[..n]] + Split(s[n..])
  }

  // ---------- Whole logs ----------

  /** The processor of the latest header. */
  function Latest(scans: seq<Scan>): Processor {
    if scans == [] then Neither
    else if scans[|scans| - 1].header.Neither? then Latest(scans[..|scans| - 1])
    else scans[|scans| - 1].header
  }

  function Headers(scans: seq<Scan>): nat {
    if scans == [] then 0 else Headers(scans[..|scans| - 1]) + if scans[|scans| - 1].header.Neither? then 0 else 1
  }

  /** The call is for the latest header before or at its line, and for the file that header needs. */
  ghost predicate RightCall(config: Config, scans: seq<Scan>, c: Call) {
    && c.at < |scans| && c.processor == Latest(scans[..c.at + 1])
    && match c.processor
       case Neither => false
       case EE => config.eeElf == Some(c.elf) && scans[c.at].epc == Some(c.pc)
       case IOP => FirstElf(config.modules, c.name) == Some(c.elf) && scans[c.at].named == Some((c.name, c.pc))
  }

  lemma StepIsRight(config: Config, scans: seq<Scan>, waiting: Processor)
    requires scans != [] && (waiting == Neither || waiting == Latest(scans[..|scans| - 1]))
    ensures var (next, call) := Step(config, waiting, scans[|scans| - 1], |scans| - 1);
            && (next == Neither || next == Latest(scans))
            && (call.Some? ==> RightCall(config, scans, call.value))
  {
    assert scans[..|scans| - 1 + 1] == scans;
  }

  /**
   Over a whole log every call is for the processor of the latest header and the right file, and calls
   and the exception still waiting together are at most the lines with a header.
   */
  lemma {:induction false} CallsAreRight(config: Config, scans: seq<Scan>)
    ensures var (waiting, calls) := Run(config, scans);
            && (waiting == Neither || waiting == Latest(scans))
            && (forall i :: 0 <= i < |calls| ==> RightCall(config, scans, calls[i]))
            && |calls| + (if waiting.Neither? then 0 else 1) <= Headers(scans)
  {
    if scans != [] {
      var before := scans[..|scans| - 1];
      CallsAreRight(config, before);
      var (waiting, calls) := Run(config, before);
      StepIsRight(config, scans, waiting);
      forall i | 0 <= i < |calls|
        ensures RightCall(config, scans, calls[i])
      {
        assert before[..calls[i].at + 1] == scans[..calls[i].at + 1];
      }
    }
  }

  /** FirstElf is the first match. */
  lemma {:induction false} FirstElfIsFirst(modules: seq<Module>, name: seq<byte>)
    ensures match FirstElf(modules, name)
            case None => forall i :: 0 <= i < |modules| ==> !SameName(name, modules[i].name)
            case Some(elf) => exists i :: 0 <= i < |modules| && modules[i].elf == elf && SameName(name, modules[i].name)
                                          && forall j :: 0 <= j < i ==> !SameName(name, modules[j].name)
  {
    var i := 0;
    while i < |modules| && !SameName(name, modules[i].name)
      invariant i <= |modules| && FirstElf(modules, name) == FirstElf(modules[i..], name)
      invariant forall j :: 0 <= j < i ==> !SameName(name, modules[j].name)
    {
      i := i + 1;
    }
  }
}
