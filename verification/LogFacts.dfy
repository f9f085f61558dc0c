/**
 What the symbolizer leaves of the log: what fgets reads and fputs writes, where annotations stand in
 the output, and when deleting their lines gives the log back.
 */
module LogFacts {
  import opened Bytes
  import opened Symbolize

  // ---------- What is left of the log ----------

  /** fgets drops nothing, and cuts only after a newline or at a full buffer. */
  lemma {:induction false} SplitIsTheInput(s: seq<byte>)
    ensures Join(Split(s)) == s
    decreases |s|
  {
    if s != [] {
      var n := LineLength(s, LINE_SIZE - 1);
      SplitIsTheInput(s[n..]);
      assert s == s[..n] + s[n..];
    }
  }

  /** What fputs makes of the lines is the input exactly when no byte of it is null; it is never longer. */
  lemma {:induction false} OutputIsTheInput(s: seq<byte>)
    ensures Join(Texts(Split(s))) == s <==> 0 !in s
    ensures |Join(Texts(Split(s)))| <= |s| - if 0 in s then 1 else 0
    decreases |s|
  {
    if s != [] {
      var n := LineLength(s, LINE_SIZE - 1);
      var (line, rest) := (s[..n], s[n..]);
      assert s == line + rest;
      assert Texts(Split(s))[1..] == Texts(Split(rest));
      assert Join(Texts(Split(s))) == CString(line) + Join(Texts(Split(rest)));
      OutputIsTheInput(rest);
    }
  }

  /** Besides the annotations exactly the lines are written. */
  lemma {:induction false} OriginalsAreTheLines(config: Config, lines: seq<seq<byte>>, answers: seq<Answer>)
    ensures Originals(Shown(config, lines, answers)) == Join(lines)
  {
    if lines != [] {
      var (before, line) := (lines[..|lines| - 1], lines[|lines| - 1]);
      assert lines == before + [line];
      OriginalsAreTheLines(config, before, answers);
      JoinMore(before, line);
      var (call, answer) := CallAt(config, lines, answers, |before|);
      LineOriginals(Shown(config, before, answers), line, call, answer);
    }
  }

  lemma LineOriginals(pieces: seq<Piece>, line: seq<byte>, call: Option<Call>, answer: Answer)
    ensures Originals(pieces + LinePieces(line, call, answer)) == Originals(pieces) + line
  {
    OneMorePiece(pieces, Log(line));
    var all := LinePieces(line, call, answer);
    if |all| == 1 {
      assert pieces + all == pieces + [Log(line)];
    } else {
      OneMorePiece(pieces + [Log(line)], all[1]);
      assert pieces + all == pieces + [Log(line)] + [all[1]];
    }
  }

  // ---------- Annotations as lines of their own ----------

  ghost predicate AtLineStart(s: seq<byte>) {
    s == [] || s[|s| - 1] == NEWLINE
  }

  /** Every annotation starts a line of the output. */
  ghost predicate OwnLines(pieces: seq<Piece>) {
    forall k :: 0 <= k < |pieces| && pieces[k].Annotation? ==> AtLineStart(Written(pieces[..k]))
  }

  /** Line number `n` of the log gets an annotation. */
  ghost predicate Annotated(config: Config, lines: seq<seq<byte>>, answers: seq<Answer>, n: nat)
    requires n < |lines|
  {
    var (call, answer) := CallAt(config, lines, answers, n);
    call.Some? && answer.value > 0
  }

  lemma OwnLinesMore(pieces: seq<Piece>, p: Piece)
    ensures OwnLines(pieces + [p]) <==> OwnLines(pieces) && (p.Annotation? ==> AtLineStart(Written(pieces)))
  {
    var more := pieces + [p];
    assert more[..|pieces|] == pieces;
    assert forall k :: 0 <= k < |pieces| ==> more[k] == pieces[k] && more[..k] == pieces[..k];
    if OwnLines(more) {
      forall k | 0 <= k < |pieces| && pieces[k].Annotation?
        ensures AtLineStart(Written(pieces[..k]))
      {
        assert more[k].Annotation? && more[..k] == pieces[..k];
      }
      if p.Annotation? { assert more[|pieces|].Annotation?; }
    }
  }

  /** A line that makes a call is not empty. */
  lemma CallNeedsText(config: Config, waiting: Processor, line: seq<byte>, at: nat)
    requires Step(config, waiting, ScanLine(line), at).1.Some?
    ensures line != []
  {
  }

  lemma OwnLinesOfLine(pieces: seq<Piece>, line: seq<byte>, call: Option<Call>, answer: Answer)
    requires call.Some? ==> line != []
    ensures OwnLines(pieces + LinePieces(line, call, answer)) <==>
            OwnLines(pieces) && (call.Some? && answer.value > 0 ==> AtLineStart(line))
  {
    var first := pieces + [Log(line)];
    OwnLinesMore(pieces, Log(line));
    OneMorePiece(pieces, Log(line));
    var all := LinePieces(line, call, answer);
    if |all| == 1 {
      assert pieces + all == first;
    } else {
      OwnLinesMore(first, all[1]);
      assert pieces + all == first + [all[1]];
      assert Written(first)[|Written(first)| - 1] == line[|line| - 1];
    }
  }

  /** Every annotated line, as it was read, ends in a newline. */
  ghost predicate AnnotatedEnd(config: Config, lines: seq<seq<byte>>, answers: seq<Answer>) {
    forall n :: 0 <= n < |lines| && Annotated(config, lines, answers, n) ==> AtLineStart(lines[n])
  }

  lemma AnnotatedFront(config: Config, before: seq<seq<byte>>, line: seq<byte>, answers: seq<Answer>, n: nat)
    requires n < |before|
    ensures Annotated(config, before + [line], answers, n) == Annotated(config, before, answers, n)
  {
    assert (before + [line])[..n] == before[..n];
  }

  lemma AnnotatedEndMore(config: Config, before: seq<seq<byte>>, line: seq<byte>, answers: seq<Answer>)
    ensures AnnotatedEnd(config, before + [line], answers) <==>
            && AnnotatedEnd(config, before, answers)
            && (Annotated(config, before + [line], answers, |before|) ==> AtLineStart(line))
  {
    var lines := before + [line];
    forall n | 0 <= n < |before|
      ensures Annotated(config, lines, answers, n) == Annotated(config, before, answers, n) && lines[n] == before[n]
    {
      AnnotatedFront(config, before, line, answers, n);
    }
    assert lines[|before|] == line;
  }

  lemma OwnLinesMoreLog(config: Config, before: seq<seq<byte>>, line: seq<byte>, answers: seq<Answer>)
    ensures OwnLines(Shown(config, before + [line], answers)) <==>
            && OwnLines(Shown(config, before, answers))
            && (Annotated(config, before + [line], answers, |before|) ==> AtLineStart(line))
  {
    var lines := before + [line];
    assert lines[..|before|] == before;
    var (call, answer) := CallAt(config, lines, answers, |before|);
    if call.Some? { CallNeedsText(config, Run(config, Scans(before)).0, line, |before|); }
    OwnLinesOfLine(Shown(config, before, answers), line, call, answer);
  }

  /** Every annotation is on a line of its own exactly when every annotated line as read ends in a newline. */
  lemma {:induction false} OwnLinesIff(config: Config, lines: seq<seq<byte>>, answers: seq<Answer>)
    ensures OwnLines(Shown(config, lines, answers)) <==> AnnotatedEnd(config, lines, answers)
  {
    if lines != [] {
      var (before, line) := (lines[..|lines| - 1], lines[|lines| - 1]);
      assert lines == before + [line];
      OwnLinesIff(config, before, answers);
      OwnLinesMoreLog(config, before, line, answers);
      AnnotatedEndMore(config, before, line, answers);
    }
  }

  // ---------- Deleting the annotation lines ----------

  /** The lines of a text, each with its newline; the last one may have none. */
  function TextLines(s: seq<byte>): seq<seq<byte>> {
    if s == [] then [] else AddByte(TextLines(s[..|s| - 1]), s[|s| - 1])
  }

  function AddByte(lines: seq<seq<byte>>, c: byte): seq<seq<byte>> {
    if lines == [] || AtEnd(lines[|lines| - 1]) then lines + [[c]]
    else lines[..|lines| - 1] + [lines[|lines| - 1] + [c]]
  }

  predicate AtEnd(line: seq<byte>) {
    line != [] && line[|line| - 1] == NEWLINE
  }

  /** What is left without the marked lines, and the marked lines. */
  function Kept(lines: seq<seq<byte>>, marks: seq<bool>): seq<byte>
    requires |lines| == |marks|
  {
    if lines == [] then [] else
      var last := |lines| - 1;
      Kept(lines[..last], marks[..last]) + if marks[last] then [] else lines[last]
  }

  function Deleted(lines: seq<seq<byte>>, marks: seq<bool>): seq<seq<byte>>
    requires |lines| == |marks|
  {
    if lines == [] then [] else
      var last := |lines| - 1;
      Deleted(lines[..last], marks[..last]) + if marks[last] then [lines[last]] else []
  }

  /** At most its last byte is a newline. */
  ghost predicate OneLine(text: seq<byte>) {
    forall i :: 0 <= i < |text| - 1 ==> text[i] != NEWLINE
  }

  lemma {:induction false} TextLinesEnd(s: seq<byte>)
    ensures TextLines(s) == [] <==> s == []
    ensures s != [] ==> (AtEnd(TextLines(s)[|TextLines(s)| - 1]) <==> s[|s| - 1] == NEWLINE)
  {
    if s != [] {
      TextLinesEnd(s[..|s| - 1]);
    }
  }

  lemma AddInside(lines: seq<seq<byte>>, open: seq<byte>, c: byte)
    requires open != [] && !AtEnd(open)
    ensures AddByte(lines + [open], c) == lines + [open + [c]]
  {
    assert (lines + [open])[..|lines|] == lines;
  }

  /** Text that is one line goes behind what is there: as a line at a line start, else into the open line. */
  lemma {:induction false} TextLinesMore(s: seq<byte>, text: seq<byte>)
    requires text != [] && OneLine(text)
    ensures TextLines(s + text) ==
            if AtLineStart(s) then TextLines(s) + [text]
            else var lines := TextLines(s); lines[..|lines| - 1] + [lines[|lines| - 1] + text]
    decreases |text|
  {
    var (front, c) := (text[..|text| - 1], text[|text| - 1]);
    assert text == front + [c];
    assert (s + text)[..|s + text| - 1] == s + front;
    TextLinesEnd(s);
    if front == [] {
      assert s + front == s && text == [c];
    } else {
      TextLinesMore(s, front);
      assert front[|front| - 1] == text[|front| - 1] != NEWLINE;
      if AtLineStart(s) {
        AddInside(TextLines(s), front, c);
      } else {
        var lines := TextLines(s);
        var last := lines[|lines| - 1];
        AddInside(lines[..|lines| - 1], last + front, c);
        AppendAssociative(last, front, [c]);
      }
    }
  }

  /** `marks` tells the annotations from the log. */
  ghost predicate Tells(pieces: seq<Piece>, marks: seq<bool>) {
    var lines := TextLines(Written(pieces));
    && |marks| == |lines|
    && Kept(lines, marks) == Originals(pieces) && Deleted(lines, marks) == Annotations(pieces)
    && (!AtLineStart(Written(pieces)) ==> marks != [] && !marks[|marks| - 1])
  }

  ghost predicate OneLinePieces(pieces: seq<Piece>) {
    forall k :: 0 <= k < |pieces| ==> OneLine(pieces[k].text) && (pieces[k].Annotation? ==> AtEnd(pieces[k].text))
  }

  lemma MoreLines(lines: seq<seq<byte>>, marks: seq<bool>, line: seq<byte>, mark: bool)
    requires |lines| == |marks|
    ensures Kept(lines + [line], marks + [mark]) == Kept(lines, marks) + if mark then [] else line
    ensures Deleted(lines + [line], marks + [mark]) == Deleted(lines, marks) + if mark then [line] else []
  {
    assert (lines + [line])[..|lines|] == lines && (marks + [mark])[..|marks|] == marks;
  }

  lemma LongerLine(lines: seq<seq<byte>>, marks: seq<bool>, text: seq<byte>)
    requires |lines| == |marks| > 0 && !marks[|marks| - 1]
    ensures var more := lines[..|lines| - 1] + [lines[|lines| - 1] + text];
            Kept(more, marks) == Kept(lines, marks) + text && Deleted(more, marks) == Deleted(lines, marks)
  {
    var last := |lines| - 1;
    var more := lines[..last] + [lines[last] + text];
    assert more[..last] == lines[..last];
  }

  lemma TellsLine(pieces: seq<Piece>, marks: seq<bool>, p: Piece)
    requires Tells(pieces, marks) && OneLine(p.text) && p.text != [] && AtLineStart(Written(pieces))
    requires p.Annotation? ==> AtEnd(p.text)
    ensures Tells(pieces + [p], marks + [p.Annotation?])
  {
    OneMorePiece(pieces, p);
    TextLinesMore(Written(pieces), p.text);
    MoreLines(TextLines(Written(pieces)), marks, p.text, p.Annotation?);
    EndOfBoth(Written(pieces), p.text);
  }

  lemma TellsLonger(pieces: seq<Piece>, marks: seq<bool>, p: Piece)
    requires Tells(pieces, marks) && OneLine(p.text) && p.text != [] && !AtLineStart(Written(pieces)) && p.Log?
    ensures Tells(pieces + [p], marks)
  {
    OneMorePiece(pieces, p);
    TextLinesMore(Written(pieces), p.text);
    LongerLine(TextLines(Written(pieces)), marks, p.text);
    EndOfBoth(Written(pieces), p.text);
  }

  lemma EndOfBoth(a: seq<byte>, b: seq<byte>)
    requires b != []
    ensures AtLineStart(a + b) <==> AtLineStart(b)
  {
  }

  lemma TellsMore(pieces: seq<Piece>, marks: seq<bool>, p: Piece) returns (more: seq<bool>)
    requires Tells(pieces, marks) && OneLine(p.text)
    requires p.Annotation? ==> AtEnd(p.text) && AtLineStart(Written(pieces))
    ensures Tells(pieces + [p], more)
  {
    if p.text == [] {
      more := marks;
      OneMorePiece(pieces, p);
      assert Written(pieces) + p.text == Written(pieces);
    } else if AtLineStart(Written(pieces)) {
      more := marks + [p.Annotation?];
      TellsLine(pieces, marks, p);
    } else {
      more := marks;
      TellsLonger(pieces, marks, p);
    }
  }

  /** When annotations have lines of their own, deleting those lines gives the log back. */
  lemma {:induction false} AnnotationsCanBeDeleted(pieces: seq<Piece>) returns (marks: seq<bool>)
    requires OwnLines(pieces) && OneLinePieces(pieces)
    ensures Tells(pieces, marks)
    decreases |pieces|
  {
    if pieces == [] {
      marks := [];
    } else {
      var (before, p) := (pieces[..|pieces| - 1], pieces[|pieces| - 1]);
      assert pieces == before + [p];
      OwnLinesMore(before, p);
      marks := AnnotationsCanBeDeleted(before);
      marks := TellsMore(before, marks, p);
    }
  }

  // ---------- The lines fgets reads ----------

  lemma {:induction false} LineLengthEnds(s: seq<byte>, limit: nat)
    ensures var n := LineLength(s, limit);
            && OneLine(s[..n])
            && (n < limit && n < |s| ==> AtEnd(s[..n]))
    decreases limit
  {
    if limit != 0 && s != [] && s[0] != NEWLINE {
      LineLengthEnds(s[1..], limit - 1);
      var n := LineLength(s, limit);
      assert forall i :: 1 <= i < n ==> s[..n][i] == s[1..][..n - 1][i - 1];
    }
  }

  /** A line as read ends in a newline, fills the buffer, or is the last one; it has no newline inside. */
  lemma {:induction false} ChunkEnds(s: seq<byte>, i: nat)
    requires i < |Split(s)|
    ensures OneLine(Split(s)[i])
    ensures AtEnd(Split(s)[i]) || |Split(s)[i]| == 8191 || i == |Split(s)| - 1
    decreases |s|
  {
    var n := LineLength(s, LINE_SIZE - 1);
    LineLengthEnds(s, LINE_SIZE - 1);
    if i > 0 {
      ChunkEnds(s[n..], i - 1);
    } else if n == |s| {
      assert Split(s[n..]) == [];
    }
  }

  lemma OneLineFront(text: seq<byte>, front: seq<byte>)
    requires OneLine(text) && front <= text
    ensures OneLine(front)
  {
  }

  /** A module name that was read has no newline: its quote is still on the line. */
  lemma NameIsInside(line: seq<byte>)
    requires OneLine(line) && ScanModule(line).Some?
    ensures NEWLINE !in ScanModule(line).value.0
  {
    var i := Find(line, MODULE_NAME).value;
    var after := line[i + 13..];
    var n := NameLength(after, NAME_SIZE - 1);
    assert after[n..] != [];
    forall k | 0 <= k < n
      ensures after[..n][k] != NEWLINE
    {
      assert after[..n][k] == line[i + 13 + k];
    }
  }

  lemma AnnotationIsALine(name: seq<byte>, symbol: Symbol)
    requires NEWLINE !in name
    ensures OneLine(AnnotationText(name, symbol)) && AtEnd(AnnotationText(name, symbol))
  {
    var front := if name != [] then IOP_LABEL + name + IOP_LABEL_END else EE_LABEL;
    assert NEWLINE !in IOP_LABEL && NEWLINE !in IOP_LABEL_END && NEWLINE !in EE_LABEL;
    assert NEWLINE !in front + symbol;
    assert AnnotationText(name, symbol) == (front + symbol) + [NEWLINE];
  }

  lemma {:induction false} ShownPieces(config: Config, lines: seq<seq<byte>>, answers: seq<Answer>)
    requires forall i :: 0 <= i < |lines| ==> OneLine(lines[i])
    ensures OneLinePieces(Shown(config, lines, answers))
  {
    if lines != [] {
      var last := |lines| - 1;
      ShownPieces(config, lines[..last], answers);
      var (call, answer) := CallAt(config, lines, answers, last);
      LinePiecesAreLines(config, Run(config, Scans(lines[..last])).0, lines[last], last, answer);
      OneLineAppend(Shown(config, lines[..last], answers), LinePieces(lines[last], call, answer));
    }
  }

  lemma OneLineAppend(a: seq<Piece>, b: seq<Piece>)
    requires OneLinePieces(a) && OneLinePieces(b)
    ensures OneLinePieces(a + b)
  {
  }

  lemma LinePiecesAreLines(config: Config, waiting: Processor, line: seq<byte>, at: nat, answer: Answer)
    requires OneLine(line)
    ensures OneLinePieces(LinePieces(line, Step(config, waiting, ScanLine(line), at).1, answer))
  {
    var call := Step(config, waiting, ScanLine(line), at).1;
    if call.Some? {
      if ScanModule(line).Some? { NameIsInside(line); }
      AnnotationIsALine(call.value.name, answer.symbol);
    }
  }

  /**
   For every log without a null: the annotations are whole lines of the output exactly when every
   annotated line as read ends in a newline, and then deleting just those lines gives the log back.
   */
  lemma AnnotatedLogKeepsTheLog(config: Config, input: seq<byte>, answers: seq<Answer>)
    requires 0 !in input
    ensures var lines := Texts(Split(input));
            var pieces := Shown(config, lines, answers);
            && (OwnLines(pieces) <==> AnnotatedEnd(config, lines, answers))
            && Originals(pieces) == input
            && (OwnLines(pieces) ==> exists marks :: Tells(pieces, marks))
  {
    var lines := Texts(Split(input));
    var pieces := Shown(config, lines, answers);
    OwnLinesIff(config, lines, answers);
    OriginalsAreTheLines(config, lines, answers);
    OutputIsTheInput(input);
    forall i | 0 <= i < |lines|
      ensures OneLine(lines[i])
    {
      ChunkEnds(input, i);
      OneLineFront(Split(input)[i], lines[i]);
    }
    ShownPieces(config, lines, answers);
    if OwnLines(pieces) {
      var marks := AnnotationsCanBeDeleted(pieces);
    }
  }

  // ---------- A log whose annotation cannot be deleted ----------

  /** The last line of a log, without a newline: a header and an address. */
  function CutOffLog(): seq<byte> {
    EE_HEADER + [32] + EPC + [49]
  }

  lemma LetterOf(text: seq<byte>, word: seq<byte>, i: int, k: nat)
    requires k < |word|
    ensures OccursAt(text, word, i) ==> text[i + k] == word[k]
  {
    if OccursAt(text, word, i) {
      assert text[i..i + |word|][k] == text[i + k];
    }
  }

  /** A word whose second letter is nowhere before it. */
  lemma FirstWord(front: seq<byte>, word: seq<byte>, rest: seq<byte>)
    requires 2 <= |word| && word[1] !in front && word[0] != word[1]
    ensures FirstAt(front + word + rest, word, |front|)
  {
    var text := front + word + rest;
    assert text[|front|..|front| + |word|] == word;
    forall j | 0 <= j < |front|
      ensures !OccursAt(text, word, j)
    {
      assert text[j + 1] == if j + 1 < |front| then front[j + 1] else word[0];
      LetterOf(text, word, j, 1);
    }
  }

  /** A word whose third letter is nowhere in the front, and which is too long for the rest. */
  lemma NoWord(front: seq<byte>, rest: seq<byte>, word: seq<byte>)
    requires 3 <= |word| && word[2] !in front && |rest| + 3 <= |word|
    ensures !Contains(front + rest, word)
  {
    forall j
      ensures !OccursAt(front + rest, word, j)
    {
      assert 0 <= j && j + 2 < |front| ==> (front + rest)[j + 2] == front[j + 2];
      LetterOf(front + rest, word, j, 2);
    }
  }

  lemma CutOffLetters()
    ensures |EE_HEADER| == 21 && |IOP_HEADER| == 22 && |EPC| == 4
    ensures EPC[3..] == [32] && EPC[1] == IOP_HEADER[2] == 80 && EPC[0] != 80 && 80 !in EE_HEADER
    ensures NEWLINE !in EE_HEADER && 0 !in EE_HEADER && NEWLINE !in EPC && 0 !in EPC
  {
  }

  lemma CutOffHeader()
    ensures Header(CutOffLog()) == EE
  {
    CutOffLetters();
    var line := CutOffLog();
    assert line[0..|EE_HEADER|] == EE_HEADER;
    assert OccursAt(line, EE_HEADER, 0);
    NoWord(EE_HEADER + [32], EPC + [49], IOP_HEADER);
    assert (EE_HEADER + [32]) + (EPC + [49]) == line;
  }

  lemma EndOfWord(front: seq<byte>, word: seq<byte>, rest: seq<byte>, k: nat)
    requires k <= |word|
    ensures (front + word + rest)[|front| + k..] == word[k..] + rest
  {
  }

  lemma CutOffAddress()
    ensures ScanEpc(CutOffLog()) == Some(1)
  {
    CutOffLetters();
    var (line, front) := (CutOffLog(), EE_HEADER + [32]);
    FirstWord(front, EPC, [49]);
    FindIsFirst(line, EPC, |front|);
    EndOfWord(front, EPC, [49], 3);
    ScanOne(line[|front| + 3..]);
  }

  /** A space and the digit 1. */
  lemma ScanOne(s: seq<byte>)
    requires s == [32, 49]
    ensures ScanHex(s) == Some(1)
  {
    assert s[1..] == [49];
    assert SkipSpace(s) == [49];
    assert [49][1..] == [];
    assert HexValue([], 1) == 1;
    assert HexValue([49], 0) == 1;
  }

  lemma {:induction false} WholeLineLength(s: seq<byte>, limit: nat)
    requires NEWLINE !in s && |s| <= limit
    ensures LineLength(s, limit) == |s|
    decreases limit
  {
    if s != [] {
      WholeLineLength(s[1..], limit - 1);
    }
  }

  lemma SplitOnce(s: seq<byte>, n: nat)
    requires s != [] && n == LineLength(s, LINE_SIZE - 1)
    ensures Split(s) == [s[..n]] + Split(s[n..])
  {
  }

  lemma TextOfOne(s: seq<byte>)
    requires 0 !in s
    ensures Texts([s]) == [s]
  {
    assert CString(s) == s;
  }

  lemma OneChunk(s: seq<byte>)
    requires s != [] && |s| < LINE_SIZE && NEWLINE !in s && 0 !in s
    ensures Texts(Split(s)) == [s]
  {
    assert Split(s) == [s] by {
      WholeLineLength(s, LINE_SIZE - 1);
      SplitOnce(s, |s|);
      assert s[..|s|] == s && s[|s|..] == [];
    }
    TextOfOne(s);
  }

  lemma CutOffShown(elf: seq<byte>, symbol: Symbol)
    ensures Shown(Config(Some(elf), []), [CutOffLog()], [Answer(1, symbol)]) ==
            [Log(CutOffLog()), Annotation(AnnotationText([], symbol))]
  {
    var (config, lines) := (Config(Some(elf), []), [CutOffLog()]);
    CutOffHeader();
    CutOffAddress();
    assert lines[..0] == [];
    assert Scans([]) == [];
    assert Run(config, []) == (Neither, []);
  }

  /** When all of the output is one line that is longer than the log, no deletion of lines gives the log. */
  lemma OneLineIsLost(log: seq<byte>, text: seq<byte>)
    requires log != [] && text != [] && OneLine(log + text)
    ensures forall marks :: |marks| == |TextLines(log + text)| ==> Kept(TextLines(log + text), marks) != log
  {
    var out := log + text;
    TextLinesMore([], out);
    assert [] + out == out;
    assert TextLines(out) == [out];
    forall marks: seq<bool> | |marks| == 1
      ensures Kept([out], marks) != log
    {
      KeptOfOne(out, marks);
    }
  }

  lemma KeptOfOne(line: seq<byte>, marks: seq<bool>)
    requires |marks| == 1
    ensures Kept([line], marks) == if marks[0] then [] else line
  {
    assert marks[..0] == [] && [line][..0] == [];
    assert Kept([], []) == [];
  }

  lemma WrittenPair(a: Piece, b: Piece)
    ensures Written([a, b]) == a.text + b.text
  {
    assert [a, b][..1] == [a] && [a][..0] == [];
    assert Written([]) == [] && [] + a.text == a.text;
    assert Written([a]) == a.text;
  }

  /**
   With a last line that has a header and an address and no newline, whatever the symbol: no deletion
   of lines of the output gives the log back.
   */
  lemma CutOffLogIsLost(elf: seq<byte>, symbol: Symbol)
    ensures var out := Written(Shown(Config(Some(elf), []), Texts(Split(CutOffLog())), [Answer(1, symbol)]));
            forall marks :: |marks| == |TextLines(out)| ==> Kept(TextLines(out), marks) != CutOffLog()
  {
    var (log, text) := (CutOffLog(), AnnotationText([], symbol));
    CutOffLetters();
    OneChunk(log);
    CutOffShown(elf, symbol);
    WrittenPair(Log(log), Annotation(text));
    AnnotationIsALine([], symbol);
    assert OneLine(log + text);
    OneLineIsLost(log, text);
  }
}
