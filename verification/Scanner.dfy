/**
 The console marker scanner: a 4096-byte line buffer fed one byte at a time,
 and the latch that the first line with the marker sets.
 */
module Scanner {
  import opened Bytes

  const LINE_SIZE := 4096
  const KEEP := 256
  const NEWLINE: byte := 10
  const RETURN: byte := 13
  const STATUS_FIELD: seq<byte> := [115, 116, 97, 116, 117, 115, 61] // status=

  /** The scanner as a value: the latch, and the contents of the line buffer. */
  datatype ScanState = ScanState(seen: bool, status: int32, line: seq<byte>)

  const Fresh := ScanState(false, 0, [])

  /** The number after the first "status=" of `text`, converted to int; 0 if there is none. */
  function StatusOf(text: seq<byte>): int32 {
    match Find(text, STATUS_FIELD)
    case None => 0
    case Some(i) => Signed(Strtol(text[i + 7..]))
  }

  /** The status a line gives, or None when the line does not contain the marker. */
  function LineStatus(line: seq<byte>, marker: seq<byte>): Option<int32> {
    match Find(line, marker)
    case None => None
    case Some(i) => Some(StatusOf(line[i..]))
  }

  function LineChecked(st: ScanState, marker: seq<byte>): ScanState {
    if st.seen then st else
      match LineStatus(st.line, marker)
      case None => st
      case Some(v) => st.(seen := true, status := v)
  }

  /** What the main loop does with a line that has not ended yet. */
  function PartialChecked(st: ScanState, marker: Option<seq<byte>>): ScanState {
    if marker.Some? && !st.seen && st.line != [] then LineChecked(st, marker.value) else st
  }

  function Put(line: seq<byte>, c: byte): seq<byte> {
    (if |line| == LINE_SIZE - 1 then line[|line| - KEEP..] else line) + [c]
  }

  function Step(st: ScanState, marker: seq<byte>, c: byte): ScanState {
    if c == NEWLINE then LineChecked(st, marker).(line := [])
    else if c == RETURN || c == 0 then st
    else st.(line := Put(st.line, c))
  }

  /** The scanner run over a stretch of console bytes. */
  function Scan(st: ScanState, marker: seq<byte>, bytes: seq<byte>): ScanState {
    if bytes == [] then st
    else Step(Scan(st, marker, bytes[..|bytes| - 1]), marker, bytes[|bytes| - 1])
  }

  function Scanned(st: ScanState, marker: Option<seq<byte>>, bytes: seq<byte>): ScanState {
    if marker.None? then st else Scan(st, marker.value, bytes)
  }

  ghost predicate Fits(st: ScanState) {
    |st.line| < LINE_SIZE && 0 !in st.line
  }

  lemma {:induction false} ScanFits(st: ScanState, marker: seq<byte>, bytes: seq<byte>)
    requires Fits(st)
    ensures Fits(Scan(st, marker, bytes))
  {
    if bytes != [] {
      ScanFits(st, marker, bytes[..|bytes| - 1]);
    }
  }

  /** The globals the scanner updates in place. */
  class Console {
    const marker: Option<seq<byte>>
    const line: array<byte>
    var lineLength: nat
    var seen: bool
    var status: int32

    ghost predicate Valid()
      reads this, line
    {
      line.Length == LINE_SIZE && lineLength < LINE_SIZE && 0 !in line[..lineLength]
    }

    ghost function State(): ScanState
      reads this, line
      requires Valid()
    {
      ScanState(seen, status, line[..lineLength])
    }

    constructor (marker: Option<seq<byte>>)
      ensures Valid() && fresh(line) && this.marker == marker && State() == Fresh
    {
      this.marker := marker;
      line := new byte[LINE_SIZE];
      lineLength, seen, status := 0, false, 0;
    }

    method CheckLine()
      requires Valid() && marker.Some?
      modifies this`seen, this`status, line
      ensures Valid() && State() == LineChecked(old(State()), marker.value)
    {
      ghost var text := line[..lineLength];
      line[lineLength] := 0;
      assert line[..] == text + [0] + line[lineLength + 1..];
      CStringStops(text, line[lineLength + 1..]);
      var ended := CString(line[..]);
      assert line[..lineLength] == ended == text;
      if seen { return; }
      var found := Find(ended, marker.value);
      if found.None? { return; }
      status := StatusOf(ended[found.value..]);
      seen := true;
    }

    /** The partial-line check at the main loop's two decision points. */
    method CheckPartial()
      requires Valid()
      modifies this`seen, this`status, line
      ensures Valid() && State() == PartialChecked(old(State()), marker)
    {
      if marker.Some? && !seen && lineLength > 0 { CheckLine(); }
    }

    /** memmove of the last `keep` bytes to the front. */
    method MoveEndToFront(keep: nat)
      requires Valid() && keep <= lineLength
      modifies line
      ensures line[..keep] == old(line[lineLength - keep..lineLength])
    {
      ghost var end := line[lineLength - keep..lineLength];
      forall i | 0 <= i < keep {
        line[i] := line[lineLength - keep + i];
      }
      assert forall i :: 0 <= i < keep ==> line[..keep][i] == end[i];
    }

    method ScanConsole(buffer: array<byte>, size: int)
      requires Valid() && buffer != line && 0 <= size <= buffer.Length
      modifies this, line
      ensures Valid() && State() == Scanned(old(State()), marker, buffer[..size])
    {
      if marker.None? { return; }
      ghost var start := State();
      assert buffer[..0] == [];
      for loop0 := 0 to size
        invariant Valid() && State() == Scan(start, marker.value, buffer[..loop0])
        invariant buffer[..] == old(buffer[..])
      {
        var c := buffer[loop0];
        assert buffer[..loop0 + 1][..loop0] == buffer[..loop0];
        if c == NEWLINE { CheckLine(); lineLength := 0; continue; }
        if c == RETURN || c == 0 { continue; }
        ghost var before := line[..lineLength];
        if lineLength == line.Length - 1 {
          MoveEndToFront(KEEP);
          lineLength := KEEP;
        }
        line[lineLength] := c;
        lineLength := lineLength + 1;
        assert line[..lineLength] == Put(before, c);
      }
    }
  }
}
