/**
 The main loop beside the console and request threads. Every action is one stretch
 of one thread between two releases of the lock, or time passing; a run is any
 schedule of actions, so a lemma about all schedules is about all interleavings.
 An action that is not enabled leaves the state as it is.
 */
module MainLoop {
  import opened Bytes
  import opened Scanner
  import opened ConsoleMeaning

  const EXIT_OK: int32 := 0
  const EXIT_CONNLOST: int32 := 74
  const EXIT_TIMEOUT: int32 := 124

  /** What is fixed before the loop starts. `listening` and `serving`: the thread exists. */
  datatype Setup = Setup(marker: Option<seq<byte>>, timeout: int, listening: bool, serving: bool)

  datatype Reason = AtOnce | MarkerLine | ConnectionLost | IdleTimeout

  datatype MainAt =
    | Starting
    | Looking
    | Deciding(activity: int, lost: bool)
    | Flushing(until: int)
    | TimedOut
    | Napping(until: int)
    | Exited(status: int32, why: Reason)

  datatype ConsoleAt = Receiving | Stamping

  datatype RequestAt = Serving | Served | Gone

  /**
   The last line is history: all console output scanned so far, the clock when the loop began and
   when the connection was lost, and the last activity the loop knew of at its latest look.
   */
  datatype State = State(
    clock: int, activity: int, lost: bool, scan: ScanState,
    main: MainAt, console: ConsoleAt, request: RequestAt,
    fed: seq<byte>, started: int, lostAt: int, looked: int)

  datatype Action =
    | Tick(ms: nat)
    | Packet(bytes: seq<byte>)
    | StampConsole
    | ServeRequest
    | StampRequest
    | HangUp
    | Main

  function Initial(clock: int): State {
    State(clock, clock, false, Fresh, Starting, Receiving, Serving, [], clock, clock, clock)
  }

  function ExitOfMarker(status: int32): int32 {
    status % 256
  }

  /** The exit status when the loop gives up: the latch wins over the reason to give up. */
  function GiveUp(u: Setup, s: State, otherwise: int32, why: Reason): State {
    var scan := PartialChecked(s.scan, u.marker);
    s.(scan := scan, main := Exited(if scan.seen then ExitOfMarker(scan.status) else otherwise, why))
  }

  function MainStep(u: Setup, s: State): State {
    match s.main
    case Starting =>
      if u.timeout == 0 then s.(main := Exited(EXIT_OK, AtOnce))
      else s.(activity := s.clock, started := s.clock, main := Looking)
    case Looking =>
      if s.scan.seen then s.(main := Exited(ExitOfMarker(s.scan.status), MarkerLine))
      else s.(main := Deciding(s.activity, s.lost), looked := s.activity)
    case Deciding(activity, lost) =>
      if lost then s.(main := Flushing(s.clock + 500))
      else if u.timeout > 0 && s.clock - activity >= u.timeout * 1000 then s.(main := TimedOut)
      else s.(main := Napping(s.clock + 20))
    case Flushing(until) =>
      if s.clock < until then s else GiveUp(u, s, EXIT_CONNLOST, ConnectionLost)
    case TimedOut =>
      GiveUp(u, s, if u.marker.Some? then EXIT_TIMEOUT else EXIT_OK, IdleTimeout)
    case Napping(until) =>
      if s.clock < until then s else s.(main := Looking)
    case Exited(_, _) => s
  }

  function Act(u: Setup, s: State, a: Action): State {
    match a
    case Tick(ms) => s.(clock := s.clock + ms)
    case Packet(bytes) =>
      if u.listening && s.console.Receiving?
      then s.(scan := Scanned(s.scan, u.marker, bytes), fed := s.fed + bytes, console := Stamping)
      else s
    case StampConsole => if s.console.Stamping? then s.(activity := s.clock, console := Receiving) else s
    case ServeRequest => if u.serving && s.request.Serving? then s.(request := Served) else s
    case StampRequest => if s.request.Served? then s.(activity := s.clock, request := Serving) else s
    case HangUp => if u.serving && s.request.Serving? then s.(lost := true, request := Gone, lostAt := s.clock) else s
    case Main => MainStep(u, s)
  }

  function Run(u: Setup, start: int, schedule: seq<Action>): State {
    if schedule == [] then Initial(start)
    else Act(u, Run(u, start, schedule[..|schedule| - 1]), schedule[|schedule| - 1])
  }

  // ---------- What every step keeps ----------

  ghost predicate Inv(u: Setup, s: State) {
    && s.activity <= s.clock
    && (s.lost ==> u.serving && s.request.Gone? && s.lostAt <= s.clock)
    && (!s.main.Exited? ==> s.scan == Scanned(Fresh, u.marker, s.fed))
    && (!s.main.Exited? && !s.main.Starting? ==> u.timeout != 0 && s.started <= s.activity)
    && (s.main.Deciding? ==> s.started <= s.main.activity == s.looked && (s.main.lost ==> s.lost))
    && (s.main.Flushing? ==> s.lost && s.main.until >= s.lostAt + 500)
    && (s.main.TimedOut? ==> u.timeout > 0 && s.started <= s.looked <= s.clock - u.timeout * 1000)
  }

  lemma ActKeepsInv(u: Setup, s: State, a: Action)
    requires Inv(u, s)
    ensures Inv(u, Act(u, s, a))
  {
    if a.Packet? && u.marker.Some? {
      ScanAppend(Fresh, u.marker.value, s.fed, a.bytes);
    }
  }

  lemma {:induction false} RunInv(u: Setup, start: int, schedule: seq<Action>)
    ensures Inv(u, Run(u, start, schedule))
  {
    if schedule != [] {
      RunInv(u, start, schedule[..|schedule| - 1]);
      ActKeepsInv(u, Run(u, start, schedule[..|schedule| - 1]), schedule[|schedule| - 1]);
    }
  }

  // ---------- What an exit means ----------

  /** The status from the first marker line among the ended lines of the output. */
  function EndedVerdict(marker: Option<seq<byte>>, fed: seq<byte>): Option<int32> {
    if marker.None? then None else Verdict(Lines(fed), marker.value)
  }

  /** The ended lines, and the line that has not ended unless it is empty. */
  function AllLines(fed: seq<byte>): seq<seq<byte>> {
    if OpenLine(fed) == [] then Lines(fed) else Lines(fed) + [OpenLine(fed)]
  }

  /** The same, with the line that has not ended taken as the last line. */
  function FullVerdict(marker: Option<seq<byte>>, fed: seq<byte>): Option<int32> {
    if marker.None? then None else Verdict(AllLines(fed), marker.value)
  }

  function StatusOr(verdict: Option<int32>, otherwise: int32): int32 {
    if verdict.Some? then ExitOfMarker(verdict.value) else otherwise
  }

  /** Why an exit out of state `s` is right, told from the console output and the clock alone. */
  ghost predicate Justified(u: Setup, s: State, status: int32, why: Reason) {
    match why
    case AtOnce => u.timeout == 0 && status == EXIT_OK
    case MarkerLine =>
      u.timeout != 0 && EndedVerdict(u.marker, s.fed).Some? && status == StatusOr(EndedVerdict(u.marker, s.fed), 0)
    case ConnectionLost =>
      u.serving && s.lost && s.clock >= s.lostAt + 500 && status == StatusOr(FullVerdict(u.marker, s.fed), EXIT_CONNLOST)
    case IdleTimeout =>
      && u.timeout > 0 && s.started <= s.looked <= s.clock - u.timeout * 1000
      && status == StatusOr(FullVerdict(u.marker, s.fed), if u.marker.Some? then EXIT_TIMEOUT else EXIT_OK)
  }

  lemma EndedMeaning(marker: Option<seq<byte>>, fed: seq<byte>)
    ensures var scan := Scanned(Fresh, marker, fed);
            EndedVerdict(marker, fed) == if scan.seen then Some(scan.status) else None
  {
    if marker.Some? {
      ScanLatch(marker.value, fed);
    }
  }

  lemma VerdictAppend(lines: seq<seq<byte>>, line: seq<byte>, marker: seq<byte>)
    ensures Verdict(lines + [line], marker) ==
            if Verdict(lines, marker).Some? then Verdict(lines, marker) else LineStatus(Window(line), marker)
  {
    assert (lines + [line])[..|lines|] == lines;
  }

  /** An ended line decides before the open one. */
  lemma EndedFirst(marker: Option<seq<byte>>, fed: seq<byte>)
    ensures EndedVerdict(marker, fed).Some? ==> FullVerdict(marker, fed) == EndedVerdict(marker, fed)
  {
    if marker.Some? {
      VerdictAppend(Lines(fed), OpenLine(fed), marker.value);
    }
  }

  /** Checking the open line adds it as a last line. */
  lemma PartialLatch(st: ScanState, marker: seq<byte>, lines: seq<seq<byte>>, line: seq<byte>)
    requires Latch(st, lines, marker) && st.line == Window(line) && line != []
    ensures Latch(PartialChecked(st, Some(marker)), lines + [line], marker)
  {
    LatchAtNewline(st, lines, line, marker);
    if st.seen {
      VerdictAppend(lines, line, marker);
    }
  }

  lemma FullLatch(marker: seq<byte>, fed: seq<byte>)
    ensures Latch(PartialChecked(Scan(Fresh, marker, fed), Some(marker)), AllLines(fed), marker)
  {
    ScanLatch(marker, fed);
    if OpenLine(fed) != [] {
      PartialLatch(Scan(Fresh, marker, fed), marker, Lines(fed), OpenLine(fed));
    }
  }

  lemma FullMeaning(marker: Option<seq<byte>>, fed: seq<byte>)
    ensures var scan := PartialChecked(Scanned(Fresh, marker, fed), marker);
            FullVerdict(marker, fed) == if scan.seen then Some(scan.status) else None
  {
    if marker.Some? {
      FullLatch(marker.value, fed);
    }
  }

  lemma ExitStep(u: Setup, s: State, a: Action)
    requires Inv(u, s) && !s.main.Exited? && Act(u, s, a).main.Exited?
    ensures Justified(u, s, Act(u, s, a).main.status, Act(u, s, a).main.why)
  {
    EndedMeaning(u.marker, s.fed);
    FullMeaning(u.marker, s.fed);
  }

  /**
   At point `j` the loop was about to look and saw no marker; `lost` is whether it saw the connection
   lost, and `looked` was the shared time of the last activity.
   */
  ghost predicate LookedAt(u: Setup, start: int, schedule: seq<Action>, j: int, lost: bool, looked: int) {
    && 0 <= j <= |schedule|
    && var s := Run(u, start, schedule[..j]);
    && s.main.Looking? && !s.scan.seen && s.lost == lost && s.activity == looked
  }

  ghost predicate Looked(u: Setup, start: int, schedule: seq<Action>, lost: bool) {
    exists j :: LookedAt(u, start, schedule, j, lost, Run(u, start, schedule).looked)
  }

  /** What the loop judges by is what it saw at its look, and for idleness the connection was not lost then. */
  lemma {:induction false} LookedIsActivity(u: Setup, start: int, schedule: seq<Action>)
    requires var main := Run(u, start, schedule).main; main.Deciding? || main.TimedOut?
    ensures var main := Run(u, start, schedule).main; Looked(u, start, schedule, main.Deciding? && main.lost)
  {
    var (before, a) := (schedule[..|schedule| - 1], schedule[|schedule| - 1]);
    var (s, t) := (Run(u, start, before), Run(u, start, schedule));
    if s.main.Looking? {
      assert LookedAt(u, start, schedule, |before|, t.main.lost, t.looked);
    } else {
      StillJudging(u, s, a);
      LookedIsActivity(u, start, before);
      LookedEarlier(u, start, schedule, t.main.Deciding? && t.main.lost);
    }
  }

  lemma StillJudging(u: Setup, s: State, a: Action)
    requires !s.main.Looking? && (Act(u, s, a).main.Deciding? || Act(u, s, a).main.TimedOut?)
    ensures var t := Act(u, s, a);
            && (s.main.Deciding? || s.main.TimedOut?) && t.looked == s.looked
            && (t.main.Deciding? && t.main.lost <==> s.main.Deciding? && s.main.lost)
  {
  }

  lemma LookedEarlier(u: Setup, start: int, schedule: seq<Action>, lost: bool)
    requires schedule != [] && Looked(u, start, schedule[..|schedule| - 1], lost)
    requires Run(u, start, schedule).looked == Run(u, start, schedule[..|schedule| - 1]).looked
    ensures Looked(u, start, schedule, lost)
  {
    var before := schedule[..|schedule| - 1];
    var looked := Run(u, start, before).looked;
    var j :| LookedAt(u, start, before, j, lost, looked);
    assert schedule[..j] == before[..j];
    assert LookedAt(u, start, schedule, j, lost, looked);
  }

  /** The actions before the one that ended the main loop. */
  ghost function Before(u: Setup, start: int, schedule: seq<Action>): (before: seq<Action>)
    requires Run(u, start, schedule).main.Exited?
    ensures before < schedule
  {
    var earlier := schedule[..|schedule| - 1];
    if Run(u, start, earlier).main.Exited? then Before(u, start, earlier) else earlier
  }

  lemma {:induction false} BeforeExit(u: Setup, start: int, schedule: seq<Action>, exit: MainAt)
    requires exit.Exited? && Run(u, start, schedule).main == exit
    ensures var before := Before(u, start, schedule);
            !Run(u, start, before).main.Exited? && Run(u, start, schedule[..|before| + 1]).main == exit
  {
    var earlier := schedule[..|schedule| - 1];
    var before := Before(u, start, schedule);
    if Run(u, start, earlier).main.Exited? {
      BeforeExit(u, start, earlier, exit);
      assert schedule[..|before| + 1] == earlier[..|before| + 1];
    } else {
      assert schedule[..|before| + 1] == schedule;
    }
  }

  /** The run ends the main loop with `exit`, decided in state `s`. */
  ghost predicate Ends(u: Setup, start: int, schedule: seq<Action>, s: State, exit: MainAt) {
    exit.Exited? && Run(u, start, schedule).main == exit && Run(u, start, Before(u, start, schedule)) == s
  }

  lemma ExitAction(u: Setup, start: int, schedule: seq<Action>, s: State, exit: MainAt) returns (a: Action)
    requires Ends(u, start, schedule, s, exit)
    ensures Inv(u, s) && !s.main.Exited? && Act(u, s, a).main == exit
  {
    var before := Before(u, start, schedule);
    a := schedule[|before|];
    BeforeExit(u, start, schedule, exit);
    assert schedule[..|before| + 1][..|before|] == before;
    RunInv(u, start, before);
  }

  /**
   Under every interleaving an exit goes back to one decision, justified where it was made; an idle
   exit is judged by the last activity known at a look that found neither a marker nor a lost connection.
   */
  lemma ExitJustified(u: Setup, start: int, schedule: seq<Action>, s: State, exit: MainAt)
    requires Ends(u, start, schedule, s, exit)
    ensures Justified(u, s, exit.status, exit.why)
    ensures exit.why.IdleTimeout? ==> Looked(u, start, Before(u, start, schedule), false)
  {
    var a := ExitAction(u, start, schedule, s, exit);
    ExitStep(u, s, a);
    if exit.why.IdleTimeout? {
      assert s.main.TimedOut?;
      LookedIsActivity(u, start, Before(u, start, schedule));
    }
  }

  /** In every run: a marker that has been scanned by the decision, ended line or not, always gives the status. */
  lemma LatchedMarkerWins(u: Setup, start: int, schedule: seq<Action>, s: State, exit: MainAt)
    requires Ends(u, start, schedule, s, exit) && u.timeout != 0
    ensures EndedVerdict(u.marker, s.fed).Some? ==> exit.status == ExitOfMarker(EndedVerdict(u.marker, s.fed).value)
    ensures !exit.why.MarkerLine? && FullVerdict(u.marker, s.fed).Some? ==>
              exit.status == ExitOfMarker(FullVerdict(u.marker, s.fed).value)
  {
    ExitJustified(u, start, schedule, s, exit);
    EndedFirst(u.marker, s.fed);
  }

  /** In every run: a program whose first marker line prints a number after "status=" gives its low byte as the exit status. */
  lemma PrintedStatusIsExit(u: Setup, start: int, schedule: seq<Action>, s: State, exit: MainAt, marker: seq<byte>,
                            k: nat, before: seq<byte>, head: seq<byte>, spaces: seq<byte>, sign: Sign, n: nat, after: seq<byte>)
    requires Ends(u, start, schedule, s, exit) && u.timeout != 0 && u.marker == Some(marker)
    requires FirstMarkerLine(s.fed, marker, k, |before|)
    requires Lines(s.fed)[k] == StatusLine(before, head, Printed(spaces, sign, n), after)
    requires n < 0x8000_0000_0000_0000 && Blank(spaces) && NumberEnds(after)
    requires FirstAt(head, STATUS_FIELD, |head| - 7)
    ensures exit.status == SignedNumber(sign, n) % 256
  {
    PrintedExit(s.fed, k, marker, before, head, spaces, sign, n, after);
    EndedMeaning(u.marker, s.fed);
    LatchedMarkerWins(u, start, schedule, s, exit);
  }

  /** In every run: when the first marker line has no "status=" from the marker on, the exit status is 0. */
  lemma PlainMarkerIsExit0(u: Setup, start: int, schedule: seq<Action>, s: State, exit: MainAt, marker: seq<byte>, k: nat, i: nat)
    requires Ends(u, start, schedule, s, exit) && u.timeout != 0 && u.marker == Some(marker)
    requires FirstMarkerLine(s.fed, marker, k, i)
    requires forall j :: i <= j ==> !OccursAt(Lines(s.fed)[k], STATUS_FIELD, j)
    ensures exit.status == 0
  {
    PlainExit(s.fed, k, marker, i);
    EndedMeaning(u.marker, s.fed);
    LatchedMarkerWins(u, start, schedule, s, exit);
  }

  /** In every run: without any marker in the output up to the decision, the status tells the reason. */
  lemma StatusTellsReason(u: Setup, start: int, schedule: seq<Action>, s: State, exit: MainAt)
    requires Ends(u, start, schedule, s, exit) && FullVerdict(u.marker, s.fed).None?
    ensures exit.status in {EXIT_OK, EXIT_CONNLOST, EXIT_TIMEOUT}
    ensures exit.status == EXIT_CONNLOST <==> exit.why.ConnectionLost?
    ensures exit.status == EXIT_TIMEOUT <==> exit.why.IdleTimeout? && u.marker.Some?
    ensures exit.status == EXIT_OK <==> exit.why.AtOnce? || (exit.why.IdleTimeout? && u.marker.None?)
  {
    ExitJustified(u, start, schedule, s, exit);
    EndedFirst(u.marker, s.fed);
  }

  // ---------- Progress ----------

  /** What the other threads and the clock do between two steps of the main loop. */
  ghost predicate Others(actions: seq<Action>) {
    forall i :: 0 <= i < |actions| ==> !actions[i].Main?
  }

  function Go(u: Setup, s: State, actions: seq<Action>): State {
    if actions == [] then s else Act(u, Go(u, s, actions[..|actions| - 1]), actions[|actions| - 1])
  }

  lemma {:induction false} OthersGo(u: Setup, s: State, actions: seq<Action>)
    requires Inv(u, s) && Others(actions)
    ensures var t := Go(u, s, actions);
            && Inv(u, t) && t.main == s.main && t.started == s.started && t.looked == s.looked && t.clock >= s.clock
            && (s.lost ==> t.lost) && (s.scan.seen ==> t.scan.seen)
  {
    if actions != [] {
      var before := actions[..|actions| - 1];
      OthersGo(u, s, before);
      OtherAct(u, Go(u, s, before), actions[|actions| - 1]);
    }
  }

  lemma OtherAct(u: Setup, s: State, a: Action)
    requires Inv(u, s) && !a.Main?
    ensures var t := Act(u, s, a);
            && Inv(u, t) && t.main == s.main && t.started == s.started && t.looked == s.looked && t.clock >= s.clock
            && (s.lost ==> t.lost) && (s.scan.seen ==> t.scan.seen)
  {
    ActKeepsInv(u, s, a);
    if a.Packet? && s.scan.seen {
      LatchIsFinal(s.scan, u.marker, a.bytes);
    }
  }

  /** What ends the loop when it judges `x`, the state at its look, in state `y`; None when it goes on. */
  function Judged(u: Setup, x: State, y: State, fed: seq<byte>): Option<MainAt> {
    if x.scan.seen then Some(Exited(ExitOfMarker(x.scan.status), MarkerLine))
    else if x.lost then Some(Exited(StatusOr(FullVerdict(u.marker, fed), 74), ConnectionLost))
    else if u.timeout > 0 && y.clock - x.activity >= u.timeout * 1000 then
      Some(Exited(StatusOr(FullVerdict(u.marker, fed), if u.marker.Some? then 124 else 0), IdleTimeout))
    else None
  }

  /**
   One turn of the loop, whatever the others do meanwhile: `x` is the state at the look, `y` where it is
   judged, `z` after the wait, of 500 ms for a lost connection and of 20 ms for a nap. A marker, a lost
   connection and idleness end the loop, in this order, with the status that fits; else it looks again.
   */
  lemma OneTurn(u: Setup, s: State, o0: seq<Action>, o1: seq<Action>, o2: seq<Action>)
    requires Inv(u, s) && s.main.Looking? && Others(o0) && Others(o1) && Others(o2)
    requires var x := Go(u, s, o0); var y := Go(u, MainStep(u, x), o1);
             Go(u, MainStep(u, y), o2).clock >= y.clock + if x.lost then 500 else 20
    ensures var x := Go(u, s, o0);
            var y := Go(u, MainStep(u, x), o1);
            var z := Go(u, MainStep(u, y), o2);
            MainStep(u, z).main == match Judged(u, x, y, z.fed) case Some(exit) => exit case None => Looking
  {
    var x := Go(u, s, o0);
    OthersGo(u, s, o0);
    ActKeepsInv(u, x, Main);
    var y := Go(u, MainStep(u, x), o1);
    OthersGo(u, MainStep(u, x), o1);
    ActKeepsInv(u, y, Main);
    var z := Go(u, MainStep(u, y), o2);
    OthersGo(u, MainStep(u, y), o2);
    TurnEnds(u, x, y, z);
  }

  lemma TurnEnds(u: Setup, x: State, y: State, z: State)
    requires Inv(u, z) && x.main.Looking? && y.main == MainStep(u, x).main && z.main == MainStep(u, y).main
    requires z.clock >= y.clock + if x.lost then 500 else 20
    ensures MainStep(u, z).main == match Judged(u, x, y, z.fed) case Some(exit) => exit case None => Looking
  {
    FullMeaning(u.marker, z.fed);
  }

  /** From then on the loop can end only with a marker or as a lost connection. */
  ghost predicate SawLost(s: State) {
    && s.lost
    && match s.main
       case Looking => true
       case Deciding(_, lost) => lost
       case Flushing(_) => true
       case Exited(_, why) => why.MarkerLine? || why.ConnectionLost?
       case _ => false
  }

  /** In every run: once the loop is about to look at a lost connection, it never ends as idle. */
  lemma {:induction false} LostIsNeverIdle(u: Setup, start: int, schedule: seq<Action>, j: nat)
    requires j <= |schedule| && SawLost(Run(u, start, schedule[..j]))
    ensures SawLost(Run(u, start, schedule))
    decreases |schedule|
  {
    if j == |schedule| {
      assert schedule[..j] == schedule;
    } else {
      var before := schedule[..|schedule| - 1];
      assert before[..j] == schedule[..j];
      LostIsNeverIdle(u, start, before, j);
    }
  }

  /** Once the request thread has hung up, the connection stays lost. */
  lemma {:induction false} HangUpIsKept(u: Setup, start: int, schedule: seq<Action>, i: nat)
    requires i < |schedule| && schedule[i].HangUp? && u.serving && Run(u, start, schedule[..i]).request.Serving?
    ensures Run(u, start, schedule).lost
    decreases |schedule|
  {
    var before := schedule[..|schedule| - 1];
    if i < |before| {
      assert before[..i] == schedule[..i];
      HangUpIsKept(u, start, before, i);
    } else {
      assert before == schedule[..i];
    }
  }

  // ---------- Activity ----------

  /** The action is a thread's note of its activity. */
  ghost predicate Stamps(s: State, a: Action) {
    (a.StampConsole? && s.console.Stamping?) || (a.StampRequest? && s.request.Served?)
  }

  ghost predicate StampedAt(u: Setup, start: int, schedule: seq<Action>, i: int) {
    0 <= i < |schedule| && Stamps(Run(u, start, schedule[..i]), schedule[i])
  }

  /** Every note of activity counts from then on: no look judges by an older time. */
  lemma {:induction false} StampsCount(u: Setup, start: int, schedule: seq<Action>, i: nat)
    requires StampedAt(u, start, schedule, i)
    ensures Run(u, start, schedule[..i]).clock <= Run(u, start, schedule).activity
    decreases |schedule|
  {
    var before := schedule[..|schedule| - 1];
    RunInv(u, start, before);
    if i < |before| {
      assert before[..i] == schedule[..i];
      StampsCount(u, start, before, i);
    } else {
      assert before == schedule[..i];
    }
  }

  /** The thread has output, or a request, that it has not noted yet. */
  ghost predicate Owes(s: State, console: bool) {
    if console then s.console.Stamping? else s.request.Served?
  }

  /** The thread takes the next packet, or the next request. */
  ghost predicate Takes(u: Setup, s: State, a: Action, console: bool) {
    if console then a.Packet? && u.listening && s.console.Receiving? else a.ServeRequest? && u.serving && s.request.Serving?
  }

  ghost predicate StampedIn(u: Setup, start: int, schedule: seq<Action>, i: int, j: int) {
    exists k :: i < k < j && StampedAt(u, start, schedule, k)
  }

  /** After it has taken one, the thread owes its note until it makes it. */
  lemma {:induction false} TakenIsOwed(u: Setup, start: int, schedule: seq<Action>, i: nat, console: bool)
    requires i < |schedule| && Takes(u, Run(u, start, schedule[..i]), schedule[i], console)
    ensures Owes(Run(u, start, schedule), console) || StampedIn(u, start, schedule, i, |schedule|)
    decreases |schedule|
  {
    var before := schedule[..|schedule| - 1];
    if i < |before| {
      assert before[..i] == schedule[..i];
      TakenIsOwed(u, start, before, i, console);
      if StampedIn(u, start, before, i, |before|) {
        var k :| i < k < |before| && StampedAt(u, start, before, k);
        assert before[..k] == schedule[..k];
        assert StampedAt(u, start, schedule, k);
      } else if !Owes(Run(u, start, schedule), console) {
        assert StampedAt(u, start, schedule, |before|);
      }
    } else {
      assert before == schedule[..i];
    }
  }

  /** Between two packets, and between two requests, the thread notes its activity. */
  lemma EachIsStamped(u: Setup, start: int, schedule: seq<Action>, i: nat, j: nat, console: bool)
    requires i < j < |schedule|
    requires Takes(u, Run(u, start, schedule[..i]), schedule[i], console)
    requires Takes(u, Run(u, start, schedule[..j]), schedule[j], console)
    ensures StampedIn(u, start, schedule, i, j)
  {
    var before := schedule[..j];
    assert before[..i] == schedule[..i];
    TakenIsOwed(u, start, before, i, console);
    var k :| i < k < j && StampedAt(u, start, before, k);
    assert before[..k] == schedule[..k];
    assert StampedAt(u, start, schedule, k);
  }

  /** The exit status of a marker is a byte, the low one of the status. */
  lemma ExitIsLowByte(status: int32)
    ensures 0 <= ExitOfMarker(status) < 256 && (status - ExitOfMarker(status)) % 256 == 0
  {
  }
}
