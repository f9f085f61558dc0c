/**
 The handshake: how often the client asks, and why an answer is an answer. UDP commands may be lost,
 delayed, doubled and overtaken, and the peer may work on several of them at a time, while programs
 go on with their own file requests.
 */
module Handshake {
  import opened Bytes
  import opened Utility
  import opened Protocol
  import S = ServerSpec
  import F = ServerFacts

  // ---------- The client's loop ----------

  /**
   A monotone clock and the command port. `delays` is the time that passes before each reading and
   beyond each sleep, `late` how much of it has passed, `commands` when each DUMPREG command was sent.
   */
  class World {
    var now: int
    var delays: seq<nat>
    var commands: seq<int>
    ghost var late: nat

    constructor (now: int, delays: seq<nat>)
      ensures this.now == now && this.delays == delays && commands == [] && late == 0
    {
      this.now, this.delays, commands, late := now, delays, [], 0;
    }

    /** time_ms */
    method Time() returns (t: int)
      modifies this`now, this`delays, this`late
      ensures t == now == old(now) + (late - old(late)) && late >= old(late)
      ensures late == old(late) + if old(delays) == [] then 0 else old(delays)[0]
    {
      if delays != [] { now, late, delays := now + delays[0], late + delays[0], delays[1..]; }
      t := now;
    }

    /** sleep_ms */
    method Sleep(ms: nat)
      modifies this`now, this`delays, this`late
      ensures now == old(now) + ms + (late - old(late)) && late >= old(late)
    {
      now := now + ms;
      var _ := Time();
    }

    /** ps2link_command_dumpreg */
    method DumpRegisters()
      modifies this`commands
      ensures commands == old(commands) + [now]
    {
      commands := commands + [now];
    }
  }

  /** At least a second between any two, and all inside the time allowed. */
  ghost predicate Paced(sends: seq<int>, start: int, limit: int) {
    && (forall i :: 0 <= i < |sends| ==> start <= sends[i] < start + limit)
    && forall i :: 0 <= i < |sends| - 1 ==> sends[i] + 1000 <= sends[i + 1]
  }

  /** So there are at most as many as seconds have begun. */
  lemma {:induction false} FewSends(sends: seq<int>, start: int, limit: int)
    requires Paced(sends, start, limit)
    ensures |sends| <= Max(0, (limit + 999) / 1000)
    ensures sends != [] ==> sends[|sends| - 1] >= start + 1000 * (|sends| - 1)
  {
    assert limit + 999 < 1000 * ((limit + 999) / 1000) + 1000;
    if |sends| > 1 {
      var before := sends[..|sends| - 1];
      assert Paced(before, start, limit);
      FewSends(before, start, limit);
      assert sends[|sends| - 2] + 1000 <= sends[|sends| - 1];
    }
    assert sends != [] ==> start <= sends[|sends| - 1] < start + limit;
  }

  /** A command was sent less than a second before `t`, or at it. */
  ghost predicate Asked(sends: seq<int>, t: int) {
    exists i :: 0 <= i < |sends| && sends[i] <= t < sends[i] + 1000
  }

  lemma AskedMore(sends: seq<int>, more: seq<int>, looks: seq<int>)
    requires sends <= more && forall k :: 0 <= k < |looks| ==> Asked(sends, looks[k])
    ensures forall k :: 0 <= k < |looks| ==> Asked(more, looks[k])
  {
    forall k | 0 <= k < |looks|
      ensures Asked(more, looks[k])
    {
      var i :| 0 <= i < |sends| && sends[i] <= looks[k] < sends[i] + 1000;
      assert more[i] == sends[i];
    }
  }

  lemma AskedNow(sends: seq<int>, looks: seq<int>, now: int)
    requires forall k :: 0 <= k < |looks| ==> Asked(sends, looks[k])
    requires sends != [] && sends[|sends| - 1] <= now < sends[|sends| - 1] + 1000
    ensures forall k :: 0 <= k <= |looks| ==> Asked(sends, (looks + [now])[k])
  {
    assert Asked(sends, now);
  }

  /** Sends the command when it is time for it. */
  method SendIfDue(world: World, now: int, next: int, ghost start: int, ghost limit: int, ghost sends: seq<int>, ghost looks: seq<int>)
    returns (after: int, ghost more: seq<int>)
    requires now == world.now && start <= now < start + limit && Paced(sends, start, limit)
    requires if sends == [] then next <= now else next == sends[|sends| - 1] + 1000 <= now + 1000
    requires forall k :: 0 <= k < |looks| ==> Asked(sends, looks[k])
    modifies world`commands
    ensures more == (if now >= next then sends + [now] else sends) && more != [] && Paced(more, start, limit)
    ensures world.commands == old(world.commands) + more[|sends|..]
    ensures after == more[|more| - 1] + 1000 <= now + 1000
    ensures forall k :: 0 <= k <= |looks| ==> Asked(more, (looks + [now])[k])
  {
    after, more := next, sends;
    if now >= next {
      AskedMore(sends, sends + [now], looks);
      world.DumpRegisters();
      after, more := now + 1000, sends + [now];
    }
    AskedNow(more, looks, now);
  }

  /**
   `answers` and `losses` are what the flags will read. Returns the round trip time or -1, the first
   reading of the clock, and when each command was sent and each turn that went to sleep looked at the
   clock. All its time is 5 ms for each of these turns, and what the readings and sleeps come late.
   */
  method AwaitAnswer(world: World, timeout: int, answers: seq<bool>, losses: seq<bool>)
    returns (result: int, turns: nat, ghost start: int, ghost sends: seq<int>, ghost looks: seq<int>)
    modifies world
    ensures world.commands == old(world.commands) + sends
    ensures result >= -1
    ensures result >= 0 <==> turns < |answers| && answers[turns]
    ensures start == old(world.now) + if old(world.delays) == [] then 0 else old(world.delays)[0]
    ensures world.now == old(world.now) + 5 * turns + (world.late - old(world.late))
    ensures result >= 0 ==> result == world.now - start
    ensures result == -1 ==> world.now - start >= timeout || (turns < |losses| && losses[turns])
    ensures |looks| == turns && Paced(sends, start, timeout) && forall k :: 0 <= k < turns ==> start <= looks[k] < start + timeout
    ensures |sends| <= Max(0, (timeout + 999) / 1000)
    ensures turns <= Max(0, timeout) / 5 + 1
    ensures forall k :: 0 <= k < turns ==> Asked(sends, looks[k])
    ensures forall i :: 0 <= i < turns && i < |answers| ==> !answers[i]
    ensures forall i :: 0 <= i < turns && i < |losses| ==> !losses[i]
  {
    var began := world.Time();
    start := began;
    var next := began;
    turns, sends, looks := 0, [], [];
    while !(turns < |answers| && answers[turns])
      invariant world.commands == old(world.commands) + sends
      invariant world.now == old(world.now) + 5 * turns + (world.late - old(world.late))
      invariant world.now >= start + 5 * turns
      invariant |looks| == turns && forall k :: 0 <= k < turns ==> start <= looks[k] < start + timeout
      invariant turns > 0 ==> 5 * (turns - 1) < timeout
      invariant Paced(sends, start, timeout)
      invariant if sends == [] then next == start && turns == 0 else next == sends[|sends| - 1] + 1000 <= world.now + 1000
      invariant forall k :: 0 <= k < turns ==> Asked(sends, looks[k])
      invariant forall i :: 0 <= i < turns && i < |answers| ==> !answers[i]
      invariant forall i :: 0 <= i < turns && i < |losses| ==> !losses[i]
      decreases timeout + 5 - 5 * turns
    {
      var now := world.Time();
      if now - began >= timeout || (turns < |losses| && losses[turns]) {
        FewSends(sends, start, timeout);
        return -1, turns, start, sends, looks;
      }
      next, sends := SendIfDue(world, now, next, start, timeout, sends, looks);
      world.Sleep(5);
      turns, looks := turns + 1, looks + [now];
    }
    FewSends(sends, start, timeout);
    var end := world.Time();
    result := end - began;
  }

  // ---------- The whole system ----------

  /** The history that matters: commands, the peer's pings, and every CLOSE served. */
  datatype Event =
    | Sent(id: nat)
    | Delivered(id: nat)
    | PingOpened(id: nat, fd: int)
    | Closed(fd: int)

  /** The peer at work on one DUMPREG command: before OPEN, or with the descriptor it got. */
  datatype Session = Session(id: nat, fd: Option<int32>)

  datatype State = State(sent: nat, sessions: seq<Session>, server: S.State, history: seq<Event>, succeeded: bool)

  datatype Action =
    | SendCommand
    | Deliver(id: nat)
    | Open(session: nat, flags: uint32, path: seq<byte>)
    | Write(session: nat, data: seq<byte>)
    | Close(session: nat)
    | Program(request: Request)
    | CheckFlag

  function Initial(server: S.State): State {
    State(0, [], server.(pingFd := -1, answered := false), [], false)
  }

  predicate PingRequest(r: Request) {
    r.Open? && FixedPath(r.path) == S.PING
  }

  /** One request served; a CLOSE goes into the history. */
  function Serve(s: State, r: Request): State {
    s.(server := S.Handle(s.server, r).0, history := if r.Close? then s.history + [Closed(r.fd)] else s.history)
  }

  /** The peer asks for the ping file only in a session; what is not enabled does nothing. */
  function Act(s: State, a: Action): State {
    match a
    case SendCommand => s.(sent := s.sent + 1, history := s.history + [Sent(s.sent)])
    case Deliver(id) =>
      if id < s.sent then s.(sessions := s.sessions + [Session(id, None)], history := s.history + [Delivered(id)]) else s
    case Open(i, flags, path) =>
      if i < |s.sessions| && s.sessions[i].fd.None? && FixedPath(path) == S.PING then
        var id := s.sessions[i].id;
        var (server, reply) := S.Open(s.server, flags, path);
        if reply.result < 0 then s.(server := server)
        else s.(server := server, sessions := s.sessions[i := Session(id, Some(reply.result))],
                history := s.history + [PingOpened(id, reply.result)])
      else s
    case Write(i, data) =>
      if i < |s.sessions| && s.sessions[i].fd.Some? then Serve(s, Request.Write(s.sessions[i].fd.value, data)) else s
    case Close(i) =>
      if i < |s.sessions| && s.sessions[i].fd.Some? then Serve(s, Request.Close(s.sessions[i].fd.value)) else s
    case Program(r) => if PingRequest(r) then s else Serve(s, r)
    case CheckFlag => s.(succeeded := s.succeeded || s.server.answered)
  }

  function Run(server: S.State, schedule: seq<Action>): State {
    if schedule == [] then Initial(server) else Act(Run(server, schedule[..|schedule| - 1]), schedule[|schedule| - 1])
  }

  // ---------- Why an answer is an answer ----------

  /** Command `id` was sent at `a` and reached the peer at `b`. */
  ghost predicate Arrived(h: seq<Event>, a: int, b: int, id: nat) {
    0 <= a < b < |h| && h[a] == Sent(id) && h[b] == Delivered(id)
  }

  /** Its OPEN got `fd` at `c`, and up to `d` nobody closed that descriptor. */
  ghost predicate OpenFrom(h: seq<Event>, b: int, c: int, d: int, id: nat, fd: int) {
    0 <= b < c < d <= |h| && h[c] == PingOpened(id, fd) && forall i :: c < i < d ==> h[i] != Closed(fd)
  }

  ghost predicate PingOpen(h: seq<Event>, fd: int) {
    exists a, b, c, id :: Arrived(h, a, b, id) && OpenFrom(h, b, c, |h|, id, fd)
  }

  /** A command went out, came in, and was worked on through OPEN and the CLOSE of what OPEN returned. */
  ghost predicate RoundTrip(h: seq<Event>) {
    exists a, b, c, d, id, fd :: Arrived(h, a, b, id) && OpenFrom(h, b, c, d, id, fd) && d < |h| && h[d] == Closed(fd)
  }

  ghost predicate HasArrived(h: seq<Event>, id: nat) {
    exists a, b :: Arrived(h, a, b, id)
  }

  ghost predicate Inv(s: State) {
    && F.PingOk(s.server)
    && (forall id: nat :: id < s.sent ==> Sent(id) in s.history)
    && (forall i :: 0 <= i < |s.sessions| ==> HasArrived(s.history, s.sessions[i].id))
    && (s.server.pingFd >= 0 ==> PingOpen(s.history, s.server.pingFd))
    && (s.server.answered ==> RoundTrip(s.history))
    && (s.succeeded ==> s.server.answered)
  }

  lemma LongerHistory(h: seq<Event>, e: Event)
    ensures forall id :: HasArrived(h, id) ==> HasArrived(h + [e], id)
    ensures forall fd :: PingOpen(h, fd) && e != Closed(fd) ==> PingOpen(h + [e], fd)
    ensures RoundTrip(h) ==> RoundTrip(h + [e])
  {
    var h' := h + [e];
    forall id | HasArrived(h, id)
      ensures HasArrived(h', id)
    {
      var a, b :| Arrived(h, a, b, id);
      assert Arrived(h', a, b, id);
    }
    forall fd | PingOpen(h, fd) && e != Closed(fd)
      ensures PingOpen(h', fd)
    {
      var a, b, c, id :| Arrived(h, a, b, id) && OpenFrom(h, b, c, |h|, id, fd);
      assert Arrived(h', a, b, id) && OpenFrom(h', b, c, |h'|, id, fd);
    }
    if RoundTrip(h) {
      var a, b, c, d, id, fd :| Arrived(h, a, b, id) && OpenFrom(h, b, c, d, id, fd) && d < |h| && h[d] == Closed(fd);
      assert Arrived(h', a, b, id) && OpenFrom(h', b, c, d, id, fd) && h'[d] == Closed(fd);
    }
  }

  lemma OpenStarts(h: seq<Event>, id: nat, fd: int)
    requires HasArrived(h, id)
    ensures PingOpen(h + [PingOpened(id, fd)], fd)
  {
    var h' := h + [PingOpened(id, fd)];
    var a, b :| Arrived(h, a, b, id);
    assert Arrived(h', a, b, id) && OpenFrom(h', b, |h|, |h'|, id, fd);
  }

  lemma CloseCompletes(h: seq<Event>, fd: int)
    requires PingOpen(h, fd)
    ensures RoundTrip(h + [Closed(fd)])
  {
    var h' := h + [Closed(fd)];
    var a, b, c, id :| Arrived(h, a, b, id) && OpenFrom(h, b, c, |h|, id, fd);
    assert Arrived(h', a, b, id) && OpenFrom(h', b, c, |h|, id, fd) && h'[|h|] == Closed(fd);
  }

  lemma ServeKeepsInv(s: State, r: Request)
    requires Inv(s) && !PingRequest(r)
    ensures Inv(Serve(s, r))
  {
    F.HandleKeepsPing(s.server, r);
    if r.Close? {
      LongerHistory(s.history, Closed(r.fd));
      if s.server.pingFd >= 0 && r.fd == s.server.pingFd { CloseCompletes(s.history, r.fd); }
    }
  }

  lemma PingFileOpens(server: S.State, flags: uint32, path: seq<byte>)
    requires F.PingOk(server) && FixedPath(path) == S.PING
    ensures var (next, reply) := S.Open(server, flags, path);
            F.PingOk(next) && next.answered == server.answered && next.pingFd == reply.result
  {
    F.HandleKeepsPing(server, Request.Open(flags, path));
  }

  /** A session whose OPEN returned `fd`. */
  lemma NewPing(s: State, i: nat, id: nat, fd: int32, server: S.State)
    requires Inv(s) && i < |s.sessions| && s.sessions[i].id == id
    requires F.PingOk(server) && server.answered == s.server.answered && server.pingFd == fd >= 0
    ensures Inv(s.(server := server, sessions := s.sessions[i := Session(id, Some(fd))],
                   history := s.history + [PingOpened(id, fd)]))
  {
    LongerHistory(s.history, PingOpened(id, fd));
    assert HasArrived(s.history, s.sessions[i].id);
    OpenStarts(s.history, id, fd);
  }

  lemma OpenKeepsInv(s: State, i: nat, flags: uint32, path: seq<byte>)
    requires Inv(s)
    ensures Inv(Act(s, Action.Open(i, flags, path)))
  {
    if i < |s.sessions| && s.sessions[i].fd.None? && FixedPath(path) == S.PING {
      var (server, reply) := S.Open(s.server, flags, path);
      PingFileOpens(s.server, flags, path);
      if reply.result >= 0 {
        NewPing(s, i, s.sessions[i].id, reply.result, server);
      }
    }
  }

  lemma DeliverKeepsInv(s: State, id: nat)
    requires Inv(s)
    ensures Inv(Act(s, Deliver(id)))
  {
    if id < s.sent {
      var h' := s.history + [Delivered(id)];
      LongerHistory(s.history, Delivered(id));
      var k :| 0 <= k < |s.history| && s.history[k] == Sent(id);
      assert Arrived(h', k, |s.history|, id);
    }
  }

  lemma ActKeepsInv(s: State, a: Action)
    requires Inv(s)
    ensures Inv(Act(s, a))
  {
    match a
    case SendCommand => LongerHistory(s.history, Sent(s.sent));
    case Deliver(id) => DeliverKeepsInv(s, id);
    case Open(i, flags, path) => OpenKeepsInv(s, i, flags, path);
    case Write(i, data) =>
      if i < |s.sessions| && s.sessions[i].fd.Some? { ServeKeepsInv(s, Request.Write(s.sessions[i].fd.value, data)); }
    case Close(i) =>
      if i < |s.sessions| && s.sessions[i].fd.Some? { ServeKeepsInv(s, Request.Close(s.sessions[i].fd.value)); }
    case Program(r) => if !PingRequest(r) { ServeKeepsInv(s, r); }
    case CheckFlag =>
  }

  /** In every run: a handshake succeeds only after a whole round trip of one of its commands. */
  lemma {:induction false} SuccessIsARoundTrip(server: S.State, schedule: seq<Action>)
    ensures Inv(Run(server, schedule))
    ensures Run(server, schedule).succeeded ==> RoundTrip(Run(server, schedule).history)
  {
    if schedule != [] {
      SuccessIsARoundTrip(server, schedule[..|schedule| - 1]);
      ActKeepsInv(Run(server, schedule[..|schedule| - 1]), schedule[|schedule| - 1]);
    }
  }

  /** One command, worked on from its OPEN to its CLOSE. */
  function OneCommand(): seq<Action> {
    [SendCommand, Deliver(0), Action.Open(0, 0x0202, S.PING), Action.Close(0), CheckFlag]
  }

  /** It can succeed: with any server that has a free descriptor, after one command. */
  lemma ASuccess(server: S.State)
    requires S.H.NextDescriptor(server.host).Some?
    ensures Run(server, OneCommand()).succeeded
  {
    var s0 := Initial(server);
    var s1 := Act(s0, SendCommand);
    var s2 := Act(s1, Deliver(0));
    var s3 := Act(s2, Action.Open(0, 0x0202, S.PING));
    PingOpens(s2);
    var s4 := Act(s3, Action.Close(0));
    var s5 := Act(s4, CheckFlag);
    PingCloses(s3);
    Follows(server, OneCommand(), [s0, s1, s2, s3, s4, s5]);
  }

  lemma PingOpens(s: State)
    requires |s.sessions| == 1 && s.sessions[0].fd.None? && S.H.NextDescriptor(s.server.host).Some?
    ensures var t := Act(s, Action.Open(0, 0x0202, S.PING));
            |t.sessions| == 1 && t.sessions[0].fd == Some(t.server.pingFd) && t.server.pingFd >= 0
  {
    S.PingBytes();
    PlainPath(S.PING);
  }

  lemma PingCloses(s: State)
    requires |s.sessions| == 1 && s.sessions[0].fd == Some(s.server.pingFd) && s.server.pingFd >= 0
    ensures Act(s, Action.Close(0)).server.answered
  {
  }

  /** States that follow each other by the actions of a schedule end in its run. */
  lemma {:induction false} Follows(server: S.State, schedule: seq<Action>, states: seq<State>)
    requires |states| == |schedule| + 1 && states[0] == Initial(server)
    requires forall i :: 0 <= i < |schedule| ==> states[i + 1] == Act(states[i], schedule[i])
    ensures Run(server, schedule) == states[|schedule|]
  {
    if schedule != [] {
      var n := |schedule| - 1;
      Follows(server, schedule[..n], states[..n + 1]);
      assert states[n + 1] == Act(states[n], schedule[n]);
    }
  }
}
