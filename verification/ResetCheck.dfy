/** The reset observer: one RESET at most, then polls that watch for a loss and a recovery. */
module ResetCheck {
  import opened Bytes

  const EXIT_OK := 0
  const EXIT_USAGE := 64
  const EXIT_NOCONNECT := 69
  const EXIT_TIMEOUT := 124

  /** What a ping or the reset command will do: how long it takes, and its exit status. */
  datatype Outcome = Outcome(takes: nat, status: int)

  /** A command that was run: RESET or a ping, when it began, how it went, and the drift by then. */
  datatype Ran = Ran(reset: bool, began: int, outcome: Outcome, drifted: nat)

  /** The outcome of command number `n`; beyond the script commands fail at once. */
  function OutcomeAt(outcomes: seq<Outcome>, n: nat): Outcome {
    if n < |outcomes| then outcomes[n] else Outcome(0, -1)
  }

  function Sum(drift: seq<nat>): nat {
    if drift == [] then 0 else drift[0] + Sum(drift[1..])
  }

  /**
   The child processes and the clock. `outcomes` is how the commands go, `drift` what passes before
   each coming look at the clock, `drifted` how much of that has passed; `ran` is every command run.
   */
  class World {
    const outcomes: seq<Outcome>
    var now: int
    var drift: seq<nat>
    var drifted: nat
    var ran: seq<Ran>

    constructor (now: int, outcomes: seq<Outcome>, drift: seq<nat>)
      ensures this.outcomes == outcomes && this.now == now && this.drift == drift && drifted == 0 && ran == []
    {
      this.now, this.outcomes, this.drift, drifted, ran := now, outcomes, drift, 0, [];
    }

    method Time() returns (t: int)
      modifies this`now, this`drift, this`drifted
      ensures t == now == old(now) + (drifted - old(drifted)) && drifted >= old(drifted)
      ensures drifted + Sum(drift) == old(drifted) + Sum(old(drift))
    {
      if drift != [] { now, drifted, drift := now + drift[0], drifted + drift[0], drift[1..]; }
      t := now;
    }

    method Sleep(ms: nat)
      modifies this`now
      ensures now == old(now) + ms
    {
      now := now + ms;
    }

    method Command(reset: bool) returns (status: int)
      modifies this`now, this`ran
      ensures var outcome := OutcomeAt(outcomes, |old(ran)|);
              && ran == old(ran) + [Ran(reset, old(now), outcome, drifted)]
              && now == old(now) + outcome.takes && status == outcome.status
    {
      var outcome := OutcomeAt(outcomes, |ran|);
      ran := ran + [Ran(reset, now, outcome, drifted)];
      now := now + outcome.takes;
      return outcome.status;
    }
  }

  // ---------- Losses and recoveries ----------

  /** A failed poll, and a later one that worked. */
  ghost predicate Recovered(polls: seq<Ran>) {
    exists i, j :: 0 <= i < j < |polls| && polls[i].outcome.status != EXIT_OK && polls[j].outcome.status == EXIT_OK
  }

  ghost predicate Outage(polls: seq<Ran>) {
    exists i :: 0 <= i < |polls| && polls[i].outcome.status != EXIT_OK
  }

  lemma OneMorePoll(before: seq<Ran>, p: Ran)
    ensures Outage(before + [p]) <==> Outage(before) || p.outcome.status != EXIT_OK
    ensures Recovered(before + [p]) <==> Recovered(before) || (Outage(before) && p.outcome.status == EXIT_OK)
  {
    var polls := before + [p];
    assert polls[|before|] == p && forall i :: 0 <= i < |before| ==> polls[i] == before[i];
  }

  // ---------- When the polls are ----------

  function EndOf(p: Ran): int {
    p.began + p.outcome.takes
  }

  /** The next poll, the drift being `drifted` by then, begins 150 ms after this one has ended, and the drift between. */
  ghost predicate Follows(p: Ran, began: int, drifted: nat) {
    p.drifted <= drifted && began == EndOf(p) + 150 + (drifted - p.drifted)
  }

  /** Pings that begin before the deadline: the first at once, each next one 150 ms after the one before. */
  ghost predicate Steady(polls: seq<Ran>, start: int, drifted: nat, deadline: int) {
    && (forall i :: 0 <= i < |polls| ==> !polls[i].reset && polls[i].began < deadline)
    && (polls != [] ==> drifted <= polls[0].drifted && polls[0].began == start + (polls[0].drifted - drifted))
    && forall i :: 0 < i < |polls| ==> Follows(polls[i - 1], polls[i].began, polls[i].drifted)
  }

  /** The outcomes are those of the script, from command number `n` on. */
  ghost predicate Scripted(polls: seq<Ran>, outcomes: seq<Outcome>, n: nat) {
    forall i :: 0 <= i < |polls| ==> polls[i].outcome == OutcomeAt(outcomes, n + i)
  }

  /** The time that `k` commands take, from command number `n` on. */
  function Takes(outcomes: seq<Outcome>, n: nat, k: nat): nat {
    if k == 0 then 0 else Takes(outcomes, n, k - 1) + OutcomeAt(outcomes, n + k - 1).takes
  }

  lemma {:induction false} TakesMore(outcomes: seq<Outcome>, n: nat, k: nat, j: nat)
    requires k <= j
    ensures Takes(outcomes, n, k) <= Takes(outcomes, n, j)
  {
    if k < j {
      TakesMore(outcomes, n, k, j - 1);
    }
  }

  /** Poll number `k` begins exactly after the polls before it, 150 ms for each of them, and the drift. */
  lemma {:induction false} PollTime(polls: seq<Ran>, start: int, drifted: nat, deadline: int, outcomes: seq<Outcome>, n: nat, k: nat)
    requires Steady(polls, start, drifted, deadline) && Scripted(polls, outcomes, n) && k < |polls|
    ensures drifted <= polls[k].drifted
    ensures polls[k].began == start + Takes(outcomes, n, k) + 150 * k + (polls[k].drifted - drifted)
  {
    if k > 0 {
      PollTime(polls, start, drifted, deadline, outcomes, n, k - 1);
      assert Follows(polls[k - 1], polls[k].began, polls[k].drifted);
    }
  }

  lemma FewPolls(polls: seq<Ran>, start: int, drifted: nat, deadline: int, outcomes: seq<Outcome>, n: nat)
    requires Steady(polls, start, drifted, deadline) && Scripted(polls, outcomes, n) && start <= deadline
    ensures |polls| <= (deadline - start + 149) / 150
  {
    if polls != [] {
      var last := |polls| - 1;
      PollTime(polls, start, drifted, deadline, outcomes, n, last);
      assert start + 150 * last <= polls[last].began < deadline;
      assert deadline - start + 149 < 150 * ((deadline - start + 149) / 150) + 150;
    }
  }

  /** The observer stopped at `now`: at the deadline or after it, and no later than one wait after its last poll. */
  ghost predicate RanOut(polls: seq<Ran>, start: int, drifted: nat, deadline: int, now: int, drifted': nat) {
    && now >= deadline
    && if polls == [] then drifted' >= drifted && now == start + (drifted' - drifted)
       else
         var last := polls[|polls| - 1];
         drifted' >= last.drifted && now <= EndOf(last) + 150 + (drifted' - last.drifted)
  }

  /** A poll that is due well before the deadline is made, unless the observer has its answer before. */
  lemma PollIsMade(polls: seq<Ran>, start: int, drifted: nat, deadline: int, now: int, drifted': nat,
                   outcomes: seq<Outcome>, n: nat, j: nat, most: nat)
    requires Steady(polls, start, drifted, deadline) && Scripted(polls, outcomes, n)
    requires RanOut(polls, start, drifted, deadline, now, drifted') && drifted' <= drifted + most
    requires start + Takes(outcomes, n, j) + 150 * j + most < deadline
    ensures j < |polls|
  {
    if polls != [] {
      var last := |polls| - 1;
      PollTime(polls, start, drifted, deadline, outcomes, n, last);
      assert Takes(outcomes, n, |polls|) == Takes(outcomes, n, last) + polls[last].outcome.takes;
      if |polls| <= j { TakesMore(outcomes, n, |polls|, j); }
    }
  }

  /** The script has a failed poll `i` and a later good one `j`, both due within `time` for all the drift there is. */
  ghost predicate Shows(outcomes: seq<Outcome>, n: nat, i: nat, j: nat, most: nat, time: int) {
    && i < j && OutcomeAt(outcomes, n + i).status != EXIT_OK && OutcomeAt(outcomes, n + j).status == EXIT_OK
    && Takes(outcomes, n, j) + 150 * j + most < time
  }

  ghost predicate ShowsRecovery(outcomes: seq<Outcome>, n: nat, most: nat, time: int) {
    exists i: nat, j: nat :: Shows(outcomes, n, i, j, most, time)
  }

  lemma RecoveryIsSeen(polls: seq<Ran>, start: int, drifted: nat, deadline: int, now: int, drifted': nat,
                       outcomes: seq<Outcome>, n: nat, most: nat)
    requires Steady(polls, start, drifted, deadline) && Scripted(polls, outcomes, n)
    requires RanOut(polls, start, drifted, deadline, now, drifted') && drifted' <= drifted + most
    requires ShowsRecovery(outcomes, n, most, deadline - start)
    ensures Recovered(polls)
  {
    var i: nat, j: nat :| Shows(outcomes, n, i, j, most, deadline - start);
    PollIsMade(polls, start, drifted, deadline, now, drifted', outcomes, n, j, most);
    assert polls[i].outcome.status != EXIT_OK && polls[j].outcome.status == EXIT_OK;
  }

  // ---------- The observer ----------

  /** The first two commands, when they were run. */
  function Begun(preflight: Option<Ran>, reset: Option<Ran>): seq<Ran> {
    (if preflight.Some? then [preflight.value] else []) + (if reset.Some? then [reset.value] else [])
  }

  /**
   Also returns the commands it ran. Status 0 means one thing only: RESET was sent after a good
   preflight, and a loss and a recovery were seen by polls that began before the deadline. Such a loss
   and recovery are not missed.
   */
  method Check(world: World, timeout: int)
    returns (status: int, ghost preflight: Option<Ran>, ghost reset: Option<Ran>, ghost start: int, ghost drifted: nat, ghost polls: seq<Ran>)
    modifies world
    ensures world.ran == old(world.ran) + (Begun(preflight, reset) + polls)
    ensures status == EXIT_USAGE <==> timeout < 1 || timeout > 120
    ensures preflight.Some? <==> status != EXIT_USAGE
    ensures reset.Some? <==> preflight.Some? && preflight.value.outcome.status == EXIT_OK
    ensures (preflight.Some? ==> !preflight.value.reset) && (reset.Some? ==> reset.value.reset)
    ensures status == EXIT_NOCONNECT <==> preflight.Some? && (reset.None? || reset.value.outcome.status != EXIT_OK)
    ensures status in {EXIT_USAGE, EXIT_NOCONNECT} ==> polls == []
    ensures status !in {EXIT_USAGE, EXIT_NOCONNECT} ==>
              && (status == if Recovered(polls) then EXIT_OK else EXIT_TIMEOUT)
              && start == EndOf(reset.value) + (drifted - reset.value.drifted)
              && Steady(polls, start, drifted, start + timeout * 1000)
              && Scripted(polls, world.outcomes, |old(world.ran)| + 2)
              && |polls| <= (timeout * 1000 + 149) / 150
              && (status == EXIT_TIMEOUT ==> RanOut(polls, start, drifted, start + timeout * 1000, world.now, world.drifted))
    ensures ShowsRecovery(world.outcomes, |old(world.ran)| + 2, Sum(old(world.drift)), timeout * 1000) ==>
              status in {EXIT_USAGE, EXIT_NOCONNECT, EXIT_OK}
  {
    preflight, reset, start, drifted, polls := None, None, 0, 0, [];
    if timeout < 1 || timeout > 120 { return EXIT_USAGE, preflight, reset, start, drifted, polls; }
    var result := world.Command(false);
    preflight := Some(world.ran[|world.ran| - 1]);
    if result != EXIT_OK { return EXIT_NOCONNECT, preflight, reset, start, drifted, polls; }
    result := world.Command(true);
    reset := Some(world.ran[|world.ran| - 1]);
    if result != EXIT_OK { return EXIT_NOCONNECT, preflight, reset, start, drifted, polls; }
    status, start, drifted, polls := Watch(world, timeout);
  }

  /** What follows the RESET: the deadline, and the polls until then. */
  method Watch(world: World, timeout: int) returns (status: int, ghost start: int, ghost drifted: nat, ghost polls: seq<Ran>)
    requires 0 < timeout
    modifies world`now, world`drift, world`drifted, world`ran
    ensures world.ran == old(world.ran) + polls
    ensures status == if Recovered(polls) then EXIT_OK else EXIT_TIMEOUT
    ensures drifted >= old(world.drifted) && start == old(world.now) + (drifted - old(world.drifted))
    ensures Steady(polls, start, drifted, start + timeout * 1000) && Scripted(polls, world.outcomes, |old(world.ran)|)
    ensures |polls| <= (timeout * 1000 + 149) / 150
    ensures status == EXIT_TIMEOUT ==> RanOut(polls, start, drifted, start + timeout * 1000, world.now, world.drifted)
    ensures ShowsRecovery(world.outcomes, |old(world.ran)|, Sum(old(world.drift)), timeout * 1000) ==> status == EXIT_OK
  {
    var begin := world.Time();
    start, drifted := begin, world.drifted;
    var recovered;
    recovered, polls := Observe(world, begin + timeout * 1000);
    ghost var (n, most) := (|old(world.ran)|, Sum(old(world.drift)));
    FewPolls(polls, start, drifted, start + timeout * 1000, world.outcomes, n);
    if !recovered && ShowsRecovery(world.outcomes, n, most, timeout * 1000) {
      RecoveryIsSeen(polls, start, drifted, start + timeout * 1000, world.now, world.drifted, world.outcomes, n, most);
    }
    status := if recovered then EXIT_OK else EXIT_TIMEOUT;
  }

  /** One poll after the others. */
  lemma SteadyMore(polls: seq<Ran>, p: Ran, start: int, drifted: nat, deadline: int)
    requires Steady(polls, start, drifted, deadline) && !p.reset && p.began < deadline
    requires if polls == [] then drifted <= p.drifted && p.began == start + (p.drifted - drifted)
             else Follows(polls[|polls| - 1], p.began, p.drifted)
    ensures Steady(polls + [p], start, drifted, deadline)
  {
    var more := polls + [p];
    forall i | 0 < i < |more|
      ensures Follows(more[i - 1], more[i].began, more[i].drifted)
    {
      assert i < |polls| ==> more[i] == polls[i];
    }
  }

  /** The end of a turn, after a poll that has just ended. */
  method Wait(world: World, deadline: int, ghost poll: Ran) returns (now: int)
    requires world.now == EndOf(poll) && world.drifted == poll.drifted
    modifies world`now, world`drift, world`drifted
    ensures now == world.now
    ensures now < deadline ==> Follows(poll, now, world.drifted)
    ensures world.drifted >= poll.drifted && now <= EndOf(poll) + 150 + (world.drifted - poll.drifted)
    ensures world.drifted + Sum(world.drift) == old(world.drifted) + Sum(old(world.drift))
  {
    now := world.Time();
    if now < deadline { world.Sleep(150); }
    now := world.Time();
  }

  /** The polling loop. */
  method Observe(world: World, deadline: int) returns (recovered: bool, ghost polls: seq<Ran>)
    modifies world`now, world`drift, world`drifted, world`ran
    ensures world.ran == old(world.ran) + polls
    ensures Steady(polls, old(world.now), old(world.drifted), deadline)
    ensures Scripted(polls, world.outcomes, |old(world.ran)|)
    ensures recovered <==> Recovered(polls)
    ensures recovered || RanOut(polls, old(world.now), old(world.drifted), deadline, world.now, world.drifted)
    ensures world.drifted + Sum(world.drift) == old(world.drifted) + Sum(old(world.drift))
  {
    ghost var (start, drifted) := (world.now, world.drifted);
    polls := [];
    var sawOutage := false;
    var now := world.Time();
    while now < deadline
      invariant now == world.now && world.ran == old(world.ran) + polls
      invariant Steady(polls, start, drifted, deadline) && Scripted(polls, world.outcomes, |old(world.ran)|)
      invariant if polls == [] then drifted <= world.drifted && now == start + (world.drifted - drifted)
                else if now < deadline then Follows(polls[|polls| - 1], now, world.drifted)
                else RanOut(polls, start, drifted, deadline, now, world.drifted)
      invariant world.drifted + Sum(world.drift) == old(world.drifted) + Sum(old(world.drift))
      invariant (sawOutage <==> Outage(polls)) && !Recovered(polls)
      decreases deadline - now
    {
      var status := world.Command(false);
      ghost var poll := world.ran[|world.ran| - 1];
      OneMorePoll(polls, poll);
      SteadyMore(polls, poll, start, drifted, deadline);
      polls := polls + [poll];
      if status != EXIT_OK {
        sawOutage := true;
      } else if sawOutage {
        return true, polls;
      }
      now := Wait(world, deadline, poll);
    }
    return false, polls;
  }
}
