/**
  The device flow's polling loop (`DevicePoll` in `oidc/src/oidc_core.cpp`), with the world it runs in
  as an oracle: the answers, the time they take, what the caller's check says, and by how much each
  one-second sleep overruns. The clock never runs backwards and counts whole seconds.
 */
module DevicePoll {

  datatype Answer = Granted | SlowDown | Pending | Other

  datatype World = World(
    answer: nat -> Answer,   // to the n-th request
    took: nat -> nat,        // seconds from sending it to reading the clock after its answer
    cancelled: nat -> bool,  // what the caller's n-th check returns
    overrun: nat -> nat      // seconds the n-th sleep of one second takes beyond its second
  )

  datatype Outcome = Cancelled | Reported(answer: Answer) | TimedOut

  // When a request was sent, and the interval in force then.
  datatype Request = Request(at: int, interval: int)

  datatype State = State(
    interval: int,
    now: int,
    // history
    requests: seq<Request>,
    checks: nat,    // of cancelled()
    slept: nat,     // one-second sleeps
    slowDowns: nat
  )

  const MAX_INTERVAL := 3600

  function Start(interval: int, now: int): State {
    State(if interval < 0 then 0 else interval, now, [], 0, 0, 0)
  }

  function Slower(interval: int): int {
    if interval + 5 > MAX_INTERVAL then MAX_INTERVAL else interval + 5
  }

  // ----- The loop, as a function of the world -----

  datatype Turn = Ends(outcome: Outcome, state: State) | GoesOn(state: State)

  // n more slices of a second, each after a check.
  function Sleep(w: World, s: State, n: nat): Turn
    decreases n
  {
    if n == 0 then GoesOn(s)
    else if w.cancelled(s.checks) then Ends(Cancelled, s.(checks := s.checks + 1))
    else Sleep(w, s.(checks := s.checks + 1, now := s.now + 1 + w.overrun(s.slept), slept := s.slept + 1), n - 1)
  }

  function Asked(w: World, s: State): State {
    var n := |s.requests|;
    var t := s.(checks := s.checks + 1, requests := s.requests + [Request(s.now, s.interval)],
                now := s.now + w.took(n));
    if w.answer(n).SlowDown? then t.(interval := Slower(s.interval), slowDowns := s.slowDowns + 1) else t
  }

  // One turn of the loop.
  function Round(w: World, deadline: int, s: State): Turn
    requires s.interval >= 0
  {
    if w.cancelled(s.checks) then Ends(Cancelled, s.(checks := s.checks + 1))
    else
      var answer, t := w.answer(|s.requests|), Asked(w, s);
      if answer.Granted? || answer.Other? then Ends(Reported(answer), t)
      else if t.interval >= deadline - t.now then Ends(TimedOut, t)
      else Sleep(w, t, t.interval)
  }

  predicate EndsWithin(w: World, deadline: int, s: State, n: nat)
    requires s.interval >= 0
    decreases n
  {
    n > 0 &&
    var turn := Round(w, deadline, s);
    RoundKeepsInterval(w, deadline, s);
    turn.Ends? || EndsWithin(w, deadline, turn.state, n - 1)
  }

  // How the poll ends, and the state it ends in.
  function Polled(w: World, deadline: int, s: State, n: nat): (end: Turn)
    requires s.interval >= 0 && EndsWithin(w, deadline, s, n)
    ensures end.Ends?
    decreases n
  {
    var turn := Round(w, deadline, s);
    RoundKeepsInterval(w, deadline, s);
    if turn.Ends? then turn else Polled(w, deadline, turn.state, n - 1)
  }

  lemma {:induction false} SleepKeeps(w: World, s: State, n: nat)
    ensures var turn := Sleep(w, s, n);
            && turn.state.interval == s.interval && turn.state.slowDowns == s.slowDowns
            && turn.state.requests == s.requests
            && s.slept <= turn.state.slept <= s.slept + n
            && turn.state.slept - s.slept <= turn.state.now - s.now
            && (turn.GoesOn? ==> turn.state.slept == s.slept + n)
    decreases n
  {
    if n > 0 && !w.cancelled(s.checks) {
      SleepKeeps(w, s.(checks := s.checks + 1, now := s.now + 1 + w.overrun(s.slept), slept := s.slept + 1), n - 1);
    }
  }

  lemma {:induction false} RoundKeepsInterval(w: World, deadline: int, s: State)
    requires s.interval >= 0
    ensures Round(w, deadline, s).state.interval >= 0
    ensures s.interval > 0 ==> Round(w, deadline, s).state.interval > 0
  {
    var t := Asked(w, s);
    if t.interval >= 0 {
      SleepKeeps(w, t, t.interval);
    }
  }

  // ----- The code's loops -----

  method SleepLoop(w: World, s: State) returns (turn: Turn)
    requires s.interval >= 0
    ensures turn == Sleep(w, s, s.interval)
  {
    var t := s;
    for slept := 0 to s.interval
      invariant t.interval == s.interval
      invariant Sleep(w, t, s.interval - slept) == Sleep(w, s, s.interval)
    {
      if w.cancelled(t.checks) {
        return Ends(Cancelled, t.(checks := t.checks + 1));
      }
      t := t.(checks := t.checks + 1, now := t.now + 1 + w.overrun(t.slept), slept := t.slept + 1);
    }
    return GoesOn(t);
  }

  method Poll(w: World, interval: int, deadline: int, now: int, ghost n: nat) returns (outcome: Outcome, end: State)
    requires EndsWithin(w, deadline, Start(interval, now), n)
    ensures Ends(outcome, end) == Polled(w, deadline, Start(interval, now), n)
  {
    hide Sleep;
    var s := Start(interval, now);
    ghost var left := n;
    while true
      invariant s.interval >= 0 && EndsWithin(w, deadline, s, left)
      invariant Polled(w, deadline, s, left) == Polled(w, deadline, Start(interval, now), n)
      decreases left
    {
      ghost var round := Round(w, deadline, s);
      RoundKeepsInterval(w, deadline, s);
      if w.cancelled(s.checks) {
        return Cancelled, s.(checks := s.checks + 1);
      }
      var answer := w.answer(|s.requests|);
      s := s.(checks := s.checks + 1, requests := s.requests + [Request(s.now, s.interval)],
              now := s.now + w.took(|s.requests|));
      if answer.Granted? {
        return Reported(answer), s;
      }
      if answer.SlowDown? {
        s := s.(interval := if s.interval + 5 > MAX_INTERVAL then MAX_INTERVAL else s.interval + 5,
                slowDowns := s.slowDowns + 1);
      } else if !answer.Pending? {
        return Reported(answer), s;
      }
      if s.interval >= deadline - s.now {
        return TimedOut, s;
      }
      var turn := SleepLoop(w, s);
      if turn.Ends? {
        return turn.outcome, turn.state;
      }
      s := turn.state;
      left := left - 1;
    }
  }

  // ----- Time is respected -----

  // The interval after k slow_downs.
  function Grown(i0: int, k: nat): int {
    if k == 0 then i0 else if i0 + 5 * k > 3600 then 3600 else i0 + 5 * k
  }

  predicate Spaced(requests: seq<Request>) {
    forall j :: 0 < j < |requests| ==> requests[j].at - requests[j - 1].at >= requests[j].interval
  }

  // The loop's invariant, from a start at `start` with an interval of i0.
  predicate Respects(s: State, i0: int, start: int, deadline: int) {
    && start <= s.now
    && s.slept <= s.now - start
    && (s.slept > 0 ==> s.slept < deadline - start)
    && s.interval == Grown(i0, s.slowDowns)
    && Spaced(s.requests)
    && (forall j :: 0 <= j < |s.requests| ==> s.requests[j].at <= s.now)
  }

  // At the head of the loop the last request is at least the interval ago.
  predicate Rested(s: State) {
    s.requests != [] ==> s.now - s.requests[|s.requests| - 1].at >= s.interval
  }

  lemma {:induction false} RoundRespects(w: World, s: State, i0: int, start: int, deadline: int)
    requires i0 >= 0 && Respects(s, i0, start, deadline) && Rested(s)
    ensures s.interval >= 0
    ensures var turn := Round(w, deadline, s);
            && Respects(turn.state, i0, start, deadline)
            && (turn.GoesOn? ==> Rested(turn.state) && turn.state.now >= s.now + turn.state.interval)
  {
    if !w.cancelled(s.checks) {
      var t := Asked(w, s);
      assert Respects(t, i0, start, deadline);
      if t.interval < deadline - t.now {
        SleepKeeps(w, t, t.interval);
      }
    }
  }

  lemma {:induction false} PollRespects(w: World, s: State, n: nat, i0: int, start: int, deadline: int)
    requires i0 >= 0 && Respects(s, i0, start, deadline) && Rested(s)
    requires s.interval >= 0 && EndsWithin(w, deadline, s, n)
    ensures Respects(Polled(w, deadline, s, n).state, i0, start, deadline)
    decreases n
  {
    RoundRespects(w, s, i0, start, deadline);
    var turn := Round(w, deadline, s);
    RoundKeepsInterval(w, deadline, s);
    if turn.GoesOn? {
      PollRespects(w, turn.state, n - 1, i0, start, deadline);
    }
  }

  // What the first n sleeps of a second took beyond their seconds.
  function Overruns(w: World, n: nat): nat {
    if n == 0 then 0 else Overruns(w, n - 1) + w.overrun(n - 1)
  }

  lemma {:induction false} SleepAdds(w: World, s: State, n: nat)
    ensures var t := Sleep(w, s, n).state;
            && s.slept <= t.slept
            && t.now - s.now == (t.slept - s.slept) + Overruns(w, t.slept) - Overruns(w, s.slept)
    decreases n
  {
    if n > 0 && !w.cancelled(s.checks) {
      SleepAdds(w, s.(checks := s.checks + 1, now := s.now + 1 + w.overrun(s.slept), slept := s.slept + 1), n - 1);
    }
  }

  lemma {:induction false} OverrunsGrow(w: World, m: nat, n: nat)
    requires m <= n
    ensures Overruns(w, m) <= Overruns(w, n)
    decreases n
  {
    if m < n {
      OverrunsGrow(w, m, n - 1);
    }
  }

  // Before the deadline, up to what the sleeps overran.
  predicate InTime(w: World, s: State, deadline: int, at: int) {
    at < deadline + Overruns(w, s.slept)
  }

  predicate Timely(w: World, s: State, deadline: int) {
    forall j :: 0 < j < |s.requests| ==> InTime(w, s, deadline, s.requests[j].at)
  }

  // The moment of the start, or in time, or that of the last answer.
  predicate EndsInTime(w: World, s: State, start: int, deadline: int) {
    || (s.requests == [] && s.now == start)
    || InTime(w, s, deadline, s.now)
    || (s.requests != [] && s.now == s.requests[|s.requests| - 1].at + w.took(|s.requests| - 1))
  }

  lemma {:induction false} RoundTimely(w: World, s: State, start: int, deadline: int)
    requires s.interval >= 0 && Timely(w, s, deadline)
    requires if s.requests == [] then s.now == start else InTime(w, s, deadline, s.now)
    ensures var turn := Round(w, deadline, s);
            && Timely(w, turn.state, deadline) && EndsInTime(w, turn.state, start, deadline)
            && (turn.GoesOn? ==> turn.state.requests != [] && InTime(w, turn.state, deadline, turn.state.now))
  {
    if !w.cancelled(s.checks) {
      var t := Asked(w, s);
      assert Timely(w, t, deadline);
      if t.interval < deadline - t.now {
        SleepKeeps(w, t, t.interval);
        SleepAdds(w, t, t.interval);
        OverrunsGrow(w, t.slept, Sleep(w, t, t.interval).state.slept);
      }
    }
  }

  lemma {:induction false} PollTimely(w: World, s: State, n: nat, start: int, deadline: int)
    requires s.interval >= 0 && Timely(w, s, deadline) && EndsWithin(w, deadline, s, n)
    requires if s.requests == [] then s.now == start else InTime(w, s, deadline, s.now)
    ensures var end := Polled(w, deadline, s, n).state;
            Timely(w, end, deadline) && EndsInTime(w, end, start, deadline)
    decreases n
  {
    RoundTimely(w, s, start, deadline);
    RoundKeepsInterval(w, deadline, s);
    var turn := Round(w, deadline, s);
    if turn.GoesOn? {
      PollTimely(w, turn.state, n - 1, start, deadline);
    }
  }

  // Whatever the server answers: the seconds slept stay below the time there was, none when there was
  // none; requests are at least the interval in force apart; k slow_downs grow it by 5 each, to an hour
  // at most; every request after the first is sent before the deadline, but for what the sleeps overran;
  // and so is the end, unless it is the start itself or the moment of the last answer.
  lemma {:induction false} TimeRespected(w: World, interval: int, deadline: int, now: int, n: nat)
    requires EndsWithin(w, deadline, Start(interval, now), n)
    ensures var end := Polled(w, deadline, Start(interval, now), n).state;
            && (end.slept > 0 ==> end.slept < deadline - now)
            && Spaced(end.requests)
            && end.interval == Grown(if interval < 0 then 0 else interval, end.slowDowns)
            && Timely(w, end, deadline) && EndsInTime(w, end, now, deadline)
  {
    PollRespects(w, Start(interval, now), n, if interval < 0 then 0 else interval, now, deadline);
    PollTimely(w, Start(interval, now), n, now, deadline);
  }

  lemma {:induction false} NoOverruns(w: World, n: nat)
    requires forall k :: w.overrun(k) == 0
    ensures Overruns(w, n) == 0
  {
    if n > 0 {
      NoOverruns(w, n - 1);
    }
  }

  // With sleeps of a second each, no request but the first is sent at the deadline or later.
  lemma {:induction false} RequestsBeforeDeadline(w: World, interval: int, deadline: int, now: int, n: nat, j: nat)
    requires EndsWithin(w, deadline, Start(interval, now), n) && forall k :: w.overrun(k) == 0
    ensures var requests := Polled(w, deadline, Start(interval, now), n).state.requests;
            0 < j < |requests| ==> requests[j].at < deadline
  {
    TimeRespected(w, interval, deadline, now, n);
    NoOverruns(w, Polled(w, deadline, Start(interval, now), n).state.slept);
  }

  // A server that always has the same answer, and takes the same time for it.
  function Steady(answer: Answer, took: nat): World {
    World(_ => answer, _ => took, _ => false, _ => 0)
  }

  // The first request is sent whatever the time, and its answer may come as late as the server likes: the
  // poll outlives its deadline by any number of seconds.
  lemma {:induction false} OutlivesDeadline(interval: int, deadline: int, now: int, late: nat)
    requires deadline + late >= now
    ensures var w := Steady(Pending, deadline + late - now);
            && EndsWithin(w, deadline, Start(interval, now), 1)
            && Polled(w, deadline, Start(interval, now), 1).state.now == deadline + late
            && Polled(w, deadline, Start(interval, now), 1).outcome == TimedOut
  {
    var w, s := Steady(Pending, deadline + late - now), Start(interval, now);
    assert Asked(w, s).now == deadline + late;
    assert Round(w, deadline, s) == Ends(TimedOut, Asked(w, s));
  }

  // ----- What it reports -----

  // How many of the first n answers were "slow_down".
  function SlowAnswers(w: World, n: nat): nat {
    if n == 0 then 0 else SlowAnswers(w, n - 1) + (if w.answer(n - 1).SlowDown? then 1 else 0)
  }

  // At the head of the loop: every answer so far was "pending" or "slow_down".
  predicate Waiting(w: World, s: State) {
    && s.slowDowns == SlowAnswers(w, |s.requests|)
    && forall j :: 0 <= j < |s.requests| ==> w.answer(j).Pending? || w.answer(j).SlowDown?
  }

  // An answer is reported when it is the last request's and neither "pending" nor "slow_down", so the
  // first such; a timeout when the last answer is one of these and the interval reaches what is left; a
  // cancellation when the last check said so.
  predicate ReportsRight(w: World, deadline: int, outcome: Outcome, s: State) {
    var n := |s.requests|;
    && s.slowDowns == SlowAnswers(w, n)
    && (forall j :: 0 <= j < n - 1 ==> w.answer(j).Pending? || w.answer(j).SlowDown?)
    && match outcome
       case Reported(a) => n > 0 && a == w.answer(n - 1) && (a.Granted? || a.Other?)
       case TimedOut =>
         n > 0 && (w.answer(n - 1).Pending? || w.answer(n - 1).SlowDown?) && s.interval >= deadline - s.now
       case Cancelled =>
         s.checks > 0 && w.cancelled(s.checks - 1)
         && (n > 0 ==> w.answer(n - 1).Pending? || w.answer(n - 1).SlowDown?)
  }

  lemma {:induction false} SleepReports(w: World, s: State, n: nat)
    ensures var turn := Sleep(w, s, n);
            && turn.state.requests == s.requests && turn.state.slowDowns == s.slowDowns
            && (turn.Ends? ==> turn.outcome == Cancelled && turn.state.checks > 0 && w.cancelled(turn.state.checks - 1))
    decreases n
  {
    if n > 0 && !w.cancelled(s.checks) {
      SleepReports(w, s.(checks := s.checks + 1, now := s.now + 1 + w.overrun(s.slept), slept := s.slept + 1), n - 1);
    }
  }

  lemma {:induction false} RoundReports(w: World, deadline: int, s: State)
    requires s.interval >= 0 && Waiting(w, s)
    ensures match Round(w, deadline, s)
            case Ends(outcome, t) => ReportsRight(w, deadline, outcome, t)
            case GoesOn(t) => Waiting(w, t)
  {
    if !w.cancelled(s.checks) {
      var t := Asked(w, s);
      assert t.slowDowns == SlowAnswers(w, |t.requests|);
      if t.interval >= 0 {
        SleepReports(w, t, t.interval);
      }
    }
  }

  lemma {:induction false} PollReportsFrom(w: World, deadline: int, s: State, n: nat)
    requires s.interval >= 0 && Waiting(w, s) && EndsWithin(w, deadline, s, n)
    ensures var end := Polled(w, deadline, s, n);
            ReportsRight(w, deadline, end.outcome, end.state)
    decreases n
  {
    RoundReports(w, deadline, s);
    RoundKeepsInterval(w, deadline, s);
    var turn := Round(w, deadline, s);
    if turn.GoesOn? {
      PollReportsFrom(w, deadline, turn.state, n - 1);
    }
  }

  // However a poll ends, that is what it reports; and its slow_downs are those the server sent.
  lemma {:induction false} PollReports(w: World, interval: int, deadline: int, now: int, n: nat)
    requires EndsWithin(w, deadline, Start(interval, now), n)
    ensures var end := Polled(w, deadline, Start(interval, now), n);
            ReportsRight(w, deadline, end.outcome, end.state)
  {
    PollReportsFrom(w, deadline, Start(interval, now), n);
  }

  // ----- It ends -----

  // An interval of a second or more: the clock is its own bound, whatever the server answers.
  lemma {:induction false} EndsByTheClock(w: World, deadline: int, s: State, n: nat)
    requires s.interval > 0 && n > 0 && deadline - s.now < n
    ensures EndsWithin(w, deadline, s, n)
    decreases n
  {
    var t := Asked(w, s);
    RoundKeepsInterval(w, deadline, s);
    var turn := Round(w, deadline, s);
    if turn.GoesOn? {
      SleepKeeps(w, t, t.interval);
      EndsByTheClock(w, deadline, turn.state, n - 1);
    }
  }

  // The interval an authorization is polled at: the server's, within bounds, or the default.
  function ParsedInterval(interval: int): (r: int)
    ensures 1 <= r <= 900
    ensures 1 <= interval <= 900 ==> r == interval
    ensures interval <= 0 ==> r == 5
    ensures interval > 900 ==> r == 900
  {
    if interval > 0 then if interval > 900 then 900 else interval else 5
  }

  ghost predicate PollEnds(w: World, interval: int, deadline: int, now: int) {
    exists n :: EndsWithin(w, deadline, Start(interval, now), n)
  }

  // A poll at an interval an authorization was parsed to ends, whatever the server answers.
  lemma {:induction false} ParsedPollsEnd(w: World, raw: int, deadline: int, now: int)
    ensures PollEnds(w, ParsedInterval(raw), deadline, now)
  {
    var n := if deadline - now < 0 then 1 else deadline - now + 1;
    EndsByTheClock(w, deadline, Start(ParsedInterval(raw), now), n);
  }

  // The clock after r requests, when nothing is slept.
  function ClockAfter(w: World, now: int, r: nat): int {
    if r == 0 then now else ClockAfter(w, now, r - 1) + w.took(r - 1)
  }

  // What stops a poll that does not sleep: a check, an answer that is not "pending", or the clock.
  predicate Stops(w: World, deadline: int, now: int, r: nat) {
    w.cancelled(r) || !w.answer(r).Pending? || ClockAfter(w, now, r + 1) >= deadline
  }

  predicate Idle(w: World, now: int, s: State) {
    s.interval == 0 && s.slept == 0 && s.checks == |s.requests| && s.now == ClockAfter(w, now, |s.requests|)
  }

  lemma {:induction false} IdleRound(w: World, deadline: int, now: int, s: State)
    requires Idle(w, now, s) && !Stops(w, deadline, now, |s.requests|)
    ensures var turn := Round(w, deadline, s);
            turn.GoesOn? && Idle(w, now, turn.state) && |turn.state.requests| == |s.requests| + 1
  {
    var t := Asked(w, s);
    assert Sleep(w, t, 0) == GoesOn(t);
  }

  lemma {:induction false} IdleEnds(w: World, deadline: int, now: int, s: State, r: nat) returns (n: nat)
    requires Idle(w, now, s) && |s.requests| <= r && Stops(w, deadline, now, r)
    ensures EndsWithin(w, deadline, s, n)
    decreases r - |s.requests|
  {
    var k := |s.requests|;
    var turn := Round(w, deadline, s);
    RoundKeepsInterval(w, deadline, s);
    if turn.Ends? {
      n := 1;
    } else if !Stops(w, deadline, now, k) {
      IdleRound(w, deadline, now, s);
      var m := IdleEnds(w, deadline, now, turn.state, r);
      n := m + 1;
    } else {
      var t := Asked(w, s);
      SleepKeeps(w, t, t.interval);
      assert w.answer(k).SlowDown? && turn.state.interval == 5;
      var m := if deadline - turn.state.now < 0 then 1 else deadline - turn.state.now + 1;
      EndsByTheClock(w, deadline, turn.state, m);
      n := m + 1;
    }
  }

  lemma {:induction false} IdleForever(w: World, deadline: int, now: int, s: State, n: nat)
    requires Idle(w, now, s) && forall r :: !Stops(w, deadline, now, r)
    ensures !EndsWithin(w, deadline, s, n)
    decreases n
  {
    if n > 0 {
      IdleRound(w, deadline, now, s);
      RoundKeepsInterval(w, deadline, s);
      IdleForever(w, deadline, now, Round(w, deadline, s).state, n - 1);
    }
  }

  // An interval of zero polls without sleeping: that ends exactly when something else stops it.
  lemma {:induction false} ZeroIntervalEndsExactly(w: World, deadline: int, now: int)
    ensures PollEnds(w, 0, deadline, now) <==> exists r :: Stops(w, deadline, now, r)
  {
    var s := Start(0, now);
    if r :| Stops(w, deadline, now, r) {
      var n := IdleEnds(w, deadline, now, s, r);
      assert PollEnds(w, 0, deadline, now);
    } else if n :| EndsWithin(w, deadline, s, n) {
      IdleForever(w, deadline, now, s, n);
    }
  }

  lemma {:induction false} SteadyClock(now: int, r: nat)
    ensures ClockAfter(Steady(Pending, 0), now, r) == now
  {
    if r > 0 {
      SteadyClock(now, r - 1);
    }
  }

  // An endless poll: every answer "pending", at once, and no check says to stop.
  lemma {:induction false} Endless(interval: int)
    requires interval <= 0
    ensures !PollEnds(Steady(Pending, 0), interval, 1, 0)
  {
    var w := Steady(Pending, 0);
    forall r: nat
      ensures !Stops(w, 1, 0, r)
    {
      SteadyClock(0, r + 1);
    }
    ZeroIntervalEndsExactly(w, 1, 0);
    assert Start(interval, 0) == Start(0, 0);
  }

  // A poll ends in every world, at every time and for every deadline, if and only if its interval is a
  // second or more.
  lemma {:induction false} AlwaysEndsExactly(interval: int)
    ensures (forall w, deadline, now :: PollEnds(w, interval, deadline, now)) <==> interval > 0
  {
    if interval > 0 {
      forall w, deadline, now
        ensures PollEnds(w, interval, deadline, now)
      {
        var n := if deadline - now < 0 then 1 else deadline - now + 1;
        EndsByTheClock(w, deadline, Start(interval, now), n);
      }
    } else {
      Endless(interval);
    }
  }
}
