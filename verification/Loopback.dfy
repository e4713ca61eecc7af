/**
  The login redirect receiver of `oidc/src/oidc_core.cpp` (`LoopbackRedirect`): browser callbacks,
  `Expect`, deadlines and cancellations race for one outcome under one mutex, while any number of
  threads wait for it.

  The critical sections are methods of the class `Receiver`; the protocol interleaves them with what
  a waiting thread does outside the lock.
 */
module Loopback {

  datatype Result = Result(code: string, error: string, errorCode: string) {
    predicate Ok() {
      error == "" && code != ""
    }
  }

  const EMPTY := Result("", "", "")

  const INVALID_REQUEST := "invalid_request"
  const NEITHER := "the redirect carried neither a code nor an error"
  const TIMED_OUT := Result("", "the login timed out before the browser returned", "expired_token")
  const CANCELLED := Result("", "login cancelled", "cancelled")
  const ALREADY_USED := Result("", "the login redirect receiver was already used", INVALID_REQUEST)

  // What the browser's request carried; an absent parameter is the empty string.
  datatype Callback = Callback(state: string, code: string, error: string, description: string)

  // At most 512 characters, no control characters.
  function Printable(text: string): (r: string)
    ensures |r| == if |text| > 512 then 512 else |text|
    ensures forall i :: 0 <= i < |r| ==> r[i] == if ' ' <= text[i] != '\U{7f}' then text[i] else '?'
  {
    var cut := if |text| > 512 then text[..512] else text;
    seq(|cut|, i requires 0 <= i < |cut| => if cut[i] < ' ' || cut[i] == '\U{7f}' then '?' else cut[i])
  }

  // ----- Impl behind its mutex -----

  datatype View = View(expected: string, done: bool, result: Result)

  // A callback decides when nothing is decided yet and it brings the expected state, which is not empty.
  predicate Completes(v: View, cb: Callback) {
    !v.done && v.expected != "" && cb.state == v.expected
  }

  function Outcome(cb: Callback): Result {
    if cb.error != "" then
      var code := Printable(cb.error);
      var description := Printable(cb.description);
      Result("", code + (if description == "" then "" else ": " + description), code)
    else if cb.code == "" then Result("", NEITHER, INVALID_REQUEST)
    else Result(cb.code, "", "")
  }

  function Handled(v: View, cb: Callback): View {
    if Completes(v, cb) then v.(done := true, result := Outcome(cb)) else v
  }

  function Committed(v: View, r: Result): View {
    if v.done then v else v.(done := true, result := r)
  }

  // What a Wait reports when it finds the outcome there.
  function Reported(v: View): Result {
    if !v.result.Ok() && v.result.error == "" then ALREADY_USED else v.result
  }

  class Receiver {
    var expectedState: string
    var done: bool
    var result: Result

    function Look(): View
      reads this
    {
      View(expectedState, done, result)
    }

    constructor ()
      ensures Look() == View("", false, EMPTY)
    {
      expectedState := "";
      done := false;
      result := EMPTY;
    }

    // The callback handler; `ok` is what its page says, `status` its status.
    method Handle(cb: Callback) returns (status: int, ok: bool)
      modifies this
      ensures Look() == Handled(old(Look()), cb)
      ensures status == if Completes(old(Look()), cb) then 200 else 400
      ensures ok <==> Completes(old(Look()), cb) && Outcome(cb).Ok()
      ensures expectedState == old(expectedState)
      ensures var decides := !old(done) && old(expectedState) != "" && cb.state == old(expectedState);
              && status == (if decides then 200 else 400)
              && done == (old(done) || decides)
              && (!decides ==> result == old(result) && !ok)
              && (decides && cb.error == "" && cb.code != "" ==> result == Result(cb.code, "", "") && ok)
              && (decides && cb.error == "" && cb.code == "" ==>
                    result == Result("", "the redirect carried neither a code nor an error", "invalid_request") && !ok)
              && (decides && cb.error != "" ==>
                    && result.code == "" && result.errorCode == Printable(cb.error) && !ok
                    && result.error == Printable(cb.error)
                                       + (if cb.description == "" then "" else ": " + Printable(cb.description)))
    {
      if done || expectedState == "" || cb.state != expectedState {
        return 400, false;
      }
      if cb.error != "" || cb.code == "" {
        var code := if cb.error == "" then INVALID_REQUEST else Printable(cb.error);
        var description := Printable(cb.description);
        var error := if cb.error == "" then NEITHER
                     else code + (if description == "" then "" else ": " + description);
        result := Result("", error, code);
      } else {
        result := Result(cb.code, "", "");
      }
      done := true;
      return 200, result.Ok();
    }

    method Expect(state: string)
      modifies this
      ensures Look() == old(Look()).(expected := state)
    {
      expectedState := state;
    }

    // Wait, from the lock to the sleep: the outcome that is there, or the deadline's.
    method Check(now: int, deadline: int) returns (ended: bool, out: Result)
      modifies this
      ensures ended <==> old(done) || now >= deadline
      ensures Look() == (if now >= deadline then Committed(old(Look()), TIMED_OUT) else old(Look()))
      ensures old(done) ==> out == Reported(old(Look()))
      ensures ended && !old(done) ==> out == TIMED_OUT
      ensures expectedState == old(expectedState) && done == ended
      ensures old(done) ==> result == old(result)
      ensures ended && !old(done) ==>
                result == out == Result("", "the login timed out before the browser returned", "expired_token")
      ensures !ended ==> result == old(result)
    {
      if done {
        out := result;
        if !out.Ok() && out.error == "" {
          out := ALREADY_USED;
        }
        return true, out;
      }
      if now >= deadline {
        out := TIMED_OUT;
        done := true;
        result := out;
        return true, out;
      }
      return false, EMPTY;
    }

    // Wait, after the caller's check said to cancel.
    method Cancel() returns (ended: bool)
      modifies this
      ensures ended == !old(done) && done && expectedState == old(expectedState)
      ensures result == if ended then Result("", "login cancelled", "cancelled") else old(result)
      ensures Look() == Committed(old(Look()), CANCELLED)
    {
      ended := !done;
      if !done {
        done := true;
        result := CANCELLED;
      }
    }
  }

  // ----- The protocol -----

  type Tid = nat

  datatype Waiter =
    | Check(deadline: int)      // at the head of the loop, wants the lock
    | Asleep(deadline: int)     // in wait_for
    | Asking(deadline: int)     // outside the lock, in the caller's cancelled()
    | Cancelling(deadline: int) // it said yes: wants the lock
    | Leaving(out: Result)      // has its result, stops the server

  // Where the outcome came from.
  datatype Origin = Nobody | Browser(cb: Callback, expected: string) | Deadline | Caller

  datatype State = State(
    running: bool,
    started: bool,
    view: View,
    waiters: map<Tid, Waiter>,
    // history
    origin: Origin,
    returned: seq<Result> // of the waits that found the receiver running
  )

  const INIT := State(false, false, View("", false, EMPTY), map[], Nobody, [])

  datatype Action =
    | Start(bound: bool)
    | Request(cb: Callback)
    | ExpectState(state: string)
    | WaitCalled(tid: Tid, deadline: int)
    | LockChecks(tid: Tid, now: int)
    | Wakes(tid: Tid)               // notified, after 200 ms, or for no reason
    | Answers(tid: Tid, yes: bool)  // what cancelled() returned
    | LockCancels(tid: Tid)
    | Leaves(tid: Tid)

  predicate Enabled(s: State, a: Action) {
    match a
    case Start(_) => true
    case Request(_) => s.running
    case ExpectState(_) => true
    case WaitCalled(tid, _) => tid !in s.waiters
    case LockChecks(tid, _) => tid in s.waiters && s.waiters[tid].Check?
    case Wakes(tid) => tid in s.waiters && s.waiters[tid].Asleep?
    case Answers(tid, _) => tid in s.waiters && s.waiters[tid].Asking?
    case LockCancels(tid) => tid in s.waiters && s.waiters[tid].Cancelling?
    case Leaves(tid) => tid in s.waiters && s.waiters[tid].Leaving?
  }

  function Step(s: State, a: Action): State
    requires Enabled(s, a)
  {
    match a
    case Start(bound) => if s.started then s else s.(started := true, running := bound)
    case Request(cb) =>
      s.(view := Handled(s.view, cb),
         origin := if Completes(s.view, cb) then Browser(cb, s.view.expected) else s.origin)
    case ExpectState(state) => s.(view := s.view.(expected := state))
    case WaitCalled(tid, deadline) =>
      if s.running then s.(waiters := s.waiters[tid := Check(deadline)]) else s
    case LockChecks(tid, now) =>
      var deadline := s.waiters[tid].deadline;
      if s.view.done then s.(waiters := s.waiters[tid := Leaving(Reported(s.view))])
      else if now >= deadline then
        s.(view := Committed(s.view, TIMED_OUT), origin := Deadline,
           waiters := s.waiters[tid := Leaving(TIMED_OUT)])
      else s.(waiters := s.waiters[tid := Asleep(deadline)])
    case Wakes(tid) =>
      var deadline := s.waiters[tid].deadline;
      s.(waiters := s.waiters[tid := if s.view.done then Check(deadline) else Asking(deadline)])
    case Answers(tid, yes) =>
      var deadline := s.waiters[tid].deadline;
      s.(waiters := s.waiters[tid := if yes then Cancelling(deadline) else Check(deadline)])
    case LockCancels(tid) =>
      if s.view.done then s.(waiters := s.waiters[tid := Check(s.waiters[tid].deadline)])
      else
        s.(view := Committed(s.view, CANCELLED), origin := Caller,
           waiters := s.waiters[tid := Leaving(CANCELLED)])
    case Leaves(tid) =>
      s.(waiters := s.waiters - {tid}, returned := s.returned + [s.waiters[tid].out])
  }

  predicate Legal(s: State, run: seq<Action>)
    decreases |run|
  {
    run == [] || (Enabled(s, run[0]) && Legal(Step(s, run[0]), run[1..]))
  }

  function Run(s: State, run: seq<Action>): State
    requires Legal(s, run)
    decreases |run|
  {
    if run == [] then s else Run(Step(s, run[0]), run[1..])
  }

  // ----- What every reachable state satisfies -----

  // A code and no error, or an error and no code.
  predicate Decided(r: Result) {
    (r.code != "" && r.error == "" && r.errorCode == "") || (r.code == "" && r.error != "" && r.errorCode != "")
  }

  lemma {:induction false} OutcomeDecided(cb: Callback)
    ensures Decided(Outcome(cb)) && Decided(TIMED_OUT) && Decided(CANCELLED)
    ensures Outcome(cb).code != "" ==> cb.error == "" && Outcome(cb).code == cb.code
  {
  }

  // The outcome fits where it came from.
  predicate Sourced(v: View, origin: Origin) {
    match origin
    case Nobody => !v.done
    case Browser(cb, expected) =>
      v.done && v.result == Outcome(cb) && expected != "" && cb.state == expected
    case Deadline => v.done && v.result == TIMED_OUT
    case Caller => v.done && v.result == CANCELLED
  }

  predicate Agreed(s: State) {
    && (forall t :: t in s.waiters && s.waiters[t].Leaving? ==> s.view.done && s.waiters[t].out == s.view.result)
    && (s.returned != [] ==> s.view.done)
    && (forall i :: 0 <= i < |s.returned| ==> s.returned[i] == s.view.result)
  }

  predicate Inv(s: State) {
    && Sourced(s.view, s.origin)
    && (s.view.done ==> Decided(s.view.result))
    && Agreed(s)
  }

  lemma {:induction false} KeepsSourced(s: State, a: Action)
    requires Sourced(s.view, s.origin) && Enabled(s, a)
    ensures Sourced(Step(s, a).view, Step(s, a).origin)
  {
    hide Outcome, TIMED_OUT, CANCELLED;
  }

  lemma {:induction false} SourcedDecided(v: View, origin: Origin)
    requires Sourced(v, origin) && v.done
    ensures Decided(v.result)
  {
    OutcomeDecided(if origin.Browser? then origin.cb else Callback("", "", "", ""));
  }

  lemma {:induction false} KeepsAgreed(s: State, a: Action)
    requires Agreed(s) && Enabled(s, a) && (s.view.done ==> Decided(s.view.result))
    ensures Agreed(Step(s, a))
  {
    hide Outcome, TIMED_OUT, CANCELLED, ALREADY_USED;
  }

  lemma {:induction false} KeepsInv(s: State, a: Action)
    requires Inv(s) && Enabled(s, a)
    ensures Inv(Step(s, a))
  {
    KeepsSourced(s, a);
    KeepsAgreed(s, a);
    if Step(s, a).view.done {
      SourcedDecided(Step(s, a).view, Step(s, a).origin);
    }
  }

  lemma {:induction false} RunInv(s: State, run: seq<Action>)
    requires Inv(s) && Legal(s, run)
    ensures Inv(Run(s, run))
    decreases |run|
  {
    if run != [] {
      KeepsInv(s, run[0]);
      RunInv(Step(s, run[0]), run[1..]);
    }
  }

  // ----- The main results, over every run -----

  // Once decided, the outcome is frozen: no later callback, Expect, deadline or cancellation moves it.
  lemma {:induction false} Frozen(s: State, run: seq<Action>)
    requires s.view.done && Legal(s, run)
    ensures Run(s, run).view.done && Run(s, run).view.result == s.view.result && Run(s, run).origin == s.origin
    decreases |run|
  {
    if run != [] {
      Frozen(Step(s, run[0]), run[1..]);
    }
  }

  // One outcome: every wait that found the receiver running returns it; it is a code without an error or
  // an error without a code, so that no wait reports the receiver as already used.
  lemma {:induction false} OneOutcome(run: seq<Action>)
    requires Legal(INIT, run)
    ensures var s := Run(INIT, run);
            && (s.view.done ==> Decided(s.view.result) && Reported(s.view) == s.view.result)
            && (s.returned != [] ==> s.view.done)
            && (forall i :: 0 <= i < |s.returned| ==> s.returned[i] == s.view.result)
  {
    RunInv(INIT, run);
  }

  // A code is the code of a callback without an error whose state was the one expected, not empty.
  lemma {:induction false} CodeFromTheExpected(run: seq<Action>)
    requires Legal(INIT, run)
    ensures var s := Run(INIT, run);
            s.view.done && s.view.result.code != "" ==>
              && s.origin.Browser?
              && s.origin.expected != "" && s.origin.cb.state == s.origin.expected
              && s.origin.cb.error == "" && s.origin.cb.code == s.view.result.code
  {
    RunInv(INIT, run);
    var s := Run(INIT, run);
    if s.origin.Browser? {
      OutcomeDecided(s.origin.cb);
    }
  }

  // The callback that brings the expected state, while nothing is decided, decides: its code with no error
  // is the outcome of every run from there; so is its error, with the description if there is one; so is a
  // complaint if it has neither.
  lemma {:induction false} CallbackDecides(s: State, cb: Callback, run: seq<Action>)
    requires s.running && !s.view.done && s.view.expected != "" && cb.state == s.view.expected
    requires Legal(Step(s, Request(cb)), run)
    ensures var t := Run(Step(s, Request(cb)), run);
            && t.view.done
            && (cb.error == "" && cb.code != "" ==> t.view.result == Result(cb.code, "", ""))
            && (cb.error == "" && cb.code == "" ==>
                  t.view.result == Result("", "the redirect carried neither a code nor an error", "invalid_request"))
            && (cb.error != "" ==>
                  && t.view.result.code == "" && t.view.result.errorCode == Printable(cb.error)
                  && t.view.result.error == Printable(cb.error)
                                            + (if cb.description == "" then "" else ": " + Printable(cb.description)))
  {
    Frozen(Step(s, Request(cb)), run);
  }

  // The caller's yes decides while nothing else has, and so does a check at the deadline.
  lemma {:induction false} CallerDecides(s: State, tid: Tid, run: seq<Action>)
    requires tid in s.waiters && s.waiters[tid].Asking? && !s.view.done
    requires Legal(Step(Step(s, Answers(tid, true)), LockCancels(tid)), run)
    ensures var t := Run(Step(Step(s, Answers(tid, true)), LockCancels(tid)), run);
            t.view.done && t.view.result == Result("", "login cancelled", "cancelled")
  {
    Frozen(Step(Step(s, Answers(tid, true)), LockCancels(tid)), run);
  }

  lemma {:induction false} DeadlineDecides(s: State, tid: Tid, now: int, run: seq<Action>)
    requires Enabled(s, LockChecks(tid, now)) && now >= s.waiters[tid].deadline && !s.view.done
    requires Legal(Step(s, LockChecks(tid, now)), run)
    ensures var t := Run(Step(s, LockChecks(tid, now)), run);
            && t.view.done
            && t.view.result == Result("", "the login timed out before the browser returned", "expired_token")
  {
    Frozen(Step(s, LockChecks(tid, now)), run);
  }

  // The receiver runs from the first start on, if its server was bound, and no later start changes that.
  lemma {:induction false} FirstStartDecides(bound: bool, run: seq<Action>)
    requires Legal(Step(INIT, Start(bound)), run)
    ensures Run(Step(INIT, Start(bound)), run).running == bound
  {
    StaysStarted(Step(INIT, Start(bound)), run);
  }

  lemma {:induction false} StaysStarted(s: State, run: seq<Action>)
    requires s.started && Legal(s, run)
    ensures Run(s, run).started && Run(s, run).running == s.running
    decreases |run|
  {
    if run != [] {
      StaysStarted(Step(s, run[0]), run[1..]);
    }
  }

  // A good callback while nothing is decided: every wait returns its code, whatever comes after it.
  lemma {:induction false} LoginSucceeds(s: State, cb: Callback, run: seq<Action>)
    requires Inv(s) && s.running && !s.view.done && cb.error == "" && cb.code != ""
    requires cb.state != "" && s.view.expected == cb.state
    requires Legal(s, [Request(cb)] + run)
    ensures var t := Run(s, [Request(cb)] + run);
            forall i :: 0 <= i < |t.returned| ==> t.returned[i] == Result(cb.code, "", "")
  {
    assert ([Request(cb)] + run)[1..] == run;
    CallbackDecides(s, cb, run);
    RunInv(s, [Request(cb)] + run);
  }

  // A wait on a running receiver is entered with its deadline.
  lemma WaitEnters(s: State, tid: Tid, deadline: int)
    requires s.running && tid !in s.waiters
    ensures Enabled(s, WaitCalled(tid, deadline))
    ensures Step(s, WaitCalled(tid, deadline)) == s.(waiters := s.waiters[tid := Check(deadline)])
  {
  }

  // While nothing is decided and the deadline is not reached, each turn of a wait asks the caller; a no
  // leaves everything as it was, the deadline too, and a yes ends the wait as cancelled.
  lemma {:induction false} CallerIsAsked(s: State, tid: Tid, deadline: int, now: int)
    requires tid in s.waiters && s.waiters[tid] == Check(deadline) && now < deadline && !s.view.done
    ensures var turn := [LockChecks(tid, now), Wakes(tid), Answers(tid, false)];
            Legal(s, turn) && Run(s, turn) == s
    ensures var turn := [LockChecks(tid, now), Wakes(tid), Answers(tid, true), LockCancels(tid)];
            && Legal(s, turn) && tid in Run(s, turn).waiters
            && Run(s, turn).waiters[tid] == Leaving(Result("", "login cancelled", "cancelled"))
  {
    var s1 := Step(s, LockChecks(tid, now));
    var s2 := Step(s1, Wakes(tid));
    assert s2.waiters == s.waiters[tid := Asking(deadline)];
    var no, yes := Step(s2, Answers(tid, false)), Step(s2, Answers(tid, true));
    assert no.waiters == s.waiters;
    InTurn(s, [LockChecks(tid, now), Wakes(tid), Answers(tid, false)]);
    InTurn(s1, [Wakes(tid), Answers(tid, false)]);
    InTurn(s2, [Answers(tid, false)]);
    InTurn(s, [LockChecks(tid, now), Wakes(tid), Answers(tid, true), LockCancels(tid)]);
    InTurn(s1, [Wakes(tid), Answers(tid, true), LockCancels(tid)]);
    InTurn(s2, [Answers(tid, true), LockCancels(tid)]);
    InTurn(yes, [LockCancels(tid)]);
  }

  lemma InTurn(s: State, run: seq<Action>)
    requires run != [] && Enabled(s, run[0])
    ensures Legal(s, run) <==> Legal(Step(s, run[0]), run[1..])
    ensures Legal(s, run) ==> Run(s, run) == Run(Step(s, run[0]), run[1..])
  {
  }

  // Expect sets the state that is expected, and nothing else; the step under the lock is the method's.
  lemma ExpectSets(s: State, state: string)
    ensures Step(s, ExpectState(state)).view == View(state, s.view.done, s.view.result)
    ensures Step(s, ExpectState(state)).waiters == s.waiters && Step(s, ExpectState(state)).running == s.running
  {
  }

  // A callback is either the one that decides, or nothing: the state a later one is held against, the
  // outcome and the waiters are as if it had not come.
  lemma {:induction false} OthersRefused(s: State, cb: Callback, run: seq<Action>)
    requires s.running && !Completes(s.view, cb)
    ensures Legal(s, [Request(cb)] + run) <==> Legal(s, run)
    ensures Legal(s, run) ==> Run(s, [Request(cb)] + run) == Run(s, run)
  {
    assert Step(s, Request(cb)) == s;
    assert ([Request(cb)] + run)[1..] == run;
  }

  // ----- A wait comes back -----

  function Distance(w: Waiter): nat {
    match w
    case Asking(_) => 4
    case Cancelling(_) => 3
    case Asleep(_) => 3
    case Check(_) => 2
    case Leaving(_) => 1
  }

  predicate StepOf(a: Action, tid: Tid) {
    match a
    case LockChecks(t, _) => t == tid
    case Wakes(t) => t == tid
    case Answers(t, _) => t == tid
    case LockCancels(t) => t == tid
    case Leaves(t) => t == tid
    case _ => false
  }

  // With the outcome there, each of a waiter's own steps brings it nearer its return, and nobody else's
  // step takes it back: it returns after four of its own steps at the most.
  lemma {:induction false} WaitReturns(s: State, a: Action, tid: Tid)
    requires s.view.done && Enabled(s, a) && tid in s.waiters
    ensures StepOf(a, tid) ==>
              if s.waiters[tid].Leaving? then tid !in Step(s, a).waiters
              else tid in Step(s, a).waiters && Distance(Step(s, a).waiters[tid]) < Distance(s.waiters[tid])
    ensures !StepOf(a, tid) ==> tid in Step(s, a).waiters && Step(s, a).waiters[tid] == s.waiters[tid]
    ensures exists b :: StepOf(b, tid) && Enabled(s, b)
  {
    NextStep(s, tid, 0);
  }

  // A check made at the deadline or later never goes back to sleep: the wait does not outlive it.
  lemma {:induction false} DeadlineEnds(s: State, tid: Tid, now: int)
    requires Enabled(s, LockChecks(tid, now)) && now >= s.waiters[tid].deadline
    ensures Step(s, LockChecks(tid, now)).view.done && Step(s, LockChecks(tid, now)).waiters[tid].Leaving?
  {
  }

  // ----- Every wait comes back -----

  // The own steps a wait is from its return, once its deadline is there.
  function Remaining(w: Waiter): nat {
    match w
    case Asleep(_) => 5
    case Asking(_) => 4
    case Cancelling(_) => 3
    case Check(_) => 2
    case Leaving(_) => 1
  }

  predicate Due(w: Waiter, time: int) {
    w.Leaving? || w.deadline <= time
  }

  // The clock its checks read is not before `time`.
  predicate Late(a: Action, tid: Tid, time: int) {
    match a
    case LockChecks(t, now) => t == tid ==> now >= time
    case _ => true
  }

  function OwnSteps(run: seq<Action>, tid: Tid): nat {
    if run == [] then 0 else (if StepOf(run[0], tid) then 1 else 0) + OwnSteps(run[1..], tid)
  }

  lemma {:induction false} LateStep(s: State, a: Action, tid: Tid, time: int)
    requires tid in s.waiters && Due(s.waiters[tid], time)
    requires Enabled(s, a) && Late(a, tid, time) && a != Leaves(tid)
    ensures tid in Step(s, a).waiters && Due(Step(s, a).waiters[tid], time)
    ensures Remaining(Step(s, a).waiters[tid]) + (if StepOf(a, tid) then 1 else 0) <= Remaining(s.waiters[tid])
  {
  }

  // From its deadline on, whatever the browser, the other waits, Expect and the caller's check do: a wait
  // that has not returned has made at most four steps, and its next one is enabled.
  lemma {:induction false} WaitComesBack(s: State, run: seq<Action>, tid: Tid, time: int)
    requires tid in s.waiters && Due(s.waiters[tid], time) && Legal(s, run)
    requires (forall i :: 0 <= i < |run| ==> Late(run[i], tid, time)) && Leaves(tid) !in run
    ensures tid in Run(s, run).waiters && OwnSteps(run, tid) < 5
    ensures OwnSteps(run, tid) + Remaining(Run(s, run).waiters[tid]) <= Remaining(s.waiters[tid])
    ensures exists b :: StepOf(b, tid) && Enabled(Run(s, run), b)
    decreases |run|
  {
    if run == [] {
      NextStep(s, tid, time);
    } else {
      LateStep(s, run[0], tid, time);
      WaitComesBack(Step(s, run[0]), run[1..], tid, time);
    }
  }

  lemma {:induction false} NextStep(s: State, tid: Tid, now: int)
    requires tid in s.waiters
    ensures exists b :: StepOf(b, tid) && Enabled(s, b)
  {
    var b := match s.waiters[tid]
      case Check(_) => LockChecks(tid, now)
      case Asleep(_) => Wakes(tid)
      case Asking(_) => Answers(tid, false)
      case Cancelling(_) => LockCancels(tid)
      case Leaving(_) => Leaves(tid);
    assert StepOf(b, tid) && Enabled(s, b);
  }

  // So the fifth of its own steps is behind its return, which hands out the one outcome.
  lemma {:induction false} FiveStepsReturn(before: seq<Action>, run: seq<Action>, tid: Tid, time: int)
    requires Legal(INIT, before) && Legal(Run(INIT, before), run)
    requires tid in Run(INIT, before).waiters && Due(Run(INIT, before).waiters[tid], time)
    requires (forall i :: 0 <= i < |run| ==> Late(run[i], tid, time)) && OwnSteps(run, tid) >= 5
    ensures Leaves(tid) in run
    ensures var s := Run(Run(INIT, before), run);
            s.view.done && |s.returned| > |Run(INIT, before).returned| && s.view.result in s.returned
  {
    var start := Run(INIT, before);
    RunInv(INIT, before);
    RunInv(start, run);
    if Leaves(tid) !in run {
      WaitComesBack(start, run, tid, time);
    }
    ReturnedGrows(start, run, tid);
    var s := Run(start, run);
    assert s.returned[|s.returned| - 1] == s.view.result;
  }

  lemma {:induction false} ReturnedGrows(s: State, run: seq<Action>, tid: Tid)
    requires Legal(s, run)
    ensures |Run(s, run).returned| >= |s.returned| + (if Leaves(tid) in run then 1 else 0)
    decreases |run|
  {
    if run != [] {
      ReturnedGrows(Step(s, run[0]), run[1..], tid);
    }
  }
}
