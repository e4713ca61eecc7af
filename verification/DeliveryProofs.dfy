/**
  What every interleaving of `Delivery` keeps, and what it comes to: no loss, order, exactly once,
  no lost wakeup, drain then flush, conserved counts, and the last event a removed sink may see.
 */
module DeliveryProofs {
  import opened Delivery

  // ----- Nothing lost, nothing twice, nothing out of order -----

  function Events(rounds: seq<Round>): seq<Event> {
    seq(|rounds|, i requires 0 <= i < |rounds| => rounds[i].event)
  }

  // The event the worker holds: popped, and its sinks not all called yet.
  function InFlight(w: Worker): seq<Event> {
    match w
    case Took(e) => [e]
    case Next(e, _, _) => [e]
    case InSink(e, _, _) => [e]
    case Failed(e, _, _) => [e]
    case _ => []
  }

  // One OnEvent per sink of the copy, in its order.
  function Calls(e: Event, sinks: seq<Sink>): seq<Entry> {
    seq(|sinks|, i requires 0 <= i < |sinks| => OnEvent(sinks[i], e))
  }

  function Flushes(sinks: seq<Sink>): seq<Entry> {
    seq(|sinks|, i requires 0 <= i < |sinks| => Flush(sinks[i]))
  }

  function RoundsLog(rounds: seq<Round>): seq<Entry> {
    if rounds == [] then []
    else var last := |rounds| - 1;
         RoundsLog(rounds[..last]) + Calls(rounds[last].event, rounds[last].sinks)
  }

  // Where in its copy of the sinks the worker stands; never past its end.
  predicate Placed(w: Worker) {
    match w
    case Next(_, sinks, at) => at <= |sinks|
    case InSink(_, sinks, at) => at < |sinks|
    case Failed(_, sinks, at) => at < |sinks|
    case Flushing(sinks, at) => at <= |sinks|
    case InFlush(sinks, at) => at < |sinks|
    case _ => true
  }

  // What the worker has called in the round (or the flush) it is in.
  function Partial(w: Worker): seq<Entry>
    requires Placed(w)
  {
    match w
    case Next(e, sinks, at) => Calls(e, sinks[..at])
    case InSink(e, sinks, at) => Calls(e, sinks[..at + 1])
    case Failed(e, sinks, at) => Calls(e, sinks[..at + 1])
    case Flushing(sinks, at) => Flushes(sinks[..at])
    case InFlush(sinks, at) => Flushes(sinks[..at + 1])
    case Ended(sinks) => Flushes(sinks)
    case _ => []
  }

  predicate Bounded(s: State) {
    |s.view.queue| <= s.view.capacity
  }

  predicate Conserved(s: State) {
    s.accepted == Events(s.rounds) + InFlight(s.worker) + s.view.queue
  }

  predicate Logged(s: State) {
    Placed(s.worker) && s.log == RoundsLog(s.rounds) + Partial(s.worker)
  }

  lemma {:induction false} KeepsBounded(s: State, a: Action)
    requires Bounded(s) && Enabled(s, a)
    ensures Bounded(Step(s, a))
  {
  }

  lemma {:induction false} KeepsConserved(s: State, a: Action)
    requires Conserved(s) && Enabled(s, a)
    ensures Conserved(Step(s, a))
  {
    var t := Step(s, a);
    if a.Lock? && s.view.queue != [] {
      assert s.view.queue == [s.view.queue[0]] + s.view.queue[1..];
    }
    if a.LoopEnds? {
      assert Events(t.rounds) == Events(s.rounds) + [s.worker.event];
    }
  }

  lemma {:induction false} CallLogged(s: State, a: Action)
    requires Placed(s.worker) && Enabled(s, a) && (a.CallSink? || a.CallFlush?)
    ensures Placed(Step(s, a).worker)
    ensures Step(s, a).log == s.log + [Step(s, a).log[|s.log|]]
    ensures Partial(Step(s, a).worker) == Partial(s.worker) + [Step(s, a).log[|s.log|]]
  {
    var w := s.worker;
    assert w.sinks[..w.at + 1] == w.sinks[..w.at] + [w.sinks[w.at]];
  }

  // No other step changes what was called in the round.
  lemma {:induction false} SamePartial(s: State, a: Action)
    requires Placed(s.worker) && Enabled(s, a)
    requires !a.CallSink? && !a.CallFlush? && !a.LoopEnds? && !a.End?
    ensures Step(s, a).log == s.log && Step(s, a).rounds == s.rounds
    ensures Placed(Step(s, a).worker) && Partial(Step(s, a).worker) == Partial(s.worker)
  {
  }

  lemma {:induction false} RoundLogged(s: State)
    requires Placed(s.worker) && Enabled(s, LoopEnds)
    ensures RoundsLog(Step(s, LoopEnds).rounds) == RoundsLog(s.rounds) + Partial(s.worker)
  {
    assert s.worker.sinks[..s.worker.at] == s.worker.sinks;
    assert Step(s, LoopEnds).rounds[..|s.rounds|] == s.rounds;
  }

  lemma {:induction false} KeepsLogged(s: State, a: Action)
    requires Logged(s) && Enabled(s, a)
    ensures Logged(Step(s, a))
  {
    hide RoundsLog;
    match a
    case CallSink => CallLogged(s, a);
    case CallFlush => CallLogged(s, a);
    case LoopEnds => RoundLogged(s);
    case End => assert s.worker.sinks[..s.worker.at] == s.worker.sinks;
    case _ => SamePartial(s, a);
  }

  // ----- The wakeup, the stop and the join -----

  predicate OwesNotify(c: Call) {
    c.PushNotify? || c.StopNotify?
  }

  predicate Stopping(c: Call) {
    c.StopNotify? || c.StopCheck? || c.StopJoin?
  }

  // A parked worker that has something to do is owed a notify by a thread that has left the lock.
  predicate NoLostWakeup(s: State) {
    s.worker.Parked? && (s.view.queue != [] || s.view.stopping) ==>
      exists tid :: tid in s.calls && OwesNotify(s.calls[tid])
  }

  predicate OutOfLoop(w: Worker) {
    w.Draining? || w.Flushing? || w.InFlush? || w.Ended?
  }

  // The loop is left only by a stop, with nothing queued.
  predicate LeftByStop(s: State) {
    && (OutOfLoop(s.worker) ==> s.view.stopping && s.view.queue == [])
    && (s.handle == Joined ==> s.worker.Ended?)
  }

  // The worker's own calls are made from inside a sink, and it never joins itself.
  predicate NoSelfJoin(s: State) {
    WORKER in s.calls ==> InCallback(s.worker) && s.calls[WORKER] != StopJoin
  }

  // One call gets past the flag, and it finds the thread attached.
  predicate StopOnce(s: State) {
    && (forall t :: t in s.calls && Stopping(s.calls[t]) ==> s.view.stopping && s.handle == Attached)
    && (forall t, u :: t in s.calls && u in s.calls && Stopping(s.calls[t]) && Stopping(s.calls[u]) ==> t == u)
    && (s.handle != Attached ==> s.view.stopping)
  }

  lemma {:induction false} KeepsNoLostWakeup(s: State, a: Action)
    requires NoLostWakeup(s) && Enabled(s, a)
    ensures NoLostWakeup(Step(s, a))
  {
    var t := Step(s, a);
    if t.worker.Parked? && (t.view.queue != [] || t.view.stopping) {
      if a.PushLock? || a.StopLock? {
        if t.calls != s.calls && OwesNotify(t.calls[a.tid]) {
        } else {
          var tid :| tid in s.calls && OwesNotify(s.calls[tid]);
          assert tid in t.calls && t.calls[tid] == s.calls[tid];
        }
      } else {
        var tid :| tid in s.calls && OwesNotify(s.calls[tid]);
        assert tid in t.calls && OwesNotify(t.calls[tid]);
      }
    }
  }

  lemma {:induction false} KeepsLeftByStop(s: State, a: Action)
    requires LeftByStop(s) && Enabled(s, a)
    ensures LeftByStop(Step(s, a))
  {
  }

  lemma {:induction false} KeepsNoSelfJoin(s: State, a: Action)
    requires NoSelfJoin(s) && Enabled(s, a)
    ensures NoSelfJoin(Step(s, a))
  {
  }

  lemma {:induction false} KeepsStopOnce(s: State, a: Action)
    requires StopOnce(s) && Enabled(s, a)
    ensures StopOnce(Step(s, a))
  {
    hide Finding, Awake, WithoutFirst;
    assert a.StopLock? && !s.view.stopping ==> forall u :: u in s.calls ==> !Stopping(s.calls[u]);
  }

  // ----- Conserved counts -----

  // The threads at this point of a call, and how many they are.
  function Those(calls: map<Tid, Call>, c: Call): set<Tid> {
    set t | t in calls && calls[t] == c
  }

  function Count(calls: map<Tid, Call>, c: Call): nat {
    |Those(calls, c)|
  }

  lemma {:induction false} CountRemoved(calls: map<Tid, Call>, tid: Tid, c: Call)
    requires tid in calls
    ensures Count(calls - {tid}, c) == Count(calls, c) - (if calls[tid] == c then 1 else 0)
  {
    assert Those(calls - {tid}, c) == Those(calls, c) - {tid};
  }

  lemma {:induction false} CountAdded(calls: map<Tid, Call>, tid: Tid, to: Call, c: Call)
    requires tid !in calls
    ensures Count(calls[tid := to], c) == Count(calls, c) + (if to == c then 1 else 0)
  {
    var there, before := Those(calls[tid := to], c), Those(calls, c);
    forall t
      ensures t in there <==> t in before || (t == tid && to == c)
    {
    }
    assert there == if to == c then before + {tid} else before;
  }

  lemma {:induction false} CountMoved(calls: map<Tid, Call>, tid: Tid, to: Call, c: Call)
    requires tid in calls
    ensures Count(calls[tid := to], c) ==
            Count(calls, c) - (if calls[tid] == c then 1 else 0) + (if to == c then 1 else 0)
  {
    CountRemoved(calls, tid, c);
    CountAdded(calls - {tid}, tid, to, c);
    assert (calls - {tid})[tid := to] == calls[tid := to];
  }

  // Every call count after an action, from the counts before it.
  lemma {:induction false} CountsAfter(s: State, a: Action, c: Call)
    requires Enabled(s, a)
    ensures match a
            case PushLock(_, _) =>
              Count(Step(s, a).calls, c) ==
              Count(s.calls, c) + (if c == (if Accepts(s.view) then PushNotify else PushTally) then 1 else 0)
            case NotifyOne(_) => Count(Step(s, a).calls, c) == Count(s.calls, c) - (if c.PushNotify? then 1 else 0)
            case TallyDropped(_) => Count(Step(s, a).calls, c) == Count(s.calls, c) - (if c.PushTally? then 1 else 0)
            case StopLock(_) =>
              Count(Step(s, a).calls, c) ==
              Count(s.calls, c) + (if c.StopNotify? && !s.view.stopping then 1 else 0)
            case NotifyAll(_) =>
              Count(Step(s, a).calls, c) ==
              Count(s.calls, c) + (if c.StopCheck? then 1 else if c.StopNotify? then -1 else 0)
            case Inspect(tid) =>
              Count(Step(s, a).calls, c) ==
              Count(s.calls, c) + (if c.StopCheck? then -1
                                   else if c.StopJoin? && s.handle == Attached && tid != WORKER then 1 else 0)
            case JoinReturns(_) => Count(Step(s, a).calls, c) == Count(s.calls, c) - (if c.StopJoin? then 1 else 0)
            case _ => Step(s, a).calls == s.calls
  {
    match a
    case PushLock(tid, _) => CountAdded(s.calls, tid, if Accepts(s.view) then PushNotify else PushTally, c);
    case StopLock(tid) => CountAdded(s.calls, tid, StopNotify, c);
    case NotifyOne(tid) => CountRemoved(s.calls, tid, c);
    case TallyDropped(tid) => CountRemoved(s.calls, tid, c);
    case NotifyAll(tid) => CountMoved(s.calls, tid, StopCheck, c);
    case Inspect(tid) =>
      CountRemoved(s.calls, tid, c);
      CountMoved(s.calls, tid, StopJoin, c);
    case JoinReturns(tid) => CountRemoved(s.calls, tid, c);
    case _ =>
  }

  predicate Counted(s: State) {
    && s.pushes == |s.accepted| + s.dropped + Count(s.calls, PushTally)
    && |s.accepted| == s.trueReturns + Count(s.calls, PushNotify)
    && s.thrown == s.sinkFailed + (if s.worker.Failed? then 1 else 0)
  }

  lemma {:induction false} KeepsCounted(s: State, a: Action)
    requires Counted(s) && Enabled(s, a)
    ensures Counted(Step(s, a))
  {
    CountsAfter(s, a, PushNotify);
    CountsAfter(s, a, PushTally);
  }

  // ----- The invariant of every reachable state -----

  predicate Inv(s: State) {
    Bounded(s) && Conserved(s) && Logged(s) && NoLostWakeup(s) && LeftByStop(s) && NoSelfJoin(s) && StopOnce(s)
    && Counted(s)
  }

  lemma {:induction false} InitInv(capacity: nat)
    ensures Inv(Init(capacity))
  {
    assert Those(map[], PushNotify) == {} && Those(map[], PushTally) == {};
  }

  lemma {:induction false} KeepsInv(s: State, a: Action)
    requires Inv(s) && Enabled(s, a)
    ensures Inv(Step(s, a))
  {
    KeepsBounded(s, a);
    KeepsConserved(s, a);
    KeepsLogged(s, a);
    KeepsNoLostWakeup(s, a);
    KeepsLeftByStop(s, a);
    KeepsNoSelfJoin(s, a);
    KeepsStopOnce(s, a);
    KeepsCounted(s, a);
  }

  lemma {:induction false} RunInv(s: State, run: seq<Action>)
    requires Inv(s) && Legal(s, run)
    ensures Inv(Run(s, run))
    decreases |run|
  {
    if run != [] {
      KeepsInv(s, run[0]);
      RunInv(Step(s, run[0]), run[1..]);
    }
  }

  // ----- The steps under the lock, by fields -----

  // Any thread without an open call may push; the worker from inside a sink. The push is accepted when
  // delivery runs and the queue has room, and only then.
  lemma PushLocks(s: State, tid: Tid, e: Event)
    requires tid !in s.calls && (tid == WORKER ==> s.worker.InSink? || s.worker.InFlush?)
    ensures Enabled(s, PushLock(tid, e))
    ensures var t := Step(s, PushLock(tid, e));
            if !s.view.stopping && |s.view.queue| < s.view.capacity then
              && t.view == View(s.view.capacity, s.view.queue + [e], false)
              && t.accepted == s.accepted + [e] && At(t, tid, PushNotify)
            else t.view == s.view && t.accepted == s.accepted && At(t, tid, PushTally)
  {
  }

  // So may it stop. The flag is up after any stop, and the first one goes on.
  lemma StopLocks(s: State, tid: Tid)
    requires tid !in s.calls && (tid == WORKER ==> s.worker.InSink? || s.worker.InFlush?)
    ensures Enabled(s, StopLock(tid))
    ensures var t := Step(s, StopLock(tid));
            && t.view == View(s.view.capacity, s.view.queue, true)
            && if s.view.stopping then tid !in t.calls else At(t, tid, StopNotify)
  {
  }

  // The worker takes the oldest event; with none it leaves the loop if stopped, and parks otherwise.
  lemma WorkerLocks(s: State)
    requires s.worker.Top?
    ensures Enabled(s, Lock)
    ensures var t := Step(s, Lock);
            if s.view.queue != [] then
              t.worker == Took(s.view.queue[0]) && t.view == View(s.view.capacity, s.view.queue[1..], s.view.stopping)
            else t.view == s.view && t.worker == if s.view.stopping then Draining else Parked
  {
  }

  predicate LosesFirst(sinks: seq<Sink>, k: Sink, i: int, rest: seq<Sink>) {
    0 <= i < |sinks| && sinks[i] == k && k !in sinks[..i] && rest == sinks[..i] + sinks[i + 1..]
  }

  // A sink is added at the end of the registry; the first of its registrations is removed, if there is one.
  lemma {:induction false} RegistryEdits(s: State, k: Sink)
    ensures Step(s, AddSink(k)) == s.(registry := s.registry + [k])
    ensures k !in s.registry ==> Step(s, RemoveSink(k)) == s
    ensures k in s.registry ==>
              exists i :: LosesFirst(s.registry, k, i, Step(s, RemoveSink(k)).registry)
  {
    if k in s.registry {
      var i := FirstOf(s.registry, k);
      WithoutFirstAt(s.registry, k, i);
      assert LosesFirst(s.registry, k, i, Step(s, RemoveSink(k)).registry);
    } else {
      WithoutFirstAbsent(s.registry, k);
    }
  }

  lemma {:induction false} FirstOf(sinks: seq<Sink>, k: Sink) returns (i: nat)
    requires k in sinks
    ensures i < |sinks| && sinks[i] == k && k !in sinks[..i]
  {
    i := 0;
    while sinks[i] != k
      invariant i < |sinks| && k !in sinks[..i]
      invariant k in sinks[i..]
      decreases |sinks| - i
    {
      i := i + 1;
    }
  }

  // The sinks of a round, and those that are flushed, are the registry's at the copy; none if it throws.
  lemma CopiesRegistry(s: State, throws: bool)
    ensures s.worker.Took? ==>
              && Enabled(s, Snapshot(throws))
              && Step(s, Snapshot(throws)).worker == Next(s.worker.event, if throws then [] else s.registry, 0)
    ensures s.worker.Draining? ==>
              && Enabled(s, FinalSnapshot(throws))
              && Step(s, FinalSnapshot(throws)).worker == Flushing(if throws then [] else s.registry, 0)
  {
  }

  // ----- The main results, over every run -----

  // Exactly once and in acceptance order: what was accepted is what was handed out, then the event in
  // hand, then the queue; and each round's sinks were called with its event, one after the other,
  // whichever of them threw.
  lemma {:induction false} ExactlyOnceInOrder(capacity: nat, run: seq<Action>)
    requires Legal(Init(capacity), run)
    ensures var s := Run(Init(capacity), run);
            && s.accepted == Events(s.rounds) + InFlight(s.worker) + s.view.queue
            && |s.view.queue| <= s.view.capacity
            && Placed(s.worker) && s.log == RoundsLog(s.rounds) + Partial(s.worker)
  {
    InitInv(capacity);
    RunInv(Init(capacity), run);
  }

  // With no push between its lock and its return, the pushes are those that returned true and those
  // counted as dropped, and the first are the accepted ones; every throw is counted but the last.
  lemma {:induction false} CountsAreConserved(capacity: nat, run: seq<Action>)
    requires Legal(Init(capacity), run)
    ensures var s := Run(Init(capacity), run);
            && s.pushes == |s.accepted| + s.dropped + Count(s.calls, PushTally)
            && |s.accepted| == s.trueReturns + Count(s.calls, PushNotify)
            && s.thrown == s.sinkFailed + (if s.worker.Failed? then 1 else 0)
  {
    InitInv(capacity);
    RunInv(Init(capacity), run);
  }

  // Nothing is accepted once a stop was asked for, and the flag stays.
  lemma {:induction false} StopRefuses(s: State, run: seq<Action>)
    requires s.view.stopping && Legal(s, run)
    ensures Run(s, run).view.stopping && Run(s, run).accepted == s.accepted
    ensures |Run(s, run).view.queue| <= |s.view.queue|
    decreases |run|
  {
    if run != [] {
      StopRefuses(Step(s, run[0]), run[1..]);
    }
  }

  lemma {:induction false} NoFlushInRounds(rounds: seq<Round>)
    ensures forall i :: 0 <= i < |RoundsLog(rounds)| ==> RoundsLog(rounds)[i].OnEvent?
  {
    if rounds != [] {
      NoFlushInRounds(rounds[..|rounds| - 1]);
    }
  }

  // Drain, then flush: when the worker has ended every accepted event was handed to each sink of its
  // copy, then each sink of the last copy was flushed once, and nothing came after. It has ended
  // whenever a stop by another thread has returned from its join.
  lemma {:induction false} DrainedThenFlushed(capacity: nat, run: seq<Action>)
    requires Legal(Init(capacity), run)
    ensures var s := Run(Init(capacity), run);
            && (s.handle.Joined? ==> s.worker.Ended?)
            && (s.worker.Ended? ==>
                  && s.view.stopping && s.view.queue == []
                  && s.accepted == Events(s.rounds)
                  && s.log == RoundsLog(s.rounds) + Flushes(s.worker.sinks))
    ensures var log := Run(Init(capacity), run).log;
            forall i, j :: 0 <= i < j < |log| && log[i].Flush? ==> log[j].Flush?
  {
    InitInv(capacity);
    RunInv(Init(capacity), run);
    var s := Run(Init(capacity), run);
    NoFlushInRounds(s.rounds);
    if s.worker.Ended? {
      assert Events(s.rounds) + [] + [] == Events(s.rounds);
    }
  }

  // ----- No deadlock: the system settles by itself -----

  // Steps that need nobody outside: every started call goes on, the worker works, a sink returns or
  // throws. Left out: new calls, registry edits and spurious wakeups.
  predicate System(a: Action) {
    !a.PushLock? && !a.StopLock? && !a.AddSink? && !a.RemoveSink? && !a.SpuriousWake?
  }

  ghost predicate Quiet(s: State) {
    forall a :: System(a) ==> !Enabled(s, a)
  }

  datatype Measure = Measure(work: nat, queued: nat, stage: nat, left: nat)

  predicate Below(x: Measure, y: Measure) {
    x.work < y.work || (x.work == y.work && (x.queued < y.queued || (x.queued == y.queued &&
    (x.stage < y.stage || (x.stage == y.stage && x.left < y.left)))))
  }

  function Work(calls: map<Tid, Call>): nat {
    Count(calls, PushNotify) + Count(calls, PushTally)
    + 3 * Count(calls, StopNotify) + 2 * Count(calls, StopCheck) + Count(calls, StopJoin)
  }

  function Stage(w: Worker): nat {
    match w
    case Took(_) => 5
    case Next(_, _, _) => 4
    case InSink(_, _, _) => 4
    case Failed(_, _, _) => 4
    case Top => 3
    case Draining => 2
    case Flushing(_, _) => 1
    case InFlush(_, _) => 1
    case Parked => 0
    case Ended(_) => 0
  }

  function Left(w: Worker): nat
    requires Placed(w)
  {
    match w
    case Next(_, sinks, at) => 3 * (|sinks| - at)
    case InSink(_, sinks, at) => 3 * (|sinks| - at) - 1
    case Failed(_, sinks, at) => 3 * (|sinks| - at) - 2
    case Flushing(sinks, at) => 2 * (|sinks| - at)
    case InFlush(sinks, at) => 2 * (|sinks| - at) - 1
    case _ => 0
  }

  function MeasureOf(s: State): Measure
    requires Placed(s.worker)
  {
    Measure(Work(s.calls), |s.view.queue|, Stage(s.worker), Left(s.worker))
  }

  // Each system step brings the system nearer its rest.
  lemma {:induction false} SystemStepsDescend(s: State, a: Action)
    requires Inv(s) && System(a) && Enabled(s, a)
    ensures Placed(Step(s, a).worker)
    ensures Below(MeasureOf(Step(s, a)), MeasureOf(s))
  {
    KeepsLogged(s, a);
    CountsAfter(s, a, PushNotify);
    CountsAfter(s, a, PushTally);
    CountsAfter(s, a, StopNotify);
    CountsAfter(s, a, StopCheck);
    CountsAfter(s, a, StopJoin);
  }

  predicate WorkerStep(a: Action) {
    match a
    case Lock => true
    case Snapshot(_) => true
    case CallSink => true
    case SinkReturns => true
    case SinkThrows => true
    case TallyFailed => true
    case LoopEnds => true
    case FinalSnapshot(_) => true
    case CallFlush => true
    case FlushEnds => true
    case End => true
    case _ => false
  }

  // A step of this thread's call.
  predicate CallStep(a: Action, tid: Tid) {
    match a
    case NotifyOne(t) => t == tid
    case TallyDropped(t) => t == tid
    case NotifyAll(t) => t == tid
    case Inspect(t) => t == tid
    case JoinReturns(t) => t == tid
    case _ => false
  }

  // The worker's next step, unless it is parked, has ended, or waits for a call made in a sink.
  lemma {:induction false} WorkerMoves(s: State) returns (a: Action)
    requires !s.worker.Parked? && !s.worker.Ended? && (InCallback(s.worker) ==> WORKER !in s.calls)
    ensures System(a) && Enabled(s, a) && WorkerStep(a)
  {
    a := match s.worker
      case Top => Lock
      case Took(_) => Snapshot(false)
      case Next(_, sinks, at) => if at < |sinks| then CallSink else LoopEnds
      case InSink(_, _, _) => SinkReturns
      case Failed(_, _, _) => TallyFailed
      case Draining => FinalSnapshot(false)
      case Flushing(sinks, at) => if at < |sinks| then CallFlush else End
      case _ => FlushEnds;
  }

  // A call's next step, unless it is a join and the worker has not ended.
  lemma {:induction false} CallMoves(s: State, tid: Tid) returns (a: Action)
    requires tid in s.calls && (s.calls[tid].StopJoin? ==> s.worker.Ended?)
    ensures System(a) && Enabled(s, a) && CallStep(a, tid)
  {
    a := match s.calls[tid]
      case PushNotify => NotifyOne(tid)
      case PushTally => TallyDropped(tid)
      case StopNotify => NotifyAll(tid)
      case StopCheck => Inspect(tid)
      case StopJoin => JoinReturns(tid);
  }

  // At rest every call has returned and every accepted event was handed out; the worker is parked with
  // nothing to do, or it has been stopped, has flushed and has ended.
  lemma {:induction false} Rest(s: State)
    requires Inv(s) && Quiet(s)
    ensures s.calls == map[]
    ensures s.view.queue == [] && s.accepted == Events(s.rounds)
    ensures if s.view.stopping then s.worker.Ended? else s.worker.Parked?
    ensures s.view.stopping ==> s.log == RoundsLog(s.rounds) + Flushes(s.worker.sinks)
  {
    forall t | t in s.calls
      ensures s.calls[t] == StopJoin && !s.worker.Ended?
    {
      if !(s.calls[t] == StopJoin && !s.worker.Ended?) {
        var a := CallMoves(s, t);
      }
    }
    if !s.worker.Parked? && !s.worker.Ended? {
      var a := WorkerMoves(s);
    }
    assert s.calls.Keys == {};
    assert Events(s.rounds) + [] + [] == Events(s.rounds);
  }

  lemma {:induction false} Prepended(s: State, a: Action, rest: seq<Action>)
    requires Enabled(s, a) && Legal(Step(s, a), rest)
    ensures Legal(s, [a] + rest) && Run(s, [a] + rest) == Run(Step(s, a), rest)
  {
    assert ([a] + rest)[1..] == rest;
  }

  lemma {:induction false} SystemStep(s: State) returns (a: Action)
    requires Inv(s) && !Quiet(s)
    ensures System(a) && Enabled(s, a) && Inv(Step(s, a))
    ensures Below(MeasureOf(Step(s, a)), MeasureOf(s))
  {
    a :| System(a) && Enabled(s, a);
    KeepsInv(s, a);
    SystemStepsDescend(s, a);
  }

  // From every reachable state the system reaches its rest by itself, whatever the sinks do.
  lemma {:induction false} Settles(s: State) returns (run: seq<Action>)
    requires Inv(s)
    ensures Legal(s, run) && (forall i :: 0 <= i < |run| ==> System(run[i]))
    ensures Quiet(Run(s, run))
    decreases MeasureOf(s).work, MeasureOf(s).queued, MeasureOf(s).stage, MeasureOf(s).left
  {
    hide Bounded, Conserved, NoLostWakeup, LeftByStop, NoSelfJoin, StopOnce, Counted, Work, Stage, Left, Step, Enabled;
    if Quiet(s) {
      run := [];
    } else {
      var a := SystemStep(s);
      var rest := Settles(Step(s, a));
      Prepended(s, a, rest);
      run := [a] + rest;
    }
  }

  // No deadlock, and no thread joins itself: until the worker has ended, while an event is queued or a
  // stop was asked for, some step is enabled that needs nobody outside.
  lemma {:induction false} NeverStuck(capacity: nat, run: seq<Action>)
    requires Legal(Init(capacity), run)
    ensures var s := Run(Init(capacity), run);
            && !At(s, WORKER, StopJoin)
            && (!s.worker.Ended? && (s.view.queue != [] || s.view.stopping) ==>
                  exists a :: System(a) && Enabled(s, a))
  {
    InitInv(capacity);
    RunInv(Init(capacity), run);
    var s := Run(Init(capacity), run);
    if !s.worker.Ended? && (s.view.queue != [] || s.view.stopping) && Quiet(s) {
      Rest(s);
    }
  }

  // The call that got past the flag is alone, and it finds the thread still attached: the check of
  // `joinable` never turns a stop away.
  lemma {:induction false} StopIsAlone(capacity: nat, run: seq<Action>, t: Tid, u: Tid)
    requires Legal(Init(capacity), run)
    ensures var s := Run(Init(capacity), run);
            && (t in s.calls && Stopping(s.calls[t]) ==> s.view.stopping && s.handle == Attached)
            && (t in s.calls && u in s.calls && Stopping(s.calls[t]) && Stopping(s.calls[u]) ==> t == u)
  {
    InitInv(capacity);
    RunInv(Init(capacity), run);
  }

  // ----- A stop waits -----

  lemma {:induction false} StopWaitsStep(s: State, a: Action, tid: Tid)
    requires Inv(s) && tid != WORKER && tid in s.calls && Stopping(s.calls[tid]) && Enabled(s, a)
    ensures Step(s, a).worker.Ended? || (tid in Step(s, a).calls && Stopping(Step(s, a).calls[tid]))
  {
  }

  lemma {:induction false} EndedStays(s: State, run: seq<Action>)
    requires s.worker.Ended? && Legal(s, run)
    ensures Run(s, run).worker.Ended?
    decreases |run|
  {
    if run != [] {
      EndedStays(Step(s, run[0]), run[1..]);
    }
  }

  // The stop that got past the flag, on any thread but the worker's, has not returned before the worker
  // has ended.
  lemma {:induction false} StopWaits(s: State, run: seq<Action>, tid: Tid)
    requires Inv(s) && tid != WORKER && tid in s.calls && Stopping(s.calls[tid]) && Legal(s, run)
    ensures Run(s, run).worker.Ended? || (tid in Run(s, run).calls && Stopping(Run(s, run).calls[tid]))
    decreases |run|
  {
    if run != [] {
      StopWaitsStep(s, run[0], tid);
      KeepsInv(s, run[0]);
      if Step(s, run[0]).worker.Ended? {
        EndedStays(Step(s, run[0]), run[1..]);
      } else {
        StopWaits(Step(s, run[0]), run[1..], tid);
      }
    }
  }

  // The worker's own stop, from inside a sink, returns without waiting: in two more steps of its own.
  lemma {:induction false} OwnStopReturns(s: State)
    requires Inv(s) && At(s, WORKER, StopNotify)
    ensures Enabled(s, NotifyAll(WORKER)) && Enabled(Step(s, NotifyAll(WORKER)), Inspect(WORKER))
    ensures var t := Step(Step(s, NotifyAll(WORKER)), Inspect(WORKER));
            WORKER !in t.calls && t.worker == s.worker && t.view == s.view && t.handle == Detached
  {
  }

  // ----- A stop drains, whatever the others do -----

  function WorkerSteps(run: seq<Action>): nat {
    if run == [] then 0 else (if WorkerStep(run[0]) then 1 else 0) + WorkerSteps(run[1..])
  }

  // At most n sinks are registered all along the run.
  predicate AtMost(s: State, run: seq<Action>, n: nat)
    requires Legal(s, run)
    decreases |run|
  {
    |s.registry| <= n && (run != [] ==> AtMost(Step(s, run[0]), run[1..], n))
  }

  // The worker's steps from here to its end, over the queue left out, with n sinks in a copy to come.
  function Ahead(w: Worker, n: nat): nat
    requires Placed(w)
  {
    match w
    case Top => 2 * n + 3
    case Parked => 2 * n + 3
    case Took(_) => 5 * n + 5
    case Next(_, _, _) => Left(w) + 2 * n + 4
    case InSink(_, _, _) => Left(w) + 2 * n + 4
    case Failed(_, _, _) => Left(w) + 2 * n + 4
    case Draining => 2 * n + 2
    case Flushing(_, _) => Left(w) + 1
    case InFlush(_, _) => Left(w) + 1
    case Ended(_) => 0
  }

  function Budget(s: State, n: nat): nat
    requires Placed(s.worker)
  {
    |s.view.queue| * (3 * n + 3) + Ahead(s.worker, n)
  }

  lemma {:induction false} OneFewer(queue: nat, n: nat)
    requires queue > 0
    ensures queue * (3 * n + 3) == (queue - 1) * (3 * n + 3) + (3 * n + 3)
  {
  }

  // Once a stop was asked for, no thread's step adds to what the worker has ahead, and its own take from it.
  lemma {:induction false} StepSpends(s: State, a: Action, n: nat)
    requires s.view.stopping && Placed(s.worker) && Enabled(s, a) && |s.registry| <= n
    ensures Step(s, a).view.stopping && Placed(Step(s, a).worker)
    ensures Step(s, a).worker.Parked? ==> s.worker.Parked?
    ensures Budget(Step(s, a), n) + (if WorkerStep(a) then 1 else 0) <= Budget(s, n)
  {
    if a.Lock? && s.view.queue != [] {
      OneFewer(|s.view.queue|, n);
    }
  }

  // Whatever is pushed, stopped or registered meanwhile: from a stop on, the worker makes no more steps
  // than it had ahead, n sinks being the most that are ever registered; after as many it has ended; and
  // once awake it is not parked again.
  lemma {:induction false} StopDrains(s: State, run: seq<Action>, n: nat)
    requires s.view.stopping && Placed(s.worker) && Legal(s, run) && AtMost(s, run, n)
    ensures Placed(Run(s, run).worker)
    ensures WorkerSteps(run) + Budget(Run(s, run), n) <= Budget(s, n)
    ensures WorkerSteps(run) >= Budget(s, n) ==> Run(s, run).worker.Ended?
    ensures Run(s, run).worker.Parked? ==> s.worker.Parked?
    decreases |run|
  {
    if run != [] {
      StepSpends(s, run[0], n);
      StopDrains(Step(s, run[0]), run[1..], n);
    }
  }

  // What brings the worker on: its own step, a notify while it is parked, or a step of the call it made in
  // a sink.
  predicate BringsOn(s: State, a: Action) {
    || WorkerStep(a)
    || (s.worker.Parked? && (a.NotifyOne? || a.NotifyAll?))
    || (InCallback(s.worker) && CallStep(a, WORKER))
  }

  // And until it has ended one such step is enabled.
  lemma {:induction false} StopNeverWaits(s: State)
    requires Inv(s) && s.view.stopping && !s.worker.Ended?
    ensures exists a :: BringsOn(s, a) && Enabled(s, a)
  {
    var a: Action;
    if s.worker.Parked? {
      var tid :| tid in s.calls && OwesNotify(s.calls[tid]);
      a := if s.calls[tid].PushNotify? then NotifyOne(tid) else NotifyAll(tid);
    } else if InCallback(s.worker) && WORKER in s.calls {
      a := CallMoves(s, WORKER);
    } else {
      a := WorkerMoves(s);
    }
    assert BringsOn(s, a) && Enabled(s, a);
  }

  // ----- A removed sink -----

  // How often the sink was called with an event.
  function Heard(log: seq<Entry>, k: Sink): nat {
    if log == [] then 0
    else Heard(log[..|log| - 1], k)
         + (if log[|log| - 1].OnEvent? && log[|log| - 1].sink == k then 1 else 0)
  }

  function Times(sinks: seq<Sink>, k: Sink): nat {
    if sinks == [] then 0 else (if sinks[0] == k then 1 else 0) + Times(sinks[1..], k)
  }

  lemma {:induction false} TimesAdded(sinks: seq<Sink>, x: Sink, k: Sink)
    ensures Times(sinks + [x], k) == Times(sinks, k) + (if x == k then 1 else 0)
  {
    if sinks == [] {
      assert [x][1..] == [];
    } else {
      assert (sinks + [x])[1..] == sinks[1..] + [x];
      TimesAdded(sinks[1..], x, k);
    }
  }

  lemma {:induction false} TimesRemoved(sinks: seq<Sink>, x: Sink, k: Sink)
    ensures Times(WithoutFirst(sinks, x), k) ==
            Times(sinks, k) - (if x == k && Times(sinks, k) > 0 then 1 else 0)
  {
    if sinks != [] && sinks[0] != x {
      assert WithoutFirst(sinks, x)[1..] == WithoutFirst(sinks[1..], x);
      TimesRemoved(sinks[1..], x, k);
    }
  }

  // The calls the worker's copy still holds for it.
  function Owed(w: Worker, k: Sink): nat
    requires Placed(w)
  {
    match w
    case Next(_, sinks, at) => Times(sinks[at..], k)
    case InSink(_, sinks, at) => Times(sinks[at + 1..], k)
    case Failed(_, sinks, at) => Times(sinks[at + 1..], k)
    case _ => 0
  }

  // Only the copy's start and the call itself change what is owed.
  lemma {:induction false} OwedAfter(s: State, a: Action, k: Sink)
    requires Placed(s.worker) && Enabled(s, a)
    ensures Placed(Step(s, a).worker)
    ensures Owed(Step(s, a).worker, k) ==
            match a
            case Snapshot(throws) => if throws then 0 else Times(s.registry, k)
            case CallSink => Owed(s.worker, k) - (if s.worker.sinks[s.worker.at] == k then 1 else 0)
            case LoopEnds => 0
            case FinalSnapshot(_) => 0
            case _ => Owed(s.worker, k)
  {
    if a.CallSink? {
      var w := s.worker;
      assert w.sinks[w.at..][1..] == w.sinks[w.at + 1..];
    } else if a.Snapshot? {
      assert s.registry[0..] == s.registry;
    }
  }

  lemma {:induction false} HeardMore(s: State, a: Action, k: Sink)
    requires Placed(s.worker) && Enabled(s, a)
    ensures Heard(Step(s, a).log, k) ==
            Heard(s.log, k) + (if a.CallSink? && s.worker.sinks[s.worker.at] == k then 1 else 0)
  {
    var t := Step(s, a);
    if a.CallSink? || a.CallFlush? {
      assert t.log[..|t.log| - 1] == s.log;
    }
  }

  lemma {:induction false} RegistryAfter(s: State, a: Action, k: Sink)
    requires Enabled(s, a)
    ensures Times(Step(s, a).registry, k) ==
            if a == AddSink(k) then Times(s.registry, k) + 1
            else if a == RemoveSink(k) && Times(s.registry, k) > 0 then Times(s.registry, k) - 1
            else Times(s.registry, k)
  {
    if a.RemoveSink? {
      TimesRemoved(s.registry, a.sink, k);
    } else if a.AddSink? {
      TimesAdded(s.registry, a.sink, k);
    }
  }

  // One step of a sink that is out of the registry: what it heard and is owed does not grow.
  lemma {:induction false} OwedOnlyShrinks(s: State, a: Action, k: Sink)
    requires Placed(s.worker) && Enabled(s, a)
    requires Times(s.registry, k) == 0 && a != AddSink(k)
    ensures Placed(Step(s, a).worker) && Times(Step(s, a).registry, k) == 0
    ensures Heard(Step(s, a).log, k) + Owed(Step(s, a).worker, k) <= Heard(s.log, k) + Owed(s.worker, k)
  {
    HeardMore(s, a, k);
    OwedAfter(s, a, k);
    RegistryAfter(s, a, k);
  }

  lemma {:induction false} HeardAfterRemoval(s: State, run: seq<Action>, k: Sink)
    requires Placed(s.worker) && Legal(s, run)
    requires Times(s.registry, k) == 0 && AddSink(k) !in run
    ensures Placed(Run(s, run).worker)
    ensures Heard(Run(s, run).log, k) <= Heard(s.log, k) + Owed(s.worker, k)
    decreases |run|
  {
    if run != [] {
      OwedOnlyShrinks(s, run[0], k);
      HeardAfterRemoval(Step(s, run[0]), run[1..], k);
    }
  }

  // The sink is only ever added while it is not registered.
  predicate AddedOnce(s: State, run: seq<Action>, k: Sink)
    requires Legal(s, run)
    decreases |run|
  {
    run != [] ==>
      && (run[0] == AddSink(k) ==> Times(s.registry, k) == 0)
      && AddedOnce(Step(s, run[0]), run[1..], k)
  }

  predicate AtMostOne(s: State, k: Sink) {
    Placed(s.worker) && Times(s.registry, k) <= 1 && Owed(s.worker, k) <= 1
  }

  lemma {:induction false} KeepsAtMostOne(s: State, a: Action, k: Sink)
    requires AtMostOne(s, k) && Enabled(s, a)
    requires a == AddSink(k) ==> Times(s.registry, k) == 0
    ensures AtMostOne(Step(s, a), k)
  {
    RegistryAfter(s, a, k);
    OwedAfter(s, a, k);
  }

  lemma {:induction false} RunAtMostOne(s: State, run: seq<Action>, k: Sink)
    requires AtMostOne(s, k) && Legal(s, run) && AddedOnce(s, run, k)
    ensures AtMostOne(Run(s, run), k)
    decreases |run|
  {
    if run != [] {
      KeepsAtMostOne(s, run[0], k);
      RunAtMostOne(Step(s, run[0]), run[1..], k);
    }
  }

  // A sink registered once hears at most one more event after RemoveSink returned, however the
  // registry's edits fall between the worker's steps.
  lemma {:induction false} RemovedHearsAtMostOneMore(capacity: nat, before: seq<Action>, k: Sink, after: seq<Action>)
    requires Legal(Init(capacity), before) && AddedOnce(Init(capacity), before, k)
    requires Legal(Step(Run(Init(capacity), before), RemoveSink(k)), after) && AddSink(k) !in after
    ensures var removed := Step(Run(Init(capacity), before), RemoveSink(k));
            Heard(Run(removed, after).log, k) <= Heard(removed.log, k) + 1
  {
    RunAtMostOne(Init(capacity), before, k);
    var s := Run(Init(capacity), before);
    RegistryAfter(s, RemoveSink(k), k);
    HeardAfterRemoval(Step(s, RemoveSink(k)), after, k);
  }

  lemma {:induction false} PrependedAdds(s: State, a: Action, rest: seq<Action>, k: Sink)
    requires Enabled(s, a) && Legal(Step(s, a), rest)
    requires AddedOnce(Step(s, a), rest, k) && (a == AddSink(k) ==> Times(s.registry, k) == 0)
    ensures Legal(s, [a] + rest) && Run(s, [a] + rest) == Run(Step(s, a), rest)
    ensures AddedOnce(s, [a] + rest, k)
  {
    Prepended(s, a, rest);
    assert ([a] + rest)[1..] == rest;
  }

  lemma {:induction false} CopyHoldsIt(e: Event, k: Sink) returns (before: seq<Action>)
    ensures Legal(Init(1), before) && AddedOnce(Init(1), before, k)
    ensures Run(Init(1), before).registry == [k] && Run(Init(1), before).worker == Next(e, [k], 0)
  {
    var s1 := Step(Init(1), AddSink(k));
    assert s1 == Init(1).(registry := [k]);
    var s2 := Step(s1, PushLock(1, e));
    var s3 := Step(s2, Lock);
    assert s3.worker == Took(e) && s3.registry == [k];
    PrependedAdds(s3, Snapshot(false), [], k);
    PrependedAdds(s2, Lock, [Snapshot(false)], k);
    PrependedAdds(s1, PushLock(1, e), [Lock] + [Snapshot(false)], k);
    PrependedAdds(Init(1), AddSink(k), [PushLock(1, e)] + ([Lock] + [Snapshot(false)]), k);
    before := [AddSink(k)] + ([PushLock(1, e)] + ([Lock] + [Snapshot(false)]));
  }

  // And one more it may hear: the copy was taken before the removal, the call made after it.
  lemma {:induction false} OneMoreCanHappen(e: Event, k: Sink) returns (before: seq<Action>)
    ensures Legal(Init(1), before) && AddedOnce(Init(1), before, k)
    ensures var removed := Step(Run(Init(1), before), RemoveSink(k));
            && Times(removed.registry, k) == 0
            && Enabled(removed, CallSink)
            && Heard(Step(removed, CallSink).log, k) == Heard(removed.log, k) + 1
  {
    before := CopyHoldsIt(e, k);
    var s := Run(Init(1), before);
    RegistryAfter(s, RemoveSink(k), k);
    HeardMore(Step(s, RemoveSink(k)), CallSink, k);
  }

  // ----- A sink that stays -----

  lemma {:induction false} TimesMember(sinks: seq<Sink>, k: Sink)
    ensures Times(sinks, k) > 0 <==> k in sinks
  {
    if sinks != [] {
      TimesMember(sinks[1..], k);
    }
  }

  // It is not removed, and no copy of the registry fails.
  predicate Stays(run: seq<Action>, k: Sink) {
    RemoveSink(k) !in run && Snapshot(true) !in run && FinalSnapshot(true) !in run
  }

  lemma {:induction false} StaysRegistered(s: State, a: Action, k: Sink)
    requires k in s.registry && Enabled(s, a) && a != RemoveSink(k)
    ensures k in Step(s, a).registry
  {
    RegistryAfter(s, a, k);
    TimesMember(s.registry, k);
    TimesMember(Step(s, a).registry, k);
  }

  // Registered, and among those that are flushed once they are copied.
  predicate ToBeFlushed(s: State, k: Sink) {
    && k in s.registry
    && (s.worker.Flushing? || s.worker.InFlush? || s.worker.Ended? ==> k in s.worker.sinks)
  }

  lemma {:induction false} RunToBeFlushed(s: State, run: seq<Action>, k: Sink)
    requires ToBeFlushed(s, k) && Legal(s, run) && Stays(run, k)
    ensures ToBeFlushed(Run(s, run), k)
    decreases |run|
  {
    if run != [] {
      assert run[0] in run;
      StaysRegistered(s, run[0], k);
      RunToBeFlushed(Step(s, run[0]), run[1..], k);
    }
  }

  // A sink that is registered before the last copy is made, and stays, has been flushed when the worker
  // has ended.
  lemma {:induction false} FlushedAtEnd(capacity: nat, before: seq<Action>, run: seq<Action>, k: Sink)
    requires Legal(Init(capacity), before) && Legal(Run(Init(capacity), before), run)
    requires var s := Run(Init(capacity), before);
             k in s.registry && !s.worker.Flushing? && !s.worker.InFlush? && !s.worker.Ended?
    requires Stays(run, k)
    ensures var t := Run(Run(Init(capacity), before), run);
            t.worker.Ended? ==> Flush(k) in t.log
  {
    var s := Run(Init(capacity), before);
    InitInv(capacity);
    RunInv(Init(capacity), before);
    RunInv(s, run);
    RunToBeFlushed(s, run, k);
    var t := Run(s, run);
    if t.worker.Ended? {
      var i :| 0 <= i < |t.worker.sinks| && t.worker.sinks[i] == k;
      assert Flushes(t.worker.sinks)[i] == Flush(k);
      assert Flush(k) in RoundsLog(t.rounds) + Flushes(t.worker.sinks);
    }
  }

  // The n-th accepted event is e; from it on each round is handed to k.
  predicate ToBeHeard(s: State, k: Sink, n: nat, e: Event) {
    && k in s.registry && n < |s.accepted| && s.accepted[n] == e
    && (forall i :: n <= i < |s.rounds| ==> k in s.rounds[i].sinks)
    && (|s.rounds| >= n && (s.worker.Next? || s.worker.InSink? || s.worker.Failed?) ==> k in s.worker.sinks)
  }

  lemma {:induction false} StepToBeHeard(s: State, a: Action, k: Sink, n: nat, e: Event)
    requires ToBeHeard(s, k, n, e) && Enabled(s, a) && a != RemoveSink(k) && a != Snapshot(true)
    ensures ToBeHeard(Step(s, a), k, n, e)
  {
    StaysRegistered(s, a, k);
  }

  lemma {:induction false} RunToBeHeard(s: State, run: seq<Action>, k: Sink, n: nat, e: Event)
    requires ToBeHeard(s, k, n, e) && Legal(s, run) && Stays(run, k)
    ensures ToBeHeard(Run(s, run), k, n, e)
    decreases |run|
  {
    if run != [] {
      assert run[0] in run;
      StepToBeHeard(s, run[0], k, n, e);
      RunToBeHeard(Step(s, run[0]), run[1..], k, n, e);
    }
  }

  lemma {:induction false} RoundLogs(rounds: seq<Round>, n: nat, k: Sink)
    requires n < |rounds| && k in rounds[n].sinks
    ensures OnEvent(k, rounds[n].event) in RoundsLog(rounds)
    decreases |rounds|
  {
    var last := |rounds| - 1;
    if n < last {
      RoundLogs(rounds[..last], n, k);
    } else {
      var i :| 0 <= i < |rounds[n].sinks| && rounds[n].sinks[i] == k;
      assert Calls(rounds[n].event, rounds[n].sinks)[i] == OnEvent(k, rounds[n].event);
    }
  }

  lemma {:induction false} PushMakesHeard(s: State, tid: Tid, e: Event, k: Sink)
    requires Inv(s) && Enabled(s, PushLock(tid, e)) && k in s.registry
    requires !s.view.stopping && |s.view.queue| < s.view.capacity
    ensures ToBeHeard(Step(s, PushLock(tid, e)), k, |s.accepted|, e)
  {
    assert |s.accepted| == |s.rounds| + |InFlight(s.worker)| + |s.view.queue|;
  }

  lemma {:induction false} HeardByNow(t: State, k: Sink, n: nat, e: Event)
    requires Inv(t) && ToBeHeard(t, k, n, e) && (t.worker.Ended? || t.accepted == Events(t.rounds))
    ensures OnEvent(k, e) in t.log
  {
    assert t.accepted == Events(t.rounds);
    assert t.accepted[n] == t.rounds[n].event;
    RoundLogs(t.rounds, n, k);
  }

  // A push with room, and a sink that is registered then and stays: at the next rest of the system, or when
  // the worker has ended, the sink was called with the event.
  lemma {:induction false} PushedIsHeard(capacity: nat, before: seq<Action>, tid: Tid, e: Event,
                                         run: seq<Action>, k: Sink)
    requires Legal(Init(capacity), before)
    requires var s := Run(Init(capacity), before);
             && Enabled(s, PushLock(tid, e)) && k in s.registry
             && !s.view.stopping && |s.view.queue| < s.view.capacity
             && Legal(Step(s, PushLock(tid, e)), run)
    requires Stays(run, k)
    ensures var t := Run(Step(Run(Init(capacity), before), PushLock(tid, e)), run);
            Quiet(t) || t.worker.Ended? ==> OnEvent(k, e) in t.log
  {
    hide ToBeHeard, Stays;
    var s := Run(Init(capacity), before);
    var s' := Step(s, PushLock(tid, e));
    var n := |s.accepted|;
    InitInv(capacity);
    RunInv(Init(capacity), before);
    KeepsInv(s, PushLock(tid, e));
    RunInv(s', run);
    PushMakesHeard(s, tid, e, k);
    RunToBeHeard(s', run, k, n, e);
    var t := Run(s', run);
    if Quiet(t) {
      Rest(t);
    }
    if Quiet(t) || t.worker.Ended? {
      HeardByNow(t, k, n, e);
    }
  }
}
