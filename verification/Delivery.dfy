/**
  The bounded delivery of `hooks/ext_hooks.hpp`: any number of threads push, stop and edit the
  registry while one worker hands the queued events to the registered sinks.

  The three critical sections that touch the queue and the `stopping` flag are methods of the class
  `Shared`; the protocol is a state machine that interleaves them with the steps each thread makes
  outside the lock (a notify, a tally, a join, a call into a sink).
 */
module Delivery {

  // An event and a sink are opaque tokens: nothing here looks inside them.
  type Event = int
  type Sink = int

  // ----- Delivery::State behind its lock -----

  datatype View = View(capacity: nat, queue: seq<Event>, stopping: bool)

  // What `Take` finds when it is granted the lock.
  datatype Found = Nothing | Drained | Got(event: Event)

  predicate Accepts(v: View) {
    !v.stopping && |v.queue| < v.capacity
  }

  function Offered(v: View, e: Event): View {
    if Accepts(v) then v.(queue := v.queue + [e]) else v
  }

  function Finding(v: View): Found {
    if v.queue != [] then Got(v.queue[0])
    else if v.stopping then Drained
    else Nothing
  }

  function Taken(v: View): View {
    if v.queue != [] then v.(queue := v.queue[1..]) else v
  }

  class Shared {
    const capacity: nat
    var queue: seq<Event>
    var stopping: bool

    function Look(): View
      reads this
    {
      View(capacity, queue, stopping)
    }

    constructor (capacity: nat)
      ensures Look() == View(capacity, [], false)
    {
      this.capacity := capacity;
      queue := [];
      stopping := false;
    }

    // Push, up to the end of its lock's scope.
    method Offer(event: Event) returns (accepted: bool)
      modifies this
      ensures Look() == Offered(old(Look()), event)
      ensures accepted == Accepts(old(Look()))
      ensures accepted <==> !old(stopping) && |old(queue)| < capacity
      ensures queue == (if accepted then old(queue) + [event] else old(queue)) && stopping == old(stopping)
    {
      accepted := false;
      if !stopping && |queue| < capacity {
        queue := queue + [event];
        accepted := true;
      }
    }

    // Stop, up to the end of its lock's scope; false when an earlier call got here first.
    method RaiseStop() returns (first: bool)
      modifies this
      ensures Look() == old(Look()).(stopping := true)
      ensures first == !old(stopping)
      ensures stopping && queue == old(queue)
    {
      if stopping {
        return false;
      }
      stopping := true;
      first := true;
    }

    // Run, from the moment the worker holds the lock: the wait's predicate, then the pop.
    method Take() returns (found: Found)
      modifies this
      ensures found == Finding(old(Look()))
      ensures Look() == Taken(old(Look()))
      ensures old(queue) != [] ==> found == Got(old(queue)[0]) && queue == old(queue)[1..]
      ensures old(queue) == [] ==> queue == [] && found == if old(stopping) then Drained else Nothing
      ensures stopping == old(stopping)
    {
      if !(stopping || queue != []) {
        return Nothing;
      }
      if queue == [] {
        return Drained;
      }
      found := Got(queue[0]);
      queue := queue[1..];
    }
  }

  // ----- The registry's sinks -----

  // The list without its first occurrence of k.
  function WithoutFirst(sinks: seq<Sink>, k: Sink): seq<Sink> {
    if sinks == [] then []
    else if sinks[0] == k then sinks[1..]
    else [sinks[0]] + WithoutFirst(sinks[1..], k)
  }

  lemma {:induction false} WithoutFirstAt(sinks: seq<Sink>, k: Sink, i: nat)
    requires i < |sinks| && sinks[i] == k && k !in sinks[..i]
    ensures WithoutFirst(sinks, k) == sinks[..i] + sinks[i + 1..]
  {
    if i > 0 {
      assert sinks[1..][..i - 1] == sinks[..i][1..];
      WithoutFirstAt(sinks[1..], k, i - 1);
      assert sinks[..i] == [sinks[0]] + sinks[1..][..i - 1];
    }
  }

  lemma {:induction false} WithoutFirstAbsent(sinks: seq<Sink>, k: Sink)
    requires k !in sinks
    ensures WithoutFirst(sinks, k) == sinks
  {
    if sinks != [] {
      WithoutFirstAbsent(sinks[1..], k);
    }
  }

  class Registry {
    var sinks: seq<Sink>

    constructor ()
      ensures sinks == []
    {
      sinks := [];
    }

    method AddSink(sink: Sink)
      modifies this
      ensures sinks == old(sinks) + [sink]
    {
      sinks := sinks + [sink];
    }

    method RemoveSink(sink: Sink)
      modifies this
      ensures sinks == WithoutFirst(old(sinks), sink)
    {
      for i := 0 to |sinks|
        invariant sinks == old(sinks)
        invariant sink !in sinks[..i]
      {
        if sinks[i] == sink {
          WithoutFirstAt(sinks, sink, i);
          sinks := sinks[..i] + sinks[i + 1..];
          return;
        }
      }
      WithoutFirstAbsent(sinks, sink);
    }
  }

  // ----- The protocol -----

  type Tid = nat

  // The delivery thread. It calls Push and Stop too, from inside a sink.
  const WORKER: Tid := 0

  // A call into Delivery that has left its critical section and not yet returned.
  datatype Call =
    | PushNotify // accepted: owes notify_one, then returns true
    | PushTally  // refused: owes the "dropped" count, then returns false
    | StopNotify // raised the flag: owes notify_all
    | StopCheck  // about to look at the thread handle
    | StopJoin   // in worker.join()

  datatype Worker =
    | Top                                              // wants the lock, to test the wait's predicate
    | Parked                                           // asleep on the condition variable
    | Took(event: Event)                               // popped, about to copy the sinks
    | Next(event: Event, sinks: seq<Sink>, at: nat)    // at the head of the loop over the copy
    | InSink(event: Event, sinks: seq<Sink>, at: nat)  // inside sinks[at]->OnEvent
    | Failed(event: Event, sinks: seq<Sink>, at: nat)  // it threw: owes the "sink_failed" count
    | Draining                                         // left the loop, about to copy the sinks
    | Flushing(sinks: seq<Sink>, at: nat)
    | InFlush(sinks: seq<Sink>, at: nat)               // inside sinks[at]->Flush
    | Ended(sinks: seq<Sink>)

  datatype Handle = Attached | Detached | Joined

  // What the sinks were called with, in order.
  datatype Entry = OnEvent(sink: Sink, event: Event) | Flush(sink: Sink)

  // An event that was handed out, with the sinks it was handed to.
  datatype Round = Round(event: Event, sinks: seq<Sink>)

  datatype State = State(
    view: View,
    registry: seq<Sink>,
    worker: Worker,
    calls: map<Tid, Call>,
    handle: Handle,
    // history
    accepted: seq<Event>,
    rounds: seq<Round>,
    log: seq<Entry>,
    pushes: nat,       // pushes that reached the lock
    trueReturns: nat,  // pushes that returned true
    dropped: nat,      // "dropped" counts; each is also a push that returned false
    thrown: nat,       // OnEvent calls that threw
    sinkFailed: nat    // "sink_failed" counts
  )

  function Init(capacity: nat): State {
    State(View(capacity, [], false), [], Top, map[], Attached, [], [], [], 0, 0, 0, 0, 0)
  }

  datatype Action =
    | PushLock(tid: Tid, event: Event)
    | NotifyOne(tid: Tid)
    | TallyDropped(tid: Tid)
    | StopLock(tid: Tid)
    | NotifyAll(tid: Tid)
    | Inspect(tid: Tid)
    | JoinReturns(tid: Tid)
    | AddSink(sink: Sink)
    | RemoveSink(sink: Sink)
    | SpuriousWake
    | Lock                        // the worker's critical section
    | Snapshot(throws: bool)      // Current: the registry's copy, or nothing when it throws
    | CallSink
    | SinkReturns
    | SinkThrows
    | TallyFailed
    | LoopEnds                    // every sink of the copy was called
    | FinalSnapshot(throws: bool)
    | CallFlush
    | FlushEnds                   // returned or threw: the same to the worker
    | End

  predicate InCallback(w: Worker) {
    w.InSink? || w.InFlush?
  }

  // May this thread start a call? The worker only from inside a sink.
  predicate Free(s: State, tid: Tid) {
    tid !in s.calls && (tid == WORKER ==> InCallback(s.worker))
  }

  predicate At(s: State, tid: Tid, c: Call) {
    tid in s.calls && s.calls[tid] == c
  }

  predicate Enabled(s: State, a: Action) {
    match a
    case PushLock(tid, _) => Free(s, tid)
    case NotifyOne(tid) => At(s, tid, PushNotify)
    case TallyDropped(tid) => At(s, tid, PushTally)
    case StopLock(tid) => Free(s, tid)
    case NotifyAll(tid) => At(s, tid, StopNotify)
    case Inspect(tid) => At(s, tid, StopCheck)
    case JoinReturns(tid) => At(s, tid, StopJoin) && s.worker.Ended?
    case AddSink(_) => true
    case RemoveSink(_) => true
    case SpuriousWake => s.worker.Parked?
    case Lock => s.worker.Top?
    case Snapshot(_) => s.worker.Took?
    case CallSink => s.worker.Next? && s.worker.at < |s.worker.sinks|
    case SinkReturns => s.worker.InSink? && WORKER !in s.calls
    case SinkThrows => s.worker.InSink? && WORKER !in s.calls
    case TallyFailed => s.worker.Failed?
    case LoopEnds => s.worker.Next? && s.worker.at >= |s.worker.sinks|
    case FinalSnapshot(_) => s.worker.Draining?
    case CallFlush => s.worker.Flushing? && s.worker.at < |s.worker.sinks|
    case FlushEnds => s.worker.InFlush? && WORKER !in s.calls
    case End => s.worker.Flushing? && s.worker.at >= |s.worker.sinks|
  }

  function Awake(w: Worker): Worker {
    if w.Parked? then Top else w
  }

  function Step(s: State, a: Action): State
    requires Enabled(s, a)
  {
    match a
    case PushLock(tid, e) =>
      if Accepts(s.view) then
        s.(view := Offered(s.view, e), calls := s.calls[tid := PushNotify],
           accepted := s.accepted + [e], pushes := s.pushes + 1)
      else
        s.(view := Offered(s.view, e), calls := s.calls[tid := PushTally], pushes := s.pushes + 1)
    case NotifyOne(tid) =>
      s.(worker := Awake(s.worker), calls := s.calls - {tid}, trueReturns := s.trueReturns + 1)
    case TallyDropped(tid) =>
      s.(calls := s.calls - {tid}, dropped := s.dropped + 1)
    case StopLock(tid) =>
      if s.view.stopping then s
      else s.(view := s.view.(stopping := true), calls := s.calls[tid := StopNotify])
    case NotifyAll(tid) =>
      s.(worker := Awake(s.worker), calls := s.calls[tid := StopCheck])
    case Inspect(tid) =>
      if s.handle != Attached then s.(calls := s.calls - {tid})
      else if tid == WORKER then s.(handle := Detached, calls := s.calls - {tid})
      else s.(calls := s.calls[tid := StopJoin])
    case JoinReturns(tid) => s.(handle := Joined, calls := s.calls - {tid})
    case AddSink(k) => s.(registry := s.registry + [k])
    case RemoveSink(k) => s.(registry := WithoutFirst(s.registry, k))
    case SpuriousWake => s.(worker := Top)
    case Lock =>
      s.(view := Taken(s.view), worker := match Finding(s.view)
                                          case Nothing => Parked
                                          case Drained => Draining
                                          case Got(e) => Took(e))
    case Snapshot(throws) =>
      s.(worker := Next(s.worker.event, if throws then [] else s.registry, 0))
    case CallSink =>
      s.(worker := InSink(s.worker.event, s.worker.sinks, s.worker.at),
         log := s.log + [OnEvent(s.worker.sinks[s.worker.at], s.worker.event)])
    case SinkReturns => s.(worker := Next(s.worker.event, s.worker.sinks, s.worker.at + 1))
    case SinkThrows =>
      s.(worker := Failed(s.worker.event, s.worker.sinks, s.worker.at), thrown := s.thrown + 1)
    case TallyFailed =>
      s.(worker := Next(s.worker.event, s.worker.sinks, s.worker.at + 1), sinkFailed := s.sinkFailed + 1)
    case LoopEnds =>
      s.(worker := Top, rounds := s.rounds + [Round(s.worker.event, s.worker.sinks)])
    case FinalSnapshot(throws) => s.(worker := Flushing(if throws then [] else s.registry, 0))
    case CallFlush =>
      s.(worker := InFlush(s.worker.sinks, s.worker.at), log := s.log + [Flush(s.worker.sinks[s.worker.at])])
    case FlushEnds => s.(worker := Flushing(s.worker.sinks, s.worker.at + 1))
    case End => s.(worker := Ended(s.worker.sinks))
  }

  // A run is a list of actions, each enabled where it happens.
  predicate Legal(s: State, run: seq<Action>)
    decreases |run|
  {
    run == [] || (Enabled(s, run[0]) && Legal(Step(s, run[0]), run[1..]))
  }

  function Run(s: State, run: seq<Action>): State
    requires Legal(s, run)
    decreases |run|
  {
    if run == [] then s else Run(Step(s, run[0]), run[1..])
  }
}
