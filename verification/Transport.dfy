/**
  Which transport carries a request (`oidc/src/oidc_core.cpp`): that of the innermost scope on the thread,
  the default where there is no scope, the built-in client where there is neither - and the built-in
  client for whatever a transport sends itself.

  The code keeps two thread-local variables that scopes and sends set and set back, on a return and on
  an exception. `Exec` runs a program of scopes, sends and default changes over those variables;
  `Meaning` gives the same program its meaning with an environment passed down and nothing to set back.
 */
module Transport {
  import opened Bytes
  import opened Wrappers
  import Urls

  // A std::function: empty, or a consumer's code, known by its id.
  datatype Transport = Empty | Consumer(id: nat, body: Prog)

  // What a thread does, as far as transports go.
  datatype Prog =
    | Skip
    | Send(url: Bytes)                         // HttpSend
    | SetDefault(transport: Transport)
    | Scoped(transport: Transport, body: Prog) // a TransportScope around a body
    | Then(first: Prog, second: Prog)
    | Throw
    | Catch(body: Prog, handler: Prog)

  // What can be seen of a run.
  datatype Event =
    | BuiltIn         // the built-in client carried a request
    | Refused         // the URL was refused before any transport saw it
    | Enter(id: nat)  // a consumer's transport was called
    | Leave(id: nat)  // and returned, or threw

  datatype Outcome = Returned | Threw

  // ----- The meaning: a lexical environment -----

  datatype Effect = Effect(log: seq<Event>, default: Transport, outcome: Outcome)

  // The transport a send goes to: none in a transport, else the scope's, else the default.
  function InForce(scope: Option<Transport>, default: Transport): Transport {
    if scope.Some? then scope.value else default
  }

  // A URL the module accepts.
  ghost predicate WellFormed(url: Bytes) {
    exists parts :: Urls.Denotes(url, parts)
  }

  // `scope` is the innermost enclosing Scoped's transport, `inside` says whether a transport is running.
  ghost function Meaning(p: Prog, scope: Option<Transport>, inside: bool, default: Transport): Effect
    decreases !inside, p
  {
    match p
    case Skip => Effect([], default, Returned)
    case Throw => Effect([], default, Threw)
    case SetDefault(t) => Effect([], t, Returned)
    case Scoped(t, body) => Meaning(body, Some(t), inside, default)
    case Send(url) =>
      var t := InForce(scope, default);
      if inside || t.Empty? then Effect([BuiltIn], default, Returned)
      else if !WellFormed(url) then Effect([Refused], default, Returned)
      else
        var call := Meaning(t.body, scope, true, default);
        Effect([Enter(t.id)] + call.log + [Leave(t.id)], call.default, call.outcome)
    case Then(first, second) =>
      var one := Meaning(first, scope, inside, default);
      if one.outcome.Threw? then one
      else
        var two := Meaning(second, scope, inside, one.default);
        Effect(one.log + two.log, two.default, two.outcome)
    case Catch(body, handler) =>
      var one := Meaning(body, scope, inside, default);
      if one.outcome.Returned? then one
      else
        var two := Meaning(handler, scope, inside, one.default);
        Effect(one.log + two.log, two.default, two.outcome)
  }

  // ----- The code: variables set and set back -----

  class Thread {
    var scopedTransport: Option<Transport>
    var inTransport: bool
    var defaultTransport: Transport // the process's, under its lock
    var log: seq<Event>

    constructor ()
      ensures scopedTransport == None && !inTransport && defaultTransport == Empty && log == []
    {
      scopedTransport := None;
      inTransport := false;
      defaultTransport := Empty;
      log := [];
    }

    // After p: what it means, and the two thread-local variables as they were.
    twostate predicate Did(p: Prog, outcome: Outcome)
      reads this
    {
      var effect := Meaning(p, old(scopedTransport), old(inTransport), old(defaultTransport));
      && log == old(log) + effect.log
      && defaultTransport == effect.default
      && outcome == effect.outcome
      && scopedTransport == old(scopedTransport)
      && inTransport == old(inTransport)
    }

    function CurrentTransport(): Transport
      reads this
    {
      if scopedTransport.Some? then scopedTransport.value else defaultTransport
    }

    method HttpSend(url: Bytes) returns (outcome: Outcome)
      modifies this
      ensures Did(Send(url), outcome)
      decreases !inTransport, Send(url), 0
    {
      var transport := if inTransport then Empty else CurrentTransport();
      if transport.Empty? {
        log := log + [BuiltIn];
        return Returned;
      }
      var parts := Urls.ParseUrl(url);
      if parts.Refused? {
        log := log + [Refused];
        return Returned;
      }
      // Entered: its destructor runs whether the call returns or throws
      inTransport := true;
      log := log + [Enter(transport.id)];
      outcome := Exec(transport.body);
      log := log + [Leave(transport.id)];
      inTransport := false;
    }

    // Runs a program; an exception is an outcome that what follows hands on.
    method Exec(p: Prog) returns (outcome: Outcome)
      modifies this
      ensures Did(p, outcome)
      decreases !inTransport, p, 1
    {
      match p
      case Skip => outcome := Returned;
      case Throw => outcome := Threw;
      case SetDefault(t) =>
        defaultTransport := t;
        outcome := Returned;
      case Scoped(t, body) =>
        // TransportScope: the constructor keeps the previous one, the destructor sets it back
        var previous := scopedTransport;
        scopedTransport := Some(t);
        outcome := Exec(body);
        scopedTransport := previous;
      case Send(url) => outcome := HttpSend(url);
      case Then(first, second) =>
        outcome := Exec(first);
        if outcome.Returned? {
          outcome := Exec(second);
        }
      case Catch(body, handler) =>
        outcome := Exec(body);
        if outcome.Threw? {
          outcome := Exec(handler);
        }
    }
  }

  // ----- Which transport is entered -----

  // Outside a transport a well-formed request goes to the innermost scope's transport, whatever the
  // default; without a scope to the default; to the built-in client where that one is empty.
  lemma SendEnters(url: Bytes, id: nat, body: Prog, scope: Option<Transport>, d: Transport)
    requires WellFormed(url)
    ensures Meaning(Scoped(Consumer(id, body), Send(url)), scope, false, d).log != []
            && Meaning(Scoped(Consumer(id, body), Send(url)), scope, false, d).log[0] == Enter(id)
    ensures Meaning(Then(SetDefault(Consumer(id, body)), Send(url)), None, false, d).log != []
            && Meaning(Then(SetDefault(Consumer(id, body)), Send(url)), None, false, d).log[0] == Enter(id)
    ensures Meaning(Scoped(Empty, Send(url)), scope, false, d).log == [BuiltIn]
    ensures Meaning(Then(SetDefault(Empty), Send(url)), None, false, d).log == [BuiltIn]
  {
  }

  // A scope's transport goes before any default that is set inside it, and is gone behind it.
  lemma ScopeFirst(url: Bytes, id: nat, t: Transport, d: Transport)
    requires WellFormed(url)
    ensures var inner := Meaning(Scoped(Consumer(id, Skip), Then(SetDefault(t), Send(url))), None, false, d);
            inner.log == [Enter(id), Leave(id)] && inner.default == t
    ensures Meaning(Then(Scoped(t, Skip), Send(url)), None, false, Consumer(id, Skip)).log == [Enter(id), Leave(id)]
  {
    var c := Consumer(id, Skip);
    assert Meaning(Skip, Some(c), true, t) == Effect([], t, Returned);
    assert Meaning(Send(url), Some(c), false, t) == Effect([Enter(id), Leave(id)], t, Returned);
    assert Meaning(SetDefault(t), Some(c), false, d) == Effect([], t, Returned);
    assert Meaning(Skip, None, true, c) == Effect([], c, Returned);
    assert Meaning(Send(url), None, false, c) == Effect([Enter(id), Leave(id)], c, Returned);
    assert Meaning(Skip, Some(t), false, c) == Effect([], c, Returned);
    assert Meaning(Scoped(t, Skip), None, false, c) == Effect([], c, Returned);
  }

  // A URL that does not parse reaches no transport; what a transport throws is handed on, and its default
  // stays set.
  lemma SendEnds(url: Bytes, id: nat, body: Prog, scope: Option<Transport>, d: Transport)
    ensures !WellFormed(url) ==> Meaning(Scoped(Consumer(id, body), Send(url)), scope, false, d).log == [Refused]
    ensures WellFormed(url) ==>
              var inner := Meaning(body, Some(Consumer(id, body)), true, d);
              Meaning(Scoped(Consumer(id, body), Send(url)), scope, false, d) ==
              Effect([Enter(id)] + inner.log + [Leave(id)], inner.default, inner.outcome)
    ensures WellFormed(url) ==>
              Meaning(Scoped(Consumer(id, Throw), Send(url)), scope, false, d).outcome == Threw
    ensures Meaning(Then(Throw, body), scope, false, d) == Effect([], d, Threw)
    ensures Meaning(Catch(Throw, body), scope, false, d).outcome == Meaning(body, scope, false, d).outcome
  {
    var c := Consumer(id, Throw);
    assert Meaning(Throw, Some(c), true, d) == Effect([], d, Threw);
    assert WellFormed(url) ==> Meaning(Send(url), Some(c), false, d).outcome == Threw;
    assert Meaning(Throw, scope, false, d) == Effect([], d, Threw);
  }

  // ----- What the meaning promises -----

  // How deep in transports the log is after n events.
  function Depth(log: seq<Event>, n: nat): int
    requires n <= |log|
  {
    if n == 0 then 0
    else Depth(log, n - 1) + (if log[n - 1].Enter? then 1 else if log[n - 1].Leave? then -1 else 0)
  }

  // At most one transport is on the call stack at any moment, and none at the end.
  predicate AtMostOne(log: seq<Event>) {
    Depth(log, |log|) == 0 && forall n :: 0 <= n <= |log| ==> 0 <= Depth(log, n) <= 1
  }

  predicate NoTransport(log: seq<Event>) {
    forall i :: 0 <= i < |log| ==> !log[i].Enter? && !log[i].Leave?
  }

  // A transport that calls back reaches the built-in client.
  lemma {:induction false} BuiltInInside(p: Prog, scope: Option<Transport>, default: Transport)
    ensures NoTransport(Meaning(p, scope, true, default).log)
    decreases p
  {
    match p
    case Scoped(t, body) => BuiltInInside(body, Some(t), default);
    case Then(first, second) =>
      BuiltInInside(first, scope, default);
      BuiltInInside(second, scope, Meaning(first, scope, true, default).default);
    case Catch(body, handler) =>
      BuiltInInside(body, scope, default);
      BuiltInInside(handler, scope, Meaning(body, scope, true, default).default);
    case _ =>
  }

  lemma {:induction false} DepthAppended(a: seq<Event>, b: seq<Event>, n: nat)
    requires n <= |a| + |b|
    ensures Depth(a + b, n) == if n <= |a| then Depth(a, n) else Depth(a, |a|) + Depth(b, n - |a|)
  {
    if n > 0 {
      DepthAppended(a, b, n - 1);
    }
  }

  lemma {:induction false} AtMostOneAppended(a: seq<Event>, b: seq<Event>)
    requires AtMostOne(a) && AtMostOne(b)
    ensures AtMostOne(a + b)
  {
    forall n: nat | n <= |a + b|
      ensures 0 <= Depth(a + b, n) <= 1
    {
      DepthAppended(a, b, n);
    }
    DepthAppended(a, b, |a + b|);
  }

  lemma {:induction false} FlatDepth(log: seq<Event>, n: nat)
    requires NoTransport(log) && n <= |log|
    ensures Depth(log, n) == 0
  {
    if n > 0 {
      FlatDepth(log, n - 1);
    }
  }

  lemma {:induction false} OneCall(id: nat, log: seq<Event>)
    requires NoTransport(log)
    ensures AtMostOne([Enter(id)] + log + [Leave(id)])
  {
    var start, all := [Enter(id)], [Enter(id)] + log + [Leave(id)];
    forall n: nat | n <= |all|
      ensures Depth(all, n) == if n == 0 || n == |all| then 0 else 1
    {
      DepthAppended(start + log, [Leave(id)], n);
      DepthAppended(start, log, if n <= 1 + |log| then n else 1 + |log|);
      FlatDepth(log, |log|);
      if 1 <= n <= 1 + |log| {
        FlatDepth(log, n - 1);
      }
    }
  }

  lemma {:induction false} NeverNested(p: Prog, scope: Option<Transport>, default: Transport)
    ensures AtMostOne(Meaning(p, scope, false, default).log)
  {
    match p
    case Scoped(t, body) => NeverNested(body, Some(t), default);
    case Send(url) =>
      var t := InForce(scope, default);
      if t.Consumer? && WellFormed(url) {
        BuiltInInside(t.body, scope, default);
        OneCall(t.id, Meaning(t.body, scope, true, default).log);
      }
    case Then(first, second) =>
      NeverNested(first, scope, default);
      NeverNested(second, scope, Meaning(first, scope, false, default).default);
      AtMostOneAppended(Meaning(first, scope, false, default).log,
                        Meaning(second, scope, false, Meaning(first, scope, false, default).default).log);
    case Catch(body, handler) =>
      NeverNested(body, scope, default);
      NeverNested(handler, scope, Meaning(body, scope, false, default).default);
      AtMostOneAppended(Meaning(body, scope, false, default).log,
                        Meaning(handler, scope, false, Meaning(body, scope, false, default).default).log);
    case _ =>
  }

  // Under a scope nothing outside it matters: neither the scope around it nor any default, whenever it
  // was set, changes what is called or how it ends.
  lemma {:induction false} ScopeDecides(p: Prog, t: Transport, inside: bool, d: Transport, e: Transport)
    ensures Meaning(p, Some(t), inside, d).log == Meaning(p, Some(t), inside, e).log
    ensures Meaning(p, Some(t), inside, d).outcome == Meaning(p, Some(t), inside, e).outcome
    decreases !inside, p
  {
    match p
    case Scoped(u, body) => ScopeDecides(body, u, inside, d, e);
    case Send(url) =>
      if !inside && t.Consumer? && WellFormed(url) {
        ScopeDecides(t.body, t, true, d, e);
      }
    case Then(first, second) =>
      ScopeDecides(first, t, inside, d, e);
      ScopeDecides(second, t, inside, Meaning(first, Some(t), inside, d).default,
                   Meaning(first, Some(t), inside, e).default);
    case Catch(body, handler) =>
      ScopeDecides(body, t, inside, d, e);
      ScopeDecides(handler, t, inside, Meaning(body, Some(t), inside, d).default,
                   Meaning(body, Some(t), inside, e).default);
    case _ =>
  }

  lemma {:induction false} ScopeShields(p: Prog, t: Transport, inside: bool,
                                        s1: Option<Transport>, s2: Option<Transport>, d1: Transport, d2: Transport)
    ensures Meaning(Scoped(t, p), s1, inside, d1).log == Meaning(Scoped(t, p), s2, inside, d2).log
    ensures Meaning(Scoped(t, p), s1, inside, d1).outcome == Meaning(Scoped(t, p), s2, inside, d2).outcome
  {
    ScopeDecides(p, t, inside, d1, d2);
  }
}
