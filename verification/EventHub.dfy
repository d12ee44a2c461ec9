/** The subscription hub of src/services/events.ts, repeated in src/services/dragDrop.ts: one native
    registration shared by any number of listeners, obtained asynchronously. */
module EventHub {
  import opened Wrappers

  type Listener = nat

  /** A native registration; calling it removes the registration. */
  type Handle = nat

  /** `listenPromise`: none, waiting for the native side, or registered natively with the promise
      callback still to come. */
  datatype Listening = Idle | Waiting | Arrived(handle: Handle)

  type Payload = nat

  /** `listeners` is a JavaScript `Set`: distinct, in insertion order. `live` is what the native side
      holds, `log` every call of a listener so far. */
  datatype State = State(
    listeners: seq<Listener>,
    unlisten: Option<Handle>,
    listenPromise: Listening,
    live: set<Handle>,
    log: seq<(Listener, Payload)>)

  const START := State([], None, Idle, {}, [])

  function Added(listeners: seq<Listener>, l: Listener): seq<Listener> {
    if l in listeners then listeners else listeners + [l]
  }

  function Deleted(listeners: seq<Listener>, l: Listener): (r: seq<Listener>)
    ensures forall x :: x in r <==> x in listeners && x != l
  {
    if listeners == [] then []
    else
      assert listeners == [listeners[0]] + listeners[1..];
      (if listeners[0] == l then [] else [listeners[0]]) + Deleted(listeners[1..], l)
  }

  /** The calls of one run of the callback. */
  function Calls(listeners: seq<Listener>, event: Payload): seq<(Listener, Payload)> {
    seq(|listeners|, i requires 0 <= i < |listeners| => (listeners[i], event))
  }

  function Times(calls: seq<(Listener, Payload)>, n: nat): seq<(Listener, Payload)> {
    if n == 0 then [] else Times(calls, n - 1) + calls
  }

  function Started(s: State): State {
    if s.unlisten.Some? || !s.listenPromise.Idle? then s else s.(listenPromise := Waiting)
  }

  function Stopped(s: State): State {
    if s.unlisten.Some? then s.(unlisten := None, live := s.live - {s.unlisten.value}) else s
  }

  function Resolved(s: State, h: Handle): State {
    if s.listeners == [] then s.(listenPromise := Idle, live := s.live - {h})
    else s.(listenPromise := Idle, unlisten := Some(h))
  }

  // ---------- the hub ----------

  class Hub {
    var listeners: seq<Listener>
    var unlisten: Option<Handle>
    var listenPromise: Listening
    var live: set<Handle>
    var log: seq<(Listener, Payload)>

    function Model(): State
      reads this
    {
      State(listeners, unlisten, listenPromise, live, log)
    }

    constructor ()
      ensures Model() == START
    {
      listeners, unlisten, listenPromise, live, log := [], None, Idle, {}, [];
    }

    method Start()
      modifies this`listenPromise
      ensures Model() == Started(old(Model()))
    {
      if unlisten.Some? || !listenPromise.Idle? {
        return;
      }
      listenPromise := Waiting;
    }

    method Stop()
      modifies this`unlisten, this`live
      ensures Model() == Stopped(old(Model()))
    {
      if unlisten.Some? {
        live := live - {unlisten.value};
        unlisten := None;
      }
    }

    method Subscribe(onEvent: Listener)
      modifies this
      ensures Model() == Next(old(Model()), Action.Subscribe(onEvent))
    {
      if onEvent !in listeners {
        listeners := listeners + [onEvent];
      }
      Start();
    }

    /** The function `subscribe` returns; callers may call it any number of times. */
    method Unsubscribe(onEvent: Listener)
      modifies this
      ensures Model() == Next(old(Model()), Action.Unsubscribe(onEvent))
    {
      listeners := Deleted(listeners, onEvent);
      if listeners == [] {
        Stop();
      }
    }

    /** The `then` callback. */
    method ListenResolved()
      requires listenPromise.Arrived?
      modifies this
      ensures Model() == Next(old(Model()), Action.ListenResolved)
    {
      var handler := listenPromise.handle;
      listenPromise := Idle;
      if listeners == [] {
        live := live - {handler};
        return;
      }
      unlisten := Some(handler);
    }

    /** The `catch` callback after a failed registration. */
    method ListenRejected()
      requires listenPromise.Waiting?
      modifies this
      ensures Model() == Next(old(Model()), Action.ListenRejected)
    {
      listenPromise := Idle;
    }

    /** The callback handed to `listen`. */
    method OnEvent(event: Payload)
      modifies this`log
      ensures log == old(log) + Calls(listeners, event)
    {
      for i := 0 to |listeners|
        invariant log == old(log) + Calls(listeners, event)[..i]
      {
        log := log + [(listeners[i], event)];
      }
    }

    /** The native side runs the callback of every registration it holds. */
    method NativeEvent(event: Payload)
      modifies this`log
      ensures Model() == Next(old(Model()), Action.NativeEvent(event))
    {
      var left := live;
      ghost var n: nat := 0;
      while left != {}
        invariant |left| + n == |live|
        invariant log == old(log) + Times(Calls(listeners, event), n)
      {
        Regroup(old(log), Times(Calls(listeners, event), n), Calls(listeners, event));
        var h :| h in left;
        left := left - {h};
        OnEvent(event);
        n := n + 1;
      }
    }
  }

  // ---------- runs ----------

  datatype Action =
    | Subscribe(listener: Listener)
    | Unsubscribe(listener: Listener)
    | Registered(handle: Handle)
    | ListenResolved
    | ListenRejected
    | NativeEvent(event: Payload)

  predicate Enabled(s: State, a: Action) {
    match a
    case Registered(h) => s.listenPromise.Waiting? && h !in s.live
    case ListenResolved => s.listenPromise.Arrived?
    case ListenRejected => s.listenPromise.Waiting?
    case _ => true
  }

  function Next(s: State, a: Action): State
    requires Enabled(s, a)
  {
    match a
    case Subscribe(l) => Started(s.(listeners := Added(s.listeners, l)))
    case Unsubscribe(l) =>
      var rest := s.(listeners := Deleted(s.listeners, l));
      if rest.listeners == [] then Stopped(rest) else rest
    case Registered(h) => s.(listenPromise := Arrived(h), live := s.live + {h})
    case ListenResolved => Resolved(s, s.listenPromise.handle)
    case ListenRejected => s.(listenPromise := Idle)
    case NativeEvent(e) => s.(log := s.log + Times(Calls(s.listeners, e), |s.live|))
  }

  ghost predicate IsRun(run: seq<Action>, states: seq<State>) {
    && |states| == |run| + 1
    && states[0] == START
    && forall i :: 0 <= i < |run| ==> Enabled(states[i], run[i]) && states[i + 1] == Next(states[i], run[i])
  }

  /** Whether a rejection followed the last subscribe among the first `i` actions. */
  predicate RejectedSinceSubscribe(run: seq<Action>, i: nat)
    requires i <= |run|
  {
    i > 0 && !run[i - 1].Subscribe? && (run[i - 1].ListenRejected? || RejectedSinceSubscribe(run, i - 1))
  }

  /** The native registrations are exactly the one the hub holds or is about to be handed. */
  ghost predicate Valid(s: State, rejected: bool) {
    && s.live == (if s.unlisten.Some? then {s.unlisten.value}
                  else if s.listenPromise.Arrived? then {s.listenPromise.handle}
                  else {})
    && Distinct(s.listeners)
    && (s.unlisten.Some? ==> s.listenPromise.Idle? && s.listeners != [])
    && (rejected ==> s.listenPromise.Idle? && s.unlisten.None?)
    && (s.listenPromise.Idle? && s.listeners != [] && !rejected ==> s.unlisten.Some?)
  }

  lemma {:induction false} DeletedIsDistinct(listeners: seq<Listener>, l: Listener)
    requires Distinct(listeners)
    ensures Distinct(Deleted(listeners, l))
  {
    if listeners != [] {
      var rest := listeners[1..];
      assert forall i :: 0 <= i < |rest| ==> rest[i] == listeners[i + 1];
      DeletedIsDistinct(rest, l);
      assert listeners[0] !in rest && listeners[0] !in Deleted(rest, l);
      PrependIsDistinct(listeners[0], Deleted(rest, l));
    }
  }

  lemma PrependIsDistinct(l: Listener, listeners: seq<Listener>)
    requires Distinct(listeners) && l !in listeners
    ensures Distinct([l] + listeners)
  {
  }

  lemma AppendIsDistinct(listeners: seq<Listener>, l: Listener)
    requires Distinct(listeners)
    ensures Distinct(Added(listeners, l))
  {
  }

  /** One action; `rejected` says whether a rejection followed the last subscribe. */
  lemma NextKeepsValid(s: State, a: Action, rejected: bool)
    requires Valid(s, rejected) && Enabled(s, a)
    ensures Valid(Next(s, a), !a.Subscribe? && (a.ListenRejected? || rejected))
  {
    if a.Subscribe? {
      AppendIsDistinct(s.listeners, a.listener);
    } else if a.Unsubscribe? {
      DeletedIsDistinct(s.listeners, a.listener);
    }
  }

  lemma {:induction false} RunsAreValid(run: seq<Action>, states: seq<State>, i: nat)
    requires IsRun(run, states) && i <= |run|
    ensures Valid(states[i], RejectedSinceSubscribe(run, i))
  {
    if i > 0 {
      RunsAreValid(run, states, i - 1);
      assert states[(i - 1) + 1] == Next(states[i - 1], run[i - 1]);
      NextKeepsValid(states[i - 1], run[i - 1], RejectedSinceSubscribe(run, i - 1));
    }
  }

  /** In every run the hub never has a pending listen and a live handle together, has at most one
      native registration, and keeps a handle only while it has listeners; a registration without
      listeners is one whose promise callback is still to come. */
  lemma AtMostOneRegistration(run: seq<Action>, states: seq<State>, i: nat)
    requires IsRun(run, states) && i <= |run|
    ensures states[i].unlisten.Some? ==> states[i].listenPromise.Idle? && states[i].listeners != []
    ensures |states[i].live| <= 1
    ensures states[i].live != {} && states[i].listeners == [] ==> states[i].listenPromise.Arrived?
  {
    RunsAreValid(run, states, i);
  }

  /** With nothing pending, a hub with listeners is registered exactly when no rejection followed
      the last subscribe. */
  lemma RegisteredIffNotRejected(run: seq<Action>, states: seq<State>, i: nat)
    requires IsRun(run, states) && i <= |run|
    requires states[i].listenPromise.Idle? && states[i].listeners != []
    ensures states[i].live != {} <==> !RejectedSinceSubscribe(run, i)
    ensures states[i].unlisten.Some? <==> !RejectedSinceSubscribe(run, i)
  {
    RunsAreValid(run, states, i);
  }

  lemma CallsOfEvent(s: State, e: Payload)
    requires |s.live| <= 1
    ensures Next(s, NativeEvent(e)).log == s.log + if s.live != {} then Calls(s.listeners, e) else []
  {
    var calls := Calls(s.listeners, e);
    assert Times(calls, 0) == [];
    assert Times(calls, 1) == [] + calls == calls;
  }

  lemma CallsAreEach(log: seq<(Listener, Payload)>, listeners: seq<Listener>, e: Payload)
    ensures var after := log + Calls(listeners, e);
            && log <= after && |after| == |log| + |listeners|
            && forall k :: 0 <= k < |listeners| ==> after[|log| + k] == (listeners[k], e)
  {
  }

  /** One native event calls every listener at most once, in subscription order and with the event:
      all of them while a registration is there, none otherwise; nothing else calls a listener. */
  lemma EventsReachListenersOnce(run: seq<Action>, states: seq<State>, i: nat)
    requires IsRun(run, states) && i < |run|
    ensures Distinct(states[i].listeners)
    ensures states[i].unlisten.Some? ==> states[i].live != {}
    ensures var before, after := states[i].log, states[i + 1].log;
            var reached := if run[i].NativeEvent? && states[i].live != {} then states[i].listeners else [];
            && before <= after && |after| == |before| + |reached|
            && forall k :: 0 <= k < |reached| ==> after[|before| + k] == (reached[k], run[i].event)
  {
    RunsAreValid(run, states, i);
    assert states[i + 1] == Next(states[i], run[i]);
    if run[i].NativeEvent? {
      CallsOfEvent(states[i], run[i].event);
      CallsAreEach(states[i].log, states[i].listeners, run[i].event);
    }
  }

  lemma {:induction false} DeletedUnknown(listeners: seq<Listener>, l: Listener)
    requires l !in listeners
    ensures Deleted(listeners, l) == listeners
  {
    if listeners != [] {
      DeletedUnknown(listeners[1..], l);
    }
  }

  lemma DropFirst(listeners: seq<Listener>, p: nat)
    requires 0 < p < |listeners|
    ensures listeners[..p] + listeners[p + 1..] == [listeners[0]] + (listeners[1..][..p - 1] + listeners[1..][p..])
  {
  }

  lemma {:induction false} DeletedAt(listeners: seq<Listener>, p: nat)
    requires Distinct(listeners) && p < |listeners|
    ensures Deleted(listeners, listeners[p]) == listeners[..p] + listeners[p + 1..]
  {
    var l, rest := listeners[p], listeners[1..];
    assert forall i :: 0 <= i < |rest| ==> rest[i] == listeners[i + 1];
    if p == 0 {
      DeletedUnknown(rest, l);
    } else {
      assert Distinct(rest) && rest[p - 1] == l && listeners[0] != l;
      DeletedAt(rest, p - 1);
      DropFirst(listeners, p);
    }
  }

  /** Subscribing puts a new listener last, unsubscribing takes out that one, and nothing else
      changes who listens or in which order. */
  lemma ListenersChange(run: seq<Action>, states: seq<State>, i: nat, p: nat)
    requires IsRun(run, states) && i < |run|
    ensures var before, after := states[i].listeners, states[i + 1].listeners;
            match run[i]
            case Subscribe(l) => after == if l in before then before else before + [l]
            case Unsubscribe(l) =>
              && (l !in before ==> after == before)
              && (p < |before| && before[p] == l ==> after == before[..p] + before[p + 1..])
            case _ => after == before
  {
    RunsAreValid(run, states, i);
    assert states[i + 1] == Next(states[i], run[i]);
    if run[i].Unsubscribe? {
      var before := states[i].listeners;
      if run[i].listener !in before {
        DeletedUnknown(before, run[i].listener);
      } else if p < |before| && before[p] == run[i].listener {
        DeletedAt(before, p);
      }
    }
  }

  /** Once everybody has left and nothing is pending, nothing stays registered. */
  lemma NothingLeaks(run: seq<Action>, states: seq<State>, i: nat)
    requires IsRun(run, states) && i <= |run|
    requires states[i].listeners == [] && states[i].listenPromise.Idle?
    ensures states[i].live == {} && states[i].unlisten.None?
  {
    RunsAreValid(run, states, i);
  }
}
