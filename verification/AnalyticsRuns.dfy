/** Whole-run theorems about the analytics reducer: every statement below is over an arbitrary
    sequence of facts, never over one call. */
module AnalyticsRuns {
  import opened Wrappers
  import opened AnalyticsReducer

  /** The state before fact `k` of the run `h` started in `s0`. */
  function At(s0: State, h: seq<Fact>, k: nat): State
    requires k <= |h|
  {
    if k == 0 then s0 else Step(At(s0, h, k - 1), h[k - 1]).state
  }

  function Emitted(s0: State, h: seq<Fact>, k: nat): seq<Event>
    requires k < |h|
  {
    Step(At(s0, h, k), h[k]).emitted
  }

  predicate EmitsTurn(s: State, f: Fact, t: TurnId) {
    exists e :: e in Step(s, f).emitted && e.TurnEvent? && e.turnId == t
  }

  predicate EmitsSteer(s: State, f: Fact) {
    exists e :: e in Step(s, f).emitted && e.SteerEvent?
  }

  // ---------- what one fact can touch ----------

  /** The turn a fact writes or names. */
  function TurnOf(f: Fact): Option<TurnId> {
    match f
    case TurnStartResponse(_, _, t) => Some(t)
    case TurnSteerResponse(_, _, t) => Some(t)
    case TurnStarted(t, _) => Some(t)
    case TurnCompleted(t, _, _, _, _) => Some(t)
    case ResolvedConfig(t, _, _, _) => Some(t)
    case TokenUsage(t, _, _) => Some(t)
    case _ => None
  }

  /** The pending-request key a fact inserts or removes. */
  function KeyOf(f: Fact): Option<RequestKey> {
    match f
    case TurnStartRequest(c, r, _, _) => Some((c, r))
    case TurnSteerRequest(c, r, _, _, _, _) => Some((c, r))
    case TurnStartResponse(c, r, _) => Some((c, r))
    case TurnSteerResponse(c, r, _) => Some((c, r))
    case ErrorResponse(c, r, _) => Some((c, r))
    case _ => None
  }

  lemma StepKeepsOtherTurns(s: State, f: Fact, t: TurnId)
    requires TurnOf(f) != Some(t)
    ensures t in Step(s, f).state.turns <==> t in s.turns
    ensures TurnOrNew(Step(s, f).state, t) == TurnOrNew(s, t)
    ensures !EmitsTurn(s, f, t)
  {
  }

  lemma StepKeepsOtherKeys(s: State, f: Fact, key: RequestKey)
    requires KeyOf(f) != Some(key)
    ensures key in Step(s, f).state.requests <==> key in s.requests
    ensures key in s.requests ==> Step(s, f).state.requests[key] == s.requests[key]
  {
  }

  // ---------- counting: every emission consumes a fresh start, config and completion ----------

  datatype Tally = Emissions | MatchedStarts | Configs | Completions | AcceptedSteers

  predicate Hits(tally: Tally, s: State, f: Fact, t: TurnId) {
    match tally
    case Emissions => EmitsTurn(s, f, t)
    case MatchedStarts =>
      f.TurnStartResponse? && f.turn == t && (f.conn, f.req) in s.requests && s.requests[(f.conn, f.req)].TurnStart?
    case Configs => f.ResolvedConfig? && f.turn == t
    case Completions => f.TurnCompleted? && f.turn == t
    case AcceptedSteers =>
      f.TurnSteerResponse? && f.turn == t && (f.conn, f.req) in s.requests && s.requests[(f.conn, f.req)].TurnSteer?
  }

  /** How many of the first `k` facts of a run from the empty reducer hit the tally for turn `t`. */
  function Count(tally: Tally, h: seq<Fact>, t: TurnId, k: nat): nat
    requires k <= |h|
  {
    if k == 0 then 0
    else Count(tally, h, t, k - 1) + (if Hits(tally, At(INITIAL, h, k - 1), h[k - 1], t) then 1 else 0)
  }

  lemma EmissionNeedsReady(s: State, f: Fact, t: TurnId)
    requires EmitsTurn(s, f, t)
    ensures TurnOf(f) == Some(t)
    ensures !f.TurnSteerResponse? && !f.TurnStarted?
    ensures t in s.turns
    ensures t !in Step(s, f).state.turns
    ensures f.TurnStartResponse? ==> Hits(MatchedStarts, s, f, t)
    ensures s.turns[t].connectionId.Some? || Hits(MatchedStarts, s, f, t)
    ensures s.turns[t].config.Some? || f.ResolvedConfig?
    ensures s.turns[t].completed.Some? || f.TurnCompleted?
    ensures forall e :: e in Step(s, f).emitted && e.TurnEvent? ==> e.steerCount == s.turns[t].steerCount
  {
  }

  lemma {:induction false} EmissionsAreBounded(h: seq<Fact>, t: TurnId, k: nat)
    requires k <= |h|
    ensures Count(Emissions, h, t, k) <= Count(MatchedStarts, h, t, k)
    ensures Count(Emissions, h, t, k) <= Count(Configs, h, t, k)
    ensures Count(Emissions, h, t, k) <= Count(Completions, h, t, k)
    ensures var turn := TurnOrNew(At(INITIAL, h, k), t);
            && (turn.connectionId.Some? ==> Count(Emissions, h, t, k) < Count(MatchedStarts, h, t, k))
            && (turn.config.Some? ==> Count(Emissions, h, t, k) < Count(Configs, h, t, k))
            && (turn.completed.Some? ==> Count(Emissions, h, t, k) < Count(Completions, h, t, k))
  {
    if k > 0 {
      EmissionsAreBounded(h, t, k - 1);
      var s, f := At(INITIAL, h, k - 1), h[k - 1];
      if TurnOf(f) != Some(t) {
        StepKeepsOtherTurns(s, f, t);
      } else if EmitsTurn(s, f, t) {
        EmissionNeedsReady(s, f, t);
      }
    }
  }

  // ---------- which threads and connections are known ----------

  predicate Initialized(h: seq<Fact>, k: nat, c: ConnectionId)
    requires k <= |h|
  {
    exists i: nat :: i < k && h[i].Initialize? && h[i].conn == c
  }

  /** A start, resume or fork response for `th` arrived on a connection initialised before it. */
  predicate ThreadKnown(h: seq<Fact>, k: nat, th: ThreadId)
    requires k <= |h|
  {
    exists j: nat :: j < k && h[j].ThreadResponse? && h[j].thread == th && Initialized(h, j, h[j].conn)
  }

  ghost predicate Consistent(s: State) {
    && s.threadConnections.Keys == s.threadMetadata.Keys
    && forall th :: th in s.threadConnections ==> s.threadConnections[th] in s.connections
  }

  lemma StepKeepsConsistent(s: State, f: Fact)
    requires Consistent(s)
    ensures Consistent(Step(s, f).state)
  {
    if !f.Initialize? && !f.ThreadResponse? {
      StepKeepsKnowledge(s, f);
    }
  }

  lemma {:induction false} ReachableIsConsistent(h: seq<Fact>, k: nat)
    requires k <= |h|
    ensures Consistent(At(INITIAL, h, k))
  {
    if k > 0 {
      ReachableIsConsistent(h, k - 1);
      StepKeepsConsistent(At(INITIAL, h, k - 1), h[k - 1]);
    }
  }

  /** The only facts that make a connection or a thread known. */
  lemma StepLearns(s: State, f: Fact)
    ensures Step(s, f).state.connections.Keys == s.connections.Keys + (if f.Initialize? then {f.conn} else {})
    ensures Step(s, f).state.threadMetadata.Keys
            == s.threadMetadata.Keys + (if f.ThreadResponse? && f.conn in s.connections then {f.thread} else {})
  {
    if !f.Initialize? && !f.ThreadResponse? {
      StepKeepsKnowledge(s, f);
    }
  }

  lemma StepKeepsKnowledge(s: State, f: Fact)
    requires !f.Initialize? && !f.ThreadResponse?
    ensures Step(s, f).state.connections == s.connections
    ensures Step(s, f).state.threadConnections == s.threadConnections
    ensures Step(s, f).state.threadMetadata == s.threadMetadata
  {
  }

  lemma {:induction false} ConnectionsAreHistory(h: seq<Fact>, k: nat, c: ConnectionId)
    requires k <= |h|
    ensures c in At(INITIAL, h, k).connections <==> Initialized(h, k, c)
  {
    if k > 0 {
      ConnectionsAreHistory(h, k - 1, c);
      StepLearns(At(INITIAL, h, k - 1), h[k - 1]);
      assert Initialized(h, k, c) <==> Initialized(h, k - 1, c) || (h[k - 1].Initialize? && h[k - 1].conn == c);
    }
  }

  lemma {:induction false} ThreadsAreHistory(h: seq<Fact>, k: nat, th: ThreadId)
    requires k <= |h|
    ensures th in At(INITIAL, h, k).threadMetadata <==> ThreadKnown(h, k, th)
  {
    if k > 0 {
      ThreadsAreHistory(h, k - 1, th);
      var f := h[k - 1];
      StepLearns(At(INITIAL, h, k - 1), f);
      if f.ThreadResponse? {
        ConnectionsAreHistory(h, k - 1, f.conn);
      }
      ThreadKnownStep(h, k - 1, th);
    }
  }

  lemma ThreadKnownStep(h: seq<Fact>, k: nat, th: ThreadId)
    requires k < |h|
    ensures ThreadKnown(h, k + 1, th) <==>
              ThreadKnown(h, k, th) || (h[k].ThreadResponse? && h[k].thread == th && Initialized(h, k, h[k].conn))
  {
    if ThreadKnown(h, k, th) {
      var j: nat :| j < k && h[j].ThreadResponse? && h[j].thread == th && Initialized(h, j, h[j].conn);
      assert ThreadKnown(h, k + 1, th);
    }
  }

  /** A compaction or guardian fact pushes its event exactly when its thread is known, and then
      with the metadata stored for that thread. */
  lemma ThreadFactsAreEmittedIffKnown(h: seq<Fact>, k: nat)
    requires k < |h| && (h[k].Compaction? || h[k].GuardianReview?)
    ensures |Emitted(INITIAL, h, k)| == (if ThreadKnown(h, k, h[k].thread) then 1 else 0)
    ensures ThreadKnown(h, k, h[k].thread) ==>
              var s := At(INITIAL, h, k);
              && h[k].thread in s.threadConnections && s.threadConnections[h[k].thread] in s.connections
              && Emitted(INITIAL, h, k)[0].connection == s.connections[s.threadConnections[h[k].thread]]
              && Emitted(INITIAL, h, k)[0].payload == h[k].payload
  {
    ReachableIsConsistent(h, k);
    ThreadsAreHistory(h, k, h[k].thread);
  }

  // ---------- no fully ready turn is left waiting ----------

  ghost predicate NoReadyTurnWaits(s: State) {
    forall t :: t in s.turns ==> !Ready(s, t)
  }

  lemma StepKeepsNoReadyTurnWaits(s: State, f: Fact)
    requires NoReadyTurnWaits(s)
    requires !f.Initialize? && !f.ThreadResponse?
    ensures NoReadyTurnWaits(Step(s, f).state)
  {
    var s' := Step(s, f).state;
    forall t | t in s'.turns ensures !Ready(s', t) {
      if TurnOf(f) != Some(t) {
        StepKeepsOtherTurns(s, f, t);
        assert t in s.turns && !Ready(s, t);
      } else if f.TurnSteerResponse? || f.TurnStarted? {
        assert t in s.turns ==> !Ready(s, t);
      }
    }
  }

  /** A stored turn lacks nothing but this connection. */
  ghost predicate WaitsForConnection(s: State, c: ConnectionId) {
    exists t :: && t in s.turns && FullyPopulated(s.turns[t]) && s.turns[t].connectionId == Some(c)
                && s.turns[t].threadId.value in s.threadMetadata
  }

  /** A stored turn lacks nothing but this thread. */
  ghost predicate WaitsForThread(s: State, th: ThreadId) {
    exists t :: && t in s.turns && FullyPopulated(s.turns[t]) && s.turns[t].threadId == Some(th)
                && s.turns[t].connectionId.Some? && s.turns[t].connectionId.value in s.connections
  }

  lemma InitializeReadies(s: State, c: ConnectionId, info: ConnectionState, t: TurnId)
    requires t in s.turns
    ensures Ready(Step(s, Initialize(c, info)).state, t) <==>
            || Ready(s, t)
            || (FullyPopulated(s.turns[t]) && s.turns[t].connectionId == Some(c)
                && s.turns[t].threadId.value in s.threadMetadata)
  {
  }

  lemma ThreadResponseReadies(s: State, f: Fact, t: TurnId)
    requires f.ThreadResponse? && t in s.turns
    ensures Ready(Step(s, f).state, t) <==>
            || Ready(s, t)
            || (f.conn in s.connections && FullyPopulated(s.turns[t]) && s.turns[t].threadId == Some(f.thread)
                && s.turns[t].connectionId.Some? && s.turns[t].connectionId.value in s.connections)
  {
  }

  /** Exactly when a step leaves a ready turn behind: an initialisation of the connection, or an
      accepted response for the thread, that a stored and otherwise complete turn was waiting for. */
  lemma StepKeepsNoReadyTurnWaitsIff(s: State, f: Fact)
    requires NoReadyTurnWaits(s)
    ensures NoReadyTurnWaits(Step(s, f).state) <==>
            && (f.Initialize? ==> !WaitsForConnection(s, f.conn))
            && (f.ThreadResponse? && f.conn in s.connections ==> !WaitsForThread(s, f.thread))
  {
    var s' := Step(s, f).state;
    if f.Initialize? {
      assert s'.turns == s.turns;
      forall t | t in s.turns ensures Ready(s', t) ==> WaitsForConnection(s, f.conn) {
        InitializeReadies(s, f.conn, f.info, t);
      }
      if t :| && t in s.turns && FullyPopulated(s.turns[t]) && s.turns[t].connectionId == Some(f.conn)
              && s.turns[t].threadId.value in s.threadMetadata {
        InitializeReadies(s, f.conn, f.info, t);
      }
    } else if f.ThreadResponse? {
      assert s'.turns == s.turns;
      forall t | t in s.turns ensures Ready(s', t) ==> f.conn in s.connections && WaitsForThread(s, f.thread) {
        ThreadResponseReadies(s, f, t);
      }
      if t :| && t in s.turns && FullyPopulated(s.turns[t]) && s.turns[t].threadId == Some(f.thread)
              && s.turns[t].connectionId.Some? && s.turns[t].connectionId.value in s.connections {
        ThreadResponseReadies(s, f, t);
      }
    } else {
      StepKeepsNoReadyTurnWaits(s, f);
    }
  }

  /** Whether the fact calls for the matched start request of its key. */
  predicate IsMatchedStart(s: State, f: Fact) {
    f.TurnStartResponse? && (f.conn, f.req) in s.requests && s.requests[(f.conn, f.req)].TurnStart?
  }

  /** Whether a fact of a ready turn flushes it: a completion always; a config, a token usage or a
      matched start response when the thread it names, and the connection, are known. */
  predicate Flushes(s: State, f: Fact) {
    match f
    case TurnCompleted(_, _, _, _, _) => true
    case ResolvedConfig(_, th, _, _) => th in s.threadMetadata
    case TokenUsage(_, th, _) => th in s.threadMetadata
    case TurnStartResponse(c, r, _) =>
      IsMatchedStart(s, f) && c in s.connections && s.requests[(c, r)].threadId in s.threadMetadata
    case _ => false
  }

  /** What the next fact of a ready turn does to it: flush it, leave it ready (a started
      notification, a steer response, an unmatched start response), or take its readiness away by
      naming an unknown thread or connection. */
  lemma ReadyTurnIsFlushedIff(s: State, f: Fact, t: TurnId)
    requires Ready(s, t) && TurnOf(f) == Some(t)
    ensures EmitsTurn(s, f, t) <==> Flushes(s, f)
    ensures Ready(Step(s, f).state, t) <==>
            f.TurnStarted? || f.TurnSteerResponse? || (f.TurnStartResponse? && !IsMatchedStart(s, f))
  {
    if IsTurnRecord(f) && !f.TurnStarted? {
      FlushedRecord(s, f, t);
    } else if IsMatchedStart(s, f) {
      var key := (f.conn, f.req);
      var turn := s.turns[t].(connectionId := Some(f.conn), threadId := Some(s.requests[key].threadId),
                              images := Some(s.requests[key].images));
      FlushedIffReady(s.(requests := s.requests - {key}, turns := s.turns[t := turn]), t);
    }
  }

  lemma FlushedIffReady(s: State, t: TurnId)
    requires t in s.turns
    ensures var o := FlushTurn(s, t);
            && ((exists e :: e in o.emitted && e.TurnEvent? && e.turnId == t) <==> Ready(s, t))
            && !Ready(o.state, t)
  {
    if Ready(s, t) {
      assert EventFor(s, t) in FlushTurn(s, t).emitted;
    }
  }

  lemma FlushedRecord(s: State, f: Fact, t: TurnId)
    requires Ready(s, t) && IsTurnRecord(f) && f.turn == t && !f.TurnStarted?
    ensures EmitsTurn(s, f, t) <==> Flushes(s, f)
    ensures !Ready(Step(s, f).state, t)
  {
    FlushedIffReady(s.(turns := s.turns[t := Recorded(s.turns[t], f)]), t);
  }

  /** A turn whose connection is initialised last is ready afterwards and nothing is emitted; the
      facts of that turn that flush it are exactly those of `Flushes`. */
  lemma LateInitializeLeavesReadyTurn(c: ConnectionId, info: ConnectionState, s: State, t: TurnId)
    requires t in s.turns && FullyPopulated(s.turns[t]) && s.turns[t].connectionId == Some(c)
    requires s.turns[t].threadId.value in s.threadMetadata
    ensures var late := Step(s, Initialize(c, info));
            && Ready(late.state, t) && late.emitted == []
            && forall f :: TurnOf(f) == Some(t) ==> (EmitsTurn(late.state, f, t) <==> Flushes(late.state, f))
  {
    var late := Step(s, Initialize(c, info)).state;
    InitializeReadies(s, c, info, t);
    forall f | TurnOf(f) == Some(t) ensures EmitsTurn(late, f, t) <==> Flushes(late, f) {
      ReadyTurnIsFlushedIff(late, f, t);
    }
  }

  /** The same for a turn whose thread becomes known last: only the thread's own event is pushed. */
  lemma LateThreadLeavesReadyTurn(response: Fact, s: State, t: TurnId)
    requires response.ThreadResponse? && response.conn in s.connections
    requires t in s.turns && FullyPopulated(s.turns[t]) && s.turns[t].threadId == Some(response.thread)
    requires s.turns[t].connectionId.Some? && s.turns[t].connectionId.value in s.connections
    ensures var late := Step(s, response);
            && Ready(late.state, t) && (forall e :: e in late.emitted ==> e.ThreadInitialized?)
            && forall f :: TurnOf(f) == Some(t) ==> (EmitsTurn(late.state, f, t) <==> Flushes(late.state, f))
  {
    var late := Step(s, response).state;
    ThreadResponseReadies(s, response, t);
    forall f | TurnOf(f) == Some(t) ensures EmitsTurn(late, f, t) <==> Flushes(late, f) {
      ReadyTurnIsFlushedIff(late, f, t);
    }
  }

  /** A start response, a config and a completion build up a waiting turn while the connection
      or the thread is unknown. */
  lemma ThreeFactsTooEarly(s: State, c: ConnectionId, r: RequestId, t: TurnId, th: ThreadId, end: Fact)
    returns (s': State)
    requires (c, r) in s.requests && s.requests[(c, r)] == TurnStart(th, 0)
    requires (c !in s.connections || th !in s.threadMetadata) && t !in s.turns
    requires end.TurnCompleted? && end.turn == t
    ensures s' == Step(Step(Step(s, TurnStartResponse(c, r, t)).state, ResolvedConfig(t, th, 0, "")).state, end).state
    ensures t in s'.turns && FullyPopulated(s'.turns[t]) && s'.turns[t].connectionId == Some(c)
    ensures s'.turns[t].threadId == Some(th)
    ensures s'.threadMetadata == s.threadMetadata && s'.connections == s.connections
  {
    var s1 := Step(s, TurnStartResponse(c, r, t)).state;
    assert t in s1.turns && s1.turns[t].connectionId == Some(c) && s1.connections == s.connections;
    var s2 := Step(s1, ResolvedConfig(t, th, 0, "")).state;
    assert t in s2.turns && s2.turns[t].connectionId == Some(c) && s2.connections == s.connections;
    s' := Step(s2, end).state;
  }

  /** Such a state is reachable: seven facts, the connection initialised last. */
  lemma ReadyTurnCanWait(info: ConnectionState, meta: ThreadMetadata, end: Fact)
    requires end == TurnCompleted("t", Completed, None, None, None)
    ensures var h := [Initialize(1, info), ThreadResponse(1, "th", "m", meta), TurnStartRequest(2, "r", "th", 0),
                      TurnStartResponse(2, "r", "t"), ResolvedConfig("t", "th", 0, ""), end, Initialize(2, info)];
            !NoReadyTurnWaits(At(INITIAL, h, 7))
  {
    var h := [Initialize(1, info), ThreadResponse(1, "th", "m", meta), TurnStartRequest(2, "r", "th", 0),
              TurnStartResponse(2, "r", "t"), ResolvedConfig("t", "th", 0, ""), end, Initialize(2, info)];
    var s3 := Step(Step(Step(INITIAL, h[0]).state, h[1]).state, h[2]).state;
    assert At(INITIAL, h, 3) == s3 by {
      assert At(INITIAL, h, 1) == Step(INITIAL, h[0]).state;
      assert At(INITIAL, h, 2) == Step(At(INITIAL, h, 1), h[1]).state;
    }
    var s6 := ThreeFactsTooEarly(s3, 2, "r", "t", "th", end);
    assert At(INITIAL, h, 6) == s6 by {
      assert At(INITIAL, h, 4) == Step(s3, h[3]).state;
      assert At(INITIAL, h, 5) == Step(At(INITIAL, h, 4), h[4]).state;
    }
    LateInitializeLeavesReadyTurn(2, info, s6, "t");
    assert At(INITIAL, h, 7) == Step(s6, h[6]).state;
  }

  /** The other way: six facts, the thread known last. */
  lemma ReadyTurnCanWaitForThread(info: ConnectionState, meta: ThreadMetadata, end: Fact)
    requires end == TurnCompleted("t", Completed, None, None, None)
    ensures var h := [Initialize(1, info), TurnStartRequest(1, "r", "th", 0), TurnStartResponse(1, "r", "t"),
                      ResolvedConfig("t", "th", 0, ""), end, ThreadResponse(1, "th", "m", meta)];
            !NoReadyTurnWaits(At(INITIAL, h, 6))
  {
    var h := [Initialize(1, info), TurnStartRequest(1, "r", "th", 0), TurnStartResponse(1, "r", "t"),
              ResolvedConfig("t", "th", 0, ""), end, ThreadResponse(1, "th", "m", meta)];
    var s2 := Step(Step(INITIAL, h[0]).state, h[1]).state;
    assert At(INITIAL, h, 2) == s2 by {
      assert At(INITIAL, h, 1) == Step(INITIAL, h[0]).state;
    }
    var s5 := ThreeFactsTooEarly(s2, 1, "r", "t", "th", end);
    assert At(INITIAL, h, 5) == s5 by {
      assert At(INITIAL, h, 3) == Step(s2, h[2]).state;
      assert At(INITIAL, h, 4) == Step(At(INITIAL, h, 3), h[3]).state;
    }
    LateThreadLeavesReadyTurn(h[5], s5, "t");
    assert At(INITIAL, h, 6) == Step(s5, h[5]).state;
  }

  // ---------- steer events ----------

  /** Fact `j` answers the steer request sent as fact `i`, and nothing in between replaced or
      consumed that request. */
  predicate Answers(h: seq<Fact>, i: nat, j: nat)
    requires j < |h|
  {
    && i < j
    && h[i].TurnSteerRequest?
    && (h[j].TurnSteerResponse? || h[j].ErrorResponse?)
    && KeyOf(h[j]) == KeyOf(h[i])
    && forall m :: i < m < j ==> KeyOf(h[m]) != KeyOf(h[i])
  }

  predicate Issued(h: seq<Fact>, i: nat, k: nat, key: RequestKey, pending: Request)
    requires k <= |h|
  {
    && i < k
    && KeyOf(h[i]) == Some(key)
    && (forall m :: i < m < k ==> KeyOf(h[m]) != Some(key))
    && PendingAfter(h[i]) == Some(pending)
  }

  /** What a fact with this key leaves pending under it. */
  function PendingAfter(f: Fact): Option<Request> {
    match f
    case TurnStartRequest(_, _, th, n) => Some(TurnStart(th, n))
    case TurnSteerRequest(_, _, th, e, n, now) => Some(TurnSteer(th, e, n, now))
    case _ => None
  }

  function Pending(s: State, key: RequestKey): Option<Request> {
    if key in s.requests then Some(s.requests[key]) else None
  }

  lemma StepPending(s: State, f: Fact, key: RequestKey)
    ensures Pending(Step(s, f).state, key) == if KeyOf(f) == Some(key) then PendingAfter(f) else Pending(s, key)
  {
    if KeyOf(f) != Some(key) {
      StepKeepsOtherKeys(s, f, key);
    }
  }

  lemma IssuedStep(h: seq<Fact>, i: nat, k: nat, key: RequestKey, pending: Request)
    requires k < |h|
    ensures Issued(h, i, k + 1, key, pending) <==>
              if i == k then KeyOf(h[k]) == Some(key) && PendingAfter(h[k]) == Some(pending)
              else KeyOf(h[k]) != Some(key) && Issued(h, i, k, key, pending)
  {
  }

  lemma {:induction false} PendingRequestsAreHistory(h: seq<Fact>, k: nat, key: RequestKey, pending: Request)
    requires k <= |h|
    ensures Pending(At(INITIAL, h, k), key) == Some(pending) <==> exists i: nat :: Issued(h, i, k, key, pending)
  {
    if k > 0 {
      var p: nat := k - 1;
      PendingRequestsAreHistory(h, p, key, pending);
      StepPending(At(INITIAL, h, p), h[p], key);
      if Pending(At(INITIAL, h, k), key) == Some(pending) {
        var i: nat := p;
        if KeyOf(h[p]) != Some(key) {
          i :| Issued(h, i, p, key, pending);
        }
        IssuedStep(h, i, p, key, pending);
        assert Issued(h, i, k, key, pending);
      }
      if i: nat :| Issued(h, i, k, key, pending) {
        IssuedStep(h, i, p, key, pending);
      }
    }
  }

  lemma AnsweredRequestIsPending(h: seq<Fact>, i: nat, j: nat)
    requires j < |h| && Answers(h, i, j)
    ensures var requests := At(INITIAL, h, j).requests;
            && (h[j].conn, h[j].req) in requests
            && requests[(h[j].conn, h[j].req)] == TurnSteer(h[i].thread, h[i].expected, h[i].images, h[i].now)
  {
    var pending := TurnSteer(h[i].thread, h[i].expected, h[i].images, h[i].now);
    assert Issued(h, i, j, (h[j].conn, h[j].req), pending);
    PendingRequestsAreHistory(h, j, (h[j].conn, h[j].req), pending);
  }

  lemma StepSteerEvent(s: State, f: Fact)
    ensures EmitsSteer(s, f) <==>
            && (f.TurnSteerResponse? || f.ErrorResponse?)
            && (f.conn, f.req) in s.requests && s.requests[(f.conn, f.req)].TurnSteer?
            && f.conn in s.connections && s.requests[(f.conn, f.req)].threadId in s.threadMetadata
    ensures forall e :: e in Step(s, f).emitted && e.SteerEvent? ==>
              && e.threadId == s.requests[(f.conn, f.req)].threadId
              && e.expectedTurnId == s.requests[(f.conn, f.req)].expectedTurnId
              && e.images == s.requests[(f.conn, f.req)].images
              && e.createdAt == s.requests[(f.conn, f.req)].createdAt
              && e.result == (if f.TurnSteerResponse? then Accepted else Rejected)
              && e.acceptedTurnId == (if f.TurnSteerResponse? then Some(f.turn) else None)
  {
    if (f.TurnSteerResponse? || f.ErrorResponse?) && |Step(s, f).emitted| == 1 {
      assert Step(s, f).emitted[0] in Step(s, f).emitted;
    }
  }

  /** A steer event is pushed exactly when an outstanding steer request is answered on an
      initialised connection for a known thread; it carries that request's own fields, and no later
      fact answers the same request again. */
  lemma SteerEventsAnswerRequests(h: seq<Fact>, j: nat)
    requires j < |h|
    ensures EmitsSteer(At(INITIAL, h, j), h[j]) <==>
            exists i: nat :: Answers(h, i, j) && Initialized(h, j, h[i].conn) && ThreadKnown(h, j, h[i].thread)
    ensures forall i: nat, e :: Answers(h, i, j) && e in Emitted(INITIAL, h, j) && e.SteerEvent? ==>
              && e.threadId == h[i].thread && e.expectedTurnId == h[i].expected
              && e.images == h[i].images && e.createdAt == h[i].now
              && e.result == (if h[j].TurnSteerResponse? then Accepted else Rejected)
              && e.acceptedTurnId == (if h[j].TurnSteerResponse? then Some(h[j].turn) else None)
    ensures forall i: nat, j': nat :: Answers(h, i, j) && j < j' < |h| ==> !Answers(h, i, j')
  {
    var s, f := At(INITIAL, h, j), h[j];
    StepSteerEvent(s, f);
    forall i: nat | Answers(h, i, j)
      ensures (f.conn, f.req) in s.requests
      ensures s.requests[(f.conn, f.req)] == TurnSteer(h[i].thread, h[i].expected, h[i].images, h[i].now)
      ensures EmitsSteer(s, f) <==> Initialized(h, j, h[i].conn) && ThreadKnown(h, j, h[i].thread)
    {
      AnsweredRequestIsPending(h, i, j);
      ConnectionsAreHistory(h, j, h[i].conn);
      ThreadsAreHistory(h, j, h[i].thread);
    }
    if EmitsSteer(s, f) {
      var key := (f.conn, f.req);
      PendingRequestsAreHistory(h, j, key, s.requests[key]);
      var i: nat :| Issued(h, i, j, key, s.requests[key]);
      assert Answers(h, i, j);
    }
  }

  /** What one step does to the counter of a turn that is live after it. */
  lemma StepSteerCount(s: State, f: Fact, t: TurnId)
    requires t in Step(s, f).state.turns
    ensures Step(s, f).state.turns[t].steerCount
            == TurnOrNew(s, t).steerCount + (if Hits(AcceptedSteers, s, f, t) then 1 else 0)
    ensures t !in s.turns ==> !Hits(AcceptedSteers, s, f, t)
  {
  }

  /** While a turn stays live its counter equals the accepted steers naming it since its birth. */
  lemma {:induction false} SteerCountIsAcceptedSinceBirth(h: seq<Fact>, t: TurnId, birth: nat, k: nat)
    requires birth < k <= |h|
    requires t !in At(INITIAL, h, birth).turns
    requires forall m :: birth < m <= k ==> t in At(INITIAL, h, m).turns
    ensures At(INITIAL, h, k).turns[t].steerCount
            == Count(AcceptedSteers, h, t, k) - Count(AcceptedSteers, h, t, birth)
  {
    assert t in At(INITIAL, h, k).turns;
    StepSteerCount(At(INITIAL, h, k - 1), h[k - 1], t);
    if birth < k - 1 {
      SteerCountIsAcceptedSinceBirth(h, t, birth, k - 1);
    }
  }

  /** The `steer_count` of an emitted turn event counts exactly the accepted steer responses that
      named the turn while its state was live; rejected steers never count. */
  lemma EmittedSteerCount(h: seq<Fact>, t: TurnId, k: nat) returns (birth: nat)
    requires k < |h| && EmitsTurn(At(INITIAL, h, k), h[k], t)
    ensures birth < k && t !in At(INITIAL, h, birth).turns
    ensures forall m :: birth < m <= k ==> t in At(INITIAL, h, m).turns
    ensures forall e :: e in Emitted(INITIAL, h, k) && e.TurnEvent? ==>
              e.steerCount == Count(AcceptedSteers, h, t, k) - Count(AcceptedSteers, h, t, birth)
  {
    EmissionNeedsReady(At(INITIAL, h, k), h[k], t);
    birth := k;
    while t in At(INITIAL, h, birth).turns
      invariant 0 <= birth <= k
      invariant forall m :: birth < m <= k ==> t in At(INITIAL, h, m).turns
      decreases birth
    {
      birth := birth - 1;
    }
    SteerCountIsAcceptedSinceBirth(h, t, birth, k);
  }
}
