/** The analytics reducer of codex-rs/analytics: it joins facts that arrive in any order and
    pushes telemetry events. `Step` specifies one `ingest` call; the class below is the reducer
    with its five maps, proved against `Step`. */
module AnalyticsReducer {
  import opened Wrappers

  type ConnectionId = nat
  type RequestId = string
  type RequestKey = (ConnectionId, RequestId)
  type ThreadId = string
  type TurnId = string

  /** `app_server_client` and `runtime`: opaque to the reducer, copied into events. */
  datatype ConnectionState = ConnectionState(client: string, runtime: string)

  datatype InitializationMode = New | Resumed | Forked

  /** `source` stands for thread source, subagent source and parent thread together. */
  datatype ThreadMetadata = ThreadMetadata(source: string, mode: InitializationMode)

  datatype Request =
    | TurnStart(threadId: ThreadId, images: nat)
    | TurnSteer(threadId: ThreadId, expectedTurnId: TurnId, images: nat, createdAt: nat)

  datatype ProtocolTurnStatus = Completed | Failed | Interrupted | InProgress

  datatype CompletedTurn = CompletedTurn(
    status: Option<ProtocolTurnStatus>, error: Option<string>, completedAt: nat, durationMs: Option<nat>)

  datatype TurnState = TurnState(
    connectionId: Option<ConnectionId>,
    threadId: Option<ThreadId>,
    images: Option<nat>,
    config: Option<string>,
    startedAt: Option<nat>,
    tokenUsage: Option<string>,
    completed: Option<CompletedTurn>,
    steerCount: nat)

  const EMPTY_TURN := TurnState(None, None, None, None, None, None, None, 0)

  datatype SteerResult = Accepted | Rejected

  datatype Event =
    | ThreadInitialized(threadId: ThreadId, connection: ConnectionState, model: string, metadata: ThreadMetadata)
    | TurnEvent(turnId: TurnId, threadId: ThreadId, connection: ConnectionState, metadata: ThreadMetadata,
                config: string, images: nat, completion: CompletedTurn, steerCount: nat,
                tokenUsage: Option<string>, startedAt: Option<nat>)
    | SteerEvent(threadId: ThreadId, expectedTurnId: TurnId, acceptedTurnId: Option<TurnId>,
                 connection: ConnectionState, metadata: ThreadMetadata, images: nat,
                 result: SteerResult, rejectionReason: Option<string>, createdAt: nat)
    | CompactionEvent(payload: string, connection: ConnectionState, metadata: ThreadMetadata)
    | GuardianEvent(payload: string, connection: ConnectionState)

  /** One input of `ingest`. Timestamps and durations of notifications are signed, as on the wire. */
  datatype Fact =
    | Initialize(conn: ConnectionId, info: ConnectionState)
    | TurnStartRequest(conn: ConnectionId, req: RequestId, thread: ThreadId, images: nat)
    | TurnSteerRequest(conn: ConnectionId, req: RequestId, thread: ThreadId, expected: TurnId, images: nat, now: nat)
    | OtherRequest(conn: ConnectionId, req: RequestId)
    | ThreadResponse(conn: ConnectionId, thread: ThreadId, model: string, metadata: ThreadMetadata)
    | TurnStartResponse(conn: ConnectionId, req: RequestId, turn: TurnId)
    | TurnSteerResponse(conn: ConnectionId, req: RequestId, turn: TurnId)
    | OtherResponse(conn: ConnectionId)
    | ErrorResponse(conn: ConnectionId, req: RequestId, reason: Option<string>)
    | TurnStarted(turn: TurnId, startedAtRaw: Option<int>)
    | TurnCompleted(turn: TurnId, status: ProtocolTurnStatus, error: Option<string>,
                    completedAtRaw: Option<int>, durationRaw: Option<int>)
    | OtherNotification
    | Compaction(thread: ThreadId, payload: string)
    | GuardianReview(thread: ThreadId, payload: string)
    | ResolvedConfig(turn: TurnId, thread: ThreadId, images: nat, config: string)
    | TokenUsage(turn: TurnId, thread: ThreadId, usage: string)

  predicate IsRequest(f: Fact) {
    f.TurnStartRequest? || f.TurnSteerRequest? || f.OtherRequest?
  }

  predicate IsResponse(f: Fact) {
    f.ThreadResponse? || f.TurnStartResponse? || f.TurnSteerResponse? || f.OtherResponse?
  }

  predicate IsNotification(f: Fact) {
    f.TurnStarted? || f.TurnCompleted? || f.OtherNotification?
  }

  predicate IsCustom(f: Fact) {
    f.Compaction? || f.GuardianReview? || f.ResolvedConfig? || f.TokenUsage?
  }

  datatype State = State(
    requests: map<RequestKey, Request>,
    turns: map<TurnId, TurnState>,
    connections: map<ConnectionId, ConnectionState>,
    threadConnections: map<ThreadId, ConnectionId>,
    threadMetadata: map<ThreadId, ThreadMetadata>)

  const INITIAL := State(map[], map[], map[], map[], map[])

  datatype Outcome = Outcome(state: State, emitted: seq<Event>)

  // ---------- one step ----------

  /** `u64::try_from(..).ok()` on an optional signed value. */
  function ToUnsigned(raw: Option<int>): Option<nat> {
    if raw.Some? && raw.value >= 0 then Some(raw.value) else None
  }

  function CompletionOf(f: Fact): CompletedTurn
    requires f.TurnCompleted?
  {
    CompletedTurn(if f.status == InProgress then None else Some(f.status), f.error,
                  ToUnsigned(f.completedAtRaw).GetOr(0), ToUnsigned(f.durationRaw))
  }

  /** `entry(..).or_insert(..)`: the stored turn, or a fresh one. */
  function TurnOrNew(s: State, t: TurnId): TurnState {
    if t in s.turns then s.turns[t] else EMPTY_TURN
  }

  predicate FullyPopulated(turn: TurnState) {
    turn.threadId.Some? && turn.images.Some? && turn.config.Some? && turn.completed.Some?
  }

  /** All prerequisites of a turn event hold. */
  predicate Ready(s: State, t: TurnId) {
    && t in s.turns
    && FullyPopulated(s.turns[t])
    && s.turns[t].connectionId.Some? && s.turns[t].connectionId.value in s.connections
    && s.turns[t].threadId.value in s.threadMetadata
  }

  /** `codex_turn_event_params`: its `unreachable!` arm is the negated precondition. */
  function TurnEventParams(connection: ConnectionState, t: TurnId, turn: TurnState, metadata: ThreadMetadata): Event
    requires FullyPopulated(turn)
  {
    TurnEvent(t, turn.threadId.value, connection, metadata, turn.config.value, turn.images.value,
              turn.completed.value, turn.steerCount, turn.tokenUsage, turn.startedAt)
  }

  function EventFor(s: State, t: TurnId): Event
    requires Ready(s, t)
  {
    TurnEventParams(s.connections[s.turns[t].connectionId.value], t, s.turns[t],
                    s.threadMetadata[s.turns[t].threadId.value])
  }

  function FlushTurn(s: State, t: TurnId): Outcome {
    if Ready(s, t) then Outcome(s.(turns := s.turns - {t}), [EventFor(s, t)]) else Outcome(s, [])
  }

  function SteerOutcome(s: State, conn: ConnectionId, pending: Request, accepted: Option<TurnId>,
                        result: SteerResult, reason: Option<string>): Outcome
    requires pending.TurnSteer?
  {
    if conn in s.connections && pending.threadId in s.threadMetadata then
      Outcome(s, [SteerEvent(pending.threadId, pending.expectedTurnId, accepted, s.connections[conn],
                             s.threadMetadata[pending.threadId], pending.images, result, reason, pending.createdAt)])
    else
      Outcome(s, [])
  }

  function TurnStartResponded(s: State, f: Fact): Outcome
    requires f.TurnStartResponse?
  {
    var key := (f.conn, f.req);
    var s1 := s.(requests := s.requests - {key});
    if key in s.requests && s.requests[key].TurnStart? then
      var turn := TurnOrNew(s, f.turn).(connectionId := Some(f.conn), threadId := Some(s.requests[key].threadId),
                                        images := Some(s.requests[key].images));
      FlushTurn(s1.(turns := s.turns[f.turn := turn]), f.turn)
    else
      Outcome(s1, [])
  }

  function TurnSteerResponded(s: State, f: Fact): Outcome
    requires f.TurnSteerResponse?
  {
    var key := (f.conn, f.req);
    var s1 := s.(requests := s.requests - {key});
    if key in s.requests && s.requests[key].TurnSteer? then
      var turns := if f.turn in s.turns
                   then s.turns[f.turn := s.turns[f.turn].(steerCount := s.turns[f.turn].steerCount + 1)]
                   else s.turns;
      SteerOutcome(s1.(turns := turns), f.conn, s.requests[key], Some(f.turn), Accepted, None)
    else
      Outcome(s1, [])
  }

  function ErrorResponded(s: State, f: Fact): Outcome
    requires f.ErrorResponse?
  {
    var key := (f.conn, f.req);
    var s1 := s.(requests := s.requests - {key});
    if key in s.requests && s.requests[key].TurnSteer?
    then SteerOutcome(s1, f.conn, s.requests[key], None, Rejected, f.reason)
    else Outcome(s1, [])
  }

  function ThreadResponded(s: State, f: Fact): Outcome
    requires f.ThreadResponse?
  {
    if f.conn in s.connections then
      Outcome(s.(threadConnections := s.threadConnections[f.thread := f.conn],
                 threadMetadata := s.threadMetadata[f.thread := f.metadata]),
              [ThreadInitialized(f.thread, s.connections[f.conn], f.model, f.metadata)])
    else
      Outcome(s, [])
  }

  /** Facts that only write fields of one turn. */
  predicate IsTurnRecord(f: Fact) {
    f.TurnStarted? || f.TurnCompleted? || f.ResolvedConfig? || f.TokenUsage?
  }

  function Recorded(turn: TurnState, f: Fact): TurnState
    requires IsTurnRecord(f)
  {
    match f
    case TurnStarted(_, raw) => turn.(startedAt := ToUnsigned(raw))
    case TurnCompleted(_, _, _, _, _) => turn.(completed := Some(CompletionOf(f)))
    case ResolvedConfig(_, th, n, config) => turn.(threadId := Some(th), images := Some(n), config := Some(config))
    case TokenUsage(_, th, usage) => turn.(threadId := Some(th), tokenUsage := Some(usage))
  }

  function RecordAndFlush(s: State, f: Fact): Outcome
    requires IsTurnRecord(f)
  {
    FlushTurn(s.(turns := s.turns[f.turn := Recorded(TurnOrNew(s, f.turn), f)]), f.turn)
  }

  function Compacted(s: State, f: Fact): Outcome
    requires f.Compaction?
  {
    if f.thread in s.threadConnections && s.threadConnections[f.thread] in s.connections && f.thread in s.threadMetadata
    then
      var connection := s.connections[s.threadConnections[f.thread]];
      Outcome(s, [CompactionEvent(f.payload, connection, s.threadMetadata[f.thread])])
    else Outcome(s, [])
  }

  function Reviewed(s: State, f: Fact): Outcome
    requires f.GuardianReview?
  {
    if f.thread in s.threadConnections && s.threadConnections[f.thread] in s.connections
    then Outcome(s, [GuardianEvent(f.payload, s.connections[s.threadConnections[f.thread]])])
    else Outcome(s, [])
  }

  /** One `ingest` call: the new state and the events it pushes. */
  function Step(s: State, f: Fact): Outcome {
    match f
    case Initialize(c, info) => Outcome(s.(connections := s.connections[c := info]), [])
    case TurnStartRequest(c, r, th, n) => Outcome(s.(requests := s.requests[(c, r) := TurnStart(th, n)]), [])
    case TurnSteerRequest(c, r, th, e, n, now) =>
      Outcome(s.(requests := s.requests[(c, r) := TurnSteer(th, e, n, now)]), [])
    case ThreadResponse(_, _, _, _) => ThreadResponded(s, f)
    case TurnStartResponse(_, _, _) => TurnStartResponded(s, f)
    case TurnSteerResponse(_, _, _) => TurnSteerResponded(s, f)
    case ErrorResponse(_, _, _) => ErrorResponded(s, f)
    case TurnStarted(t, _) => Outcome(s.(turns := s.turns[t := Recorded(TurnOrNew(s, t), f)]), [])
    case TurnCompleted(t, _, _, _, _) => RecordAndFlush(s, f)
    case ResolvedConfig(t, _, _, _) => RecordAndFlush(s, f)
    case TokenUsage(t, _, _) => RecordAndFlush(s, f)
    case Compaction(_, _) => Compacted(s, f)
    case GuardianReview(_, _) => Reviewed(s, f)
    case OtherRequest(_, _) => Outcome(s, [])
    case OtherResponse(_) => Outcome(s, [])
    case OtherNotification => Outcome(s, [])
  }

  // ---------- the reducer object ----------

  /** The `out: &mut Vec<TrackEventRequest>` every call pushes onto. */
  class EventLog {
    var events: seq<Event>

    constructor ()
      ensures events == []
    {
      events := [];
    }

    method Push(e: Event)
      modifies this
      ensures events == old(events) + [e]
    {
      events := events + [e];
    }
  }

  class Reducer {
    var requests: map<RequestKey, Request>
    var turns: map<TurnId, TurnState>
    var connections: map<ConnectionId, ConnectionState>
    var threadConnections: map<ThreadId, ConnectionId>
    var threadMetadata: map<ThreadId, ThreadMetadata>

    constructor ()
      ensures Model() == INITIAL
    {
      requests, turns, connections, threadConnections, threadMetadata := map[], map[], map[], map[], map[];
    }

    ghost function Model(): State
      reads this
    {
      State(requests, turns, connections, threadConnections, threadMetadata)
    }

    ghost predicate Became(outcome: Outcome, before: seq<Event>, out: EventLog)
      reads this, out
    {
      Model() == outcome.state && out.events == before + outcome.emitted
    }

    method Ingest(f: Fact, out: EventLog)
      modifies this, out
      ensures Became(Step(old(Model()), f), old(out.events), out)
    {
      if f.Initialize? {
        connections := connections[f.conn := f.info];
      } else if IsRequest(f) {
        IngestRequest(f, out);
      } else if IsResponse(f) {
        IngestResponse(f, out);
      } else if f.ErrorResponse? {
        IngestErrorResponse(f, out);
      } else if IsNotification(f) {
        IngestNotification(f, out);
      } else {
        IngestCustom(f, out);
      }
    }

    method IngestRequest(f: Fact, out: EventLog)
      requires IsRequest(f)
      modifies this
      ensures Became(Step(old(Model()), f), old(out.events), out)
    {
      match f
      case TurnStartRequest(c, r, th, n) => requests := requests[(c, r) := TurnStart(th, n)];
      case TurnSteerRequest(c, r, th, e, n, now) => requests := requests[(c, r) := TurnSteer(th, e, n, now)];
      case OtherRequest(_, _) =>
    }

    method IngestResponse(f: Fact, out: EventLog)
      requires IsResponse(f)
      modifies this, out
      ensures Became(Step(old(Model()), f), old(out.events), out)
    {
      match f
      case ThreadResponse(_, _, _, _) => EmitThreadInitialized(f, out);
      case TurnStartResponse(_, _, _) => IngestTurnStartResponse(f, out);
      case TurnSteerResponse(_, _, _) => IngestTurnSteerResponse(f, out);
      case OtherResponse(_) =>
    }

    method IngestNotification(f: Fact, out: EventLog)
      requires IsNotification(f)
      modifies this, out
      ensures Became(Step(old(Model()), f), old(out.events), out)
    {
      match f
      case TurnStarted(t, _) =>
        var turn := GetOrInsert(t);
        turns := turns[t := Recorded(turn, f)];
      case TurnCompleted(_, _, _, _, _) => IngestTurnRecord(f, out);
      case OtherNotification =>
    }

    method IngestCustom(f: Fact, out: EventLog)
      requires IsCustom(f)
      modifies this, out
      ensures Became(Step(old(Model()), f), old(out.events), out)
    {
      match f
      case Compaction(_, _) => IngestCompaction(f, out);
      case GuardianReview(_, _) => IngestGuardianReview(f, out);
      case ResolvedConfig(_, _, _, _) => IngestTurnRecord(f, out);
      case TokenUsage(_, _, _) => IngestTurnRecord(f, out);
    }

    /** The shared shape of the completed-notification, resolved-config and token-usage cases. */
    method IngestTurnRecord(f: Fact, out: EventLog)
      requires IsTurnRecord(f)
      modifies this, out
      ensures Became(RecordAndFlush(old(Model()), f), old(out.events), out)
    {
      var turn := GetOrInsert(f.turn);
      turns := turns[f.turn := Recorded(turn, f)];
      MaybeEmitTurnEvent(f.turn, out);
    }

    method GetOrInsert(t: TurnId) returns (turn: TurnState)
      modifies this`turns
      ensures turn == TurnOrNew(old(Model()), t)
      ensures turns == old(turns)[t := turn]
    {
      if t !in turns {
        turns := turns[t := EMPTY_TURN];
      }
      turn := turns[t];
    }

    method EmitThreadInitialized(f: Fact, out: EventLog)
      requires f.ThreadResponse?
      modifies this, out
      ensures Became(ThreadResponded(old(Model()), f), old(out.events), out)
    {
      if f.conn !in connections {
        return;
      }
      threadConnections := threadConnections[f.thread := f.conn];
      threadMetadata := threadMetadata[f.thread := f.metadata];
      out.Push(ThreadInitialized(f.thread, connections[f.conn], f.model, f.metadata));
    }

    method IngestTurnStartResponse(f: Fact, out: EventLog)
      requires f.TurnStartResponse?
      modifies this, out
      ensures Became(TurnStartResponded(old(Model()), f), old(out.events), out)
    {
      var key := (f.conn, f.req);
      if key !in requests {
        assert requests - {key} == requests;
        return;
      }
      var pending := requests[key];
      requests := requests - {key};
      if !pending.TurnStart? {
        return;
      }
      var turn := GetOrInsert(f.turn);
      turns := turns[f.turn := turn.(connectionId := Some(f.conn), threadId := Some(pending.threadId),
                                     images := Some(pending.images))];
      MaybeEmitTurnEvent(f.turn, out);
    }

    method IngestTurnSteerResponse(f: Fact, out: EventLog)
      requires f.TurnSteerResponse?
      modifies this, out
      ensures Became(TurnSteerResponded(old(Model()), f), old(out.events), out)
    {
      var key := (f.conn, f.req);
      if key !in requests {
        assert requests - {key} == requests;
        return;
      }
      var pending := requests[key];
      requests := requests - {key};
      if !pending.TurnSteer? {
        return;
      }
      if f.turn in turns {
        turns := turns[f.turn := turns[f.turn].(steerCount := turns[f.turn].steerCount + 1)];
      }
      EmitTurnSteerEvent(f.conn, pending, Some(f.turn), Accepted, None, out);
    }

    method IngestErrorResponse(f: Fact, out: EventLog)
      requires f.ErrorResponse?
      modifies this, out
      ensures Became(ErrorResponded(old(Model()), f), old(out.events), out)
    {
      var key := (f.conn, f.req);
      if key !in requests {
        assert requests - {key} == requests;
        return;
      }
      var pending := requests[key];
      requests := requests - {key};
      match pending
      case TurnStart(_, _) =>
      case TurnSteer(_, _, _, _) => EmitTurnSteerEvent(f.conn, pending, None, Rejected, f.reason, out);
    }

    method EmitTurnSteerEvent(c: ConnectionId, pending: Request, accepted: Option<TurnId>, result: SteerResult,
                              reason: Option<string>, out: EventLog)
      requires pending.TurnSteer?
      modifies out
      ensures Became(SteerOutcome(old(Model()), c, pending, accepted, result, reason), old(out.events), out)
    {
      if c !in connections || pending.threadId !in threadMetadata {
        return;
      }
      out.Push(SteerEvent(pending.threadId, pending.expectedTurnId, accepted, connections[c],
                          threadMetadata[pending.threadId], pending.images, result, reason, pending.createdAt));
    }

    method IngestCompaction(f: Fact, out: EventLog)
      requires f.Compaction?
      modifies out
      ensures Became(Compacted(old(Model()), f), old(out.events), out)
    {
      if f.thread !in threadConnections || threadConnections[f.thread] !in connections || f.thread !in threadMetadata {
        return;
      }
      out.Push(CompactionEvent(f.payload, connections[threadConnections[f.thread]], threadMetadata[f.thread]));
    }

    method IngestGuardianReview(f: Fact, out: EventLog)
      requires f.GuardianReview?
      modifies out
      ensures Became(Reviewed(old(Model()), f), old(out.events), out)
    {
      if f.thread !in threadConnections || threadConnections[f.thread] !in connections {
        return;
      }
      out.Push(GuardianEvent(f.payload, connections[threadConnections[f.thread]]));
    }

    method MaybeEmitTurnEvent(t: TurnId, out: EventLog)
      modifies this`turns, out
      ensures Became(FlushTurn(old(Model()), t), old(out.events), out)
    {
      if t !in turns {
        return;
      }
      var turn := turns[t];
      if turn.threadId.None? || turn.images.None? || turn.config.None? || turn.completed.None? {
        return;
      }
      if turn.connectionId.None? || turn.connectionId.value !in connections {
        return;
      }
      if turn.threadId.value !in threadMetadata {
        return;
      }
      out.Push(TurnEventParams(connections[turn.connectionId.value], t, turn, threadMetadata[turn.threadId.value]));
      turns := turns - {t};
    }
  }
}
