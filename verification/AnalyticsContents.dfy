/** Where the contents of the reducer's state and events come from, over whole runs: every statement
    names the facts of the run, field by field. */
module AnalyticsContents {
  import opened Wrappers
  import opened AnalyticsReducer
  import opened AnalyticsRuns
  import opened AnalyticsConfluence

  /** Fact `m` is the last one before `k` that satisfies `p`. */
  ghost predicate LastBefore(h: seq<Fact>, m: nat, k: nat, p: Fact -> bool) {
    m < k <= |h| && p(h[m]) && forall i: nat :: m < i < k ==> !p(h[i])
  }

  /** A count as reported: none unless the raw value is there and not negative. */
  ghost predicate ReportedAs(raw: Option<int>, reported: Option<nat>) {
    forall n: int :: (reported.Some? && reported.value == n) <==> (raw == Some(n) && n >= 0)
  }

  /** What a completion notification says, as it is reported later. */
  ghost predicate ReportsCompletion(c: CompletedTurn, end: Fact) {
    && end.TurnCompleted?
    && (c.status.None? <==> end.status == InProgress)
    && (c.status.Some? ==> c.status.value == end.status)
    && c.error == end.error
    && (var raw := end.completedAtRaw; c.completedAt == if raw.Some? && raw.value >= 0 then raw.value else 0)
    && ReportedAs(end.durationRaw, c.durationMs)
  }

  function CompletesTurn(t: TurnId): Fact -> bool {
    (f: Fact) => f.TurnCompleted? && f.turn == t
  }

  function StartsTurn(t: TurnId): Fact -> bool {
    (f: Fact) => f.TurnStarted? && f.turn == t
  }

  function InitializesConnection(c: ConnectionId): Fact -> bool {
    (f: Fact) => f.Initialize? && f.conn == c
  }

  // ---------- what one fact records ----------

  lemma CompletionIsReported(end: Fact)
    requires end.TurnCompleted?
    ensures ReportsCompletion(CompletionOf(end), end)
  {
  }

  /** What one step leaves stored as the completion and the start of a turn. */
  lemma StepRecords(s: State, f: Fact, t: TurnId)
    requires t in Step(s, f).state.turns
    ensures var turn := Step(s, f).state.turns[t];
            && turn.completed == (if CompletesTurn(t)(f) then Some(CompletionOf(f)) else TurnOrNew(s, t).completed)
            && (StartsTurn(t)(f) ==> ReportedAs(f.startedAtRaw, turn.startedAt))
            && (!StartsTurn(t)(f) ==> turn.startedAt == TurnOrNew(s, t).startedAt)
  {
  }

  /** Fact `f` answers a pending start request, so that it begins turn `t`. */
  ghost predicate Begins(s: State, f: Fact, t: TurnId) {
    && f.TurnStartResponse? && f.turn == t
    && (f.conn, f.req) in s.requests && s.requests[(f.conn, f.req)].TurnStart?
  }

  /** What one step leaves stored of configuration and usage. */
  lemma StepRecordsConfig(s: State, f: Fact, t: TurnId)
    requires t in Step(s, f).state.turns
    ensures var turn, before := Step(s, f).state.turns[t], TurnOrNew(s, t);
            && turn.config == (if f.ResolvedConfig? && f.turn == t then Some(f.config) else before.config)
            && turn.tokenUsage == (if f.TokenUsage? && f.turn == t then Some(f.usage) else before.tokenUsage)
  {
  }

  /** What one step leaves stored of the thread and the images: a resolved configuration sets both, a
      token usage the thread, and an answered start request both, as requested. */
  lemma StepRecordsThread(s: State, f: Fact, t: TurnId)
    requires t in Step(s, f).state.turns
    ensures var turn, before := Step(s, f).state.turns[t], TurnOrNew(s, t);
            && turn.threadId == (if (f.ResolvedConfig? || f.TokenUsage?) && f.turn == t then Some(f.thread)
                                 else if Begins(s, f, t) then Some(s.requests[(f.conn, f.req)].threadId)
                                 else before.threadId)
            && turn.images == (if f.ResolvedConfig? && f.turn == t then Some(f.images)
                               else if Begins(s, f, t) then Some(s.requests[(f.conn, f.req)].images)
                               else before.images)
  {
  }

  /** Only an answered start request tells a turn its connection. */
  lemma StepRecordsConnection(s: State, f: Fact, t: TurnId)
    requires t in Step(s, f).state.turns
    ensures Step(s, f).state.turns[t].connectionId
            == if Begins(s, f, t) then Some(f.conn) else TurnOrNew(s, t).connectionId
  {
  }

  /** The stored completion of a turn is the last one the run delivered for it. */
  lemma {:induction false} CompletionIsLatest(h: seq<Fact>, t: TurnId, k: nat) returns (m: nat)
    requires k <= |h|
    requires t in At(INITIAL, h, k).turns && At(INITIAL, h, k).turns[t].completed.Some?
    ensures LastBefore(h, m, k, CompletesTurn(t))
    ensures ReportsCompletion(At(INITIAL, h, k).turns[t].completed.value, h[m])
  {
    var s, f := At(INITIAL, h, k - 1), h[k - 1];
    StepRecords(s, f, t);
    if CompletesTurn(t)(f) {
      m := k - 1;
      CompletionIsReported(f);
    } else {
      m := CompletionIsLatest(h, t, k - 1);
    }
  }

  /** The stored start time of a turn is that of the last started notification. */
  lemma {:induction false} StartIsLatest(h: seq<Fact>, t: TurnId, k: nat) returns (m: nat)
    requires k <= |h|
    requires t in At(INITIAL, h, k).turns && At(INITIAL, h, k).turns[t].startedAt.Some?
    ensures LastBefore(h, m, k, StartsTurn(t))
    ensures ReportedAs(h[m].startedAtRaw, At(INITIAL, h, k).turns[t].startedAt)
  {
    var s, f := At(INITIAL, h, k - 1), h[k - 1];
    StepRecords(s, f, t);
    if StartsTurn(t)(f) {
      m := k - 1;
    } else {
      m := StartIsLatest(h, t, k - 1);
    }
  }

  // ---------- the contents of a turn event ----------

  /** A turn event is made of the stored turn, the fact just delivered, and what is known of the
      connection and the thread. */
  lemma TurnEventIs(s: State, f: Fact, t: TurnId, e: Event)
    requires EmitsTurn(s, f, t) && e in Step(s, f).emitted && e.TurnEvent?
    ensures t in s.turns && TurnOf(f) == Some(t)
    ensures var turn := s.turns[t];
            && Step(s, f).emitted == [e] && e.turnId == t
            && Some(e.completion) == (if f.TurnCompleted? then Some(CompletionOf(f)) else turn.completed)
            && Some(e.config) == (if f.ResolvedConfig? then Some(f.config) else turn.config)
            && e.tokenUsage == (if f.TokenUsage? then Some(f.usage) else turn.tokenUsage)
            && e.startedAt == turn.startedAt && e.steerCount == turn.steerCount
            && e.threadId in s.threadMetadata && e.metadata == s.threadMetadata[e.threadId]
            && (f.TurnCompleted? ==> Some(e.threadId) == turn.threadId && Some(e.images) == turn.images)
            && (f.ResolvedConfig? ==> e.threadId == f.thread && e.images == f.images)
            && (f.TokenUsage? ==> e.threadId == f.thread && Some(e.images) == turn.images)
            && (f.TurnStartResponse? ==>
                  && f.conn in s.connections && e.connection == s.connections[f.conn]
                  && (f.conn, f.req) in s.requests && s.requests[(f.conn, f.req)] == TurnStart(e.threadId, e.images))
            && (!f.TurnStartResponse? ==>
                  && turn.connectionId.Some? && turn.connectionId.value in s.connections
                  && e.connection == s.connections[turn.connectionId.value])
  {
  }

  /** In any run: an emitted turn event reports the last completion the run delivered for its turn,
      and the last start, each as the notification says. */
  lemma EmittedEventReportsTheRun(h: seq<Fact>, t: TurnId, k: nat, e: Event) returns (m: nat)
    requires k < |h| && EmitsTurn(At(INITIAL, h, k), h[k], t) && e in Emitted(INITIAL, h, k) && e.TurnEvent?
    ensures LastBefore(h, m, k + 1, CompletesTurn(t)) && ReportsCompletion(e.completion, h[m])
    ensures e.startedAt.Some? ==>
              exists i: nat :: LastBefore(h, i, k, StartsTurn(t)) && ReportedAs(h[i].startedAtRaw, e.startedAt)
  {
    TurnEventIs(At(INITIAL, h, k), h[k], t, e);
    if h[k].TurnCompleted? {
      m := k;
      CompletionIsReported(h[k]);
    } else {
      m := CompletionIsLatest(h, t, k);
    }
    if e.startedAt.Some? {
      var i := StartIsLatest(h, t, k);
    }
  }

  /** The one event of a join, field by field. */
  lemma JoinedEventContents(s0: State, h: seq<Fact>, j: Join, pos: seq<nat>) returns (e: Event)
    requires j.Valid() && j.Delivers(h, pos) && j.Prepared(s0)
    ensures LastPrerequisite(pos) < |h| && Emitted(s0, h, LastPrerequisite(pos)) == [e]
    ensures e.TurnEvent? && e.turnId == j.turn && e.threadId == j.thread
    ensures e.connection == s0.connections[j.conn] && e.metadata == s0.threadMetadata[j.thread]
    ensures e.config == j.config && e.images == j.images && e.steerCount == 0
    ensures ReportsCompletion(e.completion, j.end)
    ensures e.tokenUsage == if pos[4] < LastPrerequisite(pos) then Some(j.usage) else None
    ensures if pos[3] < LastPrerequisite(pos) then ReportedAs(j.startedAtRaw, e.startedAt) else e.startedAt.None?
  {
    ExactlyOneTurnEvent(s0, h, j, pos);
    CompletionIsReported(j.end);
    e := j.Event(s0, pos[3] < LastPrerequisite(pos), pos[4] < LastPrerequisite(pos));
  }

  // ---------- what is known of connections and threads ----------

  /** A known connection carries what its last initialisation said. */
  lemma {:induction false} ConnectionIsLatest(h: seq<Fact>, c: ConnectionId, k: nat) returns (m: nat)
    requires k <= |h| && c in At(INITIAL, h, k).connections
    ensures LastBefore(h, m, k, InitializesConnection(c))
    ensures At(INITIAL, h, k).connections[c] == h[m].info
  {
    var s, f := At(INITIAL, h, k - 1), h[k - 1];
    if InitializesConnection(c)(f) {
      m := k - 1;
    } else {
      if !f.Initialize? && !f.ThreadResponse? {
        StepKeepsKnowledge(s, f);
      }
      m := ConnectionIsLatest(h, c, k - 1);
    }
  }

  /** Fact `m` is the last accepted response for the thread before `k`: one on a connection
      initialised before it. */
  ghost predicate LastAcceptedResponse(h: seq<Fact>, th: ThreadId, m: nat, k: nat)
    requires k <= |h|
  {
    && m < k && h[m].ThreadResponse? && h[m].thread == th && Initialized(h, m, h[m].conn)
    && forall i: nat :: m < i < k && h[i].ThreadResponse? && h[i].thread == th ==> !Initialized(h, i, h[i].conn)
  }

  /** A known thread has the metadata and the connection of its last accepted response. */
  lemma {:induction false} ThreadIsLatest(h: seq<Fact>, th: ThreadId, k: nat) returns (m: nat)
    requires k <= |h| && th in At(INITIAL, h, k).threadMetadata
    ensures LastAcceptedResponse(h, th, m, k)
    ensures At(INITIAL, h, k).threadMetadata[th] == h[m].metadata
    ensures th in At(INITIAL, h, k).threadConnections && At(INITIAL, h, k).threadConnections[th] == h[m].conn
  {
    var s, f := At(INITIAL, h, k - 1), h[k - 1];
    ReachableIsConsistent(h, k);
    if f.ThreadResponse? && f.thread == th {
      ConnectionsAreHistory(h, k - 1, f.conn);
    } else if !f.Initialize? && !f.ThreadResponse? {
      StepKeepsKnowledge(s, f);
    }
    if f.ThreadResponse? && f.thread == th && Initialized(h, k - 1, f.conn) {
      m := k - 1;
    } else {
      m := ThreadIsLatest(h, th, k - 1);
    }
  }

  /** A thread response is announced exactly when its connection was initialised before it, with the
      response's own model and metadata. */
  lemma ThreadResponseIsAnnounced(h: seq<Fact>, k: nat)
    requires k < |h| && h[k].ThreadResponse?
    ensures !Initialized(h, k, h[k].conn) ==> Emitted(INITIAL, h, k) == []
    ensures Initialized(h, k, h[k].conn) ==>
              var known := At(INITIAL, h, k).connections;
              && h[k].conn in known
              && Emitted(INITIAL, h, k)
                 == [ThreadInitialized(h[k].thread, known[h[k].conn], h[k].model, h[k].metadata)]
  {
    ConnectionsAreHistory(h, k, h[k].conn);
  }

  /** A compaction event carries the metadata of the thread's last accepted response, and both thread
      events the connection of that response as last initialised. */
  lemma ThreadEventContents(h: seq<Fact>, k: nat) returns (m: nat, i: nat)
    requires k < |h| && (h[k].Compaction? || h[k].GuardianReview?) && ThreadKnown(h, k, h[k].thread)
    ensures LastAcceptedResponse(h, h[k].thread, m, k) && LastBefore(h, i, k, InitializesConnection(h[m].conn))
    ensures Emitted(INITIAL, h, k)
            == if h[k].Compaction? then [CompactionEvent(h[k].payload, h[i].info, h[m].metadata)]
               else [GuardianEvent(h[k].payload, h[i].info)]
  {
    ThreadsAreHistory(h, k, h[k].thread);
    ReachableIsConsistent(h, k);
    m := ThreadIsLatest(h, h[k].thread, k);
    i := ConnectionIsLatest(h, h[m].conn, k);
  }

  /** What a steer event says of its connection and thread, and why it was rejected. */
  lemma SteerEventContents(h: seq<Fact>, i: nat, j: nat, e: Event)
    requires j < |h| && Answers(h, i, j) && e in Emitted(INITIAL, h, j) && e.SteerEvent?
    ensures var s := At(INITIAL, h, j);
            && h[i].conn in s.connections && e.connection == s.connections[h[i].conn]
            && h[i].thread in s.threadMetadata && e.metadata == s.threadMetadata[h[i].thread]
            && e.rejectionReason == if h[j].ErrorResponse? then h[j].reason else None
  {
    AnsweredRequestIsPending(h, i, j);
  }
}
