/** The turn join does not depend on the order in which its five facts arrive. */
module AnalyticsConfluence {
  import opened Wrappers
  import opened AnalyticsReducer
  import opened AnalyticsRuns

  /** The five facts of one turn, over a known connection and thread. */
  datatype Join = Join(conn: ConnectionId, req: RequestId, turn: TurnId, thread: ThreadId, images: nat,
                       config: string, end: Fact, startedAtRaw: Option<int>, usage: string)
  {
    predicate Valid() {
      end.TurnCompleted? && end.turn == turn
    }

    /** 0: start response, 1: resolved config, 2: completion (the three prerequisites);
        3: started notification, 4: token usage. */
    function Fact(i: nat): (f: AnalyticsReducer.Fact)
      requires i < 5
    {
      if i == 0 then TurnStartResponse(conn, req, turn)
      else if i == 1 then ResolvedConfig(turn, thread, images, config)
      else if i == 2 then end
      else if i == 3 then TurnStarted(turn, startedAtRaw)
      else TokenUsage(turn, thread, usage)
    }

    /** The connection and thread are known and the start request is pending. */
    predicate Prepared(s: State) {
      && conn in s.connections
      && thread in s.threadMetadata
      && (conn, req) in s.requests && s.requests[(conn, req)] == TurnStart(thread, images)
      && turn !in s.turns
    }

    /** A fact that leaves this turn, its pending request, its connection and its thread alone. */
    predicate Foreign(f: AnalyticsReducer.Fact) {
      && TurnOf(f) != Some(turn)
      && KeyOf(f) != Some((conn, req))
      && !(f.Initialize? && f.conn == conn)
      && !(f.ThreadResponse? && f.thread == thread)
    }

    /** `h` delivers the five facts once each, fact `i` at `pos[i]`, among foreign facts. */
    ghost predicate Delivers(h: seq<AnalyticsReducer.Fact>, pos: seq<nat>) {
      && |pos| == 5
      && (forall i: nat :: i < 5 ==> pos[i] < |h| && h[pos[i]] == Fact(i))
      && (forall k: nat :: k < |h| && k !in pos ==> Foreign(h[k]))
    }

    /** What is recorded of the turn before fact `k`, while prerequisites are missing. */
    function Partial(pos: seq<nat>, k: nat): TurnState
      requires |pos| == 5 && Valid()
    {
      TurnState(
        if pos[0] < k then Some(conn) else None,
        if pos[0] < k || pos[1] < k || pos[4] < k then Some(thread) else None,
        if pos[0] < k || pos[1] < k then Some(images) else None,
        if pos[1] < k then Some(config) else None,
        if pos[3] < k then ToUnsigned(startedAtRaw) else None,
        if pos[4] < k then Some(usage) else None,
        if pos[2] < k then Some(CompletionOf(end)) else None,
        0)
    }

    /** The one event: optional facts count only when they came before the last prerequisite. */
    function Event(s: State, hasStarted: bool, hasUsage: bool): AnalyticsReducer.Event
      requires Prepared(s) && Valid()
    {
      TurnEvent(turn, thread, s.connections[conn], s.threadMetadata[thread], config, images, CompletionOf(end), 0,
                if hasUsage then Some(usage) else None, if hasStarted then ToUnsigned(startedAtRaw) else None)
    }
  }

  function Max(a: nat, b: nat): nat {
    if a < b then b else a
  }

  /** The position of the last of the three prerequisites. */
  function LastPrerequisite(pos: seq<nat>): nat
    requires |pos| == 5
  {
    Max(pos[0], Max(pos[1], pos[2]))
  }

  ghost predicate SameSurroundings(s: State, s': State, j: Join) {
    && j.conn in s.connections && j.conn in s'.connections && s.connections[j.conn] == s'.connections[j.conn]
    && j.thread in s.threadMetadata && j.thread in s'.threadMetadata
    && s.threadMetadata[j.thread] == s'.threadMetadata[j.thread]
  }

  lemma StepKeepsSurroundings(s: State, f: Fact, j: Join)
    requires j.conn in s.connections && j.thread in s.threadMetadata
    requires !(f.Initialize? && f.conn == j.conn) && !(f.ThreadResponse? && f.thread == j.thread)
    ensures SameSurroundings(s, Step(s, f).state, j)
  {
  }

  /** The state before fact `k`, before and after the event. */
  ghost predicate JoinInvariant(s0: State, s: State, j: Join, pos: seq<nat>, k: nat)
    requires |pos| == 5 && j.Valid()
  {
    && SameSurroundings(s0, s, j)
    && (k <= pos[0] ==>
          (j.conn, j.req) in s.requests && s.requests[(j.conn, j.req)] == TurnStart(j.thread, j.images))
    && (k <= LastPrerequisite(pos) ==> TurnOrNew(s, j.turn) == j.Partial(pos, k))
    && (k > LastPrerequisite(pos) ==>
          var turn := TurnOrNew(s, j.turn); turn.connectionId.None? && turn.config.None? && turn.completed.None?)
  }

  lemma PositionsDiffer(j: Join, h: seq<Fact>, pos: seq<nat>)
    requires j.Valid() && j.Delivers(h, pos)
    ensures forall a: nat, b: nat :: a < b < 5 ==> pos[a] != pos[b]
  {
    forall a: nat, b: nat | a < b < 5 ensures pos[a] != pos[b] {
      assert h[pos[a]] == j.Fact(a) && h[pos[b]] == j.Fact(b);
      assert j.Fact(a) != j.Fact(b);
    }
  }

  /** One delivered fact before the join is complete. */
  lemma DeliveredBeforeEnd(s0: State, s: State, j: Join, pos: seq<nat>, i: nat)
    requires |pos| == 5 && j.Valid() && i < 5
    requires forall a: nat, b: nat :: a < b < 5 ==> pos[a] != pos[b]
    requires JoinInvariant(s0, s, j, pos, pos[i]) && j.Prepared(s0)
    requires pos[i] <= LastPrerequisite(pos)
    ensures pos[i] < LastPrerequisite(pos) ==>
              && Step(s, j.Fact(i)).emitted == []
              && TurnOrNew(Step(s, j.Fact(i)).state, j.turn) == j.Partial(pos, pos[i] + 1)
    ensures pos[i] == LastPrerequisite(pos) ==>
              && Step(s, j.Fact(i)).emitted == [j.Event(s0, pos[3] < pos[i], pos[4] < pos[i])]
              && j.turn !in Step(s, j.Fact(i)).state.turns
  {
    var s' := s.(turns := s.turns[j.turn := j.Partial(pos, pos[i] + 1)]);
    assert i == 0 ==> Step(s, j.Fact(i)) == FlushTurn(s'.(requests := s.requests - {(j.conn, j.req)}), j.turn);
    assert i == 1 || i == 2 || i == 4 ==> Step(s, j.Fact(i)) == FlushTurn(s', j.turn);
  }

  /** Optional facts that come late leave a residue but never a second event. */
  lemma DeliveredAfterEnd(s: State, j: Join, i: nat)
    requires j.Valid() && 3 <= i < 5
    requires var turn := TurnOrNew(s, j.turn); turn.connectionId.None? && turn.config.None? && turn.completed.None?
    ensures Step(s, j.Fact(i)).emitted == []
    ensures var turn := TurnOrNew(Step(s, j.Fact(i)).state, j.turn);
            turn.connectionId.None? && turn.config.None? && turn.completed.None?
  {
  }

  /** The three ways the run can go on from a state satisfying the invariant. */
  ghost predicate GoodStep(s0: State, s: State, f: Fact, j: Join, pos: seq<nat>, k: nat)
    requires |pos| == 5 && j.Valid() && j.Prepared(s0)
  {
    && JoinInvariant(s0, Step(s, f).state, j, pos, k + 1)
    && (EmitsTurn(s, f, j.turn) <==> k == LastPrerequisite(pos))
    && (k == LastPrerequisite(pos) ==> Step(s, f).emitted == [j.Event(s0, pos[3] < k, pos[4] < k)])
  }

  lemma DeliveredStep(s0: State, s: State, j: Join, pos: seq<nat>, i: nat)
    requires |pos| == 5 && j.Valid() && j.Prepared(s0) && i < 5
    requires forall a: nat, b: nat :: a < b < 5 ==> pos[a] != pos[b]
    requires JoinInvariant(s0, s, j, pos, pos[i])
    ensures GoodStep(s0, s, j.Fact(i), j, pos, pos[i])
  {
    var f := j.Fact(i);
    StepKeepsSurroundings(s, f, j);
    if i != 0 { StepKeepsOtherKeys(s, f, (j.conn, j.req)); }
    if pos[i] <= LastPrerequisite(pos) {
      DeliveredBeforeEnd(s0, s, j, pos, i);
      if pos[i] == LastPrerequisite(pos) {
        assert Step(s, f).emitted[0] in Step(s, f).emitted;
      }
    } else {
      DeliveredAfterEnd(s, j, i);
    }
  }

  lemma ForeignStep(s0: State, s: State, f: Fact, j: Join, pos: seq<nat>, k: nat)
    requires |pos| == 5 && j.Valid() && j.Prepared(s0) && j.Foreign(f) && k !in pos
    requires JoinInvariant(s0, s, j, pos, k)
    ensures GoodStep(s0, s, f, j, pos, k)
  {
    StepKeepsSurroundings(s, f, j);
    StepKeepsOtherTurns(s, f, j.turn);
    StepKeepsOtherKeys(s, f, (j.conn, j.req));
    assert forall i: nat :: i < 5 ==> pos[i] in pos;
    assert j.Partial(pos, k + 1) == j.Partial(pos, k);
  }

  lemma JoinStep(s0: State, s: State, h: seq<Fact>, j: Join, pos: seq<nat>, k: nat)
    requires j.Valid() && j.Delivers(h, pos) && j.Prepared(s0)
    requires k < |h| && JoinInvariant(s0, s, j, pos, k)
    ensures GoodStep(s0, s, h[k], j, pos, k)
  {
    if k in pos {
      PositionsDiffer(j, h, pos);
      var i: nat :| i < 5 && pos[i] == k;
      DeliveredStep(s0, s, j, pos, i);
    } else {
      ForeignStep(s0, s, h[k], j, pos, k);
    }
  }

  lemma JoinStarts(s0: State, h: seq<Fact>, j: Join, pos: seq<nat>)
    requires j.Valid() && j.Delivers(h, pos) && j.Prepared(s0)
    ensures JoinInvariant(s0, s0, j, pos, 0)
  {
    assert j.Partial(pos, 0) == EMPTY_TURN;
  }

  /** The invariant holds all along, whatever makes each state follow from the one before. */
  lemma {:induction false} JoinInduction(states: seq<State>, j: Join, pos: seq<nat>, k: nat)
    requires k < |states| && |pos| == 5 && j.Valid()
    requires JoinInvariant(states[0], states[0], j, pos, 0)
    requires forall i: nat :: i < k && JoinInvariant(states[0], states[i], j, pos, i) ==>
                              JoinInvariant(states[0], states[i + 1], j, pos, i + 1)
    ensures JoinInvariant(states[0], states[k], j, pos, k)
  {
    if k > 0 {
      JoinInduction(states, j, pos, k - 1);
    }
  }

  lemma JoinAdvances(s0: State, h: seq<Fact>, j: Join, pos: seq<nat>, k: nat, s: State, s': State)
    requires j.Valid() && j.Delivers(h, pos) && j.Prepared(s0) && k < |h|
    requires JoinInvariant(s0, s, j, pos, k) && s' == Step(s, h[k]).state
    ensures JoinInvariant(s0, s', j, pos, k + 1)
  {
    JoinStep(s0, s, h, j, pos, k);
  }

  lemma AtUnfolds(s0: State, h: seq<Fact>, k: nat)
    requires k < |h|
    ensures At(s0, h, k + 1) == Step(At(s0, h, k), h[k]).state
  {
  }

  lemma JoinInvariantHolds(s0: State, h: seq<Fact>, j: Join, pos: seq<nat>, k: nat)
    requires j.Valid() && j.Delivers(h, pos) && j.Prepared(s0) && k <= |h|
    ensures JoinInvariant(s0, At(s0, h, k), j, pos, k)
  {
    var states := StatesOf(s0, h);
    JoinStarts(s0, h, j, pos);
    forall i: nat | i < k && JoinInvariant(s0, states[i], j, pos, i)
      ensures JoinInvariant(s0, states[i + 1], j, pos, i + 1)
    {
      assert states[i + 1] == Step(states[i], h[i]).state by { AtUnfolds(s0, h, i); }
      JoinAdvances(s0, h, j, pos, i, states[i], states[i + 1]);
    }
    JoinInduction(states, j, pos, k);
  }

  /** All states of the run. */
  ghost function StatesOf(s0: State, h: seq<Fact>): (states: seq<State>)
    ensures |states| == |h| + 1 && states[0] == s0
    ensures forall i: nat :: i <= |h| ==> states[i] == At(s0, h, i)
  {
    seq(|h| + 1, i requires 0 <= i <= |h| => At(s0, h, i))
  }

  /** Whatever the order and whatever foreign facts come in between, exactly one turn event is
      pushed, by the last of the three prerequisites, and its content is fixed. */
  lemma ExactlyOneTurnEvent(s0: State, h: seq<Fact>, j: Join, pos: seq<nat>)
    requires j.Valid() && j.Delivers(h, pos) && j.Prepared(s0)
    ensures var last := LastPrerequisite(pos);
            && last < |h|
            && Emitted(s0, h, last) == [j.Event(s0, pos[3] < last, pos[4] < last)]
            && forall k: nat :: k < |h| ==> (EmitsTurn(At(s0, h, k), h[k], j.turn) <==> k == last)
  {
    forall k: nat | k < |h|
      ensures EmitsTurn(At(s0, h, k), h[k], j.turn) <==> k == LastPrerequisite(pos)
      ensures k == LastPrerequisite(pos) ==> Emitted(s0, h, k) == [j.Event(s0, pos[3] < k, pos[4] < k)]
    {
      JoinInvariantHolds(s0, h, j, pos, k);
      JoinStep(s0, At(s0, h, k), h, j, pos, k);
    }
    assert LastPrerequisite(pos) < |h|;
  }

  /** Two deliveries in any two orders push the identical event when both had the started
      notification and the token usage before their last prerequisite. */
  lemma OrderDoesNotMatter(s0: State, h: seq<Fact>, h': seq<Fact>, j: Join, pos: seq<nat>, pos': seq<nat>)
    requires j.Valid() && j.Prepared(s0) && j.Delivers(h, pos) && j.Delivers(h', pos')
    requires pos[3] < LastPrerequisite(pos) && pos[4] < LastPrerequisite(pos)
    requires pos'[3] < LastPrerequisite(pos') && pos'[4] < LastPrerequisite(pos')
    ensures LastPrerequisite(pos) < |h| && LastPrerequisite(pos') < |h'|
    ensures Emitted(s0, h, LastPrerequisite(pos)) == Emitted(s0, h', LastPrerequisite(pos'))
  {
    ExactlyOneTurnEvent(s0, h, j, pos);
    ExactlyOneTurnEvent(s0, h', j, pos');
  }
}
