/** The terminal session table of src-tauri/src/terminal.rs and the protocol of opens, closes,
    reader exits and cleanup tasks around it. Each critical section is one step. */
module TerminalSessions {
  import opened Wrappers

  type Key = string
  type SessionId = nat

  // ---------- the table, one method per critical section ----------

  function Inserted(table: map<Key, SessionId>, key: Key, session: SessionId): map<Key, SessionId> {
    if key in table then table else table[key := session]
  }

  function Cleaned(table: map<Key, SessionId>, key: Key, session: SessionId): map<Key, SessionId> {
    if key in table && table[key] == session then table - {key} else table
  }

  /** `AppState::terminal_sessions`; a session is identified by its `Arc` pointer. */
  class SessionTable {
    var sessions: map<Key, SessionId>

    constructor ()
      ensures sessions == map[]
    {
      sessions := map[];
    }

    /** The first check of `terminal_open`. */
    method Find(key: Key) returns (found: Option<SessionId>)
      ensures found == if key in sessions then Some(sessions[key]) else None
    {
      if key in sessions {
        return Some(sessions[key]);
      }
      return None;
    }

    /** The re-check of `terminal_open`: an existing session wins. */
    method InsertIfAbsent(key: Key, session: SessionId) returns (existing: Option<SessionId>)
      modifies this
      ensures sessions == Inserted(old(sessions), key, session)
      ensures existing == if key in old(sessions) then Some(old(sessions)[key]) else None
    {
      if key in sessions {
        return Some(sessions[key]);
      }
      sessions := sessions[key := session];
      return None;
    }

    /** The locked part of `terminal_close`. */
    method Remove(key: Key) returns (removed: Option<SessionId>)
      modifies this
      ensures sessions == old(sessions) - {key}
      ensures removed == if key in old(sessions) then Some(old(sessions)[key]) else None
    {
      if key !in sessions {
        assert sessions - {key} == sessions;
        return None;
      }
      removed := Some(sessions[key]);
      sessions := sessions - {key};
    }

    /** The cleanup task: removes the entry only if it is still this very session. */
    method RemoveIfSame(key: Key, session: SessionId)
      modifies this
      ensures sessions == Cleaned(old(sessions), key, session)
    {
      var shouldRemove := key in sessions && sessions[key] == session;
      if shouldRemove {
        sessions := sessions - {key};
      }
    }
  }

  function TerminalKey(workspace: string, terminal: string): Key {
    workspace + ":" + terminal
  }

  /** Two different terminals share a key exactly when one workspace id continues the other past a colon. */
  lemma KeysCollideIff(w: string, t: string, w': string, t': string)
    requires |w| <= |w'|
    ensures TerminalKey(w, t) == TerminalKey(w', t') <==>
            (w == w' && t == t') || exists m :: w' == w + ":" + m && t == m + ":" + t'
  {
    var k, k' := TerminalKey(w, t), TerminalKey(w', t');
    if k == k' {
      assert w == k[..|w|] && w' == k[..|w'|] && t == k[|w| + 1..] && t' == k[|w'| + 1..];
      assert w <= w';
      if |w| < |w'| {
        var m := w'[|w| + 1..];
        assert k[|w|] == ':' && k[|w'|] == ':';
        assert w' == w + ":" + m;
        assert t == m + ":" + t';
      }
    }
    if m :| w' == w + ":" + m && t == m + ":" + t' {
      assert w + ":" + (m + ":" + t') == (w + ":" + m) + ":" + t';
    }
  }

  /** Ids without a colon, as generated workspace ids are, never collide. */
  lemma ColonFreeKeysAreDistinct(w: string, t: string, w': string, t': string)
    requires ':' !in w && ':' !in w'
    ensures TerminalKey(w, t) == TerminalKey(w', t') <==> w == w' && t == t'
  {
    if |w| <= |w'| {
      KeysCollideIff(w, t, w', t');
      assert forall m: string :: ':' in w + ":" + m by { ColonIsThere(w); }
    } else {
      KeysCollideIff(w', t', w, t);
      assert forall m: string :: ':' in w' + ":" + m by { ColonIsThere(w'); }
    }
  }

  lemma ColonIsThere(w: string)
    ensures forall m: string :: ':' in w + ":" + m
  {
    forall m: string ensures ':' in w + ":" + m {
      assert (w + ":" + m)[|w|] == ':';
    }
  }

  // ---------- the protocol ----------

  type CallId = nat

  datatype OpenCall =
    | Started(key: Key)
    | Missing(key: Key)
    | Spawned(key: Key, session: SessionId)
    | Losing(key: Key, session: SessionId)
    | Winning(key: Key, session: SessionId)
    | Returned

  datatype State = State(
    table: map<Key, SessionId>,
    opens: map<CallId, OpenCall>,
    next: SessionId,
    shells: map<SessionId, Key>,
    closing: set<SessionId>,
    killed: set<SessionId>,
    reading: set<SessionId>,
    ended: set<SessionId>,
    cleanups: set<(Key, SessionId)>,
    abandoned: set<SessionId>)

  const START := State(map[], map[], 0, map[], {}, {}, {}, {}, {}, {})

  datatype Action =
    | Open(call: CallId, workspace: string, terminal: string)
    | Check(call: CallId)
    | FailBeforeSpawn(call: CallId)
    | Spawn(call: CallId)
    | FailAfterSpawn(call: CallId)
    | Recheck(call: CallId)
    | KillLoser(call: CallId)
    | StartReader(call: CallId)
    | ReaderEnds(session: SessionId)
    | Cleanup(key: Key, session: SessionId)
    | Close(key: Key)
    | KillClosed(session: SessionId)

  /** Whether the action can happen in this state. */
  predicate Enabled(s: State, a: Action) {
    match a
    case Open(c, _, _) => c !in s.opens
    case Check(c) => c in s.opens && s.opens[c].Started?
    case FailBeforeSpawn(c) => c in s.opens && s.opens[c].Missing?
    case Spawn(c) => c in s.opens && s.opens[c].Missing?
    case FailAfterSpawn(c) => c in s.opens && s.opens[c].Missing?
    case Recheck(c) => c in s.opens && s.opens[c].Spawned?
    case KillLoser(c) => c in s.opens && s.opens[c].Losing?
    case StartReader(c) => c in s.opens && s.opens[c].Winning?
    case ReaderEnds(u) => u in s.reading
    case Cleanup(k, u) => (k, u) in s.cleanups
    case Close(k) => k in s.table
    case KillClosed(u) => u in s.closing
  }

  function Next(s: State, a: Action): State
    requires Enabled(s, a)
  {
    match a
    case Open(c, w, t) => s.(opens := s.opens[c := if t == "" then Returned else Started(TerminalKey(w, t))])
    case Check(c) =>
      var k := s.opens[c].key;
      s.(opens := s.opens[c := if k in s.table then Returned else Missing(k)])
    case FailBeforeSpawn(c) => s.(opens := s.opens[c := Returned])
    case Spawn(c) =>
      s.(opens := s.opens[c := Spawned(s.opens[c].key, s.next)], next := s.next + 1,
         shells := s.shells[s.next := s.opens[c].key])
    case FailAfterSpawn(c) =>
      s.(opens := s.opens[c := Returned], next := s.next + 1, shells := s.shells[s.next := s.opens[c].key],
         abandoned := s.abandoned + {s.next})
    case Recheck(c) =>
      var Spawned(k, u) := s.opens[c];
      s.(opens := s.opens[c := if k in s.table then Losing(k, u) else Winning(k, u)], table := Inserted(s.table, k, u))
    case KillLoser(c) => s.(opens := s.opens[c := Returned], killed := s.killed + {s.opens[c].session})
    case StartReader(c) => s.(opens := s.opens[c := Returned], reading := s.reading + {s.opens[c].session})
    case ReaderEnds(u) =>
      if u in s.shells
      then s.(reading := s.reading - {u}, ended := s.ended + {u}, cleanups := s.cleanups + {(s.shells[u], u)})
      else s
    case Cleanup(k, u) => s.(cleanups := s.cleanups - {(k, u)}, table := Cleaned(s.table, k, u))
    case Close(k) => s.(table := s.table - {k}, closing := s.closing + {s.table[k]})
    case KillClosed(u) => s.(closing := s.closing - {u}, killed := s.killed + {u})
  }

  /** States along a run in which every action is enabled. */
  ghost predicate IsRun(run: seq<Action>, states: seq<State>) {
    && |states| == |run| + 1
    && states[0] == START
    && forall i :: 0 <= i < |run| ==> Enabled(states[i], run[i]) && states[i + 1] == Next(states[i], run[i])
  }

  // ---------- every shell is accounted for ----------

  predicate HeldBy(call: OpenCall, u: SessionId) {
    (call.Spawned? || call.Losing?) && call.session == u
  }

  ghost predicate InsideOpen(s: State, u: SessionId) {
    exists c :: c in s.opens && HeldBy(s.opens[c], u)
  }

  predicate InTable(s: State, u: SessionId) {
    u in s.shells && s.shells[u] in s.table && s.table[s.shells[u]] == u
  }

  ghost predicate Accounted(s: State, u: SessionId) {
    InsideOpen(s, u) || InTable(s, u) || u in s.closing || u in s.killed || u in s.ended
  }

  /** The table and the open calls only hold known shells under their own key. */
  ghost predicate ValidHolders(s: State) {
    && (forall u :: u in s.shells ==> u < s.next)
    && (forall k :: k in s.table ==> s.table[k] in s.shells && s.shells[s.table[k]] == k && s.table[k] !in s.abandoned)
    && (forall c :: c in s.opens && (s.opens[c].Spawned? || s.opens[c].Losing? || s.opens[c].Winning?) ==>
          s.opens[c].session in s.shells && s.shells[s.opens[c].session] == s.opens[c].key
          && s.opens[c].session !in s.abandoned)
  }

  ghost predicate ValidSets(s: State) {
    && (forall p :: p in s.cleanups ==> p.1 in s.ended)
    && s.closing + s.killed + s.reading + s.ended <= s.shells.Keys
    && s.abandoned <= s.shells.Keys
    && s.abandoned !! s.closing + s.killed + s.reading + s.ended
  }

  ghost predicate Valid(s: State) {
    && ValidHolders(s)
    && ValidSets(s)
    && (forall u :: u in s.shells && u !in s.abandoned ==> Accounted(s, u))
  }

  lemma NextKeepsHolder(s: State, a: Action, u: SessionId)
    requires Valid(s) && Enabled(s, a) && InsideOpen(s, u)
    ensures Accounted(Next(s, a), u)
  {
    var s' := Next(s, a);
    var c :| c in s.opens && HeldBy(s.opens[c], u);
    if c in s'.opens && HeldBy(s'.opens[c], u) {
      assert InsideOpen(s', u);
    } else if a.Recheck? {
      assert s.opens[c] == Spawned(s.shells[u], u) && InTable(s', u);
    } else {
      assert a == KillLoser(c) && u in s'.killed;
    }
  }

  lemma NextKeepsAccounted(s: State, a: Action, u: SessionId)
    requires Valid(s) && Enabled(s, a) && u in s.shells && u !in s.abandoned
    ensures Accounted(Next(s, a), u)
  {
    if InsideOpen(s, u) {
      NextKeepsHolder(s, a, u);
    }
  }

  lemma NextKeepsHolders(s: State, a: Action)
    requires Valid(s) && Enabled(s, a)
    ensures ValidHolders(Next(s, a))
  {
  }

  lemma NextKeepsSets(s: State, a: Action)
    requires ValidHolders(s) && ValidSets(s) && Enabled(s, a)
    ensures ValidSets(Next(s, a))
  {
  }

  lemma NextKeepsValid(s: State, a: Action)
    requires Valid(s) && Enabled(s, a)
    ensures Valid(Next(s, a))
  {
    var s' := Next(s, a);
    NextKeepsHolders(s, a);
    NextKeepsSets(s, a);
    forall u | u in s'.shells && u !in s'.abandoned ensures Accounted(s', u) {
      if u in s.shells {
        NextKeepsAccounted(s, a, u);
      } else {
        assert HeldBy(s'.opens[a.call], u);
      }
    }
  }

  lemma {:induction false} RunsAreValid(run: seq<Action>, states: seq<State>, i: nat)
    requires IsRun(run, states) && i <= |run|
    ensures Valid(states[i])
  {
    if i > 0 {
      RunsAreValid(run, states, i - 1);
      assert states[(i - 1) + 1] == Next(states[i - 1], run[i - 1]);
      NextKeepsValid(states[i - 1], run[i - 1]);
    }
  }

  lemma {:induction false} AbandonedIffFailure(run: seq<Action>, states: seq<State>, i: nat)
    requires IsRun(run, states) && i <= |run|
    ensures states[i].abandoned != {} <==> exists m :: 0 <= m < i && run[m].FailAfterSpawn?
  {
    if i > 0 {
      var p := i - 1;
      AbandonedIffFailure(run, states, p);
      assert states[p + 1] == Next(states[p], run[p]);
      if run[p].FailAfterSpawn? {
        assert states[p].next in states[i].abandoned;
      }
    }
  }

  /** In every run: a spawned shell is inside its open call, in the table under its own key, about
      to be killed or killed by whoever removed it, or has had its reader end. This fails exactly
      when some open spawned its shell and then could not take the pty reader or writer: that
      shell is in nobody's hands from then on. */
  lemma ShellsAreAccountedIff(run: seq<Action>, states: seq<State>, i: nat)
    requires IsRun(run, states) && i <= |run|
    ensures (forall u :: u in states[i].shells ==> Accounted(states[i], u))
            <==> !exists m :: 0 <= m < i && run[m].FailAfterSpawn?
  {
    var s := states[i];
    RunsAreValid(run, states, i);
    AbandonedIffFailure(run, states, i);
    if s.abandoned != {} {
      var u :| u in s.abandoned;
      assert !Accounted(s, u);
    }
  }

  /** The shortest such run: one open that fails after its spawn loses its shell. */
  lemma FailedOpenLosesShell(w: string, t: string) returns (states: seq<State>)
    requires t != ""
    ensures IsRun([Open(0, w, t), Check(0), FailAfterSpawn(0)], states)
    ensures 0 in states[3].shells && !Accounted(states[3], 0)
  {
    var s1 := Next(START, Open(0, w, t));
    var s2 := Next(s1, Check(0));
    var s3 := Next(s2, FailAfterSpawn(0));
    states := [START, s1, s2, s3];
    assert s2.opens[0] == Missing(TerminalKey(w, t));
  }

  lemma {:induction false} ReturnedStays(run: seq<Action>, states: seq<State>, c: CallId, i: nat, j: nat)
    requires IsRun(run, states) && i <= j <= |run|
    requires c in states[i].opens && states[i].opens[c].Returned?
    ensures c in states[j].opens && states[j].opens[c].Returned?
  {
    if i < j {
      ReturnedStays(run, states, c, i, j - 1);
      assert states[(j - 1) + 1] == Next(states[j - 1], run[j - 1]);
    }
  }

  /** What the first check is for: an open that finds a session under its key ends there, with
      table and shells untouched, and never spawns a shell later. */
  lemma FoundSessionSpawnsNothing(run: seq<Action>, states: seq<State>, c: CallId, i: nat)
    requires IsRun(run, states) && i < |run| && run[i] == Check(c)
    ensures c in states[i].opens && states[i].opens[c].Started?
    ensures states[i + 1].table == states[i].table && states[i + 1].shells == states[i].shells
    ensures states[i].opens[c].key in states[i].table ==>
              forall j :: i < j < |run| ==> run[j] != Spawn(c) && run[j] != FailAfterSpawn(c)
  {
    assert states[i + 1] == Next(states[i], run[i]);
    if states[i].opens[c].key in states[i].table {
      forall j | i < j < |run| ensures run[j] != Spawn(c) && run[j] != FailAfterSpawn(c) {
        ReturnedStays(run, states, c, i + 1, j);
        assert Enabled(states[j], run[j]);
      }
    }
  }

  /** The ways out of the table, exactly: a close of that key, or the cleanup of the very session
      stored there, whose reader has ended. A cleanup of any other session leaves the entry alone. */
  lemma RemovalsAreOwned(run: seq<Action>, states: seq<State>, i: nat, k: Key)
    requires IsRun(run, states) && i < |run|
    requires k in states[i].table
    ensures k !in states[i + 1].table <==> run[i] == Close(k) || run[i] == Cleanup(k, states[i].table[k])
    ensures run[i] == Close(k) ==> states[i].table[k] in states[i + 1].closing
    ensures run[i] == Cleanup(k, states[i].table[k]) ==> states[i].table[k] in states[i].ended
    ensures k in states[i + 1].table ==> states[i + 1].table[k] == states[i].table[k]
  {
    RunsAreValid(run, states, i);
    assert states[i + 1] == Next(states[i], run[i]);
  }

  /** The only way in: the re-check of an open that finds the key free stores its own shell. */
  lemma InsertionsAreRechecks(run: seq<Action>, states: seq<State>, i: nat, k: Key)
    requires IsRun(run, states) && i < |run|
    requires k !in states[i].table
    ensures k in states[i + 1].table <==>
            run[i].Recheck? && states[i].opens[run[i].call] == Spawned(k, states[i].opens[run[i].call].session)
    ensures k in states[i + 1].table ==> states[i + 1].table[k] == states[i].opens[run[i].call].session
  {
    assert states[i + 1] == Next(states[i], run[i]);
  }

  // ---------- ended sessions leave the table ----------

  predicate Holds(call: OpenCall, u: SessionId) {
    (call.Spawned? || call.Losing? || call.Winning?) && call.session == u
  }

  /** A held shell exists, and its reader has not been started. */
  ghost predicate HeldIsNew(opens: map<CallId, OpenCall>, next: SessionId, read: set<SessionId>) {
    forall c: CallId, u: SessionId :: c in opens && Holds(opens[c], u) ==> u < next && u !in read
  }

  /** Every shell is held by one open at most, and its reader starts only when that open is done. */
  ghost predicate HeldOnce(s: State) {
    HeldIsNew(s.opens, s.next, s.reading + s.ended) && HeldByOne(s.opens)
  }

  ghost predicate HeldByOne(opens: map<CallId, OpenCall>) {
    forall c: CallId, d: CallId, u: SessionId ::
      c in opens && d in opens && Holds(opens[c], u) && Holds(opens[d], u) ==> c == d
  }

  ghost predicate CleanupsPending(s: State) {
    forall k :: k in s.table && s.table[k] in s.ended ==> (k, s.table[k]) in s.cleanups
  }

  lemma HolderBefore(s: State, a: Action, c: CallId, u: SessionId)
    requires Enabled(s, a) && c in Next(s, a).opens && Holds(Next(s, a).opens[c], u)
    ensures c in s.opens && (Holds(s.opens[c], u) || (a == Spawn(c) && u == s.next))
  {
  }

  lemma HeldIsUnread(s: State, a: Action, opens: map<CallId, OpenCall>, c: CallId, u: SessionId)
    requires Valid(s) && HeldOnce(s) && Enabled(s, a) && opens == Next(s, a).opens
    requires c in opens && Holds(opens[c], u)
    ensures u < Next(s, a).next && u !in Next(s, a).reading + Next(s, a).ended
  {
    HolderBefore(s, a, c, u);
  }

  lemma OneHolder(s: State, a: Action, opens: map<CallId, OpenCall>, c: CallId, d: CallId, u: SessionId)
    requires Valid(s) && HeldOnce(s) && Enabled(s, a) && opens == Next(s, a).opens
    requires c in opens && d in opens && Holds(opens[c], u) && Holds(opens[d], u)
    ensures c == d
  {
    HolderBefore(s, a, c, u);
    HolderBefore(s, a, d, u);
  }

  lemma NextHeld(s: State, a: Action, opens: map<CallId, OpenCall>, next: SessionId, read: set<SessionId>)
    requires Valid(s) && HeldOnce(s) && Enabled(s, a) && opens == Next(s, a).opens
    requires next == Next(s, a).next && read == Next(s, a).reading + Next(s, a).ended
    ensures HeldIsNew(opens, next, read) && HeldByOne(opens)
  {
    forall c: CallId, u: SessionId | c in opens && Holds(opens[c], u) ensures u < next && u !in read {
      HeldIsUnread(s, a, opens, c, u);
    }
    forall c: CallId, d: CallId, u: SessionId
      | c in opens && d in opens && Holds(opens[c], u) && Holds(opens[d], u)
      ensures c == d
    {
      OneHolder(s, a, opens, c, d, u);
    }
  }

  lemma NextKeepsHeldOnce(s: State, a: Action)
    requires Valid(s) && HeldOnce(s) && Enabled(s, a)
    ensures HeldOnce(Next(s, a))
  {
    NextHeld(s, a, Next(s, a).opens, Next(s, a).next, Next(s, a).reading + Next(s, a).ended);
  }

  lemma NextKeepsCleanupsPending(s: State, a: Action)
    requires Valid(s) && HeldOnce(s) && CleanupsPending(s) && Enabled(s, a)
    ensures CleanupsPending(Next(s, a))
  {
    if a.Recheck? {
      assert Holds(s.opens[a.call], s.opens[a.call].session);
    }
  }

  lemma {:induction false} RunsKeepCleanupsPending(run: seq<Action>, states: seq<State>, i: nat)
    requires IsRun(run, states) && i <= |run|
    ensures HeldOnce(states[i]) && CleanupsPending(states[i])
  {
    if i > 0 {
      RunsKeepCleanupsPending(run, states, i - 1);
      RunsAreValid(run, states, i - 1);
      assert states[(i - 1) + 1] == Next(states[i - 1], run[i - 1]);
      NextKeepsHeldOnce(states[i - 1], run[i - 1]);
      NextKeepsCleanupsPending(states[i - 1], run[i - 1]);
    }
  }

  /** In every run, a table entry whose session has ended still has its own cleanup pending, and that
      cleanup takes it out; once no cleanup is pending, no ended session is left to be found. */
  lemma EndedSessionsLeave(run: seq<Action>, states: seq<State>, i: nat, k: Key)
    requires IsRun(run, states) && i <= |run|
    requires k in states[i].table && states[i].table[k] in states[i].ended
    ensures Enabled(states[i], Cleanup(k, states[i].table[k]))
    ensures k !in Next(states[i], Cleanup(k, states[i].table[k])).table
    ensures states[i].cleanups != {}
  {
    RunsKeepCleanupsPending(run, states, i);
  }
}
