/** Any number of processes appending to one rules file under the lock-file protocol of
    src-tauri/src/rules.rs. Creating the lock file is atomic (`create_new`); no lock is ever
    judged stale and reads succeed. The protocol is stated for any recogniser and any writer. */
module RulesLock {
  import opened Rules

  type Pid = nat

  /** Where a process is inside `append_prefix_rule`. */
  datatype Phase =
    | Waiting(pattern: Pattern)
    | Holding(pattern: Pattern)
    | HasRead(pattern: Pattern, existing: string)
    | Finishing(pattern: Pattern)

  /** `lockFile`: whether the lock file exists. `succeeded`: patterns of appends that have
      decided to return `Ok`, in the order of that decision. */
  datatype State = State(file: string, lockFile: bool, procs: map<Pid, Phase>, succeeded: seq<Pattern>)

  datatype Action =
    | Begin(pid: Pid, pattern: Pattern)
    | Acquire(pid: Pid)
    | TimeOut(pid: Pid)
    | ReadFile(pid: Pid)
    | CheckAndWrite(pid: Pid)
    | DropLock(pid: Pid)

  predicate Enabled(s: State, a: Action) {
    match a
    case Begin(p, pattern) => p !in s.procs && pattern != []
    case Acquire(p) => p in s.procs && s.procs[p].Waiting? && !s.lockFile
    case TimeOut(p) => p in s.procs && s.procs[p].Waiting? && s.lockFile
    case ReadFile(p) => p in s.procs && s.procs[p].Holding?
    case CheckAndWrite(p) => p in s.procs && s.procs[p].HasRead?
    case DropLock(p) => p in s.procs && s.procs[p].Finishing?
  }

  /** What a process computes from the text it read. */
  datatype Editor = Editor(present: (string, Pattern) -> bool, write: (string, Pattern) -> string)
  {
    ghost function Append(file: string, pattern: Pattern): string {
      if present(file, pattern) then file else write(file, pattern)
    }
  }

  ghost function Next(ed: Editor, s: State, a: Action): State
    requires Enabled(s, a)
  {
    match a
    case Begin(p, pattern) => s.(procs := s.procs[p := Waiting(pattern)])
    case Acquire(p) => s.(lockFile := true, procs := s.procs[p := Holding(s.procs[p].pattern)])
    case TimeOut(p) => s.(procs := s.procs - {p})
    case ReadFile(p) => s.(procs := s.procs[p := HasRead(s.procs[p].pattern, s.file)])
    case CheckAndWrite(p) =>
      var HasRead(pattern, existing) := s.procs[p];
      s.(file := if ed.present(existing, pattern) then s.file else ed.write(existing, pattern),
         procs := s.procs[p := Finishing(pattern)], succeeded := s.succeeded + [pattern])
    case DropLock(p) => s.(lockFile := false, procs := s.procs - {p})
  }

  function Start(file: string): State {
    State(file, false, map[], [])
  }

  ghost predicate IsRun(ed: Editor, file: string, run: seq<Action>, states: seq<State>) {
    && |states| == |run| + 1
    && states[0] == Start(file)
    && forall i :: 0 <= i < |run| ==> Enabled(states[i], run[i]) && states[i + 1] == Next(ed, states[i], run[i])
  }

  /** Between acquiring and dropping the lock. */
  predicate InCriticalSection(s: State, p: Pid) {
    p in s.procs && !s.procs[p].Waiting?
  }

  /** The appends performed one after the other on the initial file. */
  ghost function InSequence(ed: Editor, file: string, patterns: seq<Pattern>): string {
    if patterns == [] then file
    else ed.Append(InSequence(ed, file, patterns[..|patterns| - 1]), patterns[|patterns| - 1])
  }

  ghost predicate OneHolder(s: State) {
    && (forall p, p' :: InCriticalSection(s, p) && InCriticalSection(s, p') ==> p == p')
    && (s.lockFile <==> exists p :: InCriticalSection(s, p))
  }

  ghost predicate Serial(ed: Editor, file: string, s: State) {
    && (forall p :: p in s.procs && s.procs[p].HasRead? ==> s.procs[p].existing == s.file)
    && s.file == InSequence(ed, file, s.succeeded)
  }

  lemma NextKeepsOneHolder(ed: Editor, s: State, a: Action)
    requires OneHolder(s) && Enabled(s, a)
    ensures OneHolder(Next(ed, s, a))
  {
    var s' := Next(ed, s, a);
    if a.Acquire? {
      assert forall q :: !InCriticalSection(s, q);
      forall q ensures InCriticalSection(s', q) <==> q == a.pid {
        assert !InCriticalSection(s, q);
      }
      assert InCriticalSection(s', a.pid);
    } else if a.DropLock? {
      assert InCriticalSection(s, a.pid);
      forall q ensures !InCriticalSection(s', q) {
        assert InCriticalSection(s', q) ==> InCriticalSection(s, q);
      }
    } else {
      assert forall q :: InCriticalSection(s', q) <==> InCriticalSection(s, q);
    }
  }

  lemma NextKeepsSerial(ed: Editor, file: string, s: State, a: Action)
    requires OneHolder(s) && Serial(ed, file, s) && Enabled(s, a)
    ensures Serial(ed, file, Next(ed, s, a))
  {
    if a.CheckAndWrite? {
      var s' := Next(ed, s, a);
      assert InCriticalSection(s, a.pid);
      assert s'.succeeded[..|s'.succeeded| - 1] == s.succeeded;
      forall p | p in s'.procs && s'.procs[p].HasRead? ensures false {
        assert p != a.pid && InCriticalSection(s, p);
      }
    }
  }

  /** At most one process is in the critical section, the lock file exists exactly then, and the
      file is what the finished appends give when performed one after the other. */
  lemma {:induction false} MutualExclusion(ed: Editor, file: string, run: seq<Action>, states: seq<State>, i: nat)
    requires IsRun(ed, file, run, states) && i <= |run|
    ensures OneHolder(states[i]) && Serial(ed, file, states[i])
  {
    if i > 0 {
      var p := i - 1;
      MutualExclusion(ed, file, run, states, p);
      assert states[p + 1] == Next(ed, states[p], run[p]);
      NextKeepsOneHolder(ed, states[p], run[p]);
      NextKeepsSerial(ed, file, states[p], run[p]);
    } else {
      assert forall p :: !InCriticalSection(states[0], p);
    }
  }

  lemma {:induction false} SucceededOnlyGrows(ed: Editor, file: string, run: seq<Action>, states: seq<State>,
                                              i: nat, j: nat)
    requires IsRun(ed, file, run, states) && i <= j <= |run|
    ensures states[i].succeeded <= states[j].succeeded
  {
    if i < j {
      var p := j - 1;
      SucceededOnlyGrows(ed, file, run, states, i, p);
      assert states[p + 1] == Next(ed, states[p], run[p]);
    }
  }

  /** An append makes one class of patterns present and forgets none. */
  ghost predicate AddsOneClass(ed: Editor, same: (Pattern, Pattern) -> bool) {
    forall file, p, q :: ed.present(ed.Append(file, p), q) <==> ed.present(file, q) || same(p, q)
  }

  lemma {:induction false} SequencePresents(ed: Editor, same: (Pattern, Pattern) -> bool, file: string,
                                            patterns: seq<Pattern>, q: Pattern)
    requires AddsOneClass(ed, same)
    ensures ed.present(InSequence(ed, file, patterns), q) <==>
            ed.present(file, q) || exists k :: 0 <= k < |patterns| && same(patterns[k], q)
  {
    if patterns != [] {
      var init, last := patterns[..|patterns| - 1], patterns[|patterns| - 1];
      SequencePresents(ed, same, file, init, q);
      assert ed.present(ed.Append(InSequence(ed, file, init), last), q)
             <==> ed.present(InSequence(ed, file, init), q) || same(last, q);
      assert forall k :: 0 <= k < |init| ==> patterns[k] == init[k];
      assert patterns[|patterns| - 1] == last;
    }
  }

  /** What is present in the file at any moment: what was there at the start, and the class of
      every append that has succeeded. */
  lemma PresentIffSucceeded(ed: Editor, same: (Pattern, Pattern) -> bool, file: string, run: seq<Action>,
                            states: seq<State>, i: nat, q: Pattern)
    requires IsRun(ed, file, run, states) && i <= |run| && AddsOneClass(ed, same)
    ensures ed.present(states[i].file, q) <==>
            ed.present(file, q) || exists k :: 0 <= k < |states[i].succeeded| && same(states[i].succeeded[k], q)
  {
    MutualExclusion(ed, file, run, states, i);
    SequencePresents(ed, same, file, states[i].succeeded, q);
  }

  lemma SucceededIsKept(ed: Editor, file: string, run: seq<Action>, states: seq<State>, i: nat, j: nat, pid: Pid)
    requires IsRun(ed, file, run, states) && i < j <= |run| && run[i] == CheckAndWrite(pid)
    ensures Enabled(states[i], run[i])
    ensures states[i].succeeded + [states[i].procs[pid].pattern] <= states[j].succeeded
  {
    assert states[i + 1] == Next(ed, states[i], run[i]);
    SucceededOnlyGrows(ed, file, run, states, i + 1, j);
  }

  lemma UpdatesAreKept(ed: Editor, same: (Pattern, Pattern) -> bool, file: string, run: seq<Action>, states: seq<State>,
                       i: nat, j: nat, pid: Pid)
    requires IsRun(ed, file, run, states) && i < j <= |run| && run[i] == CheckAndWrite(pid)
    requires AddsOneClass(ed, same) && forall p :: same(p, p)
    ensures Enabled(states[i], run[i]) && ed.present(states[j].file, states[i].procs[pid].pattern)
    ensures forall q :: ed.present(states[i].file, q) ==> ed.present(states[j].file, q)
  {
    SucceededIsKept(ed, file, run, states, i, j, pid);
    var before, after := states[i].succeeded, states[j].succeeded;
    var pattern := states[i].procs[pid].pattern;
    assert after[|before|] == (before + [pattern])[|before|] && same(pattern, pattern);
    PresentIffSucceeded(ed, same, file, run, states, j, pattern);
    forall q | ed.present(states[i].file, q) ensures ed.present(states[j].file, q) {
      PresentIffSucceeded(ed, same, file, run, states, i, q);
      PresentIffSucceeded(ed, same, file, run, states, j, q);
      assert forall k :: 0 <= k < |before| ==> after[k] == (before + [pattern])[k] == before[k];
    }
  }
}
