/** The lock-file protocol with the recogniser and the writer of the rules file:
    src-tauri/src/rules.rs. */
module RulesUpdates {
  import opened Rules
  import opened RulesTheorems
  import opened RulesLock

  ghost const RULES := Editor(Recognised, WithRule)

  lemma RulesAddOneClass()
    ensures AddsOneClass(RULES, SameUpToSpaces)
  {
    forall file: string, p: Pattern, q: Pattern
      ensures RULES.present(RULES.Append(file, p), q) <==> RULES.present(file, q) || SameUpToSpaces(p, q)
    {
      RuleAddsOneClass(file, p, q);
    }
  }

  lemma RuleAddsOneClass(file: string, p: Pattern, q: Pattern)
    ensures RULES.present(RULES.Append(file, p), q) <==> RULES.present(file, q) || SameUpToSpaces(p, q)
  {
    RecognisedAfterAppend(file, p, q);
  }

  /** No update is lost: once an append has succeeded, its rule is recognised in the file in every
      later state, whatever the other processes do; and so is everything recognised before. */
  lemma NoUpdateIsLost(file: string, run: seq<Action>, states: seq<State>, i: nat, j: nat, pid: Pid)
    requires IsRun(RULES, file, run, states) && i < j <= |run| && run[i] == CheckAndWrite(pid)
    ensures Enabled(states[i], run[i]) && RULES.present(states[j].file, states[i].procs[pid].pattern)
    ensures forall q :: RULES.present(states[i].file, q) ==> RULES.present(states[j].file, q)
  {
    RulesAddOneClass();
    UpdatesAreKept(RULES, SameUpToSpaces, file, run, states, i, j, pid);
  }
}
