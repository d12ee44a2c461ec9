# A verified model of CodexMonitor's state machines, decoders and printers

CodexMonitor is a desktop client for coding agents: a Tauri application (Rust), a TypeScript
user interface and a copy of the Codex crates it talks to. Most of it is plumbing. This project
models the parts that are not, and proves what they promise for all inputs and all runs.

| area | Dafny files | what is proved |
|---|---|---|
| analytics reducer | `AnalyticsReducer`, `AnalyticsRuns`, `AnalyticsConfluence`, `AnalyticsContents` | the class with its five maps refines a pure step; over every run of facts: counting bounds, reachable-state invariants, the history behind every stored key, steer accounting, order independence of the turn join, and which fact of the run every part of an event comes from |
| terminal | `Utf8`, `TerminalReader`, `TerminalSessions` | the incremental decoder equals one reference decoding however the bytes were cut; every spawned shell is accounted for unless an open failed after its spawn, and an ended session leaves the table |
| JSON fixtures | `Json`, `JsonCanonical`, `JsonOrder`, `Sorting` | equal canonical forms if and only if equal up to key order and the order of arrays of sortable elements, and what that order is |
| approval rules | `Text`, `Rules`, `RulesTheorems`, `RulesReading`, `RulesLock`, `RulesUpdates` | what the recogniser reads in the characters of the file; what one append adds to what it finds, exactly; mutual exclusion and no lost update for any interleaving |
| conversation items | `ThreadItems`, `ListOps`, `ListContents`, `Explore`, `Prepare`, `PrepareContents`, `Collab`, `CollabEnrich`, `CollabContents` | the stability laws of upsert, merge, summary, preparation and enrichment, with the exact condition where a law fails, and what each stored, shown or enriched item holds |
| prompts and fences | `Shlex`, `Placeholders`, `PlaceholderReading`, `Prompts`, `PromptsReading`, `Fences` | typing a prompt command and expanding it, printing a fenced block and reading it back |
| event hub | `EventHub` | the asynchronous subscription machine over every run |
| tray menu | `Tray`, `TrayTheorems`, `TrayContents` | newest entry per thread, every entry shown once in which order and under which id, targets that agree with the menu |

Code that changes things step by step is imperative here as well: classes with the source's
fields (`Reducer`, `Reader`, `SessionTable`, `RulesFile`, `Hub`) and loops with invariants, each
tied to a specification function; the theorems are lemmas about those functions. Strings of the
Rust code are sequences of characters (Unicode scalar values); strings of the TypeScript code are
sequences of UTF-16 code units, which is what `length` counts and `trim` sees.

## Where the code and its promise differ

Each of these is the code as it is, with a lemma that says exactly when it matters.

- A turn can be complete and still wait in the reducer. A step leaves one behind exactly when it
  initialises the connection, or accepts a response for the thread, that an otherwise complete turn
  was waiting for (`StepKeepsNoReadyTurnWaitsIff`; reachable both ways by `ReadyTurnCanWait` and
  `ReadyTurnCanWaitForThread`). Not every later fact of that turn flushes it: a started
  notification, a steer response and an unmatched start response leave it waiting, and a fact that
  names an unknown thread or connection takes its readiness away (`ReadyTurnIsFlushedIff`).
- If taking the pty reader or writer fails after the shell was spawned, `terminal_open` returns and
  nobody holds the shell (terminal.rs:241-252). `ShellsAreAccountedIff` shows that this is the only
  way a shell is lost; `FailedOpenLosesShell` is a run of three steps that loses one.
- Two terminals share a table key when one workspace id continues the other past a colon
  (`KeysCollideIff`). Generated workspace ids have no colon, and then keys are distinct
  (`ColonFreeKeysAreDistinct`).
- The rules recogniser removes all white space before it compares, so it takes `["a b"]` for
  `["ab"]`; an append of one is then skipped because of the other (`TargetsAgreeIff`,
  `SpacesAreConfused`).
- Upserting or merging the same tool item again turns a missing output into an empty one
  (`UpsertTwiceIff` and `MergeAgainIff`, with inputs in `MissingOutputIsNotStable` and
  `MissingOutputIsMergedLate`). An update that writes a collab field as `undefined` erases it
  (`MergedLosesNothing`).
- `prepareThreadItems` is not idempotent when a long assistant message is cut to the very text of the
  completed review before it: the second call drops the message
  (`PrepareIsIdempotentIff`, `LongEchoIsDroppedLater`).
- `slice(-0)` keeps everything, so a limit strictly between zero and one is no limit
  (`FractionIsNoLimitIff`, `LimitIsKeptIff`, with two items under a limit of one half in
  `HalfShowsTwo`); every other limit holds (`PreparedIsLimited`). The thread reducer floors the
  setting before it arrives here (threadConfigSlice.ts:4-12), so there such a value becomes zero,
  which reads as the default.
- The prompt tokenizer has no empty tokens: an empty quoted positional argument disappears and the
  later ones move up (`NumberedPromptRoundTrip`); all arguments arrive exactly when none is empty
  (`NonEmptyKeepsAllIff`). Curly quotes never survive typing (`ValueSurvivesIff`).

## Model

| member | source | states |
|---|---|---|
| `AnalyticsReducer.Reducer.Ingest` | codex-rs/analytics/src/reducer.rs:157-234 | one fact takes the five maps and the output log to exactly the state and events of the pure step |
| `AnalyticsReducer.Reducer.IngestRequest` | codex-rs/analytics/src/reducer.rs:307-336 | start and steer requests are stored under connection and request id, other requests change nothing |
| `AnalyticsReducer.Reducer.IngestTurnStartResponse` | codex-rs/analytics/src/reducer.rs:519-543 | consumes the pending request under its key even when it is of the wrong kind, and flushes the turn |
| `AnalyticsReducer.Reducer.IngestTurnSteerResponse` | codex-rs/analytics/src/reducer.rs:742-765 | an accepted steer counts on its turn only if that turn exists, and is reported from the pending request |
| `AnalyticsReducer.Reducer.IngestErrorResponse` | codex-rs/analytics/src/reducer.rs:554-602 | a failed request is forgotten; only a steer reports a rejection |
| `AnalyticsReducer.Reducer.EmitTurnSteerEvent` | codex-rs/analytics/src/reducer.rs:767-803 | no steer event unless both the connection and the thread are known |
| `AnalyticsReducer.Reducer.IngestTurnRecord` | codex-rs/analytics/src/reducer.rs:338-381 | completion, resolved config and token usage record their part and then try to flush |
| `AnalyticsReducer.Reducer.EmitThreadInitialized` | codex-rs/analytics/src/reducer.rs:663-699 | an unknown connection drops the response; otherwise both thread maps and one event |
| `AnalyticsReducer.Reducer.IngestCompaction` | codex-rs/analytics/src/reducer.rs:701-740 | pushes one event with the thread's connection and metadata, or nothing |
| `AnalyticsReducer.Reducer.IngestGuardianReview` | codex-rs/analytics/src/reducer.rs:271-305 | pushes one event with the thread's connection, or nothing |
| `AnalyticsReducer.Reducer.MaybeEmitTurnEvent` | codex-rs/analytics/src/reducer.rs:805-860 | emits and forgets the turn exactly when every prerequisite is there; the event builder is only reached with a populated turn (lines 862-875) |
| `AnalyticsRuns.EmissionNeedsReady` | codex-rs/analytics/src/reducer.rs:805-860 | a turn event needs a matched start, a config and a completion, stored or just arriving, and the turn is gone afterwards |
| `AnalyticsRuns.EmissionsAreBounded` | codex-rs/analytics/src/reducer.rs:805-860 | over any run, the events of a turn never outnumber its matched start responses, its configs or its completions |
| `AnalyticsRuns.ReachableIsConsistent` | codex-rs/analytics/src/reducer.rs:663-699 | in every reachable state both thread maps have the same keys and every stored connection is initialised |
| `AnalyticsRuns.ConnectionsAreHistory` | codex-rs/analytics/src/reducer.rs:236-259 | a connection is stored if and only if it was initialised earlier in the run |
| `AnalyticsRuns.ThreadsAreHistory` | codex-rs/analytics/src/reducer.rs:485-517 | a thread is stored if and only if a thread response arrived on a connection initialised before it |
| `AnalyticsRuns.ThreadFactsAreEmittedIffKnown` | codex-rs/analytics/src/reducer.rs:701-740 | a compaction or guardian fact pushes its one event if and only if its thread is known at that point of the run |
| `AnalyticsRuns.StepKeepsNoReadyTurnWaits` | codex-rs/analytics/src/reducer.rs:805-860 | every fact except an initialisation or a thread response keeps "no ready turn is still waiting" |
| `AnalyticsRuns.StepKeepsNoReadyTurnWaitsIff` | codex-rs/analytics/src/reducer.rs:805-860 | from a state without a ready turn, a fact leaves one behind if and only if it initialises the connection, or is an accepted response for the thread, that a stored and otherwise complete turn waits for |
| `AnalyticsRuns.ReadyTurnIsFlushedIff` | codex-rs/analytics/src/reducer.rs:338-860 | which facts of a ready turn flush it, and which leave it ready, for every fact that names the turn |
| `AnalyticsRuns.LateInitializeLeavesReadyTurn` | codex-rs/analytics/src/reducer.rs:236-259 | a turn whose connection is initialised last is ready afterwards, nothing is emitted, and the facts that flush it are exactly those of the row above |
| `AnalyticsRuns.LateThreadLeavesReadyTurn` | codex-rs/analytics/src/reducer.rs:663-699 | the same for a turn whose thread becomes known last |
| `AnalyticsRuns.ReadyTurnCanWait` | codex-rs/analytics/src/reducer.rs:236-259 | a run of seven facts that reaches such a state by a late initialisation |
| `AnalyticsRuns.ReadyTurnCanWaitForThread` | codex-rs/analytics/src/reducer.rs:663-699 | a run of six facts that reaches one by a late thread response |
| `AnalyticsRuns.PendingRequestsAreHistory` | codex-rs/analytics/src/reducer.rs:307-336 | a request is pending if and only if the run issued it and nothing with its key came since |
| `AnalyticsRuns.SteerEventsAnswerRequests` | codex-rs/analytics/src/reducer.rs:767-803 | a steer event is pushed if and only if an outstanding steer request is answered with connection and thread known; it carries that request's fields and no request is answered twice |
| `AnalyticsRuns.SteerCountIsAcceptedSinceBirth` | codex-rs/analytics/src/reducer.rs:742-765 | a live turn's counter is the number of accepted steers since the turn's state appeared |
| `AnalyticsRuns.EmittedSteerCount` | codex-rs/analytics/src/reducer.rs:862-958 | an emitted `steer_count` counts exactly the accepted steers naming the turn while it was live, never a rejection |
| `AnalyticsConfluence.ExactlyOneTurnEvent` | codex-rs/analytics/src/reducer.rs:805-860 | the five facts of a turn in any order, among any foreign facts, push exactly one turn event, at the last of the three prerequisites, with fixed content |
| `AnalyticsConfluence.OrderDoesNotMatter` | codex-rs/analytics/src/reducer.rs:805-860 | two orders with the optional facts early push the identical event |
| `AnalyticsConfluence.JoinInvariantHolds` | codex-rs/analytics/src/reducer.rs:338-381 | what the turn has recorded at any point of such a run is a function of which facts have arrived |
| `AnalyticsContents.EmittedEventReportsTheRun` | codex-rs/analytics/src/reducer.rs:604-661 | in any run an emitted turn event reports the last completion the run delivered for its turn: its status unless still in progress, its error, and its time and duration when not negative; and likewise the last start |
| `AnalyticsContents.JoinedEventContents` | codex-rs/analytics/src/reducer.rs:862-958 | the one event of a join, field by field, from the facts that delivered them |
| `AnalyticsContents.StepRecordsThread` | codex-rs/analytics/src/reducer.rs:338-381 | which facts set the thread and the images of a stored turn, the latest one winning |
| `AnalyticsContents.ConnectionIsLatest` | codex-rs/analytics/src/reducer.rs:236-259 | in any run a known connection carries what its last initialisation said |
| `AnalyticsContents.ThreadIsLatest` | codex-rs/analytics/src/reducer.rs:663-681 | in any run a known thread has the metadata and connection of its last accepted response |
| `AnalyticsContents.ThreadResponseIsAnnounced` | codex-rs/analytics/src/reducer.rs:663-699 | a thread response is announced if and only if its connection was initialised before, with its own model and metadata |
| `AnalyticsContents.ThreadEventContents` | codex-rs/analytics/src/reducer.rs:701-740 | a compaction event carries the metadata of the last accepted response of its thread and the last initialisation of that connection; a guardian event the latter (lines 271-305) |
| `AnalyticsContents.SteerEventContents` | codex-rs/analytics/src/reducer.rs:767-803 | a steer event carries the connection and thread of its request, and a reason exactly when the answer is an error that gives one |
| `Utf8.DecodeInvertsEncode` | src-tauri/src/terminal.rs:119-129 | section 3 of RFC 3629: every scalar value is decoded back from its encoding, whatever follows |
| `Utf8.ValidIffEncoded` | src-tauri/src/terminal.rs:119-132 | section 4 of RFC 3629: the scanner accepts a head if and only if it is the encoding of a scalar value |
| `Utf8.IncompleteIffProperPrefix` | src-tauri/src/terminal.rs:134-138 | `error_len` is none if and only if the rest is a proper prefix of some encoding |
| `Utf8.InvalidIsMaximalSubpart` | src-tauri/src/terminal.rs:134-141 | `error_len` is the length of the maximal ill-formed subpart of section 3.9 of the Unicode Standard |
| `Utf8.FromUtf8Cuts` | src-tauri/src/terminal.rs:133-162 | `valid_up_to` and `error_len` cut the bytes into a decoded head, one ill-formed part or an incomplete tail |
| `Utf8.StreamResumes` | src-tauri/src/terminal.rs:116-165 | decoding a stream at once equals decoding a first part and then the held bytes with the rest, for every cut |
| `Utf8.WellFormedTextIsKept` | src-tauri/src/terminal.rs:119-132 | well-formed text comes through unchanged with nothing held back |
| `Utf8.TextReencodes` | src-tauri/src/terminal.rs:119-132 | on well-formed bytes, encoding the decoded text gives the same bytes |
| `Utf8.HeldIsIncomplete` | src-tauri/src/terminal.rs:136-138 | what is held back is at most three bytes and a proper prefix of a well-formed sequence |
| `TerminalReader.Reader.Round` | src-tauri/src/terminal.rs:117-163 | one round keeps emitted text plus remaining text, never emits an empty string, and shortens `pending` when it goes round again |
| `TerminalReader.Reader.Feed` | src-tauri/src/terminal.rs:115-164 | after a read, `pending` is the incomplete tail of everything so far and the emitted text grew by the reference decoding |
| `TerminalReader.Reader.Run` | src-tauri/src/terminal.rs:103-165 | for every byte stream and every way of cutting it into reads, the emitted strings add up to the reference decoding |
| `TerminalReader.ReceivedExtends` | src-tauri/src/terminal.rs:107-114 | what counts as received: the bytes of every read up to the first end of file or error, and nothing after it |
| `TerminalSessions.FoundSessionSpawnsNothing` | src-tauri/src/terminal.rs:210-218 | an open that finds a session under its key ends there, with table and shells untouched, and spawns nothing later in any run |
| `TerminalSessions.SessionTable.InsertIfAbsent` | src-tauri/src/terminal.rs:262-275 | the re-check after the spawn: an existing session wins and is reported |
| `TerminalSessions.SessionTable.Remove` | src-tauri/src/terminal.rs:361-366 | a close removes and returns exactly its own entry |
| `TerminalSessions.SessionTable.RemoveIfSame` | src-tauri/src/terminal.rs:173-182 | a cleanup removes an entry only if it is still the very same session |
| `TerminalSessions.KeysCollideIff` | src-tauri/src/terminal.rs:26-28 | two terminals share a key exactly when one workspace id continues the other past a colon |
| `TerminalSessions.ColonFreeKeysAreDistinct` | src-tauri/src/terminal.rs:26-28 | workspace ids without a colon give equal keys only for the same terminal |
| `TerminalSessions.RunsAreValid` | src-tauri/src/terminal.rs:199-287 | the invariant of the open, close, reader and cleanup protocol over every interleaving |
| `TerminalSessions.ShellsAreAccountedIff` | src-tauri/src/terminal.rs:237-284 | every spawned shell is in its open call, in the table, killed or about to be, or has had its reader end, if and only if no open failed after its spawn |
| `TerminalSessions.FailedOpenLosesShell` | src-tauri/src/terminal.rs:237-252 | a run of three steps whose shell nobody holds |
| `TerminalSessions.RemovalsAreOwned` | src-tauri/src/terminal.rs:166-183 | an entry leaves the table if and only if its key is closed or the cleanup of that very ended session runs; a stale cleanup leaves a newer session alone |
| `TerminalSessions.InsertionsAreRechecks` | src-tauri/src/terminal.rs:262-275 | an entry comes into the table if and only if an open finds its key free at the re-check, and it is the session that open spawned |
| `TerminalSessions.EndedSessionsLeave` | src-tauri/src/terminal.rs:166-183 | in every reachable state a table entry whose session has ended has its cleanup pending, and that cleanup removes it; with no cleanup pending the table holds no ended session |
| `Json.PrintIsInjective` | codex-rs/app-server-protocol/src/schema_fixtures.rs:178-183 | the stable form used to break ties determines the value |
| `JsonCanonical.CanonicalizeJson` | codex-rs/app-server-protocol/src/schema_fixtures.rs:152-208 | the imperative canonicaliser computes the specification function |
| `JsonCanonical.SortIfKeyed` | codex-rs/app-server-protocol/src/schema_fixtures.rs:175-197 | collecting keys with the early exit and sorting the zipped list sorts the items exactly when all of them have a key |
| `JsonCanonical.CanonicalizeEntries` | codex-rs/app-server-protocol/src/schema_fixtures.rs:198-206 | sorting the entries and then canonicalising the children equals sorting canonical entries |
| `JsonCanonical.SortKeyIsKept` | codex-rs/app-server-protocol/src/schema_fixtures.rs:210-227 | canonicalising an element never changes its sort key |
| `JsonCanonical.KeyedIffSortable` | codex-rs/app-server-protocol/src/schema_fixtures.rs:210-227 | a value has a sort key if and only if it is a scalar, or an object with an entry `$ref` or `title` whose value is a string |
| `JsonCanonical.CanonAgreesIffEquivalent` | codex-rs/app-server-protocol/src/schema_fixtures.rs:152-227 | equal canonical forms if and only if equal up to object key order and, at any depth, the order of arrays of sortable elements |
| `JsonCanonical.CanonIsIdempotent` | codex-rs/app-server-protocol/src/schema_fixtures.rs:152-208 | a canonical form is its own canonical form |
| `JsonCanonical.CanonIsEquivalent` | codex-rs/app-server-protocol/src/schema_fixtures.rs:152-208 | the canonical form is equivalent to the value it came from |
| `JsonOrder.SortKeyIs` | codex-rs/app-server-protocol/src/schema_fixtures.rs:210-227 | the key of every kind of value; a textual `$ref` goes before a textual title |
| `JsonOrder.CanonicalArrayOrder` | codex-rs/app-server-protocol/src/schema_fixtures.rs:175-197 | a canonical array of sortable elements is ordered by their keys and, among equal keys, by their printed forms; any other keeps its order |
| `JsonOrder.LikeElementsAreSorted` | codex-rs/app-server-protocol/src/schema_fixtures.rs:175-197 | references appear in the order of their texts, titles without a reference likewise and after them, strings likewise |
| `JsonOrder.CanonicalObjectOrder` | codex-rs/app-server-protocol/src/schema_fixtures.rs:198-206 | the keys of a canonical object ascend strictly |
| `Sorting.StringLeqIff` | codex-rs/app-server-protocol/src/schema_fixtures.rs:185-193 | the string order: a prefix comes first, otherwise the first difference decides |
| `Rules.RuleAlreadyPresent` | src-tauri/src/rules.rs:110-149 | the scan with its three flags finds a rule if and only if the lines hold a closed block with a matching pattern and an allowing decision |
| `Rules.RulesFile.AppendPrefixRule` | src-tauri/src/rules.rs:14-45 | an empty pattern is an error and changes nothing; otherwise the file becomes the appended text |
| `Rules.AppendedLines` | src-tauri/src/rules.rs:28-42 | an append adds a blank line unless the file was empty, then exactly the four lines of the rule, for any existing text |
| `RulesTheorems.AppendAddsExactly` | src-tauri/src/rules.rs:14-45 | after an append a pattern is recognised if and only if it was before or has the same normalised value |
| `RulesTheorems.AppendIsRecognised` | src-tauri/src/rules.rs:110-149 | the recogniser finds what the appender wrote, a second append changes nothing, and no old text is lost |
| `RulesTheorems.EscapeIsCharwise` | src-tauri/src/rules.rs:155-162 | the five replacements in a row escape every character once |
| `RulesTheorems.TargetsAgreeIff` | src-tauri/src/rules.rs:151-153 | two patterns are taken for each other if and only if they agree item by item up to white space other than line feeds, carriage returns and tabs |
| `RulesTheorems.RecognisedAfterAppend` | src-tauri/src/rules.rs:14-45 | the whole effect of an append on what is recognised, in terms of the patterns themselves |
| `RulesTheorems.SpacesAreConfused` | src-tauri/src/rules.rs:151-153 | two different commands the recogniser cannot tell apart |
| `RulesReading.AssignedIs` | src-tauri/src/rules.rs:127-136 | nothing is assigned on a line without an equals sign; otherwise the value is what is left after the first one when white space at both ends and then trailing commas are cut off |
| `RulesReading.AllowsIff` | src-tauri/src/rules.rs:134-140 | a decision line allows if and only if a quoted `allow` stands somewhere after an equals sign |
| `RulesReading.RecognisedIff` | src-tauri/src/rules.rs:110-149 | a pattern is recognised if and only if two trimmed lines, one opening and one closing, enclose a pattern line for it and an allowing decision line with no other opening or closing line between |
| `RulesReading.OneRuleIsRecognisedIff` | src-tauri/src/rules.rs:110-149 | a file of one rule with any decision text answers for its own pattern if and only if that text mentions `allow` in quotes |
| `RulesReading.AppendAddsUnlessApproved` | src-tauri/src/rules.rs:23-42 | the append leaves a file alone that approves the pattern, and ends any other with the new rule after a blank line |
| `RulesReading.RuleTextIs` | src-tauri/src/rules.rs:97-100 | the four lines of the printed rule |
| `RulesReading.PatternListIs` | src-tauri/src/rules.rs:102-108 | the items of the printed pattern, each escaped and quoted, with a comma and a space between |
| `RulesLock.MutualExclusion` | src-tauri/src/rules.rs:47-82 | with any interleaving of appenders, at most one is between acquire and drop, the lock file exists exactly then, and the file is a serial result |
| `RulesLock.PresentIffSucceeded` | src-tauri/src/rules.rs:23-45 | what is recognised at any moment is what was there at the start and the class of every append that succeeded |
| `RulesUpdates.NoUpdateIsLost` | src-tauri/src/rules.rs:23-45 | a successful append's rule, and everything recognised before it, is recognised in every later state |
| `ListOps.UpsertItem` | src/utils/threadItems.listOps.ts:28-127 | the copied and patched array is the specified upsert |
| `ListOps.UpsertKeepsPositions` | src/utils/threadItems.listOps.ts:28-35 | ids keep their positions, a new id goes to the end, and no other item changes |
| `ListOps.StreamsKeepIds` | src/utils/threadItems.listOps.ts:28-127 | any stream of upserts keeps ids unique and every id at its position |
| `ListOps.StreamsKeepText` | src/utils/threadItems.listOps.ts:41-123 | over any stream of same-kind items, message, reasoning, diff and review text never shrinks |
| `ListOps.MergedLosesNothing` | src/utils/threadItems.listOps.ts:82-112 | a known title, detail, status, output, duration or change list of a tool, and title or status of a diff, survives an update, and a known incoming one wins; collab fields are replaced whenever the incoming item writes them |
| `ListOps.QuestionsLoseNothing` | src/utils/threadItems.listOps.ts:4-26 | merging questions forgets no question and no answer |
| `ListContents.MergedContents` | src/utils/threadItems.listOps.ts:28-127 | what an upsert stores over an item of the same kind, field by field: the longer text, the incoming role, state and entries, known values over unknown ones |
| `ListContents.MergedQuestions` | src/utils/threadItems.listOps.ts:4-26 | the incoming questions in their order, each completed from the last known one with its id, then exactly the known ones that did not come |
| `ListOps.MergeQuestionsTwice` | src/utils/threadItems.listOps.ts:4-26 | merging the same questions again changes nothing when their ids are unique |
| `ListOps.UpsertTwiceIff` | src/utils/threadItems.listOps.ts:82-99 | upserting an item twice equals once when a missing output reads as empty, and otherwise exactly when the item is no tool without output stored as it came |
| `ListOps.MissingOutputIsNotStable` | src/utils/threadItems.listOps.ts:82-99 | any tool without output, upserted twice into an empty list, shows the difference |
| `ListOps.ChooseRicherIsRichest` | src/utils/threadItems.listOps.ts:149-206 | the choice is as rich as the richer of the two, and a tool keeps whichever output has text |
| `ListContents.ChosenContents` | src/utils/threadItems.listOps.ts:149-206 | which of two items a merge keeps, or what it completes from which, for every kind and field; a review or an explore item is always the remote one |
| `ListContents.MergedAtPosition` | src/utils/threadItems.listOps.ts:208-227 | a remote item is merged with the last local item of its id and otherwise stays |
| `ListOps.MergeThreadItems` | src/utils/threadItems.listOps.ts:208-227 | the two maps and the loop compute the specified merge |
| `ListOps.MapById` | src/utils/threadItems.listOps.ts:215-216 | the map built from a list holds, for every id, the last item with it |
| `ListOps.MergeIds` | src/utils/threadItems.listOps.ts:208-227 | the remote ids in order, then the local-only ids in order |
| `ListOps.IdsStayDistinct` | src/utils/threadItems.listOps.ts:208-227 | unique ids stay unique |
| `ListOps.MergeAgainIff` | src/utils/threadItems.listOps.ts:208-227 | merging again with the same remote changes nothing when a missing output reads as empty, and otherwise exactly when every remote tool without output is completed locally |
| `ListOps.MissingOutputIsMergedLate` | src/utils/threadItems.listOps.ts:174-195 | any remote tool without output next to a local-only item shows the difference |
| `Explore.NormalizeIsIdempotent` | src/utils/threadItems.explore.ts:35-89 | truncation to every limit, in every nested field, happens once |
| `PrepareContents.NormalizedContents` | src/utils/threadItems.explore.ts:35-89 | how much text of every kind of item is kept, with the limits spelled out, and that nothing else changes |
| `Explore.MergeExploreEntries` | src/utils/threadItems.explore.ts:292-305 | the loop with its set of seen keys keeps the first entry of every key of both lists |
| `Explore.DedupeKeepsKeys` | src/utils/threadItems.explore.ts:292-305 | one entry per key and no key lost |
| `PrepareContents.FirstOfEachKeyIsKept` | src/utils/threadItems.explore.ts:292-305 | of the entries with one key exactly the first is kept, and the kept ones stay in order |
| `PrepareContents.EntryKeysAgreeIff` | src/utils/threadItems.explore.ts:296-300 | entries with bar-free labels count as the same if and only if kind, label and detail agree, a missing detail reading as empty |
| `Explore.SummarizeExploration` | src/utils/threadItems.explore.ts:341-380 | the loop that merges into the last result item computes the specified summary |
| `Explore.SummaryIsRuns` | src/utils/threadItems.explore.ts:341-380 | the summary cuts the items into consecutive runs, in order: explorations of one status under the first id with the entries of all parts, once per key, or one other item unchanged |
| `Explore.SummaryAlternates` | src/utils/threadItems.explore.ts:341-380 | no two neighbours of the summary are explore items of equal status |
| `Explore.SummarizeFixed` | src/utils/threadItems.explore.ts:341-380 | an alternating list of settled items is left alone |
| `Prepare.PrepareThreadItems` | src/utils/threadItems.explore.ts:382-431 | filter loop, normalisation, limit, summary and truncation of old tool output, composed as specified |
| `PrepareContents.NewestAreShown` | src/utils/threadItems.explore.ts:397-412 | what reaches the summary is the end of the normalised filtered list, as much of it as the option allows, with the number spelled out |
| `PrepareContents.NewestIsShown` | src/utils/threadItems.explore.ts:407-412 | under every option the newest item of a nonempty filtered list is the last one shown |
| `PrepareContents.NewestEndsTheList` | src/utils/threadItems.explore.ts:382-431 | a newest item that explores nothing ends the prepared list |
| `PrepareContents.RepeatedReviewIsLeftOut` | src/utils/threadItems.explore.ts:383-396 | a message is left out if and only if it is the assistant's and repeats, apart from white space at its ends, the completed review kept last before it |
| `PrepareContents.OldToolsAreCut` | src/utils/threadItems.explore.ts:413-430 | the newest forty items and all that are no tools are shown as they are; older tools keep at most 20000 units of their output and of each diff |
| `Prepare.LimitIsKeptIff` | src/utils/threadItems.explore.ts:407-412 | the limit is kept if and only if it is at least one or there is nothing to show |
| `Prepare.FractionIsNoLimitIff` | src/utils/threadItems.explore.ts:398-406 | the option becomes the limit zero if and only if it lies strictly between zero and one |
| `Prepare.PreparedIsLimited` | src/utils/threadItems.explore.ts:382-431 | under every other limit the prepared list is no longer than the limit |
| `Prepare.HalfShowsTwo` | src/utils/threadItems.explore.ts:398-412 | two items that are both shown under a limit of one half |
| `Prepare.FilterKeepsIff` | src/utils/threadItems.explore.ts:386-400 | the echo filter shortens the list exactly when some message repeats the completed review before it |
| `Prepare.SummaryKeepsEchoes` | src/utils/threadItems.explore.ts:341-380 | summarising neither creates nor hides a message that repeats its review |
| `Prepare.PrepareIsIdempotentIff` | src/utils/threadItems.explore.ts:382-431 | preparing again changes nothing if and only if no shown message, as truncated, repeats the completed review shown before it |
| `Prepare.ShortMessagesAreStable` | src/utils/threadItems.explore.ts:382-431 | idempotent whenever the assistant messages are within the text limit |
| `Prepare.LongEchoIsDroppedLater` | src/utils/threadItems.explore.ts:386-401 | one message one unit over the limit that is shown first and dropped by the second call |
| `Collab.MergeCollabAgentRefs` | src/utils/threadItems.collab.ts:52-69 | merging lists of agents equals merging their concatenation |
| `Collab.MergeCollabAgentStatuses` | src/utils/threadItems.collab.ts:142-160 | merging lists of statuses equals merging their concatenation |
| `Collab.MergedRefs` | src/utils/threadItems.collab.ts:52-69 | one agent per thread in first-seen order, with the first nickname and role any entry knows, never overwritten |
| `Collab.MergedStatuses` | src/utils/threadItems.collab.ts:142-160 | as for agents, with the first status that is not empty |
| `CollabEnrich.PromptRoundTrip` | src/utils/threadItems.collab.ts:264-297 | extracting the prompt from the printed output gives back the trimmed prompt, for every prompt and every status list |
| `CollabEnrich.EnrichRefFillsIn` | src/utils/threadItems.collab.ts:207-231 | known names are never overwritten; unknown ones are filled exactly when the thread has one that is not empty |
| `CollabEnrich.EnrichConversationItemsWithThreads` | src/utils/threadItems.collab.ts:371-456 | early returns, metadata map and change flags compute the specified enrichment |
| `CollabEnrich.EnrichIsIdempotent` | src/utils/threadItems.collab.ts:371-456 | enriching again changes nothing, for every list of items and threads |
| `CollabEnrich.EnrichedTextAgrees` | src/utils/threadItems.collab.ts:414-452 | afterwards detail and output say what the parts say, and the prompt is still there |
| `CollabContents.MetadataIsOfLastSummary` | src/utils/threadItems.collab.ts:379-391 | the names used for a thread are those of the last summary that has an id and a name; a thread is unknown if and only if there is none |
| `CollabContents.EnrichedPeople` | src/utils/threadItems.collab.ts:403-413 | enrichment replaces every person in place and loses none; a missing receiver becomes the first of the receivers |
| `CollabContents.EnrichedInPlace` | src/utils/threadItems.collab.ts:393-455 | every call is enriched at its position as soon as one thread is named, and no other item changes |
| `CollabContents.LabelSays` | src/utils/threadItems.collab.ts:183-196 | the label: nickname or thread id, then the role in brackets unless blank |
| `CollabContents.StatusesSay` | src/utils/threadItems.collab.ts:198-205 | one line per status, with label, colon and status |
| `CollabContents.DetailSays` | src/utils/threadItems.collab.ts:279-291 | the detail line: the sender, an arrow and the receivers with commas |
| `CollabContents.PromptIsReadFrom` | src/utils/threadItems.collab.ts:264-277 | the prompt is the whole output unless the printed statuses end it, and otherwise what stands before them and one blank line |
| `CollabContents.OutputSays` | src/utils/threadItems.collab.ts:293-297 | the output is the trimmed prompt, a blank line and the statuses, either left out when empty |
| `Shlex.SplitShlex` | src/utils/customPrompts.ts:169-218 | the loop over five mutable variables is the lexer |
| `Shlex.LexApostrophes` | src/utils/customPrompts.ts:183-196 | between apostrophes everything is verbatim, backslashes and double quotes included |
| `Shlex.LexBackslash` | src/utils/customPrompts.ts:178-186 | outside of apostrophes a backslash takes the next unit as it is, in double quotes or not |
| `Shlex.LastBackslashStays` | src/utils/customPrompts.ts:209-211 | a backslash at the very end counts as if it were doubled |
| `Shlex.SplitUndoesTyping` | src/utils/customPrompts.ts:169-222 | splitting a typed line of quoted words gives back their meanings, apart from empty ones |
| `Shlex.TokensAreCurlyFree` | src/utils/customPrompts.ts:12-16 | no token of any line holds a curly quote |
| `Shlex.QuotesBecomeStraight` | src/utils/customPrompts.ts:12-16 | curly double quotes become straight ones, curly single quotes apostrophes, and every other unit stays in place |
| `Placeholders.PromptArgumentNames` | src/utils/customPrompts.ts:18-37 | the match loop collects the specified names |
| `Placeholders.ArgumentNamesIff` | src/utils/customPrompts.ts:18-37 | a name is required if and only if a placeholder not preceded by a dollar sign has it and it is not ARGUMENTS |
| `Placeholders.NamesAreDistinct` | src/utils/customPrompts.ts:31-34 | every required name is listed once |
| `PlaceholderReading.NamesInOrder` | src/utils/customPrompts.ts:18-37 | the required names are listed in the order in which they first occur |
| `PlaceholderReading.PlaceholderIff` | src/utils/customPrompts.ts:5-26 | a placeholder is a dollar sign that follows no other one, a capital letter and all capitals, digits and underscores after it |
| `Placeholders.ExpandAroundPlaceholder` | src/utils/customPrompts.ts:260-268 | a placeholder becomes its value verbatim while the two sides expand on their own: one pass, nothing expanded twice |
| `Placeholders.NothingToExpand` | src/utils/customPrompts.ts:260-268 | everything outside given placeholders stays as it is |
| `PlaceholderReading.PlaceholderIsReplaced` | src/utils/customPrompts.ts:260-268 | the same in terms of the units of the content, for a placeholder at any position |
| `PlaceholderReading.EscapedPlaceholderStays` | src/utils/customPrompts.ts:262-264 | a name after two dollar signs is left as it is |
| `Placeholders.ExpandNumericPlaceholders` | src/utils/customPrompts.ts:270-316 | the index loop with its cached join computes the specified expansion |
| `Placeholders.ExpandAroundNumber` | src/utils/customPrompts.ts:291-298 | a numbered placeholder becomes its argument verbatim, or nothing, and the sides expand on their own |
| `Placeholders.ExpandAroundArguments` | src/utils/customPrompts.ts:300-309 | the same for all arguments joined by spaces |
| `PlaceholderReading.NumberIsReplaced` | src/utils/customPrompts.ts:291-298 | `$1` to `$9` become the first to the ninth argument, or nothing when there are fewer |
| `PlaceholderReading.DollarsStay` | src/utils/customPrompts.ts:285-313 | two dollar signs stay two, and one that starts no placeholder stays |
| `PlaceholderReading.JoinedFromTheFront` | src/utils/customPrompts.ts:300-309 | the joined arguments have single spaces between them |
| `Prompts.ParseSlashName` | src/utils/customPrompts.ts:79-97 | the name ends at the first white space and the rest loses its leading white space |
| `PromptsReading.CommandIff` | src/utils/customPrompts.ts:79-97 | a line is read as name and rest if and only if it is a slash, the name without white space, white space, and the rest |
| `Prompts.ParsePromptInputs` | src/utils/customPrompts.ts:239-258 | the first bad token is the error, later values win |
| `PromptsReading.FirstBadTokenIsReported` | src/utils/customPrompts.ts:245-252 | the first token without a key before an equals sign is reported, as a missing assignment if it has no equals sign and otherwise as a missing key |
| `PromptsReading.AssignmentsAreRead` | src/utils/customPrompts.ts:253-257 | of tokens that are all assignments, every key gets the value it is set to last, and no other key has one |
| `Prompts.ExpandCustomPromptText` | src/utils/customPrompts.ts:318-359 | all outcomes: no prompt, bad argument, missing names, expanded |
| `PromptsReading.FoundPromptIsFirst` | src/utils/customPrompts.ts:333 | the prompt used is the first one of the name, and there is none exactly when no prompt has it |
| `PromptsReading.NotAPromptIff` | src/utils/customPrompts.ts:322-336 | a text is left alone if and only if it does not invoke a known prompt by its name |
| `Prompts.NamedPromptRoundTrip` | src/utils/customPrompts.ts:318-355 | typing any named arguments expands to the content with the last value of every name, or reports exactly the required names not typed |
| `Prompts.NumberedPromptRoundTrip` | src/utils/customPrompts.ts:357-358 | typing any quoted arguments expands the numbers with the arguments that are not empty |
| `Prompts.NonEmptyKeepsAllIff` | src/utils/customPrompts.ts:198-204 | all quoted positional arguments arrive if and only if none of them is empty |
| `Prompts.MissingIff` | src/utils/customPrompts.ts:346 | a name is reported missing if and only if it is required and has no value |
| `Prompts.ValueSurvivesIff` | src/utils/customPrompts.ts:239-258 | a typed value is read back unchanged if and only if it holds no curly quote |
| `Fences.MaxConsecutiveChar` | src/utils/pullRequestReviewPrompt.ts:25-39 | the two counters compute the longest run |
| `Fences.MaxRunIff` | src/utils/pullRequestReviewPrompt.ts:25-39 | `n` equal characters in a row occur if and only if `n` is at most the computed maximum |
| `Fences.BuildSafeFence` | src/utils/pullRequestReviewPrompt.ts:41-48 | the fence is the character with the shorter run, longer than that run and at least three |
| `Fences.FenceIsShortest` | src/utils/pullRequestReviewPrompt.ts:41-48 | the fence is the shortest one of at least three units that is longer than every run of its character, which is the one with the shorter longest run, a backtick in a tie |
| `Fences.BuildUntrustedFencedBlock` | src/utils/pullRequestReviewPrompt.ts:50-54 | the three lines joined are the printed block |
| `Fences.BlockIsReadBack` | src/utils/pullRequestReviewPrompt.ts:41-54 | a reader after section 4.5 of CommonMark 0.31.2 gets back exactly the content, for every string, and goes on right after the block |
| `EventHub.Hub.Subscribe` | src/services/events.ts:72-77 | adds the listener and starts a listen unless one is pending or held |
| `EventHub.Hub.Unsubscribe` | src/services/events.ts:78-83 | removes the listener and, with none left, the registration |
| `EventHub.Hub.ListenResolved` | src/services/events.ts:46-54 | keeps the handle, or gives it back when everybody has left meanwhile |
| `EventHub.Hub.Stop` | src/services/dragDrop.ts:52-62 | gives the handle back once and forgets it |
| `EventHub.AtMostOneRegistration` | src/services/events.ts:28-87 | over every run: never a pending listen together with a handle, at most one native registration, a handle only with listeners |
| `EventHub.RegisteredIffNotRejected` | src/services/events.ts:28-87 | with nothing pending, a hub with listeners is registered if and only if no rejection followed the last subscribe |
| `EventHub.Hub.OnEvent` | src/services/events.ts:37-45 | the callback calls every listener once, in subscription order |
| `EventHub.EventsReachListenersOnce` | src/services/events.ts:37-45 | over every run, a native event calls each listener exactly once, in order and with that event, while a registration is there and nobody otherwise, and no other step calls a listener |
| `EventHub.ListenersChange` | src/services/events.ts:72-84 | over every run, a new listener goes last, an unsubscribed one is taken out of its place, and nothing else changes who listens |
| `EventHub.NothingLeaks` | src/services/dragDrop.ts:64-76 | with no listeners and nothing pending, nothing stays registered |
| `Tray.NormalizeTrayThreads` | src-tauri/src/tray.rs:140-182 | every deduplicated entry exactly once, sorted newest first, then by thread and workspace label, whatever the map order |
| `TrayTheorems.DedupedIsNewest` | src-tauri/src/tray.rs:141-171 | a thread is kept if and only if one of its entries has no blank text; kept is the newest, trimmed, the first among equally new |
| `TrayContents.NormalizedContents` | src-tauri/src/tray.rs:140-182 | in terms of the given entries: every thread with an entry without blank texts is listed exactly once, by its newest such entry with all four texts trimmed, and in which order |
| `Tray.BuildThreadMenuSections` | src-tauri/src/tray.rs:215-276 | grouping, sorting and numbering give the recent items and one sorted, numbered section per workspace, whatever the map order |
| `Tray.CollectThreadMenuTargets` | src-tauri/src/tray.rs:278-291 | the loops fill the map with all items of the menu |
| `TrayTheorems.EveryEntryIsShownOnce` | src-tauri/src/tray.rs:223-260 | the workspace sections show an arrangement of the entries, each once and under its own workspace |
| `TrayTheorems.ResortChangesNothing` | src-tauri/src/tray.rs:234-239 | the second sort does not change the order of normalised entries, ties included |
| `TrayTheorems.NewestFirst` | src-tauri/src/tray.rs:262-267 | sections run from the most recently updated workspace, threads from the newest, and the section's time is the maximum |
| `TrayContents.RecentContents` | src-tauri/src/tray.rs:216-221 | the recent section shows the first three entries, numbered from zero in decimal |
| `TrayContents.SectionContents` | src-tauri/src/tray.rs:223-273 | a workspace section lists exactly the entries of one workspace in order, numbered by section and position, with the label and time of the first |
| `TrayContents.SectionsContents` | src-tauri/src/tray.rs:262-267 | one section per workspace that occurs, newest first and then by label |
| `TrayTheorems.MenuIdsAreDistinct` | src-tauri/src/tray.rs:220-273 | no two items of the menu share an id, across the recent and all workspace sections |
| `TrayTheorems.TargetsAgreeWithMenu` | src-tauri/src/tray.rs:278-291 | every id leads to exactly the thread its item shows, and no other id leads anywhere |

## Left out

- Network, process, pty, file-system and git calls: abstract steps or parameters. File reads and writes
  succeed, except where a property names a failure.
- Stealing a stale lock, and termination of the lock loop (src-tauri/src/rules.rs:70-78): the lock
  theorems are for runs in which no lock file is judged stale.
- Removal by key after a failed terminal write or resize (src-tauri/src/terminal.rs:311-316): not part of the
  session protocol here.
- Reducer facts that push one event without touching state (skill, app, hook, plugin, subagent thread), and the
  enum-to-string tables: they would only add easy members. Event and item payloads that no property mentions are opaque.
- Clock values: the time of a steer request is part of the fact.
- Which commands count as exploration (src/utils/threadItems.explore.ts:308-339): an arbitrary deterministic
  function of title and status, so every theorem holds for the regular expressions in use and any others.
- Parsing a collab tool call from its many alternative property names (src/utils/threadItems.collab.ts:299-369):
  enrichment is proved for every item instead of only for parsed ones.
- Object identity in the TypeScript code: "unchanged" means equal as values; the flags that compare references are modelled.
- Error messages of prompt expansion: kept by their parts, not as sentences. The key `__proto__`, which a
  JavaScript object would ignore, is an ordinary key; no placeholder can name it.
- Fences.BlockIsReadBack: the info line is assumed free of line endings and backticks and not to start with a tilde; the
  callers pass `diff` and `text`. Fences indented in the surrounding document are not modelled.
- The standard libraries' own code: `std::str::from_utf8` is written after section 4 of RFC 3629 and section 3.9 of
  the Unicode Standard, `serde_json::to_string` after section 7 of RFC 8259, sorting as a stable sort.
- Numbers in JSON stand for their printed form; objects have unique keys, as the parser guarantees.
- The error callback of the hub, a handler that throws, and listeners that subscribe or unsubscribe while an event is
  being delivered.
- Tie order that comes from hash-map iteration in the tray: results are sorted arrangements, not one exact list.
- Cursor movement in prompt arguments, prompt hints, session-usage labels and menu construction: easy members.
