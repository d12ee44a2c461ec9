/** Conversation items of src/types.ts, with TypeScript's optional properties. */
module ThreadItems {
  import opened Wrappers

  /** A JavaScript string: a sequence of UTF-16 code units, which is what `length` counts. */
  type Unit = x: int | 0 <= x < 0x10000
  type JsString = seq<Unit>

  /** The white space and line terminators that `trim` removes. */
  predicate IsSpace(u: Unit) {
    || 0x09 <= u <= 0x0D || u == 0x20 || u == 0xA0 || u == 0x1680 || 0x2000 <= u <= 0x200A
    || u == 0x2028 || u == 0x2029 || u == 0x202F || u == 0x205F || u == 0x3000 || u == 0xFEFF
  }

  function TrimStart(s: JsString): JsString {
    if s != [] && IsSpace(s[0]) then TrimStart(s[1..]) else s
  }

  function TrimEnd(s: JsString): JsString {
    if s != [] && IsSpace(s[|s| - 1]) then TrimEnd(s[..|s| - 1]) else s
  }

  function Trim(s: JsString): JsString {
    TrimEnd(TrimStart(s))
  }

  lemma {:induction false} TrimEndKeepsFirst(s: JsString)
    requires s != [] && !IsSpace(s[0])
    ensures TrimEnd(s) != []
  {
    if IsSpace(s[|s| - 1]) {
      TrimEndKeepsFirst(s[..|s| - 1]);
    }
  }

  /** Some unit is not white space. */
  ghost predicate Says(s: JsString) {
    exists i :: 0 <= i < |s| && !IsSpace(s[i])
  }

  lemma {:induction false} SaysIff(s: JsString)
    ensures Trim(s) != [] <==> Says(s)
  {
    if s != [] {
      if IsSpace(s[0]) {
        SaysIff(s[1..]);
        if i :| 0 <= i < |s| && !IsSpace(s[i]) {
          assert s[1..][i - 1] == s[i];
        }
        if i :| 0 <= i < |s| - 1 && !IsSpace(s[1..][i]) {
          assert s[i + 1] == s[1..][i];
        }
      } else {
        TrimEndKeepsFirst(s);
      }
    }
  }

  /** An optional property: missing, present with value `undefined`, or present with a value. */
  datatype Field<+T> = Absent | Undefined | Is(value: T) {

    /** What a reader of the property sees. */
    function Get(): Option<T> {
      if Is? then Some(value) else None
    }

    /** The property after an explicit `name: this` in an object literal. */
    function Written(): Field<T> {
      if Absent? then Undefined else this
    }
  }

  /** One property of `{ ...base, ...over }`. */
  function Spread<T>(base: Field<T>, over: Field<T>): Field<T> {
    if over.Absent? then base else over
  }

  /** `first ?? second` */
  function Either<T>(first: Field<T>, second: Field<T>): Field<T> {
    if first.Is? then first else second
  }

  /** `value?.trim()` is truthy. */
  predicate HasText(f: Field<JsString>) {
    f.Is? && Trim(f.value) != []
  }

  predicate HasElements<T>(f: Field<seq<T>>) {
    f.Is? && f.value != []
  }

  datatype Role = User | Assistant
  datatype ReviewState = ReviewStarted | ReviewCompleted
  datatype ExploreStatus = Exploring | Explored
  datatype EntryKind = ReadEntry | SearchEntry | ListEntry | RunEntry

  datatype ExploreEntry = ExploreEntry(kind: EntryKind, entryLabel: JsString, detail: Field<JsString>)
  datatype Question = Question(id: JsString, header: JsString, question: JsString, answers: seq<JsString>)
  datatype Change = Change(path: JsString, kind: Field<JsString>, diff: Field<JsString>)

  /** The collab properties of a tool item, opaque here. */
  type Payload = JsString

  datatype Item =
    | Message(id: JsString, role: Role, text: JsString, images: Field<seq<JsString>>)
    | UserInput(id: JsString, questions: seq<Question>)
    | Reasoning(id: JsString, summary: JsString, content: JsString)
    | Diff(id: JsString, title: JsString, diff: JsString, diffStatus: Field<JsString>)
    | Review(id: JsString, state: ReviewState, text: JsString)
    | Explore(id: JsString, exploreStatus: ExploreStatus, entries: seq<ExploreEntry>)
    | Tool(id: JsString, toolType: JsString, title: JsString, detail: JsString, status: Field<JsString>,
           output: Field<JsString>, durationMs: Field<Option<int>>, changes: Field<seq<Change>>,
           collabSender: Field<Payload>, collabReceiver: Field<Payload>,
           collabReceivers: Field<seq<Payload>>, collabStatuses: Field<seq<Payload>>)

  predicate SameKind(a: Item, b: Item) {
    || (a.Message? && b.Message?) || (a.UserInput? && b.UserInput?) || (a.Reasoning? && b.Reasoning?)
    || (a.Diff? && b.Diff?) || (a.Review? && b.Review?) || (a.Explore? && b.Explore?) || (a.Tool? && b.Tool?)
  }

  function Ids(items: seq<Item>): (ids: seq<JsString>)
    ensures |ids| == |items| && forall i :: 0 <= i < |items| ==> ids[i] == items[i].id
  {
    seq(|items|, i requires 0 <= i < |items| => items[i].id)
  }

  /** A property as a reader sees it: `undefined` and missing are the same. */
  function Plain<T>(f: Field<T>): Field<T> {
    if f.Is? then f else Absent
  }

  /** The item as a reader sees it. */
  function View(item: Item): Item {
    match item
    case Message(_, _, _, images) => item.(images := Plain(images))
    case Diff(_, _, _, status) => item.(diffStatus := Plain(status))
    case Tool(_, _, _, _, status, output, duration, changes, sender, receiver, receivers, statuses) =>
      item.(status := Plain(status), output := Plain(output), durationMs := Plain(duration), changes := Plain(changes),
            collabSender := Plain(sender), collabReceiver := Plain(receiver), collabReceivers := Plain(receivers),
            collabStatuses := Plain(statuses))
    case _ => item
  }

  /** As `View`, reading a missing tool output as empty. */
  function Seen(item: Item): Item {
    var v := View(item);
    if v.Tool? && v.output.Absent? then v.(output := Is([])) else v
  }
}
