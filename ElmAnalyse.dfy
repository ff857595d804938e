/** The elm-analyse client of the Elm extension: turning the analyser's
    state messages into editor issues, telling what answers on the
    analyser's port, and the start, stop and lint state of the client. */
module ElmAnalyse {
  import opened Js
  import opened Paths

  /** A zero-based range as elm-analyse reports it (`range.real`). */
  datatype RawRange = RawRange(startLine: int, startColumn: int, endLine: int, endColumn: int)

  datatype Position = Position(line: int, column: int)

  /** A one-based region, as the linter reports it to the editor. */
  datatype Region = Region(start: Position, end: Position)

  /** The `range` property of a message's type info: missing, present
      without a `real` array, or with one. */
  datatype RangeField = NoRange | NoReal | WithReal(bounds: RawRange)

  /** The value `data[type]` of a message: its `file` when that is a
      string, and its `range`. A value that is not an object has neither. */
  datatype TypeInfo = TypeInfo(file: Option<string>, range: RangeField)

  /** The `data` object of a message: its `type` when that is a string,
      and its other properties that hold type infos. */
  datatype MessageData = MessageData(messageType: Option<string>, infos: map<string, TypeInfo>)

  /** One entry of the analyser state's `messages` array. */
  datatype Message = Message(data: Option<MessageData>)

  /** An issue handed to the linter. */
  datatype Issue = Issue(tag: string, overview: string, subregion: string, details: string,
                         region: Region, issueType: string, file: string)

  /** `correctRange`: elm-analyse counts lines and columns from zero, the
      editor from one. */
  function CorrectRange(r: RawRange): (g: Region)
    ensures ZeroBased(g) == r
  {
    Region(Position(r.startLine + 1, r.startColumn + 1), Position(r.endLine + 1, r.endColumn + 1))
  }

  /** The region back in elm-analyse's zero-based terms. */
  function ZeroBased(g: Region): RawRange {
    RawRange(g.start.line - 1, g.start.column - 1, g.end.line - 1, g.end.column - 1)
  }

  /** Every region is the correction of exactly one raw range. */
  lemma CorrectRangeInverse(g: Region, r: RawRange)
    ensures CorrectRange(r) == g <==> r == ZeroBased(g)
  {
    if r == ZeroBased(g) {
      assert CorrectRange(r).start == g.start;
    }
  }

  /** `parseMessageInfoFileRange`: `range.real` when the info has a range,
      otherwise the empty range at the origin. A range without `real`
      yields `undefined`, here `None`. */
  function ParseMessageInfoFileRange(info: TypeInfo): (r: Option<RawRange>)
    ensures info.range.NoRange? ==> r == Some(RawRange(0, 0, 0, 0))
    ensures info.range.WithReal? ==> r == Some(info.range.bounds)
    ensures info.range.NoReal? ==> r.None?
  {
    match info.range
    case NoRange => Some(RawRange(0, 0, 0, 0))
    case NoReal => None
    case WithReal(q) => Some(q)
  }

  /** The types of `messageDescriptions`, the checks elm-analyse reports,
      in the table's order. */
  const MessageTypes: seq<string> := [
    "DebugCrash",
    "DebugLog",
    "DropConcatOfLists",
    "DropConsOfItemAndList",
    "DuplicateImport",
    "ExposeAll",
    "ImportAll",
    "LineLengthExceeded",
    "MultiLineRecordFormatting",
    "NoTopLevelSignature",
    "NoUncurriedPrefix",
    "RedefineVariable",
    "UnnecessaryListConcat",
    "UnnecessaryParens",
    "UnusedImport",
    "UnusedImportAlias",
    "UnusedImportedVariable",
    "UnusedPatternVariable",
    "UnusedTopLevel",
    "UnusedTypeAlias",
    "UnusedVariable",
    "UseConsOverConcat"
  ]

  /** The explanation `messageDescriptions` gives for each of
      `MessageTypes`, at the same index. */
  const MessageTexts: seq<string> := [
    DebugCrashText,
    DebugLogText,
    DropConcatOfListsText,
    DropConsOfItemAndListText,
    DuplicateImportText,
    ExposeAllText,
    ImportAllText,
    LineLengthExceededText,
    MultiLineRecordFormattingText,
    NoTopLevelSignatureText,
    NoUncurriedPrefixText,
    RedefineVariableText,
    UnnecessaryListConcatText,
    UnnecessaryParensText,
    UnusedImportText,
    UnusedImportAliasText,
    UnusedImportedVariableText,
    UnusedPatternVariableText,
    UnusedTopLevelText,
    UnusedTypeAliasText,
    UnusedVariableText,
    UseConsOverConcatText
  ]

  const DebugCrashText :=
    "This check will look if " +
    "a Debug.crash is used " +
    "within the code. You " +
    "may not want to ship " +
    "this to your end users."
  const DebugLogText :=
    "This check will look if " +
    "a Debug.log is used " +
    "within the " +
    "code.         This is " +
    "nice for development, " +
    "but you do not want to " +
    "ship this code to " +
    "package users or your " +
    "endusers."
  const DropConcatOfListsText :=
    "If you concatenate two " +
    "lists ([...] ++ [...]), " +
    "then you can merge them " +
    "into one list."
  const DropConsOfItemAndListText :=
    "If you cons an item to " +
    "a literal list (x :x " +
    "[1, 2, 3]), then you " +
    "can just put the item " +
    "into the list."
  const DuplicateImportText :=
    "This check will look " +
    "for imports that are " +
    "defined twice.         " +
    "The Elm compiler will " +
    "not fail on this, but " +
    "it is better to merge " +
    "these two imports into " +
    "one."
  const ExposeAllText :=
    "This check will look " +
    "for modules that expose " +
    "all their " +
    "definitions.         " +
    "This is not a best " +
    "practice. You want to " +
    "be clear about the API " +
    "that a module defined."
  const ImportAllText :=
    "This check will look " +
    "for imports that expose " +
    "all functions from a " +
    "module (..).         " +
    "When other people read " +
    "your code, it would be " +
    "nice if the origin of a " +
    "used function can be " +
    "traced back to the " +
    "providing module."
  const LineLengthExceededText :=
    "This check will mark " +
    "files that contain " +
    "lines that exceed over " +
    "150 characters (#18 " +
    "allows configuring this " +
    "variable)."
  const MultiLineRecordFormattingText :=
    "This check will if " +
    "records in type aliases " +
    "are formatted on " +
    "multiple lines if the " +
    "type alias has multiple " +
    "fields."
  const NoTopLevelSignatureText :=
    "This check will look " +
    "for function " +
    "declarations without a " +
    "signature.         We " +
    "want our readers to " +
    "understand our code. " +
    "Adding a signature is a " +
    "part of this.         " +
    "This check will skip " +
    "definitions in let " +
    "statements."
  const NoUncurriedPrefixText :=
    "It is unneeded to use " +
    "an operator in prefix " +
    "notation when you apply " +
    "both arguments " +
    "directly.         This " +
    "check will look for " +
    "these kind of usages"
  const RedefineVariableText :=
    "You should not redefine " +
    "a variable in a new " +
    "lexical scope. This is " +
    "confusing and may lead " +
    "to bugs."
  const UnnecessaryListConcatText :=
    "You should not use " +
    "List.concat to " +
    "concatenate literal " +
    "lists. Just join the " +
    "lists together."
  const UnnecessaryParensText :=
    "If you want " +
    "parenthesis, then you " +
    "might want to look into " +
    "Lisp.         It is " +
    "good to know when you " +
    "do not need them in Elm " +
    "and this check will let " +
    "you know.         This " +
    "check follows this " +
    "discussion from " +
    "elm-format."
  const UnusedImportText :=
    "Imports that have no " +
    "meaning should be " +
    "removed."
  const UnusedImportAliasText :=
    "Sometimes you defined " +
    "an alias for an import " +
    "(import Foo as F), but " +
    "it turns out you never " +
    "use it.         This " +
    "check shows where you " +
    "have unused import " +
    "aliases."
  const UnusedImportedVariableText :=
    "When a function is " +
    "imported from a module " +
    "but unused, it is " +
    "better to remove it."
  const UnusedPatternVariableText :=
    "Variables in pattern " +
    "matching that are " +
    "unused should be " +
    "replaced with _ to " +
    "avoid unnecessary noice."
  const UnusedTopLevelText :=
    "Functions that are " +
    "unused in a module and " +
    "not exported are dead " +
    "code. These should be " +
    "removed."
  const UnusedTypeAliasText :=
    "When you defined an " +
    "type alias, but you do " +
    "not use it in any " +
    "signature or expose " +
    "it,         then it is " +
    "just filling up space. " +
    "It is better to remove " +
    "it."
  const UnusedVariableText :=
    "Variables that are not " +
    "used could be removed " +
    "or marked as _ to avoid " +
    "unnecessary noise."
  const UseConsOverConcatText :=
    "If you concatenate two " +
    "lists, but the right " +
    "hand side is a single " +
    "element list, then you " +
    "should use the cons " +
    "operator.  "

  /** `messageDescriptionsMap`: the pairs `(types[k], texts[k])` put into a
      `Map` one after another, so a later pair for the same type would win. */
  function DescriptionMap(types: seq<string>, texts: seq<string>): (m: map<string, string>)
    requires |types| == |texts|
    ensures m.Keys == set k | 0 <= k < |types| :: types[k]
    decreases |types|
  {
    if types == [] then map[]
    else
      var n := |types| - 1;
      DescriptionMap(types[..n], texts[..n])[types[n] := texts[n]]
  }

  /** The map answers a pair's text unless a later pair has the same
      type. */
  lemma {:induction false} DescriptionMapLookup(types: seq<string>, texts: seq<string>, k: nat)
    requires |types| == |texts| && k < |types|
    requires forall j :: k < j < |types| ==> types[j] != types[k]
    ensures types[k] in DescriptionMap(types, texts)
    ensures DescriptionMap(types, texts)[types[k]] == texts[k]
    decreases |types|
  {
    var n := |types| - 1;
    if k < n {
      DescriptionMapLookup(types[..n], texts[..n], k);
    }
  }

  /** The constructor's `forEach` that enters each pair into the map. */
  method BuildDescriptionMap(types: seq<string>, texts: seq<string>) returns (m: map<string, string>)
    requires |types| == |texts|
    ensures m == DescriptionMap(types, texts)
  {
    m := map[];
    var k := 0;
    while k < |types|
      invariant 0 <= k <= |types|
      invariant m == DescriptionMap(types[..k], texts[..k])
    {
      assert types[..k + 1][..k] == types[..k];
      assert texts[..k + 1][..k] == texts[..k];
      m := m[types[k] := texts[k]];
      k := k + 1;
    }
    assert types[..k] == types && texts[..k] == texts;
  }

  /** The description `descriptions` holds for a message type, or "" for
      a type it does not know. */
  function Describe(descriptions: map<string, string>, messageType: string): (d: string)
    ensures messageType !in descriptions ==> d == ""
    ensures messageType in descriptions ==> d == descriptions[messageType]
  {
    if messageType in descriptions then descriptions[messageType] else ""
  }

  /** `messageDescriptionsMap` as a value. */
  function DescriptionTable(): (m: map<string, string>)
    ensures m.Keys == set k | 0 <= k < |MessageTypes| :: MessageTypes[k]
  {
    TableShape();
    DescriptionMap(MessageTypes, MessageTexts)
  }

  /** `parseMessageInfoDetail`: the description of a message type, or ""
      for a type the table does not know. */
  function ParseMessageInfoDetail(messageType: string): (d: string)
    ensures messageType !in MessageTypes ==> d == ""
  {
    Describe(DescriptionTable(), messageType)
  }

  /** The table has 22 entries, one text per type. */
  lemma TableShape()
    ensures |MessageTypes| == |MessageTexts| == 22
  {
  }

  /** No two entries of the table share a type. */
  lemma TypesDistinct()
    ensures forall i, j :: 0 <= i < j < |MessageTypes| ==> MessageTypes[i] != MessageTypes[j]
  {
  }

  /** Every type of the table gets its own description. */
  lemma DetailOfKnownType(k: nat)
    requires k < |MessageTypes|
    ensures ParseMessageInfoDetail(MessageTypes[k]) == MessageTexts[k]
  {
    TableShape();
    TypesDistinct();
    DescriptionMapLookup(MessageTypes, MessageTexts, k);
  }

  /** How the message handler treats one message. */
  datatype Step =
    | Skip          // no type, or no property of that name: nothing is pushed
    | Emit(issue: Issue)
    | Throw         // `correctRange` or `path.join` throws and ends the handler

  /** `data.hasOwnProperty(t)`: the `type` property itself, or one of the
      infos. */
  predicate HasInfo(d: MessageData, t: string) {
    t == "type" || t in d.infos
  }

  /** `data[t]`. For `t == "type"` that is the type string itself, which
      has no `file` and no `range`. */
  function InfoOf(d: MessageData, t: string): TypeInfo
    requires HasInfo(d, t)
  {
    if t == "type" then TypeInfo(None, NoRange) else d.infos[t]
  }

  /** The message has data with a type and a property named by it. */
  predicate Qualifies(m: Message) {
    && m.data.Some?
    && m.data.value.messageType.Some?
    && HasInfo(m.data.value, m.data.value.messageType.value)
  }

  /** `path.join(cwd, file)`: it throws unless both are strings. */
  function JoinPath(cwd: Option<string>, file: Option<string>): (p: Option<string>)
    ensures p.Some? <==> cwd.Some? && file.Some?
    ensures p.Some? ==> p.value == JoinResolve(cwd.value, file.value)
  {
    if cwd.Some? && file.Some? then Some(JoinResolve(cwd.value, file.value)) else None
  }

  /** The body of the handler's loop for one message. */
  function MessageStep(descriptions: map<string, string>, cwd: Option<string>, m: Message): (s: Step)
    ensures s.Skip? <==> !Qualifies(m)
    ensures s.Emit? ==>
      var t := m.data.value.messageType.value;
      var info := InfoOf(m.data.value, t);
      && s.issue.tag == "analyser"
      && s.issue.overview == t
      && s.issue.subregion == ""
      && s.issue.details == Describe(descriptions, t)
      && s.issue.issueType == "warning"
      && ParseMessageInfoFileRange(info) == Some(ZeroBased(s.issue.region))
      && JoinPath(cwd, info.file) == Some(s.issue.file)
    ensures s.Throw? <==>
      && Qualifies(m)
      && var info := InfoOf(m.data.value, m.data.value.messageType.value);
      (info.range.NoReal? || JoinPath(cwd, info.file).None?)
  {
    if !Qualifies(m) then Skip
    else
      var t := m.data.value.messageType.value;
      var info := InfoOf(m.data.value, t);
      var range := ParseMessageInfoFileRange(info);
      var file := JoinPath(cwd, info.file);
      if range.None? || file.None? then Throw
      else Emit(Issue("analyser", t, "", Describe(descriptions, t), CorrectRange(range.value), "warning", file.value))
  }

  /** The issues the handler has pushed after going through `msgs` from
      the start, and whether it got through all of them without throwing. */
  function Processed(descriptions: map<string, string>, cwd: Option<string>, msgs: seq<Message>): (r: (seq<Issue>, bool))
    decreases |msgs|
  {
    if msgs == [] then ([], true)
    else
      var p := Processed(descriptions, cwd, msgs[..|msgs| - 1]);
      if !p.1 then p
      else match MessageStep(descriptions, cwd, msgs[|msgs| - 1])
        case Skip => p
        case Emit(issue) => (p.0 + [issue], true)
        case Throw => (p.0, false)
  }

  /** The messages that yield an issue, in their order. */
  function Qualifying(msgs: seq<Message>): (q: seq<Message>)
    ensures |q| <= |msgs|
    ensures forall k :: 0 <= k < |q| ==> Qualifies(q[k]) && q[k] in msgs
    decreases |msgs|
  {
    if msgs == [] then []
    else
      var q := Qualifying(msgs[..|msgs| - 1]);
      if Qualifies(msgs[|msgs| - 1]) then q + [msgs[|msgs| - 1]] else q
  }

  /** No message throws. */
  predicate NoThrow(descriptions: map<string, string>, cwd: Option<string>, msgs: seq<Message>) {
    forall k :: 0 <= k < |msgs| ==> !MessageStep(descriptions, cwd, msgs[k]).Throw?
  }

  /** The handler gets through the messages exactly when none of them
      throws. */
  lemma {:induction false} ProcessedCompletes(descriptions: map<string, string>, cwd: Option<string>, msgs: seq<Message>)
    ensures Processed(descriptions, cwd, msgs).1 <==> NoThrow(descriptions, cwd, msgs)
    decreases |msgs|
  {
    if msgs != [] {
      var n := |msgs| - 1;
      var init := msgs[..n];
      ProcessedCompletes(descriptions, cwd, init);
      assert forall k :: 0 <= k < n ==> msgs[k] == init[k];
      if NoThrow(descriptions, cwd, init) && MessageStep(descriptions, cwd, msgs[n]).Throw? {
        assert !NoThrow(descriptions, cwd, msgs);
      }
    }
  }

  /** When it gets through them, the handler has pushed one issue per
      qualifying message, in order. */
  lemma {:induction false} ProcessedIsQualifying(descriptions: map<string, string>, cwd: Option<string>, msgs: seq<Message>)
    requires Processed(descriptions, cwd, msgs).1
    ensures |Processed(descriptions, cwd, msgs).0| == |Qualifying(msgs)|
    ensures forall k :: 0 <= k < |Qualifying(msgs)| ==>
      MessageStep(descriptions, cwd, Qualifying(msgs)[k]) == Emit(Processed(descriptions, cwd, msgs).0[k])
    decreases |msgs|
  {
    if msgs != [] {
      ProcessedIsQualifying(descriptions, cwd, msgs[..|msgs| - 1]);
    }
  }

  /** Every issue the handler pushes is an analyser warning about one of
      the types it was sent. */
  lemma {:induction false} ProcessedIssues(descriptions: map<string, string>, cwd: Option<string>, msgs: seq<Message>)
    ensures forall issue :: issue in Processed(descriptions, cwd, msgs).0 ==>
      && issue.tag == "analyser"
      && issue.issueType == "warning"
      && exists m :: m in msgs && MessageStep(descriptions, cwd, m) == Emit(issue)
    decreases |msgs|
  {
    if msgs != [] {
      var n := |msgs| - 1;
      ProcessedIssues(descriptions, cwd, msgs[..n]);
      forall issue | issue in Processed(descriptions, cwd, msgs).0
        ensures exists m :: m in msgs && MessageStep(descriptions, cwd, m) == Emit(issue)
      {
        if issue in Processed(descriptions, cwd, msgs[..n]).0 {
          var m :| m in msgs[..n] && MessageStep(descriptions, cwd, m) == Emit(issue);
          assert m in msgs;
        } else {
          assert MessageStep(descriptions, cwd, msgs[n]) == Emit(issue);
        }
      }
    }
  }

  /** One more message after a prefix the handler got through. */
  lemma ProcessedNext(descriptions: map<string, string>, cwd: Option<string>, msgs: seq<Message>, k: nat)
    requires k < |msgs| && Processed(descriptions, cwd, msgs[..k]).1
    ensures var p := Processed(descriptions, cwd, msgs[..k]);
      var s := MessageStep(descriptions, cwd, msgs[k]);
      Processed(descriptions, cwd, msgs[..k + 1]) ==
        if s.Skip? then p else if s.Emit? then (p.0 + [s.issue], true) else (p.0, false)
  {
    assert msgs[..k + 1][..k] == msgs[..k];
  }

  /** Once the handler throws, later messages change nothing. */
  lemma {:induction false} ProcessedStops(descriptions: map<string, string>, cwd: Option<string>, msgs: seq<Message>, k: nat)
    requires k <= |msgs|
    requires !Processed(descriptions, cwd, msgs[..k]).1
    ensures Processed(descriptions, cwd, msgs) == Processed(descriptions, cwd, msgs[..k])
    decreases |msgs| - k
  {
    if k < |msgs| {
      assert msgs[..k + 1][..k] == msgs[..k];
      ProcessedStops(descriptions, cwd, msgs, k + 1);
    } else {
      assert msgs[..k] == msgs;
    }
  }

  /** What `checkElmAnalyseServerState` concludes about the analyser's
      port. */
  datatype ServerState = NotRunning | PortInUse | Running

  /** The answer to the HTTP request on the port: an error, or a page with
      the text of its first `<title>` element when it has one. */
  datatype ServerReply = RequestFailed | Page(title: Option<string>)

  /** `getElmAnalyseServerInfo`: the page's title, or "" without one. */
  function ServerInfo(title: Option<string>): (info: string)
    ensures title.Some? ==> info == title.value
    ensures title.None? ==> info == ""
  {
    if title.Some? then title.value else ""
  }

  /** `checkElmAnalyseServerState`. */
  function CheckElmAnalyseServerState(reply: ServerReply): ServerState {
    match reply
    case RequestFailed => NotRunning
    case Page(title) => if Contains(ServerInfo(title), "Elm Analyse") then Running else PortInUse
  }

  /** The port is free exactly when the request fails, and elm-analyse
      answers on it exactly when the page's title mentions "Elm Analyse";
      any other page means another program holds the port. */
  lemma ServerStateClassification(reply: ServerReply)
    ensures CheckElmAnalyseServerState(reply) == NotRunning <==> reply.RequestFailed?
    ensures CheckElmAnalyseServerState(reply) == Running <==>
      && reply.Page?
      && reply.title.Some?
      && exists i :: 0 <= i <= |reply.title.value| - 11 && reply.title.value[i..][..11] == "Elm Analyse"
    ensures CheckElmAnalyseServerState(reply) == PortInUse <==>
      && reply.Page?
      && !Contains(ServerInfo(reply.title), "Elm Analyse")
  {
    if reply.Page? {
      ContainsAt(ServerInfo(reply.title), "Elm Analyse");
    }
  }

  /** The error messages the client shows. */
  datatype Notice =
    | AlreadyRunning  // the start command while a spawned analyser runs
    | PortTaken       // another program answers on the port
    | CannotStop      // the stop command while no spawned analyser runs
    | SocketFailed    // a state message could not be handled

  /** The elm-analyse client (`ElmAnalyse`). */
  class Analyser {
    /** `elmAnalyseIssues`: what the linter reports. */
    var issues: seq<Issue>
    /** `unprocessedMessage`: issues arrived since the linter last ran. */
    var unprocessedMessage: bool
    /** `analyse.isRunning`: an analyser this client spawned is running. */
    var processRunning: bool
    /** The current socket exists and is open. */
    var socketOpen: bool
    /** The workspace root the current socket's handlers captured. */
    var socketCwd: Option<string>
    /** How many intervals calling `updateLinter` are live. */
    var liveIntervals: nat
    /** `updateLinterInterval` holds one of the live intervals. */
    var intervalHeld: bool
    /** `messageDescriptionsMap`. */
    const descriptions: map<string, string>
    /** The error messages shown so far. */
    ghost var notices: seq<Notice>
    /** The issues each linter run reported, in order. */
    ghost var lintRuns: seq<seq<Issue>>
    /** How many analysers this client has spawned. */
    ghost var spawned: nat

    /** The interval handle only ever names a live interval. */
    ghost predicate Valid()
      reads this
    {
      intervalHeld ==> liveIntervals > 0
    }

    /** The constructor: nothing runs yet, and the description map holds
        the table. */
    constructor(initial: seq<Issue>)
      ensures Valid()
      ensures descriptions == DescriptionTable()
      ensures issues == initial && !unprocessedMessage
      ensures !processRunning && !socketOpen && socketCwd == None
      ensures liveIntervals == 0 && !intervalHeld
      ensures notices == [] && lintRuns == [] && spawned == 0
    {
      TableShape();
      var m := BuildDescriptionMap(MessageTypes, MessageTexts);
      descriptions := m;
      issues := initial;
      unprocessedMessage := false;
      processRunning := false;
      socketOpen := false;
      socketCwd := None;
      liveIntervals := 0;
      intervalHeld := false;
      notices := [];
      lintRuns := [];
      spawned := 0;
    }

    /** The socket's `message` handler. `state` is the parsed `messages`
        array, or `None` when the payload is not JSON with one. */
    method OnMessage(state: Option<seq<Message>>)
      requires socketOpen
      modifies this`issues, this`unprocessedMessage, this`notices
      ensures state.None? ==>
        && issues == []
        && unprocessedMessage == old(unprocessedMessage)
        && notices == old(notices) + [SocketFailed]
      ensures state.Some? ==>
        var r := Processed(descriptions, socketCwd, state.value);
        && issues == r.0
        && unprocessedMessage == (r.1 || old(unprocessedMessage))
        && notices == old(notices) + (if r.1 then [] else [SocketFailed])
    {
      issues := [];
      if state.None? {
        notices := notices + [SocketFailed];
        return;
      }
      var msgs := state.value;
      var k := 0;
      while k < |msgs|
        invariant 0 <= k <= |msgs|
        invariant Processed(descriptions, socketCwd, msgs[..k]) == (issues, true)
        invariant unprocessedMessage == old(unprocessedMessage) && notices == old(notices)
      {
        ProcessedNext(descriptions, socketCwd, msgs, k);
        match MessageStep(descriptions, socketCwd, msgs[k]) {
          case Skip =>
          case Emit(issue) =>
            issues := issues + [issue];
          case Throw =>
            ProcessedStops(descriptions, socketCwd, msgs, k + 1);
            notices := notices + [SocketFailed];
            return;
        }
        k := k + 1;
      }
      assert msgs[..k] == msgs;
      unprocessedMessage := true;
    }

    /** `startAnalyseProcess`: whether a server is ready on the port after
        the call; `reply` is what the port answers when it is asked. */
    method StartAnalyseProcess(reply: ServerReply) returns (ready: bool)
      modifies this`processRunning, this`notices, this`spawned
      ensures old(processRunning) ==>
        && !ready && processRunning
        && spawned == old(spawned)
        && notices == old(notices) + [AlreadyRunning]
      ensures !old(processRunning) ==>
        var s := CheckElmAnalyseServerState(reply);
        && ready == (s != PortInUse)
        && processRunning == (s == NotRunning)
        && spawned == old(spawned) + (if s == NotRunning then 1 else 0)
        && notices == old(notices) + (if s == PortInUse then [PortTaken] else [])
    {
      if processRunning {
        notices := notices + [AlreadyRunning];
        return false;
      }
      var s := CheckElmAnalyseServerState(reply);
      if s == Running {
        ready := true;
      } else if s == PortInUse {
        notices := notices + [PortTaken];
        ready := false;
      } else {
        processRunning := true;
        spawned := spawned + 1;
        ready := true;
      }
    }

    /** `execActivateAnalyseProcesses`: for an Elm document, start the
        analyser; whether the 3-second wait before connecting begins. */
    method ExecActivateAnalyseProcesses(isElmDocument: bool, reply: ServerReply) returns (waiting: bool)
      modifies this`processRunning, this`notices, this`spawned
      ensures !isElmDocument ==> !waiting && unchanged(this)
      ensures isElmDocument && old(processRunning) ==>
        !waiting && processRunning && notices == old(notices) + [AlreadyRunning]
      ensures isElmDocument && !old(processRunning) ==>
        var s := CheckElmAnalyseServerState(reply);
        && waiting == (s != PortInUse)
        && processRunning == (s == NotRunning)
        && notices == old(notices) + (if s == PortInUse then [PortTaken] else [])
      ensures isElmDocument ==> spawned == old(spawned) + (if !old(processRunning) && CheckElmAnalyseServerState(reply) == NotRunning then 1 else 0)
    {
      if !isElmDocument {
        return false;
      }
      waiting := StartAnalyseProcess(reply);
    }

    /** The end of the 3-second wait: `initSocketClient` replaces the
        socket, and a new interval starts calling `updateLinter`. */
    method OnStartDelayElapsed(rootPath: Option<string>)
      requires Valid()
      modifies this`socketOpen, this`socketCwd, this`liveIntervals, this`intervalHeld
      ensures Valid()
      ensures socketOpen && socketCwd == rootPath
      ensures liveIntervals == old(liveIntervals) + 1 && intervalHeld
    {
      socketOpen := true;
      socketCwd := rootPath;
      liveIntervals := liveIntervals + 1;
      intervalHeld := true;
    }

    /** `execStopAnalyse`: the issues go in any case; a spawned analyser
        is killed and its socket and held interval are released. */
    method ExecStopAnalyse(notify: bool)
      requires Valid()
      modifies this`issues, this`processRunning, this`socketOpen, this`liveIntervals, this`intervalHeld, this`notices
      ensures Valid()
      ensures issues == [] && !processRunning
      ensures old(processRunning) ==>
        && !socketOpen && !intervalHeld
        && liveIntervals == old(liveIntervals) - (if old(intervalHeld) then 1 else 0)
        && notices == old(notices)
      ensures !old(processRunning) ==>
        && socketOpen == old(socketOpen)
        && liveIntervals == old(liveIntervals) && intervalHeld == old(intervalHeld)
        && notices == old(notices) + (if notify then [CannotStop] else [])
    {
      issues := [];
      if processRunning {
        processRunning := false;
        socketOpen := false;
        if intervalHeld {
          liveIntervals := liveIntervals - 1;
        }
        intervalHeld := false;
      } else if notify {
        notices := notices + [CannotStop];
      }
    }

    /** `updateLinter`: the linter runs on the current issues only when a
        message arrived since its last run. It is handed the active editor's
        document; with no editor open (`editorOpen` false) that read throws,
        so the linter does not run and the message stays pending. */
    method UpdateLinter(editorOpen: bool)
      modifies this`unprocessedMessage, this`lintRuns
      ensures unprocessedMessage <==> old(unprocessedMessage) && !editorOpen
      ensures lintRuns == old(lintRuns) + (if old(unprocessedMessage) && editorOpen then [issues] else [])
    {
      if unprocessedMessage && editorOpen {
        lintRuns := lintRuns + [issues];
        unprocessedMessage := false;
      }
    }
  }
}
