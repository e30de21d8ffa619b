/** The release draft aggregate, its commands and events, and the agent replies it admits. */
module ReleaseMessages {
  import opened Options
  import opened Text

  type GenerationId = nat
  type ConversationId = nat

  /** An entity version; `equals` compares both parts. */
  datatype Version = Version(number: nat, timestamp: int)

  datatype Comparison = Comparison(repository: Option<nat>, base: Option<nat>, target: Option<nat>, policy: nat)

  function Repository(c: Option<Comparison>): Option<nat> {
    match c
    case Some(v) => v.repository
    case None => None
  }

  function Base(c: Option<Comparison>): Option<nat> {
    match c
    case Some(v) => v.base
    case None => None
  }

  function Target(c: Option<Comparison>): Option<nat> {
    match c
    case Some(v) => v.target
    case None => None
  }

  function Policy(c: Option<Comparison>): Option<nat> {
    match c
    case Some(v) => Some(v.policy)
    case None => None
  }

  // ----- Rendering a proposal -----

  datatype Section = Section(heading: Text, entries: seq<Text>)

  datatype Document = Document(sections: seq<Section>)

  const NEWLINE: Unit := 10

  function EntryLines(entries: seq<Text>): seq<Text> {
    if entries == [] then [] else [[45, 32] + entries[0]] + EntryLines(entries[1..])
  }

  function SectionLines(sections: seq<Section>): seq<Text> {
    if sections == [] then []
    else [[35, 35, 32] + sections[0].heading, []] + EntryLines(sections[0].entries) + [[]] + SectionLines(sections[1..])
  }

  function Join(lines: seq<Text>): Text {
    if lines == [] then [] else if |lines| == 1 then lines[0] else lines[0] + [NEWLINE] + Join(lines[1..])
  }

  function TrimNewlines(s: Text): Text {
    if s != [] && s[|s| - 1] == NEWLINE then TrimNewlines(s[..|s| - 1]) else s
  }

  /** The initial Markdown of a proposal: title, headings and bulleted entries. */
  function Render(title: Text, document: Document): Bytes {
    Encode(TrimNewlines(Join([[35, 32] + title, []] + SectionLines(document.sections))) + [NEWLINE])
  }

  // ----- Commands, events and replies -----

  datatype Request = Request(generation: Option<GenerationId>, expectedVersion: Option<Version>, catalog: nat,
                             instruction: nat, conversation: Option<ConversationId>, selection: nat)

  /** The digest of a request is injective, so it is the request itself. */
  datatype Receipt = Receipt(generation: Option<GenerationId>, inputDigest: Request)

  datatype Command =
    | Open(title: Option<Text>, comparison: Option<Comparison>, audience: Text)
    | ChangeInputs(expectedVersion: Option<Version>, comparison: Option<Comparison>, audience: Text)
    | RequestGeneration(request: Request)
    | Edit(expectedVersion: Option<Version>, markdown: Option<Bytes>)
    | CancelGeneration(generation: Option<GenerationId>)
    | PrepareExport(expectedVersion: Option<Version>)

  datatype Event =
    | Opened(title: Option<Text>, comparison: Option<Comparison>, audience: Text)
    | InputsChanged(comparison: Option<Comparison>, audience: Text, markdown: Option<Bytes>)
    | GenerationRequested(generation: Option<GenerationId>, inputVersion: Version, comparison: Option<Comparison>,
                          audience: Text, currentMarkdownText: Text, title: Option<Text>, request: Request)
    | AlreadyRequested(generation: Option<GenerationId>, inputDigest: Request)
    | Edited(markdown: Option<Bytes>)
    | Canceled(generation: Option<GenerationId>)
    | CancelIgnored(generation: Option<GenerationId>)
    | ExportPrepared(sourceVersion: Version, bytes: Bytes)
    | Staged(generation: Option<GenerationId>, markdown: Option<Bytes>)
    | ProposalDiscarded(generation: Option<GenerationId>)
    | StatusChanged(generation: Option<GenerationId>, reason: nat)

  /** What the agent sends back for one request. */
  datatype Reply =
    | Proposed(generation: Option<GenerationId>, inputVersion: Option<Version>, document: Option<Document>)
    | GenerationFailed(generation: Option<GenerationId>, inputVersion: Option<Version>, reason: nat)

  datatype Rejection =
    DraftAlreadyOpen | InputsConflict | GenerationConflict | GenerationInputsConflict | StaleEdit | InvalidMarkdown |
    ExportUnavailable

  datatype Outcome = Emitted(event: Event) | Rejected(rejection: Rejection) | Silent

  datatype Status = NoStatus | StatusInputsChanged | StatusRequested | StatusEdited | StatusCanceled | StatusStaged |
                    StatusFailed(reason: nat)

  datatype Draft = Draft(
    title: Option<Text>, comparison: Option<Comparison>, audience: Text, markdown: Option<Bytes>,
    pendingGeneration: Option<GenerationId>, pendingInputVersion: Option<Version>, generationStatus: Status,
    conversation: Option<ConversationId>, receipts: seq<Receipt>)

  const NEW_DRAFT := Draft(None, None, [], None, None, None, NoStatus, None, [])

  // ----- What the framework publishes -----

  predicate Titled(title: Option<Text>) { title.Some? && title.value != [] }

  predicate Compared(c: Option<Comparison>) {
    c.Some? && c.value.repository.Some? && c.value.base.Some? && c.value.target.Some? && c.value.policy != 0
  }

  /** The required fields of each event; a handler whose event lacks one fails before anything is stored. */
  predicate Publishable(e: Event) {
    match e
    case Opened(title, comparison, audience) => Titled(title) && Compared(comparison) && audience != []
    case InputsChanged(comparison, audience, _) => Compared(comparison) && audience != []
    case GenerationRequested(generation, _, comparison, audience, _, title, request) =>
      generation.Some? && Compared(comparison) && audience != [] && request.conversation.Some? && Titled(title)
    case Edited(_) | ExportPrepared(_, _) => true
    case AlreadyRequested(generation, _) => generation.Some?
    case Canceled(generation) => generation.Some?
    case CancelIgnored(generation) => generation.Some?
    case Staged(generation, _) => generation.Some?
    case ProposalDiscarded(generation) => generation.Some?
    case StatusChanged(generation, _) => generation.Some?
  }
}

/** The decisions of the aggregate as a function of its state and version. */
module ReleaseDecisions {
  import opened Options
  import opened Text
  import opened ReleaseMessages

  function FindReceipt(receipts: seq<Receipt>, generation: Option<GenerationId>): (r: Option<Receipt>)
    ensures r.Some? ==> r.value in receipts && r.value.generation == generation
    ensures r.None? ==> forall x :: x in receipts ==> x.generation != generation
  {
    if receipts == [] then None
    else if receipts[0].generation == generation then Some(receipts[0])
    else FindReceipt(receipts[1..], generation)
  }

  /** Markdown always decodes: handlers only store rendered, empty or checked bytes. */
  predicate Decodable(d: Draft) {
    d.markdown.Some? ==> Decode(d.markdown.value).Some?
  }

  /** The decoded Markdown a request event carries; unset Markdown decodes to the empty text. */
  function MarkdownText(d: Draft): Text
    requires Decodable(d)
  {
    if d.markdown.None? then [] else Decode(d.markdown.value).value
  }

  predicate ComparisonChanged(d: Draft, c: Option<Comparison>) {
    Base(c) != Base(d.comparison) || Target(c) != Target(d.comparison) || Policy(c) != Policy(d.comparison)
  }

  function Idle(d: Draft, status: Status): Draft {
    d.(pendingGeneration := None, pendingInputVersion := None, generationStatus := status)
  }

  function Decide(d: Draft, v: Version, c: Command): (r: (Draft, Outcome))
    requires Decodable(d)
    ensures Decodable(r.0)
  {
    match c
    case Open(title, comparison, audience) =>
      if v.number != 0 then (d, Rejected(DraftAlreadyOpen))
      else (NEW_DRAFT.(title := title, comparison := comparison, audience := audience, markdown := Some(NO_BYTES)),
            Emitted(Opened(title, comparison, audience)))
    case ChangeInputs(expected, comparison, audience) =>
      if expected != Some(v) || Repository(comparison) != Repository(d.comparison) then (d, Rejected(InputsConflict))
      else
        var markdown := if ComparisonChanged(d, comparison) then Some(NO_BYTES) else d.markdown;
        (Idle(d, StatusInputsChanged).(comparison := comparison, audience := audience, markdown := markdown),
         Emitted(InputsChanged(comparison, audience, markdown)))
    case RequestGeneration(request) => DecideRequest(d, v, request)
    case Edit(expected, markdown) =>
      if expected != Some(v) || markdown.None? then (d, Rejected(StaleEdit))
      else if Decode(markdown.value).None? then (d, Rejected(InvalidMarkdown))
      else (Idle(d, StatusEdited).(markdown := markdown), Emitted(Edited(markdown)))
    case CancelGeneration(generation) =>
      if generation != d.pendingGeneration then (d, Emitted(CancelIgnored(generation)))
      else (Idle(d, StatusCanceled), Emitted(Canceled(generation)))
    case PrepareExport(expected) =>
      if d.markdown.None? || expected != Some(v) then (d, Rejected(ExportUnavailable))
      else (d, Emitted(ExportPrepared(v, d.markdown.value)))
  }

  function DecideRequest(d: Draft, v: Version, c: Request): (r: (Draft, Outcome))
    requires Decodable(d)
    ensures r.0.markdown == d.markdown
  {
    var prior := FindReceipt(d.receipts, c.generation);
    if prior.Some? then
      if prior.value.inputDigest != c then (d, Rejected(GenerationConflict))
      else (d, Emitted(AlreadyRequested(c.generation, c)))
    else if c.expectedVersion != Some(v) || c.conversation.None? ||
            (d.conversation.Some? && d.conversation != c.conversation) then
      (d, Rejected(GenerationInputsConflict))
    else
      (d.(pendingGeneration := c.generation, pendingInputVersion := Some(v), generationStatus := StatusRequested,
          conversation := c.conversation, receipts := d.receipts + [Receipt(c.generation, c)]),
       Emitted(GenerationRequested(c.generation, v, d.comparison, d.audience, MarkdownText(d), d.title, c)))
  }

  function Admit(d: Draft, reply: Reply): (r: (Draft, Outcome))
    requires Decodable(d)
    ensures Decodable(r.0)
  {
    match reply
    case Proposed(generation, inputVersion, document) =>
      if generation != d.pendingGeneration || inputVersion.None? || d.pendingInputVersion.None? || d.title.None? ||
         document.None? || inputVersion != d.pendingInputVersion then
        (d, Emitted(ProposalDiscarded(generation)))
      else
        var markdown := Some(Render(d.title.value, document.value));
        (Idle(d, StatusStaged).(markdown := markdown), Emitted(Staged(generation, markdown)))
    case GenerationFailed(generation, inputVersion, reason) =>
      if generation != d.pendingGeneration || inputVersion.None? || d.pendingInputVersion.None? ||
         inputVersion != d.pendingInputVersion then (d, Silent)
      else (Idle(d, StatusFailed(reason)), Emitted(StatusChanged(generation, reason)))
  }

  /** The agent answers a complete request with that request's own generation and version. */
  datatype Result = Success(document: Document) | Failure(code: nat)

  function AgentReply(e: Event, result: Result): Option<Reply>
    requires e.GenerationRequested?
  {
    if e.request.conversation.None? || e.generation.None? then None
    else match result
      case Success(document) => Some(Proposed(e.generation, Some(e.inputVersion), Some(document)))
      case Failure(code) => Some(GenerationFailed(e.generation, Some(e.inputVersion), code))
  }

  // ----- What each command and reply does, on the fields -----

  lemma OpenMeans(d: Draft, v: Version, title: Option<Text>, comparison: Option<Comparison>, audience: Text)
    requires Decodable(d)
    ensures var (after, r) := Decide(d, v, Open(title, comparison, audience));
            if v.number != 0 then r == Rejected(DraftAlreadyOpen) && after == d
            else
              && r == Emitted(Opened(title, comparison, audience))
              && after.title == title && after.comparison == comparison && after.audience == audience
              && after.markdown == Some(Utf8(false, [])) && after.generationStatus == NoStatus
              && after.pendingGeneration == None && after.pendingInputVersion == None
              && after.conversation == None && after.receipts == []
  {
  }

  /** Inputs change for the current version and the same repository only; Markdown written for another comparison goes. */
  lemma ChangeInputsMeans(d: Draft, v: Version, expected: Option<Version>, comparison: Option<Comparison>, audience: Text)
    requires Decodable(d)
    ensures var (after, r) := Decide(d, v, ChangeInputs(expected, comparison, audience));
            var repository := if comparison.Some? then comparison.value.repository else None;
            var hadRepository := if d.comparison.Some? then d.comparison.value.repository else None;
            if expected != Some(v) || repository != hadRepository then r == Rejected(InputsConflict) && after == d
            else
              && r == Emitted(InputsChanged(after.comparison, after.audience, after.markdown))
              && after.comparison == comparison && after.audience == audience
              && after.generationStatus == StatusInputsChanged
              && after.pendingGeneration == None && after.pendingInputVersion == None
              && after.title == d.title && after.conversation == d.conversation && after.receipts == d.receipts
    ensures var (after, r) := Decide(d, v, ChangeInputs(expected, comparison, audience));
            var same := match (comparison, d.comparison)
                        case (Some(c), Some(was)) => c.base == was.base && c.target == was.target && c.policy == was.policy
                        case (None, None) => true
                        case (_, _) => false;
            r.Emitted? ==> after.markdown == if same then d.markdown else Some(Utf8(false, []))
  {
  }

  lemma {:induction false} FirstReceipt(receipts: seq<Receipt>, generation: Option<GenerationId>, i: nat)
    requires i < |receipts| && receipts[i].generation == generation
    requires forall j :: 0 <= j < i ==> receipts[j].generation != generation
    ensures FindReceipt(receipts, generation) == Some(receipts[i])
  {
    if i > 0 {
      FirstReceipt(receipts[1..], generation, i - 1);
    }
  }

  /** The first receipt of the generation decides a replay. */
  lemma ReplayMeans(d: Draft, v: Version, c: Request, i: nat)
    requires Decodable(d) && i < |d.receipts| && d.receipts[i].generation == c.generation
    requires forall j :: 0 <= j < i ==> d.receipts[j].generation != c.generation
    ensures Decide(d, v, RequestGeneration(c)) ==
            (d, if d.receipts[i].inputDigest == c then Emitted(AlreadyRequested(c.generation, c))
                else Rejected(GenerationConflict))
  {
    FirstReceipt(d.receipts, c.generation, i);
  }

  /** A new generation needs the current version and the draft's one conversation, and snapshots the inputs. */
  lemma RequestMeans(d: Draft, v: Version, c: Request)
    requires Decodable(d) && forall x :: x in d.receipts ==> x.generation != c.generation
    ensures var (after, r) := Decide(d, v, RequestGeneration(c));
            if c.expectedVersion != Some(v) || c.conversation == None || d.conversation !in {None, c.conversation}
            then r == Rejected(GenerationInputsConflict) && after == d
            else
              && r.Emitted? && r.event.GenerationRequested?
              && r.event.generation == c.generation && r.event.inputVersion == v && r.event.request == c
              && r.event.comparison == d.comparison && r.event.audience == d.audience && r.event.title == d.title
              && (if d.markdown.Some? then Decode(d.markdown.value) == Some(r.event.currentMarkdownText)
                  else r.event.currentMarkdownText == [])
              && after.pendingGeneration == c.generation && after.pendingInputVersion == Some(v)
              && after.generationStatus == StatusRequested && after.conversation == c.conversation
              && after.receipts == d.receipts + [Receipt(c.generation, c)]
              && after.title == d.title && after.comparison == d.comparison && after.audience == d.audience
              && after.markdown == d.markdown
  {
  }

  lemma EditMeans(d: Draft, v: Version, expected: Option<Version>, markdown: Option<Bytes>)
    requires Decodable(d)
    ensures var (after, r) := Decide(d, v, Edit(expected, markdown));
            if expected != Some(v) || markdown == None then r == Rejected(StaleEdit) && after == d
            else if markdown.value.Malformed? then r == Rejected(InvalidMarkdown) && after == d
            else
              && r == Emitted(Edited(markdown)) && after.markdown == markdown && after.generationStatus == StatusEdited
              && after.pendingGeneration == None && after.pendingInputVersion == None
              && after.title == d.title && after.comparison == d.comparison && after.audience == d.audience
              && after.conversation == d.conversation && after.receipts == d.receipts
  {
  }

  lemma CancelMeans(d: Draft, v: Version, generation: Option<GenerationId>)
    requires Decodable(d)
    ensures var (after, r) := Decide(d, v, CancelGeneration(generation));
            if generation != d.pendingGeneration then r == Emitted(CancelIgnored(generation)) && after == d
            else
              && r == Emitted(Canceled(generation)) && after.generationStatus == StatusCanceled
              && after.pendingGeneration == None && after.pendingInputVersion == None
              && after.title == d.title && after.comparison == d.comparison && after.audience == d.audience
              && after.markdown == d.markdown && after.conversation == d.conversation && after.receipts == d.receipts
  {
  }

  lemma ExportMeans(d: Draft, v: Version, expected: Option<Version>)
    requires Decodable(d)
    ensures var (after, r) := Decide(d, v, PrepareExport(expected));
            && after == d
            && r == match d.markdown
                    case Some(bytes) => if expected == Some(v) then Emitted(ExportPrepared(v, bytes)) else Rejected(ExportUnavailable)
                    case None => Rejected(ExportUnavailable)
  {
  }

  /** A proposal replaces the Markdown only for the pending generation and version of a titled draft. */
  lemma ProposedMeans(d: Draft, generation: Option<GenerationId>, inputVersion: Option<Version>, document: Option<Document>)
    requires Decodable(d)
    ensures var (after, r) := Admit(d, Proposed(generation, inputVersion, document));
            if generation == d.pendingGeneration && inputVersion == d.pendingInputVersion && inputVersion.Some?
               && d.title.Some? && document.Some?
            then
              && r == Emitted(Staged(generation, after.markdown)) && after.markdown == Some(Render(d.title.value, document.value))
              && after.generationStatus == StatusStaged
              && after.pendingGeneration == None && after.pendingInputVersion == None
              && after.title == d.title && after.comparison == d.comparison && after.audience == d.audience
              && after.conversation == d.conversation && after.receipts == d.receipts
            else r == Emitted(ProposalDiscarded(generation)) && after == d
  {
  }

  lemma FailedMeans(d: Draft, generation: Option<GenerationId>, inputVersion: Option<Version>, reason: nat)
    requires Decodable(d)
    ensures var (after, r) := Admit(d, GenerationFailed(generation, inputVersion, reason));
            if generation == d.pendingGeneration && inputVersion == d.pendingInputVersion && inputVersion.Some?
            then
              && r == Emitted(StatusChanged(generation, reason)) && after.generationStatus == StatusFailed(reason)
              && after.pendingGeneration == None && after.pendingInputVersion == None
              && after.title == d.title && after.comparison == d.comparison && after.audience == d.audience
              && after.markdown == d.markdown && after.conversation == d.conversation && after.receipts == d.receipts
            else r == Silent && after == d
  {
  }

  /** The agent answers under the request's own generation and version, or not at all when one is missing. */
  lemma AgentEchoes(e: Event, result: Result)
    requires e.GenerationRequested?
    ensures var reply := AgentReply(e, result);
            && (reply.None? <==> e.generation == None || e.request.conversation == None)
            && (reply.Some? ==> reply.value.generation == e.generation && reply.value.inputVersion == Some(e.inputVersion))
            && (reply.Some? ==> match result
                  case Success(document) => reply.value.Proposed? && reply.value.document == Some(document)
                  case Failure(code) => reply.value.GenerationFailed? && reply.value.reason == code)
  {
  }
}

/** The aggregate and the projection as the objects that update their own fields. */
module ReleaseEntities {
  import opened Options
  import opened Text
  import opened ReleaseMessages
  import opened ReleaseDecisions

  class ReleaseDraft {
    var version: Version // advanced by the repository after each committing handler
    var title: Option<Text>
    var comparison: Option<Comparison>
    var audience: Text
    var markdown: Option<Bytes>
    var pendingGeneration: Option<GenerationId>
    var pendingInputVersion: Option<Version>
    var generationStatus: Status
    var conversation: Option<ConversationId>
    var receipts: seq<Receipt>

    ghost function State(): Draft
      reads this
    {
      Draft(title, comparison, audience, markdown, pendingGeneration, pendingInputVersion, generationStatus, conversation,
            receipts)
    }

    ghost predicate Valid()
      reads this
    {
      Decodable(State())
    }

    constructor (version: Version)
      ensures Valid() && State() == NEW_DRAFT && this.version == version
    {
      this.version := version;
      title, comparison, audience, markdown := None, None, [], None;
      pendingGeneration, pendingInputVersion, generationStatus, conversation, receipts := None, None, NoStatus, None, [];
    }

    method Finish(status: Status)
      modifies this
      ensures State() == Idle(old(State()), status) && version == old(version)
    {
      pendingGeneration := None;
      pendingInputVersion := None;
      generationStatus := status;
    }

    method Open(newTitle: Option<Text>, newComparison: Option<Comparison>, newAudience: Text) returns (r: Outcome)
      requires Valid()
      modifies this
      ensures Valid() && version == old(version)
      ensures (State(), r) == Decide(old(State()), version, Command.Open(newTitle, newComparison, newAudience))
    {
      if version.number != 0 {
        return Rejected(DraftAlreadyOpen);
      }
      title, comparison, audience, markdown := newTitle, newComparison, newAudience, Some(NO_BYTES);
      pendingGeneration, pendingInputVersion, generationStatus, conversation, receipts := None, None, NoStatus, None, [];
      return Emitted(Opened(newTitle, newComparison, newAudience));
    }

    method ChangeInputs(expected: Option<Version>, newComparison: Option<Comparison>, newAudience: Text)
      returns (r: Outcome)
      requires Valid()
      modifies this
      ensures Valid() && version == old(version)
      ensures (State(), r) == Decide(old(State()), version, Command.ChangeInputs(expected, newComparison, newAudience))
    {
      if expected.None? || expected.value != version || Repository(newComparison) != Repository(comparison) {
        return Rejected(InputsConflict);
      }
      var comparisonChanged := Base(newComparison) != Base(comparison) || Target(newComparison) != Target(comparison)
                               || Policy(newComparison) != Policy(comparison);
      comparison := newComparison;
      audience := newAudience;
      markdown := if comparisonChanged then Some(NO_BYTES) else markdown;
      Finish(StatusInputsChanged);
      return Emitted(InputsChanged(newComparison, newAudience, markdown));
    }

    method RequestGeneration(command: Request) returns (r: Outcome)
      requires Valid()
      modifies this
      ensures Valid() && version == old(version)
      ensures (State(), r) == Decide(old(State()), version, Command.RequestGeneration(command))
    {
      var prior := FindReceipt(receipts, command.generation);
      if prior.Some? {
        if prior.value.inputDigest != command {
          return Rejected(GenerationConflict);
        }
        return Emitted(AlreadyRequested(command.generation, command));
      }
      if command.expectedVersion.None? || command.expectedVersion.value != version || command.conversation.None? ||
         (conversation.Some? && conversation.value != command.conversation.value) {
        return Rejected(GenerationInputsConflict);
      }
      pendingGeneration := command.generation;
      pendingInputVersion := Some(version);
      generationStatus := StatusRequested;
      conversation := command.conversation;
      receipts := receipts + [Receipt(command.generation, command)];
      var text := if markdown.None? then [] else Decode(markdown.value).value;
      return Emitted(GenerationRequested(command.generation, version, comparison, audience, text, title, command));
    }

    method Edit(expected: Option<Version>, newMarkdown: Option<Bytes>) returns (r: Outcome)
      requires Valid()
      modifies this
      ensures Valid() && version == old(version)
      ensures (State(), r) == Decide(old(State()), version, Command.Edit(expected, newMarkdown))
    {
      if expected.None? || expected.value != version || newMarkdown.None? {
        return Rejected(StaleEdit);
      }
      if Decode(newMarkdown.value).None? {
        return Rejected(InvalidMarkdown);
      }
      markdown := newMarkdown;
      Finish(StatusEdited);
      return Emitted(Edited(newMarkdown));
    }

    method CancelGeneration(generation: Option<GenerationId>) returns (r: Outcome)
      requires Valid()
      modifies this
      ensures Valid() && version == old(version)
      ensures (State(), r) == Decide(old(State()), version, Command.CancelGeneration(generation))
    {
      if generation != pendingGeneration {
        return Emitted(CancelIgnored(generation));
      }
      Finish(StatusCanceled);
      return Emitted(Canceled(generation));
    }

    method PrepareExport(expected: Option<Version>) returns (r: Outcome)
      requires Valid()
      ensures (State(), r) == Decide(State(), version, Command.PrepareExport(expected))
    {
      if markdown.None? || expected.None? || expected.value != version {
        return Rejected(ExportUnavailable);
      }
      return Emitted(ExportPrepared(version, markdown.value));
    }

    method OnProposed(generation: Option<GenerationId>, inputVersion: Option<Version>, document: Option<Document>)
      returns (r: Outcome)
      requires Valid()
      modifies this
      ensures Valid() && version == old(version)
      ensures (State(), r) == Admit(old(State()), Proposed(generation, inputVersion, document))
    {
      if generation != pendingGeneration || inputVersion.None? || pendingInputVersion.None? || title.None? ||
         document.None? || inputVersion.value != pendingInputVersion.value {
        return Emitted(ProposalDiscarded(generation));
      }
      markdown := Some(Render(title.value, document.value));
      Finish(StatusStaged);
      return Emitted(Staged(generation, markdown));
    }

    method OnFailed(generation: Option<GenerationId>, inputVersion: Option<Version>, reason: nat) returns (r: Outcome)
      requires Valid()
      modifies this
      ensures Valid() && version == old(version)
      ensures (State(), r) == Admit(old(State()), GenerationFailed(generation, inputVersion, reason))
    {
      if generation != pendingGeneration || inputVersion.None? || pendingInputVersion.None? ||
         inputVersion.value != pendingInputVersion.value {
        return Silent;
      }
      Finish(StatusFailed(reason));
      return Emitted(StatusChanged(generation, reason));
    }
  }
}
