/** The read side of a draft: a fold over the events the aggregate emits. */
module ReleaseProjection {
  import opened Options
  import opened Text
  import opened ReleaseMessages

  datatype View = View(title: Option<Text>, comparison: Option<Comparison>, audience: Text, markdown: Option<Bytes>,
                       generationStatus: Status, generation: Option<GenerationId>)

  const NEW_VIEW := View(None, None, [], None, NoStatus, None)

  function Project(v: View, e: Event): View {
    match e
    case Opened(title, comparison, audience) => View(title, comparison, audience, Some(NO_BYTES), NoStatus, None)
    case GenerationRequested(g, _, _, _, _, _, _) => v.(generation := g, generationStatus := StatusRequested)
    case InputsChanged(c, a, m) => v.(comparison := c, audience := a, markdown := m, generationStatus := StatusInputsChanged)
    case Edited(m) => v.(markdown := m, generationStatus := StatusEdited)
    case Staged(g, m) => v.(markdown := m, generationStatus := StatusStaged, generation := g)
    case StatusChanged(g, reason) => v.(generation := g, generationStatus := StatusFailed(reason))
    case Canceled(g) => v.(generation := g, generationStatus := StatusCanceled)
    case AlreadyRequested(_, _) | CancelIgnored(_) | ExportPrepared(_, _) | ProposalDiscarded(_) => v
  }

  /** The view after handling a log of events in order. */
  function Fold(log: seq<Event>): View {
    if log == [] then NEW_VIEW else Project(Fold(log[..|log| - 1]), log[|log| - 1])
  }

  class ReleaseDraftProjection {
    var title: Option<Text>
    var comparison: Option<Comparison>
    var audience: Text
    var markdown: Option<Bytes>
    var generationStatus: Status
    var generation: Option<GenerationId>

    ghost function State(): View
      reads this
    {
      View(title, comparison, audience, markdown, generationStatus, generation)
    }

    constructor ()
      ensures State() == NEW_VIEW
    {
      title, comparison, audience, markdown, generationStatus, generation := None, None, [], None, NoStatus, None;
    }

    /** Applies one subscribed event; the other events have no handler. */
    method On(e: Event)
      modifies this
      ensures State() == Project(old(State()), e)
    {
      match e
      case Opened(t, c, a) =>
        title, comparison, audience, markdown := t, c, a, Some(NO_BYTES);
        generationStatus, generation := NoStatus, None;
      case GenerationRequested(g, _, _, _, _, _, _) =>
        generation, generationStatus := g, StatusRequested;
      case InputsChanged(c, a, m) =>
        comparison, audience, markdown := c, a, m;
        generationStatus := StatusInputsChanged;
      case Edited(m) =>
        markdown, generationStatus := m, StatusEdited;
      case Staged(g, m) =>
        markdown, generationStatus, generation := m, StatusStaged, g;
      case StatusChanged(g, reason) =>
        generation, generationStatus := g, StatusFailed(reason);
      case Canceled(g) =>
        generation, generationStatus := g, StatusCanceled;
      case AlreadyRequested(_, _) | CancelIgnored(_) | ExportPrepared(_, _) | ProposalDiscarded(_) =>
    }
  }
}

/**
  Runs of a draft with its agent.  Replies may be delivered late, repeatedly, in any order or
  never; commands are arbitrary.  The version never decreases, grows on every change of the
  draft and is constant inside a handler.
  */
module ReleaseRuns {
  import opened Options
  import opened Text
  import opened ReleaseMessages
  import opened ReleaseDecisions
  import opened ReleaseProjection

  datatype System = System(draft: Draft, version: Version, log: seq<Event>, replies: set<Reply>)

  datatype Step =
    | Submit(command: Command, next: Version)
    | Invoke(position: nat, result: Result) // the agent handles the event at this log position
    | Deliver(reply: Reply, next: Version)

  const START := System(NEW_DRAFT, Version(0, 0), [], {})

  /** A commit needs a publishable event, keeps the version of an unchanged draft and raises it otherwise. */
  ghost predicate Commits(sys: System, r: (Draft, Outcome), next: Version) {
    && (r.1.Emitted? ==> Publishable(r.1.event))
    && ((next == sys.version && r.0 == sys.draft) || next.number > sys.version.number)
  }

  ghost predicate Enabled(sys: System, step: Step) {
    && Decodable(sys.draft)
    && match step
       case Submit(c, next) => Commits(sys, Decide(sys.draft, sys.version, c), next)
       case Invoke(i, _) => i < |sys.log| && sys.log[i].GenerationRequested?
       case Deliver(reply, next) => reply in sys.replies && Commits(sys, Admit(sys.draft, reply), next)
  }

  ghost function Committed(sys: System, r: (Draft, Outcome), next: Version): System {
    sys.(draft := r.0, version := next, log := if r.1.Emitted? then sys.log + [r.1.event] else sys.log)
  }

  ghost function Apply(sys: System, step: Step): System
    requires Enabled(sys, step)
  {
    match step
    case Submit(c, next) => Committed(sys, Decide(sys.draft, sys.version, c), next)
    case Deliver(reply, next) => Committed(sys, Admit(sys.draft, reply), next)
    case Invoke(i, result) =>
      var reply := AgentReply(sys.log[i], result);
      if reply.None? then sys else sys.(replies := sys.replies + {reply.value})
  }

  /** A run from the start; `trace` lists the states it passes through. */
  ghost predicate Run(trace: seq<System>, steps: seq<Step>) {
    && |trace| == |steps| + 1
    && trace[0] == START
    && forall i :: 0 <= i < |steps| ==> Enabled(trace[i], steps[i]) && trace[i + 1] == Apply(trace[i], steps[i])
  }

  // ----- What every step keeps -----

  /** The event ends generation `g`. */
  ghost predicate EndsGeneration(e: Event, g: GenerationId) {
    (e.Staged? || e.StatusChanged? || e.Canceled?) && e.generation == Some(g)
  }

  ghost predicate Starts(e: Event, g: Option<GenerationId>) {
    e.GenerationRequested? && e.generation == g
  }

  /** The snapshot a request event carries is the draft's own. */
  ghost predicate Snapshot(e: Event, d: Draft)
    requires Decodable(d)
  {
    && e.GenerationRequested?
    && e.comparison == d.comparison && e.audience == d.audience && e.title == d.title
    && e.currentMarkdownText == MarkdownText(d)
  }

  ghost predicate UniqueReceipts(receipts: seq<Receipt>) {
    forall i, j :: 0 <= i < j < |receipts| ==> receipts[i].generation != receipts[j].generation
  }

  ghost predicate Holds(receipts: seq<Receipt>, g: Option<GenerationId>) {
    exists r :: r in receipts && r.generation == g
  }

  /** Each generation starts once and ends at most once, with a receipt kept for each start. */
  ghost predicate Outcomes(sys: System) {
    && UniqueReceipts(sys.draft.receipts)
    && (forall i :: 0 <= i < |sys.log| && sys.log[i].GenerationRequested? ==>
          sys.log[i].generation == sys.log[i].request.generation &&
          Receipt(sys.log[i].generation, sys.log[i].request) in sys.draft.receipts)
    && (forall i, j :: 0 <= i < j < |sys.log| && sys.log[i].GenerationRequested? && sys.log[j].GenerationRequested? ==>
          sys.log[i].generation != sys.log[j].generation)
    && (forall i, g: GenerationId :: 0 <= i < |sys.log| && EndsGeneration(sys.log[i], g) ==>
          Holds(sys.draft.receipts, Some(g)) && sys.draft.pendingGeneration != Some(g))
    && (forall i, j, g: GenerationId :: 0 <= i < j < |sys.log| && EndsGeneration(sys.log[i], g) ==> !EndsGeneration(sys.log[j], g))
  }

  /** While a generation is pending, its request event still describes the draft. */
  ghost predicate Pending(sys: System)
    requires Decodable(sys.draft)
  {
    && (sys.draft.pendingGeneration.Some? ==> sys.draft.pendingInputVersion.Some?)
    && (sys.draft.pendingInputVersion.Some? ==>
          exists i :: && 0 <= i < |sys.log| && Starts(sys.log[i], sys.draft.pendingGeneration)
                      && Some(sys.log[i].inputVersion) == sys.draft.pendingInputVersion
                      && Snapshot(sys.log[i], sys.draft))
  }

  ghost predicate Honest(sys: System) {
    forall r :: r in sys.replies ==>
      && r.generation.Some?
      && (r.Proposed? ==> r.document.Some?)
      && exists i :: && 0 <= i < |sys.log| && Starts(sys.log[i], r.generation)
                     && Some(sys.log[i].inputVersion) == r.inputVersion
  }

  /** What the projection shows of the draft. */
  ghost predicate Shows(v: View, d: Draft) {
    && v.title == d.title && v.comparison == d.comparison && v.audience == d.audience && v.markdown == d.markdown
    && v.generationStatus == d.generationStatus
    && (d.pendingGeneration.Some? ==> v.generation == d.pendingGeneration)
  }

  ghost predicate Unopened(sys: System) {
    sys.version.number == 0 ==>
      && sys.draft == NEW_DRAFT
      && (forall i :: 0 <= i < |sys.log| ==> !sys.log[i].GenerationRequested?)
      && (forall i, g: GenerationId :: 0 <= i < |sys.log| ==> !EndsGeneration(sys.log[i], g))
  }

  ghost predicate Invariant(sys: System) {
    Decodable(sys.draft) && Unopened(sys) && Outcomes(sys) && Pending(sys) && Honest(sys) && Shows(Fold(sys.log), sys.draft)
  }

  lemma FoldAppend(log: seq<Event>, e: Event)
    ensures Fold(log + [e]) == Project(Fold(log), e)
  {
    assert (log + [e])[..|log|] == log;
  }

  /** A log that grew keeps its request events where they were. */
  lemma GrownHonest(sys: System, sys': System)
    requires Honest(sys) && sys.log <= sys'.log && sys'.replies == sys.replies
    ensures Honest(sys')
  {
    forall r | r in sys'.replies
      ensures exists i :: && 0 <= i < |sys'.log| && Starts(sys'.log[i], r.generation)
                          && Some(sys'.log[i].inputVersion) == r.inputVersion
    {
      var i :| && 0 <= i < |sys.log| && Starts(sys.log[i], r.generation)
               && Some(sys.log[i].inputVersion) == r.inputVersion;
      assert sys'.log[i] == sys.log[i];
    }
  }

  /** A decision that neither starts nor ends anything. */
  lemma QuietOutcomes(sys: System, sys': System, extra: seq<Event>)
    requires Outcomes(sys) && sys'.log == sys.log + extra && |extra| <= 1
    requires sys'.draft.receipts == sys.draft.receipts
    requires sys'.draft.pendingGeneration in {None, sys.draft.pendingGeneration}
    requires forall e :: e in extra ==> !e.GenerationRequested? && forall g: GenerationId :: !EndsGeneration(e, g)
    ensures Outcomes(sys')
  {
    hide Holds, EndsGeneration, UniqueReceipts;
    assert forall i :: 0 <= i < |sys.log| ==> sys'.log[i] == sys.log[i];
    if extra != [] { assert sys'.log[|sys.log|] == extra[0] && extra[0] in extra; }
  }

  /** The event ending the pending generation. */
  lemma EndingOutcomes(sys: System, sys': System, e: Event)
    requires Outcomes(sys) && sys'.log == sys.log + [e] && sys'.draft.receipts == sys.draft.receipts
    requires sys'.draft.pendingGeneration == None && !e.GenerationRequested?
    requires e.Staged? || e.StatusChanged? || e.Canceled?
    requires e.generation == sys.draft.pendingGeneration
    requires sys.draft.pendingGeneration.Some? ==> Holds(sys.draft.receipts, sys.draft.pendingGeneration)
    ensures Outcomes(sys')
  {
    assert forall i :: 0 <= i < |sys.log| ==> sys'.log[i] == sys.log[i];
  }

  /** The event starting a generation that has no receipt yet. */
  lemma StartingOutcomes(sys: System, sys': System, e: Event)
    requires Outcomes(sys) && sys'.log == sys.log + [e] && e.GenerationRequested? && e.generation == e.request.generation
    requires sys'.draft.receipts == sys.draft.receipts + [Receipt(e.generation, e.request)]
    requires !Holds(sys.draft.receipts, e.generation) && sys'.draft.pendingGeneration == e.generation
    ensures Outcomes(sys')
  {
    assert forall i :: 0 <= i < |sys.log| ==> sys'.log[i] == sys.log[i];
    forall i | 0 <= i < |sys.draft.receipts| ensures sys.draft.receipts[i].generation != e.generation {
      assert sys.draft.receipts[i] in sys.draft.receipts;
    }
    forall i | 0 <= i < |sys.log| && sys.log[i].GenerationRequested? ensures sys.log[i].generation != e.generation {
      assert Receipt(sys.log[i].generation, sys.log[i].request) in sys.draft.receipts;
    }
  }

  lemma PendingHolds(sys: System)
    requires Invariant(sys) && sys.draft.pendingGeneration.Some?
    ensures Holds(sys.draft.receipts, sys.draft.pendingGeneration)
  {
    var i :| 0 <= i < |sys.log| && Starts(sys.log[i], sys.draft.pendingGeneration);
    assert Receipt(sys.log[i].generation, sys.log[i].request) in sys.draft.receipts;
  }

  /** If the draft stays as it is, so does the request event of its pending generation. */
  lemma PendingKept(sys: System, sys': System)
    requires Decodable(sys.draft) && Pending(sys) && sys.log <= sys'.log && sys'.draft == sys.draft
    ensures Pending(sys')
  {
    if sys.draft.pendingInputVersion.Some? {
      var i :| && 0 <= i < |sys.log| && Starts(sys.log[i], sys.draft.pendingGeneration)
               && Some(sys.log[i].inputVersion) == sys.draft.pendingInputVersion
               && Snapshot(sys.log[i], sys.draft);
      assert sys'.log[i] == sys.log[i];
    }
  }

  /** Every decision of the aggregate does one of four things. */
  datatype Effect = Nothing | Quiet | Begins | Ends

  ghost predicate Does(effect: Effect, d: Draft, v: Version, r: (Draft, Outcome)) {
    match effect
    case Nothing =>
      && r.0 == d
      && (r.1.Emitted? ==> r.1.event.AlreadyRequested? || r.1.event.CancelIgnored? || r.1.event.ExportPrepared?
                           || r.1.event.ProposalDiscarded?)
    case Quiet =>
      && r.0.pendingGeneration == None && r.0.pendingInputVersion == None
      && (r.0.receipts == d.receipts || (r.0.receipts == [] && v.number == 0))
      && r.1.Emitted? && (r.1.event.Opened? || r.1.event.InputsChanged? || r.1.event.Edited?)
    case Begins =>
      && r.1.Emitted? && r.1.event.GenerationRequested?
      && var e := r.1.event;
      && !Holds(d.receipts, e.generation) && e.inputVersion == v && e.generation == e.request.generation
      && r.0 == d.(pendingGeneration := e.generation, pendingInputVersion := Some(v), generationStatus := StatusRequested,
                   conversation := e.request.conversation, receipts := d.receipts + [Receipt(e.generation, e.request)])
      && Decodable(r.0) && Snapshot(e, r.0)
    case Ends =>
      && r.0.pendingGeneration == None && r.0.pendingInputVersion == None && r.0.receipts == d.receipts
      && r.1.Emitted? && (r.1.event.Staged? || r.1.event.StatusChanged? || r.1.event.Canceled?)
      && r.1.event.generation == d.pendingGeneration
  }

  lemma DecideEffect(d: Draft, v: Version, c: Command) returns (effect: Effect)
    requires Decodable(d)
    ensures Does(effect, d, v, Decide(d, v, c))
  {
    var r := Decide(d, v, c);
    if r.1.Rejected? || r.1.event.AlreadyRequested? || r.1.event.CancelIgnored? || r.1.event.ExportPrepared? {
      effect := Nothing;
    } else if r.1.event.GenerationRequested? {
      effect := Begins;
    } else if r.1.event.Canceled? {
      effect := Ends;
    } else {
      effect := Quiet;
    }
  }

  lemma AdmitEffect(d: Draft, v: Version, reply: Reply) returns (effect: Effect)
    requires Decodable(d)
    ensures Does(effect, d, v, Admit(d, reply))
  {
    var r := Admit(d, reply);
    effect := if r.1.Silent? || r.1.event.ProposalDiscarded? then Nothing else Ends;
  }

  lemma OutcomesKept(sys: System, r: (Draft, Outcome), next: Version, effect: Effect)
    requires Invariant(sys) && Does(effect, sys.draft, sys.version, r)
    ensures Outcomes(Committed(sys, r, next))
  {
    var sys' := Committed(sys, r, next);
    if sys.draft.pendingGeneration.Some? { PendingHolds(sys); }
    match effect
    case Nothing => QuietOutcomes(sys, sys', if r.1.Emitted? then [r.1.event] else []);
    case Quiet => QuietOutcomes(sys, sys', [r.1.event]);
    case Begins => StartingOutcomes(sys, sys', r.1.event);
    case Ends => EndingOutcomes(sys, sys', r.1.event);
  }

  lemma PendingAfter(sys: System, r: (Draft, Outcome), next: Version, effect: Effect)
    requires Invariant(sys) && Does(effect, sys.draft, sys.version, r) && Decodable(r.0)
    ensures Pending(Committed(sys, r, next))
  {
    var sys' := Committed(sys, r, next);
    if effect.Nothing? {
      PendingKept(sys, sys');
    } else if effect.Begins? {
      assert sys'.log[|sys.log|] == r.1.event;
    }
  }

  lemma CommittedKeeps(sys: System, r: (Draft, Outcome), next: Version, effect: Effect)
    requires Invariant(sys) && Does(effect, sys.draft, sys.version, r) && Decodable(r.0) && Commits(sys, r, next)
    requires Shows(Fold(Committed(sys, r, next).log), r.0)
    ensures Invariant(Committed(sys, r, next))
  {
    hide Outcomes, Pending, Honest, Shows, Does, Unopened, Commits;
    OutcomesKept(sys, r, next, effect);
    PendingAfter(sys, r, next, effect);
    GrownHonest(sys, Committed(sys, r, next));
    UnopenedAfter(sys, r, next, effect);
  }

  lemma UnopenedAfter(sys: System, r: (Draft, Outcome), next: Version, effect: Effect)
    requires Unopened(sys) && Does(effect, sys.draft, sys.version, r) && Commits(sys, r, next)
    ensures Unopened(Committed(sys, r, next))
  {
    var sys' := Committed(sys, r, next);
    if next.number == 0 {
      assert r.0 == sys.draft && sys.version.number == 0;
      forall i, g: GenerationId | 0 <= i < |sys'.log|
        ensures !sys'.log[i].GenerationRequested? && !EndsGeneration(sys'.log[i], g)
      {
        if i < |sys.log| { assert sys'.log[i] == sys.log[i]; }
      }
    }
  }

  ghost predicate ShowsAfter(view: View, r: (Draft, Outcome)) {
    Shows(if r.1.Emitted? then Project(view, r.1.event) else view, r.0)
  }

  lemma DecideShows(d: Draft, v: Version, c: Command, view: View)
    requires Decodable(d) && Shows(view, d)
    ensures ShowsAfter(view, Decide(d, v, c))
  {
  }

  lemma AdmitShows(d: Draft, reply: Reply, view: View)
    requires Decodable(d) && Shows(view, d)
    ensures ShowsAfter(view, Admit(d, reply))
  {
  }

  lemma ShownAfterDecide(sys: System, c: Command, next: Version)
    requires Invariant(sys)
    ensures var r := Decide(sys.draft, sys.version, c); Shows(Fold(Committed(sys, r, next).log), r.0)
  {
    hide Decide, Shows, Project, Fold, Outcomes, Pending, Honest, Unopened, Decodable;
    var r := Decide(sys.draft, sys.version, c);
    DecideShows(sys.draft, sys.version, c, Fold(sys.log));
    if r.1.Emitted? { FoldAppend(sys.log, r.1.event); }
  }

  lemma ShownAfterAdmit(sys: System, reply: Reply, next: Version)
    requires Invariant(sys)
    ensures var r := Admit(sys.draft, reply); Shows(Fold(Committed(sys, r, next).log), r.0)
  {
    hide Admit, Shows, Project, Fold, Outcomes, Pending, Honest, Unopened, Decodable;
    var r := Admit(sys.draft, reply);
    AdmitShows(sys.draft, reply, Fold(sys.log));
    if r.1.Emitted? { FoldAppend(sys.log, r.1.event); }
  }

  lemma StepKeeps(sys: System, step: Step)
    requires Invariant(sys) && Enabled(sys, step)
    ensures Invariant(Apply(sys, step))
  {
    match step
    case Submit(c, next) =>
      var effect := DecideEffect(sys.draft, sys.version, c);
      ShownAfterDecide(sys, c, next);
      CommittedKeeps(sys, Decide(sys.draft, sys.version, c), next, effect);
    case Deliver(reply, next) =>
      var effect := AdmitEffect(sys.draft, sys.version, reply);
      ShownAfterAdmit(sys, reply, next);
      CommittedKeeps(sys, Admit(sys.draft, reply), next, effect);
    case Invoke(i, result) =>
      var sys' := Apply(sys, step);
      assert Starts(sys.log[i], sys.log[i].generation);
      PendingKept(sys, sys');
  }

  // ----- What holds of every run -----

  lemma {:induction false} RunKeeps(trace: seq<System>, steps: seq<Step>, k: nat)
    requires Run(trace, steps) && k < |trace|
    ensures Invariant(trace[k])
  {
    if k > 0 {
      RunKeeps(trace, steps, k - 1);
      StepKeeps(trace[k - 1], steps[k - 1]);
    }
  }

  /** No generation is staged, failed or canceled twice, whatever is duplicated or reordered. */
  lemma AtMostOneOutcome(trace: seq<System>, steps: seq<Step>, k: nat, i: nat, j: nat, g: GenerationId)
    requires Run(trace, steps) && k < |trace| && i < |trace[k].log| && j < |trace[k].log|
    requires EndsGeneration(trace[k].log[i], g) && EndsGeneration(trace[k].log[j], g)
    ensures i == j
  {
    RunKeeps(trace, steps, k);
  }

  lemma InvariantReceipts(sys: System)
    requires Invariant(sys)
    ensures UniqueReceipts(sys.draft.receipts)
  {
  }

  lemma StepReceipts(sys: System, step: Step)
    requires Invariant(sys) && Enabled(sys, step)
    ensures sys.draft.receipts <= Apply(sys, step).draft.receipts
  {
    match step
    case Submit(c, next) => var _ := DecideEffect(sys.draft, sys.version, c);
    case Deliver(reply, next) => var _ := AdmitEffect(sys.draft, sys.version, reply);
    case Invoke(_, _) =>
  }

  /** Receipts only grow at the end and never repeat a generation. */
  lemma ReceiptsAppendOnly(trace: seq<System>, steps: seq<Step>, j: nat, k: nat)
    requires Run(trace, steps) && j <= k < |trace|
    ensures trace[j].draft.receipts <= trace[k].draft.receipts
    ensures UniqueReceipts(trace[k].draft.receipts)
    decreases k - j
  {
    hide Invariant, Outcomes, Apply, Enabled;
    RunKeeps(trace, steps, k);
    InvariantReceipts(trace[k]);
    if j < k {
      RunKeeps(trace, steps, k - 1);
      ReceiptsAppendOnly(trace, steps, j, k - 1);
      StepReceipts(trace[k - 1], steps[k - 1]);
    }
  }

  lemma UniqueFind(receipts: seq<Receipt>, r: Receipt)
    requires UniqueReceipts(receipts) && r in receipts
    ensures FindReceipt(receipts, r.generation) == Some(r)
  {
    var found := FindReceipt(receipts, r.generation);
    var i :| 0 <= i < |receipts| && receipts[i] == r;
    var j :| 0 <= j < |receipts| && receipts[j] == found.value;
  }

  lemma LogGrows(trace: seq<System>, steps: seq<Step>, j: nat, k: nat)
    requires Run(trace, steps) && j <= k < |trace|
    ensures trace[j].log <= trace[k].log
    decreases k - j
  {
    if j < k {
      LogGrows(trace, steps, j, k - 1);
    }
  }

  /** Once accepted, a request replayed at any later time is acknowledged and changes nothing. */
  lemma ReplayChangesNothing(trace: seq<System>, steps: seq<Step>, j: nat, k: nat, i: nat)
    requires Run(trace, steps) && j <= k < |trace|
    requires i < |trace[j].log| && trace[j].log[i].GenerationRequested?
    ensures Decodable(trace[k].draft)
    ensures var request := trace[j].log[i].request;
            Decide(trace[k].draft, trace[k].version, RequestGeneration(request))
            == (trace[k].draft, Emitted(AlreadyRequested(request.generation, request)))
  {
    RunKeeps(trace, steps, k);
    LogGrows(trace, steps, j, k);
    var e := trace[k].log[i];
    UniqueFind(trace[k].draft.receipts, Receipt(e.generation, e.request));
  }

  /**
    A proposal is staged only over the inputs its request was sent with: the Markdown it
    replaces, the comparison, the audience and the title are those of the request event.  The staged
    Markdown is the proposal rendered under the title the request carried.
    */
  lemma StagedMatchesItsRequest(trace: seq<System>, steps: seq<Step>, k: nat, reply: Reply)
    requires Run(trace, steps) && k < |trace| && Decodable(trace[k].draft)
    requires var r := Admit(trace[k].draft, reply); r.1.Emitted? && r.1.event.Staged?
    ensures reply.Proposed? && reply.document.Some?
    ensures exists i :: && 0 <= i < |trace[k].log| && Starts(trace[k].log[i], reply.generation)
                        && Some(trace[k].log[i].inputVersion) == reply.inputVersion
                        && Snapshot(trace[k].log[i], trace[k].draft)
                        && trace[k].log[i].title.Some?
                        && Admit(trace[k].draft, reply).0.markdown
                           == Some(Render(trace[k].log[i].title.value, reply.document.value))
    ensures var d := Admit(trace[k].draft, reply).0;
            d.comparison == trace[k].draft.comparison && d.audience == trace[k].draft.audience
  {
    RunKeeps(trace, steps, k);
  }

  /** The fields no published event lacks. */
  lemma PublishedFields(e: Event)
    requires Publishable(e)
    ensures (e.GenerationRequested? || e.AlreadyRequested? || e.Canceled? || e.CancelIgnored? || e.Staged? ||
             e.ProposalDiscarded? || e.StatusChanged?) ==> e.generation.Some?
    ensures e.Opened? || e.InputsChanged? || e.GenerationRequested? ==>
              && e.audience != [] && e.comparison.Some? && e.comparison.value.repository.Some?
              && e.comparison.value.base.Some? && e.comparison.value.target.Some? && e.comparison.value.policy != 0
    ensures e.Opened? || e.GenerationRequested? ==> e.title.Some? && e.title.value != []
    ensures e.GenerationRequested? ==> e.request.conversation.Some?
  {
  }

  /** Everything in the log could be published. */
  lemma {:induction false} LoggedIsPublishable(trace: seq<System>, steps: seq<Step>, k: nat, i: nat)
    requires Run(trace, steps) && k < |trace| && i < |trace[k].log|
    ensures Publishable(trace[k].log[i])
  {
    hide Publishable, Decide, Admit;
    if i < |trace[k - 1].log| {
      LogGrows(trace, steps, k - 1, k);
      LoggedIsPublishable(trace, steps, k - 1, i);
    } else {
      LogStep(trace[k - 1], steps[k - 1]);
    }
  }

  lemma LogStep(sys: System, step: Step)
    requires Enabled(sys, step)
    ensures |sys.log| <= |Apply(sys, step).log| <= |sys.log| + 1
    ensures forall i :: |sys.log| <= i < |Apply(sys, step).log| ==> Publishable(Apply(sys, step).log[i])
  {
    hide Publishable, Decide, Admit;
  }

  /**
    An honest reply for the pending generation is never discarded: a failure is recorded and a
    proposal is staged, and either decision can be published.
    */
  lemma HonestReplyAdmitted(trace: seq<System>, steps: seq<Step>, k: nat, reply: Reply)
    requires Run(trace, steps) && k < |trace| && reply in trace[k].replies
    requires reply.generation == trace[k].draft.pendingGeneration
    ensures Decodable(trace[k].draft)
    ensures var r := Admit(trace[k].draft, reply);
            && r.1.Emitted? && Publishable(r.1.event)
            && (if reply.Proposed? then r.1.event.Staged? else r.1.event.StatusChanged?)
  {
    RunKeeps(trace, steps, k);
    var sys := trace[k];
    var i :| && 0 <= i < |sys.log| && Starts(sys.log[i], reply.generation)
             && Some(sys.log[i].inputVersion) == reply.inputVersion;
    var j :| && 0 <= j < |sys.log| && Starts(sys.log[j], sys.draft.pendingGeneration)
             && Some(sys.log[j].inputVersion) == sys.draft.pendingInputVersion && Snapshot(sys.log[j], sys.draft);
    assert i == j;
    LoggedIsPublishable(trace, steps, k, j);
  }

  /** The events that tell of a change of what the draft says. */
  predicate ChangesContent(e: Event) {
    e.Opened? || e.InputsChanged? || e.Edited? || e.Staged?
  }

  function Content(d: Draft): (Option<Text>, Option<Comparison>, Text, Option<Bytes>) {
    (d.title, d.comparison, d.audience, d.markdown)
  }

  lemma StepContent(sys: System, step: Step)
    requires Enabled(sys, step)
    requires forall i :: |sys.log| <= i < |Apply(sys, step).log| ==> !ChangesContent(Apply(sys, step).log[i])
    ensures Content(Apply(sys, step).draft) == Content(sys.draft)
  {
    var sys' := Apply(sys, step);
    if |sys'.log| > |sys.log| {
      assert !ChangesContent(sys'.log[|sys.log|]);
    }
  }

  /**
    Between two moments without an opening, input change, edit or staged proposal the draft says
    the same: requests, replays, cancellations, failures, discarded proposals, rejections and
    exports never touch its content.
    */
  lemma {:induction false} ContentOnlyByItsEvents(trace: seq<System>, steps: seq<Step>, j: nat, k: nat)
    requires Run(trace, steps) && j <= k < |trace|
    requires forall i :: |trace[j].log| <= i < |trace[k].log| ==> !ChangesContent(trace[k].log[i])
    ensures Content(trace[k].draft) == Content(trace[j].draft)
    decreases k - j
  {
    hide Decide, Admit, Content, ChangesContent, Publishable, AgentReply;
    if j < k {
      LogGrows(trace, steps, j, k - 1);
      LogGrows(trace, steps, k - 1, k);
      ContentOnlyByItsEvents(trace, steps, j, k - 1);
      StepContent(trace[k - 1], steps[k - 1]);
    }
  }

  /** The projection that has handled every event shows the draft as it is. */
  lemma ProjectionTracks(trace: seq<System>, steps: seq<Step>, k: nat)
    requires Run(trace, steps) && k < |trace|
    ensures Shows(Fold(trace[k].log), trace[k].draft)
  {
    RunKeeps(trace, steps, k);
  }

  /** A projection that has handled only some of the events shows the draft as it was at some moment. */
  lemma {:induction false} LaggingProjection(trace: seq<System>, steps: seq<Step>, k: nat, handled: nat)
    requires Run(trace, steps) && k < |trace| && handled <= |trace[k].log|
    ensures exists j :: 0 <= j <= k && Shows(Fold(trace[k].log[..handled]), trace[j].draft)
  {
    if handled == |trace[k].log| {
      ProjectionTracks(trace, steps, k);
      assert trace[k].log[..handled] == trace[k].log;
    } else {
      LogGrows(trace, steps, k - 1, k);
      assert |trace[k].log| <= |trace[k - 1].log| + 1;
      assert trace[k].log[..handled] == trace[k - 1].log[..handled];
      LaggingProjection(trace, steps, k - 1, handled);
    }
  }

  /** Such a run exists: a draft is opened, a generation requested, answered and staged. */
  lemma ProposalGetsStaged(document: Document) returns (trace: seq<System>, steps: seq<Step>)
    ensures Run(trace, steps) && |trace| == 5
    ensures |trace[4].log| == 3 && trace[4].log[2] == Staged(Some(1), trace[4].draft.markdown)
  {
    var comparison := Some(Comparison(Some(0), Some(1), Some(2), 1));
    var request := Request(Some(1), Some(Version(1, 0)), 0, 0, Some(0), 0);
    var reply := Proposed(Some(1), Some(Version(1, 0)), Some(document));
    steps := [Submit(Open(Some([65]), comparison, [66]), Version(1, 0)), Submit(RequestGeneration(request), Version(2, 0)),
              Invoke(1, Success(document)), Deliver(reply, Version(3, 0))];
    var ready := Apply(START, steps[0]);
    var requested := Apply(ready, steps[1]);
    var answered := Apply(requested, steps[2]);
    trace := [START, ready, requested, answered, Apply(answered, steps[3])];
  }
}
