/** The editor's save loop, cut at its awaits, and the requests each piece sends. */
module MarkdownEditor {
  import opened Options
  import opened Text
  import opened ReleaseMessages

  /** A draft as the server reported it. */
  datatype Confirmed = Confirmed(version: Version, markdown: Bytes)

  /** Where the running save waits; `waiting` saves are chained behind it. */
  datatype Phase = Idle | Reconciling | Editing(snapshot: Text, before: Confirmed)

  datatype Editor = Editor(record: Option<Confirmed>, buffer: Text, uncertain: bool, phase: Phase, waiting: nat)

  datatype Request = NoRequest | ReadDraft | SendEdit(expected: Version, markdown: Bytes)

  predicate Unsaved(e: Editor) {
    e.record.Some? && Decode(e.record.value.markdown) != Some(e.buffer)
  }

  /** The loop test: another edit while the confirmed Markdown differs from the buffer. */
  function LoopTest(e: Editor): (Editor, Request) {
    if Unsaved(e) then
      (e.(phase := Editing(e.buffer, e.record.value)), SendEdit(e.record.value.version, Encode(e.buffer)))
    else (e.(phase := Idle), NoRequest)
  }

  /** The next chained save starts; after an uncertain failure it reads the draft first. */
  function StartSave(e: Editor): (Editor, Request)
    requires e.phase.Idle? && e.waiting > 0
  {
    var e' := e.(waiting := e.waiting - 1);
    if e.uncertain && e.record.Some? then (e'.(phase := Reconciling), ReadDraft) else LoopTest(e')
  }

  function Reconciled(e: Editor, latest: Confirmed): Editor {
    e.(record := Some(latest), uncertain := false)
  }

  class MarkdownSaver {
    var record: Option<Confirmed>
    var buffer: Text
    var uncertain: bool
    var phase: Phase
    var waiting: nat

    ghost function State(): Editor
      reads this
    {
      Editor(record, buffer, uncertain, phase, waiting)
    }

    constructor (record: Option<Confirmed>, buffer: Text)
      ensures State() == Editor(record, buffer, false, Idle, 0)
    {
      this.record, this.buffer, uncertain, phase, waiting := record, buffer, false, Idle, 0;
    }

    method Change(value: Text)
      modifies this
      ensures State() == old(State()).(buffer := value)
    {
      buffer := value;
    }

    /** Chains one more save behind the pending one. */
    method Flush()
      modifies this
      ensures State() == old(State()).(waiting := old(waiting) + 1)
    {
      waiting := waiting + 1;
    }

    method Test() returns (r: Request)
      modifies this
      ensures (State(), r) == LoopTest(old(State()))
    {
      if record.Some? && Decode(record.value.markdown) != Some(buffer) {
        phase := Editing(buffer, record.value);
        return SendEdit(record.value.version, Encode(buffer));
      }
      phase := Idle;
      return NoRequest;
    }

    method Start() returns (r: Request)
      requires phase.Idle? && waiting > 0
      modifies this
      ensures (State(), r) == StartSave(old(State()))
    {
      waiting := waiting - 1;
      if uncertain && record.Some? {
        phase := Reconciling;
        return ReadDraft;
      }
      r := Test();
    }

    method OnReconciled(latest: Confirmed) returns (r: Request)
      requires phase.Reconciling?
      modifies this
      ensures (State(), r) == LoopTest(Reconciled(old(State()), latest))
    {
      record := Some(latest);
      uncertain := false;
      r := Test();
    }

    /** A failed re-read ends the save; the flush handler reads again while uncertain. */
    method OnReconcileFailed() returns (r: Request)
      requires phase.Reconciling?
      modifies this
      ensures State() == old(State()).(phase := Idle)
      ensures r == if uncertain && record.Some? then ReadDraft else NoRequest
    {
      phase := Idle;
      return if uncertain && record.Some? then ReadDraft else NoRequest;
    }

    method OnEdited(after: Confirmed) returns (r: Request)
      requires phase.Editing?
      modifies this
      ensures (State(), r) == LoopTest(old(State()).(record := Some(after)))
    {
      record := Some(after);
      r := Test();
    }

    /** A failed edit leaves the version uncertain; the flush handler re-reads in the background. */
    method OnEditFailed() returns (r: Request)
      requires phase.Editing?
      modifies this
      ensures State() == old(State()).(phase := Idle, uncertain := true)
      ensures r == if record.Some? then ReadDraft else NoRequest
    {
      uncertain := true;
      phase := Idle;
      return if record.Some? then ReadDraft else NoRequest;
    }

    /** A failed export marks the version uncertain and asks for a background read. */
    method OnExportFailed() returns (r: Request)
      modifies this
      ensures State() == old(State()).(uncertain := true)
      ensures r == if record.Some? then ReadDraft else NoRequest
    {
      uncertain := true;
      return if record.Some? then ReadDraft else NoRequest;
    }

    method OnBackgroundReconciled(latest: Confirmed)
      modifies this
      ensures State() == Reconciled(old(State()), latest)
    {
      record := Some(latest);
      uncertain := false;
    }
  }

  // ----- When a save completes -----

  ghost function AfterReplies(e: Editor, versions: seq<Version>): Editor
    requires e.phase.Editing?
  {
    if versions == [] then e
    else
      var e' := AfterReplies(e, versions[..|versions| - 1]);
      if !e'.phase.Editing? then e'
      else LoopTest(e'.(record := Some(Confirmed(versions[|versions| - 1], Encode(e'.phase.snapshot))))).0
  }

  /**
    With nobody typing and every edit accepted, the first reply completes the save exactly when
    the buffer has no lone surrogate and does not start with a byte order mark.
    */
  lemma AcceptedSaveCompletes(e: Editor, v: Version)
    requires e.phase.Editing? && e.phase.snapshot == e.buffer
    ensures AfterReplies(e, [v]).phase.Idle? <==> Encodable(e.buffer)
  {
    RoundTrip(e.buffer);
    assert [v][..0] == [];
    assert AfterReplies(e, []) == e;
  }

  /** Otherwise the save sends the same edit for ever, whatever number of them is accepted. */
  lemma {:induction false} UnencodableNeverSaved(e: Editor, versions: seq<Version>)
    requires e.phase.Editing? && e.phase.snapshot == e.buffer
    requires !Encodable(e.buffer)
    ensures var e' := AfterReplies(e, versions); e'.phase.Editing? && e'.phase.snapshot == e'.buffer == e.buffer
  {
    if versions != [] {
      UnencodableNeverSaved(e, versions[..|versions| - 1]);
      RoundTrip(e.buffer);
    }
  }
}

/**
  The editor together with the aggregate that decides its edits.  Replies may be lost after the
  edit committed, an edit given up by its caller may still commit later, reads may answer in any
  order, the user types at any time and others change the draft.
  */
module MarkdownSaveRuns {
  import opened Options
  import opened Text
  import opened ReleaseMessages
  import opened ReleaseDecisions
  import opened MarkdownEditor

  /** A read in flight: how many edits had failed when it started, and the server's answer. */
  datatype Read = Read(since: nat, answer: Option<Confirmed>)

  /** What became of the awaited edit at the server. */
  datatype Fate = Sent | Accepted(after: Confirmed) | Refused

  datatype System = System(
    draft: Draft, version: Version, // the server
    editor: Editor,
    fate: Fate, // of the awaited edit, while the editor is in phase Editing
    awaited: Read, // while the editor is in phase Reconciling
    background: seq<Read>,
    abandoned: seq<Phase>, // edits whose caller has given up
    failures: nat, // edits that failed for the editor so far
    recordSince: nat // failures known when the read or edit that produced the record was started
  )

  datatype Step =
    | Type(text: Text)
    | Flush
    | Start
    | Reconcile // a failed export marks the version uncertain and reads the draft again
    | AnswerRead(index: nat) // the server answers a background read
    | AnswerAwaited // the server answers the save's own read
    | BackgroundReply(index: nat)
    | BackgroundLost(index: nat)
    | ReconcileReply
    | ReconcileLost
    | ProcessEdit(next: Version)
    | ProcessAbandoned(index: nat, next: Version)
    | EditReply
    | EditFails
    | OthersCommit(draft: Draft, next: Version)

  ghost function Current(sys: System): Confirmed
    requires sys.draft.markdown.Some?
  {
    Confirmed(sys.version, sys.draft.markdown.value)
  }

  /** The command sent for an edit of this phase. */
  ghost function EditOf(p: Phase): Command
    requires p.Editing?
  {
    Edit(Some(p.before.version), Some(Encode(p.snapshot)))
  }

  ghost predicate Ready(sys: System) {
    Decodable(sys.draft) && sys.draft.markdown.Some?
  }

  ghost predicate Enabled(sys: System, step: Step) {
    && Ready(sys)
    && match step
       case Type(_) | Flush | Reconcile => true
       case Start => sys.editor.phase.Idle? && sys.editor.waiting > 0
       case AnswerRead(i) => i < |sys.background| && sys.background[i].answer.None?
       case AnswerAwaited => sys.editor.phase.Reconciling? && sys.awaited.answer.None?
       case BackgroundReply(i) => i < |sys.background| && sys.background[i].answer.Some?
       case BackgroundLost(i) => i < |sys.background|
       case ReconcileReply => sys.editor.phase.Reconciling? && sys.awaited.answer.Some?
       case ReconcileLost => sys.editor.phase.Reconciling?
       case ProcessEdit(next) => sys.editor.phase.Editing? && sys.fate.Sent? && next.number > sys.version.number
       case ProcessAbandoned(i, next) =>
         i < |sys.abandoned| && sys.abandoned[i].Editing? && next.number > sys.version.number
       case EditReply => sys.editor.phase.Editing? && sys.fate.Accepted?
       case EditFails => sys.editor.phase.Editing?
       case OthersCommit(draft, next) =>
         && Decodable(draft) && draft.markdown.Some?
         && (next.number > sys.version.number || (next == sys.version && draft == sys.draft))
  }

  /** The server decides an edit; the version advances when it commits. */
  ghost function ServerAfter(sys: System, c: Command, next: Version): System
    requires Ready(sys)
  {
    var (draft, r) := Decide(sys.draft, sys.version, c);
    if r.Emitted? then sys.(draft := draft, version := next) else sys
  }

  /** Takes up the request a piece of the save sends. */
  ghost function Sending(sys: System, er: (Editor, MarkdownEditor.Request)): System {
    var sys' := sys.(editor := er.0);
    match er.1
    case NoRequest => sys'
    case ReadDraft => sys'.(awaited := Read(sys.failures, None))
    case SendEdit(_, _) => sys'.(fate := Sent)
  }

  /**
    An edit is sent exactly while the confirmed Markdown does not decode to the buffer; it carries
    the confirmed version and the encoded buffer, and it is the command the server will decide.
    */
  lemma SentIsDecided(e: Editor)
    ensures var (e', r) := LoopTest(e);
            && e' == e.(phase := e'.phase) && r != ReadDraft
            && (r == NoRequest <==> e.record == None || Decode(e.record.value.markdown) == Some(e.buffer))
            && (r == NoRequest ==> e'.phase == Phase.Idle)
            && (r != NoRequest ==>
                  && e'.phase == Editing(e.buffer, e.record.value)
                  && r == SendEdit(e.record.value.version, Encode(e.buffer))
                  && EditOf(e'.phase) == Edit(Some(r.expected), Some(r.markdown)))
  {
  }

  /** A save that starts while the version is uncertain only reads; otherwise it begins with the loop test. */
  lemma StartReadsFirst(e: Editor)
    requires e.phase == Phase.Idle && e.waiting > 0
    ensures var (e', r) := StartSave(e);
            && e' == e.(phase := e'.phase, waiting := e.waiting - 1)
            && (r == ReadDraft <==> e.uncertain && e.record.Some?) && (r == ReadDraft <==> e'.phase == Reconciling)
            && (r.SendEdit? <==> !e.uncertain && e.record.Some? && Decode(e.record.value.markdown) != Some(e.buffer))
            && (r.SendEdit? ==> r.expected == e.record.value.version && r.markdown == Encode(e.buffer))
            && (r == NoRequest ==> e'.phase == Phase.Idle)
  {
    SentIsDecided(e.(waiting := e.waiting - 1));
  }

  function Dropped<T>(s: seq<T>, i: nat): seq<T>
    requires i < |s|
  {
    s[..i] + s[i + 1..]
  }

  /** The handler of a failed save or export reads in the background while the version is uncertain. */
  ghost function Handled(sys: System): System {
    if sys.editor.uncertain && sys.editor.record.Some? then sys.(background := sys.background + [Read(sys.failures, None)])
    else sys
  }

  ghost function Apply(sys: System, step: Step): System
    requires Enabled(sys, step)
  {
    var e := sys.editor;
    match step
    case Type(text) => sys.(editor := e.(buffer := text))
    case Flush => sys.(editor := e.(waiting := e.waiting + 1))
    case Start => Sending(sys, StartSave(e))
    case Reconcile => Handled(sys.(editor := e.(uncertain := true)))
    case AnswerRead(i) => sys.(background := sys.background[i := sys.background[i].(answer := Some(Current(sys)))])
    case AnswerAwaited => sys.(awaited := sys.awaited.(answer := Some(Current(sys))))
    case BackgroundReply(i) =>
      sys.(editor := Reconciled(e, sys.background[i].answer.value), recordSince := sys.background[i].since,
           background := Dropped(sys.background, i))
    case BackgroundLost(i) => sys.(background := Dropped(sys.background, i))
    case ReconcileReply =>
      Sending(sys.(recordSince := sys.awaited.since), LoopTest(Reconciled(e, sys.awaited.answer.value)))
    case ReconcileLost => Handled(sys.(editor := e.(phase := Idle)))
    case ProcessEdit(next) =>
      if Decide(sys.draft, sys.version, EditOf(e.phase)).1.Emitted? then
        var sys' := ServerAfter(sys, EditOf(e.phase), next);
        sys'.(fate := Accepted(Confirmed(next, Encode(e.phase.snapshot))))
      else sys.(fate := Refused)
    case ProcessAbandoned(i, next) =>
      ServerAfter(sys, EditOf(sys.abandoned[i]), next).(abandoned := Dropped(sys.abandoned, i))
    case EditReply => Sending(sys.(recordSince := sys.failures), LoopTest(e.(record := Some(sys.fate.after))))
    case EditFails =>
      Handled(sys.(editor := e.(phase := Idle, uncertain := true), failures := sys.failures + 1,
                   abandoned := if sys.fate.Sent? then sys.abandoned + [e.phase] else sys.abandoned))
    case OthersCommit(draft, next) => sys.(draft := draft, version := next)
  }

  /** The editor opens with the server's own draft, or with none. */
  ghost predicate Initial(sys: System) {
    && Ready(sys)
    && sys.editor.phase.Idle? && !sys.editor.uncertain
    && (sys.editor.record.Some? ==> sys.editor.record.value == Current(sys))
    && sys.background == [] && sys.abandoned == [] && sys.failures == 0 && sys.recordSince == 0
  }

  ghost predicate Run(trace: seq<System>, steps: seq<Step>) {
    && |trace| == |steps| + 1
    && forall i :: 0 <= i < |steps| ==> Enabled(trace[i], steps[i]) && trace[i + 1] == Apply(trace[i], steps[i])
  }

  // ----- No edit overwrites a change the editor has not seen -----

  /** A snapshot was the server's draft at its version. */
  ghost predicate Genuine(sys: System, c: Confirmed)
    requires Ready(sys)
  {
    c.version.number <= sys.version.number && (c.version.number == sys.version.number ==> c == Current(sys))
  }

  ghost predicate GenuineRead(sys: System, r: Read)
    requires Ready(sys)
  {
    r.answer.Some? ==> Genuine(sys, r.answer.value)
  }

  ghost predicate Invariant(sys: System) {
    && Ready(sys)
    && (sys.editor.record.Some? ==> Genuine(sys, sys.editor.record.value))
    && (sys.editor.phase.Editing? ==> Genuine(sys, sys.editor.phase.before))
    && (sys.editor.phase.Editing? && sys.fate.Accepted? ==> Genuine(sys, sys.fate.after))
    && (sys.editor.phase.Reconciling? ==> GenuineRead(sys, sys.awaited))
    && (forall i :: 0 <= i < |sys.background| ==> GenuineRead(sys, sys.background[i]))
    && (forall i :: 0 <= i < |sys.abandoned| ==> sys.abandoned[i].Editing? && Genuine(sys, sys.abandoned[i].before))
  }

  /** A server that moved on keeps every old snapshot genuine. */
  lemma ServerMovesOn(sys: System, sys': System)
    requires Invariant(sys) && Ready(sys')
    requires sys'.version.number > sys.version.number || (sys'.version == sys.version && sys'.draft == sys.draft)
    requires sys'.editor == sys.editor && sys'.awaited == sys.awaited && sys'.background == sys.background
    requires sys'.fate.Accepted? ==> sys.fate == sys'.fate || sys'.fate.after == Current(sys')
    requires forall p :: p in sys'.abandoned ==> p in sys.abandoned
    ensures Invariant(sys')
  {
    assert forall c :: Genuine(sys, c) ==> Genuine(sys', c);
    forall i | 0 <= i < |sys'.abandoned|
      ensures sys'.abandoned[i].Editing? && Genuine(sys', sys'.abandoned[i].before)
    {
      assert sys'.abandoned[i] in sys'.abandoned;
      var j :| 0 <= j < |sys.abandoned| && sys.abandoned[j] == sys'.abandoned[i];
    }
  }

  lemma ServerStepKeeps(sys: System, step: Step)
    requires Invariant(sys) && Enabled(sys, step)
    requires step.ProcessEdit? || step.ProcessAbandoned? || step.OthersCommit?
    ensures Invariant(Apply(sys, step))
  {
    hide Invariant;
    ServerMovesOn(sys, Apply(sys, step));
  }

  lemma ReadStepKeeps(sys: System, step: Step)
    requires Invariant(sys) && Enabled(sys, step)
    requires step.Type? || step.Flush? || step.Reconcile? || step.AnswerRead? || step.AnswerAwaited? ||
             step.BackgroundReply? || step.BackgroundLost?
    ensures Invariant(Apply(sys, step))
  {
    var sys' := Apply(sys, step);
    assert forall c :: Genuine(sys', c) == Genuine(sys, c);
  }

  /** A piece of the save that sends its next request keeps the invariant. */
  lemma SendingKeeps(sys: System, e: Editor, sys': System)
    requires Invariant(sys) && (e.record.Some? ==> Genuine(sys, e.record.value))
    requires sys' == Sending(sys, LoopTest(e))
    ensures Invariant(sys')
  {
    assert forall c :: Genuine(sys', c) == Genuine(sys, c);
  }

  lemma HandledKeeps(sys: System)
    requires Invariant(sys)
    ensures Invariant(Handled(sys))
  {
    var sys' := Handled(sys);
    assert forall c :: Genuine(sys', c) == Genuine(sys, c);
  }

  lemma StartKeeps(sys: System)
    requires Invariant(sys) && Enabled(sys, Start)
    ensures Invariant(Apply(sys, Start))
  {
    var e := sys.editor;
    if e.uncertain && e.record.Some? {
      var sys' := Apply(sys, Start);
      assert forall c :: Genuine(sys', c) == Genuine(sys, c);
    } else {
      SendingKeeps(sys, e.(waiting := e.waiting - 1), Apply(sys, Start));
    }
  }

  lemma ReplyKeeps(sys: System, step: Step)
    requires Invariant(sys) && Enabled(sys, step) && (step.ReconcileReply? || step.EditReply?)
    ensures Invariant(Apply(sys, step))
  {
    var since := if step.EditReply? then sys.failures else sys.awaited.since;
    var e := if step.EditReply? then sys.editor.(record := Some(sys.fate.after))
             else Reconciled(sys.editor, sys.awaited.answer.value);
    var base := sys.(recordSince := since);
    assert forall c :: Genuine(base, c) == Genuine(sys, c);
    SendingKeeps(base, e, Apply(sys, step));
  }

  lemma FailureKeeps(sys: System, step: Step)
    requires Invariant(sys) && Enabled(sys, step) && (step.EditFails? || step.ReconcileLost?)
    ensures Invariant(Apply(sys, step))
  {
    var e := sys.editor;
    var base :=
      if step.ReconcileLost? then sys.(editor := e.(phase := Idle))
      else sys.(editor := e.(phase := Idle, uncertain := true), failures := sys.failures + 1,
                abandoned := if sys.fate.Sent? then sys.abandoned + [e.phase] else sys.abandoned);
    assert forall c :: Genuine(base, c) == Genuine(sys, c);
    HandledKeeps(base);
  }

  lemma StepKeeps(sys: System, step: Step)
    requires Invariant(sys) && Enabled(sys, step)
    ensures Invariant(Apply(sys, step))
  {
    hide Invariant, Enabled, Apply;
    match step
    case Start => StartKeeps(sys);
    case ReconcileReply | EditReply => ReplyKeeps(sys, step);
    case EditFails | ReconcileLost => FailureKeeps(sys, step);
    case ProcessEdit(_) | ProcessAbandoned(_, _) | OthersCommit(_, _) => ServerStepKeeps(sys, step);
    case Type(_) | Flush | Reconcile | AnswerRead(_) | AnswerAwaited | BackgroundReply(_) | BackgroundLost(_) =>
      ReadStepKeeps(sys, step);
  }

  lemma {:induction false} RunKeeps(trace: seq<System>, steps: seq<Step>, k: nat)
    requires Run(trace, steps) && Initial(trace[0]) && k < |trace|
    ensures Invariant(trace[k])
  {
    if k > 0 {
      RunKeeps(trace, steps, k - 1);
      StepKeeps(trace[k - 1], steps[k - 1]);
    }
  }

  /**
    Whenever the server accepts an edit of this editor, awaited or long abandoned, it replaces
    exactly the version and the Markdown that the editor had confirmed when it sent the edit.
    */
  lemma AcceptedEditReplacesConfirmed(trace: seq<System>, steps: seq<Step>, k: nat, p: Phase)
    requires Run(trace, steps) && Initial(trace[0]) && k < |trace|
    requires p in trace[k].abandoned || p == trace[k].editor.phase
    requires p.Editing? && Ready(trace[k])
    requires Decide(trace[k].draft, trace[k].version, EditOf(p)).1.Emitted?
    ensures p.before == Current(trace[k])
    ensures Decide(trace[k].draft, trace[k].version, EditOf(p)).0.markdown == Some(Encode(p.snapshot))
  {
    RunKeeps(trace, steps, k);
    if p in trace[k].abandoned {
      var i :| 0 <= i < |trace[k].abandoned| && trace[k].abandoned[i] == p;
    }
  }

  /** A save that completes leaves a confirmed snapshot of the server equal to the buffer. */
  lemma CompletedSaveIsConfirmed(trace: seq<System>, steps: seq<Step>, k: nat)
    requires Run(trace, steps) && Initial(trace[0]) && k < |steps|
    requires steps[k].Start? || steps[k].ReconcileReply? || steps[k].EditReply?
    requires trace[k + 1].editor.phase.Idle?
    ensures Ready(trace[k + 1])
    ensures var e := trace[k + 1].editor;
            e.record.Some? ==>
              Decode(e.record.value.markdown) == Some(e.buffer) && Genuine(trace[k + 1], e.record.value)
  {
    RunKeeps(trace, steps, k + 1);
  }

  // ----- Whether a save after a failure has really read the draft again -----

  /** The awaited edit was prepared from a draft requested after the latest failure. */
  ghost predicate FreshSend(sys: System) {
    sys.editor.phase.Editing? ==> sys.recordSince == sys.failures
  }

  /** No read older than the latest failure is outstanding, and a cleared flag means a fresh record. */
  ghost predicate Clean(sys: System) {
    && FreshSend(sys)
    && (!sys.editor.uncertain && sys.editor.record.Some? ==> sys.recordSince == sys.failures)
    && (sys.editor.phase.Reconciling? ==> sys.awaited.since == sys.failures)
    && (forall i :: 0 <= i < |sys.background| ==> sys.background[i].since == sys.failures)
  }

  lemma SaveStepKeepsClean(sys: System, step: Step)
    requires Clean(sys) && Enabled(sys, step) && !step.EditFails?
    requires step.Start? || step.ReconcileReply? || step.EditReply? || step.ReconcileLost?
    ensures Clean(Apply(sys, step))
  {
  }

  lemma OtherStepKeepsClean(sys: System, step: Step)
    requires Clean(sys) && Enabled(sys, step) && !step.EditFails?
    requires !(step.Start? || step.ReconcileReply? || step.EditReply? || step.ReconcileLost?)
    ensures Clean(Apply(sys, step))
  {
  }

  lemma StepKeepsClean(sys: System, step: Step)
    requires Clean(sys) && Enabled(sys, step) && !step.EditFails?
    ensures Clean(Apply(sys, step))
  {
    hide Clean, Enabled, Apply;
    if step.Start? || step.ReconcileReply? || step.EditReply? || step.ReconcileLost? {
      SaveStepKeepsClean(sys, step);
    } else {
      OtherStepKeepsClean(sys, step);
    }
  }

  /** A failure leaves things clean exactly when no other read was outstanding. */
  lemma FailureLeavesClean(sys: System)
    requires Clean(sys) && Enabled(sys, EditFails)
    ensures Clean(Apply(sys, EditFails)) <==> sys.background == []
  {
    var sys' := Apply(sys, EditFails);
    if sys.background != [] {
      assert sys'.background[0] == sys.background[0];
    }
  }

  lemma {:induction false} CleanUntilFailure(trace: seq<System>, steps: seq<Step>, k: nat)
    requires Run(trace, steps) && Clean(trace[0]) && k < |trace|
    requires forall i :: 0 <= i < k && i < |steps| && steps[i].EditFails? ==> trace[i].background == []
    ensures Clean(trace[k])
  {
    if k > 0 {
      CleanUntilFailure(trace, steps, k - 1);
      if steps[k - 1].EditFails? { FailureLeavesClean(trace[k - 1]); } else { StepKeepsClean(trace[k - 1], steps[k - 1]); }
    }
  }

  /** A save that follows an uncertain failure reads first, unless an edit fails while an older read is outstanding. */
  lemma RereadsFirst(trace: seq<System>, steps: seq<Step>, k: nat)
    requires Run(trace, steps) && Initial(trace[0]) && k < |trace|
    requires forall i :: 0 <= i < |steps| && steps[i].EditFails? ==> trace[i].background == []
    ensures FreshSend(trace[k])
  {
    CleanUntilFailure(trace, steps, k);
  }

  ghost predicate WithoutFailure(steps: seq<Step>) {
    forall i :: 0 <= i < |steps| ==> !steps[i].EditFails?
  }

  /** Some continuation without another failure sends an edit prepared from a stale draft. */
  ghost predicate StaleSendPossible(sys: System) {
    exists trace, steps :: && Run(trace, steps) && trace[0] == sys && WithoutFailure(steps)
                           && !FreshSend(trace[|trace| - 1])
  }

  ghost predicate OldReadOutstanding(sys: System) {
    exists i :: 0 <= i < |sys.background| && sys.background[i].since != sys.failures
  }

  /**
    Just after a failure, a later save can send an edit without having read the draft again
    exactly when a read older than the failure is still outstanding: its late answer clears the
    uncertainty it does not resolve.
    */
  lemma StaleSendIff(sys: System)
    requires Ready(sys) && sys.editor.phase.Idle? && sys.editor.uncertain
    ensures StaleSendPossible(sys) <==> OldReadOutstanding(sys)
  {
    if OldReadOutstanding(sys) {
      LateAnswerMisleads(sys);
    } else if StaleSendPossible(sys) {
      var trace, steps :| && Run(trace, steps) && trace[0] == sys && WithoutFailure(steps)
                          && !FreshSend(trace[|trace| - 1]);
      CleanUntilFailure(trace, steps, |trace| - 1);
      assert false;
    }
  }

  /** A text different from the one the snapshot decodes to. */
  function OtherText(c: Confirmed): (t: Text)
    ensures Decode(c.markdown) != Some(t)
  {
    match Decode(c.markdown)
    case Some(t) => t + [0]
    case None => []
  }

  lemma LateAnswerMisleads(sys: System)
    requires Ready(sys) && sys.editor.phase.Idle? && OldReadOutstanding(sys)
    ensures StaleSendPossible(sys)
  {
    var i :| 0 <= i < |sys.background| && sys.background[i].since != sys.failures;
    if sys.background[i].answer.None? {
      var answered := Apply(sys, AnswerRead(i));
      LateReplyMisleads(answered, i);
      var trace, steps :| && Run(trace, steps) && trace[0] == answered && WithoutFailure(steps)
                          && !FreshSend(trace[|trace| - 1]);
      Prepend(sys, AnswerRead(i), trace, steps);
    } else {
      LateReplyMisleads(sys, i);
    }
  }

  lemma LateReplyMisleads(sys: System, i: nat)
    requires Ready(sys) && sys.editor.phase.Idle? && i < |sys.background|
    requires sys.background[i].since != sys.failures && sys.background[i].answer.Some?
    ensures StaleSendPossible(sys)
  {
    var s1 := Apply(sys, BackgroundReply(i));
    var text := OtherText(sys.background[i].answer.value);
    var s2 := Apply(s1, Type(text));
    var s3 := Apply(s2, Flush);
    var s4 := Apply(s3, Start);
    assert s4.editor.phase.Editing? && !FreshSend(s4);
    var trace, steps := [s4], [];
    assert Run(trace, steps) && WithoutFailure(steps);
    Prepend(s3, Start, [s4], []);
    Chain(s2, Flush, s3);
    Chain(s1, Type(text), s2);
    Chain(sys, BackgroundReply(i), s1);
  }

  lemma Chain(sys: System, step: Step, next: System)
    requires Enabled(sys, step) && !step.EditFails? && next == Apply(sys, step) && StaleSendPossible(next)
    ensures StaleSendPossible(sys)
  {
    var trace, steps :| && Run(trace, steps) && trace[0] == next && WithoutFailure(steps)
                        && !FreshSend(trace[|trace| - 1]);
    Prepend(sys, step, trace, steps);
  }

  lemma Prepend(sys: System, step: Step, trace: seq<System>, steps: seq<Step>)
    requires Run(trace, steps) && WithoutFailure(steps) && !FreshSend(trace[|trace| - 1])
    requires Enabled(sys, step) && !step.EditFails? && trace[0] == Apply(sys, step)
    ensures StaleSendPossible(sys)
  {
    var trace', steps' := [sys] + trace, [step] + steps;
    forall i | 0 <= i < |steps'|
      ensures Enabled(trace'[i], steps'[i]) && trace'[i + 1] == Apply(trace'[i], steps'[i]) && !steps'[i].EditFails?
    {
      if i > 0 {
        assert trace'[i] == trace[i - 1] && steps'[i] == steps[i - 1] && trace'[i + 1] == trace[i - 1 + 1];
      }
    }
    assert Run(trace', steps') && WithoutFailure(steps') && trace'[|trace'| - 1] == trace[|trace| - 1];
  }

  // ----- Reaching the two failures -----

  const FIRST_VERSION := Version(1, 0)

  const FIRST_INPUTS := Comparison(Some(0), Some(1), Some(2), 1)

  /** An editor just opened on a draft that was opened with inputs and has empty Markdown. */
  ghost function Opened(): System {
    var draft := Decide(NEW_DRAFT, Version(0, 0), Open(Some([65]), Some(FIRST_INPUTS), [66])).0;
    System(draft, FIRST_VERSION, Editor(Some(Confirmed(FIRST_VERSION, NO_BYTES)), [], false, Idle, 0),
           Sent, Read(0, None), [], [], 0, 0)
  }

  lemma OpenedIsInitial()
    ensures Initial(Opened())
  {
  }

  lemma Extended(trace: seq<System>, steps: seq<Step>, step: Step)
    requires Run(trace, steps) && Enabled(trace[|trace| - 1], step)
    ensures Run(trace + [Apply(trace[|trace| - 1], step)], steps + [step])
  {
    hide Enabled, Apply;
    var next := Apply(trace[|trace| - 1], step);
    forall i | 0 <= i < |steps| + 1
      ensures Enabled((trace + [next])[i], (steps + [step])[i])
              && (trace + [next])[i + 1] == Apply((trace + [next])[i], (steps + [step])[i])
    {
      if i < |steps| {
        assert (trace + [next])[i] == trace[i] && (trace + [next])[i + 1] == trace[i + 1];
      }
    }
  }

  /** The awaited edit carries the buffer, and its answer, once there, what the server stored. */
  ghost predicate Saving(sys: System, text: Text) {
    && sys.editor.phase.Editing? && sys.editor.phase.snapshot == text == sys.editor.buffer
    && (sys.fate.Accepted? ==> sys.fate.after.markdown == Encode(text))
  }

  /** A run from an opened editor to the first edit of a text. */
  lemma SaveStarted(text: Text) returns (trace: seq<System>, steps: seq<Step>)
    requires text != []
    ensures Run(trace, steps) && Initial(trace[0])
    ensures var last := trace[|trace| - 1];
            && Ready(last) && Saving(last, text) && last.fate.Sent? && last.editor.phase.before == Current(last)
            && last.editor.record.Some? && last.editor.waiting == 0 && last.failures == 0 && last.background == []
            && last.version == FIRST_VERSION && last.draft.markdown == Some(NO_BYTES)
    ensures steps == [Type(text), Flush, Start]
  {
    OpenedIsInitial();
    var s1 := Apply(Opened(), Type(text));
    var s2 := Apply(s1, Flush);
    var s3 := Apply(s2, Start);
    steps := [Type(text), Flush, Start];
    trace := [Opened(), s1, s2, s3];
  }

  /** An awaited edit fails, and the next save reads the draft, leaving that failure's own read outstanding. */
  lemma FailsAndReads(sys: System, text: Text) returns (trace: seq<System>, steps: seq<Step>)
    requires Ready(sys) && Saving(sys, text) && sys.editor.record.Some? && sys.editor.waiting == 0
    requires sys.background == [] && sys.failures == 0
    ensures Run(trace, steps) && trace[0] == sys
    ensures steps == [EditFails, Flush, Start, AnswerAwaited]
    ensures var last := trace[|trace| - 1];
            && Ready(last) && last.editor.phase.Reconciling? && last.awaited.answer == Some(Current(sys))
            && last.editor.buffer == text && last.failures == 1 && last.background == [Read(1, None)]
  {
    var s1 := Apply(sys, EditFails);
    var s2 := Apply(s1, Flush);
    var s3 := Apply(s2, Start);
    trace := [sys, s1, s2, s3, Apply(s3, AnswerAwaited)];
    steps := [EditFails, Flush, Start, AnswerAwaited];
  }

  /** The save goes on with what it read and fails again: the first failure's read is older than this failure. */
  lemma FailsAgain(sys: System) returns (trace: seq<System>, steps: seq<Step>)
    requires Ready(sys) && sys.editor.phase.Reconciling? && sys.awaited.answer.Some?
    requires Decode(sys.awaited.answer.value.markdown) != Some(sys.editor.buffer)
    requires sys.failures == 1 && sys.background == [Read(1, None)]
    ensures Run(trace, steps) && trace[0] == sys && steps == [ReconcileReply, EditFails]
    ensures var last := trace[|trace| - 1];
            Ready(last) && last.editor.phase.Idle? && last.editor.uncertain && OldReadOutstanding(last)
  {
    var s1 := Apply(sys, ReconcileReply);
    var s2 := Apply(s1, EditFails);
    trace, steps := [sys, s1, s2], [ReconcileReply, EditFails];
    assert s2.background[0] == Read(1, None) && s2.failures == 2;
  }

  lemma Joined(trace: seq<System>, steps: seq<Step>, trace': seq<System>, steps': seq<Step>)
    requires Run(trace, steps) && Run(trace', steps') && trace'[0] == trace[|trace| - 1]
    ensures Run(trace + trace'[1..], steps + steps')
  {
    hide Enabled, Apply;
    var all, n := trace + trace'[1..], |steps|;
    forall i | 0 <= i < |steps + steps'|
      ensures Enabled(all[i], (steps + steps')[i]) && all[i + 1] == Apply(all[i], (steps + steps')[i])
    {
      if i < n {
        assert all[i] == trace[i] && all[i + 1] == trace[i + 1];
      } else {
        assert all[i] == trace'[i - n] && all[i + 1] == trace'[i - n + 1];
      }
    }
  }

  /**
    A run from an opened editor through two failed edits, after which the read of the first failure
    is still outstanding and a stale edit can be sent.
    */
  lemma StaleSendReachable() returns (trace: seq<System>, steps: seq<Step>)
    ensures Run(trace, steps) && Initial(trace[0])
    ensures steps == [Type([66]), Flush, Start, EditFails, Flush, Start, AnswerAwaited, ReconcileReply, EditFails]
    ensures var sys := trace[|trace| - 1];
            && Ready(sys) && sys.editor.phase.Idle? && sys.editor.uncertain
            && OldReadOutstanding(sys) && StaleSendPossible(sys)
  {
    hide Enabled, Apply, Initial, Ready, OldReadOutstanding, StaleSendPossible;
    trace, steps := SaveStarted([66]);
    var first := trace[|trace| - 1];
    var trace', steps' := FailsAndReads(first, [66]);
    Joined(trace, steps, trace', steps');
    var trace'', steps'' := FailsAgain(trace'[|trace'| - 1]);
    trace, steps := trace + trace'[1..], steps + steps';
    Joined(trace, steps, trace'', steps'');
    trace, steps := trace + trace''[1..], steps + steps'';
    LateAnswerMisleads(trace''[|trace''| - 1]);
  }

  lemma SavingStep(sys: System, step: Step, text: Text)
    requires Enabled(sys, step) && !step.Type? && !step.EditFails?
    requires Saving(sys, text) && !Encodable(text)
    ensures Saving(Apply(sys, step), text)
  {
    RoundTrip(text);
  }

  /**
    Against the server too: once a text that does not survive encoding is being saved, the save goes
    on through every run in which nobody types and no edit fails, whatever is accepted or read.
    */
  lemma {:induction false} UnencodableSaveGoesOn(trace: seq<System>, steps: seq<Step>, k: nat, text: Text)
    requires Run(trace, steps) && k < |trace| && Saving(trace[0], text) && !Encodable(text)
    requires forall i :: 0 <= i < |steps| ==> !steps[i].Type? && !steps[i].EditFails?
    ensures Saving(trace[k], text)
  {
    hide Saving, Enabled, Apply;
    if k > 0 {
      UnencodableSaveGoesOn(trace, steps, k - 1, text);
      SavingStep(trace[k - 1], steps[k - 1], text);
    }
  }

  /** The server stores the text and answers; the save is where it was, two steps and one version later. */
  lemma OneMoreRound(sys: System, text: Text) returns (stored: System, answered: System)
    requires Ready(sys) && Saving(sys, text) && sys.fate.Sent? && !Encodable(text)
    requires sys.editor.phase.before == Current(sys)
    ensures var next := Version(sys.version.number + 1, 0);
            && Enabled(sys, ProcessEdit(next)) && stored == Apply(sys, ProcessEdit(next))
            && Enabled(stored, EditReply) && answered == Apply(stored, EditReply)
            && answered.version == next && answered.draft.markdown == Some(Encode(text))
    ensures Ready(answered) && Saving(answered, text) && answered.fate.Sent?
    ensures answered.editor.phase.before == Current(answered)
  {
    RoundTrip(text);
    var next := Version(sys.version.number + 1, 0);
    stored := Apply(sys, ProcessEdit(next));
    answered := Apply(stored, EditReply);
  }

  /** From an opened editor the server can accept and store such a text any number of times without the save completing. */
  lemma {:induction false} AcceptedAgainAndAgain(text: Text, n: nat) returns (trace: seq<System>, steps: seq<Step>)
    requires !Encodable(text)
    ensures Run(trace, steps) && Initial(trace[0])
    ensures var last := trace[|trace| - 1];
            && Ready(last) && Saving(last, text) && last.fate.Sent? && last.editor.phase.before == Current(last)
            && last.version.number == 1 + n && (n > 0 ==> last.draft.markdown == Some(Encode(text)))
  {
    hide Saving, Enabled, Apply, Initial, Ready;
    if n == 0 {
      trace, steps := SaveStarted(text);
    } else {
      trace, steps := AcceptedAgainAndAgain(text, n - 1);
      var last := trace[|trace| - 1];
      var next := Version(last.version.number + 1, 0);
      var stored, answered := OneMoreRound(last, text);
      Extended(trace, steps, ProcessEdit(next));
      trace, steps := trace + [stored], steps + [ProcessEdit(next)];
      Extended(trace, steps, EditReply);
      trace, steps := trace + [answered], steps + [EditReply];
    }
  }
}
