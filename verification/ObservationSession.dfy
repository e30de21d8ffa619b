/** One subscription session: creation, activation, two streams and their cancellation. */
module ObservationSession {
  datatype Notice = Connecting | Connected | Failed | Delivery(content: nat) | Lifecycle(content: nat)

  /** Where `start` stands; it has settled once it observes, failed, or finished cancelling. */
  datatype Phase = NotStarted | Creating | Activating | Cancelling | Observing | Finished

  /**
    `cancelled` tells whether the cancellation promise is memoised, `scheduled` counts the microtasks
    waiting to call the handle, and `calls` the calls the handle has received.
    */
  datatype Session = Session(active: bool, handle: bool, cancelled: bool, scheduled: nat, calls: nat, phase: Phase,
                             published: seq<Notice>)

  const NEW_SESSION := Session(true, false, false, 0, 0, NotStarted, [])

  predicate Settled(s: Session) {
    s.phase.Observing? || s.phase.Finished?
  }

  /** Requests cancellation; the handle itself is called later. */
  function Cancel(s: Session): Session {
    if !s.handle || s.cancelled then s else s.(cancelled := true, scheduled := s.scheduled + 1)
  }

  /** A scheduled microtask runs. */
  function CallHandle(s: Session): Session
    requires s.scheduled > 0
  {
    s.(scheduled := s.scheduled - 1, calls := if s.handle then s.calls + 1 else s.calls)
  }

  function Publish(s: Session, n: Notice): Session {
    s.(published := s.published + [n])
  }

  // Each piece reads whether the committed React generation is still `current`.

  function Begin(s: Session, current: bool): Session {
    Publish(s, Connecting).(phase := if s.active && current then Creating else Finished)
  }

  function Created(s: Session, current: bool): Session {
    var s' := s.(handle := true);
    if s.active && current then s'.(phase := Activating) else Cancel(s').(phase := Cancelling)
  }

  function Activated(s: Session, current: bool): Session {
    if s.active && current then Publish(s, Connected).(phase := Observing) else Cancel(s).(phase := Cancelling)
  }

  /** Creation or activation failed: reported and cancelled only while live. */
  function StartFailed(s: Session, current: bool): Session {
    if s.active && current then Cancel(Publish(s, Failed)).(phase := Finished) else s.(phase := Finished)
  }

  function Stop(s: Session): Session {
    Cancel(s.(active := false))
  }

  function Notify(s: Session, current: bool, n: Notice): Session {
    if s.active && current then Publish(s, n) else s
  }

  function StreamFailed(s: Session, current: bool): Session {
    Cancel(Notify(s, current, Failed))
  }

  class Observation {
    var active: bool
    var handle: bool
    var cancelled: bool
    var scheduled: nat
    var calls: nat
    var phase: Phase
    var published: seq<Notice>

    ghost function State(): Session
      reads this
    {
      Session(active, handle, cancelled, scheduled, calls, phase, published)
    }

    constructor ()
      ensures State() == NEW_SESSION
    {
      active, handle, cancelled, scheduled, calls, phase, published := true, false, false, 0, 0, NotStarted, [];
    }

    /** Memoises the cancellation and schedules its one call of the handle. */
    method CancelHandle()
      modifies this`cancelled, this`scheduled
      ensures State() == Cancel(old(State()))
    {
      if !handle {
        return;
      }
      if !cancelled {
        cancelled := true;
        scheduled := scheduled + 1;
      }
    }

    method OnMicrotask()
      requires scheduled > 0
      modifies this`scheduled, this`calls
      ensures State() == CallHandle(old(State()))
    {
      scheduled := scheduled - 1;
      if handle {
        calls := calls + 1;
      }
    }

    method Start(current: bool)
      modifies this
      ensures State() == Begin(old(State()), current)
    {
      published := published + [Connecting];
      phase := if active && current then Creating else Finished;
    }

    method OnCreated(current: bool)
      modifies this
      ensures State() == Created(old(State()), current)
    {
      handle := true;
      if !active || !current {
        CancelHandle();
        phase := Cancelling;
        return;
      }
      phase := Activating;
    }

    method OnActivated(current: bool)
      modifies this
      ensures State() == Activated(old(State()), current)
    {
      if !active || !current {
        CancelHandle();
        phase := Cancelling;
        return;
      }
      published := published + [Connected];
      phase := Observing;
    }

    method OnStartFailed(current: bool)
      modifies this
      ensures State() == StartFailed(old(State()), current)
    {
      if active && current {
        published := published + [Failed];
        CancelHandle();
      }
      phase := Finished;
    }

    method OnStop()
      modifies this
      ensures State() == Stop(old(State()))
    {
      active := false;
      CancelHandle();
    }

    method OnNotice(current: bool, n: Notice)
      modifies this
      ensures State() == Notify(old(State()), current, n)
    {
      if active && current {
        published := published + [n];
      }
    }

    method OnStreamFailed(current: bool)
      modifies this
      ensures State() == StreamFailed(old(State()), current)
    {
      OnNotice(current, Failed);
      CancelHandle();
    }
  }

  // ----- Runs -----

  /** `openStreams` counts the streams not yet failed or ended. */
  datatype System = System(session: Session, current: bool, stopped: bool, openStreams: nat)

  /** `CallsHandle` runs a scheduled microtask; `start` stops waiting for its cancellation only after the call. */
  datatype Step =
    | Starts | Creates | Activates | Fails | CallsHandle | CancelSettles
    | Stops | RetiresGeneration
    | Yields(notice: Notice) | StreamFails | StreamEnds

  const COMMITTED := System(NEW_SESSION, true, false, 2)

  predicate Enabled(sys: System, step: Step) {
    var p := sys.session.phase;
    match step
    case Starts => p.NotStarted?
    case Creates => p.Creating?
    case Activates => p.Activating?
    case Fails => p.Creating? || p.Activating?
    case CallsHandle => sys.session.scheduled > 0
    case CancelSettles => p.Cancelling? && sys.session.scheduled == 0
    case Stops | RetiresGeneration => true
    case Yields(n) => p.Observing? && sys.openStreams > 0 && (n.Delivery? || n.Lifecycle?)
    case StreamFails | StreamEnds => p.Observing? && sys.openStreams > 0
  }

  function Apply(sys: System, step: Step): System
    requires Enabled(sys, step)
  {
    var s := sys.session;
    match step
    case Starts => sys.(session := Begin(s, sys.current))
    case Creates => sys.(session := Created(s, sys.current))
    case Activates => sys.(session := Activated(s, sys.current))
    case Fails => sys.(session := StartFailed(s, sys.current))
    case CallsHandle => sys.(session := CallHandle(s))
    case CancelSettles => sys.(session := s.(phase := Finished))
    case Stops => sys.(session := Stop(s), stopped := true)
    case RetiresGeneration => sys.(current := false)
    case Yields(n) => sys.(session := Notify(s, sys.current, n))
    case StreamFails => sys.(session := StreamFailed(s, sys.current), openStreams := sys.openStreams - 1)
    case StreamEnds => sys.(openStreams := sys.openStreams - 1)
  }

  ghost predicate Run(trace: seq<System>, steps: seq<Step>) {
    && |trace| == |steps| + 1 && trace[0] == COMMITTED
    && forall i :: 0 <= i < |steps| ==> Enabled(trace[i], steps[i]) && trace[i + 1] == Apply(trace[i], steps[i])
  }

  predicate Retired(sys: System) {
    !sys.session.active || !sys.current
  }

  /** Every memoised cancellation has exactly one call, made or still scheduled. */
  predicate Invariant(sys: System) {
    var s := sys.session;
    && s.calls + s.scheduled == (if s.cancelled then 1 else 0)
    && (s.cancelled ==> s.handle)
    && (s.active <==> !sys.stopped)
    && (s.phase.NotStarted? || s.phase.Creating? ==> !s.handle)
    && (s.phase.Activating? || s.phase.Cancelling? || s.phase.Observing? ==> s.handle)
    && (s.handle && sys.stopped ==> s.cancelled)
    && (s.phase.Cancelling? ==> s.cancelled)
  }

  lemma {:induction false} RunKeeps(trace: seq<System>, steps: seq<Step>, k: nat)
    requires Run(trace, steps) && k < |trace|
    ensures Invariant(trace[k])
  {
    hide Invariant, Apply, Enabled;
    if k > 0 {
      RunKeeps(trace, steps, k - 1);
      StepKeeps(trace[k - 1], steps[k - 1]);
    } else {
      assert Invariant(COMMITTED) by { FirstIsSound(); }
    }
  }

  lemma StepKeeps(sys: System, step: Step)
    requires Invariant(sys) && Enabled(sys, step)
    ensures Invariant(Apply(sys, step))
  {
  }

  lemma FirstIsSound()
    ensures Invariant(COMMITTED)
  {
  }

  /** However often cancellation is requested, the handle is called at most once, and never without a request. */
  lemma CalledAtMostOnce(trace: seq<System>, steps: seq<Step>, k: nat)
    requires Run(trace, steps) && k < |trace|
    ensures trace[k].session.calls + trace[k].session.scheduled <= 1
    ensures trace[k].session.calls == 1 ==> trace[k].session.handle && trace[k].session.cancelled
  {
    RunKeeps(trace, steps, k);
  }

  // ----- Exactly when a handle is released -----

  /** The steps that release a handle: created already, or about to be. */
  predicate Releases(sys: System, step: Step) {
    match step
    case Stops | StreamFails => true
    case Creates | Activates => Retired(sys)
    case Fails => sys.session.phase.Activating? && !Retired(sys)
    case _ => false
  }

  /** One of the first `k` steps releases the handle. */
  ghost predicate Released(trace: seq<System>, steps: seq<Step>, k: nat)
    requires k <= |steps| < |trace|
  {
    exists i :: 0 <= i < k && Releases(trace[i], steps[i])
  }

  lemma ReleasedNext(trace: seq<System>, steps: seq<Step>, k: nat)
    requires 0 < k <= |steps| < |trace|
    ensures Released(trace, steps, k) <==> Released(trace, steps, k - 1) || Releases(trace[k - 1], steps[k - 1])
  {
  }

  /** A session that was never released is not stopped. */
  lemma {:induction false} StoppedIsReleased(trace: seq<System>, steps: seq<Step>, k: nat)
    requires Run(trace, steps) && k < |trace| && trace[k].stopped
    ensures Released(trace, steps, k)
  {
    if k > 0 && trace[k - 1].stopped {
      StoppedIsReleased(trace, steps, k - 1);
    } else {
      assert Releases(trace[k - 1], steps[k - 1]);
    }
  }

  /**
    A created handle has its cancellation requested exactly when the session was stopped, a stream
    failed, creation or activation completed in a retired session, or activation failed in a live one.
    */
  lemma {:induction false} CancelRequestedIff(trace: seq<System>, steps: seq<Step>, k: nat)
    requires Run(trace, steps) && k < |trace| && trace[k].session.handle
    ensures trace[k].session.cancelled <==> Released(trace, steps, k)
  {
    hide Released;
    RunKeeps(trace, steps, k - 1);
    ReleasedNext(trace, steps, k);
    if trace[k - 1].session.handle {
      CancelRequestedIff(trace, steps, k - 1);
    } else {
      NotReleasedBefore(trace, steps, k - 1);
    }
  }

  /** Before there is a handle only `stop` can have released it. */
  lemma {:induction false} NotReleasedBefore(trace: seq<System>, steps: seq<Step>, k: nat)
    requires Run(trace, steps) && k < |trace| && !trace[k].session.handle
    ensures Released(trace, steps, k) <==> trace[k].stopped
  {
    hide Released;
    if k > 0 {
      RunKeeps(trace, steps, k - 1);
      ReleasedNext(trace, steps, k);
      NotReleasedBefore(trace, steps, k - 1);
    } else {
      NothingReleased(trace, steps);
    }
  }

  lemma NothingReleased(trace: seq<System>, steps: seq<Step>)
    requires |steps| < |trace|
    ensures !Released(trace, steps, 0)
  {
  }

  /** The handle has been called exactly when it was released and the scheduled call has run. */
  lemma HandleCalledIff(trace: seq<System>, steps: seq<Step>, k: nat)
    requires Run(trace, steps) && k < |trace|
    ensures trace[k].session.calls == 1 <==>
            trace[k].session.handle && Released(trace, steps, k) && trace[k].session.scheduled == 0
  {
    RunKeeps(trace, steps, k);
    if trace[k].session.handle {
      CancelRequestedIff(trace, steps, k);
    }
  }

  /** Once stopped, a created handle has its one call made or scheduled, however late it was created. */
  lemma NoHandleLeaks(trace: seq<System>, steps: seq<Step>, k: nat)
    requires Run(trace, steps) && k < |trace| && trace[k].stopped
    ensures trace[k].session.calls + trace[k].session.scheduled == if trace[k].session.handle then 1 else 0
  {
    RunKeeps(trace, steps, k);
  }

  /** After `stop`, running the scheduled call is possible until the handle has been called, and calls it once. */
  lemma StopLeadsToCall(trace: seq<System>, steps: seq<Step>, k: nat)
    requires Run(trace, steps) && k < |trace| && trace[k].stopped && trace[k].session.handle
    ensures trace[k].session.calls == 0 ==>
              Enabled(trace[k], CallsHandle) && Apply(trace[k], CallsHandle).session.calls == 1
    ensures !Enabled(trace[k], CallsHandle) ==> trace[k].session.calls == 1
  {
    RunKeeps(trace, steps, k);
  }

  /** A session that waited for its cancellation goes on only after the handle was called. */
  lemma SettlesAfterCall(trace: seq<System>, steps: seq<Step>, k: nat)
    requires Run(trace, steps) && k < |steps| && steps[k].CancelSettles?
    ensures trace[k + 1].session.calls == 1
  {
    RunKeeps(trace, steps, k);
  }

  /**
    Retiring the generation alone releases nothing: not a handle that is observed, nor one whose
    activation fails afterwards.
    */
  lemma RetirementAloneHolds() returns (observed: seq<System>, observedSteps: seq<Step>,
                                        failed: seq<System>, failedSteps: seq<Step>)
    ensures Run(observed, observedSteps) && Run(failed, failedSteps)
    ensures forall last :: last in {observed[|observed| - 1], failed[|failed| - 1]} ==>
              Settled(last.session) && Retired(last) && last.session.handle && !last.session.cancelled
    ensures observed[|observed| - 1].session.phase.Observing? && failed[|failed| - 1].session.phase.Finished?
  {
    var s1 := Apply(COMMITTED, Starts);
    var s2 := Apply(s1, Creates);
    var s3 := Apply(s2, Activates);
    observedSteps := [Starts, Creates, Activates, RetiresGeneration];
    observed := [COMMITTED, s1, s2, s3, Apply(s3, RetiresGeneration)];
    var r3 := Apply(s2, RetiresGeneration);
    failedSteps := [Starts, Creates, RetiresGeneration, Fails];
    failed := [COMMITTED, s1, s2, r3, Apply(r3, Fails)];
  }

  // ----- Silence after retirement -----

  predicate Visible(n: Notice) {
    !n.Connecting?
  }

  function VisibleNotices(ns: seq<Notice>): seq<Notice> {
    if ns == [] then []
    else VisibleNotices(ns[..|ns| - 1]) + if Visible(ns[|ns| - 1]) then [ns[|ns| - 1]] else []
  }

  lemma RetiredStepIsSilent(sys: System, step: Step)
    requires Enabled(sys, step) && Retired(sys)
    ensures Retired(Apply(sys, step))
    ensures VisibleNotices(Apply(sys, step).session.published) == VisibleNotices(sys.session.published)
  {
    var ns := sys.session.published;
    assert (ns + [Connecting])[..|ns|] == ns;
  }

  /** After retirement nothing but the initial "connecting" is ever published. */
  lemma {:induction false} SilentAfterRetirement(trace: seq<System>, steps: seq<Step>, j: nat, k: nat)
    requires Run(trace, steps) && j <= k < |trace| && Retired(trace[j])
    ensures Retired(trace[k])
    ensures VisibleNotices(trace[k].session.published) == VisibleNotices(trace[j].session.published)
    decreases k - j
  {
    hide VisibleNotices, Apply, Enabled, Retired;
    if j < k {
      SilentAfterRetirement(trace, steps, j, k - 1);
      RetiredStepIsSilent(trace[k - 1], steps[k - 1]);
    }
  }

  // ----- What every step shows -----

  /** Neither stopped nor retired. */
  predicate Live(sys: System) {
    !sys.stopped && sys.current
  }

  /**
    In every run each notice of a live session reaches its reader at once and no other notice does;
    starting goes on to creation, activation and observation exactly while the session is live.
    */
  lemma StepShows(trace: seq<System>, steps: seq<Step>, k: nat)
    requires Run(trace, steps) && k < |steps|
    ensures var live, before, after := Live(trace[k]), trace[k].session, trace[k + 1].session;
            match steps[k]
            case Starts =>
              after.published == before.published + [Connecting] && after.phase == (if live then Creating else Finished)
            case Creates =>
              after.published == before.published && after.phase == (if live then Activating else Cancelling)
            case Activates =>
              && after.published == before.published + (if live then [Connected] else [])
              && after.phase == (if live then Observing else Cancelling)
            case Fails =>
              after.published == before.published + (if live then [Failed] else []) && after.phase == Finished
            case Yields(notice) =>
              after.published == before.published + (if live then [notice] else []) && after.phase == Observing
            case StreamFails =>
              after.published == before.published + (if live then [Failed] else []) && after.phase == Observing
            case CancelSettles => after.published == before.published && after.phase == Finished
            case CallsHandle | Stops | RetiresGeneration | StreamEnds =>
              after.published == before.published && after.phase == before.phase
  {
    RunKeeps(trace, steps, k);
  }
}
