/** Coalesced statistics reads: one loop of queries per generation. */
module StatisticsRead {
  import opened Options

  datatype Status = Loading | Ready | Error

  /** Abort controllers are numbered as loops start; `aborted` are those whose signal was raised. */
  datatype State = State(generation: nat, dirty: bool, running: bool, controller: Option<nat>, value: Option<nat>,
                         status: Status, started: nat, aborted: set<nat>)

  const NEW_STATE := State(0, false, false, None, None, Loading, 0, {})

  /** Marks the read dirty; without a running loop one starts, which takes the mark at once. */
  function Refresh(s: State): (State, bool) {
    if s.running then (s.(dirty := true), false)
    else (s.(dirty := false, running := true, controller := Some(s.started), started := s.started + 1), true)
  }

  /** A query of a loop ended, with no response on failure; the answer says whether the loop queries again. */
  function Ended(s: State, loopGeneration: nat, controller: nat, response: Option<nat>): (State, bool) {
    var finished := s.(running := false, controller := None);
    if loopGeneration != s.generation then (s, false)
    else if response.None? && controller in s.aborted then (finished, false)
    else
      var value := if response.Some? then response else s.value;
      var status := if response.Some? then Ready else Error;
      if s.dirty then (s.(value := value, status := status, dirty := false), true)
      else (finished.(value := value, status := status), false)
  }

  /** The effect's cleanup, which aborts the loop last started. */
  function Retire(s: State): State {
    s.(generation := s.generation + 1, running := false, dirty := false,
       aborted := if s.controller.Some? then s.aborted + {s.controller.value} else s.aborted)
  }

  class StatsRead {
    var generation: nat
    var dirty: bool
    var running: bool
    var controller: Option<nat>
    var value: Option<nat>
    var status: Status
    var started: nat
    var aborted: set<nat>

    ghost function View(): State
      reads this
    {
      State(generation, dirty, running, controller, value, status, started, aborted)
    }

    constructor ()
      ensures View() == NEW_STATE
    {
      generation, dirty, running, controller := 0, false, false, None;
      value, status, started, aborted := None, Loading, 0, {};
    }

    method OnRefresh() returns (starts: bool)
      modifies this
      ensures (View(), starts) == Refresh(old(View()))
    {
      dirty := true;
      if running {
        return false;
      }
      running := true;
      controller := Some(started);
      started := started + 1;
      dirty := false;
      return true;
    }

    method OnEnded(loopGeneration: nat, loopController: nat, response: Option<nat>) returns (again: bool)
      modifies this
      ensures (View(), again) == Ended(old(View()), loopGeneration, loopController, response)
    {
      if loopGeneration != generation {
        return false;
      }
      if response.None? && loopController in aborted {
        running := false;
        controller := None;
        return false;
      }
      if response.Some? {
        value, status := response, Ready;
      } else {
        status := Error;
      }
      if dirty {
        dirty := false;
        return true;
      }
      running := false;
      controller := None;
      return false;
    }

    method OnRetire()
      modifies this
      ensures View() == Retire(old(View()))
    {
      generation := generation + 1;
      if controller.Some? {
        aborted := aborted + {controller.value};
      }
      running := false;
      dirty := false;
    }
  }

  // ----- Runs -----

  /** A query in flight, with the number of requests of its generation made when it started. */
  datatype Query = Query(generation: nat, controller: nat, covers: nat)

  /** `requests` counts the refreshes of this generation; `answered` is what the last ended query covers. */
  datatype System = System(state: State, queries: seq<Query>, requests: nat, answered: nat)

  datatype Step = Ask | End(index: nat, response: Option<nat>) | Retired

  const START := System(NEW_STATE, [], 0, 0)

  predicate Enabled(sys: System, step: Step) {
    step.End? ==> step.index < |sys.queries|
  }

  function Apply(sys: System, step: Step): System
    requires Enabled(sys, step)
  {
    match step
    case Ask =>
      var (s, starts) := Refresh(sys.state);
      var n := sys.requests + 1;
      sys.(state := s, requests := n,
           queries := if starts then sys.queries + [Query(s.generation, sys.state.started, n)] else sys.queries)
    case End(i, response) =>
      var q := sys.queries[i];
      var (s, again) := Ended(sys.state, q.generation, q.controller, response);
      var rest := sys.queries[..i] + sys.queries[i + 1..];
      sys.(state := s, queries := if again then rest + [Query(q.generation, q.controller, sys.requests)] else rest,
           answered := if q.generation == sys.state.generation then q.covers else sys.answered)
    case Retired => sys.(state := Retire(sys.state), requests := 0, answered := 0)
  }

  ghost predicate Run(trace: seq<System>, steps: seq<Step>) {
    && |trace| == |steps| + 1 && trace[0] == START
    && forall i :: 0 <= i < |steps| ==> Enabled(trace[i], steps[i]) && trace[i + 1] == Apply(trace[i], steps[i])
  }

  ghost predicate CurrentAt(sys: System, i: int) {
    0 <= i < |sys.queries| && sys.queries[i].generation == sys.state.generation
  }

  /** At most one current query; a refresh is covered by it, or noted for the next one, or already answered. */
  ghost predicate Covered(sys: System) {
    && (forall i :: 0 <= i < |sys.queries| ==> sys.queries[i].generation <= sys.state.generation)
    && (forall i, j :: CurrentAt(sys, i) && CurrentAt(sys, j) ==> i == j)
    && (sys.state.running <==> exists i :: CurrentAt(sys, i))
    && (sys.state.dirty ==> sys.state.running)
    && (!sys.state.running ==> sys.answered == sys.requests)
    && (forall i :: CurrentAt(sys, i) ==>
          && sys.answered <= sys.queries[i].covers <= sys.requests
          && (sys.state.dirty <==> sys.queries[i].covers < sys.requests))
  }

  /** A query is aborted exactly when its generation is retired. */
  ghost predicate AbortedIfRetired(sys: System) {
    && (forall c :: c in sys.state.aborted ==> c < sys.state.started)
    && (sys.state.controller.Some? ==> sys.state.controller.value < sys.state.started)
    && (forall i :: 0 <= i < |sys.queries| ==>
          && sys.queries[i].controller < sys.state.started
          && (sys.queries[i].controller in sys.state.aborted <==> sys.queries[i].generation != sys.state.generation)
          && (sys.queries[i].generation == sys.state.generation
              ==> sys.state.controller == Some(sys.queries[i].controller)))
    && (forall i :: 0 <= i < |sys.queries| ==> sys.queries[i].generation <= sys.state.generation)
  }

  lemma AskKeeps(sys: System)
    requires Covered(sys)
    ensures Covered(Apply(sys, Ask))
  {
    var sys' := Apply(sys, Ask);
    assert forall i :: 0 <= i < |sys.queries| ==> sys'.queries[i] == sys.queries[i];
    if sys.state.running {
      var i :| CurrentAt(sys, i);
      assert CurrentAt(sys', i);
      assert forall j :: CurrentAt(sys', j) ==> CurrentAt(sys, j);
    } else {
      assert CurrentAt(sys', |sys.queries|);
      assert forall i :: CurrentAt(sys', i) && i < |sys.queries| ==> CurrentAt(sys, i);
    }
  }

  /** Where the query now at position `i` was before position `k` was removed. */
  function Was(i: int, k: nat): int {
    if i < k then i else i + 1
  }

  lemma RetiredEndKeeps(sys: System, k: nat, response: Option<nat>)
    requires Covered(sys) && k < |sys.queries| && !CurrentAt(sys, k)
    ensures Covered(Apply(sys, End(k, response)))
  {
    var sys' := Apply(sys, End(k, response));
    assert sys'.state == sys.state && sys'.requests == sys.requests && sys'.answered == sys.answered;
    assert forall i :: 0 <= i < |sys'.queries| ==> sys'.queries[i] == sys.queries[Was(i, k)];
    forall i | CurrentAt(sys', i) ensures CurrentAt(sys, Was(i, k)) {
    }
    if sys.state.running {
      var j :| CurrentAt(sys, j);
      var i := if j < k then j else j - 1;
      assert Was(i, k) == j;
      assert CurrentAt(sys', i);
    }
  }

  lemma CurrentEndKeeps(sys: System, k: nat, response: Option<nat>)
    requires Covered(sys) && AbortedIfRetired(sys) && CurrentAt(sys, k)
    ensures Covered(Apply(sys, End(k, response)))
  {
    var sys' := Apply(sys, End(k, response));
    var n := |sys.queries| - 1;
    assert forall i :: 0 <= i < n ==> sys'.queries[i] == sys.queries[Was(i, k)];
    forall i | 0 <= i < n ensures !CurrentAt(sys', i) {
      assert !CurrentAt(sys, Was(i, k));
    }
    if sys.state.dirty {
      assert sys'.queries[n] == Query(sys.queries[k].generation, sys.queries[k].controller, sys.requests);
      assert CurrentAt(sys', n);
    }
  }

  lemma StepKeepsCovered(sys: System, step: Step)
    requires Covered(sys) && AbortedIfRetired(sys) && Enabled(sys, step)
    ensures Covered(Apply(sys, step))
  {
    match step
    case Ask => AskKeeps(sys);
    case End(i, response) =>
      if CurrentAt(sys, i) { CurrentEndKeeps(sys, i, response); } else { RetiredEndKeeps(sys, i, response); }
    case Retired => assert forall i :: !CurrentAt(Apply(sys, step), i);
  }

  lemma StepKeepsAborted(sys: System, step: Step)
    requires Covered(sys) && AbortedIfRetired(sys) && Enabled(sys, step)
    ensures AbortedIfRetired(Apply(sys, step))
  {
    var sys' := Apply(sys, step);
    match step
    case Ask =>
      assert forall i :: 0 <= i < |sys.queries| ==> sys'.queries[i] == sys.queries[i];
      assert forall i :: 0 <= i < |sys.queries| && !sys.state.running ==> !CurrentAt(sys, i);
    case End(k, _) =>
      var n := |sys.queries| - 1;
      assert forall i :: 0 <= i < n ==> sys'.queries[i] == sys.queries[Was(i, k)];
      assert forall i :: 0 <= i < n && CurrentAt(sys, k) ==> !CurrentAt(sys, Was(i, k));
    case Retired =>
  }

  lemma {:induction false} RunKeeps(trace: seq<System>, steps: seq<Step>, k: nat)
    requires Run(trace, steps) && k < |trace|
    ensures Covered(trace[k]) && AbortedIfRetired(trace[k])
  {
    if k > 0 {
      RunKeeps(trace, steps, k - 1);
      StepKeepsCovered(trace[k - 1], steps[k - 1]);
      StepKeepsAborted(trace[k - 1], steps[k - 1]);
    }
  }

  /** At every moment of every run each refresh is accounted for. */
  lemma NoRefreshLost(trace: seq<System>, steps: seq<Step>, k: nat)
    requires Run(trace, steps) && k < |trace|
    ensures Covered(trace[k])
  {
    RunKeeps(trace, steps, k);
  }

  /** In every run exactly the queries of retired generations are aborted. */
  lemma OnlyRetiredAborted(trace: seq<System>, steps: seq<Step>, k: nat, i: nat)
    requires Run(trace, steps) && k < |trace| && i < |trace[k].queries|
    ensures trace[k].queries[i].controller in trace[k].state.aborted
            <==> trace[k].queries[i].generation != trace[k].state.generation
  {
    RunKeeps(trace, steps, k);
  }

  /**
    A response is shown exactly while its generation is current, and then covers no less than the
    one before; a failure shows an error and leaves the last value.  No other step shows anything.
    */
  lemma OnlyCurrentShown(trace: seq<System>, steps: seq<Step>, k: nat)
    requires Run(trace, steps) && k < |steps|
    ensures var sys, shown, next := trace[k], trace[k].state, trace[k + 1].state;
            match steps[k]
            case End(i, response) =>
              if sys.queries[i].generation == shown.generation then
                && sys.answered <= trace[k + 1].answered == sys.queries[i].covers
                && next.value == (if response.Some? then response else shown.value)
                && next.status == (if response.Some? then Ready else Error)
              else next == shown
            case Ask | Retired => next.value == shown.value && next.status == shown.status
  {
    RunKeeps(trace, steps, k);
    if steps[k].End? && trace[k].queries[steps[k].index].generation == trace[k].state.generation {
      assert CurrentAt(trace[k], steps[k].index);
    }
  }

  /** A loop queries again exactly when it is current and a refresh came after its query began. */
  lemma RepeatsIffAsked(trace: seq<System>, steps: seq<Step>, k: nat, i: nat, response: Option<nat>)
    requires Run(trace, steps) && k < |steps| && steps[k] == End(i, response)
    ensures var sys, q := trace[k], trace[k].queries[i];
            trace[k + 1].queries == sys.queries[..i] + sys.queries[i + 1..] +
              if q.generation == sys.state.generation && q.covers < sys.requests
              then [Query(q.generation, q.controller, sys.requests)] else []
  {
    RunKeeps(trace, steps, k);
    if trace[k].queries[i].generation == trace[k].state.generation {
      assert CurrentAt(trace[k], i);
    }
  }
}

/** One mounted board: authoritative queries interleaved with live updates. */
module BoardSync {
  import opened Options

  type Rows = seq<nat>

  /** Abort controllers are numbered as loops start; `aborted` are those whose signal was raised. */
  datatype View = View(inFlight: bool, request: nat, refreshGeneration: nat, updateGeneration: nat, rows: Rows,
                       controller: Option<nat>, started: nat, aborted: set<nat>)

  const NEW_VIEW := View(false, 0, 0, 0, [], None, 0, {})

  /** What the running loop remembers of itself and of its current query. */
  datatype Loop = Loop(generation: nat, controller: nat, completedRequest: nat, capturedUpdate: nat)

  datatype Delivery = Resynchronization(rows: Rows) | Usable(rows: Rows) | Unusable

  /** The next query of the loop with this controller. */
  function Querying(v: View, controller: nat): Loop {
    Loop(v.refreshGeneration, controller, v.request, v.updateGeneration)
  }

  function AskRows(v: View): (View, bool) {
    var asked := v.(request := v.request + 1);
    if v.inFlight then (asked, false)
    else (asked.(inFlight := true, controller := Some(v.started), started := v.started + 1), true)
  }

  /** The query of a loop answered or failed; the answer says whether the loop queries again. */
  function Answered(v: View, loop: Loop, response: Option<Rows>): (View, bool) {
    if loop.generation != v.refreshGeneration then (v, false)
    else if response.None? && loop.controller in v.aborted then (v.(inFlight := false, controller := None), false)
    else
      var v' := if response.Some? && loop.capturedUpdate == v.updateGeneration then v.(rows := response.value) else v;
      if loop.completedRequest != v.request then (v', true) else (v'.(inFlight := false, controller := None), false)
  }

  /** A live update; the answer says whether a new loop starts. */
  function Deliver(v: View, d: Delivery): (View, bool) {
    match d
    case Resynchronization(rows) => (v.(updateGeneration := v.updateGeneration + 1, rows := rows), false)
    case Usable(rows) =>
      (v.(updateGeneration := v.updateGeneration + 1, rows := rows,
          request := if v.inFlight then v.request + 1 else v.request), false)
    case Unusable => AskRows(v)
  }

  function Unmount(v: View): View {
    v.(refreshGeneration := v.refreshGeneration + 1, updateGeneration := v.updateGeneration + 1,
       aborted := if v.controller.Some? then v.aborted + {v.controller.value} else v.aborted)
  }

  class BoardRows {
    var inFlight: bool
    var request: nat
    var refreshGeneration: nat
    var updateGeneration: nat
    var rows: Rows
    var controller: Option<nat>
    var started: nat
    var aborted: set<nat>

    ghost function State(): View
      reads this
    {
      View(inFlight, request, refreshGeneration, updateGeneration, rows, controller, started, aborted)
    }

    constructor ()
      ensures State() == NEW_VIEW
    {
      inFlight, request, refreshGeneration, updateGeneration, rows := false, 0, 0, 0, [];
      controller, started, aborted := None, 0, {};
    }

    method Refresh() returns (starts: bool)
      modifies this
      ensures (State(), starts) == AskRows(old(State()))
    {
      request := request + 1;
      if inFlight {
        return false;
      }
      inFlight := true;
      controller := Some(started);
      started := started + 1;
      return true;
    }

    method OnAnswered(loop: Loop, response: Option<Rows>) returns (again: bool)
      modifies this
      ensures (State(), again) == Answered(old(State()), loop, response)
    {
      if loop.generation != refreshGeneration {
        return false;
      }
      if response.None? && loop.controller in aborted {
        inFlight := false;
        controller := None;
        return false;
      }
      if response.Some? && loop.capturedUpdate == updateGeneration {
        rows := response.value;
      }
      if loop.completedRequest != request {
        return true;
      }
      inFlight := false;
      controller := None;
      return false;
    }

    method OnDelivery(d: Delivery) returns (starts: bool)
      modifies this
      ensures (State(), starts) == Deliver(old(State()), d)
    {
      match d {
        case Resynchronization(recovered) =>
          updateGeneration := updateGeneration + 1;
          rows := recovered;
          return false;
        case Usable(applied) =>
          updateGeneration := updateGeneration + 1;
          if inFlight {
            request := request + 1;
          }
          rows := applied;
          return false;
        case Unusable =>
          starts := Refresh();
      }
    }

    method OnUnmount()
      modifies this
      ensures State() == Unmount(old(State()))
    {
      refreshGeneration := refreshGeneration + 1;
      updateGeneration := updateGeneration + 1;
      if controller.Some? {
        aborted := aborted + {controller.value};
      }
    }
  }

  // ----- Runs -----

  /** A loop in flight, with what had been asked, updated and resynchronized when its query began. */
  datatype Flight = Flight(loop: Loop, asked: nat, updates: nat, resyncs: nat)

  /** `asked` counts the occasions for reading again; `served` is how many the last ended query came after. */
  datatype Board = Board(view: View, flights: seq<Flight>, mounted: bool, asked: nat, updates: nat, resyncs: nat, served: nat)

  datatype Event = Request | Reply(index: nat, response: Option<Rows>) | Live(delivery: Delivery) | Leave

  const MOUNTED := Board(NEW_VIEW, [], true, 0, 0, 0, 0)

  predicate Possible(b: Board, e: Event) {
    match e
    case Request => b.mounted
    case Reply(i, _) => i < |b.flights|
    case Live(_) => b.mounted
    case Leave => b.mounted
  }

  function Begun(b: Board, controller: nat): Board {
    b.(flights := b.flights + [Flight(Querying(b.view, controller), b.asked, b.updates, b.resyncs)])
  }

  /** A request, an update that cannot be applied, or one that was applied while a query is in flight. */
  predicate AsksAgain(b: Board, e: Event) {
    e.Request? || (e.Live? && (e.delivery.Unusable? || (e.delivery.Usable? && b.flights != [])))
  }

  function Happen(b: Board, e: Event): Board
    requires Possible(b, e)
  {
    HappenAsked(b.(asked := if AsksAgain(b, e) then b.asked + 1 else b.asked), e)
  }

  function HappenAsked(b: Board, e: Event): Board
    requires Possible(b, e)
  {
    match e
    case Request =>
      var (v, starts) := AskRows(b.view);
      if starts then Begun(b.(view := v), b.view.started) else b.(view := v)
    case Reply(i, response) =>
      var loop := b.flights[i].loop;
      var (v, again) := Answered(b.view, loop, response);
      var b' := b.(view := v, flights := b.flights[..i] + b.flights[i + 1..]);
      if again then Begun(b', loop.controller)
      else if loop.generation == b.view.refreshGeneration then b'.(served := b.flights[i].asked) else b'
    case Live(d) =>
      var (v, starts) := Deliver(b.view, d);
      var b' := b.(view := v, updates := if d.Unusable? then b.updates else b.updates + 1,
                   resyncs := if d.Resynchronization? then b.resyncs + 1 else b.resyncs);
      if starts then Begun(b', b.view.started) else b'
    case Leave => b.(view := Unmount(b.view), mounted := false)
  }

  ghost predicate History(trace: seq<Board>, events: seq<Event>) {
    && |trace| == |events| + 1 && trace[0] == MOUNTED
    && forall i :: 0 <= i < |events| ==> Possible(trace[i], events[i]) && trace[i + 1] == Happen(trace[i], events[i])
  }

  /**
    While the board is mounted at most one loop runs, it knows what happened since its query began,
    and it is aborted exactly once the board is left.
    */
  ghost predicate Accounted(b: Board) {
    && |b.flights| <= 1
    && (b.mounted ==>
          && b.view.refreshGeneration == 0 && b.view.updateGeneration == b.updates
          && (b.view.inFlight <==> |b.flights| == 1)
          && b.view.request == b.asked
          && (|b.flights| == 0 ==> b.served == b.asked))
    && (!b.mounted ==> b.view.refreshGeneration == 1)
    && (forall c :: c in b.view.aborted ==> c < b.view.started)
    && (b.view.controller.Some? ==> b.view.controller.value < b.view.started)
    && (forall i :: 0 <= i < |b.flights| ==>
          var f := b.flights[i];
          && f.loop.generation == 0
          && f.loop.capturedUpdate == f.updates <= b.updates && f.resyncs <= b.resyncs
          && f.loop.completedRequest == f.asked <= b.asked
          && f.loop.controller < b.view.started
          && (f.loop.controller in b.view.aborted <==> !b.mounted)
          && (b.mounted ==> b.view.controller == Some(f.loop.controller))
          && (b.mounted && f.asked == b.asked && f.resyncs == b.resyncs ==> f.updates == b.updates))
  }

  lemma EventKeeps(b: Board, e: Event)
    requires Accounted(b) && Possible(b, e)
    ensures Accounted(Happen(b, e))
  {
  }

  lemma {:induction false} NoRequestLost(trace: seq<Board>, events: seq<Event>, k: nat)
    requires History(trace, events) && k < |trace|
    ensures Accounted(trace[k])
  {
    if k > 0 {
      NoRequestLost(trace, events, k - 1);
      EventKeeps(trace[k - 1], events[k - 1]);
    }
  }

  /** The query in flight is aborted exactly when the board has been left. */
  lemma OnlyLeavingAborts(trace: seq<Board>, events: seq<Event>, k: nat, i: nat)
    requires History(trace, events) && k < |trace| && i < |trace[k].flights|
    ensures trace[k].flights[i].loop.controller in trace[k].view.aborted <==> !trace[k].mounted
  {
    NoRequestLost(trace, events, k);
  }

  /** A reply replaces the rows only if the board is mounted and no live update landed since its query began. */
  lemma NoStaleRows(trace: seq<Board>, events: seq<Event>, k: nat, i: nat, response: Option<Rows>)
    requires History(trace, events) && k < |events| && events[k] == Reply(i, response)
    ensures trace[k + 1].view.rows != trace[k].view.rows ==>
              && trace[k].mounted && response == Some(trace[k + 1].view.rows)
              && trace[k].updates == trace[k].flights[i].updates
  {
    NoRequestLost(trace, events, k);
  }

  /** The last answer of a loop is dropped only when a resynchronization replaced the rows meanwhile. */
  lemma DroppedOnlyAfterResync(trace: seq<Board>, events: seq<Event>, k: nat, i: nat, rows: Rows)
    requires History(trace, events) && k < |events| && events[k] == Reply(i, Some(rows)) && trace[k].mounted
    requires trace[k + 1].flights == []
    ensures trace[k + 1].view.rows == rows || trace[k].flights[i].resyncs < trace[k].resyncs
    ensures trace[k + 1].served == trace[k + 1].asked
  {
    NoRequestLost(trace, events, k);
    NoRequestLost(trace, events, k + 1);
  }

  /**
    After every event: a live update shows its rows; an answer shows its rows exactly when the board
    is mounted and no live update landed since its query began; nothing else changes the rows.
    */
  lemma RowsShown(trace: seq<Board>, events: seq<Event>, k: nat)
    requires History(trace, events) && k < |events|
    ensures trace[k + 1].view.rows ==
            match events[k]
            case Live(Resynchronization(rows)) => rows
            case Live(Usable(rows)) => rows
            case Reply(i, Some(rows)) =>
              if trace[k].mounted && trace[k].flights[i].updates == trace[k].updates then rows else trace[k].view.rows
            case _ => trace[k].view.rows
  {
    NoRequestLost(trace, events, k);
  }

  /** The loop of a board ends with its reply exactly when the board was left or nothing asked again meanwhile. */
  lemma RepeatsIffAsked(trace: seq<Board>, events: seq<Event>, k: nat, i: nat, response: Option<Rows>)
    requires History(trace, events) && k < |events| && events[k] == Reply(i, response)
    ensures trace[k + 1].flights == [] <==> !trace[k].mounted || trace[k].flights[i].asked == trace[k].asked
    ensures trace[k + 1].flights != [] ==>
              && |trace[k + 1].flights| == 1
              && trace[k + 1].flights[0].asked == trace[k].asked && trace[k + 1].flights[0].updates == trace[k].updates
  {
    NoRequestLost(trace, events, k);
  }
}
