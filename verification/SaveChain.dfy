/** The promise chain that runs the saves of one editor one after another. */
module SaveChain {
  /** A save waits for the one before it, runs, and has settled, whether it succeeded or failed. */
  datatype Link = Chained | Running | Settled

  datatype Event = Flush | Start(index: nat) | Settle(index: nat)

  /** A flush chains a save behind the last one; a save starts once the one before it has settled. */
  predicate Possible(links: seq<Link>, e: Event) {
    match e
    case Flush => true
    case Start(i) => i < |links| && links[i].Chained? && (i == 0 || links[i - 1].Settled?)
    case Settle(i) => i < |links| && links[i].Running?
  }

  function After(links: seq<Link>, e: Event): seq<Link>
    requires Possible(links, e)
  {
    match e
    case Flush => links + [Chained]
    case Start(i) => links[i := Running]
    case Settle(i) => links[i := Settled]
  }

  /** A history from a chain of saves none of which has started. */
  ghost predicate History(trace: seq<seq<Link>>, events: seq<Event>) {
    && |trace| == |events| + 1
    && (forall i :: 0 <= i < |trace[0]| ==> trace[0][i].Chained?)
    && forall i :: 0 <= i < |events| ==> Possible(trace[i], events[i]) && trace[i + 1] == After(trace[i], events[i])
  }

  /** Whatever has started comes after settled saves only. */
  ghost predicate InOrder(links: seq<Link>) {
    forall i, j :: 0 <= i < j < |links| && !links[j].Chained? ==> links[i].Settled?
  }

  lemma EventKeepsOrder(links: seq<Link>, e: Event)
    requires InOrder(links) && Possible(links, e)
    ensures InOrder(After(links, e))
  {
    if e.Start? && e.index > 0 {
      forall i | 0 <= i < e.index ensures links[i].Settled? {
        assert !links[e.index - 1].Chained?;
      }
    }
  }

  lemma {:induction false} HistoryInOrder(trace: seq<seq<Link>>, events: seq<Event>, k: nat)
    requires History(trace, events) && k < |trace|
    ensures InOrder(trace[k])
  {
    if k > 0 {
      HistoryInOrder(trace, events, k - 1);
      EventKeepsOrder(trace[k - 1], events[k - 1]);
    }
  }

  /** At most one save runs at any moment, and saves run in the order they were asked for. */
  lemma OneSaveRuns(trace: seq<seq<Link>>, events: seq<Event>, k: nat, i: nat, j: nat)
    requires History(trace, events) && k < |trace| && i < |trace[k]| && j < |trace[k]|
    requires trace[k][i].Running?
    ensures trace[k][j].Running? ==> i == j
    ensures j < i ==> trace[k][j].Settled?
    ensures i < j ==> trace[k][j].Chained?
  {
    HistoryInOrder(trace, events, k);
  }

  // ----- The chain as a count -----

  /** `settled` settled saves, then the running one if there is any, then `waiting` chained ones. */
  function Form(settled: nat, busy: bool, waiting: nat): (links: seq<Link>)
    ensures |links| == settled + (if busy then 1 else 0) + waiting
    ensures forall i :: 0 <= i < |links| ==>
              links[i] == if i < settled then Settled else if busy && i == settled then Running else Chained
  {
    seq(settled, _ => Settled) + (if busy then [Running] else []) + seq(waiting, _ => Chained)
  }

  /** In a chain of that form exactly the first waiting save can start, and only when none runs. */
  lemma StartPossibleIff(settled: nat, busy: bool, waiting: nat, i: nat)
    ensures Possible(Form(settled, busy, waiting), Start(i)) <==> !busy && waiting > 0 && i == settled
  {
    var links := Form(settled, busy, waiting);
    if i > 0 && i < |links| {
      assert links[i - 1].Settled? <==> i - 1 < settled;
    }
  }

  lemma FormAfter(settled: nat, busy: bool, waiting: nat)
    ensures Possible(Form(settled, busy, waiting), Flush)
            && After(Form(settled, busy, waiting), Flush) == Form(settled, busy, waiting + 1)
    ensures !busy && waiting > 0 ==>
              Possible(Form(settled, busy, waiting), Start(settled))
              && After(Form(settled, busy, waiting), Start(settled)) == Form(settled, true, waiting - 1)
    ensures busy ==>
              Possible(Form(settled, busy, waiting), Settle(settled))
              && After(Form(settled, busy, waiting), Settle(settled)) == Form(settled + 1, false, waiting)
  {
    StartPossibleIff(settled, busy, waiting, settled);
  }

  lemma Extended(trace: seq<seq<Link>>, events: seq<Event>, e: Event)
    requires History(trace, events) && Possible(trace[|trace| - 1], e)
    ensures History(trace + [After(trace[|trace| - 1], e)], events + [e])
  {
    hide Possible, After;
    var next := After(trace[|trace| - 1], e);
    forall i | 0 <= i < |events| + 1
      ensures Possible((trace + [next])[i], (events + [e])[i])
              && (trace + [next])[i + 1] == After((trace + [next])[i], (events + [e])[i])
    {
      if i < |events| {
        assert (trace + [next])[i] == trace[i] && (trace + [next])[i + 1] == trace[i + 1];
      }
    }
  }
}

/** The editor's phase and counter of waiting saves are that chain. */
module SaveChainRuns {
  import opened MarkdownEditor
  import M = MarkdownSaveRuns
  import opened SaveChain

  ghost function ChainOf(e: Editor, settled: nat): seq<Link> {
    Form(settled, !e.phase.Idle?, e.waiting)
  }

  /** How one step of the editor moves its chain: by a flush, a start, the end of a save, or not at all. */
  lemma StepOfChain(sys: M.System, step: M.Step)
    requires M.Enabled(sys, step)
    ensures var e, e' := sys.editor, M.Apply(sys, step).editor;
            match step
            case Flush => e'.phase == e.phase && e'.waiting == e.waiting + 1
            case Start => e.phase.Idle? && e.waiting > 0 && e'.waiting == e.waiting - 1
            case _ => e'.waiting == e.waiting && (e.phase.Idle? ==> e'.phase.Idle?)
  {
  }

  /**
    Every run of the editor is a history of the chain: at each moment the editor is busy exactly
    while a save of the chain runs, and its counter is the number of saves still chained.
    */
  lemma {:induction false} RunIsHistory(trace: seq<M.System>, steps: seq<M.Step>, k: nat)
      returns (links: seq<seq<Link>>, events: seq<Event>, settled: nat)
    requires M.Run(trace, steps) && M.Initial(trace[0]) && k < |trace|
    ensures History(links, events) && links[|links| - 1] == ChainOf(trace[k].editor, settled)
  {
    hide M.Apply, M.Enabled, M.Initial, Possible, After;
    if k == 0 {
      settled := 0;
      InitiallyIdle(trace[0]);
      links, events := [ChainOf(trace[0].editor, 0)], [];
      return;
    }
    links, events, settled := RunIsHistory(trace, steps, k - 1);
    var before, after, step := trace[k - 1].editor, trace[k].editor, steps[k - 1];
    StepOfChain(trace[k - 1], step);
    var busy := !before.phase.Idle?;
    FormAfter(settled, busy, before.waiting);
    if step.Flush? {
      Extended(links, events, Flush);
      links, events := links + [ChainOf(after, settled)], events + [Flush];
    } else if step.Start? {
      Extended(links, events, Start(settled));
      links, events := links + [Form(settled, true, after.waiting)], events + [Start(settled)];
      busy := true;
    }
    if busy && after.phase.Idle? {
      FormAfter(settled, true, after.waiting);
      Extended(links, events, Settle(settled));
      links, events := links + [ChainOf(after, settled + 1)], events + [Settle(settled)];
      settled := settled + 1;
    }
  }

  lemma InitiallyIdle(sys: M.System)
    requires M.Initial(sys)
    ensures sys.editor.phase.Idle?
  {
  }
}
