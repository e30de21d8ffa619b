/** The static check that a filter tree confines a request to allowed boards. */
module BoardFilters {
  import opened Options

  datatype Comparison = Equal | OtherComparison(code: nat)

  datatype Operator = All | Either | OtherOperator(code: nat)

  /** A packed filter value: a board identifier or some other message. */
  datatype Packed = PackedBoard(board: string) | OtherMessage(payload: nat)

  datatype Filter = Filter(fieldPath: Option<seq<string>>, operator: Comparison, value: Option<Packed>)

  datatype Composite = Composite(operator: Operator, filters: seq<Filter>, children: seq<Composite>)

  datatype Criterion = IncludeAll | Filters(filters: seq<Composite>)

  datatype Target = Target(isBoardMessageView: bool, criterion: Criterion)

  function Join(names: seq<string>): string {
    if names == [] then "" else if |names| == 1 then names[0] else names[0] + "." + Join(names[1..])
  }

  lemma JoinedBoard(names: seq<string>)
    ensures Join(names) == "board" <==> names == ["board"]
  {
    if |names| > 1 {
      var joined := Join(names);
      assert joined[|names[0]|] == '.';
    }
  }

  predicate MatchesAuthorizedBoard(f: Filter, boards: seq<string>) {
    if f.fieldPath.None? || Join(f.fieldPath.value) != "board" || f.operator != Equal then false
    else f.value.Some? && f.value.value.PackedBoard? && f.value.value.board in boards
  }

  /** An equality on the one field `board` with an allowed board. */
  predicate AsksForBoard(f: Filter, boards: seq<string>) {
    && f.fieldPath == Some(["board"]) && f.operator == Equal
    && exists b :: b in boards && f.value == Some(PackedBoard(b))
  }

  /** A filter matches exactly when it asks for the one field `board` to equal an allowed board. */
  lemma MatchesIff(f: Filter, boards: seq<string>)
    ensures MatchesAuthorizedBoard(f, boards) <==>
              && f.fieldPath == Some(["board"]) && f.operator == Equal
              && exists b :: b in boards && f.value == Some(PackedBoard(b))
  {
    if f.fieldPath.Some? {
      JoinedBoard(f.fieldPath.value);
    }
  }

  // ----- The analysis without a budget -----

  predicate Guarantees(c: Composite, boards: seq<string>) {
    match c.operator
    case All =>
      (exists f :: f in c.filters && MatchesAuthorizedBoard(f, boards)) ||
      (exists child :: child in c.children && Guarantees(child, boards))
    case Either =>
      && (c.filters != [] || c.children != [])
      && (forall f :: f in c.filters ==> MatchesAuthorizedBoard(f, boards))
      && (forall child :: child in c.children ==> Guarantees(child, boards))
    case OtherOperator(_) => false
  }

  function Composites(c: Composite): nat {
    1 + CompositesIn(c.children)
  }

  function CompositesIn(cs: seq<Composite>): nat {
    if cs == [] then 0 else CompositesIn(cs[..|cs| - 1]) + Composites(cs[|cs| - 1])
  }

  function Simples(c: Composite): nat {
    |c.filters| + SimplesIn(c.children)
  }

  function SimplesIn(cs: seq<Composite>): nat {
    if cs == [] then 0 else SimplesIn(cs[..|cs| - 1]) + Simples(cs[|cs| - 1])
  }

  lemma {:induction false} CountsGrow(cs: seq<Composite>, k: nat)
    requires k <= |cs|
    ensures CompositesIn(cs[..k]) <= CompositesIn(cs) && SimplesIn(cs[..k]) <= SimplesIn(cs)
    decreases |cs|
  {
    if k < |cs| {
      assert cs[..|cs| - 1][..k] == cs[..k];
      CountsGrow(cs[..|cs| - 1], k);
    } else {
      assert cs[..k] == cs;
    }
  }

  const MAX_COMPOSITES := 8
  const MAX_SIMPLES := 16

  /** Small enough in total, and some top-level filter alone confines the rows. */
  predicate Authorized(target: Target, boards: seq<string>) {
    && target.isBoardMessageView && target.criterion.Filters?
    && CompositesIn(target.criterion.filters) <= MAX_COMPOSITES
    && SimplesIn(target.criterion.filters) <= MAX_SIMPLES
    && exists c :: c in target.criterion.filters && Guarantees(c, boards)
  }

  /** The simple filters of a tree and of a list of trees, in reading order. */
  function FiltersOf(c: Composite): seq<Filter> {
    c.filters + FiltersIn(c.children)
  }

  function FiltersIn(cs: seq<Composite>): seq<Filter> {
    if cs == [] then [] else FiltersIn(cs[..|cs| - 1]) + FiltersOf(cs[|cs| - 1])
  }

  /** The composites of a tree and of a list of trees, the outer one before its children. */
  function NodesOf(c: Composite): seq<Composite> {
    [c] + NodesIn(c.children)
  }

  function NodesIn(cs: seq<Composite>): seq<Composite> {
    if cs == [] then [] else NodesIn(cs[..|cs| - 1]) + NodesOf(cs[|cs| - 1])
  }

  lemma {:induction false} FilterOfChild(cs: seq<Composite>, child: Composite, f: Filter)
    requires child in cs && f in FiltersOf(child)
    ensures f in FiltersIn(cs)
  {
    if child != cs[|cs| - 1] {
      FilterOfChild(cs[..|cs| - 1], child, f);
    }
  }

  /** The budget counts every composite and every simple filter at any depth. */
  lemma {:induction false} CountsAll(c: Composite)
    ensures Composites(c) == |NodesOf(c)| && Simples(c) == |FiltersOf(c)|
  {
    CountsAllIn(c.children);
  }

  lemma {:induction false} CountsAllIn(cs: seq<Composite>)
    ensures CompositesIn(cs) == |NodesIn(cs)| && SimplesIn(cs) == |FiltersIn(cs)|
  {
    if cs != [] {
      CountsAllIn(cs[..|cs| - 1]);
      CountsAll(cs[|cs| - 1]);
    }
  }

  /** At most eight composites and sixteen simple filters, of a board view, and one guaranteed tree. */
  lemma AuthorizedIff(target: Target, boards: seq<string>)
    ensures Authorized(target, boards) <==>
              && target.isBoardMessageView && target.criterion.Filters?
              && |NodesIn(target.criterion.filters)| <= 8 && |FiltersIn(target.criterion.filters)| <= 16
              && exists c :: c in target.criterion.filters && Forced(c, boards)
  {
    if target.criterion.Filters? {
      CountsAllIn(target.criterion.filters);
      forall c | c in target.criterion.filters ensures Guarantees(c, boards) <==> Forced(c, boards) {
        GuaranteesIffForced(c, boards);
      }
    }
  }

  // ----- The analysis is the strongest one that looks at the shape alone -----

  /** The tree under a choice of which simple filters are true; what the check cannot read is true. */
  predicate Truth(chosen: Filter -> bool, c: Composite) {
    match c.operator
    case All =>
      (forall f :: f in c.filters ==> chosen(f)) && (forall child :: child in c.children ==> Truth(chosen, child))
    case Either =>
      || (c.filters == [] && c.children == [])
      || (exists f :: f in c.filters && chosen(f))
      || (exists child :: child in c.children && Truth(chosen, child))
    case OtherOperator(_) => true
  }

  /** The tree cannot be true unless one of its filters that asks for an allowed board is. */
  ghost predicate Forced(c: Composite, boards: seq<string>) {
    forall chosen: Filter -> bool :: Truth(chosen, c) ==>
      exists f :: f in FiltersOf(c) && AsksForBoard(f, boards) && chosen(f)
  }

  lemma {:induction false} GuaranteeForces(c: Composite, boards: seq<string>, chosen: Filter -> bool) returns (f: Filter)
    requires Guarantees(c, boards) && Truth(chosen, c)
    ensures f in FiltersOf(c) && AsksForBoard(f, boards) && chosen(f)
  {
    if g :| g in c.filters && MatchesAuthorizedBoard(g, boards) && chosen(g) {
      MatchesIff(g, boards);
      f := g;
    } else if c.operator.Either? {
      var child :| child in c.children && Truth(chosen, child);
      f := GuaranteeForces(child, boards, chosen);
      FilterOfChild(c.children, child, f);
    } else {
      var child :| child in c.children && Guarantees(child, boards);
      f := GuaranteeForces(child, boards, chosen);
      FilterOfChild(c.children, child, f);
    }
  }

  /** Without a guarantee the tree is true although no filter that asks for an allowed board is. */
  lemma {:induction false} NotForced(c: Composite, boards: seq<string>)
    requires !Guarantees(c, boards)
    ensures Truth(f => !AsksForBoard(f, boards), c)
  {
    forall f: Filter ensures MatchesAuthorizedBoard(f, boards) <==> AsksForBoard(f, boards) { MatchesIff(f, boards); }
    forall child | child in c.children && !Guarantees(child, boards)
      ensures Truth(f => !AsksForBoard(f, boards), child)
    {
      NotForced(child, boards);
    }
  }

  /** A tree is guaranteed exactly when its shape forces some filter that asks for an allowed board. */
  lemma GuaranteesIffForced(c: Composite, boards: seq<string>)
    ensures Guarantees(c, boards) <==> Forced(c, boards)
  {
    hide Guarantees, Truth, AsksForBoard;
    if Guarantees(c, boards) {
      forall chosen: Filter -> bool | Truth(chosen, c)
        ensures exists f :: f in FiltersOf(c) && AsksForBoard(f, boards) && chosen(f)
      {
        var f := GuaranteeForces(c, boards, chosen);
      }
    } else {
      NotForced(c, boards);
    }
  }

  // ----- What filters mean -----

  datatype Row = Row(board: string, rest: nat)

  /** Open parts of the meaning: other simple filters, unknown operators and empty composites. */
  datatype Semantics = Semantics(simple: (Filter, Row) -> bool, other: (Composite, Row) -> bool)

  predicate Holds(sem: Semantics, f: Filter, row: Row) {
    if f.fieldPath == Some(["board"]) && f.operator == Equal && f.value.Some? && f.value.value.PackedBoard?
    then row.board == f.value.value.board
    else sem.simple(f, row)
  }

  predicate Satisfies(sem: Semantics, c: Composite, row: Row) {
    if c.operator.OtherOperator? || (c.filters == [] && c.children == []) then sem.other(c, row)
    else if c.operator.All? then
      && (forall f :: f in c.filters ==> Holds(sem, f, row))
      && (forall child :: child in c.children ==> Satisfies(sem, child, row))
    else
      || (exists f :: f in c.filters && Holds(sem, f, row))
      || (exists child :: child in c.children && Satisfies(sem, child, row))
  }

  lemma MatchConfines(sem: Semantics, f: Filter, boards: seq<string>, row: Row)
    requires MatchesAuthorizedBoard(f, boards) && Holds(sem, f, row)
    ensures row.board in boards
  {
    JoinedBoard(f.fieldPath.value);
  }

  lemma {:induction false} GuaranteeConfines(sem: Semantics, c: Composite, boards: seq<string>, row: Row)
    requires Guarantees(c, boards) && Satisfies(sem, c, row)
    ensures row.board in boards
  {
    if c.operator.All? {
      if f :| f in c.filters && MatchesAuthorizedBoard(f, boards) {
        MatchConfines(sem, f, boards, row);
      } else {
        var child :| child in c.children && Guarantees(child, boards);
        GuaranteeConfines(sem, child, boards, row);
      }
    } else {
      if f :| f in c.filters && Holds(sem, f, row) {
        MatchConfines(sem, f, boards, row);
      } else {
        var child :| child in c.children && Satisfies(sem, child, row);
        GuaranteeConfines(sem, child, boards, row);
      }
    }
  }

  /** Whatever the open parts mean, every row an authorized target can show has an allowed board. */
  lemma AuthorizedConfines(sem: Semantics, target: Target, boards: seq<string>, row: Row)
    requires Authorized(target, boards)
    requires forall c :: c in target.criterion.filters ==> Satisfies(sem, c, row)
    ensures row.board in boards
  {
    var c :| c in target.criterion.filters && Guarantees(c, boards);
    GuaranteeConfines(sem, c, boards, row);
  }
}

/** The traversal that spends a shared budget, proved equal to the analysis without one. */
module BoardAccess {
  import opened BoardFilters

  class Budget {
    var compositeFilters: int
    var simpleFilters: int

    constructor (compositeFilters: int, simpleFilters: int)
      ensures this.compositeFilters == compositeFilters && this.simpleFilters == simpleFilters
    {
      this.compositeFilters, this.simpleFilters := compositeFilters, simpleFilters;
    }
  }

  /** The budget is overdrawn exactly when the tree is larger than it; otherwise the answer is exact. */
  method GuaranteesAuthorizedBoard(composite: Composite, boards: seq<string>, budget: Budget) returns (r: bool)
    modifies budget
    ensures budget.compositeFilters >= 0 && budget.simpleFilters >= 0 <==>
            old(budget.compositeFilters) >= Composites(composite) && old(budget.simpleFilters) >= Simples(composite)
    ensures budget.compositeFilters >= 0 && budget.simpleFilters >= 0 ==>
              && budget.compositeFilters == old(budget.compositeFilters) - Composites(composite)
              && budget.simpleFilters == old(budget.simpleFilters) - Simples(composite)
              && r == Guarantees(composite, boards)
    decreases composite
  {
    ghost var before, simplesBefore := budget.compositeFilters, budget.simpleFilters;
    var children := composite.children;
    budget.compositeFilters := budget.compositeFilters - 1;
    budget.simpleFilters := budget.simpleFilters - |composite.filters|;
    if budget.compositeFilters < 0 || budget.simpleFilters < 0 {
      return false;
    }
    var guaranteed := seq(|composite.filters|, i requires 0 <= i < |composite.filters| =>
                            MatchesAuthorizedBoard(composite.filters[i], boards));
    for k := 0 to |children|
      invariant budget.compositeFilters >= 0 && budget.simpleFilters >= 0
      invariant budget.compositeFilters == before - 1 - CompositesIn(children[..k])
      invariant budget.simpleFilters == simplesBefore - |composite.filters| - SimplesIn(children[..k])
      invariant |guaranteed| == |composite.filters| + k
      invariant forall i :: 0 <= i < |composite.filters| ==>
                  guaranteed[i] == MatchesAuthorizedBoard(composite.filters[i], boards)
      invariant forall i :: 0 <= i < k ==> guaranteed[|composite.filters| + i] == Guarantees(children[i], boards)
    {
      assert children[..k + 1][..k] == children[..k];
      CountsGrow(children, k + 1);
      var g := GuaranteesAuthorizedBoard(children[k], boards, budget);
      guaranteed := guaranteed + [g];
      if budget.compositeFilters < 0 || budget.simpleFilters < 0 {
        return false;
      }
    }
    assert children[..|children|] == children;
    AnswerIsExact(composite, boards, guaranteed);
    if guaranteed == [] {
      return false;
    }
    return if composite.operator == All then true in guaranteed
           else composite.operator == Either && false !in guaranteed;
  }

  lemma AnswerIsExact(c: Composite, boards: seq<string>, guaranteed: seq<bool>)
    requires |guaranteed| == |c.filters| + |c.children|
    requires forall i :: 0 <= i < |c.filters| ==> guaranteed[i] == MatchesAuthorizedBoard(c.filters[i], boards)
    requires forall i :: 0 <= i < |c.children| ==> guaranteed[|c.filters| + i] == Guarantees(c.children[i], boards)
    ensures c.operator.All? ==> (Guarantees(c, boards) <==> true in guaranteed)
    ensures c.operator.Either? ==> (Guarantees(c, boards) <==> guaranteed != [] && false !in guaranteed)
  {
    forall f | f in c.filters ensures MatchesAuthorizedBoard(f, boards) in guaranteed {
      var i :| 0 <= i < |c.filters| && c.filters[i] == f;
      assert guaranteed[i] in guaranteed;
    }
    forall child | child in c.children ensures Guarantees(child, boards) in guaranteed {
      var i :| 0 <= i < |c.children| && c.children[i] == child;
      assert guaranteed[|c.filters| + i] in guaranteed;
    }
    forall b | b in guaranteed
      ensures (exists f :: f in c.filters && MatchesAuthorizedBoard(f, boards) == b) ||
              (exists child :: child in c.children && Guarantees(child, boards) == b)
    {
      var i :| 0 <= i < |guaranteed| && guaranteed[i] == b;
      if i < |c.filters| {
        assert c.filters[i] in c.filters;
      } else {
        assert c.children[i - |c.filters|] in c.children;
        assert guaranteed[|c.filters| + (i - |c.filters|)] == b;
      }
    }
  }

  /** Authorizes exactly the targets the analysis without a budget accepts within the size limits. */
  method AuthorizesBoard(target: Target, boards: seq<string>) returns (r: bool)
    ensures r <==> Authorized(target, boards)
  {
    hide Guarantees;
    if !target.isBoardMessageView || !target.criterion.Filters? {
      return false;
    }
    var filters := target.criterion.filters;
    var budget := new Budget(MAX_COMPOSITES, MAX_SIMPLES);
    var authorized := false;
    for k := 0 to |filters|
      invariant fresh(budget)
      invariant budget.compositeFilters >= 0 && budget.simpleFilters >= 0
      invariant budget.compositeFilters == MAX_COMPOSITES - CompositesIn(filters[..k])
      invariant budget.simpleFilters == MAX_SIMPLES - SimplesIn(filters[..k])
      invariant authorized <==> exists c :: c in filters[..k] && Guarantees(c, boards)
    {
      assert filters[..k + 1][..k] == filters[..k];
      CountsGrow(filters, k + 1);
      var g := GuaranteesAuthorizedBoard(filters[k], boards, budget);
      authorized := g || authorized;
      if budget.compositeFilters < 0 || budget.simpleFilters < 0 {
        return false;
      }
      assert filters[..k + 1] == filters[..k] + [filters[k]];
    }
    assert filters[..|filters|] == filters;
    return authorized;
  }
}
