/** Composition of proto modules by an explicit stack, proved against the recursive traversal. */
module ModuleComposition {
  import opened ModuleGraph

  datatype Frame = Frame(moduleId: ModuleId, appendSchemas: bool)

  datatype CompositionError = DependencyCycle(name: string) | ModuleConflict(name: string)

  datatype Outcome<+T> = Composed(value: T) | Failed(error: CompositionError)

  /** A snapshot of the composition in progress. */
  datatype Progress = Progress(
    definitions: map<string, ModuleId>,
    visiting: set<string>,
    verified: set<ModuleId>,
    order: seq<ModuleId>
  )

  // ----- The invariant of the traversal -----

  ghost predicate Defined(h: Heap, roots: seq<ModuleId>, s: Progress) {
    && (forall n :: n in s.definitions ==> DefinedName(h, roots, s, n))
    && (forall n :: n in s.visiting ==> n in s.definitions)
  }

  ghost predicate DefinedName(h: Heap, roots: seq<ModuleId>, s: Progress, n: string)
    requires n in s.definitions
  {
    var def := s.definitions[n];
    def in h && h[def].name == n && Reachable(h, roots, def)
  }

  /** A verified module agrees with its verified definition and all its dependencies are verified. */
  ghost predicate VerifiedModule(h: Heap, roots: seq<ModuleId>, s: Progress, m: ModuleId)
    requires Closed(h)
  {
    && m in h && Agrees(h, s, m)
    && s.definitions[h[m].name] in s.verified
    && (forall d :: d in h[m].dependencies ==> d in s.verified && Before(h, s.order, h[d].name, h[m].name))
  }

  ghost predicate Agrees(h: Heap, s: Progress, m: ModuleId)
    requires Closed(h) && m in h
  {
    && h[m].name in s.definitions
    && s.definitions[h[m].name] in h
    && SameModule(h, s.definitions[h[m].name], m)
  }

  ghost predicate Verified(h: Heap, roots: seq<ModuleId>, s: Progress)
    requires Closed(h)
  {
    forall m :: m in s.verified ==> VerifiedModule(h, roots, s, m)
  }

  ghost predicate IsDefinition(h: Heap, s: Progress, m: ModuleId) {
    m in h && h[m].name in s.definitions && s.definitions[h[m].name] == m
  }

  ghost predicate Ordered(h: Heap, s: Progress) {
    && DistinctNames(h, s.order)
    && (forall m :: m in s.order ==> IsDefinition(h, s, m))
    && (forall n :: n in s.definitions ==> (s.definitions[n] in s.order <==> s.definitions[n] in s.verified))
  }

  /** The state between two calls: nothing is being visited and every definition is verified. */
  ghost predicate Settled(h: Heap, roots: seq<ModuleId>, s: Progress)
    requires Closed(h)
  {
    && Defined(h, roots, s) && Verified(h, roots, s) && Ordered(h, s)
    && s.visiting == {}
    && (forall n :: n in s.definitions ==> s.definitions[n] in s.verified)
  }

  ghost function Path(h: Heap, frames: seq<Frame>): set<string> {
    set f | f in frames && f.appendSchemas && f.moduleId in h :: h[f.moduleId].name
  }

  /** What the stack still owes: pending visits and appends, read from the top. */
  ghost predicate Stacked(h: Heap, roots: seq<ModuleId>, s: Progress, frames: seq<Frame>)
    requires Closed(h)
  {
    && (forall f :: f in frames ==> f.moduleId in h && Reachable(h, roots, f.moduleId))
    && s.visiting == Path(h, frames)
    && (forall n :: n in s.definitions ==> s.definitions[n] in s.verified || n in s.visiting)
    && (forall i :: 0 <= i < |frames| && frames[i].appendSchemas ==> Appending(h, s, frames, i))
  }

  /** One module on the current path, at position `i` of the stack. */
  ghost predicate Appending(h: Heap, s: Progress, frames: seq<Frame>, i: nat)
    requires Closed(h) && i < |frames|
  {
    var m := frames[i].moduleId;
    && m in h
    && m !in s.verified
    && Agrees(h, s, m)
    && (s.definitions[h[m].name] == m || s.definitions[h[m].name] in s.verified)
    && (forall j :: i < j < |frames| ==>
          && DependsOn(h, m, frames[j].moduleId)
          && frames[j].moduleId in h
          && (frames[j].appendSchemas ==> h[frames[j].moduleId].name != h[m].name))
    && (forall d :: d in h[m].dependencies ==>
          d in s.verified || exists j :: i < j < |frames| && frames[j].moduleId == d)
  }

  ghost predicate Invariant(h: Heap, roots: seq<ModuleId>, s: Progress, frames: seq<Frame>)
    requires Closed(h)
  {
    Defined(h, roots, s) && Verified(h, roots, s) && Ordered(h, s) && Stacked(h, roots, s, frames)
  }

  /** The order the recursive traversal still reaches from this stack. */
  ghost function Remaining(h: Heap, order: seq<ModuleId>, frames: seq<Frame>): seq<ModuleId>
    requires Closed(h) && forall f :: f in frames ==> f.moduleId in h
    decreases |frames|
  {
    if frames == [] then order
    else
      var rest, top := frames[..|frames| - 1], frames[|frames| - 1];
      var m := top.moduleId;
      if !top.appendSchemas then Remaining(h, Visit(h, order, Path(h, rest), m), rest)
      else Remaining(h, if Listed(h, order, h[m].name) then order else order + [m], rest)
  }

  function Visits(ms: seq<ModuleId>): (frames: seq<Frame>)
    ensures |frames| == |ms|
    ensures forall k :: 0 <= k < |ms| ==> frames[k] == Frame(ms[|ms| - 1 - k], false)
  {
    seq(|ms|, k requires 0 <= k < |ms| => Frame(ms[|ms| - 1 - k], false))
  }

  // ----- The three kinds of step -----

  ghost function Appended(h: Heap, s: Progress, m: ModuleId): Progress
    requires m in h && h[m].name in s.definitions
  {
    s.(visiting := s.visiting - {h[m].name},
       verified := s.verified + {m},
       order := if s.definitions[h[m].name] == m then s.order + [m] else s.order)
  }

  ghost function Expanded(h: Heap, s: Progress, m: ModuleId): Progress
    requires m in h
  {
    s.(visiting := s.visiting + {h[m].name},
       definitions := if h[m].name in s.definitions then s.definitions else s.definitions[h[m].name := m])
  }

  lemma BeforeAppend(h: Heap, order: seq<ModuleId>, a: string, b: string, m: ModuleId)
    requires Before(h, order, a, b)
    ensures Before(h, order + [m], a, b)
  {
    var i, j :| && 0 <= i < j < |order| && order[i] in h && order[j] in h
                && h[order[i]].name == a && h[order[j]].name == b;
    var o := order + [m];
    assert 0 <= i < j < |o| && o[i] == order[i] && o[j] == order[j];
  }

  /** A verified name has been contributed. */
  lemma VerifiedIsListed(h: Heap, roots: seq<ModuleId>, s: Progress, m: ModuleId)
    requires Closed(h) && Defined(h, roots, s) && Verified(h, roots, s) && Ordered(h, s)
    requires m in s.verified
    ensures Listed(h, s.order, h[m].name)
  {
    var def := s.definitions[h[m].name];
    assert def in s.order;
  }

  /** Dependencies of a definition stand before it, hence before any equal duplicate. */
  lemma DuplicateIsOrdered(h: Heap, roots: seq<ModuleId>, s: Progress, m: ModuleId, d: ModuleId)
    requires Closed(h) && Verified(h, roots, s) && m in h && d in h[m].dependencies
    requires h[m].name in s.definitions && s.definitions[h[m].name] in s.verified
    requires SameModule(h, s.definitions[h[m].name], m)
    ensures Before(h, s.order, h[d].name, h[m].name)
  {
    hide Before;
    var def := s.definitions[h[m].name];
    assert VerifiedModule(h, roots, s, def);
    assert h[def].name == h[m].name;
    if def != m {
      var k :| 0 <= k < |h[m].dependencies| && h[m].dependencies[k] == d;
      assert |h[def].dependencies| == |h[m].dependencies|;
      assert DependencyName(h, def, k) == DependencyName(h, m, k);
      assert h[def].dependencies[k] in h[def].dependencies;
    }
  }

  /** A definition is appended after the names of its dependencies. */
  lemma DefinitionIsOrdered(h: Heap, roots: seq<ModuleId>, s: Progress, m: ModuleId, d: ModuleId)
    requires Closed(h) && Defined(h, roots, s) && Verified(h, roots, s) && Ordered(h, s)
    requires m in h && Agrees(h, s, m) && s.definitions[h[m].name] == m
    requires d in h[m].dependencies && d in s.verified
    ensures Before(h, Appended(h, s, m).order, h[d].name, h[m].name)
  {
    hide DistinctNames, SameModule, Reachable;
    var s' := Appended(h, s, m);
    VerifiedIsListed(h, roots, s, d);
    var i :| 0 <= i < |s.order| && s.order[i] in h && h[s.order[i]].name == h[d].name;
    assert s'.order[i] == s.order[i] && s'.order[|s.order|] == m;
  }

  lemma AppendKeepsVerified(h: Heap, roots: seq<ModuleId>, s: Progress, m: ModuleId)
    requires Closed(h) && Defined(h, roots, s) && Verified(h, roots, s) && Ordered(h, s)
    requires m in h && m !in s.verified && Reachable(h, roots, m) && Agrees(h, s, m)
    requires s.definitions[h[m].name] == m || s.definitions[h[m].name] in s.verified
    requires forall d :: d in h[m].dependencies ==> d in s.verified
    ensures Verified(h, roots, Appended(h, s, m))
  {
    hide DistinctNames, SameModule, Reachable, Before;
    var s' := Appended(h, s, m);
    forall x | x in s'.verified ensures VerifiedModule(h, roots, s', x) {
      forall d | d in h[x].dependencies ensures d in s.verified && Before(h, s'.order, h[d].name, h[x].name) {
        if x == m && s.definitions[h[m].name] == m {
          DefinitionIsOrdered(h, roots, s, m, d);
        } else if x == m {
          DuplicateIsOrdered(h, roots, s, m, d);
        } else {
          assert VerifiedModule(h, roots, s, x);
          BeforeAppend(h, s.order, h[d].name, h[x].name, m);
        }
      }
    }
  }

  lemma AppendKeepsOrdered(h: Heap, roots: seq<ModuleId>, s: Progress, m: ModuleId)
    requires Closed(h) && Defined(h, roots, s) && Ordered(h, s)
    requires m in h && m !in s.verified && Agrees(h, s, m)
    ensures Ordered(h, Appended(h, s, m))
    ensures Listed(h, s.order, h[m].name) ==> s.definitions[h[m].name] != m
  {
    hide SameModule, Reachable;
    var n := h[m].name;
    if s.definitions[n] == m {
      assert m !in s.order;
      forall k | 0 <= k < |s.order| ensures h[s.order[k]].name != n {
        assert s.order[k] in s.order;
        assert IsDefinition(h, s, s.order[k]);
      }
    }
  }

  /** A module below the top stays on the path when the top is popped. */
  lemma PopKeepsAppending(h: Heap, s: Progress, s': Progress, frames: seq<Frame>, top: Frame, i: nat)
    requires Closed(h) && i < |frames|
    requires Appending(h, s, frames + [top], i)
    requires s'.definitions == s.definitions && s.verified <= s'.verified <= s.verified + {top.moduleId}
    requires top.moduleId in s'.verified && top.moduleId != frames[i].moduleId
    ensures Appending(h, s', frames, i)
  {
    var full := frames + [top];
    var m := frames[i].moduleId;
    assert full[i] == frames[i];
    assert forall j :: i < j < |frames| ==> full[j] == frames[j];
    forall d | d in h[m].dependencies && d !in s'.verified
      ensures exists j :: i < j < |frames| && frames[j].moduleId == d
    {
      var j :| i < j < |full| && full[j].moduleId == d;
      assert j < |frames|;
    }
  }

  lemma AppendKeepsStack(h: Heap, roots: seq<ModuleId>, s: Progress, frames: seq<Frame>, m: ModuleId)
    requires Closed(h) && Stacked(h, roots, s, frames + [Frame(m, true)])
    requires m in h && h[m].name in s.definitions && s.definitions[h[m].name] in s.verified + {m}
    ensures Stacked(h, roots, Appended(h, s, m), frames)
  {
    var full := frames + [Frame(m, true)];
    var t := |frames|;
    var s' := Appended(h, s, m);
    assert full[t] == Frame(m, true);
    assert forall f :: f in full <==> f in frames || f == Frame(m, true);
    forall i | 0 <= i < |frames| && frames[i].appendSchemas
      ensures Appending(h, s', frames, i) && h[frames[i].moduleId].name != h[m].name
    {
      assert full[i] == frames[i] && Appending(h, s, full, i);
      assert full[t].appendSchemas;
      PopKeepsAppending(h, s, s', frames, Frame(m, true), i);
    }
    forall f | f in frames && f.appendSchemas ensures h[f.moduleId].name != h[m].name {
      var i :| 0 <= i < |frames| && frames[i] == f;
    }
    assert s'.visiting == Path(h, frames);
  }

  /** Popping the append frame of the module on top. */
  lemma AppendKeeps(h: Heap, roots: seq<ModuleId>, s: Progress, frames: seq<Frame>, m: ModuleId)
    requires Closed(h) && Invariant(h, roots, s, frames + [Frame(m, true)])
    ensures m in h && h[m].name in s.definitions
    ensures Invariant(h, roots, Appended(h, s, m), frames)
    ensures Remaining(h, s.order, frames + [Frame(m, true)]) == Remaining(h, Appended(h, s, m).order, frames)
  {
    var full := frames + [Frame(m, true)];
    var t := |frames|;
    assert full[t] == Frame(m, true) && full[t] in full && full[..t] == frames;
    assert Appending(h, s, full, t);
    AppendKeepsVerified(h, roots, s, m);
    AppendKeepsOrdered(h, roots, s, m);
    AppendKeepsStack(h, roots, s, frames, m);
    if s.definitions[h[m].name] != m { VerifiedIsListed(h, roots, s, s.definitions[h[m].name]); }
  }

  /** Popping a visit of a module already verified. */
  lemma SkipKeeps(h: Heap, roots: seq<ModuleId>, s: Progress, frames: seq<Frame>, m: ModuleId)
    requires Closed(h) && Invariant(h, roots, s, frames + [Frame(m, false)]) && m in s.verified
    ensures Invariant(h, roots, s, frames)
    ensures Remaining(h, s.order, frames + [Frame(m, false)]) == Remaining(h, s.order, frames)
  {
    var full := frames + [Frame(m, false)];
    assert full[|frames|] == Frame(m, false) && full[..|frames|] == frames;
    assert forall f :: f in full <==> f in frames || f == Frame(m, false);
    forall i | 0 <= i < |frames| && frames[i].appendSchemas ensures Appending(h, s, frames, i) {
      assert full[i] == frames[i] && Appending(h, s, full, i);
      PopKeepsAppending(h, s, s, frames, Frame(m, false), i);
    }
    assert Path(h, full) == Path(h, frames);
    VerifiedIsListed(h, roots, s, m);
  }

  lemma ExpandKeepsRecords(h: Heap, roots: seq<ModuleId>, s: Progress, m: ModuleId)
    requires Closed(h) && Defined(h, roots, s) && Verified(h, roots, s) && Ordered(h, s)
    requires m in h && m !in s.verified && Reachable(h, roots, m)
    requires h[m].name in s.definitions ==> Agrees(h, s, m)
    ensures Defined(h, roots, Expanded(h, s, m))
    ensures Verified(h, roots, Expanded(h, s, m))
    ensures Ordered(h, Expanded(h, s, m))
  {
    var s' := Expanded(h, s, m);
    forall n | n in s'.definitions ensures DefinedName(h, roots, s', n) {
      assert n in s.definitions ==> DefinedName(h, roots, s, n);
    }
    forall x | x in s'.verified ensures VerifiedModule(h, roots, s', x) {
      assert VerifiedModule(h, roots, s, x);
    }
    assert h[m].name !in s.definitions ==> m !in s.order by {
      if m in s.order { assert IsDefinition(h, s, m); }
    }
    forall x | x in s'.order ensures IsDefinition(h, s', x) {
      assert IsDefinition(h, s, x);
    }
  }

  /** Every frame pushed by an expansion is a visit of a dependency. */
  lemma PushedFrames(h: Heap, roots: seq<ModuleId>, frames: seq<Frame>, m: ModuleId)
    requires Closed(h) && m in h && Reachable(h, roots, m)
    requires forall f :: f in frames ==> f.moduleId in h && Reachable(h, roots, f.moduleId)
    ensures forall f :: f in frames + [Frame(m, true)] + Visits(h[m].dependencies) ==>
                f.moduleId in h && Reachable(h, roots, f.moduleId)
    ensures Path(h, frames + [Frame(m, true)] + Visits(h[m].dependencies)) == Path(h, frames) + {h[m].name}
  {
    var vs := Visits(h[m].dependencies);
    var next := frames + [Frame(m, true)] + vs;
    forall f | f in vs ensures f.moduleId in h[m].dependencies && !f.appendSchemas {
      var k :| 0 <= k < |vs| && vs[k] == f;
    }
    assert forall f :: f in next <==> f in frames || f == Frame(m, true) || f in vs;
    forall f | f in vs ensures Reachable(h, roots, f.moduleId) {
      ReachableDependency(h, roots, m, f.moduleId);
    }
  }

  /** Popping a visit that expands: the append frame and the dependencies take its place. */
  lemma ExpandKeeps(h: Heap, roots: seq<ModuleId>, s: Progress, frames: seq<Frame>, m: ModuleId)
    requires Closed(h) && Invariant(h, roots, s, frames + [Frame(m, false)])
    requires m in h && h[m].name !in s.visiting && m !in s.verified
    requires h[m].name in s.definitions ==> Agrees(h, s, m)
    ensures Invariant(h, roots, Expanded(h, s, m), frames + [Frame(m, true)] + Visits(h[m].dependencies))
    ensures forall f :: f in frames + [Frame(m, true)] + Visits(h[m].dependencies) ==> f.moduleId in h
  {
    hide Stacked, Appending, DependsOn, Reachable, SameModule, DistinctNames, Path;
    StackBelow(h, roots, s, frames, Frame(m, false));
    ExpandKeepsRecords(h, roots, s, m);
    PushedFrames(h, roots, frames, m);
    var s' := Expanded(h, s, m);
    forall d | d in h[m].dependencies ensures DependsOn(h, m, d) {
      DependsOnExtend(h, m, m, d);
    }
    DefinedOrVisiting(h, roots, s, frames, m);
    ExpandKeepsTop(h, s', frames, m);
    var next := frames + [Frame(m, true)] + Visits(h[m].dependencies);
    forall i | 0 <= i < |next| && next[i].appendSchemas ensures Appending(h, s', next, i) {
      if i < |frames| {
        assert next[i] == frames[i];
        ExpandKeepsBelow(h, roots, s, frames, m, i);
      }
    }
    StackedAgain(h, roots, s', next);
  }

  /** What the stack says of the frames below a visit on top. */
  lemma StackBelow(h: Heap, roots: seq<ModuleId>, s: Progress, frames: seq<Frame>, top: Frame)
    requires Closed(h) && Stacked(h, roots, s, frames + [top]) && !top.appendSchemas
    ensures forall f :: f in frames ==> f.moduleId in h && Reachable(h, roots, f.moduleId)
    ensures top.moduleId in h && Reachable(h, roots, top.moduleId)
    ensures s.visiting == Path(h, frames)
  {
    hide Appending, Reachable;
    var full := frames + [top];
    assert full[|frames|] == top && full[|frames|] in full;
    assert forall f :: f in full <==> f in frames || f == top;
    assert Path(h, full) == Path(h, frames);
  }

  lemma DefinedOrVisiting(h: Heap, roots: seq<ModuleId>, s: Progress, frames: seq<Frame>, m: ModuleId)
    requires Closed(h) && Invariant(h, roots, s, frames + [Frame(m, false)])
    requires m in h && h[m].name !in s.visiting && (h[m].name in s.definitions ==> Agrees(h, s, m))
    ensures var s' := Expanded(h, s, m);
            && (forall n :: n in s'.definitions ==> s'.definitions[n] in s'.verified || n in s'.visiting)
            && Agrees(h, s', m)
            && (s'.definitions[h[m].name] == m || s'.definitions[h[m].name] in s'.verified)
  {
    hide Appending, DistinctNames;
  }

  lemma StackedAgain(h: Heap, roots: seq<ModuleId>, s: Progress, frames: seq<Frame>)
    requires Closed(h)
    requires forall f :: f in frames ==> f.moduleId in h && Reachable(h, roots, f.moduleId)
    requires s.visiting == Path(h, frames)
    requires forall n :: n in s.definitions ==> s.definitions[n] in s.verified || n in s.visiting
    requires forall i :: 0 <= i < |frames| && frames[i].appendSchemas ==> Appending(h, s, frames, i)
    ensures Stacked(h, roots, s, frames)
  {
  }

  lemma ExpandKeepsTop(h: Heap, s: Progress, frames: seq<Frame>, m: ModuleId)
    requires Closed(h) && m in h && m !in s.verified
    requires Agrees(h, s, m)
    requires s.definitions[h[m].name] == m || s.definitions[h[m].name] in s.verified
    requires forall d :: d in h[m].dependencies ==> DependsOn(h, m, d)
    ensures Appending(h, s, frames + [Frame(m, true)] + Visits(h[m].dependencies), |frames|)
  {
    var ds := h[m].dependencies;
    var next := frames + [Frame(m, true)] + Visits(ds);
    forall j | |frames| < j < |next|
      ensures next[j].moduleId in ds && !next[j].appendSchemas
    {
      assert next[j] == Visits(ds)[j - |frames| - 1];
    }
    forall d | d in ds ensures exists j :: |frames| < j < |next| && next[j].moduleId == d {
      var k :| 0 <= k < |ds| && ds[k] == d;
      var j := |frames| + 1 + (|ds| - 1 - k);
      assert next[j] == Visits(ds)[|ds| - 1 - k];
    }
  }

  lemma ExpandKeepsBelow(h: Heap, roots: seq<ModuleId>, s: Progress, frames: seq<Frame>, m: ModuleId, i: nat)
    requires Closed(h) && Invariant(h, roots, s, frames + [Frame(m, false)])
    requires m in h && h[m].name !in s.visiting && m !in s.verified
    requires i < |frames| && frames[i].appendSchemas
    ensures Appending(h, Expanded(h, s, m), frames + [Frame(m, true)] + Visits(h[m].dependencies), i)
  {
    hide DependsOn, SameModule, DistinctNames, Verified, Defined, Ordered;
    var full := frames + [Frame(m, false)];
    var t := |frames|;
    var ds := h[m].dependencies;
    var next := frames + [Frame(m, true)] + Visits(ds);
    var x := frames[i].moduleId;
    assert full[i] == frames[i] && Appending(h, s, full, i);
    assert full[t].moduleId == m && DependsOn(h, x, m);
    assert h[x].name in s.visiting by { assert full[i] in full; }
    forall j | i < j < |next|
      ensures && DependsOn(h, x, next[j].moduleId) && next[j].moduleId in h
              && (next[j].appendSchemas ==> h[next[j].moduleId].name != h[x].name)
    {
      if j < t {
        assert next[j] == full[j];
      } else if j > t {
        assert next[j] == Visits(ds)[j - t - 1];
        DependsOnExtend(h, x, m, next[j].moduleId);
      }
    }
    forall d | d in h[x].dependencies && d !in s.verified
      ensures exists j :: i < j < |next| && next[j].moduleId == d
    {
      StillAwaited(frames, m, Visits(ds), i, d);
    }
  }

  lemma StillAwaited(frames: seq<Frame>, m: ModuleId, visits: seq<Frame>, i: nat, d: ModuleId)
    requires exists j :: i < j < |frames| + 1 && (frames + [Frame(m, false)])[j].moduleId == d
    ensures var next := frames + [Frame(m, true)] + visits;
            exists j :: i < j < |next| && next[j].moduleId == d
  {
    var next := frames + [Frame(m, true)] + visits;
    var j :| i < j < |frames| + 1 && (frames + [Frame(m, false)])[j].moduleId == d;
    assert next[j].moduleId == d;
  }

  /** Unrolling one visit leaves the order still to be reached unchanged. */
  lemma ExpandRemaining(h: Heap, roots: seq<ModuleId>, s: Progress, frames: seq<Frame>, m: ModuleId)
    requires Closed(h) && Invariant(h, roots, s, frames + [Frame(m, false)])
    requires m in h && h[m].name !in s.visiting && m !in s.verified
    requires h[m].name in s.definitions ==> Agrees(h, s, m)
    requires forall f :: f in frames + [Frame(m, true)] + Visits(h[m].dependencies) ==> f.moduleId in h
    ensures Remaining(h, s.order, frames + [Frame(m, false)])
         == Remaining(h, s.order, frames + [Frame(m, true)] + Visits(h[m].dependencies))
  {
    var n, ds := h[m].name, h[m].dependencies;
    var full := frames + [Frame(m, false)];
    var base := frames + [Frame(m, true)];
    assert full[..|frames|] == frames && base[..|frames|] == frames;
    assert forall f :: f in full <==> f in frames || f == Frame(m, false);
    assert forall f :: f in base <==> f in frames || f == Frame(m, true);
    var path := Path(h, frames);
    assert Path(h, full) == path;
    assert Path(h, base) == path + {n};
    VisitsRemaining(h, s.order, base, ds);
    var done := VisitAll(h, s.order, path + {n}, ds);
    if Listed(h, s.order, n) {
      var k :| 0 <= k < |s.order| && s.order[k] in h && h[s.order[k]].name == n;
      assert s.order[k] in s.order;
      forall d | d in ds ensures Listed(h, s.order, h[d].name) {
        DuplicateIsOrdered(h, roots, s, m, d);
      }
      VisitAllListed(h, s.order, path + {n}, ds);
    } else {
      VisitAllSkipsPath(h, s.order, path + {n}, ds, n);
    }
  }

  lemma {:induction false} VisitsRemaining(h: Heap, order: seq<ModuleId>, base: seq<Frame>, ds: seq<ModuleId>)
    requires Closed(h) && (forall f :: f in base ==> f.moduleId in h) && (forall d :: d in ds ==> d in h)
    requires forall f :: f in base + Visits(ds) ==> f.moduleId in h
    ensures Remaining(h, order, base + Visits(ds)) == Remaining(h, VisitAll(h, order, Path(h, base), ds), base)
    decreases |ds|
  {
    hide Visit, Closed, Listed;
    if ds == [] {
      assert base + Visits(ds) == base;
    } else {
      var rest := base + Visits(ds[1..]);
      var all := base + Visits(ds);
      forall k | 0 <= k < |rest| ensures all[k] == rest[k] {
        if k >= |base| { assert all[k] == Visits(ds)[k - |base|]; }
      }
      assert all[..|all| - 1] == rest;
      assert all[|all| - 1] == Frame(ds[0], false);
      assert Path(h, rest) == Path(h, base) by {
        forall f | f in rest && f.appendSchemas ensures f in base {
          var k :| 0 <= k < |rest| && rest[k] == f;
        }
      }
      assert forall f :: f in rest ==> f in all;
      VisitsRemaining(h, Visit(h, order, Path(h, base), ds[0]), base, ds[1..]);
    }
  }

  /** Meeting a name on the current path again closes a cycle of names. */
  lemma CycleFound(h: Heap, roots: seq<ModuleId>, s: Progress, frames: seq<Frame>, m: ModuleId)
    requires Closed(h) && Invariant(h, roots, s, frames + [Frame(m, false)])
    requires m in h && h[m].name in s.visiting
    ensures CycleAt(h, roots, h[m].name)
  {
    var full := frames + [Frame(m, false)];
    var f :| f in full && f.appendSchemas && f.moduleId in h && h[f.moduleId].name == h[m].name;
    var i :| 0 <= i < |full| && full[i] == f;
    assert Appending(h, s, full, i);
    assert full[|frames|].moduleId == m;
    DependsOnOwnName(h, roots, f.moduleId, m);
  }

  // ----- The end of composition -----

  lemma VerifiedClosure(h: Heap, roots: seq<ModuleId>, s: Progress, p: seq<ModuleId>, k: nat)
    requires Closed(h) && Verified(h, roots, s) && Walk(h, p) && k < |p| && p[0] in s.verified
    ensures p[k] in s.verified
  {
    if k > 0 {
      VerifiedClosure(h, roots, s, p, k - 1);
      assert p[k - 1 + 1] in h[p[k - 1]].dependencies;
    }
  }

  /** Every root is verified. */
  ghost predicate RootsVerified(roots: seq<ModuleId>, verified: set<ModuleId>) {
    roots == [] || (roots[0] in verified && RootsVerified(roots[1..], verified))
  }

  lemma RootIsVerified(roots: seq<ModuleId>, verified: set<ModuleId>, r: ModuleId)
    requires RootsVerified(roots, verified) && r in roots
    ensures r in verified
  {
  }

  lemma RootsVerifiedAppend(roots: seq<ModuleId>, verified: set<ModuleId>, verified': set<ModuleId>, r: ModuleId)
    requires RootsVerified(roots, verified) && verified <= verified' && r in verified'
    ensures RootsVerified(roots + [r], verified')
  {
    if roots == [] {
      assert [r][1..] == [];
    } else {
      assert (roots + [r])[1..] == roots[1..] + [r];
    }
  }

  lemma ReachableIsVerified(h: Heap, roots: seq<ModuleId>, s: Progress, m: ModuleId)
    requires Closed(h) && Verified(h, roots, s) && RootsVerified(roots, s.verified)
    requires Reachable(h, roots, m)
    ensures m in s.verified
  {
    var p :| Walk(h, p) && p[0] in roots && p[|p| - 1] == m;
    RootIsVerified(roots, s.verified, p[0]);
    VerifiedClosure(h, roots, s, p, |p| - 1);
  }

  /** Both modules agree with one definition, hence with each other. */
  lemma NoConflict(h: Heap, roots: seq<ModuleId>, s: Progress, n: string)
    requires Closed(h) && Verified(h, roots, s) && RootsVerified(roots, s.verified)
    ensures !ConflictAt(h, roots, n)
  {
    hide ConflictAt, SameModule, Reachable, Before, RootsVerified;
    forall x, y | && x in h && y in h && Reachable(h, roots, x) && Reachable(h, roots, y)
                  && h[x].name == n && h[y].name == n
      ensures SameModule(h, x, y)
    {
      ReachableIsVerified(h, roots, s, x);
      ReachableIsVerified(h, roots, s, y);
      assert VerifiedModule(h, roots, s, x) && VerifiedModule(h, roots, s, y);
      AgreementIsTransitive(h, s.definitions[n], x, y);
    }
    NoDifferenceNoConflict(h, roots, n);
  }

  lemma AgreementIsTransitive(h: Heap, def: ModuleId, x: ModuleId, y: ModuleId)
    requires Closed(h) && def in h && x in h && y in h
    requires SameModule(h, def, x) && SameModule(h, def, y)
    ensures SameModule(h, x, y)
  {
    forall i | 0 <= i < |h[x].dependencies| ensures DependencyName(h, x, i) == DependencyName(h, y, i) {
      assert DependencyName(h, def, i) == DependencyName(h, x, i);
      assert DependencyName(h, def, i) == DependencyName(h, y, i);
    }
  }

  /** Once every root is verified, the order is dependency-first and nothing was wrong. */
  lemma SettledIsComplete(h: Heap, roots: seq<ModuleId>, s: Progress)
    requires Closed(h) && Settled(h, roots, s) && RootsVerified(roots, s.verified)
    ensures DependencyFirst(h, roots, s.order)
    ensures Composable(h, roots)
  {
    forall m | m in h && Reachable(h, roots, m) ensures Listed(h, s.order, h[m].name) {
      ReachableIsVerified(h, roots, s, m);
      VerifiedIsListed(h, roots, s, m);
    }
    forall m | m in s.order ensures Reachable(h, roots, m) {
      assert IsDefinition(h, s, m) && DefinedName(h, roots, s, h[m].name);
    }
    forall a, b | NameEdge(h, roots, a, b) ensures Before(h, s.order, b, a) {
      var x, d :| && x in h && Reachable(h, roots, x) && h[x].name == a
                  && d in h[x].dependencies && d in h && h[d].name == b;
      ReachableIsVerified(h, roots, s, x);
      assert VerifiedModule(h, roots, s, x);
    }
    forall n ensures !ConflictAt(h, roots, n) && !CycleAt(h, roots, n) {
      NoConflict(h, roots, s, n);
      OrderedIsAcyclic(h, roots, s.order, n);
    }
  }

  /** The error names a conflict or a cycle that the modules really contain. */
  ghost predicate ErrorIsReal(h: Heap, roots: seq<ModuleId>, e: CompositionError)
    requires Closed(h)
  {
    match e
    case DependencyCycle(n) => CycleAt(h, roots, n)
    case ModuleConflict(n) => ConflictAt(h, roots, n)
  }

  lemma SchemasOfAppend(h: Heap, order: seq<ModuleId>, m: ModuleId)
    requires m in h && forall x :: x in order ==> x in h
    ensures SchemasOf(h, order + [m]) == SchemasOf(h, order) + h[m].schemas
  {
    var o := order + [m];
    assert o[..|o| - 1] == order;
  }

  lemma TopFrame(h: Heap, roots: seq<ModuleId>, s: Progress, rest: seq<Frame>, frame: Frame)
    requires Closed(h) && Invariant(h, roots, s, rest + [frame])
    ensures frame.moduleId in h && Reachable(h, roots, frame.moduleId)
    ensures forall n :: n in s.definitions ==> s.definitions[n] in h && h[s.definitions[n]].name == n
    ensures frame.appendSchemas || frame.moduleId in s.verified ==> h[frame.moduleId].name in s.definitions
    ensures forall n :: n in s.definitions ==> Reachable(h, roots, s.definitions[n])
    ensures forall f :: f in rest + [frame] && f.appendSchemas ==> f.moduleId in h && h[f.moduleId].name in s.visiting
    ensures h[frame.moduleId].name in s.definitions && !SameModule(h, s.definitions[h[frame.moduleId].name], frame.moduleId)
            ==> frame.moduleId !in s.verified
  {
    var full := rest + [frame];
    assert full[|rest|] == frame && full[|rest|] in full;
    forall n | n in s.definitions
      ensures s.definitions[n] in h && h[s.definitions[n]].name == n && Reachable(h, roots, s.definitions[n])
    {
      assert DefinedName(h, roots, s, n);
    }
    if frame.moduleId in s.verified {
      assert VerifiedModule(h, roots, s, frame.moduleId);
    }
  }

  lemma PushedIn(rest: seq<Frame>, frame: Frame, m: ModuleId, visits: seq<Frame>)
    requires frame == Frame(m, false) && forall k :: 0 <= k < |visits| ==> !visits[k].appendSchemas
    ensures forall f :: f in rest + [frame] ==> f in rest + [Frame(m, true)] + visits || f == frame
    ensures Frame(m, true) in rest + [Frame(m, true)] + visits
    ensures forall f :: f in rest + [Frame(m, true)] + visits && f.appendSchemas ==> f in rest + [frame] || f == Frame(m, true)
  {
    forall f | f in visits ensures !f.appendSchemas {
      var k :| 0 <= k < |visits| && visits[k] == f;
    }
  }

  lemma EmptyStack(h: Heap, roots: seq<ModuleId>, s: Progress)
    requires Closed(h) && Invariant(h, roots, s, [])
    ensures Settled(h, roots, s) && Remaining(h, s.order, []) == s.order
  {
  }

  lemma StartStack(h: Heap, roots: seq<ModuleId>, s: Progress, root: ModuleId)
    requires Closed(h) && Settled(h, roots, s) && root in h && root in roots
    ensures Invariant(h, roots, s, [Frame(root, false)]) && s.verified <= h.Keys
    ensures Remaining(h, s.order, [Frame(root, false)]) == Visit(h, s.order, {}, root)
  {
    ReachableRoot(h, roots, root);
    forall m | m in s.verified ensures m in h { assert VerifiedModule(h, roots, s, m); }
    var frames := [Frame(root, false)];
    assert frames[..0] == [];
    assert Path(h, []) == {} && Path(h, frames) == {};
  }

  // ----- One turn of the loop -----

  /** Holds at every turn of the loop; `target` is the order the recursive traversal reaches. */
  ghost predicate Traversing(h: Heap, roots: seq<ModuleId>, s: Progress, schemas: seq<Schema>, frames: seq<Frame>,
                             target: seq<ModuleId>, expanded: set<ModuleId>)
  {
    && Closed(h) && Invariant(h, roots, s, frames)
    && Contributed(h, s.order, schemas)
    && (forall f :: f in frames ==> f.moduleId in h) && Remaining(h, s.order, frames) == target
    && s.verified <= expanded <= h.Keys
    && (forall f :: f in frames && f.appendSchemas ==> f.moduleId in expanded)
    && (forall m :: m in expanded && m !in s.verified ==> Frame(m, true) in frames)
  }

  ghost predicate Contributed(h: Heap, order: seq<ModuleId>, schemas: seq<Schema>) {
    (forall m :: m in order ==> m in h) && schemas == SchemasOf(h, order)
  }

  lemma ContributedAppend(h: Heap, order: seq<ModuleId>, schemas: seq<Schema>, m: ModuleId)
    requires Contributed(h, order, schemas) && m in h
    ensures Contributed(h, order + [m], schemas + h[m].schemas)
  {
    SchemasOfAppend(h, order, m);
  }

  /** What the loop reads of the frame on top. */
  lemma TopTurn(h: Heap, roots: seq<ModuleId>, s: Progress, schemas: seq<Schema>, rest: seq<Frame>, frame: Frame,
                target: seq<ModuleId>, expanded: set<ModuleId>)
    requires Traversing(h, roots, s, schemas, rest + [frame], target, expanded)
    ensures Closed(h) && frame.moduleId in h && expanded <= h.Keys
    ensures var n := h[frame.moduleId].name;
            && (frame.appendSchemas || frame.moduleId in s.verified ==> n in s.definitions)
            && (n in s.definitions ==> s.definitions[n] in h)
            && (!frame.appendSchemas && n in s.visiting ==> ErrorIsReal(h, roots, DependencyCycle(n)))
            && (n in s.definitions && !SameModule(h, s.definitions[n], frame.moduleId)
                ==> ErrorIsReal(h, roots, ModuleConflict(n)))
  {
    hide SameModule, Reachable, ConflictAt, CycleAt, Invariant, Remaining, Contributed;
    TopFrame(h, roots, s, rest, frame);
    var n := h[frame.moduleId].name;
    if !frame.appendSchemas && n in s.visiting {
      CycleFound(h, roots, s, rest, frame.moduleId);
    }
    if n in s.definitions && !SameModule(h, s.definitions[n], frame.moduleId) {
      DifferenceIsConflict(h, roots, s.definitions[n], frame.moduleId);
    }
  }

  lemma AppendTurn(h: Heap, roots: seq<ModuleId>, s: Progress, schemas: seq<Schema>, rest: seq<Frame>, m: ModuleId,
                   target: seq<ModuleId>, expanded: set<ModuleId>)
    requires Traversing(h, roots, s, schemas, rest + [Frame(m, true)], target, expanded)
    ensures m in h && h[m].name in s.definitions
    ensures var schemas' := if s.definitions[h[m].name] == m then schemas + h[m].schemas else schemas;
            Traversing(h, roots, Appended(h, s, m), schemas', rest, target, expanded)
  {
    hide Invariant, Remaining, Contributed;
    AppendKeeps(h, roots, s, rest, m);
    assert Frame(m, true) in rest + [Frame(m, true)];
    assert forall f :: f in rest ==> f in rest + [Frame(m, true)];
    if s.definitions[h[m].name] == m {
      ContributedAppend(h, s.order, schemas, m);
    }
  }

  lemma SkipTurn(h: Heap, roots: seq<ModuleId>, s: Progress, schemas: seq<Schema>, rest: seq<Frame>, m: ModuleId,
                 target: seq<ModuleId>, expanded: set<ModuleId>)
    requires Traversing(h, roots, s, schemas, rest + [Frame(m, false)], target, expanded) && m in s.verified
    ensures Traversing(h, roots, s, schemas, rest, target, expanded)
  {
    hide Invariant, Remaining, Contributed;
    SkipKeeps(h, roots, s, rest, m);
    assert forall f :: f in rest ==> f in rest + [Frame(m, false)];
  }

  lemma ExpandTurn(h: Heap, roots: seq<ModuleId>, s: Progress, schemas: seq<Schema>, rest: seq<Frame>, m: ModuleId,
                   target: seq<ModuleId>, expanded: set<ModuleId>)
    requires Traversing(h, roots, s, schemas, rest + [Frame(m, false)], target, expanded)
    requires m in h && h[m].name !in s.visiting && m !in s.verified
    requires h[m].name in s.definitions ==> s.definitions[h[m].name] in h && SameModule(h, s.definitions[h[m].name], m)
    ensures m !in expanded
    ensures Traversing(h, roots, Expanded(h, s, m), schemas, rest + [Frame(m, true)] + Visits(h[m].dependencies),
                       target, expanded + {m})
  {
    hide Invariant, Remaining, Contributed, SameModule;
    TopFrame(h, roots, s, rest, Frame(m, false));
    ExpandKeeps(h, roots, s, rest, m);
    ExpandRemaining(h, roots, s, rest, m);
    PushedIn(rest, Frame(m, false), m, Visits(h[m].dependencies));
  }

  lemma FirstTurn(h: Heap, roots: seq<ModuleId>, s: Progress, schemas: seq<Schema>, root: ModuleId)
    requires Closed(h) && Settled(h, roots, s) && Contributed(h, s.order, schemas) && root in h && root in roots
    ensures Traversing(h, roots, s, schemas, [Frame(root, false)], Visit(h, s.order, {}, root), s.verified)
  {
    StartStack(h, roots, s, root);
  }

  lemma LastTurn(h: Heap, roots: seq<ModuleId>, s: Progress, schemas: seq<Schema>,
                 target: seq<ModuleId>, expanded: set<ModuleId>)
    requires Traversing(h, roots, s, schemas, [], target, expanded)
    ensures Settled(h, roots, s) && Contributed(h, s.order, schemas) && s.order == target
  {
    EmptyStack(h, roots, s);
  }

  // ----- The composition itself -----

  /** The maps and sets that one composition threads through all of its roots. */
  class Composition {
    const heap: Heap
    var definitions: map<string, ModuleId>
    var visiting: set<string>
    var verified: set<ModuleId>
    var schemas: seq<Schema>
    ghost var order: seq<ModuleId>

    ghost function View(): Progress
      reads this
    {
      Progress(definitions, visiting, verified, order)
    }

    /** Holds before and after each root is composed. */
    ghost predicate Valid(roots: seq<ModuleId>)
      reads this
    {
      Closed(heap) && Settled(heap, roots, View()) && Contributed(heap, order, schemas)
    }

    constructor (h: Heap, ghost roots: seq<ModuleId>)
      requires Closed(h)
      ensures heap == h && Valid(roots) && order == [] && verified == {}
    {
      heap := h;
      definitions, visiting, verified, schemas, order := map[], {}, {}, [], [];
    }

    /** Traverses the dependency graph of one root; no module object is expanded twice. */
    method Compose(root: ModuleId, ghost roots: seq<ModuleId>) returns (r: Outcome<()>)
      requires Valid(roots) && root in heap && root in roots
      modifies this
      ensures r.Composed? ==> Valid(roots) && root in verified && old(verified) <= verified
      ensures r.Composed? ==> order == Visit(heap, old(order), {}, root)
      ensures r.Failed? ==> ErrorIsReal(heap, roots, r.error)
    {
      hide Traversing, Settled, Contributed, Visit, ErrorIsReal, SameModule;
      FirstTurn(heap, roots, View(), schemas, root);
      var frames := [Frame(root, false)];
      ghost var target := Visit(heap, order, {}, root);
      ghost var expanded := verified;
      while frames != []
        invariant Traversing(heap, roots, View(), schemas, frames, target, expanded)
        invariant old(verified) <= verified
        invariant root in verified || Frame(root, false) in frames || Frame(root, true) in frames
        decreases heap.Keys - expanded, |frames|
      {
        var frame, rest := frames[|frames| - 1], frames[..|frames| - 1];
        var m := frame.moduleId;
        assert frames == rest + [frame];
        TopTurn(heap, roots, View(), schemas, rest, frame, target, expanded);
        var name := heap[m].name;
        if frame.appendSchemas {
          AppendTurn(heap, roots, View(), schemas, rest, m, target, expanded);
          visiting := visiting - {name};
          verified := verified + {m};
          if definitions[name] == m {
            schemas := schemas + heap[m].schemas;
            order := order + [m];
          }
          frames := rest;
        } else if name in visiting {
          return Failed(DependencyCycle(name));
        } else if name in definitions && !SameModule(heap, definitions[name], m) {
          return Failed(ModuleConflict(name));
        } else if name in definitions && m in verified {
          SkipTurn(heap, roots, View(), schemas, rest, m, target, expanded);
          frames := rest;
        } else {
          ExpandTurn(heap, roots, View(), schemas, rest, m, target, expanded);
          if name !in definitions {
            definitions := definitions[name := m];
          }
          visiting := visiting + {name};
          frames := rest + [Frame(m, true)] + Visits(heap[m].dependencies);
          expanded := expanded + {m};
        }
      }
      LastTurn(heap, roots, View(), schemas, target, expanded);
      return Composed(());
    }
  }

  lemma ErrorBlocks(h: Heap, roots: seq<ModuleId>, error: CompositionError)
    requires Closed(h) && ErrorIsReal(h, roots, error)
    ensures !Composable(h, roots)
  {
  }

  /**
    Composes modules in dependency-first order.  It succeeds exactly when no reachable name is
    defined twice differently and the reachable names have no cycle; the schemas come in the
    order of the recursive traversal.
    */
  method ComposeAll(h: Heap, roots: seq<ModuleId>) returns (r: Outcome<seq<Schema>>)
    requires Closed(h) && forall m :: m in roots ==> m in h
    ensures r.Composed? <==> Composable(h, roots)
    ensures r.Failed? ==> ErrorIsReal(h, roots, r.error)
    ensures r.Composed? ==> DependencyFirst(h, roots, PostOrder(h, roots))
    ensures r.Composed? ==> r.value == SchemasOf(h, PostOrder(h, roots))
    ensures r.Composed? ==> RegistersAll(h, roots, r.value) && NamesAgree(h, roots)
  {
    hide Settled, DependencyFirst, Composable, ErrorIsReal, Listed, RegistersAll, NamesAgree;
    var c := new Composition(h, roots);
    for i := 0 to |roots|
      invariant c.heap == h && c.Valid(roots)
      invariant RootsVerified(roots[..i], c.verified)
      invariant c.order == VisitAll(h, [], {}, roots[..i])
    {
      VisitAllAppend(h, [], {}, roots[..i], roots[i]);
      assert roots[..i] + [roots[i]] == roots[..i + 1];
      ghost var before := c.verified;
      var composed := c.Compose(roots[i], roots);
      if composed.Failed? {
        ErrorBlocks(h, roots, composed.error);
        return Failed(composed.error);
      }
      RootsVerifiedAppend(roots[..i], before, c.verified, roots[i]);
    }
    assert roots[..|roots|] == roots;
    SettledIsComplete(h, roots, c.View());
    OrderRegistersAll(h, roots, c.order);
    return Composed(c.schemas);
  }
}
