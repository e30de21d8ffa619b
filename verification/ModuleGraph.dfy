/** The graph of proto modules that a type registry is composed from.

  Modules are objects compared by identity, so a module is an identifier into a heap and two
  identifiers may denote equal but distinct objects.  Nothing excludes cyclic objects, shared
  dependencies or two definitions of one name.
  */
module ModuleGraph {
  type ModuleId = nat

  /** A generated message schema.  `identity` is the schema object, `proto` its descriptor object. */
  datatype Schema = Schema(identity: nat, typeName: string, filePrefix: FilePrefix, proto: nat)

  /** The `type_url_prefix` option of the declaring file. */
  datatype FilePrefix = NoPrefix | Prefix(text: string)

  datatype ProtoModule = ProtoModule(name: string, schemas: seq<Schema>, dependencies: seq<ModuleId>)

  type Heap = map<ModuleId, ProtoModule>

  ghost predicate Closed(h: Heap) {
    forall m, d :: m in h && d in h[m].dependencies ==> d in h
  }

  function DependencyName(h: Heap, m: ModuleId, i: nat): string
    requires Closed(h) && m in h && i < |h[m].dependencies|
  {
    assert h[m].dependencies[i] in h[m].dependencies;
    h[h[m].dependencies[i]].name
  }

  /** The same-name comparison: contributed schemas by identity, dependencies by name only. */
  predicate SameModule(h: Heap, left: ModuleId, right: ModuleId)
    requires Closed(h) && left in h && right in h
  {
    left == right ||
    (&& h[left].name == h[right].name
     && |h[left].schemas| == |h[right].schemas|
     && |h[left].dependencies| == |h[right].dependencies|
     && (forall i :: 0 <= i < |h[left].schemas| ==> h[left].schemas[i] == h[right].schemas[i])
     && (forall i :: 0 <= i < |h[left].dependencies| ==>
           DependencyName(h, left, i) == DependencyName(h, right, i)))
  }

  function DependencyNames(h: Heap, m: ModuleId): (names: seq<string>)
    requires Closed(h) && m in h
    ensures |names| == |h[m].dependencies|
    ensures forall i :: 0 <= i < |names| ==> names[i] == DependencyName(h, m, i)
  {
    seq(|h[m].dependencies|, i requires 0 <= i < |h[m].dependencies| => DependencyName(h, m, i))
  }

  /** Two objects of one name agree exactly when they contribute the same schemas and depend on the same names, in order. */
  lemma SameModuleIff(h: Heap, left: ModuleId, right: ModuleId)
    requires Closed(h) && left in h && right in h && h[left].name == h[right].name
    ensures SameModule(h, left, right) <==>
            h[left].schemas == h[right].schemas && DependencyNames(h, left) == DependencyNames(h, right)
  {
    if h[left].schemas == h[right].schemas && DependencyNames(h, left) == DependencyNames(h, right) {
      forall i | 0 <= i < |h[left].dependencies| ensures DependencyName(h, left, i) == DependencyName(h, right, i) {
        assert DependencyNames(h, left)[i] == DependencyNames(h, right)[i];
      }
    }
  }

  // ----- Reachability -----

  ghost predicate Walk(h: Heap, p: seq<ModuleId>) {
    && |p| > 0
    && (forall i :: 0 <= i < |p| ==> p[i] in h)
    && (forall i, j :: 0 <= i && j == i + 1 && j < |p| ==> p[j] in h[p[i]].dependencies)
  }

  ghost predicate WalkBetween(h: Heap, p: seq<ModuleId>, a: ModuleId, b: ModuleId) {
    Walk(h, p) && p[0] == a && p[|p| - 1] == b
  }

  ghost predicate Reachable(h: Heap, roots: seq<ModuleId>, m: ModuleId) {
    exists p :: Walk(h, p) && p[0] in roots && p[|p| - 1] == m
  }

  /** `b` is a direct or indirect dependency of `a`. */
  ghost predicate DependsOn(h: Heap, a: ModuleId, b: ModuleId) {
    exists p :: WalkBetween(h, p, a, b) && |p| >= 2
  }

  lemma ReachableRoot(h: Heap, roots: seq<ModuleId>, m: ModuleId)
    requires m in roots && m in h
    ensures Reachable(h, roots, m)
  {
    assert Walk(h, [m]);
  }

  lemma ReachableDependency(h: Heap, roots: seq<ModuleId>, m: ModuleId, d: ModuleId)
    requires Closed(h) && Reachable(h, roots, m) && m in h && d in h[m].dependencies
    ensures Reachable(h, roots, d)
  {
    var p :| Walk(h, p) && p[0] in roots && p[|p| - 1] == m;
    var q := p + [d];
    assert Walk(h, q) && q[0] in roots && q[|q| - 1] == d;
  }

  lemma DependsOnExtend(h: Heap, a: ModuleId, m: ModuleId, d: ModuleId)
    requires Closed(h) && a in h && m in h && d in h[m].dependencies
    requires a == m || DependsOn(h, a, m)
    ensures DependsOn(h, a, d)
  {
    var p := if a == m then [m] else var p :| WalkBetween(h, p, a, m) && |p| >= 2; p;
    assert WalkBetween(h, p + [d], a, d);
  }

  // ----- The two ways in which composition must fail -----

  /** Two reachable objects carry one name, and their schemas or the names they depend on differ. */
  ghost predicate ConflictAt(h: Heap, roots: seq<ModuleId>, n: string)
    requires Closed(h)
  {
    exists x, y :: && x in h && y in h && Reachable(h, roots, x) && Reachable(h, roots, y)
                   && h[x].name == n && h[y].name == n
                   && (h[x].schemas != h[y].schemas || DependencyNames(h, x) != DependencyNames(h, y))
  }

  lemma DifferenceIsConflict(h: Heap, roots: seq<ModuleId>, x: ModuleId, y: ModuleId)
    requires Closed(h) && x in h && y in h && Reachable(h, roots, x) && Reachable(h, roots, y)
    requires h[x].name == h[y].name && !SameModule(h, x, y)
    ensures ConflictAt(h, roots, h[x].name)
  {
    hide SameModule, Reachable, DependencyNames;
    SameModuleIff(h, x, y);
  }

  lemma NoDifferenceNoConflict(h: Heap, roots: seq<ModuleId>, n: string)
    requires Closed(h)
    requires forall x, y ::
      (x in h && y in h && Reachable(h, roots, x) && Reachable(h, roots, y) && h[x].name == n && h[y].name == n)
      ==> SameModule(h, x, y)
    ensures !ConflictAt(h, roots, n)
  {
    hide SameModule, Reachable, DependencyNames;
    if ConflictAt(h, roots, n) {
      var x, y :| && x in h && y in h && Reachable(h, roots, x) && Reachable(h, roots, y)
                  && h[x].name == n && h[y].name == n
                  && (h[x].schemas != h[y].schemas || DependencyNames(h, x) != DependencyNames(h, y));
      SameModuleIff(h, x, y);
    }
  }

  /** Some reachable object named `m` has a dependency named `n`. */
  ghost predicate NameEdge(h: Heap, roots: seq<ModuleId>, m: string, n: string) {
    exists x, d :: && x in h && Reachable(h, roots, x) && h[x].name == m
                   && d in h[x].dependencies && d in h && h[d].name == n
  }

  ghost predicate NameWalk(h: Heap, roots: seq<ModuleId>, p: seq<string>) {
    |p| >= 2 && forall i, j :: 0 <= i && j == i + 1 && j < |p| ==> NameEdge(h, roots, p[i], p[j])
  }

  /** A closed walk through `n` in the graph of reachable names. */
  ghost predicate CycleAt(h: Heap, roots: seq<ModuleId>, n: string) {
    exists p :: NameWalk(h, roots, p) && p[0] == n && p[|p| - 1] == n
  }

  ghost predicate Composable(h: Heap, roots: seq<ModuleId>)
    requires Closed(h)
  {
    forall n :: !ConflictAt(h, roots, n) && !CycleAt(h, roots, n)
  }

  lemma WalkStaysReachable(h: Heap, roots: seq<ModuleId>, p: seq<ModuleId>, k: nat)
    requires Closed(h) && Walk(h, p) && k < |p| && Reachable(h, roots, p[0])
    ensures Reachable(h, roots, p[k])
  {
    if k > 0 {
      WalkStaysReachable(h, roots, p, k - 1);
      ReachableDependency(h, roots, p[k - 1], p[k]);
    }
  }

  /** An object that depends on an object of its own name closes a walk of names. */
  lemma DependsOnOwnName(h: Heap, roots: seq<ModuleId>, x: ModuleId, m: ModuleId)
    requires Closed(h) && x in h && m in h && Reachable(h, roots, x)
    requires DependsOn(h, x, m) && h[x].name == h[m].name
    ensures CycleAt(h, roots, h[x].name)
  {
    hide Reachable, SameModule, DependencyNames;
    var p :| WalkBetween(h, p, x, m) && |p| >= 2;
    var q := seq(|p|, i requires 0 <= i < |p| => h[p[i]].name);
    forall i, j | 0 <= i && j == i + 1 && j < |q| ensures NameEdge(h, roots, q[i], q[j]) {
      assert p[j] in h[p[i]].dependencies;
      WalkStaysReachable(h, roots, p, i);
    }
    assert NameWalk(h, roots, q) && q[0] == h[x].name && q[|q| - 1] == h[x].name;
  }

  // ----- The recursive specification of the traversal -----

  ghost predicate Listed(h: Heap, order: seq<ModuleId>, n: string) {
    exists i :: 0 <= i < |order| && order[i] in h && h[order[i]].name == n
  }

  ghost function Names(h: Heap): set<string> {
    set m | m in h :: h[m].name
  }

  /** Depth-first post-order over first-met definitions.  `path` holds the names being visited. */
  ghost function Visit(h: Heap, order: seq<ModuleId>, path: set<string>, m: ModuleId): (r: seq<ModuleId>)
    requires Closed(h) && m in h
    ensures (forall x :: x in order ==> x in h) ==> forall x :: x in r ==> x in h
    decreases Names(h) - path, 0
  {
    var n := h[m].name;
    if Listed(h, order, n) || n in path then order
    else
      assert n in Names(h) - path;
      assert Names(h) - (path + {n}) < Names(h) - path;
      VisitAll(h, order, path + {n}, h[m].dependencies) + [m]
  }

  ghost function VisitAll(h: Heap, order: seq<ModuleId>, path: set<string>, ms: seq<ModuleId>): (r: seq<ModuleId>)
    requires Closed(h) && forall m :: m in ms ==> m in h
    ensures (forall x :: x in order ==> x in h) ==> forall x :: x in r ==> x in h
    decreases Names(h) - path, 1, |ms|
  {
    if ms == [] then order
    else VisitAll(h, Visit(h, order, path, ms[0]), path, ms[1..])
  }

  /** The order in which defining modules contribute their schemas. */
  ghost function PostOrder(h: Heap, roots: seq<ModuleId>): (r: seq<ModuleId>)
    requires Closed(h) && forall m :: m in roots ==> m in h
    ensures forall x :: x in r ==> x in h
  {
    VisitAll(h, [], {}, roots)
  }

  ghost function SchemasOf(h: Heap, order: seq<ModuleId>): seq<Schema>
    requires forall m :: m in order ==> m in h
  {
    if order == [] then [] else SchemasOf(h, order[..|order| - 1]) + h[order[|order| - 1]].schemas
  }

  /** The schemas come module by module, each module's own in their order. */
  lemma {:induction false} SchemasInOrder(h: Heap, first: seq<ModuleId>, m: ModuleId, rest: seq<ModuleId>)
    requires m in h && (forall x :: x in first ==> x in h) && forall x :: x in rest ==> x in h
    ensures SchemasOf(h, first + [m] + rest) == SchemasOf(h, first) + h[m].schemas + SchemasOf(h, rest)
  {
    if rest == [] {
      assert first + [m] + rest == first + [m];
      assert (first + [m])[..|first|] == first;
    } else {
      var init, last := rest[..|rest| - 1], rest[|rest| - 1];
      SchemasInOrder(h, first, m, init);
      assert first + [m] + rest == (first + [m] + init) + [last];
      assert ((first + [m] + init) + [last])[..|first + [m] + init|] == first + [m] + init;
    }
  }

  // ----- What a dependency-first order is -----

  ghost predicate Before(h: Heap, order: seq<ModuleId>, a: string, b: string) {
    exists i, j :: && 0 <= i < j < |order| && order[i] in h && order[j] in h
                   && h[order[i]].name == a && h[order[j]].name == b
  }

  ghost predicate DistinctNames(h: Heap, order: seq<ModuleId>) {
    && (forall i :: 0 <= i < |order| ==> order[i] in h)
    && (forall i, j :: 0 <= i < j < |order| ==> h[order[i]].name != h[order[j]].name)
  }

  /** Each reachable name is contributed once, by a reachable object, after all its dependencies. */
  ghost predicate DependencyFirst(h: Heap, roots: seq<ModuleId>, order: seq<ModuleId>) {
    && DistinctNames(h, order)
    && (forall m :: m in order ==> Reachable(h, roots, m))
    && (forall m :: m in h && Reachable(h, roots, m) ==> Listed(h, order, h[m].name))
    && (forall a, b :: NameEdge(h, roots, a, b) ==> Before(h, order, b, a))
  }

  lemma BeforeTransitive(h: Heap, order: seq<ModuleId>, a: string, b: string, c: string)
    requires DistinctNames(h, order) && Before(h, order, a, b) && Before(h, order, b, c)
    ensures Before(h, order, a, c)
  {
    var i, j :| && 0 <= i < j < |order| && order[i] in h && order[j] in h
                && h[order[i]].name == a && h[order[j]].name == b;
    var k, l :| && 0 <= k < l < |order| && order[k] in h && order[l] in h
                && h[order[k]].name == b && h[order[l]].name == c;
    assert j == k;
  }

  lemma {:induction false} NameWalkDescends(h: Heap, roots: seq<ModuleId>, order: seq<ModuleId>, p: seq<string>)
    requires DependencyFirst(h, roots, order) && NameWalk(h, roots, p)
    ensures Before(h, order, p[|p| - 1], p[0])
  {
    if |p| > 2 {
      var q := p[..|p| - 1];
      NameWalkDescends(h, roots, order, q);
      assert NameEdge(h, roots, p[|p| - 2], p[|p| - 1]);
      BeforeTransitive(h, order, p[|p| - 1], p[|p| - 2], p[0]);
    } else {
      assert NameEdge(h, roots, p[0], p[1]);
    }
  }

  /** A graph that has a dependency-first order has no cycle of names. */
  lemma OrderedIsAcyclic(h: Heap, roots: seq<ModuleId>, order: seq<ModuleId>, n: string)
    requires DependencyFirst(h, roots, order)
    ensures !CycleAt(h, roots, n)
  {
    if CycleAt(h, roots, n) {
      var p :| NameWalk(h, roots, p) && p[0] == n && p[|p| - 1] == n;
      NameWalkDescends(h, roots, order, p);
    }
  }

  // ----- Facts about the specification used by the stack machine -----

  lemma VisitAllAppend(h: Heap, order: seq<ModuleId>, path: set<string>, ms: seq<ModuleId>, m: ModuleId)
    requires Closed(h) && m in h && forall x :: x in ms ==> x in h
    ensures VisitAll(h, order, path, ms + [m]) == Visit(h, VisitAll(h, order, path, ms), path, m)
    decreases |ms|
  {
    if ms == [] {
      assert [m][1..] == [];
    } else {
      assert (ms + [m])[1..] == ms[1..] + [m];
      VisitAllAppend(h, Visit(h, order, path, ms[0]), path, ms[1..], m);
    }
  }

  lemma VisitSkipsPath(h: Heap, order: seq<ModuleId>, path: set<string>, m: ModuleId, n: string)
    requires Closed(h) && m in h && n in path && !Listed(h, order, n)
    ensures !Listed(h, Visit(h, order, path, m), n)
    decreases Names(h) - path, 0
  {
    var name := h[m].name;
    if !(Listed(h, order, name) || name in path) {
      assert name in Names(h) - path;
      assert Names(h) - (path + {name}) < Names(h) - path;
      VisitAllSkipsPath(h, order, path + {name}, h[m].dependencies, n);
    }
  }

  /** Names on the current path are never contributed below it. */
  lemma VisitAllSkipsPath(h: Heap, order: seq<ModuleId>, path: set<string>, ms: seq<ModuleId>, n: string)
    requires Closed(h) && (forall m :: m in ms ==> m in h) && n in path && !Listed(h, order, n)
    ensures !Listed(h, VisitAll(h, order, path, ms), n)
    decreases Names(h) - path, 1, |ms|
  {
    if ms != [] {
      VisitSkipsPath(h, order, path, ms[0], n);
      VisitAllSkipsPath(h, Visit(h, order, path, ms[0]), path, ms[1..], n);
    }
  }

  lemma VisitAllListed(h: Heap, order: seq<ModuleId>, path: set<string>, ms: seq<ModuleId>)
    requires Closed(h) && forall m :: m in ms ==> m in h && Listed(h, order, h[m].name)
    ensures VisitAll(h, order, path, ms) == order
    decreases |ms|
  {
    if ms != [] {
      VisitAllListed(h, order, path, ms[1..]);
    }
  }

  // ----- What the recursive order means -----

  lemma VisitExtends(h: Heap, order: seq<ModuleId>, path: set<string>, m: ModuleId)
    requires Closed(h) && m in h
    ensures order <= Visit(h, order, path, m)
    decreases Names(h) - path, 0
  {
    var n := h[m].name;
    if !(Listed(h, order, n) || n in path) {
      assert n in Names(h) - path;
      assert Names(h) - (path + {n}) < Names(h) - path;
      VisitAllExtends(h, order, path + {n}, h[m].dependencies);
    }
  }

  lemma VisitAllExtends(h: Heap, order: seq<ModuleId>, path: set<string>, ms: seq<ModuleId>)
    requires Closed(h) && forall m :: m in ms ==> m in h
    ensures order <= VisitAll(h, order, path, ms)
    decreases Names(h) - path, 1, |ms|
  {
    if ms != [] {
      VisitExtends(h, order, path, ms[0]);
      VisitAllExtends(h, Visit(h, order, path, ms[0]), path, ms[1..]);
    }
  }

  lemma {:induction false} VisitAllConcat(h: Heap, order: seq<ModuleId>, path: set<string>, ms: seq<ModuleId>, more: seq<ModuleId>)
    requires Closed(h) && forall m :: m in ms + more ==> m in h
    ensures forall m :: m in ms || m in more ==> m in h
    ensures VisitAll(h, order, path, ms + more) == VisitAll(h, VisitAll(h, order, path, ms), path, more)
    decreases |more|
  {
    assert forall m :: m in ms || m in more ==> m in ms + more;
    if more == [] {
      assert ms + more == ms;
    } else {
      assert ms + more == (ms + [more[0]]) + more[1..];
      VisitAllAppend(h, order, path, ms, more[0]);
      VisitAllConcat(h, order, path, ms + [more[0]], more[1..]);
    }
  }

  /** Earlier roots come first: composing more roots only appends. */
  lemma MoreRootsAppend(h: Heap, roots: seq<ModuleId>, more: seq<ModuleId>)
    requires Closed(h) && forall m :: m in roots + more ==> m in h
    ensures forall m :: m in roots ==> m in h
    ensures PostOrder(h, roots) <= PostOrder(h, roots + more)
  {
    VisitAllConcat(h, [], {}, roots, more);
    VisitAllExtends(h, PostOrder(h, roots), {}, more);
  }

  /** No module below these has a name on the path. */
  ghost predicate ClearOf(h: Heap, ms: seq<ModuleId>, path: set<string>) {
    forall x :: x in h && Reachable(h, ms, x) ==> h[x].name !in path
  }

  lemma ReachableFromPart(h: Heap, part: seq<ModuleId>, ms: seq<ModuleId>, x: ModuleId)
    requires Reachable(h, part, x) && forall m :: m in part ==> m in ms
    ensures Reachable(h, ms, x)
  {
  }

  lemma ReachableThrough(h: Heap, m: ModuleId, x: ModuleId)
    requires Closed(h) && m in h && Reachable(h, h[m].dependencies, x)
    ensures Reachable(h, [m], x) && DependsOn(h, m, x)
  {
    var p :| Walk(h, p) && p[0] in h[m].dependencies && p[|p| - 1] == x;
    var q := [m] + p;
    assert Walk(h, q) && WalkBetween(h, q, m, x);
  }

  /** Below an acyclic module nothing carries its name. */
  lemma BelowIsClear(h: Heap, roots: seq<ModuleId>, m: ModuleId, path: set<string>)
    requires Closed(h) && m in h && Reachable(h, roots, m) && ClearOf(h, [m], path)
    requires !CycleAt(h, roots, h[m].name)
    ensures ClearOf(h, h[m].dependencies, path + {h[m].name})
  {
    forall x | x in h && Reachable(h, h[m].dependencies, x) ensures h[x].name !in path + {h[m].name} {
      ReachableThrough(h, m, x);
      if h[x].name == h[m].name { DependsOnOwnName(h, roots, m, x); }
    }
  }

  /** On acyclic modules the path of names being visited plays no part. */
  lemma PathIrrelevant(h: Heap, roots: seq<ModuleId>, order: seq<ModuleId>, p: set<string>, q: set<string>, m: ModuleId)
    requires Closed(h) && m in h && Reachable(h, roots, m) && (forall n :: !CycleAt(h, roots, n))
    requires ClearOf(h, [m], p) && ClearOf(h, [m], q)
    ensures Visit(h, order, p, m) == Visit(h, order, q, m)
    decreases Names(h) - p, 0
  {
    var n := h[m].name;
    ReachableRoot(h, [m], m);
    if !Listed(h, order, n) {
      assert n in Names(h) - p && Names(h) - (p + {n}) < Names(h) - p;
      BelowIsClear(h, roots, m, p);
      BelowIsClear(h, roots, m, q);
      forall d | d in h[m].dependencies ensures Reachable(h, roots, d) { ReachableDependency(h, roots, m, d); }
      PathIrrelevantAll(h, roots, order, p + {n}, q + {n}, h[m].dependencies);
    }
  }

  lemma PathIrrelevantAll(h: Heap, roots: seq<ModuleId>, order: seq<ModuleId>, p: set<string>, q: set<string>, ms: seq<ModuleId>)
    requires Closed(h) && (forall m :: m in ms ==> m in h && Reachable(h, roots, m)) && (forall n :: !CycleAt(h, roots, n))
    requires ClearOf(h, ms, p) && ClearOf(h, ms, q)
    ensures VisitAll(h, order, p, ms) == VisitAll(h, order, q, ms)
    decreases Names(h) - p, 1, |ms|
  {
    if ms != [] {
      forall x | Reachable(h, [ms[0]], x) ensures Reachable(h, ms, x) { ReachableFromPart(h, [ms[0]], ms, x); }
      forall x | Reachable(h, ms[1..], x) ensures Reachable(h, ms, x) { ReachableFromPart(h, ms[1..], ms, x); }
      PathIrrelevant(h, roots, order, p, q, ms[0]);
      PathIrrelevantAll(h, roots, Visit(h, order, p, ms[0]), p, q, ms[1..]);
    }
  }

  /** A module comes right after what its dependencies contribute, taken in the order it lists them. */
  lemma DependenciesThenModule(h: Heap, m: ModuleId)
    requires Closed(h) && m in h && Composable(h, [m])
    ensures PostOrder(h, [m]) == PostOrder(h, h[m].dependencies) + [m]
  {
    hide DependencyNames;
    var n, ds := h[m].name, h[m].dependencies;
    ReachableRoot(h, [m], m);
    forall d | d in ds ensures Reachable(h, [m], d) { ReachableDependency(h, [m], m, d); }
    BelowIsClear(h, [m], m, {});
    assert {} + {n} == {n};
    assert ClearOf(h, ds, {});
    PathIrrelevantAll(h, [m], [], {n}, {}, ds);
    assert VisitAll(h, [], {}, [m]) == Visit(h, [], {}, m) by { assert [m][1..] == []; }
  }

  // ----- Every schema arrives -----

  lemma {:induction false} SchemasOfListed(h: Heap, order: seq<ModuleId>, m: ModuleId, s: Schema)
    requires (forall x :: x in order ==> x in h) && m in order && s in h[m].schemas
    ensures s in SchemasOf(h, order)
  {
    if m != order[|order| - 1] {
      assert m in order[..|order| - 1];
      SchemasOfListed(h, order[..|order| - 1], m, s);
    }
  }

  /** A dependency-first order of composable modules contributes every schema of every reachable object. */
  lemma EverySchemaArrives(h: Heap, roots: seq<ModuleId>, order: seq<ModuleId>, m: ModuleId, s: Schema)
    requires Closed(h) && Composable(h, roots) && DependencyFirst(h, roots, order)
    requires m in h && Reachable(h, roots, m) && s in h[m].schemas
    ensures (forall x :: x in order ==> x in h) && s in SchemasOf(h, order)
  {
    hide CycleAt, Reachable, Before, DependencyNames;
    var i :| 0 <= i < |order| && order[i] in h && h[order[i]].name == h[m].name;
    assert order[i] in order;
    assert !ConflictAt(h, roots, h[m].name);
    assert h[order[i]].schemas == h[m].schemas;
    SchemasOfListed(h, order, order[i], s);
  }

  lemma {:induction false} ListedOfSchemas(h: Heap, order: seq<ModuleId>, s: Schema)
    requires (forall x :: x in order ==> x in h) && s in SchemasOf(h, order)
    ensures exists m :: m in order && s in h[m].schemas
  {
    var last := order[|order| - 1];
    if s !in h[last].schemas {
      ListedOfSchemas(h, order[..|order| - 1], s);
      var m :| m in order[..|order| - 1] && s in h[m].schemas;
      assert m in order;
    }
  }

  /** What a successful composition registers: all schemas of all reachable objects, and no others. */
  ghost predicate RegistersAll(h: Heap, roots: seq<ModuleId>, schemas: seq<Schema>) {
    && (forall m, s :: m in h && Reachable(h, roots, m) && s in h[m].schemas ==> s in schemas)
    && (forall s :: s in schemas ==> exists m :: m in h && Reachable(h, roots, m) && s in h[m].schemas)
  }

  /** Reachable objects of one name contribute the same schemas and depend on the same names. */
  ghost predicate NamesAgree(h: Heap, roots: seq<ModuleId>)
    requires Closed(h)
  {
    forall x, y :: x in h && y in h && Reachable(h, roots, x) && Reachable(h, roots, y) && h[x].name == h[y].name ==>
      h[x].schemas == h[y].schemas && DependencyNames(h, x) == DependencyNames(h, y)
  }

  lemma OrderRegistersAll(h: Heap, roots: seq<ModuleId>, order: seq<ModuleId>)
    requires Closed(h) && Composable(h, roots) && DependencyFirst(h, roots, order)
    ensures NamesAgree(h, roots)
    ensures (forall x :: x in order ==> x in h) && RegistersAll(h, roots, SchemasOf(h, order))
  {
    hide CycleAt, Before, DependencyNames, Listed;
    assert forall x :: x in order ==> x in h;
    forall m, s | m in h && Reachable(h, roots, m) && s in h[m].schemas ensures s in SchemasOf(h, order) {
      EverySchemaArrives(h, roots, order, m, s);
    }
    forall s | s in SchemasOf(h, order) ensures exists m :: m in h && Reachable(h, roots, m) && s in h[m].schemas {
      ListedOfSchemas(h, order, s);
    }
    forall x, y | x in h && y in h && Reachable(h, roots, x) && Reachable(h, roots, y) && h[x].name == h[y].name
      ensures h[x].schemas == h[y].schemas && DependencyNames(h, x) == DependencyNames(h, y)
    {
      assert !ConflictAt(h, roots, h[x].name);
    }
  }
}
