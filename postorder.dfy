/**
 * Dependency-first (post-order) depth-first traversal over parse
 * dependencies, failing on a cycle instead of looping.
 */
module Traversal {
  import opened Wrappers
  import opened Graph

  /** Every element is a node of `g` whose parse dependencies all appear before it. */
  ghost predicate DepsFirst(g: TargetGraph, order: seq<BuildTarget>) {
    forall i :: 0 <= i < |order| ==>
      order[i] in g.nodes && forall d :: d in g.nodes[order[i]].parseDeps ==> d in order[..i]
  }

  ghost predicate NoDuplicates(s: seq<BuildTarget>) {
    forall i, j :: 0 <= i < j < |s| ==> s[i] != s[j]
  }

  /** Nodes of `g`, each a parse dependency of the one before it. */
  ghost predicate IsDepChain(g: TargetGraph, p: seq<BuildTarget>) {
    && (forall i :: 0 <= i < |p| ==> p[i] in g.nodes)
    && (forall i :: 0 <= i < |p| - 1 ==> p[i + 1] in g.nodes[p[i]].parseDeps)
  }

  /** A chain whose last node depends on its first. */
  ghost predicate IsCycle(g: TargetGraph, c: seq<BuildTarget>) {
    |c| > 0 && IsDepChain(g, c) && c[0] in g.nodes[c[|c| - 1]].parseDeps
  }

  /**
   * Each element of `s` from index `from` on is one of `roots` or a parse
   * dependency of a later element: only what the traversal was asked for,
   * and what that depends on, is visited.
   */
  ghost predicate Anchored(g: TargetGraph, s: seq<BuildTarget>, from: nat, roots: set<BuildTarget>) {
    forall k :: from <= k < |s| ==>
      s[k] in roots || exists j :: k < j < |s| && s[j] in g.nodes && s[k] in g.nodes[s[j]].parseDeps
  }

  /** `u` is a node of `g` that one of `roots` reaches through parse dependencies (or is a root itself). */
  ghost predicate Reaches(g: TargetGraph, roots: set<BuildTarget>, u: BuildTarget) {
    exists c :: IsDepChain(g, c) && |c| > 0 && c[0] in roots && c[|c| - 1] == u
  }

  /**
   * The errors the traversal reports, both within what `roots` reach: a
   * genuine cycle through a reachable node, or a target the graph lacks
   * that is a root or a parse dependency of a reachable node.
   */
  ghost predicate Reportable(g: TargetGraph, roots: set<BuildTarget>, e: TargetsError) {
    || (e.DependencyCycle? && IsCycle(g, e.cycle) && Reaches(g, roots, e.cycle[0]))
    || (e.TargetNotInGraph? && e.target !in g.nodes &&
        (e.target in roots || exists u :: Reaches(g, roots, u) && e.target in g.nodes[u].parseDeps))
  }

  lemma ReachesRoot(g: TargetGraph, roots: set<BuildTarget>, t: BuildTarget)
    requires t in g.nodes && t in roots
    ensures Reaches(g, roots, t)
  {
    assert IsDepChain(g, [t]);
  }

  /** What a dependency of `b` reaches, `b` reaches too. */
  lemma ReachesThroughDep(g: TargetGraph, a: BuildTarget, b: BuildTarget, u: BuildTarget)
    requires b in g.nodes && a in g.nodes[b].parseDeps && Reaches(g, {a}, u)
    ensures Reaches(g, {b}, u)
  {
    var c :| IsDepChain(g, c) && |c| > 0 && c[0] in {a} && c[|c| - 1] == u;
    var c2 := [b] + c;
    assert c2[1..] == c;
    assert IsDepChain(g, c2);
  }

  /** What `roots` reach, its parse dependencies in the graph are reached too. */
  lemma ReachesExtend(g: TargetGraph, roots: set<BuildTarget>, u: BuildTarget, d: BuildTarget)
    requires Reaches(g, roots, u) && d in g.nodes && d in g.nodes[u].parseDeps
    ensures Reaches(g, roots, d)
  {
    var c :| IsDepChain(g, c) && |c| > 0 && c[0] in roots && c[|c| - 1] == u;
    var c2 := c + [d];
    assert IsDepChain(g, c2);
  }

  /** An error reportable from a dependency of `b` is reportable from `b`. */
  lemma ReportableThroughDep(g: TargetGraph, a: BuildTarget, b: BuildTarget, e: TargetsError)
    requires b in g.nodes && a in g.nodes[b].parseDeps && Reportable(g, {a}, e)
    ensures Reportable(g, {b}, e)
  {
    if e.DependencyCycle? && IsCycle(g, e.cycle) && Reaches(g, {a}, e.cycle[0]) {
      ReachesThroughDep(g, a, b, e.cycle[0]);
    } else if e.target == a {
      ReachesRoot(g, {b}, b);
    } else {
      var u :| Reaches(g, {a}, u) && e.target in g.nodes[u].parseDeps;
      ReachesThroughDep(g, a, b, u);
    }
  }

  /** An error reportable from `x` is reportable from any set of roots holding `x`. */
  lemma ReportableFromMore(g: TargetGraph, x: BuildTarget, roots: set<BuildTarget>, e: TargetsError)
    requires x in roots && Reportable(g, {x}, e)
    ensures Reportable(g, roots, e)
  {
    if e.DependencyCycle? && IsCycle(g, e.cycle) && Reaches(g, {x}, e.cycle[0]) {
      var c :| IsDepChain(g, c) && |c| > 0 && c[0] in {x} && c[|c| - 1] == e.cycle[0];
      assert c[0] in roots;
    } else if e.target != x {
      var u :| Reaches(g, {x}, u) && e.target in g.nodes[u].parseDeps;
      var c :| IsDepChain(g, c) && |c| > 0 && c[0] in {x} && c[|c| - 1] == u;
      assert c[0] in roots;
    }
  }

  /** The first position of `x` in `s`. */
  function FirstIndex(s: seq<BuildTarget>, x: BuildTarget): (k: nat)
    requires x in s
    ensures k < |s| && s[k] == x && x !in s[..k]
  {
    if s[0] == x then 0
    else
      var k := FirstIndex(s[1..], x);
      assert s[..k + 1] == [s[0]] + s[1..][..k];
      k + 1
  }

  lemma MeasureDrops(keys: set<BuildTarget>, path: seq<BuildTarget>, t: BuildTarget)
    requires t in keys && t !in path
    ensures |keys - Elems(path + [t])| < |keys - Elems(path)|
  {
    assert Elems(path + [t]) == Elems(path) + {t};
    assert keys - Elems(path) == (keys - Elems(path + [t])) + {t};
  }

  /** The stack from the first occurrence of `t` on is a cycle when `t` is a dependency of the top. */
  lemma CycleOnStack(g: TargetGraph, path: seq<BuildTarget>, t: BuildTarget, k: nat)
    requires IsDepChain(g, path) && k < |path| && path[k] == t
    requires t in g.nodes[path[|path| - 1]].parseDeps
    ensures IsCycle(g, path[k..])
  {
  }

  /** Pushing a dependency of the top keeps the stack a chain, disjoint from what is done. */
  lemma PushOntoStack(g: TargetGraph, path: seq<BuildTarget>, t: BuildTarget, done: seq<BuildTarget>)
    requires IsDepChain(g, path) && t in g.nodes && t !in done
    requires |path| > 0 ==> t in g.nodes[path[|path| - 1]].parseDeps
    requires Elems(done) !! Elems(path)
    ensures IsDepChain(g, path + [t]) && Elems(done) !! Elems(path + [t])
  {
    assert Elems(path + [t]) == Elems(path) + {t};
  }

  /** Appending `t` after its visited dependencies keeps the traversal's promises. */
  lemma EmitAfterDeps(g: TargetGraph, t: BuildTarget, path: seq<BuildTarget>, done: seq<BuildTarget>, d: seq<BuildTarget>)
    requires t in g.nodes && t !in path
    requires done <= d && (forall x :: x in g.nodes[t].parseDeps ==> x in d)
    requires DepsFirst(g, d) && NoDuplicates(d) && Elems(d) !! Elems(path + [t])
    requires Anchored(g, d, |done|, Elems(g.nodes[t].parseDeps))
    ensures done <= d + [t] && t in d + [t]
    ensures DepsFirst(g, d + [t]) && NoDuplicates(d + [t]) && Elems(d + [t]) !! Elems(path)
    ensures Anchored(g, d + [t], |done|, {t})
  {
    assert Elems(path + [t]) == Elems(path) + {t};
    assert Elems(d + [t]) == Elems(d) + {t};
    assert t !in d by { assert t in Elems(path + [t]); }
    AppendDepsFirst(g, d, t);
    AppendAnchored(g, d, |done|, t);
  }

  lemma AppendDepsFirst(g: TargetGraph, d: seq<BuildTarget>, t: BuildTarget)
    requires t in g.nodes && t !in d && (forall x :: x in g.nodes[t].parseDeps ==> x in d)
    requires DepsFirst(g, d) && NoDuplicates(d)
    ensures DepsFirst(g, d + [t]) && NoDuplicates(d + [t])
  {
    var r := d + [t];
    assert r[..|d|] == d;
    forall i | 0 <= i < |r|
      ensures r[i] in g.nodes && forall x :: x in g.nodes[r[i]].parseDeps ==> x in r[..i]
    {
      if i < |d| {
        assert r[..i] == d[..i];
      }
    }
  }

  lemma AppendAnchored(g: TargetGraph, d: seq<BuildTarget>, from: nat, t: BuildTarget)
    requires t in g.nodes && Anchored(g, d, from, Elems(g.nodes[t].parseDeps))
    ensures Anchored(g, d + [t], from, {t})
  {
    var r := d + [t];
    forall k | from <= k < |r|
      ensures r[k] in {t} || exists j :: k < j < |r| && r[j] in g.nodes && r[k] in g.nodes[r[j]].parseDeps
    {
      if k < |d| {
        if d[k] in Elems(g.nodes[t].parseDeps) {
          assert r[|d|] == t;
        } else {
          var j :| k < j < |d| && d[j] in g.nodes && d[k] in g.nodes[d[j]].parseDeps;
          assert r[j] == d[j];
        }
      }
    }
  }

  /** A later visit that extends `d1` keeps the elements anchored in `d1`. */
  lemma AnchoredExtends(g: TargetGraph, done: seq<BuildTarget>, d1: seq<BuildTarget>, d2: seq<BuildTarget>,
                        first: BuildTarget, deps: seq<BuildTarget>)
    requires done <= d1 <= d2 && first in deps
    requires Anchored(g, d1, |done|, {first}) && Anchored(g, d2, |d1|, Elems(deps))
    ensures Anchored(g, d2, |done|, Elems(deps))
  {
    forall k | |done| <= k < |d2|
      ensures d2[k] in Elems(deps) || exists j :: k < j < |d2| && d2[j] in g.nodes && d2[k] in g.nodes[d2[j]].parseDeps
    {
      if k < |d1| {
        assert d2[k] == d1[k];
        if d1[k] != first {
          var j :| k < j < |d1| && d1[j] in g.nodes && d1[k] in g.nodes[d1[j]].parseDeps;
          assert d2[j] == d1[j];
        }
      }
    }
  }

  /**
   * Visits `t` below the stack `path`, given the targets `done` already
   * emitted: the cycle through `t` when `t` is on the stack, nothing when
   * it is done, and otherwise its dependencies followed by `t`.
   */
  function Visit(g: TargetGraph, t: BuildTarget, path: seq<BuildTarget>, done: seq<BuildTarget>)
    : (r: Result<seq<BuildTarget>, TargetsError>)
    requires IsDepChain(g, path)
    requires |path| > 0 ==> t in g.nodes[path[|path| - 1]].parseDeps
    requires DepsFirst(g, done) && NoDuplicates(done) && Elems(done) !! Elems(path)
    ensures r.Failure? ==> Reportable(g, {t}, r.error)
    ensures r.Success? ==> && done <= r.value && t in r.value
                           && DepsFirst(g, r.value) && NoDuplicates(r.value) && Elems(r.value) !! Elems(path)
                           && Anchored(g, r.value, |done|, {t})
    decreases |g.nodes.Keys - Elems(path)|, 1, 0
  {
    if t in path then
      var k := FirstIndex(path, t);
      CycleOnStack(g, path, t, k);
      ReachesRoot(g, {t}, t);
      Failure(DependencyCycle(path[k..]))
    else if t in done then Success(done)
    else if t !in g.nodes then Failure(TargetNotInGraph(t))
    else Explore(g, t, path, done)
  }

  /** Explores `t`, a node not yet visited: its dependencies, then `t` itself. */
  function Explore(g: TargetGraph, t: BuildTarget, path: seq<BuildTarget>, done: seq<BuildTarget>)
    : (r: Result<seq<BuildTarget>, TargetsError>)
    requires IsDepChain(g, path) && t in g.nodes && t !in path && t !in done
    requires |path| > 0 ==> t in g.nodes[path[|path| - 1]].parseDeps
    requires DepsFirst(g, done) && NoDuplicates(done) && Elems(done) !! Elems(path)
    ensures r.Failure? ==> Reportable(g, {t}, r.error)
    ensures r.Success? ==> && done <= r.value && t in r.value
                           && DepsFirst(g, r.value) && NoDuplicates(r.value) && Elems(r.value) !! Elems(path)
                           && Anchored(g, r.value, |done|, {t})
    decreases |g.nodes.Keys - Elems(path)|, 0, 0
  {
    var deps := g.nodes[t].parseDeps;
    match FirstAbsent(g.nodes.Keys, deps)
    case Some(m) =>
      ReachesRoot(g, {t}, t);
      Failure(TargetNotInGraph(m))
    case None =>
      MeasureDrops(g.nodes.Keys, path, t);
      PushOntoStack(g, path, t, done);
      match VisitDeps(g, deps, 0, path + [t], done)
      case Failure(e) => Failure(e)
      case Success(d) =>
        EmitAfterDeps(g, t, path, done, d);
        Success(d + [t])
  }

  /**
   * Visits `deps[i..]`, the parse dependencies of the top of the stack,
   * in order.
   */
  function VisitDeps(g: TargetGraph, deps: seq<BuildTarget>, i: nat, path: seq<BuildTarget>, done: seq<BuildTarget>)
    : (r: Result<seq<BuildTarget>, TargetsError>)
    requires i <= |deps|
    requires IsDepChain(g, path) && |path| > 0 && deps == g.nodes[path[|path| - 1]].parseDeps
    requires DepsFirst(g, done) && NoDuplicates(done) && Elems(done) !! Elems(path)
    requires forall j :: 0 <= j < i ==> deps[j] in done
    ensures r.Failure? ==> Reportable(g, {path[|path| - 1]}, r.error)
    ensures r.Success? ==> && done <= r.value && (forall d :: d in deps ==> d in r.value)
                           && DepsFirst(g, r.value) && NoDuplicates(r.value) && Elems(r.value) !! Elems(path)
                           && Anchored(g, r.value, |done|, Elems(deps))
    decreases |g.nodes.Keys - Elems(path)|, 2, |deps| - i
  {
    if i == |deps| then Success(done)
    else
      match Visit(g, deps[i], path, done)
      case Failure(e) =>
        ReportableThroughDep(g, deps[i], path[|path| - 1], e);
        Failure(e)
      case Success(d) =>
        var r := VisitDeps(g, deps, i + 1, path, d);
        if r.Success? then
          AnchoredExtends(g, done, d, r.value, deps[i], deps);
          r
        else r
  }

  /** Visits the roots `inputs[i..]` in order, each from an empty stack. */
  function VisitAll(g: TargetGraph, inputs: seq<BuildTarget>, i: nat, done: seq<BuildTarget>)
    : (r: Result<seq<BuildTarget>, TargetsError>)
    requires i <= |inputs|
    requires DepsFirst(g, done) && NoDuplicates(done)
    requires forall j :: 0 <= j < i ==> inputs[j] in done
    ensures r.Failure? ==> Reportable(g, Elems(inputs), r.error)
    ensures r.Success? ==> && done <= r.value && (forall t :: t in inputs ==> t in r.value)
                           && DepsFirst(g, r.value) && NoDuplicates(r.value)
                           && Anchored(g, r.value, |done|, Elems(inputs))
    decreases |inputs| - i
  {
    if i == |inputs| then Success(done)
    else
      match Visit(g, inputs[i], [], done)
      case Failure(e) =>
        ReportableFromMore(g, inputs[i], Elems(inputs), e);
        Failure(e)
      case Success(d) =>
        var r := VisitAll(g, inputs, i + 1, d);
        if r.Success? then
          AnchoredExtends(g, done, d, r.value, inputs[i], inputs);
          r
        else r
  }

  /**
   * The dependency-first order of everything `inputs` depend on: each
   * target once, after all of its parse dependencies; or the cycle or
   * missing target that prevents one.
   */
  function PostOrder(g: TargetGraph, inputs: seq<BuildTarget>): (r: Result<seq<BuildTarget>, TargetsError>)
    ensures r.Failure? ==> Reportable(g, Elems(inputs), r.error)
    ensures r.Success? ==> && (forall t :: t in inputs ==> t in r.value)
                           && DepsFirst(g, r.value) && NoDuplicates(r.value)
                           && Anchored(g, r.value, 0, Elems(inputs))
  {
    VisitAll(g, inputs, 0, [])
  }

  /** Along a chain starting in a dependency-first order, positions strictly decrease. */
  lemma {:induction false} ChainDescends(g: TargetGraph, order: seq<BuildTarget>, c: seq<BuildTarget>, k: nat)
    requires DepsFirst(g, order) && IsDepChain(g, c) && k < |c| && c[0] in order
    ensures c[k] in order
    ensures k > 0 ==> FirstIndex(order, c[k]) < FirstIndex(order, c[0])
  {
    if k > 0 {
      ChainDescends(g, order, c, k - 1);
      DepEarlier(g, order, c[k - 1], c[k]);
    }
  }

  lemma DepEarlier(g: TargetGraph, order: seq<BuildTarget>, t: BuildTarget, d: BuildTarget)
    requires DepsFirst(g, order) && t in order && t in g.nodes && d in g.nodes[t].parseDeps
    ensures d in order && FirstIndex(order, d) < FirstIndex(order, t)
  {
    var p := FirstIndex(order, t);
    assert d in order[..p];
    var j :| 0 <= j < p && order[j] == d;
  }

  /** No cycle passes through a target of a dependency-first order. */
  lemma NoCycleThroughOrder(g: TargetGraph, order: seq<BuildTarget>, c: seq<BuildTarget>)
    requires DepsFirst(g, order) && IsCycle(g, c)
    ensures c[0] !in order
  {
    if c[0] in order {
      var n := |c| - 1;
      ChainDescends(g, order, c, n);
      DepEarlier(g, order, c[n], c[0]);
    }
  }

  /** The traversal cannot succeed when one of its roots lies on a cycle. */
  lemma CycleThroughRootFails(g: TargetGraph, inputs: seq<BuildTarget>, c: seq<BuildTarget>)
    requires IsCycle(g, c) && c[0] in inputs
    ensures PostOrder(g, inputs).Failure?
  {
    var r := PostOrder(g, inputs);
    if r.Success? {
      NoCycleThroughOrder(g, r.value, c);
    }
  }

  const CycleA := BuildTarget("", ["a"], "a", [])
  const CycleB := BuildTarget("", ["b"], "b", [])

  /** A depends on B and B on A. */
  function CycleGraph(): (g: TargetGraph) {
    TargetGraph(map[
      CycleA := Node(CycleA, "java_library", {}, [CycleB], None),
      CycleB := Node(CycleB, "java_library", {}, [CycleA], None)])
  }

  /** Hashing from A over the graph A -> B -> A fails, and with a cycle, not a missing target. */
  lemma MutualDependencyIsCycle()
    ensures PostOrder(CycleGraph(), [CycleA]).Failure?
    ensures PostOrder(CycleGraph(), [CycleA]).error.DependencyCycle?
  {
    var g := CycleGraph();
    assert IsCycle(g, [CycleA, CycleB]);
    assert forall u :: u in g.nodes ==> forall d :: d in g.nodes[u].parseDeps ==> d in g.nodes;
    CycleThroughRootFails(g, [CycleA], [CycleA, CycleB]);
  }

  const Leaf := BuildTarget("", ["r"], "r", [])

  /** The cycle graph with an extra target R that depends on nothing. */
  function CycleBesideLeaf(): (g: TargetGraph) {
    TargetGraph(CycleGraph().nodes[Leaf := Node(Leaf, "java_library", {}, [], None)])
  }

  /**
   * A cycle the inputs do not reach is no error: the traversal from R
   * alone succeeds, and the cycle is not reportable from R.
   */
  lemma UnreachableCycleIsNoError()
    ensures PostOrder(CycleBesideLeaf(), [Leaf]) == Success([Leaf])
    ensures !Reportable(CycleBesideLeaf(), {Leaf}, DependencyCycle([CycleA, CycleB]))
  {
    var g := CycleBesideLeaf();
    assert g.nodes[Leaf].parseDeps == [];
    assert FirstAbsent(g.nodes.Keys, []) == None;
    assert [] + [Leaf] == [Leaf];
    assert VisitDeps(g, [], 0, [Leaf], []) == Success([]);
    assert Explore(g, Leaf, [], []) == Success([Leaf]);
    assert Visit(g, Leaf, [], []) == Success([Leaf]);
    assert VisitAll(g, [Leaf], 1, [Leaf]) == Success([Leaf]);
    assert forall c :: IsDepChain(g, c) && |c| > 1 ==> c[1] in g.nodes[c[0]].parseDeps;
  }
}
