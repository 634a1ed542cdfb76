/**
 * The dependent closure of a seed set of targets: a breadth-first traversal
 * over incoming edges, optionally also following a synthetic edge from each
 * declared test to the node it tests.
 */
module DependentClosure {
  import opened Wrappers
  import opened Graph

  /** `test` is a declared test of the node `tested`. */
  predicate TestsEdge(g: TargetGraph, test: BuildTarget, tested: BuildTarget) {
    tested in g.nodes && test in TestsOf(g.nodes[tested])
  }

  /**
   * One traversal step from `u` to `v`: `v` depends on `u`, or, when test
   * changes are detected, `u` is a declared test of `v`.
   */
  predicate Edge(g: TargetGraph, detect: bool, u: BuildTarget, v: BuildTarget) {
    v in IncomingNodesFor(g, u) || (detect && TestsEdge(g, u, v))
  }

  ghost predicate IsWalk(g: TargetGraph, detect: bool, p: seq<BuildTarget>) {
    forall i :: 0 <= i < |p| - 1 ==> Edge(g, detect, p[i], p[i + 1])
  }

  /** `p` is a walk that starts at a seed and ends at `v`. */
  ghost predicate IsWalkFrom(g: TargetGraph, detect: bool, seeds: set<BuildTarget>, p: seq<BuildTarget>, v: BuildTarget) {
    |p| > 0 && p[0] in seeds && p[|p| - 1] == v && IsWalk(g, detect, p)
  }

  ghost predicate Reachable(g: TargetGraph, detect: bool, seeds: set<BuildTarget>, v: BuildTarget) {
    exists p :: IsWalkFrom(g, detect, seeds, p, v)
  }

  /**
   * `c` contains the seeds, is closed under traversal steps, and holds
   * nothing that is not reachable from the seeds.
   */
  ghost predicate IsDependentClosure(g: TargetGraph, detect: bool, seeds: set<BuildTarget>, c: set<BuildTarget>) {
    && seeds <= c
    && (forall u, v :: u in c && Edge(g, detect, u, v) ==> v in c)
    && (forall v :: v in c ==> Reachable(g, detect, seeds, v))
  }

  /** The seeds and every target reachable from them. */
  ghost function Closure(g: TargetGraph, detect: bool, seeds: set<BuildTarget>): (c: set<BuildTarget>) {
    set v | v in seeds + g.nodes.Keys && Reachable(g, detect, seeds, v)
  }

  /** `tested` declares `test`, which is not in the graph. */
  ghost predicate DanglingTest(g: TargetGraph, tested: BuildTarget, test: BuildTarget) {
    tested in g.nodes && test in TestsOf(g.nodes[tested]) && test !in g.nodes
  }

  ghost predicate HasDanglingTest(g: TargetGraph) {
    exists tested, test :: DanglingTest(g, tested, test)
  }

  lemma SeedReachable(g: TargetGraph, detect: bool, seeds: set<BuildTarget>, s: BuildTarget)
    requires s in seeds
    ensures Reachable(g, detect, seeds, s)
  {
    assert IsWalkFrom(g, detect, seeds, [s], s);
  }

  lemma WalkExtend(g: TargetGraph, detect: bool, seeds: set<BuildTarget>, u: BuildTarget, v: BuildTarget)
    requires Reachable(g, detect, seeds, u) && Edge(g, detect, u, v)
    ensures Reachable(g, detect, seeds, v)
  {
    var p :| IsWalkFrom(g, detect, seeds, p, u);
    var q := p + [v];
    forall i | 0 <= i < |q| - 1 ensures Edge(g, detect, q[i], q[i + 1]) {
      if i < |p| - 1 {
        assert q[i] == p[i] && q[i + 1] == p[i + 1];
      } else {
        assert q[i] == u && q[i + 1] == v;
      }
    }
    assert IsWalkFrom(g, detect, seeds, q, v);
  }

  /** A walk that starts inside a closed set stays inside it. */
  lemma {:induction false} WalkStaysInClosedSet(g: TargetGraph, detect: bool, c: set<BuildTarget>, p: seq<BuildTarget>)
    requires |p| > 0 && p[0] in c && IsWalk(g, detect, p)
    requires forall u, v :: u in c && Edge(g, detect, u, v) ==> v in c
    ensures p[|p| - 1] in c
  {
    if |p| > 1 {
      var q := p[..|p| - 1];
      assert IsWalk(g, detect, q) by {
        forall i | 0 <= i < |q| - 1 ensures Edge(g, detect, q[i], q[i + 1]) {
          assert q[i] == p[i] && q[i + 1] == p[i + 1];
        }
      }
      WalkStaysInClosedSet(g, detect, c, q);
      assert Edge(g, detect, p[|p| - 2], p[|p| - 1]);
    }
  }

  /** A reachable target that is not a seed is a node of the graph. */
  lemma ReachableInGraph(g: TargetGraph, detect: bool, seeds: set<BuildTarget>, v: BuildTarget)
    requires Reachable(g, detect, seeds, v)
    ensures v in seeds + g.nodes.Keys
  {
    var p :| IsWalkFrom(g, detect, seeds, p, v);
    if |p| > 1 {
      assert Edge(g, detect, p[|p| - 2], p[|p| - 1]);
    }
  }

  /**
   * There is exactly one dependent closure: whatever order a traversal
   * visits targets in, its result is `Closure`.
   */
  lemma ClosureIsUnique(g: TargetGraph, detect: bool, seeds: set<BuildTarget>, c: set<BuildTarget>)
    requires IsDependentClosure(g, detect, seeds, c)
    ensures c == Closure(g, detect, seeds)
  {
    forall v | v in Closure(g, detect, seeds) ensures v in c {
      var p :| IsWalkFrom(g, detect, seeds, p, v);
      WalkStaysInClosedSet(g, detect, c, p);
    }
    forall v | v in c ensures v in Closure(g, detect, seeds) {
      ReachableInGraph(g, detect, seeds, v);
    }
  }

  /** The targets of a multimap entry; empty when the key is absent. */
  function Get(e: map<BuildTarget, set<BuildTarget>>, t: BuildTarget): (r: set<BuildTarget>) {
    if t in e then e[t] else {}
  }

  /**
   * The synthetic edges from each declared test to the nodes it tests, or
   * the error for a declared test that is not in the graph.
   */
  method TestEdges(g: TargetGraph) returns (r: Result<map<BuildTarget, set<BuildTarget>>, TargetsError>)
    ensures r.Failure? <==> HasDanglingTest(g)
    ensures r.Failure? ==> r.error.TestNotInGraph? && DanglingTest(g, r.error.testedNode, r.error.test)
    ensures r.Success? ==> forall t, u :: u in Get(r.value, t) <==> TestsEdge(g, t, u)
  {
    var edges: map<BuildTarget, set<BuildTarget>> := map[];
    var remaining := g.nodes.Keys;
    while remaining != {}
      invariant remaining <= g.nodes.Keys
      invariant forall u, t :: u in g.nodes && u !in remaining && t in TestsOf(g.nodes[u]) ==> t in g.nodes
      invariant forall t, u :: u in Get(edges, t) <==> TestsEdge(g, t, u) && u !in remaining
      decreases remaining
    {
      var node :| node in remaining;
      var tests := TestsOf(g.nodes[node]);
      for i := 0 to |tests|
        invariant forall j :: 0 <= j < i ==> tests[j] in g.nodes
        invariant forall t, u :: u in Get(edges, t) <==>
                    TestsEdge(g, t, u) && (u !in remaining || (u == node && t in tests[..i]))
      {
        var testTarget := tests[i];
        if testTarget !in g.nodes {
          assert DanglingTest(g, node, testTarget);
          return Failure(TestNotInGraph(testTarget, node));
        }
        assert tests[..i + 1] == tests[..i] + [testTarget];
        edges := edges[testTarget := Get(edges, testTarget) + {node}];
      }
      assert tests[..|tests|] == tests;
      remaining := remaining - {node};
    }
    return Success(edges);
  }

  /** Appends the elements of `s` to `queue`, in some order. */
  method Enqueue(queue: seq<BuildTarget>, s: set<BuildTarget>) returns (q: seq<BuildTarget>)
    ensures |q| == |queue| + |s| && q[..|queue|] == queue
    ensures forall x :: x in q <==> x in queue || x in s
  {
    q := queue;
    var rest := s;
    while rest != {}
      invariant rest <= s
      invariant |q| == |queue| + |s - rest| && q[..|queue|] == queue
      invariant forall x :: x in q <==> x in queue || (x in s && x !in rest)
      decreases rest
    {
      var x :| x in rest;
      assert s - (rest - {x}) == (s - rest) + {x};
      q := q + [x];
      rest := rest - {x};
    }
  }

  /**
   * The traversal's state: the explored targets and the queue to explore
   * are graph nodes reachable from the seeds, every seed is in one of them,
   * and every step out of an explored target leads into one of them.
   */
  ghost predicate Frontier(g: TargetGraph, detect: bool, seeds: set<BuildTarget>,
                           explored: set<BuildTarget>, queue: seq<BuildTarget>)
  {
    && explored <= g.nodes.Keys
    && (forall x :: x in queue ==> x in g.nodes)
    && (forall s :: s in seeds ==> s in explored || s in queue)
    && (forall u, v :: u in explored && Edge(g, detect, u, v) ==> v in explored || v in queue)
    && (forall v :: v in explored ==> Reachable(g, detect, seeds, v))
    && (forall v :: v in queue ==> Reachable(g, detect, seeds, v))
  }

  lemma FrontierStart(g: TargetGraph, detect: bool, seeds: set<BuildTarget>, queue: seq<BuildTarget>)
    requires seeds <= g.nodes.Keys
    requires forall x :: x in queue <==> x in seeds
    ensures Frontier(g, detect, seeds, {}, queue)
  {
    forall s | s in seeds ensures Reachable(g, detect, seeds, s) {
      SeedReachable(g, detect, seeds, s);
    }
  }

  /** Dequeuing a target that was already explored keeps the state. */
  lemma FrontierSkip(g: TargetGraph, detect: bool, seeds: set<BuildTarget>,
                     explored: set<BuildTarget>, queue: seq<BuildTarget>)
    requires Frontier(g, detect, seeds, explored, queue)
    requires |queue| > 0 && queue[0] in explored
    ensures Frontier(g, detect, seeds, explored, queue[1..])
  {
    assert forall x :: x in queue <==> x == queue[0] || x in queue[1..] by {
      assert queue == [queue[0]] + queue[1..];
    }
  }

  /** Exploring a new target and enqueuing its unexplored neighbours keeps the state. */
  lemma FrontierExplore(g: TargetGraph, detect: bool, seeds: set<BuildTarget>,
                        explored: set<BuildTarget>, queue: seq<BuildTarget>, next: seq<BuildTarget>)
    requires Frontier(g, detect, seeds, explored, queue)
    requires |queue| > 0 && queue[0] !in explored
    requires forall x :: x in next <==> x in queue[1..] || (Edge(g, detect, queue[0], x) && x !in explored + {queue[0]})
    ensures Frontier(g, detect, seeds, explored + {queue[0]}, next)
    ensures |g.nodes.Keys - (explored + {queue[0]})| < |g.nodes.Keys - explored|
  {
    var current := queue[0];
    assert g.nodes.Keys - (explored + {current}) < g.nodes.Keys - explored;
    assert forall x :: x in queue <==> x == current || x in queue[1..] by {
      assert queue == [current] + queue[1..];
    }
    forall v | Edge(g, detect, current, v) ensures Reachable(g, detect, seeds, v) && v in g.nodes {
      WalkExtend(g, detect, seeds, current, v);
    }
  }

  /** With nothing left to explore, the explored set is the dependent closure. */
  lemma FrontierDone(g: TargetGraph, detect: bool, seeds: set<BuildTarget>, explored: set<BuildTarget>)
    requires Frontier(g, detect, seeds, explored, [])
    ensures IsDependentClosure(g, detect, seeds, explored)
  {
  }

  /** The neighbours a traversal visits from `u` are exactly its steps. */
  lemma NeighboursAreSteps(g: TargetGraph, detect: bool, extraEdges: map<BuildTarget, set<BuildTarget>>, u: BuildTarget)
    requires forall t, v :: v in Get(extraEdges, t) <==> detect && TestsEdge(g, t, v)
    ensures forall v :: v in IncomingNodesFor(g, u) + Get(extraEdges, u) <==> Edge(g, detect, u, v)
  {
  }

  /**
   * Breadth-first traversal from `nodes`: visits each node once and returns
   * the visited set.
   */
  method Traverse(g: TargetGraph, detect: bool, extraEdges: map<BuildTarget, set<BuildTarget>>, nodes: set<BuildTarget>)
    returns (explored: set<BuildTarget>)
    requires nodes <= g.nodes.Keys
    requires forall t, u :: u in Get(extraEdges, t) <==> detect && TestsEdge(g, t, u)
    ensures IsDependentClosure(g, detect, nodes, explored)
  {
    explored := {};
    var toExplore := Enqueue([], nodes);
    FrontierStart(g, detect, nodes, toExplore);
    while toExplore != []
      invariant Frontier(g, detect, nodes, explored, toExplore)
      decreases |g.nodes.Keys - explored|, |toExplore|
    {
      var current := toExplore[0];
      if current in explored {
        FrontierSkip(g, detect, nodes, explored, toExplore);
        toExplore := toExplore[1..];
      } else {
        var neighbours := IncomingNodesFor(g, current) + Get(extraEdges, current);
        NeighboursAreSteps(g, detect, extraEdges, current);
        var next := Enqueue(toExplore[1..], neighbours - (explored + {current}));
        FrontierExplore(g, detect, nodes, explored, toExplore, next);
        explored, toExplore := explored + {current}, next;
      }
    }
    FrontierDone(g, detect, nodes, explored);
  }

  /**
   * All nodes that transitively depend on `nodes` (a superset of `nodes`);
   * with `detectTestChanges`, a declared test also leads to the node it tests.
   */
  method GetDependentNodes(g: TargetGraph, nodes: set<BuildTarget>, detectTestChanges: bool)
    returns (r: Result<set<BuildTarget>, TargetsError>)
    requires nodes <= g.nodes.Keys
    ensures r.Failure? <==> detectTestChanges && HasDanglingTest(g)
    ensures r.Failure? ==> r.error.TestNotInGraph? && DanglingTest(g, r.error.testedNode, r.error.test)
    ensures r.Success? ==> IsDependentClosure(g, detectTestChanges, nodes, r.value)
    ensures r.Success? ==> r.value == Closure(g, detectTestChanges, nodes)
  {
    var extraEdges: map<BuildTarget, set<BuildTarget>> := map[];
    if detectTestChanges {
      var edges := TestEdges(g);
      if edges.Failure? {
        return Failure(edges.error);
      }
      extraEdges := edges.value;
    }
    var explored := Traverse(g, detectTestChanges, extraEdges, nodes);
    ClosureIsUnique(g, detectTestChanges, nodes, explored);
    return Success(explored);
  }

  lemma ExampleIncoming()
    ensures IncomingNodesFor(ExampleGraph(), ExampleX) == {ExampleY}
    ensures IncomingNodesFor(ExampleGraph(), ExampleY) == {ExampleZ}
    ensures IncomingNodesFor(ExampleGraph(), ExampleZ) == {}
    ensures IncomingNodesFor(ExampleGraph(), ExampleT) == {}
  {
  }

  /** From `x` the closure is `x`, `y`, `z`, whether or not test changes are detected. */
  lemma ExampleClosureOfLibrary(detect: bool)
    ensures Closure(ExampleGraph(), detect, {ExampleX}) == {ExampleX, ExampleY, ExampleZ}
  {
    var g := ExampleGraph();
    ExampleIncoming();
    var c := {ExampleX, ExampleY, ExampleZ};
    assert IsWalkFrom(g, detect, {ExampleX}, [ExampleX, ExampleY], ExampleY);
    assert IsWalkFrom(g, detect, {ExampleX}, [ExampleX, ExampleY, ExampleZ], ExampleZ);
    SeedReachable(g, detect, {ExampleX}, ExampleX);
    assert !TestsEdge(g, ExampleX, ExampleX) && !TestsEdge(g, ExampleY, ExampleX);
    ClosureIsUnique(g, detect, {ExampleX}, c);
  }

  /** The only declared test in the example graph is `t`, of `x`. */
  lemma ExampleTestsEdge(u: BuildTarget, v: BuildTarget)
    ensures TestsEdge(ExampleGraph(), u, v) <==> u == ExampleT && v == ExampleX
  {
  }

  /** From the test `t` with test changes detected, the tested `x` and its dependents are reached. */
  lemma ExampleClosureOfTestDetected()
    ensures Closure(ExampleGraph(), true, {ExampleT}) == {ExampleT, ExampleX, ExampleY, ExampleZ}
  {
    var g := ExampleGraph();
    var seeds := {ExampleT};
    ExampleIncoming();
    ExampleTestsEdge(ExampleT, ExampleX);
    assert IsWalkFrom(g, true, seeds, [ExampleT, ExampleX], ExampleX);
    WalkExtend(g, true, seeds, ExampleX, ExampleY);
    WalkExtend(g, true, seeds, ExampleY, ExampleZ);
    SeedReachable(g, true, seeds, ExampleT);
    forall u, v | Edge(g, true, u, v) ensures TestsEdge(g, u, v) ==> u == ExampleT && v == ExampleX {
      ExampleTestsEdge(u, v);
    }
    ClosureIsUnique(g, true, seeds, {ExampleT, ExampleX, ExampleY, ExampleZ});
  }

  /** Without test detection, nothing depends on the test `t`. */
  lemma ExampleClosureOfTestUndetected()
    ensures Closure(ExampleGraph(), false, {ExampleT}) == {ExampleT}
  {
    ExampleIncoming();
    SeedReachable(ExampleGraph(), false, {ExampleT}, ExampleT);
    ClosureIsUnique(ExampleGraph(), false, {ExampleT}, {ExampleT});
  }
}
