/**
 * The target graph the targets command queries: build targets, target nodes,
 * the graph of nodes keyed by target, and the errors the command reports.
 * The graph itself is produced by the parser, which is not part of this model.
 */
module Graph {
  import opened Wrappers
  import opened Paths

  /** A build target: cell, base path (the package directory), short name and flavours. */
  datatype BuildTarget = BuildTarget(cell: string, basePath: Path, shortName: string, flavors: seq<string>)

  /** The rule type of a node (the class of the description that built it). */
  type RuleType = string

  /**
   * A target node. `parseDeps` are the parse-time dependencies in their
   * iteration order; `tests` is None when the node's constructor argument
   * does not declare tests at all, and otherwise the declared test targets
   * in order.
   */
  datatype Node = Node(
    target: BuildTarget,
    ruleType: RuleType,
    inputs: set<Path>,
    parseDeps: seq<BuildTarget>,
    tests: Option<seq<BuildTarget>>)

  /** The test targets of a node; empty when it declares none. */
  function TestsOf(n: Node): (r: seq<BuildTarget>) {
    n.tests.GetOr([])
  }

  /** A target graph: every node is stored under its own build target. */
  datatype TargetGraph = TargetGraph(nodes: map<BuildTarget, Node>) {
    ghost predicate Valid() {
      forall t :: t in nodes ==> nodes[t].target == t
    }
  }

  /**
   * The nodes with an edge to `t`: those that list `t` among their parse
   * dependencies.
   */
  function IncomingNodesFor(g: TargetGraph, t: BuildTarget): (r: set<BuildTarget>)
    ensures forall u :: u in r <==> u in g.nodes && t in g.nodes[u].parseDeps
  {
    set u | u in g.nodes && t in g.nodes[u].parseDeps
  }

  /** Errors the command surfaces instead of a result. */
  datatype TargetsError =
    | TestNotInGraph(test: BuildTarget, testedNode: BuildTarget)
    | DuplicateName(name: string)
    | TargetNotInGraph(target: BuildTarget)
    | DependencyCycle(cycle: seq<BuildTarget>)
    | MissingHash(missing: BuildTarget)
    | EmptySubpath

  /** Joins strings with a separator. */
  function Join(parts: seq<string>, sep: string): (r: string) {
    if |parts| == 0 then ""
    else if |parts| == 1 then parts[0]
    else parts[0] + sep + Join(parts[1..], sep)
  }

  /** The canonical name `cell//base/path:name#flavour,...` of a target. */
  function FullyQualifiedName(t: BuildTarget): (r: string) {
    t.cell + "//" + Join(t.basePath, "/") + ":" + t.shortName
      + (if t.flavors == [] then "" else "#" + Join(t.flavors, ","))
  }

  /** Elements of a sequence, as a set. */
  function Elems(s: seq<BuildTarget>): (r: set<BuildTarget>)
    ensures forall x :: x in r <==> x in s
  {
    set x | x in s
  }

  /** The first element of `s` that is not in `present`, if any. */
  function FirstAbsent(present: set<BuildTarget>, s: seq<BuildTarget>): (r: Option<BuildTarget>)
    ensures r.None? <==> forall x :: x in s ==> x in present
    ensures r.Some? ==> r.value in s && r.value !in present
  {
    if s == [] then None
    else if s[0] !in present then Some(s[0])
    else FirstAbsent(present, s[1..])
  }

  /** A scan that stops at the first position not in `present` finds what `FirstAbsent` names. */
  lemma {:induction false} FirstAbsentIsFirst(present: set<BuildTarget>, s: seq<BuildTarget>, i: nat)
    requires i < |s| && s[i] !in present && forall x :: x in s[..i] ==> x in present
    ensures FirstAbsent(present, s) == Some(s[i])
  {
    if i > 0 {
      assert s[0] in s[..i];
      assert s[1..][..i - 1] == s[..i][1..];
      FirstAbsentIsFirst(present, s[1..], i - 1);
    }
  }

  const ExampleX := BuildTarget("", ["x"], "x", [])
  const ExampleY := BuildTarget("", ["y"], "y", [])
  const ExampleZ := BuildTarget("", ["z"], "z", [])
  const ExampleT := BuildTarget("", ["t"], "t", [])

  /**
   * A four-node graph: `y` depends on `x`, `z` on `y`, and `x` declares the
   * test `t`, which depends on nothing.
   */
  function ExampleGraph(): (g: TargetGraph) {
    TargetGraph(map[
      ExampleX := Node(ExampleX, "java_library", {}, [], Some([ExampleT])),
      ExampleY := Node(ExampleY, "java_library", {}, [ExampleX], None),
      ExampleZ := Node(ExampleZ, "java_binary", {}, [ExampleY], None),
      ExampleT := Node(ExampleT, "java_test", {}, [], None)])
  }
}
