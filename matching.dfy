/**
 * The matching-node query: seeds (the direct owners of the referenced files,
 * or every node), their dependent closure, and the optional allow-lists of
 * targets and rule types, keyed by fully qualified name.
 */
module MatchingNodes {
  import opened Wrappers
  import opened Paths
  import opened Graph
  import opened DirectOwners
  import opened DependentClosure

  /** The seeds: every node without referenced files, otherwise their direct owners. */
  ghost function Seeds(g: TargetGraph, referencedFiles: Option<set<Path>>, ancestorOf: Path -> Option<Path>,
                       buildFileName: string): (r: set<BuildTarget>)
  {
    match referencedFiles
    case None => g.nodes.Keys
    case Some(refs) => DirectOwnersOf(g, ancestorOf, refs, buildFileName)
  }

  /** `n` is on the target allow-list and has an allowed rule type, for each list that is present. */
  predicate PassesFilters(n: Node, matchingBuildTargets: Option<set<BuildTarget>>,
                          descriptionClasses: Option<set<RuleType>>)
  {
    && (matchingBuildTargets.None? || n.target in matchingBuildTargets.value)
    && (descriptionClasses.None? || n.ruleType in descriptionClasses.value)
  }

  /** The targets of `closure` that pass the filters. */
  ghost function Filtered(g: TargetGraph, closure: set<BuildTarget>,
                          matchingBuildTargets: Option<set<BuildTarget>>,
                          descriptionClasses: Option<set<RuleType>>): (r: set<BuildTarget>)
  {
    set t | t in closure && t in g.nodes && PassesFilters(g.nodes[t], matchingBuildTargets, descriptionClasses)
  }

  /** Without either allow-list the filter keeps every node of the closure. */
  lemma AbsentFiltersKeepAll(g: TargetGraph, closure: set<BuildTarget>)
    ensures Filtered(g, closure, None, None) == closure * g.nodes.Keys
  {
  }

  /**
   * The target allow-list and the rule-type allow-list act independently:
   * each removes the nodes it does not list, and applying both is applying
   * one after the other.
   */
  lemma FiltersAreIndependent(g: TargetGraph, closure: set<BuildTarget>,
                              targets: set<BuildTarget>, ruleTypes: set<RuleType>)
    requires g.Valid()
    ensures Filtered(g, closure, Some(targets), None) == Filtered(g, closure, None, None) * targets
    ensures Filtered(g, closure, Some(targets), Some(ruleTypes))
            == Filtered(g, closure, Some(targets), None) * Filtered(g, closure, None, Some(ruleTypes))
  {
  }

  /** The targets of the dependent closure of the seeds that pass the filters. */
  ghost function Selected(g: TargetGraph, seeds: set<BuildTarget>, detect: bool,
                          matchingBuildTargets: Option<set<BuildTarget>>,
                          descriptionClasses: Option<set<RuleType>>): (r: set<BuildTarget>)
  {
    Filtered(g, Closure(g, detect, seeds), matchingBuildTargets, descriptionClasses)
  }

  /** No two targets of `s` share a fully qualified name. */
  ghost predicate NamesUnique(s: set<BuildTarget>) {
    forall a, b :: a in s && b in s && FullyQualifiedName(a) == FullyQualifiedName(b) ==> a == b
  }

  /** Two distinct targets of `s` are both called `name`. */
  ghost predicate SharedName(s: set<BuildTarget>, name: string) {
    exists a, b :: a in s && b in s && a != b && FullyQualifiedName(a) == name && FullyQualifiedName(b) == name
  }

  /**
   * `m` holds exactly the nodes of `selected`, each under its own fully
   * qualified name.
   */
  ghost predicate KeyedByName(g: TargetGraph, selected: set<BuildTarget>, m: map<string, Node>) {
    && (forall k :: k in m ==>
          && m[k].target in selected && m[k].target in g.nodes
          && g.nodes[m[k].target] == m[k] && FullyQualifiedName(m[k].target) == k)
    && (forall t :: t in selected && t in g.nodes ==>
          FullyQualifiedName(t) in m && m[FullyQualifiedName(t)] == g.nodes[t])
  }

  /**
   * A sorted map built from `selected` keyed by name: it is refused when two
   * targets share a name, and otherwise holds each selected node under its
   * name.
   */
  ghost predicate IsKeyedResult(g: TargetGraph, selected: set<BuildTarget>, r: Result<map<string, Node>, TargetsError>) {
    && (r.Failure? <==> !NamesUnique(selected))
    && (r.Failure? ==> r.error.DuplicateName? && SharedName(selected, r.error.name))
    && (r.Success? ==> KeyedByName(g, selected, r.value))
  }

  /**
   * What a matching-node query returns: with test changes detected and a
   * declared test missing from the graph, the error naming it; otherwise the
   * selected nodes keyed by name.
   */
  ghost predicate IsMatchingResult(g: TargetGraph, seeds: set<BuildTarget>, detect: bool,
                                   matchingBuildTargets: Option<set<BuildTarget>>,
                                   descriptionClasses: Option<set<RuleType>>,
                                   r: Result<map<string, Node>, TargetsError>)
  {
    if detect && HasDanglingTest(g) then
      r.Failure? && r.error.TestNotInGraph? && DanglingTest(g, r.error.testedNode, r.error.test)
    else
      IsKeyedResult(g, Selected(g, seeds, detect, matchingBuildTargets, descriptionClasses), r)
  }

  /** The nodes of the graph that the predicate accepts. */
  method FilterDirectOwners(g: TargetGraph, ownerTest: DirectOwnerPredicate) returns (owners: set<BuildTarget>)
    ensures owners == set t | t in g.nodes &&
              IsDirectOwner(ownerTest.basePathOfTargets, ownerTest.referencedInputs, ownerTest.buildFileName, g.nodes[t])
  {
    owners := {};
    var remaining := g.nodes.Keys;
    while remaining != {}
      invariant remaining <= g.nodes.Keys
      invariant owners == set t | t in g.nodes && t !in remaining &&
                  IsDirectOwner(ownerTest.basePathOfTargets, ownerTest.referencedInputs, ownerTest.buildFileName, g.nodes[t])
      decreases remaining
    {
      var t :| t in remaining;
      var owns := ownerTest.Test(g.nodes[t]);
      if owns {
        owners := owners + {t};
      }
      remaining := remaining - {t};
    }
  }

  /** A graph's nodes all lie in the closure of all of them. */
  lemma ClosureOfEveryNode(g: TargetGraph, detect: bool)
    ensures Closure(g, detect, g.nodes.Keys) == g.nodes.Keys
  {
    forall t | t in g.nodes ensures t in Closure(g, detect, g.nodes.Keys) {
      SeedReachable(g, detect, g.nodes.Keys, t);
    }
  }

  /** The seeds of a query: the direct owners of the referenced files, or every node. */
  method ComputeSeeds(g: TargetGraph, referencedFiles: Option<set<Path>>, ancestorOf: Path -> Option<Path>,
                      buildFileName: string)
    returns (seeds: set<BuildTarget>)
    ensures seeds == Seeds(g, referencedFiles, ancestorOf, buildFileName)
    ensures seeds <= g.nodes.Keys
  {
    if referencedFiles.Some? {
      var ownerTest := new DirectOwnerPredicate(ancestorOf, referencedFiles.value, buildFileName);
      seeds := FilterDirectOwners(g, ownerTest);
    } else {
      seeds := g.nodes.Keys;
    }
  }

  /** Puts every node of `closure` that passes the filters in a map keyed by its name. */
  method KeyByName(g: TargetGraph, closure: set<BuildTarget>,
                   matchingBuildTargets: Option<set<BuildTarget>>,
                   descriptionClasses: Option<set<RuleType>>)
    returns (r: Result<map<string, Node>, TargetsError>)
    requires g.Valid()
    requires closure <= g.nodes.Keys
    ensures IsKeyedResult(g, Filtered(g, closure, matchingBuildTargets, descriptionClasses), r)
  {
    ghost var selected := Filtered(g, closure, matchingBuildTargets, descriptionClasses);
    var builder: map<string, Node> := map[];
    var remaining := closure;
    while remaining != {}
      invariant remaining <= closure
      invariant KeyedByName(g, selected - remaining, builder)
      invariant NamesUnique(selected - remaining)
      decreases remaining
    {
      var t :| t in remaining;
      var node := g.nodes[t];
      if PassesFilters(node, matchingBuildTargets, descriptionClasses) {
        var name := FullyQualifiedName(t);
        if name in builder {
          var other := builder[name].target;
          assert other in selected && t in selected && other != t;
          assert SharedName(selected, name);
          return Failure(DuplicateName(name));
        }
        builder := builder[name := node];
      }
      remaining := remaining - {t};
    }
    assert selected - remaining == selected;
    return Success(builder);
  }

  /**
   * The nodes matching a query, keyed by fully qualified name: the dependent
   * closure of the seeds, restricted to the allow-lists that are present.
   */
  method GetMatchingNodes(g: TargetGraph, referencedFiles: Option<set<Path>>,
                          matchingBuildTargets: Option<set<BuildTarget>>,
                          descriptionClasses: Option<set<RuleType>>,
                          detectTestChanges: bool, buildFileName: string,
                          ancestorOf: Path -> Option<Path>)
    returns (r: Result<map<string, Node>, TargetsError>)
    requires g.Valid()
    ensures IsMatchingResult(g, Seeds(g, referencedFiles, ancestorOf, buildFileName), detectTestChanges,
                             matchingBuildTargets, descriptionClasses, r)
    ensures referencedFiles.None? && r.Success? ==>
              forall t :: t in g.nodes && PassesFilters(g.nodes[t], matchingBuildTargets, descriptionClasses) ==>
                FullyQualifiedName(t) in r.value
  {
    var directOwners := ComputeSeeds(g, referencedFiles, ancestorOf, buildFileName);
    var dependents := GetDependentNodes(g, directOwners, detectTestChanges);
    if dependents.Failure? {
      return Failure(dependents.error);
    }
    r := KeyByName(g, dependents.value, matchingBuildTargets, descriptionClasses);
    if referencedFiles.None? {
      ClosureOfEveryNode(g, detectTestChanges);
    }
  }

  /**
   * The query as the command runs it, given the referenced files split into
   * those under the project root and the rest: when every referenced file
   * lies outside the root, nothing matches; empty lists mean no filter.
   */
  method MatchingNodesForReferencedFiles(g: TargetGraph, relativePathsUnderProjectRoot: set<Path>,
                                         pathsOutsideProjectRootOrNonExisting: set<Path>,
                                         buildTargets: set<BuildTarget>, descriptionClasses: set<RuleType>,
                                         detectTestChanges: bool, buildFileName: string,
                                         ancestorOf: Path -> Option<Path>)
    returns (r: Result<map<string, Node>, TargetsError>)
    requires g.Valid()
    ensures pathsOutsideProjectRootOrNonExisting != {} && relativePathsUnderProjectRoot == {} ==> r == Success(map[])
    ensures !(pathsOutsideProjectRootOrNonExisting != {} && relativePathsUnderProjectRoot == {}) ==>
              IsMatchingResult(g,
                Seeds(g, if relativePathsUnderProjectRoot == {} then None else Some(relativePathsUnderProjectRoot),
                      ancestorOf, buildFileName),
                detectTestChanges,
                if buildTargets == {} then None else Some(buildTargets),
                if descriptionClasses == {} then None else Some(descriptionClasses),
                r)
  {
    if pathsOutsideProjectRootOrNonExisting != {} && relativePathsUnderProjectRoot == {} {
      return Success(map[]);
    }
    r := GetMatchingNodes(g,
      if relativePathsUnderProjectRoot == {} then None else Some(relativePathsUnderProjectRoot),
      if buildTargets == {} then None else Some(buildTargets),
      if descriptionClasses == {} then None else Some(descriptionClasses),
      detectTestChanges, buildFileName, ancestorOf);
  }
}
