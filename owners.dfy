/**
 * Direct owners of referenced files: the nodes whose package is the nearest
 * enclosing package of a referenced file and which reference that file (or
 * their own build file) as an input.
 */
module DirectOwners {
  import opened Wrappers
  import opened Paths
  import opened Graph

  /**
   * The base paths of the nearest enclosing packages of the referenced files,
   * one per file for which the build-file tree knows such a package.
   */
  function AncestorBasePaths(ancestorOf: Path -> Option<Path>, referenced: set<Path>): (r: set<Path>)
    ensures forall b :: b in r <==> exists p :: p in referenced && ancestorOf(p) == Some(b)
  {
    set p | p in referenced && ancestorOf(p).Some? :: ancestorOf(p).value
  }

  /** Some input of `n` is a component-wise prefix of some referenced path. */
  predicate ReferencesInput(n: Node, referenced: set<Path>) {
    exists input, ref :: input in n.inputs && ref in referenced && StartsWith(ref, input)
  }

  /** The direct-owner test, given the ancestor base paths of the referenced files. */
  predicate IsDirectOwner(basePaths: set<Path>, referenced: set<Path>, buildFileName: string, n: Node) {
    && n.target.basePath in basePaths
    && (ReferencesInput(n, referenced) || Resolve(n.target.basePath, [buildFileName]) in referenced)
  }

  /** The nodes of `g` that directly own one of the referenced files. */
  ghost function DirectOwnersOf(g: TargetGraph, ancestorOf: Path -> Option<Path>, referenced: set<Path>,
                                buildFileName: string): (r: set<BuildTarget>)
  {
    set t | t in g.nodes && IsDirectOwner(AncestorBasePaths(ancestorOf, referenced), referenced, buildFileName, g.nodes[t])
  }

  /** The predicate object a node filter is built from. */
  class DirectOwnerPredicate {
    const referencedInputs: set<Path>
    const basePathOfTargets: set<Path>
    const buildFileName: string

    /** Collects the ancestor base path of every referenced input. */
    constructor (ancestorOf: Path -> Option<Path>, referencedInputs: set<Path>, buildFileName: string)
      ensures this.referencedInputs == referencedInputs
      ensures this.buildFileName == buildFileName
      ensures basePathOfTargets == AncestorBasePaths(ancestorOf, referencedInputs)
    {
      var builder: set<Path> := {};
      var remaining := referencedInputs;
      while remaining != {}
        invariant remaining <= referencedInputs
        invariant builder == AncestorBasePaths(ancestorOf, referencedInputs - remaining)
        decreases remaining
      {
        var input :| input in remaining;
        match ancestorOf(input) {
          case Some(b) => builder := builder + {b};
          case None =>
        }
        remaining := remaining - {input};
      }
      this.referencedInputs := referencedInputs;
      this.basePathOfTargets := builder;
      this.buildFileName := buildFileName;
    }

    /** Whether `node` directly owns one of the referenced inputs. */
    method Test(node: Node) returns (r: bool)
      ensures r == IsDirectOwner(basePathOfTargets, referencedInputs, buildFileName, node)
      ensures node.target.basePath !in basePathOfTargets ==> !r
      ensures node.target.basePath in basePathOfTargets && ReferencesInput(node, referencedInputs) ==> r
      ensures node.target.basePath in basePathOfTargets && !ReferencesInput(node, referencedInputs) ==>
                (r <==> Resolve(node.target.basePath, [buildFileName]) in referencedInputs)
    {
      if node.target.basePath !in basePathOfTargets {
        return false;
      }
      var inputs := node.inputs;
      while inputs != {}
        invariant inputs <= node.inputs
        invariant forall i, p :: i in node.inputs && i !in inputs && p in referencedInputs ==> !(i <= p)
        decreases inputs
      {
        var input :| input in inputs;
        var refs := referencedInputs;
        while refs != {}
          invariant refs <= referencedInputs
          invariant forall p :: p in referencedInputs && p !in refs ==> !(input <= p)
          decreases refs
        {
          var referencedInput :| referencedInput in refs;
          if StartsWith(referencedInput, input) {
            return true;
          }
          refs := refs - {referencedInput};
        }
        inputs := inputs - {input};
      }
      return Resolve(node.target.basePath, [buildFileName]) in referencedInputs;
    }
  }

  /**
   * Of two packages `//a` (input a/f.txt) and `//a/b` (input a/b/g.txt), a
   * reference to a/b/g.txt selects only `//a/b`, when a/b is its nearest
   * package.
   */
  lemma NearestPackageOnlyOwns(ancestorOf: Path -> Option<Path>)
    requires ancestorOf(["a", "b", "g.txt"]) == Some(["a", "b"])
    ensures var refs := {["a", "b", "g.txt"]};
            var bases := AncestorBasePaths(ancestorOf, refs);
            && IsDirectOwner(bases, refs, "BUCK",
                 Node(BuildTarget("", ["a", "b"], "b", []), "genrule", {["a", "b", "g.txt"]}, [], None))
            && !IsDirectOwner(bases, refs, "BUCK",
                 Node(BuildTarget("", ["a"], "a", []), "genrule", {["a", "f.txt"]}, [], None))
  {
    var refs: set<Path> := {["a", "b", "g.txt"]};
    assert AncestorBasePaths(ancestorOf, refs) == {["a", "b"]};
    var ab: Path := ["a", "b", "g.txt"];
    assert StartsWith(ab, ab);
    var a: Path := ["a"];
    assert a != ["a", "b"];
  }
}
