/**
 * The target list handed to the parser when test changes are detected:
 * the explicit test targets, then the targets of the matched nodes, each
 * once, in the order an insertion-ordered set keeps them.
 */
module MergedTargets {
  import opened Graph
  import opened Traversal

  /** The targets of `nodes`, in order. */
  function TargetsOfNodes(nodes: seq<Node>): (r: seq<BuildTarget>)
    ensures |r| == |nodes| && forall i :: 0 <= i < |nodes| ==> r[i] == nodes[i].target
  {
    if nodes == [] then [] else TargetsOfNodes(nodes[..|nodes| - 1]) + [nodes[|nodes| - 1].target]
  }

  /**
   * `s` with every repeat dropped: what an insertion-ordered set built by
   * adding the elements of `s` one at a time holds.
   */
  function InsertionOrdered(s: seq<BuildTarget>): (r: seq<BuildTarget>)
    ensures NoDuplicates(r)
    ensures forall t :: t in r <==> t in s
    ensures forall i, j :: 0 <= i < j < |r| ==> FirstIndex(s, r[i]) < FirstIndex(s, r[j])
  {
    if s == [] then []
    else
      var init := s[..|s| - 1];
      var last := s[|s| - 1];
      var d := InsertionOrdered(init);
      assert s == init + [last];
      FirstIndexInPrefix(init, last, d);
      if last in d then d
      else
        assert FirstIndex(s, last) == |s| - 1 by { FirstIndexOfNew(init, last); }
        d + [last]
  }

  /** Positions within `init` are unchanged by appending one element. */
  lemma FirstIndexInPrefix(init: seq<BuildTarget>, last: BuildTarget, d: seq<BuildTarget>)
    requires forall t :: t in d ==> t in init
    ensures forall t :: t in d ==> FirstIndex(init + [last], t) == FirstIndex(init, t)
  {
    forall t | t in d ensures FirstIndex(init + [last], t) == FirstIndex(init, t) {
      FirstIndexOfAppend(init, last, t);
    }
  }

  lemma {:induction false} FirstIndexOfAppend(init: seq<BuildTarget>, last: BuildTarget, t: BuildTarget)
    requires t in init
    ensures FirstIndex(init + [last], t) == FirstIndex(init, t)
  {
    if init[0] != t {
      assert (init + [last])[1..] == init[1..] + [last];
      FirstIndexOfAppend(init[1..], last, t);
    }
  }

  lemma {:induction false} FirstIndexOfNew(init: seq<BuildTarget>, last: BuildTarget)
    requires last !in init
    ensures FirstIndex(init + [last], last) == |init|
  {
    if init != [] {
      assert (init + [last])[1..] == init[1..] + [last];
      FirstIndexOfNew(init[1..], last);
    }
  }

  /**
   * The explicit targets first, then the targets of the nodes: every one of
   * them once, ordered by where it first occurs.
   */
  function MergeBuildTargets(targetNodes: seq<Node>, buildTargets: seq<BuildTarget>): (r: seq<BuildTarget>)
    ensures NoDuplicates(r)
    ensures forall t :: t in r <==> t in buildTargets || exists n :: n in targetNodes && n.target == t
    ensures forall i, j :: 0 <= i < j < |r| ==>
              FirstIndex(buildTargets + TargetsOfNodes(targetNodes), r[i])
              < FirstIndex(buildTargets + TargetsOfNodes(targetNodes), r[j])
  {
    var all := buildTargets + TargetsOfNodes(targetNodes);
    assert forall t :: t in TargetsOfNodes(targetNodes) <==> exists n :: n in targetNodes && n.target == t by {
      var ts := TargetsOfNodes(targetNodes);
      forall t ensures t in ts <==> exists n :: n in targetNodes && n.target == t {
        if t in ts {
          var i :| 0 <= i < |ts| && ts[i] == t;
          assert targetNodes[i] in targetNodes;
        }
        if exists n :: n in targetNodes && n.target == t {
          var n :| n in targetNodes && n.target == t;
          var i :| 0 <= i < |targetNodes| && targetNodes[i] == n;
          assert ts[i] == t;
        }
      }
    }
    InsertionOrdered(all)
  }
}
