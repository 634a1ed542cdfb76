/**
 * Target hashes that also cover tests: each target's hash is re-digested
 * together with the re-digested hashes of its parse dependencies and the
 * plain hashes of its tests, in dependency-first order.
 */
module TargetHashes {
  import opened Wrappers
  import opened Graph
  import opened Traversal

  /** The bytes of a hash code. */
  type HashCode = seq<bv8>

  /** The hash of `t` in `hashes`, or the error naming the target without one. */
  function GetHashCodeOrThrow(hashes: map<BuildTarget, HashCode>, t: BuildTarget): (r: Result<HashCode, TargetsError>)
    ensures r.Success? <==> t in hashes
    ensures r.Success? ==> r.value == hashes[t]
    ensures r.Failure? ==> r.error == MissingHash(t)
  {
    if t in hashes then Success(hashes[t]) else Failure(MissingHash(t))
  }

  /** The bytes of the hashes of `ts`, one after the other. */
  function Concat(hashes: map<BuildTarget, HashCode>, ts: seq<BuildTarget>): (r: seq<bv8>)
    requires forall t :: t in ts ==> t in hashes
  {
    if ts == [] then [] else Concat(hashes, ts[..|ts| - 1]) + hashes[ts[|ts| - 1]]
  }

  /**
   * What the hasher of node `n` absorbs: its own hash from `base`, the
   * hashes of its parse dependencies from `folded`, in order, and, when
   * tests are detected, the hashes of its tests from `base`. The first
   * lookup that finds nothing is the error.
   */
  function DigestInput(base: map<BuildTarget, HashCode>, folded: map<BuildTarget, HashCode>, n: Node, detect: bool)
    : (r: Result<seq<bv8>, TargetsError>)
    ensures r.Success? <==> && n.target in base && (forall d :: d in n.parseDeps ==> d in folded)
                            && (detect ==> forall x :: x in TestsOf(n) ==> x in base)
    ensures r.Failure? ==> && r.error.MissingHash?
                           && (|| (r.error.missing == n.target && r.error.missing !in base)
                               || (r.error.missing in n.parseDeps && r.error.missing !in folded)
                               || (detect && r.error.missing in TestsOf(n) && r.error.missing !in base))
    ensures r.Success? ==> base[n.target] <= r.value
  {
    if n.target !in base then Failure(MissingHash(n.target))
    else if FirstAbsent(folded.Keys, n.parseDeps).Some? then Failure(MissingHash(FirstAbsent(folded.Keys, n.parseDeps).value))
    else if detect && FirstAbsent(base.Keys, TestsOf(n)).Some? then Failure(MissingHash(FirstAbsent(base.Keys, TestsOf(n)).value))
    else Success(base[n.target] + Concat(folded, n.parseDeps) + (if detect then Concat(base, TestsOf(n)) else []))
  }

  /** Hashes `n` into `folded`, given the hashes of its dependencies there. */
  method HashNodeWithDependencies(digest: seq<bv8> -> HashCode, base: map<BuildTarget, HashCode>,
                                  folded: map<BuildTarget, HashCode>, n: Node, detect: bool)
    returns (r: Result<map<BuildTarget, HashCode>, TargetsError>)
    ensures r.Failure? <==> DigestInput(base, folded, n, detect).Failure?
    ensures r.Failure? ==> r.error == DigestInput(base, folded, n, detect).error
    ensures r.Success? ==> r.value == folded[n.target := digest(DigestInput(base, folded, n, detect).value)]
  {
    var own := GetHashCodeOrThrow(base, n.target);
    if own.Failure? {
      return Failure(own.error);
    }
    var withDeps := AbsorbHashes(folded, n.parseDeps, own.value);
    if withDeps.Failure? {
      return Failure(withDeps.error);
    }
    var absorbed := withDeps.value;
    if detect {
      var withTests := AbsorbHashes(base, TestsOf(n), absorbed);
      if withTests.Failure? {
        return Failure(withTests.error);
      }
      absorbed := withTests.value;
    } else {
      assert absorbed == absorbed + [];
    }
    r := Success(folded[n.target := digest(absorbed)]);
  }

  /** Appends the hashes of `ts` to `absorbed`, one at a time, failing at the first missing one. */
  method AbsorbHashes(hashes: map<BuildTarget, HashCode>, ts: seq<BuildTarget>, absorbed: seq<bv8>)
    returns (r: Result<seq<bv8>, TargetsError>)
    ensures r.Failure? <==> FirstAbsent(hashes.Keys, ts).Some?
    ensures r.Failure? ==> r.error == MissingHash(FirstAbsent(hashes.Keys, ts).value)
    ensures r.Success? ==> r.value == absorbed + Concat(hashes, ts)
  {
    var bytes := absorbed;
    var i := 0;
    while i < |ts|
      invariant 0 <= i <= |ts|
      invariant forall t :: t in ts[..i] ==> t in hashes
      invariant bytes == absorbed + Concat(hashes, ts[..i])
    {
      var h := GetHashCodeOrThrow(hashes, ts[i]);
      if h.Failure? {
        FirstAbsentIsFirst(hashes.Keys, ts, i);
        return Failure(h.error);
      }
      assert ts[..i + 1][..i] == ts[..i];
      bytes := bytes + h.value;
      i := i + 1;
    }
    assert ts[..i] == ts;
    r := Success(bytes);
  }

  /**
   * `folded` holds, for each of its targets, the digest of what that
   * node's hasher absorbs when it is looked up in `folded` itself.
   */
  ghost predicate FoldEquation(g: TargetGraph, base: map<BuildTarget, HashCode>, digest: seq<bv8> -> HashCode,
                               folded: map<BuildTarget, HashCode>)
  {
    forall t :: t in folded ==>
      && t in g.nodes
      && DigestInput(base, folded, g.nodes[t], true).Success?
      && folded[t] == digest(DigestInput(base, folded, g.nodes[t], true).value)
  }

  /** Every target of `order`, and every test of one, has a plain hash. */
  ghost predicate AllHashed(g: TargetGraph, base: map<BuildTarget, HashCode>, order: seq<BuildTarget>)
    requires forall t :: t in order ==> t in g.nodes
  {
    forall t :: t in order ==> t in base && forall x :: x in TestsOf(g.nodes[t]) ==> x in base
  }

  /**
   * The first plain hash node `n` needs and `base` lacks: its own, then
   * those of its tests in order.
   */
  function PlainMissing(base: map<BuildTarget, HashCode>, n: Node): (r: Option<BuildTarget>)
    ensures r.None? <==> n.target in base && forall x :: x in TestsOf(n) ==> x in base
    ensures r.Some? ==> r.value !in base && (r.value == n.target || r.value in TestsOf(n))
  {
    if n.target !in base then Some(n.target) else FirstAbsent(base.Keys, TestsOf(n))
  }

  /**
   * The re-hashing over dependency-first `order` succeeds exactly when every
   * plain hash it needs exists, and then maps the targets of `order` to
   * hashes satisfying the fold equation; otherwise it names the first
   * missing plain hash of the first target in `order` that has one missing.
   */
  ghost predicate RehashOutcome(g: TargetGraph, base: map<BuildTarget, HashCode>, digest: seq<bv8> -> HashCode,
                                order: seq<BuildTarget>, r: Result<map<BuildTarget, HashCode>, TargetsError>)
    requires forall t :: t in order ==> t in g.nodes
  {
    && (r.Success? <==> AllHashed(g, base, order))
    && (r.Failure? ==> r.error.MissingHash? && r.error.missing !in base)
    && (r.Failure? ==> exists i :: 0 <= i < |order| && AllHashed(g, base, order[..i]) &&
                                   PlainMissing(base, g.nodes[order[i]]) == Some(r.error.missing))
    && (r.Success? ==> r.value.Keys == Elems(order) && FoldEquation(g, base, digest, r.value))
  }

  /**
   * Without test detection the plain hashes are the answer. With it,
   * every input and everything it depends on is re-hashed in post-order,
   * and a cycle or a target missing from the graph is the error.
   */
  method RehashWithTestsIfNeeded(g: TargetGraph, inputs: seq<BuildTarget>, base: map<BuildTarget, HashCode>,
                                 digest: seq<bv8> -> HashCode, detectTestChanges: bool)
    returns (r: Result<map<BuildTarget, HashCode>, TargetsError>)
    requires g.Valid()
    ensures !detectTestChanges ==> r == Success(base)
    ensures detectTestChanges && PostOrder(g, inputs).Failure? ==> r == Failure(PostOrder(g, inputs).error)
    ensures detectTestChanges && PostOrder(g, inputs).Success? ==>
              RehashOutcome(g, base, digest, PostOrder(g, inputs).value, r)
  {
    if !detectTestChanges {
      return Success(base);
    }
    var traversal := PostOrder(g, inputs);
    if traversal.Failure? {
      return Failure(traversal.error);
    }
    var order := traversal.value;
    var folded: map<BuildTarget, HashCode> := map[];
    var i := 0;
    while i < |order|
      invariant 0 <= i <= |order|
      invariant folded.Keys == Elems(order[..i])
      invariant FoldEquation(g, base, digest, folded)
      invariant AllHashed(g, base, order[..i])
    {
      var node := g.nodes[order[i]];
      var next := HashNodeWithDependencies(digest, base, folded, node, true);
      if next.Failure? {
        FailureMeansUnhashed(g, base, folded, order, i);
        assert PlainMissing(base, g.nodes[order[i]]) == Some(next.error.missing);
        return next;
      }
      FoldStep(g, base, digest, order, i, folded);
      folded := next.value;
      i := i + 1;
    }
    assert order[..i] == order;
    r := Success(folded);
  }

  /** A failed step of the re-hashing names a target whose plain hash is missing. */
  lemma FailureMeansUnhashed(g: TargetGraph, base: map<BuildTarget, HashCode>, folded: map<BuildTarget, HashCode>,
                             order: seq<BuildTarget>, i: nat)
    requires g.Valid() && DepsFirst(g, order) && i < |order| && folded.Keys == Elems(order[..i])
    requires DigestInput(base, folded, g.nodes[order[i]], true).Failure?
    ensures DigestInput(base, folded, g.nodes[order[i]], true).error.MissingHash?
    ensures DigestInput(base, folded, g.nodes[order[i]], true).error.missing !in base
    ensures PlainMissing(base, g.nodes[order[i]]) == Some(DigestInput(base, folded, g.nodes[order[i]], true).error.missing)
    ensures !AllHashed(g, base, order)
  {
    var n := g.nodes[order[i]];
    assert forall d :: d in n.parseDeps ==> d in order[..i];
    assert FirstAbsent(folded.Keys, n.parseDeps).None?;
    assert order[i] in order;
    if order[i] in base {
      assert FirstAbsent(base.Keys, TestsOf(n)).Some?;
      var x := FirstAbsent(base.Keys, TestsOf(n)).value;
      assert x in TestsOf(g.nodes[order[i]]) && x !in base;
    }
  }

  /** Hashing `order[i]` keeps the fold equation and extends the hashed prefix by one. */
  lemma FoldStep(g: TargetGraph, base: map<BuildTarget, HashCode>, digest: seq<bv8> -> HashCode,
                 order: seq<BuildTarget>, i: nat, folded: map<BuildTarget, HashCode>)
    requires g.Valid() && DepsFirst(g, order) && NoDuplicates(order) && i < |order|
    requires folded.Keys == Elems(order[..i]) && FoldEquation(g, base, digest, folded)
    requires AllHashed(g, base, order[..i])
    requires DigestInput(base, folded, g.nodes[order[i]], true).Success?
    ensures var t := order[i];
            var next := folded[t := digest(DigestInput(base, folded, g.nodes[t], true).value)];
            && next.Keys == Elems(order[..i + 1])
            && FoldEquation(g, base, digest, next)
            && AllHashed(g, base, order[..i + 1])
  {
    var t := order[i];
    var next := folded[t := digest(DigestInput(base, folded, g.nodes[t], true).value)];
    assert order[..i + 1] == order[..i] + [t];
    assert t !in folded;
    forall u | u in next
      ensures && u in g.nodes
              && DigestInput(base, next, g.nodes[u], true).Success?
              && next[u] == digest(DigestInput(base, next, g.nodes[u], true).value)
    {
      if u == t {
        assert forall d :: d in g.nodes[t].parseDeps ==> d in order[..i];
        DigestInputAgrees(base, folded, next, g.nodes[t], true);
      } else {
        assert FirstAbsent(folded.Keys, g.nodes[u].parseDeps).None?;
        DigestInputAgrees(base, folded, next, g.nodes[u], true);
      }
    }
  }

  /** Lookups that agree on the parse dependencies of `n` absorb the same bytes. */
  lemma DigestInputAgrees(base: map<BuildTarget, HashCode>, m1: map<BuildTarget, HashCode>,
                          m2: map<BuildTarget, HashCode>, n: Node, detect: bool)
    requires forall d :: d in n.parseDeps ==> d in m1 && d in m2 && m1[d] == m2[d]
    ensures DigestInput(base, m1, n, detect) == DigestInput(base, m2, n, detect)
  {
    ConcatAgrees(m1, m2, n.parseDeps);
  }

  lemma {:induction false} ConcatAgrees(m1: map<BuildTarget, HashCode>, m2: map<BuildTarget, HashCode>, ts: seq<BuildTarget>)
    requires forall d :: d in ts ==> d in m1 && d in m2 && m1[d] == m2[d]
    ensures Concat(m1, ts) == Concat(m2, ts)
  {
    if ts != [] {
      var init := ts[..|ts| - 1];
      assert forall d :: d in init ==> d in ts;
      ConcatAgrees(m1, m2, init);
    }
  }

  /**
   * The fold equation has one solution over the targets of a
   * dependency-first order: the re-hashed values do not depend on the
   * order in which they were computed.
   */
  lemma FoldedHashesUnique(g: TargetGraph, base: map<BuildTarget, HashCode>, digest: seq<bv8> -> HashCode,
                           order: seq<BuildTarget>, m1: map<BuildTarget, HashCode>, m2: map<BuildTarget, HashCode>)
    requires DepsFirst(g, order) && m1.Keys == Elems(order) && m2.Keys == Elems(order)
    requires FoldEquation(g, base, digest, m1) && FoldEquation(g, base, digest, m2)
    ensures m1 == m2
  {
    forall u | u in g.nodes.Keys && u in m1 && u in m2 && DepsHashedAlike(g, m1, m2, u) ensures m1[u] == m2[u] {
      DigestInputAgrees(base, m1, m2, g.nodes[u], true);
    }
    AgreeBelow(g, order, m1, m2, g.nodes.Keys, |order|);
    forall t | t in m1 ensures m1[t] == m2[t] {
      var j :| 0 <= j < |order| && order[j] == t;
    }
  }

  /** `below` is a set of nodes holding every parse dependency of its nodes that the graph has. */
  ghost predicate ClosedUnderDeps(g: TargetGraph, below: set<BuildTarget>) {
    && (forall u :: u in below ==> u in g.nodes)
    && (forall u, d :: u in below && d in g.nodes[u].parseDeps && d in g.nodes ==> d in below)
  }

  /** Every parse dependency of `u` is re-hashed, and alike, in both maps. */
  ghost predicate DepsHashedAlike(g: TargetGraph, m1: map<BuildTarget, HashCode>, m2: map<BuildTarget, HashCode>,
                                  u: BuildTarget)
    requires u in g.nodes
  {
    forall d :: d in g.nodes[u].parseDeps ==> d in m1 && d in m2 && m1[d] == m2[d]
  }

  /**
   * Induction along a dependency-first order: when each node of the closed
   * set `below` is re-hashed alike as soon as its dependencies are, every
   * node of `below` in the order is re-hashed alike.
   */
  lemma {:induction false} AgreeBelow(g: TargetGraph, order: seq<BuildTarget>,
                                      m1: map<BuildTarget, HashCode>, m2: map<BuildTarget, HashCode>,
                                      below: set<BuildTarget>, k: nat)
    requires DepsFirst(g, order) && m1.Keys == Elems(order) && m2.Keys == Elems(order)
    requires ClosedUnderDeps(g, below) && k <= |order|
    requires forall u :: u in below && u in m1 && u in m2 && DepsHashedAlike(g, m1, m2, u) ==> m1[u] == m2[u]
    ensures forall j :: 0 <= j < k && order[j] in below ==> m1[order[j]] == m2[order[j]]
  {
    if k > 0 {
      AgreeBelow(g, order, m1, m2, below, k - 1);
      var u := order[k - 1];
      if u in below {
        assert u in Elems(order);
        DepsAlike(g, order, m1, m2, below, k - 1);
        assert DepsHashedAlike(g, m1, m2, u);
      }
    }
  }

  /** The dependencies of `order[i]`, when it lies in `below`, come earlier and so are hashed alike. */
  lemma DepsAlike(g: TargetGraph, order: seq<BuildTarget>, m1: map<BuildTarget, HashCode>,
                  m2: map<BuildTarget, HashCode>, below: set<BuildTarget>, i: nat)
    requires DepsFirst(g, order) && m1.Keys == Elems(order) && m2.Keys == Elems(order) && i < |order|
    requires ClosedUnderDeps(g, below)
    requires forall j :: 0 <= j < i && order[j] in below ==> m1[order[j]] == m2[order[j]]
    requires order[i] in below
    ensures DepsHashedAlike(g, m1, m2, order[i])
  {
    var u := order[i];
    forall d | d in g.nodes[u].parseDeps
      ensures d in m1 && d in m2 && m1[d] == m2[d]
    {
      assert d in order[..i];
      var j :| 0 <= j < i && order[j] == d;
    }
  }

  /** Everything anchored in `roots` lies inside any dependency-first order that holds `roots`. */
  lemma AnchoredWithin(g: TargetGraph, o1: seq<BuildTarget>, roots: set<BuildTarget>, o2: seq<BuildTarget>)
    requires Anchored(g, o1, 0, roots) && DepsFirst(g, o2) && roots <= Elems(o2)
    ensures Elems(o1) <= Elems(o2)
  {
    WithinFrom(g, o1, roots, o2, 0);
  }

  lemma {:induction false} WithinFrom(g: TargetGraph, o1: seq<BuildTarget>, roots: set<BuildTarget>,
                                      o2: seq<BuildTarget>, k: nat)
    requires Anchored(g, o1, 0, roots) && DepsFirst(g, o2) && roots <= Elems(o2) && k <= |o1|
    ensures forall j :: k <= j < |o1| ==> o1[j] in o2
    decreases |o1| - k
  {
    if k < |o1| {
      WithinFrom(g, o1, roots, o2, k + 1);
      if o1[k] !in roots {
        var j :| k < j < |o1| && o1[j] in g.nodes && o1[k] in g.nodes[o1[j]].parseDeps;
        var p :| 0 <= p < |o2| && o2[p] == o1[j];
        assert o1[k] in o2[..p];
      }
    }
  }

  /**
   * Re-hashing from the same input targets, listed in any order or with
   * repeats, yields the same hashes.
   */
  lemma RehashIgnoresInputOrder(g: TargetGraph, base: map<BuildTarget, HashCode>, digest: seq<bv8> -> HashCode,
                                inputs1: seq<BuildTarget>, inputs2: seq<BuildTarget>,
                                m1: map<BuildTarget, HashCode>, m2: map<BuildTarget, HashCode>)
    requires Elems(inputs1) == Elems(inputs2)
    requires PostOrder(g, inputs1).Success? && PostOrder(g, inputs2).Success?
    requires m1.Keys == Elems(PostOrder(g, inputs1).value) && FoldEquation(g, base, digest, m1)
    requires m2.Keys == Elems(PostOrder(g, inputs2).value) && FoldEquation(g, base, digest, m2)
    ensures m1 == m2
  {
    var o1 := PostOrder(g, inputs1).value;
    var o2 := PostOrder(g, inputs2).value;
    AnchoredWithin(g, o1, Elems(inputs1), o2);
    AnchoredWithin(g, o2, Elems(inputs2), o1);
    FoldedHashesUnique(g, base, digest, o1, m1, m2);
  }

  /** `x` has the same plain hash in both maps, or none in either. */
  ghost predicate SamePlainHash(base1: map<BuildTarget, HashCode>, base2: map<BuildTarget, HashCode>, x: BuildTarget) {
    (x in base1 <==> x in base2) && (x in base1 ==> base1[x] == base2[x])
  }

  /**
   * The plain hashes agree on every target `t` reaches through parse
   * dependencies (`t` included) and on the tests of each of them.
   */
  ghost predicate SameBelow(g: TargetGraph, base1: map<BuildTarget, HashCode>, base2: map<BuildTarget, HashCode>,
                            t: BuildTarget)
  {
    forall u :: u in g.nodes && Reaches(g, {t}, u) ==>
      SamePlainHash(base1, base2, u) && forall x :: x in TestsOf(g.nodes[u]) ==> SamePlainHash(base1, base2, x)
  }

  /**
   * A node whose own and test plain hashes, and whose dependencies'
   * re-hashed values, are the same in two settings gets the same hasher input.
   */
  lemma DigestInputSame(base1: map<BuildTarget, HashCode>, base2: map<BuildTarget, HashCode>,
                        m1: map<BuildTarget, HashCode>, m2: map<BuildTarget, HashCode>, n: Node)
    requires DigestInput(base1, m1, n, true).Success? && DigestInput(base2, m2, n, true).Success?
    requires base1[n.target] == base2[n.target]
    requires forall x :: x in TestsOf(n) ==> x in base1 && x in base2 && base1[x] == base2[x]
    requires forall d :: d in n.parseDeps ==> d in m1 && d in m2 && m1[d] == m2[d]
    ensures DigestInput(base1, m1, n, true) == DigestInput(base2, m2, n, true)
  {
    ConcatAgrees(m1, m2, n.parseDeps);
    ConcatAgrees(base1, base2, TestsOf(n));
  }

  /**
   * Re-hashing is local: when the plain hashes of two runs agree on
   * everything `t` depends on and on their tests, the re-hashed value of
   * `t` is the same in both, whatever other targets' plain hashes are.
   */
  lemma RehashIsLocal(g: TargetGraph, base1: map<BuildTarget, HashCode>, base2: map<BuildTarget, HashCode>,
                      digest: seq<bv8> -> HashCode, order: seq<BuildTarget>,
                      m1: map<BuildTarget, HashCode>, m2: map<BuildTarget, HashCode>, t: BuildTarget)
    requires g.Valid() && DepsFirst(g, order) && m1.Keys == Elems(order) && m2.Keys == Elems(order)
    requires FoldEquation(g, base1, digest, m1) && FoldEquation(g, base2, digest, m2)
    requires t in order && SameBelow(g, base1, base2, t)
    ensures m1[t] == m2[t]
    ensures forall u :: u in order && Reaches(g, {t}, u) ==> m1[u] == m2[u]
  {
    var below := set u | u in g.nodes && Reaches(g, {t}, u);
    ReachedIsClosed(g, t, below);
    forall u | u in below && u in m1 && u in m2 && DepsHashedAlike(g, m1, m2, u) ensures m1[u] == m2[u] {
      LocalStep(g, base1, base2, digest, m1, m2, below, u);
    }
    AgreeBelow(g, order, m1, m2, below, |order|);
    assert t in g.nodes;
    ReachesRoot(g, {t}, t);
    forall u | u in order && Reaches(g, {t}, u) ensures m1[u] == m2[u] {
      var j :| 0 <= j < |order| && order[j] == u;
    }
  }

  /** What `t` reaches is closed under parse dependencies in the graph. */
  lemma ReachedIsClosed(g: TargetGraph, t: BuildTarget, below: set<BuildTarget>)
    requires below == set u | u in g.nodes && Reaches(g, {t}, u)
    ensures ClosedUnderDeps(g, below)
  {
    forall u, d | u in below && d in g.nodes[u].parseDeps && d in g.nodes ensures d in below {
      ReachesExtend(g, {t}, u, d);
    }
  }

  /** Plain hashes agree on `below`, a set of nodes closed under dependencies, and on their tests. */
  ghost predicate AlikeOn(g: TargetGraph, base1: map<BuildTarget, HashCode>, base2: map<BuildTarget, HashCode>,
                          below: set<BuildTarget>)
  {
    && ClosedUnderDeps(g, below)
    && (forall u :: u in below ==>
          SamePlainHash(base1, base2, u) && forall x :: x in TestsOf(g.nodes[u]) ==> SamePlainHash(base1, base2, x))
  }

  /** One node of `below` is re-hashed alike once its dependencies are. */
  lemma LocalStep(g: TargetGraph, base1: map<BuildTarget, HashCode>, base2: map<BuildTarget, HashCode>,
                  digest: seq<bv8> -> HashCode, m1: map<BuildTarget, HashCode>, m2: map<BuildTarget, HashCode>,
                  below: set<BuildTarget>, u: BuildTarget)
    requires g.Valid() && u in m1 && u in m2 && u in below
    requires FoldEquation(g, base1, digest, m1) && FoldEquation(g, base2, digest, m2)
    requires AlikeOn(g, base1, base2, below)
    requires DepsHashedAlike(g, m1, m2, u)
    ensures m1[u] == m2[u]
  {
    var n := g.nodes[u];
    assert DigestInput(base1, m1, n, true).Success? && DigestInput(base2, m2, n, true).Success?;
    assert SamePlainHash(base1, base2, u) && forall x :: x in TestsOf(n) ==> SamePlainHash(base1, base2, x);
    DigestInputSame(base1, base2, m1, m2, n);
  }

  /**
   * The digest has no collision between what the two runs feed the hasher
   * of one target: equal digests of those two inputs mean equal inputs.
   */
  ghost predicate DigestSeparates(g: TargetGraph, base1: map<BuildTarget, HashCode>, base2: map<BuildTarget, HashCode>,
                                  digest: seq<bv8> -> HashCode, m1: map<BuildTarget, HashCode>,
                                  m2: map<BuildTarget, HashCode>)
  {
    forall u :: u in m1 && u in m2 && u in g.nodes
      && DigestInput(base1, m1, g.nodes[u], true).Success? && DigestInput(base2, m2, g.nodes[u], true).Success?
      && digest(DigestInput(base1, m1, g.nodes[u], true).value) == digest(DigestInput(base2, m2, g.nodes[u], true).value)
      ==> DigestInput(base1, m1, g.nodes[u], true).value == DigestInput(base2, m2, g.nodes[u], true).value
  }

  /** Every hash held in `hashes` is `width` bytes long. */
  ghost predicate HashWidth(hashes: map<BuildTarget, HashCode>, width: nat) {
    forall x :: x in hashes ==> |hashes[x]| == width
  }

  /**
   * The hypotheses of the converse of locality: the digest separates the two
   * runs' hasher inputs, and all plain and re-hashed values have one width.
   */
  ghost predicate Distinguishing(g: TargetGraph, base1: map<BuildTarget, HashCode>, base2: map<BuildTarget, HashCode>,
                                 digest: seq<bv8> -> HashCode, m1: map<BuildTarget, HashCode>,
                                 m2: map<BuildTarget, HashCode>, width: nat)
  {
    && DigestSeparates(g, base1, base2, digest, m1, m2)
    && HashWidth(base1, width) && HashWidth(base2, width) && HashWidth(m1, width) && HashWidth(m2, width)
  }

  lemma {:induction false} ConcatLength(hashes: map<BuildTarget, HashCode>, ts: seq<BuildTarget>, width: nat)
    requires forall t :: t in ts ==> t in hashes && |hashes[t]| == width
    ensures |Concat(hashes, ts)| == width * |ts|
  {
    if ts != [] {
      var init := ts[..|ts| - 1];
      ConcatLength(hashes, init, width);
      assert |Concat(hashes, ts)| == width * |init| + width;
      assert width * |init| + width == width * |ts| by { assert |ts| == |init| + 1; }
    }
  }

  /** Concatenations of equal-width hashes are equal only when the hashes are. */
  lemma {:induction false} ConcatDetermines(m1: map<BuildTarget, HashCode>, m2: map<BuildTarget, HashCode>,
                                            ts: seq<BuildTarget>, width: nat)
    requires forall t :: t in ts ==> t in m1 && t in m2 && |m1[t]| == width && |m2[t]| == width
    requires Concat(m1, ts) == Concat(m2, ts)
    ensures forall t :: t in ts ==> m1[t] == m2[t]
  {
    if ts != [] {
      var init, last := ts[..|ts| - 1], ts[|ts| - 1];
      ConcatLength(m1, init, width);
      ConcatLength(m2, init, width);
      var c := Concat(m1, ts);
      assert Concat(m1, init) == c[..width * |init|] == Concat(m2, init);
      assert m1[last] == c[width * |init|..] == m2[last];
      ConcatDetermines(m1, m2, init, width);
      forall t | t in ts ensures m1[t] == m2[t] {
        if t != last {
          var j :| 0 <= j < |ts| && ts[j] == t;
          assert t in init by { assert init[j] == t; }
        }
      }
    }
  }

  /**
   * Equal-width hashes that absorb the same bytes agree on the node's own
   * plain hash, its tests' plain hashes and its dependencies' re-hashed values.
   */
  lemma InputDetermines(base1: map<BuildTarget, HashCode>, base2: map<BuildTarget, HashCode>,
                        m1: map<BuildTarget, HashCode>, m2: map<BuildTarget, HashCode>, n: Node, width: nat)
    requires DigestInput(base1, m1, n, true).Success? && DigestInput(base2, m2, n, true).Success?
    requires DigestInput(base1, m1, n, true).value == DigestInput(base2, m2, n, true).value
    requires forall x :: x in base1 ==> |base1[x]| == width
    requires forall x :: x in base2 ==> |base2[x]| == width
    requires forall d :: d in n.parseDeps ==> |m1[d]| == width && |m2[d]| == width
    ensures base1[n.target] == base2[n.target]
    ensures forall x :: x in TestsOf(n) ==> base1[x] == base2[x]
    ensures forall d :: d in n.parseDeps ==> m1[d] == m2[d]
  {
    var i := DigestInput(base1, m1, n, true).value;
    var c1, c2 := Concat(m1, n.parseDeps), Concat(m2, n.parseDeps);
    ConcatLength(m1, n.parseDeps, width);
    ConcatLength(m2, n.parseDeps, width);
    var k := width + width * |n.parseDeps|;
    assert i == base1[n.target] + c1 + Concat(base1, TestsOf(n)) == base2[n.target] + c2 + Concat(base2, TestsOf(n));
    assert base1[n.target] == i[..width] == base2[n.target];
    assert c1 == i[width..k] == c2;
    assert Concat(base1, TestsOf(n)) == i[k..] == Concat(base2, TestsOf(n));
    ConcatDetermines(m1, m2, n.parseDeps, width);
    ConcatDetermines(base1, base2, TestsOf(n), width);
  }

  /**
   * When the digest separates the two runs' inputs and all hashes have one
   * width, a difference in the plain
   * hash of the last node of a dependency chain, or of one of its tests,
   * shows in the re-hashed value of the chain's first node.
   */
  lemma {:induction false} ChangePropagates(g: TargetGraph, base1: map<BuildTarget, HashCode>,
                                            base2: map<BuildTarget, HashCode>, digest: seq<bv8> -> HashCode,
                                            m1: map<BuildTarget, HashCode>, m2: map<BuildTarget, HashCode>,
                                            c: seq<BuildTarget>, width: nat)
    requires g.Valid() && Distinguishing(g, base1, base2, digest, m1, m2, width)
    requires FoldEquation(g, base1, digest, m1) && FoldEquation(g, base2, digest, m2)
    requires IsDepChain(g, c) && |c| > 0 && c[0] in m1 && c[0] in m2
    requires !(SamePlainHash(base1, base2, c[|c| - 1])
               && forall x :: x in TestsOf(g.nodes[c[|c| - 1]]) ==> SamePlainHash(base1, base2, x))
    ensures m1[c[0]] != m2[c[0]]
    decreases |c|
  {
    var n := g.nodes[c[0]];
    assert DigestInput(base1, m1, n, true).Success? && DigestInput(base2, m2, n, true).Success?;
    if m1[c[0]] == m2[c[0]] {
      assert digest(DigestInput(base1, m1, n, true).value) == digest(DigestInput(base2, m2, n, true).value);
      InputDetermines(base1, base2, m1, m2, n, width);
      if |c| == 1 {
        assert false;
      } else {
        ChangePropagates(g, base1, base2, digest, m1, m2, c[1..], width);
        assert false;
      }
    }
  }

  /**
   * The converse of `RehashIsLocal`: when the digest separates the two runs'
   * inputs and all hashes have one width, the re-hashed value of `t` changes whenever the plain hash of
   * something `t` depends on, or of a test of one, does.
   */
  lemma RehashSeesChange(g: TargetGraph, base1: map<BuildTarget, HashCode>, base2: map<BuildTarget, HashCode>,
                         digest: seq<bv8> -> HashCode, m1: map<BuildTarget, HashCode>, m2: map<BuildTarget, HashCode>,
                         t: BuildTarget, width: nat)
    requires g.Valid() && Distinguishing(g, base1, base2, digest, m1, m2, width)
    requires FoldEquation(g, base1, digest, m1) && FoldEquation(g, base2, digest, m2)
    requires t in m1 && t in m2 && !SameBelow(g, base1, base2, t)
    ensures m1[t] != m2[t]
  {
    var u :| u in g.nodes && Reaches(g, {t}, u)
             && !(SamePlainHash(base1, base2, u) && forall x :: x in TestsOf(g.nodes[u]) ==> SamePlainHash(base1, base2, x));
    var c :| IsDepChain(g, c) && |c| > 0 && c[0] in {t} && c[|c| - 1] == u;
    ChangePropagates(g, base1, base2, digest, m1, m2, c, width);
  }

  /** The hasher inputs of `x` and `y` in the example graph. */
  lemma ExampleInputs(base: map<BuildTarget, HashCode>, m: map<BuildTarget, HashCode>)
    requires ExampleX in base && ExampleY in base && ExampleT in base && ExampleX in m
    ensures DigestInput(base, m, ExampleGraph().nodes[ExampleX], true) == Success(base[ExampleX] + base[ExampleT])
    ensures DigestInput(base, m, ExampleGraph().nodes[ExampleY], true) == Success(base[ExampleY] + m[ExampleX])
  {
    var x := Node(ExampleX, "java_library", {}, [], Some([ExampleT]));
    var y := Node(ExampleY, "java_library", {}, [ExampleX], None);
    assert ExampleGraph().nodes[ExampleX] == x && ExampleGraph().nodes[ExampleY] == y;
    assert FirstAbsent(m.Keys, [ExampleX]).None?;
    assert FirstAbsent(base.Keys, [ExampleT]).None?;
    assert Concat(base, [ExampleT]) == Concat(base, []) + base[ExampleT];
    assert Concat(m, [ExampleX]) == Concat(m, []) + m[ExampleX];
    assert Concat(base, []) == [] && Concat(m, []) == [];
    assert DigestInput(base, m, x, true).value == base[ExampleX] + [] + base[ExampleT] == base[ExampleX] + base[ExampleT];
    assert DigestInput(base, m, y, true).value == base[ExampleY] + m[ExampleX] + [] == base[ExampleY] + m[ExampleX];
  }

  /** A one-byte digest: the last byte of its input. */
  function LastByte(a: seq<bv8>): (r: HashCode)
    ensures |r| == 1 && (a != [] ==> r[0] == a[|a| - 1])
  {
    if a == [] then [0] else [a[|a| - 1]]
  }

  /** Plain hashes 0, 0 and `b` for `x`, `y` and `t`, and the one-byte re-hashed values they fold to. */
  lemma ExampleFolds(base: map<BuildTarget, HashCode>, m: map<BuildTarget, HashCode>, b: bv8)
    requires base == map[ExampleX := [0], ExampleY := [0], ExampleT := [b]]
    requires m == map[ExampleX := [b], ExampleY := [b]]
    ensures FoldEquation(ExampleGraph(), base, LastByte, m) && HashWidth(base, 1) && HashWidth(m, 1)
    ensures DigestInput(base, m, ExampleGraph().nodes[ExampleX], true) == Success([0, b])
    ensures DigestInput(base, m, ExampleGraph().nodes[ExampleY], true) == Success([0, b])
  {
    ExampleInputs(base, m);
    assert base[ExampleX] + base[ExampleT] == [0, b] && base[ExampleY] + m[ExampleX] == [0, b];
    assert LastByte([0, b]) == [b];
    forall u | u in m ensures u == ExampleX || u == ExampleY { }
  }

  /**
   * The hypotheses of `RehashSeesChange` can be met: in the example graph,
   * two runs that differ only in the plain hash of the test `t` satisfy the
   * fold equation with the one-byte digest `LastByte`, which separates their
   * inputs, and the re-hashed `y` differs, through `x`, which declares `t`.
   */
  lemma ExampleTestChangeReachesDependent(base1: map<BuildTarget, HashCode>, base2: map<BuildTarget, HashCode>,
                                          m1: map<BuildTarget, HashCode>, m2: map<BuildTarget, HashCode>)
    requires base1 == map[ExampleX := [0], ExampleY := [0], ExampleT := [1]]
    requires base2 == map[ExampleX := [0], ExampleY := [0], ExampleT := [2]]
    requires m1 == map[ExampleX := [1], ExampleY := [1]] && m2 == map[ExampleX := [2], ExampleY := [2]]
    ensures FoldEquation(ExampleGraph(), base1, LastByte, m1) && FoldEquation(ExampleGraph(), base2, LastByte, m2)
    ensures Distinguishing(ExampleGraph(), base1, base2, LastByte, m1, m2, 1)
    ensures !SameBelow(ExampleGraph(), base1, base2, ExampleY)
    ensures m1[ExampleY] != m2[ExampleY]
  {
    var g := ExampleGraph();
    ExampleFolds(base1, m1, 1);
    ExampleFolds(base2, m2, 2);
    forall u | u in m1 && u in m2 && u in g.nodes
               && DigestInput(base1, m1, g.nodes[u], true).Success? && DigestInput(base2, m2, g.nodes[u], true).Success?
      ensures LastByte(DigestInput(base1, m1, g.nodes[u], true).value) != LastByte(DigestInput(base2, m2, g.nodes[u], true).value)
    {
      assert u == ExampleX || u == ExampleY;
      assert LastByte([0, 1]) == [1] && LastByte([0, 2]) == [2];
    }
    assert IsDepChain(g, [ExampleY, ExampleX]);
    assert Reaches(g, {ExampleY}, ExampleX);
    assert ExampleT in TestsOf(g.nodes[ExampleX]) && !SamePlainHash(base1, base2, ExampleT);
  }

  /**
   * In the example graph `y` depends on `x`, which declares the test `t`:
   * the re-hashed `y` covers `t` through the re-hashed `x`, while `t`'s
   * plain hash enters only `x`'s digest.
   */
  lemma ExampleTestReachesDependent(base: map<BuildTarget, HashCode>, digest: seq<bv8> -> HashCode,
                                    m: map<BuildTarget, HashCode>)
    requires FoldEquation(ExampleGraph(), base, digest, m) && ExampleY in m
    ensures ExampleX in m && ExampleX in base && ExampleY in base && ExampleT in base
    ensures m[ExampleX] == digest(base[ExampleX] + base[ExampleT])
    ensures m[ExampleY] == digest(base[ExampleY] + digest(base[ExampleX] + base[ExampleT]))
  {
    var g := ExampleGraph();
    var x := Node(ExampleX, "java_library", {}, [], Some([ExampleT]));
    var y := Node(ExampleY, "java_library", {}, [ExampleX], None);
    assert g.nodes[ExampleX] == x && g.nodes[ExampleY] == y;
    var iy := DigestInput(base, m, y, true);
    assert iy.Success? && m[ExampleY] == digest(iy.value);
    assert FirstAbsent(m.Keys, [ExampleX]).None?;
    assert ExampleX in m;
    var ix := DigestInput(base, m, x, true);
    assert ix.Success? && m[ExampleX] == digest(ix.value);
    assert FirstAbsent(base.Keys, [ExampleT]).None?;
    assert Concat(base, [ExampleT]) == Concat(base, []) + base[ExampleT];
    assert ix.value == base[ExampleX] + base[ExampleT];
    assert Concat(m, [ExampleX]) == Concat(m, []) + m[ExampleX];
    assert iy.value == base[ExampleY] + m[ExampleX];
  }
}
