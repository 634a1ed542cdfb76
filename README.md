# Target selection and test-aware target hashing of `buck targets`

A Dafny model of the algorithmic core of Buck's `targets` command
(`TargetsCommand.java`). Five parts are modelled over an abstract target
graph, a map from build targets to nodes. A node carries a target, a rule
type, input paths, parse dependencies and an optional list of tests.

- **Direct owners** (`DirectOwners`). A node owns a referenced file when two
  things hold. First, its package is the nearest enclosing package of some
  referenced file. Second, one of its inputs is a segment-wise prefix of a
  referenced path, or its own build file is referenced.
- **Dependent closure** (`DependentClosure`). A breadth-first traversal over
  incoming edges. With test detection on, it also follows an extra edge from
  each declared test to the node that declares it. A declared test missing
  from the graph is an error.
- **Matching nodes** (`MatchingNodes`). The seeds are the direct owners, or
  every node when no files are referenced. The query takes their dependent
  closure and applies the optional target and rule-type allow-lists. The
  result is keyed by fully qualified name.
- **Test-aware rehash** (`Traversal`, `TargetHashes`). A depth-first
  post-order over parse dependencies that reports a cycle instead of
  looping. Then each node is re-hashed from three things, in order:
  - its own plain hash;
  - the re-hashed values of its parse dependencies;
  - the plain hashes of its tests.
- **Helpers**:
  - the merged target list handed to the parser (`MergedTargets`);
  - the user-facing output path with the buck-out compat link
    (`OutputPaths`);
  - the JSON/DOT format choice and the printer the flags select
    (`OutputFormats`);
  - the per-target result builders (`TargetResults`).

Representation choices:

- Paths are sequences of name segments. `startsWith` is the sequence-prefix
  test, and `resolve` is concatenation.
- The digest (SHA-1 in the program) is a parameter function from the bytes a
  hasher absorbs to a hash code.
- The plain target hashes are a given map.
- The build-file tree's `getBasePathOfAncestorTarget` is a parameter function
  from a path to an optional base path. The program builds that tree from
  the graph's own targets (lines 696-702); the model's `GetMatchingNodes`
  accepts any such function, so what is proved about it holds for every
  tree, that one included.
- Every error the program throws is a `Failure` value of `TargetsError`:
  - a dangling test;
  - a duplicate name in the sorted result map;
  - a target missing from the graph;
  - a dependency cycle, carrying the cycle;
  - a missing hash;
  - the empty `subpath` that Java refuses.

## Model

| member | source | states |
|---|---|---|
| `DirectOwners.AncestorBasePaths` | src/com/facebook/buck/cli/TargetsCommand.java:1221-1225 | a base path is collected exactly when some referenced file has it as its nearest package |
| `DirectOwners.DirectOwnerPredicate.constructor` | src/com/facebook/buck/cli/TargetsCommand.java:1217-1227 | keeps the referenced inputs and build file name; the loop collects exactly the ancestor base paths of the referenced inputs |
| `DirectOwners.DirectOwnerPredicate.Test` | src/com/facebook/buck/cli/TargetsCommand.java:1229-1246 | outside the ancestor base paths a node never owns; inside them it owns if one of its inputs is a segment prefix of a referenced path, and otherwise exactly when `basePath/buildFileName` is referenced |
| `DirectOwners.NearestPackageOnlyOwns` | src/com/facebook/buck/cli/TargetsCommand.java:1231-1235 | with packages `//a` and `//a/b`, a reference to a/b/g.txt selects `//a/b` and not `//a`, although `//a` is an ancestor |
| `DependentClosure.TestEdges` | src/com/facebook/buck/cli/TargetsCommand.java:751-767 | fails exactly when some node declares a test missing from the graph, naming that test and the node; otherwise maps each test to exactly the nodes that declare it |
| `DependentClosure.Traverse` | src/com/facebook/buck/cli/TargetsCommand.java:769-781 | the visited set contains the seeds, is closed under incoming and test edges, and holds only targets reachable from the seeds |
| `DependentClosure.GetDependentNodes` | src/com/facebook/buck/cli/TargetsCommand.java:746-782 | fails exactly when test detection is on and a declared test is missing; otherwise returns the dependent closure, which equals the reachability closure of the seeds |
| `DependentClosure.ClosureIsUnique` | src/com/facebook/buck/cli/TargetsCommand.java:738-745 | any set containing the seeds, closed under steps and reachable from the seeds is the closure, so the traversal order cannot change the result |
| `DependentClosure.WalkStaysInClosedSet` | src/com/facebook/buck/cli/TargetsCommand.java:773-777 | a walk that starts in a set closed under traversal steps stays inside it |
| `DependentClosure.ExampleIncoming` | src/com/facebook/buck/cli/TargetsCommand.java:775 | in the example graph (`y` depends on `x`, `z` on `y`, `x` declares test `t`) each node's incoming nodes are its direct dependents |
| `DependentClosure.ExampleClosureOfLibrary` | src/com/facebook/buck/cli/TargetsCommand.java:746-782 | from seed `x` the closure is `{x, y, z}`, whether or not tests are detected |
| `DependentClosure.ExampleTestsEdge` | src/com/facebook/buck/cli/TargetsCommand.java:752-761 | the only test edge of the example runs from `t` to `x` |
| `DependentClosure.ExampleClosureOfTestDetected` | src/com/facebook/buck/cli/TargetsCommand.java:751-777 | from seed `t` with tests detected the closure is `{t, x, y, z}` |
| `DependentClosure.ExampleClosureOfTestUndetected` | src/com/facebook/buck/cli/TargetsCommand.java:746-782 | from seed `t` without test detection the closure is `{t}` |
| `MatchingNodes.FilterDirectOwners` | src/com/facebook/buck/cli/TargetsCommand.java:703-708 | returns exactly the graph's nodes that the predicate accepts |
| `MatchingNodes.PassesFilters` | src/com/facebook/buck/cli/TargetsCommand.java:714-729 | a node passes when it is on the target allow-list and its rule type on the rule-type allow-list, each list only when present |
| `MatchingNodes.AbsentFiltersKeepAll` | src/com/facebook/buck/cli/TargetsCommand.java:714-729 | with neither allow-list present every node of the closure is kept |
| `MatchingNodes.FiltersAreIndependent` | src/com/facebook/buck/cli/TargetsCommand.java:714-729 | the target allow-list removes exactly the unlisted targets, and applying both lists keeps what each keeps on its own |
| `MatchingNodes.ComputeSeeds` | src/com/facebook/buck/cli/TargetsCommand.java:694-711 | the seeds are the direct owners when files are referenced and every node otherwise, always within the graph |
| `MatchingNodes.ClosureOfEveryNode` | src/com/facebook/buck/cli/TargetsCommand.java:709-713 | with every node as a seed the closure is the whole graph |
| `MatchingNodes.KeyByName` | src/com/facebook/buck/cli/TargetsCommand.java:714-735 | fails exactly when two selected targets share a fully qualified name, naming it; otherwise holds exactly the filtered nodes, each under its own name |
| `MatchingNodes.GetMatchingNodes` | src/com/facebook/buck/cli/TargetsCommand.java:687-736 | either the dangling-test error, or the duplicate-name error of the sorted map, or the nodes of the seeds' closure that pass both optional allow-lists, keyed by name; with no referenced files, every node in the allow-lists is in the result |
| `MatchingNodes.MatchingNodesForReferencedFiles` | src/com/facebook/buck/cli/TargetsCommand.java:556-584 | nothing matches when all referenced files lie outside the project root; otherwise the query runs with empty lists meaning no filter |
| `Traversal.Visit` | src/com/facebook/buck/cli/TargetsCommand.java:1161-1163 | visiting a target either reports a genuine cycle or a target missing from the graph, or extends the done list with the target in dependency-first order, without repeats and only with what it depends on |
| `Traversal.Explore` | src/com/facebook/buck/cli/TargetsCommand.java:1161-1163 | exploring a new node looks its parse dependencies up in the graph, visits them, and emits the node after them |
| `Traversal.VisitDeps` | src/com/facebook/buck/cli/TargetsCommand.java:1161-1163 | visiting the parse dependencies of the top of the stack in order leaves them all emitted, in dependency-first order |
| `Traversal.VisitAll` | src/com/facebook/buck/cli/TargetsCommand.java:1166-1167 | every root ends up in the order, and each emitted target is a root or a dependency of a later one |
| `Traversal.PostOrder` | src/com/facebook/buck/cli/TargetsCommand.java:1161-1167 | every input is listed once; each target comes after all its parse dependencies; nothing else is listed; an error is either a cycle through a node the inputs reach, or a missing target that is an input or a parse dependency of a node the inputs reach |
| `Traversal.FirstIndex` | src/com/facebook/buck/cli/TargetsCommand.java:1161-1163 | the first position of an element: it occurs there and nowhere before |
| `Graph.FirstAbsent` | src/com/facebook/buck/cli/TargetsCommand.java:1161-1163 | the first element of a list missing from a given set (the parse dependency absent from the graph, the target without a hash); none exactly when every element is present |
| `Traversal.NoCycleThroughOrder` | src/com/facebook/buck/cli/TargetsCommand.java:1161-1167 | no dependency cycle passes through a target of a dependency-first order |
| `Traversal.CycleThroughRootFails` | src/com/facebook/buck/cli/TargetsCommand.java:1161-1167 | the traversal fails whenever one of its roots lies on a cycle |
| `Traversal.MutualDependencyIsCycle` | src/com/facebook/buck/cli/TargetsCommand.java:1161-1167 | from `A` in the graph A -> B -> A the traversal reports a cycle |
| `Traversal.UnreachableCycleIsNoError` | src/com/facebook/buck/cli/TargetsCommand.java:1161-1167 | a cycle the inputs do not reach is no error: from a leaf beside the cycle the traversal succeeds with the leaf alone, and the cycle is not reportable from it |
| `TargetHashes.GetHashCodeOrThrow` | src/com/facebook/buck/cli/TargetsCommand.java:1200-1204 | the value, or `MissingHash(t)` exactly when `t` is absent |
| `TargetHashes.AbsorbHashes` | src/com/facebook/buck/cli/TargetsCommand.java:1185-1196 | appends the hashes of the targets in order, or fails at the first target without one |
| `Graph.FirstAbsentIsFirst` | src/com/facebook/buck/cli/TargetsCommand.java:1185-1196 | a loop that stops at the first position missing from the set stops at the element `FirstAbsent` names |
| `TargetHashes.DigestInput` | src/com/facebook/buck/cli/TargetsCommand.java:1178-1196 | the hasher input exists exactly when the node's own plain hash, its dependencies' re-hashed values and (with detection) its tests' plain hashes all exist; it starts with the own hash; a failure names a target missing from the map it was looked up in |
| `TargetHashes.PlainMissing` | src/com/facebook/buck/cli/TargetsCommand.java:1178-1194 | the first plain hash a node needs and lacks, its own before its tests'; none exactly when all are present |
| `TargetHashes.HashNodeWithDependencies` | src/com/facebook/buck/cli/TargetsCommand.java:1174-1198 | stores under the node the digest of its own plain hash, its parse dependencies' re-hashed values in order, and, with tests detected, its tests' plain hashes; the first missing entry is the error |
| `TargetHashes.RehashWithTestsIfNeeded` | src/com/facebook/buck/cli/TargetsCommand.java:1151-1172 | without test detection returns the plain hashes unchanged; with it, passes on a traversal error, and otherwise succeeds exactly when every plain hash needed exists, giving each target of the post-order the value of the fold equation; a failure names the first missing plain hash (own, then tests) of the first target in the post-order that lacks one |
| `TargetHashes.FailureMeansUnhashed` | src/com/facebook/buck/cli/TargetsCommand.java:1178-1196 | in post-order the lookup of a dependency's re-hashed value never fails; only a plain hash can be missing |
| `TargetHashes.FoldStep` | src/com/facebook/buck/cli/TargetsCommand.java:1167-1169 | hashing the next target of the order keeps the fold equation for all targets hashed so far |
| `TargetHashes.DigestInputAgrees` | src/com/facebook/buck/cli/TargetsCommand.java:1184-1188 | maps that agree on a node's parse dependencies give that node the same hasher input |
| `TargetHashes.ConcatAgrees` | src/com/facebook/buck/cli/TargetsCommand.java:1184-1188 | maps that agree on some targets give the same concatenated hashes for them |
| `TargetHashes.FoldedHashesUnique` | src/com/facebook/buck/cli/TargetsCommand.java:1166-1171 | the fold equation has one solution over the targets of a dependency-first order |
| `TargetHashes.AnchoredWithin` | src/com/facebook/buck/cli/TargetsCommand.java:1161-1167 | everything a traversal from some roots emits lies in any dependency-first order containing those roots |
| `TargetHashes.RehashIgnoresInputOrder` | src/com/facebook/buck/cli/TargetsCommand.java:1157-1171 | re-hashing from the same input targets, in any order or with repeats, yields the same hashes |
| `TargetHashes.AgreeBelow` | src/com/facebook/buck/cli/TargetsCommand.java:1166-1169 | along a dependency-first order, when each node of a dependency-closed set is re-hashed alike once its dependencies are, every such node is re-hashed alike |
| `TargetHashes.RehashIsLocal` | src/com/facebook/buck/cli/TargetsCommand.java:1174-1197 | when two runs' plain hashes agree on everything a target reaches through parse dependencies and on those nodes' tests, the target and everything it reaches get the same re-hashed values, whatever the other plain hashes are |
| `TargetHashes.ConcatLength` | src/com/facebook/buck/cli/TargetsCommand.java:1184-1188 | the concatenation of hashes of one width is that width times the number of targets long |
| `TargetHashes.ConcatDetermines` | src/com/facebook/buck/cli/TargetsCommand.java:1184-1188 | equal concatenations of equal-width hashes come from equal hashes |
| `TargetHashes.InputDetermines` | src/com/facebook/buck/cli/TargetsCommand.java:1178-1196 | with equal-width hashes, equal hasher inputs mean equal own plain hashes, equal test plain hashes and equal dependency re-hashed values |
| `TargetHashes.ChangePropagates` | src/com/facebook/buck/cli/TargetsCommand.java:1174-1197 | when the digest has no collision between the two runs' hasher inputs of one target and all plain and re-hashed values have one width, a changed plain hash at the end of a parse-dependency chain, or at one of that node's tests, changes the re-hashed value at the chain's start |
| `TargetHashes.RehashSeesChange` | src/com/facebook/buck/cli/TargetsCommand.java:1174-1197 | the converse of `RehashIsLocal` under the same two hypotheses: a target's re-hashed value changes whenever the plain hash of something it reaches, or of a test of one, changes |
| `TargetHashes.ExampleTestReachesDependent` | src/com/facebook/buck/cli/TargetsCommand.java:1178-1197 | in the example graph the re-hashed `x` is the digest of `x` and `t`, and the re-hashed `y` is the digest of `y` followed by the re-hashed `x` |
| `TargetHashes.ExampleTestChangeReachesDependent` | src/com/facebook/buck/cli/TargetsCommand.java:1174-1197 | the hypotheses of `RehashSeesChange` can be met: in the example graph, runs differing only in the plain hash of the test `t` fold with a one-byte digest that separates their inputs, and the re-hashed `y` differs |
| `MergedTargets.InsertionOrdered` | src/com/facebook/buck/cli/TargetsCommand.java:1087-1094 | an insertion-ordered set keeps each element once, the same elements, in order of first occurrence |
| `MergedTargets.MergeBuildTargets` | src/com/facebook/buck/cli/TargetsCommand.java:1085-1095 | the union of the explicit targets and the nodes' targets, without repeats, ordered by first occurrence with the explicit targets first |
| `MergedTargets.TargetsOfNodes` | src/com/facebook/buck/cli/TargetsCommand.java:1091-1093 | the nodes' targets, position by position |
| `OutputPaths.CompatRewrite` | src/com/facebook/buck/cli/TargetsCommand.java:1029-1043 | with the compat link on and the output under the configured buck-out, that prefix becomes buck-out and the remaining segments are kept in order; an output equal to the configured buck-out is the empty-subpath error; otherwise the path is unchanged |
| `OutputPaths.GetUserFacingOutputPath` | src/com/facebook/buck/cli/TargetsCommand.java:1021-1046 | no output gives none; otherwise the rewritten path resolved under the project root, or the rewrite's error |
| `OutputPaths.RewriteWithoutReconfigurationIsIdentity` | src/com/facebook/buck/cli/TargetsCommand.java:1033-1043 | when buck-out is not reconfigured the rewrite returns the path unchanged, except an output equal to buck-out, which is the empty-subpath error |
| `OutputPaths.RewriteIsIdempotent` | src/com/facebook/buck/cli/TargetsCommand.java:1033-1043 | when neither directory contains the other, rewriting a rewritten path changes nothing |
| `OutputPaths.PrefixesOfOnePath` | src/com/facebook/buck/cli/TargetsCommand.java:1031 | two segment prefixes of one path are prefixes of each other |
| `OutputFormats.ShouldUseJsonFormat` | src/com/facebook/buck/cli/TargetsCommand.java:335-337 | JSON when the JSON flag is given or any output attribute is asked for |
| `OutputFormats.ShouldUseDotFormat` | src/com/facebook/buck/cli/TargetsCommand.java:343-345 | DOT only when the DOT flag comes with both rule-key flags |
| `OutputFormats.ChosenPrinter` | src/com/facebook/buck/cli/TargetsCommand.java:389-441 | with no detail flag: JSON, NUL-delimited or name lines; otherwise DOT when its three flags are given, then JSON or show-rules lines |
| `OutputFormats.DotPrinterExactlyWhenDotFormat` | src/com/facebook/buck/cli/TargetsCommand.java:389-406 | although the plain-listing shortcut is tested first, the DOT printer runs exactly when the DOT format is called for |
| `OutputFormats.JsonPrinterExactlyWhenJsonFormat` | src/com/facebook/buck/cli/TargetsCommand.java:389-441 | a JSON printer (for the plain listing or for the detailed results) runs exactly when JSON is called for and DOT is not |
| `OutputFormats.DetailsExactlyWhenAsked` | src/com/facebook/buck/cli/TargetsCommand.java:389-400 | per-target details are computed exactly when a detail flag (cell path, output, full output, rule key, target hash) is given |
| `OutputFormats.Print0OnlyAffectsPlainNames` | src/com/facebook/buck/cli/TargetsCommand.java:540-553 | toggling the NUL-delimiting flag changes the printer exactly on the plain, non-JSON listing |
| `TargetResults.TargetResultBuilder.constructor` | src/com/facebook/buck/cli/TargetsCommand.java:1261-1273 | a new builder has every field absent |
| `TargetResults.TargetResultBuilder.SetTargetHash` | src/com/facebook/buck/cli/TargetsCommand.java:1144-1147 | sets the target hash and leaves the other fields alone |
| `TargetResults.TargetResultBuilders.constructor` | src/com/facebook/buck/cli/TargetsCommand.java:1254 | the builder map starts empty |
| `TargetResults.TargetResultBuilders.GetOrCreate` | src/com/facebook/buck/cli/TargetsCommand.java:1256-1258 | returns the held builder and changes nothing, or holds and returns a fresh empty builder; afterwards the target maps to the returned builder |
| `TargetResults.SharedBuilderKeepsEarlierFields` | src/com/facebook/buck/cli/TargetsCommand.java:1249-1252 | two handlers asking for one target share its builder, so the second sees what the first set |

## Test edges and test hashes

- **Test edges run from the test to the tested node.** Lines 752-761 put
  the edge `test -> tested` into the extra edges (line 761), and the
  visitor follows the extra edges of the node it visits (lines 775-777).
  A test is therefore treated as a dependency of the node it tests, as the
  comments at lines 682-683 and 741-742 put it: the tested node and its
  dependents lie in the closure of the test, not the other way round. In
  the example graph, where `T` tests `X`,
  the closure of `{X}` under test detection is `{X, Y, Z}`
  (`DependentClosure.ExampleClosureOfLibrary`), and the closure of `{T}` is
  `{T, X, Y, Z}` (`DependentClosure.ExampleClosureOfTestDetected`).
- **Tests contribute plain hashes.** Lines 1191-1194 look a node's tests up
  in `buildTargetHashes`, the plain hashes, not in the re-hashed map. So a
  test need not come before the node it tests in the post-order.

## Left out

- Command-line parsing and the rest of `runWithoutHelp` and
  `runWithExecutor`. This is plumbing. Only the choice of printer from the
  flags is modelled (`OutputFormats.ChosenPrinter`).
- `getDescriptionClassFromParams`. It consults a rule-type registry that is
  not part of this model. Rule types are plain strings here.
- Parsing and building the target graph. This includes the graph with tests
  built from the merged targets, versioned graphs and the action graph.
  These belong to other subsystems.
- `printDotFormat`, `ParallelRuleKeyCalculator`, `DefaultRuleKeyFactory`, the
  transitive rule-key loop and the thread pool. Their code is not part of
  this model, and their point is concurrency.
- SHA-1 and the file hash loaders. The digest is a parameter function and
  the plain target hashes are a given map.
- All printing itself: JSON, DOT, NUL-delimited, plain, the rule-key logger
  and the event bus. These are output and I/O.
- `getReferencedFiles`, which canonicalises paths against the real file
  system. Its two partitions are inputs to
  `MatchingNodes.MatchingNodesForReferencedFiles`.
- The library traversals `AbstractBreadthFirstTraversal` and
  `AcyclicDepthFirstPostOrderTraversal`. They are not part of this model and
  are replaced by the model's own breadth-first and depth-first traversals.
  The exact cycle path in the library's exception message is not modelled.
  The model reports the part of the stack from the repeated target on, and
  proves it is a cycle.
- Incoming edges. `TargetGraph.getIncomingNodesFor` is derived from the
  parse dependencies of the nodes.
- Iteration order over sets. The model picks elements in an unspecified
  order, so when several declared tests are missing, or several names
  collide, the error names one of them without saying which.
- `TargetHashes.RehashWithTestsIfNeeded`: the inputs are targets looked up
  in the graph with tests. In the program the inputs are node objects taken
  from the graph before tests were added.
- `TargetHashes.RehashWithTestsIfNeeded`: SHA-1 is an uninterpreted digest
  function. That a changed plain hash changes the re-hashed values of its
  dependents (`TargetHashes.RehashSeesChange`) is proved only under two
  hypotheses about the two runs compared. First, the digest gives different
  values to the different bytes the two runs feed the hasher of one target.
  Second, every plain and re-hashed value has one width. SHA-1 gives
  20-byte values. That it has no collision on these particular inputs is
  assumed, not proved.
- `TargetHashes.HashNodeWithDependencies`: the map of re-hashed values is
  passed in and returned as a value. The program mutates a `HashMap` owned
  by its caller.
- `OutputPaths.CompatRewrite`: Java paths' special cases are not modelled.
  These are an empty path with one empty name, absolute paths and
  normalisation. The build file name is treated as a single path segment.
- `DirectOwners.IsDirectOwner`: the same point about paths applies.
  `basePath.resolve(buildFileName)` appends one segment.
