/**
 * Where a rule's output is shown to the user: with the buck-out compat
 * link on, an output under the configured buck-out directory is shown under
 * the default buck-out directory instead.
 */
module OutputPaths {
  import opened Wrappers
  import opened Paths
  import opened Graph

  /**
   * The output path relative to the project root after the compat-link
   * rewrite. Java's `subpath(n, n)` rejects an empty range, so an output
   * path equal to the configured buck-out is an error.
   */
  function CompatRewrite(output: Path, buckOutCompatLink: bool, configuredBuckOut: Path, buckOut: Path)
    : (r: Result<Path, TargetsError>)
    ensures buckOutCompatLink && StartsWith(output, configuredBuckOut) && |output| > |configuredBuckOut| ==>
              && r.Success? && StartsWith(r.value, buckOut)
              && r.value[|buckOut|..] == output[|configuredBuckOut|..]
    ensures buckOutCompatLink && output == configuredBuckOut ==> r == Failure(EmptySubpath)
    ensures !buckOutCompatLink || !StartsWith(output, configuredBuckOut) ==> r == Success(output)
  {
    if buckOutCompatLink && StartsWith(output, configuredBuckOut) then
      if |configuredBuckOut| < |output| then
        Success(Resolve(buckOut, Subpath(output, |configuredBuckOut|, |output|)))
      else Failure(EmptySubpath)
    else Success(output)
  }

  /**
   * The absolute path shown for a rule whose output, relative to the
   * project root, is `outputPath` (None when the rule has no output).
   */
  function GetUserFacingOutputPath(outputPath: Option<Path>, buckOutCompatLink: bool,
                                   configuredBuckOut: Path, buckOut: Path, projectRoot: Path)
    : (r: Result<Option<Path>, TargetsError>)
    ensures outputPath.None? ==> r == Success(None)
    ensures outputPath.Some? ==>
              match CompatRewrite(outputPath.value, buckOutCompatLink, configuredBuckOut, buckOut)
              case Failure(e) => r == Failure(e)
              case Success(p) => r.Success? && r.value.Some? && StartsWith(r.value.value, projectRoot)
                                 && r.value.value[|projectRoot|..] == p
  {
    match outputPath
    case None => Success(None)
    case Some(p) =>
      match CompatRewrite(p, buckOutCompatLink, configuredBuckOut, buckOut)
      case Failure(e) => Failure(e)
      case Success(q) => Success(Some(Resolve(projectRoot, q)))
  }

  /** When buck-out is not reconfigured the rewrite changes nothing it accepts. */
  lemma RewriteWithoutReconfigurationIsIdentity(output: Path, buckOutCompatLink: bool, buckOut: Path)
    requires output != buckOut || !buckOutCompatLink
    ensures CompatRewrite(output, buckOutCompatLink, buckOut, buckOut) == Success(output)
  {
    var r := CompatRewrite(output, buckOutCompatLink, buckOut, buckOut);
    if buckOutCompatLink && StartsWith(output, buckOut) {
      assert output[..|buckOut|] == buckOut;
      assert |output| > |buckOut|;
      assert output == buckOut + output[|buckOut|..];
    }
  }

  /** Rewriting twice is rewriting once when the directories do not overlap. */
  lemma RewriteIsIdempotent(output: Path, configuredBuckOut: Path, buckOut: Path)
    requires !StartsWith(buckOut, configuredBuckOut) && !StartsWith(configuredBuckOut, buckOut)
    requires CompatRewrite(output, true, configuredBuckOut, buckOut).Success?
    ensures CompatRewrite(CompatRewrite(output, true, configuredBuckOut, buckOut).value, true, configuredBuckOut, buckOut)
            == CompatRewrite(output, true, configuredBuckOut, buckOut)
  {
    var q := CompatRewrite(output, true, configuredBuckOut, buckOut).value;
    if StartsWith(output, configuredBuckOut) {
      assert StartsWith(q, buckOut);
      if StartsWith(q, configuredBuckOut) {
        PrefixesOfOnePath(q, buckOut, configuredBuckOut);
      }
    }
  }

  /** Two prefixes of one path are prefixes of each other. */
  lemma PrefixesOfOnePath(p: Path, a: Path, b: Path)
    requires StartsWith(p, a) && StartsWith(p, b)
    ensures StartsWith(a, b) || StartsWith(b, a)
  {
    if |a| <= |b| {
      assert a == p[..|a|] == b[..|a|];
    } else {
      assert b == p[..|b|] == a[..|b|];
    }
  }
}

/**
 * The output formats chosen by the command's flags, and which printer the
 * command dispatches to for a given set of flags.
 */
module OutputFormats {

  /** The flags of the command that select what is printed and how. */
  datatype TargetsOptions = TargetsOptions(
    json: bool,
    outputAttributes: set<string>,
    dot: bool,
    showRuleKey: bool,
    showTransitiveRuleKeys: bool,
    showCellPath: bool,
    showOutput: bool,
    showFullOutput: bool,
    showTargetHash: bool,
    print0: bool)

  /** JSON when asked for, and also whenever attributes are to be printed. */
  predicate ShouldUseJsonFormat(o: TargetsOptions) {
    o.json || o.outputAttributes != {}
  }

  /** DOT only together with both rule-key flags. */
  predicate ShouldUseDotFormat(o: TargetsOptions) {
    o.dot && o.showRuleKey && o.showTransitiveRuleKeys
  }

  /** The printers the command can end in. */
  datatype Printer =
    | NameLines            // one fully qualified name per line
    | NullDelimitedNames   // names separated by NUL characters
    | JsonForTargets       // JSON for the matching nodes, without computed details
    | DotGraph             // the action graph in DOT format
    | ShowRulesLines       // one line per target with the requested details
    | JsonForShowRules     // JSON for the targets with the requested details

  /** Some per-target detail (cell path, output, rule key, target hash) is asked for. */
  predicate ShowsAnyDetail(o: TargetsOptions) {
    o.showCellPath || o.showOutput || o.showFullOutput || o.showRuleKey || o.showTargetHash
  }

  /**
   * The printer the command runs: without any detail flag the plain
   * listing (JSON, NUL-delimited or one name per line); otherwise DOT when
   * its flags are all given, and then JSON or one line per target.
   */
  function ChosenPrinter(o: TargetsOptions): (p: Printer) {
    if !ShowsAnyDetail(o) then
      if ShouldUseJsonFormat(o) then JsonForTargets
      else if o.print0 then NullDelimitedNames
      else NameLines
    else if ShouldUseDotFormat(o) then DotGraph
    else if ShouldUseJsonFormat(o) then JsonForShowRules
    else ShowRulesLines
  }

  /**
   * The plain-listing shortcut that is taken first never hides the DOT
   * format: the DOT printer runs exactly when its three flags are given.
   */
  lemma DotPrinterExactlyWhenDotFormat(o: TargetsOptions)
    ensures ChosenPrinter(o) == DotGraph <==> ShouldUseDotFormat(o)
  {
  }

  /** A JSON printer runs exactly when JSON is asked for and DOT is not chosen. */
  lemma JsonPrinterExactlyWhenJsonFormat(o: TargetsOptions)
    ensures (ChosenPrinter(o).JsonForTargets? || ChosenPrinter(o).JsonForShowRules?)
            <==> ShouldUseJsonFormat(o) && !ShouldUseDotFormat(o)
  {
  }

  /** Details are computed exactly when some detail flag is given. */
  lemma DetailsExactlyWhenAsked(o: TargetsOptions)
    ensures ChosenPrinter(o) in {DotGraph, ShowRulesLines, JsonForShowRules} <==> ShowsAnyDetail(o)
  {
  }

  /** The NUL-delimiting flag only affects the plain, non-JSON listing. */
  lemma Print0OnlyAffectsPlainNames(o: TargetsOptions)
    ensures ChosenPrinter(o) != ChosenPrinter(o.(print0 := !o.print0)) <==>
              !ShowsAnyDetail(o) && !ShouldUseJsonFormat(o)
  {
  }
}
