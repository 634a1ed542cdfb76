/**
 * Per-target result builders that the output handlers fill in: one
 * mutable builder per target, created the first time it is asked for.
 */
module TargetResults {
  import opened Wrappers
  import opened Graph

  /** The fields printed for one target, each absent until a handler sets it. */
  class TargetResultBuilder {
    var outputPath: Option<string>
    var generatedSourcePath: Option<string>
    var ruleKey: Option<string>
    var targetHash: Option<string>
    var ruleType: Option<string>

    constructor ()
      ensures outputPath == None && generatedSourcePath == None && ruleKey == None
      ensures targetHash == None && ruleType == None
    {
      outputPath, generatedSourcePath, ruleKey, targetHash, ruleType := None, None, None, None, None;
    }

    method SetTargetHash(hash: string)
      modifies this
      ensures targetHash == Some(hash)
      ensures outputPath == old(outputPath) && generatedSourcePath == old(generatedSourcePath)
      ensures ruleKey == old(ruleKey) && ruleType == old(ruleType)
    {
      targetHash := Some(hash);
    }
  }

  class TargetResultBuilders {
    var builders: map<BuildTarget, TargetResultBuilder>

    constructor ()
      ensures builders == map[]
    {
      builders := map[];
    }

    /**
     * The builder for `target`: the one already held, or a new empty one
     * that is held from now on.
     */
    method GetOrCreate(target: BuildTarget) returns (b: TargetResultBuilder)
      modifies this
      ensures target in old(builders) ==> b == old(builders[target]) && builders == old(builders)
      ensures target !in old(builders) ==>
                && fresh(b) && builders == old(builders)[target := b]
                && b.outputPath == None && b.generatedSourcePath == None
                && b.ruleKey == None && b.targetHash == None && b.ruleType == None
      ensures target in builders && builders[target] == b
    {
      if target in builders {
        b := builders[target];
      } else {
        b := new TargetResultBuilder();
        builders := builders[target := b];
      }
    }
  }

  /**
   * Two handlers asking for the same target share one builder, so what
   * the first sets is seen by the second.
   */
  method SharedBuilderKeepsEarlierFields(rb: TargetResultBuilders, target: BuildTarget, hash: string)
    returns (seen: Option<string>)
    modifies rb, set t | t in rb.builders.Values
    ensures seen == Some(hash)
  {
    var first := rb.GetOrCreate(target);
    first.SetTargetHash(hash);
    var second := rb.GetOrCreate(target);
    seen := second.targetHash;
  }
}
