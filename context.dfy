// The eval-mode counter (src/context.c).
//
// A process-wide int, incremented by `cten_begin_eval`, decremented by
// `cten_end_eval` without any guard, and read by `cten_is_eval`. The static
// variable becomes the field of a single object.

module Context {

  /** The static `_eval_depth`. */
  class EvalMode {
    var evalDepth: int

    /** The static initialiser: depth 0. */
    constructor ()
      ensures evalDepth == 0
    {
      evalDepth := 0;
    }

    /** `cten_begin_eval`: one level deeper. */
    method BeginEval()
      modifies this
      ensures evalDepth == old(evalDepth) + 1
    {
      evalDepth := evalDepth + 1;
    }

    /** `cten_is_eval`: active while the depth is positive. */
    method IsEval() returns (active: bool)
      ensures active <==> evalDepth > 0
    {
      active := evalDepth > 0;
    }

    /** `cten_end_eval`: one level shallower; nothing stops it going negative. */
    method EndEval()
      modifies this
      ensures evalDepth == old(evalDepth) - 1
    {
      evalDepth := evalDepth - 1;
    }
  }

  /** Nested scopes: from a non-negative depth, eval mode stays active until
      the outermost end, and a matched begin/end pair restores the depth it
      started from. */
  method NestedScopes(ctx: EvalMode) returns (afterInnerEnd: bool, afterOuterEnd: bool)
    modifies ctx
    ensures afterInnerEnd <==> old(ctx.evalDepth) >= 0
    ensures afterOuterEnd <==> old(ctx.evalDepth) > 0
    ensures ctx.evalDepth == old(ctx.evalDepth)
  {
    ctx.BeginEval();
    ctx.BeginEval();
    ctx.EndEval();
    afterInnerEnd := ctx.IsEval();
    ctx.EndEval();
    afterOuterEnd := ctx.IsEval();
  }

  /** An end without a begin drives the depth negative, and eval mode reads
      as inactive. */
  method UnmatchedEnd() returns (depth: int, active: bool)
    ensures depth == -1 && !active
  {
    var ctx := new EvalMode();
    ctx.EndEval();
    depth := ctx.evalDepth;
    active := ctx.IsEval();
  }
}
