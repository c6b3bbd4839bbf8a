# cTensor core, modelled in Dafny

This project models the bookkeeping core of cTensor, a small C library for
reverse-mode automatic differentiation over tensors of rank four or less:

- the scoped pool allocator (`src/pool.c`);
- shape assertions and element-wise broadcasting (`src/utils.c`);
- tensor construction, reference counting, detaching, deletion and
  `Tensor_backward` (`src/basic.c`);
- the operators `Tensor_add`, `Tensor_mul`, `Tensor_mulf`,
  `Tensor_matmul`, `Tensor_mean` and `Tensor_argmax`, and the derivative rules
  `GradFn_add`, `GradFn_mul` and `GradFn_matmul` (`src/operator.c`);
- the eval-mode counter (`src/context.c`);
- the SGD optimiser (`src/optimizer.c`).

The data types are those of `include/cten.h`. A `Tensor` is a value holding a
shape and two pointers. Buffers and gradient nodes live on an explicit heap
(`Memory.Mem`, held by the class `Memory.Heap`). Addresses are handed out once,
in increasing order. A node's inputs therefore always have smaller addresses
than the node, so the graph is acyclic and `Tensor_backward` terminates.

Each C function that changes the heap is a method on `Heap` (`modifies h`). Each
such method is proved against a specification function over the heap's value.
That function yields `None` where the C code aborts on an `assert` or reads
through a NULL or freed pointer. The methods keep the C loops, and the loops
carry their invariants. The properties the library promises are lemmas about
the specification functions.

Element values are `real`. `TensorShape_dim` and `TensorShape_numel` are only
declared in the header. Here they are defined as the number of leading
non-zero entries and the product of those entries.

Behaviour modelled as the code has it:

- `Tensor_backward` reassigns `grad` on every loop iteration. Input `i`
  therefore receives the seed times the local derivatives of inputs `0 .. i`,
  not only of input `i` (`Autodiff.MulBackwardCumulative`).
- The broadcast copy runs four nested loops over all four shape entries. Its
  body runs only when every entry is positive. Otherwise the replacement tensor
  keeps its fresh contents.
- The broadcast replacement gets a new zeroed node, not a link to the
  original's node.
- `Tensor_mean` ignores its `dim` argument.
- `src/basic.c` takes an explicit `numel` and keeps a `refcount`, which the
  header does not declare. `src/basic.c` is modelled as written. The
  two-argument calls in `src/operator.c` and `src/optimizer.c` use the shape's
  element count as `numel`.
- The textbook gradients of a matrix product would be `G @ B^T` and
  `A^T @ G`. `GradFn_matmul(self, i)` returns `matmul(detach(inputs[i]),
  detach(inputs[1 - i]))` instead, and the model follows the code
  (`Operators.GradFnMatmulProduct`).

## Model

| member | source | states |
|---|---|---|
| Shapes.Dim | include/cten.h:32 | the rank is at most 4, every entry before it is non-zero, and the entry at the rank is zero |
| Shapes.NumelOfValidShape | include/cten.h:33 | every shape the library builds has at least one element |
| Shapes.NumelOfRankFour | include/cten.h:33 | with all four axes in use, the element count is the product of all four entries |
| Shapes.UnflatFlat | src/utils.c:67-68 | the row-major offset of in-range indices `i*s1*s2*s3 + j*s2*s3 + k*s3 + l` determines the indices |
| Shapes.UnflatInRange | src/utils.c:67-68 | every offset below the product of the four entries decodes to in-range indices whose row-major offset is that offset |
| Shapes.FlatInBounds | src/utils.c:67-68 | the row-major offset of in-range indices lies inside the buffer |
| Pool.PoolAllocator.constructor | src/pool.c:14-18 | `cten_initilize` starts with an empty stack, an empty registry and an empty swap buffer |
| Pool.PoolAllocator.Finalize | src/pool.c:20-29 | every block still in the registry is released, in registry order, and all three vectors end empty; the swap buffer is empty on entry |
| Pool.PoolAllocator.BeginMalloc | src/pool.c:31-34 | the id is pushed onto the stack; the registry is unchanged |
| Pool.PoolAllocator.EndMalloc | src/pool.c:36-40 | the stack must be non-empty, and exactly its top element is removed |
| Pool.PoolAllocator.Malloc | src/pool.c:57-66 | the stack must be non-empty; exactly one entry is appended, tagged with the top id, and the stack is unchanged |
| Pool.PoolAllocator.Free | src/pool.c:42-55 | the registry becomes the entries with other tags, in order; the blocks tagged `id` are released; the stack is unchanged and the swap buffer ends empty |
| Pool.KeptMembers | src/pool.c:42-55 | after a free, no entry carries the freed tag, and an entry is kept iff it was present with another tag |
| Pool.KeptAppend | src/pool.c:42-55 | compaction distributes over concatenation, so kept entries keep their relative order |
| Pool.KeptUntouched | src/pool.c:42-55 | a registry with no entry of the tag is left exactly as it is |
| Pool.KeptIdempotent | src/pool.c:42-55 | freeing the same id twice in a row changes nothing the second time: the registry stays as it is and no block is released |
| Pool.KeptFreedPartition | src/pool.c:42-55 | every registered block is either kept or released, never lost and never duplicated |
| Pool.NestedScopes | src/pool.c:31-66 | after scopes p, q, p with one allocation each, one `cten_free(p)` releases both p blocks and keeps the q block, even though the stack was not consulted |
| Context.EvalMode.constructor | src/context.c:4 | the depth starts at 0 |
| Context.EvalMode.BeginEval | src/context.c:6 | the depth grows by exactly 1 |
| Context.EvalMode.IsEval | src/context.c:8 | eval mode is active iff the depth is positive |
| Context.EvalMode.EndEval | src/context.c:10 | the depth shrinks by exactly 1, with no lower bound |
| Context.NestedScopes | src/context.c:6-10 | with nested scopes eval mode stays active until the outermost end, and a matched begin/end restores the depth |
| Context.UnmatchedEnd | src/context.c:8-10 | an end without a begin makes the depth -1, and eval mode is then inactive |
| Basic.NewResult | src/basic.c:8-21 | a new buffer of `numel` values with refcount 1 and the given shape; a node iff `requires_grad`, and that node is zeroed (no gradient, no rule, no inputs); nothing else changes |
| Basic.FilledResult | src/basic.c:23-35 | as `Tensor_new`, with all `numel` values equal to the fill value |
| Basic.DetachResult | src/basic.c:45-50 | defined iff the buffer is live; the result has the same shape, no node, and the heap invariant holds afterwards |
| Basic.DeleteResult | src/basic.c:37-43 | deletion keeps the heap invariant and allocates nothing |
| Basic.TensorNew | src/basic.c:8-21 | the method's new heap and tensor are those of `NewResult` |
| Basic.TensorZeros | src/basic.c:23-27 | the method's result is `FilledResult` with 0 |
| Basic.TensorOnes | src/basic.c:29-35 | the fill loop's result is `FilledResult` with 1 |
| Basic.Fill | src/basic.c:31-33 | after the loop, all `numel` values of the buffer equal the fill value, and nothing else changes |
| Basic.TensorDetach | src/basic.c:45-50 | the method's new heap and tensor are those of `DetachResult` |
| Basic.TensorDelete | src/basic.c:37-43 | the method's new heap is that of `DeleteResult` |
| Basic.DetachShares | src/basic.c:45-50 | a detached tensor shares the buffer and shape, has no node, and adds exactly one reference; no other buffer or node changes |
| Basic.DetachDeleteRestores | src/basic.c:37-50 | deleting a detached copy restores the heap exactly |
| Basic.NewDeleteRestores | src/basic.c:8-43 | deleting a new tensor frees its buffer and node; only the address counters have moved |
| Basic.SharedBufferLifetime | src/basic.c:37-50 | a buffer with two references survives the first delete and is freed by the second |
| Basic.DeleteReleases | src/basic.c:37-43 | delete frees the node, frees the buffer when this was its last reference, does the same for the gradient's buffer, and leaves every other node and buffer alone |
| Utils.ShapeCheck | src/utils.c:20-27 | `cten_assert_shape` passes iff all four entries agree |
| Utils.DimCheck | src/utils.c:29-31 | `cten_assert_dim` passes iff the two ints agree |
| Utils.ShapeCheckImpliesDimCheck | src/utils.c:20-31 | shapes that pass the shape check have equal ranks |
| Utils.BroadcastPlan | src/utils.c:33-50 | the decision loop returns the plan that `PlanOf` defines axis by axis: equal ranks, no clashing axis, and one consistent direction |
| Utils.PlanSymmetric | src/utils.c:33-56 | exchanging the operands exchanges which one is expanded; compatibility does not depend on the order |
| Utils.PlanSameIffEqual | src/utils.c:36-50 | for shapes the library builds, both operands are left alone iff the shapes are equal |
| Utils.IncompatibleFailsShapeCheck | src/utils.c:20-49 | shapes that cannot be broadcast never pass the shape check |
| Utils.PlanExpandable | src/utils.c:36-56 | the operand a plan expands has the other's rank, and each of its used axes equals the other's or is 1 |
| Utils.ExpandResult | src/utils.c:57-75 | the replacement has the target shape and a node iff the source has one; the heap only grows |
| Utils.BroadcastResult | src/utils.c:33-78 | on success the heap only grows, no existing node changes, and each operand keeps its liveness and its having a node |
| Utils.Expand | src/utils.c:57-75 | the four nested copy loops produce the heap and tensor of `ExpandResult` |
| Utils.CopyBlock | src/utils.c:60-73 | one pass of the `j` loop writes the next `s[1]*s[2]*s[3]` target values in order |
| Utils.CopyPlane | src/utils.c:62-73 | one pass of the `k` loop writes the next `s[2]*s[3]` target values in order |
| Utils.CopyRow | src/utils.c:64-71 | one pass of the `l` loop writes the next `s[3]` target values, each read from the pinned source position |
| Utils.Broadcast | src/utils.c:33-78 | the method's outcome, new heap and operands are those of `BroadcastResult` |
| Utils.SourceOffsetOfFlat | src/utils.c:58-70 | the source read for target offset `c` is at the row-major offset of the pinned indices `i_, j_, k_, l_` |
| Utils.ExpandedElement | src/utils.c:58-73 | each element of the copy is the source element at the same indices, with every size-1 source axis pinned to 0 |
| Utils.ExpandedNothingUnlessAllPositive | src/utils.c:58-73 | when some shape entry is not positive the copy body never runs |
| Utils.BroadcastAligns | src/utils.c:50-77 | after a successful broadcast both operands have the same shape and at least one is returned unchanged |
| Utils.BroadcastReplacementNode | src/utils.c:50-75 | only the operand with size-1 axes is replaced; it gets the other's shape, and a new zeroed node iff it had a node |
| Utils.BroadcastFailureUntouched | src/utils.c:34-49 | different ranks or a clashing axis give `false` with both operands and the heap untouched |
| Utils.BroadcastEqualUntouched | src/utils.c:38-50 | equal shapes give `true` with both operands and the heap untouched |
| Operators.ElemwiseResult | src/operator.c:24-50 | the element-wise loop only grows the heap, changes no existing node, and returns a live, issued tensor |
| Operators.AddResult | src/operator.c:20-36 | broadcast, abort unless the shapes then agree, then the element-wise loop |
| Operators.MulResult | src/operator.c:38-51 | the element-wise loop with the multiply rule and no shape check |
| Operators.MulfResult | src/operator.c:53-61 | a node-less tensor filled with the factor, then `Tensor_mul` |
| Operators.Elemwise | src/operator.c:24-35 | the method's new heap and result are those of `ElemwiseResult` |
| Operators.CombineAll | src/operator.c:26-28 | the loop writes element `i` as the rule applied to the operands' elements `i`, for every `i < self.numel` |
| Operators.TensorAdd | src/operator.c:20-36 | the method's new heap and result are those of `AddResult` |
| Operators.TensorMul | src/operator.c:38-51 | the method's new heap and result are those of `MulResult` |
| Operators.TensorMulf | src/operator.c:53-61 | the method's new heap and result are those of `MulfResult` |
| Operators.MatmulResult | src/operator.c:101-136 | the product's heap only grows, and the result is live and issued |
| Operators.TensorMatmul | src/operator.c:101-136 | the method's new heap and result are those of `MatmulResult` |
| Operators.MatmulRows | src/operator.c:118-126 | the `i` loop fills every row of the product |
| Operators.MatmulRow | src/operator.c:119-125 | the `j` loop fills row `i`: each cell is the dot product of row `i` and column `j` |
| Operators.MeanResult | src/operator.c:76-91 | the mean only grows the heap, changes no existing node, and keeps the heap invariant |
| Operators.TensorMean | src/operator.c:76-91 | the method's new heap and result are those of `MeanResult` |
| Operators.RowTotal | src/operator.c:83-87 | the inner loop returns the sum of the `last` values of row `outer` |
| Operators.MeanRows | src/operator.c:82-89 | the outer loop writes the mean of each run of `last` consecutive input values |
| Operators.TensorArgmax | src/operator.c:63-74 | the loops return exactly `ArgmaxResult` and change nothing |
| Operators.GradFnResult | src/operator.c:9-18 | the derivative rule of a node returns a live tensor without a node, and the graph is unchanged |
| Operators.GradFnAdd | src/operator.c:9-13 | the method's new heap and result are those of `GradFnResult` for the add rule |
| Operators.GradFnMul | src/operator.c:15-18 | the method's new heap and result are those of `GradFnResult` for the multiply rule |
| Operators.GradFnMatmul | src/operator.c:93-99 | the method's new heap and result are those of `GradFnResult` for the matmul rule |
| Operators.CallGradFn | src/basic.c:65 | calling `node->grad_fn(self, i)` dispatches on the stored rule, giving `GradFnResult` |
| Operators.ElemwiseSpec | src/operator.c:24-50 | element `i < self.numel` is `self[i] op other[i]`; `other` must hold at least as many values; later elements stay fresh; the node records the rule and `inputs = [self, other]`, `n_inputs = 2` |
| Operators.AddOfEqualShapes | src/operator.c:20-28 | operands of equal shape are added element by element without broadcasting |
| Operators.AddAbortsOnIncompatible | src/operator.c:21-23 | `Tensor_add` aborts when the shapes cannot be broadcast |
| Operators.AddWiring | src/operator.c:20-36 | the sum has the larger operand's shape and a node iff an operand has one; the node records the add rule and two inputs, one of them an original operand |
| Operators.MulUnchecked | src/operator.c:38-43 | `Tensor_mul` checks no shapes: live operands with long enough buffers always multiply |
| Operators.MulfSpec | src/operator.c:53-60 | the result has a node iff `self` does; each element is `self[i] * f`; the node's second input has no node |
| Operators.MatmulCellAt | src/operator.c:118-126 | a finished product cell `i*p+j` is in bounds and is the dot product of row `i` and column `j` |
| Operators.MatmulCellsSpec | src/operator.c:118-126 | every cell of a finished product is the dot product of its row and column |
| Operators.MatmulParts | src/operator.c:101-136 | the ranks are at least 2 and the inner sizes agree; the result shape, buffer and node are as built |
| Operators.MatmulSpec | src/operator.c:101-136 | both ranks are at least 2 and `n` equals `other`'s second-to-last axis; the shape is `self`'s with the last used entry replaced by `p`; entry `i*p+j` is the sum over `k` of `self[i*n+k] * other[k*p+j]`; the node records the operands |
| Operators.ArgmaxUpToSpec | src/operator.c:65-72 | after `j` rows the index is below `j`, holds the largest value of its column so far, and is the first such row |
| Operators.ArgmaxSpec | src/operator.c:63-74 | `shape[dim]` indices, each in `[0, shape[dim])`, each naming the first row that holds the column's maximum; the reads stay inside the buffer |
| Operators.MeanSpec | src/operator.c:76-91 | `dim` is ignored; the rank is positive; the result has the input's full shape and a zeroed node (`n_inputs == 0`) iff the input has one; element `o` is the mean of run `o` |
| Operators.GradFnAddOnes | src/operator.c:9-13 | `GradFn_add` gives an all-ones tensor of the input's shape without a node |
| Operators.GradFnMulDetached | src/operator.c:15-18 | `GradFn_mul(self, i)` gives `inputs[1-i]` detached: the same buffer and shape, no node, one more reference |
| Operators.GradFnMatmulProduct | src/operator.c:93-99 | `GradFn_matmul(self, i)` gives the node-less product of `inputs[i]` and `inputs[1-i]`, in that order |
| Autodiff.BackwardResult | src/basic.c:52-69 | backward keeps the heap invariant, only grows the heap, and changes no node's rule or inputs |
| Autodiff.Accumulate | src/basic.c:59-63 | storing or adding the seed keeps the heap invariant and the graph |
| Autodiff.InputGrad | src/basic.c:65 | the gradient handed to an input is a live tensor without a node, and the graph is unchanged |
| Autodiff.BackwardInputs | src/basic.c:64-67 | the input loop keeps the heap invariant and the graph |
| Autodiff.Backward | src/basic.c:52-69 | the method's new heap is that of `BackwardResult` |
| Autodiff.StoreGrad | src/basic.c:59-63 | the method stores the seed, or the sum of the old gradient and the seed, as `Accumulate` says |
| Autodiff.BackwardLoop | src/basic.c:64-67 | the loop's new heap is that of `BackwardInputs` |
| Autodiff.BackwardWithoutNode | src/basic.c:53 | backward on a tensor without a node changes nothing |
| Autodiff.BackwardSeedRules | src/basic.c:54-58 | a missing seed requires exactly one element; a seed with a node aborts |
| Autodiff.NullSeedIsOne | src/basic.c:54-57 | a NULL seed into a one-element tensor is replaced by a new node-less tensor of shape `{0}` holding 1, and backward proceeds with it |
| Autodiff.NullSeedLeaf | src/basic.c:54-61 | backward with a NULL seed into a one-element leaf without a gradient stores a live, node-less gradient of shape `{0}` whose only value is 1 |
| Autodiff.LeafFirstStore | src/basic.c:59-61 | the first backward into a leaf stores the seed as its gradient |
| Autodiff.LeafAccumulates | src/basic.c:62-63 | a later backward into a leaf replaces its gradient with `old + seed` |
| Autodiff.BackwardTwice | src/basic.c:59-63 | two backwards with seed `g` into a leaf leave `g + g` |
| Autodiff.MulInputGrad | src/basic.c:64-66 | for a multiply node, input `i` is handed the running gradient times the other input's values, without a node |
| Autodiff.MulGradProducts | src/basic.c:64-66 | the same, stated on whole buffers |
| Autodiff.BackwardUnfold | src/basic.c:59-67 | backward is: store or add the seed, then run the input loop |
| Autodiff.InputsStep | src/basic.c:64-66 | one loop iteration: compute the input's gradient, back-propagate into the input, continue with the reassigned gradient |
| Autodiff.InputsDone | src/basic.c:64 | the loop stops after `n_inputs` iterations |
| Autodiff.FreshBackward | src/basic.c:52-61 | backward into a tensor without a node does nothing; into a leaf without a gradient it stores the seed; no other node changes |
| Autodiff.MulFirstInput | src/basic.c:64-66 | the first iteration for `c = x * y` hands `x` the product `s * y` |
| Autodiff.MulSecondInput | src/basic.c:64-66 | the second iteration hands `y` the running gradient times `x`; then the loop ends |
| Autodiff.MulBackwardCumulative | src/basic.c:64-66 | backward through `c = x * y` with seed `s` gives `x` the gradient `s * y` and `y` the gradient `(s * y) * x` |
| Autodiff.MulfWiring | src/operator.c:53-60 | `Tensor_mulf(a, f)` makes a multiply node whose inputs are `a` and a node-less tensor of `f`s |
| Autodiff.MulfBackward | src2/main.c:4-19 | after `b = Tensor_mulf(a, f)` on a leaf, backward from `b` with seed `s` gives `a` the gradient `s * f` (all 2 for the program's ones and 2) |
| Optimizer.ZeroOne | src/optimizer.c:33-37 | zeroing one parameter keeps the heap invariant and the graph |
| Optimizer.ZeroGradFrom | src/optimizer.c:32-39 | zeroing a run of parameters keeps the heap invariant and the graph |
| Optimizer.StepOne | src/optimizer.c:42-50 | one step changes only buffer values: nodes, address counters and the set of buffers stay the same |
| Optimizer.StepFrom | src/optimizer.c:41-52 | a run of steps changes only buffer values |
| Optimizer.Sgd.constructor | src/optimizer.c:18-25 | stores the parameters, with learning rate 0.001 and momentum 0 |
| Optimizer.Sgd.Config | src/optimizer.c:27-30 | sets exactly the learning rate and momentum |
| Optimizer.Sgd.ZeroGrad | src/optimizer.c:32-39 | the loop's new heap is that of `ZeroGradFrom` over all parameters |
| Optimizer.Sgd.Step | src/optimizer.c:41-52 | the loop's new heap is that of `StepFrom` over all parameters |
| Optimizer.Descend | src/optimizer.c:48-50 | the inner loop sets every value to `p[j] - lr * g[j]`, reading `g` as it was, even when `g` is the same buffer |
| Optimizer.ZeroOneSpec | src/optimizer.c:33-37 | only the parameter's own node changes; a present gradient becomes a new all-zero tensor of the parameter's shape; an absent one stays absent |
| Optimizer.ZeroGradKeeps | src/optimizer.c:32-39 | every parameter has a live node; no node appears or disappears; gradient presence is unchanged; nodes of no parameter are untouched |
| Optimizer.ZeroGradClears | src/optimizer.c:32-39 | every parameter's gradient that was present ends live and all zero |
| Optimizer.StepOneSpec | src/optimizer.c:43-50 | a step runs iff the momentum is 0 and the parameter has a node with a live, long enough gradient; then `p[j] := p[j] - lr * g[j]`, and no other buffer and no node changes |
| Optimizer.StepNeedsZeroMomentum | src/optimizer.c:41-44 | a non-zero momentum aborts at the first parameter; with no parameters nothing happens |
| Optimizer.StepWithZeroGrads | src/optimizer.c:48-50 | a step whose gradients are all zero changes nothing |
| Optimizer.ZeroGradThenStep | src/optimizer.c:32-52 | zerograd followed by step moves no parameter, whatever the learning rate |

## Left out

- `src/nn.c`, `Tensor_print` and the message printing of `cten_assert`: numeric kernels and I/O. A failed `cten_assert` or `assert` is a `None` result or a precondition.
- `malloc` failure, the `c11_vector` internals and the pool id stored before each block: the vector library is not part of this model. Vectors are sequences and blocks are abstract numbers passed to `Malloc`.
- The pool allocator and the tensor heap are separate: the tensor functions shown call `malloc` directly, not `_cten_malloc`.
- Float rounding: values are `real`, and results are exact.
- Fresh memory from `malloc` is indeterminate in C. The model fixes it at 0.0 (`Basic.FreshElems`), so results that read unwritten cells are one possible outcome.
- A negative element count (a shape with a negative entry) and a mean over a zero-length last axis are treated as failures (`None`). The C code would pass the value to `malloc` or divide by zero.
- Reads past the end of a buffer and use of freed memory are undefined in C. They are `None` results or preconditions, not modelled behaviour.
- The eval flag has no effect on any modelled operator, so suppression of graph building is not modelled.
- The optimiser's `velocity` field is never read or written by the library, so it is not modelled. `optim_sgd_delete` is declared without a body.
- `TensorShape_asdim`, `TensorShape_tostring` and `Tensor_backward_apply` are declared without bodies and are not modelled.
- Autodiff.BackwardResult: its own contract states only the heap invariant and the graph. The gradient values are stated by the lemmas about leaves and multiply nodes, not for arbitrary graphs.
- Operators.ArgmaxResult: the `int*` buffer `Tensor_argmax` allocates is returned as a sequence and is not placed on the heap.
- Optimizer.ZeroOne: the old gradient is not released (the C code leaks it), and the model keeps that buffer live.
