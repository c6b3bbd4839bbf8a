// Operators and their derivative rules (src/operator.c).
//
// Each operator allocates its result with the two-argument `Tensor_new(shape,
// requires_grad)`, whose element count is the shape's `Numel`, fills it with
// a loop, and, when either operand has a node, records the operands as the
// node's two inputs together with the operator's derivative rule. Results
// are described by functions over the heap (`...Result`), which yield None
// where the C code aborts on an assertion or reads or writes outside a
// buffer; the methods are proved against them. Element values are reals.

module Operators {
  import opened Shapes
  import opened Wrappers
  import opened Memory
  import opened Basic
  import opened Utils

  /** The value at offset `q` of `xs`; only ever used at offsets the C code
      may read. */
  function At(xs: seq<real>, q: int): real
  {
    if 0 <= q < |xs| then xs[q] else 0.0
  }

  /** The values of a tensor's buffer, or none when it is NULL or freed. */
  function ElemsOrEmpty(m: Mem, t: Tensor): (r: seq<real>)
    ensures Live(m, t) ==> r == Elems(m, t)
  {
    if Live(m, t) then Elems(m, t) else []
  }

  /** The node an operator leaves behind: the zeroed node with the rule set
      and the two operands recorded as inputs 0 and 1. */
  function Wired(rule: GradFn, a: Tensor, b: Tensor): GradNode
  {
    ZeroedNode.(gradFn := rule, inputs := ZeroedNode.inputs[0 := a][1 := b], nInputs := 2)
  }

  /** The result of an operator that allocated `r` in `m1` and filled its
      buffer with `vals`: wired to `a` and `b` with `rule` if `r` has a node. */
  function Finish(m1: Mem, r: Tensor, vals: seq<real>, rule: GradFn, a: Tensor, b: Tensor): Mem
    requires Live(m1, r)
  {
    var m2 := WithElems(m1, r.data.value, vals);
    if r.node.Some? then WithNode(m2, r.node.value, Wired(rule, a, b)) else m2
  }

  /** Filling a tensor just allocated after `m` and wiring its node keeps the
      heap invariant, and only adds to `m`. */
  lemma FinishKeeps(m: Mem, m1: Mem, r: Tensor, vals: seq<real>, rule: GradFn, a: Tensor, b: Tensor)
    requires Wf(m) && Issued(m, a) && Issued(m, b)
    requires Wf(m1) && Extends(m, m1) && NodesKept(m, m1) && Live(m1, r) && Issued(m1, r)
    requires r.data.value !in m.buffers && |vals| == BufNumel(m1, r)
    requires r.node.Some? ==> r.node.value in m1.nodes && r.node.value !in m.nodes && m.nextNode <= r.node.value
    ensures var m' := Finish(m1, r, vals, rule, a, b);
      Wf(m') && Extends(m, m') && NodesKept(m, m') && Issued(m', r) && Live(m', r)
  {
    var m2 := WithElems(m1, r.data.value, vals);
    WithElemsKeeps(m1, r.data.value, vals);
    if r.node.Some? {
      var m' := WithNode(m2, r.node.value, Wired(rule, a, b));
      forall n | n in m'.nodes
        ensures n < m'.nextNode && NodeOk(n, m'.nodes[n]) && NodeIssued(m', m'.nodes[n])
      {
        if n != r.node.value {
          assert NodeOk(n, m2.nodes[n]) && NodeIssued(m2, m2.nodes[n]);
        }
      }
    }
  }

  // ---------------------------------------------------------------------
  // Tensor_add and Tensor_mul.

  /** `x + y` for the add rule, `x * y` for the mul rule. */
  function Apply(rule: GradFn, x: real, y: real): real
  {
    if rule == AddRule then x + y else x * y
  }

  /** The result buffer of length `n` after the first `c` element pairs
      were combined. */
  function Combined(rule: GradFn, xs: seq<real>, ys: seq<real>, n: nat, c: int): (r: seq<real>)
    ensures |r| == n
  {
    seq(n, q => if q < c then Apply(rule, At(xs, q), At(ys, q)) else 0.0)
  }

  /** The common tail of `Tensor_add` and `Tensor_mul` (src/operator.c:24-35,
      39-50): a result of `a`'s shape, with a node iff an operand has one,
      whose first `a.data->numel` elements combine the operands' elements.
      None when a buffer is NULL or freed, when the loop would write past the
      result or read past `b`, or when the shape's count is negative. */
  function ElemwiseResult(m: Mem, rule: GradFn, a: Tensor, b: Tensor): (r: Option<(Mem, Tensor)>)
    requires Wf(m) && Issued(m, a) && Issued(m, b)
    ensures r.Some? ==> Wf(r.value.0) && Extends(m, r.value.0) && NodesKept(m, r.value.0)
    ensures r.Some? ==> Issued(r.value.0, r.value.1) && Live(r.value.0, r.value.1)
  {
    if Numel(a.shape) < 0 || !Live(m, a) || !Live(m, b) then None
    else if BufNumel(m, a) > Numel(a.shape) || BufNumel(m, b) < BufNumel(m, a) then None
    else
      var (m1, r) := NewResult(m, Numel(a.shape), a.shape, a.node.Some? || b.node.Some?);
      var vals := Combined(rule, Elems(m, a), Elems(m, b), Numel(a.shape), BufNumel(m, a));
      FinishKeeps(m, m1, r, vals, rule, a, b);
      Some((Finish(m1, r, vals, rule, a, b), r))
  }

  /** `Tensor_add`: broadcast; if that fails, `cten_assert_shape` aborts
      unless the shapes agree; then the element-wise sum. */
  function AddResult(m: Mem, a: Tensor, b: Tensor): (r: Option<(Mem, Tensor)>)
    requires Wf(m) && Issued(m, a) && Issued(m, b)
    ensures r.Some? ==> Wf(r.value.0) && Extends(m, r.value.0) && NodesKept(m, r.value.0)
    ensures r.Some? ==> Issued(r.value.0, r.value.1) && Live(r.value.0, r.value.1)
  {
    match BroadcastResult(m, a, b)
    case None => None
    case Some((m1, ok, a1, b1)) =>
      if !ok && !ShapeCheck(a1.shape, b1.shape) then None
      else ElemwiseResult(m1, AddRule, a1, b1)
  }

  /** `Tensor_mul`: no shape check at all. */
  function MulResult(m: Mem, a: Tensor, b: Tensor): (r: Option<(Mem, Tensor)>)
    requires Wf(m) && Issued(m, a) && Issued(m, b)
    ensures r.Some? ==> Wf(r.value.0) && Extends(m, r.value.0) && NodesKept(m, r.value.0)
    ensures r.Some? ==> Issued(r.value.0, r.value.1) && Live(r.value.0, r.value.1)
  {
    ElemwiseResult(m, MulRule, a, b)
  }

  /** `Tensor_mulf`: a node-less tensor of `a`'s shape filled with `f`, then
      `Tensor_mul`. */
  function MulfResult(m: Mem, a: Tensor, f: real): (r: Option<(Mem, Tensor)>)
    requires Wf(m) && Issued(m, a)
    ensures r.Some? ==> Wf(r.value.0) && Extends(m, r.value.0) && NodesKept(m, r.value.0)
    ensures r.Some? ==> Issued(r.value.0, r.value.1) && Live(r.value.0, r.value.1)
  {
    if Numel(a.shape) < 0 then None
    else
      var (m1, tmp) := FilledResult(m, Numel(a.shape), a.shape, false, f);
      MulResult(m1, a, tmp)
  }

  /** The shared loop and wiring of `Tensor_add` and `Tensor_mul`. */
  method Elemwise(h: Heap, rule: GradFn, a: Tensor, b: Tensor) returns (r: Tensor)
    requires h.Valid() && Issued(h.State(), a) && Issued(h.State(), b)
    requires ElemwiseResult(h.State(), rule, a, b).Some?
    modifies h
    ensures h.Valid()
    ensures ElemwiseResult(old(h.State()), rule, a, b) == Some((h.State(), r))
  {
    ghost var m0 := h.State();
    var requireGrad := a.node.Some? || b.node.Some?;
    r := TensorNew(h, Numel(a.shape), a.shape, requireGrad);
    ghost var m1 := h.State();
    var rb := r.data.value;
    ghost var xs, ys := Elems(m0, a), Elems(m0, b);
    assert Live(m1, a) && Live(m1, b) && a.data.value != rb && b.data.value != rb;
    assert Elems(m1, a) == xs && Elems(m1, b) == ys && BufNumel(m1, a) == |xs|;
    assert |xs| <= Numel(a.shape) && |xs| <= |ys|;
    assert Combined(rule, xs, ys, Numel(a.shape), 0) == h.buffers[rb].flex;
    assert WithElems(m1, rb, h.buffers[rb].flex) == m1;
    CombineAll(h, rule, a, b, rb, xs, ys, m1);
    ghost var vals := Combined(rule, xs, ys, Numel(a.shape), |xs|);
    assert h.State() == WithElems(m1, rb, vals);
    if requireGrad {
      var n := r.node.value;
      var node := h.nodes[n];
      h.nodes := h.nodes[n := node.(gradFn := rule, inputs := node.inputs[0 := a][1 := b], nInputs := 2)];
    }
    assert h.State() == Finish(m1, r, vals, rule, a, b);
  }

  /** The loop of `Tensor_add` and `Tensor_mul`: element `i` of the result
      `rb` combines element `i` of each operand, for `i < a.data->numel`. */
  method CombineAll(h: Heap, rule: GradFn, a: Tensor, b: Tensor, rb: BufferRef,
                    ghost xs: seq<real>, ghost ys: seq<real>, ghost m1: Mem)
    requires h.Valid() && rb in m1.buffers && Live(m1, a) && Live(m1, b) && a.data.value != rb && b.data.value != rb
    requires Elems(m1, a) == xs && Elems(m1, b) == ys && BufNumel(m1, a) == |xs|
    requires |xs| <= |m1.buffers[rb].flex| && |xs| <= |ys|
    requires h.State() == WithElems(m1, rb, Combined(rule, xs, ys, |m1.buffers[rb].flex|, 0))
    modifies h
    ensures h.Valid()
    ensures h.State() == WithElems(m1, rb, Combined(rule, xs, ys, |m1.buffers[rb].flex|, |xs|))
  {
    ghost var len := |m1.buffers[rb].flex|;
    var i := 0;
    while i < h.buffers[a.data.value].numel
      invariant 0 <= i <= |xs|
      invariant h.Valid()
      invariant h.State() == WithElems(m1, rb, Combined(rule, xs, ys, len, i))
      invariant h.buffers[a.data.value] == m1.buffers[a.data.value] && h.buffers[b.data.value] == m1.buffers[b.data.value]
    {
      var x := h.buffers[a.data.value].flex[i];
      var y := h.buffers[b.data.value].flex[i];
      var v := if rule == AddRule then x + y else x * y;
      assert x == At(xs, i) && y == At(ys, i) && h.buffers[rb].flex == Combined(rule, xs, ys, len, i);
      assert v == Apply(rule, At(xs, i), At(ys, i));
      CombinedOneMore(rule, xs, ys, len, i);
      Store(h, rb, i, v);
      i := i + 1;
    }
  }

  /** Writing element `i` extends the combined prefix by one. */
  lemma CombinedOneMore(rule: GradFn, xs: seq<real>, ys: seq<real>, len: nat, i: nat)
    requires i < len
    ensures Combined(rule, xs, ys, len, i)[i := Apply(rule, At(xs, i), At(ys, i))] == Combined(rule, xs, ys, len, i + 1)
  {
  }

  /** `Tensor_add`. */
  method TensorAdd(h: Heap, a: Tensor, b: Tensor) returns (r: Tensor)
    requires h.Valid() && Issued(h.State(), a) && Issued(h.State(), b)
    requires AddResult(h.State(), a, b).Some?
    modifies h
    ensures h.Valid()
    ensures AddResult(old(h.State()), a, b) == Some((h.State(), r))
  {
    var ok, a1, b1 := Broadcast(h, a, b);
    if !ok {
      AssertShape(a1.shape, b1.shape);
    }
    r := Elemwise(h, AddRule, a1, b1);
  }

  /** `Tensor_mul`. */
  method TensorMul(h: Heap, a: Tensor, b: Tensor) returns (r: Tensor)
    requires h.Valid() && Issued(h.State(), a) && Issued(h.State(), b)
    requires MulResult(h.State(), a, b).Some?
    modifies h
    ensures h.Valid()
    ensures MulResult(old(h.State()), a, b) == Some((h.State(), r))
  {
    r := Elemwise(h, MulRule, a, b);
  }

  /** `Tensor_mulf`. */
  method TensorMulf(h: Heap, a: Tensor, f: real) returns (r: Tensor)
    requires h.Valid() && Issued(h.State(), a)
    requires MulfResult(h.State(), a, f).Some?
    modifies h
    ensures h.Valid()
    ensures MulfResult(old(h.State()), a, f) == Some((h.State(), r))
  {
    var tmp := TensorNew(h, Numel(a.shape), a.shape, false);
    Fill(h, tmp.data.value, f);
    r := TensorMul(h, a, tmp);
  }

  // ---------------------------------------------------------------------
  // Tensor_matmul.

  /** `sum` after `kk` rounds of the inner loop for row `i`, column `j`. */
  function Dot(xs: seq<real>, ys: seq<real>, i: int, j: int, n: int, p: int, kk: int): real
    decreases kk
  {
    if kk <= 0 then 0.0
    else Dot(xs, ys, i, j, n, p, kk - 1) + At(xs, i * n + (kk - 1)) * At(ys, (kk - 1) * p + j)
  }

  /** The result buffer of length `len` after the first `c` cells (in
      row-major order) of the `rows` x `p` product were written. */
  function MatmulCells(xs: seq<real>, ys: seq<real>, rows: int, n: int, p: int, len: nat, c: int): (r: seq<real>)
    ensures |r| == len
  {
    seq(len, q => if p > 0 && q < c && q < rows * p then Dot(xs, ys, q / p, q % p, n, p, n) else 0.0)
  }

  /** The shape of `self @ other`: `self`'s shape with its last used entry
      replaced by `other`'s last used entry. */
  function MatmulShape(sa: Shape, sb: Shape): Shape
    requires Dim(sa) >= 1 && Dim(sb) >= 1
  {
    sa[Dim(sa) - 1 := sb[Dim(sb) - 1]]
  }

  /** Both ranks at least 2 and the inner sizes agree. */
  predicate MatmulCompatible(sa: Shape, sb: Shape)
  {
    Dim(sa) >= 2 && Dim(sb) >= 2 && sa[Dim(sa) - 1] == sb[Dim(sb) - 2]
  }

  /** `Tensor_matmul` (src/operator.c:101-136). None when an assertion fails,
      when the shape's count is negative, or when the loops would read or
      write outside a buffer. */
  function MatmulResult(m: Mem, a: Tensor, b: Tensor): (r: Option<(Mem, Tensor)>)
    requires Wf(m) && Issued(m, a) && Issued(m, b)
    ensures r.Some? ==> Wf(r.value.0) && Extends(m, r.value.0) && NodesKept(m, r.value.0)
    ensures r.Some? ==> Issued(r.value.0, r.value.1) && Live(r.value.0, r.value.1)
  {
    if !MatmulCompatible(a.shape, b.shape) then None
    else
      var da, db := Dim(a.shape), Dim(b.shape);
      var rows, n, p := a.shape[da - 2], a.shape[da - 1], b.shape[db - 1];
      var rs := MatmulShape(a.shape, b.shape);
      if Numel(rs) < 0 then None
      else if rows > 0 && p > 0 && rows * p > Numel(rs) then None
      else if rows > 0 && p > 0 && n > 0 &&
              !(Live(m, a) && Live(m, b) && rows * n <= BufNumel(m, a) && n * p <= BufNumel(m, b)) then None
      else
        var (m1, r) := NewResult(m, Numel(rs), rs, a.node.Some? || b.node.Some?);
        var xs, ys := ElemsOrEmpty(m, a), ElemsOrEmpty(m, b);
        var cells := if rows > 0 then rows * p else 0;
        var vals := MatmulCells(xs, ys, rows, n, p, Numel(rs), cells);
        FinishKeeps(m, m1, r, vals, MatmulRule, a, b);
        Some((Finish(m1, r, vals, MatmulRule, a, b), r))
  }

  /** What the product loops rely on: the result buffer `rb` of the heap
      `m1` just after allocation holds every cell written, and, when the
      loops read anything, both operands are live, distinct from `rb`, hold
      `xs` and `ys`, and are long enough for every read. */
  ghost predicate Multiplying(m1: Mem, a: Tensor, b: Tensor, rb: BufferRef, rows: int, n: int, p: int,
                              xs: seq<real>, ys: seq<real>)
  {
    rb in m1.buffers &&
    (rows > 0 && p > 0 ==> rows * p <= |m1.buffers[rb].flex|) &&
    (rows > 0 && p > 0 && n > 0 ==>
      Live(m1, a) && Live(m1, b) && a.data.value != rb && b.data.value != rb &&
      Elems(m1, a) == xs && Elems(m1, b) == ys && rows * n <= |xs| && n * p <= |ys|)
  }

  /** `Tensor_matmul`. */
  method TensorMatmul(h: Heap, a: Tensor, b: Tensor) returns (r: Tensor)
    requires h.Valid() && Issued(h.State(), a) && Issued(h.State(), b)
    requires MatmulResult(h.State(), a, b).Some?
    modifies h
    ensures h.Valid()
    ensures MatmulResult(old(h.State()), a, b) == Some((h.State(), r))
  {
    ghost var m0 := h.State();
    var da := Dim(a.shape);
    var db := Dim(b.shape);
    var rows := a.shape[da - 2];
    var n := a.shape[da - 1];
    var p := b.shape[db - 1];
    var rs := a.shape[da - 1 := p];
    r := TensorNew(h, Numel(rs), rs, a.node.Some? || b.node.Some?);
    ghost var m1 := h.State();
    var rb := r.data.value;
    ghost var xs, ys, vals := MatmulUnfold(m0, a, b, m1, r);
    MatmulRows(h, a, b, rb, rows, n, p, xs, ys, m1);
    assert h.State() == WithElems(m1, rb, vals);
    if r.node.Some? {
      var nd := r.node.value;
      var node := h.nodes[nd];
      h.nodes := h.nodes[nd := node.(gradFn := MatmulRule, inputs := node.inputs[0 := a][1 := b], nInputs := 2)];
    }
    assert h.State() == Finish(m1, r, vals, MatmulRule, a, b);
  }

  /** `MatmulResult` unfolded after the allocation of `r`: the loops start
      from a result buffer of fresh values and end with `vals`. */
  lemma MatmulUnfold(m0: Mem, a: Tensor, b: Tensor, m1: Mem, r: Tensor)
    returns (xs: seq<real>, ys: seq<real>, vals: seq<real>)
    requires Wf(m0) && Issued(m0, a) && Issued(m0, b) && MatmulResult(m0, a, b).Some?
    requires var rs := a.shape[Dim(a.shape) - 1 := b.shape[Dim(b.shape) - 1]];
      Numel(rs) >= 0 && (m1, r) == NewResult(m0, Numel(rs), rs, a.node.Some? || b.node.Some?)
    ensures var da, db := Dim(a.shape), Dim(b.shape);
      da >= 2 && db >= 1 &&
      var rows, n, p := a.shape[da - 2], a.shape[da - 1], b.shape[db - 1];
      Live(m1, r) &&
      Multiplying(m1, a, b, r.data.value, rows, n, p, xs, ys) &&
      m1 == WithElems(m1, r.data.value, MatmulCells(xs, ys, rows, n, p, |m1.buffers[r.data.value].flex|, 0)) &&
      vals == MatmulCells(xs, ys, rows, n, p, |m1.buffers[r.data.value].flex|, if rows > 0 then rows * p else 0) &&
      MatmulResult(m0, a, b) == Some((Finish(m1, r, vals, MatmulRule, a, b), r))
  {
    var da, db := Dim(a.shape), Dim(b.shape);
    var rows, n, p := a.shape[da - 2], a.shape[da - 1], b.shape[db - 1];
    var rs := MatmulShape(a.shape, b.shape);
    xs, ys := ElemsOrEmpty(m0, a), ElemsOrEmpty(m0, b);
    vals := MatmulCells(xs, ys, rows, n, p, Numel(rs), if rows > 0 then rows * p else 0);
    assert MatmulCells(xs, ys, rows, n, p, Numel(rs), 0) == m1.buffers[r.data.value].flex;
  }

  /** The loop over the rows of the product. */
  method MatmulRows(h: Heap, a: Tensor, b: Tensor, rb: BufferRef, rows: int, n: int, p: int,
                    ghost xs: seq<real>, ghost ys: seq<real>, ghost m1: Mem)
    requires h.Valid() && Multiplying(m1, a, b, rb, rows, n, p, xs, ys)
    requires h.State() == WithElems(m1, rb, MatmulCells(xs, ys, rows, n, p, |m1.buffers[rb].flex|, 0))
    modifies h
    ensures h.Valid()
    ensures h.State() == WithElems(m1, rb, MatmulCells(xs, ys, rows, n, p, |m1.buffers[rb].flex|, if rows > 0 then rows * p else 0))
  {
    ghost var len := |m1.buffers[rb].flex|;
    var i := 0;
    while i < rows
      invariant 0 <= i && (i == 0 || i <= rows)
      invariant h.Valid()
      invariant h.State() == WithElems(m1, rb, MatmulCells(xs, ys, rows, n, p, len, if p > 0 then i * p else 0))
    {
      MatmulRow(h, a, b, rb, rows, n, p, i, xs, ys, m1);
      Carry(i, p);
      i := i + 1;
    }
    if rows > 0 && p <= 0 {
      assert MatmulCells(xs, ys, rows, n, p, len, 0) == MatmulCells(xs, ys, rows, n, p, len, rows * p);
    }
  }

  /** One row of the product: for each column `j`, the inner loop sums
      `xs[i * n + k] * ys[k * p + j]` over `k` and stores it at `i * p + j`. */
  method MatmulRow(h: Heap, a: Tensor, b: Tensor, rb: BufferRef, rows: int, n: int, p: int, i: int,
                   ghost xs: seq<real>, ghost ys: seq<real>, ghost m1: Mem)
    requires h.Valid() && Multiplying(m1, a, b, rb, rows, n, p, xs, ys) && 0 <= i < rows
    requires h.State() == WithElems(m1, rb, MatmulCells(xs, ys, rows, n, p, |m1.buffers[rb].flex|, if p > 0 then i * p else 0))
    modifies h
    ensures h.Valid()
    ensures h.State() == WithElems(m1, rb, MatmulCells(xs, ys, rows, n, p, |m1.buffers[rb].flex|, if p > 0 then i * p + p else 0))
  {
    ghost var len := |m1.buffers[rb].flex|;
    var j := 0;
    while j < p
      invariant 0 <= j && (j == 0 || j <= p)
      invariant h.Valid()
      invariant h.State() == WithElems(m1, rb, MatmulCells(xs, ys, rows, n, p, len, if p > 0 then i * p + j else 0))
    {
      ghost var st := h.State();
      var sum := 0.0;
      var k := 0;
      while k < n
        invariant 0 <= k && (k == 0 || k <= n)
        invariant sum == Dot(xs, ys, i, j, n, p, k)
        invariant h.State() == st
      {
        Radix(i, k, rows, n);
        Radix(k, j, n, p);
        sum := sum + h.buffers[a.data.value].flex[i * n + k] * h.buffers[b.data.value].flex[k * p + j];
        k := k + 1;
      }
      Radix(i, j, rows, p);
      DivModOf(i, p, j);
      ghost var c := i * p + j;
      assert MatmulCells(xs, ys, rows, n, p, len, c)[c := sum] == MatmulCells(xs, ys, rows, n, p, len, c + 1);
      Store(h, rb, i * p + j, sum);
      j := j + 1;
    }
  }

  // ---------------------------------------------------------------------
  // Tensor_mean and Tensor_argmax.

  /** The sum of the first `d` elements of row `o` of width `w`. */
  function RowSum(xs: seq<real>, o: int, w: int, d: int): real
    decreases d
  {
    if d <= 0 then 0.0 else RowSum(xs, o, w, d - 1) + At(xs, o * w + (d - 1))
  }

  /** How many rows the mean loop visits: `numel / w` with C's truncating
      division, which is not positive when `w` is negative. */
  function OuterCount(numel: int, w: int): int
  {
    if w > 0 && numel >= 0 then numel / w else 0
  }

  /** The result buffer after the first `c` row means were written. */
  function MeanCells(xs: seq<real>, w: int, len: nat, c: int): (r: seq<real>)
    ensures |r| == len
  {
    seq(len, o => if o < c && w > 0 then RowSum(xs, o, w, w) / (w as real) else 0.0)
  }

  /** `Tensor_mean` (src/operator.c:76-91): the result has the input's full
      shape and a fresh node iff the input has one; its first
      `numel / last` elements are the means of consecutive runs of `last`
      input elements, where `last` is the last used entry of the shape. The
      `dim` argument is not used. None when the shape has no used axis, when
      its count is negative, when the last used entry is 0 (a division by
      zero), or when the means would not fit the result. */
  function MeanResult(m: Mem, a: Tensor, dim: int): (r: Option<(Mem, Tensor)>)
    requires Wf(m)
    ensures r.Some? ==> Wf(r.value.0) && Extends(m, r.value.0) && NodesKept(m, r.value.0)
  {
    var d := Dim(a.shape);
    if Numel(a.shape) < 0 || d == 0 || !Live(m, a) then None
    else
      var w := a.shape[d - 1];
      var outer := OuterCount(BufNumel(m, a), w);
      if w == 0 || outer > Numel(a.shape) then None
      else
        var (m1, r) := NewResult(m, Numel(a.shape), a.shape, a.node.Some?);
        Some((WithElems(m1, r.data.value, MeanCells(Elems(m, a), w, Numel(a.shape), outer)), r))
  }

  /** `Tensor_mean`. */
  method TensorMean(h: Heap, a: Tensor, dim: int) returns (r: Tensor)
    requires h.Valid() && MeanResult(h.State(), a, dim).Some?
    modifies h
    ensures h.Valid()
    ensures MeanResult(old(h.State()), a, dim) == Some((h.State(), r))
  {
    ghost var m0 := h.State();
    ghost var xs := Elems(m0, a);
    r := TensorNew(h, Numel(a.shape), a.shape, a.node.Some?);
    ghost var m1 := h.State();
    var rb := r.data.value;
    var selfDim := Dim(a.shape);
    var w := a.shape[selfDim - 1];
    var numel := h.buffers[a.data.value].numel;
    var outerSize := if w > 0 then numel / w else 0;
    assert outerSize == OuterCount(BufNumel(m0, a), w);
    assert Live(m1, a) && a.data.value != rb && Elems(m1, a) == xs && |xs| == numel;
    assert MeanCells(xs, w, Numel(a.shape), 0) == h.buffers[rb].flex;
    assert WithElems(m1, rb, h.buffers[rb].flex) == m1;
    MeanRows(h, a, rb, w, outerSize, xs, m1);
  }

  /** The loop over the rows of `Tensor_mean`: row `outer` of width `w`
      is summed and its mean stored at `outer`. */
  method MeanRows(h: Heap, a: Tensor, rb: BufferRef, w: int, outerSize: int, ghost xs: seq<real>, ghost m1: Mem)
    requires h.Valid() && rb in m1.buffers && Live(m1, a) && a.data.value != rb && Elems(m1, a) == xs
    requires w != 0 && outerSize == OuterCount(|xs|, w) && outerSize <= |m1.buffers[rb].flex|
    requires h.State() == WithElems(m1, rb, MeanCells(xs, w, |m1.buffers[rb].flex|, 0))
    modifies h
    ensures h.Valid()
    ensures h.State() == WithElems(m1, rb, MeanCells(xs, w, |m1.buffers[rb].flex|, outerSize))
  {
    ghost var len := |m1.buffers[rb].flex|;
    OuterCountBounds(|xs|, w);
    var outer := 0;
    while outer < outerSize
      invariant 0 <= outer <= outerSize
      invariant h.Valid()
      invariant h.State() == WithElems(m1, rb, MeanCells(xs, w, len, outer))
    {
      MeanRowInBounds(|xs|, w, outer);
      var sum := RowTotal(h, a, outer, w, xs);
      var v := sum / (w as real);
      MeanCellsOneMore(xs, w, len, outer);
      Store(h, rb, outer, v);
      outer := outer + 1;
    }
  }

  /** The inner loop of `Tensor_mean`: the sum of row `outer` of width `w`. */
  method RowTotal(h: Heap, a: Tensor, outer: int, w: int, ghost xs: seq<real>) returns (sum: real)
    requires Live(h.State(), a) && Elems(h.State(), a) == xs
    requires w > 0 && 0 <= outer * w && outer * w + w <= |xs|
    ensures sum == RowSum(xs, outer, w, w)
  {
    sum := 0.0;
    var d := 0;
    while d < w
      invariant 0 <= d <= w
      invariant sum == RowSum(xs, outer, w, d)
    {
      sum := sum + h.buffers[a.data.value].flex[outer * w + d];
      d := d + 1;
    }
  }

  /** The mean loop visits no negative number of rows, and its rows fit in
      the input. */
  lemma OuterCountBounds(n: int, w: int)
    ensures 0 <= OuterCount(n, w)
    ensures w > 0 && n >= 0 ==> OuterCount(n, w) * w <= n
  {
    if w > 0 && n >= 0 {
      assert n == (n / w) * w + n % w;
    }
  }

  /** Row `o` of the mean loop lies inside the input. */
  lemma MeanRowInBounds(n: int, w: int, o: int)
    requires 0 <= o < OuterCount(n, w)
    ensures w > 0 && 0 <= o * w && o * w + w <= n
  {
    OuterCountBounds(n, w);
    MulMonotone(0, o, w);
    MulMonotone(o + 1, OuterCount(n, w), w);
    assert (o + 1) * w == o * w + w;
  }

  /** Storing the mean of row `o` extends the written prefix by one. */
  lemma MeanCellsOneMore(xs: seq<real>, w: int, len: nat, o: int)
    requires 0 <= o < len && w > 0
    ensures MeanCells(xs, w, len, o)[o := RowSum(xs, o, w, w) / (w as real)] == MeanCells(xs, w, len, o + 1)
  {
  }

  /** The running index of the argmax loop for column `i` after rows
      `0 .. j - 1` were compared: it moves to a row only when that row's
      element is strictly larger. */
  function ArgmaxUpTo(xs: seq<real>, s: int, i: int, j: int): int
    decreases j
  {
    if j <= 0 then 0
    else
      var best := ArgmaxUpTo(xs, s, i, j - 1);
      if At(xs, best * s + i) < At(xs, (j - 1) * s + i) then j - 1 else best
  }

  /** `Tensor_argmax(self, dim)` (src/operator.c:63-74): `shape[dim]`
      indices, the i-th being the argmax over rows of column `i` of the
      buffer viewed as `shape[dim]` x `shape[dim]`. None when `dim` is not an
      axis or the reads would leave the buffer; no indices when `shape[dim]`
      is not positive. */
  function ArgmaxResult(m: Mem, a: Tensor, dim: int): (r: Option<seq<int>>)
    requires Wf(m)
  {
    if !(0 <= dim < 4) then None
    else
      var s := a.shape[dim];
      if s <= 0 then Some([])
      else if !(Live(m, a) && s * s <= BufNumel(m, a)) then None
      else Some(seq(s, i => ArgmaxUpTo(Elems(m, a), s, i, s)))
  }

  /** `Tensor_argmax`; the returned int buffer is a sequence. */
  method TensorArgmax(h: Heap, a: Tensor, dim: int) returns (res: seq<int>)
    requires h.Valid() && ArgmaxResult(h.State(), a, dim).Some?
    ensures ArgmaxResult(h.State(), a, dim) == Some(res)
  {
    var s := a.shape[dim];
    ghost var xs := if s > 0 then Elems(h.State(), a) else [];
    res := [];
    var i := 0;
    while i < s
      invariant 0 <= i && (i == 0 || i <= s) && |res| == i
      invariant forall c :: 0 <= c < i ==> res[c] == ArgmaxUpTo(xs, s, c, s)
    {
      var best := 0;
      var j := 0;
      while j < s
        invariant 0 <= j <= s
        invariant best == ArgmaxUpTo(xs, s, i, j) && 0 <= best < s
      {
        Radix(best, i, s, s);
        Radix(j, i, s, s);
        var x0 := h.buffers[a.data.value].flex[best * s + i];
        var x1 := h.buffers[a.data.value].flex[j * s + i];
        if x0 < x1 {
          best := j;
        }
        j := j + 1;
      }
      res := res + [best];
      i := i + 1;
    }
    assert s > 0 ==> res == seq(s, c => ArgmaxUpTo(xs, s, c, s));
  }

  // ---------------------------------------------------------------------
  // Derivative rules.

  /** `self.node->grad_fn(self, i)`: the local derivative of `self` with
      respect to input `i`. `GradFn_add` gives a node-less tensor of ones of
      the input's shape, `GradFn_mul` the other input detached, and
      `GradFn_matmul` the product of input `i` and input `1 - i`, both
      detached. None for a NULL rule or a NULL or freed pointer. */
  function GradFnResult(m: Mem, self: Tensor, i: int): (r: Option<(Mem, Tensor)>)
    requires Wf(m)
    ensures r.Some? ==> Wf(r.value.0) && Extends(m, r.value.0) && NodesKept(m, r.value.0)
    ensures r.Some? ==> Issued(r.value.0, r.value.1) && Live(r.value.0, r.value.1) && r.value.1.node.None?
  {
    if self.node.None? || self.node.value !in m.nodes || !(0 <= i < 4) then None
    else
      var g := m.nodes[self.node.value];
      match g.gradFn
      case NoGradFn => None
      case AddRule =>
        var input := g.inputs[i];
        if Numel(input.shape) < 0 then None
        else Some(FilledResult(m, Numel(input.shape), input.shape, false, 1.0))
      case MulRule =>
        if !(0 <= 1 - i < 4) then None else DetachResult(m, g.inputs[1 - i])
      case MatmulRule =>
        if !(0 <= 1 - i < 4) then None
        else
          match DetachResult(m, g.inputs[i])
          case None => None
          case Some((m1, x)) =>
            match DetachResult(m1, g.inputs[1 - i])
            case None => None
            case Some((m2, y)) =>
              var res := MatmulResult(m2, x, y);
              if res.None? then None
              else
                assert res.value.1.node.None?;
                res
  }

  /** `GradFn_add`. */
  method GradFnAdd(h: Heap, self: Tensor, i: int) returns (r: Tensor)
    requires h.Valid() && GradFnResult(h.State(), self, i).Some?
    requires h.nodes[self.node.value].gradFn == AddRule
    modifies h
    ensures h.Valid()
    ensures GradFnResult(old(h.State()), self, i) == Some((h.State(), r))
  {
    var input := h.nodes[self.node.value].inputs[i];
    r := TensorOnes(h, Numel(input.shape), input.shape, false);
  }

  /** `GradFn_mul`. */
  method GradFnMul(h: Heap, self: Tensor, i: int) returns (r: Tensor)
    requires h.Valid() && GradFnResult(h.State(), self, i).Some?
    requires h.nodes[self.node.value].gradFn == MulRule
    modifies h
    ensures h.Valid()
    ensures GradFnResult(old(h.State()), self, i) == Some((h.State(), r))
  {
    r := TensorDetach(h, h.nodes[self.node.value].inputs[1 - i]);
  }

  /** `GradFn_matmul`. */
  method GradFnMatmul(h: Heap, self: Tensor, i: int) returns (r: Tensor)
    requires h.Valid() && GradFnResult(h.State(), self, i).Some?
    requires h.nodes[self.node.value].gradFn == MatmulRule
    modifies h
    ensures h.Valid()
    ensures GradFnResult(old(h.State()), self, i) == Some((h.State(), r))
  {
    ghost var m0 := h.State();
    var x := h.nodes[self.node.value].inputs[i];
    var y := h.nodes[self.node.value].inputs[1 - i];
    ghost var x0, y0 := x, y;
    x := TensorDetach(h, x);
    ghost var m1 := h.State();
    assert DetachResult(m0, x0) == Some((m1, x));
    y := TensorDetach(h, y);
    ghost var m2 := h.State();
    assert DetachResult(m1, y0) == Some((m2, y));
    r := TensorMatmul(h, x, y);
  }

  /** `self.node->grad_fn(self, i)`: calls the node's derivative rule. */
  method CallGradFn(h: Heap, self: Tensor, i: int) returns (r: Tensor)
    requires h.Valid() && GradFnResult(h.State(), self, i).Some?
    modifies h
    ensures h.Valid()
    ensures GradFnResult(old(h.State()), self, i) == Some((h.State(), r))
  {
    match h.nodes[self.node.value].gradFn
    case AddRule => r := GradFnAdd(h, self, i);
    case MulRule => r := GradFnMul(h, self, i);
    case MatmulRule => r := GradFnMatmul(h, self, i);
  }

  // ---------------------------------------------------------------------
  // Properties.

  /** `Tensor_add` and `Tensor_mul` without broadcasting: the result has the
      first operand's shape; the loop reads `a.data->numel` elements, which
      must fit in the result and in `b`; each of those result elements
      combines the operands' elements at the same offset and the rest stay
      zero; the result has a node iff an operand does, and that node is new
      and records `a`, `b` and the rule. */
  lemma ElemwiseSpec(m: Mem, rule: GradFn, a: Tensor, b: Tensor)
    requires Wf(m) && Issued(m, a) && Issued(m, b) && ElemwiseResult(m, rule, a, b).Some?
    ensures var (m', r) := ElemwiseResult(m, rule, a, b).value;
      Live(m, a) && Live(m, b) && r.shape == a.shape &&
      BufNumel(m, a) <= Numel(a.shape) && BufNumel(m, a) <= BufNumel(m, b) &&
      |Elems(m', r)| == Numel(a.shape) &&
      (forall q :: 0 <= q < BufNumel(m, a) ==> Elems(m', r)[q] == Apply(rule, Elems(m, a)[q], Elems(m, b)[q])) &&
      (forall q :: BufNumel(m, a) <= q < Numel(a.shape) ==> Elems(m', r)[q] == 0.0) &&
      (r.node.Some? <==> a.node.Some? || b.node.Some?) &&
      (r.node.Some? ==> r.node.value !in m.nodes && m'.nodes[r.node.value] == Wired(rule, a, b))
  {
    var (m1, r) := NewResult(m, Numel(a.shape), a.shape, a.node.Some? || b.node.Some?);
    assert Live(m, a) && Live(m, b);
    assert |Elems(m, a)| == BufNumel(m, a) && |Elems(m, b)| == BufNumel(m, b);
  }

  /** `Tensor_add` of two operands of the same shape does not broadcast: it
      is the element-wise sum of `ElemwiseSpec`. */
  lemma AddOfEqualShapes(m: Mem, a: Tensor, b: Tensor)
    requires Wf(m) && Issued(m, a) && Issued(m, b) && a.shape == b.shape
    ensures AddResult(m, a, b) == ElemwiseResult(m, AddRule, a, b)
  {
    assert forall i :: 0 <= i < Dim(a.shape) ==> !NeedsA(a.shape, b.shape, i) && !NeedsB(a.shape, b.shape, i) && !Clash(a.shape, b.shape, i);
  }

  /** `Tensor_add` aborts when the operands cannot be broadcast. */
  lemma AddAbortsOnIncompatible(m: Mem, a: Tensor, b: Tensor)
    requires Wf(m) && Issued(m, a) && Issued(m, b) && PlanOf(a.shape, b.shape) == Incompatible
    ensures AddResult(m, a, b).None?
  {
    IncompatibleFailsShapeCheck(a.shape, b.shape);
  }

  /** The result of `Tensor_add` has the larger operand's shape, a node iff
      an operand has one, and that node records the add rule and two inputs,
      one of which is the original operand; the other carries a node iff its
      original did. */
  lemma AddWiring(m: Mem, a: Tensor, b: Tensor)
    requires Wf(m) && Issued(m, a) && Issued(m, b) && AddResult(m, a, b).Some?
    ensures var (m', r) := AddResult(m, a, b).value;
      r.shape == (if PlanOf(a.shape, b.shape) == ExpandA then b.shape else a.shape) &&
      (r.node.Some? <==> a.node.Some? || b.node.Some?) &&
      (r.node.Some? ==>
         (r.node.value !in m.nodes &&
          var g := m'.nodes[r.node.value];
          g.gradFn == AddRule && g.nInputs == 2 &&
          (g.inputs[0] == a || g.inputs[1] == b) &&
          (g.inputs[0].node.Some? <==> a.node.Some?) && (g.inputs[1].node.Some? <==> b.node.Some?)))
  {
    var (m1, ok, a1, b1) := BroadcastResult(m, a, b).value;
    BroadcastReplacementNode(m, a, b);
    ElemwiseSpec(m1, AddRule, a1, b1);
    PlanExpandable(a.shape, b.shape);
    if PlanOf(a.shape, b.shape) == ExpandA {
      assert a1 == ExpandResult(m, a, b.shape).value.1;
    }
  }

  /** `Tensor_mul` performs no shape check: any two live operands whose
      buffers are long enough are multiplied. */
  lemma MulUnchecked(m: Mem, a: Tensor, b: Tensor)
    requires Wf(m) && Issued(m, a) && Issued(m, b) && Live(m, a) && Live(m, b)
    requires BufNumel(m, a) == Numel(a.shape) && BufNumel(m, b) >= BufNumel(m, a)
    ensures MulResult(m, a, b).Some?
  {
    assert Numel(a.shape) >= 0 by {
      assert BufferOk(m.buffers[a.data.value]);
    }
  }

  /** `Tensor_mulf(a, f)`: the constant operand has no node, so the result
      has a node iff `a` has one; each element read is `a`'s times `f`. */
  lemma MulfSpec(m: Mem, a: Tensor, f: real)
    requires Wf(m) && Issued(m, a) && MulfResult(m, a, f).Some?
    ensures var (m', r) := MulfResult(m, a, f).value;
      Live(m, a) && r.shape == a.shape && (r.node.Some? <==> a.node.Some?) &&
      |Elems(m', r)| == Numel(a.shape) &&
      (forall q :: 0 <= q < BufNumel(m, a) ==> Elems(m', r)[q] == Elems(m, a)[q] * f) &&
      (r.node.Some? ==> var g := m'.nodes[r.node.value];
        g.gradFn == MulRule && g.nInputs == 2 && g.inputs[0] == a && g.inputs[1].node.None?)
  {
    var (m1, tmp) := FilledResult(m, Numel(a.shape), a.shape, false, f);
    ElemwiseSpec(m1, MulRule, a, tmp);
    assert Live(m, a) && Elems(m1, a) == Elems(m, a) && BufNumel(m1, a) == BufNumel(m, a);
  }

  /** The offset of row `i`, column `j` in a row-major matrix of width `p`. */
  function Offset(i: int, j: int, p: int): int
  {
    i * p + j
  }

  /** Cell `i * p + j` of a finished product buffer is the dot product of
      row `i` and column `j`. */
  lemma MatmulCellAt(xs: seq<real>, ys: seq<real>, rows: int, n: int, p: int, len: nat, i: int, j: int)
    requires 0 <= i < rows && 0 <= j < p && rows * p <= len
    ensures 0 <= Offset(i, j, p) < len
    ensures MatmulCells(xs, ys, rows, n, p, len, rows * p)[Offset(i, j, p)] == Dot(xs, ys, i, j, n, p, n)
  {
    Radix(i, j, rows, p);
    DivModOf(i, p, j);
  }

  /** Every cell of a finished product buffer is the dot product of its row
      and column. */
  lemma MatmulCellsSpec(xs: seq<real>, ys: seq<real>, rows: int, n: int, p: int, len: nat)
    requires rows > 0 && p > 0 && rows * p <= len
    ensures forall i, j :: 0 <= i < rows && 0 <= j < p ==>
      0 <= Offset(i, j, p) < len && MatmulCells(xs, ys, rows, n, p, len, rows * p)[Offset(i, j, p)] == Dot(xs, ys, i, j, n, p, n)
  {
    forall i, j | 0 <= i < rows && 0 <= j < p
      ensures 0 <= Offset(i, j, p) < len && MatmulCells(xs, ys, rows, n, p, len, rows * p)[Offset(i, j, p)] == Dot(xs, ys, i, j, n, p, n)
    {
      MatmulCellAt(xs, ys, rows, n, p, len, i, j);
    }
  }

  /** The matmul result, unfolded: its shape, its buffer and its node. */
  lemma MatmulParts(m: Mem, a: Tensor, b: Tensor)
    requires Wf(m) && Issued(m, a) && Issued(m, b) && MatmulResult(m, a, b).Some?
    ensures MatmulCompatible(a.shape, b.shape)
    ensures var (m', r) := MatmulResult(m, a, b).value;
      var rows, n, p := a.shape[Dim(a.shape) - 2], a.shape[Dim(a.shape) - 1], b.shape[Dim(b.shape) - 1];
      r.shape == MatmulShape(a.shape, b.shape) && Numel(r.shape) >= 0 &&
      (rows > 0 && p > 0 ==> rows * p <= Numel(r.shape)) &&
      Elems(m', r) == MatmulCells(ElemsOrEmpty(m, a), ElemsOrEmpty(m, b), rows, n, p, Numel(r.shape), if rows > 0 then rows * p else 0) &&
      (r.node.Some? <==> a.node.Some? || b.node.Some?) &&
      (r.node.Some? ==> r.node.value !in m.nodes && m'.nodes[r.node.value] == Wired(MatmulRule, a, b))
  {
  }

  /** `Tensor_matmul`: both ranks are at least 2 and the inner sizes agree;
      the result has `self`'s shape with the last used entry replaced by
      `other`'s; entry `i * p + j` is the sum over `k` of
      `self[i * n + k] * other[k * p + j]`; the node, if any, records the
      operands and the matmul rule. */
  lemma MatmulSpec(m: Mem, a: Tensor, b: Tensor)
    requires Wf(m) && Issued(m, a) && Issued(m, b) && MatmulResult(m, a, b).Some?
    ensures MatmulCompatible(a.shape, b.shape)
    ensures var (m', r) := MatmulResult(m, a, b).value;
      var rows, n, p := a.shape[Dim(a.shape) - 2], a.shape[Dim(a.shape) - 1], b.shape[Dim(b.shape) - 1];
      r.shape == MatmulShape(a.shape, b.shape) &&
      |Elems(m', r)| == Numel(r.shape) &&
      (forall i, j :: 0 <= i < rows && 0 <= j < p ==>
        0 <= Offset(i, j, p) < |Elems(m', r)| &&
        Elems(m', r)[Offset(i, j, p)] == Dot(ElemsOrEmpty(m, a), ElemsOrEmpty(m, b), i, j, n, p, n)) &&
      (r.node.Some? <==> a.node.Some? || b.node.Some?) &&
      (r.node.Some? ==> r.node.value !in m.nodes && m'.nodes[r.node.value] == Wired(MatmulRule, a, b))
  {
    MatmulParts(m, a, b);
    var (m', r) := MatmulResult(m, a, b).value;
    var rows, n, p := a.shape[Dim(a.shape) - 2], a.shape[Dim(a.shape) - 1], b.shape[Dim(b.shape) - 1];
    if rows > 0 && p > 0 {
      MatmulCellsSpec(ElemsOrEmpty(m, a), ElemsOrEmpty(m, b), rows, n, p, Numel(r.shape));
    }
  }

  /** The argmax loop's index for column `i` after `j` rows: a row already
      compared, holding the largest value so far, and the first such row. */
  lemma {:induction false} ArgmaxUpToSpec(xs: seq<real>, s: int, i: int, j: int)
    requires 1 <= j
    ensures var best := ArgmaxUpTo(xs, s, i, j);
      0 <= best < j &&
      (forall k :: 0 <= k < j ==> At(xs, k * s + i) <= At(xs, best * s + i)) &&
      (forall k :: 0 <= k < best ==> At(xs, k * s + i) < At(xs, best * s + i))
  {
    if j > 1 {
      ArgmaxUpToSpec(xs, s, i, j - 1);
    }
  }

  /** `Tensor_argmax(self, dim)` returns `shape[dim]` indices, each in
      `[0, shape[dim])`; index `c` names a row holding the largest value of
      column `c`, and no earlier row holds that value. The reads stay inside
      the buffer. */
  lemma ArgmaxSpec(m: Mem, a: Tensor, dim: int)
    requires Wf(m) && ArgmaxResult(m, a, dim).Some?
    ensures 0 <= dim < 4
    ensures var res, s := ArgmaxResult(m, a, dim).value, a.shape[dim];
      |res| == (if s > 0 then s else 0) &&
      (s > 0 ==> Live(m, a) && s * s <= BufNumel(m, a)) &&
      forall c :: 0 <= c < |res| ==>
        0 <= res[c] < s &&
        (forall k :: 0 <= k < s ==> At(ElemsOrEmpty(m, a), k * s + c) <= At(ElemsOrEmpty(m, a), res[c] * s + c)) &&
        (forall k :: 0 <= k < res[c] ==> At(ElemsOrEmpty(m, a), k * s + c) < At(ElemsOrEmpty(m, a), res[c] * s + c))
  {
    var s := a.shape[dim];
    if s > 0 {
      forall c | 0 <= c < s
        ensures var best := ArgmaxUpTo(Elems(m, a), s, c, s);
          0 <= best < s &&
          (forall k :: 0 <= k < s ==> At(Elems(m, a), k * s + c) <= At(Elems(m, a), best * s + c)) &&
          (forall k :: 0 <= k < best ==> At(Elems(m, a), k * s + c) < At(Elems(m, a), best * s + c))
      {
        ArgmaxUpToSpec(Elems(m, a), s, c, s);
      }
    }
  }

  /** `Tensor_mean` ignores `dim`; its result has the input's full shape and,
      when the input has a node, a new zeroed node (no inputs, no rule); its
      first `numel / last` elements are the means of consecutive runs of
      `last` input elements. */
  lemma MeanSpec(m: Mem, a: Tensor, dim: int)
    requires Wf(m) && MeanResult(m, a, dim).Some?
    ensures MeanResult(m, a, dim) == MeanResult(m, a, 0)
    ensures var (m', r) := MeanResult(m, a, dim).value;
      Dim(a.shape) > 0 && Live(m, a) && Live(m', r) &&
      r.shape == a.shape && (r.node.Some? <==> a.node.Some?) &&
      (r.node.Some? ==> r.node.value !in m.nodes && m'.nodes[r.node.value] == ZeroedNode && m'.nodes[r.node.value].nInputs == 0) &&
      var w := a.shape[Dim(a.shape) - 1];
      |Elems(m', r)| == Numel(a.shape) &&
      forall o :: 0 <= o < OuterCount(BufNumel(m, a), w) ==>
        Elems(m', r)[o] == RowSum(Elems(m, a), o, w, w) / (w as real)
  {
  }

  /** `GradFn_add` gives a node-less tensor of ones with the input's shape. */
  lemma GradFnAddOnes(m: Mem, self: Tensor, i: int)
    requires Wf(m) && GradFnResult(m, self, i).Some?
    requires m.nodes[self.node.value].gradFn == AddRule
    ensures var (m', r) := GradFnResult(m, self, i).value;
      var input := m.nodes[self.node.value].inputs[i];
      r.shape == input.shape && r.node.None? && |Elems(m', r)| == Numel(input.shape) &&
      forall q :: 0 <= q < |Elems(m', r)| ==> Elems(m', r)[q] == 1.0
  {
  }

  /** `GradFn_mul(self, i)` gives the other input detached: the same buffer
      and shape, no node, one more reference. */
  lemma GradFnMulDetached(m: Mem, self: Tensor, i: int)
    requires Wf(m) && GradFnResult(m, self, i).Some?
    requires m.nodes[self.node.value].gradFn == MulRule
    ensures var (m', r) := GradFnResult(m, self, i).value;
      var other := m.nodes[self.node.value].inputs[1 - i];
      Live(m, other) && r.shape == other.shape && r.data == other.data && r.node.None? &&
      m'.buffers[r.data.value].refcount == m.buffers[other.data.value].refcount + 1
  {
    DetachShares(m, m.nodes[self.node.value].inputs[1 - i]);
  }

  /** `GradFn_matmul(self, i)` gives the node-less product of input `i` and
      input `1 - i`, in that order. */
  lemma GradFnMatmulProduct(m: Mem, self: Tensor, i: int)
    requires Wf(m) && GradFnResult(m, self, i).Some?
    requires m.nodes[self.node.value].gradFn == MatmulRule
    ensures var (m', r) := GradFnResult(m, self, i).value;
      var x, y := m.nodes[self.node.value].inputs[i], m.nodes[self.node.value].inputs[1 - i];
      MatmulCompatible(x.shape, y.shape) && r.shape == MatmulShape(x.shape, y.shape) && r.node.None? &&
      var rows, n, p := x.shape[Dim(x.shape) - 2], x.shape[Dim(x.shape) - 1], y.shape[Dim(y.shape) - 1];
      forall i', j :: 0 <= i' < rows && 0 <= j < p ==>
        0 <= Offset(i', j, p) < |Elems(m', r)| &&
        Elems(m', r)[Offset(i', j, p)] == Dot(ElemsOrEmpty(m, x), ElemsOrEmpty(m, y), i', j, n, p, n)
  {
    var g := m.nodes[self.node.value];
    var x, y := g.inputs[i], g.inputs[1 - i];
    var (m1, x1) := DetachResult(m, x).value;
    var (m2, y1) := DetachResult(m1, y).value;
    DetachShares(m, x);
    DetachShares(m1, y);
    MatmulSpec(m2, x1, y1);
    assert ElemsOrEmpty(m2, x1) == ElemsOrEmpty(m, x);
    assert ElemsOrEmpty(m2, y1) == ElemsOrEmpty(m, y);
  }
}
