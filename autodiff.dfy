// Reverse-mode differentiation: `Tensor_backward` (src/basic.c:52-69).
//
// Backward stores or accumulates the incoming gradient in the tensor's node
// and then walks the node's inputs in index order. The gradient handed to
// input `i` is the running product of the incoming gradient and the local
// derivatives of inputs `0 .. i`, because the loop reassigns `grad` on every
// iteration; the model keeps that behaviour.

module Autodiff {
  import opened Shapes
  import opened Wrappers
  import opened Memory
  import opened Basic
  import opened Operators

  /** What termination is measured by: a tensor's node address, plus one. */
  function Rank(t: Tensor): nat
  {
    if t.node.Some? then t.node.value + 1 else 0
  }

  /** `Tensor_backward(self, grad)`. Nothing happens without a node. A NULL
      seed is replaced by a one-element tensor of 1, which requires `self`
      to hold exactly one element; the seed must not have a node. The seed is
      stored as the node's gradient, or added to the gradient already there,
      and then the inputs are visited. None when an assertion fails or memory
      is used after it was freed. */
  function BackwardResult(m: Mem, self: Tensor, grad: Tensor): (r: Option<Mem>)
    requires Wf(m) && Issued(m, self) && Issued(m, grad)
    ensures r.Some? ==> Wf(r.value) && Extends(m, r.value) && GraphKept(m, r.value)
    decreases Rank(self), 2, 0
  {
    if self.node.None? then Some(m)
    else if self.node.value !in m.nodes then None
    else if grad.data.None? && !(Live(m, self) && BufNumel(m, self) == 1) then None
    else
      var (m1, g) := if grad.data.None? then FilledResult(m, 1, Scalar, false, 1.0) else (m, grad);
      if g.node.Some? then None
      else
        var stored := Accumulate(m1, self.node.value, g);
        if stored.None? then None
        else
          var r := BackwardInputs(stored.value, self, g, 0);
          if r.None? then None
          else
            GrowsTransitive(m1, stored.value, r.value);
            GrowsTransitive(m, m1, r.value);
            r
  }

  /** `self.node->grad = grad` when no gradient is present, otherwise
      `self.node->grad = Tensor_add(self.node->grad, grad)`. */
  function Accumulate(m: Mem, n: NodeRef, g: Tensor): (r: Option<Mem>)
    requires Wf(m) && n in m.nodes && Issued(m, g) && g.node.None?
    ensures r.Some? ==> Wf(r.value) && Extends(m, r.value) && GraphKept(m, r.value) && n in r.value.nodes
  {
    var prev := GradOf(m, n);
    if prev.data.None? then
      StoreGradKeeps(m, n, g);
      Some(WithNode(m, n, m.nodes[n].(grad := g)))
    else
      match AddResult(m, prev, g)
      case None => None
      case Some((m1, s)) =>
        SumWithoutNode(m, prev, g);
        StoreGradKeeps(m1, n, s);
        GrowsTransitive(m, m1, WithNode(m1, n, m1.nodes[n].(grad := s)));
        Some(WithNode(m1, n, m1.nodes[n].(grad := s)))
  }

  /** The sum of two tensors without nodes has no node either. */
  lemma SumWithoutNode(m: Mem, a: Tensor, b: Tensor)
    requires Wf(m) && Issued(m, a) && Issued(m, b) && AddResult(m, a, b).Some?
    requires a.node.None? && b.node.None?
    ensures AddResult(m, a, b).value.1.node.None?
  {
    AddWiring(m, a, b);
  }

  /** One iteration's products: `grad_fn(self, i)`, then `Tensor_mul` of the
      running gradient and that derivative. */
  function InputGrad(m: Mem, self: Tensor, grad: Tensor, i: int): (r: Option<(Mem, Tensor)>)
    requires Wf(m) && Issued(m, grad)
    ensures r.Some? ==> Wf(r.value.0) && Extends(m, r.value.0) && NodesKept(m, r.value.0)
    ensures r.Some? ==> Issued(r.value.0, r.value.1) && Live(r.value.0, r.value.1)
  {
    match GradFnResult(m, self, i)
    case None => None
    case Some((m1, d)) => MulResult(m1, grad, d)
  }

  /** The loop of `Tensor_backward` from input `i` on, with `grad` the
      gradient as the loop has left it: input `i` gets
      `grad * grad_fn(self, i)`, and that product becomes `grad`. */
  function BackwardInputs(m: Mem, self: Tensor, grad: Tensor, i: int): (r: Option<Mem>)
    requires Wf(m) && self.node.Some? && self.node.value in m.nodes && Issued(m, grad) && 0 <= i <= 4
    ensures r.Some? ==> Wf(r.value) && Extends(m, r.value) && GraphKept(m, r.value)
    decreases Rank(self), 1, 4 - i
  {
    var n := self.node.value;
    if i >= m.nodes[n].nInputs then Some(m)
    else
      match InputGrad(m, self, grad, i)
      case None => None
      case Some((m2, g)) =>
        var input := m2.nodes[n].inputs[i];
        assert NodeOk(n, m2.nodes[n]) && NodeIssued(m2, m2.nodes[n]);
        match BackwardResult(m2, input, g)
        case None => None
        case Some(m3) =>
          var r := BackwardInputs(m3, self, g, i + 1);
          if r.None? then None
          else
            GrowsTransitive(m2, m3, r.value);
            GrowsTransitive(m, m2, r.value);
            r
  }

  /** `Tensor_backward`. */
  method Backward(h: Heap, self: Tensor, grad: Tensor)
    requires h.Valid() && Issued(h.State(), self) && Issued(h.State(), grad)
    requires BackwardResult(h.State(), self, grad).Some?
    modifies h
    ensures h.Valid()
    ensures Some(h.State()) == BackwardResult(old(h.State()), self, grad)
    decreases Rank(self), 2, 0
  {
    if self.node.None? {
      return;
    }
    ghost var m0 := h.State();
    var g := grad;
    if grad.data.None? {
      g := TensorOnes(h, 1, Scalar, false);
    }
    assert (h.State(), g) == if grad.data.None? then FilledResult(m0, 1, Scalar, false, 1.0) else (m0, grad);
    StoreGrad(h, self.node.value, g);
    BackwardLoop(h, self, g);
  }

  /** Stores or accumulates the gradient `g` in node `n`. */
  method StoreGrad(h: Heap, n: NodeRef, g: Tensor)
    requires h.Valid() && n in h.nodes && Issued(h.State(), g) && g.node.None?
    requires Accumulate(h.State(), n, g).Some?
    modifies h
    ensures h.Valid()
    ensures Some(h.State()) == Accumulate(old(h.State()), n, g)
  {
    var prev := h.nodes[n].grad;
    if prev.data.None? {
      SetGrad(h, n, g);
    } else {
      AddWiring(h.State(), prev, g);
      var sum := TensorAdd(h, prev, g);
      SetGrad(h, n, sum);
    }
  }

  /** The loop over the inputs of `self`'s node. */
  method BackwardLoop(h: Heap, self: Tensor, grad: Tensor)
    requires h.Valid() && self.node.Some? && self.node.value in h.nodes && Issued(h.State(), grad)
    requires BackwardInputs(h.State(), self, grad, 0).Some?
    modifies h
    ensures h.Valid()
    ensures Some(h.State()) == BackwardInputs(old(h.State()), self, grad, 0)
    decreases Rank(self), 1, 4
  {
    var n := self.node.value;
    var g := grad;
    var i := 0;
    while i < h.nodes[n].nInputs
      invariant 0 <= i <= 4 && h.Valid() && n in h.nodes && Issued(h.State(), g)
      invariant BackwardInputs(old(h.State()), self, grad, 0) == BackwardInputs(h.State(), self, g, i)
      decreases 4 - i
    {
      var d := CallGradFn(h, self, i);
      g := TensorMul(h, g, d);
      var input := h.nodes[n].inputs[i];
      assert NodeOk(n, h.nodes[n]) && NodeIssued(h.State(), h.nodes[n]);
      Backward(h, input, g);
      i := i + 1;
    }
  }

  // ---------------------------------------------------------------------
  // Properties.

  /** Backward on a tensor without a node changes nothing. */
  lemma BackwardWithoutNode(m: Mem, self: Tensor, grad: Tensor)
    requires Wf(m) && Issued(m, self) && Issued(m, grad) && self.node.None?
    ensures BackwardResult(m, self, grad) == Some(m)
  {
  }

  /** Backward with a NULL seed aborts unless `self` holds exactly one
      element, and a seed with a node always aborts. */
  lemma BackwardSeedRules(m: Mem, self: Tensor, grad: Tensor)
    requires Wf(m) && Issued(m, self) && Issued(m, grad) && self.node.Some?
    ensures grad.data.None? && !(Live(m, self) && BufNumel(m, self) == 1) ==> BackwardResult(m, self, grad).None?
    ensures grad.data.Some? && grad.node.Some? ==> BackwardResult(m, self, grad).None?
  {
  }

  /** Backward with a NULL seed into a one-element tensor is backward with
      a new node-less tensor of shape `{0}` holding the single value 1. */
  lemma NullSeedIsOne(m: Mem, self: Tensor)
    requires Wf(m) && Issued(m, self) && self.node.Some? && self.node.value in m.nodes
    requires Live(m, self) && BufNumel(m, self) == 1
    ensures var (m1, one) := FilledResult(m, 1, Scalar, false, 1.0);
      Wf(m1) && Issued(m1, self) && Issued(m1, one) &&
      one.shape == Scalar && one.node.None? && Live(m1, one) && Elems(m1, one) == [1.0] &&
      BackwardResult(m, self, NullTensor) == BackwardResult(m1, self, one)
  {
    var (m1, one) := FilledResult(m, 1, Scalar, false, 1.0);
    assert Elems(m1, one) == [1.0];
  }

  /** Backward with a NULL seed into a one-element leaf without a gradient
      stores a tensor holding the single value 1 as its gradient. */
  lemma NullSeedLeaf(m: Mem, leaf: Tensor) returns (m': Mem, g: Tensor)
    requires Wf(m) && Issued(m, leaf) && Leaf(m, leaf) && Live(m, leaf) && BufNumel(m, leaf) == 1
    requires GradOf(m, leaf.node.value).data.None?
    ensures BackwardResult(m, leaf, NullTensor) == Some(m')
    ensures leaf.node.value in m'.nodes && GradOf(m', leaf.node.value) == g
    ensures Live(m', g) && g.shape == Scalar && g.node.None? && Elems(m', g) == [1.0]
  {
    NullSeedIsOne(m, leaf);
    var (m1, one) := FilledResult(m, 1, Scalar, false, 1.0);
    LeafFirstStore(m1, leaf, one);
    m' := WithNode(m1, leaf.node.value, m1.nodes[leaf.node.value].(grad := one));
    g := one;
  }

  /** A node without inputs, such as a parameter's. */
  predicate Leaf(m: Mem, t: Tensor)
  {
    t.node.Some? && t.node.value in m.nodes && m.nodes[t.node.value].nInputs == 0
  }

  /** The first backward into a leaf stores the seed as its gradient. */
  lemma LeafFirstStore(m: Mem, leaf: Tensor, g: Tensor)
    requires Wf(m) && Issued(m, leaf) && Issued(m, g) && Leaf(m, leaf)
    requires GradOf(m, leaf.node.value).data.None? && g.data.Some? && g.node.None?
    ensures BackwardResult(m, leaf, g) == Some(WithNode(m, leaf.node.value, m.nodes[leaf.node.value].(grad := g)))
  {
  }

  /** A later backward into a leaf replaces its gradient with the sum of the
      old gradient and the seed. */
  lemma LeafAccumulates(m: Mem, leaf: Tensor, g: Tensor)
    requires Wf(m) && Issued(m, leaf) && Issued(m, g) && Leaf(m, leaf)
    requires GradOf(m, leaf.node.value).data.Some? && g.data.Some? && g.node.None?
    ensures var n := leaf.node.value;
      BackwardResult(m, leaf, g) ==
        match AddResult(m, GradOf(m, n), g)
        case None => None
        case Some((m1, s)) => Some(WithNode(m1, n, m1.nodes[n].(grad := s)))
  {
    var n := leaf.node.value;
    var r := Accumulate(m, n, g);
    assert BackwardResult(m, leaf, g) == if r.None? then None else BackwardInputs(r.value, leaf, g, 0);
  }

  /** Backward twice with the same seed `g` into a leaf without a gradient
      leaves `g + g` there. */
  lemma BackwardTwice(m: Mem, leaf: Tensor, g: Tensor)
    requires Wf(m) && Issued(m, leaf) && Issued(m, g) && Leaf(m, leaf)
    requires GradOf(m, leaf.node.value).data.None?
    requires Live(m, g) && g.node.None? && BufNumel(m, g) == Numel(g.shape)
    ensures BackwardResult(m, leaf, g).Some?
    ensures var m1 := BackwardResult(m, leaf, g).value;
      Issued(m1, leaf) && Issued(m1, g) && BackwardResult(m1, leaf, g).Some? &&
      var m2 := BackwardResult(m1, leaf, g).value;
      var sum := GradOf(m2, leaf.node.value);
      Live(m2, sum) && |Elems(m2, sum)| == |Elems(m, g)| &&
      forall q :: 0 <= q < |Elems(m, g)| ==> Elems(m2, sum)[q] == Elems(m, g)[q] + Elems(m, g)[q]
  {
    var n := leaf.node.value;
    LeafFirstStore(m, leaf, g);
    var m1 := BackwardResult(m, leaf, g).value;
    assert GradOf(m1, n) == g && Live(m1, g) && Elems(m1, g) == Elems(m, g);
    LeafAccumulates(m1, leaf, g);
    AddOfEqualShapes(m1, g, g);
    ElemwiseSpec(m1, AddRule, g, g);
  }

  /** For a node made by `Tensor_mul`, one loop iteration multiplies the
      running gradient element-wise by the other input's values (the
      derivative `GradFn_mul` returns), giving a node-less tensor. It is
      defined whenever the buffers are live and long enough. */
  lemma MulInputGrad(m: Mem, self: Tensor, grad: Tensor, i: int)
    requires Wf(m) && Issued(m, grad) && self.node.Some? && self.node.value in m.nodes
    requires m.nodes[self.node.value].gradFn == MulRule && 0 <= i <= 1
    requires var o := m.nodes[self.node.value].inputs[1 - i];
      Live(m, grad) && Live(m, o) && grad.node.None? && Numel(grad.shape) >= 0 &&
      BufNumel(m, grad) <= Numel(grad.shape) && BufNumel(m, grad) <= BufNumel(m, o)
    ensures InputGrad(m, self, grad, i).Some?
    ensures var (m', g) := InputGrad(m, self, grad, i).value;
      var o := m.nodes[self.node.value].inputs[1 - i];
      g.node.None? && g.shape == grad.shape && |Elems(m', g)| == Numel(grad.shape) &&
      forall q :: 0 <= q < BufNumel(m, grad) ==> Elems(m', g)[q] == Elems(m, grad)[q] * Elems(m, o)[q]
  {
    var o := m.nodes[self.node.value].inputs[1 - i];
    DetachShares(m, o);
    var (m1, d) := DetachResult(m, o).value;
    assert GradFnResult(m, self, i) == Some((m1, d));
    assert Elems(m1, grad) == Elems(m, grad) && Elems(m1, d) == Elems(m, o);
    ElemwiseSpec(m1, MulRule, grad, d);
  }

  /** The first `n` element-wise products of `xs` and `ys`. */
  function Products(xs: seq<real>, ys: seq<real>, n: nat): (r: seq<real>)
    requires n <= |xs| && n <= |ys|
    ensures |r| == n && forall q :: 0 <= q < n ==> r[q] == xs[q] * ys[q]
  {
    seq(n, q requires 0 <= q < n => xs[q] * ys[q])
  }

  /** `MulInputGrad` for a seed whose buffer is exactly as long as its
      shape, stated on the whole buffer. */
  lemma MulGradProducts(m: Mem, self: Tensor, grad: Tensor, i: int) returns (m': Mem, g: Tensor)
    requires Wf(m) && Issued(m, grad) && self.node.Some? && self.node.value in m.nodes
    requires m.nodes[self.node.value].gradFn == MulRule && 0 <= i <= 1
    requires var o := m.nodes[self.node.value].inputs[1 - i];
      Live(m, grad) && Live(m, o) && grad.node.None? && BufNumel(m, grad) == Numel(grad.shape) &&
      BufNumel(m, grad) <= BufNumel(m, o)
    ensures InputGrad(m, self, grad, i) == Some((m', g))
    ensures g.node.None? && g.shape == grad.shape && Live(m', g) &&
      Elems(m', g) == Products(Elems(m, grad), Elems(m, m.nodes[self.node.value].inputs[1 - i]), BufNumel(m, grad))
  {
    MulInputGrad(m, self, grad, i);
    m', g := InputGrad(m, self, grad, i).value.0, InputGrad(m, self, grad, i).value.1;
  }

  /** A tensor backward leaves alone or whose gradient it stores: one
      without a node, or a leaf without a gradient. */
  predicate Fresh(m: Mem, t: Tensor)
  {
    t.node.None? || (Leaf(m, t) && GradOf(m, t.node.value).data.None?)
  }

  /** One unfolding of backward: store the seed, then run the loop. */
  lemma BackwardUnfold(m: Mem, self: Tensor, g: Tensor)
    requires Wf(m) && Issued(m, self) && Issued(m, g) && self.node.Some? && self.node.value in m.nodes
    requires g.data.Some? && g.node.None?
    ensures var r := Accumulate(m, self.node.value, g);
      BackwardResult(m, self, g) == if r.None? then None else BackwardInputs(r.value, self, g, 0)
  {
  }

  /** One iteration of the backward loop. */
  lemma InputsStep(m: Mem, self: Tensor, g: Tensor, i: int)
    requires Wf(m) && self.node.Some? && self.node.value in m.nodes && Issued(m, g) && 0 <= i < m.nodes[self.node.value].nInputs
    requires InputGrad(m, self, g, i).Some?
    ensures var (m2, g2) := InputGrad(m, self, g, i).value;
      var input := m.nodes[self.node.value].inputs[i];
      Issued(m2, input) && Issued(m2, g2) &&
      var r := BackwardResult(m2, input, g2);
      BackwardInputs(m, self, g, i) == if r.None? then None else BackwardInputs(r.value, self, g2, i + 1)
  {
    var n := self.node.value;
    var (m2, g2) := InputGrad(m, self, g, i).value;
    assert m2.nodes[n] == m.nodes[n];
    assert NodeIssued(m2, m2.nodes[n]);
  }

  /** The backward loop stops after the last input. */
  lemma InputsDone(m: Mem, self: Tensor, g: Tensor, i: int)
    requires Wf(m) && self.node.Some? && self.node.value in m.nodes && Issued(m, g) && 0 <= i <= 4
    requires i >= m.nodes[self.node.value].nInputs
    ensures BackwardInputs(m, self, g, i) == Some(m)
  {
  }

  /** Backward into a tensor that `Fresh` describes: nothing happens without
      a node, and a leaf stores the seed. Only that leaf's node changes. */
  lemma FreshBackward(m: Mem, t: Tensor, g: Tensor)
    requires Wf(m) && Issued(m, t) && Issued(m, g) && Fresh(m, t) && g.data.Some? && g.node.None?
    ensures BackwardResult(m, t, g).Some?
    ensures var m' := BackwardResult(m, t, g).value;
      Wf(m') && Extends(m, m') && GraphKept(m, m') && m'.buffers == m.buffers &&
      (forall k :: k in m.nodes && (t.node.None? || k != t.node.value) ==> k in m'.nodes && m'.nodes[k] == m.nodes[k]) &&
      (t.node.Some? ==> t.node.value in m'.nodes && GradOf(m', t.node.value) == g)
  {
    if t.node.Some? {
      LeafFirstStore(m, t, g);
      StoreGradKeeps(m, t.node.value, g);
    }
  }

  /** The first iteration of the loop for `c = Tensor_mul(x, y)`: `x` is
      handed `s * y` and, if it has a node, stores it. */
  lemma MulFirstInput(m1: Mem, c: Tensor, s: Tensor) returns (m3: Mem, g1: Tensor)
    requires Wf(m1) && Issued(m1, s) && c.node.Some? && c.node.value in m1.nodes
    requires var g := m1.nodes[c.node.value]; g.gradFn == MulRule && g.nInputs == 2
    requires var x, y := m1.nodes[c.node.value].inputs[0], m1.nodes[c.node.value].inputs[1];
      Live(m1, x) && Live(m1, y) && Fresh(m1, x) && Fresh(m1, y) &&
      (x.node.Some? && y.node.Some? ==> x.node.value != y.node.value) &&
      Live(m1, s) && s.node.None? && BufNumel(m1, s) == Numel(s.shape) &&
      BufNumel(m1, s) <= BufNumel(m1, x) && BufNumel(m1, s) <= BufNumel(m1, y)
    ensures Wf(m3) && Extends(m1, m3) && c.node.value in m3.nodes && m3.nodes[c.node.value] == m1.nodes[c.node.value]
    ensures Issued(m3, g1) && Live(m3, g1) && g1.node.None? && g1.shape == s.shape
    ensures BackwardInputs(m1, c, s, 0) == BackwardInputs(m3, c, g1, 1)
    ensures var x, y := m1.nodes[c.node.value].inputs[0], m1.nodes[c.node.value].inputs[1];
      Fresh(m3, y) && (x.node.Some? ==> x.node.value in m3.nodes && GradOf(m3, x.node.value) == g1) &&
      Elems(m3, g1) == Products(Elems(m1, s), Elems(m1, y), BufNumel(m1, s))
  {
    var n := c.node.value;
    var x, y := m1.nodes[n].inputs[0], m1.nodes[n].inputs[1];
    var m2;
    m2, g1 := MulGradProducts(m1, c, s, 0);
    InputsStep(m1, c, s, 0);
    assert Fresh(m2, x) && Fresh(m2, y);
    FreshBackward(m2, x, g1);
    m3 := BackwardResult(m2, x, g1).value;
    assert Elems(m3, g1) == Elems(m2, g1);
  }

  /** The second iteration of the loop for `c = Tensor_mul(x, y)`: `y` is
      handed the running gradient times `x` and, if it has a node, stores
      it; the loop then ends. */
  lemma MulSecondInput(m3: Mem, c: Tensor, g1: Tensor) returns (m5: Mem, g2: Tensor)
    requires Wf(m3) && Issued(m3, g1) && c.node.Some? && c.node.value in m3.nodes
    requires var g := m3.nodes[c.node.value]; g.gradFn == MulRule && g.nInputs == 2
    requires var x, y := m3.nodes[c.node.value].inputs[0], m3.nodes[c.node.value].inputs[1];
      Live(m3, x) && Fresh(m3, y) &&
      Live(m3, g1) && g1.node.None? && BufNumel(m3, g1) == Numel(g1.shape) && BufNumel(m3, g1) <= BufNumel(m3, x)
    ensures BackwardInputs(m3, c, g1, 1) == Some(m5)
    ensures Extends(m3, m5) && Live(m5, g2)
    ensures var x, y := m3.nodes[c.node.value].inputs[0], m3.nodes[c.node.value].inputs[1];
      (forall k :: k in m3.nodes && (y.node.None? || k != y.node.value) ==> k in m5.nodes && m5.nodes[k] == m3.nodes[k]) &&
      (y.node.Some? ==> y.node.value in m5.nodes && GradOf(m5, y.node.value) == g2) &&
      Elems(m5, g2) == Products(Elems(m3, g1), Elems(m3, x), BufNumel(m3, g1))
  {
    var n := c.node.value;
    var x, y := m3.nodes[n].inputs[0], m3.nodes[n].inputs[1];
    var m4;
    m4, g2 := MulGradProducts(m3, c, g1, 1);
    InputsStep(m3, c, g1, 1);
    assert Fresh(m4, y);
    FreshBackward(m4, y, g2);
    m5 := BackwardResult(m4, y, g2).value;
    InputsDone(m5, c, g2, 2);
    assert Elems(m5, g2) == Elems(m4, g2);
  }

  /** Backward through `c = Tensor_mul(x, y)` with seed `s`: `x` receives
      `s * y`, and, because the loop reassigns `grad`, `y` receives
      `(s * y) * x` rather than `s * x`. */
  lemma MulBackwardCumulative(m: Mem, c: Tensor, s: Tensor)
    requires Wf(m) && Issued(m, c) && Issued(m, s)
    requires c.node.Some? && c.node.value in m.nodes && GradOf(m, c.node.value).data.None?
    requires var g := m.nodes[c.node.value]; g.gradFn == MulRule && g.nInputs == 2
    requires var x, y := m.nodes[c.node.value].inputs[0], m.nodes[c.node.value].inputs[1];
      Live(m, x) && Live(m, y) && Fresh(m, x) && Fresh(m, y) &&
      (x.node.Some? && y.node.Some? ==> x.node.value != y.node.value)
    requires var x, y := m.nodes[c.node.value].inputs[0], m.nodes[c.node.value].inputs[1];
      Live(m, s) && s.node.None? && BufNumel(m, s) == Numel(s.shape) &&
      BufNumel(m, s) <= BufNumel(m, x) && BufNumel(m, s) <= BufNumel(m, y)
    ensures BackwardResult(m, c, s).Some?
    ensures var m' := BackwardResult(m, c, s).value;
      var x, y := m.nodes[c.node.value].inputs[0], m.nodes[c.node.value].inputs[1];
      var n := BufNumel(m, s);
      var sy := Products(Elems(m, s), Elems(m, y), n);
      (x.node.Some? ==> var gx := GradOf(m', x.node.value);
        Live(m', gx) && Elems(m', gx) == sy) &&
      (y.node.Some? ==> var gy := GradOf(m', y.node.value);
        Live(m', gy) && Elems(m', gy) == Products(sy, Elems(m, x), n))
  {
    var n := c.node.value;
    var x, y := m.nodes[n].inputs[0], m.nodes[n].inputs[1];
    assert NodeOk(n, m.nodes[n]) && Below(x, n) && Below(y, n);
    StoreGradKeeps(m, n, s);
    var m1 := WithNode(m, n, m.nodes[n].(grad := s));
    assert Accumulate(m, n, s) == Some(m1);
    BackwardUnfold(m, c, s);
    assert m1.buffers == m.buffers && m1.nodes[n].inputs == m.nodes[n].inputs;
    assert Fresh(m1, x) && Fresh(m1, y);
    var m3, g1 := MulFirstInput(m1, c, s);
    var m5, g2 := MulSecondInput(m3, c, g1);
    assert BackwardResult(m, c, s) == Some(m5);
    assert Elems(m3, x) == Elems(m, x) && Elems(m1, y) == Elems(m, y) && Elems(m1, s) == Elems(m, s);
    if x.node.Some? {
      assert GradOf(m5, x.node.value) == g1 && Elems(m5, g1) == Elems(m3, g1);
    }
  }

  /** The first `n` values of `xs`, each multiplied by `f`. */
  function Scaled(xs: seq<real>, f: real, n: nat): (r: seq<real>)
    requires n <= |xs|
    ensures |r| == n && forall q :: 0 <= q < n ==> r[q] == xs[q] * f
  {
    seq(n, q requires 0 <= q < n => xs[q] * f)
  }

  lemma ProductsByConstant(xs: seq<real>, f: real, k: nat, n: nat)
    requires n <= |xs| && n <= k
    ensures Products(xs, seq(k, _ => f), n) == Scaled(xs, f, n)
  {
    var ys := seq(k, _ => f);
    assert forall q :: 0 <= q < n ==> Products(xs, ys, n)[q] == xs[q] * ys[q] == Scaled(xs, f, n)[q];
  }

  /** How `Tensor_mulf(a, f)` is wired: a new node with rule `GradFn_mul`
      whose inputs are `a` and a node-less tensor holding `f` everywhere. */
  lemma MulfWiring(m: Mem, a: Tensor, f: real) returns (m1: Mem, b: Tensor, tmp: Tensor)
    requires Wf(m) && Issued(m, a) && Live(m, a) && a.node.Some? && BufNumel(m, a) == Numel(a.shape)
    ensures MulfResult(m, a, f) == Some((m1, b))
    ensures Wf(m1) && NodesKept(m, m1) && Extends(m, m1) && Issued(m1, b) && Live(m1, tmp) && tmp.node.None?
    ensures b.node.Some? && b.node.value in m1.nodes && m1.nodes[b.node.value] == Wired(MulRule, a, tmp)
    ensures Elems(m1, tmp) == seq(Numel(a.shape), _ => f) && BufNumel(m1, tmp) == Numel(a.shape)
  {
    var m0;
    m0, tmp := FilledResult(m, Numel(a.shape), a.shape, false, f).0, FilledResult(m, Numel(a.shape), a.shape, false, f).1;
    assert Live(m0, a) && BufNumel(m0, a) == BufNumel(m, a);
    ElemwiseSpec(m0, MulRule, a, tmp);
    m1, b := MulfResult(m, a, f).value.0, MulfResult(m, a, f).value.1;
    assert Elems(m1, tmp) == Elems(m0, tmp);
  }

  /** The program of src2/main.c, for any factor `f` and seed `s`: after
      `b = Tensor_mulf(a, f)` on a leaf `a` without a gradient, backward from
      `b` with seed `s` leaves `s * f` as the gradient of `a`. */
  lemma MulfBackward(m: Mem, a: Tensor, f: real, s: Tensor) returns (m1: Mem, b: Tensor, m2: Mem)
    requires Wf(m) && Issued(m, a) && Leaf(m, a) && GradOf(m, a.node.value).data.None?
    requires Live(m, a) && BufNumel(m, a) == Numel(a.shape)
    requires Issued(m, s) && Live(m, s) && s.node.None? && BufNumel(m, s) == Numel(s.shape) <= Numel(a.shape)
    ensures MulfResult(m, a, f) == Some((m1, b))
    ensures Wf(m1) && Issued(m1, b) && Issued(m1, s) && BackwardResult(m1, b, s) == Some(m2)
    ensures a.node.value in m2.nodes && Live(m2, GradOf(m2, a.node.value))
    ensures Elems(m2, GradOf(m2, a.node.value)) == Scaled(Elems(m, s), f, BufNumel(m, s))
  {
    var tmp;
    m1, b, tmp := MulfWiring(m, a, f);
    assert m1.nodes[a.node.value] == m.nodes[a.node.value];
    assert Elems(m1, s) == Elems(m, s) && BufNumel(m1, s) == BufNumel(m, s);
    assert BufNumel(m1, a) == BufNumel(m, a);
    MulBackwardCumulative(m1, b, s);
    m2 := BackwardResult(m1, b, s).value;
    var ga := GradOf(m2, a.node.value);
    assert Elems(m2, ga) == Products(Elems(m1, s), Elems(m1, tmp), BufNumel(m1, s));
    ProductsByConstant(Elems(m, s), f, Numel(a.shape), BufNumel(m, s));
  }
}
