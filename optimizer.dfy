// Stochastic gradient descent (src/optimizer.c:9-52).
//
// `optim_sgd` holds a parameter array, a learning rate and a momentum; its
// fields change in place, so it is a class. `optim_sgd_zerograd` and
// `optim_sgd_step` walk the first `n_params` parameters and update the heap;
// each is a method proved against a fold over those parameters
// (`ZeroGradFrom`, `StepFrom`) that yields None where the C code aborts or
// dereferences a NULL or freed pointer.

module Optimizer {
  import opened Shapes
  import opened Wrappers
  import opened Memory
  import opened Basic

  /** `xs` after `flex[j] -= lr * grad[j]` for every `j < |xs|`. */
  function Descended(xs: seq<real>, gs: seq<real>, lr: real): (r: seq<real>)
    requires |xs| <= |gs|
    ensures |r| == |xs|
  {
    seq(|xs|, j requires 0 <= j < |xs| => xs[j] - lr * gs[j])
  }

  /** `xs` with its first `c` values descended and the rest as they were. */
  function DescendedUpTo(xs: seq<real>, gs: seq<real>, lr: real, c: int): (r: seq<real>)
    requires |xs| <= |gs|
    ensures |r| == |xs|
  {
    seq(|xs|, j requires 0 <= j < |xs| => if j < c then xs[j] - lr * gs[j] else xs[j])
  }

  lemma DescendOneMore(xs: seq<real>, gs: seq<real>, lr: real, j: int)
    requires 0 <= j < |xs| <= |gs|
    ensures DescendedUpTo(xs, gs, lr, j)[j := xs[j] - lr * gs[j]] == DescendedUpTo(xs, gs, lr, j + 1)
  {
    var a, b := DescendedUpTo(xs, gs, lr, j)[j := xs[j] - lr * gs[j]], DescendedUpTo(xs, gs, lr, j + 1);
    forall k | 0 <= k < |xs|
      ensures a[k] == b[k]
    {
      if k < j {
        assert a[k] == xs[k] - lr * gs[k];
      }
    }
  }

  /** Every value is zero. */
  predicate AllZero(xs: seq<real>)
  {
    forall j :: 0 <= j < |xs| ==> xs[j] == 0.0
  }

  /** One iteration of `optim_sgd_zerograd`: a parameter with a node that
      holds a gradient gets a fresh zero tensor of its shape as gradient. The
      old gradient is not released. */
  function ZeroOne(m: Mem, t: Tensor): (r: Option<Mem>)
    requires Wf(m)
    ensures r.Some? ==> Wf(r.value) && Extends(m, r.value) && GraphKept(m, r.value)
  {
    if t.node.None? then Some(m)
    else if t.node.value !in m.nodes then None
    else if GradOf(m, t.node.value).data.None? then Some(m)
    else if Numel(t.shape) < 0 then None
    else
      var (m1, z) := FilledResult(m, Numel(t.shape), t.shape, false, 0.0);
      StoreGradKeeps(m1, t.node.value, z);
      GrowsTransitive(m, m1, WithNode(m1, t.node.value, m1.nodes[t.node.value].(grad := z)));
      Some(WithNode(m1, t.node.value, m1.nodes[t.node.value].(grad := z)))
  }

  /** `optim_sgd_zerograd` from parameter `i` up to parameter `n`. */
  function ZeroGradFrom(m: Mem, ps: seq<Tensor>, i: nat, n: nat): (r: Option<Mem>)
    requires Wf(m) && i <= n <= |ps|
    ensures r.Some? ==> Wf(r.value) && Extends(m, r.value) && GraphKept(m, r.value)
    decreases n - i
  {
    if i == n then Some(m)
    else match ZeroOne(m, ps[i])
      case None => None
      case Some(m1) =>
        var r := ZeroGradFrom(m1, ps, i + 1, n);
        if r.Some? then GrowsTransitive(m, m1, r.value); r else r
  }

  /** One iteration of `optim_sgd_step`: aborts unless the momentum is zero
      and the parameter has a node with a gradient, then moves every value of
      the parameter's buffer against its gradient. */
  function StepOne(m: Mem, t: Tensor, lr: real, momentum: real): (r: Option<Mem>)
    requires Wf(m)
    ensures r.Some? ==> Wf(r.value) && r.value.nodes == m.nodes && r.value.nextBuffer == m.nextBuffer
    ensures r.Some? ==> r.value.nextNode == m.nextNode && r.value.buffers.Keys == m.buffers.Keys
  {
    if momentum != 0.0 || t.node.None? || t.node.value !in m.nodes then None
    else
      var g := GradOf(m, t.node.value);
      if !Live(m, g) || !Live(m, t) || BufNumel(m, g) < BufNumel(m, t) then None
      else
        assert BufferOk(m.buffers[t.data.value]) && BufferOk(m.buffers[g.data.value]);
        Some(WithElems(m, t.data.value, Descended(Elems(m, t), Elems(m, g), lr)))
  }

  /** `optim_sgd_step` from parameter `i` up to parameter `n`. */
  function StepFrom(m: Mem, ps: seq<Tensor>, i: nat, n: nat, lr: real, momentum: real): (r: Option<Mem>)
    requires Wf(m) && i <= n <= |ps|
    ensures r.Some? ==> Wf(r.value) && r.value.nodes == m.nodes && r.value.nextBuffer == m.nextBuffer
    ensures r.Some? ==> r.value.nextNode == m.nextNode && r.value.buffers.Keys == m.buffers.Keys
    decreases n - i
  {
    if i == n then Some(m)
    else match StepOne(m, ps[i], lr, momentum)
      case None => None
      case Some(m1) => StepFrom(m1, ps, i + 1, n, lr, momentum)
  }

  /** `optim_sgd`: the parameters are the first `nParams` entries of `params`.
      The `velocity` field is never read or written by the library. */
  class Sgd {
    var nParams: int
    var params: seq<Tensor>
    var lr: real
    var momentum: real

    /** How many parameters the loops visit. */
    function Count(): nat
      reads this
    {
      if nParams < 0 then 0 else nParams
    }

    /** `optim_sgd_new`: learning rate 0.001 and no momentum. */
    constructor (nParams: int, params: seq<Tensor>)
      ensures this.nParams == nParams && this.params == params
      ensures lr == 0.001 && momentum == 0.0
    {
      this.nParams := nParams;
      this.params := params;
      lr := 0.001;
      momentum := 0.0;
    }

    /** `optim_sgd_config`: both hyper-parameters are overwritten. */
    method Config(lr: real, momentum: real)
      modifies this
      ensures this.lr == lr && this.momentum == momentum
      ensures nParams == old(nParams) && params == old(params)
    {
      this.lr := lr;
      this.momentum := momentum;
    }

    /** `optim_sgd_zerograd`. */
    method ZeroGrad(h: Heap)
      requires h.Valid() && Count() <= |params| && ZeroGradFrom(h.State(), params, 0, Count()).Some?
      modifies h
      ensures h.Valid()
      ensures Some(h.State()) == ZeroGradFrom(old(h.State()), params, 0, Count())
    {
      ghost var m0 := h.State();
      var i := 0;
      while i < nParams
        invariant 0 <= i <= Count()
        invariant h.Valid() && ZeroGradFrom(m0, params, 0, Count()) == ZeroGradFrom(h.State(), params, i, Count())
      {
        var t := params[i];
        if t.node.Some? && h.nodes[t.node.value].grad.data.Some? {
          var z := TensorZeros(h, Numel(t.shape), t.shape, false);
          StoreGradKeeps(h.State(), t.node.value, z);
          SetGrad(h, t.node.value, z);
        }
        i := i + 1;
      }
    }

    /** `optim_sgd_step`. */
    method Step(h: Heap)
      requires h.Valid() && Count() <= |params| && StepFrom(h.State(), params, 0, Count(), lr, momentum).Some?
      modifies h
      ensures h.Valid()
      ensures Some(h.State()) == StepFrom(old(h.State()), params, 0, Count(), lr, momentum)
    {
      ghost var m0 := h.State();
      var i := 0;
      while i < nParams
        invariant 0 <= i <= Count()
        invariant h.Valid() && StepFrom(m0, params, 0, Count(), lr, momentum) == StepFrom(h.State(), params, i, Count(), lr, momentum)
      {
        var t := params[i];
        var g := h.nodes[t.node.value].grad;
        Descend(h, t.data.value, g.data.value, lr);
        i := i + 1;
      }
      assert i == Count();
    }
  }

  /** The inner loop of `optim_sgd_step` on buffer `b` with gradient buffer
      `gb`; the two may be the same buffer. */
  method Descend(h: Heap, b: BufferRef, gb: BufferRef, lr: real)
    requires h.Valid() && b in h.buffers && gb in h.buffers && h.buffers[b].numel <= h.buffers[gb].numel
    modifies h
    ensures h.Valid()
    ensures h.State() == WithElems(old(h.State()), b, Descended(old(h.buffers[b].flex), old(h.buffers[gb].flex), lr))
  {
    ghost var m1 := h.State();
    ghost var xs, gs := h.buffers[b].flex, h.buffers[gb].flex;
    var numel := h.buffers[b].numel;
    assert BufferOk(h.buffers[b]) && BufferOk(h.buffers[gb]);
    assert DescendedUpTo(xs, gs, lr, 0) == xs;
    assert WithElems(m1, b, xs) == m1;
    var j := 0;
    while j < h.buffers[b].numel
      invariant 0 <= j <= numel && |xs| == numel <= |gs|
      invariant h.Valid() && b in h.buffers && gb in h.buffers && h.buffers[b].numel == numel
      invariant h.State() == WithElems(m1, b, DescendedUpTo(xs, gs, lr, j))
    {
      var x, g := h.buffers[b].flex[j], h.buffers[gb].flex[j];
      var v := x - lr * g;
      assert x == xs[j] && g == gs[j];
      assert v == xs[j] - lr * gs[j];
      Store(h, b, j, v);
      DescendOneMore(xs, gs, lr, j);
      j := j + 1;
    }
    assert DescendedUpTo(xs, gs, lr, j) == Descended(xs, gs, lr);
  }

  /** Some parameter in positions `i` to `n - 1` has node `k`. */
  predicate Touches(ps: seq<Tensor>, i: nat, n: nat, k: NodeRef)
    requires n <= |ps|
  {
    exists j :: i <= j < n && ps[j].node == Some(k)
  }

  /** One iteration of `optim_sgd_zerograd`: only the parameter's own node
      changes; a gradient that was present becomes a new all-zero tensor of
      the parameter's shape in a buffer that did not exist before, and an
      absent one stays absent. */
  lemma ZeroOneSpec(m: Mem, t: Tensor)
    requires Wf(m) && ZeroOne(m, t).Some?
    ensures var m1 := ZeroOne(m, t).value;
      (t.node.Some? ==> t.node.value in m.nodes) && m1.nodes.Keys == m.nodes.Keys &&
      (forall k :: k in m.nodes ==> (GradOf(m1, k).data.None? <==> GradOf(m, k).data.None?)) &&
      (forall k :: k in m.nodes && t.node != Some(k) ==> m1.nodes[k] == m.nodes[k]) &&
      (t.node.Some? && GradOf(m, t.node.value).data.Some? ==>
        var g := GradOf(m1, t.node.value);
        Live(m1, g) && g.data.value !in m.buffers && g.node.None? && g.shape == t.shape &&
        |Elems(m1, g)| == Numel(t.shape) && AllZero(Elems(m1, g))) &&
      (t.node.None? || GradOf(m, t.node.value).data.None? ==> m1 == m)
  {
    if t.node.Some? && GradOf(m, t.node.value).data.Some? {
      var (m1, z) := FilledResult(m, Numel(t.shape), t.shape, false, 0.0);
      StoreGradKeeps(m1, t.node.value, z);
    }
  }

  /** `optim_sgd_zerograd` over parameters `i` to `n - 1`: every parameter
      has a live node, no node appears or disappears, whether a gradient is
      present does not change, and nodes no parameter refers to are
      untouched. */
  lemma {:induction false} ZeroGradKeeps(m: Mem, ps: seq<Tensor>, i: nat, n: nat)
    requires Wf(m) && i <= n <= |ps| && ZeroGradFrom(m, ps, i, n).Some?
    ensures var m' := ZeroGradFrom(m, ps, i, n).value;
      (forall j :: i <= j < n && ps[j].node.Some? ==> ps[j].node.value in m.nodes) &&
      m'.nodes.Keys == m.nodes.Keys &&
      (forall k :: k in m.nodes ==> (GradOf(m', k).data.None? <==> GradOf(m, k).data.None?)) &&
      (forall k :: k in m.nodes && !Touches(ps, i, n, k) ==> m'.nodes[k] == m.nodes[k])
    decreases n - i
  {
    if i < n {
      var m1 := ZeroOne(m, ps[i]).value;
      ZeroOneSpec(m, ps[i]);
      ZeroGradKeeps(m1, ps, i + 1, n);
      var m' := ZeroGradFrom(m1, ps, i + 1, n).value;
      assert ZeroGradFrom(m, ps, i, n) == Some(m');
      forall k | k in m.nodes && !Touches(ps, i, n, k)
        ensures m'.nodes[k] == m.nodes[k]
      {
        assert !Touches(ps, i + 1, n, k) && ps[i].node != Some(k);
      }
    }
  }

  /** `optim_sgd_zerograd` over parameters `i` to `n - 1`: the node of each
      parameter whose gradient was present ends with a live, all-zero
      gradient. */
  lemma {:induction false} ZeroGradClears(m: Mem, ps: seq<Tensor>, i: nat, n: nat)
    requires Wf(m) && i <= n <= |ps| && ZeroGradFrom(m, ps, i, n).Some?
    ensures var m' := ZeroGradFrom(m, ps, i, n).value;
      forall k :: k in m.nodes && Touches(ps, i, n, k) && GradOf(m, k).data.Some? ==>
        k in m'.nodes && Live(m', GradOf(m', k)) && AllZero(Elems(m', GradOf(m', k)))
    decreases n - i
  {
    if i < n {
      var m1 := ZeroOne(m, ps[i]).value;
      ZeroOneSpec(m, ps[i]);
      ZeroGradKeeps(m1, ps, i + 1, n);
      ZeroGradClears(m1, ps, i + 1, n);
      var m' := ZeroGradFrom(m1, ps, i + 1, n).value;
      assert ZeroGradFrom(m, ps, i, n) == Some(m');
      forall k | k in m.nodes && Touches(ps, i, n, k) && GradOf(m, k).data.Some?
        ensures k in m'.nodes && Live(m', GradOf(m', k)) && AllZero(Elems(m', GradOf(m', k)))
      {
        if !Touches(ps, i + 1, n, k) {
          assert ps[i].node == Some(k);
          assert m'.nodes[k] == m1.nodes[k];
        }
      }
    }
  }

  /** One iteration of `optim_sgd_step` runs exactly when the momentum is
      zero and the parameter has a live node whose gradient buffer is live
      and at least as long as the parameter's; each of the parameter's
      values then moves by `lr` times the matching gradient value, against
      it, and no other buffer and no node changes. */
  lemma StepOneSpec(m: Mem, t: Tensor, lr: real, momentum: real)
    requires Wf(m)
    ensures StepOne(m, t, lr, momentum).Some? <==>
      momentum == 0.0 && t.node.Some? && t.node.value in m.nodes && Live(m, t) &&
      Live(m, GradOf(m, t.node.value)) && BufNumel(m, t) <= BufNumel(m, GradOf(m, t.node.value))
    ensures StepOne(m, t, lr, momentum).Some? ==>
      var m1, g := StepOne(m, t, lr, momentum).value, GradOf(m, t.node.value);
      m1.nodes == m.nodes && Live(m1, t) && BufNumel(m1, t) == BufNumel(m, t) &&
      (forall j :: 0 <= j < BufNumel(m, t) ==> Elems(m1, t)[j] == Elems(m, t)[j] - lr * Elems(m, g)[j]) &&
      (forall r :: r in m.buffers && r != t.data.value ==> m1.buffers[r] == m.buffers[r])
  {
  }

  /** `optim_sgd_step` aborts on its first parameter when the momentum is
      not zero, and does nothing when there are no parameters. */
  lemma StepNeedsZeroMomentum(m: Mem, ps: seq<Tensor>, n: nat, lr: real, momentum: real)
    requires Wf(m) && n <= |ps|
    ensures n == 0 ==> StepFrom(m, ps, 0, n, lr, momentum) == Some(m)
    ensures n > 0 && momentum != 0.0 ==> StepFrom(m, ps, 0, n, lr, momentum).None?
  {
  }

  /** A step whose every parameter's gradient is all zero changes nothing. */
  lemma {:induction false} StepWithZeroGrads(m: Mem, ps: seq<Tensor>, i: nat, n: nat, lr: real)
    requires Wf(m) && i <= n <= |ps| && StepFrom(m, ps, i, n, lr, 0.0).Some?
    requires forall j :: i <= j < n && ps[j].node.Some? && ps[j].node.value in m.nodes && Live(m, GradOf(m, ps[j].node.value)) ==>
      AllZero(Elems(m, GradOf(m, ps[j].node.value)))
    ensures StepFrom(m, ps, i, n, lr, 0.0) == Some(m)
    decreases n - i
  {
    if i < n {
      var t := ps[i];
      StepOneSpec(m, t, lr, 0.0);
      var g := GradOf(m, t.node.value);
      var xs, gs := Elems(m, t), Elems(m, g);
      assert AllZero(gs);
      assert Descended(xs, gs, lr) == xs by {
        forall j | 0 <= j < |xs|
          ensures Descended(xs, gs, lr)[j] == xs[j]
        {
          assert gs[j] == 0.0;
        }
      }
      assert m.buffers[t.data.value].(flex := xs) == m.buffers[t.data.value];
      assert WithElems(m, t.data.value, xs) == m;
      assert StepOne(m, t, lr, 0.0) == Some(m);
      StepWithZeroGrads(m, ps, i + 1, n, lr);
    }
  }

  /** `optim_sgd_zerograd` followed by `optim_sgd_step` leaves the heap as
      the zeroing left it: once every gradient is zero, a step of any
      learning rate moves no parameter. */
  lemma ZeroGradThenStep(m: Mem, ps: seq<Tensor>, n: nat, lr: real)
    requires Wf(m) && n <= |ps| && ZeroGradFrom(m, ps, 0, n).Some?
    requires StepFrom(ZeroGradFrom(m, ps, 0, n).value, ps, 0, n, lr, 0.0).Some?
    ensures var m1 := ZeroGradFrom(m, ps, 0, n).value;
      StepFrom(m1, ps, 0, n, lr, 0.0) == Some(m1)
  {
    var m1 := ZeroGradFrom(m, ps, 0, n).value;
    ZeroGradKeeps(m, ps, 0, n);
    ZeroGradClears(m, ps, 0, n);
    forall j | 0 <= j < n && ps[j].node.Some? && ps[j].node.value in m1.nodes && Live(m1, GradOf(m1, ps[j].node.value))
      ensures AllZero(Elems(m1, GradOf(m1, ps[j].node.value)))
    {
      assert Touches(ps, 0, n, ps[j].node.value);
    }
    StepWithZeroGrads(m1, ps, 0, n, lr);
  }
}
