// Tensor construction, sharing and release (src/basic.c:8-50).
//
// Each C function is a method on the Heap, proved against a function over the
// heap's value: `NewResult` for `Tensor_new`, `FilledResult` for
// `Tensor_zeros` and `Tensor_ones`, `DetachResult` for `Tensor_detach` and
// `DeleteResult` for `Tensor_delete`. A function yields None where the C code
// would dereference a NULL or freed pointer.

module Basic {
  import opened Shapes
  import opened Wrappers
  import opened Memory

  /** The values of a block fresh from malloc. C leaves them indeterminate;
      the model fixes them at 0.0. */
  function FreshElems(n: nat): (s: seq<real>)
    ensures |s| == n
  {
    seq(n, _ => 0.0)
  }

  /** `Tensor_new(numel, shape, requires_grad)`: a buffer of `numel` values
      with one reference, and a zeroed node exactly when `requiresGrad`. */
  function NewResult(m: Mem, numel: nat, shape: Shape, requiresGrad: bool): (r: (Mem, Tensor))
    ensures Wf(m) ==> Wf(r.0) && Extends(m, r.0) && NodesKept(m, r.0)
    ensures r.1.shape == shape && Live(r.0, r.1) && (Wf(m) ==> r.1.data.value !in m.buffers)
    ensures r.0.buffers[r.1.data.value] == FloatBuffer(1, numel, FreshElems(numel))
    ensures r.1.node.Some? <==> requiresGrad
    ensures Issued(r.0, r.1) && Below(r.1, r.0.nextNode)
    ensures r.1.node.Some? ==> Wf(m) ==> r.1.node.value !in m.nodes && r.0.nodes == m.nodes[r.1.node.value := ZeroedNode]
    ensures r.1.node.None? ==> r.0.nodes == m.nodes
    ensures r.0.buffers == m.buffers[r.1.data.value := FloatBuffer(1, numel, FreshElems(numel))]
  {
    var b := m.nextBuffer;
    var m1 := m.(buffers := m.buffers[b := FloatBuffer(1, numel, FreshElems(numel))], nextBuffer := b + 1);
    if requiresGrad then
      (m1.(nodes := m1.nodes[m1.nextNode := ZeroedNode], nextNode := m1.nextNode + 1),
       Tensor(shape, Some(b), Some(m1.nextNode)))
    else
      (m1, Tensor(shape, Some(b), None))
  }

  /** A new tensor whose `numel` values are all `v`: `Tensor_zeros` for 0.0,
      `Tensor_ones` for 1.0. */
  function FilledResult(m: Mem, numel: nat, shape: Shape, requiresGrad: bool, v: real): (r: (Mem, Tensor))
    ensures Wf(m) ==> Wf(r.0) && Extends(m, r.0) && NodesKept(m, r.0)
    ensures r.1.shape == shape && Live(r.0, r.1) && (Wf(m) ==> r.1.data.value !in m.buffers)
    ensures r.0.buffers[r.1.data.value].refcount == 1 && BufNumel(r.0, r.1) == numel
    ensures |Elems(r.0, r.1)| == numel && forall i :: 0 <= i < numel ==> Elems(r.0, r.1)[i] == v
    ensures r.1.node.Some? <==> requiresGrad
    ensures Issued(r.0, r.1)
  {
    var (m1, t) := NewResult(m, numel, shape, requiresGrad);
    WithElemsKeeps(m1, t.data.value, seq(numel, _ => v));
    (WithElems(m1, t.data.value, seq(numel, _ => v)), t)
  }

  /** `Tensor_detach`: the same buffer with one more reference and no node.
      None when the buffer pointer is NULL or freed. */
  function DetachResult(m: Mem, t: Tensor): (r: Option<(Mem, Tensor)>)
    ensures r.Some? <==> Live(m, t)
    ensures r.Some? ==> Wf(m) ==> Wf(r.value.0) && Extends(m, r.value.0) && NodesKept(m, r.value.0)
    ensures r.Some? ==> r.value.1.node.None? && r.value.1.shape == t.shape && Live(r.value.0, r.value.1)
  {
    if !Live(m, t) then None
    else
      var b := t.data.value;
      Some((m.(buffers := m.buffers[b := m.buffers[b].(refcount := m.buffers[b].refcount + 1)]), t.(node := None)))
  }

  /** `--refcount` on buffer `b`, freeing it when the count reaches 0. */
  function Release(bufs: map<BufferRef, FloatBuffer>, b: BufferRef): (r: map<BufferRef, FloatBuffer>)
    requires b in bufs
    ensures b !in r <==> bufs[b].refcount == 1
    ensures b in r ==> r[b] == bufs[b].(refcount := bufs[b].refcount - 1)
    ensures forall q :: q != b ==> (q in r <==> q in bufs)
    ensures forall q :: q != b && q in bufs ==> r[q] == bufs[q]
  {
    if bufs[b].refcount - 1 == 0 then bufs - {b}
    else bufs[b := bufs[b].(refcount := bufs[b].refcount - 1)]
  }

  /** `Tensor_delete`: release the buffer; if there is a node, delete its
      gradient when present and free the node. None on a NULL or freed
      pointer. In a well-formed heap a gradient has no node of its own, so
      the recursion is one level deep. */
  function DeleteResult(m: Mem, t: Tensor): (r: Option<Mem>)
    requires Wf(m)
    ensures r.Some? ==> Wf(r.value) && r.value.nextBuffer == m.nextBuffer && r.value.nextNode == m.nextNode
    decreases if t.node.Some? then 1 else 0
  {
    if !Live(m, t) then None
    else
      var m1 := m.(buffers := Release(m.buffers, t.data.value));
      if t.node.None? then Some(m1)
      else if t.node.value !in m1.nodes then None
      else
        var n := t.node.value;
        var g := GradOf(m1, n);
        var m2 := if g.data.None? then Some(m1) else DeleteResult(m1, g);
        if m2.None? then None
        else Some(m2.value.(nodes := m2.value.nodes - {n}))
  }

  /** `Tensor_new(numel, shape, requires_grad)`. */
  method TensorNew(h: Heap, numel: int, shape: Shape, requiresGrad: bool) returns (t: Tensor)
    requires h.Valid() && numel >= 0
    modifies h
    ensures h.Valid()
    ensures (h.State(), t) == NewResult(old(h.State()), numel, shape, requiresGrad)
  {
    var b := h.nextBuffer;
    h.buffers := h.buffers[b := FloatBuffer(1, numel, FreshElems(numel))];
    h.nextBuffer := b + 1;
    if requiresGrad {
      var n := h.nextNode;
      h.nodes := h.nodes[n := ZeroedNode];
      h.nextNode := n + 1;
      t := Tensor(shape, Some(b), Some(n));
    } else {
      t := Tensor(shape, Some(b), None);
    }
  }

  /** `Tensor_zeros(numel, shape, requires_grad)`: the memset is one write of
      the whole buffer. */
  method TensorZeros(h: Heap, numel: int, shape: Shape, requiresGrad: bool) returns (t: Tensor)
    requires h.Valid() && numel >= 0
    modifies h
    ensures h.Valid()
    ensures (h.State(), t) == FilledResult(old(h.State()), numel, shape, requiresGrad, 0.0)
  {
    t := TensorNew(h, numel, shape, requiresGrad);
    var b := t.data.value;
    h.buffers := h.buffers[b := h.buffers[b].(flex := seq(numel, _ => 0.0))];
  }

  /** `Tensor_ones(numel, shape, requires_grad)`: one store per element. */
  method TensorOnes(h: Heap, numel: int, shape: Shape, requiresGrad: bool) returns (t: Tensor)
    requires h.Valid() && numel >= 0
    modifies h
    ensures h.Valid()
    ensures (h.State(), t) == FilledResult(old(h.State()), numel, shape, requiresGrad, 1.0)
  {
    t := TensorNew(h, numel, shape, requiresGrad);
    Fill(h, t.data.value, 1.0);
  }

  /** `xs` with its first `c` values replaced by `v`. */
  function Filled(xs: seq<real>, v: real, c: int): (r: seq<real>)
    ensures |r| == |xs|
  {
    seq(|xs|, j requires 0 <= j < |xs| => if j < c then v else xs[j])
  }

  /** The loop `for i < numel: flex[i] = v` over the buffer at `b`. */
  method Fill(h: Heap, b: BufferRef, v: real)
    requires h.Valid() && b in h.buffers
    modifies h
    ensures h.Valid()
    ensures h.State() == WithElems(old(h.State()), b, seq(old(h.buffers[b].numel), _ => v))
  {
    ghost var m1 := h.State();
    ghost var xs := h.buffers[b].flex;
    var numel := h.buffers[b].numel;
    assert BufferOk(h.buffers[b]);
    assert Filled(xs, v, 0) == xs;
    assert WithElems(m1, b, xs) == m1;
    var i := 0;
    while i < h.buffers[b].numel
      invariant 0 <= i <= numel
      invariant h.Valid() && b in h.buffers && h.buffers[b].numel == numel
      invariant h.State() == WithElems(m1, b, Filled(xs, v, i))
    {
      Store(h, b, i, v);
      assert Filled(xs, v, i)[i := v] ==
        Filled(xs, v, i + 1);
      i := i + 1;
    }
    assert Filled(xs, v, i) == seq(numel, _ => v);
  }

  /** `Tensor_detach`. */
  method TensorDetach(h: Heap, t: Tensor) returns (d: Tensor)
    requires h.Valid() && Live(h.State(), t)
    modifies h
    ensures h.Valid()
    ensures Some((h.State(), d)) == DetachResult(old(h.State()), t)
  {
    var b := t.data.value;
    h.buffers := h.buffers[b := h.buffers[b].(refcount := h.buffers[b].refcount + 1)];
    d := t.(node := None);
  }

  /** `Tensor_delete`. */
  method TensorDelete(h: Heap, t: Tensor)
    requires h.Valid() && DeleteResult(h.State(), t).Some?
    modifies h
    ensures h.Valid()
    ensures Some(h.State()) == DeleteResult(old(h.State()), t)
    decreases if t.node.Some? then 1 else 0
  {
    ghost var m0 := h.State();
    var b := t.data.value;
    if h.buffers[b].refcount - 1 == 0 {
      h.buffers := h.buffers - {b};
    } else {
      h.buffers := h.buffers[b := h.buffers[b].(refcount := h.buffers[b].refcount - 1)];
    }
    assert h.State() == m0.(buffers := Release(m0.buffers, b));
    if t.node.Some? {
      var n := t.node.value;
      var g := h.nodes[n].grad;
      if g.data.Some? {
        TensorDelete(h, g);
      }
      h.nodes := h.nodes - {n};
    }
  }

  // ---------------------------------------------------------------------
  // Properties.

  /** A detached tensor shares the buffer and shape, carries no node, and
      holds one more reference; nothing else in the heap changes. */
  lemma DetachShares(m: Mem, t: Tensor)
    requires Wf(m) && Live(m, t)
    ensures var (m', d) := DetachResult(m, t).value;
      Wf(m') && Extends(m, m') && m'.nodes == m.nodes &&
      d.shape == t.shape && d.data == t.data && d.node.None? &&
      m'.buffers[d.data.value].refcount == m.buffers[t.data.value].refcount + 1 &&
      forall q :: q in m.buffers && q != t.data.value ==> m'.buffers[q] == m.buffers[q]
  {
  }

  /** Deleting a detached copy undoes the detach. */
  lemma DetachDeleteRestores(m: Mem, t: Tensor)
    requires Wf(m) && Live(m, t)
    ensures DetachResult(m, t).Some?
    ensures var (m', d) := DetachResult(m, t).value; Wf(m') && DeleteResult(m', d) == Some(m)
  {
    var (m', d) := DetachResult(m, t).value;
    var b := t.data.value;
    assert Release(m'.buffers, b) == m.buffers;
  }

  /** Deleting a tensor that was just created, with or without a node, frees
      everything it allocated; only the address counters have moved on. */
  lemma NewDeleteRestores(m: Mem, numel: nat, shape: Shape, requiresGrad: bool)
    requires Wf(m)
    ensures var (m', t) := NewResult(m, numel, shape, requiresGrad);
      DeleteResult(m', t) == Some(m.(nextBuffer := m'.nextBuffer, nextNode := m'.nextNode))
  {
    var (m', t) := NewResult(m, numel, shape, requiresGrad);
    var b := t.data.value;
    assert Release(m'.buffers, b) == m.buffers;
    if requiresGrad {
      assert m'.nodes - {t.node.value} == m.nodes;
    }
  }

  /** A buffer referenced twice survives one delete and goes with the second. */
  lemma SharedBufferLifetime(m: Mem, t: Tensor)
    requires Wf(m) && Live(m, t) && t.node.None? && m.buffers[t.data.value].refcount == 1
    ensures var (m1, d) := DetachResult(m, t).value;
      var m2 := DeleteResult(m1, d);
      m2.Some? && t.data.value in m2.value.buffers &&
      var m3 := DeleteResult(m2.value, t);
      m3.Some? && t.data.value !in m3.value.buffers
  {
    DetachDeleteRestores(m, t);
  }

  /** What `Tensor_delete` frees: the tensor's node, the tensor's buffer when
      this was its last reference, and likewise the buffer of the node's
      gradient; every other node and buffer is left as it was. */
  lemma DeleteReleases(m: Mem, t: Tensor)
    requires Wf(m) && DeleteResult(m, t).Some?
    ensures Live(m, t)
    ensures var m' := DeleteResult(m, t).value;
      (m.buffers[t.data.value].refcount == 1 ==> t.data.value !in m'.buffers) &&
      (t.node.Some? ==> t.node.value in m.nodes && t.node.value !in m'.nodes) &&
      (forall k :: k in m.nodes && t.node != Some(k) ==> k in m'.nodes && m'.nodes[k] == m.nodes[k])
    ensures var m' := DeleteResult(m, t).value;
      t.node.Some? && GradOf(m, t.node.value).data.Some? ==>
        var g := GradOf(m, t.node.value);
        Live(m, g) && (m.buffers[g.data.value].refcount == 1 ==> g.data.value !in m'.buffers)
    ensures var m' := DeleteResult(m, t).value;
      var grads := if t.node.Some? && GradOf(m, t.node.value).data.Some? then {GradOf(m, t.node.value).data.value} else {};
      forall q :: q in m.buffers && q != t.data.value && q !in grads ==> q in m'.buffers && m'.buffers[q] == m.buffers[q]
  {
    var m1 := m.(buffers := Release(m.buffers, t.data.value));
    if t.node.Some? {
      var n := t.node.value;
      var g := GradOf(m1, n);
      assert NodeOk(n, m.nodes[n]);
      if g.data.Some? {
        assert Wf(m1) by {
          forall k | k in m1.nodes
            ensures k < m1.nextNode && NodeOk(k, m1.nodes[k]) && NodeIssued(m1, m1.nodes[k])
          {
            assert NodeOk(k, m.nodes[k]) && NodeIssued(m, m.nodes[k]);
          }
        }
        assert DeleteResult(m1, g) == Some(m1.(buffers := Release(m1.buffers, g.data.value)));
      }
    }
  }
}
