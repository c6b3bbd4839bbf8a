// The data model of the tensor library (include/cten.h:10-26) and the heap it
// lives in.
//
// A Tensor is a value: a shape, a pointer to a FloatBuffer and a pointer to a
// GradNode, either of which may be NULL. Buffers and nodes live on the C heap
// and are shared through those pointers. The heap is modelled explicitly as
// two maps from addresses to records; an address is handed out once, in
// increasing order, so a node created by an operator always has a larger
// address than the nodes of its inputs. `Heap` holds the maps that the
// library's functions update in place; `Mem` is the value of that state, over
// which the specification functions are written.

module Memory {
  import opened Shapes
  import opened Wrappers

  /** Address of a FloatBuffer. */
  type BufferRef = nat

  /** Address of a GradNode. */
  type NodeRef = nat

  /** `Tensor` (include/cten.h:15-19): `data` and `node` are NULL when None. */
  datatype Tensor = Tensor(shape: Shape, data: Option<BufferRef>, node: Option<NodeRef>)

  /** `FloatBuffer` with the reference count of src/basic.c: `numel` floats in `flex`. */
  datatype FloatBuffer = FloatBuffer(refcount: int, numel: int, flex: seq<real>)

  /** The derivative rule a node points to; NULL in a zeroed node. */
  datatype GradFn = NoGradFn | AddRule | MulRule | MatmulRule

  /** `GradNode` (include/cten.h:21-26): accumulated gradient (absent while its
      `data` is NULL), derivative rule, four input slots, and how many are used. */
  datatype GradNode = GradNode(grad: Tensor, gradFn: GradFn, inputs: seq<Tensor>, nInputs: int)

  /** An all-zero Tensor: what `memset(.., 0, ..)` leaves in a Tensor field. */
  const NullTensor: Tensor := Tensor(Scalar, None, None)

  /** A GradNode after `memset(node, 0, sizeof(GradNode))`. */
  const ZeroedNode: GradNode := GradNode(NullTensor, NoGradFn, [NullTensor, NullTensor, NullTensor, NullTensor], 0)

  /** The heap: live buffers and nodes, and the next address of each kind. */
  datatype Mem = Mem(
    buffers: map<BufferRef, FloatBuffer>,
    nodes: map<NodeRef, GradNode>,
    nextBuffer: nat,
    nextNode: nat)

  /** A live buffer holds `numel` values and at least one reference. */
  predicate BufferOk(b: FloatBuffer)
  {
    b.refcount >= 1 && |b.flex| == b.numel
  }

  /** A tensor whose node, if any, was allocated before address `n`. */
  predicate Below(t: Tensor, n: NodeRef)
  {
    t.node.Some? ==> t.node.value < n
  }

  /** A node has four input slots, at most four used, inputs allocated before
      it, and a gradient without a node of its own. */
  predicate NodeOk(n: NodeRef, g: GradNode)
  {
    |g.inputs| == 4 && 0 <= g.nInputs <= 4 && g.grad.node.None? &&
    forall i :: 0 <= i < g.nInputs ==> Below(g.inputs[i], n)
  }

  /** Every pointer a node holds was handed out by an earlier allocation. */
  predicate NodeIssued(m: Mem, g: GradNode)
  {
    Issued(m, g.grad) && forall i :: 0 <= i < |g.inputs| ==> Issued(m, g.inputs[i])
  }

  /** The heap invariant. Input addresses are smaller than the node's own, so
      the computation graph is acyclic. */
  predicate Wf(m: Mem)
  {
    (forall r :: r in m.buffers ==> r < m.nextBuffer && BufferOk(m.buffers[r])) &&
    (forall n :: n in m.nodes ==> n < m.nextNode && NodeOk(n, m.nodes[n]) && NodeIssued(m, m.nodes[n]))
  }

  /** The tensor's buffer pointer is non-NULL and not freed. */
  predicate Live(m: Mem, t: Tensor)
  {
    t.data.Some? && t.data.value in m.buffers
  }

  /** The tensor's pointers came from earlier allocations; the memory they
      point to may since have been freed. */
  predicate Issued(m: Mem, t: Tensor)
  {
    (t.data.Some? ==> t.data.value < m.nextBuffer) && (t.node.Some? ==> t.node.value < m.nextNode)
  }

  /** The values of a live tensor's buffer. */
  function Elems(m: Mem, t: Tensor): seq<real>
    requires Live(m, t)
  {
    m.buffers[t.data.value].flex
  }

  /** `t.data->numel` of a live tensor. */
  function BufNumel(m: Mem, t: Tensor): int
    requires Live(m, t)
  {
    m.buffers[t.data.value].numel
  }

  /** The accumulated gradient of a live node. */
  function GradOf(m: Mem, n: NodeRef): Tensor
    requires n in m.nodes
  {
    m.nodes[n].grad
  }

  /** `m'` only adds to `m`: no address is reused, every live buffer stays live
      with the same size and values (reference counts may change), and every
      live node stays live. */
  predicate Extends(m: Mem, m': Mem)
  {
    m.nextBuffer <= m'.nextBuffer && m.nextNode <= m'.nextNode &&
    (forall r :: r in m.buffers ==>
      r in m'.buffers && m'.buffers[r].numel == m.buffers[r].numel && m'.buffers[r].flex == m.buffers[r].flex) &&
    (forall n :: n in m.nodes ==> n in m'.nodes)
  }

  /** Every node of `m` is still in `m'`, unchanged. */
  predicate NodesKept(m: Mem, m': Mem)
  {
    forall n :: n in m.nodes ==> n in m'.nodes && m'.nodes[n] == m.nodes[n]
  }

  /** Every node of `m` is still in `m'` with the same rule and inputs; only
      its accumulated gradient may differ. */
  predicate GraphKept(m: Mem, m': Mem)
  {
    forall n :: n in m.nodes ==>
      n in m'.nodes &&
      m'.nodes[n].gradFn == m.nodes[n].gradFn &&
      m'.nodes[n].inputs == m.nodes[n].inputs &&
      m'.nodes[n].nInputs == m.nodes[n].nInputs
  }

  /** The heap with the values of buffer `r` replaced. */
  function WithElems(m: Mem, r: BufferRef, flex: seq<real>): Mem
    requires r in m.buffers
  {
    m.(buffers := m.buffers[r := m.buffers[r].(flex := flex)])
  }

  /** The heap with node `n` replaced. */
  function WithNode(m: Mem, n: NodeRef, g: GradNode): Mem
  {
    m.(nodes := m.nodes[n := g])
  }

  /** Replacing a buffer's values by as many new ones keeps the heap
      invariant; nodes and sizes stay the same. */
  lemma WithElemsKeeps(m: Mem, r: BufferRef, flex: seq<real>)
    requires r in m.buffers && |flex| == m.buffers[r].numel
    ensures var m' := WithElems(m, r, flex);
      (Wf(m) ==> Wf(m')) && m'.nodes == m.nodes && m'.buffers.Keys == m.buffers.Keys &&
      m'.nextBuffer == m.nextBuffer && m'.nextNode == m.nextNode
  {
    var m' := WithElems(m, r, flex);
    if Wf(m) {
      forall n | n in m'.nodes
        ensures NodeIssued(m', m'.nodes[n])
      {
        assert NodeIssued(m, m.nodes[n]);
      }
    }
  }

  lemma ExtendsTransitive(m1: Mem, m2: Mem, m3: Mem)
    requires Extends(m1, m2) && Extends(m2, m3)
    ensures Extends(m1, m3)
  {
  }

  /** A heap that only grew, and whose graph kept its shape, composes. */
  lemma GrowsTransitive(m1: Mem, m2: Mem, m3: Mem)
    requires Extends(m1, m2) && GraphKept(m1, m2) && Extends(m2, m3) && GraphKept(m2, m3)
    ensures Extends(m1, m3) && GraphKept(m1, m3)
  {
  }

  /** Storing an issued, node-less gradient in a live node keeps the heap
      invariant and the graph. */
  lemma StoreGradKeeps(m: Mem, n: NodeRef, g: Tensor)
    requires Wf(m) && n in m.nodes && g.node.None? && Issued(m, g)
    ensures var m' := WithNode(m, n, m.nodes[n].(grad := g));
      Wf(m') && Extends(m, m') && GraphKept(m, m') && GradOf(m', n) == g
  {
    var m' := WithNode(m, n, m.nodes[n].(grad := g));
    forall k | k in m'.nodes
      ensures k < m'.nextNode && NodeOk(k, m'.nodes[k]) && NodeIssued(m', m'.nodes[k])
    {
      assert NodeOk(k, m.nodes[k]) && NodeIssued(m, m.nodes[k]);
    }
  }

  /** The C heap, as the library's functions see and update it. */
  class Heap {
    var buffers: map<BufferRef, FloatBuffer>
    var nodes: map<NodeRef, GradNode>
    var nextBuffer: nat
    var nextNode: nat

    function State(): Mem
      reads this
    {
      Mem(buffers, nodes, nextBuffer, nextNode)
    }

    ghost predicate Valid()
      reads this
    {
      Wf(State())
    }

    /** An empty heap. */
    constructor ()
      ensures Valid() && State() == Mem(map[], map[], 0, 0)
    {
      buffers, nodes := map[], map[];
      nextBuffer, nextNode := 0, 0;
    }
  }

  /** `t.data->flex[i] = v` for the buffer at address `r`. */
  method Store(h: Heap, r: BufferRef, i: int, v: real)
    requires h.Valid() && r in h.buffers && 0 <= i < |h.buffers[r].flex|
    modifies h
    ensures h.Valid()
    ensures h.State() == WithElems(old(h.State()), r, old(h.buffers[r].flex)[i := v])
  {
    h.buffers := h.buffers[r := h.buffers[r].(flex := h.buffers[r].flex[i := v])];
  }

  /** `node->grad = g` for the node at address `n`. */
  method SetGrad(h: Heap, n: NodeRef, g: Tensor)
    requires h.Valid() && n in h.nodes && g.node.None? && Issued(h.State(), g)
    modifies h
    ensures h.Valid()
    ensures h.State() == WithNode(old(h.State()), n, old(h.nodes[n]).(grad := g))
  {
    h.nodes := h.nodes[n := h.nodes[n].(grad := g)];
  }
}
