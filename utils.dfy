// Shape assertions and element-wise broadcasting (src/utils.c:20-78).
//
// `cten_assert` aborts the process when its condition is false; here the
// checks are boolean functions, and an operator whose check fails has no
// result. `cten_elemwise_broadcast` is split along its two phases: the
// per-axis decision (`BroadcastPlan`, proved against the declarative
// `PlanOf`) and the four nested copy loops (`Expand`, proved against
// `ExpandResult`). `Broadcast` joins them as the C function does.

module Utils {
  import opened Shapes
  import opened Wrappers
  import opened Memory
  import opened Basic

  /** `cten_assert_shape` does not abort exactly when all four entries agree. */
  function ShapeCheck(a: Shape, b: Shape): (passes: bool)
    ensures passes <==> forall i :: 0 <= i < 4 ==> a[i] == b[i]
  {
    a == b
  }

  /** `cten_assert_shape` as a precondition: the caller aborts otherwise. */
  method AssertShape(a: Shape, b: Shape)
    requires ShapeCheck(a, b)
  {
  }

  /** `cten_assert_dim` does not abort exactly when the two ints agree. No
      modelled operator calls it; it enters the model only through
      `ShapeCheckImpliesDimCheck`. */
  function DimCheck(a: int, b: int): (passes: bool)
    ensures passes ==> a == b
    ensures a == b ==> passes
  {
    a == b
  }

  /** Shapes that pass the shape check also pass the rank check. */
  lemma ShapeCheckImpliesDimCheck(a: Shape, b: Shape)
    requires ShapeCheck(a, b)
    ensures DimCheck(Dim(a), Dim(b))
  {
  }

  // ---------------------------------------------------------------------
  // The per-axis decision.

  /** What broadcasting two shapes does. */
  datatype Plan =
    | Incompatible   // returns false, both operands untouched
    | Same           // returns true, both operands untouched
    | ExpandA        // returns true, the first operand is replaced
    | ExpandB        // returns true, the second operand is replaced

  /** Axis `i` differs and the first operand has size 1 there. */
  predicate NeedsA(sa: Shape, sb: Shape, i: int)
    requires 0 <= i < 4
  {
    sa[i] != sb[i] && sa[i] == 1
  }

  /** Axis `i` differs, the first operand is not 1 there and the second is. */
  predicate NeedsB(sa: Shape, sb: Shape, i: int)
    requires 0 <= i < 4
  {
    sa[i] != sb[i] && sa[i] != 1 && sb[i] == 1
  }

  /** Axis `i` differs and neither size is 1. */
  predicate Clash(sa: Shape, sb: Shape, i: int)
    requires 0 <= i < 4
  {
    sa[i] != sb[i] && sa[i] != 1 && sb[i] != 1
  }

  /** The outcome of the checks of `cten_elemwise_broadcast`, axis by axis:
      ranks must agree, no used axis may clash, and all differing axes must
      call for expanding the same operand. */
  function PlanOf(sa: Shape, sb: Shape): Plan
  {
    var d := Dim(sa);
    if d != Dim(sb) then Incompatible
    else if exists i :: 0 <= i < d && Clash(sa, sb, i) then Incompatible
    else if (exists i :: 0 <= i < d && NeedsA(sa, sb, i)) && (exists i :: 0 <= i < d && NeedsB(sa, sb, i)) then Incompatible
    else if exists i :: 0 <= i < d && NeedsA(sa, sb, i) then ExpandA
    else if exists i :: 0 <= i < d && NeedsB(sa, sb, i) then ExpandB
    else Same
  }

  /** The decision loop of `cten_elemwise_broadcast` (src/utils.c:34-50):
      `aBroadcast` is -1 until an axis is found that needs expanding, then 1
      (expand the first operand) or 0 (expand the second). */
  method BroadcastPlan(sa: Shape, sb: Shape) returns (p: Plan)
    ensures p == PlanOf(sa, sb)
  {
    var aDim := Dim(sa);
    var bDim := Dim(sb);
    if aDim != bDim {
      return Incompatible;
    }
    var aBroadcast := -1;
    var i := 0;
    while i < aDim
      invariant 0 <= i <= aDim
      invariant -1 <= aBroadcast <= 1
      invariant forall k :: 0 <= k < i ==> !Clash(sa, sb, k)
      invariant aBroadcast == 1 <==> exists k :: 0 <= k < i && NeedsA(sa, sb, k)
      invariant aBroadcast == 0 <==> exists k :: 0 <= k < i && NeedsB(sa, sb, k)
    {
      if sa[i] == sb[i] {
        i := i + 1;
        continue;
      }
      if sa[i] == 1 {
        assert NeedsA(sa, sb, i) && !NeedsB(sa, sb, i);
        if aBroadcast == 0 {
          return Incompatible;
        }
        aBroadcast := 1;
      } else if sb[i] == 1 {
        assert NeedsB(sa, sb, i) && !NeedsA(sa, sb, i);
        if aBroadcast == 1 {
          return Incompatible;
        }
        aBroadcast := 0;
      } else {
        assert Clash(sa, sb, i);
        return Incompatible;
      }
      i := i + 1;
    }
    p := if aBroadcast == -1 then Same else if aBroadcast == 1 then ExpandA else ExpandB;
  }

  /** The plan with the operands' roles exchanged. */
  function Swapped(p: Plan): Plan
  {
    match p
    case ExpandA => ExpandB
    case ExpandB => ExpandA
    case _ => p
  }

  /** Broadcasting is symmetric: exchanging the operands exchanges which one
      is expanded, and compatibility does not depend on the order. */
  lemma PlanSymmetric(sa: Shape, sb: Shape)
    ensures PlanOf(sb, sa) == Swapped(PlanOf(sa, sb))
  {
    var d := Dim(sa);
    assert forall i :: 0 <= i < d ==> (NeedsA(sb, sa, i) <==> NeedsB(sa, sb, i));
    assert forall i :: 0 <= i < d ==> (NeedsB(sb, sa, i) <==> NeedsA(sa, sb, i));
    assert forall i :: 0 <= i < d ==> (Clash(sb, sa, i) <==> Clash(sa, sb, i));
  }

  /** For shapes the library builds, broadcasting leaves both operands alone
      exactly when the shapes are equal. */
  lemma PlanSameIffEqual(sa: Shape, sb: Shape)
    requires ValidShape(sa) && ValidShape(sb)
    ensures PlanOf(sa, sb) == Same <==> sa == sb
  {
    if PlanOf(sa, sb) == Same {
      var d := Dim(sa);
      forall i | 0 <= i < d
        ensures sa[i] == sb[i]
      {
        assert !NeedsA(sa, sb, i) && !NeedsB(sa, sb, i) && !Clash(sa, sb, i);
      }
      ValidShapesEqual(sa, sb);
    }
  }

  /** A failed broadcast is always followed by an abort in `Tensor_add`:
      incompatible shapes never pass the shape check. */
  lemma IncompatibleFailsShapeCheck(sa: Shape, sb: Shape)
    requires PlanOf(sa, sb) == Incompatible
    ensures !ShapeCheck(sa, sb)
  {
    if sa == sb {
      assert forall i :: 0 <= i < Dim(sa) ==> !NeedsA(sa, sb, i) && !NeedsB(sa, sb, i) && !Clash(sa, sb, i);
    }
  }

  // ---------------------------------------------------------------------
  // The copy.

  /** The source index on one axis: pinned to 0 where the source has size 1. */
  function Pin(sa: Shape, axis: int, i: int): int
    requires 0 <= axis < 4
  {
    if sa[axis] == 1 then 0 else i
  }

  /** `sa` can be expanded to `s`: the same rank, and every used axis of `sa`
      equals that of `s` or is 1. */
  predicate Expandable(sa: Shape, s: Shape)
  {
    Dim(sa) == Dim(s) && forall i :: 0 <= i < Dim(s) ==> sa[i] == s[i] || sa[i] == 1
  }

  /** The operand a plan expands can be expanded to the other's shape. */
  lemma PlanExpandable(sa: Shape, sb: Shape)
    ensures PlanOf(sa, sb) == ExpandA ==> Expandable(sa, sb)
    ensures PlanOf(sa, sb) == ExpandB ==> Expandable(sb, sa)
  {
    var d := Dim(sa);
    if PlanOf(sa, sb) == ExpandA {
      forall i | 0 <= i < d
        ensures sa[i] == sb[i] || sa[i] == 1
      {
        assert !NeedsB(sa, sb, i) && !Clash(sa, sb, i);
      }
    }
    if PlanOf(sa, sb) == ExpandB {
      forall i | 0 <= i < d
        ensures sb[i] == sa[i] || sb[i] == 1
      {
        assert !NeedsA(sa, sb, i) && !Clash(sa, sb, i);
      }
    }
  }

  /** Pinned in-range indices of the target are in range for the source. */
  lemma PinnedInRange(sa: Shape, s: Shape, i: int, j: int, k: int, l: int)
    requires Expandable(sa, s) && AllPositive(s) && InRange(s, i, j, k, l)
    ensures InRange(sa, Pin(sa, 0, i), Pin(sa, 1, j), Pin(sa, 2, k), Pin(sa, 3, l))
  {
  }

  /** At in-range indices, the source offset is the flat offset of the
      pinned indices. */
  lemma SourceOffsetOfFlat(sa: Shape, s: Shape, i: int, j: int, k: int, l: int)
    requires Expandable(sa, s) && AllPositive(s) && InRange(s, i, j, k, l)
    ensures 0 <= Flat(s, i, j, k, l) < Prod4(s)
    ensures SourceOffset(sa, s, Flat(s, i, j, k, l)) == Flat(sa, Pin(sa, 0, i), Pin(sa, 1, j), Pin(sa, 2, k), Pin(sa, 3, l))
  {
    FlatInBounds(s, i, j, k, l);
    UnflatFlat(s, i, j, k, l);
  }

  /** The source offset read for target offset `p`. */
  function SourceOffset(sa: Shape, s: Shape, p: int): (q: int)
    requires Expandable(sa, s) && AllPositive(s) && 0 <= p < Prod4(s)
    ensures 0 <= q < Prod4(sa)
  {
    UnflatInRange(s, p);
    var (i, j, k, l) := Unflat(s, p);
    PinnedInRange(sa, s, i, j, k, l);
    FlatInBounds(sa, Pin(sa, 0, i), Pin(sa, 1, j), Pin(sa, 2, k), Pin(sa, 3, l));
    Flat(sa, Pin(sa, 0, i), Pin(sa, 1, j), Pin(sa, 2, k), Pin(sa, 3, l))
  }

  /** The new buffer after the copy loops have written the first `c` offsets;
      the rest keep their fresh values. When some entry of `s` is not positive
      the loop bodies never run and nothing is written. */
  function CopiedPrefix(src: seq<real>, sa: Shape, s: Shape, c: int): (r: seq<real>)
    requires Expandable(sa, s) && Numel(s) >= 0
    requires AllPositive(s) ==> |src| >= Prod4(sa)
    ensures |r| == Numel(s)
  {
    seq(Numel(s), p =>
      if AllPositive(s) && p < c && 0 <= p < Prod4(s) then src[SourceOffset(sa, s, p)] else 0.0)
  }

  /** One pass of the innermost copy loop writes target offset `c` and
      extends the copied prefix by one. */
  lemma CopyStep(src: seq<real>, sa: Shape, s: Shape, i: int, j: int, k: int, l: int)
    requires Expandable(sa, s) && AllPositive(s) && |src| >= Prod4(sa) && InRange(s, i, j, k, l)
    ensures var c := Flat(s, i, j, k, l);
      var q := Flat(sa, Pin(sa, 0, i), Pin(sa, 1, j), Pin(sa, 2, k), Pin(sa, 3, l));
      c == i * (s[1] * (s[2] * s[3])) + j * (s[2] * s[3]) + k * s[3] + l &&
      Numel(s) == Prod4(s) && 0 <= c < Numel(s) && 0 <= q < |src| &&
      CopiedPrefix(src, sa, s, c)[c := src[q]] == CopiedPrefix(src, sa, s, c + 1)
  {
    var c := Flat(s, i, j, k, l);
    FlatStrides(s, i, j, k, l);
    NumelOfRankFour(s);
    SourceOffsetOfFlat(sa, s, i, j, k, l);
    PinnedInRange(sa, s, i, j, k, l);
    FlatInBounds(sa, Pin(sa, 0, i), Pin(sa, 1, j), Pin(sa, 2, k), Pin(sa, 3, l));
  }

  /** The replacement for operand `src` when it is expanded to shape `s`
      (src/utils.c:57-75): `Tensor_new(s, src has a node)`, then the copy.
      None when the element count of `s` is negative or the copy would read
      outside the source buffer. */
  function ExpandResult(m: Mem, src: Tensor, s: Shape): (r: Option<(Mem, Tensor)>)
    requires Wf(m) && Expandable(src.shape, s)
    ensures r.Some? ==> Wf(r.value.0) && Extends(m, r.value.0) && NodesKept(m, r.value.0)
    ensures r.Some? ==> Issued(r.value.0, r.value.1) && Live(r.value.0, r.value.1) && r.value.1.shape == s
    ensures r.Some? ==> (r.value.1.node.Some? <==> src.node.Some?)
  {
    if Numel(s) < 0 then None
    else if AllPositive(s) && !(Live(m, src) && BufNumel(m, src) >= Prod4(src.shape)) then None
    else
      var (m1, t) := NewResult(m, Numel(s), s, src.node.Some?);
      var elems := if AllPositive(s) then Elems(m, src) else [];
      Some((WithElems(m1, t.data.value, CopiedPrefix(elems, src.shape, s, Numel(s))), t))
  }

  /** `cten_elemwise_broadcast(&a, &b)`: whether it succeeded, and the two
      operands afterwards. None when the copy would fail. */
  function BroadcastResult(m: Mem, a: Tensor, b: Tensor): (r: Option<(Mem, bool, Tensor, Tensor)>)
    requires Wf(m)
    ensures r.Some? ==> Wf(r.value.0) && Extends(m, r.value.0) && NodesKept(m, r.value.0)
    ensures r.Some? && Issued(m, a) ==> Issued(r.value.0, r.value.2)
    ensures r.Some? && Issued(m, b) ==> Issued(r.value.0, r.value.3)
    ensures r.Some? && Live(m, a) ==> Live(r.value.0, r.value.2)
    ensures r.Some? && Live(m, b) ==> Live(r.value.0, r.value.3)
    ensures r.Some? ==> (r.value.2.node.Some? <==> a.node.Some?) && (r.value.3.node.Some? <==> b.node.Some?)
  {
    PlanExpandable(a.shape, b.shape);
    match PlanOf(a.shape, b.shape)
    case Incompatible => Some((m, false, a, b))
    case Same => Some((m, true, a, b))
    case ExpandA =>
      var e := ExpandResult(m, a, b.shape);
      if e.None? then None else Some((e.value.0, true, e.value.1, b))
    case ExpandB =>
      var e := ExpandResult(m, b, a.shape);
      if e.None? then None else Some((e.value.0, true, a, e.value.1))
  }

  /** The heap while the copy into buffer `b` is under way: `m1` is the heap
      just after `Tensor_new`, and the first `c` target offsets are written.
      When some entry of `s` is not positive nothing is ever written. */
  ghost predicate Copying(st: Mem, m1: Mem, b: BufferRef, src: Tensor, elems: seq<real>, s: Shape, c: int)
  {
    Expandable(src.shape, s) && Numel(s) >= 0 && b in m1.buffers &&
    (AllPositive(s) ==>
      (Live(m1, src) && src.data.value != b && m1.buffers[src.data.value].flex == elems &&
       |elems| >= Prod4(src.shape) &&
       st == WithElems(m1, b, CopiedPrefix(elems, src.shape, s, c)))) &&
    (!AllPositive(s) ==> st == m1)
  }

  /** The four nested copy loops of src/utils.c:57-74 into a new tensor of
      shape `s`; the three inner loops are `CopyBlock`, `CopyPlane` and
      `CopyRow`. */
  method Expand(h: Heap, src: Tensor, s: Shape) returns (t: Tensor)
    requires h.Valid() && Expandable(src.shape, s) && ExpandResult(h.State(), src, s).Some?
    modifies h
    ensures h.Valid()
    ensures Some((h.State(), t)) == ExpandResult(old(h.State()), src, s)
  {
    ghost var m0 := h.State();
    ghost var elems := if AllPositive(s) then Elems(m0, src) else [];
    t := TensorNew(h, Numel(s), s, src.node.Some?);
    ghost var m1 := h.State();
    var b := t.data.value;
    assert CopiedPrefix(elems, src.shape, s, 0) == h.buffers[b].flex;
    assert WithElems(m1, b, h.buffers[b].flex) == m1;
    FlatNext(s, 0, 0, 0);
    var i := 0;
    while i < s[0]
      invariant 0 <= i && (i == 0 || i <= s[0])
      invariant h.Valid()
      invariant Copying(h.State(), m1, b, src, elems, s, Flat(s, i, 0, 0, 0))
    {
      CopyBlock(h, src, b, s, i, elems, m1);
      FlatNext(s, i, 0, 0);
      i := i + 1;
    }
    if AllPositive(s) {
      NumelOfRankFour(s);
    } else {
      assert CopiedPrefix(elems, src.shape, s, Numel(s)) == m1.buffers[b].flex;
    }
  }

  /** The loop over j for a fixed i. */
  method CopyBlock(h: Heap, src: Tensor, b: BufferRef, s: Shape, i: int, ghost elems: seq<real>, ghost m1: Mem)
    requires h.Valid() && 0 <= i < s[0]
    requires Copying(h.State(), m1, b, src, elems, s, Flat(s, i, 0, 0, 0))
    modifies h
    ensures h.Valid() && Copying(h.State(), m1, b, src, elems, s, Flat(s, i, 0, 0, 0) + s[1] * s[2] * s[3])
  {
    var j := 0;
    while j < s[1]
      invariant 0 <= j && (j == 0 || j <= s[1])
      invariant h.Valid()
      invariant Copying(h.State(), m1, b, src, elems, s, Flat(s, i, j, 0, 0))
    {
      CopyPlane(h, src, b, s, i, j, elems, m1);
      FlatNext(s, i, j, 0);
      j := j + 1;
    }
  }

  /** The loop over k for fixed i and j. */
  method CopyPlane(h: Heap, src: Tensor, b: BufferRef, s: Shape, i: int, j: int, ghost elems: seq<real>, ghost m1: Mem)
    requires h.Valid() && 0 <= i < s[0] && 0 <= j < s[1]
    requires Copying(h.State(), m1, b, src, elems, s, Flat(s, i, j, 0, 0))
    modifies h
    ensures h.Valid() && Copying(h.State(), m1, b, src, elems, s, Flat(s, i, j, 0, 0) + s[2] * s[3])
  {
    var k := 0;
    while k < s[2]
      invariant 0 <= k && (k == 0 || k <= s[2])
      invariant h.Valid()
      invariant Copying(h.State(), m1, b, src, elems, s, Flat(s, i, j, k, 0))
    {
      CopyRow(h, src, b, s, i, j, k, elems, m1);
      FlatNext(s, i, j, k);
      k := k + 1;
    }
  }

  /** The innermost loop over l for fixed i, j and k: target offset
      `Flat(s, i, j, k, l)` receives the source element at the pinned
      indices. */
  method CopyRow(h: Heap, src: Tensor, b: BufferRef, s: Shape, i: int, j: int, k: int,
                 ghost elems: seq<real>, ghost m1: Mem)
    requires h.Valid() && 0 <= i < s[0] && 0 <= j < s[1] && 0 <= k < s[2]
    requires Copying(h.State(), m1, b, src, elems, s, Flat(s, i, j, k, 0))
    modifies h
    ensures h.Valid() && Copying(h.State(), m1, b, src, elems, s, Flat(s, i, j, k, 0) + s[3])
  {
    var sa := src.shape;
    var l := 0;
    while l < s[3]
      invariant 0 <= l && (l == 0 || l <= s[3])
      invariant h.Valid()
      invariant Copying(h.State(), m1, b, src, elems, s, Flat(s, i, j, k, 0) + l)
    {
      var i_ := if sa[0] == 1 then 0 else i;
      var j_ := if sa[1] == 1 then 0 else j;
      var k_ := if sa[2] == 1 then 0 else k;
      var l_ := if sa[3] == 1 then 0 else l;
      CopyStep(elems, sa, s, i, j, k, l);
      var v := h.buffers[src.data.value].flex[Flat(sa, i_, j_, k_, l_)];
      Store(h, b, Flat(s, i, j, k, l), v);
      l := l + 1;
    }
  }

  /** `cten_elemwise_broadcast`. */
  method Broadcast(h: Heap, a: Tensor, b: Tensor) returns (ok: bool, a': Tensor, b': Tensor)
    requires h.Valid() && BroadcastResult(h.State(), a, b).Some?
    modifies h
    ensures h.Valid()
    ensures BroadcastResult(old(h.State()), a, b) == Some((h.State(), ok, a', b'))
  {
    PlanExpandable(a.shape, b.shape);
    var plan := BroadcastPlan(a.shape, b.shape);
    ok, a', b' := plan != Incompatible, a, b;
    if plan == ExpandA {
      a' := Expand(h, a, b.shape);
    } else if plan == ExpandB {
      b' := Expand(h, b, a.shape);
    }
  }

  // ---------------------------------------------------------------------
  // Properties of the result.

  /** Every element of the expanded copy is the source element at the same
      indices with each size-1 axis of the source pinned to 0. */
  lemma ExpandedElement(src: seq<real>, sa: Shape, s: Shape, i: int, j: int, k: int, l: int)
    requires Expandable(sa, s) && AllPositive(s) && |src| >= Prod4(sa) && InRange(s, i, j, k, l)
    ensures Numel(s) == Prod4(s) && 0 <= Flat(s, i, j, k, l) < Numel(s)
    ensures 0 <= Flat(sa, Pin(sa, 0, i), Pin(sa, 1, j), Pin(sa, 2, k), Pin(sa, 3, l)) < |src|
    ensures CopiedPrefix(src, sa, s, Numel(s))[Flat(s, i, j, k, l)] ==
            src[Flat(sa, Pin(sa, 0, i), Pin(sa, 1, j), Pin(sa, 2, k), Pin(sa, 3, l))]
  {
    NumelOfRankFour(s);
    SourceOffsetOfFlat(sa, s, i, j, k, l);
    PinnedInRange(sa, s, i, j, k, l);
    FlatInBounds(sa, Pin(sa, 0, i), Pin(sa, 1, j), Pin(sa, 2, k), Pin(sa, 3, l));
  }

  /** When some entry of the target shape is not positive, the copy loops
      never run and the replacement keeps its fresh contents. */
  lemma ExpandedNothingUnlessAllPositive(src: seq<real>, sa: Shape, s: Shape)
    requires Expandable(sa, s) && Numel(s) >= 0 && !AllPositive(s)
    ensures CopiedPrefix(src, sa, s, Numel(s)) == FreshElems(Numel(s))
  {
  }

  /** After a successful broadcast of shapes the library builds, the two
      operands have the same shape, at most one of them was replaced, and the
      other is returned unchanged. */
  lemma BroadcastAligns(m: Mem, a: Tensor, b: Tensor)
    requires Wf(m) && ValidShape(a.shape) && ValidShape(b.shape)
    requires BroadcastResult(m, a, b).Some?
    ensures var (m', ok, a', b') := BroadcastResult(m, a, b).value;
      ok ==> a'.shape == b'.shape && (a' == a || b' == b)
  {
    var (m', ok, a', b') := BroadcastResult(m, a, b).value;
    var p := PlanOf(a.shape, b.shape);
    if p == Same {
      PlanSameIffEqual(a.shape, b.shape);
    }
  }

  /** A replaced operand gets a node exactly when the original had one, and
      that node is new: it is not linked to the original's node. Nothing
      else in the heap is modified. */
  lemma BroadcastReplacementNode(m: Mem, a: Tensor, b: Tensor)
    requires Wf(m) && BroadcastResult(m, a, b).Some?
    ensures var (m', ok, a', b') := BroadcastResult(m, a, b).value;
      (a' != a ==> PlanOf(a.shape, b.shape) == ExpandA && a'.shape == b.shape && b' == b &&
                   (a'.node.Some? <==> a.node.Some?) && (a'.node.Some? ==> (a'.node.value !in m.nodes &&
                   m'.nodes[a'.node.value] == ZeroedNode))) &&
      (b' != b ==> PlanOf(a.shape, b.shape) == ExpandB && b'.shape == a.shape && a' == a &&
                   (b'.node.Some? <==> b.node.Some?) && (b'.node.Some? ==> (b'.node.value !in m.nodes &&
                   m'.nodes[b'.node.value] == ZeroedNode)))
  {
  }

  /** Incompatible operands come back untouched with `false`. */
  lemma BroadcastFailureUntouched(m: Mem, a: Tensor, b: Tensor)
    requires Wf(m)
    requires Dim(a.shape) != Dim(b.shape) || exists i :: 0 <= i < Dim(a.shape) && Clash(a.shape, b.shape, i)
    ensures BroadcastResult(m, a, b) == Some((m, false, a, b))
  {
  }

  /** Operands of equal shape come back untouched with `true`. */
  lemma BroadcastEqualUntouched(m: Mem, a: Tensor, b: Tensor)
    requires Wf(m) && a.shape == b.shape
    ensures BroadcastResult(m, a, b) == Some((m, true, a, b))
  {
    assert forall i :: 0 <= i < Dim(a.shape) ==> !NeedsA(a.shape, b.shape, i) && !NeedsB(a.shape, b.shape, i) && !Clash(a.shape, b.shape, i);
  }
}
