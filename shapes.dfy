// Shapes of tensors of rank at most four (include/cten.h:7, include/cten.h:32-33).
//
// A TensorShape is four ints. A zero entry marks the first unused axis, so the
// rank of a shape is the number of leading non-zero entries and its element
// count is the product of those entries. The header declares TensorShape_dim
// and TensorShape_numel without bodies; they are defined here as the
// specification helpers the rest of the model uses.

module Shapes {

  /** A TensorShape: exactly four entries. */
  type Shape = s: seq<int> | |s| == 4 witness [0, 0, 0, 0]

  /** The shape with every axis unused, as written `(TensorShape){0}`. */
  const Scalar: Shape := [0, 0, 0, 0]

  /** TensorShape_dim: the number of leading non-zero entries. */
  function Dim(s: Shape): (d: nat)
    ensures d <= 4
    ensures forall i :: 0 <= i < d ==> s[i] != 0
    ensures d < 4 ==> s[d] == 0
  {
    if s[0] == 0 then 0
    else if s[1] == 0 then 1
    else if s[2] == 0 then 2
    else if s[3] == 0 then 3
    else 4
  }

  /** Product of a sequence of ints; 1 for the empty sequence. */
  function Product(xs: seq<int>): int
  {
    if xs == [] then 1 else xs[0] * Product(xs[1..])
  }

  /** TensorShape_numel: the product of the leading non-zero entries. */
  function Numel(s: Shape): int
  {
    Product(s[..Dim(s)])
  }

  /** A shape the library's own constructors produce: no negative entry, and
      no non-zero entry after a zero one. */
  predicate ValidShape(s: Shape)
  {
    (forall i :: 0 <= i < 4 ==> s[i] >= 0) &&
    (forall i :: Dim(s) <= i < 4 ==> s[i] == 0)
  }

  /** True when all four entries are positive, i.e. when four nested loops
      `for (i = 0; i < shape[k]; i++)` all execute their bodies. */
  predicate AllPositive(s: Shape)
  {
    s[0] > 0 && s[1] > 0 && s[2] > 0 && s[3] > 0
  }

  /** The product of all four entries. */
  function Prod4(s: Shape): int
  {
    s[0] * s[1] * s[2] * s[3]
  }

  lemma {:induction false} ProductOfPositives(xs: seq<int>)
    requires forall i :: 0 <= i < |xs| ==> xs[i] > 0
    ensures Product(xs) >= 1
  {
    if xs != [] {
      ProductOfPositives(xs[1..]);
      MulAtLeastOne(xs[0], Product(xs[1..]));
    }
  }

  lemma MulAtLeastOne(x: int, y: int)
    requires x >= 1 && y >= 1
    ensures x * y >= 1
  {
    assert x * y >= 1 * y by { MulMonotone(1, x, y); }
  }

  lemma MulMonotone(a: int, b: int, c: int)
    requires a <= b && c >= 0
    ensures a * c <= b * c
  {
    assert b * c - a * c == (b - a) * c;
  }

  /** Every shape the library builds has at least one element. */
  lemma NumelOfValidShape(s: Shape)
    requires ValidShape(s)
    ensures Numel(s) >= 1
  {
    ProductOfPositives(s[..Dim(s)]);
  }

  /** With all four axes in use, the element count is the product of all four. */
  lemma NumelOfRankFour(s: Shape)
    requires Dim(s) == 4
    ensures Numel(s) == Prod4(s)
  {
    assert s[..4] == s;
    assert Product(s[3..]) == s[3];
    assert Product(s[2..]) == s[2] * s[3];
    assert Product(s[1..]) == s[1] * (s[2] * s[3]);
    assert s[0] * (s[1] * (s[2] * s[3])) == s[0] * s[1] * s[2] * s[3];
  }

  /** Two valid shapes with the same rank and the same used entries are equal. */
  lemma ValidShapesEqual(a: Shape, b: Shape)
    requires ValidShape(a) && ValidShape(b)
    requires Dim(a) == Dim(b)
    requires forall i :: 0 <= i < Dim(a) ==> a[i] == b[i]
    ensures a == b
  {
    forall i | 0 <= i < 4
      ensures a[i] == b[i]
    {
    }
  }

  // ---------------------------------------------------------------------
  // Row-major indexing over four axes.

  /** The row-major offset of (i, j, k, l), written as the source writes it. */
  function Flat(s: Shape, i: int, j: int, k: int, l: int): int
  {
    i * s[1] * s[2] * s[3] + j * s[2] * s[3] + k * s[3] + l
  }

  /** The indices of a row-major offset: the inverse of Flat. */
  function Unflat(s: Shape, p: int): (ix: (int, int, int, int))
    requires AllPositive(s)
  {
    var l := p % s[3];
    var q3 := p / s[3];
    var k := q3 % s[2];
    var q2 := q3 / s[2];
    var j := q2 % s[1];
    var i := q2 / s[1];
    (i, j, k, l)
  }

  predicate InRange(s: Shape, i: int, j: int, k: int, l: int)
  {
    0 <= i < s[0] && 0 <= j < s[1] && 0 <= k < s[2] && 0 <= l < s[3]
  }

  lemma DivModOf(q: int, d: int, r: int)
    requires d > 0 && 0 <= r < d
    ensures (q * d + r) / d == q && (q * d + r) % d == r
  {
    var x := q * d + r;
    var q', r' := x / d, x % d;
    assert x == q' * d + r';
    assert (q - q') * d == r' - r;
    if q - q' > 0 {
      MulMonotone(1, q - q', d);
    } else if q - q' < 0 {
      MulMonotone(1, q' - q, d);
    }
  }

  lemma FlatNested(s: Shape, i: int, j: int, k: int, l: int)
    ensures Flat(s, i, j, k, l) == ((i * s[1] + j) * s[2] + k) * s[3] + l
  {
    assert i * s[1] * s[2] * s[3] == ((i * s[1]) * s[2]) * s[3];
    assert ((i * s[1] + j) * s[2] + k) * s[3] == (i * s[1]) * s[2] * s[3] + j * s[2] * s[3] + k * s[3];
  }

  /** Bounds of a mixed-radix digit pair: x < a and y < b give x * b + y < a * b. */
  lemma Radix(x: int, y: int, a: int, b: int)
    requires 0 <= x < a && 0 <= y < b
    ensures 0 <= x * b + y < a * b
  {
    MulMonotone(x, a - 1, b);
    MulMonotone(0, x, b);
    assert (a - 1) * b == a * b - b;
  }

  /** With every axis positive there is at least one element. */
  lemma Prod4Positive(s: Shape)
    requires AllPositive(s)
    ensures Prod4(s) >= 1
  {
    MulAtLeastOne(s[0], s[1]);
    MulAtLeastOne(s[0] * s[1], s[2]);
    MulAtLeastOne(s[0] * s[1] * s[2], s[3]);
  }

  /** Flat in terms of the strides of the three inner axes. */
  lemma FlatStrides(s: Shape, i: int, j: int, k: int, l: int)
    ensures Flat(s, i, j, k, l) == i * (s[1] * (s[2] * s[3])) + j * (s[2] * s[3]) + k * s[3] + l
    ensures Prod4(s) == s[0] * (s[1] * (s[2] * s[3]))
  {
    assert i * s[1] * s[2] * s[3] == i * (s[1] * (s[2] * s[3]));
    assert j * s[2] * s[3] == j * (s[2] * s[3]);
    assert s[0] * s[1] * s[2] * s[3] == s[0] * (s[1] * (s[2] * s[3]));
  }

  lemma Carry(x: int, n: int)
    ensures x * n + n == (x + 1) * n
  {
  }

  /** Advancing one index moves the offset by that axis's stride. */
  lemma FlatNext(s: Shape, i: int, j: int, k: int)
    ensures Flat(s, i, j, k, 0) + s[3] == Flat(s, i, j, k + 1, 0)
    ensures Flat(s, i, j, 0, 0) + s[2] * s[3] == Flat(s, i, j + 1, 0, 0)
    ensures Flat(s, i, 0, 0, 0) + s[1] * s[2] * s[3] == Flat(s, i + 1, 0, 0, 0)
    ensures Flat(s, 0, 0, 0, 0) == 0 && Flat(s, s[0], 0, 0, 0) == Prod4(s)
  {
    FlatStrides(s, i, j, k, 0);
    FlatStrides(s, i, j, k + 1, 0);
    FlatStrides(s, i, j, 0, 0);
    FlatStrides(s, i, j + 1, 0, 0);
    FlatStrides(s, i, 0, 0, 0);
    FlatStrides(s, i + 1, 0, 0, 0);
    FlatStrides(s, s[0], 0, 0, 0);
    Carry(k, s[3]);
    Carry(j, s[2] * s[3]);
    Carry(i, s[1] * (s[2] * s[3]));
    assert s[1] * s[2] * s[3] == s[1] * (s[2] * s[3]);
  }

  /** In-range indices have an in-range offset. */
  lemma FlatInBounds(s: Shape, i: int, j: int, k: int, l: int)
    requires InRange(s, i, j, k, l)
    ensures 0 <= Flat(s, i, j, k, l) < Prod4(s)
  {
    FlatNested(s, i, j, k, l);
    Radix(i, j, s[0], s[1]);
    Radix(i * s[1] + j, k, s[0] * s[1], s[2]);
    Radix((i * s[1] + j) * s[2] + k, l, s[0] * s[1] * s[2], s[3]);
  }

  /** Unflat inverts Flat on in-range indices. */
  lemma UnflatFlat(s: Shape, i: int, j: int, k: int, l: int)
    requires AllPositive(s) && InRange(s, i, j, k, l)
    ensures Unflat(s, Flat(s, i, j, k, l)) == (i, j, k, l)
  {
    FlatNested(s, i, j, k, l);
    var p := Flat(s, i, j, k, l);
    DivModOf((i * s[1] + j) * s[2] + k, s[3], l);
    DivModOf(i * s[1] + j, s[2], k);
    DivModOf(i, s[1], j);
  }

  /** Dividing an offset below m * d by d gives a quotient below m. */
  lemma DivBelow(p: int, d: int, m: int)
    requires d > 0 && 0 <= p < m * d
    ensures 0 <= p / d < m
  {
    if p / d >= m {
      MulMonotone(m, p / d, d);
    }
  }

  /** Unflat of an in-range offset gives in-range indices. */
  lemma UnflatInRange(s: Shape, p: int)
    requires AllPositive(s) && 0 <= p < Prod4(s)
    ensures var (i, j, k, l) := Unflat(s, p); InRange(s, i, j, k, l) && Flat(s, i, j, k, l) == p
  {
    var (i, j, k, l) := Unflat(s, p);
    var q3 := p / s[3];
    var q2 := q3 / s[2];
    DivBelow(p, s[3], s[0] * s[1] * s[2]);
    DivBelow(q3, s[2], s[0] * s[1]);
    DivBelow(q2, s[1], s[0]);
    assert p == q3 * s[3] + l;
    assert q3 == q2 * s[2] + k;
    assert q2 == i * s[1] + j;
    FlatNested(s, i, j, k, l);
  }
}
