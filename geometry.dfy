/** Node positions and the squared length of the vector between two of them.
    An edge weighs the Euclidean length of the vector from its source position
    to its target position (positionGraph/edge.go, PGEdge.Weight). Dafny's reals
    have no square root, so this module works with the square of that length;
    the planner itself takes the weight as an abstract function of the two ids. */
module Geometry {

  type Position = seq<real>

  /** Component-wise p - q, as gonum's SubVec writes it into its receiver. */
  function Difference(p: Position, q: Position): (d: Position)
    requires |p| == |q|
    ensures |d| == |p|
  {
    seq(|p|, i requires 0 <= i < |p| => p[i] - q[i])
  }

  /** The sum of the squared components: the square of the 2-norm. */
  function SquaredNorm(v: Position): (r: real)
    ensures r >= 0.0
  {
    if v == [] then 0.0 else v[0] * v[0] + SquaredNorm(v[1..])
  }

  /** The squared weight as edge.go computes it: the difference taken is
      to.Position - to.Position. */
  function SquaredWeightAsWritten(from: Position, to: Position): (r: real)
    requires |from| == |to|
    ensures r == 0.0
  {
    SquaredNormZero(Difference(to, to));
    SquaredNorm(Difference(to, to))
  }

  /** The squared weight the edge is meant to have: the squared distance
      between its two endpoints. */
  function SquaredWeight(from: Position, to: Position): (r: real)
    requires |from| == |to|
    ensures r >= 0.0
  {
    SquaredNorm(Difference(to, from))
  }

  /** A real is a Euclidean weight for two positions when it is the
      non-negative square root of their squared distance. */
  ghost predicate IsEuclidean(weight: real, from: Position, to: Position)
    requires |from| == |to|
  {
    weight >= 0.0 && weight * weight == SquaredWeight(from, to)
  }

  /** A vector has norm zero exactly when all its components are zero. */
  lemma {:induction false} SquaredNormZero(v: Position)
    ensures SquaredNorm(v) == 0.0 <==> forall i :: 0 <= i < |v| ==> v[i] == 0.0
  {
    if v != [] {
      SquaredNormZero(v[1..]);
      var rest := SquaredNorm(v[1..]);
      assert SquaredNorm(v) == v[0] * v[0] + rest;
      assert rest >= 0.0;
      assert v[0] * v[0] >= 0.0;
      SquareZeroOnlyAtZero(v[0]);
      assert SquaredNorm(v) == 0.0 <==> v[0] == 0.0 && rest == 0.0;
      assert (forall i :: 0 <= i < |v| ==> v[i] == 0.0) <==>
             v[0] == 0.0 && (forall i :: 0 <= i < |v[1..]| ==> v[1..][i] == 0.0) by {
        if forall i :: 0 <= i < |v[1..]| ==> v[1..][i] == 0.0 {
          forall i | 1 <= i < |v| ensures v[i] == 0.0 { assert v[i] == v[1..][i - 1]; }
        }
      }
    }
  }

  /** Negating every component leaves the norm unchanged. */
  lemma {:induction false} SquaredNormNegated(u: Position, v: Position)
    requires |u| == |v|
    requires forall i :: 0 <= i < |u| ==> u[i] == -v[i]
    ensures SquaredNorm(u) == SquaredNorm(v)
  {
    if u != [] {
      SquaredNormNegated(u[1..], v[1..]);
      assert u[0] * u[0] == v[0] * v[0];
    }
  }

  /** The edge from a node at (0,0) to a node at (1,0) should weigh 1; as
      written it weighs 0. */
  lemma AsWrittenWeightMissesUnitEdge()
    ensures SquaredWeightAsWritten([0.0, 0.0], [1.0, 0.0]) == 0.0
    ensures SquaredWeight([0.0, 0.0], [1.0, 0.0]) == 1.0
  {
    var d := Difference([1.0, 0.0], [0.0, 0.0]);
    assert d == [1.0, 0.0];
    assert d[1..] == [0.0];
    assert d[1..][1..] == [];
  }

  /** The intended weight does not depend on the direction of the edge. */
  lemma SquaredWeightSymmetric(a: Position, b: Position)
    requires |a| == |b|
    ensures SquaredWeight(a, b) == SquaredWeight(b, a)
  {
    SquaredNormNegated(Difference(b, a), Difference(a, b));
  }

  /** The intended weight is zero exactly when the endpoints coincide. */
  lemma SquaredWeightZeroIff(a: Position, b: Position)
    requires |a| == |b|
    ensures SquaredWeight(a, b) == 0.0 <==> a == b
  {
    var d := Difference(b, a);
    SquaredNormZero(d);
    if SquaredWeight(a, b) == 0.0 {
      forall i | 0 <= i < |a| ensures a[i] == b[i] { assert d[i] == 0.0; }
    }
  }

  /** Two Euclidean weights for the same pair of positions, read in either
      direction, are the same real. */
  lemma EuclideanIsSymmetric(x: real, y: real, a: Position, b: Position)
    requires |a| == |b|
    requires IsEuclidean(x, a, b) && IsEuclidean(y, b, a)
    ensures x == y
  {
    SquaredWeightSymmetric(a, b);
    if x < y {
      var p := PositiveProduct(y - x, y + x);
    } else if y < x {
      var p := PositiveProduct(x - y, x + y);
    }
  }

  /** The product of two positive reals is positive (stated through a named
      product, which the solver handles better than the bare term). */
  lemma PositiveProduct(a: real, b: real) returns (p: real)
    requires a > 0.0 && b > 0.0
    ensures p == a * b && p > 0.0
  {
    p := a * b;
  }

  /** Only zero squares to zero. */
  lemma SquareZeroOnlyAtZero(x: real)
    ensures x * x == 0.0 <==> x == 0.0
  {
    if x > 0.0 {
      var p := PositiveProduct(x, x);
    } else if x < 0.0 {
      var p := PositiveProduct(-x, -x);
      assert p == x * x;
    }
  }
}
