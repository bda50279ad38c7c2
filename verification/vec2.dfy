/** Two-dimensional vectors (Vec2) with exact real components in place of
    single-precision floats. */
module Vectors {

  datatype Vec2 = Vec2(x: real, y: real)

  const Zero := Vec2(0.0, 0.0)
  const One := Vec2(1.0, 1.0)
  const Right := Vec2(1.0, 0.0)
  const Left := Vec2(-1.0, 0.0)
  const Up := Vec2(0.0, 1.0)
  const Down := Vec2(0.0, -1.0)

  function Add(a: Vec2, b: Vec2): Vec2 { Vec2(a.x + b.x, a.y + b.y) }
  function Sub(a: Vec2, b: Vec2): Vec2 { Vec2(a.x - b.x, a.y - b.y) }
  function Neg(a: Vec2): Vec2 { Vec2(-a.x, -a.y) }
  function Scale(k: real, a: Vec2): Vec2 { Vec2(k * a.x, k * a.y) }
  function Mul(a: Vec2, b: Vec2): Vec2 { Vec2(a.x * b.x, a.y * b.y) }
  function Dot(a: Vec2, b: Vec2): real { a.x * b.x + a.y * b.y }
  function Cross(a: Vec2, b: Vec2): real { a.x * b.y - b.x * a.y }
  function SquaredLength(a: Vec2): real { a.x * a.x + a.y * a.y }
  function SquaredDistance(a: Vec2, b: Vec2): real { SquaredLength(Sub(a, b)) }
  /** `area()` of a vector used as a size. */
  function Area(a: Vec2): real { a.x * a.y }
  function Lerp(t: real, a: Vec2, b: Vec2): Vec2 { Add(Scale(1.0 - t, a), Scale(t, b)) }

  /** `sign` of the engine's utilities: -1, 0 or 1. */
  function Sign(n: real): (r: real)
    ensures r == 0.0 <==> n == 0.0
    ensures r == 1.0 <==> n > 0.0
    ensures r == -1.0 <==> n < 0.0
  {
    if n == 0.0 then 0.0 else if n > 0.0 then 1.0 else -1.0
  }

  /** A square root supplied from outside: the model never computes one, it
      only relies on its defining property. */
  ghost predicate IsSqrt(sqrt: real -> real)
  {
    (forall v :: 0.0 <= v ==> 0.0 <= sqrt(v) && sqrt(v) * sqrt(v) == v) &&
    sqrt(0.0) == 0.0 &&
    (forall v :: 0.0 < v ==> 0.0 < sqrt(v)) &&
    (forall u, v :: 0.0 <= u <= v ==> sqrt(u) <= sqrt(v))
  }

  /** `isZero()` with exact comparison. */
  predicate IsZero(a: Vec2) { a.x == 0.0 && a.y == 0.0 }

  /** A product kept as one term, so that facts about squares carry over
      between proofs. */
  function Times(a: real, b: real): real { a * b }

  lemma PositiveProduct(a: real, b: real)
    requires a > 0.0 && b > 0.0
    ensures Times(a, b) > 0.0
  {
  }

  lemma PositiveSquare(a: real)
    requires a != 0.0
    ensures Times(a, a) > 0.0
  {
    if a > 0.0 {
      PositiveProduct(a, a);
    } else {
      PositiveProduct(-a, -a);
      assert Times(a, a) == Times(-a, -a);
    }
  }

  /** Only the zero vector has squared length zero. */
  lemma NonZeroHasPositiveLength(v: Vec2)
    requires !IsZero(v)
    ensures SquaredLength(v) > 0.0
  {
    assert SquaredLength(v) == Times(v.x, v.x) + Times(v.y, v.y);
    if v.x != 0.0 { PositiveSquare(v.x); } else { assert Times(v.x, v.x) == Times(0.0, 0.0); }
    if v.y != 0.0 { PositiveSquare(v.y); } else { assert Times(v.y, v.y) == Times(0.0, 0.0); }
  }

  /** `rotated90()`: (x, y) becomes (-y, x), a quarter turn counter-clockwise. */
  function Rotated90(a: Vec2): (r: Vec2)
    ensures Rotated90Inverse(r) == a
  {
    Vec2(-a.y, a.x)
  }

  /** The quarter turn clockwise; undoes Rotated90. */
  function Rotated90Inverse(a: Vec2): Vec2 { Vec2(a.y, -a.x) }

  /** A quarter turn keeps the length, is orthogonal to the vector and turns
      it counter-clockwise. */
  lemma QuarterTurn(a: Vec2)
    ensures Dot(Rotated90(a), a) == 0.0
    ensures SquaredLength(Rotated90(a)) == SquaredLength(a)
    ensures Cross(a, Rotated90(a)) == SquaredLength(a)
  {
  }

  /** The quarter turn of any multiple of a vector is orthogonal to it. */
  lemma QuarterTurnOfMultiple(a: Vec2, k: real)
    ensures Dot(Rotated90(Scale(k, a)), a) == 0.0
  {
  }

  /** `isPerpendicularTo` with exact comparison. */
  predicate IsPerpendicularTo(a: Vec2, b: Vec2) { a.x * b.x + a.y * b.y == 0.0 }

  /** `isParallelTo` with exact comparison: dot^2 - |a|^2 |b|^2 == 0. */
  predicate IsParallelTo(a: Vec2, b: Vec2)
  {
    var dt := a.x * b.x + a.y * b.y;
    dt * dt - SquaredLength(a) * SquaredLength(b) == 0.0
  }

  /** Lagrange's identity in the plane. */
  lemma Lagrange(a: Vec2, b: Vec2)
    ensures Dot(a, b) * Dot(a, b) + Cross(a, b) * Cross(a, b) == SquaredLength(a) * SquaredLength(b)
  {
  }

  /** The parallel test is exactly the vanishing of the cross product. */
  lemma ParallelIffCrossZero(a: Vec2, b: Vec2)
    ensures IsParallelTo(a, b) <==> Cross(a, b) * Cross(a, b) == 0.0
    ensures IsParallelTo(a, b) <==> Cross(a, b) == 0.0
  {
    Lagrange(a, b);
    if Cross(a, b) != 0.0 {
      PositiveSquare(Cross(a, b));
    }
  }

  /** Scaled vectors are parallel; a quarter turn is perpendicular. */
  lemma MultipleIsParallel(a: Vec2, k: real)
    ensures IsParallelTo(a, Scale(k, a))
    ensures IsPerpendicularTo(a, Rotated90(a))
  {
    Lagrange(a, Scale(k, a));
  }

  /** `pointsAtSameDirection`. */
  predicate PointsAtSameDirection(a: Vec2, b: Vec2) { Dot(a, b) >= 0.0 }

  /** `isBetween(v1, v2)` of the receiver `v`: the three cross products have
      the same sign. */
  predicate IsBetween(v: Vec2, v1: Vec2, v2: Vec2)
  {
    var c1 := Sign(v1.x * v2.y - v2.x * v1.y);
    var c2 := Sign(v1.x * v.y - v.x * v1.y);
    var c3 := Sign(v.x * v2.y - v2.x * v.y);
    c1 == c2 && c2 == c3
  }

  /** A positive multiple of v1 + v2 lies between two non-parallel vectors in
      either order, and its negation does not. */
  lemma MidwayIsBetween(v1: Vec2, v2: Vec2, k: real)
    requires Cross(v1, v2) != 0.0 && k > 0.0
    ensures IsBetween(Scale(k, Add(v1, v2)), v1, v2)
    ensures IsBetween(Scale(k, Add(v1, v2)), v2, v1)
    ensures !IsBetween(Neg(Scale(k, Add(v1, v2))), v2, v1)
    ensures !IsBetween(Neg(Scale(k, Add(v1, v2))), v1, v2)
  {
    var m := Scale(k, Add(v1, v2));
    var c := Cross(v1, v2);
    assert Cross(v1, m) == k * c;
    assert Cross(m, v2) == k * c;
    assert Cross(v2, m) == -(k * c);
    assert Cross(m, v1) == -(k * c);
    assert Cross(v2, v1) == -c;
    assert Sign(k * c) == Sign(c) by {
      if c > 0.0 { assert k * c > 0.0; } else { assert k * c < 0.0; }
    }
    assert Sign(-(k * c)) == -Sign(c) by {
      if c > 0.0 { assert k * c > 0.0; } else { assert k * c < 0.0; }
    }
  }

  /** Cross products of the unit directions: positive for a counter-clockwise
      turn, zero for opposite vectors, negative for a clockwise turn. */
  lemma CrossExamples()
    ensures Cross(Right, Up) > 0.0
    ensures Cross(Right, Left) == 0.0
    ensures Cross(Right, Down) < 0.0
  {
  }

  /** The worked examples: right, up and their midway vector. */
  lemma MidwayExamples()
    ensures IsBetween(Scale(0.5, Add(Right, Up)), Right, Up)
    ensures IsBetween(Scale(0.5, Add(Right, Up)), Up, Right)
    ensures !IsBetween(Neg(Scale(0.5, Add(Right, Up))), Up, Right)
  {
    MidwayIsBetween(Right, Up, 0.5);
  }

  /** `operator<`: lexicographic on (x, y). */
  predicate Less(a: Vec2, b: Vec2) { if a.x == b.x then a.y < b.y else a.x < b.x }
  /** `operator>`. */
  predicate Greater(a: Vec2, b: Vec2) { if a.x == b.x then a.y > b.y else a.x > b.x }
  /** `operator<=`. */
  predicate LessEq(a: Vec2, b: Vec2)
  {
    if a.x == b.x && a.y == b.y then true else if a.x == b.x then a.y < b.y else a.x < b.x
  }
  /** `operator>=`. */
  predicate GreaterEq(a: Vec2, b: Vec2)
  {
    if a.x == b.x && a.y == b.y then true else if a.x == b.x then a.y > b.y else a.x > b.x
  }

  /** The comparison operators form the lexicographic strict total order on
      (x, y) and its reflexive closure, with > the converse of <. */
  lemma OrderingIsLexicographic(a: Vec2, b: Vec2, c: Vec2)
    ensures Less(a, b) <==> (a.x < b.x || (a.x == b.x && a.y < b.y))
    ensures Greater(a, b) <==> Less(b, a)
    ensures LessEq(a, b) <==> (Less(a, b) || a == b)
    ensures GreaterEq(a, b) <==> LessEq(b, a)
    ensures !Less(a, a)
    ensures Less(a, b) && Less(b, c) ==> Less(a, c)
    ensures a != b ==> (Less(a, b) <==> !Less(b, a))
  {
  }
}
