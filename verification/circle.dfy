/** Circles: a centre and a non-negative radius. */
module Circles {
  import opened Vectors
  import Rects

  datatype Circle = Circle(center: Vec2, radius: real)

  /** The constructor and both setters assert a non-negative radius. */
  predicate WellFormed(c: Circle) { c.radius >= 0.0 }

  /** `Circle()`: radius 0 at the origin. */
  const Default := Circle(Zero, 0.0)

  /** `Circle(center, radius)`. */
  function MakeCircle(center: Vec2, radius: real): (c: Circle)
    requires radius >= 0.0
    ensures WellFormed(c) && c.center == center && c.radius == radius
  {
    Circle(center, radius)
  }

  /** `setRadius`. */
  function SetRadius(c: Circle, value: real): (r: Circle)
    requires value >= 0.0
    ensures WellFormed(r) && r.center == c.center && r.radius == value
  {
    c.(radius := value)
  }

  /** `diameter()`. */
  function Diameter(c: Circle): real { c.radius * 2.0 }

  /** `setDiameter`: the radius becomes half the value, so the diameter reads
      back the value. */
  function SetDiameter(c: Circle, value: real): (r: Circle)
    requires value >= 0.0
    ensures WellFormed(r) && r.center == c.center && Diameter(r) == value
  {
    c.(radius := value / 2.0)
  }

  /** `bounds()`: the square of side 2r centred on the centre. */
  function Bounds(c: Circle): (r: Rects.Rect)
    requires WellFormed(c)
    ensures Rects.WellFormed(r) && r.center == c.center
    ensures Rects.Left(r) == c.center.x - c.radius && Rects.Right(r) == c.center.x + c.radius
    ensures Rects.Bottom(r) == c.center.y - c.radius && Rects.Top(r) == c.center.y + c.radius
  {
    Rects.Rect(c.center, Vec2(c.radius * 2.0, c.radius * 2.0))
  }

  /** `containsPoint`: squared distance to the centre at most r^2. */
  predicate ContainsPoint(c: Circle, p: Vec2)
  {
    SquaredLength(Sub(p, c.center)) <= c.radius * c.radius
  }

  /** `containsCircle`: distance between centres plus the other radius at most
      this radius. */
  predicate ContainsCircle(c: Circle, other: Circle, sqrt: real -> real)
    requires IsSqrt(sqrt)
  {
    sqrt(SquaredDistance(c.center, other.center)) + other.radius <= c.radius
  }

  /** Every circle contains itself. */
  lemma ContainsItself(c: Circle, sqrt: real -> real)
    requires IsSqrt(sqrt) && WellFormed(c)
    ensures ContainsCircle(c, c, sqrt)
  {
    assert SquaredDistance(c.center, c.center) == 0.0;
  }

  /** A contained circle has a radius no larger than the container's, and its
      centre lies inside the container. */
  lemma ContainedCircle(c: Circle, other: Circle, sqrt: real -> real)
    requires IsSqrt(sqrt) && WellFormed(c) && WellFormed(other)
    requires ContainsCircle(c, other, sqrt)
    ensures other.radius <= c.radius
    ensures ContainsPoint(c, other.center)
  {
    var d2 := SquaredDistance(c.center, other.center);
    SquaresAreNonNegative(c.center.x - other.center.x, c.center.y - other.center.y);
    var d := sqrt(d2);
    assert d * d == d2;
    SquareMonotone(d, c.radius);
    assert SquaredLength(Sub(other.center, c.center)) == d2;
  }

  lemma SquaresAreNonNegative(a: real, b: real)
    ensures a * a + b * b >= 0.0
  {
    if a < 0.0 { assert (-a) * (-a) >= 0.0; }
    if b < 0.0 { assert (-b) * (-b) >= 0.0; }
  }

  lemma SquareMonotone(a: real, b: real)
    requires 0.0 <= a <= b
    ensures a * a <= b * b
  {
    assert a * a <= a * b;
    assert a * b <= b * b;
  }
}
