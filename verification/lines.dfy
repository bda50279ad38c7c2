/** Rays, infinite lines and line segments. Their constructors normalise the
    direction with a square root; the model takes the root as a parameter
    that is only required to be a square root. */
module Lines {
  import opened Vectors

  /** The reciprocal of a vector's length, and zero for the zero vector. */
  function InverseLength(v: Vec2, sqrt: real -> real): (k: real)
    requires IsSqrt(sqrt)
    ensures k >= 0.0
    ensures SquaredLength(v) > 0.0 ==> k * sqrt(SquaredLength(v)) == 1.0
  {
    if SquaredLength(v) <= 0.0 then 0.0
    else
      var len := sqrt(SquaredLength(v));
      assert len > 0.0;
      1.0 / len
  }

  /** `normalize()`: v divided by its length. The zero vector, whose
      normalisation is NaN in single precision, is left as the zero vector. */
  function Normalized(v: Vec2, sqrt: real -> real): (r: Vec2)
    requires IsSqrt(sqrt)
    ensures SquaredLength(v) <= 0.0 ==> r == Zero
  {
    Scale(InverseLength(v, sqrt), v)
  }

  /** Scaling the normalised vector by the length gives back the vector. */
  lemma NormalizedRecovers(v: Vec2, sqrt: real -> real)
    requires IsSqrt(sqrt)
    ensures SquaredLength(v) > 0.0 ==> Scale(sqrt(SquaredLength(v)), Normalized(v, sqrt)) == v
  {
    if SquaredLength(v) > 0.0 {
      var k := InverseLength(v, sqrt);
      assert sqrt(SquaredLength(v)) * k == 1.0;
    }
  }

  /** A normalised non-zero vector has length one. */
  lemma NormalizedIsUnit(v: Vec2, sqrt: real -> real)
    requires IsSqrt(sqrt)
    ensures SquaredLength(v) > 0.0 ==> SquaredLength(Normalized(v, sqrt)) == 1.0
  {
    if SquaredLength(v) > 0.0 {
      var k := InverseLength(v, sqrt);
      var len := sqrt(SquaredLength(v));
      assert k * len == 1.0 && len * len == SquaredLength(v);
      calc {
        SquaredLength(Normalized(v, sqrt));
        (k * v.x) * (k * v.x) + (k * v.y) * (k * v.y);
        (k * k) * SquaredLength(v);
        (k * k) * (len * len);
        (k * len) * (k * len);
      }
    }
  }

  /** A line segment between two points. */
  datatype Segment = Segment(pointA: Vec2, pointB: Vec2)

  /** An infinite line through `pointA`, with the (unit) direction the
      constructor computed towards its second point. */
  datatype Line = Line(pointA: Vec2, direction: Vec2)

  /** `Line(pointA, pointB)`. */
  function LineThrough(a: Vec2, b: Vec2, sqrt: real -> real): (l: Line)
    requires IsSqrt(sqrt)
    ensures l.pointA == a
  {
    Line(a, Normalized(Sub(b, a), sqrt))
  }

  /** The direction of `Line(a, b)` scaled by the distance from a to b leads
      from a to b. */
  lemma LineThroughDirection(a: Vec2, b: Vec2, sqrt: real -> real)
    requires IsSqrt(sqrt)
    ensures SquaredDistance(b, a) > 0.0 ==> Scale(sqrt(SquaredDistance(b, a)), LineThrough(a, b, sqrt).direction) == Sub(b, a)
  {
    NormalizedRecovers(Sub(b, a), sqrt);
  }

  /** `LineSegment::containingLine()`. */
  function ContainingLine(s: Segment, sqrt: real -> real): Line
    requires IsSqrt(sqrt)
  {
    LineThrough(s.pointA, s.pointB, sqrt)
  }

  /** `projectionOver` onto a unit direction. */
  function ProjectionOnto(v: Vec2, dir: Vec2): Vec2 { Scale(Dot(v, dir), dir) }

  /** `perpendicularVector`: the component of `p - pointA` orthogonal to the
      line's direction. */
  function PerpendicularVector(l: Line, p: Vec2): (r: Vec2)
    ensures SquaredLength(l.direction) == 1.0 ==> Dot(r, l.direction) == 0.0
  {
    var v := Sub(p, l.pointA);
    Sub(v, ProjectionOnto(v, l.direction))
  }

  /** `containsPoint(point)`: the point has no component orthogonal to the
      line. */
  predicate ContainsPoint(l: Line, p: Vec2)
  {
    IsZero(PerpendicularVector(l, p))
  }

  /** `squaredDistanceFrom`. */
  function LineSquaredDistance(l: Line, p: Vec2): real
  {
    SquaredLength(PerpendicularVector(l, p))
  }

  /** A ray: an origin and a unit direction. */
  datatype Ray = Ray(point: Vec2, direction: Vec2)

  /** `Ray(point, direction)` with the default normalisation. */
  function MakeRay(point: Vec2, direction: Vec2, sqrt: real -> real): (r: Ray)
    requires IsSqrt(sqrt)
    ensures r.point == point
  {
    Ray(point, Normalized(direction, sqrt))
  }

  /** The ray's direction scaled by the length of the given direction gives
      back the given direction. */
  lemma MakeRayDirection(point: Vec2, direction: Vec2, sqrt: real -> real)
    requires IsSqrt(sqrt)
    ensures SquaredLength(direction) > 0.0 ==> Scale(sqrt(SquaredLength(direction)), MakeRay(point, direction, sqrt).direction) == direction
  {
    NormalizedRecovers(direction, sqrt);
  }

  /** `sampleAlongRay(t)`. */
  function SampleAlongRay(r: Ray, t: real): Vec2 { Add(r.point, Scale(t, r.direction)) }

  /** `computeT(pt)`: the signed length of the projection of pt - origin onto
      the direction. */
  function ComputeT(r: Ray, pt: Vec2, sqrt: real -> real): real
    requires IsSqrt(sqrt)
  {
    var v := ProjectionOnto(Sub(pt, r.point), r.direction);
    var len := sqrt(SquaredLength(v));
    if Dot(v, r.direction) >= 0.0 then len else -len
  }
}
