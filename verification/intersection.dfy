/** Intersection queries between rays, lines, segments, rectangles, circles
    and polygons. `aeq` is exact equality here, so the code's snapping of a
    hit onto a nearby end point only ever replaces a point by itself. */
module Intersections {
  import opened Vectors
  import opened Lines
  import opened Options
  import Rects
  import Circles
  import Polygons

  /** `IntersectionInfo`: `empty`, or a contact normal and a penetration. */
  datatype IntersectionInfo = IntersectionInfo(empty: bool, normal: Vec2, penetration: real)

  /** `IntersectionInfo()`: empty, zero normal and zero penetration. */
  const NoIntersection := IntersectionInfo(true, Zero, 0.0)

  /** `IntersectionInfo(normal, penetration)`. */
  function Contact(normal: Vec2, penetration: real): (i: IntersectionInfo)
    ensures !i.empty && i.normal == normal && i.penetration == penetration
  {
    IntersectionInfo(false, normal, penetration)
  }

  // ---------------------------------------------------------------------
  // Rays, lines and segments

  /** The parameters t along the first direction and u along the second at
      which two lines with non-parallel directions meet. */
  datatype Crossing = Crossing(t: real, u: real)

  /** A product with a non-zero factor vanishes only when the other does. */
  lemma CancelNonZero(a: real, b: real, d: real)
    requires d != 0.0 && a * d == b * d
    ensures a == b
  {
    assert (a - b) * d == 0.0;
  }

  /** Cramer's rule for p + t * da == q + u * db, coordinate by coordinate:
      with dt = cross(da, db) != 0, the code's quotients solve both
      equations. */
  lemma CramerSolves(px: real, py: real, qx: real, qy: real, dx: real, dy: real, dt: real, t: real, u: real)
    requires dt == px * qy - qx * py && dt != 0.0
    requires u * dt == px * dy - py * dx
    requires t * dt == qx * dy - qy * dx
    ensures dx + t * px == u * qx
    ensures dy + t * py == u * qy
  {
    assert (dx + t * px) * dt == dx * dt + (t * dt) * px;
    assert (u * qx) * dt == (u * dt) * qx;
    CancelNonZero(dx + t * px, u * qx, dt);
    assert (dy + t * py) * dt == dy * dt + (t * dt) * py;
    assert (u * qy) * dt == (u * dt) * qy;
    CancelNonZero(dy + t * py, u * qy, dt);
  }

  /** The common computation of the ray and line queries: `dt` is the cross
      product of the directions, `dx`/`dy` the offset between the start
      points, and `u`, `t` the two quotients. The result is the point where
      both lines meet. */
  function CrossingOf(p: Vec2, da: Vec2, q: Vec2, db: Vec2): (c: Crossing)
    requires Cross(da, db) != 0.0
    ensures Add(p, Scale(c.t, da)) == Add(q, Scale(c.u, db))
  {
    var dt := da.x * db.y - db.x * da.y;
    var dx := p.x - q.x;
    var dy := p.y - q.y;
    var u := (da.x * dy - da.y * dx) / dt;
    var t := (db.x * dy - db.y * dx) / dt;
    CramerSolves(da.x, da.y, db.x, db.y, dx, dy, dt, t, u);
    Crossing(t, u)
  }

  /** A multiple of a non-zero vector is zero only for the factor zero. */
  lemma ScaleOfNonZero(k: real, v: Vec2)
    requires !IsZero(v) && Scale(k, v) == Zero
    ensures k == 0.0
  {
    if v.x != 0.0 {
      CancelNonZero(k, 0.0, v.x);
    } else {
      CancelNonZero(k, 0.0, v.y);
    }
  }

  /** Two directions with a non-zero cross product are both non-zero. */
  lemma NonParallelAreNonZero(a: Vec2, b: Vec2)
    requires Cross(a, b) != 0.0
    ensures !IsZero(a) && !IsZero(b)
  {
  }

  /** `get(Ray, Ray)`: no hit for parallel rays; otherwise the crossing point
      when it lies ahead on both rays. Snapping the point onto either origin
      resets that ray's parameter to zero, which it already is. */
  function RayRay(a: Ray, b: Ray): (r: Option<Vec2>)
    ensures Cross(a.direction, b.direction) == 0.0 ==> r.None?
    ensures Cross(a.direction, b.direction) != 0.0 ==>
              var c := CrossingOf(a.point, a.direction, b.point, b.direction);
              (r.Some? <==> c.t >= 0.0 && c.u >= 0.0) &&
              (r.Some? ==> r.value == SampleAlongRay(a, c.t) && r.value == SampleAlongRay(b, c.u))
  {
    var dt := a.direction.x * b.direction.y - b.direction.x * a.direction.y;
    if dt == 0.0 then None
    else
      var c := CrossingOf(a.point, a.direction, b.point, b.direction);
      var pt := SampleAlongRay(a, c.t);
      NonParallelAreNonZero(a.direction, b.direction);
      var t := if pt == a.point then (ScaleOfNonZero(c.t, a.direction); 0.0) else c.t;
      var u := if pt == b.point then (ScaleOfNonZero(c.u, b.direction); 0.0) else c.u;
      if u < 0.0 || t < 0.0 then None else Some(pt)
  }

  /** `get(Line, Line)`: no point for parallel lines, otherwise the point
      where they cross. */
  function LineLine(a: Line, b: Line): (r: Option<Vec2>)
    ensures r.None? <==> Cross(a.direction, b.direction) == 0.0
    ensures r.Some? ==>
              var c := CrossingOf(a.pointA, a.direction, b.pointA, b.direction);
              r.value == Add(a.pointA, Scale(c.t, a.direction)) && r.value == Add(b.pointA, Scale(c.u, b.direction))
  {
    var dt := a.direction.x * b.direction.y - b.direction.x * a.direction.y;
    if dt == 0.0 then None
    else
      var c := CrossingOf(a.pointA, a.direction, b.pointA, b.direction);
      Some(Add(a.pointA, Scale(c.t, a.direction)))
  }

  /** `test(Ray, point)` and `test(Line, point)`: `containsPoint`. */
  predicate TestRayPoint(a: Ray, b: Vec2)
  {
    var v := Sub(b, a.point);
    var vx := ProjectionOnto(v, a.direction);
    IsZero(Sub(v, vx)) && Dot(vx, a.direction) >= 0.0
  }

  /** A point reached by a non-negative step along a unit direction is on
      the ray. */
  lemma SampledPointIsOnRay(a: Ray, t: real)
    requires SquaredLength(a.direction) == 1.0 && t >= 0.0
    ensures TestRayPoint(a, SampleAlongRay(a, t))
  {
    var d := a.direction;
    var v := Sub(SampleAlongRay(a, t), a.point);
    assert v == Scale(t, d);
    assert Dot(v, d) == t * SquaredLength(d);
    assert ProjectionOnto(v, d) == v;
  }

  /** `get(Ray, Line)`: no hit for a parallel line or a crossing behind the
      ray; the line's own parameter is not restricted. */
  function RayLine(a: Ray, b: Line): (r: Option<Vec2>)
    ensures Cross(a.direction, b.direction) == 0.0 ==> r.None?
    ensures Cross(a.direction, b.direction) != 0.0 ==>
              var c := CrossingOf(a.point, a.direction, b.pointA, b.direction);
              (r.Some? <==> c.t >= 0.0) &&
              (r.Some? ==> r.value == SampleAlongRay(a, c.t) && r.value == Add(b.pointA, Scale(c.u, b.direction)))
  {
    var dt := a.direction.x * b.direction.y - b.direction.x * a.direction.y;
    if dt == 0.0 then None
    else
      var c := CrossingOf(a.point, a.direction, b.pointA, b.direction);
      var pt := SampleAlongRay(a, c.t);
      NonParallelAreNonZero(a.direction, b.direction);
      var t := if pt == a.point then (ScaleOfNonZero(c.t, a.direction); 0.0) else c.t;
      if t < 0.0 then None else Some(pt)
  }

  /** `get(Ray, LineSegment)`: the segment is walked with its unit direction
      `bdir`; no hit when parallel, behind the ray, or outside [0, length]
      along the segment. A zero-length segment has the zero vector as its
      direction here and never hits (the code divides by zero). */
  function RaySegment(a: Ray, b: Segment, sqrt: real -> real): Option<Vec2>
    requires IsSqrt(sqrt)
  {
    var bdir := Normalized(Sub(b.pointB, b.pointA), sqrt);
    var blen := sqrt(SquaredLength(Sub(b.pointB, b.pointA)));
    var dt := a.direction.x * bdir.y - bdir.x * a.direction.y;
    if dt == 0.0 then None
    else
      var c := CrossingOf(a.point, a.direction, b.pointA, bdir);
      var pt := SampleAlongRay(a, c.t);
      RaySegmentSnaps(a, b, sqrt);
      var t := if pt == a.point then 0.0 else c.t;
      var u := if pt == b.pointA then 0.0 else c.u;
      var u' := if pt == b.pointB then blen else u;
      if t < 0.0 || u' < 0.0 || u' > blen then None else Some(pt)
  }

  /** A ray parallel to a segment never reports a point on it. */
  lemma RaySegmentParallel(a: Ray, b: Segment, sqrt: real -> real)
    requires IsSqrt(sqrt)
    requires Cross(a.direction, Normalized(Sub(b.pointB, b.pointA), sqrt)) == 0.0
    ensures RaySegment(a, b, sqrt).None?
  {
  }

  /** Otherwise it reports a point exactly when the crossing lies ahead on
      the ray and within the segment's length from its first point, and then
      it is the crossing point. */
  lemma RaySegmentCrossing(a: Ray, b: Segment, sqrt: real -> real)
    requires IsSqrt(sqrt)
    requires Cross(a.direction, Normalized(Sub(b.pointB, b.pointA), sqrt)) != 0.0
    ensures var r := RaySegment(a, b, sqrt);
            var bdir := Normalized(Sub(b.pointB, b.pointA), sqrt);
            var c := CrossingOf(a.point, a.direction, b.pointA, bdir);
            (r.Some? <==> c.t >= 0.0 && 0.0 <= c.u <= sqrt(SquaredLength(Sub(b.pointB, b.pointA)))) &&
            (r.Some? ==> r.value == SampleAlongRay(a, c.t) && r.value == Add(b.pointA, Scale(c.u, bdir)))
  {
    RaySegmentSnaps(a, b, sqrt);
  }

  /** Snapping the crossing onto the ray's origin or either end of the
      segment replaces a parameter by the value it already has. */
  lemma RaySegmentSnaps(a: Ray, b: Segment, sqrt: real -> real)
    requires IsSqrt(sqrt)
    requires Cross(a.direction, Normalized(Sub(b.pointB, b.pointA), sqrt)) != 0.0
    ensures var bdir := Normalized(Sub(b.pointB, b.pointA), sqrt);
            var c := CrossingOf(a.point, a.direction, b.pointA, bdir);
            var pt := SampleAlongRay(a, c.t);
            pt == Add(b.pointA, Scale(c.u, bdir)) &&
            (pt == a.point ==> c.t == 0.0) &&
            (pt == b.pointA ==> c.u == 0.0) &&
            (pt == b.pointB ==> c.u == sqrt(SquaredLength(Sub(b.pointB, b.pointA))))
  {
    var bdir := Normalized(Sub(b.pointB, b.pointA), sqrt);
    var c := CrossingOf(a.point, a.direction, b.pointA, bdir);
    var pt := SampleAlongRay(a, c.t);
    NonParallelAreNonZero(a.direction, bdir);
    if pt == a.point {
      ScaleOfNonZero(c.t, a.direction);
    }
    if pt == b.pointA {
      ScaleOfNonZero(c.u, bdir);
    }
    if pt == b.pointB {
      SegmentEndParameter(b, sqrt, c.u);
    }
  }

  /** The crossing lands on the far end exactly at the segment's length. */
  lemma SegmentEndParameter(b: Segment, sqrt: real -> real, u: real)
    requires IsSqrt(sqrt)
    requires !IsZero(Normalized(Sub(b.pointB, b.pointA), sqrt))
    requires Add(b.pointA, Scale(u, Normalized(Sub(b.pointB, b.pointA), sqrt))) == b.pointB
    ensures u == sqrt(SquaredLength(Sub(b.pointB, b.pointA)))
  {
    var d := Sub(b.pointB, b.pointA);
    var bdir := Normalized(d, sqrt);
    var blen := sqrt(SquaredLength(d));
    NormalizedRecovers(d, sqrt);
    assert Scale(u, bdir) == d;
    assert SquaredLength(d) > 0.0;
    assert Scale(u - blen, bdir) == Zero;
    ScaleOfNonZero(u - blen, bdir);
  }

  /** `LineSegment::length()`. */
  function SegmentLength(s: Segment, sqrt: real -> real): (len: real)
    requires IsSqrt(sqrt)
    ensures len >= 0.0
  {
    sqrt(SquaredLength(Sub(s.pointB, s.pointA)))
  }

  /** Moving k along a unit direction is a step whose projection onto that
      direction has length k. */
  lemma StepAlongUnit(p: Vec2, k: real, d: Vec2)
    requires SquaredLength(d) == 1.0
    ensures Sub(Add(p, Scale(k, d)), p) == Scale(k, d)
    ensures Dot(Scale(k, d), d) == k
    ensures ProjectionOnto(Scale(k, d), d) == Scale(k, d)
  {
    assert Dot(Scale(k, d), d) == k * SquaredLength(d);
  }

  /** The direction of a containing line that crosses another line is a unit
      vector. */
  lemma CrossingDirectionIsUnit(s: Segment, other: Vec2, sqrt: real -> real)
    requires IsSqrt(sqrt)
    requires Cross(ContainingLine(s, sqrt).direction, other) != 0.0 || Cross(other, ContainingLine(s, sqrt).direction) != 0.0
    ensures SquaredLength(ContainingLine(s, sqrt).direction) == 1.0
  {
    NormalizedIsUnit(Sub(s.pointB, s.pointA), sqrt);
  }

  /** `get(LineSegment, LineSegment)`: the crossing of the containing lines,
      kept when its distance from each segment's first point along that
      segment lies within the segment's length. */
  function SegmentSegment(a: Segment, b: Segment, sqrt: real -> real): (r: Option<Vec2>)
    requires IsSqrt(sqrt)
    ensures var la := ContainingLine(a, sqrt);
            var lb := ContainingLine(b, sqrt);
            (Cross(la.direction, lb.direction) == 0.0 ==> r.None?) &&
            (Cross(la.direction, lb.direction) != 0.0 ==>
              var c := CrossingOf(a.pointA, la.direction, b.pointA, lb.direction);
              (r.Some? <==> 0.0 <= c.t <= SegmentLength(a, sqrt) && 0.0 <= c.u <= SegmentLength(b, sqrt)) &&
              (r.Some? ==> r.value == Add(a.pointA, Scale(c.t, la.direction)) && r.value == Add(b.pointA, Scale(c.u, lb.direction))))
  {
    var la := ContainingLine(a, sqrt);
    var lb := ContainingLine(b, sqrt);
    var hit := LineLine(la, lb);
    if hit.None? then None
    else
      var pt := hit.value;
      var dirA := Normalized(Sub(a.pointB, a.pointA), sqrt);
      var dirB := Normalized(Sub(b.pointB, b.pointA), sqrt);
      var t := Dot(Sub(pt, a.pointA), dirA);
      var u := Dot(Sub(pt, b.pointA), dirB);
      var c := CrossingOf(a.pointA, la.direction, b.pointA, lb.direction);
      CrossingDirectionIsUnit(a, lb.direction, sqrt);
      CrossingDirectionIsUnit(b, la.direction, sqrt);
      StepAlongUnit(a.pointA, c.t, dirA);
      StepAlongUnit(b.pointA, c.u, dirB);
      if t >= 0.0 && u >= 0.0 && t <= SegmentLength(a, sqrt) && u <= SegmentLength(b, sqrt) then Some(pt) else None
  }

  /** `test(LineSegment, point)`: `containsPoint`, the point has no component
      across the segment and its component along it lies within the
      segment. */
  predicate TestSegmentPoint(a: Segment, b: Vec2, sqrt: real -> real)
    requires IsSqrt(sqrt)
  {
    var v := Sub(b, a.pointA);
    var direction := Normalized(Sub(a.pointB, a.pointA), sqrt);
    var vx := ProjectionOnto(v, direction);
    var dt := Dot(vx, direction);
    IsZero(Sub(v, vx)) && 0.0 <= dt <= SegmentLength(a, sqrt)
  }

  /** A point k along a segment's unit direction, with k within the length,
      is on the segment. */
  lemma StepIsOnSegment(s: Segment, k: real, sqrt: real -> real)
    requires IsSqrt(sqrt)
    requires SquaredLength(Normalized(Sub(s.pointB, s.pointA), sqrt)) == 1.0
    requires 0.0 <= k <= SegmentLength(s, sqrt)
    ensures TestSegmentPoint(s, Add(s.pointA, Scale(k, Normalized(Sub(s.pointB, s.pointA), sqrt))), sqrt)
  {
    StepAlongUnit(s.pointA, k, Normalized(Sub(s.pointB, s.pointA), sqrt));
  }

  /** The point two segments report lies on both of them. */
  lemma SegmentHitIsOnBoth(a: Segment, b: Segment, sqrt: real -> real)
    requires IsSqrt(sqrt)
    ensures SegmentSegment(a, b, sqrt).Some? ==>
              TestSegmentPoint(a, SegmentSegment(a, b, sqrt).value, sqrt) && TestSegmentPoint(b, SegmentSegment(a, b, sqrt).value, sqrt)
  {
    var la := ContainingLine(a, sqrt);
    var lb := ContainingLine(b, sqrt);
    if SegmentSegment(a, b, sqrt).Some? {
      var c := CrossingOf(a.pointA, la.direction, b.pointA, lb.direction);
      CrossingDirectionIsUnit(a, lb.direction, sqrt);
      CrossingDirectionIsUnit(b, la.direction, sqrt);
      StepIsOnSegment(a, c.t, sqrt);
      StepIsOnSegment(b, c.u, sqrt);
    }
  }

  /** The point a ray reports on a segment lies on the segment. */
  lemma RaySegmentHitIsOnSegment(a: Ray, b: Segment, sqrt: real -> real)
    requires IsSqrt(sqrt)
    ensures RaySegment(a, b, sqrt).Some? ==> TestSegmentPoint(b, RaySegment(a, b, sqrt).value, sqrt)
  {
    var bdir := Normalized(Sub(b.pointB, b.pointA), sqrt);
    if Cross(a.direction, bdir) == 0.0 {
      RaySegmentParallel(a, b, sqrt);
    } else if RaySegment(a, b, sqrt).Some? {
      RaySegmentCrossing(a, b, sqrt);
      var c := CrossingOf(a.point, a.direction, b.pointA, bdir);
      NonParallelAreNonZero(a.direction, bdir);
      NormalizedIsUnit(Sub(b.pointB, b.pointA), sqrt);
      StepIsOnSegment(b, c.u, sqrt);
    }
  }

  // ---------------------------------------------------------------------
  // Overlap tests

  /** `test(Rect, point)`: edge-inclusive containment. */
  predicate TestRectPoint(a: Rects.Rect, b: Vec2) { Rects.ContainsPoint(a, b) }

  /** `test(Rect, Rect)`: neither axis overlap is negative. */
  predicate TestRectRect(a: Rects.Rect, b: Rects.Rect)
  {
    var nleft := Rects.Max(Rects.Left(a), Rects.Left(b));
    var nbottom := Rects.Max(Rects.Bottom(a), Rects.Bottom(b));
    var xoverlap := Rects.Min(Rects.Right(a), Rects.Right(b)) - nleft;
    var yoverlap := Rects.Min(Rects.Top(a), Rects.Top(b)) - nbottom;
    !(xoverlap < 0.0) && !(yoverlap < 0.0)
  }

  /** Two rects pass the test exactly when some point lies in both; touching
      edges count. */
  lemma TestRectRectIffCommonPoint(a: Rects.Rect, b: Rects.Rect)
    ensures TestRectRect(a, b) ==>
              var p := Vec2(Rects.Max(Rects.Left(a), Rects.Left(b)), Rects.Max(Rects.Bottom(a), Rects.Bottom(b)));
              TestRectPoint(a, p) && TestRectPoint(b, p)
    ensures !TestRectRect(a, b) ==> forall p :: !(TestRectPoint(a, p) && TestRectPoint(b, p))
  {
  }

  /** `test(Circle, point)`: `containsPoint`. */
  predicate TestCirclePoint(a: Circles.Circle, b: Vec2) { Circles.ContainsPoint(a, b) }

  /** `test(Circle, Circle)`: the distance between the centres is at most the
      sum of the radii. */
  predicate TestCircleCircle(a: Circles.Circle, b: Circles.Circle, sqrt: real -> real)
    requires IsSqrt(sqrt)
  {
    sqrt(SquaredDistance(a.center, b.center)) <= a.radius + b.radius
  }

  /** For non-negative d and m, d <= m exactly when d * d <= m * m. */
  lemma CompareBySquares(d: real, m: real)
    requires d >= 0.0 && m >= 0.0
    ensures d <= m <==> d * d <= m * m
  {
    if d <= m {
      Circles.SquareMonotone(d, m);
    } else {
      assert (d - m) * d > 0.0;
      assert (d - m) * m >= 0.0;
      assert d * d - m * m == (d - m) * d + (d - m) * m;
    }
  }

  /** The circle test compares squared quantities without a root. */
  lemma TestCircleCircleSquared(a: Circles.Circle, b: Circles.Circle, sqrt: real -> real)
    requires IsSqrt(sqrt) && Circles.WellFormed(a) && Circles.WellFormed(b)
    ensures TestCircleCircle(a, b, sqrt) <==>
              SquaredDistance(a.center, b.center) <= (a.radius + b.radius) * (a.radius + b.radius)
  {
    var d2 := SquaredDistance(a.center, b.center);
    Circles.SquaresAreNonNegative(a.center.x - b.center.x, a.center.y - b.center.y);
    CompareBySquares(sqrt(d2), a.radius + b.radius);
  }

  // ---------------------------------------------------------------------
  // Ray against circle

  /** The coefficients of a quadratic a s^2 + b s + c. */
  datatype Quadratic = Quadratic(a: real, b: real, c: real)

  function Eval(q: Quadratic, s: real): real { (q.a * s + q.b) * s + q.c }

  function Discriminant(q: Quadratic): real { q.b * q.b - 4.0 * q.a * q.c }

  /** The quadratic the code sets up for a ray against a circle: with f the
      origin relative to the centre, |f + s d|^2 - r^2. */
  function RayCircleQuadratic(a: Ray, b: Circles.Circle): Quadratic
  {
    var f := Sub(a.point, b.center);
    Quadratic(Dot(a.direction, a.direction), 2.0 * Dot(f, a.direction), Dot(f, f) - b.radius * b.radius)
  }

  /** The point s along the ray lies on the circle's boundary. */
  predicate OnCircleAt(a: Ray, b: Circles.Circle, s: real)
  {
    SquaredDistance(SampleAlongRay(a, s), b.center) == b.radius * b.radius
  }

  /** The ray's quadratic vanishes exactly at the parameters where the ray
      meets the circle's boundary. */
  lemma OnCircleIffRoot(a: Ray, b: Circles.Circle, s: real)
    ensures OnCircleAt(a, b, s) <==> Eval(RayCircleQuadratic(a, b), s) == 0.0
  {
    var f := Sub(a.point, b.center);
    var d := a.direction;
    assert Sub(SampleAlongRay(a, s), b.center) == Vec2(f.x + s * d.x, f.y + s * d.y);
    assert SquaredDistance(SampleAlongRay(a, s), b.center) - b.radius * b.radius == Eval(RayCircleQuadratic(a, b), s);
  }

  /** A positive discriminant needs a non-zero direction. */
  lemma LeadingCoefficientPositive(a: Ray, b: Circles.Circle)
    requires Discriminant(RayCircleQuadratic(a, b)) > 0.0
    ensures RayCircleQuadratic(a, b).a > 0.0
  {
    if !IsZero(a.direction) {
      NonZeroHasPositiveLength(a.direction);
    }
  }

  /** The two roots (-b - sqrt(D)) / 2a and (-b + sqrt(D)) / 2a. */
  function Roots(q: Quadratic, sqrt: real -> real): (real, real)
    requires IsSqrt(sqrt) && q.a > 0.0 && Discriminant(q) > 0.0
  {
    var sd := sqrt(Discriminant(q));
    ((-q.b - sd) / (2.0 * q.a), (-q.b + sd) / (2.0 * q.a))
  }

  /** The factorisation a (s - t1) (s - t2) from the sum and product of the
      roots. */
  lemma Factorised(q: Quadratic, sd: real, t1: real, t2: real, s: real)
    requires q.a > 0.0 && sd * sd == Discriminant(q)
    requires 2.0 * q.a * t1 == -q.b - sd && 2.0 * q.a * t2 == -q.b + sd
    ensures Eval(q, s) == q.a * ((s - t1) * (s - t2))
  {
    assert q.a * (t1 + t2) == -q.b;
    var p := t1 * t2;
    assert (2.0 * q.a * t1) * (2.0 * q.a * t2) == (4.0 * q.a) * (q.a * p);
    assert (-q.b - sd) * (-q.b + sd) == q.b * q.b - sd * sd;
    CancelNonZero(q.a * p, q.c, 4.0 * q.a);
    assert (s - t1) * (s - t2) == s * s - (t1 + t2) * s + p;
  }

  /** A root of the factorised form is one of the two roots. */
  lemma ZeroOfFactorised(q: Quadratic, sd: real, t1: real, t2: real, s: real)
    requires q.a > 0.0 && sd * sd == Discriminant(q)
    requires 2.0 * q.a * t1 == -q.b - sd && 2.0 * q.a * t2 == -q.b + sd
    ensures Eval(q, s) == 0.0 <==> s == t1 || s == t2
  {
    Factorised(q, sd, t1, t2, s);
    if Eval(q, s) == 0.0 && s != t1 {
      CancelNonZero((s - t1) * (s - t2), 0.0, q.a);
      CancelNonZero(s - t2, 0.0, s - t1);
    }
  }

  /** The roots satisfy 2a t = -b -+ sqrt(D), and the first is the smaller. */
  lemma RootsOrdered(q: Quadratic, sqrt: real -> real)
    requires IsSqrt(sqrt) && q.a > 0.0 && Discriminant(q) > 0.0
    ensures 2.0 * q.a * Roots(q, sqrt).0 == -q.b - sqrt(Discriminant(q))
    ensures 2.0 * q.a * Roots(q, sqrt).1 == -q.b + sqrt(Discriminant(q))
    ensures Roots(q, sqrt).0 < Roots(q, sqrt).1
  {
    var sd := sqrt(Discriminant(q));
    var k := 2.0 * q.a;
    assert sd > 0.0;
    assert (-q.b - sd) / k < (-q.b + sd) / k;
  }

  /** With a positive discriminant the roots are distinct and are the only
      zeros. */
  lemma RootsAreTheZeros(q: Quadratic, sqrt: real -> real)
    requires IsSqrt(sqrt) && q.a > 0.0 && Discriminant(q) > 0.0
    ensures Roots(q, sqrt).0 < Roots(q, sqrt).1
    ensures forall s :: Eval(q, s) == 0.0 <==> s == Roots(q, sqrt).0 || s == Roots(q, sqrt).1
  {
    RootsOrdered(q, sqrt);
    var sd := sqrt(Discriminant(q));
    forall s
      ensures Eval(q, s) == 0.0 <==> s == Roots(q, sqrt).0 || s == Roots(q, sqrt).1
    {
      ZeroOfFactorised(q, sd, Roots(q, sqrt).0, Roots(q, sqrt).1, s);
    }
  }

  /** The parameter of `get(Ray, Circle)`: none when the discriminant is not
      positive (a tangent ray does not hit), otherwise the smaller of the
      two roots that is not negative. */
  function RayCircleParameter(a: Ray, b: Circles.Circle, sqrt: real -> real): (t: Option<real>)
    requires IsSqrt(sqrt)
    ensures Discriminant(RayCircleQuadratic(a, b)) <= 0.0 ==> t.None?
    ensures t.Some? ==> t.value >= 0.0 && OnCircleAt(a, b, t.value)
    ensures t.Some? ==> forall s :: 0.0 <= s < t.value ==> !OnCircleAt(a, b, s)
    ensures t.None? && Discriminant(RayCircleQuadratic(a, b)) > 0.0 ==> forall s :: 0.0 <= s ==> !OnCircleAt(a, b, s)
  {
    var q := RayCircleQuadratic(a, b);
    var d := q.b * q.b - 4.0 * q.a * q.c;
    if d <= 0.0 then None
    else
      LeadingCoefficientPositive(a, b);
      var (t1, t2) := Roots(q, sqrt);
      RootsAreTheZeros(q, sqrt);
      RayMeetsCircleAtRoots(a, b, sqrt);
      if t1 >= 0.0 then
        if t2 >= 0.0 then
          if t1 < t2 then Some(t1) else Some(t2)
        else Some(t1)
      else if t2 >= 0.0 then Some(t2)
      else None
  }

  /** The ray meets the circle's boundary exactly at the two roots. */
  lemma RayMeetsCircleAtRoots(a: Ray, b: Circles.Circle, sqrt: real -> real)
    requires IsSqrt(sqrt) && Discriminant(RayCircleQuadratic(a, b)) > 0.0
    requires RayCircleQuadratic(a, b).a > 0.0
    ensures forall s :: OnCircleAt(a, b, s) <==>
              s == Roots(RayCircleQuadratic(a, b), sqrt).0 || s == Roots(RayCircleQuadratic(a, b), sqrt).1
  {
    RootsAreTheZeros(RayCircleQuadratic(a, b), sqrt);
    forall s
      ensures OnCircleAt(a, b, s) <==> Eval(RayCircleQuadratic(a, b), s) == 0.0
    {
      OnCircleIffRoot(a, b, s);
    }
  }

  /** `get(Ray, Circle)`: the point at that parameter. */
  function RayCircle(a: Ray, b: Circles.Circle, sqrt: real -> real): (r: Option<Vec2>)
    requires IsSqrt(sqrt)
    ensures r.Some? <==> RayCircleParameter(a, b, sqrt).Some?
    ensures r.Some? ==> r.value == SampleAlongRay(a, RayCircleParameter(a, b, sqrt).value)
    ensures r.Some? ==> SquaredDistance(r.value, b.center) == b.radius * b.radius
  {
    match RayCircleParameter(a, b, sqrt)
    case None => None
    case Some(t) => Some(SampleAlongRay(a, t))
  }

  // ---------------------------------------------------------------------
  // Circle against circle

  /** `get(Circle, Circle)`: empty when the centres are further apart than
      the sum of the radii; otherwise the unit vector from b's centre towards
      a's and the overlap of the radii. Coinciding centres give the zero
      normal here (the code divides by a zero length). */
  function CircleCircle(a: Circles.Circle, b: Circles.Circle, sqrt: real -> real): (r: IntersectionInfo)
    requires IsSqrt(sqrt)
    ensures r.empty <==> !TestCircleCircle(a, b, sqrt)
    ensures r.empty ==> r == NoIntersection
    ensures !r.empty ==> r.penetration >= 0.0 && r.penetration + sqrt(SquaredDistance(a.center, b.center)) == a.radius + b.radius
  {
    var v := Sub(a.center, b.center);
    var vlen := sqrt(SquaredDistance(a.center, b.center));
    var maxlen := a.radius + b.radius;
    if vlen > maxlen then NoIntersection
    else
      Contact(Normalized(v, sqrt), maxlen - vlen)
  }

  /** The contact normal of two overlapping circles with distinct centres is
      the unit vector from b's centre towards a's. */
  lemma CircleCircleNormal(a: Circles.Circle, b: Circles.Circle, sqrt: real -> real)
    requires IsSqrt(sqrt)
    ensures var r := CircleCircle(a, b, sqrt);
            !r.empty && a.center != b.center ==>
              SquaredLength(r.normal) == 1.0 && Scale(sqrt(SquaredDistance(a.center, b.center)), r.normal) == Sub(a.center, b.center)
  {
    UnitTowards(a.center, b.center, sqrt);
  }

  /** The normalised difference of two distinct points is the unit vector
      from the second towards the first. */
  lemma UnitTowards(p: Vec2, q: Vec2, sqrt: real -> real)
    requires IsSqrt(sqrt)
    ensures p != q ==> SquaredLength(Normalized(Sub(p, q), sqrt)) == 1.0
    ensures p != q ==> Scale(sqrt(SquaredDistance(p, q)), Normalized(Sub(p, q), sqrt)) == Sub(p, q)
  {
    if p != q {
      NonZeroHasPositiveLength(Sub(p, q));
      NormalizedIsUnit(Sub(p, q), sqrt);
      NormalizedRecovers(Sub(p, q), sqrt);
    }
  }

  /** The root of a square of a non-negative number is that number. */
  lemma SqrtOfSquare(sqrt: real -> real, k: real)
    requires IsSqrt(sqrt) && k >= 0.0
    ensures sqrt(k * k) == k
  {
    var s := sqrt(k * k);
    assert s >= 0.0 && s * s == k * k;
    CompareBySquares(s, k);
    CompareBySquares(k, s);
  }
}
