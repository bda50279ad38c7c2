/** Polygons: a sequence of points, open or closed, with the derived
    quantities the editor caches (signed area, ordering, convexity, normals,
    bounds). The caches only memoise values computed from the points, so the
    model recomputes them. */
module Polygons {
  import opened Vectors
  import opened Lines
  import Rects

  datatype Polygon = Polygon(points: seq<Vec2>, closed: bool)

  /** `Polygon()`: no points, open. */
  const Default := Polygon([], false)

  /** The orientation of the points. */
  datatype PointOrdering = Unknown | Cw | Ccw

  function PointCount(p: Polygon): nat { |p.points| }

  // ---------------------------------------------------------------------
  // Points and index wrapping

  /** The index `point(index, wrap)` reads, as written: for index = -count
      the reduction yields count, one past the last point. */
  function PointIndexAsWritten(p: Polygon, index: int, wrap: bool): int
    requires wrap ==> |p.points| > 0
  {
    if wrap then Rects.WrapIndexAsWritten(index, |p.points|) else index
  }

  /** The negative multiples of the point count wrap to an index outside the
      point list, so `point` reads past its end. */
  lemma PointWrapOutOfRange(p: Polygon, k: int)
    requires |p.points| > 0 && k > 0
    ensures PointIndexAsWritten(p, -k * |p.points|, true) == |p.points|
  {
    var n := |p.points|;
    Rects.DivModUnique(-k * n, n, -k, 0);
  }

  /** `point(index, wrap)` with the intended wrapping: without wrap the index
      must be valid; with wrap the index is taken modulo the point count. */
  function Point(p: Polygon, index: int, wrap: bool): (r: Vec2)
    requires wrap ==> |p.points| > 0
    requires !wrap ==> 0 <= index < |p.points|
    ensures !wrap ==> r == p.points[index]
    ensures wrap ==> r == p.points[index % |p.points|]
    ensures 0 <= PointIndexAsWritten(p, index, wrap) < |p.points| ==> r == p.points[PointIndexAsWritten(p, index, wrap)]
  {
    if wrap then p.points[Rects.WrapIndex(index, |p.points|)] else p.points[index]
  }

  /** Wrapped point access is periodic in the point count. */
  lemma PointIsPeriodic(p: Polygon, index: int)
    requires |p.points| > 0
    ensures Point(p, index + |p.points|, true) == Point(p, index, true)
  {
    var n := |p.points|;
    Rects.DivModUnique(index + n, n, index / n + 1, index % n);
  }

  // ---------------------------------------------------------------------
  // Edges

  /** `edgeCount()`: none for at most one point, one per point when closed
      and one fewer when open. */
  function EdgeCount(p: Polygon): (r: nat)
    ensures |p.points| <= 1 ==> r == 0
    ensures |p.points| > 1 && p.closed ==> r == |p.points|
    ensures |p.points| > 1 && !p.closed ==> r == |p.points| - 1
    ensures r <= |p.points|
  {
    if |p.points| <= 1 then 0 else if p.closed then |p.points| else |p.points| - 1
  }

  /** Edge `index` of a polygon, for a valid index: the closing edge of a
      closed polygon joins the last point to the first. */
  function EdgeAt(p: Polygon, index: int): (s: Segment)
    requires 0 <= index < EdgeCount(p)
    ensures s.pointA == p.points[index]
    ensures s.pointB == p.points[(index + 1) % |p.points|]
    ensures p.closed && index == |p.points| - 1 ==> s.pointB == p.points[0]
  {
    if index == EdgeCount(p) - 1 && p.closed then Segment(p.points[index], p.points[0])
    else Segment(p.points[index], p.points[index + 1])
  }

  /** The index `edge` and `normal` use, as written. */
  function EdgeIndexAsWritten(p: Polygon, index: int, wrap: bool): int
    requires wrap ==> EdgeCount(p) > 0
  {
    if wrap then Rects.WrapIndexAsWritten(index, EdgeCount(p)) else index
  }

  /** At index -edgeCount the code as written selects edge edgeCount, which
      is not the closing edge, so it reads the point after it: past the end
      of the point list. */
  lemma EdgeWrapOutOfRange(p: Polygon)
    requires EdgeCount(p) > 0
    ensures EdgeIndexAsWritten(p, -(EdgeCount(p) as int), true) == EdgeCount(p)
    ensures EdgeCount(p) + 1 >= |p.points|
  {
  }

  /** `edge(index, wrap)` with the intended wrapping. */
  function Edge(p: Polygon, index: int, wrap: bool): (s: Segment)
    requires wrap ==> EdgeCount(p) > 0
    requires !wrap ==> 0 <= index < EdgeCount(p)
    ensures wrap ==> s == EdgeAt(p, index % EdgeCount(p))
    ensures 0 <= EdgeIndexAsWritten(p, index, wrap) < EdgeCount(p) ==> s == EdgeAt(p, EdgeIndexAsWritten(p, index, wrap))
  {
    EdgeAt(p, if wrap then Rects.WrapIndex(index, EdgeCount(p)) else index)
  }

  // ---------------------------------------------------------------------
  // Signed area and ordering

  /** The successor of i in a cyclic sequence of n points. */
  function Next(n: nat, i: nat): (j: nat)
    requires i < n
    ensures j < n && j == (i + 1) % n
  {
    if i == n - 1 then
      Rects.DivModUnique(i + 1, n, 1, 0);
      0
    else
      Rects.DivModUnique(i + 1, n, 0, i + 1);
      i + 1
  }

  /** The shoelace sum of the first k terms, each the cross product of a
      point and its cyclic successor. */
  function ShoelaceSum(pts: seq<Vec2>, k: nat): real
    requires k <= |pts|
    decreases k
  {
    if k == 0 then 0.0 else ShoelaceSum(pts, k - 1) + Cross(pts[k - 1], pts[Next(|pts|, k - 1)])
  }

  /** The value `signedArea()` computes: zero for at most two points,
      otherwise half the closed shoelace sum (the closing term is included
      for open polygons too). */
  function SignedAreaOf(p: Polygon): real
  {
    if |p.points| <= 2 then 0.0 else ShoelaceSum(p.points, |p.points|) * 0.5
  }

  /** `signedArea()`: the shoelace loop. */
  method SignedArea(p: Polygon) returns (a: real)
    ensures a == SignedAreaOf(p)
  {
    if |p.points| <= 2 {
      return 0.0;
    }
    var n := |p.points|;
    a := 0.0;
    var i := 0;
    while i < n
      invariant 0 <= i <= n
      invariant a == ShoelaceSum(p.points, i)
    {
      var pi := p.points[i];
      var pi1 := if i == n - 1 then p.points[0] else p.points[i + 1];
      assert pi1 == p.points[Next(n, i)];
      a := a + (pi.x * pi1.y - pi1.x * pi.y);
      i := i + 1;
    }
    a := a * 0.5;
  }

  /** `area()`: the absolute value of the signed area. */
  function AreaOf(p: Polygon): (r: real)
    ensures r >= 0.0
    ensures r == SignedAreaOf(p) || r == -SignedAreaOf(p)
  {
    var sa := SignedAreaOf(p);
    if sa < 0.0 then -sa else sa
  }

  /** `ordering()`: clockwise for a negative signed area, counter-clockwise
      for a positive one, unknown for zero. */
  function OrderingOf(p: Polygon): (o: PointOrdering)
    ensures o == Cw <==> SignedAreaOf(p) < 0.0
    ensures o == Ccw <==> SignedAreaOf(p) > 0.0
    ensures o == Unknown <==> AreaOf(p) == 0.0
  {
    var sa := SignedAreaOf(p);
    if sa == 0.0 then Unknown else if sa < 0.0 then Cw else Ccw
  }

  // ---------------------------------------------------------------------
  // Convexity

  /** The index of the edge before edge i of the closed polygon. */
  function Prev(n: nat, i: nat): (j: nat)
    requires i < n
    ensures j < n && Next(n, j) == i
  {
    if i == 0 then n - 1 else i - 1
  }

  /** The cross product `isConvex` computes at point i: the direction of edge
      i against the direction of the edge before it, both taken from the
      closed polygon. */
  function Turn(pts: seq<Vec2>, i: nat): real
    requires i < |pts|
  {
    var n := |pts|;
    var j := Prev(n, i);
    Cross(Sub(pts[Next(n, i)], pts[i]), Sub(pts[Next(n, j)], pts[j]))
  }

  /** Convexity as the source defines it: at most three points, or turns
      that are never of opposite signs. */
  predicate IsConvexSpec(p: Polygon)
  {
    |p.points| <= 3 ||
    (forall i :: 0 <= i < |p.points| ==> Turn(p.points, i) >= 0.0) ||
    (forall i :: 0 <= i < |p.points| ==> Turn(p.points, i) <= 0.0)
  }

  lemma ZeroProduct(a: nat, b: nat)
    ensures a * b == 0 <==> a == 0 || b == 0
  {
    if a > 0 && b > 0 {
      Rects.MulNonNegative(a - 1, b);
      assert a * b == (a - 1) * b + b;
    }
  }

  /** `isConvex()`: counts the positive and negative turns and reports
      convexity when one of the counts is zero. */
  method IsConvex(p: Polygon) returns (r: bool)
    ensures r == IsConvexSpec(p)
  {
    if |p.points| <= 3 {
      return true;
    }
    var ec := |p.points|;
    var pos, neg := 0, 0;
    var i := 0;
    while i < ec
      invariant 0 <= i <= ec
      invariant pos >= 0 && neg >= 0
      invariant pos == 0 <==> forall k :: 0 <= k < i ==> Turn(p.points, k) <= 0.0
      invariant neg == 0 <==> forall k :: 0 <= k < i ==> Turn(p.points, k) >= 0.0
    {
      var e1a, e1b := p.points[i], p.points[Next(ec, i)];
      var j := if i == 0 then ec - 1 else i - 1;
      var e2a, e2b := p.points[j], p.points[Next(ec, j)];
      var sign := Cross(Sub(e1b, e1a), Sub(e2b, e2a));
      assert sign == Turn(p.points, i);
      if sign > 0.0 {
        pos := pos + 1;
      } else if sign < 0.0 {
        neg := neg + 1;
      }
      i := i + 1;
    }
    r := pos * neg == 0;
    ZeroProduct(pos, neg);
  }

  // ---------------------------------------------------------------------
  // Normals and containment

  /** The normal of an edge with direction d in a polygon with ordering o:
      the unit direction turned a quarter counter-clockwise, and negated for
      counter-clockwise polygons, so that it points away from the interior. */
  function EdgeNormal(d: Vec2, o: PointOrdering, sqrt: real -> real): Vec2
    requires IsSqrt(sqrt)
  {
    var k := InverseLength(d, sqrt);
    var v := Rotated90(Scale(k, d));
    if o == Ccw then Neg(v) else v
  }

  /** `normal(index)`: the normal of edge `index`. The code asserts that the
      ordering is known. */
  function NormalAt(p: Polygon, index: int, sqrt: real -> real): (n: Vec2)
    requires IsSqrt(sqrt)
    requires 0 <= index < EdgeCount(p)
    requires OrderingOf(p) != Unknown
  {
    var e := EdgeAt(p, index);
    EdgeNormal(Sub(e.pointB, e.pointA), OrderingOf(p), sqrt)
  }

  /** The normal of an edge is perpendicular to it. */
  lemma NormalIsPerpendicular(p: Polygon, index: int, sqrt: real -> real)
    requires IsSqrt(sqrt)
    requires 0 <= index < EdgeCount(p)
    requires OrderingOf(p) != Unknown
    ensures Dot(NormalAt(p, index, sqrt), Sub(EdgeAt(p, index).pointB, EdgeAt(p, index).pointA)) == 0.0
  {
    var e := EdgeAt(p, index);
    var d := Sub(e.pointB, e.pointA);
    QuarterTurnOfMultiple(d, InverseLength(d, sqrt));
  }

  /** `normal(index, wrap)` with the intended wrapping. */
  function Normal(p: Polygon, index: int, wrap: bool, sqrt: real -> real): (n: Vec2)
    requires IsSqrt(sqrt)
    requires wrap ==> EdgeCount(p) > 0
    requires !wrap ==> 0 <= index < EdgeCount(p)
    requires OrderingOf(p) != Unknown
    ensures wrap ==> n == NormalAt(p, index % EdgeCount(p), sqrt)
    ensures 0 <= EdgeIndexAsWritten(p, index, wrap) < EdgeCount(p) ==> n == NormalAt(p, EdgeIndexAsWritten(p, index, wrap), sqrt)
  {
    NormalAt(p, if wrap then Rects.WrapIndex(index, EdgeCount(p)) else index, sqrt)
  }

  /** Edge i separates the point from the polygon: the point lies strictly
      on the outer side of the edge's line. */
  predicate Separates(p: Polygon, pt: Vec2, i: int, sqrt: real -> real)
    requires IsSqrt(sqrt)
    requires 0 <= i < EdgeCount(p)
    requires OrderingOf(p) != Unknown
  {
    Dot(Sub(pt, EdgeAt(p, i).pointA), NormalAt(p, i, sqrt)) > 0.0
  }

  /** Containment in a convex polygon: no edge separates the point. */
  predicate InsideAllEdges(p: Polygon, pt: Vec2, sqrt: real -> real)
    requires IsSqrt(sqrt)
    requires EdgeCount(p) > 0 ==> OrderingOf(p) != Unknown
  {
    forall i :: 0 <= i < EdgeCount(p) ==> !Separates(p, pt, i, sqrt)
  }

  /** The loop of `containsPoint(pt)`: the search, edge by edge, for an edge
      that separates the point. */
  method NoSeparatingEdge(p: Polygon, pt: Vec2, sqrt: real -> real) returns (r: bool)
    requires IsSqrt(sqrt)
    requires EdgeCount(p) > 0 ==> OrderingOf(p) != Unknown
    ensures r <==> InsideAllEdges(p, pt, sqrt)
  {
    var ec := EdgeCount(p);
    var i := 0;
    while i < ec
      invariant 0 <= i <= ec
      invariant forall k :: 0 <= k < i ==> !Separates(p, pt, k, sqrt)
    {
      if Separates(p, pt, i, sqrt) {
        return false;
      }
      i := i + 1;
    }
    return true;
  }

  /** `containsPoint(pt)` on a convex polygon: inside exactly when no edge
      separates the point. */
  method ContainsPoint(p: Polygon, pt: Vec2, sqrt: real -> real) returns (r: bool)
    requires IsSqrt(sqrt)
    requires IsConvexSpec(p)
    requires EdgeCount(p) > 0 ==> OrderingOf(p) != Unknown
    ensures r <==> InsideAllEdges(p, pt, sqrt)
  {
    r := NoSeparatingEdge(p, pt, sqrt);
  }

  // ---------------------------------------------------------------------
  // Rectangles as polygons

  /** `Rect::toPolygon()`: the corners in the order bottom-right, top-right,
      top-left, bottom-left, closed. */
  function RectPolygon(r: Rects.Rect): (p: Polygon)
    ensures |p.points| == 4 && p.closed
    ensures forall i :: 0 <= i < 4 ==> p.points[i] == Rects.Corner(r, i)
  {
    Polygon([Rects.BottomRight(r), Rects.TopRight(r), Rects.TopLeft(r), Rects.BottomLeft(r)], true)
  }

  /** The corner order of a rectangle is counter-clockwise: its signed area
      is the rectangle's area, so a rectangle with a non-zero area is
      ordered counter-clockwise. */
  lemma RectPolygonArea(r: Rects.Rect)
    ensures SignedAreaOf(RectPolygon(r)) == Rects.Width(r) * Rects.Height(r)
    ensures Rects.Width(r) > 0.0 && Rects.Height(r) > 0.0 ==> OrderingOf(RectPolygon(r)) == Ccw
  {
    var p := RectPolygon(r);
    var R, L, T, B := Rects.Right(r), Rects.Left(r), Rects.Top(r), Rects.Bottom(r);
    assert ShoelaceSum(p.points, 4) == (R * T - R * B) + (R * T - L * T) + (L * B - L * T) + (L * B - R * B);
    assert (R * T - R * B) + (R * T - L * T) + (L * B - L * T) + (L * B - R * B) == 2.0 * ((R - L) * (T - B));
    assert R - L == Rects.Width(r) && T - B == Rects.Height(r);
    if Rects.Width(r) > 0.0 && Rects.Height(r) > 0.0 {
      assert Rects.Width(r) * Rects.Height(r) > 0.0;
    }
  }

  /** A well-formed rectangle's polygon is convex: every turn is clockwise by
      the rectangle's area. */
  lemma RectPolygonIsConvex(r: Rects.Rect)
    requires Rects.WellFormed(r)
    ensures forall i :: 0 <= i < 4 ==> Turn(RectPolygon(r).points, i) == -(Rects.Width(r) * Rects.Height(r))
    ensures IsConvexSpec(RectPolygon(r))
  {
    var pts := RectPolygon(r).points;
    var w, h := Rects.Width(r), Rects.Height(r);
    assert Turn(pts, 0) == -(w * h);
    assert Turn(pts, 1) == -(w * h);
    assert Turn(pts, 2) == -(w * h);
    assert Turn(pts, 3) == -(w * h);
    assert w * h >= 0.0;
  }

  // ---------------------------------------------------------------------
  // Bounds

  /** `bounds()` as written: the scan's maxima start at FLT_MIN. */
  function BoundsAsWritten(p: Polygon): Rects.Rect
  {
    Rects.BoxRect(Rects.Scan(Rects.Box(Rects.FloatMax, Rects.FloatMax, Rects.FloatMin, Rects.FloatMin), p.points))
  }

  /** `bounds()` as intended: the tight bounds of the points. A polygon
      without points keeps the code's empty-scan result. */
  function Bounds(p: Polygon): (r: Rects.Rect)
    ensures |p.points| > 0 ==> Rects.WellFormed(r)
    ensures forall i :: 0 <= i < |p.points| ==> Rects.ContainsPoint(r, p.points[i])
    ensures |p.points| > 0 ==> exists i :: 0 <= i < |p.points| && p.points[i].x == Rects.Right(r)
    ensures |p.points| > 0 ==> exists i :: 0 <= i < |p.points| && p.points[i].y == Rects.Top(r)
    ensures |p.points| > 0 ==> exists i :: 0 <= i < |p.points| && p.points[i].x == Rects.Left(r)
    ensures |p.points| > 0 ==> exists i :: 0 <= i < |p.points| && p.points[i].y == Rects.Bottom(r)
    ensures |p.points| == 0 ==> r == BoundsAsWritten(p)
  {
    if |p.points| == 0 then BoundsAsWritten(p) else Rects.FromPoints(p.points)
  }

  /** A triangle below the origin: as written its bounds reach up to FLT_MIN,
      above every vertex. */
  lemma BoundsNegative()
    ensures Rects.Top(BoundsAsWritten(Polygon([Vec2(-3.0, -3.0), Vec2(-1.0, -3.0), Vec2(-2.0, -1.0)], true))) == Rects.FloatMin
    ensures Rects.Top(Bounds(Polygon([Vec2(-3.0, -3.0), Vec2(-1.0, -3.0), Vec2(-2.0, -1.0)], true))) == -1.0
  {
    var pts := [Vec2(-3.0, -3.0), Vec2(-1.0, -3.0), Vec2(-2.0, -1.0)];
    var b0 := Rects.Box(Rects.FloatMax, Rects.FloatMax, Rects.FloatMin, Rects.FloatMin);
    assert Rects.Scan(b0, pts) == Rects.Box(-3.0, -3.0, Rects.FloatMin, Rects.FloatMin) by {
      assert Rects.Scan(b0, pts) == Rects.Scan(Rects.Box(-3.0, -3.0, Rects.FloatMin, Rects.FloatMin), pts[1..]);
      assert Rects.Scan(Rects.Box(-3.0, -3.0, Rects.FloatMin, Rects.FloatMin), pts[1..]) == Rects.Scan(Rects.Box(-3.0, -3.0, Rects.FloatMin, Rects.FloatMin), pts[2..]);
      assert Rects.Scan(Rects.Box(-3.0, -3.0, Rects.FloatMin, Rects.FloatMin), pts[2..]) == Rects.Scan(Rects.Box(-3.0, -3.0, Rects.FloatMin, Rects.FloatMin), pts[3..]);
    }
    var b1 := Rects.Box(-3.0, -3.0, -3.0, -3.0);
    assert Rects.Scan(b1, pts) == Rects.Box(-3.0, -3.0, -1.0, -1.0) by {
      assert Rects.Scan(b1, pts) == Rects.Scan(b1, pts[1..]);
      assert Rects.Scan(b1, pts[1..]) == Rects.Scan(Rects.Box(-3.0, -3.0, -1.0, -3.0), pts[2..]);
      assert Rects.Scan(Rects.Box(-3.0, -3.0, -1.0, -3.0), pts[2..]) == Rects.Scan(Rects.Box(-3.0, -3.0, -1.0, -1.0), pts[3..]);
    }
  }

  // ---------------------------------------------------------------------
  // Value operations

  /** `map(f)`: f applied to every point, the closed flag kept. */
  function Map(p: Polygon, f: Vec2 -> Vec2): (q: Polygon)
    ensures |q.points| == |p.points| && q.closed == p.closed
    ensures forall i :: 0 <= i < |p.points| ==> q.points[i] == f(p.points[i])
  {
    Polygon(seq(|p.points|, i requires 0 <= i < |p.points| => f(p.points[i])), p.closed)
  }

  /** Mapping the identity changes nothing, and mapping twice is mapping the
      composition. */
  lemma MapLaws(p: Polygon, f: Vec2 -> Vec2, g: Vec2 -> Vec2)
    ensures Map(p, v => v) == p
    ensures Map(Map(p, f), g) == Map(p, v => g(f(v)))
  {
    assert Map(p, v => v).points == p.points;
    assert Map(Map(p, f), g).points == Map(p, v => g(f(v))).points;
  }

  /** `asClosed()`. */
  function AsClosed(p: Polygon): (q: Polygon)
    ensures q.points == p.points && q.closed
  {
    if p.closed then p else Polygon(p.points, true)
  }

  /** `asOpened()`. */
  function AsOpened(p: Polygon): (q: Polygon)
    ensures q.points == p.points && !q.closed
  {
    if !p.closed then p else Polygon(p.points, false)
  }

  /** Closing and opening only switch the flag back and forth. */
  lemma CloseOpenRoundTrip(p: Polygon)
    ensures AsOpened(AsClosed(p)) == AsOpened(p)
    ensures AsClosed(AsOpened(p)) == AsClosed(p)
    ensures p.closed ==> AsClosed(AsOpened(p)) == p
    ensures !p.closed ==> AsOpened(AsClosed(p)) == p
    ensures EdgeCount(AsClosed(p)) >= EdgeCount(AsOpened(p))
  {
  }

  /** `operator==`: the point sequences and the closed flags agree. */
  predicate Equal(p1: Polygon, p2: Polygon)
  {
    p1.points == p2.points && p1.closed == p2.closed
  }

  /** `operator!=`. */
  predicate NotEqual(p1: Polygon, p2: Polygon)
  {
    p1.points != p2.points || p1.closed != p2.closed
  }

  /** Equality is value equality, and != is its negation. */
  lemma EqualityIsValueEquality(p1: Polygon, p2: Polygon)
    ensures Equal(p1, p2) <==> p1 == p2
    ensures NotEqual(p1, p2) <==> !Equal(p1, p2)
  {
  }

  /** `std::vector<Vec2>`'s `<`: lexicographic, with a proper prefix
      smaller. */
  predicate SeqLess(a: seq<Vec2>, b: seq<Vec2>)
    decreases |a|
  {
    if |a| == 0 then |b| > 0
    else if |b| == 0 then false
    else if Less(a[0], b[0]) then true
    else if Less(b[0], a[0]) then false
    else SeqLess(a[1..], b[1..])
  }

  /** `operator<`: open polygons come first, then the point sequences are
      compared. */
  predicate PolygonLess(p1: Polygon, p2: Polygon)
  {
    if p1.closed == p2.closed then SeqLess(p1.points, p2.points) else !p1.closed && p2.closed
  }

  /** `operator>`. */
  predicate PolygonGreater(p1: Polygon, p2: Polygon)
  {
    if p1.closed == p2.closed then SeqLess(p2.points, p1.points) else p1.closed && !p2.closed
  }

  /** The lexicographic order on point sequences is a strict order. */
  lemma {:induction false} SeqLessIsStrict(a: seq<Vec2>, b: seq<Vec2>, c: seq<Vec2>)
    ensures !SeqLess(a, a)
    ensures SeqLess(a, b) && SeqLess(b, c) ==> SeqLess(a, c)
    ensures a != b ==> SeqLess(a, b) || SeqLess(b, a)
    decreases |a|
  {
    if |a| > 0 {
      OrderingIsLexicographic(a[0], a[0], a[0]);
      SeqLessIsStrict(a[1..], a[1..], a[1..]);
      if |b| > 0 {
        OrderingIsLexicographic(a[0], b[0], a[0]);
        if |c| > 0 {
          OrderingIsLexicographic(a[0], b[0], c[0]);
          OrderingIsLexicographic(b[0], c[0], a[0]);
          SeqLessIsStrict(a[1..], b[1..], c[1..]);
        } else {
          SeqLessIsStrict(a[1..], b[1..], b[1..]);
        }
      }
    }
  }

  /** The polygon comparison operators: < is a strict total order, > is its
      converse, and <= / >= add equality. */
  lemma PolygonOrdering(p1: Polygon, p2: Polygon, p3: Polygon)
    ensures !PolygonLess(p1, p1)
    ensures PolygonGreater(p1, p2) <==> PolygonLess(p2, p1)
    ensures PolygonLess(p1, p2) && PolygonLess(p2, p3) ==> PolygonLess(p1, p3)
    ensures p1 != p2 ==> PolygonLess(p1, p2) || PolygonLess(p2, p1)
  {
    SeqLessIsStrict(p1.points, p2.points, p3.points);
    SeqLessIsStrict(p1.points, p1.points, p1.points);
    SeqLessIsStrict(p2.points, p1.points, p1.points);
  }

  // ---------------------------------------------------------------------
  // Optimisation

  /** `optimize()`: drops repeated points and points on the line through the
      last two kept points; for a closed polygon the last point is also
      dropped when it lies on the line from the first kept point to the last
      kept point. The position counter, as in the code, does not advance on
      a repeated point. */
  method Optimize(p: Polygon, sqrt: real -> real) returns (q: Polygon)
    requires IsSqrt(sqrt)
    ensures q.closed == p.closed
    ensures |q.points| <= |p.points|
    ensures forall j :: 0 <= j < |q.points| ==> q.points[j] in p.points
    ensures |p.points| > 0 ==> |q.points| > 0 && q.points[0] == p.points[0]
    ensures |p.points| <= 2 && (|p.points| == 2 ==> p.points[0] != p.points[1]) ==> q == p
  {
    var n := |p.points|;
    var pts: seq<Vec2> := [];
    var index := 0;
    var k := 0;
    while k < n
      invariant 0 <= k <= n
      invariant |pts| <= k
      invariant k > 0 ==> |pts| > 0 && pts[0] == p.points[0]
      invariant forall j :: 0 <= j < |pts| ==> pts[j] in p.points
      invariant k <= 2 && (k == 2 ==> p.points[0] != p.points[1]) ==> pts == p.points[..k]
      invariant index <= k
    {
      var pt := p.points[k];
      if |pts| == 0 {
        pts := pts + [pt];
        index := index + 1;
      } else if pts[|pts| - 1] == pt {
      } else {
        if |pts| >= 2 {
          var ln := LineThrough(pts[|pts| - 1], pts[|pts| - 2], sqrt);
          if Lines.ContainsPoint(ln, pt) {
            pts := pts[..|pts| - 1];
          }
        }
        if index == n - 1 && p.closed && |pts| >= 2 && Lines.ContainsPoint(LineThrough(pts[0], pts[|pts| - 1], sqrt), pt) {
          index := index + 1;
        } else {
          pts := pts + [pt];
          index := index + 1;
        }
      }
      k := k + 1;
    }
    assert n <= 2 && (n == 2 ==> p.points[0] != p.points[1]) ==> p.points[..n] == p.points;
    q := Polygon(pts, p.closed);
  }
}
