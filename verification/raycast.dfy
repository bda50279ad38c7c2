/** Ray casts against the edges of a rectangle or a convex polygon: every
    edge the ray crosses is a candidate, a crossing exactly at a corner is
    kept only when the ray comes from inside the shape or points into the
    shape between the normals of the two edges meeting at that corner, and
    the candidate nearest along the ray wins. */
module RayCasts {
  import opened Vectors
  import opened Lines
  import opened Options
  import Rects
  import Polygons
  import Intersections

  /** A candidate hit: the point and its distance along the ray. */
  datatype Hit = Hit(point: Vec2, t: real)

  /** The scan over the candidates, edge by edge, as the loops do it: the
      running distance starts at FLT_MAX and a candidate replaces the best so
      far only when it is strictly nearer. */
  function Nearest(hits: seq<Option<Hit>>): (r: (Option<Vec2>, real))
    ensures r.1 <= Rects.FloatMax
  {
    if |hits| == 0 then (None, Rects.FloatMax)
    else
      var best := Nearest(hits[..|hits| - 1]);
      var h := hits[|hits| - 1];
      if h.Some? && h.value.t < best.1 then (Some(h.value.point), h.value.t) else best
  }

  /** What the scan finds: nothing exactly when no candidate is nearer than
      FLT_MAX; otherwise the first candidate at the smallest distance. */
  lemma {:induction false} NearestIsFirstClosest(hits: seq<Option<Hit>>)
    ensures var r := Nearest(hits);
            forall j :: 0 <= j < |hits| && hits[j].Some? ==> r.1 <= hits[j].value.t
    ensures var r := Nearest(hits);
            r.0.None? <==> r.1 == Rects.FloatMax
    ensures var r := Nearest(hits);
            r.0.None? ==> forall j :: 0 <= j < |hits| && hits[j].Some? ==> hits[j].value.t >= Rects.FloatMax
    ensures var r := Nearest(hits);
            r.0.Some? ==> exists k :: 0 <= k < |hits| && hits[k] == Some(Hit(r.0.value, r.1)) &&
                                      forall j :: 0 <= j < k && hits[j].Some? ==> hits[j].value.t > r.1
  {
    if |hits| > 0 {
      var init := hits[..|hits| - 1];
      NearestIsFirstClosest(init);
      var best := Nearest(init);
      var h := hits[|hits| - 1];
      assert forall j :: 0 <= j < |init| ==> hits[j] == init[j];
      var r := Nearest(hits);
      if h.Some? && h.value.t < best.1 {
        assert hits[|hits| - 1] == Some(Hit(r.0.value, r.1));
      } else if r.0.Some? {
        var k :| 0 <= k < |init| && init[k] == Some(Hit(r.0.value, r.1)) &&
                 forall j :: 0 <= j < k && init[j].Some? ==> init[j].value.t > r.1;
        assert hits[k] == init[k];
      }
    }
  }

  /** The scan over a longer prefix adds one step. */
  lemma NearestStep(hits: seq<Option<Hit>>, i: nat)
    requires i < |hits|
    ensures Nearest(hits[..i + 1]) ==
              var best := Nearest(hits[..i]);
              if hits[i].Some? && hits[i].value.t < best.1 then (Some(hits[i].value.point), hits[i].value.t) else best
  {
    assert hits[..i + 1][..i] == hits[..i];
  }

  /** No candidate, no hit. */
  lemma NearestOfMisses(hits: seq<Option<Hit>>)
    requires forall j :: 0 <= j < |hits| ==> hits[j].None?
    ensures Nearest(hits).0.None?
  {
    NearestIsFirstClosest(hits);
  }

  /** A single candidate nearer than FLT_MAX is the hit. */
  lemma NearestOfSingle(hits: seq<Option<Hit>>, k: nat)
    requires k < |hits| && hits[k].Some? && hits[k].value.t < Rects.FloatMax
    requires forall j :: 0 <= j < |hits| && j != k ==> hits[j].None?
    ensures Nearest(hits).0 == Some(hits[k].value.point)
  {
    NearestIsFirstClosest(hits);
  }

  /** The corner rule shared by both casts, applied to the crossing `r` the
      ray has with edge `ed`: a crossing at the edge's first point is kept
      when the ray starts inside or its reversed direction lies between this
      edge's normal and the previous edge's; at the second point likewise
      with the next edge's normal. A kept crossing is a candidate at its
      distance along the ray. */
  function Verdict(a: Ray, ed: Segment, r: Option<Vec2>, inside: bool, normal: Vec2, prevNormal: Vec2, nextNormal: Vec2, sqrt: real -> real): Option<Hit>
    requires IsSqrt(sqrt)
  {
    if r.None? then None
    else if r.value == ed.pointA && !inside && !IsBetween(Neg(a.direction), normal, prevNormal) then None
    else if r.value != ed.pointA && r.value == ed.pointB && !inside && !IsBetween(Neg(a.direction), normal, nextNormal) then None
    else Some(Hit(r.value, ComputeT(a, r.value, sqrt)))
  }

  /** A candidate is the crossing itself; only a corner crossing from outside
      is dropped, and only when the reversed direction does not lie between
      the two normals meeting there. */
  lemma VerdictKeepsCrossings(a: Ray, ed: Segment, r: Option<Vec2>, inside: bool, normal: Vec2, prevNormal: Vec2, nextNormal: Vec2, sqrt: real -> real)
    requires IsSqrt(sqrt)
    ensures var h := Verdict(a, ed, r, inside, normal, prevNormal, nextNormal, sqrt);
            (h.Some? ==> r == Some(h.value.point)) &&
            (r.Some? && r.value != ed.pointA && r.value != ed.pointB ==> h.Some?) &&
            (r.Some? && inside ==> h.Some?) &&
            (r.Some? && r.value == ed.pointA ==> (h.Some? <==> inside || IsBetween(Neg(a.direction), normal, prevNormal))) &&
            (r.Some? && r.value != ed.pointA && r.value == ed.pointB ==> (h.Some? <==> inside || IsBetween(Neg(a.direction), normal, nextNormal)))
  {
  }

  /** The neighbour index the code passes to `normal` without wrapping: one
      before the edge at its first point, one after it at its second. */
  function NeighbourIndexAsWritten(i: int, atFirstPoint: bool): int
  {
    if atFirstPoint then i - 1 else i + 1
  }

  // ---------------------------------------------------------------------
  // Ray against rectangle

  /** The candidate on edge i of a rectangle, with the neighbouring normals
      taken with wrapping. */
  function RectEdgeHit(a: Ray, b: Rects.Rect, i: int, inside: bool, sqrt: real -> real): Option<Hit>
    requires IsSqrt(sqrt) && 0 <= i < 4
  {
    var ed := Rects.Edge(b, i, false);
    Verdict(a, ed, Intersections.RaySegment(a, ed, sqrt), inside, Rects.Normal(b, i, false),
            Rects.Normal(b, i - 1, true), Rects.Normal(b, i + 1, true), sqrt)
  }

  /** The candidates on the four edges, in the order right, top, left,
      bottom. */
  function RectHits(a: Ray, b: Rects.Rect, sqrt: real -> real): seq<Option<Hit>>
    requires IsSqrt(sqrt)
  {
    var inside := Intersections.TestRectPoint(b, a.point);
    seq(4, i requires 0 <= i < 4 => RectEdgeHit(a, b, i, inside, sqrt))
  }

  /** `get(Ray, Rect)`: the edge loop; whether the origin is inside is
      computed on the first corner crossing only. */
  method RayRect(a: Ray, b: Rects.Rect, sqrt: real -> real) returns (pt: Option<Vec2>)
    requires IsSqrt(sqrt)
    ensures pt == Nearest(RectHits(a, b, sqrt)).0
  {
    var hits := RectHits(a, b, sqrt);
    pt := None;
    var inside: Option<bool> := None;
    var t := Rects.FloatMax;
    for i := 0 to 4
      invariant (pt, t) == Nearest(hits[..i])
      invariant inside.Some? ==> inside.value == Intersections.TestRectPoint(b, a.point)
    {
      NearestStep(hits, i);
      var ed := Rects.Edge(b, i, false);
      var r := Intersections.RaySegment(a, ed, sqrt);
      assert hits[i] == Verdict(a, ed, r, Intersections.TestRectPoint(b, a.point), Rects.Normal(b, i, false),
                                Rects.Normal(b, i - 1, true), Rects.Normal(b, i + 1, true), sqrt);
      if r.None? {
        continue;
      }
      if r.value == ed.pointA {
        if inside.None? {
          inside := Some(Intersections.TestRectPoint(b, a.point));
        }
        if !inside.value && !IsBetween(Neg(a.direction), Rects.Normal(b, i, false), Rects.Normal(b, i - 1, true)) {
          continue;
        }
      } else if r.value == ed.pointB {
        if inside.None? {
          inside := Some(Intersections.TestRectPoint(b, a.point));
        }
        if !inside.value && !IsBetween(Neg(a.direction), Rects.Normal(b, i, false), Rects.Normal(b, i + 1, true)) {
          continue;
        }
      }
      var u := ComputeT(a, r.value, sqrt);
      if u < t {
        t := u;
        pt := r;
      }
    }
    assert hits[..4] == hits;
  }

  /** The candidate on edge i as the code computes it in a build without
      assertions: the neighbour index is not wrapped, and `normal` maps the
      out-of-range indices -1 and 4 to the bottom normal. */
  function RectEdgeHitAsWritten(a: Ray, b: Rects.Rect, i: int, inside: bool, sqrt: real -> real): Option<Hit>
    requires IsSqrt(sqrt) && 0 <= i < 4
  {
    var ed := Rects.Edge(b, i, false);
    Verdict(a, ed, Intersections.RaySegment(a, ed, sqrt), inside, Rects.Normal(b, i, false),
            Rects.NormalAt(NeighbourIndexAsWritten(i, true)), Rects.NormalAt(NeighbourIndexAsWritten(i, false)), sqrt)
  }

  /** The unwrapped neighbour is wrong only past the last edge: before the
      first edge the bottom normal is the right one by coincidence. */
  lemma RectNeighbourAsWritten(b: Rects.Rect, i: int)
    requires 0 <= i < 4
    ensures Rects.NormalAt(NeighbourIndexAsWritten(i, true)) == Rects.Normal(b, i - 1, true)
    ensures i < 3 <==> Rects.NormalAt(NeighbourIndexAsWritten(i, false)) == Rects.Normal(b, i + 1, true)
  {
    assert Rects.WrapIndex(i - 1, 4) == if i == 0 then 3 else i - 1;
    assert Rects.WrapIndex(i + 1, 4) == if i == 3 then 0 else i + 1;
  }

  /** The neighbours taken with wrapping are the edges that share the
      corner: the edge before ends at this edge's first point, the edge
      after starts at its second point, and their normals are the ones the
      corner rule reads. */
  lemma RectCornerNeighbours(b: Rects.Rect, i: int)
    requires 0 <= i < 4
    ensures var prev := (i + 3) % 4;
            Rects.Edge(b, prev, false).pointB == Rects.Edge(b, i, false).pointA &&
            Rects.Normal(b, i - 1, true) == Rects.Normal(b, prev, false)
    ensures var next := (i + 1) % 4;
            Rects.Edge(b, next, false).pointA == Rects.Edge(b, i, false).pointB &&
            Rects.Normal(b, i + 1, true) == Rects.Normal(b, next, false)
  {
    assert Rects.WrapIndex(i - 1, 4) == (i + 3) % 4;
    assert Rects.WrapIndex(i + 1, 4) == (i + 1) % 4;
  }

  /** A horizontal direction normalises to right or left, and its length is
      the absolute value of its x component. */
  lemma HorizontalDirection(d: Vec2, sqrt: real -> real)
    requires IsSqrt(sqrt) && d.x != 0.0 && d.y == 0.0
    ensures d.x > 0.0 ==> sqrt(SquaredLength(d)) == d.x && Normalized(d, sqrt) == Right
    ensures d.x < 0.0 ==> sqrt(SquaredLength(d)) == -d.x && Normalized(d, sqrt) == Left
  {
    var m := if d.x > 0.0 then d.x else -d.x;
    HorizontalLength(d, m, sqrt);
    var k := InverseLength(d, sqrt);
    UnitScale(k, m);
    assert Scale(k, d) == Vec2(k * d.x, k * d.y);
  }

  /** The length of a horizontal vector is the size of its x component. */
  lemma HorizontalLength(d: Vec2, m: real, sqrt: real -> real)
    requires IsSqrt(sqrt) && d.x != 0.0 && d.y == 0.0
    requires m == if d.x > 0.0 then d.x else -d.x
    ensures SquaredLength(d) > 0.0 && sqrt(SquaredLength(d)) == m
  {
    assert SquaredLength(d) == Times(d.x, d.x) + Times(d.y, d.y);
    assert Times(d.y, d.y) == Times(0.0, 0.0);
    assert Times(d.x, d.x) == Times(m, m);
    PositiveSquare(m);
    Intersections.SqrtOfSquare(sqrt, m);
  }

  lemma UnitScale(k: real, m: real)
    requires k * m == 1.0
    ensures k * m == 1.0 && k * -m == -1.0 && k * 0.0 == 0.0
  {
  }

  /** A vertical direction pointing up normalises to up. */
  lemma UpwardDirection(d: Vec2, sqrt: real -> real)
    requires IsSqrt(sqrt) && d.x == 0.0 && d.y > 0.0
    ensures Normalized(d, sqrt) == Up
  {
    assert SquaredLength(d) == Times(d.x, d.x) + Times(d.y, d.y);
    assert Times(d.x, d.x) == Times(0.0, 0.0);
    Intersections.SqrtOfSquare(sqrt, d.y);
    var k := InverseLength(d, sqrt);
    assert k * d.y == 1.0;
    assert Scale(k, d) == Vec2(k * d.x, k * d.y);
  }

  /** An upward ray from below a horizontal segment, through one of its end
      points, crosses the segment exactly at that end point. */
  lemma UpwardRayHitsEnd(a: Ray, s: Segment, sqrt: real -> real)
    requires IsSqrt(sqrt) && a.direction == Up
    requires s.pointA.y == s.pointB.y && s.pointA.x != s.pointB.x && a.point.y < s.pointA.y
    requires a.point.x == s.pointA.x || a.point.x == s.pointB.x
    ensures a.point.x == s.pointA.x ==> Intersections.RaySegment(a, s, sqrt) == Some(s.pointA)
    ensures a.point.x == s.pointB.x ==> Intersections.RaySegment(a, s, sqrt) == Some(s.pointB)
  {
    var d := Sub(s.pointB, s.pointA);
    HorizontalDirection(d, sqrt);
    Intersections.RaySegmentCrossing(a, s, sqrt);
    var bdir := Normalized(d, sqrt);
    assert Cross(Up, bdir) != 0.0;
    var c := Intersections.CrossingOf(a.point, Up, s.pointA, bdir);
    assert Add(a.point, Scale(c.t, Up)) == Add(s.pointA, Scale(c.u, bdir));
    assert c.t == s.pointA.y - a.point.y;
    if a.point.x == s.pointA.x {
      assert c.u == 0.0;
    } else if d.x > 0.0 {
      assert c.u == d.x;
    } else {
      assert c.u == -d.x;
    }
  }

  /** An upward ray never crosses a vertical segment pointing up. */
  lemma UpwardRayMissesUpwardSide(a: Ray, s: Segment, sqrt: real -> real)
    requires IsSqrt(sqrt) && a.direction == Up
    requires s.pointA.x == s.pointB.x && s.pointA.y < s.pointB.y
    ensures Intersections.RaySegment(a, s, sqrt).None?
  {
    UpwardDirection(Sub(s.pointB, s.pointA), sqrt);
    Intersections.RaySegmentParallel(a, s, sqrt);
  }

  /** An upward ray never crosses a vertical segment pointing down. */
  lemma UpwardRayMissesDownwardSide(a: Ray, s: Segment, sqrt: real -> real)
    requires IsSqrt(sqrt) && a.direction == Up
    requires s.pointA.x == s.pointB.x && s.pointA.y > s.pointB.y
    ensures Intersections.RaySegment(a, s, sqrt).None?
  {
    var d := Sub(s.pointB, s.pointA);
    UpwardDirection(Neg(d), sqrt);
    assert Normalized(d, sqrt) == Down by {
      assert SquaredLength(d) == SquaredLength(Neg(d));
      assert InverseLength(d, sqrt) == InverseLength(Neg(d), sqrt);
    }
    Intersections.RaySegmentParallel(a, s, sqrt);
  }

  /** A ray going up along the right side of a rectangle, from below it. */
  predicate RisesAlongRightSide(a: Ray, b: Rects.Rect)
  {
    Rects.Width(b) > 0.0 && Rects.Height(b) > 0.0 &&
    a.direction == Vec2(0.0, 1.0) && a.point.x == Rects.Right(b) && a.point.y < Rects.Bottom(b) &&
    Rects.Bottom(b) - a.point.y < Rects.FloatMax
  }

  /** Such a ray crosses the right and left sides nowhere, the top edge at
      its first point and the bottom edge at its second point, and starts
      outside. */
  lemma RightSideCrossings(a: Ray, b: Rects.Rect, sqrt: real -> real)
    requires IsSqrt(sqrt) && RisesAlongRightSide(a, b)
    ensures Intersections.RaySegment(a, Rects.Edge(b, 0, false), sqrt).None?
    ensures Intersections.RaySegment(a, Rects.Edge(b, 1, false), sqrt) == Some(Rects.TopRight(b))
    ensures Intersections.RaySegment(a, Rects.Edge(b, 2, false), sqrt).None?
    ensures Intersections.RaySegment(a, Rects.Edge(b, 3, false), sqrt) == Some(Rects.BottomRight(b))
    ensures !Intersections.TestRectPoint(b, a.point)
  {
    UpwardRayMissesUpwardSide(a, Rects.Edge(b, 0, false), sqrt);
    UpwardRayHitsEnd(a, Rects.Edge(b, 1, false), sqrt);
    UpwardRayMissesDownwardSide(a, Rects.Edge(b, 2, false), sqrt);
    UpwardRayHitsEnd(a, Rects.Edge(b, 3, false), sqrt);
  }

  /** Along an upward ray, the distance to a point straight above the
      origin is the difference in height. */
  lemma UpwardDistance(a: Ray, pt: Vec2, sqrt: real -> real)
    requires IsSqrt(sqrt) && a.direction == Up
    requires pt.x == a.point.x && pt.y >= a.point.y
    ensures ComputeT(a, pt, sqrt) == pt.y - a.point.y
  {
    var h := pt.y - a.point.y;
    var v := ProjectionOnto(Sub(pt, a.point), Up);
    assert v == Vec2(0.0, h);
    assert SquaredLength(v) == Times(v.x, v.x) + Times(v.y, v.y);
    assert Times(v.x, v.x) == Times(0.0, 0.0);
    Intersections.SqrtOfSquare(sqrt, h);
  }

  /** Finding: as written, a ray going up along the right side of a
      rectangle from below keeps its crossing with the bottom edge at the
      bottom-right corner, because at the last edge the corner rule compares
      the reversed direction with the bottom normal twice; with the wrapped
      neighbour (the right normal) the corner is rejected, as the crossing
      of the mirror-image ray with the bottom-left corner is in either
      version. */
  lemma RectCornerFinding(a: Ray, b: Rects.Rect, sqrt: real -> real)
    requires IsSqrt(sqrt) && RisesAlongRightSide(a, b)
    ensures !Intersections.TestRectPoint(b, a.point)
    ensures RectEdgeHitAsWritten(a, b, 3, false, sqrt) == Some(Hit(Rects.BottomRight(b), Rects.Bottom(b) - a.point.y))
    ensures RectEdgeHit(a, b, 3, false, sqrt).None?
  {
    RectCornerKeptAsWritten(a, b, sqrt);
    RectCornerRejected(a, b, sqrt);
  }

  lemma RectCornerKeptAsWritten(a: Ray, b: Rects.Rect, sqrt: real -> real)
    requires IsSqrt(sqrt) && RisesAlongRightSide(a, b)
    ensures !Intersections.TestRectPoint(b, a.point)
    ensures RectEdgeHitAsWritten(a, b, 3, false, sqrt) == Some(Hit(Rects.BottomRight(b), Rects.Bottom(b) - a.point.y))
  {
    RightSideCrossings(a, b, sqrt);
    UpwardDistance(a, Rects.BottomRight(b), sqrt);
    assert Neg(a.direction) == Vec2(0.0, -1.0);
    BottomRightNormals(b);
    BottomRightTurns();
  }

  lemma RectCornerRejected(a: Ray, b: Rects.Rect, sqrt: real -> real)
    requires IsSqrt(sqrt) && RisesAlongRightSide(a, b)
    ensures RectEdgeHit(a, b, 3, false, sqrt).None?
  {
    RightSideCrossings(a, b, sqrt);
    assert Neg(a.direction) == Vec2(0.0, -1.0);
    BottomRightNormals(b);
    BottomRightTurns();
  }

  /** The normals the last edge's corner test reads: its own, the one at
      index 4 as written, and the wrapped one. */
  lemma BottomRightNormals(b: Rects.Rect)
    ensures Rects.Normal(b, 3, false) == Vec2(0.0, -1.0)
    ensures Rects.NormalAt(4) == Vec2(0.0, -1.0)
    ensures Rects.Normal(b, 4, true) == Vec2(1.0, 0.0)
  {
    assert Rects.WrapIndex(4, 4) == 0;
  }

  /** Down lies between down and down, but not between down and right. */
  lemma BottomRightTurns()
    ensures IsBetween(Vec2(0.0, -1.0), Vec2(0.0, -1.0), Vec2(0.0, -1.0))
    ensures !IsBetween(Vec2(0.0, -1.0), Vec2(0.0, -1.0), Vec2(1.0, 0.0))
  {
  }

  // ---------------------------------------------------------------------
  // Ray against convex polygon

  /** The candidate on edge i of a polygon, with the neighbouring normals
      taken cyclically (as `normal(i - 1, true)` and `normal(i + 1, true)`
      would). */
  function PolygonEdgeHit(a: Ray, b: Polygons.Polygon, i: nat, inside: bool, sqrt: real -> real): Option<Hit>
    requires IsSqrt(sqrt) && i < Polygons.EdgeCount(b)
    requires Polygons.OrderingOf(b) != Polygons.Unknown
  {
    var n := Polygons.EdgeCount(b);
    var ed := Polygons.EdgeAt(b, i);
    Verdict(a, ed, Intersections.RaySegment(a, ed, sqrt), inside, Polygons.NormalAt(b, i, sqrt),
            Polygons.NormalAt(b, Polygons.Prev(n, i), sqrt), Polygons.NormalAt(b, Polygons.Next(n, i), sqrt), sqrt)
  }

  /** The candidates on the polygon's edges, in edge order. */
  function PolygonHits(a: Ray, b: Polygons.Polygon, sqrt: real -> real): seq<Option<Hit>>
    requires IsSqrt(sqrt)
    requires Polygons.EdgeCount(b) > 0 ==> Polygons.OrderingOf(b) != Polygons.Unknown
  {
    var inside := Polygons.InsideAllEdges(b, a.point, sqrt);
    seq(Polygons.EdgeCount(b), (i: nat) requires i < Polygons.EdgeCount(b) => PolygonEdgeHit(a, b, i, inside, sqrt))
  }

  /** `get(Ray, Polygon)` on a convex polygon: the same edge loop as for a
      rectangle. */
  method RayPolygon(a: Ray, b: Polygons.Polygon, sqrt: real -> real) returns (pt: Option<Vec2>)
    requires IsSqrt(sqrt)
    requires Polygons.IsConvexSpec(b)
    requires Polygons.EdgeCount(b) > 0 ==> Polygons.OrderingOf(b) != Polygons.Unknown
    ensures pt == Nearest(PolygonHits(a, b, sqrt)).0
  {
    var hits := PolygonHits(a, b, sqrt);
    var eCount := Polygons.EdgeCount(b);
    pt := None;
    var inside: Option<bool> := None;
    var t := Rects.FloatMax;
    for i := 0 to eCount
      invariant (pt, t) == Nearest(hits[..i])
      invariant inside.Some? ==> inside.value == Polygons.InsideAllEdges(b, a.point, sqrt)
    {
      NearestStep(hits, i);
      var h;
      h, inside := PolygonEdgeStep(a, b, i, inside, sqrt);
      if h.Some? && h.value.t < t {
        t := h.value.t;
        pt := Some(h.value.point);
      }
    }
    assert hits[..eCount] == hits;
  }

  /** One pass of the polygon's edge loop: the crossing with edge i, the
      corner test (which computes, once, whether the origin is inside) and
      the distance of a kept crossing. */
  method PolygonEdgeStep(a: Ray, b: Polygons.Polygon, i: nat, inside: Option<bool>, sqrt: real -> real)
    returns (h: Option<Hit>, inside': Option<bool>)
    requires IsSqrt(sqrt) && i < Polygons.EdgeCount(b)
    requires Polygons.IsConvexSpec(b)
    requires Polygons.OrderingOf(b) != Polygons.Unknown
    requires inside.Some? ==> inside.value == Polygons.InsideAllEdges(b, a.point, sqrt)
    ensures h == PolygonEdgeHit(a, b, i, Polygons.InsideAllEdges(b, a.point, sqrt), sqrt)
    ensures inside'.Some? ==> inside'.value == Polygons.InsideAllEdges(b, a.point, sqrt)
  {
    var eCount := Polygons.EdgeCount(b);
    var ed := Polygons.EdgeAt(b, i);
    var r := Intersections.RaySegment(a, ed, sqrt);
    var normal := Polygons.NormalAt(b, i, sqrt);
    var prevNormal := Polygons.NormalAt(b, Polygons.Prev(eCount, i), sqrt);
    var nextNormal := Polygons.NormalAt(b, Polygons.Next(eCount, i), sqrt);
    ghost var isInside := Polygons.InsideAllEdges(b, a.point, sqrt);
    assert PolygonEdgeHit(a, b, i, isInside, sqrt) == Verdict(a, ed, r, isInside, normal, prevNormal, nextNormal, sqrt);
    inside' := inside;
    if r.None? {
      return None, inside';
    }
    if r.value == ed.pointA {
      if inside'.None? {
        var c := Polygons.ContainsPoint(b, a.point, sqrt);
        inside' := Some(c);
      }
      if !inside'.value && !IsBetween(Neg(a.direction), normal, prevNormal) {
        return None, inside';
      }
    } else if r.value == ed.pointB {
      if inside'.None? {
        var c := Polygons.ContainsPoint(b, a.point, sqrt);
        inside' := Some(c);
      }
      if !inside'.value && !IsBetween(Neg(a.direction), normal, nextNormal) {
        return None, inside';
      }
    }
    h := Some(Hit(r.value, ComputeT(a, r.value, sqrt)));
  }

  /** The cyclic neighbours are the indices `normal(i - 1, true)` and
      `normal(i + 1, true)` select. */
  lemma CyclicNeighbours(n: nat, i: nat)
    requires i < n
    ensures Polygons.Prev(n, i) == Rects.WrapIndex(i - 1, n)
    ensures Polygons.Next(n, i) == Rects.WrapIndex(i + 1, n)
  {
    if i == 0 {
      Rects.DivModUnique(i - 1, n, -1, n - 1);
    } else {
      Rects.DivModUnique(i - 1, n, 0, i - 1);
    }
  }

  /** So the normals the polygon cast uses at the corners are those of
      `normal(i - 1, true)` and `normal(i + 1, true)`. */
  lemma PolygonCornerNormals(b: Polygons.Polygon, i: nat, sqrt: real -> real)
    requires IsSqrt(sqrt) && i < Polygons.EdgeCount(b)
    requires Polygons.OrderingOf(b) != Polygons.Unknown
    ensures Polygons.NormalAt(b, Polygons.Prev(Polygons.EdgeCount(b), i), sqrt) == Polygons.Normal(b, i - 1, true, sqrt)
    ensures Polygons.NormalAt(b, Polygons.Next(Polygons.EdgeCount(b), i), sqrt) == Polygons.Normal(b, i + 1, true, sqrt)
  {
    CyclicNeighbours(Polygons.EdgeCount(b), i);
  }

  /** In a closed polygon the cyclic neighbours of edge i are the edges that
      share its corners. */
  lemma PolygonCornerEdges(b: Polygons.Polygon, i: nat)
    requires b.closed && i < Polygons.EdgeCount(b)
    ensures Polygons.EdgeAt(b, Polygons.Prev(Polygons.EdgeCount(b), i)).pointB == Polygons.EdgeAt(b, i).pointA
    ensures Polygons.EdgeAt(b, Polygons.Next(Polygons.EdgeCount(b), i)).pointA == Polygons.EdgeAt(b, i).pointB
  {
    var n := Polygons.EdgeCount(b);
    assert n == |b.points|;
    var j := Polygons.Prev(n, i);
    assert Polygons.EdgeAt(b, j).pointB == b.points[(j + 1) % n];
  }

  /** Finding: as written, the polygon cast reads the normal of edge i - 1
      at the first edge's first point and of edge i + 1 at the last edge's
      second point, both outside the normal list. A rectangle as a polygon
      and a ray going up along its right side from below reach the second
      case: the crossing on the last edge is at its second point and the
      origin is outside, so normal(4) of a four-edge polygon is read. */
  lemma PolygonNeighbourFinding(a: Ray, b: Rects.Rect, sqrt: real -> real)
    requires IsSqrt(sqrt) && RisesAlongRightSide(a, b)
    ensures var p := Polygons.RectPolygon(b);
            Polygons.EdgeCount(p) == 4 && Polygons.OrderingOf(p) == Polygons.Ccw &&
            Intersections.RaySegment(a, Polygons.Edge(p, 3, false), sqrt) == Some(Polygons.Edge(p, 3, false).pointB) &&
            !Polygons.InsideAllEdges(p, a.point, sqrt) &&
            NeighbourIndexAsWritten(3, false) == Polygons.EdgeCount(p)
    ensures forall q: Polygons.Polygon :: Polygons.EdgeCount(q) > 0 ==>
              NeighbourIndexAsWritten(0, true) == -1 &&
              NeighbourIndexAsWritten(Polygons.EdgeCount(q) - 1, false) == Polygons.EdgeCount(q)
  {
    RectPolygonBottom(b);
    PolygonBottomCrossing(a, b, sqrt);
    RayBelowBottomEdge(a, b);
    BelowRightwardEdge(Polygons.RectPolygon(b), 3, a.point, sqrt);
  }

  /** The upward ray along the right side crosses the polygon's bottom edge
      at its end. */
  lemma PolygonBottomCrossing(a: Ray, b: Rects.Rect, sqrt: real -> real)
    requires IsSqrt(sqrt) && RisesAlongRightSide(a, b)
    requires Polygons.Edge(Polygons.RectPolygon(b), 3, false) == Rects.Edge(b, 3, false)
    ensures var ed := Polygons.Edge(Polygons.RectPolygon(b), 3, false);
            Intersections.RaySegment(a, ed, sqrt) == Some(ed.pointB)
  {
    RightSideCrossings(a, b, sqrt);
  }

  /** The polygon's last edge runs rightwards at the bottom, above the ray's
      origin. */
  lemma RayBelowBottomEdge(a: Ray, b: Rects.Rect)
    requires RisesAlongRightSide(a, b)
    ensures var e := Polygons.EdgeAt(Polygons.RectPolygon(b), 3);
            e.pointA.y == e.pointB.y && e.pointA.x < e.pointB.x && a.point.y < e.pointA.y
  {
  }

  /** A point below a rightward edge of a counter-clockwise polygon lies
      outside it: that edge separates the point. */
  lemma BelowRightwardEdge(p: Polygons.Polygon, i: int, pt: Vec2, sqrt: real -> real)
    requires IsSqrt(sqrt) && 0 <= i < Polygons.EdgeCount(p)
    requires Polygons.OrderingOf(p) == Polygons.Ccw
    requires Polygons.EdgeAt(p, i).pointA.y == Polygons.EdgeAt(p, i).pointB.y
    requires Polygons.EdgeAt(p, i).pointA.x < Polygons.EdgeAt(p, i).pointB.x
    requires pt.y < Polygons.EdgeAt(p, i).pointA.y
    ensures Polygons.Separates(p, pt, i, sqrt)
    ensures !Polygons.InsideAllEdges(p, pt, sqrt)
  {
    RightwardEdgeNormal(p, i, sqrt);
    DownwardEdgeSeparates(p, i, pt, sqrt);
  }

  lemma DownwardEdgeSeparates(p: Polygons.Polygon, i: int, pt: Vec2, sqrt: real -> real)
    requires IsSqrt(sqrt) && 0 <= i < Polygons.EdgeCount(p)
    requires Polygons.OrderingOf(p) != Polygons.Unknown
    requires Polygons.NormalAt(p, i, sqrt) == Vec2(0.0, -1.0)
    requires pt.y < Polygons.EdgeAt(p, i).pointA.y
    ensures Polygons.Separates(p, pt, i, sqrt)
  {
    DotDown(Sub(pt, Polygons.EdgeAt(p, i).pointA));
  }

  /** A rightward edge of a counter-clockwise polygon has the downward
      normal. */
  lemma RightwardEdgeNormal(p: Polygons.Polygon, i: int, sqrt: real -> real)
    requires IsSqrt(sqrt) && 0 <= i < Polygons.EdgeCount(p)
    requires Polygons.OrderingOf(p) == Polygons.Ccw
    requires Polygons.EdgeAt(p, i).pointA.y == Polygons.EdgeAt(p, i).pointB.y
    requires Polygons.EdgeAt(p, i).pointA.x < Polygons.EdgeAt(p, i).pointB.x
    ensures Polygons.NormalAt(p, i, sqrt) == Vec2(0.0, -1.0)
  {
    var e := Polygons.EdgeAt(p, i);
    var d := Sub(e.pointB, e.pointA);
    HorizontalDirection(d, sqrt);
    assert Scale(InverseLength(d, sqrt), d) == Vec2(1.0, 0.0);
  }

  lemma DotDown(v: Vec2)
    ensures Dot(v, Vec2(0.0, -1.0)) == -v.y
  {
  }

  /** The rectangle as a polygon is ordered counter-clockwise and its last
      edge is the rectangle's bottom edge. */
  lemma RectPolygonBottom(b: Rects.Rect)
    requires Rects.Width(b) > 0.0 && Rects.Height(b) > 0.0
    ensures Polygons.OrderingOf(Polygons.RectPolygon(b)) == Polygons.Ccw
    ensures Polygons.Edge(Polygons.RectPolygon(b), 3, false) == Rects.Edge(b, 3, false)
  {
    Polygons.RectPolygonArea(b);
    assert Rects.Width(b) * Rects.Height(b) > 0.0;
  }
}
