/** Cubic Bézier curves (BezierCurve.h, BezierCurve.cpp): evaluation,
    halving, the flatness test, and the conversion to a polygon by recursive
    halving until every piece is flat. */
module Beziers {
  import opened Vectors
  import Lines
  import Polygons

  datatype BezierCurve = BezierCurve(point0: Vec2, point1: Vec2, point2: Vec2, point3: Vec2)

  /** `BezierCurve()`: every control point at the origin. */
  const Origin: BezierCurve := BezierCurve(Zero, Zero, Zero, Zero)

  /** `sampleAlongCurve(u)`: the Bernstein form. */
  function SampleAlongCurve(b: BezierCurve, u: real): Vec2
  {
    var t1 := 1.0 - u;
    var t2 := t1 * t1;
    var t3 := t2 * t1;
    var u2 := u * u;
    var u3 := u2 * u;
    Add(Add(Add(Scale(t3, b.point0), Scale(3.0 * u * t2, b.point1)), Scale(3.0 * u2 * t1, b.point2)), Scale(u3, b.point3))
  }

  /** The curve starts at its first control point and ends at its last. */
  lemma SampleEnds(b: BezierCurve)
    ensures SampleAlongCurve(b, 0.0) == b.point0
    ensures SampleAlongCurve(b, 1.0) == b.point3
  {
  }

  function Midpoint(p: Vec2, q: Vec2): Vec2 { Scale(0.5, Add(p, q)) }

  /** `subdivide(b1, b2)`: de Casteljau's construction at the parameter
      one half. */
  function Subdivide(b: BezierCurve): (halves: (BezierCurve, BezierCurve))
  {
    var l1 := Midpoint(b.point0, b.point1);
    var h := Midpoint(b.point1, b.point2);
    var r2 := Midpoint(b.point2, b.point3);
    var l2 := Midpoint(l1, h);
    var r1 := Midpoint(h, r2);
    var l3 := Midpoint(l2, r1);
    (BezierCurve(b.point0, l1, l2, l3), BezierCurve(l3, r1, r2, b.point3))
  }

  /** The left half starts where the curve starts, the right half ends
      where it ends, the halves meet, and they meet at the curve's point for
      the parameter one half. */
  lemma SubdivideJoins(b: BezierCurve)
    ensures Subdivide(b).0.point0 == b.point0 && Subdivide(b).1.point3 == b.point3
    ensures Subdivide(b).0.point3 == Subdivide(b).1.point0
    ensures Subdivide(b).0.point3 == SampleAlongCurve(b, 0.5)
  {
  }

  /** `isStraight(epsilon)`: both inner control points lie within epsilon
      of the line through the end points. The distances are compared
      squared. When the end points coincide the line's direction is a
      division of zero by zero, so no distance compares as small and the
      curve is never straight. */
  predicate IsStraight(b: BezierCurve, epsilon: real, sqrt: real -> real)
    requires epsilon > 0.0 && IsSqrt(sqrt)
  {
    var l := Lines.LineThrough(b.point0, b.point3, sqrt);
    b.point0 != b.point3 &&
    Lines.LineSquaredDistance(l, b.point1) <= epsilon * epsilon &&
    Lines.LineSquaredDistance(l, b.point2) <= epsilon * epsilon
  }

  /** Halving reaches straight pieces within `depth` levels. The source's
      recursion has no bound of its own: it stops when the halves have
      become flat enough. */
  ghost predicate FlatWithin(b: BezierCurve, epsilon: real, depth: nat, sqrt: real -> real)
    requires epsilon > 0.0 && IsSqrt(sqrt)
    decreases depth
  {
    IsStraight(b, epsilon, sqrt) ||
    (depth > 0 && FlatWithin(Subdivide(b).0, epsilon, depth - 1, sqrt) && FlatWithin(Subdivide(b).1, epsilon, depth - 1, sqrt))
  }

  /** A curve whose control points all coincide is never straight, and its
      halves are again such curves, so the halving never stops. */
  lemma {:induction false} PointCurveNeverFlat(p: Vec2, epsilon: real, depth: nat, sqrt: real -> real)
    requires epsilon > 0.0 && IsSqrt(sqrt)
    ensures !FlatWithin(BezierCurve(p, p, p, p), epsilon, depth, sqrt)
  {
    var b := BezierCurve(p, p, p, p);
    assert Midpoint(p, p) == p;
    assert Subdivide(b) == (b, b);
    if depth > 0 {
      PointCurveNeverFlat(p, epsilon, depth - 1, sqrt);
    }
  }

  /** The halving `renderCurve` performs, as a tree: a straight piece, or a
      curve with the trees of its two halves. */
  datatype Halving = Straight(curve: BezierCurve) | Halved(curve: BezierCurve, left: Halving, right: Halving)

  /** The halving of a curve that becomes flat within `depth` levels. */
  ghost function HalvingOf(b: BezierCurve, epsilon: real, depth: nat, sqrt: real -> real): (h: Halving)
    requires epsilon > 0.0 && IsSqrt(sqrt) && FlatWithin(b, epsilon, depth, sqrt)
    ensures h.curve == b
    decreases depth
  {
    if IsStraight(b, epsilon, sqrt) then Straight(b)
    else Halved(b, HalvingOf(Subdivide(b).0, epsilon, depth - 1, sqrt), HalvingOf(Subdivide(b).1, epsilon, depth - 1, sqrt))
  }

  /** Every split of the tree starts its left part where the curve starts,
      ends its right part where the curve ends, and the parts meet. */
  predicate Joined(h: Halving)
  {
    match h
    case Straight(_) => true
    case Halved(c, l, r) =>
      l.curve.point0 == c.point0 && r.curve.point3 == c.point3 && l.curve.point3 == r.curve.point0 &&
      Joined(l) && Joined(r)
  }

  /** The points a halving appends: both end points of a straight piece;
      otherwise the left part's points without their last, then the right
      part's. */
  function Points(h: Halving): (ps: seq<Vec2>)
    ensures |ps| >= 2
  {
    match h
    case Straight(c) => [c.point0, c.point3]
    case Halved(_, l, r) => var lp := Points(l); lp[..|lp| - 1] + Points(r)
  }

  /** The points of a joined halving run from its curve's first control
      point to its last. */
  lemma {:induction false} PointsEnds(h: Halving)
    requires Joined(h)
    ensures Points(h)[0] == h.curve.point0 && Points(h)[|Points(h)| - 1] == h.curve.point3
  {
    match h
    case Straight(_) =>
    case Halved(c, l, r) =>
      PointsEnds(l);
      PointsEnds(r);
  }

  /** The halving of a curve is joined: de Casteljau's halves meet. */
  lemma {:induction false} HalvingJoined(b: BezierCurve, epsilon: real, depth: nat, sqrt: real -> real)
    requires epsilon > 0.0 && IsSqrt(sqrt) && FlatWithin(b, epsilon, depth, sqrt)
    ensures Joined(HalvingOf(b, epsilon, depth, sqrt))
    decreases depth
  {
    if !IsStraight(b, epsilon, sqrt) {
      SubdivideJoins(b);
      HalvingJoined(Subdivide(b).0, epsilon, depth - 1, sqrt);
      HalvingJoined(Subdivide(b).1, epsilon, depth - 1, sqrt);
    }
  }

  /** The points `renderCurve` appends for a curve. */
  ghost function Rendered(b: BezierCurve, epsilon: real, depth: nat, sqrt: real -> real): seq<Vec2>
    requires epsilon > 0.0 && IsSqrt(sqrt) && FlatWithin(b, epsilon, depth, sqrt)
  {
    Points(HalvingOf(b, epsilon, depth, sqrt))
  }

  /** The rendered points run from the curve's first control point to its
      last, at least two of them. */
  lemma RenderedEnds(b: BezierCurve, epsilon: real, depth: nat, sqrt: real -> real)
    requires epsilon > 0.0 && IsSqrt(sqrt) && FlatWithin(b, epsilon, depth, sqrt)
    ensures var r := Rendered(b, epsilon, depth, sqrt);
            |r| >= 2 && r[0] == b.point0 && r[|r| - 1] == b.point3
  {
    HalvingJoined(b, epsilon, depth, sqrt);
    PointsEnds(HalvingOf(b, epsilon, depth, sqrt));
  }

  /** `renderCurve(b, epsilon, points)`: the shared vector is passed in and
      handed back. */
  method RenderCurve(b: BezierCurve, epsilon: real, points: seq<Vec2>, ghost depth: nat, sqrt: real -> real) returns (ps: seq<Vec2>)
    requires epsilon > 0.0 && IsSqrt(sqrt) && FlatWithin(b, epsilon, depth, sqrt)
    ensures ps == points + Rendered(b, epsilon, depth, sqrt)
    decreases depth
  {
    if IsStraight(b, epsilon, sqrt) {
      ps := points + [b.point0];
      ps := ps + [b.point3];
    } else {
      var halves := Subdivide(b);
      ps := RenderCurve(halves.0, epsilon, points, depth - 1, sqrt);
      ghost var left := Rendered(halves.0, epsilon, depth - 1, sqrt);
      ps := ps[..|ps| - 1];
      assert ps == points + left[..|left| - 1];
      ps := RenderCurve(halves.1, epsilon, ps, depth - 1, sqrt);
    }
  }

  /** `toPolygon(quality)`: the rendered points with tolerance 1/quality;
      closed when the curve ends where it starts, and then the repeated
      last point is dropped if there are more than two. */
  method ToPolygon(b: BezierCurve, quality: nat, ghost depth: nat, sqrt: real -> real) returns (p: Polygons.Polygon)
    requires quality > 0 && IsSqrt(sqrt) && FlatWithin(b, 1.0 / quality as real, depth, sqrt)
    ensures var r := Rendered(b, 1.0 / quality as real, depth, sqrt);
            p.closed == (b.point0 == b.point3) &&
            (if p.closed && |r| > 2 then p.points + [b.point0] == r else p.points == r)
    ensures |p.points| >= 2 && p.points[0] == b.point0
    ensures !p.closed ==> p.points[|p.points| - 1] == b.point3
  {
    var epsilon := 1.0 / quality as real;
    var points := RenderCurve(b, epsilon, [], depth, sqrt);
    ghost var r := Rendered(b, epsilon, depth, sqrt);
    assert points == r;
    RenderedEnds(b, epsilon, depth, sqrt);
    if b.point0 == b.point3 && |points| > 2 {
      points := points[..|points| - 1];
      assert points + [b.point0] == r;
    }
    p := Polygons.Polygon(points, b.point0 == b.point3);
  }

  // ---------------------------------------------------------------------
  // Several curves in a row

  /** Each curve starts where the previous one ended (the source asserts
      this as it goes). */
  predicate Chained(curves: seq<BezierCurve>)
  {
    forall i :: 0 < i < |curves| ==> curves[i - 1].point3 == curves[i].point0
  }

  ghost predicate AllFlatWithin(curves: seq<BezierCurve>, epsilon: real, depth: nat, sqrt: real -> real)
    requires epsilon > 0.0 && IsSqrt(sqrt)
  {
    forall i :: 0 <= i < |curves| ==> FlatWithin(curves[i], epsilon, depth, sqrt)
  }

  /** Every prefix of a chain of flat curves is one. */
  lemma PrefixFlat(curves: seq<BezierCurve>, n: nat, epsilon: real, depth: nat, sqrt: real -> real)
    requires epsilon > 0.0 && IsSqrt(sqrt) && AllFlatWithin(curves, epsilon, depth, sqrt) && n <= |curves|
    ensures AllFlatWithin(curves[..n], epsilon, depth, sqrt)
  {
    forall i | 0 <= i < n ensures FlatWithin(curves[..n][i], epsilon, depth, sqrt) {
      assert curves[..n][i] == curves[i];
    }
  }

  /** The points of the curves rendered in turn, each with its last point
      dropped (the next curve starts there). */
  ghost function Leading(curves: seq<BezierCurve>, epsilon: real, depth: nat, sqrt: real -> real): seq<Vec2>
    requires epsilon > 0.0 && IsSqrt(sqrt) && AllFlatWithin(curves, epsilon, depth, sqrt)
  {
    if curves == [] then []
    else
      var r := Rendered(curves[|curves| - 1], epsilon, depth, sqrt);
      Leading(curves[..|curves| - 1], epsilon, depth, sqrt) + (if r == [] then [] else r[..|r| - 1])
  }

  /** The whole trace of a non-empty chain: the leading parts of all but
      the last curve, then the last curve's points. */
  ghost function Trace(curves: seq<BezierCurve>, epsilon: real, depth: nat, sqrt: real -> real): seq<Vec2>
    requires epsilon > 0.0 && IsSqrt(sqrt) && AllFlatWithin(curves, epsilon, depth, sqrt) && |curves| >= 1
  {
    Leading(curves[..|curves| - 1], epsilon, depth, sqrt) + Rendered(curves[|curves| - 1], epsilon, depth, sqrt)
  }

  /** The leading part of a non-empty chain starts at its first curve's
      first point. */
  lemma {:induction false} LeadingStarts(curves: seq<BezierCurve>, epsilon: real, depth: nat, sqrt: real -> real)
    requires epsilon > 0.0 && IsSqrt(sqrt) && AllFlatWithin(curves, epsilon, depth, sqrt) && |curves| >= 1
    ensures var l := Leading(curves, epsilon, depth, sqrt); |l| >= 1 && l[0] == curves[0].point0
  {
    var init := curves[..|curves| - 1];
    PrefixFlat(curves, |curves| - 1, epsilon, depth, sqrt);
    RenderedEnds(curves[|curves| - 1], epsilon, depth, sqrt);
    if |init| >= 1 {
      LeadingStarts(init, epsilon, depth, sqrt);
    }
  }

  /** A trace runs from the first curve's first point to the last curve's
      last point, with at least two points. */
  lemma TraceEnds(curves: seq<BezierCurve>, epsilon: real, depth: nat, sqrt: real -> real)
    requires epsilon > 0.0 && IsSqrt(sqrt) && AllFlatWithin(curves, epsilon, depth, sqrt) && |curves| >= 1
    ensures var t := Trace(curves, epsilon, depth, sqrt);
            |t| >= 2 && t[0] == curves[0].point0 && t[|t| - 1] == curves[|curves| - 1].point3
  {
    var init := curves[..|curves| - 1];
    PrefixFlat(curves, |curves| - 1, epsilon, depth, sqrt);
    RenderedEnds(curves[|curves| - 1], epsilon, depth, sqrt);
    if |init| >= 1 {
      LeadingStarts(init, epsilon, depth, sqrt);
    }
  }

  /** The polygon of a trace: closed when it ends where it starts and has
      more than two points, and then without the repeated last point. */
  function TracePolygon(t: seq<Vec2>): (p: Polygons.Polygon)
    requires |t| >= 1
    ensures p.closed <==> t[0] == t[|t| - 1] && |t| > 2
    ensures p.points == if p.closed then t[..|t| - 1] else t
  {
    if t[0] == t[|t| - 1] && |t| > 2 then Polygons.Polygon(t[..|t| - 1], true)
    else Polygons.Polygon(t, false)
  }

  /** One curve of a chain rendered onto the points so far, keeping its
      last point only when it is the last curve. */
  method ChainStep(ghost curves: seq<BezierCurve>, curve: BezierCurve, i: nat, last: bool, epsilon: real, points: seq<Vec2>,
                   ghost depth: nat, sqrt: real -> real) returns (ps: seq<Vec2>)
    requires epsilon > 0.0 && IsSqrt(sqrt) && AllFlatWithin(curves, epsilon, depth, sqrt) && i < |curves|
    requires curve == curves[i] && last == (i == |curves| - 1)
    requires points == Leading(curves[..i], epsilon, depth, sqrt)
    ensures i < |curves| - 1 ==> ps == Leading(curves[..i + 1], epsilon, depth, sqrt)
    ensures i == |curves| - 1 ==> ps == Trace(curves, epsilon, depth, sqrt)
  {
    assert curves[..i + 1][..i] == curves[..i];
    PrefixFlat(curves, i + 1, epsilon, depth, sqrt);
    ps := RenderCurve(curve, epsilon, points, depth, sqrt);
    RenderedEnds(curve, epsilon, depth, sqrt);
    if !last {
      ps := ps[..|ps| - 1];
    }
  }

  /** `toPolygon(curves, quality)` for a vector of chained curves. */
  method CurvesToPolygon(curves: seq<BezierCurve>, quality: nat, ghost depth: nat, sqrt: real -> real) returns (p: Polygons.Polygon)
    requires quality > 0 && |curves| >= 1 && Chained(curves) && IsSqrt(sqrt)
    requires AllFlatWithin(curves, 1.0 / quality as real, depth, sqrt)
    ensures var t := Trace(curves, 1.0 / quality as real, depth, sqrt);
            |t| >= 2 && p == TracePolygon(t)
  {
    var epsilon := 1.0 / quality as real;
    var points: seq<Vec2> := [];
    var i := 0;
    while i < |curves|
      invariant 0 <= i <= |curves|
      invariant i < |curves| ==> points == Leading(curves[..i], epsilon, depth, sqrt)
      invariant i == |curves| ==> points == Trace(curves, epsilon, depth, sqrt)
    {
      points := ChainStep(curves, curves[i], i, i == |curves| - 1, epsilon, points, depth, sqrt);
      i := i + 1;
    }
    TraceEnds(curves, epsilon, depth, sqrt);
    if points[0] == points[|points| - 1] && |points| > 2 {
      points := points[..|points| - 1];
      p := Polygons.Polygon(points, true);
    } else {
      p := Polygons.Polygon(points, false);
    }
  }

  /** `toPolygon(curves, count, quality)` for the first `count` curves of
      an array. */
  method ArrayToPolygon(curves: array<BezierCurve>, count: nat, quality: nat, ghost depth: nat, sqrt: real -> real) returns (p: Polygons.Polygon)
    requires quality > 0 && 1 <= count <= curves.Length && Chained(curves[..count]) && IsSqrt(sqrt)
    requires AllFlatWithin(curves[..count], 1.0 / quality as real, depth, sqrt)
    ensures var t := Trace(curves[..count], 1.0 / quality as real, depth, sqrt);
            |t| >= 2 && p == TracePolygon(t)
  {
    var epsilon := 1.0 / quality as real;
    ghost var cs := curves[..count];
    var points: seq<Vec2> := [];
    for i := 0 to count
      invariant i < count ==> points == Leading(cs[..i], epsilon, depth, sqrt)
      invariant i == count ==> points == Trace(cs, epsilon, depth, sqrt)
    {
      points := ChainStep(cs, curves[i], i, i == count - 1, epsilon, points, depth, sqrt);
    }
    TraceEnds(cs, epsilon, depth, sqrt);
    if points[0] == points[|points| - 1] && |points| > 2 {
      points := points[..|points| - 1];
      p := Polygons.Polygon(points, true);
    } else {
      p := Polygons.Polygon(points, false);
    }
  }

  /** A chained trace is closed exactly when the chain ends where it starts
      (and has more than two points). */
  lemma ChainClosedIff(curves: seq<BezierCurve>, epsilon: real, depth: nat, sqrt: real -> real)
    requires epsilon > 0.0 && IsSqrt(sqrt) && AllFlatWithin(curves, epsilon, depth, sqrt) && |curves| >= 1
    ensures var t := Trace(curves, epsilon, depth, sqrt);
            |t| >= 2 &&
            (TracePolygon(t).closed <==> curves[0].point0 == curves[|curves| - 1].point3 && |t| > 2)
  {
    TraceEnds(curves, epsilon, depth, sqrt);
  }

  // ---------------------------------------------------------------------
  // Comparison

  /** `<`: lexicographic over the four control points. */
  predicate Less(b1: BezierCurve, b2: BezierCurve)
  {
    if b1.point0 == b2.point0 then
      if b1.point1 == b2.point1 then
        if b1.point2 == b2.point2 then Vectors.Less(b1.point3, b2.point3) else Vectors.Less(b1.point2, b2.point2)
      else Vectors.Less(b1.point1, b2.point1)
    else Vectors.Less(b1.point0, b2.point0)
  }

  /** `<` is a strict total order: irreflexive, transitive, and exactly one
      of less, equal and greater holds. */
  lemma LessIsStrictOrder(b1: BezierCurve, b2: BezierCurve, b3: BezierCurve)
    ensures !Less(b1, b1)
    ensures Less(b1, b2) && Less(b2, b3) ==> Less(b1, b3)
    ensures Less(b1, b2) || b1 == b2 || Less(b2, b1)
    ensures !(Less(b1, b2) && Less(b2, b1))
  {
  }
}
