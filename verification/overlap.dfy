/** The overlap queries of `Intersection::get` between rectangles, convex
    polygons and circles, by separating axes. Every face of either shape is
    a candidate axis: a face with no point of the other shape behind it
    separates the shapes, and otherwise the face whose deepest point lies
    least deep gives the contact normal and the penetration. */
module Overlaps {
  import opened Vectors
  import opened Lines
  import opened Options
  import Rects
  import Polygons
  import Circles
  import opened Intersections
  import RayCasts

  /** `std::numeric_limits<float>::lowest()`, where the search for the
      deepest point behind a face starts. */
  const FloatLowest: real := -Rects.FloatMax

  // ---------------------------------------------------------------------
  // Faces and the deepest point behind one

  /** A candidate separating face: a point on it, its outward normal, its
      containing line, the normal the query reports when this face gives the
      contact, and the points of the other shape tested against it. */
  datatype Face = Face(pointA: Vec2, normal: Vec2, line: Line, report: Vec2, points: seq<Vec2>)

  /** The `dt <= 0` test: the point is not on the outer side of the face. */
  predicate Behind(f: Face, p: Vec2) { Dot(f.normal, Sub(p, f.pointA)) <= 0.0 }

  /** How deep a point lies: its squared distance from the face's line. */
  function Depth(f: Face, p: Vec2): real { LineSquaredDistance(f.line, p) }

  /** A face separates when none of the other shape's points is behind it. */
  predicate IsSeparating(f: Face)
  {
    forall j :: 0 <= j < |f.points| ==> !Behind(f, f.points[j])
  }

  lemma SquaredLengthNonNegative(v: Vec2)
    ensures SquaredLength(v) >= 0.0
  {
    assert SquaredLength(v) == Times(v.x, v.x) + Times(v.y, v.y);
    if v.x != 0.0 { PositiveSquare(v.x); } else { assert Times(v.x, v.x) == Times(0.0, 0.0); }
    if v.y != 0.0 { PositiveSquare(v.y); } else { assert Times(v.y, v.y) == Times(0.0, 0.0); }
  }

  /** The inner loop after the first n points: whether one of them lies
      behind the face, and the greatest depth among those that do, starting
      from `lowest()`. */
  function FaceScan(f: Face, n: nat): (bool, real)
    requires n <= |f.points|
  {
    if n == 0 then (false, FloatLowest)
    else
      var prev := FaceScan(f, n - 1);
      var p := f.points[n - 1];
      if !Behind(f, p) then prev
      else if Depth(f, p) > prev.1 then (true, Depth(f, p))
      else (true, prev.1)
  }

  /** The scan finds a point behind the face exactly when there is one, and
      then yields the depth of the deepest such point. */
  lemma {:induction false} FaceScanIsDeepest(f: Face, n: nat)
    requires n <= |f.points|
    ensures FaceScan(f, n).0 <==> exists j :: 0 <= j < n && Behind(f, f.points[j])
    ensures !FaceScan(f, n).0 ==> FaceScan(f, n).1 == FloatLowest
    ensures FaceScan(f, n).0 ==> exists j :: 0 <= j < n && Behind(f, f.points[j]) && Depth(f, f.points[j]) == FaceScan(f, n).1
    ensures forall j :: 0 <= j < n && Behind(f, f.points[j]) ==> Depth(f, f.points[j]) <= FaceScan(f, n).1
  {
    if n > 0 {
      FaceScanIsDeepest(f, n - 1);
      SquaredLengthNonNegative(PerpendicularVector(f.line, f.points[n - 1]));
    }
  }

  /** The inner loop of every overlap query: over the other shape's points,
      whether one lies behind the face, the greatest depth among those and
      the normal to report with it. */
  method DeepestBehind(f: Face) returns (found: bool, tEdge: real, eNormal: Vec2)
    ensures (found, tEdge) == FaceScan(f, |f.points|)
    ensures eNormal == if found then f.report else Zero
  {
    found, tEdge, eNormal := false, FloatLowest, Zero;
    var j := 0;
    while j < |f.points|
      invariant 0 <= j <= |f.points|
      invariant (found, tEdge) == FaceScan(f, j)
      invariant !found ==> tEdge == FloatLowest && eNormal == Zero
      invariant found ==> eNormal == f.report
    {
      var v := Sub(f.points[j], f.pointA);
      var dt := Dot(f.normal, v);
      if dt <= 0.0 {
        found := true;
        var currentT := LineSquaredDistance(f.line, f.points[j]);
        SquaredLengthNonNegative(PerpendicularVector(f.line, f.points[j]));
        if currentT > tEdge {
          tEdge := currentT;
          eNormal := f.report;
        }
      }
      j := j + 1;
    }
  }

  // ---------------------------------------------------------------------
  // Axes and the least penetration

  /** What one axis contributes: it separates the shapes, or it offers a
      squared penetration depth with the normal to report. */
  datatype Axis = Separating | Candidate(depth: real, normal: Vec2)

  /** The least penetration found so far, or `None` once an axis separated
      the shapes (the code returns at once). */
  type Best = Option<(real, Vec2)>

  /** The axis a face gives. */
  function FaceAxis(f: Face): Axis
  {
    var scan := FaceScan(f, |f.points|);
    if scan.0 then Candidate(scan.1, f.report) else Separating
  }

  /** A face gives a separating axis exactly when no point is behind it;
      otherwise it offers the depth of its deepest point behind it, which is
      never negative, and reports its own normal. */
  lemma FaceAxisIsDeepest(f: Face)
    ensures FaceAxis(f).Separating? <==> IsSeparating(f)
    ensures FaceAxis(f).Candidate? ==> FaceAxis(f).normal == f.report && FaceAxis(f).depth >= 0.0
    ensures FaceAxis(f).Candidate? ==> exists j :: 0 <= j < |f.points| && Behind(f, f.points[j]) && Depth(f, f.points[j]) == FaceAxis(f).depth
    ensures forall j :: 0 <= j < |f.points| && Behind(f, f.points[j]) ==> Depth(f, f.points[j]) <= FaceAxis(f).depth
  {
    FaceScanIsDeepest(f, |f.points|);
    if FaceAxis(f).Candidate? {
      var j :| 0 <= j < |f.points| && Behind(f, f.points[j]) && Depth(f, f.points[j]) == FaceAxis(f).depth;
      SquaredLengthNonNegative(PerpendicularVector(f.line, f.points[j]));
    }
  }

  /** The axes of a list of faces, in order. */
  function Axes(faces: seq<Face>): (r: seq<Axis>)
    ensures |r| == |faces| && forall i :: 0 <= i < |faces| ==> r[i] == FaceAxis(faces[i])
  {
    seq(|faces|, i requires 0 <= i < |faces| => FaceAxis(faces[i]))
  }

  /** One step of the outer loop: a separating axis ends the search; a
      strictly shallower candidate replaces the best one so far. */
  function Keep(acc: Best, a: Axis): Best
  {
    match acc
    case None => None
    case Some(best) =>
      match a
      case Separating => None
      case Candidate(d, n) => if d < best.0 then Some((d, n)) else acc
  }

  /** The outer loop over a list of axes, from a given best so far. */
  function Fold(acc: Best, axes: seq<Axis>): Best
  {
    if |axes| == 0 then acc else Keep(Fold(acc, axes[..|axes| - 1]), axes[|axes| - 1])
  }

  /** Once the search has ended it stays ended. */
  lemma {:induction false} FoldOfNone(axes: seq<Axis>)
    ensures Fold(None, axes) == None
  {
    if |axes| > 0 {
      FoldOfNone(axes[..|axes| - 1]);
    }
  }

  /** Folding two lists in a row is folding their concatenation: the second
      loop of a query continues from where the first stopped. */
  lemma {:induction false} FoldAppend(acc: Best, xs: seq<Axis>, ys: seq<Axis>)
    ensures Fold(acc, xs + ys) == Fold(Fold(acc, xs), ys)
  {
    if |ys| == 0 {
      assert xs + ys == xs;
    } else {
      var last := ys[|ys| - 1];
      assert (xs + ys)[..|xs + ys| - 1] == xs + ys[..|ys| - 1];
      FoldAppend(acc, xs, ys[..|ys| - 1]);
    }
  }

  /** The search ends without a contact exactly when some axis separates. */
  lemma {:induction false} FoldSeparates(t0: real, n0: Vec2, axes: seq<Axis>)
    ensures Fold(Some((t0, n0)), axes).None? <==> exists i :: 0 <= i < |axes| && axes[i].Separating?
  {
    if |axes| > 0 {
      var init := axes[..|axes| - 1];
      FoldSeparates(t0, n0, init);
      if Fold(Some((t0, n0)), init).None? {
        var i :| 0 <= i < |init| && init[i].Separating?;
        assert axes[i].Separating?;
      } else if exists i :: 0 <= i < |axes| && axes[i].Separating? {
        var i :| 0 <= i < |axes| && axes[i].Separating?;
        assert i == |axes| - 1 || init[i].Separating?;
      }
    }
  }

  /** Without a separating axis the search keeps the least depth: no
      candidate is shallower, and the result is either the starting value,
      when every candidate is at least as deep, or the first candidate of
      least depth with its normal. */
  lemma {:induction false} FoldIsLeast(t0: real, n0: Vec2, axes: seq<Axis>)
    requires Fold(Some((t0, n0)), axes).Some?
    ensures var (t, n) := Fold(Some((t0, n0)), axes).value;
      t <= t0 &&
      (forall i :: 0 <= i < |axes| ==> axes[i].Candidate? && t <= axes[i].depth) &&
      ((t == t0 && n == n0) ||
       (t < t0 && exists i :: (0 <= i < |axes| && axes[i].depth == t && axes[i].normal == n &&
          forall j :: 0 <= j < i ==> axes[j].depth > t)))
  {
    if |axes| > 0 {
      var init := axes[..|axes| - 1];
      var a := axes[|axes| - 1];
      FoldIsLeast(t0, n0, init);
      var (t', n') := Fold(Some((t0, n0)), init).value;
      assert forall i :: 0 <= i < |init| ==> axes[i] == init[i];
      if a.depth < t' {
        assert forall j :: 0 <= j < |axes| - 1 ==> axes[j].depth > a.depth;
      } else if t' < t0 {
        var i :| 0 <= i < |init| && init[i].depth == t' && init[i].normal == n' &&
          forall j :: 0 <= j < i ==> init[j].depth > t';
        assert axes[i].depth == t' && forall j :: 0 <= j < i ==> axes[j].depth > t';
      }
    }
  }

  /** The query's result: `IntersectionInfo()` when an axis separates,
      otherwise the best normal and the square root of the least depth,
      starting from `FLT_MAX` and a zero normal. */
  function ContactOf(axes: seq<Axis>, sqrt: real -> real): IntersectionInfo
  {
    match Fold(Some((Rects.FloatMax, Zero)), axes)
    case None => NoIntersection
    case Some(best) => Contact(best.1, sqrt(best.0))
  }

  /** The outer loop over a list of faces, from the best so far `(t0, n0)`:
      returns `None` at the first separating face. */
  method LeastPenetration(faces: seq<Face>, t0: real, n0: Vec2) returns (best: Best)
    ensures best == Fold(Some((t0, n0)), Axes(faces))
  {
    var axes := Axes(faces);
    var t, normal := t0, n0;
    var i := 0;
    while i < |faces|
      invariant 0 <= i <= |faces|
      invariant Fold(Some((t0, n0)), axes[..i]) == Some((t, normal))
    {
      var found, tEdge, eNormal := DeepestBehind(faces[i]);
      assert axes[..i + 1][..i] == axes[..i];
      if !found {
        assert Fold(Some((t0, n0)), axes[..i + 1]) == None;
        assert axes == axes[..i + 1] + axes[i + 1..];
        FoldAppend(Some((t0, n0)), axes[..i + 1], axes[i + 1..]);
        FoldOfNone(axes[i + 1..]);
        return None;
      }
      if tEdge < t {
        t := tEdge;
        normal := eNormal;
      }
      i := i + 1;
    }
    assert axes[..|faces|] == axes;
    best := Some((t, normal));
  }

  /** The two loops of a query, over the first shape's faces and then over
      the second's, followed by the result. */
  method TwoSidedContact(fa: seq<Face>, fb: seq<Face>, sqrt: real -> real) returns (info: IntersectionInfo)
    ensures info == ContactOf(Axes(fa + fb), sqrt)
  {
    assert Axes(fa + fb) == Axes(fa) + Axes(fb);
    FoldAppend(Some((Rects.FloatMax, Zero)), Axes(fa), Axes(fb));
    var best := LeastPenetration(fa, Rects.FloatMax, Zero);
    if best.None? {
      FoldOfNone(Axes(fb));
      return NoIntersection;
    }
    best := LeastPenetration(fb, best.value.0, best.value.1);
    if best.None? {
      return NoIntersection;
    }
    info := Contact(best.value.1, sqrt(best.value.0));
  }

  /** The square root of a non-negative value squares back to it. */
  lemma RootSquared(sqrt: real -> real, t: real)
    requires IsSqrt(sqrt) && t >= 0.0
    ensures sqrt(t) >= 0.0 && sqrt(t) * sqrt(t) == t
  {
  }

  /** A separating-axis query reports no contact exactly when some face
      separates the shapes. */
  lemma NoContactIffSeparated(faces: seq<Face>, sqrt: real -> real)
    ensures ContactOf(Axes(faces), sqrt).empty <==> exists i :: 0 <= i < |faces| && IsSeparating(faces[i])
  {
    var axes := Axes(faces);
    FoldSeparates(Rects.FloatMax, Zero, axes);
    forall i | 0 <= i < |faces|
      ensures axes[i].Separating? <==> IsSeparating(faces[i])
    {
      FaceAxisIsDeepest(faces[i]);
    }
  }

  /** Every axis of a list of faces offers a depth that is never
      negative. */
  lemma AxesNonNegative(faces: seq<Face>)
    ensures forall i :: 0 <= i < |faces| && Axes(faces)[i].Candidate? ==> Axes(faces)[i].depth >= 0.0
  {
    forall i | 0 <= i < |faces|
      ensures Axes(faces)[i].Candidate? ==> Axes(faces)[i].depth >= 0.0
    {
      FaceAxisIsDeepest(faces[i]);
    }
  }

  /** When no candidate is negative, neither is the least depth: it is
      `FLT_MAX` or the depth of one of the axes. */
  lemma FoldNonNegative(axes: seq<Axis>)
    requires forall i :: 0 <= i < |axes| && axes[i].Candidate? ==> axes[i].depth >= 0.0
    requires Fold(Some((Rects.FloatMax, Zero)), axes).Some?
    ensures var (t, n) := Fold(Some((Rects.FloatMax, Zero)), axes).value;
      0.0 <= t <= Rects.FloatMax &&
      ((t == Rects.FloatMax && n == Zero) || exists i :: 0 <= i < |axes| && axes[i] == Candidate(t, n))
  {
    FoldIsLeast(Rects.FloatMax, Zero, axes);
  }

  /** Some point lies behind the face at least t deep. */
  predicate Reaches(f: Face, t: real)
  {
    exists j :: 0 <= j < |f.points| && Behind(f, f.points[j]) && Depth(f, f.points[j]) >= t
  }

  /** No point behind the face lies deeper than t. */
  predicate NoneDeeper(f: Face, t: real)
  {
    forall j :: 0 <= j < |f.points| && Behind(f, f.points[j]) ==> Depth(f, f.points[j]) <= t
  }

  /** Every face that offers a depth of at least t has a point behind it
      at least that deep. */
  lemma EveryFaceReaches(faces: seq<Face>, t: real)
    requires forall i :: 0 <= i < |faces| ==> Axes(faces)[i].Candidate? && t <= Axes(faces)[i].depth
    ensures forall i :: 0 <= i < |faces| ==> Reaches(faces[i], t)
  {
    forall i | 0 <= i < |faces|
      ensures Reaches(faces[i], t)
    {
      var f := faces[i];
      FaceAxisIsDeepest(f);
      assert Axes(faces)[i] == FaceAxis(f);
      var j :| 0 <= j < |f.points| && Behind(f, f.points[j]) && Depth(f, f.points[j]) == FaceAxis(f).depth;
    }
  }

  /** What a separating-axis contact promises: the penetration is the
      square root of a depth t that every face reaches with some point
      behind it, reported either as `FLT_MAX` with a zero normal or with the
      normal of a face none of whose points behind it lies deeper than t. */
  lemma ContactIsLeastPenetration(faces: seq<Face>, t: real, n: Vec2, sqrt: real -> real)
    requires Fold(Some((Rects.FloatMax, Zero)), Axes(faces)) == Some((t, n))
    ensures ContactOf(Axes(faces), sqrt) == Contact(n, sqrt(t))
    ensures 0.0 <= t <= Rects.FloatMax
    ensures forall i :: 0 <= i < |faces| ==> Reaches(faces[i], t)
    ensures (t == Rects.FloatMax && n == Zero) ||
      exists i :: 0 <= i < |faces| && n == faces[i].report && NoneDeeper(faces[i], t)
  {
    var axes := Axes(faces);
    AxesNonNegative(faces);
    FoldNonNegative(axes);
    FoldIsLeast(Rects.FloatMax, Zero, axes);
    EveryFaceReaches(faces, t);
    if t < Rects.FloatMax {
      var i :| 0 <= i < |axes| && axes[i] == Candidate(t, n);
      FaceAxisIsDeepest(faces[i]);
    }
  }

  // ---------------------------------------------------------------------
  // The faces of rectangles and polygons

  /** Face i of a rect: its edge, its normal and the normal reported,
      negated for the first shape of a query. */
  function RectFace(a: Rects.Rect, i: nat, inward: bool, others: seq<Vec2>, sqrt: real -> real): (f: Face)
    requires IsSqrt(sqrt) && i < 4
    ensures f.pointA == Rects.Corner(a, i) && f.normal == Rects.NormalAt(i)
  {
    var e := Rects.EdgeAt(a, i);
    var n := Rects.NormalAt(i);
    Face(e.pointA, n, ContainingLine(e, sqrt), if inward then Neg(n) else n, others)
  }

  /** The four faces of a rect against a list of points. */
  function RectFaces(a: Rects.Rect, inward: bool, others: seq<Vec2>, sqrt: real -> real): (fs: seq<Face>)
    requires IsSqrt(sqrt)
    ensures |fs| == 4
  {
    seq(4, i requires 0 <= i < 4 => RectFace(a, i, inward, others, sqrt))
  }

  /** Face i of a polygon whose ordering is known. */
  function PolygonFace(p: Polygons.Polygon, i: nat, inward: bool, others: seq<Vec2>, sqrt: real -> real): (f: Face)
    requires IsSqrt(sqrt) && i < Polygons.EdgeCount(p) && Polygons.OrderingOf(p) != Polygons.Unknown
    ensures f.pointA == p.points[i]
  {
    var e := Polygons.EdgeAt(p, i);
    var n := Polygons.NormalAt(p, i, sqrt);
    Face(e.pointA, n, ContainingLine(e, sqrt), if inward then Neg(n) else n, others)
  }

  /** One face per edge of a polygon against a list of points. */
  function PolygonFaces(p: Polygons.Polygon, inward: bool, others: seq<Vec2>, sqrt: real -> real): (fs: seq<Face>)
    requires IsSqrt(sqrt) && Polygons.OrderingOf(p) != Polygons.Unknown
    ensures |fs| == Polygons.EdgeCount(p)
  {
    seq(Polygons.EdgeCount(p), i requires 0 <= i < Polygons.EdgeCount(p) => PolygonFace(p, i, inward, others, sqrt))
  }

  /** The corners of a rect in the order of `point(j)`. */
  function Corners(r: Rects.Rect): (ps: seq<Vec2>)
    ensures |ps| == 4 && forall j :: 0 <= j < 4 ==> ps[j] == Rects.Corner(r, j)
  {
    Polygons.RectPolygon(r).points
  }

  /** `get(Rect, Rect)`: the faces of `a` against the corners of `b`, each
      reporting its normal negated, then the faces of `b` against the
      corners of `a`. */
  method RectRect(a: Rects.Rect, b: Rects.Rect, sqrt: real -> real) returns (info: IntersectionInfo)
    requires IsSqrt(sqrt)
    ensures info == ContactOf(Axes(RectFaces(a, true, Corners(b), sqrt) + RectFaces(b, false, Corners(a), sqrt)), sqrt)
  {
    info := TwoSidedContact(RectFaces(a, true, Corners(b), sqrt), RectFaces(b, false, Corners(a), sqrt), sqrt);
  }

  /** `get(Polygon, Polygon)`, whose caller must pass polygons with a
      non-zero area (the code asserts it, and the normals need the
      ordering it implies). */
  method PolygonPolygon(a: Polygons.Polygon, b: Polygons.Polygon, sqrt: real -> real) returns (info: IntersectionInfo)
    requires IsSqrt(sqrt)
    requires Polygons.AreaOf(a) != 0.0 && Polygons.AreaOf(b) != 0.0
    ensures info == ContactOf(Axes(PolygonFaces(a, true, b.points, sqrt) + PolygonFaces(b, false, a.points, sqrt)), sqrt)
  {
    info := TwoSidedContact(PolygonFaces(a, true, b.points, sqrt), PolygonFaces(b, false, a.points, sqrt), sqrt);
  }

  /** `get(Polygon, Rect)`: the polygon's faces against the rect's corners,
      then the rect's faces against the polygon's points. */
  method PolygonRect(a: Polygons.Polygon, b: Rects.Rect, sqrt: real -> real) returns (info: IntersectionInfo)
    requires IsSqrt(sqrt)
    requires Polygons.AreaOf(a) != 0.0
    ensures info == ContactOf(Axes(PolygonFaces(a, true, Corners(b), sqrt) + RectFaces(b, false, a.points, sqrt)), sqrt)
  {
    info := TwoSidedContact(PolygonFaces(a, true, Corners(b), sqrt), RectFaces(b, false, a.points, sqrt), sqrt);
  }

  // ---------------------------------------------------------------------
  // Shapes against a circle

  /** One step of the loop of `get(Rect, Circle)` and `get(Polygon,
      Circle)`: the axis it offers and the value the code compares with the
      best depth so far. */
  datatype Step = Step(axis: Axis, key: real)

  /** The face step for a face of the shape: the circle is separated when
      its center is outside the face's line by more than the radius;
      otherwise the penetration is the radius less the center's distance
      from the line, or plus it when the center is inside, and the code
      compares that distance itself while it keeps its square. */
  function CircleFaceStep(f: Face, c: Circles.Circle, sqrt: real -> real): Step
  {
    var dt1 := Dot(f.normal, Sub(c.center, f.pointA));
    var dt2 := sqrt(LineSquaredDistance(f.line, c.center));
    if dt1 <= 0.0 || dt2 <= c.radius then
      if dt1 >= 0.0 then Step(Candidate((c.radius - dt2) * (c.radius - dt2), f.report), c.radius - dt2)
      else Step(Candidate((c.radius + dt2) * (c.radius + dt2), f.report), c.radius + dt2)
    else Step(Separating, 0.0)
  }

  /** A face step offers the square of the value it compares, with the
      face's reported normal, so never a negative depth. */
  lemma FaceStepIsSquare(f: Face, c: Circles.Circle, sqrt: real -> real)
    ensures var s := CircleFaceStep(f, c, sqrt);
      s.axis.Candidate? ==> s.axis.depth == s.key * s.key && s.axis.depth >= 0.0 && s.axis.normal == f.report
  {
    var dt2 := sqrt(LineSquaredDistance(f.line, c.center));
    SquareNonNegative(c.radius - dt2);
    SquareNonNegative(c.radius + dt2);
  }

  /** The vertex face for the vertex at the start of a face: the circle's
      point nearest that vertex, with the direction from the center to the
      vertex as normal, against the shape's own points. */
  function VertexFace(f: Face, c: Circles.Circle, sqrt: real -> real): (v: Face)
    requires IsSqrt(sqrt)
    ensures v.points == f.points && v.report == v.normal
  {
    var n := Normalized(Sub(f.pointA, c.center), sqrt);
    var pt := Add(c.center, Scale(c.radius, n));
    Face(pt, n, LineThrough(pt, Add(pt, Rotated90(n)), sqrt), n, f.points)
  }

  /** A step whose compared value is its own depth. */
  function Plain(a: Axis): (s: Step)
    ensures s.axis == a && (a.Candidate? ==> s.key == a.depth)
  {
    Step(a, if a.Candidate? then a.depth else 0.0)
  }

  /** Step k of a shape against a circle: the face step of face k / 2 for
      even k, its vertex step for odd k. */
  function CircleStepAt(faces: seq<Face>, c: Circles.Circle, k: nat, sqrt: real -> real): Step
    requires IsSqrt(sqrt) && k < 2 * |faces|
  {
    if k % 2 == 0 then CircleFaceStep(faces[k / 2], c, sqrt)
    else Plain(FaceAxis(VertexFace(faces[k / 2], c, sqrt)))
  }

  /** The steps of a shape against a circle: per face, the face step and
      then the vertex step. */
  function CircleSteps(faces: seq<Face>, c: Circles.Circle, sqrt: real -> real): (r: seq<Step>)
    requires IsSqrt(sqrt)
    ensures |r| == 2 * |faces|
    ensures forall k :: 0 <= k < 2 * |faces| ==> r[k] == CircleStepAt(faces, c, k, sqrt)
  {
    seq(2 * |faces|, k requires 0 <= k < 2 * |faces| => CircleStepAt(faces, c, k, sqrt))
  }

  /** Face i gives steps 2 i and 2 i + 1. */
  lemma StepsOfFace(faces: seq<Face>, c: Circles.Circle, i: nat, sqrt: real -> real)
    requires IsSqrt(sqrt) && i < |faces|
    ensures CircleStepAt(faces, c, 2 * i, sqrt) == CircleFaceStep(faces[i], c, sqrt)
    ensures CircleStepAt(faces, c, 2 * i + 1, sqrt) == Plain(FaceAxis(VertexFace(faces[i], c, sqrt)))
  {
    assert (2 * i) % 2 == 0 && (2 * i) / 2 == i;
    assert (2 * i + 1) % 2 == 1 && (2 * i + 1) / 2 == i;
  }

  /** The axes of a list of steps. */
  function StepAxes(steps: seq<Step>): (r: seq<Axis>)
    ensures |r| == |steps| && forall k :: 0 <= k < |steps| ==> r[k] == steps[k].axis
  {
    seq(|steps|, k requires 0 <= k < |steps| => steps[k].axis)
  }

  /** One more axis: the fold over the first k + 1 axes keeps or replaces
      the best of the first k. */
  lemma FoldSnoc(acc: Best, axes: seq<Axis>, k: nat)
    requires k < |axes|
    ensures Fold(acc, axes[..k + 1]) == Keep(Fold(acc, axes[..k]), axes[k])
  {
    assert axes[..k + 1][..k] == axes[..k];
  }

  /** A search that has ended after the first k axes gives no contact. */
  lemma ContactEndsAt(axes: seq<Axis>, k: nat)
    requires k <= |axes| && Fold(Some((Rects.FloatMax, Zero)), axes[..k]).None?
    ensures Fold(Some((Rects.FloatMax, Zero)), axes).None?
  {
    assert axes == axes[..k] + axes[k..];
    FoldAppend(Some((Rects.FloatMax, Zero)), axes[..k], axes[k..]);
    FoldOfNone(axes[k..]);
  }

  /** The face test of the circle loop, as intended: the circle is
      separated when its center is outside the face's line by more than the
      radius; otherwise the square of the penetration replaces the best
      depth when it is smaller. */
  method FacePenetration(f: Face, c: Circles.Circle, t: real, normal: Vec2, sqrt: real -> real) returns (best: Best)
    ensures best == Keep(Some((t, normal)), CircleFaceStep(f, c, sqrt).axis)
  {
    var v := Sub(c.center, f.pointA);
    var dt1 := Dot(f.normal, v);
    var dt2 := sqrt(LineSquaredDistance(f.line, c.center));
    if dt1 <= 0.0 || dt2 <= c.radius {
      if dt1 >= 0.0 {
        var currentT := c.radius - dt2;
        assert CircleFaceStep(f, c, sqrt).axis == Candidate(currentT * currentT, f.report);
        if currentT * currentT < t {
          return Some((currentT * currentT, f.report));
        }
      } else {
        var currentT := c.radius + dt2;
        assert CircleFaceStep(f, c, sqrt).axis == Candidate(currentT * currentT, f.report);
        if currentT * currentT < t {
          return Some((currentT * currentT, f.report));
        }
      }
      return Some((t, normal));
    }
    return None;
  }

  /** The loop of `get(Rect, Circle)` and `get(Polygon, Circle)` as
      intended: per face, the face test and then the vertex face. */
  method CircleContact(faces: seq<Face>, c: Circles.Circle, sqrt: real -> real) returns (info: IntersectionInfo)
    requires IsSqrt(sqrt)
    ensures info == ContactOf(StepAxes(CircleSteps(faces, c, sqrt)), sqrt)
  {
    var axes := StepAxes(CircleSteps(faces, c, sqrt));
    var start := Some((Rects.FloatMax, Zero));
    var t, normal := Rects.FloatMax, Zero;
    var i := 0;
    while i < |faces|
      invariant 0 <= i <= |faces|
      invariant Fold(start, axes[..2 * i]) == Some((t, normal))
    {
      var f := faces[i];
      StepsOfFace(faces, c, i, sqrt);
      FoldSnoc(start, axes, 2 * i);
      FoldSnoc(start, axes, 2 * i + 1);
      var best := FacePenetration(f, c, t, normal, sqrt);
      if best.None? {
        ContactEndsAt(axes, 2 * i + 1);
        return NoIntersection;
      }
      t, normal := best.value.0, best.value.1;
      var found, tEdge, eNormal := DeepestBehind(VertexFace(f, c, sqrt));
      if !found {
        ContactEndsAt(axes, 2 * i + 2);
        return NoIntersection;
      }
      if tEdge < t {
        t := tEdge;
        normal := eNormal;
      }
      i := i + 1;
    }
    assert axes[..2 * |faces|] == axes;
    info := Contact(normal, sqrt(t));
  }

  /** `get(Rect, Circle)`: the rect's faces, each reporting its normal
      negated, against the circle and against the rect's own corners. */
  method RectCircle(a: Rects.Rect, c: Circles.Circle, sqrt: real -> real) returns (info: IntersectionInfo)
    requires IsSqrt(sqrt)
    ensures info == ContactOf(StepAxes(CircleSteps(RectFaces(a, true, Corners(a), sqrt), c, sqrt)), sqrt)
  {
    info := CircleContact(RectFaces(a, true, Corners(a), sqrt), c, sqrt);
  }

  /** `get(Polygon, Circle)`, for a polygon with a non-zero area. */
  method PolygonCircle(a: Polygons.Polygon, c: Circles.Circle, sqrt: real -> real) returns (info: IntersectionInfo)
    requires IsSqrt(sqrt)
    requires Polygons.AreaOf(a) != 0.0
    ensures info == ContactOf(StepAxes(CircleSteps(PolygonFaces(a, true, a.points, sqrt), c, sqrt)), sqrt)
  {
    info := CircleContact(PolygonFaces(a, true, a.points, sqrt), c, sqrt);
  }

  lemma SquareNonNegative(x: real)
    ensures x * x >= 0.0
  {
    if x != 0.0 { PositiveSquare(x); }
  }

  /** Every step against a circle offers a depth that is never negative. */
  lemma StepsNonNegative(faces: seq<Face>, c: Circles.Circle, sqrt: real -> real)
    requires IsSqrt(sqrt)
    ensures var axes := StepAxes(CircleSteps(faces, c, sqrt));
      forall k :: 0 <= k < |axes| && axes[k].Candidate? ==> axes[k].depth >= 0.0
  {
    var steps := CircleSteps(faces, c, sqrt);
    forall k | 0 <= k < |steps| && steps[k].axis.Candidate?
      ensures steps[k].axis.depth >= 0.0
    {
      if k % 2 == 0 {
        FaceStepIsSquare(faces[k / 2], c, sqrt);
      } else {
        FaceAxisIsDeepest(VertexFace(faces[k / 2], c, sqrt));
      }
    }
  }

  /** A circle query reports no contact exactly when a face step or a
      vertex step separates. */
  lemma CircleNoContactIffSeparated(faces: seq<Face>, c: Circles.Circle, sqrt: real -> real)
    requires IsSqrt(sqrt)
    ensures var steps := CircleSteps(faces, c, sqrt);
      ContactOf(StepAxes(steps), sqrt).empty <==> exists k :: 0 <= k < |steps| && steps[k].axis.Separating?
  {
    var steps := CircleSteps(faces, c, sqrt);
    FoldSeparates(Rects.FloatMax, Zero, StepAxes(steps));
  }

  /** What a circle contact promises: the penetration is the square root of
      a depth no step undercuts, reported as `FLT_MAX` with a zero normal or
      as the depth and normal of one of the steps. */
  lemma CircleContactIsLeastPenetration(faces: seq<Face>, c: Circles.Circle, t: real, n: Vec2, sqrt: real -> real)
    requires IsSqrt(sqrt)
    requires Fold(Some((Rects.FloatMax, Zero)), StepAxes(CircleSteps(faces, c, sqrt))) == Some((t, n))
    ensures ContactOf(StepAxes(CircleSteps(faces, c, sqrt)), sqrt) == Contact(n, sqrt(t))
    ensures 0.0 <= t <= Rects.FloatMax
    ensures var steps := CircleSteps(faces, c, sqrt);
      (forall k :: 0 <= k < |steps| ==> steps[k].axis.Candidate? && t <= steps[k].axis.depth) &&
      ((t == Rects.FloatMax && n == Zero) || exists k :: 0 <= k < |steps| && steps[k].axis == Candidate(t, n))
  {
    var axes := StepAxes(CircleSteps(faces, c, sqrt));
    StepsNonNegative(faces, c, sqrt);
    FoldNonNegative(axes);
    FoldIsLeast(Rects.FloatMax, Zero, axes);
  }

  // ---------------------------------------------------------------------
  // The circle queries as written

  /** The outer loop of the circle queries as written: a step replaces the
      best so far when its compared value is below the best squared depth,
      so a face step compares a distance with a squared distance. */
  function FoldAsWritten(acc: Best, steps: seq<Step>): Best
  {
    if |steps| == 0 then acc
    else
      var prev := FoldAsWritten(acc, steps[..|steps| - 1]);
      var s := steps[|steps| - 1];
      match prev
      case None => None
      case Some(best) =>
        match s.axis
        case Separating => None
        case Candidate(d, n) => if s.key < best.0 then Some((d, n)) else prev
  }

  /** Where every compared value is the step's own depth (the rect and
      polygon queries, and the vertex steps) the loop as written is the
      intended one. */
  lemma {:induction false} AsWrittenAgreesOnPlainSteps(acc: Best, steps: seq<Step>)
    requires forall k :: 0 <= k < |steps| && steps[k].axis.Candidate? ==> steps[k].key == steps[k].axis.depth
    ensures FoldAsWritten(acc, steps) == Fold(acc, StepAxes(steps))
  {
    if |steps| > 0 {
      var init := steps[..|steps| - 1];
      assert StepAxes(steps)[..|steps| - 1] == StepAxes(init);
      AsWrittenAgreesOnPlainSteps(acc, init);
    }
  }

  /** A face with the circle's center on its inner side at distance d
      offers the radius plus d, squared, and compares the radius plus d. */
  lemma InsideFaceStep(f: Face, c: Circles.Circle, d: real, sqrt: real -> real)
    requires Dot(f.normal, Sub(c.center, f.pointA)) < 0.0
    requires sqrt(LineSquaredDistance(f.line, c.center)) == d
    ensures var s := CircleFaceStep(f, c, sqrt);
      s.key == c.radius + d && s.axis == Candidate(s.key * s.key, f.report)
  {
    var dt1 := Dot(f.normal, Sub(c.center, f.pointA));
    var dt2 := sqrt(LineSquaredDistance(f.line, c.center));
    assert dt1 < 0.0 && dt2 == d;
    assert CircleFaceStep(f, c, sqrt).axis.Candidate?;
    assert CircleFaceStep(f, c, sqrt).key == c.radius + dt2;
    assert CircleFaceStep(f, c, sqrt).axis.normal == f.report;
  }

  /** The center of a rect lies inside its right face, half its width
      from the face's line; the face reports left. */
  lemma RightFaceDistance(a: Rects.Rect, c: Circles.Circle, others: seq<Vec2>, sqrt: real -> real)
    requires IsSqrt(sqrt)
    requires Rects.Width(a) > 0.0 && Rects.Height(a) > 0.0 && c.center == a.center
    ensures var f := RectFace(a, 0, true, others, sqrt);
      Dot(f.normal, Sub(c.center, f.pointA)) < 0.0 &&
      sqrt(LineSquaredDistance(f.line, c.center)) == Rects.Width(a) / 2.0 &&
      f.report == Vec2(-1.0, 0.0)
  {
    var e := Rects.EdgeAt(a, 0);
    VerticalEdgeLine(e, sqrt);
    VerticalLineDistance(ContainingLine(e, sqrt), c.center, e.pointA.x - c.center.x, sqrt);
  }

  /** The center of a rect lies inside its top face, half its height from
      the face's line; the face reports down. */
  lemma TopFaceDistance(a: Rects.Rect, c: Circles.Circle, others: seq<Vec2>, sqrt: real -> real)
    requires IsSqrt(sqrt)
    requires Rects.Width(a) > 0.0 && Rects.Height(a) > 0.0 && c.center == a.center
    ensures var f := RectFace(a, 1, true, others, sqrt);
      Dot(f.normal, Sub(c.center, f.pointA)) < 0.0 &&
      sqrt(LineSquaredDistance(f.line, c.center)) == Rects.Height(a) / 2.0 &&
      f.report == Vec2(0.0, -1.0)
  {
    var e := Rects.EdgeAt(a, 1);
    LeftwardEdgeLine(e, sqrt);
    var l := Line(e.pointA, Vec2(-1.0, 0.0));
    var d := Rects.Height(a) / 2.0;
    assert e.pointA.y - c.center.y == d;
    HorizontalLineDistance(l, c.center, d, sqrt);
    assert RectFace(a, 1, true, others, sqrt) == Face(e.pointA, Vec2(0.0, 1.0), l, Vec2(0.0, -1.0), others);
    DotUp(Sub(c.center, e.pointA));
  }

  lemma DotUp(v: Vec2)
    ensures Dot(Vec2(0.0, 1.0), v) == v.y
  {
  }

  /** An edge running straight up lies on a line with direction up. */
  lemma VerticalEdgeLine(e: Segment, sqrt: real -> real)
    requires IsSqrt(sqrt) && e.pointA.x == e.pointB.x && e.pointA.y < e.pointB.y
    ensures ContainingLine(e, sqrt) == Line(e.pointA, Vec2(0.0, 1.0))
  {
    RayCasts.UpwardDirection(Sub(e.pointB, e.pointA), sqrt);
  }

  /** An edge running straight left lies on a line with direction left. */
  lemma LeftwardEdgeLine(e: Segment, sqrt: real -> real)
    requires IsSqrt(sqrt) && e.pointA.y == e.pointB.y && e.pointB.x < e.pointA.x
    ensures ContainingLine(e, sqrt) == Line(e.pointA, Vec2(-1.0, 0.0))
  {
    RayCasts.HorizontalDirection(Sub(e.pointB, e.pointA), sqrt);
  }

  /** The distance from a vertical line is the difference of x. */
  lemma VerticalLineDistance(l: Line, p: Vec2, d: real, sqrt: real -> real)
    requires IsSqrt(sqrt) && l.direction == Vec2(0.0, 1.0) && d == l.pointA.x - p.x && d >= 0.0
    ensures sqrt(LineSquaredDistance(l, p)) == d
  {
    assert PerpendicularVector(l, p) == Vec2(-d, 0.0);
    assert LineSquaredDistance(l, p) == d * d;
    SqrtOfSquare(sqrt, d);
  }

  /** The distance from a horizontal line is the difference of y. */
  lemma HorizontalLineDistance(l: Line, p: Vec2, d: real, sqrt: real -> real)
    requires IsSqrt(sqrt) && l.direction == Vec2(-1.0, 0.0) && d == l.pointA.y - p.y && d >= 0.0
    ensures sqrt(LineSquaredDistance(l, p)) == d
  {
    assert PerpendicularVector(l, p) == Vec2(0.0, -d);
    assert LineSquaredDistance(l, p) == d * d;
    SqrtOfSquare(sqrt, d);
  }

  /** The comparison as written lets a deeper face replace a shallower one:
      after a face step that keeps depth 16 (distance 4), a vertex step no
      shallower and a face step at distance 5, the loop keeps depth 25 and
      the second face's normal, where the least depth is 16 with the first
      face's normal. For a 6 by 8 rect and a unit circle at its center,
      `RightFaceDistance`, `TopFaceDistance` and `InsideFaceStep` give the
      right and top faces exactly these two face steps. */
  lemma MixedUnitsAsWritten(vertex: Step)
    requires vertex.axis.Candidate? && vertex.key == vertex.axis.depth >= 16.0
    ensures var steps := [Step(Candidate(16.0, Vec2(-1.0, 0.0)), 4.0), vertex, Step(Candidate(25.0, Vec2(0.0, -1.0)), 5.0)];
      FoldAsWritten(Some((Rects.FloatMax, Zero)), steps) == Some((25.0, Vec2(0.0, -1.0))) &&
      Fold(Some((Rects.FloatMax, Zero)), StepAxes(steps)) == Some((16.0, Vec2(-1.0, 0.0)))
  {
    var start := Some((Rects.FloatMax, Zero));
    var steps := [Step(Candidate(16.0, Vec2(-1.0, 0.0)), 4.0), vertex, Step(Candidate(25.0, Vec2(0.0, -1.0)), 5.0)];
    assert steps[..1][..0] == [];
    assert FoldAsWritten(start, steps[..1]) == Some((16.0, Vec2(-1.0, 0.0)));
    assert steps[..2][..1] == steps[..1];
    assert FoldAsWritten(start, steps[..2]) == Some((16.0, Vec2(-1.0, 0.0)));
    assert steps[..2] == steps[..|steps| - 1];
    var axes := StepAxes(steps);
    assert axes[..1][..0] == [];
    assert Fold(start, axes[..1]) == Some((16.0, Vec2(-1.0, 0.0)));
    assert axes[..2][..1] == axes[..1];
    assert Fold(start, axes[..2]) == Some((16.0, Vec2(-1.0, 0.0)));
    assert axes[..2] == axes[..|axes| - 1];
  }
}
