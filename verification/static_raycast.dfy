/** The ray cast through the static tree. A terminal node returns the shape
    its ray meets nearest; a non-terminal node casts the ray against both
    children's bounds and descends into the children the ray reaches,
    nearest first, stopping early when the first hit lies outside the other
    child's bounds. */
module StaticRayCasts {
  import opened Vectors
  import opened Lines
  import opened Options
  import Rects
  import Circles
  import Polygons
  import Intersections
  import RayCasts
  import Shapes
  import QueryResults
  import StaticTrees

  /** `Intersection::get(r, shape)` by the geometry kind: the circle's
      entry point, or the nearest crossing of the rect's or the polygon's
      edges. */
  function ShapeRayHit(a: Ray, g: Shapes.Geometry, sqrt: real -> real): Option<Vec2>
    requires IsSqrt(sqrt) && Shapes.ProperGeometry(g)
  {
    match g
    case CircleGeometry(c) => Intersections.RayCircle(a, c, sqrt)
    case RectGeometry(r) => RayCasts.Nearest(RayCasts.RectHits(a, r, sqrt)).0
    case PolygonGeometry(p) =>
      assert Polygons.OrderingOf(p) != Polygons.Unknown;
      RayCasts.Nearest(RayCasts.PolygonHits(a, p, sqrt)).0
  }

  /** The ray cast of the shape's geometry, with the routine the code calls
      for each kind. */
  method ShapeRayCast(a: Ray, g: Shapes.Geometry, sqrt: real -> real) returns (pt: Option<Vec2>)
    requires IsSqrt(sqrt) && Shapes.ProperGeometry(g)
    ensures pt == ShapeRayHit(a, g, sqrt)
  {
    match g
    case CircleGeometry(c) =>
      pt := Intersections.RayCircle(a, c, sqrt);
    case RectGeometry(r) =>
      pt := RayCasts.RayRect(a, r, sqrt);
    case PolygonGeometry(p) =>
      assert Polygons.OrderingOf(p) != Polygons.Unknown;
      pt := RayCasts.RayPolygon(a, p, sqrt);
  }

  predicate AllProper(es: seq<StaticTrees.Entry>)
  {
    forall e :: e in es ==> StaticTrees.ProperEntry(e)
  }

  /** The entry is a candidate: its type mask passes and the ray meets it. */
  predicate RayCandidate(a: Ray, mask: bv64, e: StaticTrees.Entry, sqrt: real -> real)
    requires IsSqrt(sqrt) && StaticTrees.ProperEntry(e)
  {
    e.typeMask & mask != 0 && ShapeRayHit(a, e.geometry, sqrt).Some?
  }

  /** The result reports this entry: its shape, the point where the ray
      meets it, and that point's parameter along the ray. */
  predicate HitBy(e: StaticTrees.Entry, r: QueryResults.RayCastResult, a: Ray, mask: bv64, sqrt: real -> real)
    requires IsSqrt(sqrt) && StaticTrees.ProperEntry(e)
  {
    e.shape == r.intersected && e.typeMask & mask != 0 &&
    ShapeRayHit(a, e.geometry, sqrt) == Some(r.point) && r.parameter == ComputeT(a, r.point, sqrt)
  }

  predicate HitFrom(es: seq<StaticTrees.Entry>, r: QueryResults.RayCastResult, a: Ray, mask: bv64, sqrt: real -> real)
    requires IsSqrt(sqrt) && AllProper(es)
  {
    exists e :: e in es && HitBy(e, r, a, mask, sqrt)
  }

  /** The terminal node's loop, as a scan over its entries: the running
      parameter starts at FLT_MAX, and a candidate whose parameter is
      strictly smaller becomes the result. */
  function TerminalScan(a: Ray, mask: bv64, es: seq<StaticTrees.Entry>, sqrt: real -> real): (QueryResults.RayCastResult, real)
    requires IsSqrt(sqrt) && AllProper(es)
  {
    if es == [] then (QueryResults.NoHit, Rects.FloatMax)
    else
      var prev := TerminalScan(a, mask, es[..|es| - 1], sqrt);
      ScanStep(a, mask, prev, es[|es| - 1], sqrt)
  }

  /** One entry of the scan. */
  function ScanStep(a: Ray, mask: bv64, prev: (QueryResults.RayCastResult, real), e: StaticTrees.Entry, sqrt: real -> real): (QueryResults.RayCastResult, real)
    requires IsSqrt(sqrt) && StaticTrees.ProperEntry(e)
  {
    if e.typeMask & mask == 0 then prev
    else
      match ShapeRayHit(a, e.geometry, sqrt)
      case None => prev
      case Some(pt) =>
        var p := ComputeT(a, pt, sqrt);
        if p < prev.1 then (QueryResults.HitOf(e.shape, pt, p), p) else prev
  }

  /** What the scan keeps: nothing is found exactly when the running
      parameter is still FLT_MAX; a result carries that parameter. */
  predicate ScanInvariant(a: Ray, mask: bv64, es: seq<StaticTrees.Entry>, r: (QueryResults.RayCastResult, real), sqrt: real -> real)
    requires IsSqrt(sqrt) && AllProper(es)
  {
    r.1 <= Rects.FloatMax &&
    (r.0.empty <==> r.1 == Rects.FloatMax) &&
    (r.0.empty ==> r.0 == QueryResults.NoHit) &&
    (!r.0.empty ==> r.0.parameter == r.1 && HitFrom(es, r.0, a, mask, sqrt)) &&
    forall e :: e in es && RayCandidate(a, mask, e, sqrt) ==> r.1 <= ComputeT(a, ShapeRayHit(a, e.geometry, sqrt).value, sqrt)
  }

  lemma ScanStepKeeps(a: Ray, mask: bv64, init: seq<StaticTrees.Entry>, e: StaticTrees.Entry, prev: (QueryResults.RayCastResult, real), sqrt: real -> real)
    requires IsSqrt(sqrt) && AllProper(init + [e])
    requires ScanInvariant(a, mask, init, prev, sqrt)
    ensures ScanInvariant(a, mask, init + [e], ScanStep(a, mask, prev, e, sqrt), sqrt)
  {
    var es := init + [e];
    var r := ScanStep(a, mask, prev, e, sqrt);
    assert e in es;
    if r == prev {
      if !r.0.empty {
        var x :| x in init && HitBy(x, r.0, a, mask, sqrt);
        assert x in es;
      }
    } else {
      assert HitBy(e, r.0, a, mask, sqrt);
    }
    forall x | x in es && RayCandidate(a, mask, x, sqrt)
      ensures r.1 <= ComputeT(a, ShapeRayHit(a, x.geometry, sqrt).value, sqrt)
    {
      if x != e {
        assert x in init;
      }
    }
  }

  /** The terminal node's result is the first entry the ray meets at the
      smallest parameter: every candidate's parameter is at least the
      result's, and an empty result means no candidate lies nearer than
      FLT_MAX. */
  lemma {:induction false} TerminalScanNearest(a: Ray, mask: bv64, es: seq<StaticTrees.Entry>, sqrt: real -> real)
    requires IsSqrt(sqrt) && AllProper(es)
    ensures ScanInvariant(a, mask, es, TerminalScan(a, mask, es, sqrt), sqrt)
  {
    if es != [] {
      var init := es[..|es| - 1];
      assert es == init + [es[|es| - 1]];
      TerminalScanNearest(a, mask, init, sqrt);
      ScanStepKeeps(a, mask, init, es[|es| - 1], TerminalScan(a, mask, init, sqrt), sqrt);
    }
  }

  /** The terminal node's loop. */
  method TerminalRayCast(a: Ray, mask: bv64, es: seq<StaticTrees.Entry>, sqrt: real -> real) returns (rr: QueryResults.RayCastResult)
    requires IsSqrt(sqrt) && AllProper(es)
    ensures rr == TerminalScan(a, mask, es, sqrt).0
  {
    rr := QueryResults.NoHit;
    var cp := Rects.FloatMax;
    var i := 0;
    while i < |es|
      invariant 0 <= i <= |es|
      invariant (rr, cp) == TerminalScan(a, mask, es[..i], sqrt)
    {
      assert es[..i + 1][..i] == es[..i];
      rr, cp := ScanStepAt(a, mask, rr, cp, es[i], sqrt);
      i := i + 1;
    }
    assert es[..i] == es;
  }

  /** One pass of the terminal loop. */
  method ScanStepAt(a: Ray, mask: bv64, rr: QueryResults.RayCastResult, cp: real, s: StaticTrees.Entry, sqrt: real -> real)
    returns (rr': QueryResults.RayCastResult, cp': real)
    requires IsSqrt(sqrt) && StaticTrees.ProperEntry(s)
    ensures (rr', cp') == ScanStep(a, mask, (rr, cp), s, sqrt)
  {
    rr', cp' := rr, cp;
    if s.typeMask & mask != 0 {
      var tr := ShapeRayCast(a, s.geometry, sqrt);
      if tr.Some? {
        var p := ComputeT(a, tr.value, sqrt);
        if p < cp {
          cp' := p;
          rr' := QueryResults.HitOf(s.shape, tr.value, p);
        }
      }
    }
  }

  /** `RayCastStaticTest`: which children the ray reaches, and which to
      search first. */
  datatype RayTest = NoneHit | OnlyA | OnlyB | Both | AAfterB | BAfterA

  /** `computeRayCastStaticTest`: the ray against both children's bounds.
      Reaching both, the origin inside both gives both, inside one gives
      that one first, inside neither gives the nearer entry point first. */
  function RayTestOf(a: Ray, b0: Rects.Rect, b1: Rects.Rect, sqrt: real -> real): (t: RayTest)
    requires IsSqrt(sqrt)
    ensures t == NoneHit <==> RayCasts.Nearest(RayCasts.RectHits(a, b0, sqrt)).0.None? && RayCasts.Nearest(RayCasts.RectHits(a, b1, sqrt)).0.None?
    ensures t == OnlyA || t == AAfterB ==> RayCasts.Nearest(RayCasts.RectHits(a, b0, sqrt)).0.Some?
    ensures t == OnlyB || t == BAfterA ==> RayCasts.Nearest(RayCasts.RectHits(a, b1, sqrt)).0.Some?
    ensures t == Both ==> Rects.ContainsPoint(b0, a.point) && Rects.ContainsPoint(b1, a.point)
  {
    var i0 := RayCasts.Nearest(RayCasts.RectHits(a, b0, sqrt)).0;
    var i1 := RayCasts.Nearest(RayCasts.RectHits(a, b1, sqrt)).0;
    if i0.Some? then
      if i1.Some? then
        var containsA := Rects.ContainsPoint(b0, a.point);
        var containsB := Rects.ContainsPoint(b1, a.point);
        if containsA && containsB then Both
        else if containsA then AAfterB
        else if containsB then BAfterA
        else if ComputeT(a, i0.value, sqrt) < ComputeT(a, i1.value, sqrt) then AAfterB
        else BAfterA
      else OnlyA
    else if i1.Some? then OnlyB
    else NoneHit
  }

  method RayTestAt(a: Ray, b0: Rects.Rect, b1: Rects.Rect, sqrt: real -> real) returns (t: RayTest)
    requires IsSqrt(sqrt)
    ensures t == RayTestOf(a, b0, b1, sqrt)
  {
    var i0 := RayCasts.RayRect(a, b0, sqrt);
    var i1 := RayCasts.RayRect(a, b1, sqrt);
    if i0.Some? {
      if i1.Some? {
        var containsA := Rects.ContainsPoint(b0, a.point);
        var containsB := Rects.ContainsPoint(b1, a.point);
        if containsA && containsB {
          t := Both;
        } else if containsA {
          t := AAfterB;
        } else if containsB {
          t := BAfterA;
        } else {
          var p1 := ComputeT(a, i0.value, sqrt);
          var p2 := ComputeT(a, i1.value, sqrt);
          t := if p1 < p2 then AAfterB else BAfterA;
        }
      } else {
        t := OnlyA;
      }
    } else {
      t := if i1.Some? then OnlyB else NoneHit;
    }
  }

  /** The nearer of two results: a missing result yields the other; of two
      hits, the first wins only with a strictly smaller parameter. */
  function Closer(r0: QueryResults.RayCastResult, r1: QueryResults.RayCastResult): (r: QueryResults.RayCastResult)
    ensures r == r0 || r == r1
    ensures r.empty <==> r0.empty && r1.empty
    ensures !r0.empty && !r1.empty ==> r.parameter <= r0.parameter && r.parameter <= r1.parameter
  {
    if r0.empty then r1
    else if r1.empty then r0
    else if r0.parameter < r1.parameter then r0 else r1
  }

  /** `staticRayCast` at a node. */
  function StaticRay(a: Ray, mask: bv64, n: StaticTrees.Node, sqrt: real -> real): QueryResults.RayCastResult
    requires IsSqrt(sqrt) && AllProper(StaticTrees.Leaves(n))
    decreases n
  {
    match n
    case Terminal(es, _) => TerminalScan(a, mask, es, sqrt).0
    case NonTerminal(n0, n1, _) =>
      match RayTestOf(a, n0.bounds, n1.bounds, sqrt)
      case NoneHit => QueryResults.NoHit
      case OnlyA => StaticRay(a, mask, n0, sqrt)
      case OnlyB => StaticRay(a, mask, n1, sqrt)
      case Both => Closer(StaticRay(a, mask, n0, sqrt), StaticRay(a, mask, n1, sqrt))
      case AAfterB =>
        var r0 := StaticRay(a, mask, n0, sqrt);
        if !r0.empty && !Rects.ContainsPoint(n1.bounds, r0.point) then r0
        else Closer(r0, StaticRay(a, mask, n1, sqrt))
      case BAfterA =>
        var r1 := StaticRay(a, mask, n1, sqrt);
        if !r1.empty && !Rects.ContainsPoint(n0.bounds, r1.point) then r1
        else Closer(StaticRay(a, mask, n0, sqrt), r1)
  }

  /** A hit found among fewer entries is found among more. */
  lemma HitFromGrows(small: seq<StaticTrees.Entry>, large: seq<StaticTrees.Entry>, r: QueryResults.RayCastResult, a: Ray, mask: bv64, sqrt: real -> real)
    requires IsSqrt(sqrt) && AllProper(small) && AllProper(large)
    requires forall e :: e in small ==> e in large
    requires HitFrom(small, r, a, mask, sqrt)
    ensures HitFrom(large, r, a, mask, sqrt)
  {
    var e :| e in small && HitBy(e, r, a, mask, sqrt);
    assert e in large;
  }

  /** A non-empty result of the static ray cast reports a shape below the
      node whose type mask passes, the point where the ray meets it and that
      point's parameter along the ray. */
  lemma {:induction false} StaticRaySound(a: Ray, mask: bv64, n: StaticTrees.Node, sqrt: real -> real)
    requires IsSqrt(sqrt) && AllProper(StaticTrees.Leaves(n))
    ensures !StaticRay(a, mask, n, sqrt).empty ==> HitFrom(StaticTrees.Leaves(n), StaticRay(a, mask, n, sqrt), a, mask, sqrt)
    decreases n
  {
    match n
    case Terminal(es, _) =>
      TerminalScanNearest(a, mask, es, sqrt);
    case NonTerminal(n0, n1, _) =>
      var r := StaticRay(a, mask, n, sqrt);
      if !r.empty {
        var all := StaticTrees.Leaves(n);
        if RayTestOf(a, n0.bounds, n1.bounds, sqrt) != NoneHit {
          if r == StaticRay(a, mask, n0, sqrt) {
            StaticRaySound(a, mask, n0, sqrt);
            HitFromGrows(StaticTrees.Leaves(n0), all, r, a, mask, sqrt);
          } else {
            assert r == StaticRay(a, mask, n1, sqrt);
            StaticRaySound(a, mask, n1, sqrt);
            HitFromGrows(StaticTrees.Leaves(n1), all, r, a, mask, sqrt);
          }
        }
      }
  }

  /** `staticRayCast` at a node, recursively. */
  method StaticRayCastAt(a: Ray, mask: bv64, n: StaticTrees.Node, sqrt: real -> real) returns (rr: QueryResults.RayCastResult)
    requires IsSqrt(sqrt) && AllProper(StaticTrees.Leaves(n))
    ensures rr == StaticRay(a, mask, n, sqrt)
    decreases n
  {
    match n
    case Terminal(es, _) =>
      rr := TerminalRayCast(a, mask, es, sqrt);
    case NonTerminal(n0, n1, _) =>
      var rt := RayTestAt(a, n0.bounds, n1.bounds, sqrt);
      var r0, r1;
      match rt
      case NoneHit =>
        rr := QueryResults.NoHit;
      case OnlyA =>
        rr := StaticRayCastAt(a, mask, n0, sqrt);
      case OnlyB =>
        rr := StaticRayCastAt(a, mask, n1, sqrt);
      case Both =>
        r0 := StaticRayCastAt(a, mask, n0, sqrt);
        r1 := StaticRayCastAt(a, mask, n1, sqrt);
        rr := Closer(r0, r1);
      case AAfterB =>
        r0 := StaticRayCastAt(a, mask, n0, sqrt);
        if !r0.empty && !Rects.ContainsPoint(n1.bounds, r0.point) {
          rr := r0;
        } else {
          r1 := StaticRayCastAt(a, mask, n1, sqrt);
          rr := Closer(r0, r1);
        }
      case BAfterA =>
        r1 := StaticRayCastAt(a, mask, n1, sqrt);
        if !r1.empty && !Rects.ContainsPoint(n0.bounds, r1.point) {
          rr := r1;
        } else {
          r0 := StaticRayCastAt(a, mask, n0, sqrt);
          rr := Closer(r0, r1);
        }
  }
}
