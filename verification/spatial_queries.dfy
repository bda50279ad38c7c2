/** What the spatial tree's public queries compute, on values: which halves
    of the tree a query visits and in which order, how the static and the
    dynamic ray-cast results merge, and the contact `testIntersection`
    reports for two shapes. */
module SpatialQueries {
  import opened Vectors
  import opened Lines
  import opened Options
  import Rects
  import Polygons
  import Shapes
  import Intersections
  import Overlaps
  import StaticTrees
  import StaticRayCasts
  import opened QueryResults
  import opened DynamicTables
  import opened DynamicIndex

  /** `StaticDynamicMask`: sdmDynamic = 1, sdmStatic = 2, sdmAll = 3. */
  datatype StaticDynamicMask = SdmDynamic | SdmStatic | SdmAll

  function FilterBits(f: StaticDynamicMask): bv8
  {
    match f
    case SdmDynamic => 1
    case SdmStatic => 2
    case SdmAll => 3
  }

  /** `sdFilter & sdmDynamic`. */
  predicate VisitsDynamic(f: StaticDynamicMask)
  {
    FilterBits(f) & 1 != 0
  }

  /** `sdFilter & sdmStatic`. */
  predicate VisitsStatic(f: StaticDynamicMask)
  {
    FilterBits(f) & 2 != 0
  }

  // ---------------------------------------------------------------------
  // Range and pick queries

  /** `staticRangeQuery` / `staticPickQuery` after the rebuild: nothing
      without a tree. */
  function StaticCollect(acc: seq<Shapes.Shape?>, tree: Option<StaticTrees.Node>, q: StaticTrees.Query, sqrt: real -> real): seq<Shapes.Shape?>
    requires IsSqrt(sqrt)
  {
    match tree
    case None => acc
    case Some(n) => StaticTrees.Collect(acc, q, n, sqrt)
  }

  /** `SpatialTree::rangeQuery`: nothing once the buffer is full; the
      dynamic half when the filter asks for it, then the static half when
      the filter asks for it and the buffer still has room. Neither half
      leaves a shape out. */
  function RangeResult(acc: seq<Shapes.Shape?>, t: Table, xs: Counts, ys: Counts, tree: Option<StaticTrees.Node>,
                       r: Rects.Rect, mask: bv64, f: StaticDynamicMask, sqrt: real -> real): seq<Shapes.Shape?>
    requires IsSqrt(sqrt)
  {
    if |acc| >= MaxCollisions then acc
    else
      var a := if VisitsDynamic(f) then DynamicRange(t, xs, ys, acc, r, mask, null) else acc;
      if VisitsStatic(f) && |a| < MaxCollisions then StaticCollect(a, tree, StaticTrees.RangeQuery(r, mask, null), sqrt) else a
  }

  /** `SpatialTree::pickQuery`: the same order of halves, with the point. */
  function PickResult(acc: seq<Shapes.Shape?>, t: Table, xs: Counts, ys: Counts, tree: Option<StaticTrees.Node>,
                      pt: Vec2, mask: bv64, f: StaticDynamicMask, sqrt: real -> real): seq<Shapes.Shape?>
    requires IsSqrt(sqrt)
  {
    if |acc| >= MaxCollisions then acc
    else
      var a := if VisitsDynamic(f) then DynamicPick(t, xs, ys, acc, pt, mask, sqrt) else acc;
      if VisitsStatic(f) && |a| < MaxCollisions then StaticCollect(a, tree, StaticTrees.PickQuery(pt, mask), sqrt) else a
  }

  /** The static tree built from a list of entries holds exactly those
      entries. */
  lemma TreeHolds(es: seq<StaticTrees.Entry>, n: StaticTrees.Node)
    requires StaticTrees.AllWellFormed(es) && StaticTrees.BuildTree(es) == Some(n)
    ensures forall e :: e in StaticTrees.Leaves(n) <==> e in es
  {
    forall e
      ensures e in StaticTrees.Leaves(n) <==> e in es
    {
      assert e in StaticTrees.Leaves(n) <==> e in multiset(StaticTrees.Leaves(n));
      assert e in es <==> e in multiset(es);
    }
  }

  /** What a scan adds from a tree's entries it adds from any list holding
      them. */
  lemma ExtendsToList(acc: seq<Shapes.Shape?>, res: seq<Shapes.Shape?>, n: StaticTrees.Node, es: seq<StaticTrees.Entry>, q: StaticTrees.Query, sqrt: real -> real)
    requires IsSqrt(sqrt) && StaticTrees.Extends(acc, res, StaticTrees.Leaves(n), q, sqrt)
    requires forall e :: e in StaticTrees.Leaves(n) ==> e in es
    ensures StaticTrees.Extends(acc, res, es, q, sqrt)
  {
    forall k | |acc| <= k < |res|
      ensures StaticTrees.FoundIn(es, res[k], q, sqrt)
    {
      StaticTrees.FoundInGrows(StaticTrees.Leaves(n), es, res[k], q, sqrt);
    }
  }

  /** The static half keeps what the buffer held, never passes twelve, and
      adds only shapes of the static entries that match. */
  lemma StaticCollectSound(acc: seq<Shapes.Shape?>, es: seq<StaticTrees.Entry>, q: StaticTrees.Query, sqrt: real -> real)
    requires IsSqrt(sqrt) && StaticTrees.AllWellFormed(es)
    ensures StaticTrees.Extends(acc, StaticCollect(acc, StaticTrees.BuildTree(es), q, sqrt), es, q, sqrt)
  {
    var tree := StaticTrees.BuildTree(es);
    if tree.Some? {
      var n := tree.value;
      StaticTrees.CollectSound(acc, q, n, sqrt);
      TreeHolds(es, n);
      var res := StaticTrees.Collect(acc, q, n, sqrt);
      assert A: StaticTrees.Extends(acc, res, StaticTrees.Leaves(n), q, sqrt);
      assert B: forall e :: e in StaticTrees.Leaves(n) ==> e in es;
      ExtendsToList(acc, res, n, es, q, sqrt);
    } else {
      StaticTrees.ExtendsSelf(acc, es, q, sqrt);
    }
  }

  /** The static half misses no matching static entry unless the buffer
      fills. */
  lemma StaticCollectComplete(acc: seq<Shapes.Shape?>, es: seq<StaticTrees.Entry>, q: StaticTrees.Query, sqrt: real -> real)
    requires IsSqrt(sqrt) && StaticTrees.AllWellFormed(es)
    requires |StaticCollect(acc, StaticTrees.BuildTree(es), q, sqrt)| < MaxCollisions
    ensures forall e :: e in es && StaticTrees.Matches(q, e, sqrt) ==> e.shape in StaticCollect(acc, StaticTrees.BuildTree(es), q, sqrt)
  {
    if es != [] {
      var n := StaticTrees.BuildTree(es).value;
      StaticTrees.CollectComplete(acc, q, n, sqrt);
      TreeHolds(es, n);
    }
  }

  /** Whether a shape a query added comes from a half the filter allows
      and matches there. */
  predicate RangeFound(dyn: Registry, es: seq<StaticTrees.Entry>, s: Shapes.Shape?, r: Rects.Rect, mask: bv64, f: StaticDynamicMask, sqrt: real -> real)
    requires IsSqrt(sqrt)
  {
    (VisitsDynamic(f) && s in dyn && StaticTrees.RangeMatches(r, mask, null, dyn[s])) ||
    (VisitsStatic(f) && StaticTrees.FoundIn(es, s, StaticTrees.RangeQuery(r, mask, null), sqrt))
  }

  predicate PickFound(dyn: Registry, es: seq<StaticTrees.Entry>, s: Shapes.Shape?, pt: Vec2, mask: bv64, f: StaticDynamicMask, sqrt: real -> real)
    requires IsSqrt(sqrt)
  {
    (VisitsDynamic(f) && s in dyn && StaticTrees.PickMatches(pt, mask, dyn[s], sqrt)) ||
    (VisitsStatic(f) && StaticTrees.FoundIn(es, s, StaticTrees.PickQuery(pt, mask), sqrt))
  }

  /** `rangeQuery` keeps what the buffer held, never passes twelve shapes,
      and adds only shapes of the halves the filter allows whose type mask
      passes and whose bounds touch the rect. */
  lemma RangeResultSound(acc: seq<Shapes.Shape?>, t: Table, xs: Counts, ys: Counts, dyn: Registry, es: seq<StaticTrees.Entry>,
                         r: Rects.Rect, mask: bv64, f: StaticDynamicMask, sqrt: real -> real)
    requires IsSqrt(sqrt) && TableHolds(t, dyn) && StaticTrees.AllWellFormed(es)
    ensures var res := RangeResult(acc, t, xs, ys, StaticTrees.BuildTree(es), r, mask, f, sqrt);
            |acc| <= |res| && res[..|acc|] == acc &&
            (|acc| <= MaxCollisions ==> |res| <= MaxCollisions) &&
            forall k :: |acc| <= k < |res| ==> RangeFound(dyn, es, res[k], r, mask, f, sqrt)
  {
    var res := RangeResult(acc, t, xs, ys, StaticTrees.BuildTree(es), r, mask, f, sqrt);
    if |acc| < MaxCollisions {
      var a := if VisitsDynamic(f) then DynamicRange(t, xs, ys, acc, r, mask, null) else acc;
      if VisitsDynamic(f) {
        DynamicRangeSound(t, xs, ys, dyn, acc, r, mask, null);
      }
      assert forall k :: |acc| <= k < |a| ==> RangeFound(dyn, es, a[k], r, mask, f, sqrt);
      if VisitsStatic(f) && |a| < MaxCollisions {
        var q := StaticTrees.RangeQuery(r, mask, null);
        StaticCollectSound(a, es, q, sqrt);
        assert res[..|a|] == a;
        forall k | |acc| <= k < |res|
          ensures RangeFound(dyn, es, res[k], r, mask, f, sqrt)
        {
          if k < |a| {
            assert res[k] == a[k];
          }
        }
      }
    }
  }

  /** `rangeQuery` misses nothing when it ends with room in the buffer:
      every shape of an allowed half whose type mask passes and whose bounds
      touch the rect is reported. */
  lemma RangeResultComplete(acc: seq<Shapes.Shape?>, t: Table, xs: Counts, ys: Counts, dyn: Registry, es: seq<StaticTrees.Entry>,
                            r: Rects.Rect, mask: bv64, f: StaticDynamicMask, sqrt: real -> real)
    requires IsSqrt(sqrt) && TableHolds(t, dyn) && CountsHold(xs, ys, dyn) && EntriesHold(dyn)
    requires Rects.WellFormed(r) && StaticTrees.AllWellFormed(es)
    requires |RangeResult(acc, t, xs, ys, StaticTrees.BuildTree(es), r, mask, f, sqrt)| < MaxCollisions
    ensures VisitsDynamic(f) ==>
              forall s :: s in dyn && StaticTrees.RangeMatches(r, mask, null, dyn[s]) ==> s in RangeResult(acc, t, xs, ys, StaticTrees.BuildTree(es), r, mask, f, sqrt)
    ensures VisitsStatic(f) ==>
              forall e :: e in es && StaticTrees.RangeMatches(r, mask, null, e) ==> e.shape in RangeResult(acc, t, xs, ys, StaticTrees.BuildTree(es), r, mask, f, sqrt)
  {
    var res := RangeResult(acc, t, xs, ys, StaticTrees.BuildTree(es), r, mask, f, sqrt);
    var a := if VisitsDynamic(f) then DynamicRange(t, xs, ys, acc, r, mask, null) else acc;
    var q := StaticTrees.RangeQuery(r, mask, null);
    if VisitsStatic(f) && |a| < MaxCollisions {
      StaticCollectSound(a, es, q, sqrt);
      StaticCollectComplete(a, es, q, sqrt);
      assert res[..|a|] == a;
    }
    assert |a| <= |res| && res[..|a|] == a;
    if VisitsDynamic(f) {
      forall s | s in dyn && StaticTrees.RangeMatches(r, mask, null, dyn[s])
        ensures s in res
      {
        DynamicRangeComplete(t, xs, ys, dyn, acc, r, mask, null, s);
        var i :| 0 <= i < |a| && a[i] == s;
        assert res[i] == s;
      }
    }
  }

  /** `pickQuery` keeps what the buffer held, never passes twelve shapes,
      and adds only shapes of the halves the filter allows that contain the
      point and pass the type mask. */
  lemma PickResultSound(acc: seq<Shapes.Shape?>, t: Table, xs: Counts, ys: Counts, dyn: Registry, es: seq<StaticTrees.Entry>,
                        pt: Vec2, mask: bv64, f: StaticDynamicMask, sqrt: real -> real)
    requires IsSqrt(sqrt) && TableHolds(t, dyn) && StaticTrees.AllWellFormed(es)
    ensures var res := PickResult(acc, t, xs, ys, StaticTrees.BuildTree(es), pt, mask, f, sqrt);
            |acc| <= |res| && res[..|acc|] == acc &&
            (|acc| <= MaxCollisions ==> |res| <= MaxCollisions) &&
            forall k :: |acc| <= k < |res| ==> PickFound(dyn, es, res[k], pt, mask, f, sqrt)
  {
    var res := PickResult(acc, t, xs, ys, StaticTrees.BuildTree(es), pt, mask, f, sqrt);
    if |acc| < MaxCollisions {
      var a := if VisitsDynamic(f) then DynamicPick(t, xs, ys, acc, pt, mask, sqrt) else acc;
      if VisitsDynamic(f) {
        DynamicPickSound(t, xs, ys, dyn, acc, pt, mask, sqrt);
      }
      assert forall k :: |acc| <= k < |a| ==> PickFound(dyn, es, a[k], pt, mask, f, sqrt);
      if VisitsStatic(f) && |a| < MaxCollisions {
        var q := StaticTrees.PickQuery(pt, mask);
        StaticCollectSound(a, es, q, sqrt);
        assert res[..|a|] == a;
        forall k | |acc| <= k < |res|
          ensures PickFound(dyn, es, res[k], pt, mask, f, sqrt)
        {
          if k < |a| {
            assert res[k] == a[k];
          }
        }
      }
    }
  }

  /** `pickQuery` misses nothing when it ends with room in the buffer. */
  lemma PickResultComplete(acc: seq<Shapes.Shape?>, t: Table, xs: Counts, ys: Counts, dyn: Registry, es: seq<StaticTrees.Entry>,
                           pt: Vec2, mask: bv64, f: StaticDynamicMask, sqrt: real -> real)
    requires IsSqrt(sqrt) && TableHolds(t, dyn) && CountsHold(xs, ys, dyn) && EntriesHold(dyn)
    requires StaticTrees.AllWellFormed(es)
    requires |PickResult(acc, t, xs, ys, StaticTrees.BuildTree(es), pt, mask, f, sqrt)| < MaxCollisions
    ensures VisitsDynamic(f) ==>
              forall s :: s in dyn && StaticTrees.PickMatches(pt, mask, dyn[s], sqrt) ==> s in PickResult(acc, t, xs, ys, StaticTrees.BuildTree(es), pt, mask, f, sqrt)
    ensures VisitsStatic(f) ==>
              forall e :: e in es && StaticTrees.PickMatches(pt, mask, e, sqrt) ==> e.shape in PickResult(acc, t, xs, ys, StaticTrees.BuildTree(es), pt, mask, f, sqrt)
  {
    var res := PickResult(acc, t, xs, ys, StaticTrees.BuildTree(es), pt, mask, f, sqrt);
    var a := if VisitsDynamic(f) then DynamicPick(t, xs, ys, acc, pt, mask, sqrt) else acc;
    var q := StaticTrees.PickQuery(pt, mask);
    if VisitsStatic(f) && |a| < MaxCollisions {
      StaticCollectSound(a, es, q, sqrt);
      StaticCollectComplete(a, es, q, sqrt);
      assert res[..|a|] == a;
    }
    assert |a| <= |res| && res[..|a|] == a;
    if VisitsDynamic(f) {
      forall s | s in dyn && StaticTrees.PickMatches(pt, mask, dyn[s], sqrt)
        ensures s in res
      {
        DynamicPickComplete(t, xs, ys, dyn, acc, pt, mask, sqrt, s);
        var i :| 0 <= i < |a| && a[i] == s;
        assert res[i] == s;
      }
    }
  }

  // ---------------------------------------------------------------------
  // Ray casts

  /** The merge of `rayCast`: the dynamic result replaces the static one
      when the static one is empty or the dynamic one hits at a strictly
      smaller parameter. The merged result is one of the two, empty only
      when both are, at the smaller parameter when both hit, and the static
      one on a tie. */
  function MergeRay(rc: RayCastResult, rc2: RayCastResult): (m: RayCastResult)
    ensures m == rc || m == rc2
    ensures m.empty <==> rc.empty && rc2.empty
    ensures !rc.empty && !rc2.empty ==> m.parameter <= rc.parameter && m.parameter <= rc2.parameter
    ensures !rc.empty && !rc2.empty && rc2.parameter == rc.parameter ==> m == rc
  {
    if rc.empty || (!rc2.empty && rc2.parameter < rc.parameter) then rc2 else rc
  }

  /** `staticRayCast`: nothing for a zero direction or without a tree. */
  function StaticRayResult(a: Ray, mask: bv64, tree: Option<StaticTrees.Node>, sqrt: real -> real): RayCastResult
    requires IsSqrt(sqrt) && (!IsZero(a.direction) && tree.Some? ==> StaticRayCasts.AllProper(StaticTrees.Leaves(tree.value)))
  {
    if IsZero(a.direction) then NoHit
    else
      match tree
      case None => NoHit
      case Some(n) => StaticRayCasts.StaticRay(a, mask, n, sqrt)
  }

  /** The bound `rayCast` hands the dynamic walk: the squared distance to
      the static hit, or none. */
  function DynamicCap(rc: RayCastResult, a: Ray): Option<real>
  {
    if rc.empty then None else Some(SquaredLength(Sub(rc.point, a.point)))
  }

  /** `SpatialTree::rayCast`. The walk through the dynamic grid is the
      parameter `dynamicCast`, from the bound to its result. A zero
      direction gives an empty result. */
  function RayResult(a: Ray, mask: bv64, f: StaticDynamicMask, tree: Option<StaticTrees.Node>,
                     dynamicCast: Option<real> -> RayCastResult, sqrt: real -> real): (rc: RayCastResult)
    requires IsSqrt(sqrt) && (VisitsStatic(f) && !IsZero(a.direction) && tree.Some? ==> StaticRayCasts.AllProper(StaticTrees.Leaves(tree.value)))
    ensures IsZero(a.direction) ==> rc == NoHit
  {
    var rs := if VisitsStatic(f) then StaticRayResult(a, mask, tree, sqrt) else NoHit;
    if VisitsDynamic(f) then
      MergeRay(rs, if IsZero(a.direction) then NoHit else dynamicCast(DynamicCap(rs, a)))
    else rs
  }

  /** A hit of the static half is the point where the ray meets one of the
      static shapes whose type mask passes, at that point's parameter. */
  lemma StaticRayFrom(a: Ray, mask: bv64, es: seq<StaticTrees.Entry>, sqrt: real -> real)
    requires IsSqrt(sqrt) && StaticTrees.AllWellFormed(es) && StaticRayCasts.AllProper(es)
    requires StaticTrees.BuildTree(es).Some? ==> StaticRayCasts.AllProper(StaticTrees.Leaves(StaticTrees.BuildTree(es).value))
    ensures !StaticRayResult(a, mask, StaticTrees.BuildTree(es), sqrt).empty ==>
              StaticRayCasts.HitFrom(es, StaticRayResult(a, mask, StaticTrees.BuildTree(es), sqrt), a, mask, sqrt)
  {
    var tree := StaticTrees.BuildTree(es);
    var rs := StaticRayResult(a, mask, tree, sqrt);
    if !rs.empty {
      var n := tree.value;
      assert rs == StaticRayCasts.StaticRay(a, mask, n, sqrt);
      StaticRayCasts.StaticRaySound(a, mask, n, sqrt);
      TreeHolds(es, n);
      assert StaticRayCasts.HitFrom(StaticTrees.Leaves(n), rs, a, mask, sqrt);
      assert forall e :: e in StaticTrees.Leaves(n) ==> e in es;
      StaticRayCasts.HitFromGrows(StaticTrees.Leaves(n), es, rs, a, mask, sqrt);
    }
  }

  /** A hit `rayCast` reports comes from the static shapes, with the point
      where the ray meets one of them and its parameter, or from the dynamic
      walk given the bound of the static hit; a static-only cast reports
      nothing else. */
  lemma RayResultFrom(a: Ray, mask: bv64, f: StaticDynamicMask, es: seq<StaticTrees.Entry>,
                      dynamicCast: Option<real> -> RayCastResult, sqrt: real -> real)
    requires IsSqrt(sqrt) && StaticTrees.AllWellFormed(es) && StaticRayCasts.AllProper(es)
    requires StaticTrees.BuildTree(es).Some? ==> StaticRayCasts.AllProper(StaticTrees.Leaves(StaticTrees.BuildTree(es).value))
    ensures var rs := if VisitsStatic(f) then StaticRayResult(a, mask, StaticTrees.BuildTree(es), sqrt) else NoHit;
            var rc := RayResult(a, mask, f, StaticTrees.BuildTree(es), dynamicCast, sqrt);
            !rc.empty ==>
              (VisitsStatic(f) && StaticRayCasts.HitFrom(es, rc, a, mask, sqrt)) ||
              (VisitsDynamic(f) && rc == dynamicCast(DynamicCap(rs, a)))
  {
    StaticRayFrom(a, mask, es, sqrt);
  }

  // ---------------------------------------------------------------------
  // Contacts

  /** `testIntersection` passes a pair to `Intersection::get` in the other
      order (and negates the normal) for circle against polygon or rect and
      for rect against polygon. */
  predicate Swaps(ga: Shapes.Geometry, gb: Shapes.Geometry)
  {
    (ga.CircleGeometry? && !gb.CircleGeometry?) || (ga.RectGeometry? && gb.PolygonGeometry?)
  }

  /** `Intersection::get` on a pair in an order `testIntersection` uses:
      circle with circle, polygon with anything, rect with circle or rect. */
  function PairOverlap(ga: Shapes.Geometry, gb: Shapes.Geometry, sqrt: real -> real): Intersections.IntersectionInfo
    requires IsSqrt(sqrt) && Shapes.ProperGeometry(ga) && Shapes.ProperGeometry(gb) && !Swaps(ga, gb)
  {
    match ga
    case CircleGeometry(a) => Intersections.CircleCircle(a, gb.circle, sqrt)
    case PolygonGeometry(a) =>
      assert Polygons.OrderingOf(a) != Polygons.Unknown;
      (match gb
       case CircleGeometry(c) =>
         Overlaps.ContactOf(Overlaps.StepAxes(Overlaps.CircleSteps(Overlaps.PolygonFaces(a, true, a.points, sqrt), c, sqrt)), sqrt)
       case PolygonGeometry(b) =>
         assert Polygons.OrderingOf(b) != Polygons.Unknown;
         Overlaps.ContactOf(Overlaps.Axes(Overlaps.PolygonFaces(a, true, b.points, sqrt) + Overlaps.PolygonFaces(b, false, a.points, sqrt)), sqrt)
       case RectGeometry(b) =>
         Overlaps.ContactOf(Overlaps.Axes(Overlaps.PolygonFaces(a, true, Overlaps.Corners(b), sqrt) + Overlaps.RectFaces(b, false, a.points, sqrt)), sqrt))
    case RectGeometry(a) =>
      if gb.CircleGeometry? then
        Overlaps.ContactOf(Overlaps.StepAxes(Overlaps.CircleSteps(Overlaps.RectFaces(a, true, Overlaps.Corners(a), sqrt), gb.circle, sqrt)), sqrt)
      else
        Overlaps.ContactOf(Overlaps.Axes(Overlaps.RectFaces(a, true, Overlaps.Corners(gb.rect), sqrt) + Overlaps.RectFaces(gb.rect, false, Overlaps.Corners(a), sqrt)), sqrt)
  }

  /** The overlap `testIntersection` computes for bodies of geometry ga and
      gb, with the pair in the order it passes them. */
  function OrderedOverlap(ga: Shapes.Geometry, gb: Shapes.Geometry, sqrt: real -> real): Intersections.IntersectionInfo
    requires IsSqrt(sqrt) && Shapes.ProperGeometry(ga) && Shapes.ProperGeometry(gb)
  {
    if Swaps(ga, gb) then PairOverlap(gb, ga, sqrt) else PairOverlap(ga, gb, sqrt)
  }

  /** `testIntersection(ei, bodyA, bodyB)`: the overlap of the ordered pair
      between the two bodies, with the normal multiplied by -1 when the
      order was swapped and by 1 otherwise. */
  function ShapeContact(a: Shapes.Shape?, ga: Shapes.Geometry, b: Shapes.Shape?, gb: Shapes.Geometry, sqrt: real -> real): (ei: ExIntersectionInfo)
    requires IsSqrt(sqrt) && Shapes.ProperGeometry(ga) && Shapes.ProperGeometry(gb)
    ensures ei.bodyA == a && ei.bodyB == b
    ensures ei.empty == OrderedOverlap(ga, gb, sqrt).empty && ei.penetration == OrderedOverlap(ga, gb, sqrt).penetration
  {
    var ii := OrderedOverlap(ga, gb, sqrt);
    ExIntersectionInfo(a, b, Scale(if Swaps(ga, gb) then -1.0 else 1.0, ii.normal), ii.penetration, ii.empty)
  }

  /** Testing two bodies of different kinds either way round finds the same
      overlap and penetration, with opposite normals: the normal always
      points from the first body's point of view. */
  lemma ContactSwap(a: Shapes.Shape?, ga: Shapes.Geometry, b: Shapes.Shape?, gb: Shapes.Geometry, sqrt: real -> real)
    requires IsSqrt(sqrt) && Shapes.ProperGeometry(ga) && Shapes.ProperGeometry(gb)
    requires Shapes.KindOf(ga) != Shapes.KindOf(gb)
    ensures ShapeContact(a, ga, b, gb, sqrt).empty == ShapeContact(b, gb, a, ga, sqrt).empty
    ensures ShapeContact(a, ga, b, gb, sqrt).penetration == ShapeContact(b, gb, a, ga, sqrt).penetration
    ensures ShapeContact(a, ga, b, gb, sqrt).normal == Neg(ShapeContact(b, gb, a, ga, sqrt).normal)
  {
    if Swaps(ga, gb) {
      SwappedContact(a, ga, b, gb, sqrt);
    } else {
      assert Swaps(gb, ga);
      SwappedContact(b, gb, a, ga, sqrt);
    }
  }

  /** When testIntersection swaps the pair, it reports the overlap of the
      pair in the other order with the normal negated. */
  lemma SwappedContact(a: Shapes.Shape?, ga: Shapes.Geometry, b: Shapes.Shape?, gb: Shapes.Geometry, sqrt: real -> real)
    requires IsSqrt(sqrt) && Shapes.ProperGeometry(ga) && Shapes.ProperGeometry(gb) && Swaps(ga, gb)
    ensures ShapeContact(a, ga, b, gb, sqrt).empty == ShapeContact(b, gb, a, ga, sqrt).empty
    ensures ShapeContact(a, ga, b, gb, sqrt).penetration == ShapeContact(b, gb, a, ga, sqrt).penetration
    ensures ShapeContact(a, ga, b, gb, sqrt).normal == Neg(ShapeContact(b, gb, a, ga, sqrt).normal)
    ensures ShapeContact(b, gb, a, ga, sqrt).normal == Neg(ShapeContact(a, ga, b, gb, sqrt).normal)
  {
    assert !Swaps(gb, ga);
    var ii := PairOverlap(gb, ga, sqrt);
    assert OrderedOverlap(ga, gb, sqrt) == ii && OrderedOverlap(gb, ga, sqrt) == ii;
  }

  /** `testIntersection(ei, bodyA, bodyB)` on the bodies' geometry as it is
      now: the overlap test for the pair of kinds, the pair passed the other
      way round (and the normal negated) for circle against polygon or rect
      and for rect against polygon. */
  method TestIntersection(a: Shapes.Shape, b: Shapes.Shape, sqrt: real -> real) returns (ei: ExIntersectionInfo)
    requires IsSqrt(sqrt) && Shapes.ProperGeometry(a.Geometry()) && Shapes.ProperGeometry(b.Geometry())
    ensures ei == ShapeContact(a, a.Geometry(), b, b.Geometry(), sqrt)
  {
    var ga, gb := a.Geometry(), b.Geometry();
    var ii: Intersections.IntersectionInfo;
    var invert := 1.0;
    match ga {
      case CircleGeometry(ca) =>
        match gb {
          case CircleGeometry(cb) =>
            ii := Intersections.CircleCircle(ca, cb, sqrt);
          case PolygonGeometry(pb) =>
            ii := Overlaps.PolygonCircle(pb, ca, sqrt);
            invert := -1.0;
          case RectGeometry(rb) =>
            ii := Overlaps.RectCircle(rb, ca, sqrt);
            invert := -1.0;
        }
      case PolygonGeometry(pa) =>
        match gb {
          case CircleGeometry(cb) =>
            ii := Overlaps.PolygonCircle(pa, cb, sqrt);
          case PolygonGeometry(pb) =>
            ii := Overlaps.PolygonPolygon(pa, pb, sqrt);
          case RectGeometry(rb) =>
            ii := Overlaps.PolygonRect(pa, rb, sqrt);
        }
      case RectGeometry(ra) =>
        match gb {
          case CircleGeometry(cb) =>
            ii := Overlaps.RectCircle(ra, cb, sqrt);
          case PolygonGeometry(pb) =>
            ii := Overlaps.PolygonRect(pb, ra, sqrt);
            invert := -1.0;
          case RectGeometry(rb) =>
            ii := Overlaps.RectRect(ra, rb, sqrt);
        }
    }
    ei := ExIntersectionInfo(a, b, Scale(invert, ii.normal), ii.penetration, ii.empty);
  }

  /** Every shape of the list is there. */
  predicate NonNull(found: seq<Shapes.Shape?>)
  {
    forall k :: 0 <= k < |found| ==> found[k] != null
  }

  /** The geometry of each found shape, as it is now. */
  ghost function GeometriesOf(found: seq<Shapes.Shape?>): (gs: seq<Shapes.Geometry>)
    reads found
    requires NonNull(found)
    ensures |gs| == |found|
    ensures forall k :: 0 <= k < |found| ==> gs[k] == found[k].Geometry()
  {
    if found == [] then [] else [found[0].Geometry()] + GeometriesOf(found[1..])
  }

  /** The geometries of shapes that did not change are what they were. */
  twostate lemma GeometriesKept(found: seq<Shapes.Shape?>)
    requires NonNull(found) && forall k :: 0 <= k < |found| ==> unchanged(found[k])
    ensures GeometriesOf(found) == old(GeometriesOf(found))
  {
  }

  /** Every geometry of the list is proper. */
  predicate AllProperGeometries(gs: seq<Shapes.Geometry>)
  {
    forall k :: 0 <= k < |gs| ==> Shapes.ProperGeometry(gs[k])
  }

  /** The contact of the body with each found shape, in order. */
  function ContactTests(a: Shapes.Shape?, ga: Shapes.Geometry, found: seq<Shapes.Shape?>, gs: seq<Shapes.Geometry>, sqrt: real -> real): (ts: seq<ExIntersectionInfo>)
    requires IsSqrt(sqrt) && Shapes.ProperGeometry(ga) && |gs| == |found| && AllProperGeometries(gs)
    ensures |ts| == |found|
  {
    if found == [] then []
    else [ShapeContact(a, ga, found[0], gs[0], sqrt)] + ContactTests(a, ga, found[1..], gs[1..], sqrt)
  }

  /** The k-th test is the contact of the body with the k-th found shape. */
  lemma {:induction false} ContactTestAt(a: Shapes.Shape?, ga: Shapes.Geometry, found: seq<Shapes.Shape?>, gs: seq<Shapes.Geometry>, k: nat, sqrt: real -> real)
    requires IsSqrt(sqrt) && Shapes.ProperGeometry(ga) && |gs| == |found| && AllProperGeometries(gs) && k < |found|
    ensures ContactTests(a, ga, found, gs, sqrt)[k] == ShapeContact(a, ga, found[k], gs[k], sqrt)
  {
    if k > 0 {
      ContactTestAt(a, ga, found[1..], gs[1..], k - 1, sqrt);
    }
  }

  /** The pushes of the `intersectionQuery` loop: stop once the buffer is
      full, push each test result that is not empty. The buffer keeps what
      it held, never passes twelve contacts, and gains only non-empty test
      results. */
  function Pushed(acc: seq<ExIntersectionInfo>, ts: seq<ExIntersectionInfo>): (r: seq<ExIntersectionInfo>)
    ensures |acc| <= |r| && r[..|acc|] == acc
    ensures |acc| <= MaxCollisions ==> |r| <= MaxCollisions
    ensures forall k :: |acc| <= k < |r| ==> !r[k].empty && r[k] in ts
    decreases |ts|
  {
    if ts == [] || |acc| >= MaxCollisions then acc
    else
      var r := Pushed(if ts[0].empty then acc else acc + [ts[0]], ts[1..]);
      assert forall k :: |acc| <= k < |r| && r[k] in ts[1..] ==> r[k] in ts;
      r
  }

  /** The loop that ends with room in the buffer pushed every non-empty
      test result. */
  lemma {:induction false} PushedComplete(acc: seq<ExIntersectionInfo>, ts: seq<ExIntersectionInfo>)
    requires |Pushed(acc, ts)| < MaxCollisions
    ensures forall e :: e in ts && !e.empty ==> e in Pushed(acc, ts)
    decreases |ts|
  {
    if ts != [] {
      var acc' := if ts[0].empty then acc else acc + [ts[0]];
      var r := Pushed(acc', ts[1..]);
      PushedComplete(acc', ts[1..]);
      if !ts[0].empty {
        assert r[|acc|] == ts[0];
      }
      assert forall e :: e in ts ==> e == ts[0] || e in ts[1..];
    }
  }

  /** One test of the `intersectionQuery` loop: the body against the i-th
      found shape. */
  method TestAt(a: Shapes.Shape, found: seq<Shapes.Shape?>, i: nat, ghost ga: Shapes.Geometry, ghost gs: seq<Shapes.Geometry>, sqrt: real -> real) returns (ei: ExIntersectionInfo)
    requires IsSqrt(sqrt) && Shapes.ProperGeometry(ga) && |gs| == |found| && AllProperGeometries(gs) && i < |found|
    requires a.Geometry() == ga && found[i] != null && found[i].Geometry() == gs[i]
    ensures ei == ContactTests(a, ga, found, gs, sqrt)[i]
  {
    ContactTestAt(a, ga, found, gs, i, sqrt);
    ei := TestIntersection(a, found[i], sqrt);
  }

  // ---------------------------------------------------------------------
  // Intersection queries

  /** Every shape of a range query's buffer is there and of proper
      geometry, so the body can be tested against each. */
  ghost predicate FoundProper(found: seq<Shapes.Shape?>)
    reads found
  {
    NonNull(found) && AllProperGeometries(GeometriesOf(found))
  }

  /** A list of shapes each of which is there and proper can be tested
      against. */
  lemma FoundProperFrom(found: seq<Shapes.Shape?>)
    requires forall x :: x in found ==> x != null && x.Proper()
    ensures FoundProper(found)
  {
    forall k | 0 <= k < |found|
      ensures found[k] != null && Shapes.ProperGeometry(found[k].Geometry())
    {
      assert found[k] in found;
    }
  }

  /** One contact loop of `intersectionQuery`: the pushes of the body's
      contacts with the shapes a range query found. */
  ghost function FoundContacts(acc: seq<ExIntersectionInfo>, a: Shapes.Shape, found: seq<Shapes.Shape?>, sqrt: real -> real): seq<ExIntersectionInfo>
    reads a, found
    requires IsSqrt(sqrt) && Shapes.ProperGeometry(a.Geometry()) && FoundProper(found)
  {
    Pushed(acc, ContactTests(a, a.Geometry(), found, GeometriesOf(found), sqrt))
  }

  /** What `intersectionQuery` holds after its dynamic half. */
  ghost function ContactsAfterDynamic(acc: seq<ExIntersectionInfo>, a: Shapes.Shape, dfound: seq<Shapes.Shape?>, f: StaticDynamicMask, sqrt: real -> real): seq<ExIntersectionInfo>
    reads a, dfound
    requires IsSqrt(sqrt) && Shapes.ProperGeometry(a.Geometry()) && (VisitsDynamic(f) ==> FoundProper(dfound))
  {
    if |acc| < MaxCollisions && VisitsDynamic(f) then FoundContacts(acc, a, dfound, sqrt) else acc
  }

  /** Whether `intersectionQuery` goes on to its static half, which is
      where it rebuilds the static tree. */
  ghost predicate ContactsReachStatic(acc: seq<ExIntersectionInfo>, a: Shapes.Shape, dfound: seq<Shapes.Shape?>, f: StaticDynamicMask, sqrt: real -> real)
    reads a, dfound
    requires IsSqrt(sqrt) && Shapes.ProperGeometry(a.Geometry()) && (VisitsDynamic(f) ==> FoundProper(dfound))
  {
    |acc| < MaxCollisions && VisitsStatic(f) && |ContactsAfterDynamic(acc, a, dfound, f, sqrt)| < MaxCollisions
  }

  /** `intersectionQuery(result, bodyA, sdFilter)`, given what its dynamic
      and its static range queries find: nothing on a full buffer, then the
      contacts with the dynamic shapes found, then, with room left, the
      contacts with the static shapes found. */
  ghost function IntersectionResult(acc: seq<ExIntersectionInfo>, a: Shapes.Shape, dfound: seq<Shapes.Shape?>, sfound: seq<Shapes.Shape?>,
                                    f: StaticDynamicMask, sqrt: real -> real): seq<ExIntersectionInfo>
    reads a, dfound, sfound
    requires IsSqrt(sqrt) && Shapes.ProperGeometry(a.Geometry()) && (VisitsDynamic(f) ==> FoundProper(dfound))
    requires ContactsReachStatic(acc, a, dfound, f, sqrt) ==> FoundProper(sfound)
  {
    var d := ContactsAfterDynamic(acc, a, dfound, f, sqrt);
    if ContactsReachStatic(acc, a, dfound, f, sqrt) then FoundContacts(d, a, sfound, sqrt) else d
  }

  /** A contact loop keeps what the buffer held, never passes twelve
      contacts, and pushes only non-empty contacts of the body with shapes
      it was given. */
  lemma FoundContactsSound(acc: seq<ExIntersectionInfo>, a: Shapes.Shape, found: seq<Shapes.Shape?>, sqrt: real -> real)
    requires IsSqrt(sqrt) && Shapes.ProperGeometry(a.Geometry()) && FoundProper(found)
    ensures var res := FoundContacts(acc, a, found, sqrt);
            |acc| <= |res| && res[..|acc|] == acc && (|acc| <= MaxCollisions ==> |res| <= MaxCollisions) &&
            forall k :: |acc| <= k < |res| ==> !res[k].empty && res[k].bodyA == a && res[k].bodyB in found
  {
    var ts := ContactTests(a, a.Geometry(), found, GeometriesOf(found), sqrt);
    forall t | t in ts
      ensures t.bodyA == a && t.bodyB in found
    {
      var i :| 0 <= i < |ts| && ts[i] == t;
      ContactTestAt(a, a.Geometry(), found, GeometriesOf(found), i, sqrt);
    }
  }

  /** A contact loop that ends with room in the buffer pushed the body's
      contact with every found shape it touches. */
  lemma FoundContactsComplete(acc: seq<ExIntersectionInfo>, a: Shapes.Shape, found: seq<Shapes.Shape?>, sqrt: real -> real)
    requires IsSqrt(sqrt) && Shapes.ProperGeometry(a.Geometry()) && FoundProper(found)
    requires |FoundContacts(acc, a, found, sqrt)| < MaxCollisions
    ensures forall k :: 0 <= k < |found| && !ShapeContact(a, a.Geometry(), found[k], found[k].Geometry(), sqrt).empty ==>
              ShapeContact(a, a.Geometry(), found[k], found[k].Geometry(), sqrt) in FoundContacts(acc, a, found, sqrt)
  {
    var gs := GeometriesOf(found);
    var ts := ContactTests(a, a.Geometry(), found, gs, sqrt);
    PushedComplete(acc, ts);
    forall k | 0 <= k < |found|
      ensures ShapeContact(a, a.Geometry(), found[k], found[k].Geometry(), sqrt) in ts
    {
      ContactTestAt(a, a.Geometry(), found, gs, k, sqrt);
    }
  }

  /** `intersectionQuery` keeps what the buffer held, never passes twelve
      contacts, and adds only non-empty contacts of the body, each with a
      shape the dynamic query found (when the filter allows the dynamic
      half) or one the static query found (when the query reached the
      static half). */
  lemma IntersectionResultSound(acc: seq<ExIntersectionInfo>, a: Shapes.Shape, dfound: seq<Shapes.Shape?>, sfound: seq<Shapes.Shape?>,
                                f: StaticDynamicMask, sqrt: real -> real)
    requires IsSqrt(sqrt) && Shapes.ProperGeometry(a.Geometry()) && (VisitsDynamic(f) ==> FoundProper(dfound))
    requires ContactsReachStatic(acc, a, dfound, f, sqrt) ==> FoundProper(sfound)
    ensures var res := IntersectionResult(acc, a, dfound, sfound, f, sqrt);
            |acc| <= |res| && res[..|acc|] == acc && (|acc| <= MaxCollisions ==> |res| <= MaxCollisions) &&
            forall k :: |acc| <= k < |res| ==>
              !res[k].empty && res[k].bodyA == a &&
              ((VisitsDynamic(f) && res[k].bodyB in dfound) || (ContactsReachStatic(acc, a, dfound, f, sqrt) && res[k].bodyB in sfound))
  {
    var d := ContactsAfterDynamic(acc, a, dfound, f, sqrt);
    var res := IntersectionResult(acc, a, dfound, sfound, f, sqrt);
    if |acc| < MaxCollisions && VisitsDynamic(f) {
      FoundContactsSound(acc, a, dfound, sqrt);
    }
    if ContactsReachStatic(acc, a, dfound, f, sqrt) {
      FoundContactsSound(d, a, sfound, sqrt);
      assert res[..|d|] == d;
      forall k | |acc| <= k < |res|
        ensures !res[k].empty && res[k].bodyA == a &&
                ((VisitsDynamic(f) && res[k].bodyB in dfound) || (ContactsReachStatic(acc, a, dfound, f, sqrt) && res[k].bodyB in sfound))
      {
        if k < |d| {
          assert res[k] == d[k];
        }
      }
    }
  }

  /** `intersectionQuery` misses nothing when it ends with room in the
      buffer: the body's contact with every shape a visited half found
      that it touches is reported. */
  lemma IntersectionResultComplete(acc: seq<ExIntersectionInfo>, a: Shapes.Shape, dfound: seq<Shapes.Shape?>, sfound: seq<Shapes.Shape?>,
                                   f: StaticDynamicMask, sqrt: real -> real)
    requires IsSqrt(sqrt) && Shapes.ProperGeometry(a.Geometry()) && (VisitsDynamic(f) ==> FoundProper(dfound))
    requires ContactsReachStatic(acc, a, dfound, f, sqrt) ==> FoundProper(sfound)
    requires |IntersectionResult(acc, a, dfound, sfound, f, sqrt)| < MaxCollisions
    ensures VisitsDynamic(f) ==>
              forall k :: 0 <= k < |dfound| && !ShapeContact(a, a.Geometry(), dfound[k], dfound[k].Geometry(), sqrt).empty ==>
                ShapeContact(a, a.Geometry(), dfound[k], dfound[k].Geometry(), sqrt) in IntersectionResult(acc, a, dfound, sfound, f, sqrt)
    ensures VisitsStatic(f) ==>
              forall k :: 0 <= k < |sfound| && !ShapeContact(a, a.Geometry(), sfound[k], sfound[k].Geometry(), sqrt).empty ==>
                ShapeContact(a, a.Geometry(), sfound[k], sfound[k].Geometry(), sqrt) in IntersectionResult(acc, a, dfound, sfound, f, sqrt)
  {
    var d := ContactsAfterDynamic(acc, a, dfound, f, sqrt);
    var res := IntersectionResult(acc, a, dfound, sfound, f, sqrt);
    if ContactsReachStatic(acc, a, dfound, f, sqrt) {
      FoundContactsSound(d, a, sfound, sqrt);
      FoundContactsComplete(d, a, sfound, sqrt);
      assert res[..|d|] == d;
    }
    assert |d| <= |res| && res[..|d|] == d;
    if VisitsDynamic(f) {
      FoundContactsSound(acc, a, dfound, sqrt);
      FoundContactsComplete(acc, a, dfound, sqrt);
      forall e | e in d
        ensures e in res
      {
        var i :| 0 <= i < |d| && d[i] == e;
        assert res[i] == e;
      }
    }
  }

  /** One more test pushes its contact when it is not empty and the buffer
      has room. */
  lemma PushedStep(acc: seq<ExIntersectionInfo>, ts: seq<ExIntersectionInfo>, i: nat)
    requires i < |ts| && |acc| < MaxCollisions
    ensures Pushed(acc, ts[i..]) == Pushed(if ts[i].empty then acc else acc + [ts[i]], ts[i + 1..])
  {
    assert ts[i..][0] == ts[i] && ts[i..][1..] == ts[i + 1..];
  }

  /** The loop of `intersectionQuery` over a range query's buffer, pushing
      into the contact buffer. */
  method PushContacts(result: IntersectionQueryResult, a: Shapes.Shape, rq: RangeQueryResult, sqrt: real -> real)
    requires IsSqrt(sqrt) && result.Valid() && rq.Valid() && Shapes.ProperGeometry(a.Geometry())
    requires FoundProper(rq.Contents())
    modifies result, result.intersections
    ensures result.Valid() && result.intersections == old(result.intersections)
    ensures result.Contents() == FoundContacts(old(result.Contents()), a, rq.Contents(), sqrt)
  {
    var found := rq.shapes[..rq.count];
    ghost var ga := a.Geometry();
    ghost var gs := GeometriesOf(found);
    ghost var ts := ContactTests(a, ga, found, gs, sqrt);
    var i := 0;
    while i < |found|
      invariant 0 <= i <= |found| && result.Valid() && result.intersections == old(result.intersections)
      invariant Pushed(old(result.Contents()), ts) == Pushed(result.Contents(), ts[i..])
    {
      if result.IsFull() {
        break;
      }
      var ei := TestAt(a, found, i, ga, gs, sqrt);
      PushedStep(result.Contents(), ts, i);
      if !ei.empty {
        result.PushInfo(ei);
      }
      i := i + 1;
    }
  }
}
