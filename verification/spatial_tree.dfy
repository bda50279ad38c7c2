/** `SpatialTree` (`SpatialTree_implementation` behind it): the static shapes
    in a set whose tree is rebuilt lazily after a change, and the dynamic
    shapes in a grid of cells with per-column and per-row counts, updated in
    place. */
module SpatialTrees {
  import opened Vectors
  import opened Lines
  import opened Options
  import Rects
  import Polygons
  import Circles
  import Matrices
  import Shapes
  import Intersections
  import Overlaps
  import StaticTrees
  import StaticRayCasts
  import opened QueryResults
  import opened DynamicTables
  import opened DynamicIndex
  import DynamicGrid
  import opened SpatialQueries
  import opened Links

  /** A shape the tree can hold: circles and rects keep their invariants and
      a polygon has a point, so that the bounds are well formed. */
  predicate Placeable(s: Shapes.Shape)
    reads s
  {
    s.Valid() && (s.kind == Shapes.PolygonShape ==> |s.polygon.points| > 0)
  }

  lemma PlaceableBounds(s: Shapes.Shape)
    requires Placeable(s)
    ensures Rects.WellFormed(s.Bounds())
  {
    if s.kind == Shapes.CircleShape {
      assert Rects.WellFormed(Circles.Bounds(s.circle));
    }
  }

  /** What the tree records of a shape: the shape with its bounds, type mask
      and geometry as they are now. */
  function EntryOf(s: Shapes.Shape): (e: StaticTrees.Entry)
    reads s
    requires Placeable(s)
    ensures e.shape == s && Rects.WellFormed(e.bounds)
  {
    PlaceableBounds(s);
    StaticTrees.Entry(s, s.Bounds(), s.typeMask, s.Geometry())
  }

  /** A shape with a proper geometry has a proper entry. */
  lemma ProperEntryOf(s: Shapes.Shape)
    requires Placeable(s) && s.Proper()
    ensures StaticTrees.ProperEntry(EntryOf(s))
  {
  }

  /** No shape twice. */
  predicate NoDuplicates(ss: seq<Shapes.Shape>)
  {
    forall i, j :: 0 <= i < j < |ss| ==> ss[i] != ss[j]
  }

  /** The list without the given shape (what erasing it from a set does). */
  function Without(ss: seq<Shapes.Shape>, s: Shapes.Shape): (r: seq<Shapes.Shape>)
    ensures forall x :: x in r ==> x in ss && x != s
    ensures forall x :: x in ss && x != s ==> x in r
    ensures NoDuplicates(ss) ==> NoDuplicates(r)
  {
    if ss == [] then []
    else
      var rest := Without(ss[1..], s);
      if ss[0] == s then rest
      else
        assert NoDuplicates(ss) ==> NoDuplicates(ss[1..]) && ss[0] !in ss[1..];
        [ss[0]] + rest
  }

  /** The entries of a list of shapes, as they are now. */
  function EntriesOf(ss: seq<Shapes.Shape>): (es: seq<StaticTrees.Entry>)
    reads set s | s in ss
    requires forall s :: s in ss ==> Placeable(s)
    ensures |es| == |ss| && StaticTrees.AllWellFormed(es)
    ensures forall i :: 0 <= i < |ss| ==> es[i] == EntryOf(ss[i])
  {
    if ss == [] then [] else [EntryOf(ss[0])] + EntriesOf(ss[1..])
  }


  /** The entries of a list grown by one shape. */
  lemma EntriesOfAppend(ss: seq<Shapes.Shape>, s: Shapes.Shape)
    requires forall x :: x in ss ==> Placeable(x)
    requires Placeable(s)
    ensures EntriesOf(ss + [s]) == EntriesOf(ss) + [EntryOf(s)]
  {
  }

  /** The static half (`m_staticShapes`, `m_staticDirty`, `m_staticTree`):
      the static shapes, whether the tree must be rebuilt, and the tree. */
  datatype StaticIndex = StaticIndex(shapes: seq<Shapes.Shape>, dirty: bool, tree: Option<StaticTrees.Node>)

  /** Each static shape is held once, the entries are well formed, and a
      clean tree is the partition of the entries of the static shapes, in
      order. */
  ghost predicate StaticHolds(st: StaticIndex, entries: seq<StaticTrees.Entry>)
  {
    NoDuplicates(st.shapes) && StaticTrees.AllWellFormed(entries) &&
    (!st.dirty ==> st.tree == StaticTrees.BuildTree(entries) && |entries| == |st.shapes| &&
                   forall i :: 0 <= i < |st.shapes| ==> entries[i].shape == st.shapes[i])
  }

  /** The table of the dynamic grid with its per-column and per-row counts
      (`m_dynamicTable`, `m_xrange`, `m_yrange`). */
  datatype Grid = Grid(table: Table, xrange: Counts, yrange: Counts)

  /** The grid after `addToDynamicTable` of an entry. */
  function Added(g: Grid, e: StaticTrees.Entry): Grid
  {
    var lo, hi := LowCell(e.bounds), HighCell(e.bounds);
    Grid(AddCells(g.table, e, lo, hi, hi.x + 1), BumpKeys(g.xrange, lo.x, hi.x + 1), BumpKeys(g.yrange, lo.y, hi.y + 1))
  }

  /** The grid after `removeFromDynamicTable` of a shape with the given
      bounds. */
  function Erased(g: Grid, s: Shapes.Shape, b: Rects.Rect): Grid
  {
    var lo, hi := LowCell(b), HighCell(b);
    Grid(EraseCells(g.table, s, lo, hi, hi.x + 1), DropKeys(g.xrange, lo.x, hi.x + 1), DropKeys(g.yrange, lo.y, hi.y + 1))
  }

  /** Removing a dynamic shape just added, with the bounds it was added
      with, gives back the grid it was added to. */
  lemma ErasedUndoesAdded(g: Grid, dyn: Registry, e: StaticTrees.Entry)
    requires GridHolds(g.table, g.xrange, g.yrange, dyn) && e.shape !in dyn
    ensures Erased(Added(g, e), e.shape, e.bounds) == g
  {
    RemoveUndoesAdd(g.table, g.xrange, g.yrange, dyn, e);
  }

  /** The entries of the static shapes, as they are now, copied into a
      list in order (the copy `rebuildStaticTree` partitions). */
  method CollectEntries(ss: seq<Shapes.Shape>) returns (es: seq<StaticTrees.Entry>)
    requires forall s :: s in ss ==> Placeable(s)
    ensures es == EntriesOf(ss)
  {
    es := [];
    var i := 0;
    while i < |ss|
      invariant 0 <= i <= |ss|
      invariant es == EntriesOf(ss[..i])
    {
      assert ss[..i + 1] == ss[..i] + [ss[i]];
      EntriesOfAppend(ss[..i], ss[i]);
      es := es + [EntryOf(ss[i])];
      i := i + 1;
    }
    assert ss[..i] == ss;
  }

  /** `addToDynamicTable` on the grid: the entry added over its cell range,
      which keeps the grid invariant with the shape registered. */
  method AddToGrid(g: Grid, ghost dyn: Registry, e: StaticTrees.Entry) returns (g': Grid)
    requires GridHolds(g.table, g.xrange, g.yrange, dyn) && e.shape !in dyn && Rects.WellFormed(e.bounds) && |dyn| < SizeMax
    ensures g' == Added(g, e) && GridHolds(g'.table, g'.xrange, g'.yrange, dyn[e.shape := e])
  {
    AddKeepsGrid(g.table, g.xrange, g.yrange, dyn, e);
    var t, xs, ys := DynamicGrid.AddToTable(g.table, g.xrange, g.yrange, e);
    g' := Grid(t, xs, ys);
  }

  /** `removeFromDynamicTable` on the grid, with the bounds the shape was
      added with: its entry erased over that cell range, which keeps the
      grid invariant with the shape no longer registered. */
  method EraseFromGrid(g: Grid, ghost dyn: Registry, s: Shapes.Shape, b: Rects.Rect) returns (g': Grid)
    requires GridHolds(g.table, g.xrange, g.yrange, dyn) && s in dyn && b == dyn[s].bounds
    ensures g' == Erased(g, s, b) && GridHolds(g'.table, g'.xrange, g'.yrange, dyn - {s})
  {
    EraseKeepsGrid(g.table, g.xrange, g.yrange, dyn, s);
    var t, xs, ys := DynamicGrid.EraseFromTable(g.table, g.xrange, g.yrange, s, b);
    g' := Grid(t, xs, ys);
  }

  /** The entries of shapes with a proper geometry are proper. */
  lemma EntriesOfProper(ss: seq<Shapes.Shape>)
    requires forall s :: s in ss ==> Placeable(s) && s.Proper()
    ensures forall e :: e in EntriesOf(ss) ==> StaticTrees.ProperEntry(e)
  {
    forall e | e in EntriesOf(ss)
      ensures StaticTrees.ProperEntry(e)
    {
      var k :| 0 <= k < |ss| && EntriesOf(ss)[k] == e;
      ProperEntryOf(ss[k]);
    }
  }


  /** A tree built from the entries of duplicate-free static shapes is a
      clean static half. */
  lemma RebuiltHolds(ss: seq<Shapes.Shape>, es: seq<StaticTrees.Entry>)
    requires NoDuplicates(ss) && (forall s :: s in ss ==> Placeable(s)) && es == EntriesOf(ss)
    ensures StaticHolds(StaticIndex(ss, false, StaticTrees.BuildTree(es)), es)
  {
  }

  // ---------------------------------------------------------------------
  // Queries over the whole tree, on values

  /** What `rangeQuery` has after its dynamic half. */
  function DynamicRangeHalf(acc: seq<Shapes.Shape?>, g: Grid, r: Rects.Rect, mask: bv64, f: StaticDynamicMask): seq<Shapes.Shape?>
  {
    if VisitsDynamic(f) then DynamicRange(g.table, g.xrange, g.yrange, acc, r, mask, null) else acc
  }

  /** Whether `rangeQuery` reaches its static half (and so rebuilds the
      static tree): the filter allows it and the buffer has room before and
      after the dynamic half. */
  predicate RangeReachesStatic(acc: seq<Shapes.Shape?>, g: Grid, r: Rects.Rect, mask: bv64, f: StaticDynamicMask)
  {
    |acc| < MaxCollisions && VisitsStatic(f) && |DynamicRangeHalf(acc, g, r, mask, f)| < MaxCollisions
  }

  /** What `pickQuery` has after its dynamic half. */
  function DynamicPickHalf(acc: seq<Shapes.Shape?>, g: Grid, pt: Vec2, mask: bv64, f: StaticDynamicMask, sqrt: real -> real): seq<Shapes.Shape?>
    requires IsSqrt(sqrt)
  {
    if VisitsDynamic(f) then DynamicPick(g.table, g.xrange, g.yrange, acc, pt, mask, sqrt) else acc
  }

  /** Whether `pickQuery` reaches its static half. */
  predicate PickReachesStatic(acc: seq<Shapes.Shape?>, g: Grid, pt: Vec2, mask: bv64, f: StaticDynamicMask, sqrt: real -> real)
    requires IsSqrt(sqrt)
  {
    |acc| < MaxCollisions && VisitsStatic(f) && |DynamicPickHalf(acc, g, pt, mask, f, sqrt)| < MaxCollisions
  }

  /** `rangeQuery` on a tree whose static half is clean whenever the query
      reaches it keeps what the buffer held, never passes twelve shapes, and
      adds only matching shapes of the halves the filter allows: registered
      dynamic shapes, or shapes of the entries the static tree was built
      from. */
  lemma RangeQuerySound(acc: seq<Shapes.Shape?>, g: Grid, dyn: Registry, st: StaticIndex, es: seq<StaticTrees.Entry>,
                        r: Rects.Rect, mask: bv64, f: StaticDynamicMask, sqrt: real -> real)
    requires IsSqrt(sqrt) && GridHolds(g.table, g.xrange, g.yrange, dyn) && StaticHolds(st, es)
    requires RangeReachesStatic(acc, g, r, mask, f) ==> !st.dirty
    ensures var res := RangeResult(acc, g.table, g.xrange, g.yrange, st.tree, r, mask, f, sqrt);
            |acc| <= |res| && res[..|acc|] == acc &&
            (|acc| <= MaxCollisions ==> |res| <= MaxCollisions) &&
            forall k :: |acc| <= k < |res| ==> RangeFound(dyn, es, res[k], r, mask, f, sqrt)
  {
    RangeResultSound(acc, g.table, g.xrange, g.yrange, dyn, es, r, mask, f, sqrt);
    if st.dirty {
      assert RangeResult(acc, g.table, g.xrange, g.yrange, st.tree, r, mask, f, sqrt)
          == RangeResult(acc, g.table, g.xrange, g.yrange, StaticTrees.BuildTree(es), r, mask, f, sqrt);
    }
  }

  /** `rangeQuery` that ends with room in the buffer missed nothing: every
      matching registered dynamic shape and every matching entry of the
      static tree, for the halves the filter allows. */
  lemma RangeQueryComplete(acc: seq<Shapes.Shape?>, g: Grid, dyn: Registry, st: StaticIndex, es: seq<StaticTrees.Entry>,
                           r: Rects.Rect, mask: bv64, f: StaticDynamicMask, sqrt: real -> real)
    requires IsSqrt(sqrt) && GridHolds(g.table, g.xrange, g.yrange, dyn) && StaticHolds(st, es) && Rects.WellFormed(r)
    requires RangeReachesStatic(acc, g, r, mask, f) ==> !st.dirty
    requires |RangeResult(acc, g.table, g.xrange, g.yrange, st.tree, r, mask, f, sqrt)| < MaxCollisions
    ensures VisitsDynamic(f) ==>
              forall s :: s in dyn && StaticTrees.RangeMatches(r, mask, null, dyn[s]) ==> s in RangeResult(acc, g.table, g.xrange, g.yrange, st.tree, r, mask, f, sqrt)
    ensures VisitsStatic(f) ==>
              forall e :: e in es && StaticTrees.RangeMatches(r, mask, null, e) ==> e.shape in RangeResult(acc, g.table, g.xrange, g.yrange, st.tree, r, mask, f, sqrt)
  {
    RangeResultSound(acc, g.table, g.xrange, g.yrange, dyn, es, r, mask, f, sqrt);
    DynamicRangeSound(g.table, g.xrange, g.yrange, dyn, acc, r, mask, null);
    if st.dirty {
      assert RangeResult(acc, g.table, g.xrange, g.yrange, st.tree, r, mask, f, sqrt)
          == RangeResult(acc, g.table, g.xrange, g.yrange, StaticTrees.BuildTree(es), r, mask, f, sqrt);
    }
    RangeResultComplete(acc, g.table, g.xrange, g.yrange, dyn, es, r, mask, f, sqrt);
  }

  /** `pickQuery` on a tree whose static half is clean whenever the query
      reaches it: the buffer's contents are kept, at most twelve shapes, and
      only shapes of the allowed halves that contain the point. */
  lemma PickQuerySound(acc: seq<Shapes.Shape?>, g: Grid, dyn: Registry, st: StaticIndex, es: seq<StaticTrees.Entry>,
                       pt: Vec2, mask: bv64, f: StaticDynamicMask, sqrt: real -> real)
    requires IsSqrt(sqrt) && GridHolds(g.table, g.xrange, g.yrange, dyn) && StaticHolds(st, es)
    requires PickReachesStatic(acc, g, pt, mask, f, sqrt) ==> !st.dirty
    ensures var res := PickResult(acc, g.table, g.xrange, g.yrange, st.tree, pt, mask, f, sqrt);
            |acc| <= |res| && res[..|acc|] == acc &&
            (|acc| <= MaxCollisions ==> |res| <= MaxCollisions) &&
            forall k :: |acc| <= k < |res| ==> PickFound(dyn, es, res[k], pt, mask, f, sqrt)
  {
    PickResultSound(acc, g.table, g.xrange, g.yrange, dyn, es, pt, mask, f, sqrt);
    if st.dirty {
      assert PickResult(acc, g.table, g.xrange, g.yrange, st.tree, pt, mask, f, sqrt)
          == PickResult(acc, g.table, g.xrange, g.yrange, StaticTrees.BuildTree(es), pt, mask, f, sqrt);
    }
  }

  /** `pickQuery` that ends with room in the buffer missed no shape of an
      allowed half that contains the point. */
  lemma PickQueryComplete(acc: seq<Shapes.Shape?>, g: Grid, dyn: Registry, st: StaticIndex, es: seq<StaticTrees.Entry>,
                          pt: Vec2, mask: bv64, f: StaticDynamicMask, sqrt: real -> real)
    requires IsSqrt(sqrt) && GridHolds(g.table, g.xrange, g.yrange, dyn) && StaticHolds(st, es)
    requires PickReachesStatic(acc, g, pt, mask, f, sqrt) ==> !st.dirty
    requires |PickResult(acc, g.table, g.xrange, g.yrange, st.tree, pt, mask, f, sqrt)| < MaxCollisions
    ensures VisitsDynamic(f) ==>
              forall s :: s in dyn && StaticTrees.PickMatches(pt, mask, dyn[s], sqrt) ==> s in PickResult(acc, g.table, g.xrange, g.yrange, st.tree, pt, mask, f, sqrt)
    ensures VisitsStatic(f) ==>
              forall e :: e in es && StaticTrees.PickMatches(pt, mask, e, sqrt) ==> e.shape in PickResult(acc, g.table, g.xrange, g.yrange, st.tree, pt, mask, f, sqrt)
  {
    PickResultSound(acc, g.table, g.xrange, g.yrange, dyn, es, pt, mask, f, sqrt);
    DynamicPickSound(g.table, g.xrange, g.yrange, dyn, acc, pt, mask, sqrt);
    if st.dirty {
      assert PickResult(acc, g.table, g.xrange, g.yrange, st.tree, pt, mask, f, sqrt)
          == PickResult(acc, g.table, g.xrange, g.yrange, StaticTrees.BuildTree(es), pt, mask, f, sqrt);
    }
    PickResultComplete(acc, g.table, g.xrange, g.yrange, dyn, es, pt, mask, f, sqrt);
  }

  /** A tree built from proper entries has proper leaves. */
  lemma LeavesProper(es: seq<StaticTrees.Entry>, n: StaticTrees.Node)
    requires StaticTrees.AllWellFormed(es) && StaticTrees.BuildTree(es) == Some(n)
    requires forall e :: e in es ==> StaticTrees.ProperEntry(e)
    ensures forall e :: e in StaticTrees.Leaves(n) ==> StaticTrees.ProperEntry(e)
  {
    forall e | e in StaticTrees.Leaves(n)
      ensures StaticTrees.ProperEntry(e)
    {
      assert e in multiset(StaticTrees.Leaves(n));
      assert e in multiset(es);
    }
  }

  /** The dynamic half of `pickQuery` as a step of its own: the grid's pick
      query when the filter allows it, else nothing. */
  method DynamicPickHalfAt(result: RangeQueryResult, g: Grid, ghost dyn: Registry, pt: Vec2, mask: bv64, f: StaticDynamicMask, sqrt: real -> real)
    requires IsSqrt(sqrt) && result.Valid()
    requires TableHolds(g.table, dyn) && forall s :: s in dyn ==> StaticTrees.ProperEntry(dyn[s])
    modifies result, result.shapes
    ensures result.Valid() && result.shapes == old(result.shapes)
    ensures result.Contents() == DynamicPickHalf(old(result.Contents()), g, pt, mask, f, sqrt)
  {
    if VisitsDynamic(f) {
      ListedProper(g.table, dyn, CellAddress(pt));
      DynamicGrid.DynamicPickAt(result, g.table, g.xrange, g.yrange, pt, mask, sqrt);
    }
  }

  /** The entries the grid lists in a cell are registered entries, so they
      are proper when every registered entry is. */
  lemma ListedProper(t: Table, dyn: Registry, c: Cell)
    requires TableHolds(t, dyn) && forall s :: s in dyn ==> StaticTrees.ProperEntry(dyn[s])
    ensures forall e :: e in Lookup(t, c) ==> StaticTrees.ProperEntry(e)
  {
    forall e | e in Lookup(t, c)
      ensures StaticTrees.ProperEntry(e)
    {
      assert Registered(dyn, e, c);
    }
  }

  /** A shape joining the static set keeps the static half's invariant:
      the set stays free of duplicates and the tree is marked dirty. */
  lemma StaticJoinHolds(st: StaticIndex, es: seq<StaticTrees.Entry>, s: Shapes.Shape)
    requires StaticHolds(st, es)
    ensures StaticHolds(StaticIndex(if s in st.shapes then st.shapes else st.shapes + [s], true, st.tree), es)
  {
  }

  /** A ray cast on a tree whose static half is clean whenever the cast
      reaches it: a hit comes from the static shapes the tree was built
      from, at the point where the ray meets one of them, or from the
      dynamic walk given the bound of the static hit. */
  lemma RayCastFrom(a: Ray, mask: bv64, f: StaticDynamicMask, st: StaticIndex, es: seq<StaticTrees.Entry>,
                    dynamicCast: Option<real> -> RayCastResult, sqrt: real -> real)
    requires IsSqrt(sqrt) && StaticHolds(st, es) && StaticRayCasts.AllProper(es)
    requires VisitsStatic(f) && !IsZero(a.direction) ==> !st.dirty
    requires VisitsStatic(f) && !IsZero(a.direction) && st.tree.Some? ==> StaticRayCasts.AllProper(StaticTrees.Leaves(st.tree.value))
    ensures var rs := if VisitsStatic(f) then StaticRayResult(a, mask, st.tree, sqrt) else NoHit;
            var rc := RayResult(a, mask, f, st.tree, dynamicCast, sqrt);
            !rc.empty ==>
              (VisitsStatic(f) && StaticRayCasts.HitFrom(es, rc, a, mask, sqrt)) ||
              (VisitsDynamic(f) && rc == dynamicCast(DynamicCap(rs, a)))
  {
    if VisitsStatic(f) && !IsZero(a.direction) {
      if st.tree.Some? {
        LeavesProper(es, st.tree.value);
      }
      RayResultFrom(a, mask, f, es, dynamicCast, sqrt);
    }
  }

  // ---------------------------------------------------------------------
  // Intersection queries, on values

  /** What the dynamic range query of `intersectionQuery` finds: the
      shapes of the grid whose bounds touch the body's bounds and whose type
      mask passes its collision mask, the body excluded. */
  function DynamicFound(g: Grid, b: Rects.Rect, mask: bv64, a: Shapes.Shape?): seq<Shapes.Shape?>
    requires Rects.WellFormed(b)
  {
    DynamicRange(g.table, g.xrange, g.yrange, [], b, mask, a)
  }

  /** What the static range query of `intersectionQuery` finds. */
  function StaticFound(st: StaticIndex, b: Rects.Rect, mask: bv64, a: Shapes.Shape?, sqrt: real -> real): seq<Shapes.Shape?>
    requires IsSqrt(sqrt)
  {
    StaticCollect([], st.tree, StaticTrees.RangeQuery(b, mask, a), sqrt)
  }

  /** The dynamic range query finds registered shapes only, never the
      excluded one, and so proper shapes when every registered one is. */
  lemma DynamicFoundProper(g: Grid, dyn: Registry, b: Rects.Rect, mask: bv64, a: Shapes.Shape?)
    requires TableHolds(g.table, dyn) && EntriesHold(dyn) && Rects.WellFormed(b)
    requires forall s :: s in dyn ==> s.Proper()
    ensures forall x :: x in DynamicFound(g, b, mask, a) ==> x in dyn && x != a
    ensures FoundProper(DynamicFound(g, b, mask, a))
  {
    DynamicFoundIn(g, dyn, b, mask, a);
    FoundProperFrom(DynamicFound(g, b, mask, a));
  }

  lemma DynamicFoundIn(g: Grid, dyn: Registry, b: Rects.Rect, mask: bv64, a: Shapes.Shape?)
    requires TableHolds(g.table, dyn) && EntriesHold(dyn) && Rects.WellFormed(b)
    ensures forall x :: x in DynamicFound(g, b, mask, a) ==> x in dyn && x != a
  {
    var found := DynamicFound(g, b, mask, a);
    DynamicRangeSound(g.table, g.xrange, g.yrange, dyn, [], b, mask, a);
    forall x | x in found
      ensures x in dyn && x != a
    {
      var k :| 0 <= k < |found| && found[k] == x;
    }
  }

  /** The static range query on a clean tree finds static shapes only,
      never the excluded one, and so proper shapes when every static shape
      is. */
  lemma StaticFoundProper(st: StaticIndex, es: seq<StaticTrees.Entry>, b: Rects.Rect, mask: bv64, a: Shapes.Shape?, sqrt: real -> real)
    requires IsSqrt(sqrt) && StaticHolds(st, es) && !st.dirty
    requires forall s :: s in st.shapes ==> s.Proper()
    ensures forall x :: x in StaticFound(st, b, mask, a, sqrt) ==> x in st.shapes && x != a
    ensures FoundProper(StaticFound(st, b, mask, a, sqrt))
  {
    StaticFoundIn(st, es, b, mask, a, sqrt);
    FoundProperFrom(StaticFound(st, b, mask, a, sqrt));
  }

  lemma StaticFoundIn(st: StaticIndex, es: seq<StaticTrees.Entry>, b: Rects.Rect, mask: bv64, a: Shapes.Shape?, sqrt: real -> real)
    requires IsSqrt(sqrt) && StaticHolds(st, es) && !st.dirty
    ensures forall x :: x in StaticFound(st, b, mask, a, sqrt) ==> x in st.shapes && x != a
  {
    var q := StaticTrees.RangeQuery(b, mask, a);
    var found := StaticFound(st, b, mask, a, sqrt);
    StaticCollectSound([], es, q, sqrt);
    forall x | x in found
      ensures x in st.shapes && x != a
    {
      var k :| 0 <= k < |found| && found[k] == x;
      assert StaticTrees.FoundIn(es, x, q, sqrt);
      var e :| e in es && e.shape == x && StaticTrees.Matches(q, e, sqrt);
      var i :| 0 <= i < |es| && es[i] == e;
      assert st.shapes[i] == x;
    }
  }

  /** `intersectionQuery` on the tree, for a body with bounds `b` and
      collision mask `mask`, adds only non-empty contacts of the body with
      other shapes: registered dynamic shapes when the filter allows the
      dynamic half, static shapes when it allows the static half. */
  lemma IntersectionQuerySound(acc: seq<ExIntersectionInfo>, g: Grid, dyn: Registry, st: StaticIndex, es: seq<StaticTrees.Entry>,
                               a: Shapes.Shape, b: Rects.Rect, mask: bv64, f: StaticDynamicMask, sqrt: real -> real)
    requires IsSqrt(sqrt) && TableHolds(g.table, dyn) && EntriesHold(dyn) && StaticHolds(st, es) && Rects.WellFormed(b)
    requires Shapes.ProperGeometry(a.Geometry()) && FoundProper(DynamicFound(g, b, mask, a))
    requires ContactsReachStatic(acc, a, DynamicFound(g, b, mask, a), f, sqrt) ==>
               !st.dirty && FoundProper(StaticFound(st, b, mask, a, sqrt))
    ensures var res := IntersectionResult(acc, a, DynamicFound(g, b, mask, a), StaticFound(st, b, mask, a, sqrt), f, sqrt);
            forall k :: |acc| <= k < |res| ==>
              !res[k].empty && res[k].bodyA == a && res[k].bodyB != a &&
              ((VisitsDynamic(f) && res[k].bodyB in dyn) || (VisitsStatic(f) && res[k].bodyB in st.shapes))
  {
    var dfound := DynamicFound(g, b, mask, a);
    var sfound := StaticFound(st, b, mask, a, sqrt);
    IntersectionResultSound(acc, a, dfound, sfound, f, sqrt);
    DynamicFoundIn(g, dyn, b, mask, a);
    if ContactsReachStatic(acc, a, dfound, f, sqrt) {
      StaticFoundIn(st, es, b, mask, a, sqrt);
    }
  }

  /** The dynamic half of `intersectionQuery`: nothing on a full buffer;
      otherwise, when the filter allows it, the contacts with what the grid
      finds (as the shapes were when the query began). */
  method DynamicIntersections(result: IntersectionQueryResult, a: Shapes.Shape, g: Grid, ghost dyn: Registry, f: StaticDynamicMask, sqrt: real -> real)
    requires IsSqrt(sqrt) && result.Valid() && Placeable(a) && Shapes.ProperGeometry(a.Geometry()) && Rects.WellFormed(a.Bounds())
    requires TableHolds(g.table, dyn) && EntriesHold(dyn) && forall s :: s in dyn ==> s.Proper()
    modifies result, result.intersections
    ensures result.Valid() && result.intersections == old(result.intersections)
    ensures old(FoundProper(DynamicFound(g, a.Bounds(), a.collisionMask, a)))
    ensures result.Contents() == old(ContactsAfterDynamic(result.Contents(), a, DynamicFound(g, a.Bounds(), a.collisionMask, a), f, sqrt))
  {
    DynamicFoundProper(g, dyn, a.Bounds(), a.collisionMask, a);
    if result.IsFull() || !VisitsDynamic(f) {
      return;
    }
    label pre:
    ghost var found := DynamicFound(g, a.Bounds(), a.collisionMask, a);
    DynamicContactsAt(result, a, g, dyn, sqrt);
    GeometriesKept@pre(found);
  }

  /** A range query over the grid into a fresh buffer, with the body's
      bounds and collision mask and the body excluded, then the contact
      loop over what it found. */
  method DynamicContactsAt(result: IntersectionQueryResult, a: Shapes.Shape, g: Grid, ghost dyn: Registry, sqrt: real -> real)
    requires IsSqrt(sqrt) && result.Valid() && Placeable(a) && Shapes.ProperGeometry(a.Geometry()) && Rects.WellFormed(a.Bounds())
    requires TableHolds(g.table, dyn) && EntriesHold(dyn) && forall s :: s in dyn ==> s.Proper()
    modifies result, result.intersections
    ensures result.Valid() && result.intersections == old(result.intersections)
    ensures FoundProper(DynamicFound(g, a.Bounds(), a.collisionMask, a))
    ensures result.Contents() == FoundContacts(old(result.Contents()), a, DynamicFound(g, a.Bounds(), a.collisionMask, a), sqrt)
  {
    var r := new RangeQueryResult();
    DynamicGrid.DynamicRangeAt(r, g.table, g.xrange, g.yrange, a.Bounds(), a.collisionMask, a);
    DynamicFoundProper(g, dyn, a.Bounds(), a.collisionMask, a);
    PushContacts(result, a, r, sqrt);
    DynamicFoundProper(g, dyn, a.Bounds(), a.collisionMask, a);
  }

  class SpatialTree {
    var statics: StaticIndex
    var grid: Grid
    /** The entries the static tree was last built from. */
    ghost var staticEntries: seq<StaticTrees.Entry>
    /** The dynamic shapes with the entries the grid holds for them. */
    ghost var dynamics: Registry

    /** The static half holds and the grid invariant holds. */
    ghost predicate Valid()
      reads this
    {
      StaticHolds(statics, staticEntries) && GridHolds(grid.table, grid.xrange, grid.yrange, dynamics)
    }

    /** The geometry of every entry held is proper (what the pick, ray-cast
        and intersection code needs). */
    ghost predicate EntriesProper()
      reads this
    {
      (forall e :: e in staticEntries ==> StaticTrees.ProperEntry(e)) &&
      (forall s :: s in dynamics ==> StaticTrees.ProperEntry(dynamics[s]))
    }

    /** Every static shape can be placed in the tree. */
    ghost predicate StaticPlaceable()
      reads this, set s | s in statics.shapes
    {
      forall s :: s in statics.shapes ==> Placeable(s)
    }

    /** Every static shape can be placed and has a proper geometry. */
    ghost predicate StaticShapesProper()
      reads this, set s | s in statics.shapes
    {
      forall s :: s in statics.shapes ==> Placeable(s) && s.Proper()
    }

    /** Every dynamic shape has a proper geometry. */
    ghost predicate DynamicShapesProper()
      reads this, dynamics.Keys
    {
      forall s :: s in dynamics ==> s.Proper()
    }

    /** `SpatialTree()`: no shapes, no tree, marked dirty, an empty grid. */
    constructor ()
      ensures Valid() && EntriesProper()
      ensures statics == StaticIndex([], true, None)
      ensures dynamics == map[] && grid == Grid(map[], map[], map[])
    {
      statics := StaticIndex([], true, None);
      staticEntries := [];
      grid := Grid(map[], map[], map[]);
      dynamics := map[];
      new;
      EmptyHolds();
      assert GridHolds(map[], map[], map[], map[]);
    }

    /** `addStaticNode(s)`: only for a shape without a parent; the shape
        joins the static set (a set: adding it again changes nothing),
        names this tree as its parent, is made static and the tree is
        marked dirty. */
    method AddStaticNode(s: Shapes.Shape)
      requires Valid() && LinkedTo(this, dynamics, statics.shapes) && s.parent == null
      modifies this`statics, s
      ensures Valid() && LinkedTo(this, dynamics, statics.shapes)
      ensures statics == StaticIndex(old(statics.shapes) + [s], true, old(statics.tree))
      ensures s.parent == this && !s.dynamic
      ensures s.kind == old(s.kind) && s.typeMask == old(s.typeMask) && s.collisionMask == old(s.collisionMask) && s.Geometry() == old(s.Geometry())
    {
      assert s !in statics.shapes && s !in dynamics;
      Attach(s, false);
      var ss := statics.shapes;
      LinkedStaticJoin(this, dynamics, ss, s);
      var st := StaticIndex(if s in ss then ss else ss + [s], true, statics.tree);
      StaticJoinHolds(statics, staticEntries, s);
      statics := st;
    }

    /** A shape held by neither half takes this tree as its parent, with
        the given `dynamic` flag; nothing registered changes. */
    method Attach(s: Shapes.Shape, dynamic: bool)
      requires LinkedTo(this, dynamics, statics.shapes) && s !in statics.shapes && s !in dynamics
      modifies s
      ensures LinkedTo(this, dynamics, statics.shapes) && s.parent == this && s.dynamic == dynamic
      ensures s.kind == old(s.kind) && s.typeMask == old(s.typeMask) && s.collisionMask == old(s.collisionMask)
      ensures s.circle == old(s.circle) && s.rect == old(s.rect) && s.polygon == old(s.polygon)
    {
      s.SetParent(this);
      s.SetDynamic(dynamic);
    }

    /** A shape held by neither half loses its parent and is made static;
        nothing registered changes. */
    method Detach(s: Shapes.Shape)
      requires LinkedTo(this, dynamics, statics.shapes) && s !in statics.shapes && s !in dynamics
      modifies s
      ensures LinkedTo(this, dynamics, statics.shapes) && s.parent == null && !s.dynamic
      ensures s.kind == old(s.kind) && s.typeMask == old(s.typeMask) && s.collisionMask == old(s.collisionMask)
      ensures s.circle == old(s.circle) && s.rect == old(s.rect) && s.polygon == old(s.polygon)
    {
      s.SetParent(null);
      s.SetDynamic(false);
    }

    /** `applyTransform` on a shape held by neither half; nothing registered
        changes. */
    method TransformDetached(s: Shapes.Shape, m: Matrices.Matrix3x3, sqrt: real -> real)
      requires IsSqrt(sqrt) && LinkedTo(this, dynamics, statics.shapes) && s !in statics.shapes && s !in dynamics && s.Valid()
      modifies s
      ensures LinkedTo(this, dynamics, statics.shapes) && s.Valid()
      ensures s.kind == old(s.kind) && s.typeMask == old(s.typeMask) && s.collisionMask == old(s.collisionMask)
      ensures s.dynamic == old(s.dynamic) && s.parent == old(s.parent)
      ensures s.circle == if s.kind == Shapes.CircleShape then Matrices.TransformedCircle(m, old(s.circle), sqrt) else old(s.circle)
      ensures s.rect == if s.kind == Shapes.RectShape then Matrices.TransformedRect(m, old(s.rect)) else old(s.rect)
      ensures s.polygon == if s.kind == Shapes.PolygonShape then Matrices.TransformedPolygon(m, old(s.polygon)) else old(s.polygon)
    {
      s.ApplyTransform(m, sqrt);
    }

    /** `removeStaticNode(s)`: only for a static shape of this tree; it
        leaves the static set (if it is there), loses its parent, stays
        static, and the tree is marked dirty. */
    method RemoveStaticNode(s: Shapes.Shape)
      requires Valid() && LinkedTo(this, dynamics, statics.shapes) && s.parent == this && !s.dynamic
      modifies this`statics, s
      ensures Valid() && LinkedTo(this, dynamics, statics.shapes)
      ensures statics == StaticIndex(Without(old(statics.shapes), s), true, old(statics.tree))
      ensures s.parent == null && !s.dynamic
      ensures s.kind == old(s.kind) && s.typeMask == old(s.typeMask) && s.collisionMask == old(s.collisionMask) && s.Geometry() == old(s.Geometry())
    {
      assert s !in dynamics;
      LinkedStaticLeave(this, dynamics, statics.shapes, Without(statics.shapes, s));
      statics := StaticIndex(Without(statics.shapes, s), true, statics.tree);
      Detach(s);
    }

    /** `rebuildStaticTree()`: nothing when clean; otherwise the tree is
        rebuilt. */
    method RebuildStaticTree()
      requires Valid() && StaticPlaceable()
      modifies this`statics, this`staticEntries
      ensures statics.shapes == old(statics.shapes)
      ensures Valid() && !statics.dirty
      ensures staticEntries == if old(statics.dirty) then old(EntriesOf(statics.shapes)) else old(staticEntries)
      ensures old(statics.dirty) ==> (statics.tree.None? <==> statics.shapes == [])
    {
      if statics.dirty {
        RefreshStaticTree();
      }
    }

    /** The dirty case of `rebuildStaticTree()`: the static shapes'
        entries, as the shapes are now, are copied into a list and
        partitioned, no tree for no shapes, and the tree is clean. */
    method RefreshStaticTree()
      requires StaticHolds(statics, staticEntries) && StaticPlaceable() && statics.dirty
      modifies this`statics, this`staticEntries
      ensures statics.shapes == old(statics.shapes)
      ensures StaticHolds(statics, staticEntries) && !statics.dirty
      ensures staticEntries == old(EntriesOf(statics.shapes))
      ensures statics.tree.None? <==> statics.shapes == []
    {
      var ss := statics.shapes;
      var shapes := CollectEntries(ss);
      RebuiltHolds(ss, shapes);
      statics := StaticIndex(ss, false, StaticTrees.BuildTree(shapes));
      staticEntries := shapes;
    }

    /** `addToDynamicTable(s)`, given the shape's entry as it is now: the
        entry goes into every cell of its bounds' cell range, the counts of
        those columns and rows go up by one, and the shape is registered. */
    method AddToDynamicTable(e: StaticTrees.Entry)
      requires Valid() && e.shape !in dynamics && Rects.WellFormed(e.bounds) && |dynamics| < SizeMax
      requires LinkedTo(this, dynamics, statics.shapes) && e.shape.parent == this && e.shape.dynamic
      modifies this`grid, this`dynamics
      ensures Valid() && LinkedTo(this, dynamics, statics.shapes)
      ensures dynamics == old(dynamics)[e.shape := e] && grid == Added(old(grid), e)
    {
      LinkedJoin(this, dynamics, statics.shapes, e.shape, e);
      Enter(e);
    }

    /** The table half of `addToDynamicTable`: the entry goes into the grid
        and the registry. */
    method Enter(e: StaticTrees.Entry)
      requires Valid() && e.shape !in dynamics && Rects.WellFormed(e.bounds) && |dynamics| < SizeMax
      modifies this`grid, this`dynamics
      ensures Valid()
      ensures dynamics == old(dynamics)[e.shape := e] && grid == Added(old(grid), e)
    {
      grid := AddToGrid(grid, dynamics, e);
      dynamics := dynamics[e.shape := e];
    }

    /** `removeFromDynamicTable(s)`, given the shape's bounds as they are
        now, which must be those it was added with: its entry leaves every
        cell of that cell range, the counts of those columns and rows go
        down by one (a count reaching zero is erased), and the shape is no
        longer registered. */
    method RemoveFromDynamicTable(s: Shapes.Shape, b: Rects.Rect)
      requires Valid() && s in dynamics && b == dynamics[s].bounds && LinkedTo(this, dynamics, statics.shapes)
      modifies this`grid, this`dynamics
      ensures Valid() && LinkedTo(this, dynamics, statics.shapes)
      ensures dynamics == old(dynamics) - {s} && grid == Erased(old(grid), s, b)
    {
      LinkedLeave(this, dynamics, statics.shapes, s);
      grid := EraseFromGrid(grid, dynamics, s, b);
      dynamics := dynamics - {s};
    }

    /** `addDynamicNode(s)`: only for a shape without a parent (so not
        registered yet); the shape goes into the grid, names this tree as
        its parent and is made dynamic. */
    method AddDynamicNode(s: Shapes.Shape)
      requires Valid() && LinkedTo(this, dynamics, statics.shapes) && s.parent == null && Placeable(s) && |dynamics| < SizeMax
      modifies this`grid, this`dynamics, s
      ensures Valid() && LinkedTo(this, dynamics, statics.shapes)
      ensures dynamics == old(dynamics)[s := old(EntryOf(s))] && grid == Added(old(grid), old(EntryOf(s)))
      ensures s.parent == this && s.dynamic
      ensures s.kind == old(s.kind) && s.typeMask == old(s.typeMask) && s.collisionMask == old(s.collisionMask) && s.Geometry() == old(s.Geometry())
    {
      var e := EntryOf(s);
      ghost var g := s.Geometry();
      assert s !in statics.shapes && s !in dynamics;
      Attach(s, true);
      assert s.Geometry() == g;
      AddToDynamicTable(e);
    }

    /** `removeDynamicNode(s)`: only for a dynamic shape of this tree whose
        bounds are still those it was registered with; it leaves the grid,
        loses its parent and is made static. */
    method RemoveDynamicNode(s: Shapes.Shape)
      requires Valid() && LinkedTo(this, dynamics, statics.shapes) && s.parent == this && s.dynamic
      requires s in dynamics && Placeable(s) && s.Bounds() == dynamics[s].bounds
      modifies this`grid, this`dynamics, s
      ensures Valid() && LinkedTo(this, dynamics, statics.shapes)
      ensures dynamics == old(dynamics) - {s} && grid == Erased(old(grid), s, old(s.Bounds()))
      ensures s.parent == null && !s.dynamic
      ensures s.kind == old(s.kind) && s.typeMask == old(s.typeMask) && s.collisionMask == old(s.collisionMask) && s.Geometry() == old(s.Geometry())
    {
      assert s !in statics.shapes;
      RemoveFromDynamicTable(s, s.Bounds());
      Detach(s);
    }

    /** `staticRangeQuery(result, r, mask, exclude)`: rebuild the static
        tree, then nothing without a tree, else the tree's range query. */
    method StaticRangeQuery(result: RangeQueryResult, r: Rects.Rect, mask: bv64, exclude: Shapes.Shape?, sqrt: real -> real)
      requires IsSqrt(sqrt) && Valid() && StaticPlaceable() && result.Valid()
      modifies this`statics, this`staticEntries, result, result.shapes
      ensures Valid() && !statics.dirty && statics.shapes == old(statics.shapes)
      ensures result.Valid() && result.shapes == old(result.shapes)
      ensures result.Contents() == StaticCollect(old(result.Contents()), statics.tree, StaticTrees.RangeQuery(r, mask, exclude), sqrt)
    {
      RebuildStaticTree();
      if statics.tree.Some? {
        StaticTrees.QueryAt(result, StaticTrees.RangeQuery(r, mask, exclude), statics.tree.value, sqrt);
      }
    }

    /** `staticPickQuery(result, pt, mask)`: rebuild the static tree, then
        nothing without a tree, else the tree's pick query. */
    method StaticPickQuery(result: RangeQueryResult, pt: Vec2, mask: bv64, sqrt: real -> real)
      requires IsSqrt(sqrt) && Valid() && EntriesProper() && StaticShapesProper() && result.Valid()
      modifies this`statics, this`staticEntries, result, result.shapes
      ensures Valid() && EntriesProper() && !statics.dirty && statics.shapes == old(statics.shapes)
      ensures result.Valid() && result.shapes == old(result.shapes)
      ensures result.Contents() == StaticCollect(old(result.Contents()), statics.tree, StaticTrees.PickQuery(pt, mask), sqrt)
    {
      ghost var es := if statics.dirty then EntriesOf(statics.shapes) else staticEntries;
      if statics.dirty {
        EntriesOfProper(statics.shapes);
      }
      RebuildStaticTree();
      assert staticEntries == es;
      if statics.tree.Some? {
        LeavesProper(staticEntries, statics.tree.value);
        StaticTrees.QueryAt(result, StaticTrees.PickQuery(pt, mask), statics.tree.value, sqrt);
      }
    }

    /** `rangeQuery(result, r, mask, sdFilter)`: nothing on a full buffer;
        the dynamic half, then the static half while the buffer has room.
        The static tree is rebuilt only when the static half is reached. */
    method RangeQuery(result: RangeQueryResult, r: Rects.Rect, mask: bv64, f: StaticDynamicMask, sqrt: real -> real)
      requires IsSqrt(sqrt) && Valid() && StaticPlaceable() && result.Valid() && Rects.WellFormed(r)
      modifies this`statics, this`staticEntries, result, result.shapes
      ensures Valid() && statics.shapes == old(statics.shapes)
      ensures RangeReachesStatic(old(result.Contents()), grid, r, mask, f) ==> !statics.dirty
      ensures result.Valid() && result.shapes == old(result.shapes)
      ensures result.Contents() == RangeResult(old(result.Contents()), grid.table, grid.xrange, grid.yrange, statics.tree, r, mask, f, sqrt)
    {
      FullIffTwelve(result);
      if result.IsFull() {
        return;
      }
      ghost var acc := result.Contents();
      if VisitsDynamic(f) {
        DynamicGrid.DynamicRangeAt(result, grid.table, grid.xrange, grid.yrange, r, mask, null);
      }
      ghost var d := result.Contents();
      assert d == DynamicRangeHalf(acc, grid, r, mask, f);
      FullIffTwelve(result);
      if VisitsStatic(f) && !result.IsFull() {
        StaticRangeQuery(result, r, mask, null, sqrt);
      }
      assert result.Contents() == if VisitsStatic(f) && |d| < MaxCollisions
                                  then StaticCollect(d, statics.tree, StaticTrees.RangeQuery(r, mask, null), sqrt) else d;
    }

    /** `pickQuery(result, pt, mask, sdFilter)`: the same order of halves,
        with the point. */
    method PickQuery(result: RangeQueryResult, pt: Vec2, mask: bv64, f: StaticDynamicMask, sqrt: real -> real)
      requires IsSqrt(sqrt) && Valid() && EntriesProper() && StaticShapesProper() && result.Valid()
      modifies this`statics, this`staticEntries, result, result.shapes
      ensures Valid() && EntriesProper() && statics.shapes == old(statics.shapes)
      ensures PickReachesStatic(old(result.Contents()), grid, pt, mask, f, sqrt) ==> !statics.dirty
      ensures result.Valid() && result.shapes == old(result.shapes)
      ensures result.Contents() == PickResult(old(result.Contents()), grid.table, grid.xrange, grid.yrange, statics.tree, pt, mask, f, sqrt)
    {
      FullIffTwelve(result);
      if result.IsFull() {
        return;
      }
      ghost var acc := result.Contents();
      DynamicPickHalfAt(result, grid, dynamics, pt, mask, f, sqrt);
      ghost var d := result.Contents();
      assert d == DynamicPickHalf(acc, grid, pt, mask, f, sqrt);
      StaticPickHalf(result, pt, mask, f, sqrt);
      assert result.Contents() == if VisitsStatic(f) && |d| < MaxCollisions
                                  then StaticCollect(d, statics.tree, StaticTrees.PickQuery(pt, mask), sqrt) else d;
    }

    /** The static half of `pickQuery`: the tree's pick query when the
        filter allows it and the buffer has room, nothing otherwise. */
    method StaticPickHalf(result: RangeQueryResult, pt: Vec2, mask: bv64, f: StaticDynamicMask, sqrt: real -> real)
      requires IsSqrt(sqrt) && Valid() && EntriesProper() && StaticShapesProper() && result.Valid()
      modifies this`statics, this`staticEntries, result, result.shapes
      ensures Valid() && EntriesProper() && statics.shapes == old(statics.shapes)
      ensures VisitsStatic(f) && |old(result.Contents())| < MaxCollisions ==> !statics.dirty
      ensures result.Valid() && result.shapes == old(result.shapes)
      ensures result.Contents() == if VisitsStatic(f) && |old(result.Contents())| < MaxCollisions
                                   then StaticCollect(old(result.Contents()), statics.tree, StaticTrees.PickQuery(pt, mask), sqrt)
                                   else old(result.Contents())
    {
      FullIffTwelve(result);
      if VisitsStatic(f) && !result.IsFull() {
        StaticPickQuery(result, pt, mask, sqrt);
      }
    }

    /** `removeNode(s)`: a dynamic shape leaves the grid, a static one the
        static set. */
    method RemoveNode(s: Shapes.Shape)
      requires Valid() && LinkedTo(this, dynamics, statics.shapes) && s.parent == this
      requires s.dynamic ==> s in dynamics && Placeable(s) && s.Bounds() == dynamics[s].bounds
      modifies this`statics, this`grid, this`dynamics, s
      ensures Valid() && LinkedTo(this, dynamics, statics.shapes)
      ensures s.parent == null && !s.dynamic
      ensures s.kind == old(s.kind) && s.typeMask == old(s.typeMask) && s.collisionMask == old(s.collisionMask) && s.Geometry() == old(s.Geometry())
      ensures old(s.dynamic) ==> dynamics == old(dynamics) - {s} && grid == Erased(old(grid), s, old(s.Bounds())) && statics == old(statics)
      ensures !old(s.dynamic) ==> statics == StaticIndex(Without(old(statics.shapes), s), true, old(statics.tree)) &&
                                  dynamics == old(dynamics) && grid == old(grid)
    {
      if s.dynamic {
        RemoveDynamicNode(s);
      } else {
        RemoveStaticNode(s);
      }
    }

    /** `transform(s, m)` of a dynamic shape whose bounds are still those it
        was registered with: it leaves the grid with those bounds, takes the
        transform, and goes back in with its new entry. */
    method TransformDynamicNode(s: Shapes.Shape, m: Matrices.Matrix3x3, sqrt: real -> real)
      requires IsSqrt(sqrt) && Valid() && LinkedTo(this, dynamics, statics.shapes) && s.parent == this && s.dynamic
      requires s in dynamics && Placeable(s) && s.Bounds() == dynamics[s].bounds
      modifies this`grid, this`dynamics, s
      ensures Valid() && LinkedTo(this, dynamics, statics.shapes) && Placeable(s)
      ensures dynamics == (old(dynamics) - {s})[s := EntryOf(s)]
      ensures grid == Added(Erased(old(grid), s, old(s.Bounds())), EntryOf(s))
      ensures s.kind == old(s.kind) && s.typeMask == old(s.typeMask) && s.collisionMask == old(s.collisionMask)
      ensures s.dynamic && s.parent == this
      ensures s.circle == if s.kind == Shapes.CircleShape then Matrices.TransformedCircle(m, old(s.circle), sqrt) else old(s.circle)
      ensures s.rect == if s.kind == Shapes.RectShape then Matrices.TransformedRect(m, old(s.rect)) else old(s.rect)
      ensures s.polygon == if s.kind == Shapes.PolygonShape then Matrices.TransformedPolygon(m, old(s.polygon)) else old(s.polygon)
    {
      LiftOut(s);
      TransformDetached(s, m, sqrt);
      Reinsert(s);
    }

    /** The first step of `transform` on a dynamic shape: it leaves the
        grid with the bounds it was registered with. */
    method LiftOut(s: Shapes.Shape)
      requires Valid() && LinkedTo(this, dynamics, statics.shapes) && s.parent == this && s.dynamic
      requires s in dynamics && Placeable(s) && s.Bounds() == dynamics[s].bounds
      modifies this`grid, this`dynamics
      ensures Valid() && LinkedTo(this, dynamics, statics.shapes) && s !in statics.shapes && s !in dynamics
      ensures dynamics == old(dynamics) - {s} && grid == Erased(old(grid), s, s.Bounds())
    {
      assert s !in statics.shapes;
      RemoveFromDynamicTable(s, s.Bounds());
    }

    /** The last step of `transform` on a dynamic shape: it goes back into
        the grid with its new entry. */
    method Reinsert(s: Shapes.Shape)
      requires Valid() && LinkedTo(this, dynamics, statics.shapes) && s.parent == this && s.dynamic && s !in dynamics
      requires Placeable(s) && |dynamics| < SizeMax
      modifies this`grid, this`dynamics
      ensures Valid() && LinkedTo(this, dynamics, statics.shapes)
      ensures dynamics == old(dynamics)[s := EntryOf(s)] && grid == Added(old(grid), EntryOf(s))
    {
      AddToDynamicTable(EntryOf(s));
    }

    /** `staticRayCast(r, mask)`: nothing for a zero direction (before any
        rebuild); otherwise rebuild the static tree, nothing without a tree,
        else the tree's ray cast. */
    method StaticRayCast(a: Ray, mask: bv64, sqrt: real -> real) returns (rc: RayCastResult)
      requires IsSqrt(sqrt) && Valid() && EntriesProper() && StaticShapesProper()
      modifies this`statics, this`staticEntries
      ensures Valid() && EntriesProper() && statics.shapes == old(statics.shapes)
      ensures !IsZero(a.direction) ==> !statics.dirty
      ensures !IsZero(a.direction) && statics.tree.Some? ==> StaticRayCasts.AllProper(StaticTrees.Leaves(statics.tree.value))
      ensures rc == StaticRayResult(a, mask, statics.tree, sqrt)
    {
      if IsZero(a.direction) {
        return NoHit;
      }
      ghost var es := if statics.dirty then EntriesOf(statics.shapes) else staticEntries;
      if statics.dirty {
        EntriesOfProper(statics.shapes);
      }
      RebuildStaticTree();
      assert staticEntries == es;
      if statics.tree.None? {
        return NoHit;
      }
      LeavesProper(staticEntries, statics.tree.value);
      rc := StaticRayCasts.StaticRayCastAt(a, mask, statics.tree.value, sqrt);
    }

    /** `rayCast(r, mask, sdFilter)`: the static cast when the filter asks
        for it, then the dynamic walk bounded by the squared distance to the
        static hit, whose result replaces the static one when that is empty
        or farther along the ray. The walk through the grid is the parameter
        `dynamicCast`. */
    method RayCast(a: Ray, mask: bv64, f: StaticDynamicMask, dynamicCast: Option<real> -> RayCastResult, sqrt: real -> real)
      returns (rc: RayCastResult)
      requires IsSqrt(sqrt) && Valid() && EntriesProper() && StaticShapesProper()
      modifies this`statics, this`staticEntries
      ensures Valid() && EntriesProper() && statics.shapes == old(statics.shapes)
      ensures VisitsStatic(f) && !IsZero(a.direction) ==> !statics.dirty
      ensures VisitsStatic(f) && !IsZero(a.direction) && statics.tree.Some? ==> StaticRayCasts.AllProper(StaticTrees.Leaves(statics.tree.value))
      ensures rc == RayResult(a, mask, f, statics.tree, dynamicCast, sqrt)
    {
      rc := NoHit;
      if VisitsStatic(f) {
        rc := StaticRayCast(a, mask, sqrt);
      }
      if VisitsDynamic(f) {
        var rc2 := if IsZero(a.direction) then NoHit else dynamicCast(DynamicCap(rc, a));
        if rc.empty || (!rc2.empty && rc2.parameter < rc.parameter) {
          rc := rc2;
        }
      }
    }

    /** `intersectionQuery(result, bodyA, sdFilter)` for a proper body of
        this tree, with every shape of the tree proper: a range query into a
        fresh buffer over the body's bounds with its collision mask, the
        body excluded, then a test of the body against each shape found,
        first over the dynamic half, then, with room left, over the static
        half. */
    method IntersectionQuery(result: IntersectionQueryResult, bodyA: Shapes.Shape, f: StaticDynamicMask, sqrt: real -> real)
      requires IsSqrt(sqrt) && Valid() && StaticShapesProper() && DynamicShapesProper() && result.Valid()
      requires Placeable(bodyA) && bodyA.Proper() && bodyA.parent == this
      modifies this`statics, this`staticEntries, result, result.intersections
      ensures Valid() && statics.shapes == old(statics.shapes)
      ensures result.Valid() && result.intersections == old(result.intersections)
      ensures old(FoundProper(DynamicFound(grid, bodyA.Bounds(), bodyA.collisionMask, bodyA)))
      ensures old(ContactsReachStatic(result.Contents(), bodyA, DynamicFound(grid, bodyA.Bounds(), bodyA.collisionMask, bodyA), f, sqrt)) ==>
                !statics.dirty && FoundProper(StaticFound(statics, bodyA.Bounds(), bodyA.collisionMask, bodyA, sqrt))
      ensures var d := old(ContactsAfterDynamic(result.Contents(), bodyA, DynamicFound(grid, bodyA.Bounds(), bodyA.collisionMask, bodyA), f, sqrt));
              result.Contents() ==
                if old(ContactsReachStatic(result.Contents(), bodyA, DynamicFound(grid, bodyA.Bounds(), bodyA.collisionMask, bodyA), f, sqrt))
                then FoundContacts(d, bodyA, StaticFound(statics, bodyA.Bounds(), bodyA.collisionMask, bodyA, sqrt), sqrt)
                else d
    {
      PlaceableBounds(bodyA);
      DynamicIntersections(result, bodyA, grid, dynamics, f, sqrt);
      if !result.IsFull() && VisitsStatic(f) {
        StaticIntersections(result, bodyA, sqrt);
      }
    }

    /** The static half of `intersectionQuery`: a range query over the
        static tree (rebuilt first) into a fresh buffer, then the contact
        loop over what it found. */
    method StaticIntersections(result: IntersectionQueryResult, bodyA: Shapes.Shape, sqrt: real -> real)
      requires IsSqrt(sqrt) && Valid() && StaticShapesProper() && result.Valid()
      requires Placeable(bodyA) && Shapes.ProperGeometry(bodyA.Geometry())
      modifies this`statics, this`staticEntries, result, result.intersections
      ensures Valid() && statics.shapes == old(statics.shapes) && !statics.dirty
      ensures result.Valid() && result.intersections == old(result.intersections)
      ensures FoundProper(StaticFound(statics, bodyA.Bounds(), bodyA.collisionMask, bodyA, sqrt))
      ensures result.Contents() == FoundContacts(old(result.Contents()), bodyA, StaticFound(statics, bodyA.Bounds(), bodyA.collisionMask, bodyA, sqrt), sqrt)
    {
      PlaceableBounds(bodyA);
      var r := new RangeQueryResult();
      StaticRangeQuery(r, bodyA.Bounds(), bodyA.collisionMask, bodyA, sqrt);
      StaticFoundProper(statics, staticEntries, bodyA.Bounds(), bodyA.collisionMask, bodyA, sqrt);
      ghost var found := StaticFound(statics, bodyA.Bounds(), bodyA.collisionMask, bodyA, sqrt);
      label searched:
      PushContacts(result, bodyA, r, sqrt);
      GeometriesKept@searched(found);
    }
  }
}
