/** The static half of the spatial tree. The shapes registered as static are
    split, by a recursive median partition of their bounds, into a binary
    tree whose leaves hold the shapes. Range and pick queries descend only
    into children whose bounds the query reaches, and stop once the result
    buffer is full. */
module StaticTrees {
  import opened Vectors
  import opened Options
  import Rects
  import Circles
  import Polygons
  import Intersections
  import Shapes
  import QueryResults

  /** A static shape as the tree records it when it is built: the shape, its
      bounds, its type mask and its geometry at that moment. */
  datatype Entry = Entry(shape: Shapes.Shape, bounds: Rects.Rect, typeMask: bv64, geometry: Shapes.Geometry)

  /** An entry whose geometry the queries can work with. */
  predicate ProperEntry(e: Entry)
  {
    Shapes.ProperGeometry(e.geometry) && Rects.WellFormed(e.bounds)
  }

  predicate AllWellFormed(es: seq<Entry>)
  {
    forall e :: e in es ==> Rects.WellFormed(e.bounds)
  }

  /** `SpatialTreeNode`: a terminal node holds shapes, a non-terminal node
      two children; both carry the union of the bounds below them. */
  datatype Node = Terminal(entries: seq<Entry>, bounds: Rects.Rect) | NonTerminal(side0: Node, side1: Node, bounds: Rects.Rect)

  /** The entries of the terminal nodes, left to right. */
  function Leaves(n: Node): seq<Entry>
  {
    match n
    case Terminal(es, _) => es
    case NonTerminal(n0, n1, _) => Leaves(n0) + Leaves(n1)
  }

  /** The shape of a built tree: terminal nodes are not empty (the code tells
      terminal nodes by their non-empty shape list) and every node's bounds
      contain its children's. */
  predicate WellBuilt(n: Node)
  {
    Rects.WellFormed(n.bounds) &&
    match n
    case Terminal(es, b) => |es| > 0 && forall e :: e in es ==> Rects.ContainsRect(b, e.bounds)
    case NonTerminal(n0, n1, b) =>
      WellBuilt(n0) && WellBuilt(n1) && Rects.ContainsRect(b, n0.bounds) && Rects.ContainsRect(b, n1.bounds)
  }

  /** In a built tree every node's bounds contain the bounds of every entry
      below it. */
  lemma {:induction false} LeavesInside(n: Node)
    requires WellBuilt(n)
    ensures forall e :: e in Leaves(n) ==> Rects.ContainsRect(n.bounds, e.bounds)
  {
    match n
    case Terminal(_, _) =>
    case NonTerminal(n0, n1, b) =>
      LeavesInside(n0);
      LeavesInside(n1);
  }

  /** `computeBounds`: the union of the bounds, folded from the first. */
  function UnionOf(es: seq<Entry>): (r: Rects.Rect)
    requires |es| > 0 && AllWellFormed(es)
    ensures Rects.WellFormed(r)
    ensures forall i :: 0 <= i < |es| ==> Rects.ContainsRect(r, es[i].bounds)
  {
    if |es| == 1 then es[0].bounds
    else
      var init := es[..|es| - 1];
      assert forall e :: e in init ==> e in es;
      Rects.GetUnion(UnionOf(init), es[|es| - 1].bounds)
  }

  // ---------------------------------------------------------------------
  // Median partition

  /** The edge the partitions sort by: the right edge for the horizontal
      partition, the bottom edge for the vertical one. */
  datatype Axis = ByRight | ByBottom

  function Key(e: Entry, axis: Axis): real
  {
    if axis == ByRight then Rects.Right(e.bounds) else Rects.Bottom(e.bounds)
  }

  predicate SortedBy(s: seq<Entry>, axis: Axis)
  {
    forall i, j :: 0 <= i < j < |s| ==> Key(s[i], axis) <= Key(s[j], axis)
  }

  /** Insertion of one entry before the first entry with a key at least as
      large. */
  function Insert(e: Entry, sorted: seq<Entry>, axis: Axis): (r: seq<Entry>)
    ensures multiset(r) == multiset(sorted) + multiset{e}
    ensures |r| == |sorted| + 1
  {
    if sorted == [] then [e]
    else if Key(e, axis) <= Key(sorted[0], axis) then [e] + sorted
    else
      assert sorted == [sorted[0]] + sorted[1..];
      [sorted[0]] + Insert(e, sorted[1..], axis)
  }

  /** The sort by key (`std::sort` with a strict less-than on the key; the
      model fixes one order among entries with equal keys). */
  function SortBy(es: seq<Entry>, axis: Axis): (r: seq<Entry>)
    ensures multiset(r) == multiset(es)
    ensures |r| == |es|
  {
    if es == [] then []
    else
      assert es == [es[0]] + es[1..];
      Insert(es[0], SortBy(es[1..], axis), axis)
  }

  /** The insertion adds only the new entry. */
  lemma {:induction false} InsertElements(e: Entry, sorted: seq<Entry>, axis: Axis)
    ensures forall x :: x in Insert(e, sorted, axis) ==> x == e || x in sorted
  {
    if sorted != [] && Key(e, axis) > Key(sorted[0], axis) {
      InsertElements(e, sorted[1..], axis);
    }
  }

  /** A sorted list stays sorted under a head whose key is at most every
      key in it. */
  lemma ConsSorted(h: Entry, rest: seq<Entry>, axis: Axis)
    requires SortedBy(rest, axis)
    requires forall x :: x in rest ==> Key(h, axis) <= Key(x, axis)
    ensures SortedBy([h] + rest, axis)
  {
    var r := [h] + rest;
    forall i, j | 0 <= i < j < |r|
      ensures Key(r[i], axis) <= Key(r[j], axis)
    {
      assert r[j] == rest[j - 1];
      if i > 0 {
        assert r[i] == rest[i - 1];
      }
    }
  }

  lemma {:induction false} InsertSorted(e: Entry, sorted: seq<Entry>, axis: Axis)
    requires SortedBy(sorted, axis)
    ensures SortedBy(Insert(e, sorted, axis), axis)
    decreases |sorted|
  {
    if sorted == [] {
    } else if Key(e, axis) <= Key(sorted[0], axis) {
      forall x | x in sorted
        ensures Key(e, axis) <= Key(x, axis)
      {
        var k :| 0 <= k < |sorted| && sorted[k] == x;
      }
      ConsSorted(e, sorted, axis);
    } else {
      var tail := sorted[1..];
      assert SortedBy(tail, axis);
      InsertSorted(e, tail, axis);
      InsertElements(e, tail, axis);
      forall x | x in Insert(e, tail, axis)
        ensures Key(sorted[0], axis) <= Key(x, axis)
      {
        if x != e {
          var k :| 0 <= k < |tail| && tail[k] == x;
          assert sorted[k + 1] == x;
        }
      }
      ConsSorted(sorted[0], Insert(e, tail, axis), axis);
    }
  }

  /** The sort orders the entries by key. */
  lemma {:induction false} SortIsSorted(es: seq<Entry>, axis: Axis)
    ensures SortedBy(SortBy(es, axis), axis)
  {
    if es != [] {
      SortIsSorted(es[1..], axis);
      InsertSorted(es[0], SortBy(es[1..], axis), axis);
    }
  }

  /** The index of the median entry: the lower middle for an even count. */
  function Middle(n: nat): (m: nat)
    requires n >= 2
    ensures m == (n - 1) / 2 && m < n
  {
    if n % 2 == 0 then n / 2 - 1 else n / 2
  }

  /** The region of side 0: from the left of the bounds up to the median's
      right edge (horizontal), or from the median's bottom edge up to the top
      of the bounds (vertical). */
  function Region(bounds: Rects.Rect, median: Entry, axis: Axis): Rects.Rect
  {
    if axis == ByRight then
      Rects.SetBounds(Rects.Default, Rects.Left(bounds), Rects.Right(median.bounds), Rects.Bottom(bounds), Rects.Top(bounds))
    else
      Rects.SetBounds(Rects.Default, Rects.Left(bounds), Rects.Right(bounds), Rects.Bottom(median.bounds), Rects.Top(bounds))
  }

  /** The entries, in order, that do (inside) or do not (outside) strictly
      intersect the region. */
  function Separate(es: seq<Entry>, region: Rects.Rect, inside: bool): (r: seq<Entry>)
  {
    if es == [] then []
    else
      (if Rects.StrictlyIntersects(es[0].bounds, region) == inside then [es[0]] else []) + Separate(es[1..], region, inside)
  }

  /** Every entry goes to exactly one side, in order. */
  lemma {:induction false} SeparateSplits(es: seq<Entry>, region: Rects.Rect)
    ensures multiset(Separate(es, region, true)) + multiset(Separate(es, region, false)) == multiset(es)
    ensures forall e :: e in Separate(es, region, true) ==> e in es && Rects.StrictlyIntersects(e.bounds, region)
    ensures forall e :: e in Separate(es, region, false) ==> e in es && !Rects.StrictlyIntersects(e.bounds, region)
  {
    if es != [] {
      SeparateSplits(es[1..], region);
      assert es == [es[0]] + es[1..];
    }
  }

  /** The outcome of a partition: no split, or the two sides. */
  datatype Sides = NoSplit | Split(side0: seq<Entry>, side1: seq<Entry>)

  /** `staticHorizontalPartition` (ByRight) and `staticVerticalPartition`
      (ByBottom): sort by the key, take the median, and put the entries that
      strictly intersect the median's region on side 0 and the others on
      side 1; a single entry, or a side left empty, gives no split. */
  function AxisPartition(es: seq<Entry>, axis: Axis): (r: Sides)
    requires |es| > 0 && AllWellFormed(es)
    ensures r.Split? ==> |r.side0| > 0 && |r.side1| > 0
    ensures r.Split? ==> multiset(r.side0) + multiset(r.side1) == multiset(es)
  {
    if |es| == 1 then NoSplit
    else
      var bounds := UnionOf(es);
      var sorted := SortBy(es, axis);
      var region := Region(bounds, sorted[Middle(|sorted|)], axis);
      var side0 := Separate(sorted, region, true);
      var side1 := Separate(sorted, region, false);
      SeparateSplits(sorted, region);
      if |side0| == 0 || |side1| == 0 then NoSplit else Split(side0, side1)
  }

  function Abs(x: real): real { if x < 0.0 then -x else x }

  /** The choice between a horizontal and a vertical outcome: a missing
      split yields the other outcome; of two splits, the horizontal one wins
      only when its side 0 is strictly nearer half of the entries. */
  function Choose(n: nat, h: Sides, v: Sides): (r: Sides)
    ensures r == h || r == v
    ensures h.NoSplit? ==> r == v
    ensures h.Split? && v.NoSplit? ==> r == h
  {
    if h.NoSplit? then v
    else if v.NoSplit? then h
    else
      var middle := n as real / 2.0;
      var hd := Abs(middle - |h.side0| as real);
      var vd := Abs(middle - |v.side0| as real);
      if hd < vd then h else v
  }

  /** `staticBestPartition` as written: both candidate outcomes come from
      the horizontal partition. */
  function BestPartitionAsWritten(es: seq<Entry>): Sides
    requires |es| > 0 && AllWellFormed(es)
  {
    Choose(|es|, AxisPartition(es, ByRight), AxisPartition(es, ByRight))
  }

  /** `staticBestPartition` as intended: the horizontal against the vertical
      partition. */
  function BestPartition(es: seq<Entry>): (r: Sides)
    requires |es| > 0 && AllWellFormed(es)
    ensures r == AxisPartition(es, ByRight) || r == AxisPartition(es, ByBottom)
  {
    Choose(|es|, AxisPartition(es, ByRight), AxisPartition(es, ByBottom))
  }

  /** As written, the vertical partition is never consulted: the choice
      always returns the horizontal outcome. */
  lemma AsWrittenIsHorizontal(es: seq<Entry>)
    requires |es| > 0 && AllWellFormed(es)
    ensures BestPartitionAsWritten(es) == AxisPartition(es, ByRight)
  {
    var h := AxisPartition(es, ByRight);
    if h.Split? {
      var middle := |es| as real / 2.0;
      assert !(Abs(middle - |h.side0| as real) < Abs(middle - |h.side0| as real));
    }
  }

  /** `partition`: a terminal node for entries that do not split, otherwise
      a non-terminal node over the partitions of both sides. Every entry
      lands in exactly one terminal node. */
  function Partition(es: seq<Entry>): (n: Node)
    requires |es| > 0 && AllWellFormed(es)
    ensures WellBuilt(n)
    ensures multiset(Leaves(n)) == multiset(es)
    decreases |es|
  {
    match BestPartition(es)
    case NoSplit =>
      TerminalBuilt(es);
      Terminal(es, UnionOf(es))
    case Split(s0, s1) =>
      SidesSmaller(es, s0, s1);
      var n0 := Partition(s0);
      var n1 := Partition(s1);
      NonTerminal(n0, n1, Rects.GetUnion(n0.bounds, n1.bounds))
  }

  /** A terminal node over the union of its entries is well built. */
  lemma TerminalBuilt(es: seq<Entry>)
    requires |es| > 0 && AllWellFormed(es)
    ensures WellBuilt(Terminal(es, UnionOf(es)))
  {
    forall e | e in es
      ensures Rects.ContainsRect(UnionOf(es), e.bounds)
    {
      var i :| 0 <= i < |es| && es[i] == e;
    }
  }

  /** Both sides of a split are smaller than the whole and keep well-formed
      bounds. */
  lemma SidesSmaller(es: seq<Entry>, s0: seq<Entry>, s1: seq<Entry>)
    requires AllWellFormed(es) && |s0| > 0 && |s1| > 0
    requires multiset(s0) + multiset(s1) == multiset(es)
    ensures AllWellFormed(s0) && AllWellFormed(s1)
    ensures |s0| < |es| && |s1| < |es|
  {
    assert |multiset(s0)| + |multiset(s1)| == |multiset(es)|;
    forall e | e in s0
      ensures Rects.WellFormed(e.bounds)
    {
      assert e in multiset(es);
    }
    forall e | e in s1
      ensures Rects.WellFormed(e.bounds)
    {
      assert e in multiset(es);
    }
  }

  /** `rebuildStaticTree` on a set of static shapes: no tree for no shapes,
      otherwise the partition. */
  function BuildTree(es: seq<Entry>): (t: Option<Node>)
    requires AllWellFormed(es)
    ensures t.None? <==> es == []
    ensures t.Some? ==> WellBuilt(t.value) && multiset(Leaves(t.value)) == multiset(es)
  {
    if es == [] then None else Some(Partition(es))
  }

  /** A square of side 2 centred at (0, y). */
  function Square(s: Shapes.Shape, y: real, m: bv64, g: Shapes.Geometry): Entry
  {
    Entry(s, Rects.Rect(Vec2(0.0, y), Vec2(2.0, 2.0)), m, g)
  }

  /** Three equal squares stacked one above the other. */
  function Stacked(a: Shapes.Shape, b: Shapes.Shape, c: Shapes.Shape, m: bv64, g: Shapes.Geometry): seq<Entry>
  {
    [Square(a, 0.0, m, g), Square(b, 10.0, m, g), Square(c, 20.0, m, g)]
  }

  /** Sorting a list with a head inserts the head into the sorted tail. */
  lemma SortCons(e: Entry, rest: seq<Entry>, axis: Axis)
    ensures SortBy([e] + rest, axis) == Insert(e, SortBy(rest, axis), axis)
  {
    assert ([e] + rest)[1..] == rest;
  }

  /** An entry no larger than the head goes in front. */
  lemma InsertFront(e: Entry, sorted: seq<Entry>, axis: Axis)
    requires sorted != [] && Key(e, axis) <= Key(sorted[0], axis)
    ensures Insert(e, sorted, axis) == [e] + sorted
  {
  }

  /** Three entries already in key order sort to themselves. */
  lemma SortThree(x: Entry, y: Entry, z: Entry, axis: Axis)
    requires Key(x, axis) <= Key(y, axis) <= Key(z, axis)
    ensures SortBy([x, y, z], axis) == [x, y, z]
  {
    SortCons(z, [], axis);
    assert [z] + [] == [z];
    SortCons(y, [z], axis);
    InsertFront(y, [z], axis);
    assert [y] + [z] == [y, z];
    SortCons(x, [y, z], axis);
    InsertFront(x, [y, z], axis);
    assert [x] + [y, z] == [x, y, z];
  }

  /** The bounds of the stack: x from -1 to 1, y from -1 to 21. */
  lemma StackedBounds(a: Shapes.Shape, b: Shapes.Shape, c: Shapes.Shape, m: bv64, g: Shapes.Geometry)
    ensures AllWellFormed(Stacked(a, b, c, m, g))
    ensures Rects.Left(UnionOf(Stacked(a, b, c, m, g))) == -1.0
    ensures Rects.Right(UnionOf(Stacked(a, b, c, m, g))) == 1.0
    ensures Rects.Bottom(UnionOf(Stacked(a, b, c, m, g))) == -1.0
    ensures Rects.Top(UnionOf(Stacked(a, b, c, m, g))) == 21.0
  {
    var es := Stacked(a, b, c, m, g);
    var two := es[..2];
    assert two[..1] == [es[0]] && two[1] == es[1];
    assert UnionOf(two[..1]) == es[0].bounds;
    var u2 := UnionOf(two);
    assert u2 == Rects.GetUnion(es[0].bounds, es[1].bounds);
    assert es[..|es| - 1] == two;
    Rects.UnionEdges(es[0].bounds, es[1].bounds);
    Rects.UnionEdges(u2, es[2].bounds);
  }

  /** A square strictly intersects a region that overlaps it on both axes. */
  lemma SquareMeets(s: Shapes.Shape, y: real, m: bv64, g: Shapes.Geometry, region: Rects.Rect)
    requires Rects.Left(region) < 1.0 && -1.0 < Rects.Right(region)
    requires Rects.Bottom(region) < y + 1.0 && y - 1.0 < Rects.Top(region)
    requires Rects.Left(region) < Rects.Right(region) && Rects.Bottom(region) < Rects.Top(region)
    ensures Rects.StrictlyIntersects(Square(s, y, m, g).bounds, region)
  {
  }

  /** A square does not strictly intersect a region starting at or above its
      top edge. */
  lemma SquareBelow(s: Shapes.Shape, y: real, m: bv64, g: Shapes.Geometry, region: Rects.Rect)
    requires y + 1.0 <= Rects.Bottom(region)
    ensures !Rects.StrictlyIntersects(Square(s, y, m, g).bounds, region)
  {
  }

  /** Separation of a list with a head. */
  lemma SeparateCons(e: Entry, rest: seq<Entry>, region: Rects.Rect, inside: bool)
    ensures Separate([e] + rest, region, inside) ==
      (if Rects.StrictlyIntersects(e.bounds, region) == inside then [e] else []) + Separate(rest, region, inside)
  {
    assert ([e] + rest)[1..] == rest;
  }

  /** The horizontal partition leaves the stack whole: the median's region
      reaches the shared right edge, so every square lies inside it. */
  lemma StackedHorizontal(a: Shapes.Shape, b: Shapes.Shape, c: Shapes.Shape, m: bv64, g: Shapes.Geometry)
    ensures AllWellFormed(Stacked(a, b, c, m, g))
    ensures AxisPartition(Stacked(a, b, c, m, g), ByRight) == NoSplit
  {
    var es := Stacked(a, b, c, m, g);
    StackedBounds(a, b, c, m, g);
    SortThree(es[0], es[1], es[2], ByRight);
    var region := Region(UnionOf(es), es[1], ByRight);
    assert Rects.Left(region) == -1.0 && Rects.Right(region) == 1.0;
    assert Rects.Bottom(region) == -1.0 && Rects.Top(region) == 21.0;
    SquareMeets(a, 0.0, m, g, region);
    SquareMeets(b, 10.0, m, g, region);
    SquareMeets(c, 20.0, m, g, region);
    SeparateCons(es[2], [], region, false);
    SeparateCons(es[1], [es[2]], region, false);
    SeparateCons(es[0], [es[1], es[2]], region, false);
    assert Separate(es, region, false) == [];
  }

  /** The vertical partition splits the stack: the median's region starts
      at the middle square's bottom edge, above the lower square. */
  lemma StackedVertical(a: Shapes.Shape, b: Shapes.Shape, c: Shapes.Shape, m: bv64, g: Shapes.Geometry)
    ensures AllWellFormed(Stacked(a, b, c, m, g))
    ensures AxisPartition(Stacked(a, b, c, m, g), ByBottom) == Split(Stacked(a, b, c, m, g)[1..], Stacked(a, b, c, m, g)[..1])
  {
    var es := Stacked(a, b, c, m, g);
    StackedBounds(a, b, c, m, g);
    SortThree(es[0], es[1], es[2], ByBottom);
    var region := Region(UnionOf(es), es[1], ByBottom);
    assert Rects.Left(region) == -1.0 && Rects.Right(region) == 1.0;
    assert Rects.Bottom(region) == 9.0 && Rects.Top(region) == 21.0;
    SquareBelow(a, 0.0, m, g, region);
    SquareMeets(b, 10.0, m, g, region);
    SquareMeets(c, 20.0, m, g, region);
    PartitionOfThree(es[0], es[1], es[2], ByBottom, region);
    assert es[1..] == [es[1], es[2]] && es[..1] == [es[0]];
  }

  /** Three sorted entries of which the median's region meets the upper two
      only are split into those two and the lower one. */
  lemma PartitionOfThree(x: Entry, y: Entry, z: Entry, axis: Axis, region: Rects.Rect)
    requires AllWellFormed([x, y, z]) && Key(x, axis) <= Key(y, axis) <= Key(z, axis)
    requires region == Region(UnionOf([x, y, z]), y, axis)
    requires !Rects.StrictlyIntersects(x.bounds, region)
    requires Rects.StrictlyIntersects(y.bounds, region) && Rects.StrictlyIntersects(z.bounds, region)
    ensures AxisPartition([x, y, z], axis) == Split([y, z], [x])
  {
    SortThree(x, y, z, axis);
    SeparateCons(z, [], region, true);
    SeparateCons(y, [z], region, true);
    SeparateCons(x, [y, z], region, true);
    SeparateCons(z, [], region, false);
    SeparateCons(y, [z], region, false);
    SeparateCons(x, [y, z], region, false);
    assert [x] + [y, z] == [x, y, z] && [y] + [z] == [y, z] && [z] + [] == [z];
    var sorted := SortBy([x, y, z], axis);
    assert sorted[Middle(|sorted|)] == y;
    assert Separate(sorted, region, true) == [y, z];
    assert Separate(sorted, region, false) == [x];
  }

  /** Three stacked squares share their right edge, so the horizontal
      partition cannot split them: as written they stay in one terminal
      node, where the vertical partition puts the two upper squares on one
      side and the lower square on the other. */
  lemma StackedShapesAsWritten(a: Shapes.Shape, b: Shapes.Shape, c: Shapes.Shape, m: bv64, g: Shapes.Geometry)
    ensures AllWellFormed(Stacked(a, b, c, m, g))
    ensures BestPartitionAsWritten(Stacked(a, b, c, m, g)) == NoSplit
    ensures BestPartition(Stacked(a, b, c, m, g)) == Split(Stacked(a, b, c, m, g)[1..], Stacked(a, b, c, m, g)[..1])
  {
    StackedHorizontal(a, b, c, m, g);
    StackedVertical(a, b, c, m, g);
    AsWrittenIsHorizontal(Stacked(a, b, c, m, g));
  }

  // ---------------------------------------------------------------------
  // Range and pick queries

  /** A query the static tree answers by descent: a range query (the rect,
      the type mask and the shape to leave out) or a pick query (the point
      and the type mask). */
  datatype Query = RangeQuery(area: Rects.Rect, mask: bv64, exclude: Shapes.Shape?) | PickQuery(point: Vec2, mask: bv64)

  /** Whether the query descends into a node with these bounds. */
  predicate Reaches(q: Query, b: Rects.Rect)
  {
    match q
    case RangeQuery(r, _, _) => Intersections.TestRectRect(r, b)
    case PickQuery(pt, _) => Intersections.TestRectPoint(b, pt)
  }

  /** Whether the query reports an entry: its type mask shares a bit with
      the query's; for a range query the entry is not the excluded shape and
      its bounds touch the rect; for a pick query its bounds contain the
      point and so does the shape (a rect shape is its bounds; a polygon is
      tested edge by edge). */
  predicate Matches(q: Query, e: Entry, sqrt: real -> real)
    requires IsSqrt(sqrt)
  {
    match q
    case RangeQuery(r, mask, exclude) => RangeMatches(r, mask, exclude, e)
    case PickQuery(pt, mask) => PickMatches(pt, mask, e, sqrt)
  }

  predicate RangeMatches(r: Rects.Rect, mask: bv64, exclude: Shapes.Shape?, e: Entry)
  {
    !(exclude != null && e.shape == exclude) && e.typeMask & mask != 0 && Intersections.TestRectRect(r, e.bounds)
  }

  predicate PickMatches(pt: Vec2, mask: bv64, e: Entry, sqrt: real -> real)
    requires IsSqrt(sqrt)
  {
    e.typeMask & mask != 0 && Intersections.TestRectPoint(e.bounds, pt) && GeometryContains(e.geometry, pt, sqrt)
  }

  /** The exact containment test a pick query applies once the bounds
      contain the point: a circle tests the point, a rect shape is its
      bounds, a polygon tests the point against each edge. */
  predicate GeometryContains(g: Shapes.Geometry, pt: Vec2, sqrt: real -> real)
    requires IsSqrt(sqrt)
  {
    match g
    case CircleGeometry(c) => Intersections.TestCirclePoint(c, pt)
    case RectGeometry(_) => true
    case PolygonGeometry(p) =>
      (Polygons.EdgeCount(p) > 0 ==> Polygons.OrderingOf(p) != Polygons.Unknown) && Polygons.InsideAllEdges(p, pt, sqrt)
  }

  /** A node's entries scanned in order: a matching entry is pushed while the
      buffer has room. */
  function TerminalCollect(acc: seq<Shapes.Shape?>, q: Query, es: seq<Entry>, sqrt: real -> real): seq<Shapes.Shape?>
    requires IsSqrt(sqrt)
  {
    if es == [] then acc
    else
      var prev := TerminalCollect(acc, q, es[..|es| - 1], sqrt);
      if |prev| < QueryResults.MaxCollisions && Matches(q, es[|es| - 1], sqrt) then prev + [es[|es| - 1].shape] else prev
  }

  /** `staticRangeQuery` / `staticPickQuery` at a node: nothing once the
      buffer is full; a terminal node scans its entries; a non-terminal node
      descends into side 0 and then side 1, each only when the query reaches
      its bounds. */
  function Collect(acc: seq<Shapes.Shape?>, q: Query, n: Node, sqrt: real -> real): seq<Shapes.Shape?>
    requires IsSqrt(sqrt)
    decreases n
  {
    if |acc| >= QueryResults.MaxCollisions then acc
    else
      match n
      case Terminal(es, _) => TerminalCollect(acc, q, es, sqrt)
      case NonTerminal(n0, n1, _) =>
        var a0 := if Reaches(q, n0.bounds) then Collect(acc, q, n0, sqrt) else acc;
        if Reaches(q, n1.bounds) then Collect(a0, q, n1, sqrt) else a0
  }

  /** Some entry of es for shape s matches the query. */
  predicate FoundIn(es: seq<Entry>, s: Shapes.Shape?, q: Query, sqrt: real -> real)
    requires IsSqrt(sqrt)
  {
    exists e :: e in es && e.shape == s && Matches(q, e, sqrt)
  }

  /** What a scan does to the buffer: it keeps what was there, never goes
      past twelve shapes, and pushes only shapes whose entry matches. */
  predicate Extends(acc: seq<Shapes.Shape?>, res: seq<Shapes.Shape?>, es: seq<Entry>, q: Query, sqrt: real -> real)
    requires IsSqrt(sqrt)
  {
    |acc| <= |res| && res[..|acc|] == acc &&
    (|acc| <= QueryResults.MaxCollisions ==> |res| <= QueryResults.MaxCollisions) &&
    forall k :: |acc| <= k < |res| ==> FoundIn(es, res[k], q, sqrt)
  }

  /** A match among fewer entries is a match among more. */
  lemma FoundInGrows(small: seq<Entry>, large: seq<Entry>, s: Shapes.Shape?, q: Query, sqrt: real -> real)
    requires IsSqrt(sqrt) && FoundIn(small, s, q, sqrt)
    requires forall e :: e in small ==> e in large
    ensures FoundIn(large, s, q, sqrt)
  {
  }

  lemma {:induction false} TerminalCollectSound(acc: seq<Shapes.Shape?>, q: Query, es: seq<Entry>, sqrt: real -> real)
    requires IsSqrt(sqrt)
    ensures Extends(acc, TerminalCollect(acc, q, es, sqrt), es, q, sqrt)
  {
    if es != [] {
      var init := es[..|es| - 1];
      TerminalCollectSound(acc, q, init, sqrt);
      ExtendsStep(acc, TerminalCollect(acc, q, init, sqrt), TerminalCollect(acc, q, es, sqrt), init, es, es[|es| - 1], q, sqrt);
    }
  }

  /** One step of a scan: the buffer is unchanged, or one matching entry's
      shape is pushed with room left. */
  lemma ExtendsStep(acc: seq<Shapes.Shape?>, prev: seq<Shapes.Shape?>, res: seq<Shapes.Shape?>, init: seq<Entry>, es: seq<Entry>, e: Entry, q: Query, sqrt: real -> real)
    requires IsSqrt(sqrt) && Extends(acc, prev, init, q, sqrt)
    requires es == init + [e]
    requires res == prev || (res == prev + [e.shape] && Matches(q, e, sqrt) && |prev| < QueryResults.MaxCollisions)
    ensures Extends(acc, res, es, q, sqrt)
  {
    forall k | |acc| <= k < |res|
      ensures FoundIn(es, res[k], q, sqrt)
    {
      if k < |prev| {
        assert res[k] == prev[k];
        FoundInGrows(init, es, prev[k], q, sqrt);
      } else {
        assert e in es;
      }
    }
    assert res[..|acc|] == prev[..|acc|];
  }

  /** Extension composes, and entries of a smaller list are entries of a
      larger one. */
  lemma ExtendsTrans(a: seq<Shapes.Shape?>, b: seq<Shapes.Shape?>, c: seq<Shapes.Shape?>, es0: seq<Entry>, es1: seq<Entry>, es: seq<Entry>, q: Query, sqrt: real -> real)
    requires IsSqrt(sqrt)
    requires Extends(a, b, es0, q, sqrt) && Extends(b, c, es1, q, sqrt)
    requires forall e :: e in es0 ==> e in es
    requires forall e :: e in es1 ==> e in es
    ensures Extends(a, c, es, q, sqrt)
  {
    forall k | |a| <= k < |c|
      ensures FoundIn(es, c[k], q, sqrt)
    {
      if k < |b| {
        assert c[k] == b[k];
        assert FoundIn(es0, b[k], q, sqrt);
      } else {
        assert FoundIn(es1, c[k], q, sqrt);
      }
    }
    assert c[..|a|] == b[..|a|];
  }

  lemma ExtendsSelf(a: seq<Shapes.Shape?>, es: seq<Entry>, q: Query, sqrt: real -> real)
    requires IsSqrt(sqrt)
    ensures Extends(a, a, es, q, sqrt)
  {
  }

  /** The query keeps what the buffer held, never passes twelve shapes, and
      reports only shapes whose entry, somewhere below the node, matches. */
  lemma {:induction false} CollectSound(acc: seq<Shapes.Shape?>, q: Query, n: Node, sqrt: real -> real)
    requires IsSqrt(sqrt)
    ensures Extends(acc, Collect(acc, q, n, sqrt), Leaves(n), q, sqrt)
    decreases n
  {
    if |acc| >= QueryResults.MaxCollisions {
      ExtendsSelf(acc, Leaves(n), q, sqrt);
    } else {
      match n
      case Terminal(es, _) =>
        TerminalCollectSound(acc, q, es, sqrt);
      case NonTerminal(n0, n1, _) =>
        var a0 := if Reaches(q, n0.bounds) then Collect(acc, q, n0, sqrt) else acc;
        if Reaches(q, n0.bounds) { CollectSound(acc, q, n0, sqrt); } else { ExtendsSelf(acc, Leaves(n0), q, sqrt); }
        var res := if Reaches(q, n1.bounds) then Collect(a0, q, n1, sqrt) else a0;
        if Reaches(q, n1.bounds) { CollectSound(a0, q, n1, sqrt); } else { ExtendsSelf(a0, Leaves(n1), q, sqrt); }
        ExtendsTrans(acc, a0, res, Leaves(n0), Leaves(n1), Leaves(n), q, sqrt);
    }
  }

  /** A matching entry's bounds are reached by the query. */
  lemma MatchReaches(q: Query, e: Entry, sqrt: real -> real)
    requires IsSqrt(sqrt) && Matches(q, e, sqrt)
    ensures Reaches(q, e.bounds)
  {
  }

  /** A query that reaches a rect reaches every rect containing it. */
  lemma ReachesGrows(q: Query, inner: Rects.Rect, outer: Rects.Rect)
    requires Reaches(q, inner) && Rects.ContainsRect(outer, inner)
    ensures Reaches(q, outer)
  {
  }

  /** A scan that ends with room left pushed every matching entry. */
  lemma {:induction false} TerminalCollectComplete(acc: seq<Shapes.Shape?>, q: Query, es: seq<Entry>, sqrt: real -> real)
    requires IsSqrt(sqrt)
    requires |TerminalCollect(acc, q, es, sqrt)| < QueryResults.MaxCollisions
    ensures forall e :: e in es && Matches(q, e, sqrt) ==> e.shape in TerminalCollect(acc, q, es, sqrt)
  {
    if es != [] {
      var init := es[..|es| - 1];
      var prev := TerminalCollect(acc, q, init, sqrt);
      var res := TerminalCollect(acc, q, es, sqrt);
      assert |prev| <= |res|;
      TerminalCollectComplete(acc, q, init, sqrt);
      forall e | e in es && Matches(q, e, sqrt)
        ensures e.shape in res
      {
        if e in init {
          assert e.shape in prev;
        } else {
          assert e == es[|es| - 1];
        }
      }
    }
  }

  /** A query on a built tree that ends with room left reported every
      matching entry below the node: descending only where the query reaches
      a child's bounds loses nothing. */
  lemma {:induction false} CollectComplete(acc: seq<Shapes.Shape?>, q: Query, n: Node, sqrt: real -> real)
    requires IsSqrt(sqrt) && WellBuilt(n)
    requires |Collect(acc, q, n, sqrt)| < QueryResults.MaxCollisions
    ensures forall e :: e in Leaves(n) && Matches(q, e, sqrt) ==> e.shape in Collect(acc, q, n, sqrt)
    decreases n
  {
    match n
    case Terminal(es, _) =>
      TerminalCollectComplete(acc, q, es, sqrt);
    case NonTerminal(n0, n1, _) =>
      var a0 := if Reaches(q, n0.bounds) then Collect(acc, q, n0, sqrt) else acc;
      var res := Collect(acc, q, n, sqrt);
      assert res == if Reaches(q, n1.bounds) then Collect(a0, q, n1, sqrt) else a0;
      if Reaches(q, n1.bounds) { CollectSound(a0, q, n1, sqrt); }
      assert |a0| <= |res| && res[..|a0|] == a0;
      if Reaches(q, n0.bounds) { CollectComplete(acc, q, n0, sqrt); }
      if Reaches(q, n1.bounds) { CollectComplete(a0, q, n1, sqrt); }
      LeavesInside(n0);
      LeavesInside(n1);
      forall e | e in Leaves(n) && Matches(q, e, sqrt)
        ensures e.shape in res
      {
        MatchReaches(q, e, sqrt);
        if e in Leaves(n0) {
          ReachesGrows(q, e.bounds, n0.bounds);
          assert e.shape in a0;
          var k :| 0 <= k < |a0| && a0[k] == e.shape;
          assert res[k] == e.shape;
        } else {
          ReachesGrows(q, e.bounds, n1.bounds);
        }
      }
  }

  /** Once the buffer is full, the rest of a scan leaves it unchanged. */
  lemma {:induction false} TerminalCollectStaysFull(acc: seq<Shapes.Shape?>, q: Query, es: seq<Entry>, i: nat, sqrt: real -> real)
    requires IsSqrt(sqrt) && i <= |es|
    requires |TerminalCollect(acc, q, es[..i], sqrt)| >= QueryResults.MaxCollisions
    ensures TerminalCollect(acc, q, es, sqrt) == TerminalCollect(acc, q, es[..i], sqrt)
    decreases |es| - i
  {
    if i < |es| {
      assert es[..i + 1][..i] == es[..i];
      assert TerminalCollect(acc, q, es[..i + 1], sqrt) == TerminalCollect(acc, q, es[..i], sqrt);
      TerminalCollectStaysFull(acc, q, es, i + 1, sqrt);
    } else {
      assert es[..i] == es;
    }
  }

  /** The per-shape test of the terminal loops: the mask test and the range
      test, or the mask test, the bounds test and the exact containment test
      (the polygon containment test walks the polygon's edges). */
  method EntryMatches(q: Query, e: Entry, sqrt: real -> real) returns (b: bool)
    requires IsSqrt(sqrt)
    requires q.PickQuery? ==> ProperEntry(e)
    ensures b == Matches(q, e, sqrt)
  {
    match q
    case RangeQuery(r, mask, exclude) =>
      b := RangeMatches(r, mask, exclude, e);
    case PickQuery(pt, mask) =>
      b := PickEntry(pt, mask, e, sqrt);
  }

  /** The pick test: mask, bounds, then the exact test. */
  method PickEntry(pt: Vec2, mask: bv64, e: Entry, sqrt: real -> real) returns (b: bool)
    requires IsSqrt(sqrt) && ProperEntry(e)
    ensures b == PickMatches(pt, mask, e, sqrt)
  {
    if e.typeMask & mask == 0 || !Intersections.TestRectPoint(e.bounds, pt) {
      b := false;
    } else {
      b := ContainsPointOf(e.geometry, pt, sqrt);
    }
  }

  /** The containment test by geometry kind. */
  method ContainsPointOf(g: Shapes.Geometry, pt: Vec2, sqrt: real -> real) returns (b: bool)
    requires IsSqrt(sqrt) && Shapes.ProperGeometry(g)
    ensures b == GeometryContains(g, pt, sqrt)
  {
    match g
    case CircleGeometry(c) =>
      b := Intersections.TestCirclePoint(c, pt);
    case RectGeometry(_) =>
      b := true;
    case PolygonGeometry(p) =>
      assert Polygons.OrderingOf(p) != Polygons.Unknown;
      b := Polygons.ContainsPoint(p, pt, sqrt);
  }

  /** `staticRangeQuery` and `staticPickQuery`: the descent pushes into the
      result buffer exactly the shapes `Collect` lists. */
  method QueryAt(rq: QueryResults.RangeQueryResult, q: Query, n: Node, sqrt: real -> real)
    requires IsSqrt(sqrt) && rq.Valid()
    requires q.PickQuery? ==> forall e :: e in Leaves(n) ==> ProperEntry(e)
    modifies rq, rq.shapes
    ensures rq.Valid() && rq.shapes == old(rq.shapes)
    ensures rq.Contents() == Collect(old(rq.Contents()), q, n, sqrt)
    decreases n
  {
    if rq.IsFull() {
      return;
    }
    match n
    case Terminal(es, _) =>
      ghost var acc := rq.Contents();
      var i := 0;
      while i < |es|
        invariant 0 <= i <= |es|
        invariant rq.Valid() && rq.shapes == old(rq.shapes)
        invariant rq.Contents() == TerminalCollect(acc, q, es[..i], sqrt)
      {
        if rq.IsFull() {
          TerminalCollectStaysFull(acc, q, es, i, sqrt);
          break;
        }
        var m := EntryMatches(q, es[i], sqrt);
        assert es[..i + 1][..i] == es[..i];
        if m {
          rq.PushShape(es[i].shape);
        }
        i := i + 1;
      }
      if i == |es| {
        assert es[..i] == es;
      }
    case NonTerminal(n0, n1, _) =>
      if Reaches(q, n0.bounds) {
        QueryAt(rq, q, n0, sqrt);
      }
      if Reaches(q, n1.bounds) {
        QueryAt(rq, q, n1, sqrt);
      }
  }
}
