/** The invariant that ties the grid's cell table and its column and row
    counts to the set of registered dynamic shapes, how adding and removing
    a shape keep it, and what it gives the grid's range and pick queries:
    every registered shape that matches is reported unless the buffer
    fills. */
module DynamicIndex {
  import opened Vectors
  import Rects
  import Shapes
  import Intersections
  import StaticTrees
  import QueryResults
  import opened DynamicTables

  /** The registered dynamic shapes, each with the entry (bounds, type mask
      and geometry) it was listed under. */
  type Registry = map<Shapes.Shape, StaticTrees.Entry>

  /** The entry's bounds reach the cell. */
  predicate Spans(e: StaticTrees.Entry, c: Cell)
  {
    InRange(c, LowCell(e.bounds), HighCell(e.bounds))
  }

  /** No shape is listed twice. */
  predicate Distinct(b: seq<StaticTrees.Entry>)
  {
    forall i, j :: 0 <= i < j < |b| ==> b[i].shape != b[j].shape
  }

  /** Each registered shape's entry is its own and has well-formed bounds. */
  predicate EntriesHold(dyn: Registry)
  {
    forall s :: s in dyn ==> dyn[s].shape == s && Rects.WellFormed(dyn[s].bounds)
  }

  /** The table lists, in each cell, exactly the registered entries whose
      bounds reach the cell, each once; a cell with none is absent. */
  ghost predicate TableHolds(t: Table, dyn: Registry)
  {
    NoEmptyBuckets(t) &&
    (forall c :: Distinct(Lookup(t, c))) &&
    (forall c, e :: e in Lookup(t, c) ==> Registered(dyn, e, c)) &&
    (forall c, s {:trigger Reaching(dyn, s, c)} :: s in dyn && Reaching(dyn, s, c) ==> dyn[s] in Lookup(t, c))
  }

  /** The entry is its shape's registered entry and reaches the cell. */
  predicate Registered(dyn: Registry, e: StaticTrees.Entry, c: Cell)
  {
    e.shape in dyn && dyn[e.shape] == e && Spans(e, c)
  }

  /** The shape is registered and its entry reaches the cell. */
  predicate Reaching(dyn: Registry, s: Shapes.Shape, c: Cell)
  {
    s in dyn && Spans(dyn[s], c)
  }

  /** The two count maps: per column and per row. */
  datatype Dim = Column | Row

  /** The first and the last column (row) of the entry's cell range. */
  function Lo(e: StaticTrees.Entry, a: Dim): int
  {
    if a == Column then LowCell(e.bounds).x else LowCell(e.bounds).y
  }

  function Hi(e: StaticTrees.Entry, a: Dim): int
  {
    if a == Column then HighCell(e.bounds).x else HighCell(e.bounds).y
  }

  /** The registered shapes whose cell range reaches column (row) k. */
  ghost function Users(dyn: Registry, a: Dim, k: int): set<Shapes.Shape>
  {
    set s | s in dyn && Lo(dyn[s], a) <= k <= Hi(dyn[s], a)
  }

  /** Each count is the number of registered shapes reaching its column
      (row), and a column (row) with no such shape is absent. */
  ghost predicate AxisHolds(m: Counts, dyn: Registry, a: Dim)
  {
    Positive(m) && Bounded(m) && forall k :: Count(m, k) == |Users(dyn, a, k)|
  }

  ghost predicate CountsHold(xs: Counts, ys: Counts, dyn: Registry)
  {
    AxisHolds(xs, dyn, Column) && AxisHolds(ys, dyn, Row)
  }

  /** The empty grid: no cells, no counts, no shapes. */
  lemma EmptyHolds()
    ensures TableHolds(map[], map[]) && CountsHold(map[], map[], map[])
  {
    forall a: Dim, k: int
      ensures Count(map[], k) == |Users(map[], a, k)|
    {
      assert Users(map[], a, k) == {};
    }
  }

  lemma {:induction false} SubsetSize(a: set<Shapes.Shape>, b: set<Shapes.Shape>)
    requires a <= b
    ensures |a| <= |b|
    decreases |b|
  {
    if a != {} {
      var x :| x in a;
      SubsetSize(a - {x}, b - {x});
    }
  }

  /** No count exceeds the number of registered shapes. */
  lemma AxisAtMost(m: Counts, dyn: Registry, a: Dim)
    requires AxisHolds(m, dyn, a)
    ensures forall k :: Count(m, k) <= |dyn|
  {
    forall k
      ensures Count(m, k) <= |dyn|
    {
      SubsetSize(Users(dyn, a, k), dyn.Keys);
    }
  }

  // ---------------------------------------------------------------------
  // Adding a shape

  lemma AppendDistinct(b: seq<StaticTrees.Entry>, e: StaticTrees.Entry)
    requires Distinct(b) && forall x :: x in b ==> x.shape != e.shape
    ensures Distinct(b + [e])
  {
    var b' := b + [e];
    forall i, j | 0 <= i < j < |b'|
      ensures b'[i].shape != b'[j].shape
    {
      if j == |b| {
        assert b'[i] == b[i] && b[i] in b;
      } else {
        assert b'[i] == b[i] && b'[j] == b[j];
      }
    }
  }

  /** `addToDynamicTable`'s table loops keep the table invariant with the
      new shape registered. */
  lemma AddHolds(t: Table, dyn: Registry, e: StaticTrees.Entry)
    requires TableHolds(t, dyn) && EntriesHold(dyn)
    requires e.shape !in dyn && Rects.WellFormed(e.bounds)
    ensures TableHolds(AddCells(t, e, LowCell(e.bounds), HighCell(e.bounds), HighCell(e.bounds).x + 1), dyn[e.shape := e])
    ensures EntriesHold(dyn[e.shape := e])
  {
    var lo, hi := LowCell(e.bounds), HighCell(e.bounds);
    AddCellsLookup(t, e, lo, hi, hi.x + 1);
    BucketsAfterAdd(t, AddCells(t, e, lo, hi, hi.x + 1), dyn, e);
  }

  lemma BucketsAfterAdd(t: Table, t': Table, dyn: Registry, e: StaticTrees.Entry)
    requires TableHolds(t, dyn) && e.shape !in dyn && NoEmptyBuckets(t')
    requires forall c :: Lookup(t', c) == Lookup(t, c) + (if Spans(e, c) then [e] else [])
    ensures TableHolds(t', dyn[e.shape := e])
  {
    var dyn' := dyn[e.shape := e];
    forall c
      ensures Distinct(Lookup(t', c))
      ensures forall x :: x in Lookup(t', c) ==> Registered(dyn', x, c)
      ensures forall u :: u in dyn' && Reaching(dyn', u, c) ==> dyn'[u] in Lookup(t', c)
    {
      AddedBucket(Lookup(t, c), Lookup(t', c), dyn, dyn', e, c);
    }
  }

  /** One cell of the addition: the new list repeats no shape, lists only
      registered entries that reach the cell, and lists every one of them,
      the new shape's included. */
  lemma AddedBucket(b: seq<StaticTrees.Entry>, b': seq<StaticTrees.Entry>, dyn: Registry, dyn': Registry, e: StaticTrees.Entry, c: Cell)
    requires Distinct(b) && forall y :: y in b ==> Registered(dyn, y, c)
    requires forall u :: u in dyn && Reaching(dyn, u, c) ==> dyn[u] in b
    requires e.shape !in dyn && dyn' == dyn[e.shape := e]
    requires b' == b + (if Spans(e, c) then [e] else [])
    ensures Distinct(b')
    ensures forall x :: x in b' ==> Registered(dyn', x, c)
    ensures forall u :: u in dyn' && Reaching(dyn', u, c) ==> dyn'[u] in b'
  {
    if Spans(e, c) {
      AppendDistinct(b, e);
    }
    forall x | x in b'
      ensures Registered(dyn', x, c)
    {
      if x !in b {
        assert x == e;
      } else {
        assert Registered(dyn, x, c);
      }
    }
    forall u | u in dyn' && Reaching(dyn', u, c)
      ensures dyn'[u] in b'
    {
      if u != e.shape {
        assert Reaching(dyn, u, c);
      }
    }
  }

  /** Registering a shape adds it to the users of exactly the columns
      (rows) of its range. */
  lemma UsersAdd(dyn: Registry, e: StaticTrees.Entry, a: Dim, k: int)
    requires e.shape !in dyn
    ensures e.shape !in Users(dyn, a, k)
    ensures Users(dyn[e.shape := e], a, k) == if Lo(e, a) <= k <= Hi(e, a) then Users(dyn, a, k) + {e.shape} else Users(dyn, a, k)
  {
  }

  /** The count loop of one axis keeps its invariant with the new shape
      registered, so long as fewer than SIZE_MAX shapes were registered
      (no count wraps around). */
  lemma AddAxis(m: Counts, dyn: Registry, e: StaticTrees.Entry, a: Dim)
    requires AxisHolds(m, dyn, a) && e.shape !in dyn && |dyn| < SizeMax
    ensures AxisHolds(BumpKeys(m, Lo(e, a), Hi(e, a) + 1), dyn[e.shape := e], a)
  {
    var m' := BumpKeys(m, Lo(e, a), Hi(e, a) + 1);
    AxisAtMost(m, dyn, a);
    BumpKeysCount(m, Lo(e, a), Hi(e, a) + 1);
    forall k
      ensures Count(m', k) == |Users(dyn[e.shape := e], a, k)|
    {
      UsersAdd(dyn, e, a, k);
    }
    forall k | k in m'
      ensures m'[k] > 0
    {
      assert Count(m', k) == m'[k];
      if !(Lo(e, a) <= k <= Hi(e, a)) {
        assert Count(m, k) == m[k];
      }
    }
  }

  /** `addToDynamicTable`'s column and row loops keep both count maps'
      invariant. */
  lemma AddCounts(xs: Counts, ys: Counts, dyn: Registry, e: StaticTrees.Entry)
    requires CountsHold(xs, ys, dyn) && e.shape !in dyn && |dyn| < SizeMax
    ensures CountsHold(BumpKeys(xs, LowCell(e.bounds).x, HighCell(e.bounds).x + 1),
                       BumpKeys(ys, LowCell(e.bounds).y, HighCell(e.bounds).y + 1), dyn[e.shape := e])
  {
    AddAxis(xs, dyn, e, Column);
    AddAxis(ys, dyn, e, Row);
  }

  // ---------------------------------------------------------------------
  // Removing a shape

  /** Removing the first entry for a shape from a list without repeated
      shapes removes every entry for it and keeps the others. */
  lemma {:induction false} RemoveFirstDistinct(b: seq<StaticTrees.Entry>, s: Shapes.Shape)
    requires Distinct(b)
    ensures Distinct(RemoveFirst(b, s))
    ensures forall x :: x in RemoveFirst(b, s) <==> x in b && x.shape != s
  {
    if b != [] {
      var tail := b[1..];
      assert b == [b[0]] + tail;
      assert Distinct(tail) by {
        forall i, j | 0 <= i < j < |tail|
          ensures tail[i].shape != tail[j].shape
        {
          assert tail[i] == b[i + 1] && tail[j] == b[j + 1];
        }
      }
      assert forall x :: x in tail ==> x.shape != b[0].shape by {
        forall x | x in tail
          ensures x.shape != b[0].shape
        {
          var j :| 0 <= j < |tail| && tail[j] == x;
          assert b[j + 1] == x;
        }
      }
      RemoveFirstDistinct(tail, s);
      if b[0].shape != s {
        var r := [b[0]] + RemoveFirst(tail, s);
        forall i, j | 0 <= i < j < |r|
          ensures r[i].shape != r[j].shape
        {
          if i > 0 {
            assert r[i] == RemoveFirst(tail, s)[i - 1] && r[j] == RemoveFirst(tail, s)[j - 1];
          } else {
            assert r[j] in RemoveFirst(tail, s);
          }
        }
      }
    }
  }

  /** `removeFromDynamicTable`'s table loops, over the range of the bounds
      the shape was listed under, keep the table invariant with the shape
      unregistered. */
  lemma EraseHolds(t: Table, dyn: Registry, s: Shapes.Shape)
    requires TableHolds(t, dyn) && EntriesHold(dyn) && s in dyn
    ensures TableHolds(EraseCells(t, s, LowCell(dyn[s].bounds), HighCell(dyn[s].bounds), HighCell(dyn[s].bounds).x + 1), dyn - {s})
    ensures EntriesHold(dyn - {s})
  {
    var lo, hi := LowCell(dyn[s].bounds), HighCell(dyn[s].bounds);
    EraseCellsLookup(t, s, lo, hi, hi.x + 1);
    BucketsAfterErase(t, EraseCells(t, s, lo, hi, hi.x + 1), dyn, s);
  }

  lemma BucketsAfterErase(t: Table, t': Table, dyn: Registry, s: Shapes.Shape)
    requires TableHolds(t, dyn) && EntriesHold(dyn) && s in dyn
    requires forall c :: Lookup(t', c) == if Spans(dyn[s], c) then RemoveFirst(Lookup(t, c), s) else Lookup(t, c)
    requires NoEmptyBuckets(t')
    ensures TableHolds(t', dyn - {s})
  {
    var dyn' := dyn - {s};
    forall c
      ensures Distinct(Lookup(t', c))
      ensures forall x :: x in Lookup(t', c) ==> Registered(dyn', x, c)
      ensures forall u :: u in dyn' && Reaching(dyn', u, c) ==> dyn'[u] in Lookup(t', c)
    {
      ErasedBucket(Lookup(t, c), Lookup(t', c), dyn, s, c);
    }
  }

  /** One cell of the removal: the new list repeats no shape, lists only
      registered entries other than the shape's that reach the cell, and
      every one of them. */
  lemma ErasedBucket(b: seq<StaticTrees.Entry>, b': seq<StaticTrees.Entry>, dyn: Registry, s: Shapes.Shape, c: Cell)
    requires Distinct(b) && forall y :: y in b ==> Registered(dyn, y, c)
    requires forall u :: u in dyn && Reaching(dyn, u, c) ==> dyn[u] in b
    requires EntriesHold(dyn) && s in dyn
    requires b' == if Spans(dyn[s], c) then RemoveFirst(b, s) else b
    ensures Distinct(b')
    ensures forall x :: x in b' ==> Registered(dyn - {s}, x, c)
    ensures forall u :: u in dyn - {s} && Reaching(dyn - {s}, u, c) ==> (dyn - {s})[u] in b'
  {
    var dyn' := dyn - {s};
    if Spans(dyn[s], c) {
      RemoveFirstDistinct(b, s);
    } else {
      forall x | x in b
        ensures x.shape != s
      {
        assert Registered(dyn, x, c);
      }
    }
    forall x | x in b'
      ensures Registered(dyn', x, c)
    {
      assert x in b && x.shape != s;
      assert Registered(dyn, x, c);
    }
    forall u | u in dyn' && Reaching(dyn', u, c)
      ensures dyn'[u] in b'
    {
      assert Reaching(dyn, u, c);
      assert dyn[u] in b && dyn[u].shape == u;
    }
  }

  /** Unregistering a shape removes it from the users of exactly the
      columns (rows) of its range. */
  lemma UsersErase(dyn: Registry, s: Shapes.Shape, a: Dim, k: int)
    requires s in dyn
    ensures s !in Users(dyn - {s}, a, k)
    ensures Users(dyn, a, k) == if Lo(dyn[s], a) <= k <= Hi(dyn[s], a) then Users(dyn - {s}, a, k) + {s} else Users(dyn - {s}, a, k)
  {
  }

  /** The count loop of one axis in the removal keeps its invariant with
      the shape unregistered: each count it reaches drops by one, and a
      count reaching zero goes. */
  lemma EraseAxis(m: Counts, dyn: Registry, s: Shapes.Shape, a: Dim)
    requires AxisHolds(m, dyn, a) && s in dyn
    ensures AxisHolds(DropKeys(m, Lo(dyn[s], a), Hi(dyn[s], a) + 1), dyn - {s}, a)
  {
    var lo, hi := Lo(dyn[s], a), Hi(dyn[s], a);
    var m' := DropKeys(m, lo, hi + 1);
    DropKeysCount(m, lo, hi + 1);
    forall k
      ensures Count(m', k) == |Users(dyn - {s}, a, k)|
    {
      UsersErase(dyn, s, a, k);
    }
    forall k | k in m'
      ensures m'[k] > 0
    {
      assert Count(m', k) == m'[k];
      if !(lo <= k <= hi) {
        assert Count(m, k) == m[k];
      }
    }
  }

  /** `removeFromDynamicTable`'s column and row loops keep both count maps'
      invariant. */
  lemma EraseCounts(xs: Counts, ys: Counts, dyn: Registry, s: Shapes.Shape)
    requires CountsHold(xs, ys, dyn) && s in dyn
    ensures CountsHold(DropKeys(xs, LowCell(dyn[s].bounds).x, HighCell(dyn[s].bounds).x + 1),
                       DropKeys(ys, LowCell(dyn[s].bounds).y, HighCell(dyn[s].bounds).y + 1), dyn - {s})
  {
    EraseAxis(xs, dyn, s, Column);
    EraseAxis(ys, dyn, s, Row);
  }

  /** Removing a shape just added, over the same bounds, restores the table
      and both count maps exactly. */
  lemma RemoveUndoesAdd(t: Table, xs: Counts, ys: Counts, dyn: Registry, e: StaticTrees.Entry)
    requires TableHolds(t, dyn) && CountsHold(xs, ys, dyn) && e.shape !in dyn
    ensures var lo, hi := LowCell(e.bounds), HighCell(e.bounds);
            EraseCells(AddCells(t, e, lo, hi, hi.x + 1), e.shape, lo, hi, hi.x + 1) == t &&
            DropKeys(BumpKeys(xs, lo.x, hi.x + 1), lo.x, hi.x + 1) == xs &&
            DropKeys(BumpKeys(ys, lo.y, hi.y + 1), lo.y, hi.y + 1) == ys
  {
    var lo, hi := LowCell(e.bounds), HighCell(e.bounds);
    EraseUndoesAdd(t, e, lo, hi);
    DropUndoesBump(xs, lo.x, hi.x + 1);
    DropUndoesBump(ys, lo.y, hi.y + 1);
  }

  // ---------------------------------------------------------------------
  // Queries over the grid

  lemma {:induction false} ColumnEntriesHas(t: Table, x: int, y0: int, j: int, c: Cell)
    requires c.x == x && y0 <= c.y < j
    ensures forall e :: e in Lookup(t, c) ==> e in ColumnEntries(t, x, y0, j)
    decreases j - y0
  {
    if c.y < j - 1 {
      ColumnEntriesHas(t, x, y0, j - 1, c);
    }
  }

  /** The range scan lists the entries of every cell of the range. */
  lemma {:induction false} RangeEntriesHas(t: Table, lo: Cell, hi: Cell, i: int, c: Cell)
    requires lo.x <= c.x < i && lo.y <= c.y <= hi.y
    ensures forall e :: e in Lookup(t, c) ==> e in RangeEntries(t, lo, hi, i)
    decreases i - lo.x
  {
    if c.x < i - 1 {
      RangeEntriesHas(t, lo, hi, i - 1, c);
    } else {
      ColumnEntriesHas(t, i - 1, lo.y, hi.y + 1, c);
    }
  }

  lemma {:induction false} ColumnEntriesFrom(t: Table, x: int, y0: int, j: int)
    ensures forall e :: e in ColumnEntries(t, x, y0, j) ==> exists c :: e in Lookup(t, c)
    decreases j - y0
  {
    if j > y0 {
      ColumnEntriesFrom(t, x, y0, j - 1);
      forall e | e in ColumnEntries(t, x, y0, j)
        ensures exists c :: e in Lookup(t, c)
      {
        if e !in ColumnEntries(t, x, y0, j - 1) {
          assert e in Lookup(t, Cell(x, j - 1));
        }
      }
    }
  }

  /** Every entry the range scan lists comes from some cell. */
  lemma {:induction false} RangeEntriesFrom(t: Table, lo: Cell, hi: Cell, i: int)
    ensures forall e :: e in RangeEntries(t, lo, hi, i) ==> exists c :: e in Lookup(t, c)
    decreases i - lo.x
  {
    if i > lo.x {
      RangeEntriesFrom(t, lo, hi, i - 1);
      ColumnEntriesFrom(t, i - 1, lo.y, hi.y + 1);
    }
  }

  /** Under the invariant a listed entry is its shape's registered entry. */
  lemma ListedIsRegistered(t: Table, dyn: Registry, es: seq<StaticTrees.Entry>)
    requires TableHolds(t, dyn)
    requires forall e :: e in es ==> exists c :: e in Lookup(t, c)
    ensures forall e :: e in es ==> e.shape in dyn && dyn[e.shape] == e
    ensures Consistent(es)
  {
  }

  /** A point of a registered shape's bounds lies within the grid's bounds,
      in a cell that lists the shape. */
  lemma PointListed(t: Table, xs: Counts, ys: Counts, dyn: Registry, s: Shapes.Shape, p: Vec2)
    requires TableHolds(t, dyn) && CountsHold(xs, ys, dyn) && EntriesHold(dyn)
    requires s in dyn && Rects.ContainsPoint(dyn[s].bounds, p)
    ensures dyn[s] in Lookup(t, CellAddress(p)) && |t| > 0
    ensures Rects.ContainsPoint(DynamicBounds(xs, ys), p)
  {
    var e := dyn[s];
    var c := CellAddress(p);
    RangeCoversRect(e.bounds, p);
    assert Reaching(dyn, s, c);
    assert e in Lookup(t, c);
    assert c in t;
    assert s in Users(dyn, Column, c.x) && s in Users(dyn, Row, c.y);
    assert Count(xs, c.x) > 0 && Count(ys, c.y) > 0;
    DynamicBoundsCover(xs, ys, c);
    PointInItsCell(p);
  }

  /** `dynamicRangeQuery` reports only registered shapes that match the
      query (mask, exclusion, touching bounds), each at most once, keeps
      what the buffer held, and never goes past twelve shapes. */
  lemma DynamicRangeSound(t: Table, xs: Counts, ys: Counts, dyn: Registry, acc: seq<Shapes.Shape?>, r: Rects.Rect, mask: bv64, exclude: Shapes.Shape?)
    requires TableHolds(t, dyn)
    ensures var res := DynamicRange(t, xs, ys, acc, r, mask, exclude);
            |acc| <= |res| && res[..|acc|] == acc &&
            (|acc| <= QueryResults.MaxCollisions ==> |res| <= QueryResults.MaxCollisions) &&
            (forall k :: |acc| <= k < |res| ==> res[k] in dyn && StaticTrees.RangeMatches(r, mask, exclude, dyn[res[k]])) &&
            (forall k, l :: |acc| <= k < l < |res| ==> res[k] != res[l])
  {
    var res := DynamicRange(t, xs, ys, acc, r, mask, exclude);
    if |t| != 0 && Intersections.TestRectRect(r, DynamicBounds(xs, ys)) {
      var es := RangeEntries(t, LowCell(r), HighCell(r), HighCell(r).x + 1);
      RangeFoldSound(acc, r, mask, exclude, es);
      RangeEntriesFrom(t, LowCell(r), HighCell(r), HighCell(r).x + 1);
      ListedIsRegistered(t, dyn, es);
      forall k | |acc| <= k < |res|
        ensures res[k] in dyn && StaticTrees.RangeMatches(r, mask, exclude, dyn[res[k]])
      {
        assert Listed(es, res[k], r, mask, exclude);
      }
    }
  }

  /** `dynamicRangeQuery` misses no registered shape that matches: when it
      ends with room left in the buffer, every registered shape passing the
      mask and the exclusion whose bounds touch the rect was reported. */
  lemma DynamicRangeComplete(t: Table, xs: Counts, ys: Counts, dyn: Registry, acc: seq<Shapes.Shape?>, r: Rects.Rect, mask: bv64, exclude: Shapes.Shape?, s: Shapes.Shape)
    requires TableHolds(t, dyn) && CountsHold(xs, ys, dyn) && EntriesHold(dyn) && Rects.WellFormed(r)
    requires s in dyn && StaticTrees.RangeMatches(r, mask, exclude, dyn[s])
    requires |DynamicRange(t, xs, ys, acc, r, mask, exclude)| < QueryResults.MaxCollisions
    ensures s in DynamicRange(t, xs, ys, acc, r, mask, exclude)
  {
    RangeReachesEntry(t, xs, ys, dyn, r, s);
    var lo, hi := LowCell(r), HighCell(r);
    var es := RangeEntries(t, lo, hi, hi.x + 1);
    RangeEntriesFrom(t, lo, hi, hi.x + 1);
    ListedIsRegistered(t, dyn, es);
    RangeFoldComplete(acc, r, mask, exclude, es);
  }

  /** A registered shape whose bounds touch the rect passes the grid's
      bounds test, and its entry is among those the range scan lists. */
  lemma RangeReachesEntry(t: Table, xs: Counts, ys: Counts, dyn: Registry, r: Rects.Rect, s: Shapes.Shape)
    requires TableHolds(t, dyn) && CountsHold(xs, ys, dyn) && EntriesHold(dyn) && Rects.WellFormed(r)
    requires s in dyn && Intersections.TestRectRect(r, dyn[s].bounds)
    ensures |t| != 0 && Intersections.TestRectRect(r, DynamicBounds(xs, ys))
    ensures dyn[s] in RangeEntries(t, LowCell(r), HighCell(r), HighCell(r).x + 1)
  {
    var e := dyn[s];
    Intersections.TestRectRectIffCommonPoint(r, e.bounds);
    var p := Vec2(Rects.Max(Rects.Left(r), Rects.Left(e.bounds)), Rects.Max(Rects.Bottom(r), Rects.Bottom(e.bounds)));
    PointListed(t, xs, ys, dyn, s, p);
    Intersections.TestRectRectIffCommonPoint(r, DynamicBounds(xs, ys));
    RangeCoversRect(r, p);
    RangeEntriesHas(t, LowCell(r), HighCell(r), HighCell(r).x + 1, CellAddress(p));
  }

  /** `dynamicPickQuery` reports only shapes of the point's cell that match
      the pick query, keeping what the buffer held. */
  lemma DynamicPickSound(t: Table, xs: Counts, ys: Counts, dyn: Registry, acc: seq<Shapes.Shape?>, pt: Vec2, mask: bv64, sqrt: real -> real)
    requires IsSqrt(sqrt) && TableHolds(t, dyn)
    ensures var res := DynamicPick(t, xs, ys, acc, pt, mask, sqrt);
            |acc| <= |res| && res[..|acc|] == acc &&
            (|acc| <= QueryResults.MaxCollisions ==> |res| <= QueryResults.MaxCollisions) &&
            (forall k :: |acc| <= k < |res| ==> res[k] in dyn && StaticTrees.PickMatches(pt, mask, dyn[res[k]], sqrt))
  {
    var res := DynamicPick(t, xs, ys, acc, pt, mask, sqrt);
    if |t| != 0 && Intersections.TestRectPoint(DynamicBounds(xs, ys), pt) {
      var q := StaticTrees.PickQuery(pt, mask);
      var es := Lookup(t, CellAddress(pt));
      StaticTrees.TerminalCollectSound(acc, q, es, sqrt);
      forall k | |acc| <= k < |res|
        ensures res[k] in dyn && StaticTrees.PickMatches(pt, mask, dyn[res[k]], sqrt)
      {
        assert StaticTrees.FoundIn(es, res[k], q, sqrt);
      }
    }
  }

  /** `dynamicPickQuery` misses no registered shape that contains the point
      and passes the mask, unless the buffer fills. */
  lemma DynamicPickComplete(t: Table, xs: Counts, ys: Counts, dyn: Registry, acc: seq<Shapes.Shape?>, pt: Vec2, mask: bv64, sqrt: real -> real, s: Shapes.Shape)
    requires IsSqrt(sqrt) && TableHolds(t, dyn) && CountsHold(xs, ys, dyn) && EntriesHold(dyn)
    requires s in dyn && StaticTrees.PickMatches(pt, mask, dyn[s], sqrt)
    requires |DynamicPick(t, xs, ys, acc, pt, mask, sqrt)| < QueryResults.MaxCollisions
    ensures s in DynamicPick(t, xs, ys, acc, pt, mask, sqrt)
  {
    PointListed(t, xs, ys, dyn, s, pt);
    StaticTrees.TerminalCollectComplete(acc, StaticTrees.PickQuery(pt, mask), Lookup(t, CellAddress(pt)), sqrt);
  }

  // ---------------------------------------------------------------------
  /** The whole grid invariant: registered entries are placeable, the table
      holds exactly them in the cells they reach, the counts agree, and the
      number of registered shapes fits the counter width. */
  ghost predicate GridHolds(t: Table, xs: Counts, ys: Counts, dyn: Registry)
  {
    EntriesHold(dyn) && TableHolds(t, dyn) && CountsHold(xs, ys, dyn) && |dyn| <= SizeMax
  }

  /** Adding an unregistered entry's cells and counts keeps the grid
      invariant, with the entry now registered. */
  lemma AddKeepsGrid(t: Table, xs: Counts, ys: Counts, dyn: Registry, e: StaticTrees.Entry)
    requires GridHolds(t, xs, ys, dyn) && e.shape !in dyn && Rects.WellFormed(e.bounds) && |dyn| < SizeMax
    ensures GridHolds(AddCells(t, e, LowCell(e.bounds), HighCell(e.bounds), HighCell(e.bounds).x + 1),
                      BumpKeys(xs, LowCell(e.bounds).x, HighCell(e.bounds).x + 1),
                      BumpKeys(ys, LowCell(e.bounds).y, HighCell(e.bounds).y + 1), dyn[e.shape := e])
  {
    AddHolds(t, dyn, e);
    AddCounts(xs, ys, dyn, e);
  }

  /** Erasing a registered shape's cells and counts keeps the grid
      invariant, with the shape no longer registered. */
  lemma EraseKeepsGrid(t: Table, xs: Counts, ys: Counts, dyn: Registry, s: Shapes.Shape)
    requires GridHolds(t, xs, ys, dyn) && s in dyn
    ensures GridHolds(EraseCells(t, s, LowCell(dyn[s].bounds), HighCell(dyn[s].bounds), HighCell(dyn[s].bounds).x + 1),
                      DropKeys(xs, LowCell(dyn[s].bounds).x, HighCell(dyn[s].bounds).x + 1),
                      DropKeys(ys, LowCell(dyn[s].bounds).y, HighCell(dyn[s].bounds).y + 1), dyn - {s})
  {
    EraseHolds(t, dyn, s);
    EraseCounts(xs, ys, dyn, s);
    assert (dyn - {s}).Keys < dyn.Keys;
  }
}
