/** The loops of the grid that holds the dynamic shapes: the insertion and
    the removal loops of `addToDynamicTable` and `removeFromDynamicTable`,
    and the scans of `dynamicRangeQuery` and `dynamicPickQuery`, each proved
    against the table functions it implements. */
module DynamicGrid {
  import opened Vectors
  import Rects
  import Shapes
  import Intersections
  import StaticTrees
  import QueryResults
  import opened DynamicTables

  /** The corner cells of a well-formed rect are in order. */
  lemma CornersOrdered(b: Rects.Rect)
    requires Rects.WellFormed(b)
    ensures LowCell(b).x <= HighCell(b).x && LowCell(b).y <= HighCell(b).y
  {
    AddressMonotone(Rects.BottomLeft(b), Rects.TopRight(b));
  }

  /** `addToDynamicTable`: for each column of the bounds' cell range, one
      entry per cell of the column, then the column's count; then the count
      of each row. A count not yet present starts at one. */
  method AddToTable(t: Table, xs: Counts, ys: Counts, e: StaticTrees.Entry) returns (t': Table, xs': Counts, ys': Counts)
    requires Rects.WellFormed(e.bounds)
    ensures t' == AddCells(t, e, LowCell(e.bounds), HighCell(e.bounds), HighCell(e.bounds).x + 1)
    ensures xs' == BumpKeys(xs, LowCell(e.bounds).x, HighCell(e.bounds).x + 1)
    ensures ys' == BumpKeys(ys, LowCell(e.bounds).y, HighCell(e.bounds).y + 1)
  {
    var lo, hi := LowCell(e.bounds), HighCell(e.bounds);
    CornersOrdered(e.bounds);
    t', xs', ys' := t, xs, ys;
    var i := lo.x;
    while i <= hi.x
      invariant lo.x <= i <= hi.x + 1
      invariant t' == AddCells(t, e, lo, hi, i)
      invariant xs' == BumpKeys(xs, lo.x, i)
    {
      var j := lo.y;
      while j <= hi.y
        invariant lo.y <= j <= hi.y + 1
        invariant t' == AddColumn(AddCells(t, e, lo, hi, i), e, i, lo.y, j)
      {
        t' := Insert(t', Cell(i, j), e);
        j := j + 1;
      }
      if i in xs' {
        xs' := xs'[i := Bump(xs'[i])];
      } else {
        xs' := xs'[i := 1];
      }
      i := i + 1;
    }
    var j := lo.y;
    while j <= hi.y
      invariant lo.y <= j <= hi.y + 1
      invariant ys' == BumpKeys(ys, lo.y, j)
    {
      if j in ys' {
        ys' := ys'[j := Bump(ys'[j])];
      } else {
        ys' := ys'[j := 1];
      }
      j := j + 1;
    }
  }

  /** The erase of one cell: the bucket is scanned for the first entry of
      the shape, which goes; a cell without such an entry is left alone. */
  method EraseFromCell(t: Table, c: Cell, s: Shapes.Shape) returns (t': Table)
    requires NoEmptyBuckets(t)
    ensures t' == EraseOne(t, c, s) && NoEmptyBuckets(t')
  {
    var bucket := Lookup(t, c);
    var k := 0;
    while k < |bucket| && bucket[k].shape != s
      invariant 0 <= k <= |bucket|
      invariant forall m :: 0 <= m < k ==> bucket[m].shape != s
    {
      k := k + 1;
    }
    if k < |bucket| {
      RemoveFirstAt(bucket, s, k);
      var rest := bucket[..k] + bucket[k + 1..];
      if rest == [] {
        t' := t - {c};
      } else {
        t' := t[c := rest];
      }
    } else {
      RemoveFirstAbsent(bucket, s);
      t' := t;
      if c in t {
        assert t[c := bucket] == t;
      } else {
        assert t - {c} == t;
      }
    }
  }

  /** `removeFromDynamicTable` over the cell range of the bounds: the
      shape's first entry goes from each cell, each column's and each row's
      count drops by one (an absent count reads as zero first), and a count
      reaching zero goes. */
  method EraseFromTable(t: Table, xs: Counts, ys: Counts, s: Shapes.Shape, b: Rects.Rect) returns (t': Table, xs': Counts, ys': Counts)
    requires Rects.WellFormed(b) && NoEmptyBuckets(t)
    ensures t' == EraseCells(t, s, LowCell(b), HighCell(b), HighCell(b).x + 1)
    ensures xs' == DropKeys(xs, LowCell(b).x, HighCell(b).x + 1)
    ensures ys' == DropKeys(ys, LowCell(b).y, HighCell(b).y + 1)
  {
    var lo, hi := LowCell(b), HighCell(b);
    CornersOrdered(b);
    t', xs' := t, xs;
    var i := lo.x;
    while i <= hi.x
      invariant lo.x <= i <= hi.x + 1
      invariant t' == EraseCells(t, s, lo, hi, i)
      invariant xs' == DropKeys(xs, lo.x, i)
    {
      CellsKeepBuckets(t, s, lo, hi, i);
      t' := EraseFromColumn(t', s, i, lo.y, hi.y);
      var v := Drop(Count(xs', i));
      if v == 0 {
        xs' := xs' - {i};
      } else {
        xs' := xs'[i := v];
      }
      i := i + 1;
    }
    ys' := DropRows(ys, lo.y, hi.y);
  }

  /** The inner loop of the removal: the cells of one column. */
  method EraseFromColumn(t: Table, s: Shapes.Shape, x: int, y0: int, y1: int) returns (t': Table)
    requires NoEmptyBuckets(t) && y0 <= y1 + 1
    ensures t' == EraseColumn(t, s, x, y0, y1 + 1)
  {
    t' := t;
    var j := y0;
    while j <= y1
      invariant y0 <= j <= y1 + 1
      invariant t' == EraseColumn(t, s, x, y0, j)
    {
      ColumnKeepsBuckets(t, s, x, y0, j);
      t' := EraseFromCell(t', Cell(x, j), s);
      j := j + 1;
    }
  }

  lemma {:induction false} ColumnKeepsBuckets(t: Table, s: Shapes.Shape, x: int, y0: int, j: int)
    requires NoEmptyBuckets(t)
    ensures NoEmptyBuckets(EraseColumn(t, s, x, y0, j))
    decreases j - y0
  {
    if j > y0 {
      ColumnKeepsBuckets(t, s, x, y0, j - 1);
    }
  }

  lemma {:induction false} CellsKeepBuckets(t: Table, s: Shapes.Shape, lo: Cell, hi: Cell, i: int)
    requires NoEmptyBuckets(t)
    ensures NoEmptyBuckets(EraseCells(t, s, lo, hi, i))
    decreases i - lo.x
  {
    if i > lo.x {
      CellsKeepBuckets(t, s, lo, hi, i - 1);
      ColumnKeepsBuckets(EraseCells(t, s, lo, hi, i - 1), s, i - 1, lo.y, hi.y + 1);
    }
  }

  /** The row loop of the removal. */
  method DropRows(m: Counts, y0: int, y1: int) returns (m': Counts)
    requires y0 <= y1 + 1
    ensures m' == DropKeys(m, y0, y1 + 1)
  {
    m' := m;
    var j := y0;
    while j <= y1
      invariant y0 <= j <= y1 + 1
      invariant m' == DropKeys(m, y0, j)
    {
      var v := Drop(Count(m', j));
      if v == 0 {
        m' := m' - {j};
      } else {
        m' := m'[j := v];
      }
      j := j + 1;
    }
  }

  // ---------------------------------------------------------------------
  // Prefixes of the range scan

  predicate IsPrefix(a: seq<StaticTrees.Entry>, b: seq<StaticTrees.Entry>)
  {
    |a| <= |b| && b[..|a|] == a
  }

  lemma {:induction false} ColumnPrefix(t: Table, x: int, y0: int, j: int, k: int)
    requires y0 <= j <= k
    ensures IsPrefix(ColumnEntries(t, x, y0, j), ColumnEntries(t, x, y0, k))
    decreases k - j
  {
    if j < k {
      ColumnPrefix(t, x, y0, j, k - 1);
      var a, b := ColumnEntries(t, x, y0, j), ColumnEntries(t, x, y0, k - 1);
      assert (b + Lookup(t, Cell(x, k - 1)))[..|a|] == b[..|a|];
    }
  }

  lemma {:induction false} RangePrefix(t: Table, lo: Cell, hi: Cell, i: int, k: int)
    requires lo.x <= i <= k
    ensures IsPrefix(RangeEntries(t, lo, hi, i), RangeEntries(t, lo, hi, k))
    decreases k - i
  {
    if i < k {
      RangePrefix(t, lo, hi, i, k - 1);
      var a, b := RangeEntries(t, lo, hi, i), RangeEntries(t, lo, hi, k - 1);
      assert (b + ColumnEntries(t, k - 1, lo.y, hi.y + 1))[..|a|] == b[..|a|];
    }
  }

  /** Where the query's loops stand: the entries of the finished columns,
      of the finished cells of the current column and the first k entries
      of the current cell form a prefix of all the entries of the range. */
  lemma ScanPrefix(t: Table, lo: Cell, hi: Cell, i: int, j: int, k: nat)
    requires lo.x <= i <= hi.x && lo.y <= j <= hi.y && k <= |Lookup(t, Cell(i, j))|
    ensures IsPrefix(RangeEntries(t, lo, hi, i) + ColumnEntries(t, i, lo.y, j) + Lookup(t, Cell(i, j))[..k],
                     RangeEntries(t, lo, hi, hi.x + 1))
  {
    var done := RangeEntries(t, lo, hi, i);
    var col := ColumnEntries(t, i, lo.y, j);
    var bucket := Lookup(t, Cell(i, j));
    ColumnPrefix(t, i, lo.y, j + 1, hi.y + 1);
    RangePrefix(t, lo, hi, i + 1, hi.x + 1);
    var whole := RangeEntries(t, lo, hi, hi.x + 1);
    var next := RangeEntries(t, lo, hi, i + 1);
    var cur := done + col + bucket[..k];
    assert next == done + ColumnEntries(t, i, lo.y, hi.y + 1);
    assert ColumnEntries(t, i, lo.y, j + 1) == col + bucket;
    assert next[..|cur|] == cur;
  }

  /** A scan whose buffer is full at a prefix ends where it is. */
  lemma FullAtPrefix(st: Scan, r: Rects.Rect, mask: bv64, exclude: Shapes.Shape?, pre: seq<StaticTrees.Entry>, es: seq<StaticTrees.Entry>)
    requires IsPrefix(pre, es)
    requires |RangeFold(st, r, mask, exclude, pre).pushed| >= 12
    ensures RangeFold(st, r, mask, exclude, es) == RangeFold(st, r, mask, exclude, pre)
  {
    assert es == pre + es[|pre|..];
    RangeFoldAppend(st, r, mask, exclude, pre, es[|pre|..]);
    RangeFoldFull(RangeFold(st, r, mask, exclude, pre), r, mask, exclude, es[|pre|..]);
  }

  /** One entry of the range scan, against `RangeStep`. */
  method RangeEntryAt(rq: QueryResults.RangeQueryResult, checked: set<Shapes.Shape>, r: Rects.Rect, mask: bv64, exclude: Shapes.Shape?, e: StaticTrees.Entry)
      returns (checked': set<Shapes.Shape>)
    requires rq.Valid() && !rq.IsFull()
    modifies rq, rq.shapes
    ensures rq.Valid() && rq.shapes == old(rq.shapes)
    ensures rq.Contents() == RangeStep(Scan(old(rq.Contents()), checked), r, mask, exclude, e).pushed
    ensures checked' == RangeStep(Scan(old(rq.Contents()), checked), r, mask, exclude, e).checked
  {
    checked' := checked;
    if e.typeMask & mask == 0 || (exclude != null && e.shape == exclude) || e.shape in checked {
      return;
    }
    if Intersections.TestRectRect(e.bounds, r) {
      rq.PushShape(e.shape);
    }
    checked' := checked + {e.shape};
  }

  /** The scan of one cell's entries; it stops, after k entries, when the
      buffer is full. */
  method RangeBucketAt(rq: QueryResults.RangeQueryResult, checked: set<Shapes.Shape>, ghost st0: Scan, r: Rects.Rect, mask: bv64, exclude: Shapes.Shape?,
                       ghost pre: seq<StaticTrees.Entry>, bucket: seq<StaticTrees.Entry>)
      returns (checked': set<Shapes.Shape>, stopped: bool, k: nat)
    requires rq.Valid() && Scan(rq.Contents(), checked) == RangeFold(st0, r, mask, exclude, pre)
    modifies rq, rq.shapes
    ensures rq.Valid() && rq.shapes == old(rq.shapes)
    ensures k <= |bucket| && Scan(rq.Contents(), checked') == RangeFold(st0, r, mask, exclude, pre + bucket[..k])
    ensures stopped ==> rq.IsFull()
    ensures !stopped ==> k == |bucket|
  {
    checked' := checked;
    k := 0;
    assert pre + bucket[..0] == pre;
    while k < |bucket|
      invariant 0 <= k <= |bucket|
      invariant rq.Valid() && rq.shapes == old(rq.shapes)
      invariant Scan(rq.Contents(), checked') == RangeFold(st0, r, mask, exclude, pre + bucket[..k])
    {
      if rq.IsFull() {
        return checked', true, k;
      }
      assert pre + bucket[..k + 1] == (pre + bucket[..k]) + [bucket[k]];
      checked' := RangeEntryAt(rq, checked', r, mask, exclude, bucket[k]);
      k := k + 1;
    }
    stopped := false;
  }

  /** The scan of the cells of column i; it stops, in row j after k of the
      cell's entries, when the buffer is full. */
  method RangeColumnAt(rq: QueryResults.RangeQueryResult, checked: set<Shapes.Shape>, ghost st0: Scan, r: Rects.Rect, mask: bv64, exclude: Shapes.Shape?,
                       t: Table, lo: Cell, hi: Cell, i: int)
      returns (checked': set<Shapes.Shape>, stopped: bool, j: int, k: nat)
    requires rq.Valid() && lo.x <= i && lo.y <= hi.y
    requires Scan(rq.Contents(), checked) == RangeFold(st0, r, mask, exclude, RangeEntries(t, lo, hi, i))
    modifies rq, rq.shapes
    ensures rq.Valid() && rq.shapes == old(rq.shapes)
    ensures stopped ==> rq.IsFull() && lo.y <= j <= hi.y && k <= |Lookup(t, Cell(i, j))|
    ensures stopped ==> Scan(rq.Contents(), checked') ==
                        RangeFold(st0, r, mask, exclude, RangeEntries(t, lo, hi, i) + ColumnEntries(t, i, lo.y, j) + Lookup(t, Cell(i, j))[..k])
    ensures !stopped ==> Scan(rq.Contents(), checked') == RangeFold(st0, r, mask, exclude, RangeEntries(t, lo, hi, i + 1))
  {
    checked', stopped, k := checked, false, 0;
    ColumnScanSteps(t, lo, hi, i, lo.y);
    j := lo.y;
    while j <= hi.y
      invariant lo.y <= j <= hi.y + 1
      invariant rq.Valid() && rq.shapes == old(rq.shapes)
      invariant Scan(rq.Contents(), checked') == RangeFold(st0, r, mask, exclude, RangeEntries(t, lo, hi, i) + ColumnEntries(t, i, lo.y, j))
    {
      var bucket := Lookup(t, Cell(i, j));
      checked', stopped, k := RangeBucketAt(rq, checked', st0, r, mask, exclude, RangeEntries(t, lo, hi, i) + ColumnEntries(t, i, lo.y, j), bucket);
      if stopped {
        return;
      }
      ColumnScanSteps(t, lo, hi, i, j);
      j := j + 1;
    }
  }

  /** How the scanned entries grow, cell by cell, along column i. */
  lemma ColumnScanSteps(t: Table, lo: Cell, hi: Cell, i: int, j: int)
    requires lo.y <= j
    ensures RangeEntries(t, lo, hi, i) + ColumnEntries(t, i, lo.y, lo.y) == RangeEntries(t, lo, hi, i)
    ensures (RangeEntries(t, lo, hi, i) + ColumnEntries(t, i, lo.y, j)) + Lookup(t, Cell(i, j))[..|Lookup(t, Cell(i, j))|] ==
            RangeEntries(t, lo, hi, i) + ColumnEntries(t, i, lo.y, j + 1)
    ensures lo.x <= i ==> RangeEntries(t, lo, hi, i + 1) == RangeEntries(t, lo, hi, i) + ColumnEntries(t, i, lo.y, hi.y + 1)
  {
    var bucket := Lookup(t, Cell(i, j));
    assert bucket[..|bucket|] == bucket;
  }

  /** `dynamicRangeQuery`: the buffer ends as `DynamicRange` says. */
  method DynamicRangeAt(rq: QueryResults.RangeQueryResult, t: Table, xs: Counts, ys: Counts, r: Rects.Rect, mask: bv64, exclude: Shapes.Shape?)
    requires rq.Valid() && Rects.WellFormed(r)
    modifies rq, rq.shapes
    ensures rq.Valid() && rq.shapes == old(rq.shapes)
    ensures rq.Contents() == DynamicRange(t, xs, ys, old(rq.Contents()), r, mask, exclude)
  {
    if |t| == 0 {
      return;
    }
    var bd := DynamicBounds(xs, ys);
    if !Intersections.TestRectRect(r, bd) {
      return;
    }
    CornersOrdered(r);
    RangeCellsAt(rq, r, mask, exclude, t, LowCell(r), HighCell(r));
  }

  /** The column loop of `dynamicRangeQuery` over the cells lo .. hi. */
  method RangeCellsAt(rq: QueryResults.RangeQueryResult, r: Rects.Rect, mask: bv64, exclude: Shapes.Shape?, t: Table, lo: Cell, hi: Cell)
    requires rq.Valid() && lo.x <= hi.x && lo.y <= hi.y
    modifies rq, rq.shapes
    ensures rq.Valid() && rq.shapes == old(rq.shapes)
    ensures rq.Contents() == RangeFold(Scan(old(rq.Contents()), {}), r, mask, exclude, RangeEntries(t, lo, hi, hi.x + 1)).pushed
  {
    ghost var st0 := Scan(rq.Contents(), {});
    var checked: set<Shapes.Shape> := {};
    var i := lo.x;
    while i <= hi.x
      invariant lo.x <= i <= hi.x + 1
      invariant rq.Valid() && rq.shapes == old(rq.shapes)
      invariant Scan(rq.Contents(), checked) == RangeFold(st0, r, mask, exclude, RangeEntries(t, lo, hi, i))
    {
      var stopped, j, k;
      checked, stopped, j, k := RangeColumnAt(rq, checked, st0, r, mask, exclude, t, lo, hi, i);
      if stopped {
        ScanPrefix(t, lo, hi, i, j, k);
        FullAtPrefix(st0, r, mask, exclude, RangeEntries(t, lo, hi, i) + ColumnEntries(t, i, lo.y, j) + Lookup(t, Cell(i, j))[..k],
                     RangeEntries(t, lo, hi, hi.x + 1));
        return;
      }
      i := i + 1;
    }
  }

  /** `dynamicPickQuery`: the buffer ends as `DynamicPick` says. */
  method DynamicPickAt(rq: QueryResults.RangeQueryResult, t: Table, xs: Counts, ys: Counts, pt: Vec2, mask: bv64, sqrt: real -> real)
    requires IsSqrt(sqrt) && rq.Valid()
    requires forall e :: e in Lookup(t, CellAddress(pt)) ==> StaticTrees.ProperEntry(e)
    modifies rq, rq.shapes
    ensures rq.Valid() && rq.shapes == old(rq.shapes)
    ensures rq.Contents() == DynamicPick(t, xs, ys, old(rq.Contents()), pt, mask, sqrt)
  {
    if |t| == 0 {
      return;
    }
    var bd := DynamicBounds(xs, ys);
    if !Intersections.TestRectPoint(bd, pt) {
      return;
    }
    var bucket := Lookup(t, CellAddress(pt));
    ghost var acc := rq.Contents();
    ghost var q := StaticTrees.PickQuery(pt, mask);
    var k := 0;
    while k < |bucket|
      invariant 0 <= k <= |bucket|
      invariant rq.Valid() && rq.shapes == old(rq.shapes)
      invariant rq.Contents() == StaticTrees.TerminalCollect(acc, q, bucket[..k], sqrt)
    {
      if rq.IsFull() {
        StaticTrees.TerminalCollectStaysFull(acc, q, bucket, k, sqrt);
        return;
      }
      assert bucket[..k + 1][..k] == bucket[..k];
      var m := StaticTrees.PickEntry(pt, mask, bucket[k], sqrt);
      if m {
        rq.PushShape(bucket[k].shape);
      }
      k := k + 1;
    }
    assert bucket[..k] == bucket;
  }
}
