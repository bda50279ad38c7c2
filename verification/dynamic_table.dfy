/** The dynamic half of the spatial tree: a uniform grid of square cells.
    A dynamic shape is listed in every cell its bounds reach; two ordered
    count maps record, per column and per row, how many shape registrations
    span it, and their extreme keys give the grid's bounds. */
module DynamicTables {
  import opened Vectors
  import Rects
  import Shapes
  import Intersections
  import StaticTrees

  /** `SbCellSize`: the side of a grid cell. */
  const CellSize: real := 4.0

  /** `std::numeric_limits<size_t>::max()`: the count a decrement of zero
      wraps to. */
  const SizeMax: nat := 0xFFFF_FFFF_FFFF_FFFF

  /** A cell address: the column and the row. */
  datatype Cell = Cell(x: int, y: int)

  /** `cellAddress`: each coordinate divided by the cell size, rounded
      down; the point lies in the cell's square. */
  function CellAddress(v: Vec2): (c: Cell)
    ensures c.x as real * CellSize <= v.x < (c.x + 1) as real * CellSize
    ensures c.y as real * CellSize <= v.y < (c.y + 1) as real * CellSize
  {
    Cell((v.x / CellSize).Floor, (v.y / CellSize).Floor)
  }

  /** `cellBounds`: the square of the cell. */
  function CellBounds(c: Cell): (r: Rects.Rect)
    ensures Rects.WellFormed(r)
    ensures Rects.Left(r) == c.x as real * CellSize && Rects.Right(r) == (c.x + 1) as real * CellSize
    ensures Rects.Bottom(r) == c.y as real * CellSize && Rects.Top(r) == (c.y + 1) as real * CellSize
  {
    Rects.SetBounds(Rects.Default, c.x as real * CellSize, (c.x + 1) as real * CellSize, c.y as real * CellSize, (c.y + 1) as real * CellSize)
  }

  /** Every point lies in the square of its own cell. */
  lemma PointInItsCell(v: Vec2)
    ensures Rects.ContainsPoint(CellBounds(CellAddress(v)), v)
  {
  }

  /** Cell addresses grow with the coordinates. */
  lemma AddressMonotone(u: Vec2, v: Vec2)
    requires u.x <= v.x && u.y <= v.y
    ensures CellAddress(u).x <= CellAddress(v).x && CellAddress(u).y <= CellAddress(v).y
  {
    var cu, cv := CellAddress(u), CellAddress(v);
  }

  /** The cell is between the low and the high corner cells. */
  predicate InRange(c: Cell, lo: Cell, hi: Cell)
  {
    lo.x <= c.x <= hi.x && lo.y <= c.y <= hi.y
  }

  /** `cellAddressRange`: the cells of the bottom-left and the top-right
      corners of a rect. */
  function LowCell(b: Rects.Rect): Cell { CellAddress(Rects.BottomLeft(b)) }
  function HighCell(b: Rects.Rect): Cell { CellAddress(Rects.TopRight(b)) }

  /** Every point of a well-formed rect lies in a cell of its range. */
  lemma RangeCoversRect(b: Rects.Rect, p: Vec2)
    requires Rects.WellFormed(b) && Rects.ContainsPoint(b, p)
    ensures InRange(CellAddress(p), LowCell(b), HighCell(b))
  {
    AddressMonotone(Rects.BottomLeft(b), p);
    AddressMonotone(p, Rects.TopRight(b));
  }

  // ---------------------------------------------------------------------
  // The cell table

  /** The multimap from cells to shapes, as one list of entries per cell;
      a cell with no entry is absent. */
  type Table = map<Cell, seq<StaticTrees.Entry>>

  function Lookup(t: Table, c: Cell): seq<StaticTrees.Entry>
  {
    if c in t then t[c] else []
  }

  predicate NoEmptyBuckets(t: Table)
  {
    forall c :: c in t ==> t[c] != []
  }

  /** Two tables without empty buckets are equal when every cell lists the
      same entries. */
  lemma TablesEqual(t1: Table, t2: Table)
    requires NoEmptyBuckets(t1) && NoEmptyBuckets(t2)
    requires forall c :: Lookup(t1, c) == Lookup(t2, c)
    ensures t1 == t2
  {
    assert forall c :: c in t1 <==> Lookup(t1, c) != [];
    assert forall c :: c in t2 <==> Lookup(t2, c) != [];
    assert t1.Keys == t2.Keys;
  }

  /** `insert({cell, s})`. */
  function Insert(t: Table, c: Cell, e: StaticTrees.Entry): Table
  {
    t[c := Lookup(t, c) + [e]]
  }

  /** The list without the first entry for the shape. */
  function RemoveFirst(b: seq<StaticTrees.Entry>, s: Shapes.Shape): (r: seq<StaticTrees.Entry>)
    ensures |r| == |b| || |r| == |b| - 1
  {
    if b == [] then []
    else
      assert b == [b[0]] + b[1..];
      if b[0].shape == s then b[1..] else [b[0]] + RemoveFirst(b[1..], s)
  }

  /** Removal takes out the first entry for the shape and keeps every other
      entry, in order. */
  lemma {:induction false} RemoveFirstAt(b: seq<StaticTrees.Entry>, s: Shapes.Shape, k: nat)
    requires k < |b| && b[k].shape == s
    requires forall i :: 0 <= i < k ==> b[i].shape != s
    ensures RemoveFirst(b, s) == b[..k] + b[k + 1..]
  {
    if k > 0 {
      var tail := b[1..];
      assert tail[k - 1] == b[k];
      RemoveFirstAt(tail, s, k - 1);
      assert b[..k] == [b[0]] + tail[..k - 1];
      assert b[k + 1..] == tail[k..];
    }
  }

  /** A list without an entry for the shape is left as it is. */
  lemma {:induction false} RemoveFirstAbsent(b: seq<StaticTrees.Entry>, s: Shapes.Shape)
    requires forall i :: 0 <= i < |b| ==> b[i].shape != s
    ensures RemoveFirst(b, s) == b
  {
    if b != [] {
      RemoveFirstAbsent(b[1..], s);
    }
  }

  /** Removing an appended entry whose shape was not listed undoes the
      append. */
  lemma {:induction false} RemoveFirstAppended(b: seq<StaticTrees.Entry>, e: StaticTrees.Entry)
    requires forall x :: x in b ==> x.shape != e.shape
    ensures RemoveFirst(b + [e], e.shape) == b
  {
    if b != [] {
      assert (b + [e])[1..] == b[1..] + [e];
      RemoveFirstAppended(b[1..], e);
      assert b == [b[0]] + b[1..];
    }
  }

  /** The erase loop on one cell: the first entry for the shape goes; a
      cell left without entries disappears. */
  function EraseOne(t: Table, c: Cell, s: Shapes.Shape): Table
  {
    var b := RemoveFirst(Lookup(t, c), s);
    if b == [] then t - {c} else t[c := b]
  }

  lemma InsertLookup(t: Table, c: Cell, e: StaticTrees.Entry)
    requires NoEmptyBuckets(t)
    ensures NoEmptyBuckets(Insert(t, c, e))
    ensures forall d :: Lookup(Insert(t, c, e), d) == Lookup(t, d) + (if d == c then [e] else [])
  {
  }

  lemma EraseOneLookup(t: Table, c: Cell, s: Shapes.Shape)
    requires NoEmptyBuckets(t)
    ensures NoEmptyBuckets(EraseOne(t, c, s))
    ensures forall d :: Lookup(EraseOne(t, c, s), d) == if d == c then RemoveFirst(Lookup(t, d), s) else Lookup(t, d)
  {
  }

  /** Rows y0 .. j-1 of column x, the inner loop of `addToDynamicTable`. */
  function AddColumn(t: Table, e: StaticTrees.Entry, x: int, y0: int, j: int): Table
    decreases j - y0
  {
    if j <= y0 then t else Insert(AddColumn(t, e, x, y0, j - 1), Cell(x, j - 1), e)
  }

  /** Columns lo.x .. i-1, each over rows lo.y .. hi.y. */
  function AddCells(t: Table, e: StaticTrees.Entry, lo: Cell, hi: Cell, i: int): Table
    decreases i - lo.x
  {
    if i <= lo.x then t else AddColumn(AddCells(t, e, lo, hi, i - 1), e, i - 1, lo.y, hi.y + 1)
  }

  /** The same shape of loops for `removeFromDynamicTable`. */
  function EraseColumn(t: Table, s: Shapes.Shape, x: int, y0: int, j: int): Table
    decreases j - y0
  {
    if j <= y0 then t else EraseOne(EraseColumn(t, s, x, y0, j - 1), Cell(x, j - 1), s)
  }

  function EraseCells(t: Table, s: Shapes.Shape, lo: Cell, hi: Cell, i: int): Table
    decreases i - lo.x
  {
    if i <= lo.x then t else EraseColumn(EraseCells(t, s, lo, hi, i - 1), s, i - 1, lo.y, hi.y + 1)
  }

  /** A column's insertions append the entry to exactly the cells of rows
      y0 .. j-1 of the column. */
  lemma {:induction false} AddColumnLookup(t: Table, e: StaticTrees.Entry, x: int, y0: int, j: int)
    requires NoEmptyBuckets(t)
    ensures NoEmptyBuckets(AddColumn(t, e, x, y0, j))
    ensures forall c :: Lookup(AddColumn(t, e, x, y0, j), c) ==
                        Lookup(t, c) + (if c.x == x && y0 <= c.y < j then [e] else [])
    decreases j - y0
  {
    if j > y0 {
      AddColumnLookup(t, e, x, y0, j - 1);
      InsertLookup(AddColumn(t, e, x, y0, j - 1), Cell(x, j - 1), e);
    }
  }

  /** `addToDynamicTable`'s table loops append the entry to exactly the
      cells of the range, and leave every other cell as it was. */
  lemma {:induction false} AddCellsLookup(t: Table, e: StaticTrees.Entry, lo: Cell, hi: Cell, i: int)
    requires NoEmptyBuckets(t)
    ensures NoEmptyBuckets(AddCells(t, e, lo, hi, i))
    ensures forall c :: Lookup(AddCells(t, e, lo, hi, i), c) ==
                        Lookup(t, c) + (if lo.x <= c.x < i && lo.y <= c.y <= hi.y then [e] else [])
    decreases i - lo.x
  {
    if i > lo.x {
      AddCellsLookup(t, e, lo, hi, i - 1);
      AddColumnLookup(AddCells(t, e, lo, hi, i - 1), e, i - 1, lo.y, hi.y + 1);
    }
  }

  lemma {:induction false} EraseColumnLookup(t: Table, s: Shapes.Shape, x: int, y0: int, j: int)
    requires NoEmptyBuckets(t)
    ensures NoEmptyBuckets(EraseColumn(t, s, x, y0, j))
    ensures forall c :: Lookup(EraseColumn(t, s, x, y0, j), c) ==
                        (if c.x == x && y0 <= c.y < j then RemoveFirst(Lookup(t, c), s) else Lookup(t, c))
    decreases j - y0
  {
    if j > y0 {
      EraseColumnLookup(t, s, x, y0, j - 1);
      EraseOneLookup(EraseColumn(t, s, x, y0, j - 1), Cell(x, j - 1), s);
    }
  }

  /** `removeFromDynamicTable`'s table loops remove the first entry for the
      shape from exactly the cells of the range. */
  lemma {:induction false} EraseCellsLookup(t: Table, s: Shapes.Shape, lo: Cell, hi: Cell, i: int)
    requires NoEmptyBuckets(t)
    ensures NoEmptyBuckets(EraseCells(t, s, lo, hi, i))
    ensures forall c :: Lookup(EraseCells(t, s, lo, hi, i), c) ==
                        (if lo.x <= c.x < i && lo.y <= c.y <= hi.y then RemoveFirst(Lookup(t, c), s) else Lookup(t, c))
    decreases i - lo.x
  {
    if i > lo.x {
      EraseCellsLookup(t, s, lo, hi, i - 1);
      EraseColumnLookup(EraseCells(t, s, lo, hi, i - 1), s, i - 1, lo.y, hi.y + 1);
    }
  }

  /** Removing a shape over the range it was added with restores the table,
      when the shape was not listed before. */
  lemma EraseUndoesAdd(t: Table, e: StaticTrees.Entry, lo: Cell, hi: Cell)
    requires NoEmptyBuckets(t)
    requires forall c, x :: x in Lookup(t, c) ==> x.shape != e.shape
    ensures EraseCells(AddCells(t, e, lo, hi, hi.x + 1), e.shape, lo, hi, hi.x + 1) == t
  {
    var added := AddCells(t, e, lo, hi, hi.x + 1);
    AddCellsLookup(t, e, lo, hi, hi.x + 1);
    EraseCellsLookup(added, e.shape, lo, hi, hi.x + 1);
    var back := EraseCells(added, e.shape, lo, hi, hi.x + 1);
    forall c
      ensures Lookup(back, c) == Lookup(t, c)
    {
      if InRange(c, lo, hi) {
        RemoveFirstAppended(Lookup(t, c), e);
      }
    }
    TablesEqual(back, t);
  }

  // ---------------------------------------------------------------------
  // The column and row counts

  /** `std::map<float, size_t>`: a count per column (or row). */
  type Counts = map<int, nat>

  function Count(m: Counts, k: int): nat
  {
    if k in m then m[k] else 0
  }

  /** `++` on a size_t: SIZE_MAX wraps to zero. */
  function Bump(v: nat): nat
  {
    if v >= SizeMax then 0 else v + 1
  }

  /** `--` on a size_t: zero wraps to SIZE_MAX. */
  function Drop(v: nat): nat
  {
    if v == 0 then SizeMax else v - 1
  }

  /** The bump of one key: a present key's count grows, an absent key
      starts at one. */
  function BumpKey(m: Counts, k: int): Counts
  {
    m[k := Bump(Count(m, k))]
  }

  /** The drop of one key: `m[k]--` (an absent key first reads as zero),
      then the key goes when the count is zero. */
  function DropKey(m: Counts, k: int): Counts
  {
    var v := Drop(Count(m, k));
    if v == 0 then m - {k} else m[k := v]
  }

  /** Keys first .. last-1, in increasing order. */
  function BumpKeys(m: Counts, first: int, last: int): Counts
    decreases last - first
  {
    if last <= first then m else BumpKey(BumpKeys(m, first, last - 1), last - 1)
  }

  function DropKeys(m: Counts, first: int, last: int): Counts
    decreases last - first
  {
    if last <= first then m else DropKey(DropKeys(m, first, last - 1), last - 1)
  }

  /** Counts no larger than SIZE_MAX. */
  predicate Bounded(m: Counts)
  {
    forall k :: k in m ==> m[k] <= SizeMax
  }

  /** Bumping keys first .. last-1 bumps exactly their counts and makes them
      present. */
  lemma {:induction false} BumpKeysCount(m: Counts, first: int, last: int)
    requires Bounded(m)
    ensures Bounded(BumpKeys(m, first, last))
    ensures forall k :: k in BumpKeys(m, first, last) <==> k in m || first <= k < last
    ensures forall k :: Count(BumpKeys(m, first, last), k) == (if first <= k < last then Bump(Count(m, k)) else Count(m, k))
    decreases last - first
  {
    if last > first {
      BumpKeysCount(m, first, last - 1);
    }
  }

  /** Dropping keys first .. last-1 drops exactly their counts; a key whose
      count reaches zero goes. */
  lemma {:induction false} DropKeysCount(m: Counts, first: int, last: int)
    requires Bounded(m)
    ensures Bounded(DropKeys(m, first, last))
    ensures forall k :: k in DropKeys(m, first, last) <==>
                        (if first <= k < last then Drop(Count(m, k)) != 0 else k in m)
    ensures forall k :: Count(DropKeys(m, first, last), k) == (if first <= k < last then Drop(Count(m, k)) else Count(m, k))
    decreases last - first
  {
    if last > first {
      DropKeysCount(m, first, last - 1);
    }
  }

  /** Counts without a present zero. */
  predicate Positive(m: Counts)
  {
    forall k :: k in m ==> m[k] > 0
  }

  /** Dropping the keys just bumped restores the counts, when no present key
      counted zero: `--` undoes `++` even across the wrap-around. */
  lemma DropUndoesBump(m: Counts, first: int, last: int)
    requires Bounded(m) && Positive(m)
    ensures DropKeys(BumpKeys(m, first, last), first, last) == m
  {
    var up := BumpKeys(m, first, last);
    BumpKeysCount(m, first, last);
    DropKeysCount(up, first, last);
    var back := DropKeys(up, first, last);
    forall k
      ensures k in back <==> k in m
      ensures k in m ==> back[k] == m[k]
    {
      assert Count(back, k) == Count(m, k);
    }
  }

  /** Without wrap-around a bump and a drop keep every present count
      positive. */
  lemma BumpKeepsPositive(m: Counts, first: int, last: int)
    requires Bounded(m) && Positive(m)
    requires forall k :: k in m ==> m[k] < SizeMax
    ensures Positive(BumpKeys(m, first, last))
  {
    BumpKeysCount(m, first, last);
    forall k | k in BumpKeys(m, first, last)
      ensures BumpKeys(m, first, last)[k] > 0
    {
      assert Count(BumpKeys(m, first, last), k) > 0;
    }
  }

  // ---------------------------------------------------------------------
  // The grid's bounds

  /** A set with a positive size has a member. */
  lemma Inhabited(s: set<int>)
    requires |s| > 0
    ensures exists x :: x in s
  {
    if forall x :: x !in s {
      assert false;
    }
  }

  lemma {:induction false} HasLeast(s: set<int>)
    requires |s| > 0
    ensures exists x :: x in s && forall y :: y in s ==> x <= y
    decreases |s|
  {
    Inhabited(s);
    var x :| x in s;
    var rest := s - {x};
    if rest == {} {
      forall y | y in s
        ensures y == x
      {
        assert y !in rest;
      }
      assert x in s && forall y :: y in s ==> x <= y;
    } else {
      assert |rest| == |s| - 1;
      HasLeast(rest);
      var m :| m in rest && forall y :: y in rest ==> m <= y;
      var least := if x < m then x else m;
      assert forall y :: y in s ==> y == x || y in rest;
      assert least in s && forall y :: y in s ==> least <= y;
    }
  }

  lemma {:induction false} HasGreatest(s: set<int>)
    requires |s| > 0
    ensures exists x :: x in s && forall y :: y in s ==> y <= x
    decreases |s|
  {
    Inhabited(s);
    var x :| x in s;
    var rest := s - {x};
    if rest == {} {
      forall y | y in s
        ensures y == x
      {
        assert y !in rest;
      }
      assert x in s && forall y :: y in s ==> y <= x;
    } else {
      assert |rest| == |s| - 1;
      HasGreatest(rest);
      var m :| m in rest && forall y :: y in rest ==> y <= m;
      var greatest := if x > m then x else m;
      assert forall y :: y in s ==> y == x || y in rest;
      assert greatest in s && forall y :: y in s ==> y <= greatest;
    }
  }

  /** `begin()->first` of an ordered map: the least key. */
  function MinKey(m: Counts): (k: int)
    requires |m| > 0
    ensures k in m && forall j :: j in m ==> k <= j
  {
    assert |m.Keys| == |m|;
    HasLeast(m.Keys);
    var k :| k in m && forall j :: j in m ==> k <= j;
    k
  }

  /** `rbegin()->first`: the greatest key. */
  function MaxKey(m: Counts): (k: int)
    requires |m| > 0
    ensures k in m && forall j :: j in m ==> j <= k
  {
    assert |m.Keys| == |m|;
    HasGreatest(m.Keys);
    var k :| k in m && forall j :: j in m ==> j <= k;
    k
  }

  /** `dynamicBounds`: the default rect when either count map is empty,
      otherwise the union of the cells at the least and the greatest
      column and row keys. */
  function DynamicBounds(xs: Counts, ys: Counts): (r: Rects.Rect)
    ensures Rects.WellFormed(r)
  {
    if |xs| == 0 || |ys| == 0 then Rects.Default
    else
      Rects.GetUnion(CellBounds(Cell(MinKey(xs), MinKey(ys))), CellBounds(Cell(MaxKey(xs), MaxKey(ys))))
  }

  /** The grid's bounds contain the square of every cell whose column and
      row both have a count. */
  lemma DynamicBoundsCover(xs: Counts, ys: Counts, c: Cell)
    requires c.x in xs && c.y in ys
    ensures Rects.ContainsRect(DynamicBounds(xs, ys), CellBounds(c))
  {
    var lo := Cell(MinKey(xs), MinKey(ys));
    var hi := Cell(MaxKey(xs), MaxKey(ys));
    Rects.UnionEdges(CellBounds(lo), CellBounds(hi));
    assert lo.x as real * CellSize <= c.x as real * CellSize;
    assert (c.x + 1) as real * CellSize <= (hi.x + 1) as real * CellSize;
    assert lo.y as real * CellSize <= c.y as real * CellSize;
    assert (c.y + 1) as real * CellSize <= (hi.y + 1) as real * CellSize;
  }

  // ---------------------------------------------------------------------
  // Queries

  /** `dynamicPickQuery`: nothing for an empty table or a point outside
      the grid's bounds; otherwise the point's own cell is scanned as a
      static terminal node is. */
  function DynamicPick(t: Table, xs: Counts, ys: Counts, acc: seq<Shapes.Shape?>, pt: Vec2, mask: bv64, sqrt: real -> real): seq<Shapes.Shape?>
    requires IsSqrt(sqrt)
  {
    if |t| == 0 then acc
    else if !Intersections.TestRectPoint(DynamicBounds(xs, ys), pt) then acc
    else StaticTrees.TerminalCollect(acc, StaticTrees.PickQuery(pt, mask), Lookup(t, CellAddress(pt)), sqrt)
  }

  /** The state of the range query's scan: the shapes pushed so far and the
      shapes already checked. */
  datatype Scan = Scan(pushed: seq<Shapes.Shape?>, checked: set<Shapes.Shape>)

  /** One entry of `dynamicRangeQuery`: with the buffer full, nothing; an
      entry failing the mask, the excluded shape or a shape already checked
      is skipped; otherwise the shape is pushed when its bounds touch the
      rect, and counts as checked either way. */
  function RangeStep(st: Scan, r: Rects.Rect, mask: bv64, exclude: Shapes.Shape?, e: StaticTrees.Entry): Scan
  {
    if |st.pushed| >= 12 then st
    else if e.typeMask & mask == 0 then st
    else if exclude != null && e.shape == exclude then st
    else if e.shape in st.checked then st
    else Scan(if Intersections.TestRectRect(e.bounds, r) then st.pushed + [e.shape] else st.pushed, st.checked + {e.shape})
  }

  function RangeFold(st: Scan, r: Rects.Rect, mask: bv64, exclude: Shapes.Shape?, es: seq<StaticTrees.Entry>): Scan
  {
    if es == [] then st
    else RangeStep(RangeFold(st, r, mask, exclude, es[..|es| - 1]), r, mask, exclude, es[|es| - 1])
  }

  /** The entries of rows y0 .. j-1 of column x, cell after cell. */
  function ColumnEntries(t: Table, x: int, y0: int, j: int): seq<StaticTrees.Entry>
    decreases j - y0
  {
    if j <= y0 then [] else ColumnEntries(t, x, y0, j - 1) + Lookup(t, Cell(x, j - 1))
  }

  /** The entries of columns lo.x .. i-1 over rows lo.y .. hi.y, in the
      query's loop order. */
  function RangeEntries(t: Table, lo: Cell, hi: Cell, i: int): seq<StaticTrees.Entry>
    decreases i - lo.x
  {
    if i <= lo.x then [] else RangeEntries(t, lo, hi, i - 1) + ColumnEntries(t, i - 1, lo.y, hi.y + 1)
  }

  /** `dynamicRangeQuery`: nothing for an empty table or a rect missing the
      grid's bounds; otherwise the scan over the cells of the rect's range,
      starting with nothing checked. */
  function DynamicRange(t: Table, xs: Counts, ys: Counts, acc: seq<Shapes.Shape?>, r: Rects.Rect, mask: bv64, exclude: Shapes.Shape?): seq<Shapes.Shape?>
  {
    if |t| == 0 then acc
    else if !Intersections.TestRectRect(r, DynamicBounds(xs, ys)) then acc
    else RangeFold(Scan(acc, {}), r, mask, exclude, RangeEntries(t, LowCell(r), HighCell(r), HighCell(r).x + 1)).pushed
  }

  /** Once the buffer is full the scan changes nothing. */
  lemma {:induction false} RangeFoldFull(st: Scan, r: Rects.Rect, mask: bv64, exclude: Shapes.Shape?, es: seq<StaticTrees.Entry>)
    requires |st.pushed| >= 12
    ensures RangeFold(st, r, mask, exclude, es) == st
  {
    if es != [] {
      RangeFoldFull(st, r, mask, exclude, es[..|es| - 1]);
    }
  }

  /** The scan over two lists is the scan over the second from where the
      first left off. */
  lemma {:induction false} RangeFoldAppend(st: Scan, r: Rects.Rect, mask: bv64, exclude: Shapes.Shape?, a: seq<StaticTrees.Entry>, b: seq<StaticTrees.Entry>)
    ensures RangeFold(st, r, mask, exclude, a + b) == RangeFold(RangeFold(st, r, mask, exclude, a), r, mask, exclude, b)
  {
    if b == [] {
      assert a + b == a;
    } else {
      assert (a + b)[..|a + b| - 1] == a + b[..|b| - 1];
      RangeFoldAppend(st, r, mask, exclude, a, b[..|b| - 1]);
    }
  }

  /** The test is symmetric in its two rects. */
  lemma TestRectRectSymmetric(a: Rects.Rect, b: Rects.Rect)
    ensures Intersections.TestRectRect(a, b) == Intersections.TestRectRect(b, a)
  {
  }

  /** What the scan keeps, from a state whose buffer held `acc` with
      nothing checked: the old shapes stay; the buffer never passes twelve;
      every new shape is distinct, checked, and the shape of a listed entry
      that matches the range query; every checked shape is the shape of a
      listed entry passing the mask and the exclusion. */
  predicate RangeScanned(acc: seq<Shapes.Shape?>, st: Scan, r: Rects.Rect, mask: bv64, exclude: Shapes.Shape?, es: seq<StaticTrees.Entry>)
  {
    |acc| <= |st.pushed| && st.pushed[..|acc|] == acc &&
    (|acc| <= 12 ==> |st.pushed| <= 12) &&
    (forall k :: |acc| <= k < |st.pushed| ==> st.pushed[k] in st.checked && Listed(es, st.pushed[k], r, mask, exclude)) &&
    (forall k, l :: |acc| <= k < l < |st.pushed| ==> st.pushed[k] != st.pushed[l]) &&
    (forall x :: x in st.checked ==> Checked(es, x, mask, exclude))
  }

  /** Some listed entry for the shape matches the range query. */
  predicate Listed(es: seq<StaticTrees.Entry>, x: Shapes.Shape?, r: Rects.Rect, mask: bv64, exclude: Shapes.Shape?)
  {
    exists e :: e in es && e.shape == x && StaticTrees.RangeMatches(r, mask, exclude, e)
  }

  /** Some listed entry for the shape passes the mask and the exclusion. */
  predicate Checked(es: seq<StaticTrees.Entry>, x: Shapes.Shape, mask: bv64, exclude: Shapes.Shape?)
  {
    exists e :: e in es && e.shape == x && e.typeMask & mask != 0 && !(exclude != null && e.shape == exclude)
  }

  lemma RangeStepKeeps(acc: seq<Shapes.Shape?>, st: Scan, r: Rects.Rect, mask: bv64, exclude: Shapes.Shape?, init: seq<StaticTrees.Entry>, e: StaticTrees.Entry)
    requires RangeScanned(acc, st, r, mask, exclude, init)
    ensures RangeScanned(acc, RangeStep(st, r, mask, exclude, e), r, mask, exclude, init + [e])
  {
    var es := init + [e];
    var st' := RangeStep(st, r, mask, exclude, e);
    assert e in es;
    forall x | x in st'.checked
      ensures Checked(es, x, mask, exclude)
    {
      if x in st.checked {
        var w :| w in init && w.shape == x && w.typeMask & mask != 0 && !(exclude != null && w.shape == exclude);
        assert w in es;
      }
    }
    forall k | |acc| <= k < |st'.pushed|
      ensures st'.pushed[k] in st'.checked && Listed(es, st'.pushed[k], r, mask, exclude)
    {
      if k < |st.pushed| {
        assert st'.pushed[k] == st.pushed[k];
        var w :| w in init && w.shape == st.pushed[k] && StaticTrees.RangeMatches(r, mask, exclude, w);
        assert w in es;
      } else {
        TestRectRectSymmetric(e.bounds, r);
      }
    }
    assert st'.pushed[..|acc|] == st.pushed[..|acc|];
  }

  /** The scan's soundness: new shapes are distinct shapes of listed
      entries matching the range query. */
  lemma {:induction false} RangeFoldSound(acc: seq<Shapes.Shape?>, r: Rects.Rect, mask: bv64, exclude: Shapes.Shape?, es: seq<StaticTrees.Entry>)
    ensures RangeScanned(acc, RangeFold(Scan(acc, {}), r, mask, exclude, es), r, mask, exclude, es)
  {
    if es != [] {
      var init := es[..|es| - 1];
      RangeFoldSound(acc, r, mask, exclude, init);
      assert es == init + [es[|es| - 1]];
      RangeStepKeeps(acc, RangeFold(Scan(acc, {}), r, mask, exclude, init), r, mask, exclude, init, es[|es| - 1]);
    }
  }

  /** Entries for the same shape are the same entry (a shape is added once,
      with one snapshot). */
  predicate Consistent(es: seq<StaticTrees.Entry>)
  {
    forall i, j :: 0 <= i < |es| && 0 <= j < |es| && es[i].shape == es[j].shape ==> es[i] == es[j]
  }

  /** The scan's completeness: when it ends with room left, every listed
      entry matching the range query had its shape pushed. Checking each
      shape once loses nothing, because every entry for a shape is the
      same. */
  lemma {:induction false} RangeFoldComplete(acc: seq<Shapes.Shape?>, r: Rects.Rect, mask: bv64, exclude: Shapes.Shape?, es: seq<StaticTrees.Entry>)
    requires Consistent(es)
    requires |RangeFold(Scan(acc, {}), r, mask, exclude, es).pushed| < 12
    ensures forall e :: e in es && StaticTrees.RangeMatches(r, mask, exclude, e) ==> e.shape in RangeFold(Scan(acc, {}), r, mask, exclude, es).pushed
    ensures forall x :: x in RangeFold(Scan(acc, {}), r, mask, exclude, es).checked ==> exists e :: e in es && e.shape == x
  {
    if es != [] {
      var init := es[..|es| - 1];
      var e := es[|es| - 1];
      var prev := RangeFold(Scan(acc, {}), r, mask, exclude, init);
      var st := RangeFold(Scan(acc, {}), r, mask, exclude, es);
      assert st == RangeStep(prev, r, mask, exclude, e);
      assert |prev.pushed| <= |st.pushed| && st.pushed[..|prev.pushed|] == prev.pushed;
      assert Consistent(init) by {
        forall i, j | 0 <= i < |init| && 0 <= j < |init| && init[i].shape == init[j].shape
          ensures init[i] == init[j]
        {
          assert init[i] == es[i] && init[j] == es[j];
        }
      }
      RangeFoldComplete(acc, r, mask, exclude, init);
      forall w | w in es && StaticTrees.RangeMatches(r, mask, exclude, w)
        ensures w.shape in st.pushed
      {
        if w in init {
          assert w.shape in prev.pushed;
        } else {
          assert w == e;
          TestRectRectSymmetric(e.bounds, r);
        }
      }
      forall x | x in st.checked
        ensures exists w :: w in es && w.shape == x
      {
        if x in prev.checked {
          var v :| v in init && v.shape == x;
          assert v in es;
        } else {
          assert x == e.shape && e in es;
        }
      }
    }
  }
}
