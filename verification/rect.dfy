/** Axis-aligned rectangles stored as a centre and a size. */
module Rects {
  import opened Vectors
  import opened Lines
  import opened Options

  /** FLT_MAX and FLT_MIN (the smallest positive normal float). */
  const FloatMax: real := 340282346638528859811704183484516925440.0
  const FloatMin: real := 1.0 / 85070591730234615865843651857942052864.0

  datatype Rect = Rect(center: Vec2, size: Vec2)

  /** Every constructor and setter asserts a non-negative size. */
  predicate WellFormed(r: Rect) { r.size.x >= 0.0 && r.size.y >= 0.0 }

  /** `Rect()`: the empty rect at the origin. */
  const Default := Rect(Zero, Zero)

  /** `Rect(centerX, centerY, width, height)`. */
  function FromCenterSize(cx: real, cy: real, w: real, h: real): (r: Rect)
    requires w >= 0.0 && h >= 0.0
    ensures WellFormed(r) && Width(r) == w && Height(r) == h
    ensures Left(r) + w / 2.0 == cx && Bottom(r) + h / 2.0 == cy
  {
    Rect(Vec2(cx, cy), Vec2(w, h))
  }

  function Width(r: Rect): real { r.size.x }
  function Height(r: Rect): real { r.size.y }
  function Left(r: Rect): real { r.center.x - r.size.x / 2.0 }
  function Right(r: Rect): real { r.center.x + r.size.x / 2.0 }
  function Top(r: Rect): real { r.center.y + r.size.y / 2.0 }
  function Bottom(r: Rect): real { r.center.y - r.size.y / 2.0 }
  function Area(r: Rect): real { r.size.x * r.size.y }
  function Perimeter(r: Rect): real { 2.0 * r.size.x + 2.0 * r.size.y }

  /** The edges recovered from a rect: its width is right - left and its
      height top - bottom, and a well-formed rect has left <= right and
      bottom <= top. */
  lemma EdgesOfRect(r: Rect)
    ensures Right(r) - Left(r) == Width(r) && Top(r) - Bottom(r) == Height(r)
    ensures WellFormed(r) ==> Left(r) <= Right(r) && Bottom(r) <= Top(r)
    ensures r.center == Vec2((Left(r) + Right(r)) / 2.0, (Bottom(r) + Top(r)) / 2.0)
  {
  }

  /** `setWidth`. */
  function SetWidth(r: Rect, value: real): (q: Rect)
    requires value >= 0.0
    ensures q.center == r.center && Width(q) == value && Height(q) == Height(r)
  {
    r.(size := Vec2(value, r.size.y))
  }

  /** `setHeight`. */
  function SetHeight(r: Rect, value: real): (q: Rect)
    requires value >= 0.0
    ensures q.center == r.center && Height(q) == value && Width(q) == Width(r)
  {
    r.(size := Vec2(r.size.x, value))
  }

  /** `setSize`. */
  function SetSize(r: Rect, value: Vec2): (q: Rect)
    requires value.x >= 0.0 && value.y >= 0.0
    ensures q.center == r.center && q.size == value && WellFormed(q)
  {
    r.(size := value)
  }

  function Min(a: real, b: real): real { if a <= b then a else b }
  function Max(a: real, b: real): real { if a >= b then a else b }

  /** `setBounds(left, right, bottom, top)`: the bounds are swapped into order
      first, so the rect always spans the given coordinates. */
  function SetBounds(r: Rect, left: real, right: real, bottom: real, top: real): (q: Rect)
    ensures WellFormed(q)
    ensures Left(q) == Min(left, right) && Right(q) == Max(left, right)
    ensures Bottom(q) == Min(bottom, top) && Top(q) == Max(bottom, top)
  {
    var (l, rt) := if left > right then (right, left) else (left, right);
    var (b, t) := if bottom > top then (top, bottom) else (bottom, top);
    var w := rt - l;
    var h := t - b;
    Rect(Vec2(l + w / 2.0, b + h / 2.0), Vec2(w, h))
  }

  function TopLeft(r: Rect): Vec2 { Vec2(Left(r), Top(r)) }
  function TopRight(r: Rect): Vec2 { Vec2(Right(r), Top(r)) }
  function BottomLeft(r: Rect): Vec2 { Vec2(Left(r), Bottom(r)) }
  function BottomRight(r: Rect): Vec2 { Vec2(Right(r), Bottom(r)) }

  /** A product of naturals is a natural. */
  lemma {:induction false} MulNonNegative(a: int, b: int)
    requires a >= 0 && b >= 0
    ensures a * b >= 0
  {
    if a > 0 {
      MulNonNegative(a - 1, b);
      assert a * b == (a - 1) * b + b;
    }
  }

  /** Division with remainder is unique. */
  lemma DivModUnique(a: int, c: int, q: int, m: int)
    requires c > 0 && 0 <= m < c && a == q * c + m
    ensures a / c == q && a % c == m
  {
    var q', m' := a / c, a % c;
    assert a == q' * c + m';
    var d := q - q';
    assert d * c == m' - m by {
      assert q * c - q' * c == (q - q') * c;
    }
    if d > 0 {
      MulNonNegative(d - 1, c);
      assert false;
    } else if d < 0 {
      MulNonNegative(-d - 1, c);
      assert false;
    }
  }

  /** The index wrapping of `point`, `edge` and `normal` with wrap = true, as
      written: a negative index is negated, reduced with C++ truncating
      division and subtracted from the count. */
  function WrapIndexAsWritten(index: int, count: int): (r: int)
    requires count > 0
    ensures 0 <= r <= count
    ensures index >= 0 ==> r == index % count
    ensures index < 0 && index % count != 0 ==> r == index % count
    ensures index < 0 && index % count == 0 ==> r == count
  {
    if index < 0 then
      var i := -index;
      var i' := i - (i / count) * count;
      NegatedRemainder(index, count);
      count - i'
    else
      index - (index / count) * count
  }

  /** For a negative index, the remainder of its negation. */
  lemma NegatedRemainder(index: int, count: int)
    requires count > 0 && index < 0
    ensures index % count == 0 ==> (-index) % count == 0
    ensures index % count != 0 ==> (-index) % count == count - index % count
    ensures (-index) - ((-index) / count) * count == (-index) % count
  {
    var q, m := index / count, index % count;
    assert index == q * count + m;
    if m == 0 {
      DivModUnique(-index, count, -q, 0);
    } else {
      DivModUnique(-index, count, -q - 1, count - m);
    }
  }

  /** The wrapping the callers intend: the index taken modulo the count. */
  function WrapIndex(index: int, count: int): (r: int)
    requires count > 0
    ensures 0 <= r < count
    ensures index - r == (index / count) * count
  {
    index % count
  }

  /** The selection of `point`: 0 is bottom-right, 1 top-right, 2 top-left and
      any other value bottom-left. */
  function Corner(r: Rect, index: int): Vec2
  {
    if index == 0 then BottomRight(r)
    else if index == 1 then TopRight(r)
    else if index == 2 then TopLeft(r)
    else BottomLeft(r)
  }

  /** `point(index, wrap)` as written. Without wrap the index must be in
      0..3. */
  function PointAsWritten(r: Rect, index: int, wrap: bool): Vec2
    requires !wrap ==> 0 <= index < 4
  {
    Corner(r, if wrap then WrapIndexAsWritten(index, 4) else index)
  }

  /** `point(index, wrap)` with the intended wrapping; it agrees with the code
      as written everywhere except at the negative multiples of four. */
  function Point(r: Rect, index: int, wrap: bool): (p: Vec2)
    requires !wrap ==> 0 <= index < 4
    ensures p == Corner(r, if wrap then index % 4 else index)
    ensures !(wrap && index < 0 && index % 4 == 0) ==> p == PointAsWritten(r, index, wrap)
  {
    Corner(r, if wrap then WrapIndex(index, 4) else index)
  }

  /** At index -4 the code as written returns the bottom-left corner, while
      index -4 is index 0, the bottom-right corner. */
  lemma PointWrapMinusFour(r: Rect)
    requires Width(r) > 0.0
    ensures PointAsWritten(r, -4, true) == BottomLeft(r)
    ensures Point(r, -4, true) == BottomRight(r) == Point(r, 0, false)
    ensures PointAsWritten(r, -4, true) != Point(r, -4, true)
  {
  }

  /** Edge selection: right, top, left, bottom, each running counter-clockwise
      between consecutive corners. */
  function EdgeAt(r: Rect, index: int): (s: Segment)
    ensures 0 <= index < 4 ==> s == Segment(Corner(r, index), Corner(r, (index + 1) % 4))
  {
    if index == 0 then Segment(BottomRight(r), TopRight(r))
    else if index == 1 then Segment(TopRight(r), TopLeft(r))
    else if index == 2 then Segment(TopLeft(r), BottomLeft(r))
    else Segment(BottomLeft(r), BottomRight(r))
  }

  /** `edge(index, wrap)` with the intended wrapping. */
  function Edge(r: Rect, index: int, wrap: bool): Segment
    requires !wrap ==> 0 <= index < 4
  {
    EdgeAt(r, if wrap then WrapIndex(index, 4) else index)
  }

  /** Normal selection: right, up, left, down. */
  function NormalAt(index: int): Vec2
  {
    if index == 0 then Vectors.Right
    else if index == 1 then Vectors.Up
    else if index == 2 then Vectors.Left
    else Vectors.Down
  }

  /** `normal(index, wrap)` with the intended wrapping: the outward unit
      normal of the edge with that index. */
  function Normal(r: Rect, index: int, wrap: bool): Vec2
    requires !wrap ==> 0 <= index < 4
  {
    NormalAt(if wrap then WrapIndex(index, 4) else index)
  }

  /** Every normal has unit length. */
  lemma NormalIsUnit(r: Rect, index: int, wrap: bool)
    requires !wrap ==> 0 <= index < 4
    ensures SquaredLength(Normal(r, index, wrap)) == 1.0
  {
    var k := if wrap then WrapIndex(index, 4) else index;
    if k == 0 {
      assert Normal(r, index, wrap) == Vec2(1.0, 0.0);
    } else if k == 1 {
      assert Normal(r, index, wrap) == Vec2(0.0, 1.0);
    } else if k == 2 {
      assert Normal(r, index, wrap) == Vec2(-1.0, 0.0);
    } else {
      assert Normal(r, index, wrap) == Vec2(0.0, -1.0);
    }
  }

  /** Each normal is perpendicular to its edge and points away from the rect:
      no corner lies on its outer side. */
  lemma NormalIsOutward(r: Rect, i: int, j: int)
    requires WellFormed(r) && 0 <= i < 4 && 0 <= j < 4
    ensures Dot(NormalAt(i), Sub(EdgeAt(r, i).pointB, EdgeAt(r, i).pointA)) == 0.0
    ensures Dot(NormalAt(i), Sub(Corner(r, j), EdgeAt(r, i).pointA)) <= 0.0
  {
    if i == 0 {
      assert EdgeAt(r, i).pointA == BottomRight(r);
    } else if i == 1 {
      assert EdgeAt(r, i).pointA == TopRight(r);
    } else if i == 2 {
      assert EdgeAt(r, i).pointA == TopLeft(r);
    } else {
      assert EdgeAt(r, i).pointA == BottomLeft(r);
    }
  }

  /** `isDegenerated()`: zero width or zero height. */
  predicate IsDegenerated(r: Rect) { r.size.x == 0.0 || r.size.y == 0.0 }
  /** `isLineSegment()`: exactly one of the two sides is zero. */
  predicate IsLineSegment(r: Rect) { (r.size.x == 0.0) != (r.size.y == 0.0) }
  /** `isPoint()`: both sides are zero. */
  predicate IsPoint(r: Rect) { r.size.x == 0.0 && r.size.y == 0.0 }

  /** `containsPoint`: edge-inclusive. */
  predicate ContainsPoint(r: Rect, pt: Vec2)
  {
    var w2 := r.size.x / 2.0;
    var h2 := r.size.y / 2.0;
    pt.x >= r.center.x - w2 && pt.x <= r.center.x + w2 && pt.y >= r.center.y - h2 && pt.y <= r.center.y + h2
  }

  /** `containsRect`. */
  predicate ContainsRect(r: Rect, another: Rect)
  {
    Left(another) >= Left(r) && Right(another) <= Right(r) && Bottom(another) >= Bottom(r) && Top(another) <= Top(r)
  }

  /** A well-formed rect contains its four corners (the edges belong to the
      rect) and itself; containment of rects is containment of their
      corners and is transitive. */
  lemma ContainmentFacts(r: Rect, q: Rect, s: Rect, i: int)
    requires WellFormed(r) && WellFormed(q) && 0 <= i < 4
    ensures ContainsPoint(r, Corner(r, i))
    ensures ContainsRect(r, r)
    ensures ContainsRect(r, q) <==> forall j :: 0 <= j < 4 ==> ContainsPoint(r, Corner(q, j))
    ensures ContainsRect(r, q) && ContainsRect(q, s) ==> ContainsRect(r, s)
  {
    if forall j :: 0 <= j < 4 ==> ContainsPoint(r, Corner(q, j)) {
      assert ContainsPoint(r, Corner(q, 0)) && ContainsPoint(r, Corner(q, 2));
    }
  }

  /** `getIntersection(r1, r2)`: none when the overlap along an axis is
      negative (touching rects do intersect, in a degenerate rect). */
  function GetIntersection(r1: Rect, r2: Rect): (r: Option<Rect>)
    ensures r.None? <==> Min(Right(r1), Right(r2)) < Max(Left(r1), Left(r2)) || Min(Top(r1), Top(r2)) < Max(Bottom(r1), Bottom(r2))
    ensures r.Some? ==> WellFormed(r.value) && ContainsRect(r1, r.value) && ContainsRect(r2, r.value)
  {
    var nleft := Max(Left(r1), Left(r2));
    var nbottom := Max(Bottom(r1), Bottom(r2));
    var xoverlap := Min(Right(r1), Right(r2)) - nleft;
    if xoverlap < 0.0 then None
    else
      var yoverlap := Min(Top(r1), Top(r2)) - nbottom;
      if yoverlap < 0.0 then None
      else Some(FromCenterSize(nleft + xoverlap / 2.0, nbottom + yoverlap / 2.0, xoverlap, yoverlap))
  }

  /** The intersection spans from the innermost left, bottom edges to the
      innermost right, top edges of the two rects. */
  lemma IntersectionEdges(r1: Rect, r2: Rect)
    requires GetIntersection(r1, r2).Some?
    ensures Left(GetIntersection(r1, r2).value) == Max(Left(r1), Left(r2))
    ensures Right(GetIntersection(r1, r2).value) == Min(Right(r1), Right(r2))
    ensures Bottom(GetIntersection(r1, r2).value) == Max(Bottom(r1), Bottom(r2))
    ensures Top(GetIntersection(r1, r2).value) == Min(Top(r1), Top(r2))
  {
  }

  /** The intersection holds exactly the points that lie in both rects. */
  lemma IntersectionIsCommonPart(r1: Rect, r2: Rect, p: Vec2)
    ensures ContainsPoint(r1, p) && ContainsPoint(r2, p) <==>
      GetIntersection(r1, r2).Some? && ContainsPoint(GetIntersection(r1, r2).value, p)
  {
  }

  /** `getUnion(r1, r2)`: the bounding rect of both. */
  function GetUnion(r1: Rect, r2: Rect): (r: Rect)
    requires WellFormed(r1) && WellFormed(r2)
    ensures WellFormed(r) && ContainsRect(r, r1) && ContainsRect(r, r2)
  {
    var nleft := Min(Left(r1), Left(r2));
    var nbottom := Min(Bottom(r1), Bottom(r2));
    var xrange := Max(Right(r1), Right(r2)) - nleft;
    var yrange := Max(Top(r1), Top(r2)) - nbottom;
    FromCenterSize(nleft + xrange / 2.0, nbottom + yrange / 2.0, xrange, yrange)
  }

  /** The union is the smallest rect containing both: every rect that
      contains both contains the union. */
  lemma UnionIsSmallest(r1: Rect, r2: Rect, q: Rect)
    requires WellFormed(r1) && WellFormed(r2)
    requires ContainsRect(q, r1) && ContainsRect(q, r2)
    ensures ContainsRect(q, GetUnion(r1, r2))
  {
  }

  /** The union spans from the outermost left, bottom edges to the outermost
      right, top edges of the two rects. */
  lemma UnionEdges(r1: Rect, r2: Rect)
    requires WellFormed(r1) && WellFormed(r2)
    ensures Left(GetUnion(r1, r2)) == Min(Left(r1), Left(r2))
    ensures Right(GetUnion(r1, r2)) == Max(Right(r1), Right(r2))
    ensures Bottom(GetUnion(r1, r2)) == Min(Bottom(r1), Bottom(r2))
    ensures Top(GetUnion(r1, r2)) == Max(Top(r1), Top(r2))
  {
  }

  /** `strictlyIntersects(r1, r2)`: the overlap is positive along both axes. */
  predicate StrictlyIntersects(r1: Rect, r2: Rect)
  {
    var nleft := Max(Left(r1), Left(r2));
    var nbottom := Max(Bottom(r1), Bottom(r2));
    var xoverlap := Min(Right(r1), Right(r2)) - nleft;
    if xoverlap <= 0.0 then false
    else
      var yoverlap := Min(Top(r1), Top(r2)) - nbottom;
      if yoverlap <= 0.0 then false else true
  }

  /** Strict intersection is intersection in a rect that is not degenerate;
      it is symmetric. */
  lemma StrictlyIntersectsIffNonDegenerate(r1: Rect, r2: Rect)
    ensures StrictlyIntersects(r1, r2) <==> GetIntersection(r1, r2).Some? && !IsDegenerated(GetIntersection(r1, r2).value)
    ensures StrictlyIntersects(r1, r2) <==> StrictlyIntersects(r2, r1)
  {
  }

  /** `operator<`: centres compared first, then sizes, each lexicographically. */
  predicate Less(r1: Rect, r2: Rect)
  {
    if r1.center == r2.center then Vectors.Less(r1.size, r2.size) else Vectors.Less(r1.center, r2.center)
  }
  /** `operator>`. */
  predicate Greater(r1: Rect, r2: Rect)
  {
    if r1.center == r2.center then Vectors.Greater(r1.size, r2.size) else Vectors.Greater(r1.center, r2.center)
  }
  /** `operator<=`. */
  predicate LessEq(r1: Rect, r2: Rect) { if r1 == r2 then true else Less(r1, r2) }
  /** `operator>=`. */
  predicate GreaterEq(r1: Rect, r2: Rect) { if r1 == r2 then true else Greater(r1, r2) }

  /** The rect ordering is a strict total order with > as its converse. */
  lemma RectOrdering(a: Rect, b: Rect, c: Rect)
    ensures !Less(a, a)
    ensures Greater(a, b) <==> Less(b, a)
    ensures Less(a, b) && Less(b, c) ==> Less(a, c)
    ensures a != b ==> (Less(a, b) <==> !Less(b, a))
    ensures GreaterEq(a, b) <==> LessEq(b, a)
  {
    OrderingIsLexicographic(a.center, b.center, c.center);
    OrderingIsLexicographic(a.size, b.size, c.size);
  }

  /** The running bounds of a point scan. */
  datatype Box = Box(minx: real, miny: real, maxx: real, maxy: real)

  /** One step of the scan in `Rect(points)` and `Polygon::bounds`. */
  function Extend(b: Box, v: Vec2): Box
  {
    Box(if v.x < b.minx then v.x else b.minx,
        if v.y < b.miny then v.y else b.miny,
        if v.x > b.maxx then v.x else b.maxx,
        if v.y > b.maxy then v.y else b.maxy)
  }

  /** The scan over all points, in order. */
  function Scan(b: Box, pts: seq<Vec2>): Box
    decreases |pts|
  {
    if |pts| == 0 then b else Scan(Extend(b, pts[0]), pts[1..])
  }

  /** The rect spanned by a box. */
  function BoxRect(b: Box): Rect
  {
    Rect(Vec2((b.minx + b.maxx) / 2.0, (b.miny + b.maxy) / 2.0), Vec2(b.maxx - b.minx, b.maxy - b.miny))
  }

  /** `Rect(points)` as written: the maxima start at FLT_MIN, the smallest
      positive float, instead of the lowest float. */
  function FromPointsAsWritten(pts: seq<Vec2>): Rect
    requires |pts| > 0
  {
    BoxRect(Scan(Box(FloatMax, FloatMax, FloatMin, FloatMin), pts))
  }

  /** `Rect(points)` as intended: the tight bounds of the points, scanned
      from the first point. */
  function FromPoints(pts: seq<Vec2>): (r: Rect)
    requires |pts| > 0
    ensures WellFormed(r)
    ensures forall i :: 0 <= i < |pts| ==> ContainsPoint(r, pts[i])
    ensures exists i :: 0 <= i < |pts| && pts[i].x == Left(r)
    ensures exists i :: 0 <= i < |pts| && pts[i].x == Right(r)
    ensures exists i :: 0 <= i < |pts| && pts[i].y == Bottom(r)
    ensures exists i :: 0 <= i < |pts| && pts[i].y == Top(r)
  {
    var b0 := Box(pts[0].x, pts[0].y, pts[0].x, pts[0].y);
    var b := Scan(b0, pts);
    ScanBounds(b0, pts, pts);
    ScanBounds(b0, pts[1..], pts);
    assert Scan(b0, pts) == Scan(b0, pts[1..]) by {
      assert Extend(b0, pts[0]) == b0;
    }
    BoxRect(b)
  }

  /** The scan keeps each bound below (above) every point seen and equal to
      either its start value or one of the points. */
  lemma {:induction false} ScanBounds(b: Box, pts: seq<Vec2>, all: seq<Vec2>)
    requires forall i :: 0 <= i < |pts| ==> pts[i] in all
    requires b.minx <= b.maxx && b.miny <= b.maxy
    ensures var s := Scan(b, pts);
      s.minx <= b.minx && s.miny <= b.miny && s.maxx >= b.maxx && s.maxy >= b.maxy &&
      s.minx <= s.maxx && s.miny <= s.maxy &&
      (forall i :: 0 <= i < |pts| ==> s.minx <= pts[i].x <= s.maxx && s.miny <= pts[i].y <= s.maxy) &&
      (s.minx == b.minx || exists v :: v in all && v.x == s.minx) &&
      (s.maxx == b.maxx || exists v :: v in all && v.x == s.maxx) &&
      (s.miny == b.miny || exists v :: v in all && v.y == s.miny) &&
      (s.maxy == b.maxy || exists v :: v in all && v.y == s.maxy)
    decreases |pts|
  {
    if |pts| > 0 {
      var b' := Extend(b, pts[0]);
      assert pts[0] in all;
      forall i | 0 <= i < |pts[1..]| ensures pts[1..][i] in all {
        assert pts[1..][i] == pts[i + 1];
      }
      ScanBounds(b', pts[1..], all);
      forall i | 0 <= i < |pts| ensures Scan(b, pts).minx <= pts[i].x <= Scan(b, pts).maxx {
        if i > 0 { assert pts[i] == pts[1..][i - 1]; }
      }
      forall i | 0 <= i < |pts| ensures Scan(b, pts).miny <= pts[i].y <= Scan(b, pts).maxy {
        if i > 0 { assert pts[i] == pts[1..][i - 1]; }
      }
    }
  }

  /** Points no higher than the running maximum leave it in place. */
  lemma {:induction false} ScanKeepsTop(b: Box, pts: seq<Vec2>)
    requires forall i :: 0 <= i < |pts| ==> pts[i].y <= b.maxy
    ensures Scan(b, pts).maxy == b.maxy
    decreases |pts|
  {
    if |pts| > 0 {
      ScanKeepsTop(Extend(b, pts[0]), pts[1..]);
    }
  }

  /** Whenever every point lies below FLT_MIN (in particular, below the
      origin), the code as written reports the top edge at FLT_MIN. */
  lemma TopAsWritten(pts: seq<Vec2>)
    requires |pts| > 0
    requires forall i :: 0 <= i < |pts| ==> pts[i].y <= FloatMin
    ensures Top(FromPointsAsWritten(pts)) == FloatMin
  {
    ScanKeepsTop(Box(FloatMax, FloatMax, FloatMin, FloatMin), pts);
  }

  /** Two points below the origin: the code as written reports a right edge
      at FLT_MIN, to the right of both points, where the tight bounds end at
      x = -1. */
  lemma FromPointsNegative()
    ensures Right(FromPointsAsWritten([Vec2(-2.0, -2.0), Vec2(-1.0, -1.0)])) == FloatMin
    ensures Right(FromPoints([Vec2(-2.0, -2.0), Vec2(-1.0, -1.0)])) == -1.0
  {
    var pts := [Vec2(-2.0, -2.0), Vec2(-1.0, -1.0)];
    assert Scan(Box(FloatMax, FloatMax, FloatMin, FloatMin), pts) == Box(-2.0, -2.0, FloatMin, FloatMin) by {
      assert pts[1..][1..] == [];
    }
    assert Scan(Box(-2.0, -2.0, -2.0, -2.0), pts) == Box(-2.0, -2.0, -1.0, -1.0) by {
      assert pts[1..][1..] == [];
    }
  }
}
