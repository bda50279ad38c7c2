/** The skyline packer: the bin is described by its skyline, a list of
    segments from left to right, each a (width, height) pair. A size is
    packed on the segment where it wastes the least area below it; the area
    wasted below can later take sizes of its own through guillotine
    contexts. */
module Skylines {
  import Vectors
  import opened Rects
  import opened Options
  import Guillotines
  import Matrices

  /** The total width of the segments. */
  function TotalWidth(s: seq<Vectors.Vec2>): real
  {
    if s == [] then 0.0 else s[0].x + TotalWidth(s[1..])
  }

  lemma {:induction false} WidthConcat(a: seq<Vectors.Vec2>, b: seq<Vectors.Vec2>)
    ensures TotalWidth(a + b) == TotalWidth(a) + TotalWidth(b)
  {
    if a != [] {
      assert a + b != [] && (a + b)[0] == a[0] && (a + b)[1..] == a[1..] + b;
      WidthConcat(a[1..], b);
    } else {
      assert a + b == b;
    }
  }

  /** Every segment has a positive width. */
  predicate Positive(s: seq<Vectors.Vec2>)
  {
    forall k :: 0 <= k < |s| ==> s[k].x > 0.0
  }

  lemma {:induction false} WidthPositive(s: seq<Vectors.Vec2>)
    requires Positive(s)
    ensures TotalWidth(s) >= 0.0
    ensures s != [] ==> TotalWidth(s) > 0.0
  {
    if s != [] {
      WidthPositive(s[1..]);
    }
  }

  /** The segments from `a` to `b` are no wider than those from `i` to `j`
      around them. */
  lemma WidthWithin(s: seq<Vectors.Vec2>, i: nat, a: nat, b: nat, j: nat)
    requires Positive(s) && i <= a <= b <= j <= |s|
    ensures TotalWidth(s[a..b]) <= TotalWidth(s[i..j])
  {
    assert s[i..j] == s[i..a] + s[a..b] + s[b..j];
    WidthConcat(s[i..a] + s[a..b], s[b..j]);
    WidthConcat(s[i..a], s[a..b]);
    WidthPositive(s[i..a]);
    WidthPositive(s[b..j]);
  }

  /** The skyline as kept between packings: segments of positive width that
      together span the bin, each no lower than the bottom and no higher than
      the top of the bin. */
  predicate Spans(s: seq<Vectors.Vec2>, bin: Vectors.Vec2)
  {
    Positive(s) && TotalWidth(s) == bin.x && forall k :: 0 <= k < |s| ==> 0.0 <= s[k].y <= bin.y
  }

  /** `createSkyline(size)`: one segment as wide as the bin, at height 0. It
      spans a bin of positive size. */
  function CreateSkyline(bin: Vectors.Vec2): (s: seq<Vectors.Vec2>)
    ensures bin.x > 0.0 && bin.y >= 0.0 ==> Spans(s, bin)
    ensures |s| == 1 && s[0].y == 0.0
  {
    [Vectors.Vec2(bin.x, 0.0)]
  }

  /** The inner scan of `findPlacesToPack` from segment `j` with `acc` of
      width gathered: it succeeds once the gathered width reaches `w`, and
      fails at the end of the skyline or at a segment higher than `base`. */
  function Reaches(s: seq<Vectors.Vec2>, base: real, j: nat, acc: real, w: real): bool
    decreases |s| - j
  {
    if j >= |s| then false
    else if s[j].y > base then false
    else if acc + s[j].x >= w then true
    else Reaches(s, base, j + 1, acc + s[j].x, w)
  }

  /** Segment `k` is a place for size `r`: `r` stays below `maxHeight` on top
      of it, and the segments from `k` on that are no higher than it are wide
      enough for `r`. */
  predicate IsPlace(s: seq<Vectors.Vec2>, maxHeight: real, r: Vectors.Vec2, k: nat)
    requires k < |s|
  {
    s[k].y + r.y <= maxHeight && Reaches(s, s[k].y, k, 0.0, r.x)
  }

  /** A scan from `i` that meets a higher segment at `j` before gathering
      the width: none of the segments from `i` up to `j` is a place. */
  lemma {:induction false} SkippedAreNoPlaces(s: seq<Vectors.Vec2>, i: nat, j: nat, k: nat, m: nat, w: real)
    requires Positive(s) && i <= k < j < |s| && k <= m <= j
    requires forall n :: i <= n < j ==> s[n].y <= s[i].y
    requires s[j].y > s[i].y && TotalWidth(s[i..j]) < w
    ensures !Reaches(s, s[k].y, m, TotalWidth(s[k..m]), w)
    decreases j - m
  {
    if m < j && s[m].y <= s[k].y {
      WidthWithin(s, i, k, m + 1, j);
      assert s[k..m + 1] == s[k..m] + [s[m]];
      WidthConcat(s[k..m], [s[m]]);
      assert [s[m]][1..] == [];
      SkippedAreNoPlaces(s, i, j, k, m + 1, w);
    }
  }

  /** `findPlacesToPack(skyline, maxHeight, r, places)`: the scan moves past
      a segment too high for `r`, and otherwise gathers width from it; a
      higher segment met on the way becomes the next start (the segments in
      between cannot be places), and the start is a place once the width is
      reached. The result is every place, in order. */
  method FindPlacesToPack(s: seq<Vectors.Vec2>, maxHeight: real, r: Vectors.Vec2) returns (places: seq<nat>)
    requires Positive(s)
    ensures forall m :: 0 <= m < |places| ==> places[m] < |s|
    ensures forall m, n :: 0 <= m < n < |places| ==> places[m] < places[n]
    ensures forall k :: 0 <= k < |s| ==> (k in places <==> IsPlace(s, maxHeight, r, k))
  {
    places := [];
    var i := 0;
    while i < |s|
      invariant 0 <= i <= |s|
      invariant forall m :: 0 <= m < |places| ==> places[m] < i
      invariant forall m, n :: 0 <= m < n < |places| ==> places[m] < places[n]
      invariant forall k :: 0 <= k < i ==> (k in places <==> IsPlace(s, maxHeight, r, k))
      decreases |s| - i
    {
      if s[i].y + r.y > maxHeight {
        i := i + 1;
        continue;
      }
      var width := 0.0;
      var dontUpdateI := false;
      var next := i;
      var j := i;
      while j < |s|
        invariant i <= j <= |s|
        invariant width == TotalWidth(s[i..j])
        invariant forall n :: i <= n < j ==> s[n].y <= s[i].y
        invariant j > i ==> width < r.x
        invariant Reaches(s, s[i].y, i, 0.0, r.x) == Reaches(s, s[i].y, j, width, r.x)
        decreases |s| - j
      {
        if s[j].y > s[i].y {
          next := j;
          dontUpdateI := true;
          break;
        }
        assert s[i..j + 1] == s[i..j] + [s[j]];
        WidthConcat(s[i..j], [s[j]]);
        assert [s[j]][1..] == [];
        width := width + s[j].x;
        if width >= r.x {
          break;
        }
        j := j + 1;
      }
      if dontUpdateI {
        forall k | i <= k < next
          ensures !IsPlace(s, maxHeight, r, k)
        {
          SkippedAreNoPlaces(s, i, next, k, k, r.x);
        }
      }
      if width >= r.x {
        places := places + [next];
      }
      i := if dontUpdateI then next else i + 1;
    }
  }

  /** A lost area `computeLostAreas` keeps: only one of non-zero width and
      height. */
  function NonZeroArea(q: Rect): (s: seq<Rect>)
    ensures |s| <= 1 && (s != [] ==> s[0] == q && Rects.Width(q) != 0.0 && Rects.Height(q) != 0.0)
    ensures s == [] ==> Rects.Width(q) == 0.0 || Rects.Height(q) == 0.0
  {
    if Rects.Width(q) != 0.0 && Rects.Height(q) != 0.0 then [q] else []
  }

  /** The area lost below segment `k` when it is lower than `base`, with
      `width` of the size still to cover and `x` its left edge. */
  function LostAt(s: seq<Vectors.Vec2>, k: nat, base: real, width: real, x: real): seq<Rect>
    requires k < |s|
  {
    if s[k].y < base then
      NonZeroArea(Guillotines.NewRect(Vectors.Vec2(x, s[k].y), Vectors.Vec2(if width >= s[k].x then s[k].x else width, base - s[k].y)))
    else []
  }

  /** The lost areas gathered into `acc` from segment `k` on: below
      `base`, each lower segment loses the part under the size, until the
      size is covered. */
  function LostFrom(s: seq<Vectors.Vec2>, k: nat, base: real, width: real, x: real, acc: seq<Rect>): seq<Rect>
    decreases |s| - k
  {
    if k >= |s| then acc
    else
      var acc' := acc + LostAt(s, k, base, width, x);
      if width - s[k].x <= 0.0 then acc' else LostFrom(s, k + 1, base, width - s[k].x, x + s[k].x, acc')
  }

  /** The areas lost below size `r` packed on segment `place`. */
  function LostAreas(s: seq<Vectors.Vec2>, r: Vectors.Vec2, place: nat): seq<Rect>
    requires place < |s|
  {
    LostFrom(s, place, s[place].y, r.x, TotalWidth(s[..place]), [])
  }

  /** Every lost area has a positive width and height and reaches up to the
      base. */
  lemma {:induction false} LostFromProper(s: seq<Vectors.Vec2>, k: nat, base: real, width: real, x: real, acc: seq<Rect>)
    requires Positive(s) && width >= 0.0
    requires forall q :: q in acc ==> Guillotines.Proper(q) && Top(q) == base
    ensures forall q :: q in LostFrom(s, k, base, width, x, acc) ==> Guillotines.Proper(q) && Top(q) == base
    decreases |s| - k
  {
    if k < |s| {
      var acc' := acc + LostAt(s, k, base, width, x);
      assert forall q :: q in acc' ==> q in acc || q in LostAt(s, k, base, width, x);
      if width - s[k].x > 0.0 {
        LostFromProper(s, k + 1, base, width - s[k].x, x + s[k].x, acc');
      }
    }
  }

  /** The total area of a list of rects, summed from the left as
      `std::accumulate` does. */
  function AreaSum(rs: seq<Rect>): real
  {
    if rs == [] then 0.0 else AreaSum(rs[..|rs| - 1]) + Area(rs[|rs| - 1])
  }

  /** The area wasted below size `r` packed on segment `place`. */
  function Waste(s: seq<Vectors.Vec2>, r: Vectors.Vec2, place: nat): real
    requires place < |s|
  {
    AreaSum(LostAreas(s, r, place))
  }

  /** The loop that sets `x` in `computeLostAreas` and `packIntoPlace`: the
      left edge of segment `place`. */
  method LeftEdge(s: seq<Vectors.Vec2>, place: nat) returns (x: real)
    requires place <= |s|
    ensures x == TotalWidth(s[..place])
  {
    x := 0.0;
    var k := 0;
    while k < place
      invariant 0 <= k <= place
      invariant x == TotalWidth(s[..k])
    {
      assert s[..k + 1] == s[..k] + [s[k]];
      WidthConcat(s[..k], [s[k]]);
      assert [s[k]][1..] == [];
      x := x + s[k].x;
      k := k + 1;
    }
  }

  /** The body of the loop in `computeLostAreas`: the area lost below
      segment `k`, kept only when it is not empty. */
  method LostBelow(s: seq<Vectors.Vec2>, k: nat, baseHeight: real, width: real, x: real) returns (here: seq<Rect>)
    requires k < |s|
    ensures here == LostAt(s, k, baseHeight, width, x)
  {
    here := [];
    if s[k].y < baseHeight {
      var lostHeight := baseHeight - s[k].y;
      var lostWidth := if width >= s[k].x then s[k].x else width;
      var lostRect := Guillotines.NewRect(Vectors.Vec2(x, s[k].y), Vectors.Vec2(lostWidth, lostHeight));
      here := NonZeroArea(lostRect);
    }
  }

  /** `computeLostAreas(skyline, r, place, lostAreas)`. */
  method ComputeLostAreas(s: seq<Vectors.Vec2>, r: Vectors.Vec2, place: nat) returns (lostAreas: seq<Rect>)
    requires place < |s|
    ensures lostAreas == LostAreas(s, r, place)
  {
    var baseHeight := s[place].y;
    var width := r.x;
    var x := LeftEdge(s, place);
    lostAreas := [];
    var k := place;
    while k < |s|
      invariant place <= k <= |s|
      invariant LostFrom(s, k, baseHeight, width, x, lostAreas) == LostAreas(s, r, place)
      decreases |s| - k
    {
      var here := LostBelow(s, k, baseHeight, width, x);
      lostAreas := lostAreas + here;
      width := width - s[k].x;
      x := x + s[k].x;
      k := k + 1;
      if width <= 0.0 {
        break;
      }
    }
  }

  /** The skyline once a size of width `width` is packed from segment `m`
      on, with `acc` the segments before: the segments under the size are
      raised to `height`, the last one split when the size ends inside it. */
  function Raise(s: seq<Vectors.Vec2>, m: nat, width: real, height: real, acc: seq<Vectors.Vec2>): seq<Vectors.Vec2>
    requires m <= |s|
    decreases |s| - m
  {
    if m == |s| || width <= 0.0 then acc + s[m..]
    else if width >= s[m].x then Raise(s, m + 1, width - s[m].x, height, acc + [Vectors.Vec2(s[m].x, height)])
    else acc + [Vectors.Vec2(width, height), Vectors.Vec2(s[m].x - width, s[m].y)] + s[m + 1..]
  }

  /** Every segment lies between the bottom and `top`. */
  predicate Bounded(s: seq<Vectors.Vec2>, top: real)
  {
    forall k :: 0 <= k < |s| ==> 0.0 <= s[k].y <= top
  }

  lemma BoundedConcat(a: seq<Vectors.Vec2>, b: seq<Vectors.Vec2>, top: real)
    requires Bounded(a, top) && Bounded(b, top)
    ensures Bounded(a + b, top)
  {
    forall k | 0 <= k < |a + b|
      ensures 0.0 <= (a + b)[k].y <= top
    {
      if k >= |a| {
        assert (a + b)[k] == b[k - |a|];
      }
    }
  }

  lemma PositiveConcat(a: seq<Vectors.Vec2>, b: seq<Vectors.Vec2>)
    requires Positive(a) && Positive(b)
    ensures Positive(a + b)
  {
    forall k | 0 <= k < |a + b|
      ensures (a + b)[k].x > 0.0
    {
      if k >= |a| {
        assert (a + b)[k] == b[k - |a|];
      }
    }
  }

  /** Raising keeps the segments positive and within the bin and the total
      width. */
  lemma {:induction false} RaiseKeeps(s: seq<Vectors.Vec2>, m: nat, width: real, height: real, acc: seq<Vectors.Vec2>, top: real)
    requires m <= |s| && Positive(s) && Positive(acc) && Bounded(s, top) && Bounded(acc, top) && 0.0 <= height <= top
    ensures Positive(Raise(s, m, width, height, acc)) && Bounded(Raise(s, m, width, height, acc), top)
    ensures TotalWidth(Raise(s, m, width, height, acc)) == TotalWidth(acc) + TotalWidth(s[m..])
    decreases |s| - m
  {
    assert Positive(s[m..]) && Bounded(s[m..], top);
    if m == |s| || width <= 0.0 {
      PositiveConcat(acc, s[m..]);
      BoundedConcat(acc, s[m..], top);
      WidthConcat(acc, s[m..]);
    } else {
      assert s[m..] == [s[m]] + s[m + 1..];
      WidthConcat([s[m]], s[m + 1..]);
      assert [s[m]][1..] == [];
      if width >= s[m].x {
        var piece := [Vectors.Vec2(s[m].x, height)];
        assert piece[1..] == [];
        PositiveConcat(acc, piece);
        BoundedConcat(acc, piece, top);
        WidthConcat(acc, piece);
        RaiseKeeps(s, m + 1, width - s[m].x, height, acc + piece, top);
      } else {
        var pieces := [Vectors.Vec2(width, height), Vectors.Vec2(s[m].x - width, s[m].y)];
        assert pieces[1..][1..] == [];
        assert Positive(s[m + 1..]) && Bounded(s[m + 1..], top);
        PositiveConcat(acc, pieces);
        BoundedConcat(acc, pieces, top);
        WidthConcat(acc, pieces);
        PositiveConcat(acc + pieces, s[m + 1..]);
        BoundedConcat(acc + pieces, s[m + 1..], top);
        WidthConcat(acc + pieces, s[m + 1..]);
      }
    }
  }

  /** `packIntoPlace(skyline, r, place)`: the rect of size `r` at the left
      edge and height of segment `place`, and the skyline with the segments
      under it raised. */
  method PackIntoPlace(s: seq<Vectors.Vec2>, r: Vectors.Vec2, place: nat) returns (rectangle: Rect, s': seq<Vectors.Vec2>)
    requires place < |s|
    ensures rectangle == Guillotines.NewRect(Vectors.Vec2(TotalWidth(s[..place]), s[place].y), r)
    ensures s' == Raise(s, place, r.x, s[place].y + r.y, s[..place])
  {
    var x := LeftEdge(s, place);
    var width := r.x;
    var newHeight := s[place].y + r.y;
    rectangle := Guillotines.NewRect(Vectors.Vec2(x, s[place].y), r);
    var front := s[..place];
    var m := place;
    while m < |s| && width > 0.0
      invariant place <= m <= |s|
      invariant Raise(s, m, width, newHeight, front) == Raise(s, place, r.x, newHeight, s[..place])
      decreases |s| - m
    {
      if width >= s[m].x {
        front := front + [Vectors.Vec2(s[m].x, newHeight)];
        width := width - s[m].x;
      } else {
        front := front + [Vectors.Vec2(width, newHeight), Vectors.Vec2(s[m].x - width, s[m].y)];
        width := 0.0;
      }
      m := m + 1;
    }
    s' := front + s[m..];
  }

  /** Packing `r` on a segment where it stays below the top of the bin, as
      on every place, keeps the skyline spanning the bin. */
  lemma PackKeepsSpans(s: seq<Vectors.Vec2>, bin: Vectors.Vec2, r: Vectors.Vec2, place: nat)
    requires Spans(s, bin) && place < |s| && r.y >= 0.0 && s[place].y + r.y <= bin.y
    ensures Spans(Raise(s, place, r.x, s[place].y + r.y, s[..place]), bin)
  {
    PrefixKeeps(s, place, bin.y);
    RaiseKeeps(s, place, r.x, s[place].y + r.y, s[..place], bin.y);
  }

  /** The segments before `place` are again positive and bounded, and they
      and the rest make up the total width. */
  lemma PrefixKeeps(s: seq<Vectors.Vec2>, place: nat, top: real)
    requires Positive(s) && Bounded(s, top) && place <= |s|
    ensures Positive(s[..place]) && Bounded(s[..place], top)
    ensures TotalWidth(s) == TotalWidth(s[..place]) + TotalWidth(s[place..])
  {
    assert s == s[..place] + s[place..];
    WidthConcat(s[..place], s[place..]);
  }

  /** The rect `k` lies in a bin of size `bin` at the origin. */
  predicate InBin(k: Rect, bin: Vectors.Vec2)
  {
    ContainsRect(Guillotines.NewRect(Vectors.Zero, bin), k)
  }

  /** A scan that gathers width `w` from segment `j` on finds that much
      width in the segments from `j` on. */
  lemma {:induction false} ReachesWithin(s: seq<Vectors.Vec2>, base: real, j: nat, acc: real, w: real)
    requires Positive(s) && j <= |s| && Reaches(s, base, j, acc, w)
    ensures w <= acc + TotalWidth(s[j..])
    decreases |s| - j
  {
    assert s[j..][1..] == s[j + 1..];
    WidthPositive(s[j + 1..]);
    if acc + s[j].x < w {
      ReachesWithin(s, base, j + 1, acc + s[j].x, w);
    }
  }

  /** A size packed on a place of a skyline that spans the bin lies in the bin. */
  lemma PlacedInBin(s: seq<Vectors.Vec2>, bin: Vectors.Vec2, r: Vectors.Vec2, p: nat)
    requires Spans(s, bin) && p < |s| && IsPlace(s, bin.y, r, p) && r.y >= 0.0
    ensures InBin(Guillotines.NewRect(Vectors.Vec2(TotalWidth(s[..p]), s[p].y), r), bin)
  {
    PrefixKeeps(s, p, bin.y);
    WidthPositive(s[..p]);
    ReachesWithin(s, s[p].y, p, 0.0, r.x);
  }

  /** The left edge of segment `k` and its width add up to the left edge of
      the next one, which is within the bin. */
  lemma NextEdgeWithin(s: seq<Vectors.Vec2>, bin: Vectors.Vec2, k: nat)
    requires Spans(s, bin) && k < |s|
    ensures TotalWidth(s[..k + 1]) == TotalWidth(s[..k]) + s[k].x <= bin.x
  {
    assert s[..k + 1] == s[..k] + [s[k]];
    WidthConcat(s[..k], [s[k]]);
    assert [s[k]][1..] == [];
    PrefixKeeps(s, k + 1, bin.y);
    WidthPositive(s[k + 1..]);
  }

  /** Every area lost below a size on a skyline that spans the bin lies in
      the bin. */
  lemma {:induction false} LostInBin(s: seq<Vectors.Vec2>, bin: Vectors.Vec2, k: nat, base: real, width: real, x: real, acc: seq<Rect>)
    requires Spans(s, bin) && k <= |s| && base <= bin.y && x == TotalWidth(s[..k])
    requires forall q :: q in acc ==> InBin(q, bin)
    ensures forall q :: q in LostFrom(s, k, base, width, x, acc) ==> InBin(q, bin)
    decreases |s| - k
  {
    if k < |s| {
      PrefixKeeps(s, k, bin.y);
      WidthPositive(s[..k]);
      NextEdgeWithin(s, bin, k);
      var acc' := acc + LostAt(s, k, base, width, x);
      assert forall q :: q in acc' ==> q in acc || q in LostAt(s, k, base, width, x);
      if width - s[k].x > 0.0 {
        LostInBin(s, bin, k + 1, base, width - s[k].x, x + s[k].x, acc');
      }
    }
  }

  /** The keys made of a list of rects are rects of the list. */
  lemma {:induction false} KeysFrom(rs: seq<Rect>)
    ensures forall k :: k in Keys(rs) ==> k in rs
  {
    if rs != [] {
      KeysFrom(rs[..|rs| - 1]);
      assert forall k :: k in rs[..|rs| - 1] ==> k in rs;
    }
  }

  /** The greatest finite 32-bit float, where `bestPlaceToPack` starts the
      least lost area. */
  const FltMax: real := 340282346638528859811704183484516925440.0

  /** `bestPlaceToPack` as written: the lost area found is assigned the
      other way round (`area = lostAreaValue`), so the least lost area stays
      at its start value, every place whose lost area is below it replaces
      the one held, and the last such place wins. */
  method BestPlaceAsWritten(s: seq<Vectors.Vec2>, maxHeight: real, r: Vectors.Vec2) returns (bestPlace: Option<nat>, lostAreas: seq<Rect>)
    requires Positive(s)
    ensures bestPlace.Some? ==> bestPlace.value < |s| && IsPlace(s, maxHeight, r, bestPlace.value)
    ensures bestPlace.Some? ==> lostAreas == LostAreas(s, r, bestPlace.value)
    ensures bestPlace.Some? ==> forall k :: bestPlace.value < k < |s| && IsPlace(s, maxHeight, r, k) ==> Waste(s, r, k) >= FltMax
    ensures bestPlace.None? ==> forall k :: 0 <= k < |s| && IsPlace(s, maxHeight, r, k) ==> Waste(s, r, k) >= FltMax
  {
    var places := FindPlacesToPack(s, maxHeight, r);
    bestPlace := None;
    lostAreas := [];
    var lostAreaValue := FltMax;
    var i := 0;
    while i < |places|
      invariant 0 <= i <= |places| && lostAreaValue == FltMax
      invariant bestPlace.Some? ==> bestPlace.value in places[..i] && lostAreas == LostAreas(s, r, bestPlace.value)
      invariant bestPlace.Some? ==> forall m :: 0 <= m < i && places[m] > bestPlace.value ==> Waste(s, r, places[m]) >= FltMax
      invariant bestPlace.None? ==> forall m :: 0 <= m < i ==> Waste(s, r, places[m]) >= FltMax
    {
      var p := places[i];
      var lostAreasRects := ComputeLostAreas(s, r, p);
      var area := AreaSum(lostAreasRects);
      if area < lostAreaValue {
        area := lostAreaValue;
        bestPlace := Some(p);
        lostAreas := lostAreasRects;
      } else if area == lostAreaValue && bestPlace.Some? && s[p].y < s[bestPlace.value].y {
        bestPlace := Some(p);
        lostAreas := lostAreasRects;
      }
      i := i + 1;
    }
  }

  /** The skyline of the counterexample: a segment two wide at height 0,
      then two segments one wide at heights 1 and 0. */
  const Example: seq<Vectors.Vec2> := [Vectors.Vec2(2.0, 0.0), Vectors.Vec2(1.0, 1.0), Vectors.Vec2(1.0, 0.0)]

  /** On the example skyline, a 2 by 1 size has places at the first two
      segments only. */
  lemma ExamplePlaces()
    ensures IsPlace(Example, 10.0, Vectors.Vec2(2.0, 1.0), 0) && IsPlace(Example, 10.0, Vectors.Vec2(2.0, 1.0), 1)
    ensures !IsPlace(Example, 10.0, Vectors.Vec2(2.0, 1.0), 2)
  {
    assert Reaches(Example, 0.0, 0, 0.0, 2.0);
    assert Reaches(Example, 1.0, 2, 1.0, 2.0);
    assert !Reaches(Example, 0.0, 3, 1.0, 2.0);
  }

  /** On the example skyline, a 2 by 1 size on the first segment wastes
      nothing. */
  lemma ExampleFirstWaste()
    ensures Waste(Example, Vectors.Vec2(2.0, 1.0), 0) == 0.0
  {
    assert Example[..0] == [];
    assert LostAt(Example, 0, 0.0, 2.0, 0.0) == [];
    assert LostAreas(Example, Vectors.Vec2(2.0, 1.0), 0) == [];
  }

  /** On the example skyline, a 2 by 1 size on the second segment wastes the
      1 by 1 area below it on the third. */
  lemma ExampleSecondWaste()
    ensures Waste(Example, Vectors.Vec2(2.0, 1.0), 1) == 1.0
  {
    assert Example[..1] == [Example[0]] && [Example[0]][1..] == [];
    assert TotalWidth(Example[..1]) == 2.0;
    var lost := Guillotines.NewRect(Vectors.Vec2(3.0, 0.0), Vectors.Vec2(1.0, 1.0));
    assert LostAt(Example, 1, 1.0, 2.0, 2.0) == [];
    assert LostAt(Example, 2, 1.0, 1.0, 3.0) == [lost];
    assert LostAreas(Example, Vectors.Vec2(2.0, 1.0), 1) == [lost];
    assert [lost][..0] == [];
  }

  /** On the example skyline, the first place of a 2 by 1 size wastes
      nothing and the second wastes a 1 by 1 area, so `BestPlaceAsWritten`,
      which takes the last place below the start value, picks the worse
      one. */
  lemma LastPlaceWastesMoreAsWritten()
    ensures IsPlace(Example, 10.0, Vectors.Vec2(2.0, 1.0), 0) && IsPlace(Example, 10.0, Vectors.Vec2(2.0, 1.0), 1)
    ensures !IsPlace(Example, 10.0, Vectors.Vec2(2.0, 1.0), 2)
    ensures Waste(Example, Vectors.Vec2(2.0, 1.0), 0) < Waste(Example, Vectors.Vec2(2.0, 1.0), 1) < FltMax
  {
    ExamplePlaces();
    ExampleFirstWaste();
    ExampleSecondWaste();
  }

  /** `bestPlaceToPack` as evidently intended: the least lost area is kept,
      so the chosen place wastes the least area of all places, and among
      those the first of the lowest. It is none exactly when there is no
      place. */
  method BestPlaceToPack(s: seq<Vectors.Vec2>, maxHeight: real, r: Vectors.Vec2) returns (bestPlace: Option<nat>, lostAreas: seq<Rect>)
    requires Positive(s)
    ensures bestPlace.None? <==> forall k :: 0 <= k < |s| ==> !IsPlace(s, maxHeight, r, k)
    ensures bestPlace.Some? ==> bestPlace.value < |s| && IsPlace(s, maxHeight, r, bestPlace.value)
    ensures bestPlace.Some? ==> lostAreas == LostAreas(s, r, bestPlace.value)
    ensures bestPlace.Some? ==> forall k :: 0 <= k < |s| && IsPlace(s, maxHeight, r, k) ==>
      Waste(s, r, bestPlace.value) <= Waste(s, r, k) &&
      (Waste(s, r, bestPlace.value) == Waste(s, r, k) ==> s[bestPlace.value].y <= s[k].y)
  {
    var places := FindPlacesToPack(s, maxHeight, r);
    bestPlace := None;
    lostAreas := [];
    var lostAreaValue := 0.0;
    var i := 0;
    while i < |places|
      invariant 0 <= i <= |places|
      invariant bestPlace.None? <==> i == 0
      invariant bestPlace.Some? ==> bestPlace.value in places[..i] && lostAreas == LostAreas(s, r, bestPlace.value)
      invariant bestPlace.Some? ==> lostAreaValue == Waste(s, r, bestPlace.value)
      invariant bestPlace.Some? ==> forall m :: 0 <= m < i ==>
        lostAreaValue <= Waste(s, r, places[m]) && (lostAreaValue == Waste(s, r, places[m]) ==> s[bestPlace.value].y <= s[places[m]].y)
    {
      var p := places[i];
      var lostAreasRects := ComputeLostAreas(s, r, p);
      var area := AreaSum(lostAreasRects);
      if bestPlace.None? || area < lostAreaValue {
        lostAreaValue := area;
        bestPlace := Some(p);
        lostAreas := lostAreasRects;
      } else if area == lostAreaValue && s[p].y < s[bestPlace.value].y {
        bestPlace := Some(p);
        lostAreas := lostAreasRects;
      }
      i := i + 1;
    }
    if |places| > 0 {
      assert places[0] in places;
    }
    if bestPlace.Some? {
      forall k | 0 <= k < |s| && IsPlace(s, maxHeight, r, k)
        ensures Waste(s, r, bestPlace.value) <= Waste(s, r, k)
        ensures Waste(s, r, bestPlace.value) == Waste(s, r, k) ==> s[bestPlace.value].y <= s[k].y
      {
        var m :| 0 <= m < |places| && places[m] == k;
      }
    }
  }

  /** Segment `p` is the place `BestPlaceToPack` chooses: of all places it
      wastes the least area, and of those it is the lowest. */
  ghost predicate IsBestPlace(s: seq<Vectors.Vec2>, maxHeight: real, r: Vectors.Vec2, p: nat)
  {
    p < |s| && IsPlace(s, maxHeight, r, p) &&
    forall k :: 0 <= k < |s| && IsPlace(s, maxHeight, r, k) ==>
      Waste(s, r, p) <= Waste(s, r, k) && (Waste(s, r, p) == Waste(s, r, k) ==> s[p].y <= s[k].y)
  }

  /** The rects of a list, as the keys they become. */
  function Keys(rs: seq<Rect>): (keys: set<Rect>)
    ensures |rs| > 0 ==> rs[|rs| - 1] in keys
  {
    if rs == [] then {} else Keys(rs[..|rs| - 1]) + {rs[|rs| - 1]}
  }

  /** A guillotine context for the wasted area `k`: valid, over a bin of the
      size of `k` at the origin. */
  ghost predicate Wasted(k: Rect, g: Guillotines.Context)
    reads g
  {
    Guillotines.Proper(k) && g.Valid() && g.bin == Guillotines.NewRect(Vectors.Zero, k.size)
  }

  /** A guillotine context that refuses size `r`: the size would overflow its
      area, or none of its free rects fits it. */
  ghost predicate Refuses(g: Guillotines.Context, r: Vectors.Vec2)
    reads g
  {
    g.packedArea + Vectors.Area(r) > g.totalArea || forall f :: f in g.freeRectangles ==> !Guillotines.Fits(f, r)
  }

  /** A rect packed inside the bin of a wasted area's context lies inside
      the wasted area once translated by the area's bottom-left corner. */
  lemma WastedPlacement(k: Rect, p: Rect)
    requires WellFormed(p) && ContainsRect(Guillotines.NewRect(Vectors.Zero, k.size), p)
    ensures ContainsRect(k, Matrices.TransformedRect(Matrices.FromTranslation(BottomLeft(k).x, BottomLeft(k).y), p))
  {
    Matrices.TranslatedRect(p, BottomLeft(k).x, BottomLeft(k).y);
  }

  /** One step of the first loop of `tryPack`: the wasted area `k`'s
      context tries `r`; a rect it packs is moved into the wasted area. */
  method TryWasted(k: Rect, g: Guillotines.Context, r: Vectors.Vec2) returns (moved: Option<Rect>)
    requires Wasted(k, g) && r.x >= 0.0 && r.y >= 0.0
    modifies g
    ensures Wasted(k, g)
    ensures moved.None? <==> old(Refuses(g, r))
    ensures moved.Some? ==> ContainsRect(k, moved.value) && moved.value.size == r
  {
    moved := None;
    var gpacked := g.TryPack(r);
    if gpacked.Some? {
      assert ContainsRect(g.bin, g.packedRectangles[|g.packedRectangles| - 1]);
      WastedPlacement(k, gpacked.value);
      Matrices.TranslatedRect(gpacked.value, BottomLeft(k).x, BottomLeft(k).y);
      moved := Some(Matrices.TransformedRect(Matrices.FromTranslation(BottomLeft(k).x, BottomLeft(k).y), gpacked.value));
    }
  }

  /** Every wasted area's context is valid over a bin of its size. */
  ghost predicate AllWasted(m: map<Rect, Guillotines.Context>)
    reads m.Values
  {
    forall k {:trigger Wasted(k, m[k])} :: k in m ==> Wasted(k, m[k])
  }

  /** No two wasted areas share a context. */
  predicate Separate(m: map<Rect, Guillotines.Context>)
  {
    forall k, k' :: k in m && k' in m && k != k' ==> m[k] != m[k']
  }

  /** The first loop of `tryPack` as evidently intended: the wasted areas'
      contexts are tried one by one, and the first that takes `r` packs it;
      its rect is moved into the wasted area. */
  method PackWasted(m: map<Rect, Guillotines.Context>, r: Vectors.Vec2) returns (res: Option<Rect>)
    requires AllWasted(m) && Separate(m) && r.x >= 0.0 && r.y >= 0.0
    modifies m.Values
    ensures AllWasted(m)
    ensures res.None? <==> forall k :: k in m ==> old(Refuses(m[k], r))
    ensures res.Some? ==> res.value.size == r && exists k :: k in m && ContainsRect(k, res.value)
  {
    res := None;
    var todo := m.Keys;
    while todo != {} && res.None?
      invariant AllWasted(m) && todo <= m.Keys
      invariant forall k :: k in todo ==> unchanged(m[k])
      invariant res.None? ==> forall k :: k in m && k !in todo ==> old(Refuses(m[k], r))
      invariant res.Some? ==> res.value.size == r && exists k :: k in m && ContainsRect(k, res.value) && !old(Refuses(m[k], r))
      decreases todo
    {
      var k :| k in todo;
      res := TryWasted(k, m[k], r);
      todo := todo - {k};
    }
  }

  /** The first loop of `tryPack` as written: it does not stop at the first
      context that takes `r`, so `r` is packed into every wasted area that
      can take it (the `accepted` ones, each giving one of `packed`), and
      the last of them is returned. */
  method PackWastedAsWritten(m: map<Rect, Guillotines.Context>, r: Vectors.Vec2) returns (res: Option<Rect>, packed: seq<Rect>, ghost accepted: seq<Rect>)
    requires AllWasted(m) && Separate(m) && r.x >= 0.0 && r.y >= 0.0
    modifies m.Values
    ensures AllWasted(m)
    ensures forall k :: k in m ==> (k in accepted <==> !old(Refuses(m[k], r)))
    ensures |packed| == |accepted|
    ensures res.Some? <==> accepted != []
    ensures forall i :: 0 <= i < |packed| ==> accepted[i] in m && ContainsRect(accepted[i], packed[i])
  {
    res := None;
    packed := [];
    accepted := [];
    var todo := m.Keys;
    while todo != {}
      invariant AllWasted(m) && todo <= m.Keys
      invariant forall k :: k in todo ==> unchanged(m[k])
      invariant forall k :: k in accepted ==> k !in todo
      invariant forall k :: k in m && k !in todo ==> (k in accepted <==> !old(Refuses(m[k], r)))
      invariant |packed| == |accepted|
      invariant res.Some? <==> accepted != []
      invariant forall i :: 0 <= i < |packed| ==> accepted[i] in m && ContainsRect(accepted[i], packed[i])
      decreases todo
    {
      var k :| k in todo;
      var moved := TryWasted(k, m[k], r);
      if moved.Some? {
        res := moved;
        packed := packed + [moved.value];
        accepted := accepted + [k];
      }
      todo := todo - {k};
    }
  }

  /** A new guillotine context for the wasted area `k`, as the second loop
      of `tryPack` sets it up: it takes a size as large as the area. */
  method NewWasted(k: Rect) returns (g: Guillotines.Context)
    requires Guillotines.Proper(k)
    ensures fresh(g) && Wasted(k, g) && !Refuses(g, k.size)
  {
    g := new Guillotines.Context();
    g.Initialize(k.size, Guillotines.BSSF, Guillotines.MINAS);
    assert Guillotines.Fits(Guillotines.NewRect(Vectors.Zero, k.size), k.size);
  }

  /** One step of the second loop of `tryPack`: the lost area `q` gets a
      context of its own, unless it already has one. */
  method AddLost(m: map<Rect, Guillotines.Context>, q: Rect) returns (m': map<Rect, Guillotines.Context>)
    requires AllWasted(m) && Separate(m) && Guillotines.Proper(q)
    ensures AllWasted(m') && Separate(m')
    ensures m'.Keys == m.Keys + {q}
    ensures forall k :: k in m ==> m'[k] == m[k]
    ensures forall k :: k in m' && k !in m ==> fresh(m'[k])
  {
    var guiCtx := NewWasted(q);
    m' := m;
    if q !in m {
      m' := m[q := guiCtx];
    }
  }

  /** The second loop of `tryPack`: every lost area gets a context of its
      own, unless it already has one, and its area is counted as packed. */
  method AddWasted(m: map<Rect, Guillotines.Context>, lostAreas: seq<Rect>) returns (m': map<Rect, Guillotines.Context>, added: real)
    requires AllWasted(m) && Separate(m)
    requires forall q :: q in lostAreas ==> Guillotines.Proper(q)
    ensures AllWasted(m') && Separate(m')
    ensures m'.Keys == m.Keys + Keys(lostAreas)
    ensures forall k :: k in m ==> m'[k] == m[k]
    ensures forall k :: k in m' && k !in m ==> fresh(m'[k])
    ensures added == AreaSum(lostAreas)
  {
    m' := m;
    added := 0.0;
    var i := 0;
    while i < |lostAreas|
      invariant 0 <= i <= |lostAreas|
      invariant AllWasted(m') && Separate(m')
      invariant m'.Keys == m.Keys + Keys(lostAreas[..i])
      invariant forall k :: k in m ==> m'[k] == m[k]
      invariant forall k :: k in m' && k !in m ==> fresh(m'[k])
      invariant added == AreaSum(lostAreas[..i])
    {
      var lostArea := lostAreas[i];
      assert lostArea in lostAreas;
      m' := AddLost(m', lostArea);
      assert lostAreas[..i + 1][..i] == lostAreas[..i];
      assert Keys(lostAreas[..i + 1]) == Keys(lostAreas[..i]) + {lostArea};
      added := added + Area(lostArea);
      i := i + 1;
    }
    assert lostAreas[..i] == lostAreas;
  }

  /** Size `r` was packed as `rect` on segment `p` of skyline `s`, the best
      place for it below `maxHeight`, leaving skyline `s'`. */
  ghost predicate PackedOn(s: seq<Vectors.Vec2>, maxHeight: real, r: Vectors.Vec2, p: nat, rect: Rect, s': seq<Vectors.Vec2>)
  {
    IsBestPlace(s, maxHeight, r, p) &&
    rect == Guillotines.NewRect(Vectors.Vec2(TotalWidth(s[..p]), s[p].y), r) &&
    s' == Raise(s, p, r.x, s[p].y + r.y, s[..p])
  }

  /** The skyline half of `tryPack`, on values: `r` goes on the best place
      of `s`, and with `waste` the areas it leaves below become wasted areas
      of `m`, whose area `added` counts as packed. */
  method PlaceOnSkyline(s: seq<Vectors.Vec2>, bin: Vectors.Vec2, r: Vectors.Vec2, m: map<Rect, Guillotines.Context>, waste: bool)
    returns (res: Option<Rect>, s': seq<Vectors.Vec2>, m': map<Rect, Guillotines.Context>, added: real, ghost p: nat)
    requires Spans(s, bin) && AllWasted(m) && Separate(m) && r.x >= 0.0 && r.y >= 0.0
    ensures Spans(s', bin) && AllWasted(m') && Separate(m')
    ensures forall k :: k in m ==> k in m' && m'[k] == m[k]
    ensures forall k :: k in m' && k !in m ==> fresh(m'[k])
    ensures res.None? <==> forall q :: 0 <= q < |s| ==> !IsPlace(s, bin.y, r, q)
    ensures res.None? ==> s' == s && m' == m && added == 0.0
    ensures res.Some? ==> PackedOn(s, bin.y, r, p, res.value, s')
    ensures res.Some? ==> added == (if waste then Waste(s, r, p) else 0.0)
    ensures res.Some? ==> m'.Keys == m.Keys + (if waste then Keys(LostAreas(s, r, p)) else {})
    ensures res.Some? ==> InBin(res.value, bin)
    ensures forall k :: k in m' && k !in m ==> InBin(k, bin)
  {
    s', m', added, p := s, m, 0.0, 0;
    var bestPlace, lostAreas := BestPlaceToPack(s, bin.y, r);
    if bestPlace.None? {
      res := None;
      return;
    }
    var place := bestPlace.value;
    p := place;
    PackKeepsSpans(s, bin, r, place);
    LostFromProper(s, place, s[place].y, r.x, TotalWidth(s[..place]), []);
    PlacedInBin(s, bin, r, place);
    LostInBin(s, bin, place, s[place].y, r.x, TotalWidth(s[..place]), []);
    KeysFrom(LostAreas(s, r, place));
    var packed;
    packed, s' := PackIntoPlace(s, r, place);
    if |lostAreas| != 0 && waste {
      m', added := AddWasted(m, lostAreas);
    }
    res := Some(packed);
  }

  /** The state of the skyline packer. */
  class Context {
    var totalArea: real
    var packedArea: real
    var packedRectangles: seq<Rect>
    var guillotineContexts: map<Rect, Guillotines.Context>
    var skyline: seq<Vectors.Vec2>
    var freeRectangle: Vectors.Vec2
    var wasteImprovement: bool

    /** `Context()`: a context as declared, before `initializeContext`. */
    constructor ()
    {
    }

    /** The skyline spans the bin, every wasted area has a guillotine
        context of its own, and the wasted areas and the packed rects lie in
        the bin. */
    ghost predicate Valid()
      reads this, guillotineContexts.Values
    {
      Spans(skyline, freeRectangle) && AllWasted(guillotineContexts) && Separate(guillotineContexts) &&
      (forall k :: k in guillotineContexts ==> InBin(k, freeRectangle)) &&
      (forall i :: 0 <= i < |packedRectangles| ==> InBin(packedRectangles[i], freeRectangle))
    }

    /** `initializeContext(c, freeRectangle, wasteImprovement)`. */
    method Initialize(free: Vectors.Vec2, waste: bool)
      requires free.x > 0.0 && free.y >= 0.0
      modifies this
      ensures Valid() && totalArea == Vectors.Area(free) && packedArea == 0.0
      ensures guillotineContexts == map[] && skyline == CreateSkyline(free) && packedRectangles == []
      ensures freeRectangle == free && wasteImprovement == waste
    {
      totalArea := Vectors.Area(free);
      packedArea := 0.0;
      guillotineContexts := map[];
      skyline := CreateSkyline(free);
      packedRectangles := [];
      freeRectangle := free;
      wasteImprovement := waste;
    }

    /** The rest of `tryPack`, once no wasted area took `r`: within the
        free area, `r` goes on the best place of the skyline, and with waste
        improvement the areas it leaves below become wasted areas. */
    method PackOnSkyline(r: Vectors.Vec2) returns (res: Option<Rect>)
      requires Valid() && r.x >= 0.0 && r.y >= 0.0
      modifies this
      ensures Valid() && totalArea == old(totalArea) && freeRectangle == old(freeRectangle) && wasteImprovement == old(wasteImprovement)
      ensures forall k :: k in old(guillotineContexts) ==> k in guillotineContexts && guillotineContexts[k] == old(guillotineContexts[k])
      ensures forall k :: k in guillotineContexts && k !in old(guillotineContexts) ==> fresh(guillotineContexts[k])
      ensures res.None? ==> packedRectangles == old(packedRectangles) && skyline == old(skyline)
      ensures res.None? ==> packedArea == old(packedArea) && guillotineContexts == old(guillotineContexts)
      ensures res.None? <==> old(packedArea) + Vectors.Area(r) > totalArea || forall p :: 0 <= p < |old(skyline)| ==> !IsPlace(old(skyline), freeRectangle.y, r, p)
      ensures res.Some? ==> packedRectangles == old(packedRectangles) + [res.value]
      ensures res.Some? ==>
        exists p: nat :: PackedOn(old(skyline), freeRectangle.y, r, p, res.value, skyline) &&
          packedArea == old(packedArea) + (if wasteImprovement then Waste(old(skyline), r, p) else 0.0) + Vectors.Area(r) &&
          guillotineContexts.Keys == old(guillotineContexts).Keys + (if wasteImprovement then Keys(LostAreas(old(skyline), r, p)) else {})
    {
      res := None;
      if packedArea + Vectors.Area(r) > totalArea {
        return;
      }
      var raised, contexts, added;
      ghost var p;
      ghost var s, m, area := skyline, guillotineContexts, packedArea;
      res, raised, contexts, added, p := PlaceOnSkyline(skyline, freeRectangle, r, guillotineContexts, wasteImprovement);
      if res.Some? {
        skyline := raised;
        guillotineContexts := contexts;
        packedRectangles := packedRectangles + [res.value];
        packedArea := packedArea + added + Vectors.Area(r);
        assert PackedOn(s, freeRectangle.y, r, p, res.value, skyline) &&
          packedArea == area + (if wasteImprovement then Waste(s, r, p) else 0.0) + Vectors.Area(r) &&
          guillotineContexts.Keys == m.Keys + (if wasteImprovement then Keys(LostAreas(s, r, p)) else {});
      }
    }

    /** `tryPack(r, c)`, with the first loop as evidently intended: a wasted
        area that takes `r` holds it, and otherwise the skyline does. */
    method TryPack(r: Vectors.Vec2) returns (res: Option<Rect>)
      requires Valid() && r.x >= 0.0 && r.y >= 0.0
      modifies this, guillotineContexts.Values
      ensures Valid() && totalArea == old(totalArea) && freeRectangle == old(freeRectangle) && wasteImprovement == old(wasteImprovement)
      ensures forall k :: k in old(guillotineContexts) ==> k in guillotineContexts && guillotineContexts[k] == old(guillotineContexts[k])
      ensures forall k :: k in guillotineContexts && k !in old(guillotineContexts) ==> fresh(guillotineContexts[k])
      ensures res.None? ==> packedRectangles == old(packedRectangles) && skyline == old(skyline)
      ensures res.None? ==> packedArea == old(packedArea) && guillotineContexts == old(guillotineContexts)
      ensures res.None? ==> forall k :: k in guillotineContexts ==> old(Refuses(guillotineContexts[k], r))
      ensures res.None? ==> old(packedArea) + Vectors.Area(r) > totalArea || forall p :: 0 <= p < |old(skyline)| ==> !IsPlace(old(skyline), freeRectangle.y, r, p)
      ensures res.Some? ==> packedRectangles == old(packedRectangles) + [res.value]
      ensures res.Some? ==> res.value.size == r && InBin(res.value, freeRectangle)
      ensures res.Some? ==>
        (skyline == old(skyline) && packedArea == old(packedArea) && guillotineContexts == old(guillotineContexts) &&
         exists k :: k in guillotineContexts && ContainsRect(k, res.value)) ||
        exists p: nat :: PackedOn(old(skyline), freeRectangle.y, r, p, res.value, skyline)
    {
      res := PackInWastedArea(r);
      if res.None? {
        res := PackOnSkyline(r);
      }
      if res.Some? {
        assert packedRectangles[|packedRectangles| - 1] == res.value;
      }
    }

    /** The first loop of `tryPack` as evidently intended. */
    method PackInWastedArea(r: Vectors.Vec2) returns (res: Option<Rect>)
      requires Valid() && r.x >= 0.0 && r.y >= 0.0
      modifies this, guillotineContexts.Values
      ensures Valid() && guillotineContexts == old(guillotineContexts)
      ensures totalArea == old(totalArea) && packedArea == old(packedArea) && skyline == old(skyline)
      ensures freeRectangle == old(freeRectangle) && wasteImprovement == old(wasteImprovement)
      ensures res.None? <==> forall k :: k in guillotineContexts ==> old(Refuses(guillotineContexts[k], r))
      ensures res.None? ==> packedRectangles == old(packedRectangles)
      ensures res.Some? ==> packedRectangles == old(packedRectangles) + [res.value]
      ensures res.Some? ==> res.value.size == r && exists k :: k in guillotineContexts && ContainsRect(k, res.value)
    {
      res := PackWasted(guillotineContexts, r);
      if res.Some? {
        var k :| k in guillotineContexts && ContainsRect(k, res.value);
        assert InBin(k, freeRectangle);
        packedRectangles := packedRectangles + [res.value];
      }
    }

    /** The first loop of `tryPack` as written. */
    method PackInWastedAreaAsWritten(r: Vectors.Vec2) returns (res: Option<Rect>, ghost accepted: seq<Rect>)
      requires Valid() && r.x >= 0.0 && r.y >= 0.0
      modifies this, guillotineContexts.Values
      ensures Valid() && guillotineContexts == old(guillotineContexts)
      ensures skyline == old(skyline) && packedArea == old(packedArea)
      ensures forall k :: k in guillotineContexts ==> (k in accepted <==> !old(Refuses(guillotineContexts[k], r)))
      ensures |packedRectangles| == |old(packedRectangles)| + |accepted|
      ensures res.Some? <==> accepted != []
    {
      var packed;
      res, packed, accepted := PackWastedAsWritten(guillotineContexts, r);
      forall i | 0 <= i < |packed|
        ensures InBin(packed[i], freeRectangle)
      {
        assert InBin(accepted[i], freeRectangle);
      }
      packedRectangles := packedRectangles + packed;
    }
  }

  /** Two wasted areas of size 1 by 1, each with a fresh context: the first
      loop of `tryPack` as written packs a single 1 by 1 size into both. */
  method WastedTwiceAsWritten() returns (count: nat)
    ensures count >= 2
  {
    var r := Vectors.Vec2(1.0, 1.0);
    var k1 := Rect(Vectors.Vec2(0.5, 0.5), r);
    var k2 := Rect(Vectors.Vec2(2.5, 0.5), r);
    var g1 := NewWasted(k1);
    var g2 := NewWasted(k2);
    var m := map[k1 := g1, k2 := g2];
    assert m[k1] == g1 && m[k2] == g2 && !Refuses(g1, r) && !Refuses(g2, r);
    assert Wasted(k1, m[k1]) && Wasted(k2, m[k2]);
    var res, packed, accepted := PackWastedAsWritten(m, r);
    assert k1 in accepted && k2 in accepted;
    TwoDistinct(accepted, k1, k2);
    count := |packed|;
  }

  /** A sequence holding two different rects has at least two elements. */
  lemma TwoDistinct(s: seq<Rect>, a: Rect, b: Rect)
    requires a in s && b in s && a != b
    ensures |s| >= 2
  {
    var i :| 0 <= i < |s| && s[i] == a;
    var j :| 0 <= j < |s| && s[j] == b;
    assert i != j;
  }
}
