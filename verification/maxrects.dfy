/** The MaxRects packer: the free space is kept as the set of maximal free
    rects, which may overlap each other. Packing a size places it at the
    bottom-left corner of the best fitting free rect, carves the placed rect
    out of every free rect it overlaps, and drops the free rects another one
    contains. */
module MaxRects {
  import Vectors
  import opened Rects
  import opened Options
  import Guillotines

  /** `MaxRects::FitPolicy`: bottom-left, best area fit, best short side fit,
      best long side fit. */
  datatype FitPolicy = BL | BAF | BSSF | BLSF

  /** `isBestFit(policy, free, previous, r)`: under BL whether `free` is no
      higher than `previous`, and no further right when both are equally
      high; under the other policies the strict comparisons the guillotine
      packer makes. */
  predicate IsBestFit(policy: FitPolicy, free: Rect, previous: Rect, r: Vectors.Vec2)
    requires Guillotines.Proper(free) && Guillotines.Proper(previous)
  {
    match policy
    case BL =>
      if Bottom(free) == Bottom(previous) then Left(free) <= Left(previous) else Bottom(free) <= Bottom(previous)
    case BAF => Guillotines.IsBestFit(Guillotines.BAF, free, previous, r)
    case BSSF => Guillotines.IsBestFit(Guillotines.BSSF, free, previous, r)
    case BLSF => Guillotines.IsBestFit(Guillotines.BLSF, free, previous, r)
  }

  /** `g` is strictly preferred to `f`: strictly lower, or as low and
      strictly further left, under BL; a strictly better fit otherwise. */
  predicate Beats(policy: FitPolicy, g: Rect, f: Rect, r: Vectors.Vec2)
    requires Guillotines.Proper(g) && Guillotines.Proper(f)
  {
    if policy == BL then !IsBestFit(BL, f, g, r) else IsBestFit(policy, g, f, r)
  }

  /** Under BL, `isBestFit` is the lexicographic order on (bottom, left) and
      being preferred is its strict part. */
  lemma BottomLeftOrder(a: Rect, b: Rect, r: Vectors.Vec2)
    requires Guillotines.Proper(a) && Guillotines.Proper(b)
    ensures IsBestFit(BL, a, b, r) <==> Bottom(a) < Bottom(b) || (Bottom(a) == Bottom(b) && Left(a) <= Left(b))
    ensures Beats(BL, a, b, r) <==> Bottom(a) < Bottom(b) || (Bottom(a) == Bottom(b) && Left(a) < Left(b))
  {
  }

  /** One step of the search: switching to `f` because it fits at least as
      well as the held `c` keeps every rect seen so far from being preferred
      to the new choice, and keeping `c` means `f` is not preferred to it. */
  lemma ScanStep(policy: FitPolicy, g: Rect, c: Rect, f: Rect, r: Vectors.Vec2)
    requires Guillotines.Proper(g) && Guillotines.Proper(c) && Guillotines.Proper(f)
    ensures !Beats(policy, g, c, r) && IsBestFit(policy, f, c, r) ==> !Beats(policy, g, f, r)
    ensures !IsBestFit(policy, f, c, r) ==> !Beats(policy, f, c, r)
    ensures !Beats(policy, f, f, r)
  {
    match policy
    case BL =>
    case BAF => Guillotines.BestFitOrder(Guillotines.BAF, g, f, c, r);
    case BSSF => Guillotines.BestFitOrder(Guillotines.BSSF, g, f, c, r);
    case BLSF => Guillotines.BestFitOrder(Guillotines.BLSF, g, f, c, r);
  }

  /** The search loop of `tryPack`: the free rects are visited in an
      unspecified order, and a fitting one replaces the one held when there
      is none yet or when `isBestFit` holds for it. The result is none
      exactly when nothing fits, and otherwise a fitting free rect to which
      no fitting free rect is preferred. */
  method ChooseFree(free: set<Rect>, policy: FitPolicy, r: Vectors.Vec2) returns (chosen: Option<Rect>)
    requires forall f :: f in free ==> Guillotines.Proper(f)
    ensures chosen.None? <==> forall f :: f in free ==> !Guillotines.Fits(f, r)
    ensures chosen.Some? ==> chosen.value in free && Guillotines.Fits(chosen.value, r)
    ensures chosen.Some? ==> forall g :: g in free && Guillotines.Fits(g, r) ==> !Beats(policy, g, chosen.value, r)
  {
    chosen := None;
    var todo := free;
    while todo != {}
      invariant todo <= free
      invariant chosen.None? <==> forall f :: f in free - todo ==> !Guillotines.Fits(f, r)
      invariant chosen.Some? ==> chosen.value in free - todo && Guillotines.Fits(chosen.value, r)
      invariant chosen.Some? ==> forall g :: g in free - todo && Guillotines.Fits(g, r) ==> !Beats(policy, g, chosen.value, r)
      decreases todo
    {
      var f :| f in todo;
      if Guillotines.Fits(f, r) {
        if chosen.Some? && IsBestFit(policy, f, chosen.value, r) {
          forall g | g in free - todo && Guillotines.Fits(g, r)
            ensures !Beats(policy, g, f, r)
          {
            ScanStep(policy, g, chosen.value, f, r);
          }
          ScanStep(policy, f, f, f, r);
          chosen := Some(f);
        } else if chosen.None? {
          ScanStep(policy, f, f, f, r);
          chosen := Some(f);
        } else {
          ScanStep(policy, f, chosen.value, f, r);
        }
      }
      todo := todo - {f};
    }
  }

  /** A piece `split` keeps: only one of non-zero width and height. */
  function NonZero(p: Rect): (s: seq<Rect>)
    ensures forall q :: q in s <==> q == p && Width(p) != 0.0 && Height(p) != 0.0
  {
    if Width(p) != 0.0 && Height(p) != 0.0 then [p] else []
  }

  /** `split(free, r)`: nothing when the two do not overlap with positive
      width and height; otherwise the parts of `free` to the left of, to the
      right of, above and below the overlap, each spanning `free` along the
      other axis, in that order, leaving out those of zero width or height. */
  function Split(free: Rect, r: Rect): (pieces: seq<Rect>)
    ensures |pieces| <= 4
  {
    var ro := GetIntersection(free, r);
    if ro.None? || Width(ro.value) == 0.0 || Height(ro.value) == 0.0 then []
    else
      var ur := ro.value;
      NonZero(Guillotines.NewRect(Vectors.Vec2(Left(free), Bottom(free)), Vectors.Vec2(Left(ur) - Left(free), Height(free)))) +
      NonZero(Guillotines.NewRect(Vectors.Vec2(Right(ur), Bottom(free)), Vectors.Vec2(Right(free) - Right(ur), Height(free)))) +
      NonZero(Guillotines.NewRect(Vectors.Vec2(Left(free), Top(ur)), Vectors.Vec2(Width(free), Top(free) - Top(ur)))) +
      NonZero(Guillotines.NewRect(Vectors.Vec2(Left(free), Bottom(free)), Vectors.Vec2(Width(free), Bottom(ur) - Bottom(free))))
  }

  /** Every piece of a split has positive width and height, lies inside the
      free rect and does not overlap the packed rect. */
  lemma SplitPieces(free: Rect, r: Rect)
    ensures forall p :: p in Split(free, r) ==> Guillotines.Proper(p) && ContainsRect(free, p) && !StrictlyIntersects(p, r)
  {
    var ro := GetIntersection(free, r);
    if ro.Some? && Width(ro.value) != 0.0 && Height(ro.value) != 0.0 {
      var ur := ro.value;
      IntersectionEdges(free, r);
      var left := Guillotines.NewRect(Vectors.Vec2(Left(free), Bottom(free)), Vectors.Vec2(Left(ur) - Left(free), Height(free)));
      var right := Guillotines.NewRect(Vectors.Vec2(Right(ur), Bottom(free)), Vectors.Vec2(Right(free) - Right(ur), Height(free)));
      var top := Guillotines.NewRect(Vectors.Vec2(Left(free), Top(ur)), Vectors.Vec2(Width(free), Top(free) - Top(ur)));
      var bottom := Guillotines.NewRect(Vectors.Vec2(Left(free), Bottom(free)), Vectors.Vec2(Width(free), Bottom(ur) - Bottom(free)));
      assert Split(free, r) == NonZero(left) + NonZero(right) + NonZero(top) + NonZero(bottom);
      forall p | p in Split(free, r)
        ensures Guillotines.Proper(p) && ContainsRect(free, p) && !StrictlyIntersects(p, r)
      {
        if p in NonZero(left) {
          assert p == left;
        } else if p in NonZero(right) {
          assert p == right;
        } else if p in NonZero(top) {
          assert p == top;
        } else {
          assert p == bottom;
        }
      }
    }
  }

  /** A split yields nothing exactly when the free rect does not overlap the
      packed rect, or lies wholly inside it. */
  lemma SplitEmptyIff(free: Rect, r: Rect)
    ensures Split(free, r) == [] <==> !StrictlyIntersects(free, r) || ContainsRect(r, free)
  {
    StrictlyIntersectsIffNonDegenerate(free, r);
    var ro := GetIntersection(free, r);
    if ro.Some? {
      IntersectionEdges(free, r);
    }
  }

  /** The pieces of a split cover every point of the free rect outside the
      packed rect: splitting loses no free space. */
  lemma SplitCovers(free: Rect, r: Rect, pt: Vectors.Vec2)
    requires StrictlyIntersects(free, r) && ContainsPoint(free, pt) && !ContainsPoint(r, pt)
    ensures exists p :: p in Split(free, r) && ContainsPoint(p, pt)
  {
    StrictlyIntersectsIffNonDegenerate(free, r);
    var ur := GetIntersection(free, r).value;
    IntersectionEdges(free, r);
    var left := Guillotines.NewRect(Vectors.Vec2(Left(free), Bottom(free)), Vectors.Vec2(Left(ur) - Left(free), Height(free)));
    var right := Guillotines.NewRect(Vectors.Vec2(Right(ur), Bottom(free)), Vectors.Vec2(Right(free) - Right(ur), Height(free)));
    var top := Guillotines.NewRect(Vectors.Vec2(Left(free), Top(ur)), Vectors.Vec2(Width(free), Top(free) - Top(ur)));
    var bottom := Guillotines.NewRect(Vectors.Vec2(Left(free), Bottom(free)), Vectors.Vec2(Width(free), Bottom(ur) - Bottom(free)));
    assert Split(free, r) == NonZero(left) + NonZero(right) + NonZero(top) + NonZero(bottom);
    if pt.x < Left(r) {
      assert left in Split(free, r) && ContainsPoint(left, pt);
    } else if pt.x > Right(r) {
      assert right in Split(free, r) && ContainsPoint(right, pt);
    } else if pt.y > Top(r) {
      assert top in Split(free, r) && ContainsPoint(top, pt);
    } else {
      assert bottom in Split(free, r) && ContainsPoint(bottom, pt);
    }
  }

  /** The rects of a sequence, as a set. */
  function Elements(s: seq<Rect>): (e: set<Rect>)
    ensures forall p :: p in e <==> p in s
  {
    set p | p in s
  }

  /** The free rects once every one of them has been split against the
      packed rect: those the split leaves alone, and the pieces of the
      others. */
  function SplitAll(free: set<Rect>, packed: Rect): set<Rect>
  {
    (set fr | fr in free && Split(fr, packed) == []) + (set fr, p | fr in free && p in Split(fr, packed) :: p)
  }

  /** Splitting one more free rect adds it when its split is empty, and its
      pieces otherwise. */
  lemma SplitAllAdd(done: set<Rect>, fr: Rect, packed: Rect)
    ensures SplitAll(done + {fr}, packed) == SplitAll(done, packed) + (if Split(fr, packed) == [] then {fr} else Elements(Split(fr, packed)))
  {
  }

  /** A free rect whose split is not empty overlaps the packed rect, so it
      is none of the rects already split. */
  lemma NotSplitYet(done: set<Rect>, fr: Rect, packed: Rect)
    requires Split(fr, packed) != []
    requires fr !in done
    ensures fr !in SplitAll(done, packed) && fr !in Elements(Split(fr, packed))
  {
    SplitEmptyIff(fr, packed);
    SplitPieces(fr, packed);
    if fr in SplitAll(done, packed) {
      var y :| y in done && fr in Split(y, packed);
      SplitPieces(y, packed);
    }
  }

  /** One step of the second loop keeps the split rects and the rects still
      to split together. */
  lemma SplitEachStep(done: set<Rect>, todo: set<Rect>, fr: Rect, packed: Rect)
    requires fr in todo && done !! todo
    ensures Split(fr, packed) == [] ==>
      SplitAll(done, packed) + todo == SplitAll(done + {fr}, packed) + (todo - {fr})
    ensures Split(fr, packed) != [] ==>
      SplitAll(done, packed) + todo - {fr} + Elements(Split(fr, packed)) == SplitAll(done + {fr}, packed) + (todo - {fr})
  {
    SplitAllAdd(done, fr, packed);
    if Split(fr, packed) != [] {
      NotSplitYet(done, fr, packed);
      ReplaceOne(SplitAll(done, packed), todo, fr, Elements(Split(fr, packed)));
    }
  }

  /** Set algebra for replacing `fr` by `e` when neither `e` nor `s` holds
      it. */
  lemma ReplaceOne(s: set<Rect>, todo: set<Rect>, fr: Rect, e: set<Rect>)
    requires fr in todo && fr !in s && fr !in e
    ensures s + todo - {fr} + e == (s + e) + (todo - {fr})
  {
  }

  /** The second loop of `tryPack`: each free rect (of a copy, in an
      unspecified order) whose split against the packed rect yields pieces
      is replaced by them. Since no piece overlaps the packed rect and every
      replaced rect does, the outcome does not depend on the order. */
  method SplitEach(free: set<Rect>, packed: Rect) returns (result: set<Rect>)
    ensures result == SplitAll(free, packed)
  {
    result := free;
    var todo := free;
    ghost var done := {};
    while todo != {}
      invariant done !! todo && done + todo == free
      invariant result == SplitAll(done, packed) + todo
      decreases todo
    {
      var fr :| fr in todo;
      var splitted := Split(fr, packed);
      SplitEachStep(done, todo, fr, packed);
      if |splitted| != 0 {
        result := result - {fr} + Elements(splitted);
      }
      todo := todo - {fr};
      done := done + {fr};
    }
    assert done == free;
  }

  /** No two elements of the sequence are equal. */
  predicate Distinct<T(==)>(v: seq<T>)
  {
    forall i, j :: 0 <= i < j < |v| ==> v[i] != v[j]
  }

  /** The copy of a set into a vector: each element once, in an unspecified
      order. */
  method Enumerate<T(==)>(s: set<T>) returns (v: seq<T>)
    ensures forall x :: x in v <==> x in s
    ensures Distinct(v)
  {
    v := [];
    var todo := s;
    while todo != {}
      invariant todo <= s
      invariant forall x :: x in v <==> x in s - todo
      invariant Distinct(v)
      decreases todo
    {
      var x :| x in todo;
      forall i | 0 <= i < |v|
        ensures v[i] != x
      {
        assert v[i] in v;
      }
      v := v + [x];
      todo := todo - {x};
    }
  }

  /** The pairs `allPairs` makes with the element at `i` first: the element
      paired with each later one, in order. */
  function Row<T>(v: seq<T>, i: nat): (row: seq<(T, T)>)
    requires i < |v|
    ensures |row| == |v| - i - 1
    ensures forall k :: 0 <= k < |row| ==> row[k] == (v[i], v[i + 1 + k])
  {
    seq(|v| - i - 1, k requires 0 <= k < |v| - i - 1 => (v[i], v[i + 1 + k]))
  }

  /** The rows of `allPairs` from `i` on. */
  function PairsFrom<T>(v: seq<T>, i: nat): seq<(T, T)>
    decreases |v| - i
  {
    if i >= |v| then [] else Row(v, i) + PairsFrom(v, i + 1)
  }

  /** Every pair of elements at positions `a < b` from `i` on is listed by
      `allPairs`. */
  lemma {:induction false} PairsComplete<T>(v: seq<T>, i: nat, a: nat, b: nat)
    requires i <= a < b < |v|
    ensures (v[a], v[b]) in PairsFrom(v, i)
    decreases |v| - i
  {
    assert PairsFrom(v, i) == Row(v, i) + PairsFrom(v, i + 1);
    if a == i {
      assert Row(v, i)[b - i - 1] == (v[a], v[b]);
    } else {
      PairsComplete(v, i + 1, a, b);
    }
  }

  /** Every pair `allPairs` lists from `i` on is of elements at positions
      `a < b`. */
  lemma {:induction false} PairsSound<T>(v: seq<T>, i: nat, k: nat)
    requires k < |PairsFrom(v, i)|
    ensures exists a, b :: i <= a < b < |v| && PairsFrom(v, i)[k] == (v[a], v[b])
    decreases |v| - i
  {
    assert PairsFrom(v, i) == Row(v, i) + PairsFrom(v, i + 1);
    if k < |Row(v, i)| {
      assert i < i + 1 + k < |v| && PairsFrom(v, i)[k] == (v[i], v[i + 1 + k]);
    } else {
      PairsSound(v, i + 1, k - |Row(v, i)|);
    }
  }

  /** `allPairs` lists n(n-1)/2 pairs for n elements. */
  lemma {:induction false} PairsCount<T>(v: seq<T>, i: nat)
    requires i <= |v|
    ensures 2 * |PairsFrom(v, i)| == (|v| - i) * (|v| - i - 1)
    decreases |v| - i
  {
    if i < |v| {
      var n := |v| - i;
      PairsCount(v, i + 1);
      assert |PairsFrom(v, i)| == (n - 1) + |PairsFrom(v, i + 1)|;
      assert 2 * (n - 1) + (n - 1) * (n - 2) == n * (n - 1);
    }
  }

  /** `allPairs(v)`: every pair of elements at positions `i < j`, row by
      row. */
  method AllPairs<T>(v: seq<T>) returns (result: seq<(T, T)>)
    ensures result == PairsFrom(v, 0)
  {
    result := [];
    var i := 0;
    while i < |v|
      invariant 0 <= i <= |v|
      invariant result + PairsFrom(v, i) == PairsFrom(v, 0)
    {
      ghost var start := result;
      var j := i + 1;
      while j < |v|
        invariant i + 1 <= j <= |v|
        invariant result == start + Row(v, i)[..j - i - 1]
      {
        RowStep(v, i, j);
        result := result + [(v[i], v[j])];
        j := j + 1;
      }
      RowDone(v, i);
      assert result + PairsFrom(v, i + 1) == start + (Row(v, i) + PairsFrom(v, i + 1));
      i := i + 1;
    }
  }

  /** One more pair of row `i`. */
  lemma RowStep<T>(v: seq<T>, i: nat, j: nat)
    requires i < j < |v|
    ensures Row(v, i)[..j - i] == Row(v, i)[..j - i - 1] + [(v[i], v[j])]
  {
  }

  /** A whole row, and the rows from `i` on as row `i` and the rest. */
  lemma RowDone<T>(v: seq<T>, i: nat)
    requires i < |v|
    ensures Row(v, i)[..|v| - i - 1] == Row(v, i)
    ensures PairsFrom(v, i) == Row(v, i) + PairsFrom(v, i + 1)
  {
  }

  /** Two rects that contain each other are equal. */
  lemma ContainsAntisymmetric(a: Rect, b: Rect)
    requires ContainsRect(a, b) && ContainsRect(b, a)
    ensures a == b
  {
    assert a.center == b.center && a.size == b.size;
  }

  /** `b` lies inside another free rect. */
  predicate Dominated(free: set<Rect>, b: Rect)
  {
    exists a :: a in free && a != b && ContainsRect(a, b)
  }

  /** The free rects no other free rect contains. No two of them contain one
      another. */
  function Prune(free: set<Rect>): (s: set<Rect>)
    ensures s <= free
    ensures forall a, b :: a in s && b in s && a != b ==> !ContainsRect(a, b)
  {
    set b | b in free && !Dominated(free, b)
  }

  /** The rect a pair of the third loop of `tryPack` erases: the second when
      the first contains it, else the first when the second contains it. */
  function Loser(p: (Rect, Rect)): (s: set<Rect>)
    ensures s <= {p.0, p.1}
    ensures p.0 != p.1 ==> (s == {} <==> !ContainsRect(p.0, p.1) && !ContainsRect(p.1, p.0))
  {
    if ContainsRect(p.0, p.1) then {p.1} else if ContainsRect(p.1, p.0) then {p.0} else {}
  }

  /** The rects the pairs erase. */
  function Losers(ps: seq<(Rect, Rect)>): set<Rect>
  {
    if ps == [] then {} else Losers(ps[..|ps| - 1]) + Loser(ps[|ps| - 1])
  }

  lemma {:induction false} LosersMembers(ps: seq<(Rect, Rect)>)
    ensures forall x :: x in Losers(ps) <==> exists i :: 0 <= i < |ps| && x in Loser(ps[i])
  {
    if ps != [] {
      var front := ps[..|ps| - 1];
      LosersMembers(front);
      forall x | x in Losers(ps)
        ensures exists i :: 0 <= i < |ps| && x in Loser(ps[i])
      {
        if x in Losers(front) {
          var i :| 0 <= i < |front| && x in Loser(front[i]);
          assert ps[i] == front[i];
        }
      }
      forall x | exists i :: 0 <= i < |ps| && x in Loser(ps[i])
        ensures x in Losers(ps)
      {
        var i :| 0 <= i < |ps| && x in Loser(ps[i]);
        if i < |ps| - 1 {
          assert front[i] == ps[i];
        }
      }
    }
  }

  /** A rect some pair erases lies inside the other rect of that pair. */
  lemma LoserDominated(free: set<Rect>, v: seq<Rect>, b: Rect)
    requires (forall x :: x in v <==> x in free) && Distinct(v)
    requires b in Losers(PairsFrom(v, 0))
    ensures Dominated(free, b)
  {
    var ps := PairsFrom(v, 0);
    LosersMembers(ps);
    var i :| 0 <= i < |ps| && b in Loser(ps[i]);
    PairsSound(v, 0, i);
    var a, c :| 0 <= a < c < |v| && ps[i] == (v[a], v[c]);
    if ContainsRect(v[a], v[c]) {
      assert v[a] in free && v[a] != b && ContainsRect(v[a], b);
    } else {
      assert v[c] in free && v[c] != b && ContainsRect(v[c], b);
    }
  }

  /** A free rect inside another is erased by the pair of the two. */
  lemma DominatedLoser(free: set<Rect>, v: seq<Rect>, b: Rect)
    requires (forall x :: x in v <==> x in free) && Distinct(v)
    requires b in free && Dominated(free, b)
    ensures b in Losers(PairsFrom(v, 0))
  {
    var ps := PairsFrom(v, 0);
    LosersMembers(ps);
    var a :| a in free && a != b && ContainsRect(a, b);
    var ia :| 0 <= ia < |v| && v[ia] == a;
    var ib :| 0 <= ib < |v| && v[ib] == b;
    if ia < ib {
      PairsComplete(v, 0, ia, ib);
      var i :| 0 <= i < |ps| && ps[i] == (a, b);
      assert b in Loser(ps[i]);
    } else {
      PairsComplete(v, 0, ib, ia);
      var i :| 0 <= i < |ps| && ps[i] == (b, a);
      if ContainsRect(b, a) {
        ContainsAntisymmetric(a, b);
      }
      assert b in Loser(ps[i]);
    }
  }

  /** The pairs of a copy of the free set erase exactly the free rects
      another free rect contains. */
  lemma PairsPrune(free: set<Rect>, v: seq<Rect>)
    requires (forall x :: x in v <==> x in free) && Distinct(v)
    ensures free - Losers(PairsFrom(v, 0)) == Prune(free)
  {
    forall b | b in free
      ensures b in Losers(PairsFrom(v, 0)) <==> Dominated(free, b)
    {
      if b in Losers(PairsFrom(v, 0)) {
        LoserDominated(free, v, b);
      }
      if Dominated(free, b) {
        DominatedLoser(free, v, b);
      }
    }
  }

  /** The third loop of `tryPack`: over every pair of a copy of the free
      set, the rect the other contains is erased. The result is the free
      rects no other free rect contains. */
  method RemoveContained(free: set<Rect>) returns (result: set<Rect>)
    ensures result == Prune(free)
  {
    var frCopy := Enumerate(free);
    var pairs := AllPairs(frCopy);
    result := free;
    var k := 0;
    while k < |pairs|
      invariant 0 <= k <= |pairs|
      invariant result == free - Losers(pairs[..k])
    {
      var p := pairs[k];
      assert pairs[..k + 1][..k] == pairs[..k];
      if ContainsRect(p.0, p.1) {
        result := result - {p.1};
      } else if ContainsRect(p.1, p.0) {
        result := result - {p.0};
      }
      k := k + 1;
    }
    assert pairs[..|pairs|] == pairs;
    PairsPrune(free, frCopy);
  }

  /** The free rects after packing into `f`: `f` is replaced by its pieces,
      every free rect is split against the packed rect, and the contained
      ones are dropped. */
  function Rearranged(free: set<Rect>, f: Rect, placed: Rect): set<Rect>
  {
    Prune(SplitAll(free - {f} + Elements(Split(f, placed)), placed))
  }

  /** The free-set update of `tryPack` once the packed rect is placed in
      `f`: `f` is erased and its pieces inserted, every free rect is split
      against the packed rect, and the contained ones are erased. */
  method Rearrange(free: set<Rect>, f: Rect, placed: Rect) returns (result: set<Rect>)
    ensures result == Rearranged(free, f, placed)
  {
    var splitted := Split(f, placed);
    var cut := free - {f} + Elements(splitted);
    cut := SplitEach(cut, placed);
    result := RemoveContained(cut);
  }

  /** No free rect contains another. */
  ghost predicate Antichain(free: set<Rect>)
  {
    forall a, b :: a in free && b in free && a != b ==> !ContainsRect(a, b)
  }

  /** The MaxRects invariant: every free rect has a positive width and
      height, none lies inside another, and the rects keep the packing
      invariant in the bin. */
  ghost predicate Maximal(bin: Rect, free: set<Rect>, packed: seq<Rect>)
  {
    (forall y :: y in free ==> Guillotines.Proper(y)) &&
    Antichain(free) && Guillotines.Packing(bin, free, packed)
  }

  /** Splitting free rects that keep the packing invariant, and that overlap
      the packed rect only when their split is not empty, yields free rects
      that keep it and overlap the packed rect no longer. */
  lemma SplitAllKeeps(bin: Rect, free: set<Rect>, packed: seq<Rect>, placed: Rect)
    requires forall y :: y in free ==> Guillotines.Proper(y) && ContainsRect(bin, y)
    requires forall y, i :: y in free && 0 <= i < |packed| ==> !StrictlyIntersects(y, packed[i])
    requires forall y :: y in free && Split(y, placed) == [] ==> !StrictlyIntersects(y, placed)
    ensures forall x :: x in SplitAll(free, placed) ==> Guillotines.Proper(x) && ContainsRect(bin, x) && !StrictlyIntersects(x, placed)
    ensures forall x, i :: x in SplitAll(free, placed) && 0 <= i < |packed| ==> !StrictlyIntersects(x, packed[i])
  {
    forall x | x in SplitAll(free, placed)
      ensures Guillotines.Proper(x) && ContainsRect(bin, x) && !StrictlyIntersects(x, placed)
      ensures forall i :: 0 <= i < |packed| ==> !StrictlyIntersects(x, packed[i])
    {
      if !(x in free && Split(x, placed) == []) {
        var y :| y in free && x in Split(y, placed);
        SplitPieces(y, placed);
        forall i | 0 <= i < |packed|
          ensures !StrictlyIntersects(x, packed[i])
        {
          Guillotines.InsideStaysApart(y, x, packed[i]);
        }
      }
    }
  }

  /** Packing `r` into the chosen free rect `f` keeps every free rect proper,
      no free rect inside another, and the packing invariant. */
  lemma PlaceKeepsValid(bin: Rect, free: set<Rect>, packed: seq<Rect>, f: Rect, r: Vectors.Vec2)
    requires Maximal(bin, free, packed)
    requires f in free && Guillotines.Fits(f, r)
    ensures Maximal(bin, Rearranged(free, f, Guillotines.NewRect(BottomLeft(f), r)), packed + [Guillotines.NewRect(BottomLeft(f), r)])
  {
    var placed := Guillotines.NewRect(BottomLeft(f), r);
    var cut := free - {f} + Elements(Split(f, placed));
    var split := SplitAll(cut, placed);
    var packed' := packed + [placed];
    CutKeeps(bin, free, packed, f, r);
    SplitAllKeeps(bin, cut, packed, placed);
    forall i | 0 <= i < |packed|
      ensures !StrictlyIntersects(packed[i], placed)
    {
      Guillotines.InsideStaysApart(f, placed, packed[i]);
      StrictlyIntersectsIffNonDegenerate(placed, packed[i]);
    }
    Guillotines.AppendApart(packed, placed);
    forall y, i | y in split && 0 <= i < |packed'|
      ensures !StrictlyIntersects(y, packed'[i])
    {
      if i < |packed| {
        assert packed'[i] == packed[i];
      }
    }
    assert ContainsRect(bin, placed);
    PruneKeeps(bin, split, packed');
  }

  /** Pruning free rects that keep the packing invariant with proper pieces
      leaves the MaxRects invariant. */
  lemma PruneKeeps(bin: Rect, free: set<Rect>, packed: seq<Rect>)
    requires forall y :: y in free ==> Guillotines.Proper(y) && ContainsRect(bin, y)
    requires forall y, i :: y in free && 0 <= i < |packed| ==> !StrictlyIntersects(y, packed[i])
    requires forall i :: 0 <= i < |packed| ==> ContainsRect(bin, packed[i])
    requires forall i, j :: 0 <= i < j < |packed| ==> !StrictlyIntersects(packed[i], packed[j])
    ensures Maximal(bin, Prune(free), packed)
  {
  }

  /** The free rects once `f` is replaced by its pieces keep the packing
      invariant, and those that overlap the placed rect split into pieces. */
  lemma CutKeeps(bin: Rect, free: set<Rect>, packed: seq<Rect>, f: Rect, r: Vectors.Vec2)
    requires Maximal(bin, free, packed)
    requires f in free && Guillotines.Fits(f, r)
    ensures var placed := Guillotines.NewRect(BottomLeft(f), r);
      var cut := free - {f} + Elements(Split(f, placed));
      (forall y :: y in cut ==> Guillotines.Proper(y) && ContainsRect(bin, y)) &&
      (forall y, i :: y in cut && 0 <= i < |packed| ==> !StrictlyIntersects(y, packed[i])) &&
      (forall y :: y in cut && Split(y, placed) == [] ==> !StrictlyIntersects(y, placed))
  {
    var placed := Guillotines.NewRect(BottomLeft(f), r);
    var pieces := Elements(Split(f, placed));
    var cut := free - {f} + pieces;
    SplitPieces(f, placed);
    forall y | y in cut && Split(y, placed) == []
      ensures !StrictlyIntersects(y, placed)
    {
      SplitEmptyIff(y, placed);
      if y !in pieces && ContainsRect(placed, y) {
        assert ContainsRect(f, y);
      }
    }
    forall y, i | y in cut && 0 <= i < |packed|
      ensures !StrictlyIntersects(y, packed[i])
    {
      if y in pieces {
        Guillotines.InsideStaysApart(f, y, packed[i]);
      }
    }
  }

  /** `f` is a free rect the search may end on for size `r`: it fits, and no
      fitting free rect is preferred to it. */
  ghost predicate Chosen(free: set<Rect>, policy: FitPolicy, r: Vectors.Vec2, f: Rect)
  {
    f in free && Guillotines.Fits(f, r) && Guillotines.Proper(f) &&
    forall g :: g in free && Guillotines.Fits(g, r) && Guillotines.Proper(g) ==> !Beats(policy, g, f, r)
  }

  /** The free and packed rects after `tryPack` of size `r`, once the area
      check has passed: the rect placed at the bottom-left corner of the
      chosen free rect and the free rects rearranged around it, or nothing
      changed when no free rect fits. */
  method Place(ghost bin: Rect, free: set<Rect>, packed: seq<Rect>, policy: FitPolicy, r: Vectors.Vec2)
    returns (res: Option<Rect>, free': set<Rect>, packed': seq<Rect>)
    requires Maximal(bin, free, packed) && r.x >= 0.0 && r.y >= 0.0
    ensures Maximal(bin, free', packed')
    ensures res.None? <==> forall f :: f in free ==> !Guillotines.Fits(f, r)
    ensures res.None? ==> free' == free && packed' == packed
    ensures res.Some? ==> packed' == packed + [res.value]
    ensures res.Some? ==>
      exists f :: Chosen(free, policy, r, f) && res.value == Guillotines.NewRect(BottomLeft(f), r) && free' == Rearranged(free, f, res.value)
  {
    var chosen := ChooseFree(free, policy, r);
    if chosen.None? {
      return None, free, packed;
    }
    var f := chosen.value;
    var placed := Guillotines.NewRect(BottomLeft(f), r);
    PlaceKeepsValid(bin, free, packed, f, r);
    assert Chosen(free, policy, r, f);
    packed' := packed + [placed];
    free' := Rearrange(free, f, placed);
    res := Some(placed);
  }

  /** `MaxRects::Context`: bin area, packed area (which `tryPack` never
      updates), fit policy, free rects and packed rects. */
  class Context {
    var totalArea: real
    var packedArea: real
    var fp: FitPolicy
    var freeRectangles: set<Rect>
    var packedRectangles: seq<Rect>
    /** The bin: the free rect the context started with. */
    ghost var bin: Rect

    /** `Context()`: a context as declared, before `initializeContext`. */
    constructor ()
    {
    }

    /** The free and packed rects keep the MaxRects invariant in the bin. */
    ghost predicate Valid()
      reads this
    {
      Maximal(bin, freeRectangles, packedRectangles)
    }

    /** `initializeContext(c, size, policy)`: the whole bin is free and
        nothing is packed. */
    method Initialize(size: Vectors.Vec2, policy: FitPolicy)
      requires size.x > 0.0 && size.y > 0.0
      modifies this
      ensures Valid() && totalArea == Vectors.Area(size) && packedArea == 0.0 && fp == policy
      ensures freeRectangles == {Guillotines.NewRect(Vectors.Zero, size)} && packedRectangles == []
      ensures bin == Guillotines.NewRect(Vectors.Zero, size)
    {
      bin := Guillotines.NewRect(Vectors.Zero, size);
      totalArea := Vectors.Area(size);
      packedArea := 0.0;
      fp := policy;
      freeRectangles := {Guillotines.NewRect(Vectors.Zero, size)};
      packedRectangles := [];
    }

    /** `tryPack(r, c)`: none when the area check fails or no free rect
        fits, leaving the context as it was; otherwise the rect placed at the
        bottom-left corner of the chosen free rect, appended to the packed
        rects, with the free rects rearranged around it. */
    method TryPack(r: Vectors.Vec2) returns (res: Option<Rect>)
      requires Valid() && r.x >= 0.0 && r.y >= 0.0
      modifies this
      ensures Valid() && totalArea == old(totalArea) && packedArea == old(packedArea) && fp == old(fp) && bin == old(bin)
      ensures old(packedArea) + Vectors.Area(r) > totalArea ==> res.None?
      ensures res.None? ==> freeRectangles == old(freeRectangles) && packedRectangles == old(packedRectangles)
      ensures res.None? && old(packedArea) + Vectors.Area(r) <= totalArea ==> forall f :: f in old(freeRectangles) ==> !Guillotines.Fits(f, r)
      ensures res.Some? ==> packedRectangles == old(packedRectangles) + [res.value]
      ensures res.Some? ==>
        exists f :: Chosen(old(freeRectangles), fp, r, f) && res.value == Guillotines.NewRect(BottomLeft(f), r) && freeRectangles == Rearranged(old(freeRectangles), f, res.value)
    {
      res := None;
      if packedArea + Vectors.Area(r) <= totalArea {
        var free, packed;
        res, free, packed := Place(bin, freeRectangles, packedRectangles, fp, r);
        freeRectangles, packedRectangles := free, packed;
      }
    }
  }
}
