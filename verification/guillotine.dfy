/**
 * The guillotine bin packer of the texture packer: a set of free rects,
 * initially the whole bin; a rect is placed at the bottom-left corner of
 * the free rect that fits it best, and the rest of that free rect is cut
 * in two along a line chosen by the split policy.
 */
module Guillotines {
  import Vectors
  import opened Rects
  import opened Options

  datatype FitPolicy = BAF | BSSF | BLSF
  datatype SplitPolicy = SAS | LAS | SLAS | LLAS | MAXAS | MINAS
  datatype Split = Horizontal | Vertical

  /** `newRect(bottomLeft, size)`: the rect with that bottom-left corner and
      that size. */
  function NewRect(bottomLeft: Vectors.Vec2, size: Vectors.Vec2): (r: Rect)
    ensures r.size == size && BottomLeft(r) == bottomLeft
  {
    Rect(Vectors.Add(bottomLeft, Vectors.Scale(0.5, size)), size)
  }

  /** Whether a rect of size `r` placed at the bottom-left corner of `free`
      lies inside it. */
  predicate Fits(free: Rect, r: Vectors.Vec2)
  {
    ContainsRect(free, NewRect(BottomLeft(free), r))
  }

  /** A size fits a free rect exactly when it is no wider and no taller. */
  lemma FitsIffSmaller(free: Rect, r: Vectors.Vec2)
    ensures Fits(free, r) <==> r.x <= Width(free) && r.y <= Height(free)
  {
  }

  /** A free rect the packer may divide by: its area is not zero. */
  predicate Proper(f: Rect)
  {
    f.size.x > 0.0 && f.size.y > 0.0
  }

  /** `isBestFit(policy, free, previous, r)`: whether `free` fits `r`
      strictly better than `previous` (a greater share of its area used, a
      smaller shorter leftover side, or a smaller longer leftover side). */
  predicate IsBestFit(policy: FitPolicy, free: Rect, previous: Rect, r: Vectors.Vec2)
    requires Proper(free) && Proper(previous)
  {
    match policy
    case BAF => Vectors.Area(r) / Area(free) > Vectors.Area(r) / Area(previous)
    case BSSF => Min(Width(free) - r.x, Height(free) - r.y) < Min(Width(previous) - r.x, Height(previous) - r.y)
    case BLSF => Max(Width(free) - r.x, Height(free) - r.y) < Max(Width(previous) - r.x, Height(previous) - r.y)
  }

  /** Fitting better is a strict order: never better than itself, and
      transitive, so the scan ends on a free rect nothing beats. */
  lemma BestFitOrder(policy: FitPolicy, a: Rect, b: Rect, c: Rect, r: Vectors.Vec2)
    requires Proper(a) && Proper(b) && Proper(c)
    ensures !IsBestFit(policy, a, a, r)
    ensures IsBestFit(policy, a, b, r) && IsBestFit(policy, b, c, r) ==> IsBestFit(policy, a, c, r)
  {
  }

  /** A 32-bit float quotient of non-negative numbers: finite, +infinity
      (positive over zero) or NaN (zero over zero). */
  datatype Ratio = Finite(value: real) | Infinite | NotANumber

  function Quotient(n: real, d: real): (q: Ratio)
    requires n >= 0.0 && d >= 0.0
    ensures d > 0.0 <==> q.Finite?
    ensures q.Finite? ==> q.value >= 0.0 && q.value * d == n
  {
    if d > 0.0 then Finite(n / d) else if n > 0.0 then Infinite else NotANumber
  }

  /** The MAXAS normalisation of a ratio: a ratio above one is inverted
      (infinity becomes zero), then its distance to one is taken. */
  function TowardsOne(q: Ratio): (d: Ratio)
    requires q.Finite? ==> q.value >= 0.0
    ensures d.Finite? <==> !q.NotANumber?
    ensures d.Finite? ==> 0.0 <= d.value <= 1.0
  {
    match q
    case Finite(v) => if v > 1.0 then Finite(1.0 - 1.0 / v) else Finite(if v - 1.0 >= 0.0 then v - 1.0 else 1.0 - v)
    case Infinite => Finite(1.0)
    case NotANumber => NotANumber
  }

  /** The MINAS normalisation: a ratio below one is inverted (zero becomes
      infinity). */
  function AwayFromOne(q: Ratio): (d: Ratio)
    requires q.Finite? ==> q.value >= 0.0
    ensures d.Finite? ==> d.value >= 1.0
    ensures d.NotANumber? <==> q.NotANumber?
  {
    match q
    case Finite(v) => if v == 0.0 then Infinite else if v < 1.0 then Finite(1.0 / v) else Finite(v)
    case Infinite => Infinite
    case NotANumber => NotANumber
  }

  /** `a <= b` and `a >= b` on floats: false whenever NaN is involved. */
  predicate AtMost(a: Ratio, b: Ratio)
  {
    match (a, b)
    case (Finite(x), Finite(y)) => x <= y
    case (Finite(_), Infinite) => true
    case (Infinite, Infinite) => true
    case _ => false
  }

  /** `bestSplit(policy, f, r)` for a size that fits `f`: the direction of
      the cut of the leftover of `f`. */
  function BestSplit(policy: SplitPolicy, f: Rect, r: Vectors.Vec2): (s: Split)
    requires 0.0 <= r.x <= Width(f) && 0.0 <= r.y <= Height(f)
    ensures policy == SAS ==> (s == Horizontal <==> Width(f) <= Height(f))
    ensures policy == LAS ==> (s == Horizontal <==> Width(f) >= Height(f))
    ensures policy == SLAS ==> (s == Horizontal <==> Width(f) - r.x <= Height(f) - r.y)
    ensures policy == LLAS ==> (s == Horizontal <==> Width(f) - r.x >= Height(f) - r.y)
  {
    match policy
    case SAS => if Width(f) <= Height(f) then Horizontal else Vertical
    case LAS => if Width(f) >= Height(f) then Horizontal else Vertical
    case SLAS => if Width(f) - r.x <= Height(f) - r.y then Horizontal else Vertical
    case LLAS => if Width(f) - r.x >= Height(f) - r.y then Horizontal else Vertical
    case MAXAS =>
      var h := TowardsOne(HorizontalRatio(f, r));
      var v := TowardsOne(VerticalRatio(f, r));
      if AtMost(h, v) then Horizontal else Vertical
    case MINAS =>
      var h := AwayFromOne(HorizontalRatio(f, r));
      var v := AwayFromOne(VerticalRatio(f, r));
      if AtMost(v, h) then Horizontal else Vertical
  }

  lemma NonNegativeProduct(a: real, b: real)
    requires a >= 0.0 && b >= 0.0
    ensures a * b >= 0.0
  {
  }

  /** The ratio of the two piece areas of a horizontal cut. */
  function HorizontalRatio(f: Rect, r: Vectors.Vec2): (q: Ratio)
    requires 0.0 <= r.x <= Width(f) && 0.0 <= r.y <= Height(f)
    ensures q.Finite? ==> q.value >= 0.0
  {
    NonNegativeProduct(Width(f) - r.x, r.y);
    NonNegativeProduct(Width(f), Height(f) - r.y);
    Quotient((Width(f) - r.x) * r.y, Width(f) * (Height(f) - r.y))
  }

  /** The ratio of the two piece areas of a vertical cut. */
  function VerticalRatio(f: Rect, r: Vectors.Vec2): (q: Ratio)
    requires 0.0 <= r.x <= Width(f) && 0.0 <= r.y <= Height(f)
    ensures q.Finite? ==> q.value >= 0.0
  {
    NonNegativeProduct(r.x, Height(f) - r.y);
    NonNegativeProduct(Width(f) - r.x, Height(f));
    Quotient(r.x * (Height(f) - r.y), (Width(f) - r.x) * Height(f))
  }

  /** `performSplit(free, r, split)`: the two leftover pieces of `free` once
      `r` sits at its bottom-left corner; a horizontal cut gives the piece
      beside `r` and the full-width piece above it, a vertical cut the piece
      above `r` and the full-height piece beside it. */
  function PerformSplit(free: Rect, r: Vectors.Vec2, split: Split): (Rect, Rect)
  {
    if split == Horizontal then
      (NewRect(Vectors.Vec2(Left(free) + r.x, Bottom(free)), Vectors.Vec2(Width(free) - r.x, r.y)),
       NewRect(Vectors.Vec2(Left(free), Bottom(free) + r.y), Vectors.Vec2(Width(free), Height(free) - r.y)))
    else
      (NewRect(Vectors.Vec2(Left(free), Bottom(free) + r.y), Vectors.Vec2(r.x, Height(free) - r.y)),
       NewRect(Vectors.Vec2(Left(free) + r.x, Bottom(free)), Vectors.Vec2(Width(free) - r.x, Height(free))))
  }

  /** The two pieces have non-negative sizes and lie inside the free rect. */
  lemma SplitInside(free: Rect, r: Vectors.Vec2, split: Split)
    requires WellFormed(free) && 0.0 <= r.x <= Width(free) && 0.0 <= r.y <= Height(free)
    ensures WellFormed(PerformSplit(free, r, split).0) && WellFormed(PerformSplit(free, r, split).1)
    ensures ContainsRect(free, PerformSplit(free, r, split).0) && ContainsRect(free, PerformSplit(free, r, split).1)
  {
  }

  /** The two pieces and the placed rect tile the free rect: none of the
      three overlaps another ... */
  lemma SplitTiles(free: Rect, r: Vectors.Vec2, split: Split)
    requires WellFormed(free) && 0.0 <= r.x <= Width(free) && 0.0 <= r.y <= Height(free)
    ensures var (r1, r2) := PerformSplit(free, r, split);
      var placed := NewRect(BottomLeft(free), r);
      ContainsRect(free, placed) &&
      !StrictlyIntersects(r1, placed) && !StrictlyIntersects(r2, placed) && !StrictlyIntersects(r1, r2)
  {
  }

  /** ... and their areas add up to the free rect's. */
  lemma SplitAreas(free: Rect, r: Vectors.Vec2, split: Split)
    requires WellFormed(free) && 0.0 <= r.x <= Width(free) && 0.0 <= r.y <= Height(free)
    ensures var (r1, r2) := PerformSplit(free, r, split);
      Area(r1) + Area(r2) + Area(NewRect(BottomLeft(free), r)) == Area(free)
  {
    var (r1, r2) := PerformSplit(free, r, split);
    var w, h := Width(free), Height(free);
    if split == Horizontal {
      assert Area(r1) + Area(r2) + Area(NewRect(BottomLeft(free), r)) == (w - r.x) * r.y + w * (h - r.y) + r.x * r.y;
    } else {
      assert Area(r1) + Area(r2) + Area(NewRect(BottomLeft(free), r)) == r.x * (h - r.y) + (w - r.x) * h + r.x * r.y;
    }
  }

  /** A rect of non-negative size and non-zero area is proper. */
  lemma ProperIfNonZero(g: Rect)
    requires WellFormed(g) && Area(g) != 0.0
    ensures Proper(g)
  {
  }

  /** The pieces of a split that `tryPack` keeps: those of non-zero area. */
  function Kept(pieces: (Rect, Rect)): (s: set<Rect>)
    ensures forall p :: p in s <==> (p == pieces.0 || p == pieces.1) && Area(p) != 0.0
  {
    (if Area(pieces.0) != 0.0 then {pieces.0} else {}) + (if Area(pieces.1) != 0.0 then {pieces.1} else {})
  }

  /** The search loop of `tryPack`: the free rects are visited in an
      unspecified order, and a fitting one replaces the one held when there
      is none yet or when it fits better. The result is none exactly when
      nothing fits; otherwise it fits and no free rect fits better. */
  method ChooseFree(free: set<Rect>, policy: FitPolicy, r: Vectors.Vec2) returns (chosen: Option<Rect>)
    requires forall f :: f in free ==> Proper(f)
    ensures chosen.None? <==> forall f :: f in free ==> !Fits(f, r)
    ensures chosen.Some? ==> chosen.value in free && Fits(chosen.value, r)
    ensures chosen.Some? ==> forall g :: g in free && Fits(g, r) ==> !IsBestFit(policy, g, chosen.value, r)
  {
    chosen := None;
    var todo := free;
    while todo != {}
      invariant todo <= free
      invariant chosen.None? <==> forall f :: f in free - todo ==> !Fits(f, r)
      invariant chosen.Some? ==> chosen.value in free - todo && Fits(chosen.value, r)
      invariant chosen.Some? ==> forall g :: g in free - todo && Fits(g, r) ==> !IsBestFit(policy, g, chosen.value, r)
      decreases todo
    {
      var f :| f in todo;
      if Fits(f, r) {
        if chosen.Some? && IsBestFit(policy, f, chosen.value, r) {
          forall g | g in free - todo && Fits(g, r)
            ensures !IsBestFit(policy, g, f, r)
          {
            BestFitOrder(policy, g, f, chosen.value, r);
          }
          BestFitOrder(policy, f, f, f, r);
          chosen := Some(f);
        } else if chosen.None? {
          BestFitOrder(policy, f, f, f, r);
          chosen := Some(f);
        }
      }
      todo := todo - {f};
    }
  }

  /** The no-fit test after the search as written, `previousF == nullptr`,
      which the `Option` comparison with `nullptr` makes false even for an
      empty option. */
  predicate NoFitAsWritten(chosen: Option<Rect>)
  {
    EqualNullAsWritten(chosen)
  }

  /** The search finds nothing exactly when no free rect fits (see
      `ChooseFree`), and the written test does not report that empty result,
      so the code goes on to read the value of an empty option. */
  lemma NoFitMissedAsWritten()
    ensures !NoFitAsWritten(None)
  {
    EmptyIsNotNullAsWritten<Rect>(None);
  }

  /** `free` with the chosen rect `f` cut: `f` is gone and the kept pieces
      of its split are in. */
  function Cut(free: set<Rect>, f: Rect, r: Vectors.Vec2, split: SplitPolicy): set<Rect>
    requires 0.0 <= r.x <= Width(f) && 0.0 <= r.y <= Height(f)
  {
    free - {f} + Kept(PerformSplit(f, r, BestSplit(split, f, r)))
  }

  /** Cutting a proper free rect for a size that fits keeps every free rect
      proper. */
  lemma CutKeepsProper(free: set<Rect>, f: Rect, r: Vectors.Vec2, split: SplitPolicy)
    requires (forall g :: g in free ==> Proper(g)) && f in free
    requires 0.0 <= r.x <= Width(f) && 0.0 <= r.y <= Height(f)
    ensures forall g :: g in Cut(free, f, r, split) ==> Proper(g)
  {
    var pieces := PerformSplit(f, r, BestSplit(split, f, r));
    SplitInside(f, r, BestSplit(split, f, r));
    forall g | g in Kept(pieces)
      ensures Proper(g)
    {
      ProperIfNonZero(g);
    }
  }

  /** A rect inside one that does not overlap `q` does not overlap `q`
      either. */
  lemma InsideStaysApart(outer: Rect, inner: Rect, q: Rect)
    requires ContainsRect(outer, inner) && !StrictlyIntersects(outer, q)
    ensures !StrictlyIntersects(inner, q)
  {
  }

  /** The packing invariant of every packer: free and packed rects lie in
      the bin, packed rects do not overlap each other, and no free rect
      overlaps a packed one. */
  ghost predicate Packing(bin: Rect, free: set<Rect>, packed: seq<Rect>)
  {
    (forall f :: f in free ==> ContainsRect(bin, f)) &&
    (forall i :: 0 <= i < |packed| ==> ContainsRect(bin, packed[i])) &&
    (forall i, j :: 0 <= i < j < |packed| ==> !StrictlyIntersects(packed[i], packed[j])) &&
    (forall f, i :: f in free && 0 <= i < |packed| ==> !StrictlyIntersects(f, packed[i]))
  }

  /** The guillotine packing invariant: the packing invariant, and no two
      free rects overlap. */
  ghost predicate Apart(bin: Rect, free: set<Rect>, packed: seq<Rect>)
  {
    Packing(bin, free, packed) &&
    forall f, g :: f in free && g in free && f != g ==> !StrictlyIntersects(f, g)
  }

  /** A free rect other than `f` overlaps neither the rect placed in `f`
      nor the pieces `f` is cut into. */
  lemma OthersApart(g: Rect, f: Rect, r: Vectors.Vec2, s: Split)
    requires WellFormed(f) && 0.0 <= r.x <= Width(f) && 0.0 <= r.y <= Height(f)
    requires !StrictlyIntersects(g, f)
    ensures !StrictlyIntersects(g, NewRect(BottomLeft(f), r)) && !StrictlyIntersects(NewRect(BottomLeft(f), r), g)
    ensures forall p :: p in Kept(PerformSplit(f, r, s)) ==> !StrictlyIntersects(g, p) && !StrictlyIntersects(p, g)
  {
    SplitInside(f, r, s);
    var placed := NewRect(BottomLeft(f), r);
    StrictlyIntersectsIffNonDegenerate(g, f);
    InsideStaysApart(f, placed, g);
    StrictlyIntersectsIffNonDegenerate(placed, g);
    forall p | p in Kept(PerformSplit(f, r, s))
      ensures !StrictlyIntersects(g, p) && !StrictlyIntersects(p, g)
    {
      InsideStaysApart(f, p, g);
      StrictlyIntersectsIffNonDegenerate(p, g);
    }
  }

  /** The rect placed in `f` and the pieces of `f` overlap no packed rect
      that `f` does not overlap. */
  lemma PlacedApart(f: Rect, r: Vectors.Vec2, s: Split, packed: seq<Rect>)
    requires WellFormed(f) && 0.0 <= r.x <= Width(f) && 0.0 <= r.y <= Height(f)
    requires forall i :: 0 <= i < |packed| ==> !StrictlyIntersects(f, packed[i])
    ensures forall i :: 0 <= i < |packed| ==> !StrictlyIntersects(NewRect(BottomLeft(f), r), packed[i]) && !StrictlyIntersects(packed[i], NewRect(BottomLeft(f), r))
    ensures forall p, i :: p in Kept(PerformSplit(f, r, s)) && 0 <= i < |packed| ==> !StrictlyIntersects(p, packed[i])
  {
    SplitInside(f, r, s);
    var placed := NewRect(BottomLeft(f), r);
    forall i | 0 <= i < |packed|
      ensures !StrictlyIntersects(placed, packed[i]) && !StrictlyIntersects(packed[i], placed)
    {
      InsideStaysApart(f, placed, packed[i]);
      StrictlyIntersectsIffNonDegenerate(placed, packed[i]);
    }
    forall p, i | p in Kept(PerformSplit(f, r, s)) && 0 <= i < |packed|
      ensures !StrictlyIntersects(p, packed[i])
    {
      InsideStaysApart(f, p, packed[i]);
    }
  }

  /** Appending a rect that overlaps no packed rect keeps the packed rects
      pairwise apart. */
  lemma AppendApart(packed: seq<Rect>, placed: Rect)
    requires forall i, j :: 0 <= i < j < |packed| ==> !StrictlyIntersects(packed[i], packed[j])
    requires forall i :: 0 <= i < |packed| ==> !StrictlyIntersects(packed[i], placed)
    ensures forall i, j :: 0 <= i < j < |packed + [placed]| ==> !StrictlyIntersects((packed + [placed])[i], (packed + [placed])[j])
  {
  }

  /** Replacing a free rect by pieces inside it that do not overlap each
      other keeps the free rects inside the bin and apart. */
  lemma ReplaceKeepsFreeApart(bin: Rect, free: set<Rect>, f: Rect, pieces: set<Rect>)
    requires forall g :: g in free ==> ContainsRect(bin, g)
    requires forall g, h :: g in free && h in free && g != h ==> !StrictlyIntersects(g, h)
    requires f in free && forall p :: p in pieces ==> ContainsRect(f, p)
    requires forall p, q :: p in pieces && q in pieces && p != q ==> !StrictlyIntersects(p, q)
    ensures forall g :: g in free - {f} + pieces ==> ContainsRect(bin, g)
    ensures forall g, h :: g in free - {f} + pieces && h in free - {f} + pieces && g != h ==> !StrictlyIntersects(g, h)
  {
    forall g, p | g in free - {f} && p in pieces
      ensures !StrictlyIntersects(g, p) && !StrictlyIntersects(p, g)
    {
      StrictlyIntersectsIffNonDegenerate(g, f);
      InsideStaysApart(f, p, g);
      StrictlyIntersectsIffNonDegenerate(p, g);
    }
  }

  /** The kept pieces of a split lie inside the free rect and do not overlap
      each other. */
  lemma PiecesApart(f: Rect, r: Vectors.Vec2, s: Split)
    requires WellFormed(f) && 0.0 <= r.x <= Width(f) && 0.0 <= r.y <= Height(f)
    ensures forall p :: p in Kept(PerformSplit(f, r, s)) ==> ContainsRect(f, p)
    ensures forall p, q :: p in Kept(PerformSplit(f, r, s)) && q in Kept(PerformSplit(f, r, s)) && p != q ==> !StrictlyIntersects(p, q)
  {
    SplitInside(f, r, s);
    SplitTiles(f, r, s);
    StrictlyIntersectsIffNonDegenerate(PerformSplit(f, r, s).0, PerformSplit(f, r, s).1);
  }

  /** Cutting a free rect keeps the free rects inside the bin and apart. */
  lemma CutKeepsFreeApart(bin: Rect, free: set<Rect>, f: Rect, r: Vectors.Vec2, split: SplitPolicy)
    requires forall g :: g in free ==> ContainsRect(bin, g)
    requires forall g, h :: g in free && h in free && g != h ==> !StrictlyIntersects(g, h)
    requires f in free && WellFormed(f) && 0.0 <= r.x <= Width(f) && 0.0 <= r.y <= Height(f)
    ensures forall g :: g in Cut(free, f, r, split) ==> ContainsRect(bin, g)
    ensures forall g, h :: g in Cut(free, f, r, split) && h in Cut(free, f, r, split) && g != h ==> !StrictlyIntersects(g, h)
  {
    var s := BestSplit(split, f, r);
    PiecesApart(f, r, s);
    ReplaceKeepsFreeApart(bin, free, f, Kept(PerformSplit(f, r, s)));
  }

  /** Cutting a free rect and packing into it keeps the packed rects inside
      the bin and apart from each other and from the free rects. */
  lemma CutKeepsPackedApart(bin: Rect, free: set<Rect>, packed: seq<Rect>, f: Rect, r: Vectors.Vec2, split: SplitPolicy)
    requires Apart(bin, free, packed) && f in free && WellFormed(f)
    requires 0.0 <= r.x <= Width(f) && 0.0 <= r.y <= Height(f)
    ensures var packed' := packed + [NewRect(BottomLeft(f), r)];
      (forall i :: 0 <= i < |packed'| ==> ContainsRect(bin, packed'[i])) &&
      (forall i, j :: 0 <= i < j < |packed'| ==> !StrictlyIntersects(packed'[i], packed'[j])) &&
      (forall g, i :: g in Cut(free, f, r, split) && 0 <= i < |packed'| ==> !StrictlyIntersects(g, packed'[i]))
  {
    var s := BestSplit(split, f, r);
    var placed := NewRect(BottomLeft(f), r);
    SplitInside(f, r, s);
    SplitTiles(f, r, s);
    forall g | g in free - {f}
      ensures !StrictlyIntersects(g, placed)
    {
      OthersApart(g, f, r, s);
    }
    PlacedApart(f, r, s, packed);
    AppendApart(packed, placed);
  }

  /** Placing `r` at the bottom-left corner of a fitting free rect and
      cutting it keeps the packing invariant. */
  lemma CutKeepsApart(bin: Rect, free: set<Rect>, packed: seq<Rect>, f: Rect, r: Vectors.Vec2, split: SplitPolicy)
    requires Apart(bin, free, packed) && f in free && WellFormed(f)
    requires 0.0 <= r.x <= Width(f) && 0.0 <= r.y <= Height(f)
    ensures Apart(bin, Cut(free, f, r, split), packed + [NewRect(BottomLeft(f), r)])
  {
    CutKeepsFreeApart(bin, free, f, r, split);
    CutKeepsPackedApart(bin, free, packed, f, r, split);
  }

  /** `f` is a free rect the search may end on for size `r`: it fits, and no
      free rect fits better. */
  ghost predicate Chosen(free: set<Rect>, policy: FitPolicy, r: Vectors.Vec2, f: Rect)
  {
    f in free && Fits(f, r) && Proper(f) &&
    forall g :: g in free && Fits(g, r) && Proper(g) ==> !IsBestFit(policy, g, f, r)
  }

  /** The guillotine packing state: bin area, packed area, policies, free
      rects and packed rects. */
  class Context {
    var totalArea: real
    var packedArea: real
    var fitPolicy: FitPolicy
    var splitPolicy: SplitPolicy
    var freeRectangles: set<Rect>
    var packedRectangles: seq<Rect>
    /** The bin: the free rect the context started with. */
    ghost var bin: Rect

    /** `Context()`: a context as declared, before `initializeContext`. */
    constructor ()
    {
    }

    /** Every free rect has a positive width and height, and the rects keep
        the packing invariant in the bin. */
    ghost predicate Valid()
      reads this
    {
      (forall f :: f in freeRectangles ==> Proper(f)) && Apart(bin, freeRectangles, packedRectangles)
    }

    /** `initializeContext(ctx, size, fit, split)`: one free rect, the bin
        at the origin; nothing packed. */
    method Initialize(size: Vectors.Vec2, fit: FitPolicy, split: SplitPolicy)
      requires size.x > 0.0 && size.y > 0.0
      modifies this
      ensures Valid() && totalArea == Vectors.Area(size) && packedArea == 0.0
      ensures fitPolicy == fit && splitPolicy == split
      ensures freeRectangles == {NewRect(Vectors.Zero, size)} && packedRectangles == []
      ensures bin == NewRect(Vectors.Zero, size)
    {
      bin := NewRect(Vectors.Zero, size);
      totalArea := Vectors.Area(size);
      packedArea := 0.0;
      fitPolicy := fit;
      splitPolicy := split;
      freeRectangles := {NewRect(Vectors.Zero, size)};
      packedRectangles := [];
    }

    /** `tryPack(r, ctx)`: none when the packed area would exceed the bin or
        no free rect fits; otherwise `r` goes to the bottom-left corner of a
        fitting free rect that no other fits better, that free rect is cut,
        and the packed list and area grow. */
    method TryPack(r: Vectors.Vec2) returns (res: Option<Rect>)
      requires Valid() && r.x >= 0.0 && r.y >= 0.0
      modifies this
      ensures Valid() && totalArea == old(totalArea) && fitPolicy == old(fitPolicy) && splitPolicy == old(splitPolicy) && bin == old(bin)
      ensures old(packedArea) + Vectors.Area(r) > totalArea ==> res.None?
      ensures res.None? ==> packedArea == old(packedArea) && freeRectangles == old(freeRectangles) && packedRectangles == old(packedRectangles)
      ensures res.None? && old(packedArea) + Vectors.Area(r) <= totalArea ==> forall f :: f in old(freeRectangles) ==> !Fits(f, r)
      ensures res.Some? ==> packedRectangles == old(packedRectangles) + [res.value] && packedArea == old(packedArea) + Vectors.Area(r)
      ensures res.Some? ==>
        exists f :: Chosen(old(freeRectangles), fitPolicy, r, f) && res.value == NewRect(BottomLeft(f), r) && freeRectangles == Cut(old(freeRectangles), f, r, splitPolicy)
    {
      if packedArea + Vectors.Area(r) > totalArea {
        return None;
      }
      var chosen := ChooseFree(freeRectangles, fitPolicy, r);
      if chosen.None? {
        return None;
      }
      var f := chosen.value;
      FitsIffSmaller(f, r);
      var placed := NewRect(BottomLeft(f), r);
      CutKeepsProper(freeRectangles, f, r, splitPolicy);
      CutKeepsApart(bin, freeRectangles, packedRectangles, f, r, splitPolicy);
      assert Chosen(freeRectangles, fitPolicy, r, f);
      packedRectangles := packedRectangles + [placed];
      freeRectangles := Cut(freeRectangles, f, r, splitPolicy);
      packedArea := packedArea + Vectors.Area(r);
      res := Some(placed);
    }
  }
}
