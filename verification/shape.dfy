/** The collision-shape handle: one circle, rectangle or polygon, with a type
    mask, a collision mask, a static/dynamic flag and the tree it is
    registered in. */
module Shapes {
  import opened Vectors
  import Rects
  import Circles
  import Polygons
  import Matrices

  /** `ShapeType`. */
  datatype ShapeType = CircleShape | RectShape | PolygonShape

  /** The geometry a shape currently holds, as one value. */
  datatype Geometry = CircleGeometry(circle: Circles.Circle) | RectGeometry(rect: Rects.Rect) | PolygonGeometry(polygon: Polygons.Polygon)

  /** `std::numeric_limits<size_t>::max()`: every bit of a 64-bit mask set. */
  const AllOnes: bv64 := 0xFFFF_FFFF_FFFF_FFFF

  /** The geometry kind of a value. */
  function KindOf(g: Geometry): (k: ShapeType)
    ensures k == CircleShape <==> g.CircleGeometry?
    ensures k == RectShape <==> g.RectGeometry?
  {
    match g
    case CircleGeometry(_) => CircleShape
    case RectGeometry(_) => RectShape
    case PolygonGeometry(_) => PolygonShape
  }

  /** The bounds of a geometry value: the rect itself, or the circle's or the
      polygon's bounds. */
  function GeometryBounds(g: Geometry): (r: Rects.Rect)
    requires g.CircleGeometry? ==> Circles.WellFormed(g.circle)
    ensures g.RectGeometry? ==> r == g.rect
  {
    match g
    case CircleGeometry(c) => Circles.Bounds(c)
    case RectGeometry(r) => r
    case PolygonGeometry(p) => Polygons.Bounds(p)
  }

  /** Every point of a geometry lies inside its bounds. */
  lemma GeometryBoundsContain(g: Geometry)
    requires g.CircleGeometry? ==> Circles.WellFormed(g.circle)
    ensures g.CircleGeometry? ==> forall p :: Circles.ContainsPoint(g.circle, p) ==> Rects.ContainsPoint(GeometryBounds(g), p)
    ensures g.PolygonGeometry? ==> forall i :: 0 <= i < |g.polygon.points| ==> Rects.ContainsPoint(GeometryBounds(g), g.polygon.points[i])
  {
    if g.CircleGeometry? {
      forall p | Circles.ContainsPoint(g.circle, p)
        ensures Rects.ContainsPoint(GeometryBounds(g), p)
      {
        CircleBoxed(g.circle, p);
      }
    }
  }

  /** A point of a circle lies in the square of side 2r around its centre. */
  lemma CircleBoxed(c: Circles.Circle, p: Vec2)
    requires Circles.WellFormed(c) && Circles.ContainsPoint(c, p)
    ensures Rects.ContainsPoint(Circles.Bounds(c), p)
  {
    var dx := p.x - c.center.x;
    var dy := p.y - c.center.y;
    assert dx * dx + dy * dy <= c.radius * c.radius;
    Circles.SquaresAreNonNegative(dy, 0.0);
    AxisWithinRadius(dx, dx * dx + dy * dy, c.radius);
    Circles.SquaresAreNonNegative(dx, 0.0);
    AxisWithinRadius(dy, dx * dx + dy * dy, c.radius);
  }

  /** A coordinate difference whose square is bounded by r^2 is at most r in
      size. */
  lemma AxisWithinRadius(d: real, s: real, r: real)
    requires 0.0 <= r && d * d <= s <= r * r
    ensures -r <= d <= r
  {
    assert Times(d - r, d + r) == d * d - r * r;
    if d > r {
      PositiveProduct(d - r, d + r);
    } else if d < -r {
      PositiveProduct(r - d, -r - d);
    }
  }

  /** Geometry the queries can work with: a circle or rect with its value
      invariant, or a convex polygon with a non-zero area (the polygon
      overlap and containment code asserts the area, and the stored polygon
      is a convex hull). */
  predicate ProperGeometry(g: Geometry)
  {
    match g
    case CircleGeometry(c) => Circles.WellFormed(c)
    case RectGeometry(r) => Rects.WellFormed(r)
    case PolygonGeometry(p) => Polygons.AreaOf(p) != 0.0 && Polygons.IsConvexSpec(p)
  }

  /** Proper geometry has well-formed bounds (a polygon with a non-zero area
      has at least three points). */
  lemma ProperBounds(g: Geometry)
    requires ProperGeometry(g)
    ensures Rects.WellFormed(GeometryBounds(g))
  {
    if g.PolygonGeometry? {
      assert |g.polygon.points| > 2;
    }
  }

  /** `Shape` (`shape_implementation` behind it). The three geometry fields
      all exist; only the one the type selects is meaningful. */
  class Shape {
    var kind: ShapeType
    var typeMask: bv64
    var collisionMask: bv64
    var dynamic: bool
    var parent: object?
    var circle: Circles.Circle
    var rect: Rects.Rect
    var polygon: Polygons.Polygon

    /** Circles and rects keep their value invariants (non-negative radius
        and size). */
    predicate Valid()
      reads this
    {
      Circles.WellFormed(circle) && Rects.WellFormed(rect)
    }

    /** A shape whose geometry is proper. */
    predicate Proper()
      reads this
    {
      Valid() && ProperGeometry(Geometry())
    }

    /** What `Shape()` sets before the factory stores the geometry: static,
        no parent, every bit of both masks set. */
    predicate IsFresh()
      reads this
    {
      !dynamic && parent == null && typeMask == AllOnes && collisionMask == AllOnes
    }

    /** `Shape::fromCircle`. */
    constructor FromCircle(c: Circles.Circle)
      requires Circles.WellFormed(c)
      ensures Valid() && IsFresh()
      ensures kind == CircleShape && circle == c
    {
      kind := CircleShape;
      typeMask := AllOnes;
      collisionMask := AllOnes;
      dynamic := false;
      parent := null;
      circle := c;
      rect := Rects.Default;
      polygon := Polygons.Default;
    }

    /** `Shape::fromRect`. */
    constructor FromRect(r: Rects.Rect)
      requires Rects.WellFormed(r)
      ensures Valid() && IsFresh()
      ensures kind == RectShape && rect == r
    {
      kind := RectShape;
      typeMask := AllOnes;
      collisionMask := AllOnes;
      dynamic := false;
      parent := null;
      circle := Circles.Default;
      rect := r;
      polygon := Polygons.Default;
    }

    /** `Shape::fromPolygon`, given the convex polygon to store (the code
        stores the polygon's convex hull). */
    constructor FromPolygon(p: Polygons.Polygon)
      ensures Valid() && IsFresh()
      ensures kind == PolygonShape && polygon == p
    {
      kind := PolygonShape;
      typeMask := AllOnes;
      collisionMask := AllOnes;
      dynamic := false;
      parent := null;
      circle := Circles.Default;
      rect := Rects.Default;
      polygon := p;
    }

    /** The geometry the type selects. */
    function Geometry(): (g: Geometry)
      reads this
      ensures KindOf(g) == kind
    {
      match kind
      case CircleShape => CircleGeometry(circle)
      case RectShape => RectGeometry(rect)
      case PolygonShape => PolygonGeometry(polygon)
    }

    /** `circle()`: only for circle shapes. */
    function CircleOf(): (c: Circles.Circle)
      reads this
      requires kind == CircleShape
      ensures Geometry() == CircleGeometry(c)
    {
      circle
    }

    /** `Rect()`: only for rect shapes. */
    function RectOf(): (r: Rects.Rect)
      reads this
      requires kind == RectShape
      ensures Geometry() == RectGeometry(r)
    {
      rect
    }

    /** `Polygon()`: only for polygon shapes. */
    function PolygonOf(): (p: Polygons.Polygon)
      reads this
      requires kind == PolygonShape
      ensures Geometry() == PolygonGeometry(p)
    {
      polygon
    }

    /** `bounds()`: the rect itself for rect shapes, otherwise the circle's
        or the polygon's bounds. */
    function Bounds(): (r: Rects.Rect)
      reads this
      requires Valid()
      ensures kind == RectShape ==> r == rect
    {
      GeometryBounds(Geometry())
    }

    /** Every point of the shape lies inside its bounds. */
    lemma BoundsContain()
      requires Valid()
      ensures kind == CircleShape ==> forall p :: Circles.ContainsPoint(circle, p) ==> Rects.ContainsPoint(Bounds(), p)
      ensures kind == PolygonShape ==> forall i :: 0 <= i < |polygon.points| ==> Rects.ContainsPoint(Bounds(), polygon.points[i])
    {
      GeometryBoundsContain(Geometry());
    }

    /** `applyTransform(m)`: only the geometry the type selects changes. */
    method ApplyTransform(m: Matrices.Matrix3x3, sqrt: real -> real)
      requires IsSqrt(sqrt) && Valid()
      modifies this
      ensures Valid()
      ensures kind == old(kind) && typeMask == old(typeMask) && collisionMask == old(collisionMask)
      ensures dynamic == old(dynamic) && parent == old(parent)
      ensures circle == if kind == CircleShape then Matrices.TransformedCircle(m, old(circle), sqrt) else old(circle)
      ensures rect == if kind == RectShape then Matrices.TransformedRect(m, old(rect)) else old(rect)
      ensures polygon == if kind == PolygonShape then Matrices.TransformedPolygon(m, old(polygon)) else old(polygon)
    {
      if kind == CircleShape {
        circle := Matrices.TransformedCircle(m, circle, sqrt);
      } else if kind == RectShape {
        rect := Matrices.TransformedRect(m, rect);
      } else {
        polygon := Matrices.TransformedPolygon(m, polygon);
      }
    }

    /** `setTypeMask`: read back by `typeMask()`; nothing else changes. */
    method SetTypeMask(value: bv64)
      modifies this
      ensures typeMask == value
      ensures kind == old(kind) && collisionMask == old(collisionMask) && dynamic == old(dynamic) && parent == old(parent)
      ensures circle == old(circle) && rect == old(rect) && polygon == old(polygon)
    {
      typeMask := value;
    }

    /** `setCollisionMask`: read back by `collisionMask()`. */
    method SetCollisionMask(value: bv64)
      modifies this
      ensures collisionMask == value
      ensures kind == old(kind) && typeMask == old(typeMask) && dynamic == old(dynamic) && parent == old(parent)
      ensures circle == old(circle) && rect == old(rect) && polygon == old(polygon)
    {
      collisionMask := value;
    }

    /** `setDynamic`: read back by `isDynamic()`. */
    method SetDynamic(value: bool)
      modifies this
      ensures dynamic == value
      ensures kind == old(kind) && typeMask == old(typeMask) && collisionMask == old(collisionMask) && parent == old(parent)
      ensures circle == old(circle) && rect == old(rect) && polygon == old(polygon)
    {
      dynamic := value;
    }

    /** `setParent`: read back by `parent()`. */
    method SetParent(value: object?)
      modifies this
      ensures parent == value
      ensures kind == old(kind) && typeMask == old(typeMask) && collisionMask == old(collisionMask) && dynamic == old(dynamic)
      ensures circle == old(circle) && rect == old(rect) && polygon == old(polygon)
    {
      parent := value;
    }
  }

  /** A fresh shape passes every mask test: its type mask has every bit set,
      so it shares a bit with any non-zero query mask. */
  lemma FreshShapeMatchesAnyMask(s: Shape, mask: bv64)
    requires s.IsFresh() && mask != 0
    ensures s.typeMask & mask != 0
  {
    assert AllOnes & mask == mask;
  }
}
