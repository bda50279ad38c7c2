/** The fixed-capacity result records the spatial tree fills: range and pick
    results (shapes), intersection results (contacts) and ray-cast results. */
module QueryResults {
  import opened Vectors
  import Shapes

  /** `SbMaxCollisions`: the capacity of both result buffers. */
  const MaxCollisions: nat := 12

  /** `ExIntersectionInfo`: a contact between two shapes, or empty. */
  datatype ExIntersectionInfo = ExIntersectionInfo(bodyA: Shapes.Shape?, bodyB: Shapes.Shape?, normal: Vec2, penetration: real, empty: bool)

  /** `ExIntersectionInfo()`: empty, no bodies, penetration 0. */
  const NoContact := ExIntersectionInfo(null, null, Zero, 0.0, true)

  /** `ExIntersectionInfo(bodyA, bodyB, normal, penetration)`. */
  function ContactBetween(bodyA: Shapes.Shape?, bodyB: Shapes.Shape?, normal: Vec2, penetration: real): (e: ExIntersectionInfo)
    ensures !e.empty && e.bodyA == bodyA && e.bodyB == bodyB
    ensures e.normal == normal && e.penetration == penetration
  {
    ExIntersectionInfo(bodyA, bodyB, normal, penetration, false)
  }

  /** `RayCastResult`: the first shape a ray meets, where and at which
      parameter along the ray, or empty. */
  datatype RayCastResult = RayCastResult(empty: bool, intersected: Shapes.Shape?, point: Vec2, parameter: real)

  /** `RayCastResult()`: empty, no shape, parameter 0. */
  const NoHit := RayCastResult(true, null, Zero, 0.0)

  /** `RayCastResult(s, v, p)`. */
  function HitOf(s: Shapes.Shape?, v: Vec2, p: real): (r: RayCastResult)
    ensures !r.empty && r.intersected == s && r.point == v && r.parameter == p
  {
    RayCastResult(false, s, v, p)
  }

  /** `RangeQueryResult`: up to twelve shapes in a fixed array, the first
      `count` of them meaningful. */
  class RangeQueryResult {
    var count: nat
    var shapes: array<Shapes.Shape?>

    predicate Valid()
      reads this
    {
      shapes.Length == MaxCollisions && count <= MaxCollisions
    }

    /** The shapes pushed so far, in order. */
    function Contents(): (c: seq<Shapes.Shape?>)
      reads this, shapes
      requires Valid()
      ensures |c| == count
    {
      shapes[..count]
    }

    /** `isFull()`. */
    predicate IsFull()
      reads this
    {
      count == MaxCollisions
    }

    /** `RangeQueryResult()`: every slot null, count 0. */
    constructor ()
      ensures Valid() && fresh(shapes)
      ensures Contents() == []
      ensures forall i :: 0 <= i < MaxCollisions ==> shapes[i] == null
    {
      count := 0;
      shapes := new Shapes.Shape?[MaxCollisions](_ => null);
    }

    /** `pushShape(s)`: only with room left; the shape goes into slot
        `count`, which then grows by one. */
    method PushShape(s: Shapes.Shape?)
      requires Valid() && !IsFull()
      modifies this, shapes
      ensures Valid() && shapes == old(shapes)
      ensures count == old(count) + 1
      ensures shapes[..] == old(shapes[..])[old(count) := s]
      ensures Contents() == old(Contents()) + [s]
    {
      shapes[count] := s;
      count := count + 1;
    }

    /** `clear()`: every slot null, count 0. */
    method Clear()
      requires Valid()
      modifies this, shapes
      ensures Valid() && shapes == old(shapes)
      ensures Contents() == []
      ensures forall i :: 0 <= i < MaxCollisions ==> shapes[i] == null
    {
      var i := 0;
      while i < MaxCollisions
        invariant 0 <= i <= MaxCollisions
        invariant Valid() && shapes == old(shapes)
        invariant forall k :: 0 <= k < i ==> shapes[k] == null
      {
        shapes[i] := null;
        i := i + 1;
      }
      count := 0;
    }
  }

  /** A buffer is full exactly when it holds twelve shapes, so a buffer that
      is not full has room for one more push. */
  lemma FullIffTwelve(q: RangeQueryResult)
    requires q.Valid()
    ensures q.IsFull() <==> |q.Contents()| == MaxCollisions
    ensures !q.IsFull() ==> |q.Contents()| < MaxCollisions
  {
  }

  /** `IntersectionQueryResult`: up to twelve contacts in a fixed array. */
  class IntersectionQueryResult {
    var count: nat
    var intersections: array<ExIntersectionInfo>

    predicate Valid()
      reads this
    {
      intersections.Length == MaxCollisions && count <= MaxCollisions
    }

    /** The contacts pushed so far, in order. */
    function Contents(): (c: seq<ExIntersectionInfo>)
      reads this, intersections
      requires Valid()
      ensures |c| == count
    {
      intersections[..count]
    }

    /** `isFull()`. */
    predicate IsFull()
      reads this
    {
      count == MaxCollisions
    }

    /** `IntersectionQueryResult()`: count 0, every slot a default
        (empty) contact. */
    constructor ()
      ensures Valid() && fresh(intersections)
      ensures Contents() == []
      ensures forall i :: 0 <= i < MaxCollisions ==> intersections[i] == NoContact
    {
      count := 0;
      intersections := new ExIntersectionInfo[MaxCollisions](_ => NoContact);
    }

    /** `pushInfo(ii)`: the same bounded append as `pushShape`. */
    method PushInfo(ii: ExIntersectionInfo)
      requires Valid() && !IsFull()
      modifies this, intersections
      ensures Valid() && intersections == old(intersections)
      ensures count == old(count) + 1
      ensures intersections[..] == old(intersections[..])[old(count) := ii]
      ensures Contents() == old(Contents()) + [ii]
    {
      intersections[count] := ii;
      count := count + 1;
    }
  }
}
