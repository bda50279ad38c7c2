/**
 * Growable meshes (BaseMesh and Mesh<Vertex>): a vertex buffer and a 32-bit
 * index buffer, each with a capacity (the allocated length) and a count (the
 * elements in use). A null buffer is an array of length 0.
 */
module Meshes {

  const Two32: int := 0x1_0000_0000

  /** `uint32_t`, the element type of the index buffer. */
  newtype u32 = x: int | 0 <= x < 0x1_0000_0000

  /** Conversion to `uint32_t`, which keeps the value modulo 2^32. */
  function Wrap(x: int): (r: u32)
    ensures 0 <= x < Two32 ==> r as int == x
    ensures (r as int - x) % Two32 == 0
  {
    (x % Two32) as u32
  }

  lemma WrapAdd(x: int, y: int)
    ensures Wrap(Wrap(x) as int + y) == Wrap(x + y)
  {
    var q := (x - x % Two32) / Two32;
    assert x == q * Two32 + x % Two32;
    assert Wrap(x) as int + y == (x + y) - q * Two32;
  }

  function Min(a: int, b: int): int { if a <= b then a else b }
  function Max(a: int, b: int): int { if a <= b then b else a }

  // ---------------------------------------------------------------------
  // Index sequences and what a mesh draws
  // ---------------------------------------------------------------------

  /** The indices `start, start + 1, …` (`n` of them), as `uint32_t`. */
  function Iota(start: int, n: nat): (r: seq<u32>)
    ensures |r| == n && forall k :: 0 <= k < n ==> r[k] == Wrap(start + k)
  {
    seq(n, k => Wrap(start + k))
  }

  /** Every index moved by `offset` vertices, with `uint32_t` wrap-around. */
  function Shift(s: seq<u32>, offset: int): (r: seq<u32>)
    ensures |r| == |s| && forall k :: 0 <= k < |s| ==> r[k] == Wrap(s[k] as int + offset)
  {
    seq(|s|, k requires 0 <= k < |s| => Wrap(s[k] as int + offset))
  }

  /**
   * The vertex order a mesh is drawn in: its indices when it has any, and its
   * vertices in order otherwise (the batcher emits consecutive indices for a
   * mesh without an index buffer).
   */
  function Drawn(indices: seq<u32>, vertexCount: nat): seq<u32> {
    if |indices| > 0 then indices else Iota(0, vertexCount)
  }

  /**
   * The index buffer after `merge`, for a mesh with indices `ai` over `av`
   * vertices and another with `bi` over `bv`: nothing when neither has
   * indices; otherwise this mesh's indices (the identity when it had none)
   * followed by the other's, moved past this mesh's vertices.
   */
  function MergedIndices(ai: seq<u32>, av: nat, bi: seq<u32>, bv: nat): seq<u32> {
    if |ai| == 0 && |bi| == 0 then []
    else
      var own := if |ai| > 0 then ai else Iota(0, av);
      own + (if |bi| > 0 then Shift(bi, av) else Iota(av, bv))
  }

  /**
   * The same, as written at Mesh.h:68-74: when only this mesh has indices, the
   * new entry at buffer position `i` is `i + vb_start`, counting from the old
   * index count rather than from 0.
   */
  function MergedIndicesAsWritten(ai: seq<u32>, av: nat, bi: seq<u32>, bv: nat): seq<u32> {
    if |ai| == 0 && |bi| == 0 then []
    else
      var own := if |ai| > 0 then ai else Iota(0, av);
      own + (if |bi| > 0 then Shift(bi, av) else Iota(|own| + av, bv))
  }

  lemma IotaSplit(a: nat, b: nat)
    ensures Iota(0, a + b) == Iota(0, a) + Iota(a, b)
  {
  }

  lemma ShiftIota(start: int, n: nat, offset: int)
    ensures Shift(Iota(start, n), offset) == Iota(start + offset, n)
  {
    forall k | 0 <= k < n
      ensures Shift(Iota(start, n), offset)[k] == Iota(start + offset, n)[k]
    {
      WrapAdd(start + k, offset);
    }
  }

  /**
   * `merge` keeps every drawing: the merged mesh draws this mesh's vertex
   * order, then the other's moved past this mesh's vertices.
   */
  lemma MergeKeepsDrawing(ai: seq<u32>, av: nat, bi: seq<u32>, bv: nat)
    ensures Drawn(MergedIndices(ai, av, bi, bv), av + bv) == Drawn(ai, av) + Shift(Drawn(bi, bv), av)
  {
    ShiftIota(0, bv, av);
    if |ai| == 0 && |bi| == 0 {
      IotaSplit(av, bv);
    }
  }

  /** Indices that address their own vertices still do so after `merge`, when the total fits in 32 bits. */
  lemma MergedInRange(ai: seq<u32>, av: nat, bi: seq<u32>, bv: nat)
    requires av + bv <= Two32
    requires forall k :: 0 <= k < |ai| ==> ai[k] as int < av
    requires forall k :: 0 <= k < |bi| ==> bi[k] as int < bv
    ensures var m := MergedIndices(ai, av, bi, bv); forall k :: 0 <= k < |m| ==> m[k] as int < av + bv
  {
  }

  /**
   * As written, appending an index-less mesh to an indexed one yields an index
   * past the end of the merged vertex buffer: one vertex with index 0, merged
   * with one vertex without indices, gives indices 0 and 2 over two vertices.
   */
  lemma MergeAsWrittenOutOfRange()
    ensures MergedIndicesAsWritten([0], 1, [], 1) == [0, 2]
    ensures Drawn(MergedIndicesAsWritten([0], 1, [], 1), 2) != Drawn([0], 1) + Shift(Drawn([], 1), 1)
  {
    var written := MergedIndicesAsWritten([0], 1, [], 1);
    assert Iota(2, 1)[0] == 2;
    assert written == [0] + Iota(2, 1);
    assert written[1] == 2;
    assert Drawn(written, 2) == written;
    assert Shift(Drawn([], 1), 1)[0] == 1;
    assert (Drawn([0], 1) + Shift(Drawn([], 1), 1))[1] == 1;
  }

  // ---------------------------------------------------------------------
  // Capacity growth
  // ---------------------------------------------------------------------

  /** The growth loop of `ensureVBCapacity`/`ensureIBCapacity`: multiply by 1.25 until `request` is covered. */
  function Grown(c: real, request: nat): (r: real)
    requires c >= 1.0
    decreases ((request as real - c) * 4.0).Floor
  {
    if c >= request as real then c else Grown(c * 1.25, request)
  }

  /** Growth covers the request, never shrinks, and overshoots by less than a quarter when it grows at all. */
  lemma {:induction false} GrownBounds(c: real, request: nat)
    requires c >= 1.0
    ensures Grown(c, request) >= request as real && Grown(c, request) >= c
    ensures c < request as real ==> Grown(c, request) < 1.25 * request as real
    decreases ((request as real - c) * 4.0).Floor
  {
    if c < request as real {
      GrownBounds(c * 1.25, request);
    }
  }

  /** The capacity `ensureVBCapacity`/`ensureIBCapacity` sets when `capacity` does not cover `request`. */
  method GrowthTarget(capacity: nat, request: nat) returns (n: nat)
    ensures n == Grown(if capacity < 1 then 1.0 else capacity as real, request).Floor
  {
    var c: real := capacity as real;
    if c < 1.0 {
      c := 1.0;
    }
    ghost var c0 := c;
    while c < request as real
      invariant c >= 1.0 && Grown(c, request) == Grown(c0, request)
      decreases ((request as real - c) * 4.0).Floor
    {
      c := c * 1.25;
    }
    n := c.Floor;
  }

  /** The grown capacity covers the request with less than a quarter to spare. */
  lemma GrowthCovers(capacity: nat, request: nat)
    requires capacity < request
    ensures var n := Grown(if capacity < 1 then 1.0 else capacity as real, request).Floor;
      request <= n && 4 * n < 5 * request
  {
    var c := if capacity < 1 then 1.0 else capacity as real;
    GrownBounds(c, request);
  }

  /** The capacity `softCompressVB`/`softCompressIB` sets: a quarter more than the count, and 4 for an empty buffer. */
  function SoftTarget(count: nat): (r: nat)
    ensures count <= r
    ensures count > 0 ==> 4 * r <= 5 * count
  {
    var c := count as real * 1.25;
    if c <= 1.0 then 4 else c.Floor
  }

  /** A buffer reallocated to `n` elements, keeping the first `min(n, old length)` (the `memcpy`). */
  method Reallocated<T(0)>(a: array<T>, n: nat) returns (b: array<T>)
    ensures fresh(b) && b.Length == n
    ensures b[..Min(n, a.Length)] == a[..Min(n, a.Length)]
  {
    b := new T[n];
    var keep := Min(n, a.Length);
    forall k | 0 <= k < keep {
      b[k] := a[k];
    }
  }

  /**
   * One buffer of `operator=(const Mesh&)`: an empty source gives an empty
   * buffer; a source that fits is copied into `a`, which keeps its length;
   * otherwise a new buffer of the source's length receives the copy.
   */
  method Assigned<T(0)>(a: array<T>, src: array<T>) returns (b: array<T>)
    modifies a
    ensures b.Length == (if src.Length == 0 || a.Length < src.Length then src.Length else a.Length)
    ensures b[..src.Length] == old(src[..])
    ensures b == a || fresh(b)
    ensures a != src ==> unchanged(src)
  {
    if src.Length == 0 {
      b := new T[0];
    } else if a.Length >= src.Length {
      forall k | 0 <= k < src.Length {
        a[k] := src[k];
      }
      b := a;
    } else {
      b := new T[src.Length];
      forall k | 0 <= k < src.Length {
        b[k] := src[k];
      }
    }
  }

  // ---------------------------------------------------------------------
  // The mesh object
  // ---------------------------------------------------------------------

  class Mesh<V(0)> {
    /** The vertex buffer; its length is `VBCapacity()`. */
    var vb: array<V>
    /** The index buffer; its length is `IBCapacity()`. */
    var ib: array<u32>
    var vbCount: nat
    var ibCount: nat

    ghost predicate Valid()
      reads this
    {
      vbCount <= vb.Length && ibCount <= ib.Length && vb as object != ib as object
    }

    /** The vertices in use. */
    function Vertices(): seq<V>
      reads this, vb
      requires vbCount <= vb.Length
    {
      vb[..vbCount]
    }

    /** The indices in use. */
    function Indices(): seq<u32>
      reads this, ib
      requires ibCount <= ib.Length
    {
      ib[..ibCount]
    }

    /** `hasVB()`: a non-null buffer with a non-zero count. */
    predicate HasVB()
      reads this
    {
      vb.Length > 0 && vbCount > 0
    }

    /** `hasIB()`. */
    predicate HasIB()
      reads this
    {
      ib.Length > 0 && ibCount > 0
    }

    /** `Mesh()`: no buffers, every capacity and count 0. */
    constructor()
      ensures Valid() && vb.Length == 0 && ib.Length == 0 && vbCount == 0 && ibCount == 0
      ensures fresh(vb) && fresh(ib)
    {
      vb := new V[0];
      ib := new u32[0];
      vbCount, ibCount := 0, 0;
    }

    /** `Mesh(const Mesh&)` (`clone`): the same counts and capacities, and a copy of both whole buffers. */
    constructor Clone(other: Mesh<V>)
      requires other.Valid()
      ensures Valid() && fresh(vb) && fresh(ib)
      ensures vbCount == other.vbCount && ibCount == other.ibCount
      ensures vb[..] == other.vb[..] && ib[..] == other.ib[..]
    {
      vbCount, ibCount := other.vbCount, other.ibCount;
      vb := new V[other.vb.Length];
      ib := new u32[other.ib.Length];
      new;
      forall k | 0 <= k < vb.Length {
        vb[k] := other.vb[k];
      }
      forall k | 0 <= k < ib.Length {
        ib[k] := other.ib[k];
      }
    }

    /** `Mesh(Mesh&&)` (`move`): the new mesh takes the other's buffers and counts, and the other is left empty. */
    constructor Moved(other: Mesh<V>)
      requires other.Valid()
      modifies other
      ensures Valid()
      ensures vb == old(other.vb) && ib == old(other.ib) && vbCount == old(other.vbCount) && ibCount == old(other.ibCount)
      ensures other.Valid() && other.vb.Length == 0 && other.ib.Length == 0 && other.vbCount == 0 && other.ibCount == 0
    {
      vb, ib := other.vb, other.ib;
      vbCount, ibCount := other.vbCount, other.ibCount;
      new;
      other.vb := new V[0];
      other.ib := new u32[0];
      other.vbCount, other.ibCount := 0, 0;
    }

    /** `operator=(Mesh&&)`: as the move constructor, after releasing this mesh's own buffers. */
    method MoveAssign(other: Mesh<V>)
      requires Valid() && other.Valid() && other != this
      modifies this, other
      ensures Valid()
      ensures vb == old(other.vb) && ib == old(other.ib) && vbCount == old(other.vbCount) && ibCount == old(other.ibCount)
      ensures other.Valid() && other.vb.Length == 0 && other.ib.Length == 0 && other.vbCount == 0 && other.ibCount == 0
    {
      vb, ib := other.vb, other.ib;
      vbCount, ibCount := other.vbCount, other.ibCount;
      other.vb := new V[0];
      other.ib := new u32[0];
      other.vbCount, other.ibCount := 0, 0;
    }

    /**
     * `operator=(const Mesh&)`, buffer by buffer (see `Assigned`); each count
     * becomes the other mesh's count.
     */
    method CopyAssign(other: Mesh<V>)
      requires Valid() && other.Valid()
      requires other.vb as object != ib as object && other.ib as object != vb as object
      modifies this, vb, ib
      ensures Valid()
      ensures vb.Length == (if other.vb.Length == 0 || old(vb.Length) < other.vb.Length then other.vb.Length else old(vb.Length))
      ensures ib.Length == (if other.ib.Length == 0 || old(ib.Length) < other.ib.Length then other.ib.Length else old(ib.Length))
      ensures vbCount == old(other.vbCount) && ibCount == old(other.ibCount)
      ensures vb[..other.vb.Length] == old(other.vb[..]) && ib[..other.ib.Length] == old(other.ib[..])
    {
      vb := Assigned(vb, other.vb);
      ib := Assigned(ib, other.ib);
      vbCount, ibCount := other.vbCount, other.ibCount;
    }

    /** `setVBCapacity(value)`: a no-op at the same capacity; otherwise reallocate, keeping what fits and cutting the count to the capacity. */
    method SetVBCapacity(value: nat)
      requires Valid()
      modifies this`vb, this`vbCount
      ensures Valid() && vb.Length == value && vbCount == Min(old(vbCount), value)
      ensures vb[..Min(value, old(vb.Length))] == old(vb[..Min(value, vb.Length)])
      ensures vb == old(vb) || fresh(vb)
    {
      if vb.Length == value {
        return;
      }
      if value <= vbCount {
        vbCount := value;
      }
      vb := Reallocated(vb, value);
    }

    /** `setIBCapacity(value)`, the same for the index buffer. */
    method SetIBCapacity(value: nat)
      requires Valid()
      modifies this`ib, this`ibCount
      ensures Valid() && ib.Length == value && ibCount == Min(old(ibCount), value)
      ensures ib[..Min(value, old(ib.Length))] == old(ib[..Min(value, ib.Length)])
      ensures ib == old(ib) || fresh(ib)
    {
      if ib.Length == value {
        return;
      }
      if value <= ibCount {
        ibCount := value;
      }
      ib := Reallocated(ib, value);
    }

    /** `ensureVBCapacity(request)`: a no-op when the capacity covers the request; otherwise grow by 1.25 steps. */
    method EnsureVBCapacity(request: nat)
      requires Valid()
      modifies this`vb, this`vbCount
      ensures Valid() && vbCount == old(vbCount) && request <= vb.Length
      ensures vb.Length == if request <= old(vb.Length) then old(vb.Length) else Grown(if old(vb.Length) < 1 then 1.0 else old(vb.Length) as real, request).Floor
      ensures vb[..old(vb.Length)] == old(vb[..])
      ensures request <= old(vb.Length) ==> vb == old(vb)
      ensures vb == old(vb) || fresh(vb)
    {
      if request <= vb.Length {
        return;
      }
      var n := GrowthTarget(vb.Length, request);
      GrowthCovers(vb.Length, request);
      SetVBCapacity(n);
    }

    /** `ensureIBCapacity(request)`. */
    method EnsureIBCapacity(request: nat)
      requires Valid()
      modifies this`ib, this`ibCount
      ensures Valid() && ibCount == old(ibCount) && request <= ib.Length
      ensures ib.Length == if request <= old(ib.Length) then old(ib.Length) else Grown(if old(ib.Length) < 1 then 1.0 else old(ib.Length) as real, request).Floor
      ensures ib[..old(ib.Length)] == old(ib[..])
      ensures request <= old(ib.Length) ==> ib == old(ib)
      ensures ib == old(ib) || fresh(ib)
    {
      if request <= ib.Length {
        return;
      }
      var n := GrowthTarget(ib.Length, request);
      GrowthCovers(ib.Length, request);
      SetIBCapacity(n);
    }

    /** `setVBCount(value)`: grow the capacity if needed, then set the count. */
    method SetVBCount(value: nat)
      requires Valid()
      modifies this`vb, this`vbCount
      ensures Valid() && vbCount == value && value <= vb.Length
      ensures vb.Length == if value <= old(vb.Length) then old(vb.Length) else Grown(if old(vb.Length) < 1 then 1.0 else old(vb.Length) as real, value).Floor
      ensures vb[..old(vb.Length)] == old(vb[..])
      ensures vb == old(vb) || fresh(vb)
    {
      if value > vb.Length {
        EnsureVBCapacity(value);
      }
      vbCount := value;
    }

    /** `setIBCount(value)`. */
    method SetIBCount(value: nat)
      requires Valid()
      modifies this`ib, this`ibCount
      ensures Valid() && ibCount == value && value <= ib.Length
      ensures ib.Length == if value <= old(ib.Length) then old(ib.Length) else Grown(if old(ib.Length) < 1 then 1.0 else old(ib.Length) as real, value).Floor
      ensures ib[..old(ib.Length)] == old(ib[..])
      ensures ib == old(ib) || fresh(ib)
    {
      if value > ib.Length {
        EnsureIBCapacity(value);
      }
      ibCount := value;
    }

    /** `compressVB()` and `compressIB()` (`compressBoth`): each capacity becomes its count, contents kept. */
    method CompressBoth()
      requires Valid()
      modifies this
      ensures Valid() && vb.Length == vbCount && ib.Length == ibCount
      ensures vbCount == old(vbCount) && ibCount == old(ibCount)
      ensures Vertices() == old(Vertices()) && Indices() == old(Indices())
    {
      SetVBCapacity(vbCount);
      SetIBCapacity(ibCount);
    }

    /** `softCompressIB()` then `softCompressVB()`: each capacity becomes `SoftTarget` of its count, contents kept. */
    method SoftCompressBoth()
      requires Valid()
      modifies this
      ensures Valid() && vb.Length == SoftTarget(vbCount) && ib.Length == SoftTarget(ibCount)
      ensures vbCount == old(vbCount) && ibCount == old(ibCount)
      ensures Vertices() == old(Vertices()) && Indices() == old(Indices())
    {
      SetIBCapacity(SoftTarget(ibCount));
      SetVBCapacity(SoftTarget(vbCount));
    }

    /** `appendIndex(index)`: one more index at the end, the others unchanged. */
    method AppendIndex(index: u32)
      requires Valid()
      modifies this`ib, this`ibCount, ib
      ensures Valid() && Indices() == old(Indices()) + [index]
    {
      EnsureIBCapacity(ibCount + 1);
      ib[ibCount] := index;
      ibCount := ibCount + 1;
    }

    /** `appendVertex(vertex)`. */
    method AppendVertex(vertex: V)
      requires Valid()
      modifies this`vb, this`vbCount, vb
      ensures Valid() && Vertices() == old(Vertices()) + [vertex]
    {
      EnsureVBCapacity(vbCount + 1);
      vb[vbCount] := vertex;
      vbCount := vbCount + 1;
    }

    /**
     * `copyIndexes(start, indexes, count)`: nothing for an empty copy;
     * otherwise `indexes` lands at `start`, the other indices in use stay and
     * the count covers the copy.
     */
    method CopyIndexes(start: nat, indexes: seq<u32>)
      requires Valid()
      modifies this`ib, this`ibCount, ib
      ensures Valid()
      ensures |indexes| == 0 ==> ib == old(ib) && ibCount == old(ibCount)
      ensures |indexes| > 0 ==> ibCount == Max(old(ibCount), start + |indexes|)
      ensures |indexes| > 0 ==> start + |indexes| <= ib.Length && ib[start..start + |indexes|] == indexes
      ensures forall k :: 0 <= k < old(ibCount) && !(start <= k < start + |indexes|) ==> ib[k] == old(ib[k])
      ensures ib == old(ib) || fresh(ib)
    {
      if |indexes| == 0 {
        return;
      }
      EnsureIBCapacity(start + |indexes|);
      forall k | 0 <= k < |indexes| {
        ib[start + k] := indexes[k];
      }
      ibCount := Max(ibCount, start + |indexes|);
    }

    /** `copyVertexes(start, vertexes, count)`. */
    method CopyVertexes(start: nat, vertexes: seq<V>)
      requires Valid()
      modifies this`vb, this`vbCount, vb
      ensures Valid()
      ensures |vertexes| == 0 ==> vb == old(vb) && vbCount == old(vbCount)
      ensures |vertexes| > 0 ==> vbCount == Max(old(vbCount), start + |vertexes|)
      ensures |vertexes| > 0 ==> start + |vertexes| <= vb.Length && vb[start..start + |vertexes|] == vertexes
      ensures forall k :: 0 <= k < old(vbCount) && !(start <= k < start + |vertexes|) ==> vb[k] == old(vb[k])
      ensures vb == old(vb) || fresh(vb)
    {
      if |vertexes| == 0 {
        return;
      }
      EnsureVBCapacity(start + |vertexes|);
      forall k | 0 <= k < |vertexes| {
        vb[start + k] := vertexes[k];
      }
      vbCount := Max(vbCount, start + |vertexes|);
    }

    /** `merge`, when this mesh had no indices (Mesh.h:55-60): the identity over its own vertices. */
    method WriteIdentity(n: nat)
      requires Valid() && ibCount == 0
      modifies this`ib, this`ibCount, ib
      ensures Valid() && Indices() == Iota(0, n)
      ensures ib == old(ib) || fresh(ib)
    {
      SetIBCount(n);
      ghost var buffer := ib;
      for i := 0 to n
        invariant Valid() && ibCount == n && ib == buffer
        invariant forall k :: 0 <= k < i ==> ib[k] == Wrap(k)
      {
        ib[i] := Wrap(i);
      }
      assert Indices() == Iota(0, n);
    }

    /** `merge`, when the other mesh has indices (Mesh.h:61-67): copy them after this mesh's and move each by `offset`. */
    method AppendShifted(indexes: seq<u32>, offset: int)
      requires Valid()
      modifies this`ib, this`ibCount, ib
      ensures Valid() && Indices() == old(Indices()) + Shift(indexes, offset)
      ensures ib == old(ib) || fresh(ib)
    {
      var start := ibCount;
      CopyIndexes(ibCount, indexes);
      ShiftFrom(start, offset);
      assert Indices() == old(Indices()) + Shift(indexes, offset);
    }

    /** The loop of Mesh.h:64-66: every index in use from `start` on moves by `offset`. */
    method ShiftFrom(start: nat, offset: int)
      requires Valid() && start <= ibCount
      modifies ib
      ensures forall k :: 0 <= k < ib.Length ==> ib[k] == if start <= k < ibCount then Wrap(old(ib[k]) as int + offset) else old(ib[k])
    {
      for i := start to ibCount
        invariant forall k :: 0 <= k < ib.Length ==> ib[k] == if start <= k < i then Wrap(old(ib[k]) as int + offset) else old(ib[k])
      {
        ib[i] := Wrap(ib[i] as int + offset);
      }
    }

    /**
     * `merge`, when only this mesh has indices (Mesh.h:68-74), corrected: the
     * other mesh's `n` vertices in order, starting at `offset`.
     */
    method AppendRun(n: nat, offset: int)
      requires Valid()
      modifies this`ib, this`ibCount, ib
      ensures Valid() && Indices() == old(Indices()) + Iota(offset, n)
      ensures ib == old(ib) || fresh(ib)
    {
      var start := ibCount;
      SetIBCount(ibCount + n);
      ghost var buffer := ib;
      for i := start to ibCount
        invariant Valid() && ibCount == start + n && ib == buffer
        invariant forall k :: 0 <= k < start ==> ib[k] == old(ib[k])
        invariant forall k :: start <= k < i ==> ib[k] == Wrap(k - start + offset)
      {
        ib[i] := Wrap(i - start + offset);
      }
      assert Indices() == old(Indices()) + Iota(offset, n);
    }

    /**
     * `merge(other)`: append the other mesh's vertices, and when either mesh
     * has indices, give the merged mesh indices that draw both.
     */
    method Merge(other: Mesh<V>)
      requires Valid() && other.Valid()
      modifies this, vb, ib
      ensures Valid()
      ensures Vertices() == old(Vertices()) + old(other.Vertices())
      ensures Indices() == MergedIndices(old(Indices()), old(vbCount), old(other.Indices()), old(other.vbCount))
    {
      var ov, oi := other.vb[..other.vbCount], other.ib[..other.ibCount];
      var otherHasVB, otherHasIB := other.HasVB(), other.HasIB();
      var vbStart := vbCount;
      if otherHasVB {
        CopyVertexes(vbCount, ov);
        assert vb[..vbCount] == old(Vertices()) + ov;
      }
      if HasIB() || otherHasIB {
        if !HasIB() {
          WriteIdentity(vbStart);
        }
        if otherHasIB {
          AppendShifted(oi, vbStart);
        } else {
          AppendRun(|ov|, vbStart);
        }
      }
    }
  }
}
