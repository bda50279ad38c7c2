/**
 * The CPU bookkeeping of the dynamic batcher: meshes and instances are copied
 * into three growing buffers (model vertices, 32-bit indices, instance data)
 * and grouped into draw calls that record where their data starts. Offsets
 * are counted in elements; a buffer is the sequence of elements written so
 * far, which `begin` does not clear (it only rewinds the offsets).
 */
module Batchers {
  import opened Meshes

  datatype Topology = PointList | LineList | LineStrip | TriangleList | TriangleStrip

  /** One draw call: where its model vertices, indices and instances start, and how many it has. */
  datatype DrawCall = DrawCall(
    topology: Topology,
    modelVBOffset: nat,
    modelIBOffset: nat,
    instanceOffset: nat,
    modelIBCount: nat,
    instanceCount: nat,
    isInstanced: bool,
    ended: bool)

  /** `memcpy(buffer + offset, data, …)`: `data` overwrites the buffer from `offset` on, extending it when needed. */
  function WriteAt<T>(buffer: seq<T>, offset: nat, data: seq<T>): (r: seq<T>)
    requires offset <= |buffer|
    ensures |r| == Max(|buffer|, offset + |data|)
    ensures r[..offset] == buffer[..offset] && r[offset..offset + |data|] == data
    ensures forall k :: offset + |data| <= k < |buffer| ==> r[k] == buffer[k]
  {
    buffer[..offset] + data + if offset + |data| <= |buffer| then buffer[offset + |data|..] else []
  }

  /**
   * The indices `_batchMesh` emits for a mesh: its own indices, or its
   * vertices in order when it has none, each moved by `correction`, the
   * number of vertices already in the draw call.
   */
  function EmittedIndices(meshIndices: seq<u32>, vertexCount: nat, correction: int): seq<u32> {
    Shift(Drawn(meshIndices, vertexCount), correction)
  }

  /**
   * A batched mesh draws itself: each emitted index, taken from the draw
   * call's base vertex, reaches the mesh vertex the mesh itself would draw
   * there, as long as the mesh's indices address its own vertices and the
   * buffer stays within 32-bit indices.
   */
  lemma BatchedMeshDrawsItself<V>(models: seq<V>, modelOffset: nat, base: nat, vertices: seq<V>, meshIndices: seq<u32>)
    requires base <= modelOffset <= |models| && modelOffset + |vertices| <= Two32
    requires forall k :: 0 <= k < |meshIndices| ==> meshIndices[k] as int < |vertices|
    ensures var written, emitted := WriteAt(models, modelOffset, vertices), EmittedIndices(meshIndices, |vertices|, modelOffset - base);
      var order := Drawn(meshIndices, |vertices|);
      forall k :: 0 <= k < |emitted| ==>
        base + emitted[k] as int < |written| && written[base + emitted[k] as int] == vertices[order[k]]
  {
    var written := WriteAt(models, modelOffset, vertices);
    var order := Drawn(meshIndices, |vertices|);
    forall k | 0 <= k < |order|
      ensures base + Wrap(order[k] as int + modelOffset - base) as int == modelOffset + order[k] as int
      ensures modelOffset + order[k] as int < |written|
    {
      assert order[k] as int < |vertices|;
    }
    forall k | 0 <= k < |order|
      ensures written[modelOffset + order[k] as int] == vertices[order[k]]
    {
      assert written[modelOffset..modelOffset + |vertices|][order[k]] == vertices[order[k]];
    }
  }

  // ---------------------------------------------------------------------
  // ensureBufferSize
  // ---------------------------------------------------------------------

  /** The size `ensureBufferSize` allocates: grow from the current size (4 when empty) by 1.25 steps, then round up past a multiple of `alignment`. */
  function BufferTarget(size: nat, minSize: nat, alignment: nat): nat
    requires alignment > 0
  {
    var start := if size == 0 then 4.0 else size as real;
    GrownBounds(start, minSize);
    (Grown(start, minSize).Floor / alignment + 1) * alignment
  }

  /** The next multiple of `a` above `f`. */
  lemma NextMultiple(f: nat, a: nat)
    requires a > 0
    ensures f < (f / a + 1) * a && ((f / a + 1) * a) % a == 0
  {
    var q := f / a;
    assert f == q * a + f % a;
    assert (q + 1) * a == q * a + a;
    MultipleMod(q + 1, a);
  }

  lemma MultipleMod(k: nat, a: nat)
    requires a > 0
    ensures (k * a) % a == 0
  {
    var m := k * a;
    var q, r := m / a, m % a;
    assert m == q * a + r && 0 <= r < a;
    var d := k - q;
    assert d * a == k * a - q * a;
    assert d * a == r;
    if d >= 1 {
      assert d * a == (d - 1) * a + a;
      PositiveProduct(d - 1, a);
    } else if d <= -1 {
      assert d * a == -((-d - 1) * a) - a;
      PositiveProduct(-d - 1, a);
    }
  }

  lemma PositiveProduct(x: nat, a: nat)
    ensures x * a >= 0
  {
  }

  /** The allocated size is a multiple of the alignment and strictly covers the minimum. */
  lemma BufferTargetCovers(size: nat, minSize: nat, alignment: nat)
    requires alignment > 0
    ensures var n := BufferTarget(size, minSize, alignment); n % alignment == 0 && minSize < n
  {
    var start := if size == 0 then 4.0 else size as real;
    GrownBounds(start, minSize);
    NextMultiple(Grown(start, minSize).Floor, alignment);
  }

  /** The growth loop and rounding of `ensureBufferSize` (DynamicBatcher.cpp:497-507). */
  method ComputeBufferTarget(size: nat, minSize: nat, alignment: nat) returns (n: nat)
    requires alignment > 0
    ensures n == BufferTarget(size, minSize, alignment)
  {
    var d: real := size as real;
    if d <= 0.0 {
      d := 4.0;
    }
    ghost var d0 := d;
    while d < minSize as real
      invariant d >= 1.0 && Grown(d, minSize) == Grown(d0, minSize)
      decreases ((minSize as real - d) * 4.0).Floor
    {
      d := d * 1.25;
    }
    n := d.Floor;
    n := n / alignment;
    n := n + 1;
    n := n * alignment;
  }

  /** The outcome of `ensureBufferSize` for a buffer: its recorded size afterwards, and whether its contents survive. */
  datatype Resize = Resize(size: nat, kept: bool)

  /**
   * `ensureBufferSize` as written: the recorded size is never updated, and an
   * existing buffer is replaced by a fresh `malloc` (its contents lost) while
   * a null one goes to `realloc`.
   */
  function EnsureBufferSizeAsWritten(size: nat, minSize: nat, alignment: nat, hasBuffer: bool): Resize
    requires alignment > 0
  {
    if size >= minSize then Resize(size, true)
    else Resize(size, !hasBuffer)
  }

  /** `ensureBufferSize` with `*sz` set to the new size and an existing buffer grown by `realloc`. */
  function EnsureBufferSize(size: nat, minSize: nat, alignment: nat, hasBuffer: bool): (r: Resize)
    requires alignment > 0
    ensures r.size >= minSize && r.kept
    ensures size >= minSize ==> r.size == size
  {
    BufferTargetCovers(size, minSize, alignment);
    if size >= minSize then Resize(size, true)
    else Resize(BufferTarget(size, minSize, alignment), true)
  }

  /**
   * As written, an empty buffer asked for 8 bytes still records size 0, and a
   * buffer holding data loses it when it has to grow.
   */
  lemma EnsureBufferSizeAsWrittenForgets()
    ensures EnsureBufferSizeAsWritten(0, 8, 4, false).size == 0
    ensures !EnsureBufferSizeAsWritten(16, 32, 4, true).kept
  {
  }

  /** Growing twice, the recorded size makes the second request a no-op once the first covered it. */
  lemma EnsureBufferSizeSettles(size: nat, minSize: nat, alignment: nat, hasBuffer: bool)
    requires alignment > 0
    ensures var r := EnsureBufferSize(size, minSize, alignment, hasBuffer);
      EnsureBufferSize(r.size, minSize, alignment, true) == r
  {
  }

  // ---------------------------------------------------------------------
  // Findings about the instance path, as written
  // ---------------------------------------------------------------------

  /**
   * `_beginInstances` as written copies the model's vertices to the model
   * offset without advancing it; the result is the new buffer and offset.
   */
  function BeginInstancesModelsAsWritten<V>(models: seq<V>, modelOffset: nat, vertices: seq<V>): (seq<V>, nat)
    requires modelOffset <= |models|
  {
    (WriteAt(models, modelOffset, vertices), modelOffset)
  }

  /** `_batchInstance` as written copies the instance to the instance offset without advancing it. */
  function BatchInstanceAsWritten<W>(instances: seq<W>, instanceOffset: nat, data: seq<W>): (seq<W>, nat)
    requires instanceOffset <= |instances|
  {
    (WriteAt(instances, instanceOffset, data), instanceOffset)
  }

  /**
   * As written, the vertices of an instanced draw call's model are overwritten
   * by the next mesh batched: the call's base vertex then holds that mesh's
   * vertex instead.
   */
  lemma InstancedModelOverwrittenAsWritten<V>(a: V, b: V)
    requires a != b
    ensures var (models, offset) := BeginInstancesModelsAsWritten([], 0, [a]);
      WriteAt(models, offset, [b])[0] != a
  {
  }

  /** As written, a second instance overwrites the first: two batched instances leave only the last one at the call's offset. */
  lemma InstancesOverwrittenAsWritten<W>(x: W, y: W)
    requires x != y
    ensures var (once, offset) := BatchInstanceAsWritten([], 0, [x]);
      var (twice, _) := BatchInstanceAsWritten(once, offset, [y]);
      twice[..1] != [x]
  {
    var (once, offset) := BatchInstanceAsWritten([], 0, [x]);
    var (twice, _) := BatchInstanceAsWritten(once, offset, [y]);
    assert twice[0] == y;
  }

  // ---------------------------------------------------------------------
  // The batcher object
  // ---------------------------------------------------------------------

  /** The indices `_batchMesh` copies from a mesh with indices, moved by the correction (DynamicBatcher.cpp:200-204). */
  method CorrectIndices(meshIndices: seq<u32>, correction: int) returns (block: seq<u32>)
    ensures block == Shift(meshIndices, correction)
  {
    block := meshIndices;
    for i := 0 to |block|
      invariant |block| == |meshIndices|
      invariant forall k :: 0 <= k < i ==> block[k] == Wrap(meshIndices[k] as int + correction)
      invariant forall k :: i <= k < |block| ==> block[k] == meshIndices[k]
    {
      block := block[i := Wrap(block[i] as int + correction)];
    }
  }

  /** The indices `_batchMesh` writes for a mesh without indices: its vertices in order from the correction (DynamicBatcher.cpp:211-214). */
  method RunIndices(count: nat, correction: int) returns (block: seq<u32>)
    ensures block == Iota(correction, count)
  {
    block := [];
    for i := 0 to count
      invariant |block| == i && forall k :: 0 <= k < i ==> block[k] == Wrap(k + correction)
    {
      block := block + [Wrap(i + correction)];
    }
  }

  /** The indices `_batchMesh` emits for `mesh`, built by the loops of DynamicBatcher.cpp:198-218. */
  method MeshIndices<V(0)>(mesh: Mesh<V>, correction: int) returns (block: seq<u32>)
    requires mesh.Valid()
    ensures block == EmittedIndices(mesh.Indices(), mesh.vbCount, correction)
  {
    if mesh.HasIB() {
      block := CorrectIndices(mesh.ib[..mesh.ibCount], correction);
    } else {
      block := RunIndices(mesh.vbCount, correction);
      ShiftIota(0, mesh.vbCount, correction);
    }
  }

  class DynamicBatcher<V(0), W> {
    var started: bool
    var dirty: bool
    var drawCalls: seq<DrawCall>
    /** The model vertex buffer and the number of vertices in use (`m_modelBufferOffset`). */
    var models: seq<V>
    var modelOffset: nat
    /** The index buffer and the number of indices in use (`m_indexBufferOffset`). */
    var indices: seq<u32>
    var indexOffset: nat
    /** The instance buffer and the number of instance elements in use (`m_instanceBufferOffset`). */
    var instances: seq<W>
    var instanceOffset: nat

    /**
     * The offsets stay inside the buffers, and an open draw call starts at or
     * below the model offset and counts exactly the indices written since it
     * began.
     */
    ghost predicate Valid()
      reads this
    {
      modelOffset <= |models| && indexOffset <= |indices| && instanceOffset <= |instances| &&
      (Open() ==> Last().modelVBOffset <= modelOffset && Last().modelIBOffset + Last().modelIBCount == indexOffset)
    }

    /** The last draw call. */
    function Last(): DrawCall
      reads this
      requires drawCalls != []
    {
      drawCalls[|drawCalls| - 1]
    }

    /** A draw call has begun and not ended. */
    predicate Open()
      reads this
    {
      drawCalls != [] && !Last().ended
    }

    /** A new batcher: not started, dirty, no draw calls, empty buffers. */
    constructor()
      ensures Valid() && !started && dirty && drawCalls == []
      ensures models == [] && indices == [] && instances == []
      ensures modelOffset == 0 && indexOffset == 0 && instanceOffset == 0
    {
      started, dirty := false, true;
      drawCalls := [];
      models, indices, instances := [], [], [];
      modelOffset, indexOffset, instanceOffset := 0, 0, 0;
    }

    /** `_begin`: requires not started; rewinds every offset, drops the draw calls, marks dirty and starts. */
    method Begin()
      requires Valid() && !started
      modifies this
      ensures Valid() && started && dirty && drawCalls == []
      ensures modelOffset == 0 && indexOffset == 0 && instanceOffset == 0
      ensures models == old(models) && indices == old(indices) && instances == old(instances)
    {
      modelOffset, instanceOffset, indexOffset := 0, 0, 0;
      drawCalls := [];
      dirty, started := true, true;
    }

    /** `_end`: requires started with the last draw call ended; only clears `started`. */
    method End()
      requires Valid() && started && !Open()
      modifies this`started
      ensures Valid() && !started
    {
      started := false;
    }

    /** `_beginMeshes`: requires started and the last call ended; opens a mesh call at the current offsets. */
    method BeginMeshes(topology: Topology)
      requires Valid() && started && !Open()
      modifies this`drawCalls
      ensures Valid() && Open()
      ensures drawCalls == old(drawCalls) + [DrawCall(topology, modelOffset, indexOffset, 0, 0, 0, false, false)]
    {
      drawCalls := drawCalls + [DrawCall(topology, modelOffset, indexOffset, 0, 0, 0, false, false)];
    }

    /**
     * `_batchMesh`: requires an open mesh call and a mesh with vertices. The
     * emitted indices and then the vertices are written at the current
     * offsets, which advance; the call counts the new indices.
     */
    method BatchMesh(mesh: Mesh<V>)
      requires Valid() && started && Open() && !Last().isInstanced
      requires mesh.Valid() && mesh.HasVB()
      modifies this`drawCalls, this`models, this`modelOffset, this`indices, this`indexOffset
      ensures Valid() && Open()
      ensures var emitted := EmittedIndices(mesh.Indices(), mesh.vbCount, old(modelOffset) - old(Last()).modelVBOffset);
        indices == WriteAt(old(indices), old(indexOffset), emitted) && indexOffset == old(indexOffset) + |emitted| &&
        drawCalls == old(drawCalls)[|old(drawCalls)| - 1 := old(Last()).(modelIBCount := old(Last()).modelIBCount + |emitted|)]
      ensures models == WriteAt(old(models), old(modelOffset), mesh.Vertices()) && modelOffset == old(modelOffset) + mesh.vbCount
    {
      var dc := Last();
      var block := MeshIndices(mesh, modelOffset - dc.modelVBOffset);
      var vertices := mesh.vb[..mesh.vbCount];
      indices := WriteAt(indices, indexOffset, block);
      indexOffset := indexOffset + |block|;
      drawCalls := drawCalls[|drawCalls| - 1 := dc.(modelIBCount := dc.modelIBCount + |block|)];
      models := WriteAt(models, modelOffset, vertices);
      modelOffset := modelOffset + mesh.vbCount;
    }

    /** `_endMeshes`: requires an open mesh call, and ends it. */
    method EndMeshes()
      requires Valid() && started && Open() && !Last().isInstanced
      modifies this`drawCalls
      ensures Valid() && !Open()
      ensures drawCalls == old(drawCalls)[|old(drawCalls)| - 1 := old(Last()).(ended := true)]
    {
      drawCalls := drawCalls[|drawCalls| - 1 := Last().(ended := true)];
    }

    /**
     * `_beginInstances`, with the model offset advanced past the model's
     * vertices: requires started, the last call ended and a model with
     * vertices. Opens an instanced call at the current offsets holding the
     * model's indices (or its vertices in order), uncorrected.
     */
    method BeginInstances(topology: Topology, model: Mesh<V>)
      requires Valid() && started && !Open()
      requires model.Valid() && model.HasVB()
      modifies this`drawCalls, this`models, this`modelOffset, this`indices, this`indexOffset
      ensures Valid() && Open() && Last().isInstanced
      ensures var own := Drawn(model.Indices(), model.vbCount);
        indices == WriteAt(old(indices), old(indexOffset), own) && indexOffset == old(indexOffset) + |own| &&
        drawCalls == old(drawCalls) + [DrawCall(topology, old(modelOffset), old(indexOffset), instanceOffset, |own|, 0, true, false)]
      ensures models == WriteAt(old(models), old(modelOffset), model.Vertices()) && modelOffset == old(modelOffset) + model.vbCount
    {
      var block;
      if model.HasIB() {
        block := model.ib[..model.ibCount];
      } else {
        block := RunIndices(model.vbCount, 0);
      }
      var dc := DrawCall(topology, modelOffset, indexOffset, instanceOffset, |block|, 0, true, false);
      indices := WriteAt(indices, indexOffset, block);
      indexOffset := indexOffset + |block|;
      models := WriteAt(models, modelOffset, model.vb[..model.vbCount]);
      modelOffset := modelOffset + model.vbCount;
      drawCalls := drawCalls + [dc];
    }

    /**
     * `_batchInstance`, with the instance offset advanced: requires an open
     * instanced call and an instance with data, which is written at the
     * instance offset; the call counts one more instance.
     */
    method BatchInstance(instance: seq<W>)
      requires Valid() && started && Open() && Last().isInstanced && |instance| > 0
      modifies this`drawCalls, this`instances, this`instanceOffset
      ensures Valid() && Open()
      ensures instances == WriteAt(old(instances), old(instanceOffset), instance) && instanceOffset == old(instanceOffset) + |instance|
      ensures drawCalls == old(drawCalls)[|old(drawCalls)| - 1 := old(Last()).(instanceCount := old(Last()).instanceCount + 1)]
    {
      instances := WriteAt(instances, instanceOffset, instance);
      instanceOffset := instanceOffset + |instance|;
      var dc := Last();
      drawCalls := drawCalls[|drawCalls| - 1 := dc.(instanceCount := dc.instanceCount + 1)];
    }

    /** `_endInstances`: requires an open instanced call, and ends it. */
    method EndInstances()
      requires Valid() && started && Open() && Last().isInstanced
      modifies this`drawCalls
      ensures Valid() && !Open()
      ensures drawCalls == old(drawCalls)[|old(drawCalls)| - 1 := old(Last()).(ended := true)]
    {
      drawCalls := drawCalls[|drawCalls| - 1 := Last().(ended := true)];
    }
  }
}
