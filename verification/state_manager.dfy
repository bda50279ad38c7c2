/**
 * The rendering state stack of the editor's state manager: a current state
 * (samplers, textures, blending, constant buffers, program, render target
 * and the render targets and constant buffers it locked) and a stack of
 * saved states. The render-target and constant-buffer caches are modelled
 * by the sets of ids they hold locked; the device calls of `commit` are not
 * modelled.
 */
module StateManagers {
  import opened Options
  import Colors

  /** `SbRenderTargetBundle`, `(size_t)-1` on a 64-bit target. */
  const RenderTargetBundle: nat := 0xFFFF_FFFF_FFFF_FFFF

  datatype SamplerFilter = Point | Linear
  datatype SamplerAddressMode = Wrap | Mirror | Clamp | Border | MirrorOnce
  datatype Sampler = Sampler(filter: SamplerFilter, addressModeU: SamplerAddressMode, addressModeV: SamplerAddressMode, borderColor: Colors.Rgba)

  datatype Blending = Opaque | Normal | NpNormal | Add | NpAdd | Multiply | NpMultiply

  /** The device interfaces of a render target, as a handle; a texture that
      is not a render target carries `NoInterfaces`. */
  datatype Interfaces = NoInterfaces | RenderTargetInterfaces(handle: nat)

  datatype ProgramId = ProgramId(bundleId: nat, programId: nat)
  datatype TextureId = TextureId(bundleId: nat, textureId: nat, interfaces: Interfaces)
  datatype RenderTarget = RenderTarget(textureId: nat, interfaces: Interfaces)
  /** A constant buffer: the device buffer (a handle), its cache id and size. */
  datatype ConstantBuffer = ConstantBuffer(buffer: nat, id: nat, size: nat)

  datatype RenderingState = RenderingState(
    vsSamplers: map<nat, Sampler>,
    psSamplers: map<nat, Sampler>,
    vsTextures: map<nat, TextureId>,
    psTextures: map<nat, TextureId>,
    blending: Option<Blending>,
    vsConstantBuffer: Option<ConstantBuffer>,
    psConstantBuffer: Option<ConstantBuffer>,
    programId: Option<ProgramId>,
    renderTarget: Option<RenderTarget>,
    lockedRenderTargets: map<nat, Interfaces>,
    lockedConstantBuffers: set<nat>)

  /** A default-constructed state: every map and set empty, every option empty. */
  const EmptyState := RenderingState(map[], map[], map[], map[], None, None, None, None, None, map[], {})

  /** The state `pushState` leaves current: the same bindings, but no locks
      and no constant buffers. */
  function Pushed(s: RenderingState): (r: RenderingState)
    ensures r.lockedRenderTargets == map[] && r.lockedConstantBuffers == {}
    ensures r.vsConstantBuffer.None? && r.psConstantBuffer.None?
    ensures r.renderTarget == s.renderTarget && r.vsTextures == s.vsTextures && r.psTextures == s.psTextures
  {
    s.(lockedRenderTargets := map[], lockedConstantBuffers := {}, vsConstantBuffer := None, psConstantBuffer := None)
  }

  /** The render-target ids locked by the states of a stack. */
  function RenderTargetLocks(stack: seq<RenderingState>): set<nat>
  {
    if stack == [] then {} else RenderTargetLocks(stack[..|stack| - 1]) + stack[|stack| - 1].lockedRenderTargets.Keys
  }

  /** The constant-buffer ids locked by the states of a stack. */
  function ConstantBufferLocks(stack: seq<RenderingState>): set<nat>
  {
    if stack == [] then {} else ConstantBufferLocks(stack[..|stack| - 1]) + stack[|stack| - 1].lockedConstantBuffers
  }

  /** What a state refers to is locked: its render target and its
      render-target textures are among `targets` (the render targets locked
      at its level or below), and its constant buffers are its own locks. */
  predicate Refers(s: RenderingState, targets: set<nat>)
  {
    (s.renderTarget.Some? ==> s.renderTarget.value.textureId in targets) &&
    (forall slot :: slot in s.vsTextures && s.vsTextures[slot].bundleId == RenderTargetBundle ==> s.vsTextures[slot].textureId in targets) &&
    (forall slot :: slot in s.psTextures && s.psTextures[slot].bundleId == RenderTargetBundle ==> s.psTextures[slot].textureId in targets) &&
    (s.vsConstantBuffer.Some? ==> s.vsConstantBuffer.value.id in s.lockedConstantBuffers) &&
    (s.psConstantBuffer.Some? ==> s.psConstantBuffer.value.id in s.lockedConstantBuffers)
  }

  /** Each state of the stack locks ids no state below it locks, and refers
      only to what is locked at its level or below. */
  predicate Nested(stack: seq<RenderingState>)
  {
    stack == [] ||
    var below := stack[..|stack| - 1];
    var top := stack[|stack| - 1];
    Nested(below) &&
    top.lockedRenderTargets.Keys !! RenderTargetLocks(below) &&
    top.lockedConstantBuffers !! ConstantBufferLocks(below) &&
    Refers(top, RenderTargetLocks(stack))
  }

  /** Pushing keeps the stack nested and locks nothing new. */
  lemma NestedPush(stack: seq<RenderingState>)
    requires Nested(stack) && stack != []
    ensures var pushed := stack + [Pushed(stack[|stack| - 1])];
      Nested(pushed) &&
      RenderTargetLocks(pushed) == RenderTargetLocks(stack) &&
      ConstantBufferLocks(pushed) == ConstantBufferLocks(stack)
  {
    var pushed := stack + [Pushed(stack[|stack| - 1])];
    assert pushed[..|pushed| - 1] == stack;
    assert stack[..|stack| - 1] + [stack[|stack| - 1]] == stack;
  }

  /** Popping the top leaves exactly the ids the states below lock: the top's
      locks are the only ones released. */
  lemma NestedPop(stack: seq<RenderingState>)
    requires Nested(stack) && stack != []
    ensures var below := stack[..|stack| - 1];
      Nested(below) &&
      RenderTargetLocks(below) == RenderTargetLocks(stack) - stack[|stack| - 1].lockedRenderTargets.Keys &&
      ConstantBufferLocks(below) == ConstantBufferLocks(stack) - stack[|stack| - 1].lockedConstantBuffers
  {
  }

  /** Replacing the current state (on top of `saved`) by one that locks
      what it locked and new ids no state locks, and refers only to what is
      then locked, keeps the stack nested and adds the new locks. */
  lemma NestedReplaceTop(saved: seq<RenderingState>, current: RenderingState, top: RenderingState, newTargets: set<nat>, newBuffers: set<nat>)
    requires Nested(saved + [current])
    requires top.lockedRenderTargets.Keys == current.lockedRenderTargets.Keys + newTargets && newTargets !! RenderTargetLocks(saved + [current])
    requires top.lockedConstantBuffers == current.lockedConstantBuffers + newBuffers && newBuffers !! ConstantBufferLocks(saved + [current])
    requires Refers(top, RenderTargetLocks(saved + [current]) + newTargets)
    ensures Nested(saved + [top])
    ensures RenderTargetLocks(saved + [top]) == RenderTargetLocks(saved + [current]) + newTargets
    ensures ConstantBufferLocks(saved + [top]) == ConstantBufferLocks(saved + [current]) + newBuffers
  {
    assert (saved + [current])[..|saved|] == saved;
    assert (saved + [top])[..|saved|] == saved;
  }

  /** The unlocking loop of `popState`: every id of `ids` is unlocked, in
      any order. */
  method Unlock(held: set<nat>, ids: set<nat>) returns (rest: set<nat>)
    ensures rest == held - ids
  {
    rest := held;
    var todo := ids;
    while todo != {}
      invariant todo <= ids && rest == held - (ids - todo)
      decreases todo
    {
      var id :| id in todo;
      rest := rest - {id};
      todo := todo - {id};
    }
  }

  /** Whether the constant buffer `current` can be updated in place for data
      of `size` bytes, instead of taking a new one from the cache. */
  predicate Reusable(current: Option<ConstantBuffer>, size: nat)
  {
    current.Some? && current.value.size == size
  }

  class StateManager {
    var saved: seq<RenderingState>
    var current: RenderingState
    /** The ids the render-target cache holds locked. */
    var renderTargetsHeld: set<nat>
    /** The ids the constant-buffer cache holds locked. */
    var constantBuffersHeld: set<nat>

    /** The saved states, then the current one. */
    function Stack(): seq<RenderingState>
      reads this
    {
      saved + [current]
    }

    /** The stack is nested and the caches hold locked exactly what its
        states lock. */
    ghost predicate Valid()
      reads this
    {
      Nested(Stack()) &&
      renderTargetsHeld == RenderTargetLocks(Stack()) &&
      constantBuffersHeld == ConstantBufferLocks(Stack())
    }

    constructor()
      ensures Valid() && saved == [] && current == EmptyState
      ensures renderTargetsHeld == {} && constantBuffersHeld == {}
    {
      saved := [];
      current := EmptyState;
      renderTargetsHeld := {};
      constantBuffersHeld := {};
      new;
      assert Stack() == [EmptyState];
      assert [EmptyState][..0] == [];
      assert Nested([]);
      assert Refers(EmptyState, {});
      assert Nested([EmptyState]);
    }

    /** `pushState()`: the current state is saved; the new current state
        keeps its bindings, render target included, but locks nothing and
        has no constant buffers. */
    method PushState()
      requires Valid()
      modifies this
      ensures Valid()
      ensures saved == old(saved) + [old(current)] && current == Pushed(old(current))
      ensures renderTargetsHeld == old(renderTargetsHeld) && constantBuffersHeld == old(constantBuffersHeld)
    {
      NestedPush(Stack());
      saved := saved + [current];
      current := Pushed(current);
    }

    /** `popState()`: only after a push; every render target and constant
        buffer the current state locked is unlocked, and the last saved
        state becomes current again. */
    method PopState()
      requires Valid() && |saved| > 0
      modifies this
      ensures Valid()
      ensures saved == old(saved[..|saved| - 1]) && current == old(saved[|saved| - 1])
      ensures renderTargetsHeld == old(renderTargetsHeld) - old(current.lockedRenderTargets.Keys)
      ensures constantBuffersHeld == old(constantBuffersHeld) - old(current.lockedConstantBuffers)
    {
      NestedPop(Stack());
      assert Stack()[..|Stack()| - 1] == saved;
      NestedPop(saved);
      assert saved[..|saved| - 1] + [saved[|saved| - 1]] == saved;
      renderTargetsHeld := Unlock(renderTargetsHeld, current.lockedRenderTargets.Keys);
      constantBuffersHeld := Unlock(constantBuffersHeld, current.lockedConstantBuffers);
      current := saved[|saved| - 1];
      saved := saved[..|saved| - 1];
    }

    /** Puts `top` in place of the current state, whose locks it extends
        with `newTargets` and `newBuffers`, ids no state locked. */
    method ReplaceCurrent(top: RenderingState, newTargets: set<nat>, newBuffers: set<nat>)
      requires Valid()
      requires top.lockedRenderTargets.Keys == current.lockedRenderTargets.Keys + newTargets && newTargets !! renderTargetsHeld
      requires top.lockedConstantBuffers == current.lockedConstantBuffers + newBuffers && newBuffers !! constantBuffersHeld
      requires Refers(top, RenderTargetLocks(Stack()) + newTargets)
      modifies this
      ensures Valid() && saved == old(saved) && current == top
      ensures renderTargetsHeld == old(renderTargetsHeld) + newTargets
      ensures constantBuffersHeld == old(constantBuffersHeld) + newBuffers
    {
      NestedReplaceTop(saved, current, top, newTargets, newBuffers);
      current := top;
      renderTargetsHeld := renderTargetsHeld + newTargets;
      constantBuffersHeld := constantBuffersHeld + newBuffers;
    }

    /** `lockRenderTarget(width, height)`: only after a push; the cache hands
        out `id` (an entry it did not hold locked) with its interfaces, the
        current state records the lock, and `id` is returned. */
    method LockRenderTarget(id: nat, interfaces: Interfaces) returns (r: nat)
      requires Valid() && |saved| > 0 && id !in renderTargetsHeld
      modifies this
      ensures Valid() && saved == old(saved) && r == id
      ensures current == old(current).(lockedRenderTargets := old(current.lockedRenderTargets)[id := interfaces])
      ensures renderTargetsHeld == old(renderTargetsHeld) + {id} && constantBuffersHeld == old(constantBuffersHeld)
    {
      ReplaceCurrent(current.(lockedRenderTargets := current.lockedRenderTargets[id := interfaces]), {id}, {});
      r := id;
    }

    /** `setProgram(bundleId, programId)`: only after a push. */
    method SetProgram(bundleId: nat, programId: nat)
      requires Valid() && |saved| > 0
      modifies this
      ensures Valid() && saved == old(saved) && current == old(current).(programId := Some(ProgramId(bundleId, programId)))
      ensures renderTargetsHeld == old(renderTargetsHeld) && constantBuffersHeld == old(constantBuffersHeld)
    {
      ReplaceCurrent(current.(programId := Some(ProgramId(bundleId, programId))), {}, {});
    }

    /** `setBlending(b)`: only after a push. */
    method SetBlending(b: Blending)
      requires Valid() && |saved| > 0
      modifies this
      ensures Valid() && saved == old(saved) && current == old(current).(blending := Some(b))
      ensures renderTargetsHeld == old(renderTargetsHeld) && constantBuffersHeld == old(constantBuffersHeld)
    {
      ReplaceCurrent(current.(blending := Some(b)), {}, {});
    }

    /** `setRenderTarget(id)`: only after a push, and only for a render
        target the current state locked; its interfaces are those recorded
        with the lock. */
    method SetRenderTarget(id: nat)
      requires Valid() && |saved| > 0 && id in current.lockedRenderTargets
      modifies this
      ensures Valid() && saved == old(saved)
      ensures current == old(current).(renderTarget := Some(RenderTarget(id, old(current.lockedRenderTargets[id]))))
      ensures renderTargetsHeld == old(renderTargetsHeld) && constantBuffersHeld == old(constantBuffersHeld)
    {
      ReplaceCurrent(current.(renderTarget := Some(RenderTarget(id, current.lockedRenderTargets[id]))), {}, {});
    }

    /** `setVSSampler(sampler, slot)`: only after a push. */
    method SetVSSampler(sampler: Sampler, slot: nat)
      requires Valid() && |saved| > 0
      modifies this
      ensures Valid() && saved == old(saved) && current == old(current).(vsSamplers := old(current.vsSamplers)[slot := sampler])
      ensures renderTargetsHeld == old(renderTargetsHeld) && constantBuffersHeld == old(constantBuffersHeld)
    {
      ReplaceCurrent(current.(vsSamplers := current.vsSamplers[slot := sampler]), {}, {});
    }

    /** `setPSSampler(sampler, slot)`: only after a push. */
    method SetPSSampler(sampler: Sampler, slot: nat)
      requires Valid() && |saved| > 0
      modifies this
      ensures Valid() && saved == old(saved) && current == old(current).(psSamplers := old(current.psSamplers)[slot := sampler])
      ensures renderTargetsHeld == old(renderTargetsHeld) && constantBuffersHeld == old(constantBuffersHeld)
    {
      ReplaceCurrent(current.(psSamplers := current.psSamplers[slot := sampler]), {}, {});
    }

    /** The texture binding `setVSTexture`/`setPSTexture` record: a texture
        of the render-target bundle carries the interfaces of its lock. */
    function Binding(bundleId: nat, textureId: nat): (t: TextureId)
      requires bundleId == RenderTargetBundle ==> textureId in current.lockedRenderTargets
      reads this
      ensures t.bundleId == bundleId && t.textureId == textureId
      ensures t.interfaces == if bundleId == RenderTargetBundle then current.lockedRenderTargets[textureId] else NoInterfaces
    {
      TextureId(bundleId, textureId, if bundleId == RenderTargetBundle then current.lockedRenderTargets[textureId] else NoInterfaces)
    }

    /** `setVSTexture(bundleId, textureId, slot)`: only after a push, and a
        render-target texture only when the current state locked it. */
    method SetVSTexture(bundleId: nat, textureId: nat, slot: nat)
      requires Valid() && |saved| > 0
      requires bundleId == RenderTargetBundle ==> textureId in current.lockedRenderTargets
      modifies this
      ensures Valid() && saved == old(saved)
      ensures current == old(current).(vsTextures := old(current.vsTextures)[slot := old(Binding(bundleId, textureId))])
      ensures renderTargetsHeld == old(renderTargetsHeld) && constantBuffersHeld == old(constantBuffersHeld)
    {
      ReplaceCurrent(current.(vsTextures := current.vsTextures[slot := Binding(bundleId, textureId)]), {}, {});
    }

    /** `setPSTexture(bundleId, textureId, slot)`: as for the vertex shader. */
    method SetPSTexture(bundleId: nat, textureId: nat, slot: nat)
      requires Valid() && |saved| > 0
      requires bundleId == RenderTargetBundle ==> textureId in current.lockedRenderTargets
      modifies this
      ensures Valid() && saved == old(saved)
      ensures current == old(current).(psTextures := old(current.psTextures)[slot := old(Binding(bundleId, textureId))])
      ensures renderTargetsHeld == old(renderTargetsHeld) && constantBuffersHeld == old(constantBuffersHeld)
    {
      ReplaceCurrent(current.(psTextures := current.psTextures[slot := Binding(bundleId, textureId)]), {}, {});
    }

    /** `setVSConstantBuffer(pBuffer, size)`: only after a push and for a
        positive size. The current buffer is updated in place when its size
        matches; otherwise the cache hands out `buffer` with `id` (an entry
        it did not hold locked), which becomes current and is locked. */
    method SetVSConstantBuffer(size: nat, buffer: nat, id: nat)
      requires Valid() && |saved| > 0 && size > 0
      requires !Reusable(current.vsConstantBuffer, size) ==> id !in constantBuffersHeld
      modifies this
      ensures Valid() && saved == old(saved) && renderTargetsHeld == old(renderTargetsHeld)
      ensures Reusable(old(current.vsConstantBuffer), size) ==> current == old(current) && constantBuffersHeld == old(constantBuffersHeld)
      ensures !Reusable(old(current.vsConstantBuffer), size) ==>
        current == old(current).(vsConstantBuffer := Some(ConstantBuffer(buffer, id, size)), lockedConstantBuffers := old(current.lockedConstantBuffers) + {id}) &&
        constantBuffersHeld == old(constantBuffersHeld) + {id}
    {
      if Reusable(current.vsConstantBuffer, size) {
        return;
      }
      ReplaceCurrent(current.(vsConstantBuffer := Some(ConstantBuffer(buffer, id, size)), lockedConstantBuffers := current.lockedConstantBuffers + {id}), {}, {id});
    }

    /** `setPSConstantBuffer(pBuffer, size)`: as for the vertex shader. */
    method SetPSConstantBuffer(size: nat, buffer: nat, id: nat)
      requires Valid() && |saved| > 0 && size > 0
      requires !Reusable(current.psConstantBuffer, size) ==> id !in constantBuffersHeld
      modifies this
      ensures Valid() && saved == old(saved) && renderTargetsHeld == old(renderTargetsHeld)
      ensures Reusable(old(current.psConstantBuffer), size) ==> current == old(current) && constantBuffersHeld == old(constantBuffersHeld)
      ensures !Reusable(old(current.psConstantBuffer), size) ==>
        current == old(current).(psConstantBuffer := Some(ConstantBuffer(buffer, id, size)), lockedConstantBuffers := old(current.lockedConstantBuffers) + {id}) &&
        constantBuffersHeld == old(constantBuffersHeld) + {id}
    {
      if Reusable(current.psConstantBuffer, size) {
        return;
      }
      ReplaceCurrent(current.(psConstantBuffer := Some(ConstantBuffer(buffer, id, size)), lockedConstantBuffers := current.lockedConstantBuffers + {id}), {}, {id});
    }
  }
}
