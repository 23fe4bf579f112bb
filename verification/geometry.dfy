/** `Geometry`: draw parameters and the sharing state of a vertex buffer.
    A geometry either owns its buffer (`UNIQUE`), uses another geometry's
    (`SHARED`), or uses the engine-wide quad buffer (`COMMON_RESOURCE`).

    Buffers are identities in a set of live buffer objects; `new` is a
    fresh identity supplied by the caller, `delete` removes one from the set. */
module Geometry {
  import opened Common

  datatype Sharing = Shared | Unique | CommonResource

  /** `GL_TRIANGLES` and `GL_TRIANGLE_STRIP`. */
  const GL_TRIANGLES: nat := 0x0004
  const GL_TRIANGLE_STRIP: nat := 0x0005

  datatype Geometry = Geometry(
    sharing: Sharing,
    primitiveType: nat,
    firstVertex: int,
    numVertices: int,
    vbo: Option<nat>,
    ibo: Option<nat>)

  /** Every geometry, the live buffer objects with the byte sizes they were
      created with, and `RenderResources::quadVbo`. */
  datatype World = World(geometries: map<nat, Geometry>, live: set<nat>, sizes: map<nat, nat>, quad: nat)

  /** `sizeof(GLfloat)`. */
  const FloatBytes: nat := 4

  /** The ownership invariant: a unique geometry's buffer is live and is
      owned by nobody else, and the quad buffer is live and owned by no
      geometry. */
  predicate Owned(w: World)
  {
    && w.quad in w.live
    && (forall id :: id in w.geometries && w.geometries[id].sharing == Unique ==>
          && w.geometries[id].vbo.Some?
          && w.geometries[id].vbo.value in w.live
          && w.geometries[id].vbo.value != w.quad)
    && (forall a, b ::
          (a in w.geometries && b in w.geometries && a != b &&
           w.geometries[a].sharing == Unique && w.geometries[b].sharing == Unique) ==>
          w.geometries[a].vbo != w.geometries[b].vbo)
  }

  /** The buffer a geometry frees when it gives its current one up. */
  function Released(g: Geometry): (r: Option<nat>)
    ensures r.Some? <==> g.sharing == Unique && g.vbo.Some?
  {
    if g.sharing == Unique then g.vbo else None
  }

  /** `delete` of an optional buffer. */
  function Free(live: set<nat>, b: Option<nat>): set<nat>
  {
    if b.Some? then live - {b.value} else live
  }

  /** What one operation did to the heap: the buffer it deleted, if any. */
  datatype Step = Step(world: World, freed: Option<nat>)

  // ---------------------------------------------------------------------
  // Operations on one geometry

  /** The constructor. */
  function NewGeometry(): (g: Geometry)
    ensures g.sharing == Shared && g.primitiveType == GL_TRIANGLES
    ensures g.firstVertex == 0 && g.numVertices == 0
    ensures g.vbo.None? && g.ibo.None?
  {
    Geometry(Shared, GL_TRIANGLES, 0, 0, None, None)
  }

  /** `setDrawParameters`: the three draw parameters, nothing else. */
  function SetDrawParameters(g: Geometry, primitiveType: nat, firstVertex: int, numVertices: int): (r: Geometry)
    ensures r.primitiveType == primitiveType && r.firstVertex == firstVertex && r.numVertices == numVertices
    ensures r.sharing == g.sharing && r.vbo == g.vbo && r.ibo == g.ibo
  {
    g.(primitiveType := primitiveType, firstVertex := firstVertex, numVertices := numVertices)
  }

  /** A `bufferSubData` call: the buffer and the byte range written. */
  datatype Write = Write(buffer: nat, offset: nat, size: nat)

  /** `updateVboData`: the write to the geometry's buffer, or `None` when
      the geometry uses the common quad, which is never altered. Offsets
      and sizes are given in floats and written in bytes. */
  function UpdateVboData(g: Geometry, floatOffset: u32, floatSize: u32): (r: Option<Write>)
    requires g.sharing != CommonResource ==> g.vbo.Some?
    ensures r.None? <==> g.sharing == CommonResource
    ensures r.Some? ==> r.value.buffer == g.vbo.value
    ensures r.Some? ==> r.value.offset == floatOffset * FloatBytes && r.value.size == floatSize * FloatBytes
  {
    if g.sharing != CommonResource then Some(Write(g.vbo.value, floatOffset * FloatBytes, floatSize * FloatBytes)) else None
  }

  /** `bind`: the index buffer, then the vertex buffer, skipping null ones. */
  function Bind(g: Geometry): (r: seq<nat>)
    ensures |r| <= 2
    ensures g.ibo.Some? && g.vbo.Some? ==> r == [g.ibo.value, g.vbo.value]
    ensures g.ibo.Some? && g.vbo.None? ==> r == [g.ibo.value]
    ensures g.ibo.None? && g.vbo.Some? ==> r == [g.vbo.value]
    ensures g.ibo.None? && g.vbo.None? ==> r == []
  {
    (if g.ibo.Some? then [g.ibo.value] else []) + (if g.vbo.Some? then [g.vbo.value] else [])
  }

  // ---------------------------------------------------------------------
  // Operations that change ownership

  /** Adds a freshly constructed geometry. */
  function Construct(w: World, id: nat): (r: World)
    requires id !in w.geometries
    ensures r.geometries == w.geometries[id := NewGeometry()] && r.live == w.live && r.quad == w.quad
  {
    w.(geometries := w.geometries[id := NewGeometry()])
  }

  /** `createCustomVbo`: the geometry becomes unique with a new buffer; a
      buffer it already owned is deleted first. */
  function CreateCustomVbo(w: World, id: nat, newVbo: nat, numFloats: u32): (r: Step)
    requires id in w.geometries && newVbo !in w.live
    ensures var g := w.geometries[id];
            && r.freed == Released(g)
            && r.world.geometries == w.geometries[id := g.(sharing := Unique, vbo := Some(newVbo))]
            && r.world.live == Free(w.live, Released(g)) + {newVbo}
            && r.world.sizes == w.sizes[newVbo := numFloats * FloatBytes]
            && r.world.quad == w.quad
  {
    var g := w.geometries[id];
    var live := Free(w.live, Released(g)) + {newVbo};
    var sizes := w.sizes[newVbo := numFloats * FloatBytes];
    Step(World(w.geometries[id := g.(sharing := Unique, vbo := Some(newVbo))], live, sizes, w.quad), Released(g))
  }

  /** `shareVbo`, as written: the geometry deletes a buffer it owns and
      then takes the other geometry's pointer, read after the delete. */
  function ShareVboAsWritten(w: World, id: nat, other: nat): (r: Step)
    requires id in w.geometries && other in w.geometries
    ensures var g := w.geometries[id];
            && r.freed == Released(g)
            && r.world.geometries == w.geometries[id := g.(sharing := Shared, vbo := w.geometries[other].vbo)]
            && r.world.live == Free(w.live, Released(g))
  {
    var g := w.geometries[id];
    var after := w.geometries[id := g.(sharing := Shared)];
    var src := after[other];
    Step(World(after[id := after[id].(vbo := src.vbo)], Free(w.live, Released(g)), w.sizes, w.quad), Released(g))
  }

  /** A unique geometry that shares with itself ends up pointing at the
      buffer it has just deleted. */
  lemma SelfShareDangles(w: World, id: nat)
    requires Owned(w) && id in w.geometries && w.geometries[id].sharing == Unique
    ensures var r := ShareVboAsWritten(w, id, id).world;
            && r.geometries[id].vbo == w.geometries[id].vbo
            && r.geometries[id].vbo.Some?
            && r.geometries[id].vbo.value !in r.live
            && r.geometries[id].vbo.value in w.live
  {
  }

  /** `shareVbo`, with sharing one's own buffer a no-op: a unique geometry
      asked to share the very buffer it owns keeps it. */
  function ShareVbo(w: World, id: nat, other: nat): (r: Step)
    requires id in w.geometries && other in w.geometries
    ensures var g := w.geometries[id];
            var keep := g.sharing == Unique && w.geometries[other].vbo == g.vbo;
            && (keep ==> r == Step(w, None))
            && (!keep ==> r == ShareVboAsWritten(w, id, other))
  {
    var g := w.geometries[id];
    if g.sharing == Unique && w.geometries[other].vbo == g.vbo then Step(w, None)
    else ShareVboAsWritten(w, id, other)
  }

  /** After sharing, the geometry uses the other one's buffer, which is
      still live whenever it was live before. */
  lemma ShareVboKeepsBufferLive(w: World, id: nat, other: nat)
    requires Owned(w) && id in w.geometries && other in w.geometries
    requires w.geometries[other].vbo.Some? ==> w.geometries[other].vbo.value in w.live
    ensures var r := ShareVbo(w, id, other).world;
            && r.geometries[id].vbo == w.geometries[other].vbo
            && (r.geometries[id].vbo.Some? ==> r.geometries[id].vbo.value in r.live)
  {
  }

  /** `makeSharedQuad`: the geometry uses the quad buffer and draws it as a
      four-vertex strip, deleting a buffer it owned. */
  function MakeSharedQuad(w: World, id: nat): (r: Step)
    requires id in w.geometries
    ensures var g := w.geometries[id];
            && r.freed == Released(g)
            && id in r.world.geometries
            && r.world.geometries[id].sharing == CommonResource
            && r.world.geometries[id].vbo == Some(w.quad)
            && r.world.geometries[id].ibo == g.ibo
            && r.world.geometries[id].primitiveType == GL_TRIANGLE_STRIP
            && r.world.geometries[id].firstVertex == 0 && r.world.geometries[id].numVertices == 4
            && r.world.geometries == w.geometries[id := r.world.geometries[id]]
            && r.world.live == Free(w.live, Released(g))
  {
    var g := w.geometries[id];
    var quad := SetDrawParameters(g.(sharing := CommonResource, vbo := Some(w.quad)), GL_TRIANGLE_STRIP, 0, 4);
    Step(World(w.geometries[id := quad], Free(w.live, Released(g)), w.sizes, w.quad), Released(g))
  }

  /** The destructor: only a unique geometry deletes its buffer. */
  function Destroy(w: World, id: nat): (r: Step)
    requires id in w.geometries
    ensures r.freed == Released(w.geometries[id])
    ensures r.world.geometries == w.geometries - {id}
    ensures r.world.live == Free(w.live, Released(w.geometries[id]))
  {
    var g := w.geometries[id];
    Step(World(w.geometries - {id}, Free(w.live, Released(g)), w.sizes, w.quad), Released(g))
  }

  // ---------------------------------------------------------------------
  // The invariant

  /** A deletion only ever hits a live buffer that no other geometry owns,
      so no buffer is deleted twice. */
  predicate SafeFree(w: World, s: Step, id: nat)
    requires id in w.geometries
  {
    s.freed.Some? ==>
      && s.freed.value in w.live
      && s.freed.value != w.quad
      && forall o :: o in w.geometries && o != id && w.geometries[o].sharing == Unique ==>
           w.geometries[o].vbo != s.freed
  }

  lemma ConstructKeepsOwned(w: World, id: nat)
    requires Owned(w) && id !in w.geometries
    ensures Owned(Construct(w, id))
  {
  }

  lemma CreateCustomVboKeepsOwned(w: World, id: nat, newVbo: nat, numFloats: u32)
    requires Owned(w) && id in w.geometries && newVbo !in w.live
    ensures Owned(CreateCustomVbo(w, id, newVbo, numFloats).world)
    ensures SafeFree(w, CreateCustomVbo(w, id, newVbo, numFloats), id)
  {
    var r := CreateCustomVbo(w, id, newVbo, numFloats).world;
    forall a, b | a in r.geometries && b in r.geometries && a != b &&
                  r.geometries[a].sharing == Unique && r.geometries[b].sharing == Unique
      ensures r.geometries[a].vbo != r.geometries[b].vbo
    {
      if a == id {
        assert w.geometries[b].vbo.value in w.live;
      } else if b == id {
        assert w.geometries[a].vbo.value in w.live;
      }
    }
  }

  lemma ShareVboKeepsOwned(w: World, id: nat, other: nat)
    requires Owned(w) && id in w.geometries && other in w.geometries
    ensures Owned(ShareVbo(w, id, other).world) && SafeFree(w, ShareVbo(w, id, other), id)
    ensures Owned(ShareVboAsWritten(w, id, other).world) && SafeFree(w, ShareVboAsWritten(w, id, other), id)
  {
  }

  lemma MakeSharedQuadKeepsOwned(w: World, id: nat)
    requires Owned(w) && id in w.geometries
    ensures Owned(MakeSharedQuad(w, id).world) && SafeFree(w, MakeSharedQuad(w, id), id)
  {
  }

  lemma DestroyKeepsOwned(w: World, id: nat)
    requires Owned(w) && id in w.geometries
    ensures Owned(Destroy(w, id).world) && SafeFree(w, Destroy(w, id), id)
  {
  }
}
