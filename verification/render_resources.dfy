/** The parts of `RenderResources` with rules of their own: the registry of
    batched shader variants, the per-program camera uniform records, the
    current camera, the decision to compile a batched shader twice and the
    default vertex-attribute layouts.

    Pointers are identities (`nat`); a null pointer is `None`. */
module RenderResources {
  import opened Common
  import SP = ShaderProgram

  // ---------------------------------------------------------------------
  // Batched shader registry

  /** `batchedShaders_`: program to its batched variant. */
  type Registry = map<nat, nat>

  /** `batchedShader`: the registered variant, or null. */
  function BatchedShader(reg: Registry, shader: nat): (r: Option<nat>)
    ensures r.Some? <==> shader in reg
    ensures r.Some? ==> r.value == reg[shader]
  {
    if shader in reg then Some(reg[shader]) else None
  }

  /** `registerBatchedShader`: both programs exist and differ. The hash map
      does not overwrite an existing key; the rehash on a high load factor
      changes no contents. */
  function RegisterBatchedShader(reg: Registry, shader: nat, batched: nat): (r: (Registry, bool))
    requires shader != batched
    ensures r.1 <==> shader !in reg
    ensures r.1 ==> r.0 == reg[shader := batched]
    ensures !r.1 ==> r.0 == reg
  {
    if shader in reg then (reg, false) else (reg[shader := batched], true)
  }

  /** `unregisterBatchedShader`: removes the key; reports whether it was there. */
  function UnregisterBatchedShader(reg: Registry, shader: nat): (r: (Registry, bool))
    ensures r.1 <==> shader in reg
    ensures r.0 == reg - {shader}
  {
    (reg - {shader}, shader in reg)
  }

  /** A registered pair is found until it is unregistered; other keys are
      not affected by either call. */
  lemma RegistryRoundTrip(reg: Registry, shader: nat, batched: nat, other: nat)
    requires shader != batched && shader !in reg && other != shader
    ensures var added := RegisterBatchedShader(reg, shader, batched).0;
            && BatchedShader(added, shader) == Some(batched)
            && BatchedShader(UnregisterBatchedShader(added, shader).0, shader) == None
            && BatchedShader(added, other) == BatchedShader(reg, other)
            && BatchedShader(UnregisterBatchedShader(added, shader).0, other) == BatchedShader(reg, other)
  {
  }

  // ---------------------------------------------------------------------
  // Camera uniforms

  /** A camera: its identity, the frames its matrices last changed on, and
      the matrices as the 64 bytes each that are copied. */
  datatype Camera = Camera(id: nat, updateFrameProjectionMatrix: nat, updateFrameViewMatrix: nat,
                           projection: seq<byte>, view: seq<byte>)

  /** The dirty flags `updateCameraUniforms` can raise on a program's
      camera uniforms: all of them, or the projection or view matrix alone. */
  datatype Dirty = Dirty(all: bool, projection: bool, view: bool)

  /** `CameraUniformData`: the camera and frames a program's uniforms were
      last updated for. */
  datatype CameraUniformData = CameraUniformData(camera: nat, updateFrameProjectionMatrix: nat,
                                                 updateFrameViewMatrix: nat, dirty: Dirty)

  type CameraMap = map<nat, CameraUniformData>

  /** `removeCameraUniformData`: nothing happens on an empty map. */
  function RemoveCameraUniformData(m: CameraMap, program: nat): (r: (CameraMap, bool))
    ensures |m| == 0 ==> r == (m, false)
    ensures r.1 <==> program in m
    ensures r.0 == m - {program}
  {
    if |m| == 0 then (m, false) else (m - {program}, program in m)
  }

  /** `setCurrentCamera`: null selects the default camera. */
  function SetCurrentCamera(camera: Option<nat>, defaultCamera: nat): (r: nat)
    ensures camera.None? ==> r == defaultCamera
    ensures camera.Some? ==> r == camera.value
  {
    if camera.Some? then camera.value else defaultCamera
  }

  /** One entry's update: a program last updated for another camera gets
      every uniform dirtied, otherwise only the matrices that changed on a
      later frame; the entry then records the current camera and frames. */
  function UpdateEntry(d: CameraUniformData, cam: Camera): (r: CameraUniformData)
    ensures r.camera == cam.id
    ensures r.updateFrameProjectionMatrix == cam.updateFrameProjectionMatrix
    ensures r.updateFrameViewMatrix == cam.updateFrameViewMatrix
    ensures d.camera != cam.id ==> r.dirty.all
    ensures d.camera == cam.id ==>
              && r.dirty.all == d.dirty.all
              && (r.dirty.projection <==> d.dirty.projection || d.updateFrameProjectionMatrix < cam.updateFrameProjectionMatrix)
              && (r.dirty.view <==> d.dirty.view || d.updateFrameViewMatrix < cam.updateFrameViewMatrix)
    // a flag already raised is never cleared
    ensures (d.dirty.all ==> r.dirty.all) && (d.dirty.projection ==> r.dirty.projection) && (d.dirty.view ==> r.dirty.view)
  {
    var dirty :=
      if d.camera != cam.id then d.dirty.(all := true)
      else d.dirty.(projection := d.dirty.projection || d.updateFrameProjectionMatrix < cam.updateFrameProjectionMatrix,
                    view := d.dirty.view || d.updateFrameViewMatrix < cam.updateFrameViewMatrix);
    CameraUniformData(cam.id, cam.updateFrameProjectionMatrix, cam.updateFrameViewMatrix, dirty)
  }

  datatype CameraUpdate = CameraUpdate(entries: CameraMap, buffer: seq<byte>)

  /** `updateCameraUniforms`: the shared buffer receives the projection
      then the view matrix, and every entry is brought up to date. */
  function UpdateCameraUniforms(m: CameraMap, cam: Camera): (r: CameraUpdate)
    requires |cam.projection| == 64 && |cam.view| == 64
    ensures |r.buffer| == 128
    ensures r.buffer[..64] == cam.projection && r.buffer[64..] == cam.view
    ensures r.entries.Keys == m.Keys
    ensures forall p :: p in m ==> r.entries[p] == UpdateEntry(m[p], cam)
  {
    CameraUpdate(map p | p in m :: UpdateEntry(m[p], cam), cam.projection + cam.view)
  }

  /** An immediate second update for the same camera dirties nothing more
      and records nothing new. */
  lemma UpdateCameraUniformsIdempotent(m: CameraMap, cam: Camera)
    requires |cam.projection| == 64 && |cam.view| == 64
    ensures var once := UpdateCameraUniforms(m, cam);
            UpdateCameraUniforms(once.entries, cam) == once
  {
    var once := UpdateCameraUniforms(m, cam);
    var twice := UpdateCameraUniforms(once.entries, cam);
    forall p | p in once.entries
      ensures twice.entries[p] == once.entries[p]
    {
      assert once.entries[p] == UpdateEntry(m[p], cam);
    }
  }

  // ---------------------------------------------------------------------
  // Compiling batched shaders

  function Clamp(v: int, lo: int, hi: int): (r: int)
    requires lo <= hi
    ensures lo <= r <= hi
    ensures lo <= v <= hi ==> r == v
    ensures v < lo ==> r == lo
    ensures v > hi ==> r == hi
  {
    if v < lo then lo else if v > hi then hi else v
  }

  /** The driver's `MAX_UNIFORM_BLOCK_SIZE`, clamped to [0, 64 KiB]. */
  function MaxUniformBlockSize(reported: i32): (r: int)
    ensures 0 <= r <= 64 * 1024
  {
    Clamp(reported, 0, 64 * 1024)
  }

  /** A program is compiled twice when the uniform buffer is small and the
      program keeps no uniforms in blocks. */
  predicate CompileTwice(maxUniformBlockSize: int, introspection: SP.Introspection)
  {
    maxUniformBlockSize < 128 * 1024 && introspection == SP.NoUniformsInBlocks
  }

  /** Since the size is clamped, the size test never decides anything. */
  lemma CompileTwiceOnlyForBatched(reported: i32, introspection: SP.Introspection)
    ensures CompileTwice(MaxUniformBlockSize(reported), introspection) <==> introspection == SP.NoUniformsInBlocks
  {
  }

  /** C's `/`, which rounds toward zero. */
  function DivTrunc(a: int, b: int): (q: int)
    requires b != 0
    ensures a >= 0 && b > 0 ==> q == a / b
    ensures a >= 0 && b < 0 ==> q == -(a / -b)
  {
    if (a >= 0) == (b > 0) then
      (if a >= 0 then a / b else (-a) / (-b))
    else
      -((if a >= 0 then a else -a) / (if b > 0 then b else -b))
  }

  /** A `ShaderLoad` table entry, reduced to what decides the plan. */
  datatype ShaderLoad = ShaderLoad(introspection: SP.Introspection)

  /** One compilation: the query phase the program is built with, the
      `BATCH_SIZE` define put in front of the vertex source, if any, and the
      introspection `link` is asked for. */
  datatype Pass = Pass(queryPhase: SP.QueryPhase, batchSize: Option<int>, introspection: SP.Introspection)

  /** The instances block found after the first pass, or null. */
  datatype Plan = Plan(first: Pass, second: Option<Pass>)

  /** The loop body of `create` for one shader: the first pass, and the
      second one when a batched shader's instances block is found. The
      second pass keeps the first pass's query phase, since `reset` does
      not change it. */
  function LoadPlan(cfgQueryPhase: SP.QueryPhase, reported: i32, load: ShaderLoad,
                    instancesBlock: Option<SP.UniformBlock>): (r: Plan)
    requires instancesBlock.Some? ==> instancesBlock.value.size != instancesBlock.value.alignAmount
    ensures var twice := CompileTwice(MaxUniformBlockSize(reported), load.introspection);
            && (twice ==> r.first == Pass(SP.Immediate, Some(1), SP.Enabled))
            && (!twice ==> r.first == Pass(cfgQueryPhase, None, load.introspection))
            && (r.second.Some? <==> twice && instancesBlock.Some?)
    ensures r.second.Some? ==>
              var size := instancesBlock.value.size - instancesBlock.value.alignAmount;
              r.second.value == Pass(SP.Immediate, Some(BatchSize(MaxUniformBlockSize(reported), size)), load.introspection)
  {
    var maxSize := MaxUniformBlockSize(reported);
    if CompileTwice(maxSize, load.introspection) then
      var first := Pass(SP.Immediate, Some(1), SP.Enabled);
      if instancesBlock.Some? then
        var size := instancesBlock.value.size - instancesBlock.value.alignAmount;
        Plan(first, Some(Pass(SP.Immediate, Some(BatchSize(maxSize, size)), load.introspection)))
      else Plan(first, None)
    else Plan(Pass(cfgQueryPhase, None, load.introspection), None)
  }

  /** `maxUniformBlockSize / size`: how many instances fit in one block. */
  function BatchSize(maxUniformBlockSize: int, size: int): (r: int)
    requires size != 0
  {
    DivTrunc(maxUniformBlockSize, size)
  }

  /** For a positive instance size, the batch is the largest number of
      instances that fits in the block. */
  lemma BatchSizeFits(maxUniformBlockSize: int, size: int)
    requires 0 <= maxUniformBlockSize && size > 0
    ensures BatchSize(maxUniformBlockSize, size) >= 0
    ensures BatchSize(maxUniformBlockSize, size) * size <= maxUniformBlockSize
    ensures maxUniformBlockSize < (BatchSize(maxUniformBlockSize, size) + 1) * size
  {
  }

  // ---------------------------------------------------------------------
  // Default attribute layouts

  /** The interleaved vertex formats of the default shaders. */
  datatype VertexFormat = Pos2Tex2Index | Pos2Index | Pos2Tex2 | Pos2

  datatype Field = Position | TexCoords | DrawIndex

  /** A vertex attribute: its stride, and the format field it was pointed
      at by `setVboParameters`, if any. */
  datatype Attribute = Attribute(stride: nat, layout: Option<(VertexFormat, Field)>)

  /** The three attributes the default shaders may have, each possibly absent. */
  datatype Attributes = Attributes(position: Option<Attribute>, texCoords: Option<Attribute>, meshIndex: Option<Attribute>)

  /** The format the present attributes select, if any. */
  function FormatFor(a: Attributes): (r: Option<VertexFormat>)
    ensures a.position.None? ==> r.None?
    ensures a.position.Some? && a.texCoords.Some? && a.meshIndex.Some? ==> r == Some(Pos2Tex2Index)
    ensures a.position.Some? && a.texCoords.None? && a.meshIndex.Some? ==> r == Some(Pos2Index)
    ensures a.position.Some? && a.texCoords.Some? && a.meshIndex.None? ==> r == Some(Pos2Tex2)
    ensures a.position.Some? && a.texCoords.None? && a.meshIndex.None? ==> r == Some(Pos2)
  {
    if a.position.None? then None
    else if a.texCoords.Some? && a.meshIndex.Some? then Some(Pos2Tex2Index)
    else if a.meshIndex.Some? then Some(Pos2Index)
    else if a.texCoords.Some? then Some(Pos2Tex2)
    else Some(Pos2)
  }

  /** `setVboParameters(sizeof(format), offsetof(format, field))`, applied
      only to an attribute whose stride is still 0. */
  function PointAt(at: Option<Attribute>, format: VertexFormat, field: Field, sizeOf: VertexFormat -> nat): (r: Option<Attribute>)
  {
    if at.Some? && at.value.stride == 0 then Some(Attribute(sizeOf(format), Some((format, field)))) else at
  }

  /** `setDefaultAttributesParameters`. `sizeOf` gives each format's
      `sizeof`; the structs are not part of this model. */
  function SetDefaultAttributesParameters(numAttributes: nat, a: Attributes, sizeOf: VertexFormat -> nat): (r: Attributes)
    ensures numAttributes == 0 || a.position.None? ==> r == a
    ensures r.position.Some? == a.position.Some? && r.texCoords.Some? == a.texCoords.Some?
              && r.meshIndex.Some? == a.meshIndex.Some?
    ensures a.position.Some? && a.position.value.stride != 0 ==> r.position == a.position
    ensures a.texCoords.Some? && a.texCoords.value.stride != 0 ==> r.texCoords == a.texCoords
    ensures a.meshIndex.Some? && a.meshIndex.value.stride != 0 ==> r.meshIndex == a.meshIndex
  {
    if numAttributes == 0 then a
    else match FormatFor(a)
      case None => a
      case Some(f) =>
        Attributes(PointAt(a.position, f, Position, sizeOf),
                   PointAt(a.texCoords, f, TexCoords, sizeOf),
                   PointAt(a.meshIndex, f, DrawIndex, sizeOf))
  }

  /** Every attribute with a zero stride is pointed at its field of the
      format the present attributes select. */
  lemma DefaultAttributesUseFormat(numAttributes: nat, a: Attributes, sizeOf: VertexFormat -> nat)
    requires numAttributes > 0 && a.position.Some?
    ensures var r := SetDefaultAttributesParameters(numAttributes, a, sizeOf);
            var f := FormatFor(a).value;
            && (a.position.value.stride == 0 ==> r.position == Some(Attribute(sizeOf(f), Some((f, Position)))))
            && (a.texCoords.Some? && a.texCoords.value.stride == 0 ==>
                  r.texCoords == Some(Attribute(sizeOf(f), Some((f, TexCoords)))))
            && (a.meshIndex.Some? && a.meshIndex.value.stride == 0 ==>
                  r.meshIndex == Some(Attribute(sizeOf(f), Some((f, DrawIndex)))))
  {
  }
}
