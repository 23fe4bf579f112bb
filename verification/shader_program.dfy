/** `GLShaderProgram`: the status machine of a GL program object, its link
    with the binary-cache fast path, deferred-query resolution, reset and
    the bind-once `use`.

    Every GL result the code reads back (compile and link status, binary
    length and contents, names handed out by `glCreateProgram`) is a
    parameter, and the process-wide `boundProgram_` together with the
    program GL really has in use form the `Context`. */
module ShaderProgram {
  import opened Common
  import opened BinaryShaderCache
  import UniformDiscovery

  datatype Status =
    | NotLinked
    | CompilationFailed
    | LinkingFailed
    | Linked
    | LinkedWithDeferredQueries
    | LinkedWithIntrospection

  datatype Introspection = Enabled | NoUniformsInBlocks | Disabled

  datatype QueryPhase = Immediate | Deferred

  /** An attached shader object: its GL name and the hash of its sources. */
  datatype Shader = Shader(handle: nat, sourceHash: u64)

  /** An active uniform block as `GLUniformBlock` describes it: `size`
      includes `alignAmount` bytes of trailing alignment padding. */
  datatype UniformBlock = UniformBlock(name: string, index: nat, size: int, alignAmount: int)

  /** What introspection reads back from GL: the block index of every
      active uniform, the active uniform blocks, the active attributes, and
      the memory size `GLUniform` reports for the uniform at each index. */
  datatype Reflection = Reflection(blockIndex: seq<int>, blocks: seq<UniformBlock>, attributes: seq<nat>,
                                   memorySize: nat -> nat)

  datatype Program = Program(
    handle: nat,
    attached: seq<Shader>,
    hashName: u64,
    status: Status,
    queryPhase: QueryPhase,
    introspection: Introspection,
    uniforms: seq<nat>,
    uniformBlocks: seq<UniformBlock>,
    attributes: seq<nat>,
    blockUniformsDiscovered: bool,
    uniformsSize: int,         // `uniformsSize_`
    uniformBlocksSize: int)    // `uniformBlocksSize_`

  /** The memory the uniforms at `indices` take. */
  function UniformsSize(indices: seq<nat>, memorySize: nat -> nat): int
  {
    ExactSum(MapSeq(indices, (i: nat) => memorySize(i) as int))
  }

  /** The bytes the blocks take, alignment padding included. */
  function BlocksSize(blocks: seq<UniformBlock>): int
  {
    ExactSum(MapSeq(blocks, (b: UniformBlock) => b.size))
  }

  /** The two size counters sum exactly the uniforms and blocks the program
      holds. */
  predicate SizesMatch(p: Program, memorySize: nat -> nat)
  {
    p.uniformsSize == UniformsSize(p.uniforms, memorySize) && p.uniformBlocksSize == BlocksSize(p.uniformBlocks)
  }

  /** `isLinked()`. */
  predicate IsLinked(s: Status)
  {
    s == Linked || s == LinkedWithDeferredQueries || s == LinkedWithIntrospection
  }

  /** The constructor taking a query phase: a fresh program object. */
  function NewProgram(handle: nat, queryPhase: QueryPhase): (p: Program)
    ensures p.status == NotLinked && !IsLinked(p.status)
    ensures p.attached == [] && p.hashName == 0 && p.queryPhase == queryPhase
    ensures p.uniforms == [] && p.uniformBlocks == [] && p.attributes == []
    ensures forall memorySize :: SizesMatch(p, memorySize)
  {
    Program(handle, [], 0, NotLinked, queryPhase, Enabled, [], [], [], false, 0, 0)
  }

  /** `attachShaderFromStringsAndFile`: `hasCompiled` is what the shader's
      compile step reports (with deferred error checking it does not wait
      for the compiler). */
  function Attach(p: Program, shader: Shader, hasCompiled: bool): (r: (Program, bool))
    ensures r.1 == hasCompiled
    ensures hasCompiled ==> r.0 == p.(attached := p.attached + [shader])
    ensures !hasCompiled ==> r.0 == p.(status := CompilationFailed)
  {
    if hasCompiled then (p.(attached := p.attached + [shader]), true)
    else (p.(status := CompilationFailed), false)
  }

  /** The hash a program is cached under: the wrapping sum of its shaders' source hashes. */
  function HashName(attached: seq<Shader>): (r: u64)
    ensures |attached| == 0 ==> r == 0
    ensures |attached| == 1 ==> r == attached[0].sourceHash
  {
    var hashes := MapSeq(attached, (s: Shader) => s.sourceHash);
    assert |hashes| == 1 ==> hashes[..0] == [] && hashes[0] == attached[0].sourceHash
                             && Sum64(hashes) == Add64(Sum64(hashes[..0]), hashes[0]);
    Sum64(hashes)
  }

  /** Attaching the same shaders in another order gives the same hash. */
  lemma HashNameIgnoresOrder(a: seq<Shader>, b: seq<Shader>)
    requires multiset(a) == multiset(b)
    ensures HashName(a) == HashName(b)
  {
    MapSeqPermutation(a, b, (s: Shader) => s.sourceHash);
    Sum64Permutation(MapSeq(a, (s: Shader) => s.sourceHash), MapSeq(b, (s: Shader) => s.sourceHash));
  }

  lemma {:induction false} HashNameSnoc(a: seq<Shader>, s: Shader)
    ensures HashName(a + [s]) == Add64(HashName(a), s.sourceHash)
  {
    var m := MapSeq(a + [s], (x: Shader) => x.sourceHash);
    assert m[..|m|-1] == MapSeq(a, (x: Shader) => x.sourceHash);
  }

  /** The statuses `checkLinking` trusts without asking GL. */
  predicate KnownLinked(s: Status)
  {
    s == Linked || s == LinkedWithIntrospection
  }

  /** `checkLinking`: a program already known to be linked is not queried
      again; otherwise `glLinkStatus` decides. */
  function CheckLinking(p: Program, glLinkStatus: bool): (r: (Program, bool))
    ensures (p.status == Linked || p.status == LinkedWithIntrospection) ==> r == (p, true)
    ensures !(p.status == Linked || p.status == LinkedWithIntrospection) ==>
              r == (p.(status := if glLinkStatus then Linked else LinkingFailed), glLinkStatus)
    ensures r.1 <==> r.0.status == Linked || r.0.status == LinkedWithIntrospection
  {
    if p.status == Linked || p.status == LinkedWithIntrospection then (p, true)
    else if !glLinkStatus then (p.(status := LinkingFailed), false)
    else (p.(status := Linked), true)
  }

  /** `performIntrospection`: runs once per link, unless disabled. Block
      uniforms are discovered unless the introspection mode excludes them. */
  function PerformIntrospection(p: Program, maxNumUniforms: nat, found: Reflection): (r: Program)
    ensures p.introspection == Disabled || p.status == LinkedWithIntrospection ==> r == p
    ensures p.introspection != Disabled && p.status != LinkedWithIntrospection ==>
              && r.status == LinkedWithIntrospection
              && r.uniforms == p.uniforms + UniformDiscovery.Take(UniformDiscovery.OutsideBlocks(found.blockIndex), maxNumUniforms)
              && r.uniformBlocks == p.uniformBlocks + found.blocks
              && r.attributes == p.attributes + found.attributes
              && r.blockUniformsDiscovered == (p.introspection == Enabled)
              && r.uniformsSize == p.uniformsSize +
                   UniformsSize(UniformDiscovery.Take(UniformDiscovery.OutsideBlocks(found.blockIndex), maxNumUniforms), found.memorySize)
              && r.uniformBlocksSize == p.uniformBlocksSize + BlocksSize(found.blocks)
              && r.(status := p.status, uniforms := p.uniforms, uniformBlocks := p.uniformBlocks,
                    attributes := p.attributes, blockUniformsDiscovered := p.blockUniformsDiscovered,
                    uniformsSize := p.uniformsSize, uniformBlocksSize := p.uniformBlocksSize) == p
  {
    if p.introspection != Disabled && p.status != LinkedWithIntrospection then
      var discovered := UniformDiscovery.Take(UniformDiscovery.OutsideBlocks(found.blockIndex), maxNumUniforms);
      p.(uniforms := p.uniforms + discovered,
         uniformBlocks := p.uniformBlocks + found.blocks,
         attributes := p.attributes + found.attributes,
         blockUniformsDiscovered := p.introspection != NoUniformsInBlocks,
         uniformsSize := p.uniformsSize + UniformsSize(discovered, found.memorySize),
         uniformBlocksSize := p.uniformBlocksSize + BlocksSize(found.blocks),
         status := LinkedWithIntrospection)
    else p
  }

  /** Introspection adds to each counter exactly what it adds to the list
      the counter sums. */
  lemma IntrospectionKeepsSizes(p: Program, maxNumUniforms: nat, found: Reflection)
    requires SizesMatch(p, found.memorySize)
    ensures SizesMatch(PerformIntrospection(p, maxNumUniforms, found), found.memorySize)
  {
    var r := PerformIntrospection(p, maxNumUniforms, found);
    if r != p {
      var discovered := UniformDiscovery.Take(UniformDiscovery.OutsideBlocks(found.blockIndex), maxNumUniforms);
      var size := (i: nat) => found.memorySize(i) as int;
      assert MapSeq(p.uniforms + discovered, size) == MapSeq(p.uniforms, size) + MapSeq(discovered, size);
      ExactSumAppend(MapSeq(p.uniforms, size), MapSeq(discovered, size));
      var blockSize := (b: UniformBlock) => b.size;
      assert MapSeq(p.uniformBlocks + found.blocks, blockSize) == MapSeq(p.uniformBlocks, blockSize) + MapSeq(found.blocks, blockSize);
      ExactSumAppend(MapSeq(p.uniformBlocks, blockSize), MapSeq(found.blocks, blockSize));
    }
  }

  /** The index of the first binary format the cache holds a binary of
      `hash` for, if any: the only format `link` tries to load. */
  function FirstCachedFormat(cache: Cache, formats: seq<u32>, hash: u64): (r: Option<nat>)
    ensures r.Some? ==> r.value < |formats| && BinarySize(cache, formats[r.value], hash) > 0
    ensures r.Some? ==> forall j :: 0 <= j < r.value ==> BinarySize(cache, formats[j], hash) == 0
    ensures r.None? ==> forall j :: 0 <= j < |formats| ==> BinarySize(cache, formats[j], hash) == 0
  {
    FirstCachedFrom(cache, formats, hash, 0)
  }

  /** The format loop of `link` from index `i` on. */
  function FirstCachedFrom(cache: Cache, formats: seq<u32>, hash: u64, i: nat): (r: Option<nat>)
    requires i <= |formats|
    ensures r.Some? ==> i <= r.value < |formats| && BinarySize(cache, formats[r.value], hash) > 0
    ensures r.Some? ==> forall j :: i <= j < r.value ==> BinarySize(cache, formats[j], hash) == 0
    ensures r.None? ==> forall j :: i <= j < |formats| ==> BinarySize(cache, formats[j], hash) == 0
    decreases |formats| - i
  {
    if i == |formats| then None
    else if BinarySize(cache, formats[i], hash) > 0 then Some(i)
    else FirstCachedFrom(cache, formats, hash, i + 1)
  }

  /** What GL answers during one `link`. */
  datatype LinkOracle = LinkOracle(
    binaryAccepted: bool,      // link status after `glProgramBinary`
    linkSucceeds: bool,        // link status after `glLinkProgram`
    binary: seq<byte>,         // what `glGetProgramBinary` returns
    binaryFormat: u32,         // ... and the format it reports
    canOpenCached: bool,       // the cached file opens for reading
    canCreateFile: bool)       // a new cache file opens for writing

  datatype LinkResult = LinkResult(
    program: Program,
    cache: Cache,
    ok: bool,
    loadAttempt: Option<u32>,  // the format a cached binary was loaded for
    fullLink: bool,            // `glLinkProgram` ran
    cacheBuffer: nat,          // size of the cache's read buffer
    scratchBuffer: nat)        // size of the buffer binaries are saved from

  /** What `link` has done before it checks the result: the hash, the
      cache fast path, and otherwise the full link and the save. */
  datatype Staged = Staged(
    program: Program,
    cache: Cache,
    loadAttempt: Option<u32>,
    loaded: bool,
    glLinkStatus: bool,
    cacheBuffer: nat,
    scratchBuffer: nat)

  /** `loadBinary` resets the status, hands the binary to GL and checks the
      link; without a cached binary to try the program is left alone. */
  function LoadBinaryStatus(p: Program, tried: bool, accepted: bool): (r: Program)
    ensures r == p.(status := r.status)
    ensures tried ==> r.status == (if accepted then Linked else LinkingFailed)
    ensures !tried ==> r.status == p.status
  {
    if tried then CheckLinking(p.(status := NotLinked), accepted).0 else p
  }

  /** The first part of `link`, up to the query phase: the hash, then the
      cache work, whose outcome decides the program's status. */
  function LinkBinary(p: Program, introspection: Introspection, cache: Cache, formats: seq<u32>,
                      gl: LinkOracle, cacheBuffer: nat, scratchBuffer: nat): (s: Staged)
    requires |gl.binary| < 0x8000_0000
    ensures s.program.(status := p.status) == p.(introspection := introspection, hashName := HashName(p.attached))
    ensures s.loadAttempt.Some? ==> s.program.status == (if s.loaded then Linked else LinkingFailed)
    ensures s.loadAttempt.None? ==> s.program.status == p.status && !s.loaded
    ensures s.glLinkStatus == (s.loaded || gl.linkSucceeds)
    ensures var w := LinkCacheWork(cache, formats, gl, HashName(p.attached), cacheBuffer, scratchBuffer);
            && s.cache == w.cache && s.loadAttempt == w.attempt && s.loaded == w.loaded
            && s.cacheBuffer == w.cacheBuffer && s.scratchBuffer == w.scratchBuffer
  {
    var hash := HashName(p.attached);
    var p1 := p.(introspection := introspection, hashName := hash);
    var w := LinkCacheWork(cache, formats, gl, hash, cacheBuffer, scratchBuffer);
    var p2 := LoadBinaryStatus(p1, w.attempt.Some?, w.loaded);
    Staged(p2, w.cache, w.attempt, w.loaded, w.loaded || gl.linkSucceeds, w.cacheBuffer, w.scratchBuffer)
  }

  /** What the cache does during `link`. */
  datatype CacheWork = CacheWork(cache: Cache, attempt: Option<u32>, loaded: bool, cacheBuffer: nat, scratchBuffer: nat)

  /** The cache side of `link`: the fast path tries the first cached format
      and, when that does not load, the binary of the full link is saved. */
  function LinkCacheWork(cache: Cache, formats: seq<u32>, gl: LinkOracle, hash: u64,
                         cacheBuffer: nat, scratchBuffer: nat): (w: CacheWork)
    requires |gl.binary| < 0x8000_0000
    ensures cache.enabled && FirstCachedFormat(cache, formats, hash).Some? ==>
              w.attempt == Some(formats[FirstCachedFormat(cache, formats, hash).value])
    ensures !(cache.enabled && FirstCachedFormat(cache, formats, hash).Some?) ==> w.attempt.None?
    ensures w.loaded <==> w.attempt.Some? && gl.canOpenCached && gl.binaryAccepted
    // only the directory and the statistics of the cache change
    ensures w.cache.(directory := cache.directory, stats := cache.stats) == cache
    ensures SavesBinary(cache, w.loaded, gl, hash) ==>
              && w.cache.directory == cache.directory + [Entry(FileNameOf(cache, gl.binaryFormat, hash), gl.binary)]
              && w.cache.stats.savedShaders == cache.stats.savedShaders + 1
    ensures !SavesBinary(cache, w.loaded, gl, hash) ==>
              w.cache.directory == cache.directory && w.cache.stats.savedShaders == cache.stats.savedShaders
    ensures w.cache.stats.loadedShaders ==
              cache.stats.loadedShaders + (if w.attempt.Some? && gl.canOpenCached then 1 else 0)
    ensures Consistent(cache) ==> Consistent(w.cache)
    ensures w.cacheBuffer >= cacheBuffer && w.scratchBuffer >= scratchBuffer
    ensures !w.loaded && cache.enabled ==> w.scratchBuffer >= |gl.binary|
  {
    var t := TryCache(cache, formats, hash, gl, cacheBuffer);
    var (saved, scratch) := SaveLinkedBinary(t.cache, cache.enabled && !t.loaded, gl, hash, scratchBuffer);
    SavedAfterTry(cache, t.cache, t.loaded, gl, hash, saved);
    CacheWork(saved, t.attempt, t.loaded, t.cacheBuffer, scratch)
  }

  /** The save after the cache fast path writes exactly when `SavesBinary`
      holds of the cache `link` started from. */
  lemma SavedAfterTry(cache: Cache, tried: Cache, loaded: bool, gl: LinkOracle, hash: u64, saved: Cache)
    requires |gl.binary| < 0x8000_0000
    requires tried.(stats := cache.stats) == cache
    requires cache.enabled && !loaded && |gl.binary| > 0 ==>
               saved == SaveToCache(tried, |gl.binary|, gl.binary, gl.binaryFormat, hash, gl.canCreateFile).cache
    requires !(cache.enabled && !loaded && |gl.binary| > 0) ==> saved == tried
    ensures saved.(directory := cache.directory, stats := cache.stats) == cache
    ensures SavesBinary(cache, loaded, gl, hash) ==>
              && saved.directory == cache.directory + [Entry(FileNameOf(cache, gl.binaryFormat, hash), gl.binary)]
              && saved.stats.savedShaders == tried.stats.savedShaders + 1
              && saved.stats.loadedShaders == tried.stats.loadedShaders
    ensures !SavesBinary(cache, loaded, gl, hash) ==> saved == tried
  {
    assert FileNameOf(tried, gl.binaryFormat, hash) == FileNameOf(cache, gl.binaryFormat, hash);
    assert gl.binary[..|gl.binary|] == gl.binary;
  }

  /** What the cache fast path of `link` leaves behind. */
  datatype CacheTry = CacheTry(cache: Cache, attempt: Option<u32>, loaded: bool, cacheBuffer: nat)

  /** The cache fast path of `link`: with the cache enabled, the binary of
      the first cached format is read and handed to GL. Only the load
      counter of the cache changes. */
  function TryCache(cache: Cache, formats: seq<u32>, hash: u64, gl: LinkOracle, cacheBuffer: nat): (t: CacheTry)
    ensures cache.enabled && FirstCachedFormat(cache, formats, hash).Some? ==>
              t.attempt == Some(formats[FirstCachedFormat(cache, formats, hash).value])
    ensures !(cache.enabled && FirstCachedFormat(cache, formats, hash).Some?) ==> t.attempt.None?
    ensures t.loaded <==> t.attempt.Some? && gl.canOpenCached && gl.binaryAccepted
    ensures t.cache == if t.attempt.Some? && gl.canOpenCached
                       then cache.(stats := cache.stats.(loadedShaders := cache.stats.loadedShaders + 1))
                       else cache
    ensures Consistent(cache) ==> Consistent(t.cache)
    ensures t.cacheBuffer >= cacheBuffer
  {
    var first := if cache.enabled then FirstCachedFormat(cache, formats, hash) else None;
    if first.None? then CacheTry(cache, None, false, cacheBuffer)
    else
      var format := formats[first.value];
      var load := LoadFromCache(cache, format, hash, gl.canOpenCached, cacheBuffer);
      CacheTry(load.cache, Some(format), load.data.Some? && gl.binaryAccepted, load.bufferSize)
  }

  /** Whether the save that follows a full link writes a new cache file:
      no cached binary was loaded, the cache is usable, GL produced a
      non-empty binary, no file of that name exists yet and one can be
      created. */
  predicate SavesBinary(cache: Cache, loaded: bool, gl: LinkOracle, hash: u64)
  {
    && !loaded && Usable(cache) && |gl.binary| > 0 && gl.canCreateFile
    && Lookup(cache.directory, FileNameOf(cache, gl.binaryFormat, hash)).None?
  }

  /** After a full link with the cache enabled, `link` reads the binary GL
      produced into the scratch buffer (which grows to fit) with
      `saveBinary`, asking for exactly the binary's length, and saves a
      non-empty one to the cache. */
  function SaveLinkedBinary(cache: Cache, save: bool, gl: LinkOracle, hash: u64, scratchBuffer: nat): (r: (Cache, nat))
    requires |gl.binary| < 0x8000_0000
    ensures save && |gl.binary| > 0 ==>
              r.0 == SaveToCache(cache, |gl.binary|, gl.binary, gl.binaryFormat, hash, gl.canCreateFile).cache
    ensures !(save && |gl.binary| > 0) ==> r.0 == cache
    ensures r.0.directory != cache.directory ==>
              r.0.directory == cache.directory + [Entry(FileNameOf(cache, gl.binaryFormat, hash), gl.binary)]
    ensures Consistent(cache) ==> Consistent(r.0)
    ensures r.1 >= scratchBuffer && (save ==> r.1 >= |gl.binary|)
  {
    var binLength := |gl.binary|;
    if !save || binLength == 0 then (cache, scratchBuffer)
    else
      var read := SaveBinary(binLength as i32, gl.binary);
      var written := SaveToCache(cache, binLength, read.1, gl.binaryFormat, hash, gl.canCreateFile);
      assert read.1[..binLength] == gl.binary;
      (written.cache, if scratchBuffer < binLength then binLength else scratchBuffer)
  }

  /** The query phase shared by `link` and `deferredQueries`: the link is
      checked, and a linked program lets go of its shaders and is
      introspected. */
  function QueryLink(p: Program, glLinkStatus: bool, maxNumUniforms: nat, found: Reflection): (r: (Program, bool))
    ensures r.1 <==> IsLinked(r.0.status)
    ensures r.1 == (KnownLinked(p.status) || glLinkStatus)
    ensures !r.1 ==> r.0 == p.(status := LinkingFailed)
    ensures r.1 ==> r.0.attached == []
    ensures r.1 && !KnownLinked(p.status) ==>
              r.0.status == (if p.introspection != Disabled then LinkedWithIntrospection else Linked)
    ensures r.0.hashName == p.hashName && r.0.introspection == p.introspection
    ensures r.0.handle == p.handle && r.0.queryPhase == p.queryPhase
  {
    var (p1, linkCheck) := CheckLinking(p, glLinkStatus);
    if !linkCheck then (p1, false)
    else (PerformIntrospection(p1.(attached := []), maxNumUniforms, found), true)
  }

  /** `link`. */
  function Link(p: Program, introspection: Introspection, cache: Cache, formats: seq<u32>,
                gl: LinkOracle, maxNumUniforms: nat, found: Reflection,
                cacheBuffer: nat, scratchBuffer: nat): (r: LinkResult)
    requires |gl.binary| < 0x8000_0000
    ensures r.program.hashName == HashName(p.attached)
    ensures r.program.introspection == introspection
    ensures r.program.handle == p.handle && r.program.queryPhase == p.queryPhase
    // the cache work is that of `LinkBinary`
    ensures var s := LinkBinary(p, introspection, cache, formats, gl, cacheBuffer, scratchBuffer);
            && r.cache == s.cache && r.loadAttempt == s.loadAttempt && r.fullLink == !s.loaded
            && r.cacheBuffer == s.cacheBuffer && r.scratchBuffer == s.scratchBuffer
    ensures r.fullLink <==> !(r.loadAttempt.Some? && gl.canOpenCached && gl.binaryAccepted)
    // a full link saves its binary exactly when the cache can take it
    ensures SavesBinary(cache, !r.fullLink, gl, HashName(p.attached)) ==>
              r.cache.directory == cache.directory + [Entry(FileNameOf(cache, gl.binaryFormat, HashName(p.attached)), gl.binary)]
    ensures !SavesBinary(cache, !r.fullLink, gl, HashName(p.attached)) ==> r.cache.directory == cache.directory
    // immediate queries
    ensures p.queryPhase == Immediate && !r.ok ==>
              r.program.status == LinkingFailed && r.program.attached == p.attached
    ensures p.queryPhase == Immediate && r.ok ==> r.program.attached == []
    ensures p.queryPhase == Immediate && r.ok && !KnownLinked(p.status) ==>
              r.program.status == (if introspection != Disabled then LinkedWithIntrospection else Linked)
    ensures p.queryPhase == Immediate && !KnownLinked(p.status) ==>
              (r.ok <==> if r.fullLink then gl.linkSucceeds else true)
    // a program already known to be linked is not checked again unless a binary was tried
    ensures p.queryPhase == Immediate && KnownLinked(p.status) && r.loadAttempt.None? ==> r.ok
    // deferred queries
    ensures p.queryPhase == Deferred ==>
              r.ok && r.program.status == LinkedWithDeferredQueries && r.program.attached == p.attached
    ensures r.ok <==> IsLinked(r.program.status)
  {
    var s := LinkBinary(p, introspection, cache, formats, gl, cacheBuffer, scratchBuffer);
    if p.queryPhase == Immediate then
      var (q, ok) := QueryLink(s.program, s.glLinkStatus, maxNumUniforms, found);
      LinkResult(q, s.cache, ok, s.loadAttempt, !s.loaded, s.cacheBuffer, s.scratchBuffer)
    else
      LinkResult(s.program.(status := LinkedWithDeferredQueries), s.cache, true, s.loadAttempt, !s.loaded,
                 s.cacheBuffer, s.scratchBuffer)
  }

  /** `deferredQueries`: resolves a deferred link on first use.
      `compileChecks[i]` is the deferred compile result of attached shader
      `i` and `glLinkStatus` the link status GL reports. */
  function DeferredQueries(p: Program, compileChecks: seq<bool>, glLinkStatus: bool,
                           maxNumUniforms: nat, found: Reflection): (r: (Program, bool))
    requires |compileChecks| == |p.attached|
    ensures p.status != LinkedWithDeferredQueries ==> r == (p, true)
    ensures p.status == LinkedWithDeferredQueries && (exists i :: 0 <= i < |compileChecks| && !compileChecks[i]) ==>
              r == (p, false)
    ensures p.status == LinkedWithDeferredQueries && (forall i :: 0 <= i < |compileChecks| ==> compileChecks[i]) ==>
              && r.1 == glLinkStatus
              && (!glLinkStatus ==> r.0 == p.(status := LinkingFailed))
              && (glLinkStatus ==> (r.0.attached == [] &&
                    r.0.status == (if p.introspection != Disabled then LinkedWithIntrospection else Linked)))
  {
    if p.status == LinkedWithDeferredQueries then
      if !AllCompiled(compileChecks) then (p, false)
      else
        QueryLink(p, glLinkStatus, maxNumUniforms, found)
    else (p, true)
  }

  /** The loop over the attached shaders' compile checks: it stops at the
      first failure. */
  function AllCompiled(checks: seq<bool>): (b: bool)
    ensures b <==> forall i :: 0 <= i < |checks| ==> checks[i]
  {
    if |checks| == 0 then true
    else if !checks[0] then false
    else AllCompiled(checks[1..])
  }

  /** `deferredQueries` keeps a linked program linked; in every other status
      it does nothing. */
  lemma DeferredQueriesKeepsLinked(p: Program, compileChecks: seq<bool>, glLinkStatus: bool,
                                   maxNumUniforms: nat, found: Reflection)
    requires |compileChecks| == |p.attached|
    ensures var r := DeferredQueries(p, compileChecks, glLinkStatus, maxNumUniforms, found);
            r.1 ==> (IsLinked(p.status) <==> IsLinked(r.0.status))
  {
  }

  // ---------------------------------------------------------------------
  // The bound program

  /** `bound` is `boundProgram_`, the engine's record of the program in
      use; `current` is the program GL really has in use. */
  datatype Context = Context(bound: nat, current: nat)

  /** The engine's record agrees with GL. */
  predicate InSync(ctx: Context)
  {
    ctx.bound == ctx.current
  }

  datatype UseResult = UseResult(program: Program, context: Context)

  /** `use`: binds the program unless it is already recorded as bound,
      resolving deferred queries first. The program is bound even when
      that resolution fails. */
  function Use(p: Program, ctx: Context, compileChecks: seq<bool>, glLinkStatus: bool,
               maxNumUniforms: nat, found: Reflection): (r: UseResult)
    requires |compileChecks| == |p.attached|
    ensures r.context.bound == p.handle
    ensures ctx.bound == p.handle ==> r == UseResult(p, ctx)
    ensures ctx.bound != p.handle ==> (r.context == Context(p.handle, p.handle) &&
              r.program == DeferredQueries(p, compileChecks, glLinkStatus, maxNumUniforms, found).0)
    ensures InSync(ctx) ==> InSync(r.context) && r.context.current == p.handle
  {
    if ctx.bound != p.handle then
      var (p1, _) := DeferredQueries(p, compileChecks, glLinkStatus, maxNumUniforms, found);
      UseResult(p1, Context(p.handle, p.handle))
    else UseResult(p, ctx)
  }

  /** A second `use` does nothing, whatever GL would answer. */
  lemma UseIdempotent(p: Program, ctx: Context, c1: seq<bool>, s1: bool, c2: seq<bool>, s2: bool,
                      maxNumUniforms: nat, found: Reflection)
    requires |c1| == |p.attached|
    requires |c2| == |Use(p, ctx, c1, s1, maxNumUniforms, found).program.attached|
    ensures var once := Use(p, ctx, c1, s1, maxNumUniforms, found);
            Use(once.program, once.context, c2, s2, maxNumUniforms, found) == once
  {
  }

  datatype ResetResult = ResetResult(program: Program, context: Context)

  /** `reset` as written: a program past compilation is torn down and
      replaced by a new GL object named `newHandle`; if it was bound, GL is
      unbound but `boundProgram_` keeps the old name. */
  function ResetAsWritten(p: Program, ctx: Context, newHandle: nat): (r: ResetResult)
    ensures r.program.status == NotLinked
    ensures r.context.bound == ctx.bound
    ensures p.status == NotLinked || p.status == CompilationFailed ==> r == ResetResult(p.(status := NotLinked), ctx)
    ensures p.status != NotLinked && p.status != CompilationFailed ==>
              && r.program == Program(newHandle, [], 0, NotLinked, p.queryPhase, p.introspection, [], [], [],
                                      p.blockUniformsDiscovered, p.uniformsSize, p.uniformBlocksSize)
              && r.context.current == (if ctx.bound == p.handle then 0 else ctx.current)
  {
    if p.status != NotLinked && p.status != CompilationFailed then
      var ctx1 := if ctx.bound == p.handle then ctx.(current := 0) else ctx;
      var p1 := p.(uniforms := [], uniformBlocks := [], attributes := [], attached := [],
                   handle := newHandle, hashName := 0, status := NotLinked);
      ResetResult(p1, ctx1)
    else ResetResult(p.(status := NotLinked), ctx)
  }

  /** GL may hand the deleted program's name to the new object. Then a
      bound program that is reset, relinked and used stays unbound in GL:
      `use` believes it is still bound. */
  lemma ResetThenUseLeavesProgramUnbound(p: Program, c: seq<bool>, s: bool, maxNumUniforms: nat, found: Reflection)
    requires p.status == Linked && p.handle != 0
    ensures var ctx := Context(p.handle, p.handle);
            var reset := ResetAsWritten(p, ctx, p.handle);
            var used := Use(reset.program, reset.context, [], s, maxNumUniforms, found);
            InSync(ctx) && !InSync(reset.context) && used.context.current == 0
  {
  }

  /** `reset` with `boundProgram_` cleared together with the GL binding. */
  function Reset(p: Program, ctx: Context, newHandle: nat): (r: ResetResult)
    ensures r.program.status == NotLinked
    ensures p.status == NotLinked || p.status == CompilationFailed ==> r == ResetResult(p.(status := NotLinked), ctx)
    ensures p.status != NotLinked && p.status != CompilationFailed ==>
              && r.program == Program(newHandle, [], 0, NotLinked, p.queryPhase, p.introspection, [], [], [],
                                      p.blockUniformsDiscovered, 0, 0)
              && r.context == (if ctx.bound == p.handle then Context(0, 0) else ctx)
    ensures InSync(ctx) ==> InSync(r.context)
  {
    if p.status != NotLinked && p.status != CompilationFailed then
      var ctx1 := if ctx.bound == p.handle then Context(0, 0) else ctx;
      var p1 := p.(uniforms := [], uniformBlocks := [], attributes := [], attached := [],
                   handle := newHandle, hashName := 0, status := NotLinked, uniformsSize := 0, uniformBlocksSize := 0);
      ResetResult(p1, ctx1)
    else ResetResult(p.(status := NotLinked), ctx)
  }

  /** `reset` as written leaves `uniformsSize_` and `uniformBlocksSize_`
      alone while it clears the lists they sum. On the compile-twice path a
      program introspected from `found1` (the shaders built with a batch
      size of 1) is reset and linked again, and the relink is introspected
      from `found2` (the shaders rebuilt with the real batch size). The
      program then holds only what `found2` reports, but each counter is
      the first pass's size plus the second's. */
  lemma ResetRelinkCountsTwice(p: Program, ctx: Context, newHandle: nat, maxNumUniforms: nat,
                               found1: Reflection, found2: Reflection)
    requires p.status == LinkedWithIntrospection && p.introspection != Disabled
    requires p.uniforms == UniformDiscovery.Take(UniformDiscovery.OutsideBlocks(found1.blockIndex), maxNumUniforms)
    requires p.uniformBlocks == found1.blocks
    requires SizesMatch(p, found1.memorySize)
    ensures var again := QueryLink(ResetAsWritten(p, ctx, newHandle).program, true, maxNumUniforms, found2).0;
            && again.uniforms == UniformDiscovery.Take(UniformDiscovery.OutsideBlocks(found2.blockIndex), maxNumUniforms)
            && again.uniformBlocks == found2.blocks
            && again.uniformsSize == UniformsSize(p.uniforms, found1.memorySize) + UniformsSize(again.uniforms, found2.memorySize)
            && again.uniformBlocksSize == BlocksSize(found1.blocks) + BlocksSize(found2.blocks)
            && (BlocksSize(found1.blocks) != 0 ==> again.uniformBlocksSize != BlocksSize(again.uniformBlocks))
  {
    var reset := ResetAsWritten(p, ctx, newHandle).program;
    var checked := CheckLinking(reset, true).0.(attached := []);
    assert checked.status == Linked && checked.introspection == p.introspection;
    assert checked.uniforms == [] && checked.uniformBlocks == [];
    assert checked.uniformsSize == p.uniformsSize && checked.uniformBlocksSize == p.uniformBlocksSize;
    var again := PerformIntrospection(checked, maxNumUniforms, found2);
    assert again == QueryLink(reset, true, maxNumUniforms, found2).0;
    assert again.uniforms == [] + UniformDiscovery.Take(UniformDiscovery.OutsideBlocks(found2.blockIndex), maxNumUniforms);
    assert again.uniformBlocks == [] + found2.blocks;
  }

  /** With the corrected `reset`, which zeroes both counters with the lists,
      relinking leaves each counter equal to the size of what the program
      holds. */
  lemma ResetRelinkCountsOnce(p: Program, ctx: Context, newHandle: nat, maxNumUniforms: nat, found: Reflection)
    requires SizesMatch(p, found.memorySize)
    ensures SizesMatch(QueryLink(Reset(p, ctx, newHandle).program, true, maxNumUniforms, found).0, found.memorySize)
  {
    var reset := Reset(p, ctx, newHandle).program;
    assert SizesMatch(reset, found.memorySize);
    var checked := CheckLinking(reset, true).0.(attached := []);
    assert SizesMatch(checked, found.memorySize);
    IntrospectionKeepsSizes(checked, maxNumUniforms, found);
  }

  /** With the corrected `reset`, a later `use` always leaves the program in
      use in GL, whatever name GL hands out, as long as 0 names no program. */
  lemma ResetThenUseBinds(p: Program, ctx: Context, newHandle: nat, c: seq<bool>, s: bool,
                          maxNumUniforms: nat, found: Reflection)
    requires InSync(ctx)
    requires |c| == |Reset(p, ctx, newHandle).program.attached|
    ensures var reset := Reset(p, ctx, newHandle);
            Use(reset.program, reset.context, c, s, maxNumUniforms, found).context.current == reset.program.handle
  {
  }

  // ---------------------------------------------------------------------
  // Reading back from GL

  /** `saveBinary`: GL copies the binary only if it fits in `bufferSize`
      bytes; the result says whether a non-empty binary was copied. */
  function SaveBinary(bufferSize: i32, glBinary: seq<byte>): (r: (bool, seq<byte>))
    ensures r.0 <==> 0 < |glBinary| <= bufferSize
    ensures r.0 ==> r.1 == glBinary
    ensures !r.0 ==> r.1 == []
  {
    var length := if bufferSize > 0 && |glBinary| <= bufferSize then |glBinary| else 0;
    (length > 0 && bufferSize >= length, if length > 0 then glBinary else [])
  }

  /** `retrieveInfoLog`: `logLength` is `GL_INFO_LOG_LENGTH`, `glLog` the log
      GL holds and `capacity` the string's capacity; GL writes at most
      `capacity - 1` characters and a terminator and reports how many it
      wrote, so the string's length is set to exactly that count (the
      source's second clamp to `capacity - 1` never changes it). */
  function RetrieveInfoLog(logLength: i32, glLog: string, capacity: nat, infoLog: string): (r: string)
    ensures !(logLength > 0 && capacity > 0) ==> r == infoLog
    ensures logLength > 0 && capacity > 0 ==>
              && r <= glLog
              && |r| == Min(|glLog|, capacity - 1)
              && (|glLog| < capacity ==> r == glLog)
              && (|glLog| >= capacity ==> |r| == capacity - 1)
  {
    if logLength > 0 && capacity > 0 then
      var written := if |glLog| < capacity - 1 then |glLog| else capacity - 1;
      glLog[..written]
    else infoLog
  }

  /** A full link that saved its binary makes the next link of the same
      shaders find it: the saved format is the one tried, the bytes read back
      are those GL produced, and the second link loads instead of linking
      whenever GL accepts them, leaving the directory alone. */
  lemma RelinkFindsSavedBinary(p: Program, q: Program, introspection: Introspection, introspection2: Introspection,
                               cache: Cache, formats: seq<u32>, gl: LinkOracle, gl2: LinkOracle,
                               cacheBuffer: nat, scratchBuffer: nat)
    requires |gl.binary| < 0x8000_0000 && |gl2.binary| < 0x8000_0000
    requires HashName(q.attached) == HashName(p.attached)
    requires gl.binaryFormat in formats
    requires FirstCachedFormat(cache, formats, HashName(p.attached)).None?
    requires SavesBinary(cache, false, gl, HashName(p.attached))
    ensures var first := LinkBinary(p, introspection, cache, formats, gl, cacheBuffer, scratchBuffer);
            var second := LinkBinary(q, introspection2, first.cache, formats, gl2, first.cacheBuffer, first.scratchBuffer);
            && !first.loaded && first.cache.directory != cache.directory
            && LoadFromCache(first.cache, gl.binaryFormat, HashName(p.attached), true, 0).data == Some(gl.binary)
            && second.loadAttempt == Some(gl.binaryFormat)
            && (second.loaded <==> gl2.canOpenCached && gl2.binaryAccepted)
            && (second.loaded ==> second.cache.directory == first.cache.directory)
  {
    var hash := HashName(p.attached);
    var first := LinkBinary(p, introspection, cache, formats, gl, cacheBuffer, scratchBuffer);
    var added := cache.(directory := cache.directory + [Entry(FileNameOf(cache, gl.binaryFormat, hash), gl.binary)]);
    assert first.cache == added.(stats := first.cache.stats);
    forall j | 0 <= j < |formats|
      ensures BinarySize(first.cache, formats[j], hash) == if formats[j] == gl.binaryFormat then |gl.binary| else 0
    {
      AddedFileSizes(cache, gl.binaryFormat, hash, gl.binary, formats[j]);
    }
    var k :| 0 <= k < |formats| && formats[k] == gl.binaryFormat;
    assert BinarySize(first.cache, formats[k], hash) > 0;
    LookupAppend(cache.directory, Entry(FileNameOf(cache, gl.binaryFormat, hash), gl.binary), FileNameOf(cache, gl.binaryFormat, hash));
  }
}
