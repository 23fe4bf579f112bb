/** `GLShaderUniformBlocks`: the uniform blocks a program imports, their
    placement in one staging buffer, the copy into a uniform buffer range
    and the range bindings.

    Pointers are offsets: block data pointers and `dataPointer_` index the
    staging memory, and a uniform buffer range indexes mapped GPU memory.
    `usedSize` belongs to `GLUniformBlockCache`, which is not part of this
    model: an imported cache starts with `size - alignAmount` and may be
    lowered later. */
module UniformBlocks {
  import opened Common
  import opened NameList
  import SP = ShaderProgram

  datatype BlockCache = BlockCache(block: SP.UniformBlock, dataPointer: int, usedSize: int)

  /** `RenderBuffersManager::Parameters`: `hasBuffer` is whether a buffer object was
      acquired, `mapBase` whether it is mapped. */
  datatype UboParams = UboParams(hasBuffer: bool, mapBase: bool, offset: int)

  datatype State = State(
    program: Option<SP.Program>,
    caches: seq<BlockCache>,
    dataPointer: int,
    ubo: UboParams)

  /** The default constructor: no program, no blocks. */
  const Empty := State(None, [], 0, UboParams(false, false, 0))

  // ---------------------------------------------------------------------
  // Importing

  predicate HasName(caches: seq<BlockCache>, name: string)
  {
    exists k :: 0 <= k < |caches| && caches[k].block.name == name
  }

  /** The map keys: no two caches share a name. */
  predicate UniqueBlockNames(caches: seq<BlockCache>)
  {
    forall i, j :: 0 <= i < j < |caches| ==> caches[i].block.name != caches[j].block.name
  }

  /** `uniformBlockCaches_[name] = cache`: a cache of the same name is
      replaced in place, otherwise the cache is added. */
  function Insert(caches: seq<BlockCache>, c: BlockCache): (r: seq<BlockCache>)
    ensures forall k :: 0 <= k < |r| ==> r[k] == c || r[k] in caches
    ensures c in r
  {
    if |caches| == 0 then [c]
    else if caches[0].block.name == c.block.name then [c] + caches[1..]
    else [caches[0]] + Insert(caches[1..], c)
  }

  /** Insertion keeps every name and adds the new one without duplicating it. */
  lemma InsertFacts(caches: seq<BlockCache>, c: BlockCache)
    ensures forall n :: HasName(caches, n) ==> HasName(Insert(caches, c), n)
    ensures HasName(Insert(caches, c), c.block.name)
    ensures UniqueBlockNames(caches) ==> UniqueBlockNames(Insert(caches, c))
  {
    forall n | HasName(caches, n)
      ensures HasName(Insert(caches, c), n)
    {
      InsertKeepsName(caches, c, n);
    }
    var r := Insert(caches, c);
    var k :| 0 <= k < |r| && r[k] == c;
    if UniqueBlockNames(caches) {
      InsertKeepsUnique(caches, c);
    }
  }

  lemma {:induction false} InsertKeepsName(caches: seq<BlockCache>, c: BlockCache, n: string)
    requires HasName(caches, n)
    ensures HasName(Insert(caches, c), n)
  {
    var r := Insert(caches, c);
    var k :| 0 <= k < |caches| && caches[k].block.name == n;
    if k == 0 {
      assert r[0].block.name == n;
    } else if caches[0].block.name == c.block.name {
      assert r[k] == caches[k];
    } else {
      var rest := Insert(caches[1..], c);
      assert caches[1..][k-1].block.name == n;
      InsertKeepsName(caches[1..], c, n);
      var m :| 0 <= m < |rest| && rest[m].block.name == n;
      assert r[m + 1] == rest[m];
    }
  }

  lemma {:induction false} InsertKeepsUnique(caches: seq<BlockCache>, c: BlockCache)
    requires UniqueBlockNames(caches)
    ensures UniqueBlockNames(Insert(caches, c))
  {
    if |caches| > 0 && caches[0].block.name != c.block.name {
      var rest := Insert(caches[1..], c);
      InsertKeepsUnique(caches[1..], c);
      forall j | 0 <= j < |rest|
        ensures rest[j].block.name != caches[0].block.name
      {
        if rest[j] != c {
          var i :| 0 <= i < |caches[1..]| && caches[1..][i] == rest[j];
          assert caches[i + 1] == rest[j];
          assert caches[0].block.name != caches[i + 1].block.name;
        }
      }
      assert Insert(caches, c) == [caches[0]] + rest;
    }
  }

  function NewCache(b: SP.UniformBlock): BlockCache
  {
    BlockCache(b, 0, b.size - b.alignAmount)
  }

  /** `importUniformBlocks`: walks the program's blocks in order and inserts
      a fresh cache for every block the filters let through. */
  function Import(blocks: seq<SP.UniformBlock>, includeOnly: Option<seq<char>>, exclude: Option<seq<char>>,
                  caches: seq<BlockCache>): (r: seq<BlockCache>)
    ensures forall k :: 0 <= k < |r| ==>
              (r[k] in caches ||
               (r[k].block in blocks && r[k] == NewCache(r[k].block) && ShouldImport(includeOnly, exclude, r[k].block.name)))
    ensures forall n :: HasName(caches, n) ==> HasName(r, n)
    ensures forall b :: b in blocks && ShouldImport(includeOnly, exclude, b.name) ==> HasName(r, b.name)
    ensures UniqueBlockNames(caches) ==> UniqueBlockNames(r)
    decreases |blocks|
  {
    if |blocks| == 0 then caches
    else
      var b := blocks[0];
      var next := if ShouldImport(includeOnly, exclude, b.name) then Insert(caches, NewCache(b)) else caches;
      InsertFacts(caches, NewCache(b));
      var r := Import(blocks[1..], includeOnly, exclude, next);
      assert forall x :: x in blocks ==> x == b || x in blocks[1..];
      r
  }

  /** Importing into no caches yields one cache per distinct name of the
      blocks the filters let through, and nothing else. */
  lemma ImportFromEmpty(blocks: seq<SP.UniformBlock>, includeOnly: Option<seq<char>>, exclude: Option<seq<char>>)
    ensures var r := Import(blocks, includeOnly, exclude, []);
            && UniqueBlockNames(r)
            && (forall k :: 0 <= k < |r| ==>
                  r[k].block in blocks && r[k] == NewCache(r[k].block) && ShouldImport(includeOnly, exclude, r[k].block.name))
            && (forall b :: b in blocks && ShouldImport(includeOnly, exclude, b.name) ==> HasName(r, b.name))
  {
  }

  /** `setProgram`: resolves deferred queries, always drops the old caches,
      and imports only from an introspected program. The oracles are those
      of `deferredQueries`. */
  function SetProgram(s: State, p: SP.Program, compileChecks: seq<bool>, glLinkStatus: bool,
                      maxNumUniforms: nat, found: SP.Reflection,
                      includeOnly: Option<seq<char>>, exclude: Option<seq<char>>): (r: State)
    requires |compileChecks| == |p.attached|
    ensures r.program.Some?
    ensures r.program.value == SP.DeferredQueries(p, compileChecks, glLinkStatus, maxNumUniforms, found).0
    ensures r.program.value.status != SP.LinkedWithIntrospection ==> r.caches == []
    ensures r.program.value.status == SP.LinkedWithIntrospection ==>
              r.caches == Import(r.program.value.uniformBlocks, includeOnly, exclude, [])
    ensures UniqueBlockNames(r.caches)
    ensures forall k :: 0 <= k < |r.caches| ==> ShouldImport(includeOnly, exclude, r.caches[k].block.name)
    ensures r.(program := s.program, caches := s.caches) == s
  {
    var (p1, _) := SP.DeferredQueries(p, compileChecks, glLinkStatus, maxNumUniforms, found);
    var caches := if p1.status == SP.LinkedWithIntrospection then Import(p1.uniformBlocks, includeOnly, exclude, []) else [];
    s.(program := Some(p1), caches := caches)
  }

  /** `uniformBlock(name)`: nothing without a program. */
  function FindBlock(s: State, name: string): (r: Option<BlockCache>)
    ensures s.program.None? ==> r.None?
    ensures r.Some? ==> r.value in s.caches && r.value.block.name == name
    ensures s.program.Some? && HasName(s.caches, name) ==> r.Some?
  {
    if s.program.None? then None else Find(s.caches, name)
  }

  function Find(caches: seq<BlockCache>, name: string): (r: Option<BlockCache>)
    ensures r.Some? ==> r.value in caches && r.value.block.name == name
    ensures r.None? <==> !HasName(caches, name)
  {
    if |caches| == 0 then None
    else if caches[0].block.name == name then Some(caches[0])
    else
      var r := Find(caches[1..], name);
      assert HasName(caches, name) ==> caches[0].block.name == name || HasName(caches[1..], name) by {
        if HasName(caches, name) {
          var k :| 0 <= k < |caches| && caches[k].block.name == name;
          if k > 0 { assert caches[1..][k-1].block.name == name; }
        }
      }
      r
  }

  // ---------------------------------------------------------------------
  // Layout

  /** Σ_{j<k} (size_j − alignAmount_j). */
  function PaddedPrefix(caches: seq<BlockCache>, k: nat): int
    requires k <= |caches|
  {
    if k == 0 then 0 else PaddedPrefix(caches, k - 1) + caches[k-1].block.size - caches[k-1].block.alignAmount
  }

  /** Σ_{j<k} usedSize_j. */
  function UsedPrefix(caches: seq<BlockCache>, k: nat): int
    requires k <= |caches|
  {
    if k == 0 then 0 else UsedPrefix(caches, k - 1) + caches[k-1].usedSize
  }

  function TotalUsedSize(caches: seq<BlockCache>): int
  {
    UsedPrefix(caches, |caches|)
  }

  predicate Introspected(s: State)
  {
    s.program.Some? && s.program.value.status == SP.LinkedWithIntrospection
  }

  /** `setUniformsDataPointer`: places the blocks one after another in the
      staging memory, each taking its size without the alignment padding;
      does nothing unless the program is introspected. */
  method SetUniformsDataPointer(s: State, base: int) returns (r: State)
    requires s.program.Some?
    ensures !Introspected(s) ==> r == s
    ensures Introspected(s) ==>
              && r.dataPointer == base && |r.caches| == |s.caches|
              && (forall k :: 0 <= k < |r.caches| ==>
                    r.caches[k] == s.caches[k].(dataPointer := base + PaddedPrefix(s.caches, k)))
              && r.(dataPointer := s.dataPointer, caches := s.caches) == s
  {
    if !Introspected(s) {
      return s;
    }
    var caches := PlaceBlocks(s.caches, base);
    r := s.(dataPointer := base, caches := caches);
  }

  /** The loop of `setUniformsDataPointer` over the block caches. */
  method PlaceBlocks(caches: seq<BlockCache>, base: int) returns (placed: seq<BlockCache>)
    ensures |placed| == |caches|
    ensures forall k :: 0 <= k < |placed| ==> placed[k] == caches[k].(dataPointer := base + PaddedPrefix(caches, k))
  {
    placed := caches;
    var offset := 0;
    var k := 0;
    while k < |caches|
      invariant 0 <= k <= |caches| && |placed| == |caches|
      invariant offset == PaddedPrefix(caches, k)
      invariant forall j :: 0 <= j < k ==> placed[j] == caches[j].(dataPointer := base + PaddedPrefix(caches, j))
      invariant forall j :: k <= j < |caches| ==> placed[j] == caches[j]
    {
      placed := placed[k := placed[k].(dataPointer := base + offset)];
      offset := offset + placed[k].block.size - placed[k].block.alignAmount;
      k := k + 1;
    }
  }

  /** The loop of `commitUniformBlocks` that sums the used sizes and looks
      for a block not stored right after the previous one. */
  method ScanLayout(caches: seq<BlockCache>, base: int) returns (totalUsedSize: int, hasMemoryGaps: bool)
    ensures totalUsedSize == TotalUsedSize(caches)
    ensures hasMemoryGaps <==> HasGaps(caches, base)
  {
    totalUsedSize := 0;
    hasMemoryGaps := false;
    var k := 0;
    while k < |caches|
      invariant 0 <= k <= |caches|
      invariant totalUsedSize == UsedPrefix(caches, k)
      invariant hasMemoryGaps <==> exists j :: 0 <= j < k && Displaced(caches, base, j)
    {
      assert Displaced(caches, base, k) <==> caches[k].dataPointer != base + totalUsedSize;
      if caches[k].dataPointer != base + totalUsedSize {
        hasMemoryGaps := true;
      }
      totalUsedSize := totalUsedSize + caches[k].usedSize;
      k := k + 1;
    }
  }

  /** Block `k` does not start where the used sizes before it end. */
  predicate Displaced(caches: seq<BlockCache>, base: int, k: nat)
    requires k < |caches|
  {
    caches[k].dataPointer != base + UsedPrefix(caches, k)
  }

  predicate HasGaps(caches: seq<BlockCache>, base: int)
  {
    exists k :: 0 <= k < |caches| && Displaced(caches, base, k)
  }

  /** Freshly imported blocks placed by `setUniformsDataPointer` leave no gaps. */
  lemma FreshLayoutHasNoGaps(caches: seq<BlockCache>, base: int)
    requires forall k :: 0 <= k < |caches| ==> caches[k].usedSize == caches[k].block.size - caches[k].block.alignAmount
    requires forall k :: 0 <= k < |caches| ==> caches[k].dataPointer == base + PaddedPrefix(caches, k)
    ensures !HasGaps(caches, base)
  {
    forall k | 0 <= k < |caches|
      ensures !Displaced(caches, base, k)
    {
      PrefixesAgree(caches, k);
    }
  }

  lemma {:induction false} PrefixesAgree(caches: seq<BlockCache>, k: nat)
    requires k <= |caches|
    requires forall j :: 0 <= j < |caches| ==> caches[j].usedSize == caches[j].block.size - caches[j].block.alignAmount
    ensures PaddedPrefix(caches, k) == UsedPrefix(caches, k)
  {
    if k > 0 {
      PrefixesAgree(caches, k - 1);
    }
  }

  // ---------------------------------------------------------------------
  // Copying

  /** Used sizes that are never negative, so that every block occupies a
      real range. */
  predicate SizesValid(caches: seq<BlockCache>)
  {
    forall k :: 0 <= k < |caches| ==> caches[k].usedSize >= 0
  }

  lemma {:induction false} UsedPrefixMonotone(caches: seq<BlockCache>, j: nat, k: nat)
    requires SizesValid(caches) && j <= k <= |caches|
    ensures 0 <= UsedPrefix(caches, j) <= UsedPrefix(caches, k)
    decreases k
  {
    if j < k {
      UsedPrefixMonotone(caches, j, k - 1);
    } else if k > 0 {
      UsedPrefixMonotone(caches, 0, k - 1);
    }
  }

  /** `memcpy(dst + at, src + from, n)`. */
  function Copy(dst: seq<byte>, at: nat, src: seq<byte>, from: nat, n: nat): (r: seq<byte>)
    requires at + n <= |dst| && from + n <= |src|
    ensures |r| == |dst|
  {
    dst[..at] + src[from..from + n] + dst[at + n..]
  }

  /** The copy writes `n` bytes at `at` and nothing else. */
  lemma CopyFacts(dst: seq<byte>, at: nat, src: seq<byte>, from: nat, n: nat)
    requires at + n <= |dst| && from + n <= |src|
    ensures var r := Copy(dst, at, src, from, n);
            r[..at] == dst[..at] && r[at..at + n] == src[from..from + n] && r[at + n..] == dst[at + n..]
  {
  }

  /** `gpu[at..at + n]` holds `staging[from..from + n]`. */
  predicate Holds(gpu: seq<byte>, at: int, staging: seq<byte>, from: int, n: int)
  {
    && 0 <= n && 0 <= at && at + n <= |gpu| && 0 <= from && from + n <= |staging|
    && gpu[at..at + n] == staging[from..from + n]
  }

  /** Every block's staging bytes lie inside the staging memory. */
  predicate BlocksInside(caches: seq<BlockCache>, staging: seq<byte>)
  {
    forall k :: 0 <= k < |caches| ==> 0 <= caches[k].dataPointer && caches[k].dataPointer + caches[k].usedSize <= |staging|
  }

  /** Block `k`'s used bytes sit at `at + UsedPrefix(k)` in `gpu`. */
  predicate InPlace(caches: seq<BlockCache>, staging: seq<byte>, gpu: seq<byte>, at: int, k: nat)
    requires k < |caches|
  {
    Holds(gpu, at + UsedPrefix(caches, k), staging, caches[k].dataPointer, caches[k].usedSize)
  }

  predicate BlocksAt(caches: seq<BlockCache>, staging: seq<byte>, gpu: seq<byte>, at: int)
  {
    forall k :: 0 <= k < |caches| ==> InPlace(caches, staging, gpu, at, k)
  }

  /** The per-block copy loop, over the first `k` blocks. */
  function CopyBlocks(caches: seq<BlockCache>, staging: seq<byte>, gpu: seq<byte>, at: nat, k: nat): (r: seq<byte>)
    requires SizesValid(caches) && BlocksInside(caches, staging) && k <= |caches|
    requires at + TotalUsedSize(caches) <= |gpu|
    ensures |r| == |gpu|
  {
    if k == 0 then gpu
    else
      var prev := CopyBlocks(caches, staging, gpu, at, k - 1);
      UsedPrefixMonotone(caches, k - 1, |caches|);
      UsedPrefixMonotone(caches, k, |caches|);
      Copy(prev, at + UsedPrefix(caches, k - 1), staging, caches[k-1].dataPointer, caches[k-1].usedSize)
  }

  lemma SliceWithinPrefix(a: seq<byte>, b: seq<byte>, m: nat, x: nat, y: nat)
    requires m <= |a| && m <= |b| && a[..m] == b[..m] && x <= y <= m
    ensures a[x..y] == b[x..y]
  {
    assert a[x..y] == a[..m][x..y];
    assert b[x..y] == b[..m][x..y];
  }

  lemma SuffixWithinSuffix(a: seq<byte>, b: seq<byte>, m: nat, x: nat)
    requires |a| == |b| && m <= x <= |a| && a[m..] == b[m..]
    ensures a[x..] == b[x..]
  {
    assert a[x..] == a[m..][x - m..];
    assert b[x..] == b[m..][x - m..];
  }

  /** Bytes written at or after the end of the first `k` blocks leave those
      blocks in place. */
  lemma EarlierBlocksStay(caches: seq<BlockCache>, staging: seq<byte>, prev: seq<byte>, r: seq<byte>, at: nat, k: nat)
    requires SizesValid(caches) && k < |caches|
    requires 0 <= UsedPrefix(caches, k) && at + UsedPrefix(caches, k) <= |prev| == |r|
    requires r[..at + UsedPrefix(caches, k)] == prev[..at + UsedPrefix(caches, k)]
    requires forall j :: 0 <= j < k ==> InPlace(caches, staging, prev, at, j)
    ensures forall j :: 0 <= j < k ==> InPlace(caches, staging, r, at, j)
  {
    var start := at + UsedPrefix(caches, k);
    forall j | 0 <= j < k
      ensures InPlace(caches, staging, r, at, j)
    {
      assert InPlace(caches, staging, prev, at, j);
      UsedPrefixMonotone(caches, j + 1, k);
      UsedPrefixMonotone(caches, j, k);
      SliceWithinPrefix(r, prev, start, at + UsedPrefix(caches, j), at + UsedPrefix(caches, j) + caches[j].usedSize);
    }
  }

  /** After the first `k` block copies, block `j < k` is in place, and the
      bytes before `at` and after the copied blocks are untouched. */
  lemma {:induction false} CopyBlocksContents(caches: seq<BlockCache>, staging: seq<byte>, gpu: seq<byte>, at: nat, k: nat)
    requires SizesValid(caches) && BlocksInside(caches, staging) && k <= |caches|
    requires at + TotalUsedSize(caches) <= |gpu|
    ensures 0 <= UsedPrefix(caches, k) <= TotalUsedSize(caches)
    ensures forall j :: 0 <= j < k ==> InPlace(caches, staging, CopyBlocks(caches, staging, gpu, at, k), at, j)
    ensures CopyBlocks(caches, staging, gpu, at, k)[..at] == gpu[..at]
    ensures CopyBlocks(caches, staging, gpu, at, k)[at + UsedPrefix(caches, k)..] == gpu[at + UsedPrefix(caches, k)..]
  {
    UsedPrefixMonotone(caches, k, |caches|);
    if k > 0 {
      var prev := CopyBlocks(caches, staging, gpu, at, k - 1);
      CopyBlocksContents(caches, staging, gpu, at, k - 1);
      CopyStep(caches, staging, prev, gpu, at, k - 1);
    }
  }

  /** Copying block `k` next to the `k` blocks already in place keeps them in
      place, puts block `k` in place, and leaves the bytes before `at` and
      after block `k` untouched. */
  lemma CopyStep(caches: seq<BlockCache>, staging: seq<byte>, prev: seq<byte>, gpu: seq<byte>, at: nat, k: nat)
    requires SizesValid(caches) && BlocksInside(caches, staging) && k < |caches|
    requires 0 <= UsedPrefix(caches, k) && at + UsedPrefix(caches, k + 1) <= |prev| == |gpu|
    requires forall j :: 0 <= j < k ==> InPlace(caches, staging, prev, at, j)
    requires prev[..at] == gpu[..at]
    requires prev[at + UsedPrefix(caches, k)..] == gpu[at + UsedPrefix(caches, k)..]
    ensures var r := Copy(prev, at + UsedPrefix(caches, k), staging, caches[k].dataPointer, caches[k].usedSize);
            && (forall j :: 0 <= j < k + 1 ==> InPlace(caches, staging, r, at, j))
            && r[..at] == gpu[..at]
            && r[at + UsedPrefix(caches, k + 1)..] == gpu[at + UsedPrefix(caches, k + 1)..]
  {
    var start := at + UsedPrefix(caches, k);
    var r := Copy(prev, start, staging, caches[k].dataPointer, caches[k].usedSize);
    CopyFacts(prev, start, staging, caches[k].dataPointer, caches[k].usedSize);
    EarlierBlocksStay(caches, staging, prev, r, at, k);
    assert InPlace(caches, staging, r, at, k);
    SliceWithinPrefix(r, prev, start, 0, at);
    SuffixWithinSuffix(prev, gpu, start, at + UsedPrefix(caches, k + 1));
  }

  /** Without gaps, the first `k` block copies leave the staging bytes of
      the first `UsedPrefix(k)` bytes from the base in one piece. */
  lemma {:induction false} CopyBlocksContiguous(caches: seq<BlockCache>, staging: seq<byte>, gpu: seq<byte>,
                                                at: nat, base: int, k: nat)
    requires SizesValid(caches) && BlocksInside(caches, staging) && k <= |caches|
    requires at + TotalUsedSize(caches) <= |gpu|
    requires !HasGaps(caches, base) && 0 <= base && base + TotalUsedSize(caches) <= |staging|
    ensures 0 <= UsedPrefix(caches, k) <= TotalUsedSize(caches)
    ensures CopyBlocks(caches, staging, gpu, at, k)[at..at + UsedPrefix(caches, k)]
            == staging[base..base + UsedPrefix(caches, k)]
  {
    UsedPrefixMonotone(caches, k, |caches|);
    if k > 0 {
      var prev := CopyBlocks(caches, staging, gpu, at, k - 1);
      var r := CopyBlocks(caches, staging, gpu, at, k);
      var p, q := UsedPrefix(caches, k - 1), UsedPrefix(caches, k);
      CopyBlocksContiguous(caches, staging, gpu, at, base, k - 1);
      assert !Displaced(caches, base, k - 1);
      assert r == Copy(prev, at + p, staging, base + p, caches[k-1].usedSize);
      ContiguousStep(prev, staging, at, base, p, caches[k-1].usedSize);
    }
  }

  /** Copying the next `n` staging bytes right after a range that already
      holds the staging bytes before them extends that range. */
  lemma ContiguousStep(prev: seq<byte>, staging: seq<byte>, at: nat, base: nat, p: nat, n: nat)
    requires at + p + n <= |prev| && base + p + n <= |staging|
    requires prev[at..at + p] == staging[base..base + p]
    ensures Copy(prev, at + p, staging, base + p, n)[at..at + p + n] == staging[base..base + p + n]
  {
    var r := Copy(prev, at + p, staging, base + p, n);
    CopyFacts(prev, at + p, staging, base + p, n);
    SliceWithinPrefix(r, prev, at + p, at, at + p);
    assert r[at..at + p + n] == r[at..at + p] + r[at + p..at + p + n];
    assert staging[base..base + p + n] == staging[base..base + p] + staging[base + p..base + p + n];
  }

  /** Without gaps, the bulk copy writes the same bytes as the per-block copies. */
  lemma BulkEqualsPerBlock(caches: seq<BlockCache>, staging: seq<byte>, gpu: seq<byte>, at: nat, base: int)
    requires SizesValid(caches) && BlocksInside(caches, staging)
    requires at + TotalUsedSize(caches) <= |gpu|
    requires !HasGaps(caches, base) && 0 <= base && base + TotalUsedSize(caches) <= |staging|
    ensures TotalUsedSize(caches) >= 0
    ensures Copy(gpu, at, staging, base, TotalUsedSize(caches)) == CopyBlocks(caches, staging, gpu, at, |caches|)
  {
    var total := TotalUsedSize(caches);
    var each := CopyBlocks(caches, staging, gpu, at, |caches|);
    CopyBlocksContents(caches, staging, gpu, at, |caches|);
    CopyBlocksContiguous(caches, staging, gpu, at, base, |caches|);
    CopyFacts(gpu, at, staging, base, total);
    assert each == each[..at] + each[at..at + total] + each[at + total..];
  }

  datatype CommitResult = CommitResult(state: State, gpu: seq<byte>, copied: bool)

  /** `commitUniformBlocks`: acquires a range of `TotalUsedSize` bytes
      (`acquired` is what the buffer manager returns) and copies the staging
      bytes there, in one piece when the blocks are contiguous and block by
      block otherwise. Nothing is copied without an introspected program,
      with nothing to copy, or when the range is not mapped. */
  function Commit(s: State, staging: seq<byte>, acquired: UboParams, gpu: seq<byte>): (r: CommitResult)
    requires SizesValid(s.caches) && BlocksInside(s.caches, staging)
    requires Introspected(s) && TotalUsedSize(s.caches) > 0 && acquired.mapBase ==>
               0 <= acquired.offset && acquired.offset + TotalUsedSize(s.caches) <= |gpu|
    requires Introspected(s) && !HasGaps(s.caches, s.dataPointer) && TotalUsedSize(s.caches) > 0 && acquired.mapBase ==>
               0 <= s.dataPointer && s.dataPointer + TotalUsedSize(s.caches) <= |staging|
    ensures !Introspected(s) || TotalUsedSize(s.caches) <= 0 ==> r == CommitResult(s, gpu, false)
    ensures Introspected(s) && TotalUsedSize(s.caches) > 0 ==> r.state == s.(ubo := acquired)
    ensures r.copied <==> Introspected(s) && TotalUsedSize(s.caches) > 0 && acquired.mapBase
    ensures !r.copied ==> r.gpu == gpu
    ensures r.copied ==> |r.gpu| == |gpu| && BlocksAt(s.caches, staging, r.gpu, acquired.offset)
    ensures r.copied ==> r.gpu[..acquired.offset] == gpu[..acquired.offset]
    ensures r.copied ==> r.gpu[acquired.offset + TotalUsedSize(s.caches)..] == gpu[acquired.offset + TotalUsedSize(s.caches)..]
  {
    var total := TotalUsedSize(s.caches);
    if !Introspected(s) || total <= 0 then CommitResult(s, gpu, false)
    else if !acquired.mapBase then CommitResult(s.(ubo := acquired), gpu, false)
    else
      CopyBlocksContents(s.caches, staging, gpu, acquired.offset, |s.caches|);
      if HasGaps(s.caches, s.dataPointer) then
        CommitResult(s.(ubo := acquired), CopyBlocks(s.caches, staging, gpu, acquired.offset, |s.caches|), true)
      else
        BulkEqualsPerBlock(s.caches, staging, gpu, acquired.offset, s.dataPointer);
        CommitResult(s.(ubo := acquired), Copy(gpu, acquired.offset, staging, s.dataPointer, total), true)
  }

  /** One `bindBufferRange(bindingIndex, offset, size)` call. */
  datatype Range = Range(bindingIndex: nat, offset: int, size: int)

  /** `bind`: every block is bound to the binding point of its own index, at
      the offset commit copied it to. Nothing is bound without a buffer. */
  function Bind(s: State): (r: seq<Range>)
    ensures !s.ubo.hasBuffer ==> r == []
    ensures s.ubo.hasBuffer ==> |r| == |s.caches|
    ensures s.ubo.hasBuffer ==>
              forall k :: 0 <= k < |r| ==>
                r[k] == Range(s.caches[k].block.index, s.ubo.offset + UsedPrefix(s.caches, k), s.caches[k].usedSize)
  {
    if !s.ubo.hasBuffer then [] else BindFrom(s.caches, s.ubo.offset, 0, 0)
  }

  /** The bind loop from block `k`, `moreOffset` bytes into the range. */
  function BindFrom(caches: seq<BlockCache>, offset: int, k: nat, moreOffset: int): (r: seq<Range>)
    requires k <= |caches| && moreOffset == UsedPrefix(caches, k)
    ensures |r| == |caches| - k
    ensures forall j :: 0 <= j < |r| ==>
              r[j] == Range(caches[k + j].block.index, offset + UsedPrefix(caches, k + j), caches[k + j].usedSize)
    decreases |caches| - k
  {
    if k == |caches| then []
    else
      [Range(caches[k].block.index, offset + moreOffset, caches[k].usedSize)]
        + BindFrom(caches, offset, k + 1, moreOffset + caches[k].usedSize)
  }

  // ---------------------------------------------------------------------
  // Offset alignment

  /** The check `bind` asserts before each `bindBufferRange`: every range
      starts at a multiple of `GL_UNIFORM_BUFFER_OFFSET_ALIGNMENT`. */
  predicate BindAligned(ranges: seq<Range>, alignment: nat)
    requires alignment > 0
  {
    forall k :: 0 <= k < |ranges| ==> ranges[k].offset % alignment == 0
  }

  /** A non-zero multiple of `m` is at least `m` away from 0. */
  lemma {:induction false} MultipleAtLeast(m: int, d: int)
    requires m > 0 && d >= 1
    ensures m * d >= m
    decreases d
  {
    if d > 1 {
      MultipleAtLeast(m, d - 1);
      assert m * d == m * (d - 1) + m;
    }
  }

  /** The remainder of `m * q + r` is `r` when `0 <= r < m`. */
  lemma ModOfDecomposition(y: int, m: int, q: int, r: int)
    requires m > 0 && 0 <= r < m && y == m * q + r
    ensures y % m == r
  {
    var d := q - y / m;
    assert y == m * (y / m) + y % m && 0 <= y % m < m;
    assert m * d == m * q - m * (y / m);
    assert m * d == y % m - r;
    if d >= 1 {
      MultipleAtLeast(m, d);
    } else if d <= -1 {
      MultipleAtLeast(m, -d);
    }
    assert d == 0;
  }

  /** Adding a multiple of `m` does not change the remainder. */
  lemma ModAddMultiple(x: int, u: int, m: nat)
    requires m > 0 && x % m == 0
    ensures (x + u) % m == u % m
  {
    var q, a, r := x / m, u / m, u % m;
    assert x == m * q;
    assert u == m * a + r && 0 <= r < m;
    assert x + u == m * (q + a) + r by {
      assert m * (q + a) == m * q + m * a;
    }
    ModOfDecomposition(x + u, m, q + a, r);
  }

  /** Used sizes that are all multiples of `alignment` add up to one. */
  lemma {:induction false} AlignedPrefix(caches: seq<BlockCache>, k: nat, alignment: nat)
    requires alignment > 0 && k <= |caches|
    requires forall j :: 0 <= j < k ==> caches[j].usedSize % alignment == 0
    ensures UsedPrefix(caches, k) % alignment == 0
  {
    if k > 0 {
      AlignedPrefix(caches, k - 1, alignment);
      ModAddMultiple(UsedPrefix(caches, k - 1), caches[k-1].usedSize, alignment);
    }
  }

  /** With the range start aligned and every earlier block's used size a
      multiple of the alignment, block `k` is bound at an aligned offset. */
  lemma BindAlignedUpTo(s: State, alignment: nat, k: nat)
    requires alignment > 0 && s.ubo.hasBuffer && k < |s.caches|
    requires s.ubo.offset % alignment == 0
    requires forall j :: 0 <= j < k ==> s.caches[j].usedSize % alignment == 0
    ensures Bind(s)[k].offset % alignment == 0
  {
    AlignedPrefix(s.caches, k, alignment);
    ModAddMultiple(s.ubo.offset, UsedPrefix(s.caches, k), alignment);
  }

  /** Conversely, with the range start aligned, the first block whose used
      size is not a multiple of the alignment puts the next block at a
      misaligned offset, and the assertion fails there. */
  lemma BindMisalignedAfter(s: State, alignment: nat, k: nat)
    requires alignment > 0 && s.ubo.hasBuffer && k + 1 < |s.caches|
    requires s.ubo.offset % alignment == 0
    requires forall j :: 0 <= j < k ==> s.caches[j].usedSize % alignment == 0
    requires s.caches[k].usedSize % alignment != 0
    ensures Bind(s)[k + 1].offset % alignment != 0
    ensures !BindAligned(Bind(s), alignment)
  {
    BindAlignedUpTo(s, alignment, k);
    ModAddMultiple(Bind(s)[k].offset, s.caches[k].usedSize, alignment);
  }

  /** The assertion holds for every block exactly when there is nothing to
      bind, or the range start is aligned and every block but the last
      has a used size that is a multiple of the alignment. */
  lemma BindAlignedIff(s: State, alignment: nat)
    requires alignment > 0 && s.ubo.hasBuffer
    ensures BindAligned(Bind(s), alignment) <==>
              |s.caches| == 0 ||
              (s.ubo.offset % alignment == 0 &&
               forall j :: 0 <= j < |s.caches| - 1 ==> s.caches[j].usedSize % alignment == 0)
  {
    var r := Bind(s);
    if |s.caches| > 0 {
      if BindAligned(r, alignment) {
        assert r[0].offset == s.ubo.offset;
        forall j | 0 <= j < |s.caches| - 1
          ensures s.caches[j].usedSize % alignment == 0
        {
          assert r[j + 1].offset == r[j].offset + s.caches[j].usedSize;
          ModAddMultiple(r[j].offset, s.caches[j].usedSize, alignment);
        }
      }
      if s.ubo.offset % alignment == 0 &&
         forall j :: 0 <= j < |s.caches| - 1 ==> s.caches[j].usedSize % alignment == 0 {
        forall k | 0 <= k < |r|
          ensures r[k].offset % alignment == 0
        {
          BindAlignedUpTo(s, alignment, k);
        }
      }
    }
  }

  /** After a commit, each bound range holds exactly its block's staging bytes. */
  lemma BoundRangesHoldBlocks(s: State, staging: seq<byte>, acquired: UboParams, gpu: seq<byte>)
    requires SizesValid(s.caches) && BlocksInside(s.caches, staging)
    requires Introspected(s) && TotalUsedSize(s.caches) > 0 && acquired.mapBase ==>
               0 <= acquired.offset && acquired.offset + TotalUsedSize(s.caches) <= |gpu|
    requires Introspected(s) && !HasGaps(s.caches, s.dataPointer) && TotalUsedSize(s.caches) > 0 && acquired.mapBase ==>
               0 <= s.dataPointer && s.dataPointer + TotalUsedSize(s.caches) <= |staging|
    requires acquired.hasBuffer
    ensures var c := Commit(s, staging, acquired, gpu);
            c.copied ==>
              var ranges := Bind(c.state);
              && |ranges| == |s.caches|
              && forall k :: 0 <= k < |ranges| ==>
                   Holds(c.gpu, ranges[k].offset, staging, s.caches[k].dataPointer, ranges[k].size)
  {
    var c := Commit(s, staging, acquired, gpu);
    if c.copied {
      var ranges := Bind(c.state);
      forall k | 0 <= k < |ranges|
        ensures Holds(c.gpu, ranges[k].offset, staging, s.caches[k].dataPointer, ranges[k].size)
      {
        assert InPlace(s.caches, staging, c.gpu, acquired.offset, k);
      }
    }
  }
}
