/** `BinaryShaderCache`: a directory of program binaries named by
    (platform hash, binary format, shader hash), with first-writer-wins
    saving, platform-selective pruning, clearing and six statistics counters.

    The directory is a sequence of entries with distinct names: a map from
    file name to file contents whose iteration order (the order
    `fs::Directory::readNext` returns names in) is fixed. */
module BinaryShaderCache {
  import opened Common
  import opened ShaderFilename
  import SourceHash

  datatype Entry = Entry(name: string, data: seq<byte>)

  type Directory = seq<Entry>

  /** A file system never lists one name twice. */
  predicate UniqueNames(d: Directory)
  {
    forall i, j :: 0 <= i < j < |d| ==> d[i].name != d[j].name
  }

  /** The contents of the file called `name`, if there is one. */
  function Lookup(d: Directory, name: string): (r: Option<seq<byte>>)
    ensures r.Some? <==> exists i :: 0 <= i < |d| && d[i].name == name
    ensures r.Some? ==> exists i :: 0 <= i < |d| && d[i] == Entry(name, r.value)
  {
    if |d| == 0 then None
    else if d[|d|-1].name == name then Some(d[|d|-1].data)
    else
      var r := Lookup(d[..|d|-1], name);
      assert forall i :: 0 <= i < |d| - 1 ==> d[..|d|-1][i] == d[i];
      r
  }

  /** A file appended to the directory hides nothing but its own name. */
  lemma LookupAppend(d: Directory, e: Entry, name: string)
    ensures Lookup(d + [e], name) == if e.name == name then Some(e.data) else Lookup(d, name)
  {
    assert (d + [e])[..|d|] == d;
  }

  datatype Statistics = Statistics(
    loadedShaders: nat,
    savedShaders: nat,
    platformFilesCount: nat,
    platformBytesCount: nat,
    totalFilesCount: nat,
    totalBytesCount: nat)

  /** The state of the cache object together with its directory. */
  datatype Cache = Cache(
    enabled: bool,
    available: bool,
    platformHash: u64,
    directory: Directory,
    stats: Statistics)

  // ---------------------------------------------------------------------
  // Classifying entries

  /** A validly named binary of any platform. */
  predicate IsCacheFile(e: Entry)
  {
    IsShaderFilename(e.name)
  }

  /** A validly named binary of the platform `ph`. */
  predicate IsPlatformFile(ph: u64, e: Entry)
  {
    var k := ParseShaderFilename(e.name); k.Some? && k.value.platformHash == ph
  }

  /** A validly named binary of some other platform than `ph`. */
  predicate IsStaleFile(ph: u64, e: Entry)
  {
    var k := ParseShaderFilename(e.name); k.Some? && k.value.platformHash != ph
  }

  type Selector = Entry -> bool

  function CacheFiles(): Selector { e => IsCacheFile(e) }
  function PlatformFiles(ph: u64): Selector { e => IsPlatformFile(ph, e) }
  function StaleFiles(ph: u64): Selector { e => IsStaleFile(ph, e) }
  /** What `prune` leaves behind. */
  function AllButStale(ph: u64): Selector { e => !IsStaleFile(ph, e) }
  /** What `clear` leaves behind. */
  function AllButCacheFiles(): Selector { e => !IsCacheFile(e) }

  lemma SelectorFacts(ph: u64)
    ensures forall e :: CacheFiles()(e) == (PlatformFiles(ph)(e) || StaleFiles(ph)(e))
    ensures forall e :: !(PlatformFiles(ph)(e) && StaleFiles(ph)(e))
    ensures forall e :: PlatformFiles(ph)(e) == (AllButStale(ph)(e) && CacheFiles()(e))
    ensures forall e :: PlatformFiles(ph)(e) == (AllButStale(ph)(e) && PlatformFiles(ph)(e))
    ensures forall e :: !(AllButStale(ph)(e) && StaleFiles(ph)(e))
    ensures forall e :: !(AllButCacheFiles()(e) && CacheFiles()(e))
    ensures forall e :: !(AllButCacheFiles()(e) && PlatformFiles(ph)(e))
  {
  }

  // ---------------------------------------------------------------------
  // Counting

  /** The number of entries `sel` selects. */
  function Count(d: Directory, sel: Selector): nat
  {
    if |d| == 0 then 0 else Count(d[..|d|-1], sel) + (if sel(d[|d|-1]) then 1 else 0)
  }

  /** The total size of the entries `sel` selects. */
  function Bytes(d: Directory, sel: Selector): nat
  {
    if |d| == 0 then 0 else Bytes(d[..|d|-1], sel) + (if sel(d[|d|-1]) then |d[|d|-1].data| else 0)
  }

  /** The entries `sel` selects, in directory order. */
  function Filter(d: Directory, sel: Selector): (r: Directory)
    ensures |r| <= |d|
  {
    if |d| == 0 then []
    else Filter(d[..|d|-1], sel) + (if sel(d[|d|-1]) then [d[|d|-1]] else [])
  }

  /** The statistics a full rescan of the directory rebuilds. */
  predicate Consistent(c: Cache)
  {
    && UniqueNames(c.directory)
    && c.stats.platformFilesCount == Count(c.directory, PlatformFiles(c.platformHash))
    && c.stats.platformBytesCount == Bytes(c.directory, PlatformFiles(c.platformHash))
    && c.stats.totalFilesCount == Count(c.directory, CacheFiles())
    && c.stats.totalBytesCount == Bytes(c.directory, CacheFiles())
  }

  lemma {:induction false} CountAppend(d: Directory, e: Entry, sel: Selector)
    ensures Count(d + [e], sel) == Count(d, sel) + (if sel(e) then 1 else 0)
    ensures Bytes(d + [e], sel) == Bytes(d, sel) + (if sel(e) then |e.data| else 0)
    ensures Filter(d + [e], sel) == Filter(d, sel) + (if sel(e) then [e] else [])
  {
    assert (d + [e])[..|d|] == d;
  }

  /** A selector implied by another counts no more than it. */
  lemma {:induction false} CountSubset(d: Directory, small: Selector, big: Selector)
    requires forall e :: small(e) ==> big(e)
    ensures Count(d, small) <= Count(d, big)
    ensures Bytes(d, small) <= Bytes(d, big)
  {
    if |d| > 0 {
      CountSubset(d[..|d|-1], small, big);
    }
  }

  lemma {:induction false} CountPrefix(d: Directory, i: nat, sel: Selector)
    requires i <= |d|
    ensures Count(d[..i], sel) <= Count(d, sel)
    ensures Bytes(d[..i], sel) <= Bytes(d, sel)
    decreases |d| - i
  {
    if i < |d| {
      CountPrefix(d, i + 1, sel);
      assert d[..i+1][..i] == d[..i];
    } else {
      assert d[..i] == d;
    }
  }

  /** Counting over two disjoint selectors adds up. */
  lemma {:induction false} CountSplit(d: Directory, whole: Selector, a: Selector, b: Selector)
    requires forall e :: whole(e) == (a(e) || b(e))
    requires forall e :: !(a(e) && b(e))
    ensures Count(d, whole) == Count(d, a) + Count(d, b)
    ensures Bytes(d, whole) == Bytes(d, a) + Bytes(d, b)
  {
    if |d| > 0 {
      CountSplit(d[..|d|-1], whole, a, b);
    }
  }

  /** Counting `sel` after filtering by `keep` counts `both`, the conjunction. */
  lemma {:induction false} CountFiltered(d: Directory, keep: Selector, sel: Selector, both: Selector)
    requires forall e :: both(e) == (keep(e) && sel(e))
    ensures Count(Filter(d, keep), sel) == Count(d, both)
    ensures Bytes(Filter(d, keep), sel) == Bytes(d, both)
  {
    if |d| > 0 {
      var p := d[..|d|-1];
      var e := d[|d|-1];
      CountFiltered(p, keep, sel, both);
      if keep(e) {
        CountAppend(Filter(p, keep), e, sel);
      } else {
        assert Filter(d, keep) == Filter(p, keep) + [] == Filter(p, keep);
      }
    }
  }

  /** A selector that never holds counts nothing. */
  lemma {:induction false} CountNone(d: Directory, sel: Selector)
    requires forall e :: !sel(e)
    ensures Count(d, sel) == 0 && Bytes(d, sel) == 0
  {
    if |d| > 0 {
      CountNone(d[..|d|-1], sel);
    }
  }

  lemma {:induction false} FilterMembers(d: Directory, sel: Selector)
    ensures forall e :: e in Filter(d, sel) <==> e in d && sel(e)
  {
    if |d| > 0 {
      FilterMembers(d[..|d|-1], sel);
      assert d == d[..|d|-1] + [d[|d|-1]];
    }
  }

  /** Filtering a directory whose every entry is selected changes nothing. */
  lemma {:induction false} FilterAll(d: Directory, sel: Selector)
    requires forall i :: 0 <= i < |d| ==> sel(d[i])
    ensures Filter(d, sel) == d
  {
    if |d| > 0 {
      var p := d[..|d|-1];
      assert forall i :: 0 <= i < |p| ==> p[i] == d[i];
      FilterAll(p, sel);
      assert d == p + [d[|d|-1]];
    }
  }

  lemma {:induction false} FilterKeepsUniqueNames(d: Directory, sel: Selector)
    requires UniqueNames(d)
    ensures UniqueNames(Filter(d, sel))
  {
    if |d| > 0 {
      var p := d[..|d|-1];
      assert UniqueNames(p) by {
        assert forall i :: 0 <= i < |p| ==> p[i] == d[i];
      }
      FilterKeepsUniqueNames(p, sel);
      FilterMembers(p, sel);
      var fp := Filter(p, sel);
      var e := d[|d|-1];
      forall x | x in fp
        ensures x.name != e.name
      {
        assert x in p;
        var i :| 0 <= i < |p| && p[i] == x;
        assert d[i] == x;
      }
    }
  }

  lemma FilterMaybeUnique(d: Directory, sel: Selector)
    ensures UniqueNames(d) ==> UniqueNames(Filter(d, sel))
  {
    if UniqueNames(d) {
      FilterKeepsUniqueNames(d, sel);
    }
  }

  // ---------------------------------------------------------------------
  // Operations

  /** `statistics_` after `clearStatistics()`; also the initial value: all six counters are 0. */
  const ZeroStatistics := Statistics(0, 0, 0, 0, 0, 0)

  /** `collectStatistics()`: the counters rebuilt from the directory, with the
      request counters reset by its leading `clearStatistics()`. */
  function CollectStatistics(d: Directory, ph: u64): (s: Statistics)
    ensures s.loadedShaders == 0 && s.savedShaders == 0
    ensures s.platformFilesCount <= s.totalFilesCount
    ensures s.platformBytesCount <= s.totalBytesCount
  {
    SelectorFacts(ph);
    CountSplit(d, CacheFiles(), PlatformFiles(ph), StaleFiles(ph));
    Statistics(0, 0, Count(d, PlatformFiles(ph)), Bytes(d, PlatformFiles(ph)),
               Count(d, CacheFiles()), Bytes(d, CacheFiles()))
  }

  /** The scanning loop of `collectStatistics()`, one directory entry at a time. */
  method CollectStatisticsScan(d: Directory, ph: u64) returns (s: Statistics)
    ensures s == CollectStatistics(d, ph)
  {
    var platformFiles, platformBytes, totalFiles, totalBytes := 0, 0, 0, 0;
    var i := 0;
    while i < |d|
      invariant 0 <= i <= |d|
      invariant platformFiles == Count(d[..i], PlatformFiles(ph)) && platformBytes == Bytes(d[..i], PlatformFiles(ph))
      invariant totalFiles == Count(d[..i], CacheFiles()) && totalBytes == Bytes(d[..i], CacheFiles())
    {
      var e := d[i];
      CollectStep(d, i, ph);
      var key := ParseShaderFilename(e.name);
      if key.Some? {
        var fileSize := |e.data|;
        if key.value.platformHash == ph {
          platformFiles, platformBytes := platformFiles + 1, platformBytes + fileSize;
        }
        totalFiles, totalBytes := totalFiles + 1, totalBytes + fileSize;
      }
      i := i + 1;
    }
    assert d[..i] == d;
    s := Statistics(0, 0, platformFiles, platformBytes, totalFiles, totalBytes);
  }

  /** One entry of the statistics scan: a parsable name counts towards the
      totals, and towards the platform counters when its hash is `ph`. */
  lemma CollectStep(d: Directory, i: nat, ph: u64)
    requires i < |d|
    ensures var key := ParseShaderFilename(d[i].name);
            && Count(d[..i+1], PlatformFiles(ph)) == Count(d[..i], PlatformFiles(ph)) + (if key.Some? && key.value.platformHash == ph then 1 else 0)
            && Bytes(d[..i+1], PlatformFiles(ph)) == Bytes(d[..i], PlatformFiles(ph)) + (if key.Some? && key.value.platformHash == ph then |d[i].data| else 0)
            && Count(d[..i+1], CacheFiles()) == Count(d[..i], CacheFiles()) + (if key.Some? then 1 else 0)
            && Bytes(d[..i+1], CacheFiles()) == Bytes(d[..i], CacheFiles()) + (if key.Some? then |d[i].data| else 0)
  {
    assert d[..i+1] == d[..i] + [d[i]];
    CountAppend(d[..i], d[i], PlatformFiles(ph));
    CountAppend(d[..i], d[i], CacheFiles());
  }

  /** The constructor. `enable` is stored as given, even when the cache ends
      up unavailable. With program binaries supported, the platform hash is
      computed from the driver's renderer and version strings; `existing` is
      what the directory held if it already existed, and `created` whether
      creating a missing directory succeeded. */
  function NewCache(enable: bool, supported: bool, renderer: seq<byte>, version: seq<byte>, h: SourceHash.Hasher,
                    dirExists: bool, existing: Directory, created: bool): (c: Cache)
    requires UniqueNames(existing)
    ensures c.enabled == enable
    ensures c.available <==> supported && (dirExists || created)
    ensures supported ==> c.platformHash == SourceHash.PlatformHash(renderer, version, SourceHash.PlatformStringCapacity, h)
    ensures !supported ==> c.platformHash == 0
    ensures supported && dirExists ==> c.directory == existing
    ensures Consistent(c)
    ensures c.stats.loadedShaders == 0 && c.stats.savedShaders == 0
    ensures !dirExists ==> c.stats == ZeroStatistics && c.directory == []
  {
    if !supported then Cache(enable, false, 0, [], ZeroStatistics)
    else
      var platformHash := SourceHash.PlatformHash(renderer, version, SourceHash.PlatformStringCapacity, h);
      if !dirExists then Cache(enable, created, platformHash, [], ZeroStatistics)
      else Cache(enable, true, platformHash, existing, CollectStatistics(existing, platformHash))
  }

  /** `setEnabled`: the cache can only be switched on when it is available. */
  function SetEnabled(c: Cache, enabled: bool): (r: Cache)
    ensures r.enabled == (enabled && c.available)
    ensures r.(enabled := c.enabled) == c
  {
    c.(enabled := enabled && c.available)
  }

  /** Both flags every public operation checks first. */
  predicate Usable(c: Cache)
  {
    c.enabled && c.available
  }

  function FileNameOf(c: Cache, format: u32, hash: u64): string
  {
    ShaderFilename.ShaderFilename(CacheKey(c.platformHash, format, hash))
  }

  /** `binarySize`: the size of the cached binary, or 0 when the cache is not
      usable or holds no such file. */
  function BinarySize(c: Cache, format: u32, hash: u64): (n: nat)
    ensures !Usable(c) ==> n == 0
    ensures Usable(c) && Lookup(c.directory, FileNameOf(c, format, hash)).None? ==> n == 0
    ensures Usable(c) && Lookup(c.directory, FileNameOf(c, format, hash)).Some? ==>
              n == |Lookup(c.directory, FileNameOf(c, format, hash)).value|
  {
    if !c.enabled || !c.available then 0
    else
      var file := Lookup(c.directory, FileNameOf(c, format, hash));
      if file.Some? then |file.value| else 0
  }

  /** A new file for one format of a shader leaves the cached size of every
      other format of that shader as it was. */
  lemma AddedFileSizes(c: Cache, format: u32, hash: u64, data: seq<byte>, f: u32)
    ensures var added := c.(directory := c.directory + [Entry(FileNameOf(c, format, hash), data)]);
            BinarySize(added, f, hash) == if f == format && Usable(c) then |data| else BinarySize(c, f, hash)
  {
    var name := FileNameOf(c, f, hash);
    LookupAppend(c.directory, Entry(FileNameOf(c, format, hash), data), name);
    if f != format && FileNameOf(c, format, hash) == name {
      ShaderFilename.FilenameInjective(CacheKey(c.platformHash, format, hash), CacheKey(c.platformHash, f, hash));
    }
  }

  datatype LoadResult = LoadResult(cache: Cache, data: Option<seq<byte>>, bufferSize: nat)

  /** `loadFromCache`: reads the whole file into the reusable buffer (which
      grows to fit) and counts the load; `canOpen` is whether the file
      can be opened for reading. */
  function LoadFromCache(c: Cache, format: u32, hash: u64, canOpen: bool, bufferSize: nat): (r: LoadResult)
    ensures !Usable(c) ==> r == LoadResult(c, None, bufferSize)
    ensures r.data.Some? <==> Usable(c) && Lookup(c.directory, FileNameOf(c, format, hash)).Some? && canOpen
    ensures r.data.Some? ==> r.data == Lookup(c.directory, FileNameOf(c, format, hash))
    ensures r.data.Some? ==> r.cache == c.(stats := c.stats.(loadedShaders := c.stats.loadedShaders + 1))
    ensures r.data.None? ==> r.cache == c && r.bufferSize == bufferSize
    ensures r.bufferSize >= bufferSize
    ensures r.data.Some? ==> r.bufferSize >= |r.data.value|
  {
    if !c.enabled || !c.available then LoadResult(c, None, bufferSize)
    else
      var file := Lookup(c.directory, FileNameOf(c, format, hash));
      if file.Some? && canOpen then
        var fileSize := |file.value|;
        var grown := if bufferSize < fileSize then fileSize else bufferSize;
        LoadResult(c.(stats := c.stats.(loadedShaders := c.stats.loadedShaders + 1)), file, grown)
      else LoadResult(c, None, bufferSize)
  }

  datatype SaveResult = SaveResult(cache: Cache, written: bool)

  /** `saveToCache`: writes the first `length` bytes of `buffer` under the
      key's name unless a file of that name already exists (first writer
      wins); `canOpen` is whether the file can be opened for writing. */
  function SaveToCache(c: Cache, length: i32, buffer: seq<byte>, format: u32, hash: u64, canOpen: bool): (r: SaveResult)
    requires length > 0 ==> length <= |buffer|
    ensures r.written <==> Usable(c) && length > 0 && Lookup(c.directory, FileNameOf(c, format, hash)).None? && canOpen
    ensures !r.written ==> r.cache == c
    ensures r.written ==> r.cache.directory == c.directory + [Entry(FileNameOf(c, format, hash), buffer[..length])]
    ensures r.written ==> r.cache.stats == Statistics(
              c.stats.loadedShaders, c.stats.savedShaders + 1,
              c.stats.platformFilesCount + 1, c.stats.platformBytesCount + length,
              c.stats.totalFilesCount + 1, c.stats.totalBytesCount + length)
    ensures r.cache.(directory := c.directory, stats := c.stats) == c
    ensures Consistent(c) ==> Consistent(r.cache)
  {
    if !c.enabled || !c.available || length <= 0 then SaveResult(c, false)
    else
      var name := FileNameOf(c, format, hash);
      if Lookup(c.directory, name).Some? || !canOpen then SaveResult(c, false)
      else
        var e := Entry(name, buffer[..length]);
        var s := c.stats;
        var stats := s.(savedShaders := s.savedShaders + 1,
                        platformFilesCount := s.platformFilesCount + 1,
                        platformBytesCount := s.platformBytesCount + length,
                        totalFilesCount := s.totalFilesCount + 1,
                        totalBytesCount := s.totalBytesCount + length);
        var r := c.(directory := c.directory + [e], stats := stats);
        SaveKeepsConsistent(c, CacheKey(c.platformHash, format, hash), e, r);
        SaveResult(r, true)
  }

  /** A new file named after this platform's key counts once in each counter. */
  lemma SaveKeepsConsistent(c: Cache, k: CacheKey, e: Entry, r: Cache)
    requires k.platformHash == c.platformHash && e.name == ShaderFilename.ShaderFilename(k)
    requires Lookup(c.directory, e.name).None?
    requires r.directory == c.directory + [e] && r.platformHash == c.platformHash
    requires r.stats.platformFilesCount == c.stats.platformFilesCount + 1
    requires r.stats.platformBytesCount == c.stats.platformBytesCount + |e.data|
    requires r.stats.totalFilesCount == c.stats.totalFilesCount + 1
    requires r.stats.totalBytesCount == c.stats.totalBytesCount + |e.data|
    ensures Consistent(c) ==> Consistent(r)
  {
    FilenameRoundTrip(k);
    assert IsPlatformFile(c.platformHash, e) && IsCacheFile(e);
    CountAppend(c.directory, e, PlatformFiles(c.platformHash));
    CountAppend(c.directory, e, CacheFiles());
  }

  /** `prune`: deletes exactly the validly named files of other platforms and
      takes their number and size off the totals; the platform counters stay. */
  function Prune(c: Cache): (r: Cache)
    requires Consistent(c)
    ensures r.directory == Filter(c.directory, AllButStale(c.platformHash))
    ensures forall e :: e in r.directory <==> e in c.directory && !IsStaleFile(c.platformHash, e)
    ensures r.stats.totalFilesCount == c.stats.totalFilesCount - Count(c.directory, StaleFiles(c.platformHash))
    ensures r.stats.totalBytesCount == c.stats.totalBytesCount - Bytes(c.directory, StaleFiles(c.platformHash))
    ensures r.stats.(totalFilesCount := c.stats.totalFilesCount, totalBytesCount := c.stats.totalBytesCount) == c.stats
    ensures r.(directory := c.directory, stats := c.stats) == c
    ensures Consistent(r)
  {
    var ph := c.platformHash;
    PruneFacts(c.directory, ph);
    c.(directory := Filter(c.directory, AllButStale(ph)),
       stats := c.stats.(totalFilesCount := c.stats.totalFilesCount - Count(c.directory, StaleFiles(ph)),
                         totalBytesCount := c.stats.totalBytesCount - Bytes(c.directory, StaleFiles(ph))))
  }

  lemma PruneFacts(d: Directory, ph: u64)
    ensures Count(d, CacheFiles()) == Count(d, PlatformFiles(ph)) + Count(d, StaleFiles(ph))
    ensures Bytes(d, CacheFiles()) == Bytes(d, PlatformFiles(ph)) + Bytes(d, StaleFiles(ph))
    ensures Count(Filter(d, AllButStale(ph)), CacheFiles()) == Count(d, PlatformFiles(ph))
    ensures Bytes(Filter(d, AllButStale(ph)), CacheFiles()) == Bytes(d, PlatformFiles(ph))
    ensures Count(Filter(d, AllButStale(ph)), PlatformFiles(ph)) == Count(d, PlatformFiles(ph))
    ensures Bytes(Filter(d, AllButStale(ph)), PlatformFiles(ph)) == Bytes(d, PlatformFiles(ph))
    ensures forall e :: e in Filter(d, AllButStale(ph)) <==> e in d && !IsStaleFile(ph, e)
    ensures UniqueNames(d) ==> UniqueNames(Filter(d, AllButStale(ph)))
  {
    SelectorFacts(ph);
    CountSplit(d, CacheFiles(), PlatformFiles(ph), StaleFiles(ph));
    CountFiltered(d, AllButStale(ph), CacheFiles(), PlatformFiles(ph));
    CountFiltered(d, AllButStale(ph), PlatformFiles(ph), PlatformFiles(ph));
    FilterMembers(d, AllButStale(ph));
    FilterMaybeUnique(d, AllButStale(ph));
  }

  lemma PruneStep(d: Directory, i: nat, ph: u64)
    requires i < |d|
    ensures Filter(d[..i+1], AllButStale(ph)) ==
              Filter(d[..i], AllButStale(ph)) + (if IsStaleFile(ph, d[i]) then [] else [d[i]])
    ensures Count(d[..i+1], StaleFiles(ph)) == Count(d[..i], StaleFiles(ph)) + (if IsStaleFile(ph, d[i]) then 1 else 0)
    ensures Bytes(d[..i+1], StaleFiles(ph)) ==
              Bytes(d[..i], StaleFiles(ph)) + (if IsStaleFile(ph, d[i]) then |d[i].data| else 0)
    ensures Count(d[..i+1], StaleFiles(ph)) <= Count(d, StaleFiles(ph))
    ensures Bytes(d[..i+1], StaleFiles(ph)) <= Bytes(d, StaleFiles(ph))
  {
    assert d[..i+1] == d[..i] + [d[i]];
    CountAppend(d[..i], d[i], StaleFiles(ph));
    CountAppend(d[..i], d[i], AllButStale(ph));
    CountPrefix(d, i + 1, StaleFiles(ph));
  }

  /** The loop of `prune`: entries are visited in directory order, each stale
      one is deleted and the totals fall by one file and its size. */
  method PruneScan(c: Cache) returns (r: Cache)
    requires Consistent(c)
    ensures r == Prune(c)
  {
    StaleWithinTotals(c);
    var kept, filesCount, bytesCount := PruneLoop(c.directory, c.platformHash, c.stats.totalFilesCount, c.stats.totalBytesCount);
    r := c.(directory := kept, stats := c.stats.(totalFilesCount := filesCount, totalBytesCount := bytesCount));
  }

  method PruneLoop(d: Directory, ph: u64, totalFiles: nat, totalBytes: nat)
    returns (kept: Directory, filesCount: nat, bytesCount: nat)
    requires Count(d, StaleFiles(ph)) <= totalFiles && Bytes(d, StaleFiles(ph)) <= totalBytes
    ensures kept == Filter(d, AllButStale(ph))
    ensures filesCount == totalFiles - Count(d, StaleFiles(ph))
    ensures bytesCount == totalBytes - Bytes(d, StaleFiles(ph))
  {
    kept := [];
    filesCount, bytesCount := totalFiles, totalBytes;
    var i := 0;
    while i < |d|
      invariant 0 <= i <= |d|
      invariant kept == Filter(d[..i], AllButStale(ph))
      invariant Count(d[..i], StaleFiles(ph)) <= totalFiles
      invariant Bytes(d[..i], StaleFiles(ph)) <= totalBytes
      invariant filesCount == totalFiles - Count(d[..i], StaleFiles(ph))
      invariant bytesCount == totalBytes - Bytes(d[..i], StaleFiles(ph))
    {
      var e := d[i];
      PruneStep(d, i, ph);
      if IsStaleFile(ph, e) {
        filesCount := filesCount - 1;
        bytesCount := bytesCount - |e.data|;
      } else {
        kept := kept + [e];
      }
      i := i + 1;
    }
    assert d[..i] == d;
  }

  lemma StaleWithinTotals(c: Cache)
    requires Consistent(c)
    ensures Count(c.directory, StaleFiles(c.platformHash)) <= c.stats.totalFilesCount
    ensures Bytes(c.directory, StaleFiles(c.platformHash)) <= c.stats.totalBytesCount
  {
    SelectorFacts(c.platformHash);
    CountSplit(c.directory, CacheFiles(), PlatformFiles(c.platformHash), StaleFiles(c.platformHash));
  }

  /** `clear`: deletes every validly named file, keeps every other file, and
      zeroes all six counters. */
  function Clear(c: Cache): (r: Cache)
    ensures r.directory == Filter(c.directory, AllButCacheFiles())
    ensures forall e :: e in r.directory <==> e in c.directory && !IsCacheFile(e)
    ensures Count(r.directory, CacheFiles()) == 0
    ensures r.stats == ZeroStatistics
    ensures r.(directory := c.directory, stats := c.stats) == c
    ensures UniqueNames(c.directory) ==> Consistent(r)
  {
    ClearFacts(c.directory, c.platformHash);
    c.(directory := Filter(c.directory, AllButCacheFiles()), stats := ZeroStatistics)
  }

  lemma ClearFacts(d: Directory, ph: u64)
    ensures Count(Filter(d, AllButCacheFiles()), CacheFiles()) == 0
    ensures Bytes(Filter(d, AllButCacheFiles()), CacheFiles()) == 0
    ensures Count(Filter(d, AllButCacheFiles()), PlatformFiles(ph)) == 0
    ensures Bytes(Filter(d, AllButCacheFiles()), PlatformFiles(ph)) == 0
    ensures forall e :: e in Filter(d, AllButCacheFiles()) <==> e in d && !IsCacheFile(e)
    ensures UniqueNames(d) ==> UniqueNames(Filter(d, AllButCacheFiles()))
  {
    SelectorFacts(ph);
    var none: Selector := e => false;
    CountNone(d, none);
    CountFiltered(d, AllButCacheFiles(), CacheFiles(), none);
    CountFiltered(d, AllButCacheFiles(), PlatformFiles(ph), none);
    FilterMembers(d, AllButCacheFiles());
    FilterMaybeUnique(d, AllButCacheFiles());
  }

  datatype DirectoryResult = DirectoryResult(cache: Cache, changed: bool)

  /** `setDirectory`: switches to `listing` (the new directory's contents)
      only if it is an existing writable directory, then rescans it. */
  function SetDirectory(c: Cache, isDirectory: bool, isWritable: bool, listing: Directory): (r: DirectoryResult)
    requires UniqueNames(listing)
    ensures r.changed <==> isDirectory && isWritable
    ensures !r.changed ==> r.cache == c
    ensures r.changed ==> r.cache.directory == listing && Consistent(r.cache)
    ensures r.changed ==> r.cache.stats.loadedShaders == 0 && r.cache.stats.savedShaders == 0
    ensures r.cache.(directory := c.directory, stats := c.stats) == c
  {
    if isDirectory && isWritable then
      DirectoryResult(c.(directory := listing, stats := CollectStatistics(listing, c.platformHash)), true)
    else DirectoryResult(c, false)
  }

  // ---------------------------------------------------------------------
  // Properties relating several calls

  /** A binary saved under a key is what a later load of that key returns. */
  lemma SaveThenLoad(c: Cache, length: i32, buffer: seq<byte>, format: u32, hash: u64, bufferSize: nat)
    requires length > 0 ==> length <= |buffer|
    requires SaveToCache(c, length, buffer, format, hash, true).written
    ensures LoadFromCache(SaveToCache(c, length, buffer, format, hash, true).cache, format, hash, true, bufferSize).data
            == Some(buffer[..length])
  {
    var s := SaveToCache(c, length, buffer, format, hash, true).cache;
    var name := FileNameOf(c, format, hash);
    var d := s.directory;
    assert d[|d|-1] == Entry(name, buffer[..length]);
  }

  /** First writer wins: a second save of the same key fails, leaves the
      cache as the first save left it, and a load returns the first bytes. */
  lemma FirstWriterWins(c: Cache, length1: i32, buffer1: seq<byte>, length2: i32, buffer2: seq<byte>,
                        format: u32, hash: u64, canOpen: bool, bufferSize: nat)
    requires length1 > 0 ==> length1 <= |buffer1|
    requires length2 > 0 ==> length2 <= |buffer2|
    requires SaveToCache(c, length1, buffer1, format, hash, true).written
    ensures var first := SaveToCache(c, length1, buffer1, format, hash, true).cache;
            var second := SaveToCache(first, length2, buffer2, format, hash, canOpen);
            !second.written && second.cache == first
            && LoadFromCache(second.cache, format, hash, true, bufferSize).data == Some(buffer1[..length1])
  {
    var first := SaveToCache(c, length1, buffer1, format, hash, true).cache;
    var d := first.directory;
    assert d[|d|-1].name == FileNameOf(first, format, hash);
    SaveThenLoad(c, length1, buffer1, format, hash, bufferSize);
  }

  /** After `prune` no other platform's binary is left, and a second `prune`
      changes nothing. */
  lemma PruneIdempotent(c: Cache)
    requires Consistent(c)
    ensures Count(Prune(c).directory, StaleFiles(c.platformHash)) == 0
    ensures Prune(Prune(c)) == Prune(c)
  {
    var ph := c.platformHash;
    var r := Prune(c);
    SelectorFacts(ph);
    var none: Selector := e => false;
    CountNone(c.directory, none);
    CountFiltered(c.directory, AllButStale(ph), StaleFiles(ph), none);
    FilterMembers(c.directory, AllButStale(ph));
    forall i | 0 <= i < |r.directory|
      ensures AllButStale(ph)(r.directory[i])
    {
      assert r.directory[i] in r.directory;
    }
    FilterAll(r.directory, AllButStale(ph));
  }

  /** The constructor's stored flag is not checked: a cache can be enabled yet
      unavailable, and then every guarded operation does nothing. */
  lemma EnabledButUnavailable(format: u32, hash: u64, length: i32, buffer: seq<byte>, bufferSize: nat,
                              renderer: seq<byte>, version: seq<byte>, h: SourceHash.Hasher)
    requires length > 0 ==> length <= |buffer|
    ensures var c := NewCache(true, false, renderer, version, h, false, [], false);
            && c.enabled && !c.available
            && BinarySize(c, format, hash) == 0
            && LoadFromCache(c, format, hash, true, bufferSize).data.None?
            && !SaveToCache(c, length, buffer, format, hash, true).written
  {
  }
}
