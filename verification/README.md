# nCine rendering core in Dafny

This project models the part of the nCine engine that turns shader
programs, uniform blocks and render commands into GL work:

- the binary shader cache: file names, the source hash, and load, save, prune, clear and statistics over a cache directory;
- the life cycle of a GL shader program: attach, link with the binary-cache fast path, deferred queries, introspection, `use`, `reset`, and discovery of uniforms outside blocks;
- the uniform block set of a program: import with include and exclude lists, data layout, commit into a uniform buffer, and binding of the ranges;
- the render queue: adding commands, sorting opaque and transparent commands, drawing, and its counters;
- the render resources: the batched-shader registry, camera uniform data, the compile-twice and batch-size plan, and default vertex attributes;
- the vertex buffer ownership of a geometry;
- the per-level accessors of a texture loader, the choice of loader by file extension, and the reading of pixel data.

Every GL result, file-system answer and hash value is a parameter of the
operation that reads it. State is immutable: each operation returns the new
state.

## Model

| member | source | states |
|---|---|---|
| ShaderFilename.ShaderFilename | src/graphics/BinaryShaderCache.cpp:15 | A key formatted with `%016llx_%08x_%016llx.bin` always has the shape of a valid cache file name. |
| ShaderFilename.HexRoundTrip | src/graphics/BinaryShaderCache.cpp:317-338 | Reading back `n` formatted hex digits with `strtoull` gives the value that was formatted. |
| ShaderFilename.ParseShaderFilename | src/graphics/BinaryShaderCache.cpp:284-341 | A name is accepted exactly when it is 46 characters long, ends in `.bin`, has `_` at 16 and 25 and hex digits of either case elsewhere. Re-formatting the parsed key gives the name in lower case. |
| ShaderFilename.IsShaderFilename | src/include/BinaryShaderCache.h:73 | The null-output form of the parser accepts exactly the valid names. |
| ShaderFilename.FilenameRoundTrip | src/graphics/BinaryShaderCache.cpp:284-341 | Parsing the name formatted from any key recovers exactly that key. |
| ShaderFilename.FilenameInjective | src/graphics/BinaryShaderCache.cpp:15 | Two different keys never share a file name. |
| ShaderFilename.SingleCharacterChange | src/graphics/BinaryShaderCache.cpp:287-315 | Changing one character of a valid name keeps it acceptable exactly when the character is unchanged, or when the position holds a digit and the new character is a hex digit. |
| ShaderFilename.UpperCaseDigitsAccepted | src/graphics/BinaryShaderCache.cpp:293-315 | A formatted name with its digits written in upper case parses to the same key. |
| SourceHash.PaddedLength | src/graphics/BinaryShaderCache.cpp:93 | The padded length is at least the length plus 8, and is 7 past a multiple of 8. |
| SourceHash.PaddedLengthFits | src/graphics/BinaryShaderCache.cpp:91-93 | For any positive `int` length the padded length fits in an `unsigned int`. |
| SourceHash.PaddedCopy | src/graphics/BinaryShaderCache.cpp:101-105 | The hashed buffer holds the first `length` bytes of the source, and zeros up to the padded length. |
| SourceHash.HashIgnoresBytesPastLength | src/graphics/BinaryShaderCache.cpp:84-111 | The hash depends only on the first `length` bytes of each hashed slot, and not on skipped slots. |
| SourceHash.HashIgnoresOrder | src/graphics/BinaryShaderCache.cpp:84-111 | Reordering the sources does not change the hash. |
| SourceHash.HashSources | src/graphics/BinaryShaderCache.cpp:82-112 | The loop computes the wrapping sum over the non-null, positive-length slots. It skips the others, and grows the scratch buffer to every padded length it used. |
| SourceHash.HashSlot | src/graphics/BinaryShaderCache.cpp:87-109 | One slot adds its padded-copy hash, or nothing when it is null or empty. The scratch buffer never shrinks and fits the padded length of a hashed slot. |
| SourceHash.PlatformHashIsSourceHash | src/graphics/BinaryShaderCache.cpp:40-60 | The platform hash is the source hash of the renderer and version strings, each truncated to the string capacity. |
| SourceHash.PlatformHash | src/graphics/BinaryShaderCache.cpp:40-60 | The platform hash is the wrapping sum of the hashes of the renderer and version strings. Only each string's first `capacity` bytes count, zero-padded. |
| SourceHash.ZeroPadding | src/graphics/BinaryShaderCache.cpp:45-48 | The zeroing loop stays inside the buffer exactly when the padded length fits it. It then leaves the kept string's padded copy in front and the rest of the buffer untouched. |
| SourceHash.PlatformPaddingOverruns | src/graphics/BinaryShaderCache.cpp:40-58 | As written, in the 512-byte string the padding fits exactly when the kept string is shorter than 504 characters; from 504 on, the last byte written lies past the end. |
| SourceHash.PlatformPaddingFits | src/graphics/BinaryShaderCache.cpp:40-60 | Corrected: with room for the padding of a 512-character string, every kept string's padding fits, and the hasher reads that string's own padded copy whatever the buffer held. |
| BinaryShaderCache.Lookup | src/graphics/BinaryShaderCache.cpp:123-124 | A file is found exactly when the directory holds an entry of that name, and the contents returned are that entry's. |
| BinaryShaderCache.CollectStatistics | src/graphics/BinaryShaderCache.cpp:249-272 | The rescan zeroes the load and save counters. Platform counts never exceed total counts. |
| BinaryShaderCache.CollectStatisticsScan | src/graphics/BinaryShaderCache.cpp:254-270 | The entry-by-entry loop computes the same counters as the reference count over the directory. |
| BinaryShaderCache.CollectStep | src/graphics/BinaryShaderCache.cpp:257-268 | An entry with a parsable name adds one file and its size to the totals. It adds them to the platform counters too when its platform hash matches. |
| BinaryShaderCache.NewCache | src/graphics/BinaryShaderCache.cpp:29-76 | `enable` is stored as given. The cache is available exactly when the extension is supported and the directory exists or was created. With the extension supported, the platform hash is the hash of the renderer and version strings kept in a 512-character string; without it, the hash is 0. An existing directory is kept and the statistics agree with it. |
| BinaryShaderCache.SetEnabled | src/include/BinaryShaderCache.h:27 | The cache ends enabled only if it was asked to be and is available. Nothing else changes. |
| BinaryShaderCache.LookupAppend | src/graphics/BinaryShaderCache.cpp:123-124 | Looking a name up after an entry is appended finds that entry when the names match, and otherwise what it found before. |
| BinaryShaderCache.BinarySize | src/graphics/BinaryShaderCache.cpp:114-127 | The size is 0 when the cache is disabled, unavailable or has no such file; otherwise it is the file's size. |
| BinaryShaderCache.LoadFromCache | src/graphics/BinaryShaderCache.cpp:129-160 | Data is returned exactly when the cache is usable, the file exists and it opens. The data is the file's contents. Only the load counter changes, and the buffer grows to fit. |
| BinaryShaderCache.AddedFileSizes | src/graphics/BinaryShaderCache.cpp:114-127 | After the file of one format is added to a usable cache, `binarySize` of that format is the file's length, and of every other format it is what it was. |
| BinaryShaderCache.SaveToCache | src/graphics/BinaryShaderCache.cpp:162-190 | A save happens exactly when the cache is usable, the length is positive, the file is absent and it opens. It adds the first `length` bytes under the key's name, bumps the five counters, and keeps the statistics consistent. |
| BinaryShaderCache.SaveKeepsConsistent | src/graphics/BinaryShaderCache.cpp:180-184 | Counting a new platform file once in each counter keeps the statistics equal to a rescan. |
| BinaryShaderCache.Prune | src/graphics/BinaryShaderCache.cpp:192-215 | Prune deletes exactly the validly named files of other platforms and lowers the totals by their count and bytes. Everything else is unchanged and the statistics stay consistent. |
| BinaryShaderCache.PruneScan | src/graphics/BinaryShaderCache.cpp:196-214 | The loop over directory entries computes the same result as the reference prune. |
| BinaryShaderCache.PruneLoop | src/graphics/BinaryShaderCache.cpp:196-214 | The loop keeps exactly the entries that are not stale. Each counter falls by the number and bytes of the stale files. |
| BinaryShaderCache.StaleWithinTotals | src/graphics/BinaryShaderCache.cpp:207-208 | The two assertions in the loop hold whenever the statistics agree with the directory. |
| BinaryShaderCache.Clear | src/graphics/BinaryShaderCache.cpp:217-231 | Clear deletes every validly named file, keeps all other files, and zeroes the statistics. |
| BinaryShaderCache.SetDirectory | src/graphics/BinaryShaderCache.cpp:234-243 | The directory changes exactly when the path is a writable directory. The statistics are then rebuilt from its listing. |
| BinaryShaderCache.SaveThenLoad | src/graphics/BinaryShaderCache.cpp:162-190 | A binary that was saved is what a later load of the same key returns. |
| BinaryShaderCache.FirstWriterWins | src/graphics/BinaryShaderCache.cpp:170 | A second save of a key fails and changes nothing. The first binary stays loadable. |
| BinaryShaderCache.PruneIdempotent | src/graphics/BinaryShaderCache.cpp:192-215 | After a prune no other platform's binary is left, and a second prune changes nothing. |
| BinaryShaderCache.EnabledButUnavailable | src/graphics/BinaryShaderCache.cpp:30 | An enabled but unavailable cache reports size 0, loads nothing and saves nothing. |
| ShaderProgram.NewProgram | src/graphics/opengl/GLShaderProgram.cpp:35-45 | A new program is not linked and has no shaders, hash, uniforms, blocks or attributes. |
| ShaderProgram.Attach | src/graphics/opengl/GLShaderProgram.cpp:127-144 | A compiled shader is appended to the attached list. A failed one marks the program as a compilation failure. |
| ShaderProgram.HashName | src/graphics/opengl/GLShaderProgram.cpp:150-152 | A program without shaders hashes to 0, and one with a single shader to that shader's source hash. |
| ShaderProgram.HashNameIgnoresOrder | src/graphics/opengl/GLShaderProgram.cpp:150-152 | The program's hash is the same for any attach order of the same shaders. |
| ShaderProgram.CheckLinking | src/graphics/opengl/GLShaderProgram.cpp:360-387 | A program known to be linked is not queried again. Otherwise the GL link status decides between linked and linking failed. The result is true exactly when the program ends linked. |
| ShaderProgram.PerformIntrospection | src/graphics/opengl/GLShaderProgram.cpp:389-403 | Introspection runs once per link unless disabled. It appends the discovered uniforms, blocks and attributes, and discovers block uniforms unless the mode excludes them. The two size counters grow by the memory size of the new uniforms and the size of the new blocks. |
| ShaderProgram.IntrospectionKeepsSizes | src/graphics/opengl/GLShaderProgram.cpp:445-471 | If the size counters equal the sizes of the uniforms and blocks the program holds, they still do after introspection. |
| ShaderProgram.FirstCachedFormat | src/graphics/opengl/GLShaderProgram.cpp:161-171 | It picks the first binary format with a non-empty cached binary; every earlier format has none. |
| ShaderProgram.FirstCachedFrom | src/graphics/opengl/GLShaderProgram.cpp:161-171 | From a given index on, it finds the first format with a cached binary. Every format it passes over has none. |
| ShaderProgram.LoadBinaryStatus | src/graphics/opengl/GLShaderProgram.cpp:236-246 | Trying a cached binary changes only the status: linked when GL accepts the binary, link-failed otherwise. |
| ShaderProgram.TryCache | src/graphics/opengl/GLShaderProgram.cpp:155-172 | Only the first cached format is tried, and only with the cache enabled. The load succeeds exactly when the file opens and GL accepts it. The cache changes only by one more loaded shader, counted exactly when a file was opened, and its statistics stay consistent. |
| ShaderProgram.SaveLinkedBinary | src/graphics/opengl/GLShaderProgram.cpp:174-192 | After a full link with the cache enabled, a non-empty binary goes through `saveToCache`; otherwise the cache is unchanged. Any new entry is the binary under its key's name. The scratch buffer grows to fit it, and the statistics stay consistent. |
| ShaderProgram.SavedAfterTry | src/graphics/opengl/GLShaderProgram.cpp:155-194 | The save that follows the fast path adds the binary exactly when no cached binary loaded, the cache is usable, the binary is non-empty, no file of its name exists and one can be created; otherwise it leaves the cache as the fast path did. |
| ShaderProgram.LinkCacheWork | src/graphics/opengl/GLShaderProgram.cpp:155-194 | The cache side of `link`: the first cached format is tried, and the load succeeds exactly when the file opens and GL accepts it. The binary is saved, with one more saved shader, exactly under the conditions of `SavedAfterTry`; otherwise the directory and the save counter are unchanged. Only the directory and statistics change, and they stay consistent. |
| ShaderProgram.LinkBinary | src/graphics/opengl/GLShaderProgram.cpp:148-194 | The cache is tried only for the first cached format. A load succeeds exactly when the file opens and GL accepts the binary; otherwise the full link runs. The resulting cache, attempt, load flag and buffers are exactly those of `LinkCacheWork`. |
| ShaderProgram.Link | src/graphics/opengl/GLShaderProgram.cpp:146-215 | With immediate queries, the link result decides the status, and shaders are detached on success. With deferred queries, the program is marked linked-with-deferred-queries. The result is true exactly when the program ends linked. The cache directory gains the binary's entry exactly when a full link saves it, and is otherwise unchanged. |
| ShaderProgram.RelinkFindsSavedBinary | src/graphics/opengl/GLShaderProgram.cpp:155-194 | After a full link saves its binary, loading the same key returns that binary, and a later link of a program with the same hash tries that format first; it succeeds exactly when the file opens and GL accepts it, and then the directory does not change. |
| ShaderProgram.QueryLink | src/graphics/opengl/GLShaderProgram.cpp:196-208 | The result is true exactly when the program ends linked. A failed check only marks the program failed. Success drops the shaders and, unless the program was already known linked, sets the introspection-dependent status. |
| ShaderProgram.DeferredQueries | src/graphics/opengl/GLShaderProgram.cpp:335-358 | Only a deferred program is resolved. Any failed compile check returns false and changes nothing. Otherwise the link status decides and introspection runs. |
| ShaderProgram.AllCompiled | src/graphics/opengl/GLShaderProgram.cpp:339-344 | The compile-check loop succeeds exactly when every attached shader compiled. |
| ShaderProgram.DeferredQueriesKeepsLinked | src/graphics/opengl/GLShaderProgram.cpp:335-358 | A successful resolution neither links an unlinked program nor unlinks a linked one. |
| ShaderProgram.Use | src/graphics/opengl/GLShaderProgram.cpp:217-226 | The program is bound unless it is recorded as bound already. Deferred queries are resolved first, and the bind happens even when they fail. |
| ShaderProgram.UseIdempotent | src/graphics/opengl/GLShaderProgram.cpp:219 | A second `use` changes nothing. |
| ShaderProgram.ResetAsWritten | src/graphics/opengl/GLShaderProgram.cpp:296-324 | As written, a program past compilation gets a new GL object with its shaders, uniforms, blocks and attributes cleared. GL is unbound if the program was bound, but the recorded binding and the two size counters stay. |
| ShaderProgram.ResetRelinkCountsTwice | src/graphics/RenderResources.cpp:313-365 | As written, a batched shader is introspected from its `BATCH_SIZE` 1 build, reset, and relinked and introspected from the rebuilt shaders. It then holds only what the second introspection found, but each size counter is the first pass's size plus the second's. |
| ShaderProgram.ResetThenUseLeavesProgramUnbound | src/graphics/opengl/GLShaderProgram.cpp:307-308 | If GL reuses the deleted name, a reset followed by `use` leaves no program in use. |
| ShaderProgram.Reset | src/graphics/opengl/GLShaderProgram.cpp:296-324 | The corrected reset clears the recorded binding together with the GL binding, so the two stay in agreement, and zeroes both size counters. |
| ShaderProgram.ResetRelinkCountsOnce | src/graphics/RenderResources.cpp:335-364 | After the corrected reset and a relink with introspection, the size counters equal the sizes of the uniforms and blocks the program holds. |
| ShaderProgram.ResetThenUseBinds | src/graphics/opengl/GLShaderProgram.cpp:217-226 | After the corrected reset, `use` always leaves the program in use in GL. |
| ShaderProgram.SaveBinary | src/graphics/opengl/GLShaderProgram.cpp:255-265 | A binary is copied, and true returned, exactly when it is non-empty and fits the buffer. |
| ShaderProgram.RetrieveInfoLog | src/graphics/opengl/GLShaderProgram.cpp:96-107 | With a positive log length and capacity, the string becomes the prefix of GL's log of length min(log length, capacity minus one): the whole log when it fits, exactly capacity minus one characters when it does not. Otherwise it is unchanged. |
| UniformDiscovery.OutsideBlocksComplete | src/graphics/opengl/GLShaderProgram.cpp:431-437 | The reference list holds every uniform whose block index is -1, once each, ascending. |
| UniformDiscovery.DiscoverAsWritten | src/graphics/opengl/GLShaderProgram.cpp:418-443 | The stores the loops perform, as written, fill `indices` position by position, each with the index of a uniform outside blocks, in ascending order. No store is bounded by `MaxNumUniforms`. |
| UniformDiscovery.WriteOutOfBounds | src/graphics/opengl/GLShaderProgram.cpp:431-440 | As written, with 513 uniforms outside blocks the loops store into `indices[MaxNumUniforms]`. |
| UniformDiscovery.InnerFillsCap | src/graphics/opengl/GLShaderProgram.cpp:431-440 | As written, a chunk of uniforms all outside blocks stores exactly the first `maxNum` of them at positions 0 to `maxNum`-1, then leaves the inner loop. |
| UniformDiscovery.DiscoverStep | src/graphics/opengl/GLShaderProgram.cpp:431-438 | Examining one more uniform extends the capped prefix of the uniforms outside blocks. Once the cap is reached, the indices are final. |
| UniformDiscovery.ScanChunk | src/graphics/opengl/GLShaderProgram.cpp:431-440 | Corrected: the inner loop over one chunk ends either short of the cap, with the prefix through the chunk, or at the cap, with the final indices. |
| UniformDiscovery.DiscoverUniforms | src/graphics/opengl/GLShaderProgram.cpp:405-454 | Corrected: the chunked loop collects the first `maxNum` uniforms outside blocks, ascending and within bounds. |
| NameList.ListContains | src/graphics/opengl/GLShaderUniformBlocks.cpp:156-177 | The walk finds nothing in an empty list or one that starts with its terminator, and finds a name that matches the list's first entry. |
| NameList.EncodeContains | src/graphics/opengl/GLShaderUniformBlocks.cpp:153-177 | Walking a list of NUL-terminated names finds exactly the names listed. |
| NameList.FilterRules | src/graphics/opengl/GLShaderUniformBlocks.cpp:151-178 | A non-null empty include list imports nothing. An excluded name is never imported. With no lists every name is. |
| NameList.ShouldImportOfLists | src/graphics/opengl/GLShaderUniformBlocks.cpp:151-180 | A block is imported exactly when it is included (or there is no include list) and is not excluded. |
| UniformBlocks.Insert | src/graphics/opengl/GLShaderUniformBlocks.cpp:183 | The inserted cache is present, and every other cache was there before. |
| UniformBlocks.InsertFacts | src/graphics/opengl/GLShaderUniformBlocks.cpp:183 | Insertion keeps every name, adds the new one, and keeps names unique. |
| UniformBlocks.Import | src/graphics/opengl/GLShaderUniformBlocks.cpp:141-190 | Every cache is old or a new cache of a block that passes the filters. Old names are kept, every passing block is present, and names stay unique. |
| UniformBlocks.ImportFromEmpty | src/graphics/opengl/GLShaderUniformBlocks.cpp:141-190 | Importing into an empty set yields unique caches of exactly the passing blocks. |
| UniformBlocks.SetProgram | src/graphics/opengl/GLShaderUniformBlocks.cpp:54-65 | The program's deferred queries are resolved first. Blocks are imported only for a program linked with introspection; otherwise the set is empty. |
| UniformBlocks.FindBlock | src/graphics/opengl/GLShaderUniformBlocks.cpp:83-94 | Without a program nothing is found. Otherwise a block is found exactly when one has that name, and it is that block. |
| UniformBlocks.Find | src/graphics/opengl/GLShaderUniformBlocks.cpp:89 | A cache is found exactly when one has the name, and what is found is such a cache. |
| UniformBlocks.SetUniformsDataPointer | src/graphics/opengl/GLShaderUniformBlocks.cpp:67-81 | Each block's pointer is the base plus the padded sizes of the blocks before it. Nothing changes without introspection. |
| UniformBlocks.PlaceBlocks | src/graphics/opengl/GLShaderUniformBlocks.cpp:75-80 | Each block's pointer becomes the base plus the padded sizes of the blocks before it. Nothing else in a cache changes. |
| UniformBlocks.ScanLayout | src/graphics/opengl/GLShaderUniformBlocks.cpp:102-110 | The scan computes the total used size, and reports a gap exactly when some block does not start where the previous one's used bytes end. |
| UniformBlocks.FreshLayoutHasNoGaps | src/graphics/opengl/GLShaderUniformBlocks.cpp:67-81 | A freshly laid-out set of blocks has no gaps. |
| UniformBlocks.CopyBlocksContents | src/graphics/opengl/GLShaderUniformBlocks.cpp:121-125 | After the first k per-block copies, those k blocks are in place. The bytes before the range and after the copied blocks are untouched. |
| UniformBlocks.CopyStep | src/graphics/opengl/GLShaderUniformBlocks.cpp:123-124 | One more copy puts its block in place without disturbing the blocks already copied or the bytes outside. |
| UniformBlocks.BulkEqualsPerBlock | src/graphics/opengl/GLShaderUniformBlocks.cpp:118-128 | Without gaps, the single bulk copy writes the same bytes as the per-block copies. |
| UniformBlocks.Commit | src/graphics/opengl/GLShaderUniformBlocks.cpp:96-135 | Nothing happens without introspection or used bytes. Otherwise the acquired buffer is stored. When its base is mapped, every block's used bytes land at its offset and the bytes around are untouched. |
| UniformBlocks.Bind | src/graphics/opengl/GLShaderUniformBlocks.cpp:30-48 | Without a buffer nothing is bound. Otherwise each block's range starts at the buffer offset plus the used sizes before it, and spans its used size. |
| UniformBlocks.BindAlignedUpTo | src/graphics/opengl/GLShaderUniformBlocks.cpp:38-45 | With the range start a multiple of the offset alignment and every earlier block's used size a multiple too, a block is bound at an aligned offset, so the assertion before `bindBufferRange` holds for it. |
| UniformBlocks.BindMisalignedAfter | src/graphics/opengl/GLShaderUniformBlocks.cpp:38-45 | With the range start aligned, the first block whose used size is not a multiple of the alignment puts the next block at a misaligned offset, so the assertion fails there. |
| UniformBlocks.BindAlignedIff | src/graphics/opengl/GLShaderUniformBlocks.cpp:38-45 | The assertion holds for every bound block exactly when there are no blocks, or the range start is aligned and every block but the last has a used size that is a multiple of the alignment. |
| UniformBlocks.BoundRangesHoldBlocks | src/graphics/opengl/GLShaderUniformBlocks.cpp:30-48 | After a commit, every bound range holds exactly its block's staged bytes. |
| RenderQueue.NewQueue | src/graphics/RenderQueue.cpp:12-23 | A new queue is empty with zeroed live counters. |
| RenderQueue.AddCommand | src/graphics/RenderQueue.cpp:29-43 | A command goes to the transparent or the opaque list by its flag. Its vertices and its type's counters are added. |
| RenderQueue.AddCommandKeepsTally | src/graphics/RenderQueue.cpp:29-43 | The counters keep equal to the aggregates over the queued commands. |
| RenderQueue.AddAllQueues | src/graphics/RenderQueue.cpp:29-43 | Adding a sequence queues every command once, each in the list its flag selects. |
| RenderQueue.AddAllTallied | src/graphics/RenderQueue.cpp:29-43 | After any sequence of additions the counters still equal the aggregates over the queued commands. |
| RenderQueue.AddAllMultiset | src/graphics/RenderQueue.cpp:29-43 | The two lists together gain exactly the added commands, as a multiset. |
| RenderQueue.AddAllLists | src/graphics/RenderQueue.cpp:29-43 | A newly queued command lands in the opaque list only if it is not transparent, and in the transparent list only if it is. |
| RenderQueue.BeforeIsRank | src/graphics/RenderQueue.cpp:47-48 | The two comparators order commands by sort key, descending for opaque and ascending for transparent. |
| RenderQueue.SortSorts | src/graphics/RenderQueue.cpp:55-56 | The reference sort gives a permutation ordered by the comparator: a possible result of `quicksort`. |
| RenderQueue.SortedKeysDetermined | src/graphics/RenderQueue.cpp:55-56 | Any possible result of `quicksort` has the same sequence of sort keys as the reference sort, whatever order it leaves equal keys in. |
| RenderQueue.Draw | src/graphics/RenderQueue.cpp:52-86 | Given any orders `quicksort` may leave the two lists in, the sorted opaque commands are issued in that order under the entry state, then the sorted transparent ones with blending on and depth writes off. Depth writes are restored and blending off. The counters are snapshotted and reset. |
| RenderQueue.IssueFrame | src/graphics/RenderQueue.cpp:59-70 | The first list is issued in order under the entry state, then the second in order with blending on and depth writes off. |
| RenderQueue.NextFrame | src/graphics/RenderQueue.cpp:72-85 | The live counters become last frame's, the vertex count and the typed counters are zeroed and both lists are emptied. |
| RenderQueue.DrawOrders | src/graphics/RenderQueue.cpp:55-60 | Opaque commands are issued in descending key order and transparent ones ascending, each a permutation of its list, and the keys issued are those of the reference sort. |
| RenderQueue.DrawIssuesQueued | src/graphics/RenderQueue.cpp:52-86 | Every queued command is issued once. The snapshot counts equal the aggregates over what was queued. |
| RenderQueue.DrawIssuesAll | src/graphics/RenderQueue.cpp:55-66 | The issued commands are, as a multiset, exactly the opaque and transparent commands queued. |
| RenderQueue.DrawSnapshots | src/graphics/RenderQueue.cpp:72-85 | The last-frame counts equal the aggregates over the commands queued, and the emptied queue is still tallied. |
| RenderResources.BatchedShader | src/graphics/RenderResources.cpp:57-66 | The lookup finds a batched shader exactly when one is registered. |
| RenderResources.RegisterBatchedShader | src/graphics/RenderResources.cpp:68-79 | A shader is registered only if absent, and an existing entry is not overwritten. |
| RenderResources.UnregisterBatchedShader | src/graphics/RenderResources.cpp:81-86 | The entry is removed, and the result says whether one existed. |
| RenderResources.RegistryRoundTrip | src/graphics/RenderResources.cpp:57-86 | Register then look up finds the batched shader; unregistering removes it again. Other shaders are untouched. |
| RenderResources.RemoveCameraUniformData | src/graphics/RenderResources.cpp:103-111 | An empty map is left alone. Otherwise the program's entry is removed, and the result says whether it existed. |
| RenderResources.SetCurrentCamera | src/graphics/RenderResources.cpp:174-180 | A null camera selects the default camera. |
| RenderResources.UpdateCameraUniforms | src/graphics/RenderResources.cpp:182-205 | The buffer holds the projection then the view matrix. Every program's entry is updated and no program is added. |
| RenderResources.UpdateEntry | src/graphics/RenderResources.cpp:189-203 | The entry records the current camera and its two frame stamps. A camera change marks everything dirty. Otherwise a newer frame stamp marks its matrix dirty, and dirt is never cleared. |
| RenderResources.UpdateCameraUniformsIdempotent | src/graphics/RenderResources.cpp:182-205 | Updating twice with the same camera equals updating once. |
| RenderResources.MaxUniformBlockSize | src/graphics/RenderResources.cpp:293 | The reported size is clamped to 0 to 64 KiB. |
| RenderResources.CompileTwiceOnlyForBatched | src/graphics/RenderResources.cpp:305 | Shaders are compiled twice exactly for the no-uniforms-in-blocks mode. |
| RenderResources.LoadPlan | src/graphics/RenderResources.cpp:305-365 | With two compilations, the first pass is immediate with batch size 1 and full introspection. The second pass runs only with an instances block and uses the computed batch size. Otherwise one pass uses the configured query phase. |
| RenderResources.BatchSizeFits | src/graphics/RenderResources.cpp:342-348 | The batch size is the largest count of instances whose block data fits the maximum block size. |
| RenderResources.SetDefaultAttributesParameters | src/graphics/RenderResources.cpp:113-155 | Nothing changes without attributes or a position. Attributes with a stride keep it, and none appears or disappears. |
| RenderResources.DefaultAttributesUseFormat | src/graphics/RenderResources.cpp:122-153 | Attributes without a stride get the vertex format the present attributes select, its size as stride, and their field in it. |
| Geometry.NewGeometry | src/graphics/Geometry.cpp:10-16 | A new geometry is shared, draws triangles from 0 with 0 vertices, and has no buffers. |
| Geometry.SetDrawParameters | src/graphics/Geometry.cpp:28-33 | The three draw parameters are set and nothing else changes. |
| Geometry.UpdateVboData | src/graphics/Geometry.cpp:53-58 | The common quad buffer is never written. Otherwise the geometry's buffer gets the float range converted to bytes. |
| Geometry.Bind | src/graphics/Geometry.cpp:83-90 | The index buffer is bound before the vertex buffer, and null buffers are skipped. |
| Geometry.CreateCustomVbo | src/graphics/Geometry.cpp:35-50 | The geometry becomes unique with a new buffer of `numFloats` floats. A buffer it owned is deleted first. |
| Geometry.CreateCustomVboKeepsOwned | src/graphics/Geometry.cpp:35-50 | Creating a buffer keeps the invariant that unique buffers are live and owned once, and deletes only a buffer nobody else owns. |
| Geometry.ShareVboAsWritten | src/graphics/Geometry.cpp:60-67 | As written, the geometry deletes a buffer it owns and then takes the other geometry's pointer. |
| Geometry.SelfShareDangles | src/graphics/Geometry.cpp:60-67 | As written, a unique geometry shared with itself points at the buffer it just deleted. |
| Geometry.ShareVbo | src/graphics/Geometry.cpp:60-67 | Corrected: sharing the buffer one already owns changes nothing; otherwise it behaves as written. |
| Geometry.ShareVboKeepsBufferLive | src/graphics/Geometry.cpp:60-67 | After the corrected share, the geometry uses the other's buffer, still live if it was live. |
| Geometry.ShareVboKeepsOwned | src/graphics/Geometry.cpp:60-67 | Both versions keep the ownership invariant and delete only a buffer nobody else owns. |
| Geometry.MakeSharedQuad | src/graphics/Geometry.cpp:69-77 | The geometry uses the quad buffer as a four-vertex strip from 0, after deleting a buffer it owned. |
| Geometry.MakeSharedQuadKeepsOwned | src/graphics/Geometry.cpp:69-77 | Switching to the quad keeps the ownership invariant. |
| Geometry.Destroy | src/graphics/Geometry.cpp:18-22 | Only a unique geometry deletes its buffer. |
| Geometry.DestroyKeepsOwned | src/graphics/Geometry.cpp:18-22 | Destruction keeps the ownership invariant, so no buffer is deleted twice. |
| TextureLoader.NewLoader | src/graphics/ITextureLoader.cpp:28-33 | Width, height, bpp, header size and data size start at 0, with one mip level. |
| TextureLoader.LevelCheckAdmitsHugeLevel | src/graphics/ITextureLoader.cpp:45 | As written, level 2^31 casts to a negative `int`, passes the range check, and lies past the end of the level tables. |
| TextureLoader.LevelChecksAgreeBelowCast | src/graphics/ITextureLoader.cpp:45 | The written and intended checks agree below 2^31 and disagree on every level above it. |
| TextureLoader.DataSize | src/graphics/ITextureLoader.cpp:39-52 | Corrected: a single-level texture has data only at level 0. With several levels, an in-range level gives its table entry and any other level 0. |
| TextureLoader.Pixels | src/graphics/ITextureLoader.cpp:54-67 | Corrected: the pointer is null out of range. Level 0 of a single-level texture is the buffer start; otherwise it is the level's offset. |
| TextureLoader.AccessorsAgree | src/graphics/ITextureLoader.cpp:39-67 | A level with a null pointer has size 0. |
| TextureLoader.FirstMatch | src/graphics/ITextureLoader.cpp:75-98 | The reference choice is the first candidate whose extension matches. It is none only when no candidate matches. |
| TextureLoader.CreateFromFile | src/graphics/ITextureLoader.cpp:69-99 | The loader chosen is one the build compiles in, and the file has its extension; dds wins over every other. The fatal exit happens only when no compiled-in loader's extension matches. |
| TextureLoader.CreateFromFileIsFirstMatch | src/graphics/ITextureLoader.cpp:75-98 | The chain of extension tests is the first match over dds, pvr, ktx, then the optional png, webp and pkm. It exits only when none matches. |
| TextureLoader.EarlierExtensionWins | src/graphics/ITextureLoader.cpp:75-92 | An earlier extension wins over later ones. A loader the build leaves out is never chosen. |
| TextureLoader.LoadPixels | src/graphics/ITextureLoader.cpp:110-127 | A type of 0 keeps the default pixel type. The data size is the file size minus the header, and the pixels are the bytes after the header. The file is opened only if it was not already. |
| TextureLoader.LoadPixelsDefault | src/graphics/ITextureLoader.cpp:105-108 | The one-argument form is the two-argument form with type 0. |
| TextureLoader.LoadedLevelZeroIsFileBody | src/graphics/ITextureLoader.cpp:39-67 | After loading a single-level texture, level 0's pointer and size cover exactly the file's body. |

## Left out

- GL calls are not modelled: link and compile status, binaries, names from `glCreateProgram`, buffer mapping and blend/depth state become parameters or two booleans.
- `nctl::fasthash64` is an uninterpreted function parameter.
- File and directory I/O become a directory held as a sequence of named entries with unique names; iteration follows that sequence.
- Floats are left out: camera matrices are opaque 64-byte blocks, and the orthographic projection is not modelled.
- `MaxNumUniforms` and the header definitions are not part of this model. This covers `GLUniformBlockCache`, `GLShader`, `GLUniform`, `Material`, the render command types and the vertex format structs. Their values are parameters, and a fresh block cache's used size is taken as its size minus its alignment padding.
- `IGfxCapabilities::hasExtension` and the GL info strings are parameters of the cache constructor.
- C strings are modelled as `string`; `StaticString` truncation is `Truncate`. The `nctl::StaticString` header is not part of this model; `assign` is taken to keep at most `capacity()` characters, which is 512 for the platform strings.
- `reset` and the destructor call `removeCameraUniformData` and `unregisterBatchedShader`; the shader program model does not link those calls to the render resources model, which models them on their own.
- `insertCameraUniformData`, `createMinimal`, `dispose`, the embedded shader tables, `attribute`/`defineVertexFormat`, `validate`, `loadBinary`'s GL part, logging and profiling zones are left out as plumbing.
- The aliasing between module-level scratch buffers is not modelled; each buffer is tracked only by its size.
- `nctl::quicksort` is not modelled step by step. `RenderQueue.Draw` takes any ordered permutation of each list, since the order it leaves equal keys in is not fixed here. `RenderQueue.Sort` is a reference insertion sort, one such permutation, and `RenderQueue.SortedKeysDetermined` shows every such permutation has its key sequence.
- `HashMap::insert` into an occupied key (in `RenderResources`) is taken to keep the old value.
- RenderQueue.AddCommand: counters are unbounded; the 32-bit `unsigned int` wrap-around of the vertex and command counters is not modelled.
- BinaryShaderCache.SaveToCache: statistics counters are unbounded; their 32-bit wrap-around is not modelled.
- BinaryShaderCache.Prune: a failed `fs::deleteFile`, and `fs::fileSize` returning -1, are not modelled (src/graphics/BinaryShaderCache.cpp:205-211); every stale file is taken to be deleted, so the counters the code decrements always match the directory.
- BinaryShaderCache.Clear: a failed `fs::deleteFile` is not modelled; every file is taken to be deleted.
- UniformBlocks.Import: the block caches are kept in insertion order, and `SetUniformsDataPointer`, `Commit` and `Bind` visit them in that order. `StaticHashMap` visits them in bucket order (src/graphics/opengl/GLShaderUniformBlocks.cpp:39, 76, 104, 121), which decides the data offsets; that order is not modelled.
- UniformBlocks.Insert: appends a new cache at the end, which stands for the insertion-order iteration above rather than the hash map's bucket order.
- UniformBlocks.Bind: the debug `ASSERT(offset % offsetAlignment == 0)` at src/graphics/opengl/GLShaderUniformBlocks.cpp:43 is not a failure path of `Bind`, which always returns the ranges. `BindAlignedIff` states exactly when it holds. The used sizes and the range start come from `GLUniformBlockCache` and the buffers manager, which are not part of this model, so whether real blocks meet the condition is not decided here.
- TextureLoader.Pixels: level 0 of a single-level texture is offset 0 even before `loadPixels` allocates the buffer, where the code returns the null `pixels_.get()`.
- TextureLoader.LoadPixels: requires the file to be at least as long as the header, which the code assumes without checking.
- Geometry.UpdateVboData: requires a buffer outside the common-resource case, since the code dereferences it unchecked.
- The `SdlInputManager` and `Keys` headers and the WebP loader hold no behaviour of this core.

## Notes

- `use` binds the program even when resolving its deferred queries fails (src/graphics/opengl/GLShaderProgram.cpp:217-226); `ShaderProgram.Use` states this.
- Replacing one hex digit of a valid cache file name by another hex digit gives another valid name; every other single-character change makes it invalid. `ShaderFilename.SingleCharacterChange` states the exact rule.
- Under the fresh-cache sizes this model takes (size minus alignment padding), the bind assertion at src/graphics/opengl/GLShaderUniformBlocks.cpp:43 holds for a program with several blocks only if every block but the last has an unpadded size that is a multiple of the offset alignment (`UniformBlocks.BindAlignedIff`, `UniformBlocks.BindMisalignedAfter`).

## Findings

| source | as written | input that shows it | evidently intended | confidence | as-written member | corrected member |
|---|---|---|---|---|---|---|
| src/graphics/opengl/GLShaderProgram.cpp:431-440 | the `break` at the cap leaves only the inner loop, so the next chunk keeps storing into `indices` | 513 active uniforms, all outside blocks, with `MaxNumUniforms` ≤ 512: the second chunk writes `indices[MaxNumUniforms]` | stop collecting once `MaxNumUniforms` uniforms are found | not executed | UniformDiscovery.WriteOutOfBounds | UniformDiscovery.DiscoverUniforms |
| src/graphics/ITextureLoader.cpp:45 | `int(mipMapLevel) < mipMapCount_` casts the unsigned level to `int`; the same comparison is at line 60 | `mipMapLevel` = 2^31 with two levels: the cast gives a negative number, the comparison holds, and `mipDataSizes_[2^31]` is read | compare the unsigned level with the count | not executed | TextureLoader.LevelCheckAdmitsHugeLevel | TextureLoader.DataSize |
| src/graphics/opengl/GLShaderProgram.cpp:307-308 | `glUseProgram(0)` without resetting `boundProgram_`; the destructor does the same at lines 69-70 | a bound, linked program is reset and GL hands the deleted name back from `glCreateProgram`: `use` sees the name recorded as bound and skips the bind | clear `boundProgram_` together with the GL binding | not executed | ShaderProgram.ResetThenUseLeavesProgramUnbound | ShaderProgram.ResetThenUseBinds |
| src/graphics/opengl/GLShaderProgram.cpp:296-324 | `reset` clears `uniforms_` and `uniformBlocks_` but not `uniformsSize_` and `uniformBlocksSize_`, which introspection adds to at lines 448 and 465 | the compile-twice path of src/graphics/RenderResources.cpp:313-365: a batched shader built with `BATCH_SIZE` 1 is linked with introspection, reset, rebuilt with the real batch size and relinked. Each counter ends at the first build's size plus the second's, while the program holds only the second build's uniforms and blocks | zero both counters in `reset` | not executed | ShaderProgram.ResetRelinkCountsTwice | ShaderProgram.ResetRelinkCountsOnce |
| src/graphics/BinaryShaderCache.cpp:40-58 | each identity string is copied into a `StaticString<512>` and its padding zeroed up to `paddedLength`, which exceeds 512 for a string of 504 or more characters | a GL_RENDERER or GL_VERSION string of 504 characters: `paddedLength` is 519 and the loop at line 47 (or 57) writes 7 bytes past the buffer | a buffer with room for the padding of the longest kept string | not executed | SourceHash.PlatformPaddingOverruns | SourceHash.PlatformPaddingFits |
| src/graphics/Geometry.cpp:60-67 | a unique geometry deletes its buffer before copying the other geometry's pointer | `g.shareVbo(g)` on a unique geometry: `vbo_` ends pointing at the buffer just deleted | sharing one's own buffer is a no-op | not executed | Geometry.SelfShareDangles | Geometry.ShareVboKeepsBufferLive |
