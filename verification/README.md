# FOD data plane: a verified model

FOD is a FUSE filesystem that stores files as fixed-size blocks in PostgreSQL. Between the kernel
and the database sits an in-process data plane: a block overlay per open handle, a map of recently
written blocks, a block cache filled by concurrent readers, planners that decide which blocks to
persist, copy and fetch, a POSIX byte-range lock table, and a table of handles with the fences their
writes are persisted under. This project models that data plane and proves that it behaves like a
flat byte array, what its caches guarantee under every interleaving, and that its tables keep their
invariants over every run.

| file | what it covers |
|---|---|
| `Bytes.dfy` | blocks, saturating `u64` arithmetic, `pwrite` and `ftruncate` on a flat array |
| `PersistPlan.dfy` | block counts, runs of block numbers, persist plans |
| `Layers.dfy` | overlay, recent map and store as one flat file; what a cut and a flush mean |
| `WriteBuffer.dfy` | `WriteState` and the mount: buffered writes, truncate repair, flush, recent map, store |
| `FileOps.dfy` | the callbacks of a handle that change or read its buffered bytes |
| `FileRuns.dfy` | the read callback, and the theorem about whole runs of callbacks |
| `CopyPlan.dfy` | copy segmentation, skip-unchanged runs, whole-object adoption |
| `ReadPath.dfy` | cache probe, parallel fetch, merge, slice assembly, the read of an unbuffered file |
| `BlockCache.dfy` | FIFO and LRU block cache against a log of its operations |
| `CacheCoherence.dfy` | generation gate, readers, writers and reloads as a step relation |
| `CacheHazards.dfy` | runs of that relation in which its named exceptions happen |
| `CacheProgress.dfy` | what its reads, fills, flushes, replacements and reloads achieve when they run to their end |
| `CacheStaleness.dfy` | how old the blocks in the caches can be, and when a reply is one content |
| `FillCoordinator.dfy` | coalesced cache fills as a step relation |
| `LockTable.dfy`, `LockBlob.dfy` | byte-range locks and their text form |
| `LockBackend.dfy` | the lock callbacks over the process table and over lease rows that go through the text form |
| `HandleTable.dfy` | open handles, buffered changes, fences |
| `Runs.dfy` | runs of a step relation |

## Main results

* **Flat file.** `FileRuns.Run`: any run of writes, reads, copies, truncates, flushes, evictions and
  cache reloads through one handle, with any store failures, behaves like a flat array. At every
  moment the handle shows exactly the bytes of the operations that took effect so far, every read
  that returns bytes returns a slice of them, and without store failures an operation fails exactly
  when a one-block read or comparison meets a block copy that is too short for it. After every flush,
  truncate and write that may not stay buffered, if nothing failed, the store alone holds those bytes;
  reads, evictions and reloads leave it as it is.
* **Coherent caches.** `CacheCoherence.CachesAgreeWithStore`: in every reachable state a cached block
  is the committed one unless a local writer of that block has committed and not yet invalidated; a
  recent block that no writer is about to update is the committed one exactly if the flush that left
  it had not been overrun on that block. `ReadsReturnCommittedBlocks`: a read that returns through the
  generation gate holds committed blocks with the same exceptions. Cache hits are answered without a
  check (`rust_fuse/src/fs.rs:8346-8384`): each block of such a reply was committed at some moment of the read
  (`UncheckedRepliesWereCommitted`), and the reply is one committed content exactly as
  `UncheckedReplyIsSnapshotIff` says, in particular if nothing was invalidated since the read began
  (`UnbrokenReplyIsSnapshot`).
* **Useful caches.** From every reachable state with a free gate a read that misses leaves exactly the
  committed blocks it fetched in the cache (`CacheProgress.MissFillsCache`), also on a retry
  (`RetrySucceeds`), and the next read takes them (`HitTakesCached`); a flush, a replacement and a
  switch-off leave exactly what they should in store and both caches (`FlushTakesEffect`,
  `ReplacementTakesEffect`, `SwitchTakesEffect`).
* **Bounded staleness.** Whatever writers are about, at every moment of every run a cached block was
  the committed one at some moment since its file was last invalidated
  (`CacheStaleness.CachedSinceInvalidation`), a recent block that is not stale at some moment since no
  writer of it was about to update the map (`RecentSinceSettled`), and every block a reader holds at
  some moment (`NothingIsInvented`). A reply is one content exactly if every two of its blocks are, as
  long as no bytes come back (`OneContentIffPairs`).
* **Eviction.** `BlockCache.ReadBlockCache.Run`: over every sequence of operations the block cache
  returns the last value put and keeps the newest keys by insertion (FIFO) or use (LRU).
* **Fills.** `FillCoordinator`: a reader waits exactly if some block it is missing is already being
  fetched, and otherwise fetches exactly its missing blocks (`AcquireDecides`), so no block is fetched
  by two readers at once (`MissingBlocksAreFetchedOnce`); flights have one owner each, and nobody sleeps
  without an owner whose next steps wake it.
* **Locks.** A grant or unlock changes exactly the owner's bytes in the range; owners that share a byte
  all read it, whatever the bounds and types of the requests are; a request is refused exactly when
  another owner writes, or for a write request holds, one of its bytes; records survive printing and parsing; a request through the database is committed, refused or rejected exactly as
  `LockBackend.PgOutcomeOf` says of the stored rows and the request. `LockBackend.PosixLocks.Run`: over
  every sequence of requests, queries and owner clears each callback does what the deciding table
  before it says, and without inverted requests every owner's records stay nonempty and disjoint.
* **Fences.** Every persist call of every run of the callbacks in `HandleTable` carries a fence for
  its own file, and each callback succeeds exactly when its fence, its flushes and its inputs allow it.

## Where the code does not do what one would expect

The model follows the code. Each of these is proved, with the condition under which it happens:

* The direct transports (`binary_bytea`, `legacy_hex`) delete the row of a dirty block that the file
  ends inside of. `WriteBuffer.StoreKeepsFlushIff` says when a flush is kept,
  `WriteBuffer.DirectTransportDropsPartialBlock` gives an instance. The whole-run theorem is
  therefore stated for the default transport, `copy_binary_staging`.
* A one-block read does not clamp to the length of the block it resolved. Through a buffered state
  it runs off the end exactly when that copy is short (`FileOps.ReadFromWriteState`); without one the
  request fails with `EIO` exactly then (`ReadPath.ReadFile`), and a deduplicating copy overruns
  exactly when its comparison does (`FileOps.CopyInto`). A write, a truncate and a second write lead
  there (`FileRuns.ShortCopyOverrun`). Requests over several blocks are clamped and always right.
* The recent-write map is not covered by the generation gate. A flush that another commit overruns on
  a block, giving it other bytes before the flush has stored its recent blocks, can leave the old
  block in the map for good (`CacheHazards.OverrunLeavesStaleBlock`, reachable by
  `FlushesCanBeOverrun`). Adoption and hole punching invalidate before they forget recent blocks, which
  opens a shorter window (`ReplacementWindowShowsOldBlock`, reachable by `WindowsCanOpen`).
* A read of several blocks that all hit in the caches is answered without a check of the generation.
  When a whole flush falls between its probes the reply has blocks of two contents that were never
  committed together (`CacheHazards.UncheckedRepliesCanBeTorn`). An invalidation without a commit does
  no harm (`InvalidationAloneIsHarmless`). This hazard and the two before it need callbacks that run
  beside each other: with one FUSE event thread, the default (`rust_fuse/src/startup.rs:219`), they do
  not arise; the shipped configuration asks for eight (`fod_config.ini:44`).
* A copy leaves a state without buffered changes in the table. When another handle grows the file,
  the copying handle keeps the old length (`FileOps.CopyLeavesStaleSize`); such a state is current
  exactly when its size is the stored size (`FileOps.CleanStateIsCurrentIff`). A write through such a
  state makes the file the right one cut or extended to the state's size, and that is wrong exactly when
  the sizes differ and the write ends below the larger one (`FileOps.WriteThroughCleanState`): a short
  write loses what another handle appended (`FileOps.StaleWriteLosesAppend`).
* The lock callbacks do not test start against end. The conflict check is exact for every well-formed
  table if and only if the request is not inverted (`LockTable.ConflictCheckIsExactIff`), and
  `LockTable.StaysTidyIff` says when an owner's records stay disjoint. Through the database an inverted
  lock request is stored but cannot be read back: the request fails although it was committed, and
  from then on every request for the file fails, also after the owner has closed it
  (`LockBackend.InvertedRequestWedges`).
* A request that reaches the largest file offset is rejected when its owner has an open-ended record
  (`LockBackend.OrdinaryOutcome`, `LockBlob.UpdateIsAcceptedIff`).
* A release whose final flush fails drops the buffered changes (`HandleTable.HandleTable.Release`).
* Two handles of a file never both hold buffered changes, except after a flush failed on a shared
  file (`HandleTable.HandleTable.Write`) or a `create` found an existing file with buffered changes
  (`HandleTable.HandleTable.Create`).

## Model

| member | source | states |
|---|---|---|
| PersistPlan.BlockCountForLength | rust_hotpath/src/persist_plan.rs:4-15 | the count covers the length and no block more, at least one block when asked |
| PersistPlan.BlockCountIsExact | rust_hotpath/src/persist_plan.rs:4-15 | a block lies below the count exactly when it starts below the length |
| PersistPlan.SaturationNeverShows | rust_hotpath/src/persist_plan.rs:17-22 | for every block the saturating computation equals the unbounded one |
| PersistPlan.DirtyBlockSizeIsShare | rust_hotpath/src/persist_plan.rs:17-22 | each used length is between 1 and the block size and is the block's share of the file |
| PersistPlan.UsedLengthsSumToFileSize | rust_hotpath/src/persist_plan.rs:17-22 | the used lengths of all blocks of a file sum to its size, for every size |
| PersistPlan.ContiguousRanges | rust_hotpath/src/persist_plan.rs:231-250 | the runs cover exactly the values, and are maximal when the values ascend |
| PersistPlan.SortDedup | rust_hotpath/src/persist_plan.rs:252-256 | strictly ascending, same elements |
| PersistPlan.SortedContiguousRanges | rust_hotpath/src/persist_plan.rs:252-261 | maximal runs of exactly the values in any input order |
| PersistPlan.PlanRange | rust_hotpath/src/persist_plan.rs:187-204 | one run adds exactly its blocks below the count, ascending, with their used lengths |
| PersistPlan.PersistBlockPlan | rust_hotpath/src/persist_plan.rs:176-211 | the plan lists exactly the dirty blocks below the block count, ascending, without duplicates, each with its used length |
| PersistPlan.ChoosePersistExecutionPlan | rust_hotpath/src/persist_plan.rs:213-229 | that plan, with the block count of the file size |
| Layers.EvictionKeepsView | rust_fuse/src/read_cache.rs:683-692 | losing recent blocks that agree with the store changes no byte of the layered file |
| Layers.BufferedWriteIsPWrite | rust_fuse/src/write_buffer.rs:124-213 | the buffered write is `pwrite` while the end offset does not saturate |
| Layers.WrittenView | rust_fuse/src/write_buffer.rs:124-213 | layers with the written bytes show the old file with the data written over it |
| Layers.WrittenThroughAnySize | rust_fuse/src/write_buffer.rs:124-207 | whatever size the state has, the file it shows afterwards is the right one cut or zero-extended to the state's new size |
| Layers.TruncateMeansFTruncate | rust_fuse/src/write_buffer.rs:316-376 | the bytes left by a truncating flush are `ftruncate` of the old file, zero past the new end |
| Layers.ExtendHidesStaleTail | rust_fuse/src/write_buffer.rs:267-297 | growing a clean file shows zeroes even over a stored block with stale bytes past the old end |
| WriteBuffer.WriteState.New | rust_fuse/src/write_buffer.rs:68-84 | a fresh state has nothing buffered |
| WriteBuffer.WriteState.Clone | rust_fuse/src/write_buffer.rs:675-686 | a clone has the table's value and is independent of it |
| WriteBuffer.FodFuse.LoadWriteBlock | rust_fuse/src/write_buffer.rs:86-122 | overlay, then recent map, then store, then a zero block; fails only on a store error |
| WriteBuffer.FodFuse.BaseBlock | rust_fuse/src/write_buffer.rs:174-190 | the three shortcuts for the block a write starts from all give the block's layered bytes where they matter |
| WriteBuffer.FodFuse.SplicedBlock | rust_fuse/src/write_buffer.rs:174-199 | the block with the write's share spliced in, unchanged elsewhere |
| WriteBuffer.FodFuse.WriteOneBlock | rust_fuse/src/write_buffer.rs:155-203 | one more block of the write is in the overlay, no other block changed |
| WriteBuffer.FodFuse.UpdateWriteBuffer | rust_fuse/src/write_buffer.rs:124-213 | for every state and size: each layered byte is the written one inside the range; outside it is the old one, or zero in a block past the state's size that the write starts at its first byte; size grows to the end offset; store and recent map untouched; the blocks the write meets become dirty, and no others |
| WriteBuffer.FodFuse.LoadBoundaryBlock | rust_fuse/src/write_buffer.rs:215-235 | the block holding the end of file, from the layers, or none |
| WriteBuffer.FodFuse.CutExistingBlock | rust_fuse/src/write_buffer.rs:237-265 | everything from the cut on in that block becomes zero, nothing else changes |
| WriteBuffer.FodFuse.TrimExistingBlockAtEof | rust_fuse/src/write_buffer.rs:299-314 | the same for a dirty state |
| WriteBuffer.FodFuse.PrepareTruncateBoundaryBlocks | rust_fuse/src/write_buffer.rs:316-376 | the layers are cut exactly at the boundary the old and new sizes call for |
| WriteBuffer.FodFuse.UpsertRows | rust_hotpath/src/pg.rs:13649-13740 | each persisted row has the transport's bytes, other rows stay |
| WriteBuffer.FodFuse.PersistFileBlocks | rust_hotpath/src/pg.rs:13649-13880 | the size is set, rows past the block count go with a truncate, planned rows are stored |
| WriteBuffer.FodFuse.PreparePersistRows | rust_fuse/src/write_buffer.rs:458-472 | one row per planned block, with that block's bytes |
| WriteBuffer.FodFuse.ExecutePersistPlan | rust_fuse/src/write_buffer.rs:474-517 | every stored byte of the file's blocks is afterwards the layered byte cut at the boundary; past the block count it is zero if the flush truncates or nothing was there |
| WriteBuffer.FodFuse.StoreRecentWriteBlocks | rust_fuse/src/read_cache.rs:651-698 | blocks past a truncated end go and flushed blocks come in; of those the largest keys stay, with their contents, as many as the limit allows |
| WriteBuffer.AllKept | rust_fuse/src/read_cache.rs:683-692 | below the limit every flushed and older block is still there |
| WriteBuffer.MergedRecentMeaning | rust_fuse/src/read_cache.rs:675-684 | before eviction the map has the flushed blocks below the end, and what it had but for the cut-off blocks of the file |
| WriteBuffer.FodFuse.RecentIsBounded | rust_fuse/src/read_cache.rs:462-470 | a flush leaves at most the file's block count and at most sixteen times the cache limit or 256 recent blocks, none when caching is off, and everything if it fits |
| WriteBuffer.TailKept | rust_fuse/src/read_cache.rs:678-692 | a small file flushed into an empty map keeps its last block there |
| WriteBuffer.FodFuse.EvictRecent | rust_fuse/src/read_cache.rs:684-692 | the smallest keys are evicted, and no more than needed |
| WriteBuffer.FodFuse.PublishFlushed | rust_fuse/src/write_buffer.rs:413-439 | the state is clean, and the recent map agrees with the new rows if the flush truncates or nothing was stored past the end |
| WriteBuffer.FodFuse.FlushWriteState | rust_fuse/src/write_buffer.rs:378-439 | on success the store holds the flushed bytes, for every size of the state, and the state is empty; the recent map agrees with it if the flush truncates or nothing was stored past the end; on failure neither changed; after a flush without truncate the recent map has the flushed blocks as far as its limit allows |
| WriteBuffer.StoreKeepsFlushIff | rust_hotpath/src/pg.rs:13743-13880 | the store holds every flushed byte exactly when the transport keeps partial blocks, or no dirty partial last block has a nonzero byte |
| WriteBuffer.DirectTransportDropsPartialBlock | rust_hotpath/src/pg.rs:13743-13880 | a concrete one-block file whose flushed byte is lost |
| FileOps.EveryLayerIsZeroPastEof | rust_fuse/src/write_buffer.rs:316-439 | between callbacks overlay, recent map and store are zero past the end of file |
| FileOps.FlushState | rust_fuse/src/write_buffer.rs:378-439 | flushing keeps every logical byte and the size, and the store alone yields them |
| FileOps.BufferWrite | rust_fuse/src/fs.rs:10433-10443 | a buffered write shows as `pwrite` on the state's bytes, or the state is unchanged |
| FileOps.RepeatsStored | rust_fuse/src/fs.rs:10369-10405 | a write is skipped exactly if the stored bytes could be read and are already those of the write |
| FileOps.Write | rust_fuse/src/fs.rs:10309-10531 | the handle's bytes are `pwrite` of the old ones, or unchanged on failure; a write that repeats stored bytes changes nothing at all; nothing stays buffered at the threshold or on a shared file, otherwise the store is not touched |
| FileOps.Truncate | rust_fuse/src/fs.rs:8693-8734 | the handle's bytes and the store are `ftruncate` of the old ones, or unchanged on failure |
| FileOps.Fsync | rust_fuse/src/fs.rs:5922-5937 | no logical byte changes, and afterwards the store holds them all and no buffered change is left; a failure changes nothing |
| FileOps.Evict | rust_fuse/src/read_cache.rs:700-710 | exactly the given recent blocks go, and the handle's bytes stay |
| FileOps.Reload | rust_fuse/src/fs.rs:1137-1186 | the limit is set, a disabling reload empties the recent map and any other keeps it, and the handle's bytes stay |
| FileOps.ClassifyBlocks | rust_fuse/src/write_buffer.rs:556-571 | every block of the range is dirty, recent or in the span left to the store, and that span lies in the range |
| FileOps.AssembleState | rust_fuse/src/write_buffer.rs:593-631 | the assembled bytes are the layered file's, also when block copies are short |
| FileOps.ReadFromWriteState | rust_fuse/src/write_buffer.rs:519-632 | a read returns the layered bytes clamped to the size; it overruns exactly on a one-block request whose copy is short, and it fails whenever a block it has to load fails |
| FileOps.CopyDestination | rust_fuse/src/write_buffer.rs:634-673 | the destination bytes a copy compares with, zero-extended to the payload; without load failures it overruns exactly when the comparison lies in one block of a buffered state whose copy is short |
| FileOps.WriteRuns | rust_fuse/src/fs.rs:11205-11217 | writing the runs one by one shows as applying them to the flat file |
| FileOps.CopyWhole | rust_fuse/src/fs.rs:11246-11272 | a plain copy is `pwrite` of the payload, persisted |
| FileOps.CopyChangedRuns | rust_fuse/src/fs.rs:11128-11242 | writing only the differing runs, with the early size extension, is `pwrite` of the whole payload; it crashes exactly when the comparison overruns |
| FileOps.CopyInto | rust_fuse/src/fs.rs:11107-11270 | with or without deduplication the destination becomes `pwrite` of the payload, or nothing changes; without failures it is copied exactly unless the comparison overruns, and a deduplicated copy of bytes already there changes nothing |
| FileOps.ShrinkThenExtend | rust_fuse/src/write_buffer.rs:237-376 | shrinking and growing again exposes only zeroes |
| FileOps.ExtendOverStaleTail | rust_fuse/src/write_buffer.rs:267-297 | growing a clean file repairs a stale stored tail in the store itself, always if nothing fails |
| FileOps.CleanStateIsCurrentIff | rust_fuse/src/fs.rs:11233-11236 | a state without changes shows the file exactly when it has the stored size |
| FileOps.CopyLeavesStaleSize | rust_fuse/src/fs.rs:11269-11272 | after a copy through one handle and growth through another the first shows the old length |
| FileOps.ResizedWrite | rust_fuse/src/write_buffer.rs:474-496 | cutting or extending a write's result to the state's size keeps it exactly unless the sizes differ and the write ends below the larger one |
| FileOps.StoreThroughCleanState | rust_fuse/src/fs.rs:10433-10485 | a write buffered in a state without changes and flushed leaves the right file cut or extended to the state's size |
| FileOps.WriteThroughCleanState | rust_fuse/src/fs.rs:10408-10531 | a write through a state without changes leaves the right file cut or extended to the state's size, and no state; right exactly under that condition |
| FileOps.StaleWriteLosesAppend | rust_fuse/src/fs.rs:10408-10531 | copy through one handle, append through another, short write through the first: the appended bytes were stored and the file has the length of the copy again |
| FileRuns.CacheOfAgrees | rust_fuse/src/read_cache.rs:535-618 | what the probes find, recent blocks before cached rows, agrees with the store |
| FileRuns.ShortCopyIsRecent | rust_fuse/src/fs.rs:8346-8360 | only a recent block can be shorter than a request inside it |
| FileRuns.Read | rust_fuse/src/fs.rs:8230-8502 | the read callback, through a state, the caches or past them, returns the slice of the handle's bytes; without failures it returns bytes exactly unless it lies in one block whose copy is short, or past the caches its end is no offset; a failing store fails it |
| FileRuns.Perform | rust_fuse/src/fs.rs:10309-10531 | each callback does to the layered file what its flat counterpart does to a byte array, and without failures takes effect exactly unless it overruns; after a flush, a truncate or a write that must be flushed the store holds the handle's bytes |
| FileRuns.BehavesFlatOn | rust_fuse/src/write_buffer.rs:124-439 | one more such callback keeps a run equal to the flat run |
| FileRuns.Run | rust_fuse/src/write_buffer.rs:124-632 | every run of callbacks through a handle equals the same run on a flat byte array, every read in it returns a slice of that array, and after each flush, truncate or forced flush without failures the store holds it |
| FileRuns.ShortCopyOverrun | rust_fuse/src/write_buffer.rs:537-551 | a write, a truncate and a write further on lead from an empty file to a state, within the invariant, in which a read of the first block overruns |
| CopyPlan.CutIsConsecutive | rust_hotpath/src/lib.rs:48-80 | segments follow each other in source and destination and sum to the length |
| CopyPlan.CutCount | rust_hotpath/src/lib.rs:48-80 | how many segments a share size gives |
| CopyPlan.CopySegments | rust_hotpath/src/lib.rs:48-80 | a partition of the request into at most as many segments as workers: all but the last have the same whole number of blocks, the least with which the workers cover the request |
| CopyPlan.ShareIsFair | rust_hotpath/src/lib.rs:58-63 | each worker's share is the least whole number of blocks with which the workers cover the request |
| CopyPlan.FlagRunsAreMaximal | rust_hotpath/src/lib.rs:82-114 | the runs are exactly the maximal runs of set flags |
| CopyPlan.PackChangedRanges | rust_hotpath/src/lib.rs:82-114 | one byte range per maximal run of changed blocks |
| CopyPlan.PackChangedCopyPairs | rust_hotpath/src/lib.rs:116-127 | the same for pairs of blocks that differ |
| CopyPlan.PackCopySkipUnchangedRuns | rust_fuse/src/copy_plan.rs:68-114 | one payload slice per maximal run of chunks that differ from the zero-padded destination |
| CopyPlan.RunIntervalsAgree | rust_fuse/src/copy_plan.rs:68-114 | on the pieces of one copy the ranges of the pair planner are the intervals of the runs, in number and one by one |
| CopyPlan.UntouchedIsUnchanged | rust_fuse/src/copy_plan.rs:68-114 | every byte outside the runs already has the payload's value |
| CopyPlan.SkippingUnchangedRunsIsAWrite | rust_fuse/src/copy_plan.rs:68-114 | applying the runs to the extended file equals writing the whole payload |
| CopyPlan.NoRunsWithoutChange | rust_fuse/src/copy_plan.rs:68-114 | a payload that repeats the destination has no runs |
| CopyPlan.BoundsOfCopy | rust_fuse/src/copy_plan.rs:34-66 | the bounds of a copy are the requested bytes the source has, with exactly the blocks that meet them; there are none exactly if there is nothing to copy |
| CopyPlan.AdoptionIsACopy | rust_fuse/src/copy_plan.rs:17-32 | adoption is allowed exactly for a whole clean nonempty source into a clean empty target, and then gives the bytes and size of the plain copy |
| ReadPath.CopyOverlap | rust_hotpath/src/lib.rs:295-327 | exactly the overlap of block and window is copied |
| ReadPath.AssembleReadSlice | rust_hotpath/src/lib.rs:280-328 | each output byte comes from the last listed block that covers it, or is zero |
| ReadPath.AssemblesToStored | rust_hotpath/src/lib.rs:280-328 | any complete list of blocks that agree with the store, with duplicates, assembles to the file's bytes |
| ReadPath.CachedBlocksAndMissing | rust_fuse/src/read_cache.rs:579-618 | hits are exactly the cached blocks of the range and misses all the others, both ascending |
| ReadPath.FetchedRows | rust_fuse/src/read_cache.rs:787-817 | a range fetch returns exactly the rows present in the range, once each, ascending, at full block length |
| ReadPath.SortByIndex | rust_fuse/src/read_cache.rs:868-870 | sorted by index, same elements |
| ReadPath.FetchedRanges | rust_fuse/src/read_cache.rs:819-872 | fetching separate ranges one after the other gives exactly their rows, once each, ascending |
| ReadPath.FetchBlockRangeParallel | rust_fuse/src/read_cache.rs:819-872 | whatever worker takes which range, the result has the rows of fetching the ranges one after the other, and for separate ranges is that very list |
| ReadPath.FetchMissingReadBlocks | rust_fuse/src/read_cache.rs:874-904 | every missing block that has a row is fetched, once each and ascending, and agrees with the store, whether in one span or in parallel; the span brings in exactly the rows between, the parallel fetch none |
| ReadPath.MergedIsSorted | rust_fuse/src/read_cache.rs:747-785 | merging sorted lists gives a sorted list |
| ReadPath.MergedIsUnion | rust_fuse/src/read_cache.rs:747-785 | the merge has exactly the blocks of both lists |
| ReadPath.MergePrefersLeft | rust_fuse/src/read_cache.rs:747-785 | on a duplicate the cached block is found first |
| ReadPath.MergeSortedBlocks | rust_fuse/src/read_cache.rs:747-785 | the loop computes that merge |
| ReadPath.ReadBlockMap | rust_fuse/src/read_cache.rs:1048-1067 | one attempt with nothing else running: cached and fetched blocks together are complete and agree with the store, the cached one first |
| ReadPath.SingleBlockBytes | rust_fuse/src/fs.rs:8405-8420 | a long enough block gives exactly the file's bytes of the request |
| ReadPath.ReadOneBlock | rust_fuse/src/fs.rs:8346-8453 | the one-block path returns the file's bytes, or fails when the block is short |
| ReadPath.ReadManyBlocks | rust_fuse/src/fs.rs:8361-8491 | the many-block path returns exactly the file's bytes |
| ReadPath.ReadFile | rust_fuse/src/fs.rs:8319-8502 | a read returns the file's bytes in the clamped window; `EIO` exactly when the one block it resolves is short |
| ReadPath.ReadUncached | rust_fuse/src/fs.rs:4665-4712 | a read past the caches returns the file's bytes in the clamped window; `EINVAL` exactly when the end of the request is no offset |
| BlockCache.ReadBlockCache.Get | rust_fuse/src/read_cache.rs:354-360 | a hit returns the last value inserted and under LRU makes the key the newest |
| BlockCache.ReadBlockCache.PutBlock | rust_fuse/src/read_cache.rs:399-420 | insertion keeps a resident key's place under FIFO and renews it under LRU |
| BlockCache.ReadBlockCache.EvictTo | rust_fuse/src/read_cache.rs:406-428 | what is evicted is older than everything kept, as much is kept as the limit allows, and no key gets newer or older by it |
| BlockCache.ReadBlockCache.InsertMany | rust_fuse/src/read_cache.rs:396-430 | within the limit afterwards, holding exactly the newest of the old and new keys with their last values; arrival order carries over to the next insert |
| BlockCache.ReadBlockCache.ClearFile | rust_fuse/src/read_cache.rs:432-448 | exactly the file's entries are gone, the order of the rest stays |
| BlockCache.ReadBlockCache.ClearAll | rust_fuse/src/read_cache.rs:450-459 | nothing is left |
| BlockCache.OrderHasNoDuplicates | rust_fuse/src/read_cache.rs:309-318 | the order is a duplicate-free listing of the entry keys |
| BlockCache.PolicyByName | rust_fuse/src/read_cache.rs:293-306 | the policy is LRU exactly for that name, in any case and with white space around it |
| BlockCache.LruExample | rust_fuse/src/read_cache.rs:293-306 | `LRU` between a tab and a space names LRU |
| BlockCache.FifoExample | rust_fuse/src/read_cache.rs:293-306 | an unknown name means FIFO |
| BlockCache.ReadBlockCache.Perform | rust_fuse/src/read_cache.rs:354-459 | each operation does what the log of everything before it says |
| BlockCache.ReadBlockCache.Run | rust_fuse/src/read_cache.rs:309-459 | over every sequence of operations a hit is the last value put and an insert keeps the newest keys by insertion or use |
| CacheCoherence.StepKeepsInv | rust_fuse/src/read_cache.rs:36-100 | every step of readers, writers and reloads keeps the coherence invariant |
| CacheCoherence.CommitRows | rust_fuse/src/write_buffer.rs:403-411 | a commit changes exactly its rows, the blocks past the end when truncating, and every block of the file when replacing it |
| CacheCoherence.ProbingCaches | rust_fuse/src/read_cache.rs:535-577 | a probe of either cache keeps the invariant of the reader: under a current stamp what it took is committed, or a named exception holds |
| CacheCoherence.Inserting | rust_fuse/src/read_cache.rs:620-631 | a publication under the gate keeps the invariant: what it adds to the cache is committed or has a pending writer (what it adds: CacheProgress.PublicationFills) |
| CacheCoherence.Invalidating | rust_fuse/src/read_cache.rs:712-725 | the epoch advance and the clear keep the invariant, though its writer no longer excuses old blocks |
| CacheCoherence.StoringRecent | rust_fuse/src/read_cache.rs:651-698 | a settling flush keeps the invariant: of the blocks it brings in exactly those it was overrun on are marked stale |
| CacheCoherence.CachesAgreeWithStore | rust_fuse/src/read_cache.rs:906-962 | in every reachable state a cached block is committed unless a local writer of it has yet to invalidate; a recent block nobody is about to update is committed exactly if it is not stale |
| CacheCoherence.OverrunMeansOtherBytes | rust_fuse/src/write_buffer.rs:403-432 | an unsettled flush is overrun on a block exactly if the block it carries is no longer the committed one |
| CacheCoherence.ReadsReturnCommittedBlocks | rust_fuse/src/read_cache.rs:1029-1070 | a read that may return through the gate holds only committed blocks, up to the named exceptions |
| CacheCoherence.QuietProbeTakesCommitted | rust_fuse/src/read_cache.rs:535-577 | while no writer is at work on a file a probe takes committed bytes unless the recent block is stale |
| CacheCoherence.UncheckedRepliesAreHits | rust_fuse/src/fs.rs:8346-8384 | a reply without a check holds cache hits only: a fetched row never gets out unchecked |
| CacheCoherence.UncheckedRepliesWereCommitted | rust_fuse/src/fs.rs:8346-8384 | each block of a reply from cache hits was committed at some moment of the read, up to the named exceptions |
| CacheCoherence.UncheckedReplyIsSnapshotIff | rust_fuse/src/fs.rs:8346-8384 | such a reply is the content of a given commit exactly if no block of it differs there from the version it was taken from |
| CacheCoherence.UnbrokenReplyIsSnapshot | rust_fuse/src/fs.rs:8346-8384 | such a reply is the present content if nothing of the file was invalidated since the read began |
| CacheCoherence.DisabledCachesStayEmpty | rust_fuse/src/fs.rs:1137-1186 | after a disabling reload both caches are empty until caching is enabled again; only such a reload clears them |
| CacheCoherence.ReloadShutsRecentMap | rust_fuse/src/fs.rs:1137-1186 | while a reload switches the caches off no other step reads or changes the recent map or the limit |
| CacheCoherence.NoLatePublication | rust_fuse/src/read_cache.rs:56-100 | a fill stamped before a disable never publishes after it |
| CacheHazards.OverrunLeavesStaleBlock | rust_fuse/src/write_buffer.rs:413-432 | whenever a flush is overrun on a block, its old block can stay and be read after both writers have finished |
| CacheHazards.FlushesCanBeOverrun | rust_fuse/src/write_buffer.rs:405-432 | such an overrun is reachable for every file, block and pair of contents |
| CacheHazards.ReplacementWindowShowsOldBlock | rust_fuse/src/fs.rs:11014-11015 | a read that begins between invalidation and forgetting can return the old block after the replacement |
| CacheHazards.WindowsCanOpen | rust_fuse/src/fs.rs:11014-11015 | such a window is reachable for every file and block with contents |
| CacheHazards.UncheckedRepliesCanBeTorn | rust_fuse/src/fs.rs:8361-8384 | a reply from cache hits with a whole flush between its probes can be the content of no commit at all, with no writer left and nothing stale |
| CacheHazards.InvalidationAloneIsHarmless | rust_fuse/src/write_buffer.rs:208-210 | the invalidation of a buffered write makes the stamp old and leaves the reply the committed content |
| CacheProgress.PublicationFills | rust_fuse/src/read_cache.rs:620-631 | a publication with a nonzero limit puts exactly the fetched blocks over the cached ones, as far as they are kept |
| CacheProgress.MissFillsCache | rust_fuse/src/read_cache.rs:906-962 | a read that misses, run alone from any reachable state with a free gate, holds the committed blocks and leaves them all in the cache |
| CacheProgress.RetrySucceeds | rust_fuse/src/read_cache.rs:906-962 | a read overtaken by an invalidation starts again and, run alone, succeeds with the committed blocks |
| CacheProgress.BlocksCanBeCached | rust_fuse/src/read_cache.rs:620-631 | every block of every content can be cached |
| CacheProgress.HitTakesCached | rust_fuse/src/fs.rs:8346-8384 | a read that hits takes the cached block and may reply at once |
| CacheProgress.CommitTakesEffect | rust_fuse/src/write_buffer.rs:403-411 | a commit leaves exactly its rows and is then the one unsettled writer more |
| CacheProgress.FlushTakesEffect | rust_fuse/src/write_buffer.rs:403-432 | a flush run alone leaves its rows in the store, its blocks in the recent map, which loses others only past the end of a cut file, and no block of the file cached |
| CacheProgress.ReplacementTakesEffect | rust_fuse/src/fs.rs:11014-11015 | a replacement run alone leaves the new content, and neither cache has a block of the file |
| CacheProgress.SwitchTakesEffect | rust_fuse/src/fs.rs:1137-1186 | switching the caches off empties both and makes every stamp old; switching on sets the limit |
| CacheProgress.EvictionTakesEffect | rust_fuse/src/read_cache.rs:685-693 | eviction drops exactly the recent blocks that are not kept |
| CacheStaleness.CacheSource | rust_fuse/src/read_cache.rs:620-631 | a cached block was cached before without an invalidation since, or was fetched by a reader whose stamp is current |
| CacheStaleness.RecentSource | rust_fuse/src/read_cache.rs:651-698 | a recent block was there before, or a flush that carries it stored it |
| CacheStaleness.EveryMomentIsBounded | rust_fuse/src/read_cache.rs:36-100 | the bounds on cached, recent, fetched, carried and taken blocks hold at every moment of every run |
| CacheStaleness.CachedSinceInvalidation | rust_fuse/src/read_cache.rs:56-100 | a cached block was committed at some moment since the last invalidation of its file, pending writers or not |
| CacheStaleness.RecentSinceSettled | rust_fuse/src/read_cache.rs:651-698 | a recent block that is not stale was committed at some moment since no writer of it was about to update the map |
| CacheStaleness.NothingIsInvented | rust_fuse/src/read_cache.rs:535-618 | every block a reader holds was committed at some moment of the run, the named exceptions included |
| CacheStaleness.OneContentIffPairs | rust_fuse/src/fs.rs:8361-8384 | a reply is the content of some commit exactly if every two of its blocks are, as long as no bytes come back |
| CacheStaleness.PairsAreNotEnough | rust_fuse/src/fs.rs:8361-8384 | three blocks of which every two were committed together and never all three, once bytes come back |
| CacheStaleness.LastProbeIsSnapshotIff | rust_fuse/src/fs.rs:8361-8384 | a reply from cache hits is the content at its last probe if no commit changed a block after its probe, and only then if no bytes come back |
| FillCoordinator.OverlapIsSharedBlock | rust_fuse/src/read_cache.rs:147-153 | two claims overlap exactly when they share a block |
| FillCoordinator.FirstOverlap | rust_fuse/src/read_cache.rs:195-205 | a waiter joins a live flight that overlaps; none is found only if none does |
| FillCoordinator.StepKeepsInv | rust_fuse/src/read_cache.rs:185-279 | acquire, wait, wake, finish in its three parts and drop all keep the invariant |
| FillCoordinator.StepKeepsFullInv | rust_fuse/src/read_cache.rs:185-279 | beyond that every step keeps: an owner's flight covers exactly the blocks it is missing, a waiter's flight some of them |
| FillCoordinator.ClaimsAreDisjoint | rust_fuse/src/read_cache.rs:185-215 | no block is claimed by two live flights of a file (which blocks a flight claims: AcquireDecides) |
| FillCoordinator.AcquireDecides | rust_fuse/src/read_cache.rs:185-215 | a reader joins exactly if a block it is missing is already being fetched, and then a flight that fetches one; otherwise it owns a live flight for exactly its missing blocks |
| FillCoordinator.MissingBlocksAreFetchedOnce | rust_fuse/src/read_cache.rs:185-215 | in every reachable state no block is missing for two fetching readers of a file |
| FillCoordinator.ReadersShareAFetch | rust_fuse/src/read_cache.rs:185-269 | for every block: two readers that miss it reach a state in which one fetches and the other sleeps on that fetch |
| FillCoordinator.SpuriousWakeIsHarmless | rust_fuse/src/read_cache.rs:256-269 | a sleeper that wakes for no reason goes back to sleep and nothing has changed |
| FillCoordinator.LiveFlightsHaveOneOwner | rust_fuse/src/read_cache.rs:217-243 | each live flight has exactly one owner and no file keeps an empty list |
| FillCoordinator.SleepersAreWoken | rust_fuse/src/read_cache.rs:251-279 | nobody sleeps on a flight whose owner has notified; the owner's next steps wake the sleeper for good, and it can leave |
| LockTable.LockConflict | rust_fuse/src/fs.rs:3293-3317 | the first record in table order of another owner that overlaps in a conflicting mode (a writer, or for a write request also a reader), or none exactly when there is none |
| LockTable.ConflictsOnTidy | rust_fuse/src/fs.rs:3293-3323 | on a tidy table a request that is not inverted conflicts exactly when some byte of it is held incompatibly by another owner |
| LockTable.ByteConflictsMeaning | rust_fuse/src/fs.rs:3283-3323 | the overlap test says that some requested byte is held in a conflicting mode |
| LockTable.SharersAllRead | rust_fuse/src/fs.rs:3283-3291 | in a table without conflicts owners that share a byte, each reading or writing, all read |
| LockTable.ConflictModes | rust_fuse/src/fs.rs:3283-3291 | a read request conflicts exactly with writers of its bytes, a write request with readers and writers, an unlock with nobody |
| LockTable.ConflictCheckIsExactIff | rust_fuse/src/fs.rs:3319-3323 | the check is exact on all well-formed tables if and only if start is at most end |
| LockTable.UpdateOwnerLockRange | rust_fuse/src/fs.rs:3325-3360 | the new list is the pieces left outside the range and the replacement, without under- or overflow |
| LockTable.UpdateMeaning | rust_fuse/src/fs.rs:3325-3360 | exactly the owner's bytes in the range change, for every table and range |
| LockTable.ClearedIsDisjoint | rust_fuse/src/fs.rs:3325-3360 | an owner's records stay disjoint |
| LockTable.UpdateKeepsOk | rust_fuse/src/fs.rs:3325-3360 | every unlock, and every grant the check lets through, keeps the table free of conflicting modes, inverted requests and other lock types included |
| LockTable.UpdateKeepsTidy | rust_fuse/src/fs.rs:3325-3360 | requests that are not inverted keep the records nonempty and an owner's records disjoint |
| LockTable.StaysTidyIff | rust_fuse/src/fs.rs:3325-3360 | exactly when a tidy table stays tidy, for every request |
| LockTable.SetRange | rust_fuse/src/fs.rs:3532-3546 | a request without conflict sets exactly its range and leaves other owners' records, whatever its bounds and type |
| LockBackend.InsertRows | rust_hotpath/src/pg.rs:10485-10539 | the payload's lines become rows exactly if each has the owner and fits its columns |
| LockBackend.WriteRows | rust_hotpath/src/pg.rs:10485-10539 | printed rows of the owner are stored as they are or not at all |
| LockBackend.ReadRows | rust_hotpath/src/pg.rs:10453-10476 | stored rows are read as they are exactly if the parser accepts every one |
| LockBackend.OwnerRowsStorable | rust_fuse/src/fs.rs:3537-3553 | when the owner's new rows fit their columns, from the stored rows and the request alone |
| LockBackend.OwnerRowsReadable | rust_fuse/src/fs.rs:3537-3569 | when the stored rows can be read back |
| LockBackend.UpdateLeaseRows | rust_fuse/src/fs.rs:3531-3554 | the transaction through the text form: refused, aborted or replacing exactly the owner's bytes in the range, as the outcome function says |
| LockBackend.OrdinaryOutcome | rust_fuse/src/fs.rs:3513-3572 | a request as the kernel sends it is refused exactly when another owner writes, or for a write request holds, a byte of it; rejected exactly at the largest offset with an open-ended record; and otherwise committed |
| LockBackend.BlockedMeansConflict | rust_fuse/src/fs.rs:3293-3317 | on a tidy table a request that is not inverted is refused exactly when another owner writes, or for a write request holds, a byte of it |
| LockTable.RowsOfOwnerReplaced | rust_fuse/src/fs.rs:3547-3553 | other owners' stored rows and the new rows together are the updated table |
| LockBackend.PosixLocks.Load | rust_fuse/src/fs.rs:3438-3472 | the records of the deciding table, or an error exactly if stored rows do not parse |
| LockBackend.PosixLocks.GetLk | rust_fuse/src/fs.rs:7696-7745 | reports a conflicting record exactly when there is one, for every request; byte-exact on tidy tables |
| LockBackend.PosixLocks.UpdatePgLockRange | rust_fuse/src/fs.rs:3513-3572 | committed, refused, rejected or wedged exactly by stored rows and request; exactly the range changes, or nothing |
| LockBackend.PosixLocks.SetLk | rust_fuse/src/fs.rs:7747-7930 | granted, refused, read-only or failed exactly by table and request, refused exactly when blocked by a writer or, for a write request, by anyone; a refusal changes nothing, a failure only when the new rows cannot be read back |
| LockBackend.InvertedRequestWedges | rust_fuse/src/fs.rs:3566-3570 | after an inverted lock request through the database that request and every later one for the file fail, before and after the owner's clear |
| LockBackend.PosixLocks.RetainOthers | rust_fuse/src/fs.rs:3596-3608 | one resource loses exactly the owner's records, tidy records stay tidy, and a list without the owner stays as it is |
| LockBackend.PosixLocks.ClearLocksForOwner | rust_fuse/src/fs.rs:3592-3615 | exactly the owner's locks are gone from the process table, tidy records stay tidy, and the touched resources are reported |
| LockBackend.PosixLocks.SyncOne | rust_fuse/src/fs.rs:5974-5976 | the owner's rows of one resource go exactly if the rows parse |
| LockBackend.PosixLocks.ClearLocksForOwnerAndSync | rust_fuse/src/fs.rs:5939-5992 | in the database the owner's rows go exactly where the mirror had the owner and the rows parse; other owners stay, tidy records stay tidy |
| LockBackend.SyncedMeansCleared | rust_fuse/src/fs.rs:5971-5976 | with an up-to-date mirror the owner holds nothing any more wherever the rows parse |
| LockBackend.PosixLocks.Perform | rust_fuse/src/fs.rs:7696-7930 | one request, query or owner clear in terms of the deciding table alone |
| LockBackend.PosixLocks.Run | rust_fuse/src/fs.rs:3513-3615 | over every sequence of callbacks no byte is held in conflicting modes, and without inverted requests records stay nonempty and disjoint |
| LockBackend.RunFromStart | rust_fuse/src/fs.rs:3513-3615 | the same from a new mount on |
| LockBlob.RecordRoundTrip | rust_fuse/src/fs.rs:3382-3436 | every printed record has its own fields back, and parses exactly if it is accepted |
| LockBlob.FiveFieldLine | rust_fuse/src/fs.rs:3402-3436 | a line of decimal owner, type, start, end or nothing, and pid stands for that record, exactly if it is accepted |
| LockBlob.FourFieldLine | rust_fuse/src/fs.rs:3402-3436 | an old line without pid stands for the record with pid 0 |
| LockBlob.WrongFieldCount | rust_fuse/src/fs.rs:3405-3419 | a line of fewer than four or more than five fields is refused |
| LockBlob.OldRowExample | rust_fuse/src/fs.rs:11993-11995 | the old row of the repository's own test |
| LockBlob.LinesWithReturns | rust_fuse/src/fs.rs:3404-3405 | carriage returns before newlines do not belong to the lines |
| LockBlob.LockRecordsFromBlob | rust_fuse/src/fs.rs:3402-3436 | all lines are read or none; whatever is read is well formed |
| LockBlob.BlobRoundTrip | rust_fuse/src/fs.rs:3382-3436 | a list survives printing and parsing exactly if every record of it is accepted, open-ended ranges and the empty list included |
| LockBlob.ReprintedBlobReadsTheSame | rust_fuse/src/fs.rs:3382-3436 | a blob that was read prints to one that reads the same |
| LockBlob.UpdateIsAcceptedIff | rust_fuse/src/fs.rs:3345-3353 | for every range: clearing leaves accepted records unless an open-ended record of the owner is cut past the largest offset |
| HandleTable.ExclusiveMeaning | rust_fuse/src/write_buffer.rs:699-708 | at most one handle of a file has buffered changes, and none on a file open twice |
| HandleTable.MergedInMeaning | rust_fuse/src/write_buffer.rs:800-830 | after merging in some order each block is that of the last sibling that has it, unless a later one truncates below it; size, pending truncate, file and fence likewise |
| HandleTable.HandleTable.AttachFence | rust_fuse/src/fs.rs:4977-5003 | a fence is for the state's own file or the attach is refused; one already there stays |
| HandleTable.HandleTable.Flush | rust_fuse/src/write_buffer.rs:490-501 | one persist call at most, with the state's fence |
| HandleTable.HandleTable.FlushPendingExcept | rust_fuse/src/write_buffer.rs:731-769 | succeeds exactly if every pending state elsewhere flushes, and then nothing is buffered there; a pending state leaves the table only by a successful, fenced persist |
| HandleTable.HandleTable.FlushHandle | rust_fuse/src/fs.rs:5922-5937 | fenced flush of the handle's own changes, which succeeds exactly if the flush does or there is nothing to flush |
| HandleTable.HandleTable.OpenForReading | rust_fuse/src/fs.rs:7613-7655 | opens exactly if what others have buffered is flushed; a new handle meets no buffered change of others, and what left the table was persisted; a failed open leaves no handle |
| HandleTable.HandleTable.OpenForWriting | rust_fuse/src/fs.rs:7593-7690 | the same with the handle added first; `O_TRUNC` persists an empty file under the handle's own fence, and the open succeeds exactly if that does too |
| HandleTable.HandleTable.Create | rust_fuse/src/fs.rs:10000-10100 | exactly when it succeeds and what it persists: an empty file under the new handle's own fence if it truncates, nothing otherwise; keeps one writer exactly when the file found has no buffered changes, as a new file never has |
| HandleTable.HandleTable.Release | rust_fuse/src/fs.rs:8505-8560 | handle and state go together; after a fenced flush, or with the pending changes lost exactly when that fails |
| HandleTable.HandleTable.Truncate | rust_fuse/src/fs.rs:8696-8734 | exactly when it succeeds, what it persists under which fence, and that a refusal or failure leaves the table unchanged |
| HandleTable.HandleTable.TruncatePath | rust_fuse/src/fs.rs:8745-8803 | succeeds exactly under a fence for the file; fenced through a handle of its own that does not outlive the call |
| HandleTable.HandleTable.MergeAll | rust_fuse/src/write_buffer.rs:800-830 | every sibling is merged once, in some order; without pending truncates the result has every block of target and siblings, a sibling's winning |
| HandleTable.EffectKeepsExclusive | rust_fuse/src/fs.rs:10456-10531 | a write keeps one writer exactly unless it failed to flush a file open elsewhere too |
| HandleTable.HandleTable.Settle | rust_fuse/src/fs.rs:10443-10531 | over the threshold or on a shared file the state is persisted and gone, otherwise it stays; a failure puts everything back |
| HandleTable.HandleTable.TakeStates | rust_fuse/src/write_buffer.rs:771-798 | while one writer at most has changes, a write finds no sibling to merge |
| HandleTable.HandleTable.Write | rust_fuse/src/fs.rs:10309-10531 | every pending state stays fenced; while one writer at most has changes the reply and the persist calls are exactly those the fence and the failures call for, and only the handle's own state changes; one writer is kept exactly unless the flush of a shared file failed |
| HandleTable.AcceptedWrite | rust_fuse/src/fs.rs:10443-10531 | an accepted write leaves nothing buffered at the threshold or on a shared file, and otherwise its bytes, blocks and size on top of what was buffered |
| HandleTable.HandleTable.PublishOthers | rust_fuse/src/fs.rs:8202-8211 | other handles' changes are published before a read, which goes on exactly if that succeeds |
| HandleTable.HandleTable.CopyRange | rust_fuse/src/fs.rs:11107-11272 | exactly when it succeeds; buffered and copied blocks are sent together with the larger size, fenced and at once, or nothing is sent when the bytes are the same; leaves a state without changes, or the table unchanged |
| HandleTable.HandleTable.Adopt | rust_fuse/src/fs.rs:4943-4975 | adoption passes the handle's own fence; adopted, declined and failed are told apart, and only the first changes the state |
| HandleTable.HandleTable.PunchHole | rust_fuse/src/fs.rs:10728-10797 | every buffered change of the file is published first, then one persist call under the handle's own fence; succeeds exactly if both do |

## Left out

- FileRuns.Run: covers one handle of a file; what several handles buffer at once is in HandleTable, without contents.
- FileRuns.Read: runs alone, so what the block cache holds is some of the committed rows; reads beside writers are in CacheCoherence. The read of a degraded mount's snapshot is not modelled.
- FileOps.CopyInto: requires that destination offset plus length fits a `u64`, which the kernel checks.
- FileOps.Write: the file's row is taken to exist; a missing or deleted file is not modelled.
- CacheCoherence.CachesAgreeWithStore: epochs are unbounded, so saturation after 2^64 invalidations is not modelled; remote generations appear only in tests of the original and are left out.
- CacheCoherence.ReadsReturnCommittedBlocks: safety only; retry loops can be forced to run on by invalidations.
- ReadPath.ReadBlockMap: one attempt; the stamp check, the publication and the retry around it are in CacheCoherence, the waiting for another fill in FillCoordinator.
- ReadPath.FetchBlockRangeParallel: how many workers fetch does not show in the result and is not stated.
- LockBackend.PosixLocks.SetLk: blocking requests, wait edges, deadlock detection and lease expiry are not modelled.
- LockBackend.PosixLocks.Run: lease rows change only through this mount; other mounts and lease expiry are not modelled, and a poisoned lock map is not.
- LockBackend.PosixLocks.UpdatePgLockRange: an owner belongs to one session; the order in which rows come back from the database is not modelled, and no result depends on it.
- LockBlob.LockRecordsFromBlob: the blob is a character string; invalid UTF-8, an error in the original, is not modelled.
- HandleTable.HandleTable.MergeAll: the order comes from a hash map in the original and is left open here.
- HandleTable.HandleTable.Write: overlay contents are whatever the buffer update leaves; the fence itself is not shown to be still valid in the database, which checks it.
- PostgreSQL: transactions, leases, sessions and SQL; only the effect of a persist on sizes and rows is modelled.
- Setuid clearing, write authorization, capacity reservations, the CRC table of copies, statfs, journal and access times.
- `rust_hotpath/src/lib.rs` window helpers that the read callback does not use, CRC code, `logical_resize_plan`, `rust_fuse/src/write_payload.rs` copy-on-write sharing (states are cloned by value here).
- FUSE reply plumbing, permissions, ACLs, extended attributes, namespace operations, profiling, logging, start-up and platform probing.
