# oxcdf: a verified model of its read path

oxcdf reads netCDF-4/HDF5 and netCDF classic files. Between a caller's rectangular selection and the bytes of
the file lies a chain of index arithmetic and byte plumbing in which every fast form has to agree with a simple
one: merged runs with an element-by-element copy, a skipped fill pass with a performed one, a read through page
caches, coalesced requests and replayed walks with a direct read of the file, a decoder with the writer it undoes.
This project models that chain in Dafny and proves those agreements for all inputs.

The specification everything meets is a single function from a selected multi-index to one stored element,
built on row-major positions (`RowMajor.Ravel`, `RowMajor.Unravel`) that are proved to be inverse bijections.

- **The hyperslab engine** (`Hyperslab`, `DenseRead`, `ChunkCover`, `ChunkCopy`, `ChunkedRead`, `FillValue`,
  `ReadEngine`). `ReadEngine.ReadHyperslab` covers compact, contiguous and chunked layouts, both engines, with and
  without a page cache and a chunk cache from which any entry may vanish at any step. Each successful read delivers the
  stored element, or the fill value where nothing is stored, although the fill pass is skipped whenever
  `ChunkCovers.ChunksCover` finds the selection covered; that decision is proved exact, and so is the condition under
  which a read succeeds.
- **The fetch layer** (`Coalesce`, `Pages`, `PageCache`, `Replay`). Three mechanisms, each equal to a direct read.
  A replayed walk is an arbitrary deterministic program: its next read is any function of all earlier replies, it
  may swallow errors, and it may issue batches. Whatever value `Replays.Replay` returns is the value of the direct run,
  and `Replays.OutcomeIsDirect` says exactly when it returns anything else than the direct answer.
- **Chunk indexes and trees** (`ChunkGrid`, `BTreeV1`, `BTreeV2`). Mixed-radix enumeration that partitions the
  dataset, a walk of an arbitrary, possibly cyclic node graph, and an in-order walk of whatever tree a file's bytes
  spell out, with field widths derived level by level.
- **Filters and checksum** (`Shuffle`, `BloscLz`, `Fletcher32`, `Pipeline`). Transposes and their inverses, a
  decoder that accepts exactly the encodings of token lists, a checksum whose 32-bit sums lose nothing, and a
  pipeline that undoes its writer.
- **Classic record variables** (`Classic`). The record stride, the absence of overlap between interleaved records,
  and strided reads with byte reversal.

`Arith` states multiplication and division as recursive functions tied to the built-in operators by `MulIs` and
`QuotRemIs`; this keeps the arithmetic of unknown dimensions linear in every other proof. Both caches take their
evictions as a parameter, a set of keys to drop at each tick of a clock (`Basics.Evictions`), so that every statement
about them holds for every such schedule. `dafny verify dfyconfig.toml` checks the whole project.

## What the proofs brought out

- The replay source and the page cache answer an empty read beyond the end of the file with success, where a file
  refuses it. `Replays.LenientIsStrict` gives the exact condition for one read, `Replays.TidyRun` the exact condition
  for a walk to hear the same from both, and `Replays.UntidyWalkDiffers` exhibits a walk that can tell.
- Replay never returns a wrong value, but it can return an error the file does not deserve. A walk that swallows a
  missing page and then fails for a reason of its own stops the driver at once: `Replays.SwallowedErrorIsNotDirect`
  gives a walk over a file of two pages that succeeds over the file and fails in the driver. `Replays.OutcomeIsDirect`
  gives the exact condition. The round limit is the other cause; a file of at most 64 pages never meets it
  (`Replays.RoundsSuffice`) and one of 65 pages can (`Replays.RoundsRunOut`).
- `IoConfig::NONE` is documented to merge nothing. It merges ranges that touch, overlap or are empty
  (`Coalesce.NoneMerges`). `Coalesce.NoneMergesTouching` counts its requests for every list of ranges and says exactly
  when there are as many as ranges.
- A request above `max_request_size` is one original range, but it may carry empty ranges beside it
  (`Coalesce.OversizeWithEmpty`). `Coalesce.OversizeAlone` says for which ranges that happens: exactly when an empty one
  comes right after one above the limit in order of offset.
- The asynchronous chunked read can fail where the synchronous one succeeds: a chunk that was cached when the batch
  was planned and evicted before it is copied is reported as neither cached nor fetched
  (`crates/oxcdf-hdf5/src/read.rs`, lines 1131 and 1177). `ChunkedReads.EvictionFailsAsync` reaches this, and
  `ChunkedReads.EnginesDiffer` says exactly for which cache contents and evictions it happens. What the cache holds at the
  start and what it drops determine the batch and the tick of every copy, so `ChunkedReads.ReadChunkedAsync` succeeds if
  and only if a condition on the inputs holds.
- Read-ahead can fail a read that would succeed without a cache: a record outside the file, beyond the selection, is
  fetched in the same batch (`ChunkedReads.ReadAheadFailsSync`). `ChunkedReads.ReadChunked` gives the exact condition.
- The widths of a version 2 B-tree are derived from a bound on a node's records that leaves room for one record count
  where a node has one more child pointer than records (`crates/oxcdf-hdf5/src/btree2.rs`, lines 145 and 224). It is
  an upper bound, and at most one too high, but not a capacity (`BTreeV2.CapacityBound`, `BTreeV2.BoundOverfills`). The
  widths can therefore exceed those of nodes that fit their size by a byte (`BTreeV2.WidthsDiffer`);
  `BTreeV2.WidthsAgree` says exactly when they do not. A tree written with the narrower pointers is read back where they
  agree (`BTreeV2.StoredFitIsStored`) and can be unreadable where they do not (`BTreeV2.ChainIsNotRead`).

## Model

| member | source | states |
|---|---|---|
| `Hyperslabs.Validate` | crates/oxcdf-hdf5/src/read.rs:75-101 | accepts a selection if and only if its rank matches and every axis stays inside the shape; refuses with a bad request |
| `Hyperslabs.ElementCount` | crates/oxcdf-hdf5/src/read.rs:115-122 | the saturating product loop equals the true product capped once at the 64-bit maximum |
| `Hyperslabs.Strides` | crates/oxcdf-hdf5/src/read.rs:731-737 | every stride is the product of the later dimensions |
| `Hyperslabs.LinearOffset` | crates/oxcdf-hdf5/src/read.rs:783-790 | the strided sum over leading axes is their row-major number times the inner block size |
| `Hyperslabs.Advance` | crates/oxcdf-hdf5/src/read.rs:792-799 | the odometer moves to the next row-major position and wraps to zero after the last |
| `Hyperslabs.CoordPosition` | crates/oxcdf-hdf5/src/read.rs:783-790 | output elements and selected coordinates correspond one to one |
| `Hyperslabs.ForEachRun` | crates/oxcdf-hdf5/src/read.rs:750-802 | runs tile the destination in order exactly once, source and destination of every element are row-major positions of one multi-index, and neighbouring runs could not have been merged |
| `Hyperslabs.RunFollows` | crates/oxcdf-hdf5/src/read.rs:763-789 | for any number of merged full trailing axes, position within a run is position in the dataset |
| `DenseReads.CopyFromDense` | crates/oxcdf-hdf5/src/read.rs:805-824 | succeeds if and only if the image holds every selected element, and then copies exactly those |
| `DenseReads.ReadContiguous` | crates/oxcdf-hdf5/src/read.rs:827-842 | succeeds if and only if every selected element can be fetched, through the page cache when there is one, and then delivers exactly those |
| `DenseReads.ReadContiguousAsync` | crates/oxcdf-hdf5/src/read.rs:1058-1089 | the batched form succeeds under the same condition and delivers the same elements, elements of no width included |
| `DenseReads.AllRunsRead` | crates/oxcdf-hdf5/src/read.rs:827-842 | all runs can be read exactly when every selected element can |
| `DenseReads.RunOverruns` | crates/oxcdf-hdf5/src/read.rs:814-820 | a run that does not fit contains a selected element that does not fit |
| `FillValues.Fill` | crates/oxcdf-hdf5/src/message/fillvalue.rs:32-60 | for every buffer length byte `i` is byte `i mod width` of a fill value of that width, and every byte is zero when the fill value is undefined or of another width |
| `FillValues.Double` | crates/oxcdf-hdf5/src/message/fillvalue.rs:53-59 | one doubling keeps the tiling, whole elements or not |
| `FillValues.FilledElement` | crates/oxcdf-hdf5/src/message/fillvalue.rs:32-60 | a filled buffer holds the fill element at every element position |
| `FillValues.FillElementByte` | crates/oxcdf-hdf5/src/message/fillvalue.rs:32-60 | byte `k` of a filled element is byte `k` of the fill value, or zero |
| `ChunkCovers.ChunksCover` | crates/oxcdf-hdf5/src/read.rs:313-375 | true if and only if every selected coordinate is held by a written record on the grid; duplicated, off-grid, wrong-rank and unwritten records included |
| `ChunkCovers.ServesMeans` | crates/oxcdf-hdf5/src/read.rs:346-372 | a record counts exactly when it has stored bytes, sits at a multiple of the chunk width on every axis and spans the coordinate |
| `ChunkCovers.CoveredIsFull` | crates/oxcdf-hdf5/src/read.rs:323-374 | a selection is covered exactly when every cell of its block holds a record |
| `ChunkCovers.TooManyCells` | crates/oxcdf-hdf5/src/read.rs:326-341 | pigeonhole: more cells than records on any leading axes means not covered |
| `ChunkCovers.CellIsTouched` | crates/oxcdf-hdf5/src/read.rs:323-341 | every cell of the block holds some selected coordinate, so none is counted in vain |
| `ChunkCovers.ServesIsCell` | crates/oxcdf-hdf5/src/read.rs:346-372 | a record serves a coordinate exactly when it sits in that coordinate's cell |
| `ChunkCovers.CellNumber` | crates/oxcdf-hdf5/src/read.rs:346-365 | the early-exit Horner loop finds the record's row-major cell, or that it has none |
| `ChunkCovers.ZeroWidthUncovered` | crates/oxcdf-hdf5/src/read.rs:328-331 | a zero chunk width covers no non-empty selection |
| `ChunkCopies.IntersectsIsShared` | crates/oxcdf-hdf5/src/read.rs:384-397 | a chunk intersects a selection exactly when some coordinate lies in both, saturation at the end of the address space included |
| `ChunkCopies.Overlap` | crates/oxcdf-hdf5/src/read.rs:1268-1280 | the clipped box holds exactly the coordinates in both chunk and selection |
| `ChunkCopies.RowStart` | crates/oxcdf-hdf5/src/read.rs:1283-1296 | the strided sums give the row's first element in chunk and output |
| `ChunkCopies.RowCopied` | crates/oxcdf-hdf5/src/read.rs:1283-1304 | one row copy writes exactly the elements whose coordinates lie on that row |
| `ChunkCopies.CopyChunk` | crates/oxcdf-hdf5/src/read.rs:1257-1305 | every selected element the chunk holds becomes the chunk's, every other output byte stays, every index stays in range |
| `ChunkCopies.ChunkElementByte` | crates/oxcdf-hdf5/src/read.rs:1283-1304 | byte `k` of a chunk's element lies at the coordinate's row-major position in the chunk |
| `ChunkedReads.ChunkCache.Get` | crates/oxcdf-hdf5/src/cache.rs:83-85 | a hit is an entry the cache still holds after dropping what its schedule says |
| `ChunkedReads.ChunkCache.Insert` | crates/oxcdf-hdf5/src/cache.rs:78-80 | the given entry is added and the schedule drops what it says |
| `ChunkedReads.ChunkCache.GetOrDecode` | crates/oxcdf-hdf5/src/cache.rs:101-113 | hit or miss, the answer is the uncached decode, errors included, and the cache stays coherent |
| `ChunkedReads.Needed` | crates/oxcdf-hdf5/src/read.rs:872-883 | lists exactly the intersecting records in order; the synchronous engine refuses a record of the wrong rank |
| `ChunkedReads.Wanted` | crates/oxcdf-hdf5/src/read.rs:424-436 | returns exactly the candidates that have bytes and that the cache, at the tick it is asked about each, does not hold |
| `ChunkedReads.BatchIs` | crates/oxcdf-hdf5/src/read.rs:424-436 | what is fetched is a candidate with bytes that is gone from the cache by the end of the planning; what is not fetched has no bytes or was held |
| `ChunkedReads.Prefetch` | crates/oxcdf-hdf5/src/read.rs:410-454 | fetches exactly the batch that the cache it begins with determines, and fails if and only if a chunk of it lies outside the file; every fetched chunk that decodes is cached afterwards or was dropped, and the cache stays coherent |
| `ChunkedReads.CandidateIsReached` | crates/oxcdf-hdf5/src/read.rs:424-426 | what a batch looks at is exactly the touched records and the read-ahead window |
| `ChunkedReads.BatchInFile` | crates/oxcdf-hdf5/src/read.rs:410-454 | a batch lies in the file if every touched chunk is readable and the read-ahead window lies in it; from a cache that holds nothing, only then |
| `ChunkedReads.DecodedChunkLen` | crates/oxcdf-hdf5/src/read.rs:130-139 | the exact chunk length, or an error when it exceeds the address space; where the element count saturates, the length it saturates to |
| `ChunkedReads.PaintOne` | crates/oxcdf-hdf5/src/read.rs:887-966 | copying record `n` turns the answer over the first `n` records into the answer over `n + 1` |
| `ChunkedReads.PaintSkipped` | crates/oxcdf-hdf5/src/read.rs:872-883 | records left out of the copy could not have changed the answer |
| `ChunkedReads.ReadChunked` | crates/oxcdf-hdf5/src/read.rs:849-969 | each output element comes from the last record holding its coordinate, else is unchanged; success is equivalent to every touched chunk being readable, every record ranked and, with a chunk cache, every chunk of the batch inside the file; both caches stay coherent |
| `ChunkedReads.SyncUncached` | crates/oxcdf-hdf5/src/read.rs:849-969 | without a cache nothing but the touched chunks matters |
| `ChunkedReads.ReadAheadFailsSync` | crates/oxcdf-hdf5/src/read.rs:410-454 | a record outside the file that the selection does not touch fails the read through a cache that reads ahead, and not without one |
| `ChunkedReads.ReadChunkedAsync` | crates/oxcdf-hdf5/src/read.rs:1091-1205 | the same answer through one batched fetch; for any cache and any evictions success is equivalent to a batch that can be fetched and decoded, every touched chunk readable, and each of them fetched or still cached at the tick of its copy |
| `ChunkedReads.FetchAndDecode` | crates/oxcdf-hdf5/src/read.rs:1138-1168 | every entry of the batch is its chunk's decode; it succeeds if and only if the batch lies in the file and every chunk of it at an address the read needs decodes; the chunk cache keeps what it had, and has every chunk that decoded, unless it dropped it |
| `ChunkedReads.FatalIsTouched` | crates/oxcdf-hdf5/src/read.rs:1155-1164 | a decode failure is fatal exactly when some record at its address holds a selected coordinate |
| `ChunkedReads.CopyFetched` | crates/oxcdf-hdf5/src/read.rs:1170-1203 | copies every touched chunk; succeeds if and only if each is readable and in the batch, or still in the cache when its turn comes |
| `ChunkedReads.HadIsServed` | crates/oxcdf-hdf5/src/read.rs:1170-1203 | what the copy loop finds at hand is exactly what the cache and evictions at the start of the read decide |
| `ChunkedReads.AsyncUncached` | crates/oxcdf-hdf5/src/read.rs:1117-1185 | without a chunk cache success is equivalent to every touched chunk being readable and sharing its address with one that has bytes |
| `ChunkedReads.EvictionFails` | crates/oxcdf-hdf5/src/read.rs:1131-1185 | a touched chunk kept throughout the planning and dropped at any tick before its own copy fails the read |
| `ChunkedReads.EnginesDiffer` | crates/oxcdf-hdf5/src/read.rs:849-1220 | where the synchronous engine succeeds, the asynchronous one does if and only if every touched chunk is served; where each has bytes at its address, if and only if each is fetched or not dropped before its copy |
| `ChunkedReads.UnfetchedIsHeld` | crates/oxcdf-hdf5/src/read.rs:1125-1136 | a touched chunk that has bytes and is not fetched was in the cache |
| `ChunkedReads.EvictionFailsAsync` | crates/oxcdf-hdf5/src/read.rs:1131-1185 | with one eviction the asynchronous read of a sound dataset fails where the synchronous one succeeds |
| `ChunkedReads.EnginesAgree` | crates/oxcdf-hdf5/src/read.rs:849-1220 | two successful reads give the same bytes whatever engine, cache, read-ahead or eviction |
| `ChunkedReads.ValueOnGrid` | crates/oxcdf-hdf5/src/read.rs:849-969 | on distinct grid records a coordinate's element is that of the one chunk containing it |
| `ChunkedReads.ValueLast` | crates/oxcdf-hdf5/src/read.rs:849-969 | whatever the index, the last record that holds a coordinate gives its element |
| `ChunkedReads.ValueUnstored` | crates/oxcdf-hdf5/src/read.rs:849-969 | where no chunk holds a coordinate the prepared element stays |
| `ChunkedReads.GridOffsetUnique` | crates/oxcdf-hdf5/src/read.rs:354-363 | two grid chunks that hold one coordinate have the same offset |
| `ReadEngine.SelectionIsCovered` | crates/oxcdf-hdf5/src/read.rs:280-302 | says for each layout whether the stored data covers the selection; for chunks, whether written records on the grid do |
| `ReadEngine.PaintedDelivers` | crates/oxcdf-hdf5/src/read.rs:673-702 | painting a filled buffer, or any buffer when covered, gives the stored or fill element everywhere |
| `ReadEngine.SwapBytesInPlace` | crates/oxcdf-hdf5/src/read.rs:721-728 | byte `k` of every element afterwards is the byte as far from its other end before, and nothing else moves |
| `ReadEngine.CopyStored` | crates/oxcdf-hdf5/src/read.rs:678-702 | over a filled or covered buffer each layout and engine delivers the stored or fill element; success is characterised for each |
| `ReadEngine.CopyChunked` | crates/oxcdf-hdf5/src/read.rs:691-702 | the chunked case, for both engines |
| `ReadEngine.CompleteSucceeds` | crates/oxcdf-hdf5/src/read.rs:1117-1185 | with a chunk cache that keeps what the read touches, success depends on the file and the index alone |
| `ReadEngine.ReadHyperslab` | crates/oxcdf-hdf5/src/read.rs:639-718 | both engines, all layouts, with and without page and chunk caches: a success holds the stored or fill element at every selected multi-index with its bytes in order, or from its other end when the byte order asks for it; success is equivalent to a condition on the dataset, the file, the selection and, for chunks, what the chunk cache holds and drops; both caches stay coherent |
| `ReadEngine.StoredByte` | crates/oxcdf-hdf5/src/read.rs:639-718 | which byte that is: of the compact data or the file at the coordinate's row-major position, of the last chunk that holds the coordinate at its position there, of the fill value, or zero |
| `ReadEngine.DeliveredOnGrid` | crates/oxcdf-hdf5/src/read.rs:639-718 | on distinct grid records what is delivered is the element of the one chunk that contains the coordinate, and the fill value exactly where no chunk does |
| `Coalesce.SortByOffset` | crates/oxcdf-hdf5/src/io.rs:87-89 | a stable sort: every index once, by offset, ties by position |
| `Coalesce.TakeRange` | crates/oxcdf-hdf5/src/io.rs:93-131 | one more range keeps every property of the plan |
| `Coalesce.Plan` | crates/oxcdf-hdf5/src/io.rs:82-134 | for unsorted, overlapping and empty ranges and every config: each range is a part at its own place, requests are tight, merges stay within the gap and the size limit, and neighbours are apart only because a limit forced it |
| `Coalesce.EachRangeOnce` | crates/oxcdf-hdf5/src/io.rs:82-134 | every range is planned exactly once |
| `Coalesce.RequestInFile` | crates/oxcdf-hdf5/src/io.rs:82-134 | requests for ranges inside the file stay inside it |
| `Coalesce.PlanInFileIff` | crates/oxcdf-hdf5/src/io.rs:82-134 | all requests lie in the file exactly when every range with bytes does and some range starts there |
| `Coalesce.WasteIsBounded` | crates/oxcdf-hdf5/src/io.rs:22-27 | a request reads at most what its ranges asked for plus one tolerated gap per merge |
| `Coalesce.NoneMergesTouching` | crates/oxcdf-hdf5/src/io.rs:52-56 | for every list of ranges the policy documented to merge nothing makes one request for each group of ranges that touch, overlap or are empty; nothing is merged exactly when each range after the first, by offset, has bytes and a gap before it |
| `Coalesce.NoneMerges` | crates/oxcdf-hdf5/src/io.rs:52-56 | two ranges that touch, and a range with an empty one, share a request |
| `Coalesce.OneRequestPerGroup` | crates/oxcdf-hdf5/src/io.rs:82-134 | with no size limit the plan has one request for each group of ranges within the gap of each other |
| `Coalesce.OversizeAlone` | crates/oxcdf-hdf5/src/io.rs:96-127 | every request above the limit is a single original range if and only if, in order of offset, no empty range comes right after a range above the limit |
| `Coalesce.OversizeAt` | crates/oxcdf-hdf5/src/io.rs:91-130 | a request above the limit is the range it begins with, and is alone exactly when the next range by offset has bytes |
| `Coalesce.OversizeRange` | crates/oxcdf-hdf5/src/io.rs:91-130 | a range above the limit begins a request of its own length |
| `Coalesce.OversizeWithEmpty` | crates/oxcdf-hdf5/src/io.rs:96-127 | an input whose oversized request serves two |
| `Coalesce.Scatter` | crates/oxcdf-hdf5/src/io.rs:139-170 | succeeds if and only if every part fits its buffer, and hands each range the slice its part names |
| `Coalesce.ScatterPlan` | crates/oxcdf-hdf5/src/io.rs:139-170 | scattering honest answers to a plan gives each original range its own bytes |
| `Coalesce.ReadRanges` | crates/oxcdf-hdf5/src/read.rs:1243-1246 | fetching through the coalescer equals reading each range directly, and succeeds if and only if the batch is answerable |
| `Pages.RunPage` | crates/oxcdf-hdf5/src/cache.rs:447-465 | each slice of a fetched run is that page of the file, the short last page included |
| `Pages.AssembleStep` | crates/oxcdf-hdf5/src/cache.rs:495-508 | the piece taken from each page continues the range where the previous page stopped |
| `PageCaches.MissingRuns` | crates/oxcdf-hdf5/src/cache.rs:418-436 | the runs hold exactly the missing pages, in order, maximal |
| `PageCaches.RunsDisjoint` | crates/oxcdf-hdf5/src/cache.rs:418-436 | no page is in two runs, so each is fetched once |
| `PageCaches.IoCache.RunExtent` | crates/oxcdf-hdf5/src/cache.rs:439-444 | a run's byte extent, cut at the end of the file |
| `PageCaches.IoCache.Cached` | crates/oxcdf-hdf5/src/cache.rs:413-415 | finds exactly the pages that are held and not dropped by the time each is looked up, each the file's own |
| `PageCaches.IoCache.StoreRun` | crates/oxcdf-hdf5/src/cache.rs:447-465 | exactly the run's pages are added, each the file's own, and the cache stays coherent |
| `PageCaches.IoCache.Assemble` | crates/oxcdf-hdf5/src/cache.rs:468-517 | stitching pages gives exactly the file's bytes |
| `PageCaches.IoCache.Read` | crates/oxcdf-hdf5/src/cache.rs:344-362 | for every coherent cache and every eviction schedule the answer is the direct read's, errors included, except that an empty read always succeeds; exactly the pages not found are fetched, each once, in disjoint maximal runs; what was read is cached afterwards unless dropped |
| `PageCaches.FetchBytes` | crates/oxcdf-hdf5/src/read.rs:1229-1247 | a batch through the page cache or through the coalescer gives each range its own bytes, and succeeds if and only if it is answerable |
| `PageCaches.ReadAt` | crates/oxcdf-hdf5/src/context.rs:69-77 | one read gives the same bytes with a page cache as without, an empty read past the end aside |
| `Replays.ReplaySource.ReadExactAt` | crates/oxcdf-hdf5/src/replay.rs:109-158 | true file bytes, or every missing page recorded, or out of bounds |
| `Replays.ReplaySource.ReadRanges` | crates/oxcdf-hdf5/src/replay.rs:165-182 | a batch records the missing pages of every range before failing and reports a real error first |
| `Replays.ReplaySource.Stitch` | crates/oxcdf-hdf5/src/replay.rs:128-157 | copying across held pages gives the file's bytes |
| `Replays.ReadMeans` | crates/oxcdf-hdf5/src/replay.rs:109-158 | over pages a read misses exactly the pages it shares a byte with that are not held, and otherwise gives the bytes a file gives |
| `Replays.RangesMean` | crates/oxcdf-hdf5/src/replay.rs:165-182 | a batch stops at its first range outside the file; it misses what the ranges before that miss, and otherwise succeeds with each range's bytes |
| `Replays.CompleteRun` | crates/oxcdf-hdf5/src/replay.rs:220-231 | a walk that missed nothing behaved as over the whole file, even when it swallows errors |
| `Replays.WantedArePages` | crates/oxcdf-hdf5/src/replay.rs:109-182 | a walk asks only for pages of the file that it was not given |
| `Replays.RunWalk` | crates/oxcdf-hdf5/src/replay.rs:220-222 | running a walk over the source yields its value and exactly the pages it missed |
| `Replays.RunMeans` | crates/oxcdf-hdf5/src/replay.rs:220-222 | a run is the exchange of the walk's questions and the source's answers, ends with the walk's own result, and wanted what its questions missed |
| `Replays.LenientIsStrict` | crates/oxcdf-hdf5/src/replay.rs:109-113 | one read differs from a file's exactly when it is empty and starts beyond the end |
| `Replays.LenientRanges` | crates/oxcdf-hdf5/src/replay.rs:165-182 | a batch differs from a file's exactly when it has an empty range past the end and no range that fails |
| `Replays.TidyRun` | crates/oxcdf-hdf5/src/replay.rs:109-113 | a walk hears the same from both sources at every step if and only if no step of it is such a read or batch, and then returns the same |
| `Replays.UntidyWalkDiffers` | crates/oxcdf-hdf5/src/replay.rs:109-113 | a walk with such a read can tell the difference |
| `Replays.SwallowedErrorIsNotDirect` | crates/oxcdf-hdf5/src/replay.rs:224-240 | a walk over two pages, of which the window holds the first, makes the driver return an error where the file gives a value |
| `Replays.Fetch` | crates/oxcdf-hdf5/src/replay.rs:254-314 | afterwards exactly the wanted pages are held besides the old ones, all equal to the file; exactly those that are neither held nor in the shared cache when it is asked are read, consecutive ones as one run, and are put into it; the shared cache stays coherent |
| `Replays.RoomLeft` | crates/oxcdf-hdf5/src/replay.rs:209-249 | held and still missing pages together never exceed the pages of the file |
| `Replays.Replay` | crates/oxcdf-hdf5/src/replay.rs:193-249 | returns the outcome of its rounds, whatever the shared cache holds or drops; a returned value is the direct run's |
| `Replays.OutcomeIsDirect` | crates/oxcdf-hdf5/src/replay.rs:209-249 | the direct answer is returned if some round misses nothing before one breaks, else an error; another answer than the direct one is returned exactly when a round that is reached turns a missing page into another error, or the rounds run out |
| `Replays.OutcomeAt` | crates/oxcdf-hdf5/src/replay.rs:209-249 | the first round that settles or breaks decides |
| `Replays.HeldGrows` | crates/oxcdf-hdf5/src/replay.rs:209-249 | each unfinished round adds a page of the file |
| `Replays.RoundsSuffice` | crates/oxcdf-hdf5/src/replay.rs:209-249 | a file of at most 64 pages never runs out of rounds, so unless a round turns a missing page into another error the direct answer is returned |
| `Replays.RoundsRunOut` | crates/oxcdf-hdf5/src/replay.rs:209-249 | on a file of 65 pages a walk that succeeds over the file runs out of rounds |
| `Replays.WindowIs` | crates/oxcdf-hdf5/src/replay.rs:212-214 | the first window is every page of the file that is the first or begins inside the prefetched bytes |
| `ChunkGrids.ChunkOffset` | crates/oxcdf-hdf5/src/chunk_index.rs:190-199 | the digit loop gives the scaled row-major cell of every chunk number |
| `ChunkGrids.OffsetsIncrease` | crates/oxcdf-hdf5/src/chunk_index.rs:190-199 | chunk numbers enumerate offsets in strictly increasing lexicographic order |
| `ChunkGrids.ExactlyOneChunk` | crates/oxcdf-hdf5/src/chunk_index.rs:181-199 | each coordinate of the dataset lies in exactly one grid chunk |
| `ChunkGrids.ElementsAll` | crates/oxcdf-hdf5/src/chunk_index.rs:181-199 | element counts of the clipped chunks sum to the dataset's |
| `ChunkGrids.ReadImplicit` | crates/oxcdf-hdf5/src/chunk_index.rs:71-114 | one record per grid cell, of one chunk's bytes, each at the address plus that many bytes for every chunk before it, saturation included; refused exactly when there are more cells than file bytes |
| `ChunkGrids.ImplicitAbuts` | crates/oxcdf-hdf5/src/chunk_index.rs:105-114 | each chunk ends where the next begins |
| `ChunkGrids.ImplicitByte` | crates/oxcdf-hdf5/src/chunk_index.rs:105-114 | the byte of the file that each byte of the element at a coordinate is read from |
| `ChunkGrids.ImplicitSorted` | crates/oxcdf-hdf5/src/chunk_index.rs:105-146 | an implicit index is distinct, on the grid and already sorted |
| `ChunkGrids.ImplicitCovers` | crates/oxcdf-hdf5/src/chunk_index.rs:105-114 | an implicit index covers every selection |
| `ChunkGrids.ChunksOf` | crates/oxcdf-hdf5/src/read.rs:1593-1634 | keeps exactly the records that start inside the dataset, each clipped to it; a dataset that is not chunked is one chunk |
| `ChunkGrids.WholeIsAll` | crates/oxcdf-hdf5/src/read.rs:1593-1612 | that one chunk selects every coordinate of the dataset |
| `ChunkGrids.ImplicitSum` | crates/oxcdf-hdf5/src/read.rs:1593-1634 | the chunks of an implicit index hold the dataset's elements, each once |
| `ChunkGrids.ImplicitPartition` | crates/oxcdf-hdf5/src/read.rs:1593-1634 | each coordinate of the dataset lies in exactly one clipped chunk of an implicit index, and no other coordinate in any |
| `ChunkGrids.ClipHolds` | crates/oxcdf-hdf5/src/read.rs:1593-1634 | a clipped chunk holds what its record's chunk holds inside the dataset |
| `ChunkGrids.ClipOrder` | crates/oxcdf-hdf5/src/read.rs:1613-1634 | exactly the records that start inside the dataset are kept, in their order |
| `BTreeV1.ReadChunkIndex` | crates/oxcdf-hdf5/src/btree1.rs:52-94 | on any graph it terminates; success returns, for each reachable leaf and each number that has both a key and a child there, one record with that key's size, mask and offset and that child's address, sorted; failure means an unreadable reachable node or more than 2^20 nodes or records |
| `BTreeV1.WalkDone` | crates/oxcdf-hdf5/src/btree1.rs:52-94 | when the stack is empty the visited set is exactly what is reachable |
| `BTreeV1.ClosedHoldsReachable` | crates/oxcdf-hdf5/src/btree1.rs:58-90 | a set closed under child pointers holds every path from the root |
| `BTreeV1.SortByOffset` | crates/oxcdf-hdf5/src/btree1.rs:92-93 | sorted by offset, in an order that names every record once |
| `BTreeV1.OffsetOrder` | crates/oxcdf-hdf5/src/btree1.rs:92-93 | the first place where two offsets differ decides, and else their length |
| `BTreeV2.EncSizeExact` | crates/oxcdf-hdf5/src/btree2.rs:165-172 | the width holds the value and one byte fewer would not |
| `BTreeV2.Derive` | crates/oxcdf-hdf5/src/btree2.rs:132-161 | the level-by-level loop gives each depth its width |
| `BTreeV2.MaxAtBelowLeaf` | crates/oxcdf-hdf5/src/btree2.rs:132-161 | the bound on an internal node's records is at most a leaf's |
| `BTreeV2.CapacityBound` | crates/oxcdf-hdf5/src/btree2.rs:142-152 | a node that fits its size respects the derived bound; the bound is reached by a node that fits exactly when the division leaves room for a whole pointer, and is at most one too high |
| `BTreeV2.BoundOverfills` | crates/oxcdf-hdf5/src/btree2.rs:142-152 | a node size and record size where the bound overfills the node |
| `BTreeV2.WidthsAgree` | crates/oxcdf-hdf5/src/btree2.rs:141-159 | the derived widths are those of nodes that fit exactly when every derived bound still fits the width the fitting totals need |
| `BTreeV2.RoomyAgrees` | crates/oxcdf-hdf5/src/btree2.rs:141-159 | with room for a whole pointer at every depth the bounds and widths are those of nodes that fit |
| `BTreeV2.WidthsDiffer` | crates/oxcdf-hdf5/src/btree2.rs:141-159 | a record size where a derived pointer is a byte wider |
| `BTreeV2.StoredFitIsStored` | crates/oxcdf-hdf5/src/btree2.rs:132-161 | a tree written with the pointer widths of nodes that fit is stored as the reader expects, hence read back, when the widths agree below its root |
| `BTreeV2.WiderIsNotRead` | crates/oxcdf-hdf5/src/btree2.rs:194-252 | where the root's pointers are derived too wide and the root ends the file, no tree is read |
| `BTreeV2.ChainIsNotRead` | crates/oxcdf-hdf5/src/btree2.rs:132-252 | such a tree: depth 3, records of 74 bytes, nodes of 512 |
| `BTreeV2.FitsWellFormed` | crates/oxcdf-hdf5/src/btree2.rs:132-161 | a tree whose nodes fit their size respects the derived bounds |
| `BTreeV2.TotalFits` | crates/oxcdf-hdf5/src/btree2.rs:141-155 | a subtree's records never exceed the bound its width comes from |
| `BTreeV2.FieldsFit` | crates/oxcdf-hdf5/src/btree2.rs:216-223 | address, record count and subtree total of every child fit the derived widths |
| `BTreeV2.NrecSizeSmall` | crates/oxcdf-hdf5/src/btree2.rs:135-136 | the record count takes one to four bytes, so the cursor never refuses it |
| `BTreeV2.InOrderLength` | crates/oxcdf-hdf5/src/btree2.rs:254-270 | the in-order list has as many records as the tree |
| `BTreeV2.InOrderAt` | crates/oxcdf-hdf5/src/btree2.rs:254-270 | each child's records come right after the children and records before it, and record `i` right after child `i` |
| `BTreeV2.ReadNode` | crates/oxcdf-hdf5/src/btree2.rs:194-252 | succeeds if and only if the bytes are a node of that many records, and returns the records and links they spell out: signature, records from the seventh byte on, an address and a record count in each pointer, checksum |
| `BTreeV2.SpellsBytes` | crates/oxcdf-hdf5/src/btree2.rs:194-252 | what a node spells out, byte for byte in the file |
| `BTreeV2.StoredReads` | crates/oxcdf-hdf5/src/btree2.rs:194-252 | a stored tree is what the file spells out |
| `BTreeV2.ReadsOnce` | crates/oxcdf-hdf5/src/btree2.rs:176-273 | the file spells out at most one tree from an address |
| `BTreeV2.Collect` | crates/oxcdf-hdf5/src/btree2.rs:176-273 | appends the in-order records of the tree the file spells out and counts its nodes; every such tree within the node limit is read |
| `BTreeV2.ReadTree` | crates/oxcdf-hdf5/src/btree2.rs:91-120 | for any bytes, succeeds if and only if they spell out a tree of at most 2^20 nodes, and returns its in-order records; a stored tree is read back; impossible sizes are refused, an absent root is empty |
| `LittleEndian.LittleRoundTrip` | crates/oxcdf-hdf5/src/cursor.rs:169-184 | an integer that fits its width is read back as written |
| `LittleEndian.LittlePlaces` | crates/oxcdf-hdf5/src/cursor.rs:169-184 | each byte is worth 256 times the one before it |
| `LittleEndian.LittleFour` | crates/oxcdf-hdf5/src/cursor.rs:169-184 | a four-byte integer, byte by byte |
| `Shuffles.Shuffle` | crates/oxcdf-hdf5/src/filters.rs:428-449 | byte `c` of element `e` goes to place `e` of stream `c`, a ragged tail stays |
| `Shuffles.Unshuffle` | crates/oxcdf-hdf5/src/filters.rs:380-425 | the buffer is the shuffle of the result |
| `Shuffles.ShuffleRoundTrip` | crates/oxcdf-hdf5/src/filters.rs:380-449 | mutual inverses for every buffer and width |
| `Shuffles.TransposeTwice` | crates/oxcdf-hdf5/src/filters.rs:380-449 | transposing twice is the identity for every matrix |
| `Shuffles.Bitshuffle` | crates/oxcdf-hdf5/src/filters.rs:338-357 | setting bits one by one transposes the bit matrix; data of no whole elements is left alone |
| `Shuffles.Unbitshuffle` | crates/oxcdf-hdf5/src/filters.rs:306-335 | the inverse transposition, with the same exception |
| `Shuffles.BitshuffleRoundTrip` | crates/oxcdf-hdf5/src/filters.rs:306-357 | mutual inverses for every buffer and width |
| `Shuffles.BitshuffledMeans` | crates/oxcdf-hdf5/src/filters.rs:306-357 | bit `c` of element `e` goes to place `e` of bit stream `c`, low bits first |
| `Shuffles.BitIs` | crates/oxcdf-hdf5/src/filters.rs:306-357 | bit `k` is the parity after a shift by `k` |
| `Fletcher.Fletcher32` | crates/oxcdf-hdf5/src/checksum.rs:128-161 | with 32-bit wrapping sums the result packs the plain and the double sum of the big-endian words, each reduced modulo 65535, odd tail included |
| `Fletcher.ChecksumMeans` | crates/oxcdf-hdf5/src/checksum.rs:128-161 | the low half is the sum of the words modulo 65535 and the high half the weighted sum, neither zero unless the sum is |
| `Fletcher.SumsMean` | crates/oxcdf-hdf5/src/checksum.rs:140-158 | a word is two bytes, the first one high, and zero for a missing one |
| `Fletcher.DoubleSumIsWeighted` | crates/oxcdf-hdf5/src/checksum.rs:140-145 | the second sum weighs every word by its position from the end |
| `Fletcher.BlockFits` | crates/oxcdf-hdf5/src/checksum.rs:136-148 | a block of 360 words stays below 2^32 |
| `Fletcher.BlockIsTight` | crates/oxcdf-hdf5/src/checksum.rs:136-148 | with blocks of 361 words, two blocks of bytes 0xff take the second sum past 2^32 |
| `Fletcher.SumBlock` | crates/oxcdf-hdf5/src/checksum.rs:137-145 | a block adds its words to both sums as over unbounded integers: nothing wraps |
| `Pipelines.VerifyAndStripFletcher32` | crates/oxcdf-hdf5/src/filters.rs:456-482 | succeeds if and only if the last four bytes are the checksum of the others in one byte order or the other, and takes just those away |
| `Pipelines.StripAppended` | crates/oxcdf-hdf5/src/filters.rs:456-482 | a checksum written in either byte order is accepted and removed |
| `Pipelines.DecodeOne` | crates/oxcdf-hdf5/src/filters.rs:45-73 | undoes one filter and refuses an unknown one |
| `Pipelines.UndoneMeans` | crates/oxcdf-hdf5/src/filters.rs:45-73 | what undoing each filter gives, and that an unknown one is refused |
| `Pipelines.UndoApplied` | crates/oxcdf-hdf5/src/filters.rs:45-73 | undoing what a filter applied restores the data |
| `Pipelines.DecodeChunk` | crates/oxcdf-hdf5/src/filters.rs:25-42 | goes from the last filter to the first, skips those whose mask bit is set, and succeeds with the last stage if and only if no other fails; the first failure is returned |
| `Pipelines.PipelineRoundTrip` | crates/oxcdf-hdf5/src/filters.rs:25-42 | decoding undoes any write-order application, whatever the mask skips |
| `Pipelines.WrittenChunkReads` | crates/oxcdf-hdf5/src/read.rs:910-927 | a chunk written through the pipeline is what a read of its record sees |
| `BloscLz.Unblosclz` | crates/oxcdf-hdf5/src/filters.rs:229-299 | terminates on every input; a success is the encoding of tokens that each yield their bytes in turn, a literal its own and a match those at its distance; a failure encodes no list whose matches begin inside the output |
| `BloscLz.DecodeEncoded` | crates/oxcdf-hdf5/src/filters.rs:229-299 | the encoding of any token list decodes to its LZ77 expansion: chained lengths, the distance escape and overlapping matches |
| `BloscLz.DecodedIsEncoded` | crates/oxcdf-hdf5/src/filters.rs:229-299 | whatever decodes is the encoding of a token list with that expansion |
| `BloscLz.DecodesIff` | crates/oxcdf-hdf5/src/filters.rs:229-299 | a block decodes exactly when it encodes a list whose matches point inside the output |
| `BloscLz.ExpandMeans` | crates/oxcdf-hdf5/src/filters.rs:229-299 | byte by byte, what a token list expands to |
| `BloscLz.AllFitIff` | crates/oxcdf-hdf5/src/filters.rs:287-289 | a list expands exactly when every match begins inside the output before it |
| `BloscLz.LiteralIs` | crates/oxcdf-hdf5/src/filters.rs:240-250 | a literal on the wire |
| `BloscLz.MatchIs` | crates/oxcdf-hdf5/src/filters.rs:252-286 | a match on the wire: length bits and chain, distance bits and escape |
| `BloscLz.CopyRepeats` | crates/oxcdf-hdf5/src/filters.rs:287-295 | each copied byte equals the one `distance + 1` before it in the result |
| `Classic.Pad4` | crates/oxcdf/src/classic.rs:749-751 | the least multiple of four not below the size |
| `Classic.RecordStride` | crates/oxcdf/src/classic.rs:635-645 | for exactly one record variable the product of its inner dimensions times its width, unpadded; otherwise the sum of the padded sizes of all |
| `Classic.RecordsAbut` | crates/oxcdf/src/classic.rs:635-645 | records of the only record variable lie end to end |
| `Classic.RecordsDisjoint` | crates/oxcdf/src/classic.rs:609-645 | with that stride no two records of any variables overlap, the unpadded case included |
| `Classic.RoundIsFull` | crates/oxcdf/src/classic.rs:635-645 | several record variables fill the stride exactly, padding aside |
| `Classic.ElementsDisjoint` | crates/oxcdf/src/classic.rs:413-433 | two elements of record variables share bytes only if they are the same |
| `Classic.ReadRow` | crates/oxcdf/src/classic.rs:418-433 | one run extends the finished output, or shows a selected element outside the file |
| `Classic.ReadRecordVariable` | crates/oxcdf/src/classic.rs:391-445 | every output element is the file's at its record and row-major place; succeeds if and only if every row of the selection has its place in the file, which for a non-empty selection is every element of it |
| `Classic.ReadSelection` | crates/oxcdf/src/classic.rs:311-337 | each byte of the answer is the file's at its record, its row-major place there and the mirrored place in the element; succeeds under the same condition, for empty selections too; selections outside the shape are refused |

## Left out

- File, object-store and asynchronous runtime I/O: a source is its bytes, and an await is an ordinary step.
- 64-bit wrap-around of stride and offset products, and `usize` limits: shapes are assumed to have products that fit 64 bits; saturating counts, saturating chunk edges and the saturating implicit addresses are modelled.
- The superblock's base address: addresses are resolved already.
- Datatypes, variable-length data, strings, attributes, naming conventions and value conversion.
- deflate, zstd, lz4 and the blosc container: abstract codecs with an inverse; the metadata checksum is an arbitrary function.
- ReadEngine.ReadHyperslab: one address is taken to have one decode whenever chunks pass through a chunk cache or a batch, both of which are keyed by address; a chunk shape of more than 2^64 elements of at most one byte is left out; byte order is a flag that variable-length data never sets.
- Chunked datasets of rank zero, and pipelines of more than 32 filters.
- Fixed and extensible arrays, fractal heaps, symbol tables and every message parser.
- The group B-tree walk: the same walk as `BTreeV1.ReadChunkIndex` without the sort; decoding a node from bytes is a lookup there.
- Fixed-size classic variables: the code reads them from the file's own source even when given another one.
- Classic.RecordStride: starts from parsed variables whose padded record sizes sum to at most 64 bits; beyond that the code's own padding and sum overflow.
- Which error a failing read reports: whether each engine succeeds, and with what answer, is stated exactly.
- Borrowed slices and zero-copy sharing of buffers.
- ChunkedReads.FetchAndDecode: where a chunk does not decode and another record at its address has fewer axes than the dataset, all of them overlapping, the model reports the decode error; no resolver makes such a record.
- ChunkedReads.ReadChunked: the code copies inline what the asynchronous engine copies in `copy_chunk`; the model has the loop once.
- Replays.Replay: a walk has a bound on its number of reads, as every terminating walk does; exceeding it is an error of the walk.
- PageCaches.IoCache.Read: page slots are a map from page index instead of a vector of options.
- Hyperslabs.ForEachRun: returns the list of runs instead of calling back with each.
- BTreeV2.Derive: subtree bounds are unbounded integers, so a tree deep enough to overflow 64 bits is outside the model.
- ChunkGrids.ReadImplicit: a file is taken to be shorter than 2^64 - 1 bytes.
