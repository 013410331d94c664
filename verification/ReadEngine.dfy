/** The whole read of a hyperslab: layout, fill value and byte order (`crates/oxcdf-hdf5/src/read.rs`). */
module ReadEngine {
  import opened Basics
  import opened Arith
  import opened RowMajor
  import opened Hyperslabs
  import opened Elements
  import opened FillValues
  import opened DenseReads
  import opened ChunkCovers
  import opened ChunkCopies
  import opened Coalesce
  import opened ChunkedReads
  import PageCaches

  datatype Layout =
    | Compact(data: seq<byte>)
    | Contiguous(address: Option<nat>)
    | Chunked(chunkDims: seq<nat>, chunks: seq<ChunkRecord>)

  datatype Dataset = Dataset(shape: seq<nat>, layout: Layout, fill: Option<seq<byte>>, width: nat,
                             decodable: bool, swapped: bool)
  {
    /** Shapes whose element counts fit 64 bits, and chunks of a dataset with at least one axis. */
    ghost predicate Valid() {
      Product(shape) <= U64_MAX && (forall a :: 0 <= a < |shape| ==> shape[a] <= U64_MAX)
      && (layout.Chunked? ==> |shape| > 0 && (Product(layout.chunkDims) <= U64_MAX || width > 1))
    }
  }

  /** The two engines differ only in how stored bytes are fetched. */
  datatype Engine = Sync | Async

  // ---- byte order ----

  function Reverse(s: seq<byte>): (r: seq<byte>)
    ensures |r| == |s| && forall i :: 0 <= i < |s| ==> r[i] == s[|s| - 1 - i]
  {
    seq(|s|, i requires 0 <= i < |s| => s[|s| - 1 - i])
  }

  /** The first `k` of `n` elements are reversed, the others as they were. */
  ghost predicate SwappedUpto(was: seq<byte>, now: seq<byte>, k: nat, n: nat, width: nat) {
    |now| == |was| == Mul(n, width)
    && forall e :: 0 <= e < n ==>
      && Has(was, 0, e, width) && Has(now, 0, e, width)
      && Element(now, e, width) == if e < k then Reverse(Element(was, e, width)) else Element(was, e, width)
  }

  /** Reverse the bytes of each element. */
  method SwapBytesInPlace(buf: array<byte>, width: nat, n: nat)
    requires buf.Length == Mul(n, width)
    modifies buf
    ensures SwappedUpto(old(buf[..]), buf[..], n, n, width)
    ensures forall e, k :: 0 <= e < n && 0 <= k < width ==>
              && ByteAt(e, width, k) < buf.Length && MirrorAt(e, width, k) < buf.Length
              && buf[..][ByteAt(e, width, k)] == old(buf[..])[MirrorAt(e, width, k)]
  {
    hide Mul;
    hide SwappedUpto;
    ghost var was := buf[..];
    NothingSwapped(was, n, width);
    if width <= 1 {
      SwappedBytes(was, buf[..], n, width);
      return;
    }
    for k := 0 to n
      invariant SwappedUpto(was, buf[..], k, n, width)
    {
      SwapStep(was, buf[..], k, n, width);
      MulIs(k, width);
      CopyBytes(buf, k * width, Reverse(Slice(buf[..], k * width, width)));
    }
    SwappedBytes(was, buf[..], n, width);
  }

  /** Byte `k` of an element comes from its other end. */
  lemma {:induction false} SwappedBytes(was: seq<byte>, now: seq<byte>, n: nat, width: nat)
    requires SwappedUpto(was, now, n, n, width)
    ensures |now| == |was|
    ensures forall e, k :: 0 <= e < n && 0 <= k < width ==>
              && ByteAt(e, width, k) < |now| && MirrorAt(e, width, k) < |was|
              && now[ByteAt(e, width, k)] == was[MirrorAt(e, width, k)]
  {
    hide Mul;
    forall e, k | 0 <= e < n && 0 <= k < width
      ensures ByteAt(e, width, k) < |now| && MirrorAt(e, width, k) < |was|
      ensures now[ByteAt(e, width, k)] == was[MirrorAt(e, width, k)]
    {
      assert Has(was, 0, e, width) && Has(now, 0, e, width);
      ElementByte(now, e, width, k);
      ElementByte(was, e, width, width - 1 - k);
    }
  }

  lemma {:induction false} NothingSwapped(was: seq<byte>, n: nat, width: nat)
    requires |was| == Mul(n, width)
    ensures SwappedUpto(was, was, 0, n, width)
    ensures width <= 1 ==> SwappedUpto(was, was, n, n, width)
  {
    hide Mul;
    forall e | 0 <= e < n
      ensures Has(was, 0, e, width) && (width <= 1 ==> Reverse(Element(was, e, width)) == Element(was, e, width))
    {
      HasLess(was, 0, e, n, width);
    }
  }

  lemma {:induction false} SwapStep(was: seq<byte>, now: seq<byte>, k: nat, n: nat, width: nat)
    requires SwappedUpto(was, now, k, n, width) && k < n
    ensures Mul(k, width) + width <= |now|
    ensures SwappedUpto(was, Splice(now, Mul(k, width), Reverse(Slice(now, Mul(k, width), width))), k + 1, n, width)
  {
    hide Mul;
    hide Slice;
    hide Splice;
    assert Has(now, 0, k, width);
    var piece := Reverse(Slice(now, Mul(k, width), width));
    var next := Splice(now, Mul(k, width), piece);
    MulOne(width);
    forall e | 0 <= e < n
      ensures Has(next, 0, e, width)
      ensures Element(next, e, width) == if e < k + 1 then Reverse(Element(was, e, width)) else Element(was, e, width)
    {
      assert Has(now, 0, e, width);
      if e == k {
        ReplaceOne(now, k, piece, width);
      } else {
        KeptElement(now, k, piece, 1, width, e);
      }
    }
  }

  lemma {:induction false} ReplaceOne(buf: seq<byte>, k: nat, piece: seq<byte>, width: nat)
    requires Has(buf, 0, k, width) && |piece| == width
    ensures Element(Splice(buf, Mul(k, width), piece), k, width) == piece
  {
  }

  // ---- the fill decision ----

  /** Whether the copies that follow will overwrite every byte of the output. */
  method SelectionIsCovered(dataset: Dataset, slab: Hyperslab) returns (r: bool)
    requires slab.Inside(dataset.shape)
    ensures r <==> match dataset.layout
                   case Compact(_) => true
                   case Contiguous(address) => address.Some?
                   case Chunked(dims, chunks) => |dims| == |dataset.shape| > 0 && Covered(chunks, dims, slab)
  {
    match dataset.layout
    case Compact(_) => r := true;
    case Contiguous(address) => r := address.Some?;
    case Chunked(dims, chunks) =>
      var rank := |dataset.shape|;
      if rank == 0 || |dims| != rank {
        return false;
      }
      r := ChunksCover(chunks, dims, slab);
  }

  // ---- the read ----

  ghost function JobOf(dataset: Dataset, slab: Hyperslab): Job
    requires dataset.layout.Chunked?
  {
    Job(dataset.layout.chunkDims, slab, dataset.width)
  }

  /** A read that filled first and then copied would find these stored bytes, whatever the layout. */
  ghost predicate Available(dataset: Dataset, storage: Storage, slab: Hyperslab)
    requires dataset.Valid() && slab.Inside(dataset.shape)
  {
    match dataset.layout
    case Compact(data) => Stored(data, 0, dataset.shape, slab, dataset.width)
    case Contiguous(address) =>
      address.Some? ==> Fetchable(storage.file, storage.paged, address.value, dataset.shape, slab, dataset.width)
    case Chunked(dims, chunks) =>
      && |dims| == |dataset.shape|
      && JobOf(dataset, slab).Valid() && AllReadable(storage, chunks, JobOf(dataset, slab))
  }

  /** The stored element for output position `d`: the file's, or the fill value where nothing is stored. */
  ghost function StoredOrFill(dataset: Dataset, storage: Storage, slab: Hyperslab, d: nat): seq<byte>
    requires dataset.Valid() && slab.Inside(dataset.shape) && d < Product(slab.count)
    requires Available(dataset, storage, slab)
  {
    match dataset.layout
    case Compact(data) => StoredElement(data, 0, SourceOf(dataset.shape, slab, d), dataset.width)
    case Contiguous(address) =>
      if address.None? then FillElement(dataset.fill, dataset.width)
      else if dataset.width == 0 then []
      else StoredElement(storage.file, address.value, SourceOf(dataset.shape, slab, d), dataset.width)
    case Chunked(dims, chunks) =>
      Value(storage, chunks, |chunks|, JobOf(dataset, slab), slab.CoordOf(d), FillElement(dataset.fill, dataset.width))
  }

  ghost predicate Filled(buf: seq<byte>, dataset: Dataset, slab: Hyperslab)
  {
    |buf| == Mul(Product(slab.count), dataset.width)
    && forall i :: 0 <= i < |buf| ==> buf[i] == FillByte(dataset.fill, dataset.width, i)
  }

  /** The output holds the stored or fill element at every position. */
  ghost predicate Delivered(out: seq<byte>, dataset: Dataset, storage: Storage, slab: Hyperslab)
    requires dataset.Valid() && slab.Inside(dataset.shape) && Available(dataset, storage, slab)
  {
    |out| == Mul(Product(slab.count), dataset.width)
    && forall d :: 0 <= d < Product(slab.count) ==>
      Has(out, 0, d, dataset.width) && Element(out, d, dataset.width) == StoredOrFill(dataset, storage, slab, d)
  }

  /** Painting over a filled buffer, or over any buffer when the chunks cover the selection, delivers. */
  lemma {:induction false} PaintedDelivers(was: seq<byte>, now: seq<byte>, dataset: Dataset, storage: Storage, slab: Hyperslab)
    requires dataset.Valid() && slab.Inside(dataset.shape) && dataset.layout.Chunked?
    requires Available(dataset, storage, slab) && |was| == Mul(Product(slab.count), dataset.width)
    requires Filled(was, dataset, slab) || Covered(dataset.layout.chunks, dataset.layout.chunkDims, slab)
    requires Painted(was, now, storage, dataset.layout.chunks, |dataset.layout.chunks|, JobOf(dataset, slab))
    ensures Delivered(now, dataset, storage, slab)
  {
    hide Mul;
    hide Product;
    var job, chunks := JobOf(dataset, slab), dataset.layout.chunks;
    forall d | 0 <= d < Product(slab.count)
      ensures Has(now, 0, d, dataset.width) && Element(now, d, dataset.width) == StoredOrFill(dataset, storage, slab, d)
    {
      HasLess(was, 0, d, Product(slab.count), dataset.width);
      assert PaintedAt(was, now, storage, chunks, |chunks|, job, d);
      if Filled(was, dataset, slab) {
        FilledElement(dataset.fill, was, dataset.width, d);
      } else {
        var coord := slab.CoordOf(d);
        var i :| 0 <= i < |chunks| && Serves(chunks[i], job.chunkShape, coord);
        TouchedReadable(storage, chunks, job, coord, i);
        ValueIgnoresBase(storage, chunks, |chunks|, job, coord, Element(was, d, job.width), FillElement(dataset.fill, job.width), i);
      }
    }
  }

  lemma {:induction false} JobValid(dataset: Dataset, slab: Hyperslab)
    requires dataset.Valid() && slab.Inside(dataset.shape)
    ensures Product(slab.count) <= U64_MAX
    ensures dataset.layout.Chunked? && |dataset.layout.chunkDims| == |dataset.shape| ==> JobOf(dataset, slab).Valid()
  {
    ProductMonotone(slab.count, dataset.shape);
  }

  /** Cached pages and chunks are the file's own, and one address has one decode wherever chunks are looked up by it. */
  ghost predicate CachesOk(engine: Engine, dataset: Dataset, storage: Storage, cache: ChunkCache?, pages: PageCaches.IoCache?)
    reads cache, pages
  {
    && storage.paged == (pages != null) && PageCaches.PagesOk(pages, storage.file)
    && (dataset.layout.Chunked? && (cache != null || engine.Async?) ==> OneDecode(storage, dataset.layout.chunks))
    && (dataset.layout.Chunked? && cache != null ==> Coherent(cache.entries, storage, dataset.layout.chunks))
  }

  /** The cache never drops a chunk the selection touches. */
  ghost predicate NeverDrops(evictions: Evictions, chunks: seq<ChunkRecord>, job: Job)
    requires job.Valid()
  {
    forall t: nat, i :: 0 <= i < |chunks| && job.Touches(chunks[i]) ==> chunks[i].address !in evictions(t)
  }

  /** Whether the stored data can be copied, given the chunk cache the read begins with. */
  ghost predicate Succeeds(engine: Engine, state: CacheState, dataset: Dataset, storage: Storage, slab: Hyperslab)
    requires dataset.Valid() && slab.Inside(dataset.shape)
  {
    if !dataset.layout.Chunked? then Available(dataset, storage, slab)
    else
      var job, chunks := JobOf(dataset, slab), dataset.layout.chunks;
      && |dataset.layout.chunkDims| == |dataset.shape| && job.Valid()
      && if engine.Sync? then SyncSucceeds(state, storage, chunks, job) else AsyncSucceeds(state, storage, chunks, job)
  }

  /** Nothing can fail the read. Read-ahead into a cache also needs the chunks it reaches to be inside the file. The
      asynchronous engine fetches no chunk without bytes, and a cached chunk must not be evicted before it is copied. */
  ghost predicate Complete(engine: Engine, state: CacheState, dataset: Dataset, storage: Storage, slab: Hyperslab)
    requires dataset.Valid() && slab.Inside(dataset.shape)
  {
    Available(dataset, storage, slab)
    && (dataset.layout.Chunked? ==>
          var job, chunks := JobOf(dataset, slab), dataset.layout.chunks;
          && job.ChunkLen() <= U64_MAX && AheadStored(storage, chunks, job, state.readahead)
          && (engine.Sync? || state != NoCache ==> AllRanked(chunks, job))
          && (engine.Async? ==> AllFetched(chunks, job) && NeverDrops(state.evictions, chunks, job)))
  }

  /** With a cache that keeps what the read touches, success depends on the file and the index alone. */
  lemma {:induction false} CompleteSucceeds(engine: Engine, state: CacheState, dataset: Dataset, storage: Storage, slab: Hyperslab)
    requires dataset.Valid() && slab.Inside(dataset.shape) && Complete(engine, state, dataset, storage, slab)
    requires dataset.layout.Chunked? && engine.Async? ==> OneDecode(storage, dataset.layout.chunks)
    ensures Succeeds(engine, state, dataset, storage, slab)
  {
    hide Mul;
    hide Product;
    hide AllReadable;
    hide AheadStored;
    hide AllFetched;
    hide NeverDrops;
    hide BatchOf;
    hide AsyncSucceeds;
    hide Touched;
    hide Copying;
    if dataset.layout.Chunked? {
      var job, chunks := JobOf(dataset, slab), dataset.layout.chunks;
      BatchInFile(state, storage, chunks, job);
      if engine.Async? && state == NoCache {
        AsyncUncached(storage, chunks, job);
      } else if engine.Async? {
        EnginesDiffer(state, storage, chunks, job);
        forall k | 0 <= k < |Touched(chunks, |chunks|, job)| ensures NotLost(state, storage, chunks, job, k) {
          TouchedAre(chunks, |chunks|, job);
          var turn := state.clock + (Copying(state, storage, chunks, job) + k + 1);
          NeverDropped(state.evictions, chunks, job, Touched(chunks, |chunks|, job)[k], state.clock, turn);
        }
      }
    }
  }

  lemma {:induction false} NeverDropped(evictions: Evictions, chunks: seq<ChunkRecord>, job: Job, i: nat, start: nat, end: nat)
    requires job.Valid() && NeverDrops(evictions, chunks, job) && i < |chunks| && job.Touches(chunks[i])
    ensures chunks[i].address !in Dropped(evictions, start, end)
    decreases end
  {
    if start < end {
      NeverDropped(evictions, chunks, job, i, start, end - 1);
    }
  }

  /** Copy the stored data over the prepared buffer. */
  method CopyStored(engine: Engine, dataset: Dataset, storage: Storage, slab: Hyperslab, out: array<byte>,
                    cache: ChunkCache?, pages: PageCaches.IoCache?, config: IoConfig)
    returns (r: Result<()>)
    requires dataset.Valid() && slab.Inside(dataset.shape) && out.Length == Mul(Product(slab.count), dataset.width)
    requires Filled(out[..], dataset, slab)
             || match dataset.layout
                case Compact(_) => true
                case Contiguous(address) => address.Some?
                case Chunked(dims, chunks) => |dims| == |dataset.shape| && Covered(chunks, dims, slab)
    requires CachesOk(engine, dataset, storage, cache, pages)
    modifies out, cache, pages
    ensures CachesOk(engine, dataset, storage, cache, pages)
    ensures r.Ok? ==> Available(dataset, storage, slab) && Delivered(out[..], dataset, storage, slab)
    ensures r.Ok? <==> Succeeds(engine, old(StateOf(cache)), dataset, storage, slab)
  {
    hide Mul;
    hide Product;
    hide Painted;
    JobValid(dataset, slab);
    match dataset.layout
    case Compact(data) =>
      r := CopyFromDense(out, data, dataset.shape, slab, dataset.width);
    case Contiguous(address) =>
      if address.None? {
        FilledDelivers(out[..], dataset, storage, slab);
        return Ok(());
      }
      if engine.Sync? {
        r := ReadContiguous(storage.file, address.value, out, dataset.shape, slab, dataset.width, pages);
      } else {
        r := ReadContiguousAsync(storage.file, address.value, out, dataset.shape, slab, dataset.width, pages, config);
      }
      if r.Ok? {
        CopiedDelivers(out[..], dataset, storage, slab);
      }
    case Chunked(dims, chunks) =>
      if |dims| != |dataset.shape| {
        return Err(Malformed);
      }
      r := CopyChunked(engine, dataset, storage, slab, out, cache, pages, config);
  }

  /** Copy a chunked dataset over the prepared buffer. */
  method CopyChunked(engine: Engine, dataset: Dataset, storage: Storage, slab: Hyperslab, out: array<byte>,
                     cache: ChunkCache?, pages: PageCaches.IoCache?, config: IoConfig)
    returns (r: Result<()>)
    requires dataset.Valid() && slab.Inside(dataset.shape) && out.Length == Mul(Product(slab.count), dataset.width)
    requires dataset.layout.Chunked? && |dataset.layout.chunkDims| == |dataset.shape| && JobOf(dataset, slab).Valid()
    requires Filled(out[..], dataset, slab) || Covered(dataset.layout.chunks, dataset.layout.chunkDims, slab)
    requires CachesOk(engine, dataset, storage, cache, pages)
    modifies out, cache, pages
    ensures CachesOk(engine, dataset, storage, cache, pages)
    ensures r.Ok? ==> Available(dataset, storage, slab) && Delivered(out[..], dataset, storage, slab)
    ensures r.Ok? <==> Succeeds(engine, old(StateOf(cache)), dataset, storage, slab)
  {
    hide Mul;
    hide Product;
    hide Painted;
    hide Coherent;
    hide OneDecode;
    hide Covered;
    hide Filled;
    hide Delivered;
    hide SyncSucceeds;
    hide AsyncSucceeds;
    hide AllReadable;
    ghost var was := out[..];
    var chunks := dataset.layout.chunks;
    var job := Job(dataset.layout.chunkDims, slab, dataset.width);
    if engine.Sync? {
      r := ReadChunked(storage, chunks, job, out, cache, pages, config);
    } else {
      r := ReadChunkedAsync(storage, chunks, job, out, cache, pages, config);
    }
    if r.Ok? {
      SuccessReads(old(StateOf(cache)), storage, chunks, job);
      PaintedDelivers(was, out[..], dataset, storage, slab);
    }
  }

  lemma {:induction false} SuccessReads(state: CacheState, storage: Storage, chunks: seq<ChunkRecord>, job: Job)
    requires job.Valid() && (SyncSucceeds(state, storage, chunks, job) || AsyncSucceeds(state, storage, chunks, job))
    ensures AllReadable(storage, chunks, job)
  {
  }

  lemma {:induction false} CopiedDelivers(out: seq<byte>, dataset: Dataset, storage: Storage, slab: Hyperslab)
    requires dataset.Valid() && slab.Inside(dataset.shape) && dataset.layout.Contiguous? && dataset.layout.address.Some?
    requires |out| == Mul(Product(slab.count), dataset.width)
    requires Fetchable(storage.file, storage.paged, dataset.layout.address.value, dataset.shape, slab, dataset.width)
    requires dataset.width > 0 ==>
      Copied(out, Product(slab.count), storage.file, dataset.layout.address.value, dataset.shape, slab, dataset.width)
    ensures Available(dataset, storage, slab) && Delivered(out, dataset, storage, slab)
  {
    hide Mul;
    hide Product;
    forall d | 0 <= d < Product(slab.count)
      ensures Has(out, 0, d, dataset.width) && Element(out, d, dataset.width) == StoredOrFill(dataset, storage, slab, d)
    {
      HasLess(out, 0, d, Product(slab.count), dataset.width);
    }
  }

  lemma {:induction false} FilledDelivers(out: seq<byte>, dataset: Dataset, storage: Storage, slab: Hyperslab)
    requires dataset.Valid() && slab.Inside(dataset.shape) && dataset.layout == Contiguous(None)
    requires Filled(out, dataset, slab)
    ensures Available(dataset, storage, slab) && Delivered(out, dataset, storage, slab)
  {
    forall d | 0 <= d < Product(slab.count)
      ensures Has(out, 0, d, dataset.width) && Element(out, d, dataset.width) == FillElement(dataset.fill, dataset.width)
    {
      HasLess(out, 0, d, Product(slab.count), dataset.width);
      FilledElement(dataset.fill, out, dataset.width, d);
    }
  }

  /** Read a hyperslab. Skipping the fill pass is never visible in a successful answer. */
  method ReadHyperslab(engine: Engine, dataset: Dataset, storage: Storage, slab: Hyperslab, cache: ChunkCache?,
                       pages: PageCaches.IoCache?, config: IoConfig)
    returns (r: Result<seq<byte>>)
    requires dataset.Valid()
    requires CachesOk(engine, dataset, storage, cache, pages)
    modifies cache, pages
    ensures CachesOk(engine, dataset, storage, cache, pages)
    ensures r.Ok? ==> slab.Inside(dataset.shape) && Available(dataset, storage, slab)
                      && |r.value| == Mul(Product(slab.count), dataset.width)
    ensures r.Ok? ==> forall d :: 0 <= d < Product(slab.count) ==>
              Has(r.value, 0, d, dataset.width)
              && Element(r.value, d, dataset.width) ==
                 (var e := StoredOrFill(dataset, storage, slab, d); if dataset.swapped then Reverse(e) else e)
    // The same byte by byte: a swapped element is read from its other end.
    ensures r.Ok? ==> forall d, k :: 0 <= d < Product(slab.count) && 0 <= k < dataset.width ==>
              && ByteAt(d, dataset.width, k) < |r.value| && |StoredOrFill(dataset, storage, slab, d)| == dataset.width
              && r.value[ByteAt(d, dataset.width, k)]
                 == StoredOrFill(dataset, storage, slab, d)[if dataset.swapped then dataset.width - 1 - k else k]
    ensures !slab.Inside(dataset.shape) ==> r == Err(BadRequest)
    ensures r.Ok? <==> dataset.decodable && slab.Inside(dataset.shape) && Mul(Product(slab.count), dataset.width) <= U64_MAX
                       && Succeeds(engine, old(StateOf(cache)), dataset, storage, slab)
  {
    hide Mul;
    hide Product;
    hide Available;
    hide Filled;
    hide StoredOrFill;
    hide Succeeds;
    hide Delivered;
    hide SwappedUpto;
    var valid := Validate(slab, dataset.shape);
    if valid.Err? {
      return Err(valid.error);
    }
    if !dataset.decodable {
      return Err(Unsupported);
    }
    JobValid(dataset, slab);
    var elements := ElementCount(slab.count);
    MulIs(elements, dataset.width);
    var total := elements * dataset.width;
    if total > U64_MAX {
      return Err(BadRequest);
    }
    var out := new byte[total](_ => 0);
    var covered := SelectionIsCovered(dataset, slab);
    if !covered {
      Fill(dataset.fill, out, dataset.width);
      BytesFilled(out[..], dataset, slab);
    }
    var copied := CopyStored(engine, dataset, storage, slab, out, cache, pages, config);
    if copied.Err? {
      return Err(copied.error);
    }
    ghost var copy := out[..];
    if dataset.swapped {
      SwapBytesInPlace(out, dataset.width, elements);
    }
    DeliveredElements(copy, out[..], dataset, storage, slab);
    DeliveredBytes(out[..], dataset, storage, slab);
    return Ok(out[..]);
  }

  lemma {:induction false} DeliveredElements(copy: seq<byte>, out: seq<byte>, dataset: Dataset, storage: Storage, slab: Hyperslab)
    requires dataset.Valid() && slab.Inside(dataset.shape) && Available(dataset, storage, slab)
    requires Delivered(copy, dataset, storage, slab)
    requires if dataset.swapped then SwappedUpto(copy, out, Product(slab.count), Product(slab.count), dataset.width) else out == copy
    ensures forall d :: 0 <= d < Product(slab.count) ==>
              Has(out, 0, d, dataset.width)
              && Element(out, d, dataset.width) ==
                 (var e := StoredOrFill(dataset, storage, slab, d); if dataset.swapped then Reverse(e) else e)
  {
    hide StoredOrFill;
    hide Available;
    hide Product;
    hide Mul;
  }

  lemma {:induction false} DeliveredBytes(out: seq<byte>, dataset: Dataset, storage: Storage, slab: Hyperslab)
    requires dataset.Valid() && slab.Inside(dataset.shape) && Available(dataset, storage, slab)
    requires forall d :: 0 <= d < Product(slab.count) ==>
               Has(out, 0, d, dataset.width)
               && Element(out, d, dataset.width) ==
                  (var e := StoredOrFill(dataset, storage, slab, d); if dataset.swapped then Reverse(e) else e)
    ensures forall d, k :: 0 <= d < Product(slab.count) && 0 <= k < dataset.width ==>
              && ByteAt(d, dataset.width, k) < |out| && |StoredOrFill(dataset, storage, slab, d)| == dataset.width
              && out[ByteAt(d, dataset.width, k)]
                 == StoredOrFill(dataset, storage, slab, d)[if dataset.swapped then dataset.width - 1 - k else k]
  {
    hide Mul;
    hide Product;
    hide StoredOrFill;
    hide Available;
    hide Slice;
    forall d, k | 0 <= d < Product(slab.count) && 0 <= k < dataset.width
      ensures ByteAt(d, dataset.width, k) < |out| && |StoredOrFill(dataset, storage, slab, d)| == dataset.width
      ensures out[ByteAt(d, dataset.width, k)]
           == StoredOrFill(dataset, storage, slab, d)[if dataset.swapped then dataset.width - 1 - k else k]
    {
      assert Has(out, 0, d, dataset.width);
      var e := StoredOrFill(dataset, storage, slab, d);
      assert |Element(out, d, dataset.width)| == dataset.width;
      assert |e| == dataset.width;
      ElementByte(out, d, dataset.width, k);
    }
  }

  /** Where each byte of a delivered element comes from. In memory or in the file it is the element at the coordinate's
      row-major position; in chunks, that of the last record that holds the coordinate; else it is the fill value's, or
      zero where that is undefined or of another width. */
  lemma {:induction false} StoredByte(dataset: Dataset, storage: Storage, slab: Hyperslab, d: nat, k: nat)
    requires dataset.Valid() && slab.Inside(dataset.shape) && Available(dataset, storage, slab)
    requires d < Product(slab.count) && k < dataset.width
    ensures var e, coord, width := StoredOrFill(dataset, storage, slab, d), slab.CoordOf(d), dataset.width;
            var at := ByteAt(Ravel(coord, dataset.shape), width, k);
            var fill := if dataset.fill.Some? && |dataset.fill.value| == width then dataset.fill.value[k] else 0;
            && |e| == width
            && match dataset.layout
               case Compact(data) => at < |data| && e[k] == data[at]
               case Contiguous(None) => e[k] == fill
               case Contiguous(Some(address)) => address + at < |storage.file| && e[k] == storage.file[address + at]
               case Chunked(dims, chunks) =>
                 && (forall i: nat :: HoldsLast(chunks, dims, coord, i) ==>
                       var inside := ByteAt(Ravel(Minus(coord, chunks[i].offset), dims), width, k);
                       && Readable(storage, chunks[i], JobOf(dataset, slab))
                       && inside < |storage.Chunk(chunks[i]).value| && e[k] == storage.Chunk(chunks[i]).value[inside])
                 && ((forall i :: 0 <= i < |chunks| ==> !Contains(chunks[i].offset, dims, coord)) ==> e[k] == fill)
  {
    hide Mul;
    hide Product;
    hide Ravel;
    hide Value;
    hide Contains;
    var coord, width := slab.CoordOf(d), dataset.width;
    FillElementByte(dataset.fill, width, k);
    match dataset.layout
    case Compact(data) =>
      assert Has(data, 0, SourceOf(dataset.shape, slab, d), width);
    case Contiguous(address) =>
    case Chunked(dims, chunks) =>
      var job, base := JobOf(dataset, slab), FillElement(dataset.fill, width);
      ValueWidth(storage, chunks, |chunks|, job, coord, base);
      forall i: nat | HoldsLast(chunks, dims, coord, i)
        ensures Readable(storage, chunks[i], job)
        ensures var inside := ByteAt(Ravel(Minus(coord, chunks[i].offset), dims), width, k);
                inside < |storage.Chunk(chunks[i]).value|
                && Value(storage, chunks, |chunks|, job, coord, base)[k] == storage.Chunk(chunks[i]).value[inside]
      {
        ValueLast(storage, chunks, job, coord, base, i);
        ChunkElementByte(storage.Chunk(chunks[i]).value, chunks[i].offset, dims, coord, width, k);
      }
      if forall i :: 0 <= i < |chunks| ==> !Contains(chunks[i].offset, dims, coord) {
        ValueUnstored(storage, chunks, |chunks|, job, coord, base);
      }
  }

  lemma {:induction false} BytesFilled(buf: seq<byte>, dataset: Dataset, slab: Hyperslab)
    requires |buf| == Mul(Product(slab.count), dataset.width)
    requires forall i :: 0 <= i < |buf| ==> buf[i] == FillByte(dataset.fill, dataset.width, i)
    ensures Filled(buf, dataset, slab)
  {
  }

  /** On an index of distinct records on the grid, what a read delivers at a coordinate is the element of the one chunk
      that holds it, and the fill value exactly where no chunk does. */
  lemma {:induction false} DeliveredOnGrid(dataset: Dataset, storage: Storage, slab: Hyperslab, d: nat)
    requires dataset.Valid() && slab.Inside(dataset.shape) && d < Product(slab.count) && dataset.layout.Chunked?
    requires Available(dataset, storage, slab) && DistinctOnGrid(dataset.layout.chunks, dataset.layout.chunkDims)
    ensures var coord, chunks, dims := slab.CoordOf(d), dataset.layout.chunks, dataset.layout.chunkDims;
            && (forall i :: 0 <= i < |chunks| && Contains(chunks[i].offset, dims, coord) ==>
                  && Readable(storage, chunks[i], JobOf(dataset, slab))
                  && StoredOrFill(dataset, storage, slab, d)
                     == ChunkElement(storage.Chunk(chunks[i]).value, chunks[i].offset, dims, coord, dataset.width))
            && (forall i, j :: 0 <= i < j < |chunks| && Contains(chunks[i].offset, dims, coord) ==> !Contains(chunks[j].offset, dims, coord))
            && ((forall i :: 0 <= i < |chunks| ==> !Contains(chunks[i].offset, dims, coord)) ==>
                  StoredOrFill(dataset, storage, slab, d) == FillElement(dataset.fill, dataset.width))
  {
    hide Mul;
    hide Product;
    hide Contains;
    hide OnGrid;
    hide ChunkElement;
    var coord, chunks, job := slab.CoordOf(d), dataset.layout.chunks, JobOf(dataset, slab);
    var fill := FillElement(dataset.fill, dataset.width);
    forall i | 0 <= i < |chunks| && Contains(chunks[i].offset, job.chunkShape, coord)
      ensures Readable(storage, chunks[i], job)
      ensures Value(storage, chunks, |chunks|, job, coord, fill)
           == ChunkElement(storage.Chunk(chunks[i]).value, chunks[i].offset, job.chunkShape, coord, job.width)
    {
      ValueOnGrid(storage, chunks, |chunks|, job, coord, fill, i);
    }
    forall i, j | 0 <= i < j < |chunks| && Contains(chunks[i].offset, job.chunkShape, coord)
      ensures !Contains(chunks[j].offset, job.chunkShape, coord)
    {
      OneChunkHolds(chunks, job.chunkShape, coord, i, j);
    }
    if forall i :: 0 <= i < |chunks| ==> !Contains(chunks[i].offset, job.chunkShape, coord) {
      ValueUnstored(storage, chunks, |chunks|, job, coord, fill);
    }
  }

  lemma {:induction false} OneChunkHolds(chunks: seq<ChunkRecord>, chunkShape: seq<nat>, coord: Index, i: nat, j: nat)
    requires DistinctOnGrid(chunks, chunkShape) && i < j < |chunks|
    ensures !(Contains(chunks[i].offset, chunkShape, coord) && Contains(chunks[j].offset, chunkShape, coord))
  {
    hide Contains;
    hide OnGrid;
    if Contains(chunks[i].offset, chunkShape, coord) && Contains(chunks[j].offset, chunkShape, coord) {
      GridOffsetUnique(chunks[i].offset, chunks[j].offset, chunkShape, coord);
    }
  }
}
