/** Reads of chunked datasets: the synchronous and the asynchronous engine, with and without a chunk cache
    (`crates/oxcdf-hdf5/src/read.rs`, `crates/oxcdf-hdf5/src/cache.rs`). */
module ChunkedReads {
  import opened Basics
  import opened Arith
  import opened RowMajor
  import opened Hyperslabs
  import opened Elements
  import opened ChunkCovers
  import opened ChunkCopies
  import opened Coalesce
  import PageCaches

  /** The file, whether a page cache stands in front of it, and the dataset's filter pipeline, undone for one chunk's
      bytes and filter mask. */
  datatype Storage = Storage(file: seq<byte>, paged: bool, decode: (seq<byte>, nat) -> Result<seq<byte>>) {
    function Chunk(record: ChunkRecord): Result<seq<byte>> {
      match SourceRead(file, paged, record.address, record.size)
      case Ok(raw) => decode(raw, record.filterMask)
      case Err(e) => Err(e)
    }
  }

  /** One address, one decode. */
  ghost predicate OneDecode(storage: Storage, chunks: seq<ChunkRecord>) {
    forall i, j :: 0 <= i < |chunks| && 0 <= j < |chunks| && chunks[i].address == chunks[j].address ==>
      storage.Chunk(chunks[i]) == storage.Chunk(chunks[j])
  }

  // ---- the chunk cache ----

  /** Every entry for one of these chunks is that chunk, decoded. */
  ghost predicate Coherent(entries: map<nat, seq<byte>>, storage: Storage, chunks: seq<ChunkRecord>) {
    forall i :: 0 <= i < |chunks| && chunks[i].address in entries ==> storage.Chunk(chunks[i]) == Ok(entries[chunks[i].address])
  }

  lemma {:induction false} StillCoherent(m: map<nat, seq<byte>>, dropped: set<nat>, storage: Storage, chunks: seq<ChunkRecord>)
    requires Coherent(m, storage, chunks)
    ensures Coherent(m - dropped, storage, chunks)
  {
  }

  lemma {:induction false} InsertCoherent(m: map<nat, seq<byte>>, i: nat, bytes: seq<byte>, storage: Storage, chunks: seq<ChunkRecord>)
    requires Coherent(m, storage, chunks) && OneDecode(storage, chunks)
    requires i < |chunks| && storage.Chunk(chunks[i]) == Ok(bytes)
    ensures Coherent(m[chunks[i].address := bytes], storage, chunks)
  {
  }

  /** A concurrent cache of decoded chunks: any entry may be gone by the next time it is looked at. */
  class ChunkCache {
    var entries: map<nat, seq<byte>>
    const readahead: nat
    const evictions: Evictions
    var clock: nat

    constructor (readahead: nat, evictions: Evictions)
      ensures entries == map[] && clock == 0 && this.readahead == readahead && this.evictions == evictions
    {
      entries := map[];
      clock := 0;
      this.readahead := readahead;
      this.evictions := evictions;
    }

    ghost function DroppedSince(from: nat): set<nat>
      reads this
    {
      Dropped(evictions, from, clock)
    }

    method Evict()
      modifies this
      ensures entries == old(entries) - evictions(old(clock)) && clock == old(clock) + 1
    {
      entries := entries - evictions(clock);
      clock := clock + 1;
    }

    method Contains(address: nat) returns (held: bool)
      modifies this
      ensures entries == old(entries) - evictions(old(clock)) && clock == old(clock) + 1
      ensures held <==> address in entries
    {
      Evict();
      held := address in entries;
    }

    method Get(address: nat) returns (hit: Option<seq<byte>>)
      modifies this
      ensures entries == old(entries) - evictions(old(clock)) && clock == old(clock) + 1
      ensures hit == if address in entries then Some(entries[address]) else None
    {
      Evict();
      hit := if address in entries then Some(entries[address]) else None;
    }

    method Insert(address: nat, bytes: seq<byte>)
      modifies this
      ensures entries == old(entries)[address := bytes] - evictions(old(clock)) && clock == old(clock) + 1
    {
      entries := entries[address := bytes];
      Evict();
    }

    /** A hit is the chunk itself. */
    method Lookup(ghost storage: Storage, ghost chunks: seq<ChunkRecord>, ghost i: nat, address: nat) returns (hit: Option<seq<byte>>)
      requires i < |chunks| && address == chunks[i].address && Coherent(entries, storage, chunks)
      modifies this
      ensures Coherent(entries, storage, chunks)
      ensures entries == old(entries) - evictions(old(clock)) && clock == old(clock) + 1
      ensures hit.Some? <==> address in entries
      ensures hit.Some? ==> storage.Chunk(chunks[i]) == Ok(hit.value)
    {
      StillCoherent(entries, evictions(clock), storage, chunks);
      hit := Get(address);
    }

    /** Keep a decoded chunk. */
    method Remember(ghost storage: Storage, chunks: seq<ChunkRecord>, i: nat, bytes: seq<byte>)
      requires i < |chunks| && storage.Chunk(chunks[i]) == Ok(bytes)
      requires OneDecode(storage, chunks) && Coherent(entries, storage, chunks)
      modifies this
      ensures Coherent(entries, storage, chunks)
      ensures entries.Keys == old(entries.Keys) + {chunks[i].address} - evictions(old(clock)) && clock == old(clock) + 1
    {
      hide Coherent;
      hide OneDecode;
      InsertCoherent(entries, i, bytes, storage, chunks);
      StillCoherent(entries[chunks[i].address := bytes], evictions(clock), storage, chunks);
      Insert(chunks[i].address, bytes);
    }

    /** Fetch a decoded chunk, decoding it on a miss; an error is not cached. */
    method GetOrDecode(storage: Storage, chunks: seq<ChunkRecord>, i: nat, record: ChunkRecord, pages: PageCaches.IoCache?)
      returns (r: Result<seq<byte>>)
      requires i < |chunks| && record == chunks[i] && OneDecode(storage, chunks) && Coherent(entries, storage, chunks)
      requires storage.paged == (pages != null) && PageCaches.PagesOk(pages, storage.file)
      modifies this, pages
      ensures Coherent(entries, storage, chunks) && PageCaches.PagesOk(pages, storage.file)
      ensures r == storage.Chunk(record)
      ensures r.Ok? ==> record.address in entries || record.address in DroppedSince(old(clock))
    {
      hide Coherent;
      var hit := Lookup(storage, chunks, i, record.address);
      if hit.Some? {
        return Ok(hit.value);
      }
      r := ReadChunk(storage, record, pages);
      if r.Ok? {
        Remember(storage, chunks, i, r.value);
      }
    }
  }

  /** Read a chunk's bytes and undo its filters. */
  method ReadChunk(storage: Storage, record: ChunkRecord, pages: PageCaches.IoCache?) returns (r: Result<seq<byte>>)
    requires storage.paged == (pages != null) && PageCaches.PagesOk(pages, storage.file)
    modifies pages
    ensures PageCaches.PagesOk(pages, storage.file)
    ensures r == storage.Chunk(record)
  {
    var raw := PageCaches.ReadAt(storage.file, pages, record.address, record.size);
    if raw.Err? {
      return Err(raw.error);
    }
    return storage.decode(raw.value, record.filterMask);
  }

  // ---- what a read must produce ----

  /** The chunk grid, the selection and the element width of one read. A chunk shape whose element count does not fit
      64 bits is refused for its length, unless the elements are at most one byte wide. */
  datatype Job = Job(chunkShape: seq<nat>, slab: Hyperslab, width: nat) {
    ghost predicate Valid() {
      |chunkShape| == |slab.start| == |slab.count| > 0
      && (forall a :: 0 <= a < |chunkShape| ==> slab.start[a] + slab.count[a] <= U64_MAX)
      && Product(slab.count) <= U64_MAX && (Product(chunkShape) <= U64_MAX || width > 1)
    }

    function Total(): nat {
      Product(slab.count)
    }

    /** Bytes one chunk must decode to. */
    function ChunkLen(): nat {
      Mul(Product(chunkShape), width)
    }

    predicate Touches(record: ChunkRecord)
      requires |chunkShape| == |slab.start| == |slab.count|
    {
      |record.offset| == |chunkShape| && Intersects(record.offset, chunkShape, slab)
    }
  }

  predicate Readable(storage: Storage, record: ChunkRecord, job: Job) {
    storage.Chunk(record).Ok? && job.ChunkLen() <= |storage.Chunk(record).value|
  }

  /** The element at `coord`: from the last of the first `n` records that holds it, else `base`. */
  ghost function Value(storage: Storage, chunks: seq<ChunkRecord>, n: nat, job: Job, coord: Index, base: seq<byte>): seq<byte>
    requires n <= |chunks|
  {
    if n == 0 then base
    else if Contains(chunks[n - 1].offset, job.chunkShape, coord) && Readable(storage, chunks[n - 1], job) then
      ChunkElement(storage.Chunk(chunks[n - 1]).value, chunks[n - 1].offset, job.chunkShape, coord, job.width)
    else Value(storage, chunks, n - 1, job, coord, base)
  }

  ghost predicate PaintedAt(was: seq<byte>, now: seq<byte>, storage: Storage, chunks: seq<ChunkRecord>, n: nat, job: Job, d: nat)
    requires job.Valid() && n <= |chunks| && d < job.Total() && |now| == |was| == Mul(job.Total(), job.width)
  {
    HasLess(was, 0, d, job.Total(), job.width);
    Element(now, d, job.width)
    == Value(storage, chunks, n, job, job.slab.CoordOf(d), Element(was, d, job.width))
  }

  /** Every output element is the value of its coordinate over the first `n` records. */
  ghost predicate Painted(was: seq<byte>, now: seq<byte>, storage: Storage, chunks: seq<ChunkRecord>, n: nat, job: Job)
    requires job.Valid() && n <= |chunks| && |was| == Mul(job.Total(), job.width)
  {
    |now| == |was| && forall d :: 0 <= d < job.Total() ==> PaintedAt(was, now, storage, chunks, n, job, d)
  }

  lemma {:induction false} NothingPainted(was: seq<byte>, storage: Storage, chunks: seq<ChunkRecord>, job: Job)
    requires job.Valid() && |was| == Mul(job.Total(), job.width)
    ensures Painted(was, was, storage, chunks, 0, job)
  {
  }

  /** Copying a record's chunk moves the painting past that record. */
  lemma {:induction false} PaintOne(was: seq<byte>, now: seq<byte>, next: seq<byte>, storage: Storage, chunks: seq<ChunkRecord>, n: nat, job: Job)
    requires job.Valid() && n < |chunks| && |was| == Mul(job.Total(), job.width)
    requires Painted(was, now, storage, chunks, n, job) && Readable(storage, chunks[n], job)
    requires ChunkCopied(now, next, storage.Chunk(chunks[n]).value, chunks[n].offset, job.chunkShape, job.slab, job.width)
    ensures Painted(was, next, storage, chunks, n + 1, job)
  {
    hide Mul;
    hide Product;
    var m := n + 1;
    forall d | 0 <= d < job.Total() ensures PaintedAt(was, next, storage, chunks, m, job, d) {
      HasLess(was, 0, d, job.Total(), job.width);
      assert PaintedAt(was, now, storage, chunks, n, job, d);
      assert ElementCopied(now, next, storage.Chunk(chunks[n]).value, chunks[n].offset, job.chunkShape, job.slab, job.width, d);
    }
  }

  /** Records that do not touch the selection change nothing. */
  lemma {:induction false} PaintSkipped(was: seq<byte>, now: seq<byte>, storage: Storage, chunks: seq<ChunkRecord>, n: nat, m: nat, job: Job)
    requires job.Valid() && n <= m <= |chunks| && |was| == Mul(job.Total(), job.width)
    requires Painted(was, now, storage, chunks, n, job)
    requires forall i :: n <= i < m ==> !job.Touches(chunks[i])
    ensures Painted(was, now, storage, chunks, m, job)
    decreases m - n
  {
    if n < m {
      var k := n + 1;
      forall d | 0 <= d < job.Total() ensures PaintedAt(was, now, storage, chunks, k, job, d) {
        assert PaintedAt(was, now, storage, chunks, n, job, d);
        if |chunks[n].offset| == |job.chunkShape| {
          IntersectsIsShared(chunks[n].offset, job.chunkShape, job.slab);
        }
      }
      PaintSkipped(was, now, storage, chunks, k, m, job);
    }
  }

  // ---- which chunks a read touches ----

  ghost predicate IsNeeded(needed: seq<nat>, chunks: seq<ChunkRecord>, n: nat, job: Job)
    requires job.Valid() && n <= |chunks|
  {
    (forall k :: 0 <= k < |needed| ==> needed[k] < n && job.Touches(chunks[needed[k]]))
    && (forall i :: 0 <= i < n && job.Touches(chunks[i]) ==> i in needed)
    && forall j, k :: 0 <= j < k < |needed| ==> needed[j] < needed[k]
  }

  /** The record the loop over `needed` reaches next. */
  ghost function Next(needed: seq<nat>, k: nat, count: nat): nat {
    if k < |needed| then needed[k] else count
  }

  lemma {:induction false} Gap(needed: seq<nat>, chunks: seq<ChunkRecord>, k: nat, job: Job)
    requires job.Valid() && IsNeeded(needed, chunks, |chunks|, job) && k <= |needed|
    ensures var from := if k == 0 then 0 else needed[k - 1] + 1;
            from <= Next(needed, k, |chunks|) <= |chunks|
            && forall i :: from <= i < Next(needed, k, |chunks|) ==> !job.Touches(chunks[i])
  {
    var from := if k == 0 then 0 else needed[k - 1] + 1;
    forall j | 0 <= j < |needed| ensures needed[j] < from || Next(needed, k, |chunks|) <= needed[j] {
      assert j < k ==> j == k - 1 || needed[j] < needed[k - 1];
      assert j > k ==> needed[k] < needed[j];
    }
  }

  /** The records among the first `n` that the selection touches, in order. */
  ghost function Touched(chunks: seq<ChunkRecord>, n: nat, job: Job): seq<nat>
    requires job.Valid() && n <= |chunks|
  {
    if n == 0 then [] else Touched(chunks, n - 1, job) + if job.Touches(chunks[n - 1]) then [n - 1] else []
  }

  lemma {:induction false} TouchedAre(chunks: seq<ChunkRecord>, n: nat, job: Job)
    requires job.Valid() && n <= |chunks|
    ensures IsNeeded(Touched(chunks, n, job), chunks, n, job)
  {
    if n > 0 {
      TouchedAre(chunks, n - 1, job);
      NeedMore(Touched(chunks, n - 1, job), chunks, n - 1, job);
    }
  }

  lemma {:induction false} NeedMore(needed: seq<nat>, chunks: seq<ChunkRecord>, i: nat, job: Job)
    requires job.Valid() && i < |chunks| && IsNeeded(needed, chunks, i, job)
    ensures IsNeeded(needed + if job.Touches(chunks[i]) then [i] else [], chunks, i + 1, job)
  {
    hide Intersects;
  }

  /** The synchronous engine refuses an index with a record of the wrong rank; the asynchronous one passes over it. */
  method Needed(chunks: seq<ChunkRecord>, job: Job, strict: bool) returns (r: Result<seq<nat>>)
    requires job.Valid()
    ensures r.Ok? ==> r.value == Touched(chunks, |chunks|, job) && IsNeeded(r.value, chunks, |chunks|, job)
    ensures r.Ok? <==> !strict || forall i :: 0 <= i < |chunks| ==> |chunks[i].offset| == |job.chunkShape|
  {
    hide Intersects;
    hide IsNeeded;
    var needed: seq<nat> := [];
    TouchedAre(chunks, 0, job);
    for i := 0 to |chunks|
      invariant needed == Touched(chunks, i, job) && IsNeeded(needed, chunks, i, job)
      invariant strict ==> forall j :: 0 <= j < i ==> |chunks[j].offset| == |job.chunkShape|
    {
      NeedMore(needed, chunks, i, job);
      if |chunks[i].offset| != |job.chunkShape| {
        if strict {
          return Err(Malformed);
        }
      } else if Intersects(chunks[i].offset, job.chunkShape, job.slab) {
        needed := needed + [i];
      }
    }
    return Ok(needed);
  }

  // ---- what a batch fetches ----

  /** The record's bytes lie in the file, or it has none. */
  ghost predicate IsStored(storage: Storage, record: ChunkRecord) {
    record.size != 0 ==> record.address + record.size <= |storage.file|
  }

  predicate AllBelow(list: seq<nat>, count: nat) {
    forall k :: 0 <= k < |list| ==> list[k] < count
  }

  /** The needed records, then the `readahead` records after the last of them. */
  function Candidates(needed: seq<nat>, readahead: nat, count: nat): (s: seq<nat>)
    requires AllBelow(needed, count)
    ensures AllBelow(s, count)
  {
    if needed == [] then []
    else
      var next := needed[|needed| - 1] + 1;
      var more := Min(next + readahead, count) - next;
      needed + seq(more, i requires 0 <= i < more => next + i)
  }

  const NoEvictions: Evictions := t => {}

  /** A chunk cache when a read begins: what it holds, and what it drops from then on. */
  datatype CacheState = CacheState(keys: set<nat>, evictions: Evictions, clock: nat, readahead: nat) {
    /** An entry held at the start is still there after so many ticks. */
    ghost predicate Keeps(address: nat, ticks: nat) {
      address in keys && address !in Dropped(evictions, clock, clock + ticks)
    }
  }

  const NoCache := CacheState({}, NoEvictions, 0, 0)

  ghost function StateOf(cache: ChunkCache?): CacheState
    reads cache
  {
    if cache == null then NoCache else CacheState(cache.entries.Keys, cache.evictions, cache.clock, cache.readahead)
  }

  /** The cache is asked once for each of the first `n` candidates that has bytes. */
  ghost function Looks(chunks: seq<ChunkRecord>, candidates: seq<nat>, n: nat): nat
    requires AllBelow(candidates, |chunks|) && n <= |candidates|
  {
    if n == 0 then 0 else Looks(chunks, candidates, n - 1) + if chunks[candidates[n - 1]].size != 0 then 1 else 0
  }

  /** The first `n` candidates that have bytes and that the cache does not hold when it is asked. */
  ghost function Batch(state: CacheState, chunks: seq<ChunkRecord>, candidates: seq<nat>, n: nat): seq<nat>
    requires AllBelow(candidates, |chunks|) && n <= |candidates|
  {
    if n == 0 then []
    else
      var record, look := chunks[candidates[n - 1]], Looks(chunks, candidates, n - 1) + 1;
      Batch(state, chunks, candidates, n - 1)
      + if record.size != 0 && !state.Keeps(record.address, look) then [candidates[n - 1]] else []
  }

  lemma {:induction false} KeepsLess(state: CacheState, address: nat, few: nat, many: nat)
    requires few <= many && state.Keeps(address, many)
    ensures state.Keeps(address, few)
  {
    DroppedSplit(state.evictions, state.clock, state.clock + few, state.clock + many);
  }

  /** What is fetched is a candidate with bytes that is gone from the cache by the end of the planning; what is not
      fetched has none, or was there when the cache was asked. */
  lemma {:induction false} BatchIs(state: CacheState, chunks: seq<ChunkRecord>, candidates: seq<nat>, n: nat)
    requires AllBelow(candidates, |chunks|) && n <= |candidates|
    ensures var list := Batch(state, chunks, candidates, n);
            && (forall i :: i in list ==>
                  && i in candidates && i < |chunks| && chunks[i].size != 0
                  && !state.Keeps(chunks[i].address, Looks(chunks, candidates, n)))
            && (forall c :: 0 <= c < n && chunks[candidates[c]].size != 0 && candidates[c] !in list ==>
                  chunks[candidates[c]].address in state.keys)
  {
    if n > 0 {
      var m := n - 1;
      BatchIs(state, chunks, candidates, m);
      var list, few, many := Batch(state, chunks, candidates, m), Looks(chunks, candidates, m), Looks(chunks, candidates, n);
      forall i | i in list ensures !state.Keeps(chunks[i].address, many) {
        if state.Keeps(chunks[i].address, many) {
          KeepsLess(state, chunks[i].address, few, many);
        }
      }
      assert candidates[m] in candidates;
    }
  }

  /** The chunks to fetch: those needed and a few after the last of them, less the unwritten and the held. */
  method Wanted(chunks: seq<ChunkRecord>, needed: seq<nat>, readahead: nat, cache: ChunkCache?, ghost storage: Storage)
    returns (wanted: seq<nat>)
    requires AllBelow(needed, |chunks|)
    requires cache != null ==> Coherent(cache.entries, storage, chunks)
    modifies cache
    ensures var candidates := Candidates(needed, readahead, |chunks|);
            wanted == Batch(old(StateOf(cache)), chunks, candidates, |candidates|)
    ensures forall k :: 0 <= k < |wanted| ==> wanted[k] < |chunks| && chunks[wanted[k]].size != 0
    ensures cache != null ==>
              && Coherent(cache.entries, storage, chunks)
              && cache.entries == old(cache.entries) - cache.DroppedSince(old(cache.clock))
              && var candidates := Candidates(needed, readahead, |chunks|);
                 cache.clock == old(cache.clock) + Looks(chunks, candidates, |candidates|)
  {
    hide Coherent;
    hide Dropped;
    hide Batch;
    hide Looks;
    hide Candidates;
    hide CacheState.Keeps;
    ghost var state := StateOf(cache);
    wanted := [];
    var candidates := Candidates(needed, readahead, |chunks|);
    DroppedNone(state.evictions, state.clock);
    BatchNone(state, chunks, candidates);
    for k := 0 to |candidates|
      invariant wanted == Batch(state, chunks, candidates, k)
      invariant cache != null ==>
        && Coherent(cache.entries, storage, chunks)
        && cache.clock == state.clock + Looks(chunks, candidates, k)
        && cache.entries == old(cache.entries) - Dropped(state.evictions, state.clock, cache.clock)
    {
      var i := candidates[k];
      BatchMore(state, chunks, candidates, k);
      if chunks[i].size == 0 {
        continue;
      }
      if cache != null {
        StillCoherent(cache.entries, cache.evictions(cache.clock), storage, chunks);
        DroppedNext(cache.evictions, state.clock, cache.clock);
        var found := cache.Contains(chunks[i].address);
        KeepsIs(state, chunks[i].address, cache.entries.Keys, cache.clock - state.clock);
        if found {
          continue;
        }
      } else {
        KeepsIs(state, chunks[i].address, {}, Looks(chunks, candidates, k) + 1);
      }
      wanted := wanted + [i];
    }
    BatchIs(state, chunks, candidates, |candidates|);
    forall k | 0 <= k < |wanted| ensures wanted[k] < |chunks| && chunks[wanted[k]].size != 0 {
      assert wanted[k] in wanted;
    }
  }

  lemma {:induction false} KeepsIs(state: CacheState, address: nat, now: set<nat>, ticks: nat)
    requires now == state.keys - Dropped(state.evictions, state.clock, state.clock + ticks)
    ensures state.Keeps(address, ticks) <==> address in now
  {
  }

  lemma {:induction false} BatchNone(state: CacheState, chunks: seq<ChunkRecord>, candidates: seq<nat>)
    requires AllBelow(candidates, |chunks|)
    ensures Batch(state, chunks, candidates, 0) == [] && Looks(chunks, candidates, 0) == 0
  {
  }

  lemma {:induction false} BatchMore(state: CacheState, chunks: seq<ChunkRecord>, candidates: seq<nat>, k: nat)
    requires AllBelow(candidates, |chunks|) && k < |candidates|
    ensures var record, looks, list := chunks[candidates[k]], Looks(chunks, candidates, k), Batch(state, chunks, candidates, k);
            && Looks(chunks, candidates, k + 1) == (if record.size == 0 then looks else looks + 1)
            && Batch(state, chunks, candidates, k + 1)
               == if record.size == 0 || state.Keeps(record.address, looks + 1) then list else list + [candidates[k]]
  {
  }

  /** The stored bytes of a batch, in one fetch. */
  method FetchWanted(storage: Storage, chunks: seq<ChunkRecord>, wanted: seq<nat>, pages: PageCaches.IoCache?, config: IoConfig)
    returns (r: Result<seq<seq<byte>>>)
    requires forall k :: 0 <= k < |wanted| ==> wanted[k] < |chunks| && chunks[wanted[k]].size != 0
    requires PageCaches.PagesOk(pages, storage.file)
    modifies pages
    ensures PageCaches.PagesOk(pages, storage.file)
    ensures r.Ok? <==> forall k :: 0 <= k < |wanted| ==> IsStored(storage, chunks[wanted[k]])
    ensures r.Ok? ==> |r.value| == |wanted| && forall k :: 0 <= k < |wanted| ==>
              storage.Chunk(chunks[wanted[k]]) == storage.decode(r.value[k], chunks[wanted[k]].filterMask)
  {
    var ranges := seq(|wanted|, k requires 0 <= k < |wanted| && wanted[k] < |chunks| =>
      Range(chunks[wanted[k]].address, chunks[wanted[k]].size));
    StoredRanges(storage, chunks, wanted, ranges, pages != null);
    r := PageCaches.FetchBytes(storage.file, pages, ranges, config);
    if r.Ok? {
      forall k | 0 <= k < |wanted|
        ensures storage.Chunk(chunks[wanted[k]]) == storage.decode(r.value[k], chunks[wanted[k]].filterMask)
      {
        assert Ok(r.value[k]) == BytesOf(ranges[k], storage.file);
      }
    }
  }

  lemma {:induction false} StoredRanges(storage: Storage, chunks: seq<ChunkRecord>, wanted: seq<nat>, ranges: seq<Range>, paged: bool)
    requires |ranges| == |wanted| && forall k :: 0 <= k < |wanted| ==> wanted[k] < |chunks| && chunks[wanted[k]].size != 0
    requires forall k :: 0 <= k < |wanted| ==> ranges[k] == Range(chunks[wanted[k]].address, chunks[wanted[k]].size)
    ensures Answerable(ranges, |storage.file|, paged) <==> forall k :: 0 <= k < |wanted| ==> IsStored(storage, chunks[wanted[k]])
  {
    forall k | 0 <= k < |wanted|
      ensures ranges[k].len > 0
      ensures IsStored(storage, chunks[wanted[k]]) <==> ranges[k].offset + ranges[k].len <= |storage.file|
    {
    }
    if ranges != [] {
      assert IsStored(storage, chunks[wanted[0]]) ==> ranges[0].offset <= |storage.file|;
    }
  }

  /** Fetch and decode ahead of the copy loop. A chunk that fails to decode here is left for the loop to report. */
  method Prefetch(storage: Storage, chunks: seq<ChunkRecord>, needed: seq<nat>, cache: ChunkCache, pages: PageCaches.IoCache?, config: IoConfig)
    returns (r: Result<()>, ghost wanted: seq<nat>)
    requires AllBelow(needed, |chunks|)
    requires OneDecode(storage, chunks) && Coherent(cache.entries, storage, chunks)
    requires PageCaches.PagesOk(pages, storage.file)
    modifies cache, pages
    ensures Coherent(cache.entries, storage, chunks) && PageCaches.PagesOk(pages, storage.file)
    ensures var candidates := Candidates(needed, cache.readahead, |chunks|);
            wanted == Batch(old(StateOf(cache)), chunks, candidates, |candidates|)
    ensures r.Ok? <==> BatchStored(storage, chunks, wanted)
    // Every fetched chunk that decodes is cached afterwards, or was dropped at once.
    ensures r.Ok? ==> AllCached(storage, chunks, wanted, |wanted|, cache.entries.Keys + cache.DroppedSince(old(cache.clock)))
  {
    hide Coherent;
    hide Batch;
    hide Candidates;
    hide AllCached;
    hide Dropped;
    hide OneDecode;
    var list := Wanted(chunks, needed, cache.readahead, cache, storage);
    wanted := list;
    NoneCached(storage, chunks, list, cache.entries.Keys + cache.DroppedSince(old(cache.clock)));
    if |list| == 0 {
      return Ok(()), wanted;
    }
    var blobs := FetchWanted(storage, chunks, list, pages, config);
    if blobs.Err? {
      return Err(blobs.error), wanted;
    }
    NoneCached(storage, chunks, list, cache.entries.Keys + cache.DroppedSince(old(cache.clock)));
    for k := 0 to |list|
      invariant PageCaches.PagesOk(pages, storage.file)
      invariant Coherent(cache.entries, storage, chunks)
      invariant cache.clock >= old(cache.clock)
      invariant AllCached(storage, chunks, list, k, cache.entries.Keys + cache.DroppedSince(old(cache.clock)))
    {
      var decoded := storage.decode(blobs.value[k], chunks[list[k]].filterMask);
      if decoded.Ok? {
        CacheOne(storage, chunks, list, k, cache.entries.Keys, cache.evictions, old(cache.clock), cache.clock);
        cache.Remember(storage, chunks, list[k], decoded.value);
      } else {
        CacheSkip(storage, chunks, list, k, cache.entries.Keys + cache.DroppedSince(old(cache.clock)));
      }
    }
    return Ok(()), wanted;
  }

  /** The first `n` chunks of the list that decode are at addresses in `keys`. */
  ghost predicate AllCached(storage: Storage, chunks: seq<ChunkRecord>, list: seq<nat>, n: nat, keys: set<nat>) {
    forall k :: 0 <= k < n && k < |list| && list[k] < |chunks| && storage.Chunk(chunks[list[k]]).Ok? ==>
      chunks[list[k]].address in keys
  }

  lemma {:induction false} NoneCached(storage: Storage, chunks: seq<ChunkRecord>, list: seq<nat>, keys: set<nat>)
    ensures AllCached(storage, chunks, list, 0, keys) && (|list| == 0 ==> AllCached(storage, chunks, list, |list|, keys))
  {
  }

  lemma {:induction false} CacheOne(storage: Storage, chunks: seq<ChunkRecord>, list: seq<nat>, k: nat, keys: set<nat>,
                                    evictions: Evictions, from: nat, clock: nat)
    requires from <= clock && AllCached(storage, chunks, list, k, keys + Dropped(evictions, from, clock))
    requires k < |list| && list[k] < |chunks|
    ensures AllCached(storage, chunks, list, k + 1,
                      (keys + {chunks[list[k]].address} - evictions(clock)) + Dropped(evictions, from, clock + 1))
  {
    hide Dropped;
    DroppedNext(evictions, from, clock);
  }

  lemma {:induction false} CacheSkip(storage: Storage, chunks: seq<ChunkRecord>, list: seq<nat>, k: nat, keys: set<nat>)
    requires AllCached(storage, chunks, list, k, keys) && k < |list| && list[k] < |chunks| && storage.Chunk(chunks[list[k]]).Err?
    ensures AllCached(storage, chunks, list, k + 1, keys)
  {
  }

  // ---- the engines ----

  /** Every chunk the selection touches decodes to a whole chunk. */
  ghost predicate AllReadable(storage: Storage, chunks: seq<ChunkRecord>, job: Job)
    requires job.Valid()
  {
    forall i :: 0 <= i < |chunks| && job.Touches(chunks[i]) ==> Readable(storage, chunks[i], job)
  }

  ghost predicate BatchStored(storage: Storage, chunks: seq<ChunkRecord>, list: seq<nat>) {
    forall k :: 0 <= k < |list| && list[k] < |chunks| ==> IsStored(storage, chunks[list[k]])
  }

  ghost predicate AllRanked(chunks: seq<ChunkRecord>, job: Job) {
    forall i :: 0 <= i < |chunks| ==> |chunks[i].offset| == |job.chunkShape|
  }

  /** Record `i` comes after the last touched one, by at most `readahead`. */
  ghost predicate Ahead(chunks: seq<ChunkRecord>, job: Job, readahead: nat, i: nat)
    requires job.Valid()
  {
    exists l: nat :: LastTouched(chunks, job, l) && l < i <= l + readahead
  }

  ghost predicate LastTouched(chunks: seq<ChunkRecord>, job: Job, l: nat)
    requires job.Valid()
  {
    l < |chunks| && job.Touches(chunks[l]) && forall j :: l < j < |chunks| ==> !job.Touches(chunks[j])
  }

  ghost predicate Reached(chunks: seq<ChunkRecord>, job: Job, readahead: nat, i: nat)
    requires job.Valid()
  {
    i < |chunks| && (job.Touches(chunks[i]) || Ahead(chunks, job, readahead, i))
  }

  ghost predicate AheadStored(storage: Storage, chunks: seq<ChunkRecord>, job: Job, readahead: nat)
    requires job.Valid()
  {
    forall i :: 0 <= i < |chunks| && Ahead(chunks, job, readahead, i) ==> IsStored(storage, chunks[i])
  }

  ghost function CandidatesOf(state: CacheState, chunks: seq<ChunkRecord>, job: Job): (s: seq<nat>)
    requires job.Valid()
    ensures AllBelow(s, |chunks|)
  {
    TouchedAre(chunks, |chunks|, job);
    Candidates(Touched(chunks, |chunks|, job), state.readahead, |chunks|)
  }

  /** The chunks that a read fetches in one batch, given the cache it begins with. */
  ghost function BatchOf(state: CacheState, chunks: seq<ChunkRecord>, job: Job): seq<nat>
    requires job.Valid()
  {
    var candidates := CandidatesOf(state, chunks, job);
    Batch(state, chunks, candidates, |candidates|)
  }

  /** The candidates of a batch are the touched records and the read-ahead window. */
  lemma {:induction false} CandidateIsReached(state: CacheState, chunks: seq<ChunkRecord>, job: Job, i: nat)
    requires job.Valid() && i < |chunks|
    ensures i in CandidatesOf(state, chunks, job) <==> Reached(chunks, job, state.readahead, i)
  {
    hide Intersects;
    TouchedAre(chunks, |chunks|, job);
    var needed, candidates := Touched(chunks, |chunks|, job), CandidatesOf(state, chunks, job);
    if needed != [] {
      var l := needed[|needed| - 1];
      LastOfNeeded(needed, chunks, job);
      if i in needed {
        var k :| 0 <= k < |needed| && needed[k] == i;
        assert candidates[k] == i;
      } else if l < i <= l + state.readahead {
        assert candidates[|needed| + (i - (l + 1))] == i;
      }
    }
  }

  lemma {:induction false} LastOfNeeded(needed: seq<nat>, chunks: seq<ChunkRecord>, job: Job)
    requires job.Valid() && IsNeeded(needed, chunks, |chunks|, job) && needed != []
    ensures LastTouched(chunks, job, needed[|needed| - 1])
  {
    forall k | 0 <= k < |needed| ensures needed[k] <= needed[|needed| - 1] {
      assert k < |needed| - 1 ==> needed[k] < needed[|needed| - 1];
    }
  }

  /** A batch lies in the file if every touched chunk is readable and the read-ahead window lies in it; from a cache that
      holds nothing, only then. */
  lemma {:induction false} BatchInFile(state: CacheState, storage: Storage, chunks: seq<ChunkRecord>, job: Job)
    requires job.Valid() && AllReadable(storage, chunks, job)
    ensures AheadStored(storage, chunks, job, state.readahead) ==> BatchStored(storage, chunks, BatchOf(state, chunks, job))
    ensures state.keys == {} && BatchStored(storage, chunks, BatchOf(state, chunks, job)) ==>
              AheadStored(storage, chunks, job, state.readahead)
  {
    hide Batch;
    hide Ahead;
    var candidates, list := CandidatesOf(state, chunks, job), BatchOf(state, chunks, job);
    BatchIs(state, chunks, candidates, |candidates|);
    forall i | 0 <= i < |chunks| ensures i in candidates <==> Reached(chunks, job, state.readahead, i) {
      CandidateIsReached(state, chunks, job, i);
    }
    if AheadStored(storage, chunks, job, state.readahead) {
      forall k | 0 <= k < |list| && list[k] < |chunks| ensures IsStored(storage, chunks[list[k]]) {
        assert list[k] in list;
        assert job.Touches(chunks[list[k]]) ==> Readable(storage, chunks[list[k]], job);
      }
    }
    if state.keys == {} && BatchStored(storage, chunks, list) {
      forall i | 0 <= i < |chunks| && Ahead(chunks, job, state.readahead, i) ensures IsStored(storage, chunks[i]) {
        assert Reached(chunks, job, state.readahead, i) && i in candidates;
        var c :| 0 <= c < |candidates| && candidates[c] == i;
        if chunks[i].size != 0 {
          var k :| 0 <= k < |list| && list[k] == i;
        }
      }
    }
  }

  /** How many bytes one chunk decodes to, refused when it exceeds the address space. The element count saturates, which
      shows only where more than 2^64 elements of at most one byte pass for a chunk of that many. */
  method DecodedChunkLen(job: Job) returns (r: Result<nat>)
    ensures Product(job.chunkShape) <= U64_MAX || job.width > 1 ==>
              r == if job.ChunkLen() <= U64_MAX then Ok(job.ChunkLen()) else Err(Malformed)
    ensures Product(job.chunkShape) > U64_MAX && job.width <= 1 ==> r == Ok(Mul(U64_MAX, job.width))
  {
    hide Mul;
    var cells := ElementCount(job.chunkShape);
    MulIs(cells, job.width);
    if Product(job.chunkShape) <= U64_MAX || job.width > 1 {
      LongChunk(Product(job.chunkShape), job.width);
    } else {
      MulComm(U64_MAX, job.width);
      MulLe(job.width, 1, U64_MAX);
      MulIs(1, U64_MAX);
    }
    r := if cells * job.width <= U64_MAX then Ok(cells * job.width) else Err(Malformed);
  }

  lemma {:induction false} LongChunk(cells: nat, width: nat)
    requires cells <= U64_MAX || width > 1
    ensures Mul(Min(cells, U64_MAX), width) <= U64_MAX <==> Mul(cells, width) <= U64_MAX
    ensures Mul(cells, width) <= U64_MAX ==> cells <= U64_MAX
  {
    hide Mul;
    if cells > U64_MAX {
      MulComm(U64_MAX, width);
      MulLe(2, width, U64_MAX);
      MulIs(2, U64_MAX);
      MulLe(U64_MAX, cells, width);
    }
  }

  /** The synchronous engine can read everything, and everything it fetches ahead lies in the file. */
  ghost predicate SyncSucceeds(state: CacheState, storage: Storage, chunks: seq<ChunkRecord>, job: Job)
    requires job.Valid()
  {
    job.ChunkLen() <= U64_MAX && AllRanked(chunks, job) && AllReadable(storage, chunks, job)
    && BatchStored(storage, chunks, BatchOf(state, chunks, job))
  }

  /** Without a cache there is no read-ahead, and nothing but the touched chunks matters. */
  lemma {:induction false} SyncUncached(storage: Storage, chunks: seq<ChunkRecord>, job: Job)
    requires job.Valid()
    ensures AllReadable(storage, chunks, job) ==> BatchStored(storage, chunks, BatchOf(NoCache, chunks, job))
    ensures SyncSucceeds(NoCache, storage, chunks, job) <==>
              job.ChunkLen() <= U64_MAX && AllRanked(chunks, job) && AllReadable(storage, chunks, job)
  {
    if AllReadable(storage, chunks, job) {
      BatchInFile(NoCache, storage, chunks, job);
    }
  }

  /** The synchronous engine. Without a cache it succeeds exactly when every touched chunk is readable;
      with one, exactly when no chunk that it fetches ahead lies outside the file either. */
  method ReadChunked(storage: Storage, chunks: seq<ChunkRecord>, job: Job, out: array<byte>, cache: ChunkCache?,
                     pages: PageCaches.IoCache?, config: IoConfig)
    returns (r: Result<()>)
    requires job.Valid() && out.Length == Mul(job.Total(), job.width)
    requires cache != null ==> OneDecode(storage, chunks) && Coherent(cache.entries, storage, chunks)
    requires storage.paged == (pages != null) && PageCaches.PagesOk(pages, storage.file)
    modifies out, cache, pages
    ensures cache != null ==> Coherent(cache.entries, storage, chunks)
    ensures PageCaches.PagesOk(pages, storage.file)
    ensures r.Ok? <==> SyncSucceeds(old(StateOf(cache)), storage, chunks, job)
    ensures cache == null ==>
              (r.Ok? <==> job.ChunkLen() <= U64_MAX && AllRanked(chunks, job) && AllReadable(storage, chunks, job))
    ensures r.Ok? ==> Painted(old(out[..]), out[..], storage, chunks, |chunks|, job)
  {
    hide Mul;
    hide Product;
    hide Painted;
    hide Value;
    hide Coherent;
    hide OneDecode;
    hide Batch;
    hide Candidates;
    hide BatchStored;
    hide AllReadable;
    hide ReadableUpto;
    hide AllCached;
    ghost var was := out[..];
    SyncUncached(storage, chunks, job);
    var dstStrides := Strides(job.slab.count);
    var decodedLen := DecodedChunkLen(job);
    if decodedLen.Err? {
      return Err(decodedLen.error);
    }
    var chunkStrides := Strides(job.chunkShape);
    var needs := Needed(chunks, job, true);
    if needs.Err? {
      return Err(needs.error);
    }
    var needed := needs.value;
    if cache != null {
      var ready, wanted := Prefetch(storage, chunks, needed, cache, pages, config);
      if ready.Err? {
        return Err(ready.error);
      }
    }
    NothingPainted(was, storage, chunks, job);
    NoneReadable(storage, chunks, needed, job);
    Gap(needed, chunks, 0, job);
    PaintSkipped(was, was, storage, chunks, 0, Next(needed, 0, |chunks|), job);
    for k := 0 to |needed|
      invariant cache != null ==> Coherent(cache.entries, storage, chunks)
      invariant PageCaches.PagesOk(pages, storage.file)
      invariant Next(needed, k, |chunks|) <= |chunks|
      invariant ReadableUpto(storage, chunks, needed, k, job)
      invariant Painted(was, out[..], storage, chunks, Next(needed, k, |chunks|), job)
    {
      var record := chunks[needed[k]];
      var decoded;
      if cache != null {
        decoded := cache.GetOrDecode(storage, chunks, needed[k], record, pages);
      } else {
        decoded := ReadChunk(storage, record, pages);
      }
      if decoded.Err? || |decoded.value| < decodedLen.value {
        UnreadableNeeded(needed, k, storage, chunks, job);
      }
      if decoded.Err? {
        return Err(decoded.error);
      }
      if |decoded.value| < decodedLen.value {
        return Err(Malformed);
      }
      ReadableStep(storage, chunks, needed, k, job);
      PaintStep(was, out, decoded.value, storage, chunks, needed, k, job, chunkStrides, dstStrides);
    }
    AllNeeded(needed, storage, chunks, job);
    return Ok(());
  }


  lemma {:induction false} UnreadableNeeded(needed: seq<nat>, k: nat, storage: Storage, chunks: seq<ChunkRecord>, job: Job)
    requires job.Valid() && IsNeeded(needed, chunks, |chunks|, job) && k < |needed| && !Readable(storage, chunks[needed[k]], job)
    ensures !AllReadable(storage, chunks, job)
  {
  }

  /** One turn of the copy loop. */
  method PaintStep(ghost was: seq<byte>, out: array<byte>, decoded: seq<byte>, ghost storage: Storage, chunks: seq<ChunkRecord>,
                   needed: seq<nat>, k: nat, job: Job, chunkStrides: seq<nat>, dstStrides: seq<nat>)
    requires job.Valid() && |was| == out.Length == Mul(job.Total(), job.width)
    requires AreStrides(chunkStrides, job.chunkShape) && AreStrides(dstStrides, job.slab.count)
    requires IsNeeded(needed, chunks, |chunks|, job) && k < |needed|
    requires Painted(was, out[..], storage, chunks, needed[k], job)
    requires storage.Chunk(chunks[needed[k]]) == Ok(decoded) && job.ChunkLen() <= |decoded|
    modifies out
    ensures Next(needed, k + 1, |chunks|) <= |chunks|
    ensures Painted(was, out[..], storage, chunks, Next(needed, k + 1, |chunks|), job)
  {
    hide Mul;
    hide Product;
    hide Painted;
    hide Value;
    hide ChunkCopied;
    ghost var now := out[..];
    ghost var n := needed[k];
    PaintedLength(was, now, storage, chunks, n, job);
    CopyChunk(out, decoded, chunks[needed[k]].offset, job.chunkShape, chunkStrides, job.slab, dstStrides, job.width);
    PaintOne(was, now, out[..], storage, chunks, n, job);
    Gap(needed, chunks, k + 1, job);
    PaintSkipped(was, out[..], storage, chunks, n + 1, Next(needed, k + 1, |chunks|), job);
  }

  lemma {:induction false} PaintedLength(was: seq<byte>, now: seq<byte>, storage: Storage, chunks: seq<ChunkRecord>, n: nat, job: Job)
    requires job.Valid() && n <= |chunks| && |was| == Mul(job.Total(), job.width)
    requires Painted(was, now, storage, chunks, n, job)
    ensures |now| == |was|
  {
  }

  lemma {:induction false} AllNeeded(needed: seq<nat>, storage: Storage, chunks: seq<ChunkRecord>, job: Job)
    requires job.Valid() && IsNeeded(needed, chunks, |chunks|, job)
    requires ReadableUpto(storage, chunks, needed, |needed|, job)
    ensures AllReadable(storage, chunks, job)
  {
  }

  ghost predicate ReadableUpto(storage: Storage, chunks: seq<ChunkRecord>, needed: seq<nat>, n: nat, job: Job) {
    forall j :: 0 <= j < n && j < |needed| && needed[j] < |chunks| ==> Readable(storage, chunks[needed[j]], job)
  }

  lemma {:induction false} NoneReadable(storage: Storage, chunks: seq<ChunkRecord>, needed: seq<nat>, job: Job)
    ensures ReadableUpto(storage, chunks, needed, 0, job)
  {
  }

  lemma {:induction false} ReadableStep(storage: Storage, chunks: seq<ChunkRecord>, needed: seq<nat>, k: nat, job: Job)
    requires ReadableUpto(storage, chunks, needed, k, job) && k < |needed| && needed[k] < |chunks| && Readable(storage, chunks[needed[k]], job)
    ensures ReadableUpto(storage, chunks, needed, k + 1, job)
  {
  }

  // ---- the asynchronous engine ----

  /** The overlap test on the axes an offset has; one of the wrong rank may have more or fewer than the dataset. */
  predicate Overlaps(offset: Index, chunkShape: seq<nat>, slab: Hyperslab)
    requires |chunkShape| == |slab.start| == |slab.count|
  {
    forall a :: 0 <= a < |offset| && a < |chunkShape| ==>
      Max(offset[a], slab.start[a]) < Min(SaturatingAdd(offset[a], chunkShape[a]), slab.start[a] + slab.count[a])
  }

  /** A decode failure at this address fails the read. */
  predicate Fatal(chunks: seq<ChunkRecord>, job: Job, address: nat)
    requires |job.chunkShape| == |job.slab.start| == |job.slab.count|
  {
    exists i :: 0 <= i < |chunks| && chunks[i].address == address && Overlaps(chunks[i].offset, job.chunkShape, job.slab)
  }

  /** Over records of the right rank: some record at the address holds a selected coordinate. */
  lemma {:induction false} FatalIsTouched(chunks: seq<ChunkRecord>, job: Job, address: nat)
    requires job.Valid() && AllRanked(chunks, job)
    ensures Fatal(chunks, job, address) <==>
            exists i :: 0 <= i < |chunks| && chunks[i].address == address && SharesCoordinate(chunks[i], job)
  {
    hide Contains;
    forall i | 0 <= i < |chunks| ensures Overlaps(chunks[i].offset, job.chunkShape, job.slab) <==> SharesCoordinate(chunks[i], job) {
      IntersectsIsShared(chunks[i].offset, job.chunkShape, job.slab);
    }
  }

  ghost predicate SharesCoordinate(record: ChunkRecord, job: Job) {
    exists coord :: job.slab.Selects(coord) && Contains(record.offset, job.chunkShape, coord)
  }

  /** Every chunk of the batch decodes, unless the read can do without its address. */
  ghost predicate BatchDecodes(storage: Storage, chunks: seq<ChunkRecord>, job: Job, list: seq<nat>, n: nat)
    requires job.Valid()
  {
    forall k :: 0 <= k < n && k < |list| && list[k] < |chunks| ==>
      storage.Chunk(chunks[list[k]]).Ok? || !Fatal(chunks, job, chunks[list[k]].address)
  }

  /** What a cache holds now: what it held and did not drop, and perhaps chunks from the list. */
  ghost predicate Retained(was: set<nat>, now: set<nat>, dropped: set<nat>, chunks: seq<ChunkRecord>, list: seq<nat>, n: nat) {
    was - dropped <= now && forall a :: a in now ==> a in was - dropped || HasAddress(chunks, list, n, a)
  }

  ghost predicate HasAddress(chunks: seq<ChunkRecord>, list: seq<nat>, n: nat, address: nat) {
    exists k :: 0 <= k < n && k < |list| && list[k] < |chunks| && chunks[list[k]].address == address
  }

  /** How many of the first `n` chunks of the list decode, each of which is put into the cache. */
  ghost function Decodes(storage: Storage, chunks: seq<ChunkRecord>, list: seq<nat>, n: nat): nat
    requires n <= |list|
  {
    if n == 0 then 0
    else
      Decodes(storage, chunks, list, n - 1)
      + if list[n - 1] < |chunks| && storage.Chunk(chunks[list[n - 1]]).Ok? then 1 else 0
  }

  // ---- when the asynchronous engine succeeds ----

  /** Ticks of the cache's clock from the start of the read to the first copy: one for each look and each insertion. */
  ghost function Copying(state: CacheState, storage: Storage, chunks: seq<ChunkRecord>, job: Job): nat
    requires job.Valid()
  {
    var candidates, list := CandidatesOf(state, chunks, job), BatchOf(state, chunks, job);
    Looks(chunks, candidates, |candidates|) + Decodes(storage, chunks, list, |list|)
  }

  /** The address of the `k`-th touched chunk. */
  ghost function AddressOf(chunks: seq<ChunkRecord>, job: Job, k: nat): nat
    requires job.Valid() && k < |Touched(chunks, |chunks|, job)|
  {
    TouchedAre(chunks, |chunks|, job);
    chunks[Touched(chunks, |chunks|, job)[k]].address
  }

  ghost predicate InBatch(state: CacheState, chunks: seq<ChunkRecord>, job: Job, address: nat)
    requires job.Valid()
  {
    var list := BatchOf(state, chunks, job);
    HasAddress(chunks, list, |list|, address)
  }

  /** The `k`-th touched chunk is fetched, or the cache held it at the start and still does when its turn comes. */
  ghost predicate ServedAt(state: CacheState, storage: Storage, chunks: seq<ChunkRecord>, job: Job, k: nat)
    requires job.Valid() && k < |Touched(chunks, |chunks|, job)|
  {
    var address := AddressOf(chunks, job, k);
    InBatch(state, chunks, job, address) || state.Keeps(address, Copying(state, storage, chunks, job) + k + 1)
  }

  ghost predicate AllServed(state: CacheState, storage: Storage, chunks: seq<ChunkRecord>, job: Job)
    requires job.Valid()
  {
    forall k :: 0 <= k < |Touched(chunks, |chunks|, job)| ==> ServedAt(state, storage, chunks, job, k)
  }

  /** The batch can be fetched and decoded, every touched chunk is readable, and each is at hand when it is copied. */
  ghost predicate AsyncSucceeds(state: CacheState, storage: Storage, chunks: seq<ChunkRecord>, job: Job)
    requires job.Valid()
  {
    var list := BatchOf(state, chunks, job);
    && job.ChunkLen() <= U64_MAX && BatchStored(storage, chunks, list) && BatchDecodes(storage, chunks, job, list, |list|)
    && AllReadable(storage, chunks, job) && AllServed(state, storage, chunks, job)
  }

  /** Every touched chunk shares its address with one that has bytes to fetch. */
  ghost predicate AllFetched(chunks: seq<ChunkRecord>, job: Job)
    requires job.Valid()
  {
    forall i :: 0 <= i < |chunks| && job.Touches(chunks[i]) ==> FetchedBy(chunks, job, chunks[i].address)
  }

  ghost predicate FetchedBy(chunks: seq<ChunkRecord>, job: Job, address: nat)
    requires job.Valid()
  {
    exists j :: 0 <= j < |chunks| && job.Touches(chunks[j]) && chunks[j].size != 0 && chunks[j].address == address
  }

  /** Decode one batch into the cache and a map of its own. Only a chunk the read needs may fail it. */
  method FetchAndDecode(storage: Storage, chunks: seq<ChunkRecord>, wanted: seq<nat>, job: Job, cache: ChunkCache?,
                        pages: PageCaches.IoCache?, config: IoConfig)
    returns (r: Result<map<nat, seq<byte>>>)
    requires job.Valid() && OneDecode(storage, chunks)
    requires forall k :: 0 <= k < |wanted| ==> wanted[k] < |chunks| && chunks[wanted[k]].size != 0
    requires cache != null ==> Coherent(cache.entries, storage, chunks)
    requires PageCaches.PagesOk(pages, storage.file)
    modifies cache, pages
    ensures PageCaches.PagesOk(pages, storage.file)
    ensures r.Ok? <==> BatchStored(storage, chunks, wanted) && BatchDecodes(storage, chunks, job, wanted, |wanted|)
    ensures r.Ok? ==> Coherent(r.value, storage, chunks)
    ensures r.Ok? ==> forall k :: 0 <= k < |wanted| && storage.Chunk(chunks[wanted[k]]).Ok? ==> chunks[wanted[k]].address in r.value
    ensures r.Ok? ==> Retained({}, r.value.Keys, {}, chunks, wanted, |wanted|)
    ensures cache != null ==> Coherent(cache.entries, storage, chunks)
    ensures r.Ok? && cache != null ==>
              && cache.clock == old(cache.clock) + Decodes(storage, chunks, wanted, |wanted|)
              && Retained(old(cache.entries.Keys), cache.entries.Keys, cache.DroppedSince(old(cache.clock)), chunks, wanted, |wanted|)
    // Every fetched chunk that decodes is cached afterwards, or was dropped at once.
    ensures r.Ok? && cache != null ==>
              AllCached(storage, chunks, wanted, |wanted|, cache.entries.Keys + cache.DroppedSince(old(cache.clock)))
  {
    hide Coherent;
    hide OneDecode;
    hide Fatal;
    hide HasAddress;
    hide Retained;
    hide BatchDecodes;
    hide Fetched;
    ghost var state := StateOf(cache);
    FetchedNone(storage, chunks, wanted);
    KeptNone(state, storage, chunks, wanted);
    var fetched: map<nat, seq<byte>> := map[];
    assert fetched.Keys == {};
    EmptyCoherent(storage, chunks);
    NoneDecoded(storage, chunks, job, wanted);
    if |wanted| == 0 {
      FetchedMeans(fetched.Keys, storage, chunks, wanted);
      KeptMeans(state, StateOf(cache), storage, chunks, wanted);
      return Ok(fetched);
    }
    var blobs := FetchWanted(storage, chunks, wanted, pages, config);
    if blobs.Err? {
      return Err(blobs.error);
    }
    for k := 0 to |wanted|
      invariant PageCaches.PagesOk(pages, storage.file)
      invariant Coherent(fetched, storage, chunks) && Fetched(fetched.Keys, storage, chunks, wanted, k)
      invariant BatchDecodes(storage, chunks, job, wanted, k)
      invariant cache != null ==> Coherent(cache.entries, storage, chunks) && KeptUpto(state, StateOf(cache), storage, chunks, wanted, k)
    {
      hide KeptUpto;
      var record := chunks[wanted[k]];
      var decoded := storage.decode(blobs.value[k], record.filterMask);
      DecodeMore(storage, chunks, job, wanted, k);
      if decoded.Ok? {
        if cache != null {
          KeptAdd(state, StateOf(cache), storage, chunks, wanted, k);
          cache.Remember(storage, chunks, wanted[k], decoded.value);
        }
        InsertCoherent(fetched, wanted[k], decoded.value, storage, chunks);
        FetchedAdd(fetched.Keys, storage, chunks, wanted, k);
        ghost var keys := fetched.Keys;
        fetched := fetched[record.address := decoded.value];
        assert fetched.Keys == keys + {record.address};
      } else {
        if Fatal(chunks, job, record.address) {
          return Err(decoded.error);
        }
        FetchedSkip(fetched.Keys, storage, chunks, wanted, k);
        if cache != null {
          KeptSkip(state, StateOf(cache), storage, chunks, wanted, k);
        }
      }
    }
    FetchedMeans(fetched.Keys, storage, chunks, wanted);
    if cache != null {
      KeptMeans(state, StateOf(cache), storage, chunks, wanted);
    }
    return Ok(fetched);
  }

  lemma {:induction false} NoneDecoded(storage: Storage, chunks: seq<ChunkRecord>, job: Job, list: seq<nat>)
    requires job.Valid()
    ensures BatchDecodes(storage, chunks, job, list, 0) && (|list| == 0 ==> BatchStored(storage, chunks, list))
  {
  }

  lemma {:induction false} DecodeMore(storage: Storage, chunks: seq<ChunkRecord>, job: Job, list: seq<nat>, k: nat)
    requires job.Valid() && BatchDecodes(storage, chunks, job, list, k) && k < |list| && list[k] < |chunks|
    ensures var fine := storage.Chunk(chunks[list[k]]).Ok? || !Fatal(chunks, job, chunks[list[k]].address);
            && (fine ==> BatchDecodes(storage, chunks, job, list, k + 1))
            && (!fine ==> !BatchDecodes(storage, chunks, job, list, |list|))
  {
    hide Fatal;
  }

  /** The keys are the addresses of the first `n` chunks of the list, less some that do not decode. */
  ghost predicate Fetched(keys: set<nat>, storage: Storage, chunks: seq<ChunkRecord>, list: seq<nat>, n: nat) {
    Retained({}, keys, {}, chunks, list, n) && AllCached(storage, chunks, list, n, keys)
  }

  lemma {:induction false} FetchedNone(storage: Storage, chunks: seq<ChunkRecord>, list: seq<nat>)
    ensures Fetched({}, storage, chunks, list, 0)
  {
  }

  lemma {:induction false} FetchedAdd(keys: set<nat>, storage: Storage, chunks: seq<ChunkRecord>, list: seq<nat>, k: nat)
    requires Fetched(keys, storage, chunks, list, k) && k < |list| && list[k] < |chunks|
    ensures Fetched(keys + {chunks[list[k]].address}, storage, chunks, list, k + 1)
  {
    hide Retained;
    RetainAdd({}, keys, {}, chunks, list, k);
    var more := keys + {chunks[list[k]].address};
    forall j | 0 <= j < k + 1 && list[j] < |chunks| && storage.Chunk(chunks[list[j]]).Ok? ensures chunks[list[j]].address in more {
    }
  }

  lemma {:induction false} FetchedSkip(keys: set<nat>, storage: Storage, chunks: seq<ChunkRecord>, list: seq<nat>, k: nat)
    requires Fetched(keys, storage, chunks, list, k) && k < |list| && list[k] < |chunks| && storage.Chunk(chunks[list[k]]).Err?
    ensures Fetched(keys, storage, chunks, list, k + 1)
  {
    hide HasAddress;
    AddressStep(chunks, list, k);
  }

  lemma {:induction false} FetchedMeans(keys: set<nat>, storage: Storage, chunks: seq<ChunkRecord>, list: seq<nat>)
    requires Fetched(keys, storage, chunks, list, |list|) && AllBelow(list, |chunks|)
    ensures Retained({}, keys, {}, chunks, list, |list|)
    ensures forall k :: 0 <= k < |list| && storage.Chunk(chunks[list[k]]).Ok? ==> chunks[list[k]].address in keys
  {
    hide Retained;
  }

  /** A cache after the first `n` chunks of the list were put into it: one tick for each that decodes, and what it held
      and each of them is there or was dropped. */
  ghost predicate KeptUpto(state: CacheState, now: CacheState, storage: Storage, chunks: seq<ChunkRecord>, list: seq<nat>, n: nat)
    requires n <= |list|
  {
    && now.evictions == state.evictions && now.clock == state.clock + Decodes(storage, chunks, list, n)
    && Retained(state.keys, now.keys, Dropped(state.evictions, state.clock, now.clock), chunks, list, n)
    && AllCached(storage, chunks, list, n, now.keys + Dropped(state.evictions, state.clock, now.clock))
  }

  lemma {:induction false} KeptNone(state: CacheState, storage: Storage, chunks: seq<ChunkRecord>, list: seq<nat>)
    ensures KeptUpto(state, state, storage, chunks, list, 0)
  {
    RetainStart(state.keys, state.evictions, state.clock, chunks, list);
  }

  lemma {:induction false} KeptAdd(state: CacheState, now: CacheState, storage: Storage, chunks: seq<ChunkRecord>, list: seq<nat>, k: nat)
    requires k < |list| && list[k] < |chunks| && storage.Chunk(chunks[list[k]]).Ok? && KeptUpto(state, now, storage, chunks, list, k)
    ensures KeptUpto(state, CacheState(now.keys + {chunks[list[k]].address} - now.evictions(now.clock), now.evictions, now.clock + 1, now.readahead),
                     storage, chunks, list, k + 1)
  {
    hide Retained;
    hide AllCached;
    hide Dropped;
    RetainStep(state.keys, now.keys, state.evictions, state.clock, now.clock, chunks, list, k);
    CacheOne(storage, chunks, list, k, now.keys, state.evictions, state.clock, now.clock);
  }

  lemma {:induction false} KeptSkip(state: CacheState, now: CacheState, storage: Storage, chunks: seq<ChunkRecord>, list: seq<nat>, k: nat)
    requires k < |list| && list[k] < |chunks| && storage.Chunk(chunks[list[k]]).Err? && KeptUpto(state, now, storage, chunks, list, k)
    ensures KeptUpto(state, now, storage, chunks, list, k + 1)
  {
    hide Retained;
    hide AllCached;
    hide Dropped;
    var dropped := Dropped(state.evictions, state.clock, now.clock);
    RetainMore(state.keys, now.keys, dropped, chunks, list, k);
    CacheSkip(storage, chunks, list, k, now.keys + dropped);
  }

  lemma {:induction false} KeptMeans(state: CacheState, now: CacheState, storage: Storage, chunks: seq<ChunkRecord>, list: seq<nat>)
    requires KeptUpto(state, now, storage, chunks, list, |list|)
    ensures var dropped := Dropped(state.evictions, state.clock, now.clock);
            && now.clock == state.clock + Decodes(storage, chunks, list, |list|)
            && Retained(state.keys, now.keys, dropped, chunks, list, |list|) && AllCached(storage, chunks, list, |list|, now.keys + dropped)
  {
  }

  lemma {:induction false} RetainStart(keys: set<nat>, evictions: Evictions, clock: nat, chunks: seq<ChunkRecord>, list: seq<nat>)
    ensures Retained(keys, keys, Dropped(evictions, clock, clock), chunks, list, 0)
    ensures |list| == 0 ==> Retained(keys, keys, Dropped(evictions, clock, clock), chunks, list, |list|)
  {
  }

  lemma {:induction false} RetainMore(was: set<nat>, now: set<nat>, dropped: set<nat>, chunks: seq<ChunkRecord>, list: seq<nat>, k: nat)
    requires Retained(was, now, dropped, chunks, list, k) && k < |list|
    ensures Retained(was, now, dropped, chunks, list, k + 1)
  {
  }

  lemma {:induction false} RetainAdd(was: set<nat>, now: set<nat>, dropped: set<nat>, chunks: seq<ChunkRecord>, list: seq<nat>, k: nat)
    requires Retained(was, now, dropped, chunks, list, k) && k < |list| && list[k] < |chunks|
    ensures Retained(was, now + {chunks[list[k]].address}, dropped, chunks, list, k + 1)
  {
    hide HasAddress;
    AddressStep(chunks, list, k);
  }

  /** Keeping one more chunk of the list and dropping at one more tick. */
  lemma {:induction false} RetainStep(was: set<nat>, now: set<nat>, evictions: Evictions, from: nat, clock: nat,
                                      chunks: seq<ChunkRecord>, list: seq<nat>, k: nat)
    requires from <= clock && Retained(was, now, Dropped(evictions, from, clock), chunks, list, k)
    requires k < |list| && list[k] < |chunks|
    ensures Retained(was, now + {chunks[list[k]].address} - evictions(clock), Dropped(evictions, from, clock + 1), chunks, list, k + 1)
  {
    hide HasAddress;
    AddressStep(chunks, list, k);
  }

  lemma {:induction false} EmptyCoherent(storage: Storage, chunks: seq<ChunkRecord>)
    ensures Coherent(map[], storage, chunks)
  {
  }

  lemma {:induction false} AddressStep(chunks: seq<ChunkRecord>, list: seq<nat>, k: nat)
    requires k < |list| && list[k] < |chunks|
    ensures forall a :: HasAddress(chunks, list, k + 1, a) <==> HasAddress(chunks, list, k, a) || a == chunks[list[k]].address
  {
  }

  /** A chunk from the cache, else from the batch. */
  method Locate(fetched: map<nat, seq<byte>>, cache: ChunkCache?, ghost storage: Storage, chunks: seq<ChunkRecord>, i: nat)
    returns (hit: Option<seq<byte>>)
    requires i < |chunks| && Coherent(fetched, storage, chunks)
    requires cache != null ==> Coherent(cache.entries, storage, chunks)
    modifies cache
    ensures cache != null ==> Coherent(cache.entries, storage, chunks)
    ensures cache != null ==> cache.entries == old(cache.entries) - cache.evictions(old(cache.clock)) && cache.clock == old(cache.clock) + 1
    ensures hit.Some? ==> storage.Chunk(chunks[i]) == Ok(hit.value)
    ensures hit.Some? <==> chunks[i].address in fetched || (cache != null && chunks[i].address in cache.entries)
  {
    hit := None;
    if cache != null {
      hit := cache.Lookup(storage, chunks, i, chunks[i].address);
    }
    if hit.None? && chunks[i].address in fetched {
      hit := Some(fetched[chunks[i].address]);
    }
  }

  /** The first `n` needed chunks are readable, and the batch has each or the cache still does when its turn comes. */
  ghost predicate HadUpto(state: CacheState, fetched: set<nat>, storage: Storage, chunks: seq<ChunkRecord>, needed: seq<nat>, n: nat, job: Job) {
    forall k :: 0 <= k < n && k < |needed| && needed[k] < |chunks| ==>
      && Readable(storage, chunks[needed[k]], job)
      && (chunks[needed[k]].address in fetched || state.Keeps(chunks[needed[k]].address, k + 1))
  }

  lemma {:induction false} NoneHad(state: CacheState, fetched: set<nat>, storage: Storage, chunks: seq<ChunkRecord>, needed: seq<nat>, job: Job)
    ensures HadUpto(state, fetched, storage, chunks, needed, 0, job)
  {
  }

  lemma {:induction false} HadStep(state: CacheState, fetched: set<nat>, storage: Storage, chunks: seq<ChunkRecord>, needed: seq<nat>, k: nat, job: Job)
    requires HadUpto(state, fetched, storage, chunks, needed, k, job) && k < |needed| && needed[k] < |chunks|
    ensures var had := Readable(storage, chunks[needed[k]], job)
                       && (chunks[needed[k]].address in fetched || state.Keeps(chunks[needed[k]].address, k + 1));
            && (had <==> HadUpto(state, fetched, storage, chunks, needed, k + 1, job))
            && (!had ==> !HadUpto(state, fetched, storage, chunks, needed, |needed|, job))
  {
  }

  /** What is left in a cache, and its clock, `k` ticks later. */
  ghost predicate Aged(state: CacheState, keys: set<nat>, clock: nat, k: nat) {
    clock == state.clock + k && keys == state.keys - Dropped(state.evictions, state.clock, clock)
  }

  lemma {:induction false} AgedNone(state: CacheState)
    ensures Aged(state, state.keys, state.clock, 0)
    ensures forall a, k :: !NoCache.Keeps(a, k)
  {
  }

  lemma {:induction false} AgedStep(state: CacheState, keys: set<nat>, clock: nat, k: nat, address: nat)
    requires Aged(state, keys, clock, k)
    ensures Aged(state, keys - state.evictions(clock), clock + 1, k + 1)
    ensures address in keys - state.evictions(clock) <==> state.Keeps(address, k + 1)
  {
    DroppedNext(state.evictions, state.clock, clock);
  }

  /** Copy every touched chunk out of the cache or the batch, whichever has it. */
  method CopyFetched(ghost was: seq<byte>, out: array<byte>, ghost storage: Storage, chunks: seq<ChunkRecord>, needed: seq<nat>, job: Job,
                     decodedLen: nat, fetched: map<nat, seq<byte>>, cache: ChunkCache?)
    returns (r: Result<()>)
    requires job.Valid() && out.Length == Mul(job.Total(), job.width) && was == out[..] && decodedLen == job.ChunkLen()
    requires IsNeeded(needed, chunks, |chunks|, job) && Coherent(fetched, storage, chunks)
    requires cache != null ==> Coherent(cache.entries, storage, chunks)
    modifies out, cache
    ensures cache != null ==> Coherent(cache.entries, storage, chunks)
    ensures r.Ok? <==> HadUpto(old(StateOf(cache)), fetched.Keys, storage, chunks, needed, |needed|, job)
    ensures r.Ok? ==> Painted(was, out[..], storage, chunks, |chunks|, job)
  {
    hide Mul;
    hide Product;
    hide Painted;
    hide Value;
    hide Coherent;
    hide Dropped;
    hide HadUpto;
    hide AreStrides;
    hide Intersects;
    hide CacheState.Keeps;
    hide Aged;
    ghost var state := StateOf(cache);
    AgedNone(state);
    NoneHad(state, fetched.Keys, storage, chunks, needed, job);
    var dstStrides := Strides(job.slab.count);
    var chunkStrides := Strides(job.chunkShape);
    NothingPainted(was, storage, chunks, job);
    Gap(needed, chunks, 0, job);
    PaintSkipped(was, was, storage, chunks, 0, Next(needed, 0, |chunks|), job);
    for k := 0 to |needed|
      invariant cache != null ==> Coherent(cache.entries, storage, chunks) && Aged(state, cache.entries.Keys, cache.clock, k)
      invariant Next(needed, k, |chunks|) <= |chunks|
      invariant HadUpto(state, fetched.Keys, storage, chunks, needed, k, job)
      invariant Painted(was, out[..], storage, chunks, Next(needed, k, |chunks|), job)
    {
      HadStep(state, fetched.Keys, storage, chunks, needed, k, job);
      if cache != null {
        AgedStep(state, cache.entries.Keys, cache.clock, k, chunks[needed[k]].address);
      }
      var hit := Locate(fetched, cache, storage, chunks, needed[k]);
      if hit.None? {
        return Err(Malformed);
      }
      if |hit.value| < decodedLen {
        return Err(Malformed);
      }
      PaintStep(was, out, hit.value, storage, chunks, needed, k, job, chunkStrides, dstStrides);
    }
    return Ok(());
  }

  /** What the cache holds when copying begins: what it held at the start and has not dropped, and perhaps the batch. */
  ghost predicate Follows(state: CacheState, ready: CacheState, storage: Storage, chunks: seq<ChunkRecord>, job: Job)
    requires job.Valid()
  {
    var list, copying := BatchOf(state, chunks, job), Copying(state, storage, chunks, job);
    if state.keys == {} && ready.keys == {} then true
    else
      && ready.evictions == state.evictions && ready.clock == state.clock + copying
      && Retained(state.keys, ready.keys, Dropped(state.evictions, state.clock, ready.clock), chunks, list, |list|)
  }

  /** A touched chunk is at hand when it is copied exactly when it is served. */
  lemma {:induction false} HadIsServed(state: CacheState, ready: CacheState, fetched: map<nat, seq<byte>>, storage: Storage, chunks: seq<ChunkRecord>,
                                       job: Job, k: nat)
    requires job.Valid() && OneDecode(storage, chunks) && Follows(state, ready, storage, chunks, job)
    requires HoldsBatch(fetched, storage, chunks, BatchOf(state, chunks, job))
    requires k < |Touched(chunks, |chunks|, job)|
    ensures var a := AddressOf(chunks, job, k);
            (exists i :: 0 <= i < |chunks| && chunks[i].address == a && storage.Chunk(chunks[i]).Ok?) ==>
              (a in fetched || ready.Keeps(a, k + 1) <==> ServedAt(state, storage, chunks, job, k))
  {
    hide Touched;
    hide BatchOf;
    hide Dropped;
    hide HasAddress;
    var a, list, copying := AddressOf(chunks, job, k), BatchOf(state, chunks, job), Copying(state, storage, chunks, job);
    if i :| 0 <= i < |chunks| && chunks[i].address == a && storage.Chunk(chunks[i]).Ok? {
      BatchHas(fetched, storage, chunks, list, i);
      if state.keys != {} || ready.keys != {} {
        DroppedSplit(state.evictions, state.clock, ready.clock, ready.clock + k + 1);
      }
    }
  }

  /** The batch holds the chunks of the list that decode, and nothing else. */
  ghost predicate HoldsBatch(fetched: map<nat, seq<byte>>, storage: Storage, chunks: seq<ChunkRecord>, list: seq<nat>) {
    (forall a :: a in fetched ==> HasAddress(chunks, list, |list|, a))
    && forall k :: 0 <= k < |list| && list[k] < |chunks| && storage.Chunk(chunks[list[k]]).Ok? ==> chunks[list[k]].address in fetched
  }

  lemma {:induction false} BatchHas(fetched: map<nat, seq<byte>>, storage: Storage, chunks: seq<ChunkRecord>, list: seq<nat>, i: nat)
    requires OneDecode(storage, chunks) && HoldsBatch(fetched, storage, chunks, list) && i < |chunks| && storage.Chunk(chunks[i]).Ok?
    ensures chunks[i].address in fetched <==> HasAddress(chunks, list, |list|, chunks[i].address)
  {
    if HasAddress(chunks, list, |list|, chunks[i].address) {
      var k :| 0 <= k < |list| && list[k] < |chunks| && chunks[list[k]].address == chunks[i].address;
    }
  }

  lemma {:induction false} AllHad(state: CacheState, ready: CacheState, fetched: map<nat, seq<byte>>, storage: Storage, chunks: seq<ChunkRecord>, job: Job)
    requires job.Valid() && OneDecode(storage, chunks) && Follows(state, ready, storage, chunks, job)
    requires HoldsBatch(fetched, storage, chunks, BatchOf(state, chunks, job))
    ensures var needed := Touched(chunks, |chunks|, job);
            HadUpto(ready, fetched.Keys, storage, chunks, needed, |needed|, job)
            <==> AllReadable(storage, chunks, job) && AllServed(state, storage, chunks, job)
  {
    hide Follows;
    hide HoldsBatch;
    hide OneDecode;
    hide BatchOf;
    hide Touched;
    hide ServedAt;
    hide Intersects;
    var needed := Touched(chunks, |chunks|, job);
    TouchedAre(chunks, |chunks|, job);
    forall k | 0 <= k < |needed| && Readable(storage, chunks[needed[k]], job)
      ensures chunks[needed[k]].address in fetched || ready.Keeps(chunks[needed[k]].address, k + 1)
              <==> ServedAt(state, storage, chunks, job, k)
    {
      HadIsServed(state, ready, fetched, storage, chunks, job, k);
    }
  }

  /** The cache after planning and decoding, seen from the start of the read. */
  lemma {:induction false} RetainBoth(keys: set<nat>, ready: set<nat>, evictions: Evictions, start: nat, planned: nat, copying: nat,
                                      chunks: seq<ChunkRecord>, list: seq<nat>)
    requires start <= planned <= copying
    requires Retained(keys - Dropped(evictions, start, planned), ready, Dropped(evictions, planned, copying), chunks, list, |list|)
    ensures Retained(keys, ready, Dropped(evictions, start, copying), chunks, list, |list|)
  {
    hide HasAddress;
    DroppedSplit(evictions, start, planned, copying);
  }

  /** The asynchronous engine: fetch everything the read lacks in one batch, then assemble. Its success is characterised
      outright, for any cache and any evictions. */
  method ReadChunkedAsync(storage: Storage, chunks: seq<ChunkRecord>, job: Job, out: array<byte>, cache: ChunkCache?,
                          pages: PageCaches.IoCache?, config: IoConfig)
    returns (r: Result<()>)
    requires job.Valid() && out.Length == Mul(job.Total(), job.width)
    requires OneDecode(storage, chunks)
    requires cache != null ==> Coherent(cache.entries, storage, chunks)
    requires PageCaches.PagesOk(pages, storage.file)
    modifies out, cache, pages
    ensures cache != null ==> Coherent(cache.entries, storage, chunks)
    ensures PageCaches.PagesOk(pages, storage.file)
    ensures r.Ok? ==> Painted(old(out[..]), out[..], storage, chunks, |chunks|, job)
    ensures r.Ok? <==> AsyncSucceeds(old(StateOf(cache)), storage, chunks, job)
    ensures cache == null ==>
              (r.Ok? <==> job.ChunkLen() <= U64_MAX && AllReadable(storage, chunks, job) && AllFetched(chunks, job))
  {
    hide Mul;
    hide Product;
    hide Painted;
    hide Coherent;
    hide OneDecode;
    hide Dropped;
    hide AllReadable;
    hide AllServed;
    hide BatchStored;
    hide BatchDecodes;
    hide HadUpto;
    hide Batch;
    hide Looks;
    hide Decodes;
    hide HasAddress;
    ghost var was, state := out[..], StateOf(cache);
    AsyncUncached(storage, chunks, job);
    var decodedLen := DecodedChunkLen(job);
    if decodedLen.Err? {
      return Err(decodedLen.error);
    }
    var needs := Needed(chunks, job, false);
    var needed := needs.value;
    var wanted := Wanted(chunks, needed, if cache == null then 0 else cache.readahead, cache, storage);
    ghost var planned := StateOf(cache).clock;
    assert wanted == BatchOf(state, chunks, job);
    var fetched := FetchAndDecode(storage, chunks, wanted, job, cache, pages, config);
    if fetched.Err? {
      return Err(fetched.error);
    }
    ghost var ready := StateOf(cache);
    if cache != null {
      RetainBoth(state.keys, ready.keys, state.evictions, state.clock, planned, ready.clock, chunks, wanted);
    }
    assert Follows(state, ready, storage, chunks, job);
    AllHad(state, ready, fetched.value, storage, chunks, job);
    r := CopyFetched(was, out, storage, chunks, needed, job, decodedLen.value, fetched.value, cache);
  }

  /** Without a cache everything touched is fetched, except what has no bytes. */
  lemma {:induction false} AsyncUncached(storage: Storage, chunks: seq<ChunkRecord>, job: Job)
    requires job.Valid() && OneDecode(storage, chunks)
    ensures AsyncSucceeds(NoCache, storage, chunks, job) <==>
              job.ChunkLen() <= U64_MAX && AllReadable(storage, chunks, job) && AllFetched(chunks, job)
  {
    hide BatchOf;
    hide Touched;
    hide Intersects;
    hide Copying;
    hide InBatch;
    hide FetchedBy;
    TouchedAre(chunks, |chunks|, job);
    var needed := Touched(chunks, |chunks|, job);
    UncachedBatch(storage, chunks, job);
    if AllServed(NoCache, storage, chunks, job) {
      forall i | 0 <= i < |chunks| && job.Touches(chunks[i]) ensures FetchedBy(chunks, job, chunks[i].address) {
        var k :| 0 <= k < |needed| && needed[k] == i;
        assert ServedAt(NoCache, storage, chunks, job, k);
      }
    }
  }

  lemma {:induction false} UncachedBatch(storage: Storage, chunks: seq<ChunkRecord>, job: Job)
    requires job.Valid()
    ensures AllReadable(storage, chunks, job) ==>
              var list := BatchOf(NoCache, chunks, job);
              BatchStored(storage, chunks, list) && BatchDecodes(storage, chunks, job, list, |list|)
    ensures forall a :: InBatch(NoCache, chunks, job, a) <==> FetchedBy(chunks, job, a)
  {
    hide Batch;
    hide Touched;
    hide Intersects;
    hide Fatal;
    hide HasAddress;
    hide FetchedBy;
    TouchedAre(chunks, |chunks|, job);
    var needed, candidates, list := Touched(chunks, |chunks|, job), CandidatesOf(NoCache, chunks, job), BatchOf(NoCache, chunks, job);
    assert candidates == needed;
    BatchIs(NoCache, chunks, candidates, |candidates|);
    if AllReadable(storage, chunks, job) {
      BatchInFile(NoCache, storage, chunks, job);
      forall k | 0 <= k < |list| && list[k] < |chunks| ensures storage.Chunk(chunks[list[k]]).Ok? {
        assert list[k] in list;
        assert Readable(storage, chunks[list[k]], job);
      }
    }
    forall a ensures InBatch(NoCache, chunks, job, a) <==> FetchedBy(chunks, job, a) {
      FetchedFromEmpty(needed, list, chunks, job, a);
    }
  }

  lemma {:induction false} FetchedFromEmpty(needed: seq<nat>, list: seq<nat>, chunks: seq<ChunkRecord>, job: Job, address: nat)
    requires job.Valid() && IsNeeded(needed, chunks, |chunks|, job)
    requires forall i :: i in list ==> i in needed && i < |chunks| && chunks[i].size != 0
    requires forall c :: 0 <= c < |needed| && chunks[needed[c]].size != 0 ==> needed[c] in list
    ensures HasAddress(chunks, list, |list|, address) <==> FetchedBy(chunks, job, address)
  {
    hide Intersects;
    if HasAddress(chunks, list, |list|, address) {
      var k :| 0 <= k < |list| && list[k] < |chunks| && chunks[list[k]].address == address;
      assert list[k] in list;
    }
    if FetchedBy(chunks, job, address) {
      var j :| 0 <= j < |chunks| && job.Touches(chunks[j]) && chunks[j].size != 0 && chunks[j].address == address;
      var c :| 0 <= c < |needed| && needed[c] == j;
      var k :| 0 <= k < |list| && list[k] == j;
    }
  }

  // ---- where the engines differ ----

  /** The asynchronous engine succeeds where the synchronous one does exactly when every touched chunk is served. Where
      each has bytes at its address, that is: it is fetched, or never dropped from the start of the read to its copy. */
  lemma {:induction false} EnginesDiffer(state: CacheState, storage: Storage, chunks: seq<ChunkRecord>, job: Job)
    requires job.Valid() && OneDecode(storage, chunks) && SyncSucceeds(state, storage, chunks, job)
    ensures AsyncSucceeds(state, storage, chunks, job) <==> AllServed(state, storage, chunks, job)
    ensures AllFetched(chunks, job) ==>
              (AsyncSucceeds(state, storage, chunks, job) <==>
               forall k :: 0 <= k < |Touched(chunks, |chunks|, job)| ==> NotLost(state, storage, chunks, job, k))
  {
    hide Touched;
    hide BatchOf;
    hide Copying;
    hide InBatch;
    var list := BatchOf(state, chunks, job);
    forall k | 0 <= k < |list| && list[k] < |chunks| && Fatal(chunks, job, chunks[list[k]].address)
      ensures storage.Chunk(chunks[list[k]]).Ok?
    {
      var i :| 0 <= i < |chunks| && chunks[i].address == chunks[list[k]].address && Overlaps(chunks[i].offset, job.chunkShape, job.slab);
      assert job.Touches(chunks[i]) && Readable(storage, chunks[i], job);
    }
    if AllFetched(chunks, job) {
      forall k | 0 <= k < |Touched(chunks, |chunks|, job)|
        ensures NotLost(state, storage, chunks, job, k) <==> ServedAt(state, storage, chunks, job, k)
      {
        UnfetchedIsHeld(state, chunks, job, k);
      }
    }
  }

  /** The `k`-th touched chunk is fetched, or its address is not dropped before its turn to be copied. */
  ghost predicate NotLost(state: CacheState, storage: Storage, chunks: seq<ChunkRecord>, job: Job, k: nat)
    requires job.Valid() && k < |Touched(chunks, |chunks|, job)|
  {
    var address := AddressOf(chunks, job, k);
    InBatch(state, chunks, job, address)
    || address !in Dropped(state.evictions, state.clock, state.clock + (Copying(state, storage, chunks, job) + k + 1))
  }

  /** A touched chunk that has bytes and is not fetched was in the cache. */
  lemma {:induction false} UnfetchedIsHeld(state: CacheState, chunks: seq<ChunkRecord>, job: Job, k: nat)
    requires job.Valid() && AllFetched(chunks, job) && k < |Touched(chunks, |chunks|, job)|
    ensures var address := AddressOf(chunks, job, k); InBatch(state, chunks, job, address) || address in state.keys
  {
    hide Touched;
    hide Batch;
    hide Intersects;
    TouchedAre(chunks, |chunks|, job);
    var needed, candidates, list := Touched(chunks, |chunks|, job), CandidatesOf(state, chunks, job), BatchOf(state, chunks, job);
    var address := AddressOf(chunks, job, k);
    assert job.Touches(chunks[needed[k]]) && FetchedBy(chunks, job, address);
    var j :| 0 <= j < |chunks| && job.Touches(chunks[j]) && chunks[j].size != 0 && chunks[j].address == address;
    CandidateIsReached(state, chunks, job, j);
    var c :| 0 <= c < |candidates| && candidates[c] == j;
    BatchIs(state, chunks, candidates, |candidates|);
    if j in list {
      var n :| 0 <= n < |list| && list[n] == j;
    }
  }

  /** A touched chunk that the cache keeps throughout the planning, and drops at any tick before its turn to be copied,
      fails the read. */
  lemma {:induction false} EvictionFails(state: CacheState, storage: Storage, chunks: seq<ChunkRecord>, job: Job, k: nat, tick: nat)
    requires job.Valid() && k < |Touched(chunks, |chunks|, job)|
    requires var candidates := CandidatesOf(state, chunks, job);
             state.Keeps(AddressOf(chunks, job, k), Looks(chunks, candidates, |candidates|))
    requires tick <= Copying(state, storage, chunks, job) + k && AddressOf(chunks, job, k) in state.evictions(state.clock + tick)
    ensures !AsyncSucceeds(state, storage, chunks, job)
  {
    hide Touched;
    hide Batch;
    hide Looks;
    hide Copying;
    hide CandidatesOf;
    var address, candidates, list := AddressOf(chunks, job, k), CandidatesOf(state, chunks, job), BatchOf(state, chunks, job);
    BatchIs(state, chunks, candidates, |candidates|);
    forall n | 0 <= n < |list| && list[n] < |chunks| ensures chunks[list[n]].address != address {
      assert list[n] in list;
    }
    var turn := state.clock + (Copying(state, storage, chunks, job) + k + 1);
    DroppedSplit(state.evictions, state.clock, state.clock + tick, turn);
    DroppedFirst(state.evictions, state.clock + tick, turn);
    assert !ServedAt(state, storage, chunks, job, k);
  }

  // ---- an eviction that fails one engine and not the other ----

  /** Keeps its entries for two ticks, then drops address zero. */
  const DropsLater: Evictions := t => if t < 2 then {} else {0}

  /** A one-byte dataset in one chunk at address zero. */
  const OneByte := Storage([7], false, (raw, mask) => Ok(raw))
  const OneChunk := [ChunkRecord(1, 0, [0], 0)]
  const OneElement := Job([1], Hyperslab([0], [1]), 1)

  lemma {:induction false} OneByteReads(readahead: nat)
    ensures OneElement.Valid() && OneElement.Total() == 1 && OneElement.ChunkLen() == 1 && Mul(1, 1) == 1
    ensures OneDecode(OneByte, OneChunk) && OneByte.Chunk(OneChunk[0]) == Ok([7])
    ensures OneElement.Touches(OneChunk[0]) && AllReadable(OneByte, OneChunk, OneElement)
    ensures AllRanked(OneChunk, OneElement) && AheadStored(OneByte, OneChunk, OneElement, readahead)
  {
    MulOne(1);
    assert [1][1..] == [] && Product([1]) == 1;
    assert OneByte.file[0..1] == [7];
  }

  /** The cache holds the chunk when it is asked, drops it at the next tick, and has nothing to fetch in between. */
  lemma {:induction false} OneChunkLost(state: CacheState)
    requires state == CacheState({0}, DropsLater, 1, 0)
    ensures SyncSucceeds(state, OneByte, OneChunk, OneElement) && !AsyncSucceeds(state, OneByte, OneChunk, OneElement)
  {
    hide Mul;
    hide Product;
    hide AllReadable;
    hide AheadStored;
    hide Intersects;
    OneByteReads(0);
    BatchInFile(state, OneByte, OneChunk, OneElement);
    assert Touched(OneChunk, 1, OneElement) == Touched(OneChunk, 0, OneElement) + [0] == [0];
    assert CandidatesOf(state, OneChunk, OneElement) == [0];
    assert Looks(OneChunk, [0], 1) == Looks(OneChunk, [0], 0) + 1 == 1;
    assert Dropped(DropsLater, 1, 2) == Dropped(DropsLater, 1, 1) + DropsLater(1) == {};
    EvictionFails(state, OneByte, OneChunk, OneElement, 0, 1);
  }

  /** The same read through two equal caches that hold the chunk: the synchronous engine decodes it again after the
      eviction, the asynchronous engine counted on it and fails. */
  method EvictionFailsAsync(config: IoConfig) returns (sync: Result<()>, async: Result<()>)
    ensures sync.Ok? && async.Err?
  {
    hide Mul;
    hide Product;
    hide SyncSucceeds;
    hide AsyncSucceeds;
    OneByteReads(0);
    var one := CacheWithChunk();
    var other := CacheWithChunk();
    OneChunkLost(StateOf(one));
    var out := new byte[1](_ => 0);
    sync := ReadChunked(OneByte, OneChunk, OneElement, out, one, null, config);
    async := ReadChunkedAsync(OneByte, OneChunk, OneElement, out, other, null, config);
  }

  method CacheWithChunk() returns (cache: ChunkCache)
    ensures fresh(cache) && cache.entries == map[0 := [7]] && cache.clock == 1 && cache.readahead == 0
    ensures cache.evictions == DropsLater && Coherent(cache.entries, OneByte, OneChunk)
  {
    cache := new ChunkCache(0, DropsLater);
    cache.Insert(0, [7]);
    OneByteReads(0);
  }

  // ---- a read-ahead that fails the read ----

  /** The chunk of the one-byte dataset, and after it a record that points beyond the file. */
  const StrayChunk := [ChunkRecord(1, 0, [0], 0), ChunkRecord(1, 0, [1], 5)]

  /** The stray record does not touch the selection. Without a cache it is never looked at; a cache that holds nothing and
      reads one chunk ahead fetches it. */
  lemma {:induction false} StrayAhead()
    ensures OneDecode(OneByte, StrayChunk)
    ensures SyncSucceeds(NoCache, OneByte, StrayChunk, OneElement)
    ensures !SyncSucceeds(CacheState({}, NoEvictions, 0, 1), OneByte, StrayChunk, OneElement)
  {
    hide Mul;
    hide Product;
    hide Intersects;
    OneByteReads(0);
    StrayUntouched();
    assert StrayChunk[0] == OneChunk[0];
    assert AllReadable(OneByte, StrayChunk, OneElement);
    SyncUncached(OneByte, StrayChunk, OneElement);
    assert LastTouched(StrayChunk, OneElement, 0);
    assert Ahead(StrayChunk, OneElement, 1, 1) && !IsStored(OneByte, StrayChunk[1]);
    BatchInFile(CacheState({}, NoEvictions, 0, 1), OneByte, StrayChunk, OneElement);
  }

  lemma {:induction false} StrayUntouched()
    ensures !OneElement.Touches(StrayChunk[1])
  {
    var offset, slab := StrayChunk[1].offset, OneElement.slab;
    assert offset[0] == 1 && slab.start[0] == 0 && slab.count[0] == 1;
    assert Max(offset[0], slab.start[0]) >= slab.start[0] + slab.count[0];
  }

  /** The same read fails through the cache and succeeds without. */
  method ReadAheadFailsSync(config: IoConfig) returns (cached: Result<()>, plain: Result<()>)
    ensures cached.Err? && plain.Ok?
  {
    hide Mul;
    hide Product;
    hide SyncSucceeds;
    OneByteReads(0);
    StrayAhead();
    var cache := new ChunkCache(1, NoEvictions);
    var out := new byte[1](_ => 0);
    EmptyCoherent(OneByte, StrayChunk);
    assert StateOf(cache) == CacheState({}, NoEvictions, 0, 1);
    cached := ReadChunked(OneByte, StrayChunk, OneElement, out, cache, null, config);
    plain := ReadChunked(OneByte, StrayChunk, OneElement, out, null, null, config);
  }

  // ---- what the answers are ----

  /** Two successful reads of one selection give the same bytes, whichever engine, cache or read-ahead produced them. */
  lemma {:induction false} EnginesAgree(was: seq<byte>, a: seq<byte>, b: seq<byte>, storage: Storage, chunks: seq<ChunkRecord>, job: Job)
    requires job.Valid() && |was| == Mul(job.Total(), job.width)
    requires Painted(was, a, storage, chunks, |chunks|, job) && Painted(was, b, storage, chunks, |chunks|, job)
    ensures a == b
  {
    hide Mul;
    hide Product;
    forall d | 0 <= d < job.Total()
      ensures Has(a, 0, d, job.width) && Has(b, 0, d, job.width) && Element(a, d, job.width) == Element(b, d, job.width)
    {
      HasLess(was, 0, d, job.Total(), job.width);
      assert PaintedAt(was, a, storage, chunks, |chunks|, job, d) && PaintedAt(was, b, storage, chunks, |chunks|, job, d);
    }
    SameElements(a, b, job.Total(), job.width);
  }

  /** Record `i` holds the coordinate and no later one does. */
  ghost predicate HoldsLast(chunks: seq<ChunkRecord>, chunkShape: seq<nat>, coord: Index, i: nat) {
    i < |chunks| && |chunks[i].offset| == |coord| && Contains(chunks[i].offset, chunkShape, coord)
    && (forall a :: 0 <= a < |coord| ==> chunks[i].offset[a] <= coord[a])
    && forall j :: i < j < |chunks| ==> !Contains(chunks[j].offset, chunkShape, coord)
  }

  /** The last record that holds a coordinate gives its value. */
  lemma {:induction false} ValueLast(storage: Storage, chunks: seq<ChunkRecord>, job: Job, coord: Index, base: seq<byte>, i: nat)
    requires job.Valid() && AllReadable(storage, chunks, job) && job.slab.Selects(coord)
    requires HoldsLast(chunks, job.chunkShape, coord, i)
    ensures Readable(storage, chunks[i], job)
    ensures Value(storage, chunks, |chunks|, job, coord, base)
         == ChunkElement(storage.Chunk(chunks[i]).value, chunks[i].offset, job.chunkShape, coord, job.width)
  {
    TouchedReadable(storage, chunks, job, coord, i);
    ValueSkips(storage, chunks, i + 1, |chunks|, job, coord, base);
  }

  lemma {:induction false} ValueSkips(storage: Storage, chunks: seq<ChunkRecord>, n: nat, m: nat, job: Job, coord: Index, base: seq<byte>)
    requires n <= m <= |chunks| && forall j :: n <= j < m ==> !Contains(chunks[j].offset, job.chunkShape, coord)
    ensures Value(storage, chunks, m, job, coord, base) == Value(storage, chunks, n, job, coord, base)
  {
    if n < m {
      ValueSkips(storage, chunks, n, m - 1, job, coord, base);
    }
  }

  lemma {:induction false} ValueWidth(storage: Storage, chunks: seq<ChunkRecord>, n: nat, job: Job, coord: Index, base: seq<byte>)
    requires n <= |chunks| && |base| == job.width
    ensures |Value(storage, chunks, n, job, coord, base)| == job.width
  {
    hide Ravel;
    hide Mul;
    hide Product;
    if n > 0 {
      ValueWidth(storage, chunks, n - 1, job, coord, base);
    }
  }

  ghost predicate DistinctOnGrid(chunks: seq<ChunkRecord>, chunkShape: seq<nat>) {
    (forall i :: 0 <= i < |chunks| ==> OnGrid(chunks[i].offset, chunkShape))
    && forall i, j :: 0 <= i < j < |chunks| ==> chunks[i].offset != chunks[j].offset
  }

  /** On an index of distinct records on the grid, a coordinate's value comes from the one record that holds it... */
  lemma {:induction false} ValueOnGrid(storage: Storage, chunks: seq<ChunkRecord>, n: nat, job: Job, coord: Index,
                                       base: seq<byte>, i: nat)
    requires job.Valid() && i < n <= |chunks| && AllReadable(storage, chunks, job) && job.slab.Selects(coord)
    requires DistinctOnGrid(chunks, job.chunkShape) && Contains(chunks[i].offset, job.chunkShape, coord)
    ensures Readable(storage, chunks[i], job)
    ensures Value(storage, chunks, n, job, coord, base)
         == ChunkElement(storage.Chunk(chunks[i]).value, chunks[i].offset, job.chunkShape, coord, job.width)
  {
    hide ChunkElement;
    hide Mul;
    hide Product;
    hide Intersects;
    hide OnGrid;
    hide Contains;
    TouchedReadable(storage, chunks, job, coord, i);
    if i < n - 1 {
      if Contains(chunks[n - 1].offset, job.chunkShape, coord) {
        GridOffsetUnique(chunks[i].offset, chunks[n - 1].offset, job.chunkShape, coord);
      }
      ValueOnGrid(storage, chunks, n - 1, job, coord, base, i);
    }
  }

  lemma {:induction false} TouchedReadable(storage: Storage, chunks: seq<ChunkRecord>, job: Job, coord: Index, i: nat)
    requires job.Valid() && i < |chunks| && AllReadable(storage, chunks, job) && job.slab.Selects(coord)
    requires Contains(chunks[i].offset, job.chunkShape, coord)
    ensures |chunks[i].offset| == |job.chunkShape| && Readable(storage, chunks[i], job)
  {
    IntersectsIsShared(chunks[i].offset, job.chunkShape, job.slab);
  }

  /** ... and is what the buffer held before when no record holds it. */
  lemma {:induction false} ValueUnstored(storage: Storage, chunks: seq<ChunkRecord>, n: nat, job: Job, coord: Index, base: seq<byte>)
    requires n <= |chunks| && forall i :: 0 <= i < n ==> !Contains(chunks[i].offset, job.chunkShape, coord)
    ensures Value(storage, chunks, n, job, coord, base) == base
  {
    if n > 0 {
      ValueUnstored(storage, chunks, n - 1, job, coord, base);
    }
  }

  /** Two grid chunks that hold one coordinate are the same cell. */
  lemma {:induction false} GridOffsetUnique(a: Index, b: Index, chunkShape: seq<nat>, coord: Index)
    requires OnGrid(a, chunkShape) && OnGrid(b, chunkShape)
    requires Contains(a, chunkShape, coord) && Contains(b, chunkShape, coord)
    ensures a == b
  {
    hide Quot;
    hide Rem;
    forall i | 0 <= i < |a| ensures a[i] == b[i] {
      AlignedContains(a[i], chunkShape[i], coord[i]);
      AlignedContains(b[i], chunkShape[i], coord[i]);
      QuotRem(a[i], chunkShape[i]);
      QuotRem(b[i], chunkShape[i]);
    }
  }

  /** Where some readable record holds the coordinate, what was in the buffer does not matter. */
  lemma {:induction false} ValueIgnoresBase(storage: Storage, chunks: seq<ChunkRecord>, n: nat, job: Job, coord: Index,
                                            base: seq<byte>, other: seq<byte>, i: nat)
    requires i < n <= |chunks| && Contains(chunks[i].offset, job.chunkShape, coord) && Readable(storage, chunks[i], job)
    ensures Value(storage, chunks, n, job, coord, base) == Value(storage, chunks, n, job, coord, other)
  {
    if i < n - 1 {
      ValueIgnoresBase(storage, chunks, n - 1, job, coord, base, other, i);
    }
  }
}
