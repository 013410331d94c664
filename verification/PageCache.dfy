/** The cache of raw file pages (`crates/oxcdf-hdf5/src/cache.rs`).
    A read's vector of page slots is a map from page index to page: an empty slot is an absent key. */
module PageCaches {
  import opened Basics
  import opened Arith
  import opened Pages
  import Coalesce

  type PageRun = (nat, nat)

  ghost predicate InRun(index: nat, run: PageRun) {
    run.0 <= index <= run.1
  }

  ghost predicate InRuns(index: nat, runs: seq<PageRun>) {
    exists i :: 0 <= i < |runs| && InRun(index, runs[i])
  }

  /** Runs inside `first..end`, in order and maximal: a page that is held separates neighbours. */
  ghost predicate AreRuns(runs: seq<PageRun>, first: nat, end: nat) {
    (forall i :: 0 <= i < |runs| ==> first <= runs[i].0 <= runs[i].1 < end)
    && forall i :: 0 < i < |runs| ==> runs[i - 1].1 + 1 < runs[i].0
  }

  /** Maximal ordered runs are disjoint, so a page in them is fetched exactly once. */
  lemma {:induction false} RunsDisjoint(runs: seq<PageRun>, first: nat, end: nat, i: nat, j: nat)
    requires AreRuns(runs, first, end) && i < j < |runs|
    ensures runs[i].1 + 1 < runs[j].0
    decreases j
  {
    if i + 1 < j {
      RunsDisjoint(runs, first, end, i, j - 1);
    }
  }

  lemma {:induction false} RunPushed(runs: seq<PageRun>, run: PageRun)
    ensures forall p :: InRuns(p, runs + [run]) <==> InRuns(p, runs) || InRun(p, run)
  {
    var more := runs + [run];
    forall p ensures InRuns(p, more) <==> InRuns(p, runs) || InRun(p, run) {
      assert more[|runs|] == run;
      if InRuns(p, runs) {
        var i :| 0 <= i < |runs| && InRun(p, runs[i]);
        assert more[i] == runs[i];
      }
    }
  }

  lemma {:induction false} RunsEnd(runs: seq<PageRun>, first: nat, end: nat)
    requires AreRuns(runs, first, end)
    ensures forall p: nat :: InRuns(p, runs) ==> p < end
  {
  }

  /** The pages that are not held, as first and last page of each stretch. */
  method MissingRuns(held: map<nat, seq<byte>>, first: nat, last: nat) returns (runs: seq<PageRun>)
    requires first <= last
    ensures AreRuns(runs, first, last + 1)
    ensures forall p :: first <= p <= last ==> (InRuns(p, runs) <==> p !in held)
  {
    hide InRuns;
    RunPushed([], (1, 0));
    NoRuns();
    runs := [];
    var start: Option<nat> := None;
    for index := first to last + 1
      invariant start.Some? ==> first <= start.value < index
      invariant AreRuns(runs, first, if start.Some? then start.value else index)
      invariant |runs| > 0 ==> runs[|runs| - 1].1 + 1 < (if start.Some? then start.value else index + 1)
      invariant |runs| > 0 && start.None? ==> runs[|runs| - 1].1 + 1 < index
      invariant forall p :: first <= p < index ==>
        (p !in held <==> (start.Some? && start.value <= p) || InRuns(p, runs))
    {
      RunsEnd(runs, first, if start.Some? then start.value else index);
      if index !in held && start.None? {
        start := Some(index);
      } else if index in held && start.Some? {
        RunPushed(runs, (start.value, index - 1));
        runs := runs + [(start.value, index - 1)];
        start := None;
      }
    }
    if start.Some? {
      RunsEnd(runs, first, start.value);
      RunPushed(runs, (start.value, last));
      runs := runs + [(start.value, last)];
    }
  }

  lemma {:induction false} NoRuns()
    ensures forall p :: !InRuns(p, [])
  {
  }

  /** The page is held, and not dropped by the time a lookup that started at `first` gets to it. */
  ghost predicate Found(keys: set<nat>, evictions: Evictions, clock: nat, first: nat, p: nat)
    requires first <= p
  {
    p in keys && p !in Dropped(evictions, clock, clock + (p - first) + 1)
  }

  class IoCache {
    var pages: map<nat, seq<byte>>
    const pageSize: nat
    /** Any page may be gone by the next time it is looked at. */
    const evictions: Evictions
    var clock: nat

    constructor (pageSize: nat, evictions: Evictions)
      requires pageSize > 0
      ensures pages == map[] && clock == 0 && this.pageSize == pageSize && this.evictions == evictions
    {
      pages := map[];
      clock := 0;
      this.pageSize := pageSize;
      this.evictions := evictions;
    }

    ghost function DroppedSince(from: nat): set<nat>
      reads this
    {
      Dropped(evictions, from, clock)
    }

    method Evict()
      modifies this
      ensures pages == old(pages) - evictions(old(clock)) && clock == old(clock) + 1
    {
      pages := pages - evictions(clock);
      clock := clock + 1;
    }

    method GetPage(index: nat) returns (page: Option<seq<byte>>)
      modifies this
      ensures pages == old(pages) - evictions(old(clock)) && clock == old(clock) + 1
      ensures page == if index in pages then Some(pages[index]) else None
    {
      Evict();
      page := if index in pages then Some(pages[index]) else None;
    }

    method PutPage(index: nat, page: seq<byte>, ghost file: seq<byte>)
      requires Coherent(pages, file, pageSize) && IsPage(file, pageSize, index) && page == Page(file, pageSize, index)
      modifies this
      ensures Coherent(pages, file, pageSize)
      ensures pages.Keys == old(pages.Keys) + {index} - evictions(old(clock)) && clock == old(clock) + 1
    {
      pages := pages[index := page];
      Evict();
    }

    /** Whatever of `first..=last` is still held when it is looked up. */
    method Cached(first: nat, last: nat, ghost file: seq<byte>) returns (held: map<nat, seq<byte>>)
      requires first <= last && Coherent(pages, file, pageSize)
      modifies this
      ensures Coherent(pages, file, pageSize) && Coherent(held, file, pageSize)
      ensures clock >= old(clock) && pages == old(pages) - DroppedSince(old(clock))
      ensures held.Keys <= old(pages.Keys)
      ensures forall p :: first <= p <= last ==> (p in held <==> Found(old(pages.Keys), evictions, old(clock), first, p))
    {
      hide Coherent;
      held := map[];
      CoherentMinus(pages, pages.Keys, file, pageSize);
      assert pages - pages.Keys == held;
      for index := first to last + 1
        invariant Coherent(pages, file, pageSize) && Coherent(held, file, pageSize)
        invariant clock == old(clock) + (index - first) && pages == old(pages) - DroppedSince(old(clock))
        invariant held.Keys <= old(pages.Keys) && forall p :: p in held ==> first <= p < index
        invariant forall p :: first <= p < index ==> (p in held <==> Found(old(pages.Keys), evictions, old(clock), first, p))
      {
        CoherentMinus(pages, evictions(clock), file, pageSize);
        var page := GetPage(index);
        if page.Some? {
          CoherentPut(held, pages, index, file, pageSize);
          held := held[index := page.value];
        }
      }
    }

    /** Every page of a run that was fetched goes into the cache. */
    method StoreRun(start: nat, end: nat, bytes: seq<byte>, held: map<nat, seq<byte>>, ghost file: seq<byte>)
      returns (filled: map<nat, seq<byte>>)
      requires pageSize > 0 && Coherent(pages, file, pageSize) && Coherent(held, file, pageSize)
      requires start <= end && IsPage(file, pageSize, end)
      requires Mul(start, pageSize) <= PageEnd(file, pageSize, end)
      requires bytes == file[Mul(start, pageSize)..PageEnd(file, pageSize, end)]
      modifies this
      ensures Coherent(pages, file, pageSize) && Coherent(filled, file, pageSize)
      ensures forall p :: p in filled <==> p in held || InRun(p, (start, end))
      ensures clock >= old(clock)
      ensures forall p :: p in old(pages) || InRun(p, (start, end)) ==> p in pages || p in DroppedSince(old(clock))
    {
      hide Page;
      hide PageEnd;
      hide Mul;
      filled := held;
      for index := start to end + 1
        invariant Coherent(pages, file, pageSize) && Coherent(filled, file, pageSize)
        invariant forall p :: p in filled <==> p in held || start <= p < index
        invariant clock >= old(clock)
        invariant forall p :: p in old(pages) || start <= p < index ==> p in pages || p in DroppedSince(old(clock))
      {
        RunPage(file, pageSize, start, end, index);
        MulIs(index - start, pageSize);
        var at := (index - start) * pageSize;
        if at >= |bytes| {
          break;
        }
        var take := Min(pageSize, |bytes| - at);
        var page := bytes[at..at + take];
        PutPage(index, page, file);
        filled := filled[index := page];
      }
    }

    /** The bytes of a run of pages; the last page of a file may be short. */
    method RunExtent(start: nat, end: nat, size: nat, ghost file: seq<byte>) returns (begin: nat, want: nat)
      requires start <= end && size == |file| && IsPage(file, pageSize, end)
      ensures begin == Mul(start, pageSize) <= PageEnd(file, pageSize, end) == begin + want
    {
      hide Mul;
      PageMonotone(file, pageSize, start, end);
      MulIs(start, pageSize);
      MulIs(end + 1, pageSize);
      MulLe(start, end + 1, pageSize);
      begin := start * pageSize;
      want := SaturatingSub(Min((end + 1) * pageSize, size), begin);
    }

    /** Read `len` bytes at `offset` through the cache: the file's bytes. Exactly the pages that were not cached, or were
        evicted before they were looked up, are fetched, each once; whatever was read is cached afterwards. */
    method Read(file: seq<byte>, offset: nat, len: nat)
      returns (r: Result<seq<byte>>, ghost runs: seq<PageRun>, ghost held: set<nat>)
      requires pageSize > 0 && Coherent(pages, file, pageSize)
      modifies this
      ensures Coherent(pages, file, pageSize)
      ensures r == if len == 0 then Ok([]) else ReadFile(file, offset, len)
      ensures r == if len == 0 then Ok([]) else if offset + len <= |file| then Ok(file[offset..offset + len]) else Err(OutOfBounds)
      ensures r.Ok? && len > 0 ==>
                var first, last := Quot(offset, pageSize), Quot(offset + len - 1, pageSize);
                && AreRuns(runs, first, last + 1)
                && (forall p :: first <= p <= last ==> (InRuns(p, runs) <==> p !in held))
                && (forall p :: first <= p <= last ==>
                      (p in held <==> p in old(pages) && p !in Dropped(evictions, old(clock), old(clock) + (p - first) + 1)))
                && (forall p :: first <= p <= last ==> p in pages || p in DroppedSince(old(clock)))
      ensures r.Err? || len == 0 ==> runs == [] && pages == old(pages)
    {
      hide Mul;
      hide Quot;
      hide Page;
      hide PageEnd;
      hide InRuns;
      hide Dropped;
      held := {};
      if len == 0 {
        return Ok([]), [], held;
      }
      if offset + len > |file| {
        return Err(OutOfBounds), [], held;
      }
      QuotRemIs(offset, pageSize);
      QuotRemIs(offset + len - 1, pageSize);
      var first, last := offset / pageSize, (offset + len - 1) / pageSize;
      QuotMonotone(offset, offset + len - 1, pageSize);
      PageOfByte(file, pageSize, offset + len - 1);
      var slots := Cached(first, last, file);
      held := slots.Keys;
      ghost var looked := clock;
      var missing := MissingRuns(slots, first, last);
      runs := missing;
      slots := FetchRuns(missing, slots, first, last, file);
      DroppedSplit(evictions, old(clock), looked, clock);
      r := Assemble(offset, len, first, last, slots, file);
    }

    /** Fetch every missing run. */
    method FetchRuns(runs: seq<PageRun>, held: map<nat, seq<byte>>, ghost first: nat, ghost last: nat, file: seq<byte>)
      returns (filled: map<nat, seq<byte>>)
      requires pageSize > 0 && Coherent(pages, file, pageSize) && Coherent(held, file, pageSize)
      requires first <= last && IsPage(file, pageSize, last) && AreRuns(runs, first, last + 1)
      modifies this
      ensures Coherent(pages, file, pageSize) && Coherent(filled, file, pageSize)
      ensures forall p :: p in filled <==> p in held || InRuns(p, runs)
      ensures clock >= old(clock)
      ensures forall p :: p in old(pages) || InRuns(p, runs) ==> p in pages || p in DroppedSince(old(clock))
    {
      hide Mul;
      hide Page;
      hide InRuns;
      filled := held;
      NoRuns();
      for k := 0 to |runs|
        invariant Coherent(pages, file, pageSize) && Coherent(filled, file, pageSize)
        invariant forall p :: p in filled <==> p in held || InRuns(p, runs[..k])
        invariant clock >= old(clock)
        invariant forall p :: p in old(pages) || InRuns(p, runs[..k]) ==> p in pages || p in DroppedSince(old(clock))
      {
        assert runs[..k + 1] == runs[..k] + [runs[k]];
        RunPushed(runs[..k], runs[k]);
        var (start, end) := runs[k];
        PageMonotone(file, pageSize, end, last);
        var begin, want := RunExtent(start, end, |file|, file);
        var bytes := file[begin..begin + want];
        ghost var before := clock;
        filled := StoreRun(start, end, bytes, filled, file);
        DroppedSplit(evictions, old(clock), before, clock);
      }
      assert runs[..|runs|] == runs;
    }

    /** Stitch an answer together from pages. */
    method Assemble(offset: nat, len: nat, first: nat, last: nat, held: map<nat, seq<byte>>, ghost file: seq<byte>)
      returns (r: Result<seq<byte>>)
      requires pageSize > 0 && len > 0 && offset + len <= |file| && Coherent(held, file, pageSize)
      requires first == Quot(offset, pageSize) && last == Quot(offset + len - 1, pageSize)
      requires forall p :: first <= p <= last ==> p in held
      ensures r == Ok(file[offset..offset + len])
    {
      hide Mul;
      hide Quot;
      hide Page;
      hide PageEnd;
      hide CutAt;
      QuotMonotone(offset, offset + len - 1, pageSize);
      MulIs(first, pageSize);
      if first == last {
        var page := held[first];
        OnePage(file, pageSize, offset, len);
        var at := offset - first * pageSize;
        if at + len > |page| {
          return Err(OutOfBounds);
        }
        return Ok(page[at..at + len]);
      }
      var out: seq<byte> := [];
      CutFirst(pageSize, offset, len, first);
      for index := first to last + 1
        invariant offset <= CutAt(pageSize, offset, len, first, index) <= offset + len
        invariant out == file[offset..CutAt(pageSize, offset, len, first, index)]
      {
        var page := held[index];
        MulIs(index, pageSize);
        AssembleStep(file, pageSize, offset, len, first, index, last);
        var pageStart := index * pageSize;
        var from := Max(offset, pageStart);
        var to := Min(offset + len, pageStart + |page|);
        if from < to {
          SliceExtend(file, offset, from, to);
          out := out + page[from - pageStart..to - pageStart];
        }
      }
      AssembleDone(file, pageSize, offset, len, first, last);
      if |out| != len {
        return Err(OutOfBounds);
      }
      return Ok(out);
    }
  }

  /** A page cache, if there is one, holds the file's own pages. */
  ghost predicate PagesOk(cache: IoCache?, file: seq<byte>)
    reads cache
  {
    cache != null ==> cache.pageSize > 0 && Coherent(cache.pages, file, cache.pageSize)
  }

  /** One read, through the page cache when there is one. */
  method ReadAt(file: seq<byte>, cache: IoCache?, offset: nat, len: nat) returns (r: Result<seq<byte>>)
    requires PagesOk(cache, file)
    modifies cache
    ensures PagesOk(cache, file)
    ensures r == SourceRead(file, cache != null, offset, len)
    ensures r == if cache != null && len == 0 then Ok([])
                 else if offset + len <= |file| then Ok(file[offset..offset + len]) else Err(OutOfBounds)
  {
    if cache == null {
      return ReadFile(file, offset, len);
    }
    var bytes, _, _ := cache.Read(file, offset, len);
    return bytes;
  }

  /** Fetch a batch through the page cache when there is one, else through the coalescer: the same bytes either way. */
  method FetchBytes(file: seq<byte>, cache: IoCache?, ranges: seq<Coalesce.Range>, config: Coalesce.IoConfig)
    returns (r: Result<seq<seq<byte>>>)
    requires PagesOk(cache, file)
    modifies cache
    ensures PagesOk(cache, file)
    ensures r.Ok? <==> Coalesce.Answerable(ranges, |file|, cache != null)
    ensures r.Ok? ==> |r.value| == |ranges|
                      && forall i :: 0 <= i < |ranges| ==> Ok(r.value[i]) == Coalesce.BytesOf(ranges[i], file)
    ensures r.Ok? ==> forall i :: 0 <= i < |ranges| ==>
              && |r.value[i]| == ranges[i].len
              && (ranges[i].len > 0 ==>
                    && ranges[i].offset + ranges[i].len <= |file|
                    && r.value[i] == file[ranges[i].offset..ranges[i].offset + ranges[i].len])
  {
    if cache == null {
      r := Coalesce.ReadRanges(file, ranges, config);
      return;
    }
    var out: seq<seq<byte>> := [];
    for i := 0 to |ranges|
      invariant Coherent(cache.pages, file, cache.pageSize)
      invariant |out| == i && forall j :: 0 <= j < i ==> Ok(out[j]) == Coalesce.BytesOf(ranges[j], file)
    {
      var bytes, _, _ := cache.Read(file, ranges[i].offset, ranges[i].len);
      if bytes.Err? {
        return Err(bytes.error);
      }
      out := out + [bytes.value];
    }
    return Ok(out);
  }
}
