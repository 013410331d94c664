/** Reads of compact and contiguous datasets, run by run (`crates/oxcdf-hdf5/src/read.rs`). */
module DenseReads {
  import opened Basics
  import opened Arith
  import opened RowMajor
  import opened Hyperslabs
  import opened Elements
  import opened Coalesce
  import PageCaches

  /** Every selected element lies inside the stored image. */
  ghost predicate Stored(data: seq<byte>, base: nat, shape: seq<nat>, slab: Hyperslab, width: nat)
    requires slab.Inside(shape)
  {
    forall d :: 0 <= d < Product(slab.count) ==> Has(data, base, SourceOf(shape, slab, d), width)
  }

  /** The stored image can be read: its selected elements lie in the file, or they have no bytes and pages answer for it. */
  ghost predicate Fetchable(file: seq<byte>, paged: bool, address: nat, shape: seq<nat>, slab: Hyperslab, width: nat)
    requires slab.Inside(shape)
  {
    Stored(file, address, shape, slab, width) || (paged && width == 0)
  }

  /** The first `n` output elements are the selected elements of the stored image. */
  ghost predicate Copied(out: seq<byte>, n: nat, data: seq<byte>, base: nat, shape: seq<nat>, slab: Hyperslab, width: nat)
    requires slab.Inside(shape) && n <= Product(slab.count)
  {
    forall d :: 0 <= d < n ==>
      && Has(out, 0, d, width)
      && Has(data, base, SourceOf(shape, slab, d), width)
      && Element(out, d, width) == StoredElement(data, base, SourceOf(shape, slab, d), width)
  }

  /** The dataset is held in memory as a whole; take the selected elements from it. */
  method CopyFromDense(out: array<byte>, src: seq<byte>, shape: seq<nat>, slab: Hyperslab, width: nat)
    returns (r: Result<()>)
    requires slab.Inside(shape) && Product(slab.count) <= U64_MAX
    requires out.Length == Mul(Product(slab.count), width)
    modifies out
    ensures r.Ok? <==> Stored(src, 0, shape, slab, width)
    ensures r.Ok? ==> Copied(out[..], Product(slab.count), src, 0, shape, slab, width)
  {
    hide Mul;
    hide Product;
    var runs := ForEachRun(shape, slab);
    for i := 0 to |runs|
      invariant Copied(out[..], Reached(runs, i), src, 0, shape, slab, width)
    {
      var run := runs[i];
      RunEnds(runs, i, Product(slab.count));
      MulIs(run.src, width);
      MulIs(run.dst, width);
      MulIs(run.len, width);
      MulAdd(run.dst, run.len, width);
      MulLe(run.dst + run.len, Product(slab.count), width);
      if run.src * width + run.len * width > |src| {
        RunOverruns(run, src, 0, shape, slab, width);
        return Err(Malformed);
      }
      RunCopied(out[..], run, src, 0, shape, slab, width);
      CopyRun(out, run.dst, src, 0, run.src, run.len, width);
    }
    RunEnds(runs, |runs|, Product(slab.count));
    return Ok(());
  }

  /** Read a selection out of a contiguous dataset, one file read per run. */
  method ReadContiguous(file: seq<byte>, address: nat, out: array<byte>, shape: seq<nat>, slab: Hyperslab, width: nat,
                        pages: PageCaches.IoCache?)
    returns (r: Result<()>)
    requires slab.Inside(shape) && Product(slab.count) <= U64_MAX
    requires out.Length == Mul(Product(slab.count), width)
    requires PageCaches.PagesOk(pages, file)
    modifies out, pages
    ensures PageCaches.PagesOk(pages, file)
    ensures r.Ok? <==> Fetchable(file, pages != null, address, shape, slab, width)
    ensures r.Ok? && width > 0 ==> Copied(out[..], Product(slab.count), file, address, shape, slab, width)
  {
    hide Mul;
    hide Product;
    hide Copied;
    var runs := ForEachRun(shape, slab);
    NothingCopied(out[..], file, address, shape, slab, width);
    for i := 0 to |runs|
      invariant PageCaches.PagesOk(pages, file)
      invariant forall j :: 0 <= j < i ==> RunRead(runs[j], file, pages != null, address, width)
      invariant width > 0 ==> Copied(out[..], Reached(runs, i), file, address, shape, slab, width)
    {
      var run := runs[i];
      RunEnds(runs, i, Product(slab.count));
      MulIs(run.src, width);
      MulIs(run.len, width);
      var bytes := PageCaches.ReadAt(file, pages, address + run.src * width, run.len * width);
      if bytes.Err? {
        RunOverruns(run, file, address, shape, slab, width);
        NoBytes(run, width);
        return Err(bytes.error);
      }
      WriteRun(out, run, bytes.value, file, pages != null, address, shape, slab, width);
    }
    RunEnds(runs, |runs|, Product(slab.count));
    AllRunsRead(runs, file, pages != null, address, shape, slab, width);
    return Ok(());
  }

  /** The asynchronous form: gather the runs, fetch them in one batch, then copy. */
  method ReadContiguousAsync(file: seq<byte>, address: nat, out: array<byte>, shape: seq<nat>, slab: Hyperslab, width: nat,
                             pages: PageCaches.IoCache?, config: IoConfig)
    returns (r: Result<()>)
    requires slab.Inside(shape) && Product(slab.count) <= U64_MAX
    requires out.Length == Mul(Product(slab.count), width)
    requires PageCaches.PagesOk(pages, file)
    modifies out, pages
    ensures PageCaches.PagesOk(pages, file)
    ensures r.Ok? <==> Fetchable(file, pages != null, address, shape, slab, width)
    ensures r.Ok? && width > 0 ==> Copied(out[..], Product(slab.count), file, address, shape, slab, width)
  {
    hide Mul;
    hide Product;
    hide Answerable;
    hide Copied;
    var runs := ForEachRun(shape, slab);
    var ranges := RunRanges(runs, address, width);
    RangesFetchable(runs, ranges, file, pages != null, address, shape, slab, width);
    var blobs := PageCaches.FetchBytes(file, pages, ranges, config);
    if blobs.Err? {
      return Err(blobs.error);
    }
    NothingCopied(out[..], file, address, shape, slab, width);
    for i := 0 to |runs|
      invariant PageCaches.PagesOk(pages, file)
      invariant width > 0 ==> Copied(out[..], Reached(runs, i), file, address, shape, slab, width)
    {
      var run := runs[i];
      RunEnds(runs, i, Product(slab.count));
      assert Ok(blobs.value[i]) == BytesOf(ranges[i], file);
      WriteRun(out, run, blobs.value[i], file, true, address, shape, slab, width);
    }
    RunEnds(runs, |runs|, Product(slab.count));
    return Ok(());
  }

  method RunRanges(runs: seq<Run>, address: nat, width: nat) returns (ranges: seq<Range>)
    ensures |ranges| == |runs| && forall j :: 0 <= j < |runs| ==> ranges[j] == RunRange(runs[j], address, width)
  {
    hide Mul;
    ranges := [];
    for i := 0 to |runs|
      invariant |ranges| == i
      invariant forall j :: 0 <= j < i ==> ranges[j] == RunRange(runs[j], address, width)
    {
      MulIs(runs[i].src, width);
      MulIs(runs[i].len, width);
      ranges := ranges + [Range(address + runs[i].src * width, runs[i].len * width)];
    }
  }

  ghost predicate RunRead(run: Run, file: seq<byte>, paged: bool, address: nat, width: nat) {
    SourceRead(file, paged, address + Mul(run.src, width), Mul(run.len, width)).Ok?
  }

  lemma {:induction false} RunFits(run: Run, total: nat, width: nat)
    requires run.dst + run.len <= total
    ensures Mul(run.dst, width) + Mul(run.len, width) <= Mul(total, width)
  {
    MulAdd(run.dst, run.len, width);
    MulLe(run.dst + run.len, total, width);
  }

  /** Only elements of no width have no bytes. */
  lemma {:induction false} NoBytes(run: Run, width: nat)
    requires run.len > 0
    ensures Mul(run.len, width) == 0 <==> width == 0
    ensures width == 0 ==> Mul(run.src, width) == 0
  {
    MulPositive(run.len, width);
    MulOne(run.src);
  }

  lemma {:induction false} NothingCopied(out: seq<byte>, data: seq<byte>, base: nat, shape: seq<nat>, slab: Hyperslab, width: nat)
    requires slab.Inside(shape)
    ensures Copied(out, 0, data, base, shape, slab, width)
  {
  }

  /** Writing one run's bytes finishes its elements. */
  method WriteRun(out: array<byte>, run: Run, bytes: seq<byte>, ghost file: seq<byte>, ghost paged: bool, ghost address: nat,
                  ghost shape: seq<nat>, ghost slab: Hyperslab, width: nat)
    requires slab.Inside(shape) && Follows(run, shape, slab) && out.Length == Mul(Product(slab.count), width)
    requires run.len > 0 && run.dst + run.len <= Product(slab.count)
    requires width > 0 ==> Copied(out[..], run.dst, file, address, shape, slab, width)
    requires Ok(bytes) == SourceRead(file, paged, address + Mul(run.src, width), Mul(run.len, width))
    modifies out
    ensures width > 0 ==> Copied(out[..], run.dst + run.len, file, address, shape, slab, width)
  {
    hide Mul;
    hide Product;
    hide Copied;
    NoBytes(run, width);
    RunFits(run, Product(slab.count), width);
    MulIs(run.dst, width);
    if width > 0 {
      RunCopied(out[..], run, file, address, shape, slab, width);
    }
    CopyBytes(out, run.dst * width, bytes);
  }

  /** All runs can be read exactly when the selection can. */
  lemma {:induction false} AllRunsRead(runs: seq<Run>, file: seq<byte>, paged: bool, address: nat, shape: seq<nat>, slab: Hyperslab, width: nat)
    requires slab.Inside(shape) && Tile(runs, Product(slab.count))
    requires forall i :: 0 <= i < |runs| ==> Follows(runs[i], shape, slab) && runs[i].len > 0
    ensures (forall i :: 0 <= i < |runs| ==> RunRead(runs[i], file, paged, address, width))
            <==> Fetchable(file, paged, address, shape, slab, width)
  {
    hide Mul;
    hide Product;
    forall i | 0 <= i < |runs| ensures Mul(runs[i].len, width) == 0 <==> width == 0 {
      NoBytes(runs[i], width);
    }
    if forall i :: 0 <= i < |runs| ==> RunRead(runs[i], file, paged, address, width) {
      if !(paged && width == 0) {
        forall d | 0 <= d < Product(slab.count) ensures Has(file, address, SourceOf(shape, slab, d), width) {
          var i := RunOf(runs, Product(slab.count), |runs|, d);
          assert RunRead(runs[i], file, paged, address, width);
          assert SourceOf(shape, slab, d) == runs[i].src + (d - runs[i].dst);
          RunFits(Run(0, runs[i].src, d - runs[i].dst + 1), runs[i].src + runs[i].len, width);
          MulAdd(runs[i].src, runs[i].len, width);
          MulAdd(runs[i].src, d - runs[i].dst, width);
          MulAdd(d - runs[i].dst, 1, width);
          MulOne(width);
        }
      }
    } else {
      var i :| 0 <= i < |runs| && !RunRead(runs[i], file, paged, address, width);
      RunOverruns(runs[i], file, address, shape, slab, width);
    }
  }

  /** The run that writes an output element. */
  lemma {:induction false} RunOf(runs: seq<Run>, total: nat, n: nat, d: nat) returns (i: nat)
    requires Tile(runs, total) && n <= |runs| && d < Reached(runs, n)
    ensures i < n && runs[i].dst <= d < runs[i].dst + runs[i].len
  {
    RunEnds(runs, n, total);
    if n > 0 {
      RunEnds(runs, n - 1, total);
      if d >= runs[n - 1].dst {
        i := n - 1;
      } else {
        i := RunOf(runs, total, n - 1, d);
      }
    }
  }

  lemma {:induction false} RangesFetchable(runs: seq<Run>, ranges: seq<Range>, file: seq<byte>, paged: bool, address: nat,
                                           shape: seq<nat>, slab: Hyperslab, width: nat)
    requires slab.Inside(shape) && |ranges| == |runs| && Tile(runs, Product(slab.count))
    requires forall i :: 0 <= i < |runs| ==> Follows(runs[i], shape, slab) && runs[i].len > 0
    requires forall i :: 0 <= i < |runs| ==> ranges[i] == RunRange(runs[i], address, width)
    ensures Answerable(ranges, |file|, paged) <==> Fetchable(file, paged, address, shape, slab, width)
  {
    hide Mul;
    hide Product;
    AllRunsRead(runs, file, paged, address, shape, slab, width);
    forall i | 0 <= i < |runs|
      ensures ranges[i].len == 0 <==> width == 0
      ensures width == 0 ==> ranges[i].offset == address
      ensures RunRead(runs[i], file, paged, address, width) <==>
              (paged && width == 0) || ranges[i].offset + ranges[i].len <= |file|
    {
      NoBytes(runs[i], width);
    }
    if runs != [] {
      assert ranges[0].offset + ranges[0].len <= |file| ==> ranges[0].offset <= |file|;
    }
  }

  ghost function RunRange(run: Run, address: nat, width: nat): Range {
    Range(address + Mul(run.src, width), Mul(run.len, width))
  }

  /** How much of the destination the first `i` runs cover. */
  ghost function Reached(runs: seq<Run>, i: nat): nat
    requires i <= |runs|
  {
    if i == 0 then 0 else runs[i - 1].dst + runs[i - 1].len
  }

  lemma {:induction false} RunEnds(runs: seq<Run>, i: nat, total: nat)
    requires Tile(runs, total) && i <= |runs|
    ensures Reached(runs, i) <= total && (i == |runs| ==> Reached(runs, i) == total)
    ensures i < |runs| ==> Reached(runs, i) == runs[i].dst && Reached(runs, i + 1) <= total
    decreases |runs| - i
  {
    if i < |runs| {
      RunEnds(runs, i + 1, total);
    }
  }

  /** A run that does not fit contains a selected element that does not fit. */
  lemma {:induction false} RunOverruns(run: Run, data: seq<byte>, base: nat, shape: seq<nat>, slab: Hyperslab, width: nat)
    requires slab.Inside(shape) && Follows(run, shape, slab) && run.len > 0
    requires base + Mul(run.src, width) + Mul(run.len, width) > |data|
    ensures !Stored(data, base, shape, slab, width)
  {
    var d := run.dst + run.len - 1;
    assert SourceOf(shape, slab, d) == run.src + (run.len - 1);
    MulAdd(run.src, run.len - 1, width);
  }

  lemma {:induction false} RunCopied(was: seq<byte>, run: Run, data: seq<byte>, base: nat, shape: seq<nat>, slab: Hyperslab, width: nat)
    requires slab.Inside(shape) && Follows(run, shape, slab) && |was| == Mul(Product(slab.count), width)
    requires Copied(was, run.dst, data, base, shape, slab, width)
    requires Mul(run.dst, width) + Mul(run.len, width) <= |was|
    requires base + Mul(run.src, width) + Mul(run.len, width) <= |data|
    ensures var from := base + Mul(run.src, width);
            var now := Splice(was, Mul(run.dst, width), Slice(data, from, Mul(run.len, width)));
            Copied(now, run.dst + run.len, data, base, shape, slab, width)
  {
    hide Mul;
    hide Product;
    hide Slice;
    hide Splice;
    var from := base + Mul(run.src, width);
    var now := Splice(was, Mul(run.dst, width), Slice(data, from, Mul(run.len, width)));
    forall d | 0 <= d < run.dst + run.len
      ensures Has(now, 0, d, width) && Has(data, base, SourceOf(shape, slab, d), width)
      ensures Element(now, d, width) == StoredElement(data, base, SourceOf(shape, slab, d), width)
    {
      HasLess(was, 0, d, Product(slab.count), width);
      if d < run.dst {
        KeptElement(was, run.dst, Slice(data, from, Mul(run.len, width)), run.len, width, d);
      } else {
        assert SourceOf(shape, slab, d) == run.src + (d - run.dst);
        SplicedElement(was, run.dst, data, base, run.src, run.len, width, d - run.dst);
      }
    }
  }
}
