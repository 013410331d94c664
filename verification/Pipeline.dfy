/** Undoing a chunk's filter pipeline (`crates/oxcdf-hdf5/src/filters.rs`). */
module Pipelines {
  import opened Basics
  import opened LittleEndian
  import opened Fletcher
  import opened Shuffles
  import opened ChunkCovers
  import opened ChunkedReads

  /** A compressor outside this model: deflate, zstd, or a blosc container. */
  datatype Codec = Codec(encode: seq<byte> -> seq<byte>, decode: seq<byte> -> Result<seq<byte>>)

  datatype Filter =
    | ShuffleFilter(width: nat)
    | Fletcher32Filter(bigEndian: bool)  // the byte order of the machine that wrote the checksum
    | Compressor(codec: Codec)
    | UnknownFilter

  ghost predicate Undoable(f: Filter) {
    match f
    case ShuffleFilter(_) => true
    case Fletcher32Filter(_) => true
    case Compressor(c) => forall x :: c.decode(c.encode(x)) == Ok(x)
    case UnknownFilter => false
  }

  // ---- stored checksums ----

  function FromBig(b: seq<byte>): nat
    requires |b| == 4
  {
    FromLittle([b[3], b[2], b[1], b[0]])
  }

  function StoredChecksum(x: nat, bigEndian: bool): (b: seq<byte>)
    requires x < TWO32
    ensures |b| == 4
  {
    var l := ToLittle(x, 4);
    if bigEndian then [l[3], l[2], l[1], l[0]] else l
  }

  /** The checksum matches the last four bytes in one byte order or the other. */
  predicate ChecksumMatches(data: seq<byte>)
    requires |data| >= 4
  {
    var split := |data| - 4;
    var c := Checksum(data[..split]);
    c == FromLittle(data[split..]) || c == FromBig(data[split..])
  }

  function Stripped(data: seq<byte>): Result<seq<byte>> {
    if |data| < 4 then Err(Malformed)
    else if ChecksumMatches(data) then Ok(data[..|data| - 4])
    else Err(ChecksumMismatch)
  }

  /** The last four bytes spell this number, the first of them low or the last of them low. */
  ghost predicate EndsWith(data: seq<byte>, x: nat)
    requires |data| >= 4
  {
    var b := data[|data| - 4..];
    || x == b[0] as int + 0x100 * b[1] as int + 0x1_0000 * b[2] as int + 0x100_0000 * b[3] as int
    || x == b[3] as int + 0x100 * b[2] as int + 0x1_0000 * b[1] as int + 0x100_0000 * b[0] as int
  }

  /** Stripping succeeds exactly on data that ends with the checksum of the rest, and takes away just that. */
  lemma {:induction false} StrippedMeans(data: seq<byte>)
    ensures Stripped(data).Ok? <==> |data| >= 4 && EndsWith(data, Checksum(data[..|data| - 4]))
    ensures Stripped(data).Ok? ==> Stripped(data).value == data[..|data| - 4]
    ensures Stripped(data).Err? ==> Stripped(data).error == if |data| < 4 then Malformed else ChecksumMismatch
  {
    hide Checksum;
    hide FromLittle;
    if |data| >= 4 {
      var b := data[|data| - 4..];
      LittleFour(b);
      LittleFour([b[3], b[2], b[1], b[0]]);
    }
  }

  /** Check the trailing checksum and remove it. */
  method VerifyAndStripFletcher32(data: seq<byte>) returns (r: Result<seq<byte>>)
    ensures r == Stripped(data)
    ensures r.Ok? <==> |data| >= 4 && EndsWith(data, Checksum(data[..|data| - 4]))
    ensures r.Ok? ==> r.value == data[..|data| - 4]
    ensures r.Err? ==> r.error == if |data| < 4 then Malformed else ChecksumMismatch
  {
    StrippedMeans(data);
    if |data| < 4 {
      return Err(Malformed);
    }
    var split := |data| - 4;
    var storedLe := FromLittle(data[split..]);
    var storedBe := FromBig(data[split..]);
    var computed := Fletcher32(data[..split]);
    if computed != storedLe && computed != storedBe {
      return Err(ChecksumMismatch);
    }
    return Ok(data[..split]);
  }

  lemma {:induction false} StripAppended(data: seq<byte>, bigEndian: bool)
    ensures Stripped(data + StoredChecksum(Checksum(data), bigEndian)) == Ok(data)
  {
    hide Checksum;
    hide ToLittle;
    hide FromLittle;
    var tail := StoredChecksum(Checksum(data), bigEndian);
    var all := data + tail;
    assert all[..|all| - 4] == data && all[|all| - 4..] == tail;
    Pow2Word();
    LittleRoundTrip(Checksum(data), 4);
    var l := ToLittle(Checksum(data), 4);
    assert [l[0], l[1], l[2], l[3]] == l;
  }

  // ---- one filter ----

  /** What a writer does. An unknown filter's effect is not modelled. */
  function Applied(f: Filter, data: seq<byte>): seq<byte> {
    match f
    case ShuffleFilter(width) => Shuffled(data, width)
    case Fletcher32Filter(big) => data + StoredChecksum(Checksum(data), big)
    case Compressor(c) => c.encode(data)
    case UnknownFilter => data
  }

  function Undone(f: Filter, data: seq<byte>): Result<seq<byte>> {
    match f
    case ShuffleFilter(width) => Ok(Unshuffled(data, width))
    case Fletcher32Filter(_) => Stripped(data)
    case Compressor(c) => c.decode(data)
    case UnknownFilter => Err(Unsupported)
  }

  lemma {:induction false} UndoApplied(f: Filter, data: seq<byte>)
    requires Undoable(f)
    ensures Undone(f, Applied(f, data)) == Ok(data)
  {
    hide Stripped;
    hide Checksum;
    match f
    case ShuffleFilter(width) => ShuffleRoundTrip(data, width);
    case Fletcher32Filter(big) => StripAppended(data, big);
    case Compressor(c) =>
  }

  /** What undoing one filter means, filter by filter. */
  lemma {:induction false} UndoneMeans(f: Filter, data: seq<byte>)
    ensures f.ShuffleFilter? ==> Undone(f, data).Ok? && IsShuffle(Undone(f, data).value, f.width, data)
    ensures f.Fletcher32Filter? ==>
              && (Undone(f, data).Ok? <==> |data| >= 4 && EndsWith(data, Checksum(data[..|data| - 4])))
              && (Undone(f, data).Ok? ==> Undone(f, data).value == data[..|data| - 4])
    ensures f.Compressor? ==> Undone(f, data) == f.codec.decode(data)
    ensures f.UnknownFilter? ==> Undone(f, data) == Err(Unsupported)
  {
    hide Checksum;
    hide Stripped;
    hide Unshuffled;
    hide IsShuffle;
    hide EndsWith;
    match f
    case ShuffleFilter(width) => ShuffledMeans(data, width);
    case Fletcher32Filter(_) => StrippedMeans(data);
    case Compressor(_) =>
    case UnknownFilter =>
  }

  method DecodeOne(f: Filter, data: seq<byte>) returns (r: Result<seq<byte>>)
    ensures r == Undone(f, data)
  {
    match f {
      case ShuffleFilter(width) =>
        var out := Unshuffle(data, width);
        r := Ok(out);
      case Fletcher32Filter(_) =>
        r := VerifyAndStripFletcher32(data);
      case Compressor(c) =>
        r := c.decode(data);
      case UnknownFilter =>
        r := Err(Unsupported);
    }
  }

  // ---- the pipeline ----

  /** The first `n` filters in write order, less those whose mask bit is set. */
  function ApplyAll(filters: seq<Filter>, mask: nat, n: nat, data: seq<byte>): seq<byte>
    requires n <= |filters|
  {
    if n == 0 then data
    else
      var before := ApplyAll(filters, mask, n - 1, data);
      if TestBit(mask, n - 1) then before else Applied(filters[n - 1], before)
  }

  function UndoAll(filters: seq<Filter>, mask: nat, n: nat, data: seq<byte>): Result<seq<byte>>
    requires n <= |filters|
  {
    if n == 0 then Ok(data)
    else if TestBit(mask, n - 1) then UndoAll(filters, mask, n - 1, data)
    else
      match Undone(filters[n - 1], data)
      case Ok(buf) => UndoAll(filters, mask, n - 1, buf)
      case Err(e) => Err(e)
  }

  /** Stage `j + 1` is stage `j` with filter `|filters| - 1 - j` undone, unless bit `|filters| - 1 - j` of the mask is set. */
  ghost predicate IsStage(filters: seq<Filter>, mask: nat, stages: seq<seq<byte>>, j: nat)
    requires j < |filters| && j + 1 < |stages|
  {
    var i := |filters| - 1 - j;
    if mask / Pow2(i) % 2 == 1 then stages[j + 1] == stages[j] else Undone(filters[i], stages[j]) == Ok(stages[j + 1])
  }

  /** The stages of a chunk on its way back, from the last filter to the first, up to the first that fails. */
  ghost predicate AreStages(filters: seq<Filter>, mask: nat, data: seq<byte>, stages: seq<seq<byte>>) {
    0 < |stages| <= |filters| + 1 && stages[0] == data
    && forall j :: 0 <= j < |stages| - 1 ==> IsStage(filters, mask, stages, j)
  }

  /** The pipeline succeeds with the last stage when there is one for every filter; otherwise an unmasked filter failed. */
  ghost predicate EndsAs(filters: seq<Filter>, mask: nat, stages: seq<seq<byte>>, r: Result<seq<byte>>)
    requires 0 < |stages| <= |filters| + 1
  {
    if |stages| == |filters| + 1 then r == Ok(stages[|filters|])
    else
      var i := |filters| - |stages|;
      mask / Pow2(i) % 2 == 0 && r.Err? && Undone(filters[i], stages[|stages| - 1]) == r
  }

  /** One more stage. */
  lemma {:induction false} NextStage(filters: seq<Filter>, mask: nat, data: seq<byte>, stages: seq<seq<byte>>, next: seq<byte>)
    requires AreStages(filters, mask, data, stages) && |stages| <= |filters|
    requires var i := |filters| - |stages|;
             if TestBit(mask, i) then next == stages[|stages| - 1] else Undone(filters[i], stages[|stages| - 1]) == Ok(next)
    ensures AreStages(filters, mask, data, stages + [next])
  {
    hide Undone;
    hide TestBit;
    var more, n := stages + [next], |stages|;
    BitIs(mask, |filters| - n);
    forall j | 0 <= j < n ensures IsStage(filters, mask, more, j) {
      if j < n - 1 {
        assert IsStage(filters, mask, stages, j);
      }
    }
  }

  /** From stored bytes back to what the writer was given. */
  method DecodeChunk(filters: seq<Filter>, mask: nat, data: seq<byte>) returns (r: Result<seq<byte>>, ghost stages: seq<seq<byte>>)
    requires |filters| <= 32
    ensures r == UndoAll(filters, mask, |filters|, data)
    ensures AreStages(filters, mask, data, stages) && EndsAs(filters, mask, stages, r)
  {
    hide TestBit;
    hide IsStage;
    hide AreStages;
    stages := [data];
    FirstStage(filters, mask, data);
    hide Undone;
    var buf := data;
    var index := |filters|;
    while index > 0
      invariant 0 <= index <= |filters|
      invariant UndoAll(filters, mask, |filters|, data) == UndoAll(filters, mask, index, buf)
      invariant |stages| == |filters| - index + 1 && stages[|stages| - 1] == buf && AreStages(filters, mask, data, stages)
    {
      index := index - 1;
      BitIs(mask, index);
      if TestBit(mask, index) {
        NextStage(filters, mask, data, stages, buf);
        stages := stages + [buf];
        continue;
      }
      var one := DecodeOne(filters[index], buf);
      if one.Err? {
        return Err(one.error), stages;
      }
      NextStage(filters, mask, data, stages, one.value);
      buf := one.value;
      stages := stages + [buf];
    }
    return Ok(buf), stages;
  }

  lemma {:induction false} FirstStage(filters: seq<Filter>, mask: nat, data: seq<byte>)
    ensures AreStages(filters, mask, data, [data])
  {
  }

  /** Decoding undoes the writer, whatever filters the mask skipped. */
  lemma {:induction false} PipelineRoundTrip(filters: seq<Filter>, mask: nat, n: nat, data: seq<byte>)
    requires n <= |filters|
    requires forall i :: 0 <= i < n && !TestBit(mask, i) ==> Undoable(filters[i])
    ensures UndoAll(filters, mask, n, ApplyAll(filters, mask, n, data)) == Ok(data)
  {
    hide Undone;
    hide Applied;
    if n > 0 {
      PipelineRoundTrip(filters, mask, n - 1, data);
      if !TestBit(mask, n - 1) {
        UndoApplied(filters[n - 1], ApplyAll(filters, mask, n - 1, data));
      }
    }
  }

  /** A chunk the pipeline wrote at a record's address is what a read of that record sees. */
  lemma {:induction false} WrittenChunkReads(filters: seq<Filter>, file: seq<byte>, paged: bool, record: ChunkRecord, chunk: seq<byte>)
    requires forall i :: 0 <= i < |filters| && !TestBit(record.filterMask, i) ==> Undoable(filters[i])
    requires ReadFile(file, record.address, record.size) == Ok(ApplyAll(filters, record.filterMask, |filters|, chunk))
    ensures Storage(file, paged, (raw, mask) => UndoAll(filters, mask, |filters|, raw)).Chunk(record) == Ok(chunk)
  {
    hide UndoAll;
    hide ApplyAll;
    PipelineRoundTrip(filters, record.filterMask, |filters|, chunk);
    assert record.size == 0 ==> file[record.address..record.address + record.size] == [];
  }
}
