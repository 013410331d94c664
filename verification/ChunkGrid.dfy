/** The chunk grid: row-major enumeration of its cells and the chunks clipped to the dataset
    (`crates/oxcdf-hdf5/src/chunk_index.rs`, `crates/oxcdf-hdf5/src/read.rs`). */
module ChunkGrids {
  import opened Basics
  import opened Arith
  import opened RowMajor
  import opened Hyperslabs
  import opened ChunkCovers
  import opened ChunkedReads
  import Bytes = Elements
  import opened ReadEngine

  const U32_MAX: nat := 0xffff_ffff

  /** Number of chunks along one axis: the ceiling of the quotient, or none when the width is zero. */
  function GridAt(dim: nat, width: nat): nat {
    if width == 0 then 0 else Quot(dim + width - 1, width)
  }

  function ChunkGrid(shape: seq<nat>, dims: seq<nat>): (g: seq<nat>)
    requires |shape| == |dims|
    ensures |g| == |shape| && forall a :: 0 <= a < |g| ==> g[a] == GridAt(shape[a], dims[a])
  {
    seq(|shape|, a requires 0 <= a < |shape| => GridAt(shape[a], dims[a]))
  }

  /** Element offset of a grid cell. */
  function Scale(cell: Index, dims: seq<nat>): (o: Index)
    requires |cell| == |dims|
    ensures |o| == |cell| && forall a :: 0 <= a < |o| ==> o[a] == Mul(cell[a], dims[a])
  {
    seq(|cell|, a requires 0 <= a < |cell| => Mul(cell[a], dims[a]))
  }

  /** Where the chunk with number `index` begins, chunks being numbered row by row. */
  method ChunkOffset(index: nat, grid: seq<nat>, dims: seq<nat>) returns (out: Index)
    requires |grid| == |dims|
    ensures |out| == |grid|
    ensures index < Product(grid) ==> out == Scale(Unravel(index, grid), dims)
  {
    hide Quot;
    hide Rem;
    hide Unravel;
    hide Product;
    hide Mul;
    var rank := |grid|;
    out := seq(rank, _ => 0);
    var rest: nat, axis: nat := index, rank;
    ghost var digits: Index := [];
    assert grid[..rank] == grid;
    while axis > 0
      invariant 0 <= axis <= rank && |out| == rank && |digits| == rank - axis
      invariant forall a :: axis <= a < rank ==> out[a] == Mul(digits[a - axis], dims[a])
      invariant index < Product(grid) ==>
        rest < Product(grid[..axis]) && Unravel(index, grid) == Unravel(rest, grid[..axis]) + digits
    {
      axis := axis - 1;
      var extent := Max(grid[axis], 1);
      QuotRemIs(rest, extent);
      MulIs(Rem(rest, extent), dims[axis]);
      ghost var before := digits;
      if index < Product(grid) {
        UnravelSnoc(rest, grid[..axis + 1]);
        assert grid[..axis + 1][..axis] == grid[..axis];
      }
      digits := [Rem(rest, extent)] + before;
      out := out[axis := (rest % extent) * dims[axis]];
      rest := rest / extent;
    }
    if index < Product(grid) {
      ScalarUnravel(rest, grid[..0]);
      assert Unravel(index, grid) == digits;
    }
  }

  lemma {:induction false} ScalarUnravel(n: nat, dims: seq<nat>)
    requires dims == [] && n < Product(dims)
    ensures Unravel(n, dims) == []
  {
  }

  // ---- the enumeration ----

  ghost predicate Positive(dims: seq<nat>) {
    forall a :: 0 <= a < |dims| ==> dims[a] > 0
  }

  /** Scaling by positive widths keeps lexicographic order. */
  lemma {:induction false} ScaleMonotone(a: Index, b: Index, dims: seq<nat>)
    requires |a| == |b| == |dims| && Positive(dims)
    ensures LexLess(a, b) <==> LexLess(Scale(a, dims), Scale(b, dims))
  {
    if a != [] {
      ScaleMonotone(a[1..], b[1..], dims[1..]);
      assert Scale(a, dims)[1..] == Scale(a[1..], dims[1..]);
      assert Scale(b, dims)[1..] == Scale(b[1..], dims[1..]);
      if a[0] < b[0] {
        MulLe(a[0] + 1, b[0], dims[0]);
      } else if b[0] < a[0] {
        MulLe(b[0] + 1, a[0], dims[0]);
      }
    }
  }

  /** Chunk numbers enumerate the grid in strictly increasing lexicographic order of their offsets. */
  lemma {:induction false} OffsetsIncrease(i: nat, j: nat, grid: seq<nat>, dims: seq<nat>)
    requires |grid| == |dims| && Positive(dims) && i < j < Product(grid)
    ensures LexLess(Scale(Unravel(i, grid), dims), Scale(Unravel(j, grid), dims))
  {
    RavelUnravel(i, grid);
    RavelUnravel(j, grid);
    RavelMonotone(Unravel(i, grid), Unravel(j, grid), grid);
    ScaleMonotone(Unravel(i, grid), Unravel(j, grid), dims);
  }

  /** The number of the chunk that holds a coordinate. */
  ghost function CellNumberOf(coord: Index, shape: seq<nat>, dims: seq<nat>): (n: nat)
    requires |shape| == |dims| && Positive(dims) && InBox(coord, shape)
    ensures n < Product(ChunkGrid(shape, dims))
  {
    var cell := GridCell(coord, shape, dims);
    RavelBound(cell, ChunkGrid(shape, dims));
    Ravel(cell, ChunkGrid(shape, dims))
  }

  ghost function GridCell(coord: Index, shape: seq<nat>, dims: seq<nat>): (u: Index)
    requires |shape| == |dims| && Positive(dims) && InBox(coord, shape)
    ensures InBox(u, ChunkGrid(shape, dims)) && forall a :: 0 <= a < |u| ==> u[a] == Quot(coord[a], dims[a])
  {
    var u := seq(|coord|, a requires 0 <= a < |coord| => Quot(coord[a], dims[a]));
    assert forall a :: 0 <= a < |coord| ==> u[a] < ChunkGrid(shape, dims)[a] by {
      forall a | 0 <= a < |coord| ensures u[a] < GridAt(shape[a], dims[a]) {
        CellBelowGrid(coord[a], shape[a], dims[a]);
      }
    }
    u
  }

  lemma {:induction false} CellBelowGrid(x: nat, dim: nat, width: nat)
    requires x < dim && width > 0
    ensures Quot(x, width) < GridAt(dim, width)
  {
    QuotMonotone(x + width, dim + width - 1, width);
  }

  /** The grid's chunks partition the dataset: exactly one of them holds each coordinate. */
  lemma {:induction false} ExactlyOneChunk(coord: Index, shape: seq<nat>, dims: seq<nat>, i: nat)
    requires |shape| == |dims| && Positive(dims) && InBox(coord, shape) && i < Product(ChunkGrid(shape, dims))
    ensures Contains(Scale(Unravel(i, ChunkGrid(shape, dims)), dims), dims, coord) <==> i == CellNumberOf(coord, shape, dims)
  {
    hide Quot;
    hide Ravel;
    hide Unravel;
    hide Product;
    hide Mul;
    var grid := ChunkGrid(shape, dims);
    var u, cell := Unravel(i, grid), GridCell(coord, shape, dims);
    forall a | 0 <= a < |coord|
      ensures Mul(u[a], dims[a]) <= coord[a] < Mul(u[a], dims[a]) + dims[a] <==> u[a] == cell[a]
    {
      QuotRem(coord[a], dims[a]);
      if Mul(u[a], dims[a]) <= coord[a] < Mul(u[a], dims[a]) + dims[a] {
        QuotRemUnique(u[a], coord[a] - Mul(u[a], dims[a]), dims[a]);
      }
    }
    RavelUnravel(i, grid);
    if i == CellNumberOf(coord, shape, dims) {
      RavelInjective(u, cell, grid);
    }
    if Contains(Scale(u, dims), dims, coord) {
      assert u == cell;
    }
  }

  // ---- clipped chunks ----

  function ClipAt(origin: nat, width: nat, dim: nat): nat {
    Min(width, SaturatingSub(dim, origin))
  }

  /** The part of a grid chunk inside the dataset. */
  function Clip(cell: Index, shape: seq<nat>, dims: seq<nat>): (c: seq<nat>)
    requires |cell| == |shape| == |dims|
    ensures |c| == |cell| && forall a :: 0 <= a < |c| ==> c[a] == ClipAt(Mul(cell[a], dims[a]), dims[a], shape[a])
  {
    seq(|cell|, a requires 0 <= a < |cell| => ClipAt(Mul(cell[a], dims[a]), dims[a], shape[a]))
  }

  /** Elements in the first `n` clipped chunks. */
  ghost function Elements(n: nat, shape: seq<nat>, dims: seq<nat>): nat
    requires |shape| == |dims| && n <= Product(ChunkGrid(shape, dims))
  {
    if n == 0 then 0
    else Elements(n - 1, shape, dims) + Product(Clip(Unravel(n - 1, ChunkGrid(shape, dims)), shape, dims))
  }

  /** Elements along one axis in its first `q` chunks. */
  ghost function Along(q: nat, dim: nat, width: nat): nat {
    Min(Mul(q, width), dim)
  }

  lemma {:induction false} AlongStep(q: nat, dim: nat, width: nat)
    ensures Along(q + 1, dim, width) == Along(q, dim, width) + ClipAt(Mul(q, width), width, dim)
  {
  }

  lemma {:induction false} AlongAll(dim: nat, width: nat)
    requires width > 0
    ensures Along(GridAt(dim, width), dim, width) == dim
  {
    QuotRem(dim + width - 1, width);
  }

  lemma {:induction false} GridTail(shape: seq<nat>, dims: seq<nat>)
    requires |shape| == |dims| > 0
    ensures ChunkGrid(shape, dims)[1..] == ChunkGrid(shape[1..], dims[1..])
  {
  }

  /** One chunk's size splits into its extent along the first axis and the chunk of the remaining axes. */
  lemma {:induction false} ChunkSplit(q: nat, r: nat, shape: seq<nat>, dims: seq<nat>)
    requires |shape| == |dims| > 0
    requires q < GridAt(shape[0], dims[0]) && r < Product(ChunkGrid(shape[1..], dims[1..]))
    ensures var tail := Product(ChunkGrid(shape[1..], dims[1..]));
            && Mul(q, tail) + r < Product(ChunkGrid(shape, dims))
            && Product(Clip(Unravel(Mul(q, tail) + r, ChunkGrid(shape, dims)), shape, dims))
            == Mul(ClipAt(Mul(q, dims[0]), dims[0], shape[0]),
                   Product(Clip(Unravel(r, ChunkGrid(shape[1..], dims[1..])), shape[1..], dims[1..])))
  {
    hide Mul;
    hide Unravel;
    hide ClipAt;
    hide GridAt;
    var grid, rest := ChunkGrid(shape, dims), ChunkGrid(shape[1..], dims[1..]);
    var tail := Product(rest);
    GridTail(shape, dims);
    UnravelHead(q, r, grid);
    var u, v := Unravel(Mul(q, tail) + r, grid), Unravel(r, rest);
    assert Clip(u, shape, dims)[1..] == Clip(v, shape[1..], dims[1..]);
  }

  lemma {:induction false} UnravelHead(q: nat, r: nat, grid: seq<nat>)
    requires |grid| > 0 && q < grid[0] && r < Product(grid[1..])
    ensures Mul(q, Product(grid[1..])) + r < Product(grid)
    ensures Unravel(Mul(q, Product(grid[1..])) + r, grid) == [q] + Unravel(r, grid[1..])
  {
    hide Quot;
    hide Rem;
    MulLe(q + 1, grid[0], Product(grid[1..]));
    QuotRemUnique(q, r, Product(grid[1..]));
  }

  /** Elements in the first `q` slabs along the first axis and the first `r` chunks of the next slab. */
  ghost function Prefix(q: nat, r: nat, shape: seq<nat>, dims: seq<nat>): nat
    requires |shape| == |dims| > 0 && r <= Product(ChunkGrid(shape[1..], dims[1..]))
  {
    Mul(Along(q, shape[0], dims[0]), Product(shape[1..]))
    + Mul(ClipAt(Mul(q, dims[0]), dims[0], shape[0]), Elements(r, shape[1..], dims[1..]))
  }

  lemma {:induction false} PrefixRow(q: nat, r: nat, shape: seq<nat>, dims: seq<nat>)
    requires |shape| == |dims| > 0 && 0 < r <= Product(ChunkGrid(shape[1..], dims[1..]))
    ensures Prefix(q, r, shape, dims) == Prefix(q, r - 1, shape, dims)
            + Mul(ClipAt(Mul(q, dims[0]), dims[0], shape[0]),
                  Product(Clip(Unravel(r - 1, ChunkGrid(shape[1..], dims[1..])), shape[1..], dims[1..])))
  {
    hide Mul;
    hide Product;
    hide Unravel;
    hide ClipAt;
    var clip := ClipAt(Mul(q, dims[0]), dims[0], shape[0]);
    var before := Elements(r - 1, shape[1..], dims[1..]);
    var last := Product(Clip(Unravel(r - 1, ChunkGrid(shape[1..], dims[1..])), shape[1..], dims[1..]));
    MulComm(clip, before + last);
    MulComm(clip, before);
    MulComm(clip, last);
    MulAdd(before, last, clip);
  }

  lemma {:induction false} PrefixSlab(q: nat, shape: seq<nat>, dims: seq<nat>)
    requires |shape| == |dims| > 0 && q > 0
    requires Elements(Product(ChunkGrid(shape[1..], dims[1..])), shape[1..], dims[1..]) == Product(shape[1..])
    ensures Prefix(q, 0, shape, dims) == Prefix(q - 1, Product(ChunkGrid(shape[1..], dims[1..])), shape, dims)
  {
    hide Mul;
    hide Product;
    hide Unravel;
    hide ClipAt;
    hide Along;
    MulOne(ClipAt(Mul(q, dims[0]), dims[0], shape[0]));
    AlongStep(q - 1, shape[0], dims[0]);
    MulAdd(Along(q - 1, shape[0], dims[0]), ClipAt(Mul(q - 1, dims[0]), dims[0], shape[0]), Product(shape[1..]));
  }

  lemma {:induction false} ElementsPrefix(q: nat, r: nat, shape: seq<nat>, dims: seq<nat>)
    requires |shape| == |dims| > 0 && Positive(dims)
    requires q < GridAt(shape[0], dims[0]) || (q == GridAt(shape[0], dims[0]) && r == 0)
    requires r <= Product(ChunkGrid(shape[1..], dims[1..]))
    ensures Mul(q, Product(ChunkGrid(shape[1..], dims[1..]))) + r <= Product(ChunkGrid(shape, dims))
    ensures Elements(Mul(q, Product(ChunkGrid(shape[1..], dims[1..]))) + r, shape, dims) == Prefix(q, r, shape, dims)
    decreases |shape|, q, r
  {
    hide Unravel;
    hide Product;
    hide ClipAt;
    hide GridAt;
    var tail := Product(ChunkGrid(shape[1..], dims[1..]));
    PrefixFits(q, r, shape, dims);
    if r > 0 {
      ChunkSplit(q, r - 1, shape, dims);
      ElementsPrefix(q, r - 1, shape, dims);
      PrefixRow(q, r, shape, dims);
    } else if q > 0 {
      ElementsPrefix(q - 1, tail, shape, dims);
      ElementsAll(shape[1..], dims[1..]);
      PrefixSlab(q, shape, dims);
    } else {
      MulOne(ClipAt(Mul(q, dims[0]), dims[0], shape[0]));
    }
  }

  lemma {:induction false} PrefixFits(q: nat, r: nat, shape: seq<nat>, dims: seq<nat>)
    requires |shape| == |dims| > 0
    requires q < GridAt(shape[0], dims[0]) || (q == GridAt(shape[0], dims[0]) && r == 0)
    requires r <= Product(ChunkGrid(shape[1..], dims[1..]))
    ensures Mul(q, Product(ChunkGrid(shape[1..], dims[1..]))) + r <= Product(ChunkGrid(shape, dims))
  {
    var tail := Product(ChunkGrid(shape[1..], dims[1..]));
    GridTail(shape, dims);
    if q < GridAt(shape[0], dims[0]) {
      MulLe(q + 1, GridAt(shape[0], dims[0]), tail);
    }
  }

  /** The clipped chunks' element counts sum to the dataset's. */
  lemma {:induction false} ElementsAll(shape: seq<nat>, dims: seq<nat>)
    requires |shape| == |dims| && Positive(dims)
    ensures Elements(Product(ChunkGrid(shape, dims)), shape, dims) == Product(shape)
    decreases |shape|
  {
    if shape == [] {
      assert ChunkGrid(shape, dims) == [];
      assert Clip(Unravel(0, []), shape, dims) == [];
    } else {
      var g := GridAt(shape[0], dims[0]);
      GridTail(shape, dims);
      ElementsPrefix(g, 0, shape, dims);
      AlongAll(shape[0], dims[0]);
      MulOne(ClipAt(Mul(g, dims[0]), dims[0], shape[0]));
    }
  }

  // ---- the implicit index ----

  /** Chunks back to back in row-major chunk order. A grid of more chunks than the file has bytes is refused. */
  method ReadImplicit(fileSize: nat, address: nat, shape: seq<nat>, dims: seq<nat>, width: nat)
    returns (r: Result<seq<ChunkRecord>>)
    requires |shape| == |dims| && fileSize < U64_MAX
    ensures r.Err? <==> Product(ChunkGrid(shape, dims)) > fileSize
    ensures r.Ok? ==> IsImplicit(r.value, address, shape, dims, width)
    // Each chunk begins where the one before it ends, as long as 64 bits can say where that is.
    ensures r.Ok? ==> |r.value| == Product(ChunkGrid(shape, dims))
    ensures r.Ok? ==> forall i :: 0 <= i < |r.value| ==>
              && r.value[i].address == Min(address + i * (Product(dims) * width), 0xffff_ffff_ffff_ffff)
              && r.value[i].size == Min(Product(dims) * width, 0xffff_ffff) && r.value[i].filterMask == 0
  {
    hide Mul;
    hide Product;
    hide Unravel;
    var grid := ChunkGrid(shape, dims);
    var total := ElementCount(grid);
    var cells := ElementCount(dims);
    MulIs(cells, width);
    SaturateStep(Product(dims), width);
    var unfiltered := Min(cells * width, U64_MAX);
    var stored := Min(unfiltered, U32_MAX);
    if total > fileSize {
      return Err(Malformed);
    }
    var records: seq<ChunkRecord> := [];
    for i := 0 to total
      invariant |records| == i
      invariant forall j :: 0 <= j < i ==> records[j] == ImplicitRecord(j, address, shape, dims, width)
    {
      var offset := ChunkOffset(i, grid, dims);
      MulIs(i, unfiltered);
      records := records + [ChunkRecord(stored, 0, offset, SaturatingAdd(address, Min(i * unfiltered, U64_MAX)))];
    }
    forall i | 0 <= i < |records|
      ensures records[i].address == Min(address + i * (Product(dims) * width), 0xffff_ffff_ffff_ffff)
      ensures records[i].size == Min(Product(dims) * width, 0xffff_ffff) && records[i].filterMask == 0
    {
      ImplicitAddress(i, address, shape, dims, width);
    }
    return Ok(records);
  }

  lemma {:induction false} ImplicitAddress(i: nat, address: nat, shape: seq<nat>, dims: seq<nat>, width: nat)
    requires |shape| == |dims| && i < Product(ChunkGrid(shape, dims))
    ensures var record := ImplicitRecord(i, address, shape, dims, width);
            && record.address == Min(address + i * (Product(dims) * width), 0xffff_ffff_ffff_ffff)
            && record.size == Min(Product(dims) * width, 0xffff_ffff) && record.filterMask == 0
  {
    hide Mul;
    hide Product;
    hide Unravel;
    var bytes := Mul(Product(dims), width);
    MulIs(Product(dims), width);
    MulIs(i, bytes);
    SaturateStep(bytes, i);
    MulComm(i, bytes);
    MulComm(i, Min(bytes, U64_MAX));
  }

  /** Neighbouring chunks of an implicit index abut in the file. */
  lemma {:induction false} ImplicitAbuts(records: seq<ChunkRecord>, address: nat, shape: seq<nat>, dims: seq<nat>, width: nat, i: nat)
    requires |shape| == |dims| && IsImplicit(records, address, shape, dims, width)
    requires i + 1 < |records| && records[i + 1].address < 0xffff_ffff_ffff_ffff
    ensures records[i].address + Product(dims) * width == records[i + 1].address
  {
    hide Product;
    hide Mul;
    hide Unravel;
    assert records[i] == ImplicitRecord(i, address, shape, dims, width);
    assert records[i + 1] == ImplicitRecord(i + 1, address, shape, dims, width);
    ImplicitAddress(i, address, shape, dims, width);
    ImplicitAddress(i + 1, address, shape, dims, width);
    var bytes := Product(dims) * width;
    assert (i + 1) * bytes == i * bytes + bytes;
  }

  ghost function ImplicitRecord(i: nat, address: nat, shape: seq<nat>, dims: seq<nat>, width: nat): ChunkRecord
    requires |shape| == |dims| && i < Product(ChunkGrid(shape, dims))
  {
    var unfiltered := Min(Mul(Product(dims), width), U64_MAX);
    ChunkRecord(Min(unfiltered, U32_MAX), 0, Scale(Unravel(i, ChunkGrid(shape, dims)), dims),
                SaturatingAdd(address, Min(Mul(i, unfiltered), U64_MAX)))
  }

  ghost predicate IsImplicit(records: seq<ChunkRecord>, address: nat, shape: seq<nat>, dims: seq<nat>, width: nat)
    requires |shape| == |dims|
  {
    |records| == Product(ChunkGrid(shape, dims))
    && forall i :: 0 <= i < |records| ==> records[i] == ImplicitRecord(i, address, shape, dims, width)
  }

  /** The implicit index comes out sorted, distinct and on the grid, so the sort that follows moves nothing. */
  lemma {:induction false} ImplicitSorted(records: seq<ChunkRecord>, address: nat, shape: seq<nat>, dims: seq<nat>, width: nat)
    requires |shape| == |dims| && Positive(dims) && IsImplicit(records, address, shape, dims, width)
    ensures DistinctOnGrid(records, dims)
    ensures forall i, j :: 0 <= i < j < |records| ==>
              |records[i].offset| == |records[j].offset| && LexLess(records[i].offset, records[j].offset)
  {
    var grid := ChunkGrid(shape, dims);
    forall i | 0 <= i < |records| ensures OnGrid(records[i].offset, dims) {
      assert records[i].offset == Scale(Unravel(i, grid), dims);
      ScaleOnGrid(Unravel(i, grid), dims);
    }
    forall i, j | 0 <= i < j < |records|
      ensures |records[i].offset| == |records[j].offset| && LexLess(records[i].offset, records[j].offset)
      ensures records[i].offset != records[j].offset
    {
      OffsetsIncrease(i, j, grid, dims);
      LexIrreflexive(records[i].offset);
    }
  }

  lemma {:induction false} LexIrreflexive(a: Index)
    ensures !LexLess(a, a)
  {
    if a != [] {
      LexIrreflexive(a[1..]);
    }
  }

  lemma {:induction false} ScaleOnGrid(cell: Index, dims: seq<nat>)
    requires |cell| == |dims| && Positive(dims)
    ensures OnGrid(Scale(cell, dims), dims)
  {
    forall a | 0 <= a < |cell| ensures Aligned(Mul(cell[a], dims[a]), dims[a]) {
      QuotRemUnique(cell[a], 0, dims[a]);
    }
  }

  /** An implicit index covers every selection, so its reads never fill. */
  lemma {:induction false} ImplicitCovers(records: seq<ChunkRecord>, address: nat, shape: seq<nat>, dims: seq<nat>, width: nat, slab: Hyperslab)
    requires |shape| == |dims| && Positive(dims) && width > 0 && IsImplicit(records, address, shape, dims, width)
    requires slab.Inside(shape)
    ensures Covered(records, dims, slab)
  {
    hide Unravel;
    hide Product;
    hide Mul;
    ImplicitSorted(records, address, shape, dims, width);
    ProductPositive(dims);
    MulPositive(Product(dims), width);
    forall coord | slab.Selects(coord)
      ensures exists i :: 0 <= i < |records| && Serves(records[i], dims, coord)
    {
      var i := CellNumberOf(coord, shape, dims);
      ExactlyOneChunk(coord, shape, dims, i);
      assert records[i] == ImplicitRecord(i, address, shape, dims, width);
      assert Serves(records[i], dims, coord);
    }
  }

  // ---- the chunks a caller iterates over ----

  datatype Chunk = Chunk(offset: Index, shape: seq<nat>, storedSize: nat)

  /** One record clipped to the dataset, or nothing when it starts outside or either has too few axes. */
  function ClipRecord(record: ChunkRecord, shape: seq<nat>, dims: seq<nat>): Option<Chunk> {
    if |record.offset| >= |shape| && |dims| >= |shape| && forall a :: 0 <= a < |shape| ==> record.offset[a] < shape[a] then
      Some(Chunk(record.offset,
                 seq(|shape|, a requires 0 <= a < |shape| && |record.offset| >= |shape| && |dims| >= |shape| =>
                   ClipAt(record.offset[a], dims[a], shape[a])),
                 record.size))
    else None
  }

  ghost function ClipAll(records: seq<ChunkRecord>, shape: seq<nat>, dims: seq<nat>): seq<Chunk> {
    if records == [] then []
    else
      var n := |records| - 1;
      var last := ClipRecord(records[n], shape, dims);
      ClipAll(records[..n], shape, dims) + (if last.Some? then [last.value] else [])
  }

  /** A dataset without chunks, as one. */
  ghost function Whole(shape: seq<nat>, width: nat): Chunk {
    Chunk(seq(|shape|, _ => 0), shape, Min(Mul(Product(shape), width), U64_MAX))
  }

  /** Every stored chunk clipped to the dataset's bounds, or the whole dataset where it is not chunked. */
  method ChunksOf(records: Option<seq<ChunkRecord>>, shape: seq<nat>, dims: Option<seq<nat>>, width: nat) returns (chunks: seq<Chunk>)
    ensures chunks == if dims.Some? && records.Some? then ClipAll(records.value, shape, dims.value) else [Whole(shape, width)]
  {
    hide Mul;
    hide Product;
    if dims.None? || records.None? {
      var elements := ElementCount(shape);
      MulIs(elements, width);
      SaturateStep(Product(shape), width);
      return [Chunk(seq(|shape|, _ => 0), shape, Min(elements * width, U64_MAX))];
    }
    chunks := ClipRecords(records.value, shape, dims.value);
  }

  method ClipRecords(records: seq<ChunkRecord>, shape: seq<nat>, dims: seq<nat>) returns (chunks: seq<Chunk>)
    ensures chunks == ClipAll(records, shape, dims)
  {
    chunks := [];
    for i := 0 to |records|
      invariant chunks == ClipAll(records[..i], shape, dims)
    {
      assert records[..i + 1][..i] == records[..i];
      var clipped: seq<nat> := [];
      var inside := true;
      for axis := 0 to |shape|
        invariant inside ==> |clipped| == axis && axis <= |records[i].offset| && axis <= |dims|
        invariant inside ==> forall a :: 0 <= a < axis ==>
          records[i].offset[a] < shape[a] && clipped[a] == ClipAt(records[i].offset[a], dims[a], shape[a])
        invariant !inside ==> ClipRecord(records[i], shape, dims).None?
      {
        if axis >= |records[i].offset| || axis >= |dims| || records[i].offset[axis] >= shape[axis] {
          inside := false;
          break;
        }
        clipped := clipped + [Min(dims[axis], shape[axis] - records[i].offset[axis])];
      }
      if inside {
        assert |clipped| == |shape|;
        assert ClipRecord(records[i], shape, dims).Some? && ClipRecord(records[i], shape, dims).value.shape == clipped;
        chunks := chunks + [Chunk(records[i].offset, clipped, records[i].size)];
      }
    }
    assert records[..|records|] == records;
  }

  /** The one chunk of an unchunked dataset selects all of it. */
  lemma {:induction false} WholeIsAll(shape: seq<nat>, width: nat, coord: Index)
    ensures ElementSum([Whole(shape, width)]) == Product(shape)
    ensures InBox(coord, shape) <==> Contains(Whole(shape, width).offset, Whole(shape, width).shape, coord)
    ensures Whole(shape, width).storedSize == Min(Product(shape) * width, 0xffff_ffff_ffff_ffff)
  {
    var chunk := Whole(shape, width);
    MulIs(Product(shape), width);
    assert [chunk][..0] == [];
    assert forall a :: 0 <= a < |shape| ==> chunk.offset[a] == 0;
  }

  ghost function ElementSum(chunks: seq<Chunk>): nat {
    if chunks == [] then 0 else ElementSum(chunks[..|chunks| - 1]) + Product(chunks[|chunks| - 1].shape)
  }

  /** The chunks of an implicit index hold the dataset's elements, each once. */
  lemma {:induction false} ImplicitSum(records: seq<ChunkRecord>, address: nat, shape: seq<nat>, dims: seq<nat>, width: nat)
    requires |shape| == |dims| && Positive(dims) && IsImplicit(records, address, shape, dims, width)
    ensures |ClipAll(records, shape, dims)| == |records|
    ensures ElementSum(ClipAll(records, shape, dims)) == Product(shape)
  {
    ElementsAll(shape, dims);
    ImplicitPrefixSum(records, |records|, address, shape, dims, width);
    assert records[..|records|] == records;
  }

  lemma {:induction false} ImplicitPrefixSum(records: seq<ChunkRecord>, n: nat, address: nat, shape: seq<nat>, dims: seq<nat>, width: nat)
    requires |shape| == |dims| && Positive(dims) && IsImplicit(records, address, shape, dims, width) && n <= |records|
    ensures |ClipAll(records[..n], shape, dims)| == n
    ensures ElementSum(ClipAll(records[..n], shape, dims)) == Elements(n, shape, dims)
  {
    hide Mul;
    hide Product;
    hide Unravel;
    if n > 0 {
      ImplicitPrefixSum(records, n - 1, address, shape, dims, width);
      assert records[n - 1] == ImplicitRecord(n - 1, address, shape, dims, width);
      ImplicitClip(n - 1, address, shape, dims, width);
      ClipMore(records, n - 1, shape, dims);
      hide ClipAll;
      hide ClipRecord;
      SumMore(ClipAll(records[..n - 1], shape, dims), ClipRecord(records[n - 1], shape, dims).value);
    }
  }

  lemma {:induction false} SumMore(chunks: seq<Chunk>, chunk: Chunk)
    ensures ElementSum(chunks + [chunk]) == ElementSum(chunks) + Product(chunk.shape)
  {
    assert (chunks + [chunk])[..|chunks|] == chunks;
  }

  lemma {:induction false} ImplicitClip(i: nat, address: nat, shape: seq<nat>, dims: seq<nat>, width: nat)
    requires |shape| == |dims| && Positive(dims) && i < Product(ChunkGrid(shape, dims))
    ensures var clipped := ClipRecord(ImplicitRecord(i, address, shape, dims, width), shape, dims);
            clipped.Some? && clipped.value.shape == Clip(Unravel(i, ChunkGrid(shape, dims)), shape, dims)
  {
    hide Mul;
    hide Product;
    hide Unravel;
    var cell := Unravel(i, ChunkGrid(shape, dims));
    forall a | 0 <= a < |shape| ensures Mul(cell[a], dims[a]) < shape[a] {
      CellInside(cell[a], shape[a], dims[a]);
    }
  }

  lemma {:induction false} CellInside(cell: nat, dim: nat, width: nat)
    requires width > 0 && cell < GridAt(dim, width)
    ensures Mul(cell, width) < dim
  {
    QuotRem(dim + width - 1, width);
    MulLe(cell + 1, GridAt(dim, width), width);
  }

  /** A clipped chunk holds what its record's chunk holds inside the dataset. */
  lemma {:induction false} ClipHolds(record: ChunkRecord, shape: seq<nat>, dims: seq<nat>, coord: Index)
    requires |record.offset| == |shape| == |dims| && ClipRecord(record, shape, dims).Some?
    ensures var chunk := ClipRecord(record, shape, dims).value;
            && (Contains(chunk.offset, chunk.shape, coord) <==> InBox(coord, shape) && Contains(record.offset, dims, coord))
            && chunk.offset == record.offset && chunk.storedSize == record.size
  {
  }

  ghost predicate StartsInside(record: ChunkRecord, shape: seq<nat>) {
    |record.offset| >= |shape| && forall a :: 0 <= a < |shape| ==> record.offset[a] < shape[a]
  }

  /** The list names, in order, the first `n` records that start inside the dataset. */
  ghost predicate NamesInside(kept: seq<nat>, records: seq<ChunkRecord>, n: nat, shape: seq<nat>)
    requires n <= |records|
  {
    (forall j, k :: 0 <= j < k < |kept| ==> kept[j] < kept[k])
    && (forall k :: 0 <= k < |kept| ==> kept[k] < n && StartsInside(records[kept[k]], shape))
    && forall i :: 0 <= i < n && StartsInside(records[i], shape) ==> i in kept
  }

  lemma {:induction false} NameMore(kept: seq<nat>, records: seq<ChunkRecord>, n: nat, shape: seq<nat>)
    requires n < |records| && NamesInside(kept, records, n, shape)
    ensures NamesInside(if StartsInside(records[n], shape) then kept + [n] else kept, records, n + 1, shape)
  {
    hide StartsInside;
    var more := if StartsInside(records[n], shape) then kept + [n] else kept;
    forall k | 0 <= k < |more| ensures more[k] < n + 1 && StartsInside(records[more[k]], shape) {
      assert k < |kept| ==> more[k] == kept[k];
    }
    forall i | 0 <= i < n + 1 && StartsInside(records[i], shape) ensures i in more {
      if i < n {
        assert i in kept;
      } else {
        assert more[|kept|] == n;
      }
    }
    forall j, k | 0 <= j < k < |more| ensures more[j] < more[k] {
      assert k < |kept| ==> kept[j] < kept[k];
    }
  }

  /** Exactly the records that start inside the dataset are kept, in their order. */
  lemma {:induction false} ClipOrder(records: seq<ChunkRecord>, n: nat, shape: seq<nat>, dims: seq<nat>) returns (kept: seq<nat>)
    requires |dims| == |shape| && n <= |records|
    ensures NamesInside(kept, records, n, shape) && |kept| == |ClipAll(records[..n], shape, dims)|
    ensures forall k :: 0 <= k < |kept| ==> Some(ClipAll(records[..n], shape, dims)[k]) == ClipRecord(records[kept[k]], shape, dims)
  {
    hide StartsInside;
    hide ClipRecord;
    if n == 0 {
      kept := [];
    } else {
      var m := n - 1;
      var before := ClipOrder(records, m, shape, dims);
      NameMore(before, records, m, shape);
      kept := if StartsInside(records[m], shape) then before + [m] else before;
      ClipMore(records, m, shape, dims);
      hide ClipAll;
      hide NamesInside;
      forall k | 0 <= k < |kept| ensures Some(ClipAll(records[..n], shape, dims)[k]) == ClipRecord(records[kept[k]], shape, dims) {
        assert k < |before| ==> kept[k] == before[k];
      }
    }
  }

  lemma {:induction false} ClipMore(records: seq<ChunkRecord>, m: nat, shape: seq<nat>, dims: seq<nat>)
    requires |dims| == |shape| && m < |records|
    ensures var last, before := ClipRecord(records[m], shape, dims), ClipAll(records[..m], shape, dims);
            && (last.Some? <==> StartsInside(records[m], shape))
            && ClipAll(records[..m + 1], shape, dims) == if last.Some? then before + [last.value] else before
  {
    hide ClipRecord;
    hide StartsInside;
    ClipSome(records[m], shape, dims);
    assert records[..m + 1][..m] == records[..m];
  }

  lemma {:induction false} ClipSome(record: ChunkRecord, shape: seq<nat>, dims: seq<nat>)
    requires |dims| == |shape|
    ensures ClipRecord(record, shape, dims).Some? <==> StartsInside(record, shape)
  {
  }

  lemma {:induction false} ClipAllAt(records: seq<ChunkRecord>, shape: seq<nat>, dims: seq<nat>, i: nat)
    requires i < |records| && forall k :: 0 <= k < |records| ==> ClipRecord(records[k], shape, dims).Some?
    ensures |ClipAll(records, shape, dims)| == |records|
    ensures ClipAll(records, shape, dims)[i] == ClipRecord(records[i], shape, dims).value
  {
    hide ClipRecord;
    var n := |records| - 1;
    if n > 0 {
      ClipAllAt(records[..n], shape, dims, if i < n then i else 0);
    } else {
      assert records[..0] == [] && ClipAll([], shape, dims) == [];
    }
  }

  /** The chunks of an implicit index partition the dataset: each coordinate inside lies in exactly one of them, and none
      outside in any. */
  lemma {:induction false} ImplicitPartition(records: seq<ChunkRecord>, address: nat, shape: seq<nat>, dims: seq<nat>, width: nat,
                                             coord: Index, i: nat)
    requires |shape| == |dims| && Positive(dims) && IsImplicit(records, address, shape, dims, width) && i < |records|
    ensures |ClipAll(records, shape, dims)| == |records|
    ensures var chunk := ClipAll(records, shape, dims)[i];
            Contains(chunk.offset, chunk.shape, coord) <==> InBox(coord, shape) && i == CellNumberOf(coord, shape, dims)
  {
    hide ClipRecord;
    hide ClipAll;
    hide Unravel;
    hide Product;
    hide Mul;
    hide Contains;
    forall k | 0 <= k < |records| ensures ClipRecord(records[k], shape, dims).Some? {
      ImplicitClip(k, address, shape, dims, width);
      assert records[k] == ImplicitRecord(k, address, shape, dims, width);
    }
    ClipAllAt(records, shape, dims, i);
    assert records[i] == ImplicitRecord(i, address, shape, dims, width);
    ClipHolds(records[i], shape, dims, coord);
    if InBox(coord, shape) {
      ExactlyOneChunk(coord, shape, dims, i);
    }
  }

  // ---- the byte a coordinate is read from ----

  /** The first corner of the chunk that holds a coordinate. */
  ghost function Corner(coord: Index, shape: seq<nat>, dims: seq<nat>): (corner: Index)
    requires |shape| == |dims| && Positive(dims) && InBox(coord, shape)
    ensures Contains(corner, dims, coord) && OnGrid(corner, dims)
    ensures |corner| == |coord| && forall a :: 0 <= a < |coord| ==> corner[a] <= coord[a]
  {
    var i, grid := CellNumberOf(coord, shape, dims), ChunkGrid(shape, dims);
    ExactlyOneChunk(coord, shape, dims, i);
    ScaleOnGrid(Unravel(i, grid), dims);
    Scale(Unravel(i, grid), dims)
  }

  /** Where byte `k` of the element at a coordinate lies: after the chunks before its own, and the elements before it there. */
  ghost function ImplicitAt(address: nat, shape: seq<nat>, dims: seq<nat>, width: nat, coord: Index, k: nat): nat
    requires |shape| == |dims| && Positive(dims) && InBox(coord, shape)
  {
    address + Mul(CellNumberOf(coord, shape, dims), Mul(Product(dims), width))
    + Bytes.ByteAt(Ravel(Minus(coord, Corner(coord, shape, dims)), dims), width, k)
  }

  /** In an unfiltered dataset with an implicit index, byte `k` of the element at a coordinate is found there. */
  lemma {:induction false} ImplicitByte(dataset: Dataset, storage: Storage, slab: Hyperslab, address: nat, d: nat, k: nat)
    requires dataset.Valid() && slab.Inside(dataset.shape) && d < Product(slab.count) && k < dataset.width
    requires dataset.layout.Chunked? && |dataset.layout.chunkDims| == |dataset.shape| && Positive(dataset.layout.chunkDims)
    requires IsImplicit(dataset.layout.chunks, address, dataset.shape, dataset.layout.chunkDims, dataset.width)
    requires Available(dataset, storage, slab) && forall raw, mask :: storage.decode(raw, mask) == Ok(raw)
    requires var dims := dataset.layout.chunkDims;
             && Product(dims) * dataset.width <= 0xffff_ffff
             && address + Product(ChunkGrid(dataset.shape, dims)) * (Product(dims) * dataset.width) <= 0xffff_ffff_ffff_ffff
    ensures var at := ImplicitAt(address, dataset.shape, dataset.layout.chunkDims, dataset.width, slab.CoordOf(d), k);
            && at < |storage.file| && |StoredOrFill(dataset, storage, slab, d)| == dataset.width
            && StoredOrFill(dataset, storage, slab, d)[k] == storage.file[at]
  {
    hide Product;
    hide Mul;
    hide Unravel;
    hide Ravel;
    hide Contains;
    hide StoredOrFill;
    hide Available;
    var dims, chunks, coord, width := dataset.layout.chunkDims, dataset.layout.chunks, slab.CoordOf(d), dataset.width;
    var i := CellNumberOf(coord, dataset.shape, dims);
    ExactlyOneChunk(coord, dataset.shape, dims, i);
    assert chunks[i] == ImplicitRecord(i, address, dataset.shape, dims, width);
    ImplicitHolds(chunks, address, dataset.shape, dims, width, coord);
    ImplicitAddress(i, address, dataset.shape, dims, width);
    BelowTotal(i, Product(ChunkGrid(dataset.shape, dims)), Product(dims) * width);
    StoredByte(dataset, storage, slab, d, k);
    var corner := chunks[i].offset;
    MulIs(Product(dims), width);
    MulIs(i, Mul(Product(dims), width));
    RawChunkByte(storage, chunks[i], Bytes.ByteAt(Ravel(Minus(coord, corner), dims), width, k));
  }

  lemma {:induction false} BelowTotal(i: nat, n: nat, bytes: nat)
    requires i < n
    ensures i * bytes <= n * bytes
  {
  }

  lemma {:induction false} RawChunkByte(storage: Storage, record: ChunkRecord, x: nat)
    requires storage.Chunk(record).Ok? && x < |storage.Chunk(record).value|
    requires forall raw, mask :: storage.decode(raw, mask) == Ok(raw)
    ensures record.address + x < |storage.file| && storage.Chunk(record).value[x] == storage.file[record.address + x]
  {
  }

  /** The one chunk that holds a coordinate is the last that does. */
  lemma {:induction false} ImplicitHolds(records: seq<ChunkRecord>, address: nat, shape: seq<nat>, dims: seq<nat>, width: nat, coord: Index)
    requires |shape| == |dims| && Positive(dims) && InBox(coord, shape) && IsImplicit(records, address, shape, dims, width)
    ensures HoldsLast(records, dims, coord, CellNumberOf(coord, shape, dims))
  {
    hide Product;
    hide Mul;
    hide Unravel;
    var i := CellNumberOf(coord, shape, dims);
    forall j | i <= j < |records| ensures Contains(records[j].offset, dims, coord) <==> j == i {
      assert records[j] == ImplicitRecord(j, address, shape, dims, width);
      ExactlyOneChunk(coord, shape, dims, j);
    }
  }
}
