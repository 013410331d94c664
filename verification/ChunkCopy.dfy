/** Copying the part of one decoded chunk that a selection needs (`crates/oxcdf-hdf5/src/read.rs`). */
module ChunkCopies {
  import opened Basics
  import opened Arith
  import opened RowMajor
  import opened Hyperslabs
  import opened Elements
  import opened ChunkCovers

  /** The far edge saturates, as a damaged offset can sit anywhere in the address space. */
  predicate Intersects(offset: Index, chunkShape: seq<nat>, slab: Hyperslab)
    requires |offset| == |chunkShape| == |slab.start| == |slab.count|
  {
    forall a :: 0 <= a < |offset| ==>
      Max(offset[a], slab.start[a]) < Min(SaturatingAdd(offset[a], chunkShape[a]), slab.start[a] + slab.count[a])
  }

  /** The chunk intersects the selection exactly when it holds some selected coordinate. */
  lemma {:induction false} IntersectsIsShared(offset: Index, chunkShape: seq<nat>, slab: Hyperslab)
    requires |offset| == |chunkShape| == |slab.start| == |slab.count|
    requires forall a :: 0 <= a < |offset| ==> slab.start[a] + slab.count[a] <= U64_MAX
    ensures Intersects(offset, chunkShape, slab) <==>
            exists coord :: slab.Selects(coord) && Contains(offset, chunkShape, coord)
  {
    if Intersects(offset, chunkShape, slab) {
      var coord := seq(|offset|, a requires 0 <= a < |offset| => Max(offset[a], slab.start[a]));
      assert slab.Selects(coord) && Contains(offset, chunkShape, coord);
    }
  }

  /** A box given by its low corner and its extents. */
  datatype Box = Box(lo: Index, extent: seq<nat>) {
    predicate Holds(coord: Index) {
      |coord| == |lo| == |extent| && forall a :: 0 <= a < |lo| ==> lo[a] <= coord[a] < lo[a] + extent[a]
    }
  }

  /** The intersection of a chunk and a selection. */
  ghost predicate IsOverlap(box: Box, offset: Index, chunkShape: seq<nat>, slab: Hyperslab) {
    |box.lo| == |box.extent| == |offset| == |chunkShape| == |slab.start| == |slab.count| > 0
    && (forall coord :: box.Holds(coord) <==> slab.Selects(coord) && Contains(offset, chunkShape, coord))
    && forall a :: 0 <= a < |offset| ==>
      && box.extent[a] > 0 && offset[a] <= box.lo[a] && slab.start[a] <= box.lo[a]
      && box.lo[a] + box.extent[a] <= offset[a] + chunkShape[a]
      && box.lo[a] + box.extent[a] <= slab.start[a] + slab.count[a]
  }

  method Overlap(offset: Index, chunkShape: seq<nat>, slab: Hyperslab) returns (box: Box)
    requires |offset| == |chunkShape| == |slab.start| == |slab.count| > 0
    requires forall a :: 0 <= a < |offset| ==> slab.start[a] + slab.count[a] <= U64_MAX
    requires Intersects(offset, chunkShape, slab)
    ensures IsOverlap(box, offset, chunkShape, slab)
  {
    var lo: Index := [];
    var extent: seq<nat> := [];
    for axis := 0 to |offset|
      invariant |lo| == |extent| == axis
      invariant forall a :: 0 <= a < axis ==>
        && lo[a] == Max(offset[a], slab.start[a])
        && lo[a] + extent[a] == Min(SaturatingAdd(offset[a], chunkShape[a]), slab.start[a] + slab.count[a])
    {
      var l := Max(offset[axis], slab.start[axis]);
      var h := Min(SaturatingAdd(offset[axis], chunkShape[axis]), slab.start[axis] + slab.count[axis]);
      lo, extent := lo + [l], extent + [h - l];
    }
    box := Box(lo, extent);
    forall coord | |coord| == |offset|
      ensures box.Holds(coord) <==> slab.Selects(coord) && Contains(offset, chunkShape, coord)
    {
      if slab.Selects(coord) && Contains(offset, chunkShape, coord) {
        assert box.Holds(coord);
      }
      if box.Holds(coord) {
        forall a | 0 <= a < |coord|
          ensures slab.start[a] <= coord[a] < slab.start[a] + slab.count[a]
          ensures offset[a] <= coord[a] < offset[a] + chunkShape[a]
        {
          assert lo[a] <= coord[a] < lo[a] + extent[a];
        }
      }
    }
  }

  // ---- rows ----

  function Outer(s: seq<nat>): (r: seq<nat>)
    requires |s| > 0
    ensures |r| == |s| - 1
  {
    s[..|s| - 1]
  }

  function Last(s: seq<nat>): nat
    requires |s| > 0
  {
    s[|s| - 1]
  }

  /** Element `k` of row `n` of a box, rows running along the last axis. */
  ghost function RowCoord(box: Box, n: nat, k: nat): (coord: Index)
    requires |box.lo| == |box.extent| > 0 && n < Product(Outer(box.extent)) && k < Last(box.extent)
    ensures box.Holds(coord)
  {
    var coord := Plus(Outer(box.lo), Unravel(n, Outer(box.extent))) + [Last(box.lo) + k];
    assert forall a :: 0 <= a < |coord| - 1 ==> coord[a] == box.lo[a] + Unravel(n, Outer(box.extent))[a];
    coord
  }

  /** The row a coordinate of the box lies on. */
  ghost function RowOf(box: Box, coord: Index): (n: nat)
    requires |box.lo| > 0 && box.Holds(coord)
    ensures n < Product(Outer(box.extent))
  {
    var rel := Minus(Outer(coord), Outer(box.lo));
    RavelBound(rel, Outer(box.extent));
    Ravel(rel, Outer(box.extent))
  }

  lemma {:induction false} RowCoordOf(box: Box, coord: Index)
    requires |box.lo| > 0 && box.Holds(coord)
    ensures RowCoord(box, RowOf(box, coord), Last(coord) - Last(box.lo)) == coord
  {
    UnravelRavel(Minus(Outer(coord), Outer(box.lo)), Outer(box.extent));
  }

  lemma {:induction false} RowOfCoord(box: Box, n: nat, k: nat)
    requires |box.lo| == |box.extent| > 0 && n < Product(Outer(box.extent)) && k < Last(box.extent)
    ensures RowOf(box, RowCoord(box, n, k)) == n
  {
    RavelUnravel(n, Outer(box.extent));
    assert Minus(Outer(RowCoord(box, n, k)), Outer(box.lo)) == Unravel(n, Outer(box.extent));
  }

  /** Along the last axis positions are consecutive, in every enclosing shape and from every origin. */
  lemma {:induction false} RowIsConsecutive(box: Box, n: nat, k: nat, origin: Index, dims: seq<nat>)
    requires |box.lo| == |box.extent| == |origin| == |dims| > 0
    requires n < Product(Outer(box.extent)) && k < Last(box.extent)
    requires forall a :: 0 <= a < |origin| ==> origin[a] <= box.lo[a]
    ensures Ravel(Minus(RowCoord(box, n, k), origin), dims) == Ravel(Minus(RowCoord(box, n, 0), origin), dims) + k
  {
    hide Ravel;
    hide Unravel;
    hide Product;
    hide Mul;
    var r := |dims| - 1;
    var x, y := Minus(RowCoord(box, n, k), origin), Minus(RowCoord(box, n, 0), origin);
    RavelSnoc(x, dims, r);
    RavelSnoc(y, dims, r);
    assert x[..r] == y[..r] && x[..r + 1] == x && y[..r + 1] == y && dims[..r + 1] == dims;
  }

  /** Where the strided sums of the copy loop put the start of a row. */
  method RowStart(box: Box, index: Index, origin: Index, strides: seq<nat>, ghost dims: seq<nat>, ghost n: nat)
    returns (at: nat)
    requires |box.lo| == |box.extent| == |origin| == |dims| > 0 && AreStrides(strides, dims)
    requires Last(box.extent) > 0
    requires n < Product(Outer(box.extent)) && index == Unravel(n, Outer(box.extent))
    requires forall a :: 0 <= a < |origin| ==> origin[a] <= box.lo[a]
    ensures at == Ravel(Minus(RowCoord(box, n, 0), origin), dims)
  {
    hide Ravel;
    hide Unravel;
    hide Product;
    hide Mul;
    var r := |strides| - 1;
    var coord := Minus(Plus(Outer(box.lo), index), Outer(origin));
    at := LinearOffset(coord, strides, dims);
    MulIs(box.lo[r] - origin[r], strides[r]);
    at := at + (box.lo[r] - origin[r]) * strides[r];
    ghost var x := Minus(RowCoord(box, n, 0), origin);
    RavelAt(x, dims, r);
    assert x[..r] == coord;
    RavelZero(x[r + 1..], dims[r + 1..]);
  }

  // ---- the copy ----

  /** The output after the first `rows` rows of the overlap were copied. */
  ghost predicate RowsCopied(was: seq<byte>, now: seq<byte>, rows: nat, box: Box, decoded: seq<byte>,
                             offset: Index, chunkShape: seq<nat>, slab: Hyperslab, width: nat)
    requires IsOverlap(box, offset, chunkShape, slab)
    requires |was| == Mul(Product(slab.count), width) && Mul(Product(chunkShape), width) <= |decoded|
  {
    |now| == |was| &&
    forall d :: 0 <= d < Product(slab.count) ==>
      DestinationOk(was, now, rows, box, decoded, offset, chunkShape, slab, width, d)
  }

  ghost predicate DestinationOk(was: seq<byte>, now: seq<byte>, rows: nat, box: Box, decoded: seq<byte>,
                                offset: Index, chunkShape: seq<nat>, slab: Hyperslab, width: nat, d: nat)
    requires IsOverlap(box, offset, chunkShape, slab)
    requires |now| == |was| == Mul(Product(slab.count), width) && Mul(Product(chunkShape), width) <= |decoded|
    requires d < Product(slab.count)
  {
    var coord := slab.CoordOf(d);
    HasLess(was, 0, d, Product(slab.count), width);
    Element(now, d, width) ==
    if box.Holds(coord) && RowOf(box, coord) < rows then ChunkElement(decoded, offset, chunkShape, coord, width)
    else Element(was, d, width)
  }

  /** The element of a decoded chunk at a dataset coordinate. */
  function ChunkElement(decoded: seq<byte>, offset: Index, chunkShape: seq<nat>, coord: Index, width: nat): seq<byte>
    requires Contains(offset, chunkShape, coord) && Mul(Product(chunkShape), width) <= |decoded|
  {
    RavelBound(Minus(coord, offset), chunkShape);
    HasLess(decoded, 0, Ravel(Minus(coord, offset), chunkShape), Product(chunkShape), width);
    Element(decoded, Ravel(Minus(coord, offset), chunkShape), width)
  }

  /** Byte `k` of a chunk's element lies at the coordinate's row-major position in the chunk. */
  lemma {:induction false} ChunkElementByte(decoded: seq<byte>, offset: Index, chunkShape: seq<nat>, coord: Index, width: nat, k: nat)
    requires Contains(offset, chunkShape, coord) && Mul(Product(chunkShape), width) <= |decoded| && k < width
    ensures var at := Mul(Ravel(Minus(coord, offset), chunkShape), width) + k;
            |ChunkElement(decoded, offset, chunkShape, coord, width)| == width
            && at < |decoded| && ChunkElement(decoded, offset, chunkShape, coord, width)[k] == decoded[at]
  {
    hide Ravel;
    hide Mul;
    hide Product;
    RavelBound(Minus(coord, offset), chunkShape);
    HasLess(decoded, 0, Ravel(Minus(coord, offset), chunkShape), Product(chunkShape), width);
    ElementByte(decoded, Ravel(Minus(coord, offset), chunkShape), width, k);
  }

  /** Copying row `n` writes exactly the destination elements whose coordinates lie on it. */
  lemma {:induction false} RowCopied(was: seq<byte>, now: seq<byte>, n: nat, box: Box, decoded: seq<byte>,
                  offset: Index, chunkShape: seq<nat>, slab: Hyperslab, width: nat, src: nat, dst: nat)
    requires IsOverlap(box, offset, chunkShape, slab) && n < Product(Outer(box.extent))
    requires |was| == Mul(Product(slab.count), width) && Mul(Product(chunkShape), width) <= |decoded|
    requires RowsCopied(was, now, n, box, decoded, offset, chunkShape, slab, width)
    requires src == Ravel(Minus(RowCoord(box, n, 0), offset), chunkShape)
    requires dst == slab.PositionOf(RowCoord(box, n, 0))
    ensures Mul(dst, width) + Mul(Last(box.extent), width) <= |now|
    ensures Mul(src, width) + Mul(Last(box.extent), width) <= |decoded|
    ensures RowsCopied(was, Splice(now, Mul(dst, width), Slice(decoded, Mul(src, width), Mul(Last(box.extent), width))),
                       n + 1, box, decoded, offset, chunkShape, slab, width)
  {
    hide Ravel;
    hide Unravel;
    hide Product;
    hide Mul;
    hide Splice;
    hide Slice;
    hide IsOverlap;
    var run := Last(box.extent);
    RowFits(n, box, offset, chunkShape, slab, width, src, dst);
    var next := Splice(now, Mul(dst, width), Slice(decoded, Mul(src, width), Mul(run, width)));
    var rows := n + 1;
    forall d | 0 <= d < Product(slab.count)
      ensures DestinationOk(was, next, rows, box, decoded, offset, chunkShape, slab, width, d)
    {
      RowElement(was, now, n, box, decoded, offset, chunkShape, slab, width, src, dst, d);
    }
  }

  lemma {:induction false} RowFits(n: nat, box: Box, offset: Index, chunkShape: seq<nat>, slab: Hyperslab, width: nat, src: nat, dst: nat)
    requires IsOverlap(box, offset, chunkShape, slab) && n < Product(Outer(box.extent))
    requires src == Ravel(Minus(RowCoord(box, n, 0), offset), chunkShape)
    requires dst == slab.PositionOf(RowCoord(box, n, 0))
    ensures dst + Last(box.extent) <= Product(slab.count) && src + Last(box.extent) <= Product(chunkShape)
    ensures Mul(dst, width) + Mul(Last(box.extent), width) <= Mul(Product(slab.count), width)
    ensures Mul(src, width) + Mul(Last(box.extent), width) <= Mul(Product(chunkShape), width)
  {
    hide Ravel;
    hide Unravel;
    hide Product;
    hide Mul;
    var run := Last(box.extent);
    var far := RowCoord(box, n, run - 1);
    RowIsConsecutive(box, n, run - 1, offset, chunkShape);
    RowIsConsecutive(box, n, run - 1, slab.start, slab.count);
    RavelBound(Minus(far, offset), chunkShape);
    RavelBound(Minus(far, slab.start), slab.count);
    MulAdd(dst, run, width);
    MulAdd(src, run, width);
    MulLe(dst + run, Product(slab.count), width);
    MulLe(src + run, Product(chunkShape), width);
  }

  lemma {:induction false} RowElement(was: seq<byte>, now: seq<byte>, n: nat, box: Box, decoded: seq<byte>,
                   offset: Index, chunkShape: seq<nat>, slab: Hyperslab, width: nat, src: nat, dst: nat, d: nat)
    requires IsOverlap(box, offset, chunkShape, slab) && n < Product(Outer(box.extent))
    requires |now| == |was| == Mul(Product(slab.count), width) && Mul(Product(chunkShape), width) <= |decoded|
    requires d < Product(slab.count)
    requires DestinationOk(was, now, n, box, decoded, offset, chunkShape, slab, width, d)
    requires src == Ravel(Minus(RowCoord(box, n, 0), offset), chunkShape)
    requires dst == slab.PositionOf(RowCoord(box, n, 0))
    requires Mul(dst, width) + Mul(Last(box.extent), width) <= |now|
    requires Mul(src, width) + Mul(Last(box.extent), width) <= |decoded|
    ensures DestinationOk(was, Splice(now, Mul(dst, width), Slice(decoded, Mul(src, width), Mul(Last(box.extent), width))),
                          n + 1, box, decoded, offset, chunkShape, slab, width, d)
  {
    hide Ravel;
    hide Unravel;
    hide Product;
    hide Mul;
    hide Splice;
    hide Slice;
    hide RowCoord;
    hide RowOf;
    var run, coord := Last(box.extent), slab.CoordOf(d);
    HasLess(was, 0, d, Product(slab.count), width);
    RowMembership(n, box, offset, chunkShape, slab, dst, d);
    if dst <= d < dst + run {
      RowIsConsecutive(box, n, d - dst, offset, chunkShape);
      SplicedElement(now, dst, decoded, 0, src, run, width, d - dst);
    } else {
      KeptElement(now, dst, Slice(decoded, Mul(src, width), Mul(run, width)), run, width, d);
    }
  }

  lemma {:induction false} RowMembership(n: nat, box: Box, offset: Index, chunkShape: seq<nat>, slab: Hyperslab, dst: nat, d: nat)
    requires IsOverlap(box, offset, chunkShape, slab) && n < Product(Outer(box.extent))
    requires d < Product(slab.count) && dst == slab.PositionOf(RowCoord(box, n, 0))
    ensures dst <= d < dst + Last(box.extent) <==> box.Holds(slab.CoordOf(d)) && RowOf(box, slab.CoordOf(d)) == n
    ensures dst <= d < dst + Last(box.extent) ==> slab.CoordOf(d) == RowCoord(box, n, d - dst)
  {
    hide Ravel;
    hide Unravel;
    hide Product;
    hide RowCoord;
    hide RowOf;
    var run, coord := Last(box.extent), slab.CoordOf(d);
    if dst <= d < dst + run {
      var c := RowCoord(box, n, d - dst);
      RowIsConsecutive(box, n, d - dst, slab.start, slab.count);
      CoordPosition(slab, c);
      RowOfCoord(box, n, d - dst);
    }
    if box.Holds(coord) && RowOf(box, coord) == n {
      var k := Last(coord) - Last(box.lo);
      RowCoordOf(box, coord);
      RowIsConsecutive(box, n, k, slab.start, slab.count);
      PositionCoord(slab, d);
    }
  }

  /** Every selected element the chunk holds is now the chunk's; every other one is as it was. */
  ghost predicate ChunkCopied(was: seq<byte>, now: seq<byte>, decoded: seq<byte>,
                              offset: Index, chunkShape: seq<nat>, slab: Hyperslab, width: nat)
    requires |slab.start| == |slab.count|
    requires |was| == Mul(Product(slab.count), width) && Mul(Product(chunkShape), width) <= |decoded|
  {
    |now| == |was| &&
    forall d :: 0 <= d < Product(slab.count) ==> ElementCopied(was, now, decoded, offset, chunkShape, slab, width, d)
  }

  ghost predicate ElementCopied(was: seq<byte>, now: seq<byte>, decoded: seq<byte>,
                                offset: Index, chunkShape: seq<nat>, slab: Hyperslab, width: nat, d: nat)
    requires |slab.start| == |slab.count| && d < Product(slab.count)
    requires |now| == |was| == Mul(Product(slab.count), width) && Mul(Product(chunkShape), width) <= |decoded|
  {
    var coord := slab.CoordOf(d);
    HasLess(was, 0, d, Product(slab.count), width);
    Element(now, d, width) ==
    if Contains(offset, chunkShape, coord) then ChunkElement(decoded, offset, chunkShape, coord, width)
    else Element(was, d, width)
  }

  lemma {:induction false} ProductMonotone(a: seq<nat>, b: seq<nat>)
    requires |a| == |b| && forall i :: 0 <= i < |a| ==> a[i] <= b[i]
    ensures Product(a) <= Product(b)
  {
    if a != [] {
      ProductMonotone(a[1..], b[1..]);
      MulLe(a[0], b[0], Product(a[1..]));
      MulComm(b[0], Product(a[1..]));
      MulComm(b[0], Product(b[1..]));
      MulLe(Product(a[1..]), Product(b[1..]), b[0]);
    }
  }

  lemma {:induction false} RowCount(box: Box, offset: Index, chunkShape: seq<nat>, slab: Hyperslab)
    requires IsOverlap(box, offset, chunkShape, slab)
    ensures 0 < Product(Outer(box.extent)) <= Product(slab.count)
  {
    hide Product;
    hide Mul;
    var r := |box.extent| - 1;
    ProductMonotone(box.extent, slab.count);
    ProductPositive(box.extent);
    ProductSplit(box.extent, r);
    MulFactors(Product(Outer(box.extent)), Product(box.extent[r..]));
  }

  /** Copy one decoded chunk's intersection with the selection into `out`, a row at a time. */
  method CopyChunk(out: array<byte>, decoded: seq<byte>, offset: Index, chunkShape: seq<nat>, chunkStrides: seq<nat>,
                   slab: Hyperslab, dstStrides: seq<nat>, width: nat)
    requires |offset| == |chunkShape| == |slab.start| == |slab.count| > 0
    requires forall a :: 0 <= a < |offset| ==> slab.start[a] + slab.count[a] <= U64_MAX
    requires Product(slab.count) <= U64_MAX
    requires AreStrides(chunkStrides, chunkShape) && AreStrides(dstStrides, slab.count)
    requires Intersects(offset, chunkShape, slab)
    requires out.Length == Mul(Product(slab.count), width) && Mul(Product(chunkShape), width) <= |decoded|
    modifies out
    ensures ChunkCopied(old(out[..]), out[..], decoded, offset, chunkShape, slab, width)
  {
    hide Ravel;
    hide Unravel;
    hide Product;
    hide Mul;
    hide Splice;
    hide Slice;
    hide RowCoord;
    hide RowsCopied;
    hide IsOverlap;
    ghost var was := out[..];
    var box := Overlap(offset, chunkShape, slab);
    BoxCorners(box, offset, chunkShape, slab);
    RowCount(box, offset, chunkShape, slab);
    var run := Last(box.extent);
    var outer := ElementCount(Outer(box.extent));
    var index := new nat[|offset| - 1](_ => 0);
    ProductPositive(Outer(box.extent));
    RavelZero(index[..], Outer(box.extent));
    NoRows(was, box, decoded, offset, chunkShape, slab, width);
    for n := 0 to outer
      invariant InBox(index[..], Outer(box.extent))
      invariant Ravel(index[..], Outer(box.extent)) == if n < outer then n else 0
      invariant RowsCopied(was, out[..], n, box, decoded, offset, chunkShape, slab, width)
    {
      UnravelRavel(index[..], Outer(box.extent));
      var src := RowStart(box, index[..], offset, chunkStrides, chunkShape, n);
      var dst := RowStart(box, index[..], slab.start, dstStrides, slab.count, n);
      RowCopied(was, out[..], n, box, decoded, offset, chunkShape, slab, width, src, dst);
      CopyRun(out, dst, decoded, 0, src, run, width);
      Advance(index, Outer(box.extent));
    }
    AllRows(was, out[..], box, decoded, offset, chunkShape, slab, width);
  }

  lemma {:induction false} BoxCorners(box: Box, offset: Index, chunkShape: seq<nat>, slab: Hyperslab)
    requires IsOverlap(box, offset, chunkShape, slab)
    ensures |box.lo| == |box.extent| == |offset| > 0 && Last(box.extent) > 0
    ensures forall a :: 0 <= a < |offset| ==> offset[a] <= box.lo[a] && slab.start[a] <= box.lo[a]
    ensures forall a :: 0 <= a < |offset| ==> box.extent[a] > 0
    ensures forall n :: 0 <= n < Product(Outer(box.extent)) ==> slab.Selects(RowCoord(box, n, 0))
  {
  }

  lemma {:induction false} NoRows(was: seq<byte>, box: Box, decoded: seq<byte>,
               offset: Index, chunkShape: seq<nat>, slab: Hyperslab, width: nat)
    requires IsOverlap(box, offset, chunkShape, slab)
    requires |was| == Mul(Product(slab.count), width) && Mul(Product(chunkShape), width) <= |decoded|
    ensures RowsCopied(was, was, 0, box, decoded, offset, chunkShape, slab, width)
  {
  }

  lemma {:induction false} AllRows(was: seq<byte>, now: seq<byte>, box: Box, decoded: seq<byte>,
                offset: Index, chunkShape: seq<nat>, slab: Hyperslab, width: nat)
    requires IsOverlap(box, offset, chunkShape, slab)
    requires |was| == Mul(Product(slab.count), width) && Mul(Product(chunkShape), width) <= |decoded|
    requires RowsCopied(was, now, Product(Outer(box.extent)), box, decoded, offset, chunkShape, slab, width)
    ensures ChunkCopied(was, now, decoded, offset, chunkShape, slab, width)
  {
    var rows := Product(Outer(box.extent));
    forall d | 0 <= d < Product(slab.count)
      ensures ElementCopied(was, now, decoded, offset, chunkShape, slab, width, d)
    {
      assert DestinationOk(was, now, rows, box, decoded, offset, chunkShape, slab, width, d);
      assert box.Holds(slab.CoordOf(d)) <==> Contains(offset, chunkShape, slab.CoordOf(d));
    }
  }
}
