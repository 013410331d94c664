/**
 Rectangular selections and the walk over their contiguous runs
 (`crates/oxcdf-hdf5/src/read.rs`).
 */
module Hyperslabs {
  import opened Basics
  import opened Arith
  import opened RowMajor

  datatype Hyperslab = Hyperslab(start: Index, count: seq<nat>) {
    /** No axis of the selection leaves `shape`. */
    predicate Inside(shape: seq<nat>) {
      |start| == |shape| && |count| == |shape|
      && forall a :: 0 <= a < |shape| ==> start[a] + count[a] <= shape[a]
    }

    /** `coord` is one of the selected dataset coordinates. */
    predicate Selects(coord: Index) {
      |coord| == |start| == |count|
      && forall a :: 0 <= a < |start| ==> start[a] <= coord[a] < start[a] + count[a]
    }

    /** The dataset coordinate of destination element `d`. */
    function CoordOf(d: nat): (coord: Index)
      requires |start| == |count| && d < Product(count)
      ensures Selects(coord)
    {
      Plus(start, Unravel(d, count))
    }

    /** The destination element of a selected coordinate. */
    function PositionOf(coord: Index): nat
      requires Selects(coord)
    {
      Ravel(Minus(coord, start), count)
    }
  }

  /** Destination elements and selected coordinates correspond one to one. */
  lemma {:induction false} CoordPosition(slab: Hyperslab, coord: Index)
    requires slab.Selects(coord)
    ensures slab.PositionOf(coord) < Product(slab.count)
    ensures slab.CoordOf(slab.PositionOf(coord)) == coord
  {
    hide Ravel;
    hide Unravel;
    hide Product;
    UnravelRavel(Minus(coord, slab.start), slab.count);
  }

  lemma {:induction false} PositionCoord(slab: Hyperslab, d: nat)
    requires |slab.start| == |slab.count| && d < Product(slab.count)
    ensures slab.PositionOf(slab.CoordOf(d)) == d
  {
    RavelUnravel(d, slab.count);
    assert Minus(slab.CoordOf(d), slab.start) == Unravel(d, slab.count);
  }

  // ---- checks and small loops ----

  method Validate(slab: Hyperslab, shape: seq<nat>) returns (r: Result<()>)
    requires forall a :: 0 <= a < |shape| ==> shape[a] <= U64_MAX
    ensures r.Ok? <==> slab.Inside(shape)
    ensures r.Ok? <==> |slab.start| == |shape| == |slab.count|
                       && forall a :: 0 <= a < |shape| ==> slab.start[a] + slab.count[a] <= shape[a]
    ensures r.Err? ==> r.error == BadRequest
  {
    if |slab.start| != |shape| || |slab.count| != |shape| {
      return Err(BadRequest);
    }
    for axis := 0 to |shape|
      invariant forall a :: 0 <= a < axis ==> slab.start[a] + slab.count[a] <= shape[a]
    {
      var end := slab.start[axis] + slab.count[axis];
      if end > U64_MAX || end > shape[axis] {
        return Err(BadRequest);
      }
    }
    return Ok(());
  }

  /** The product of the dimensions, saturating at every multiplication. */
  method ElementCount(dims: seq<nat>) returns (total: nat)
    ensures total == Min(Product(dims), U64_MAX)
  {
    total := 1;
    for axis := 0 to |dims|
      invariant total == Min(Product(dims[..axis]), U64_MAX)
    {
      ProductSnoc(dims, axis);
      SaturateStep(Product(dims[..axis]), dims[axis]);
      MulIs(total, dims[axis]);
      total := Min(total * dims[axis], U64_MAX);
    }
    assert dims[..|dims|] == dims;
  }

  lemma {:induction false} SaturateStep(p: nat, d: nat)
    ensures Min(Mul(Min(p, U64_MAX), d), U64_MAX) == Min(Mul(p, d), U64_MAX)
  {
    hide Mul;
    if p > U64_MAX {
      MulLe(U64_MAX, p, d);
      if d == 0 {
        MulOne(p);
        MulOne(U64_MAX);
      } else {
        MulPositive(U64_MAX, d);
        MulFactors(U64_MAX, d);
      }
    }
  }

  ghost predicate AreStrides(strides: seq<nat>, dims: seq<nat>) {
    |strides| == |dims| && forall a :: 0 <= a < |dims| ==> strides[a] == Product(dims[a + 1..])
  }

  method Strides(shape: seq<nat>) returns (out: seq<nat>)
    ensures AreStrides(out, shape)
  {
    var rank := |shape|;
    out := seq(rank, _ => 1);
    if rank == 0 {
      return;
    }
    var axis := rank - 1;
    assert shape[rank..] == [];
    while axis > 0
      invariant 0 <= axis < rank == |out|
      invariant forall a :: axis <= a < rank ==> out[a] == Product(shape[a + 1..])
    {
      axis := axis - 1;
      assert shape[axis + 1..][1..] == shape[axis + 2..];
      MulIs(shape[axis + 1], out[axis + 1]);
      out := out[axis := out[axis + 1] * shape[axis + 1]];
    }
  }

  /** The strided sum over the leading axes: their row-major number times the size of one inner block. */
  method LinearOffset(coord: Index, strides: seq<nat>, ghost dims: seq<nat>) returns (sum: nat)
    requires AreStrides(strides, dims) && |coord| <= |dims|
    ensures sum == Mul(Ravel(coord, dims[..|coord|]), Product(dims[|coord|..]))
  {
    sum := 0;
    for axis := 0 to |coord|
      invariant sum == Mul(Ravel(coord[..axis], dims[..axis]), Product(dims[axis..]))
    {
      OffsetStep(coord, dims, axis);
      MulIs(coord[axis], strides[axis]);
      sum := sum + coord[axis] * strides[axis];
    }
    assert coord[..|coord|] == coord;
  }

  lemma {:induction false} OffsetStep(coord: Index, dims: seq<nat>, k: nat)
    requires k < |coord| <= |dims|
    ensures Mul(Ravel(coord[..k + 1], dims[..k + 1]), Product(dims[k + 1..]))
         == Mul(Ravel(coord[..k], dims[..k]), Product(dims[k..])) + Mul(coord[k], Product(dims[k + 1..]))
  {
    var before, inner := Ravel(coord[..k], dims[..k]), Product(dims[k + 1..]);
    RavelSnoc(coord, dims, k);
    assert dims[k..][1..] == dims[k + 1..];
    MulAssoc(before, dims[k], inner);
    MulAdd(Mul(before, dims[k]), coord[k], inner);
  }

  /** The odometer shared by every copy loop: step `index` to the next position, wrapping to zero. */
  method Advance(index: array<nat>, extent: seq<nat>)
    requires InBox(index[..], extent)
    modifies index
    ensures InBox(index[..], extent)
    ensures Ravel(index[..], extent) ==
            if old(Ravel(index[..], extent)) + 1 < Product(extent) then old(Ravel(index[..], extent)) + 1 else 0
  {
    hide Ravel;
    hide Product;
    ghost var was := index[..];
    var axis := index.Length;
    EmptySuffix(was, extent);
    while axis > 0
      invariant 0 <= axis <= index.Length
      invariant index[..axis] == was[..axis]
      invariant forall a :: axis <= a < index.Length ==> index[a] == 0
      invariant Ravel(was[axis..], extent[axis..]) + 1 == Product(extent[axis..])
    {
      axis := axis - 1;
      assert was[axis] == was[..axis + 1][axis] == index[axis];
      index[axis] := index[axis] + 1;
      if index[axis] < extent[axis] {
        assert index[..axis] == was[..axis];
        Carry(was, index[..], extent, axis);
        RavelBound(index[..], extent);
        return;
      }
      index[axis] := 0;
      FullSuffix(was, extent, axis);
      assert index[..axis] == was[..axis];
    }
    assert was[0..] == was && extent[0..] == extent;
    RavelZero(index[..], extent);
  }

  lemma {:induction false} EmptySuffix(index: Index, extent: seq<nat>)
    requires |index| == |extent|
    ensures Ravel(index[|index|..], extent[|extent|..]) + 1 == Product(extent[|extent|..])
  {
  }

  lemma {:induction false} FullSuffix(was: Index, extent: seq<nat>, axis: nat)
    requires |was| == |extent| && axis < |extent| && was[axis] + 1 == extent[axis]
    requires Ravel(was[axis + 1..], extent[axis + 1..]) + 1 == Product(extent[axis + 1..])
    ensures Ravel(was[axis..], extent[axis..]) + 1 == Product(extent[axis..])
  {
    assert was[axis..][1..] == was[axis + 1..] && extent[axis..][1..] == extent[axis + 1..];
  }

  lemma {:induction false} Carry(was: Index, now: Index, extent: seq<nat>, axis: nat)
    requires InBox(was, extent) && InBox(now, extent) && axis < |extent|
    requires now[..axis] == was[..axis] && now[axis] == was[axis] + 1
    requires forall a :: axis < a < |now| ==> now[a] == 0
    requires Ravel(was[axis + 1..], extent[axis + 1..]) + 1 == Product(extent[axis + 1..])
    ensures Ravel(now, extent) == Ravel(was, extent) + 1
  {
    RavelAt(was, extent, axis);
    RavelAt(now, extent, axis);
    RavelZero(now[axis + 1..], extent[axis + 1..]);
  }

  // ---- runs ----

  /** `len` elements, contiguous from `src` in the dataset and from `dst` in the output. */
  datatype Run = Run(src: nat, dst: nat, len: nat)

  /** The dataset element that destination element `d` must come from. */
  function SourceOf(shape: seq<nat>, slab: Hyperslab, d: nat): nat
    requires slab.Inside(shape) && d < Product(slab.count)
  {
    Ravel(slab.CoordOf(d), shape)
  }

  ghost predicate Follows(run: Run, shape: seq<nat>, slab: Hyperslab)
    requires slab.Inside(shape)
  {
    run.dst + run.len <= Product(slab.count)
    && forall d :: run.dst <= d < run.dst + run.len ==> SourceOf(shape, slab, d) == run.src + (d - run.dst)
  }

  /** The runs cover `0..total` of the destination in order, each element once. */
  ghost predicate Tile(runs: seq<Run>, total: nat) {
    (forall i :: 0 <= i < |runs| ==> runs[i].len > 0)
    && (forall i :: 0 <= i < |runs| ==> runs[i].dst == if i == 0 then 0 else runs[i - 1].dst + runs[i - 1].len)
    && total == if runs == [] then 0 else runs[|runs| - 1].dst + runs[|runs| - 1].len
  }

  /** No two neighbouring runs could have been one: there is a gap between them in the dataset. */
  ghost predicate Maximal(runs: seq<Run>) {
    forall i :: 0 < i < |runs| ==> runs[i - 1].src + runs[i - 1].len < runs[i].src
  }

  /** Every axis after `first` is selected in full. */
  ghost predicate FullAfter(shape: seq<nat>, slab: Hyperslab, first: nat)
    requires slab.Inside(shape) && first < |shape|
  {
    forall a :: first < a < |shape| ==> slab.start[a] == 0 && slab.count[a] == shape[a]
  }

  ghost function RunAt(shape: seq<nat>, slab: Hyperslab, first: nat, n: nat): Run
    requires slab.Inside(shape) && first < |shape| && n < Product(slab.count[..first])
  {
    var run := Product(slab.count[first..]);
    var outer := Plus(slab.start[..first], Unravel(n, slab.count[..first]));
    Run(Mul(Ravel(outer, shape[..first]), Product(shape[first..])) + Mul(slab.start[first], Product(shape[first + 1..])),
        Mul(n, run), run)
  }

  /** Walk every contiguous run of the selection, in order. */
  method ForEachRun(shape: seq<nat>, slab: Hyperslab) returns (runs: seq<Run>)
    requires slab.Inside(shape)
    requires Product(slab.count) <= U64_MAX
    ensures Tile(runs, Product(slab.count))
    ensures forall i :: 0 <= i < |runs| ==> Follows(runs[i], shape, slab)
    ensures Maximal(runs) && forall i :: 0 < i < |runs| ==> runs[i - 1].src + runs[i - 1].len < runs[i].src
  {
    hide Ravel;
    hide Unravel;
    hide Product;
    hide Mul;
    var rank := |shape|;
    if rank == 0 {
      ScalarRun(shape, slab);
      return [Run(0, 0, 1)];
    }
    var selected := ElementCount(slab.count);
    if selected == 0 {
      return [];
    }
    var srcStrides := Strides(shape);
    var dstStrides := Strides(slab.count);

    var first := rank - 1;
    while first > 0 && slab.start[first] == 0 && slab.count[first] == shape[first]
      invariant 0 <= first < rank
      invariant FullAfter(shape, slab, first)
    {
      first := first - 1;
    }
    ProductSplit(slab.count, first);
    MulFactors(Product(slab.count[..first]), Product(slab.count[first..]));
    var run := ElementCount(slab.count[first..]);
    var outer := ElementCount(slab.count[..first]);
    var index := new nat[first](_ => 0);
    ProductPositive(slab.count[..first]);
    RavelZero(index[..], slab.count[..first]);

    runs := [];
    for n := 0 to outer
      invariant |runs| == n
      invariant InBox(index[..], slab.count[..first])
      invariant Ravel(index[..], slab.count[..first]) == if n < outer then n else 0
      invariant forall i :: 0 <= i < n ==> runs[i] == RunAt(shape, slab, first, i)
    {
      UnravelRavel(index[..], slab.count[..first]);
      assert index[..] == Unravel(n, slab.count[..first]);
      var src := LinearOffset(Plus(slab.start[..first], index[..]), srcStrides, shape);
      var dst := LinearOffset(index[..], dstStrides, slab.count);
      MulIs(slab.start[first], srcStrides[first]);
      src := src + slab.start[first] * srcStrides[first];
      runs := runs + [Run(src, dst, run)];
      Advance(index, slab.count[..first]);
    }
    RunsAreRight(shape, slab, first, runs);
  }

  lemma {:induction false} ScalarRun(shape: seq<nat>, slab: Hyperslab)
    requires slab.Inside(shape) && shape == []
    ensures Product(slab.count) == 1 && SourceOf(shape, slab, 0) == 0
  {
  }

  /** One run follows the selection: the merged trailing axes contribute a plain count. */
  lemma {:induction false} RunFollows(shape: seq<nat>, slab: Hyperslab, first: nat, n: nat)
    requires slab.Inside(shape) && first < |shape| && FullAfter(shape, slab, first)
    requires n < Product(slab.count[..first])
    ensures Follows(RunAt(shape, slab, first, n), shape, slab)
  {
    var run := RunAt(shape, slab, first, n);
    ProductSplit(slab.count, first);
    MulLe(n + 1, Product(slab.count[..first]), run.len);
    forall d | run.dst <= d < run.dst + run.len
      ensures SourceOf(shape, slab, d) == run.src + (d - run.dst)
    {
      RunFollowsAt(shape, slab, first, n, d);
    }
  }

  lemma {:induction false} RunFollowsAt(shape: seq<nat>, slab: Hyperslab, first: nat, n: nat, d: nat)
    requires slab.Inside(shape) && first < |shape| && FullAfter(shape, slab, first)
    requires n < Product(slab.count[..first]) && d < Product(slab.count)
    requires Mul(n, Product(slab.count[first..])) <= d < Mul(n, Product(slab.count[first..])) + Product(slab.count[first..])
    ensures SourceOf(shape, slab, d) ==
            RunAt(shape, slab, first, n).src + (d - Mul(n, Product(slab.count[first..])))
  {
    hide Product;
    hide Ravel;
    hide Unravel;
    hide Mul;
    var count, start := slab.count, slab.start;
    var run := Product(count[first..]);
    var k := d - Mul(n, run);
    QuotRemUnique(n, k, run);
    UnravelSplit(d, count, first);
    var coord := slab.CoordOf(d);
    RavelSplit(coord, shape, first);
    assert coord[..first] == Plus(start[..first], Unravel(n, count[..first]));
    assert coord[first..] == Plus(start[first..], Unravel(k, count[first..]));
    InnerIsFlat(shape[first..], start[first..], count[first..], k);
    assert shape[first..][1..] == shape[first + 1..];
  }

  lemma {:induction false} InnerIsFlat(shape: seq<nat>, start: Index, count: seq<nat>, k: nat)
    requires |shape| == |start| == |count| > 0 && k < Product(count)
    requires forall a :: 0 < a < |shape| ==> start[a] == 0 && count[a] == shape[a]
    ensures Ravel(Plus(start, Unravel(k, count)), shape) == Mul(start[0], Product(shape[1..])) + k
  {
    hide Mul;
    hide Quot;
    hide Rem;
    var tail := Product(count[1..]);
    assert count[1..] == shape[1..];
    QuotRemBound(k, count[0], tail);
    var inner := Unravel(k, count);
    assert inner[1..] == Unravel(Rem(k, tail), count[1..]);
    assert Plus(start, inner)[1..] == inner[1..];
    RavelUnravel(Rem(k, tail), count[1..]);
    MulAdd(start[0], Quot(k, tail), tail);
  }

  lemma {:induction false} RunsAreRight(shape: seq<nat>, slab: Hyperslab, first: nat, runs: seq<Run>)
    requires slab.Inside(shape) && first < |shape| && FullAfter(shape, slab, first)
    requires first > 0 ==> slab.count[first] < shape[first]
    requires Product(slab.count) > 0
    requires |runs| == Product(slab.count[..first])
    requires forall i :: 0 <= i < |runs| ==> runs[i] == RunAt(shape, slab, first, i)
    ensures Tile(runs, Product(slab.count))
    ensures forall i :: 0 <= i < |runs| ==> Follows(runs[i], shape, slab)
    ensures Maximal(runs)
  {
    var run := Product(slab.count[first..]);
    ProductSplit(slab.count, first);
    MulFactors(Product(slab.count[..first]), run);
    forall i | 0 <= i < |runs| ensures Follows(runs[i], shape, slab) {
      RunFollows(shape, slab, first, i);
    }
    forall i | 0 < i < |runs|
      ensures runs[i].dst == runs[i - 1].dst + run
      ensures runs[i - 1].src + run < runs[i].src
    {
      NextRunIsApart(shape, slab, first, i);
    }
  }

  lemma {:induction false} NextRunIsApart(shape: seq<nat>, slab: Hyperslab, first: nat, i: nat)
    requires slab.Inside(shape) && first < |shape| && FullAfter(shape, slab, first)
    requires first > 0 ==> slab.count[first] < shape[first]
    requires Product(slab.count) > 0
    requires 0 < i < Product(slab.count[..first])
    ensures RunAt(shape, slab, first, i - 1).src + Product(slab.count[first..]) < RunAt(shape, slab, first, i).src
  {
    var p, q := Ravel(OuterCoord(slab, first, i - 1), shape[..first]), Ravel(OuterCoord(slab, first, i), shape[..first]);
    OuterIncreases(shape, slab, first, i);
    assert first > 0;
    var block, inner := Product(shape[first..]), Product(shape[first + 1..]);
    assert shape[first..][1..] == shape[first + 1..];
    assert slab.count[first..][1..] == shape[first + 1..];
    ProductPositive(slab.count);
    ProductPositive(shape[first + 1..]);
    MulLe(slab.count[first] + 1, shape[first], inner);
    MulLe(p + 1, q, block);
  }

  ghost function OuterCoord(slab: Hyperslab, first: nat, n: nat): Index
    requires first <= |slab.start| == |slab.count| && n < Product(slab.count[..first])
  {
    Plus(slab.start[..first], Unravel(n, slab.count[..first]))
  }

  lemma {:induction false} OuterIncreases(shape: seq<nat>, slab: Hyperslab, first: nat, i: nat)
    requires slab.Inside(shape) && first < |shape|
    requires 0 < i < Product(slab.count[..first])
    ensures Ravel(OuterCoord(slab, first, i - 1), shape[..first]) < Ravel(OuterCoord(slab, first, i), shape[..first])
  {
    var outer := slab.count[..first];
    var a, b := Unravel(i - 1, outer), Unravel(i, outer);
    RavelUnravel(i - 1, outer);
    RavelUnravel(i, outer);
    RavelMonotone(a, b, outer);
    LexLessPlus(slab.start[..first], a, b);
    RavelMonotone(OuterCoord(slab, first, i - 1), OuterCoord(slab, first, i), shape[..first]);
  }
}
