/** Whether the stored chunks cover a selection, so that the fill pass may be skipped
    (`crates/oxcdf-hdf5/src/read.rs`). */
module ChunkCovers {
  import opened Basics
  import opened Arith
  import opened RowMajor
  import opened Hyperslabs

  /** One chunk of a chunked dataset, as the chunk index names it. */
  datatype ChunkRecord = ChunkRecord(size: nat, filterMask: nat, offset: Index, address: nat)

  predicate Contains(offset: Index, chunkShape: seq<nat>, coord: Index) {
    |offset| == |chunkShape| == |coord|
    && forall a :: 0 <= a < |coord| ==> offset[a] <= coord[a] < offset[a] + chunkShape[a]
  }

  predicate Aligned(offset: nat, width: nat) {
    width > 0 && Rem(offset, width) == 0
  }

  predicate OnGrid(offset: Index, chunkShape: seq<nat>) {
    |offset| == |chunkShape| && forall a :: 0 <= a < |offset| ==> Aligned(offset[a], chunkShape[a])
  }

  /** The record is written, on the grid, and holds `coord`. */
  predicate Serves(record: ChunkRecord, chunkShape: seq<nat>, coord: Index) {
    record.size != 0 && OnGrid(record.offset, chunkShape) && Contains(record.offset, chunkShape, coord)
  }

  /** Every selected coordinate is held by some written record on the grid. */
  ghost predicate Covered(chunks: seq<ChunkRecord>, chunkShape: seq<nat>, slab: Hyperslab) {
    forall coord :: slab.Selects(coord) ==> exists i :: 0 <= i < |chunks| && Serves(chunks[i], chunkShape, coord)
  }

  /** In plain terms: some record with stored bytes, at a multiple of the chunk width on every axis, spans the coordinate. */
  lemma {:induction false} ServesMeans(record: ChunkRecord, chunkShape: seq<nat>, coord: Index)
    ensures Serves(record, chunkShape, coord) <==>
            && record.size > 0 && |record.offset| == |chunkShape| == |coord|
            && forall a :: 0 <= a < |coord| ==>
              chunkShape[a] > 0 && record.offset[a] % chunkShape[a] == 0 && record.offset[a] <= coord[a] < record.offset[a] + chunkShape[a]
  {
    hide Rem;
    if |record.offset| == |chunkShape| {
      forall a | 0 <= a < |chunkShape| && chunkShape[a] > 0 ensures Rem(record.offset[a], chunkShape[a]) == record.offset[a] % chunkShape[a] {
        QuotRemIs(record.offset[a], chunkShape[a]);
      }
    }
  }

  // ---- the block of grid cells a selection touches ----

  ghost predicate Nonempty(slab: Hyperslab, chunkShape: seq<nat>) {
    |slab.start| == |slab.count| == |chunkShape|
    && forall a :: 0 <= a < |chunkShape| ==> slab.count[a] > 0
  }

  ghost predicate Widths(chunkShape: seq<nat>) {
    forall a :: 0 <= a < |chunkShape| ==> chunkShape[a] > 0
  }

  ghost function FirstAt(slab: Hyperslab, chunkShape: seq<nat>, a: nat): nat
    requires Nonempty(slab, chunkShape) && a < |chunkShape| && chunkShape[a] > 0
  {
    Quot(slab.start[a], chunkShape[a])
  }

  ghost function SpanAt(slab: Hyperslab, chunkShape: seq<nat>, a: nat): (n: nat)
    requires Nonempty(slab, chunkShape) && a < |chunkShape| && chunkShape[a] > 0
    ensures n > 0
  {
    QuotMonotone(slab.start[a], slab.start[a] + slab.count[a] - 1, chunkShape[a]);
    Quot(slab.start[a] + slab.count[a] - 1, chunkShape[a]) - FirstAt(slab, chunkShape, a) + 1
  }

  ghost function First(slab: Hyperslab, chunkShape: seq<nat>): (s: Index)
    requires Nonempty(slab, chunkShape) && Widths(chunkShape)
    ensures |s| == |chunkShape| && forall a :: 0 <= a < |s| ==> s[a] == FirstAt(slab, chunkShape, a)
  {
    seq(|chunkShape|, a requires 0 <= a < |chunkShape| => FirstAt(slab, chunkShape, a))
  }

  ghost function Span(slab: Hyperslab, chunkShape: seq<nat>): (s: seq<nat>)
    requires Nonempty(slab, chunkShape) && Widths(chunkShape)
    ensures |s| == |chunkShape| && forall a :: 0 <= a < |s| ==> s[a] == SpanAt(slab, chunkShape, a)
  {
    seq(|chunkShape|, a requires 0 <= a < |chunkShape| => SpanAt(slab, chunkShape, a))
  }

  /** An aligned chunk holds exactly the coordinates whose quotient is its own. */
  lemma {:induction false} AlignedContains(offset: nat, width: nat, x: nat)
    requires Aligned(offset, width)
    ensures offset <= x < offset + width <==> Quot(x, width) == Quot(offset, width)
  {
    hide Quot;
    hide Mul;
    hide Rem;
    QuotRem(offset, width);
    QuotRem(x, width);
    if offset <= x < offset + width {
      QuotRemUnique(Quot(offset, width), x - offset, width);
    }
  }

  // ---- cells ----

  /** The grid position of a record within the block, when it has one. */
  ghost predicate InBlock(record: ChunkRecord, first: Index, span: seq<nat>, chunkShape: seq<nat>)
    requires |first| == |span| == |chunkShape|
  {
    record.size != 0 && OnGrid(record.offset, chunkShape)
    && forall a :: 0 <= a < |span| ==> first[a] <= Quot(record.offset[a], chunkShape[a]) < first[a] + span[a]
  }

  ghost function Local(record: ChunkRecord, first: Index, span: seq<nat>, chunkShape: seq<nat>): (u: Index)
    requires |first| == |span| == |chunkShape| && InBlock(record, first, span, chunkShape)
    ensures InBox(u, span) && forall a :: 0 <= a < |u| ==> u[a] == Quot(record.offset[a], chunkShape[a]) - first[a]
  {
    seq(|span|, a requires 0 <= a < |span| => Quot(record.offset[a], chunkShape[a]) - first[a])
  }

  ghost function CellOf(record: ChunkRecord, first: Index, span: seq<nat>, chunkShape: seq<nat>): Option<nat>
    requires |first| == |span| == |chunkShape|
  {
    if InBlock(record, first, span, chunkShape) then Some(Ravel(Local(record, first, span, chunkShape), span)) else None
  }

  /** The cells that hold a record. */
  ghost function Cells(chunks: seq<ChunkRecord>, first: Index, span: seq<nat>, chunkShape: seq<nat>): (s: set<nat>)
    requires |first| == |span| == |chunkShape|
    ensures |s| <= |chunks|
  {
    if chunks == [] then {}
    else
      var n := |chunks| - 1;
      var rest := Cells(chunks[..n], first, span, chunkShape);
      var last := CellOf(chunks[n], first, span, chunkShape);
      if last.Some? then rest + {last.value} else rest
  }

  lemma {:induction false} CellsMember(chunks: seq<ChunkRecord>, first: Index, span: seq<nat>, chunkShape: seq<nat>, c: nat)
    requires |first| == |span| == |chunkShape|
    ensures c in Cells(chunks, first, span, chunkShape)
       <==> exists i :: 0 <= i < |chunks| && CellOf(chunks[i], first, span, chunkShape) == Some(c)
  {
    hide CellOf;
    if chunks != [] {
      var n := |chunks| - 1;
      CellsMember(chunks[..n], first, span, chunkShape, c);
      assert forall i :: 0 <= i < n ==> chunks[..n][i] == chunks[i];
    }
  }

  function Upto(n: nat): (s: set<nat>)
    ensures |s| == n && forall c :: c in s <==> 0 <= c < n
  {
    if n == 0 then {} else Upto(n - 1) + {n - 1}
  }

  lemma {:induction false} CellsBound(chunks: seq<ChunkRecord>, first: Index, span: seq<nat>, chunkShape: seq<nat>)
    requires |first| == |span| == |chunkShape|
    ensures Cells(chunks, first, span, chunkShape) <= Upto(Product(span))
  {
    forall c | c in Cells(chunks, first, span, chunkShape) ensures c < Product(span) {
      CellsMember(chunks, first, span, chunkShape, c);
      var i :| 0 <= i < |chunks| && CellOf(chunks[i], first, span, chunkShape) == Some(c);
      RavelBound(Local(chunks[i], first, span, chunkShape), span);
    }
  }

  lemma {:induction false} FullSet(s: set<nat>, n: nat)
    requires s <= Upto(n)
    ensures |s| == n <==> s == Upto(n)
    ensures |s| <= n
  {
    assert |Upto(n) - s| == n - |s|;
  }

  /** A record in the block serves a selected coordinate exactly when it sits in that coordinate's cell. */
  lemma {:induction false} ServesIsCell(record: ChunkRecord, chunkShape: seq<nat>, slab: Hyperslab, coord: Index)
    requires Nonempty(slab, chunkShape) && Widths(chunkShape) && slab.Selects(coord)
    ensures InBox(CellIndex(slab, chunkShape, coord), Span(slab, chunkShape))
    ensures Serves(record, chunkShape, coord) <==>
            CellOf(record, First(slab, chunkShape), Span(slab, chunkShape), chunkShape)
            == Some(Ravel(CellIndex(slab, chunkShape, coord), Span(slab, chunkShape)))
  {
    hide Quot;
    hide Ravel;
    hide Rem;
    var first, span, u := First(slab, chunkShape), Span(slab, chunkShape), CellIndex(slab, chunkShape, coord);
    forall a | 0 <= a < |coord| ensures first[a] <= Quot(coord[a], chunkShape[a]) < first[a] + span[a] {
      QuotMonotone(slab.start[a], coord[a], chunkShape[a]);
      QuotMonotone(coord[a], slab.start[a] + slab.count[a] - 1, chunkShape[a]);
    }
    if record.size != 0 && OnGrid(record.offset, chunkShape) {
      forall a | 0 <= a < |coord|
        ensures record.offset[a] <= coord[a] < record.offset[a] + chunkShape[a]
            <==> Quot(coord[a], chunkShape[a]) == Quot(record.offset[a], chunkShape[a])
      {
        AlignedContains(record.offset[a], chunkShape[a], coord[a]);
      }
      if InBlock(record, first, span, chunkShape) {
        var l := Local(record, first, span, chunkShape);
        if Ravel(l, span) == Ravel(u, span) {
          RavelInjective(l, u, span);
        }
        if Contains(record.offset, chunkShape, coord) {
          assert l == u;
        }
      }
    }
  }

  ghost function CellAt(slab: Hyperslab, chunkShape: seq<nat>, a: nat, x: nat): nat
    requires Nonempty(slab, chunkShape) && a < |chunkShape| && chunkShape[a] > 0 && slab.start[a] <= x
  {
    QuotMonotone(slab.start[a], x, chunkShape[a]);
    Quot(x, chunkShape[a]) - FirstAt(slab, chunkShape, a)
  }

  ghost function CellIndex(slab: Hyperslab, chunkShape: seq<nat>, coord: Index): (u: Index)
    requires Nonempty(slab, chunkShape) && Widths(chunkShape) && slab.Selects(coord)
    ensures |u| == |coord| && forall a :: 0 <= a < |u| ==> u[a] == Quot(coord[a], chunkShape[a]) - FirstAt(slab, chunkShape, a)
  {
    seq(|coord|, a requires 0 <= a < |coord| => CellAt(slab, chunkShape, a, coord[a]))
  }

  /** Every cell of the block holds some selected coordinate. */
  lemma {:induction false} CellIsTouched(slab: Hyperslab, chunkShape: seq<nat>, u: Index) returns (coord: Index)
    requires Nonempty(slab, chunkShape) && Widths(chunkShape) && InBox(u, Span(slab, chunkShape))
    ensures slab.Selects(coord) && CellIndex(slab, chunkShape, coord) == u
  {
    hide Quot;
    hide Mul;
    coord := seq(|u|, a requires 0 <= a < |u| =>
      Max(slab.start[a], Mul(FirstAt(slab, chunkShape, a) + u[a], chunkShape[a])));
    forall a | 0 <= a < |u|
      ensures slab.start[a] <= coord[a] < slab.start[a] + slab.count[a]
      ensures Quot(coord[a], chunkShape[a]) == FirstAt(slab, chunkShape, a) + u[a]
    {
      CellIsTouchedAt(slab.start[a], slab.start[a] + slab.count[a] - 1, chunkShape[a], u[a]);
    }
  }

  lemma {:induction false} CellIsTouchedAt(lo: nat, hi: nat, width: nat, u: nat)
    requires lo <= hi && width > 0 && Quot(lo, width) + u <= Quot(hi, width)
    ensures var x := Max(lo, Mul(Quot(lo, width) + u, width));
            lo <= x <= hi && Quot(x, width) == Quot(lo, width) + u
  {
    hide Quot;
    hide Mul;
    hide Rem;
    var q := Quot(lo, width) + u;
    QuotRem(lo, width);
    QuotRem(hi, width);
    MulLe(q, Quot(hi, width), width);
    QuotRemUnique(q, 0, width);
    if u > 0 {
      MulAdd(Quot(lo, width), u, width);
      MulPositive(u, width);
      MulLe(1, u, width);
      MulOne(width);
    }
  }

  /** The selection is covered exactly when every cell of its block holds a record. */
  lemma {:induction false} CoveredIsFull(chunks: seq<ChunkRecord>, chunkShape: seq<nat>, slab: Hyperslab)
    requires Nonempty(slab, chunkShape) && Widths(chunkShape)
    ensures var span := Span(slab, chunkShape);
            Covered(chunks, chunkShape, slab) <==>
            Cells(chunks, First(slab, chunkShape), span, chunkShape) == Upto(Product(span))
  {
    var first, span := First(slab, chunkShape), Span(slab, chunkShape);
    var cells := Cells(chunks, first, span, chunkShape);
    CellsBound(chunks, first, span, chunkShape);
    if Covered(chunks, chunkShape, slab) {
      forall c | 0 <= c < Product(span) ensures c in cells {
        var coord := CellIsTouched(slab, chunkShape, Unravel(c, span));
        RavelUnravel(c, span);
        var i :| 0 <= i < |chunks| && Serves(chunks[i], chunkShape, coord);
        ServesIsCell(chunks[i], chunkShape, slab, coord);
        CellsMember(chunks, first, span, chunkShape, c);
      }
    }
    if cells == Upto(Product(span)) {
      forall coord | slab.Selects(coord)
        ensures exists i :: 0 <= i < |chunks| && Serves(chunks[i], chunkShape, coord)
      {
        ServesIsCell(ChunkRecord(0, 0, [], 0), chunkShape, slab, coord);
        var c := Ravel(CellIndex(slab, chunkShape, coord), span);
        RavelBound(CellIndex(slab, chunkShape, coord), span);
        CellsMember(chunks, first, span, chunkShape, c);
        var i :| 0 <= i < |chunks| && CellOf(chunks[i], first, span, chunkShape) == Some(c);
        ServesIsCell(chunks[i], chunkShape, slab, coord);
      }
    }
  }

  lemma {:induction false} ZeroWidthUncovered(chunks: seq<ChunkRecord>, chunkShape: seq<nat>, slab: Hyperslab)
    requires Nonempty(slab, chunkShape) && !Widths(chunkShape)
    ensures !Covered(chunks, chunkShape, slab)
  {
    assert slab.Selects(slab.start);
  }

  /** Pigeonhole: a block with more cells than there are records, on any leading axes, is not covered. */
  lemma {:induction false} TooManyCells(chunks: seq<ChunkRecord>, chunkShape: seq<nat>, slab: Hyperslab, cells: nat, axis: nat)
    requires Nonempty(slab, chunkShape) && axis < |chunkShape|
    requires forall a :: 0 <= a <= axis ==> chunkShape[a] > 0
    requires Widths(chunkShape) ==> cells == Product(Span(slab, chunkShape)[..axis + 1])
    requires cells > |chunks|
    ensures !Covered(chunks, chunkShape, slab)
  {
    if Widths(chunkShape) {
      var span := Span(slab, chunkShape);
      CoveredIsFull(chunks, chunkShape, slab);
      ProductSplit(span, axis + 1);
      ProductPositive(span);
      MulFactors(Product(span[..axis + 1]), Product(span[axis + 1..]));
    } else {
      ZeroWidthUncovered(chunks, chunkShape, slab);
    }
  }

  // ---- the test itself ----

  /** The cell a record falls in, by Horner's rule over the axes, stopping at the first axis that rules it out. */
  method CellNumber(record: ChunkRecord, chunkShape: seq<nat>, first: Index, span: seq<nat>) returns (cell: Option<nat>)
    requires |first| == |span| == |chunkShape| && Widths(chunkShape)
    ensures cell == CellOf(record, first, span, chunkShape)
  {
    hide Quot;
    hide Rem;
    hide Ravel;
    hide Mul;
    var rank := |chunkShape|;
    if record.size == 0 || |record.offset| != rank {
      return None;
    }
    var number := 0;
    ghost var digits: Index := [];
    RavelZero([], span[..0]);
    for axis := 0 to rank
      invariant |digits| == axis
      invariant forall a :: 0 <= a < axis ==> Aligned(record.offset[a], chunkShape[a])
      invariant forall a :: 0 <= a < axis ==> first[a] <= Quot(record.offset[a], chunkShape[a]) < first[a] + span[a]
      invariant forall a :: 0 <= a < axis ==> digits[a] == Quot(record.offset[a], chunkShape[a]) - first[a]
      invariant number == Ravel(digits, span[..axis])
    {
      var width, offset := chunkShape[axis], record.offset[axis];
      QuotRemIs(offset, width);
      if offset % width != 0 {
        return None;
      }
      var index := offset / width;
      if index < first[axis] || index >= first[axis] + span[axis] {
        return None;
      }
      ghost var before := digits;
      digits := digits + [index - first[axis]];
      assert digits[..axis] == before && digits[..axis + 1] == digits;
      RavelSnoc(digits, span, axis);
      MulIs(number, span[axis]);
      number := number * span[axis] + (index - first[axis]);
    }
    assert span[..rank] == span;
    assert digits == Local(record, first, span, chunkShape);
    return Some(number);
  }

  /** The block of cells, or `None` when some axis already shows the selection cannot be covered. */
  method CellBlock(chunks: seq<ChunkRecord>, chunkShape: seq<nat>, slab: Hyperslab)
    returns (block: Option<(Index, seq<nat>, nat)>)
    requires Nonempty(slab, chunkShape)
    ensures block.None? ==> !Covered(chunks, chunkShape, slab)
    ensures block.Some? ==>
              && Widths(chunkShape)
              && block.value == (First(slab, chunkShape), Span(slab, chunkShape), Product(Span(slab, chunkShape)))
  {
    hide Quot;
    hide Rem;
    hide Mul;
    var rank := |chunkShape|;
    var first: Index := [];
    var span: seq<nat> := [];
    var cells := 1;
    for axis := 0 to rank
      invariant |first| == |span| == axis
      invariant forall a :: 0 <= a < axis ==> chunkShape[a] > 0
      invariant forall a :: 0 <= a < axis ==> first[a] == FirstAt(slab, chunkShape, a) && span[a] == SpanAt(slab, chunkShape, a)
      invariant cells == Product(span)
    {
      var width := chunkShape[axis];
      if width == 0 {
        ZeroWidthUncovered(chunks, chunkShape, slab);
        return None;
      }
      QuotRemIs(slab.start[axis], width);
      QuotRemIs(slab.start[axis] + slab.count[axis] - 1, width);
      QuotMonotone(slab.start[axis], slab.start[axis] + slab.count[axis] - 1, width);
      var lo := slab.start[axis] / width;
      var hi := (slab.start[axis] + slab.count[axis] - 1) / width;
      first, span := first + [lo], span + [hi - lo + 1];
      assert span[..axis + 1] == span;
      ProductSnoc(span, axis);
      MulIs(cells, span[axis]);
      cells := cells * span[axis];
      if cells > |chunks| {
        assert Widths(chunkShape) ==> Span(slab, chunkShape)[..axis + 1] == span;
        TooManyCells(chunks, chunkShape, slab, cells, axis);
        return None;
      }
    }
    assert first == First(slab, chunkShape) && span == Span(slab, chunkShape);
    return Some((first, span, cells));
  }

  /** Mark the cell of every record; the block is full once none is missing. */
  method AllCellsSeen(chunks: seq<ChunkRecord>, chunkShape: seq<nat>, first: Index, span: seq<nat>, cells: nat)
    returns (full: bool)
    requires |first| == |span| == |chunkShape| && Widths(chunkShape) && cells == Product(span) > 0
    ensures full <==> Cells(chunks, first, span, chunkShape) == Upto(cells)
  {
    hide Cells;
    hide CellOf;
    hide Product;
    hide Upto;
    var seen := new bool[cells](_ => false);
    var missing := cells;
    NoCells(first, span, chunkShape);
    ghost var marked: set<nat> := {};
    for i := 0 to |chunks|
      invariant marked == Cells(chunks[..i], first, span, chunkShape)
      invariant forall c :: 0 <= c < cells ==> (seen[c] <==> c in marked)
      invariant missing == cells - |marked| > 0
    {
      CellsStep(chunks, i, first, span, chunkShape);
      var cell := CellNumber(chunks[i], chunkShape, first, span);
      marked := marked + (if cell.Some? then {cell.value} else {});
      if cell.Some? && !seen[cell.value] {
        seen[cell.value] := true;
        missing := missing - 1;
        if missing == 0 {
          CellsGrow(chunks, i + 1, first, span, chunkShape);
          CellsBound(chunks, first, span, chunkShape);
          FullSet(marked, cells);
          return true;
        }
      }
    }
    assert chunks[..|chunks|] == chunks;
    CellsBound(chunks, first, span, chunkShape);
    FullSet(marked, cells);
    return false;
  }

  /** The chunks cover the selection, for every index: duplicated, off-grid, wrong-rank and unwritten records included. */
  method ChunksCover(chunks: seq<ChunkRecord>, chunkShape: seq<nat>, slab: Hyperslab) returns (r: bool)
    requires |slab.start| == |slab.count| == |chunkShape|
    ensures r <==> Covered(chunks, chunkShape, slab)
    ensures r <==> forall coord :: slab.Selects(coord) ==> exists i :: 0 <= i < |chunks| && Serves(chunks[i], chunkShape, coord)
  {
    CoveredIs(chunks, chunkShape, slab);
    hide Cells;
    hide Covered;
    hide Serves;
    hide Contains;
    ProductPositive(slab.count);
    var selected := ElementCount(slab.count);
    if selected == 0 {
      EmptyIsCovered(chunks, chunkShape, slab);
      return true;
    }
    var block := CellBlock(chunks, chunkShape, slab);
    if block.None? {
      return false;
    }
    var (first, span, cells) := block.value;
    CoveredIsFull(chunks, chunkShape, slab);
    ProductPositive(span);
    r := AllCellsSeen(chunks, chunkShape, first, span, cells);
  }

  lemma {:induction false} CoveredIs(chunks: seq<ChunkRecord>, chunkShape: seq<nat>, slab: Hyperslab)
    ensures Covered(chunks, chunkShape, slab) <==>
            forall coord :: slab.Selects(coord) ==> exists i :: 0 <= i < |chunks| && Serves(chunks[i], chunkShape, coord)
  {
  }

  lemma {:induction false} EmptyIsCovered(chunks: seq<ChunkRecord>, chunkShape: seq<nat>, slab: Hyperslab)
    requires |slab.start| == |slab.count| == |chunkShape| && Product(slab.count) == 0
    ensures Covered(chunks, chunkShape, slab)
  {
    ProductPositive(slab.count);
    var a :| 0 <= a < |slab.count| && slab.count[a] == 0;
    assert slab.start[a] >= slab.start[a] + slab.count[a];
    assert forall coord :: !slab.Selects(coord);
  }

  lemma {:induction false} NoCells(first: Index, span: seq<nat>, chunkShape: seq<nat>)
    requires |first| == |span| == |chunkShape|
    ensures Cells([], first, span, chunkShape) == {}
  {
  }

  lemma {:induction false} CellsStep(chunks: seq<ChunkRecord>, i: nat, first: Index, span: seq<nat>, chunkShape: seq<nat>)
    requires |first| == |span| == |chunkShape| && i < |chunks|
    ensures var cell := CellOf(chunks[i], first, span, chunkShape);
            && Cells(chunks[..i + 1], first, span, chunkShape)
            == Cells(chunks[..i], first, span, chunkShape) + (if cell.Some? then {cell.value} else {})
            && (cell.Some? ==> cell.value < Product(span))
  {
    assert chunks[..i + 1][..i] == chunks[..i];
    if InBlock(chunks[i], first, span, chunkShape) {
      RavelBound(Local(chunks[i], first, span, chunkShape), span);
    }
  }

  lemma {:induction false} CellsGrow(chunks: seq<ChunkRecord>, i: nat, first: Index, span: seq<nat>, chunkShape: seq<nat>)
    requires |first| == |span| == |chunkShape| && i <= |chunks|
    ensures Cells(chunks[..i], first, span, chunkShape) <= Cells(chunks, first, span, chunkShape)
    ensures Cells(chunks[..i], first, span, chunkShape) <= Upto(Product(span))
    decreases |chunks| - i
  {
    CellsBound(chunks[..i], first, span, chunkShape);
    if i < |chunks| {
      CellsStep(chunks, i, first, span, chunkShape);
      CellsGrow(chunks, i + 1, first, span, chunkShape);
    } else {
      assert chunks[..i] == chunks;
    }
  }
}
