/** Record variables of netCDF classic files (`crates/oxcdf/src/classic.rs`).
    Reference: NetCDF Classic Format Specification, "Computing File Offsets". */
module Classic {
  import opened Basics
  import opened Arith
  import opened RowMajor
  import opened Hyperslabs
  import opened Elements
  import opened ChunkCopies
  import opened ReadEngine

  datatype Variable = Variable(shape: seq<nat>, isRecord: bool, begin: nat, width: nat) {
    /** A record variable has a record axis, and its element count fits 64 bits. */
    ghost predicate Valid() {
      isRecord && |shape| > 0 && Product(shape) <= U64_MAX && forall a :: 0 <= a < |shape| ==> shape[a] <= U64_MAX
    }

    /** Bytes of one record, unpadded. */
    function RecordBytes(): nat
      requires |shape| > 0
    {
      Mul(Product(shape[1..]), width)
    }
  }

  // ---- the record stride ----

  /** The least multiple of four that is not below `n`. */
  function Pad4(n: nat): (p: nat)
    ensures p % 4 == 0 && n <= p < n + 4
  {
    (n + 3) / 4 * 4
  }

  ghost predicate Ranked(vars: seq<Variable>) {
    forall i :: 0 <= i < |vars| && vars[i].isRecord ==> |vars[i].shape| > 0
  }

  function RecordVars(vars: seq<Variable>): (r: seq<Variable>)
    ensures forall i :: 0 <= i < |r| ==> r[i].isRecord && r[i] in vars
    ensures forall v :: v in vars && v.isRecord ==> v in r
  {
    if vars == [] then [] else (if vars[0].isRecord then [vars[0]] else []) + RecordVars(vars[1..])
  }

  function PaddedSum(vars: seq<Variable>): nat
    requires forall i :: 0 <= i < |vars| ==> |vars[i].shape| > 0
  {
    if vars == [] then 0 else Pad4(vars[0].RecordBytes()) + PaddedSum(vars[1..])
  }

  /** Distance between consecutive records: unpadded when there is exactly one record variable. */
  function StrideOf(records: seq<Variable>): nat
    requires forall i :: 0 <= i < |records| ==> |records[i].shape| > 0
  {
    if |records| == 1 then records[0].RecordBytes() else PaddedSum(records)
  }

  ghost predicate StrideFits(vars: seq<Variable>)
    requires Ranked(vars)
  {
    PaddedSum(RecordVars(vars)) <= U64_MAX
  }

  /** Variable `i` is the only record variable. */
  ghost predicate OnlyRecord(vars: seq<Variable>, i: nat) {
    i < |vars| && vars[i].isRecord && forall j :: 0 <= j < |vars| && j != i ==> !vars[j].isRecord
  }

  lemma {:induction false} OnlyRecordVars(vars: seq<Variable>, i: nat)
    requires OnlyRecord(vars, i)
    ensures RecordVars(vars) == [vars[i]]
  {
    if i == 0 {
      NoRecords(vars[1..]);
    } else {
      OnlyRecordVars(vars[1..], i - 1);
    }
  }

  lemma {:induction false} NoRecords(vars: seq<Variable>)
    ensures (forall j :: 0 <= j < |vars| ==> !vars[j].isRecord) <==> RecordVars(vars) == []
  {
    if vars != [] {
      NoRecords(vars[1..]);
      assert forall j :: 0 < j < |vars| ==> vars[j] == vars[1..][j - 1];
      assert forall j :: 0 <= j < |vars[1..]| ==> vars[1..][j] == vars[j + 1];
    }
  }

  lemma {:induction false} OneRecordVar(vars: seq<Variable>) returns (i: nat)
    requires |RecordVars(vars)| == 1
    ensures OnlyRecord(vars, i)
  {
    if vars[0].isRecord {
      i := 0;
      NoRecords(vars[1..]);
      assert forall j :: 0 < j < |vars| ==> vars[j] == vars[1..][j - 1];
    } else {
      var k := OneRecordVar(vars[1..]);
      i := k + 1;
      assert forall j :: 0 < j < |vars| ==> vars[j] == vars[1..][j - 1];
    }
  }

  /** The padded record sizes of the first variables, added up one variable at a time. */
  ghost predicate AreSums(sums: seq<nat>, vars: seq<Variable>, n: nat)
    requires Ranked(vars) && n <= |vars|
  {
    |sums| == n + 1 && sums[0] == 0
    && forall i :: 0 <= i < n ==>
      sums[i + 1] == sums[i] + if vars[i].isRecord then Pad4(Mul(Product(vars[i].shape[1..]), vars[i].width)) else 0
  }

  lemma {:induction false} NoSums(vars: seq<Variable>)
    requires Ranked(vars)
    ensures AreSums([0], vars, 0)
  {
  }

  lemma {:induction false} SumMore(sums: seq<nat>, vars: seq<Variable>, n: nat, sum: nat)
    requires Ranked(vars) && n < |vars| && AreSums(sums, vars, n)
    requires sum == sums[n] + if vars[n].isRecord then Pad4(vars[n].RecordBytes()) else 0
    ensures AreSums(sums + [sum], vars, n + 1)
  {
    hide Product;
    hide Mul;
  }

  /** The header's stride over all its variables: one record of the only record variable, unpadded, and otherwise the
      padded records of all of them. */
  method RecordStride(vars: seq<Variable>) returns (stride: nat, ghost sums: seq<nat>)
    requires Ranked(vars) && StrideFits(vars)
    ensures stride == StrideOf(RecordVars(vars))
    ensures forall i: nat :: OnlyRecord(vars, i) ==> stride == Mul(Product(vars[i].shape[1..]), vars[i].width)
    ensures |sums| == |vars| + 1 && AreSums(sums, vars, |vars|)
    ensures (forall i: nat :: !OnlyRecord(vars, i)) ==> stride == sums[|vars|]
  {
    hide Product;
    hide Mul;
    hide Pad4;
    hide RecordVars;
    hide PaddedSum;
    var records: seq<Variable> := [];
    var sum: nat := 0;
    sums := [0];
    hide AreSums;
    NoSums(vars);
    NothingPadded();
    assert vars[0..] == vars;
    for i := 0 to |vars|
      invariant forall k :: 0 <= k < |records| ==> |records[k].shape| > 0
      invariant records + RecordVars(vars[i..]) == RecordVars(vars)
      invariant sum == PaddedSum(records)
      invariant |sums| == i + 1 && AreSums(sums, vars, i) && sum == sums[i]
    {
      RecordVarsStep(vars, i, records);
      if vars[i].isRecord {
        PaddedSnoc(records, vars[i]);
        sum := AddRecord(records, vars[i], RecordVars(vars[i + 1..]), sum);
        records := records + [vars[i]];
      }
      SumMore(sums, vars, i, sum);
      sums := sums + [sum];
    }
    NoRecordVars(vars);
    assert records == RecordVars(vars);
    forall i: nat | OnlyRecord(vars, i) ensures records == [vars[i]] {
      OnlyRecordVars(vars, i);
    }
    if |records| == 1 {
      PaddedPrefix(records, []);
      stride := BytesOf(records[0]);
      ghost var only := OneRecordVar(vars);
    } else {
      stride := sum;
    }
  }

  lemma {:induction false} NothingPadded()
    ensures PaddedSum([]) == 0
  {
  }

  lemma {:induction false} NoRecordVars(vars: seq<Variable>)
    ensures RecordVars(vars[|vars|..]) == []
  {
  }

  lemma {:induction false} RecordVarsStep(vars: seq<Variable>, i: nat, records: seq<Variable>)
    requires i < |vars|
    ensures records + RecordVars(vars[i..])
         == (if vars[i].isRecord then records + [vars[i]] else records) + RecordVars(vars[i + 1..])
  {
    hide RecordVars;
    var rest := RecordVars(vars[i + 1..]);
    assert vars[i..][1..] == vars[i + 1..];
    RecordVarsHead(vars[i..]);
    if vars[i].isRecord {
      assert records + ([vars[i]] + rest) == records + [vars[i]] + rest;
    } else {
      assert [] + rest == rest;
    }
  }

  lemma {:induction false} RecordVarsHead(vars: seq<Variable>)
    requires vars != []
    ensures RecordVars(vars) == (if vars[0].isRecord then [vars[0]] else []) + RecordVars(vars[1..])
  {
  }

  /** One record's bytes, saturating at every multiplication. */
  method BytesOf(v: Variable) returns (bytes: nat)
    requires |v.shape| > 0 && v.RecordBytes() <= U64_MAX
    ensures bytes == v.RecordBytes()
  {
    var inner := ElementCount(v.shape[1..]);
    SaturatedBytes(v, inner);
    bytes := Min(inner * v.width, U64_MAX);
  }

  method AddRecord(records: seq<Variable>, v: Variable, ghost rest: seq<Variable>, sum: nat) returns (next: nat)
    requires |v.shape| > 0 && forall i :: 0 <= i < |records| ==> |records[i].shape| > 0
    requires forall i :: 0 <= i < |rest| ==> |rest[i].shape| > 0
    requires sum == PaddedSum(records) && PaddedSum(records + [v] + rest) <= U64_MAX
    ensures next == PaddedSum(records + [v])
  {
    hide Product;
    hide Mul;
    PaddedSnoc(records, v);
    PaddedPrefix(records + [v], rest);
    var bytes := BytesOf(v);
    next := sum + Pad4(bytes);
  }

  /** Saturating twice loses nothing when the record fits. */
  lemma {:induction false} SaturatedBytes(v: Variable, inner: nat)
    requires |v.shape| > 0 && inner == Min(Product(v.shape[1..]), U64_MAX) && v.RecordBytes() <= U64_MAX
    ensures Min(inner * v.width, U64_MAX) == v.RecordBytes()
  {
    hide Product;
    hide Mul;
    SaturateStep(Product(v.shape[1..]), v.width);
    MulIs(inner, v.width);
  }

  lemma {:induction false} PaddedSnoc(vars: seq<Variable>, v: Variable)
    requires |v.shape| > 0 && forall i :: 0 <= i < |vars| ==> |vars[i].shape| > 0
    ensures PaddedSum(vars + [v]) == PaddedSum(vars) + Pad4(v.RecordBytes())
  {
    if vars == [] {
      assert (vars + [v])[1..] == [];
    } else {
      PaddedSnoc(vars[1..], v);
      assert (vars + [v])[1..] == vars[1..] + [v];
    }
  }

  lemma {:induction false} PaddedPrefix(a: seq<Variable>, b: seq<Variable>)
    requires forall i :: 0 <= i < |a| ==> |a[i].shape| > 0
    requires forall i :: 0 <= i < |b| ==> |b[i].shape| > 0
    ensures PaddedSum(a + b) == PaddedSum(a) + PaddedSum(b)
    ensures forall i :: 0 <= i < |a| ==> Pad4(a[i].RecordBytes()) <= PaddedSum(a)
  {
    if a == [] {
      assert a + b == b;
    } else {
      PaddedPrefix(a[1..], b);
      assert (a + b)[1..] == a[1..] + b;
      assert forall i :: 0 < i < |a| ==> a[i] == a[1..][i - 1];
    }
  }

  /** Record variables start one padded record apart, in file order. */
  ghost predicate LaidOut(records: seq<Variable>) {
    && (forall i :: 0 <= i < |records| ==> |records[i].shape| > 0)
    && (forall i :: 0 < i < |records| ==> records[i].begin == records[i - 1].begin + Pad4(records[i - 1].RecordBytes()))
  }

  /** Where record `r` of a variable starts. */
  function RecordAt(v: Variable, stride: nat, r: nat): (at: nat)
    ensures at == v.begin + Mul(r, stride)
  {
    v.begin + Mul(r, stride)
  }

  lemma {:induction false} BeginIsSum(records: seq<Variable>, i: nat)
    requires LaidOut(records) && i < |records|
    ensures records[i].begin == records[0].begin + PaddedSum(records[..i])
    ensures PaddedSum(records[..i]) + Pad4(records[i].RecordBytes()) <= PaddedSum(records)
  {
    if i == 0 {
      PaddedPrefix(records, []);
    } else {
      BeginIsSum(records, i - 1);
      PaddedSnoc(records[..i - 1], records[i - 1]);
      assert records[..i - 1] + [records[i - 1]] == records[..i];
      PaddedSnoc(records[..i], records[i]);
      PaddedPrefix(records[..i] + [records[i]], records[i + 1..]);
      assert records[..i] + [records[i]] + records[i + 1..] == records;
    }
  }

  /** A record of any variable ends before the next round of records begins. */
  lemma {:induction false} RecordInRound(records: seq<Variable>, i: nat)
    requires LaidOut(records) && i < |records|
    ensures records[0].begin <= records[i].begin
    ensures records[i].begin + records[i].RecordBytes() <= records[0].begin + StrideOf(records)
  {
    BeginIsSum(records, i);
  }

  /** Interleaved records never overlap: a stride too small for its variables would fail this. */
  lemma {:induction false} RecordsDisjoint(records: seq<Variable>, i: nat, r: nat, j: nat, s: nat)
    requires LaidOut(records) && i < |records| && j < |records| && (r < s || (r == s && i < j))
    ensures RecordAt(records[i], StrideOf(records), r) + records[i].RecordBytes() <= RecordAt(records[j], StrideOf(records), s)
  {
    hide Mul;
    var stride := StrideOf(records);
    if r < s {
      RecordInRound(records, i);
      RecordInRound(records, j);
      MulAt(r, s - r, stride);
    } else {
      BeginsApart(records, i, j);
    }
  }

  lemma {:induction false} BeginsApart(records: seq<Variable>, i: nat, j: nat)
    requires LaidOut(records) && i < j < |records|
    ensures records[i].begin + records[i].RecordBytes() <= records[j].begin
  {
    if i < j - 1 {
      BeginsApart(records, i, j - 1);
    }
  }

  /** Records of the only record variable lie end to end. */
  lemma {:induction false} RecordsAbut(v: Variable, r: nat)
    requires |v.shape| > 0
    ensures RecordAt(v, StrideOf([v]), r + 1) == RecordAt(v, StrideOf([v]), r) + Mul(Product(v.shape[1..]), v.width)
  {
    hide Product;
    MulAdd(r, 1, StrideOf([v]));
    MulOne(StrideOf([v]));
  }

  /** With several record variables the rounds are exactly filled: the padding is the only slack. */
  lemma {:induction false} RoundIsFull(records: seq<Variable>)
    requires LaidOut(records) && |records| > 1
    ensures var last := records[|records| - 1];
            last.begin + Pad4(last.RecordBytes()) == records[0].begin + StrideOf(records)
  {
    var k := |records| - 1;
    BeginIsSum(records, k);
    PaddedSnoc(records[..k], records[k]);
    assert records[..k] + [records[k]] == records;
  }

  // ---- where an element lies ----

  /** The file offset of the element at a dataset coordinate. */
  function FileOffset(v: Variable, stride: nat, coord: Index): (at: nat)
    requires |coord| == |v.shape| > 0
    ensures at == v.begin + Mul(coord[0], stride) + Mul(Ravel(coord[1..], v.shape[1..]), v.width)
  {
    RecordAt(v, stride, coord[0]) + Mul(Ravel(coord[1..], v.shape[1..]), v.width)
  }

  /** An element lies inside its record. */
  lemma {:induction false} ElementInRecord(v: Variable, stride: nat, coord: Index)
    requires InBox(coord, v.shape) && |v.shape| > 0
    ensures RecordAt(v, stride, coord[0]) <= FileOffset(v, stride, coord)
    ensures FileOffset(v, stride, coord) + v.width <= RecordAt(v, stride, coord[0]) + v.RecordBytes()
  {
    hide Mul;
    hide Product;
    hide Ravel;
    RavelBound(coord[1..], v.shape[1..]);
    MulAt(Ravel(coord[1..], v.shape[1..]), Product(v.shape[1..]) - Ravel(coord[1..], v.shape[1..]), v.width);
  }

  /** Two elements of record variables share bytes only if they are the same element. */
  lemma {:induction false} ElementsDisjoint(records: seq<Variable>, i: nat, a: Index, j: nat, b: Index)
    requires LaidOut(records) && i < |records| && j < |records|
    requires InBox(a, records[i].shape) && InBox(b, records[j].shape) && (i, a) != (j, b)
    ensures var stride := StrideOf(records);
            var x, y := FileOffset(records[i], stride, a), FileOffset(records[j], stride, b);
            x + records[i].width <= y || y + records[j].width <= x
  {
    hide Mul;
    hide Product;
    hide Ravel;
    hide StrideOf;
    var stride := StrideOf(records);
    ElementInRecord(records[i], stride, a);
    ElementInRecord(records[j], stride, b);
    if a[0] < b[0] || (a[0] == b[0] && i < j) {
      RecordsDisjoint(records, i, a[0], j, b[0]);
    } else if b[0] < a[0] || j < i {
      RecordsDisjoint(records, j, b[0], i, a[0]);
    } else {
      var v := records[i];
      var x, y := Ravel(a[1..], v.shape[1..]), Ravel(b[1..], v.shape[1..]);
      assert a == [a[0]] + a[1..] && b == [b[0]] + b[1..];
      if x == y {
        RavelInjective(a[1..], b[1..], v.shape[1..]);
        assert false;
      } else if x < y {
        MulAt(x, y - x, v.width);
      } else {
        MulAt(y, x - y, v.width);
      }
    }
  }

  // ---- reading ----

  ghost predicate InFile(file: seq<byte>, v: Variable, stride: nat, slab: Hyperslab, d: nat)
    requires slab.Inside(v.shape) && |v.shape| > 0 && d < Product(slab.count)
  {
    FileOffset(v, stride, slab.CoordOf(d)) + v.width <= |file|
  }

  /** Every selected element lies in the file. */
  ghost predicate AllInFile(file: seq<byte>, v: Variable, stride: nat, slab: Hyperslab)
    requires slab.Inside(v.shape) && |v.shape| > 0
  {
    forall d :: 0 <= d < Product(slab.count) ==> InFile(file, v, stride, slab, d)
  }

  ghost function FileElement(file: seq<byte>, v: Variable, stride: nat, slab: Hyperslab, d: nat): seq<byte>
    requires slab.Inside(v.shape) && |v.shape| > 0 && d < Product(slab.count)
    requires InFile(file, v, stride, slab, d)
  {
    Slice(file, FileOffset(v, stride, slab.CoordOf(d)), v.width)
  }

  /** The first `upto` elements of the output are the file's. */
  ghost predicate Done(file: seq<byte>, v: Variable, stride: nat, slab: Hyperslab, out: seq<byte>, upto: nat)
    requires slab.Inside(v.shape) && |v.shape| > 0
  {
    |out| == Mul(Product(slab.count), v.width) && upto <= Product(slab.count)
    && forall d :: 0 <= d < upto ==>
      && Has(out, 0, d, v.width) && InFile(file, v, stride, slab, d)
      && Element(out, d, v.width) == FileElement(file, v, stride, slab, d)
  }

  /** The axes walked one run at a time: the record axis and every inner axis but the last. */
  function Rows(count: seq<nat>): (r: seq<nat>)
    requires |count| > 0
    ensures |r| > 0 && r[0] == count[0]
  {
    if |count| == 1 then count else count[..|count| - 1]
  }

  /** Elements read at once: the last inner axis, or a single element for a variable of one axis. */
  function RunLength(count: seq<nat>): nat
    requires |count| > 0
  {
    if |count| == 1 then 1 else count[|count| - 1]
  }

  lemma {:induction false} RowsTimesRun(count: seq<nat>)
    requires |count| > 0
    ensures Product(count) == Mul(Product(Rows(count)), RunLength(count))
  {
    hide Mul;
    if |count| == 1 {
      MulOne(Product(count));
    } else {
      ProductSnoc(count, |count| - 1);
      assert count[..|count| - 1 + 1] == count;
    }
  }

  /** The relative coordinate of element `k` of a row. */
  function InRow(count: seq<nat>, row: Index, k: nat): (c: Index)
    requires |count| > 0 && |row| == |Rows(count)|
    ensures |c| == |count| && c[0] == row[0]
  {
    if |count| == 1 then row else row + [k]
  }

  /** Row `m` holds output elements `m * run` to `(m + 1) * run`. */
  lemma {:induction false} RowElements(slab: Hyperslab, row: Index, k: nat)
    requires |slab.start| == |slab.count| > 0
    requires InBox(row, Rows(slab.count)) && k < RunLength(slab.count)
    ensures var d := Mul(Ravel(row, Rows(slab.count)), RunLength(slab.count)) + k;
            d < Product(slab.count) && slab.CoordOf(d) == Plus(slab.start, InRow(slab.count, row, k))
  {
    hide Mul;
    hide Ravel;
    hide Product;
    hide Unravel;
    var count, c := slab.count, InRow(slab.count, row, k);
    if |count| == 1 {
      MulOne(Ravel(row, count));
    } else {
      var r := |count| - 1;
      RavelSnoc(c, count, r);
      assert c[..r + 1] == c && count[..r + 1] == count && c[..r] == row;
    }
    UnravelRavel(c, count);
  }

  /** The elements of a row lie end to end in the file. */
  lemma {:induction false} RowInFile(v: Variable, stride: nat, slab: Hyperslab, row: Index, k: nat)
    requires slab.Inside(v.shape) && |v.shape| > 0
    requires |row| == |Rows(slab.count)| && k < RunLength(slab.count)
    ensures Ravel(Plus(slab.start, InRow(slab.count, row, k))[1..], v.shape[1..])
         == Ravel(Plus(slab.start, InRow(slab.count, row, 0))[1..], v.shape[1..]) + k
  {
    hide Mul;
    hide Ravel;
    hide Product;
    var inner := v.shape[1..];
    var x, y := Plus(slab.start, InRow(slab.count, row, k))[1..], Plus(slab.start, InRow(slab.count, row, 0))[1..];
    if |inner| > 0 {
      var r := |inner| - 1;
      RavelSnoc(x, inner, r);
      RavelSnoc(y, inner, r);
      assert x[..r + 1] == x && y[..r + 1] == y && inner[..r + 1] == inner && x[..r] == y[..r];
    }
  }

  /** The element number, inside a record, at which a row starts. */
  method RowSource(v: Variable, slab: Hyperslab, record: nat, index: Index, innerStrides: seq<nat>) returns (src: nat)
    requires slab.Inside(v.shape) && |v.shape| > 0 && AreStrides(innerStrides, v.shape[1..])
    requires |index| + 1 == |Rows(slab.count)|
    ensures src == Ravel(Plus(slab.start, InRow(slab.count, [record] + index, 0))[1..], v.shape[1..])
  {
    hide Mul;
    hide Ravel;
    hide Product;
    var rank := |v.shape|;
    ghost var inner := v.shape[1..];
    ghost var coord := Plus(slab.start, InRow(slab.count, [record] + index, 0))[1..];
    if rank == 1 {
      src := 0;
      RavelZero(coord, inner);
    } else {
      var outer := Plus(slab.start[1..rank - 1], index);
      src := LinearOffset(outer, innerStrides, inner);
      src := src + slab.start[rank - 1];
      ghost var r := rank - 2;
      assert coord[..r] == outer && coord[..r + 1] == coord && inner[..r + 1] == inner;
      RavelSnoc(coord, inner, r);
      assert inner[r..] == [inner[r]];
      SingleProduct(inner[r]);
    }
  }

  lemma {:induction false} SingleProduct(n: nat)
    ensures Product([n]) == n
  {
    MulOne(n);
  }

  /** The row's bytes lie in the file; a row of no elements still has a place there. */
  ghost predicate RowFits(file: seq<byte>, v: Variable, stride: nat, slab: Hyperslab, record: nat, index: Index)
    requires slab.Inside(v.shape) && |v.shape| > 0 && |index| + 1 == |Rows(slab.count)|
  {
    var src := Ravel(Plus(slab.start, InRow(slab.count, [record] + index, 0))[1..], v.shape[1..]);
    RecordAt(v, stride, slab.start[0] + record) + Mul(src, v.width) + Mul(RunLength(slab.count), v.width) <= |file|
  }

  /** The first `n` rows of a record lie in the file. */
  ghost predicate RecordFits(file: seq<byte>, v: Variable, stride: nat, slab: Hyperslab, record: nat, n: nat)
    requires slab.Inside(v.shape) && |v.shape| > 0
  {
    forall index :: InBox(index, Rows(slab.count)[1..]) && Ravel(index, Rows(slab.count)[1..]) < n ==>
      RowFits(file, v, stride, slab, record, index)
  }

  /** Every row of the selection lies in the file. Its row counter stops at the end of the address space. */
  ghost predicate RowsFit(file: seq<byte>, v: Variable, stride: nat, slab: Hyperslab, records: nat)
    requires slab.Inside(v.shape) && |v.shape| > 0
  {
    forall record :: 0 <= record < records ==> RecordFits(file, v, stride, slab, record, U64_MAX)
  }

  lemma {:induction false} NextRowFits(file: seq<byte>, v: Variable, stride: nat, slab: Hyperslab, record: nat, index: Index, n: nat)
    requires slab.Inside(v.shape) && |v.shape| > 0 && RecordFits(file, v, stride, slab, record, n)
    requires InBox(index, Rows(slab.count)[1..]) && Ravel(index, Rows(slab.count)[1..]) == n
    requires RowFits(file, v, stride, slab, record, index)
    ensures RecordFits(file, v, stride, slab, record, n + 1)
  {
    hide Ravel;
    hide Unravel;
    hide RowFits;
    var inner := Rows(slab.count)[1..];
    forall other | InBox(other, inner) && Ravel(other, inner) < n + 1 ensures RowFits(file, v, stride, slab, record, other) {
      UnravelRavel(other, inner);
      UnravelRavel(index, inner);
    }
  }

  lemma {:induction false} NoRowsFit(file: seq<byte>, v: Variable, stride: nat, slab: Hyperslab, record: nat)
    requires slab.Inside(v.shape) && |v.shape| > 0
    ensures RecordFits(file, v, stride, slab, record, 0)
  {
  }

  lemma {:induction false} AllRowsFit(file: seq<byte>, v: Variable, stride: nat, slab: Hyperslab, record: nat, outer: nat)
    requires slab.Inside(v.shape) && |v.shape| > 0 && outer == Min(Product(Rows(slab.count)[1..]), U64_MAX)
    requires RecordFits(file, v, stride, slab, record, outer)
    ensures RecordFits(file, v, stride, slab, record, U64_MAX)
  {
    hide Ravel;
    hide Product;
    hide RowFits;
    var inner := Rows(slab.count)[1..];
    forall index | InBox(index, inner) && Ravel(index, inner) < U64_MAX ensures RowFits(file, v, stride, slab, record, index) {
      RavelBound(index, inner);
    }
  }

  lemma {:induction false} NextRecordFits(file: seq<byte>, v: Variable, stride: nat, slab: Hyperslab, records: nat)
    requires slab.Inside(v.shape) && |v.shape| > 0 && RowsFit(file, v, stride, slab, records)
    requires RecordFits(file, v, stride, slab, records, U64_MAX)
    ensures RowsFit(file, v, stride, slab, records + 1)
  {
  }

  /** Copying a row extends the finished prefix by one run. */
  lemma {:induction false} RowDone(file: seq<byte>, v: Variable, stride: nat, slab: Hyperslab, out: seq<byte>, row: Index, m: nat, src: nat)
    requires slab.Inside(v.shape) && |v.shape| > 0 && InBox(row, Rows(slab.count))
    requires m == Ravel(row, Rows(slab.count)) && src == Ravel(Plus(slab.start, InRow(slab.count, row, 0))[1..], v.shape[1..])
    requires Done(file, v, stride, slab, out, Mul(m, RunLength(slab.count)))
    requires RecordAt(v, stride, slab.start[0] + row[0]) + Mul(src, v.width) + Mul(RunLength(slab.count), v.width) <= |file|
    ensures Mul(Mul(m, RunLength(slab.count)), v.width) + Mul(RunLength(slab.count), v.width) <= |out|
    ensures Done(file, v, stride, slab,
                 Splice(out, Mul(Mul(m, RunLength(slab.count)), v.width),
                        Slice(file, RecordAt(v, stride, slab.start[0] + row[0]) + Mul(src, v.width), Mul(RunLength(slab.count), v.width))),
                 Mul(m + 1, RunLength(slab.count)))
  {
    hide Mul;
    hide Ravel;
    hide Product;
    hide Slice;
    hide Splice;
    hide RecordAt;
    hide InFile;
    var run, base := RunLength(slab.count), RecordAt(v, stride, slab.start[0] + row[0]);
    var dst := Mul(m, run);
    RowFitsOut(slab, v.width, m, row);
    var next := Splice(out, Mul(dst, v.width), Slice(file, base + Mul(src, v.width), Mul(run, v.width)));
    forall d | 0 <= d < dst + run
      ensures Has(next, 0, d, v.width) && InFile(file, v, stride, slab, d)
      ensures Element(next, d, v.width) == FileElement(file, v, stride, slab, d)
    {
      if d < dst {
        KeptElement(out, dst, Slice(file, base + Mul(src, v.width), Mul(run, v.width)), run, v.width, d);
      } else {
        SplicedElement(out, dst, file, base, src, run, v.width, d - dst);
        RowElement(file, v, stride, slab, row, d - dst, src);
      }
    }
  }

  lemma {:induction false} RowFitsOut(slab: Hyperslab, width: nat, m: nat, row: Index)
    requires |slab.count| > 0 && InBox(row, Rows(slab.count)) && m == Ravel(row, Rows(slab.count))
    ensures Mul(m + 1, RunLength(slab.count)) == Mul(m, RunLength(slab.count)) + RunLength(slab.count) <= Product(slab.count)
    ensures Mul(Mul(m, RunLength(slab.count)), width) + Mul(RunLength(slab.count), width) <= Mul(Product(slab.count), width)
  {
    hide Mul;
    hide Ravel;
    hide Product;
    var run := RunLength(slab.count);
    RowsTimesRun(slab.count);
    RavelBound(row, Rows(slab.count));
    MulLe(m + 1, Product(Rows(slab.count)), run);
    MulAdd(m, 1, run);
    MulOne(run);
    MulAdd(Mul(m, run), run, width);
    MulLe(Mul(m, run) + run, Product(slab.count), width);
  }

  /** Element `k` of a row is found `k` elements after the row's start. */
  lemma {:induction false} RowElement(file: seq<byte>, v: Variable, stride: nat, slab: Hyperslab, row: Index, k: nat, src: nat)
    requires slab.Inside(v.shape) && |v.shape| > 0 && InBox(row, Rows(slab.count)) && k < RunLength(slab.count)
    requires src == Ravel(Plus(slab.start, InRow(slab.count, row, 0))[1..], v.shape[1..])
    ensures var d := Mul(Ravel(row, Rows(slab.count)), RunLength(slab.count)) + k;
            var base := RecordAt(v, stride, slab.start[0] + row[0]);
            && d < Product(slab.count)
            && (InFile(file, v, stride, slab, d) <==> Has(file, base, src + k, v.width))
            && (InFile(file, v, stride, slab, d) ==>
                  FileElement(file, v, stride, slab, d) == StoredElement(file, base, src + k, v.width))
  {
    hide Mul;
    hide Ravel;
    hide Product;
    hide Slice;
    RowElements(slab, row, k);
    RowInFile(v, stride, slab, row, k);
  }

  /** A row that does not fit the file holds a selected element that does not. */
  lemma {:induction false} RowMissing(file: seq<byte>, v: Variable, stride: nat, slab: Hyperslab, row: Index, src: nat)
    requires slab.Inside(v.shape) && |v.shape| > 0 && InBox(row, Rows(slab.count)) && RunLength(slab.count) > 0
    requires src == Ravel(Plus(slab.start, InRow(slab.count, row, 0))[1..], v.shape[1..])
    requires RecordAt(v, stride, slab.start[0] + row[0]) + Mul(src, v.width) + Mul(RunLength(slab.count), v.width) > |file|
    ensures !AllInFile(file, v, stride, slab)
  {
    hide Mul;
    hide Ravel;
    hide Product;
    hide RecordAt;
    var run := RunLength(slab.count);
    RowElement(file, v, stride, slab, row, run - 1, src);
    MulAdd(src, run, v.width);
    MulAdd(src + run - 1, 1, v.width);
    MulOne(v.width);
  }

  /** Read one run of one record. */
  method ReadRow(file: seq<byte>, v: Variable, stride: nat, slab: Hyperslab, out: array<byte>,
                 record: nat, index: Index, innerStrides: seq<nat>, dstStrides: seq<nat>, ghost m: nat)
    returns (r: Result<()>)
    requires slab.Inside(v.shape) && |v.shape| > 0
    requires AreStrides(innerStrides, v.shape[1..]) && AreStrides(dstStrides, slab.count)
    requires InBox([record] + index, Rows(slab.count)) && m == Ravel([record] + index, Rows(slab.count))
    requires Done(file, v, stride, slab, out[..], Mul(m, RunLength(slab.count)))
    modifies out
    ensures r.Ok? ==> Done(file, v, stride, slab, out[..], Mul(m + 1, RunLength(slab.count)))
    ensures r.Ok? <==> RowFits(file, v, stride, slab, record, index)
    ensures r.Err? && RunLength(slab.count) > 0 ==> !AllInFile(file, v, stride, slab)
  {
    hide Mul;
    hide Ravel;
    hide Product;
    hide Slice;
    hide Splice;
    hide Done;
    hide AllInFile;
    var rank := |v.shape|;
    var run := if rank == 1 then 1 else slab.count[rank - 1];
    var recordIndex := slab.start[0] + record;
    MulIs(recordIndex, stride);
    var recordBase := v.begin + recordIndex * stride;
    var src := RowSource(v, slab, record, index, innerStrides);
    var dst := LinearOffset([record] + index, dstStrides, slab.count);
    RowDestination(slab, [record] + index);
    MulIs(run, v.width);
    MulIs(src, v.width);
    MulIs(dst, v.width);
    var len := run * v.width;
    var bytes := ReadFile(file, recordBase + src * v.width, len);
    if bytes.Err? {
      if run > 0 {
        RowMissing(file, v, stride, slab, [record] + index, src);
      }
      return Err(bytes.error);
    }
    RowDone(file, v, stride, slab, out[..], [record] + index, m, src);
    SliceIs(file, recordBase + src * v.width, len);
    CopyBytes(out, dst * v.width, bytes.value);
    return Ok(());
  }

  lemma {:induction false} SliceIs(data: seq<byte>, at: nat, len: nat)
    requires at + len <= |data|
    ensures Slice(data, at, len) == data[at..at + len]
  {
  }

  lemma {:induction false} RowDestination(slab: Hyperslab, row: Index)
    requires |slab.count| > 0 && |row| == |Rows(slab.count)|
    ensures Mul(Ravel(row, slab.count[..|row|]), Product(slab.count[|row|..])) == Mul(Ravel(row, Rows(slab.count)), RunLength(slab.count))
  {
    hide Mul;
    hide Ravel;
    if |slab.count| == 1 {
      assert slab.count[..|row|] == slab.count;
    } else {
      assert slab.count[|row|..] == [slab.count[|row|]];
      SingleProduct(slab.count[|row|]);
    }
  }

  /** The number of the first row of a record, and of its `n`-th row. */
  lemma {:induction false} RowNumber(count: seq<nat>, record: nat, index: Index)
    requires |count| > 0 && record < count[0] && InBox(index, Rows(count)[1..])
    ensures InBox([record] + index, Rows(count))
    ensures Ravel([record] + index, Rows(count)) == Mul(record, Product(Rows(count)[1..])) + Ravel(index, Rows(count)[1..])
  {
    assert ([record] + index)[1..] == index;
    forall a | 0 <= a < |Rows(count)| ensures ([record] + index)[a] < Rows(count)[a] {
      assert a > 0 ==> Rows(count)[a] == Rows(count)[1..][a - 1];
    }
  }

  /** When the row count of one record saturates, the selection is empty. */
  lemma {:induction false} RowsSaturate(count: seq<nat>, outer: nat)
    requires |count| > 0 && count[0] > 0 && Product(count) <= U64_MAX && outer == Min(Product(Rows(count)[1..]), U64_MAX)
    ensures outer == Product(Rows(count)[1..]) || RunLength(count) == 0
  {
    hide Mul;
    RowsTimesRun(count);
    var rows, run := Product(Rows(count)[1..]), RunLength(count);
    if rows > U64_MAX && run > 0 {
      MulLe(1, count[0], rows);
      MulOne(rows);
      MulPositive(Mul(count[0], rows), run);
      MulFactors(Mul(count[0], rows), run);
    }
  }

  lemma {:induction false} NothingDone(file: seq<byte>, v: Variable, stride: nat, slab: Hyperslab, out: seq<byte>, upto: nat)
    requires slab.Inside(v.shape) && |v.shape| > 0 && |out| == Mul(Product(slab.count), v.width)
    ensures Done(file, v, stride, slab, out, 0)
  {
  }

  /** Read every run of one record. */
  method ReadRecord(file: seq<byte>, v: Variable, stride: nat, slab: Hyperslab, out: array<byte>,
                    record: nat, outer: nat, innerStrides: seq<nat>, dstStrides: seq<nat>)
    returns (r: Result<()>)
    requires slab.Inside(v.shape) && |v.shape| > 0 && record < slab.count[0]
    requires AreStrides(innerStrides, v.shape[1..]) && AreStrides(dstStrides, slab.count)
    requires Product(slab.count) <= U64_MAX && outer == Min(Product(Rows(slab.count)[1..]), U64_MAX)
    requires Done(file, v, stride, slab, out[..], Mul(Mul(record, Product(Rows(slab.count)[1..])), RunLength(slab.count)))
    modifies out
    ensures r.Ok? ==> Done(file, v, stride, slab, out[..], Mul(Mul(record + 1, Product(Rows(slab.count)[1..])), RunLength(slab.count)))
    ensures r.Ok? <==> RecordFits(file, v, stride, slab, record, U64_MAX)
    ensures r.Err? && RunLength(slab.count) > 0 ==> !AllInFile(file, v, stride, slab)
  {
    hide Mul;
    hide Ravel;
    hide Product;
    hide Done;
    hide AllInFile;
    hide RecordFits;
    hide RowFits;
    NoRowsFit(file, v, stride, slab, record);
    var inner := Rows(slab.count)[1..];
    ghost var rows, first := Product(inner), Mul(record, Product(inner));
    var index := new nat[|inner|](_ => 0);
    RavelZero(index[..], inner);
    if outer > 0 {
      ProductPositive(inner);
    }
    for n := 0 to outer
      invariant n < outer ==> InBox(index[..], inner) && Ravel(index[..], inner) == n
      invariant RecordFits(file, v, stride, slab, record, n)
      invariant Done(file, v, stride, slab, out[..], Mul(first + n, RunLength(slab.count)))
    {
      RowNumber(slab.count, record, index[..]);
      r := ReadRow(file, v, stride, slab, out, record, index[..], innerStrides, dstStrides, first + n);
      if r.Err? {
        RowOverruns(file, v, stride, slab, record, index[..]);
        return;
      }
      NextRowFits(file, v, stride, slab, record, index[..], n);
      assert first + n + 1 == first + (n + 1);
      Advance(index, inner);
    }
    RecordEnds(slab.count, record, outer);
    AllRowsFit(file, v, stride, slab, record, outer);
    return Ok(());
  }

  lemma {:induction false} RowOverruns(file: seq<byte>, v: Variable, stride: nat, slab: Hyperslab, record: nat, index: Index)
    requires slab.Inside(v.shape) && |v.shape| > 0 && InBox(index, Rows(slab.count)[1..])
    requires Ravel(index, Rows(slab.count)[1..]) < U64_MAX && !RowFits(file, v, stride, slab, record, index)
    ensures !RecordFits(file, v, stride, slab, record, U64_MAX)
  {
  }

  lemma {:induction false} RecordEnds(count: seq<nat>, record: nat, outer: nat)
    requires |count| > 0 && count[0] > 0 && Product(count) <= U64_MAX && outer == Min(Product(Rows(count)[1..]), U64_MAX)
    ensures var rows := Product(Rows(count)[1..]);
            Mul(Mul(record, rows) + outer, RunLength(count)) == Mul(Mul(record + 1, rows), RunLength(count))
  {
    hide Mul;
    var rows := Product(Rows(count)[1..]);
    RowsSaturate(count, outer);
    if outer == rows {
      MulAdd(record, 1, rows);
      MulOne(rows);
    } else {
      MulOne(Mul(record, rows) + outer);
      MulOne(Mul(record + 1, rows));
    }
  }

  /** Read a record variable: one record's worth, then the gap to the next record. */
  method ReadRecordVariable(file: seq<byte>, v: Variable, stride: nat, slab: Hyperslab, out: array<byte>) returns (r: Result<()>)
    requires slab.Inside(v.shape) && |v.shape| > 0 && Product(slab.count) <= U64_MAX
    requires out.Length == Mul(Product(slab.count), v.width)
    modifies out
    ensures r.Ok? ==> Done(file, v, stride, slab, out[..], Product(slab.count))
    ensures r.Ok? <==> RowsFit(file, v, stride, slab, slab.count[0])
    ensures Product(slab.count) > 0 ==> (r.Ok? <==> AllInFile(file, v, stride, slab))
  {
    hide Mul;
    hide Ravel;
    hide Product;
    hide Done;
    hide AllInFile;
    hide RecordFits;
    var rank := |v.shape|;
    var innerStrides := Strides(v.shape[1..]);
    var dstStrides := Strides(slab.count);
    var middle := if rank == 1 then [] else slab.count[1..rank - 1];
    assert middle == Rows(slab.count)[1..];
    var outer := ElementCount(middle);
    NothingDone(file, v, stride, slab, out[..], 0);
    ghost var rows, run := Product(middle), RunLength(slab.count);
    MulOne(rows);
    MulOne(run);
    RecordRows(slab.count);
    for record := 0 to slab.count[0]
      invariant Done(file, v, stride, slab, out[..], Mul(Mul(record, rows), run))
      invariant RowsFit(file, v, stride, slab, record)
    {
      r := ReadRecord(file, v, stride, slab, out, record, outer, innerStrides, dstStrides);
      if r.Err? {
        return;
      }
      NextRecordFits(file, v, stride, slab, record);
    }
    DoneIsAll(file, v, stride, slab, out[..]);
    return Ok(());
  }

  lemma {:induction false} RecordRows(count: seq<nat>)
    requires |count| > 0
    ensures Mul(Mul(count[0], Product(Rows(count)[1..])), RunLength(count)) == Product(count)
    ensures Mul(Mul(0, Product(Rows(count)[1..])), RunLength(count)) == 0
    ensures Product(count) > 0 ==> RunLength(count) > 0
  {
    RowsTimesRun(count);
    MulPositive(Product(Rows(count)), RunLength(count));
  }

  lemma {:induction false} DoneIsAll(file: seq<byte>, v: Variable, stride: nat, slab: Hyperslab, out: seq<byte>)
    requires slab.Inside(v.shape) && |v.shape| > 0 && Done(file, v, stride, slab, out, Product(slab.count))
    ensures AllInFile(file, v, stride, slab)
  {
  }

  /** Where byte `k` of an element comes from: its record, its place in the record, then the element from its other end. */
  ghost function SwappedAt(v: Variable, stride: nat, slab: Hyperslab, d: nat, k: nat): (at: nat)
    requires slab.Inside(v.shape) && |v.shape| > 0 && d < Product(slab.count) && k < v.width
    ensures var coord := slab.CoordOf(d);
            at == v.begin + Mul(coord[0], stride) + Mul(Ravel(coord[1..], v.shape[1..]), v.width) + (v.width - 1 - k)
  {
    FileOffset(v, stride, slab.CoordOf(d)) + (v.width - 1 - k)
  }

  /** Read a selection of a record variable. Classic files are big-endian, so every element is reversed. */
  method ReadSelection(file: seq<byte>, v: Variable, stride: nat, slab: Hyperslab) returns (r: Result<seq<byte>>)
    requires v.Valid()
    ensures !slab.Inside(v.shape) ==> r == Err(BadRequest)
    ensures r.Ok? ==> slab.Inside(v.shape) && |r.value| == Mul(Product(slab.count), v.width)
    ensures r.Ok? ==> forall d :: 0 <= d < Product(slab.count) ==>
              && Has(r.value, 0, d, v.width) && InFile(file, v, stride, slab, d)
              && Element(r.value, d, v.width) == Reverse(FileElement(file, v, stride, slab, d))
    // The same byte by byte.
    ensures r.Ok? ==> forall d, k :: 0 <= d < Product(slab.count) && 0 <= k < v.width ==>
              && ByteAt(d, v.width, k) < |r.value| && SwappedAt(v, stride, slab, d, k) < |file|
              && r.value[ByteAt(d, v.width, k)] == file[SwappedAt(v, stride, slab, d, k)]
    ensures slab.Inside(v.shape) && Mul(Product(slab.count), v.width) <= U64_MAX ==>
              && (r.Ok? <==> RowsFit(file, v, stride, slab, slab.count[0]))
              && (Product(slab.count) > 0 ==> (r.Ok? <==> AllInFile(file, v, stride, slab)))
  {
    hide Mul;
    hide Product;
    hide Element;
    hide FileElement;
    hide InFile;
    hide RowsFit;
    var valid := Validate(slab, v.shape);
    if valid.Err? {
      return Err(valid.error);
    }
    ProductMonotone(slab.count, v.shape);
    var elements := ElementCount(slab.count);
    MulIs(elements, v.width);
    var total := elements * v.width;
    if total > U64_MAX {
      return Err(BadRequest);
    }
    var out := new byte[total](_ => 0);
    var read := ReadRecordVariable(file, v, stride, slab, out);
    if read.Err? {
      return Err(read.error);
    }
    SwapBytesInPlace(out, v.width, elements);
    SelectedBytes(file, v, stride, slab, out[..]);
    return Ok(out[..]);
  }

  lemma {:induction false} SelectedBytes(file: seq<byte>, v: Variable, stride: nat, slab: Hyperslab, out: seq<byte>)
    requires slab.Inside(v.shape) && |v.shape| > 0
    requires forall d :: 0 <= d < Product(slab.count) ==>
               && Has(out, 0, d, v.width) && InFile(file, v, stride, slab, d)
               && Element(out, d, v.width) == Reverse(FileElement(file, v, stride, slab, d))
    ensures forall d, k :: 0 <= d < Product(slab.count) && 0 <= k < v.width ==>
              && ByteAt(d, v.width, k) < |out| && SwappedAt(v, stride, slab, d, k) < |file|
              && out[ByteAt(d, v.width, k)] == file[SwappedAt(v, stride, slab, d, k)]
  {
    hide Mul;
    hide Product;
    hide Ravel;
    hide Unravel;
    forall d, k | 0 <= d < Product(slab.count) && 0 <= k < v.width
      ensures ByteAt(d, v.width, k) < |out| && SwappedAt(v, stride, slab, d, k) < |file|
      ensures out[ByteAt(d, v.width, k)] == file[SwappedAt(v, stride, slab, d, k)]
    {
      assert Has(out, 0, d, v.width) && InFile(file, v, stride, slab, d);
      ElementByte(out, d, v.width, k);
      assert FileElement(file, v, stride, slab, d)[v.width - 1 - k] == file[FileOffset(v, stride, slab.CoordOf(d)) + (v.width - 1 - k)];
    }
  }
}
