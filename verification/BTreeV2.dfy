/** Version 2 B-trees: derived field widths and the in-order walk (`crates/oxcdf-hdf5/src/btree2.rs`).
    References: HDF5 File Format Specification version 3.0, section III.A.2. */
module BTreeV2 {
  import opened Basics
  import opened Arith
  import opened LittleEndian

  const NODE_OVERHEAD: nat := 10
  const MAX_NODES: nat := 0x10_0000

  // ---- the width of a number ----

  /** The position of the highest set bit, zero for zero. */
  function Log2(v: nat): nat {
    if v < 2 then 0 else 1 + Log2(v / 2)
  }

  /** Bytes needed to hold a value. */
  function EncSize(v: nat): nat {
    (Log2(v) + 8) / 8
  }

  lemma {:induction false} Log2Bounds(v: nat)
    ensures v < Pow2(Log2(v) + 1) && (v > 0 ==> Pow2(Log2(v)) <= v)
  {
    if v >= 2 {
      Log2Bounds(v / 2);
    }
  }

  /** The width is enough, and one byte fewer is not. */
  lemma {:induction false} EncSizeExact(v: nat)
    ensures EncSize(v) >= 1 && v < Pow2(8 * EncSize(v))
    ensures EncSize(v) > 1 ==> Pow2(8 * (EncSize(v) - 1)) <= v
  {
    Log2Bounds(v);
    Pow2Monotone(Log2(v) + 1, 8 * EncSize(v));
    if EncSize(v) > 1 {
      Pow2Monotone(8 * (EncSize(v) - 1), Log2(v));
    }
  }

  lemma {:induction false} EncSizeFits(v: nat, bound: nat)
    requires v <= bound
    ensures v < Pow2(8 * EncSize(bound))
  {
    EncSizeExact(bound);
  }

  // ---- derived sizes ----

  datatype Params = Params(nodeSize: nat, recordSize: nat, offsetSize: nat) {
    ghost predicate Valid() {
      recordSize > 0 && NODE_OVERHEAD < nodeSize <= 0xffff_ffff && offsetSize <= 8
    }

    function LeafMax(): nat
      requires recordSize > 0 && nodeSize > NODE_OVERHEAD
    {
      Quot(nodeSize - NODE_OVERHEAD, recordSize)
    }

    /** Width of the record count in a child pointer. */
    function NrecSize(): nat
      requires recordSize > 0 && nodeSize > NODE_OVERHEAD
    {
      EncSize(LeafMax())
    }

    /** The bound on a node's records at depth `d`. It leaves room for one record count where a node has one more child
        pointer than records, so a node that fits its size may hold fewer (`CapacityBound`). */
    function MaxAt(d: nat): nat
      requires recordSize > 0 && nodeSize > NODE_OVERHEAD
      decreases d, 1
    {
      if d == 0 then LeafMax()
      else Quot(SaturatingSub(nodeSize, NODE_OVERHEAD + NrecSize()), recordSize + PointerSize(d))
    }

    /** The bound on a subtree's records. */
    function CumMax(d: nat): nat
      requires recordSize > 0 && nodeSize > NODE_OVERHEAD
      decreases d, 2
    {
      if d == 0 then LeafMax() else Mul(MaxAt(d) + 1, CumMax(d - 1)) + MaxAt(d)
    }

    /** Width of a subtree's record total, kept only above the leaves. */
    function CumSize(d: nat): nat
      requires recordSize > 0 && nodeSize > NODE_OVERHEAD
      decreases d, 3
    {
      if d == 0 then 0 else EncSize(CumMax(d))
    }

    /** Width of a child pointer in a node at depth `d`. */
    function PointerSize(d: nat): nat
      requires recordSize > 0 && nodeSize > NODE_OVERHEAD && d > 0
      decreases d, 0
    {
      offsetSize + NrecSize() + if d > 1 then CumSize(d - 1) else 0
    }
  }

  /** Sizes derived level by level from the leaf upwards. */
  method Derive(p: Params, depth: nat) returns (nrecSize: nat, cumSizes: seq<nat>)
    requires p.Valid()
    ensures nrecSize == p.NrecSize()
    ensures |cumSizes| == depth + 1 && forall d :: 0 <= d <= depth ==> cumSizes[d] == p.CumSize(d)
  {
    hide Quot;
    hide Mul;
    hide EncSize;
    QuotRemIs(p.nodeSize - NODE_OVERHEAD, p.recordSize);
    var leafMax := (p.nodeSize - NODE_OVERHEAD) / p.recordSize;
    nrecSize := EncSize(leafMax);
    var cum := leafMax;
    cumSizes := [0];
    for d := 1 to depth + 1
      invariant |cumSizes| == d && cum == p.CumMax(d - 1)
      invariant forall k :: 0 <= k < d ==> cumSizes[k] == p.CumSize(k)
    {
      var pointerSize := p.offsetSize + nrecSize + if d > 1 then cumSizes[d - 1] else 0;
      assert pointerSize == p.PointerSize(d);
      var denominator := p.recordSize + pointerSize;
      var numerator := SaturatingSub(p.nodeSize, NODE_OVERHEAD + nrecSize);
      QuotRemIs(numerator, denominator);
      var max := numerator / denominator;
      assert max == p.MaxAt(d);
      MulIs(max + 1, cum);
      cum := (max + 1) * cum + max;
      cumSizes := cumSizes + [EncSize(cum)];
    }
  }

  lemma {:induction false} QuotLess(a: nat, b: nat, c: nat, d: nat)
    requires a <= c && b >= d > 0
    ensures Quot(a, b) <= Quot(c, d)
  {
    hide Quot;
    hide Mul;
    hide Rem;
    var q := Quot(a, b);
    QuotRem(a, b);
    QuotRem(c, d);
    MulComm(q, b);
    MulComm(q, d);
    MulLe(d, b, q);
    MulAdd(Quot(c, d), 1, d);
    MulOne(d);
    MulCancelLt(q, Quot(c, d) + 1, d);
  }

  /** No internal node holds more records than a leaf, so the leaf-derived width serves every child pointer. */
  lemma {:induction false} MaxAtBelowLeaf(p: Params, d: nat)
    requires p.Valid()
    ensures p.MaxAt(d) <= p.LeafMax()
  {
    if d > 0 {
      QuotLess(SaturatingSub(p.nodeSize, NODE_OVERHEAD + p.NrecSize()), p.recordSize + p.PointerSize(d),
               p.nodeSize - NODE_OVERHEAD, p.recordSize);
    }
  }

  // ---- the derived bounds and nodes that fit ----

  /** The widths as nodes that fit their size give them: a node of `n` records has `n + 1` child pointers. */
  datatype Fitting = Fitting(p: Params) {
    function MaxAt(d: nat): nat
      requires SizesOk(p)
      decreases d, 1
    {
      if d == 0 then p.LeafMax()
      else Quot(SaturatingSub(p.nodeSize, NODE_OVERHEAD + PointerSize(d)), p.recordSize + PointerSize(d))
    }

    function CumMax(d: nat): nat
      requires SizesOk(p)
      decreases d, 2
    {
      if d == 0 then p.LeafMax() else Mul(MaxAt(d) + 1, CumMax(d - 1)) + MaxAt(d)
    }

    function PointerSize(d: nat): nat
      requires SizesOk(p) && d > 0
      decreases d, 0
    {
      p.offsetSize + p.NrecSize() + if d > 1 then EncSize(CumMax(d - 1)) else 0
    }
  }

  lemma {:induction false} EncSizeSmall(v: nat)
    ensures v > 0 ==> EncSize(v) <= v
  {
    if v > 0 {
      Log2Small(v);
    }
  }

  lemma {:induction false} Log2Small(v: nat)
    requires v > 0
    ensures Log2(v) <= v - 1
  {
    if v >= 2 {
      Log2Small(v / 2);
    }
  }

  /** The node size never falls short of its prefix and one record count. */
  lemma {:induction false} RoomForCount(p: Params)
    requires p.Valid()
    ensures NODE_OVERHEAD + p.NrecSize() <= p.nodeSize
  {
    hide Quot;
    hide EncSize;
    QuotLess(p.nodeSize - NODE_OVERHEAD, p.recordSize, p.nodeSize - NODE_OVERHEAD, 1);
    QuotByOne(p.nodeSize - NODE_OVERHEAD);
    EncSizeSmall(p.LeafMax());
    EncSizeZero();
  }

  lemma {:induction false} EncSizeZero()
    ensures EncSize(0) == 1
  {
  }

  /** What the division leaves over has room for the rest of the last child pointer. */
  ghost predicate Roomy(p: Params, d: nat)
    requires SizesOk(p) && d > 0
  {
    Rem(SaturatingSub(p.nodeSize, NODE_OVERHEAD + p.NrecSize()), p.recordSize + p.PointerSize(d)) >= p.PointerSize(d) - p.NrecSize()
  }

  lemma {:induction false} NodeLenSum(p: Params, n: nat, d: nat)
    requires SizesOk(p) && d > 0
    ensures NodeLen(p, n, d) == NODE_OVERHEAD + Mul(n, p.recordSize + p.PointerSize(d)) + p.PointerSize(d)
  {
    hide Mul;
    var size := p.PointerSize(d);
    MulAdd(n, 1, size);
    MulOne(size);
    MulComm(n, p.recordSize);
    MulComm(n, size);
    MulAdd(p.recordSize, size, n);
    MulComm(p.recordSize + size, n);
  }

  /** A node that fits its size respects the derived bound. The bound itself is reached by a node that fits exactly when
      the division leaves room for a whole pointer, and is never more than one record too high. */
  lemma {:induction false} CapacityBound(p: Params, n: nat, d: nat)
    requires p.Valid() && d > 0
    ensures NodeLen(p, n, d) <= p.nodeSize ==> n <= p.MaxAt(d)
    ensures NodeLen(p, p.MaxAt(d), d) <= p.nodeSize <==> Roomy(p, d)
    ensures p.MaxAt(d) > 0 ==> NodeLen(p, p.MaxAt(d) - 1, d) <= p.nodeSize
  {
    hide Mul;
    hide Quot;
    hide Rem;
    hide EncSize;
    hide NodeLen;
    var size, step, room := p.PointerSize(d), p.recordSize + p.PointerSize(d), p.nodeSize - NODE_OVERHEAD - p.NrecSize();
    RoomForCount(p);
    QuotRem(room, step);
    NodeLenSum(p, n, d);
    NodeLenSum(p, p.MaxAt(d), d);
    MulAdd(p.MaxAt(d), 1, step);
    MulOne(step);
    if n > p.MaxAt(d) {
      MulLe(p.MaxAt(d) + 1, n, step);
    }
    if p.MaxAt(d) > 0 {
      NodeLenSum(p, p.MaxAt(d) - 1, d);
      MulAdd(p.MaxAt(d) - 1, 1, step);
    }
  }

  ghost predicate SameWidths(p: Params, d: nat)
    requires SizesOk(p)
  {
    forall e :: 1 <= e <= d ==> EncSize(p.CumMax(e)) == EncSize(Fitting(p).CumMax(e))
  }

  lemma {:induction false} SamePointers(p: Params, d: nat)
    requires SizesOk(p) && d > 0 && SameWidths(p, d - 1)
    ensures p.PointerSize(d) == Fitting(p).PointerSize(d)
  {
    hide EncSize;
    assert d > 1 ==> EncSize(p.CumMax(d - 1)) == EncSize(Fitting(p).CumMax(d - 1));
  }

  /** As long as the widths below agree, the derived bounds are upper bounds for nodes that fit. */
  lemma {:induction false} FittingBelow(p: Params, d: nat)
    requires p.Valid() && (d > 0 ==> SameWidths(p, d - 1))
    ensures Fitting(p).MaxAt(d) <= p.MaxAt(d) && Fitting(p).CumMax(d) <= p.CumMax(d)
    decreases d
  {
    hide Mul;
    hide Quot;
    hide EncSize;
    if d > 0 {
      SamePointers(p, d);
      SameBelow(p, d - 1);
      FittingBelow(p, d - 1);
      var size := p.PointerSize(d);
      QuotLess(SaturatingSub(p.nodeSize, NODE_OVERHEAD + size), p.recordSize + size,
               SaturatingSub(p.nodeSize, NODE_OVERHEAD + p.NrecSize()), p.recordSize + size);
      var f, m := Fitting(p).MaxAt(d), p.MaxAt(d);
      MulLe(f + 1, m + 1, Fitting(p).CumMax(d - 1));
      MulComm(m + 1, Fitting(p).CumMax(d - 1));
      MulComm(m + 1, p.CumMax(d - 1));
      MulLe(Fitting(p).CumMax(d - 1), p.CumMax(d - 1), m + 1);
    }
  }

  lemma {:induction false} SameBelow(p: Params, d: nat)
    requires SizesOk(p) && SameWidths(p, d)
    ensures d > 0 ==> SameWidths(p, d - 1)
  {
  }

  lemma {:induction false} SameSize(a: nat, b: nat)
    requires a <= b
    ensures EncSize(a) == EncSize(b) <==> b < Pow2(8 * EncSize(a))
  {
    EncSizeExact(a);
    EncSizeExact(b);
    if EncSize(a) < EncSize(b) {
      Pow2Monotone(8 * EncSize(a), 8 * (EncSize(b) - 1));
    } else if EncSize(b) < EncSize(a) {
      Pow2Monotone(8 * EncSize(b), 8 * (EncSize(a) - 1));
    }
  }

  /** The derived widths are those of nodes that fit exactly when every derived bound still fits the width that the
      totals of fitting nodes need. */
  lemma {:induction false} WidthsAgree(p: Params, d: nat)
    requires p.Valid()
    ensures SameWidths(p, d) <==> forall e :: 1 <= e <= d ==> p.CumMax(e) < Pow2(8 * EncSize(Fitting(p).CumMax(e)))
  {
    hide Mul;
    hide EncSize;
    hide Pow2;
    if d > 0 {
      WidthsAgree(p, d - 1);
      if SameWidths(p, d - 1) {
        FittingBelow(p, d);
        SameSize(Fitting(p).CumMax(d), p.CumMax(d));
      }
    }
  }

  /** With room for a whole pointer at every depth the two derivations are the same. */
  lemma {:induction false} RoomyAgrees(p: Params, d: nat)
    requires p.Valid() && forall e :: 1 <= e <= d ==> Roomy(p, e)
    ensures p.MaxAt(d) == Fitting(p).MaxAt(d) && p.CumMax(d) == Fitting(p).CumMax(d) && SameWidths(p, d)
  {
    hide Mul;
    hide Quot;
    hide EncSize;
    hide Rem;
    if d > 0 {
      RoomyAgrees(p, d - 1);
      SamePointers(p, d);
      assert Roomy(p, d);
      var step, size := p.recordSize + p.PointerSize(d), p.PointerSize(d);
      RoomForCount(p);
      CapacityBound(p, p.MaxAt(d), d);
      NodeLenSum(p, p.MaxAt(d), d);
      var room := p.nodeSize - NODE_OVERHEAD - p.NrecSize();
      QuotRem(room, step);
      QuotRemUnique(p.MaxAt(d), room - (size - p.NrecSize()) - Mul(p.MaxAt(d), step), step);
    }
  }

  /** The bound is not a capacity: with records of 24 bytes it allows 15 in a node of 512 bytes, which they overfill. */
  lemma {:induction false} BoundOverfills()
    ensures var p := Params(512, 24, 8); p.MaxAt(1) == 15 && NodeLen(p, 15, 1) == 514 > p.nodeSize
  {
    hide Quot;
    hide Mul;
    QuotRemIs(502, 24);
    QuotRemIs(501, 33);
    MulIs(15, 24);
    MulIs(16, 9);
  }

  lemma {:induction false} SomeSizes()
    ensures EncSize(6) == EncSize(41) == EncSize(48) == EncSize(251) == 1 && EncSize(293) == 2
  {
  }

  lemma {:induction false} DerivedTotals(p: Params)
    requires p == Params(512, 74, 8)
    ensures p.NrecSize() == 1 && p.CumMax(1) == 48 && p.CumMax(2) == 293
  {
    hide Quot;
    hide Mul;
    hide EncSize;
    SomeSizes();
    QuotRemIs(502, 74);
    QuotRemIs(501, 83);
    QuotRemIs(501, 84);
    MulIs(7, 6);
    MulIs(6, 48);
    assert p.MaxAt(1) == 6;
    assert p.CumMax(1) == 48;
    assert p.MaxAt(2) == 5;
  }

  lemma {:induction false} FittingTotals(f: Fitting)
    requires f == Fitting(Params(512, 74, 8))
    ensures f.CumMax(1) == 41 && f.CumMax(2) == 251
  {
    hide Quot;
    hide Mul;
    hide EncSize;
    SomeSizes();
    QuotRemIs(502, 74);
    QuotRemIs(493, 83);
    QuotRemIs(492, 84);
    MulIs(6, 6);
    MulIs(6, 41);
    assert f.p.NrecSize() == 1;
    assert f.MaxAt(1) == 5;
    assert f.CumMax(1) == 41;
    assert f.MaxAt(2) == 5;
  }

  /** And it can cost a byte: with records of 74 bytes the total of a subtree of depth 2 gets two bytes where nodes that
      fit need one, so a child pointer at depth 3 is taken one byte too wide. */
  lemma {:induction false} WidthsDiffer(p: Params)
    requires p == Params(512, 74, 8)
    ensures p.CumSize(2) == 2 && EncSize(Fitting(p).CumMax(2)) == 1 && p.PointerSize(3) == Fitting(p).PointerSize(3) + 1
  {
    hide Quot;
    hide Mul;
    hide EncSize;
    SomeSizes();
    DerivedTotals(p);
    FittingTotals(Fitting(p));
  }

  // ---- trees ----

  type Record = seq<byte>

  /** A tree laid out in a file: every node has its address. */
  datatype Tree = Leaf(address: nat, records: seq<Record>) | Internal(address: nat, records: seq<Record>, children: seq<Tree>)

  /** The tree respects the derived capacities. */
  ghost predicate WellFormed(p: Params, t: Tree, d: nat)
    requires p.Valid()
    decreases d
  {
    |t.records| <= p.MaxAt(d) && t.address < Pow2(8 * p.offsetSize)
    && (forall i :: 0 <= i < |t.records| ==> |t.records[i]| == p.recordSize)
    && (t.Leaf? <==> d == 0)
    && (t.Internal? && d > 0 ==>
          && |t.children| == |t.records| + 1
          && forall i :: 0 <= i < |t.children| ==> WellFormed(p, t.children[i], d - 1))
  }

  function Total(t: Tree): nat {
    |t.records| + if t.Leaf? then 0 else TotalAll(t.children)
  }

  function TotalAll(ts: seq<Tree>): nat {
    if ts == [] then 0 else Total(ts[0]) + TotalAll(ts[1..])
  }

  function Nodes(t: Tree): nat {
    1 + if t.Leaf? then 0 else NodesAll(t.children)
  }

  function NodesAll(ts: seq<Tree>): nat {
    if ts == [] then 0 else Nodes(ts[0]) + NodesAll(ts[1..])
  }

  /** Children in order, with one record between each two. */
  function InOrder(t: Tree): seq<Record> {
    if t.Leaf? then t.records else InOrderAll(t.children, t.records)
  }

  function InOrderAll(ts: seq<Tree>, records: seq<Record>): seq<Record> {
    if ts == [] then []
    else InOrder(ts[0]) + (if records == [] then [] else [records[0]])
         + InOrderAll(ts[1..], if records == [] then [] else records[1..])
  }

  /** The walk visits every record: the in-order list is as long as the total. */
  lemma {:induction false} InOrderLength(t: Tree)
    requires LinksOk(t)
    ensures |InOrder(t)| == Total(t)
    decreases t, 0
  {
    if t.Internal? {
      InOrderAllLength(t.children, t.records);
    }
  }

  ghost predicate LinksOk(t: Tree) {
    t.Internal? ==> |t.children| == |t.records| + 1 && forall i :: 0 <= i < |t.children| ==> LinksOk(t.children[i])
  }

  lemma {:induction false} InOrderAllLength(ts: seq<Tree>, records: seq<Record>)
    requires |records| <= |ts| && forall i :: 0 <= i < |ts| ==> LinksOk(ts[i])
    ensures |InOrderAll(ts, records)| == TotalAll(ts) + |records|
    decreases ts, 1
  {
    if ts != [] {
      InOrderLength(ts[0]);
      InOrderAllLength(ts[1..], if records == [] then [] else records[1..]);
    }
  }

  /** Where everything comes in the walk: child `i` after the children and records before it, and record `i` right
      after child `i`. */
  lemma {:induction false} InOrderAt(t: Tree, i: nat)
    requires t.Internal? && LinksOk(t) && i <= |t.records|
    ensures var from := TotalAll(t.children[..i]) + i;
            var to := from + Total(t.children[i]);
            && to <= |InOrder(t)| && InOrder(t)[from..to] == InOrder(t.children[i])
            && (i < |t.records| ==> to < |InOrder(t)| && InOrder(t)[to] == t.records[i])
  {
    hide InOrder;
    hide Total;
    assert InOrder(t) == InOrderAll(t.children, t.records) by {
      InOrderIs(t);
    }
    InOrderAllAt(t.children, t.records, i);
  }

  lemma {:induction false} InOrderIs(t: Tree)
    ensures t.Internal? ==> InOrder(t) == InOrderAll(t.children, t.records)
  {
  }

  lemma {:induction false} InOrderAllAt(ts: seq<Tree>, records: seq<Record>, i: nat)
    requires i < |ts| && |records| <= |ts| <= |records| + 1 && forall k :: 0 <= k < |ts| ==> LinksOk(ts[k])
    ensures var s, from := InOrderAll(ts, records), TotalAll(ts[..i]) + i;
            var to := from + Total(ts[i]);
            && to <= |s| && s[from..to] == InOrder(ts[i]) && (i < |records| ==> to < |s| && s[to] == records[i])
  {
    hide InOrder;
    hide Total;
    hide LinksOk;
    var s := InOrderAll(ts, records);
    InOrderLength(ts[0]);
    if i == 0 {
      assert ts[..0] == [];
      assert s[..Total(ts[0])] == InOrder(ts[0]);
    } else {
      var rest, head := records[1..], Total(ts[0]) + 1;
      InOrderAllAt(ts[1..], rest, i - 1);
      var tail := InOrderAll(ts[1..], rest);
      assert s == (InOrder(ts[0]) + [records[0]]) + tail;
      TotalHead(ts, i);
      hide InOrderAll;
      var from := TotalAll(ts[1..][..i - 1]) + (i - 1);
      TailSlice(s, InOrder(ts[0]) + [records[0]], tail, from, from + Total(ts[i]));
    }
  }

  lemma {:induction false} TotalHead(ts: seq<Tree>, i: nat)
    requires 0 < i <= |ts|
    ensures TotalAll(ts[..i]) == Total(ts[0]) + TotalAll(ts[1..][..i - 1])
  {
    hide Total;
    assert ts[1..][..i - 1] == ts[..i][1..];
  }

  lemma {:induction false} TailSlice(s: seq<Record>, head: seq<Record>, tail: seq<Record>, from: nat, to: nat)
    requires s == head + tail && from <= to <= |tail|
    ensures s[|head| + from..|head| + to] == tail[from..to]
    ensures to < |tail| ==> s[|head| + to] == tail[to]
  {
  }

  /** Every node of the tree fits the node size. */
  ghost predicate Fits(p: Params, t: Tree, d: nat)
    requires p.Valid()
    decreases d
  {
    NodeLen(p, |t.records|, d) <= p.nodeSize && t.address < Pow2(8 * p.offsetSize)
    && (forall i :: 0 <= i < |t.records| ==> |t.records[i]| == p.recordSize)
    && (t.Leaf? <==> d == 0)
    && (t.Internal? && d > 0 ==>
          && |t.children| == |t.records| + 1
          && forall i :: 0 <= i < |t.children| ==> Fits(p, t.children[i], d - 1))
  }

  /** A tree whose nodes fit respects the derived bounds. */
  lemma {:induction false} FitsWellFormed(p: Params, t: Tree, d: nat)
    requires p.Valid() && Fits(p, t, d)
    ensures WellFormed(p, t, d)
    decreases d
  {
    hide Mul;
    hide Quot;
    hide EncSize;
    hide Pow2;
    if d > 0 {
      CapacityBound(p, |t.records|, d);
      forall i | 0 <= i < |t.children| ensures WellFormed(p, t.children[i], d - 1) {
        FitsWellFormed(p, t.children[i], d - 1);
      }
    } else {
      LeafBound(p, |t.records|);
    }
  }

  lemma {:induction false} LeafBound(p: Params, n: nat)
    requires p.Valid() && NodeLen(p, n, 0) <= p.nodeSize
    ensures n <= p.LeafMax()
  {
    hide Quot;
    QuotRem(p.nodeSize - NODE_OVERHEAD, p.recordSize);
    MulAdd(p.LeafMax(), 1, p.recordSize);
    MulOne(p.recordSize);
    MulCancelLt(n, p.LeafMax() + 1, p.recordSize);
  }

  /** Every subtree's total stays within the bound its width is derived from. */
  lemma {:induction false} TotalFits(p: Params, t: Tree, d: nat)
    requires p.Valid() && WellFormed(p, t, d)
    ensures Total(t) <= p.CumMax(d)
    decreases d, 0
  {
    hide Mul;
    if d > 0 {
      TotalAllFits(p, t.children, d - 1);
      MulLe(|t.children|, p.MaxAt(d) + 1, p.CumMax(d - 1));
    }
  }

  lemma {:induction false} TotalAllFits(p: Params, ts: seq<Tree>, d: nat)
    requires p.Valid() && forall i :: 0 <= i < |ts| ==> WellFormed(p, ts[i], d)
    ensures TotalAll(ts) <= Mul(|ts|, p.CumMax(d))
    decreases d, 1, |ts|
  {
    hide Mul;
    if ts != [] {
      TotalFits(p, ts[0], d);
      TotalAllFits(p, ts[1..], d);
      MulAdd(1, |ts| - 1, p.CumMax(d));
      MulOne(p.CumMax(d));
    } else {
      MulZero(p.CumMax(d));
    }
  }

  /** Every field of a child pointer fits the width the reader derives for it. */
  lemma {:induction false} FieldsFit(p: Params, child: Tree, d: nat)
    requires p.Valid() && WellFormed(p, child, d)
    ensures child.address < Pow2(8 * p.offsetSize)
    ensures |child.records| < Pow2(8 * p.NrecSize())
    ensures d > 0 ==> Total(child) < Pow2(8 * p.CumSize(d))
  {
    MaxAtBelowLeaf(p, d);
    EncSizeFits(|child.records|, p.LeafMax());
    if d > 0 {
      TotalFits(p, child, d);
      EncSizeFits(Total(child), p.CumMax(d));
    }
  }

  // ---- nodes in the file ----

  /** Pieces of one width, end to end. */
  function Concat(pieces: seq<seq<byte>>): seq<byte> {
    if pieces == [] then [] else pieces[0] + Concat(pieces[1..])
  }

  lemma {:induction false} ConcatLength(pieces: seq<seq<byte>>, width: nat)
    requires forall i :: 0 <= i < |pieces| ==> |pieces[i]| == width
    ensures |Concat(pieces)| == Mul(|pieces|, width)
  {
    if pieces != [] {
      ConcatLength(pieces[1..], width);
    }
  }

  lemma {:induction false} ConcatSlice(pieces: seq<seq<byte>>, width: nat, k: nat)
    requires k < |pieces| && forall i :: 0 <= i < |pieces| ==> |pieces[i]| == width
    ensures Mul(k, width) + width <= |Concat(pieces)|
    ensures Concat(pieces)[Mul(k, width)..Mul(k, width) + width] == pieces[k]
  {
    ConcatLength(pieces[1..], width);
    if k > 0 {
      ConcatSlice(pieces[1..], width, k - 1);
      var at := Mul(k - 1, width);
      assert Concat(pieces)[width..] == Concat(pieces[1..]);
      assert Concat(pieces)[width + at..width + at + width] == Concat(pieces)[width..][at..at + width];
    }
  }

  datatype Context = Context(file: seq<byte>, checksum: seq<byte> -> nat)

  /** A child pointer: address, record count and, above the lowest internal level, the subtree's total. */
  function Pointer(p: Params, child: Tree, d: nat): (b: seq<byte>)
    requires SizesOk(p) && d > 0
    ensures |b| == p.PointerSize(d)
  {
    ToLittle(child.address, p.offsetSize) + ToLittle(|child.records|, p.NrecSize())
    + if d > 1 then ToLittle(Total(child), p.CumSize(d - 1)) else []
  }

  predicate SizesOk(p: Params) {
    p.recordSize > 0 && p.nodeSize > NODE_OVERHEAD
  }

  function Pointers(p: Params, ts: seq<Tree>, d: nat): (s: seq<seq<byte>>)
    requires SizesOk(p) && d > 0
    ensures |s| == |ts| && forall i :: 0 <= i < |s| ==> s[i] == Pointer(p, ts[i], d) && |s[i]| == p.PointerSize(d)
  {
    seq(|ts|, i requires 0 <= i < |ts| => Pointer(p, ts[i], d))
  }

  function Signature(leaf: bool): (s: seq<byte>)
    ensures |s| == 4
  {
    if leaf then [0x42, 0x54, 0x4c, 0x46] else [0x42, 0x54, 0x49, 0x4e]
  }

  /** The bytes of a node around its body: signature, two bytes the reader skips, the body, checksum. */
  ghost predicate Framed(ctx: Context, leaf: bool, body: seq<byte>, bytes: seq<byte>) {
    |bytes| == NODE_OVERHEAD + |body|
    && bytes[..4] == Signature(leaf)
    && bytes[6..|bytes| - 4] == body
    && FromLittle(bytes[|bytes| - 4..]) == ctx.checksum(bytes[..|bytes| - 4])
  }

  /** A node's bytes: records and child pointers in their frame. */
  ghost predicate IsNode(ctx: Context, p: Params, t: Tree, d: nat, bytes: seq<byte>)
    requires p.Valid()
  {
    var pointers := if d == 0 || t.Leaf? then [] else Concat(Pointers(p, t.children, d));
    Framed(ctx, d == 0, Concat(t.records) + pointers, bytes)
  }

  function NodeLen(p: Params, count: nat, d: nat): nat
    requires SizesOk(p)
  {
    NODE_OVERHEAD + Mul(count, p.recordSize) + if d == 0 then 0 else Mul(count + 1, p.PointerSize(d))
  }

  /** The file holds the tree. */
  ghost predicate Stored(ctx: Context, p: Params, t: Tree, d: nat)
    requires p.Valid()
    decreases d
  {
    WellFormed(p, t, d)
    && (var bytes := ReadFile(ctx.file, t.address, NodeLen(p, |t.records|, d)); bytes.Ok? && IsNode(ctx, p, t, d, bytes.value))
    && (t.Internal? && d > 0 ==> forall i :: 0 <= i < |t.children| ==> Stored(ctx, p, t.children[i], d - 1))
  }

  /** Record `i` of a node's bytes. */
  function RecordSlice(p: Params, buf: seq<byte>, i: nat): Record
    requires 6 + Mul(i, p.recordSize) + p.recordSize <= |buf|
  {
    buf[6 + Mul(i, p.recordSize)..6 + Mul(i, p.recordSize) + p.recordSize]
  }

  /** The address and record count in the pointer at byte `at`. */
  function LinkAt(p: Params, buf: seq<byte>, at: nat): (nat, nat)
    requires SizesOk(p) && at + p.offsetSize + p.NrecSize() <= |buf|
  {
    (FromLittle(buf[at..at + p.offsetSize]), FromLittle(buf[at + p.offsetSize..at + p.offsetSize + p.NrecSize()]))
  }

  /** The records and links that a node's bytes spell out. */
  ghost predicate Spells(ctx: Context, p: Params, d: nat, address: nat, records: seq<Record>, links: seq<(nat, nat)>)
    requires p.Valid()
  {
    var len := NodeLen(p, |records|, d);
    var bytes := ReadFile(ctx.file, address, len);
    && bytes.Ok?
    && bytes.value[..4] == Signature(d == 0)
    && FromLittle(bytes.value[len - 4..]) == ctx.checksum(bytes.value[..len - 4])
    && AreRecords(p, bytes.value, records)
    && |links| == (if d == 0 then 0 else |records| + 1)
    && (d > 0 ==> AreLinks(p, d, bytes.value, 6 + Mul(|records|, p.recordSize), links))
  }

  ghost predicate AreRecords(p: Params, buf: seq<byte>, records: seq<Record>) {
    forall i :: 0 <= i < |records| ==>
      6 + Mul(i, p.recordSize) + p.recordSize <= |buf| && records[i] == RecordSlice(p, buf, i)
  }

  ghost predicate AreLinks(p: Params, d: nat, buf: seq<byte>, start: nat, links: seq<(nat, nat)>)
    requires p.Valid() && d > 0
  {
    forall i :: 0 <= i < |links| ==>
      && start + Mul(i, p.PointerSize(d)) + p.PointerSize(d) <= |buf|
      && links[i] == LinkAt(p, buf, start + Mul(i, p.PointerSize(d)))
  }

  /** Record `i` of a node at byte `at` of the file. */
  ghost predicate RecordInBytes(file: seq<byte>, p: Params, at: nat, i: nat, record: Record) {
    var from := at + 6 + Mul(i, p.recordSize);
    from + p.recordSize <= |file| && record == file[from..from + p.recordSize]
  }

  /** A child pointer at byte `from`: an address, then a record count, both little-endian. */
  ghost predicate LinkInBytes(file: seq<byte>, p: Params, from: nat, link: (nat, nat))
    requires SizesOk(p)
  {
    && from + p.offsetSize + p.NrecSize() <= |file| && link.0 == FromLittle(file[from..from + p.offsetSize])
    && link.1 == FromLittle(file[from + p.offsetSize..from + p.offsetSize + p.NrecSize()])
  }

  /** Byte for byte: the signature of a leaf or an internal node, two bytes that are skipped, the records, the child
      pointers, and the checksum of all that. */
  ghost predicate InBytes(file: seq<byte>, checksum: seq<byte> -> nat, p: Params, d: nat, at: nat, records: seq<Record>, links: seq<(nat, nat)>)
    requires p.Valid()
  {
    var size := if d == 0 then 0 else p.PointerSize(d);
    var body := at + 6 + Mul(|records|, p.recordSize);
    var end := body + Mul(|links|, size);
    && end + 4 <= |file| && |links| == (if d == 0 then 0 else |records| + 1)
    && file[at..at + 4] == (if d == 0 then [0x42, 0x54, 0x4c, 0x46] else [0x42, 0x54, 0x49, 0x4e])
    && FromLittle(file[end..end + 4]) == checksum(file[at..end])
    && (forall i :: 0 <= i < |records| ==> RecordInBytes(file, p, at, i, records[i]))
    && (forall i :: 0 <= i < |links| ==> LinkInBytes(file, p, body + Mul(i, size), links[i]))
  }

  lemma {:induction false} RecordsBytes(file: seq<byte>, p: Params, at: nat, len: nat, records: seq<Record>)
    requires at + len <= |file| && 6 + Mul(|records|, p.recordSize) <= len
    ensures AreRecords(p, file[at..at + len], records) <==> forall i :: 0 <= i < |records| ==> RecordInBytes(file, p, at, i, records[i])
  {
    hide Mul;
    forall i | 0 <= i < |records|
      ensures 6 + Mul(i, p.recordSize) + p.recordSize <= len
      ensures RecordInBytes(file, p, at, i, records[i]) <==> records[i] == RecordSlice(p, file[at..at + len], i)
    {
      SliceFits(i, |records|, p.recordSize);
      SliceOfSlice(file, at, at + len, 6 + Mul(i, p.recordSize), 6 + Mul(i, p.recordSize) + p.recordSize);
    }
  }

  lemma {:induction false} LinksBytes(file: seq<byte>, p: Params, d: nat, at: nat, len: nat, start: nat, links: seq<(nat, nat)>)
    requires p.Valid() && d > 0 && at + len <= |file| && start + Mul(|links|, p.PointerSize(d)) <= len
    ensures AreLinks(p, d, file[at..at + len], start, links) <==>
            forall i :: 0 <= i < |links| ==> LinkInBytes(file, p, at + start + Mul(i, p.PointerSize(d)), links[i])
  {
    hide Mul;
    hide EncSize;
    hide FromLittle;
    var size := p.PointerSize(d);
    forall i | 0 <= i < |links|
      ensures start + Mul(i, size) + size <= len
      ensures LinkInBytes(file, p, at + start + Mul(i, size), links[i]) <==> links[i] == LinkAt(p, file[at..at + len], start + Mul(i, size))
    {
      SliceFits(i, |links|, size);
      var from, mid := start + Mul(i, size), p.offsetSize + p.NrecSize();
      SliceOfSlice(file, at, at + len, from, from + p.offsetSize);
      SliceOfSlice(file, at, at + len, from + p.offsetSize, from + mid);
    }
  }

  lemma {:induction false} SpellsBytes(ctx: Context, p: Params, d: nat, address: nat, records: seq<Record>, links: seq<(nat, nat)>)
    requires p.Valid()
    ensures Spells(ctx, p, d, address, records, links) <==> InBytes(ctx.file, ctx.checksum, p, d, address, records, links)
  {
    hide Mul;
    hide EncSize;
    hide FromLittle;
    hide AreRecords;
    hide AreLinks;
    hide RecordInBytes;
    hide LinkInBytes;
    var len := NodeLen(p, |records|, d);
    MulZero(0);
    if |links| == (if d == 0 then 0 else |records| + 1) && address + len <= |ctx.file| {
      var buf := ctx.file[address..address + len];
      assert buf[..4] == ctx.file[address..address + 4];
      assert buf[..len - 4] == ctx.file[address..address + len - 4] && buf[len - 4..] == ctx.file[address + len - 4..address + len];
      RecordsBytes(ctx.file, p, address, len, records);
      if d > 0 {
        LinksBytes(ctx.file, p, d, address, len, 6 + Mul(|records|, p.recordSize), links);
      }
    }
  }

  /** A node's bytes spell out one list of records and links. */
  lemma {:induction false} SpellsOnce(ctx: Context, p: Params, d: nat, address: nat, a: seq<Record>, x: seq<(nat, nat)>,
                                      b: seq<Record>, y: seq<(nat, nat)>)
    requires p.Valid() && |a| == |b| && Spells(ctx, p, d, address, a, x) && Spells(ctx, p, d, address, b, y)
    ensures a == b && x == y
  {
    hide Mul;
    hide NodeLen;
    hide LinkAt;
    hide RecordSlice;
    hide FromLittle;
  }

  /** The tree that the file spells out from an address: each node's records, and the children its links name. */
  ghost predicate Reads(ctx: Context, p: Params, t: Tree, d: nat)
    requires p.Valid()
    decreases d
  {
    (t.Leaf? <==> d == 0) && Spells(ctx, p, d, t.address, t.records, Links(t))
    && (t.Internal? && d > 0 ==>
          |t.children| == |t.records| + 1 && forall i :: 0 <= i < |t.children| ==> Reads(ctx, p, t.children[i], d - 1))
  }

  method TakeRecords(p: Params, buf: seq<byte>, count: nat) returns (records: seq<Record>)
    requires 6 + Mul(count, p.recordSize) <= |buf|
    ensures |records| == count && AreRecords(p, buf, records)
  {
    hide Mul;
    records := [];
    for i := 0 to count
      invariant |records| == i
      invariant forall j :: 0 <= j < i ==>
        6 + Mul(j, p.recordSize) + p.recordSize <= |buf| && records[j] == RecordSlice(p, buf, j)
    {
      MulIs(i, p.recordSize);
      SliceFits(i, count, p.recordSize);
      var at := 6 + i * p.recordSize;
      records := records + [buf[at..at + p.recordSize]];
    }
  }

  method TakeLinks(p: Params, d: nat, buf: seq<byte>, start: nat, count: nat, nrecSize: nat, pointerSize: nat)
    returns (links: seq<(nat, nat)>)
    requires p.Valid() && d > 0 && nrecSize == p.NrecSize() && pointerSize == p.PointerSize(d)
    requires start + Mul(count, pointerSize) <= |buf|
    ensures |links| == count && AreLinks(p, d, buf, start, links)
  {
    hide Mul;
    hide FromLittle;
    links := [];
    for i := 0 to count
      invariant |links| == i
      invariant forall j :: 0 <= j < i ==>
        start + Mul(j, pointerSize) + pointerSize <= |buf| && links[j] == LinkAt(p, buf, start + Mul(j, pointerSize))
    {
      MulIs(i, pointerSize);
      SliceFits(i, count, pointerSize);
      var at := start + i * pointerSize;
      var childAddress := FromLittle(buf[at..at + p.offsetSize]);
      var childRecords := FromLittle(buf[at + p.offsetSize..at + p.offsetSize + nrecSize]);
      links := links + [(childAddress, childRecords)];
    }
  }

  /** Read a node of `count` records: its records and, for an internal node, its children's addresses and counts. */
  method ReadNode(ctx: Context, p: Params, d: nat, address: nat, count: nat, nrecSize: nat, cumSizes: seq<nat>)
    returns (r: Result<(seq<Record>, seq<(nat, nat)>)>)
    requires p.Valid() && nrecSize == p.NrecSize()
    requires |cumSizes| > d && forall k :: 0 <= k <= d ==> cumSizes[k] == p.CumSize(k)
    ensures r.Ok? ==> |r.value.0| == count && Spells(ctx, p, d, address, r.value.0, r.value.1)
    ensures (exists records, links :: |records| == count && Spells(ctx, p, d, address, records, links)) ==> r.Ok?
    ensures r.Ok? ==> InBytes(ctx.file, ctx.checksum, p, d, address, r.value.0, r.value.1)
  {
    hide InBytes;
    hide Mul;
    hide EncSize;
    hide FromLittle;
    hide AreRecords;
    hide AreLinks;
    var childTotal := if d > 1 then cumSizes[d - 1] else 0;
    var pointerSize := p.offsetSize + nrecSize + childTotal;
    assert d > 0 ==> pointerSize == p.PointerSize(d);
    MulIs(count, p.recordSize);
    MulIs(count + 1, pointerSize);
    var len := NODE_OVERHEAD + count * p.recordSize + if d == 0 then 0 else (count + 1) * pointerSize;
    assert len == NodeLen(p, count, d);
    var bytes := ReadFile(ctx.file, address, len);
    if bytes.Err? {
      return Err(bytes.error);
    }
    var buf := bytes.value;
    if buf[..4] != Signature(d == 0) {
      return Err(Malformed);
    }
    if FromLittle(buf[len - 4..]) != ctx.checksum(buf[..len - 4]) {
      return Err(ChecksumMismatch);
    }
    var records := TakeRecords(p, buf, count);
    if d == 0 {
      SpellsBytes(ctx, p, d, address, records, []);
      return Ok((records, []));
    }
    var links := TakeLinks(p, d, buf, 6 + count * p.recordSize, count + 1, nrecSize, pointerSize);
    SpellsBytes(ctx, p, d, address, records, links);
    return Ok((records, links));
  }

  /** A stored node spells out its own records and links. */
  lemma {:induction false} StoredSpells(ctx: Context, p: Params, t: Tree, d: nat)
    requires p.Valid() && Stored(ctx, p, t, d)
    ensures Spells(ctx, p, d, t.address, t.records, Links(t))
  {
    hide Mul;
    hide Stored;
    hide EncSize;
    hide FromLittle;
    hide LinkAt;
    hide RecordSlice;
    hide Links;
    StoredBytes(ctx, p, t, d);
    StoredShape(ctx, p, t, d);
    var buf := ReadFile(ctx.file, t.address, NodeLen(p, |t.records|, d)).value;
    forall i | 0 <= i < |t.records|
      ensures 6 + Mul(i, p.recordSize) + p.recordSize <= |buf| && t.records[i] == RecordSlice(p, buf, i)
    {
      RecordAt(ctx, p, t, d, buf, i);
      RecordSliceIs(p, buf, i);
    }
    if d > 0 {
      LinksStored(ctx, p, t, d, buf);
    }
  }

  lemma {:induction false} RecordSliceIs(p: Params, buf: seq<byte>, i: nat)
    requires 6 + Mul(i, p.recordSize) + p.recordSize <= |buf|
    ensures RecordSlice(p, buf, i) == buf[6 + Mul(i, p.recordSize)..6 + Mul(i, p.recordSize) + p.recordSize]
  {
  }

  /** A stored tree is what the file spells out. */
  lemma {:induction false} StoredReads(ctx: Context, p: Params, t: Tree, d: nat)
    requires p.Valid() && Stored(ctx, p, t, d)
    ensures Reads(ctx, p, t, d)
    decreases d
  {
    hide Spells;
    hide WellFormed;
    StoredSpells(ctx, p, t, d);
    StoredShape(ctx, p, t, d);
    if d > 0 {
      forall i | 0 <= i < |t.children| ensures Reads(ctx, p, t.children[i], d - 1) {
        StoredReads(ctx, p, t.children[i], d - 1);
      }
    }
  }

  lemma {:induction false} StoredBytes(ctx: Context, p: Params, t: Tree, d: nat)
    requires p.Valid() && Stored(ctx, p, t, d)
    ensures var len := NodeLen(p, |t.records|, d);
            var bytes := ReadFile(ctx.file, t.address, len);
            && bytes.Ok? && |bytes.value| == len >= NODE_OVERHEAD && bytes.value[..4] == Signature(d == 0)
            && FromLittle(bytes.value[len - 4..]) == ctx.checksum(bytes.value[..len - 4])
    ensures d == 0 ==> Links(t) == []
  {
    hide Mul;
    hide Concat;
    hide Pointers;
    hide FromLittle;
    hide EncSize;
    ConcatLength(t.records, p.recordSize);
    if d > 0 {
      ConcatLength(Pointers(p, t.children, d), p.PointerSize(d));
    }
  }

  lemma {:induction false} LinksStored(ctx: Context, p: Params, t: Tree, d: nat, buf: seq<byte>)
    requires p.Valid() && d > 0 && Stored(ctx, p, t, d)
    requires ReadFile(ctx.file, t.address, NodeLen(p, |t.records|, d)) == Ok(buf)
    ensures |Links(t)| == |t.records| + 1 && AreLinks(p, d, buf, 6 + Mul(|t.records|, p.recordSize), Links(t))
  {
    hide Mul;
    hide Stored;
    hide LinkAt;
    hide WellFormed;
    StoredShape(ctx, p, t, d);
    var start := 6 + Mul(|t.records|, p.recordSize);
    forall i | 0 <= i < |t.children|
      ensures start + Mul(i, p.PointerSize(d)) + p.PointerSize(d) <= |buf|
      ensures Links(t)[i] == LinkAt(p, buf, start + Mul(i, p.PointerSize(d)))
    {
      StoredChild(ctx, p, t, d, i);
      StoredWellFormed(ctx, p, t.children[i], d - 1);
      PointerBytes(ctx, p, t, d, buf, i);
      PointerFields(p, t.children[i], d, buf, start + Mul(i, p.PointerSize(d)));
    }
  }

  lemma {:induction false} SliceFits(i: nat, count: nat, width: nat)
    requires i < count
    ensures Mul(i, width) + width <= Mul(count, width)
  {
    MulLe(i + 1, count, width);
  }

  function Links(t: Tree): (l: seq<(nat, nat)>)
    ensures |l| == if t.Leaf? then 0 else |t.children|
  {
    if t.Leaf? then []
    else seq(|t.children|, i requires 0 <= i < |t.children| => (t.children[i].address, |t.children[i].records|))
  }

  /** What lies between a stored node's prefix and its checksum. */
  lemma {:induction false} StoredBody(ctx: Context, p: Params, t: Tree, d: nat, buf: seq<byte>)
    requires p.Valid() && Stored(ctx, p, t, d)
    requires ReadFile(ctx.file, t.address, NodeLen(p, |t.records|, d)) == Ok(buf)
    ensures t.Leaf? <==> d == 0
    ensures forall i :: 0 <= i < |t.records| ==> |t.records[i]| == p.recordSize
    ensures |buf| >= NODE_OVERHEAD
    ensures buf[6..|buf| - 4] == Concat(t.records) + if d == 0 then [] else Concat(Pointers(p, t.children, d))
    ensures d > 0 ==> |t.children| == |t.records| + 1
  {
    hide Mul;
    hide Concat;
    hide Pointers;
    hide FromLittle;
  }

  lemma {:induction false} RecordAt(ctx: Context, p: Params, t: Tree, d: nat, buf: seq<byte>, i: nat)
    requires p.Valid() && Stored(ctx, p, t, d) && i < |t.records|
    requires ReadFile(ctx.file, t.address, NodeLen(p, |t.records|, d)) == Ok(buf)
    ensures var at := 6 + Mul(i, p.recordSize);
            at + p.recordSize <= |buf| && buf[at..at + p.recordSize] == t.records[i]
  {
    hide Mul;
    hide Concat;
    hide Stored;
    hide NodeLen;
    hide Pointers;
    hide IsNode;
    hide WellFormed;
    StoredBody(ctx, p, t, d, buf);
    var rest := if d == 0 then [] else Concat(Pointers(p, t.children, d));
    RecordInBody(buf, t.records, rest, p.recordSize, i);
  }

  lemma {:induction false} RecordInBody(buf: seq<byte>, records: seq<Record>, rest: seq<byte>, width: nat, i: nat)
    requires |buf| >= 10 && buf[6..|buf| - 4] == Concat(records) + rest
    requires i < |records| && forall k :: 0 <= k < |records| ==> |records[k]| == width
    ensures var at := 6 + Mul(i, width); at + width <= |buf| && buf[at..at + width] == records[i]
  {
    hide Mul;
    hide Concat;
    ConcatSlice(records, width, i);
    var at, part := Mul(i, width), Concat(records);
    assert (part + rest)[at..at + width] == part[at..at + width];
    SliceOfSlice(buf, 6, |buf| - 4, at, at + width);
  }

  /** A slice of a part is a slice of the whole. */
  lemma {:induction false} SliceOfSum(body: seq<byte>, part: seq<byte>, start: nat, from: nat, to: nat)
    requires start + |part| <= |body| && body[start..start + |part|] == part && from <= to <= |part|
    ensures body[start + from..start + to] == part[from..to]
  {
    SliceOfSlice(body, start, start + |part|, from, to);
  }

  /** The bytes of child pointer `i`. */
  lemma {:induction false} PointerBytes(ctx: Context, p: Params, t: Tree, d: nat, buf: seq<byte>, i: nat)
    requires p.Valid() && d > 0 && Stored(ctx, p, t, d) && i <= |t.records|
    requires ReadFile(ctx.file, t.address, NodeLen(p, |t.records|, d)) == Ok(buf)
    ensures t.Internal? && |t.children| == |t.records| + 1
    ensures var at := 6 + Mul(|t.records|, p.recordSize) + Mul(i, p.PointerSize(d));
            at + p.PointerSize(d) <= |buf| && buf[at..at + p.PointerSize(d)] == Pointer(p, t.children[i], d)
  {
    hide Mul;
    hide Concat;
    hide Pointer;
    hide Stored;
    hide EncSize;
    hide NodeLen;
    StoredBody(ctx, p, t, d, buf);
    var size := p.PointerSize(d);
    var records, pointers := Concat(t.records), Concat(Pointers(p, t.children, d));
    ConcatLength(t.records, p.recordSize);
    ConcatSlice(Pointers(p, t.children, d), size, i);
    var from := Mul(i, size);
    SliceOfSum(buf[6..|buf| - 4], pointers, |records|, from, from + size);
    SliceOfSlice(buf, 6, |buf| - 4, |records| + from, |records| + from + size);
  }

  /** The fields of a child pointer are the child's address and record count. */
  lemma {:induction false} PointerFields(p: Params, child: Tree, d: nat, buf: seq<byte>, at: nat)
    requires p.Valid() && d > 0 && WellFormed(p, child, d - 1) && at + p.PointerSize(d) <= |buf|
    requires buf[at..at + p.PointerSize(d)] == Pointer(p, child, d)
    ensures LinkAt(p, buf, at) == (child.address, |child.records|)
  {
    hide Pow2;
    hide FromLittle;
    hide ToLittle;
    hide WellFormed;
    hide EncSize;
    var size, width, mid := p.PointerSize(d), p.offsetSize, p.offsetSize + p.NrecSize();
    var piece := Pointer(p, child, d);
    SliceOfSlice(buf, at, at + size, 0, width);
    SliceOfSlice(buf, at, at + size, width, mid);
    assert piece[0..width] == ToLittle(child.address, width);
    assert piece[width..mid] == ToLittle(|child.records|, p.NrecSize());
    FieldsFit(p, child, d - 1);
    LittleRoundTrip(child.address, width);
    LittleRoundTrip(|child.records|, p.NrecSize());
  }

  // ---- the walk ----

  /** Read one node and, for an internal node, descend into its children in order. What is appended is the in-order list
      of the tree that the file spells out, which is also returned; and every such tree within the node limit is read. */
  method Collect(ctx: Context, p: Params, d: nat, address: nat, count: nat, nrecSize: nat, cumSizes: seq<nat>,
                 out: seq<Record>, visited: nat, ghost t: Tree)
    returns (r: Result<(seq<Record>, nat)>, ghost found: Tree)
    requires p.Valid() && nrecSize == p.NrecSize()
    requires |cumSizes| > d && forall k :: 0 <= k <= d ==> cumSizes[k] == p.CumSize(k)
    ensures Reads(ctx, p, t, d) && address == t.address && count == |t.records| && visited + Nodes(t) <= MAX_NODES ==>
              r.Ok? && found == t
    ensures r.Ok? ==>
              && Reads(ctx, p, found, d) && found.address == address && |found.records| == count
              && r.value == (out + InOrder(found), visited + Nodes(found)) && r.value.1 <= MAX_NODES
    decreases d
  {
    hide Params.CumSize;
    hide Params.NrecSize;
    hide Params.CumMax;
    hide Params.MaxAt;
    hide Params.PointerSize;
    hide InBytes;
    hide Spells;
    hide Links;
    hide EncSize;
    hide Reads;
    hide InOrder;
    hide InOrderAll;
    hide Nodes;
    hide NodesAll;
    hide Children;
    found := t;
    ghost var given := Reads(ctx, p, t, d) && address == t.address && count == |t.records| && visited + Nodes(t) <= MAX_NODES;
    if given {
      ReadsShape(ctx, p, t, d);
    }
    var seen: nat := visited + 1;
    if seen > MAX_NODES {
      return Err(Malformed), found;
    }
    var node := ReadNode(ctx, p, d, address, count, nrecSize, cumSizes);
    if node.Err? {
      return Err(node.error), found;
    }
    var (records, links) := node.value;
    if given {
      SpellsOnce(ctx, p, d, address, records, links, t.records, Links(t));
    }
    if d == 0 {
      found := Leaf(address, records);
      LeafReads(ctx, p, address, records, links);
      if given {
        ReadsOnce(ctx, p, t, found, d);
      }
      return Ok((out + records, seen)), found;
    }
    var acc := out;
    ghost var children: seq<Tree> := [];
    SpellsCount(ctx, p, d, address, records, links);
    NoChildren(ctx, p, d, links);
    assert records[..0] == [] && out + [] == out;
    for i := 0 to |links|
      invariant given ==> children == t.children[..i]
      invariant |children| == i && Children(ctx, p, d, links, children)
      invariant seen == visited + 1 + NodesAll(children) && seen <= MAX_NODES
      invariant acc == out + InOrderAll(children, records[..Min(i, |records|)])
    {
      var (childAddress, childRecords) := links[i];
      ghost var child := if given then t.children[i] else t;
      if given {
        ReadsChild(ctx, p, t, d, i);
        LinkIs(t, i);
      }
      var sub, subtree := Collect(ctx, p, d - 1, childAddress, childRecords, nrecSize, cumSizes, acc, seen, child);
      if sub.Err? {
        return Err(sub.error), found;
      }
      acc, seen := sub.value.0, sub.value.1;
      InOrderSnoc(out, children, records, i, subtree);
      AddChild(ctx, p, d, links, children, subtree);
      children := children + [subtree];
      if i < |records| {
        acc := acc + [records[i]];
      }
    }
    assert records[..|records|] == records;
    found := Internal(address, records, children);
    InternalReads(ctx, p, d, address, records, links, children);
    if given {
      ReadsOnce(ctx, p, t, found, d);
    }
    return Ok((acc, seen)), found;
  }

  lemma {:induction false} ReadsShape(ctx: Context, p: Params, t: Tree, d: nat)
    requires p.Valid() && Reads(ctx, p, t, d)
    ensures (t.Leaf? <==> d == 0) && Spells(ctx, p, d, t.address, t.records, Links(t))
    ensures t.Internal? ==> |t.children| == |t.records| + 1 && Nodes(t) == 1 + NodesAll(t.children)
    ensures Nodes(t) >= 1
  {
  }

  lemma {:induction false} ReadsChild(ctx: Context, p: Params, t: Tree, d: nat, i: nat)
    requires p.Valid() && Reads(ctx, p, t, d) && d > 0 && t.Internal? && i < |t.children|
    ensures Reads(ctx, p, t.children[i], d - 1)
    ensures NodesAll(t.children[..i]) + Nodes(t.children[i]) <= NodesAll(t.children)
  {
    NodesPrefix(t.children, i);
  }

  lemma {:induction false} NodesPrefix(ts: seq<Tree>, i: nat)
    requires i < |ts|
    ensures NodesAll(ts[..i]) + Nodes(ts[i]) <= NodesAll(ts)
  {
    hide Nodes;
    if i > 0 {
      NodesPrefix(ts[1..], i - 1);
      assert ts[..i][1..] == ts[1..][..i - 1];
    } else {
      assert ts[..0] == [];
    }
  }

  lemma {:induction false} LeafReads(ctx: Context, p: Params, address: nat, records: seq<Record>, links: seq<(nat, nat)>)
    requires p.Valid() && Spells(ctx, p, 0, address, records, links)
    ensures Reads(ctx, p, Leaf(address, records), 0)
    ensures InOrder(Leaf(address, records)) == records && Nodes(Leaf(address, records)) == 1
  {
    assert links == [];
  }

  lemma {:induction false} SpellsCount(ctx: Context, p: Params, d: nat, address: nat, records: seq<Record>, links: seq<(nat, nat)>)
    requires p.Valid() && d > 0 && Spells(ctx, p, d, address, records, links)
    ensures |links| == |records| + 1
  {
  }

  /** The trees read so far are those the links name. */
  ghost predicate Children(ctx: Context, p: Params, d: nat, links: seq<(nat, nat)>, children: seq<Tree>)
    requires p.Valid() && d > 0
  {
    |children| <= |links|
    && forall i :: 0 <= i < |children| ==>
      Reads(ctx, p, children[i], d - 1) && links[i] == (children[i].address, |children[i].records|)
  }

  lemma {:induction false} AddChild(ctx: Context, p: Params, d: nat, links: seq<(nat, nat)>, children: seq<Tree>, child: Tree)
    requires p.Valid() && d > 0 && Children(ctx, p, d, links, children) && |children| < |links|
    requires Reads(ctx, p, child, d - 1) && links[|children|] == (child.address, |child.records|)
    ensures Children(ctx, p, d, links, children + [child])
  {
    hide Reads;
  }

  lemma {:induction false} InternalReads(ctx: Context, p: Params, d: nat, address: nat, records: seq<Record>, links: seq<(nat, nat)>,
                                         children: seq<Tree>)
    requires p.Valid() && d > 0 && Spells(ctx, p, d, address, records, links)
    requires |links| == |records| + 1 == |children| && Children(ctx, p, d, links, children)
    ensures Reads(ctx, p, Internal(address, records, children), d)
    ensures InOrder(Internal(address, records, children)) == InOrderAll(children, records)
    ensures Nodes(Internal(address, records, children)) == 1 + NodesAll(children)
  {
    hide Spells;
    assert Links(Internal(address, records, children)) == links;
  }

  lemma {:induction false} NoChildren(ctx: Context, p: Params, d: nat, links: seq<(nat, nat)>)
    requires p.Valid() && d > 0
    ensures Children(ctx, p, d, links, []) && InOrderAll([], []) == [] && NodesAll([]) == 0
  {
  }

  /** A further child comes after its elders and the records between them, and before the next record, if there is one. */
  lemma {:induction false} InOrderSnoc(out: seq<Record>, ts: seq<Tree>, records: seq<Record>, i: nat, t: Tree)
    requires |ts| == i <= |records|
    ensures var acc := out + InOrderAll(ts, records[..i]) + InOrder(t);
            out + InOrderAll(ts + [t], records[..Min(i + 1, |records|)]) == if i < |records| then acc + [records[i]] else acc
    ensures NodesAll(ts + [t]) == NodesAll(ts) + Nodes(t)
  {
    hide InOrder;
    hide Nodes;
    hide InOrderAll;
    LastChild(ts, records[..i], t);
    if i < |records| {
      LastRecord(ts, records[..i], t, records[i]);
      assert records[..i + 1] == records[..i] + [records[i]];
    }
  }

  lemma {:induction false} LastChild(ts: seq<Tree>, records: seq<Record>, t: Tree)
    requires |records| == |ts|
    ensures InOrderAll(ts + [t], records) == InOrderAll(ts, records) + InOrder(t)
    ensures NodesAll(ts + [t]) == NodesAll(ts) + Nodes(t)
  {
    hide InOrder;
    hide Nodes;
    if ts == [] {
      assert ts + [t] == [t] && [t][1..] == [];
    } else {
      LastChild(ts[1..], records[1..], t);
      assert (ts + [t])[1..] == ts[1..] + [t];
    }
  }

  lemma {:induction false} LastRecord(ts: seq<Tree>, records: seq<Record>, t: Tree, r: Record)
    requires |records| == |ts|
    ensures InOrderAll(ts + [t], records + [r]) == InOrderAll(ts, records) + InOrder(t) + [r]
  {
    hide InOrder;
    if ts == [] {
      assert ts + [t] == [t] && [t][1..] == [] && records + [r] == [r];
    } else {
      LastRecord(ts[1..], records[1..], t, r);
      assert (ts + [t])[1..] == ts[1..] + [t] && (records + [r])[1..] == records[1..] + [r];
    }
  }

  lemma {:induction false} StoredShape(ctx: Context, p: Params, t: Tree, d: nat)
    requires p.Valid()
    ensures Stored(ctx, p, t, d) ==> (t.Leaf? <==> d == 0) && (d > 0 ==> |t.children| == |t.records| + 1)
  {
  }

  lemma {:induction false} LinkIs(t: Tree, i: nat)
    requires t.Internal? && i < |t.children|
    ensures Links(t)[i] == (t.children[i].address, |t.children[i].records|)
  {
  }

  lemma {:induction false} StoredWellFormed(ctx: Context, p: Params, t: Tree, d: nat)
    requires p.Valid() && Stored(ctx, p, t, d)
    ensures WellFormed(p, t, d)
  {
  }

  lemma {:induction false} StoredChild(ctx: Context, p: Params, t: Tree, d: nat, i: nat)
    requires p.Valid() && Stored(ctx, p, t, d) && d > 0 && t.Internal? && i < |t.children|
    ensures Stored(ctx, p, t.children[i], d - 1)
  {
  }

  /** The file spells out a tree from its root, within the node limit. */
  ghost predicate IsTree(ctx: Context, p: Params, depth: nat, root: nat, rootRecords: nat, t: Tree)
    requires p.Valid()
  {
    Reads(ctx, p, t, depth) && t.address == root && |t.records| == rootRecords && Nodes(t) <= 0x10_0000
  }

  /**
   Reading a tree from its root succeeds exactly when the file spells out a tree within the node limit, and returns its
   records in order; a stored tree is one. An impossible node or record size is refused, and an absent root is empty.
   */
  method ReadTree(ctx: Context, p: Params, depth: nat, root: Option<nat>, rootRecords: nat)
    returns (r: Result<seq<Record>>)
    requires p.nodeSize <= 0xffff_ffff && p.offsetSize <= 8
    ensures p.recordSize == 0 || p.nodeSize <= NODE_OVERHEAD ==> r == Err(Malformed)
    ensures p.Valid() && root.None? ==> r == Ok([])
    ensures p.Valid() && root.Some? ==>
              (r.Ok? <==> exists t :: IsTree(ctx, p, depth, root.value, rootRecords, t))
    ensures p.Valid() && root.Some? ==>
              forall t :: IsTree(ctx, p, depth, root.value, rootRecords, t) ==> r == Ok(InOrder(t))
    ensures p.Valid() ==>
              forall t :: (Stored(ctx, p, t, depth) && root == Some(t.address) && rootRecords == |t.records| && Nodes(t) <= 0x10_0000)
                ==> r == Ok(InOrder(t))
  {
    hide Stored;
    hide InOrder;
    hide Reads;
    if p.recordSize == 0 || p.nodeSize <= NODE_OVERHEAD {
      return Err(Malformed);
    }
    var nrecSize, cumSizes := Derive(p, depth);
    if root.None? {
      return Ok([]);
    }
    ghost var some := exists t :: IsTree(ctx, p, depth, root.value, rootRecords, t);
    ghost var given := Leaf(0, []);
    if some {
      given :| IsTree(ctx, p, depth, root.value, rootRecords, given);
    }
    var walked, found := Collect(ctx, p, depth, root.value, rootRecords, nrecSize, cumSizes, [], 0, given);
    if walked.Ok? {
      assert [] + InOrder(found) == InOrder(found);
      assert IsTree(ctx, p, depth, root.value, rootRecords, found);
      r := Ok(walked.value.0);
    } else {
      r := Err(walked.error);
    }
    forall t | IsTree(ctx, p, depth, root.value, rootRecords, t) ensures r == Ok(InOrder(t)) {
      ReadsOnce(ctx, p, t, found, depth);
    }
    forall t | Stored(ctx, p, t, depth) && root == Some(t.address) && rootRecords == |t.records| && Nodes(t) <= MAX_NODES
      ensures IsTree(ctx, p, depth, root.value, rootRecords, t)
    {
      StoredReads(ctx, p, t, depth);
    }
  }

  /** The file spells out at most one tree from an address. */
  lemma {:induction false} ReadsOnce(ctx: Context, p: Params, a: Tree, b: Tree, d: nat)
    requires p.Valid() && Reads(ctx, p, a, d) && Reads(ctx, p, b, d) && a.address == b.address && |a.records| == |b.records|
    ensures a == b
    decreases d
  {
    hide Spells;
    hide Links;
    SpellsOnce(ctx, p, d, a.address, a.records, Links(a), b.records, Links(b));
    if d > 0 {
      forall i | 0 <= i < |a.children| ensures a.children[i] == b.children[i] {
        LinkIs(a, i);
        LinkIs(b, i);
        ReadsOnce(ctx, p, a.children[i], b.children[i], d - 1);
      }
    }
  }

  /** The record count's width never exceeds what the cursor can read. */
  lemma {:induction false} NrecSizeSmall(p: Params)
    requires p.Valid()
    ensures 1 <= p.NrecSize() <= 4
  {
    hide Quot;
    EncSizeExact(p.LeafMax());
    QuotLess(p.nodeSize - NODE_OVERHEAD, p.recordSize, 0xffff_ffff, 1);
    QuotByOne(0xffff_ffff);
    if p.NrecSize() > 4 {
      Pow2Monotone(32, 8 * (p.NrecSize() - 1));
      Pow2Word();
    }
  }

  lemma {:induction false} QuotByOne(n: nat)
    ensures Quot(n, 1) == n
  {
    MulOne(n);
    QuotRemUnique(n, 0, 1);
  }

  // ---- trees written with the widths of nodes that fit ----

  function FitPointer(p: Params, child: Tree, d: nat): (b: seq<byte>)
    requires SizesOk(p) && d > 0
    ensures |b| == Fitting(p).PointerSize(d)
  {
    ToLittle(child.address, p.offsetSize) + ToLittle(|child.records|, p.NrecSize())
    + if d > 1 then ToLittle(Total(child), EncSize(Fitting(p).CumMax(d - 1))) else []
  }

  function FitPointers(p: Params, ts: seq<Tree>, d: nat): seq<seq<byte>>
    requires SizesOk(p) && d > 0
  {
    seq(|ts|, i requires 0 <= i < |ts| => FitPointer(p, ts[i], d))
  }

  function FitLen(p: Params, count: nat, d: nat): nat
    requires SizesOk(p)
  {
    NODE_OVERHEAD + Mul(count, p.recordSize) + if d == 0 then 0 else Mul(count + 1, Fitting(p).PointerSize(d))
  }

  /** The file holds the tree, every node within its size, written with pointers just wide enough for such nodes. */
  ghost predicate StoredFit(ctx: Context, p: Params, t: Tree, d: nat)
    requires p.Valid()
    decreases d
  {
    && FitLen(p, |t.records|, d) <= p.nodeSize && t.address < Pow2(8 * p.offsetSize)
    && (forall i :: 0 <= i < |t.records| ==> |t.records[i]| == p.recordSize)
    && (t.Leaf? <==> d == 0)
    && (var bytes := ReadFile(ctx.file, t.address, FitLen(p, |t.records|, d));
        var pointers := if d == 0 || t.Leaf? then [] else Concat(FitPointers(p, t.children, d));
        bytes.Ok? && Framed(ctx, d == 0, Concat(t.records) + pointers, bytes.value))
    && (t.Internal? && d > 0 ==>
          && |t.children| == |t.records| + 1
          && forall i :: 0 <= i < |t.children| ==> StoredFit(ctx, p, t.children[i], d - 1))
  }

  lemma {:induction false} SameLayout(p: Params, t: Tree, d: nat)
    requires p.Valid() && (d > 0 ==> SameWidths(p, d - 1))
    ensures FitLen(p, |t.records|, d) == NodeLen(p, |t.records|, d)
    ensures t.Internal? && d > 0 ==> FitPointers(p, t.children, d) == Pointers(p, t.children, d)
  {
    hide EncSize;
    hide Mul;
    hide ToLittle;
    if d > 0 {
      SamePointers(p, d);
      if t.Internal? {
        forall i | 0 <= i < |t.children| ensures FitPointers(p, t.children, d)[i] == Pointers(p, t.children, d)[i] {
          assert d > 1 ==> p.CumSize(d - 1) == EncSize(Fitting(p).CumMax(d - 1));
        }
      }
    }
  }

  /** Where the widths agree below its root, such a tree is stored as the reader expects, and so is read back. */
  lemma {:induction false} StoredFitIsStored(ctx: Context, p: Params, t: Tree, d: nat)
    requires p.Valid() && StoredFit(ctx, p, t, d) && (d > 0 ==> SameWidths(p, d - 1))
    ensures Stored(ctx, p, t, d)
    decreases d
  {
    hide EncSize;
    hide Mul;
    hide Quot;
    hide Pow2;
    hide Concat;
    hide Framed;
    hide FitLen;
    hide NodeLen;
    hide FitPointers;
    hide Pointers;
    hide SameWidths;
    SameLayout(p, t, d);
    if d > 0 {
      CapacityBound(p, |t.records|, d);
      SameBelow(p, d - 1);
      forall i | 0 <= i < |t.children| ensures Stored(ctx, p, t.children[i], d - 1) && WellFormed(p, t.children[i], d - 1) {
        StoredFitIsStored(ctx, p, t.children[i], d - 1);
        StoredWellFormed(ctx, p, t.children[i], d - 1);
      }
    } else {
      LeafBound(p, |t.records|);
    }
  }

  /** Where a pointer of the root is derived too wide, a tree whose root is the last thing in the file is not read: the
      reader looks for more bytes than there are. */
  lemma {:induction false} WiderIsNotRead(ctx: Context, p: Params, t: Tree, d: nat, other: Tree)
    requires p.Valid() && d > 0 && p.PointerSize(d) > Fitting(p).PointerSize(d)
    requires t.address + FitLen(p, |t.records|, d) == |ctx.file|
    ensures !IsTree(ctx, p, d, t.address, |t.records|, other)
  {
    hide EncSize;
    hide Mul;
    hide FromLittle;
    var n, narrow, wide := |t.records| + 1, Fitting(p).PointerSize(d), p.PointerSize(d);
    MulComm(n, narrow);
    MulComm(n, wide);
    MulAdd(narrow, wide - narrow, n);
    MulPositive(wide - narrow, n);
  }

  // ---- one that is not read ----

  /** A body in its frame, with a checksum of zero. */
  function Frame(leaf: bool, body: seq<byte>): seq<byte> {
    Signature(leaf) + [0, 0] + body + [0, 0, 0, 0]
  }

  lemma {:induction false} FrameFrames(ctx: Context, leaf: bool, body: seq<byte>, address: nat, after: seq<byte>)
    requires forall s :: ctx.checksum(s) == 0
    requires address <= |ctx.file| && ctx.file[address..] == Frame(leaf, body) + after
    ensures var bytes := ReadFile(ctx.file, address, NODE_OVERHEAD + |body|);
            bytes.Ok? && Framed(ctx, leaf, body, bytes.value)
  {
    hide Signature;
    hide FromLittle;
    hide Frame;
    var bytes, len := Frame(leaf, body), NODE_OVERHEAD + |body|;
    FrameParts(leaf, body);
    assert ctx.file[address..][..len] == bytes by {
      assert (bytes + after)[..len] == bytes;
    }
    assert ctx.file[address..][..len] == ctx.file[address..address + len];
  }

  lemma {:induction false} FrameParts(leaf: bool, body: seq<byte>)
    ensures var bytes, len := Frame(leaf, body), NODE_OVERHEAD + |body|;
            && |bytes| == len && bytes[..4] == Signature(leaf) && bytes[6..len - 4] == body && FromLittle(bytes[len - 4..]) == 0
  {
    hide Signature;
    hide FromLittle;
    var bytes, len := Frame(leaf, body), NODE_OVERHEAD + |body|;
    assert bytes[len - 4..] == [0, 0, 0, 0];
    LittleFour([0, 0, 0, 0]);
  }

  /** A leaf of one record. */
  lemma {:induction false} StoredLeaf(ctx: Context, p: Params, record: Record, address: nat, after: seq<byte>)
    requires p.Valid() && |record| == p.recordSize && NODE_OVERHEAD + p.recordSize <= p.nodeSize
    requires address < Pow2(8 * p.offsetSize) && forall s :: ctx.checksum(s) == 0
    requires address <= |ctx.file| && ctx.file[address..] == Frame(true, record) + after
    ensures StoredFit(ctx, p, Leaf(address, [record]), 0)
  {
    hide Framed;
    hide Frame;
    hide Mul;
    hide Pow2;
    FrameFrames(ctx, true, record, address, after);
    MulOne(p.recordSize);
    assert [record][1..] == [] && Concat([]) == [] && record + [] == record;
  }

  /** A node without records above one child. */
  lemma {:induction false} StoredAbove(ctx: Context, p: Params, child: Tree, d: nat, address: nat, after: seq<byte>)
    requires p.Valid() && d > 0 && StoredFit(ctx, p, child, d - 1) && address < Pow2(8 * p.offsetSize)
    requires NODE_OVERHEAD + Fitting(p).PointerSize(d) <= p.nodeSize && forall s :: ctx.checksum(s) == 0
    requires address <= |ctx.file| && ctx.file[address..] == Frame(false, FitPointer(p, child, d)) + after
    ensures FitLen(p, 0, d) == NODE_OVERHEAD + Fitting(p).PointerSize(d)
    ensures StoredFit(ctx, p, Internal(address, [], [child]), d)
  {
    hide Framed;
    hide FitPointer;
    hide Frame;
    hide Mul;
    hide EncSize;
    hide Pow2;
    MulZero(p.recordSize);
    MulOne(Fitting(p).PointerSize(d));
    var pointer := FitPointer(p, child, d);
    FrameFrames(ctx, false, pointer, address, after);
    OneChild(p, child, d);
    assert Concat([]) + pointer == pointer;
  }

  lemma {:induction false} OneChild(p: Params, child: Tree, d: nat)
    requires SizesOk(p) && d > 0
    ensures Concat(FitPointers(p, [child], d)) == FitPointer(p, child, d)
  {
    assert FitPointers(p, [child], d) == [FitPointer(p, child, d)];
    assert [FitPointer(p, child, d)][1..] == [];
    assert Concat([]) == [];
  }

  /** A leaf of one record, and above it three nodes of one child each. */
  function Chain(d: nat): Tree
    requires d <= 3
  {
    if d == 0 then Leaf(0, [seq(74, _ => 0)])
    else Internal(if d == 1 then 84 else if d == 2 then 103 else 123, [], [Chain(d - 1)])
  }

  function ChainNode(p: Params, d: nat): seq<byte>
    requires SizesOk(p) && d <= 3
  {
    if d == 0 then Frame(true, seq(74, _ => 0)) else Frame(false, FitPointer(p, Chain(d - 1), d))
  }

  function ChainContext(p: Params): Context
    requires SizesOk(p)
  {
    Context(ChainNode(p, 0) + ChainNode(p, 1) + ChainNode(p, 2) + ChainNode(p, 3), s => 0)
  }

  lemma {:induction false} ChainSizes(p: Params)
    requires p == Params(512, 74, 8)
    ensures SizesOk(p) && p.Valid() && Fitting(p).PointerSize(1) == 9 && Fitting(p).PointerSize(2) == 10 && Fitting(p).PointerSize(3) == 10
    ensures p.PointerSize(3) == 11
    ensures |ChainNode(p, 0)| == 84 && |ChainNode(p, 1)| == 19 && |ChainNode(p, 2)| == 20 && |ChainNode(p, 3)| == 20
  {
    hide Quot;
    hide Mul;
    hide EncSize;
    hide ToLittle;
    SomeSizes();
    DerivedTotals(p);
    FittingTotals(Fitting(p));
  }

  lemma {:induction false} ChainFile(p: Params)
    requires p == Params(512, 74, 8)
    ensures SizesOk(p)
    ensures var file, b, c, d := ChainContext(p).file, ChainNode(p, 1), ChainNode(p, 2), ChainNode(p, 3);
            && |file| == 143 && file[0..] == ChainNode(p, 0) + (b + c + d)
            && file[84..] == b + (c + d) && file[103..] == c + d && file[123..] == d + []
  {
    hide ChainNode;
    hide Quot;
    hide Mul;
    hide EncSize;
    ChainSizes(p);
    FourParts(ChainNode(p, 0), ChainNode(p, 1), ChainNode(p, 2), ChainNode(p, 3));
  }

  lemma {:induction false} FourParts(a: seq<byte>, b: seq<byte>, c: seq<byte>, d: seq<byte>)
    ensures var s := a + b + c + d;
            && s[0..] == a + (b + c + d) && s[|a|..] == b + (c + d)
            && s[|a| + |b|..] == c + d && s[|a| + |b| + |c|..] == d + []
  {
  }

  /** With records of 74 bytes in nodes of 512 bytes, the chain is stored with the pointers of nodes that fit, and no tree
      is read from its root. */
  lemma {:induction false} ChainIsNotRead(p: Params, other: Tree)
    requires p == Params(512, 74, 8)
    ensures SizesOk(p) && p.Valid() && StoredFit(ChainContext(p), p, Chain(3), 3) && Nodes(Chain(3)) == 4
    ensures !IsTree(ChainContext(p), p, 3, Chain(3).address, |Chain(3).records|, other)
  {
    hide Frame;
    hide FitPointer;
    hide Framed;
    hide EncSize;
    hide Quot;
    hide Mul;
    hide StoredFit;
    hide FitLen;
    hide Pow2;
    ChainSizes(p);
    ChainFile(p);
    var ctx, b, c, d := ChainContext(p), ChainNode(p, 1), ChainNode(p, 2), ChainNode(p, 3);
    Pow2Word();
    Pow2Monotone(8, 64);
    StoredLeaf(ctx, p, seq(74, _ => 0), 0, b + c + d);
    StoredAbove(ctx, p, Chain(0), 1, 84, c + d);
    StoredAbove(ctx, p, Chain(1), 2, 103, d);
    StoredAbove(ctx, p, Chain(2), 3, 123, []);
    WiderIsNotRead(ctx, p, Chain(3), 3, other);
  }
}
