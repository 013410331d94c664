/** Walking a version 1 chunk B-tree, whose pointers may form any graph (`crates/oxcdf-hdf5/src/btree1.rs`). */
module BTreeV1 {
  import opened Basics
  import opened ChunkCovers

  /** More nodes than this are taken for a loop. */
  const MAX_NODES: nat := 0x10_0000

  const NODE_TYPE_CHUNK: nat := 1

  datatype ChunkKey = ChunkKey(size: nat, filterMask: nat, offset: seq<nat>)

  datatype Node = Node(nodeType: nat, level: nat, children: seq<nat>, keys: seq<ChunkKey>) {
    /** The chunks a leaf names: each child with the key before it. */
    function Records(): seq<ChunkRecord> {
      seq(Min(|keys|, |children|), i requires 0 <= i < |keys| && i < |children| =>
        ChunkRecord(keys[i].size, keys[i].filterMask, keys[i].offset, children[i]))
    }
  }

  /** The file's nodes: a deterministic lookup by address that may fail. */
  type Graph = nat -> Result<Node>

  predicate Good(g: Graph, a: nat) {
    g(a).Ok? && g(a).value.nodeType == NODE_TYPE_CHUNK
  }

  predicate IsLeaf(g: Graph, a: nat) {
    Good(g, a) && g(a).value.level == 0
  }

  predicate Edge(g: Graph, a: nat, b: nat) {
    Good(g, a) && g(a).value.level != 0 && b in g(a).value.children
  }

  ghost predicate IsPath(g: Graph, path: seq<nat>) {
    |path| > 0 && forall i :: 0 < i < |path| ==> Edge(g, path[i - 1], path[i])
  }

  ghost predicate Reachable(g: Graph, root: nat, a: nat) {
    exists path :: IsPath(g, path) && path[0] == root && path[|path| - 1] == a
  }

  lemma {:induction false} RootReachable(g: Graph, root: nat)
    ensures Reachable(g, root, root)
  {
    assert IsPath(g, [root]);
  }

  lemma {:induction false} ChildReachable(g: Graph, root: nat, a: nat, b: nat)
    requires Reachable(g, root, a) && Edge(g, a, b)
    ensures Reachable(g, root, b)
  {
    var path :| IsPath(g, path) && path[0] == root && path[|path| - 1] == a;
    var longer := path + [b];
    assert IsPath(g, longer);
  }

  /** A set that holds the root and is closed under edges holds everything reachable. */
  lemma {:induction false} ClosedHoldsReachable(g: Graph, root: nat, visited: set<nat>, path: seq<nat>)
    requires root in visited && forall a, b :: a in visited && Edge(g, a, b) ==> b in visited
    requires IsPath(g, path) && path[0] == root
    ensures path[|path| - 1] in visited
  {
    var n := |path| - 1;
    if n > 0 {
      assert IsPath(g, path[..n]);
      ClosedHoldsReachable(g, root, visited, path[..n]);
      assert Edge(g, path[n - 1], path[n]);
    }
  }

  /** The records of a list of leaves, leaf by leaf. */
  function Flatten(g: Graph, leaves: seq<nat>): seq<ChunkRecord>
    requires forall i :: 0 <= i < |leaves| ==> IsLeaf(g, leaves[i])
  {
    if leaves == [] then []
    else
      assert IsLeaf(g, leaves[|leaves| - 1]);
      Flatten(g, leaves[..|leaves| - 1]) + g(leaves[|leaves| - 1]).value.Records()
  }

  // ---- sorting by offset ----

  /** The order of `Vec<u64>`: lexicographic, a prefix before what it begins. */
  predicate OffsetLeq(a: seq<nat>, b: seq<nat>) {
    a == [] || (b != [] && (a[0] < b[0] || (a[0] == b[0] && OffsetLeq(a[1..], b[1..]))))
  }

  lemma {:induction false} OffsetTotal(a: seq<nat>, b: seq<nat>)
    ensures OffsetLeq(a, b) || OffsetLeq(b, a)
  {
    if a != [] && b != [] {
      OffsetTotal(a[1..], b[1..]);
    }
  }

  lemma {:induction false} OffsetTransitive(a: seq<nat>, b: seq<nat>, c: seq<nat>)
    requires OffsetLeq(a, b) && OffsetLeq(b, c)
    ensures OffsetLeq(a, c)
  {
    if a != [] && a[0] == b[0] && b[0] == c[0] {
      OffsetTransitive(a[1..], b[1..], c[1..]);
    }
  }

  /** The first place where two offsets differ decides; without one, the shorter comes first. */
  lemma {:induction false} OffsetOrder(a: seq<nat>, b: seq<nat>, k: nat)
    requires k <= |a| && k <= |b| && a[..k] == b[..k]
    ensures k < |a| && k < |b| && a[k] != b[k] ==> (OffsetLeq(a, b) <==> a[k] < b[k])
    ensures k == |a| || k == |b| ==> (OffsetLeq(a, b) <==> |a| <= |b|)
  {
    if k > 0 {
      assert a[0] == a[..k][0] == b[..k][0] == b[0];
      assert a[1..][..k - 1] == a[..k][1..] == b[..k][1..] == b[1..][..k - 1];
      OffsetOrder(a[1..], b[1..], k - 1);
    }
  }

  ghost predicate Sorted(records: seq<ChunkRecord>) {
    forall i, j :: 0 <= i < j < |records| ==> OffsetLeq(records[i].offset, records[j].offset)
  }

  /** Insert after every record that does not come later. */
  function Insert(records: seq<ChunkRecord>, x: ChunkRecord): (r: seq<ChunkRecord>)
    ensures multiset(r) == multiset(records) + multiset{x}
  {
    if records == [] then [x]
    else
      var n := |records| - 1;
      assert records == records[..n] + [records[n]];
      if OffsetLeq(records[n].offset, x.offset) then records + [x]
      else Insert(records[..n], x) + [records[n]]
  }

  lemma {:induction false} InsertSorted(records: seq<ChunkRecord>, x: ChunkRecord)
    requires Sorted(records)
    ensures Sorted(Insert(records, x))
  {
    if records != [] {
      var n := |records| - 1;
      if OffsetLeq(records[n].offset, x.offset) {
        forall i | 0 <= i < n ensures OffsetLeq(records[i].offset, x.offset) {
          OffsetTransitive(records[i].offset, records[n].offset, x.offset);
        }
      } else {
        OffsetTotal(records[n].offset, x.offset);
        InsertSorted(records[..n], x);
        var front := Insert(records[..n], x);
        forall i | 0 <= i < |front| ensures OffsetLeq(front[i].offset, records[n].offset) {
          assert front[i] in multiset(front);
          if front[i] != x {
            assert front[i] in records[..n];
          }
        }
      }
    }
  }

  ghost predicate Distinct<T>(s: seq<T>) {
    forall i, j :: 0 <= i < j < |s| ==> s[i] != s[j]
  }

  /** The records in the given order, each of them once. */
  ghost predicate Arranges(order: seq<nat>, records: seq<ChunkRecord>, sorted: seq<ChunkRecord>) {
    |order| == |sorted| == |records| && Distinct(order)
    && (forall p :: 0 <= p < |order| ==> order[p] < |records| && sorted[p] == records[order[p]])
    && forall i :: 0 <= i < |records| ==> i in order
  }

  lemma {:induction false} Inserted(records: seq<ChunkRecord>, x: ChunkRecord) returns (k: nat)
    ensures k <= |records| && Insert(records, x) == records[..k] + [x] + records[k..]
  {
    if records == [] {
      k := 0;
    } else {
      var n := |records| - 1;
      if OffsetLeq(records[n].offset, x.offset) {
        k := |records|;
      } else {
        k := Inserted(records[..n], x);
        assert records[..n][..k] == records[..k] && records[..n][k..] + [records[n]] == records[k..];
      }
    }
  }

  lemma {:induction false} ArrangeMore(order: seq<nat>, records: seq<ChunkRecord>, n: nat, sorted: seq<ChunkRecord>, k: nat)
    requires n < |records| && Arranges(order, records[..n], sorted) && k <= |sorted|
    ensures Arranges(order[..k] + [n] + order[k..], records[..n + 1], sorted[..k] + [records[n]] + sorted[k..])
  {
    var next := order[..k] + [n] + order[k..];
    forall p, q | 0 <= p < q < |next| ensures next[p] != next[q] {
      var i, j := if p <= k then p else p - 1, if q <= k then q else q - 1;
      assert p != k ==> next[p] == order[i];
      assert q != k ==> next[q] == order[j];
    }
    forall i | 0 <= i < n + 1 ensures i in next {
      if i == n {
        assert next[k] == n;
      } else {
        assert i in order;
        var p :| 0 <= p < |order| && order[p] == i;
        assert next[if p < k then p else p + 1] == i;
      }
    }
  }

  method SortByOffset(records: seq<ChunkRecord>) returns (r: seq<ChunkRecord>, ghost order: seq<nat>)
    ensures Sorted(r) && multiset(r) == multiset(records)
    ensures Arranges(order, records, r)
  {
    r, order := [], [];
    for i := 0 to |records|
      invariant Sorted(r) && multiset(r) == multiset(records[..i])
      invariant Arranges(order, records[..i], r)
    {
      assert records[..i + 1] == records[..i] + [records[i]];
      InsertSorted(r, records[i]);
      ghost var k := Inserted(r, records[i]);
      ArrangeMore(order, records, i, r, k);
      order := order[..k] + [i] + order[k..];
      r := Insert(r, records[i]);
    }
    assert records[..|records|] == records;
  }

  // ---- the walk ----

  /** Everything seen is reachable and well formed, and every pointer out of it is accounted for. */
  ghost predicate WalkOk(g: Graph, root: nat, visited: set<nat>, stack: seq<nat>, leaves: seq<nat>) {
    (forall a :: a in visited ==> Reachable(g, root, a) && Good(g, a))
    && (forall i :: 0 <= i < |stack| ==> Reachable(g, root, stack[i]))
    && (root in visited || root in stack)
    && (forall a, b :: a in visited && Edge(g, a, b) ==> b in visited || b in stack)
    && (forall i :: 0 <= i < |leaves| ==> leaves[i] in visited && IsLeaf(g, leaves[i]))
    && (forall a :: a in visited && IsLeaf(g, a) ==> a in leaves)
    && forall i, j :: 0 <= i < j < |leaves| ==> leaves[i] != leaves[j]
  }

  /** The list names every leaf reachable from the root, each once. */
  ghost predicate AreReachableLeaves(g: Graph, root: nat, leaves: seq<nat>) {
    (forall i :: 0 <= i < |leaves| ==> IsLeaf(g, leaves[i]) && Reachable(g, root, leaves[i]))
    && (forall a :: Reachable(g, root, a) && IsLeaf(g, a) ==> a in leaves)
    && forall i, j :: 0 <= i < j < |leaves| ==> leaves[i] != leaves[j]
  }

  lemma {:induction false} WalkDone(g: Graph, root: nat, visited: set<nat>, leaves: seq<nat>)
    requires WalkOk(g, root, visited, [], leaves)
    ensures forall a :: Reachable(g, root, a) <==> a in visited
    ensures AreReachableLeaves(g, root, leaves)
  {
    forall a | Reachable(g, root, a) ensures a in visited {
      var path :| IsPath(g, path) && path[0] == root && path[|path| - 1] == a;
      ClosedHoldsReachable(g, root, visited, path);
    }
  }

  /** A popped node seen before leaves the walk as it was. */
  lemma {:induction false} WalkSkip(g: Graph, root: nat, visited: set<nat>, stack: seq<nat>, leaves: seq<nat>)
    requires |stack| > 0 && WalkOk(g, root, visited, stack, leaves) && stack[|stack| - 1] in visited
    ensures WalkOk(g, root, visited, stack[..|stack| - 1], leaves)
  {
    var n := |stack| - 1;
    assert forall b :: b in stack ==> b in stack[..n] || b == stack[n];
  }

  lemma {:induction false} WalkLeaf(g: Graph, root: nat, visited: set<nat>, stack: seq<nat>, leaves: seq<nat>)
    requires |stack| > 0 && WalkOk(g, root, visited, stack, leaves)
    requires stack[|stack| - 1] !in visited && IsLeaf(g, stack[|stack| - 1])
    ensures WalkOk(g, root, visited + {stack[|stack| - 1]}, stack[..|stack| - 1], leaves + [stack[|stack| - 1]])
  {
    var n := |stack| - 1;
    assert forall b :: b in stack ==> b in stack[..n] || b == stack[n];
  }

  lemma {:induction false} WalkInternal(g: Graph, root: nat, visited: set<nat>, stack: seq<nat>, leaves: seq<nat>)
    requires |stack| > 0 && WalkOk(g, root, visited, stack, leaves)
    requires stack[|stack| - 1] !in visited && Good(g, stack[|stack| - 1]) && !IsLeaf(g, stack[|stack| - 1])
    ensures WalkOk(g, root, visited + {stack[|stack| - 1]}, stack[..|stack| - 1] + g(stack[|stack| - 1]).value.children, leaves)
  {
    var n := |stack| - 1;
    var a := stack[n];
    var kids := g(a).value.children;
    var next := stack[..n] + kids;
    assert forall b :: b in stack ==> b in stack[..n] || b == a;
    forall i | 0 <= i < |next| ensures Reachable(g, root, next[i]) {
      if i >= n {
        assert next[i] == kids[i - n] && kids[i - n] in kids;
        ChildReachable(g, root, a, next[i]);
      }
    }
    assert forall b :: b in kids ==> b in next;
  }

  // ---- which record comes from which key ----

  /** Node `a` is a leaf that has both a key and a child number `i`. */
  ghost predicate IsSlot(g: Graph, a: nat, i: nat) {
    g(a).Ok? && g(a).value.nodeType == 1 && g(a).value.level == 0 && i < |g(a).value.keys| && i < |g(a).value.children|
  }

  /** The record is key `i` of leaf `a` with its child's address. */
  ghost predicate FromSlot(g: Graph, slot: (nat, nat), record: ChunkRecord) {
    var (a, i) := slot;
    IsSlot(g, a, i)
    && record.size == g(a).value.keys[i].size && record.filterMask == g(a).value.keys[i].filterMask
    && record.offset == g(a).value.keys[i].offset && record.address == g(a).value.children[i]
  }

  /** Each record comes from a slot of its own, and every slot of these leaves is used. */
  ghost predicate Paired(g: Graph, leaves: seq<nat>, records: seq<ChunkRecord>, slots: seq<(nat, nat)>) {
    |slots| == |records| && Distinct(slots)
    && (forall p :: 0 <= p < |slots| ==> FromSlot(g, slots[p], records[p]) && slots[p].0 in leaves)
    && forall a: nat, i: nat :: a in leaves && IsSlot(g, a, i) ==> (a, i) in slots
  }

  lemma {:induction false} FlattenPaired(g: Graph, leaves: seq<nat>) returns (slots: seq<(nat, nat)>)
    requires LeavesOk(g, leaves) && Distinct(leaves)
    ensures Paired(g, leaves, Flatten(g, leaves), slots)
  {
    if leaves == [] {
      slots := [];
    } else {
      var n := |leaves| - 1;
      var before := FlattenPaired(g, leaves[..n]);
      var a := leaves[n];
      assert IsLeaf(g, a);
      var node := g(a).value;
      var count := Min(|node.keys|, |node.children|);
      var last: seq<(nat, nat)> := seq(count, i requires 0 <= i < count => (a, i));
      slots := before + last;
      var records := Flatten(g, leaves);
      forall p | 0 <= p < |slots| ensures FromSlot(g, slots[p], records[p]) && slots[p].0 in leaves {
        if p < |before| {
          assert FromSlot(g, before[p], Flatten(g, leaves[..n])[p]);
        }
      }
      forall b: nat, i: nat | b in leaves && IsSlot(g, b, i) ensures (b, i) in slots {
        if b == a {
          assert last[i] == (b, i);
        } else {
          assert b in leaves[..n] && (b, i) in before;
        }
      }
      forall p, q | 0 <= p < q < |slots| ensures slots[p] != slots[q] {
        if p < |before| <= q {
          assert slots[p].0 in leaves[..n] && slots[q].0 == a;
        }
      }
    }
  }

  /** Sorting the records takes their slots along. */
  lemma {:induction false} SortedPaired(g: Graph, leaves: seq<nat>, records: seq<ChunkRecord>, sorted: seq<ChunkRecord>, order: seq<nat>)
    returns (slots: seq<(nat, nat)>)
    requires LeavesOk(g, leaves) && Distinct(leaves) && records == Flatten(g, leaves) && Arranges(order, records, sorted)
    ensures Paired(g, leaves, sorted, slots)
  {
    hide FromSlot;
    hide Flatten;
    hide IsSlot;
    var before := FlattenPaired(g, leaves);
    slots := seq(|order|, p requires 0 <= p < |order| => before[order[p]]);
    forall p, q | 0 <= p < q < |slots| ensures slots[p] != slots[q] {
      assert before[Min(order[p], order[q])] != before[Max(order[p], order[q])];
    }
    forall a: nat, i: nat | a in leaves && IsSlot(g, a, i) ensures (a, i) in slots {
      var q :| 0 <= q < |before| && before[q] == (a, i);
      assert q in order;
      var p :| 0 <= p < |order| && order[p] == q;
      assert slots[p] == (a, i);
    }
  }

  /** Walk a chunk B-tree and return every chunk it indexes. */
  method ReadChunkIndex(g: Graph, root: nat)
    returns (r: Result<seq<ChunkRecord>>, ghost leaves: seq<nat>, ghost visited: set<nat>, ghost slots: seq<(nat, nat)>)
    // Success: the records of exactly the reachable leaves, each leaf once, sorted by offset.
    ensures r.Ok? ==> AreReachableLeaves(g, root, leaves)
    ensures r.Ok? ==> (forall a :: Reachable(g, root, a) ==> Good(g, a))
    ensures r.Ok? ==> (forall a :: Reachable(g, root, a) ==> g(a).Ok? && g(a).value.nodeType == 1)
    ensures r.Ok? ==> Sorted(r.value) && multiset(r.value) == multiset(Flatten(g, leaves))
    // Record by record: a key of a reachable leaf with the child of the same number, each such pair once.
    ensures r.Ok? ==> |slots| == |r.value| && Distinct(slots)
    ensures r.Ok? ==> forall p :: 0 <= p < |slots| ==>
              var (a, i) := slots[p];
              && Reachable(g, root, a) && IsSlot(g, a, i)
              && r.value[p] == ChunkRecord(g(a).value.keys[i].size, g(a).value.keys[i].filterMask, g(a).value.keys[i].offset,
                                           g(a).value.children[i])
    ensures r.Ok? ==> forall a: nat, i: nat :: Reachable(g, root, a) && IsSlot(g, a, i) ==> (a, i) in slots
    // Failure: some reachable node is unreadable or of the wrong type, or there are implausibly many nodes or records.
    ensures r.Err? ==>
              || (exists a :: Reachable(g, root, a) && !Good(g, a))
              || ((forall a :: a in visited ==> Reachable(g, root, a))
                  && (|visited| > 0x10_0000
                      || ((forall i :: 0 <= i < |leaves| ==> leaves[i] in visited && IsLeaf(g, leaves[i]))
                          && |Flatten(g, leaves)| > 0x10_0000)))
    // And neither limit is met by a success before the last node.
    ensures r.Ok? ==> |visited| <= 0x10_0001 && forall a :: a in visited <==> Reachable(g, root, a)
  {
    hide WalkOk;
    hide Flatten;
    var out: seq<ChunkRecord> := [];
    var seen: set<nat> := {};
    var stack := [root];
    leaves, visited, slots := [], {}, [];
    WalkStart(g, root);
    while |stack| > 0
      invariant visited == seen && |seen| <= MAX_NODES + 1
      invariant WalkOk(g, root, seen, stack, leaves)
      invariant LeavesOk(g, leaves) && out == Flatten(g, leaves)
      decreases MAX_NODES + 1 - |seen|, |stack|
    {
      WalkFacts(g, root, seen, stack, leaves);
      var address := stack[|stack| - 1];
      if |out| > MAX_NODES || |seen| > MAX_NODES {
        return Err(Malformed), leaves, visited, slots;
      }
      if address in seen {
        WalkSkip(g, root, seen, stack, leaves);
        stack := stack[..|stack| - 1];
        continue;
      }
      var node := g(address);
      if node.Err? {
        return Err(node.error), leaves, visited, slots;
      }
      if node.value.nodeType != NODE_TYPE_CHUNK {
        return Err(Malformed), leaves, visited, slots;
      }
      if node.value.level == 0 {
        WalkLeaf(g, root, seen, stack, leaves);
        FlattenPush(g, leaves, address);
        leaves := leaves + [address];
        out := out + node.value.Records();
        stack := stack[..|stack| - 1];
      } else {
        WalkInternal(g, root, seen, stack, leaves);
        stack := stack[..|stack| - 1] + node.value.children;
      }
      seen := seen + {address};
      visited := seen;
    }
    assert stack == [];
    WalkDone(g, root, seen, leaves);
    WalkGood(g, root, seen, leaves);
    var sorted, order := SortByOffset(out);
    slots := SortedPaired(g, leaves, out, sorted, order);
    SlotsReachable(g, root, leaves, sorted, slots);
    return Ok(sorted), leaves, visited, slots;
  }

  lemma {:induction false} SlotsReachable(g: Graph, root: nat, leaves: seq<nat>, records: seq<ChunkRecord>, slots: seq<(nat, nat)>)
    requires AreReachableLeaves(g, root, leaves) && Paired(g, leaves, records, slots)
    ensures |slots| == |records| && Distinct(slots)
    ensures forall p :: 0 <= p < |slots| ==>
              var (a, i) := slots[p];
              && Reachable(g, root, a) && IsSlot(g, a, i)
              && records[p] == ChunkRecord(g(a).value.keys[i].size, g(a).value.keys[i].filterMask, g(a).value.keys[i].offset,
                                           g(a).value.children[i])
    ensures forall a: nat, i: nat :: Reachable(g, root, a) && IsSlot(g, a, i) ==> (a, i) in slots
  {
    hide Reachable;
    forall a: nat, i: nat | Reachable(g, root, a) && IsSlot(g, a, i) ensures (a, i) in slots {
      assert IsLeaf(g, a);
    }
  }

  ghost predicate LeavesOk(g: Graph, leaves: seq<nat>) {
    forall i :: 0 <= i < |leaves| ==> IsLeaf(g, leaves[i])
  }

  lemma {:induction false} WalkStart(g: Graph, root: nat)
    ensures WalkOk(g, root, {}, [root], []) && Flatten(g, []) == []
  {
    RootReachable(g, root);
  }

  lemma {:induction false} WalkFacts(g: Graph, root: nat, visited: set<nat>, stack: seq<nat>, leaves: seq<nat>)
    requires WalkOk(g, root, visited, stack, leaves) && |stack| > 0
    ensures Reachable(g, root, stack[|stack| - 1])
    ensures forall a :: a in visited ==> Reachable(g, root, a)
    ensures forall i :: 0 <= i < |leaves| ==> leaves[i] in visited && IsLeaf(g, leaves[i])
  {
  }

  lemma {:induction false} WalkGood(g: Graph, root: nat, visited: set<nat>, leaves: seq<nat>)
    requires WalkOk(g, root, visited, [], leaves) && forall a :: Reachable(g, root, a) <==> a in visited
    ensures forall a :: Reachable(g, root, a) ==> Good(g, a)
  {
  }

  lemma {:induction false} FlattenPush(g: Graph, leaves: seq<nat>, a: nat)
    requires LeavesOk(g, leaves) && IsLeaf(g, a)
    ensures LeavesOk(g, leaves + [a]) && Flatten(g, leaves + [a]) == Flatten(g, leaves) + g(a).value.Records()
  {
    assert (leaves + [a])[..|leaves|] == leaves;
  }
}
