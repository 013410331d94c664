/** Merging neighbouring byte ranges into requests and slicing the answers apart again
    (`crates/oxcdf-hdf5/src/io.rs`). */
module Coalesce {
  import opened Basics
  import opened Arith

  datatype Range = Range(offset: nat, len: nat)

  datatype IoConfig = IoConfig(maxGap: nat, maxRequestSize: nat)

  /** Original range `index` sits `at` bytes into a request. */
  datatype Part = Part(index: nat, at: nat, len: nat)

  datatype Request = Request(offset: nat, len: nat, parts: seq<Part>)

  // ---- the order the ranges are taken in ----

  predicate Before(ranges: seq<Range>, i: nat, j: nat)
    requires i < |ranges| && j < |ranges|
  {
    ranges[i].offset < ranges[j].offset || (ranges[i].offset == ranges[j].offset && i < j)
  }

  /** A stable sort by offset of the first `n` indices: each once, ties by position. */
  ghost predicate IsOrder(order: seq<nat>, ranges: seq<Range>, n: nat) {
    n <= |ranges| && |order| == n
    && (forall k :: 0 <= k < |order| ==> order[k] < n)
    && (forall i :: 0 <= i < n ==> i in order)
    && Ascending(order, ranges)
  }

  /** Insert index `n`, larger than every index already present. */
  function Insert(order: seq<nat>, ranges: seq<Range>, n: nat): (r: seq<nat>)
    requires n < |ranges| && forall k :: 0 <= k < |order| ==> order[k] < n
    ensures |r| == |order| + 1 && forall i :: i in r <==> i == n || i in order
  {
    if order == [] then [n]
    else if ranges[order[0]].offset <= ranges[n].offset then [order[0]] + Insert(order[1..], ranges, n)
    else [n] + order
  }

  ghost predicate Ascending(order: seq<nat>, ranges: seq<Range>) {
    (forall k :: 0 <= k < |order| ==> order[k] < |ranges|)
    && forall j, k :: 0 <= j < k < |order| ==> Before(ranges, order[j], order[k])
  }

  lemma {:induction false} InsertKeepsOrder(order: seq<nat>, ranges: seq<Range>, n: nat)
    requires n < |ranges| && Ascending(order, ranges) && forall k :: 0 <= k < |order| ==> order[k] < n
    ensures Ascending(Insert(order, ranges, n), ranges)
  {
    var r := Insert(order, ranges, n);
    if order != [] {
      forall i | i in order ensures i == order[0] || Before(ranges, order[0], i) {
        var k :| 0 <= k < |order| && order[k] == i;
      }
      if ranges[order[0]].offset <= ranges[n].offset {
        var rest := Insert(order[1..], ranges, n);
        InsertKeepsOrder(order[1..], ranges, n);
        forall k | 0 <= k < |rest| ensures Before(ranges, order[0], rest[k]) {
          assert rest[k] in rest;
          if rest[k] != n {
            var j :| 0 <= j < |order[1..]| && order[1..][j] == rest[k];
            assert Before(ranges, order[0], order[j + 1]);
          }
        }
        assert r == [order[0]] + rest;
      } else {
        forall k | 0 <= k < |order| ensures Before(ranges, n, order[k]) {
          assert order[k] in order;
        }
        assert r == [n] + order;
      }
    }
  }

  method SortByOffset(ranges: seq<Range>) returns (order: seq<nat>)
    ensures IsOrder(order, ranges, |ranges|)
    ensures |order| == |ranges| && (forall i :: 0 <= i < |ranges| ==> i in order) && forall k :: 0 <= k < |order| ==> order[k] < |ranges|
    ensures forall j, k :: 0 <= j < k < |order| ==>
              || ranges[order[j]].offset < ranges[order[k]].offset
              || (ranges[order[j]].offset == ranges[order[k]].offset && order[j] < order[k])
  {
    order := [];
    for n := 0 to |ranges|
      invariant IsOrder(order, ranges, n)
    {
      InsertKeepsOrder(order, ranges, n);
      order := Insert(order, ranges, n);
      forall k | 0 <= k < |order| ensures order[k] < n + 1 {
        assert order[k] in order;
      }
    }
  }

  // ---- the plan ----

  /** The part is its whole range, at its own place in the request; an empty range is recorded at the start. */
  predicate PartOk(p: Part, q: Request, ranges: seq<Range>) {
    p.index < |ranges| && p.len == ranges[p.index].len && p.at + p.len <= q.len
    && (if p.len > 0 then q.offset + p.at == ranges[p.index].offset else p.at == 0)
  }

  predicate PartsOk(q: Request, ranges: seq<Range>) {
    forall k :: 0 <= k < |q.parts| ==> PartOk(q.parts[k], q, ranges)
  }

  /** The request ends where one of its ranges ends, and begins where its first one begins. */
  predicate Tight(q: Request, ranges: seq<Range>) {
    && (exists k :: 0 <= k < |q.parts| && q.parts[k].index < |ranges|
         && ranges[q.parts[k].index].offset + ranges[q.parts[k].index].len == q.offset + q.len)
    && |q.parts| > 0 && q.parts[0].index < |ranges| && ranges[q.parts[0].index].offset == q.offset
  }

  /** Beyond the size limit a request is its first range, with at most empty ones after it. */
  predicate WithinLimit(q: Request, config: IoConfig) {
    q.len > config.maxRequestSize ==>
      && |q.parts| > 0 && q.parts[0].at == 0 && q.parts[0].len == q.len
      && forall j :: 0 < j < |q.parts| ==> q.parts[j].len == 0
  }

  /** How far into the request its parts reach. */
  function Reach(parts: seq<Part>): nat {
    if parts == [] then 0
    else
      var n := |parts| - 1;
      Max(Reach(parts[..n]), parts[n].at + parts[n].len)
  }

  /** Every part that was merged lies at most the tolerated gap beyond the parts before it. */
  predicate Close(q: Request, config: IoConfig) {
    q.len == Reach(q.parts) && |q.parts| > 0 && q.parts[0].at == 0
    && forall k :: 0 < k < |q.parts| && q.parts[k].len > 0 ==> q.parts[k].at <= Reach(q.parts[..k]) + config.maxGap
  }

  predicate RequestOk(q: Request, ranges: seq<Range>, config: IoConfig) {
    PartsOk(q, ranges) && Tight(q, ranges) && WithinLimit(q, config) && Close(q, config)
  }

  /** Two neighbouring requests stay apart only because the gap or the merged size is over its limit. */
  predicate Apart(a: Request, b: Request, config: IoConfig) {
    |b.parts| > 0 && b.parts[0].len > 0 && a.offset <= b.offset
    && (SaturatingSub(b.offset, a.offset + a.len) > config.maxGap
        || Max(b.offset + b.parts[0].len, a.offset + a.len) - a.offset > config.maxRequestSize)
  }

  /** The original ranges in the order the plan names them. */
  function Indexes(plan: seq<Request>): seq<nat> {
    if plan == [] then [] else Indexes(plan[..|plan| - 1]) + PartIndexes(plan[|plan| - 1].parts)
  }

  function PartIndexes(parts: seq<Part>): seq<nat> {
    seq(|parts|, i requires 0 <= i < |parts| => parts[i].index)
  }

  ghost predicate IsPlan(plan: seq<Request>, order: seq<nat>, ranges: seq<Range>, config: IoConfig) {
    Indexes(plan) == order
    && (forall i :: 0 <= i < |plan| ==> RequestOk(plan[i], ranges, config))
    && (forall i :: 0 < i < |plan| ==> Apart(plan[i - 1], plan[i], config))
  }

  lemma {:induction false} IndexesPush(plan: seq<Request>, q: Request)
    ensures Indexes(plan + [q]) == Indexes(plan) + PartIndexes(q.parts)
  {
    assert (plan + [q])[..|plan|] == plan;
  }

  lemma {:induction false} IndexesGrow(plan: seq<Request>, q: Request, p: Part)
    requires |plan| > 0 && q.parts == plan[|plan| - 1].parts + [p]
    ensures Indexes(plan[..|plan| - 1] + [q]) == Indexes(plan) + [p.index]
  {
    IndexesPush(plan[..|plan| - 1], q);
    assert PartIndexes(q.parts) == PartIndexes(plan[|plan| - 1].parts) + [p.index];
  }

  lemma {:induction false} FreshRequest(i: nat, ranges: seq<Range>, config: IoConfig)
    requires i < |ranges|
    ensures RequestOk(Request(ranges[i].offset, ranges[i].len, [Part(i, 0, ranges[i].len)]), ranges, config)
  {
    var q := Request(ranges[i].offset, ranges[i].len, [Part(i, 0, ranges[i].len)]);
    assert q.parts[0] == Part(i, 0, ranges[i].len);
    assert Reach(q.parts) == ranges[i].len;
  }

  lemma {:induction false} TightGrows(q: Request, r: Request, p: Part, ranges: seq<Range>)
    requires Tight(q, ranges) && r.parts == q.parts + [p] && r.offset == q.offset && p.index < |ranges|
    requires r.len == q.len || ranges[p.index].offset + ranges[p.index].len == r.offset + r.len
    ensures Tight(r, ranges)
  {
    var a :| 0 <= a < |q.parts| && q.parts[a].index < |ranges|
      && ranges[q.parts[a].index].offset + ranges[q.parts[a].index].len == q.offset + q.len;
    assert r.parts[a] == q.parts[a] && r.parts[0] == q.parts[0] && r.parts[|q.parts|] == p;
  }

  lemma {:induction false} CloseGrows(q: Request, r: Request, p: Part, config: IoConfig)
    requires Close(q, config) && r.parts == q.parts + [p] && r.len == Max(q.len, p.at + p.len)
    requires p.len > 0 ==> p.at <= q.len + config.maxGap
    ensures Close(r, config)
  {
    var n := |q.parts|;
    assert r.parts[..n] == q.parts;
    forall k | 0 < k < |r.parts| && r.parts[k].len > 0 ensures r.parts[k].at <= Reach(r.parts[..k]) + config.maxGap {
      if k < n {
        assert r.parts[..k] == q.parts[..k] && r.parts[k] == q.parts[k];
      }
    }
  }

  lemma {:induction false} PartsGrow(q: Request, r: Request, p: Part, ranges: seq<Range>)
    requires PartsOk(q, ranges) && r.parts == q.parts + [p] && r.offset == q.offset && r.len >= q.len && PartOk(p, r, ranges)
    ensures PartsOk(r, ranges)
  {
    forall k | 0 <= k < |r.parts| ensures PartOk(r.parts[k], r, ranges) {
      assert k < |q.parts| ==> PartOk(q.parts[k], q, ranges);
    }
  }

  lemma {:induction false} LimitGrows(q: Request, r: Request, p: Part, config: IoConfig)
    requires WithinLimit(q, config) && r.parts == q.parts + [p] && r.len == q.len && p.len == 0
    ensures WithinLimit(r, config)
  {
    if q.len > config.maxRequestSize {
      assert r.parts[0] == q.parts[0];
    }
  }

  /** Recording an empty range against a request. */
  lemma {:induction false} EmptyPart(q: Request, i: nat, ranges: seq<Range>, config: IoConfig)
    requires RequestOk(q, ranges, config) && i < |ranges| && ranges[i].len == 0
    ensures RequestOk(q.(parts := q.parts + [Part(i, 0, 0)]), ranges, config)
  {
    hide PartsOk;
    hide Tight;
    hide WithinLimit;
    hide Close;
    var p := Part(i, 0, 0);
    var r := q.(parts := q.parts + [p]);
    PartsGrow(q, r, p, ranges);
    TightGrows(q, r, p, ranges);
    LimitGrows(q, r, p, config);
    CloseGrows(q, r, p, config);
  }

  /** Extending a request over one more range, within the gap and the size limit. */
  lemma {:induction false} MergedPart(q: Request, i: nat, ranges: seq<Range>, config: IoConfig)
    requires RequestOk(q, ranges, config) && i < |ranges| && ranges[i].len > 0
    requires q.offset <= ranges[i].offset <= q.offset + q.len + config.maxGap
    requires Max(ranges[i].offset + ranges[i].len, q.offset + q.len) - q.offset <= config.maxRequestSize
    ensures var len := Max(ranges[i].offset + ranges[i].len, q.offset + q.len) - q.offset;
            RequestOk(Request(q.offset, len, q.parts + [Part(i, ranges[i].offset - q.offset, ranges[i].len)]), ranges, config)
  {
    hide PartsOk;
    hide Tight;
    hide Close;
    var len := Max(ranges[i].offset + ranges[i].len, q.offset + q.len) - q.offset;
    var p := Part(i, ranges[i].offset - q.offset, ranges[i].len);
    var r := Request(q.offset, len, q.parts + [p]);
    PartsGrow(q, r, p, ranges);
    TightGrows(q, r, p, ranges);
    CloseGrows(q, r, p, config);
  }

  /** What the plan gains from one range: a part of its last request, or a request of its own. */
  method TakeRange(plan: seq<Request>, i: nat, ranges: seq<Range>, config: IoConfig, ghost order: seq<nat>)
    returns (next: seq<Request>)
    requires i < |ranges| && IsPlan(plan, order, ranges, config)
    requires forall j :: 0 <= j < |plan| ==> plan[j].offset <= ranges[i].offset
    ensures IsPlan(next, order + [i], ranges, config)
    ensures forall j :: 0 <= j < |next| ==> next[j].offset <= ranges[i].offset
  {
    hide RequestOk;
    hide Indexes;
    var offset, len := ranges[i].offset, ranges[i].len;
    if |plan| > 0 {
      var last := plan[|plan| - 1];
      if len == 0 {
        EmptyPart(last, i, ranges, config);
        next := ReplaceLast(plan, last.(parts := last.parts + [Part(i, 0, 0)]), Part(i, 0, 0), ranges, config, order);
        return;
      }
      var end, lastEnd := offset + len, last.offset + last.len;
      var gap := SaturatingSub(offset, lastEnd);
      var mergedLen := Max(end, lastEnd) - last.offset;
      if offset >= last.offset && gap <= config.maxGap && mergedLen <= config.maxRequestSize {
        MergedPart(last, i, ranges, config);
        var part := Part(i, offset - last.offset, len);
        next := ReplaceLast(plan, Request(last.offset, mergedLen, last.parts + [part]), part, ranges, config, order);
        return;
      }
    }
    var q := Request(offset, len, [Part(i, 0, len)]);
    FreshRequest(i, ranges, config);
    IndexesPush(plan, q);
    next := plan + [q];
  }

  method ReplaceLast(plan: seq<Request>, q: Request, p: Part, ghost ranges: seq<Range>, ghost config: IoConfig,
                     ghost order: seq<nat>) returns (next: seq<Request>)
    requires IsPlan(plan, order, ranges, config) && |plan| > 0
    requires q.offset == plan[|plan| - 1].offset && q.parts == plan[|plan| - 1].parts + [p]
    requires RequestOk(q, ranges, config)
    ensures IsPlan(next, order + [p.index], ranges, config)
    ensures |next| == |plan| && forall j :: 0 <= j < |plan| ==> next[j].offset == plan[j].offset
  {
    hide RequestOk;
    hide Indexes;
    IndexesGrow(plan, q, p);
    next := plan[..|plan| - 1] + [q];
  }

  /** Plan the reads: every range covered exactly once, in offset order. */
  method Plan(ranges: seq<Range>, config: IoConfig) returns (plan: seq<Request>)
    ensures IsOrder(Indexes(plan), ranges, |ranges|) && IsPlan(plan, Indexes(plan), ranges, config)
  {
    hide IsPlan;
    var sorted := SortByOffset(ranges);
    plan := [];
    EmptyPlan(ranges, config);
    for k := 0 to |sorted|
      invariant IsPlan(plan, sorted[..k], ranges, config)
      invariant forall j, m :: 0 <= j < |plan| && k <= m < |sorted| ==> plan[j].offset <= ranges[sorted[m]].offset
    {
      assert sorted[..k + 1] == sorted[..k] + [sorted[k]];
      forall m | k < m < |sorted| ensures ranges[sorted[k]].offset <= ranges[sorted[m]].offset {
        assert Before(ranges, sorted[k], sorted[m]);
      }
      plan := TakeRange(plan, sorted[k], ranges, config, sorted[..k]);
    }
    assert sorted[..|sorted|] == sorted;
    PlanOrder(plan, sorted, ranges, config);
  }

  lemma {:induction false} PlanOrder(plan: seq<Request>, order: seq<nat>, ranges: seq<Range>, config: IoConfig)
    requires IsPlan(plan, order, ranges, config)
    ensures Indexes(plan) == order
  {
  }

  lemma {:induction false} EmptyPlan(ranges: seq<Range>, config: IoConfig)
    ensures IsPlan([], [], ranges, config)
  {
  }

  // ---- scatter ----

  ghost predicate InFile(ranges: seq<Range>, size: nat) {
    forall i :: 0 <= i < |ranges| ==> ranges[i].offset + ranges[i].len <= size
  }

  /** Requests for ranges inside the file stay inside the file. */
  lemma {:induction false} RequestInFile(q: Request, ranges: seq<Range>, config: IoConfig, size: nat)
    requires RequestOk(q, ranges, config) && InFile(ranges, size)
    ensures q.offset + q.len <= size
  {
  }

  ghost predicate Fetched(plan: seq<Request>, fetched: seq<seq<byte>>, file: seq<byte>) {
    |fetched| == |plan|
    && forall i :: 0 <= i < |plan| ==> Ok(fetched[i]) == ReadFile(file, plan[i].offset, plan[i].len)
  }

  /** The bytes a range asked for. An empty range asks for none, wherever it points. */
  function BytesOf(r: Range, file: seq<byte>): Result<seq<byte>> {
    if r.len == 0 then Ok([]) else ReadFile(file, r.offset, r.len)
  }

  lemma {:induction false} PartBytes(p: Part, q: Request, ranges: seq<Range>, buffer: seq<byte>, file: seq<byte>)
    requires PartOk(p, q, ranges) && Ok(buffer) == ReadFile(file, q.offset, q.len)
    ensures p.at + p.len <= |buffer| && Ok(buffer[p.at..p.at + p.len]) == BytesOf(ranges[p.index], file)
  {
    if p.len > 0 {
      var r := ranges[p.index];
      SliceOfSlice(file, q.offset, q.offset + q.len, p.at, p.at + p.len);
      assert buffer[p.at..p.at + p.len] == file[r.offset..r.offset + r.len];
    } else {
      assert buffer[p.at..p.at + p.len] == [];
    }
  }

  /** `piece` is the slice that part `k` of request `n` names for range `i`. */
  ghost predicate IsPiece(requests: seq<Request>, fetched: seq<seq<byte>>, n: nat, k: nat, i: nat, piece: seq<byte>) {
    n < |requests| == |fetched| && k < |requests[n].parts| && requests[n].parts[k].index == i
    && requests[n].parts[k].at + requests[n].parts[k].len <= |fetched[n]|
    && piece == fetched[n][requests[n].parts[k].at..requests[n].parts[k].at + requests[n].parts[k].len]
  }

  predicate PartFits(p: Part, buffer: seq<byte>, count: nat) {
    p.index < count && p.at + p.len <= |buffer|
  }

  ghost predicate Fits(requests: seq<Request>, fetched: seq<seq<byte>>, count: nat) {
    |requests| == |fetched|
    && forall n :: 0 <= n < |requests| ==>
      forall k :: 0 <= k < |requests[n].parts| ==> PartFits(requests[n].parts[k], fetched[n], count)
  }

  /** Every planned range holds the slice one of its parts names, and no other range holds anything. */
  ghost predicate Scattered(out: seq<seq<byte>>, done: seq<nat>, requests: seq<Request>, fetched: seq<seq<byte>>) {
    forall i :: 0 <= i < |out| ==>
      if i in done then exists n, k :: IsPiece(requests, fetched, n, k, i, out[i]) else out[i] == []
  }

  /** Slice fetched buffers back into one buffer per original range. */
  method Scatter(requests: seq<Request>, fetched: seq<seq<byte>>, count: nat) returns (r: Result<seq<seq<byte>>>)
    ensures r.Ok? <==> Fits(requests, fetched, count)
    ensures r.Ok? ==> |r.value| == count && Scattered(r.value, Indexes(requests), requests, fetched)
  {
    hide Indexes;
    if |requests| != |fetched| {
      return Err(Malformed);
    }
    var out: seq<seq<byte>> := seq(count, _ => []);
    ghost var done: seq<nat> := [];
    NothingDone();
    for n := 0 to |requests|
      invariant |out| == count && Fits(requests[..n], fetched[..n], count)
      invariant done == Indexes(requests[..n]) && Scattered(out, done, requests, fetched)
    {
      var request, buffer := requests[n], fetched[n];
      ghost var before := done;
      for k := 0 to |request.parts|
        invariant |out| == count && forall j :: 0 <= j < k ==> PartFits(request.parts[j], buffer, count)
        invariant done == before + PartIndexes(request.parts[..k]) && Scattered(out, done, requests, fetched)
      {
        var part := request.parts[k];
        if part.index >= count || part.at + part.len > |buffer| {
          assert !PartFits(requests[n].parts[k], fetched[n], count);
          return Err(Malformed);
        }
        out := out[part.index := buffer[part.at..part.at + part.len]];
        assert IsPiece(requests, fetched, n, k, part.index, out[part.index]);
        assert PartIndexes(request.parts[..k + 1]) == PartIndexes(request.parts[..k]) + [part.index];
        done := done + [part.index];
      }
      assert request.parts[..|request.parts|] == request.parts;
      assert requests[..n + 1] == requests[..n] + [request];
      IndexesPush(requests[..n], request);
    }
    assert requests[..|requests|] == requests && fetched[..|fetched|] == fetched;
    return Ok(out);
  }

  /** Scattering honest answers to a plan gives each original range its own bytes. */
  lemma {:induction false} ScatterPlan(plan: seq<Request>, order: seq<nat>, ranges: seq<Range>, config: IoConfig,
                    fetched: seq<seq<byte>>, file: seq<byte>)
    requires IsOrder(order, ranges, |ranges|) && IsPlan(plan, order, ranges, config) && Fetched(plan, fetched, file)
    ensures Fits(plan, fetched, |ranges|)
    ensures forall out :: |out| == |ranges| && Scattered(out, Indexes(plan), plan, fetched) ==>
              forall i :: 0 <= i < |ranges| ==> Ok(out[i]) == BytesOf(ranges[i], file)
  {
    hide Indexes;
    forall n, k | 0 <= n < |plan| && 0 <= k < |plan[n].parts|
      ensures PartFits(plan[n].parts[k], fetched[n], |ranges|)
      ensures var p := plan[n].parts[k]; Ok(fetched[n][p.at..p.at + p.len]) == BytesOf(ranges[p.index], file)
    {
      assert RequestOk(plan[n], ranges, config);
      PartBytes(plan[n].parts[k], plan[n], ranges, fetched[n], file);
    }
    forall out, i | |out| == |ranges| && Scattered(out, Indexes(plan), plan, fetched) && 0 <= i < |ranges|
      ensures Ok(out[i]) == BytesOf(ranges[i], file)
    {
      var n, k :| IsPiece(plan, fetched, n, k, i, out[i]);
    }
  }

  lemma {:induction false} NothingDone()
    ensures Indexes([]) == []
  {
  }

  // ---- when a batch can be answered ----

  /** Every range with bytes lies in the file. Without pages to serve it, a batch also needs one range that starts there. */
  ghost predicate Answerable(ranges: seq<Range>, size: nat, paged: bool) {
    (forall i :: 0 <= i < |ranges| && ranges[i].len > 0 ==> ranges[i].offset + ranges[i].len <= size)
    && (paged || ranges == [] || exists i :: 0 <= i < |ranges| && ranges[i].offset <= size)
  }

  ghost predicate PlanInFile(plan: seq<Request>, size: nat) {
    forall n :: 0 <= n < |plan| ==> plan[n].offset + plan[n].len <= size
  }

  /** The part of the plan that serves a range. */
  lemma {:induction false} PartOf(plan: seq<Request>, i: nat) returns (n: nat, k: nat)
    requires i in Indexes(plan)
    ensures n < |plan| && k < |plan[n].parts| && plan[n].parts[k].index == i
  {
    var m := |plan| - 1;
    if i in PartIndexes(plan[m].parts) {
      n := m;
      k :| 0 <= k < |PartIndexes(plan[m].parts)| && PartIndexes(plan[m].parts)[k] == i;
    } else {
      n, k := PartOf(plan[..m], i);
    }
  }

  /** Some part reaches as far as the parts reach. */
  lemma {:induction false} ReachedBy(parts: seq<Part>) returns (k: nat)
    requires Reach(parts) > 0
    ensures k < |parts| && parts[k].at + parts[k].len == Reach(parts)
  {
    var n := |parts| - 1;
    if parts[n].at + parts[n].len == Reach(parts) {
      k := n;
    } else {
      k := ReachedBy(parts[..n]);
    }
  }

  lemma {:induction false} RequestBounded(plan: seq<Request>, n: nat, order: seq<nat>, ranges: seq<Range>, config: IoConfig, size: nat)
    requires IsOrder(order, ranges, |ranges|) && IsPlan(plan, order, ranges, config) && n < |plan|
    requires Answerable(ranges, size, false)
    ensures plan[n].offset + plan[n].len <= size
  {
    hide Indexes;
    var q := plan[n];
    assert RequestOk(q, ranges, config);
    if q.len > 0 {
      var k := ReachedBy(q.parts);
      assert PartOk(q.parts[k], q, ranges);
    } else {
      assert PartOk(q.parts[0], q, ranges);
      assert n > 0 ==> Apart(plan[n - 1], plan[n], config);
      FirstPart(plan, order, ranges, config);
      var i :| 0 <= i < |ranges| && ranges[i].offset <= size;
      assert i in order;
      var k :| 0 <= k < |order| && order[k] == i;
      assert k > 0 ==> Before(ranges, order[0], order[k]);
    }
  }

  lemma {:induction false} FirstPart(plan: seq<Request>, order: seq<nat>, ranges: seq<Range>, config: IoConfig)
    requires IsPlan(plan, order, ranges, config) && |plan| > 0
    ensures |order| > 0 && |plan[0].parts| > 0 && plan[0].parts[0].index == order[0]
  {
    hide PartsOk;
    hide WithinLimit;
    hide Tight;
    hide Reach;
    hide Apart;
    assert RequestOk(plan[0], ranges, config);
    FirstIndex(plan);
    assert plan[0].parts[0].index == PartIndexes(plan[0].parts)[0];
  }

  lemma {:induction false} FirstIndex(plan: seq<Request>)
    requires |plan| > 0 && |plan[0].parts| > 0
    ensures |Indexes(plan)| > 0 && Indexes(plan)[0] == PartIndexes(plan[0].parts)[0]
  {
    var n := |plan| - 1;
    if n > 0 {
      FirstIndex(plan[..n]);
    } else {
      assert plan[..0] == [] && Indexes(plan) == [] + PartIndexes(plan[0].parts);
    }
  }

  /** A plan stays in the file exactly when its batch is answerable. */
  lemma {:induction false} PlanInFileIff(plan: seq<Request>, order: seq<nat>, ranges: seq<Range>, config: IoConfig, size: nat)
    requires IsOrder(order, ranges, |ranges|) && IsPlan(plan, order, ranges, config)
    ensures PlanInFile(plan, size) <==> Answerable(ranges, size, false)
  {
    hide Indexes;
    hide Tight;
    hide WithinLimit;
    hide Close;
    hide Apart;
    if PlanInFile(plan, size) {
      forall i | 0 <= i < |ranges| && ranges[i].len > 0 ensures ranges[i].offset + ranges[i].len <= size {
        var n, k := PartOf(plan, i);
        assert RequestOk(plan[n], ranges, config) && PartOk(plan[n].parts[k], plan[n], ranges);
      }
      if ranges != [] {
        var n, k := PartOf(plan, 0);
        FirstStarts(plan[0], ranges, config);
      }
    } else if Answerable(ranges, size, false) {
      forall n | 0 <= n < |plan| ensures plan[n].offset + plan[n].len <= size {
        RequestBounded(plan, n, order, ranges, config, size);
      }
    }
  }

  lemma {:induction false} FirstStarts(q: Request, ranges: seq<Range>, config: IoConfig)
    requires RequestOk(q, ranges, config)
    ensures exists i :: 0 <= i < |ranges| && ranges[i].offset == q.offset
  {
  }

  /** Fetch a batch of ranges through the coalescer: each range gets its own bytes. */
  method ReadRanges(file: seq<byte>, ranges: seq<Range>, config: IoConfig) returns (r: Result<seq<seq<byte>>>)
    ensures r.Ok? <==> Answerable(ranges, |file|, false)
    ensures r.Ok? ==> |r.value| == |ranges|
                      && forall i :: 0 <= i < |ranges| ==> Ok(r.value[i]) == BytesOf(ranges[i], file)
    ensures r.Ok? ==> forall i :: 0 <= i < |ranges| ==>
              && |r.value[i]| == ranges[i].len
              && (ranges[i].len > 0 ==>
                    && ranges[i].offset + ranges[i].len <= |file|
                    && r.value[i] == file[ranges[i].offset..ranges[i].offset + ranges[i].len])
  {
    hide PartsOk;
    hide Tight;
    hide WithinLimit;
    hide Close;
    hide Apart;
    hide Indexes;
    hide IsOrder;
    hide Answerable;
    var plan := Plan(ranges, config);
    PlanInFileIff(plan, Indexes(plan), ranges, config, |file|);
    var fetched: seq<seq<byte>> := [];
    for n := 0 to |plan|
      invariant Fetched(plan[..n], fetched, file)
    {
      var bytes := ReadFile(file, plan[n].offset, plan[n].len);
      if bytes.Err? {
        return Err(bytes.error);
      }
      fetched := fetched + [bytes.value];
    }
    assert plan[..|plan|] == plan;
    ScatterPlan(plan, Indexes(plan), ranges, config, fetched, file);
    r := Scatter(plan, fetched, |ranges|);
  }

  /** Every range is planned exactly once. */
  lemma {:induction false} EachRangeOnce(plan: seq<Request>, order: seq<nat>, ranges: seq<Range>, config: IoConfig, i: nat)
    requires IsOrder(order, ranges, |ranges|) && IsPlan(plan, order, ranges, config) && i < |ranges|
    ensures multiset(Indexes(plan))[i] == 1
  {
    hide RequestOk;
    hide Apart;
    hide Indexes;
    assert i in order;
    var k :| 0 <= k < |order| && order[k] == i;
    assert order == order[..k] + [i] + order[k + 1..];
    forall j | 0 <= j < |order| && j != k ensures order[j] != i {
      assert Before(ranges, order[Min(j, k)], order[Max(j, k)]);
    }
    assert i !in order[..k] && i !in order[k + 1..];
  }

  // ---- how many requests there are ----

  ghost predicate NamesRanges(order: seq<nat>, ranges: seq<Range>) {
    forall k :: 0 <= k < |order| ==> order[k] < |ranges|
  }

  /** How far ranges reach together; an empty one counts only where it comes first. */
  ghost function Frontier(order: seq<nat>, ranges: seq<Range>): nat
    requires |order| > 0 && NamesRanges(order, ranges)
  {
    var n, r := |order| - 1, ranges[order[|order| - 1]];
    if n == 0 then r.offset + r.len
    else if r.len == 0 then Frontier(order[..n], ranges)
    else Max(Frontier(order[..n], ranges), r.offset + r.len)
  }

  /** A range starts a new group when it has bytes and lies more than `gap` beyond all ranges before it. */
  ghost predicate Breaks(order: seq<nat>, ranges: seq<Range>, k: nat, gap: nat)
    requires 0 < k < |order| && NamesRanges(order, ranges)
  {
    ranges[order[k]].len > 0 && ranges[order[k]].offset > Frontier(order[..k], ranges) + gap
  }

  ghost function Groups(order: seq<nat>, ranges: seq<Range>, gap: nat): nat
    requires NamesRanges(order, ranges)
  {
    var n := |order| - 1;
    if n <= 0 then |order| else Groups(order[..n], ranges, gap) + if Breaks(order, ranges, n, gap) then 1 else 0
  }

  ghost predicate Ends(ranges: seq<Range>, limit: nat) {
    forall i :: 0 <= i < |ranges| ==> ranges[i].offset + ranges[i].len <= limit
  }

  /** The ranges named up to part `k` of request `n`. */
  ghost function Prefix(plan: seq<Request>, n: nat, k: nat): seq<nat>
    requires n < |plan| && k <= |plan[n].parts|
  {
    Indexes(plan[..n]) + PartIndexes(plan[n].parts[..k])
  }

  lemma {:induction false} PrefixStep(plan: seq<Request>, n: nat, k: nat)
    requires n < |plan| && k < |plan[n].parts|
    ensures Prefix(plan, n, k + 1) == Prefix(plan, n, k) + [plan[n].parts[k].index]
    ensures n == 0 ==> Prefix(plan, n, 0) == []
    ensures n > 0 ==> Prefix(plan, n, 0) == Prefix(plan, n - 1, |plan[n - 1].parts|)
  {
    var parts := plan[n].parts;
    assert PartIndexes(parts[..k + 1]) == PartIndexes(parts[..k]) + [parts[k].index];
    assert PartIndexes(parts[..0]) == [];
    if n > 0 {
      assert plan[..n][..n - 1] == plan[..n - 1] && plan[n - 1].parts[..|plan[n - 1].parts|] == plan[n - 1].parts;
    }
  }

  lemma {:induction false} PushGroup(order: seq<nat>, ranges: seq<Range>, i: nat, gap: nat)
    requires NamesRanges(order, ranges) && i < |ranges| && |order| > 0
    ensures NamesRanges(order + [i], ranges)
    ensures var r, reach := ranges[i], Frontier(order, ranges);
            && Frontier(order + [i], ranges) == (if r.len == 0 then reach else Max(reach, r.offset + r.len))
            && Groups(order + [i], ranges, gap)
               == Groups(order, ranges, gap) + (if r.len > 0 && r.offset > reach + gap then 1 else 0)
  {
    var next := order + [i];
    assert next[..|order|] == order;
  }

  /** After part `k` of request `n` the ranges taken form `n + 1` groups that reach as far as the request does. */
  lemma {:induction false} GroupsAt(plan: seq<Request>, order: seq<nat>, ranges: seq<Range>, config: IoConfig, n: nat, k: nat)
    requires IsPlan(plan, order, ranges, config) && Ends(ranges, config.maxRequestSize)
    requires n < |plan| && 0 < k <= |plan[n].parts|
    ensures var o := Prefix(plan, n, k);
            && |o| > 0 && NamesRanges(o, ranges) && Groups(o, ranges, config.maxGap) == n + 1
            && Frontier(o, ranges) == plan[n].offset + Reach(plan[n].parts[..k])
    decreases n, k
  {
    hide Indexes;
    hide WithinLimit;
    hide Frontier;
    hide Groups;
    var q := plan[n];
    var p := q.parts[k - 1];
    assert RequestOk(q, ranges, config) && PartOk(p, q, ranges);
    assert q.parts[..k][..k - 1] == q.parts[..k - 1];
    assert Reach(q.parts[..k]) == Max(Reach(q.parts[..k - 1]), p.at + p.len);
    PrefixStep(plan, n, k - 1);
    if k == 1 && n == 0 {
      OneGroup(p.index, ranges, config.maxGap);
      assert Prefix(plan, n, k) == [p.index];
    } else if k == 1 {
      assert Apart(plan[n - 1], q, config) && RequestOk(plan[n - 1], ranges, config);
      var a := plan[n - 1];
      assert a.parts[..|a.parts|] == a.parts;
      GroupsAt(plan, order, ranges, config, n - 1, |a.parts|);
      PushGroup(Prefix(plan, n, 0), ranges, p.index, config.maxGap);
      LastEnd(a, ranges, config);
    } else {
      GroupsAt(plan, order, ranges, config, n, k - 1);
      PushGroup(Prefix(plan, n, k - 1), ranges, p.index, config.maxGap);
    }
  }

  lemma {:induction false} OneGroup(i: nat, ranges: seq<Range>, gap: nat)
    requires i < |ranges|
    ensures NamesRanges([i], ranges) && Groups([i], ranges, gap) == 1
    ensures Frontier([i], ranges) == ranges[i].offset + ranges[i].len
  {
  }

  lemma {:induction false} LastEnd(q: Request, ranges: seq<Range>, config: IoConfig)
    requires RequestOk(q, ranges, config) && Ends(ranges, config.maxRequestSize)
    ensures q.offset + q.len <= config.maxRequestSize
  {
  }

  /** With no limit on the size of a request, the plan has exactly one request for each group. */
  lemma {:induction false} OneRequestPerGroup(plan: seq<Request>, order: seq<nat>, ranges: seq<Range>, config: IoConfig)
    requires IsPlan(plan, order, ranges, config) && Ends(ranges, config.maxRequestSize)
    ensures NamesRanges(order, ranges) && |plan| == Groups(order, ranges, config.maxGap)
  {
    hide Frontier;
    if plan != [] {
      var n := |plan| - 1;
      assert RequestOk(plan[n], ranges, config);
      GroupsAt(plan, order, ranges, config, n, |plan[n].parts|);
      assert plan[n].parts[..|plan[n].parts|] == plan[n].parts;
      assert plan[..n + 1] == plan;
    }
  }

  const NONE := IoConfig(0, U64_MAX)

  /** Range `k` has bytes and begins more than `gap` beyond the end of the one before it. */
  ghost predicate SeparateAt(order: seq<nat>, ranges: seq<Range>, k: nat, gap: nat)
    requires 0 < k < |order| && NamesRanges(order, ranges)
  {
    ranges[order[k]].len > 0 && ranges[order[k]].offset > ranges[order[k - 1]].offset + ranges[order[k - 1]].len + gap
  }

  ghost predicate Separate(order: seq<nat>, ranges: seq<Range>, n: nat, gap: nat)
    requires n <= |order| && NamesRanges(order, ranges)
  {
    forall k :: 0 < k < n ==> SeparateAt(order, ranges, k, gap)
  }

  lemma {:induction false} AllSeparate(order: seq<nat>, ranges: seq<Range>, n: nat, gap: nat)
    requires 0 < n <= |order| && NamesRanges(order, ranges)
    ensures Groups(order[..n], ranges, gap) <= n
    ensures Groups(order[..n], ranges, gap) == n <==> Separate(order, ranges, n, gap)
    ensures Groups(order[..n], ranges, gap) == n ==>
              Frontier(order[..n], ranges) == ranges[order[n - 1]].offset + ranges[order[n - 1]].len
  {
    hide Groups;
    hide Frontier;
    if n == 1 {
      assert order[..1] == [order[0]];
      OneGroup(order[0], ranges, gap);
    } else {
      var m := n - 1;
      AllSeparate(order, ranges, m, gap);
      assert NamesRanges(order[..m], ranges);
      PushGroup(order[..m], ranges, order[m], gap);
      assert order[..n] == order[..m] + [order[m]];
      SeparateStep(order, ranges, m, gap);
    }
  }

  lemma {:induction false} SeparateStep(order: seq<nat>, ranges: seq<Range>, m: nat, gap: nat)
    requires 0 < m < |order| && NamesRanges(order, ranges)
    ensures Separate(order, ranges, m + 1, gap) <==> Separate(order, ranges, m, gap) && SeparateAt(order, ranges, m, gap)
  {
  }

  /** The `NONE` policy is documented to merge nothing. It keeps all ranges apart exactly when, in order of offset, each
      after the first has bytes and a gap before it; ranges that touch, overlap or are empty are merged. */
  lemma {:induction false} NoneMergesTouching(plan: seq<Request>, order: seq<nat>, ranges: seq<Range>)
    requires IsPlan(plan, order, ranges, NONE) && Ends(ranges, U64_MAX)
    ensures NamesRanges(order, ranges) && |plan| == Groups(order, ranges, 0)
    ensures |plan| == |order| <==> Separate(order, ranges, |order|, 0)
  {
    OneRequestPerGroup(plan, order, ranges, NONE);
    if order != [] {
      AllSeparate(order, ranges, |order|, 0);
    }
    assert order[..|order|] == order;
  }

  /** Two ranges that touch, and a range with an empty one far beyond it: one request each, where nothing was to merge. */
  lemma {:induction false} NoneMerges(plan: seq<Request>, other: seq<Request>)
    requires IsPlan(plan, [0, 1], [Range(0, 1), Range(1, 1)], NONE) && IsPlan(other, [0, 1], [Range(0, 1), Range(9, 0)], NONE)
    ensures |plan| == 1 && |other| == 1
  {
    var touching, empty := [Range(0, 1), Range(1, 1)], [Range(0, 1), Range(9, 0)];
    NoneMergesTouching(plan, [0, 1], touching);
    NoneMergesTouching(other, [0, 1], empty);
    assert [0, 1][..1] == [0];
    OneGroup(0, touching, 0);
    OneGroup(0, empty, 0);
  }

  // ---- requests above the size limit ----

  /** Part `k` of request `n` is the range at that place in the order. */
  lemma {:induction false} PartAt(plan: seq<Request>, n: nat, k: nat)
    requires n < |plan| && k < |plan[n].parts|
    ensures var at := |Indexes(plan[..n])| + k; at < |Indexes(plan)| && Indexes(plan)[at] == plan[n].parts[k].index
    ensures n == |plan| - 1 ==> |Indexes(plan)| == |Indexes(plan[..n])| + |plan[n].parts|
    ensures n < |plan| - 1 ==> |Indexes(plan[..n + 1])| == |Indexes(plan[..n])| + |plan[n].parts|
  {
    var m := |plan| - 1;
    if n < m {
      PartAt(plan[..m], n, k);
      assert plan[..m][..n] == plan[..n] && plan[..m][..m] == plan[..m];
      assert n < m - 1 ==> plan[..m][..n + 1] == plan[..n + 1];
    } else {
      assert PartIndexes(plan[n].parts)[k] == plan[n].parts[k].index;
    }
  }

  /** The part that serves the range at a place in the order. */
  lemma {:induction false} PlaceOf(plan: seq<Request>, at: nat) returns (n: nat, k: nat)
    requires at < |Indexes(plan)|
    ensures n < |plan| && k < |plan[n].parts| && at == |Indexes(plan[..n])| + k
  {
    var m := |plan| - 1;
    if at < |Indexes(plan[..m])| {
      n, k := PlaceOf(plan[..m], at);
      assert plan[..m][..n] == plan[..n];
    } else {
      n, k := m, at - |Indexes(plan[..m])|;
    }
  }

  /** A request above the limit begins with its one range, and is alone exactly when the next range by offset has bytes. */
  lemma {:induction false} OversizeAt(plan: seq<Request>, order: seq<nat>, ranges: seq<Range>, config: IoConfig, n: nat)
    requires IsPlan(plan, order, ranges, config) && n < |plan| && plan[n].len > config.maxRequestSize
    ensures var at := |Indexes(plan[..n])|;
            && NamesRanges(order, ranges) && at < |order| && order[at] == plan[n].parts[0].index
            && ranges[order[at]] == Range(plan[n].offset, plan[n].len)
            && (|plan[n].parts| == 1 <==> at + 1 == |order| || ranges[order[at + 1]].len > 0)
  {
    hide Indexes;
    hide Reach;
    var q := plan[n];
    PlanNames(plan, order, ranges, config);
    assert RequestOk(q, ranges, config) && PartOk(q.parts[0], q, ranges);
    PartAt(plan, n, 0);
    if |q.parts| > 1 {
      PartAt(plan, n, 1);
      assert PartOk(q.parts[1], q, ranges);
    } else if n + 1 < |plan| {
      assert Apart(plan[n], plan[n + 1], config) && RequestOk(plan[n + 1], ranges, config);
      PartAt(plan, n + 1, 0);
      assert PartOk(plan[n + 1].parts[0], plan[n + 1], ranges);
    }
  }

  lemma {:induction false} PlanNames(plan: seq<Request>, order: seq<nat>, ranges: seq<Range>, config: IoConfig)
    requires IsPlan(plan, order, ranges, config)
    ensures NamesRanges(order, ranges)
  {
    hide Indexes;
    forall at | 0 <= at < |order| ensures order[at] < |ranges| {
      var n, k := PlaceOf(plan, at);
      PartAt(plan, n, k);
      assert RequestOk(plan[n], ranges, config) && PartOk(plan[n].parts[k], plan[n], ranges);
    }
  }

  /** A range above the limit begins a request of its own length. */
  lemma {:induction false} OversizeRange(plan: seq<Request>, order: seq<nat>, ranges: seq<Range>, config: IoConfig, at: nat)
    returns (n: nat)
    requires IsPlan(plan, order, ranges, config) && NamesRanges(order, ranges)
    requires at < |order| && ranges[order[at]].len > config.maxRequestSize
    ensures n < |plan| && at == |Indexes(plan[..n])| && plan[n].len == ranges[order[at]].len
  {
    hide Indexes;
    hide Reach;
    var k;
    n, k := PlaceOf(plan, at);
    PartAt(plan, n, k);
    assert RequestOk(plan[n], ranges, config) && PartOk(plan[n].parts[k], plan[n], ranges);
  }

  ghost predicate OversizeIsOneRange(plan: seq<Request>, config: IoConfig) {
    forall n :: 0 <= n < |plan| && plan[n].len > config.maxRequestSize ==> |plan[n].parts| == 1
  }

  /** In order of offset, no empty range comes right after one above the limit. */
  ghost predicate NoEmptyAfterOversize(order: seq<nat>, ranges: seq<Range>, limit: nat)
    requires NamesRanges(order, ranges)
  {
    forall at :: 0 <= at < |order| - 1 && ranges[order[at]].len > limit ==> ranges[order[at + 1]].len > 0
  }

  /** Every request above the limit is a single original range exactly when no empty range follows one above the limit. */
  lemma {:induction false} OversizeAlone(plan: seq<Request>, order: seq<nat>, ranges: seq<Range>, config: IoConfig)
    requires IsPlan(plan, order, ranges, config)
    ensures NamesRanges(order, ranges)
    ensures OversizeIsOneRange(plan, config) <==> NoEmptyAfterOversize(order, ranges, config.maxRequestSize)
  {
    hide Indexes;
    hide RequestOk;
    hide Apart;
    PlanNames(plan, order, ranges, config);
    if OversizeIsOneRange(plan, config) {
      forall at | 0 <= at < |order| - 1 && ranges[order[at]].len > config.maxRequestSize ensures ranges[order[at + 1]].len > 0 {
        var n := OversizeRange(plan, order, ranges, config, at);
        OversizeAt(plan, order, ranges, config, n);
      }
    }
    if NoEmptyAfterOversize(order, ranges, config.maxRequestSize) {
      forall n | 0 <= n < |plan| && plan[n].len > config.maxRequestSize ensures |plan[n].parts| == 1 {
        OversizeAt(plan, order, ranges, config, n);
      }
    }
  }

  /** One that does: a range above the limit with an empty range inside it. */
  lemma {:induction false} OversizeWithEmpty(plan: seq<Request>)
    requires IsPlan(plan, [0, 1], [Range(0, 10), Range(5, 0)], IoConfig(0, 4))
    ensures exists q :: q in plan && q.len > 4 && |q.parts| == 2
  {
    var ranges, config, n := [Range(0, 10), Range(5, 0)], IoConfig(0, 4), |plan| - 1;
    LastPart(plan, [0, 1], ranges, config);
    var q := plan[n];
    assert RequestOk(q, ranges, config);
    assert q.parts[0].index == PartIndexes(q.parts)[0];
    assert PartOk(q.parts[0], q, ranges);
    assert n > 0 ==> Apart(plan[n - 1], q, config);
    assert plan[..0] == [];
    assert n == 0 ==> Indexes(plan) == PartIndexes(q.parts);
  }

  /** The last request ends the order, and leaves something to the requests before it. */
  lemma {:induction false} LastPart(plan: seq<Request>, order: seq<nat>, ranges: seq<Range>, config: IoConfig)
    requires IsPlan(plan, order, ranges, config) && |order| > 0
    ensures var n := |plan| - 1;
            && n >= 0 && 0 < |plan[n].parts| <= |order| && (n > 0 ==> |plan[n].parts| < |order|)
            && PartIndexes(plan[n].parts) == order[|order| - |plan[n].parts|..]
  {
    hide PartsOk;
    hide Tight;
    hide WithinLimit;
    hide Reach;
    hide Apart;
    var n := |plan| - 1;
    assert RequestOk(plan[n], ranges, config);
    if n > 0 {
      assert RequestOk(plan[0], ranges, config);
      FirstIndex(plan[..n]);
    }
  }

  // ---- what merging costs ----

  function Wanted(parts: seq<Part>): nat {
    if parts == [] then 0 else Wanted(parts[..|parts| - 1]) + parts[|parts| - 1].len
  }

  /** A request reads no more than its ranges asked for and one tolerated gap for each merge. */
  lemma {:induction false} WasteIsBounded(q: Request, ranges: seq<Range>, config: IoConfig)
    requires RequestOk(q, ranges, config)
    ensures q.len <= Wanted(q.parts) + Mul(|q.parts| - 1, config.maxGap)
  {
    assert forall k :: 0 <= k < |q.parts| ==> PartOk(q.parts[k], q, ranges);
    ReachBound(q, |q.parts|, config);
    assert q.parts[..|q.parts|] == q.parts;
  }

  lemma {:induction false} ReachBound(q: Request, n: nat, config: IoConfig)
    requires Close(q, config) && 0 < n <= |q.parts|
    requires forall k :: 0 <= k < |q.parts| && q.parts[k].len == 0 ==> q.parts[k].at == 0
    ensures Reach(q.parts[..n]) <= Wanted(q.parts[..n]) + Mul(n - 1, config.maxGap)
  {
    assert q.parts[..n][..n - 1] == q.parts[..n - 1];
    if n > 1 {
      ReachBound(q, n - 1, config);
    }
  }
}
