/** Metadata walks by replay: rerun a synchronous walk over partial pages until it stops missing
    (`crates/oxcdf-hdf5/src/replay.rs`). */
module Replays {
  import opened Basics
  import opened Arith
  import opened Pages
  import opened PageCaches

  const MAX_ROUNDS: nat := 64

  type Range = (nat, nat)

  // ---- walks ----

  /** What a byte source answered. */
  datatype Reply = One(bytes: Result<seq<byte>>) | Many(blobs: Result<seq<seq<byte>>>)

  datatype Action<+T> = ReadAt(offset: nat, len: nat) | ReadRanges(ranges: seq<Range>) | Done(result: Result<T>)

  /** A deterministic parser: its next action is a function of the replies so far. It may swallow an error and go on.
      `steps` bounds how many reads it makes. */
  datatype Walk<!T> = Walk(next: seq<Reply> -> Action<T>, steps: nat)

  // ---- sources ----

  /** The pages `first..=last`. */
  function PageRange(first: nat, last: nat): (s: set<nat>)
    ensures forall p :: p in s <==> first <= p <= last
    decreases last - first + 1
  {
    if first > last then {} else {first} + PageRange(first + 1, last)
  }

  /** `Strict` is a file: any read past the end is refused, an empty one included.
      `Lenient` answers an empty read anywhere, and otherwise is the file.
      `Partial` is lenient over the pages held, and answers `Incomplete` beyond them. */
  datatype Source =
    | Strict(file: seq<byte>)
    | Lenient(file: seq<byte>)
    | Partial(file: seq<byte>, pageSize: nat, held: set<nat>)
  {
    predicate Valid() {
      Partial? ==> pageSize > 0
    }

    /** The pages one read asks for and does not find. */
    function Missed(offset: nat, len: nat): set<nat>
      requires Valid()
    {
      if Partial? && len > 0 && offset + len <= |file| then
        PageRange(Quot(offset, pageSize), Quot(offset + len - 1, pageSize)) - held
      else {}
    }

    function Read(offset: nat, len: nat): Result<seq<byte>>
      requires Valid()
    {
      if len == 0 && !Strict? then Ok([])
      else if offset + len > |file| then Err(OutOfBounds)
      else if Missed(offset, len) != {} then Err(Incomplete)
      else Ok(file[offset..offset + len])
    }

    /** A batch records the missing pages of every range before a range that fails for another reason. */
    function MissedRanges(ranges: seq<Range>): set<nat>
      requires Valid()
    {
      if ranges == [] || Read(ranges[0].0, ranges[0].1) == Err(OutOfBounds) then {}
      else Missed(ranges[0].0, ranges[0].1) + MissedRanges(ranges[1..])
    }

    /** The first failure other than a missing page fails the batch; otherwise any missing page does. */
    function ReadRanges(ranges: seq<Range>): Result<seq<seq<byte>>>
      requires Valid()
    {
      if ranges == [] then Ok([])
      else
        var first := Read(ranges[0].0, ranges[0].1);
        if first == Err(OutOfBounds) then Err(OutOfBounds)
        else
          var rest := ReadRanges(ranges[1..]);
          if rest.Err? then rest
          else if first.Err? then Err(first.error)
          else Ok([first.value] + rest.value)
    }

    function Answer<T>(action: Action<T>): Reply
      requires Valid() && !action.Done?
    {
      match action
      case ReadAt(offset, len) => One(Read(offset, len))
      case ReadRanges(ranges) => Many(ReadRanges(ranges))
    }

    function Misses<T>(action: Action<T>): set<nat>
      requires Valid() && !action.Done?
    {
      match action
      case ReadAt(offset, len) => Missed(offset, len)
      case ReadRanges(ranges) => MissedRanges(ranges)
    }
  }

  /** What a walk returns over a source. */
  function Run<T>(walk: Walk<T>, source: Source, history: seq<Reply>): Result<T>
    requires source.Valid()
    decreases walk.steps - |history|
  {
    var action := walk.next(history);
    if action.Done? then action.result
    else if |history| >= walk.steps then Err(Malformed)
    else Run(walk, source, history + [source.Answer(action)])
  }

  /** Every page the walk asked for and did not find. */
  function Wanted<T>(walk: Walk<T>, source: Source, history: seq<Reply>): set<nat>
    requires source.Valid()
    decreases walk.steps - |history|
  {
    var action := walk.next(history);
    if action.Done? || |history| >= walk.steps then {}
    else source.Misses(action) + Wanted(walk, source, history + [source.Answer(action)])
  }

  // ---- what sources and walks do, in plain terms ----

  /** Page `p` and a read share a byte. */
  ghost predicate Overlaps(p: nat, pageSize: nat, offset: nat, len: nat) {
    Mul(p, pageSize) < offset + len && offset < Mul(p, pageSize) + pageSize
  }

  lemma {:induction false} OverlapsIs(p: nat, pageSize: nat, offset: nat, len: nat)
    requires pageSize > 0 && len > 0
    ensures Overlaps(p, pageSize, offset, len) <==> Quot(offset, pageSize) <= p <= Quot(offset + len - 1, pageSize)
  {
    hide Mul;
    hide Quot;
    hide Rem;
    var first, last := Quot(offset, pageSize), Quot(offset + len - 1, pageSize);
    QuotRem(offset, pageSize);
    QuotRem(offset + len - 1, pageSize);
    MulAdd(p, 1, pageSize);
    MulAdd(last, 1, pageSize);
    MulOne(pageSize);
    if p < first {
      MulLe(p + 1, first, pageSize);
    } else {
      MulLe(first, p, pageSize);
      MulAdd(first, 1, pageSize);
    }
    if p > last {
      MulLe(last + 1, p, pageSize);
    } else {
      MulLe(p, last, pageSize);
    }
    if first <= p {
      MulLe(first + 1, p + 1, pageSize);
    }
  }

  /** A file gives the bytes asked for or refuses; over pages, a read misses exactly the pages it shares a byte with that
      are not held, and gives the bytes when there are none. */
  lemma {:induction false} ReadMeans(file: seq<byte>, pageSize: nat, held: set<nat>, offset: nat, len: nat)
    requires pageSize > 0
    ensures Strict(file).Read(offset, len) == if offset + len <= |file| then Ok(file[offset..offset + len]) else Err(OutOfBounds)
    ensures len > 0 ==> Lenient(file).Read(offset, len) == Strict(file).Read(offset, len)
    ensures len == 0 ==> Lenient(file).Read(offset, len) == Partial(file, pageSize, held).Read(offset, len) == Ok([])
    ensures len == 0 || offset + len > |file| ==> Partial(file, pageSize, held).Missed(offset, len) == {}
    ensures len > 0 && offset + len > |file| ==> Partial(file, pageSize, held).Read(offset, len) == Err(OutOfBounds)
    ensures len > 0 && offset + len <= |file| ==>
              && (forall p: nat :: p in Partial(file, pageSize, held).Missed(offset, len) <==> p !in held && Overlaps(p, pageSize, offset, len))
              && Partial(file, pageSize, held).Read(offset, len)
                 == if exists p: nat :: p !in held && Overlaps(p, pageSize, offset, len) then Err(Incomplete)
                    else Ok(file[offset..offset + len])
  {
    hide Quot;
    hide Overlaps;
    if len > 0 && offset + len <= |file| {
      forall p: nat ensures p in Partial(file, pageSize, held).Missed(offset, len) <==> p !in held && Overlaps(p, pageSize, offset, len) {
        OverlapsIs(p, pageSize, offset, len);
      }
    }
  }

  /** A batch stops at its first range outside the file. It misses what the ranges before that miss, and succeeds with the
      bytes of each when none is outside and nothing is missing. */
  lemma {:induction false} RangesMean(source: Source, ranges: seq<Range>) returns (stop: nat)
    requires source.Valid()
    ensures stop <= |ranges| && forall i :: 0 <= i < stop ==> source.Read(ranges[i].0, ranges[i].1) != Err(OutOfBounds)
    ensures stop < |ranges| ==>
              source.Read(ranges[stop].0, ranges[stop].1) == Err(OutOfBounds) && source.ReadRanges(ranges) == Err(OutOfBounds)
    ensures forall p :: p in source.MissedRanges(ranges) <==> exists i :: 0 <= i < stop && p in source.Missed(ranges[i].0, ranges[i].1)
    ensures stop == |ranges| ==>
              if exists i :: 0 <= i < |ranges| && source.Read(ranges[i].0, ranges[i].1).Err? then
                source.ReadRanges(ranges) == Err(Incomplete)
              else
                && source.ReadRanges(ranges).Ok? && |source.ReadRanges(ranges).value| == |ranges|
                && forall i :: 0 <= i < |ranges| ==> source.Read(ranges[i].0, ranges[i].1) == Ok(source.ReadRanges(ranges).value[i])
  {
    if ranges == [] || source.Read(ranges[0].0, ranges[0].1) == Err(OutOfBounds) {
      stop := 0;
    } else {
      var rest := ranges[1..];
      var k := RangesMean(source, rest);
      stop := k + 1;
      forall i | 0 < i < |ranges| ensures ranges[i] == rest[i - 1] {
      }
      forall i | 0 <= i < |rest| ensures rest[i] == ranges[i + 1] {
      }
      forall p ensures p in source.MissedRanges(ranges) <==> exists i :: 0 <= i < stop && p in source.Missed(ranges[i].0, ranges[i].1) {
        if p in source.MissedRanges(rest) {
          var i :| 0 <= i < k && p in source.Missed(rest[i].0, rest[i].1);
          assert p in source.Missed(ranges[i + 1].0, ranges[i + 1].1);
        }
        if i :| 0 <= i < stop && p in source.Missed(ranges[i].0, ranges[i].1) {
          if i > 0 {
            assert p in source.Missed(rest[i - 1].0, rest[i - 1].1);
          }
        }
      }
    }
  }

  /** The replies are those the source gives to the walk's own questions, one after the other. */
  ghost predicate IsTranscript<T>(walk: Walk<T>, source: Source, history: seq<Reply>)
    requires source.Valid()
  {
    |history| <= walk.steps
    && forall i :: 0 <= i < |history| ==>
      !walk.next(history[..i]).Done? && history[i] == source.Answer(walk.next(history[..i]))
  }

  /** A run is a transcript that ends when the walk is done, with the walk's own result; what it wanted is what its
      questions missed. */
  lemma {:induction false} RunMeans<T>(walk: Walk<T>, source: Source, history: seq<Reply>) returns (full: seq<Reply>)
    requires source.Valid() && IsTranscript(walk, source, history)
    ensures IsTranscript(walk, source, full) && |history| <= |full| && full[..|history|] == history
    ensures if walk.next(full).Done? then Run(walk, source, history) == walk.next(full).result
            else |full| == walk.steps && Run(walk, source, history) == Err(Malformed)
    ensures forall p :: p in Wanted(walk, source, history) <==>
              exists i :: |history| <= i < |full| && p in source.Misses(walk.next(full[..i]))
    decreases walk.steps - |history|
  {
    hide Source.Read;
    hide Source.Missed;
    var action := walk.next(history);
    if action.Done? || |history| >= walk.steps {
      full := history;
    } else {
      var n, more := |history|, history + [source.Answer(action)];
      assert more[..n] == history;
      forall i | 0 <= i < |more| ensures !walk.next(more[..i]).Done? && more[i] == source.Answer(walk.next(more[..i])) {
        if i < n {
          assert more[..i] == history[..i];
        }
      }
      full := RunMeans(walk, source, more);
      assert full[..n] == full[..n + 1][..n] == history;
      assert forall p :: p in Wanted(walk, source, history) <==> p in source.Misses(action) || p in Wanted(walk, source, more);
    }
  }

  // ---- a run that misses nothing is the direct run ----

  lemma {:induction false} CompleteRanges(p: Source, ranges: seq<Range>)
    requires p.Partial? && p.Valid() && p.MissedRanges(ranges) == {}
    ensures p.ReadRanges(ranges) == Lenient(p.file).ReadRanges(ranges)
  {
    if ranges != [] && p.Read(ranges[0].0, ranges[0].1) != Err(OutOfBounds) {
      CompleteRanges(p, ranges[1..]);
    }
  }

  lemma {:induction false} CompleteRun<T>(walk: Walk<T>, p: Source, history: seq<Reply>)
    requires p.Partial? && p.Valid() && Wanted(walk, p, history) == {}
    ensures Run(walk, p, history) == Run(walk, Lenient(p.file), history)
    decreases walk.steps - |history|
  {
    var action := walk.next(history);
    if !action.Done? && |history| < walk.steps {
      if action.ReadRanges? {
        CompleteRanges(p, action.ranges);
      }
      CompleteRun(walk, p, history + [p.Answer(action)]);
    }
  }

  // ---- what a run can ask for ----

  ghost predicate ArePages(pages: set<nat>, file: seq<byte>, pageSize: nat) {
    forall p :: p in pages ==> IsPage(file, pageSize, p)
  }

  lemma {:induction false} MissedArePages(source: Source, offset: nat, len: nat)
    requires source.Partial? && source.Valid()
    ensures source.Missed(offset, len) !! source.held
    ensures ArePages(source.Missed(offset, len), source.file, source.pageSize)
  {
    hide Quot;
    if len > 0 && offset + len <= |source.file| {
      PageOfByte(source.file, source.pageSize, offset + len - 1);
      forall p | p in source.Missed(offset, len) ensures IsPage(source.file, source.pageSize, p) {
        PageMonotone(source.file, source.pageSize, p, Quot(offset + len - 1, source.pageSize));
      }
    }
  }

  lemma {:induction false} MissedRangesArePages(source: Source, ranges: seq<Range>)
    requires source.Partial? && source.Valid()
    ensures source.MissedRanges(ranges) !! source.held
    ensures ArePages(source.MissedRanges(ranges), source.file, source.pageSize)
  {
    if ranges != [] {
      MissedArePages(source, ranges[0].0, ranges[0].1);
      MissedRangesArePages(source, ranges[1..]);
    }
  }

  /** A walk only asks for pages of the file that it was not given. */
  lemma {:induction false} WantedArePages<T>(walk: Walk<T>, source: Source, history: seq<Reply>)
    requires source.Partial? && source.Valid()
    ensures Wanted(walk, source, history) !! source.held
    ensures ArePages(Wanted(walk, source, history), source.file, source.pageSize)
    decreases walk.steps - |history|
  {
    var action := walk.next(history);
    if !action.Done? && |history| < walk.steps {
      if action.ReadRanges? {
        MissedRangesArePages(source, action.ranges);
      } else {
        MissedArePages(source, action.offset, action.len);
      }
      WantedArePages(walk, source, history + [source.Answer(action)]);
    }
  }

  // ---- lenient and strict sources ----

  /** The one difference from a file: an empty read past the end succeeds. */
  lemma {:induction false} LenientIsStrict(file: seq<byte>, offset: nat, len: nat)
    ensures Lenient(file).Read(offset, len) == Strict(file).Read(offset, len) <==> !(len == 0 && offset > |file|)
  {
    if len == 0 && offset <= |file| {
      assert file[offset..offset + len] == [];
    }
  }

  /** A batch that tells the two apart: some empty range starts past the end, and no other range fails. */
  predicate Telltale(file: seq<byte>, ranges: seq<Range>) {
    (exists i :: 0 <= i < |ranges| && ranges[i].1 == 0 && ranges[i].0 > |file|)
    && forall i :: 0 <= i < |ranges| && ranges[i].1 > 0 ==> ranges[i].0 + ranges[i].1 <= |file|
  }

  /** A batch over a whole file, strict or lenient, fails exactly when one of its reads does. */
  lemma {:induction false} WholeRanges(source: Source, ranges: seq<Range>)
    requires !source.Partial?
    ensures source.ReadRanges(ranges).Ok? <==> forall i :: 0 <= i < |ranges| ==> source.Read(ranges[i].0, ranges[i].1).Ok?
    ensures source.ReadRanges(ranges).Err? ==> source.ReadRanges(ranges) == Err(OutOfBounds)
    ensures source.ReadRanges(ranges).Ok? ==>
              |source.ReadRanges(ranges).value| == |ranges|
              && forall i :: 0 <= i < |ranges| ==> Ok(source.ReadRanges(ranges).value[i]) == source.Read(ranges[i].0, ranges[i].1)
  {
    if ranges != [] {
      WholeRanges(source, ranges[1..]);
      if source.Read(ranges[0].0, ranges[0].1).Ok? {
        forall i | 0 < i < |ranges| ensures ranges[i] == ranges[1..][i - 1] {
        }
        assert forall j :: 0 <= j < |ranges[1..]| ==> ranges[1..][j] == ranges[j + 1];
      }
    }
  }

  /** Batches differ exactly on a telltale. */
  lemma {:induction false} LenientRanges(file: seq<byte>, ranges: seq<Range>)
    ensures Lenient(file).ReadRanges(ranges) == Strict(file).ReadRanges(ranges) <==> !Telltale(file, ranges)
  {
    var good, bad := Lenient(file).ReadRanges(ranges), Strict(file).ReadRanges(ranges);
    WholeRanges(Lenient(file), ranges);
    WholeRanges(Strict(file), ranges);
    forall i | 0 <= i < |ranges|
      ensures Lenient(file).Read(ranges[i].0, ranges[i].1) == Strict(file).Read(ranges[i].0, ranges[i].1)
              <==> !(ranges[i].1 == 0 && ranges[i].0 > |file|)
    {
      LenientIsStrict(file, ranges[i].0, ranges[i].1);
    }
    if good.Ok? && bad.Ok? {
      assert good.value == bad.value;
    }
  }

  /** Run over the file itself, no step of the walk is a telltale. */
  ghost predicate Tidy<T>(walk: Walk<T>, file: seq<byte>, history: seq<Reply>)
    decreases walk.steps - |history|
  {
    var action := walk.next(history);
    action.Done? || |history| >= walk.steps ||
    (!Telltale(file, if action.ReadAt? then [(action.offset, action.len)] else action.ranges)
     && Tidy(walk, file, history + [Strict(file).Answer(action)]))
  }

  /** The walk hears the same from both sources at every step. */
  ghost predicate SameReplies<T>(walk: Walk<T>, file: seq<byte>, history: seq<Reply>)
    decreases walk.steps - |history|
  {
    var action := walk.next(history);
    action.Done? || |history| >= walk.steps ||
    (Lenient(file).Answer(action) == Strict(file).Answer(action)
     && SameReplies(walk, file, history + [Strict(file).Answer(action)]))
  }

  /** A walk hears the same at every step if and only if it is tidy, and then it returns the same. */
  lemma {:induction false} TidyRun<T>(walk: Walk<T>, file: seq<byte>, history: seq<Reply>)
    ensures SameReplies(walk, file, history) <==> Tidy(walk, file, history)
    ensures Tidy(walk, file, history) ==> Run(walk, Lenient(file), history) == Run(walk, Strict(file), history)
    decreases walk.steps - |history|
  {
    var action := walk.next(history);
    if !action.Done? && |history| < walk.steps {
      if action.ReadRanges? {
        LenientRanges(file, action.ranges);
      } else {
        assert [(action.offset, action.len)][0] == (action.offset, action.len);
        LenientIsStrict(file, action.offset, action.len);
      }
      TidyRun(walk, file, history + [Strict(file).Answer(action)]);
    }
  }

  /** An untidy walk can tell the two apart: one empty read past the end of a one-byte file. */
  lemma {:induction false} UntidyWalkDiffers()
    ensures exists walk: Walk<bool>, file :: Run(walk, Lenient(file), []) != Run(walk, Strict(file), [])
  {
    var walk: Walk<bool> := Walk((h: seq<Reply>) =>
      if h == [] then ReadAt(2, 0) else Done(Ok(h[0].One? && h[0].bytes.Ok?)), 1);
    var file: seq<byte> := [7];
    var good, bad := Lenient(file).Answer<bool>(ReadAt(2, 0)), Strict(file).Answer<bool>(ReadAt(2, 0));
    assert [] + [good] == [good] && [] + [bad] == [bad];
    assert Run(walk, Lenient(file), [good]) == Ok(true);
    assert Run(walk, Strict(file), [bad]) == Ok(false);
    assert Run(walk, Lenient(file), []) != Run(walk, Strict(file), []);
  }

  // ---- the replay source ----

  /** A byte source over the pages held in memory; a read outside them records what it wants. */
  class ReplaySource {
    const size: nat
    const pageSize: nat
    const pages: map<nat, seq<byte>>
    var wanted: set<nat>

    constructor (size: nat, pageSize: nat, pages: map<nat, seq<byte>>)
      ensures this.size == size && this.pageSize == Max(pageSize, 1) && this.pages == pages && wanted == {}
    {
      this.size := size;
      this.pageSize := Max(pageSize, 1);
      this.pages := pages;
      wanted := {};
    }

    ghost predicate Over(file: seq<byte>) {
      size == |file| && pageSize > 0 && Coherent(pages, file, pageSize)
    }

    ghost function View(file: seq<byte>): (s: Source)
      requires Over(file)
      ensures s.Partial? && s.Valid()
    {
      Partial(file, pageSize, pages.Keys)
    }

    method ReadExactAt(offset: nat, len: nat, ghost file: seq<byte>) returns (r: Result<seq<byte>>)
      requires Over(file)
      modifies this
      ensures r == View(file).Read(offset, len)
      ensures wanted == old(wanted) + View(file).Missed(offset, len)
    {
      hide Quot;
      hide Mul;
      hide Page;
      hide PageEnd;
      if len == 0 {
        return Ok([]);
      }
      if offset + len > size {
        return Err(OutOfBounds);
      }
      QuotRemIs(offset, pageSize);
      QuotRemIs(offset + len - 1, pageSize);
      QuotMonotone(offset, offset + len - 1, pageSize);
      var first, last := offset / pageSize, (offset + len - 1) / pageSize;
      var missing := false;
      ghost var added: set<nat> := {};
      for index := first to last + 1
        invariant wanted == old(wanted) + added
        invariant forall p :: p in added <==> first <= p < index && p !in pages
        invariant missing <==> added != {}
      {
        if index !in pages {
          wanted := wanted + {index};
          added := added + {index};
          missing := true;
        }
      }
      assert added == View(file).Missed(offset, len);
      if missing {
        return Err(Incomplete);
      }
      r := Stitch(offset, len, first, last, file);
    }

    /** Copy the range out of the held pages. */
    method Stitch(offset: nat, len: nat, first: nat, last: nat, ghost file: seq<byte>) returns (r: Result<seq<byte>>)
      requires Over(file) && len > 0 && offset + len <= |file|
      requires first == Quot(offset, pageSize) && last == Quot(offset + len - 1, pageSize)
      requires forall p :: first <= p <= last ==> p in pages
      ensures r == Ok(file[offset..offset + len])
    {
      hide Quot;
      hide Mul;
      hide Page;
      hide PageEnd;
      hide CutAt;
      QuotMonotone(offset, offset + len - 1, pageSize);
      CutFirst(pageSize, offset, len, first);
      var buf: seq<byte> := [];
      for index := first to last + 1
        invariant offset <= CutAt(pageSize, offset, len, first, index) <= offset + len
        invariant buf == file[offset..CutAt(pageSize, offset, len, first, index)]
      {
        var page := pages[index];
        MulIs(index, pageSize);
        AssembleStep(file, pageSize, offset, len, first, index, last);
        var pageStart := index * pageSize;
        var from := Max(offset, pageStart) - pageStart;
        if from >= |page| {
          break;
        }
        var take := Min(len - |buf|, |page| - from);
        SliceExtend(file, offset, Max(offset, pageStart), Min(offset + len, pageStart + |page|));
        assert from + take == Min(offset + len, pageStart + |page|) - pageStart;
        buf := buf + page[from..from + take];
      }
      AssembleDone(file, pageSize, offset, len, first, last);
      if |buf| != len {
        return Err(Malformed);
      }
      return Ok(buf);
    }

    /** Record the missing pages of every range before failing. */
    method ReadRanges(ranges: seq<Range>, ghost file: seq<byte>) returns (r: Result<seq<seq<byte>>>)
      requires Over(file)
      modifies this
      ensures r == View(file).ReadRanges(ranges)
      ensures wanted == old(wanted) + View(file).MissedRanges(ranges)
    {
      var out: seq<seq<byte>> := [];
      var missing := false;
      ghost var view := View(file);
      ghost var added: set<nat> := {};
      ResumeStart(view.ReadRanges(ranges));
      assert ranges[0..] == ranges;
      for i := 0 to |ranges|
        invariant wanted == old(wanted) + added
        invariant view.MissedRanges(ranges) == added + view.MissedRanges(ranges[i..])
        invariant view.ReadRanges(ranges) == Resume(out, missing, view.ReadRanges(ranges[i..]))
      {
        var (offset, len) := ranges[i];
        assert ranges[i..][1..] == ranges[i + 1..];
        var bytes := ReadExactAt(offset, len, file);
        if bytes == Err(OutOfBounds) {
          return Err(OutOfBounds);
        }
        added := added + view.Missed(offset, len);
        ResumeStep(out, missing, bytes, view.ReadRanges(ranges[i + 1..]));
        if bytes.Err? {
          missing := true;
        } else if !missing {
          out := out + [bytes.value];
        }
      }
      assert ranges[|ranges|..] == [] && out + [] == out;
      if missing {
        return Err(Incomplete);
      }
      return Ok(out);
    }
  }

  /** The answer of a batch when `out` is what its first ranges gave and `rest` the answer of the others. */
  ghost function Resume(out: seq<seq<byte>>, missing: bool, rest: Result<seq<seq<byte>>>): Result<seq<seq<byte>>> {
    if rest.Err? then rest else if missing then Err(Incomplete) else Ok(out + rest.value)
  }

  lemma {:induction false} ResumeStart(rest: Result<seq<seq<byte>>>)
    ensures Resume([], false, rest) == rest
  {
    if rest.Ok? {
      assert [] + rest.value == rest.value;
    }
  }

  lemma {:induction false} ResumeStep(out: seq<seq<byte>>, missing: bool, first: Result<seq<byte>>, rest: Result<seq<seq<byte>>>)
    requires first.Ok? || first.error == Incomplete
    ensures Resume(out, missing, if rest.Err? then rest else if first.Err? then Err(first.error) else Ok([first.value] + rest.value))
         == Resume(if first.Ok? && !missing then out + [first.value] else out, missing || first.Err?, rest)
  {
    if rest.Ok? && first.Ok? {
      assert out + ([first.value] + rest.value) == out + [first.value] + rest.value;
    }
  }

  /** Run a walk over a replay source. */
  method RunWalk<T>(walk: Walk<T>, source: ReplaySource, ghost file: seq<byte>) returns (r: Result<T>)
    requires source.Over(file) && source.wanted == {}
    modifies source
    ensures r == Run(walk, source.View(file), [])
    ensures source.wanted == Wanted(walk, source.View(file), [])
  {
    var history: seq<Reply> := [];
    ghost var view := source.View(file);
    while true
      invariant |history| <= walk.steps
      invariant Run(walk, view, []) == Run(walk, view, history)
      invariant Wanted(walk, view, []) == source.wanted + Wanted(walk, view, history)
      decreases walk.steps - |history|
    {
      var action := walk.next(history);
      if action.Done? {
        return action.result;
      }
      if |history| >= walk.steps {
        return Err(Malformed);
      }
      var reply;
      if action.ReadAt? {
        var bytes := source.ReadExactAt(action.offset, action.len, file);
        reply := One(bytes);
      } else {
        var blobs := source.ReadRanges(action.ranges, file);
        reply := Many(blobs);
      }
      history := history + [reply];
    }
  }

  // ---- fetching ----

  ghost predicate CacheCoherent(cache: IoCache?, pageSize: nat, file: seq<byte>)
    reads cache
  {
    cache != null && cache.pageSize == pageSize ==> Coherent(cache.pages, file, pageSize)
  }

  function LastPage(size: nat, pageSize: nat): nat
    requires size > 0 && pageSize > 0
  {
    Quot(size - 1, pageSize)
  }

  lemma {:induction false} PageBound(file: seq<byte>, pageSize: nat, p: nat)
    requires |file| > 0 && pageSize > 0
    ensures IsPage(file, pageSize, p) <==> p <= LastPage(|file|, pageSize)
  {
    hide Mul;
    hide Quot;
    PageOfByte(file, pageSize, |file| - 1);
    var last := LastPage(|file|, pageSize);
    if p <= last {
      PageMonotone(file, pageSize, p, last);
    } else {
      MulLe(last + 1, p, pageSize);
    }
  }

  /** Fetch every wanted page into the page store, consecutive pages as one request. */
  method Fetch(file: seq<byte>, cache: IoCache?, pageSize: nat, wanted: set<nat>, pages: map<nat, seq<byte>>)
    returns (held: map<nat, seq<byte>>, ghost runs: seq<PageRun>)
    requires |file| > 0 && pageSize > 0 && Coherent(pages, file, pageSize) && ArePages(wanted, file, pageSize)
    requires CacheCoherent(cache, pageSize, file)
    modifies cache
    ensures Coherent(held, file, pageSize) && held.Keys == pages.Keys + wanted
    ensures CacheCoherent(cache, pageSize, file)
    // What is read from the file, in runs that could not be joined: the wanted pages that are not held here and that the
    // shared cache does not have when it is asked.
    ensures forall i :: 0 < i < |runs| ==> runs[i - 1].1 + 1 < runs[i].0
    ensures forall p: nat :: InRuns(p, runs) ==> p in wanted && p !in pages
    ensures cache == null || cache.pageSize != pageSize ==> forall p :: p in wanted && p !in pages ==> InRuns(p, runs)
    ensures cache != null && cache.pageSize == pageSize ==>
              && (forall p: nat :: InRuns(p, runs) ==> p !in old(cache.pages) || p in cache.DroppedSince(old(cache.clock)))
              && (forall p :: p in wanted && p !in pages && !InRuns(p, runs) ==> p in old(cache.pages))
              && (forall p: nat :: InRuns(p, runs) ==> p in cache.pages || p in cache.DroppedSince(old(cache.clock)))
  {
    hide InRuns;
    hide Page;
    hide LastPage;
    var last := LastIndex(|file|, pageSize);
    forall p | p in wanted ensures p <= last {
      PageBound(file, pageSize, p);
    }
    PageBound(file, pageSize, last);
    var some, missing, pending := GatherRuns(file, cache, pageSize, wanted, pages, last);
    runs := missing;
    ghost var asked := if cache == null then 0 else cache.clock;
    held := FetchPages(file, cache, pageSize, missing, some, last);
    assert held.Keys == pages.Keys + wanted;
    if cache != null {
      DroppedSplit(cache.evictions, old(cache.clock), asked, cache.clock);
    }
  }

  method LastIndex(size: nat, pageSize: nat) returns (last: nat)
    requires size > 0 && pageSize > 0
    ensures last == LastPage(size, pageSize)
  {
    QuotRemIs(size - 1, pageSize);
    last := (size - 1) / pageSize;
  }

  /** Take what the shared cache holds; the rest becomes runs of pages to read. */
  method GatherRuns(ghost file: seq<byte>, cache: IoCache?, pageSize: nat, wanted: set<nat>, pages: map<nat, seq<byte>>, last: nat)
    returns (held: map<nat, seq<byte>>, runs: seq<PageRun>, ghost pending: set<nat>)
    requires pageSize > 0 && Coherent(pages, file, pageSize) && forall p :: p in wanted ==> p <= last
    requires CacheCoherent(cache, pageSize, file)
    modifies cache
    ensures Coherent(held, file, pageSize) && CacheCoherent(cache, pageSize, file)
    ensures forall i :: 0 <= i < |runs| ==> runs[i].0 <= runs[i].1 <= last
    ensures forall p: nat :: InRuns(p, runs) <==> p in pending
    ensures held.Keys + pending == pages.Keys + wanted
    ensures forall i :: 0 < i < |runs| ==> runs[i - 1].1 + 1 < runs[i].0
    ensures pending <= wanted - pages.Keys
    ensures cache == null || cache.pageSize != pageSize ==> pending == wanted - pages.Keys
    ensures cache != null ==> cache.clock >= old(cache.clock)
    ensures cache != null && cache.pageSize == pageSize ==>
              Sought(old(cache.pages.Keys), cache.DroppedSince(old(cache.clock)), wanted - pages.Keys, pending)
  {
    hide InRuns;
    hide Coherent;
    hide Dropped;
    hide Sought;
    held, runs, pending := pages, [], {};
    ghost var sought: set<nat> := {};
    ghost var before := if cache == null then {} else cache.pages.Keys;
    NoRuns();
    if cache != null {
      DroppedNone(cache.evictions, cache.clock);
      SoughtNone(before);
    }
    for index := 0 to last + 1
      invariant Coherent(held, file, pageSize) && CacheCoherent(cache, pageSize, file)
      invariant forall p :: p in sought <==> p in wanted && p !in pages && p < index
      invariant forall p :: p in held || p in pending <==> p in pages || p in sought
      invariant forall p :: p in pending ==> p in sought
      invariant forall p: nat :: InRuns(p, runs) <==> p in pending
      invariant forall i :: 0 <= i < |runs| ==> runs[i].0 <= runs[i].1 < index
      invariant forall i :: 0 < i < |runs| ==> runs[i - 1].1 + 1 < runs[i].0
      invariant cache == null || cache.pageSize != pageSize ==> pending == sought
      invariant cache != null ==> cache.clock >= old(cache.clock)
      invariant cache != null && cache.pageSize == pageSize ==>
        cache.pages.Keys == before - cache.DroppedSince(old(cache.clock)) && Sought(before, cache.DroppedSince(old(cache.clock)), sought, pending)
    {
      if index !in wanted {
        continue;
      }
      if index in held {
        continue;
      }
      var page := AskCache(cache, pageSize, index, file, before, if cache == null then 0 else old(cache.clock), sought, pending);
      sought := sought + {index};
      if page.Some? {
        held := KeepPage(held, index, page.value, file, pageSize);
        continue;
      }
      pending := pending + {index};
      runs := PushIndex(runs, index);
    }
    assert sought == wanted - pages.Keys;
    assert held.Keys + pending == pages.Keys + wanted;
  }

  /** Of the pages sought, those still pending were not in the shared cache or are gone from it, and the others were there. */
  ghost predicate Sought(before: set<nat>, gone: set<nat>, sought: set<nat>, pending: set<nat>) {
    (forall p :: p in pending ==> p !in before || p in gone) && forall p :: p in sought && p !in pending ==> p in before
  }

  lemma {:induction false} SoughtNone(before: set<nat>)
    ensures Sought(before, {}, {}, {})
  {
  }

  /** Look for a page in the shared cache, if its pages are of the right size. */
  method AskCache(cache: IoCache?, pageSize: nat, index: nat, ghost file: seq<byte>, ghost before: set<nat>, ghost from: nat,
                  ghost sought: set<nat>, ghost pending: set<nat>)
    returns (page: Option<seq<byte>>)
    requires CacheCoherent(cache, pageSize, file)
    requires cache != null ==> from <= cache.clock
    requires cache != null && cache.pageSize == pageSize ==>
               && cache.pages.Keys == before - cache.DroppedSince(from) && Sought(before, cache.DroppedSince(from), sought, pending)
    modifies cache
    ensures CacheCoherent(cache, pageSize, file)
    ensures cache != null ==> cache.clock >= old(cache.clock)
    ensures cache == null || cache.pageSize != pageSize ==> page.None?
    ensures page.Some? ==> IsPage(file, pageSize, index) && page.value == Page(file, pageSize, index)
    ensures cache != null && cache.pageSize == pageSize ==>
              && cache.pages.Keys == before - cache.DroppedSince(from)
              && Sought(before, cache.DroppedSince(from), sought + {index}, if page.Some? then pending else pending + {index})
  {
    hide Dropped;
    page := None;
    if cache != null && cache.pageSize == pageSize {
      CoherentMinus(cache.pages, cache.evictions(cache.clock), file, pageSize);
      DroppedNext(cache.evictions, from, cache.clock);
      page := cache.GetPage(index);
    }
  }

  method KeepPage(held: map<nat, seq<byte>>, index: nat, page: seq<byte>, ghost file: seq<byte>, ghost pageSize: nat)
    returns (more: map<nat, seq<byte>>)
    requires Coherent(held, file, pageSize) && IsPage(file, pageSize, index) && page == Page(file, pageSize, index)
    ensures Coherent(more, file, pageSize) && more.Keys == held.Keys + {index}
  {
    more := held[index := page];
  }

  /** One more page to read: it joins the last run if it comes right after it. */
  method PushIndex(runs: seq<PageRun>, index: nat) returns (more: seq<PageRun>)
    requires forall i :: 0 <= i < |runs| ==> runs[i].0 <= runs[i].1 < index
    requires forall i :: 0 < i < |runs| ==> runs[i - 1].1 + 1 < runs[i].0
    ensures forall p: nat :: InRuns(p, more) <==> InRuns(p, runs) || p == index
    ensures forall i :: 0 <= i < |more| ==> more[i].0 <= more[i].1 <= index
    ensures forall i :: 0 < i < |more| ==> more[i - 1].1 + 1 < more[i].0
  {
    hide InRuns;
    if |runs| > 0 && runs[|runs| - 1].1 + 1 == index {
      RunExtended(runs, index);
      more := runs[..|runs| - 1] + [(runs[|runs| - 1].0, index)];
    } else {
      RunPushed(runs, (index, index));
      more := runs + [(index, index)];
    }
  }

  lemma {:induction false} RunExtended(runs: seq<PageRun>, index: nat)
    requires |runs| > 0 && runs[|runs| - 1].0 <= runs[|runs| - 1].1 && runs[|runs| - 1].1 + 1 == index
    ensures forall p :: InRuns(p, runs[..|runs| - 1] + [(runs[|runs| - 1].0, index)]) <==> InRuns(p, runs) || p == index
  {
    var n := |runs| - 1;
    RunPushed(runs[..n], (runs[n].0, index));
    RunPushed(runs[..n], runs[n]);
    assert runs == runs[..n] + [runs[n]];
  }

  /** Read the runs and split them into pages. */
  method FetchPages(file: seq<byte>, cache: IoCache?, pageSize: nat, runs: seq<PageRun>, pages: map<nat, seq<byte>>, ghost last: nat)
    returns (held: map<nat, seq<byte>>)
    requires pageSize > 0 && Coherent(pages, file, pageSize) && IsPage(file, pageSize, last)
    requires forall i :: 0 <= i < |runs| ==> runs[i].0 <= runs[i].1 <= last
    requires CacheCoherent(cache, pageSize, file)
    modifies cache
    ensures Coherent(held, file, pageSize) && CacheCoherent(cache, pageSize, file)
    ensures forall p :: p in held <==> p in pages || InRuns(p, runs)
    ensures cache != null ==> cache.clock >= old(cache.clock)
    ensures cache != null && cache.pageSize == pageSize ==>
              forall p: nat :: InRuns(p, runs) ==> p in cache.pages || p in cache.DroppedSince(old(cache.clock))
  {
    hide InRuns;
    hide Page;
    hide Mul;
    hide Dropped;
    held := pages;
    NoRuns();
    for k := 0 to |runs|
      invariant Coherent(held, file, pageSize) && CacheCoherent(cache, pageSize, file)
      invariant forall p :: p in held <==> p in pages || InRuns(p, runs[..k])
      invariant cache != null ==> cache.clock >= old(cache.clock)
      invariant cache != null && cache.pageSize == pageSize ==>
        forall p: nat :: InRuns(p, runs[..k]) ==> p in cache.pages || p in cache.DroppedSince(old(cache.clock))
    {
      assert runs[..k + 1] == runs[..k] + [runs[k]];
      RunPushed(runs[..k], runs[k]);
      ghost var before := if cache == null then 0 else cache.clock;
      var (first, end) := runs[k];
      PageMonotone(file, pageSize, end, last);
      RunPage(file, pageSize, first, end, end);
      MulIs(first, pageSize);
      MulIs(end + 1, pageSize);
      var begin, stop := first * pageSize, Min((end + 1) * pageSize, |file|);
      held := SplitPages(file, cache, pageSize, first, end, file[begin..stop], held);
      if cache != null {
        DroppedSplit(cache.evictions, old(cache.clock), before, cache.clock);
      }
    }
    assert runs[..|runs|] == runs;
  }

  method SplitPages(ghost file: seq<byte>, cache: IoCache?, pageSize: nat, first: nat, ghost end: nat, bytes: seq<byte>, pages: map<nat, seq<byte>>)
    returns (held: map<nat, seq<byte>>)
    requires pageSize > 0 && Coherent(pages, file, pageSize) && first <= end && IsPage(file, pageSize, end)
    requires Mul(first, pageSize) <= PageEnd(file, pageSize, end)
    requires bytes == file[Mul(first, pageSize)..PageEnd(file, pageSize, end)]
    requires CacheCoherent(cache, pageSize, file)
    modifies cache
    ensures Coherent(held, file, pageSize) && CacheCoherent(cache, pageSize, file)
    ensures forall p :: p in held <==> p in pages || InRun(p, (first, end))
    ensures cache != null ==> cache.clock >= old(cache.clock)
    ensures cache != null && cache.pageSize == pageSize ==>
              forall p: nat :: p in old(cache.pages) || InRun(p, (first, end)) ==> p in cache.pages || p in cache.DroppedSince(old(cache.clock))
  {
    hide Page;
    hide Mul;
    hide Dropped;
    if cache != null {
      DroppedNone(cache.evictions, cache.clock);
    }
    held := pages;
    var step, start := 0, 0;
    MulZero(pageSize);
    while start < |bytes|
      invariant start == Mul(step, pageSize) && step <= end - first + 1
      invariant Coherent(held, file, pageSize) && CacheCoherent(cache, pageSize, file)
      invariant forall p :: p in held <==> p in pages || first <= p < first + step
      invariant cache != null ==> cache.clock >= old(cache.clock)
      invariant cache != null && cache.pageSize == pageSize ==>
        forall p: nat :: p in old(cache.pages) || first <= p < first + step ==> p in cache.pages || p in cache.DroppedSince(old(cache.clock))
      decreases end - first + 1 - step
    {
      StepInRun(file, pageSize, first, end, step);
      RunPage(file, pageSize, first, end, first + step);
      var stop := Min(start + pageSize, |bytes|);
      var page := bytes[start..stop];
      assert page == bytes[start..start + Min(pageSize, |bytes| - start)];
      if cache != null && cache.pageSize == pageSize {
        DroppedNext(cache.evictions, old(cache.clock), cache.clock);
        cache.PutPage(first + step, page, file);
      }
      held := held[first + step := page];
      MulAdd(step, 1, pageSize);
      MulOne(pageSize);
      step, start := step + 1, start + pageSize;
    }
    if step <= end - first {
      RunPage(file, pageSize, first, end, first + step);
    }
  }

  lemma {:induction false} StepInRun(file: seq<byte>, pageSize: nat, first: nat, end: nat, step: nat)
    requires first <= end && Mul(first, pageSize) + Mul(step, pageSize) < PageEnd(file, pageSize, end)
    ensures first + step <= end
  {
    MulAdd(first, step, pageSize);
    MulCancelLt(first + step, end + 1, pageSize);
  }

  // ---- the driver ----

  /** The pages fetched before the first round: a window at the front of the file, never empty. */
  function WindowPages(size: nat, pageSize: nat, prefetchBytes: nat): set<nat>
    requires size > 0 && pageSize > 0
  {
    PageRange(0, Min(Max(Quot(prefetchBytes + pageSize - 1, pageSize), 1), LastPage(size, pageSize) + 1) - 1)
  }

  /** One call of the driver. Which pages a round holds does not depend on the shared cache. */
  datatype Session<!T> = Session(walk: Walk<T>, file: seq<byte>, pageSize: nat, prefetchBytes: nat) {
    predicate Valid() {
      |file| > 0 && pageSize > 0
    }

    /** The pages held when round `k` runs: the window, and whatever the rounds before it asked for. */
    ghost function Held(k: nat): set<nat>
      requires Valid()
      decreases k, 0
    {
      if k == 0 then WindowPages(|file|, pageSize, prefetchBytes) else Held(k - 1) + Missing(k - 1)
    }

    ghost function Missing(k: nat): set<nat>
      requires Valid()
      decreases k, 1
    {
      Wanted(walk, Partial(file, pageSize, Held(k)), [])
    }

    ghost function Result(k: nat): Result<T>
      requires Valid()
    {
      Run(walk, Partial(file, pageSize, Held(k)), [])
    }

    ghost predicate Settles(k: nat)
      requires Valid()
    {
      Missing(k) == {}
    }

    /** The round missed a page and made an error of its own out of it. */
    ghost predicate Breaks(k: nat)
      requires Valid()
    {
      Missing(k) != {} && Result(k).Err? && Result(k).error != Incomplete
    }

    ghost predicate Reaches(k: nat)
      requires Valid()
    {
      forall j: nat :: j < k ==> !Settles(j) && !Breaks(j)
    }

    /** Some round settles, and none before it breaks. */
    ghost predicate Clean()
      requires Valid()
    {
      exists k: nat :: k < MAX_ROUNDS && Settles(k) && Reaches(k)
    }

    /** The answer over the whole file; the driver has its own name for a walk that reports a missing page there. */
    ghost function Direct(): Result<T> {
      Reported(Run(walk, Lenient(file), []))
    }

    /** What the driver returns when it is about to run round `k`. */
    ghost function OutcomeFrom(k: nat): Result<T>
      requires Valid()
      decreases MAX_ROUNDS - k
    {
      if k >= MAX_ROUNDS then Err(Malformed)
      else if Settles(k) then Reported(Result(k))
      else if Breaks(k) then Result(k)
      else OutcomeFrom(k + 1)
    }

    ghost function Outcome(): Result<T>
      requires Valid()
    {
      OutcomeFrom(0)
    }
  }

  function Reported<T>(r: Result<T>): Result<T> {
    if r == Err(Incomplete) then Err(Malformed) else r
  }

  lemma {:induction false} SettledIsDirect<T>(s: Session<T>, k: nat)
    requires s.Valid() && s.Settles(k)
    ensures Reported(s.Result(k)) == s.Direct()
  {
    CompleteRun(s.walk, Partial(s.file, s.pageSize, s.Held(k)), []);
  }

  /** The first round that settles or breaks decides; none may within the bound. */
  lemma {:induction false} OutcomeAt<T>(s: Session<T>, k: nat) returns (stop: nat)
    requires s.Valid() && s.Reaches(k) && k <= MAX_ROUNDS
    ensures k <= stop <= MAX_ROUNDS && s.Reaches(stop)
    ensures stop < MAX_ROUNDS ==> s.Settles(stop) || s.Breaks(stop)
    ensures s.OutcomeFrom(k) ==
            if stop == MAX_ROUNDS then Err(Malformed)
            else if s.Settles(stop) then Reported(s.Result(stop))
            else s.Result(stop)
    decreases MAX_ROUNDS - k
  {
    if k == MAX_ROUNDS || s.Settles(k) || s.Breaks(k) {
      stop := k;
    } else {
      forall j: nat | j < k + 1 ensures !s.Settles(j) && !s.Breaks(j) {
      }
      stop := OutcomeAt(s, k + 1);
    }
  }

  /** The driver returns the direct answer if it settles, and otherwise an error. It returns something else than the
      direct answer exactly when a round it reaches breaks with another error, or when it runs out of rounds. */
  lemma {:induction false} OutcomeIsDirect<T>(s: Session<T>)
    requires s.Valid()
    ensures s.Clean() ==> s.Outcome() == s.Direct()
    ensures !s.Clean() ==> s.Outcome().Err?
    ensures s.Direct().Ok? ==> (s.Outcome() == s.Direct() <==> s.Clean())
    ensures s.Outcome() != s.Direct() <==>
              || (exists k: nat :: k < MAX_ROUNDS && s.Reaches(k) && s.Breaks(k) && s.Result(k) != s.Direct())
              || (s.Reaches(MAX_ROUNDS) && s.Direct() != Err(Malformed))
  {
    var stop := OutcomeAt(s, 0);
    assert s.Reaches(stop);
    if stop < MAX_ROUNDS && s.Settles(stop) {
      SettledIsDirect(s, stop);
    }
    forall k: nat | k < MAX_ROUNDS && s.Reaches(k) && (s.Settles(k) || s.Breaks(k)) ensures k == stop {
      assert !(k < stop) && !(stop < k);
    }
  }

  /** A value is the direct run's, and the driver never passes on that a page is missing. */
  lemma {:induction false} ValueIsDirect<T>(s: Session<T>)
    requires s.Valid()
    ensures s.Outcome().Ok? ==> s.Outcome() == Run(s.walk, Lenient(s.file), [])
    ensures s.Outcome() != Err(Incomplete)
  {
    OutcomeIsDirect(s);
    var stop := OutcomeAt(s, 0);
  }

  // ---- progress ----

  lemma {:induction false} HeldGrows<T>(s: Session<T>, k: nat)
    requires s.Valid() && s.Reaches(k)
    ensures |s.Held(k)| > k && ArePages(s.Held(k), s.file, s.pageSize)
  {
    hide WindowPages;
    hide Wanted;
    hide Run;
    hide IsPage;
    if k == 0 {
      WindowIsPages(s.file, s.pageSize, s.prefetchBytes);
      NonemptySize(s.Held(0));
    } else {
      forall j: nat | j < k - 1 ensures !s.Settles(j) && !s.Breaks(j) {
      }
      HeldGrows(s, k - 1);
      WantedArePages(s.walk, Partial(s.file, s.pageSize, s.Held(k - 1)), []);
      assert !s.Settles(k - 1);
      Grown(s.Held(k - 1), s.Missing(k - 1));
    }
  }

  /** Every unfinished round adds a page, so a file of at most 64 pages never runs out of rounds: unless one of them turns
      a missing page into another error, the direct answer is returned. */
  lemma {:induction false} RoundsSuffice<T>(s: Session<T>)
    requires s.Valid() && |s.file| <= 64 * s.pageSize
    ensures !s.Reaches(64)
    ensures (forall k: nat :: k < 64 ==> !s.Breaks(k)) ==> s.Outcome() == s.Direct()
  {
    FewPages(s.file, s.pageSize, 64);
    if s.Reaches(64) {
      HeldGrows(s, 64);
      RoomLeft(s.file, s.pageSize, s.Held(64), {});
    }
    if forall k: nat :: k < 64 ==> !s.Breaks(k) {
      OutcomeIsDirect(s);
      var stop := OutcomeAt(s, 0);
      assert stop < MAX_ROUNDS;
    }
  }

  lemma {:induction false} FewPages(file: seq<byte>, pageSize: nat, n: nat)
    requires pageSize > 0 && 0 < |file| <= n * pageSize
    ensures LastPage(|file|, pageSize) < n
  {
    hide Quot;
    hide Mul;
    MulIs(n, pageSize);
    QuotRem(|file| - 1, pageSize);
    MulCancelLt(LastPage(|file|, pageSize), n, pageSize);
  }

  /** The window is every page of the file that is the first or begins inside the prefetched bytes. */
  lemma {:induction false} WindowIs(size: nat, pageSize: nat, prefetchBytes: nat, p: nat)
    requires size > 0 && pageSize > 0
    ensures p in WindowPages(size, pageSize, prefetchBytes) <==>
            Mul(p, pageSize) < size && (p == 0 || Mul(p, pageSize) < prefetchBytes)
  {
    hide Mul;
    hide Quot;
    var window, last := Quot(prefetchBytes + pageSize - 1, pageSize), LastPage(size, pageSize);
    QuotRem(prefetchBytes + pageSize - 1, pageSize);
    QuotRem(size - 1, pageSize);
    MulAdd(window, 1, pageSize);
    MulAdd(last, 1, pageSize);
    MulOne(pageSize);
    MulZero(pageSize);
    if p <= last {
      MulLe(p, last, pageSize);
    } else {
      MulLe(last + 1, p, pageSize);
    }
    if p < window {
      MulLe(p + 1, window, pageSize);
      MulAdd(p, 1, pageSize);
    } else {
      MulLe(window, p, pageSize);
    }
  }

  lemma {:induction false} WindowIsPages(file: seq<byte>, pageSize: nat, prefetchBytes: nat)
    requires |file| > 0 && pageSize > 0
    ensures 0 in WindowPages(|file|, pageSize, prefetchBytes)
    ensures ArePages(WindowPages(|file|, pageSize, prefetchBytes), file, pageSize)
  {
    var wanted := WindowPages(|file|, pageSize, prefetchBytes);
    forall p | p in wanted ensures IsPage(file, pageSize, p) {
      PageBound(file, pageSize, p);
    }
  }

  /** A walk that follows a chain of `n` one-byte pages and lets a missing one stop it. */
  function Chain(n: nat): Walk<bool> {
    Walk((h: seq<Reply>) =>
      if h != [] && !(h[|h| - 1].One? && h[|h| - 1].bytes.Ok?) then Done(Err(Incomplete))
      else if |h| < n then ReadAt(|h|, 1) else Done(Ok(true)), n)
  }

  ghost function Zeros(n: nat): seq<byte> {
    seq(n, _ => 0)
  }

  ghost function Links(i: nat): seq<Reply> {
    seq(i, _ => One(Ok([0])))
  }

  lemma {:induction false} OneBytePages(x: nat)
    ensures Quot(x, 1) == x
  {
    MulOne(x);
    QuotRemUnique(x, 0, 1);
  }

  /** Holding pages up to `k`, the chain is followed to its next page and stops there. */
  lemma {:induction false} ChainStops(n: nat, k: nat, i: nat)
    requires i <= k + 1 < n
    ensures Run(Chain(n), Partial(Zeros(n), 1, PageRange(0, k)), Links(i)) == Err(Incomplete)
    ensures Wanted(Chain(n), Partial(Zeros(n), 1, PageRange(0, k)), Links(i)) == {k + 1}
    decreases k + 1 - i
  {
    hide Quot;
    var source := Partial(Zeros(n), 1, PageRange(0, k));
    OneBytePages(i);
    var reply := source.Answer<bool>(ReadAt(i, 1));
    if i <= k {
      assert source.Missed(i, 1) == {};
      assert Zeros(n)[i..i + 1] == [0];
      assert Links(i) + [reply] == Links(i + 1);
      ChainStops(n, k, i + 1);
    } else {
      assert source.Missed(i, 1) == {k + 1};
      var h := Links(i) + [reply];
      assert Chain(n).next(h) == Done(Err(Incomplete));
    }
  }

  lemma {:induction false} ChainRound(n: nat, k: nat)
    requires k + 1 < n
    ensures var s := Session(Chain(n), Zeros(n), 1, 1);
            s.Held(k) == PageRange(0, k) && s.Missing(k) == {k + 1} && !s.Settles(k) && !s.Breaks(k)
  {
    var s := Session(Chain(n), Zeros(n), 1, 1);
    if k == 0 {
      OneBytePages(1);
      OneBytePages(n - 1);
    } else {
      ChainRound(n, k - 1);
      assert PageRange(0, k - 1) + {k} == PageRange(0, k);
    }
    ChainStops(n, k, 0);
  }

  lemma {:induction false} ChainDirect(n: nat, i: nat)
    requires i <= n
    ensures Run(Chain(n), Lenient(Zeros(n)), Links(i)) == Ok(true)
    decreases n - i
  {
    if i < n {
      assert Zeros(n)[i..i + 1] == [0];
      assert Links(i) + [Lenient(Zeros(n)).Answer<bool>(ReadAt(i, 1))] == Links(i + 1);
      ChainDirect(n, i + 1);
    }
  }

  /** The bound is tight: on a file of one page more than there are rounds, a walk that succeeds over the whole file
      runs out of them. */
  lemma {:induction false} RoundsRunOut()
    ensures var s := Session(Chain(65), Zeros(65), 1, 1);
            && LastPage(|s.file|, s.pageSize) == 64
            && s.Reaches(64) && s.Outcome() == Err(Malformed) && s.Direct() == Ok(true)
  {
    hide Run;
    hide Wanted;
    hide Quot;
    var s := Session(Chain(65), Zeros(65), 1, 1);
    OneBytePages(64);
    forall k: nat | k < 64 ensures !s.Settles(k) && !s.Breaks(k) {
      ChainRound(65, k);
    }
    ChainDirect(65, 0);
    assert Links(0) == [];
    var stop := OutcomeAt(s, 0);
  }

  /** A walk over two bytes that swallows a missing page and calls the file unsupported for it. */
  function Swallower(): Walk<bool> {
    Walk((h: seq<Reply>) =>
      if h == [] then ReadAt(1, 1) else if h[0].One? && h[0].bytes.Ok? then Done(Ok(true)) else Done(Err(Unsupported)), 1)
  }

  /** Such a walk makes the driver report an error that the file does not cause: the window holds the first of two
      pages, the first round misses the second and breaks. */
  lemma {:induction false} SwallowedErrorIsNotDirect()
    ensures var s := Session(Swallower(), [7, 7], 1, 1); s.Outcome() == Err(Unsupported) && s.Direct() == Ok(true)
  {
    var s := Session(Swallower(), [7, 7], 1, 1);
    var part, whole := Partial(s.file, 1, s.Held(0)), Lenient(s.file);
    assert s.Held(0) == {0};
    assert 1 in part.Missed(1, 1);
    var bad, good := part.Answer<bool>(ReadAt(1, 1)), whole.Answer<bool>(ReadAt(1, 1));
    assert [] + [good] == [good] && [] + [bad] == [bad];
    assert Run(s.walk, part, [bad]) == Err(Unsupported);
    assert Run(s.walk, whole, [good]) == Ok(true);
    assert s.Breaks(0);
  }

  lemma {:induction false} PageRangeSize(first: nat, last: nat)
    requires first <= last + 1
    ensures |PageRange(first, last)| == last + 1 - first
    decreases last + 1 - first
  {
    if first <= last {
      PageRangeSize(first + 1, last);
    }
  }

  /** Pages not yet held are pages the file still has room for. */
  lemma {:induction false} RoomLeft(file: seq<byte>, pageSize: nat, held: set<nat>, more: set<nat>)
    requires |file| > 0 && pageSize > 0 && ArePages(held, file, pageSize) && ArePages(more, file, pageSize) && held !! more
    ensures |held| + |more| <= LastPage(|file|, pageSize) + 1
  {
    var last := LastPage(|file|, pageSize);
    PageRangeSize(0, last);
    forall p | p in held + more ensures p in PageRange(0, last) {
      PageBound(file, pageSize, p);
    }
    SubsetSize(held + more, PageRange(0, last));
  }

  lemma {:induction false} SubsetSize(a: set<nat>, b: set<nat>)
    requires a <= b
    ensures |a| <= |b|
  {
    assert b == a + (b - a);
  }

  /** The driver: rounds of the walk, with a fetch of what it missed between them. */
  method Replay<T>(file: seq<byte>, cache: IoCache?, requestedPageSize: nat, prefetchBytes: nat, walk: Walk<T>)
    returns (r: Result<T>)
    requires CacheCoherent(cache, Max(requestedPageSize, 1), file)
    modifies cache
    ensures CacheCoherent(cache, Max(requestedPageSize, 1), file)
    ensures r == if |file| == 0 then Err(Malformed)
                 else Session(walk, file, Max(requestedPageSize, 1), prefetchBytes).Outcome()
    // A value is only ever returned from a round that missed nothing, so it is the direct answer.
    ensures r.Ok? ==> r == Run(walk, Lenient(file), [])
    ensures r != Err(Incomplete)
  {
    hide Run;
    hide Wanted;
    hide Coherent;
    hide InRuns;
    hide Dropped;
    hide WindowPages;
    var pageSize := Max(requestedPageSize, 1);
    if |file| == 0 {
      return Err(Malformed);
    }
    ghost var s := Session(walk, file, pageSize, prefetchBytes);
    ValueIsDirect(s);
    var wanted := Window(file, pageSize, prefetchBytes);
    var pages: map<nat, seq<byte>> := map[];
    NothingHeld(file, pageSize);
    var previous: set<nat> := {};
    for round := 0 to MAX_ROUNDS
      invariant Coherent(pages, file, pageSize) && CacheCoherent(cache, pageSize, file)
      invariant ArePages(wanted, file, pageSize) && previous <= wanted && wanted != {}
      invariant pages.Keys + wanted == s.Held(round)
      invariant s.Outcome() == s.OutcomeFrom(round)
    {
      ghost var runs;
      pages, runs := Fetch(file, cache, pageSize, wanted, pages);
      var source := new ReplaySource(|file|, pageSize, pages);
      var outcome := RunWalk(walk, source, file);
      var missing := source.wanted;
      assert source.View(file) == Partial(file, pageSize, s.Held(round));
      WantedArePages(walk, source.View(file), []);
      assert missing == s.Missing(round) && outcome == s.Result(round);
      assert missing == previous ==> missing == {};
      if outcome.Ok? && missing == {} {
        return outcome;
      }
      if outcome.Ok? && missing == previous {
        return outcome;
      }
      if outcome.Err? {
        if outcome.error != Incomplete {
          return outcome;
        }
        if missing == {} || missing == previous {
          return Err(Malformed);
        }
      }
      previous := missing;
      wanted := missing;
    }
    return Err(Malformed);
  }

  lemma {:induction false} NothingHeld(file: seq<byte>, pageSize: nat)
    ensures Coherent(map[], file, pageSize)
  {
  }

  /** The window fetched before the first round: at least one page, and only pages the file has. */
  method Window(file: seq<byte>, pageSize: nat, prefetchBytes: nat) returns (wanted: set<nat>)
    requires |file| > 0 && pageSize > 0
    ensures wanted == WindowPages(|file|, pageSize, prefetchBytes)
    ensures wanted != {} && ArePages(wanted, file, pageSize)
  {
    var last := LastIndex(|file|, pageSize);
    QuotRemIs(prefetchBytes + pageSize - 1, pageSize);
    var window := Max((prefetchBytes + pageSize - 1) / pageSize, 1);
    wanted := PageRange(0, Min(window, last + 1) - 1);
    WindowIsPages(file, pageSize, prefetchBytes);
  }

  lemma {:induction false} NonemptySize(s: set<nat>)
    requires s != {}
    ensures |s| >= 1
  {
  }

  lemma {:induction false} Grown(a: set<nat>, b: set<nat>)
    requires a !! b && b != {}
    ensures |a + b| >= |a| + 1
  {
    NonemptySize(b);
  }
}
