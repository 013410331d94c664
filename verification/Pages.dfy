/** A file cut into fixed-size pages, the last one possibly short. */
module Pages {
  import opened Basics
  import opened Arith

  /** Page `index` exists: the file reaches into it. */
  predicate IsPage(file: seq<byte>, pageSize: nat, index: nat) {
    Mul(index, pageSize) < |file|
  }

  function PageEnd(file: seq<byte>, pageSize: nat, index: nat): nat {
    Min(Mul(index + 1, pageSize), |file|)
  }

  /** The file's bytes on one page. */
  function Page(file: seq<byte>, pageSize: nat, index: nat): (p: seq<byte>)
    requires IsPage(file, pageSize, index)
    ensures |p| == PageEnd(file, pageSize, index) - Mul(index, pageSize)
  {
    file[Mul(index, pageSize)..PageEnd(file, pageSize, index)]
  }

  /** Every page held is the file's own. */
  ghost predicate Coherent(pages: map<nat, seq<byte>>, file: seq<byte>, pageSize: nat) {
    forall i :: i in pages ==> IsPage(file, pageSize, i) && pages[i] == Page(file, pageSize, i)
  }

  lemma {:induction false} CoherentMinus(pages: map<nat, seq<byte>>, dropped: set<nat>, file: seq<byte>, pageSize: nat)
    requires Coherent(pages, file, pageSize)
    ensures Coherent(pages - dropped, file, pageSize)
  {
  }

  lemma {:induction false} CoherentPut(held: map<nat, seq<byte>>, pages: map<nat, seq<byte>>, i: nat, file: seq<byte>, pageSize: nat)
    requires Coherent(held, file, pageSize) && Coherent(pages, file, pageSize) && i in pages
    ensures Coherent(held[i := pages[i]], file, pageSize)
  {
  }

  lemma {:induction false} PageMonotone(file: seq<byte>, pageSize: nat, i: nat, j: nat)
    requires i <= j && IsPage(file, pageSize, j)
    ensures IsPage(file, pageSize, i) && Mul(i, pageSize) <= Mul(j, pageSize)
    ensures i < j ==> Mul(i + 1, pageSize) <= Mul(j, pageSize)
  {
    MulLe(i, j, pageSize);
    if i < j {
      MulLe(i + 1, j, pageSize);
    }
  }

  /** The page a byte lies on. */
  lemma {:induction false} PageOfByte(file: seq<byte>, pageSize: nat, x: nat)
    requires pageSize > 0 && x < |file|
    ensures IsPage(file, pageSize, Quot(x, pageSize))
    ensures Mul(Quot(x, pageSize), pageSize) <= x < PageEnd(file, pageSize, Quot(x, pageSize))
    ensures Mul(Quot(x, pageSize) + 1, pageSize) == Mul(Quot(x, pageSize), pageSize) + pageSize
  {
    QuotRem(x, pageSize);
  }

  /** A slice of a fetched run of pages is one of its pages. */
  lemma {:induction false} RunPage(file: seq<byte>, pageSize: nat, start: nat, end: nat, index: nat)
    requires pageSize > 0 && start <= index <= end && IsPage(file, pageSize, end)
    ensures Mul(start, pageSize) <= PageEnd(file, pageSize, end)
    ensures IsPage(file, pageSize, index)
    ensures var at := Mul(index - start, pageSize);
            var bytes := file[Mul(start, pageSize)..PageEnd(file, pageSize, end)];
            && at < |bytes|
            && bytes[at..at + Min(pageSize, |bytes| - at)] == Page(file, pageSize, index)
  {
    hide Mul;
    var begin, stop := Mul(start, pageSize), PageEnd(file, pageSize, end);
    var at := Mul(index - start, pageSize);
    MulAdd(start, index - start, pageSize);
    PageMonotone(file, pageSize, index, end);
    PageMonotone(file, pageSize, start, index);
    MulAdd(index, 1, pageSize);
    MulAdd(end, 1, pageSize);
    MulOne(pageSize);
    var take := Min(pageSize, stop - begin - at);
    assert begin + at + take == PageEnd(file, pageSize, index);
    SliceOfSlice(file, begin, stop, at, at + take);
  }

  // ---- stitching a range back together ----

  /** Where the assembled bytes end before page `index` is taken. */
  ghost function CutAt(pageSize: nat, offset: nat, len: nat, first: nat, index: nat): nat {
    if index == first then offset else Min(offset + len, Mul(index, pageSize))
  }

  lemma {:induction false} CutFirst(pageSize: nat, offset: nat, len: nat, first: nat)
    ensures CutAt(pageSize, offset, len, first, first) == offset
  {
  }

  lemma {:induction false} OnePage(file: seq<byte>, pageSize: nat, offset: nat, len: nat)
    requires pageSize > 0 && len > 0 && offset + len <= |file|
    requires Quot(offset, pageSize) == Quot(offset + len - 1, pageSize)
    ensures var first := Quot(offset, pageSize);
            && IsPage(file, pageSize, first) && Mul(first, pageSize) <= offset
            && (var at := offset - Mul(first, pageSize);
                at + len <= |Page(file, pageSize, first)|
                && Page(file, pageSize, first)[at..at + len] == file[offset..offset + len])
  {
    hide Mul;
    hide Quot;
    PageOfByte(file, pageSize, offset);
    PageOfByte(file, pageSize, offset + len - 1);
    var first := Quot(offset, pageSize);
    var at := offset - Mul(first, pageSize);
    SliceOfSlice(file, Mul(first, pageSize), PageEnd(file, pageSize, first), at, at + len);
  }

  lemma {:induction false} AssembleStep(file: seq<byte>, pageSize: nat, offset: nat, len: nat, first: nat, index: nat, last: nat)
    requires pageSize > 0 && len > 0 && offset + len <= |file| && first <= index <= last
    requires first == Quot(offset, pageSize) && last == Quot(offset + len - 1, pageSize)
    ensures IsPage(file, pageSize, index)
    ensures var start, page, cut := Mul(index, pageSize), Page(file, pageSize, index), CutAt(pageSize, offset, len, first, index);
            var to := Min(offset + len, start + |page|);
            && Max(offset, start) == cut < to == CutAt(pageSize, offset, len, first, index + 1)
            && page[cut - start..to - start] == file[cut..to]
  {
    hide Mul;
    hide Quot;
    hide CutAt;
    hide PageEnd;
    CutsMeet(file, pageSize, offset, len, first, index, last);
    var start, cut := Mul(index, pageSize), CutAt(pageSize, offset, len, first, index);
    var to := Min(offset + len, PageEnd(file, pageSize, index));
    SliceOfSlice(file, start, PageEnd(file, pageSize, index), cut - start, to - start);
  }

  /** The piece taken from one page ends where the next page's piece begins. */
  lemma {:induction false} CutsMeet(file: seq<byte>, pageSize: nat, offset: nat, len: nat, first: nat, index: nat, last: nat)
    requires pageSize > 0 && len > 0 && offset + len <= |file| && first <= index <= last
    requires first == Quot(offset, pageSize) && last == Quot(offset + len - 1, pageSize)
    ensures IsPage(file, pageSize, index)
    ensures var cut := CutAt(pageSize, offset, len, first, index);
            && Max(offset, Mul(index, pageSize)) == cut
            && cut < Min(offset + len, PageEnd(file, pageSize, index)) == CutAt(pageSize, offset, len, first, index + 1)
    ensures Mul(index, pageSize) <= PageEnd(file, pageSize, index) <= |file|
  {
    hide Mul;
    hide Quot;
    PageOfByte(file, pageSize, offset);
    PageOfByte(file, pageSize, offset + len - 1);
    PageMonotone(file, pageSize, index, last);
    PageMonotone(file, pageSize, first, index);
    MulAdd(index, 1, pageSize);
    MulOne(pageSize);
  }

  lemma {:induction false} AssembleDone(file: seq<byte>, pageSize: nat, offset: nat, len: nat, first: nat, last: nat)
    requires pageSize > 0 && len > 0 && offset + len <= |file| && first <= last
    requires first == Quot(offset, pageSize) && last == Quot(offset + len - 1, pageSize)
    ensures CutAt(pageSize, offset, len, first, last + 1) == offset + len
  {
    hide Mul;
    hide Quot;
    PageOfByte(file, pageSize, offset + len - 1);
  }
}
