/** Byte buffers seen as arrays of fixed-width elements, and the block copy every read is made of. */
module Elements {
  import opened Basics
  import opened Arith

  /** The image that starts at byte `base` of `data` reaches past its element `i`, `width` bytes wide. */
  predicate Has(data: seq<byte>, base: nat, i: nat, width: nat) {
    base + Mul(i, width) + width <= |data|
  }

  /** The place of byte `k` of element `e`. */
  function ByteAt(e: nat, width: nat, k: nat): (at: nat)
    ensures at == Mul(e, width) + k
  {
    Mul(e, width) + k
  }

  /** The place of the byte as far from the end of its element as byte `k` is from the start. */
  function MirrorAt(e: nat, width: nat, k: nat): (at: nat)
    requires k < width
    ensures at == Mul(e, width) + (width - 1 - k)
  {
    Mul(e, width) + (width - 1 - k)
  }

  function Slice(data: seq<byte>, at: nat, len: nat): (r: seq<byte>)
    requires at + len <= |data|
    ensures |r| == len
  {
    data[at..at + len]
  }

  function StoredElement(data: seq<byte>, base: nat, i: nat, width: nat): seq<byte>
    requires Has(data, base, i, width)
  {
    Slice(data, base + Mul(i, width), width)
  }

  function Element(data: seq<byte>, i: nat, width: nat): seq<byte>
    requires Has(data, 0, i, width)
  {
    StoredElement(data, 0, i, width)
  }

  /** `buf` with `piece` written at byte `at`. */
  function Splice(buf: seq<byte>, at: nat, piece: seq<byte>): (r: seq<byte>)
    requires at + |piece| <= |buf|
    ensures |r| == |buf|
  {
    buf[..at] + piece + buf[at + |piece|..]
  }

  lemma {:induction false} HasLess(data: seq<byte>, base: nat, i: nat, n: nat, width: nat)
    requires i < n && base + Mul(n, width) <= |data|
    ensures Has(data, base, i, width)
  {
    MulLe(i + 1, n, width);
  }

  /** `out[db..db + len].copy_from_slice(..)` for a run of whole elements. */
  method CopyRun(out: array<byte>, dst: nat, data: seq<byte>, base: nat, src: nat, run: nat, width: nat)
    requires Mul(dst, width) + Mul(run, width) <= out.Length
    requires base + Mul(src, width) + Mul(run, width) <= |data|
    modifies out
    ensures out[..] == old(Splice(out[..], Mul(dst, width),
                                  Slice(data, base + Mul(src, width), Mul(run, width))))
  {
    hide Mul;
    MulIs(src, width);
    MulIs(dst, width);
    MulIs(run, width);
    var sb := base + src * width;
    var db := dst * width;
    var len := run * width;
    CopyBytes(out, db, Slice(data, sb, len));
  }

  method CopyBytes(out: array<byte>, at: nat, piece: seq<byte>)
    requires at + |piece| <= out.Length
    modifies out
    ensures out[..] == old(Splice(out[..], at, piece))
  {
    forall k | 0 <= k < |piece| {
      out[at + k] := piece[k];
    }
  }

  lemma {:induction false} SpliceKeeps(buf: seq<byte>, at: nat, piece: seq<byte>, x: nat, width: nat)
    requires at + |piece| <= |buf| && x + width <= |buf|
    requires x + width <= at || at + |piece| <= x
    ensures Slice(Splice(buf, at, piece), x, width) == Slice(buf, x, width)
  {
  }

  lemma {:induction false} SpliceWrites(buf: seq<byte>, at: nat, data: seq<byte>, from: nat, len: nat, k: nat, width: nat)
    requires at + len <= |buf| && from + len <= |data| && k + width <= len
    ensures Slice(Splice(buf, at, Slice(data, from, len)), at + k, width) == Slice(data, from + k, width)
  {
    var r := Splice(buf, at, Slice(data, from, len));
    assert forall i :: at <= i < at + len ==> r[i] == data[from + (i - at)];
  }

  /** Splicing whole elements replaces those elements... */
  lemma {:induction false} SplicedElement(buf: seq<byte>, dst: nat, data: seq<byte>, base: nat, src: nat, run: nat, width: nat, k: nat)
    requires Mul(dst, width) + Mul(run, width) <= |buf|
    requires base + Mul(src, width) + Mul(run, width) <= |data|
    requires k < run
    ensures Has(buf, 0, dst + k, width) && Has(data, base, src + k, width)
    ensures Element(Splice(buf, Mul(dst, width), Slice(data, base + Mul(src, width), Mul(run, width))), dst + k, width)
         == StoredElement(data, base, src + k, width)
  {
    hide Mul;
    hide Splice;
    hide Slice;
    MulAdd(dst, k, width);
    MulAdd(src, k, width);
    MulAt(k, run - k, width);
    SpliceWrites(buf, Mul(dst, width), data, base + Mul(src, width), Mul(run, width), Mul(k, width), width);
  }

  /** ... and no others. */
  lemma {:induction false} KeptElement(buf: seq<byte>, dst: nat, piece: seq<byte>, run: nat, width: nat, e: nat)
    requires |piece| == Mul(run, width) && Mul(dst, width) + |piece| <= |buf|
    requires Has(buf, 0, e, width) && !(dst <= e < dst + run)
    ensures Element(Splice(buf, Mul(dst, width), piece), e, width) == Element(buf, e, width)
  {
    hide Mul;
    hide Splice;
    hide Slice;
    if e < dst {
      MulAt(e, dst - e, width);
    } else {
      MulAdd(dst, run, width);
      MulLe(dst + run, e, width);
    }
    SpliceKeeps(buf, Mul(dst, width), piece, Mul(e, width), width);
  }

  lemma {:induction false} MulAt(a: nat, b: nat, width: nat)
    requires b > 0
    ensures Mul(a, width) + width <= Mul(a + b, width)
  {
    MulLe(a + 1, a + b, width);
  }

  lemma {:induction false} ElementByte(data: seq<byte>, e: nat, width: nat, k: nat)
    requires Has(data, 0, e, width) && k < width
    ensures Element(data, e, width)[k] == data[Mul(e, width) + k]
  {
  }

  /** Buffers of whole elements are equal when their elements are. */
  lemma {:induction false} SameElements(a: seq<byte>, b: seq<byte>, n: nat, width: nat)
    requires |a| == |b| == Mul(n, width)
    requires forall e :: 0 <= e < n ==> Has(a, 0, e, width) && Has(b, 0, e, width) && Element(a, e, width) == Element(b, e, width)
    ensures a == b
  {
    hide Mul;
    hide Quot;
    hide Rem;
    forall x | 0 <= x < |a| ensures a[x] == b[x] {
      QuotRemBound(x, n, width);
      var e := Quot(x, width);
      ElementByte(a, e, width, Rem(x, width));
      ElementByte(b, e, width, Rem(x, width));
    }
  }
}
