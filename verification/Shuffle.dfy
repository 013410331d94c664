/** The byte shuffle and the bit shuffle (`crates/oxcdf-hdf5/src/filters.rs`). */
module Shuffles {
  import opened Basics
  import opened Arith
  import opened LittleEndian
  import Elements

  // ---- transposition ----

  /** Where entry `i` of a `cols` by `rows` matrix sits in its `rows` by `cols` transpose. */
  function Across(i: nat, rows: nat, cols: nat): nat
    requires rows > 0
  {
    Mul(Rem(i, rows), cols) + Quot(i, rows)
  }

  lemma {:induction false} CellBelow(r: nat, c: nat, rows: nat, cols: nat)
    requires r < rows && c < cols
    ensures Mul(r, cols) + c < Mul(rows, cols)
  {
    MulLe(r + 1, rows, cols);
  }

  lemma {:induction false} AcrossAt(r: nat, c: nat, rows: nat, cols: nat)
    requires r < rows && c < cols
    ensures Mul(c, rows) + r < Mul(rows, cols) && Mul(r, cols) + c < Mul(rows, cols)
    ensures Across(Mul(c, rows) + r, rows, cols) == Mul(r, cols) + c
  {
    CellBelow(r, c, rows, cols);
    CellBelow(c, r, cols, rows);
    MulComm(rows, cols);
    AcrossIs(r, c, rows, cols);
  }

  lemma {:induction false} AcrossIs(r: nat, c: nat, rows: nat, cols: nat)
    requires r < rows
    ensures Across(Mul(c, rows) + r, rows, cols) == Mul(r, cols) + c
  {
    var i := Mul(c, rows) + r;
    QuotRemUnique(c, r, rows);
    assert Rem(i, rows) == r && Quot(i, rows) == c;
  }

  /** Crossing over and back returns to the same place. */
  lemma {:induction false} AcrossTwice(i: nat, rows: nat, cols: nat)
    requires i < Mul(rows, cols)
    ensures rows > 0 && cols > 0
    ensures Across(i, rows, cols) < Mul(rows, cols)
    ensures Across(Across(i, rows, cols), cols, rows) == i
  {
    MulComm(rows, cols);
    QuotRemBound(i, cols, rows);
    MulPositive(rows, cols);
    var r, c := Rem(i, rows), Quot(i, rows);
    AcrossAt(r, c, rows, cols);
    QuotRemUnique(r, c, cols);
  }

  function Transpose<T>(s: seq<T>, rows: nat, cols: nat): (t: seq<T>)
    requires |s| == Mul(rows, cols)
    ensures |t| == |s|
  {
    seq(|s|, i requires 0 <= i < |s| => AcrossTwice(i, rows, cols); s[Across(i, rows, cols)])
  }

  lemma {:induction false} TransposeTwice<T>(s: seq<T>, rows: nat, cols: nat)
    requires |s| == Mul(rows, cols)
    ensures Mul(cols, rows) == |s| && Transpose(Transpose(s, rows, cols), cols, rows) == s
  {
    MulComm(rows, cols);
    var t := Transpose(s, rows, cols);
    forall i | 0 <= i < |s| ensures Transpose(t, cols, rows)[i] == s[i] {
      AcrossTwice(i, cols, rows);
    }
  }

  lemma {:induction false} TransposeAt<T>(s: seq<T>, rows: nat, cols: nat, r: nat, c: nat)
    requires |s| == Mul(rows, cols) && r < rows && c < cols
    ensures Mul(c, rows) + r < |s| && Mul(r, cols) + c < |s|
    ensures Transpose(s, rows, cols)[Mul(c, rows) + r] == s[Mul(r, cols) + c]
  {
    hide Mul;
    hide Across;
    AcrossAt(r, c, rows, cols);
  }

  // ---- byte shuffle ----

  /** The whole elements are transposed; bytes past them stay where they are. */
  function Shuffled(data: seq<byte>, width: nat): (r: seq<byte>)
    ensures |r| == |data|
  {
    if width <= 1 || |data| <= width then data
    else
      var count := Quot(|data|, width);
      QuotRem(|data|, width);
      Transpose(data[..Mul(count, width)], count, width) + data[Mul(count, width)..]
  }

  function Unshuffled(data: seq<byte>, width: nat): (r: seq<byte>)
    ensures |r| == |data|
  {
    if width <= 1 || |data| <= width then data
    else
      var count := Quot(|data|, width);
      QuotRem(|data|, width);
      MulComm(count, width);
      Transpose(data[..Mul(count, width)], width, count) + data[Mul(count, width)..]
  }

  lemma {:induction false} ShuffleRoundTrip(data: seq<byte>, width: nat)
    ensures Unshuffled(Shuffled(data, width), width) == data
    ensures Shuffled(Unshuffled(data, width), width) == data
  {
    hide Mul;
    hide Quot;
    hide Transpose;
    if width > 1 && |data| > width {
      var count := Quot(|data|, width);
      QuotRem(|data|, width);
      MulComm(count, width);
      var whole := Mul(count, width);
      TransposeTwice(data[..whole], count, width);
      TransposeTwice(data[..whole], width, count);
      var there, back := Shuffled(data, width), Unshuffled(data, width);
      assert there[..whole] == Transpose(data[..whole], count, width) && there[whole..] == data[whole..];
      assert back[..whole] == Transpose(data[..whole], width, count) && back[whole..] == data[whole..];
    }
  }

  /** Byte `c` of element `e` goes to place `e` of stream `c`; bytes past the last whole element stay. */
  ghost predicate IsShuffle(data: seq<byte>, width: nat, out: seq<byte>) {
    |out| == |data|
    && if width <= 1 || |data| <= width then out == data
       else
         && (forall e, c :: 0 <= e < |data| / width && 0 <= c < width ==>
               && Elements.ByteAt(c, |data| / width, e) < |data| && Elements.ByteAt(e, width, c) < |data|
               && out[Elements.ByteAt(c, |data| / width, e)] == data[Elements.ByteAt(e, width, c)])
         && forall x :: |data| / width * width <= x < |data| ==> out[x] == data[x]
  }

  lemma {:induction false} ShuffledMeans(data: seq<byte>, width: nat)
    ensures IsShuffle(data, width, Shuffled(data, width)) && IsShuffle(Unshuffled(data, width), width, data)
  {
    hide Mul;
    hide Quot;
    hide Transpose;
    if width > 1 && |data| > width {
      var count := Quot(|data|, width);
      QuotRem(|data|, width);
      QuotRemIs(|data|, width);
      MulIs(count, width);
      MulComm(count, width);
      var whole := Mul(count, width);
      var there, back := Shuffled(data, width), Unshuffled(data, width);
      assert back[whole..] == data[whole..] && there[whole..] == data[whole..];
      forall e, c | 0 <= e < count && 0 <= c < width
        ensures Elements.ByteAt(c, count, e) < |data| && Elements.ByteAt(e, width, c) < |data|
        ensures there[Elements.ByteAt(c, count, e)] == data[Elements.ByteAt(e, width, c)]
        ensures data[Elements.ByteAt(c, count, e)] == back[Elements.ByteAt(e, width, c)]
      {
        TransposeAt(data[..whole], count, width, e, c);
        TransposeAt(data[..whole], width, count, c, e);
      }
    }
  }

  /** Fill row `c` of the transpose from column `c`, and keep the rows before it. */
  method GatherRow(out: array<byte>, data: seq<byte>, rows: nat, cols: nat, c: nat)
    requires c < cols && Mul(rows, cols) <= |data| == out.Length
    requires Mul(c, rows) <= Mul(rows, cols)
    requires out[..Mul(c, rows)] == Transpose(data[..Mul(rows, cols)], rows, cols)[..Mul(c, rows)]
    modifies out
    ensures Mul(c + 1, rows) <= Mul(rows, cols)
    ensures out[..Mul(c + 1, rows)] == Transpose(data[..Mul(rows, cols)], rows, cols)[..Mul(c + 1, rows)]
  {
    hide Mul;
    hide Transpose;
    MulComm(rows, cols);
    MulLe(c + 1, cols, rows);
    MulAdd(c, 1, rows);
    MulOne(rows);
    MulIs(c, rows);
    var base := c * rows;
    ghost var whole := data[..Mul(rows, cols)];
    ghost var want := Transpose(whole, rows, cols);
    for r := 0 to rows
      invariant out[..base + r] == want[..base + r]
    {
      TransposeAt(whole, rows, cols, r, c);
      MulIs(r, cols);
      out[base + r] := data[r * cols + c];
      assert out[..base + r + 1] == out[..base + r] + [out[base + r]];
    }
  }

  /** Transpose the whole elements and carry the tail over: the loop both directions share. */
  method Gather(data: seq<byte>, rows: nat, cols: nat) returns (r: seq<byte>)
    requires Mul(rows, cols) <= |data|
    ensures r == Transpose(data[..Mul(rows, cols)], rows, cols) + data[Mul(rows, cols)..]
  {
    hide Mul;
    hide Transpose;
    var out := new byte[|data|](_ => 0);
    MulIs(rows, cols);
    var whole := rows * cols;
    ghost var want := Transpose(data[..whole], rows, cols);
    MulZero(rows);
    MulComm(rows, cols);
    for c := 0 to cols
      invariant Mul(c, rows) <= whole
      invariant out[..Mul(c, rows)] == want[..Mul(c, rows)]
    {
      GatherRow(out, data, rows, cols, c);
    }
    assert out[..whole] == want;
    return out[..whole] + data[whole..];
  }

  /** Apply the byte shuffle: one stream per byte position. */
  method Shuffle(data: seq<byte>, width: nat) returns (r: seq<byte>)
    ensures r == Shuffled(data, width) && IsShuffle(data, width, r)
  {
    hide Mul;
    ShuffledMeans(data, width);
    hide Quot;
    hide Transpose;
    hide IsShuffle;
    if width <= 1 || |data| <= width {
      return data;
    }
    QuotRemIs(|data|, width);
    QuotRem(|data|, width);
    r := Gather(data, |data| / width, width);
  }

  /** Undo the byte shuffle: gather each element from its streams. */
  method Unshuffle(data: seq<byte>, width: nat) returns (r: seq<byte>)
    ensures r == Unshuffled(data, width) && IsShuffle(r, width, data)
  {
    hide Mul;
    ShuffledMeans(data, width);
    hide Quot;
    hide Transpose;
    hide IsShuffle;
    if width <= 1 || |data| <= width {
      return data;
    }
    QuotRemIs(|data|, width);
    QuotRem(|data|, width);
    MulComm(|data| / width, width);
    r := Gather(data, width, |data| / width);
  }

  // ---- bits ----

  /** Bit `k`, least significant first. */
  predicate TestBit(b: nat, k: nat) {
    if k == 0 then b % 2 == 1 else TestBit(b / 2, k - 1)
  }

  /** Bit `k` of a number is the parity of the number shifted right by `k`. */
  lemma {:induction false} BitIs(b: nat, k: nat)
    ensures TestBit(b, k) <==> b / Pow2(k) % 2 == 1
  {
    if k > 0 {
      BitIs(b / 2, k - 1);
      HalfThenShift(b, Pow2(k - 1));
    }
  }

  lemma {:induction false} HalfThenShift(b: nat, p: nat)
    requires p > 0
    ensures b / 2 / p == b / (2 * p)
  {
    hide Mul;
    hide Quot;
    hide Rem;
    QuotRemIs(b / 2, p);
    QuotRemIs(b, 2 * p);
    QuotRem(b / 2, p);
    var q, r := Quot(b / 2, p), Rem(b / 2, p);
    MulIs(q, p);
    MulIs(q, 2 * p);
    assert q * (2 * p) == 2 * (q * p);
    QuotRemUnique(q, 2 * r + b % 2, 2 * p);
  }

  /** `b | 1 << k`. */
  function SetBit(b: nat, k: nat): nat {
    if k == 0 then b / 2 * 2 + 1 else SetBit(b / 2, k - 1) * 2 + b % 2
  }

  lemma {:induction false} SetBitTest(b: nat, k: nat, j: nat)
    ensures TestBit(SetBit(b, k), j) == (j == k || TestBit(b, j))
  {
    if k > 0 && j > 0 {
      SetBitTest(b / 2, k - 1, j - 1);
    }
  }

  lemma {:induction false} SetBitBound(b: nat, k: nat, n: nat)
    requires b < Pow2(n) && k < n
    ensures SetBit(b, k) < Pow2(n)
  {
    if k > 0 {
      SetBitBound(b / 2, k - 1, n - 1);
    }
  }

  /** Numbers of `n` bits with the same bits are equal. */
  lemma {:induction false} SameBits(a: nat, b: nat, n: nat)
    requires a < Pow2(n) && b < Pow2(n) && forall k :: 0 <= k < n ==> TestBit(a, k) == TestBit(b, k)
    ensures a == b
  {
    if n > 0 {
      assert TestBit(a, 0) == TestBit(b, 0);
      forall k | 0 <= k < n - 1 ensures TestBit(a / 2, k) == TestBit(b / 2, k) {
        assert TestBit(a, k + 1) == TestBit(b, k + 1);
      }
      SameBits(a / 2, b / 2, n - 1);
    }
  }

  function Bits(data: seq<byte>): (bits: seq<bool>)
    ensures |bits| == 8 * |data|
  {
    seq(8 * |data|, i requires 0 <= i < 8 * |data| => TestBit(data[i / 8], i % 8))
  }

  lemma {:induction false} BitsInjective(a: seq<byte>, b: seq<byte>)
    requires Bits(a) == Bits(b)
    ensures a == b
  {
    assert 8 * |a| == |Bits(a)| == |Bits(b)| == 8 * |b|;
    forall i | 0 <= i < |a| ensures a[i] == b[i] {
      forall k | 0 <= k < 8 ensures TestBit(a[i], k) == TestBit(b[i], k) {
        assert Bits(a)[8 * i + k] == Bits(b)[8 * i + k];
        assert (8 * i + k) / 8 == i && (8 * i + k) % 8 == k;
      }
      Pow2Word();
      SameBits(a[i], b[i], 8);
    }
  }

  // ---- bit shuffle ----

  /** The elements' bits as a matrix, one row per element, transposed. Data that is not whole elements is left alone. */
  ghost predicate IsBitshuffled(data: seq<byte>, width: nat, out: seq<byte>) {
    if width == 0 || Rem(|data|, width) != 0 then out == data
    else
      BitMatrix(data, width);
      |out| == |data| && Bits(out) == Transpose(Bits(data), Quot(|data|, width), 8 * width)
  }

  ghost predicate IsUnbitshuffled(data: seq<byte>, width: nat, out: seq<byte>) {
    if width == 0 || Rem(|data|, width) != 0 then out == data
    else
      BitMatrix(data, width);
      |out| == |data| && Bits(out) == Transpose(Bits(data), 8 * width, Quot(|data|, width))
  }

  lemma {:induction false} BitMatrix(data: seq<byte>, width: nat)
    requires width > 0 && Rem(|data|, width) == 0
    ensures Mul(Quot(|data|, width), 8 * width) == Mul(8 * width, Quot(|data|, width)) == 8 * |data|
  {
    hide Mul;
    hide Quot;
    hide Rem;
    var elements := Quot(|data|, width);
    QuotRem(|data|, width);
    MulComm(elements, 8 * width);
    MulComm(elements, width);
    MulEight(width, elements);
  }

  lemma {:induction false} MulEight(a: nat, b: nat)
    ensures Mul(8 * a, b) == 8 * Mul(a, b)
  {
    hide Mul;
    MulIs(8 * a, b);
    MulIs(a, b);
    assert 8 * a * b == 8 * (a * b);
  }

  /** Bit `c` of element `e`, its bytes low bits first, goes to place `e` of stream `c`. */
  lemma {:induction false} BitshuffledMeans(data: seq<byte>, width: nat, out: seq<byte>, e: nat, c: nat)
    requires width > 0 && |data| % width == 0 && e < |data| / width && c < 8 * width
    ensures IsBitshuffled(data, width, out) ==>
              var to, from := Elements.ByteAt(c, |data| / width, e), Elements.ByteAt(e, 8 * width, c);
              to / 8 < |out| == |data| && from / 8 < |data| && TestBit(out[to / 8], to % 8) == TestBit(data[from / 8], from % 8)
    ensures IsUnbitshuffled(out, width, data) && |out| == |data| ==>
              var to, from := Elements.ByteAt(c, |data| / width, e), Elements.ByteAt(e, 8 * width, c);
              to / 8 < |out| && from / 8 < |data| && TestBit(out[to / 8], to % 8) == TestBit(data[from / 8], from % 8)
  {
    hide Mul;
    hide Quot;
    hide Transpose;
    hide TestBit;
    QuotRemIs(|data|, width);
    BitMatrix(data, width);
    var count := Quot(|data|, width);
    var to, from := Elements.ByteAt(c, count, e), Elements.ByteAt(e, 8 * width, c);
    if IsBitshuffled(data, width, out) {
      TransposeAt(Bits(data), count, 8 * width, e, c);
      assert Bits(out)[to] == Bits(data)[from];
    }
    if IsUnbitshuffled(out, width, data) && |out| == |data| {
      BitMatrix(out, width);
      TransposeAt(Bits(out), 8 * width, count, c, e);
      assert Bits(data)[from] == Bits(out)[to];
    }
  }

  /** Bit shuffle and its inverse undo each other, for every buffer and width. */
  lemma {:induction false} BitshuffleRoundTrip(data: seq<byte>, width: nat, mid: seq<byte>, out: seq<byte>)
    requires (IsBitshuffled(data, width, mid) && IsUnbitshuffled(mid, width, out))
             || (IsUnbitshuffled(data, width, mid) && IsBitshuffled(mid, width, out))
    ensures out == data
  {
    hide Mul;
    hide Quot;
    hide Transpose;
    hide Bits;
    if width > 0 && Rem(|data|, width) == 0 {
      var elements := Quot(|data|, width);
      BitMatrix(data, width);
      BitsLength(data);
      TransposeTwice(Bits(data), elements, 8 * width);
      TransposeTwice(Bits(data), 8 * width, elements);
      BitsInjective(out, data);
    }
  }

  lemma {:induction false} BitsLength(data: seq<byte>)
    ensures |Bits(data)| == 8 * |data|
  {
  }

  /** Exactly the first `done` source bits have been carried over the transposition. */
  ghost predicate Carried(data: seq<byte>, now: seq<byte>, rows: nat, cols: nat, done: nat) {
    |now| == |data| && 8 * |data| == Mul(rows, cols) &&
    forall d :: 0 <= d < 8 * |data| ==> CarriedAt(data, now, rows, cols, done, d)
  }

  /** Bit `d` of the output is its source bit if that was carried, and clear otherwise. */
  ghost predicate CarriedAt(data: seq<byte>, now: seq<byte>, rows: nat, cols: nat, done: nat, d: nat)
    requires |now| == |data| && 8 * |data| == Mul(rows, cols) && d < 8 * |data|
  {
    AcrossTwice(d, rows, cols);
    Bits(now)[d] == (Across(d, rows, cols) < done && Bits(data)[Across(d, rows, cols)])
  }

  lemma {:induction false} NoneCarried(data: seq<byte>, now: seq<byte>, rows: nat, cols: nat)
    requires |now| == |data| && 8 * |data| == Mul(rows, cols) && forall i :: 0 <= i < |now| ==> now[i] == 0
    ensures Carried(data, now, rows, cols, 0)
  {
    forall d | 0 <= d < 8 * |data| ensures CarriedAt(data, now, rows, cols, 0, d) {
      AcrossTwice(d, rows, cols);
      ZeroBits(d % 8);
    }
  }

  lemma {:induction false} ZeroBits(k: nat)
    ensures !TestBit(0, k)
  {
    if k > 0 {
      ZeroBits(k - 1);
    }
  }

  lemma {:induction false} AllCarried(data: seq<byte>, now: seq<byte>, rows: nat, cols: nat)
    requires Carried(data, now, rows, cols, Mul(rows, cols))
    ensures Bits(now) == Transpose(Bits(data), rows, cols)
  {
    forall d | 0 <= d < 8 * |data| ensures Bits(now)[d] == Transpose(Bits(data), rows, cols)[d] {
      assert CarriedAt(data, now, rows, cols, Mul(rows, cols), d);
      AcrossTwice(d, rows, cols);
    }
  }

  /** Carrying the source bit at row `r`, column `c`: set the destination bit when it is one. */
  lemma {:induction false} CarryStep(data: seq<byte>, now: seq<byte>, next: seq<byte>, rows: nat, cols: nat, r: nat, c: nat)
    requires r < rows && c < cols && Carried(data, now, rows, cols, Mul(r, cols) + c)
    requires Mul(r, cols) + c < 8 * |data| && Mul(c, rows) + r < 8 * |data|
    requires |next| == |now| && forall d :: 0 <= d < 8 * |data| ==>
               Bits(next)[d] == (Bits(now)[d] || (d == Mul(c, rows) + r && Bits(data)[Mul(r, cols) + c]))
    ensures Carried(data, next, rows, cols, Mul(r, cols) + c + 1)
  {
    hide Mul;
    hide Bits;
    hide Across;
    BitsLength(now);
    BitsLength(next);
    BitsLength(data);
    var src, dst := Mul(r, cols) + c, Mul(c, rows) + r;
    var done := src + 1;
    forall d | 0 <= d < 8 * |data| ensures CarriedAt(data, next, rows, cols, done, d) {
      assert CarriedAt(data, now, rows, cols, src, d);
      AcrossTwice(d, rows, cols);
      AcrossAt(r, c, rows, cols);
      AcrossTwice(dst, rows, cols);
    }
  }

  /** `out[bit / 8] |= 1 << (bit % 8)`. */
  method SetBitAt(out: array<byte>, bit: nat)
    requires bit < 8 * out.Length
    modifies out
    ensures forall d :: 0 <= d < 8 * out.Length ==> Bits(out[..])[d] == (d == bit || old(Bits(out[..]))[d])
  {
    ghost var was := out[..];
    Pow2Word();
    SetBitBound(out[bit / 8], bit % 8, 8);
    out[bit / 8] := SetBit(out[bit / 8], bit % 8);
    forall d | 0 <= d < 8 * out.Length ensures Bits(out[..])[d] == (d == bit || Bits(was)[d]) {
      SetBitTest(was[bit / 8], bit % 8, d % 8);
      if d / 8 == bit / 8 && d % 8 == bit % 8 {
        assert d == bit;
      }
    }
  }

  /** Carry every bit of `data`, read as `rows` rows of `cols` bits, to its transposed place. */
  method CarryBits(data: seq<byte>, rows: nat, cols: nat) returns (r: seq<byte>)
    requires 8 * |data| == Mul(rows, cols)
    ensures |r| == |data| && Bits(r) == Transpose(Bits(data), rows, cols)
  {
    hide Mul;
    hide Carried;
    hide TestBit;
    var out := new byte[|data|](_ => 0);
    NoneCarried(data, out[..], rows, cols);
    MulZero(cols);
    for row := 0 to rows
      invariant Carried(data, out[..], rows, cols, Mul(row, cols))
    {
      for col := 0 to cols
        invariant Carried(data, out[..], rows, cols, Mul(row, cols) + col)
      {
        AcrossAt(row, col, rows, cols);
        MulIs(row, cols);
        MulIs(col, rows);
        var srcBit, dstBit := row * cols + col, col * rows + row;
        ghost var was := out[..];
        if TestBit(data[srcBit / 8], srcBit % 8) {
          SetBitAt(out, dstBit);
        }
        CarryStep(data, was, out[..], rows, cols, row, col);
      }
      MulAdd(row, 1, cols);
      MulOne(cols);
    }
    AllCarried(data, out[..], rows, cols);
    return out[..];
  }

  /** Bit streams out of whole elements. */
  method Bitshuffle(data: seq<byte>, width: nat) returns (r: seq<byte>)
    ensures IsBitshuffled(data, width, r)
  {
    hide Quot;
    hide Rem;
    hide Transpose;
    hide Bits;
    if width == 0 {
      return data;
    }
    QuotRemIs(|data|, width);
    if |data| % width != 0 {
      return data;
    }
    BitMatrix(data, width);
    r := CarryBits(data, |data| / width, 8 * width);
  }

  /** Whole elements out of bit streams. */
  method Unbitshuffle(data: seq<byte>, width: nat) returns (r: seq<byte>)
    ensures IsUnbitshuffled(data, width, r)
  {
    hide Quot;
    hide Rem;
    hide Transpose;
    hide Bits;
    if width == 0 {
      return data;
    }
    QuotRemIs(|data|, width);
    if |data| % width != 0 {
      return data;
    }
    BitMatrix(data, width);
    r := CarryBits(data, 8 * width, |data| / width);
  }
}
