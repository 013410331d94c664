/** The Fletcher-32 checksum of the `fletcher32` filter (`crates/oxcdf-hdf5/src/checksum.rs`). */
module Fletcher {
  import opened Basics

  const TWO16: nat := 0x1_0000
  const TWO32: nat := 0x1_0000_0000
  const MODULUS: nat := 65535
  /** Words summed between two reductions. */
  const BLOCK: nat := 360

  /** `u32::wrapping_add`. */
  function WrappingAdd(a: nat, b: nat): nat {
    (a + b) % TWO32
  }

  /** `(x & 0xffff) + (x >> 16)`. */
  function Fold(x: nat): nat {
    x % TWO16 + x / TWO16
  }

  // ---- the plain definition ----

  function WordCount(data: seq<byte>): nat {
    (|data| + 1) / 2
  }

  /** Big-endian 16-bit words, an odd last byte padded with zero. */
  function Word(data: seq<byte>, i: nat): (w: nat)
    requires i < WordCount(data)
    ensures w <= 65535
  {
    (data[2 * i] as int) * 256 + if 2 * i + 1 < |data| then data[2 * i + 1] as int else 0
  }

  function Sum(data: seq<byte>, n: nat): nat
    requires n <= WordCount(data)
  {
    if n == 0 then 0 else Sum(data, n - 1) + Word(data, n - 1)
  }

  /** The sum of the running sums. */
  function DoubleSum(data: seq<byte>, n: nat): nat
    requires n <= WordCount(data)
  {
    if n == 0 then 0 else DoubleSum(data, n - 1) + Sum(data, n)
  }

  /** Each of the first `n` words times its distance to position `top`. */
  function Weighted(data: seq<byte>, n: nat, top: nat): nat
    requires n <= WordCount(data) && n <= top
  {
    if n == 0 then 0 else Weighted(data, n - 1, top) + (top - (n - 1)) * Word(data, n - 1)
  }

  /** The sum of the running sums weighs every word by its position from the end. */
  lemma {:induction false} DoubleSumIsWeighted(data: seq<byte>, n: nat)
    requires n <= WordCount(data)
    ensures DoubleSum(data, n) == Weighted(data, n, n)
  {
    if n > 0 {
      DoubleSumIsWeighted(data, n - 1);
      WeightedShift(data, n - 1, n - 1);
    }
  }

  lemma {:induction false} WeightedShift(data: seq<byte>, n: nat, top: nat)
    requires n <= WordCount(data) && n <= top
    ensures Weighted(data, n, top + 1) == Weighted(data, n, top) + Sum(data, n)
  {
    if n > 0 {
      WeightedShift(data, n - 1, top);
      var w, k := Word(data, n - 1), top - (n - 1);
      assert (k + 1) * w == k * w + w;
    }
  }

  /** A sum reduced modulo 65535 to 16 bits, with zero only for zero. */
  function Reduced(x: nat): (r: nat)
    ensures r <= 65535
  {
    if x == 0 then 0 else (x - 1) % MODULUS + 1
  }

  function Checksum(data: seq<byte>): (r: nat)
    ensures r < TWO32
  {
    Reduced(DoubleSum(data, WordCount(data))) * TWO16 + Reduced(Sum(data, WordCount(data)))
  }

  /** The checksum in plain terms: its low half is the sum of the big-endian words modulo 65535 and its high half the sum
      weighted by position from the end, neither zero unless the sum is. */
  lemma {:induction false} ChecksumMeans(data: seq<byte>)
    ensures var n, low, high := (|data| + 1) / 2, Checksum(data) % 0x1_0000, Checksum(data) / 0x1_0000;
            && low % 65535 == Sum(data, n) % 65535 && (low == 0 <==> Sum(data, n) == 0)
            && high % 65535 == Weighted(data, n, n) % 65535 && (high == 0 <==> Weighted(data, n, n) == 0) && high <= 65535
  {
    hide Sum;
    hide DoubleSum;
    hide Weighted;
    var n := WordCount(data);
    DoubleSumIsWeighted(data, n);
    ReducedMeans(Sum(data, n));
    ReducedMeans(DoubleSum(data, n));
  }

  lemma {:induction false} ReducedMeans(x: nat)
    ensures Reduced(x) % 65535 == x % 65535 && (Reduced(x) == 0 <==> x == 0)
  {
  }

  /** Word by word: two bytes, the first one high, and zero for a missing one. */
  lemma {:induction false} SumsMean(data: seq<byte>, i: nat)
    requires i < (|data| + 1) / 2
    ensures var n, w := (|data| + 1) / 2, data[2 * i] as int * 256 + if 2 * i + 1 < |data| then data[2 * i + 1] as int else 0;
            && Sum(data, 0) == 0 && Sum(data, i + 1) == Sum(data, i) + w
            && Weighted(data, 0, n) == 0 && Weighted(data, i + 1, n) == Weighted(data, i, n) + (n - i) * w
  {
  }

  // ---- reductions ----

  /** An accumulator stands for a sum: congruent modulo 65535, and zero only with it. */
  ghost predicate StandsFor(acc: nat, sum: nat) {
    acc % MODULUS == sum % MODULUS && (acc == 0 <==> sum == 0)
  }

  lemma {:induction false} StandsAdd(acc: nat, sum: nat, a: nat, b: nat)
    requires StandsFor(acc, sum) && StandsFor(a, b)
    ensures StandsFor(acc + a, sum + b)
  {
    ModAdd(acc, a);
    ModAdd(sum, b);
  }

  lemma {:induction false} ModAdd(a: nat, b: nat)
    ensures (a + b) % MODULUS == (a % MODULUS + b % MODULUS) % MODULUS
  {
  }

  lemma {:induction false} StandsFold(acc: nat, sum: nat)
    requires StandsFor(acc, sum)
    ensures StandsFor(Fold(acc), sum)
  {
    var q := acc / TWO16;
    assert acc == q * MODULUS + Fold(acc);
    assert Fold(acc) % MODULUS == acc % MODULUS;
  }

  lemma {:induction false} StandsReduced(acc: nat, sum: nat)
    requires StandsFor(acc, sum) && acc <= 65535
    ensures acc == Reduced(sum)
  {
    if sum > 0 {
      assert (sum - 1) % MODULUS == (acc - 1) % MODULUS;
    }
  }

  // ---- the accumulators never wrap ----

  /** The largest second sum after `j` words of a block that started from a reduced first sum. */
  ghost function Peak(j: nat): nat {
    if j == 0 then 0 else Peak(j - 1) + 65896 + j * 65535
  }

  lemma {:induction false} PeakClosed(j: nat)
    ensures 2 * Peak(j) == j * 131792 + 65535 * (j * (j + 1))
  {
    if j > 0 {
      PeakClosed(j - 1);
      assert j * (j + 1) == (j - 1) * j + 2 * j;
    }
  }

  lemma {:induction false} PeakMonotone(j: nat, k: nat)
    requires j <= k
    ensures Peak(j) <= Peak(k)
  {
    if j < k {
      PeakMonotone(j, k - 1);
    }
  }

  /** A block of 360 words stays below 2^32. */
  lemma {:induction false} BlockFits(j: nat)
    requires j <= BLOCK
    ensures 131070 + Peak(j) <= 4282317930 < TWO32
  {
    PeakMonotone(j, BLOCK);
    PeakClosed(BLOCK);
  }

  /** Both sums after `j` words from `start`, over unbounded integers. */
  function Steps(data: seq<byte>, start: nat, j: nat, s1: nat, s2: nat): (nat, nat)
    requires start + j <= WordCount(data)
  {
    if j == 0 then (s1, s2)
    else
      var (a, b) := Steps(data, start, j - 1, s1, s2);
      var w := Word(data, start + j - 1);
      (a + w, b + (a + w))
  }

  /** Bytes 0xff, two blocks of 361 words. */
  function LongOnes(): seq<byte> {
    seq(4 * (BLOCK + 1), _ => 0xff)
  }

  /** `c + 1`, then `c + 2`, up to `c + j`, added up. */
  ghost function Ramp(c: nat, j: nat): nat {
    if j == 0 then 0 else Ramp(c, j - 1) + c + j
  }

  lemma {:induction false} RampClosed(c: nat, j: nat)
    requires c <= 1
    ensures 2 * Ramp(c, j) == j * (j + 1) + (if c == 1 then 2 * j else 0)
  {
    if j > 0 {
      RampClosed(c, j - 1);
      assert j * (j + 1) == (j - 1) * j + 2 * j;
    }
  }

  lemma {:induction false} OnesSteps(start: nat, j: nat, c: nat)
    requires start + j <= WordCount(LongOnes())
    ensures Steps(LongOnes(), start, j, 65535 * c, 65535 * c) == (65535 * (c + j), 65535 * (c + Ramp(c, j)))
  {
    if j > 0 {
      OnesSteps(start, j - 1, c);
      assert Word(LongOnes(), start + j - 1) == 65535;
    }
  }

  lemma {:induction false} FoldOnes(k: nat)
    requires 0 < k <= 65535
    ensures Fold(65535 * k) == 65535
  {
    assert 65535 * k == (k - 1) * TWO16 + (TWO16 - k);
  }

  /** With blocks of one word more, real data overflows: after a first block of words 0xffff both folded sums are 65535,
      and a second such block takes the second sum past 2^32. So 360 is the largest block. */
  lemma {:induction false} BlockIsTight()
    ensures var block, (a, b) := BLOCK + 1, Steps(LongOnes(), 0, BLOCK + 1, 0, 0);
            && a < TWO32 && b < TWO32
            && Steps(LongOnes(), block, block, Fold(a), Fold(b)).1 >= TWO32
  {
    hide Steps;
    hide Ramp;
    hide Fold;
    hide Word;
    var block := BLOCK + 1;
    OnesSteps(0, block, 0);
    OnesSteps(block, block, 1);
    RampClosed(0, block);
    RampClosed(1, block);
    FoldOnes(block);
    FoldOnes(Ramp(0, block));
  }

  /** One block of words. */
  method SumBlock(data: seq<byte>, start: nat, block: nat, s1: nat, s2: nat) returns (sum1: nat, sum2: nat)
    requires block <= BLOCK && 2 * (start + block) <= |data|
    requires s1 <= 65896 && s2 <= 131070
    requires StandsFor(s1, Sum(data, start)) && StandsFor(s2, DoubleSum(data, start))
    ensures (sum1, sum2) == Steps(data, start, block, s1, s2)
    ensures sum1 <= 23658496 && sum2 <= 4282317930
    ensures StandsFor(sum1, Sum(data, start + block)) && StandsFor(sum2, DoubleSum(data, start + block))
  {
    hide StandsFor;
    hide WrappingAdd;
    sum1, sum2 := s1, s2;
    for j := 0 to block
      invariant sum1 <= 65896 + j * 65535 && sum2 <= 131070 + Peak(j)
      invariant (sum1, sum2) == Steps(data, start, j, s1, s2)
      invariant StandsFor(sum1, Sum(data, start + j)) && StandsFor(sum2, DoubleSum(data, start + j))
    {
      var pos := 2 * (start + j);
      var w := (data[pos] as int) * 256 + data[pos + 1] as int;
      BlockFits(j + 1);
      WordStands(w);
      StandsAdd(sum1, Sum(data, start + j), w, Word(data, start + j));
      StandsAdd(sum2, DoubleSum(data, start + j), sum1 + w, Sum(data, start + j + 1));
      NoWrap(sum1, w);
      sum1 := WrappingAdd(sum1, w);
      NoWrap(sum2, sum1);
      sum2 := WrappingAdd(sum2, sum1);
    }
    BlockFits(block);
  }

  lemma {:induction false} WordStands(w: nat)
    ensures StandsFor(w, w)
  {
  }

  lemma {:induction false} NoWrap(a: nat, b: nat)
    requires a + b < TWO32
    ensures WrappingAdd(a, b) == a + b
  {
  }

  lemma {:induction false} FoldBounds(x: nat)
    ensures x <= 23658496 ==> Fold(x) <= 65896
    ensures x <= 4282317930 ==> Fold(x) <= 131070
    ensures x <= 262246 ==> Fold(x) <= 65539
    ensures x <= 131070 ==> Fold(x) <= 65535
  {
  }

  /** The checksum of a chunk: the 32-bit accumulators lose nothing. */
  method Fletcher32(data: seq<byte>) returns (r: nat)
    ensures r == Checksum(data)
  {
    hide StandsFor;
    hide Fold;
    hide Reduced;
    var sum1: nat, sum2: nat := 0, 0;
    var words := |data| / 2;
    var remaining: nat := words;
    WordStands(0);
    while remaining > 0
      invariant remaining <= words
      invariant sum1 <= 65896 && sum2 <= 131070
      invariant StandsFor(sum1, Sum(data, words - remaining)) && StandsFor(sum2, DoubleSum(data, words - remaining))
    {
      var block := Min(remaining, 360);
      var start := words - remaining;
      remaining := remaining - block;
      sum1, sum2 := SumBlock(data, start, block, sum1, sum2);
      FoldBounds(sum1);
      FoldBounds(sum2);
      StandsFold(sum1, Sum(data, start + block));
      StandsFold(sum2, DoubleSum(data, start + block));
      sum1, sum2 := Fold(sum1), Fold(sum2);
    }
    ghost var n := WordCount(data);
    if |data| % 2 == 1 {
      var w := (data[2 * words] as int) * 256;
      WordStands(w);
      StandsAdd(sum1, Sum(data, words), w, Word(data, words));
      StandsAdd(sum2, DoubleSum(data, words), sum1 + w, Sum(data, words + 1));
      NoWrap(sum1, w);
      sum1 := WrappingAdd(sum1, w);
      NoWrap(sum2, sum1);
      sum2 := WrappingAdd(sum2, sum1);
      FoldBounds(sum1);
      FoldBounds(sum2);
      StandsFold(sum1, Sum(data, n));
      StandsFold(sum2, DoubleSum(data, n));
      sum1, sum2 := Fold(sum1), Fold(sum2);
    }
    FoldBounds(sum1);
    FoldBounds(sum2);
    StandsFold(sum1, Sum(data, n));
    StandsFold(sum2, DoubleSum(data, n));
    sum1, sum2 := Fold(sum1), Fold(sum2);
    StandsReduced(sum1, Sum(data, n));
    StandsReduced(sum2, DoubleSum(data, n));
    r := sum2 * TWO16 + sum1;
  }
}
