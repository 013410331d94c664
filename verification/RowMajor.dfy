/**
 Row-major arithmetic over boxes of any rank: the reference against which strides, odometers,
 runs and chunk numbers are checked.
 */
module RowMajor {
  import opened Arith

  type Index = seq<nat>

  function Product(dims: seq<nat>): nat {
    if dims == [] then 1 else Mul(dims[0], Product(dims[1..]))
  }

  predicate InBox(index: Index, dims: seq<nat>) {
    |index| == |dims| && forall a :: 0 <= a < |dims| ==> index[a] < dims[a]
  }

  /** The row-major position of `index` in a box of extents `dims`. */
  function Ravel(index: Index, dims: seq<nat>): nat
    requires |index| == |dims|
  {
    if dims == [] then 0 else Mul(index[0], Product(dims[1..])) + Ravel(index[1..], dims[1..])
  }

  /** The multi-index at row-major position `n`. */
  function Unravel(n: nat, dims: seq<nat>): (index: Index)
    requires n < Product(dims)
    ensures InBox(index, dims)
  {
    if dims == [] then []
    else
      var tail := Product(dims[1..]);
      QuotRemBound(n, dims[0], tail);
      [Quot(n, tail)] + Unravel(Rem(n, tail), dims[1..])
  }

  function Plus(a: Index, b: Index): (c: Index)
    requires |a| == |b|
    ensures |c| == |a| && forall i :: 0 <= i < |c| ==> c[i] == a[i] + b[i]
  {
    seq(|a|, i requires 0 <= i < |a| => a[i] + b[i])
  }

  function Minus(a: Index, b: Index): (c: Index)
    requires |a| == |b| && forall i :: 0 <= i < |a| ==> b[i] <= a[i]
    ensures |c| == |a| && forall i :: 0 <= i < |c| ==> c[i] == a[i] - b[i]
  {
    seq(|a|, i requires 0 <= i < |a| => a[i] - b[i])
  }

  /** Lexicographic order on multi-indexes of one rank. */
  predicate LexLess(a: Index, b: Index)
    requires |a| == |b|
  {
    a != [] && (a[0] < b[0] || (a[0] == b[0] && LexLess(a[1..], b[1..])))
  }

  // ---- products ----

  lemma {:induction false} ProductSplit(dims: seq<nat>, k: nat)
    requires k <= |dims|
    ensures Product(dims) == Mul(Product(dims[..k]), Product(dims[k..]))
  {
    if k == 0 {
      assert dims[0..] == dims;
      MulOne(Product(dims));
    } else {
      ProductSplit(dims[1..], k - 1);
      assert dims[1..][..k - 1] == dims[..k][1..];
      assert dims[1..][k - 1..] == dims[k..];
      MulAssoc(dims[0], Product(dims[..k][1..]), Product(dims[k..]));
    }
  }

  lemma {:induction false} ProductSnoc(dims: seq<nat>, k: nat)
    requires k < |dims|
    ensures Product(dims[..k + 1]) == Mul(Product(dims[..k]), dims[k])
  {
    ProductSplit(dims[..k + 1], k);
    assert dims[..k + 1][..k] == dims[..k] && dims[..k + 1][k..] == [dims[k]];
    MulOne(dims[k]);
  }

  lemma {:induction false} ProductPositive(dims: seq<nat>)
    ensures Product(dims) > 0 <==> forall a :: 0 <= a < |dims| ==> dims[a] > 0
  {
    if dims != [] {
      ProductPositive(dims[1..]);
      MulPositive(dims[0], Product(dims[1..]));
      assert forall a :: 0 <= a < |dims| ==> a == 0 || dims[a] == dims[1..][a - 1];
      assert forall a :: 0 <= a < |dims[1..]| ==> dims[1..][a] == dims[a + 1];
    }
  }

  // ---- ravel and unravel are inverse bijections ----

  lemma {:induction false} RavelBound(index: Index, dims: seq<nat>)
    requires InBox(index, dims)
    ensures Ravel(index, dims) < Product(dims)
  {
    if dims != [] {
      RavelBound(index[1..], dims[1..]);
      MulLe(index[0] + 1, dims[0], Product(dims[1..]));
    }
  }

  lemma {:induction false} RavelUnravel(n: nat, dims: seq<nat>)
    requires n < Product(dims)
    ensures Ravel(Unravel(n, dims), dims) == n
  {
    if dims != [] {
      var tail := Product(dims[1..]);
      QuotRemBound(n, dims[0], tail);
      RavelUnravel(Rem(n, tail), dims[1..]);
      assert Unravel(n, dims)[1..] == Unravel(Rem(n, tail), dims[1..]);
    }
  }

  lemma {:induction false} UnravelRavel(index: Index, dims: seq<nat>)
    requires InBox(index, dims)
    ensures Ravel(index, dims) < Product(dims)
    ensures Unravel(Ravel(index, dims), dims) == index
  {
    RavelBound(index, dims);
    if dims != [] {
      UnravelRavel(index[1..], dims[1..]);
      QuotRemUnique(index[0], Ravel(index[1..], dims[1..]), Product(dims[1..]));
    }
  }

  lemma {:induction false} RavelInjective(a: Index, b: Index, dims: seq<nat>)
    requires InBox(a, dims) && InBox(b, dims) && Ravel(a, dims) == Ravel(b, dims)
    ensures a == b
  {
    UnravelRavel(a, dims);
    UnravelRavel(b, dims);
  }

  /** Splitting the axes splits the position. The index need not lie in the box. */
  lemma {:induction false} RavelSplit(index: Index, dims: seq<nat>, k: nat)
    requires |index| == |dims| && k <= |dims|
    ensures Ravel(index, dims) == Mul(Ravel(index[..k], dims[..k]), Product(dims[k..])) + Ravel(index[k..], dims[k..])
  {
    if k == 0 {
      assert dims[0..] == dims && index[0..] == index;
    } else {
      RavelSplit(index[1..], dims[1..], k - 1);
      ProductSplit(dims[1..], k - 1);
      assert dims[1..][..k - 1] == dims[..k][1..] && index[1..][..k - 1] == index[..k][1..];
      assert dims[1..][k - 1..] == dims[k..] && index[1..][k - 1..] == index[k..];
      var p, q, r := Product(dims[..k][1..]), Product(dims[k..]), Ravel(index[..k][1..], dims[..k][1..]);
      MulAssoc(index[0], p, q);
      MulAdd(Mul(index[0], p), r, q);
    }
  }

  /** One axis peeled off in the middle. */
  lemma {:induction false} RavelAt(index: Index, dims: seq<nat>, k: nat)
    requires |index| == |dims| && k < |dims|
    ensures Ravel(index, dims) == Mul(Ravel(index[..k], dims[..k]), Product(dims[k..]))
                                  + Mul(index[k], Product(dims[k + 1..])) + Ravel(index[k + 1..], dims[k + 1..])
  {
    RavelSplit(index, dims, k);
    assert index[k..][1..] == index[k + 1..] && dims[k..][1..] == dims[k + 1..];
  }

  /** One Horner step. */
  lemma {:induction false} RavelSnoc(coord: Index, dims: seq<nat>, k: nat)
    requires k < |coord| <= |dims|
    ensures Ravel(coord[..k + 1], dims[..k + 1]) == Mul(Ravel(coord[..k], dims[..k]), dims[k]) + coord[k]
  {
    var c, d := coord[..k + 1], dims[..k + 1];
    RavelSplit(c, d, k);
    assert c[..k] == coord[..k] && d[..k] == dims[..k];
    assert c[k..] == [coord[k]] && d[k..] == [dims[k]];
    MulOne(dims[k]);
    MulOne(coord[k]);
  }

  lemma {:induction false} RavelZero(index: Index, dims: seq<nat>)
    requires |index| == |dims| && forall a :: 0 <= a < |index| ==> index[a] == 0
    ensures Ravel(index, dims) == 0
  {
    if dims != [] {
      RavelZero(index[1..], dims[1..]);
    }
  }

  /** Inside one box, lexicographic order is the order of positions. */
  lemma {:induction false} RavelMonotone(a: Index, b: Index, dims: seq<nat>)
    requires InBox(a, dims) && InBox(b, dims)
    ensures LexLess(a, b) <==> Ravel(a, dims) < Ravel(b, dims)
  {
    if dims != [] {
      var tail := Product(dims[1..]);
      RavelBound(a[1..], dims[1..]);
      RavelBound(b[1..], dims[1..]);
      RavelMonotone(a[1..], b[1..], dims[1..]);
      if a[0] < b[0] {
        MulLe(a[0] + 1, b[0], tail);
      } else if b[0] < a[0] {
        MulLe(b[0] + 1, a[0], tail);
      }
    }
  }

  /** Adding one start to both sides keeps lexicographic order. */
  lemma {:induction false} LexLessPlus(start: Index, a: Index, b: Index)
    requires |start| == |a| == |b|
    ensures LexLess(a, b) <==> LexLess(Plus(start, a), Plus(start, b))
  {
    if a != [] {
      LexLessPlus(start[1..], a[1..], b[1..]);
      assert Plus(start, a)[1..] == Plus(start[1..], a[1..]);
      assert Plus(start, b)[1..] == Plus(start[1..], b[1..]);
    }
  }

  /** Splitting the axes splits the multi-index at a position. */
  lemma {:induction false} UnravelSplit(n: nat, dims: seq<nat>, k: nat)
    requires n < Product(dims) && k <= |dims|
    ensures Product(dims[k..]) > 0
    ensures Quot(n, Product(dims[k..])) < Product(dims[..k])
    ensures Unravel(n, dims) == Unravel(Quot(n, Product(dims[k..])), dims[..k]) + Unravel(Rem(n, Product(dims[k..])), dims[k..])
  {
    hide Ravel;
    hide Product;
    hide Unravel;
    var outer, inner := dims[..k], dims[k..];
    ProductSplit(dims, k);
    QuotRemBound(n, Product(outer), Product(inner));
    var a, b := Unravel(Quot(n, Product(inner)), outer), Unravel(Rem(n, Product(inner)), inner);
    RavelSplit(a + b, dims, k);
    assert (a + b)[..k] == a && (a + b)[k..] == b;
    RavelUnravel(Quot(n, Product(inner)), outer);
    RavelUnravel(Rem(n, Product(inner)), inner);
    UnravelRavel(a + b, dims);
  }

  /** The last digit of a multi-index. */
  lemma {:induction false} UnravelSnoc(n: nat, dims: seq<nat>)
    requires |dims| > 0 && n < Product(dims)
    ensures var k := |dims| - 1;
            && dims[k] > 0 && Quot(n, dims[k]) < Product(dims[..k])
            && Unravel(n, dims) == Unravel(Quot(n, dims[k]), dims[..k]) + [Rem(n, dims[k])]
  {
    var k := |dims| - 1;
    assert dims[k..] == [dims[k]];
    UnravelSplit(n, dims, k);
    MulOne(dims[k]);
    SingleDigit(Rem(n, dims[k]), dims[k]);
  }

  lemma {:induction false} SingleDigit(r: nat, d: nat)
    requires r < d
    ensures Product([d]) == d && Unravel(r, [d]) == [r]
  {
    MulOne(d);
    MulOne(r);
    QuotRemUnique(r, 0, 1);
  }
}
