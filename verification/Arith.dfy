/**
 Multiplication and division as named functions. Row-major arithmetic multiplies and divides by
 products of unknown dimensions; stating it over these functions keeps every proof about it linear,
 and `MulIs` and `QuotRemIs` tie them to the built-in operators.
 */
module Arith {

  function Mul(a: nat, b: nat): nat {
    if a == 0 then 0 else Mul(a - 1, b) + b
  }

  function Quot(n: nat, d: nat): nat
    requires d > 0
  {
    if n < d then 0 else Quot(n - d, d) + 1
  }

  function Rem(n: nat, d: nat): (r: nat)
    requires d > 0
    ensures r < d
  {
    if n < d then n else Rem(n - d, d)
  }

  lemma {:induction false} MulIs(a: nat, b: nat)
    ensures Mul(a, b) == a * b
  {
    if a > 0 {
      MulIs(a - 1, b);
    }
  }

  lemma {:induction false} MulZero(b: nat)
    ensures Mul(0, b) == 0
  {
  }

  lemma {:induction false} MulAdd(a: nat, b: nat, c: nat)
    ensures Mul(a + b, c) == Mul(a, c) + Mul(b, c)
  {
    if a > 0 {
      MulAdd(a - 1, b, c);
    }
  }

  lemma {:induction false} MulComm(a: nat, b: nat)
    ensures Mul(a, b) == Mul(b, a)
    decreases a + b
  {
    if a > 0 && b > 0 {
      MulComm(a - 1, b);
      MulComm(a, b - 1);
      MulComm(a - 1, b - 1);
    } else if a > 0 {
      MulComm(a - 1, b);
    } else if b > 0 {
      MulComm(a, b - 1);
    }
  }

  lemma {:induction false} MulAssoc(a: nat, b: nat, c: nat)
    ensures Mul(a, Mul(b, c)) == Mul(Mul(a, b), c)
  {
    if a > 0 {
      MulAssoc(a - 1, b, c);
      MulAdd(Mul(a - 1, b), b, c);
    }
  }

  lemma {:induction false} MulLe(a: nat, b: nat, c: nat)
    requires a <= b
    ensures Mul(a, c) <= Mul(b, c)
  {
    MulAdd(a, b - a, c);
  }

  lemma {:induction false} MulCancelLt(a: nat, b: nat, c: nat)
    requires Mul(a, c) < Mul(b, c)
    ensures a < b
  {
    if b <= a {
      MulLe(b, a, c);
    }
  }

  lemma {:induction false} MulOne(a: nat)
    ensures Mul(1, a) == a && Mul(a, 1) == a && Mul(a, 0) == 0
  {
    MulComm(a, 1);
    MulComm(a, 0);
  }

  lemma {:induction false} MulPositive(a: nat, b: nat)
    ensures Mul(a, b) > 0 <==> a > 0 && b > 0
  {
    MulOne(a);
    if a > 0 {
      MulLe(1, a, b);
    }
  }

  /** A positive product is at least each of its factors. */
  lemma {:induction false} MulFactors(a: nat, b: nat)
    requires Mul(a, b) > 0
    ensures 0 < a <= Mul(a, b) && 0 < b <= Mul(a, b)
  {
    MulPositive(a, b);
    MulLe(1, a, b);
    MulComm(a, b);
    MulLe(1, b, a);
  }

  lemma {:induction false} QuotRem(n: nat, d: nat)
    requires d > 0
    ensures n == Mul(Quot(n, d), d) + Rem(n, d) && Rem(n, d) < d
  {
    if n >= d {
      QuotRem(n - d, d);
    }
  }

  lemma {:induction false} QuotRemUnique(q: nat, r: nat, d: nat)
    requires r < d
    ensures Quot(Mul(q, d) + r, d) == q && Rem(Mul(q, d) + r, d) == r
  {
    if q > 0 {
      QuotRemUnique(q - 1, r, d);
    }
  }

  lemma {:induction false} QuotRemBound(n: nat, head: nat, tail: nat)
    requires n < Mul(head, tail)
    ensures tail > 0 && Quot(n, tail) < head && Rem(n, tail) < tail
    ensures n == Mul(Quot(n, tail), tail) + Rem(n, tail)
  {
    MulPositive(head, tail);
    QuotRem(n, tail);
    MulCancelLt(Quot(n, tail), head, tail);
  }

  lemma {:induction false} QuotRemIs(n: nat, d: nat)
    requires d > 0
    ensures Quot(n, d) == n / d && Rem(n, d) == n % d
  {
    hide Quot;
    hide Rem;
    hide Mul;
    MulIs(n / d, d);
    QuotRemUnique(n / d, n % d, d);
  }

  lemma {:induction false} QuotMonotone(a: nat, b: nat, d: nat)
    requires a <= b && d > 0
    ensures Quot(a, d) <= Quot(b, d)
  {
    hide Quot;
    hide Mul;
    hide Rem;
    QuotRem(a, d);
    QuotRem(b, d);
    MulCancelLt(Quot(a, d), Quot(b, d) + 1, d) by { MulAdd(Quot(b, d), 1, d); MulOne(d); }
  }
}
