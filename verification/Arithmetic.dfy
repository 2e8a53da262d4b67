/**
  Integer arithmetic used by every other module: powers, and the few facts about
  division and remainder that the solver does not find by itself.
 */
module Arithmetic {

  function Pow(b: int, e: nat): int
    decreases e
  {
    if e == 0 then 1 else b * Pow(b, e - 1)
  }

  lemma {:induction false} PowPositive(b: int, e: nat)
    requires b > 0
    ensures Pow(b, e) > 0
  {
    if e > 0 {
      PowPositive(b, e - 1);
    }
  }

  lemma {:induction false} PowAdd(b: int, e: nat, f: nat)
    ensures Pow(b, e + f) == Pow(b, e) * Pow(b, f)
  {
    if e > 0 {
      PowAdd(b, e - 1, f);
      assert e + f - 1 == e - 1 + f;
      MulAssoc(b, Pow(b, e - 1), Pow(b, f));
    }
  }

  lemma {:induction false} PowMul(b: int, e: nat, f: nat)
    ensures 0 <= e * f
    ensures Pow(b, e * f) == Pow(Pow(b, e), f)
  {
    if f == 0 {
      assert e * f == 0;
    } else {
      PowMul(b, e, f - 1);
      assert e * f == e + e * (f - 1);
      PowAdd(b, e, e * (f - 1));
    }
  }

  lemma {:induction false} PowProduct(a: int, b: int, e: nat)
    ensures Pow(a * b, e) == Pow(a, e) * Pow(b, e)
  {
    if e > 0 {
      PowProduct(a, b, e - 1);
      MulSwap(a, b, Pow(a, e - 1), Pow(b, e - 1));
    }
  }

  lemma {:induction false} PowMonotonic(b: int, e: nat, f: nat)
    requires b > 0 && e <= f
    ensures Pow(b, e) <= Pow(b, f)
  {
    PowAdd(b, e, f - e);
    PowPositive(b, e);
    PowPositive(b, f - e);
    MulMonotonic(Pow(b, e), 1, Pow(b, f - e));
  }

  lemma MulAssoc(a: int, b: int, c: int)
    ensures a * (b * c) == (a * b) * c
  {
  }

  lemma MulSwap(a: int, b: int, c: int, d: int)
    ensures (a * b) * (c * d) == (a * c) * (b * d)
  {
    MulAssoc(a * b, c, d);
    MulAssoc(a, b, c);
    MulAssoc(a, c, b);
    MulAssoc(a * c, b, d);
  }

  lemma HornerStep(v: int, p: int, w: int, b: int)
    ensures (v * p + w) * b == v * (b * p) + w * b
  {
    MulAssoc(v, p, b);
    assert (v * p + w) * b == (v * p) * b + w * b;
  }

  lemma MulMonotonic(a: int, x: int, y: int)
    requires 0 <= a && x <= y
    ensures a * x <= a * y
  {
  }

  /** Quotient and remainder are the only pair with `n == d * q + r` and `0 <= r < d`. */
  lemma DivModUnique(n: int, d: int, q: int, r: int)
    requires d > 0 && n == d * q + r && 0 <= r < d
    ensures n / d == q && n % d == r
  {
    var q', r' := n / d, n % d;
    assert n == d * q' + r' && 0 <= r' < d;
    assert d * (q - q') == r' - r;
    if q - q' >= 1 {
      MulMonotonic(d, 1, q - q');
    } else if q - q' <= -1 {
      MulMonotonic(d, q - q', -1);
    }
  }

  lemma ModOfMultiple(k: int, d: int)
    requires d > 0
    ensures (d * k) % d == 0
  {
    DivModUnique(d * k, d, k, 0);
  }

  lemma ModAddMultiple(n: int, d: int, k: int)
    requires d > 0
    ensures (n + d * k) % d == n % d
    ensures (n + d * k) / d == n / d + k
  {
    assert n + d * k == d * (n / d + k) + n % d;
    DivModUnique(n + d * k, d, n / d + k, n % d);
  }

  lemma DivLess(n: int, d: int, k: int)
    requires d > 0 && 0 <= n < d * k
    ensures 0 <= n / d < k
  {
    if n / d >= k {
      MulMonotonic(d, k, n / d);
    }
  }
}
