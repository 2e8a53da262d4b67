/**
  Congruences, inverses modulo a prime, Fermat's little theorem and Pocklington's
  primality criterion.
 */
module NumberTheory {
  import opened Arithmetic

  // ---------- congruence ----------

  predicate Cong(a: int, b: int, m: int)
    requires m > 0
  {
    a % m == b % m
  }

  predicate Divides(d: int, n: int)
    requires d > 0
  {
    n % d == 0
  }

  lemma CongWitness(a: int, b: int, m: int) returns (k: int)
    requires m > 0 && Cong(a, b, m)
    ensures a == b + m * k
  {
    k := a / m - b / m;
  }

  lemma CongIntro(a: int, b: int, m: int, k: int)
    requires m > 0 && a == b + m * k
    ensures Cong(a, b, m)
  {
    ModAddMultiple(b, m, k);
  }

  /** A residue is its own remainder. */
  lemma CongResidues(a: int, b: int, m: int)
    requires 0 <= a < m && 0 <= b < m && Cong(a, b, m)
    ensures a == b
  {
    DivModUnique(a, m, 0, a);
    DivModUnique(b, m, 0, b);
  }

  lemma CongMod(a: int, m: int)
    requires m > 0
    ensures Cong(a % m, a, m)
  {
    CongIntro(a % m, a, m, -(a / m));
  }

  lemma CongAdd(a: int, b: int, c: int, d: int, m: int)
    requires m > 0 && Cong(a, b, m) && Cong(c, d, m)
    ensures Cong(a + c, b + d, m) && Cong(a - c, b - d, m)
  {
    var j := CongWitness(a, b, m);
    var k := CongWitness(c, d, m);
    CongIntro(a + c, b + d, m, j + k);
    CongIntro(a - c, b - d, m, j - k);
  }

  lemma CongMul(a: int, b: int, c: int, d: int, m: int)
    requires m > 0 && Cong(a, b, m) && Cong(c, d, m)
    ensures Cong(a * c, b * d, m)
  {
    var j := CongWitness(a, b, m);
    var k := CongWitness(c, d, m);
    MulExpand(b, m, j, d, k);
    CongIntro(a * c, b * d, m, b * k + j * d + j * (m * k));
  }

  lemma MulExpand(b: int, m: int, j: int, d: int, k: int)
    ensures (b + m * j) * (d + m * k) == b * d + m * (b * k + j * d + j * (m * k))
  {
  }

  lemma {:induction false} CongPow(a: int, b: int, e: nat, m: int)
    requires m > 0 && Cong(a, b, m)
    ensures Cong(Pow(a, e), Pow(b, e), m)
  {
    if e > 0 {
      CongPow(a, b, e - 1, m);
      CongMul(a, b, Pow(a, e - 1), Pow(b, e - 1), m);
    }
  }

  lemma {:induction false} PowOne(e: nat)
    ensures Pow(1, e) == 1
  {
    if e > 0 {
      PowOne(e - 1);
    }
  }

  lemma DividesIffCong(a: int, m: int)
    requires m > 0
    ensures Divides(m, a) <==> Cong(a, 0, m)
  {
    DivModUnique(0, m, 0, 0);
  }

  lemma CongDifference(a: int, b: int, m: int)
    requires m > 0
    ensures Cong(a, b, m) <==> Divides(m, a - b)
  {
    DividesIffCong(a - b, m);
    if Cong(a, b, m) {
      CongAdd(a, b, b, b, m);
    }
    if Divides(m, a - b) {
      CongAdd(a - b, 0, b, b, m);
    }
  }

  lemma DividesMultiple(d: int, n: int, k: int)
    requires d > 0 && Divides(d, n)
    ensures Divides(d, n * k) && Divides(d, k * n)
  {
    assert n == d * (n / d);
    MulAssoc(d, n / d, k);
    ModOfMultiple((n / d) * k, d);
    assert n * k == k * n;
  }

  // ---------- Bezout, primes, inverses ----------

  lemma Quotient(a: int, b: int) returns (q: int, r: nat)
    requires b > 0
    ensures a == b * q + r && r < b && r == a % b
  {
    q, r := a / b, a % b;
  }

  lemma {:induction false} Bezout(a: nat, b: nat) returns (g: int, x: int, y: int)
    requires a > 0
    ensures 0 < g <= a && Divides(g, a) && Divides(g, b)
    ensures a * x + b * y == g
    decreases b
  {
    if b == 0 {
      ModOfMultiple(1, a);
      ModOfMultiple(0, a);
      g, x, y := a, 1, 0;
    } else {
      var q, r := Quotient(a, b);
      var s, t;
      g, s, t := Bezout(b, r);
      // g == b * s + r * t and r == a - b * q
      x, y := t, s - q * t;
      BezoutStep(a, b, q, s, t);
      DividesCombination(g, b, r, q);
      DividesAtMost(g, a);
    }
  }

  lemma BezoutStep(a: int, b: int, q: int, s: int, t: int)
    ensures a * t + b * (s - q * t) == b * s + (a - b * q) * t
  {
    MulAssoc(b, q, t);
    assert b * (s - q * t) == b * s - b * (q * t);
  }

  lemma DividesCombination(g: int, b: int, r: int, q: int)
    requires g > 0 && Divides(g, b) && Divides(g, r)
    ensures Divides(g, b * q + r)
  {
    DividesMultiple(g, b, q);
    DividesIffCong(b * q, g);
    DividesIffCong(r, g);
    CongAdd(b * q, 0, r, 0, g);
    DividesIffCong(b * q + r, g);
  }

  lemma DividesAtMost(g: int, a: int)
    requires g > 0 && a > 0 && Divides(g, a)
    ensures g <= a
  {
    if g > a {
      DivModUnique(a, g, 0, a);
    }
  }

  ghost predicate IsPrime(p: int) {
    p >= 2 && forall m :: 2 <= m < p ==> !Divides(m, p)
  }

  lemma InverseExists(a: int, p: int) returns (x: int)
    requires IsPrime(p) && !Divides(p, a)
    ensures 0 <= x < p && Cong(a * x, 1, p)
  {
    var r := a % p;
    var g, s, t := Bezout(r, p);
    if g >= 2 {
      assert false;
    }
    // r * s + p * t == 1
    CongIntro(r * s, 1, p, -t);
    x := s % p;
    CongMod(s, p);
    CongMod(a, p);
    CongMul(r, a, s, x, p);
  }

  /** A prime that divides a product divides a factor. */
  lemma EuclidLemma(a: int, b: int, p: int)
    requires IsPrime(p) && Divides(p, a * b)
    ensures Divides(p, a) || Divides(p, b)
  {
    if !Divides(p, a) {
      var x := InverseExists(a, p);
      DividesMultiple(p, a * b, x);
      assert a * b * x == (a * x) * b;
      CongMul(a * x, 1, b, b, p);
      DividesIffCong(b, p);
      DividesIffCong((a * x) * b, p);
    }
  }

  lemma CongCancel(a: int, b: int, c: int, p: int)
    requires IsPrime(p) && !Divides(p, a) && Cong(a * b, a * c, p)
    ensures Cong(b, c, p)
  {
    CongDifference(a * b, a * c, p);
    assert a * b - a * c == a * (b - c);
    EuclidLemma(a, b - c, p);
    CongDifference(b, c, p);
  }

  lemma {:induction false} PrimeNotDividesPow(a: int, e: nat, p: int)
    requires IsPrime(p) && !Divides(p, a)
    ensures !Divides(p, Pow(a, e))
  {
    if e == 0 {
      DivModUnique(1, p, 0, 1);
    } else {
      PrimeNotDividesPow(a, e - 1, p);
      if Divides(p, Pow(a, e)) {
        EuclidLemma(a, Pow(a, e - 1), p);
      }
    }
  }

  // ---------- the binomial theorem and Fermat ----------

  function Choose(n: nat, k: nat): nat {
    if k == 0 then 1 else if n == 0 then 0 else Choose(n - 1, k - 1) + Choose(n - 1, k)
  }

  lemma {:induction false} ChooseAbove(n: nat, k: nat)
    requires k >= n
    ensures Choose(n, k) == if k == n then 1 else 0
  {
    if n > 0 {
      ChooseAbove(n - 1, k - 1);
      ChooseAbove(n - 1, k);
    }
  }

  lemma {:induction false} ChooseAbsorb(n: nat, k: nat)
    requires n > 0 && k > 0
    ensures k * Choose(n, k) == n * Choose(n - 1, k - 1)
  {
    var u, v := Choose(n - 1, k - 1), Choose(n - 1, k);
    if n == 1 {
      ChooseAbove(1, k);
      ChooseAbove(0, k - 1);
    } else {
      ChooseAbsorb(n - 1, k);
      var w := Choose(n - 2, k - 1);
      assert k * v == (n - 1) * w;
      if k > 1 {
        ChooseAbsorb(n - 1, k - 1);
        var x := Choose(n - 2, k - 2);
        assert (k - 1) * u == (n - 1) * x;
        assert u == x + w;
        AbsorbStep(n, k, u, v, w, x);
      } else {
        AbsorbStep(n, k, u, v, w, 0);
      }
    }
  }

  lemma AbsorbStep(n: int, k: int, u: int, v: int, w: int, x: int)
    requires k * v == (n - 1) * w && (k - 1) * u == (n - 1) * x && u == x + w
    ensures k * (u + v) == n * u
  {
    assert k * (u + v) == (k - 1) * u + u + k * v;
    assert (n - 1) * (x + w) == (n - 1) * x + (n - 1) * w;
  }

  /** The first `m + 1` terms of the expansion of `Pow(1 + a, n)`. */
  function BinomialSum(n: nat, a: int, m: nat): int
    decreases m
  {
    Choose(n, m) * Pow(a, m) + if m == 0 then 0 else BinomialSum(n, a, m - 1)
  }

  lemma {:induction false} BinomialRow(n: nat, a: int, m: nat)
    requires m > 0
    ensures BinomialSum(n + 1, a, m) == BinomialSum(n, a, m) + a * BinomialSum(n, a, m - 1)
  {
    if m == 1 {
      RowStep(Choose(n, 0), Choose(n, 1), a, Pow(a, 0), 0);
    } else {
      BinomialRow(n, a, m - 1);
      RowStep(Choose(n, m - 1), Choose(n, m), a, Pow(a, m - 1), BinomialSum(n, a, m - 2));
    }
  }

  lemma RowStep(x: int, y: int, a: int, p: int, s: int)
    ensures (x + y) * (a * p) + a * s == y * (a * p) + a * (x * p + s)
  {
    MulAssoc(x, a, p);
    MulAssoc(a, x, p);
    assert a * (x * p + s) == a * (x * p) + a * s;
  }

  lemma MulSum(a: int, s: int)
    ensures (1 + a) * s == s + a * s
  {
  }

  lemma {:induction false} BinomialTheorem(n: nat, a: int)
    ensures Pow(1 + a, n) == BinomialSum(n, a, n)
  {
    if n > 0 {
      BinomialTheorem(n - 1, a);
      BinomialRow(n - 1, a, n);
      ChooseAbove(n - 1, n);
      assert BinomialSum(n - 1, a, n) == BinomialSum(n - 1, a, n - 1);
      MulSum(a, BinomialSum(n - 1, a, n - 1));
    }
  }

  /** The inner terms of the p-th row vanish modulo a prime p. */
  lemma {:induction false} BinomialSumModPrime(a: int, m: nat, p: int)
    requires IsPrime(p) && m < p
    ensures Cong(BinomialSum(p, a, m), 1, p)
  {
    if m > 0 {
      BinomialSumModPrime(a, m - 1, p);
      ChooseAbsorb(p, m);
      ModOfMultiple(Choose(p - 1, m - 1), p);
      EuclidLemma(m, Choose(p, m), p);
      DivModUnique(m, p, 0, m);
      DividesMultiple(p, Choose(p, m), Pow(a, m));
      DividesIffCong(Choose(p, m) * Pow(a, m), p);
      CongAdd(Choose(p, m) * Pow(a, m), 0, BinomialSum(p, a, m - 1), 1, p);
    }
  }

  lemma {:induction false} FermatNat(a: nat, p: int)
    requires IsPrime(p)
    ensures Cong(Pow(a, p), a, p)
  {
    if a == 0 {
      assert Pow(0, p) == 0 * Pow(0, p - 1);
    } else {
      FermatNat(a - 1, p);
      BinomialTheorem(p, a - 1);
      BinomialSumModPrime(a - 1, p - 1, p);
      ChooseAbove(p, p);
      CongAdd(Pow(a - 1, p), a - 1, BinomialSum(p, a - 1, p - 1), 1, p);
    }
  }

  lemma Fermat(a: int, p: int)
    requires IsPrime(p) && !Divides(p, a)
    ensures Cong(Pow(a, p - 1), 1, p)
  {
    var q, r := Quotient(a, p);
    CongIntro(a, r, p, q);
    FermatNat(r, p);
    CongPow(a, r, p, p);
    CongCancel(a, Pow(a, p - 1), 1, p);
  }

  // ---------- Pocklington's criterion ----------

  lemma DividesTransitive(d: int, e: int, n: int)
    requires d > 0 && e > 0 && Divides(d, e) && Divides(e, n)
    ensures Divides(d, n)
  {
    var k := n / e;
    assert n == e * k;
    DividesMultiple(d, e, k);
  }

  lemma CongDivisor(a: int, b: int, n: int, p: int)
    requires n > 0 && p > 0 && Divides(p, n) && Cong(a, b, n)
    ensures Cong(a, b, p)
  {
    CongDifference(a, b, n);
    DividesTransitive(p, n, a - b);
    CongDifference(a, b, p);
  }

  /** A composite number has a prime divisor no larger than its square root. */
  lemma {:induction false} SmallPrimeDivisor(n: int) returns (p: int)
    requires n >= 2
    ensures IsPrime(p) && Divides(p, n) && (p == n || p * p <= n)
    decreases n
  {
    if IsPrime(n) {
      ModOfMultiple(1, n);
      p := n;
    } else {
      var m :| 2 <= m < n && Divides(m, n);
      var k := n / m;
      assert n == m * k;
      CofactorBounds(m, k, n);
      ModOfMultiple(m, k);
      var s := if m <= k then m else k;
      p := SmallPrimeDivisor(s);
      DividesAtMost(p, s);
      DividesTransitive(p, s, n);
      SquareBound(p, m, k);
    }
  }

  lemma CofactorBounds(m: int, k: int, n: int)
    requires 2 <= m < n && n == m * k
    ensures 2 <= k < n
  {
    if k <= 1 {
      MulMonotonic(m, k, 1);
    }
    MulMonotonic(k, 2, m);
  }

  lemma SquareBound(p: int, m: int, k: int)
    requires 0 < p <= m && p <= k
    ensures p * p <= m * k
  {
    MulMonotonic(p, p, k);
    MulMonotonic(k, p, m);
  }

  /** `b` certifies the prime factor `f` of `n - 1`: its f-th power is 1 but `b - 1` is invertible. */
  ghost predicate Certifies(n: int, f: int, b: int, inverse: int)
    requires n > 0
  {
    IsPrime(f) && Cong(Pow(b, f), 1, n) && Cong((b - 1) * inverse, 1, n)
  }

  lemma CertifiedFactor(n: int, f: int, b: int, inverse: int, p: int)
    requires n > 0 && Certifies(n, f, b, inverse) && IsPrime(p) && Divides(p, n)
    ensures Divides(f, p - 1)
  {
    CongDivisor(Pow(b, f), 1, n, p);
    CongDivisor((b - 1) * inverse, 1, n, p);
    DivModUnique(1, p, 0, 1);
    DividesIffCong(Pow(b, f), p);
    if Divides(p, b) {
      DividesMultiple(p, b, Pow(b, f - 1));
    }
    if !Divides(f, p - 1) {
      Fermat(b, p);
      var y := InverseExists(p - 1, f);
      var k := CongWitness((p - 1) * y, 1, f);
      OrderCollapse(b, f, p - 1, y, k, p);
      CongAdd(b, 1, 1, 1, p);
      CongMul(b - 1, 0, inverse, inverse, p);
      DividesIffCong(1, p);
    }
  }

  lemma OrderCollapse(b: int, f: int, e: int, y: nat, k: int, p: int)
    requires p > 0 && f > 0 && e > 0 && e * y == 1 + f * k
    requires Cong(Pow(b, f), 1, p) && Cong(Pow(b, e), 1, p)
    ensures Cong(b, 1, p)
  {
    assert e * y >= 0;
    if k < 0 {
      MulMonotonic(f, k, -1);
      assert f == 1 && e * y == 0;
      assert Pow(b, 1) == b;
    } else {
      PowMul(b, e, y);
      PowMul(b, f, k);
      CongPow(Pow(b, e), 1, y, p);
      CongPow(Pow(b, f), 1, k, p);
      PowOne(y);
      PowOne(k);
      PowAdd(b, 1, f * k);
      assert Pow(b, 1) == b;
      CongMul(b, b, Pow(b, f * k), 1, p);
    }
  }

  lemma PocklingtonOne(n: int, f: int, b: int, inverse: int)
    requires n >= 2 && f * f >= n && Certifies(n, f, b, inverse)
    ensures IsPrime(n)
  {
    var p := SmallPrimeDivisor(n);
    CertifiedFactor(n, f, b, inverse, p);
    DividesAtMost(f, p - 1);
    SquareExceeds(p, f, n);
  }

  lemma SquareExceeds(p: int, f: int, n: int)
    requires 0 < f < p && n <= f * f
    ensures n < p * p
  {
    SquareBound(f, p - 1, p - 1);
    assert (p - 1) * (p - 1) == p * p - 2 * p + 1;
  }

  /** Two certified primes whose product reaches `r`, no less than the square root of `n`. */
  lemma PocklingtonTwo(n: int, r: int, f: int, b: int, inverse: int, g: int, c: int, inverse': int)
    requires n >= 2 && 2 <= g < f && 0 < r <= f * g && r * r >= n
    requires Certifies(n, f, b, inverse) && Certifies(n, g, c, inverse')
    ensures IsPrime(n)
  {
    var p := SmallPrimeDivisor(n);
    CertifiedFactor(n, f, b, inverse, p);
    CertifiedFactor(n, g, c, inverse', p);
    ProductAtMost(f, g, p - 1);
    SquareExceeds(p, r, n);
  }

  lemma ProductAtMost(f: int, g: int, e: int)
    requires IsPrime(f) && IsPrime(g) && g < f && e > 0 && Divides(f, e) && Divides(g, e)
    ensures 0 < f * g <= e
  {
    var k, r := Quotient(e, f);
    EuclidLemma(f, k, g);
    if k <= 0 {
      MulMonotonic(f, k, 0);
    }
    DividesAtMost(g, k);
    MulMonotonic(f, g, k);
    MulMonotonic(f, 1, g);
  }

  lemma TrialDivision(n: int, k: int)
    requires 2 <= n < k * k && 0 < k
    requires forall d :: 2 <= d < k ==> !Divides(d, n)
    ensures IsPrime(n)
  {
    var p := SmallPrimeDivisor(n);
    if p != n && p >= k {
      SquareBound(k, p, p);
    }
  }

  // ---------- powers of a literal base, one octal digit of the exponent at a time ----------

  lemma PowEight(x: int)
    ensures Pow(x, 8) == x * x * x * x * x * x * x * x
  {
    var p := x * x;
    assert Pow(x, 2) == p;
    PowAdd(x, 2, 2);
    PowAdd(x, 4, 4);
    assert (p * p) * (p * p) == x * x * x * x * x * x * x * x;
  }

  predicate PowerIs(g: int, e: nat, x: int, n: int)
    requires n > 0
  {
    Pow(g, e) % n == x
  }

  /** Append the octal digit `c` to the exponent of a known residue. */
  lemma Climb(g: int, e: nat, x: int, c: nat, h: int, y: int, n: int) returns (f: nat, z: int)
    requires n > 0 && PowerIs(g, e, x, n) && PowerIs(g, c, h, n)
    requires (x * x * x * x * x * x * x * x * h) % n == y
    ensures f == 8 * e + c && z == y && PowerIs(g, f, z, n)
  {
    f, z := 8 * e + c, y;
    CongMod(Pow(g, e), n);
    CongMod(Pow(g, c), n);
    PowMul(g, e, 8);
    CongPow(Pow(g, e), x, 8, n);
    PowEight(x);
    PowAdd(g, 8 * e, c);
    CongMul(Pow(g, 8 * e), x * x * x * x * x * x * x * x, Pow(g, c), h, n);
  }
}
