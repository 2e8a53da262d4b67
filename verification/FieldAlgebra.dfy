/**
  Squares and roots of unity modulo a prime p with p % 8 == 5, and the algebra that links
  Montgomery and twisted Edwards coordinates. Everything is stated for an arbitrary such prime.
 */
module FieldAlgebra {
  import opened Arithmetic
  import opened NumberTheory

  predicate IsRoot(s: int, a: int, p: int)
    requires p > 0
  {
    Cong(s * s, a, p)
  }

  ghost predicate IsSquare(a: int, p: int)
    requires p > 0
  {
    exists s :: IsRoot(s, a, p)
  }

  // ---------- products ----------

  lemma ZeroProduct(a: int, b: int, p: int)
    requires IsPrime(p) && Cong(a * b, 0, p)
    ensures Cong(a, 0, p) || Cong(b, 0, p)
  {
    DividesIffCong(a * b, p);
    EuclidLemma(a, b, p);
    DividesIffCong(a, p);
    DividesIffCong(b, p);
  }

  lemma NonZeroProduct(a: int, b: int, p: int)
    requires IsPrime(p) && !Cong(a, 0, p) && !Cong(b, 0, p)
    ensures !Cong(a * b, 0, p)
  {
    if Cong(a * b, 0, p) {
      ZeroProduct(a, b, p);
    }
  }

  lemma ScaleZero(a: int, k: int, p: int)
    requires p > 0 && Cong(a, 0, p)
    ensures Cong(k * a, 0, p)
  {
    CongMul(k, k, a, 0, p);
  }

  lemma CancelNonZero(a: int, b: int, c: int, p: int)
    requires IsPrime(p) && !Cong(a, 0, p) && Cong(a * b, a * c, p)
    ensures Cong(b, c, p)
  {
    DividesIffCong(a, p);
    CongCancel(a, b, c, p);
  }

  lemma Inverse(a: int, p: int) returns (x: int)
    requires IsPrime(p) && !Cong(a, 0, p)
    ensures 0 <= x < p && Cong(a * x, 1, p)
  {
    DividesIffCong(a, p);
    x := InverseExists(a, p);
  }

  // ---------- squares ----------

  /** `a` is a square as soon as it is one up to a non-zero square factor. */
  lemma SquareQuotient(a: int, b: int, c: int, p: int)
    requires IsPrime(p) && !Cong(b, 0, p) && Cong(a * (b * b), c * c, p)
    ensures IsSquare(a, p)
  {
    var x := Inverse(b, p);
    CongMul(b * x, 1, b * x, 1, p);
    CongMul(a, a, (b * x) * (b * x), 1, p);
    CongMul(a * (b * b), c * c, x * x, x * x, p);
    QuotientStep(a, b, c, x);
    assert IsRoot(c * x, a, p);
  }

  lemma QuotientStep(a: int, b: int, c: int, x: int)
    ensures a * ((b * x) * (b * x)) == (a * (b * b)) * (x * x)
    ensures (c * x) * (c * x) == (c * c) * (x * x)
  {
    MulSwap(b, x, b, x);
    MulAssoc(a, b * b, x * x);
    MulSwap(c, x, c, x);
    MulSwap(b, b, x, x);
    MulSwap(c, c, x, x);
  }

  lemma SquareCong(a: int, b: int, p: int)
    requires p > 0 && Cong(a, b, p) && IsSquare(a, p)
    ensures IsSquare(b, p)
  {
    var s :| IsRoot(s, a, p);
    assert IsRoot(s, b, p);
  }

  /** The easy half of Euler's criterion. */
  lemma EulerNonSquare(a: int, h: nat, p: int)
    requires IsPrime(p) && p > 2 && 2 * h == p - 1 && Cong(Pow(a, h), -1, p)
    ensures !IsSquare(a, p)
  {
    if IsSquare(a, p) {
      var s :| IsRoot(s, a, p);
      CongPow(s * s, a, h, p);
      PowProduct(s, s, h);
      PowAdd(s, h, h);
      OneIsNotMinusOne(p);
      if Cong(s, 0, p) {
        CongMul(s, 0, s, 0, p);
        CongPow(s * s, 0, h, p);
        assert Pow(0, h) == 0 * Pow(0, h - 1);
        ZeroIsNotUnit(p);
      } else {
        DividesIffCong(s, p);
        Fermat(s, p);
      }
    }
  }

  lemma OneIsNotMinusOne(p: int)
    requires p > 2
    ensures !Cong(1, -1, p)
  {
    if Cong(1, -1, p) {
      CongDifference(1, -1, p);
      DividesAtMost(p, 2);
    }
  }

  lemma ZeroIsNotUnit(p: int)
    requires p > 1
    ensures !Cong(0, -1, p) && !Cong(1, 0, p)
  {
    if Cong(0, -1, p) {
      CongDifference(0, -1, p);
      DividesAtMost(p, 1);
    }
    if Cong(1, 0, p) {
      CongDifference(1, 0, p);
      DividesAtMost(p, 1);
    }
  }

  lemma EqualSquares(a: int, b: int, p: int)
    requires IsPrime(p) && Cong(a * a, b * b, p)
    ensures Cong(a, b, p) || Cong(a, -b, p)
  {
    CongAdd(a * a, b * b, b * b, b * b, p);
    assert a * a - b * b == (a - b) * (a + b);
    ZeroProduct(a - b, a + b, p);
    if Cong(a - b, 0, p) {
      CongAdd(a - b, 0, b, b, p);
    } else {
      CongAdd(a + b, 0, b, b, p);
    }
  }

  // ---------- a square root i of -1 when p % 8 == 5 ----------

  ghost predicate IsImaginary(i: int, p: int)
    requires p > 0
  {
    Cong(i * i, -1, p)
  }

  /** `i` is not a square: its power to the odd exponent (p - 1) / 4 would be a fourth root's Fermat power. */
  lemma ImaginaryNonSquare(i: int, e: nat, p: int)
    requires IsPrime(p) && p == 8 * e + 5 && IsImaginary(i, p)
    ensures !IsSquare(i, p)
  {
    CongPow(i * i, -1, 2 * e + 1, p);
    PowProduct(i, i, 2 * e + 1);
    PowAdd(i, 2 * e + 1, 2 * e + 1);
    OddPowerOfMinusOne(e);
    EulerNonSquare(i, 4 * e + 2, p);
  }

  lemma {:induction false} OddPowerOfMinusOne(e: nat)
    ensures Pow(-1, 2 * e + 1) == -1
  {
    if e > 0 {
      OddPowerOfMinusOne(e - 1);
      assert Pow(-1, 2 * e + 1) == -1 * (-1 * Pow(-1, 2 * e - 1));
    }
  }

  lemma ImaginaryNonZero(i: int, p: int)
    requires IsPrime(p) && IsImaginary(i, p)
    ensures !Cong(i, 0, p)
  {
    if Cong(i, 0, p) {
      CongMul(i, 0, i, 0, p);
      ZeroIsNotUnit(p);
    }
  }

  /** Two is not a square, because (1 + i)^2 == 2 * i. */
  lemma TwoNonSquare(i: int, e: nat, p: int)
    requires IsPrime(p) && p == 8 * e + 5 && IsImaginary(i, p)
    ensures !IsSquare(2, p)
  {
    if IsSquare(2, p) {
      var s :| IsRoot(s, 2, p);
      if Cong(s, 0, p) {
        CongMul(s, 0, s, 0, p);
        CongDifference(2, 0, p);
        DividesAtMost(p, 2);
      } else {
        CongMul(i, i, s * s, 2, p);
        CongAdd(i * i, -1, 1 + 2 * i, 1 + 2 * i, p);
        assert (1 + i) * (1 + i) == i * i + (1 + 2 * i);
        SquareQuotient(i, s, 1 + i, p);
        ImaginaryNonSquare(i, e, p);
      }
    }
  }

  /** A fourth root of unity is 1, -1, i or -i. */
  lemma FourthRoots(c: int, i: int, p: int)
    requires IsPrime(p) && IsImaginary(i, p) && Cong((c * c) * (c * c), 1, p)
    ensures Cong(c, 1, p) || Cong(c, -1, p) || Cong(c, i, p) || Cong(c, -i, p)
  {
    EqualSquares(c * c, 1, p);
    if Cong(c * c, 1, p) {
      EqualSquares(c, 1, p);
    } else {
      EqualSquares(c, i, p);
    }
  }

  // ---------- the square root of a quotient by one exponentiation ----------

  /** `fe_divpowm1`: the candidate root r of w / x satisfies r^2 * x == w * c with c^4 == 1. */
  lemma RootCandidate(w: int, x: int, t: int, r: int, e: nat, p: int) returns (c: int)
    requires IsPrime(p) && p == 8 * e + 5 && !Cong(w, 0, p) && !Cong(x, 0, p)
    requires Cong(t, w * Pow(x, 7), p) && Cong(r, (Pow(t, e) * Pow(x, 3)) * w, p)
    ensures Cong((r * r) * x, w * c, p) && Cong((c * c) * (c * c), 1, p)
  {
    var x3, x7, te := Pow(x, 3), Pow(x, 7), Pow(t, e);
    c := (te * te) * t;
    // r^2 * x == te^2 * w * (w * x^7)
    CongMul(r, (te * x3) * w, r, (te * x3) * w, p);
    CongMul(r * r, ((te * x3) * w) * ((te * x3) * w), x, x, p);
    PowAdd(x, 3, 3);
    PowAdd(x, 6, 1);
    assert Pow(x, 1) == x;
    CandidateSquare(te, x3, w, x, x7);
    CongMul(w * (te * te), w * (te * te), w * x7, t, p);
    MulAssoc(w, te * te, t);
    // c == t^(2e+1), so c^4 == t^(p-1)
    PowAdd(t, e, e);
    PowAdd(t, 2 * e, 1);
    assert Pow(t, 1) == t;
    PowAdd(t, 2 * e + 1, 2 * e + 1);
    PowAdd(t, 4 * e + 2, 4 * e + 2);
    CandidateNonZero(w, x, t, p);
    Fermat(t, p);
  }

  lemma CandidateSquare(te: int, x3: int, w: int, x: int, x7: int)
    requires x7 == (x3 * x3) * x
    ensures (((te * x3) * w) * ((te * x3) * w)) * x == (w * (te * te)) * (w * x7)
  {
    MulSwap(te * x3, w, te * x3, w);
    MulSwap(te, x3, te, x3);
    var a, b, c := te * te, x3 * x3, w * w;
    assert ((te * x3) * w) * ((te * x3) * w) == (a * b) * c by {
      MulSwap(te * x3, te * x3, w, w);
      MulSwap(te, te, x3, x3);
    }
    assert ((a * b) * c) * x == (a * c) * (b * x) by {
      MulAssoc(a * b, c, x);
      MulSwap(a, b, c, x);
    }
    assert (w * a) * (w * x7) == (w * w) * (a * x7) by {
      MulSwap(w, a, w, x7);
    }
    MulAssoc(c, a, b * x);
  }

  lemma CandidateNonZero(w: int, x: int, t: int, p: int)
    requires IsPrime(p) && !Cong(w, 0, p) && !Cong(x, 0, p) && Cong(t, w * Pow(x, 7), p)
    ensures !Divides(p, t)
  {
    DividesIffCong(x, p);
    PrimeNotDividesPow(x, 7, p);
    DividesIffCong(Pow(x, 7), p);
    NonZeroProduct(w, Pow(x, 7), p);
    DividesIffCong(t, p);
  }

  // ---------- from Montgomery to Edwards coordinates ----------

  /**
    If s * (z^2 + A*z*w + w^2) == -(A+2)*z*w with s a square, then z + w is invertible:
    otherwise A - 2 would be a square.
   */
  lemma DenominatorNonZero(x: int, z: int, w: int, A: int, k: int, i: int, p: int)
    requires IsPrime(p) && !Cong(w, 0, p) && IsImaginary(i, p)
    requires Cong(k * k, A + 2, p) && !Cong(k, 0, p) && !IsSquare(A - 2, p)
    requires Cong((x * x) * (z * z + A * (z * w) + w * w), -((A + 2) * (z * w)), p)
    ensures !Cong(z + w, 0, p)
  {
    if Cong(z + w, 0, p) {
      CongAdd(z + w, 0, w, w, p);
      SubstituteMinus(x * x, z, w, A, p);
      NonZeroProduct(w, w, p);
      CancelNonZero(w * w, (x * x) * (A - 2), -(A + 2), p);
      MinusOneRoot(x, A - 2, A + 2, k, i, p);
    }
  }

  lemma SubstituteMinus(s: int, z: int, w: int, A: int, p: int)
    requires p > 0 && Cong(z, -w, p)
    requires Cong(s * (z * z + A * (z * w) + w * w), -((A + 2) * (z * w)), p)
    ensures Cong((w * w) * (s * (A - 2)), (w * w) * (-(A + 2)), p)
  {
    CongMul(z, -w, w, w, p);
    CongMul(z, -w, z, -w, p);
    CongMul(A, A, z * w, -w * w, p);
    CongAdd(z * z, -w * -w, A * (z * w), A * (-w * w), p);
    CongAdd(z * z + A * (z * w), -w * -w + A * (-w * w), w * w, w * w, p);
    var left := -w * -w + A * (-w * w) + w * w;
    CongMul(s, s, z * z + A * (z * w) + w * w, left, p);
    CongMul(A + 2, A + 2, z * w, -w * w, p);
    CongMul(-1, -1, (A + 2) * (z * w), (A + 2) * (-w * w), p);
    assert -1 * ((A + 2) * (z * w)) == -((A + 2) * (z * w));
    assert Cong(s * left, -1 * ((A + 2) * (-w * w)), p);
    CongMul(-1, -1, s * left, -1 * ((A + 2) * (-w * w)), p);
    AtMinusOne(s, w, A);
  }

  /** If x^2 * b == -m for a non-zero square m, then b is a square. */
  lemma MinusOneRoot(x: int, b: int, m: int, k: int, i: int, p: int)
    requires IsPrime(p) && IsImaginary(i, p) && Cong(k * k, m, p) && !Cong(k, 0, p)
    requires Cong((x * x) * b, -m, p)
    ensures IsSquare(b, p)
  {
    CongMul(i * i, -1, k * k, m, p);
    assert -1 * m == -m;
    MulSwap(i, k, i, k);
    ImaginaryNonZero(i, p);
    NonZeroProduct(i, k, p);
    NonZeroProduct(i * k, i * k, p);
    assert (x * x) * b == b * (x * x);
    if Cong(x, 0, p) {
      CongMul(x, 0, x, 0, p);
      CongMul(x * x, 0, b, b, p);
    } else {
      SquareQuotient(b, x, i * k, p);
    }
  }

  lemma AtMinusOne(s: int, w: int, A: int)
    ensures -1 * (s * (-w * -w + A * (-w * w) + w * w)) == (w * w) * (s * (A - 2))
    ensures -1 * (-1 * ((A + 2) * (-w * w))) == (w * w) * (-(A + 2))
  {
    var q := w * w;
    assert -w * -w == q && -w * w == -q;
    assert -w * -w + A * (-w * w) + w * w == -((A - 2) * q);
    assert -1 * (s * -((A - 2) * q)) == s * ((A - 2) * q);
    MulAssoc(s, A - 2, q);
  }

  /** The Edwards equation for x and y = (z - w) / (z + w). */
  lemma EdwardsEquation(x: int, y: int, z: int, w: int, A: int, d: int, p: int)
    requires IsPrime(p) && !Cong(z + w, 0, p) && !Cong(A + 2, 0, p)
    requires Cong((x * x) * (z * z + A * (z * w) + w * w), -((A + 2) * (z * w)), p)
    requires Cong(y * (z + w), z - w, p) && Cong(d * (A + 2), -(A - 2), p)
    ensures Cong(-x * x + y * y, 1 + d * ((x * x) * (y * y)), p)
  {
    var s, u, t, m := x * x, z + w, z - w, A + 2;
    var f := -s + y * y - 1 - d * (s * (y * y));
    // multiply by m * u^2
    CongMul(y * u, t, y * u, t, p);
    CongMul(m, m, (y * u) * (y * u), t * t, p);
    CongMul(s * ((y * u) * (y * u)), s * (t * t), d * m, -(A - 2), p) by {
      CongMul(s, s, (y * u) * (y * u), t * t, p);
    }
    ClearDenominators(s, y, u, d, m);
    var g := s * (z * z + A * (z * w) + w * w) + m * (z * w);
    CongAdd(s * (z * z + A * (z * w) + w * w), -(m * (z * w)), m * (z * w), m * (z * w), p);
    ScaleZero(g, -4, p);
    EdwardsIdentity(s, z, w, A);
    CongAdd(m * ((y * u) * (y * u)), m * (t * t), (s * ((y * u) * (y * u))) * (d * m), (s * (t * t)) * -(A - 2), p);
    CongAdd(m * ((y * u) * (y * u)) - (s * ((y * u) * (y * u))) * (d * m),
            m * (t * t) - (s * (t * t)) * -(A - 2),
            m * (s * (u * u) + u * u), m * (s * (u * u) + u * u), p);
    assert Cong((m * (u * u)) * f, 0, p);
    NonZeroProduct(u, u, p);
    NonZeroProduct(m, u * u, p);
    ZeroProduct(m * (u * u), f, p);
    CongAdd(f, 0, 1 + d * (s * (y * y)), 1 + d * (s * (y * y)), p);
    assert -x * x == -s;
  }

  lemma ClearDenominators(s: int, y: int, u: int, d: int, m: int)
    ensures (m * (u * u)) * (-s + y * y - 1 - d * (s * (y * y)))
         == m * ((y * u) * (y * u)) - (s * ((y * u) * (y * u))) * (d * m) - m * (s * (u * u) + u * u)
  {
    var a, b := y * y, u * u;
    MulSwap(y, u, y, u);
    MulSwap(y, y, u, u);
    FourTerms(m * b, s, a, d * (s * a));
    MulSwap(m, b, d, s * a);
    MulSwap(b, 1, s, a);
    MulSwap(m, b, a, 1);
    MulAssoc(m, a, b);
    MulSwap(m, b, s, 1);
    MulAssoc(m, s, b);
    assert m * (s * b + b) == m * (s * b) + m * b;
  }

  lemma FourTerms(k: int, s: int, a: int, x: int)
    ensures k * (-s + a - 1 - x) == -(k * s) + k * a - k - k * x
  {
  }

  lemma EdwardsIdentity(s: int, z: int, w: int, A: int)
    ensures (A + 2) * ((z - w) * (z - w)) - (s * ((z - w) * (z - w))) * -(A - 2)
            - (A + 2) * (s * ((z + w) * (z + w)) + (z + w) * (z + w))
         == -4 * (s * (z * z + A * (z * w) + w * w) + (A + 2) * (z * w))
  {
    var m, n := z * w, z * z + w * w;
    assert (z - w) * (z - w) == n - 2 * m && (z + w) * (z + w) == n + 2 * m;
    assert s * (z * z + A * m + w * w) == s * (n + A * m);
    EdwardsTerms(s, m, n, A);
  }

  lemma EdwardsTerms(s: int, m: int, n: int, A: int)
    ensures (A + 2) * (n - 2 * m) - (s * (n - 2 * m)) * -(A - 2) - (A + 2) * (s * (n + 2 * m) + (n + 2 * m))
         == -4 * (s * (n + A * m) + (A + 2) * m)
  {
  }

  // ---------- recovering x from y ----------

  /** 1 + d * y^2 is never zero, because d is not a square. */
  lemma XDenominatorNonZero(y: int, A: int, d: int, k: int, p: int)
    requires IsPrime(p) && !IsSquare(A - 2, p)
    requires Cong(d * (A + 2), -(A - 2), p) && Cong(k * k, A + 2, p)
    ensures !Cong(1 + d * (y * y), 0, p)
  {
    if Cong(1 + d * (y * y), 0, p) {
      var e := y * y;
      ScaleZero(1 + d * e, A + 2, p);
      assert (A + 2) * (1 + d * e) == (A + 2) + (d * (A + 2)) * e;
      CongMul(d * (A + 2), -(A - 2), e, e, p);
      CongAdd((A + 2) + (d * (A + 2)) * e, 0, (d * (A + 2)) * e, -(A - 2) * e, p);
      assert -(-(A - 2) * e) == (A - 2) * e;
      if Cong(y, 0, p) {
        CongMul(y, 0, y, 0, p);
        CongMul(d, d, e, 0, p);
        CongAdd(d * e, 0, 1, 1, p);
        ZeroIsNotUnit(p);
      } else {
        SquareQuotient(A - 2, y, k, p);
      }
    }
  }

  lemma SameXSquare(a: int, b: int, y: int, d: int, p: int)
    requires IsPrime(p) && !Cong(1 + d * (y * y), 0, p)
    requires Cong(-a * a + y * y, 1 + d * ((a * a) * (y * y)), p)
    requires Cong(-b * b + y * y, 1 + d * ((b * b) * (y * y)), p)
    ensures Cong(a, b, p) || Cong(a, -b, p)
  {
    var s, t, e := a * a, b * b, y * y;
    CongAdd(-a * a + e, 1 + d * (s * e), -b * b + e, 1 + d * (t * e), p);
    SubtractEquations(s, t, e, d);
    assert -a * a == -s && -b * b == -t;
    CongAdd(t - s, d * (s * e) - d * (t * e), s - t, s - t, p);
    assert Cong((1 + d * e) * (s - t), 0, p);
    ZeroProduct(1 + d * e, s - t, p);
    CongAdd(s - t, 0, t, t, p);
    EqualSquares(a, b, p);
  }

  lemma SubtractEquations(s: int, t: int, e: int, d: int)
    ensures (s - t) + (d * (s * e) - d * (t * e)) == (1 + d * e) * (s - t)
  {
    assert d * (s * e) == (d * e) * s && d * (t * e) == (d * e) * t;
  }

  lemma ParityDecides(a: int, b: int, p: int)
    requires p % 2 == 1 && 0 <= a < p && 0 <= b < p && a % 2 == b % 2
    requires Cong(a, b, p) || Cong(a, -b, p)
    ensures a == b
  {
    EvenSum(a, b);
    if Cong(a, b, p) {
      CongResidues(a, b, p);
    } else {
      CongDifference(a, -b, p);
      MultipleBelowTwice(a + b, p);
    }
  }

  lemma EvenSum(a: int, b: int)
    requires a % 2 == b % 2
    ensures (a + b) % 2 == 0
  {
  }

  lemma MultipleBelowTwice(s: int, p: int)
    requires 0 <= s < 2 * p && s % p == 0
    ensures s == 0 || s == p
  {
    if s < p {
      DivModUnique(s, p, 0, s);
    } else {
      DivModUnique(s, p, 1, s - p);
    }
  }

  /** y and the parity of x determine x. */
  lemma SameAbscissa(a: int, b: int, y: int, A: int, d: int, k: int, p: int)
    requires IsPrime(p) && p % 2 == 1 && !IsSquare(A - 2, p)
    requires Cong(d * (A + 2), -(A - 2), p) && Cong(k * k, A + 2, p)
    requires 0 <= a < p && 0 <= b < p && a % 2 == b % 2
    requires Cong(-a * a + y * y, 1 + d * ((a * a) * (y * y)), p)
    requires Cong(-b * b + y * y, 1 + d * ((b * b) * (y * y)), p)
    ensures a == b
  {
    hide IsPrime, IsSquare;
    XDenominatorNonZero(y, A, d, k, p);
    SameXSquare(a, b, y, d, p);
    ParityDecides(a, b, p);
  }

  /** The inverse as a power. */
  lemma InverseByPower(a: int, p: int)
    requires IsPrime(p) && a % p != 0
    ensures (a * (Pow(a, p - 2) % p)) % p == 1
  {
    Fermat(a, p);
    CongMod(Pow(a, p - 2), p);
    CongMul(a, a, Pow(a, p - 2), Pow(a, p - 2) % p, p);
    DivModUnique(1, p, 0, 1);
  }
}
