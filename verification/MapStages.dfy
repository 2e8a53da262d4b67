/**
  The algebra behind the stages of `incognito_ge_fromfe_frombytes` (src/crypto.c:354-441), modulo
  an arbitrary suitable prime.
 */
module MapStages {
  import opened Arithmetic
  import opened NumberTheory
  import opened FieldAlgebra

  lemma NumeratorNonZero(u: int, v: int, w: int, i: int, p: int)
    requires IsPrime(p) && IsImaginary(i, p) && !IsSquare(2, p)
    requires Cong(v, 2 * (u * u), p) && Cong(w, v + 1, p)
    ensures !Cong(w, 0, p)
  {
    if Cong(w, 0, p) {
      CongAdd(v + 1, 0, 1, 1, p);
      if Cong(u, 0, p) {
        CongMul(u, 0, u, 0, p);
        CongMul(2, 2, u * u, 0, p);
        ZeroIsNotUnit(p);
      } else {
        SquareQuotient(2, u, i, p);
      }
    }
  }

  lemma RatioDenominatorNonZero(u: int, v: int, w: int, x: int, A: int, p: int)
    requires IsPrime(p) && !IsSquare(2, p) && !Cong(A, 0, p)
    requires Cong(v, 2 * (u * u), p) && Cong(w, v + 1, p) && Cong(x, w * w - (A * A) * v, p)
    ensures !Cong(x, 0, p)
  {
    if Cong(x, 0, p) {
      CongAdd(w * w - (A * A) * v, 0, (A * A) * v, (A * A) * v, p);
      CongMul(A * A, A * A, v, 2 * (u * u), p);
      if Cong(u, 0, p) {
        CongMul(u, 0, u, 0, p);
        CongMul(2, 2, u * u, 0, p);
        CongAdd(v, 0, 1, 1, p);
        CongMul(w, 1, w, 1, p);
        CongMul(A * A, A * A, v, 0, p);
        ZeroIsNotUnit(p);
      } else {
        NonZeroProduct(A, u, p);
        MulSwap(A, u, A, u);
        assert (A * A) * (2 * (u * u)) == 2 * ((A * u) * (A * u));
        SquareQuotient(2, A * u, w, p);
      }
    }
  }

  /** With z == -A*v or z == -A, the quadratic form of the Montgomery curve is x. */
  lemma QuadraticForm(v: int, w: int, x: int, z: int, A: int, p: int)
    requires p > 0 && Cong(w, v + 1, p) && Cong(x, w * w - (A * A) * v, p)
    requires Cong(z, -(A * v), p) || Cong(z, -A, p)
    ensures Cong(z * z + A * (z * w) + w * w, x, p)
  {
    var y := if Cong(z, -A, p) then -A else -(A * v);
    SubstituteForm(z, y, w, A, p);
    ConstantTerm(v, w, y, A, p);
    CongAdd(y * y + A * (y * w), -((A * A) * v), w * w, w * w, p);
  }

  /** For either z, z^2 + A*z*w is -A^2 * v. */
  lemma ConstantTerm(v: int, w: int, y: int, A: int, p: int)
    requires p > 0 && Cong(w, v + 1, p) && (y == -(A * v) || y == -A)
    ensures Cong(y * y + A * (y * w), -((A * A) * v), p)
  {
    hide Cong;
    var a := A * A;
    NegatedProducts(a, v);
    CongAdd(v, v, w, v + 1, p);
    CongAdd(1, 1, w, v + 1, p);
    assert v - (v + 1) == -1 && 1 - (v + 1) == -v;
    if y == -A {
      FormOne(w, A);
      CongMul(a, a, 1 - w, -v, p);
    } else {
      FormTwo(v, w, A);
      CongMul(a * v, a * v, v - w, -1, p);
    }
  }

  lemma NegatedProducts(a: int, v: int)
    ensures a * -v == -(a * v) == (a * v) * -1
  {
  }

  lemma SubstituteForm(z: int, y: int, w: int, A: int, p: int)
    requires p > 0 && Cong(z, y, p)
    ensures Cong(z * z + A * (z * w) + w * w, y * y + A * (y * w) + w * w, p)
  {
    CongMul(z, y, z, y, p);
    CongMul(z, y, w, w, p);
    CongMul(A, A, z * w, y * w, p);
    CongAdd(z * z, y * y, A * (z * w), A * (y * w), p);
    CongAdd(z * z + A * (z * w), y * y + A * (y * w), w * w, w * w, p);
  }

  lemma FormOne(w: int, A: int)
    ensures -A * -A + A * (-A * w) == (A * A) * (1 - w)
  {
    assert A * (-A * w) == -((A * A) * w);
  }

  lemma FormTwo(v: int, w: int, A: int)
    ensures -(A * v) * -(A * v) + A * (-(A * v) * w) == ((A * A) * v) * (v - w)
  {
    MulSwap(A, v, A, v);
    assert (A * v) * w == A * (v * w);
    assert A * (A * (v * w)) == ((A * A) * v) * w;
    assert ((A * A) * v) * v == (A * A) * (v * v);
  }

  /** Branches without the factor i: r^2 * x == sigma * w and f^2 == sigma * 2*A*(A+2). */
  lemma RealBranch(r: int, x: int, w: int, u: int, v: int, z: int, f: int, sigma: int, A: int, rX: int, p: int)
    requires p > 0 && (sigma == 1 || sigma == -1)
    requires Cong((r * r) * x, sigma * w, p) && Cong(f * f, sigma * (2 * (A * (A + 2))), p)
    requires Cong(v, 2 * (u * u), p) && Cong(z, -(A * v), p) && Cong(rX, (r * f) * u, p)
    ensures Cong((rX * rX) * x, -((A + 2) * (z * w)), p)
  {
    var b := A * (A + 2);
    SquareOfProduct(r, f, u, x);
    CongMul(rX, (r * f) * u, rX, (r * f) * u, p);
    CongMul(rX * rX, ((r * f) * u) * ((r * f) * u), x, x, p);
    CongMul((r * r) * x, sigma * w, f * f, sigma * (2 * b), p);
    SignsCancel(sigma, w, 2 * b);
    CongMul(((r * r) * x) * (f * f), w * (2 * b), u * u, u * u, p);
    MulSwap(w, 2 * b, u * u, 1);
    assert (w * (2 * b)) * (u * u) == (b * w) * (2 * (u * u));
    CongMul(b * w, b * w, v, 2 * (u * u), p);
    RightSide(z, w, v, A, p);
  }

  lemma SignsCancel(sigma: int, a: int, b: int)
    requires sigma == 1 || sigma == -1
    ensures (sigma * a) * (sigma * b) == a * b
  {
  }

  /** -(A+2)*z*w for z == -A*v */
  lemma RightSide(z: int, w: int, v: int, A: int, p: int)
    requires p > 0 && Cong(z, -(A * v), p)
    ensures Cong(-((A + 2) * (z * w)), ((A * (A + 2)) * w) * v, p)
  {
    CongMul(z, -(A * v), -((A + 2) * w), -((A + 2) * w), p);
    assert z * -((A + 2) * w) == -((A + 2) * (z * w));
    assert -(A * v) * -((A + 2) * w) == (A * v) * ((A + 2) * w);
    MulSwap(A, v, A + 2, w);
    MulAssoc(A * (A + 2), v, w);
    MulAssoc(A * (A + 2), w, v);
  }

  lemma SquareOfProduct(r: int, f: int, u: int, x: int)
    ensures (((r * f) * u) * ((r * f) * u)) * x == (((r * r) * x) * (f * f)) * (u * u)
  {
    MulSwap(r * f, u, r * f, u);
    MulSwap(r, f, r, f);
    var a, b, c := r * r, f * f, u * u;
    assert ((a * b) * c) * x == ((a * x) * b) * c;
  }

  /** Branches with the factor i: r^2 * x * i == sigma * w and f^2 == sigma * i*A*(A+2). */
  lemma ImaginaryBranch(r: int, x: int, w: int, z: int, f: int, i: int, sigma: int, A: int, rX: int, p: int)
    requires p > 0 && (sigma == 1 || sigma == -1)
    requires Cong(((r * r) * x) * i, sigma * w, p) && Cong(f * f, sigma * (i * (A * (A + 2))), p)
    requires Cong(z, -A, p) && Cong(rX, r * f, p)
    ensures Cong((rX * rX) * x, -((A + 2) * (z * w)), p)
  {
    var b, s := A * (A + 2), (r * r) * x;
    CongMul(rX, r * f, rX, r * f, p);
    CongMul(rX * rX, (r * f) * (r * f), x, x, p);
    SquareOfProduct(r, f, 1, x);
    CongMul(s, s, f * f, sigma * (i * b), p);
    MulSwap(s, 1, sigma, i * b);
    MoveSign(s, sigma, i, b);
    CongMul(s * i, sigma * w, sigma * b, sigma * b, p);
    SignsCancel(sigma, w, b);
    RightSide(z, w, 1, A, p);
  }

  lemma MoveSign(s: int, sigma: int, i: int, b: int)
    ensures s * (sigma * (i * b)) == (s * i) * (sigma * b)
  {
    MulSwap(s, i, sigma, b);
    MulAssoc(sigma, i, b);
    MulSwap(s, sigma, i, b);
    MulAssoc(s, sigma, i * b);
  }

  /** Which quadratic character selects the branch. */
  lemma RealBranchSquare(r: int, x: int, w: int, sigma: int, i: int, p: int)
    requires IsPrime(p) && IsImaginary(i, p) && (sigma == 1 || sigma == -1)
    requires Cong((r * r) * x, sigma * w, p)
    ensures IsSquare(w * x, p)
  {
    var k := if sigma == 1 then 1 else i;
    // (k * r * x)^2 == sigma * (r^2 * x) * x == w * x
    CongMul((r * r) * x, sigma * w, sigma * x, sigma * x, p);
    assert (sigma * w) * (sigma * x) == w * x by { MulSwap(sigma, w, sigma, x); }
    assert Cong(k * k, sigma, p);
    CongMul(k * k, sigma, (r * x) * (r * x), (r * x) * (r * x), p);
    MulSwap(k, r * x, k, r * x);
    MulSwap(r, x, r, x);
    assert sigma * ((r * r) * (x * x)) == ((r * r) * x) * (sigma * x);
    assert IsRoot(k * (r * x), w * x, p);
  }

  lemma RootNonZero(r: int, x: int, w: int, sigma: int, i: int, p: int)
    requires p > 0 && (sigma == 1 || sigma == -1) && !Cong(w, 0, p)
    requires Cong(((r * r) * x) * i, sigma * w, p)
    ensures !Cong(r, 0, p)
  {
    if Cong(r, 0, p) {
      SignsCancel(sigma, w, 1);
      CongMul(sigma, sigma, ((r * r) * x) * i, sigma * w, p);
      CongMul(r, 0, r, 0, p);
      CongMul(r * r, 0, x, x, p);
      CongMul((r * r) * x, 0, i, i, p);
      CongMul(sigma, sigma, ((r * r) * x) * i, 0, p);
    }
  }

  lemma ImaginaryBranchNonSquare(r: int, x: int, w: int, sigma: int, i: int, p: int)
    requires IsPrime(p) && IsImaginary(i, p) && !IsSquare(i, p) && (sigma == 1 || sigma == -1)
    requires Cong(((r * r) * x) * i, sigma * w, p) && !Cong(w, 0, p) && !Cong(x, 0, p)
    ensures !IsSquare(w * x, p)
  {
    hide Cong, IsImaginary;
    if IsSquare(w * x, p) {
      var t :| IsRoot(t, w * x, p);
      var k := SignRoot(sigma, i, p);
      SquareAcross(r, x, w, sigma, i, k, t, p);
      RootNonZero(r, x, w, sigma, i, p);
      NonZeroProduct(r, x, p);
      SquareQuotient(i, r * x, k * t, p);
    }
  }

  lemma SignRoot(sigma: int, i: int, p: int) returns (k: int)
    requires p > 0 && IsImaginary(i, p) && (sigma == 1 || sigma == -1)
    ensures IsRoot(k, sigma, p)
  {
    k := if sigma == 1 then 1 else i;
  }

  /** i * (r * x)^2 == sigma * w * x == (k * t)^2 */
  lemma SquareAcross(r: int, x: int, w: int, sigma: int, i: int, k: int, t: int, p: int)
    requires p > 0 && Cong(((r * r) * x) * i, sigma * w, p)
    requires IsRoot(k, sigma, p) && IsRoot(t, w * x, p)
    ensures Cong(i * ((r * x) * (r * x)), (k * t) * (k * t), p)
  {
    CongMul(((r * r) * x) * i, sigma * w, x, x, p);
    CongMul(k * k, sigma, t * t, w * x, p);
    SquareAcrossTerms(r, x, w, sigma, i, k, t);
  }

  lemma SquareAcrossTerms(r: int, x: int, w: int, sigma: int, i: int, k: int, t: int)
    ensures (((r * r) * x) * i) * x == i * ((r * x) * (r * x))
    ensures (sigma * w) * x == sigma * (w * x) && (k * k) * (t * t) == (k * t) * (k * t)
  {
    MulSwap(r, r, x, x);
    MulSwap((r * r) * x, i, x, 1);
    MulAssoc(r * r, x, x);
    MulAssoc(sigma, w, x);
    MulSwap(k, k, t, t);
  }

  lemma CubeAndSeventh(x: int)
    ensures Pow(x, 3) == (x * x) * x && Pow(x, 7) == (Pow(x, 3) * Pow(x, 3)) * x
  {
    assert Pow(x, 1) == x;
    assert Pow(x, 2) == x * x;
    PowAdd(x, 2, 1);
    PowAdd(x, 3, 3);
    PowAdd(x, 6, 1);
  }

  lemma LadderStep(w: int, c: int, i: int, s: int, p: int)
    requires p > 0 && IsImaginary(i, p) && Cong(s, w * c, p)
    requires Cong(c, 1, p) || Cong(c, -1, p) || Cong(c, i, p) || Cong(c, -i, p)
    ensures Cong(s, w, p) || Cong(s, -w, p) || Cong(s * i, w, p) || Cong(s * i, -w, p)
  {
    if Cong(c, 1, p) {
      CongMul(w, w, c, 1, p);
    } else if Cong(c, -1, p) {
      CongMul(w, w, c, -1, p);
    } else {
      var k := if Cong(c, i, p) then 1 else -1;
      CongMul(w, w, c, k * i, p);
      CongMul(s, w * (k * i), i, i, p);
      CongMul(i * i, -1, w * k, w * k, p);
      assert (w * (k * i)) * i == (i * i) * (w * k);
    }
  }

  lemma FlipParity(r: int, p: int)
    requires p % 2 == 1
    ensures (p - r) % 2 == 1 - r % 2
  {
  }

  lemma NegatedSquare(r: int, x: int, p: int)
    requires p > 0
    ensures Cong(((p - r) * (p - r)) * x, (r * r) * x, p)
  {
    CongIntro(p - r, -r, p, 1);
    CongMul(p - r, -r, p - r, -r, p);
    NegativeSquare(r);
    CongMul((p - r) * (p - r), r * r, x, x, p);
  }

  lemma NegatedRoot(r: int, x: int, t: int, p: int)
    requires p > 0 && Cong((r * r) * x, t, p)
    ensures Cong(((p - r) * (p - r)) * x, t, p)
  {
    NegatedSquare(r, x, p);
  }

  lemma NegativeSquare(r: int)
    ensures -r * -r == r * r
  {
  }

  lemma OddRootNonZero(x: int, z: int, w: int, A: int, p: int)
    requires IsPrime(p) && Cong(z, -A, p) && !Cong(w, 0, p) && !Cong(A, 0, p) && !Cong(A + 2, 0, p)
    ensures !Cong((0 * 0) * x, -((A + 2) * (z * w)), p)
  {
    if Cong(0, -((A + 2) * (z * w)), p) {
      CongMul(-1, -1, -((A + 2) * (z * w)), 0, p);
      CongMul(-1, -1, z, -A, p);
      if Cong(z, 0, p) {
        CongMul(-1, -1, z, 0, p);
      }
      NonZeroProduct(z, w, p);
      NonZeroProduct(A + 2, z * w, p);
    }
  }

  /** Dividing by z + w yields a point of the curve whose x is rX itself. */
  lemma AffineCorrect(rX: int, z: int, w: int, i: int, px: int, py: int, A: int, d: int, p: int)
    requires IsPrime(p) && 0 <= rX < p && 0 <= px < p && !Cong(z + w, 0, p) && !Cong(A + 2, 0, p)
    requires Cong(((z + w) % p) * i, 1, p) && Cong(d * (A + 2), -(A - 2), p)
    requires Cong(px, ((rX * ((z + w) % p)) % p) * i, p) && Cong(py, ((z - w) % p) * i, p)
    requires Cong((rX * rX) * (z * z + A * (z * w) + w * w), -((A + 2) * (z * w)), p)
    ensures px == rX && Cong(py * (z + w), z - w, p)
    ensures Cong(-px * px + py * py, 1 + d * ((px * px) * (py * py)), p)
  {
    hide IsPrime;
    var rZ, rY := (z + w) % p, (z - w) % p;
    CongMod(z + w, p);
    CongMod(z - w, p);
    CongMod(rX * rZ, p);
    CongMul((rX * rZ) % p, rX * rZ, i, i, p);
    CancelInverse(px, py, rX, rZ, rY, i, z + w, z - w, p);
    CongResidues(px, rX, p);
    EdwardsEquation(rX, py, z, w, A, d, p);
  }

  lemma CancelInverse(px: int, py: int, rX: int, rZ: int, rY: int, i: int, s: int, t: int, p: int)
    requires p > 0 && Cong(rZ * i, 1, p) && Cong(rZ, s, p) && Cong(rY, t, p)
    requires Cong(px, (rX * rZ) * i, p) && Cong(py, rY * i, p)
    ensures Cong(px, rX, p) && Cong(py * s, t, p)
  {
    CongMul(rX, rX, rZ * i, 1, p);
    MulAssoc(rX, rZ, i);
    CongMul(py, rY * i, rZ, s, p);
    CongMul(py, py, rZ, s, p);
    CongMul(rY, t, rZ * i, 1, p);
    assert (rY * i) * rZ == rY * (rZ * i);
    CongMul(py, rY * i, rZ, rZ, p);
  }

  lemma CharacterStep(n: int, d: int, t: int, w: int, v: int, a: int, p: int)
    requires p > 0 && Cong(n, w, p) && Cong(t, v, p) && Cong(d, n * n - a * t, p)
    ensures Cong(n * d, w * (w * w - a * v), p)
  {
    CongMul(n, w, n, w, p);
    CongMul(a, a, t, v, p);
    CongAdd(n * n, w * w, a * t, a * v, p);
    CongMul(n, w, d, w * w - a * v, p);
  }

  lemma SquareIff(a: int, b: int, p: int)
    requires p > 0 && Cong(a, b, p)
    ensures IsSquare(a, p) <==> IsSquare(b, p)
  {
    if IsSquare(a, p) {
      SquareCong(a, b, p);
    }
    if IsSquare(b, p) {
      SquareCong(b, a, p);
    }
  }

  lemma TransferFraction(y: int, z: int, w: int, z': int, w': int, p: int)
    requires p > 0 && Cong(z, z', p) && Cong(w, w', p)
    requires Cong(y * (z + w), z - w, p) && !Cong(z + w, 0, p)
    ensures Cong(y * (z' + w'), z' - w', p) && !Cong(z' + w', 0, p)
  {
    CongAdd(z, z', w, w', p);
    CongMul(y, y, z + w, z' + w', p);
  }

  lemma SameFraction(a: int, b: int, s: int, t: int, p: int)
    requires IsPrime(p) && !Cong(s, 0, p) && Cong(a * s, t, p) && Cong(b * s, t, p)
    ensures Cong(a, b, p)
  {
    assert a * s == s * a && b * s == s * b;
    CancelNonZero(s, a, b, p);
  }

  // ---------- fibres of the map ----------

  lemma TwoNonZero(p: int)
    requires p > 2
    ensures !Cong(2, 0, p)
  {
    if Cong(2, 0, p) {
      CongResidues(2, 0, p);
    }
  }

  lemma SquareOfSigned(u: int, t: int, p: int)
    requires p > 0
    ensures Cong(u, t, p) || Cong(u, -t, p) ==> Cong(u * u, t * t, p)
  {
    NegativeSquare(t);
    if Cong(u, t, p) {
      CongMul(u, t, u, t, p);
    } else if Cong(u, -t, p) {
      CongMul(u, -t, u, -t, p);
    }
  }

  /** Two fractions with the same value. */
  lemma CrossFractions(y: int, z: int, w: int, z': int, w': int, k: int, p: int)
    requires p > 0 && Cong(y * (z + w), z - w, p) && Cong(y * (z' + w'), z' - w', p)
    requires k == z * w' - z' * w
    ensures Cong(2 * k, 0, p)
  {
    var s, s', t, t' := z + w, z' + w', z - w, z' - w';
    CongMul(y * s, t, s', s', p);
    CongMul(y * s', t', s, s, p);
    assert (y * s) * s' == (y * s') * s;
    CongAdd(t * s', t' * s, t' * s, t' * s, p);
    CrossIdentity(z, w, z', w');
  }

  lemma CrossIdentity(z: int, w: int, z': int, w': int)
    ensures (z - w) * (z' + w') - (z' - w') * (z + w) == 2 * (z * w' - z' * w)
  {
  }

  /** The fraction (z - w) / (z + w) determines v when w == v + 1 and z == -A*v. */
  lemma FractionOfSquare(v: int, w: int, z: int, v': int, w': int, z': int, y: int, A: int, p: int)
    requires p > 0 && IsPrime(p) && !Cong(2, 0, p) && !Cong(A, 0, p)
    requires w == v + 1 && w' == v' + 1 && z == -(A * v) && z' == -(A * v')
    requires Cong(y * (z + w), z - w, p) && Cong(y * (z' + w'), z' - w', p)
    ensures Cong(v, v', p)
  {
    hide IsPrime, Cong;
    SquareIdentity(v, w, z, v', w', z', A);
    CrossFractions(y, z, w, z', w', A * (v' - v), p);
    CancelFactors(A, v' - v, p);
    CongFromDifference(v', v, p);
  }

  /** It does so, too, when w == v + 1 and z == -A. */
  lemma FractionOfInverse(v: int, w: int, v': int, w': int, z: int, y: int, A: int, p: int)
    requires p > 0 && IsPrime(p) && !Cong(2, 0, p) && !Cong(A, 0, p)
    requires w == v + 1 && w' == v' + 1 && z == -A
    requires Cong(y * (z + w), z - w, p) && Cong(y * (z + w'), z - w', p)
    ensures Cong(v, v', p)
  {
    hide IsPrime, Cong;
    InverseIdentity(v, w, v', w', z, A);
    CrossFractions(y, z, w, z, w', A * (v - v'), p);
    CancelFactors(A, v - v', p);
    CongFromDifference(v, v', p);
  }

  lemma SquareIdentity(v: int, w: int, z: int, v': int, w': int, z': int, A: int)
    requires w == v + 1 && w' == v' + 1 && z == -(A * v) && z' == -(A * v')
    ensures z * w' - z' * w == A * (v' - v)
  {
    assert (A * v) * v' == (A * v') * v;
  }

  lemma InverseIdentity(v: int, w: int, v': int, w': int, z: int, A: int)
    requires w == v + 1 && w' == v' + 1 && z == -A
    ensures z * w' - z * w == A * (v - v')
  {
  }

  lemma CongFromDifference(a: int, b: int, p: int)
    requires p > 0 && Cong(a - b, 0, p)
    ensures Cong(a, b, p) && Cong(b, a, p)
  {
    CongAdd(a - b, 0, b, b, p);
  }

  lemma CancelFactors(a: int, b: int, p: int)
    requires IsPrime(p) && !Cong(2, 0, p) && !Cong(a, 0, p) && Cong(2 * (a * b), 0, p)
    ensures Cong(b, 0, p)
  {
    ZeroProduct(2, a * b, p);
    ZeroProduct(a, b, p);
  }

  /** Equation and character in `IsImage` depend on the square of u only. */
  lemma SameFractionBySquare(t: int, u: int, A: int, y: int, p: int)
    requires p > 0 && Cong(t * t, u * u, p)
    ensures var v, v' := 2 * (t * t), 2 * (u * u);
            var square := IsSquare((v + 1) * ((v + 1) * (v + 1) - (A * A) * v), p);
            var z, z' := if square then -(A * v) else -A, if square then -(A * v') else -A;
            (square <==> IsSquare((v' + 1) * ((v' + 1) * (v' + 1) - (A * A) * v'), p))
            && (Cong(y * (z + (v + 1)), z - (v + 1), p) && !Cong(z + (v + 1), 0, p)
                ==> Cong(y * (z' + (v' + 1)), z' - (v' + 1), p) && !Cong(z' + (v' + 1), 0, p))
  {
    hide IsSquare;
    var v, v' := 2 * (t * t), 2 * (u * u);
    CongMul(2, 2, t * t, u * u, p);
    CongAdd(v, v', 1, 1, p);
    SameCharacterStep(v, v', A * A, p);
    var square := IsSquare((v + 1) * ((v + 1) * (v + 1) - (A * A) * v), p);
    CongMul(-A, -A, v, v', p);
    assert -A * v == -(A * v) && -A * v' == -(A * v');
    var z, z' := if square then -(A * v) else -A, if square then -(A * v') else -A;
    assert Cong(z, z', p);
    if Cong(y * (z + (v + 1)), z - (v + 1), p) && !Cong(z + (v + 1), 0, p) {
      TransferFraction(y, z, v + 1, z', v' + 1, p);
    }
  }

  lemma SameCharacterStep(v: int, v': int, a: int, p: int)
    requires p > 0 && Cong(v, v', p)
    ensures IsSquare((v + 1) * ((v + 1) * (v + 1) - a * v), p)
       <==> IsSquare((v' + 1) * ((v' + 1) * (v' + 1) - a * v'), p)
  {
    CongAdd(v, v', 1, 1, p);
    CharacterStep(v + 1, (v + 1) * (v + 1) - a * v, v, v' + 1, v', a, p);
    SquareIff((v + 1) * ((v + 1) * (v + 1) - a * v), (v' + 1) * ((v' + 1) * (v' + 1) - a * v'), p);
  }
}
