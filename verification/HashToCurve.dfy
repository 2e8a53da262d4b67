/**
  `incognito_ge_fromfe_frombytes` (src/crypto.c:300-460): the map from 32 arbitrary bytes to a
  point of edwards25519, with an independent characterisation of its result.

  The map is defined, and its properties are proved, over any prime field with constants that obey
  the laws in `Field.Valid`; `Curve25519Valid` shows that the literals of the source obey them.
 */
module HashToCurve {
  import opened Arithmetic
  import opened Numerals
  import opened NumberTheory
  import opened FieldAlgebra
  import opened Curve
  import opened MapStages
  import Buffers
  import Scalars

  /** The coordinates before the final division: rX, then y == (z - w) / (z + w). */
  datatype Candidate = Candidate(rX: int, z: int, w: int, sign: int)

  type Modulus = n: int | n > 2 witness 3

  /**
    The modulus, the Montgomery coefficient A, the Edwards coefficient d with a root of A + 2, and
    the constants of src/crypto.c:246-298.
   */
  datatype Field = Field(
    q: Modulus, A: int, d: int, rootA2: int,
    ma2: int, ma: int, fffb1: int, fffb2: int, fffb3: int, fffb4: int, sqrtm1: int, qm5div8: nat)
  {
    ghost predicate Valid() {
      && IsPrime(q) && q == 8 * qm5div8 + 5
      && Cong(ma, -A, q) && Cong(ma2, -(A * A), q) && IsImaginary(sqrtm1, q)
      && Cong(fffb1 * fffb1, -(2 * (A * (A + 2))), q) && Cong(fffb2 * fffb2, 2 * (A * (A + 2)), q)
      && Cong(fffb3 * fffb3, -(sqrtm1 * (A * (A + 2))), q) && Cong(fffb4 * fffb4, sqrtm1 * (A * (A + 2)), q)
      && Cong(d * (A + 2), -(A - 2), q) && Cong(rootA2 * rootA2, A + 2, q)
      && !Cong(A, 0, q) && !Cong(A + 2, 0, q) && !IsSquare(A - 2, q)
    }

    lemma NonSquares()
      requires Valid()
      ensures !IsSquare(sqrtm1, q) && !IsSquare(2, q)
    {
      ImaginaryNonSquare(sqrtm1, qm5div8, q);
      TwoNonSquare(sqrtm1, qm5div8, q);
    }

    lemma Laws()
      requires Valid()
      ensures IsPrime(q) && IsImaginary(sqrtm1, q) && Cong(ma, -A, q) && !Cong(rootA2, 0, q)
      ensures Cong(rootA2 * rootA2, A + 2, q) && !IsSquare(A - 2, q)
      ensures Cong(d * (A + 2), -(A - 2), q) && !Cong(A, 0, q)
    {
      hide IsPrime, IsSquare, IsImaginary;
      if Cong(rootA2, 0, q) {
        CongMul(rootA2, 0, rootA2, 0, q);
      }
    }

    lemma OddModulus()
      requires Valid()
      ensures q % 2 == 1
    {
      hide IsPrime, IsSquare, IsImaginary, Cong;
    }

    lemma RealRoot(sigma: int, f: int)
      requires Valid() && ((sigma == 1 && f == fffb2) || (sigma == -1 && f == fffb1))
      ensures Cong(f * f, sigma * (2 * (A * (A + 2))), q)
    {
      hide IsPrime, IsSquare, IsImaginary;
    }

    lemma ImaginaryRoot(sigma: int, f: int)
      requires Valid() && ((sigma == 1 && f == fffb4) || (sigma == -1 && f == fffb3))
      ensures Cong(f * f, sigma * (sqrtm1 * (A * (A + 2))), q)
    {
      hide IsPrime, IsSquare, IsImaginary;
    }

    // ---------- cx_math_addm, cx_math_subm, cx_math_multm, cx_math_powm, cx_math_invprimem ----------

    function AddM(a: int, b: int): (r: int)
      ensures 0 <= r < q
    {
      (a + b) % q
    }

    function SubM(a: int, b: int): (r: int)
      ensures 0 <= r < q
    {
      (a - b) % q
    }

    function MulM(a: int, b: int): (r: int)
      ensures 0 <= r < q
    {
      (a * b) % q
    }

    function PowM(a: int, e: nat): (r: int)
      ensures 0 <= r < q
    {
      Pow(a, e) % q
    }

    function InvM(a: int): (r: int)
      requires Valid() && a % q != 0
      ensures 0 <= r < q && (a * r) % q == 1
    {
      InverseByPower(a, q);
      Pow(a, q - 2) % q
    }

    // ---------- the map as a function ----------

    /** v == 2 * u^2 */
    function TwiceSquare(u: int): int {
      AddM(MulM(u, u), MulM(u, u))
    }

    /** w == 2 * u^2 + 1 */
    function Numerator(u: int): int {
      AddM(TwiceSquare(u), 1)
    }

    /** x == w^2 - 2 * A^2 * u^2 */
    function Denominator(u: int): int {
      AddM(MulM(Numerator(u), Numerator(u)), MulM(ma2, TwiceSquare(u)))
    }

    /** fe_divpowm1: (w / x)^((q + 3) / 8) */
    function DivPowM1(w: int, x: int): int {
      var v3 := MulM(MulM(x, x), x);
      var uv7 := MulM(MulM(MulM(v3, v3), x), w);
      MulM(MulM(PowM(uv7, qm5div8), v3), w)
    }

    /** r^2 * x for the candidate root r of w / x, which the code compares with w. */
    function Check(u: int): int {
      var r := DivPowM1(Numerator(u), Denominator(u));
      MulM(MulM(r, r), Denominator(u))
    }

    function Branch(u: int): Candidate {
      var v, w := TwiceSquare(u), Numerator(u);
      var r := DivPowM1(w, Denominator(u));
      var s := Check(u);
      if SubM(w, s) == 0 then Candidate(MulM(MulM(r, fffb2), u), MulM(ma, v), w, 0)
      else if AddM(w, s) == 0 then Candidate(MulM(MulM(r, fffb1), u), MulM(ma, v), w, 0)
      else if SubM(w, MulM(s, sqrtm1)) == 0 then Candidate(MulM(r, fffb4), ma, w, 1)
      else Candidate(MulM(r, fffb3), ma, w, 1)
    }

    function SetSign(c: Candidate): Candidate {
      if c.rX % 2 != c.sign then c.(rX := q - c.rX) else c
    }

    /** The computed affine point of a correct candidate. */
    function Affine(c: Candidate): (p: Point)
      requires Valid()
      requires !Cong(c.z + c.w, 0, q)
    {
      CongMod(c.z + c.w, q);
      DivModUnique(0, q, 0, 0);
      var rZ, rY := AddM(c.z, c.w), SubM(c.z, c.w);
      var i := InvM(rZ);
      Point(MulM(MulM(c.rX, rZ), i), MulM(rY, i))
    }

    function MapToCurve(u: int): (p: Point)
      requires Valid()
      ensures OnEdwards(p, d, q)
    {
      AffineOnCurve(u);
      Affine(SetSign(Branch(u)))
    }

    // ---------- what the map means ----------

    /**
      The image of u, without exponents, constants or branches: the sign and the Montgomery
      numerator follow from one quadratic character, y from the birational map, x from its parity.
     */
    ghost predicate IsImage(u: int, p: Point) {
      var v := 2 * (u * u);
      var w := v + 1;
      var square := IsSquare(w * (w * w - (A * A) * v), q);
      var z := if square then -(A * v) else -A;
      OnEdwards(p, d, q) && Cong(p.y * (z + w), z - w, q) && !Cong(z + w, 0, q)
      && p.x % 2 == if square then 0 else 1
    }

    // ---------- the stages of the code ----------

    /** A reduced sum of terms known up to congruence. */
    lemma AddMCong(a: int, b: int, a': int, b': int)
      requires Cong(a, a', q) && Cong(b, b', q)
      ensures Cong(AddM(a, b), a' + b', q)
    {
      CongMod(a + b, q);
      CongAdd(a, a', b, b', q);
    }

    lemma MulMCong(a: int, b: int, a': int, b': int)
      requires Cong(a, a', q) && Cong(b, b', q)
      ensures Cong(MulM(a, b), a' * b', q)
    {
      CongMod(a * b, q);
      CongMul(a, a', b, b', q);
    }

    lemma SubMZero(a: int, b: int)
      ensures SubM(a, b) == 0 <==> Cong(b, a, q)
    {
      CongDifference(a, b, q);
    }

    lemma AddMZero(a: int, b: int)
      ensures AddM(a, b) == 0 <==> Cong(b, -a, q)
    {
      CongDifference(b, -a, q);
    }

    lemma StageValues(u: int)
      requires Valid()
      ensures Cong(TwiceSquare(u), 2 * (u * u), q)
      ensures Cong(Numerator(u), TwiceSquare(u) + 1, q)
      ensures Cong(Denominator(u), Numerator(u) * Numerator(u) - (A * A) * TwiceSquare(u), q)
    {
      hide AddM, MulM;
      MulMCong(u, u, u, u);
      AddMCong(MulM(u, u), MulM(u, u), u * u, u * u);
      AddMCong(TwiceSquare(u), 1, TwiceSquare(u), 1);
      DenominatorValue(Numerator(u), TwiceSquare(u));
    }

    lemma DenominatorValue(w: int, v: int)
      requires Valid()
      ensures Cong(AddM(MulM(w, w), MulM(ma2, v)), w * w - (A * A) * v, q)
    {
      hide AddM, MulM, Cong, IsPrime, IsSquare, IsImaginary;
      MulMCong(w, w, w, w);
      MulMCong(ma2, v, -(A * A), v);
      assert -(A * A) * v == -((A * A) * v);
      AddMCong(MulM(w, w), MulM(ma2, v), w * w, -((A * A) * v));
    }

    /** Neither side of the quotient w / x is ever zero. */
    lemma StagesNonZero(u: int)
      requires Valid()
      ensures !Cong(Numerator(u), 0, q) && !Cong(Denominator(u), 0, q)
    {
      hide IsPrime, IsSquare, IsImaginary, TwiceSquare, Numerator, Denominator;
      NonSquares();
      StageValues(u);
      NumeratorNonZero(u, TwiceSquare(u), Numerator(u), sqrtm1, q);
      RatioDenominatorNonZero(u, TwiceSquare(u), Numerator(u), Denominator(u), A, q);
    }

    lemma DivPowM1Value(w: int, x: int) returns (c: int)
      requires Valid()
      requires !Cong(w, 0, q) && !Cong(x, 0, q)
      ensures Cong((DivPowM1(w, x) * DivPowM1(w, x)) * x, w * c, q)
      ensures Cong((c * c) * (c * c), 1, q)
    {
      var v3 := MulM(MulM(x, x), x);
      var t := MulM(MulM(MulM(v3, v3), x), w);
      var e := qm5div8;
      CubeAndSeventh(x);
      MulMCong(x, x, x, x);
      MulMCong(MulM(x, x), x, x * x, x);
      MulMCong(v3, v3, Pow(x, 3), Pow(x, 3));
      MulMCong(MulM(v3, v3), x, Pow(x, 3) * Pow(x, 3), x);
      MulMCong(MulM(MulM(v3, v3), x), w, Pow(x, 7), w);
      CongMod(Pow(t, e), q);
      MulMCong(PowM(t, e), v3, Pow(t, e), Pow(x, 3));
      MulMCong(MulM(PowM(t, e), v3), w, Pow(t, e) * Pow(x, 3), w);
      assert Pow(x, 7) * w == w * Pow(x, 7);
      c := RootCandidate(w, x, t, DivPowM1(w, x), e, q);
    }

    /**
      The comparison ladder is exhaustive: where the code takes its last branch without looking,
      w + i * r^2 * x is zero.
     */
    lemma BranchesExhaustive(u: int)
      requires Valid()
      ensures SubM(Numerator(u), Check(u)) == 0 || AddM(Numerator(u), Check(u)) == 0
           || SubM(Numerator(u), MulM(Check(u), sqrtm1)) == 0
           || AddM(Numerator(u), MulM(Check(u), sqrtm1)) == 0
    {
      hide IsPrime, IsSquare, DivPowM1, Numerator, Denominator;
      var w, x, i := Numerator(u), Denominator(u), sqrtm1;
      StagesNonZero(u);
      var c := DivPowM1Value(w, x);
      CheckValue(DivPowM1(w, x), x);
      NonSquares();
      FourthRoots(c, i, q);
      SubMZero(w, Check(u));
      AddMZero(w, Check(u));
      SubMZero(w, MulM(Check(u), i));
      AddMZero(w, MulM(Check(u), i));
      MulMCong(Check(u), i, Check(u), i);
      LadderStep(w, c, i, Check(u), q);
    }

    lemma CheckValue(r: int, x: int)
      ensures Cong(MulM(MulM(r, r), x), (r * r) * x, q)
    {
      hide MulM;
      MulMCong(r, r, r, r);
      MulMCong(MulM(r, r), x, r * r, x);
    }

    // ---------- the branches of the code ----------

    /** What every branch leaves behind, and which quadratic character selects it. */
    ghost predicate Good(u: int, c: Candidate) {
      var v, w, x := TwiceSquare(u), Numerator(u), Denominator(u);
      c.w == w && 0 <= c.rX < q && (c.sign == 0 || c.sign == 1)
      && Cong(c.z, if c.sign == 0 then -(A * v) else -A, q)
      && Cong((c.rX * c.rX) * x, -((A + 2) * (c.z * c.w)), q)
      && (c.sign == 0 <==> IsSquare(w * x, q))
    }

    lemma BranchGood(u: int)
      requires Valid()
      ensures Good(u, Branch(u))
    {
      hide IsPrime, IsSquare, DivPowM1, TwiceSquare, Numerator, Denominator, MulM, AddM, SubM, Check, Good;
      var r := DivPowM1(Numerator(u), Denominator(u));
      BranchesExhaustive(u);
      LadderMeaning(u);
      if SubM(Numerator(u), Check(u)) == 0 {
        RealBranchGood(u, r, 1, fffb2);
      } else if AddM(Numerator(u), Check(u)) == 0 {
        RealBranchGood(u, r, -1, fffb1);
      } else if SubM(Numerator(u), MulM(Check(u), sqrtm1)) == 0 {
        ImaginaryBranchGood(u, r, 1, fffb4);
      } else {
        ImaginaryBranchGood(u, r, -1, fffb3);
      }
    }

    lemma LadderMeaning(u: int)
      ensures var w, s, i := Numerator(u), Check(u), sqrtm1;
              var r := DivPowM1(w, Denominator(u));
              var t := (r * r) * Denominator(u);
              (SubM(w, s) == 0 ==> Cong(t, 1 * w, q)) && (AddM(w, s) == 0 ==> Cong(t, -1 * w, q))
              && (SubM(w, MulM(s, i)) == 0 ==> Cong(t * i, 1 * w, q))
              && (AddM(w, MulM(s, i)) == 0 ==> Cong(t * i, -1 * w, q))
    {
      hide DivPowM1, Numerator, Denominator, MulM, AddM, SubM;
      var w, s, i := Numerator(u), Check(u), sqrtm1;
      var r := DivPowM1(w, Denominator(u));
      CheckValue(r, Denominator(u));
      SubMZero(w, s);
      AddMZero(w, s);
      SubMZero(w, MulM(s, i));
      AddMZero(w, MulM(s, i));
      MulMCong(s, i, (r * r) * Denominator(u), i);
    }

    lemma MontgomeryNumerator(v: int)
      requires Cong(ma, -A, q)
      ensures Cong(MulM(ma, v), -(A * v), q)
    {
      hide Cong, MulM;
      MulMCong(ma, v, -A, v);
      assert -A * v == -(A * v);
    }

    lemma RealBranchGood(u: int, r: int, sigma: int, f: int)
      requires Valid()
      requires (sigma == 1 && f == fffb2) || (sigma == -1 && f == fffb1)
      requires Cong((r * r) * Denominator(u), sigma * Numerator(u), q)
      ensures Good(u, Candidate(MulM(MulM(r, f), u), MulM(ma, TwiceSquare(u)), Numerator(u), 0))
    {
      hide Valid, IsPrime, Cong, IsSquare, IsImaginary, TwiceSquare, Numerator, Denominator, MulM;
      Laws();
      RealRoot(sigma, f);
      var v, w, x := TwiceSquare(u), Numerator(u), Denominator(u);
      var z := MulM(ma, v);
      StageValues(u);
      MulMCong(r, f, r, f);
      MulMCong(MulM(r, f), u, r * f, u);
      MontgomeryNumerator(v);
      RealBranch(r, x, w, u, v, z, f, sigma, A, MulM(MulM(r, f), u), q);
      RealBranchSquare(r, x, w, sigma, sqrtm1, q);
    }

    lemma ImaginaryBranchGood(u: int, r: int, sigma: int, f: int)
      requires Valid()
      requires (sigma == 1 && f == fffb4) || (sigma == -1 && f == fffb3)
      requires Cong(((r * r) * Denominator(u)) * sqrtm1, sigma * Numerator(u), q)
      ensures Good(u, Candidate(MulM(r, f), ma, Numerator(u), 1))
    {
      hide Valid, IsPrime, IsSquare, IsImaginary, TwiceSquare, Numerator, Denominator, MulM;
      Laws();
      ImaginaryRoot(sigma, f);
      var w, x := Numerator(u), Denominator(u);
      NonSquares();
      StagesNonZero(u);
      MulMCong(r, f, r, f);
      ImaginaryBranch(r, x, w, ma, f, sqrtm1, sigma, A, MulM(r, f), q);
      ImaginaryBranchNonSquare(r, x, w, sigma, sqrtm1, q);
    }

    /** The sign fix-up: it never sees a zero it would have to make odd. */
    lemma SetSignGood(u: int, c: Candidate)
      requires Valid()
      requires Good(u, c)
      ensures Good(u, SetSign(c)) && SetSign(c).rX % 2 == c.sign
      ensures c.rX == 0 ==> c.sign == 0
    {
      hide Valid, Cong, IsSquare, TwiceSquare, Numerator, Denominator;
      if c.sign == 1 {
        OddNonZero(u, c);
      }
      NegatedRoot(c.rX, Denominator(u), -((A + 2) * (c.z * c.w)), q);
      OddModulus();
      FlipParity(c.rX, q);
    }

    lemma OddNonZero(u: int, c: Candidate)
      requires Valid()
      requires Good(u, c) && c.sign == 1
      ensures c.rX != 0
    {
      hide IsPrime, IsSquare, TwiceSquare, Numerator, Denominator;
      StagesNonZero(u);
      OddRootNonZero(Denominator(u), c.z, c.w, A, q);
    }

    /** Everything the final division relies on. */
    lemma CandidateCorrect(u: int)
      requires Valid()
      ensures var c := SetSign(Branch(u));
              Good(u, c) && c.rX % 2 == c.sign && !Cong(c.z + c.w, 0, q) && AddM(c.z, c.w) % q != 0
              && Cong((c.rX * c.rX) * (c.z * c.z + A * (c.z * c.w) + c.w * c.w), -((A + 2) * (c.z * c.w)), q)
    {
      hide Valid, IsPrime, IsSquare, IsImaginary, TwiceSquare, Numerator, Denominator, Branch, SetSign;
      Laws();
      var c := SetSign(Branch(u));
      BranchGood(u);
      SetSignGood(u, Branch(u));
      StageValues(u);
      StagesNonZero(u);
      var form := c.z * c.z + A * (c.z * c.w) + c.w * c.w;
      QuadraticForm(TwiceSquare(u), c.w, Denominator(u), c.z, A, q);
      CongMul(c.rX * c.rX, c.rX * c.rX, form, Denominator(u), q);
      NonSquares();
      FieldAlgebra.DenominatorNonZero(c.rX, c.z, c.w, A, rootA2, sqrtm1, q);
      CongMod(c.z + c.w, q);
      CongMod(AddM(c.z, c.w), q);
      DivModUnique(0, q, 0, 0);
    }

    lemma AffineOnCurve(u: int)
      requires Valid()
      ensures var c := SetSign(Branch(u));
              !Cong(c.z + c.w, 0, q) && OnEdwards(Affine(c), d, q) && Affine(c).x == c.rX
              && Cong(Affine(c).y * (c.z + c.w), c.z - c.w, q)
    {
      hide IsPrime, Good, SetSign, Branch;
      var c := SetSign(Branch(u));
      CandidateCorrect(u);
      CandidateInRange(u, c);
      var p, rZ := Affine(c), AddM(c.z, c.w);
      DivModUnique(1, q, 0, 1);
      CongMod(MulM(c.rX, rZ) * InvM(rZ), q);
      CongMod(SubM(c.z, c.w) * InvM(rZ), q);
      AffineCorrect(c.rX, c.z, c.w, InvM(rZ), p.x, p.y, A, d, q);
    }

    lemma CandidateInRange(u: int, c: Candidate)
      requires Good(u, c)
      ensures 0 <= c.rX < q
    {
    }

    // ---------- main results ----------

    /** The code computes an image in the sense of the characterisation, for every input. */
    lemma MapIsImage(u: int)
      requires Valid()
      ensures IsImage(u, MapToCurve(u))
    {
      hide IsPrime, IsSquare, TwiceSquare, Numerator, Denominator, Branch, SetSign, OnEdwards, AddM, MulM, SubM, InvM;
      var c := SetSign(Branch(u));
      CandidateCorrect(u);
      AffineOnCurve(u);
      SameCharacter(u);
      StageValues(u);
      var v := 2 * (u * u);
      var z := if c.sign == 0 then -(A * v) else -A;
      CongMul(A, A, TwiceSquare(u), v, q);
      CongAdd(0, 0, A * TwiceSquare(u), A * v, q);
      CongAdd(TwiceSquare(u), v, 1, 1, q);
      TransferFraction(MapToCurve(u).y, c.z, c.w, z, v + 1, q);
    }

    lemma SameCharacter(u: int)
      requires Valid()
      ensures var v := 2 * (u * u);
              IsSquare(Numerator(u) * Denominator(u), q) <==> IsSquare((v + 1) * ((v + 1) * (v + 1) - (A * A) * v), q)
    {
      hide IsSquare, TwiceSquare, Numerator, Denominator;
      StageValues(u);
      var v, w := 2 * (u * u), 2 * (u * u) + 1;
      CongAdd(TwiceSquare(u), v, 1, 1, q);
      CharacterStep(Numerator(u), Denominator(u), TwiceSquare(u), w, v, A * A, q);
      SquareIff(Numerator(u) * Denominator(u), w * (w * w - (A * A) * v), q);
    }

    /** The characterisation leaves no freedom: it determines the point. */
    lemma ImageUnique(u: int, p: Point, r: Point)
      requires Valid()
      requires IsImage(u, p) && IsImage(u, r)
      ensures p == r
    {
      hide Valid, IsPrime, IsSquare;
      Laws();
      OddModulus();
      var v := 2 * (u * u);
      var z := if IsSquare((v + 1) * ((v + 1) * (v + 1) - (A * A) * v), q) then -(A * v) else -A;
      SameFraction(p.y, r.y, z + (v + 1), z - (v + 1), q);
      CongResidues(p.y, r.y, q);
      SameAbscissa(p.x, r.x, p.y, A, d, rootA2, q);
    }

    /** The image depends on the square of u only. */
    lemma ImageOfSquare(u: int, t: int, p: Point)
      requires Cong(u * u, t * t, q)
      ensures IsImage(u, p) ==> IsImage(t, p)
    {
      hide IsSquare, OnEdwards, Cong;
      SameFractionBySquare(u, t, A, p.y, q);
    }

    /** An image determines the square: its parity the character, its y the number. */
    lemma SquareOfImage(u: int, t: int, p: Point)
      requires Valid() && IsImage(u, p) && IsImage(t, p)
      ensures Cong(u * u, t * t, q)
    {
      hide Valid, IsPrime, IsSquare, OnEdwards;
      Laws();
      TwoNonZero(q);
      var v, v' := 2 * (u * u), 2 * (t * t);
      if p.x % 2 == 0 {
        FractionOfSquare(v, v + 1, -(A * v), v', v' + 1, -(A * v'), p.y, A, q);
      } else {
        FractionOfInverse(v, v + 1, v', v' + 1, -A, p.y, A, q);
      }
      CancelNonZero(2, u * u, t * t, q);
    }

    /** The map is two-to-one up to sign: two inputs share an image exactly when they agree or are opposite. */
    lemma MapFibres(u: int, t: int)
      requires Valid()
      ensures MapToCurve(u) == MapToCurve(t) <==> Cong(u, t, q) || Cong(u, -t, q)
    {
      hide Valid, MapToCurve, IsImage, Cong;
      Laws();
      MapIsImage(u);
      MapIsImage(t);
      SquareOfSigned(u, t, q);
      if MapToCurve(u) == MapToCurve(t) {
        SquareOfImage(u, t, MapToCurve(u));
        EqualSquares(u, t, q);
      } else if Cong(u * u, t * t, q) {
        ImageOfSquare(u, t, MapToCurve(u));
        ImageUnique(t, MapToCurve(u), MapToCurve(t));
      }
    }

    /** The map is even: u and q - u have the same image. */
    lemma MapIsEven(u: int)
      requires Valid()
      ensures MapToCurve(q - u) == MapToCurve(u)
    {
      hide Valid, MapToCurve;
      CongIntro(q - u, -u, q, 1);
      MapFibres(q - u, u);
    }

    // ---------- the code, statement by statement ----------

    /** The candidate root: r^2 * x is w up to a fourth root of unity. */
    method DivPowM1Steps(w: int, x: int) returns (r: int, ghost c: int)
      requires Valid() && !Cong(w, 0, q) && !Cong(x, 0, q)
      ensures r == DivPowM1(w, x) && Cong((r * r) * x, w * c, q) && Cong((c * c) * (c * c), 1, q)
    {
      hide Valid, Cong;
      var v3 := MulM(x, x);
      v3 := MulM(v3, x);
      var uv7 := MulM(v3, v3);
      uv7 := MulM(uv7, x);
      uv7 := MulM(uv7, w);
      uv7 := PowM(uv7, qm5div8);
      uv7 := MulM(uv7, v3);
      r := MulM(uv7, w);
      c := DivPowM1Value(w, x);
    }

    /**
      From the reduced input to the affine point. The two assertions are the assertion of the
      original Monero code that this code drops, and the precondition of the modular inverse.
     */
    method Map(input: int) returns (p: Point)
      requires Valid()
      ensures p == MapToCurve(input)
    {
      hide Valid, OnEdwards, DivPowM1, IsImage;
      var u := input;
      var v := MulM(u, u);
      v := AddM(v, v);
      var w := 1;
      w := AddM(v, w);
      var x := MulM(w, w);
      var y := MulM(ma2, v);
      x := AddM(x, y);
      StagesNonZero(input);
      var rX, _ := DivPowM1Steps(w, x);

      y := MulM(rX, rX);
      x := MulM(y, x);
      y := SubM(w, x);
      var z := ma;
      var sign := 0;
      if y != 0 && AddM(w, x) != 0 {
        x := MulM(x, sqrtm1);
        y := SubM(w, x);
        if y != 0 {
          y := AddM(w, x);
          BranchesExhaustive(input);
          assert y == 0;
          rX := MulM(rX, fffb3);
        } else {
          rX := MulM(rX, fffb4);
        }
        sign := 1;
      } else {
        rX := MulM(rX, if y != 0 then fffb1 else fffb2);
        rX := MulM(rX, u);
        z := MulM(z, v);
      }
      assert Candidate(rX, z, w, sign) == Branch(input);

      if rX % 2 != sign {
        rX := q - rX;
      }
      assert Candidate(rX, z, w, sign) == SetSign(Branch(input));
      CandidateCorrect(input);
      var rZ, rY := AddM(z, w), SubM(z, w);
      rX := MulM(rX, rZ);
      assert rZ % q != 0;
      u := InvM(rZ);
      p := Point(MulM(rX, u), MulM(rY, u));
    }
  }

  // ---------- edwards25519 ----------

  const CURVE25519: Field := Field(
    Q, A, D, ROOT_A_PLUS_2,
    C_FE_MA2, C_FE_MA, C_FE_FFFB1, C_FE_FFFB2, C_FE_FFFB3, C_FE_FFFB4, C_FE_SQRTM1, C_FE_QM5DIV8)

  /** The literals of the source are what the map needs. */
  lemma Curve25519Valid()
    ensures CURVE25519.Valid()
  {
    hide IsPrime, IsSquare;
    FieldPrime();
    ConstantsCorrect();
    Imaginary();
    AMinusTwoNonSquare();
    SmallNonZero(A);
    SmallNonZero(A + 2);
  }

  /** The image of 32 bytes, read as a little-endian number: the point and its encoding. */
  function ImagePoint(bytes: seq<Byte>): (p: Point)
    ensures OnCurve(p)
  {
    Curve25519Valid();
    CURVE25519.MapToCurve(LittleEndian(bytes) % Q)
  }

  /** The point is the image, in the branch-free sense, of the number the bytes hold. */
  lemma ImagePointIs(bytes: seq<Byte>)
    ensures CURVE25519.IsImage(LittleEndian(bytes) % Q, ImagePoint(bytes))
  {
    hide Field.IsImage, Field.MapToCurve, Field.Valid, OnCurve, LittleEndian;
    Curve25519Valid();
    CURVE25519.MapIsImage(LittleEndian(bytes) % Q);
  }

  function Image(bytes: seq<Byte>): (s: seq<Byte>)
    ensures |s| == 32
  {
    Compress(ImagePoint(bytes))
  }

  /** The encoding of the one point that the characterisation admits for these bytes. */
  ghost predicate EncodesImage(bytes: seq<Byte>, s: seq<Byte>) {
    exists p :: OnCurve(p) && CURVE25519.IsImage(LittleEndian(bytes) % Q, p) && s == Compress(p)
  }

  /** `incognito_ge_fromfe_frombytes`; `ge` may be `bytes`, as in `incognito_hash_to_ec`. */
  method GeFromFeFromBytes(ge: array<Byte>, bytes: array<Byte>)
    requires ge.Length == bytes.Length == 32
    modifies ge
    ensures ge[..] == Image(old(bytes[..])) && EncodesImage(old(bytes[..]), ge[..])
  {
    hide OnCurve, Field.Valid, Field.MapToCurve, Field.IsImage;
    var n := Scalars.LoadReversed(bytes);
    Curve25519Valid();
    var p := CURVE25519.Map(n % Q);
    assert p == ImagePoint(bytes[..]);
    CURVE25519.MapIsImage(n % Q);
    assert OnCurve(p) && CURVE25519.IsImage(LittleEndian(bytes[..]) % Q, p);
    Buffers.Store(ge, Compress(p));
  }
}
