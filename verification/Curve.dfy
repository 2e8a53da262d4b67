/**
  The field of 2^255 - 19 elements, the constants of src/crypto.c, the curve edwards25519
  (section 4.1 of RFC 7748) and its 32-byte point encoding (section 5.1.2 of RFC 8032).
 */
module Curve {
  import opened Arithmetic
  import opened Numerals
  import opened NumberTheory
  import opened FieldAlgebra
  import PrimeCertificate

  const Q: int := PrimeCertificate.Q

  // ---------- constants ----------

  const A: int := 486662
  const C_FE_MA2: int := 0x7fffffffffffffffffffffffffffffffffffffffffffffffffffffc8db3de3c9
  const C_FE_MA: int := 0x7ffffffffffffffffffffffffffffffffffffffffffffffffffffffffff892e7
  const C_FE_FFFB1: int := 0x7e71fbefdad61b1720a9c53741fb19e3d19404a8b92a738d22a76975321c41ee
  const C_FE_FFFB2: int := 0x4d061e0a045a2cf691d451b7c0165fbe51de03460456f7dfd2de6483607c9ae0
  const C_FE_FFFB3: int := 0x674a110d14c208efb89546403f0da2ed4024ff4ea5964229581b7d8717302c66
  const C_FE_FFFB4: int := 0x1a43f3031067dbf926c0f4887ef7432eee46fc08a13f4a49853d1903b6b39186
  const C_FE_SQRTM1: int := 0x2b8324804fc1df0b2b4d00993dfbd7a72f431806ad2fe478c4ee1b274a0ea0b0
  const C_FE_QM5DIV8: nat := 0x0ffffffffffffffffffffffffffffffffffffffffffffffffffffffffffffffd

  /** The curve constant d == -121665 / 121666. */
  const D: int := 0x52036cee2b6ffe738cc740797779e89800700a4d4141d8ab75eb4dca135978a3
  /** A square root of A + 2. */
  const ROOT_A_PLUS_2: int := 0x6be4f497f9a9c2afc21fa77ad7f4a6ef635a11c7284a9363e9a248ef9c884415

  lemma FieldPrime()
    ensures IsPrime(Q)
  {
    PrimeCertificate.PrimeQ();
  }

  /**
    What each literal is. The comment on C_fe_sqrtm1 (src/crypto.c:291) names another root;
    the value is a square root of -1.
   */
  lemma ConstantsCorrect()
    ensures Cong(C_FE_MA, -A, Q) && Cong(C_FE_MA2, -(A * A), Q)
    ensures Cong(C_FE_SQRTM1 * C_FE_SQRTM1, -1, Q)
    ensures Cong(C_FE_FFFB1 * C_FE_FFFB1, -(2 * (A * (A + 2))), Q)
    ensures Cong(C_FE_FFFB2 * C_FE_FFFB2, 2 * (A * (A + 2)), Q)
    ensures Cong(C_FE_FFFB3 * C_FE_FFFB3, -(C_FE_SQRTM1 * (A * (A + 2))), Q)
    ensures Cong(C_FE_FFFB4 * C_FE_FFFB4, C_FE_SQRTM1 * (A * (A + 2)), Q)
    ensures 8 * C_FE_QM5DIV8 + 5 == Q
    ensures Cong(D * (A + 2), -(A - 2), Q) && Cong(ROOT_A_PLUS_2 * ROOT_A_PLUS_2, A + 2, Q)
  {
  }

  lemma SmallNonZero(a: int)
    requires 0 < a < Q
    ensures !Cong(a, 0, Q)
  {
    DivModUnique(a, Q, 0, a);
    DivModUnique(0, Q, 0, 0);
  }

  lemma Imaginary()
    ensures IsImaginary(C_FE_SQRTM1, Q) && !IsSquare(C_FE_SQRTM1, Q) && !IsSquare(2, Q)
  {
    FieldPrime();
    ConstantsCorrect();
    ImaginaryNonSquare(C_FE_SQRTM1, C_FE_QM5DIV8, Q);
    TwoNonSquare(C_FE_SQRTM1, C_FE_QM5DIV8, Q);
  }

  /** A - 2 == 4 * 121665 is not a square; this is what makes the curve equation complete. */
  lemma AMinusTwoNonSquare()
    ensures !IsSquare(A - 2, Q)
  {
    FieldPrime();
    var h := PrimeCertificate.NonResidue121665();
    EulerNonSquare(121665, h, Q);
    if IsSquare(A - 2, Q) {
      var s :| IsRoot(s, A - 2, Q);
      SmallNonZero(2);
      SquareQuotient(121665, 2, s, Q);
    }
  }

  // ---------- points ----------

  datatype Point = Point(x: int, y: int)

  /** A reduced pair that satisfies -x^2 + y^2 == 1 + d * x^2 * y^2 modulo q. */
  predicate OnEdwards(p: Point, d: int, q: int)
    requires q > 0
  {
    0 <= p.x < q && 0 <= p.y < q
    && Cong(-p.x * p.x + p.y * p.y, 1 + d * ((p.x * p.x) * (p.y * p.y)), q)
  }

  predicate OnCurve(p: Point) {
    OnEdwards(p, D, Q)
  }

  /** y, with the parity of x in the top bit, least significant byte first. */
  function Compress(p: Point): (s: seq<Byte>)
    requires OnCurve(p)
    ensures |s| == 32 && LittleEndian(s) == p.y + TOP_BIT * (p.x % 2)
  {
    EncodingFits();
    ToLittleEndian(p.y + TOP_BIT * (p.x % 2), 32)
  }

  const TOP_BIT: int := 0x8000000000000000000000000000000000000000000000000000000000000000

  lemma EncodingFits()
    ensures Pow(256, 32) == 2 * TOP_BIT && Q < TOP_BIT
  {
    PowersOf256();
  }

  /** Distinct points of the curve have distinct encodings. */
  lemma CompressInjective(p: Point, r: Point)
    requires OnCurve(p) && OnCurve(r) && Compress(p) == Compress(r)
    ensures p == r
  {
    hide IsPrime, IsSquare, Cong, Compress, LittleEndian;
    EncodingFits();
    SplitTopBit(p.y, p.x % 2, r.y, r.x % 2);
    FieldPrime();
    ConstantsCorrect();
    AMinusTwoNonSquare();
    SameAbscissa(p.x, r.x, p.y, A, D, ROOT_A_PLUS_2, Q);
  }

  lemma SplitTopBit(y: int, b: int, z: int, c: int)
    requires 0 <= y < TOP_BIT && 0 <= z < TOP_BIT && 0 <= b < 2 && 0 <= c < 2
    requires y + TOP_BIT * b == z + TOP_BIT * c
    ensures y == z && b == c
  {
  }
}
