/**
  Key derivation over encoded points (src/crypto.c:469-592, 665-786): one-time keys, shared
  secrets, cofactor handling and key images.

  The secure element supplies Keccak, point addition and point decompression. They are parameters
  here: Keccak is any function to 32 bytes, addition any operation that makes the curve a
  commutative group of exponent 8 * l in which the base point has order l.
 */
module KeyDerivation {
  import opened Arithmetic
  import opened Numerals
  import opened Wrappers
  import opened NumberTheory
  import opened AbelianGroup
  import opened Curve
  import HashToCurve
  import Scalars
  import Varint

  const ORDER: nat := Scalars.ORDER
  const ZERO := Point(0, 1)

  /** C_ED25519_G */
  const BASE_X: int := 0x216936d3cd6e53fec0a4e231fdd6dc5c692cc7609525a7b2c9562d608f25d51a
  const BASE_Y: int := 0x6666666666666666666666666666666666666666666666666666666666666658
  const BASE := Point(BASE_X, BASE_Y)

  /** cx_math_sub of the x coordinate from the field prime. For x == 0 this is the prime itself. */
  function Minus(p: Point): Point {
    Point(Q - p.x, p.y)
  }

  /** A point as cx_ecfp_add_point reads it: its coordinates count modulo the field prime. */
  function Reduced(p: Point): Point {
    Point(p.x % Q, p.y % Q)
  }

  /** Subtraction leaves a coordinate that is not reduced for the points with x == 0 only. */
  lemma MinusReduced(p: Point)
    requires 0 <= p.x < Q && 0 <= p.y < Q
    ensures Reduced(p) == p && (Reduced(Minus(p)) == Minus(p) <==> p.x != 0)
    ensures p.x == 0 ==> Minus(p).x == Q && Reduced(Minus(p)) == p
  {
  }

  /** A scalar modulo l in its 32-byte form. */
  function Scalar(n: int): (s: seq<Byte>)
    ensures |s| == 32 && LittleEndian(s) == n % ORDER
  {
    ToLittleEndian(Scalars.Residue(n), 32)
  }

  datatype Sdk = Sdk(
    keccak: seq<Byte> -> seq<Byte>,
    group: Group<Point>,
    decompress: seq<Byte> -> Option<Point>)
  {
    // ---------- what is assumed of the secure element ----------

    ghost predicate HashesAt(s: seq<Byte>) {
      |keccak(s)| == 32
    }

    ghost predicate CurveAt(p: Point) {
      && (group.mem(p) <==> OnCurve(p))
      && (group.mem(p) ==> group.neg(p) == Reduced(Minus(p)) && group.Mul(8 * ORDER, p) == ZERO)
    }

    ghost predicate EncodesAt(p: Point) {
      OnCurve(p) ==> decompress(Compress(p)) == Some(p)
    }

    ghost predicate DecodesAt(s: seq<Byte>) {
      decompress(s).Some? ==> group.mem(decompress(s).value)
    }

    ghost predicate IsCurveGroup() {
      group.Valid() && group.zero == ZERO && group.Killed(ORDER, BASE) && forall p :: CurveAt(p)
    }

    ghost predicate Valid() {
      && IsCurveGroup()
      && (forall s :: HashesAt(s))
      && (forall p :: EncodesAt(p))
      && (forall s :: DecodesAt(s))
    }

    lemma Laws()
      requires Valid()
      ensures group.Valid() && group.mem(ZERO) && group.zero == ZERO && group.Killed(ORDER, BASE)
    {
    }

    lemma Member(p: Point)
      requires Valid()
      ensures group.mem(p) <==> OnCurve(p)
      ensures group.mem(p) ==> group.neg(p) == Reduced(Minus(p)) && group.Mul(8 * ORDER, p) == ZERO
    {
      hide OnCurve;
      assert CurveAt(p);
    }

    lemma HashLength(s: seq<Byte>)
      requires Valid()
      ensures |keccak(s)| == 32
    {
      assert HashesAt(s);
    }

    // ---------- points as 32 bytes ----------

    function Encode(p: Point): (s: seq<Byte>)
      requires Valid() && group.mem(p)
      ensures |s| == 32 && decompress(s) == Some(p)
    {
      Member(p);
      assert EncodesAt(p);
      Compress(p)
    }

    /** cx_edward_decompress_point; None where it throws. */
    function Decode(s: seq<Byte>): (r: Option<Point>)
      requires Valid()
      ensures r == decompress(s) && (r.Some? ==> group.mem(r.value))
    {
      assert DecodesAt(s);
      decompress(s)
    }

    // ---------- the operations, on bytes ----------

    function Times(k: nat, p: Point): (r: Point)
      requires Valid() && group.mem(p)
      ensures group.mem(r) && r == group.Mul(k, p)
    {
      Laws();
      group.MulMem(k, p);
      group.Mul(k, p)
    }

    function Plus(p: Point, q: Point): (r: Point)
      requires Valid() && group.mem(p) && group.mem(q)
      ensures group.mem(r) && r == group.add(p, q)
    {
      Laws();
      group.Sum(p, q);
      group.add(p, q)
    }

    function EcMulG(s: seq<Byte>): seq<Byte>
      requires Valid()
    {
      Laws();
      Encode(Times(LittleEndian(s), BASE))
    }

    function EcMulK(e: seq<Byte>, s: seq<Byte>): Option<seq<Byte>>
      requires Valid()
    {
      match Decode(e)
      case None => None
      case Some(p) => Some(Encode(Times(LittleEndian(s), p)))
    }

    /** Three doublings. */
    function EcMul8(e: seq<Byte>): Option<seq<Byte>>
      requires Valid()
    {
      match Decode(e)
      case None => None
      case Some(p) =>
        var p2 := Plus(p, p);
        var p4 := Plus(p2, p2);
        Some(Encode(Plus(p4, p4)))
    }

    /** The scalar is multiplied by eight modulo l first. */
    function EcMul8K(e: seq<Byte>, s: seq<Byte>): Option<seq<Byte>>
      requires Valid()
    {
      EcMulK(e, Scalar(8 * LittleEndian(s)))
    }

    function EcAdd(e: seq<Byte>, f: seq<Byte>): Option<seq<Byte>>
      requires Valid()
    {
      match (Decode(e), Decode(f))
      case (Some(p), Some(q)) => Some(Encode(Plus(p, q)))
      case _ => None
    }

    function EcSub(e: seq<Byte>, f: seq<Byte>): Option<seq<Byte>>
      requires Valid()
    {
      match (Decode(e), Decode(f))
      case (Some(p), Some(q)) =>
        MinusMember(q);
        Some(Encode(Plus(p, Reduced(Minus(q)))))
      case _ => None
    }

    lemma MinusMember(q: Point)
      requires Valid() && group.mem(q)
      ensures group.mem(Reduced(Minus(q))) && group.neg(q) == Reduced(Minus(q))
    {
      Laws();
      Member(q);
      group.Negative(q);
    }

    function HashToScalar(raw: seq<Byte>): seq<Byte> {
      Scalar(LittleEndian(keccak(raw)))
    }

    function HashToEc(e: seq<Byte>): Option<seq<Byte>>
      requires Valid()
    {
      EcMul8(HashToCurve.Image(keccak(e)))
    }

    /** hash_to_point hashes once more before the map. */
    function HashToPoint(e: seq<Byte>): Option<seq<Byte>>
      requires Valid()
    {
      HashToEc(keccak(e))
    }

    function GenerateKeyDerivation(e: seq<Byte>, s: seq<Byte>): Option<seq<Byte>>
      requires Valid()
    {
      EcMul8K(e, s)
    }

    function DerivationToScalar(drv: seq<Byte>, index: nat): seq<Byte> {
      HashToScalar(drv + Varint.Encode(index))
    }

    function DeriveSecretKey(drv: seq<Byte>, index: nat, x: seq<Byte>): seq<Byte> {
      Scalar(LittleEndian(DerivationToScalar(drv, index)) + LittleEndian(x))
    }

    function DerivePublicKey(drv: seq<Byte>, index: nat, e: seq<Byte>): Option<seq<Byte>>
      requires Valid()
    {
      EcAdd(EcMulG(DerivationToScalar(drv, index)), e)
    }

    function DeriveSubaddressPublicKey(e: seq<Byte>, drv: seq<Byte>, index: nat): Option<seq<Byte>>
      requires Valid()
    {
      EcSub(e, EcMulG(DerivationToScalar(drv, index)))
    }

    function GenerateKeyImage(e: seq<Byte>, x: seq<Byte>): Option<seq<Byte>>
      requires Valid()
    {
      match HashToPoint(e)
      case None => None
      case Some(i) => EcMulK(i, x)
    }

    // ---------- what the operations compute, in terms of the group and the hash ----------

    /** The scalar multiplications fail exactly where decompression does. */
    lemma PointOperations(e: seq<Byte>, s: seq<Byte>)
      requires Valid()
      ensures EcMulG(s) == Encode(Times(LittleEndian(s), BASE))
      ensures decompress(e).None? ==> EcMulK(e, s).None? && EcMul8(e).None? && EcMul8K(e, s).None?
      ensures decompress(e).Some? ==>
                var p, n := decompress(e).value, LittleEndian(s);
                group.mem(p) && EcMulK(e, s) == Some(Encode(Times(n, p)))
                && EcMul8(e) == Some(Encode(Times(8, p))) && EcMul8K(e, s) == Some(Encode(Times((8 * n) % ORDER, p)))
    {
      hide Valid, OnCurve, Compress, LittleEndian, ToLittleEndian;
      Laws();
      if decompress(e).Some? {
        EightTimes(Decode(e).value);
        EcMul8OfDecoded(e);
      }
    }

    /** So do addition and subtraction, which are otherwise those of the group. */
    lemma PointSums(e: seq<Byte>, f: seq<Byte>)
      requires Valid()
      ensures decompress(e).None? || decompress(f).None? ==> EcAdd(e, f).None? && EcSub(e, f).None?
      ensures decompress(e).Some? && decompress(f).Some? ==>
                var p, q := decompress(e).value, decompress(f).value;
                group.mem(p) && group.mem(q) && group.mem(group.neg(q)) && EcAdd(e, f) == Some(Encode(Plus(p, q)))
                && EcSub(e, f) == Some(Encode(Plus(p, group.neg(q))))
    {
      hide Valid, OnCurve, Compress;
      Laws();
      if decompress(e).Some? && decompress(f).Some? {
        var p, q := Decode(e).value, Decode(f).value;
        MinusMember(q);
        group.Negative(q);
        assert EcAdd(e, f) == Some(Encode(Plus(p, q)));
      }
    }

    lemma EcMul8OfDecoded(e: seq<Byte>)
      requires Valid() && Decode(e).Some?
      ensures EcMul8(e) == EcMul8(Encode(Decode(e).value))
    {
      hide Valid, OnCurve, Compress, LittleEndian;
    }

    /**
      The shared secret of a point and a scalar: eight times the scalar, modulo l, times the point. The
      reduction does not show for points of order dividing l.
     */
    lemma SharedSecretIs(e: seq<Byte>, s: seq<Byte>)
      requires Valid()
      ensures GenerateKeyDerivation(e, s).None? <==> decompress(e).None?
      ensures decompress(e).Some? ==>
                var p, n := decompress(e).value, LittleEndian(s);
                group.mem(p) && GenerateKeyDerivation(e, s) == Some(Encode(Times((8 * n) % ORDER, p)))
                && (group.Killed(ORDER, p) ==> GenerateKeyDerivation(e, s) == Some(Encode(Times(8 * n, p))))
    {
      hide Valid, OnCurve, Compress, LittleEndian, ToLittleEndian, EcMul8K, Encode, Times;
      PointOperations(e, s);
      if decompress(e).Some? {
        if group.Killed(ORDER, decompress(e).value) {
          ReducedTimes(8 * LittleEndian(s), decompress(e).value);
        }
      }
    }

    lemma ReducedTimes(k: nat, p: Point)
      requires Valid() && group.Killed(ORDER, p)
      ensures Times(k % ORDER, p) == Times(k, p)
    {
      hide Valid, OnCurve;
      Laws();
      group.MulModOrder(k, ORDER, p);
    }

    /**
      The derivation scalar hashes the secret followed by the shortest variable-length form of the
      index; that string determines both.
     */
    lemma DerivationScalarIs(drv: seq<Byte>, index: nat, v: seq<Byte>)
      requires Valid() && |drv| == 32 && Varint.Shortest(v, index)
      ensures var s := DerivationToScalar(drv, index);
              |s| == 32 && LittleEndian(s) == LittleEndian(keccak(drv + v)) % ORDER
      ensures index < 0x1_0000_0000 ==> |v| <= 5
      ensures forall drv', index', v' :: |drv'| == 32 && Varint.Shortest(v', index') && drv + v == drv' + v' ==>
                drv == drv' && index == index'
    {
      hide LittleEndian, ToLittleEndian, Varint.Shortest, Varint.Encode, Valid;
      Varint.ShortestIsEncode(v, index);
      if index < 0x1_0000_0000 {
        DerivationInputInjective(drv, drv, index, index);
      }
      forall drv', index', v' | |drv'| == 32 && Varint.Shortest(v', index') && drv + v == drv' + v'
        ensures drv == drv' && index == index'
      {
        Varint.ShortestIsEncode(v', index');
        SplitHashed(drv, v, drv', v');
        Varint.EncodeInjective(index, index', [], []);
      }
    }

    lemma SplitHashed(a: seq<Byte>, v: seq<Byte>, b: seq<Byte>, w: seq<Byte>)
      requires |a| == |b| && a + v == b + w
      ensures a == b && v == w && v + [] == w + []
    {
      assert a == (a + v)[..|a|] && b == (b + w)[..|b|];
      assert v == (a + v)[|a|..] && w == (b + w)[|b|..];
    }

    /** The one-time secret key, outright: the hash of secret and index is added modulo l. */
    lemma SecretKeyIs(drv: seq<Byte>, index: nat, v: seq<Byte>, x: seq<Byte>)
      requires Valid() && |drv| == 32 && Varint.Shortest(v, index)
      ensures LittleEndian(DeriveSecretKey(drv, index, x))
              == (LittleEndian(keccak(drv + v)) % ORDER + LittleEndian(x)) % ORDER
    {
      hide Valid, LittleEndian, ToLittleEndian, DerivationToScalar, Varint.Shortest;
      DerivationScalarIs(drv, index, v);
    }

    /** The public keys: the same multiple of the base point is added to a key, or taken away from it. */
    lemma PublicKeysAre(drv: seq<Byte>, index: nat, v: seq<Byte>, e: seq<Byte>)
      requires Valid() && |drv| == 32 && Varint.Shortest(v, index)
      ensures var h := Times(LittleEndian(keccak(drv + v)) % ORDER, BASE);
              (decompress(e).None? ==>
                 DerivePublicKey(drv, index, e).None? && DeriveSubaddressPublicKey(e, drv, index).None?)
              && (decompress(e).Some? ==>
                    var p := decompress(e).value;
                    group.mem(p) && group.mem(group.neg(h))
                    && DerivePublicKey(drv, index, e) == Some(Encode(Plus(h, p)))
                    && DeriveSubaddressPublicKey(e, drv, index) == Some(Encode(Plus(p, group.neg(h)))))
    {
      hide Valid, OnCurve, Compress, LittleEndian, ToLittleEndian, EcAdd, EcSub, EcMulG, Times, Plus;
      hide DerivationToScalar, Varint.Shortest;
      Laws();
      DerivationScalarIs(drv, index, v);
      var s := DerivationToScalar(drv, index);
      PointOperations(e, s);
      PointSums(e, EcMulG(s));
      PointSums(EcMulG(s), e);
    }

    // ---------- main results ----------

    /** The owner of a secret key can compute the secret key of every derived public key. */
    lemma OneTimeKeysAgree(drv: seq<Byte>, index: nat, x: seq<Byte>)
      requires Valid()
      ensures DerivePublicKey(drv, index, EcMulG(x)) == Some(EcMulG(DeriveSecretKey(drv, index, x)))
    {
      hide Valid, EcMulG, EcAdd, Scalar, LittleEndian, HashToScalar;
      MultiplesAdd(DerivationToScalar(drv, index), x);
    }

    /** Adding multiples of the base point adds the scalars modulo l. */
    lemma MultiplesAdd(s: seq<Byte>, t: seq<Byte>)
      requires Valid()
      ensures EcAdd(EcMulG(s), EcMulG(t)) == Some(EcMulG(Scalar(LittleEndian(s) + LittleEndian(t))))
    {
      hide Valid, OnCurve, Compress, LittleEndian, ToLittleEndian, Encode, EcAdd;
      Laws();
      var j, k := LittleEndian(s), LittleEndian(t);
      ScalarsAdd(j, k, BASE);
      AddEncoded(Times(j, BASE), Times(k, BASE));
    }

    /** Subtracting the derivation recovers the key a derived public key was made from. */
    lemma SubaddressUndoesDerivation(drv: seq<Byte>, index: nat, p: Point)
      requires Valid() && group.mem(p)
      ensures var derived := DerivePublicKey(drv, index, Encode(p));
              derived.Some? && DeriveSubaddressPublicKey(derived.value, drv, index) == Some(Encode(p))
    {
      hide Valid, OnCurve, Compress, LittleEndian, ToLittleEndian;
      Laws();
      var s := Times(LittleEndian(DerivationToScalar(drv, index)), BASE);
      MinusMember(s);
      group.AddThenSubtract(p, s);
    }

    /** Both ends of an exchange derive the same secret: a * R == r * A. */
    lemma KeyDerivationSymmetric(a: seq<Byte>, r: seq<Byte>)
      requires Valid()
      ensures GenerateKeyDerivation(EcMulG(r), a) == GenerateKeyDerivation(EcMulG(a), r)
    {
      hide Valid, OnCurve, Compress, LittleEndian, ToLittleEndian;
      Laws();
      var j, k := LittleEndian(a), LittleEndian(r);
      group.MulOfMultiple(8 * j, k, ORDER, BASE);
      group.MulOfMultiple(8 * k, j, ORDER, BASE);
      MulAssoc(8, j, k);
      MulAssoc(8, k, j);
    }

    /**
      A whole payment: the sender derives from the receiver's view key and a random scalar, the
      receiver from the published point. Both get one secret; the receiver recognises the payment by
      recovering the own spend key, and holds the secret key of the one-time key.
     */
    lemma PaymentReceived(a: seq<Byte>, b: seq<Byte>, r: seq<Byte>, index: nat)
      requires Valid()
      ensures GenerateKeyDerivation(EcMulG(a), r).Some?
      ensures var secret := GenerateKeyDerivation(EcMulG(a), r).value;
              var paid := DerivePublicKey(secret, index, EcMulG(b));
              GenerateKeyDerivation(EcMulG(r), a) == Some(secret)
              && paid == Some(EcMulG(DeriveSecretKey(secret, index, b)))
              && DeriveSubaddressPublicKey(paid.value, secret, index) == Some(EcMulG(b))
    {
      hide Valid, EcMulK, EcAdd, EcSub, Scalar, LittleEndian, HashToScalar, OnCurve, Compress;
      Laws();
      KeyDerivationSymmetric(a, r);
      DerivationExists(a, r);
      var secret := GenerateKeyDerivation(EcMulG(a), r).value;
      OneTimeKeysAgree(secret, index, b);
      SubaddressUndoesDerivation(secret, index, Times(LittleEndian(b), BASE));
    }

    lemma DerivationExists(a: seq<Byte>, r: seq<Byte>)
      requires Valid()
      ensures GenerateKeyDerivation(EcMulG(a), r).Some?
    {
      hide Valid, OnCurve, Compress, LittleEndian, ToLittleEndian;
      Laws();
    }

    /**
      Multiplying the scalar by eight modulo l agrees with multiplying the point by eight exactly
      when the multiple of l that the reduction drops annihilates the point.
     */
    lemma CofactorExact(p: Point, s: seq<Byte>)
      requires Valid() && group.mem(p)
      ensures EcMulK(Encode(p), s).Some?
      ensures EcMul8K(Encode(p), s) == EcMul8(EcMulK(Encode(p), s).value)
          <==> group.Mul((8 * LittleEndian(s)) / ORDER, group.Mul(ORDER, p)) == ZERO
    {
      hide Valid, OnCurve, Compress, LittleEndian, ToLittleEndian;
      Laws();
      var n := LittleEndian(s);
      var d, r := (8 * n) / ORDER, (8 * n) % ORDER;
      EightTimes(Times(n, p));
      group.MulMul(8, n, p);
      group.MulReduced(8 * n, ORDER, d, r, p);
      var dropped, kept := Times(d, Times(ORDER, p)), Times(r, p);
      assert EcMul8K(Encode(p), s) == Some(Encode(kept));
      assert EcMul8(EcMulK(Encode(p), s).value) == Some(Encode(Plus(dropped, kept)));
      EncodeInjective(kept, Plus(dropped, kept));
      group.Zero(kept);
      if Plus(dropped, kept) == kept {
        group.CancelRight(dropped, ZERO, kept);
      }
    }

    lemma EncodeInjective(p: Point, q: Point)
      requires Valid() && group.mem(p) && group.mem(q)
      ensures Encode(p) == Encode(q) <==> p == q
    {
      hide Valid, OnCurve, Compress, LittleEndian, ToLittleEndian;
    }

    lemma EightTimes(p: Point)
      requires Valid() && group.mem(p)
      ensures EcMul8(Encode(p)) == Some(Encode(Times(8, p)))
    {
      hide Valid, OnCurve, Compress, LittleEndian, ToLittleEndian;
      Laws();
      Doubled(1, p);
      Doubled(2, p);
      Doubled(4, p);
    }

    lemma Doubled(k: nat, p: Point)
      requires Valid() && group.mem(p)
      ensures Plus(Times(k, p), Times(k, p)) == Times(2 * k, p) && Times(1, p) == p
    {
      hide Valid, OnCurve;
      Laws();
      group.MulAdd(k, k, p);
      group.Zero(p);
      assert group.Mul(1, p) == group.add(p, group.Mul(0, p));
    }

    /** For points of order dividing l, whatever the scalar, the two agree. */
    lemma CofactorInSubgroup(p: Point, s: seq<Byte>)
      requires Valid() && group.Killed(ORDER, p)
      ensures EcMulK(Encode(p), s).Some?
      ensures EcMul8K(Encode(p), s) == EcMul8(EcMulK(Encode(p), s).value)
    {
      hide Valid, OnCurve, Compress, LittleEndian, ToLittleEndian;
      Laws();
      CofactorExact(p, s);
      group.MulZero((8 * LittleEndian(s)) / ORDER);
    }

    /** Hashing to the curve never fails and always lands in the subgroup of order l. */
    lemma HashToEcInSubgroup(e: seq<Byte>)
      requires Valid()
      ensures HashToEc(e).Some? && Decode(HashToEc(e).value).Some?
      ensures var h := Decode(HashToEc(e).value).value;
              h == group.Mul(8, HashToCurve.ImagePoint(keccak(e))) && group.Killed(ORDER, h)
    {
      hide Valid, OnCurve, Compress, HashToCurve.ImagePoint;
      Laws();
      var m := HashToCurve.ImagePoint(keccak(e));
      Member(m);
      EightTimes(m);
      group.MulMul(ORDER, 8, m);
      assert ORDER * 8 == 8 * ORDER;
    }

    /** The point that key images for `e` are multiples of; it lies in the subgroup of order l. */
    function ImageBase(e: seq<Byte>): (h: Point)
      requires Valid()
      ensures group.Killed(ORDER, h) && HashToPoint(e).Some? && Decode(HashToPoint(e).value) == Some(h)
      ensures h == group.Mul(8, HashToCurve.ImagePoint(keccak(keccak(e))))
    {
      HashToEcInSubgroup(keccak(e));
      Decode(HashToPoint(e).value).value
    }

    /** A key image always exists: the scalar multiple of that point. */
    lemma KeyImageExists(e: seq<Byte>, x: seq<Byte>)
      requires Valid()
      ensures GenerateKeyImage(e, x) == Some(Encode(Times(LittleEndian(x), ImageBase(e))))
    {
      hide Valid, OnCurve, Compress, LittleEndian, HashToPoint, ImageBase;
      var h := ImageBase(e);
    }

    /** Multiples of a point of order dividing l add up modulo l. */
    lemma ScalarsAdd(j: nat, k: nat, p: Point)
      requires Valid() && group.Killed(ORDER, p)
      ensures Plus(Times(j, p), Times(k, p)) == Times((j + k) % ORDER, p)
    {
      hide Valid, OnCurve;
      Laws();
      group.MulAdd(j, k, p);
      group.MulModOrder(j + k, ORDER, p);
    }

    lemma AddEncoded(p: Point, q: Point)
      requires Valid() && group.mem(p) && group.mem(q)
      ensures EcAdd(Encode(p), Encode(q)) == Some(Encode(Plus(p, q)))
    {
      hide Valid, OnCurve, Compress;
    }

    /**
      The key image outright: the scalar times eight times the point that the public key, hashed
      twice, is mapped to.
     */
    lemma KeyImageIs(e: seq<Byte>, x: seq<Byte>)
      requires Valid()
      ensures var m := HashToCurve.ImagePoint(keccak(keccak(e)));
              HashToCurve.CURVE25519.IsImage(LittleEndian(keccak(keccak(e))) % Q, m)
              && group.Killed(ORDER, group.Mul(8, m))
              && GenerateKeyImage(e, x) == Some(Encode(Times(LittleEndian(x), group.Mul(8, m))))
    {
      hide Valid, OnCurve, Compress, LittleEndian, HashToPoint, GenerateKeyImage, HashToCurve.ImagePoint;
      hide HashToCurve.Field.IsImage;
      KeyImageExists(e, x);
      HashToCurve.ImagePointIs(keccak(keccak(e)));
    }

    /** The image of a sum of scalars, reduced modulo l, is the sum of the images. */
    lemma KeyImageAdditive(e: seq<Byte>, a: seq<Byte>, b: seq<Byte>)
      requires Valid()
      ensures GenerateKeyImage(e, a).Some? && GenerateKeyImage(e, b).Some?
      ensures GenerateKeyImage(e, Scalar(LittleEndian(a) + LittleEndian(b)))
           == EcAdd(GenerateKeyImage(e, a).value, GenerateKeyImage(e, b).value)
    {
      hide Valid, OnCurve, Compress, LittleEndian, ToLittleEndian, HashToPoint, ImageBase, GenerateKeyImage,
        Scalar, Encode, Times, EcAdd;
      Laws();
      var h, j, k := ImageBase(e), LittleEndian(a), LittleEndian(b);
      KeyImageExists(e, a);
      KeyImageExists(e, b);
      KeyImageExists(e, Scalar(j + k));
      ScalarsAdd(j, k, h);
      AddEncoded(Times(j, h), Times(k, h));
    }
  }

  /** The hashed string determines derivation and index, and its varint always fits eight bytes. */
  lemma DerivationInputInjective(drv: seq<Byte>, drv': seq<Byte>, index: nat, index': nat)
    requires |drv| == |drv'| == 32 && index < 0x1_0000_0000 && index' < 0x1_0000_0000
    ensures |Varint.Encode(index)| <= 5
    ensures drv + Varint.Encode(index) == drv' + Varint.Encode(index') ==> drv == drv' && index == index'
  {
    assert Pow(128, 5) == 0x8_0000_0000;
    Varint.EncodeLength(index, 5);
    var s, s' := drv + Varint.Encode(index), drv' + Varint.Encode(index');
    if s == s' {
      assert drv == s[..32] && drv' == s'[..32];
      assert Varint.Encode(index) == s[32..] && Varint.Encode(index') == s'[32..];
      Varint.EncodeInjective(index, index', [], []);
    }
  }

  /** The literal base point is on the curve. */
  lemma BaseOnCurve()
    ensures OnCurve(BASE)
  {
    BaseEquation();
  }

  /** It is the base point of RFC 8032, section 5.1: y == 4/5 with an even x. */
  lemma BaseIs()
    ensures (5 * BASE_Y) % Q == 4 && BASE_X % 2 == 0
  {
    assert 5 * BASE_Y == 4 * Q + 4;
    DivModUnique(5 * BASE_Y, Q, 4, 4);
  }

  /** Squares of the coordinates, and their product, reduced. */
  const BASE_X2: int := 0x39e5a76b6f33fadbc92a232fdb1c32f2ebe39c555ccb6a7d690b8a0f82e81c67
  const BASE_Y2: int := 0x51eb851eb851eb851eb851eb851eb851eb851eb851eb851eb851eb851eb851e0
  const BASE_X2Y2: int := 0x43c62db565e3d3bfdce7c49981fd913f4f49fda745a0e7fe57b577142ad1fdae

  lemma BaseEquation()
    ensures Cong(-BASE_X * BASE_X + BASE_Y * BASE_Y, 1 + D * ((BASE_X * BASE_X) * (BASE_Y * BASE_Y)), Q)
  {
    BaseSquares();
    CombineEquation(BASE_X * BASE_X, BASE_Y * BASE_Y, BASE_X2, BASE_Y2, BASE_X2Y2, D, Q);
  }

  lemma BaseSquares()
    ensures Cong(BASE_X * BASE_X, BASE_X2, Q) && Cong(BASE_Y * BASE_Y, BASE_Y2, Q)
    ensures Cong(BASE_X2 * BASE_Y2, BASE_X2Y2, Q) && Cong(BASE_Y2 - BASE_X2, 1 + D * BASE_X2Y2, Q)
  {
  }

  lemma CombineEquation(s: int, t: int, x2: int, y2: int, p: int, d: int, m: int)
    requires m > 0 && Cong(s, x2, m) && Cong(t, y2, m) && Cong(x2 * y2, p, m) && Cong(y2 - x2, 1 + d * p, m)
    ensures Cong(-s + t, 1 + d * (s * t), m)
  {
    CongMul(s, x2, t, y2, m);
    CongMul(d, d, s * t, p, m);
    CongAdd(1, 1, d * (s * t), d * p, m);
    CongAdd(t, y2, s, x2, m);
  }
}
