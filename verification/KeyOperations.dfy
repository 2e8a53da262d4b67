/**
  The functions of src/crypto.c:469-592 and 665-786 as they write into caller buffers, each proved
  against its meaning in KeyDerivation. Where the source throws, `ok` is false and the output is
  unchanged. Outputs may be the same buffer as any input.
 */
module KeyOperations {
  import Arithmetic
  import opened Numerals
  import opened Wrappers
  import opened Curve
  import opened KeyDerivation
  import Buffers
  import HashToCurve
  import Scalars
  import Varint

  /** What an operation that may throw does to its output buffer. */
  ghost predicate Wrote(ok: bool, before: seq<Byte>, after: seq<Byte>, r: Option<seq<Byte>>) {
    ok == r.Some? && after == if ok then r.value else before
  }

  method EcMulG(sdk: Sdk, w: array<Byte>, scalar: array<Byte>)
    requires sdk.Valid() && w.Length == scalar.Length == 32
    modifies w
    ensures w[..] == sdk.EcMulG(old(scalar[..]))
  {
    hide OnCurve, Compress, LittleEndian;
    var s := Scalars.LoadReversed(scalar);
    sdk.Laws();
    Buffers.Store(w, sdk.Encode(sdk.Times(s, BASE)));
  }

  method EcMulK(sdk: Sdk, w: array<Byte>, p: array<Byte>, scalar: array<Byte>) returns (ok: bool)
    requires sdk.Valid() && w.Length == p.Length == scalar.Length == 32
    modifies w
    ensures Wrote(ok, old(w[..]), w[..], sdk.EcMulK(old(p[..]), old(scalar[..])))
  {
    hide OnCurve, Compress, LittleEndian;
    var s := Scalars.LoadReversed(scalar);
    var pxy := sdk.Decode(p[..]);
    if pxy.None? {
      return false;
    }
    Buffers.Store(w, sdk.Encode(sdk.Times(s, pxy.value)));
    ok := true;
  }

  method EcMul8K(sdk: Sdk, w: array<Byte>, p: array<Byte>, scalar: array<Byte>) returns (ok: bool)
    requires sdk.Valid() && w.Length == p.Length == scalar.Length == 32
    modifies w
    ensures Wrote(ok, old(w[..]), w[..], sdk.EcMul8K(old(p[..]), old(scalar[..])))
  {
    hide OnCurve, Compress, LittleEndian;
    var s := new Byte[32];
    Scalars.MultM8(s, scalar);
    LittleEndianInjective(s[..], Scalar(8 * LittleEndian(scalar[..])));
    ok := EcMulK(sdk, w, p, s);
  }

  method EcMul8(sdk: Sdk, w: array<Byte>, p: array<Byte>) returns (ok: bool)
    requires sdk.Valid() && w.Length == p.Length == 32
    modifies w
    ensures Wrote(ok, old(w[..]), w[..], sdk.EcMul8(old(p[..])))
  {
    hide OnCurve, Compress;
    var pxy := sdk.Decode(p[..]);
    if pxy.None? {
      return false;
    }
    var q := pxy.value;
    q := sdk.Plus(q, q);
    q := sdk.Plus(q, q);
    q := sdk.Plus(q, q);
    Buffers.Store(w, sdk.Encode(q));
    ok := true;
  }

  method EcAdd(sdk: Sdk, w: array<Byte>, p: array<Byte>, q: array<Byte>) returns (ok: bool)
    requires sdk.Valid() && w.Length == p.Length == q.Length == 32
    modifies w
    ensures Wrote(ok, old(w[..]), w[..], sdk.EcAdd(old(p[..]), old(q[..])))
  {
    hide OnCurve, Compress;
    var pxy, qxy := sdk.Decode(p[..]), sdk.Decode(q[..]);
    if pxy.None? || qxy.None? {
      return false;
    }
    Buffers.Store(w, sdk.Encode(sdk.Plus(pxy.value, qxy.value)));
    ok := true;
  }

  method EcSub(sdk: Sdk, w: array<Byte>, p: array<Byte>, q: array<Byte>) returns (ok: bool)
    requires sdk.Valid() && w.Length == p.Length == q.Length == 32
    modifies w
    ensures Wrote(ok, old(w[..]), w[..], sdk.EcSub(old(p[..]), old(q[..])))
  {
    hide OnCurve, Compress;
    var pxy, qxy := sdk.Decode(p[..]), sdk.Decode(q[..]);
    if pxy.None? || qxy.None? {
      return false;
    }
    sdk.MinusMember(qxy.value);
    Buffers.Store(w, sdk.Encode(sdk.Plus(pxy.value, Reduced(Minus(qxy.value)))));
    ok := true;
  }

  method HashToScalar(sdk: Sdk, scalar: array<Byte>, raw: seq<Byte>)
    requires sdk.Valid() && scalar.Length == 32
    modifies scalar
    ensures scalar[..] == sdk.HashToScalar(raw)
  {
    hide OnCurve, Compress, LittleEndian;
    sdk.HashLength(raw);
    Buffers.Store(scalar, sdk.keccak(raw));
    Scalars.Reduce(scalar, scalar);
    LittleEndianInjective(scalar[..], sdk.HashToScalar(raw));
  }

  method HashToEc(sdk: Sdk, ec: array<Byte>, pub: array<Byte>) returns (ok: bool)
    requires sdk.Valid() && ec.Length == pub.Length == 32
    modifies ec
    ensures ok && Some(ec[..]) == sdk.HashToEc(old(pub[..]))
  {
    hide OnCurve, Compress, HashToCurve.Image;
    sdk.HashToEcInSubgroup(pub[..]);
    sdk.HashLength(pub[..]);
    Buffers.Store(ec, sdk.keccak(pub[..]));
    HashToCurve.GeFromFeFromBytes(ec, ec);
    ok := EcMul8(sdk, ec, ec);
  }

  method HashToPoint(sdk: Sdk, ec: array<Byte>, pub: array<Byte>) returns (ok: bool)
    requires sdk.Valid() && ec.Length == pub.Length == 32
    modifies ec
    ensures ok && Some(ec[..]) == sdk.HashToPoint(old(pub[..]))
  {
    var keyhash := new Byte[32];
    sdk.HashLength(pub[..]);
    Buffers.Store(keyhash, sdk.keccak(pub[..]));
    ok := HashToEc(sdk, ec, keyhash);
  }

  method GenerateKeyDerivation(sdk: Sdk, drv: array<Byte>, p: array<Byte>, scalar: array<Byte>) returns (ok: bool)
    requires sdk.Valid() && drv.Length == p.Length == scalar.Length == 32
    modifies drv
    ensures Wrote(ok, old(drv[..]), drv[..], sdk.GenerateKeyDerivation(old(p[..]), old(scalar[..])))
  {
    ok := EcMul8K(sdk, drv, p, scalar);
  }

  /** The 8-byte limit of the varint is never hit, so this never throws. */
  method DerivationToScalar(sdk: Sdk, scalar: array<Byte>, drv: array<Byte>, index: nat)
    requires sdk.Valid() && scalar.Length == drv.Length == 32 && index < 0x1_0000_0000
    modifies scalar
    ensures scalar[..] == sdk.DerivationToScalar(old(drv[..]), index)
  {
    hide OnCurve, Compress, LittleEndian, Sdk.Valid, Varint.Encode, Sdk.HashToScalar;
    var varint := new Byte[40];
    forall i | 0 <= i < 32 {
      varint[i] := drv[i];
    }
    ghost var before := varint[..];
    assert before[..32] == old(drv[..]);
    IndexFits(index);
    var len := Varint.EncodeVarint(varint, 32, 8, index);
    var raw := varint[..len.value + 32];
    assert raw == old(drv[..]) + Varint.Encode(index);
    HashToScalar(sdk, scalar, raw);
  }

  lemma IndexFits(index: nat)
    requires index < 0x1_0000_0000
    ensures index < Arithmetic.Pow(128, 8)
  {
    assert Arithmetic.Pow(128, 5) == 0x8_0000_0000;
    Arithmetic.PowMonotonic(128, 5, 8);
  }

  method DeriveSecretKey(sdk: Sdk, x: array<Byte>, drv: array<Byte>, index: nat, priv: array<Byte>)
    requires sdk.Valid() && x.Length == drv.Length == priv.Length == 32 && index < 0x1_0000_0000
    modifies x
    ensures x[..] == sdk.DeriveSecretKey(old(drv[..]), index, old(priv[..]))
  {
    hide OnCurve, Compress, LittleEndian, Sdk.Valid, Sdk.DerivationToScalar;
    var tmp := new Byte[32];
    DerivationToScalar(sdk, tmp, drv, index);
    ghost var k := sdk.DeriveSecretKey(drv[..], index, priv[..]);
    Scalars.AddM(x, tmp, priv);
    LittleEndianInjective(x[..], k);
  }

  method DerivePublicKey(sdk: Sdk, x: array<Byte>, drv: array<Byte>, index: nat, pub: array<Byte>) returns (ok: bool)
    requires sdk.Valid() && x.Length == drv.Length == pub.Length == 32 && index < 0x1_0000_0000
    modifies x
    ensures Wrote(ok, old(x[..]), x[..], sdk.DerivePublicKey(old(drv[..]), index, old(pub[..])))
  {
    var tmp := new Byte[32];
    DerivationToScalar(sdk, tmp, drv, index);
    EcMulG(sdk, tmp, tmp);
    ok := EcAdd(sdk, x, tmp, pub);
  }

  method DeriveSubaddressPublicKey(sdk: Sdk, x: array<Byte>, pub: array<Byte>, drv: array<Byte>, index: nat)
    returns (ok: bool)
    requires sdk.Valid() && x.Length == drv.Length == pub.Length == 32 && index < 0x1_0000_0000
    modifies x
    ensures Wrote(ok, old(x[..]), x[..], sdk.DeriveSubaddressPublicKey(old(pub[..]), old(drv[..]), index))
  {
    var scalarG := new Byte[32];
    DerivationToScalar(sdk, scalarG, drv, index);
    EcMulG(sdk, scalarG, scalarG);
    ok := EcSub(sdk, x, pub, scalarG);
  }

  method GenerateKeyImage(sdk: Sdk, img: array<Byte>, p: array<Byte>, x: array<Byte>) returns (ok: bool)
    requires sdk.Valid() && img.Length == p.Length == x.Length == 32
    modifies img
    ensures ok && Some(img[..]) == sdk.GenerateKeyImage(old(p[..]), old(x[..]))
  {
    hide Sdk.Valid, Sdk.EcMulK, Sdk.HashToPoint, OnCurve, Compress;
    sdk.KeyImageExists(p[..], x[..]);
    var i := new Byte[32];
    ok := HashToPoint(sdk, i, p);
    ok := EcMulK(sdk, img, i, x);
  }

  /**
    The computation of `handleGenKeyImage` (src/api_genKeyImage.c:55-67): the image for the sum of
    the received one-time scalar and the stored key. It never fails.
   */
  method HandleGenKeyImage(sdk: Sdk, img: array<Byte>, data: seq<Byte>, key: array<Byte>) returns (ok: bool)
    requires sdk.Valid() && img.Length == key.Length == 32 && |data| >= 64
    modifies img
    ensures var sum := Scalar(LittleEndian(data[..32]) + LittleEndian(old(key[..])));
            ok && Some(img[..]) == sdk.GenerateKeyImage(data[32..64], sum)
  {
    hide OnCurve, Compress, LittleEndian, Sdk.Valid, Sdk.GenerateKeyImage, Scalar, Wrote;
    var kota, coinPubkey := new Byte[32], new Byte[32];
    Buffers.Store(kota, data[..32]);
    ghost var sum := Scalar(LittleEndian(data[..32]) + LittleEndian(key[..]));
    Scalars.AddM(kota, kota, key);
    LittleEndianInjective(kota[..], sum);
    Buffers.Store(coinPubkey, data[32..64]);
    ok := GenerateKeyImage(sdk, img, coinPubkey, kota);
  }
}
