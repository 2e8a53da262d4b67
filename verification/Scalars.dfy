/**
  Scalars as 32 little-endian bytes (src/crypto.c:133-143, 642-650, 835-908). The secure element
  computes on big-endian numbers, so every operation reverses its inputs and its output; the
  output buffer may be one of the inputs.
 */
module Scalars {
  import opened Arithmetic
  import opened Numerals
  import Buffers

  /** C_ED25519_ORDER, the prime order l of the base point (section 5.1 of RFC 8032). */
  const ORDER: nat := 0x1000000000000000000000000000000014def9dea2f79cd65812631a5cf5d3ed

  /** l == 2^252 + 27742317777372353535851937790883648493, written with 2^256 == 256^32. */
  lemma OrderIs()
    ensures 16 * (ORDER - 27742317777372353535851937790883648493) == Pow(256, 32)
  {
    PowersOf256();
  }

  lemma OrderFits()
    ensures ORDER < Pow(256, 32) && Pow(256, 32) <= Pow(256, 40)
  {
    PowersOf256();
    PowMonotonic(256, 32, 40);
  }

  /** `incognito_reverse32`, reading 32 bytes at `off`; `rscal` may be `scal` itself. */
  method Reverse32(rscal: array<Byte>, scal: array<Byte>, off: nat)
    requires rscal.Length == 32 && off + 32 <= scal.Length
    requires rscal == scal ==> off == 0
    modifies rscal
    ensures rscal[..] == Reverse(old(scal[off..off + 32]))
  {
    ghost var s := scal[off..off + 32];
    var i := 0;
    while i < 16
      invariant 0 <= i <= 16
      invariant forall k :: 0 <= k < 32 && (k < i || 32 - i <= k) ==> rscal[k] == s[31 - k]
      invariant rscal == scal ==> forall k :: i <= k < 32 - i ==> rscal[k] == s[k]
      invariant rscal != scal ==> scal[off..off + 32] == s
    {
      assert scal[off + i] == s[i] && scal[off + 31 - i] == s[31 - i] by {
        if rscal != scal {
          assert scal[off + i] == scal[off..off + 32][i];
          assert scal[off + 31 - i] == scal[off..off + 32][31 - i];
        }
      }
      var x := scal[off + i];
      rscal[i] := scal[off + 31 - i];
      rscal[31 - i] := x;
      i := i + 1;
    }
  }

  /** A big-endian result written by the secure element. */
  method Store(r: array<Byte>, n: nat)
    requires n < Pow(256, r.Length)
    modifies r
    ensures r[..] == ToBigEndian(n, r.Length)
  {
    Buffers.Store(r, ToBigEndian(n, r.Length));
  }

  method StoreReversed(r: array<Byte>, n: nat)
    requires r.Length == 32 && n < Pow(256, 32)
    modifies r
    ensures LittleEndian(r[..]) == n
  {
    Store(r, n);
    assert r[0..32] == r[..];
    ReverseInvolution(r[..]);
    Reverse32(r, r, 0);
  }

  method LoadReversed(a: array<Byte>) returns (n: int)
    requires a.Length == 32
    ensures n == LittleEndian(a[..])
  {
    var ra := new Byte[32];
    Reverse32(ra, a, 0);
    assert a[0..32] == a[..];
    n := BigEndian(ra[..]);
  }

  // ---------- cx_math_addm, cx_math_subm, cx_math_multm and cx_math_modm modulo the order ----------

  function Residue(n: int): (r: nat)
    ensures r < Pow(256, 32) && r == n % ORDER
  {
    OrderFits();
    n % ORDER
  }

  method AddM(r: array<Byte>, a: array<Byte>, b: array<Byte>)
    requires r.Length == a.Length == b.Length == 32
    modifies r
    ensures LittleEndian(r[..]) == (old(LittleEndian(a[..])) + old(LittleEndian(b[..]))) % ORDER
  {
    var ra := LoadReversed(a);
    var rb := LoadReversed(b);
    StoreReversed(r, Residue(ra + rb));
  }

  method SubM(r: array<Byte>, a: array<Byte>, b: array<Byte>)
    requires r.Length == a.Length == b.Length == 32
    modifies r
    ensures LittleEndian(r[..]) == (old(LittleEndian(a[..])) - old(LittleEndian(b[..]))) % ORDER
  {
    var ra := LoadReversed(a);
    var rb := LoadReversed(b);
    StoreReversed(r, Residue(ra - rb));
  }

  method MultM(r: array<Byte>, a: array<Byte>, b: array<Byte>)
    requires r.Length == a.Length == b.Length == 32
    modifies r
    ensures LittleEndian(r[..]) == (old(LittleEndian(a[..])) * old(LittleEndian(b[..]))) % ORDER
  {
    var ra := LoadReversed(a);
    var rb := LoadReversed(b);
    StoreReversed(r, Residue(ra * rb));
  }

  method MultM8(r: array<Byte>, a: array<Byte>)
    requires r.Length == a.Length == 32
    modifies r
    ensures LittleEndian(r[..]) == (8 * old(LittleEndian(a[..]))) % ORDER
  {
    var ra := LoadReversed(a);
    var rb := new Byte[32](_ => 0);
    rb[31] := 8;
    EightBytes(rb[..]);
    StoreReversed(r, Residue(BigEndian(rb[..]) * ra));
  }

  lemma EightBytes(s: seq<Byte>)
    requires |s| == 32 && s[31] == 8 && forall i :: 0 <= i < 31 ==> s[i] == 0
    ensures BigEndian(s) == 8
  {
    assert s[..31] == ZeroDigits(31);
    ValueZeros(256, 31);
  }

  method Reduce(r: array<Byte>, a: array<Byte>)
    requires r.Length == a.Length == 32
    modifies r
    ensures LittleEndian(r[..]) == old(LittleEndian(a[..])) % ORDER
  {
    var ra := LoadReversed(a);
    StoreReversed(r, Residue(ra));
  }

  /** `incognito_rng_mod_order` on the 40 random bytes `rnd`. */
  method RngModOrder(r: array<Byte>, rnd: array<Byte>)
    requires r.Length == 32 && rnd.Length == 40 && r != rnd
    modifies r, rnd
    ensures LittleEndian(r[..]) == old(BigEndian(rnd[..])) % ORDER
  {
    var n := Residue(BigEndian(rnd[..]));
    OrderFits();
    Store(rnd, n);
    LowBytes(n);
    Reverse32(r, rnd, 8);
    ReverseInvolution(ToBigEndian(n, 32));
  }

  /** A number below 2^256 written in 40 bytes sits in the last 32. */
  lemma LowBytes(n: nat)
    requires n < Pow(256, 32) <= Pow(256, 40)
    ensures ToBigEndian(n, 40)[8..40] == ToBigEndian(n, 32)
  {
    hide Pow, Value, Digits;
    var s := ToBigEndian(n, 40);
    var high, low := s[..8], s[8..40];
    assert s == high + low;
    ValueConcat(256, high, low);
    BigEndianBound(low);
    NoHighPart(Value(256, high), Pow(256, 32), Value(256, low), n);
    BigEndianInjective(low, ToBigEndian(n, 32));
  }

  lemma NoHighPart(h: nat, p: int, l: nat, n: nat)
    requires n == h * p + l && n < p
    ensures l == n
  {
    if h >= 1 {
      MulMonotonic(p, 1, h);
    }
  }

  /** `incognito_check_scalar_range_1N`: false where the code throws. */
  method CheckScalarRange1N(s: array<Byte>) returns (ok: bool)
    requires s.Length == 32
    ensures ok <==> 1 <= LittleEndian(s[..]) < ORDER
  {
    var x := LoadReversed(s);
    ok := !(x == 0 || x >= ORDER);
  }
}
