/**
  Positional numerals: the value of a digit sequence, its fixed-width and its minimal
  representation in a base, and byte strings read in either byte order.
 */
module Numerals {
  import opened Arithmetic

  type Byte = b: int | 0 <= b < 256

  const TWO_64: nat := 0x1_0000_0000_0000_0000

  /** The number a digit sequence denotes, most significant digit first. */
  function Value(base: nat, s: seq<nat>): nat {
    if s == [] then 0 else Value(base, s[..|s| - 1]) * base + s[|s| - 1]
  }

  function ZeroDigits(n: nat): (s: seq<nat>)
    ensures |s| == n && forall i :: 0 <= i < n ==> s[i] == 0
  {
    seq(n, _ => 0)
  }

  ghost predicate IsNumeral(base: nat, s: seq<nat>) {
    forall i :: 0 <= i < |s| ==> s[i] < base
  }

  /** The `k` least significant digits of `n`. */
  function Digits(base: nat, n: nat, k: nat): (s: seq<nat>)
    requires base >= 2
    ensures |s| == k && IsNumeral(base, s)
    decreases k
  {
    if k == 0 then [] else Digits(base, n / base, k - 1) + [n % base]
  }

  /** The representation of `n` without leading zero digits; zero has no digits. */
  function Minimal(base: nat, n: nat): (s: seq<nat>)
    requires base >= 2
    ensures IsNumeral(base, s)
    ensures s != [] ==> s[0] != 0
    decreases n
  {
    if n == 0 then [] else
      DivLess(n, base, n);
      Minimal(base, n / base) + [n % base]
  }

  lemma {:induction false} ValueBound(base: nat, s: seq<nat>)
    requires base >= 2 && IsNumeral(base, s)
    ensures Value(base, s) < Pow(base, |s|)
  {
    if s != [] {
      var t := s[..|s| - 1];
      ValueBound(base, t);
      BoundStep(Value(base, t), s[|s| - 1], base, Pow(base, |t|));
    }
  }

  lemma BoundStep(v: int, d: int, base: int, p: int)
    requires base > 0 && v < p && d < base
    ensures v * base + d < base * p
  {
    MulMonotonic(base, v + 1, p);
  }

  lemma {:induction false} ValueConcat(base: nat, s: seq<nat>, t: seq<nat>)
    ensures Value(base, s + t) == Value(base, s) * Pow(base, |t|) + Value(base, t)
  {
    if t == [] {
      assert s + t == s;
    } else {
      var t', d := t[..|t| - 1], t[|t| - 1];
      ValueConcat(base, s, t');
      assert s + t == (s + t') + [d];
      ValueAppend(base, s + t', d);
      HornerStep(Value(base, s), Pow(base, |t'|), Value(base, t'), base);
    }
  }

  lemma ValueEmpty(base: nat, s: seq<nat>)
    requires s == []
    ensures Value(base, s) == 0
  {
  }

  lemma ValueAppend(base: nat, s: seq<nat>, d: nat)
    ensures Value(base, s + [d]) == Value(base, s) * base + d
  {
    assert (s + [d])[..|s|] == s;
  }

  /** A first non-zero digit bounds the value from below. */
  lemma {:induction false} ValueAtLeast(base: nat, s: seq<nat>)
    requires base >= 2 && s != [] && s[0] != 0
    ensures Value(base, s) >= Pow(base, |s| - 1)
  {
    if |s| > 1 {
      var t := s[..|s| - 1];
      ValueAtLeast(base, t);
      MulMonotonic(base, Pow(base, |t| - 1), Value(base, t));
    }
  }

  lemma Split(base: nat, n: nat, p: nat) returns (q: nat, r: nat)
    requires base >= 2 && n < base * p
    ensures q == n / base && r == n % base && n == q * base + r && q < p
  {
    DivLess(n, base, p);
    q, r := n / base, n % base;
  }

  lemma {:induction false} ValueOfDigits(base: nat, n: nat, k: nat)
    requires base >= 2 && n < Pow(base, k)
    ensures Value(base, Digits(base, n, k)) == n
    decreases k
  {
    if k > 0 {
      var q, r := Split(base, n, Pow(base, k - 1));
      ValueOfDigits(base, q, k - 1);
      ValueAppend(base, Digits(base, q, k - 1), r);
    }
  }

  lemma {:induction false} DigitsOfValue(base: nat, s: seq<nat>)
    requires base >= 2 && IsNumeral(base, s)
    ensures Digits(base, Value(base, s), |s|) == s
  {
    if s != [] {
      var t := s[..|s| - 1];
      DigitsOfValue(base, t);
      DivModUnique(Value(base, s), base, Value(base, t), s[|s| - 1]);
      assert s == t + [s[|s| - 1]];
    }
  }

  lemma MinimalStep(base: nat, n: nat) returns (q: nat, r: nat)
    requires base >= 2 && n > 0
    ensures q < n && n == q * base + r
    ensures Minimal(base, n) == Minimal(base, q) + [r]
  {
    DivLess(n, base, n);
    q, r := n / base, n % base;
  }

  lemma {:induction false} ValueOfMinimal(base: nat, n: nat)
    requires base >= 2
    ensures Value(base, Minimal(base, n)) == n
    decreases n
  {
    if n != 0 {
      var q, r := MinimalStep(base, n);
      ValueOfMinimal(base, q);
      ValueAppend(base, Minimal(base, q), r);
    }
  }

  lemma {:induction false} MinimalOfValue(base: nat, s: seq<nat>)
    requires base >= 2 && IsNumeral(base, s)
    requires s != [] ==> s[0] != 0
    ensures Minimal(base, Value(base, s)) == s
  {
    if s != [] {
      var t := s[..|s| - 1];
      MinimalOfValue(base, t);
      DivModUnique(Value(base, s), base, Value(base, t), s[|s| - 1]);
      ValueAtLeast(base, s);
      PowPositive(base, |s| - 1);
      assert s == t + [s[|s| - 1]];
    }
  }

  lemma {:induction false} MinimalLength(base: nat, n: nat, k: nat)
    requires base >= 2 && n < Pow(base, k)
    ensures |Minimal(base, n)| <= k
  {
    var s := Minimal(base, n);
    ValueOfMinimal(base, n);
    if |s| > k {
      ValueAtLeast(base, s);
      PowMonotonic(base, k, |s| - 1);
    }
  }

  /** `n` has at most `k` digits exactly when it is below base^k. */
  lemma FitsExact(base: nat, n: nat, k: nat)
    requires base >= 2
    ensures |Minimal(base, n)| <= k <==> n < Pow(base, k)
  {
    hide Minimal, Pow, Value;
    if n < Pow(base, k) {
      MinimalLength(base, n, k);
    } else {
      var ds := Minimal(base, n);
      ValueOfMinimal(base, n);
      ValueBound(base, ds);
      if |ds| <= k {
        PowMonotonic(base, |ds|, k);
      }
    }
  }

  /** Leading zero digits do not change a value. */
  lemma {:induction false} ValueZeros(base: nat, z: nat)
    ensures Value(base, ZeroDigits(z)) == 0
  {
    if z > 0 {
      ValueZeros(base, z - 1);
      assert ZeroDigits(z)[..z - 1] == ZeroDigits(z - 1);
    }
  }

  // ---------- byte strings ----------

  function Reverse<T>(s: seq<T>): (r: seq<T>)
    ensures |r| == |s|
    ensures forall i :: 0 <= i < |s| ==> r[i] == s[|s| - 1 - i]
  {
    seq(|s|, i requires 0 <= i < |s| => s[|s| - 1 - i])
  }

  lemma ReverseInvolution<T>(s: seq<T>)
    ensures Reverse(Reverse(s)) == s
  {
  }

  function BigEndian(s: seq<Byte>): nat {
    Value(256, s)
  }

  function LittleEndian(s: seq<Byte>): nat {
    Value(256, Reverse(s))
  }

  /** `n` in `k` bytes, most significant byte first. */
  function ToBigEndian(n: nat, k: nat): (s: seq<Byte>)
    requires n < Pow(256, k)
    ensures |s| == k && BigEndian(s) == n
  {
    ValueOfDigits(256, n, k);
    Digits(256, n, k)
  }

  function ToLittleEndian(n: nat, k: nat): (s: seq<Byte>)
    requires n < Pow(256, k)
    ensures |s| == k && LittleEndian(s) == n
  {
    ReverseInvolution(ToBigEndian(n, k));
    Reverse(ToBigEndian(n, k))
  }

  lemma PowersOf256()
    ensures Pow(256, 4) == 0x1_0000_0000
    ensures Pow(256, 8) == 0x1_0000_0000_0000_0000
    ensures Pow(256, 32) == 0x1_0000_0000_0000_0000_0000_0000_0000_0000_0000_0000_0000_0000_0000_0000_0000_0000
  {
    assert Pow(256, 4) == 0x1_0000_0000;
    PowAdd(256, 4, 4);
    PowAdd(256, 8, 8);
    PowAdd(256, 16, 16);
  }

  lemma BigEndianBound(s: seq<Byte>)
    ensures BigEndian(s) < Pow(256, |s|)
  {
    ValueBound(256, s);
  }

  lemma BigEndianInjective(s: seq<Byte>, t: seq<Byte>)
    requires |s| == |t| && BigEndian(s) == BigEndian(t)
    ensures s == t
  {
    DigitsOfValue(256, s);
    DigitsOfValue(256, t);
  }

  lemma LittleEndianInjective(s: seq<Byte>, t: seq<Byte>)
    requires |s| == |t| && LittleEndian(s) == LittleEndian(t)
    ensures s == t
  {
    BigEndianInjective(Reverse(s), Reverse(t));
    ReverseInvolution(s);
    ReverseInvolution(t);
  }
}
