/**
  Variable-length integers (src/crypto.c:88-128): seven bits a byte, least significant group
  first, the top bit of a byte saying that another one follows.
 */
module Varint {
  import opened Arithmetic
  import opened Numerals
  import opened Wrappers

  // ---------- the format ----------

  function Encode(v: nat): (s: seq<Byte>)
    ensures s != []
    decreases v
  {
    if v < 128 then [v] else [v % 128 + 128] + Encode(v / 128)
  }

  /** The number carried by the low seven bits of each byte. */
  function Groups(s: seq<Byte>): nat {
    if s == [] then 0 else s[0] % 128 + 128 * Groups(s[1..])
  }

  /** Exactly the last byte has a clear top bit. */
  ghost predicate Terminated(s: seq<Byte>) {
    s != [] && s[|s| - 1] < 128 && forall i :: 0 <= i < |s| - 1 ==> s[i] >= 128
  }

  lemma {:induction false} EncodeTerminated(v: nat)
    ensures Terminated(Encode(v)) && Groups(Encode(v)) == v
    decreases v
  {
    if v >= 128 {
      var rest := Encode(v / 128);
      EncodeTerminated(v / 128);
      assert Encode(v)[1..] == rest;
      assert (v % 128 + 128) % 128 == v % 128;
    } else {
      assert [v as Byte][1..] == [];
    }
  }

  /** The encoding of `v` is at most `k` bytes long exactly when `v` has at most `7 * k` bits. */
  lemma {:induction false} EncodeLength(v: nat, k: nat)
    requires k > 0
    ensures |Encode(v)| <= k <==> v < Pow(128, k)
    decreases k
  {
    if k == 1 {
      assert Pow(128, 1) == 128;
    } else {
      EncodeLength(v / 128, k - 1);
      assert v < 128 * Pow(128, k - 1) <==> v / 128 < Pow(128, k - 1);
      PowPositive(128, k - 1);
    }
  }

  /** Encodings carry no empty leading group: no shorter terminated string has the same value. */
  lemma {:induction false} EncodeMinimal(v: nat, s: seq<Byte>)
    requires Terminated(s) && Groups(s) == v
    ensures |Encode(v)| <= |s|
    ensures |s| == |Encode(v)| ==> s == Encode(v)
    decreases |s|
  {
    hide Encode, Groups;
    var t := s[1..];
    FirstGroup(s);
    EncodeCases(v);
    assert s == [s[0]] + t;
    if |s| == 1 {
      GroupsEmpty(t);
    } else {
      assert Terminated(t);
      EncodeMinimal(v / 128, t);
    }
  }

  lemma EncodeCases(v: nat)
    ensures Encode(v) == if v < 128 then [v] else [v % 128 + 128] + Encode(v / 128)
  {
  }

  lemma FirstGroup(s: seq<Byte>)
    requires s != []
    ensures Groups(s) / 128 == Groups(s[1..]) && Groups(s) % 128 == s[0] % 128
  {
    DivModUnique(Groups(s), 128, Groups(s[1..]), s[0] % 128);
  }

  /** The format by itself: a terminated string of this value that no other undercuts. */
  ghost predicate Shortest(v: seq<Byte>, n: nat) {
    Terminated(v) && Groups(v) == n && forall w :: Terminated(w) && Groups(w) == n ==> |v| <= |w|
  }

  lemma ShortestIsEncode(v: seq<Byte>, n: nat)
    ensures Shortest(v, n) <==> v == Encode(n)
  {
    hide Encode, Groups, Terminated;
    EncodeTerminated(n);
    forall w | Terminated(w) && Groups(w) == n
      ensures |Encode(n)| <= |w| && (|w| == |Encode(n)| ==> w == Encode(n))
    {
      EncodeMinimal(n, w);
    }
  }

  /** A terminated string is determined by any longer string that starts with it. */
  lemma TerminatedSplit(s: seq<Byte>, x: seq<Byte>, t: seq<Byte>, y: seq<Byte>)
    requires Terminated(s) && Terminated(t) && s + x == t + y
    ensures s == t && x == y
  {
    var z := s + x;
    assert forall i :: 0 <= i < |s| ==> z[i] == s[i];
    assert forall i :: 0 <= i < |t| ==> z[i] == t[i];
    assert z[|s| - 1] < 128 && z[|t| - 1] < 128;
    assert s == z[..|s|] && t == z[..|t|];
    assert x == z[|s|..] && y == z[|t|..];
  }

  /** Encodings are prefix-free, hence injective also when something follows. */
  lemma EncodeInjective(v: nat, w: nat, x: seq<Byte>, y: seq<Byte>)
    requires Encode(v) + x == Encode(w) + y
    ensures v == w && x == y
  {
    EncodeTerminated(v);
    EncodeTerminated(w);
    TerminatedSplit(Encode(v), x, Encode(w), y);
  }

  // ---------- incognito_encode_varint ----------

  /** None where the code throws; the bytes outside the encoding are untouched. */
  method EncodeVarint(varint: array<Byte>, off: nat, maxLen: nat, value: nat) returns (r: Option<nat>)
    requires 0 < maxLen && off + maxLen <= varint.Length && value < TWO_64
    modifies varint
    ensures r.None? <==> value >= Pow(128, maxLen)
    ensures r.Some? ==> r.value == |Encode(value)| <= maxLen
    ensures r.Some? ==> varint[..] == old(varint[..])[..off] + Encode(value) + old(varint[..])[off + |Encode(value)|..]
    ensures varint[..off] == old(varint[..])[..off] && varint[off + maxLen..] == old(varint[..])[off + maxLen..]
  {
    hide Pow, Encode, Wrote;
    ghost var before: seq<Byte>, done: seq<Byte> := varint[..], [];
    var len, v := 0, value;
    EncodeLength(value, maxLen);
    WroteNothing(before, off);
    while v >= 0x80
      invariant 0 <= len == |done| < maxLen
      invariant Wrote(varint[..], before, off, done) && done + Encode(v) == Encode(value)
    {
      EncodeStep(done, v);
      if len == maxLen - 1 {
        WroteWithin(varint[..], before, off, done, maxLen);
        return None;
      }
      ghost var previous := varint[..];
      varint[off + len] := v % 128 + 128;
      WriteStep(before, previous, varint[..], off, done, v % 128 + 128);
      done := done + [v % 128 + 128];
      v := v / 128;
      len := len + 1;
    }
    ghost var previous := varint[..];
    varint[off + len] := v;
    WriteStep(before, previous, varint[..], off, done, v);
    EncodeLast(v);
    WroteWithin(varint[..], before, off, done + [v], maxLen);
    r := Some(len + 1);
  }

  lemma EncodeStep(done: seq<Byte>, v: nat)
    requires v >= 128
    ensures done + Encode(v) == (done + [v % 128 + 128]) + Encode(v / 128) && |Encode(v)| >= 2
  {
  }

  lemma EncodeLast(v: nat)
    requires v < 128
    ensures Encode(v) == [v]
  {
  }

  lemma WriteStep(before: seq<Byte>, previous: seq<Byte>, after: seq<Byte>, off: nat, done: seq<Byte>, b: Byte)
    requires off + |done| < |before| && Wrote(previous, before, off, done)
    requires |after| == |previous| && after == previous[off + |done| := b]
    ensures Wrote(after, before, off, done + [b])
  {
  }

  /** `now` is `before` with `done` written from `off` on. */
  ghost predicate Wrote(now: seq<Byte>, before: seq<Byte>, off: nat, done: seq<Byte>) {
    off + |done| <= |before| && now == before[..off] + done + before[off + |done|..]
  }

  lemma WroteNothing(before: seq<Byte>, off: nat)
    requires off <= |before|
    ensures Wrote(before, before, off, [])
  {
  }

  lemma WroteWithin(now: seq<Byte>, before: seq<Byte>, off: nat, done: seq<Byte>, maxLen: nat)
    requires Wrote(now, before, off, done) && |done| <= maxLen && off + maxLen <= |before|
    ensures now[..off] == before[..off] && now[off + maxLen..] == before[off + maxLen..]
    ensures now == before[..off] + done + before[off + |done|..]
  {
  }

  // ---------- incognito_decode_varint ----------

  /**
    The value and the length read from the front of `s`, or None where the code throws: no byte
    among the first `maxLen` ends the number. The value is kept in 64 bits.
   */
  ghost predicate Decodes(s: seq<Byte>, maxLen: nat, r: Option<(nat, nat)>) {
    match r
    case None => |s| >= maxLen && forall i :: 0 <= i < maxLen ==> s[i] >= 128
    case Some((v, n)) => 1 <= n <= maxLen && n <= |s| && Terminated(s[..n]) && v == Groups(s[..n]) % TWO_64
  }

  lemma GroupsEmpty(s: seq<Byte>)
    requires s == []
    ensures Groups(s) == 0
  {
  }

  lemma {:induction false} GroupsAppend(s: seq<Byte>, b: Byte)
    ensures Groups(s + [b]) == Groups(s) + (b % 128) * Pow(128, |s|)
  {
    if s == [] {
      assert [b][1..] == [];
      assert ([] + [b])[1..] == [];
    } else {
      GroupsAppend(s[1..], b);
      assert (s + [b])[1..] == s[1..] + [b];
      AppendStep(s[0] % 128, Groups(s[1..]), b % 128, Pow(128, |s| - 1));
    }
  }

  lemma AppendStep(d: int, g: int, b: int, p: int)
    ensures d + 128 * (g + b * p) == (d + 128 * g) + b * (128 * p)
  {
  }

  /** Adding a shifted group, in 64-bit arithmetic. */
  function AddGroup(v: nat, b: Byte, len: nat): nat {
    PowPositive(128, len);
    MulMonotonic(b % 128, 0, Pow(128, len));
    (v + ((b % 128) * Pow(128, len)) % TWO_64) % TWO_64
  }

  lemma AddGroupValue(s: seq<Byte>, b: Byte)
    ensures AddGroup(Groups(s) % TWO_64, b, |s|) == Groups(s + [b]) % TWO_64
  {
    hide Pow, Groups;
    GroupsAppend(s, b);
    ModOfSum(Groups(s), (b % 128) * Pow(128, |s|), TWO_64);
  }

  lemma ModOfSum(a: int, b: int, m: int)
    requires m > 0
    ensures (a % m + b % m) % m == (a + b) % m
  {
    assert a + b == (a % m + b % m) + m * (a / m + b / m);
    ModAddMultiple(a % m + b % m, m, a / m + b / m);
  }

  /**
    Shift counts must stay below 64, so the source is meaningful only when at most ten bytes are
    read: by the limit, or because one of the first ten ends the number.
   */
  method DecodeVarint(varint: array<Byte>, off: nat, maxLen: nat) returns (r: Option<(nat, nat)>)
    requires 0 < maxLen && off <= varint.Length
    requires off + maxLen <= varint.Length || exists i :: off <= i < varint.Length && varint[i] < 128
    requires maxLen <= 10 || exists i :: off <= i < off + 10 && i < varint.Length && varint[i] < 128
    ensures Decodes(varint[off..], maxLen, r)
  {
    hide Pow, Groups, AddGroup;
    var v, len := 0, 0;
    GroupsEmpty(varint[off..off]);
    while varint[off + len] >= 128
      invariant 0 <= len < maxLen && off + len < varint.Length && len < 10
      invariant forall i :: off <= i < off + len ==> varint[i] >= 128
      invariant v == Groups(varint[off..off + len]) % TWO_64
      decreases maxLen - len
    {
      if len == maxLen - 1 {
        return None;
      }
      AddGroupValue(varint[off..off + len], varint[off + len]);
      assert varint[off..off + len] + [varint[off + len]] == varint[off..off + len + 1];
      v := AddGroup(v, varint[off + len], len);
      len := len + 1;
    }
    AddGroupValue(varint[off..off + len], varint[off + len]);
    assert varint[off..off + len] + [varint[off + len]] == varint[off..off + len + 1];
    v := AddGroup(v, varint[off + len], len);
    assert varint[off..][..len + 1] == varint[off..off + len + 1];
    r := Some((v, len + 1));
  }

  /** Decoding is a function of the bytes, and it undoes encoding whatever follows. */
  lemma RoundTrip(v: nat, rest: seq<Byte>, maxLen: nat, r: Option<(nat, nat)>)
    requires v < TWO_64 && 0 < maxLen && Decodes(Encode(v) + rest, maxLen, r)
    ensures v < Pow(128, maxLen) ==> r == Some((v, |Encode(v)|))
    ensures v >= Pow(128, maxLen) ==> r.None?
  {
    hide Encode, Pow, Groups;
    var s := Encode(v);
    EncodeTerminated(v);
    EncodeLength(v, maxLen);
    assert (s + rest)[|s| - 1] == s[|s| - 1];
    if r.Some? {
      var n := r.value.1;
      assert (s + rest)[..n] + (s + rest)[n..] == s + rest;
      TerminatedSplit(s, rest, (s + rest)[..n], (s + rest)[n..]);
    }
  }
}
