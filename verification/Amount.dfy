/**
  Printing amounts (src/crypto.c:914-1031): unsigned 64-bit numbers in decimal, and amounts with
  twelve decimal places.
 */
module Amount {
  import opened Arithmetic
  import opened Numerals
  import opened Wrappers
  import Buffers
  import Varint

  const DECIMALS := 12
  const UNIT: nat := 1_000_000_000_000
  const NUL: char := 0 as char

  // ---------- decimal digits as text ----------

  function Char(d: nat): char
    requires d < 10
  {
    '0' + d as char
  }

  function Chars(ds: seq<nat>): (s: string)
    requires IsNumeral(10, ds)
    ensures |s| == |ds| && forall i :: 0 <= i < |ds| ==> s[i] == Char(ds[i])
  {
    seq(|ds|, i requires 0 <= i < |ds| => Char(ds[i]))
  }

  predicate IsDecimal(s: string) {
    forall i :: 0 <= i < |s| ==> '0' <= s[i] <= '9'
  }

  function Read(s: string): (ds: seq<nat>)
    requires IsDecimal(s)
    ensures |ds| == |s| && IsNumeral(10, ds)
  {
    seq(|s|, i requires 0 <= i < |s| => s[i] as int - '0' as int)
  }

  lemma ReadOfChars(ds: seq<nat>)
    requires IsNumeral(10, ds)
    ensures IsDecimal(Chars(ds)) && Read(Chars(ds)) == ds
  {
  }

  lemma CharsOfRead(s: string)
    requires IsDecimal(s)
    ensures Chars(Read(s)) == s
  {
  }

  function Nuls(n: nat): (s: string)
    ensures |s| == n && forall i :: 0 <= i < n ==> s[i] == NUL
  {
    seq(n, _ => NUL)
  }

  lemma PowersOfTen()
    ensures Pow(10, 8) == 100_000_000 && Pow(10, 12) == UNIT && Pow(10, 20) == Pow(10, 8) * UNIT
    ensures TWO_64 < Pow(10, 20)
  {
    assert Pow(10, 4) == 10_000;
    PowAdd(10, 4, 4);
    PowAdd(10, 4, 8);
    PowAdd(10, 8, 12);
  }

  // ---------- the meaning of an amount text ----------

  function Dot(s: string): (i: nat)
    ensures i <= |s| && (i < |s| ==> s[i] == '.') && forall k :: 0 <= k < i ==> s[k] != '.'
  {
    if s == [] || s[0] == '.' then 0 else 1 + Dot(s[1..])
  }

  /** Whole units before the dot, at most twelve decimals after it; None for any other text. */
  function Parse(s: string): Option<nat> {
    var i := Dot(s);
    if i < |s| && IsDecimal(s[..i]) && IsDecimal(s[i + 1..]) && 0 < i && |s| - i - 1 <= DECIMALS then
      Some(Units(Read(s[..i]), Read(s[i + 1..])))
    else None
  }

  function Units(whole: seq<nat>, fraction: seq<nat>): nat
    requires |fraction| <= DECIMALS
  {
    Value(10, whole) * UNIT + Value(10, fraction + ZeroDigits(DECIMALS - |fraction|))
  }

  /** No superfluous zero on either side; the dot is always there. */
  ghost predicate Canonical(s: string) {
    var i := Dot(s);
    i < |s| && (s[0] == '0' ==> i == 1) && s[|s| - 1] != '0'
  }

  // ---------- the text of an amount ----------

  function DropZeros(ds: seq<nat>): (r: seq<nat>)
    ensures |r| <= |ds| && ds == r + ZeroDigits(|ds| - |r|) && (r != [] ==> r[|r| - 1] != 0)
  {
    if ds == [] || ds[|ds| - 1] != 0 then ds else DropZeros(ds[..|ds| - 1])
  }

  function Whole(amount: nat): (ds: seq<nat>)
    ensures ds != [] && IsNumeral(10, ds)
  {
    var m := Minimal(10, amount / UNIT);
    if m == [] then [0] else m
  }

  function Fraction(amount: nat): (ds: seq<nat>)
    ensures |ds| <= DECIMALS && IsNumeral(10, ds)
  {
    var all := Digits(10, amount % UNIT, DECIMALS);
    var r := DropZeros(all);
    assert r == all[..|r|];
    r
  }

  function Text(amount: nat): string {
    Chars(Whole(amount)) + "." + Chars(Fraction(amount))
  }

  lemma WholeValue(amount: nat)
    ensures Value(10, Whole(amount)) == amount / UNIT
  {
    ValueOfMinimal(10, amount / UNIT);
    if Minimal(10, amount / UNIT) == [] {
      ValueZeros(10, 1);
      assert Whole(amount) == ZeroDigits(1);
    }
  }

  lemma DotOf(whole: string, fraction: string)
    requires IsDecimal(whole) && IsDecimal(fraction)
    ensures var s := whole + "." + fraction;
            Dot(s) == |whole| && s[..|whole|] == whole && s[|whole| + 1..] == fraction
  {
    var s := whole + "." + fraction;
    assert s[|whole|] == '.';
    assert forall k :: 0 <= k < |whole| ==> s[k] == whole[k] != '.';
  }

  /** The text reads back as the amount, and carries no superfluous zero. */
  lemma ParseOfText(amount: nat)
    ensures Parse(Text(amount)) == Some(amount) && Canonical(Text(amount))
  {
    hide Value, Minimal, Digits, Dot;
    var whole, fraction := Whole(amount), Fraction(amount);
    ReadOfChars(whole);
    ReadOfChars(fraction);
    DotOf(Chars(whole), Chars(fraction));
    WholeValue(amount);
    PowersOfTen();
    ValueOfDigits(10, amount % UNIT, DECIMALS);
  }

  /** Digit for digit: whole units of 10^12 before the dot, the rest after it, filled up with zeros. */
  lemma TextIs(amount: nat) returns (i: nat)
    ensures var t := Text(amount);
            0 < i < |t| <= i + 13 && t[i] == '.' && IsDecimal(t[..i]) && IsDecimal(t[i + 1..])
            && Value(10, Read(t[..i])) == amount / 1_000_000_000_000
            && Value(10, Read(t[i + 1..]) + ZeroDigits(12 - (|t| - i - 1))) == amount % 1_000_000_000_000
  {
    hide Value, Minimal, Digits, Dot;
    var whole, fraction := Whole(amount), Fraction(amount);
    i := |whole|;
    ReadOfChars(whole);
    ReadOfChars(fraction);
    DotOf(Chars(whole), Chars(fraction));
    WholeValue(amount);
    PowersOfTen();
    ValueOfDigits(10, amount % UNIT, DECIMALS);
  }

  /** Every canonical text of an amount is the one printed. */
  lemma TextIsUnique(s: string)
    requires Parse(s).Some? && Canonical(s)
    ensures s == Text(Parse(s).value)
  {
    hide Value, Dot, Whole, Fraction;
    var i := Dot(s);
    var whole, fraction := Read(s[..i]), Read(s[i + 1..]);
    assert whole[0] == 0 ==> s[0] == '0';
    assert fraction != [] ==> fraction[|fraction| - 1] == s[|s| - 1] as int - '0' as int;
    DigitsAreUnique(whole, fraction);
    CharsOfRead(s[..i]);
    CharsOfRead(s[i + 1..]);
    assert s == s[..i] + "." + s[i + 1..];
  }

  lemma DigitsAreUnique(whole: seq<nat>, fraction: seq<nat>)
    requires IsNumeral(10, whole) && IsNumeral(10, fraction) && |fraction| <= DECIMALS
    requires whole != [] && (whole[0] == 0 ==> |whole| == 1) && (fraction != [] ==> fraction[|fraction| - 1] != 0)
    ensures var amount := Units(whole, fraction); Whole(amount) == whole && Fraction(amount) == fraction
  {
    hide Value, Minimal, Digits;
    var amount, padded := Units(whole, fraction), fraction + ZeroDigits(DECIMALS - |fraction|);
    PowersOfTen();
    ValueBound(10, padded);
    SplitUnits(amount, Value(10, whole), Value(10, padded));
    DigitsOfValue(10, padded);
    DropZerosOfPadded(fraction, DECIMALS - |fraction|);
    if whole[0] == 0 {
      assert whole == ZeroDigits(1);
      ValueZeros(10, 1);
      MinimalOfZero(amount / UNIT);
    } else {
      MinimalOfValue(10, whole);
    }
  }

  lemma MinimalOfZero(n: nat)
    requires n == 0
    ensures Minimal(10, n) == []
  {
  }

  lemma SplitUnits(amount: nat, q: nat, r: nat)
    requires amount == q * UNIT + r && r < UNIT
    ensures amount / UNIT == q && amount % UNIT == r
  {
  }

  lemma {:induction false} DropZerosOfPadded(ds: seq<nat>, z: nat)
    requires ds != [] ==> ds[|ds| - 1] != 0
    ensures DropZeros(ds + ZeroDigits(z)) == ds
  {
    var all := ds + ZeroDigits(z);
    if z == 0 {
      assert all == ds;
    } else {
      assert all[..|all| - 1] == ds + ZeroDigits(z - 1);
      DropZerosOfPadded(ds, z - 1);
    }
  }

  /** Twenty digits and a dot suffice for every 64-bit amount. */
  lemma TextLength(amount: nat)
    requires amount < TWO_64
    ensures |Text(amount)| <= 21
  {
    PowersOfTen();
    MinimalLength(10, amount / UNIT, 8);
  }

  // ---------- incognito_uint642str ----------

  /** Writes the digits of `val` downwards from `offset0 + 1`; the rest of the buffer is untouched. */
  method WriteDigits(buffer: array<char>, end: nat, val: nat) returns (offset: nat)
    requires end <= buffer.Length && val < Pow(10, end)
    modifies buffer
    ensures offset == end - |Minimal(10, val)|
    ensures buffer[..] == old(buffer[..offset]) + Chars(Minimal(10, val)) + old(buffer[end..])
  {
    hide Pow, Minimal, Chars, Char;
    var v: nat := val;
    ghost var ds: seq<nat> := [];
    offset := end;
    MinimalLength(10, val, end);
    assert Minimal(10, val) == Minimal(10, v) + ds;
    while v > 0
      invariant offset + |ds| == end && IsNumeral(10, ds) && Minimal(10, val) == Minimal(10, v) + ds
      invariant buffer[..] == old(buffer[..offset]) + Chars(ds) + old(buffer[end..])
      decreases v
    {
      ghost var q, r := v / 10, v % 10;
      LastDigit(v);
      OneMoreChar(old(buffer[..offset]), r, ds, old(buffer[end..]));
      offset := offset - 1;
      buffer[offset] := Char(v % 10);
      assert old(buffer[..offset + 1])[..offset] == old(buffer[..offset]);
      assert (Minimal(10, q) + [r]) + ds == Minimal(10, q) + ([r] + ds);
      ds := [r] + ds;
      v := v / 10;
    }
    MinimalOfZero(v);
    assert [] + ds == ds;
  }

  lemma LastDigit(v: nat)
    requires v > 0
    ensures Minimal(10, v) == Minimal(10, v / 10) + [v % 10]
  {
  }

  lemma OneMoreChar(head: string, d: nat, ds: seq<nat>, tail: string)
    requires head != [] && d < 10 && IsNumeral(10, ds)
    ensures var n := |head| - 1;
            (head + Chars(ds) + tail)[n := Char(d)] == head[..n] + Chars([d] + ds) + tail
  {
  }

  /** False where the code throws: the text does not fit. Zero prints as the empty text. */
  method Uint64ToStr(val: nat, str: array<char>) returns (ok: bool)
    requires val < TWO_64
    modifies str
    ensures var digits := Minimal(10, val);
            ok == (|digits| <= str.Length)
            && str[..] == if ok then Chars(digits) + Nuls(str.Length - |digits|) else Nuls(str.Length)
    ensures ok <==> val < Pow(10, str.Length)
    ensures ok ==> (NUL in str[..] <==> |Minimal(10, val)| < str.Length)
  {
    hide Pow, Minimal;
    var stramount := new char[22];
    forall i | 0 <= i < str.Length {
      str[i] := NUL;
    }
    PowersOfTen();
    PowMonotonic(10, 20, 22);
    var offset := WriteDigits(stramount, 22, val);
    var len := 22 - offset;
    FitsExact(10, val, str.Length);
    TerminatedWhenShorter(Minimal(10, val), str.Length);
    if len > str.Length {
      return false;
    }
    assert stramount[offset..] == Chars(Minimal(10, val));
    Buffers.Write(str, 0, stramount[offset..]);
    ok := true;
  }

  lemma TerminatedWhenShorter(ds: seq<nat>, size: nat)
    requires IsNumeral(10, ds)
    ensures |ds| <= size ==> (NUL in Chars(ds) + Nuls(size - |ds|) <==> |ds| < size)
  {
    NoNul(ds);
    if |ds| < size {
      assert (Chars(ds) + Nuls(size - |ds|))[|ds|] == NUL;
    }
  }

  /**
    What is printed reads back as the number, has no leading zero, takes at most twenty characters,
    and is empty exactly for zero.
   */
  lemma Uint64Text(val: nat)
    requires val < TWO_64
    ensures var text := Chars(Minimal(10, val));
            |text| <= 20 && IsDecimal(text) && Value(10, Read(text)) == val && (text != [] ==> text[0] != '0')
            && (text == [] <==> val == 0)
  {
    hide Minimal, Value, Pow;
    var ds := Minimal(10, val);
    PowersOfTen();
    MinimalLength(10, val, 20);
    ReadOfChars(ds);
    ValueOfMinimal(10, val);
    assert ds != [] ==> Chars(ds)[0] == Char(ds[0]);
    ValueEmpty(10, []);
    assert val == 0 ==> ds == [] by {
      MinimalOfZero(0);
    }
  }

  // ---------- incognito_amount2str ----------

  /** The digits before and after the dot of the twenty-digit form. */
  lemma TwentyDigits(amount: nat)
    requires amount < TWO_64
    ensures Digits(10, amount, 20) == Digits(10, amount / UNIT, 8) + Digits(10, amount % UNIT, DECIMALS)
    ensures var whole, m := Digits(10, amount / UNIT, 8), Minimal(10, amount / UNIT);
            |m| <= 8 && whole == ZeroDigits(8 - |m|) + m
    ensures var m := Minimal(10, amount); |m| <= 20 && Digits(10, amount, 20) == ZeroDigits(20 - |m|) + m
  {
    hide Value, Pow, Digits, Minimal;
    PowersOfTen();
    var q, r := amount / UNIT, amount % UNIT;
    var high, low := Digits(10, q, 8), Digits(10, r, DECIMALS);
    ValueOfDigits(10, q, 8);
    ValueOfDigits(10, r, DECIMALS);
    ValueConcat(10, high, low);
    DigitsOfValue(10, high + low);
    PaddedMinimal(q, 8);
    PaddedMinimal(amount, 20);
  }

  lemma PaddedMinimal(n: nat, k: nat)
    requires n < Pow(10, k)
    ensures var m := Minimal(10, n); |m| <= k && Digits(10, n, k) == ZeroDigits(k - |m|) + m
  {
    hide Value, Pow, Digits, Minimal;
    var m := Minimal(10, n);
    MinimalLength(10, n, k);
    ValueOfMinimal(10, n);
    ValueZeros(10, k - |m|);
    ValueConcat(10, ZeroDigits(k - |m|), m);
    DigitsOfValue(10, ZeroDigits(k - |m|) + m);
  }

  /** First position at or after 0 that holds no '0'. */
  method SkipZeros(s: array<char>) returns (offset: nat)
    requires s.Length == 22 && s[8] == '.'
    ensures offset <= 8 && s[offset] != '0' && forall i :: 0 <= i < offset ==> s[i] == '0'
  {
    offset := 0;
    while s[offset] == '0' && s[offset] != '.'
      invariant offset <= 8 && forall i :: 0 <= i < offset ==> s[i] == '0'
      decreases 8 - offset
    {
      offset := offset + 1;
    }
  }

  /** Last position at or before 20 that holds no '0'. */
  method SkipZerosBack(s: array<char>) returns (len: nat)
    requires s.Length == 22 && s[8] == '.'
    ensures 8 <= len <= 20 && s[len] != '0' && forall i :: len < i <= 20 ==> s[i] == '0'
  {
    len := 20;
    while s[len] == '0' && s[len] != '.'
      invariant 8 <= len <= 20 && forall i :: len < i <= 20 ==> s[i] == '0'
      decreases len
    {
      len := len - 1;
    }
  }

  /** Between the leading and the trailing zeros stands the text. */
  lemma TextBetween(amount: nat, s: string, first: nat, last: nat)
    requires |s| == 22
    requires s[..21] == Chars(Digits(10, amount / UNIT, 8)) + "." + Chars(Digits(10, amount % UNIT, DECIMALS))
    requires amount < TWO_64
    requires first <= 8 <= last <= 20 && s[first] != '0' && forall i :: 0 <= i < first ==> s[i] == '0'
    requires s[last] != '0' && forall i :: last < i <= 20 ==> s[i] == '0'
    ensures var start := if s[first] == '.' then first - 1 else first;
            0 <= start && s[start..last + 1] == Text(amount)
  {
    hide Value, Pow, Digits, Minimal, Whole, Fraction, Chars, Char;
    TwentyDigits(amount);
    var whole, m := Digits(10, amount / UNIT, 8), Minimal(10, amount / UNIT);
    var all, fraction := Digits(10, amount % UNIT, DECIMALS), Fraction(amount);
    FractionPadded(amount);
    Layout(s, whole, all);
    FirstNonZero(whole, m, s, first);
    LastNonZero(all, fraction, s, last);
    var start := if s[first] == '.' then first - 1 else first;
    WholePart(amount, s, start);
    FractionPart(all, fraction, s, last);
    ThreeParts(s, start, last);
  }

  lemma FractionPadded(amount: nat)
    ensures var all, r := Digits(10, amount % UNIT, DECIMALS), Fraction(amount);
            all == r + ZeroDigits(DECIMALS - |r|) && (r != [] ==> r[|r| - 1] != 0)
  {
  }

  lemma Layout(s: string, whole: seq<nat>, all: seq<nat>)
    requires |whole| == 8 && |all| == DECIMALS && IsNumeral(10, whole) && IsNumeral(10, all)
    requires |s| == 22 && s[..21] == Chars(whole) + "." + Chars(all)
    ensures s[8] == '.' && (forall i :: 0 <= i < 8 ==> s[i] == Char(whole[i]))
    ensures forall i :: 0 <= i < DECIMALS ==> s[9 + i] == Char(all[i])
  {
    var t := s[..21];
    assert s[8] == t[8];
    assert forall i :: 0 <= i < 8 ==> s[i] == t[i] == Char(whole[i]);
    assert forall i :: 0 <= i < DECIMALS ==> s[9 + i] == t[9 + i] == Char(all[i]);
  }

  lemma ThreeParts(s: string, start: nat, last: nat)
    requires start <= 8 <= last < |s| && s[8] == '.'
    ensures s[start..last + 1] == s[start..8] + "." + s[9..last + 1]
  {
  }

  lemma WholePart(amount: nat, s: string, start: nat)
    requires var whole, m := Digits(10, amount / UNIT, 8), Minimal(10, amount / UNIT);
             |m| <= 8 && whole == ZeroDigits(8 - |m|) + m && start == (if |m| == 0 then 7 else 8 - |m|)
             && |s| == 22 && forall i :: 0 <= i < 8 ==> s[i] == Char(whole[i])
    ensures s[start..8] == Chars(Whole(amount))
  {
    hide Digits, Minimal;
  }

  lemma FractionPart(all: seq<nat>, r: seq<nat>, s: string, last: nat)
    requires |all| == DECIMALS && IsNumeral(10, all) && |r| <= DECIMALS && all == r + ZeroDigits(DECIMALS - |r|)
    requires IsNumeral(10, r) && last == 8 + |r|
    requires |s| == 22 && forall i :: 0 <= i < DECIMALS ==> s[9 + i] == Char(all[i])
    ensures s[9..last + 1] == Chars(r)
  {
    forall i | 0 <= i < |r|
      ensures s[9..last + 1][i] == Chars(r)[i]
    {
      assert s[9 + i] == Char(all[i]) && all[i] == r[i];
    }
  }

  lemma FirstNonZero(whole: seq<nat>, m: seq<nat>, s: string, first: nat)
    requires |m| <= 8 && whole == ZeroDigits(8 - |m|) + m && IsNumeral(10, whole) && (m != [] ==> m[0] != 0)
    requires |s| == 22 && s[8] == '.' && forall i :: 0 <= i < 8 ==> s[i] == Char(whole[i])
    requires first <= 8 && s[first] != '0' && forall i :: 0 <= i < first ==> s[i] == '0'
    ensures first == 8 - |m| && (s[first] == '.' <==> |m| == 0)
  {
    var z := 8 - |m|;
    assert forall i :: 0 <= i < z ==> whole[i] == 0 && s[i] == '0';
    assert z < 8 ==> whole[z] == m[0] && s[z] == Char(m[0]) && s[z] != '.';
  }

  lemma LastNonZero(all: seq<nat>, r: seq<nat>, s: string, last: nat)
    requires |all| == DECIMALS && IsNumeral(10, all) && |r| <= DECIMALS && all == r + ZeroDigits(DECIMALS - |r|)
    requires r != [] ==> r[|r| - 1] != 0
    requires |s| == 22 && s[8] == '.' && forall i :: 0 <= i < DECIMALS ==> s[9 + i] == Char(all[i])
    requires 8 <= last <= 20 && s[last] != '0' && forall i :: last < i <= 20 ==> s[i] == '0'
    ensures last == 8 + |r|
  {
    var f := |r|;
    var i, j := if last > 8 then last - 9 else 0, if f > 0 then f - 1 else 0;
    assert s[9 + i] == Char(all[i]) && s[9 + j] == Char(all[j]);
    assert f <= i ==> all[i] == ZeroDigits(DECIMALS - f)[i - f] == 0;
    assert f > 0 ==> all[j] == r[j];
  }

  /** What `incognito_amount2str` returns and leaves in a buffer of `size` characters. */
  function Printed(amount: nat, size: nat): (r: (nat, string))
    requires size >= 1
    ensures |r.1| == size
  {
    if amount == 0 then (1, "0" + Nuls(size - 1))
    else
      var text := Text(amount);
      if |text| <= size - 1 then (0, text + Nuls(size - |text|))
      else (1, text[..size - 1] + Nuls(1))
  }

  method AmountToStr(amount: nat, str: array<char>) returns (ov: nat)
    requires amount < TWO_64 && str.Length >= 1
    modifies str
    ensures (ov, str[..]) == Printed(amount, str.Length)
  {
    hide Pow, Minimal, Digits, Text, Nuls, Buffers.Put;
    forall i | 0 <= i < str.Length {
      str[i] := NUL;
    }
    assert str[..] == Nuls(str.Length);
    if amount == 0 {
      PutText(str.Length, "0");
      Buffers.Write(str, 0, "0");
      return 1;
    }
    var stramount := PlaceDot(amount);
    var offset, len := TrimZeros(amount, stramount);
    ghost var text := stramount[offset..offset + len];
    ov := 0;
    if len > str.Length - 1 {
      len := str.Length - 1;
      ov := 1;
    }
    var visible := stramount[offset..offset + len];
    assert visible == text[..len];
    assert len == |text| ==> visible == text;
    PutText(str.Length, visible);
    Buffers.Write(str, 0, visible);
  }

  /** Where the text starts in the twenty-digit form, and how long it is. */
  method TrimZeros(amount: nat, stramount: array<char>) returns (offset: nat, len: nat)
    requires amount < TWO_64 && stramount.Length == 22 && stramount[8] == '.'
    requires stramount[..21] == Chars(Digits(10, amount / UNIT, 8)) + "." + Chars(Digits(10, amount % UNIT, DECIMALS))
    ensures offset + len <= 21 && stramount[offset..offset + len] == Text(amount)
  {
    hide Pow, Minimal, Digits, Text, Chars;
    offset := SkipZeros(stramount);
    var last := SkipZerosBack(stramount);
    ghost var s := stramount[..];
    assert s[..21] == stramount[..21];
    TextBetween(amount, s, offset, last);
    if stramount[offset] == '.' {
      offset := offset - 1;
    }
    len := last - offset + 1;
    assert stramount[offset..offset + len] == s[offset..last + 1];
  }

  lemma PutText(n: nat, text: string)
    requires |text| <= n
    ensures Buffers.Put(Nuls(n), 0, text) == text + Nuls(n - |text|)
  {
    Buffers.PutFront(Nuls(n), text);
  }

  /** Twenty digits, with a dot put between the first eight and the last twelve. */
  method PlaceDot(amount: nat) returns (stramount: array<char>)
    requires amount < TWO_64
    ensures fresh(stramount) && stramount.Length == 22 && stramount[8] == '.'
    ensures stramount[..21] == Chars(Digits(10, amount / UNIT, 8)) + "." + Chars(Digits(10, amount % UNIT, DECIMALS))
  {
    hide Pow, Minimal, Digits, Chars, Buffers.Put;
    stramount := new char[22](_ => '0');
    stramount[21] := NUL;
    PowersOfTen();
    PowMonotonic(10, 20, 21);
    ghost var zeros := stramount[..];
    var offset := WriteDigits(stramount, 21, amount);
    TwentyDigits(amount);
    ghost var digits := stramount[..][1..21];
    DigitsText(zeros[..offset], Minimal(10, amount), zeros[21..], digits);
    ghost var high, low := Digits(10, amount / UNIT, 8), Digits(10, amount % UNIT, DECIMALS);
    CharsConcat(high, low);
    ghost var before := stramount[..];
    assert digits == before[1..21];
    Buffers.Write(stramount, 0, stramount[1..9]);
    stramount[8] := '.';
    assert stramount[..] == Buffers.Put(before, 0, before[1..9])[8 := '.'];
    Shifted(before);
    assert stramount[..21] == stramount[..][..21];
  }

  lemma Shifted(before: string)
    requires |before| == 22
    ensures Buffers.Put(before, 0, before[1..9])[8 := '.'][..21] == before[1..21][..8] + "." + before[1..21][8..]
  {
    Buffers.PutFront(before, before[1..9]);
  }

  lemma DigitsText(head: string, m: seq<nat>, tail: string, digits: string)
    requires |m| <= 20 && IsNumeral(10, m) && |head| == 21 - |m| && forall i :: 0 <= i < |head| ==> head[i] == '0'
    requires digits == (head + Chars(m) + tail)[1..21]
    ensures digits == Chars(ZeroDigits(20 - |m|) + m)
  {
  }

  lemma CharsConcat(ds: seq<nat>, es: seq<nat>)
    requires IsNumeral(10, ds) && IsNumeral(10, es)
    ensures Chars(ds + es)[..|ds|] == Chars(ds) && Chars(ds + es)[|ds|..] == Chars(es)
  {
  }

  /** A buffer of 22 characters always holds the whole text; nothing is cut. */
  lemma NeverCutAt22(amount: nat, size: nat)
    requires 0 < amount < TWO_64 && size >= 22
    ensures |Text(amount)| <= 21 && Printed(amount, size) == (0, Text(amount) + Nuls(size - |Text(amount)|))
  {
    hide Text;
    TextLength(amount);
  }

  /** The C string in a buffer. */
  function UpToNul(s: string): string {
    if s == [] || s[0] == NUL then [] else [s[0]] + UpToNul(s[1..])
  }

  lemma {:induction false} UpToNulOf(text: string, n: nat)
    requires NUL !in text
    ensures UpToNul(text + Nuls(n)) == text
  {
    if text == [] {
      assert text + Nuls(n) == Nuls(n);
    } else {
      assert (text + Nuls(n))[1..] == text[1..] + Nuls(n);
      UpToNulOf(text[1..], n);
    }
  }

  /**
    The result is 0 exactly when the text in the buffer reads back as the amount; what is in the
    buffer always begins the text. The amount 0 is printed without its dot, so it never does.
   */
  lemma CutLosesAmount(amount: nat, size: nat)
    requires size >= 1
    ensures var (ov, s) := Printed(amount, size);
            (ov == 0 <==> Parse(UpToNul(s)) == Some(amount)) && UpToNul(s) <= Text(amount)
  {
    hide Parse, Dot, Whole, Fraction;
    var text := Text(amount);
    if amount == 0 {
      ZeroPrinted(size);
      PrefixLosesAmount(0, 1);
      return;
    }
    ReadOfChars(Whole(amount));
    ReadOfChars(Fraction(amount));
    assert NUL !in text by {
      NoNul(Whole(amount));
      NoNul(Fraction(amount));
    }
    if |text| <= size - 1 {
      UpToNulOf(text, size - |text|);
      ParseOfText(amount);
    } else {
      UpToNulOf(text[..size - 1], 1);
      PrefixLosesAmount(amount, size - 1);
    }
  }

  /** Behind the text nothing but terminators is left in the buffer. */
  lemma NothingBehind(amount: nat, size: nat)
    requires size >= 1
    ensures var s := Printed(amount, size).1;
            forall i :: |UpToNul(s)| <= i < size ==> s[i] == NUL
  {
    hide Dot, Whole, Fraction;
    var text := Text(amount);
    ReadOfChars(Whole(amount));
    ReadOfChars(Fraction(amount));
    assert NUL !in text by {
      NoNul(Whole(amount));
      NoNul(Fraction(amount));
    }
    if amount == 0 {
      UpToNulOf("0", size - 1);
    } else if |text| <= size - 1 {
      UpToNulOf(text, size - |text|);
    } else {
      UpToNulOf(text[..size - 1], 1);
    }
  }

  /** The text of zero is "0.", but the code prints "0" and reports a missing decimal, at every size. */
  lemma ZeroPrinted(size: nat)
    requires size >= 1
    ensures var (ov, s) := Printed(0, size);
            ov == 1 && UpToNul(s) == "0" && Text(0) == "0." && Text(0)[..1] == "0"
  {
    UpToNulOf("0", size - 1);
    MinimalOfZero(0 / UNIT);
    ZeroDigitsDrop(DECIMALS);
    ZeroFraction();
  }

  lemma ZeroFraction()
    ensures Fraction(0) == []
  {
    hide Digits, DropZeros, Value;
    ValueZeros(10, DECIMALS);
    DigitsOfValue(10, ZeroDigits(DECIMALS));
    ZeroDigitsDrop(DECIMALS);
  }

  lemma ZeroDigitsDrop(n: nat)
    ensures DropZeros(ZeroDigits(n)) == []
  {
    assert [] + ZeroDigits(n) == ZeroDigits(n);
    DropZerosOfPadded([], n);
  }

  /** The result is 0 exactly for an amount other than zero whose text fits before a terminator. */
  lemma ResultExact(amount: nat, size: nat)
    requires size >= 1
    ensures Printed(amount, size).0 == 0 <==> amount != 0 && |Text(amount)| <= size - 1
  {
    hide Text;
  }

  /** The buffer holds a terminator except when zero is printed into a single character. */
  lemma TerminatorExact(amount: nat, size: nat)
    requires size >= 1
    ensures NUL in Printed(amount, size).1 <==> amount != 0 || size >= 2
  {
    hide Text;
    var s := Printed(amount, size).1;
    if amount != 0 || size >= 2 {
      assert s[size - 1] == NUL;
    } else {
      assert s == "0";
    }
  }

  lemma NoNul(ds: seq<nat>)
    requires IsNumeral(10, ds)
    ensures NUL !in Chars(ds)
  {
    assert forall i :: 0 <= i < |ds| ==> Chars(ds)[i] == Char(ds[i]) != NUL;
  }

  lemma PrefixLosesAmount(amount: nat, k: nat)
    requires k < |Text(amount)|
    ensures Parse(Text(amount)[..k]) != Some(amount)
  {
    hide Value, Dot, Minimal, Digits;
    var whole, fraction := Whole(amount), Fraction(amount);
    var text, t := Text(amount), Text(amount)[..k];
    ReadOfChars(whole);
    if k <= |whole| {
      assert forall i :: 0 <= i < k ==> t[i] == Chars(whole)[i];
      NoDot(t);
    } else {
      var part := fraction[..k - |whole| - 1];
      ReadOfChars(part);
      assert t == Chars(whole) + "." + Chars(part);
      DotOf(Chars(whole), Chars(part));
      ShorterFraction(amount, part);
    }
  }

  lemma NoDot(s: string)
    requires IsDecimal(s)
    ensures Dot(s) == |s|
  {
    assert Dot(s) < |s| ==> s[Dot(s)] == '.';
  }

  /** Dropping decimals changes the number, because the last of them is not zero. */
  lemma ShorterFraction(amount: nat, part: seq<nat>)
    requires part < Fraction(amount)
    ensures Units(Whole(amount), part) != amount
  {
    hide Value, Minimal, Fraction, Whole, Digits;
    var fraction, all := Fraction(amount), Digits(10, amount % UNIT, DECIMALS);
    var padded := part + ZeroDigits(DECIMALS - |part|);
    PowersOfTen();
    WholeValue(amount);
    FractionPadded(amount);
    PaddedDiffers(fraction, part, all, padded);
    ValueOfDigits(10, amount % UNIT, DECIMALS);
    assert IsNumeral(10, padded) by {
      assert forall i :: 0 <= i < |part| ==> padded[i] == fraction[i];
    }
    DigitsOfValue(10, padded);
    assert Value(10, padded) != amount % UNIT;
  }

  lemma PaddedDiffers(fraction: seq<nat>, part: seq<nat>, all: seq<nat>, padded: seq<nat>)
    requires part < fraction && |fraction| <= DECIMALS && fraction[|fraction| - 1] != 0
    requires all == fraction + ZeroDigits(DECIMALS - |fraction|) && padded == part + ZeroDigits(DECIMALS - |part|)
    ensures all != padded
  {
    assert all[|fraction| - 1] == fraction[|fraction| - 1];
    assert padded[|fraction| - 1] == 0;
  }

  // ---------- amounts as bytes ----------

  /** `incognito_bamount2uint64`, in 64-bit arithmetic that never wraps. */
  method BAmountToUint64(binary: seq<Byte>) returns (xmr: nat)
    requires |binary| == 8
    ensures xmr == LittleEndian(binary) < TWO_64
  {
    hide Value;
    xmr := 0;
    var i := 7;
    ghost var read: seq<Byte> := [];
    ValueEmpty(256, read);
    while i >= 0
      invariant -1 <= i <= 7 && read == Reverse(binary)[..7 - i] && xmr == BigEndian(read)
    {
      ValueAppend(256, read, binary[i]);
      assert Reverse(binary)[..8 - i] == read + [binary[i]];
      read := read + [binary[i]];
      BelowTwo64(read);
      xmr := (xmr * 256 + binary[i]) % TWO_64;
      i := i - 1;
    }
    assert read == Reverse(binary);
    BelowTwo64(read);
  }

  lemma BelowTwo64(s: seq<Byte>)
    requires |s| <= 8
    ensures BigEndian(s) < TWO_64
  {
    BigEndianBound(s);
    PowMonotonic(256, |s|, 8);
    PowersOf256();
  }

  method BAmountToStr(binary: seq<Byte>, str: array<char>) returns (ov: nat)
    requires |binary| == 8 && str.Length >= 1
    modifies str
    ensures (ov, str[..]) == Printed(LittleEndian(binary), str.Length)
  {
    var amount := BAmountToUint64(binary);
    ov := AmountToStr(amount, str);
  }

  /** Decoding throws, and nothing is written, or the decoded amount is printed. */
  ghost predicate PrintsDecoded(s: seq<Byte>, before: string, after: string, ov: Option<nat>, r: Option<(nat, nat)>)
    requires |after| >= 1
  {
    Varint.Decodes(s, 8, r) && match r
      case None => ov.None? && after == before
      case Some((v, _)) => ov.Some? && (ov.value, after) == Printed(v, |after|)
  }

  method VAmountToStr(binary: array<Byte>, str: array<char>) returns (ov: Option<nat>)
    requires str.Length >= 1
    requires binary.Length >= 8 || exists i :: 0 <= i < binary.Length && binary[i] < 128
    modifies str
    ensures exists r :: PrintsDecoded(binary[0..], old(str[..]), str[..], ov, r)
  {
    var r := Varint.DecodeVarint(binary, 0, 8);
    if r.None? {
      assert PrintsDecoded(binary[0..], old(str[..]), str[..], None, r);
      return None;
    }
    var written := AmountToStr(r.value.0, str);
    ov := Some(written);
    assert PrintsDecoded(binary[0..], old(str[..]), str[..], ov, r);
  }

  /** An encoded amount of at most 56 bits is printed as that amount, whatever follows it. */
  lemma EncodedAmountPrints(amount: nat, rest: seq<Byte>, before: string, after: string, ov: Option<nat>,
                            r: Option<(nat, nat)>)
    requires amount < Pow(128, 8) && amount < TWO_64 && |after| >= 1
    requires PrintsDecoded(Varint.Encode(amount) + rest, before, after, ov, r)
    ensures ov.Some? && (ov.value, after) == Printed(amount, |after|)
  {
    hide Printed;
    Varint.RoundTrip(amount, rest, 8, r);
  }
}
