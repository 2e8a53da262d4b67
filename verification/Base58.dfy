/**
  Base58 (src/utils.c:12-69, 127-180): the variable-length encoder that divides a byte string in
  place, and the encoder for blocks of at most eight bytes.
 */
module Base58 {
  import opened Arithmetic
  import opened Numerals
  import opened Wrappers
  import Buffers

  const ALPHABET: string := "123456789" + "ABCDEFGHJKLMN" + "PQRSTUVWXYZ" + "abcdefghijk" + "mnopqrstuvwxyz"

  // ---------- letters ----------

  function Letter(d: nat): char
    requires d < 58
  {
    ALPHABET[d]
  }

  function Letters(ds: seq<nat>): (s: string)
    requires IsNumeral(58, ds)
    ensures |s| == |ds|
    ensures forall i :: 0 <= i < |ds| ==> s[i] == Letter(ds[i])
  {
    seq(|ds|, i requires 0 <= i < |ds| => Letter(ds[i]))
  }

  /** The digit a letter stands for. */
  function Digit(c: char): Option<nat> {
    if '1' <= c <= '9' then Some(c as int - '1' as int)
    else if 'A' <= c <= 'H' then Some(c as int - 'A' as int + 9)
    else if 'J' <= c <= 'N' then Some(c as int - 'J' as int + 17)
    else if 'P' <= c <= 'Z' then Some(c as int - 'P' as int + 22)
    else if 'a' <= c <= 'k' then Some(c as int - 'a' as int + 33)
    else if 'm' <= c <= 'z' then Some(c as int - 'm' as int + 44)
    else None
  }

  lemma DigitOfLetter(d: nat)
    requires d < 58
    ensures Digit(Letter(d)) == Some(d)
  {
    if d < 22 {
      DigitOfLetterLow(d);
    } else if d < 44 {
      DigitOfLetterMiddle(d);
    } else {
      DigitOfLetterHigh(d);
    }
  }

  lemma DigitOfLetterLow(d: nat)
    requires 0 <= d < 22
    ensures Digit(Letter(d)) == Some(d)
  {
    match d {
      case 0 => case 1 => case 2 => case 3 => case 4 => case 5 => case 6 => case 7 => case 8 => case 9 => case 10 =>
      case 11 => case 12 => case 13 => case 14 => case 15 => case 16 => case 17 => case 18 => case 19 => case 20 =>
      case 21 =>
    }
  }

  lemma DigitOfLetterMiddle(d: nat)
    requires 22 <= d < 44
    ensures Digit(Letter(d)) == Some(d)
  {
    match d {
      case 22 => case 23 => case 24 => case 25 => case 26 => case 27 => case 28 => case 29 => case 30 => case 31 =>
      case 32 =>
      case 33 => case 34 => case 35 => case 36 => case 37 => case 38 => case 39 => case 40 => case 41 => case 42 =>
      case 43 =>
    }
  }

  lemma DigitOfLetterHigh(d: nat)
    requires 44 <= d < 58
    ensures Digit(Letter(d)) == Some(d)
  {
    match d {
      case 44 => case 45 => case 46 => case 47 => case 48 => case 49 => case 50 => case 51 => case 52 => case 53 =>
      case 54 =>
      case 55 => case 56 => case 57 =>
    }
  }

  /** The number a text denotes, or None if it holds a foreign character. */
  function TextDigits(s: string): Option<seq<nat>> {
    if s == [] then Some([])
    else match (TextDigits(s[..|s| - 1]), Digit(s[|s| - 1]))
      case (Some(ds), Some(d)) => Some(ds + [d])
      case _ => None
  }

  lemma {:induction false} LettersRead(ds: seq<nat>)
    requires IsNumeral(58, ds)
    ensures TextDigits(Letters(ds)) == Some(ds)
  {
    hide Digit, Letters, Letter;
    if ds == [] {
      assert Letters(ds) == [];
    } else {
      var t, d := ds[..|ds| - 1], ds[|ds| - 1];
      LettersRead(t);
      DigitOfLetter(d);
      assert Letters(ds)[..|ds| - 1] == Letters(t);
      assert ds == t + [d];
    }
  }

  /** The alphabet is in ASCII order: the digits and letters without 0, O, I and l. */
  predicate InAlphabet(c: char) {
    ('1' <= c <= '9' || 'A' <= c <= 'Z' || 'a' <= c <= 'z') && c != 'I' && c != 'O' && c != 'l'
  }

  lemma AlphabetIs()
    ensures |ALPHABET| == 58 && forall d :: 0 <= d < 58 ==> InAlphabet(Letter(d))
    ensures forall d, e :: 0 <= d < e < 58 ==> Letter(d) < Letter(e)
  {
    forall d | 0 <= d < 58
      ensures InAlphabet(Letter(d))
    {
      LetterIs(d);
    }
    forall d, e | 0 <= d < e < 58
      ensures Letter(d) < Letter(e)
    {
      LetterIs(d);
      LetterIs(e);
    }
  }

  /** Where each letter stands, counted from the start of its run. */
  lemma LetterIs(d: nat)
    requires d < 58
    ensures Letter(d) as int == if d < 9 then '1' as int + d
                                else if d < 17 then 'A' as int + (d - 9)
                                else if d < 22 then 'J' as int + (d - 17)
                                else if d < 33 then 'P' as int + (d - 22)
                                else if d < 44 then 'a' as int + (d - 33)
                                else 'm' as int + (d - 44)
  {
    hide Letter;
    DigitOfLetter(d);
  }

  // ---------- what the encoder produces ----------

  /** Number of leading zero bytes. */
  function Zeros(s: seq<Byte>): (z: nat)
    ensures z <= |s| && (z < |s| ==> s[z] != 0) && forall i :: 0 <= i < z ==> s[i] == 0
  {
    if s == [] || s[0] != 0 then 0 else 1 + Zeros(s[1..])
  }

  /** One '1' for each leading zero byte, then the number without leading zero digits. */
  function Encode(s: seq<Byte>): string {
    Letters(ZeroDigits(Zeros(s)) + Minimal(58, BigEndian(s)))
  }

  /** The inverse: leading ones are zero bytes, the rest is a base-58 number. */
  function LeadingZeroDigits(ds: seq<nat>): (z: nat)
    ensures z <= |ds|
  {
    if ds == [] || ds[0] != 0 then 0 else 1 + LeadingZeroDigits(ds[1..])
  }

  function Decode(text: string): (r: Option<seq<nat>>)
    ensures r.Some? ==> IsNumeral(256, r.value)
  {
    match TextDigits(text)
    case None => None
    case Some(ds) => Some(ZeroDigits(LeadingZeroDigits(ds)) + Minimal(256, Value(58, ds)))
  }

  lemma {:induction false} LeadingZeroDigitsOf(z: nat, ds: seq<nat>)
    requires ds != [] ==> ds[0] != 0
    ensures LeadingZeroDigits(ZeroDigits(z) + ds) == z
  {
    if z > 0 {
      assert (ZeroDigits(z) + ds)[1..] == ZeroDigits(z - 1) + ds;
      LeadingZeroDigitsOf(z - 1, ds);
    } else {
      assert ZeroDigits(0) + ds == ds;
    }
  }

  /** A byte string is its leading zeros followed by the minimal form of its value. */
  lemma BytesSplit(s: seq<Byte>)
    ensures s == ZeroDigits(Zeros(s)) + Minimal(256, BigEndian(s))
    ensures BigEndian(s) == BigEndian(s[Zeros(s)..])
  {
    hide Zeros, Value, Minimal;
    var z := Zeros(s);
    assert s[..z] == ZeroDigits(z);
    assert s == s[..z] + s[z..];
    ValueConcat(256, s[..z], s[z..]);
    ValueZeros(256, z);
    MinimalOfValue(256, s[z..]);
  }

  /** Decoding returns the encoded bytes, so the encoder is injective. */
  lemma DecodeEncode(s: seq<Byte>)
    ensures Decode(Encode(s)) == Some(s)
  {
    var z, n := Zeros(s), BigEndian(s);
    var ds := ZeroDigits(z) + Minimal(58, n);
    LettersRead(ds);
    LeadingZeroDigitsOf(z, Minimal(58, n));
    ValueConcat(58, ZeroDigits(z), Minimal(58, n));
    ValueZeros(58, z);
    ValueOfMinimal(58, n);
    BytesSplit(s);
  }

  /** The text read as base-58 digits is the number, behind as many ones as there are leading zero bytes. */
  lemma EncodeValue(s: seq<Byte>) returns (ds: seq<nat>, z: nat)
    ensures TextDigits(Encode(s)) == Some(ds) && Value(58, ds) == Value(256, s) && |Encode(s)| == |ds|
    ensures z <= |s| && (forall i :: 0 <= i < z ==> s[i] == 0) && (z < |s| ==> s[z] != 0)
    ensures z <= |ds| && (forall i :: 0 <= i < z ==> Encode(s)[i] == '1') && (z < |ds| ==> Encode(s)[z] != '1')
    ensures z == |s| <==> z == |ds|
  {
    hide Letter, Letters, Minimal, Digit, Zeros, Value;
    z := Zeros(s);
    var n := BigEndian(s);
    ds := ZeroDigits(z) + Minimal(58, n);
    LettersRead(ds);
    ValueConcat(58, ZeroDigits(z), Minimal(58, n));
    ValueZeros(58, z);
    ValueOfMinimal(58, n);
    FirstLetters(s, z);
  }

  lemma FirstLetters(s: seq<Byte>, z: nat)
    requires z == Zeros(s)
    ensures var ds := ZeroDigits(z) + Minimal(58, BigEndian(s));
            |Encode(s)| == |ds| && (z == |s| <==> z == |ds|)
            && (forall i :: 0 <= i < z ==> Encode(s)[i] == '1') && (z < |ds| ==> Encode(s)[z] != '1')
  {
    hide Letter, Minimal, Value;
    var m := Minimal(58, BigEndian(s));
    assert Letter(0) == '1' by {
      LetterIs(0);
    }
    BytesSplit(s);
    NoDigitsOfZero(BigEndian(s));
    if z < |s| {
      NonZeroValue(s[z..]);
      LetterIs(m[0]);
    } else {
      assert s == ZeroDigits(z);
      ValueZeros(256, z);
    }
  }

  lemma EncodeInjective(s: seq<Byte>, t: seq<Byte>)
    requires Encode(s) == Encode(t)
    ensures s == t
  {
    DecodeEncode(s);
    DecodeEncode(t);
  }

  lemma LetterOfDigit(c: char)
    requires Digit(c).Some?
    ensures Digit(c).value < 58 && Letter(Digit(c).value) == c
  {
    hide Letter;
    DigitOfLetter(Digit(c).value);
  }

  lemma {:induction false} TextOfDigits(text: string)
    requires TextDigits(text).Some?
    ensures var ds := TextDigits(text).value; IsNumeral(58, ds) && Letters(ds) == text
  {
    hide Letter, Digit;
    if text != [] {
      TextOfDigits(text[..|text| - 1]);
      LetterOfDigit(text[|text| - 1]);
    }
  }

  lemma {:induction false} LeadingZeroDigitsSplit(ds: seq<nat>)
    ensures var z := LeadingZeroDigits(ds);
            ds == ZeroDigits(z) + ds[z..] && (ds[z..] != [] ==> ds[z..][0] != 0)
  {
    if ds != [] && ds[0] == 0 {
      var rest := ds[1..];
      LeadingZeroDigitsSplit(rest);
      var z := LeadingZeroDigits(rest);
      FirstDigitBack(ds, z);
      OneMoreZero(z, rest[z..]);
    } else {
      NoZerosBefore(ds);
    }
  }

  lemma FirstDigitBack(ds: seq<nat>, z: nat)
    requires z + 1 <= |ds|
    ensures ds == [ds[0]] + ds[1..] && ds[1..][z..] == ds[z + 1..]
  {
  }

  /** Conversely every text over the alphabet is the encoding of the bytes it decodes to. */
  lemma EncodeDecode(text: string)
    requires Decode(text).Some?
    ensures Encode(Decode(text).value) == text
  {
    hide Letter, Digit, Letters, TextDigits;
    TextOfDigits(text);
    var ds := TextDigits(text).value;
    LeadingZeroDigitsSplit(ds);
    var z := LeadingZeroDigits(ds);
    var n := Value(58, ds);
    ValueConcat(58, ZeroDigits(z), ds[z..]);
    ValueZeros(58, z);
    MinimalOfValue(58, ds[z..]);
    var s: seq<Byte> := Decode(text).value;
    ValueConcat(256, ZeroDigits(z), Minimal(256, n));
    ValueZeros(256, z);
    ValueOfMinimal(256, n);
    ZerosUnique(s, z);
  }

  /** A text as the bytes of a buffer. */
  function Ascii(s: string): (r: seq<Byte>)
    ensures |r| == |s|
  {
    seq(|s|, i requires 0 <= i < |s| => s[i] as int % 256)
  }

  /** Encoded texts are plain ASCII, so their bytes determine the encoded bytes. */
  lemma AsciiInjective(s: seq<Byte>, t: seq<Byte>)
    requires Ascii(Encode(s)) == Ascii(Encode(t))
    ensures s == t
  {
    hide Encode;
    EncodeIsAscii(s);
    EncodeIsAscii(t);
    var v, w := Encode(s), Encode(t);
    forall i | 0 <= i < |v|
      ensures v[i] == w[i]
    {
      assert Ascii(v)[i] == Ascii(w)[i];
    }
    EncodeInjective(s, t);
  }

  lemma EncodeIsAscii(s: seq<Byte>)
    ensures forall i :: 0 <= i < |Encode(s)| ==> 0 < Encode(s)[i] as int < 128
    ensures forall i :: 0 <= i < |Encode(s)| ==> Ascii(Encode(s))[i] == Encode(s)[i] as int
  {
    hide Letter, Minimal, BigEndian, Zeros;
    forall d: nat | d < 58
      ensures 0 < Letter(d) as int < 128
    {
      LetterIsAscii(d);
    }
  }

  lemma LetterIsAscii(d: nat)
    requires d < 58
    ensures 0 < Letter(d) as int < 128
  {
    hide Letter;
    DigitOfLetter(d);
  }

  // ---------- how long the result is ----------

  /** encoded_block_sizes */
  function BlockSize(n: nat): nat
    requires n <= 8
  {
    [0, 2, 3, 5, 6, 7, 9, 10, 11][n]
  }

  /** One digit less would not do. */
  lemma BlockTight(n: nat)
    requires 1 <= n <= 8
    ensures Pow(58, BlockSize(n) - 1) < Pow(256, n)
  {
  }

  /** The length bound: eleven letters for eight bytes. */
  function MaxLength(n: nat): nat {
    11 * (n / 8) + BlockSize(n % 8)
  }

  lemma BlockFits(n: nat)
    requires n <= 8
    ensures Pow(256, n) <= Pow(58, BlockSize(n))
  {
  }

  lemma {:induction false} LengthFits(n: nat)
    ensures Pow(256, n) <= Pow(58, MaxLength(n))
  {
    hide Pow, BlockSize;
    if n < 8 {
      BlockFits(n);
    } else {
      MaxLengthStep(n);
      LengthFits(n - 8);
      BlockFits(8);
      PowAdd(256, 8, n - 8);
      PowAdd(58, 11, MaxLength(n - 8));
      PowPositive(256, n - 8);
      PowPositive(256, 8);
      ProductMonotonic(Pow(256, 8), Pow(58, 11), Pow(256, n - 8), Pow(58, MaxLength(n - 8)));
    }
  }

  lemma MaxLengthStep(n: nat)
    ensures BlockSize(8) == 11 && MaxLength(0) == 0
    ensures n >= 8 ==> MaxLength(n) == 11 + MaxLength(n - 8)
  {
  }

  lemma ProductMonotonic(a: int, b: int, c: int, d: int)
    requires 0 <= a <= b && 0 <= c <= d
    ensures a * c <= b * d
  {
    MulMonotonic(c, a, b);
    MulMonotonic(b, c, d);
  }

  lemma MaxLengthGrows(n: nat)
    ensures MaxLength(n + 1) >= MaxLength(n) + 1
  {
    var q, r := n / 8, n % 8;
    if r == 7 {
      assert (n + 1) / 8 == q + 1 && (n + 1) % 8 == 0;
    } else {
      assert (n + 1) / 8 == q && (n + 1) % 8 == r + 1;
    }
  }

  lemma {:induction false} MaxLengthZeros(z: nat, n: nat)
    ensures z + MaxLength(n) <= MaxLength(n + z)
  {
    if z > 0 {
      MaxLengthZeros(z - 1, n);
      MaxLengthGrows(n + z - 1);
    }
  }

  /** The bound holds for every input; eighty bytes give at most 110 letters. */
  lemma EncodeLength(s: seq<Byte>)
    ensures |Encode(s)| <= MaxLength(|s|)
    ensures |s| == 80 ==> |Encode(s)| <= 110
  {
    hide Minimal, BigEndian, MaxLength, Zeros;
    var z := Zeros(s);
    DigitsLength(s);
    MaxLengthZeros(z, |s| - z);
    MaxLengthOf80();
  }

  lemma MaxLengthOf80()
    ensures MaxLength(80) == 110
  {
  }

  lemma DigitsLength(s: seq<Byte>)
    ensures |Minimal(58, BigEndian(s))| <= MaxLength(|s| - Zeros(s))
  {
    hide Minimal, BigEndian, MaxLength, Pow;
    var z := Zeros(s);
    BytesSplit(s);
    BigEndianBound(s[z..]);
    LengthFits(|s| - z);
    MinimalLength(58, BigEndian(s), MaxLength(|s| - z));
  }

  /** 58^109 < 256^80 */
  lemma HundredTenDigits()
    ensures Pow(58, 109) < Pow(256, 80)
  {
    var a, b := Pow(58, 27), Pow(256, 20);
    Digits27();
    PowMul(58, 27, 4);
    PowMul(256, 20, 4);
    assert Pow(58, 109) == 58 * Pow(58, 108);
    FourthPower(a, b);
  }

  lemma Digits27()
    ensures 0 < 3 * Pow(58, 27) < Pow(256, 20)
  {
    assert Pow(58, 9) == 7427658739644928;
    PowAdd(58, 9, 9);
    PowAdd(58, 18, 9);
    PowersOf256();
    PowAdd(256, 8, 8);
    PowAdd(256, 16, 4);
  }

  lemma FourthPower(a: int, b: int)
    requires 0 < 3 * a < b
    ensures 58 * Pow(a, 4) < Pow(b, 4)
  {
    PowProduct(3, a, 4);
    PowPositive(a, 4);
    PowIncreases(3 * a, b, 4);
    assert Pow(3, 4) == 81;
  }

  lemma {:induction false} PowIncreases(a: int, b: int, e: nat)
    requires 0 <= a <= b
    ensures 0 <= Pow(a, e) <= Pow(b, e)
  {
    if e > 0 {
      PowIncreases(a, b, e - 1);
      ProductMonotonic(a, b, Pow(a, e - 1), Pow(b, e - 1));
      MulMonotonic(a, 0, Pow(a, e - 1));
    }
  }

  /** The bound for eighty bytes is attained: some number of eighty bytes takes 110 letters. */
  lemma EncodeLengthAttained() returns (s: seq<Byte>)
    ensures |s| == 80 && |Encode(s)| == 110
  {
    hide Pow, Minimal, BigEndian, Zeros;
    HundredTenDigits();
    PowPositive(58, 109);
    s := ToBigEndian(Pow(58, 109), 80);
    FitsExact(58, Pow(58, 109), 109);
    EncodeLength(s);
  }

  /** No byte is encoded in less than one letter. */
  lemma EncodeAtLeast(s: seq<Byte>)
    ensures |Encode(s)| >= |s|
  {
    hide Pow, Minimal, Value, Zeros;
    var z := Zeros(s);
    BytesSplit(s);
    if z < |s| {
      var k := |s| - z - 1;
      ValueAtLeast(256, s[z..]);
      PowIncreases(58, 256, k);
      FitsExact(58, BigEndian(s), k);
    }
  }

  lemma MaxLengthDouble(n: nat)
    ensures MaxLength(n) <= 2 * n
  {
    assert 11 * (n / 8) + BlockSize(n % 8) <= 2 * (8 * (n / 8) + n % 8);
  }

  // ---------- encodeBase58 ----------

  /** `Undefined` where the code leaves its scratch buffer, or reads a place of it that was never written. */
  datatype Outcome = Length(length: nat) | InvalidParameter | Overflow | Undefined

  const SCRATCH := 164

  /** `j` is one byte wide. */
  function Start(length: nat): nat {
    (2 * length) % 256
  }

  /** The position of the k-th letter written: `j` is decremented before each write. */
  function WriteIndex(length: nat, k: nat): nat {
    (2 * length - 1 - k) % 256
  }

  /** Every letter of the text is written inside the scratch buffer. */
  ghost predicate StaysInScratch(s: seq<Byte>) {
    forall k :: 0 <= k < |Encode(s)| ==> WriteIndex(|s|, k) < SCRATCH
  }

  /**
    The trimming loop stops at the first digit. Without a digit it must not start, but it compares
    the byte-wide `j` with the full 2 * length.
   */
  ghost predicate TrimsWritten(s: seq<Byte>) {
    BigEndian(s) != 0 || Start(|s|) >= 2 * |s|
  }

  /** Among the inputs that the length check lets through, exactly those of at most 82 bytes are encoded. */
  lemma ScratchExact(s: seq<Byte>)
    requires |s| <= SCRATCH
    ensures StaysInScratch(s) && TrimsWritten(s) <==> |s| <= 82
    ensures StaysInScratch(s) <==> |s| <= 82
    ensures TrimsWritten(s) <==> |s| < 128 || BigEndian(s) != 0
  {
    hide Encode, BigEndian, MaxLength, WriteIndex, Start;
    EncodeAtLeast(s);
    EncodeLength(s);
    MaxLengthDouble(|s|);
    WriteIndices(|s|);
    if 82 < |s| < 128 {
      assert WriteIndex(|s|, 0) >= SCRATCH;
    } else if 128 <= |s| {
      assert WriteIndex(|s|, 2 * |s| - 256) >= SCRATCH;
    }
  }

  lemma WriteIndices(n: nat)
    requires n <= SCRATCH
    ensures n <= 82 ==> forall k :: 0 <= k < 2 * n ==> WriteIndex(n, k) < SCRATCH
    ensures 82 < n < 128 ==> WriteIndex(n, 0) >= SCRATCH
    ensures 128 <= n ==> 2 * n - 256 < n && WriteIndex(n, 2 * n - 256) == 255
    ensures Start(n) == if n < 128 then 2 * n else 2 * n - 256
  {
  }

  /** `n` letters written downwards from `start` stay inside the scratch buffer. */
  predicate Fits(start: nat, n: nat) {
    n <= start && (n > 0 ==> start <= SCRATCH)
  }

  lemma FitsScratch(s: seq<Byte>)
    requires |s| <= SCRATCH
    ensures Fits(Start(|s|), |Encode(s)|) <==> StaysInScratch(s)
  {
    hide Encode, MaxLength, WriteIndex, Start, StaysInScratch;
    WriteIndices(|s|);
    ScratchExact(s);
    EncodeAtLeast(s);
    EncodeLength(s);
    MaxLengthDouble(|s|);
  }

  /** The letters written so far lie between `j` and `start`. */
  ghost predicate Holds(b: seq<char>, start: nat, j: nat, ds: seq<nat>) {
    && IsNumeral(58, ds) && j + |ds| == start
    && (ds != [] ==> start <= |b| && b[j..start] == Letters(ds))
  }

  /** One pass of long division: `from..to` holds the quotient by 58, the remainder is returned. */
  method DivideInPlace(tmp: array<Byte>, from: nat, to: nat) returns (remainder: nat)
    requires from <= to <= tmp.Length
    modifies tmp
    ensures tmp[..from] == old(tmp[..from]) && tmp[to..] == old(tmp[to..])
    ensures remainder < 58 && old(BigEndian(tmp[from..to])) == BigEndian(tmp[from..to]) * 58 + remainder
  {
    hide Value;
    remainder := 0;
    var divLoop := from;
    ValueEmpty(256, tmp[from..from]);
    while divLoop < to
      invariant from <= divLoop <= to
      invariant tmp[..from] == old(tmp[..from]) && tmp[divLoop..] == old(tmp[divLoop..])
      invariant remainder < 58
      invariant BigEndian(old(tmp[from..divLoop])) == BigEndian(tmp[from..divLoop]) * 58 + remainder
    {
      ghost var done := tmp[from..divLoop];
      var digit256: nat := tmp[divLoop];
      var tmpDiv := remainder * 256 + digit256;
      tmp[divLoop] := tmpDiv / 58;
      assert old(tmp[from..divLoop + 1]) == old(tmp[from..divLoop]) + [digit256];
      assert tmp[from..divLoop + 1] == done + [tmpDiv / 58];
      BigEndianAppend(old(tmp[from..divLoop]), digit256);
      BigEndianAppend(done, tmpDiv / 58);
      DivisionStep(BigEndian(done), remainder, digit256);
      remainder := tmpDiv % 58;
      divLoop := divLoop + 1;
    }
  }

  lemma BigEndianAppend(s: seq<Byte>, b: Byte)
    ensures BigEndian(s + [b]) == BigEndian(s) * 256 + b
  {
    ValueAppend(256, s, b);
  }

  lemma DivisionStep(q: nat, r: nat, d: nat)
    ensures (q * 58 + r) * 256 + d == (q * 256 + (r * 256 + d) / 58) * 58 + (r * 256 + d) % 58
  {
  }

  /** A non-zero leading byte leaves a non-zero byte in one of the first two places of the quotient. */
  lemma QuotientTop(a: seq<Byte>, q: seq<Byte>, r: nat)
    requires |a| == |q| > 1 && a[0] != 0 && r < 58 && BigEndian(a) == BigEndian(q) * 58 + r
    ensures q[0] != 0 || q[1] != 0
  {
    var m := |a|;
    ValueAtLeast(256, a);
    PowAdd(256, 1, m - 2);
    assert Pow(256, 1) == 256;
    assert q == q[..2] + q[2..];
    ValueConcat(256, q[..2], q[2..]);
    BigEndianBound(q[2..]);
    if q[0] == 0 && q[1] == 0 {
      TwoZeros(q[..2]);
    }
  }

  lemma TwoZeros(s: seq<Byte>)
    requires |s| == 2 && s[0] == s[1] == 0
    ensures Value(256, s) == 0
  {
    assert s == ZeroDigits(2);
    ValueZeros(256, 2);
  }

  /** An empty first byte may be dropped. */
  lemma DropZero(q: seq<Byte>)
    requires q != [] && q[0] == 0
    ensures BigEndian(q[1..]) == BigEndian(q)
  {
    assert q == q[..1] + q[1..];
    assert q[..1] == ZeroDigits(1);
    ValueConcat(256, q[..1], q[1..]);
    ValueZeros(256, 1);
  }

  /** Splitting off the last base-58 digit. */
  lemma NextDigit(w: nat, q: nat, r: nat, ds: seq<nat>)
    requires w > 0 && r < 58 && w == q * 58 + r && IsNumeral(58, ds)
    ensures Minimal(58, w) + ds == Minimal(58, q) + ([r] + ds)
  {
    DivModUnique(w, 58, q, r);
    assert Minimal(58, w) == Minimal(58, q) + [r];
  }

  /** `buffer[--j] = letter` */
  method WriteLetter(buffer: array<char>, start: nat, j: nat, d: nat, ghost ds: seq<nat>)
    returns (j': nat, ok: bool)
    requires buffer.Length == SCRATCH && start < 256 && d < 58 && Holds(buffer[..], start, j, ds)
    modifies buffer
    ensures ok <==> Fits(start, |ds| + 1)
    ensures ok ==> Holds(buffer[..], start, j', [d] + ds)
  {
    hide Letters, Letter;
    j' := (j + 255) % 256;
    ok := j' < SCRATCH;
    if ok {
      assert j' == j - 1;
      ghost var before := buffer[..];
      buffer[j'] := Letter(d);
      OneLetter(d, ds);
      assert buffer[..][j..start] == before[j..start];
      assert buffer[..][j'..start] == [Letter(d)] + before[j..start];
    }
  }

  lemma OneLetter(d: nat, ds: seq<nat>)
    requires d < 58 && IsNumeral(58, ds)
    ensures IsNumeral(58, [d] + ds) && Letters([d] + ds) == [Letter(d)] + Letters(ds)
    ensures ds == [] ==> Letters(ds) == []
  {
  }

  /** The division loop: the digits of the number, least significant first, fill `buffer` backwards. */
  method FillDigits(tmp: array<Byte>, buffer: array<char>, length: nat, zeroCount: nat, ghost digits: seq<nat>)
    returns (j: nat, ok: bool)
    requires length <= tmp.Length && buffer.Length == SCRATCH && zeroCount == Zeros(tmp[..length])
    requires digits == Minimal(58, BigEndian(tmp[..length]))
    modifies tmp, buffer
    ensures ok <==> Fits(Start(length), |digits|)
    ensures ok ==> Holds(buffer[..], Start(length), j, digits)
  {
    hide Value, Minimal, Letters, Letter, Holds;
    var start := (2 * length) % 256;
    ghost var ds: seq<nat> := [];
    j := start;
    var startAt := zeroCount;
    SignificantBytes(tmp[..length]);
    assert tmp[..length][zeroCount..] == tmp[zeroCount..length];
    HoldsNothing(buffer[..], start);
    while startAt < length
      invariant zeroCount <= startAt <= length
      invariant startAt < length ==> tmp[startAt] != 0
      invariant digits == Minimal(58, BigEndian(tmp[startAt..length])) + ds
      invariant Holds(buffer[..], start, j, ds) && IsNumeral(58, ds)
      decreases length - startAt, BigEndian(tmp[startAt..length])
    {
      ghost var a := tmp[startAt..length];
      NonZeroValue(a);
      label Before:
      var remainder := DivideInPlace(tmp, startAt, length);
      ghost var q := tmp[startAt..length];
      assert old@Before(tmp[startAt..length]) == a;
      NextDigit(BigEndian(a), BigEndian(q), remainder, ds);
      if tmp[startAt] == 0 {
        NextStart(a, q, remainder);
        assert q[1..] == tmp[startAt + 1..length];
        assert |q| > 1 ==> q[1] == tmp[startAt + 1];
        startAt := startAt + 1;
      }
      j, ok := WriteLetter(buffer, start, j, remainder, ds);
      if !ok {
        return;
      }
      ds := [remainder] + ds;
    }
    ValueEmpty(256, tmp[startAt..length]);
    MinimalZero();
    assert digits == ds;
    HoldsFits(buffer[..], start, j, ds);
    ok := true;
  }

  lemma HoldsNothing(b: seq<char>, start: nat)
    ensures Holds(b, start, start, [])
  {
  }

  lemma HoldsFits(b: seq<char>, start: nat, j: nat, ds: seq<nat>)
    requires Holds(b, start, j, ds) && |b| == SCRATCH
    ensures Fits(start, |ds|)
  {
  }

  /** When the quotient begins with a zero byte that byte is skipped, and the next one is not zero. */
  lemma NextStart(a: seq<Byte>, q: seq<Byte>, r: nat)
    requires |a| == |q| >= 1 && a[0] != 0 && q[0] == 0 && r < 58 && BigEndian(a) == BigEndian(q) * 58 + r
    ensures BigEndian(q[1..]) == BigEndian(q) && (|q| > 1 ==> q[1] != 0)
  {
    DropZero(q);
    if |a| > 1 {
      QuotientTop(a, q, r);
    }
  }

  lemma MinimalZero()
    ensures Minimal(58, 0) == []
  {
  }

  lemma NonZeroValue(a: seq<Byte>)
    requires a != [] && a[0] != 0
    ensures BigEndian(a) > 0
  {
    ValueAtLeast(256, a);
    PowPositive(256, |a| - 1);
  }

  lemma SignificantBytes(s: seq<Byte>)
    ensures BigEndian(s[Zeros(s)..]) == BigEndian(s)
  {
    BytesSplit(s);
  }

  /** `encodeBase58`; it is defined for the lengths up to 82 and above 164 (ScratchExact). */
  method EncodeBase58(input: seq<Byte>, out: array<Byte>, maxOutLen: nat) returns (r: Outcome)
    requires |input| <= 82 && |Encode(input)| <= maxOutLen ==> |Encode(input)| <= out.Length
    modifies out
    ensures r == if |input| > SCRATCH then InvalidParameter
                 else if !StaysInScratch(input) || !TrimsWritten(input) then Undefined
                 else if |Encode(input)| > maxOutLen then Overflow
                 else Length(|Encode(input)|)
    ensures r.Undefined? <==> 82 < |input| <= SCRATCH
    ensures r.Length? ==> out[..] == Ascii(Encode(input)) + old(out[|Encode(input)|..])
    ensures !r.Length? ==> out[..] == old(out[..])
  {
    hide Value, Minimal, Letters, Letter, Encode, Zeros, BigEndian, Ascii, Buffers.Put, Holds;
    hide StaysInScratch, TrimsWritten;
    if |input| > SCRATCH {
      return InvalidParameter;
    }
    ScratchExact(input);
    FitsScratch(input);
    EncodeIs(input);
    var length := |input|;
    var tmp, buffer := new Byte[SCRATCH], new char[SCRATCH];
    Buffers.PutFront(tmp[..], input);
    Buffers.Write(tmp, 0, input);
    assert tmp[..length] == tmp[..][..length] == input;

    var zeroCount := CountZeros(tmp, length);
    ghost var ds := Minimal(58, BigEndian(input));
    NoDigitsOfZero(BigEndian(input));
    var j, ok := FillDigits(tmp, buffer, length, zeroCount, ds);
    if !ok {
      return Undefined;
    }
    j, ok := SkipOnes(buffer, Start(length), j, 2 * length, ds);
    if !ok {
      return Undefined;
    }
    j, ok := PrependOnes(buffer, Start(length), j, zeroCount, ds);
    if !ok {
      return Undefined;
    }
    length := 2 * length - j;
    TextHeld(buffer[..], Start(|input|), j, ZeroDigits(zeroCount) + ds);
    if maxOutLen < length {
      return Overflow;
    }
    Buffers.PutFront(out[..], Ascii(buffer[j..j + length]));
    Buffers.Write(out, 0, Ascii(buffer[j..j + length]));
    r := Length(length);
  }

  lemma NoDigitsOfZero(n: nat)
    ensures Minimal(58, n) == [] <==> n == 0
  {
  }

  lemma TextHeld(b: seq<char>, start: nat, j: nat, ds: seq<nat>)
    requires Holds(b, start, j, ds) && start <= |b|
    ensures b[j..start] == Letters(ds) && start - j == |ds|
  {
  }

  method CountZeros(tmp: array<Byte>, length: nat) returns (zeroCount: nat)
    requires length <= tmp.Length
    ensures zeroCount == Zeros(tmp[..length])
  {
    zeroCount := 0;
    while zeroCount < length && tmp[zeroCount] == 0
      invariant 0 <= zeroCount <= length
      invariant forall i :: 0 <= i < zeroCount ==> tmp[i] == 0
    {
      zeroCount := zeroCount + 1;
    }
    ZerosUnique(tmp[..length], zeroCount);
  }

  /** The trimming loop never trims, the digits being minimal; without digits it must find nothing to read. */
  method SkipOnes(buffer: array<char>, start: nat, j0: nat, end: nat, ghost ds: seq<nat>) returns (j: nat, ok: bool)
    requires buffer.Length == SCRATCH && Holds(buffer[..], start, j0, ds) && (ds != [] ==> ds[0] != 0)
    requires start <= end
    ensures ok <==> ds != [] || start == end
    ensures ok ==> j == j0
  {
    hide Letters, Letter;
    j := j0;
    while j < end && (j >= start || buffer[j] == '1')
      invariant j0 <= j <= end
      invariant j > j0 ==> j0 < start && buffer[j0] == '1'
    {
      if j >= start {
        FirstHeld(buffer[..], start, j0, ds);
        return j, false;
      }
      j := j + 1;
    }
    FirstHeld(buffer[..], start, j0, ds);
    ok := true;
  }

  /** The first of the minimal digits is never written '1'. */
  lemma FirstHeld(b: seq<char>, start: nat, j: nat, ds: seq<nat>)
    requires |b| == SCRATCH && Holds(b, start, j, ds) && (ds != [] ==> ds[0] != 0)
    ensures ds != [] <==> j < start
    ensures ds != [] ==> b[j] != '1'
  {
    hide Letter;
    if ds != [] {
      FirstLetter(ds);
      assert b[j] == b[j..start][0];
    }
  }

  /** The leading ones, one for each leading zero byte. */
  method PrependOnes(buffer: array<char>, start: nat, j0: nat, zeroCount0: nat, ghost ds: seq<nat>)
    returns (j: nat, ok: bool)
    requires buffer.Length == SCRATCH && start < 256 && Holds(buffer[..], start, j0, ds)
    modifies buffer
    ensures ok <==> Fits(start, zeroCount0 + |ds|)
    ensures ok ==> Holds(buffer[..], start, j, ZeroDigits(zeroCount0) + ds)
  {
    hide Letters, Letter, Holds;
    var zeroCount := zeroCount0;
    j, ok := j0, true;
    NoZerosBefore(ds);
    while zeroCount > 0
      invariant 0 <= zeroCount <= zeroCount0
      invariant Holds(buffer[..], start, j, ZeroDigits(zeroCount0 - zeroCount) + ds)
    {
      ghost var n := zeroCount0 - zeroCount;
      OneMoreZero(n, ds);
      zeroCount := zeroCount - 1;
      j, ok := WriteLetter(buffer, start, j, 0, ZeroDigits(n) + ds);
      if !ok {
        return;
      }
    }
    HoldsFits(buffer[..], start, j, ZeroDigits(zeroCount0) + ds);
    ok := true;
  }

  lemma NoZerosBefore(ds: seq<nat>)
    ensures ZeroDigits(0) + ds == ds
  {
  }

  lemma OneMoreZero(n: nat, ds: seq<nat>)
    ensures ZeroDigits(n + 1) + ds == [0] + (ZeroDigits(n) + ds)
  {
  }

  lemma ZerosUnique(s: seq<Byte>, z: nat)
    requires z <= |s| && (forall i :: 0 <= i < z ==> s[i] == 0) && (z < |s| ==> s[z] != 0)
    ensures Zeros(s) == z
  {
  }

  /** The first of the minimal digits is never written '1'. */
  lemma FirstLetter(ds: seq<nat>)
    requires IsNumeral(58, ds) && (ds != [] ==> ds[0] != 0)
    ensures ds != [] ==> Letters(ds)[0] != '1'
  {
    if ds != [] {
      DigitOfLetter(ds[0]);
    }
  }

  lemma EncodeIs(s: seq<Byte>)
    ensures Encode(s) == Letters(ZeroDigits(Zeros(s)) + Minimal(58, BigEndian(s)))
  {
  }

  // ---------- fixed-width blocks ----------

  /** `uint_8be_to_64`: the switch on 9 - size falls through to its last case. */
  method Uint8beTo64(data: seq<Byte>, size: nat) returns (res: nat)
    requires size <= 8 && size <= |data|
    ensures res == BigEndian(data[..size]) < TWO_64
  {
    hide Value;
    var at := 0;
    res := 0;
    ValueEmpty(256, data[..0]);
    if 9 - size <= 1 { res, at := NextByte(data, size, res, at); }
    if 9 - size <= 2 { res, at := NextByte(data, size, res, at); }
    if 9 - size <= 3 { res, at := NextByte(data, size, res, at); }
    if 9 - size <= 4 { res, at := NextByte(data, size, res, at); }
    if 9 - size <= 5 { res, at := NextByte(data, size, res, at); }
    if 9 - size <= 6 { res, at := NextByte(data, size, res, at); }
    if 9 - size <= 7 { res, at := NextByte(data, size, res, at); }
    if 9 - size <= 8 { res, at := NextByte(data, size, res, at); }
  }

  /** One case of the switch: shift by eight bits and set the low byte. */
  method NextByte(data: seq<Byte>, size: nat, res: nat, at: nat) returns (res': nat, at': nat)
    requires at < size <= |data| && size <= 8 && res == BigEndian(data[..at])
    ensures at' == at + 1 && res' == BigEndian(data[..at']) < TWO_64
  {
    ShiftFits(data[..at], data[at]);
    assert data[..at] + [data[at]] == data[..at + 1];
    res', at' := (res * 256) % TWO_64 + data[at], at + 1;
  }

  /** Shifting by eight bits loses nothing in the first eight bytes, and the low byte is then free. */
  lemma ShiftFits(s: seq<Byte>, b: Byte)
    requires |s| < 8
    ensures (BigEndian(s) * 256) % TWO_64 + b == BigEndian(s + [b]) < TWO_64
  {
    ValueAppend(256, s, b);
    BigEndianBound(s + [b]);
    BigEndianBound(s);
    PowersOf256();
    PowMonotonic(256, |s| + 1, 8);
  }

  /** What a block is written as: its value in as many base-58 digits as the largest value needs. */
  function BlockText(block: seq<Byte>): (text: string)
    requires |block| <= 8
    ensures |text| == BlockSize(|block|)
  {
    Letters(Digits(58, BigEndian(block), BlockSize(|block|)))
  }

  /** `encode_block`: the digits fill the result from its end; the rest of the buffer is untouched. */
  method EncodeBlock(block: seq<Byte>, size: nat, res: array<char>)
    requires size <= 8 && size <= |block| && BlockSize(size) <= res.Length
    modifies res
    ensures res[..] == BlockText(block[..size]) + old(res[BlockSize(size)..])
  {
    hide Value, Letters, Letter, Digits;
    var num := Uint8beTo64(block, size);
    ghost var n, width := num, BlockSize(size);
    ghost var ds: seq<nat> := [];
    var i := BlockSize(size);
    LettersEmpty();
    while i > 0
      invariant 0 <= i <= width && i + |ds| == width && IsNumeral(58, ds)
      invariant Digits(58, n, width) == Digits(58, num, i) + ds
      invariant res[i..width] == Letters(ds) && res[width..] == old(res[width..])
    {
      DigitsStep(num, i, ds);
      NextLetter(num % 58, ds);
      ghost var letters := res[i..width];
      i := i - 1;
      var remainder := num % 58;
      num := num / 58;
      res[i] := Letter(remainder);
      assert res[i..width] == [Letter(remainder)] + letters;
      ds := [remainder] + ds;
    }
    NoDigits(num);
    assert ds == Digits(58, n, width);
    assert res[..] == res[0..width] + res[width..];
  }

  lemma LettersEmpty()
    ensures Letters([]) == []
  {
  }

  lemma DigitsStep(n: nat, k: nat, ds: seq<nat>)
    requires k > 0
    ensures Digits(58, n, k) + ds == Digits(58, n / 58, k - 1) + ([n % 58] + ds)
  {
  }

  lemma NextLetter(r: nat, ds: seq<nat>)
    requires r < 58 && IsNumeral(58, ds)
    ensures IsNumeral(58, [r] + ds) && Letters([r] + ds) == [Letter(r)] + Letters(ds)
  {
  }

  lemma NoDigits(n: nat)
    ensures Digits(58, n, 0) == []
  {
  }

  /** The width is enough, so the block is recovered from its text and its size. */
  lemma BlockLossless(block: seq<Byte>)
    requires |block| <= 8
    ensures TextDigits(BlockText(block)).Some?
    ensures var n := Value(58, TextDigits(BlockText(block)).value);
            n < Pow(256, |block|) && ToBigEndian(n, |block|) == block
  {
    var n, width := BigEndian(block), BlockSize(|block|);
    BigEndianBound(block);
    BlockFits(|block|);
    LettersRead(Digits(58, n, width));
    ValueOfDigits(58, n, width);
    BigEndianInjective(ToBigEndian(n, |block|), block);
  }
}
