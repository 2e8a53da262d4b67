/**
  The field prime 2^255 - 19 is prime, and 121665 is not a square modulo it.

  Pocklington's criterion reduces each prime to prime factors of its predecessor. The literals
  below are the residues met while a small base is raised, octal digit by octal digit, to the
  certified exponents; each line checks one step.
 */
module PrimeCertificate {
  import opened Arithmetic
  import opened NumberTheory

  const Q: int := 0x7fffffffffffffffffffffffffffffffffffffffffffffffffffffffffffffed
  const P51: int := 1919519569386763
  const P116: int := 75445702479781427272750846543864801
  const P236: int := 74058212732561358302231226437062788676166966415465897661863160754340907

  // ---------- helpers ----------

  /** Residues of successive powers of a base. */
  lemma Next(b: int, k: nat, x: int, y: int, n: int)
    requires n > 0 && PowerIs(b, k, x, n) && (b * x) % n == y
    ensures PowerIs(b, k + 1, y, n)
  {
    CongMod(Pow(b, k), n);
    CongMul(b, b, Pow(b, k), x, n);
  }

  /** The power of `a` that is one, from a power of a power. */
  lemma UnitPower(n: int, a: int, m: nat, c: int, g: nat)
    requires n >= 2 && n - 1 == m * g && PowerIs(a, m, c, n) && PowerIs(c, g, 1, n)
    ensures PowerIs(a, n - 1, 1, n)
  {
    PowMul(a, m, g);
    CongMod(Pow(a, m), n);
    CongPow(c, Pow(a, m), g, n);
  }

  lemma Certify(n: int, a: int, m: nat, b: int, f: nat, inverse: int)
    requires n >= 2 && n - 1 == m * f && PowerIs(a, m, b, n) && PowerIs(a, n - 1, 1, n)
    requires IsPrime(f) && ((b - 1) * inverse) % n == 1
    ensures Certifies(n, f, b, inverse)
  {
    PowMul(a, m, f);
    CongMod(Pow(a, m), n);
    CongPow(b, Pow(a, m), f, n);
    DivModUnique(1, n, 0, 1);
  }

  lemma FirstPowers(b: int, n: int)
    requires 0 <= b < n && 1 < n
    ensures PowerIs(b, 0, 1, n) && PowerIs(b, 1, b, n)
  {
    DivModUnique(1, n, 0, 1);
    DivModUnique(b, n, 0, b);
    assert Pow(b, 1) == b;
  }

  lemma SmallPowersOfTwo(n: int)
    requires n > 128
    ensures PowerIs(2, 0, 1, n) && PowerIs(2, 1, 2, n) && PowerIs(2, 2, 4, n) && PowerIs(2, 3, 8, n)
    ensures PowerIs(2, 4, 16, n) && PowerIs(2, 5, 32, n) && PowerIs(2, 6, 64, n) && PowerIs(2, 7, 128, n)
  {
    assert Pow(2, 3) == 8;
    assert Pow(2, 5) == 32;
    assert Pow(2, 7) == 128;
  }

  lemma SquareOfMinusOne(a: int, h: nat, n: int)
    requires n >= 2 && 2 * h == n - 1 && Cong(Pow(a, h), -1, n)
    ensures PowerIs(a, n - 1, 1, n)
  {
    PowAdd(a, h, h);
    CongMul(Pow(a, h), -1, Pow(a, h), -1, n);
    DivModUnique(1, n, 0, 1);
  }

  lemma CancelFactor(a: int, t: int, inverse: int, n: int)
    requires n >= 2 && Cong(a * t, -t, n) && Cong(t * inverse, 1, n)
    ensures Cong(a, -1, n)
  {
    CongMul(a * t, -t, inverse, inverse, n);
    CongMul(t * inverse, 1, a, a, n);
    CongMul(t * inverse, 1, -1, -1, n);
    MulAssoc(a, t, inverse);
    MulAssoc(-1, t, inverse);
  }

  /** Divide a known residue by the tenth power of the base. */
  lemma CancelTenth(g: int, e: nat, x: int, t: int, inverse: int, n: int)
    requires n >= 2 && e >= 10 && PowerIs(g, e, x, n) && Pow(g, 10) == t
    requires (x + t) % n == 0 && (t * inverse) % n == 1
    ensures Cong(Pow(g, e - 10), -1, n)
  {
    PowAdd(g, e - 10, 10);
    CongMod(Pow(g, e), n);
    CongIntro(x, -t, n, (x + t) / n);
    DivModUnique(1, n, 0, 1);
    CancelFactor(Pow(g, e - 10), t, inverse, n);
  }

  // ---------- the certificate ----------

  lemma Prime11()
    ensures IsPrime(11)
  {
    assert 11 % 2 != 0 && 11 % 3 != 0;
    TrialDivision(11, 4);
  }

  lemma Prime3()
    ensures IsPrime(3)
  {
    TrialDivision(3, 2);
  }

  lemma Prime991Cofactor() returns (e: nat, x: int)
    ensures e == 330 && x == 113 && PowerIs(2, e, x, 991)
  {
    hide PowerIs, Pow;
    SmallPowersOfTwo(991);
    e, x := 5, 32;
    e, x := Climb(2, e, x, 1, 2, 379, 991);
    e, x := Climb(2, e, x, 2, 4, 113, 991);
  }

  lemma Prime991Power() returns (e: nat, x: int)
    ensures e == 90 && x == 50 && PowerIs(2, e, x, 991)
  {
    hide PowerIs, Pow;
    SmallPowersOfTwo(991);
    e, x := 1, 2;
    e, x := Climb(2, e, x, 3, 8, 66, 991);
    e, x := Climb(2, e, x, 2, 4, 50, 991);
  }

  lemma Prime991()
    ensures IsPrime(991)
  {
    hide IsPrime, Certifies, PowerIs, Pow;
    Prime11();
    Prime3();
    var m, c := Prime991Cofactor();
    var k, b := Prime991Power();
    FirstPowers(c, 991);
    Next(c, 1, 113, 877, 991);
    Next(c, 2, 877, 1, 991);
    UnitPower(991, 2, m, c, 3);
    Certify(991, 2, m, c, 3, 292);
    Certify(991, 2, k, b, 11, 809);
    PocklingtonTwo(991, 32, 11, b, 809, 3, c, 292);
  }

  lemma Prime8574133Cofactor() returns (e: nat, x: int)
    ensures e == 0x2b9c3c && x == 0x6c0491 && PowerIs(2, e, x, 8574133)
  {
    hide PowerIs, Pow;
    SmallPowersOfTwo(8574133);
    e, x := 1, 2;
    e, x := Climb(2, e, x, 2, 4, 1024, 8574133);
    e, x := Climb(2, e, x, 7, 128, 0x61c514, 8574133);
    e, x := Climb(2, e, x, 1, 2, 0x72823f, 8574133);
    e, x := Climb(2, e, x, 6, 64, 0x3c054c, 8574133);
    e, x := Climb(2, e, x, 0, 1, 0x61530f, 8574133);
    e, x := Climb(2, e, x, 7, 128, 0x69458f, 8574133);
    e, x := Climb(2, e, x, 4, 16, 0x6c0491, 8574133);
  }

  lemma Prime8574133Power() returns (e: nat, x: int)
    ensures e == 8652 && x == 0x346cd1 && PowerIs(2, e, x, 8574133)
  {
    hide PowerIs, Pow;
    SmallPowersOfTwo(8574133);
    e, x := 2, 4;
    e, x := Climb(2, e, x, 0, 1, 0x10000, 8574133);
    e, x := Climb(2, e, x, 7, 128, 0x69105, 8574133);
    e, x := Climb(2, e, x, 1, 2, 0x1e917b, 8574133);
    e, x := Climb(2, e, x, 4, 16, 0x346cd1, 8574133);
  }

  lemma Prime8574133()
    ensures IsPrime(8574133)
  {
    hide IsPrime, Certifies, PowerIs, Pow;
    Prime991();
    Prime3();
    var m, c := Prime8574133Cofactor();
    var k, b := Prime8574133Power();
    FirstPowers(c, 8574133);
    Next(c, 1, 0x6c0491, 0x16d023, 8574133);
    Next(c, 2, 0x16d023, 1, 8574133);
    UnitPower(8574133, 2, m, c, 3);
    Certify(8574133, 2, m, c, 3, 0x79ab6);
    Certify(8574133, 2, k, b, 991, 0xf79eb);
    PocklingtonTwo(8574133, 2929, 991, b, 0xf79eb, 3, c, 0x79ab6);
  }

  lemma Prime7()
    ensures IsPrime(7)
  {
    assert 7 % 2 != 0;
    TrialDivision(7, 3);
  }

  lemma PrimeP51Cofactor() returns (e: nat, x: int)
    ensures e == 0xf96623b98426 && x == 0x3feed21da4894 && PowerIs(2, e, x, P51)
  {
    hide PowerIs, Pow;
    SmallPowersOfTwo(P51);
    e, x := 7, 128;
    e, x := Climb(2, e, x, 6, 64, 0x38d819d5a7eca, P51);
    e, x := Climb(2, e, x, 2, 4, 0x328fbc0f81066, P51);
    e, x := Climb(2, e, x, 6, 64, 0x2379f65834469, P51);
    e, x := Climb(2, e, x, 3, 8, 0x1e175a57a8c44, P51);
    e, x := Climb(2, e, x, 0, 1, 0x658de3d0e90b5, P51);
    e, x := Climb(2, e, x, 4, 16, 0x6a215a150a5ec, P51);
    e, x := Climb(2, e, x, 3, 8, 0x151dd380e56b6, P51);
    e, x := Climb(2, e, x, 5, 32, 0x14d05b8e48275, P51);
    e, x := Climb(2, e, x, 6, 64, 0x5249f6666a6f0, P51);
    e, x := Climb(2, e, x, 3, 8, 0x57057c978f9cf, P51);
    e, x := Climb(2, e, x, 0, 1, 0x61a4c6bbcbe23, P51);
    e, x := Climb(2, e, x, 2, 4, 0x604a314cb1663, P51);
    e, x := Climb(2, e, x, 0, 1, 0x30f38d1a6beb4, P51);
    e, x := Climb(2, e, x, 4, 16, 0x6a68fcc25e89a, P51);
    e, x := Climb(2, e, x, 6, 64, 0x3feed21da4894, P51);
  }

  lemma PrimeP51Power() returns (e: nat, x: int)
    ensures e == 0xd580922 && x == 0x3c3ffdef7c0b1 && PowerIs(2, e, x, P51)
  {
    hide PowerIs, Pow;
    SmallPowersOfTwo(P51);
    e, x := 1, 2;
    e, x := Climb(2, e, x, 5, 32, 8192, P51);
    e, x := Climb(2, e, x, 2, 4, 0x3bb9bdc82f6e4, P51);
    e, x := Climb(2, e, x, 6, 64, 0x404d9a606b02c, P51);
    e, x := Climb(2, e, x, 0, 1, 0x42d8f2a2ec64a, P51);
    e, x := Climb(2, e, x, 0, 1, 0x4eb4d9d00b27c, P51);
    e, x := Climb(2, e, x, 4, 16, 0x5772cd6bce94b, P51);
    e, x := Climb(2, e, x, 4, 16, 0xfeb816ba61af, P51);
    e, x := Climb(2, e, x, 4, 16, 0x38f03576a55f7, P51);
    e, x := Climb(2, e, x, 2, 4, 0x3c3ffdef7c0b1, P51);
  }

  lemma PrimeP51()
    ensures IsPrime(P51)
  {
    hide IsPrime, Certifies, PowerIs, Pow;
    Prime8574133();
    Prime7();
    var m, c := PrimeP51Cofactor();
    var k, b := PrimeP51Power();
    FirstPowers(c, P51);
    Next(c, 1, 0x3feed21da4894, 0xdbb9693eefd1, P51);
    Next(c, 2, 0xdbb9693eefd1, 0x5fe78ad2b010b, P51);
    Next(c, 3, 0x5fe78ad2b010b, 0x1cdd6d981d071, P51);
    Next(c, 4, 0x1cdd6d981d071, 0x63e7495088b83, P51);
    Next(c, 5, 0x63e7495088b83, 0x18ff6476941bc, P51);
    Next(c, 6, 0x18ff6476941bc, 1, P51);
    UnitPower(P51, 2, m, c, 7);
    Certify(P51, 2, m, c, 7, 0x26bd6058faef6);
    Certify(P51, 2, k, b, 8574133, 0x495bef080ea35);
    PocklingtonTwo(P51, 43812323, 8574133, b, 0x495bef080ea35, 7, c, 0x26bd6058faef6);
  }

  lemma Prime83()
    ensures IsPrime(83)
  {
    assert 83 % 2 != 0 && 83 % 3 != 0 && 83 % 4 != 0 && 83 % 5 != 0 && 83 % 6 != 0 && 83 % 7 != 0 && 83 % 8 != 0
           && 83 % 9 != 0;
    TrialDivision(83, 10);
  }

  lemma Prime2()
    ensures IsPrime(2)
  {
    TrialDivision(2, 2);
  }

  lemma Prime9463Cofactor() returns (e: nat, x: int)
    ensures e == 4731 && x == 9462 && PowerIs(3, e, x, 9463)
  {
    hide PowerIs, Pow;
    FirstPowers(3, 9463);
    Next(3, 1, 3, 9, 9463);
    Next(3, 2, 9, 27, 9463);
    Next(3, 3, 27, 81, 9463);
    Next(3, 4, 81, 243, 9463);
    Next(3, 5, 243, 729, 9463);
    Next(3, 6, 729, 2187, 9463);
    e, x := 1, 3;
    e, x := Climb(3, e, x, 1, 3, 757, 9463);
    e, x := Climb(3, e, x, 1, 3, 8447, 9463);
    e, x := Climb(3, e, x, 7, 2187, 3134, 9463);
    e, x := Climb(3, e, x, 3, 27, 9462, 9463);
  }

  lemma Prime9463Power() returns (e: nat, x: int)
    ensures e == 114 && x == 8732 && PowerIs(3, e, x, 9463)
  {
    hide PowerIs, Pow;
    FirstPowers(3, 9463);
    Next(3, 1, 3, 9, 9463);
    Next(3, 2, 9, 27, 9463);
    Next(3, 3, 27, 81, 9463);
    Next(3, 4, 81, 243, 9463);
    Next(3, 5, 243, 729, 9463);
    e, x := 1, 3;
    e, x := Climb(3, e, x, 6, 729, 4154, 9463);
    e, x := Climb(3, e, x, 2, 9, 8732, 9463);
  }

  lemma Prime9463()
    ensures IsPrime(9463)
  {
    hide IsPrime, Certifies, PowerIs, Pow;
    Prime83();
    Prime2();
    var m, c := Prime9463Cofactor();
    var k, b := Prime9463Power();
    FirstPowers(c, 9463);
    Next(c, 1, 9462, 1, 9463);
    UnitPower(9463, 3, m, c, 2);
    Certify(9463, 3, m, c, 2, 4731);
    Certify(9463, 3, k, b, 83, 6606);
    PocklingtonTwo(9463, 98, 83, b, 6606, 2, c, 4731);
  }

  lemma Prime37853Order() returns (e: nat, x: int)
    ensures e == 37852 && x == 1 && PowerIs(2, e, x, 37853)
  {
    hide PowerIs, Pow;
    SmallPowersOfTwo(37853);
    e, x := 1, 2;
    e, x := Climb(2, e, x, 1, 2, 512, 37853);
    e, x := Climb(2, e, x, 1, 2, 19756, 37853);
    e, x := Climb(2, e, x, 7, 128, 29212, 37853);
    e, x := Climb(2, e, x, 3, 8, 8396, 37853);
    e, x := Climb(2, e, x, 4, 16, 1, 37853);
  }

  lemma Prime37853()
    ensures IsPrime(37853)
  {
    hide IsPrime, Certifies, PowerIs, Pow;
    Prime9463();
    var e, x := Prime37853Order();
    SmallPowersOfTwo(37853);
    Certify(37853, 2, 4, 16, 9463, 32806);
    PocklingtonOne(37853, 9463, 16, 32806);
  }

  lemma Prime75707Order() returns (e: nat, x: int)
    ensures e == 0x127ba && x == 1 && PowerIs(2, e, x, 75707)
  {
    hide PowerIs, Pow;
    SmallPowersOfTwo(75707);
    e, x := 2, 4;
    e, x := Climb(2, e, x, 2, 4, 35023, 75707);
    e, x := Climb(2, e, x, 3, 8, 65384, 75707);
    e, x := Climb(2, e, x, 6, 64, 2897, 75707);
    e, x := Climb(2, e, x, 7, 128, 0x10770, 75707);
    e, x := Climb(2, e, x, 2, 4, 1, 75707);
  }

  lemma Prime75707()
    ensures IsPrime(75707)
  {
    hide IsPrime, Certifies, PowerIs, Pow;
    Prime37853();
    var e, x := Prime75707Order();
    SmallPowersOfTwo(75707);
    Certify(75707, 2, 2, 4, 37853, 25236);
    PocklingtonOne(75707, 37853, 4, 25236);
  }

  lemma PrimeP116Cofactor1() returns (e: nat, x: int)
    ensures e == 0x3250169f1b77 && x == 0x3a3c58df78393be5a6b884566e7e4 && PowerIs(2, e, x, P116)
  {
    hide PowerIs, Pow;
    SmallPowersOfTwo(P116);
    e, x := 1, 2;
    e, x := Climb(2, e, x, 4, 16, 4096, P116);
    e, x := Climb(2, e, x, 4, 16, 0x10000000000000000000000000, P116);
    e, x := Climb(2, e, x, 5, 32, 0x6a18ac3ffcd86000000000000, P116);
    e, x := Climb(2, e, x, 0, 1, 0x8f31af9c424371bf5ade407761822, P116);
    e, x := Climb(2, e, x, 0, 1, 0x7bf7d983f005dbf244bc78a62bd26, P116);
    e, x := Climb(2, e, x, 2, 4, 0x4794b895c52c36c211abbea93c267, P116);
    e, x := Climb(2, e, x, 6, 64, 0x8ae49ee92ad10a54b63d212e1cc9d, P116);
    e, x := Climb(2, e, x, 4, 16, 0x96234b5e23e113a7947260bf14eba, P116);
    e, x := Climb(2, e, x, 7, 128, 0x85111b977aac78da0c8fe36326949, P116);
    e, x := Climb(2, e, x, 6, 64, 0x48b5d71ff5824495fd24f81827173, P116);
    e, x := Climb(2, e, x, 1, 2, 0x451642b7ec00c6ea0f5def361a7fb, P116);
    e, x := Climb(2, e, x, 5, 32, 0x80699cade34461d3b21419b8daa33, P116);
    e, x := Climb(2, e, x, 5, 32, 0xd58d4c10ca33ba64f0904b2d8096e, P116);
    e, x := Climb(2, e, x, 6, 64, 0x5719c8587775955315e7ee5299a71, P116);
    e, x := Climb(2, e, x, 7, 128, 0x3a3c58df78393be5a6b884566e7e4, P116);
  }

  lemma PrimeP116Cofactor2() returns (e: nat, x: int)
    ensures e == 0x64a02d3e36effc4e85f7a3e && x == 0xdda4a108574188f56a46eefcec36f && PowerIs(2, e, x, P116)
  {
    hide PowerIs, Pow;
    SmallPowersOfTwo(P116);
    e, x := PrimeP116Cofactor1();
    e, x := Climb(2, e, x, 7, 128, 0xadd88b1b7410e4058e0df96cba466, P116);
    e, x := Climb(2, e, x, 7, 128, 0x3a0a481bee591fb4c659fd15c083a, P116);
    e, x := Climb(2, e, x, 4, 16, 0x3358c7d520f101bdd4019ad008bb3, P116);
    e, x := Climb(2, e, x, 2, 4, 0xb4a424de1afb1ae326c93793cae18, P116);
    e, x := Climb(2, e, x, 3, 8, 0xca7696e01578b05f0b028f203dc0d, P116);
    e, x := Climb(2, e, x, 5, 32, 0x7e49099cae33582123ef77c754c75, P116);
    e, x := Climb(2, e, x, 0, 1, 0x95675ccee765b64e2561c22eeadf7, P116);
    e, x := Climb(2, e, x, 2, 4, 0x89b04009c1d413e6ec8f21761fc2f, P116);
    e, x := Climb(2, e, x, 7, 128, 0xbec887ef2d34495831c7e9cb0c0c, P116);
    e, x := Climb(2, e, x, 6, 64, 0x97e2eb210f9b701674c604cb7b4b0, P116);
    e, x := Climb(2, e, x, 7, 128, 0x2ffe29a79e6661556939bf531633, P116);
    e, x := Climb(2, e, x, 5, 32, 0x324c53e2cc3865e504070f6a9c244, P116);
    e, x := Climb(2, e, x, 0, 1, 0x2eea35faf60601f4df11bdf78e5e1, P116);
    e, x := Climb(2, e, x, 7, 128, 0xacbdeaa551bc4b25a0788a2ec5f10, P116);
    e, x := Climb(2, e, x, 6, 64, 0xdda4a108574188f56a46eefcec36f, P116);
  }

  lemma PrimeP116Cofactor() returns (e: nat, x: int)
    ensures e == 0xc9405a7c6ddff89d0bef47da0 && x == 0xb52295a2da9f8731db89340ad8f16 && PowerIs(2, e, x, P116)
  {
    hide PowerIs, Pow;
    SmallPowersOfTwo(P116);
    e, x := PrimeP116Cofactor2();
    e, x := Climb(2, e, x, 6, 64, 0x49f4c4e4cbb0be1071d295caf6c07, P116);
    e, x := Climb(2, e, x, 4, 16, 0x2c023cb124d9614045c3f8f91116b, P116);
    e, x := Climb(2, e, x, 0, 1, 0xb52295a2da9f8731db89340ad8f16, P116);
  }

  lemma PrimeP116Order() returns (e: nat, x: int)
    ensures e == 0x127bb && x == 1 && PowerIs(0xb52295a2da9f8731db89340ad8f16, e, x, P116)
  {
    hide PowerIs, Pow;
    var b := 0xb52295a2da9f8731db89340ad8f16;
    FirstPowers(b, P116);
    Next(b, 1, 0xb52295a2da9f8731db89340ad8f16, 0x3b62fbf0454bfca4ca95012ca0a4e, P116);
    Next(b, 2, 0x3b62fbf0454bfca4ca95012ca0a4e, 0x192a4f7fe39cf2a756bb0a1d6643d, P116);
    Next(b, 3, 0x192a4f7fe39cf2a756bb0a1d6643d, 0x2174c0a841e2df47e13363bef9ea2, P116);
    Next(b, 4, 0x2174c0a841e2df47e13363bef9ea2, 0x9a921f1a9f8d613d44e3e39850556, P116);
    Next(b, 5, 0x9a921f1a9f8d613d44e3e39850556, 0xddf8bfad83f2802fad346d23b5d31, P116);
    Next(b, 6, 0xddf8bfad83f2802fad346d23b5d31, 0x61cb77938da609739ab73ddbaadcd, P116);
    e, x := 2, 0x3b62fbf0454bfca4ca95012ca0a4e;
    e, x := Climb(b, e, x, 2, 0x3b62fbf0454bfca4ca95012ca0a4e, 0xcfd659340de94c881dab80db7037e, P116);
    e, x := Climb(b, e, x, 3, 0x192a4f7fe39cf2a756bb0a1d6643d, 0xadc8d7fe15e40d703b1ef31a9a854, P116);
    e, x := Climb(b, e, x, 6, 0xddf8bfad83f2802fad346d23b5d31, 0xb9bb4aa8ec80f1b5aa6826013cdb6, P116);
    e, x := Climb(b, e, x, 7, 0x61cb77938da609739ab73ddbaadcd, 0x70bf163d20d729e8374cd4e4286d6, P116);
    e, x := Climb(b, e, x, 3, 0x192a4f7fe39cf2a756bb0a1d6643d, 1, P116);
  }

  lemma PrimeP116Power1() returns (e: nat, x: int)
    ensures e == 0x885d622dad3d && x == 0x77cd05566e32877c6fb20cfb413b0 && PowerIs(2, e, x, P116)
  {
    hide PowerIs, Pow;
    SmallPowersOfTwo(P116);
    e, x := 4, 16;
    e, x := Climb(2, e, x, 2, 4, 0x400000000, P116);
    e, x := Climb(2, e, x, 0, 1, 0x17dbb00000, P116);
    e, x := Climb(2, e, x, 5, 32, 0xa868cd4e3f37a9c111b58cd538fa6, P116);
    e, x := Climb(2, e, x, 6, 64, 0xda7fef63e9d7012b44eb0b43a967b, P116);
    e, x := Climb(2, e, x, 5, 32, 0xc5a158f0a198c844e78c5278e7e52, P116);
    e, x := Climb(2, e, x, 4, 16, 0xa408a65f29ca1e95758135af3e099, P116);
    e, x := Climb(2, e, x, 2, 4, 0x70393e8f73104ca3641dc4c0d9ecf, P116);
    e, x := Climb(2, e, x, 1, 2, 0xbf86be0836a3f23e7b5aaf7dd85db, P116);
    e, x := Climb(2, e, x, 3, 8, 0x28070f0ce68ad04dceeba5b7628b1, P116);
    e, x := Climb(2, e, x, 3, 8, 0x71fe4636598a26698c235a47f93c1, P116);
    e, x := Climb(2, e, x, 2, 4, 0x9655fe00e0ab5d432b07544c38a1e, P116);
    e, x := Climb(2, e, x, 6, 64, 0x491c3082d7b3a52763f0c34935a32, P116);
    e, x := Climb(2, e, x, 4, 16, 0xb2575d2efa93bf6464d7cad7b9ef9, P116);
    e, x := Climb(2, e, x, 7, 128, 0x2896afd472c9e7936a6c2e22acc48, P116);
    e, x := Climb(2, e, x, 5, 32, 0x77cd05566e32877c6fb20cfb413b0, P116);
  }

  lemma PrimeP116Power() returns (e: nat, x: int)
    ensures e == 0x2217588b6b4f717a0 && x == 0xaedd80ab27e8de3ca5f2fb22d5403 && PowerIs(2, e, x, P116)
  {
    hide PowerIs, Pow;
    SmallPowersOfTwo(P116);
    e, x := PrimeP116Power1();
    e, x := Climb(2, e, x, 6, 64, 0xa31574edd1a0be7dedc6b54c7372d, P116);
    e, x := Climb(2, e, x, 1, 2, 0x3a599df33217093dc572ca5aab5a7, P116);
    e, x := Climb(2, e, x, 3, 8, 0x142094c51b5dbc59a5329d5e22371, P116);
    e, x := Climb(2, e, x, 6, 64, 0x5d1f3bbb944c1e87f26a0cc7e9fb, P116);
    e, x := Climb(2, e, x, 4, 16, 0x4e306d573a851f226efe4f75ae6ec, P116);
    e, x := Climb(2, e, x, 0, 1, 0xaedd80ab27e8de3ca5f2fb22d5403, P116);
  }

  lemma PrimeP116()
    ensures IsPrime(P116)
  {
    hide IsPrime, Certifies, PowerIs, Pow;
    PrimeP51();
    Prime75707();
    var m, c := PrimeP116Cofactor();
    var k, b := PrimeP116Power();
    var e, x := PrimeP116Order();
    UnitPower(P116, 2, m, c, 75707);
    Certify(P116, 2, m, c, 75707, 0x1bb0fee20f00433b82723f09a47f3);
    Certify(P116, 2, k, b, P51, 0xe5e342b4c0a3d507894bab5f20e8b);
    PocklingtonTwo(P116, 274673811055552632, P51, b, 0xe5e342b4c0a3d507894bab5f20e8b, 75707, c,
                   0x1bb0fee20f00433b82723f09a47f3);
  }

  lemma Prime353()
    ensures IsPrime(353)
  {
    assert 353 % 2 != 0 && 353 % 3 != 0 && 353 % 4 != 0 && 353 % 5 != 0 && 353 % 6 != 0 && 353 % 7 != 0
           && 353 % 8 != 0 && 353 % 9 != 0 && 353 % 10 != 0 && 353 % 11 != 0 && 353 % 12 != 0 && 353 % 13 != 0
           && 353 % 14 != 0 && 353 % 15 != 0 && 353 % 16 != 0 && 353 % 17 != 0 && 353 % 18 != 0;
    TrialDivision(353, 19);
  }

  lemma PrimeP236Cofactor1() returns (e: nat, x: int)
    ensures e == 0x7c8235f80c8e && x == 0x2a87e6ea4292ed868a8f54e4d21b8b90bc6043b90c6503001001545bdc6
            && PowerIs(2, e, x, P236)
  {
    hide PowerIs, Pow;
    SmallPowersOfTwo(P236);
    e, x := 3, 8;
    e, x := Climb(2, e, x, 7, 128, 0x80000000, P236);
    e, x := Climb(2, e, x, 1, 2, 0xabaf8c6b094fd0f32c2ccabab864dbecd99144679c1adf804898fb2043, P236);
    e, x := Climb(2, e, x, 0, 1, 0x5f4b5abee4108d267b799fcfd6d16c39734c32c92baf617f26350e9f37f, P236);
    e, x := Climb(2, e, x, 1, 2, 0x2aebe31ac253f43ccb0b32c22082be6197f50006609176740343a4b68fe, P236);
    e, x := Climb(2, e, x, 0, 1, 0x9e82578df6d347188db5c6011d41bbbf40da005058d1aa202df816f217a, P236);
    e, x := Climb(2, e, x, 6, 64, 0x969912b2273d1b0d20026812591d549c958dfe6d0f62299e6704fac89ee, P236);
    e, x := Climb(2, e, x, 5, 32, 0x28ec1159758e7ee6e446dd5e61b5c79bf48e06f11a5df1760a61bdfb327, P236);
    e, x := Climb(2, e, x, 7, 128, 0x1801fbbbabd3c8f98ea7e8a6b58fe8a0efb5191190d3bc218225de198cf, P236);
    e, x := Climb(2, e, x, 6, 64, 0x84e9f420042190ae7459d234ff66c22d64ad1ae7b6a3579e4d6cd1cad30, P236);
    e, x := Climb(2, e, x, 0, 1, 0x3977d617cd8cdceb5d1d29603786bbb6fe7c34e1bccbcdc50ec5c2848cb, P236);
    e, x := Climb(2, e, x, 0, 1, 0x3bcc86164bff87ab05e8467b52dce6719f03c3881576797847f979ed042, P236);
    e, x := Climb(2, e, x, 6, 64, 0x55f78cbae5d720deadc0d5f51de282f682d2b1dd068f880479e5945bade, P236);
    e, x := Climb(2, e, x, 2, 4, 0x32f10b0ade2e1cc1199acc9bddeb689211f2133b7f09cb94587fbf3b732, P236);
    e, x := Climb(2, e, x, 1, 2, 0x68bde01cb9e1df945789b0f9f52c70534e4ce1452df2235eacebd40fefe, P236);
    e, x := Climb(2, e, x, 6, 64, 0x2a87e6ea4292ed868a8f54e4d21b8b90bc6043b90c6503001001545bdc6, P236);
  }

  lemma PrimeP236Cofactor2() returns (e: nat, x: int)
    ensures e == 0xf9046bf0191c04475233e9d && x == 0x950c74595d6ec26f59b73242cef892b500f42822538038d8f2507cb4b9b
            && PowerIs(2, e, x, P236)
  {
    hide PowerIs, Pow;
    SmallPowersOfTwo(P236);
    e, x := PrimeP236Cofactor1();
    e, x := Climb(2, e, x, 0, 1, 0x60e6323b901c7d74dc2ebad645728dcc19a59fb77bdb0e7fdaac794c8f9, P236);
    e, x := Climb(2, e, x, 0, 1, 0x4ac9087459f098c2d0a4aca1c598287a307e1ce1870bd47a73068ad8723, P236);
    e, x := Climb(2, e, x, 4, 16, 0x6b8b0149483ee2de6e826b9784da18b2919b80d3eacb670ff4bd132f996, P236);
    e, x := Climb(2, e, x, 2, 4, 0x4e6c8f421026da53ec87c34050a8d27a9e4c9aa7cbbf81f8984a2282d68, P236);
    e, x := Climb(2, e, x, 1, 2, 0x73ce7efcedf6c015df12d27025ffab0585a422e9a0579168c76e8190286, P236);
    e, x := Climb(2, e, x, 6, 64, 0x9c51ac12eada2120871fb21e728835604c104fedf593ab6614ad7ff4bbc, P236);
    e, x := Climb(2, e, x, 5, 32, 0x710e0a27067cb4fb1a06791eb5d9d8881e845bb8360510598b04a89835a, P236);
    e, x := Climb(2, e, x, 1, 2, 0x26816d64066175b51aa165eaa1df644a74c0122073cc40429728b312e43, P236);
    e, x := Climb(2, e, x, 0, 1, 0x25175617972eed3a670fc5d52ad601c3d3d85df03e1d67e5cf020f0eec, P236);
    e, x := Climb(2, e, x, 6, 64, 0x49ba86df70e15d1b5cf3b134bad0bc12278633977b7125d217418991aec, P236);
    e, x := Climb(2, e, x, 3, 8, 0x1602516833d39da44b73ee0d162796d34a2bb411891cee683a819c72da3, P236);
    e, x := Climb(2, e, x, 7, 128, 0x584eda73f357725800dd78f60da81b8fed757a511202823d207db8956f7, P236);
    e, x := Climb(2, e, x, 2, 4, 0x980d55eb745f31b7cb9fb9aec4e0872fe6d5c34e3b7bf406b951de6dea9, P236);
    e, x := Climb(2, e, x, 3, 8, 0x242e77b0d40ae632435f37b09e152634d3ad5a20f330168c0253d8acecb, P236);
    e, x := Climb(2, e, x, 5, 32, 0x950c74595d6ec26f59b73242cef892b500f42822538038d8f2507cb4b9b, P236);
  }

  lemma PrimeP236Cofactor3() returns (e: nat, x: int)
    ensures e == 0x1f208d7e03238088ea467d3b3c4399bb424
            && x == 0x1ad9c88a2361f0270778ee0e151fc421b435c21787047fd40b4f452b15c && PowerIs(2, e, x, P236)
  {
    hide PowerIs, Pow;
    SmallPowersOfTwo(P236);
    e, x := PrimeP236Cofactor2();
    e, x := Climb(2, e, x, 4, 16, 0x50e7e00c435dfac3764e5af7b5555c5d64f8f78e883471508ad6cae1a6, P236);
    e, x := Climb(2, e, x, 7, 128, 0xdc76bea2f68fe5d21e34e02d46f7d46c58a8124ed7fcb1e93105dedff, P236);
    e, x := Climb(2, e, x, 4, 16, 0x52fb530268c5086f0fadb2330ed19a1319a9a4cf7f8cff3483f894db689, P236);
    e, x := Climb(2, e, x, 2, 4, 0x93ecd6d5bfa79ab09de1cddb569fde338f5a800a1ae00f278c9aea1149d, P236);
    e, x := Climb(2, e, x, 0, 1, 0x6ca5e5f160af6b530eb2f420807721618788f9d34937866ce45aa619ee1, P236);
    e, x := Climb(2, e, x, 7, 128, 0x457786810225882148fe7ad045caaa5367f4d76cc702c6e1a0bca9ec87f, P236);
    e, x := Climb(2, e, x, 1, 2, 0x31ca3971e86f69ea020e12d0f6852a7bfacc3533beebe3e9b5a2778facb, P236);
    e, x := Climb(2, e, x, 4, 16, 0x104f4ef25459b360fd556041ee4656685561e77086418281971ec8c444e, P236);
    e, x := Climb(2, e, x, 6, 64, 0x4f61fc9ad482008af402f6488a1c924b0d34c4f6fe3dc72ee27b741b06d, P236);
    e, x := Climb(2, e, x, 7, 128, 0x80fe904ce3badd0d261390f5381d9aa5f453c244a4b4f46fc1ae2bcfbcf, P236);
    e, x := Climb(2, e, x, 3, 8, 0x5c25878bdda241635e4cc4d1d6507bb6ba88e68c0a5a7e8a8510cf99b49, P236);
    e, x := Climb(2, e, x, 2, 4, 0x93ea8bf7633e35fc47a4a510908e28cb47fe5b3dd1cde452bca2d0c240f, P236);
    e, x := Climb(2, e, x, 0, 1, 0x44bc8cf96e34a63daaa36df2d707c8009cf16a3c1d36bf1659fb332482, P236);
    e, x := Climb(2, e, x, 4, 16, 0x99d09a57d44c295d6f59d2f1167632bc797665a3bbec03ff2b814c8fe9c, P236);
    e, x := Climb(2, e, x, 4, 16, 0x1ad9c88a2361f0270778ee0e151fc421b435c21787047fd40b4f452b15c, P236);
  }

  lemma PrimeP236Cofactor4() returns (e: nat, x: int)
    ensures e == 0x3e411afc06470111d48cfa7678873376848e99e44ce91c
            && x == 0x91d961b79ce5d916c5fce3bd2125528b87f07ae5da8b0fd95a8dbe9bdf8 && PowerIs(2, e, x, P236)
  {
    hide PowerIs, Pow;
    SmallPowersOfTwo(P236);
    e, x := PrimeP236Cofactor3();
    e, x := Climb(2, e, x, 3, 8, 0x1b7dcad69f400e0cc6b3457e09e6999917b840d6412597586507e951299, P236);
    e, x := Climb(2, e, x, 5, 32, 0xe377ffdc2cda222cf08931f15cc3c59610ffdc0b8eb4048a802112799c, P236);
    e, x := Climb(2, e, x, 1, 2, 0x431a66115cde5fac5209c13edb1cd8e503eda7ddc6250c09f1d07705151, P236);
    e, x := Climb(2, e, x, 4, 16, 0x3fa3573b43ee7748d6c4c4c854e4dff8359890d474b2700800fb9654a31, P236);
    e, x := Climb(2, e, x, 7, 128, 0x2582ce0cde0a225e4db99596e5bf93acc958a3cbd25506e5a54d873a577, P236);
    e, x := Climb(2, e, x, 4, 16, 0x53df710b0d17e74a40e01c5102ad2d8a7bca21e56b9a55921e30424b2c8, P236);
    e, x := Climb(2, e, x, 4, 16, 0x896c91f6ae451bd0100635f70133c941709d50301853c593ae339568cce, P236);
    e, x := Climb(2, e, x, 2, 4, 0xa5950508c7ee81cb6a956066931a7554d081c19b9c96c51d43fd1b76cb0, P236);
    e, x := Climb(2, e, x, 3, 8, 0x157f8272852fadce9ac56eaeabf481b97f4948886f48a038461c4ca61b8, P236);
    e, x := Climb(2, e, x, 1, 2, 0x73436b12dba8835063702db7f15da5de5d42622dbad05460713576944af, P236);
    e, x := Climb(2, e, x, 6, 64, 0x1f06a529e480f59ce824f53a8e6ff56f0bd946e194ebab2b186b3d69bb5, P236);
    e, x := Climb(2, e, x, 4, 16, 0x6eff14bb607b86ced5f22ab0f48949036ca86919ed0cdf0c402f53a903e, P236);
    e, x := Climb(2, e, x, 4, 16, 0xa12201de24641f74161bfd0e93eb0e17f627a011cb935dc292ca69c5af6, P236);
    e, x := Climb(2, e, x, 3, 8, 0xa611a967941818a00876f77f134c3e1d25d58c382cd78059fcf7ae28766, P236);
    e, x := Climb(2, e, x, 4, 16, 0x91d961b79ce5d916c5fce3bd2125528b87f07ae5da8b0fd95a8dbe9bdf8, P236);
  }

  lemma PrimeP236Cofactor() returns (e: nat, x: int)
    ensures e == 0x7c8235f80c8e0223a919f4ecf10e66ed091d33c899d238346bc3cb26a
            && x == 0x13d9dc1e5009af5c4c2541515b87c068b913c42d9a7644ce63ffe960964 && PowerIs(2, e, x, P236)
  {
    hide PowerIs, Pow;
    SmallPowersOfTwo(P236);
    e, x := PrimeP236Cofactor4();
    e, x := Climb(2, e, x, 0, 1, 0x58a3319da67f350d03cada6b676197262ae82bbff8451109ea300d6421f, P236);
    e, x := Climb(2, e, x, 6, 64, 0xffc9fe0bd464068496447eb0126a0d2b30048092eb219c81c747e4ef84, P236);
    e, x := Climb(2, e, x, 4, 16, 0xa56dcf38326abd39ca6ab5c2675186ea7bacf59bcfdf5f4a6ec4386ec8, P236);
    e, x := Climb(2, e, x, 3, 8, 0x1de7ac9033b3752b3968c94795a109d7fda8ef5a244870cedca046469fb, P236);
    e, x := Climb(2, e, x, 2, 4, 0x51953893f2c671017aa537cf957796a2b91812e3b37dbd5cb0db36ea0d3, P236);
    e, x := Climb(2, e, x, 7, 128, 0x237212829a90dc3905f6b5511cd76c75ff48299454ec98be034bee3e5f7, P236);
    e, x := Climb(2, e, x, 4, 16, 0x780425ded4937ad88aa05fc1e93bf370e440049c4fbaad90821b3bd0d1f, P236);
    e, x := Climb(2, e, x, 1, 2, 0x5ecd57433287103a23da1856eb9ff627c41cfdf5d9ea8c07a86d490f7a2, P236);
    e, x := Climb(2, e, x, 7, 128, 0x6864613ef93067a3d7800a495ed0b78bcb9f52c7f5bb9bddf54406081a4, P236);
    e, x := Climb(2, e, x, 1, 2, 0x20a330645c2386cfadb8c4447d6bd567b8f377ab3040720613c0c634885, P236);
    e, x := Climb(2, e, x, 3, 8, 0x36530de28ba55c6885f34622b14b3c5b1ea652e9e2a5176a0d3672b4bd3, P236);
    e, x := Climb(2, e, x, 1, 2, 0xa5cebc41951aeb4754dbca1bc6386b4edaaf004ef8a07d986e1a6eeb43c, P236);
    e, x := Climb(2, e, x, 1, 2, 0x28b837cab1376f05c769f3467714f9301f4a7ee1f5bfd34856d1a7018ee, P236);
    e, x := Climb(2, e, x, 5, 32, 0x683a6f97677cdb247c6703182a0608e98f67585c983dbe1e18e7e05b29f, P236);
    e, x := Climb(2, e, x, 2, 4, 0x13d9dc1e5009af5c4c2541515b87c068b913c42d9a7644ce63ffe960964, P236);
  }

  lemma PrimeP236Order() returns (e: nat, x: int)
    ensures e == 353 && x == 1 && PowerIs(0x13d9dc1e5009af5c4c2541515b87c068b913c42d9a7644ce63ffe960964, e, x, P236)
  {
    hide PowerIs, Pow;
    var b := 0x13d9dc1e5009af5c4c2541515b87c068b913c42d9a7644ce63ffe960964;
    FirstPowers(b, P236);
    Next(b, 1, 0x13d9dc1e5009af5c4c2541515b87c068b913c42d9a7644ce63ffe960964,
         0x2572760ca51df43d4d5bd713dc6b8e7a8b09f9681f21960a8072a319ebf, P236);
    Next(b, 2, 0x2572760ca51df43d4d5bd713dc6b8e7a8b09f9681f21960a8072a319ebf,
         0x215bfc6193585338540f420d08b73d12bf271ac8c7e43f1e1f40860195a, P236);
    Next(b, 3, 0x215bfc6193585338540f420d08b73d12bf271ac8c7e43f1e1f40860195a,
         0x8b39821533ccc483181e9eb78537165d9b43620a8d82185c3e9964412ca, P236);
    Next(b, 4, 0x8b39821533ccc483181e9eb78537165d9b43620a8d82185c3e9964412ca,
         0x3a5adc0270a1579c057b90d909d269d1f5e50e82e0d275380727441c789, P236);
    e, x := 5, 0x3a5adc0270a1579c057b90d909d269d1f5e50e82e0d275380727441c789;
    e, x := Climb(b, e, x, 4, 0x8b39821533ccc483181e9eb78537165d9b43620a8d82185c3e9964412ca,
                  0x9b9ff33ea51c066baa24ea219a3be258a3d64fcdfb6546f8e44f0a8da90, P236);
    e, x := Climb(b, e, x, 1, 0x13d9dc1e5009af5c4c2541515b87c068b913c42d9a7644ce63ffe960964, 1, P236);
  }

  lemma PrimeP236Power1() returns (e: nat, x: int)
    ensures e == 0xbd0d14cf78e7 && x == 0x83cb33627fafca484eea55f3ed3e53cd71569273276be4273e9744e83e0
            && PowerIs(2, e, x, P236)
  {
    hide PowerIs, Pow;
    SmallPowersOfTwo(P236);
    e, x := 5, 32;
    e, x := Climb(2, e, x, 7, 128, 0x800000000000, P236);
    e, x := Climb(2, e, x, 2, 4, 0xa0000000000000000000000000000000, P236);
    e, x := Climb(2, e, x, 0, 1, 0x9c2295e31767e636259c7c1deed13941559c6c0579a73061da059fefd3f, P236);
    e, x := Climb(2, e, x, 6, 64, 0x73f48ef786a0c82a5410bcef192dd17d7b44506e30444a6ddbcce12d10f, P236);
    e, x := Climb(2, e, x, 4, 16, 0x47ed91f9e30696c95f893badb61bd79ac630564c46ebfac55ad80409024, P236);
    e, x := Climb(2, e, x, 2, 4, 0x638b4d80ea1282170594444c4b6af20e30bf7b3a8df7c13642d404176fd, P236);
    e, x := Climb(2, e, x, 4, 16, 0x3d5c1fd1357668adbc8cd1a8afdacb0f87fa1ee62680b76b3d822405076, P236);
    e, x := Climb(2, e, x, 6, 64, 0x6d8f8fb5ce21b8c0c7b3a311406adb88cc8672e9fe2eed169f1b4b55a2c, P236);
    e, x := Climb(2, e, x, 3, 8, 0x4c93bfc17e5eed011591d724972c15ad4f0c7db6a31c19d543fec4f6338, P236);
    e, x := Climb(2, e, x, 6, 64, 0x16e3f379ad5b751a496ff90b3142c1fe077abff8bac422ba9f1603668b0, P236);
    e, x := Climb(2, e, x, 7, 128, 0x405bb5b8ca0216da0c6f86ed1333a8bd775fed021a663d4e2b36235719b, P236);
    e, x := Climb(2, e, x, 4, 16, 0x76494f0a3a3c97814203225ec564b209a6f5546814a0c75daf65d46ffb0, P236);
    e, x := Climb(2, e, x, 3, 8, 0xab899e114625eeca247394185b8b10ed04cd483d38b90796a45e4ce6867, P236);
    e, x := Climb(2, e, x, 4, 16, 0x480d7ea8eadcb7e4ebb35b1a0cdcd043f5e4cd4d2058172d0c27567b647, P236);
    e, x := Climb(2, e, x, 7, 128, 0x83cb33627fafca484eea55f3ed3e53cd71569273276be4273e9744e83e0, P236);
  }

  lemma PrimeP236Power2() returns (e: nat, x: int)
    ensures e == 0x17a1a299ef1cea434652311d && x == 0xd3f3fcd02e66cee9457b1ebbe0134abf79ac175d02139487f0e630ea21
            && PowerIs(2, e, x, P236)
  {
    hide PowerIs, Pow;
    SmallPowersOfTwo(P236);
    e, x := PrimeP236Power1();
    e, x := Climb(2, e, x, 2, 4, 0x1d3a2bd56156546153f495e59c8eedae00984d23441bd58c80d887f0cfe, P236);
    e, x := Climb(2, e, x, 4, 16, 0x681cea30777f864767ca5c72c2e0c9366d4bea0ed36db67f72e1b824700, P236);
    e, x := Climb(2, e, x, 4, 16, 0x246b0d995d0c971914cfb6d54b8f246af282bafd4da86c98e6560668218, P236);
    e, x := Climb(2, e, x, 1, 2, 0xa93f25bba885b9252329b137dc883cf54091cd537fef79da6849f6d345b, P236);
    e, x := Climb(2, e, x, 5, 32, 0xbc3c3ed954169405598c5d0a8e9d96a8daddbbcc6376bebacb68e47120, P236);
    e, x := Climb(2, e, x, 0, 1, 0x1c53d340376af8cfca4f67d25d18d47b236324e1a764da948477e92628b, P236);
    e, x := Climb(2, e, x, 6, 64, 0x48e88c4980b9201f5cfbef781abf1d4f828e86fb9659adff4b1310b0a79, P236);
    e, x := Climb(2, e, x, 2, 4, 0x7f7597cdd3c877340a980a10f28f7bd44170bf96fb6e9d8a7500735f18b, P236);
    e, x := Climb(2, e, x, 4, 16, 0x3854f63724c53aa594b9c9922f46592727c1bd3b106b9e50dd7e3a28215, P236);
    e, x := Climb(2, e, x, 4, 16, 0x5f232d211cad15e53e3a956ec029ae0c7d4a363f98c30c4217155b03e32, P236);
    e, x := Climb(2, e, x, 3, 8, 0x720ad70938bd175b53e26efd80636e95cf3443d8a5836339203cd8ad881, P236);
    e, x := Climb(2, e, x, 0, 1, 0x191ab7bc343c628269193e1f3b3661f2fc43d86e3a3945eaa4ce0581c49, P236);
    e, x := Climb(2, e, x, 4, 16, 0x5e53a20049dc2fd1357d92bfa28d053694fa00741bc1e52de5063d93581, P236);
    e, x := Climb(2, e, x, 3, 8, 0x67ce1d1c80fe37780fd186479d9fbc96c40ea65e8fa7cb70d1bc6eb2fa8, P236);
    e, x := Climb(2, e, x, 5, 32, 0xd3f3fcd02e66cee9457b1ebbe0134abf79ac175d02139487f0e630ea21, P236);
  }

  lemma PrimeP236Power() returns (e: nat, x: int)
    ensures e == 0xbd0d14cf78e7521a329188e9fa496a
            && x == 0xa118eb0f9d8184bab59e8e45df736d65fba3c64f4aa855bc8921ac18308 && PowerIs(2, e, x, P236)
  {
    hide PowerIs, Pow;
    SmallPowersOfTwo(P236);
    e, x := PrimeP236Power2();
    e, x := Climb(2, e, x, 1, 2, 0x3acf2096c14e1b7fca61f3eee671d3421087e6919bfb43a8ac6ca187d41, P236);
    e, x := Climb(2, e, x, 7, 128, 0x58168a9cc810950795f992994ff8ecceab43b9ae9c616d7df3da615edc5, P236);
    e, x := Climb(2, e, x, 6, 64, 0x5641d4e5de2cc434d8ff2a159299498cca60897ed388a0aef15ff0da0ce, P236);
    e, x := Climb(2, e, x, 4, 16, 0x3b697d501b0714f8d317f10949e2b67188f4cafb4cccc75d9b98460108f, P236);
    e, x := Climb(2, e, x, 4, 16, 0x15ffe601f5b00c84e6b79ed19993fac9d4e536125b1eb5a8d2a9339d2b, P236);
    e, x := Climb(2, e, x, 4, 16, 0x650348bc16e94643c3355253b78e6752af906a3eb5bc54cf2993163f998, P236);
    e, x := Climb(2, e, x, 5, 32, 0x8acc4a87344f44985b9ab5599431a6b28010d329ab6b431cc39822a21b5, P236);
    e, x := Climb(2, e, x, 5, 32, 0x67c3655c3d4c03a9e39cad8d9e6fc7d03deac383138d118a925cfcc81a0, P236);
    e, x := Climb(2, e, x, 2, 4, 0xa118eb0f9d8184bab59e8e45df736d65fba3c64f4aa855bc8921ac18308, P236);
  }

  lemma PrimeP236()
    ensures IsPrime(P236)
  {
    hide IsPrime, Certifies, PowerIs, Pow;
    PrimeP116();
    Prime353();
    var m, c := PrimeP236Cofactor();
    var k, b := PrimeP236Power();
    var e, x := PrimeP236Order();
    UnitPower(P236, 2, m, c, 353);
    Certify(P236, 2, m, c, 353, 0x57f4888591087bd9c3eb0c0f278ba4fddc26c6cce3b2e8944893fcd09ab);
    Certify(P236, 2, k, b, P116, 0xa35a14fb1452ddd0fca6eef50ac9bd9a369cab894104fc366d4fa595e38);
    PocklingtonTwo(P236, 272136386270857499792158335716642713, P116, b,
                   0xa35a14fb1452ddd0fca6eef50ac9bd9a369cab894104fc366d4fa595e38, 353, c,
                   0x57f4888591087bd9c3eb0c0f278ba4fddc26c6cce3b2e8944893fcd09ab);
  }

  lemma PowerOf254Part1() returns (e: nat, x: int)
    ensures e == 0x800000000000 && x == 0x3ffdd12a4f4553274a05f2fde7e6fc62e4850eb0b1f90f2b7a4d82b218e8dcd5
            && PowerIs(0x1db41, e, x, Q)
  {
    hide PowerIs, Pow;
    FirstPowers(121665, Q);
    Next(121665, 1, 0x1db41, 0x3724a4681, Q);
    Next(121665, 2, 0x3724a4681, 0x665efd5ad41c1, Q);
    Next(121665, 3, 0x665efd5ad41c1, 0xbe0c3e35db9fecd01, Q);
    e, x := 4, 0xbe0c3e35db9fecd01;
    e, x := Climb(121665, e, x, 0, 1, 0x5c6ff6bc5f36df4d82436cd4df2a9084b090313c8d3a56d51d7a9f77d3e4cff6, Q);
    e, x := Climb(121665, e, x, 0, 1, 0x32a1ca1fd49af33cce46362f05df38a9fbf506ab404d38245775e8b418eb63a1, Q);
    e, x := Climb(121665, e, x, 0, 1, 0x546950c2d637f280dc78dc6e7bbc3d243d2888696691e83583feed08d85ee47c, Q);
    e, x := Climb(121665, e, x, 0, 1, 0x56ee0be499859bd799caf7a517a15afc0cec8e02621ddebd6c3e5db42df6d50d, Q);
    e, x := Climb(121665, e, x, 0, 1, 0x4b2f61411f22a6a72c9c13d3d6eb424b12d9b54d4c6de516b8fa8249dfb3685, Q);
    e, x := Climb(121665, e, x, 0, 1, 0x79efe961532256cc81ebf682f202c4961e69cd2879fc894429915508deb897f4, Q);
    e, x := Climb(121665, e, x, 0, 1, 0x48ab2e2e4f23d05adaf41c72f888611d3c2bb2d1d4bcf895292969e8a3556986, Q);
    e, x := Climb(121665, e, x, 0, 1, 0x659c4830d6b2ca85c34f3dd8632d3aa5fd0c83c99548bc53f7369edf7365995f, Q);
    e, x := Climb(121665, e, x, 0, 1, 0x753092516882d985c34449f5b68a3ceee3290b7a3b2da47c1ff9310a0ade3921, Q);
    e, x := Climb(121665, e, x, 0, 1, 0x329f1728a9845bd145776ce876870eca177ab2b411c4486f50a618e8b05bb4, Q);
    e, x := Climb(121665, e, x, 0, 1, 0x39d11a5b5f93db1dd9da7ae7a2ac01ae796dc50833ed9443b5cde79716e7e60, Q);
    e, x := Climb(121665, e, x, 0, 1, 0x1dd4d8ae5a2059e512fdf9c0203f55d1d998d1c184d24bdb1d11dcbef2696bfe, Q);
    e, x := Climb(121665, e, x, 0, 1, 0x1bb517416b03fae93d14e8597fa61a65745e51878799258d06ae8fa175515a89, Q);
    e, x := Climb(121665, e, x, 0, 1, 0x6984d2ca808f270dd3bbc141c82bd6fc8a6e9dff3d88c18d3a0d8169f9f24470, Q);
    e, x := Climb(121665, e, x, 0, 1, 0x3ffdd12a4f4553274a05f2fde7e6fc62e4850eb0b1f90f2b7a4d82b218e8dcd5, Q);
  }

  lemma PowerOf254Part2() returns (e: nat, x: int)
    ensures e == 0x100000000000000000000000 && x == 0x48bc07f0f8a42ec3d1dd04796e2b4a583308639190992e549c8e5033ac98eef
            && PowerIs(0x1db41, e, x, Q)
  {
    hide PowerIs, Pow;
    FirstPowers(121665, Q);
    e, x := PowerOf254Part1();
    e, x := Climb(121665, e, x, 0, 1, 0x5fdb7b676823d7f27f602e36f0b61e813f0207e9d253ca227d9db8092b63d160, Q);
    e, x := Climb(121665, e, x, 0, 1, 0x4b2de406bd73d2ad883decea90936095d4628a9457ec23ea77a1fe26bf1fb745, Q);
    e, x := Climb(121665, e, x, 0, 1, 0x92b3ca3c1afb010e91d52d9e9969164503fb314aeb6e3c23fb47ed058011791, Q);
    e, x := Climb(121665, e, x, 0, 1, 0x5e37ab13f641cf95361e3fa24630f548bdf901cff6166ab85067fb767a11377e, Q);
    e, x := Climb(121665, e, x, 0, 1, 0x1963a644930a8d346ab0f034d105d566a4415e5cbc4414c62959c4458d1bcec3, Q);
    e, x := Climb(121665, e, x, 0, 1, 0x58edbf5377a7c73e86c9bd62c1f2cce3621a337840cd770df29be16f17e2b32f, Q);
    e, x := Climb(121665, e, x, 0, 1, 0x32fab07477e723a089b6e9cb6db60624509159f48257e54db8225609c4422649, Q);
    e, x := Climb(121665, e, x, 0, 1, 0x657ee7ce39e686679e60ed161d7e09882819b504451dc41c0155c7043b2306c5, Q);
    e, x := Climb(121665, e, x, 0, 1, 0x585da851d22c47163ae148aa38432763517403511b252cf7415e937d3717fa87, Q);
    e, x := Climb(121665, e, x, 0, 1, 0x4b1ec1ebfe05f49e1f51a40c7d48038417681191d8ffc3bae104721c5ea87ef4, Q);
    e, x := Climb(121665, e, x, 0, 1, 0x7f2bfd0a2b53a578a1ec36dfe2760a6d7e06833996d43d76dc60a8a7477b895c, Q);
    e, x := Climb(121665, e, x, 0, 1, 0x7626ced2a7c474756c5d898a14e6f6faeebd8c465990946f5927dd5b5baf998f, Q);
    e, x := Climb(121665, e, x, 0, 1, 0x2f09e469c710e2c1cbf69c13a9422108a366a8f6dfab4733a55a337538c29943, Q);
    e, x := Climb(121665, e, x, 0, 1, 0x4ccd1194a9e5a7281f6772ba6d02dd13b1644a5b3bdaff9939024c7f56a31d41, Q);
    e, x := Climb(121665, e, x, 0, 1, 0x48bc07f0f8a42ec3d1dd04796e2b4a583308639190992e549c8e5033ac98eef, Q);
  }

  lemma PowerOf254Part3() returns (e: nat, x: int)
    ensures e == 0x20000000000000000000000000000000000
            && x == 0x48f6854def17254f705cb2341bb9f6563e12922f06077dfef0ccc8d0978c7103 && PowerIs(0x1db41, e, x, Q)
  {
    hide PowerIs, Pow;
    FirstPowers(121665, Q);
    e, x := PowerOf254Part2();
    e, x := Climb(121665, e, x, 0, 1, 0xeb1949275805cf392feba3ad406ac517395e5c4454ead7082f52feaf0459f28, Q);
    e, x := Climb(121665, e, x, 0, 1, 0x23127a983bfa0db96a0a5059bb27dbc0b8112ee21ff05f890afad2fe0a803e22, Q);
    e, x := Climb(121665, e, x, 0, 1, 0xb8ab93e216044cf73374270eff42b76f75e32ab69165a3578cf51e1e17acade, Q);
    e, x := Climb(121665, e, x, 0, 1, 0x921f82f2b0b31be0b38f52d27b6ceef4eae9d70629e03a7b95dbf7e0d1c8dc4, Q);
    e, x := Climb(121665, e, x, 0, 1, 0x4334b2918a3de8f0d198466afc5b140e7b0a4c1d951f842c96dbf55aaca3eef8, Q);
    e, x := Climb(121665, e, x, 0, 1, 0x67786f27f02401485c57f45967d19d9ae4464d9a06409bd0936c6e49842c91c4, Q);
    e, x := Climb(121665, e, x, 0, 1, 0x7e32bd731bcd87b1581f80469c64f978378df37dab81729c13c43555fcaee239, Q);
    e, x := Climb(121665, e, x, 0, 1, 0x61866c79f529122cd776e556ae0f9878d7b832eda4f45fda3a08ecf96ab94070, Q);
    e, x := Climb(121665, e, x, 0, 1, 0x18a87d44ce926e247e8a0ad40e41a0501e532cee929673c544985fb50d3fd59d, Q);
    e, x := Climb(121665, e, x, 0, 1, 0x6e06d1ee63a6a4a9dc276ddf2fbeb58e09c584ec57ab4dee61259a13a473ffd7, Q);
    e, x := Climb(121665, e, x, 0, 1, 0x667263be5eb40a7be5f729424a1a6bdcb0c8af7d0a73a1e0c02df927ce869029, Q);
    e, x := Climb(121665, e, x, 0, 1, 0x4591dac0bd154180e0745cdda615222efdcb57a8a72680fe1f6e2d1307038be7, Q);
    e, x := Climb(121665, e, x, 0, 1, 0x72fd3be440951ca822ebe13ffda277de1182951f2d726ab95488d3a57e03b409, Q);
    e, x := Climb(121665, e, x, 0, 1, 0x3cef656838c3d7108dc07a06044973cc65f7c1d1adcfc7fcdbd6af4e60fabef3, Q);
    e, x := Climb(121665, e, x, 0, 1, 0x48f6854def17254f705cb2341bb9f6563e12922f06077dfef0ccc8d0978c7103, Q);
  }

  lemma PowerOf254Part4() returns (e: nat, x: int)
    ensures e == 0x4000000000000000000000000000000000000000000000
            && x == 0x127ac2971cd1484e7ed25472187106598805dab2792b535bd2444c256e9875c3 && PowerIs(0x1db41, e, x, Q)
  {
    hide PowerIs, Pow;
    FirstPowers(121665, Q);
    e, x := PowerOf254Part3();
    e, x := Climb(121665, e, x, 0, 1, 0x4a417c2cca67241a7bedfcda91b0009b67c2590ff5a504a653873b0d61e7765, Q);
    e, x := Climb(121665, e, x, 0, 1, 0x4de89abfe24f48363598cf1b5e43652f189dc5717bb1db870a23702584f734f4, Q);
    e, x := Climb(121665, e, x, 0, 1, 0x6f7b8098d3a3bb1c341638389512cac2196760f61effc8311c435122c2b19fb3, Q);
    e, x := Climb(121665, e, x, 0, 1, 0x41da56d45f8dc18fac9ae25f372f87dd2b5173d1cbefe2a6fb3b72368e69d55c, Q);
    e, x := Climb(121665, e, x, 0, 1, 0x74ec7d70a75596c09e7a0279e0aa4b32f8153ebe84897d2e9311689ed723a32, Q);
    e, x := Climb(121665, e, x, 0, 1, 0x4cb5f15a131e71be6a16a5170604e146d47ecd63473fe94e90007e59b4d00d96, Q);
    e, x := Climb(121665, e, x, 0, 1, 0x566850f4726981912fd511273ea6198f5a2a9848e71d68a6518e3e1e91f37bbf, Q);
    e, x := Climb(121665, e, x, 0, 1, 0x724d525485b4816714b897f309e2d73fc615e8acb6f327dbd2c2c7b109353bf5, Q);
    e, x := Climb(121665, e, x, 0, 1, 0x118876edbadea8d07cbe8ef9145e3ccf20b88ad035723dc6f65e490103e5d7e, Q);
    e, x := Climb(121665, e, x, 0, 1, 0x3b4d4424d15635011e62723a10babbc2634434ed56be5db7de89ce7d5f2337b3, Q);
    e, x := Climb(121665, e, x, 0, 1, 0x5b390e064493889c63c8eba580527b7f5faab59f0d656cc64a8e0380cc941a40, Q);
    e, x := Climb(121665, e, x, 0, 1, 0x66c19a924b5ab0197d1bc7b36da78648511471b945ee314ef164b545ed62e2d8, Q);
    e, x := Climb(121665, e, x, 0, 1, 0x3d4ce692b310137848df5c069f1b2122a1a0a73d71363196df1a150c5dee1627, Q);
    e, x := Climb(121665, e, x, 0, 1, 0x7abf51aed3f60eeefc342f078847ce9a0524ea7826c0389fc0da9b4cbfdeeb67, Q);
    e, x := Climb(121665, e, x, 0, 1, 0x127ac2971cd1484e7ed25472187106598805dab2792b535bd2444c256e9875c3, Q);
  }

  lemma PowerOf254Part5() returns (e: nat, x: int)
    ensures e == 0x800000000000000000000000000000000000000000000000000000000
            && x == 0x11139e103cf6646078168dba2ce3fb16384b2682fc9ae9a747dbd80433afb906 && PowerIs(0x1db41, e, x, Q)
  {
    hide PowerIs, Pow;
    FirstPowers(121665, Q);
    e, x := PowerOf254Part4();
    e, x := Climb(121665, e, x, 0, 1, 0x2b0f1ceb68c743a02bea22a891aa289150e4bdb49c2b267782ea2b6d4bed3232, Q);
    e, x := Climb(121665, e, x, 0, 1, 0x78032dc411019b467db5f68cf25f9eb0ee9974f64da81a0778ecce2eb070e7f1, Q);
    e, x := Climb(121665, e, x, 0, 1, 0x44186b7255fda06626fe37d84f2d3e45b878738b714efbbf40f082c441721f0e, Q);
    e, x := Climb(121665, e, x, 0, 1, 0x59071e6b4e38ec50207b663f6487fae8d56cbf5b112d41a3e7234db0c75a95f9, Q);
    e, x := Climb(121665, e, x, 0, 1, 0x5bf0738acc969ddaa71849484542e106370273fab876f98e9c3381f7497985ad, Q);
    e, x := Climb(121665, e, x, 0, 1, 0x107bc846f834fb83d2783407ef9ab49b511ac33170014305ac4651cadab164f0, Q);
    e, x := Climb(121665, e, x, 0, 1, 0x6621671e65c9059a597f6401ae42abdd8a6e3f519de85cca50a4fcb2c99a2449, Q);
    e, x := Climb(121665, e, x, 0, 1, 0x6e82011d09d4f980dcfb52eed8f260b70edae5b366a1dfd5027be4dc8fb34942, Q);
    e, x := Climb(121665, e, x, 0, 1, 0x278938de127ef57926ddaea80b8c04d2a474617d6fdebbb789c80a0b8e9326ae, Q);
    e, x := Climb(121665, e, x, 0, 1, 0x19a84dd0d89fef10c73de05008b3aa85a64cd0e4230d5a877cda04b3960f70a7, Q);
    e, x := Climb(121665, e, x, 0, 1, 0x361c4818fe4789a6eb9e1d8d77faadd1cb43ad57a793762870280862219f0ee5, Q);
    e, x := Climb(121665, e, x, 0, 1, 0x16d95945dcd17d504c62b7698447d37092afae220398e2dbce5db303b9622405, Q);
    e, x := Climb(121665, e, x, 0, 1, 0x316e17979b2ab291c31c1366e385127112bc000eed9b60dec357d3244be07fb0, Q);
    e, x := Climb(121665, e, x, 0, 1, 0x63f5b8b1a97acf304ce6d6b3709e93d60243608421efb730818ec9c5ffdd32be, Q);
    e, x := Climb(121665, e, x, 0, 1, 0x11139e103cf6646078168dba2ce3fb16384b2682fc9ae9a747dbd80433afb906, Q);
  }

  lemma PowerOf254() returns (e: nat, x: int)
    ensures e == 0x4000000000000000000000000000000000000000000000000000000000000000
            && x == 0x7ffffffffffffffffffffe19c0a9f06ee67199d8fa578e5fa112c4ca84261f6c && PowerIs(0x1db41, e, x, Q)
  {
    hide PowerIs, Pow;
    FirstPowers(121665, Q);
    e, x := PowerOf254Part5();
    e, x := Climb(121665, e, x, 0, 1, 0x7c4ea7ea4d2b1a70527c6e7f553aff9dcd11dc910932772d4320fe07d471db25, Q);
    e, x := Climb(121665, e, x, 0, 1, 0xa8ce2c5b6338be277a345d0c69a9ec882c12ecb664d36228ea3c799c56188f6, Q);
    e, x := Climb(121665, e, x, 0, 1, 0x260dd469344c5329f1908b9309ff3be4169bcfe0ba06715823a01a9e13644ff9, Q);
    e, x := Climb(121665, e, x, 0, 1, 0x5b18570fc300d0334569174aa934419bc8e886f0cb2ef16e202db56b70c32105, Q);
    e, x := Climb(121665, e, x, 0, 1, 0x4661c373dd30aa85a2d8863f927cfdbe2e426648684336c1250dbb75a6269871, Q);
    e, x := Climb(121665, e, x, 0, 1, 0x1abd00598c50755b1cfb272e056a0aa20a0884fa16eca944bd4296d5ced66230, Q);
    e, x := Climb(121665, e, x, 0, 1, 0x2eb6da19dba507fc7973526f31afc829c1507db79b0a2f8f867d31fd9d5b28bf, Q);
    e, x := Climb(121665, e, x, 0, 1, 0x4ca45b1cf56f72c431c2163bf05d23beb67b29cfcd200606b9d48d45ec50a1f2, Q);
    e, x := Climb(121665, e, x, 0, 1, 0x7ffffffffffffffffffffe19c0a9f06ee67199d8fa578e5fa112c4ca84261f6c, Q);
  }

  lemma PrimeQPower() returns (e: nat, x: int)
    ensures e == 0xbedc4 && x == 0x221cd922a849237c206db253fb0d70fcd2625021bc874a3bcf8c385113c14325
            && PowerIs(0x1db41, e, x, Q)
  {
    hide PowerIs, Pow;
    FirstPowers(121665, Q);
    Next(121665, 1, 0x1db41, 0x3724a4681, Q);
    Next(121665, 2, 0x3724a4681, 0x665efd5ad41c1, Q);
    Next(121665, 3, 0x665efd5ad41c1, 0xbe0c3e35db9fecd01, Q);
    Next(121665, 4, 0xbe0c3e35db9fecd01, 0x160d0f889ba2e80012e841, Q);
    Next(121665, 5, 0x160d0f889ba2e80012e841, 0x28efd5236a76c8d50b19bd9381, Q);
    Next(121665, 6, 0x28efd5236a76c8d50b19bd9381, 0x4bff655dd4886ecc49b09449d2cec1, Q);
    e, x := 2, 0x3724a4681;
    e, x := Climb(121665, e, x, 7, 0x4bff655dd4886ecc49b09449d2cec1,
                  0x7f898fbadcfeb1da52c4d35512c95ac2bf6925770b3bf0bbedb7623ee74bc685, Q);
    e, x := Climb(121665, e, x, 6, 0x28efd5236a76c8d50b19bd9381,
                  0x7bfa0e566bac7361600ec80313a0fbfaaeb5215c32e8d43927b707b4310495ee, Q);
    e, x := Climb(121665, e, x, 6, 0x28efd5236a76c8d50b19bd9381,
                  0x3b96bfabdcd9f077205f26a17a4a32f41f5441d7f872a8b1084c83551e9ef54, Q);
    e, x := Climb(121665, e, x, 7, 0x4bff655dd4886ecc49b09449d2cec1,
                  0x3b281a4718adfc9506295a526fe232eeadc3edfc903ba5d4ee4b7305a372ec06, Q);
    e, x := Climb(121665, e, x, 0, 1, 0x155cc302d527c3d3012ec24b65696e3837bc9f4dc2062420decd12854b947ffc, Q);
    e, x := Climb(121665, e, x, 4, 0xbe0c3e35db9fecd01,
                  0x221cd922a849237c206db253fb0d70fcd2625021bc874a3bcf8c385113c14325, Q);
  }

  lemma TenthPower()
    ensures Pow(121665, 10) == 0x1e63f560f91198e662705a871a05eed3b357bd9e081
  {
    assert Pow(121665, 5) == 0x160d0f889ba2e80012e841;
    PowAdd(121665, 5, 5);
  }

  /** Euler's criterion for 121665: its power to (Q - 1) / 2 == 2^254 - 10 is -1. */
  lemma NonResidue121665() returns (h: nat)
    ensures 2 * h == Q - 1 && Cong(Pow(121665, h), -1, Q)
  {
    hide PowerIs, Pow;
    var e, x := PowerOf254();
    TenthPower();
    h := e - 10;
    CancelTenth(121665, e, x, 0x1e63f560f91198e662705a871a05eed3b357bd9e081,
                0x5a0ff41abe0394e3d4c7425d55ddebf53d13b5667766c7d1b0a27dabb3e2162f, Q);
  }

  lemma PrimeQ()
    ensures IsPrime(Q)
  {
    hide IsPrime, Certifies, PowerIs, Pow;
    PrimeP236();
    var h := NonResidue121665();
    var k, b := PrimeQPower();
    SquareOfMinusOne(121665, h, Q);
    Certify(Q, 121665, k, b, P236, 0x3319ababa8f193b8e41db03c9663af09c85869b56c644f332e9d5c77d5b53631);
    PocklingtonOne(Q, P236, b, 0x3319ababa8f193b8e41db03c9663af09c85869b56c644f332e9d5c77d5b53631);
  }
}
