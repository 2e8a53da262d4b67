/**
  The private key of the wallet: its derivation and the state computed from it (src/key.c:16-70),
  its export as text (src/api_getPrivate.c:62-99) and its import (src/api_importPriv.c:60-84).

  Hashing, HMAC-SHA512 and BIP-32 derivation belong to the secure element and are parameters.
 */
module PrivateKey {
  import opened Numerals
  import opened Wrappers
  import opened Buffers
  import Base58
  import Scalars
  import KeyDerivation

  const PROCESS_DATA := 300
  const PRIV := 112
  const PAYLOAD := 71
  const CHECKED := 80
  const HARDENED_OFFSET := 0x8000_0000

  datatype Primitives = Primitives(
    sha3: seq<Byte> -> seq<Byte>,
    keccak: seq<Byte> -> seq<Byte>,
    hmac: (seq<Byte>, seq<Byte>) -> seq<Byte>,
    derive: seq<nat> -> (seq<Byte>, seq<Byte>))
  {
    ghost predicate HashesAt(s: seq<Byte>) {
      |sha3(s)| == 32 && |keccak(s)| == 32
    }

    ghost predicate MacsAt(key: seq<Byte>, s: seq<Byte>) {
      |hmac(key, s)| == 64
    }

    ghost predicate DerivesAt(path: seq<nat>) {
      |derive(path).0| == 32 && |derive(path).1| == 32
    }

    ghost predicate Valid() {
      && (forall s :: HashesAt(s))
      && (forall key, s :: MacsAt(key, s))
      && (forall path :: DerivesAt(path))
    }

    function Sha3(s: seq<Byte>): (r: seq<Byte>)
      requires Valid()
      ensures |r| == 32 && r == sha3(s)
    {
      assert HashesAt(s);
      sha3(s)
    }

    function Keccak(s: seq<Byte>): (r: seq<Byte>)
      requires Valid()
      ensures |r| == 32 && r == keccak(s)
    {
      assert HashesAt(s);
      keccak(s)
    }

    function Hmac(key: seq<Byte>, s: seq<Byte>): (r: seq<Byte>)
      requires Valid()
      ensures |r| == 64 && r == hmac(key, s)
    {
      assert MacsAt(key, s);
      hmac(key, s)
    }

    function Derive(path: seq<nat>): (r: (seq<Byte>, seq<Byte>))
      requires Valid()
      ensures |r.0| == |r.1| == 32 && r == derive(path)
    {
      assert DerivesAt(path);
      derive(path)
    }
  }

  // ---------- the key and what is computed from it ----------

  datatype Key = Key(depth: Byte, childNumber: nat, chainCode: seq<Byte>, key: seq<Byte>)

  datatype State = State(key: Key, a: seq<Byte>, spk: seq<Byte>)

  predicate IsKey(k: Key) {
    k.childNumber < 0x1_0000_0000 && |k.chainCode| == 32 && |k.key| == 32
  }

  /** The private view key: the Keccak hash of the spend key as a scalar. */
  function ViewKey(p: Primitives, key: seq<Byte>): (a: seq<Byte>)
    requires p.Valid()
    ensures |a| == 32 && LittleEndian(a) == LittleEndian(p.Keccak(key)) % Scalars.ORDER
  {
    KeyDerivation.Scalar(LittleEndian(p.Keccak(key)))
  }

  /** `incognito_aes_derive`: the AES key is half of a double hash. */
  function ProtectionKey(p: Primitives, chainCode: seq<Byte>, a: seq<Byte>, key: seq<Byte>): (spk: seq<Byte>)
    requires p.Valid()
    ensures |spk| == 16
  {
    p.Keccak(p.Keccak(chainCode + a + key))[..16]
  }

  /** `incognito_init_crypto_state` */
  function Initialised(p: Primitives, k: Key): State
    requires p.Valid()
  {
    var a := ViewKey(p, k.key);
    State(k, a, ProtectionKey(p, k.chainCode, a, k.key))
  }

  /**
    The view key and the protection key belong to the key they are stored with: the hash of the spend
    key modulo l, and half of the double hash of chain code, view key and spend key.
   */
  ghost predicate Consistent(p: Primitives, s: State)
    requires p.Valid()
  {
    && IsKey(s.key)
    && |s.a| == 32 && LittleEndian(s.a) == LittleEndian(p.Keccak(s.key.key)) % Scalars.ORDER
    && s.spk == p.Keccak(p.Keccak(s.key.chainCode + s.a + s.key.key))[..16]
  }

  /** That law leaves no choice for the two, and they are what the initialisation computes. */
  lemma ConsistentExact(p: Primitives, s: State)
    requires p.Valid()
    ensures Consistent(p, s) <==> IsKey(s.key) && s == Initialised(p, s.key)
  {
    hide Primitives.Valid, LittleEndian;
    if Consistent(p, s) {
      LittleEndianInjective(s.a, ViewKey(p, s.key.key));
    }
  }

  function Be32(n: nat): (s: seq<Byte>)
    requires n < 0x1_0000_0000
    ensures |s| == 4 && BigEndian(s) == n
  {
    PowersOf256();
    ToBigEndian(n, 4)
  }

  /** Bit 31 set in a 32-bit path element. */
  function Hardened(n: nat): nat
    requires n < 0x1_0000_0000
  {
    if n < HARDENED_OFFSET then n + HARDENED_OFFSET else n
  }

  function Path(account: nat): seq<nat>
    requires account < 0x1_0000_0000
  {
    [Hardened(44), Hardened(587), Hardened(account), Hardened(0), Hardened(0)]
  }

  /** `incognito_gen_private_key` */
  function GeneratedKey(p: Primitives, account: nat): (k: Key)
    requires p.Valid() && account < 0x1_0000_0000
    ensures IsKey(k) && k.depth == 0 && k.childNumber == account && LittleEndian(k.key) < Scalars.ORDER
    ensures var (seed, chain) := p.Derive(Path(account));
            LittleEndian(k.key) == LittleEndian(p.Keccak(seed)) % Scalars.ORDER
            && p.Hmac(Be32(account), chain) == p.Hmac(Be32(account), chain)[..32] + k.chainCode
  {
    var (seed, chain) := p.Derive(Path(account));
    Key(0, account, p.Hmac(Be32(account), chain)[32..], KeyDerivation.Scalar(LittleEndian(p.Keccak(seed))))
  }

  /**
    The path and the fields outright: purpose 44, coin 587 and the account below bit 31, all hardened;
    the chain code is the second half of the hash keyed with the four big-endian bytes of the account.
   */
  lemma GeneratedKeyIs(p: Primitives, account: nat, number: seq<Byte>)
    requires p.Valid() && account < 0x1_0000_0000 && |number| == 4 && BigEndian(number) == account
    ensures var path :=
              [0x8000_0000 + 44, 0x8000_0000 + 587, 0x8000_0000 + account % 0x8000_0000, 0x8000_0000, 0x8000_0000];
            var (seed, chain) := p.Derive(path);
            var k := GeneratedKey(p, account);
            k.depth == 0 && k.childNumber == account && |k.key| == 32
            && LittleEndian(k.key) == LittleEndian(p.Keccak(seed)) % Scalars.ORDER
            && k.chainCode == p.Hmac(number, chain)[32..]
  {
    hide Primitives.Valid, LittleEndian, BigEndian, Path, Be32, GeneratedKey;
    PathIs(account);
    BigEndianInjective(Be32(account), number);
    ChainCodeIs(p, account);
  }

  lemma PathIs(account: nat)
    requires account < 0x1_0000_0000
    ensures Path(account)
         == [0x8000_0000 + 44, 0x8000_0000 + 587, 0x8000_0000 + account % 0x8000_0000, 0x8000_0000, 0x8000_0000]
  {
  }

  lemma ChainCodeIs(p: Primitives, account: nat)
    requires p.Valid() && account < 0x1_0000_0000
    ensures GeneratedKey(p, account).chainCode == p.Hmac(Be32(account), p.Derive(Path(account)).1)[32..]
  {
    hide Primitives.Valid, LittleEndian, Path, Be32;
  }

  // ---------- the exported text ----------

  /** Version, depth, child number, chain code, a length byte and the key. */
  function Payload(k: Key): (d: seq<Byte>)
    requires IsKey(k)
    ensures |d| == PAYLOAD
  {
    var head: seq<Byte>, length: seq<Byte> := [0, k.depth], [32];
    head + Be32(k.childNumber) + k.chainCode + length + k.key
  }

  /** Writing the slots one after the other into a cleared buffer lays out the payload. */
  lemma PayloadLaidOut(k: Key, b: seq<Byte>, b': seq<Byte>, d: seq<Byte>)
    requires IsKey(k) && |b| == PROCESS_DATA && b[0] == 0 && b[1] == k.depth && b[2..] == ZeroDigits(PROCESS_DATA - 2)
    requires b' == Put(Put(b, 2, Be32(k.childNumber)), 6, k.chainCode) && d == Put(b'[38 := 32], 39, k.key)
    ensures d == Payload(k) + ZeroDigits(PROCESS_DATA - PAYLOAD)
  {
    hide Be32, Put, ZeroDigits;
    var b1 := Put(b, 2, Be32(k.childNumber));
    assert d[39..71] == k.key && d[..39] == b'[38 := 32][..39];
    assert d[..38] == b'[..38] && d[38..39] == [32];
    assert d[6..38] == b'[6..38] == k.chainCode;
    assert d[..6] == b'[..6] == b1[..6];
    assert d[2..6] == b1[2..6] == Be32(k.childNumber);
    assert d[..2] == b1[..2] == b[..2] == [0, k.depth];
    assert d[71..] == ZeroDigits(PROCESS_DATA - PAYLOAD) by {
      assert d[71..] == b'[38 := 32][71..] == b'[71..] == b1[71..] == b[71..];
      assert b[71..] == b[2..][69..];
    }
    assert d == d[..2] + d[2..6] + d[6..38] + d[38..39] + d[39..71] + d[71..];
  }

  function Parse(d: seq<Byte>): (k: Key)
    requires |d| == PAYLOAD
    ensures IsKey(k)
  {
    BigEndianBound(d[2..6]);
    PowersOf256();
    Key(d[1], BigEndian(d[2..6]), d[6..38], d[39..71])
  }

  lemma ParseIs(d: seq<Byte>)
    requires |d| == PAYLOAD
    ensures BigEndian(d[2..6]) < 0x1_0000_0000
    ensures Parse(d) == Key(d[1], BigEndian(d[2..6]), d[6..38], d[39..71])
  {
    BigEndianBound(d[2..6]);
    PowersOf256();
  }

  function WithChecksum(p: Primitives, s: seq<Byte>): (r: seq<Byte>)
    requires p.Valid()
    ensures |r| == |s| + 4 && r[..|s|] == s && r[|s|..] == p.Sha3(s)[..4]
  {
    s + p.Sha3(s)[..4]
  }

  /** A checksum over the payload, and another over version byte, payload and checksum. */
  function Checked(p: Primitives, d: seq<Byte>): (r: seq<Byte>)
    requires p.Valid() && |d| == PAYLOAD
    ensures |r| == CHECKED
  {
    var version: seq<Byte> := [0];
    WithChecksum(p, version + WithChecksum(p, d))
  }

  function Text(p: Primitives, d: seq<Byte>): (r: string)
    requires p.Valid() && |d| == PAYLOAD
    ensures |r| <= 110
  {
    Base58.EncodeLength(Checked(p, d));
    Base58.Encode(Checked(p, d))
  }

  /** The text at the front of a cleared buffer. */
  function Screen(p: Primitives, d: seq<Byte>, size: nat): (r: seq<Byte>)
    requires p.Valid() && |d| == PAYLOAD && size >= 110
    ensures |r| == size
  {
    Base58.Ascii(Text(p, d)) + ZeroDigits(size - |Text(p, d)|)
  }

  /** What a reader of the text checks before taking the payload out of it. */
  function Read(p: Primitives, text: string): (d: Option<seq<Byte>>)
    requires p.Valid()
    ensures d.Some? ==> |d.value| == PAYLOAD
  {
    match Base58.Decode(text)
    case None => None
    case Some(bytes) =>
      var s: seq<Byte> := bytes;
      if |s| == CHECKED && s[0] == 0 && s[72..76] == p.Sha3(s[1..72])[..4] && s[76..] == p.Sha3(s[..76])[..4]
      then Some(s[1..72])
      else None
  }

  // ---------- properties of the format ----------

  /** Parsing a payload restores the four fields. */
  lemma ParseOfPayload(k: Key)
    requires IsKey(k)
    ensures Parse(Payload(k)) == k
  {
    hide BigEndian, Parse, Be32;
    var d := Payload(k);
    ParseIs(d);
    assert d[1] == k.depth && d[2..6] == Be32(k.childNumber);
    assert d[6..38] == k.chainCode;
    assert d[39..71] == k.key;
  }

  /** Writing what was parsed gives the same bytes exactly when the two fixed bytes have their values. */
  lemma PayloadOfParse(d: seq<Byte>)
    requires |d| == PAYLOAD
    ensures Payload(Parse(d)) == d <==> d[0] == 0 && d[38] == 32
  {
    hide BigEndian, ToBigEndian;
    var k, e := Parse(d), Payload(Parse(d));
    BigEndianInjective(d[2..6], Be32(k.childNumber));
    assert e[0] == 0 && e[38] == 32;
    assert d == [d[0], d[1]] + d[2..6] + d[6..38] + [d[38]] + d[39..71];
  }

  /** Both layers of checksum and Base58 can be undone: the text determines the payload. */
  lemma ReadOfText(p: Primitives, d: seq<Byte>)
    requires p.Valid() && |d| == PAYLOAD
    ensures Read(p, Text(p, d)) == Some(d)
  {
    hide Base58.Encode, Base58.Decode, Primitives.Valid;
    var s := Checked(p, d);
    Base58.DecodeEncode(s);
    var inner := WithChecksum(p, d);
    assert s[1..76] == s[..76][1..] == inner;
    assert s[1..72] == inner[..PAYLOAD] == d && s[72..76] == inner[PAYLOAD..];
  }

  /** Conversely a text that passes the checks is the one exported for its payload. */
  lemma TextOfRead(p: Primitives, text: string)
    requires p.Valid() && Read(p, text).Some?
    ensures Text(p, Read(p, text).value) == text
  {
    hide Base58.Encode, Base58.Decode, Primitives.Valid;
    Base58.EncodeDecode(text);
    var s: seq<Byte> := Base58.Decode(text).value;
    assert s[1..76] == s[1..72] + s[72..76] == WithChecksum(p, s[1..72]);
    assert s[..76] == [s[0]] + s[1..76] && s == s[..76] + s[76..];
  }

  // ---------- the handlers, as steps of the device ----------

  datatype Device = Device(state: State, processData: seq<Byte>, priv: seq<Byte>)

  predicate IsDevice(d: Device) {
    |d.processData| == PROCESS_DATA && |d.priv| == PRIV
  }

  /** `incognito_init_private_key`: the key of account 2. */
  function InitStep(p: Primitives, d: Device): (r: Device)
    requires p.Valid() && IsDevice(d)
    ensures IsDevice(r) && IsKey(r.state.key)
  {
    d.(state := Initialised(p, GeneratedKey(p, 2)))
  }

  /** The data of the command over what `processData` held. */
  function Received(d: Device, data: seq<Byte>): (r: seq<Byte>)
    requires IsDevice(d) && |data| <= PROCESS_DATA
    ensures |r| == PROCESS_DATA
  {
    data + d.processData[|data|..]
  }

  /** `handleImportPrivate` */
  function ImportStep(p: Primitives, d: Device, data: seq<Byte>): (r: Device)
    requires p.Valid() && IsDevice(d) && |data| <= PROCESS_DATA
    ensures IsDevice(r)
  {
    var received := Received(d, data);
    var payload := received[..PAYLOAD];
    Device(Initialised(p, Parse(payload)), WithChecksum(p, payload) + received[PAYLOAD + 4..], Screen(p, payload, PRIV))
  }

  /** `handleGetPrivate` */
  function ExportStep(p: Primitives, d: Device): (r: Device)
    requires p.Valid() && IsDevice(d) && IsKey(d.state.key)
    ensures IsDevice(r) && r.state == d.state
  {
    d.(processData := Screen(p, Payload(d.state.key), PROCESS_DATA))
  }

  // ---------- what the handlers do, byte by byte ----------

  /** The key is laid out in these slots. */
  ghost predicate Slots(d: seq<Byte>, k: Key) {
    && |d| == 71 && d[1] == k.depth && BigEndian(d[2..6]) == k.childNumber
    && d[6..38] == k.chainCode && d[39..71] == k.key
  }

  lemma ParseSlots(d: seq<Byte>)
    requires |d| == PAYLOAD
    ensures Slots(d, Parse(d))
  {
    hide BigEndian;
    ParseIs(d);
  }

  lemma PayloadSlots(k: Key)
    requires IsKey(k)
    ensures Slots(Payload(k), k) && Payload(k)[0] == 0 && Payload(k)[38] == 32
  {
    hide Parse, BigEndian, Be32;
    ParseOfPayload(k);
    ParseSlots(Payload(k));
  }

  /** The characters of a buffer. */
  function AsText(b: seq<Byte>): (s: string)
    requires forall i :: 0 <= i < |b| ==> b[i] < 128
    ensures |s| == |b| && forall i :: 0 <= i < |b| ==> s[i] as int == b[i]
  {
    seq(|b|, i requires 0 <= i < |b| => b[i] as char)
  }

  /** The first `n` bytes are a text that passes both checks and yields `d`; zeros follow. */
  ghost predicate Shows(p: Primitives, b: seq<Byte>, n: nat, d: seq<Byte>)
    requires p.Valid()
  {
    && n <= 110 && n <= |b| && (forall i :: n <= i < |b| ==> b[i] == 0)
    && (forall i :: 0 <= i < n ==> 0 < b[..n][i] < 128)
    && Read(p, AsText(b[..n])) == Some(d)
  }

  lemma ScreenShows(p: Primitives, d: seq<Byte>, size: nat)
    requires p.Valid() && |d| == PAYLOAD && size >= 110
    ensures Shows(p, Screen(p, d, size), |Text(p, d)|, d)
  {
    hide Base58.Encode, Primitives.Valid, Read, Base58.Ascii;
    var text, b := Text(p, d), Screen(p, d, size);
    Base58.EncodeIsAscii(Checked(p, d));
    ReadOfText(p, d);
    assert b[..|text|] == Base58.Ascii(text);
    assert AsText(b[..|text|]) == text;
  }

  /** Start-up: the key of account 2. */
  lemma StartUp(p: Primitives, d: Device)
    requires p.Valid() && IsDevice(d)
    ensures var (seed, chain) :=
              p.Derive([0x8000_0000 + 44, 0x8000_0000 + 587, 0x8000_0000 + 2, 0x8000_0000, 0x8000_0000]);
            var s := InitStep(p, d).state;
            Consistent(p, s) && s.key.depth == 0 && s.key.childNumber == 2
            && LittleEndian(s.key.key) == LittleEndian(p.Keccak(seed)) % Scalars.ORDER
            && s.key.chainCode == p.Hmac([0, 0, 0, 2], chain)[32..]
    ensures InitStep(p, d).processData == d.processData && InitStep(p, d).priv == d.priv
  {
    hide Primitives.Valid, LittleEndian, BigEndian, GeneratedKey, Consistent, Initialised;
    FourBytes([0, 0, 0, 2]);
    GeneratedKeyIs(p, 2, [0, 0, 0, 2]);
    ConsistentExact(p, Initialised(p, GeneratedKey(p, 2)));
    KeyKept(p, GeneratedKey(p, 2));
  }

  lemma KeyKept(p: Primitives, k: Key)
    requires p.Valid()
    ensures Initialised(p, k).key == k
  {
  }

  lemma FourBytes(s: seq<Byte>)
    requires |s| == 4
    ensures BigEndian(s) == s[0] as nat * 0x100_0000 + s[1] as nat * 0x1_0000 + s[2] as nat * 256 + s[3] as nat
  {
    ValueEmpty(256, s[..0]);
    assert s[..0] + [s[0]] == s[..1] && s[..1] + [s[1]] == s[..2];
    assert s[..2] + [s[2]] == s[..3] && s[..3] + [s[3]] == s;
    ValueAppend(256, s[..0], s[0]);
    ValueAppend(256, s[..1], s[1]);
    ValueAppend(256, s[..2], s[2]);
    ValueAppend(256, s[..3], s[3]);
  }

  /**
    An import replaces the key by the slots of what was received, completed by what an earlier command
    left behind; the other two keys follow, and the screen reads as those bytes.
   */
  lemma ImportIs(p: Primitives, d: Device, data: seq<Byte>) returns (n: nat)
    requires p.Valid() && IsDevice(d) && |data| <= PROCESS_DATA
    ensures var received := (data + d.processData[|data|..])[..71];
            var r := ImportStep(p, d, data);
            Consistent(p, r.state) && Slots(received, r.state.key)
            && Shows(p, r.priv, n, received)
            && r.processData == received + p.Sha3(received)[..4] + (data + d.processData[|data|..])[75..]
  {
    hide Primitives.Valid, Consistent, Initialised, Parse, Shows, Screen, WithChecksum;
    var payload := Received(d, data)[..PAYLOAD];
    n := |Text(p, payload)|;
    ConsistentExact(p, Initialised(p, Parse(payload)));
    KeyKept(p, Parse(payload));
    ParseSlots(payload);
    ScreenShows(p, payload, PRIV);
    var checked := WithChecksum(p, payload);
    assert checked == checked[..PAYLOAD] + checked[PAYLOAD..];
  }

  /** An export shows a text that reads as the slots of the current key, and changes nothing else. */
  lemma ExportIs(p: Primitives, d: Device) returns (n: nat, payload: seq<Byte>)
    requires p.Valid() && IsDevice(d) && IsKey(d.state.key)
    ensures var r := ExportStep(p, d);
            Shows(p, r.processData, n, payload) && Slots(payload, d.state.key) && payload[0] == 0 && payload[38] == 32
            && r.state == d.state && r.priv == d.priv
  {
    hide Primitives.Valid, Shows, Screen;
    payload := Payload(d.state.key);
    n := |Text(p, payload)|;
    PayloadSlots(d.state.key);
    ScreenShows(p, payload, PROCESS_DATA);
  }

  // ---------- main results ----------

  /**
    An exported key restores the whole state, on whatever device it is imported, and both screens
    show the same text.
   */
  lemma ExportThenImport(p: Primitives, from: Device, to: Device)
    requires p.Valid() && IsDevice(from) && IsDevice(to) && Consistent(p, from.state)
    ensures var payload := Payload(from.state.key);
            var r := ImportStep(p, to, payload);
            r.state == from.state
            && r.priv == Screen(p, payload, PRIV) && ExportStep(p, from).processData == Screen(p, payload, PROCESS_DATA)
            && Read(p, Text(p, payload)) == Some(payload)
  {
    hide Primitives.Valid, Consistent, Payload, Parse, Read, Screen, Initialised;
    ConsistentExact(p, from.state);
    KeyOfConsistent(p, from.state);
    var payload := Payload(from.state.key);
    ParseOfPayload(from.state.key);
    assert Received(to, payload)[..PAYLOAD] == payload;
    ReadOfText(p, payload);
  }

  lemma KeyOfConsistent(p: Primitives, s: State)
    requires p.Valid() && Consistent(p, s)
    ensures IsKey(s.key)
  {
  }

  /**
    After importing 71 bytes, exporting shows the text the import showed exactly when the version
    byte is 0 and the length byte is 32.
   */
  lemma ImportThenExport(p: Primitives, d: Device, data: seq<Byte>)
    requires p.Valid() && IsDevice(d) && |data| == PAYLOAD
    ensures var r := ImportStep(p, d, data);
            r.priv == Screen(p, data, PRIV)
            && (ExportStep(p, r).processData == Screen(p, data, PROCESS_DATA) <==> data[0] == 0 && data[38] == 32)
  {
    hide Primitives.Valid, Screen, Payload, Parse;
    assert Received(d, data)[..PAYLOAD] == data;
    PayloadOfParse(data);
    ScreenInjective(p, Payload(Parse(data)), data, PROCESS_DATA);
  }

  lemma ScreenInjective(p: Primitives, d: seq<Byte>, e: seq<Byte>, size: nat)
    requires p.Valid() && |d| == |e| == PAYLOAD && size >= 110
    ensures Screen(p, d, size) == Screen(p, e, size) <==> d == e
  {
    hide Base58.Encode, Primitives.Valid;
    if Screen(p, d, size) == Screen(p, e, size) {
      TextEnds(p, d, size);
      TextEnds(p, e, size);
      var n, m := |Text(p, d)|, |Text(p, e)|;
      assert n < size ==> Screen(p, d, size)[n] == 0;
      assert m < size ==> Screen(p, e, size)[m] == 0;
      assert n == m;
      assert Base58.Ascii(Text(p, d)) == Screen(p, d, size)[..|Text(p, d)|];
      assert Base58.Ascii(Text(p, e)) == Screen(p, e, size)[..|Text(p, e)|];
      Base58.AsciiInjective(Checked(p, d), Checked(p, e));
      ReadOfText(p, d);
      ReadOfText(p, e);
    }
  }

  /** The text holds no zero byte, so the buffer shows where it ends. */
  lemma TextEnds(p: Primitives, d: seq<Byte>, size: nat)
    requires p.Valid() && |d| == PAYLOAD && size >= 110
    ensures var n := |Text(p, d)|;
            forall i :: 0 <= i < size ==> (Screen(p, d, size)[i] == 0 <==> n <= i)
  {
    hide Base58.Encode, Primitives.Valid;
    Base58.EncodeIsAscii(Checked(p, d));
  }

  /** Importing the payload of any text that passes the checks shows that very text. */
  lemma ImportShowsText(p: Primitives, d: Device, text: string)
    requires p.Valid() && IsDevice(d) && Read(p, text).Some?
    ensures |text| <= 110
    ensures ImportStep(p, d, Read(p, text).value).priv == Base58.Ascii(text) + ZeroDigits(PRIV - |text|)
  {
    hide Primitives.Valid, Read, Base58.Encode, Base58.Decode;
    var payload := Read(p, text).value;
    TextOfRead(p, text);
    assert Received(d, payload)[..PAYLOAD] == payload;
  }

  // ---------- runs ----------

  /** Any other handler may leave anything in `processData`; none of them touches the key. */
  datatype Command = Init | Import(data: seq<Byte>) | Export | Other(left: seq<Byte>)

  predicate IsCommand(c: Command) {
    (c.Import? ==> |c.data| <= PROCESS_DATA) && (c.Other? ==> |c.left| == PROCESS_DATA)
  }

  function Step(p: Primitives, d: Device, c: Command): (r: Device)
    requires p.Valid() && IsDevice(d) && IsKey(d.state.key) && IsCommand(c)
    ensures IsDevice(r) && IsKey(r.state.key)
  {
    match c
    case Init => InitStep(p, d)
    case Import(data) => ImportStep(p, d, data)
    case Export => ExportStep(p, d)
    case Other(left) => d.(processData := left)
  }

  function Run(p: Primitives, d: Device, cs: seq<Command>): (r: Device)
    requires p.Valid() && IsDevice(d) && IsKey(d.state.key) && forall c :: c in cs ==> IsCommand(c)
    ensures IsDevice(r) && IsKey(r.state.key)
    decreases |cs|
  {
    if cs == [] then d
    else Step(p, Run(p, d, cs[..|cs| - 1]), cs[|cs| - 1])
  }

  /** From start-up on, view key and protection key always belong to the current key. */
  lemma {:induction false} RunConsistent(p: Primitives, d: Device, cs: seq<Command>)
    requires p.Valid() && IsDevice(d) && IsKey(d.state.key) && forall c :: c in cs ==> IsCommand(c)
    ensures Consistent(p, Run(p, InitStep(p, d), cs).state)
    decreases |cs|
  {
    hide Primitives.Valid, IsDevice, Consistent, Step, InitStep;
    if cs == [] {
      StepConsistent(p, d, Init);
    } else {
      RunConsistent(p, d, cs[..|cs| - 1]);
      StepConsistent(p, Run(p, InitStep(p, d), cs[..|cs| - 1]), cs[|cs| - 1]);
    }
  }

  lemma StepConsistent(p: Primitives, d: Device, c: Command)
    requires p.Valid() && IsDevice(d) && IsKey(d.state.key) && IsCommand(c)
    requires c.Init? || Consistent(p, d.state)
    ensures Consistent(p, Step(p, d, c).state) && Step(p, d, Init) == InitStep(p, d)
  {
    hide Primitives.Valid, GeneratedKey, Screen;
  }

  predicate KeepsKey(c: Command) {
    c.Export? || c.Other?
  }

  /**
    The last complete import decides the state, all at once: nothing of what the device held before
    and nothing a later export or other command does shows in it.
   */
  lemma {:induction false} LastImportDecides(p: Primitives, d: Device, data: seq<Byte>, cs: seq<Command>)
    requires p.Valid() && IsDevice(d) && IsKey(d.state.key) && PAYLOAD <= |data| <= PROCESS_DATA
    requires forall c :: c in cs ==> IsCommand(c) && KeepsKey(c)
    ensures Run(p, Step(p, d, Import(data)), cs).state == Initialised(p, Parse(data[..PAYLOAD]))
    ensures var s := Run(p, Step(p, d, Import(data)), cs).state; Consistent(p, s) && Slots(data[..71], s.key)
    decreases |cs|
  {
    hide Primitives.Valid, IsDevice, Step, Initialised, Parse, Consistent, Slots;
    if cs == [] {
      ImportDecides(p, d, data);
      ConsistentExact(p, Initialised(p, Parse(data[..PAYLOAD])));
      KeyKept(p, Parse(data[..PAYLOAD]));
      ParseSlots(data[..PAYLOAD]);
    } else {
      LastImportDecides(p, d, data, cs[..|cs| - 1]);
      StepKeeps(p, Run(p, Step(p, d, Import(data)), cs[..|cs| - 1]), cs[|cs| - 1]);
    }
  }

  lemma ImportDecides(p: Primitives, d: Device, data: seq<Byte>)
    requires p.Valid() && IsDevice(d) && IsKey(d.state.key) && PAYLOAD <= |data| <= PROCESS_DATA
    ensures Step(p, d, Import(data)).state == Initialised(p, Parse(data[..PAYLOAD]))
  {
    hide Primitives.Valid, Screen, Parse;
    assert Received(d, data)[..PAYLOAD] == data[..PAYLOAD];
  }

  lemma StepKeeps(p: Primitives, d: Device, c: Command)
    requires p.Valid() && IsDevice(d) && IsKey(d.state.key) && IsCommand(c) && KeepsKey(c)
    ensures Step(p, d, c).state == d.state
  {
    hide Primitives.Valid, Screen;
  }

  // ---------- the code ----------

  class Wallet {
    const p: Primitives
    var depth: Byte
    var childNumber: nat
    const chainCode: array<Byte>
    const key: array<Byte>
    const a: array<Byte>
    var spk: seq<Byte>
    const processData: array<Byte>
    const priv: array<Byte>

    ghost predicate Valid()
      reads this
    {
      && p.Valid() && childNumber < 0x1_0000_0000
      && chainCode.Length == key.Length == a.Length == 32
      && processData.Length == PROCESS_DATA && priv.Length == PRIV
      && chainCode != key && chainCode != a && key != a
      && processData !in {chainCode, key, a} && priv !in {chainCode, key, a, processData}
    }

    /** The zeroed memory of a device that has just started. */
    constructor (p: Primitives)
      requires p.Valid()
      ensures Valid() && this.p == p
      ensures Abs() == Device(State(Key(0, 0, ZeroDigits(32), ZeroDigits(32)), ZeroDigits(32), []),
                              ZeroDigits(PROCESS_DATA), ZeroDigits(PRIV))
      ensures fresh(chainCode) && fresh(key) && fresh(a) && fresh(processData) && fresh(priv)
    {
      this.p := p;
      depth, childNumber, spk := 0, 0, [];
      chainCode, key, a := new Byte[32](_ => 0), new Byte[32](_ => 0), new Byte[32](_ => 0);
      processData, priv := new Byte[PROCESS_DATA](_ => 0), new Byte[PRIV](_ => 0);
    }

    ghost function CurrentKey(): Key
      reads this, chainCode, key
    {
      Key(depth, childNumber, chainCode[..], key[..])
    }

    ghost function Abs(): Device
      reads this, chainCode, key, a, processData, priv
    {
      Device(State(CurrentKey(), a[..], spk), processData[..], priv[..])
    }

    method Reset()
      requires Valid()
      modifies `depth, `childNumber, chainCode, key
      ensures Valid() && CurrentKey() == Key(0, 0, ZeroDigits(32), ZeroDigits(32))
    {
      depth, childNumber := 0, 0;
      Store(chainCode, ZeroDigits(32));
      Store(key, ZeroDigits(32));
    }

    method InitCryptoState()
      requires Valid()
      modifies `spk, a
      ensures Valid() && Abs() == old(Abs()).(state := Initialised(p, CurrentKey()))
    {
      hide Primitives.Valid, LittleEndian, ToLittleEndian;
      Store(a, p.Keccak(key[..]));
      Scalars.Reduce(a, a);
      LittleEndianInjective(a[..], ViewKey(p, key[..]));
      var h1 := p.Keccak(chainCode[..] + a[..] + key[..]);
      h1 := p.Keccak(h1);
      spk := h1[..16];
    }

    method GenPrivateKey(account: nat)
      requires Valid() && account < 0x1_0000_0000
      modifies `depth, `childNumber, chainCode, key
      ensures Valid() && CurrentKey() == GeneratedKey(p, account)
    {
      hide Primitives.Valid, LittleEndian, ToLittleEndian;
      var bip32Path := [Hardened(44), Hardened(587), Hardened(0), Hardened(0), Hardened(0)];
      bip32Path := bip32Path[2 := Hardened(account)];
      assert bip32Path == Path(account);
      var (seed, chain) := p.Derive(bip32Path);
      Store(chainCode, chain);
      Store(key, p.Keccak(seed));
      Scalars.Reduce(key, key);
      LittleEndianInjective(key[..], KeyDerivation.Scalar(LittleEndian(p.Keccak(seed))));
      depth, childNumber := 0, account;
      var buffer := p.Hmac(Be32(childNumber), chainCode[..]);
      Store(chainCode, buffer[32..]);
    }

    method InitPrivateKey()
      requires Valid()
      modifies this, chainCode, key, a
      ensures Valid() && Abs() == InitStep(p, old(Abs()))
    {
      hide Primitives.Valid;
      Reset();
      GenPrivateKey(2);
      InitCryptoState();
    }

    /** Lays out version, depth, child number, chain code, length byte and key. */
    method BuildPayload()
      requires Valid()
      modifies processData
      ensures processData[..] == Payload(CurrentKey()) + ZeroDigits(PROCESS_DATA - PAYLOAD)
    {
      hide Primitives.Valid, Be32, Payload, ZeroDigits, Put;
      Write(processData, 0, ZeroDigits(PROCESS_DATA));
      processData[0] := 0;
      processData[1] := depth;
      ghost var b := processData[..];
      Write(processData, 2, Be32(childNumber));
      Write(processData, 6, chainCode[..]);
      ghost var b' := processData[..];
      processData[38] := 32;
      assert processData[..] == b'[38 := 32];
      Write(processData, 39, key[..]);
      PayloadLaidOut(CurrentKey(), b, b', processData[..]);
    }

    /** Exports the key: afterwards `processData` holds the text and zeros. */
    method GetPrivate()
      requires Valid()
      modifies processData
      ensures Valid() && Abs() == ExportStep(p, old(Abs()))
    {
      hide Primitives.Valid, Payload, Base58.Encode;
      BuildPayload();
      ghost var payload := Payload(CurrentKey());
      assert processData[..PAYLOAD] == payload;
      var buffer := new Byte[32];
      var base58check := CheckTwice(p, processData, buffer);
      Write(processData, 0, ZeroDigits(PROCESS_DATA));
      assert processData[..] == ZeroDigits(PROCESS_DATA);
      var length := EncodeInto(p, base58check, payload, processData);
      ClearAgain(processData, length + 3);
    }

    /** Answers an approved export: the first 116 bytes, after which the buffer is cleared. */
    method SetResultGetPrivate() returns (response: seq<Byte>)
      requires Valid()
      modifies processData
      ensures Valid() && response == old(processData[..116])
      ensures Abs() == old(Abs()).(processData := ZeroDigits(PROCESS_DATA))
    {
      response := processData[..116];
      Write(processData, 0, ZeroDigits(PROCESS_DATA));
    }

    /** Replaces the four key fields by those in `processData`. */
    method LoadKey()
      requires Valid()
      modifies `depth, `childNumber, chainCode, key
      ensures Valid() && CurrentKey() == Parse(processData[..PAYLOAD])
    {
      hide Primitives.Valid, BigEndian, Parse, ZeroDigits;
      ghost var d := processData[..PAYLOAD];
      assert d[2..6] == processData[2..6] && d[6..38] == processData[6..38] && d[39..71] == processData[39..71];
      ParseIs(d);
      Reset();
      depth := processData[1];
      childNumber := BigEndian(processData[2..6]);
      Store(chainCode, processData[6..38]);
      Store(key, processData[39..71]);
    }

    method ImportPrivate(data: seq<Byte>)
      requires Valid() && |data| <= PROCESS_DATA
      modifies this, chainCode, key, a, processData, priv
      ensures Valid() && Abs() == ImportStep(p, old(Abs()), data)
    {
      hide Primitives.Valid, Parse, Base58.Encode, WithChecksum, Initialised, Screen;
      ghost var received := Received(Abs(), data);
      ghost var payload := received[..PAYLOAD];
      Write(processData, 0, data);
      assert processData[..] == received;
      var base58check := CheckTwice(p, processData, priv);
      ghost var checked := processData[..];
      Write(priv, 0, ZeroDigits(PRIV));
      assert priv[..] == ZeroDigits(PRIV);
      var length := EncodeInto(p, base58check, payload, priv);
      ClearAgain(priv, length);
      assert processData[..PAYLOAD] == checked[..PAYLOAD] == payload;
      LoadKey();
      InitCryptoState();
    }
  }

  /** Stores a terminator where the buffer is zero already. */
  method ClearAgain(to: array<Byte>, at: nat)
    requires at < to.Length && to[at] == 0
    modifies to
    ensures to[..] == old(to[..])
  {
    to[at] := 0;
  }

  /** `incognito_add_B58checksum` */
  method AddB58Checksum(p: Primitives, preEncode: array<Byte>, len: nat, buf: array<Byte>)
    requires p.Valid() && len + 4 <= preEncode.Length && buf.Length >= 32 && buf != preEncode
    modifies preEncode, buf
    ensures preEncode[..] == WithChecksum(p, old(preEncode[..len])) + old(preEncode[len + 4..])
  {
    hide Primitives.Valid;
    Write(buf, 0, p.Sha3(preEncode[..len]));
    Write(preEncode, len, buf[..4]);
  }

  /** Both checksums, as the two handlers compute them with a scratch buffer cleared in between. */
  method CheckTwice(p: Primitives, data: array<Byte>, scratch: array<Byte>) returns (base58check: array<Byte>)
    requires p.Valid() && data.Length == PROCESS_DATA && scratch.Length >= 32 && scratch != data
    modifies data, scratch
    ensures fresh(base58check) && base58check[..] == Checked(p, old(data[..PAYLOAD]))
    ensures data[..] == WithChecksum(p, old(data[..PAYLOAD])) + old(data[PAYLOAD + 4..])
  {
    hide Primitives.Valid;
    base58check := new Byte[CHECKED];
    AddB58Checksum(p, data, PAYLOAD, scratch);
    Write(scratch, 0, ZeroDigits(scratch.Length));
    base58check[0] := 0;
    Write(base58check, 1, data[..75]);
    assert data[..75] == WithChecksum(p, old(data[..PAYLOAD]));
    var version: seq<Byte> := [0];
    assert base58check[..76] == version + data[..75];
    AddB58Checksum(p, base58check, 76, scratch);
  }

  /** Base58 of the checked bytes into a cleared buffer: the text fits, with room for its terminator. */
  method EncodeInto(p: Primitives, base58check: array<Byte>, ghost payload: seq<Byte>, out: array<Byte>)
    returns (length: nat)
    requires p.Valid() && |payload| == PAYLOAD && base58check[..] == Checked(p, payload)
    requires out.Length >= PRIV && out[..] == ZeroDigits(out.Length)
    modifies out
    ensures length == |Text(p, payload)| && length <= 110
    ensures out[..] == Screen(p, payload, out.Length) && forall i :: length <= i < out.Length ==> out[i] == 0
  {
    hide Primitives.Valid, Base58.Encode;
    Base58.EncodeLength(base58check[..]);
    var r := Base58.EncodeBase58(base58check[..], out, 116);
    length := r.length;
  }
}
