# Verified model of the Incognito Ledger application

This project models the computing core of the repository in Dafny and proves what it is for. The
model follows the code: buffers are arrays that methods overwrite, objects are classes, loops are
loops, and each method is tied by its contract to a specification function whose properties are
proved as lemmas. `dafny verify dfyconfig.toml` checks everything.

| module | file modelled | what is proved |
|---|---|---|
| `Arithmetic`, `Numerals`, `NumberTheory`, `FieldAlgebra`, `AbelianGroup`, `Buffers`, `Wrappers` | | memory moves, powers, positional numerals, primes and congruences, quadratic residues, commutative groups |
| `PrimeCertificate` | `src/crypto.c` | 2^255 - 19 is prime (a chain of Pocklington certificates) and 121665 is not a square modulo it |
| `Curve`, `MapStages`, `HashToCurve` | `src/crypto.c` | the constants, the point encoding, and the map from 32 bytes to edwards25519 |
| `Scalars`, `Varint` | `src/crypto.c` | scalars modulo l on little-endian buffers, variable-length integers |
| `KeyDerivation`, `KeyOperations` | `src/crypto.c`, `src/api_genKeyImage.c` | one-time keys, cofactor handling and key images, as functions on bytes and as buffer-writing methods |
| `Amount` | `src/crypto.c` | decimal printing |
| `Base58` | `src/utils.c` | both Base58 encoders |
| `PrivateKey` | `src/key.c`, `src/api_getPrivate.c`, `src/api_importPriv.c` | key derivation, export, import and all runs of them |
| `HidFraming` | `cli/nanos.go` | the packet framing, its reader as a state machine, and runs of exchanges |
| `Wildcard` | `usbtool/opendevice.c` | the shell-pattern matcher |

Nothing is assumed about the field: its prime, the non-residues and the constants are proved. What
the secure element computes enters as a parameter with a stated law: Keccak, SHA-3, HMAC and BIP-32
derivation are arbitrary functions with the right output lengths; point addition is any operation
that makes the curve a commutative group of exponent 8 * l in which the base point has order l;
decompression inverts the compression that `Curve` defines. Modular arithmetic of the secure element
is modelled by its meaning.

Where code and documentation disagree, the code is modelled:

- The comment at `src/crypto.c:291` calls `C_fe_sqrtm1` a root of 2A(A+2); the value is a root of -1
  (`Curve.ConstantsCorrect`).
- The comment on `incognito_amount2str` says "return 0 if ok, 1 if missing decimal". The code returns
  0 exactly when the amount is not zero and its text fits before a terminator (`Amount.ResultExact`):
  zero is printed as "0", without the dot of every other text, and reported with 1 at every buffer
  size (`Amount.ZeroPrinted`). In a buffer of a single character zero also leaves no terminator, the
  only case that does not (`Amount.TerminatorExact`).
- `incognito_uint642str` carries the same comment but returns nothing; it throws when the digits do
  not fit, and prints the empty text exactly for zero (`Amount.Uint64Text`).
- The code drops an assertion of the original Monero map (`src/crypto.c:227`); it always holds
  (`HashToCurve.Field.BranchesExhaustive`).

## Model

| member | source | states |
|---|---|---|
| PrimeCertificate.PrimeQ | src/crypto.c:47-50 | the literal field modulus 2^255 - 19 is prime, with no assumption |
| PrimeCertificate.NonResidue121665 | src/crypto.c:434-439 | 121665 is not a square modulo the field prime, so the last division of the map is always possible |
| Curve.ConstantsCorrect | src/crypto.c:246-298 | every literal is the root, product or exponent it is used as; C_fe_sqrtm1 squares to -1 |
| HashToCurve.Field.InvM | src/crypto.c:439 | a residue that is not zero times its computed inverse is 1 |
| Curve.AMinusTwoNonSquare | src/crypto.c:434-439 | A - 2 is not a square |
| FieldAlgebra.SameAbscissa | src/crypto.c:442-443 | y and the parity of x determine x on the curve |
| Curve.CompressInjective | src/crypto.c:442-443 | distinct curve points have distinct 32-byte encodings |
| FieldAlgebra.RootCandidate | src/crypto.c:371-383 | the exponentiation gives an r with r^2 * x = w * c where c is a fourth root of unity |
| FieldAlgebra.EdwardsEquation | src/crypto.c:434-441 | a point of the quadratic form divides into a point with -x^2 + y^2 = 1 + d x^2 y^2 |
| FieldAlgebra.DenominatorNonZero | src/crypto.c:434-439 | z + w is never zero for such a point |
| HashToCurve.Field.StagesNonZero | src/crypto.c:360-369 | for every input w and x are not zero |
| HashToCurve.Field.BranchesExhaustive | src/crypto.c:385-427 | one of the four comparisons holds for every input, so the unchecked last branch has w + x = 0 |
| HashToCurve.Field.BranchGood | src/crypto.c:385-427 | each branch leaves rX^2 * x = -(A+2) * z * w, and sign is 0 exactly when w * x is a square |
| HashToCurve.Field.SetSignGood | src/crypto.c:428-433 | the fix-up keeps that equation, makes the parity of rX equal to sign, and never meets rX = 0 with sign 1 |
| HashToCurve.Field.CandidateCorrect | src/crypto.c:360-439 | what the final division relies on: the quadratic form, the parity, and an invertible rZ |
| MapStages.AffineCorrect | src/crypto.c:434-441 | the division yields a curve point whose x is rX and whose y is (z - w)/(z + w) |
| HashToCurve.Curve25519Valid | src/crypto.c:246-298 | the literals of the source form a prime field with every law the map needs |
| HashToCurve.Field.AffineOnCurve | src/crypto.c:434-441 | for every input the division is possible and its result lies on the curve, with x equal to rX |
| HashToCurve.ImagePoint | src/crypto.c:300-460 | for every 32 bytes the computed point satisfies the curve equation of edwards25519 |
| HashToCurve.ImagePointIs | src/crypto.c:300-460 | the point mapped from 32 bytes is the one the characterisation admits for their little-endian value |
| HashToCurve.Field.MapToCurve | src/crypto.c:300-460 | for every field element the computed point satisfies the curve equation |
| HashToCurve.Field.MapIsImage | src/crypto.c:300-460 | the result is the image in a branch-free characterisation: one quadratic character, the birational map, a parity |
| HashToCurve.Field.ImageUnique | src/crypto.c:300-460 | that characterisation admits exactly one point |
| HashToCurve.Field.MapFibres | src/crypto.c:300-460 | two inputs have the same image exactly when they agree or are opposite modulo q |
| HashToCurve.Field.MapIsEven | src/crypto.c:300-460 | u and q - u have the same image |
| HashToCurve.Field.Map | src/crypto.c:360-441 | the statements, branch by branch, compute that point; the dropped assertion holds and the inverse is never asked of zero |
| HashToCurve.GeFromFeFromBytes | src/crypto.c:300-460 | reverses and reduces the bytes, maps them and writes the encoding of the one point the characterisation admits, in place too |
| HashToCurve.Field.DivPowM1Steps | src/crypto.c:371-383 | for non-zero w and x the in-place steps give an r with r^2 * x = w * c, c a fourth root of unity |
| Scalars.Reverse32 | src/crypto.c:133-143 | 32 bytes are reversed, also in place |
| Numerals.ReverseInvolution | src/crypto.c:133-143 | reversing twice restores the bytes |
| Scalars.AddM | src/crypto.c:835-844 | the little-endian sum modulo l, with output and inputs possibly the same buffer |
| Scalars.SubM | src/crypto.c:849-858 | the difference modulo l, aliasing allowed |
| Scalars.MultM | src/crypto.c:862-871 | the product modulo l, aliasing allowed |
| Scalars.MultM8 | src/crypto.c:876-886 | eight times the scalar modulo l, aliasing allowed |
| Scalars.Reduce | src/crypto.c:891-897 | the residue modulo l, aliasing allowed |
| Scalars.RngModOrder | src/crypto.c:902-908 | the 320-bit random number modulo l in 32 little-endian bytes |
| Scalars.LowBytes | src/crypto.c:906-907 | the residue sits in the last 32 of the 40 bytes |
| Scalars.CheckScalarRange1N | src/crypto.c:642-650 | accepts exactly 1 to l - 1 |
| Scalars.OrderIs | src/crypto.c:42-45 | l is 2^252 + 27742317777372353535851937790883648493 |
| Varint.EncodeVarint | src/crypto.c:88-104 | throws exactly when v >= 128^max_len, otherwise writes the encoding and nothing outside it |
| Varint.DecodeVarint | src/crypto.c:109-128 | reads exactly the first terminated group string within max_len, or throws when there is none |
| Varint.EncodeTerminated | src/crypto.c:88-104 | an encoding carries its value and ends at its first byte below 128 |
| Varint.EncodeLength | src/crypto.c:88-104 | the encoding has at most k bytes exactly when v < 128^k |
| Varint.EncodeMinimal | src/crypto.c:88-104 | no terminated string of the same value is shorter, and none of the same length differs |
| Varint.ShortestIsEncode | src/crypto.c:88-104 | a string is the encoding exactly when it is terminated, has the value, and none shorter does |
| Varint.EncodeInjective | src/crypto.c:88-104 | encodings are prefix-free |
| Varint.RoundTrip | src/crypto.c:88-128 | decoding an encoding followed by anything gives value and length back, or throws exactly when it is too long |
| KeyDerivation.BaseOnCurve | src/crypto.c:28-36 | the literal base point satisfies the curve equation |
| KeyDerivation.BaseIs | src/crypto.c:28-36 | the base point is the one with y = 4/5 and even x |
| KeyDerivation.Sdk.PointOperations | src/crypto.c:665-741 | the scalar multiplications fail exactly where decompression does and otherwise encode n, 8 or 8n mod l times the point |
| KeyDerivation.Sdk.PointSums | src/crypto.c:746-786 | addition and subtraction fail exactly where one of the points does not decompress and otherwise encode sum and difference |
| KeyDerivation.Sdk.SharedSecretIs | src/crypto.c:507-511 | the shared secret encodes 8s mod l times the point, 8s times it for points of order dividing l, and is missing exactly for invalid points |
| KeyDerivation.Sdk.DerivationScalarIs | src/crypto.c:516-527 | the scalar is the Keccak hash, modulo l, of the secret followed by the shortest varint of the index; secret and index are determined by the hashed string, whose varint has at most five bytes |
| KeyDerivation.Sdk.SecretKeyIs | src/crypto.c:532-542 | the one-time secret key is that hash plus the private key, modulo l |
| KeyDerivation.Sdk.PublicKeysAre | src/crypto.c:547-592 | that hash times the base point is added to the key by derive_public_key and taken away by derive_subaddress_public_key; both fail exactly for invalid points |
| KeyDerivation.Sdk.OneTimeKeysAgree | src/crypto.c:532-557 | derive_public_key of x*G is derive_secret_key of x times G |
| KeyDerivation.Sdk.SubaddressUndoesDerivation | src/crypto.c:547-592 | derive_subaddress_public_key undoes derive_public_key for every curve point |
| KeyDerivation.MinusReduced | src/crypto.c:768-786 | subtracting from the prime gives a reduced coordinate exactly for x other than 0; for x = 0 it gives the prime itself, which reads as the point unchanged |
| KeyDerivation.Sdk.KeyDerivationSymmetric | src/crypto.c:507-511 | the shared secret is the same from either side |
| KeyDerivation.Sdk.PaymentReceived | src/crypto.c:507-592 | sender and receiver derive one secret, the receiver recovers the own spend key from the one-time key and holds its secret key |
| KeyDerivation.Sdk.CofactorExact | src/crypto.c:719-741 | ecmul_8k agrees with ecmul_8 of ecmul_k exactly when the dropped multiple of l annihilates the point |
| KeyDerivation.Sdk.CofactorInSubgroup | src/crypto.c:719-741 | they agree for every point of order dividing l and every scalar |
| KeyDerivation.Sdk.HashToEcInSubgroup | src/crypto.c:488-493 | hash_to_ec never fails and its result is eight times the mapped point, in the subgroup of order l |
| KeyDerivation.Sdk.KeyImageIs | src/crypto.c:570-575 | the key image is the scalar times eight times the point mapped from the twice hashed key, and always exists |
| KeyDerivation.Sdk.KeyImageExists | src/crypto.c:570-575 | the image of every key and scalar is the scalar multiple of eight times the point mapped from the twice hashed key, in the subgroup of order l |
| KeyDerivation.Sdk.KeyImageAdditive | src/crypto.c:570-575 | the image for a sum of scalars modulo l is the sum of the images |
| KeyDerivation.DerivationInputInjective | src/crypto.c:516-527 | the hashed string determines derivation and index, and the varint of an index has at most five bytes |
| KeyOperations.EcMulG | src/crypto.c:665-674 | writes the encoding of the scalar times the base point |
| KeyOperations.EcMulK | src/crypto.c:699-714 | writes the scalar multiple, or throws on an invalid point and writes nothing |
| KeyOperations.EcMul8K | src/crypto.c:719-724 | the multiple by eight times the scalar modulo l |
| KeyOperations.EcMul8 | src/crypto.c:729-741 | three doublings |
| KeyOperations.EcAdd | src/crypto.c:746-763 | the sum of two encoded points, or throws |
| KeyOperations.EcSub | src/crypto.c:768-786 | subtracts the x coordinate from the prime and adds, giving the difference of two encoded points, or throws |
| KeyOperations.HashToScalar | src/crypto.c:469-473 | the hash modulo l |
| KeyOperations.HashToEc | src/crypto.c:488-493 | hashing, mapping and multiplying by eight in one buffer gives the specified point and never throws |
| KeyOperations.HashToPoint | src/crypto.c:478-483 | the same after one more hash |
| KeyOperations.GenerateKeyDerivation | src/crypto.c:507-511 | the shared secret |
| KeyOperations.DerivationToScalar | src/crypto.c:516-527 | the hash of derivation and varint index; the eight-byte limit is never hit |
| KeyOperations.DeriveSecretKey | src/crypto.c:532-542 | the one-time secret key |
| KeyOperations.DerivePublicKey | src/crypto.c:547-557 | the one-time public key, or throws |
| KeyOperations.DeriveSubaddressPublicKey | src/crypto.c:584-592 | the recovered key, or throws |
| KeyOperations.GenerateKeyImage | src/crypto.c:570-575 | the key image; it never throws |
| KeyOperations.HandleGenKeyImage | src/api_genKeyImage.c:57-65 | the handler never fails and computes the image for received scalar plus stored key |
| Base58.EncodeBase58 | src/utils.c:18-69 | for every input: rejects more than 164 bytes, has no defined result exactly from 83 to 164, and otherwise writes exactly the specified text and nothing else, or overflows exactly when it is longer than maxoutlen |
| Base58.DivideInPlace | src/utils.c:41-47 | one pass replaces the number by its quotient by 58 and returns the remainder |
| Base58.FillDigits | src/utils.c:35-53 | the nested loops leave the base-58 digits of the number, without superfluous ones, at the end of the buffer, and stay inside it exactly when the byte-wide start position leaves room for them |
| Base58.QuotientTop | src/utils.c:48-51 | a non-zero leading byte stays within the first two places, so one increment of startAt suffices |
| Base58.SkipOnes | src/utils.c:54-57 | the trimming loop never advances over a digit; without digits it reads a place never written exactly when the byte-wide start position has wrapped |
| Base58.PrependOnes | src/utils.c:58-61 | one '1' is written for each leading zero byte, inside the buffer exactly when all of them fit |
| Base58.DecodeEncode | src/utils.c:18-69 | decoding the text returns the bytes |
| Base58.EncodeValue | src/utils.c:18-69 | read in base 58 the text is the number the bytes are, behind exactly one '1' for each leading zero byte |
| Base58.AlphabetIs | src/utils.c:12-16 | the 58 letters are the digits and letters without 0, O, I and l, in ascending order |
| Base58.EncodeInjective | src/utils.c:18-69 | different bytes have different texts |
| Base58.EncodeDecode | src/utils.c:18-69 | every text over the alphabet is the encoding of what it decodes to |
| Base58.EncodeLength | src/utils.c:129 | the text of n bytes has at most 11 * (n / 8) + encoded_block_sizes[n % 8] letters, 110 for 80 bytes |
| Base58.EncodeLengthAttained | src/utils.c:129 | the bound is sharp: some 80 bytes take 110 letters |
| Base58.EncodeAtLeast | src/utils.c:18-69 | the text of n bytes has at least n letters |
| Base58.ScratchExact | src/utils.c:21-61 | among the lengths that pass the check, the byte-wide write position stays inside the 164-byte buffer exactly up to 82; the trimming loop reads unwritten places exactly for all-zero inputs of 128 bytes or more |
| Base58.BlockFits | src/utils.c:129 | 256^n <= 58^encoded_block_sizes[n] for every block size |
| Base58.BlockTight | src/utils.c:129 | one digit less would not hold every block of that size |
| Base58.Uint8beTo64 | src/utils.c:136-168 | the falling-through switch computes the big-endian value without losing bits |
| Base58.EncodeBlock | src/utils.c:170-180 | the block is written in exactly its fixed number of digits, nothing else changes |
| Base58.BlockLossless | src/utils.c:136-180 | the block is recovered from its text and its size |
| HidFraming.HidFramer.Write | cli/nanos.go:25-46 | the packets of the message are sent in order, up to the first write that fails; the count returned is the message length, or that of the failing write |
| HidFraming.CarriesExact | cli/nanos.go:25-46 | the packets are the only ones of the transport format: as few as possible, each with bytes 1, 1, 5, its big-endian number and the next 59 bytes |
| HidFraming.WrittenBytes | cli/nanos.go:25-46 | they carry the length of the message modulo 2^16, most significant byte first, and the message |
| HidFraming.HidFramer.Read | cli/nanos.go:48-77 | one call does exactly one step of the reader's state machine, in every state and with every error |
| HidFraming.HidFramer.Fetch | cli/nanos.go:54-73 | reads one packet, tells each header error apart and advances the sequence number only without one |
| HidFraming.HidFramer.Reset | cli/nanos.go:21-23 | only the sequence number changes |
| HidFraming.HidFramer.FillBuffer | cli/nanos.go:104-113 | repeated reads fill the buffer with what the state machine hands out; the first error is returned, an end of input after some bytes as an unexpected one |
| HidFraming.ApduFramer.Exchange | cli/nanos.go:91-119 | does exactly one exchange step: sends the packets of the command, then receives; each failure is told apart, and the error of the second read is dropped |
| HidFraming.ReadStep | cli/nanos.go:48-77 | 5 <= pos <= 64 whenever seq > 0 is kept, and a read with room always makes progress |
| HidFraming.NewPacketRead | cli/nanos.go:53-76 | a new packet is accepted exactly when it has 64 bytes and begins with 1, 1, 5 and the expected number, and then its payload is handed out; every refusal is told apart |
| HidFraming.ReadStepGood | cli/nanos.go:48-77 | a read takes a portion off the front of the pending bytes, seq counts packets, less than a packet stays buffered |
| HidFraming.ReadFullGood | cli/nanos.go:104-113 | filling a buffer takes exactly that many bytes off the front |
| HidFraming.ReadsInOrder | cli/nanos.go:48-77 | reads of any sizes return a prefix of the payload in order and fail only when it is used up |
| HidFraming.ChunksStream | cli/nanos.go:25-46 | the packets are numbered consecutively and carry the data without gaps |
| HidFraming.WrittenIsFrame | cli/nanos.go:25-46 | every message up to 65535 bytes, completed to 64-byte packets, is a well-formed frame of ceil((2+n)/59) packets |
| HidFraming.FramingRoundTrip | cli/nanos.go:25-77 | whatever the read sizes, the reader returns the front of the prefix, the message and the bytes that completed the last packet, less than one payload of them, and fails only after all of it |
| HidFraming.ReceiveFrame | cli/nanos.go:91-119 | from any previous state a frame yields exactly its message and is consumed entirely |
| HidFraming.ExchangeReturnsMessage | cli/nanos.go:91-119 | with a well-formed peer an exchange sends exactly the packets of its command, returns exactly the message and consumes ceil((2+n)/59) packets |
| HidFraming.CommandSent | cli/nanos.go:91-104 | an exchange writes the packets that carry length, CLA, INS, P1, P2, payload length and payload in this order, or those before the first failing write |
| HidFraming.CommandArrives | src/main.c:32-37 | whoever reads those packets, completed to 64 bytes, finds every field of the command at its offset |
| HidFraming.OversizedCommand | cli/nanos.go:92-94 | a payload above 255 bytes panics before anything is written |
| HidFraming.ReceiveCut | cli/nanos.go:104-119 | a response cut after k packets, by silence or a refused packet: an error if k is 0, otherwise the part received followed by zeros; a short packet panics |
| HidFraming.RunAligned | cli/nanos.go:91-119 | over any run of exchanges the packets of all commands are sent in order and each exchange returns its own response, no padding leaks into the next |
| HidFraming.RunSends | cli/nanos.go:91-119 | in such a run every command goes out field by field, in order, and every exchange returns its own response |
| Wildcard.ShellMatch | usbtool/opendevice.c:26-73 | for every text and every pattern with closed classes the result is right, ABORT rules out every later start, and at most 1 + remaining text calls are made |
| Wildcard.MatchStar | usbtool/opendevice.c:45-55 | a star never returns FAILED, and is tried at most once per text position |
| Wildcard.MatchClass | usbtool/opendevice.c:56-69 | decides membership in the parsed class and ends after it |
| Wildcard.MatchItems | usbtool/opendevice.c:64-66 | the list loop finds a match exactly when some item has the character |
| Wildcard.ShellStyleMatch | usbtool/opendevice.c:75-81 | matches exactly when the text is in the language of the pattern's tokens, hence exactly by the manual for every pattern put together by its rules; a missing pattern matches everything |
| Wildcard.NoSuffixBefore | usbtool/opendevice.c:31-32 | hopelessness of the rest of a pattern spreads to everything before it |
| Wildcard.StarMatches | usbtool/opendevice.c:45-55 | a star matches exactly when some suffix matches the rest |
| Wildcard.DoubleStar | usbtool/opendevice.c:46-48 | consecutive stars act like one |
| Wildcard.EscapedMatchesItself | usbtool/Readme.txt:161-162 | a pattern with every character escaped matches exactly that text |
| Wildcard.ClassMeans | usbtool/Readme.txt:149-160 | a class written by the manual's rules, also with a first `]` or `-` that begins a span, has exactly the characters and spans listed, or with a caret all others |
| Wildcard.PatternMeans | usbtool/Readme.txt:143-162 | every pattern put together from characters, quoted characters, `?`, `*` and lists by the manual's rules is well formed and matches exactly the texts the manual says |
| Wildcard.PieceMeans | usbtool/Readme.txt:146-162 | each building block of the manual is read as one token with the same meaning, whatever follows it |
| Wildcard.ItemsMean | usbtool/Readme.txt:149-157 | characters and spans in the middle of a list mean what the manual says |
| PrivateKey.Wallet.constructor | src/globals.h:39-49 | the zeroed state that start-up begins with |
| PrivateKey.Wallet.Reset | src/key.c:52-58 | the four key fields become zero |
| PrivateKey.Wallet.GenPrivateKey | src/key.c:16-39 | the key derived for an account replaces the key fields |
| PrivateKey.Wallet.InitCryptoState | src/key.c:60-70 | view key and protection key are computed from the current key, nothing else changes |
| PrivateKey.Wallet.InitPrivateKey | src/key.c:41-46 | the state of account 2 |
| PrivateKey.GeneratedKey | src/key.c:16-39 | a generated key is the Keccak hash of the derived seed modulo l, has depth 0, the account as child number and the second half of the keyed hash as chain code |
| PrivateKey.GeneratedKeyIs | src/key.c:9-39 | the path is five hardened elements 44, 587, the account below bit 31, 0 and 0; key, depth, child number and chain code follow from the seed, outright |
| PrivateKey.StartUp | src/key.c:41-46 | start-up leaves the key of account 2, with the view key and protection key belonging to it |
| PrivateKey.ConsistentExact | src/key.c:60-70 | view key and protection key are what the initialisation computes exactly when a is the Keccak hash of the key modulo l and spk the first 16 bytes of the double hash of chain code, a and key |
| PrivateKey.ViewKey | src/key.c:62-63 | the view key is the Keccak hash of the spend key modulo l |
| PrivateKey.Wallet.BuildPayload | src/api_getPrivate.c:67-80 | the slot-by-slot writes leave the 71-byte payload and zeros |
| PrivateKey.Wallet.GetPrivate | src/api_getPrivate.c:62-95 | the buffer holds the text of the current key and zeros; the key state is unchanged |
| PrivateKey.Wallet.SetResultGetPrivate | src/api_getPrivate.c:10-20 | answers the first 116 bytes and clears the buffer |
| PrivateKey.Wallet.ImportPrivate | src/api_importPriv.c:60-80 | all key fields are replaced at once by the parsed payload, the screen shows its text; bytes of an earlier command stay behind a short one |
| PrivateKey.Wallet.LoadKey | src/api_importPriv.c:75-79 | the four fields are those of the payload |
| PrivateKey.ImportIs | src/api_importPriv.c:60-80 | an import takes the key from fixed slots of what was received, completed by an earlier command, derives the other keys from it and shows a text that passes both checksums |
| PrivateKey.ExportIs | src/api_getPrivate.c:62-95 | an export shows a text that passes both checksums and yields the slots of the current key with bytes 0 and 32 at 0 and 38 |
| PrivateKey.ParseSlots | src/api_importPriv.c:76-79 | depth at 1, child number at 2 to 5, chain code at 6 to 37, key at 39 to 70 |
| PrivateKey.PayloadSlots | src/api_getPrivate.c:67-80 | the exported payload has the key in the same slots, version 0 and length 32 |
| PrivateKey.AddB58Checksum | src/crypto.c:1039-1043 | the first four bytes of the hash of the prefix are written after it |
| PrivateKey.CheckTwice | src/api_importPriv.c:66-71 | both checksum layers |
| PrivateKey.EncodeInto | src/api_importPriv.c:73 | the text has at most 110 letters, so it fits `priv[112]` with its terminator and never overflows |
| PrivateKey.ParseOfPayload | src/api_importPriv.c:76-79 | parsing a payload restores depth, child number, chain code and key |
| PrivateKey.PayloadOfParse | src/api_getPrivate.c:67-80 | re-serialising parsed bytes reproduces them exactly when byte 0 is 0 and byte 38 is 32 |
| PrivateKey.ReadOfText | src/api_getPrivate.c:84-95 | Base58 and both checksums can be undone: the text yields the payload |
| PrivateKey.TextOfRead | src/api_getPrivate.c:84-95 | every text that passes the checks is the one exported for its payload |
| PrivateKey.TextEnds | src/api_getPrivate.c:93-95 | the text holds no zero byte, so its end shows in the buffer |
| PrivateKey.ExportThenImport | src/api_importPriv.c:60-80 | importing an exported payload restores the whole state on any device, and both screens show the same text |
| PrivateKey.ImportThenExport | src/api_getPrivate.c:62-95 | after an import, export shows the same text exactly when byte 0 is 0 and byte 38 is 32 |
| PrivateKey.ImportShowsText | src/api_importPriv.c:65-73 | importing the payload of a valid text shows that text |
| PrivateKey.RunConsistent | src/key.c:60-70 | after start-up and any commands the view key is the Keccak hash of the current key modulo l, and the protection key the double hash of chain code, view key and key, cut to 16 bytes |
| PrivateKey.LastImportDecides | src/api_importPriv.c:75-80 | the state after a complete import has the key in the slots of its bytes and the view and protection key belonging to it, whatever came before or follows without changing the key |
| Amount.AmountToStr | src/crypto.c:940-997 | the buffer holds the specified text, or as much of it as fits before a terminator, and the result is 1 exactly when something is cut or the amount is zero |
| Amount.WriteDigits | src/crypto.c:958-964 | the digit loop writes the decimal digits and touches nothing else |
| Amount.PlaceDot | src/crypto.c:943-973 | twenty digits with a dot before the last twelve |
| Amount.TextBetween | src/crypto.c:974-988 | what stands between the skipped zeros is the text of the amount |
| Amount.ParseOfText | src/crypto.c:940-997 | the text reads back as the amount at twelve decimals and has no superfluous zero |
| Amount.TextIs | src/crypto.c:940-997 | the digits before the dot are the whole units of 10^12, those after it, filled up with zeros, the rest |
| Amount.TextIsUnique | src/crypto.c:940-997 | every text without superfluous zeros is the one printed for its amount |
| Amount.CutLosesAmount | src/crypto.c:989-996 | for every amount and size the result is 0 exactly when the buffer reads back as the amount, and the buffer always shows the beginning of the text |
| Amount.NothingBehind | src/crypto.c:989-996 | behind the text the buffer holds terminators only |
| Amount.ResultExact | src/crypto.c:947-996 | the result is 0 exactly for a non-zero amount whose text fits before a terminator |
| Amount.ZeroPrinted | src/crypto.c:947-952 | zero is printed as "0" with result 1, though its full text is "0." |
| Amount.TerminatorExact | src/crypto.c:942-996 | the buffer holds a terminator except for zero in a single character |
| Amount.NeverCutAt22 | src/crypto.c:942 | 22 characters are enough for every 64-bit amount |
| Amount.Uint64ToStr | src/crypto.c:914-934 | writes the digits, throws exactly when the number is not below 10^str_len, and leaves a terminator exactly when there are fewer digits than characters |
| Numerals.FitsExact | src/crypto.c:914-934 | a number has at most k digits exactly when it is below base^k |
| Amount.Uint64Text | src/crypto.c:914-934 | the digits read back as the number, at most twenty, without leading zero, and there are none exactly for zero |
| Amount.BAmountToUint64 | src/crypto.c:1002-1012 | the little-endian value of eight bytes, without wrapping |
| Amount.BAmountToStr | src/crypto.c:1017-1020 | prints the little-endian value |
| Amount.VAmountToStr | src/crypto.c:1025-1031 | prints the decoded varint, or throws |
| Amount.EncodedAmountPrints | src/crypto.c:1025-1031 | an encoded amount of at most 56 bits is printed as itself |

## Left out

- Point addition, doubling, negation and decompression, the hash functions, HMAC, BIP-32 derivation, AES key setup and random numbers are functions of the secure element: parameters, or arithmetic meaning where they are modular operations.
- The order of the base point and the group law of the curve are laws of that parameter; that the point addition of the secure element satisfies them is not part of this model.
- KeyOperations.EcSub: for a point with x = 0 `cx_math_sub` leaves the prime itself as coordinate (`KeyDerivation.MinusReduced`); that point addition reads coordinates modulo the prime is part of its arithmetic meaning here.
- Base58.EncodeBase58: from 83 to 164 bytes the code leaves its scratch buffer or, for an all-zero input of 128 bytes or more, first reads bytes it never wrote; the outcome is `Undefined` and what the machine does then is not modelled (the 109-byte address of src/api_getAddress.c:97 is such a call).
- Wildcard.ShellMatch: patterns with an unclosed `[` are excluded, because the code then reads past the end of the pattern; a trailing backslash matches nothing.
- Wildcard.PatternMeans: spans that run backwards and dashes or closing brackets in the middle of a list break the manual's rules; what the code does with them is in the token semantics only.
- HidFraming.RunAligned: peers are well formed and their answers wait in the incoming queue; responses that break off are in `ReceiveCut`, refused packets in `NewPacketRead`.
- HidFraming.FramingRoundTrip: messages up to 65535 bytes, the range of the length prefix; for longer ones `Write` sends the wrapped length, as modelled by `Prefixed`.
- HidFraming.HidFramer.Write: the device is a queue of incoming and a queue of outgoing packets, with the count of a failing write as a parameter; the debug output is not modelled.
- PrivateKey.Wallet.ImportPrivate: commands longer than `processData` are excluded; the length of a command is one byte. The shifted child number is read as an unsigned 32-bit number.
- Varint.DecodeVarint: covers every limit as long as at most ten bytes are read, by the limit or by an end among them, because a shift by 64 or more is undefined.
- KeyOperations.DerivationToScalar: the slots of the shared scratch buffer used inside one operation are local buffers here.
- Amount.AmountToStr: the buffer has at least one character, as the code writes the first one unconditionally.
- Public keys of the wallet, the one-time-address key and the address text: one-line compositions of modelled operations.
- `incognito_get_subaddress*`: they rest on a field that is never set (src/key.c:65-66).
- Transaction commitments, ECDH masks and the other stubs of `src/crypto.c`.
- UX flows, menus, settings, APDU dispatch, boot code, the `cli/coin-daemon` services, `usbtool.c` and USB access: display plumbing, thin wrappers and foreign calls.
