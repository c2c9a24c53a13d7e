# A verified model of the WeDPR computing core

This project models the parts of the repository whose correctness is hard to see from the code, and
proves what they are for. `dafny verify dfyconfig.toml` checks all of it.

**Homomorphic arithmetic.** `SignedCodec` maps signed integers to residues with a rejected guard band.
`Ihc` and `IhcImpl` are the iterated cipher, first as functions on integers and then as methods over
shared big numbers; `FloatingIhc` lifts it to decimals with an exponent; `PythonIhc` is the second
implementation, which never reduces a sum, with its byte format. `Fahe` is the packed-integer cipher.
`Paillier` is the Paillier scheme with its fast powers; `NumberTheory` proves what it rests on, up to
Fermat's theorem and its lift to squares of primes. `BigNumber` and `Bytes` are the big-number wrapper and
its byte strings. For each cipher the main theorem is a homomorphism over arbitrary expression trees:
what decryption decodes is the plain result modulo N, and the plain result itself comes back if and only
if the codec can represent it. Random values are universally quantified inputs and the round count is
symbolic.

**Private lookup.** `LineScanner` is the two-pointer scan of a mapped file, `ObliviousTransfer` the three
messages and their key algebra over a group of prime order, `PrivateLookup` the theorem that both together
return what a plain search for the first line with the queried id returns, with the exact conditions on
the prefix and on the line terminators.

**State machines.** `Handshake` (N parties, any delivery order), `TaskLifecycle` and `TaskOutcome` (run, finish and
kill threads over a cache and a database), `JobTable` (the MPC job table with its synchronous and asynchronous
drivers), `EvalExchange` (gathering and broadcasting the evaluation file) and `PirScheduler` (the lookup
queue) are step relations. Their theorems hold in every reachable state of every run; the handshake and
the exchange also terminate in every run, with the right final state.

`Arith`, `Sums` and `Outcome` hold what the others share.

## What the proofs found

- A residue equal to N/3 passes the codec's check but decodes as negative. So `N/3` is the one sum of two
  in-range numbers that comes back as another number, and `N/3 - N` is a stray representable value.
- Paillier's fast power is not the plain power for every base: where the base shares a prime with n and the
  exponent reduces to 0 or 1, it can differ. Encryption with an x coprime to n and decryption never meet
  this case: the mask is a unit, and lambda lies below both orders because the two primes have the same
  length. Correctness does not need gcd(p - 1, q - 1) = 2, which key generation enforces.
- Paillier's key generation does not check that x is coprime to n. With a key for which it is not, every
  nontrivial mask encrypts two different numbers alike; exactly then, numbers are lost.
- FAHE has room for as many summands as full packings fit below p, up to 2^alpha: 2^(alpha-1) for any p of
  the right length, 3 * 2^(alpha-2) when p has its two top bits set, as OpenSSL's primes do. Both numbers
  are tight: for either c, if c + 1 < 2^(lambda-pos) and mmax >= 2, the least odd p with room for c lets a
  sum of c + 1 encrypted zeros decrypt to -1.
- An exponent that leaves int16 wraps around in `scalaMul`; a product other than zero then decrypts to a
  value that is off by a power of ten.
- With a single round the Python cipher returns an unreduced number; with two or more it agrees with C++.
- A line that ends in "\r\n" keeps its '\r' (and "\n\r" its '\n') in the record, and in the id too if
  nothing but the id is on the line. So in such a file an id alone on its line is not found.
- A prefix with a byte of 128 or more matches no line, because it is compared with a signed char, so the
  lookup then finds nothing.
- A single-party handshake never ends, since the task never enters the party's own table.
- A kill that found its task running stores KILLED over a success stored meanwhile. The record of a task
  that has left the cache is final if and only if no thread is on its way to storing something else. What
  never happens is that a finished task is reported as unfinished.
- A synchronous MPC run that throws leaves its job RUNNING, and the job is refused until killed. Without
  kills this is the only way in which a job can be RUNNING with nothing in flight. A kill lets a second run
  of the job start beside the first.
- If no party holds a non-empty evaluation file and the active party has none, the active party fails at
  its open while the partners wait.
- The lookup queue's backlog never shrinks, and from the first backlog on every started task is filed
  under the id of a task submitted later.

Comments and documentation disagree with the code in one place that matters here: the comment above
`decode` (SignedNumberCodec.h line 63) does not describe what it returns; the model follows the code.

## Model

| member | source | states |
|---|---|---|
| SignedCodec.DecodeResidue | cpp/wedpr-crypto/ppc-homo/codec/SignedNumberCodec.h:64-90 | For every modulus and integer, decoding the integer's residue gives it back if and only if it lies in [2N/3 - N, N/3) or is N/3 - N |
| SignedCodec.EncodeExact | cpp/wedpr-crypto/ppc-homo/codec/SignedNumberCodec.h:52-90 | Over all integers: from N on rejected as over N; below N rejected as overflow if and only if some shift by a multiple of N lies strictly between N/3 and 2N/3; everything else encoded as its one residue in [0, N) |
| SignedCodec.DecodeExact | cpp/wedpr-crypto/ppc-homo/codec/SignedNumberCodec.h:64-90 | A residue is rejected if and only if it lies strictly between N/3 and 2N/3, and else decodes to the representable number congruent to it |
| SignedCodec.CodecDomain | cpp/wedpr-crypto/ppc-homo/codec/SignedNumberCodec.h:52-102 | Encoding succeeds and decoding undoes it exactly on the representable integers; all others are rejected or changed |
| SignedCodec.GuardBand | cpp/wedpr-crypto/ppc-homo/codec/SignedNumberCodec.h:52-102 | The modular sum of two in-range numbers decodes to their sum or is rejected, except that the sum N/3 decodes to N/3 - N |
| SignedCodec.SignedNumberCodec.constructor | cpp/wedpr-crypto/ppc-homo/codec/SignedNumberCodec.h:33-43 | The codec of a bit width holds N = 2^bits and its two bounds in fresh numbers |
| SignedCodec.SignedNumberCodec.Init | cpp/wedpr-crypto/ppc-homo/codec/SignedNumberCodec.h:92-102 | Establishes both bounds from N although the second is divided in place, and writes nothing else |
| SignedCodec.SignedNumberCodec.CheckRange | cpp/wedpr-crypto/ppc-homo/codec/SignedNumberCodec.h:78-90 | Both error cases and their order, for every integer |
| SignedCodec.SignedNumberCodec.EncodeNumber | cpp/wedpr-crypto/ppc-homo/codec/SignedNumberCodec.h:52-61 | Refines Encode including its errors; the result is a fresh number and no existing one changes |
| SignedCodec.SignedNumberCodec.DecodeNumber | cpp/wedpr-crypto/ppc-homo/codec/SignedNumberCodec.h:64-72 | Refines Decode including its errors; a non-negative result is the argument's own storage |
| Ihc.RunBack | cpp/wedpr-crypto/ppc-homo/ihc/IhcImpl.cpp:92-99 | Running the recurrence on the swapped end state undoes any number of rounds |
| Ihc.RunPlus | cpp/wedpr-crypto/ppc-homo/ihc/IhcImpl.cpp:66-73 | Any number of rounds is additive in the start state |
| Ihc.RunScale | cpp/wedpr-crypto/ppc-homo/ihc/IhcImpl.cpp:66-73 | Any number of rounds commutes with scaling of the start state |
| Ihc.RoundsCong | cpp/wedpr-crypto/ppc-homo/ihc/IhcImpl.cpp:66-73 | The rounds that reduce twice each follow the unreduced recurrence modulo N |
| Ihc.RoundsReduced | cpp/wedpr-crypto/ppc-homo/ihc/IhcImpl.cpp:57-80 | Both components lie in [0, N) after any positive number of rounds |
| Ihc.EncryptIsTerms | cpp/wedpr-crypto/ppc-homo/ihc/IhcImpl.cpp:57-80 | The ciphertext is the last two terms of the sequence x' = key * x - last modulo N that starts with the nonce and the plaintext's residue, after exactly the given number of rounds |
| Ihc.EvalSucceeds | cpp/wedpr-crypto/ppc-homo/ihc/IhcImpl.cpp:57-179 | An expression evaluates if and only if the codec accepts each plaintext; sums, differences and products never fail |
| Ihc.EvalTracksOrigin | cpp/wedpr-crypto/ppc-homo/ihc/IhcImpl.cpp:57-179 | Every ciphertext an expression reaches is reduced and is congruent to the recurrence run on the same combination of start states |
| Ihc.DecryptOrigin | cpp/wedpr-crypto/ppc-homo/ihc/IhcImpl.cpp:83-101 | Decryption of any ciphertext that follows a start state reaches that state's first term modulo N |
| Ihc.Homomorphism | cpp/wedpr-crypto/ppc-homo/ihc/IhcImpl.cpp:57-179 | For every key, nonce, round count from 1 and expression over encrypt, add, sub and scalaMul: decryption decodes the plain result modulo N, returns the plain result if and only if it is representable, and both components stay in [0, N) |
| IhcImplementation.GenerateKey | cpp/wedpr-crypto/ppc-homo/ihc/IhcImpl.cpp:27-35 | The retry loop ends with a key exactly when some draw is nonzero; the key is the first nonzero draw and survives the unsigned byte round trip |
| IhcImplementation.RunRounds | cpp/wedpr-crypto/ppc-homo/ihc/IhcImpl.cpp:66-73 | The loop over shared numbers computes the rounds and changes no number that existed before |
| IhcImplementation.Encrypt | cpp/wedpr-crypto/ppc-homo/ihc/IhcImpl.cpp:57-80 | Refines Ihc.Encrypt, codec errors included, without touching an existing number |
| IhcImplementation.Decrypt | cpp/wedpr-crypto/ppc-homo/ihc/IhcImpl.cpp:83-101 | Refines Ihc.Decrypt, codec errors included, without touching the ciphertext |
| IhcImplementation.Arithmetic | cpp/wedpr-crypto/ppc-homo/ihc/IhcImpl.cpp:104-145 | The quick addition and the modular subtraction give the reduced sum and difference in fresh numbers |
| IhcImplementation.ScalaMul | cpp/wedpr-crypto/ppc-homo/ihc/IhcImpl.cpp:160-179 | Both components are multiplied modulo N into fresh numbers |
| FloatingIhc.PrecisionAlign | cpp/wedpr-crypto/ppc-homo/codec/Common.h:28-57 | Both exponents become the lower one, the operand that had it is unchanged, the other is scaled by the power of ten, also when both are one object |
| FloatingIhc.Combine | cpp/wedpr-crypto/ppc-homo/ihc/FloatingPointIhc.cpp:41-61 | Aligning two local copies in place and combining them is the functional addition or subtraction |
| FloatingIhc.ExactUnits | cpp/wedpr-crypto/ppc-homo/codec/Common.h:36-56 | The exact value of an expression does not depend on the unit 10^low it is counted in |
| FloatingIhc.MantissaIsExact | cpp/wedpr-crypto/ppc-homo/codec/Common.h:28-57 | The mantissa that the alignments lead to is the exact value at the result's exponent |
| FloatingIhc.EvalIsFlat | cpp/wedpr-crypto/ppc-homo/ihc/FloatingPointIhc.cpp:25-71 | The floating layer is the integer layer on the expression with the alignments written out |
| FloatingIhc.FloatingHomomorphism | cpp/wedpr-crypto/ppc-homo/ihc/FloatingPointIhc.cpp:25-71 | Any expression tree decrypts, at the lowest aligned exponent, to what its final mantissa decodes to, and to its exact decimal value if and only if that mantissa is representable, given only that exponents fit int16 |
| FloatingIhc.ScalaMulExponentWrap | cpp/wedpr-crypto/ppc-homo/ihc/FloatingPointIhc.cpp:63-71 | The decryption of any scalar multiple with a representable mantissa has the exact value if and only if the summed exponent fits int16 or the product is zero |
| FloatingIhc.ProductDecrypts | cpp/wedpr-crypto/ppc-homo/ihc/FloatingPointIhc.cpp:33-71 | A scalar multiple of any expression decrypts to the product of the mantissas at the summed exponent, wrapped to int16 |
| FloatingIhc.WrappingInput | cpp/wedpr-crypto/ppc-homo/ihc/FloatingPointIhc.cpp:63-71 | For every key, 2 * 10^0x7fff times an encryption of 3 * 10 decrypts to 6 * 10^-0x8000 |
| Fahe.EvalFields | cpp/wedpr-crypto/ppc-homo/fahe/Fahe.cpp:55-125 | Any integer sum of ciphertexts is a multiple of p plus the packed sums of the fields |
| Fahe.EvalSucceeds | cpp/wedpr-crypto/ppc-homo/fahe/Fahe.cpp:55-125 | A sum evaluates if and only if the codec accepts each plaintext |
| Fahe.FieldBounds | cpp/wedpr-crypto/ppc-homo/fahe/Fahe.cpp:61-79 | With t summands the low noise stays below t widths and the packed part below t full packings |
| Fahe.EnoughRoom | cpp/wedpr-crypto/ppc-homo/fahe/Fahe.cpp:38-42 | With room for t summands the packed sum stays below p and the low noise inside the guard bits |
| Fahe.HalfRoom | cpp/wedpr-crypto/ppc-homo/fahe/Fahe.cpp:38-42 | Any p of full length has room for 2^(alpha-1) summands |
| Fahe.TopBitsRoom | cpp/ppc-framework/libwrapper/BigNum.h:323-335 | A p with its two top bits set, as the prime generator makes it, has room for 3 * 2^(alpha-2) summands |
| Fahe.Unpack | cpp/wedpr-crypto/ppc-homo/fahe/Fahe.cpp:91-113 | Reducing modulo p, shifting and masking recovers the message field of a packed sum |
| Fahe.Homomorphism | cpp/wedpr-crypto/ppc-homo/fahe/Fahe.cpp:30-125 | For every key, noise and multiplier and any sum of as many ciphertexts as p has room for, decryption decodes the plain sum modulo 2^mmax and returns it if and only if it is representable |
| Fahe.OneSummandTooMany | cpp/wedpr-crypto/ppc-homo/fahe/Fahe.cpp:30-125 | For all field sizes with mmax >= 2 and every c up to 2^alpha with c + 1 < 2^(lambda-pos), with the least odd p that has room for c summands, c + 1 encryptions of zero add up to a ciphertext that decrypts to -1 |
| Fahe.OneSummandTooManyDrawn | cpp/wedpr-crypto/ppc-homo/fahe/Fahe.cpp:30-125 | The same failure for a prime that can be drawn: with p = 53 and room for one summand, a sum of two decrypts to another number |
| Fahe.EncryptNumber | cpp/wedpr-crypto/ppc-homo/fahe/Fahe.cpp:55-89 | Refines Encrypt, codec errors included; only fresh numbers are written |
| Fahe.PackNumber | cpp/wedpr-crypto/ppc-homo/fahe/Fahe.cpp:61-79 | The three fields at their places although M1 shares noise2's storage |
| Fahe.DecryptNumber | cpp/wedpr-crypto/ppc-homo/fahe/Fahe.cpp:91-113 | The in-place reduction, shift and mask refine Decrypt |
| PythonIhc.Encrypt | python/ppc_common/ppc_crypto/ihc_cipher.py:91-101 | The loop computes the rounds from the encoded number, or raises for an over-large positive one |
| PythonIhc.Decrypt | python/ppc_common/ppc_crypto/ihc_cipher.py:103-112 | The loop runs the recurrence on the swapped components and decodes |
| PythonIhc.RoundsAgree | python/ppc_common/ppc_crypto/ihc_cipher.py:96-99 | One reduction a round gives the same numbers as the two of the C++ loop |
| PythonIhc.EncodeExact | python/ppc_common/ppc_crypto/ihc_cipher.py:17-22 | Encoding raises exactly above the non-negative range; everything else becomes its residue below the modulus |
| PythonIhc.EvalSucceeds | python/ppc_common/ppc_crypto/ihc_cipher.py:17-46 | An expression evaluates if and only if every plaintext and every scalar is within the range |
| PythonIhc.NeverReduced | python/ppc_common/ppc_crypto/ihc_cipher.py:39-46 | Sums add the components as integers, and a scalar multiplies them by itself, or by its residue if negative |
| PythonIhc.EvalTracksOrigin | python/ppc_common/ppc_crypto/ihc_cipher.py:39-46 | Unreduced sums and products stay non-negative and congruent to the recurrence on the combined start states |
| PythonIhc.RefinesReduced | python/ppc_common/ppc_crypto/ihc_cipher.py:91-112 | For equal key, nonces and expression the ciphertext is congruent to the C++ one, and both decryptions reach the same number if and only if there are two rounds or the component is already reduced |
| PythonIhc.OneRoundFails | python/ppc_common/ppc_crypto/ihc_cipher.py:103-112 | With one round and modulus 4 the result -1, which the window covers, comes back as 3, for every key |
| PythonIhc.Homomorphism | python/ppc_common/ppc_crypto/ihc_cipher.py:10-112 | From two rounds on, any expression decrypts to its plain value if and only if that lies in the decoding window |
| PythonIhc.WireRoundTrip | python/ppc_common/ppc_crypto/ihc_cipher.py:51-76 | Reading back a written ciphertext returns both components, zero included, whatever follows in the buffer |
| PythonIhc.WireLayout | python/ppc_common/ppc_crypto/ihc_cipher.py:51-64 | Two four-byte lengths, then the left and the right component in as few bytes as hold them; negative components cannot be written |
| PythonIhc.ReadsTruncated | python/ppc_common/ppc_crypto/ihc_cipher.py:66-76 | Eight bytes are always read, fewer never, and a truncated body is read as far as it goes |
| PythonIhc.WireUnambiguous | python/ppc_common/ppc_crypto/ihc_cipher.py:51-76 | Two streams that are equal start with equal ciphertexts and have equal rests |
| BigNumber.RoundTrip | cpp/ppc-framework/libwrapper/BigNum.h:117-173 | Writing and reading back is the identity on every integer when signed and on exactly the positive ones when unsigned; unsigned zero is refused and a sign is lost |
| BigNumber.EncodedFormat | cpp/ppc-framework/libwrapper/BigNum.h:189-221 | A sign byte 0x00 or 0xff if signed, then the magnitude, most significant byte first and without a leading zero |
| BigNumber.CanonicalRoundTrip | cpp/ppc-framework/libwrapper/BigNum.h:117-173 | Reading and writing back is the identity on exactly the strings with a proper sign byte and no leading zero |
| BigNumber.BigNum.FromBytes | cpp/ppc-framework/libwrapper/BigNum.h:117-135 | Stores the decoded value, negative exactly for a first byte 0xff, or refuses empty data and leaves the number alone |
| BigNumber.BigNum.FromBigEndianBytes | cpp/ppc-framework/libwrapper/BigNum.h:137-147 | The digits' value with the sign |
| BigNumber.BigNum.ToOutputBuffer | cpp/ppc-framework/libwrapper/BigNum.h:189-221 | Either the buffer is too short and unchanged, or it starts with the encoding, its length is set and the bytes behind are untouched |
| BigNumber.BigNum.ToBytes | cpp/ppc-framework/libwrapper/BigNum.h:160-173 | The buffer it sizes is never too short; the output is the encoding |
| BigNumber.BigNum.ModAdd | cpp/ppc-framework/libwrapper/BigNum.h:253-265 | On reduced operands one conditional subtraction is the modular sum |
| Bytes.ByteLengthMinimal | cpp/ppc-framework/libwrapper/BigNum.h:162-169 | The byte length is the least number of base-256 digits that hold the number |
| Bytes.ValueFirst | cpp/ppc-framework/libwrapper/BigNum.h:137-147 | The first byte is the most significant digit |
| Paillier.CrtPowerParts | cpp/wedpr-crypto/ppc-homo/paillier/OpenSSLPaillier.cpp:88-122 | The recombined power is reduced and agrees with both half-size powers modulo p^2 and q^2 |
| Paillier.CrtPowerExact | cpp/wedpr-crypto/ppc-homo/paillier/OpenSSLPaillier.cpp:88-122 | The fast power equals base^exp modulo n^2 if and only if, for each prime, the base is a unit, or the exponent is below p^2 - p, or it reduces to at least 2, or to 1 with p^2 dividing the base |
| Paillier.CrtPowerNotExact | cpp/wedpr-crypto/ppc-homo/paillier/OpenSSLPaillier.cpp:88-122 | For every key, base p and exponent p^2 - p give another number than the plain power |
| Paillier.LambdaPowerExact | cpp/wedpr-crypto/ppc-homo/paillier/OpenSSLPaillier.cpp:216-217 | Decryption's power is exact for every base, unit or not |
| Paillier.CarriesProduct | cpp/wedpr-crypto/ppc-homo/paillier/OpenSSLPaillier.cpp:231-242 | The product of two ciphertexts is reduced, a unit, and carries the sum of what they carry |
| Paillier.SubCarries | cpp/wedpr-crypto/ppc-homo/paillier/OpenSSLPaillier.cpp:262-282 | The second ciphertext always has an inverse, and the result carries the difference |
| Paillier.SubUndoesAdd | cpp/wedpr-crypto/ppc-homo/paillier/OpenSSLPaillier.cpp:231-282 | Subtracting what was added, and adding what was subtracted, gives the very ciphertext back |
| Paillier.ScalaMulCarries | cpp/wedpr-crypto/ppc-homo/paillier/OpenSSLPaillier.cpp:284-314 | A power by an encoded scalar, negative ones included, carries the scalar multiple |
| Paillier.ScalaMulRepeats | cpp/wedpr-crypto/ppc-homo/paillier/OpenSSLPaillier.cpp:284-314 | Multiplying by k + 1 is multiplying by k and adding once more; multiplying by 0 gives 1 |
| Paillier.CarriesMask | cpp/wedpr-crypto/ppc-homo/paillier/OpenSSLPaillierKeyPair.h:59-66 | If x is coprime to n, h^n is a unit that carries zero |
| Paillier.EncryptCarries | cpp/wedpr-crypto/ppc-homo/paillier/OpenSSLPaillier.cpp:124-163 | Under a sound mask (r = 0, or x coprime to n) encryption with and without the private key gives the same ciphertext, and it carries the plaintext |
| Paillier.EncryptValue | cpp/wedpr-crypto/ppc-homo/paillier/OpenSSLPaillier.cpp:124-163 | For every key the ciphertext is (1 + n)^m * (-x^2)^(n r) modulo n^2 |
| Paillier.MaskVanishes | cpp/wedpr-crypto/ppc-homo/paillier/OpenSSLPaillier.cpp:66-73 | If a prime of n divides x, every nontrivial mask is a multiple of its square |
| Paillier.SameCiphertext | cpp/wedpr-crypto/ppc-homo/paillier/OpenSSLPaillier.cpp:124-163 | With such a key, zero and minus the other prime, both representable, have the same ciphertext |
| Paillier.MaskExact | cpp/wedpr-crypto/ppc-homo/paillier/OpenSSLPaillier.cpp:66-163 | For every key and exponent r, all representable numbers come back from their encryption if and only if r = 0 or x is coprime to n |
| Paillier.LambdaInverse | cpp/wedpr-crypto/ppc-homo/paillier/OpenSSLPaillier.cpp:224-224 | lambda is invertible modulo n for any two distinct odd primes of one length |
| Paillier.SquareInverse | cpp/wedpr-crypto/ppc-homo/paillier/OpenSSLPaillierKeyPair.h:117-118 | The precomputed inverse of q^2 modulo p^2 exists |
| Paillier.Logarithm | cpp/wedpr-crypto/ppc-homo/paillier/OpenSSLPaillier.cpp:218-221 | For x = 1 + kn modulo n^2 the division (x - 1) / n is exact and gives k modulo n |
| Paillier.DecryptCarried | cpp/wedpr-crypto/ppc-homo/paillier/OpenSSLPaillier.cpp:194-229 | Decryption of a ciphertext that carries m reaches m modulo n before decoding |
| Paillier.DecryptZero | cpp/wedpr-crypto/ppc-homo/paillier/OpenSSLPaillier.cpp:216-228 | The division truncates toward zero, so the ciphertext 0 decrypts to 0 |
| Paillier.EvalSucceeds | cpp/wedpr-crypto/ppc-homo/paillier/OpenSSLPaillier.cpp:124-314 | An expression evaluates if and only if the codec accepts each plaintext and each scalar |
| Paillier.EvalCarries | cpp/wedpr-crypto/ppc-homo/paillier/OpenSSLPaillier.cpp:124-314 | Every ciphertext that an expression under sound masks reaches carries the expression's plain value |
| Paillier.Homomorphism | cpp/wedpr-crypto/ppc-homo/paillier/OpenSSLPaillier.cpp:124-314 | For every key, random exponents whose masks are sound in the sense of MaskExact, and expression over encrypt, add, sub and scalaMul: decryption decodes the plain result modulo n and returns it if and only if it is representable |
| NumberTheory.OrderSquare | cpp/wedpr-crypto/ppc-homo/paillier/OpenSSLPaillierKeyPair.h:119-121 | The order of every unit modulo p^2 divides p(p - 1), the exponent modulus that is precomputed |
| NumberTheory.ReduceExponent | cpp/wedpr-crypto/ppc-homo/paillier/OpenSSLPaillier.cpp:95-102 | Exactly when reducing an exponent modulo p^2 - p leaves the power modulo p^2 unchanged |
| LineScanner.MatchedIsAsciiPrefix | cpp/wedpr-computing/ppc-pir/src/Common.h:61-72 | A line matches if and only if the prefix is ASCII and is a prefix of the line |
| LineScanner.IsPrefixMatched | cpp/wedpr-computing/ppc-pir/src/Common.h:61-72 | The loop decides the match and reads only inside the line |
| LineScanner.LineUnique | cpp/wedpr-computing/ppc-pir/src/Common.h:106-141 | A position starts at most one line, by the definition of a line alone |
| LineScanner.LineEndIsLine | cpp/wedpr-computing/ppc-pir/src/Common.h:111-122 | Where the end pointer stops is the end of the line, for every mixture of terminators |
| LineScanner.LinesTile | cpp/wedpr-computing/ppc-pir/src/Common.h:106-141 | The lines and the single characters after them are the whole buffer, in order, without gap or overlap |
| LineScanner.LinesAreLines | cpp/wedpr-computing/ppc-pir/src/Common.h:106-141 | Each of them is a line |
| LineScanner.BeforeCommaIsId | cpp/wedpr-computing/ppc-pir/src/Common.h:126-132 | The id is the longest comma-free prefix of the record |
| LineScanner.RowIdIsBare | cpp/wedpr-computing/ppc-pir/src/Common.h:116-133 | The id of a row is the one its line shows if and only if no terminator is left inside or a comma comes before it; otherwise it is the whole line and ends in the terminator |
| LineScanner.RowsAreMatchingLines | cpp/wedpr-computing/ppc-pir/src/Common.h:106-141 | The rows are exactly the lines that start with an ASCII prefix, each once and in file order; the record is the line in the buffer, the id its text up to the first comma |
| LineScanner.RecordsTile | cpp/wedpr-computing/ppc-pir/src/Common.h:106-141 | With an empty prefix the records with one terminator between them concatenate to the buffer |
| LineScanner.Advance | cpp/wedpr-computing/ppc-pir/src/Common.h:111-122 | One move of the end pointer stays in the buffer and either goes on inside the line or reaches its end |
| LineScanner.KeepIfMatched | cpp/wedpr-computing/ppc-pir/src/Common.h:123-137 | Handling a finished line keeps the rows found complete up to the next line |
| LineScanner.ReadInputsWithPrefix | cpp/wedpr-computing/ppc-pir/src/Common.h:85-146 | The loop terminates, reads only inside the buffer, and returns exactly the rows of the matching lines, once each and in order; an empty file is an error |
| ObliviousTransfer.KeysAgree | cpp/wedpr-computing/ppc-pir/src/BaseOT.cpp:89-268 | Over a group of prime order with s nonzero, the client's key for a row is the server's if and only if the row's id hashes to the queried scalar |
| ObliviousTransfer.SenderPoints | cpp/wedpr-computing/ppc-pir/src/BaseOT.cpp:95-133 | X = a, Y = b and Z + H(id) = ab in the group; the blinding scalar kept is b, and the prefix is the first bytes of the id |
| ObliviousTransfer.ServerKeyValue | cpp/wedpr-computing/ppc-pir/src/BaseOT.cpp:155-192 | The server's point operations compute (z + id) s + y r |
| ObliviousTransfer.ClientKeyValue | cpp/wedpr-computing/ppc-pir/src/BaseOT.cpp:241-241 | The client's key is (x s + r) b |
| ObliviousTransfer.XorCancel | cpp/wedpr-computing/ppc-pir/src/BaseOT.cpp:203-207 | Two pads over one byte cancel if and only if they are equal |
| ObliviousTransfer.XorTwice | cpp/wedpr-computing/ppc-pir/src/BaseOT.cpp:244-248 | Each unmasked byte is the original one if and only if the two keys agree on it |
| ObliviousTransfer.XorByteBits | cpp/wedpr-computing/ppc-pir/src/BaseOT.cpp:205-205 | Each bit of the result is set exactly where the operands differ |
| ObliviousTransfer.MarkerIsText | cpp/wedpr-computing/ppc-pir/src/Common.h:45-45 | The marker is the sixteen characters PPC_DEFAULT_MESG |
| ObliviousTransfer.ReceiverGenerateMessage | cpp/wedpr-computing/ppc-pir/src/BaseOT.cpp:137-217 | One answer a row, in order, with its point, masked marker and key, and sealed record; the exception only if some key point is too short |
| ObliviousTransfer.XorLoop | cpp/wedpr-computing/ppc-pir/src/BaseOT.cpp:202-207 | The byte loop is the bytewise exclusive or |
| ObliviousTransfer.IsPrefix | cpp/wedpr-computing/ppc-pir/src/BaseOT.cpp:65-86 | The loop decides the prefix relation |
| ObliviousTransfer.FinishSender | cpp/wedpr-computing/ppc-pir/src/BaseOT.cpp:219-272 | The first unmasked message that starts with the marker decides the result, else it is empty; unequal lengths are an error. Required is only what keeps the program inside its vectors |
| PrivateLookup.FilterKeepsId | cpp/wedpr-computing/ppc-pir/src/BaseOT.cpp:275-288 | An ASCII prefix of the queried id loses no line with that id, so the first match is the same before and after the filter |
| PrivateLookup.FindIsFirst | cpp/wedpr-computing/ppc-pir/src/Common.h:106-141 | The plain search returns the whole text in the buffer of the first line whose text up to the first comma is the id |
| PrivateLookup.FindIsNone | cpp/wedpr-computing/ppc-pir/src/Common.h:106-141 | Without such a line it returns nothing |
| PrivateLookup.NonAsciiKeepsNothing | cpp/wedpr-computing/ppc-pir/src/Common.h:61-72 | A prefix with a byte of 128 or more filters out every line |
| PrivateLookup.OpenRow | cpp/wedpr-computing/ppc-pir/src/BaseOT.cpp:235-268 | The marker shows if and only if the two keys agree on their first 16 bytes, and a row whose id hashes like the queried one is opened to its record |
| PrivateLookup.FinishFindsFirst | cpp/wedpr-computing/ppc-pir/src/BaseOT.cpp:219-272 | Without an accidental earlier hit the client gets the record of the first answered row with the queried id |
| PrivateLookup.RefinesPlainLookup | cpp/wedpr-computing/ppc-pir/src/BaseOT.cpp:89-288 | For every file, id, prefix length and random choice without an accidental hit, the private lookup returns what a plain search returns if and only if the prefix is ASCII or there is nothing to find |
| PrivateLookup.FindIsBare | cpp/wedpr-computing/ppc-pir/src/Common.h:106-141 | For every id, the search by the program's ids and the search by the ids that the lines show agree if and only if the first line that has the id either way keeps it |
| PrivateLookup.RefinesBareLookup | cpp/wedpr-computing/ppc-pir/src/BaseOT.cpp:89-288 | The private lookup returns what a search by the ids that the lines show returns if and only if that line keeps its id, or, for a prefix that is not ASCII, there is nothing to find |
| PrivateLookup.IdAloneIsMissed | cpp/wedpr-computing/ppc-pir/src/Common.h:106-141 | In the file "ab\r\n" a reader sees the id "ab" and neither of the program's searches finds it |
| PrivateLookup.Lookup | cpp/wedpr-computing/ppc-pir/src/BaseOT.cpp:89-288 | With an ASCII prefix, the scanner, the answering loop and the opening loop in a row return the text in the buffer of the first line that has the id, else nothing; both refinements hold, no key is too short, and an empty file is an error |
| Handshake.ModelRouter.CheckAllConnected | python/ppc_model/network/wedpr_model_transport.py:96-107 | True if and only if the task is known and every other participant has a route |
| Handshake.ModelRouter.RecordNode | python/ppc_model/network/wedpr_model_transport.py:121-126 | Adds the sender's node to the task's routes, which it creates if needed, and changes no other entry |
| Handshake.ModelRouter.WaitForHandshake | python/ppc_model/network/wedpr_model_transport.py:109-126 | Records exactly the popped messages, returns if and only if all are connected, and never pops one message more than needed |
| Handshake.ModelRouter.OnTaskFinish | python/ppc_model/network/wedpr_model_transport.py:128-134 | Removes the task's routes and no others, so every destination of the task is without a route |
| Handshake.ModelRouter.GetDstNode | python/ppc_model/network/wedpr_model_transport.py:136-141 | The recorded node, or an error if there is none |
| Handshake.StepKeepsInv | python/ppc_model/network/wedpr_model_transport.py:86-134 | Every step keeps each handshake in exactly one place: unsent, in the inbox, or in the router with its sender's node |
| Handshake.StepLowersRank | python/ppc_model/interface/model_base.py:15-29 | Every step uses up part of a finite amount of work |
| Handshake.ConnectedRoutes | python/ppc_model/network/wedpr_model_transport.py:86-141 | In every reachable state a connected party routes to every other one by that party's own handshake after exactly N - 1 pops, a finished one to none; no party pops more, and routes of other tasks are untouched |
| Handshake.PopHasOutstanding | python/ppc_model/network/wedpr_model_transport.py:109-118 | A party that pops always has a handshake waiting or still to be sent to it |
| Handshake.MaximalRuns | python/ppc_model/interface/model_base.py:15-29 | Every run is finite, and one in which no party can move has all parties connected or finished if and only if there are at least two |
| Handshake.AloneNeverConnects | python/ppc_model/network/wedpr_model_transport.py:96-110 | A single party never returns from its wait |
| TaskLifecycle.ApplyKeepsInv | python/ppc_model/task/task_manager.py:167-245 | Whoever is about to evict a task has already stored a finished record, and finished results and records stay finished |
| TaskLifecycle.ApplyKeepsSettled | python/ppc_model/task/task_manager.py:126-245 | Only run_task entering an id takes a settled task back |
| TaskLifecycle.NeverStale | python/ppc_model/task/task_manager.py:126-245 | After any run and under any interleaving, kills and exceptions included, once task_finished has returned true it does so until run_task enters the id again; both calls may be split between cache and database by other threads |
| TaskLifecycle.RecordIsFinal | python/ppc_model/task/task_manager.py:126-245 | The record of a task that has left the cache stays what it is in every continuation without a new insertion if and only if no thread is on its way to storing another status |
| TaskLifecycle.ExecKeepsRecord | python/ppc_model/task/task_manager.py:126-245 | With nothing pending, every continuation without an insertion keeps the record and lets nothing become pending |
| TaskLifecycle.LateKillReachable | python/ppc_model/task/task_manager.py:126-245 | A run from the start in which SUCCESS is stored, the task has left the cache and a killer is still on its way |
| TaskLifecycle.LateKillOverwrites | python/ppc_model/task/task_manager.py:167-183 | A kill that found its task running stores KILLED over whatever was stored meanwhile |
| TaskLifecycle.WorkerEnds | python/ppc_model/task/task_manager.py:206-235 | From any state, a worker whose handler ended, left alone, puts SUCCESS or FAILURE on record as it ended, and takes the task out of the cache |
| TaskOutcome.MarksByRole | python/ppc_model/task/task_manager.py:167-231 | In every reachable state a thread marks SUCCESS only for a handler that succeeded, FAILURE for one that failed and KILLED for a kill |
| TaskOutcome.OutcomeStored | python/ppc_model/task/task_manager.py:126-245 | Over every run without a kill of the task or an exception while its success is reported, whose handlers of it all end alike: the record is its first value or that outcome, and the outcome once the task has left the cache |
| TaskOutcome.FinishedMeans | python/ppc_model/task/task_manager.py:185-204 | task_finished is false exactly while the task is cached and PENDING or RUNNING, or not cached with such a record |
| TaskOutcome.RaiseStoresFailure | python/ppc_common/ppc_async_executor/async_thread_executor.py:25-34 | An exception while a success is reported ends with FAILURE on record, of the same run or, after the eviction, of the next |
| TaskOutcome.EvictMissing | python/ppc_model/task/task_manager.py:176-235 | Popping a task that is no longer cached changes nothing, and only the report of a success goes on, as a failure |
| TaskOutcome.RunLooksAtRecord | python/ppc_model/task/task_manager.py:133-138 | run_task goes on if and only if the record does not say RUNNING |
| TaskOutcome.KillLooksAtCache | python/ppc_model/task/task_manager.py:167-172 | kill_one_task goes on, with the cached result, if and only if the task is cached and RUNNING |
| TaskOutcome.RecordsStay | python/ppc_model/task/task_manager.py:76-90 | No run creates or removes a record |
| JobTable.MPCService.AddJobIfNotRunning | cpp/wedpr-computing/ppc-mpc/src/MPCService.cpp:50-87 | Accepts if and only if the job is not RUNNING, leaves it RUNNING, touches no other job and keeps the running set exact |
| JobTable.MPCService.OnFinish | cpp/wedpr-computing/ppc-mpc/src/MPCService.cpp:112-135 | A known job becomes COMPLETED, no other changes, and the running set stays exact |
| JobTable.MPCService.OnFailed | cpp/wedpr-computing/ppc-mpc/src/MPCService.cpp:137-159 | A known job becomes FAILED, no other changes, and the running set stays exact |
| JobTable.MPCService.OnKill | cpp/wedpr-computing/ppc-mpc/src/MPCService.cpp:162-185 | A known job becomes KILLED, no other changes, and the running set stays exact |
| JobTable.MPCService.QueryJobStatus | cpp/wedpr-computing/ppc-mpc/src/MPCService.cpp:89-110 | Finds exactly the known jobs, with their status |
| JobTable.StepKeepsInv | cpp/wedpr-computing/ppc-mpc/src/MPCService.cpp:287-443 | Every submission, end of a run and kill keeps the running set exact and the book of accepted and closed submissions balanced |
| JobTable.EveryRun | cpp/wedpr-computing/ppc-mpc/src/MPCService.cpp:50-443 | Over every run: the running set is the set of RUNNING ids, every accepted submission was ended by onFinish or onFailed, has thrown or is in flight, and runs in flight exceed one if RUNNING by at most the number of kills |
| JobTable.StatusIsLast | cpp/wedpr-computing/ppc-mpc/src/MPCService.cpp:50-443 | After every run the status of a job is the one left by the last event that touched it (RUNNING, COMPLETED, FAILED or KILLED), whatever other jobs did; it is unknown exactly if none has |
| JobTable.KillFreeRuns | cpp/wedpr-computing/ppc-mpc/src/MPCService.cpp:287-389 | Without kills, accepted submissions equal calls of onFinish and onFailed plus one if RUNNING, and a job is RUNNING exactly while its one run is in flight if and only if no synchronous run of it has thrown |
| JobTable.ThrowBreaks | cpp/wedpr-computing/ppc-mpc/src/MPCService.cpp:300-335 | After any kill-free run, a synchronous run in flight that throws leaves the job RUNNING with nothing in flight |
| JobTable.FailedSyncRunSticks | cpp/wedpr-computing/ppc-mpc/src/MPCService.cpp:300-335 | A job RUNNING with nothing in flight stays so, and its submissions are refused, until it is killed |
| JobTable.FailedSyncRunHappens | cpp/wedpr-computing/ppc-mpc/src/MPCService.cpp:300-335 | A synchronous run that throws leads to that state |
| JobTable.KillLetsRunsOverlap | cpp/wedpr-computing/ppc-mpc/src/MPCService.cpp:391-436 | After a kill two runs of a job can be in flight, and the first one's end reports the second as completed |
| EvalExchange.StepKeepsInv | python/ppc_model/datasets/dataset.py:117-142 | Every step keeps the active party's file equal to the first non-empty one gathered so far, and each partner's file and messages in step with its position |
| EvalExchange.GatheredPresent | python/ppc_model/datasets/dataset.py:119-126 | There is a file to broadcast if and only if the active party has one or some partner sends a non-empty one |
| EvalExchange.GatheredIs | python/ppc_model/datasets/dataset.py:119-126 | The file broadcast is the active party's own if it has one, else the first non-empty one a partner sent |
| EvalExchange.Progress | python/ppc_model/datasets/dataset.py:117-142 | No deadlock: while some party can supply the file, an unfinished exchange has a next step |
| EvalExchange.MaximalRuns | python/ppc_model/datasets/dataset.py:117-142 | Every run is finite; one that cannot go on has finished with the expected files if and only if the active party has a file or some partner a non-empty one, and otherwise stopped at the active party's open |
| EvalExchange.FinalFiles | python/ppc_model/datasets/dataset.py:117-142 | At the end of every run that cannot go on, no file has been overwritten, and every party without one has the active party's, or if that had none the first non-empty one sent |
| EvalExchange.Agreement | python/ppc_model/datasets/dataset.py:122-142 | All parties end with equal bytes if and only if every file that existed already was the chosen one |
| EvalExchange.SingleHolder | python/ppc_model/datasets/dataset.py:119-124 | With one holder the gathered file is that holder's from its turn on |
| EvalExchange.OneHolderReachesAll | python/ppc_model/datasets/dataset.py:117-142 | With one holder of a non-empty file, every party ends with its bytes under every schedule |
| PirScheduler.Conservation | cpp/wedpr-computing/ppc-pir/src/OtPIRImpl.cpp:370-412 | Over every run free slots plus unfinished tasks equal the configured parallelism, no more tasks than that run at once, and the submitted tasks are the started ones followed by the queued ones |
| PirScheduler.StartsWithFreeSlot | cpp/wedpr-computing/ppc-pir/src/OtPIRImpl.cpp:391-412 | A submission starts one task if a slot is free, and otherwise only queues |
| PirScheduler.BacklogNeverShrinks | cpp/wedpr-computing/ppc-pir/src/OtPIRImpl.cpp:370-412 | Between any two points of a run the queue does not get shorter |
| PirScheduler.BacklogMisfiles | cpp/wedpr-computing/ppc-pir/src/OtPIRImpl.cpp:370-412 | From the first backlog on every task started is filed under the id of a task submitted after it |
| PirScheduler.FiledUnderOwnId | cpp/wedpr-computing/ppc-pir/src/OtPIRImpl.h:138-143 | A submission with a free slot starts one task, filed under its own id if and only if nothing was queued before it or the first queued has the same id |
| PirScheduler.OtPirScheduler.AsyncRunTask | cpp/wedpr-computing/ppc-pir/src/OtPIRImpl.cpp:370-389 | The fields change as the submission step says |
| PirScheduler.OtPirScheduler.RunNext | cpp/wedpr-computing/ppc-pir/src/OtPIRImpl.cpp:391-412 | At most one task leaves the queue, and only with a free slot |
| PirScheduler.OtPirScheduler.OnTaskFinished | cpp/wedpr-computing/ppc-pir/src/OtPIRImpl.cpp:376-387 | A completion frees one slot and starts nothing |

## Left out

- Secrecy and probability of every scheme; the proofs are about correctness only.
- Randomness, clocks and timers: random values are quantified inputs, timers are nondeterministic steps.
- Paillier key generation: the model starts from any x and two distinct odd primes below twice each other, and does not model the drawing of primes.
- Paillier's operations are modelled on values: they write only to locals and to the output buffer.
- The floating-point layer over Paillier: its alignment is the one proved for the iterated cipher, except that Paillier's scalaMul may reject the power of ten.
- `FloatingPointCodec` and `OreFloatingNumber`: they rest on decimal parsing and printing of a library.
- FAHE's choice of r and x: any multiplier q is allowed instead.
- The byte layout of C++ ciphertexts and keys; C++ ciphertexts are integers or pairs of integers.
- Elliptic curve, hash to scalars and AES: assumed by their algebraic contracts, points as residues modulo the prime order with an injective encoding. OpenSSL's own failures do not occur.
- PrivateLookup.RefinesPlainLookup: a prefix longer than the queried id is outside the model, since the program then slices beyond the id; and a row hit by accident on its first 16 key bytes would be opened with a wrong key, so the theorem excludes one before the first match.
- ObliviousTransfer.FinishSender: does not model the size of the output buffer for the decrypted record.
- PythonIhc.Homomorphism: takes the codec's two range bounds as parameters, because the program rounds them through floating point.
- TaskLifecycle.NeverStale: the age-based cleanup of the cache, which evicts without storing, is not a step; the manager's lock is not modelled either, so more interleavings are covered than occur.
- Log upload, result contents and time costs of tasks and jobs.
- Topic names and the transport below `pop_by_topic`; a message is delivered once to the party it is for.
- CEM service, storage, HDFS, MySQL, gRPC, initializers, command building, plotting, metrics and data frame shaping: plumbing without a hard property.
