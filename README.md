# Wiener-vulnerable RSA key generation, modelled in Dafny

This project models the key generator of `RSAvulnerableKeyGenerator.py`. The generator builds RSA keys whose private exponent is deliberately small, so that Wiener's continued-fraction attack can recover it. It has two operations:

- `getPrimePair(bits)` asserts `bits % 4 == 0`. It then asks the prime generator for a prime `p` and for a second prime `q` in the range from `p + 1` up to, but not including, `2p`.
- `generateKeys(nbits)` asserts `nbits % 4 == 0` and gets `(p, q)` from `getPrimePair(nbits // 2)`. It forms `n = p*q` and `phi = (p-1)(q-1)`. It then keeps drawing `d = random.getrandbits(nbits // 4)` until `gcd(d, phi) == 1`, computes `e = d^-1 mod phi`, and returns `(e, n, d)`.

This is the key relation of RSA (section 3 of RFC 8017, PKCS #1 v2.2), except that it uses φ(n) where the RFC uses λ(n).

Files:

- `wrappers.dfy` holds `Option` and `Result`, which stand for the source's exceptions.
- `arithmetic.dfy` gives the helper module `Arithmetic` (gcd, modular inverse, totient) its standard mathematical meaning. `Gcd` is Euclid's algorithm, `ExtendedGcd` the extended Euclidean algorithm, `ModInverse` the inverse normalised to `[0, m)`, and `Totient(p, q)` is `(p-1)(q-1)`. These are reference definitions with proved properties, not a transcription of that module's code.
- `prime_source.dfy` states what the key generator relies on from the prime generator (`MillerRabin.gen_prime` and `gen_prime_range`): the answer is prime, and for the range call it lies in `[lo, hi)`.
- `key_generator.dfy` holds `GetPrimePair` (a function, like the source's pure `getPrimePair`) and `GenerateKeys` (a method with the source's `while not good_d` loop and its flag). `GenerateKeys` is proved equal to the specification function `KeyGen`, and the properties are lemmas about `KeyGen`.

How the outside world comes in:

- The prime generator's answers `p` and `q` are parameters. The precondition asks only what that generator promises, and only when the source actually reaches those calls, that is, when both assertions pass.
- `random.getrandbits` is an oracle: `draws` is the sequence of raw values the random source produces. Each call yields `raw % 2^k`, which is at most `k` bits, and every `k`-bit value is a possible draw.
- Failures are `Err` values. `BitsNotMultipleOfFour(v)` means an `assert` failed, and `v` is the value it checked: `nbits` at line 64, `nbits / 2` at line 47. `NegativeBitCount(k)` is the `ValueError` that `getrandbits` raises for `k < 0`. In the model it is reached only because the oracle lets `gen_prime` answer a prime for a negative bit count. Both assertions are modelled as enabled, that is, without `python -O`. `DrawsExhausted` means the finite draw sequence ran out before an acceptable `d` appeared.

Where the documentation and the code disagree, the model follows the code:

- The module docstring (lines 17-21) says `e` is chosen first and `d` is computed from it. The code does the reverse: it draws `d` and computes `e = d^-1 mod phi`.
- Line 64 checks only `nbits % 4 == 0`, but line 47 then checks `(nbits / 2) % 4 == 0`. A call gets past both assertions only when `nbits % 8 == 0`. For example, 1028 passes line 64 and fails line 47 on 514.
- The docstring (line 60) says `n` is `nbits` long. Suppose `p` has exactly `nbits / 2` bits, as the docstring of `getPrimePair` (line 43) says. Then `n` has between `nbits - 1` and `nbits + 1` bits, and `nbits + 1` does occur.
- `random.getrandbits(nbits // 4)` (line 75) returns at most `nbits // 4` bits. So `d` can be shorter than that, and `d == 0` is a possible draw, which the loop always rejects.

## Model

| member | source | states |
|---|---|---|
| `Arithmetic.Gcd` | RSAvulnerableKeyGenerator.py:77 | Euclid's gcd divides both of its arguments. |
| `Arithmetic.GcdGreatest` | RSAvulnerableKeyGenerator.py:77 | Every common divisor of a and b divides Gcd(a, b), so Gcd is the greatest common divisor. |
| `Arithmetic.ExtendedGcd` | RSAvulnerableKeyGenerator.py:80 | Extended Euclid returns Bezout coefficients: a*x + b*y == Gcd(a, b). |
| `Arithmetic.ModInverse` | RSAvulnerableKeyGenerator.py:80 | The inverse exists (Some) exactly when gcd(a, m) == 1. It lies in [0, m) and satisfies a*x ≡ 1 (mod m). None is the source's failure to invert. |
| `Arithmetic.InverseOnlyIfCoprime` | RSAvulnerableKeyGenerator.py:80 | If any x has a*x ≡ 1 (mod m), then gcd(a, m) == 1. With ModInverse, this makes "None" mean that no inverse exists at all. |
| `Arithmetic.InverseUnique` | RSAvulnerableKeyGenerator.py:80 | Two inverses of a modulo m in [0, m) are equal, so e is determined by d and phi. |
| `VulnerableKeyGenerator.GetRandBits` | RSAvulnerableKeyGenerator.py:75 | A draw from getrandbits(k) is below 2^k. |
| `VulnerableKeyGenerator.GetRandBitsCoversRange` | RSAvulnerableKeyGenerator.py:75 | Every value below 2^k is a possible draw, so the oracle does not narrow the source. |
| `VulnerableKeyGenerator.GetPrimePair` | RSAvulnerableKeyGenerator.py:40-52 | Fails with the assertion on `bits` exactly when bits % 4 != 0. Otherwise it returns (p, q) with both prime and p < q < 2p, which follows from q coming from the range [p + 1, 2p). |
| `VulnerableKeyGenerator.FirstAccepted` | RSAvulnerableKeyGenerator.py:73-78 | Returns the index of the first draw whose truncation is coprime to phi, and every earlier draw is rejected. It returns None exactly when no draw is accepted. |
| `VulnerableKeyGenerator.TotientOfPair` | RSAvulnerableKeyGenerator.py:68 | For a valid pair, phi = (p-1)(q-1) is at least 2 and equals n - p - q + 1. |
| `Arithmetic.Totient` | RSAvulnerableKeyGenerator.py:68 | phi = (p-1)(q-1) equals n - p - q + 1 with n = p*q, and it is not negative when p and q are positive. |
| `VulnerableKeyGenerator.Accepted` | RSAvulnerableKeyGenerator.py:75-77 | When phi >= 2, an accepted draw d is at least 1 and has an inverse modulo phi, so line 80 cannot fail after the loop. |
| `VulnerableKeyGenerator.KeyGen` | RSAvulnerableKeyGenerator.py:54-81 | In the model, the getrandbits error occurs exactly when nbits % 8 == 0 and nbits < 0, and it carries nbits // 4. A key is returned only when nbits % 8 == 0, nbits >= 0 and (p, q) is a valid prime pair. |
| `VulnerableKeyGenerator.GenerateKeys` | RSAvulnerableKeyGenerator.py:54-81 | The loop with its good_d flag returns exactly the specification KeyGen. That covers both assertions, the getrandbits error, the first coprime draw as d, e = ModInverse(d, phi), and exhaustion of the draws. |
| `VulnerableKeyGenerator.BitLengthAccepted` | RSAvulnerableKeyGenerator.py:64-66 | A call fails one of the two bit-length assertions exactly when nbits % 8 != 0. The error carries nbits (line 64) or nbits / 2 (line 47). |
| `VulnerableKeyGenerator.BitLength1028Rejected` | RSAvulnerableKeyGenerator.py:47-66 | generateKeys(1028) passes its own assertion and fails getPrimePair's, on 514. |
| `VulnerableKeyGenerator.ModulusBounds` | RSAvulnerableKeyGenerator.py:43-50 | From p < q < 2p, it follows that p*p < n = p*q < 2*p*p. |
| `VulnerableKeyGenerator.KeyGenSound` | RSAvulnerableKeyGenerator.py:66-81 | Every returned key needs nbits % 8 == 0 and nbits >= 0, comes from a valid prime pair, and satisfies p*p < n < 2*p*p. It is an RSA key over that pair: n == p*q; 1 <= d < 2^(nbits/4); gcd(d, phi) == 1; e < phi; (e*d) % phi == 1. |
| `VulnerableKeyGenerator.DeriveKey` | RSAvulnerableKeyGenerator.py:67-81 | Once the pair is fixed, the only failure is DrawsExhausted, and a returned key is an RSA key over the pair: the same relations as in KeyGenSound. |
| `VulnerableKeyGenerator.InverseOfAccepted` | RSAvulnerableKeyGenerator.py:77-80 | An accepted d is at least 1, and its inverse e satisfies e < phi and (e*d) % phi == 1. |
| `VulnerableKeyGenerator.ZeroNeverAccepted` | RSAvulnerableKeyGenerator.py:73-78 | The draw d == 0 is always rejected, because gcd(0, phi) = phi >= 2. |
| `VulnerableKeyGenerator.KeyGenTakesFirstCoprimeDraw` | RSAvulnerableKeyGenerator.py:73-78 | The returned d is the truncation of some draw, and every draw before it failed the gcd test. |
| `VulnerableKeyGenerator.KeyGenExhausted` | RSAvulnerableKeyGenerator.py:73-78 | For a valid nbits, the search ends without d exactly when no draw's truncation is coprime to phi. |
| `VulnerableKeyGenerator.KeyGenSucceeds` | RSAvulnerableKeyGenerator.py:64-81 | For nbits % 8 == 0, nbits >= 0 and answers the prime generator may give, a key is returned exactly when some draw is accepted. |
| `VulnerableKeyGenerator.ZeroBitsNeverSucceed` | RSAvulnerableKeyGenerator.py:73-78 | In the model, where getrandbits(0) returns 0, nbits == 0 never yields a key: every draw is 0 and is rejected, so the search ends with DrawsExhausted. |
| `VulnerableKeyGenerator.WienerBoundNotEnforced` | RSAvulnerableKeyGenerator.py:76-81 | The check 36*d^4 < n is commented out. With nbits = 8, the 4-bit prime p = 11, q = 17 from (11, 22) and a first draw of 3, the result is (e, n, d) = (107, 187, 3), although 36 * 3^4 = 2916 >= 187. |
| `VulnerableKeyGenerator.ModulusBitLength` | RSAvulnerableKeyGenerator.py:60-67 | If p has exactly b bits, then 2^(2b-2) < n < 2^(2b+1), so n has 2b - 1 to 2b + 1 bits. |
| `VulnerableKeyGenerator.ModulusMayExceedRequestedLength` | RSAvulnerableKeyGenerator.py:60-67 | The bound is reached: the 4-bit prime p = 13 with q = 23 from (13, 26) gives n = 299, which has 9 bits. |

## Left out

- The `__main__` block (RSAvulnerableKeyGenerator.py:83-111) is not modelled. It writes files, prints and loops over a batch, which is all I/O.
- `Arithmetic.isqrt` and the floating-point scaling `sqrtn*1.5` and `sqrtn*2.5` (lines 99-101) are not modelled. Only the demo block uses them, and they involve floating point.
- The internals of `MillerRabin.gen_prime` and `gen_prime_range` are not modelled. Their answers are parameters that must be prime, and, for the range call, in the range. Probabilistic primality and the bit length of `gen_prime`'s answer are not part of that contract. The bit length appears only as the hypothesis of `ModulusBitLength`.
- The code of `Arithmetic.gcd`, `modInverse` and `totient` is not part of this model. They are given their standard meanings. `Totient(p, q)` is `(p-1)(q-1)`, as the docstring (line 19) states.
- GenerateKeys: the source's retry loop has no bound on the number of draws. The model draws from a finite sequence and returns `DrawsExhausted` when the sequence runs out. The almost-sure termination of the unbounded loop is not modelled.
- GenerateKeys: `getrandbits(0)` is modelled as returning 0, which is what Python 3.9 and later do. Older versions raise `ValueError` for `k == 0`, and the model does not capture that error.
- KeyGen: for `nbits < 0` the model lets `gen_prime(nbits // 2)` answer a prime, although no prime has a negative number of bits (line 43). The unseen `gen_prime` may raise or never return there, so `NegativeBitCount` is the model's outcome and not a behaviour the source shows.
- KeyGen: the two `assert`s (lines 47 and 64) are modelled as enabled. Under `python -O` they are stripped, and then `generateKeys(1028)` would not fail on 514.
- ZeroBitsNeverSucceed: it holds for the model's choice of `getrandbits(0) == 0` only. It also relies on `gen_prime(0)` returning a prime. The oracle does not require the answer of `gen_prime(bits)` to have `bits` bits, although the docstring (line 43) asks for that, which would rule out `bits == 0`.
- The uniformity and quality of the random source are not modelled. Any sequence of raw draws is allowed.
- Encryption and decryption are not modelled. The docstring describes them (lines 24-30), but this file does not implement them. RSA correctness for messages (Fermat and Euler) is therefore not proved.
- The Wiener-vulnerability guarantee `d < n^(1/4)/sqrt(6)` (line 34) is not a postcondition, because the code does not enforce it. `WienerBoundNotEnforced` exhibits a returned key that violates it.
- The default arguments (`bits=512`, `nbits=1024`) are not modelled. Every call in the model passes its argument explicitly.
