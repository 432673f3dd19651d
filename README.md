# RSA from first principles, modelled in Dafny

`projeto_rsa` is a small Rust program (`src/main.rs`) that demonstrates
textbook RSA on `num_bigint::BigInt` values. It consists of:

- `gcd`: a recursive Euclid.
- `modinv`: the modular inverse by the extended Euclidean algorithm.
- `is_prime`: a deliberately weak primality test by trial division up to 1000.
- `gen_prime`: samples random candidates until one passes `is_prime`.
- `generate_keys`:
  - computes `n = p q` and `phi = (p - 1)(q - 1)`;
  - searches for the first odd `e` from 65537 on that is coprime to `phi`;
  - takes `d` as the inverse of `e` modulo `phi`.
- `encrypt` and `decrypt`: one modular exponentiation each.

This project models that arithmetic core and proves what it promises. The modules follow the functions of `src/main.rs`:

| module | file | models |
|---|---|---|
| `Integers` | `integers.dfy` | Divisibility, and the truncating `/` and `%` of `BigInt`. Dafny's own operators are Euclidean, so `TruncDiv` and `TruncRem` replace them wherever the source may divide a negative value. Also natural powers. |
| `Euclid` | `euclid.dfy` | `gcd` as a recursive function, plus Bezout's identity. |
| `ModInverse` | `modinv.dfy` | `modinv` as a method with the source's tuple loop. A ghost pair tracks the coefficients of `m` that the source does not keep. |
| `Primality` | `primality.dfy` | `is_prime` as a method with the source's `for` loop, and how its verdict relates to genuine primality. |
| `Rsa` | `rsa.dfy` | The key tuples, `BigInt::modpow`, `encrypt` and `decrypt`. |
| `KeyGen` | `keygen.dfy` | The deterministic part of `generate_keys`. The search loop for `e` is its own method, `FindExponent`; `GenerateKeys` calls it and then `modinv`. |
| `Fermat` | `fermat.dfy` | Euclid's lemma, the binomial theorem, Fermat's little theorem, and congruences modulo a product of two distinct primes. |
| `RoundTrip` | `roundtrip.dfy` | Decryption is proved to invert encryption for keys built from distinct genuine primes. The round trip fails for `p == q == 2`. The demonstration of the source's `main` is modelled with the primes and the message as parameters. |

Semantics that matter for faithfulness:

- **BigInt `%` and `/`** truncate toward zero. `Gcd` and `ModInv` use `TruncRem`/`TruncDiv`, so they also agree with the source on negative arguments. `is_prime` divides an `n > 1` by positive trial divisors, and there truncation and Euclid agree.
- **`BigInt::modpow`** rounds like a floored modulus:
  - the result lies in `[0, n)` for `n > 0` and in `(n, 0]` for `n < 0`;
  - it panics for a negative exponent or a zero modulus, so both are preconditions of `ModPow`.
- **`modinv(1, 0)`** is the only call that panics. After one loop step the remainder pair is `(1, 0)`, and the final `% m` then divides by zero. Every other call with `m == 0` returns `None`. `ModInv` therefore requires `m != 0 || a != 1`.
- **`generate_keys`** takes its primes from `gen_prime`, which only guarantees "positive and accepted by `is_prime`". So `GenerateKeys(p, q)` takes `p` and `q` as parameters with exactly that precondition. Under it:
  - the search for `e` terminates, because `65536 * phi + 1` is odd and coprime to `phi`;
  - the `expect` at line 68 never fails.
- **Where the key pair falls short of textbook RSA.**
  - `(e * d) mod phi == 1` holds only for `phi > 1`. With `p == q == 2`, which the weak test and the missing `p != q` guard both admit, `phi == 1`, `d == 0` and the remainder is 0. `KeyGen.ExponentProductModTotient` states what the code does.
  - Decryption is proved to invert encryption only for distinct genuine primes. For `p == q` it fails: `RoundTrip.EqualPrimesBreakRoundTrip` gives a generated key pair for which it does.

## Model

| member | source | states |
|---|---|---|
| Integers.TruncRem | src/main.rs:10 | The `BigInt` remainder is smaller than the divisor in magnitude, and is zero or has the sign of the dividend. |
| Integers.TruncDivision | src/main.rs:20-21 | The truncated quotient and remainder recompose the dividend: `a == (a / b) * b + a % b`. |
| Integers.TruncRemCongruent | src/main.rs:10 | The remainder differs from the dividend by a multiple of the divisor. |
| Integers.TruncAgreesWithEuclid | src/main.rs:38 | On a non-negative dividend and a positive divisor, the truncated quotient and remainder equal the Euclidean ones. |
| Euclid.Gcd | src/main.rs:6-12 | `gcd(a, 0) == a`. The result is non-negative for non-negative arguments. The recursion ends for all integers. |
| Euclid.GcdDivides | src/main.rs:6-12 | For all integers, `gcd(a, b)` divides `a` and `b`, and is zero only when both are zero. |
| Euclid.GcdGreatest | src/main.rs:6-12 | Every common divisor of `a` and `b` divides `gcd(a, b)`. |
| Euclid.GcdIsLargest | src/main.rs:6-12 | For non-negative `a`, `b`, not both zero, `gcd(a, b)` is the largest positive common divisor. |
| Euclid.GcdCommutes | src/main.rs:6-12 | On non-negative arguments, `gcd(a, b) == gcd(b, a)`. |
| Euclid.Bezout | src/main.rs:19-23 | `gcd(a, b)` is an integer combination `a x + b y`, as the extended algorithm computes. |
| Euclid.CoprimeAfterMultiple | src/main.rs:63-66 | `k * phi + 1` is coprime to `phi`, which bounds the search for `e`. |
| ModInverse.ModInv | src/main.rs:15-30 | `None` exactly when `gcd(m, a) != 1` (equivalently `gcd(a, m) != 1` for non-negative arguments). Otherwise the result `x` satisfies `a x ≡ 1 (mod m)`, lies in `[0, m)` for `m > 0` and in `(m, 0]` for `m < 0`. The loop keeps both remainders as combinations of `a` and `m` and keeps their gcd. |
| ModInverse.ExtendedStep | src/main.rs:20-22 | One loop step keeps both new remainders exact integer combinations of `a` and `m`, with the coefficients the loop computes. |
| ModInverse.NormalisedCongruent | src/main.rs:28 | The normalisation `(x % m + m) % m` changes `x` only by a multiple of `m`. |
| ModInverse.CongruentInverse | src/main.rs:25-28 | When the final remainder is 1, every coefficient congruent to the loop's `x` is an inverse of `a` modulo `m`. |
| ModInverse.InverseUnique | src/main.rs:25-28 | For `m > 0`, at most one inverse of `a` lies in `[0, m)`, so the returned one is unique. |
| Primality.IsPrime | src/main.rs:33-43 | The verdict is exactly the trial-division predicate: `n > 1`, and no divisor in `2..=1000` other than `n` itself leaves remainder 0. It is false for `n <= 1`. |
| Primality.PrimePasses | src/main.rs:37-42 | Every genuine prime is accepted. |
| Primality.PassingIsTwoOrOdd | src/main.rs:37-42 | Every accepted number is 2 or odd. |
| Primality.PassesExactlyBelowMillion | src/main.rs:33-43 | For `2 <= n <= 1000000`, acceptance is equivalent to genuine primality. |
| Fermat.ProductOfLargePrimesIsFalsePositive | src/main.rs:37-42 | The product of two primes above 1000 is accepted, although composite. |
| Rsa.ModPow | src/main.rs:75 | The result is congruent to `base^exp`, lies in `[0, n)` for `n > 0` and in `(n, 0]` for `n < 0`. The exponent must be non-negative and the modulus nonzero. |
| Rsa.ModPowUnique | src/main.rs:75 | For `n > 0`, `modpow` is the only value in `[0, n)` congruent to the power. |
| Rsa.Encrypt | src/main.rs:74-76 | The ciphertext is congruent to `message^e` modulo `n` and lies in `[0, n)` for `n > 0`. |
| Rsa.Decrypt | src/main.rs:79-81 | The plaintext is congruent to `cipher^d` modulo `n` and lies in `[0, n)` for `n > 0`. |
| Rsa.EncryptSeesOnlyResidue | src/main.rs:74-76 | Messages congruent modulo `n` give the same ciphertext: an out-of-range message is not rejected but reduced. |
| KeyGen.FindExponent | src/main.rs:63-66 | For `phi >= 1` the search ends. It returns the least odd `e >= 65537` with `gcd(e, phi) == 1`: the result is odd, at least 65537 and coprime to `phi`, and every odd number from 65537 below it is not coprime. |
| KeyGen.GenerateKeys | src/main.rs:57-71 | Both keys carry the modulus `n = p q`. `e` is odd, at least 65537, coprime to `phi`, and no smaller odd candidate from 65537 is coprime. `d` lies in `[0, phi)` with `e d ≡ 1 (mod phi)`, so the `expect` never fails. |
| KeyGen.ExponentProductModTotient | src/main.rs:61-68 | From `e d ≡ 1 (mod phi)`: `(e d) mod phi` is 1 when `phi > 1` and 0 when `phi == 1`. |
| RoundTrip.DecryptInvertsEncrypt | src/main.rs:57-81 | For distinct genuine primes `p`, `q` and exponents with `e d ≡ 1 (mod (p - 1)(q - 1))`, decrypting the encryption of any `m` in `[0, p q)` gives `m`. |
| RoundTrip.EqualPrimesBreakRoundTrip | src/main.rs:57-61 | `p == q == 2` is admitted. Any key pair `GenerateKeys` can return for it has `d == 0`, and the message 0 then decrypts to 1. |
| RoundTrip.GenerateEncryptDecrypt | src/main.rs:85-92 | For any primes `gen_prime` may return (positive and accepted by the test), generating keys, encrypting and decrypting yields a ciphertext and a recovered value in `[0, n)`. When the primes are genuine and distinct and the message lies in `[0, n)`, the recovered value is the message. |

## Left out

- `gen_prime` (src/main.rs:46-54): random sampling from `thread_rng` is not modelled. `GenerateKeys` takes `p` and `q` as parameters with `gen_prime`'s guarantee (positive and accepted by `is_prime`). Neither the bit length nor the loop's probabilistic termination is modelled.
- The `bits` parameter of `generate_keys`: it is only passed on to `gen_prime`, so it disappears with the sampling.
- `main` (src/main.rs:83-97): the console output is left out. The key generation, encryption and decryption of its demonstration are `RoundTrip.GenerateEncryptDecrypt`, with the fixed message 42 and the 64-bit primes replaced by parameters that carry `gen_prime`'s guarantee.
- `BigInt::modpow`'s algorithm (square-and-multiply inside the num-bigint crate) is not modelled. `Rsa.ModPow` states its result: the floored residue of the power. num-bigint is not part of this model.
- Fermat.ProductOfLargePrimesIsFalsePositive: the concrete false positive `1000000000039 * 1000000000039` is not checked, because showing it passes would take the 999 remainders of a concrete number. The lemma proves the general statement instead: every product of two primes above 1000 is accepted.
- RoundTrip.DecryptInvertsEncrypt: the round trip is proved only for genuine, distinct primes. The source checks neither, and for composites accepted by the weak test or for `p == q` it can fail.
- ModInverse.ModInv: requires `m != 0 || a != 1`, because the source panics on `modinv(1, 0)` (division by zero in the final `% m`). The panic is not modelled as an outcome.
- Rsa.ModPow: requires a non-negative exponent and a nonzero modulus, where `BigInt::modpow` panics. The panics are not modelled as outcomes.
- Messages outside `[0, n)` are neither validated nor rejected, as in the source. `Rsa.EncryptSeesOnlyResidue` states the resulting loss.
