/**
 * `encrypt` and `decrypt` of src/main.rs: the RSAEP and RSADP primitives of
 * PKCS #1 v2.2 (RFC 8017, sections 5.1.1 and 5.1.2), both a single modular
 * exponentiation, without the RFC's check that the representative lies in
 * `[0, n)`.
 */
module Rsa {
  import opened Integers

  /** `(e, n)` as the source's first key tuple. */
  datatype PublicKey = PublicKey(e: int, n: int)

  /** `(d, n)` as the source's second key tuple. */
  datatype PrivateKey = PrivateKey(d: int, n: int)

  /**
   * `BigInt::modpow`: `base` to the power `exp`, reduced modulo `modulus`
   * with floored rounding. It panics for a negative exponent or a zero
   * modulus; the result is congruent to the power and lies in `[0, modulus)`
   * for a positive modulus and in `(modulus, 0]` for a negative one.
   */
  function ModPow(base: int, exp: int, modulus: int): (r: int)
    requires exp >= 0 && modulus != 0
    ensures modulus > 0 ==> 0 <= r < modulus
    ensures modulus < 0 ==> modulus < r <= 0
    ensures Divides(modulus, Pow(base, exp) - r)
  {
    var x := Pow(base, exp);
    var e := x % modulus;
    DividesByWitness(modulus, x - e, x / modulus);
    if modulus > 0 || e == 0 then
      e
    else
      DividesByWitness(modulus, x - (e + modulus), x / modulus - 1);
      e + modulus
  }

  /** RSAEP: the ciphertext `message^e mod n`. */
  function Encrypt(message: int, key: PublicKey): (c: int)
    requires key.e >= 0 && key.n != 0
    ensures key.n > 0 ==> 0 <= c < key.n
    ensures Divides(key.n, Pow(message, key.e) - c)
  {
    ModPow(message, key.e, key.n)
  }

  /** RSADP: the recovered message `cipher^d mod n`. */
  function Decrypt(cipher: int, key: PrivateKey): (m: int)
    requires key.d >= 0 && key.n != 0
    ensures key.n > 0 ==> 0 <= m < key.n
    ensures Divides(key.n, Pow(cipher, key.d) - m)
  {
    ModPow(cipher, key.d, key.n)
  }

  /**
   * For a positive modulus, `ModPow` is the only value in `[0, modulus)`
   * congruent to the power.
   */
  lemma ModPowUnique(base: int, exp: int, modulus: int, r: int)
    requires exp >= 0 && modulus > 0
    requires 0 <= r < modulus && Divides(modulus, Pow(base, exp) - r)
    ensures ModPow(base, exp, modulus) == r
  {
    var x, s := Pow(base, exp), ModPow(base, exp, modulus);
    DividesSum(modulus, x - r, x - s);
    assert (x - r) - (x - s) == s - r;
    CongruentInRange(s, r, modulus);
  }

  /**
   * Messages outside `[0, n)` are not rejected: any two messages congruent
   * modulo `n` give the same ciphertext, so only the residue survives.
   */
  lemma EncryptSeesOnlyResidue(m1: int, m2: int, key: PublicKey)
    requires key.e >= 0 && key.n > 0
    requires Divides(key.n, m1 - m2)
    ensures Encrypt(m1, key) == Encrypt(m2, key)
  {
    var c2 := Encrypt(m2, key);
    PowCongruent(m1, m2, key.e, key.n);
    DividesSum(key.n, Pow(m1, key.e) - Pow(m2, key.e), Pow(m2, key.e) - c2);
    ModPowUnique(m1, key.e, key.n, c2);
  }
}
