/**
 * What the key pair of `generate_keys` is for: decrypting an encryption
 * gives the message back, for every message in `[0, n)`, when the two primes
 * are genuine and distinct. The source checks neither; with `p == q == 2`
 * the round trip fails.
 */
module RoundTrip {
  import opened Integers
  import opened Primality
  import opened Rsa
  import opened KeyGen
  import opened Fermat

  /**
   * RSA correctness: for distinct primes `p`, `q` and exponents whose product
   * is 1 modulo `(p - 1) * (q - 1)` (as `GenerateKeys` ensures), decryption
   * inverts encryption on `[0, p * q)`.
   */
  lemma DecryptInvertsEncrypt(p: int, q: int, pub: PublicKey, priv: PrivateKey, m: int)
    requires IsPrimeNumber(p) && IsPrimeNumber(q) && p != q
    requires pub.n == p * q && priv.n == p * q
    requires pub.e >= 0 && priv.d >= 0
    requires Divides(Totient(p, q), pub.e * priv.d - 1)
    requires 0 <= m < pub.n
    ensures Decrypt(Encrypt(m, pub), priv) == m
  {
    var n, e, d, phi := p * q, pub.e, priv.d, Totient(p, q);
    MulNonNegative(e, d);
    ExponentIsOneMore(p, q, e * d);
    var k: nat := Quotient(phi, e * d - 1);
    PowCongruentModProduct(m, p, q, k);
    assert 1 + k * phi == e * d;
    var c := Encrypt(m, pub);
    var r := Decrypt(c, priv);
    ChainOfCongruences(m, e, d, n, c, r);
    CongruentInRange(r, m, n);
  }

  /**
   * `r ≡ c^d ≡ (m^e)^d = m^(e d) ≡ m (mod n)` once `c ≡ m^e`, `r ≡ c^d` and
   * `m^(e d) ≡ m`.
   */
  lemma ChainOfCongruences(m: int, e: nat, d: nat, n: int, c: int, r: int)
    requires Divides(n, Pow(m, e) - c) && Divides(n, Pow(c, d) - r)
    requires Divides(n, Pow(m, e * d) - m)
    ensures Divides(n, r - m)
  {
    var me := Pow(m, e);
    DividesMultiple(n, me - c, -1);
    assert -1 * (me - c) == c - me;
    PowCongruent(c, me, d, n);
    PowMul(m, e, d);
    var x, med := Pow(c, d), Pow(m, e * d);
    DividesSum(n, x - r, x - med);
    DividesSum(n, med - m, x - r - (x - med));
    assert (med - m) - (x - r - (x - med)) == r - m;
  }

  /**
   * For distinct primes the totient is at least 2, so a product of
   * exponents congruent to 1 modulo it is a positive multiple of it plus 1.
   */
  lemma ExponentIsOneMore(p: int, q: int, ed: int)
    requires IsPrimeNumber(p) && IsPrimeNumber(q) && p != q
    requires ed >= 0 && Divides(Totient(p, q), ed - 1)
    ensures Totient(p, q) >= 2 && Quotient(Totient(p, q), ed - 1) >= 0
  {
    var phi := Totient(p, q);
    if p < q {
      MulMonotone(1, p - 1, q - 1);
    } else {
      MulMonotone(1, q - 1, p - 1);
    }
    var k := Quotient(phi, ed - 1);
    if k < 0 {
      MulMonotone(phi, 2, -k);
    }
  }

  /**
   * `GenerateKeys(2, 2)` is allowed, since 2 passes the test, and yields
   * `n == 4`, `phi == 1` and so `d == 0`: the message 0 then decrypts to 1.
   */
  lemma EqualPrimesBreakRoundTrip(pub: PublicKey, priv: PrivateKey)
    requires pub.n == 2 * 2 && priv.n == pub.n
    requires pub.e >= FirstExponent && 0 <= priv.d < Totient(2, 2)
    ensures PassesTrialDivision(2)
    ensures Encrypt(0, pub) == 0 && Decrypt(Encrypt(0, pub), priv) == 1
  {
    ZeroPow(pub.e);
    assert ModPow(0, pub.e, 4) == 0;
  }

  /**
   * The demonstration in the source's entry point, with the primes and the
   * message as parameters. The primes carry only what `gen_prime` guarantees;
   * the message comes back whenever the primes are genuine and distinct and
   * the message lies in `[0, n)`.
   */
  method GenerateEncryptDecrypt(p: int, q: int, message: int) returns (cipher: int, recovered: int)
    requires p > 0 && PassesTrialDivision(p)
    requires q > 0 && PassesTrialDivision(q)
    ensures 0 <= cipher < p * q && 0 <= recovered < p * q
    ensures IsPrimeNumber(p) && IsPrimeNumber(q) && p != q && 0 <= message < p * q ==> recovered == message
  {
    MulMonotone(1, p, q);
    var pub, priv := GenerateKeys(p, q);
    cipher := Encrypt(message, pub);
    recovered := Decrypt(cipher, priv);
    if IsPrimeNumber(p) && IsPrimeNumber(q) && p != q && 0 <= message < p * q {
      DecryptInvertsEncrypt(p, q, pub, priv, message);
    }
  }
}
