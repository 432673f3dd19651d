/**
 * The deterministic part of `generate_keys` in src/main.rs. The two primes
 * come from `gen_prime`, whose random sampling is not modelled; they are
 * parameters here, carrying `gen_prime`'s guarantee (positive and accepted
 * by the trial-division test).
 */
module KeyGen {
  import opened Integers
  import opened Euclid
  import opened Primality
  import opened ModInverse
  import opened Rsa

  /** The public exponent the search starts from. */
  const FirstExponent := 65537

  /** Euler's totient of `p * q` for distinct primes: `(p - 1) * (q - 1)`. */
  function Totient(p: int, q: int): int {
    (p - 1) * (q - 1)
  }

  /** For primes accepted by the test the totient is positive. */
  lemma TotientPositive(p: int, q: int)
    requires p > 1 && q > 1
    ensures Totient(p, q) >= 1
  {
    MulMonotone(1, p - 1, q - 1);
  }

  /** A candidate the search skips: it is even or shares a factor with `phi`. */
  predicate Skipped(e: int, phi: int) {
    e % 2 == 1 ==> Gcd(e, phi) != 1
  }

  /**
   * The search for the public exponent: the first odd number from 65537 on
   * that is coprime to `phi`. It ends, at the latest at `65536 * phi + 1`.
   */
  method FindExponent(phi: int) returns (e: int)
    requires phi >= 1
    ensures e >= FirstExponent && e % 2 == 1
    ensures Gcd(e, phi) == 1
    ensures forall e' :: FirstExponent <= e' < e && e' % 2 == 1 ==> Gcd(e', phi) != 1
  {
    // the search stops at the latest at the odd number `FirstExponent + 2 * last`,
    // which is `65536 * phi + 1` and coprime to phi
    ghost var last := 32768 * (phi - 1);
    CoprimeAfterMultiple(phi, 65536);
    e := FirstExponent;
    ghost var i := 0;
    while Gcd(e, phi) != 1
      invariant 0 <= i <= last && e == FirstExponent + 2 * i
      invariant Gcd(FirstExponent + 2 * last, phi) == 1
      invariant forall e' :: FirstExponent <= e' < e ==> Skipped(e', phi)
      decreases last - i
    {
      assert i != last;
      OddCandidates(i);
      forall e' | FirstExponent <= e' < e + 2
        ensures Skipped(e', phi)
      {
      }
      e, i := e + 2, i + 1;
    }
    OddCandidates(i);
    forall e' | FirstExponent <= e' < e && e' % 2 == 1
      ensures Gcd(e', phi) != 1
    {
      assert Skipped(e', phi);
    }
  }

  /** The candidates the search visits are odd, and the numbers between them even. */
  lemma OddCandidates(i: int)
    ensures (FirstExponent + 2 * i) % 2 == 1 && (FirstExponent + 2 * i + 1) % 2 == 0
  {
  }

  /**
   * Both keys share `n = p * q`; `e` is the first odd number from 65537 on
   * that is coprime to `phi = (p - 1) * (q - 1)`, and `d` is its inverse
   * modulo `phi`, normalised into `[0, phi)`. The modular inverse always
   * exists here, so the source's `expect` never fails.
   */
  method GenerateKeys(p: int, q: int) returns (pub: PublicKey, priv: PrivateKey)
    requires p > 0 && PassesTrialDivision(p)
    requires q > 0 && PassesTrialDivision(q)
    ensures pub.n == p * q && priv.n == pub.n
    ensures pub.e >= FirstExponent && pub.e % 2 == 1
    ensures Gcd(pub.e, Totient(p, q)) == 1
    ensures forall e :: FirstExponent <= e < pub.e && e % 2 == 1 ==> Gcd(e, Totient(p, q)) != 1
    ensures 0 <= priv.d < Totient(p, q)
    ensures Divides(Totient(p, q), pub.e * priv.d - 1)
  {
    var n := p * q;
    var phi := Totient(p, q);
    TotientPositive(p, q);
    var e := FindExponent(phi);
    var d := ModInv(e, phi);
    assert d.Some?;
    pub, priv := PublicKey(e, n), PrivateKey(d.value, n);
  }

  /**
   * The exponents satisfy `e * d mod phi == 1` exactly when `phi > 1`; with
   * `phi == 1` (the primes 2 and 2) the remainder is 0, although `d` is
   * still an inverse in the sense of the congruence.
   */
  lemma ExponentProductModTotient(phi: int, e: int, d: int)
    requires phi >= 1 && Divides(phi, e * d - 1)
    ensures (e * d) % phi == (if phi == 1 then 0 else 1)
  {
    var k := Quotient(phi, e * d - 1);
    if phi == 1 {
      RemainderOfMultiplePlus(1, e * d, 0);
    } else {
      RemainderOfMultiplePlus(phi, k, 1);
    }
  }
}
