/**
 * The number theory behind the RSA round trip: Euclid's lemma, the binomial
 * theorem, Fermat's little theorem, and the combination of congruences
 * modulo two distinct primes.
 */
module Fermat {
  import opened Integers
  import opened Euclid
  import opened Primality

  // ---------------------------------------------------------------------
  // Euclid's lemma

  /** A prime that divides a product divides one of its factors. */
  lemma EuclidsLemma(p: int, a: int, b: int)
    requires IsPrimeNumber(p) && a >= 0 && Divides(p, a * b)
    ensures Divides(p, a) || Divides(p, b)
  {
    if !Divides(p, a) {
      var g := Gcd(p, a);
      GcdDivides(p, a);
      DividesBound(g, p);
      assert g == 1 || g == p;
      assert g != p;
      var x, y := Bezout(p, a);
      CombinationOfOne(p, a, b, x, y);
      DividesByWitness(p, p * (x * b), x * b);
      DividesMultiple(p, a * b, y);
      DividesSum(p, p * (x * b), (a * b) * y);
    }
  }

  /** `b` splits along a combination of `p` and `a` that equals one. */
  lemma CombinationOfOne(p: int, a: int, b: int, x: int, y: int)
    requires p * x + a * y == 1
    ensures b == p * (x * b) + (a * b) * y
  {
    calc {
      b;
      (p * x + a * y) * b;
      { MulDistributes(b, p * x, a * y); }
      (p * x) * b + (a * y) * b;
      { MulRegroup(p, x, b); MulRegroup(a, y, b); MulRegroup(a, b, y); }
      p * (x * b) + (a * b) * y;
    }
  }

  /** A prime does not divide a positive number smaller than itself. */
  lemma PrimeNotDividesSmaller(p: int, k: int)
    requires IsPrimeNumber(p) && 0 < k < p
    ensures !Divides(p, k)
  {
    if Divides(p, k) {
      DividesBound(p, k);
    }
  }

  /**
   * Two distinct primes that both divide `x` divide it together: their
   * product divides `x`.
   */
  lemma DistinctPrimesDivideProduct(p: int, q: int, x: int)
    requires IsPrimeNumber(p) && IsPrimeNumber(q) && p != q
    requires Divides(p, x) && Divides(q, x)
    ensures Divides(p * q, x)
  {
    var s := Quotient(p, x);
    EuclidsLemma(q, p, s);
    assert !Divides(q, p) by {
      if Divides(q, p) {
        DividesBound(q, p);
      }
    }
    var t := Quotient(q, s);
    MulRegroup(p, q, t);
    DividesByWitness(p * q, x, t);
  }

  /** Every number from 2 on has a prime divisor. */
  lemma {:induction false} PrimeDivisor(n: int) returns (r: int)
    requires n >= 2
    ensures IsPrimeNumber(r) && Divides(r, n) && r <= n
    decreases n
  {
    if IsPrimeNumber(n) {
      r := n;
      DividesSelf(n);
    } else {
      var k :| 2 <= k < n && Divides(k, n);
      r := PrimeDivisor(k);
      DividesTransitive(r, k, n);
    }
  }

  /** The only divisor from 2 on of a prime is the prime itself. */
  lemma PrimeDivisorOfPrime(r: int, a: int)
    requires IsPrimeNumber(a) && r >= 2 && Divides(r, a)
    ensures r == a
  {
    DividesBound(r, a);
  }

  /**
   * The trial-division test accepts the composite product of two primes
   * above the trial limit: no trial divisor can divide it.
   */
  lemma ProductOfLargePrimesIsFalsePositive(a: int, b: int)
    requires IsPrimeNumber(a) && IsPrimeNumber(b) && a > TrialLimit && b > TrialLimit
    ensures PassesTrialDivision(a * b) && !IsPrimeNumber(a * b)
  {
    MulMonotone(2, b, a);
    DividesByWitness(a, a * b, b);
    forall i | 2 <= i <= TrialLimit
      ensures (a * b) % i != 0
    {
      if (a * b) % i == 0 {
        DividesIffRemainderZero(i, a * b);
        var r := PrimeDivisor(i);
        DividesTransitive(r, i, a * b);
        EuclidsLemma(r, a, b);
        if Divides(r, a) {
          PrimeDivisorOfPrime(r, a);
        } else {
          PrimeDivisorOfPrime(r, b);
        }
      }
    }
  }

  // ---------------------------------------------------------------------
  // Binomial coefficients and the binomial theorem

  /** Binomial coefficients by Pascal's rule. */
  function Binom(n: nat, k: nat): nat
    decreases n
  {
    if k == 0 then 1 else if n == 0 then 0 else Binom(n - 1, k - 1) + Binom(n - 1, k)
  }

  lemma {:induction false} BinomAbove(n: nat, k: nat)
    requires k > n
    ensures Binom(n, k) == 0
    decreases n
  {
    if n > 0 {
      BinomAbove(n - 1, k - 1);
      BinomAbove(n - 1, k);
    }
  }

  /** The absorption identity `k * C(n, k) == n * C(n - 1, k - 1)`. */
  lemma {:induction false} BinomAbsorb(n: nat, k: nat)
    requires 1 <= k <= n
    ensures k * Binom(n, k) == n * Binom(n - 1, k - 1)
    decreases n
  {
    if k == 1 {
      BinomOne(n);
    } else if k == n {
      BinomAbove(n - 1, n);
      BinomFull(n);
      BinomFull(n - 1);
    } else {
      // 2 <= k < n
      BinomAbsorb(n - 1, k);
      BinomAbsorb(n - 1, k - 1);
      AbsorbStep(n, k, Binom(n - 2, k - 2), Binom(n - 2, k - 1), Binom(n - 1, k - 1), Binom(n - 1, k));
    }
  }

  /** The arithmetic of one step of the absorption identity. */
  lemma AbsorbStep(n: int, k: int, a: int, b: int, c: int, d: int)
    requires c == a + b && (k - 1) * c == (n - 1) * a && k * d == (n - 1) * b
    ensures k * (c + d) == n * c
  {
    calc {
      k * (c + d);
      (k - 1) * c + c + k * d;
      (n - 1) * a + (n - 1) * b + c;
      { MulDistributes(n - 1, a, b); }
      (n - 1) * c + c;
      n * c;
    }
  }

  lemma {:induction false} BinomOne(n: nat)
    ensures Binom(n, 1) == n
  {
    if n > 0 {
      BinomOne(n - 1);
    }
  }

  lemma {:induction false} BinomFull(n: nat)
    ensures Binom(n, n) == 1
  {
    if n > 0 {
      BinomFull(n - 1);
      BinomAbove(n - 1, n);
    }
  }

  /** A prime divides every binomial coefficient `C(p, k)` with `0 < k < p`. */
  lemma PrimeDividesBinom(p: int, k: nat)
    requires IsPrimeNumber(p) && 0 < k < p
    ensures Divides(p, Binom(p, k))
  {
    BinomAbsorb(p, k);
    DividesByWitness(p, k * Binom(p, k), Binom(p - 1, k - 1));
    EuclidsLemma(p, k, Binom(p, k));
    PrimeNotDividesSmaller(p, k);
  }

  /** The partial binomial sum `C(n, 0) + C(n, 1) x + ... + C(n, k) x^k`. */
  function BinomSum(x: int, n: nat, k: nat): int {
    (if k == 0 then 0 else BinomSum(x, n, k - 1)) + Binom(n, k) * Pow(x, k)
  }

  /** Pascal's rule lifted to the partial sums. */
  lemma {:induction false} BinomSumStep(x: int, n: nat, k: nat)
    requires k >= 1
    ensures BinomSum(x, n + 1, k) == BinomSum(x, n, k) + x * BinomSum(x, n, k - 1)
  {
    if k == 1 {
      assert Binom(n + 1, 1) == Binom(n, 0) + Binom(n, 1);
      assert Pow(x, 1) == x;
      MulDistributes(x, 1, Binom(n, 1) * x);
    } else {
      BinomSumStep(x, n, k - 1);
      var s1, s2 := BinomSum(x, n, k - 1), BinomSum(x, n, k - 2);
      var c1, c2 := Binom(n, k - 1), Binom(n, k);
      var pk := Pow(x, k);
      assert Binom(n + 1, k) == c1 + c2;
      assert pk == x * Pow(x, k - 1);
      calc {
        BinomSum(x, n + 1, k);
        BinomSum(x, n + 1, k - 1) + (c1 + c2) * pk;
        s1 + x * s2 + (c1 + c2) * pk;
        { MulDistributes(pk, c1, c2); }
        s1 + x * s2 + c1 * pk + c2 * pk;
        { MulRegroup(c1, x, Pow(x, k - 1)); }
        s1 + c2 * pk + (x * s2 + x * (c1 * Pow(x, k - 1)));
        { MulDistributes(x, s2, c1 * Pow(x, k - 1)); }
        BinomSum(x, n, k) + x * s1;
      }
    }
  }

  /** The binomial theorem for `(x + 1)^n`. */
  lemma {:induction false} BinomialTheorem(x: int, n: nat)
    ensures Pow(x + 1, n) == BinomSum(x, n, n)
  {
    if n > 0 {
      BinomialTheorem(x, n - 1);
      BinomSumStep(x, n - 1, n);
      BinomAbove(n - 1, n);
      var s := BinomSum(x, n - 1, n - 1);
      assert BinomSum(x, n - 1, n) == s;
      calc {
        Pow(x + 1, n);
        (x + 1) * s;
        { MulDistributes(s, x, 1); }
        s + x * s;
      }
    }
  }

  /** The terms strictly between the first and the last of `(x + 1)^p` vanish modulo `p`. */
  lemma {:induction false} MiddleTermsVanish(x: int, p: int, k: nat)
    requires IsPrimeNumber(p) && k < p
    ensures Divides(p, BinomSum(x, p, k) - 1)
  {
    if k == 0 {
      DividesSelf(p);
    } else {
      MiddleTermsVanish(x, p, k - 1);
      PrimeDividesBinom(p, k);
      DividesMultiple(p, Binom(p, k), Pow(x, k));
      DividesSum(p, BinomSum(x, p, k - 1) - 1, Binom(p, k) * Pow(x, k));
    }
  }

  /** `(x + 1)^p` and `x^p + 1` are congruent modulo a prime `p`. */
  lemma FreshmansDream(x: int, p: int)
    requires IsPrimeNumber(p)
    ensures Divides(p, Pow(x + 1, p) - Pow(x, p) - 1)
  {
    BinomialTheorem(x, p);
    MiddleTermsVanish(x, p, p - 1);
    BinomFull(p);
  }

  // ---------------------------------------------------------------------
  // Fermat's little theorem

  /** Fermat's little theorem: `x^p` and `x` are congruent modulo a prime `p`. */
  lemma {:induction false} FermatLittle(x: nat, p: int)
    requires IsPrimeNumber(p)
    ensures Divides(p, Pow(x, p) - x)
  {
    if x == 0 {
      ZeroPow(p);
      DividesSelf(p);
    } else {
      FermatLittle(x - 1, p);
      FreshmansDream(x - 1, p);
      DividesSum(p, Pow(x, p) - Pow(x - 1, p) - 1, Pow(x - 1, p) - (x - 1));
    }
  }

  lemma ZeroPow(e: nat)
    requires e >= 1
    ensures Pow(0, e) == 0
  {
  }

  /**
   * `m` raised to `1 + j * (p - 1)` is congruent to `m` modulo a prime `p`:
   * each further `p - 1` factors of `m` multiply back to `m`.
   */
  lemma {:induction false} FermatIterated(m: nat, p: int, j: nat)
    requires IsPrimeNumber(p)
    ensures Divides(p, Pow(m, 1 + j * (p - 1)) - m)
  {
    if j == 0 {
      assert Pow(m, 1) == m;
      DividesSelf(p);
    } else {
      FermatIterated(m, p, j - 1);
      var i: nat := (j - 1) * (p - 1);
      var a := Pow(m, i);
      assert 1 + j * (p - 1) == i + p by {
        MulDistributes(p - 1, j - 1, 1);
      }
      PowAdd(m, i, p);
      PowAdd(m, i, 1);
      FermatLittle(m, p);
      DividesMultiple(p, Pow(m, p) - m, a);
      MulDistributes(a, Pow(m, p), m);
      DividesSum(p, a * Pow(m, p) - a * m, Pow(m, 1 + i) - m);
    }
  }

  /**
   * For distinct primes `p`, `q` and an exponent one more than a multiple
   * of `(p - 1) * (q - 1)`, the power of any `m` is congruent to `m` modulo
   * `p * q`.
   */
  lemma PowCongruentModProduct(m: nat, p: int, q: int, k: nat)
    requires IsPrimeNumber(p) && IsPrimeNumber(q) && p != q
    ensures Divides(p * q, Pow(m, 1 + k * ((p - 1) * (q - 1))) - m)
  {
    var jp: nat, jq: nat := k * (q - 1), k * (p - 1);
    ExponentSplits(k, p - 1, q - 1);
    FermatIterated(m, p, jp);
    FermatIterated(m, q, jq);
    DistinctPrimesDivideProduct(p, q, Pow(m, 1 + k * ((p - 1) * (q - 1))) - m);
  }

  lemma ExponentSplits(k: int, a: int, b: int)
    ensures k * (a * b) == (k * b) * a == (k * a) * b
  {
    MulRegroup(k, a, b);
    MulRegroup(k, b, a);
  }
}
