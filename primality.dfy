/**
 * `is_prime` of src/main.rs: a deliberately weak primality test that only
 * tries the divisors 2 through 1000, and how its verdict relates to genuine
 * primality.
 */
module Primality {
  import opened Integers

  /** The largest trial divisor the test tries. */
  const TrialLimit := 1000

  /** Genuine primality: at least 2 and no divisor strictly between 1 and itself. */
  ghost predicate IsPrimeNumber(n: int) {
    n >= 2 && forall k :: 2 <= k < n ==> !Divides(k, n)
  }

  /**
   * The verdict of the trial-division test: `n` exceeds 1 and no trial
   * divisor other than `n` itself leaves remainder 0. (With `n > 1` and a
   * positive divisor, `BigInt`'s truncated remainder is the Euclidean one.)
   */
  predicate PassesTrialDivision(n: int) {
    n > 1 && forall i :: 2 <= i <= TrialLimit ==> n % i != 0 || i == n
  }

  /**
   * The test as the source runs it: reject anything at most 1, then try the
   * divisors in increasing order and stop at the first one that leaves
   * `BigInt` remainder 0 and is not `n`.
   */
  method IsPrime(n: int) returns (b: bool)
    ensures b <==> PassesTrialDivision(n)
    ensures n <= 1 ==> !b
  {
    if n <= 1 {
      return false;
    }
    for i := 2 to TrialLimit + 1
      invariant forall j :: 2 <= j < i ==> n % j != 0 || j == n
    {
      TruncAgreesWithEuclid(n, i);
      if TruncRem(n, i) == 0 && i != n {
        return false;
      }
    }
    return true;
  }

  /** Every genuine prime passes the test. */
  lemma PrimePasses(n: int)
    requires IsPrimeNumber(n)
    ensures PassesTrialDivision(n)
  {
    forall i | 2 <= i <= TrialLimit && n % i == 0
      ensures i == n
    {
      DividesIffRemainderZero(i, n);
      DividesBound(i, n);
    }
  }

  /** Whatever passes the test is 2 or odd. */
  lemma PassingIsTwoOrOdd(n: int)
    requires PassesTrialDivision(n)
    ensures n == 2 || n % 2 == 1
  {
    assert n % 2 != 0 || n == 2;
  }

  /**
   * Up to one million, trial division by the numbers up to 1000 is exact:
   * a composite that small has a divisor no larger than 1000.
   */
  lemma PassesExactlyBelowMillion(n: int)
    requires 2 <= n <= 1000000
    ensures PassesTrialDivision(n) <==> IsPrimeNumber(n)
  {
    if IsPrimeNumber(n) {
      PrimePasses(n);
    } else {
      var k :| 2 <= k < n && Divides(k, n);
      var j := Quotient(k, n);
      if k > TrialLimit {
        SmallCofactor(n, k, j);
        DividesByWitness(j, n, k);
        DividesIffRemainderZero(j, n);
        assert n % j == 0 && 2 <= j <= TrialLimit && j != n;
      } else {
        DividesIffRemainderZero(k, n);
        assert n % k == 0 && k != n;
      }
    }
  }

  /** The cofactor of a divisor above 1000 of a number up to one million. */
  lemma SmallCofactor(n: int, k: int, j: int)
    requires TrialLimit < k < n <= 1000000 && n == k * j
    ensures 2 <= j <= TrialLimit
  {
    if j <= 1 {
      MulMonotone(j, 1, k);
    } else {
      MulMonotone(TrialLimit + 1, k, j);
    }
  }
}
