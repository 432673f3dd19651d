/**
 * `modinv` of src/main.rs: the modular inverse by the extended Euclidean
 * algorithm, keeping a remainder pair and a coefficient pair that are
 * updated together.
 */
module ModInverse {
  import opened Integers
  import opened Euclid

  datatype Option<T> = None | Some(value: T)

  /**
   * The inverse of `a` modulo `m`, or `None` when the final remainder of
   * Euclid's algorithm on `(m, a)` is not 1. The source divides by `m` when
   * it normalises the coefficient, which panics for `modinv(1, 0)`; every
   * other call, including every other one with `m == 0`, returns.
   */
  method ModInv(a: int, m: int) returns (r: Option<int>)
    requires m != 0 || a != 1
    ensures r.None? <==> Gcd(m, a) != 1
    ensures a >= 0 && m >= 0 ==> (r.None? <==> Gcd(a, m) != 1)
    ensures r.Some? ==> Divides(m, a * r.value - 1)
    ensures r.Some? && m > 0 ==> 0 <= r.value < m
    ensures r.Some? && m < 0 ==> m < r.value <= 0
  {
    var mn := (m, a);
    var xy := (0, 1);
    // the coefficients of `m` in the two remainders, which the source does not keep
    ghost var uv := (1, 0);
    while mn.1 != 0
      invariant mn.0 == xy.0 * a + uv.0 * m
      invariant mn.1 == xy.1 * a + uv.1 * m
      invariant Gcd(mn.0, mn.1) == Gcd(m, a)
      invariant m == 0 ==> mn == (0, a) || mn == (a, 0)
      decreases Abs(mn.1)
    {
      var q := TruncDiv(mn.0, mn.1);
      TruncDivision(mn.0, mn.1);
      ExtendedStep(a, m, q, mn.0, mn.1, xy.0, xy.1, uv.0, uv.1);
      mn := (mn.1, mn.0 - q * mn.1);
      xy := (xy.1, xy.0 - q * xy.1);
      uv := (uv.1, uv.0 - q * uv.1);
    }
    if a >= 0 && m >= 0 {
      GcdCommutes(a, m);
    }
    if mn.0 != 1 {
      r := None;
    } else {
      var x := TruncRem(TruncRem(xy.0, m) + m, m);
      NormalisedCongruent(xy.0, m, x);
      CongruentInverse(a, m, xy.0, uv.0, x);
      r := Some(x);
    }
  }

  /**
   * One step of the loop: both new remainders are again combinations of
   * `a` and `m`, with the coefficients the loop computes.
   */
  lemma ExtendedStep(a: int, m: int, q: int, m0: int, m1: int, x0: int, x1: int, u0: int, u1: int)
    requires m0 == x0 * a + u0 * m && m1 == x1 * a + u1 * m
    ensures m0 - q * m1 == (x0 - q * x1) * a + (u0 - q * u1) * m
  {
    MulRegroup(q, x1, a);
    MulRegroup(q, u1, m);
  }

  /**
   * A coefficient congruent to `x0` modulo `m` is, like `x0`, an inverse of
   * `a` modulo `m`.
   */
  lemma CongruentInverse(a: int, m: int, x0: int, u0: int, x: int)
    requires 1 == x0 * a + u0 * m && Divides(m, x0 - x)
    ensures Divides(m, a * x - 1)
  {
    DividesMultiple(m, x0 - x, a);
    DividesByWitness(m, a * x0 - 1, -u0);
    DividesSum(m, a * x0 - 1, a * (x0 - x));
    MulDistributes(a, x0, x);
  }

  /** The normalisation only adds multiples of `m`. */
  lemma NormalisedCongruent(x0: int, m: int, x: int)
    requires m != 0 && x == TruncRem(TruncRem(x0, m) + m, m)
    ensures Divides(m, x0 - x)
  {
    var t := TruncRem(x0, m);
    TruncRemCongruent(x0, m);
    TruncRemCongruent(t + m, m);
    DividesSelf(m);
    DividesSum(m, x0 - t, m);
    DividesSum(m, x0 - t - m, t + m - x);
    assert x0 - t - m + (t + m - x) == x0 - x;
  }

  /** Modulo a positive `m` there is at most one inverse of `a` in `[0, m)`. */
  lemma InverseUnique(a: int, m: int, x: int, y: int)
    requires m > 0 && 0 <= x < m && 0 <= y < m
    requires Divides(m, a * x - 1) && Divides(m, a * y - 1)
    ensures x == y
  {
    DividesMultiple(m, a * x - 1, y);
    DividesMultiple(m, a * y - 1, x);
    DividesSum(m, y * (a * x - 1), x * (a * y - 1));
    assert y * (a * x - 1) - x * (a * y - 1) == x - y by {
      MulRegroup(y, a, x);
      MulRegroup(x, a, y);
    }
    CongruentInRange(x, y, m);
  }
}
