/**
 * `gcd` of src/main.rs: Euclid's algorithm, recursing on the truncated
 * remainder of the `BigInt` `%` operator, and the facts about it that the
 * rest of the model relies on.
 */
module Euclid {
  import opened Integers

  /**
   * The greatest common divisor by Euclid's recursion `gcd(a, b) = gcd(b, a % b)`,
   * which ends because the remainder is smaller than the divisor in
   * magnitude. For non-negative arguments the result is non-negative.
   */
  function Gcd(a: int, b: int): (g: int)
    ensures b == 0 ==> g == a
    ensures a >= 0 && b >= 0 ==> g >= 0
    decreases Abs(b)
  {
    if b == 0 then a else Gcd(b, TruncRem(a, b))
  }

  /**
   * For any integers `Gcd(a, b)` divides both, and it is zero only when
   * both are.
   */
  lemma {:induction false} GcdDivides(a: int, b: int)
    ensures Divides(Gcd(a, b), a) && Divides(Gcd(a, b), b)
    ensures Gcd(a, b) == 0 <==> a == 0 && b == 0
    decreases Abs(b)
  {
    if b == 0 {
      DividesSelf(a);
    } else {
      var r := TruncRem(a, b);
      GcdDivides(b, r);
      DividesTruncDividend(Gcd(b, r), a, b);
    }
  }

  /** Every common divisor of `a` and `b` divides `Gcd(a, b)`. */
  lemma {:induction false} GcdGreatest(a: int, b: int, d: int)
    requires Divides(d, a) && Divides(d, b)
    ensures Divides(d, Gcd(a, b))
    decreases Abs(b)
  {
    if b != 0 {
      DividesTruncRem(d, a, b);
      GcdGreatest(b, TruncRem(a, b), d);
    }
  }

  /**
   * For non-negative arguments that are not both zero, `Gcd` is the largest
   * positive common divisor.
   */
  lemma GcdIsLargest(a: int, b: int, d: int)
    requires a >= 0 && b >= 0 && (a != 0 || b != 0)
    requires d > 0 && Divides(d, a) && Divides(d, b)
    ensures d <= Gcd(a, b)
  {
    GcdDivides(a, b);
    GcdGreatest(a, b, d);
    DividesBound(d, Gcd(a, b));
  }

  /**
   * On non-negative arguments the order of the arguments does not matter:
   * one step of the recursion moves the smaller argument to the front.
   */
  lemma GcdCommutes(a: int, b: int)
    requires a >= 0 && b >= 0
    ensures Gcd(a, b) == Gcd(b, a)
  {
  }

  /** One more than a multiple of `phi` shares no factor with `phi`. */
  lemma CoprimeAfterMultiple(phi: int, k: int)
    requires phi >= 1 && k >= 0
    ensures Gcd(k * phi + 1, phi) == 1
  {
    var g := Gcd(k * phi + 1, phi);
    GcdDivides(k * phi + 1, phi);
    DividesLinear(g, k * phi + 1, phi, -k);
    assert k * phi + 1 + -k * phi == 1;
    DividesBound(g, 1);
  }

  /** Bezout's identity: `Gcd(a, b)` is an integer combination of `a` and `b`. */
  lemma {:induction false} Bezout(a: int, b: int) returns (x: int, y: int)
    ensures a * x + b * y == Gcd(a, b)
    decreases Abs(b)
  {
    if b == 0 {
      x, y := 1, 0;
    } else {
      var q, r := TruncDiv(a, b), TruncRem(a, b);
      TruncDivision(a, b);
      var x', y' := Bezout(b, r);
      x, y := y', x' - q * y';
      BezoutStep(a, b, q, r, x', y');
    }
  }

  /** One step back through Euclid's recursion keeps the combination exact. */
  lemma BezoutStep(a: int, b: int, q: int, r: int, x: int, y: int)
    requires a == q * b + r
    ensures a * y + b * (x - q * y) == b * x + r * y
  {
    MulRegroup(q, b, y);
  }
}
