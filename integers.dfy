/**
 * Integer vocabulary shared by the model: divisibility, the truncating
 * division and remainder of the `BigInt` operators `/` and `%`, and natural
 * powers.
 * Dafny's own `/` and `%` on `int` are Euclidean; every place where the
 * source divides a possibly negative value uses TruncDiv/TruncRem instead.
 */
module Integers {

  /** `d` divides `x`: some integer multiple of `d` is `x` (zero divides only zero). */
  ghost predicate Divides(d: int, x: int) {
    exists k :: d * k == x
  }

  function Abs(x: int): nat {
    if x < 0 then -x else x
  }

  /**
   * `BigInt` division `a / b`, rounded toward zero: as many copies of `|b|`
   * as fit into `|a|`, with the sign of `a * b`.
   */
  function TruncDiv(a: int, b: int): int
    requires b != 0
    decreases Abs(a)
  {
    if Abs(a) < Abs(b) then 0
    else if a > 0 then TruncDiv(a - Abs(b), b) + (if b > 0 then 1 else -1)
    else TruncDiv(a + Abs(b), b) - (if b > 0 then 1 else -1)
  }

  /**
   * `BigInt` remainder `a % b`: what is left of `a` once `|b|` has been taken
   * away from its magnitude as often as possible. It is smaller than `b` in
   * magnitude, and zero or of the sign of the dividend.
   */
  function TruncRem(a: int, b: int): (r: int)
    requires b != 0
    ensures Abs(r) < Abs(b)
    ensures a >= 0 ==> r >= 0
    ensures a <= 0 ==> r <= 0
    decreases Abs(a)
  {
    if Abs(a) < Abs(b) then a
    else if a > 0 then TruncRem(a - Abs(b), b)
    else TruncRem(a + Abs(b), b)
  }

  /** The truncated quotient and remainder recompose the dividend. */
  lemma {:induction false} TruncDivision(a: int, b: int)
    requires b != 0
    ensures a == TruncDiv(a, b) * b + TruncRem(a, b)
    decreases Abs(a)
  {
    if Abs(a) >= Abs(b) {
      var a' := if a > 0 then a - Abs(b) else a + Abs(b);
      TruncDivision(a', b);
      MulShift(TruncDiv(a', b), b);
    }
  }

  lemma MulShift(q: int, b: int)
    ensures (q + 1) * b == q * b + b && (q - 1) * b == q * b - b
  {
  }

  /** The truncated remainder differs from the dividend by a multiple of the divisor. */
  lemma TruncRemCongruent(a: int, b: int)
    requires b != 0
    ensures Divides(b, a - TruncRem(a, b))
  {
    TruncDivision(a, b);
    DividesByWitness(b, a - TruncRem(a, b), TruncDiv(a, b));
  }

  /** A common divisor of dividend and divisor divides the truncated remainder. */
  lemma DividesTruncRem(d: int, a: int, b: int)
    requires b != 0 && Divides(d, a) && Divides(d, b)
    ensures Divides(d, TruncRem(a, b))
  {
    TruncDivision(a, b);
    RecomposeRemainder(a, TruncDiv(a, b), b, TruncRem(a, b));
    DividesLinear(d, a, b, -TruncDiv(a, b));
  }

  lemma RecomposeRemainder(a: int, q: int, b: int, r: int)
    requires a == q * b + r
    ensures r == a + -q * b
  {
  }

  /** A common divisor of the divisor and the truncated remainder divides the dividend. */
  lemma DividesTruncDividend(d: int, a: int, b: int)
    requires b != 0 && Divides(d, b) && Divides(d, TruncRem(a, b))
    ensures Divides(d, a)
  {
    var q, r := TruncDiv(a, b), TruncRem(a, b);
    TruncDivision(a, b);
    assert a == r + q * b;
    DividesLinear(d, r, b, q);
  }

  /**
   * On a non-negative dividend and a positive divisor, truncated and
   * Euclidean division agree.
   */
  lemma TruncAgreesWithEuclid(a: int, b: int)
    requires a >= 0 && b > 0
    ensures TruncDiv(a, b) == a / b && TruncRem(a, b) == a % b
  {
    TruncDivision(a, b);
    var q, r := TruncDiv(a, b), TruncRem(a, b);
    assert b * (q - a / b) == a % b - r;
    MulBelowIsZero(b, q - a / b);
  }

  /** `b` raised to the natural power `e`. */
  function Pow(b: int, e: nat): int {
    if e == 0 then 1 else b * Pow(b, e - 1)
  }

  // ---------------------------------------------------------------------
  // Divisibility lemmas

  /** A multiple of `d` is divisible by `d`. */
  lemma DividesByWitness(d: int, x: int, k: int)
    requires x == d * k
    ensures Divides(d, x)
  {
    assert d * k == x;
  }

  /** For a nonzero `d`, divisibility is a zero Euclidean remainder. */
  lemma DividesIffRemainderZero(d: int, x: int)
    requires d != 0
    ensures Divides(d, x) <==> x % d == 0
  {
    if x % d == 0 {
      DividesByWitness(d, x, x / d);
    }
    if Divides(d, x) {
      var k := Quotient(d, x);
      var q, r := x / d, x % d;
      assert d * (k - q) == r;
      MulBelowIsZero(d, k - q);
    }
  }

  /** The Euclidean remainder of a multiple of `d` plus `r`, for `r` in `[0, d)`, is `r`. */
  lemma RemainderOfMultiplePlus(d: int, k: int, r: int)
    requires 0 <= r < d
    ensures (d * k + r) % d == r
  {
    var x := d * k + r;
    assert d * (k - x / d) == x % d - r;
    MulBelowIsZero(d, k - x / d);
  }

  /** A nonzero multiple of `d` is at least `|d|` in magnitude. */
  lemma MulAtLeast(d: int, t: int)
    requires t != 0
    ensures Abs(d * t) >= Abs(d)
  {
    var ad, at := Abs(d), Abs(t);
    AbsMul(d, t);
    assert ad * at == ad * (at - 1) + ad;
    MulNonNegative(ad, at - 1);
  }

  lemma AbsMul(a: int, b: int)
    ensures Abs(a * b) == Abs(a) * Abs(b)
  {
    if a < 0 && b < 0 {
      assert a * b == (-a) * (-b);
    } else if a < 0 {
      assert a * b == -((-a) * b);
      MulNonNegative(-a, b);
    } else if b < 0 {
      assert a * b == -(a * (-b));
      MulNonNegative(a, -b);
    } else {
      MulNonNegative(a, b);
    }
  }

  /** Regrouping a product of three factors. */
  lemma MulRegroup(a: int, b: int, c: int)
    ensures a * (b * c) == (a * b) * c == b * (a * c)
  {
  }

  /** Multiplying by a non-negative factor preserves order. */
  lemma MulMonotone(a: int, b: int, c: int)
    requires a <= b && c >= 0
    ensures a * c <= b * c && c * a <= c * b
  {
    MulNonNegative(b - a, c);
  }

  /** Distributing a factor over a sum or a difference. */
  lemma MulDistributes(a: int, b: int, c: int)
    ensures a * (b + c) == a * b + a * c && a * (b - c) == a * b - a * c
  {
  }

  lemma MulNonNegative(a: int, b: int)
    requires a >= 0 && b >= 0
    ensures a * b >= 0
  {
  }

  /** A multiple of `d` smaller than `|d|` in magnitude is the zero multiple. */
  lemma MulBelowIsZero(d: int, t: int)
    requires Abs(d * t) < Abs(d)
    ensures t == 0
  {
    if t != 0 {
      MulAtLeast(d, t);
    }
  }

  /** A quotient that shows `d` divides `x`. */
  ghost function Quotient(d: int, x: int): (k: int)
    requires Divides(d, x)
    ensures x == d * k
  {
    var k :| d * k == x; k
  }

  /** Divisibility is closed under adding a multiple of another multiple. */
  lemma DividesLinear(d: int, x: int, y: int, c: int)
    requires Divides(d, x) && Divides(d, y)
    ensures Divides(d, x + c * y)
  {
    var kx, ky := Quotient(d, x), Quotient(d, y);
    assert x + c * y == d * (kx + c * ky);
    DividesByWitness(d, x + c * y, kx + c * ky);
  }

  lemma DividesSum(d: int, x: int, y: int)
    requires Divides(d, x) && Divides(d, y)
    ensures Divides(d, x + y) && Divides(d, x - y)
  {
    DividesLinear(d, x, y, 1);
    DividesLinear(d, x, y, -1);
  }

  /** A divisor of `x` divides every multiple of `x`. */
  lemma DividesMultiple(d: int, x: int, c: int)
    requires Divides(d, x)
    ensures Divides(d, c * x) && Divides(d, x * c)
  {
    var k := Quotient(d, x);
    assert c * x == d * (c * k);
    DividesByWitness(d, c * x, c * k);
  }

  lemma DividesSelf(d: int)
    ensures Divides(d, d) && Divides(d, 0)
  {
    DividesByWitness(d, d, 1);
    DividesByWitness(d, 0, 0);
  }

  lemma DividesTransitive(a: int, b: int, c: int)
    requires Divides(a, b) && Divides(b, c)
    ensures Divides(a, c)
  {
    var k := Quotient(b, c);
    DividesMultiple(a, b, k);
  }

  /** A positive divisor of a positive number is no larger than it. */
  lemma DividesBound(d: int, x: int)
    requires d > 0 && x > 0 && Divides(d, x)
    ensures d <= x
  {
    var k := Quotient(d, x);
    AbsMul(d, k);
    MulAtLeast(d, k);
  }

  /** Congruent numbers that both lie in `[0, n)` are equal. */
  lemma CongruentInRange(x: int, y: int, n: int)
    requires 0 <= x < n && 0 <= y < n && Divides(n, x - y)
    ensures x == y
  {
    var k := Quotient(n, x - y);
    MulBelowIsZero(n, k);
  }

  // ---------------------------------------------------------------------
  // Powers

  lemma {:induction false} PowAdd(b: int, i: nat, j: nat)
    ensures Pow(b, i + j) == Pow(b, i) * Pow(b, j)
  {
    if i > 0 {
      PowAdd(b, i - 1, j);
      assert Pow(b, i + j) == b * (Pow(b, i - 1) * Pow(b, j));
    }
  }

  lemma {:induction false} PowMul(b: int, i: nat, j: nat)
    ensures Pow(Pow(b, i), j) == Pow(b, i * j)
  {
    if j > 0 {
      var bi, rest := Pow(b, i), i * (j - 1);
      assert i * j == i + rest;
      calc {
        Pow(bi, j);
        bi * Pow(bi, j - 1);
        { PowMul(b, i, j - 1); }
        bi * Pow(b, rest);
        { PowAdd(b, i, rest); }
        Pow(b, i + rest);
      }
    }
  }

  /** Raising congruent numbers to the same power keeps them congruent. */
  lemma {:induction false} PowCongruent(x: int, y: int, e: nat, n: int)
    requires Divides(n, x - y)
    ensures Divides(n, Pow(x, e) - Pow(y, e))
  {
    if e == 0 {
      DividesSelf(n);
    } else {
      PowCongruent(x, y, e - 1, n);
      var px, py := Pow(x, e - 1), Pow(y, e - 1);
      assert Pow(x, e) - Pow(y, e) == x * (px - py) + py * (x - y);
      DividesMultiple(n, px - py, x);
      DividesMultiple(n, x - y, py);
      DividesSum(n, x * (px - py), py * (x - y));
    }
  }
}
