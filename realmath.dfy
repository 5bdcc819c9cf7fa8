/**
 * Real-number helpers shared by the calculation modules.
 *
 * Every `double` of the source is a `real` here. `Math.Log` and `Math.Sqrt` are not
 * computed: callers pass them in as partial function values, and the predicates below
 * state their domains and the only facts about them that the proofs may use.
 */
module RealMath {

  /** `Math.Abs` */
  function Abs(x: real): (a: real)
    ensures a >= 0.0
    ensures a == x || a == -x
  {
    if x < 0.0 then -x else x
  }

  /**
   * `ln` is defined exactly on the positive reals, is zero at one and is strictly
   * increasing. Because its domain is its precondition, every application of `ln`
   * obliges the caller to show that the argument is positive.
   */
  ghost predicate IsLn(ln: real --> real)
  {
    (forall x: real :: ln.requires(x) <==> 0.0 < x) &&
    ln(1.0) == 0.0 &&
    forall x: real, y: real :: 0.0 < x < y ==> ln(x) < ln(y)
  }

  /**
   * The tangent-line bounds of the natural logarithm, 1 - 1/x <= ln(x) <= x - 1 on the
   * positive reals. Only the LMTD mean property below relies on them.
   */
  ghost predicate HasTangentBounds(ln: real --> real)
  {
    IsLn(ln) &&
    forall x: real :: 0.0 < x ==> 1.0 - 1.0 / x <= ln(x) <= x - 1.0
  }

  /** `sqrt` is defined exactly on the non-negative reals and gives the non-negative square root. */
  ghost predicate IsSqrt(sqrt: real --> real)
  {
    (forall x: real :: sqrt.requires(x) <==> 0.0 <= x) &&
    forall x: real :: 0.0 <= x ==> 0.0 <= sqrt(x) && sqrt(x) * sqrt(x) == x
  }

  /** The square root of a square is the (non-negative) base. */
  lemma SqrtOfSquare(sqrt: real --> real, a: real)
    requires IsSqrt(sqrt) && 0.0 <= a
    ensures sqrt(a * a) == a
  {
    SquareNonNegative(a);
    var s := sqrt(a * a);
    assert s * s == a * a;
    assert (s - a) * (s + a) == 0.0;
    if s + a != 0.0 {
      ProductZero(s - a, s + a);
    }
  }

  /** The square root of a positive real is positive. */
  lemma SqrtPositive(sqrt: real --> real, x: real)
    requires IsSqrt(sqrt) && 0.0 < x
    ensures 0.0 < sqrt(x)
  {
    assert sqrt(x) * sqrt(x) == x;
  }

  /** The sign of `ln(x)` is the sign of `x - 1`. */
  lemma LnSign(ln: real --> real, x: real)
    requires IsLn(ln) && 0.0 < x
    ensures ln(x) > 0.0 <==> x > 1.0
    ensures ln(x) < 0.0 <==> x < 1.0
    ensures ln(x) == 0.0 <==> x == 1.0
  {
    if x < 1.0 {
      assert ln(x) < ln(1.0);
    } else if x > 1.0 {
      assert ln(1.0) < ln(x);
    }
  }

  /** For a positive denominator, a quotient exceeds one exactly when the numerator exceeds the denominator. */
  lemma QuotientAboveOne(a: real, b: real)
    requires 0.0 < b
    ensures a / b > 1.0 <==> a > b
    ensures a / b < 1.0 <==> a < b
    ensures a / b == 1.0 <==> a == b
  {
    assert a / b * b == a;
    if a / b > 1.0 {
      assert a / b * b > 1.0 * b;
    } else if a / b < 1.0 {
      assert a / b * b < 1.0 * b;
    }
  }

  lemma ProductNonNegative(a: real, b: real)
    requires 0.0 <= a && 0.0 <= b
    ensures 0.0 <= a * b
  {
  }

  lemma ProductPositive(a: real, b: real)
    requires 0.0 < a && 0.0 < b
    ensures 0.0 < a * b
  {
  }

  lemma SquareNonNegative(x: real)
    ensures 0.0 <= x * x
  {
    if x < 0.0 {
      ProductNonNegative(-x, -x);
    } else {
      ProductNonNegative(x, x);
    }
  }

  /** A product with a non-zero factor is zero only when the other factor is. */
  lemma ProductZero(a: real, b: real)
    requires b != 0.0
    ensures a * b == 0.0 <==> a == 0.0
  {
    if a * b == 0.0 {
      assert a == a * b / b;
    }
  }

  lemma QuotientNonZero(a: real, b: real)
    requires a != 0.0 && b != 0.0
    ensures a / b != 0.0
  {
    assert a / b * b == a;
  }

  lemma ReciprocalOfQuotient(a: real, b: real)
    requires a != 0.0 && b != 0.0
    ensures 1.0 / (a / b) == b / a
  {
    var q := a / b;
    assert q * b == a;
    assert q != 0.0;
    var r := 1.0 / q;
    assert r * q == 1.0;
    assert r * a == r * (q * b);
    assert r * (q * b) == (r * q) * b;
    assert r * a == b;
  }

  /** A part of a positive whole, divided by the whole, lies in [0, 1]. */
  lemma QuotientInUnit(a: real, b: real)
    requires 0.0 <= a <= b && 0.0 < b
    ensures 0.0 <= a / b <= 1.0
    ensures a / b == 0.0 <==> a == 0.0
    ensures a / b == 1.0 <==> a == b
  {
    var q := a / b;
    assert q * b == a;
    if q < 0.0 {
      ProductNonNegative(-q, b);
    }
    if q > 1.0 {
      ProductNonNegative(q - 1.0, b);
    }
  }

  /** A quotient of two reals of the same strict sign is positive. */
  lemma SameSignQuotientPositive(a: real, b: real)
    requires (0.0 < a && 0.0 < b) || (a < 0.0 && b < 0.0)
    ensures 0.0 < a / b
  {
    var q := a / b;
    assert q * b == a;
    if q <= 0.0 {
      if 0.0 < b {
        ProductNonNegative(-q, b);
      } else {
        ProductNonNegative(-q, -b);
      }
    }
  }
}
