/**
 * Facts about products of reals that the trail arithmetic needs.  Squares are
 * kept behind `Sq` and every sign fact names the product it is about, so that
 * each nonlinear step is proved once, in isolation.
 */
module RealArith {

  /** The square of `x`. */
  function Sq(x: real): real {
    x * x
  }

  /** A product of two positive reals is positive. */
  lemma MulPositive(x: real, y: real, s: real)
    requires x > 0.0 && y > 0.0 && s == x * y
    ensures s > 0.0
  {
  }

  /** A product of two non-negative reals is non-negative. */
  lemma MulNonNegative(x: real, y: real, s: real)
    requires x >= 0.0 && y >= 0.0 && s == x * y
    ensures s >= 0.0
  {
  }

  /** A square is never negative, and is zero exactly at zero. */
  lemma SqSign(x: real)
    ensures Sq(x) >= 0.0
    ensures x != 0.0 ==> Sq(x) > 0.0
    ensures x == 0.0 ==> Sq(x) == 0.0
  {
    if x > 0.0 {
      MulPositive(x, x, Sq(x));
    } else if x < 0.0 {
      MulPositive(-x, -x, Sq(x));
    }
  }

  /** Squaring commutes with division: `(x / d)^2 * d^2 == x^2`. */
  lemma SqQuotient(x: real, d: real)
    requires d != 0.0
    ensures Sq(x / d) * Sq(d) == Sq(x)
  {
    calc {
      Sq(x / d) * Sq(d);
      ((x / d) * (x / d)) * (d * d);
      ((x / d) * d) * ((x / d) * d);
      x * x;
    }
  }

  /** If `a` and `b` scale `s` to two parts that add up to `s`, they add up to one. */
  lemma CancelSum(a: real, b: real, s: real, x: real, y: real)
    requires s != 0.0 && a * s == x && b * s == y && s == x + y
    ensures a + b == 1.0
  {
  }

  /** Squaring is monotone on the non-negative reals. */
  lemma SqMonotone(u: real, v: real)
    requires 0.0 <= u <= v
    ensures Sq(u) <= Sq(v)
  {
    MulNonNegative(v - u, v + u, Sq(v) - Sq(u));
  }

  /** Scaling a non-negative `f` by a factor in [0, 1] gives a value in [0, f]. */
  lemma ScaleWithin(e: real, f: real, s: real)
    requires 0.0 <= e <= 1.0 && 0.0 <= f && s == e * f
    ensures 0.0 <= s <= f
  {
    MulNonNegative(e, f, s);
    MulNonNegative(1.0 - e, f, f - s);
  }
}
