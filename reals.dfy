/** Facts of real arithmetic used by the statistics, each proved on its own so that
    the surrounding proofs stay linear. */
module Reals {

  function Abs(x: real): real
  {
    if x < 0.0 then -x else x
  }

  /** The identity. `Square` multiplies `x` by `Same(x)` rather than by `x` itself, so that the
      solver reasons about the product as it does about a product of two distinct factors.
      With `x * x` the solver no longer proves `SquarePositive` or `SquareStrictlyIncreasing`
      from the order facts `ScaleStrict` and `ScaleMonotone` give about `x * x`. */
  function Same(x: real): real
  {
    x
  }

  function Square(x: real): real
  {
    x * Same(x)
  }

  lemma NonnegativeProduct(a: real, b: real)
    requires a >= 0.0 && b >= 0.0
    ensures a * b >= 0.0
  {
  }

  lemma ScaleMonotone(a: real, b: real, c: real)
    requires a <= b && c >= 0.0
    ensures a * c <= b * c
  {
  }

  lemma ScaleStrict(a: real, b: real, c: real)
    requires a < b && c > 0.0
    ensures a * c < b * c
  {
  }

  lemma SquareNonnegative(d: real)
    ensures Square(d) >= 0.0
  {
  }

  lemma SquarePositive(d: real)
    requires d != 0.0
    ensures Square(d) > 0.0
  {
  }

  lemma SquareStrictlyIncreasing(a: real, b: real)
    requires 0.0 <= a < b
    ensures Square(a) < Square(b)
  {
    ScaleMonotone(a, b, Same(a));
    ScaleStrict(Same(a), Same(b), b);
  }

  /** On nonnegative reals squaring preserves and reflects strict order. */
  lemma SquareMonotone(a: real, b: real)
    requires 0.0 <= a && 0.0 <= b
    ensures a < b <==> Square(a) < Square(b)
  {
    if a < b {
      SquareStrictlyIncreasing(a, b);
    } else if b < a {
      SquareStrictlyIncreasing(b, a);
    }
  }

  lemma SquareOfAbs(x: real)
    ensures Square(Abs(x)) == Square(x)
  {
    if x < 0.0 {
      assert Abs(x) == -x;
    }
  }

  lemma SquareOfProduct(a: real, b: real)
    ensures Square(a * b) == Square(a) * Square(b)
  {
  }

  lemma AbsOfQuotient(a: real, b: real)
    requires b > 0.0
    ensures Abs(a / b) == Abs(a) / b
  {
  }

  /** Dividing by a positive number preserves comparisons: a / b > t iff a > t * b. */
  lemma QuotientExceeds(a: real, b: real, t: real)
    requires b > 0.0
    ensures a / b > t <==> a > t * b
  {
  }
}
