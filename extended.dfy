/** The part of IEEE-754 float64 behaviour that the detectors can observe:
    a value is a real number, NaN, or a signed infinity. Rounding is not modelled. */
module Extended {

  datatype Float = Finite(v: real) | NaN | PosInf | NegInf

  /** `x / y` on two finite floats: a zero divisor yields a signed infinity, or NaN for 0 / 0. */
  function Divide(x: real, y: real): Float
  {
    if y != 0.0 then Finite(x / y)
    else if x > 0.0 then PosInf
    else if x < 0.0 then NegInf
    else NaN
  }

  /** `e - c` for a finite `c`: infinities and NaN absorb the subtraction. */
  function Minus(e: Float, c: real): Float
  {
    match e
    case Finite(v) => Finite(v - c)
    case _ => e
  }

  /** `e * k` for a finite `k`: an infinity times zero is NaN, times a negative flips sign. */
  function Times(e: Float, k: real): Float
  {
    match e
    case Finite(v) => Finite(v * k)
    case NaN => NaN
    case PosInf => if k > 0.0 then PosInf else if k < 0.0 then NegInf else NaN
    case NegInf => if k > 0.0 then NegInf else if k < 0.0 then PosInf else NaN
  }

  /** `abs(e)`. */
  function Magnitude(e: Float): Float
  {
    match e
    case Finite(v) => Finite(if v < 0.0 then -v else v)
    case NaN => NaN
    case _ => PosInf
  }

  /** `e > t` for a finite `t`: every comparison with NaN is false, +inf exceeds every finite value. */
  predicate Exceeds(e: Float, t: real)
  {
    match e
    case Finite(v) => v > t
    case PosInf => true
    case _ => false
  }
}
