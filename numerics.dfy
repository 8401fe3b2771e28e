/** Plain numeric helpers shared by the whole model: the error outcome of a
    computation, extended reals for the library's infinite returns, and the
    arithmetic the Java code gets from `double`. */
module Numerics {

  /** The two ways a computation of the library ends without a value. */
  datatype Error =
    | InvalidArgument  // a process or argument check rejected the input
    | NotConverged     // the root finder found no root within its budget

  datatype Result<T> = Ok(value: T) | Err(error: Error) {
    predicate IsFailure() { Err? }
    function PropagateFailure<U>(): Result<U>
      requires Err?
    {
      Err(error)
    }
    function Extract(): T
      requires Ok?
    {
      value
    }
  }

  /** A temperature that may be one of the infinities `double` can hold. */
  datatype ExtReal = NegInf | Finite(value: real) | PosInf

  /** `t >= e` as Java compares a finite double with a possibly infinite one. */
  predicate AtLeast(t: real, e: ExtReal)
  {
    match e
    case NegInf => true
    case Finite(v) => t >= v
    case PosInf => false
  }

  /** `t < e`, the negation of AtLeast. */
  predicate Below(t: real, e: ExtReal)
  {
    !AtLeast(t, e)
  }

  /** Division. A zero divisor, which gives an infinity or NaN in `double`,
      yields 0 here; every property of the model is stated for nonzero divisors. */
  function Div(a: real, b: real): (q: real)
    ensures b != 0.0 ==> q * b == a
    ensures b == 0.0 ==> q == 0.0
  {
    if b == 0.0 then 0.0 else a / b
  }

  function Abs(a: real): (r: real)
    ensures r >= 0.0
    ensures r == a || r == -a
  {
    if a < 0.0 then -a else a
  }

  /** The smaller of two values. */
  function Min(a: real, b: real): (m: real)
    ensures m <= a && m <= b
    ensures m == a || m == b
  {
    if a <= b then a else b
  }

  /** `Double.max` / `Math.max` on non-NaN values. */
  function Max(a: real, b: real): (m: real)
    ensures m >= a && m >= b
    ensures m == a || m == b
  {
    if a >= b then a else b
  }
}
