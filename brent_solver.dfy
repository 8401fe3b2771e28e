/** The bracketing root finder the library hands its residual functions to.
    Its internals are not part of this model: a solver is any function from a
    residual and a set-up to a root or a failure that keeps the promise stated
    by `Sound`. */
module Solver {
  import opened Numerics

  /** Accuracy used when a caller does not set one. */
  const DefaultTolerance: real := 0.0000001

  /** The two counterpart points a caller may give as a first bracket
      estimate; without them the solver starts from its own defaults. */
  datatype Start = DefaultPoints | CounterpartPoints(a: ExtReal, b: ExtReal)

  datatype Setup = Setup(start: Start, tolerance: real)

  /** A residual may itself fail (a nested solver, a rejected argument);
      such a failure propagates out of the solver. */
  type Residual = real -> Result<real>

  /** The solver's contract: a returned root has a defined residual within
      the tolerance, and a failure is either non-convergence or an error the
      residual raised at some point. */
  ghost predicate Sound(s: (Residual, Setup) -> Result<real>)
  {
    forall f: Residual, setup: Setup {:trigger s(f, setup)} ::
      && (s(f, setup).Ok? ==>
            f(s(f, setup).value).Ok? && Abs(f(s(f, setup).value).value) <= setup.tolerance)
      && (s(f, setup).Err? ==>
            s(f, setup).error == NotConverged || exists t :: f(t) == Err(s(f, setup).error))
  }

  type BrentSolver = s: (Residual, Setup) -> Result<real> | Sound(s)
    witness (f: Residual, setup: Setup) => Err(NotConverged)

  /** `new BrentSolver(...)` followed by `setCounterpartPoints(a, b)`. */
  function WithPoints(a: real, b: real): (s: Setup)
    ensures s.start == CounterpartPoints(Finite(a), Finite(b))
    ensures s.tolerance == DefaultTolerance
  {
    Setup(CounterpartPoints(Finite(a), Finite(b)), DefaultTolerance)
  }

  /** `new BrentSolver(...)` used without counterpart points. */
  function Default(): (s: Setup)
    ensures s.start == DefaultPoints && s.tolerance == DefaultTolerance
  {
    Setup(DefaultPoints, DefaultTolerance)
  }

  /** A residual that cannot fail. */
  function Pure(g: real -> real): (f: Residual)
    ensures forall t :: f(t) == Ok(g(t))
  {
    t => Ok(g(t))
  }
}
