/** The state the process calculators read: a humid-air state, a flow of it,
    the checks the library applies to process arguments, and the context
    (substance correlations, root finder, checks) every calculator runs in. */
module Flows {
  import opened Numerics
  import opened Solver
  import opened Correlations
  import opened HumidAirEquations

  /** Humid air, identified by absolute pressure [Pa], dry-bulb temperature
      [°C] and humidity ratio [kg vapour / kg dry air]; everything else is
      derived from these. */
  datatype HumidAir = HumidAir(pressure: real, temperature: real, humidityRatio: real)

  /** A flow of humid air, identified by its dry-air mass flow [kg/s]. */
  datatype Flow = Flow(air: HumidAir, dryAirMassFlow: real)

  /** The moist-air and water properties the process calculators read.
      In the library they come from the air objects and from property
      classes outside this model; here they are functions of the state
      [°C, kg/kg, Pa, %, kJ/kg], and `EquationProperties` builds them from
      the moist-air equations. */
  datatype PropertyFunctions = PropertyFunctions(
    enthalpy: (real, real, real) -> real,               // (ta, x, pat)
    relativeHumidity: (real, real, real) -> real,       // (ta, x, pat)
    dewPoint: (real, real, real) -> Result<ExtReal>,    // (ta, rh, pat)
    saturationPressure: real -> real,                   // (ta)
    maxHumidityRatio: (real, real) -> real,             // (ps, pat)
    saturationPressureXRH: (real, real, real) -> real,  // (x, rh, pat)
    waterEnthalpy: real -> real,                        // (tw)
    dryBulbIX: (real, real, real) -> Result<real>,      // (ix, x, pat)
    dryBulbXRH: (real, real, real) -> Result<real>)     // (x, rh, pat)

  /** What the calculators rely on: the two temperature inversions return a
      temperature at which the inverted property is met within the solver's
      tolerance, or report that the solver did not converge. */
  ghost predicate Consistent(p: PropertyFunctions)
  {
    && (forall i, x, pat {:trigger p.dryBulbIX(i, x, pat)} ::
          match p.dryBulbIX(i, x, pat)
          case Ok(t) => Abs(i - p.enthalpy(t, x, pat)) <= DefaultTolerance
          case Err(e) => e == NotConverged)
    && (forall x, rh, pat {:trigger p.dryBulbXRH(x, rh, pat)} ::
          match p.dryBulbXRH(x, rh, pat)
          case Ok(t) => Abs(p.saturationPressureXRH(x, rh, pat) - p.saturationPressure(t)) <= DefaultTolerance
          case Err(e) => e == NotConverged)
  }

  type Properties = p: PropertyFunctions | Consistent(p)
    witness PropertyFunctions(
      (ta, x, pat) => 0.0, (ta, x, pat) => 0.0, (ta, rh, pat) => Err(NotConverged),
      ta => 0.0, (ps, pat) => 0.0, (x, rh, pat) => 0.0, tw => 0.0,
      (i, x, pat) => Err(NotConverged), (x, rh, pat) => Err(NotConverged))

  /** The properties as the moist-air equations compute them, with the
      converged saturation pressure of the correlations. */
  function EquationFunctions(c: Env, solve: BrentSolver): PropertyFunctions
  {
    PropertyFunctions(
      (ta, x, pat) => SpecificEnthalpy(c, ta, x, pat),
      (ta, x, pat) => RelativeHumidity(c, ta, x, pat),
      (ta, rh, pat) => DewPointTemperature(c, solve, ta, rh, pat),
      ta => c.saturationPressure(ta),
      (ps, pat) => MaxHumidityRatio(c, ps, pat),
      (x, rh, pat) => SaturationPressureXRH(c, x, rh, pat),
      tw => c.waterEnthalpy(tw),
      (i, x, pat) => DryBulbTemperatureIX(c, solve, i, x, pat),
      (x, rh, pat) => DryBulbTemperatureXRH(c, solve, x, rh, pat))
  }

  /** The equations' enthalpy inversion keeps its promise. */
  lemma EquationsInvertEnthalpy(c: Env, solve: BrentSolver, i: real, x: real, pat: real)
    ensures
      var p := EquationFunctions(c, solve);
      match p.dryBulbIX(i, x, pat)
      case Ok(t) => Abs(i - p.enthalpy(t, x, pat)) <= DefaultTolerance
      case Err(e) => e == NotConverged
  {
    var p := EquationFunctions(c, solve);
    var r := DryBulbTemperatureIX(c, solve, i, x, pat);
    assert p.dryBulbIX(i, x, pat) == r;
    if r.Ok? {
      assert p.enthalpy(r.value, x, pat) == SpecificEnthalpy(c, r.value, x, pat);
    }
  }

  /** The equations' saturation-pressure inversion keeps its promise. */
  lemma EquationsInvertSaturationPressure(c: Env, solve: BrentSolver, x: real, rh: real, pat: real)
    ensures
      var p := EquationFunctions(c, solve);
      match p.dryBulbXRH(x, rh, pat)
      case Ok(t) => Abs(p.saturationPressureXRH(x, rh, pat) - p.saturationPressure(t)) <= DefaultTolerance
      case Err(e) => e == NotConverged
  {
    var p := EquationFunctions(c, solve);
    var r := DryBulbTemperatureXRH(c, solve, x, rh, pat);
    assert p.dryBulbXRH(x, rh, pat) == r;
    assert p.saturationPressureXRH(x, rh, pat) == SaturationPressureXRH(c, x, rh, pat);
  }

  /** The moist-air equations keep the promises the calculators rely on. */
  lemma EquationsConsistent(c: Env, solve: BrentSolver)
    ensures Consistent(EquationFunctions(c, solve))
  {
    forall i, x, pat {
      EquationsInvertEnthalpy(c, solve, i, x, pat);
    }
    forall x, rh, pat {
      EquationsInvertSaturationPressure(c, solve, x, rh, pat);
    }
  }

  /** EquationFunctions as property functions the calculators can use. */
  function EquationProperties(c: Env, solve: BrentSolver): Properties
  {
    EquationsConsistent(c, solve);
    EquationFunctions(c, solve)
  }

  /** Relative humidity of the air [%]. */
  function RelHum(p: Properties, a: HumidAir): real
  {
    p.relativeHumidity(a.temperature, a.humidityRatio, a.pressure)
  }

  /** Specific enthalpy of the air [kJ/kg dry air]. */
  function Enthalpy(p: Properties, a: HumidAir): real
  {
    p.enthalpy(a.temperature, a.humidityRatio, a.pressure)
  }

  /** Dew point of the air, which may be minus infinity or fail to converge. */
  function DewPoint(p: Properties, a: HumidAir): Result<ExtReal>
  {
    p.dewPoint(a.temperature, RelHum(p, a), a.pressure)
  }

  /** Mass flow of the humid air: dry air plus the vapour it carries. */
  function MassFlow(f: Flow): (m: real)
    ensures f.air.humidityRatio == 0.0 ==> m == f.dryAirMassFlow
    ensures f.dryAirMassFlow == 0.0 ==> m == 0.0
  {
    f.dryAirMassFlow * (1.0 + f.air.humidityRatio)
  }

  /** A flow given by its humid-air mass flow `m`. */
  function OfMassFlow(a: HumidAir, m: real): (f: Flow)
    ensures f.air == a
    ensures 1.0 + a.humidityRatio != 0.0 ==> f.dryAirMassFlow * (1.0 + a.humidityRatio) == m
    ensures 1.0 + a.humidityRatio != 0.0 ==> MassFlow(f) == m
  {
    Flow(a, Div(m, 1.0 + a.humidityRatio))
  }

  /** The argument checks the process calculators apply. Their definitions
      are not part of this model: each is a predicate the argument must
      satisfy, or the calculation is rejected. */
  datatype Validators = Validators(
    positive: real -> bool,              // requirePositiveValue
    negative: real -> bool,              // requireNegativeValue
    firstGreater: (real, real) -> bool)  // requireFirstValueAsGreaterThanSecond

  /** What every calculator runs in. */
  datatype Context = Context(props: Properties, solve: BrentSolver, checks: Validators)
}
