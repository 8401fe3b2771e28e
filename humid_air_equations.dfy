/** Moist-air property equations (psychrometrics): the closed-form
    rearrangements between humidity ratio, saturation pressure and relative
    humidity, the three-regime enthalpy, mixture transport properties with
    their dry-air fall-backs, and the inversions that hand a residual to the
    root finder. Temperatures in °C, pressures in Pa, humidity ratios in
    kg of vapour per kg of dry air, relative humidity in %. */
module HumidAirEquations {
  import opened Numerics
  import opened Solver
  import opened Correlations

  /** Factors applied to an estimate to form the solver's counterpart points. */
  const SolverA: real := 0.8
  const SolverB: real := 1.01

  /** Ratio of the molar masses of water vapour and dry air. */
  function WgRatio(c: Env): (r: real)
    ensures r > 0.0
    ensures r * c.dryAirMolarMass == c.vapourMolarMass
  {
    c.vapourMolarMass / c.dryAirMolarMass
  }

  // ---------------------------------------------------------------------------
  // Saturation pressure

  /** Exponent of the Arden-Buck saturation-pressure fit; the coefficient set
      is chosen by the sign of the temperature. */
  function AlfaT(ta: real): (r: real)
    ensures ta == 0.0 ==> r == 0.0
  {
    var k := ArdenBuckCoefficients(ta);
    (k.b - ta / k.d) * Div(ta, k.c + ta)
  }

  /** The Arden-Buck constants `b`, `c` and `d`: over water above 0 °C,
      over ice otherwise. */
  datatype ArdenBuck = ArdenBuck(b: real, c: real, d: real)

  function ArdenBuckCoefficients(ta: real): (k: ArdenBuck)
    ensures k.d > 0.0
  {
    if ta > 0.0 then ArdenBuck(18.678, 257.14, 234.50) else ArdenBuck(23.036, 279.82, 333.70)
  }

  const C1: real := -5674.5359
  const C2: real := 6.3925247
  const C3: real := -0.0096778430
  const C4: real := 0.00000062215701
  const C5: real := 0.0000000020747825
  const C6: real := -0.0000000000009484024
  const C7: real := 4.1635019
  const C8: real := -5800.2206
  const C9: real := 1.3914993
  const C10: real := -0.048640239
  const C11: real := 0.000041764768
  const C12: real := -0.000000014452093
  const C13: real := 6.5459673

  /** The implicit Clausius-Clapeyron form whose root in `ps` is the
      saturation pressure at `ta` (ice coefficients below 0 °C). */
  function SaturationResidual(c: Env, ta: real, ps: real): real
  {
    var tk := ta + 273.15;
    if ta < 0.0 then
      c.log(ps) - Div(C1, tk) - C2 - C3 * tk - C4 * tk * tk - C5 * tk * tk * tk
        - C6 * tk * tk * tk * tk - C7 * c.log(tk)
    else
      c.log(ps) - Div(C8, tk) - C9 - C10 * tk - C11 * tk * tk - C12 * tk * tk * tk
        - C13 * c.log(tk)
  }

  /** Arden-Buck estimate used to place the solver's counterpart points. */
  function SaturationPressureEstimate(c: Env, ta: real): real
  {
    var a := if ta < 0.0 then 6.1115 else 6.1121;
    a * c.exp(AlfaT(ta)) * 100.0
  }

  /** Saturation pressure at `ta`, found by the root finder from a bracket
      around the Arden-Buck estimate (widened above 50 °C). */
  function SaturationPressure(c: Env, solve: BrentSolver, ta: real): (r: Result<real>)
    ensures r.Ok? ==> Abs(SaturationResidual(c, ta, r.value)) <= DefaultTolerance
    ensures r.Err? ==> r.error == NotConverged
  {
    var estimate := SaturationPressureEstimate(c, ta);
    var n := if ta > 50.0 then 1.1 else 1.0;
    solve(Pure(ps => SaturationResidual(c, ta, ps)),
          WithPoints(estimate * SolverA, estimate * SolverB * n))
  }

  /** Saturation pressure that air of humidity ratio `x` at relative
      humidity `rh` and pressure `pat` must have; no solver. */
  function SaturationPressureXRH(c: Env, x: real, rh: real, pat: real): (ps: real)
    ensures x == 0.0 ==> ps == 0.0
    ensures WgRatio(c) * rh / 100.0 + x * rh / 100.0 != 0.0 ==>
              ps * (rh / 100.0) * (WgRatio(c) + x) == x * pat
  {
    Div(x * pat, WgRatio(c) * rh / 100.0 + x * rh / 100.0)
  }

  // ---------------------------------------------------------------------------
  // Humidity ratio and relative humidity

  /** Humidity ratio from relative humidity, saturation pressure and total
      pressure: the vapour partial pressure is `rh/100 * ps`. */
  function HumidityRatio(c: Env, rh: real, ps: real, pat: real): (x: real)
    ensures rh == 0.0 ==> x == 0.0
    ensures pat != rh / 100.0 * ps ==>
              x * (pat - rh / 100.0 * ps) == WgRatio(c) * (rh / 100.0 * ps)
  {
    if rh == 0.0 then 0.0
    else Div(WgRatio(c) * (rh / 100.0 * ps), pat - (rh / 100.0) * ps)
  }

  /** Humidity ratio of saturated air. */
  function MaxHumidityRatio(c: Env, ps: real, pat: real): (x: real)
    ensures pat != ps ==> x * (pat - ps) == WgRatio(c) * ps
  {
    HumidityRatio(c, 100.0, ps, pat)
  }

  /** Relative humidity from dew point and dry-bulb temperature. */
  function RelativeHumidityTdp(c: Env, tdp: real, ta: real): (rh: real)
    ensures tdp == ta ==> rh == 100.0
  {
    c.exp(AlfaT(tdp) - AlfaT(ta)) * 100.0
  }

  /** Relative humidity from dry-bulb temperature and humidity ratio; 0 for
      dry air and clamped to 100 % in the fog regime. Below the clamp it is
      the vapour partial pressure over the saturation pressure. */
  function RelativeHumidity(c: Env, ta: real, x: real, pat: real): (rh: real)
    ensures x == 0.0 ==> rh == 0.0
    ensures rh <= 100.0
    ensures x >= 0.0 && pat >= 0.0 ==> rh >= 0.0
    ensures x >= 0.0 && rh < 100.0 ==>
              rh / 100.0 * ((WgRatio(c) + x) * c.saturationPressure(ta)) == x * pat
    ensures x > 0.0 && rh == 100.0 ==>
              x * pat >= (WgRatio(c) + x) * c.saturationPressure(ta)
  {
    if x == 0.0 then 0.0
    else
      var ps := c.saturationPressure(ta);
      var ratio := Div(x * pat, WgRatio(c) * ps + x * ps);
      RelativeHumidityFromRatio(ratio)
  }

  /** The clamp of the raw pressure ratio to a percentage. */
  function RelativeHumidityFromRatio(ratio: real): (rh: real)
    ensures rh <= 100.0
    ensures ratio >= 0.0 ==> rh >= 0.0
    ensures rh == 100.0 <==> ratio >= 1.0
    ensures rh < 100.0 ==> rh / 100.0 == ratio
  {
    if ratio > 1.0 then 100.0 else ratio * 100.0
  }

  // ---------------------------------------------------------------------------
  // Dew point and wet bulb

  /** Arden-Buck closed-form dew point. */
  function DewPointEstimate(c: Env, ta: real, rh: real): real
  {
    var k := ArdenBuckCoefficients(ta);
    var beta := DewPointBeta(c, ta, rh);
    ArdenBuckInverse(k, beta, c.sqrt(ArdenBuckDiscriminant(k, beta)))
  }

  /** The exponent the dew point must have: `ln(RH/100) + alfa(ta)`. */
  function DewPointBeta(c: Env, ta: real, rh: real): real
  {
    c.log(rh / 100.0) + AlfaT(ta)
  }

  /** Discriminant of the quadratic in `t` that inverts the Arden-Buck
      exponent `beta`. */
  function ArdenBuckDiscriminant(k: ArdenBuck, beta: real): real
    requires k.d > 0.0
  {
    var a := 2.0 / k.d;
    var bT := k.b - beta;
    var cT := -k.c * beta;
    bT * bT + 2.0 * a * cT
  }

  /** The closed-form root of that quadratic, `s` standing for the square
      root of its discriminant. */
  function ArdenBuckInverse(k: ArdenBuck, beta: real, s: real): real
    requires k.d > 0.0
  {
    var a := 2.0 / k.d;
    1.0 / a * ((k.b - beta) - s)
  }

  /** Accuracy the dew-point search asks for: set explicitly below 1 % RH,
      the solver's default otherwise; both are 1e-7. */
  function DewPointTolerance(rh: real): real
  {
    if rh < 1.0 then 0.0000001 else DefaultTolerance
  }

  /** Residual of the low-humidity dew-point search: saturated humidity ratio
      at `t` minus the actual humidity ratio. */
  function DewPointResidual(c: Env, ta: real, rh: real, pat: real, t: real): real
  {
    MaxHumidityRatio(c, c.saturationPressure(t), pat)
      - HumidityRatio(c, rh, c.saturationPressure(ta), pat)
  }

  /** Dew point: `ta` itself at or above 100 %, minus infinity for dry air,
      the closed form from 25 %, and a refined root below 25 %. */
  function DewPointTemperature(c: Env, solve: BrentSolver, ta: real, rh: real, pat: real): (r: Result<ExtReal>)
    ensures rh >= 100.0 ==> r == Ok(Finite(ta))
    ensures rh == 0.0 ==> r == Ok(NegInf)
    ensures 25.0 <= rh < 100.0 ==> r == Ok(Finite(DewPointEstimate(c, ta, rh)))
    ensures rh != 0.0 && r.Ok? ==> r.value.Finite?
    ensures rh < 25.0 && rh != 0.0 && r.Ok? ==>
              Abs(DewPointResidual(c, ta, rh, pat, r.value.value)) <= DewPointTolerance(rh)
    ensures r.Err? ==> r.error == NotConverged
  {
    if rh >= 100.0 then Ok(Finite(ta))
    else if rh == 0.0 then Ok(NegInf)
    else
      var estimate := DewPointEstimate(c, ta, rh);
      if rh < 25.0 then
        var setup := Setup(CounterpartPoints(Finite(estimate * SolverA), Finite(estimate * SolverB)),
                           DewPointTolerance(rh));
        var t :- solve(Pure(t => DewPointResidual(c, ta, rh, pat, t)), setup);
        Ok(Finite(t))
      else
        Ok(Finite(estimate))
  }

  /** Stull's closed-form wet-bulb estimate. */
  function WetBulbEstimate(c: Env, ta: real, rh: real): real
  {
    ta * c.atan(0.151977 * c.pow(rh + 8.313659, 0.5))
      + c.atan(ta + rh) - c.atan(rh - 1.676331)
      + 0.00391838 * c.pow(rh, 1.5) * c.atan(0.023101 * rh)
      - 4.686035
  }

  /** Adiabatic-saturation energy balance at candidate wet bulb `t`: the air's
      enthalpy plus the enthalpy of the water (ice at or below 0 °C) it takes
      up, minus the enthalpy of saturated air at `t`. */
  function WetBulbResidual(c: Env, ta: real, rh: real, pat: real, t: real): real
  {
    var x := HumidityRatio(c, rh, c.saturationPressure(ta), pat);
    var h := SpecificEnthalpy(c, ta, x, pat);
    var x1 := MaxHumidityRatio(c, c.saturationPressure(t), pat);
    var h1 := SpecificEnthalpy(c, t, x1, pat);
    var hw1 := if t <= 0.0 then c.iceEnthalpy(t) else c.waterEnthalpy(t);
    h + (x1 - x) * hw1 - h1
  }

  /** Wet bulb: `ta` itself at or above 100 %, otherwise a root of the
      adiabatic-saturation balance. */
  function WetBulbTemperature(c: Env, solve: BrentSolver, ta: real, rh: real, pat: real): (r: Result<real>)
    ensures rh >= 100.0 ==> r == Ok(ta)
    ensures rh < 100.0 && r.Ok? ==> Abs(WetBulbResidual(c, ta, rh, pat, r.value)) <= DefaultTolerance
    ensures r.Err? ==> r.error == NotConverged
  {
    if rh >= 100.0 then Ok(ta)
    else
      var estimate := WetBulbEstimate(c, ta, rh);
      solve(Pure(t => WetBulbResidual(c, ta, rh, pat, t)),
            WithPoints(estimate * SolverA, estimate * SolverB))
  }

  // ---------------------------------------------------------------------------
  // Enthalpy, specific heat, density, transport properties

  /** Specific enthalpy in kJ per kg of dry air: dry air only when `x` is 0,
      dry air plus vapour up to saturation, and above saturation the
      saturated vapour plus liquid and ice fog. */
  function SpecificEnthalpy(c: Env, ta: real, x: real, pat: real): (i: real)
    ensures x == 0.0 ==> i == c.dryAirEnthalpy(ta)
    ensures 0.0 <= x <= MaxHumidityRatio(c, c.saturationPressure(ta), pat) ==>
              i == c.dryAirEnthalpy(ta) + c.vapourEnthalpy(ta) * x
  {
    var iDa := c.dryAirEnthalpy(ta);
    if x == 0.0 then iDa
    else
      var xMax := MaxHumidityRatio(c, c.saturationPressure(ta), pat);
      if x <= xMax then iDa + c.vapourEnthalpy(ta) * x
      else
        iDa + c.vapourEnthalpy(ta) * xMax
          + c.waterEnthalpy(ta) * (x - xMax) + c.iceEnthalpy(ta) * (x - xMax)
  }

  /** Specific heat per kg of dry air: dry air plus `x` kg of vapour. */
  function SpecificHeat(c: Env, ta: real, x: real): (cp: real)
    ensures x == 0.0 ==> cp == c.dryAirSpecificHeat(ta)
  {
    c.dryAirSpecificHeat(ta) + x * c.vapourSpecificHeat(ta)
  }

  /** Density: the dry-air value when `x` is 0, otherwise the ideal-gas
      mixture law `Pat[kPa] = rho * 0.2871 * T * (1 + 1.6078 x)`. */
  function Density(c: Env, ta: real, x: real, pat: real): (rho: real)
    ensures x == 0.0 ==> rho == c.dryAirDensity(ta, pat)
    ensures x != 0.0 && pat != 0.0 && ta + 273.15 != 0.0 && 1.0 + 1.6078 * x != 0.0 ==>
              rho * (0.2871 * (ta + 273.15) * (1.0 + 1.6078 * x)) == pat / 1000.0
  {
    if x == 0.0 then c.dryAirDensity(ta, pat)
    else
      var patKpa := pat / 1000.0;
      var tk := ta + 273.15;
      Div(1.0, Div(0.2871 * tk * (1.0 + 1.6078 * x), patKpa))
  }

  /** Dynamic viscosity by the Wilke mixing rule; the dry-air value when `x` is 0. */
  function DynamicViscosity(c: Env, ta: real, x: real): (mu: real)
    ensures x == 0.0 ==> mu == c.dryAirViscosity(ta)
  {
    var muDa := c.dryAirViscosity(ta);
    if x == 0.0 then muDa
    else
      var xm := x * 1.61;
      var muWv := c.vapourViscosity(ta);
      var mWv := c.vapourMolarMass;
      var mDa := c.dryAirMolarMass;
      var fiAV := Div(c.pow(1.0 + c.pow(Div(muDa, muWv), 0.5) * c.pow(mWv / mDa, 0.25), 2.0),
                      2.0 * c.sqrt(2.0) * c.pow(1.0 + mDa / mWv, 0.5));
      var fiVA := Div(c.pow(1.0 + c.pow(Div(muWv, muDa), 0.5) * c.pow(mDa / mWv, 0.25), 2.0),
                      2.0 * c.sqrt(2.0) * c.pow(1.0 + mWv / mDa, 0.5));
      Div(muDa, 1.0 + fiAV * xm) + Div(muWv, 1.0 + Div(fiVA, xm))
  }

  /** Kinematic viscosity: dynamic viscosity over density. */
  function KinematicViscosity(c: Env, ta: real, x: real, rhoMa: real): (nu: real)
    ensures rhoMa != 0.0 ==> nu * rhoMa == DynamicViscosity(c, ta, x)
    ensures x == 0.0 && rhoMa != 0.0 ==> nu * rhoMa == c.dryAirViscosity(ta)
  {
    if x == 0.0 then Div(c.dryAirViscosity(ta), rhoMa)
    else Div(DynamicViscosity(c, ta, x), rhoMa)
  }

  /** Thermal conductivity by the Wilke-Sutherland mixing rule; the dry-air
      value when `x` is 0. */
  function ThermalConductivity(c: Env, ta: real, x: real): (k: real)
    ensures x == 0.0 ==> k == c.dryAirConductivity(ta)
  {
    var muDa := c.dryAirViscosity(ta);
    var muWv := c.vapourViscosity(ta);
    var kDa := c.dryAirConductivity(ta);
    if x == 0.0 then kDa
    else
      var sDa := c.dryAirSutherland;
      var sWv := c.vapourSutherland;
      var tk := ta + 273.15;
      var sAv := 0.733 * c.sqrt(sDa * sWv);
      var kWv := c.vapourConductivity(ta);
      var xm := 1.61 * x;
      var wg := WgRatio(c);
      var alfaAV := Div(muDa, muWv) * c.pow(wg, 0.75) * Div(1.0 + Div(sDa, tk), 1.0 + Div(sWv, tk));
      var alfaVA := Div(muWv, muDa) * c.pow(wg, 0.75) * Div(1.0 + Div(sWv, tk), 1.0 + Div(sDa, tk));
      var betaAV := Div(1.0 + Div(sAv, tk), 1.0 + Div(sDa, tk));
      var betaVA := Div(1.0 + Div(sAv, tk), 1.0 + Div(sWv, tk));
      var aAV := 0.25 * c.pow(1.0 + alfaAV, 2.0) * betaAV;
      var aVA := 0.25 * c.pow(1.0 + alfaVA, 2.0) * betaVA;
      Div(kDa, 1.0 + aAV * xm) + Div(kWv, 1.0 + Div(aVA, xm))
  }

  // ---------------------------------------------------------------------------
  // Dry-bulb temperature inversions

  /** Dry bulb from dew point and relative humidity: plus infinity for dry
      air, otherwise a temperature whose dew point at `rh` matches `tdp`. */
  function DryBulbTemperatureTdpRH(c: Env, solve: BrentSolver, tdp: real, rh: real, pat: real): (r: Result<ExtReal>)
    ensures rh == 0.0 ==> r == Ok(PosInf)
    ensures rh != 0.0 && r.Ok? ==>
              && r.value.Finite?
              && DewPointTemperature(c, solve, r.value.value, rh, pat).Ok?
              && DewPointTemperature(c, solve, r.value.value, rh, pat).value.Finite?
              && Abs(tdp - DewPointTemperature(c, solve, r.value.value, rh, pat).value.value) <= DefaultTolerance
    ensures r.Err? ==> r.error == NotConverged
  {
    if rh == 0.0 then Ok(PosInf)
    else
      var root := c.pow(rh / 100.0, 1.0 / 8.0);
      var estimate := Div(tdp - 112.0 * root + 112.0, 0.9 * root + 0.1);
      var residual: Residual := t =>
        match DewPointTemperature(c, solve, t, rh, pat)
        case Ok(Finite(v)) => Ok(tdp - v)
        case Ok(_) => assert false; Err(NotConverged)
        case Err(e) => Err(e);
      var t :- solve(residual, WithPoints(estimate * SolverA, estimate * SolverB));
      Ok(Finite(t))
  }

  /** Dry bulb whose saturation pressure is the one air of humidity ratio
      `x` at relative humidity `rh` must have. */
  function DryBulbTemperatureXRH(c: Env, solve: BrentSolver, x: real, rh: real, pat: real): (r: Result<real>)
    ensures r.Ok? ==>
              Abs(SaturationPressureXRH(c, x, rh, pat) - c.saturationPressure(r.value)) <= DefaultTolerance
    ensures r.Err? ==> r.error == NotConverged
  {
    solve(Pure(t => SaturationPressureXRH(c, x, rh, pat) - c.saturationPressure(t)), Default())
  }

  /** Dry bulb at which air of humidity ratio `x` has specific enthalpy `ix`. */
  function DryBulbTemperatureIX(c: Env, solve: BrentSolver, ix: real, x: real, pat: real): (r: Result<real>)
    ensures r.Ok? ==> Abs(ix - SpecificEnthalpy(c, r.value, x, pat)) <= DefaultTolerance
    ensures r.Err? ==> r.error == NotConverged
  {
    solve(Pure(t => ix - SpecificEnthalpy(c, t, x, pat)), Default())
  }

  /** The typed overload taking a relative humidity: it passes the relative
      humidity on where the humidity ratio belongs, so the enthalpy it
      matches is that of air whose humidity ratio equals the number `rh`. */
  function DryBulbTemperatureIXOfRelHum(c: Env, solve: BrentSolver, ix: real, rh: real, pat: real): (r: Result<real>)
    ensures r.Ok? ==> Abs(ix - SpecificEnthalpy(c, r.value, rh, pat)) <= DefaultTolerance
    ensures r.Err? ==> r.error == NotConverged
  {
    DryBulbTemperatureIX(c, solve, ix, rh, pat)
  }

  /** Dry bulb whose wet bulb at relative humidity `rh` is `wbt`. */
  function DryBulbTemperatureWbtRH(c: Env, solve: BrentSolver, wbt: real, rh: real, pat: real): (r: Result<real>)
    ensures r.Ok? ==>
              && WetBulbTemperature(c, solve, r.value, rh, pat).Ok?
              && Abs(wbt - WetBulbTemperature(c, solve, r.value, rh, pat).value) <= DefaultTolerance
    ensures r.Err? ==> r.error == NotConverged
  {
    var residual: Residual := t =>
      match WetBulbTemperature(c, solve, t, rh, pat)
      case Ok(w) => Ok(wbt - w)
      case Err(e) => Err(e);
    solve(residual, Default())
  }

  /** Highest dry bulb for which saturated air can exist at `pat`: the
      temperature whose saturation pressure equals `pat`. */
  function DryBulbTemperatureMax(c: Env, solve: BrentSolver, pat: real): (r: Result<real>)
    ensures r.Ok? ==> Abs(pat - c.saturationPressure(r.value)) <= DefaultTolerance
    ensures r.Err? ==> r.error == NotConverged
  {
    var l := c.log(0.001638 * pat);
    var estimate := Div(-237300.0 * l, 1000.0 * l - 17269.0);
    solve(Pure(t => pat - c.saturationPressure(t)),
          WithPoints(estimate * SolverA, estimate * SolverB * 1.5))
  }
}
