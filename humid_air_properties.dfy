/** Properties of the moist-air equations that relate several of them:
    the exact algebraic round trips between humidity ratio, saturation
    pressure and relative humidity, the saturation bound, and the
    regimes of the enthalpy rule. */
module HumidAirProperties {
  import opened Numerics
  import opened Solver
  import opened Correlations
  import opened HumidAirEquations
  import opened RealAlgebra

  /** The humidity-ratio relation `x * (pat - pv) == wg * pv`, with `pv` the
      vapour partial pressure, read as `pv * (wg + x) == x * pat`. */
  lemma PartialPressureForward(wg: real, pv: real, x: real, pat: real)
    requires x * (pat - pv) == wg * pv
    ensures pv * (wg + x) == x * pat
  {
  }

  /** The converse of PartialPressureForward, which also shows that the
      dry-air partial pressure `pat - pv` is `wg * pat / (wg + x)`. */
  lemma PartialPressureBackward(wg: real, pv: real, x: real, pat: real)
    requires wg + x != 0.0
    requires pv * (wg + x) == x * pat
    ensures (pat - pv) * (wg + x) == wg * pat
    ensures x * (pat - pv) == wg * pv
  {
    var d := pat - pv;
    assert d * (wg + x) == pat * (wg + x) - pv * (wg + x);
    assert (x * d) * (wg + x) == (wg * pv) * (wg + x) by {
      calc {
        (x * d) * (wg + x);
        x * (d * (wg + x));
        x * (wg * pat);
        wg * (x * pat);
        wg * (pv * (wg + x));
      }
    }
    MulCancel(x * d, wg * pv, wg + x);
  }

  /** Saturation pressure recovered from the humidity ratio it produced. */
  lemma SaturationPressureInvertsHumidityRatio(c: Env, rh: real, ps: real, pat: real)
    requires rh > 0.0 && ps > 0.0 && pat > rh / 100.0 * ps
    ensures SaturationPressureXRH(c, HumidityRatio(c, rh, ps, pat), rh, pat) == ps
  {
    var x := HumidityRatio(c, rh, ps, pat);
    SaturationInversionCore(WgRatio(c), rh, ps, pat, x, SaturationPressureXRH(c, x, rh, pat));
  }

  /** Algebra of SaturationPressureInvertsHumidityRatio over plain reals:
      `x` is the humidity ratio of `ps` at `rh`, and `q` the saturation
      pressure computed back from it. */
  lemma SaturationInversionCore(wg: real, rh: real, ps: real, pat: real, x: real, q: real)
    requires wg > 0.0 && rh > 0.0 && ps > 0.0 && pat > rh / 100.0 * ps
    requires x * (pat - rh / 100.0 * ps) == wg * (rh / 100.0 * ps)
    requires wg * rh / 100.0 + x * rh / 100.0 != 0.0 ==> q * (rh / 100.0) * (wg + x) == x * pat
    ensures q == ps
  {
    var a := rh / 100.0;
    var pv := a * ps;
    MulPositive(a, ps);
    MulPositive(wg, pv);
    SignOfFactor(x, pat - pv);
    PartialPressureForward(wg, pv, x, pat);
    var den := wg * rh / 100.0 + x * rh / 100.0;
    assert den == a * (wg + x);
    MulPositive(a, wg + x);
    assert q * den == x * pat;
    assert ps * den == pv * (wg + x);
    MulCancel(q, ps, den);
  }

  /** Algebra of HumidityRatioInvertsSaturationPressure over plain reals:
      `ps` is the saturation pressure implied by `x` at fraction `a`, and
      `h` the humidity ratio computed back from it. */
  lemma SaturationRoundTripCore(wg: real, a: real, x: real, pat: real, ps: real, h: real)
    requires wg > 0.0 && x >= 0.0 && a != 0.0 && pat != 0.0
    requires a * (wg + x) != 0.0 ==> ps * (a * (wg + x)) == x * pat
    requires pat != a * ps ==> h * (pat - a * ps) == wg * (a * ps)
    ensures h == x
  {
    var den := a * (wg + x);
    assert den != 0.0 by {
      if den == 0.0 { MulCancel(a, 0.0, wg + x); }
    }
    var pv := a * ps;
    assert pv * (wg + x) == ps * den;
    PartialPressureBackward(wg, pv, x, pat);
    var d := pat - pv;
    assert h * d == wg * pv;
    MulCancel(h, x, d);
  }

  /** Humidity ratio recovered from the saturation pressure it implies. */
  lemma HumidityRatioInvertsSaturationPressure(c: Env, x: real, rh: real, pat: real)
    requires x >= 0.0 && rh != 0.0 && pat != 0.0
    ensures HumidityRatio(c, rh, SaturationPressureXRH(c, x, rh, pat), pat) == x
  {
    var wg := WgRatio(c);
    var ps := SaturationPressureXRH(c, x, rh, pat);
    assert wg * rh / 100.0 + x * rh / 100.0 == rh / 100.0 * (wg + x);
    SaturationRoundTripCore(wg, rh / 100.0, x, pat, ps, HumidityRatio(c, rh, ps, pat));
  }

  /** Algebra of RelativeHumidityInvertsHumidityRatio over plain reals:
      `x` is the humidity ratio at fraction `a` of saturation pressure `ps`,
      and `ratio` the vapour pressure it implies over `ps`. */
  lemma RelativeRoundTripCore(wg: real, a: real, x: real, pat: real, ps: real, ratio: real)
    requires wg > 0.0 && a > 0.0 && ps > 0.0 && pat > a * ps
    requires x * (pat - a * ps) == wg * (a * ps)
    requires wg * ps + x * ps != 0.0 ==> ratio * (wg * ps + x * ps) == x * pat
    ensures x > 0.0 && ratio == a
    ensures (wg + x) * ps > 0.0 && a * ((wg + x) * ps) == x * pat
  {
    BalancedRatioCore(wg, a, x, pat, ps);
    var den := wg * ps + x * ps;
    assert den == (wg + x) * ps;
    MulCancel(ratio, a, den);
  }

  /** A humidity ratio `x` balancing the vapour pressure `a * ps` is
      positive, and `a` is its vapour pressure over `ps`. */
  lemma BalancedRatioCore(wg: real, a: real, x: real, pat: real, ps: real)
    requires wg > 0.0 && a > 0.0 && ps > 0.0 && pat > a * ps
    requires x * (pat - a * ps) == wg * (a * ps)
    ensures x > 0.0 && (wg + x) * ps > 0.0 && a * ((wg + x) * ps) == x * pat
  {
    var pv := a * ps;
    MulPositive(a, ps);
    MulPositive(wg, pv);
    SignOfFactor(x, pat - pv);
    PartialPressureForward(wg, pv, x, pat);
    MulPositive(wg + x, ps);
    assert a * ((wg + x) * ps) == pv * (wg + x);
  }

  /** Relative humidity recovered from the humidity ratio it produced, at
      the air's own saturation pressure. */
  lemma RelativeHumidityInvertsHumidityRatio(c: Env, ta: real, rh: real, pat: real)
    requires 0.0 < rh <= 100.0
    requires pat > rh / 100.0 * c.saturationPressure(ta)
    ensures RelativeHumidity(c, ta, HumidityRatio(c, rh, c.saturationPressure(ta), pat), pat) == rh
  {
    RelativeHumidityOfBalancedRatio(c, ta, rh, pat, HumidityRatio(c, rh, c.saturationPressure(ta), pat));
  }

  /** The relative humidity of any humidity ratio `x` that balances the
      vapour partial pressure `rh/100 * ps` is `rh`. */
  lemma RelativeHumidityOfBalancedRatio(c: Env, ta: real, rh: real, pat: real, x: real)
    requires 0.0 < rh <= 100.0
    requires pat > rh / 100.0 * c.saturationPressure(ta)
    requires x * (pat - rh / 100.0 * c.saturationPressure(ta)) == WgRatio(c) * (rh / 100.0 * c.saturationPressure(ta))
    ensures RelativeHumidity(c, ta, x, pat) == rh
  {
    var ps := c.saturationPressure(ta);
    var wg := WgRatio(c);
    BalancedRatioCore(wg, rh / 100.0, x, pat, ps);
    RelativeHumidityMatches(rh / 100.0, RelativeHumidity(c, ta, x, pat), (wg + x) * ps, x * pat);
  }

  /** The last step of RelativeHumidityInvertsHumidityRatio: a clamped
      percentage `r` that agrees with the pressure fraction `a <= 1` equals it. */
  lemma RelativeHumidityMatches(a: real, r: real, k: real, v: real)
    requires 0.0 < a <= 1.0 && k > 0.0 && r <= 100.0
    requires a * k == v
    requires r < 100.0 ==> r / 100.0 * k == v
    requires r == 100.0 ==> v >= k
    ensures r == a * 100.0
  {
    if r < 100.0 {
      MulCancel(r / 100.0, a, k);
    } else {
      MulLeCancel(1.0, a, k);
    }
  }

  /** Humidity ratio recovered from the relative humidity it implies,
      below saturation. */
  lemma HumidityRatioInvertsRelativeHumidity(c: Env, ta: real, x: real, pat: real)
    requires x > 0.0 && pat > 0.0
    requires RelativeHumidity(c, ta, x, pat) < 100.0
    ensures HumidityRatio(c, RelativeHumidity(c, ta, x, pat), c.saturationPressure(ta), pat) == x
  {
    HumidityRatioOfMatchingRH(c, ta, x, pat, RelativeHumidity(c, ta, x, pat));
  }

  /** Any relative humidity `rh` below 100 % whose vapour fraction balances
      `x` gives `x` back as its humidity ratio. */
  lemma HumidityRatioOfMatchingRH(c: Env, ta: real, x: real, pat: real, rh: real)
    requires x > 0.0 && pat > 0.0
    requires rh / 100.0 * ((WgRatio(c) + x) * c.saturationPressure(ta)) == x * pat
    ensures HumidityRatio(c, rh, c.saturationPressure(ta), pat) == x
  {
    var ps := c.saturationPressure(ta);
    InverseRelativeCore(WgRatio(c), rh / 100.0, x, pat, ps, HumidityRatio(c, rh, ps, pat));
  }

  /** Algebra of HumidityRatioInvertsRelativeHumidity over plain reals: `a`
      is the vapour fraction that `x` implies, and `h` the humidity ratio
      computed back from it. */
  lemma InverseRelativeCore(wg: real, a: real, x: real, pat: real, ps: real, h: real)
    requires wg > 0.0 && x > 0.0 && pat > 0.0 && ps > 0.0
    requires a * ((wg + x) * ps) == x * pat
    requires pat != a * ps ==> h * (pat - a * ps) == wg * (a * ps)
    ensures h == x
  {
    MulPositive(x, pat);
    MulPositive(wg + x, ps);
    SignOfFactor(a, (wg + x) * ps);
    var pv := a * ps;
    assert pv * (wg + x) == x * pat;
    PartialPressureBackward(wg, pv, x, pat);
    var d := pat - pv;
    MulPositive(wg, pat);
    SignOfFactor(d, wg + x);
    assert h * d == wg * pv;
    assert x * d == wg * pv;
    MulCancel(h, x, d);
  }

  /** The order fact behind HumidityRatioBelowMax: for `0 < a <= 1` and
      `0 < ps < pat`, `wg*a*ps/(pat - a*ps) <= wg*ps/(pat - ps)`. */
  lemma PartialPressureOrder(wg: real, a: real, ps: real, pat: real, x: real, xMax: real)
    requires wg > 0.0 && 0.0 < a <= 1.0 && 0.0 < ps < pat
    requires x * (pat - a * ps) == wg * (a * ps)
    requires xMax * (pat - ps) == wg * ps
    ensures 0.0 <= x <= xMax
  {
    var d := pat - a * ps;
    var e := pat - ps;
    MulLeMonotone(a, 1.0, ps);
    assert d >= e;
    MulPositive(a, ps);
    MulPositive(wg, a * ps);
    SignOfFactor(x, d);
    MulLeMonotone(a, 1.0, pat);
    assert a * e == a * pat - a * ps;
    assert a * e <= d;
    MulLeMonotone(a * e, d, wg * ps);
    MulPositive(d, e);
    assert x * (d * e) == (a * e) * (wg * ps);
    assert xMax * (d * e) == d * (wg * ps);
    MulLeCancel(x, xMax, d * e);
  }

  /** Between 0 and 100 % the humidity ratio is non-negative and at most
      that of saturated air. */
  lemma HumidityRatioBelowMax(c: Env, rh: real, ps: real, pat: real)
    requires 0.0 <= rh <= 100.0 && 0.0 < ps < pat
    ensures 0.0 <= HumidityRatio(c, rh, ps, pat) <= MaxHumidityRatio(c, ps, pat)
  {
    var wg := WgRatio(c);
    var xMax := MaxHumidityRatio(c, ps, pat);
    assert xMax * (pat - ps) == wg * ps;
    if rh == 0.0 {
      MulPositive(wg, ps);
      SignOfFactor(xMax, pat - ps);
    } else {
      var x := HumidityRatio(c, rh, ps, pat);
      var a := rh / 100.0;
      MulLeMonotone(a, 1.0, ps);
      assert x * (pat - a * ps) == wg * (a * ps);
      PartialPressureOrder(wg, a, ps, pat, x, xMax);
    }
  }

  /** Above saturation the enthalpy is that of saturated air plus the liquid
      and ice fog formed by the excess water. */
  lemma EnthalpyOfFog(c: Env, ta: real, x: real, pat: real)
    requires x != 0.0
    requires x > MaxHumidityRatio(c, c.saturationPressure(ta), pat)
    ensures
      var xMax := MaxHumidityRatio(c, c.saturationPressure(ta), pat);
      SpecificEnthalpy(c, ta, x, pat)
        == SpecificEnthalpy(c, ta, xMax, pat)
           + (c.waterEnthalpy(ta) + c.iceEnthalpy(ta)) * (x - xMax)
  {
    var xMax := MaxHumidityRatio(c, c.saturationPressure(ta), pat);
    if xMax == 0.0 {
      assert SpecificEnthalpy(c, ta, xMax, pat) == c.dryAirEnthalpy(ta);
    } else {
      assert SpecificEnthalpy(c, ta, xMax, pat)
          == c.dryAirEnthalpy(ta) + c.vapourEnthalpy(ta) * xMax;
    }
  }

  /** With ice enthalpy zero above 0 °C and liquid enthalpy zero at or
      below it, the fog term of a warm fog is liquid water only and that of
      a cold fog is ice only. */
  lemma FogPhaseFollowsTemperature(c: Env, ta: real, x: real, pat: real)
    requires x != 0.0
    requires x > MaxHumidityRatio(c, c.saturationPressure(ta), pat)
    requires ta > 0.0 ==> c.iceEnthalpy(ta) == 0.0
    requires ta <= 0.0 ==> c.waterEnthalpy(ta) == 0.0
    ensures
      var xMax := MaxHumidityRatio(c, c.saturationPressure(ta), pat);
      var fog := SpecificEnthalpy(c, ta, x, pat) - SpecificEnthalpy(c, ta, xMax, pat);
      && (ta > 0.0 ==> fog == c.waterEnthalpy(ta) * (x - xMax))
      && (ta <= 0.0 ==> fog == c.iceEnthalpy(ta) * (x - xMax))
  {
    EnthalpyOfFog(c, ta, x, pat);
  }

  /** Saturation pressure, humidity ratio and the `XRH` inversion close a
      round trip: the temperature it returns for the humidity ratio and
      relative humidity of air at `ta` has the saturation pressure of `ta`
      up to the solver's tolerance. */
  lemma DryBulbXRHRecoversSaturationPressure(c: Env, solve: BrentSolver, ta: real, x: real, pat: real)
    requires x > 0.0 && pat > 0.0
    requires RelativeHumidity(c, ta, x, pat) < 100.0
    requires DryBulbTemperatureXRH(c, solve, x, RelativeHumidity(c, ta, x, pat), pat).Ok?
    ensures
      var t := DryBulbTemperatureXRH(c, solve, x, RelativeHumidity(c, ta, x, pat), pat).value;
      Abs(c.saturationPressure(t) - c.saturationPressure(ta)) <= DefaultTolerance
  {
    var rh := RelativeHumidity(c, ta, x, pat);
    var ps := c.saturationPressure(ta);
    var wg := WgRatio(c);
    var a := rh / 100.0;
    assert a * ((wg + x) * ps) == x * pat;
    assert a > 0.0;
    var den := wg * rh / 100.0 + x * rh / 100.0;
    assert den == a * (wg + x);
    assert den * ps == x * pat;
    assert den != 0.0;
    assert SaturationPressureXRH(c, x, rh, pat) == ps;
  }

  /** Saturated air is at 100 % relative humidity: the humidity ratio of
      saturation lands exactly on the upper end of the clamp. */
  lemma MaxHumidityRatioIsSaturated(c: Env, ta: real, pat: real)
    requires pat > c.saturationPressure(ta)
    ensures RelativeHumidity(c, ta, MaxHumidityRatio(c, c.saturationPressure(ta), pat), pat) == 100.0
  {
    var ps := c.saturationPressure(ta);
    RelativeHumidityOfBalancedRatio(c, ta, 100.0, pat, MaxHumidityRatio(c, ps, pat));
  }

  /** With `s` a square root of the discriminant, the closed-form root `t`
      solves the Arden-Buck relation `(b - t/d) * t == beta * (c + t)`. */
  lemma ArdenBuckRoot(k: ArdenBuck, beta: real, s: real)
    requires k.d > 0.0
    requires s * s == ArdenBuckDiscriminant(k, beta)
    ensures var t := ArdenBuckInverse(k, beta, s);
            (k.b - t / k.d) * t == beta * (k.c + t)
  {
    var b, cc, d := k.b, k.c, k.d;
    var t := ArdenBuckInverse(k, beta, s);
    var bT := b - beta;
    assert 1.0 / (2.0 / d) == d / 2.0;
    assert t == d / 2.0 * (bT - s);
    assert t / d == (bT - s) / 2.0;
    assert b - t / d == (bT + s) / 2.0 + beta;
    assert (b - t / d) * t == (bT + s) / 2.0 * t + beta * t;
    assert (bT + s) / 2.0 * t == (bT * bT - s * s) * (d / 4.0);
    assert 2.0 * (2.0 / d) * (-cc * beta) == -(4.0 * cc * beta) / d;
    assert bT * bT - s * s == (4.0 * cc * beta) / d;
    assert (4.0 * cc * beta) / d * (d / 4.0) == cc * beta;
  }

  /** Real-number core of ExponentOfArdenBuckRoot. */
  lemma ExponentCore(b: real, cc: real, d: real, beta: real, t: real, q: real, alfa: real)
    requires d != 0.0 && cc + t != 0.0 && q * (cc + t) == t
    requires alfa == (b - t / d) * q
    requires (b - t / d) * t == beta * (cc + t)
    ensures alfa == beta
  {
    assert alfa * (cc + t) == (b - t / d) * (q * (cc + t));
    MulCancel(alfa, beta, cc + t);
  }

  /** A temperature solving the Arden-Buck relation with its own
      coefficients has the Arden-Buck exponent `beta`. */
  lemma ExponentOfArdenBuckRoot(k: ArdenBuck, beta: real, t: real)
    requires ArdenBuckCoefficients(t) == k && k.c + t != 0.0
    requires (k.b - t / k.d) * t == beta * (k.c + t)
    ensures AlfaT(t) == beta
  {
    ExponentCore(k.b, k.c, k.d, beta, t, Div(t, k.c + t), AlfaT(t));
  }

  /** The Arden-Buck dew-point estimate inverts the Arden-Buck exponent:
      wherever the square root is exact, the estimate `t` solves
      `(b - t/d) * t == beta * (c + t)` with `beta = ln(RH/100) + alfa(ta)`
      and the coefficients of `ta`. */
  lemma DewPointEstimateSolvesArdenBuck(c: Env, ta: real, rh: real)
    requires
      var disc := ArdenBuckDiscriminant(ArdenBuckCoefficients(ta), DewPointBeta(c, ta, rh));
      c.sqrt(disc) * c.sqrt(disc) == disc
    ensures
      var k := ArdenBuckCoefficients(ta);
      var t := DewPointEstimate(c, ta, rh);
      (k.b - t / k.d) * t == DewPointBeta(c, ta, rh) * (k.c + t)
  {
    var k := ArdenBuckCoefficients(ta);
    var beta := DewPointBeta(c, ta, rh);
    assert k.d > 0.0;
    ArdenBuckRoot(k, beta, c.sqrt(ArdenBuckDiscriminant(k, beta)));
  }

  /** Hence the estimate has the exponent `ln(RH/100) + alfa(ta)` of the dew
      point whenever it lies in the coefficient range of `ta`. */
  lemma DewPointEstimateHasDewPointExponent(c: Env, ta: real, rh: real)
    requires
      var disc := ArdenBuckDiscriminant(ArdenBuckCoefficients(ta), DewPointBeta(c, ta, rh));
      c.sqrt(disc) * c.sqrt(disc) == disc
    requires ArdenBuckCoefficients(DewPointEstimate(c, ta, rh)) == ArdenBuckCoefficients(ta)
    requires ArdenBuckCoefficients(ta).c + DewPointEstimate(c, ta, rh) != 0.0
    ensures AlfaT(DewPointEstimate(c, ta, rh)) == DewPointBeta(c, ta, rh)
  {
    DewPointEstimateSolvesArdenBuck(c, ta, rh);
    ExponentOfArdenBuckRoot(ArdenBuckCoefficients(ta), DewPointBeta(c, ta, rh), DewPointEstimate(c, ta, rh));
  }
}
