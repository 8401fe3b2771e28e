/** Sensible heating of a humid-air flow: the humidity ratio and the dry-air
    flow stay fixed and the heat of process is the enthalpy rise of the dry
    air, `Q = 1000 * m * (i2 - i1)` [W, kg/s, kJ/kg]. */
module PhysicsOfHeating {
  import opened Numerics
  import opened Solver
  import opened RealAlgebra
  import opened Flows

  /** Outlet state of a heating (or dry cooling) process and its heat [W]. */
  datatype HeatingResult = HeatingResult(
    pressure: real, outTemperature: real, outHumidityRatio: real,
    massFlowDa: real, heatOfProcess: real)

  /** The state of a heating result is that of the inlet flow apart from
      the temperature. */
  predicate KeepsMoisture(f: Flow, r: HeatingResult)
  {
    && r.pressure == f.air.pressure
    && r.outHumidityRatio == f.air.humidityRatio
    && r.massFlowDa == f.dryAirMassFlow
  }

  /** Energy balance of the input-heat form, multiplied out so that it
      holds without dividing by the dry-air flow `m1`: the heat `q` [W]
      raises the enthalpy of `m1` from `i1` to `i2`, up to the tolerance. */
  predicate Balanced(m1: real, i1: real, q: real, i2: real)
  {
    Abs(m1 * i1 + q / 1000.0 - m1 * i2) <= Abs(m1) * DefaultTolerance
  }

  /** The enthalpy the solver is asked to match, within tolerance, gives a
      balanced outlet. */
  lemma InputHeatBalance(m1: real, i1: real, q: real, i2: real, h: real)
    requires m1 != 0.0 && i2 * m1 == m1 * i1 + q / 1000.0
    requires Abs(i2 - h) <= DefaultTolerance
    ensures Balanced(m1, i1, q, h)
  {
    AbsScale(m1, i2 - h, DefaultTolerance);
    assert m1 * (i2 - h) == m1 * i1 + q / 1000.0 - m1 * h;
  }

  /** No heat means no enthalpy change. */
  lemma ZeroHeatKeepsEnthalpy(m1: real, i1: real, iT: real)
    requires m1 != 0.0 && (m1 * iT - m1 * i1) * 1000.0 == 0.0
    ensures iT == i1
  {
    assert iT * m1 == i1 * m1;
    MulCancel(iT, i1, m1);
  }

  /** A balanced outlet for the heat of a target enthalpy `iT` has the
      target enthalpy, within tolerance. */
  lemma BalancedReachesTarget(m1: real, i1: real, iT: real, h: real)
    requires m1 != 0.0
    requires Balanced(m1, i1, (m1 * iT - m1 * i1) * 1000.0, h)
    ensures Abs(iT - h) <= DefaultTolerance
  {
    var e := m1 * i1 + (m1 * iT - m1 * i1) * 1000.0 / 1000.0 - m1 * h;
    assert Abs(e) <= Abs(m1) * DefaultTolerance;
    assert e == m1 * (iT - h);
    AbsMul(m1, iT - h);
    Unscale(Abs(m1), Abs(iT - h), DefaultTolerance, Abs(e));
  }

  /** Either way the input-heat outlet reaches the target enthalpy. */
  lemma BalancedRecoversTarget(m1: real, i1: real, iT: real, h: real, q: real)
    requires m1 != 0.0 && q == (m1 * iT - m1 * i1) * 1000.0
    requires q == 0.0 ==> h == i1
    requires q != 0.0 ==> Balanced(m1, i1, q, h)
    ensures Abs(iT - h) <= DefaultTolerance
  {
    if q == 0.0 {
      ZeroHeatKeepsEnthalpy(m1, i1, iT);
    } else {
      BalancedReachesTarget(m1, i1, iT, h);
    }
  }

  /** Outlet temperature for a given input heat `q` [W]. No heat or no flow
      leaves the air as it is; otherwise the outlet enthalpy is the inlet
      enthalpy plus `q / (1000 m)` and the temperature is found by the
      enthalpy inversion at the inlet humidity ratio. */
  function HeatingForInputHeat(c: Context, f: Flow, q: real): (r: Result<HeatingResult>)
    ensures r.Ok? ==> KeepsMoisture(f, r.value) && r.value.heatOfProcess == q
    ensures q == 0.0 || MassFlow(f) == 0.0 ==>
              r == Ok(HeatingResult(f.air.pressure, f.air.temperature, f.air.humidityRatio,
                                    f.dryAirMassFlow, q))
    ensures q != 0.0 && MassFlow(f) != 0.0 && r.Ok? ==>
              Balanced(f.dryAirMassFlow, Enthalpy(c.props, f.air), q,
                       c.props.enthalpy(r.value.outTemperature, f.air.humidityRatio, f.air.pressure))
    ensures r.Err? ==> q != 0.0 && MassFlow(f) != 0.0 && r.error == NotConverged
  {
    var pressure := f.air.pressure;
    var t1 := f.air.temperature;
    var x1 := f.air.humidityRatio;
    var m1 := f.dryAirMassFlow;
    if q == 0.0 || MassFlow(f) == 0.0 then
      Ok(HeatingResult(pressure, t1, x1, m1, q))
    else
      assert m1 != 0.0;
      var i1 := Enthalpy(c.props, f.air);
      var i2 := Div(m1 * i1 + q / 1000.0, m1);
      var t2 :- c.props.dryBulbIX(i2, x1, pressure);
      InputHeatBalance(m1, i1, q, i2, c.props.enthalpy(t2, x1, pressure));
      Ok(HeatingResult(pressure, t2, x1, m1, q))
  }

  /** Heat needed to bring the flow to `target` [°C]. The check that the
      target exceeds the inlet temperature comes first; a target equal to
      the inlet temperature needs no heat. */
  function HeatingForTargetTemp(c: Context, f: Flow, target: real): (r: Result<HeatingResult>)
    ensures r.Err? <==> !c.checks.firstGreater(target, f.air.temperature)
    ensures r.Err? ==> r.error == InvalidArgument
    ensures r.Ok? ==>
              && KeepsMoisture(f, r.value)
              && r.value.outTemperature == target
              && r.value.heatOfProcess
                 == (f.dryAirMassFlow * c.props.enthalpy(target, f.air.humidityRatio, f.air.pressure)
                     - f.dryAirMassFlow * Enthalpy(c.props, f.air)) * 1000.0
  {
    if !c.checks.firstGreater(target, f.air.temperature) then Err(InvalidArgument)
    else
      var pressure := f.air.pressure;
      var t1 := f.air.temperature;
      var x1 := f.air.humidityRatio;
      var m1 := f.dryAirMassFlow;
      if target == t1 then
        assert c.props.enthalpy(target, x1, pressure) == Enthalpy(c.props, f.air);
        Ok(HeatingResult(pressure, t1, x1, m1, 0.0))
      else
        var i1 := Enthalpy(c.props, f.air);
        var i2 := c.props.enthalpy(target, x1, pressure);
        Ok(HeatingResult(pressure, target, x1, m1, (m1 * i2 - m1 * i1) * 1000.0))
  }

  /** Heating down to a relative humidity `outRH` [%]. The target must lie in
      (0, 100] and must not exceed the inlet's; the outlet temperature is the
      one whose saturation pressure gives `outRH` at the inlet humidity ratio. */
  function HeatingForTargetRH(c: Context, f: Flow, outRH: real): (r: Result<HeatingResult>)
    ensures r.Err? && r.error == InvalidArgument
            <==> outRH > 100.0 || outRH <= 0.0 || outRH > RelHum(c.props, f.air)
    ensures 0.0 < outRH <= 100.0 && outRH == RelHum(c.props, f.air) ==>
              r == Ok(HeatingResult(f.air.pressure, f.air.temperature, f.air.humidityRatio,
                                    f.dryAirMassFlow, 0.0))
    ensures r.Ok? ==>
              && KeepsMoisture(f, r.value)
              && r.value.heatOfProcess
                 == (f.dryAirMassFlow
                       * c.props.enthalpy(r.value.outTemperature, f.air.humidityRatio, f.air.pressure)
                     - f.dryAirMassFlow * Enthalpy(c.props, f.air)) * 1000.0
    ensures r.Ok? && outRH != RelHum(c.props, f.air) ==>
              Abs(c.props.saturationPressureXRH(f.air.humidityRatio, outRH, f.air.pressure)
                  - c.props.saturationPressure(r.value.outTemperature)) <= DefaultTolerance
  {
    if outRH > 100.0 || outRH <= 0.0 then Err(InvalidArgument)
    else
      var pressure := f.air.pressure;
      var rh1 := RelHum(c.props, f.air);
      var t1 := f.air.temperature;
      var x1 := f.air.humidityRatio;
      var m1 := f.dryAirMassFlow;
      if outRH == rh1 then Ok(HeatingResult(pressure, t1, x1, m1, 0.0))
      else if outRH > rh1 then Err(InvalidArgument)
      else
        var i1 := Enthalpy(c.props, f.air);
        var t2 :- c.props.dryBulbXRH(x1, outRH, pressure);
        var i2 := c.props.enthalpy(t2, x1, pressure);
        Ok(HeatingResult(pressure, t2, x1, m1, (m1 * i2 - m1 * i1) * 1000.0))
  }

  /** The outlet of HeatingForInputHeat, read off its contract. */
  lemma InputHeatOutlet(c: Context, f: Flow, q: real, r: HeatingResult)
    requires HeatingForInputHeat(c, f, q) == Ok(r)
    requires MassFlow(f) != 0.0
    ensures f.dryAirMassFlow != 0.0
    ensures q == 0.0 ==>
              c.props.enthalpy(r.outTemperature, f.air.humidityRatio, f.air.pressure)
              == Enthalpy(c.props, f.air)
    ensures q != 0.0 ==>
              Balanced(f.dryAirMassFlow, Enthalpy(c.props, f.air), q,
                       c.props.enthalpy(r.outTemperature, f.air.humidityRatio, f.air.pressure))
  {
  }

  /** Input heat `q` equal to `1000 * m * (iT - i1)` brings the flow to
      enthalpy `iT`, up to the solver's tolerance. */
  lemma InputHeatReachesEnthalpy(c: Context, f: Flow, iT: real, q: real, reheated: HeatingResult)
    requires MassFlow(f) != 0.0
    requires q == (f.dryAirMassFlow * iT - f.dryAirMassFlow * Enthalpy(c.props, f.air)) * 1000.0
    requires HeatingForInputHeat(c, f, q) == Ok(reheated)
    ensures Abs(iT - c.props.enthalpy(reheated.outTemperature, f.air.humidityRatio, f.air.pressure))
            <= DefaultTolerance
  {
    InputHeatOutlet(c, f, q, reheated);
    BalancedRecoversTarget(f.dryAirMassFlow, Enthalpy(c.props, f.air), iT,
      c.props.enthalpy(reheated.outTemperature, f.air.humidityRatio, f.air.pressure), q);
  }

  /** The heat HeatingForTargetTemp reports, read off its contract. */
  lemma TargetTempHeat(c: Context, f: Flow, target: real, heated: HeatingResult)
    requires HeatingForTargetTemp(c, f, target) == Ok(heated)
    ensures heated.heatOfProcess
            == (f.dryAirMassFlow * c.props.enthalpy(target, f.air.humidityRatio, f.air.pressure)
                - f.dryAirMassFlow * Enthalpy(c.props, f.air)) * 1000.0
  {
  }

  /** The two heating forms invert each other: feeding the heat computed for
      a target temperature back as input heat gives an outlet whose enthalpy
      is that of the target, up to the solver's tolerance. */
  lemma InputHeatRecoversTargetTemp(c: Context, f: Flow, target: real, heated: HeatingResult, reheated: HeatingResult)
    requires HeatingForTargetTemp(c, f, target) == Ok(heated)
    requires MassFlow(f) != 0.0
    requires HeatingForInputHeat(c, f, heated.heatOfProcess) == Ok(reheated)
    ensures
      var x1 := f.air.humidityRatio;
      Abs(c.props.enthalpy(target, x1, f.air.pressure)
          - c.props.enthalpy(reheated.outTemperature, x1, f.air.pressure)) <= DefaultTolerance
  {
    var iT := c.props.enthalpy(target, f.air.humidityRatio, f.air.pressure);
    TargetTempHeat(c, f, target, heated);
    InputHeatReachesEnthalpy(c, f, iT, heated.heatOfProcess, reheated);
  }
}
