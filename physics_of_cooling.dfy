/** Cooling of a humid-air flow. A real cooling coil is modelled by its
    bypass factor: part of the dry air touches the coil wall and leaves at
    the wall state, the rest bypasses the coil unchanged, and below the dew
    point the wall-contact air gives up water as condensate. Dry cooling
    reuses the heating equations with a negative heat. */
module PhysicsOfCooling {
  import opened Numerics
  import opened Solver
  import opened RealAlgebra
  import opened Correlations
  import opened HumidAirEquations
  import opened HumidAirProperties
  import opened Flows
  import opened PhysicsOfHeating

  /** Outlet state of a cooling process, its heat [W] and the temperature
      [°C] and flow [kg/s] of the condensate discharged. */
  datatype CoolingResult = CoolingResult(
    pressure: real, outTemperature: real, outHumidityRatio: real,
    massFlowDa: real, heatOfProcess: real,
    condensateTemperature: real, condensateFlow: real)

  /** The dry-air flow split at the coil [kg/s]. */
  datatype ContactFlows = ContactFlows(direct: real, bypass: real)

  /** Linear average of the coolant supply and return temperatures [°C]. */
  function AverageWallTemp(supply: real, ret: real): (t: real)
    ensures t - supply == ret - t
    ensures supply <= ret ==> supply <= t <= ret
    ensures ret <= supply ==> ret <= t <= supply
  {
    (supply + ret) / 2.0
  }

  /** The share of the air that passes the coil without reaching the wall
      temperature: the outlet temperature is the mix of the inlet and wall
      temperatures in the proportion `bf : 1 - bf`. */
  function BypassFactor(wall: real, inT: real, outT: real): (bf: real)
    ensures inT != wall ==> outT == bf * inT + (1.0 - bf) * wall
    ensures wall < outT <= inT ==> 0.0 < bf <= 1.0
  {
    var bf := Div(outT - wall, inT - wall);
    if wall < outT <= inT then
      BypassFactorBounds(bf, wall, inT, outT);
      bf
    else bf
  }

  lemma BypassFactorBounds(bf: real, wall: real, inT: real, outT: real)
    requires wall < outT <= inT && bf * (inT - wall) == outT - wall
    ensures 0.0 < bf <= 1.0
  {
    SignOfFactor(bf, inT - wall);
    assert bf * (inT - wall) <= 1.0 * (inT - wall);
    MulLeCancel(bf, 1.0, inT - wall);
  }

  /** Splits the dry-air flow `mda` by the bypass factor `bf` into the air
      that touches the wall and the air that bypasses it. */
  function SplitFlow(bf: real, mda: real): (s: ContactFlows)
    ensures s.direct + s.bypass == mda
    ensures s.bypass == bf * mda
    ensures 0.0 <= bf <= 1.0 && mda >= 0.0 ==> s.direct >= 0.0 && s.bypass >= 0.0
  {
    var direct := (1.0 - bf) * mda;
    MulNonNegativeIf(1.0 - bf, mda);
    MulNonNegativeIf(bf, mda);
    ContactFlows(direct, mda - direct)
  }

  lemma MulNonNegativeIf(a: real, b: real)
    ensures a >= 0.0 && b >= 0.0 ==> a * b >= 0.0
  {
    if a >= 0.0 && b >= 0.0 { MulNonNegative(a, b); }
  }

  /** Condensate discharged by the dry-air flow `mda` dried from humidity
      ratio `x1` to `x2`. Negative arguments are rejected; bone-dry inlet
      air gives no condensate. */
  function CondensateDischarge(mda: real, x1: real, x2: real): (r: Result<real>)
    ensures r.Err? <==> mda < 0.0 || x1 < 0.0 || x2 < 0.0
    ensures r.Err? ==> r.error == InvalidArgument
    ensures r.Ok? && x1 == 0.0 ==> r.value == 0.0
    ensures r.Ok? && x1 != 0.0 ==> mda * x1 == mda * x2 + r.value
    ensures r.Ok? && x2 <= x1 ==> r.value >= 0.0
  {
    if mda < 0.0 || x1 < 0.0 || x2 < 0.0 then Err(InvalidArgument)
    else if x1 == 0.0 then Ok(0.0)
    else
      MulNonNegativeIf(mda, x1 - x2);
      Ok(mda * (x1 - x2))
  }

  /** Whether the coil wall is at or above the inlet dew point, so that the
      air touching it does not condense. */
  predicate DryWall(p: Properties, a: HumidAir, wall: real)
  {
    DewPoint(p, a).Ok? && AtLeast(wall, DewPoint(p, a).value)
  }

  /** Humidity ratio of the air leaving the wall: the inlet's on a dry wall,
      the saturation humidity ratio at the wall temperature otherwise. */
  function WallHumidityRatio(p: Properties, a: HumidAir, wall: real, dry: bool): (x: real)
    ensures dry ==> x == a.humidityRatio
    ensures !dry ==> x == p.maxHumidityRatio(p.saturationPressure(wall), a.pressure)
  {
    if dry then a.humidityRatio
    else p.maxHumidityRatio(p.saturationPressure(wall), a.pressure)
  }

  /** Water mass balance of the coil: the vapour entering equals the vapour
      leaving plus the condensate. */
  lemma WaterBalanceCore(mda: real, s: ContactFlows, xWall: real, inX: real, outX: real, cond: real)
    requires s.direct + s.bypass == mda
    requires outX * mda == xWall * s.direct + inX * s.bypass
    requires s.direct * inX == s.direct * xWall + cond
    ensures mda * inX == mda * outX + cond
  {
    assert mda * inX == s.direct * inX + s.bypass * inX;
  }

  lemma NoCondensateKeepsRatio(mda: real, inX: real, outX: real, cond: real)
    requires mda != 0.0 && cond == 0.0 && mda * inX == mda * outX + cond
    ensures outX == inX
  {
    MulCancel(outX, inX, mda);
  }

  /** The coil outlet below the inlet temperature, given whether the wall is
      dry. */
  function CoilOutlet(c: Context, f: Flow, wall: real, outT: real, dry: bool): (r: Result<CoolingResult>)
    ensures r.Ok? ==>
              && r.value.pressure == f.air.pressure
              && r.value.outTemperature == outT
              && r.value.massFlowDa == f.dryAirMassFlow
              && r.value.condensateTemperature == wall
    ensures dry ==> r.Ok? && r.value.condensateFlow == 0.0
    ensures r.Err? ==> !dry && r.error == InvalidArgument
  {
    var pressure := f.air.pressure;
    var inX := f.air.humidityRatio;
    var mda := f.dryAirMassFlow;
    var s := SplitFlow(BypassFactor(wall, f.air.temperature, outT), mda);
    var xWall := WallHumidityRatio(c.props, f.air, wall, dry);
    var iWall := c.props.enthalpy(wall, xWall, pressure);
    var cond :- if dry then Ok(0.0) else CondensateDischarge(s.direct, inX, xWall);
    var heat := (s.direct * (iWall - Enthalpy(c.props, f.air)) + cond * c.props.waterEnthalpy(wall)) * 1000.0;
    var outX := Div(xWall * s.direct + inX * s.bypass, mda);
    Ok(CoolingResult(pressure, outT, outX, mda, heat, wall, cond))
  }

  /** The outlet humidity ratio and condensate of CoilOutlet, read off its
      definition. */
  lemma CoilOutletParts(c: Context, f: Flow, wall: real, outT: real, dry: bool, r: CoolingResult)
    requires CoilOutlet(c, f, wall, outT, dry) == Ok(r)
    ensures
      var s := SplitFlow(BypassFactor(wall, f.air.temperature, outT), f.dryAirMassFlow);
      var xWall := WallHumidityRatio(c.props, f.air, wall, dry);
      && r.outHumidityRatio
         == Div(xWall * s.direct + f.air.humidityRatio * s.bypass, f.dryAirMassFlow)
      && (dry ==> r.condensateFlow == 0.0 && xWall == f.air.humidityRatio)
      && (!dry ==> CondensateDischarge(s.direct, f.air.humidityRatio, xWall) == Ok(r.condensateFlow))
  {
  }

  /** Heat of process of the coil [W]: the air touching the wall is brought
      from the inlet enthalpy to the enthalpy of the wall state, and the
      condensate leaves with the enthalpy of water at the wall temperature. */
  lemma CoilHeat(c: Context, f: Flow, wall: real, outT: real, dry: bool, r: CoolingResult)
    requires CoilOutlet(c, f, wall, outT, dry) == Ok(r)
    ensures
      var s := SplitFlow(BypassFactor(wall, f.air.temperature, outT), f.dryAirMassFlow);
      var xWall := WallHumidityRatio(c.props, f.air, wall, dry);
      r.heatOfProcess
      == (s.direct * (c.props.enthalpy(wall, xWall, f.air.pressure) - Enthalpy(c.props, f.air))
          + r.condensateFlow * c.props.waterEnthalpy(wall)) * 1000.0
  {
  }

  /** The coil conserves water: the vapour entering equals the vapour
      leaving plus the condensate (bone-dry inlet air on a wet wall, which
      discharges no condensate, is the exception). */
  lemma CoilConservesWater(c: Context, f: Flow, wall: real, outT: real, dry: bool, r: CoolingResult)
    requires CoilOutlet(c, f, wall, outT, dry) == Ok(r)
    requires f.dryAirMassFlow != 0.0 && (dry || f.air.humidityRatio != 0.0)
    ensures f.dryAirMassFlow * f.air.humidityRatio
            == f.dryAirMassFlow * r.outHumidityRatio + r.condensateFlow
  {
    var s := SplitFlow(BypassFactor(wall, f.air.temperature, outT), f.dryAirMassFlow);
    var xWall := WallHumidityRatio(c.props, f.air, wall, dry);
    CoilOutletParts(c, f, wall, outT, dry, r);
    WaterBalanceCore(f.dryAirMassFlow, s, xWall, f.air.humidityRatio, r.outHumidityRatio, r.condensateFlow);
  }

  /** A dry wall leaves the humidity ratio of the flow unchanged. */
  lemma DryWallKeepsRatio(c: Context, f: Flow, wall: real, outT: real, r: CoolingResult)
    requires CoilOutlet(c, f, wall, outT, true) == Ok(r)
    requires f.dryAirMassFlow != 0.0
    ensures r.condensateFlow == 0.0 && r.outHumidityRatio == f.air.humidityRatio
  {
    CoilConservesWater(c, f, wall, outT, true, r);
    NoCondensateKeepsRatio(f.dryAirMassFlow, f.air.humidityRatio, r.outHumidityRatio, r.condensateFlow);
  }

  /** Real cooling coil at wall temperature `wall` bringing the flow to the
      outlet temperature `outT`. The outlet must not be warmer than the
      inlet; an unchanged temperature needs no heat and gives no condensate.
      Otherwise the inlet dew point decides whether the wall is dry. */
  function CoolingFromOutletTx(c: Context, f: Flow, wall: real, outT: real): (r: Result<CoolingResult>)
    ensures outT > f.air.temperature ==> r == Err(InvalidArgument)
    ensures outT == f.air.temperature ==>
              r == Ok(CoolingResult(f.air.pressure, outT, f.air.humidityRatio,
                                    f.dryAirMassFlow, 0.0, wall, 0.0))
    ensures outT < f.air.temperature && DewPoint(c.props, f.air).Err? ==>
              r == Err(DewPoint(c.props, f.air).error)
    ensures outT < f.air.temperature && DewPoint(c.props, f.air).Ok? ==>
              r == CoilOutlet(c, f, wall, outT, DryWall(c.props, f.air, wall))
    ensures r.Ok? ==>
              && r.value.pressure == f.air.pressure
              && r.value.outTemperature == outT
              && r.value.massFlowDa == f.dryAirMassFlow
              && r.value.condensateTemperature == wall
    ensures outT <= f.air.temperature && DryWall(c.props, f.air, wall) ==>
              r.Ok? && r.value.condensateFlow == 0.0
  {
    if outT > f.air.temperature then Err(InvalidArgument)
    else if outT == f.air.temperature then
      Ok(CoolingResult(f.air.pressure, outT, f.air.humidityRatio, f.dryAirMassFlow, 0.0, wall, 0.0))
    else
      var tdp :- DewPoint(c.props, f.air);
      CoilOutlet(c, f, wall, outT, AtLeast(wall, tdp))
  }

  /** Water mass balance of the real coil: the vapour the dry air brings in
      leaves as outlet vapour plus condensate. */
  lemma CoolingConservesWater(c: Context, f: Flow, wall: real, outT: real, r: CoolingResult)
    requires CoolingFromOutletTx(c, f, wall, outT) == Ok(r)
    requires f.dryAirMassFlow != 0.0
    requires f.air.humidityRatio != 0.0 || DryWall(c.props, f.air, wall)
    ensures f.dryAirMassFlow * f.air.humidityRatio
            == f.dryAirMassFlow * r.outHumidityRatio + r.condensateFlow
  {
    if outT != f.air.temperature {
      CoilConservesWater(c, f, wall, outT, DryWall(c.props, f.air, wall), r);
    }
  }

  /** A coil wall at or above the inlet dew point discharges no condensate
      and leaves the humidity ratio unchanged. */
  lemma NoCondensationOnDryWall(c: Context, f: Flow, wall: real, outT: real, r: CoolingResult)
    requires CoolingFromOutletTx(c, f, wall, outT) == Ok(r)
    requires f.dryAirMassFlow != 0.0 && DryWall(c.props, f.air, wall)
    ensures r.condensateFlow == 0.0 && r.outHumidityRatio == f.air.humidityRatio
  {
    if outT != f.air.temperature {
      DryWallKeepsRatio(c, f, wall, outT, r);
    }
  }

  /** With the moist-air equations, bone-dry air has 0 % relative humidity
      and a dew point of minus infinity, so every wall is dry for it. */
  lemma BoneDryAirMeetsDryWall(ce: Env, solve: BrentSolver, a: HumidAir, wall: real)
    requires a.humidityRatio == 0.0
    ensures DryWall(EquationProperties(ce, solve), a, wall)
  {
    var p := EquationProperties(ce, solve);
    assert RelHum(p, a) == RelativeHumidity(ce, a.temperature, 0.0, a.pressure) == 0.0;
    assert DewPoint(p, a) == DewPointTemperature(ce, solve, a.temperature, 0.0, a.pressure);
  }

  /** With the moist-air equations the real coil conserves water without
      exception: bone-dry air never meets a wet wall. */
  lemma EquationCoolingConservesWater(c: Context, ce: Env, solve: BrentSolver, f: Flow, wall: real,
                                      outT: real, r: CoolingResult)
    requires c.props == EquationProperties(ce, solve)
    requires CoolingFromOutletTx(c, f, wall, outT) == Ok(r)
    requires f.dryAirMassFlow != 0.0
    ensures f.dryAirMassFlow * f.air.humidityRatio
            == f.dryAirMassFlow * r.outHumidityRatio + r.condensateFlow
  {
    if f.air.humidityRatio == 0.0 {
      BoneDryAirMeetsDryWall(ce, solve, f.air, wall);
    }
    CoolingConservesWater(c, f, wall, outT, r);
  }

  /** Air leaving a wet wall is saturated at the wall temperature. */
  lemma WetWallAirIsSaturated(ce: Env, solve: BrentSolver, a: HumidAir, wall: real)
    requires a.pressure > ce.saturationPressure(wall)
    ensures RelativeHumidity(ce, wall, WallHumidityRatio(EquationProperties(ce, solve), a, wall, false),
                             a.pressure) == 100.0
  {
    MaxHumidityRatioIsSaturated(ce, wall, a.pressure);
  }

  /** The heat of the real coil below the inlet temperature. */
  lemma CoolingHeat(c: Context, f: Flow, wall: real, outT: real, r: CoolingResult)
    requires CoolingFromOutletTx(c, f, wall, outT) == Ok(r)
    requires outT < f.air.temperature
    ensures
      var s := SplitFlow(BypassFactor(wall, f.air.temperature, outT), f.dryAirMassFlow);
      var xWall := WallHumidityRatio(c.props, f.air, wall, DryWall(c.props, f.air, wall));
      r.heatOfProcess
      == (s.direct * (c.props.enthalpy(wall, xWall, f.air.pressure) - Enthalpy(c.props, f.air))
          + r.condensateFlow * c.props.waterEnthalpy(wall)) * 1000.0
  {
    CoilHeat(c, f, wall, outT, DryWall(c.props, f.air, wall), r);
  }

  /** Residual of the outlet relative humidity for a trial outlet temperature. */
  function OutletRHResidual(c: Context, f: Flow, wall: real, outRH: real): Residual
  {
    t => match CoolingFromOutletTx(c, f, wall, t)
         case Ok(r) => Ok(outRH - c.props.relativeHumidity(r.outTemperature, r.outHumidityRatio, f.air.pressure))
         case Err(e) => Err(e)
  }

  /** Real coil bringing the flow to the relative humidity `outRH` [%]. The
      target is checked against [0, 100], then against the inlet humidity
      (cooling cannot lower it), an unchanged humidity returns the inlet
      state, and only then is a target above 99 % rejected. The outlet
      temperature is searched between the inlet temperature and its dew
      point. */
  function CoolingFromOutletRH(c: Context, f: Flow, wall: real, outRH: real): (r: Result<CoolingResult>)
    ensures outRH > 100.0 || outRH < 0.0 || outRH < RelHum(c.props, f.air) ==> r == Err(InvalidArgument)
    ensures 0.0 <= outRH <= 100.0 && outRH == RelHum(c.props, f.air) ==>
              r == Ok(CoolingResult(f.air.pressure, f.air.temperature, f.air.humidityRatio,
                                    f.dryAirMassFlow, 0.0, wall, 0.0))
    ensures 99.0 < outRH <= 100.0 && outRH > RelHum(c.props, f.air) ==> r == Err(InvalidArgument)
    ensures r.Ok? && outRH != RelHum(c.props, f.air) ==>
              Abs(outRH - c.props.relativeHumidity(r.value.outTemperature, r.value.outHumidityRatio,
                                                   f.air.pressure)) <= DefaultTolerance
    ensures r.Ok? ==>
              && r.value.pressure == f.air.pressure
              && r.value.massFlowDa == f.dryAirMassFlow
              && r.value.condensateTemperature == wall
    ensures r.Ok? ==> r == CoolingFromOutletTx(c, f, wall, r.value.outTemperature)
  {
    var rh1 := RelHum(c.props, f.air);
    if outRH > 100.0 || outRH < 0.0 then Err(InvalidArgument)
    else if outRH < rh1 then Err(InvalidArgument)
    else if outRH == rh1 then
      Ok(CoolingResult(f.air.pressure, f.air.temperature, f.air.humidityRatio, f.dryAirMassFlow, 0.0, wall, 0.0))
    else if outRH > 99.0 then Err(InvalidArgument)
    else
      var tdp :- DewPoint(c.props, f.air);
      var t :- c.solve(OutletRHResidual(c, f, wall, outRH),
                       Setup(CounterpartPoints(Finite(f.air.temperature), tdp), DefaultTolerance));
      CoolingFromOutletTx(c, f, wall, t)
  }

  /** Residual of the heat of process for a trial outlet temperature. */
  function InputHeatResidual(c: Context, f: Flow, wall: real, q: real): Residual
  {
    t => match CoolingFromOutletTx(c, f, wall, t)
         case Ok(r) => Ok(r.heatOfProcess - q)
         case Err(e) => Err(e)
  }

  /** Real coil for a given (negative) cooling power `q` [W]. The outlet
      temperature is searched between the inlet temperature and the dry
      cooling outlet for the same power, the coldest the air can get. The
      zero-heat result the library builds first is never returned, so a zero
      power takes the same path. */
  function CoolingFromInputHeat(c: Context, f: Flow, wall: real, q: real): (r: Result<CoolingResult>)
    ensures !c.checks.negative(q) ==> r == Err(InvalidArgument)
    ensures r.Ok? ==> Abs(r.value.heatOfProcess - q) <= DefaultTolerance
    ensures r.Ok? ==>
              && r.value.pressure == f.air.pressure
              && r.value.massFlowDa == f.dryAirMassFlow
              && r.value.condensateTemperature == wall
    ensures r.Ok? ==> r == CoolingFromOutletTx(c, f, wall, r.value.outTemperature)
  {
    var dry :- DryCoolingFromInputHeat(c, f, q);
    var t :- c.solve(InputHeatResidual(c, f, wall, q), WithPoints(f.air.temperature, dry.outTemperature));
    CoolingFromOutletTx(c, f, wall, t)
  }

  /** The result of a dry cooling: the inlet humidity ratio and dry-air
      flow, no condensate, and a condensate temperature equal to the
      outlet temperature. */
  predicate DryResult(f: Flow, r: CoolingResult)
  {
    && r.pressure == f.air.pressure
    && r.outHumidityRatio == f.air.humidityRatio
    && r.massFlowDa == f.dryAirMassFlow
    && r.condensateFlow == 0.0
    && r.condensateTemperature == r.outTemperature
  }

  /** Dry cooling by the (negative) power `q` [W], computed as a heating. */
  function DryCoolingFromInputHeat(c: Context, f: Flow, q: real): (r: Result<CoolingResult>)
    ensures r.Err? && r.error == InvalidArgument <==> !c.checks.negative(q)
    ensures r.Ok? ==> DryResult(f, r.value) && r.value.heatOfProcess == q
    ensures r.Ok? && (q == 0.0 || MassFlow(f) == 0.0) ==> r.value.outTemperature == f.air.temperature
    ensures r.Ok? && q != 0.0 && MassFlow(f) != 0.0 ==>
              Balanced(f.dryAirMassFlow, Enthalpy(c.props, f.air), q,
                       c.props.enthalpy(r.value.outTemperature, f.air.humidityRatio, f.air.pressure))
  {
    if !c.checks.negative(q) then Err(InvalidArgument)
    else
      var h :- HeatingForInputHeat(c, f, q);
      Ok(CoolingResult(f.air.pressure, h.outTemperature, f.air.humidityRatio, f.dryAirMassFlow,
                       h.heatOfProcess, h.outTemperature, 0.0))
  }

  /** Dry cooling to the temperature `target` [°C], computed as a heating.
      The target must lie below the inlet temperature and must not lie below
      the inlet dew point; the heating it delegates to then applies its own
      check, that the target exceeds the inlet temperature. */
  function DryCoolingFromOutputTx(c: Context, f: Flow, target: real): (r: Result<CoolingResult>)
    ensures !c.checks.firstGreater(f.air.temperature, target) ==> r == Err(InvalidArgument)
    ensures (&& c.checks.firstGreater(f.air.temperature, target)
             && DewPoint(c.props, f.air).Ok?
             && Below(target, DewPoint(c.props, f.air).value)) ==> r == Err(InvalidArgument)
    ensures r.Ok? ==>
              && DryResult(f, r.value)
              && r.value.outTemperature == target
              && r.value.heatOfProcess
                 == (f.dryAirMassFlow * c.props.enthalpy(target, f.air.humidityRatio, f.air.pressure)
                     - f.dryAirMassFlow * Enthalpy(c.props, f.air)) * 1000.0
    ensures r.Ok? ==>
              && c.checks.firstGreater(f.air.temperature, target)
              && c.checks.firstGreater(target, f.air.temperature)
              && DewPoint(c.props, f.air).Ok? && AtLeast(target, DewPoint(c.props, f.air).value)
  {
    if !c.checks.firstGreater(f.air.temperature, target) then Err(InvalidArgument)
    else
      var tdp :- DewPoint(c.props, f.air);
      if Below(target, tdp) then Err(InvalidArgument)
      else
        var h :- HeatingForTargetTemp(c, f, target);
        Ok(CoolingResult(f.air.pressure, h.outTemperature, f.air.humidityRatio, f.dryAirMassFlow,
                         h.heatOfProcess, h.outTemperature, 0.0))
  }

  /** When the temperature check only accepts a first value at least as
      large as the second, dry cooling to a target below the inlet
      temperature always fails: the heating it delegates to rejects every
      target below the inlet. */
  lemma DryCoolingBelowInletFails(c: Context, f: Flow, target: real)
    requires forall a, b :: c.checks.firstGreater(a, b) ==> a >= b
    requires target < f.air.temperature
    ensures DryCoolingFromOutputTx(c, f, target).Err?
  {
  }

  /** The coil for a target relative humidity conserves water as the coil
      for an outlet temperature does. */
  lemma OutletRHConservesWater(c: Context, ce: Env, solve: BrentSolver, f: Flow, wall: real,
                               outRH: real, r: CoolingResult)
    requires c.props == EquationProperties(ce, solve)
    requires CoolingFromOutletRH(c, f, wall, outRH) == Ok(r)
    requires f.dryAirMassFlow != 0.0
    ensures f.dryAirMassFlow * f.air.humidityRatio
            == f.dryAirMassFlow * r.outHumidityRatio + r.condensateFlow
  {
    EquationCoolingConservesWater(c, ce, solve, f, wall, r.outTemperature, r);
  }

  /** The coil for a given power conserves water as the coil for an outlet
      temperature does. */
  lemma InputHeatConservesWater(c: Context, ce: Env, solve: BrentSolver, f: Flow, wall: real,
                                q: real, r: CoolingResult)
    requires c.props == EquationProperties(ce, solve)
    requires CoolingFromInputHeat(c, f, wall, q) == Ok(r)
    requires f.dryAirMassFlow != 0.0
    ensures f.dryAirMassFlow * f.air.humidityRatio
            == f.dryAirMassFlow * r.outHumidityRatio + r.condensateFlow
  {
    EquationCoolingConservesWater(c, ce, solve, f, wall, r.outTemperature, r);
  }
}
