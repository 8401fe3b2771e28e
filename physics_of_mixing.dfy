/** Adiabatic mixing of humid-air streams given as air states with their
    dry-air flows: two streams, any number of streams, and two streams
    proportioned to reach a target outlet temperature. */
module PhysicsOfMixing {
  import opened Numerics
  import opened Solver
  import opened Flows
  import opened MixingBalance

  /** Outlet state of a two-stream mix with the dry-air flows [kg/s] of
      the outlet and of the two inlets. */
  datatype MixingResult = MixingResult(
    pressure: real, outTemperature: real, outHumidityRatio: real,
    outDryAirMassFlow: real, inDryAirMassFlow: real, recDryAirMassFlow: real)

  /** Outlet state of an N-stream mix and its dry-air flow [kg/s]. */
  datatype BasicResult = BasicResult(
    pressure: real, outTemperature: real, outHumidityRatio: real, outDryAirMassFlow: real)

  /** Mixes the air `a1` with dry-air flow `m1` and the air `a2` with `m2`.
      The outlet keeps the pressure of the first air; a zero first flow
      gives the second air's state, a zero second or total flow the
      first's; otherwise the humidity ratio and enthalpy are the flow-weighted
      means and the temperature is found from them. */
  function MixTwoHumidGasFlows(c: Context, a1: HumidAir, m1: real, a2: HumidAir, m2: real)
    : (r: Result<MixingResult>)
    ensures !c.checks.positive(m1) || !c.checks.positive(m2) ==> r == Err(InvalidArgument)
    ensures r.Err? ==> r.error == InvalidArgument || r.error == NotConverged
    ensures r.Ok? ==>
              && r.value.pressure == a1.pressure
              && r.value.outDryAirMassFlow == m1 + m2
              && r.value.inDryAirMassFlow == m1
              && r.value.recDryAirMassFlow == m2
    ensures r.Ok? && m1 == 0.0 ==>
              r.value.outTemperature == a2.temperature && r.value.outHumidityRatio == a2.humidityRatio
    ensures r.Ok? && m1 != 0.0 && (m2 == 0.0 || m1 + m2 == 0.0) ==>
              r.value.outTemperature == a1.temperature && r.value.outHumidityRatio == a1.humidityRatio
    ensures r.Ok? && m1 + m2 != 0.0 ==>
              (m1 + m2) * r.value.outHumidityRatio == m1 * a1.humidityRatio + m2 * a2.humidityRatio
    ensures r.Ok? && m1 != 0.0 && m2 != 0.0 && m1 + m2 != 0.0 ==>
              EnthalpyCarried(m1 + m2, m1 * Enthalpy(c.props, a1) + m2 * Enthalpy(c.props, a2),
                              c.props.enthalpy(r.value.outTemperature, r.value.outHumidityRatio, a1.pressure))
  {
    if !c.checks.positive(m1) || !c.checks.positive(m2) then Err(InvalidArgument)
    else
      var out := m1 + m2;
      if m1 == 0.0 then
        Ok(MixingResult(a1.pressure, a2.temperature, a2.humidityRatio, m2, m1, m2))
      else if m2 == 0.0 || out == 0.0 then
        Ok(MixingResult(a1.pressure, a1.temperature, a1.humidityRatio, out, m1, m2))
      else
        var x3 := Blend(m1, a1.humidityRatio, m2, a2.humidityRatio);
        var i3 := Div(m1 * Enthalpy(c.props, a1) + m2 * Enthalpy(c.props, a2), out);
        var t3 :- c.props.dryBulbIX(i3, x3, a1.pressure);
        Ok(MixingResult(a1.pressure, t3, x3, out, m1, m2))
  }

  /** Mixes the inlet flow with any number of recirculation flows. The
      outlet has the total dry-air flow, the flow-weighted mean humidity
      ratio and enthalpy, and the highest pressure of the streams; a zero
      total flow is rejected. */
  method MixMultipleHumidGasFlows(c: Context, inlet: Flow, flows: seq<Flow>) returns (r: Result<BasicResult>)
    ensures TotalDryAir([inlet] + flows) == 0.0 ==> r == Err(InvalidArgument)
    ensures TotalDryAir([inlet] + flows) != 0.0 ==> r.Ok? || r == Err(NotConverged)
    ensures r.Ok? ==>
              && r.value.outDryAirMassFlow == TotalDryAir([inlet] + flows)
              && r.value.pressure == MaxPressure([inlet] + flows)
              && r.value.outHumidityRatio * TotalDryAir([inlet] + flows) == WaterFlux([inlet] + flows)
              && EnthalpyCarried(TotalDryAir([inlet] + flows), EnthalpyFlux(c.props, [inlet] + flows),
                                 c.props.enthalpy(r.value.outTemperature, r.value.outHumidityRatio,
                                                  r.value.pressure))
  {
    var mda3, xMda, iMda, pressure := AccumulateStreams(c.props, inlet, flows);
    if mda3 == 0.0 {
      return Err(InvalidArgument);
    }
    var x3 := xMda / mda3;
    var i3 := iMda / mda3;
    var t3 := c.props.dryBulbIX(i3, x3, pressure);
    if t3.Err? {
      return Err(t3.error);
    }
    CarriedByInversion(mda3, iMda, i3, c.props.enthalpy(t3.value, x3, pressure));
    r := Ok(BasicResult(pressure, t3.value, x3, mda3));
  }

  /** Residual of the outlet temperature when the first stream carries
      `m` of the target outlet flow and the second stream the rest. */
  function MixResidual(c: Context, a1: HumidAir, a2: HumidAir, targetMda: real, targetT: real): Residual
  {
    m => match MixTwoHumidGasFlows(c, a1, m, a2, targetMda - m)
         case Ok(r) => Ok(targetT - r.outTemperature)
         case Err(e) => Err(e)
  }

  /** The choice between the two extreme mixes `mixA` (first stream at its
      largest) and `mixB` (second stream at its largest) for the target
      temperature `targetT`: a target at or beyond one extreme gives that
      extreme, the first one winning ties; a target strictly between them
      is reached by the solver over the first stream's flow, the second
      making up the target flow `targetMda`. */
  function ChooseMix(c: Context, a1: HumidAir, a2: HumidAir, min1: real, targetMda: real, targetT: real,
                     mixA: MixingResult, mixB: MixingResult): (r: Result<MixingResult>)
    ensures mixA.outTemperature == mixB.outTemperature ==> r == Ok(mixA)
    ensures targetT <= Min(mixA.outTemperature, mixB.outTemperature) ==>
              (r == Ok(mixA) || r == Ok(mixB))
              && r.value.outTemperature == Min(mixA.outTemperature, mixB.outTemperature)
    ensures targetT >= Max(mixA.outTemperature, mixB.outTemperature) ==>
              (r == Ok(mixA) || r == Ok(mixB))
              && r.value.outTemperature == Max(mixA.outTemperature, mixB.outTemperature)
    ensures r.Ok? && Min(mixA.outTemperature, mixB.outTemperature) < targetT
                  < Max(mixA.outTemperature, mixB.outTemperature) ==>
              && Abs(targetT - r.value.outTemperature) <= DefaultTolerance
              && r.value.inDryAirMassFlow + r.value.recDryAirMassFlow == targetMda
              && r.value.pressure == a1.pressure
  {
    var tA := mixA.outTemperature;
    var tB := mixB.outTemperature;
    if AtOrBeyond(tA, tB, targetT) then Ok(mixA)
    else if AtOrBeyond(tB, tA, targetT) then Ok(mixB)
    else
      var residual := MixResidual(c, a1, a2, targetMda, targetT);
      var m :- c.solve(residual, WithPoints(min1, targetMda));
      var r := MixTwoHumidGasFlows(c, a1, m, a2, targetMda - m);
      assert r.Ok? ==> residual(m) == Ok(targetT - r.value.outTemperature);
      r
  }

  /** Mixes the inlet and recirculation airs to the outlet dry-air flow
      `targetMda` and, as far as the floors `min1`, `min2` on the two
      streams allow, the outlet temperature `targetT`. Floors above the
      target flow give the mix of the floors; otherwise the two extreme
      mixes (one stream at its floor, the other making up the target flow)
      are computed and ChooseMix picks the result. */
  function MixingFromOutTxOutMda(c: Context, inlet: Flow, rec: Flow, min1: real, min2: real,
                                 targetMda: real, targetT: real): (r: Result<MixingResult>)
    ensures !c.checks.positive(targetMda) ==> r == Err(InvalidArgument)
    ensures min1 + min2 == 0.0 && targetMda == 0.0 ==> r == Err(InvalidArgument)
    ensures c.checks.positive(targetMda) && min1 + min2 > targetMda ==>
              r == MixTwoHumidGasFlows(c, inlet.air, min1, rec.air, min2)
    ensures r.Ok? && min1 + min2 > targetMda ==>
              r.value.inDryAirMassFlow == min1 && r.value.recDryAirMassFlow == min2
    ensures r.Ok? && min1 + min2 <= targetMda ==>
              r.value.inDryAirMassFlow + r.value.recDryAirMassFlow == targetMda
    ensures r.Ok? ==> r.value.pressure == inlet.air.pressure
    ensures c.checks.positive(targetMda) && !(min1 + min2 == 0.0 && targetMda == 0.0)
            && min1 + min2 <= targetMda ==>
              match MixTwoHumidGasFlows(c, inlet.air, targetMda - min2, rec.air, min2)
              case Err(e) => r == Err(e)
              case Ok(mixA) =>
                match MixTwoHumidGasFlows(c, inlet.air, min1, rec.air, targetMda - min1)
                case Err(e) => r == Err(e)
                case Ok(mixB) => r == ChooseMix(c, inlet.air, rec.air, min1, targetMda, targetT, mixA, mixB)
  {
    var a1 := inlet.air;
    var a2 := rec.air;
    if !c.checks.positive(targetMda) then Err(InvalidArgument)
    else
      var minSum := min1 + min2;
      if minSum == 0.0 && targetMda == 0.0 then Err(InvalidArgument)
      else if minSum > targetMda then MixTwoHumidGasFlows(c, a1, min1, a2, min2)
      else
        var mixA :- MixTwoHumidGasFlows(c, a1, targetMda - min2, a2, min2);
        var mixB :- MixTwoHumidGasFlows(c, a1, min1, a2, targetMda - min1);
        ChooseMix(c, a1, a2, min1, targetMda, targetT, mixA, mixB)
  }
}
