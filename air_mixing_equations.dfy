/** Adiabatic mixing of humid-air flows, in the flow-object form of the
    library: the mixers take and return flows rather than air states and
    dry-air flows. */
module AirMixingEquations {
  import opened Numerics
  import opened Solver
  import opened RealAlgebra
  import opened Flows
  import opened MixingBalance

  /** The inlet and recirculation flows that were mixed, and the outlet. */
  datatype AirMixingResult = AirMixingResult(inletFlow: Flow, recirculationFlow: Flow, outletFlow: Flow)

  /** Mixes two flows. A zero inlet flow returns the recirculation flow
      itself, a zero recirculation or total flow the inlet flow itself;
      otherwise the two are blended by BlendFlows. Whenever the total flow
      is not zero, the outlet carries it and the water of both flows. */
  function MixTwoHumidAirFlows(c: Context, inlet: Flow, rec: Flow): (r: Result<Flow>)
    ensures inlet.dryAirMassFlow == 0.0 ==> r == Ok(rec)
    ensures inlet.dryAirMassFlow != 0.0
            && (rec.dryAirMassFlow == 0.0 || inlet.dryAirMassFlow + rec.dryAirMassFlow == 0.0) ==>
              r == Ok(inlet)
    ensures r.Err? ==> r.error == NotConverged
    ensures r.Ok? && inlet.dryAirMassFlow + rec.dryAirMassFlow != 0.0 ==>
              && r.value.dryAirMassFlow == inlet.dryAirMassFlow + rec.dryAirMassFlow
              && (inlet.dryAirMassFlow + rec.dryAirMassFlow) * r.value.air.humidityRatio
                 == inlet.dryAirMassFlow * inlet.air.humidityRatio + rec.dryAirMassFlow * rec.air.humidityRatio
    ensures inlet.dryAirMassFlow != 0.0 && rec.dryAirMassFlow != 0.0
            && inlet.dryAirMassFlow + rec.dryAirMassFlow != 0.0 ==>
              r == BlendFlows(c, inlet.air, inlet.dryAirMassFlow, rec.air, rec.dryAirMassFlow)
  {
    var mIn := inlet.dryAirMassFlow;
    var mRec := rec.dryAirMassFlow;
    var mOut := mIn + mRec;
    if mIn == 0.0 then
      assert mIn * inlet.air.humidityRatio == 0.0 && mOut == mRec;
      Ok(rec)
    else if mRec == 0.0 || mOut == 0.0 then
      assert mRec == 0.0 ==> mRec * rec.air.humidityRatio == 0.0 && mOut == mIn;
      Ok(inlet)
    else
      BlendFlows(c, inlet.air, mIn, rec.air, mRec)
  }

  /** The outlet of the air `a1` at dry-air flow `m1` mixed with `a2` at
      `m2`, both flows and their total non-zero: the pressure of `a1`, the
      total flow, the weighted mean humidity ratio, and the temperature of
      the weighted mean enthalpy. */
  function BlendFlows(c: Context, a1: HumidAir, m1: real, a2: HumidAir, m2: real): (r: Result<Flow>)
    requires m1 != 0.0 && m2 != 0.0 && m1 + m2 != 0.0
    ensures r.Err? ==> r.error == NotConverged
    ensures r.Ok? ==>
              && r.value.dryAirMassFlow == m1 + m2
              && (m1 + m2) * r.value.air.humidityRatio == m1 * a1.humidityRatio + m2 * a2.humidityRatio
              && r.value.air.pressure == a1.pressure
              && EnthalpyCarried(m1 + m2, m1 * Enthalpy(c.props, a1) + m2 * Enthalpy(c.props, a2),
                                 Enthalpy(c.props, r.value.air))
  {
    var xOut := Blend(m1, a1.humidityRatio, m2, a2.humidityRatio);
    var iOut := Div(m1 * Enthalpy(c.props, a1) + m2 * Enthalpy(c.props, a2), m1 + m2);
    var tOut :- c.props.dryBulbIX(iOut, xOut, a1.pressure);
    Ok(Flow(HumidAir(a1.pressure, tOut, xOut), m1 + m2))
  }

  /** Mixes the inlet flow with any number of recirculation flows: the
      outlet has the total dry-air flow, the flow-weighted mean humidity
      ratio and enthalpy and the highest pressure of the flows; a zero
      total flow is rejected. */
  method MixMultipleHumidAirFlows(c: Context, inlet: Flow, flows: seq<Flow>) returns (r: Result<Flow>)
    ensures TotalDryAir([inlet] + flows) == 0.0 ==> r == Err(InvalidArgument)
    ensures TotalDryAir([inlet] + flows) != 0.0 ==> r.Ok? || r == Err(NotConverged)
    ensures r.Ok? ==>
              && r.value.dryAirMassFlow == TotalDryAir([inlet] + flows)
              && r.value.air.pressure == MaxPressure([inlet] + flows)
              && r.value.air.humidityRatio * TotalDryAir([inlet] + flows) == WaterFlux([inlet] + flows)
              && EnthalpyCarried(TotalDryAir([inlet] + flows), EnthalpyFlux(c.props, [inlet] + flows),
                                 Enthalpy(c.props, r.value.air))
  {
    var mdaOut, xMda, iMda, pOut := AccumulateStreams(c.props, inlet, flows);
    if mdaOut == 0.0 {
      return Err(InvalidArgument);
    }
    var xOut := xMda / mdaOut;
    var iOut := iMda / mdaOut;
    var tOut := c.props.dryBulbIX(iOut, xOut, pOut);
    if tOut.Err? {
      return Err(tOut.error);
    }
    CarriedByInversion(mdaOut, iMda, iOut, c.props.enthalpy(tOut.value, xOut, pOut));
    r := Ok(Flow(HumidAir(pOut, tOut.value, xOut), mdaOut));
  }

  /** One solver trial as written: the inlet air at the flow `m` and the
      recirculation air at `targetMda - m`, both built from their humid-air
      mass flow, and their mix, which carries the sum of their dry-air
      flows. */
  function IterateByMassFlow(c: Context, a1: HumidAir, a2: HumidAir, targetMda: real, m: real)
    : (r: Result<AirMixingResult>)
    ensures r.Ok? ==>
              && MassFlowTrial(a1, a2, targetMda, m, r.value)
              && MixTwoHumidAirFlows(c, r.value.inletFlow, r.value.recirculationFlow) == Ok(r.value.outletFlow)
    ensures r.Ok? ==> MixesDryAir(r.value)
    ensures r.Err? ==> MixTwoHumidAirFlows(c, OfMassFlow(a1, m), OfMassFlow(a2, targetMda - m)).Err?
  {
    var fIn := OfMassFlow(a1, m);
    var fRec := OfMassFlow(a2, targetMda - m);
    var out :- MixTwoHumidAirFlows(c, fIn, fRec);
    Ok(AirMixingResult(fIn, fRec, out))
  }

  /** The streams of `t` are the airs `a1` at humid-air mass flow `m` and
      `a2` at `targetMda - m`. */
  predicate MassFlowTrial(a1: HumidAir, a2: HumidAir, targetMda: real, m: real, t: AirMixingResult)
  {
    t.inletFlow == OfMassFlow(a1, m) && t.recirculationFlow == OfMassFlow(a2, targetMda - m)
  }

  /** The outlet of `t` carries the dry-air flow of its two streams when
      that is not zero. */
  predicate MixesDryAir(t: AirMixingResult)
  {
    var sum := t.inletFlow.dryAirMassFlow + t.recirculationFlow.dryAirMassFlow;
    sum != 0.0 ==> t.outletFlow.dryAirMassFlow == sum
  }

  /** The humid-air mass flows of a trial's two streams add up to the
      target flow. */
  lemma MassFlowTrialSumsToTarget(a1: HumidAir, a2: HumidAir, targetMda: real, m: real, t: AirMixingResult)
    requires MassFlowTrial(a1, a2, targetMda, m, t)
    requires 1.0 + a1.humidityRatio != 0.0 && 1.0 + a2.humidityRatio != 0.0
    ensures MassFlow(t.inletFlow) + MassFlow(t.recirculationFlow) == targetMda
  {
  }

  /** For two airs of one humidity ratio `x > 0` the outlet of a trial has
      the dry-air flow `targetMda / (1 + x)`, not the target dry-air flow
      the extreme mixes are built for. */
  lemma MassFlowTrialMissesTarget(a1: HumidAir, a2: HumidAir, targetMda: real, m: real, t: AirMixingResult)
    requires MassFlowTrial(a1, a2, targetMda, m, t) && MixesDryAir(t)
    requires a1.humidityRatio == a2.humidityRatio && a1.humidityRatio > 0.0 && targetMda != 0.0
    ensures t.outletFlow.dryAirMassFlow * (1.0 + a1.humidityRatio) == targetMda
    ensures t.outletFlow.dryAirMassFlow != targetMda
  {
    var k := 1.0 + a1.humidityRatio;
    assert t.inletFlow.dryAirMassFlow == Div(m, k);
    assert t.recirculationFlow.dryAirMassFlow == Div(targetMda - m, k);
    DividedFlowsMissTarget(m, targetMda, k, t.outletFlow.dryAirMassFlow);
  }

  /** For any two humid airs (both `x > 0`) and a split `0 <= m <= targetMda`
      of a positive target, the outlet of a trial carries a positive dry-air
      flow strictly below the target: dividing each humid mass flow by its
      own `1 + x` removes the water from it. */
  lemma MassFlowTrialFallsShort(a1: HumidAir, a2: HumidAir, targetMda: real, m: real, t: AirMixingResult)
    requires MassFlowTrial(a1, a2, targetMda, m, t) && MixesDryAir(t)
    requires a1.humidityRatio > 0.0 && a2.humidityRatio > 0.0
    requires targetMda > 0.0 && 0.0 <= m <= targetMda
    ensures 0.0 < t.outletFlow.dryAirMassFlow < targetMda
  {
    assert t.inletFlow.dryAirMassFlow == Div(m, 1.0 + a1.humidityRatio);
    assert t.recirculationFlow.dryAirMassFlow == Div(targetMda - m, 1.0 + a2.humidityRatio);
    DividedAmountShrinks(m, 1.0 + a1.humidityRatio);
    DividedAmountShrinks(targetMda - m, 1.0 + a2.humidityRatio);
  }

  /** A non-negative amount divided by `k > 1` stays non-negative and does
      not grow; a positive one stays positive and shrinks strictly. */
  lemma DividedAmountShrinks(a: real, k: real)
    requires a >= 0.0 && k > 1.0
    ensures 0.0 <= Div(a, k) <= a
    ensures a > 0.0 ==> 0.0 < Div(a, k) < a
  {
    ShrinkCore(a, k, Div(a, k));
  }

  /** The real-number step of DividedAmountShrinks: `q * k == a` with `k > 1`. */
  lemma ShrinkCore(a: real, k: real, q: real)
    requires a >= 0.0 && k > 1.0 && q * k == a
    ensures 0.0 <= q <= a
    ensures a > 0.0 ==> 0.0 < q < a
  {
    if a == 0.0 {
      MulCancel(q, 0.0, k);
    } else {
      SignOfFactor(q, k);
      var d := k - 1.0;
      MulPositive(q, d);
      assert a - q == q * d;
    }
  }

  /** The amounts `m` and `targetMda - m` divided by the same `k > 1` add
      up to `targetMda / k`, which is not zero; so a flow `s` that equals
      their sum whenever the sum is not zero is `targetMda / k`, and that
      is not `targetMda`. */
  lemma DividedFlowsMissTarget(m: real, targetMda: real, k: real, s: real)
    requires k > 1.0 && targetMda != 0.0
    requires Div(m, k) + Div(targetMda - m, k) != 0.0 ==> s == Div(m, k) + Div(targetMda - m, k)
    ensures s * k == targetMda && s != targetMda
  {
    var q1 := Div(m, k);
    var q2 := Div(targetMda - m, k);
    assert (q1 + q2) * k == q1 * k + q2 * k;
    ScaledMisses(q1 + q2, k, targetMda);
  }

  /** A non-zero `t` scaled down by `k != 1` is neither zero nor `t`. */
  lemma ScaledMisses(s: real, k: real, t: real)
    requires k != 1.0 && t != 0.0 && s * k == t
    ensures s != 0.0 && s != t
  {
    if s == t {
      MulCancel(k, 1.0, s);
    }
  }

  /** Residual of the outlet temperature of a solver trial. */
  function AirMixResidual(c: Context, a1: HumidAir, a2: HumidAir, targetMda: real, targetT: real): Residual
  {
    m => match IterateByMassFlow(c, a1, a2, targetMda, m)
         case Ok(r) => Ok(targetT - r.outletFlow.air.temperature)
         case Err(e) => Err(e)
  }

  /** The choice between the extreme mixes `mixA` (inlet at its largest)
      and `mixB` (recirculation at its largest) for the target temperature
      `targetT`, reported with the caller's own inlet and recirculation
      flows; a target strictly between them is reached by the solver. */
  function ChooseAirMix(c: Context, inlet: Flow, rec: Flow, min1: real, targetMda: real, targetT: real,
                        mixA: Flow, mixB: Flow): (r: Result<AirMixingResult>)
    ensures mixA.air.temperature == mixB.air.temperature ==> r == Ok(AirMixingResult(inlet, rec, mixA))
    ensures targetT <= Min(mixA.air.temperature, mixB.air.temperature) ==>
              && (r == Ok(AirMixingResult(inlet, rec, mixA)) || r == Ok(AirMixingResult(inlet, rec, mixB)))
              && r.value.outletFlow.air.temperature == Min(mixA.air.temperature, mixB.air.temperature)
    ensures targetT >= Max(mixA.air.temperature, mixB.air.temperature) ==>
              && (r == Ok(AirMixingResult(inlet, rec, mixA)) || r == Ok(AirMixingResult(inlet, rec, mixB)))
              && r.value.outletFlow.air.temperature == Max(mixA.air.temperature, mixB.air.temperature)
    ensures r.Ok? && Min(mixA.air.temperature, mixB.air.temperature) < targetT
                  < Max(mixA.air.temperature, mixB.air.temperature) ==>
              && Abs(targetT - r.value.outletFlow.air.temperature) <= DefaultTolerance
              && (1.0 + inlet.air.humidityRatio != 0.0 && 1.0 + rec.air.humidityRatio != 0.0 ==>
                    MassFlow(r.value.inletFlow) + MassFlow(r.value.recirculationFlow) == targetMda)
  {
    var tA := mixA.air.temperature;
    var tB := mixB.air.temperature;
    if AtOrBeyond(tA, tB, targetT) then Ok(AirMixingResult(inlet, rec, mixA))
    else if AtOrBeyond(tB, tA, targetT) then Ok(AirMixingResult(inlet, rec, mixB))
    else
      var residual := AirMixResidual(c, inlet.air, rec.air, targetMda, targetT);
      var m :- c.solve(residual, WithPoints(min1, targetMda));
      var r := IterateByMassFlow(c, inlet.air, rec.air, targetMda, m);
      assert r.Ok? ==> residual(m) == Ok(targetT - r.value.outletFlow.air.temperature);
      if r.Ok? && 1.0 + inlet.air.humidityRatio != 0.0 && 1.0 + rec.air.humidityRatio != 0.0 then
        MassFlowTrialSumsToTarget(inlet.air, rec.air, targetMda, m, r.value);
        r
      else r
  }

  /** Mixes the inlet and recirculation flows to the outlet dry-air flow
      `targetMda` and, as far as the floors `min1`, `min2` allow, the
      outlet temperature `targetT`. A zero target with zero floors is
      rejected; floors above the target give the mix of the flows as they
      are; otherwise the extreme mixes are computed and ChooseAirMix picks
      the result. */
  function MixTwoHumidAirFlowsForTargetOutTemp(c: Context, inlet: Flow, rec: Flow, min1: real, min2: real,
                                               targetMda: real, targetT: real): (r: Result<AirMixingResult>)
    ensures min1 + min2 == 0.0 && targetMda == 0.0 ==> r == Err(InvalidArgument)
    ensures !(min1 + min2 == 0.0 && targetMda == 0.0) && min1 + min2 > targetMda ==>
              match MixTwoHumidAirFlows(c, inlet, rec)
              case Ok(out) => r == Ok(AirMixingResult(inlet, rec, out))
              case Err(e) => r == Err(e)
    ensures !(min1 + min2 == 0.0 && targetMda == 0.0) && min1 + min2 <= targetMda ==>
              match MixTwoHumidAirFlows(c, Flow(inlet.air, targetMda - min2), Flow(rec.air, min2))
              case Err(e) => r == Err(e)
              case Ok(mixA) =>
                match MixTwoHumidAirFlows(c, Flow(inlet.air, min1), Flow(rec.air, targetMda - min1))
                case Err(e) => r == Err(e)
                case Ok(mixB) => r == ChooseAirMix(c, inlet, rec, min1, targetMda, targetT, mixA, mixB)
  {
    var minSum := min1 + min2;
    if minSum == 0.0 && targetMda == 0.0 then Err(InvalidArgument)
    else if minSum > targetMda then
      var out :- MixTwoHumidAirFlows(c, inlet, rec);
      Ok(AirMixingResult(inlet, rec, out))
    else
      var mixA :- MixTwoHumidAirFlows(c, Flow(inlet.air, targetMda - min2), Flow(rec.air, min2));
      var mixB :- MixTwoHumidAirFlows(c, Flow(inlet.air, min1), Flow(rec.air, targetMda - min1));
      ChooseAirMix(c, inlet, rec, min1, targetMda, targetT, mixA, mixB)
  }
}
