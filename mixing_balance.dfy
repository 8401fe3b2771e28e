/** Mass and energy balance of adiabatic mixing. Mixed air carries the
    dry-air flow of its streams, and the flow-weighted means of their
    humidity ratios and enthalpies; the outlet pressure of an N-stream mix
    is the highest inlet pressure. */
module MixingBalance {
  import opened Numerics
  import opened Solver
  import opened RealAlgebra
  import opened Flows

  /** Flow-weighted mean of the values `v1`, `v2` carried by the dry-air
      flows `m1`, `m2`. */
  function Blend(m1: real, v1: real, m2: real, v2: real): (v: real)
    ensures m1 + m2 != 0.0 ==> (m1 + m2) * v == m1 * v1 + m2 * v2
    ensures m1 >= 0.0 && m2 >= 0.0 && m1 + m2 > 0.0 && v1 <= v2 ==> v1 <= v <= v2
    ensures m1 >= 0.0 && m2 >= 0.0 && m1 + m2 > 0.0 && v2 <= v1 ==> v2 <= v <= v1
  {
    var v := Div(m1 * v1 + m2 * v2, m1 + m2);
    if m1 >= 0.0 && m2 >= 0.0 && m1 + m2 > 0.0 then
      BlendBetween(m1, v1, m2, v2, v);
      BlendBetween(m2, v2, m1, v1, v);
      v
    else v
  }

  lemma BlendBetween(m1: real, v1: real, m2: real, v2: real, v: real)
    requires m1 >= 0.0 && m2 >= 0.0 && m1 + m2 > 0.0
    requires v * (m1 + m2) == m1 * v1 + m2 * v2
    ensures v1 <= v2 ==> v1 <= v <= v2
  {
    if v1 <= v2 {
      MulLeMonotone(v1, v2, m2);
      MulLeMonotone(v1, v2, m1);
      assert v1 * (m1 + m2) <= v * (m1 + m2);
      assert v * (m1 + m2) <= v2 * (m1 + m2);
      MulLeCancel(v1, v, m1 + m2);
      MulLeCancel(v, v2, m1 + m2);
    }
  }

  /** The outlet enthalpy `h` [kJ/kg] carries the enthalpy flux `e` of the
      dry-air flow `m`: it is the mean enthalpy `e / m` up to the tolerance
      of the temperature inversion. */
  predicate EnthalpyCarried(m: real, e: real, h: real)
  {
    Abs(Div(e, m) - h) <= DefaultTolerance
  }

  /** Enthalpy carried by a non-zero flow balances the flux: the outlet
      flow times its enthalpy differs from the flux by at most the flow
      times the tolerance. A corollary for callers of the mixers, whose
      contracts state `EnthalpyCarried`; no member here needs it. */
  lemma CarriedBalancesFlux(m: real, e: real, h: real)
    requires m != 0.0 && EnthalpyCarried(m, e, h)
    ensures Abs(e - m * h) <= Abs(m) * DefaultTolerance
  {
    var i := Div(e, m);
    AbsScale(m, i - h, DefaultTolerance);
    assert m * (i - h) == e - m * h;
  }

  /** The mean enthalpy `i` of the flux `e` over a non-zero flow `m`,
      inverted to a temperature whose enthalpy `h` is within tolerance of
      `i`, carries `e`. */
  lemma CarriedByInversion(m: real, e: real, i: real, h: real)
    requires m != 0.0 && i * m == e
    requires Abs(i - h) <= DefaultTolerance
    ensures EnthalpyCarried(m, e, h)
  {
    MulCancel(Div(e, m), i, m);
  }

  /** Whether the target temperature `t` lies at or beyond the extreme
      temperature `tA` on the side away from the other extreme `tB`. */
  predicate AtOrBeyond(tA: real, tB: real, t: real)
  {
    (tA <= tB && t <= tA) || (tA >= tB && t >= tA)
  }

  /** Total dry-air flow of the streams [kg/s]. */
  function TotalDryAir(fs: seq<Flow>): real
  {
    if |fs| == 0 then 0.0
    else TotalDryAir(fs[..|fs| - 1]) + fs[|fs| - 1].dryAirMassFlow
  }

  /** Water vapour flux of the streams [kg/s]. */
  function WaterFlux(fs: seq<Flow>): real
  {
    if |fs| == 0 then 0.0
    else WaterFlux(fs[..|fs| - 1]) + fs[|fs| - 1].dryAirMassFlow * fs[|fs| - 1].air.humidityRatio
  }

  /** Enthalpy flux of the streams [kW]. */
  function EnthalpyFlux(p: Properties, fs: seq<Flow>): real
  {
    if |fs| == 0 then 0.0
    else EnthalpyFlux(p, fs[..|fs| - 1]) + fs[|fs| - 1].dryAirMassFlow * Enthalpy(p, fs[|fs| - 1].air)
  }

  /** Highest pressure among the streams [Pa]. */
  function MaxPressure(fs: seq<Flow>): real
    requires |fs| > 0
  {
    if |fs| == 1 then fs[0].air.pressure
    else Max(MaxPressure(fs[..|fs| - 1]), fs[|fs| - 1].air.pressure)
  }

  /** No stream has a pressure above MaxPressure, and one stream has it. */
  lemma {:induction false} MaxPressureIsMaximum(fs: seq<Flow>)
    requires |fs| > 0
    ensures forall k :: 0 <= k < |fs| ==> fs[k].air.pressure <= MaxPressure(fs)
    ensures exists k :: 0 <= k < |fs| && fs[k].air.pressure == MaxPressure(fs)
  {
    if |fs| > 1 {
      var front := fs[..|fs| - 1];
      MaxPressureIsMaximum(front);
      var j :| 0 <= j < |front| && front[j].air.pressure == MaxPressure(front);
      forall k | 0 <= k < |fs|
        ensures fs[k].air.pressure <= MaxPressure(fs)
      {
        if k < |fs| - 1 {
          assert fs[k] == front[k];
        }
      }
      if MaxPressure(fs) == MaxPressure(front) {
        assert fs[j] == front[j];
      } else {
        assert fs[|fs| - 1].air.pressure == MaxPressure(fs);
      }
    } else {
      assert fs[0].air.pressure == MaxPressure(fs);
    }
  }

  /** Streams of non-negative flow whose humidity ratios lie in [lo, hi]
      carry a water flux between `lo` and `hi` times their dry-air flow. */
  lemma {:induction false} WaterFluxBounds(fs: seq<Flow>, lo: real, hi: real)
    requires forall k :: 0 <= k < |fs| ==> fs[k].dryAirMassFlow >= 0.0
    requires forall k :: 0 <= k < |fs| ==> lo <= fs[k].air.humidityRatio <= hi
    ensures lo * TotalDryAir(fs) <= WaterFlux(fs) <= hi * TotalDryAir(fs)
  {
    if |fs| > 0 {
      var front := fs[..|fs| - 1];
      var last := fs[|fs| - 1];
      assert forall k :: 0 <= k < |front| ==> front[k] == fs[k];
      WaterFluxBounds(front, lo, hi);
      var m := last.dryAirMassFlow;
      var x := last.air.humidityRatio;
      assert TotalDryAir(fs) == TotalDryAir(front) + m;
      assert WaterFlux(fs) == WaterFlux(front) + m * x;
      BoundsStep(lo, hi, TotalDryAir(front), WaterFlux(front), m, x);
    }
  }

  /** One more stream of flow `m >= 0` and humidity ratio `x` in [lo, hi]
      keeps the water flux `w` within `lo` and `hi` times the flow `t`. */
  lemma BoundsStep(lo: real, hi: real, t: real, w: real, m: real, x: real)
    requires lo * t <= w <= hi * t
    requires m >= 0.0 && lo <= x <= hi
    ensures lo * (t + m) <= w + m * x <= hi * (t + m)
  {
    MulLeMonotone(lo, x, m);
    MulLeMonotone(x, hi, m);
    assert lo * (t + m) == lo * t + lo * m;
    assert hi * (t + m) == hi * t + hi * m;
  }

  /** The mixed humidity ratio of streams of non-negative flow lies between
      the driest and the wettest stream; streams of one humidity ratio mix
      to that humidity ratio. */
  lemma MixedRatioBetween(fs: seq<Flow>, lo: real, hi: real, x: real)
    requires forall k :: 0 <= k < |fs| ==> fs[k].dryAirMassFlow >= 0.0
    requires forall k :: 0 <= k < |fs| ==> lo <= fs[k].air.humidityRatio <= hi
    requires TotalDryAir(fs) > 0.0 && x * TotalDryAir(fs) == WaterFlux(fs)
    ensures lo <= x <= hi
  {
    WaterFluxBounds(fs, lo, hi);
    RatioBetween(lo, hi, TotalDryAir(fs), WaterFlux(fs), x);
  }

  /** A ratio `x` of the flux `w` to a positive flow `t` lies in [lo, hi]
      when the flux lies between `lo` and `hi` times the flow. */
  lemma RatioBetween(lo: real, hi: real, t: real, w: real, x: real)
    requires t > 0.0 && lo * t <= w <= hi * t && x * t == w
    ensures lo <= x <= hi
  {
    MulLeCancel(lo, x, t);
    MulLeCancel(x, hi, t);
  }

  /** For two streams the N-stream totals are the two-stream sums. */
  lemma TwoStreamTotals(p: Properties, a: Flow, b: Flow)
    ensures TotalDryAir([a, b]) == a.dryAirMassFlow + b.dryAirMassFlow
    ensures WaterFlux([a, b]) == a.dryAirMassFlow * a.air.humidityRatio + b.dryAirMassFlow * b.air.humidityRatio
    ensures EnthalpyFlux(p, [a, b]) == a.dryAirMassFlow * Enthalpy(p, a.air) + b.dryAirMassFlow * Enthalpy(p, b.air)
    ensures MaxPressure([a, b]) == Max(a.air.pressure, b.air.pressure)
  {
    assert [a, b][..1] == [a];
    assert [a][..0] == [];
    assert TotalDryAir([a]) == a.dryAirMassFlow;
    assert WaterFlux([a]) == a.dryAirMassFlow * a.air.humidityRatio;
    assert EnthalpyFlux(p, [a]) == a.dryAirMassFlow * Enthalpy(p, a.air);
  }

  /** An outlet that carries the pairwise water and enthalpy of two streams,
      as `MixTwoHumidGasFlows` promises, carries their N-stream totals, as
      `MixMultipleHumidGasFlows` promises: the two mixers keep the same
      balances (only the outlet pressure differs: the first stream's against
      the highest). */
  lemma PairCarriesTotals(p: Properties, a: Flow, b: Flow, x: real, h: real)
    requires (a.dryAirMassFlow + b.dryAirMassFlow) * x
             == a.dryAirMassFlow * a.air.humidityRatio + b.dryAirMassFlow * b.air.humidityRatio
    requires a.dryAirMassFlow + b.dryAirMassFlow != 0.0
    requires EnthalpyCarried(a.dryAirMassFlow + b.dryAirMassFlow,
                             a.dryAirMassFlow * Enthalpy(p, a.air) + b.dryAirMassFlow * Enthalpy(p, b.air), h)
    ensures TotalDryAir([a, b]) == a.dryAirMassFlow + b.dryAirMassFlow
    ensures x * TotalDryAir([a, b]) == WaterFlux([a, b])
    ensures EnthalpyCarried(TotalDryAir([a, b]), EnthalpyFlux(p, [a, b]), h)
  {
    TwoStreamTotals(p, a, b);
  }

  /** The accumulation loop shared by both N-stream mixers: starting from
      the inlet stream, it adds up the dry-air flow, the water and enthalpy
      fluxes and keeps the highest pressure of the streams. */
  method AccumulateStreams(p: Properties, inlet: Flow, flows: seq<Flow>)
    returns (mda: real, xMda: real, iMda: real, pressure: real)
    ensures mda == TotalDryAir([inlet] + flows)
    ensures xMda == WaterFlux([inlet] + flows)
    ensures iMda == EnthalpyFlux(p, [inlet] + flows)
    ensures pressure == MaxPressure([inlet] + flows)
  {
    var all := [inlet] + flows;
    assert all[..1] == [inlet] && [inlet][..0] == [];
    mda := inlet.dryAirMassFlow;
    xMda := mda * inlet.air.humidityRatio;
    iMda := mda * Enthalpy(p, inlet.air);
    pressure := inlet.air.pressure;
    var k := 0;
    while k < |flows|
      invariant 0 <= k <= |flows|
      invariant mda == TotalDryAir(all[..k + 1])
      invariant xMda == WaterFlux(all[..k + 1])
      invariant iMda == EnthalpyFlux(p, all[..k + 1])
      invariant pressure == MaxPressure(all[..k + 1])
    {
      var f := flows[k];
      assert all[..k + 2][..k + 1] == all[..k + 1] && all[k + 1] == f;
      mda := mda + f.dryAirMassFlow;
      xMda := xMda + f.dryAirMassFlow * f.air.humidityRatio;
      iMda := iMda + f.dryAirMassFlow * Enthalpy(p, f.air);
      pressure := Max(pressure, f.air.pressure);
      k := k + 1;
    }
    assert all[..|flows| + 1] == all;
  }
}
