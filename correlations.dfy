/** The elementary functions of `java.lang.Math` and the single-substance
    correlations (dry air, water vapour, liquid water, ice) the moist-air
    equations are built from. Their numeric values are not part of this model:
    each one is a field of `Correlations`, and `Env` keeps only the laws the
    proofs need. */
module Correlations {

  datatype Correlations = Correlations(
    // java.lang.Math
    exp: real -> real,
    log: real -> real,
    pow: (real, real) -> real,
    sqrt: real -> real,
    atan: real -> real,
    // DryAirEquations
    dryAirMolarMass: real,
    dryAirSutherland: real,
    dryAirDensity: (real, real) -> real,   // (ta, Pat)
    dryAirSpecificHeat: real -> real,
    dryAirEnthalpy: real -> real,
    dryAirViscosity: real -> real,
    dryAirConductivity: real -> real,
    // WaterVapourEquations
    vapourMolarMass: real,
    vapourSutherland: real,
    vapourSpecificHeat: real -> real,
    vapourEnthalpy: real -> real,
    vapourViscosity: real -> real,
    vapourConductivity: real -> real,
    // LiquidWaterEquations and IceEquations
    waterEnthalpy: real -> real,
    iceEnthalpy: real -> real,
    // the converged value of HumidAirEquations.saturationPressure(ta)
    saturationPressure: real -> real)

  /** The laws the proofs use: exp(0) = 1, positive molar masses and a
      positive saturation pressure at every temperature. */
  ghost predicate Lawful(c: Correlations)
  {
    && c.exp(0.0) == 1.0
    && c.dryAirMolarMass > 0.0
    && c.vapourMolarMass > 0.0
    && forall t :: c.saturationPressure(t) > 0.0
  }

  type Env = c: Correlations | Lawful(c)
    witness Correlations(
      t => 1.0, t => 0.0, (a, b) => 1.0, t => 1.0, t => 0.0,
      28.96546, 113.0, (t, p) => 1.2, t => 1.0, t => 0.0, t => 0.0, t => 0.0,
      18.01528, 650.0, t => 1.9, t => 2500.0, t => 0.0, t => 0.0,
      t => 0.0, t => 0.0,
      t => 611.0)
}
