# Dew-Point psychrometrics and air-process calculators in Dafny

This project models the computational core of the Dew-Point HVAC library:
- **The moist-air equations** (`HumidAirEquations`). They give saturation pressure, humidity ratio, relative humidity, dew-point and wet-bulb temperature, enthalpy, transport properties, and the inverse dry-bulb temperature solvers.
- **The process calculators** built on those equations:
  - heating (`PhysicsOfHeating`);
  - dry and real-coil cooling (`PhysicsOfCooling`);
  - adiabatic mixing of two or more flows, in the state-and-flow form (`PhysicsOfMixing`) and in the flow-object form (`AirMixingEquations`).

Layout, one module per file:
- `numerics.dfy`: reals standing in for doubles. Division is total (`Div`), with extended reals for the infinite dew point. Results are `Ok` or `Err(InvalidArgument | NotConverged)`; the library's exceptions become the error cases.
- `brent_solver.dfy`: the root finder as an oracle. A returned root meets the residual within the tolerance of its set-up (1e-7 unless a caller sets another), or the solver reports non-convergence.
- `correlations.dfy`: the substance correlations (dry air, vapour, water, ice, exponential) the equations call, as function-valued parameters with the few laws the proofs need.
- `real_algebra.dfy`: small facts about products and absolute values.
- `humid_air_equations.dfy`: the equations, each with the property the library relies on.
- `humid_air_properties.dfy`: round trips between humidity ratio, relative humidity and saturation pressure, saturation bounds and the fog enthalpy.
- `flows.dfy`: humid-air states, flows, the argument checks and the property functions the calculators read. It also proves that the moist-air equations provide what the calculators assume.
- `mixing_balance.dfy`: mass, water and enthalpy balances shared by the mixers. This includes the accumulation loop over many flows, a method proved against its sums.
- `physics_of_heating.dfy`, `physics_of_cooling.dfy`, `physics_of_mixing.dfy`, `air_mixing_equations.dfy`: the calculators and their lemmas.

Behaviours of the library that the model keeps as they are:
- **Dry cooling to a target temperature** (`PhysicsOfCooling.DryCoolingFromOutputTx`). It requires the inlet to be warmer than the target, then delegates to heating, which requires the target to be warmer than the inlet. `DryCoolingBelowInletFails` shows that every real cooling request is rejected whenever the check means "at least as large".
- **The mixing solver in the flow-object form** splits the target as humid-air mass flows (`Flows.OfMassFlow`). `AirMixingEquations.MassFlowTrialFallsShort` shows that, when both airs are humid (`x > 0`), the outlet dry-air flow of every trial that splits a positive target falls strictly below the target dry-air flow. `AirMixingEquations.MassFlowTrialMissesTarget` gives its exact value `target / (1 + x)` when both airs carry the same humidity ratio.
- **Cooling for a given power** builds a zero-heat result and discards it. A zero power therefore goes on to the dry-cooling check and the solver.
- **The typed overload of `dryBulbTemperatureIX`** passes the relative humidity where the humidity ratio belongs (`HumidAirEquations.DryBulbTemperatureIXOfRelHum`).

## Model

| member | source | states |
|---|---|---|
| HumidAirEquations.WgRatio | src/main/java/com/synerset/hvaclib/fluids/euqations/HumidAirEquations.java:48 | the vapour-to-dry-air molar mass ratio is positive and scales the dry-air molar mass to the vapour molar mass |
| HumidAirEquations.SaturationPressureXRH | src/main/java/com/synerset/hvaclib/fluids/euqations/HumidAirEquations.java:121-123 | zero for dry air; otherwise the saturation pressure at which, at that RH, the humidity ratio `x` balances the pressure: `ps * RH/100 * (wg + x) == x * pat` |
| HumidAirEquations.AlfaT | src/main/java/com/synerset/hvaclib/fluids/euqations/HumidAirEquations.java:609-624 | the Arden-Buck exponent vanishes at 0 °C |
| HumidAirEquations.SaturationPressure | src/main/java/com/synerset/hvaclib/fluids/euqations/HumidAirEquations.java:65-106 | a converged saturation pressure satisfies the Clausius-Clapeyron residual within the solver tolerance; failure is only non-convergence |
| HumidAirEquations.HumidityRatio | src/main/java/com/synerset/hvaclib/fluids/euqations/HumidAirEquations.java:283-287 | zero at 0 % RH; otherwise the humidity ratio balances the vapour partial pressure `RH/100 * ps` against the dry-air partial pressure |
| HumidAirEquations.MaxHumidityRatio | src/main/java/com/synerset/hvaclib/fluids/euqations/HumidAirEquations.java:304-306 | the saturated humidity ratio balances the saturation pressure against the dry-air partial pressure |
| HumidAirEquations.RelativeHumidityTdp | src/main/java/com/synerset/hvaclib/fluids/euqations/HumidAirEquations.java:241-243 | air at its own dew point is at 100 % |
| HumidAirEquations.RelativeHumidity | src/main/java/com/synerset/hvaclib/fluids/euqations/HumidAirEquations.java:259-265 | 0 % for dry air, never above 100 %, non-negative; below 100 % it is the partial-pressure ratio; 100 % exactly when the vapour reaches saturation |
| HumidAirEquations.RelativeHumidityFromRatio | src/main/java/com/synerset/hvaclib/fluids/euqations/HumidAirEquations.java:264 | the percentage is at most 100, non-negative for a non-negative ratio, exactly 100 when the ratio reaches 1, and below that the ratio itself in percent |
| HumidAirEquations.DewPointTemperature | src/main/java/com/synerset/hvaclib/fluids/euqations/HumidAirEquations.java:141-180 | saturated air returns its own temperature, dry air minus infinity, 25-100 % the Arden-Buck estimate, below 25 % a solver root within the solver tolerance; failure is only non-convergence |
| HumidAirEquations.WetBulbTemperature | src/main/java/com/synerset/hvaclib/fluids/euqations/HumidAirEquations.java:199-223 | saturated air returns its own temperature; otherwise a root of the psychrometric balance within tolerance |
| HumidAirEquations.SpecificEnthalpy | src/main/java/com/synerset/hvaclib/fluids/euqations/HumidAirEquations.java:424-440 | dry air has the dry-air enthalpy; up to saturation the enthalpy is dry air plus vapour carried by the humidity ratio |
| HumidAirEquations.SpecificHeat | src/main/java/com/synerset/hvaclib/fluids/euqations/HumidAirEquations.java:460-462 | dry air has the dry-air specific heat |
| HumidAirEquations.Density | src/main/java/com/synerset/hvaclib/fluids/euqations/HumidAirEquations.java:482-489 | dry air has the dry-air density; humid air satisfies the ideal-gas density relation with the 1.6078 vapour factor |
| HumidAirEquations.DynamicViscosity | src/main/java/com/synerset/hvaclib/fluids/euqations/HumidAirEquations.java:325-336 | dry air has the dry-air viscosity |
| HumidAirEquations.KinematicViscosity | src/main/java/com/synerset/hvaclib/fluids/euqations/HumidAirEquations.java:354-358 | kinematic viscosity times density is the dynamic viscosity |
| HumidAirEquations.ThermalConductivity | src/main/java/com/synerset/hvaclib/fluids/euqations/HumidAirEquations.java:378-403 | dry air has the dry-air conductivity |
| HumidAirEquations.DryBulbTemperatureTdpRH | src/main/java/com/synerset/hvaclib/fluids/euqations/HumidAirEquations.java:508-518 | 0 % RH gives plus infinity; otherwise the returned temperature has, at that RH, a dew point within tolerance of the given one |
| HumidAirEquations.DryBulbTemperatureXRH | src/main/java/com/synerset/hvaclib/fluids/euqations/HumidAirEquations.java:535-538 | the returned temperature has the saturation pressure implied by `x` and RH within tolerance |
| HumidAirEquations.DryBulbTemperatureIX | src/main/java/com/synerset/hvaclib/fluids/euqations/HumidAirEquations.java:556-559 | the returned temperature has the given enthalpy at humidity ratio `x` within tolerance |
| HumidAirEquations.DryBulbTemperatureIXOfRelHum | src/main/java/com/synerset/hvaclib/fluids/euqations/HumidAirEquations.java:561-566 | the typed overload passes the RH number as the humidity ratio: the returned temperature matches the enthalpy of air whose humidity ratio is that number |
| HumidAirEquations.DryBulbTemperatureWbtRH | src/main/java/com/synerset/hvaclib/fluids/euqations/HumidAirEquations.java:577-580 | the returned temperature has, at that RH, a wet-bulb temperature within tolerance of the given one |
| HumidAirEquations.DryBulbTemperatureMax | src/main/java/com/synerset/hvaclib/fluids/euqations/HumidAirEquations.java:595-600 | the returned temperature has a saturation pressure within tolerance of the atmospheric pressure |
| HumidAirProperties.PartialPressureForward | src/main/java/com/synerset/hvaclib/fluids/euqations/HumidAirEquations.java:283-287 | the humidity-ratio relation gives the vapour partial pressure `pv * (wg + x) == x * pat` |
| HumidAirProperties.PartialPressureBackward | src/main/java/com/synerset/hvaclib/fluids/euqations/HumidAirEquations.java:121-123 | the partial-pressure form gives back the humidity-ratio relation and the dry-air partial pressure |
| HumidAirProperties.SaturationPressureInvertsHumidityRatio | src/main/java/com/synerset/hvaclib/fluids/euqations/HumidAirEquations.java:121-123 | the saturation pressure recovered from a humidity ratio is the one that produced it |
| HumidAirProperties.SaturationInversionCore | src/main/java/com/synerset/hvaclib/fluids/euqations/HumidAirEquations.java:121-123 | the real-number step of SaturationPressureInvertsHumidityRatio |
| HumidAirProperties.SaturationRoundTripCore | src/main/java/com/synerset/hvaclib/fluids/euqations/HumidAirEquations.java:283-287 | the real-number step of HumidityRatioInvertsSaturationPressure |
| HumidAirProperties.HumidityRatioInvertsSaturationPressure | src/main/java/com/synerset/hvaclib/fluids/euqations/HumidAirEquations.java:283-287 | the humidity ratio computed from the implied saturation pressure is the original one |
| HumidAirProperties.RelativeRoundTripCore | src/main/java/com/synerset/hvaclib/fluids/euqations/HumidAirEquations.java:259-265 | the real-number step of RelativeHumidityInvertsHumidityRatio |
| HumidAirProperties.RelativeHumidityInvertsHumidityRatio | src/main/java/com/synerset/hvaclib/fluids/euqations/HumidAirEquations.java:259-265 | for 0 < RH <= 100 the relative humidity of the humidity ratio computed from RH is RH again |
| HumidAirProperties.RelativeHumidityOfBalancedRatio | src/main/java/com/synerset/hvaclib/fluids/euqations/HumidAirEquations.java:259-265 | any humidity ratio that balances the vapour pressure `RH/100 * ps` against the dry-air partial pressure has relative humidity RH, for 0 < RH <= 100 |
| HumidAirProperties.BalancedRatioCore | src/main/java/com/synerset/hvaclib/fluids/euqations/HumidAirEquations.java:283-287 | a humidity ratio balancing the vapour pressure `a * ps` is positive and `a` is its vapour pressure over `ps` |
| HumidAirProperties.RelativeHumidityMatches | src/main/java/com/synerset/hvaclib/fluids/euqations/HumidAirEquations.java:264 | the clamped percentage equals the unclamped ratio when that ratio is at most 1 |
| HumidAirProperties.HumidityRatioInvertsRelativeHumidity | src/main/java/com/synerset/hvaclib/fluids/euqations/HumidAirEquations.java:283-287 | below saturation the humidity ratio computed from the relative humidity of `x` is `x` again |
| HumidAirProperties.HumidityRatioOfMatchingRH | src/main/java/com/synerset/hvaclib/fluids/euqations/HumidAirEquations.java:283-287 | any RH whose vapour fraction balances `x` gives `x` back as the humidity ratio |
| HumidAirProperties.InverseRelativeCore | src/main/java/com/synerset/hvaclib/fluids/euqations/HumidAirEquations.java:283-287 | the real-number step of HumidityRatioInvertsRelativeHumidity |
| HumidAirProperties.PartialPressureOrder | src/main/java/com/synerset/hvaclib/fluids/euqations/HumidAirEquations.java:304-306 | between 0 and 100 % the humidity ratio lies between 0 and the saturated one |
| HumidAirProperties.HumidityRatioBelowMax | src/main/java/com/synerset/hvaclib/fluids/euqations/HumidAirEquations.java:304-306 | for 0 <= RH <= 100 and ps below pat, 0 <= HumidityRatio <= MaxHumidityRatio |
| HumidAirProperties.MaxHumidityRatioIsSaturated | src/main/java/com/synerset/hvaclib/fluids/euqations/HumidAirEquations.java:304-306 | air holding the saturated humidity ratio has a relative humidity of exactly 100 % |
| HumidAirProperties.ArdenBuckRoot | src/main/java/com/synerset/hvaclib/fluids/euqations/HumidAirEquations.java:159-163 | the Arden-Buck inverse of `beta`, given a square root of its discriminant, solves `(b - t/d) * t == beta * (c + t)` |
| HumidAirProperties.ExponentOfArdenBuckRoot | src/main/java/com/synerset/hvaclib/fluids/euqations/HumidAirEquations.java:609-624 | a temperature solving that relation with its own coefficient set has the Arden-Buck exponent `beta` |
| HumidAirProperties.DewPointEstimateSolvesArdenBuck | src/main/java/com/synerset/hvaclib/fluids/euqations/HumidAirEquations.java:150-163 | the dew-point estimate solves the Arden-Buck relation for `beta = ln(RH/100) + alfa(ta)`, given that `sqrt` squares back |
| HumidAirProperties.DewPointEstimateHasDewPointExponent | src/main/java/com/synerset/hvaclib/fluids/euqations/HumidAirEquations.java:150-163 | when the estimate lies on the same side of 0 °C as `ta`, its exponent is `ln(RH/100) + alfa(ta)`: the vapour pressure at the estimate is RH times that at `ta` |
| HumidAirProperties.EnthalpyOfFog | src/main/java/com/synerset/hvaclib/fluids/euqations/HumidAirEquations.java:424-440 | above saturation the enthalpy is the saturated enthalpy plus water and ice enthalpy on the excess moisture |
| HumidAirProperties.FogPhaseFollowsTemperature | src/main/java/com/synerset/hvaclib/fluids/euqations/HumidAirEquations.java:424-440 | with the phase enthalpies zero outside their range, warm fog is liquid only and cold fog ice only |
| HumidAirProperties.DryBulbXRHRecoversSaturationPressure | src/main/java/com/synerset/hvaclib/fluids/euqations/HumidAirEquations.java:535-538 | the XRH inversion applied to the humidity ratio and RH of air at `ta` returns a temperature whose saturation pressure is within tolerance of that of `ta` |
| Flows.EquationsInvertEnthalpy | src/main/java/com/synerset/hvaclib/fluids/euqations/HumidAirEquations.java:556-559 | the equations' enthalpy inversion meets the enthalpy within tolerance or fails with non-convergence |
| Flows.EquationsInvertSaturationPressure | src/main/java/com/synerset/hvaclib/fluids/euqations/HumidAirEquations.java:535-538 | the equations' saturation-pressure inversion meets the implied saturation pressure within tolerance or fails with non-convergence |
| Flows.EquationsConsistent | src/main/java/com/synerset/hvaclib/fluids/euqations/HumidAirEquations.java:535-559 | the moist-air equations satisfy the consistency law the process calculators rely on |
| Flows.OfMassFlow | src/main/java/com/synerset/hvaclib/process/equations/AirMixingEquations.java:160-161 | a flow built from a humid-air mass flow carries that mass flow and the given air |
| MixingBalance.Blend | src/main/java/com/synerset/hvaclib/process/PhysicsOfMixing.java:44-45 | the mass-weighted value balances both streams and lies between the two inlet values for non-negative flows |
| MixingBalance.BlendBetween | src/main/java/com/synerset/hvaclib/process/PhysicsOfMixing.java:44 | a mass-weighted mean of non-negative flows lies between the two values |
| MixingBalance.CarriedBalancesFlux | src/main/java/com/synerset/hvaclib/process/PhysicsOfMixing.java:45-47 | an outlet enthalpy carried by the flow balances the inlet enthalpy flux within flow times tolerance |
| MixingBalance.CarriedByInversion | src/main/java/com/synerset/hvaclib/process/PhysicsOfMixing.java:45-47 | a temperature found by enthalpy inversion carries the mixed enthalpy |
| MixingBalance.MaxPressureIsMaximum | src/main/java/com/synerset/hvaclib/process/PhysicsOfMixing.java:88 | the outlet pressure is at least every inlet pressure and is one of them |
| MixingBalance.WaterFluxBounds | src/main/java/com/synerset/hvaclib/process/PhysicsOfMixing.java:84-89 | the total water flux lies between the least and greatest humidity ratio times the total dry air |
| MixingBalance.MixedRatioBetween | src/main/java/com/synerset/hvaclib/process/PhysicsOfMixing.java:92 | the mixed humidity ratio lies between the least and greatest inlet humidity ratios |
| MixingBalance.TwoStreamTotals | src/main/java/com/synerset/hvaclib/process/PhysicsOfMixing.java:84-89 | for two streams the accumulated totals are the two-stream sums of the pairwise mix |
| MixingBalance.PairCarriesTotals | src/main/java/com/synerset/hvaclib/process/PhysicsOfMixing.java:43-47 | an outlet with the pairwise mix's water and enthalpy balances carries the N-stream totals of the two flows: both mixers keep the same balances |
| MixingBalance.AccumulateStreams | src/main/java/com/synerset/hvaclib/process/PhysicsOfMixing.java:84-89 | the loop sums dry air, water flux and enthalpy flux and takes the largest pressure over the inlet and all flows |
| PhysicsOfHeating.InputHeatBalance | src/main/java/com/synerset/hvaclib/process/PhysicsOfHeating.java:35-36 | an outlet enthalpy within tolerance of the heat-balance enthalpy balances the heat within tolerance |
| PhysicsOfHeating.ZeroHeatKeepsEnthalpy | src/main/java/com/synerset/hvaclib/process/PhysicsOfHeating.java:64 | no heat between two enthalpies means they are equal |
| PhysicsOfHeating.BalancedReachesTarget | src/main/java/com/synerset/hvaclib/process/PhysicsOfHeating.java:35-36 | an outlet balanced for the heat of a target enthalpy reaches the target within tolerance |
| PhysicsOfHeating.BalancedRecoversTarget | src/main/java/com/synerset/hvaclib/process/PhysicsOfHeating.java:30-37 | either branch of the input-heat form reaches the target enthalpy |
| PhysicsOfHeating.HeatingForInputHeat | src/main/java/com/synerset/hvaclib/process/PhysicsOfHeating.java:23-38 | keeps moisture and reports the given heat; no heat or no flow keeps the temperature; otherwise the outlet balances the heat; failure only by non-convergence |
| PhysicsOfHeating.HeatingForTargetTemp | src/main/java/com/synerset/hvaclib/process/PhysicsOfHeating.java:50-66 | rejected exactly when the temperature check fails; reports the heat `1000 * m * (i2 - i1)` and the target temperature |
| PhysicsOfHeating.HeatingForTargetRH | src/main/java/com/synerset/hvaclib/process/PhysicsOfHeating.java:76-100 | rejects RH outside (0, 100] or above the inlet's; equal RH keeps the inlet; otherwise the outlet has the saturation pressure implied by the target RH and the heat of its enthalpy change |
| PhysicsOfHeating.InputHeatOutlet | src/main/java/com/synerset/hvaclib/process/PhysicsOfHeating.java:23-38 | the outlet of the input-heat form, read off its contract |
| PhysicsOfHeating.InputHeatReachesEnthalpy | src/main/java/com/synerset/hvaclib/process/PhysicsOfHeating.java:23-38 | feeding the heat of a target enthalpy reaches that enthalpy within tolerance |
| PhysicsOfHeating.TargetTempHeat | src/main/java/com/synerset/hvaclib/process/PhysicsOfHeating.java:62-65 | the heat of the target-temperature form, read off its contract |
| PhysicsOfHeating.InputHeatRecoversTargetTemp | src/main/java/com/synerset/hvaclib/process/PhysicsOfHeating.java:50-66 | the two heating forms invert each other: the heat computed for a target temperature brings the flow back to that temperature's enthalpy |
| PhysicsOfCooling.AverageWallTemp | src/main/java/com/synerset/hvaclib/process/PhysicsOfCooling.java:250-252 | the wall temperature is the midpoint, between supply and return |
| PhysicsOfCooling.BypassFactor | src/main/java/com/synerset/hvaclib/process/PhysicsOfCooling.java:262-264 | the outlet is the bypass-weighted mix of inlet and wall; the factor is in (0, 1] for an outlet between wall and inlet |
| PhysicsOfCooling.BypassFactorBounds | src/main/java/com/synerset/hvaclib/process/PhysicsOfCooling.java:262-264 | the bypass factor of an outlet between wall and inlet lies in (0, 1] |
| PhysicsOfCooling.SplitFlow | src/main/java/com/synerset/hvaclib/process/PhysicsOfCooling.java:134-136 | the direct and bypass flows add up to the dry-air flow, the bypass is its BF share, both non-negative |
| PhysicsOfCooling.CondensateDischarge | src/main/java/com/synerset/hvaclib/process/PhysicsOfCooling.java:274-280 | rejected exactly for a negative argument; zero for dry inlet; otherwise the water balance `mda * x1 == mda * x2 + cond`, non-negative when drying |
| PhysicsOfCooling.WaterBalanceCore | src/main/java/com/synerset/hvaclib/process/PhysicsOfCooling.java:145-155 | the water balance of the split coil flow |
| PhysicsOfCooling.NoCondensateKeepsRatio | src/main/java/com/synerset/hvaclib/process/PhysicsOfCooling.java:155 | no condensate means an unchanged humidity ratio |
| PhysicsOfCooling.CoilOutlet | src/main/java/com/synerset/hvaclib/process/PhysicsOfCooling.java:134-157 | a result keeps pressure and dry-air flow, has the outlet temperature and condensate at the wall temperature; a dry wall always succeeds with no condensate; only a wet wall can fail, on a rejected condensate argument |
| PhysicsOfCooling.CoilOutletParts | src/main/java/com/synerset/hvaclib/process/PhysicsOfCooling.java:142-155 | outlet humidity ratio is the split-weighted mix of wall and inlet; condensate is that of the direct flow |
| PhysicsOfCooling.CoilHeat | src/main/java/com/synerset/hvaclib/process/PhysicsOfCooling.java:149-152 | the heat is the direct flow's enthalpy drop to the wall plus the condensate's enthalpy |
| PhysicsOfCooling.WallHumidityRatio | src/main/java/com/synerset/hvaclib/process/PhysicsOfCooling.java:142 | a dry wall keeps the inlet humidity ratio; a wet wall gives the saturated humidity ratio at the wall temperature |
| PhysicsOfCooling.CoilConservesWater | src/main/java/com/synerset/hvaclib/process/PhysicsOfCooling.java:134-157 | vapour in equals vapour out plus condensate |
| PhysicsOfCooling.DryWallKeepsRatio | src/main/java/com/synerset/hvaclib/process/PhysicsOfCooling.java:142-155 | a dry wall keeps the humidity ratio and discharges nothing |
| PhysicsOfCooling.CoolingFromOutletTx | src/main/java/com/synerset/hvaclib/process/PhysicsOfCooling.java:117-158 | rejects an outlet above the inlet; equal temperature keeps the inlet state; a failed dew point fails the process; otherwise it is the coil outlet, dry exactly when the wall is at or above the dew point |
| PhysicsOfCooling.CoolingConservesWater | src/main/java/com/synerset/hvaclib/process/PhysicsOfCooling.java:117-158 | the real coil conserves water |
| PhysicsOfCooling.NoCondensationOnDryWall | src/main/java/com/synerset/hvaclib/process/PhysicsOfCooling.java:140-147 | a wall at or above the dew point discharges no condensate |
| PhysicsOfCooling.BoneDryAirMeetsDryWall | src/main/java/com/synerset/hvaclib/process/PhysicsOfCooling.java:140-142 | with the moist-air equations bone-dry air has 0 % RH and dew point minus infinity, so every wall is dry for it |
| PhysicsOfCooling.EquationCoolingConservesWater | src/main/java/com/synerset/hvaclib/process/PhysicsOfCooling.java:117-158 | with the moist-air equations the real coil conserves water with no exception |
| PhysicsOfCooling.WetWallAirIsSaturated | src/main/java/com/synerset/hvaclib/process/PhysicsOfCooling.java:140-142 | with the moist-air equations, air at a wet wall's humidity ratio is at 100 % RH at the wall temperature |
| PhysicsOfCooling.CoolingHeat | src/main/java/com/synerset/hvaclib/process/PhysicsOfCooling.java:149-152 | the heat of the real coil below the inlet temperature |
| PhysicsOfCooling.CoolingFromOutletRH | src/main/java/com/synerset/hvaclib/process/PhysicsOfCooling.java:170-203 | rejects RH outside [0, 100], below the inlet's, or in (99, 100]; equal RH keeps the inlet; a result meets the target RH within tolerance and is the coil outlet of CoolingFromOutletTx at its own outlet temperature |
| PhysicsOfCooling.CoolingFromInputHeat | src/main/java/com/synerset/hvaclib/process/PhysicsOfCooling.java:215-239 | rejects a power the negativity check refuses; a result reports a heat within tolerance of the power, keeps pressure and dry-air flow, has its condensate at the wall temperature, and is the coil outlet of CoolingFromOutletTx at its own outlet temperature |
| PhysicsOfCooling.OutletRHConservesWater | src/main/java/com/synerset/hvaclib/process/PhysicsOfCooling.java:170-203 | the cooling for a target RH conserves water |
| PhysicsOfCooling.InputHeatConservesWater | src/main/java/com/synerset/hvaclib/process/PhysicsOfCooling.java:215-239 | the cooling for a given power conserves water |
| PhysicsOfCooling.DryCoolingFromInputHeat | src/main/java/com/synerset/hvaclib/process/PhysicsOfCooling.java:49-63 | rejected exactly when the power is not negative; keeps moisture and reports the given heat; the outlet balances the heat |
| PhysicsOfCooling.DryCoolingFromOutputTx | src/main/java/com/synerset/hvaclib/process/PhysicsOfCooling.java:77-100 | rejects a target not below the inlet and one below the dew point; a result also passed the heating check that the target exceeds the inlet |
| PhysicsOfCooling.DryCoolingBelowInletFails | src/main/java/com/synerset/hvaclib/process/PhysicsOfCooling.java:82-94 | when the greater-than check implies `>=`, every target below the inlet is rejected |
| PhysicsOfMixing.MixTwoHumidGasFlows | src/main/java/com/synerset/hvaclib/process/PhysicsOfMixing.java:27-49 | rejects flows the positivity check refuses; a zero first flow gives the second air, a zero second or total flow the first; a result has the total dry air and the first air's pressure, conserves water and carries the inlet enthalpy flux |
| PhysicsOfMixing.MixMultipleHumidGasFlows | src/main/java/com/synerset/hvaclib/process/PhysicsOfMixing.java:77-97 | zero total flow is rejected; a result conserves dry air and water, carries the enthalpy flux and takes the largest pressure |
| PhysicsOfMixing.ChooseMix | src/main/java/com/synerset/hvaclib/process/PhysicsOfMixing.java:139-156 | a tie gives the first extreme; a target at or beyond an extreme temperature gives the extreme mix with that temperature; a solver result meets the target temperature within tolerance with the target dry-air flow and the first air's pressure |
| PhysicsOfMixing.MixingFromOutTxOutMda | src/main/java/com/synerset/hvaclib/process/PhysicsOfMixing.java:110-157 | rejects a target flow the positivity check refuses and all-zero flows; minimum flows above the target mix the minimums; otherwise the chosen mix has the target flow at the inlet pressure |
| AirMixingEquations.MixTwoHumidAirFlows | src/main/java/com/synerset/hvaclib/process/equations/AirMixingEquations.java:26-54 | a zero inlet returns the recirculation flow, a zero recirculation or total flow the inlet flow; a non-zero total is carried with the water of both flows; failure only by non-convergence |
| AirMixingEquations.BlendFlows | src/main/java/com/synerset/hvaclib/process/equations/AirMixingEquations.java:37-52 | the blend conserves dry air and water, keeps the inlet pressure and carries the enthalpy flux |
| AirMixingEquations.MixMultipleHumidAirFlows | src/main/java/com/synerset/hvaclib/process/equations/AirMixingEquations.java:63-92 | zero total flow is rejected; a result has the total dry air, the largest pressure, the mixed humidity ratio and the carried enthalpy |
| AirMixingEquations.IterateByMassFlow | src/main/java/com/synerset/hvaclib/process/equations/AirMixingEquations.java:158-162 | a solver trial splits the target as humid mass flows and mixes the two parts |
| AirMixingEquations.MassFlowTrialSumsToTarget | src/main/java/com/synerset/hvaclib/process/equations/AirMixingEquations.java:159-161 | the two humid mass flows of a trial add up to the target |
| AirMixingEquations.MassFlowTrialMissesTarget | src/main/java/com/synerset/hvaclib/process/equations/AirMixingEquations.java:158-163 | for humid air of equal humidity ratio the trial's dry-air flow times `1 + x` is the target, so it misses the target dry-air flow |
| AirMixingEquations.DividedFlowsMissTarget | src/main/java/com/synerset/hvaclib/process/equations/AirMixingEquations.java:159-162 | the real-number step of MassFlowTrialMissesTarget |
| AirMixingEquations.MassFlowTrialFallsShort | src/main/java/com/synerset/hvaclib/process/equations/AirMixingEquations.java:158-162 | for two airs with `x > 0` and a split `0 <= m <= target` of a positive target, a trial's outlet dry-air flow is positive and strictly below the target |
| AirMixingEquations.DividedAmountShrinks | src/main/java/com/synerset/hvaclib/process/equations/AirMixingEquations.java:160-161 | a non-negative humid mass flow divided by `1 + x > 1` does not grow, and a positive one shrinks strictly and stays positive |
| AirMixingEquations.ShrinkCore | src/main/java/com/synerset/hvaclib/process/equations/AirMixingEquations.java:160-161 | any real `q` with `q * k == a`, `a >= 0` and `k > 1` lies between 0 and `a`, strictly when `a > 0` |
| AirMixingEquations.ChooseAirMix | src/main/java/com/synerset/hvaclib/process/equations/AirMixingEquations.java:143-167 | a tie gives the first extreme; a target at or beyond an extreme temperature gives the extreme mix with that temperature, reported with the given flows; a solver result meets the target temperature within tolerance and its two humid-air mass flows sum to the target |
| AirMixingEquations.MixTwoHumidAirFlowsForTargetOutTemp | src/main/java/com/synerset/hvaclib/process/equations/AirMixingEquations.java:108-168 | rejects a zero target with zero floors; floors above the target give the mix of the flows as given; otherwise it mixes the two extremes (one stream at its floor) and lets ChooseAirMix decide, propagating any failure |

## Left out

- Floating point: doubles are modelled as reals. There is no rounding, NaN or infinity apart from the dew-point infinities. Division by zero yields 0 in `Div`, and contracts are stated for non-zero divisors.
- Substance correlations: the dry-air, vapour, water and ice correlations and `Math.exp`/`Math.log` are parameters. Their numeric values are not modelled, only where they enter each equation.
- The Brent solver's internals (bracketing, iteration limits, run flags, names): the solver is an oracle that either returns a root within tolerance or reports non-convergence.
- The callbacks' `result[0]` array: the model re-evaluates the process at the returned root, which assumes the solver's last evaluation is at that root.
- The process argument checks (`requirePositiveValue`, `requireNegativeValue`, `requireFirstValueAsGreaterThanSecond`): their definitions are not part of this model. They are predicates in the context.
- Null checks: `requireNotNull` and the null-element checks have no counterpart, because references are never null here.
- PhysicsPropOfMoistAir, PhysicsPropOfWater, HumidGas and FlowOfHumidGas are not part of this model. The calculators read a `Properties` record whose consistency law `Flows.EquationsConsistent` proves for the moist-air equations.
- FlowOfHumidAir is not part of this model. `Flows.OfMassFlow` assumes its humid-air mass flow is the dry-air flow times `1 + x`. `Flows.MassFlow` takes the same for FlowOfHumidGas.getMassFlow, which the guard of `PhysicsOfHeating.HeatingForInputHeat` reads.
- HumidAir.of: the range validation of pressure, temperature and humidity ratio for outlet states is not modelled. Outlet states are built directly.
- MathUtils.arithmeticAverage is not part of this model. `PhysicsOfCooling.AverageWallTemp` takes it to be the midpoint.
- The unit-typed overloads of the equations are not modelled, except the enthalpy overload that swaps its arguments. Also left out: the response DTOs, LibDefaults, FlowOfWaterVapour, Ice, CoolingFromRH, AirCoolingResult and the exception classes, which are represented only by the error values.
- The delegating overloads at src/main/java/com/synerset/hvaclib/process/PhysicsOfMixing.java:51-55 and :63-69 are not modelled. Both forward the flows' fields to `PhysicsOfMixing.MixTwoHumidGasFlows`.
- The pressure computed and never used in `calcMixingFromOutTxOutMda` is not modelled.
- HumidAirEquations.SaturationPressure: states only that the converged root satisfies the Clausius-Clapeyron residual. The Arden-Buck starting estimate and the bracket are not part of the contract.
- HumidAirEquations.AlfaT: states only its value at 0 °C. The exponent is kept with its coefficients as written and is used by the saturation estimate, RelativeHumidityTdp and the dew-point estimate; ExponentOfArdenBuckRoot states what it means for the dew-point estimate.
- PhysicsOfCooling.CoilConservesWater: excludes bone-dry inlet air on a wet wall, where the condensate is taken as zero while the outlet takes the wall's saturated humidity ratio. The coil step alone does not rule that case out.
- PhysicsOfCooling.CoolingConservesWater: the same exclusion, needed only for an arbitrary `Properties`. With the moist-air equations bone-dry air always meets a dry wall (`BoneDryAirMeetsDryWall`), and `EquationCoolingConservesWater` holds with no exception.
- AirMixingEquations.ChooseAirMix: the humid-mass-flow sum is stated only where `1 + x` is non-zero for both airs, the condition under which the flow split divides.
- AirMixingEquations.MassFlowTrialSumsToTarget, PhysicsOfHeating.InputHeatOutlet and PhysicsOfHeating.TargetTempHeat: these restate facts of a calculator's contract in the form other lemmas use. Dafny proves them without a body.
- Solver failures of the saturation pressure inside other equations: `Correlations.Env.saturationPressure` stands for the converged value of `HumidAirEquations.SaturationPressure`, positive and otherwise unconstrained. The path on which that nested solve fails to converge is not modelled in DewPointTemperature, WetBulbTemperature, RelativeHumidity, SpecificEnthalpy, DryBulbTemperatureXRH and DryBulbTemperatureMax. The link between the two is not stated either: the correlation is a parameter, not the solver's root.
- HumidAirEquations.WetBulbEstimate: the empirical starting estimate of the wet-bulb search (src/main/java/com/synerset/hvaclib/fluids/euqations/HumidAirEquations.java:202-205) has no stated property. It only places the solver's counterpart points, and the result is characterised by the residual.
- HumidAirProperties.DewPointEstimateSolvesArdenBuck and DewPointEstimateHasDewPointExponent: the square root is a parameter, so that it squares back is a premise. The exponent identity also needs the estimate on the same side of 0 °C as `ta`, because the coefficient set switches there.
