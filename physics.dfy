/** Simulation parameters and the per-cell physical quantities derived from
    them: the density and temperature of the air/gas mixture in a cell and the
    transport coefficients adjusted for it. The square root of the C maths
    library is a parameter `sqrt` of the functions that need it. */
module Physics {

  /** Physical constants and solver options. */
  datatype SimParams = SimParams(
    lengthScale: real,
    timeScale: real,
    visc: real,
    diff: real,
    grav: real,
    airDens: real,
    massRatio: real,
    airTemp: real,
    diffTemp: real,
    densDecay: real,
    tempFactor: real,
    tempDecay: real,
    closedBoundaries: bool,
    advancedCoefficients: bool,
    gravityOn: bool,
    temperatureOn: bool,
    solverSteps: int)

  /** The parameters of the bare constructor. */
  function DefaultParams(): (p: SimParams)
    ensures p.lengthScale == 1.0 && p.timeScale == 1.0
    ensures p.visc == 0.0 && p.diff == 0.0 && p.diffTemp == 0.0 && p.grav == 0.0
    ensures p.airDens == 0.0 && p.massRatio == 0.0 && p.airTemp == 0.0
    ensures p.densDecay == 0.0 && p.tempFactor == 0.0 && p.tempDecay == 0.0
    ensures p.closedBoundaries && !p.gravityOn && !p.temperatureOn && !p.advancedCoefficients
    ensures p.solverSteps == 20
  {
    SimParams(1.0, 1.0, 0.0, 0.0, 0.0, 0.0, 0.0, 0.0, 0.0, 0.0, 0.0, 0.0,
              true, false, false, false, 20)
  }

  /** Density of the mixture at background temperature, given the gas density d. */
  function MixedDensityAtAirTemp(p: SimParams, d: real): real
  {
    p.airDens + d * (1.0 - p.massRatio)
  }

  /** Temperature of the mixture, given gas density d and gas temperature t. */
  function MixedTemperature(p: SimParams, d: real, t: real): (r: real)
    requires MixedDensityAtAirTemp(p, d) != 0.0
    ensures d == 0.0 ==> r == p.airTemp
    ensures t == p.airTemp ==> r == p.airTemp
  {
    p.airTemp + (t - p.airTemp) * (d / MixedDensityAtAirTemp(p, d))
  }

  /** Both divisions of MixedDensity are defined. */
  predicate MixtureDefined(p: SimParams, d: real, t: real)
  {
    MixedDensityAtAirTemp(p, d) != 0.0 && MixedTemperature(p, d, t) != 0.0
  }

  /** Density of the mixture at its own temperature (ideal-gas correction). */
  function MixedDensity(p: SimParams, d: real, t: real): (r: real)
    requires MixtureDefined(p, d, t)
    ensures d == 0.0 ==> r == p.airDens
  {
    MixedDensityAtAirTemp(p, d) * (p.airTemp / MixedTemperature(p, d, t))
  }

  /** Mass diffusivity: scales with (T / T_air)^1.5 when advanced coefficients are on. */
  function AdjustedMassDiffusivity(p: SimParams, t: real, sqrt: real -> real): (r: real)
    requires p.advancedCoefficients ==> p.airTemp != 0.0
    ensures !p.advancedCoefficients ==> r == p.diff
  {
    if p.advancedCoefficients then p.diff * sqrt(t / p.airTemp) * (t / p.airTemp) else p.diff
  }

  /** Viscosity: scales with sqrt(mixed T / T_air) over the mixed density when advanced coefficients are on. */
  function AdjustedViscosity(p: SimParams, d: real, t: real, sqrt: real -> real): (r: real)
    requires p.advancedCoefficients ==> p.airTemp != 0.0 && MixedDensityAtAirTemp(p, d) != 0.0
    ensures !p.advancedCoefficients ==> r == p.visc
  {
    if p.advancedCoefficients
    then p.visc * sqrt(MixedTemperature(p, d, t) / p.airTemp) / MixedDensityAtAirTemp(p, d)
    else p.visc
  }

  /** Thermal diffusivity: scales with sqrt(T / T_air) when advanced coefficients are on. */
  function AdjustedThermalDiffusivity(p: SimParams, t: real, sqrt: real -> real): (r: real)
    requires p.advancedCoefficients ==> p.airTemp != 0.0
    ensures !p.advancedCoefficients ==> r == p.diffTemp
  {
    if p.advancedCoefficients then p.diffTemp * sqrt(t / p.airTemp) else p.diffTemp
  }

  /** At background temperature (and, for viscosity, in a cell without gas)
      the adjusted coefficients reduce to the configured constants. */
  lemma CoefficientsAtAirTemperature(p: SimParams, sqrt: real -> real)
    requires sqrt(1.0) == 1.0
    requires p.advancedCoefficients ==> p.airTemp != 0.0 && p.airDens != 0.0
    ensures AdjustedMassDiffusivity(p, p.airTemp, sqrt) == p.diff
    ensures AdjustedThermalDiffusivity(p, p.airTemp, sqrt) == p.diffTemp
    ensures AdjustedViscosity(p, 0.0, p.airTemp, sqrt) == if p.advancedCoefficients then p.visc / p.airDens else p.visc
  {
    if p.advancedCoefficients {
      assert p.airTemp / p.airTemp == 1.0;
      assert MixedTemperature(p, 0.0, p.airTemp) == p.airTemp;
    }
  }

  /** Vertical force per unit of g*dt in a cell (the body of Convect's loop). A
      zero mixture density gives the maximal force 1. */
  function BuoyantForce(p: SimParams, d: real, t: real): (r: real)
    requires p.temperatureOn ==> MixtureDefined(p, d, t)
    ensures p.airDens != 0.0 && d == 0.0 ==> r == 0.0
    ensures !p.temperatureOn && MixedDensityAtAirTemp(p, d) == 0.0 ==> r == 1.0
  {
    var density := if p.temperatureOn then MixedDensity(p, d, t) else MixedDensityAtAirTemp(p, d);
    if density == 0.0 then 1.0 else (density - p.airDens) / density
  }

  /** With advanced coefficients off, the three coefficients are the constants. */
  predicate ConstantCoefficients(p: SimParams)
  {
    !p.advancedCoefficients && p.visc >= 0.0 && p.diff >= 0.0 && p.diffTemp >= 0.0
  }

  /** The three coefficient functions SimState passes to Diffuse. */
  datatype Coefficient = MassDiffusivity | Viscosity | ThermalDiffusivity

  /** The coefficient's divisions are defined for gas density d and temperature t. */
  predicate CoefficientDefined(p: SimParams, kind: Coefficient, d: real, t: real)
  {
    p.advancedCoefficients ==> p.airTemp != 0.0 && (kind.Viscosity? ==> MixedDensityAtAirTemp(p, d) != 0.0)
  }

  /** The value the chosen coefficient function returns for a cell. */
  function CoefficientValue(p: SimParams, sqrt: real -> real, kind: Coefficient, d: real, t: real): real
    requires CoefficientDefined(p, kind, d, t)
  {
    match kind
    case MassDiffusivity => AdjustedMassDiffusivity(p, t, sqrt)
    case Viscosity => AdjustedViscosity(p, d, t, sqrt)
    case ThermalDiffusivity => AdjustedThermalDiffusivity(p, t, sqrt)
  }

  /** The coefficient is defined and nonnegative, so the diffusion weights are convex. */
  predicate CoefficientOK(p: SimParams, sqrt: real -> real, kind: Coefficient, d: real, t: real)
  {
    CoefficientDefined(p, kind, d, t) && CoefficientValue(p, sqrt, kind, d, t) >= 0.0
  }

  /** With advanced coefficients off and nonnegative constants, every cell's
      coefficient is defined and nonnegative. */
  lemma ConstantCoefficientsOK(p: SimParams, sqrt: real -> real, kind: Coefficient, d: real, t: real)
    requires ConstantCoefficients(p)
    ensures CoefficientOK(p, sqrt, kind, d, t)
  {
  }

  lemma MulNonneg(a: real, b: real)
    requires a >= 0.0 && b >= 0.0
    ensures a * b >= 0.0
  {
  }

  /** SimulationStep's time step: the caller's timeStep scaled by timeScale. */
  function ScaledTimeStep(p: SimParams, timeStep: real): (dt: real)
    ensures p.timeScale == 1.0 ==> dt == timeStep
    ensures timeStep == 0.0 ==> dt == 0.0
  {
    timeStep * p.timeScale
  }

  /** Width of one grid cell: lengthScale / N. */
  function CellSize(p: SimParams, N: nat): (h: real)
    requires N >= 1
    ensures p.lengthScale != 0.0 ==> h != 0.0
  {
    p.lengthScale / (N as real)
  }

  /** Diffuse's a = dt / cellSize^2. */
  function DiffusionRate(p: SimParams, N: nat, dt: real): (a: real)
    requires N >= 1 && p.lengthScale != 0.0
    ensures dt >= 0.0 ==> a >= 0.0
    ensures dt == 0.0 ==> a == 0.0
  {
    var h := CellSize(p, N);
    assert h * h > 0.0;
    dt / (h * h)
  }

  /** Advect's dt0 = dt / cellSize. */
  function AdvectionRate(p: SimParams, N: nat, dt: real): (dt0: real)
    requires N >= 1 && p.lengthScale != 0.0
    ensures dt == 0.0 ==> dt0 == 0.0
  {
    dt / CellSize(p, N)
  }
}
