/** The step sequence of SimState as functions of the field contents: the
    velocity, density and temperature steps with their scratch-buffer swaps
    resolved, and the whole simulation step. The swaps are resolved by
    following which buffer each pointer names at every call. */
module Steps {
  import opened Grid
  import opened Physics
  import opened Boundary
  import opened Pointwise
  import opened Relaxation
  import opened Advection
  import opened Projection

  /** Contents of the eight working buffers. */
  datatype Fields = Fields(
    dens: seq<real>, xVel: seq<real>, yVel: seq<real>, temp: seq<real>,
    densPrev: seq<real>, xVelPrev: seq<real>, yVelPrev: seq<real>, tempPrev: seq<real>)

  /** Contents of the four source buffers. */
  datatype Sources = Sources(dens: seq<real>, xVel: seq<real>, yVel: seq<real>, temp: seq<real>)

  predicate Sized(N: nat, f: Fields)
  {
    && |f.dens| == Size(N) && |f.xVel| == Size(N) && |f.yVel| == Size(N) && |f.temp| == Size(N)
    && |f.densPrev| == Size(N) && |f.xVelPrev| == Size(N) && |f.yVelPrev| == Size(N) && |f.tempPrev| == Size(N)
  }

  predicate SourcesSized(N: nat, s: Sources)
  {
    |s.dens| == Size(N) && |s.xVel| == Size(N) && |s.yVel| == Size(N) && |s.temp| == Size(N)
  }

  /** Boundary modes chosen by closedBoundaries for the scalar fields and the
      two velocity components. */
  function DensityMode(p: SimParams): (b: int)
    ensures ValidMode(b)
  {
    if p.closedBoundaries then 0 else -1
  }

  function XVelMode(p: SimParams): (b: int)
    ensures ValidMode(b)
  {
    if p.closedBoundaries then 1 else 0
  }

  function YVelMode(p: SimParams): (b: int)
    ensures ValidMode(b)
  {
    if p.closedBoundaries then 2 else 0
  }

  /** The cell size is a nonzero finite number and time runs forward. */
  predicate StepDomain(N: nat, p: SimParams, dt: real)
  {
    N >= 1 && p.lengthScale != 0.0 && dt >= 0.0
  }

  /** What VelocityStep needs: Convect's divisions when it runs, and a
      defined, nonnegative viscosity in every cell. */
  ghost predicate VelocityReady(N: nat, p: SimParams, sqrt: real -> real, dt: real, f: Fields)
  {
    && StepDomain(N, p, dt) && Sized(N, f)
    && (p.gravityOn && p.grav != 0.0 ==> ConvectDefined(N, p, f.dens, f.temp))
    && CoefficientsOK(N, p, sqrt, Viscosity, Fixed(f.dens), Fixed(f.temp))
  }

  /** VelocityStep. Writing B_u, B_v for the buffers xVel and yVel name on
      entry and B_u', B_v' for xVel_prev and yVel_prev: the sources are added
      into B_u, B_v; the diffusion relaxes B_u', B_v' (which start from the
      source contents) towards them; the first projection uses B_u, B_v as
      scratch; advection carries the projected velocity (now in B_u', B_v')
      into B_u, B_v; the second projection uses B_u', B_v' as scratch. */
  function VelocityStep(N: nat, p: SimParams, sqrt: real -> real, dt: real, f: Fields): (r: Fields)
    requires VelocityReady(N, p, sqrt, dt, f)
    ensures Sized(N, r)
    ensures r.dens == f.dens && r.temp == f.temp && r.densPrev == f.densPrev && r.tempPrev == f.tempPrev
  {
    var a := DiffusionRate(p, N, dt);
    var h := CellSize(p, N);
    var dt0 := AdvectionRate(p, N, dt);
    var x1 := Added(f.xVel, f.xVelPrev, dt);
    var y0 := Added(f.yVel, f.yVelPrev, dt);
    var y1 := if p.gravityOn && p.grav != 0.0 then Convected(N, p, dt, y0, f.dens, f.temp) else y0;
    var ux := Relax(N, XVelMode(p), Diffusion(x1, a, p, sqrt, Viscosity, Fixed(f.dens), Fixed(f.temp)), f.xVelPrev, p.solverSteps);
    var uy := Relax(N, YVelMode(p), Diffusion(y1, a, p, sqrt, Viscosity, Fixed(f.dens), Fixed(f.temp)), f.yVelPrev, p.solverSteps);
    var r1 := Hodge(N, h, p.solverSteps, ux, uy, x1, y1);
    var ax := Advect(N, XVelMode(p), dt0, r1.p, r1.u, r1.u, r1.v);
    var ay := Advect(N, YVelMode(p), dt0, r1.div, r1.v, r1.u, r1.v);
    var r2 := Hodge(N, h, p.solverSteps, ax, ay, r1.u, r1.v);
    f.(xVel := r2.u, yVel := r2.v, xVelPrev := r2.p, yVelPrev := r2.div)
  }

  /** What DensityStep needs: a defined, nonnegative mass diffusivity. The
      coefficient reads only the temperature, here the fixed field temp. */
  ghost predicate DensityReady(N: nat, p: SimParams, sqrt: real -> real, dt: real, f: Fields)
  {
    && StepDomain(N, p, dt) && Sized(N, f)
    && CoefficientsOK(N, p, sqrt, MassDiffusivity, Relaxed, Fixed(f.temp))
  }

  /** The dissipation branch of DensityStep applied to x: the fall-off variant
      only when both densDecay > 0 and tempFactor > 0. */
  function DensityDecay(p: SimParams, dt: real, x: seq<real>, temp: seq<real>): (r: seq<real>)
    requires |temp| == |x|
    ensures |r| == |x|
    ensures p.densDecay <= 0.0 ==> r == x
    ensures p.densDecay > 0.0 && p.tempFactor <= 0.0 ==> r == Dissipated(x, 0.0, p.densDecay, dt)
    ensures p.densDecay > 0.0 && p.tempFactor > 0.0 ==>
      r == DissipatedWithFallOff(x, 0.0, p.densDecay, p.tempFactor, dt, temp, p.airTemp)
  {
    if p.densDecay > 0.0 then
      (if p.tempFactor > 0.0 then DissipatedWithFallOff(x, 0.0, p.densDecay, p.tempFactor, dt, temp, p.airTemp)
       else Dissipated(x, 0.0, p.densDecay, dt))
    else x
  }

  /** The density diffused in DensityStep: the buffer named by dens_prev
      (holding the source) relaxed towards dens + dt * source. */
  function DiffusedDensity(N: nat, p: SimParams, sqrt: real -> real, dt: real, f: Fields): (r: seq<real>)
    requires DensityReady(N, p, sqrt, dt, f)
    ensures |r| == Size(N)
  {
    var a := DiffusionRate(p, N, dt);
    var d1 := Added(f.dens, f.densPrev, dt);
    Relax(N, DensityMode(p), Diffusion(d1, a, p, sqrt, MassDiffusivity, Relaxed, Fixed(f.temp)), f.densPrev, p.solverSteps)
  }

  /** DensityStep as the source has it. After the second swap dens names the
      buffer holding dens + dt * source and dens_prev the diffused density;
      the dissipation is applied to dens, which the advection then
      overwrites in full from dens_prev. */
  function DensityStep(N: nat, p: SimParams, sqrt: real -> real, dt: real, f: Fields): (r: Fields)
    requires DensityReady(N, p, sqrt, dt, f)
    ensures Sized(N, r)
    ensures r.xVel == f.xVel && r.yVel == f.yVel && r.temp == f.temp
    ensures r.xVelPrev == f.xVelPrev && r.yVelPrev == f.yVelPrev && r.tempPrev == f.tempPrev
    ensures r.densPrev == DiffusedDensity(N, p, sqrt, dt, f)
  {
    var d1 := Added(f.dens, f.densPrev, dt);
    var diffused := DiffusedDensity(N, p, sqrt, dt, f);
    var decayed := DensityDecay(p, dt, d1, f.temp);
    f.(dens := Advect(N, DensityMode(p), AdvectionRate(p, N, dt), decayed, diffused, f.xVel, f.yVel), densPrev := diffused)
  }

  /** DensityStep with the dissipation applied to the diffused density, the
      field the advection reads. */
  function CorrectedDensityStep(N: nat, p: SimParams, sqrt: real -> real, dt: real, f: Fields): (r: Fields)
    requires DensityReady(N, p, sqrt, dt, f)
    ensures Sized(N, r)
    ensures r.xVel == f.xVel && r.yVel == f.yVel && r.temp == f.temp
    ensures r.xVelPrev == f.xVelPrev && r.yVelPrev == f.yVelPrev && r.tempPrev == f.tempPrev
    ensures r.densPrev == DensityDecay(p, dt, DiffusedDensity(N, p, sqrt, dt, f), f.temp)
  {
    var d1 := Added(f.dens, f.densPrev, dt);
    var decayed := DensityDecay(p, dt, DiffusedDensity(N, p, sqrt, dt, f), f.temp);
    f.(dens := Advect(N, DensityMode(p), AdvectionRate(p, N, dt), d1, decayed, f.xVel, f.yVel), densPrev := decayed)
  }

  /** What TemperatureStep needs: a defined, nonnegative thermal diffusivity.
      The coefficient reads fields.temp, which during the diffusion is the
      buffer being relaxed. */
  ghost predicate TemperatureReady(N: nat, p: SimParams, sqrt: real -> real, dt: real, f: Fields)
  {
    && StepDomain(N, p, dt) && Sized(N, f)
    && CoefficientsOK(N, p, sqrt, ThermalDiffusivity, Fixed(f.dens), Relaxed)
  }

  /** The cooling branch of TemperatureStep applied to x. */
  function TemperatureDecay(p: SimParams, dt: real, x: seq<real>): (r: seq<real>)
    ensures |r| == |x|
    ensures p.tempDecay <= 0.0 ==> r == x
    ensures p.tempDecay > 0.0 ==> r == Dissipated(x, p.airTemp, p.tempDecay, dt)
  {
    if p.tempDecay > 0.0 then Dissipated(x, p.airTemp, p.tempDecay, dt) else x
  }

  /** The temperature diffused in TemperatureStep, with mode 0 boundaries. */
  function DiffusedTemperature(N: nat, p: SimParams, sqrt: real -> real, dt: real, f: Fields): (r: seq<real>)
    requires TemperatureReady(N, p, sqrt, dt, f)
    ensures |r| == Size(N)
  {
    var a := DiffusionRate(p, N, dt);
    var t1 := HeatMerged(f.temp, f.tempPrev);
    Relax(N, 0, Diffusion(t1, a, p, sqrt, ThermalDiffusivity, Fixed(f.dens), Relaxed), f.tempPrev, p.solverSteps)
  }

  /** TemperatureStep as the source has it: the cooling is applied to temp,
      which the advection then overwrites in full from temp_prev. */
  function TemperatureStep(N: nat, p: SimParams, sqrt: real -> real, dt: real, f: Fields): (r: Fields)
    requires TemperatureReady(N, p, sqrt, dt, f)
    ensures Sized(N, r)
    ensures r.dens == f.dens && r.xVel == f.xVel && r.yVel == f.yVel
    ensures r.densPrev == f.densPrev && r.xVelPrev == f.xVelPrev && r.yVelPrev == f.yVelPrev
    ensures r.tempPrev == DiffusedTemperature(N, p, sqrt, dt, f)
  {
    var t1 := HeatMerged(f.temp, f.tempPrev);
    var diffused := DiffusedTemperature(N, p, sqrt, dt, f);
    f.(temp := Advect(N, 0, AdvectionRate(p, N, dt), TemperatureDecay(p, dt, t1), diffused, f.xVel, f.yVel),
       tempPrev := diffused)
  }

  /** TemperatureStep with the cooling applied to the diffused temperature,
      the field the advection reads. */
  function CorrectedTemperatureStep(N: nat, p: SimParams, sqrt: real -> real, dt: real, f: Fields): (r: Fields)
    requires TemperatureReady(N, p, sqrt, dt, f)
    ensures Sized(N, r)
    ensures r.dens == f.dens && r.xVel == f.xVel && r.yVel == f.yVel
    ensures r.densPrev == f.densPrev && r.xVelPrev == f.xVelPrev && r.yVelPrev == f.yVelPrev
    ensures r.tempPrev == TemperatureDecay(p, dt, DiffusedTemperature(N, p, sqrt, dt, f))
  {
    var t1 := HeatMerged(f.temp, f.tempPrev);
    var decayed := TemperatureDecay(p, dt, DiffusedTemperature(N, p, sqrt, dt, f));
    f.(temp := Advect(N, 0, AdvectionRate(p, N, dt), t1, decayed, f.xVel, f.yVel), tempPrev := decayed)
  }

  /** The thermal diffusivity does not depend on the gas density. */
  lemma ThermalIgnoresDensity(N: nat, p: SimParams, sqrt: real -> real, ds: Src, ds': Src, ts: Src)
    requires SrcFits(N, ds')
    requires CoefficientsOK(N, p, sqrt, ThermalDiffusivity, ds, ts)
    ensures CoefficientsOK(N, p, sqrt, ThermalDiffusivity, ds', ts)
  {
    forall i, j, v | IsInterior(N, i, j)
      ensures CoefficientOK(p, sqrt, ThermalDiffusivity, Pick(N, ds', i, j, v), Pick(N, ts, i, j, v))
    {
      assert CoefficientOK(p, sqrt, ThermalDiffusivity, Pick(N, ds, i, j, v), Pick(N, ts, i, j, v));
    }
  }

  /** The fields after the four SetSource calls: each scratch buffer holds its source. */
  function WithSources(f: Fields, s: Sources): (r: Fields)
    ensures r.dens == f.dens && r.xVel == f.xVel && r.yVel == f.yVel && r.temp == f.temp
    ensures r.densPrev == s.dens && r.xVelPrev == s.xVel && r.yVelPrev == s.yVel && r.tempPrev == s.temp
  {
    f.(densPrev := s.dens, xVelPrev := s.xVel, yVelPrev := s.yVel, tempPrev := s.temp)
  }

  /** What SimulationStep needs, stated on its inputs. dt is the time step
      already scaled: the method computes dt = timeStep * timeScale. */
  ghost predicate SimulationReady(N: nat, p: SimParams, sqrt: real -> real, dt: real, f: Fields, s: Sources)
  {
    var f1 := WithSources(f, s);
    && SourcesSized(N, s)
    && VelocityReady(N, p, sqrt, dt, f1)
    && CoefficientsOK(N, p, sqrt, MassDiffusivity, Relaxed, Fixed(f.temp))
    && (p.temperatureOn ==> CoefficientsOK(N, p, sqrt, ThermalDiffusivity, Fixed(f.dens), Relaxed))
  }

  /** SimulationStep over the scaled time step dt: the sources are copied
      into the scratch buffers, then the velocity, density and (when enabled)
      temperature steps run in that order. */
  function SimulationStep(N: nat, p: SimParams, sqrt: real -> real, dt: real, f: Fields, s: Sources): (r: Fields)
    requires SimulationReady(N, p, sqrt, dt, f, s)
    ensures Sized(N, r)
    ensures !p.temperatureOn ==> r.temp == f.temp && r.tempPrev == s.temp
  {
    var f2 := VelocityStep(N, p, sqrt, dt, WithSources(f, s));
    var f3 := DensityStep(N, p, sqrt, dt, f2);
    if p.temperatureOn then
      ThermalIgnoresDensity(N, p, sqrt, Fixed(f.dens), Fixed(f3.dens), Relaxed);
      TemperatureStep(N, p, sqrt, dt, f3)
    else f3
  }

  /** SimulationStep over the corrected density and temperature steps. */
  function CorrectedSimulationStep(N: nat, p: SimParams, sqrt: real -> real, dt: real, f: Fields, s: Sources): (r: Fields)
    requires SimulationReady(N, p, sqrt, dt, f, s)
    ensures Sized(N, r)
    ensures !p.temperatureOn ==> r.temp == f.temp && r.tempPrev == s.temp
  {
    var f2 := VelocityStep(N, p, sqrt, dt, WithSources(f, s));
    var f3 := CorrectedDensityStep(N, p, sqrt, dt, f2);
    if p.temperatureOn then
      ThermalIgnoresDensity(N, p, sqrt, Fixed(f.dens), Fixed(f3.dens), Relaxed);
      CorrectedTemperatureStep(N, p, sqrt, dt, f3)
    else f3
  }

  /** A state that each of the three steps leaves as it is, and whose
      scratch buffers already hold the sources, is left as it is by SimulationStep. */
  lemma StepsFixedPoint(N: nat, p: SimParams, sqrt: real -> real, dt: real, f: Fields, s: Sources)
    requires SimulationReady(N, p, sqrt, dt, f, s)
    requires VelocityStep(N, p, sqrt, dt, WithSources(f, s)) == f
    requires DensityReady(N, p, sqrt, dt, f) && DensityStep(N, p, sqrt, dt, f) == f
    requires p.temperatureOn ==> TemperatureReady(N, p, sqrt, dt, f) && TemperatureStep(N, p, sqrt, dt, f) == f
    ensures SimulationStep(N, p, sqrt, dt, f, s) == f
  {
  }

  /** The same for the corrected composition. */
  lemma CorrectedStepsFixedPoint(N: nat, p: SimParams, sqrt: real -> real, dt: real, f: Fields, s: Sources)
    requires SimulationReady(N, p, sqrt, dt, f, s)
    requires VelocityStep(N, p, sqrt, dt, WithSources(f, s)) == f
    requires DensityReady(N, p, sqrt, dt, f) && CorrectedDensityStep(N, p, sqrt, dt, f) == f
    requires p.temperatureOn ==> TemperatureReady(N, p, sqrt, dt, f) && CorrectedTemperatureStep(N, p, sqrt, dt, f) == f
    ensures CorrectedSimulationStep(N, p, sqrt, dt, f, s) == f
  {
  }
}
