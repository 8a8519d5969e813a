/** Properties of the step sequence: the boundary relations each step leaves
    behind, the rest state as an equilibrium, the range bounds the scalar
    steps keep, and the effect of the dissipation placement. */
module StepProperties {
  import opened Grid
  import opened Physics
  import opened Boundary
  import opened Pointwise
  import opened Relaxation
  import opened Advection
  import opened Projection
  import opened Steps

  /** A field in [c, c] is the constant field c. */
  lemma ConstantField(N: nat, x: seq<real>, c: real)
    requires |x| == Size(N) && InRange(N, x, c, c)
    ensures x == Fill(Size(N), c)
  {
    var z := Fill(Size(N), c);
    forall i, j | InGrid(N, i, j)
      ensures At(N, x, i, j) == At(N, z, i, j)
    {
      IndInRange(N, i, j);
    }
    FieldExtensionality(N, x, z);
  }

  lemma FillInRange(N: nat, c: real)
    ensures InRange(N, Fill(Size(N), c), c, c)
  {
    forall i, j | InGrid(N, i, j)
      ensures At(N, Fill(Size(N), c), i, j) == c
    {
      IndInRange(N, i, j);
    }
  }

  /** The zero velocity field is projected onto itself. */
  lemma HodgeOfZero(N: nat, h: real, steps: int)
    requires N >= 1 && h != 0.0
    ensures var z := Fill(Size(N), 0.0);
      Hodge(N, h, steps, z, z, z, z) == Projected(z, z, z, z)
  {
    var z := Fill(Size(N), 0.0);
    FillInRange(N, 0.0);
    forall i, j | IsInterior(N, i, j)
      ensures DivergenceCell(N, h, z, z, i, j) == 0.0
    {
      assert At(N, z, i + 1, j) == 0.0 && At(N, z, i - 1, j) == 0.0;
      assert At(N, z, i, j + 1) == 0.0 && At(N, z, i, j - 1) == 0.0;
    }
    HodgeDivergenceFree(N, h, steps, z, z, z, z);
    var r := Hodge(N, h, steps, z, z, z, z);
    BoundaryKeepsRange(N, 1, z, 0.0, 0.0);
    BoundaryKeepsRange(N, 2, z, 0.0, 0.0);
    ConstantField(N, r.u, 0.0);
    ConstantField(N, r.v, 0.0);
    ConstantField(N, r.p, 0.0);
    ConstantField(N, r.div, 0.0);
  }

  /** Relaxation and advection of the constant field c, with a target and a
      start field at c, give c back whenever the boundary mode keeps [c, c]. */
  lemma RelaxConstant(N: nat, b: int, st: Stencil, steps: int, c: real)
    requires N >= 1 && ValidMode(b) && StencilOK(N, st) && ModeKeepsRange(b, c, c)
    requires StencilWithin(N, st, c, c)
    ensures Relax(N, b, st, Fill(Size(N), c), steps) == Fill(Size(N), c)
  {
    FillInRange(N, c);
    RelaxWithin(N, b, st, Fill(Size(N), c), steps, c, c);
    ConstantField(N, Relax(N, b, st, Fill(Size(N), c), steps), c);
  }

  lemma AdvectConstant(N: nat, b: int, dt0: real, d: seq<real>, u: seq<real>, v: seq<real>, c: real)
    requires N >= 1 && ValidMode(b) && ModeKeepsRange(b, c, c)
    requires |d| == Size(N) && |u| == Size(N) && |v| == Size(N)
    ensures Advect(N, b, dt0, d, Fill(Size(N), c), u, v) == Fill(Size(N), c)
  {
    FillInRange(N, c);
    AdvectWithin(N, b, dt0, d, Fill(Size(N), c), u, v, c, c);
    ConstantField(N, Advect(N, b, dt0, d, Fill(Size(N), c), u, v), c);
  }

  /** The fields ResetState leaves: temperatures at airTemp, everything else 0. */
  function RestFields(N: nat, p: SimParams): (f: Fields)
    ensures Sized(N, f)
  {
    var z, t := Fill(Size(N), 0.0), Fill(Size(N), p.airTemp);
    Fields(z, z, z, t, z, z, z, t)
  }

  /** The sources ResetSources leaves. */
  function RestSources(N: nat, p: SimParams): (s: Sources)
    ensures SourcesSized(N, s)
  {
    var z, t := Fill(Size(N), 0.0), Fill(Size(N), p.airTemp);
    Sources(z, z, z, t)
  }

  /** With no gas, no motion and no sources, the velocity step changes
      nothing, provided a zero gas density feels no buoyancy. */
  lemma VelocityAtRest(N: nat, p: SimParams, sqrt: real -> real, dt: real, f: Fields)
    requires f == RestFields(N, p) && VelocityReady(N, p, sqrt, dt, f)
    requires p.gravityOn && p.grav != 0.0 ==> p.airDens != 0.0
    ensures VelocityStep(N, p, sqrt, dt, f) == f
  {
    var z := Fill(Size(N), 0.0);
    var a := DiffusionRate(p, N, dt);
    var h := CellSize(p, N);
    FillInRange(N, 0.0);
    assert Added(z, z, dt) == z;
    if p.gravityOn && p.grav != 0.0 {
      ConvectWithoutGas(N, p, dt, z, z, f.temp);
    }
    RelaxConstant(N, XVelMode(p), Diffusion(z, a, p, sqrt, Viscosity, Fixed(f.dens), Fixed(f.temp)), p.solverSteps, 0.0);
    RelaxConstant(N, YVelMode(p), Diffusion(z, a, p, sqrt, Viscosity, Fixed(f.dens), Fixed(f.temp)), p.solverSteps, 0.0);
    HodgeOfZero(N, h, p.solverSteps);
    AdvectConstant(N, XVelMode(p), AdvectionRate(p, N, dt), z, z, z, 0.0);
    AdvectConstant(N, YVelMode(p), AdvectionRate(p, N, dt), z, z, z, 0.0);
  }

  /** Without gas and without a density source the density step changes nothing. */
  lemma DensityAtRest(N: nat, p: SimParams, sqrt: real -> real, dt: real, f: Fields)
    requires f == RestFields(N, p) && DensityReady(N, p, sqrt, dt, f)
    ensures DensityStep(N, p, sqrt, dt, f) == f
  {
    var z := Fill(Size(N), 0.0);
    var a := DiffusionRate(p, N, dt);
    FillInRange(N, 0.0);
    assert Added(z, z, dt) == z;
    RelaxConstant(N, DensityMode(p), Diffusion(z, a, p, sqrt, MassDiffusivity, Relaxed, Fixed(f.temp)), p.solverSteps, 0.0);
    assert Dissipated(z, 0.0, p.densDecay, dt) == z;
    assert DissipatedWithFallOff(z, 0.0, p.densDecay, p.tempFactor, dt, f.temp, p.airTemp) == z;
    AdvectConstant(N, DensityMode(p), AdvectionRate(p, N, dt), z, z, z, 0.0);
  }

  /** The same for the corrected density step. */
  lemma CorrectedDensityAtRest(N: nat, p: SimParams, sqrt: real -> real, dt: real, f: Fields)
    requires f == RestFields(N, p) && DensityReady(N, p, sqrt, dt, f)
    ensures CorrectedDensityStep(N, p, sqrt, dt, f) == f
  {
    var z := Fill(Size(N), 0.0);
    var a := DiffusionRate(p, N, dt);
    FillInRange(N, 0.0);
    assert Added(z, z, dt) == z;
    RelaxConstant(N, DensityMode(p), Diffusion(z, a, p, sqrt, MassDiffusivity, Relaxed, Fixed(f.temp)), p.solverSteps, 0.0);
    assert Dissipated(z, 0.0, p.densDecay, dt) == z;
    assert DissipatedWithFallOff(z, 0.0, p.densDecay, p.tempFactor, dt, f.temp, p.airTemp) == z;
    AdvectConstant(N, DensityMode(p), AdvectionRate(p, N, dt), z, z, z, 0.0);
  }

  /** At air temperature everywhere, with a source at air temperature, the
      temperature step changes nothing. */
  lemma TemperatureAtRest(N: nat, p: SimParams, sqrt: real -> real, dt: real, f: Fields)
    requires f == RestFields(N, p) && TemperatureReady(N, p, sqrt, dt, f)
    ensures TemperatureStep(N, p, sqrt, dt, f) == f
  {
    var t := Fill(Size(N), p.airTemp);
    var a := DiffusionRate(p, N, dt);
    FillInRange(N, p.airTemp);
    assert f.temp == t && f.tempPrev == t;
    assert HeatMerged(f.temp, f.tempPrev) == t;
    var st := Diffusion(t, a, p, sqrt, ThermalDiffusivity, Fixed(f.dens), Relaxed);
    RelaxConstant(N, 0, st, p.solverSteps, p.airTemp);
    assert DiffusedTemperature(N, p, sqrt, dt, f) == t;
    DissipatedAtEquilibrium(Size(N), p.airTemp, p.tempDecay, dt);
    assert TemperatureDecay(p, dt, t) == t;
    AdvectConstant(N, 0, AdvectionRate(p, N, dt), t, f.xVel, f.yVel, p.airTemp);
  }

  /** The same for the corrected temperature step. */
  lemma CorrectedTemperatureAtRest(N: nat, p: SimParams, sqrt: real -> real, dt: real, f: Fields)
    requires f == RestFields(N, p) && TemperatureReady(N, p, sqrt, dt, f)
    ensures CorrectedTemperatureStep(N, p, sqrt, dt, f) == f
  {
    var t := Fill(Size(N), p.airTemp);
    var a := DiffusionRate(p, N, dt);
    FillInRange(N, p.airTemp);
    assert f.temp == t && f.tempPrev == t;
    assert HeatMerged(f.temp, f.tempPrev) == t;
    var st := Diffusion(t, a, p, sqrt, ThermalDiffusivity, Fixed(f.dens), Relaxed);
    RelaxConstant(N, 0, st, p.solverSteps, p.airTemp);
    assert DiffusedTemperature(N, p, sqrt, dt, f) == t;
    DissipatedAtEquilibrium(Size(N), p.airTemp, p.tempDecay, dt);
    assert TemperatureDecay(p, dt, t) == t;
    AdvectConstant(N, 0, AdvectionRate(p, N, dt), t, f.xVel, f.yVel, p.airTemp);
  }

  /** The velocity step of SimulationStep, started from the reset state. */
  lemma VelocityFromRest(N: nat, p: SimParams, sqrt: real -> real, dt: real)
    requires SimulationReady(N, p, sqrt, dt, RestFields(N, p), RestSources(N, p))
    requires p.gravityOn && p.grav != 0.0 ==> p.airDens != 0.0
    ensures VelocityStep(N, p, sqrt, dt, WithSources(RestFields(N, p), RestSources(N, p))) == RestFields(N, p)
  {
    var f1 := WithSources(RestFields(N, p), RestSources(N, p));
    assert f1 == RestFields(N, p);
    VelocityAtRest(N, p, sqrt, dt, f1);
  }

  /** The state ResetState and ResetSources leave is an equilibrium of
      SimulationStep, unless gravity acts on an atmosphere of zero density
      (where the buoyant force of an empty cell is 1). */
  lemma RestIsEquilibrium(N: nat, p: SimParams, sqrt: real -> real, dt: real)
    requires SimulationReady(N, p, sqrt, dt, RestFields(N, p), RestSources(N, p))
    requires p.gravityOn && p.grav != 0.0 ==> p.airDens != 0.0
    ensures SimulationStep(N, p, sqrt, dt, RestFields(N, p), RestSources(N, p)) == RestFields(N, p)
  {
    var f := RestFields(N, p);
    VelocityFromRest(N, p, sqrt, dt);
    DensityAtRest(N, p, sqrt, dt, f);
    if p.temperatureOn {
      TemperatureAtRest(N, p, sqrt, dt, f);
    }
    StepsFixedPoint(N, p, sqrt, dt, f, RestSources(N, p));
  }

  /** The same for the corrected composition. */
  lemma CorrectedRestIsEquilibrium(N: nat, p: SimParams, sqrt: real -> real, dt: real)
    requires SimulationReady(N, p, sqrt, dt, RestFields(N, p), RestSources(N, p))
    requires p.gravityOn && p.grav != 0.0 ==> p.airDens != 0.0
    ensures CorrectedSimulationStep(N, p, sqrt, dt, RestFields(N, p), RestSources(N, p)) == RestFields(N, p)
  {
    var f := RestFields(N, p);
    VelocityFromRest(N, p, sqrt, dt);
    CorrectedDensityAtRest(N, p, sqrt, dt, f);
    if p.temperatureOn {
      CorrectedTemperatureAtRest(N, p, sqrt, dt, f);
    }
    CorrectedStepsFixedPoint(N, p, sqrt, dt, f, RestSources(N, p));
  }

  /** On exit of VelocityStep the velocity satisfies the boundary relations
      of modes 1 (xVel) and 2 (yVel), whatever closedBoundaries says: the
      last projection sets them. */
  lemma VelocityStepBoundaries(N: nat, p: SimParams, sqrt: real -> real, dt: real, f: Fields)
    requires VelocityReady(N, p, sqrt, dt, f)
    ensures BoundaryHolds(N, 1, VelocityStep(N, p, sqrt, dt, f).xVel)
    ensures BoundaryHolds(N, 2, VelocityStep(N, p, sqrt, dt, f).yVel)
  {
    var a := DiffusionRate(p, N, dt);
    var h := CellSize(p, N);
    var dt0 := AdvectionRate(p, N, dt);
    var x1 := Added(f.xVel, f.xVelPrev, dt);
    var y0 := Added(f.yVel, f.yVelPrev, dt);
    var y1 := if p.gravityOn && p.grav != 0.0 then Convected(N, p, dt, y0, f.dens, f.temp) else y0;
    var ux := Relax(N, XVelMode(p), Diffusion(x1, a, p, sqrt, Viscosity, Fixed(f.dens), Fixed(f.temp)), f.xVelPrev, p.solverSteps);
    var uy := Relax(N, YVelMode(p), Diffusion(y1, a, p, sqrt, Viscosity, Fixed(f.dens), Fixed(f.temp)), f.yVelPrev, p.solverSteps);
    var r1 := Hodge(N, h, p.solverSteps, ux, uy, x1, y1);
    var ax := Advect(N, XVelMode(p), dt0, r1.p, r1.u, r1.u, r1.v);
    var ay := Advect(N, YVelMode(p), dt0, r1.div, r1.v, r1.u, r1.v);
    HodgeBoundaries(N, h, p.solverSteps, ax, ay, r1.u, r1.v);
  }

  /** On exit of DensityStep the density satisfies the boundary relations of
      its mode (0 with closed boundaries, -1 otherwise). */
  lemma DensityStepBoundaries(N: nat, p: SimParams, sqrt: real -> real, dt: real, f: Fields)
    requires DensityReady(N, p, sqrt, dt, f)
    ensures BoundaryHolds(N, DensityMode(p), DensityStep(N, p, sqrt, dt, f).dens)
  {
    var d1 := Added(f.dens, f.densPrev, dt);
    var decayed := DensityDecay(p, dt, d1, f.temp);
    BoundaryEstablishes(N, DensityMode(p), AdvectInterior(N, AdvectionRate(p, N, dt), decayed, DiffusedDensity(N, p, sqrt, dt, f), f.xVel, f.yVel));
  }

  /** The same for the corrected density step. */
  lemma CorrectedDensityStepBoundaries(N: nat, p: SimParams, sqrt: real -> real, dt: real, f: Fields)
    requires DensityReady(N, p, sqrt, dt, f)
    ensures BoundaryHolds(N, DensityMode(p), CorrectedDensityStep(N, p, sqrt, dt, f).dens)
  {
    var d1 := Added(f.dens, f.densPrev, dt);
    var decayed := DensityDecay(p, dt, DiffusedDensity(N, p, sqrt, dt, f), f.temp);
    BoundaryEstablishes(N, DensityMode(p), AdvectInterior(N, AdvectionRate(p, N, dt), d1, decayed, f.xVel, f.yVel));
  }

  /** On exit of TemperatureStep the temperature satisfies the mode 0 relations. */
  lemma TemperatureStepBoundaries(N: nat, p: SimParams, sqrt: real -> real, dt: real, f: Fields)
    requires TemperatureReady(N, p, sqrt, dt, f)
    ensures BoundaryHolds(N, 0, TemperatureStep(N, p, sqrt, dt, f).temp)
  {
    var t1 := HeatMerged(f.temp, f.tempPrev);
    BoundaryEstablishes(N, 0, AdvectInterior(N, AdvectionRate(p, N, dt), TemperatureDecay(p, dt, t1), DiffusedTemperature(N, p, sqrt, dt, f), f.xVel, f.yVel));
  }

  /** The same for the corrected temperature step. */
  lemma CorrectedTemperatureStepBoundaries(N: nat, p: SimParams, sqrt: real -> real, dt: real, f: Fields)
    requires TemperatureReady(N, p, sqrt, dt, f)
    ensures BoundaryHolds(N, 0, CorrectedTemperatureStep(N, p, sqrt, dt, f).temp)
  {
    var t1 := HeatMerged(f.temp, f.tempPrev);
    var decayed := TemperatureDecay(p, dt, DiffusedTemperature(N, p, sqrt, dt, f));
    BoundaryEstablishes(N, 0, AdvectInterior(N, AdvectionRate(p, N, dt), t1, decayed, f.xVel, f.yVel));
  }

  /** The density step keeps the density inside [lo, hi] when the source
      and dens + dt * source are inside it and the boundary mode keeps it. */
  lemma DensityStepWithin(N: nat, p: SimParams, sqrt: real -> real, dt: real, f: Fields, lo: real, hi: real)
    requires DensityReady(N, p, sqrt, dt, f) && ModeKeepsRange(DensityMode(p), lo, hi)
    requires InteriorInRange(N, Added(f.dens, f.densPrev, dt), lo, hi) && InRange(N, f.densPrev, lo, hi)
    ensures InRange(N, DensityStep(N, p, sqrt, dt, f).dens, lo, hi)
    ensures InRange(N, DensityStep(N, p, sqrt, dt, f).densPrev, lo, hi)
  {
    var d1 := Added(f.dens, f.densPrev, dt);
    var st := Diffusion(d1, DiffusionRate(p, N, dt), p, sqrt, MassDiffusivity, Relaxed, Fixed(f.temp));
    assert lo <= At(N, f.densPrev, 0, 0) <= hi;
    RelaxWithin(N, DensityMode(p), st, f.densPrev, p.solverSteps, lo, hi);
    AdvectWithin(N, DensityMode(p), AdvectionRate(p, N, dt), DensityDecay(p, dt, d1, f.temp),
      DiffusedDensity(N, p, sqrt, dt, f), f.xVel, f.yVel, lo, hi);
  }

  /** The temperature step keeps the temperature inside any interval holding
      the temperature and its source. */
  lemma TemperatureStepWithin(N: nat, p: SimParams, sqrt: real -> real, dt: real, f: Fields, lo: real, hi: real)
    requires TemperatureReady(N, p, sqrt, dt, f)
    requires InRange(N, f.temp, lo, hi) && InRange(N, f.tempPrev, lo, hi)
    ensures InRange(N, TemperatureStep(N, p, sqrt, dt, f).temp, lo, hi)
    ensures InRange(N, TemperatureStep(N, p, sqrt, dt, f).tempPrev, lo, hi)
  {
    var t1 := HeatMerged(f.temp, f.tempPrev);
    forall i, j | IsInterior(N, i, j)
      ensures lo <= At(N, t1, i, j) <= hi
    {
      IndInRange(N, i, j);
      assert lo <= At(N, f.temp, i, j) <= hi && lo <= At(N, f.tempPrev, i, j) <= hi;
    }
    var st := Diffusion(t1, DiffusionRate(p, N, dt), p, sqrt, ThermalDiffusivity, Fixed(f.dens), Relaxed);
    assert lo <= At(N, f.temp, 0, 0) <= hi;
    RelaxWithin(N, 0, st, f.tempPrev, p.solverSteps, lo, hi);
    AdvectWithin(N, 0, AdvectionRate(p, N, dt), TemperatureDecay(p, dt, t1),
      DiffusedTemperature(N, p, sqrt, dt, f), f.xVel, f.yVel, lo, hi);
  }

  /** The velocity is zero in every interior cell. */
  ghost predicate Still(N: nat, f: Fields)
    requires Sized(N, f)
  {
    forall i, j {:trigger At(N, f.xVel, i, j)} {:trigger At(N, f.yVel, i, j)} :: IsInterior(N, i, j) ==>
      At(N, f.xVel, i, j) == 0.0 && At(N, f.yVel, i, j) == 0.0
  }

  lemma StillAdvect(N: nat, b: int, dt0: real, d: seq<real>, d0: seq<real>, f: Fields)
    requires N >= 1 && ValidMode(b) && Sized(N, f) && Still(N, f)
    requires |d| == Size(N) && |d0| == Size(N)
    ensures Advect(N, b, dt0, d, d0, f.xVel, f.yVel) == SetBoundary(N, b, d0)
  {
    AdvectStill(N, b, dt0, d, d0, f.xVel, f.yVel);
  }

  /** DensityStep as written, in still air: the new density is the diffused
      density with the boundary rule applied. densDecay and tempFactor do not
      occur, so the dissipation is lost. */
  lemma DensityDecayLost(N: nat, p: SimParams, sqrt: real -> real, dt: real, f: Fields)
    requires DensityReady(N, p, sqrt, dt, f) && Still(N, f)
    ensures DensityStep(N, p, sqrt, dt, f).dens ==
      SetBoundary(N, DensityMode(p), DiffusedDensity(N, p, sqrt, dt, f))
  {
    var d1 := Added(f.dens, f.densPrev, dt);
    StillAdvect(N, DensityMode(p), AdvectionRate(p, N, dt), DensityDecay(p, dt, d1, f.temp), DiffusedDensity(N, p, sqrt, dt, f), f);
  }

  /** DensityStep as written, for every velocity field: the advection starts
      from dens + dt * source instead of its dissipation, so the result does
      not depend on densDecay or tempFactor. */
  lemma DensityDecayIgnored(N: nat, p: SimParams, sqrt: real -> real, dt: real, f: Fields)
    requires DensityReady(N, p, sqrt, dt, f)
    ensures DensityStep(N, p, sqrt, dt, f).dens ==
      Advect(N, DensityMode(p), AdvectionRate(p, N, dt), Added(f.dens, f.densPrev, dt),
        DiffusedDensity(N, p, sqrt, dt, f), f.xVel, f.yVel)
  {
    var d1 := Added(f.dens, f.densPrev, dt);
    AdvectIgnoresTarget(N, DensityMode(p), AdvectionRate(p, N, dt), DensityDecay(p, dt, d1, f.temp), d1,
      DiffusedDensity(N, p, sqrt, dt, f), f.xVel, f.yVel);
  }

  /** The corrected density step, in still air: the new density is the diffused
      density after the dissipation, with the boundary rule applied. */
  lemma DensityDecayApplied(N: nat, p: SimParams, sqrt: real -> real, dt: real, f: Fields)
    requires DensityReady(N, p, sqrt, dt, f) && Still(N, f)
    ensures CorrectedDensityStep(N, p, sqrt, dt, f).dens ==
      SetBoundary(N, DensityMode(p), DensityDecay(p, dt, DiffusedDensity(N, p, sqrt, dt, f), f.temp))
  {
    var d1 := Added(f.dens, f.densPrev, dt);
    StillAdvect(N, DensityMode(p), AdvectionRate(p, N, dt), d1, DensityDecay(p, dt, DiffusedDensity(N, p, sqrt, dt, f), f.temp), f);
  }

  /** TemperatureStep as written, in still air: the cooling is lost. */
  lemma TemperatureDecayLost(N: nat, p: SimParams, sqrt: real -> real, dt: real, f: Fields)
    requires TemperatureReady(N, p, sqrt, dt, f) && Still(N, f)
    ensures TemperatureStep(N, p, sqrt, dt, f).temp ==
      SetBoundary(N, 0, DiffusedTemperature(N, p, sqrt, dt, f))
  {
    var t1 := HeatMerged(f.temp, f.tempPrev);
    StillAdvect(N, 0, AdvectionRate(p, N, dt), TemperatureDecay(p, dt, t1), DiffusedTemperature(N, p, sqrt, dt, f), f);
  }

  /** TemperatureStep as written, for every velocity field: the result does
      not depend on tempDecay. */
  lemma TemperatureDecayIgnored(N: nat, p: SimParams, sqrt: real -> real, dt: real, f: Fields)
    requires TemperatureReady(N, p, sqrt, dt, f)
    ensures TemperatureStep(N, p, sqrt, dt, f).temp ==
      Advect(N, 0, AdvectionRate(p, N, dt), HeatMerged(f.temp, f.tempPrev),
        DiffusedTemperature(N, p, sqrt, dt, f), f.xVel, f.yVel)
  {
    var t1 := HeatMerged(f.temp, f.tempPrev);
    AdvectIgnoresTarget(N, 0, AdvectionRate(p, N, dt), TemperatureDecay(p, dt, t1), t1,
      DiffusedTemperature(N, p, sqrt, dt, f), f.xVel, f.yVel);
  }

  /** The corrected temperature step, in still air: the cooling is applied. */
  lemma TemperatureDecayApplied(N: nat, p: SimParams, sqrt: real -> real, dt: real, f: Fields)
    requires TemperatureReady(N, p, sqrt, dt, f) && Still(N, f)
    ensures CorrectedTemperatureStep(N, p, sqrt, dt, f).temp ==
      SetBoundary(N, 0, TemperatureDecay(p, dt, DiffusedTemperature(N, p, sqrt, dt, f)))
  {
    var t1 := HeatMerged(f.temp, f.tempPrev);
    StillAdvect(N, 0, AdvectionRate(p, N, dt), t1, TemperatureDecay(p, dt, DiffusedTemperature(N, p, sqrt, dt, f)), f);
  }
}
