/** SimState: the simulation state object. Its twelve float buffers are
    arrays held in a SimFields record, as the source's struct holds its
    pointers; the step methods swap which array each member names (the
    `swap` macro) and run the kernels in place. Every kernel is proved
    against the function of the same name in Pointwise, Boundary,
    Relaxation, Advection or Projection, and every step against the function
    of the same name in Steps. */
module Simulation {
  import opened Grid
  import opened Physics
  import opened Boundary
  import opened Pointwise
  import opened Relaxation
  import opened Advection
  import opened Projection
  import opened Steps
  import opened StepProperties

  /** The twelve buffer pointers of the simulation (struct SimFields). */
  datatype SimFields = SimFields(
    xVel: array<real>, yVel: array<real>, dens: array<real>, temp: array<real>,
    xVelPrev: array<real>, yVelPrev: array<real>, densPrev: array<real>, tempPrev: array<real>,
    xVelSource: array<real>, yVelSource: array<real>, densSource: array<real>, tempSource: array<real>)

  /** Every buffer holds `size` cells. */
  predicate Laid(f: SimFields, size: nat)
  {
    && f.xVel.Length == size && f.yVel.Length == size && f.dens.Length == size && f.temp.Length == size
    && f.xVelPrev.Length == size && f.yVelPrev.Length == size && f.densPrev.Length == size && f.tempPrev.Length == size
    && f.xVelSource.Length == size && f.yVelSource.Length == size && f.densSource.Length == size && f.tempSource.Length == size
  }

  /** a is none of the eight working buffers. */
  predicate Apart(f: SimFields, a: array<real>)
  {
    && a != f.xVel && a != f.yVel && a != f.dens && a != f.temp
    && a != f.xVelPrev && a != f.yVelPrev && a != f.densPrev && a != f.tempPrev
  }

  /** The eight working buffers are eight different arrays, the four source
      buffers are four different arrays, and no source buffer is a working one. */
  predicate Separate(f: SimFields)
  {
    && f.xVel != f.yVel && f.xVel != f.dens && f.xVel != f.temp && f.xVel != f.xVelPrev
    && f.xVel != f.yVelPrev && f.xVel != f.densPrev && f.xVel != f.tempPrev && f.yVel != f.dens
    && f.yVel != f.temp && f.yVel != f.xVelPrev && f.yVel != f.yVelPrev && f.yVel != f.densPrev
    && f.yVel != f.tempPrev && f.dens != f.temp && f.dens != f.xVelPrev && f.dens != f.yVelPrev
    && f.dens != f.densPrev && f.dens != f.tempPrev && f.temp != f.xVelPrev && f.temp != f.yVelPrev
    && f.temp != f.densPrev && f.temp != f.tempPrev && f.xVelPrev != f.yVelPrev && f.xVelPrev != f.densPrev
    && f.xVelPrev != f.tempPrev && f.yVelPrev != f.densPrev && f.yVelPrev != f.tempPrev && f.densPrev != f.tempPrev
    && f.xVelSource != f.yVelSource && f.xVelSource != f.densSource && f.xVelSource != f.tempSource
    && f.yVelSource != f.densSource && f.yVelSource != f.tempSource && f.densSource != f.tempSource
    && Apart(f, f.xVelSource) && Apart(f, f.yVelSource) && Apart(f, f.densSource) && Apart(f, f.tempSource)
  }

  /** Where Diffuse's coefficient callback reads a field from: the relaxed
      buffer itself when the field names it, otherwise a fixed snapshot. */
  function SrcOf(a: array<real>, x: array<real>): Src
    reads a
  {
    if a == x then Relaxed else Fixed(a[..])
  }

  /** a is where the stencil input src comes from: the relaxed buffer x
      itself, or another buffer holding src's fixed contents. */
  ghost predicate Tracks(src: Src, a: array<real>, x: array<real>)
    reads a
  {
    match src
    case Relaxed => a == x
    case Fixed(s) => a != x && a[..] == s
  }

  /** st is the diffusion stencil of weight a, parameters p, square root sqrt and coefficient kind. */
  ghost predicate DiffusionOf(st: Stencil, a: real, p: SimParams, sqrt: real -> real, kind: Coefficient)
  {
    st.Diffusion? && st.a == a && st.p == p && st.sqrt == sqrt && st.kind == kind
  }

  class SimState {
    var N: nat
    var size: nat
    var params: SimParams
    /** The square root of the C maths library, used by the coefficient functions. */
    const sqrt: real -> real
    var fields: SimFields

    /** size is (N+2)^2, every buffer holds size cells, and the buffers are laid
        out as Separate says. */
    ghost predicate Valid()
      reads this
    {
      size == Size(N) && Laid(fields, size) && Separate(fields)
    }

    /** Contents of the working buffers, under the names the fields give them now. */
    function Current(): Fields
      reads this, fields.dens, fields.xVel, fields.yVel, fields.temp
      reads fields.densPrev, fields.xVelPrev, fields.yVelPrev, fields.tempPrev
    {
      Fields(fields.dens[..], fields.xVel[..], fields.yVel[..], fields.temp[..],
             fields.densPrev[..], fields.xVelPrev[..], fields.yVelPrev[..], fields.tempPrev[..])
    }

    /** Contents of the source buffers. */
    function SourceContents(): Sources
      reads this, fields.densSource, fields.xVelSource, fields.yVelSource, fields.tempSource
    {
      Sources(fields.densSource[..], fields.xVelSource[..], fields.yVelSource[..], fields.tempSource[..])
    }

    /** SimFields(size): twelve new buffers. */
    static method NewFields(size: nat) returns (f: SimFields)
      ensures fresh(f.xVel) && fresh(f.yVel) && fresh(f.dens) && fresh(f.temp) && fresh(f.xVelPrev) && fresh(f.yVelPrev) && fresh(f.densPrev) && fresh(f.tempPrev)
      ensures fresh(f.xVelSource) && fresh(f.yVelSource) && fresh(f.densSource) && fresh(f.tempSource)
      ensures Laid(f, size) && Separate(f)
    {
      var u, v, d, t := new real[size], new real[size], new real[size], new real[size];
      var u', v', d', t' := new real[size], new real[size], new real[size], new real[size];
      var us, vs, ds, ts := new real[size], new real[size], new real[size], new real[size];
      f := SimFields(u, v, d, t, u', v', d', t', us, vs, ds, ts);
    }

    /** SimState(N, params): twelve new buffers, then ResetState. */
    constructor (N: nat, params: SimParams, sqrt: real -> real)
      ensures Valid()
      ensures fresh(fields.xVel) && fresh(fields.yVel) && fresh(fields.dens) && fresh(fields.temp) && fresh(fields.xVelPrev) && fresh(fields.yVelPrev) && fresh(fields.densPrev) && fresh(fields.tempPrev)
      ensures fresh(fields.xVelSource) && fresh(fields.yVelSource) && fresh(fields.densSource) && fresh(fields.tempSource)
      ensures this.N == N && this.params == params && this.sqrt == sqrt
      ensures Current() == RestFields(N, params) && SourceContents() == RestSources(N, params)
    {
      var size := Size(N);
      var f := NewFields(size);
      this.N, this.size, this.params, this.sqrt, fields := N, size, params, sqrt, f;
      new;
      ResetState();
    }

    /** SimState(N): the bare parameter set, then ResetState. */
    constructor WithDefaults(N: nat, sqrt: real -> real)
      ensures Valid()
      ensures fresh(fields.xVel) && fresh(fields.yVel) && fresh(fields.dens) && fresh(fields.temp) && fresh(fields.xVelPrev) && fresh(fields.yVelPrev) && fresh(fields.densPrev) && fresh(fields.tempPrev)
      ensures fresh(fields.xVelSource) && fresh(fields.yVelSource) && fresh(fields.densSource) && fresh(fields.tempSource)
      ensures this.N == N && params == DefaultParams() && this.sqrt == sqrt
      ensures Current() == RestFields(N, params) && SourceContents() == RestSources(N, params)
    {
      var size := Size(N);
      var f := NewFields(size);
      this.N, this.size, this.params, this.sqrt, fields := N, size, DefaultParams(), sqrt, f;
      new;
      ResetState();
    }

    /** SetSources: the simulation reads its sources from the given buffers. */
    method SetSources(density: array<real>, xVelocity: array<real>, yVelocity: array<real>, temperature: array<real>)
      requires Valid()
      requires density.Length == size && xVelocity.Length == size
      requires yVelocity.Length == size && temperature.Length == size
      requires Apart(fields, density) && Apart(fields, xVelocity) && Apart(fields, yVelocity) && Apart(fields, temperature)
      requires density != xVelocity && density != yVelocity && density != temperature
      requires xVelocity != yVelocity && xVelocity != temperature && yVelocity != temperature
      modifies this
      ensures Valid() && N == old(N) && params == old(params)
      ensures fields == old(fields).(densSource := density, xVelSource := xVelocity,
                                     yVelSource := yVelocity, tempSource := temperature)
      ensures Current() == old(Current())
    {
      fields := fields.(densSource := density, xVelSource := xVelocity, yVelSource := yVelocity, tempSource := temperature);
    }

    /** SetBoundaryClosed: only the closedBoundaries flag changes. */
    method SetBoundaryClosed(isClosed: bool)
      requires Valid()
      modifies this
      ensures Valid() && fields == old(fields) && N == old(N)
      ensures params == old(params).(closedBoundaries := isClosed)
      ensures Current() == old(Current()) && SourceContents() == old(SourceContents())
    {
      params := params.(closedBoundaries := isClosed);
    }

    /** ResetState: temperatures at airTemp, every other buffer (sources
        included) at 0. */
    method ResetState()
      requires Valid()
      modifies fields.dens, fields.xVel, fields.yVel, fields.temp
      modifies fields.densPrev, fields.xVelPrev, fields.yVelPrev, fields.tempPrev
      modifies fields.densSource, fields.xVelSource, fields.yVelSource, fields.tempSource
      ensures Current() == RestFields(N, params) && SourceContents() == RestSources(N, params)
    {
      SetConstantSource(fields.dens, 0.0);
      SetConstantSource(fields.xVel, 0.0);
      SetConstantSource(fields.yVel, 0.0);
      SetConstantSource(fields.temp, params.airTemp);
      SetConstantSource(fields.densPrev, 0.0);
      SetConstantSource(fields.xVelPrev, 0.0);
      SetConstantSource(fields.yVelPrev, 0.0);
      SetConstantSource(fields.tempPrev, params.airTemp);
      ResetSources();
    }

    /** ResetSources: the four source buffers at their reset values; the
        working buffers are untouched. */
    method ResetSources()
      requires Valid()
      modifies fields.densSource, fields.xVelSource, fields.yVelSource, fields.tempSource
      ensures SourceContents() == RestSources(N, params)
    {
      SetConstantSource(fields.densSource, 0.0);
      SetConstantSource(fields.xVelSource, 0.0);
      SetConstantSource(fields.yVelSource, 0.0);
      SetConstantSource(fields.tempSource, params.airTemp);
    }

    /** ResizeGrid: a grid of N with twelve fresh buffers, reset. */
    method ResizeGrid(N: nat)
      modifies this
      ensures Valid()
      ensures fresh(fields.xVel) && fresh(fields.yVel) && fresh(fields.dens) && fresh(fields.temp) && fresh(fields.xVelPrev) && fresh(fields.yVelPrev) && fresh(fields.densPrev) && fresh(fields.tempPrev)
      ensures fresh(fields.xVelSource) && fresh(fields.yVelSource) && fresh(fields.densSource) && fresh(fields.tempSource)
      ensures this.N == N && params == old(params)
      ensures Current() == RestFields(N, params) && SourceContents() == RestSources(N, params)
    {
      this.N, size := N, Size(N);
      fields := NewFields(size);
      ResetState();
    }

    method GetDensity() returns (a: array<real>)
      ensures a == fields.dens
    {
      a := fields.dens;
    }

    method GetXVelocity() returns (a: array<real>)
      ensures a == fields.xVel
    {
      a := fields.xVel;
    }

    method GetYVelocity() returns (a: array<real>)
      ensures a == fields.yVel
    {
      a := fields.yVel;
    }

    method GetTemperature() returns (a: array<real>)
      ensures a == fields.temp
    {
      a := fields.temp;
    }

    method GetN() returns (n: nat)
      ensures n == N
    {
      n := N;
    }

    method GetSize() returns (s: nat)
      requires Valid()
      ensures s == size && s == (N + 2) * (N + 2)
    {
      s := size;
    }

    // ---- Whole-grid sweeps ----

    /** SetSource: x becomes a copy of xSet. */
    method SetSource(x: array<real>, xSet: array<real>)
      requires x.Length == size && xSet.Length == size
      modifies x
      ensures x[..] == old(xSet[..])
    {
      var i := 0;
      while i < size
        invariant 0 <= i <= size
        invariant forall k :: 0 <= k < i ==> x[k] == old(xSet[k])
        invariant forall k :: i <= k < size ==> xSet[k] == old(xSet[k])
      {
        x[i] := xSet[i];
        i := i + 1;
      }
    }

    /** SetConstantSource: every cell becomes xSet. */
    method SetConstantSource(x: array<real>, xSet: real)
      requires x.Length == size
      modifies x
      ensures x[..] == Fill(size, xSet)
    {
      var i := 0;
      while i < size
        invariant 0 <= i <= size
        invariant forall k :: 0 <= k < i ==> x[k] == xSet
      {
        x[i] := xSet;
        i := i + 1;
      }
    }

    /** AddSource: x += dt * s, cell by cell (s may be x itself). */
    method AddSource(x: array<real>, s: array<real>, dt: real)
      requires x.Length == size && s.Length == size
      modifies x
      ensures x[..] == Added(old(x[..]), old(s[..]), dt)
    {
      ghost var r := Added(old(x[..]), old(s[..]), dt);
      var i := 0;
      while i < size
        invariant 0 <= i <= size
        invariant forall k :: 0 <= k < i ==> x[k] == r[k]
        invariant forall k :: i <= k < size ==> x[k] == old(x[k]) && s[k] == old(s[k])
      {
        x[i] := x[i] + dt * s[i];
        i := i + 1;
      }
    }

    /** AddHeatSource: t = max(t, s), cell by cell. */
    method AddHeatSource(t: array<real>, s: array<real>)
      requires t.Length == size && s.Length == size
      modifies t
      ensures t[..] == HeatMerged(old(t[..]), old(s[..]))
    {
      ghost var r := HeatMerged(old(t[..]), old(s[..]));
      var i := 0;
      while i < size
        invariant 0 <= i <= size
        invariant forall k :: 0 <= k < i ==> t[k] == r[k]
        invariant forall k :: i <= k < size ==> t[k] == old(t[k]) && s[k] == old(s[k])
      {
        t[i] := if t[i] >= s[i] then t[i] else s[i];
        i := i + 1;
      }
    }

    /** AddConstantSource: x += dt * s for a constant s. */
    method AddConstantSource(x: array<real>, s: real, dt: real)
      requires x.Length == size
      modifies x
      ensures x[..] == AddedConstant(old(x[..]), s, dt)
    {
      ghost var r := AddedConstant(old(x[..]), s, dt);
      var i := 0;
      while i < size
        invariant 0 <= i <= size
        invariant forall k :: 0 <= k < i ==> x[k] == r[k]
        invariant forall k :: i <= k < size ==> x[k] == old(x[k])
      {
        x[i] := x[i] + dt * s;
        i := i + 1;
      }
    }

    /** Dissipate: x -= rate*dt * (x - eqVal), cell by cell. */
    method Dissipate(x: array<real>, eqVal: real, rate: real, dt: real)
      requires x.Length == size
      modifies x
      ensures x[..] == Dissipated(old(x[..]), eqVal, rate, dt)
    {
      var d := rate * dt;
      ghost var r := Dissipated(old(x[..]), eqVal, rate, dt);
      var i := 0;
      while i < size
        invariant 0 <= i <= size
        invariant forall k :: 0 <= k < i ==> x[k] == r[k]
        invariant forall k :: i <= k < size ==> x[k] == old(x[k])
      {
        x[i] := x[i] - d * (x[i] - eqVal);
        i := i + 1;
      }
    }

    /** DissipateWithFallOff: the decay factor of each cell falls off with its
        excess temperature, read from the buffer fields.temp names. */
    method DissipateWithFallOff(x: array<real>, eqVal: real, rate: real, fallOff: real, dt: real)
      requires x.Length == size && fields.temp.Length == size
      modifies x
      ensures x[..] == DissipatedWithFallOff(old(x[..]), eqVal, rate, fallOff, dt, old(fields.temp[..]), params.airTemp)
    {
      var d := rate * dt;
      var t, airTemp := fields.temp, params.airTemp;
      ghost var r := DissipatedWithFallOff(old(x[..]), eqVal, rate, fallOff, dt, old(t[..]), airTemp);
      var i := 0;
      while i < size
        invariant 0 <= i <= size
        invariant forall k :: 0 <= k < i ==> x[k] == r[k]
        invariant forall k :: i <= k < size ==> x[k] == old(x[k]) && t[k] == old(t[k])
      {
        x[i] := x[i] - d * (1.0 - fallOff * (t[i] - airTemp)) * (x[i] - eqVal);
        i := i + 1;
      }
    }

    // ---- Steps ----

    /** VelocityStep(dt): sources, convection, diffusion of both components
        (each after swapping it with its scratch buffer), projection, a swap
        of both, advection and a second projection. The two swaps of each
        component cancel, so the buffers end under their original names. */
    method VelocityStep(dt: real)
      requires Valid() && VelocityReady(N, params, sqrt, dt, Current())
      modifies this, fields.xVel, fields.yVel, fields.xVelPrev, fields.yVelPrev
      ensures Valid() && N == old(N) && size == old(size) && params == old(params) && fields == old(fields)
      ensures Current() == Steps.VelocityStep(N, params, sqrt, dt, old(Current()))
    {
      ghost var f := Current();
      var p := params;
      AddSource(fields.xVel, fields.xVelPrev, dt);
      AddSource(fields.yVel, fields.yVelPrev, dt);
      if p.gravityOn && p.grav != 0.0 {
        Convect(fields.yVel, dt);
      }
      ghost var x1, y1 := fields.xVel[..], fields.yVel[..];
      fields := fields.(xVel := fields.xVelPrev, xVelPrev := fields.xVel);
      Diffuse(if p.closedBoundaries then 1 else 0, fields.xVel, fields.xVelPrev, Viscosity, dt);
      fields := fields.(yVel := fields.yVelPrev, yVelPrev := fields.yVel);
      Diffuse(if p.closedBoundaries then 2 else 0, fields.yVel, fields.yVelPrev, Viscosity, dt);
      HodgeProjection(fields.xVel, fields.yVel, fields.xVelPrev, fields.yVelPrev);
      fields := fields.(xVel := fields.xVelPrev, xVelPrev := fields.xVel);
      fields := fields.(yVel := fields.yVelPrev, yVelPrev := fields.yVel);
      Advect(if p.closedBoundaries then 1 else 0, fields.xVel, fields.xVelPrev, fields.xVelPrev, fields.yVelPrev, dt);
      Advect(if p.closedBoundaries then 2 else 0, fields.yVel, fields.yVelPrev, fields.xVelPrev, fields.yVelPrev, dt);
      HodgeProjection(fields.xVel, fields.yVel, fields.xVelPrev, fields.yVelPrev);
    }

    /** DensityStep(dt): the source is added, the density is diffused in its
        scratch buffer (the mass diffusivity reading the temperature fields.temp
        names), the buffers are swapped back, fields.dens is dissipated and
        the density is advected from fields.densPrev into fields.dens. The
        advection overwrites every cell of fields.dens, so the dissipation
        has no effect (see CorrectedDensityStep). */
    method DensityStep(dt: real)
      requires Valid() && DensityReady(N, params, sqrt, dt, Current())
      modifies this, fields.dens, fields.densPrev
      ensures Valid() && N == old(N) && size == old(size) && params == old(params) && fields == old(fields)
      ensures Current() == Steps.DensityStep(N, params, sqrt, dt, old(Current()))
    {
      var p := params;
      AddSource(fields.dens, fields.densPrev, dt);
      fields := fields.(dens := fields.densPrev, densPrev := fields.dens);
      Diffuse(if p.closedBoundaries then 0 else -1, fields.dens, fields.densPrev, MassDiffusivity, dt);
      fields := fields.(dens := fields.densPrev, densPrev := fields.dens);
      if p.densDecay > 0.0 {
        if p.tempFactor > 0.0 {
          DissipateWithFallOff(fields.dens, 0.0, p.densDecay, p.tempFactor, dt);
        } else {
          Dissipate(fields.dens, 0.0, p.densDecay, dt);
        }
      }
      Advect(if p.closedBoundaries then 0 else -1, fields.dens, fields.densPrev, fields.xVel, fields.yVel, dt);
    }

    /** TemperatureStep(dt): the heat source is merged, the temperature is
        diffused in its scratch buffer (the thermal diffusivity reading the
        buffer being relaxed as the temperature), the buffers are swapped
        back, fields.temp cools and the temperature is advected from
        fields.tempPrev into fields.temp, which loses the cooling (see
        CorrectedTemperatureStep). */
    method TemperatureStep(dt: real)
      requires Valid() && TemperatureReady(N, params, sqrt, dt, Current())
      modifies this, fields.temp, fields.tempPrev
      ensures Valid() && N == old(N) && size == old(size) && params == old(params) && fields == old(fields)
      ensures Current() == Steps.TemperatureStep(N, params, sqrt, dt, old(Current()))
    {
      var p := params;
      AddHeatSource(fields.temp, fields.tempPrev);
      fields := fields.(temp := fields.tempPrev, tempPrev := fields.temp);
      Diffuse(0, fields.temp, fields.tempPrev, ThermalDiffusivity, dt);
      fields := fields.(temp := fields.tempPrev, tempPrev := fields.temp);
      if p.tempDecay > 0.0 {
        Dissipate(fields.temp, p.airTemp, p.tempDecay, dt);
      }
      Advect(0, fields.temp, fields.tempPrev, fields.xVel, fields.yVel, dt);
    }

    /** SimulationStep(timeStep): dt = timeStep * timeScale; the four sources
        are copied into the scratch buffers, then the velocity, density and
        (when temperatureOn) temperature steps run. */
    method SimulationStep(timeStep: real)
      requires Valid() && SimulationReady(N, params, sqrt, ScaledTimeStep(params, timeStep), Current(), SourceContents())
      modifies this, fields.dens, fields.xVel, fields.yVel, fields.temp
      modifies fields.densPrev, fields.xVelPrev, fields.yVelPrev, fields.tempPrev
      ensures Valid() && N == old(N) && size == old(size) && params == old(params) && fields == old(fields)
      ensures SourceContents() == old(SourceContents())
      ensures Current() == Steps.SimulationStep(N, params, sqrt, ScaledTimeStep(params, timeStep), old(Current()), old(SourceContents()))
    {
      var dt := ScaledTimeStep(params, timeStep);
      ghost var f, s := Current(), SourceContents();
      SetSource(fields.densPrev, fields.densSource);
      SetSource(fields.xVelPrev, fields.xVelSource);
      SetSource(fields.yVelPrev, fields.yVelSource);
      SetSource(fields.tempPrev, fields.tempSource);
      ghost var f1 := WithSources(f, s);
      assert Current() == f1;
      VelocityStep(dt);
      ghost var f2 := Steps.VelocityStep(N, params, sqrt, dt, f1);
      assert Current() == f2;
      DensityStep(dt);
      ghost var f3 := Steps.DensityStep(N, params, sqrt, dt, f2);
      assert Current() == f3;
      if params.temperatureOn {
        ThermalIgnoresDensity(N, params, sqrt, Fixed(f.dens), Fixed(f3.dens), Relaxed);
        TemperatureStep(dt);
        assert Current() == Steps.TemperatureStep(N, params, sqrt, dt, f3);
      }
      assert Current() == Steps.SimulationStep(N, params, sqrt, dt, f, s);
    }

    // ---- Interior stencils ----

    /** Diffuse(b, x, x0, diff, dt): solverSteps Gauss-Seidel sweeps of the
        implicit diffusion of x towards x0 with a = dt / cellSize^2, each
        followed by SetBoundary(b, x). The coefficient callback reads the
        buffers fields.dens and fields.temp name, one of which may be x. */
    method Diffuse(b: int, x: array<real>, x0: array<real>, kind: Coefficient, dt: real)
      requires Valid() && N >= 1 && params.lengthScale != 0.0 && ValidMode(b)
      requires x.Length == size && x0.Length == size && x != x0
      requires StencilOK(N, Diffusion(x0[..], DiffusionRate(params, N, dt), params, sqrt, kind,
                                      SrcOf(fields.dens, x), SrcOf(fields.temp, x)))
      modifies x
      ensures x[..] == Relax(N, b, Diffusion(x0[..], DiffusionRate(params, N, dt), params, sqrt, kind,
                                             old(SrcOf(fields.dens, x)), old(SrcOf(fields.temp, x))),
                             old(x[..]), params.solverSteps)
    {
      var n, p, dens, temp := N, params, fields.dens, fields.temp;
      var cellSize := p.lengthScale / n as real;
      var a := dt / (cellSize * cellSize);
      assert cellSize == CellSize(p, n);
      assert a == DiffusionRate(p, n, dt);
      ghost var st := Diffusion(x0[..], a, p, sqrt, kind, SrcOf(dens, x), SrcOf(temp, x));
      assert Tracks(st.dens, dens, x) && Tracks(st.temp, temp, x);
      DiffuseSteps(st, n, b, a, p, sqrt, kind, x, x0, dens, temp);
    }

    /** The relaxation loop of Diffuse: solverSteps sweeps, each followed by
        SetBoundary(b, x). */
    static method DiffuseSteps(ghost st: Stencil, n: nat, b: int, a: real, p: SimParams, sqrt: real -> real, kind: Coefficient,
                               x: array<real>, x0: array<real>, dens: array<real>, temp: array<real>)
      requires ValidMode(b) && x.Length == Size(n) && x0.Length == Size(n) && dens.Length == Size(n) && temp.Length == Size(n)
      requires x0 != x && DiffusionOf(st, a, p, sqrt, kind) && StencilOK(n, st)
      requires x0[..] == st.x0 && Tracks(st.dens, dens, x) && Tracks(st.temp, temp, x)
      modifies x
      ensures x[..] == Relax(n, b, st, old(x[..]), p.solverSteps)
    {
      ghost var x1 := x[..];
      var k := 0;
      while k < p.solverSteps
        invariant 0 <= k && (k <= p.solverSteps || k == 0)
        invariant x0[..] == st.x0 && Tracks(st.dens, dens, x) && Tracks(st.temp, temp, x)
        invariant x[..] == Relax(n, b, st, x1, k)
      {
        DiffuseStep(st, n, b, a, p, sqrt, kind, x, x0, dens, temp);
        k := k + 1;
      }
    }

    /** One step of Diffuse's relaxation loop: a sweep, then SetBoundary(b, x). */
    static method DiffuseStep(ghost st: Stencil, n: nat, b: int, a: real, p: SimParams, sqrt: real -> real, kind: Coefficient,
                              x: array<real>, x0: array<real>, dens: array<real>, temp: array<real>)
      requires ValidMode(b) && x.Length == Size(n) && x0.Length == Size(n) && dens.Length == Size(n) && temp.Length == Size(n)
      requires x0 != x && DiffusionOf(st, a, p, sqrt, kind) && StencilOK(n, st)
      requires x0[..] == st.x0 && Tracks(st.dens, dens, x) && Tracks(st.temp, temp, x)
      modifies x
      ensures x0[..] == st.x0 && Tracks(st.dens, dens, x) && Tracks(st.temp, temp, x)
      ensures x[..] == Boundary.SetBoundary(n, b, Sweep(n, st, old(x[..])))
    {
      DiffuseSweep(st, n, a, p, sqrt, kind, x, x0, dens, temp);
      SetBoundary(n, b, x);
    }

    /** Advect(b, d, d0, u, v, dt): the interior loop with dt0 = dt / cellSize,
        then SetBoundary(b, d). d0 may be u or v, but d is none of them. */
    method Advect(b: int, d: array<real>, d0: array<real>, u: array<real>, v: array<real>, dt: real)
      requires Valid() && N >= 1 && params.lengthScale != 0.0 && ValidMode(b)
      requires d.Length == size && d0.Length == size && u.Length == size && v.Length == size
      requires d != d0 && d != u && d != v
      modifies d
      ensures d[..] == Advection.Advect(N, b, AdvectionRate(params, N, dt), old(d[..]), d0[..], u[..], v[..])
    {
      var n := N;
      var cellSize := params.lengthScale / n as real;
      var dt0 := dt / cellSize;
      assert dt0 == AdvectionRate(params, n, dt);
      AdvectCells(n, dt0, d, d0, u, v);
      SetBoundary(n, b, d);
    }

    /** HodgeProjection(u, v, p, div): the divergence into div and a zero
        start into p, each with SetBoundary(0); solverSteps sweeps of the
        pressure relaxation, each with SetBoundary(0, p); then the gradient
        correction of u and v with SetBoundary(1, u) and SetBoundary(2, v). */
    method HodgeProjection(u: array<real>, v: array<real>, p: array<real>, div: array<real>)
      requires Valid() && N >= 1 && params.lengthScale != 0.0
      requires u.Length == size && v.Length == size && p.Length == size && div.Length == size
      requires u != v && u != p && u != div && v != p && v != div && p != div
      modifies u, v, p, div
      ensures var r := Hodge(N, CellSize(params, N), params.solverSteps, old(u[..]), old(v[..]), old(p[..]), old(div[..]));
        u[..] == r.u && v[..] == r.v && p[..] == r.p && div[..] == r.div
    {
      var n, steps := N, params.solverSteps;
      var cellSize := params.lengthScale / n as real;
      assert cellSize == CellSize(params, n);
      DivergenceLoop(n, cellSize, u, v, p, div);
      SetBoundary(n, 0, div);
      SetBoundary(n, 0, p);
      PressureSteps(n, steps, p, div);
      GradientLoop(n, cellSize, u, v, p);
      SetBoundary(n, 1, u);
      SetBoundary(n, 2, v);
    }

    /** Convect(v, dt): every interior cell of v gains g * bForce, g = dt * grav,
        with the buoyant force of the cell's gas density and temperature
        (read from the buffers fields.dens and fields.temp name). */
    method Convect(v: array<real>, dt: real)
      requires Valid() && v.Length == size && v != fields.dens && v != fields.temp
      requires ConvectDefined(N, params, fields.dens[..], fields.temp[..])
      modifies v
      ensures v[..] == Convected(N, params, dt, old(v[..]), fields.dens[..], fields.temp[..])
    {
      ConvectCells(N, params, dt, v, fields.dens, fields.temp);
    }

    /** The loop of Convect, with the grid dimension passed as n. */
    static method ConvectCells(n: nat, p: SimParams, dt: real, v: array<real>, dens: array<real>, temp: array<real>)
      requires v.Length == Size(n) && dens.Length == Size(n) && temp.Length == Size(n) && v != dens && v != temp
      requires ConvectDefined(n, p, dens[..], temp[..])
      modifies v
      ensures v[..] == Convected(n, p, dt, old(v[..]), dens[..], temp[..])
    {
      var g := dt * p.grav;
      ghost var sd, st := dens[..], temp[..];
      var i := 1;
      while i <= n
        invariant 1 <= i <= n + 1 && dens[..] == sd && temp[..] == st
        invariant forall i', j' {:trigger At(n, v[..], i', j')} :: InGrid(n, i', j') ==>
          At(n, v[..], i', j') ==
            if IsInterior(n, i', j') && i' < i then Kick(At(n, old(v[..]), i', j'), g, BuoyantForce(p, At(n, sd, i', j'), At(n, st, i', j')))
            else At(n, old(v[..]), i', j')
      {
        var j := 1;
        while j <= n
          invariant 1 <= j <= n + 1 && dens[..] == sd && temp[..] == st
          invariant forall i', j' {:trigger At(n, v[..], i', j')} :: InGrid(n, i', j') ==>
            At(n, v[..], i', j') ==
              if IsInterior(n, i', j') && (i' < i || (i' == i && j' < j))
              then Kick(At(n, old(v[..]), i', j'), g, BuoyantForce(p, At(n, sd, i', j'), At(n, st, i', j')))
              else At(n, old(v[..]), i', j')
        {
          var bForce := ForceAt(n, p, dens, temp, i, j);
          IndInRange(n, i, j);
          ghost var before := v[..];
          assert At(n, before, i, j) == At(n, old(v[..]), i, j);
          var value := Kick(v[Ind(n, i, j)], g, bForce);
          v[Ind(n, i, j)] := value;
          assert v[..] == Put(n, before, i, j, value);
          j := j + 1;
        }
        i := i + 1;
      }
      ConvectedAt(n, p, dt, old(v[..]), sd, st);
      FieldExtensionality(n, v[..], Convected(n, p, dt, old(v[..]), sd, st));
    }

    /** The body of Convect's loop for cell (i, j): the mixture density (at the
        cell's temperature when temperatureOn, else at air temperature) and
        the buoyant force, 1 when that density is 0. */
    static method ForceAt(n: nat, p: SimParams, dens: array<real>, temp: array<real>, i: int, j: int) returns (bForce: real)
      requires dens.Length == Size(n) && temp.Length == Size(n) && IsInterior(n, i, j)
      requires ConvectDefined(n, p, dens[..], temp[..])
      ensures bForce == BuoyantForce(p, At(n, dens[..], i, j), At(n, temp[..], i, j))
    {
      IndInRange(n, i, j);
      var k := Ind(n, i, j);
      assert At(n, dens[..], i, j) == dens[k];
      var density;
      if p.temperatureOn {
        density := MixedDensity(p, dens[k], temp[k]);
      } else {
        density := MixedDensityAtAirTemp(p, dens[k]);
      }
      if density == 0.0 {
        bForce := 1.0;
      } else {
        bForce := (density - p.airDens) / density;
      }
    }

    /** SetBoundary(b, x): the edge loop, then the four corners. The grid
        dimension, a field of the state in the source, is passed as n. */
    static method SetBoundary(n: nat, b: int, x: array<real>)
      requires ValidMode(b) && x.Length == Size(n)
      modifies x
      ensures x[..] == Boundary.SetBoundary(n, b, old(x[..]))
    {
      var xMod, yMod := XMod(b), YMod(b);
      var i := 1;
      while i <= n
        invariant 1 <= i <= n + 1
        invariant x[..] == EdgePass(n, b, old(x[..]), i - 1)
      {
        SetEdgeCells(n, b, xMod, yMod, x, i);
        i := i + 1;
      }
      assert i == n + 1;
      SetCorners(n, x);
    }

    /** The body of Diffuse's inner loop for cell (i, j): the weight
        a_t = a * coefficient, read through the callback from the cell's
        density and temperature, then the implicit diffusion update from x0
        and the current values of the four neighbours. */
    static method DiffuseCell(ghost st: Stencil, n: nat, a: real, p: SimParams, sqrt: real -> real, kind: Coefficient,
                              x: array<real>, x0: array<real>, dens: array<real>, temp: array<real>, i: int, j: int)
      returns (value: real)
      requires x.Length == Size(n) && x0.Length == Size(n) && dens.Length == Size(n) && temp.Length == Size(n)
      requires IsInterior(n, i, j)
      requires st == Diffusion(x0[..], a, p, sqrt, kind, SrcOf(dens, x), SrcOf(temp, x)) && StencilOK(n, st)
      ensures value == NewValue(n, st, x[..], i, j)
    {
      IndInRange(n, i, j);
      IndInRange(n, i - 1, j); IndInRange(n, i + 1, j); IndInRange(n, i, j - 1); IndInRange(n, i, j + 1);
      var k := Ind(n, i, j);
      assert Pick(n, st.dens, i, j, x[k]) == dens[k] && Pick(n, st.temp, i, j, x[k]) == temp[k];
      var at := a * CoefficientValue(p, sqrt, kind, dens[k], temp[k]);
      assert at == CellWeight(n, st, x[..], i, j);
      value := (x0[k] + at * (x[Ind(n, i - 1, j)] + x[Ind(n, i + 1, j)] + x[Ind(n, i, j - 1)] + x[Ind(n, i, j + 1)]))
               / (1.0 + 4.0 * at);
    }

    /** The inner loop of Diffuse's sweep for column i: rows 1..n, each cell
        updated in place from the current values of its neighbours. */
    static method DiffuseColumn(ghost st: Stencil, n: nat, a: real, p: SimParams, sqrt: real -> real, kind: Coefficient,
                                x: array<real>, x0: array<real>, dens: array<real>, temp: array<real>, i: int)
      requires x.Length == Size(n) && x0.Length == Size(n) && dens.Length == Size(n) && temp.Length == Size(n)
      requires x0 != x && 1 <= i <= n && DiffusionOf(st, a, p, sqrt, kind) && StencilOK(n, st)
      requires x0[..] == st.x0 && Tracks(st.dens, dens, x) && Tracks(st.temp, temp, x)
      modifies x
      ensures x0[..] == st.x0 && Tracks(st.dens, dens, x) && Tracks(st.temp, temp, x)
      ensures x[..] == SweepColumn(n, st, old(x[..]), i, n)
    {
      ghost var column := x[..];
      var j := 1;
      while j <= n
        invariant 1 <= j <= n + 1
        invariant x0[..] == st.x0 && Tracks(st.dens, dens, x) && Tracks(st.temp, temp, x)
        invariant x[..] == SweepColumn(n, st, column, i, j - 1)
      {
        assert SrcOf(dens, x) == st.dens && SrcOf(temp, x) == st.temp;
        var value := DiffuseCell(st, n, a, p, sqrt, kind, x, x0, dens, temp, i, j);
        IndInRange(n, i, j);
        x[Ind(n, i, j)] := value;
        j := j + 1;
      }
      assert j == n + 1;
    }

    /** One Gauss-Seidel sweep of Diffuse: columns 1..n, rows 1..n. */
    static method DiffuseSweep(ghost st: Stencil, n: nat, a: real, p: SimParams, sqrt: real -> real, kind: Coefficient,
                               x: array<real>, x0: array<real>, dens: array<real>, temp: array<real>)
      requires x.Length == Size(n) && x0.Length == Size(n) && dens.Length == Size(n) && temp.Length == Size(n)
      requires x0 != x && DiffusionOf(st, a, p, sqrt, kind) && StencilOK(n, st)
      requires x0[..] == st.x0 && Tracks(st.dens, dens, x) && Tracks(st.temp, temp, x)
      modifies x
      ensures x0[..] == st.x0 && Tracks(st.dens, dens, x) && Tracks(st.temp, temp, x)
      ensures x[..] == Sweep(n, st, old(x[..]))
    {
      ghost var x1 := x[..];
      var i := 1;
      while i <= n
        invariant 1 <= i <= n + 1
        invariant x0[..] == st.x0 && Tracks(st.dens, dens, x) && Tracks(st.temp, temp, x)
        invariant x[..] == SweepUpTo(n, st, x1, i - 1)
      {
        DiffuseColumn(st, n, a, p, sqrt, kind, x, x0, dens, temp, i);
        i := i + 1;
      }
      assert i == n + 1;
    }

    /** The body of the pressure relaxation's inner loop for cell (i, j). */
    static method PressureCell(n: nat, x: array<real>, div: array<real>, i: int, j: int) returns (value: real)
      requires x.Length == Size(n) && div.Length == Size(n) && IsInterior(n, i, j)
      ensures value == NewValue(n, Pressure(div[..]), x[..], i, j)
    {
      IndInRange(n, i, j);
      IndInRange(n, i - 1, j); IndInRange(n, i + 1, j); IndInRange(n, i, j - 1); IndInRange(n, i, j + 1);
      value := (div[Ind(n, i, j)] + x[Ind(n, i - 1, j)] + x[Ind(n, i + 1, j)] +
                                    x[Ind(n, i, j - 1)] + x[Ind(n, i, j + 1)]) / 4.0;
    }

    /** The inner loop of the pressure sweep for column i: rows 1..n. */
    static method PressureColumn(n: nat, x: array<real>, div: array<real>, i: int)
      requires x.Length == Size(n) && div.Length == Size(n) && x != div && 1 <= i <= n
      modifies x
      ensures x[..] == SweepColumn(n, Pressure(div[..]), old(x[..]), i, n)
    {
      ghost var st, column := Pressure(div[..]), x[..];
      var j := 1;
      while j <= n
        invariant 1 <= j <= n + 1 && div[..] == st.div
        invariant x[..] == SweepColumn(n, st, column, i, j - 1)
      {
        var value := PressureCell(n, x, div, i, j);
        IndInRange(n, i, j);
        x[Ind(n, i, j)] := value;
        j := j + 1;
      }
      assert j == n + 1;
    }

    /** One Gauss-Seidel sweep of HodgeProjection's pressure relaxation. */
    static method PressureSweep(n: nat, x: array<real>, div: array<real>)
      requires x.Length == Size(n) && div.Length == Size(n) && x != div
      modifies x
      ensures x[..] == Sweep(n, Pressure(div[..]), old(x[..]))
    {
      ghost var st, x1 := Pressure(div[..]), x[..];
      var i := 1;
      while i <= n
        invariant 1 <= i <= n + 1 && div[..] == st.div
        invariant x[..] == SweepUpTo(n, st, x1, i - 1)
      {
        PressureColumn(n, x, div, i);
        i := i + 1;
      }
      assert i == n + 1;
    }

    /** The pressure relaxation of HodgeProjection: `steps` sweeps, each
        followed by SetBoundary(0, p). */
    static method PressureSteps(n: nat, steps: int, p: array<real>, div: array<real>)
      requires p.Length == Size(n) && div.Length == Size(n) && p != div
      modifies p
      ensures p[..] == Relax(n, 0, Pressure(div[..]), old(p[..]), steps)
    {
      ghost var st, p0 := Pressure(div[..]), p[..];
      var k := 0;
      while k < steps
        invariant 0 <= k && (k <= steps || k == 0) && div[..] == st.div
        invariant p[..] == Relax(n, 0, st, p0, k)
      {
        PressureStep(n, p, div);
        k := k + 1;
      }
    }

    /** One step of the pressure relaxation: a sweep, then SetBoundary(0, p). */
    static method PressureStep(n: nat, p: array<real>, div: array<real>)
      requires p.Length == Size(n) && div.Length == Size(n) && p != div
      modifies p
      ensures p[..] == Boundary.SetBoundary(n, 0, Sweep(n, Pressure(div[..]), old(p[..])))
    {
      PressureSweep(n, p, div);
      SetBoundary(n, 0, p);
    }

    /** The first loop of HodgeProjection: the divergence of every interior
        cell into div, and a zero start for the pressure p. */
    static method DivergenceLoop(n: nat, h: real, u: array<real>, v: array<real>, p: array<real>, div: array<real>)
      requires u.Length == Size(n) && v.Length == Size(n) && p.Length == Size(n) && div.Length == Size(n)
      requires div != u && div != v && div != p && p != u && p != v
      modifies p, div
      ensures div[..] == DivergenceInterior(n, h, u[..], v[..], old(div[..]))
      ensures p[..] == ZeroInterior(n, old(p[..]))
    {
      ghost var su, sv := u[..], v[..];
      var i := 1;
      while i <= n
        invariant 1 <= i <= n + 1 && u[..] == su && v[..] == sv
        invariant forall i', j' {:trigger At(n, div[..], i', j')} :: InGrid(n, i', j') ==>
          At(n, div[..], i', j') == if IsInterior(n, i', j') && i' < i then DivergenceCell(n, h, su, sv, i', j') else At(n, old(div[..]), i', j')
        invariant forall i', j' {:trigger At(n, p[..], i', j')} :: InGrid(n, i', j') ==>
          At(n, p[..], i', j') == if IsInterior(n, i', j') && i' < i then 0.0 else At(n, old(p[..]), i', j')
      {
        var j := 1;
        while j <= n
          invariant 1 <= j <= n + 1 && u[..] == su && v[..] == sv
          invariant forall i', j' {:trigger At(n, div[..], i', j')} :: InGrid(n, i', j') ==>
            At(n, div[..], i', j') ==
              if IsInterior(n, i', j') && (i' < i || (i' == i && j' < j)) then DivergenceCell(n, h, su, sv, i', j')
              else At(n, old(div[..]), i', j')
          invariant forall i', j' {:trigger At(n, p[..], i', j')} :: InGrid(n, i', j') ==>
            At(n, p[..], i', j') ==
              if IsInterior(n, i', j') && (i' < i || (i' == i && j' < j)) then 0.0 else At(n, old(p[..]), i', j')
        {
          IndInRange(n, i, j);
          IndInRange(n, i + 1, j); IndInRange(n, i - 1, j); IndInRange(n, i, j + 1); IndInRange(n, i, j - 1);
          var value := Divergence(h, u[Ind(n, i + 1, j)], u[Ind(n, i - 1, j)], v[Ind(n, i, j + 1)], v[Ind(n, i, j - 1)]);
          assert value == DivergenceCell(n, h, su, sv, i, j);
          ghost var divBefore, pBefore := div[..], p[..];
          div[Ind(n, i, j)] := value;
          p[Ind(n, i, j)] := 0.0;
          assert div[..] == Put(n, divBefore, i, j, value);
          assert p[..] == Put(n, pBefore, i, j, 0.0);
          j := j + 1;
        }
        i := i + 1;
      }
      DivergenceInteriorAt(n, h, su, sv, old(div[..]));
      FieldExtensionality(n, div[..], DivergenceInterior(n, h, su, sv, old(div[..])));
      ZeroInteriorAt(n, old(p[..]));
      FieldExtensionality(n, p[..], ZeroInterior(n, old(p[..])));
    }

    /** The last loop of HodgeProjection: every interior cell of u and v loses
        its share of the pressure gradient. */
    static method GradientLoop(n: nat, h: real, u: array<real>, v: array<real>, p: array<real>)
      requires u.Length == Size(n) && v.Length == Size(n) && p.Length == Size(n) && h != 0.0
      requires u != v && u != p && v != p
      modifies u, v
      ensures u[..] == GradientCorrected(n, h, old(u[..]), p[..], true)
      ensures v[..] == GradientCorrected(n, h, old(v[..]), p[..], false)
    {
      ghost var sp := p[..];
      var i := 1;
      while i <= n
        invariant 1 <= i <= n + 1 && p[..] == sp
        invariant forall i', j' {:trigger At(n, u[..], i', j')} :: InGrid(n, i', j') ==>
          At(n, u[..], i', j') ==
            if IsInterior(n, i', j') && i' < i then Corrected(At(n, old(u[..]), i', j'), At(n, sp, i' + 1, j'), At(n, sp, i' - 1, j'), h)
            else At(n, old(u[..]), i', j')
        invariant forall i', j' {:trigger At(n, v[..], i', j')} :: InGrid(n, i', j') ==>
          At(n, v[..], i', j') ==
            if IsInterior(n, i', j') && i' < i then Corrected(At(n, old(v[..]), i', j'), At(n, sp, i', j' + 1), At(n, sp, i', j' - 1), h)
            else At(n, old(v[..]), i', j')
      {
        var j := 1;
        while j <= n
          invariant 1 <= j <= n + 1 && p[..] == sp
          invariant forall i', j' {:trigger At(n, u[..], i', j')} :: InGrid(n, i', j') ==>
            At(n, u[..], i', j') ==
              if IsInterior(n, i', j') && (i' < i || (i' == i && j' < j))
              then Corrected(At(n, old(u[..]), i', j'), At(n, sp, i' + 1, j'), At(n, sp, i' - 1, j'), h)
              else At(n, old(u[..]), i', j')
          invariant forall i', j' {:trigger At(n, v[..], i', j')} :: InGrid(n, i', j') ==>
            At(n, v[..], i', j') ==
              if IsInterior(n, i', j') && (i' < i || (i' == i && j' < j))
              then Corrected(At(n, old(v[..]), i', j'), At(n, sp, i', j' + 1), At(n, sp, i', j' - 1), h)
              else At(n, old(v[..]), i', j')
        {
          IndInRange(n, i, j);
          IndInRange(n, i + 1, j); IndInRange(n, i - 1, j); IndInRange(n, i, j + 1); IndInRange(n, i, j - 1);
          ghost var uBefore, vBefore := u[..], v[..];
          assert At(n, uBefore, i, j) == At(n, old(u[..]), i, j) && At(n, vBefore, i, j) == At(n, old(v[..]), i, j);
          var uValue := Corrected(u[Ind(n, i, j)], p[Ind(n, i + 1, j)], p[Ind(n, i - 1, j)], h);
          u[Ind(n, i, j)] := uValue;
          assert u[..] == Put(n, uBefore, i, j, uValue);
          var vValue := Corrected(v[Ind(n, i, j)], p[Ind(n, i, j + 1)], p[Ind(n, i, j - 1)], h);
          v[Ind(n, i, j)] := vValue;
          assert v[..] == Put(n, vBefore, i, j, vValue);
          j := j + 1;
        }
        i := i + 1;
      }
      GradientCorrectedAt(n, h, old(u[..]), sp, true);
      FieldExtensionality(n, u[..], GradientCorrected(n, h, old(u[..]), sp, true));
      GradientCorrectedAt(n, h, old(v[..]), sp, false);
      FieldExtensionality(n, v[..], GradientCorrected(n, h, old(v[..]), sp, false));
    }

    /** The interior loop of Advect: each interior cell of d, in column-major
        order, gets the bilinear interpolation of d0 at the clamped
        back-traced position. d0, u and v are read only. */
    static method AdvectCells(n: nat, dt0: real, d: array<real>, d0: array<real>, u: array<real>, v: array<real>)
      requires d.Length == Size(n) && d0.Length == Size(n) && u.Length == Size(n) && v.Length == Size(n)
      requires d != d0 && d != u && d != v
      modifies d
      ensures d[..] == AdvectInterior(n, dt0, old(d[..]), d0[..], u[..], v[..])
    {
      ghost var s0, su, sv := d0[..], u[..], v[..];
      var i := 1;
      while i <= n
        invariant 1 <= i <= n + 1 && d0[..] == s0 && u[..] == su && v[..] == sv
        invariant forall i', j' {:trigger At(n, d[..], i', j')} :: InGrid(n, i', j') ==>
          At(n, d[..], i', j') == if IsInterior(n, i', j') && i' < i then AdvectCell(n, dt0, s0, su, sv, i', j') else At(n, old(d[..]), i', j')
      {
        var j := 1;
        while j <= n
          invariant 1 <= j <= n + 1 && d0[..] == s0 && u[..] == su && v[..] == sv
          invariant forall i', j' {:trigger At(n, d[..], i', j')} :: InGrid(n, i', j') ==>
            At(n, d[..], i', j') ==
              if IsInterior(n, i', j') && (i' < i || (i' == i && j' < j)) then AdvectCell(n, dt0, s0, su, sv, i', j')
              else At(n, old(d[..]), i', j')
        {
          var value := TraceBack(n, dt0, d0, u, v, i, j);
          IndInRange(n, i, j);
          ghost var before := d[..];
          d[Ind(n, i, j)] := value;
          assert d[..] == Put(n, before, i, j, value);
          j := j + 1;
        }
        i := i + 1;
      }
      AdvectInteriorAt(n, dt0, old(d[..]), s0, su, sv);
      FieldExtensionality(n, d[..], AdvectInterior(n, dt0, old(d[..]), s0, su, sv));
    }

    /** The body of Advect's interior loop for cell (i, j): the clamped
        back-trace split into cell and weight on each axis, then the
        bilinear interpolation of d0. */
    static method TraceBack(n: nat, dt0: real, d0: array<real>, u: array<real>, v: array<real>, i: int, j: int) returns (value: real)
      requires d0.Length == Size(n) && u.Length == Size(n) && v.Length == Size(n) && IsInterior(n, i, j)
      ensures value == AdvectCell(n, dt0, d0[..], u[..], v[..], i, j)
    {
      IndInRange(n, i, j);
      var x := Clamp(n, BackTrace(i, dt0, u[Ind(n, i, j)]));
      var y := Clamp(n, BackTrace(j, dt0, v[Ind(n, i, j)]));
      var i0 := Trunc(x);
      var i1 := i0 + 1;
      var j0 := Trunc(y);
      var j1 := j0 + 1;
      var s1 := x - i0 as real;
      var s0 := 1.0 - s1;
      var t1 := y - j0 as real;
      var t0 := 1.0 - t1;
      assert (i0, s1) == SplitAxis(n, BackTrace(i, dt0, At(n, u[..], i, j)));
      assert (j0, t1) == SplitAxis(n, BackTrace(j, dt0, At(n, v[..], i, j)));
      IndInRange(n, i0, j0); IndInRange(n, i0, j1); IndInRange(n, i1, j0); IndInRange(n, i1, j1);
      value := Interpolate(s0, s1, t0, t1, d0[Ind(n, i0, j0)], d0[Ind(n, i0, j1)],
                           d0[Ind(n, i1, j0)], d0[Ind(n, i1, j1)]);
      assert value == Bilinear(n, d0[..], i0, s1, j0, t1);
    }

    /** One pass of SetBoundary's edge loop: the ghosts at both ends of
        column i and of row i. */
    static method SetEdgeCells(n: nat, b: int, xMod: real, yMod: real, x: array<real>, i: int)
      requires ValidMode(b) && xMod == XMod(b) && yMod == YMod(b)
      requires x.Length == Size(n) && 1 <= i <= n
      modifies x
      ensures x[..] == EdgeStep(n, b, old(x[..]), i)
    {
      IndInRange(n, 0, i); IndInRange(n, 1, i); IndInRange(n, n + 1, i); IndInRange(n, n, i);
      IndInRange(n, i, 0); IndInRange(n, i, 1); IndInRange(n, i, n + 1); IndInRange(n, i, n);
      x[Ind(n, 0, i)] := Scaled(xMod, x[Ind(n, 1, i)]);
      x[Ind(n, n + 1, i)] := Scaled(xMod, x[Ind(n, n, i)]);
      x[Ind(n, i, 0)] := Scaled(yMod, x[Ind(n, i, 1)]);
      x[Ind(n, i, n + 1)] := Scaled(yMod, x[Ind(n, i, n)]);
    }

    /** The corner block of SetBoundary: each corner gets the mean of its two
        neighbouring edge ghosts. */
    static method SetCorners(n: nat, x: array<real>)
      requires x.Length == Size(n)
      modifies x
      ensures x[..] == Corners(n, old(x[..]))
    {
      IndInRange(n, 0, 0); IndInRange(n, 1, 0); IndInRange(n, 0, 1);
      IndInRange(n, 0, n + 1); IndInRange(n, 1, n + 1); IndInRange(n, 0, n);
      IndInRange(n, n + 1, 0); IndInRange(n, n, 0); IndInRange(n, n + 1, 1);
      IndInRange(n, n + 1, n + 1); IndInRange(n, n, n + 1); IndInRange(n, n + 1, n);
      ghost var x0 := x[..];
      x[Ind(n, 0, 0)] := Mean(x[Ind(n, 1, 0)], x[Ind(n, 0, 1)]);
      ghost var x1 := x[..];
      assert x1 == Put(n, x0, 0, 0, Mean(At(n, x0, 1, 0), At(n, x0, 0, 1)));
      x[Ind(n, 0, n + 1)] := Mean(x[Ind(n, 1, n + 1)], x[Ind(n, 0, n)]);
      ghost var x2 := x[..];
      assert x2 == Put(n, x1, 0, n + 1, Mean(At(n, x1, 1, n + 1), At(n, x1, 0, n)));
      x[Ind(n, n + 1, 0)] := Mean(x[Ind(n, n, 0)], x[Ind(n, n + 1, 1)]);
      ghost var x3 := x[..];
      assert x3 == Put(n, x2, n + 1, 0, Mean(At(n, x2, n, 0), At(n, x2, n + 1, 1)));
      x[Ind(n, n + 1, n + 1)] := Mean(x[Ind(n, n, n + 1)], x[Ind(n, n + 1, n)]);
      assert x[..] == Put(n, x3, n + 1, n + 1, Mean(At(n, x3, n, n + 1), At(n, x3, n + 1, n)));
      if n >= 1 {
        CornersAt(n, x0);
        forall i, j | InGrid(n, i, j)
          ensures At(n, x[..], i, j) == At(n, Corners(n, x0), i, j)
        {
          if !((i == 0 || i == n + 1) && (j == 0 || j == n + 1)) {
            CornersKeepOthers(n, x0, i, j);
          }
        }
        FieldExtensionality(n, x[..], Corners(n, x0));
      }
    }
  }
}
