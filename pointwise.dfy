/** The whole-grid and per-cell sweeps of the simulation state, as functions
    of the field contents: copy, fill, add a source, merge a heat source,
    dissipation towards an equilibrium value, and buoyant convection. */
module Pointwise {
  import opened Grid
  import opened Physics

  /** Every one of the n cells holds v (SetConstantSource). */
  function Fill(n: nat, v: real): (r: seq<real>)
    ensures |r| == n
  {
    seq(n, k => v)
  }

  /** x + dt * s, cell by cell (AddSource). */
  function Added(x: seq<real>, s: seq<real>, dt: real): (r: seq<real>)
    requires |s| == |x|
    ensures |r| == |x|
  {
    seq(|x|, k requires 0 <= k < |x| => x[k] + dt * s[k])
  }

  /** x + dt * s for a constant s (AddConstantSource). */
  function AddedConstant(x: seq<real>, s: real, dt: real): (r: seq<real>)
    ensures |r| == |x|
  {
    seq(|x|, k requires 0 <= k < |x| => x[k] + dt * s)
  }

  /** max(t, s), cell by cell (AddHeatSource). */
  function HeatMerged(t: seq<real>, s: seq<real>): (r: seq<real>)
    requires |s| == |t|
    ensures |r| == |t|
  {
    seq(|t|, k requires 0 <= k < |t| => if t[k] >= s[k] then t[k] else s[k])
  }

  /** Cellwise decay towards eq with factor d = rate * dt (Dissipate). */
  function Dissipated(x: seq<real>, eq: real, rate: real, dt: real): (r: seq<real>)
    ensures |r| == |x|
  {
    var d := rate * dt;
    seq(|x|, k requires 0 <= k < |x| => x[k] - d * (x[k] - eq))
  }

  /** Decay whose rate falls off linearly with the excess temperature of the
      cell over the air temperature (DissipateWithFallOff). */
  function DissipatedWithFallOff(x: seq<real>, eq: real, rate: real, fallOff: real, dt: real,
                                 temp: seq<real>, airTemp: real): (r: seq<real>)
    requires |temp| == |x|
    ensures |r| == |x|
  {
    var d := rate * dt;
    seq(|x|, k requires 0 <= k < |x| => x[k] - d * (1.0 - fallOff * (temp[k] - airTemp)) * (x[k] - eq))
  }

  /** Adding a source over a zero time step changes nothing. */
  lemma AddedZeroStep(x: seq<real>, s: seq<real>)
    requires |s| == |x|
    ensures Added(x, s, 0.0) == x
  {
  }

  lemma AddedConstantZeroStep(x: seq<real>, s: real)
    ensures AddedConstant(x, s, 0.0) == x
  {
  }

  /** The merged temperature is at least both inputs and is one of them. */
  lemma HeatMergedBounds(t: seq<real>, s: seq<real>)
    requires |s| == |t|
    ensures forall k :: 0 <= k < |t| ==>
      HeatMerged(t, s)[k] >= t[k] && HeatMerged(t, s)[k] >= s[k] &&
      (HeatMerged(t, s)[k] == t[k] || HeatMerged(t, s)[k] == s[k])
  {
  }

  /** Merging the same heat source a second time changes nothing. */
  lemma HeatMergedIdempotent(t: seq<real>, s: seq<real>)
    requires |s| == |t|
    ensures HeatMerged(HeatMerged(t, s), s) == HeatMerged(t, s)
  {
  }

  /** Dissipation scales each cell's distance to eq by (1 - rate*dt): a zero
      factor is the identity and cells already at eq stay there. */
  lemma DissipatedScalesDistance(x: seq<real>, eq: real, rate: real, dt: real)
    ensures forall k :: 0 <= k < |x| ==>
      Dissipated(x, eq, rate, dt)[k] - eq == (1.0 - rate * dt) * (x[k] - eq)
    ensures rate * dt == 0.0 ==> Dissipated(x, eq, rate, dt) == x
  {
    var r := Dissipated(x, eq, rate, dt);
    forall k | 0 <= k < |x|
      ensures r[k] - eq == (1.0 - rate * dt) * (x[k] - eq)
    {
      assert r[k] == x[k] - (rate * dt) * (x[k] - eq);
    }
  }

  /** A field at the equilibrium value everywhere is left as it is. */
  lemma DissipatedAtEquilibrium(n: nat, eq: real, rate: real, dt: real)
    ensures Dissipated(Fill(n, eq), eq, rate, dt) == Fill(n, eq)
  {
    var r := Dissipated(Fill(n, eq), eq, rate, dt);
    forall k | 0 <= k < n
      ensures r[k] == eq
    {
      assert r[k] == eq - (rate * dt) * (eq - eq);
    }
  }

  /** With 0 <= rate*dt <= 1 each cell moves towards eq without overshooting it. */
  lemma DissipatedApproachesEquilibrium(x: seq<real>, eq: real, rate: real, dt: real)
    requires 0.0 <= rate * dt <= 1.0
    ensures forall k :: 0 <= k < |x| ==>
      var r := Dissipated(x, eq, rate, dt)[k];
      (x[k] >= eq ==> eq <= r <= x[k]) && (x[k] <= eq ==> x[k] <= r <= eq)
  {
    var d := rate * dt;
    DissipatedScalesDistance(x, eq, rate, dt);
    forall k | 0 <= k < |x|
      ensures var r := Dissipated(x, eq, rate, dt)[k];
        (x[k] >= eq ==> eq <= r <= x[k]) && (x[k] <= eq ==> x[k] <= r <= eq)
    {
      var e := x[k] - eq;
      var r := Dissipated(x, eq, rate, dt)[k];
      assert r - eq == (1.0 - d) * e;
      MulBetween(1.0 - d, e);
      assert 0.0 <= e ==> 0.0 <= (1.0 - d) * e <= e;
      assert e <= 0.0 ==> e <= (1.0 - d) * e <= 0.0;
    }
  }

  lemma MulBetween(c: real, e: real)
    requires 0.0 <= c <= 1.0
    ensures e >= 0.0 ==> 0.0 <= c * e <= e
    ensures e <= 0.0 ==> e <= c * e <= 0.0
  {
    if e >= 0.0 {
      MulNonneg(c, e);
      MulNonneg(1.0 - c, e);
      assert e - c * e == (1.0 - c) * e;
    } else {
      MulNonneg(c, -e);
      MulNonneg(1.0 - c, -e);
      assert c * e - e == (1.0 - c) * (-e);
      assert c * e == -(c * (-e));
    }
  }

  /** In cells at air temperature the fall-off variant is plain dissipation. */
  lemma FallOffAtAirTemperature(x: seq<real>, eq: real, rate: real, fallOff: real, dt: real,
                                temp: seq<real>, airTemp: real)
    requires |temp| == |x|
    ensures forall k :: 0 <= k < |x| && temp[k] == airTemp ==>
      DissipatedWithFallOff(x, eq, rate, fallOff, dt, temp, airTemp)[k] == Dissipated(x, eq, rate, dt)[k]
  {
  }

  /** Every interior cell can evaluate its buoyant force. */
  ghost predicate ConvectDefined(N: nat, p: SimParams, dens: seq<real>, temp: seq<real>)
    requires |dens| == Size(N) && |temp| == Size(N)
  {
    forall i, j {:trigger At(N, dens, i, j)} :: IsInterior(N, i, j) && p.temperatureOn ==>
      MixtureDefined(p, At(N, dens, i, j), At(N, temp, i, j))
  }

  /** v + g * f: a vertical velocity after a buoyant kick of force f over g = dt * grav. */
  function Kick(v: real, g: real, f: real): real
  {
    v + g * f
  }

  /** v after Convect: every interior cell gains g * force, with g = dt * grav;
      the ghost ring is untouched. */
  function Convected(N: nat, p: SimParams, dt: real, v: seq<real>, dens: seq<real>, temp: seq<real>): (r: seq<real>)
    requires |v| == Size(N) && |dens| == Size(N) && |temp| == Size(N)
    requires ConvectDefined(N, p, dens, temp)
    ensures |r| == |v|
  {
    var g := dt * p.grav;
    seq(|v|, k requires 0 <= k < |v| =>
      CoordinatesInGrid(N, k);
      var i, j := Col(N, k), Row(N, k);
      if IsInterior(N, i, j) then Kick(v[k], g, BuoyantForce(p, At(N, dens, i, j), At(N, temp, i, j))) else v[k])
  }

  /** Cell-level reading of Convected. */
  lemma ConvectedAt(N: nat, p: SimParams, dt: real, v: seq<real>, dens: seq<real>, temp: seq<real>)
    requires |v| == Size(N) && |dens| == Size(N) && |temp| == Size(N)
    requires ConvectDefined(N, p, dens, temp)
    ensures forall i, j {:trigger At(N, Convected(N, p, dt, v, dens, temp), i, j)} :: InGrid(N, i, j) ==>
      At(N, Convected(N, p, dt, v, dens, temp), i, j) ==
        if IsInterior(N, i, j) then Kick(At(N, v, i, j), dt * p.grav, BuoyantForce(p, At(N, dens, i, j), At(N, temp, i, j)))
        else At(N, v, i, j)
  {
    forall i, j | InGrid(N, i, j)
      ensures At(N, Convected(N, p, dt, v, dens, temp), i, j) ==
        if IsInterior(N, i, j) then Kick(At(N, v, i, j), dt * p.grav, BuoyantForce(p, At(N, dens, i, j), At(N, temp, i, j)))
        else At(N, v, i, j)
    {
      IndInRange(N, i, j);
      IndCoordinates(N, i, j);
    }
  }

  /** With a non-zero air density, a grid without gas feels no buoyant force. */
  lemma ConvectWithoutGas(N: nat, p: SimParams, dt: real, v: seq<real>, dens: seq<real>, temp: seq<real>)
    requires |v| == Size(N) && |dens| == Size(N) && |temp| == Size(N)
    requires ConvectDefined(N, p, dens, temp)
    requires p.airDens != 0.0
    requires forall k :: 0 <= k < |dens| ==> dens[k] == 0.0
    ensures Convected(N, p, dt, v, dens, temp) == v
  {
    ConvectedAt(N, p, dt, v, dens, temp);
    var r := Convected(N, p, dt, v, dens, temp);
    forall i, j | InGrid(N, i, j)
      ensures At(N, r, i, j) == At(N, v, i, j)
    {
      IndInRange(N, i, j);
      if IsInterior(N, i, j) {
        assert At(N, dens, i, j) == 0.0;
      }
    }
    FieldExtensionality(N, r, v);
  }
}
