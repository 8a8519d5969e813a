/** The Gauss-Seidel relaxation shared by Diffuse and HodgeProjection: a number
    of in-place sweeps over the interior (column i outer, row j inner), each
    cell reading the current values of its four neighbours, with SetBoundary
    after every sweep. */
module Relaxation {
  import opened Grid
  import opened Physics
  import opened Boundary

  /** Where a coefficient input comes from: a field that stays fixed during the
      relaxation, or the very field being relaxed (read at its current value). */
  datatype Src = Fixed(s: seq<real>) | Relaxed

  predicate SrcFits(N: nat, src: Src)
  {
    src.Fixed? ==> |src.s| == Size(N)
  }

  /** The coefficient input of cell (i, j), given the current value v of the relaxed field there. */
  function Pick(N: nat, src: Src, i: int, j: int, v: real): real
    requires SrcFits(N, src) && InGrid(N, i, j)
  {
    match src
    case Fixed(s) => At(N, s, i, j)
    case Relaxed => v
  }

  /** The per-cell update rule: implicit diffusion towards x0 with weight
      a * coefficient(density, temperature), or the pressure Poisson update. */
  datatype Stencil =
    | Diffusion(x0: seq<real>, a: real, p: SimParams, sqrt: real -> real, kind: Coefficient, dens: Src, temp: Src)
    | Pressure(div: seq<real>)

  /** The coefficient is defined and nonnegative in every interior cell, for
      every value the relaxed field may take there. */
  ghost predicate CoefficientsOK(N: nat, p: SimParams, sqrt: real -> real, kind: Coefficient, ds: Src, ts: Src)
  {
    && SrcFits(N, ds) && SrcFits(N, ts)
    && (forall i, j, v {:trigger Pick(N, ds, i, j, v), Pick(N, ts, i, j, v)} :: IsInterior(N, i, j) ==>
          CoefficientOK(p, sqrt, kind, Pick(N, ds, i, j, v), Pick(N, ts, i, j, v)))
  }

  /** Every update is defined: sizes fit, a >= 0 and the coefficients are OK. */
  ghost predicate StencilOK(N: nat, st: Stencil)
  {
    match st
    case Diffusion(x0, a, p, sqrt, kind, ds, ts) =>
      |x0| == Size(N) && a >= 0.0 && CoefficientsOK(N, p, sqrt, kind, ds, ts)
    case Pressure(div) => |div| == Size(N)
  }

  /** With advanced coefficients off and nonnegative constants, the
      coefficients are OK whatever the fields hold. */
  lemma ConstantCoefficientsEverywhere(N: nat, p: SimParams, sqrt: real -> real, kind: Coefficient, ds: Src, ts: Src)
    requires ConstantCoefficients(p) && SrcFits(N, ds) && SrcFits(N, ts)
    ensures CoefficientsOK(N, p, sqrt, kind, ds, ts)
  {
    forall i, j, v | IsInterior(N, i, j)
      ensures CoefficientOK(p, sqrt, kind, Pick(N, ds, i, j, v), Pick(N, ts, i, j, v))
    {
      ConstantCoefficientsOK(p, sqrt, kind, Pick(N, ds, i, j, v), Pick(N, ts, i, j, v));
    }
  }

  /** Sum of the four neighbours of an interior cell. */
  function Neighbours(N: nat, x: seq<real>, i: int, j: int): real
    requires |x| == Size(N) && IsInterior(N, i, j)
  {
    At(N, x, i - 1, j) + At(N, x, i + 1, j) + At(N, x, i, j - 1) + At(N, x, i, j + 1)
  }

  /** a_t = a * coefficient of the cell, evaluated before the cell is updated. */
  function CellWeight(N: nat, st: Stencil, x: seq<real>, i: int, j: int): (r: real)
    requires StencilOK(N, st) && st.Diffusion? && |x| == Size(N) && IsInterior(N, i, j)
    ensures r >= 0.0
  {
    var v := At(N, x, i, j);
    assert CoefficientOK(st.p, st.sqrt, st.kind, Pick(N, st.dens, i, j, v), Pick(N, st.temp, i, j, v));
    var c := CoefficientValue(st.p, st.sqrt, st.kind, Pick(N, st.dens, i, j, v), Pick(N, st.temp, i, j, v));
    MulNonneg(st.a, c);
    st.a * c
  }

  /** The value an interior cell is given by one update. */
  function NewValue(N: nat, st: Stencil, x: seq<real>, i: int, j: int): real
    requires StencilOK(N, st) && |x| == Size(N) && IsInterior(N, i, j)
  {
    match st
    case Diffusion(x0, _, _, _, _, _, _) =>
      var at := CellWeight(N, st, x, i, j);
      (At(N, x0, i, j) + at * Neighbours(N, x, i, j)) / (1.0 + 4.0 * at)
    case Pressure(div) =>
      (At(N, div, i, j) + Neighbours(N, x, i, j)) / 4.0
  }

  function UpdateCell(N: nat, st: Stencil, x: seq<real>, i: int, j: int): (r: seq<real>)
    requires StencilOK(N, st) && |x| == Size(N) && IsInterior(N, i, j)
    ensures |r| == |x|
  {
    Put(N, x, i, j, NewValue(N, st, x, i, j))
  }

  /** Column i after the inner loop has updated rows 1..m. */
  function SweepColumn(N: nat, st: Stencil, x: seq<real>, i: int, m: nat): (r: seq<real>)
    requires StencilOK(N, st) && |x| == Size(N) && 1 <= i <= N && m <= N
    ensures |r| == |x|
  {
    if m == 0 then x else UpdateCell(N, st, SweepColumn(N, st, x, i, m - 1), i, m)
  }

  /** The grid after the outer loop has swept columns 1..n. */
  function SweepUpTo(N: nat, st: Stencil, x: seq<real>, n: nat): (r: seq<real>)
    requires StencilOK(N, st) && |x| == Size(N) && n <= N
    ensures |r| == |x|
  {
    if n == 0 then x else SweepColumn(N, st, SweepUpTo(N, st, x, n - 1), n, N)
  }

  /** One full sweep over the interior. */
  function Sweep(N: nat, st: Stencil, x: seq<real>): (r: seq<real>)
    requires StencilOK(N, st) && |x| == Size(N)
    ensures |r| == |x|
  {
    SweepUpTo(N, st, x, N)
  }

  /** The field after `steps` relaxation steps, each a sweep followed by SetBoundary(b). */
  function Relax(N: nat, b: int, st: Stencil, x: seq<real>, steps: int): (r: seq<real>)
    requires ValidMode(b) && StencilOK(N, st) && |x| == Size(N)
    ensures |r| == |x|
    decreases steps
  {
    if steps <= 0 then x else SetBoundary(N, b, Sweep(N, st, Relax(N, b, st, x, steps - 1)))
  }

  // ---- Maximum principle ----

  /** Every interior cell of the field lies in [lo, hi]. */
  ghost predicate InteriorInRange(N: nat, x: seq<real>, lo: real, hi: real)
    requires |x| == Size(N)
  {
    forall i, j {:trigger At(N, x, i, j)} :: IsInterior(N, i, j) ==> lo <= At(N, x, i, j) <= hi
  }

  /** The stencil's fixed input keeps updates inside [lo, hi]: the diffusion
      target lies in it, or the divergence is zero (pure averaging). */
  ghost predicate StencilWithin(N: nat, st: Stencil, lo: real, hi: real)
    requires StencilOK(N, st)
  {
    match st
    case Diffusion(x0, _, _, _, _, _, _) => InteriorInRange(N, x0, lo, hi)
    case Pressure(div) => InteriorInRange(N, div, 0.0, 0.0)
  }

  /** (c + w * nb) / (1 + 4w) is a convex combination of c and the four neighbours. */
  lemma ConvexBound(c: real, nb: real, w: real, lo: real, hi: real)
    requires w >= 0.0 && lo <= c <= hi && 4.0 * lo <= nb <= 4.0 * hi
    ensures lo <= (c + w * nb) / (1.0 + 4.0 * w) <= hi
  {
    var D := 1.0 + 4.0 * w;
    var q := (c + w * nb) / D;
    assert q * D == c + w * nb;
    MulNonneg(w, nb - 4.0 * lo);
    MulNonneg(w, 4.0 * hi - nb);
    assert lo * D <= c + w * nb <= hi * D;
    assert (q - lo) * D >= 0.0 && (hi - q) * D >= 0.0;
    PositiveFactor(q - lo, D);
    PositiveFactor(hi - q, D);
  }

  lemma PositiveFactor(e: real, D: real)
    requires D > 0.0 && e * D >= 0.0
    ensures e >= 0.0
  {
  }

  /** One update keeps the cell inside [lo, hi] when everything it reads is. */
  lemma NewValueWithin(N: nat, st: Stencil, x: seq<real>, i: int, j: int, lo: real, hi: real)
    requires StencilOK(N, st) && |x| == Size(N) && IsInterior(N, i, j)
    requires StencilWithin(N, st, lo, hi) && InRange(N, x, lo, hi)
    ensures lo <= NewValue(N, st, x, i, j) <= hi
  {
    var nb := Neighbours(N, x, i, j);
    assert lo <= At(N, x, i - 1, j) <= hi && lo <= At(N, x, i + 1, j) <= hi;
    assert lo <= At(N, x, i, j - 1) <= hi && lo <= At(N, x, i, j + 1) <= hi;
    match st
    case Diffusion(x0, _, _, _, _, _, _) =>
      assert lo <= At(N, x0, i, j) <= hi;
      var w := CellWeight(N, st, x, i, j);
      ConvexBound(At(N, x0, i, j), nb, w, lo, hi);
      assert NewValue(N, st, x, i, j) == (At(N, x0, i, j) + w * nb) / (1.0 + 4.0 * w);
    case Pressure(div) =>
      assert At(N, div, i, j) == 0.0;
  }

  lemma {:induction false} SweepColumnWithin(N: nat, st: Stencil, x: seq<real>, i: int, m: nat, lo: real, hi: real)
    requires StencilOK(N, st) && |x| == Size(N) && 1 <= i <= N && m <= N
    requires StencilWithin(N, st, lo, hi) && InRange(N, x, lo, hi)
    ensures InRange(N, SweepColumn(N, st, x, i, m), lo, hi)
  {
    if m > 0 {
      var y := SweepColumn(N, st, x, i, m - 1);
      SweepColumnWithin(N, st, x, i, m - 1, lo, hi);
      NewValueWithin(N, st, y, i, m, lo, hi);
    }
  }

  lemma {:induction false} SweepUpToWithin(N: nat, st: Stencil, x: seq<real>, n: nat, lo: real, hi: real)
    requires StencilOK(N, st) && |x| == Size(N) && n <= N
    requires StencilWithin(N, st, lo, hi) && InRange(N, x, lo, hi)
    ensures InRange(N, SweepUpTo(N, st, x, n), lo, hi)
  {
    if n > 0 {
      SweepUpToWithin(N, st, x, n - 1, lo, hi);
      SweepColumnWithin(N, st, SweepUpTo(N, st, x, n - 1), n, N, lo, hi);
    }
  }

  /** Discrete maximum principle: when the start field lies in [lo, hi], the
      diffusion target's interior does too (or the divergence is zero), and
      the boundary mode maps [lo, hi] into itself, every relaxation step stays
      inside [lo, hi]. */
  lemma {:induction false} RelaxWithin(N: nat, b: int, st: Stencil, x: seq<real>, steps: int, lo: real, hi: real)
    requires N >= 1 && ValidMode(b) && StencilOK(N, st) && |x| == Size(N)
    requires StencilWithin(N, st, lo, hi) && InRange(N, x, lo, hi) && ModeKeepsRange(b, lo, hi)
    ensures InRange(N, Relax(N, b, st, x, steps), lo, hi)
    decreases steps
  {
    if steps > 0 {
      var y := Relax(N, b, st, x, steps - 1);
      RelaxWithin(N, b, st, x, steps - 1, lo, hi);
      SweepUpToWithin(N, st, y, N, lo, hi);
      BoundaryKeepsRange(N, b, Sweep(N, st, y), lo, hi);
    }
  }

  // ---- Zero time step ----

  /** With a = 0 the inner loop copies x0 into the cells it has visited. */
  lemma {:induction false} ZeroWeightColumn(N: nat, st: Stencil, x: seq<real>, i: int, m: nat)
    requires StencilOK(N, st) && st.Diffusion? && st.a == 0.0 && |x| == Size(N) && 1 <= i <= N && m <= N
    ensures forall i', j' {:trigger At(N, SweepColumn(N, st, x, i, m), i', j')} :: InGrid(N, i', j') ==>
      At(N, SweepColumn(N, st, x, i, m), i', j') == if i' == i && 1 <= j' <= m then At(N, st.x0, i', j') else At(N, x, i', j')
  {
    if m > 0 {
      ZeroWeightColumn(N, st, x, i, m - 1);
      var y := SweepColumn(N, st, x, i, m - 1);
      assert CellWeight(N, st, y, i, m) == 0.0;
      assert NewValue(N, st, y, i, m) == At(N, st.x0, i, m);
    }
  }

  lemma {:induction false} ZeroWeightUpTo(N: nat, st: Stencil, x: seq<real>, n: nat)
    requires StencilOK(N, st) && st.Diffusion? && st.a == 0.0 && |x| == Size(N) && n <= N
    ensures forall i', j' {:trigger At(N, SweepUpTo(N, st, x, n), i', j')} :: InGrid(N, i', j') ==>
      At(N, SweepUpTo(N, st, x, n), i', j') ==
        if 1 <= i' <= n && 1 <= j' <= N then At(N, st.x0, i', j') else At(N, x, i', j')
  {
    if n > 0 {
      ZeroWeightUpTo(N, st, x, n - 1);
      ZeroWeightColumn(N, st, SweepUpTo(N, st, x, n - 1), n, N);
    }
  }

  /** Diffusion over a zero time step (a = 0) returns x0 with the boundary
      rule applied, whatever the start field, once at least one step runs. */
  lemma ZeroWeightRelax(N: nat, b: int, st: Stencil, x: seq<real>, steps: int)
    requires N >= 1 && ValidMode(b) && StencilOK(N, st) && st.Diffusion? && st.a == 0.0 && |x| == Size(N)
    requires steps >= 1
    ensures Relax(N, b, st, x, steps) == SetBoundary(N, b, st.x0)
  {
    var y := Relax(N, b, st, x, steps - 1);
    ZeroWeightUpTo(N, st, y, N);
    BoundaryDependsOnInterior(N, b, Sweep(N, st, y), st.x0);
  }
}
