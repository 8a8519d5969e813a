/** The Hodge projection (`HodgeProjection`): computes the divergence of the
    velocity field, relaxes the pressure Poisson equation from a zero start,
    and subtracts the pressure gradient from the velocity. */
module Projection {
  import opened Grid
  import opened Physics
  import opened Boundary
  import opened Relaxation

  /** -0.5 * h * (uE - uW + vN - vS): the scaled central-difference
      divergence from the four neighbouring velocity components. */
  function Divergence(h: real, uE: real, uW: real, vN: real, vS: real): real
  {
    -0.5 * h * (uE - uW + vN - vS)
  }

  /** The divergence of interior cell (i, j). */
  function DivergenceCell(N: nat, h: real, u: seq<real>, v: seq<real>, i: int, j: int): real
    requires |u| == Size(N) && |v| == Size(N) && IsInterior(N, i, j)
  {
    Divergence(h, At(N, u, i + 1, j), At(N, u, i - 1, j), At(N, v, i, j + 1), At(N, v, i, j - 1))
  }

  /** div after the first loop: interior divergence, ghost ring untouched. */
  function DivergenceInterior(N: nat, h: real, u: seq<real>, v: seq<real>, div: seq<real>): (r: seq<real>)
    requires |u| == Size(N) && |v| == Size(N) && |div| == Size(N)
    ensures |r| == |div|
  {
    seq(|div|, k requires 0 <= k < |div| =>
      CoordinatesInGrid(N, k);
      if IsInterior(N, Col(N, k), Row(N, k)) then DivergenceCell(N, h, u, v, Col(N, k), Row(N, k)) else div[k])
  }

  /** p after the first loop: interior zeroed, ghost ring untouched. */
  function ZeroInterior(N: nat, p: seq<real>): (r: seq<real>)
    requires |p| == Size(N)
    ensures |r| == |p|
  {
    seq(|p|, k requires 0 <= k < |p| =>
      CoordinatesInGrid(N, k);
      if IsInterior(N, Col(N, k), Row(N, k)) then 0.0 else p[k])
  }

  /** w - 0.5 * (pPlus - pMinus) / h: a velocity component less its share of
      the pressure gradient. */
  function Corrected(w: real, pPlus: real, pMinus: real, h: real): real
    requires h != 0.0
  {
    w - 0.5 * (pPlus - pMinus) / h
  }

  /** The last loop: u loses the x-component (alongX) or v the y-component of
      the pressure gradient, 0.5 * (central difference of p) / h. */
  function GradientCorrected(N: nat, h: real, w: seq<real>, p: seq<real>, alongX: bool): (r: seq<real>)
    requires |w| == Size(N) && |p| == Size(N) && h != 0.0
    ensures |r| == |w|
  {
    seq(|w|, k requires 0 <= k < |w| =>
      CoordinatesInGrid(N, k);
      var i, j := Col(N, k), Row(N, k);
      if IsInterior(N, i, j) then
        (if alongX then Corrected(w[k], At(N, p, i + 1, j), At(N, p, i - 1, j), h)
         else Corrected(w[k], At(N, p, i, j + 1), At(N, p, i, j - 1), h))
      else w[k])
  }

  /** The four buffers after HodgeProjection(u, v, p, div). */
  datatype Projected = Projected(u: seq<real>, v: seq<real>, p: seq<real>, div: seq<real>)

  /** HodgeProjection with cell size h and `steps` Gauss-Seidel steps. */
  function Hodge(N: nat, h: real, steps: int, u: seq<real>, v: seq<real>, p: seq<real>, div: seq<real>): (r: Projected)
    requires N >= 1 && h != 0.0
    requires |u| == Size(N) && |v| == Size(N) && |p| == Size(N) && |div| == Size(N)
    ensures |r.u| == Size(N) && |r.v| == Size(N) && |r.p| == Size(N) && |r.div| == Size(N)
  {
    var div1 := SetBoundary(N, 0, DivergenceInterior(N, h, u, v, div));
    var p1 := SetBoundary(N, 0, ZeroInterior(N, p));
    var p2 := Relax(N, 0, Pressure(div1), p1, steps);
    var u1 := SetBoundary(N, 1, GradientCorrected(N, h, u, p2, true));
    var v1 := SetBoundary(N, 2, GradientCorrected(N, h, v, p2, false));
    Projected(u1, v1, p2, div1)
  }

  lemma DivergenceInteriorAt(N: nat, h: real, u: seq<real>, v: seq<real>, div: seq<real>)
    requires |u| == Size(N) && |v| == Size(N) && |div| == Size(N)
    ensures forall i, j {:trigger At(N, DivergenceInterior(N, h, u, v, div), i, j)} :: InGrid(N, i, j) ==>
      At(N, DivergenceInterior(N, h, u, v, div), i, j) ==
        if IsInterior(N, i, j) then DivergenceCell(N, h, u, v, i, j) else At(N, div, i, j)
  {
    forall i, j | InGrid(N, i, j)
      ensures At(N, DivergenceInterior(N, h, u, v, div), i, j) ==
        if IsInterior(N, i, j) then DivergenceCell(N, h, u, v, i, j) else At(N, div, i, j)
    {
      IndInRange(N, i, j);
      IndCoordinates(N, i, j);
    }
  }

  lemma ZeroInteriorAt(N: nat, p: seq<real>)
    requires |p| == Size(N)
    ensures forall i, j {:trigger At(N, ZeroInterior(N, p), i, j)} :: InGrid(N, i, j) ==>
      At(N, ZeroInterior(N, p), i, j) == if IsInterior(N, i, j) then 0.0 else At(N, p, i, j)
  {
    forall i, j | InGrid(N, i, j)
      ensures At(N, ZeroInterior(N, p), i, j) == if IsInterior(N, i, j) then 0.0 else At(N, p, i, j)
    {
      IndInRange(N, i, j);
      IndCoordinates(N, i, j);
    }
  }

  lemma GradientCorrectedAt(N: nat, h: real, w: seq<real>, p: seq<real>, alongX: bool)
    requires |w| == Size(N) && |p| == Size(N) && h != 0.0
    ensures forall i, j {:trigger At(N, GradientCorrected(N, h, w, p, alongX), i, j)} :: InGrid(N, i, j) ==>
      At(N, GradientCorrected(N, h, w, p, alongX), i, j) ==
        if !IsInterior(N, i, j) then At(N, w, i, j)
        else if alongX then Corrected(At(N, w, i, j), At(N, p, i + 1, j), At(N, p, i - 1, j), h)
        else Corrected(At(N, w, i, j), At(N, p, i, j + 1), At(N, p, i, j - 1), h)
  {
    forall i, j | InGrid(N, i, j)
      ensures At(N, GradientCorrected(N, h, w, p, alongX), i, j) ==
        if !IsInterior(N, i, j) then At(N, w, i, j)
        else if alongX then Corrected(At(N, w, i, j), At(N, p, i + 1, j), At(N, p, i - 1, j), h)
        else Corrected(At(N, w, i, j), At(N, p, i, j + 1), At(N, p, i, j - 1), h)
    {
      IndInRange(N, i, j);
      IndCoordinates(N, i, j);
    }
  }

  /** The projection's results do not depend on what p and div held before:
      both are overwritten (interior by the first loop, ghosts by SetBoundary)
      before they are read. */
  lemma HodgeIgnoresScratch(N: nat, h: real, steps: int, u: seq<real>, v: seq<real>,
                            p: seq<real>, div: seq<real>, p': seq<real>, div': seq<real>)
    requires N >= 1 && h != 0.0
    requires |u| == Size(N) && |v| == Size(N)
    requires |p| == Size(N) && |div| == Size(N) && |p'| == Size(N) && |div'| == Size(N)
    ensures Hodge(N, h, steps, u, v, p, div) == Hodge(N, h, steps, u, v, p', div')
  {
    DivergenceInteriorAt(N, h, u, v, div);
    DivergenceInteriorAt(N, h, u, v, div');
    BoundaryDependsOnInterior(N, 0, DivergenceInterior(N, h, u, v, div), DivergenceInterior(N, h, u, v, div'));
    ZeroInteriorAt(N, p);
    ZeroInteriorAt(N, p');
    BoundaryDependsOnInterior(N, 0, ZeroInterior(N, p), ZeroInterior(N, p'));
  }

  /** On exit u satisfies the mode-1 and v the mode-2 boundary relations. */
  lemma HodgeBoundaries(N: nat, h: real, steps: int, u: seq<real>, v: seq<real>, p: seq<real>, div: seq<real>)
    requires N >= 1 && h != 0.0
    requires |u| == Size(N) && |v| == Size(N) && |p| == Size(N) && |div| == Size(N)
    ensures BoundaryHolds(N, 1, Hodge(N, h, steps, u, v, p, div).u)
    ensures BoundaryHolds(N, 2, Hodge(N, h, steps, u, v, p, div).v)
    ensures BoundaryHolds(N, 0, Hodge(N, h, steps, u, v, p, div).div)
  {
    var div1 := SetBoundary(N, 0, DivergenceInterior(N, h, u, v, div));
    var p1 := SetBoundary(N, 0, ZeroInterior(N, p));
    var p2 := Relax(N, 0, Pressure(div1), p1, steps);
    BoundaryEstablishes(N, 1, GradientCorrected(N, h, u, p2, true));
    BoundaryEstablishes(N, 2, GradientCorrected(N, h, v, p2, false));
    BoundaryEstablishes(N, 0, DivergenceInterior(N, h, u, v, div));
  }

  /** A field whose every cell is 0. */
  ghost predicate IsZero(N: nat, x: seq<real>)
    requires |x| == Size(N)
  {
    InRange(N, x, 0.0, 0.0)
  }

  /** A field whose interior is zero is all zero after SetBoundary. */
  lemma ZeroInteriorBoundary(N: nat, b: int, x: seq<real>)
    requires N >= 1 && ValidMode(b) && |x| == Size(N)
    requires InteriorInRange(N, x, 0.0, 0.0)
    ensures IsZero(N, SetBoundary(N, b, x))
  {
    var z := seq(|x|, k => 0.0);
    forall i, j | InGrid(N, i, j)
      ensures At(N, z, i, j) == 0.0
    {
      IndInRange(N, i, j);
    }
    assert SameInterior(N, x, z);
    BoundaryDependsOnInterior(N, b, x, z);
    BoundaryKeepsRange(N, b, z, 0.0, 0.0);
  }

  /** A zero pressure field leaves the velocity component unchanged. */
  lemma GradientOfZeroPressure(N: nat, h: real, b: int, w: seq<real>, p: seq<real>, alongX: bool)
    requires N >= 1 && ValidMode(b) && h != 0.0 && |w| == Size(N) && |p| == Size(N)
    requires IsZero(N, p)
    ensures SetBoundary(N, b, GradientCorrected(N, h, w, p, alongX)) == SetBoundary(N, b, w)
  {
    var wc := GradientCorrected(N, h, w, p, alongX);
    GradientCorrectedAt(N, h, w, p, alongX);
    forall i, j | IsInterior(N, i, j)
      ensures At(N, wc, i, j) == At(N, w, i, j)
    {
      assert At(N, p, i + 1, j) == 0.0 && At(N, p, i - 1, j) == 0.0;
      assert At(N, p, i, j + 1) == 0.0 && At(N, p, i, j - 1) == 0.0;
    }
    BoundaryDependsOnInterior(N, b, wc, w);
  }

  /** For a divergence-free velocity the divergence buffer and the relaxed
      pressure come out zero. */
  lemma PressureOfDivergenceFree(N: nat, h: real, steps: int, u: seq<real>, v: seq<real>, p: seq<real>, div: seq<real>)
    requires N >= 1 && h != 0.0
    requires |u| == Size(N) && |v| == Size(N) && |p| == Size(N) && |div| == Size(N)
    requires forall i, j {:trigger DivergenceCell(N, h, u, v, i, j)} :: IsInterior(N, i, j) ==>
      DivergenceCell(N, h, u, v, i, j) == 0.0
    ensures IsZero(N, Hodge(N, h, steps, u, v, p, div).p) && IsZero(N, Hodge(N, h, steps, u, v, p, div).div)
  {
    var div0 := DivergenceInterior(N, h, u, v, div);
    DivergenceInteriorAt(N, h, u, v, div);
    ZeroInteriorBoundary(N, 0, div0);
    var div1 := SetBoundary(N, 0, div0);
    ZeroInteriorAt(N, p);
    ZeroInteriorBoundary(N, 0, ZeroInterior(N, p));
    var p1 := SetBoundary(N, 0, ZeroInterior(N, p));
    RelaxWithin(N, 0, Pressure(div1), p1, steps, 0.0, 0.0);
  }

  /** A discretely divergence-free velocity field passes through the
      projection unchanged apart from the boundary rule: pressure and
      divergence come out zero and the gradient correction removes nothing. */
  lemma HodgeDivergenceFree(N: nat, h: real, steps: int, u: seq<real>, v: seq<real>, p: seq<real>, div: seq<real>)
    requires N >= 1 && h != 0.0
    requires |u| == Size(N) && |v| == Size(N) && |p| == Size(N) && |div| == Size(N)
    requires forall i, j {:trigger DivergenceCell(N, h, u, v, i, j)} :: IsInterior(N, i, j) ==>
      DivergenceCell(N, h, u, v, i, j) == 0.0
    ensures var r := Hodge(N, h, steps, u, v, p, div);
      && r.u == SetBoundary(N, 1, u) && r.v == SetBoundary(N, 2, v)
      && IsZero(N, r.p) && IsZero(N, r.div)
  {
    PressureOfDivergenceFree(N, h, steps, u, v, p, div);
    var p2 := Hodge(N, h, steps, u, v, p, div).p;
    GradientOfZeroPressure(N, h, 1, u, p2, true);
    GradientOfZeroPressure(N, h, 2, v, p2, false);
  }
}
