/** Semi-Lagrangian advection (`Advect`): every interior cell is traced back
    along the velocity field, clamped into the grid, and given the bilinear
    interpolation of the four surrounding cells of the source field d0; then
    SetBoundary(b) fills the ghost ring. */
module Advection {
  import opened Grid
  import opened Physics
  import opened Boundary

  /** C's (int) conversion of a float: truncation toward zero. */
  function Trunc(x: real): int
  {
    if x >= 0.0 then x.Floor else -((-x).Floor)
  }

  /** The two clamping tests, in source order. */
  function Clamp(N: nat, x: real): real
  {
    var c := if x < 0.5 then 0.5 else x;
    if c > N as real + 0.5 then N as real + 0.5 else c
  }

  /** One axis of the back-trace: the lower cell index i0 = (int)clamped and
      the weight s1 = clamped - i0 of the upper cell i0 + 1. */
  function SplitAxis(N: nat, x: real): (r: (int, real))
    ensures 0 <= r.0 <= N && 0.0 <= r.1 < 1.0
    ensures 0.5 <= r.0 as real + r.1 <= N as real + 0.5
  {
    var c := Clamp(N, x);
    var i0 := Trunc(c);
    (i0, c - i0 as real)
  }

  /** The back-traced coordinate i - dt0 * w of a cell whose velocity component is w. */
  function BackTrace(i: int, dt0: real, w: real): real
  {
    i as real - dt0 * w
  }

  /** The weighted sum of four samples: a at (i0, j0), b at (i0, j1), c at
      (i1, j0) and e at (i1, j1), with weights s0, s1 across and t0, t1 up. */
  function Interpolate(s0: real, s1: real, t0: real, t1: real, a: real, b: real, c: real, e: real): real
  {
    s0 * (t0 * a + t1 * b) + s1 * (t0 * c + t1 * e)
  }

  /** Bilinear interpolation of d0 between cells i0, i0+1 and j0, j0+1 with
      upper weights s1 and t1 (and lower weights s0 = 1 - s1, t0 = 1 - t1). */
  function Bilinear(N: nat, d0: seq<real>, i0: int, s1: real, j0: int, t1: real): real
    requires |d0| == Size(N) && 0 <= i0 <= N && 0 <= j0 <= N
  {
    Interpolate(1.0 - s1, s1, 1.0 - t1, t1,
                At(N, d0, i0, j0), At(N, d0, i0, j0 + 1), At(N, d0, i0 + 1, j0), At(N, d0, i0 + 1, j0 + 1))
  }

  /** The back-traced, interpolated value of interior cell (i, j). */
  function AdvectCell(N: nat, dt0: real, d0: seq<real>, u: seq<real>, v: seq<real>, i: int, j: int): real
    requires |d0| == Size(N) && |u| == Size(N) && |v| == Size(N) && IsInterior(N, i, j)
  {
    var x := SplitAxis(N, BackTrace(i, dt0, At(N, u, i, j)));
    var y := SplitAxis(N, BackTrace(j, dt0, At(N, v, i, j)));
    Bilinear(N, d0, x.0, x.1, y.0, y.1)
  }

  /** d after the interior loop: interior cells advected, ghost ring untouched. */
  function AdvectInterior(N: nat, dt0: real, d: seq<real>, d0: seq<real>, u: seq<real>, v: seq<real>): (r: seq<real>)
    requires |d| == Size(N) && |d0| == Size(N) && |u| == Size(N) && |v| == Size(N)
    ensures |r| == |d|
  {
    seq(|d|, k requires 0 <= k < |d| =>
      CoordinatesInGrid(N, k);
      var i, j := Col(N, k), Row(N, k);
      if IsInterior(N, i, j) then AdvectCell(N, dt0, d0, u, v, i, j) else d[k])
  }

  /** d after Advect(b, d, d0, u, v): the interior loop, then SetBoundary(b). */
  function Advect(N: nat, b: int, dt0: real, d: seq<real>, d0: seq<real>, u: seq<real>, v: seq<real>): (r: seq<real>)
    requires ValidMode(b) && |d| == Size(N) && |d0| == Size(N) && |u| == Size(N) && |v| == Size(N)
    ensures |r| == |d|
  {
    SetBoundary(N, b, AdvectInterior(N, dt0, d, d0, u, v))
  }

  /** Cell-level reading of the interior loop. */
  lemma AdvectInteriorAt(N: nat, dt0: real, d: seq<real>, d0: seq<real>, u: seq<real>, v: seq<real>)
    requires |d| == Size(N) && |d0| == Size(N) && |u| == Size(N) && |v| == Size(N)
    ensures forall i, j {:trigger At(N, AdvectInterior(N, dt0, d, d0, u, v), i, j)} :: InGrid(N, i, j) ==>
      At(N, AdvectInterior(N, dt0, d, d0, u, v), i, j) ==
        if IsInterior(N, i, j) then AdvectCell(N, dt0, d0, u, v, i, j) else At(N, d, i, j)
  {
    AllCoordinates(N);
  }

  /** The result does not depend on what d held before: the interior is
      overwritten by the loop and the ghost ring by SetBoundary. */
  lemma AdvectIgnoresTarget(N: nat, b: int, dt0: real, d: seq<real>, d': seq<real>, d0: seq<real>, u: seq<real>, v: seq<real>)
    requires N >= 1 && ValidMode(b)
    requires |d| == Size(N) && |d'| == Size(N) && |d0| == Size(N) && |u| == Size(N) && |v| == Size(N)
    ensures Advect(N, b, dt0, d, d0, u, v) == Advect(N, b, dt0, d', d0, u, v)
  {
    AdvectInteriorAt(N, dt0, d, d0, u, v);
    AdvectInteriorAt(N, dt0, d', d0, u, v);
    BoundaryDependsOnInterior(N, b, AdvectInterior(N, dt0, d, d0, u, v), AdvectInterior(N, dt0, d', d0, u, v));
  }

  /** In a cell whose velocity is zero (or over a zero time step) the back-trace
      stays in place and the cell keeps its d0 value. */
  lemma AdvectCellStill(N: nat, dt0: real, d0: seq<real>, u: seq<real>, v: seq<real>, i: int, j: int)
    requires |d0| == Size(N) && |u| == Size(N) && |v| == Size(N) && IsInterior(N, i, j)
    requires dt0 * At(N, u, i, j) == 0.0 && dt0 * At(N, v, i, j) == 0.0
    ensures AdvectCell(N, dt0, d0, u, v, i, j) == At(N, d0, i, j)
  {
    SplitAxisAtCell(N, i);
    SplitAxisAtCell(N, j);
    var u', v' := At(N, u, i, j), At(N, v, i, j);
    assert BackTrace(i, dt0, u') == i as real;
    assert BackTrace(j, dt0, v') == j as real;
    assert AdvectCell(N, dt0, d0, u, v, i, j) == Bilinear(N, d0, i, 0.0, j, 0.0);
  }

  /** A back-trace that lands on an interior grid point splits into that point with weight 0. */
  lemma SplitAxisAtCell(N: nat, i: int)
    requires 1 <= i <= N
    ensures SplitAxis(N, i as real) == (i, 0.0)
  {
    assert Clamp(N, i as real) == i as real;
    assert (i as real).Floor == i;
  }

  /** A field at rest is carried over unchanged: with zero velocity in every
      interior cell, Advect returns d0 with the boundary rule applied. */
  lemma AdvectStill(N: nat, b: int, dt0: real, d: seq<real>, d0: seq<real>, u: seq<real>, v: seq<real>)
    requires N >= 1 && ValidMode(b)
    requires |d| == Size(N) && |d0| == Size(N) && |u| == Size(N) && |v| == Size(N)
    requires forall i, j {:trigger At(N, u, i, j)} {:trigger At(N, v, i, j)} :: IsInterior(N, i, j) ==>
      dt0 * At(N, u, i, j) == 0.0 && dt0 * At(N, v, i, j) == 0.0
    ensures Advect(N, b, dt0, d, d0, u, v) == SetBoundary(N, b, d0)
  {
    AdvectInteriorAt(N, dt0, d, d0, u, v);
    var r := AdvectInterior(N, dt0, d, d0, u, v);
    forall i, j | IsInterior(N, i, j)
      ensures At(N, r, i, j) == At(N, d0, i, j)
    {
      AdvectCellStill(N, dt0, d0, u, v, i, j);
    }
    BoundaryDependsOnInterior(N, b, r, d0);
  }

  /** s0 * a + s1 * b with convex weights stays between the bounds of a and b. */
  lemma LerpWithin(s0: real, s1: real, a: real, b: real, lo: real, hi: real)
    requires s0 >= 0.0 && s1 >= 0.0 && s0 + s1 == 1.0
    requires lo <= a <= hi && lo <= b <= hi
    ensures lo <= s0 * a + s1 * b <= hi
  {
    MulNonneg(s0, a - lo);
    MulNonneg(s1, b - lo);
    MulNonneg(s0, hi - a);
    MulNonneg(s1, hi - b);
    assert s0 * a + s1 * b - lo == s0 * (a - lo) + s1 * (b - lo);
    assert hi - (s0 * a + s1 * b) == s0 * (hi - a) + s1 * (hi - b);
  }

  /** An interpolated value lies between the smallest and largest of its four samples. */
  lemma BilinearWithin(N: nat, d0: seq<real>, i0: int, s1: real, j0: int, t1: real, lo: real, hi: real)
    requires |d0| == Size(N) && 0 <= i0 <= N && 0 <= j0 <= N && 0.0 <= s1 <= 1.0 && 0.0 <= t1 <= 1.0
    requires InRange(N, d0, lo, hi)
    ensures lo <= Bilinear(N, d0, i0, s1, j0, t1) <= hi
  {
    var s0, t0 := 1.0 - s1, 1.0 - t1;
    var a, b := At(N, d0, i0, j0), At(N, d0, i0, j0 + 1);
    var c, e := At(N, d0, i0 + 1, j0), At(N, d0, i0 + 1, j0 + 1);
    LerpWithin(t0, t1, a, b, lo, hi);
    LerpWithin(t0, t1, c, e, lo, hi);
    LerpWithin(s0, s1, t0 * a + t1 * b, t0 * c + t1 * e, lo, hi);
  }

  lemma AdvectCellWithin(N: nat, dt0: real, d0: seq<real>, u: seq<real>, v: seq<real>, i: int, j: int, lo: real, hi: real)
    requires |d0| == Size(N) && |u| == Size(N) && |v| == Size(N) && IsInterior(N, i, j)
    requires InRange(N, d0, lo, hi)
    ensures lo <= AdvectCell(N, dt0, d0, u, v, i, j) <= hi
  {
    var x := SplitAxis(N, BackTrace(i, dt0, At(N, u, i, j)));
    var y := SplitAxis(N, BackTrace(j, dt0, At(N, v, i, j)));
    BilinearWithin(N, d0, x.0, x.1, y.0, y.1, lo, hi);
  }

  /** Advection creates no new extremes: when d0 lies in [lo, hi] and the
      boundary mode maps [lo, hi] into itself, so does the result. */
  lemma AdvectWithin(N: nat, b: int, dt0: real, d: seq<real>, d0: seq<real>, u: seq<real>, v: seq<real>, lo: real, hi: real)
    requires N >= 1 && ValidMode(b)
    requires |d| == Size(N) && |d0| == Size(N) && |u| == Size(N) && |v| == Size(N)
    requires InRange(N, d0, lo, hi) && ModeKeepsRange(b, lo, hi) && lo <= hi
    ensures InRange(N, Advect(N, b, dt0, d, d0, u, v), lo, hi)
  {
    AdvectInteriorAt(N, dt0, d, d0, u, v);
    var r := AdvectInterior(N, dt0, d, d0, u, v);
    // The ghost ring of r still holds d; SetBoundary rebuilds it from the interior alone.
    var r' := seq(|r|, k requires 0 <= k < |r| => CoordinatesInGrid(N, k);
      if IsInterior(N, Col(N, k), Row(N, k)) then r[k] else lo);
    AllCoordinates(N);
    forall i, j | InGrid(N, i, j)
      ensures lo <= At(N, r', i, j) <= hi
    {
      if IsInterior(N, i, j) {
        AdvectCellWithin(N, dt0, d0, u, v, i, j, lo, hi);
      }
    }
    assert SameInterior(N, r, r');
    BoundaryDependsOnInterior(N, b, r, r');
    BoundaryKeepsRange(N, b, r', lo, hi);
  }
}
