/** The boundary evaluator (`SetBoundary`): fills the ghost ring from the
    interior. Mode -1 is open (ghosts 0), 0 copies the adjacent interior value,
    1 negates it at the left/right edges, 2 negates it at the bottom/top edges.
    The corners are then set to the mean of their two neighbouring edge ghosts. */
module Boundary {
  import opened Grid

  /** The modes for which the source initialises xMod and yMod. */
  predicate ValidMode(b: int)
  {
    -1 <= b <= 2
  }

  /** Factor applied at the left and right edges (i = 0 and i = N+1). */
  function XMod(b: int): real
    requires ValidMode(b)
  {
    if b == -1 then 0.0 else if b == 1 then -1.0 else 1.0
  }

  /** Factor applied at the bottom and top edges (j = 0 and j = N+1). */
  function YMod(b: int): real
    requires ValidMode(b)
  {
    if b == -1 then 0.0 else if b == 2 then -1.0 else 1.0
  }

  /** The value m * v that a ghost cell receives from its interior neighbour v. */
  function Scaled(m: real, v: real): real
  {
    m * v
  }

  /** The value of a corner: the mean of its two neighbouring edge ghosts. */
  function Mean(u: real, v: real): real
  {
    0.5 * (u + v)
  }

  /** One pass of the edge loop for index i: the four writes `x[ind(..)] = ..`
      in source order, each reading the field as the previous write left it. */
  function EdgeStep(N: nat, b: int, x: seq<real>, i: int): (r: seq<real>)
    requires ValidMode(b) && |x| == Size(N) && 1 <= i <= N
    ensures |r| == |x|
  {
    IndInRange(N, 0, i); IndInRange(N, N + 1, i); IndInRange(N, i, 0); IndInRange(N, i, N + 1);
    var x1 := x[Ind(N, 0, i) := Scaled(XMod(b), At(N, x, 1, i))];
    var x2 := x1[Ind(N, N + 1, i) := Scaled(XMod(b), At(N, x1, N, i))];
    var x3 := x2[Ind(N, i, 0) := Scaled(YMod(b), At(N, x2, i, 1))];
    x3[Ind(N, i, N + 1) := Scaled(YMod(b), At(N, x3, i, N))]
  }

  /** The edge loop after its first n passes. */
  function EdgePass(N: nat, b: int, x: seq<real>, n: nat): (r: seq<real>)
    requires ValidMode(b) && |x| == Size(N) && n <= N
    ensures |r| == |x|
  {
    if n == 0 then x else EdgeStep(N, b, EdgePass(N, b, x, n - 1), n)
  }

  /** The four corner writes of SetBoundary, each setting a corner to the
      mean of its two neighbouring edge ghosts. On a grid with an interior
      (N >= 1) those neighbours are never corners, so every write reads the
      field as it was before the block; on the 2 x 2 grid of N = 0 they are
      the other corners, and the writes read one another in source order. */
  function Corners(N: nat, x: seq<real>): (r: seq<real>)
    requires |x| == Size(N)
    ensures |r| == |x|
  {
    if N == 0 then
      IndInRange(N, 0, 0); IndInRange(N, 0, N + 1); IndInRange(N, N + 1, 0); IndInRange(N, N + 1, N + 1);
      var c1 := x[Ind(N, 0, 0) := Mean(At(N, x, 1, 0), At(N, x, 0, 1))];
      var c2 := c1[Ind(N, 0, N + 1) := Mean(At(N, c1, 1, N + 1), At(N, c1, 0, N))];
      var c3 := c2[Ind(N, N + 1, 0) := Mean(At(N, c2, N, 0), At(N, c2, N + 1, 1))];
      c3[Ind(N, N + 1, N + 1) := Mean(At(N, c3, N, N + 1), At(N, c3, N + 1, N))]
    else
      seq(|x|, k requires 0 <= k < |x| =>
        if k == Ind(N, 0, 0) then Mean(At(N, x, 1, 0), At(N, x, 0, 1))
        else if k == Ind(N, 0, N + 1) then Mean(At(N, x, 1, N + 1), At(N, x, 0, N))
        else if k == Ind(N, N + 1, 0) then Mean(At(N, x, N, 0), At(N, x, N + 1, 1))
        else if k == Ind(N, N + 1, N + 1) then Mean(At(N, x, N, N + 1), At(N, x, N + 1, N))
        else x[k])
  }

  /** The field after SetBoundary(b, x). */
  function SetBoundary(N: nat, b: int, x: seq<real>): (r: seq<real>)
    requires ValidMode(b) && |x| == Size(N)
    ensures |r| == |x|
  {
    Corners(N, EdgePass(N, b, x, N))
  }

  /** Value of cell (i, j) after the first n passes of the edge loop, in closed form. */
  function EdgeValue(N: nat, b: int, x: seq<real>, n: nat, i: int, j: int): real
    requires ValidMode(b) && |x| == Size(N) && n <= N && InGrid(N, i, j)
  {
    if i == 0 && 1 <= j <= n then Scaled(XMod(b), At(N, x, 1, j))
    else if i == N + 1 && 1 <= j <= n then Scaled(XMod(b), At(N, x, N, j))
    else if j == 0 && 1 <= i <= n then Scaled(YMod(b), At(N, x, i, 1))
    else if j == N + 1 && 1 <= i <= n then Scaled(YMod(b), At(N, x, i, N))
    else At(N, x, i, j)
  }

  /** The cells one pass of the edge loop writes, and what it writes there. */
  lemma EdgeStepValues(N: nat, b: int, y: seq<real>, n: int)
    requires N >= 1 && ValidMode(b) && |y| == Size(N) && 1 <= n <= N
    ensures forall i, j {:trigger At(N, EdgeStep(N, b, y, n), i, j)} :: InGrid(N, i, j) ==>
      At(N, EdgeStep(N, b, y, n), i, j) ==
        if i == 0 && j == n then Scaled(XMod(b), At(N, y, 1, n))
        else if i == N + 1 && j == n then Scaled(XMod(b), At(N, y, N, n))
        else if i == n && j == 0 then Scaled(YMod(b), At(N, y, n, 1))
        else if i == n && j == N + 1 then Scaled(YMod(b), At(N, y, n, N))
        else At(N, y, i, j)
  {
    var x1 := Put(N, y, 0, n, Scaled(XMod(b), At(N, y, 1, n)));
    var x2 := Put(N, x1, N + 1, n, Scaled(XMod(b), At(N, x1, N, n)));
    var x3 := Put(N, x2, n, 0, Scaled(YMod(b), At(N, x2, n, 1)));
    assert EdgeStep(N, b, y, n) == Put(N, x3, n, N + 1, Scaled(YMod(b), At(N, x3, n, N)));
    assert At(N, x1, N, n) == At(N, y, N, n);
    assert At(N, x2, n, 1) == At(N, y, n, 1);
    assert At(N, x3, n, N) == At(N, y, n, N);
  }

  lemma {:induction false} EdgePassValues(N: nat, b: int, x: seq<real>, n: nat)
    requires N >= 1 && ValidMode(b) && |x| == Size(N) && n <= N
    ensures forall i, j {:trigger At(N, EdgePass(N, b, x, n), i, j)} :: InGrid(N, i, j) ==>
      At(N, EdgePass(N, b, x, n), i, j) == EdgeValue(N, b, x, n, i, j)
  {
    if n > 0 {
      EdgePassValues(N, b, x, n - 1);
      var prev := EdgePass(N, b, x, n - 1);
      EdgeStepValues(N, b, prev, n);
      forall i, j | InGrid(N, i, j)
        ensures At(N, EdgeStep(N, b, prev, n), i, j) == EdgeValue(N, b, x, n, i, j)
      {
        assert At(N, prev, 1, n) == At(N, x, 1, n) && At(N, prev, N, n) == At(N, x, N, n);
        assert At(N, prev, n, 1) == At(N, x, n, 1) && At(N, prev, n, N) == At(N, x, n, N);
        assert At(N, prev, i, j) == EdgeValue(N, b, x, n - 1, i, j);
      }
    }
  }

  /** On a grid with an interior, the corner cells and the eight edge cells the
      corner writes read lie at offsets that decode to their own coordinates. */
  lemma CornerOffsets(N: nat)
    requires N >= 1
    ensures forall i, j {:trigger Ind(N, i, j)} :: InGrid(N, i, j) ==>
      0 <= Ind(N, i, j) < Size(N) && Col(N, Ind(N, i, j)) == i && Row(N, Ind(N, i, j)) == j
  {
    AllCoordinates(N);
  }

  lemma CornersKeepOthers(N: nat, e: seq<real>, i: int, j: int)
    requires N >= 1 && |e| == Size(N) && InGrid(N, i, j)
    requires !((i == 0 || i == N + 1) && (j == 0 || j == N + 1))
    ensures At(N, Corners(N, e), i, j) == At(N, e, i, j)
  {
    CornerOffsets(N);
    var k := Ind(N, i, j);
    assert k != Ind(N, 0, 0) && k != Ind(N, 0, N + 1) && k != Ind(N, N + 1, 0) && k != Ind(N, N + 1, N + 1);
  }

  /** Each corner write reads two edge ghosts, which no corner write touches. */
  lemma CornersAt(N: nat, e: seq<real>)
    requires N >= 1 && |e| == Size(N)
    ensures At(N, Corners(N, e), 0, 0) == Mean(At(N, e, 1, 0), At(N, e, 0, 1))
    ensures At(N, Corners(N, e), 0, N + 1) == Mean(At(N, e, 1, N + 1), At(N, e, 0, N))
    ensures At(N, Corners(N, e), N + 1, 0) == Mean(At(N, e, N, 0), At(N, e, N + 1, 1))
    ensures At(N, Corners(N, e), N + 1, N + 1) == Mean(At(N, e, N, N + 1), At(N, e, N + 1, N))
  {
    CornerOffsets(N);
    var a, b, c, d := Ind(N, 0, 0), Ind(N, 0, N + 1), Ind(N, N + 1, 0), Ind(N, N + 1, N + 1);
    assert a != b && a != c && a != d && b != c && b != d && c != d;
  }

  /** SetBoundary leaves every interior cell unchanged. */
  lemma BoundaryKeepsInterior(N: nat, b: int, x: seq<real>)
    requires N >= 1 && ValidMode(b) && |x| == Size(N)
    ensures forall i, j {:trigger At(N, x, i, j)} :: IsInterior(N, i, j) ==>
      At(N, SetBoundary(N, b, x), i, j) == At(N, x, i, j)
  {
    EdgePassValues(N, b, x, N);
    forall i, j | IsInterior(N, i, j)
      ensures At(N, SetBoundary(N, b, x), i, j) == At(N, x, i, j)
    {
      CornersKeepOthers(N, EdgePass(N, b, x, N), i, j);
    }
  }

  /** Edge ghosts are xMod / yMod times the adjacent interior value. */
  lemma BoundaryEdges(N: nat, b: int, x: seq<real>)
    requires N >= 1 && ValidMode(b) && |x| == Size(N)
    ensures forall j {:trigger At(N, x, 1, j)} :: 1 <= j <= N ==>
      At(N, SetBoundary(N, b, x), 0, j) == Scaled(XMod(b), At(N, x, 1, j))
    ensures forall j {:trigger At(N, x, N, j)} :: 1 <= j <= N ==>
      At(N, SetBoundary(N, b, x), N + 1, j) == Scaled(XMod(b), At(N, x, N, j))
    ensures forall i {:trigger At(N, x, i, 1)} :: 1 <= i <= N ==>
      At(N, SetBoundary(N, b, x), i, 0) == Scaled(YMod(b), At(N, x, i, 1))
    ensures forall i {:trigger At(N, x, i, N)} :: 1 <= i <= N ==>
      At(N, SetBoundary(N, b, x), i, N + 1) == Scaled(YMod(b), At(N, x, i, N))
  {
    EdgePassValues(N, b, x, N);
    var e := EdgePass(N, b, x, N);
    forall k | 1 <= k <= N
      ensures At(N, SetBoundary(N, b, x), 0, k) == Scaled(XMod(b), At(N, x, 1, k))
      ensures At(N, SetBoundary(N, b, x), N + 1, k) == Scaled(XMod(b), At(N, x, N, k))
      ensures At(N, SetBoundary(N, b, x), k, 0) == Scaled(YMod(b), At(N, x, k, 1))
      ensures At(N, SetBoundary(N, b, x), k, N + 1) == Scaled(YMod(b), At(N, x, k, N))
    {
      CornersKeepOthers(N, e, 0, k);
      CornersKeepOthers(N, e, N + 1, k);
      CornersKeepOthers(N, e, k, 0);
      CornersKeepOthers(N, e, k, N + 1);
    }
  }

  /** Each corner is half the sum of its two neighbouring edge ghosts. */
  lemma BoundaryCorners(N: nat, b: int, x: seq<real>)
    requires N >= 1 && ValidMode(b) && |x| == Size(N)
    ensures var r := SetBoundary(N, b, x);
      && At(N, r, 0, 0) == Mean(At(N, r, 1, 0), At(N, r, 0, 1))
      && At(N, r, 0, N + 1) == Mean(At(N, r, 1, N + 1), At(N, r, 0, N))
      && At(N, r, N + 1, 0) == Mean(At(N, r, N, 0), At(N, r, N + 1, 1))
      && At(N, r, N + 1, N + 1) == Mean(At(N, r, N, N + 1), At(N, r, N + 1, N))
  {
    var e := EdgePass(N, b, x, N);
    CornersAt(N, e);
    CornersKeepOthers(N, e, 1, 0);
    CornersKeepOthers(N, e, 0, 1);
    CornersKeepOthers(N, e, 1, N + 1);
    CornersKeepOthers(N, e, 0, N);
    CornersKeepOthers(N, e, N, 0);
    CornersKeepOthers(N, e, N + 1, 1);
    CornersKeepOthers(N, e, N, N + 1);
    CornersKeepOthers(N, e, N + 1, N);
  }

  /** Each corner is (xMod + yMod) / 2 times the diagonally adjacent interior
      value: it copies that value in mode 0 and is 0 in the other three modes. */
  lemma BoundaryCornerValues(N: nat, b: int, x: seq<real>)
    requires N >= 1 && ValidMode(b) && |x| == Size(N)
    ensures var r := SetBoundary(N, b, x);
      && At(N, r, 0, 0) == (if b == 0 then At(N, x, 1, 1) else 0.0)
      && At(N, r, 0, N + 1) == (if b == 0 then At(N, x, 1, N) else 0.0)
      && At(N, r, N + 1, 0) == (if b == 0 then At(N, x, N, 1) else 0.0)
      && At(N, r, N + 1, N + 1) == (if b == 0 then At(N, x, N, N) else 0.0)
  {
    BoundaryCorners(N, b, x);
    BoundaryEdges(N, b, x);
    var r := SetBoundary(N, b, x);
    assert At(N, r, 1, 0) == Scaled(YMod(b), At(N, x, 1, 1)) && At(N, r, 0, 1) == Scaled(XMod(b), At(N, x, 1, 1));
    assert At(N, r, 1, N + 1) == Scaled(YMod(b), At(N, x, 1, N)) && At(N, r, 0, N) == Scaled(XMod(b), At(N, x, 1, N));
    assert At(N, r, N, 0) == Scaled(YMod(b), At(N, x, N, 1)) && At(N, r, N + 1, 1) == Scaled(XMod(b), At(N, x, N, 1));
    assert At(N, r, N, N + 1) == Scaled(YMod(b), At(N, x, N, N)) && At(N, r, N + 1, N) == Scaled(XMod(b), At(N, x, N, N));
    assert XMod(b) + YMod(b) == if b == 0 then 2.0 else 0.0;
  }

  /** Every cell outside the interior: the ghost ring. */
  predicate IsGhost(N: nat, i: int, j: int)
  {
    InGrid(N, i, j) && !IsInterior(N, i, j)
  }

  /** Open mode: the whole ghost ring is 0. */
  lemma OpenBoundaryIsZero(N: nat, x: seq<real>)
    requires N >= 1 && |x| == Size(N)
    ensures forall i, j {:trigger At(N, SetBoundary(N, -1, x), i, j)} :: IsGhost(N, i, j) ==>
      At(N, SetBoundary(N, -1, x), i, j) == 0.0
  {
    BoundaryEdges(N, -1, x);
    BoundaryCornerValues(N, -1, x);
    forall i, j | IsGhost(N, i, j)
      ensures At(N, SetBoundary(N, -1, x), i, j) == 0.0
    {
      var r := SetBoundary(N, -1, x);
      if (i == 0 || i == N + 1) && (j == 0 || j == N + 1) {
      } else if i == 0 {
        assert At(N, r, 0, j) == Scaled(XMod(-1), At(N, x, 1, j));
      } else if i == N + 1 {
        assert At(N, r, N + 1, j) == Scaled(XMod(-1), At(N, x, N, j));
      } else if j == 0 {
        assert At(N, r, i, 0) == Scaled(YMod(-1), At(N, x, i, 1));
      } else {
        assert At(N, r, i, N + 1) == Scaled(YMod(-1), At(N, x, i, N));
      }
    }
  }

  /** The relations SetBoundary establishes: every ghost is determined by the
      interior of the field (edges by xMod / yMod, corners by the mean rule). */
  ghost predicate BoundaryHolds(N: nat, b: int, r: seq<real>)
    requires ValidMode(b) && |r| == Size(N)
  {
    && (forall j {:trigger At(N, r, 0, j)} :: 1 <= j <= N ==>
          At(N, r, 0, j) == Scaled(XMod(b), At(N, r, 1, j)) && At(N, r, N + 1, j) == Scaled(XMod(b), At(N, r, N, j)))
    && (forall i {:trigger At(N, r, i, 0)} :: 1 <= i <= N ==>
          At(N, r, i, 0) == Scaled(YMod(b), At(N, r, i, 1)) && At(N, r, i, N + 1) == Scaled(YMod(b), At(N, r, i, N)))
    && At(N, r, 0, 0) == Mean(At(N, r, 1, 0), At(N, r, 0, 1))
    && At(N, r, 0, N + 1) == Mean(At(N, r, 1, N + 1), At(N, r, 0, N))
    && At(N, r, N + 1, 0) == Mean(At(N, r, N, 0), At(N, r, N + 1, 1))
    && At(N, r, N + 1, N + 1) == Mean(At(N, r, N, N + 1), At(N, r, N + 1, N))
  }

  /** After SetBoundary(b, x) the boundary relations of mode b hold. */
  lemma BoundaryEstablishes(N: nat, b: int, x: seq<real>)
    requires N >= 1 && ValidMode(b) && |x| == Size(N)
    ensures BoundaryHolds(N, b, SetBoundary(N, b, x))
  {
    BoundaryKeepsInterior(N, b, x);
    BoundaryEdges(N, b, x);
    BoundaryCorners(N, b, x);
    var r := SetBoundary(N, b, x);
    forall j | 1 <= j <= N
      ensures At(N, r, 0, j) == Scaled(XMod(b), At(N, r, 1, j)) && At(N, r, N + 1, j) == Scaled(XMod(b), At(N, r, N, j))
    {
      assert At(N, r, 1, j) == At(N, x, 1, j) && At(N, r, N, j) == At(N, x, N, j);
    }
    forall i | 1 <= i <= N
      ensures At(N, r, i, 0) == Scaled(YMod(b), At(N, r, i, 1)) && At(N, r, i, N + 1) == Scaled(YMod(b), At(N, r, i, N))
    {
      assert At(N, r, i, 1) == At(N, x, i, 1) && At(N, r, i, N) == At(N, x, i, N);
    }
  }

  /** Two fields agree on every interior cell. */
  ghost predicate SameInterior(N: nat, x: seq<real>, y: seq<real>)
    requires |x| == Size(N) && |y| == Size(N)
  {
    forall i, j {:trigger At(N, x, i, j)} {:trigger At(N, y, i, j)} :: IsInterior(N, i, j) ==> At(N, x, i, j) == At(N, y, i, j)
  }

  /** Closed form of SetBoundary: every ghost takes its value from the
      nearest interior cell, scaled by xMod at the left/right edges and by yMod
      at the bottom/top edges; corners copy the diagonal neighbour in mode 0
      and are 0 otherwise. */
  function BoundaryValue(N: nat, b: int, x: seq<real>, i: int, j: int): real
    requires N >= 1 && ValidMode(b) && |x| == Size(N) && InGrid(N, i, j)
  {
    var ci := if i == 0 then 1 else if i == N + 1 then N else i;
    var cj := if j == 0 then 1 else if j == N + 1 then N else j;
    if IsInterior(N, i, j) then At(N, x, i, j)
    else if (i == 0 || i == N + 1) && (j == 0 || j == N + 1) then (if b == 0 then At(N, x, ci, cj) else 0.0)
    else if i == 0 || i == N + 1 then Scaled(XMod(b), At(N, x, ci, j))
    else Scaled(YMod(b), At(N, x, i, cj))
  }

  /** The sequential writes of SetBoundary produce the closed form, for one cell. */
  lemma BoundaryCellValue(N: nat, b: int, x: seq<real>, i: int, j: int)
    requires N >= 1 && ValidMode(b) && |x| == Size(N) && InGrid(N, i, j)
    ensures At(N, SetBoundary(N, b, x), i, j) == BoundaryValue(N, b, x, i, j)
  {
    if IsInterior(N, i, j) {
      BoundaryKeepsInterior(N, b, x);
    } else if (i == 0 || i == N + 1) && (j == 0 || j == N + 1) {
      BoundaryCornerValues(N, b, x);
    } else {
      BoundaryEdges(N, b, x);
      if i == 0 {
        assert At(N, SetBoundary(N, b, x), 0, j) == Scaled(XMod(b), At(N, x, 1, j));
      } else if i == N + 1 {
        assert At(N, SetBoundary(N, b, x), N + 1, j) == Scaled(XMod(b), At(N, x, N, j));
      } else if j == 0 {
        assert At(N, SetBoundary(N, b, x), i, 0) == Scaled(YMod(b), At(N, x, i, 1));
      } else {
        assert At(N, SetBoundary(N, b, x), i, N + 1) == Scaled(YMod(b), At(N, x, i, N));
      }
    }
  }

  /** The sequential writes of SetBoundary produce the closed form. */
  lemma BoundaryClosedForm(N: nat, b: int, x: seq<real>)
    requires N >= 1 && ValidMode(b) && |x| == Size(N)
    ensures forall i, j {:trigger At(N, SetBoundary(N, b, x), i, j)} :: InGrid(N, i, j) ==>
      At(N, SetBoundary(N, b, x), i, j) == BoundaryValue(N, b, x, i, j)
  {
    forall i, j | InGrid(N, i, j)
      ensures At(N, SetBoundary(N, b, x), i, j) == BoundaryValue(N, b, x, i, j)
    {
      BoundaryCellValue(N, b, x, i, j);
    }
  }

  /** SetBoundary's result depends only on the interior of its input: the
      whole ghost ring is overwritten. */
  lemma BoundaryDependsOnInterior(N: nat, b: int, x: seq<real>, y: seq<real>)
    requires N >= 1 && ValidMode(b) && |x| == Size(N) && |y| == Size(N)
    requires SameInterior(N, x, y)
    ensures SetBoundary(N, b, x) == SetBoundary(N, b, y)
  {
    BoundaryClosedForm(N, b, x);
    BoundaryClosedForm(N, b, y);
    var rx, ry := SetBoundary(N, b, x), SetBoundary(N, b, y);
    forall i, j | InGrid(N, i, j)
      ensures At(N, rx, i, j) == At(N, ry, i, j)
    {
      var ci := if i == 0 then 1 else if i == N + 1 then N else i;
      var cj := if j == 0 then 1 else if j == N + 1 then N else j;
      assert At(N, x, ci, cj) == At(N, y, ci, cj);
      assert IsInterior(N, ci, j) ==> At(N, x, ci, j) == At(N, y, ci, j);
      assert IsInterior(N, i, cj) ==> At(N, x, i, cj) == At(N, y, i, cj);
    }
    FieldExtensionality(N, rx, ry);
  }

  /** Applying SetBoundary twice is the same as applying it once. */
  lemma BoundaryIdempotent(N: nat, b: int, x: seq<real>)
    requires N >= 1 && ValidMode(b) && |x| == Size(N)
    ensures SetBoundary(N, b, SetBoundary(N, b, x)) == SetBoundary(N, b, x)
  {
    BoundaryKeepsInterior(N, b, x);
    BoundaryDependsOnInterior(N, b, SetBoundary(N, b, x), x);
  }

  /** Every cell of the field lies in [lo, hi]. */
  ghost predicate InRange(N: nat, x: seq<real>, lo: real, hi: real)
    requires |x| == Size(N)
  {
    forall i, j {:trigger At(N, x, i, j)} :: InGrid(N, i, j) ==> lo <= At(N, x, i, j) <= hi
  }

  /** The interval [lo, hi] is closed under the ghost rule of mode b. */
  predicate ModeKeepsRange(b: int, lo: real, hi: real)
  {
    b == 0 || (ValidMode(b) && lo <= 0.0 <= hi && (b == -1 || lo == -hi))
  }

  /** SetBoundary keeps a field inside any interval its mode maps into itself. */
  lemma BoundaryKeepsRange(N: nat, b: int, x: seq<real>, lo: real, hi: real)
    requires N >= 1 && ValidMode(b) && |x| == Size(N)
    requires InRange(N, x, lo, hi) && ModeKeepsRange(b, lo, hi)
    ensures InRange(N, SetBoundary(N, b, x), lo, hi)
  {
    BoundaryClosedForm(N, b, x);
    var r := SetBoundary(N, b, x);
    forall i, j | InGrid(N, i, j)
      ensures lo <= At(N, r, i, j) <= hi
    {
      var ci := if i == 0 then 1 else if i == N + 1 then N else i;
      var cj := if j == 0 then 1 else if j == N + 1 then N else j;
      assert lo <= At(N, x, ci, cj) <= hi;
      assert lo <= At(N, x, ci, j) <= hi;
      assert lo <= At(N, x, i, cj) <= hi;
      assert lo <= At(N, x, i, j) <= hi;
    }
  }
}
