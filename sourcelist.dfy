/** The source list of SimSource as a sequence: removal of one element,
    the wind-boundary toggle of CreateWindBoundary, and the hit test of
    RemoveSourceAtPoint. */
module SourceList {
  import opened Emitters

  /** The list without its element at position i (std::list::remove of a
      pointer that occurs once). */
  function Without(srcs: seq<Source>, i: nat): (r: seq<Source>)
    requires i < |srcs|
    ensures |r| == |srcs| - 1
    ensures forall j :: 0 <= j < i ==> r[j] == srcs[j]
    ensures forall j :: i <= j < |r| ==> r[j] == srcs[j + 1]
  {
    srcs[..i] + srcs[i + 1..]
  }

  /** Every index of the shorter list is still on the grid. */
  lemma WithoutKeepsIndices(srcs: seq<Source>, i: nat, n: nat)
    requires i < |srcs| && IndicesIn(srcs, n)
    ensures IndicesIn(Without(srcs, i), n)
  {
    var r := Without(srcs, i);
    forall j, m | 0 <= j < |r| && 0 <= m < |r[j].indices|
      ensures 0 <= r[j].indices[m] < n
    {
      if j < i {
        assert r[j] == srcs[j];
      } else {
        assert r[j] == srcs[j + 1];
      }
    }
  }

  /** Appending a source whose cells are on the grid keeps every index of
      the list on the grid. */
  lemma AppendKeepsIndices(srcs: seq<Source>, s: Source, n: nat)
    requires IndicesIn(srcs, n) && forall k :: k in s.indices ==> 0 <= k < n
    ensures IndicesIn(srcs + [s], n)
  {
    var r := srcs + [s];
    forall j, m | 0 <= j < |r| && 0 <= m < |r[j].indices|
      ensures 0 <= r[j].indices[m] < n
    {
      if j == |srcs| {
        assert r[j].indices[m] in s.indices;
      }
    }
  }

  // ---- Wind boundaries ----

  /** Number of wind boundaries in a source list. */
  function BoundaryCount(srcs: seq<Source>): nat
  {
    if |srcs| == 0 then 0
    else BoundaryCount(srcs[..|srcs| - 1]) + (if srcs[|srcs| - 1].kind == WindBoundary then 1 else 0)
  }

  /** Position of the first wind boundary, or |srcs| if there is none. */
  function FirstBoundary(srcs: seq<Source>): (f: nat)
    ensures f <= |srcs|
    ensures f < |srcs| ==> srcs[f].kind == WindBoundary
    ensures forall j :: 0 <= j < f ==> srcs[j].kind != WindBoundary
  {
    if |srcs| == 0 then 0
    else if srcs[0].kind == WindBoundary then 0
    else 1 + FirstBoundary(srcs[1..])
  }

  lemma {:induction false} BoundaryCountConcat(a: seq<Source>, b: seq<Source>)
    ensures BoundaryCount(a + b) == BoundaryCount(a) + BoundaryCount(b)
  {
    if |b| > 0 {
      assert (a + b)[..|a + b| - 1] == a + b[..|b| - 1];
      BoundaryCountConcat(a, b[..|b| - 1]);
    } else {
      assert a + b == a;
    }
  }

  /** A list with no wind boundary counts none. */
  lemma {:induction false} BoundaryCountZero(srcs: seq<Source>)
    ensures BoundaryCount(srcs) == 0 <==> forall j :: 0 <= j < |srcs| ==> srcs[j].kind != WindBoundary
  {
    if |srcs| > 0 {
      var front := srcs[..|srcs| - 1];
      BoundaryCountZero(front);
      assert forall j :: 0 <= j < |front| ==> front[j] == srcs[j];
    }
  }

  /** Removing a wind boundary lowers the count by one. */
  lemma WithoutBoundary(srcs: seq<Source>, i: nat)
    requires i < |srcs| && srcs[i].kind == WindBoundary
    ensures BoundaryCount(Without(srcs, i)) == BoundaryCount(srcs) - 1
  {
    assert srcs == srcs[..i] + [srcs[i]] + srcs[i + 1..];
    BoundaryCountConcat(srcs[..i] + [srcs[i]], srcs[i + 1..]);
    BoundaryCountConcat(srcs[..i], [srcs[i]]);
    BoundaryCountConcat(srcs[..i], srcs[i + 1..]);
    assert BoundaryCount([srcs[i]]) == 1 by {
      assert [srcs[i]][..0] == [];
    }
  }

  /** CreateWindBoundary on the list: remove the first wind boundary if
      there is one, otherwise append the new one (wb). */
  function Toggled(srcs: seq<Source>, wb: Source): seq<Source>
  {
    var f := FirstBoundary(srcs);
    if f < |srcs| then Without(srcs, f) else srcs + [wb]
  }

  /** The toggle removes a wind boundary when there is one and adds one when
      there is none; so a list with at most one keeps at most one. */
  lemma ToggledCount(srcs: seq<Source>, wb: Source)
    requires wb.kind == WindBoundary
    ensures BoundaryCount(Toggled(srcs, wb)) == if BoundaryCount(srcs) > 0 then BoundaryCount(srcs) - 1 else 1
    ensures BoundaryCount(srcs) <= 1 ==> BoundaryCount(Toggled(srcs, wb)) <= 1
  {
    var f := FirstBoundary(srcs);
    BoundaryCountZero(srcs);
    if f < |srcs| {
      WithoutBoundary(srcs, f);
    } else {
      BoundaryCountConcat(srcs, [wb]);
      assert BoundaryCount([wb]) == 1 by {
        assert [wb][..0] == [];
      }
    }
  }

  /** The toggle keeps every index on the grid when the new boundary's are. */
  lemma ToggledKeepsIndices(srcs: seq<Source>, wb: Source, n: nat)
    requires IndicesIn(srcs, n) && forall k :: k in wb.indices ==> 0 <= k < n
    ensures IndicesIn(Toggled(srcs, wb), n)
  {
    var f := FirstBoundary(srcs);
    if f < |srcs| {
      WithoutKeepsIndices(srcs, f, n);
    } else {
      AppendKeepsIndices(srcs, wb, n);
    }
  }

  // ---- The hit test of RemoveSourceAtPoint ----

  /** Point (x, y) lies within dist of the source's shape, each test strict,
      with radius + dist as the reach; a point source is tested as a circle. */
  predicate Hits(g: Geometry, x: real, y: real, dist: real)
  {
    var rad := g.radius + dist;
    var xDist, yDist := Abs(x - g.xCenter), Abs(y - g.yCenter);
    match g.shape
    case Circle => Sq(xDist) + Sq(yDist) < Sq(rad)
    case Square => xDist < rad && yDist < rad
    case Diamond => xDist + yDist < rad
    case Point => Sq(xDist) + Sq(yDist) < Sq(rad)
  }

  /** The source has a geometry and the point hits it. */
  predicate HitBy(s: Source, x: real, y: real, dist: real)
  {
    s.geometry.Some? && Hits(s.geometry.value, x, y, dist)
  }

  /** Position of the first source the point hits, or |srcs| if none. */
  function FirstHit(srcs: seq<Source>, x: real, y: real, dist: real): (f: nat)
    ensures f <= |srcs|
    ensures f < |srcs| ==> HitBy(srcs[f], x, y, dist)
    ensures forall j :: 0 <= j < f ==> !HitBy(srcs[j], x, y, dist)
  {
    if |srcs| == 0 then 0
    else if HitBy(srcs[0], x, y, dist) then 0
    else 1 + FirstHit(srcs[1..], x, y, dist)
  }

  /** The source list after RemoveSourceAtPoint: the first source hit is
      removed, the others stay in order; with no hit nothing changes. */
  function RemovedAt(srcs: seq<Source>, x: real, y: real, dist: real): (r: seq<Source>)
    ensures |r| == |srcs| || |r| == |srcs| - 1
  {
    var f := FirstHit(srcs, x, y, dist);
    if f < |srcs| then Without(srcs, f) else srcs
  }

  /** The point at a source's own centre hits square and diamond sources
      exactly when the reach radius + dist is positive, and circle or point
      sources exactly when it is non-zero. */
  lemma HitAtCenter(g: Geometry, dist: real)
    ensures var rad := g.radius + dist;
      Hits(g, g.xCenter, g.yCenter, dist) <==>
        if g.shape == Square || g.shape == Diamond then rad > 0.0 else rad != 0.0
  {
    var rad := g.radius + dist;
    assert Abs(g.xCenter - g.xCenter) == 0.0 && Abs(g.yCenter - g.yCenter) == 0.0;
    assert Sq(0.0) == 0.0;
    if rad > 0.0 {
      SquareGrows(rad, 0.0);
    } else if rad < 0.0 {
      SquareGrows(-rad, 0.0);
      assert Sq(rad) == Sq(-rad);
    }
  }

  /** A wider search distance still hits the sources a narrower one hits
      (for a nonnegative reach). */
  lemma HitsGrow(g: Geometry, x: real, y: real, dist: real, dist': real)
    requires dist <= dist' && g.radius + dist >= 0.0
    requires Hits(g, x, y, dist)
    ensures Hits(g, x, y, dist')
  {
    var rad, rad' := g.radius + dist, g.radius + dist';
    if g.shape == Circle || g.shape == Point {
      SquareMonotone(rad, rad');
    }
  }

  lemma SquareMonotone(a: real, b: real)
    requires 0.0 <= a <= b
    ensures Sq(a) <= Sq(b)
  {
    if a < b {
      SquareGrows(b, a);
    }
  }

  /** A wind boundary is never removed by a point, whatever its position. */
  lemma BoundaryNeverHit(srcs: seq<Source>, x: real, y: real, dist: real)
    requires forall j :: 0 <= j < |srcs| ==> srcs[j].kind == WindBoundary ==> srcs[j].geometry == None
    ensures var f := FirstHit(srcs, x, y, dist); f < |srcs| ==> srcs[f].kind != WindBoundary
  {
  }
}
