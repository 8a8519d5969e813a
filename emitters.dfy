/** The emitters of the simulation (class SimSource::Source and its five
    kinds): the cells a source covers, computed from a shape, a centre and a
    radius given in screen units [-1, 1], and the per-cell amounts of
    velocity, density and temperature it contributes. A source is a value:
    its members are set once, by its constructor (and, for a dynamic source,
    by the Create...Dynamic call right after it), and never change again. */
module Emitters {
  import opened Grid

  datatype Shape = Square | Circle | Diamond | Point

  /** The source type (enum Type). */
  datatype Kind = Gas | Wind | Heat | Energy | WindBoundary

  datatype Option<T> = None | Some(value: T)

  /** Shape, centre and radius of a source, in screen units. */
  datatype Geometry = Geometry(shape: Shape, xCenter: real, yCenter: real, radius: real)

  /** One source. `geometry` is None for a wind boundary, whose constructor
      never sets shape, centre or radius. The last six members only matter
      for a dynamic source: the deviations of its random draws and the means
      of a dynamic wind. */
  datatype Source = Source(
    kind: Kind, geometry: Option<Geometry>, indices: seq<int>,
    xVel: real, yVel: real, dens: real, temp: real,
    isDynamic: bool, dVar: real, tVar: real, wMean: real, wVar: real, aMean: real, aVar: real)

  function Max(a: real, b: real): real
  {
    if a >= b then a else b
  }

  function Abs(a: real): real
  {
    if a >= 0.0 then a else -a
  }

  /** a * a and a * b. Products are kept behind these names so that the
      solver reasons about them only where a lemma unfolds them. */
  function Sq(a: real): real
  {
    a * a
  }

  function Times(a: real, b: real): real
  {
    a * b
  }

  function MaxInt(a: int, b: int): int
  {
    if a >= b then a else b
  }

  function MinInt(a: int, b: int): int
  {
    if a <= b then a else b
  }

  // ---- Rounding (floor, ceil and round of the C maths library) ----

  function Floor(v: real): (f: int)
    ensures f as real <= v < f as real + 1.0
  {
    v.Floor
  }

  function Ceil(v: real): (c: int)
    ensures v <= c as real < v + 1.0
  {
    -((-v).Floor)
  }

  /** Round to the nearest integer, halfway cases away from zero. */
  function Round(v: real): (r: int)
    ensures v - 0.5 <= r as real <= v + 0.5
    ensures v >= 0.0 ==> r >= 0
    ensures v <= 0.0 ==> r <= 0
    ensures v >= 0.0 ==> r as real - 0.5 <= v < r as real + 0.5
    ensures v <= 0.0 ==> r as real - 0.5 < v <= r as real + 0.5
  {
    if v >= 0.0 then (v + 0.5).Floor else -((-v + 0.5).Floor)
  }

  /** Every halfway case k + 1/2 goes to the neighbour farther from zero. */
  lemma RoundHalfAwayFromZero(k: int)
    ensures Round(k as real + 0.5) == if k >= 0 then k + 1 else k
  {
  }

  // ---- From screen units to grid coordinates ----

  /** Grid coordinate of a centre coordinate c: (N+2)(c+1)/2, so that -1 is
      column 0 and 1 is column N+2, one past the last ghost column. */
  function CenterIndex(N: nat, c: real): (g: real)
    ensures c == -1.0 ==> g == 0.0
    ensures c == 1.0 ==> g == (N + 2) as real
    ensures c == 0.0 ==> g == (N + 2) as real / 2.0
  {
    (N + 2) as real * (c + 1.0) / 2.0
  }

  /** Grid length of a radius: N * radius / 2 (N, not N + 2). */
  function RadiusIndex(N: nat, radius: real): (r: real)
    ensures radius >= 0.0 ==> r >= 0.0
  {
    N as real * radius / 2.0
  }

  /** The columns xLo..xHi and rows yLo..yHi a shape's loops visit. */
  datatype Box = Box(xLo: int, xHi: int, yLo: int, yHi: int)

  predicate InBox(b: Box, x: int, y: int)
  {
    b.xLo <= x <= b.xHi && b.yLo <= y <= b.yHi
  }

  /** The square of half-width r around (xc, yc), widened to whole cells and
      clamped below at 0 and above at N+2. */
  function ShapeBox(N: nat, xc: real, yc: real, r: real): (b: Box)
    ensures b.xLo >= 0 && b.yLo >= 0 && b.xHi <= N + 2 && b.yHi <= N + 2
    ensures forall x: int, y: int ::
      (0 <= x <= N + 2 && 0 <= y <= N + 2 && xc - r <= x as real <= xc + r && yc - r <= y as real <= yc + r) ==> InBox(b, x, y)
    ensures forall x: int, y: int :: InBox(b, x, y) ==>
      (0 <= x <= N + 2 && 0 <= y <= N + 2 && xc - r - 1.0 < x as real < xc + r + 1.0 && yc - r - 1.0 < y as real < yc + r + 1.0)
  {
    Box(MaxInt(Floor(xc - r), 0), MinInt(Ceil(xc + r), N + 2), MaxInt(Floor(yc - r), 0), MinInt(Ceil(yc + r), N + 2))
  }

  /** The per-point test of the shape loops; the point shape has no case
      there (it returns before the loops). */
  predicate InShape(shape: Shape, x: int, y: int, xc: real, yc: real, r: real)
  {
    match shape
    case Square => true
    case Circle => Sq(x as real - xc) + Sq(y as real - yc) <= Sq(r)
    case Diamond => Abs(x as real - xc) + Abs(y as real - yc) <= r
    case Point => false
  }

  /** Indices the inner loop appends for column x, rows yLo .. y-1. */
  function ColumnScan(N: nat, shape: Shape, xc: real, yc: real, r: real, x: int, yLo: int, y: int): seq<int>
    decreases y - yLo
  {
    if y <= yLo then []
    else
      var cell := if InShape(shape, x, y - 1, xc, yc, r) then [Ind(N, x, y - 1)] else [];
      ColumnScan(N, shape, xc, yc, r, x, yLo, y - 1) + cell
  }

  /** Indices the two loops append for columns b.xLo .. x-1. */
  function BoxScan(N: nat, shape: Shape, xc: real, yc: real, r: real, b: Box, x: int): seq<int>
    decreases x - b.xLo
  {
    if x <= b.xLo then []
    else BoxScan(N, shape, xc, yc, r, b, x - 1) + ColumnScan(N, shape, xc, yc, r, x - 1, b.yLo, b.yHi + 1)
  }

  /** Index of the cell nearest the centre (the point shape, and the
      fall-back of every other shape). */
  function CenterCell(N: nat, xCenter: real, yCenter: real): int
  {
    Ind(N, Round(CenterIndex(N, xCenter)), Round(CenterIndex(N, yCenter)))
  }

  /** The index list SetIndices builds on a new source. */
  function ShapeIndices(N: nat, shape: Shape, xCenter: real, yCenter: real, radius: real): (idx: seq<int>)
    ensures |idx| >= 1
    ensures shape == Point ==> idx == [CenterCell(N, xCenter, yCenter)]
  {
    if shape == Point then [CenterCell(N, xCenter, yCenter)]
    else
      var xc, yc, r := CenterIndex(N, xCenter), CenterIndex(N, yCenter), RadiusIndex(N, radius);
      var scanned := BoxScan(N, shape, xc, yc, r, ShapeBox(N, xc, yc, r), ShapeBox(N, xc, yc, r).xHi + 1);
      if |scanned| == 0 then [CenterCell(N, xCenter, yCenter)] else scanned
  }

  /** Grid point (x, y) is visited by the shape loops and passes the shape test. */
  predicate Passes(N: nat, shape: Shape, xCenter: real, yCenter: real, radius: real, x: int, y: int)
  {
    var xc, yc, r := CenterIndex(N, xCenter), CenterIndex(N, yCenter), RadiusIndex(N, radius);
    InBox(ShapeBox(N, xc, yc, r), x, y) && InShape(shape, x, y, xc, yc, r)
  }

  lemma {:induction false} ColumnScanExact(N: nat, shape: Shape, xc: real, yc: real, r: real, x: int, yLo: int, y: int)
    decreases y - yLo
    ensures forall y' :: yLo <= y' < y && InShape(shape, x, y', xc, yc, r) ==>
      Ind(N, x, y') in ColumnScan(N, shape, xc, yc, r, x, yLo, y)
    ensures forall k :: k in ColumnScan(N, shape, xc, yc, r, x, yLo, y) ==>
      exists y' :: yLo <= y' < y && InShape(shape, x, y', xc, yc, r) && k == Ind(N, x, y')
  {
    if y > yLo {
      ColumnScanExact(N, shape, xc, yc, r, x, yLo, y - 1);
    }
  }

  lemma {:induction false} BoxScanExact(N: nat, shape: Shape, xc: real, yc: real, r: real, b: Box, x: int)
    decreases x - b.xLo
    ensures forall x', y' :: b.xLo <= x' < x && b.yLo <= y' <= b.yHi && InShape(shape, x', y', xc, yc, r) ==>
      Ind(N, x', y') in BoxScan(N, shape, xc, yc, r, b, x)
    ensures forall k :: k in BoxScan(N, shape, xc, yc, r, b, x) ==>
      exists x', y' :: b.xLo <= x' < x && b.yLo <= y' <= b.yHi && InShape(shape, x', y', xc, yc, r) && k == Ind(N, x', y')
  {
    if x > b.xLo {
      var prev := BoxScan(N, shape, xc, yc, r, b, x - 1);
      var col := ColumnScan(N, shape, xc, yc, r, x - 1, b.yLo, b.yHi + 1);
      assert BoxScan(N, shape, xc, yc, r, b, x) == prev + col;
      BoxScanExact(N, shape, xc, yc, r, b, x - 1);
      ColumnScanExact(N, shape, xc, yc, r, x - 1, b.yLo, b.yHi + 1);
      forall x', y' | b.xLo <= x' < x && b.yLo <= y' <= b.yHi && InShape(shape, x', y', xc, yc, r)
        ensures Ind(N, x', y') in prev + col
      {
        if x' < x - 1 {
          assert Ind(N, x', y') in prev;
        } else {
          assert Ind(N, x', y') in col;
        }
      }
      forall k | k in prev + col
        ensures exists x', y' :: b.xLo <= x' < x && b.yLo <= y' <= b.yHi && InShape(shape, x', y', xc, yc, r) && k == Ind(N, x', y')
      {
        if k in prev {
          var x', y' :| b.xLo <= x' < x - 1 && b.yLo <= y' <= b.yHi && InShape(shape, x', y', xc, yc, r) && k == Ind(N, x', y');
        } else {
          assert k in col;
          var y' :| b.yLo <= y' < b.yHi + 1 && InShape(shape, x - 1, y', xc, yc, r) && k == Ind(N, x - 1, y');
          assert b.xLo <= x - 1 < x;
        }
      }
    }
  }

  /** A non-point shape covers exactly the visited points that pass its
      test, or, when no visited point passes, the single cell nearest the
      centre. */
  lemma ShapeIndicesExact(N: nat, shape: Shape, xCenter: real, yCenter: real, radius: real)
    requires shape != Point
    ensures forall x, y :: Passes(N, shape, xCenter, yCenter, radius, x, y) ==>
      Ind(N, x, y) in ShapeIndices(N, shape, xCenter, yCenter, radius)
    ensures (exists x, y :: Passes(N, shape, xCenter, yCenter, radius, x, y)) ==>
      forall k :: k in ShapeIndices(N, shape, xCenter, yCenter, radius) ==>
        exists x, y :: Passes(N, shape, xCenter, yCenter, radius, x, y) && k == Ind(N, x, y)
    ensures (forall x, y :: !Passes(N, shape, xCenter, yCenter, radius, x, y)) ==>
      ShapeIndices(N, shape, xCenter, yCenter, radius) == [CenterCell(N, xCenter, yCenter)]
  {
    var xc, yc, r := CenterIndex(N, xCenter), CenterIndex(N, yCenter), RadiusIndex(N, radius);
    var b := ShapeBox(N, xc, yc, r);
    var scanned := BoxScan(N, shape, xc, yc, r, b, b.xHi + 1);
    BoxScanExact(N, shape, xc, yc, r, b, b.xHi + 1);
    if exists x, y :: Passes(N, shape, xCenter, yCenter, radius, x, y) {
      var x, y :| Passes(N, shape, xCenter, yCenter, radius, x, y);
      assert Ind(N, x, y) in scanned;
      assert ShapeIndices(N, shape, xCenter, yCenter, radius) == scanned;
      forall k | k in scanned
        ensures exists x, y :: Passes(N, shape, xCenter, yCenter, radius, x, y) && k == Ind(N, x, y)
      {
        var x', y' :| b.xLo <= x' < b.xHi + 1 && b.yLo <= y' <= b.yHi && InShape(shape, x', y', xc, yc, r) && k == Ind(N, x', y');
        assert Passes(N, shape, xCenter, yCenter, radius, x', y');
      }
    } else if |scanned| != 0 {
      var k := scanned[0];
      assert k in scanned;
      var x, y :| b.xLo <= x < b.xHi + 1 && b.yLo <= y <= b.yHi && InShape(shape, x, y, xc, yc, r) && k == Ind(N, x, y);
      assert Passes(N, shape, xCenter, yCenter, radius, x, y);
      assert false;
    }
  }

  lemma SquareBound(a: real, r: real)
    requires r >= 0.0 && Sq(a) <= Sq(r)
    ensures -r <= a <= r
  {
    if a > r {
      SquareGrows(a, r);
    } else if a < -r {
      assert Sq(-a) == Sq(a);
      SquareGrows(-a, r);
    }
  }

  lemma SquareGrows(a: real, r: real)
    requires a > r >= 0.0
    ensures Sq(a) > Sq(r)
  {
    var d := a - r;
    MulPositive(d, a + r);
    assert a * a == r * r + d * (a + r);
  }

  /** total / n, times n, is total. */
  lemma SpreadEvenly(total: real, n: real)
    requires n != 0.0
    ensures Times(total / n, n) == total
  {
  }

  lemma MulPositive(a: real, b: real)
    requires a > 0.0 && b > 0.0
    ensures a * b > 0.0
  {
  }

  lemma SquareNonneg(a: real)
    ensures Sq(a) >= 0.0
  {
    if a < 0.0 {
      assert a * a == (-a) * (-a);
    }
  }

  /** For a nonnegative radius, a circle source's scan visits every grid point
      of [0, N+2]^2 within the radius: a point passes exactly when it lies in
      that range and within distance rInd of the centre. */
  lemma CircleCoverage(N: nat, xCenter: real, yCenter: real, radius: real, x: int, y: int)
    requires radius >= 0.0
    ensures var xc, yc, r := CenterIndex(N, xCenter), CenterIndex(N, yCenter), RadiusIndex(N, radius);
      Passes(N, Circle, xCenter, yCenter, radius, x, y) <==>
        0 <= x <= N + 2 && 0 <= y <= N + 2 && Sq(x as real - xc) + Sq(y as real - yc) <= Sq(r)
  {
    var xc, yc, r := CenterIndex(N, xCenter), CenterIndex(N, yCenter), RadiusIndex(N, radius);
    var dx, dy := x as real - xc, y as real - yc;
    if 0 <= x <= N + 2 && 0 <= y <= N + 2 && Sq(dx) + Sq(dy) <= Sq(r) {
      SquareNonneg(dx);
      SquareNonneg(dy);
      SquareBound(dx, r);
      SquareBound(dy, r);
    }
  }

  /** For a nonnegative radius, a diamond source passes exactly the grid
      points of [0, N+2]^2 within taxicab distance rInd of the centre. */
  lemma DiamondCoverage(N: nat, xCenter: real, yCenter: real, radius: real, x: int, y: int)
    requires radius >= 0.0
    ensures var xc, yc, r := CenterIndex(N, xCenter), CenterIndex(N, yCenter), RadiusIndex(N, radius);
      Passes(N, Diamond, xCenter, yCenter, radius, x, y) <==>
        0 <= x <= N + 2 && 0 <= y <= N + 2 && Abs(x as real - xc) + Abs(y as real - yc) <= r
  {
  }

  /** A square source passes every point of its clamped box, and for a
      nonnegative radius that box holds every grid point of [0, N+2]^2 within
      rInd of the centre in both coordinates. */
  lemma SquareCoverage(N: nat, xCenter: real, yCenter: real, radius: real, x: int, y: int)
    ensures var xc, yc, r := CenterIndex(N, xCenter), CenterIndex(N, yCenter), RadiusIndex(N, radius);
      Passes(N, Square, xCenter, yCenter, radius, x, y) <==> InBox(ShapeBox(N, xc, yc, r), x, y)
    ensures var xc, yc, r := CenterIndex(N, xCenter), CenterIndex(N, yCenter), RadiusIndex(N, radius);
      0 <= x <= N + 2 && 0 <= y <= N + 2 && Abs(x as real - xc) <= r && Abs(y as real - yc) <= r ==>
        Passes(N, Square, xCenter, yCenter, radius, x, y)
  {
  }

  /** The centre and radius keep every cell a shape can cover inside the
      grid: the rounded centre lies on the grid and, for the box shapes, the
      clamped box stops at N+1. The upper clamp of the loops is N+2, so this
      is a real restriction (ShapeIndicesCanLeaveGrid). */
  predicate FitsGrid(N: nat, shape: Shape, xCenter: real, yCenter: real, radius: real)
  {
    var xc, yc, r := CenterIndex(N, xCenter), CenterIndex(N, yCenter), RadiusIndex(N, radius);
    && InGrid(N, Round(xc), Round(yc))
    && (shape != Point ==> ShapeBox(N, xc, yc, r).xHi <= N + 1 && ShapeBox(N, xc, yc, r).yHi <= N + 1)
  }

  /** Every index of a source that fits the grid addresses a cell of it. */
  lemma ShapeIndicesInGrid(N: nat, shape: Shape, xCenter: real, yCenter: real, radius: real)
    requires FitsGrid(N, shape, xCenter, yCenter, radius)
    ensures forall k :: k in ShapeIndices(N, shape, xCenter, yCenter, radius) ==> 0 <= k < Size(N)
  {
    var xc, yc := CenterIndex(N, xCenter), CenterIndex(N, yCenter);
    IndInRange(N, Round(xc), Round(yc));
    if shape != Point {
      ShapeIndicesExact(N, shape, xCenter, yCenter, radius);
      if exists x, y :: Passes(N, shape, xCenter, yCenter, radius, x, y) {
        forall k | k in ShapeIndices(N, shape, xCenter, yCenter, radius)
          ensures 0 <= k < Size(N)
        {
          var x, y :| Passes(N, shape, xCenter, yCenter, radius, x, y) && k == Ind(N, x, y);
          IndInRange(N, x, y);
        }
      }
    }
  }

  /** With the clamp at N+2 a source at the top right corner reaches past
      the grid: on the 1 x 1 grid a square at (1, 1) of radius 0.5 covers
      offset 12 of a 9-cell grid. */
  lemma ShapeIndicesCanLeaveGrid()
    ensures exists k :: k in ShapeIndices(1, Square, 1.0, 1.0, 0.5) && k >= Size(1)
  {
    var xc, r := CenterIndex(1, 1.0), RadiusIndex(1, 0.5);
    assert xc == 3.0 && r == 0.25;
    assert Floor(2.75) == 2 && Ceil(3.25) == 4;
    var b := ShapeBox(1, xc, xc, r);
    assert b == Box(2, 3, 2, 3);
    assert Passes(1, Square, 1.0, 1.0, 0.5, 3, 3);
    ShapeIndicesExact(1, Square, 1.0, 1.0, 0.5);
    assert Ind(1, 3, 3) == 12 by {
      IndFormula(1, 3, 3);
    }
    assert 12 in ShapeIndices(1, Square, 1.0, 1.0, 0.5);
  }

  // ---- The five kinds of source (the constructors) ----

  /** Degrees to radians with the given value of pi; the static wind source
      uses 3.1415926 and the dynamic update 3.14159265. */
  const StaticPi: real := 3.1415926
  const DynamicPi: real := 3.14159265

  function Radians(angle: real, pi: real): real
  {
    angle * pi / 180.0
  }

  /** The members every constructor leaves at rest before a dynamic
      Create... call sets them. */
  function Plain(kind: Kind, geometry: Option<Geometry>, indices: seq<int>,
                 xVel: real, yVel: real, dens: real, temp: real): Source
  {
    Source(kind, geometry, indices, xVel, yVel, dens, temp, false, 0.0, 0.0, 0.0, 0.0, 0.0, 0.0)
  }

  /** GasSource: the flow rate spread evenly over the covered cells. */
  function GasSource(N: nat, shape: Shape, flowRate: real, sourceTemp: real,
                     xCenter: real, yCenter: real, radius: real): (s: Source)
    ensures s.kind == Gas && s.indices == ShapeIndices(N, shape, xCenter, yCenter, radius)
    ensures s.xVel == 0.0 && s.yVel == 0.0 && s.temp == sourceTemp && !s.isDynamic
    ensures s.geometry == Some(Geometry(shape, xCenter, yCenter, radius))
  {
    var idx := ShapeIndices(N, shape, xCenter, yCenter, radius);
    Plain(Gas, Some(Geometry(shape, xCenter, yCenter, radius)), idx, 0.0, 0.0, flowRate / |idx| as real, sourceTemp)
  }

  /** Over all its cells a gas source emits exactly its flow rate. */
  lemma GasSourceFlow(N: nat, shape: Shape, flowRate: real, sourceTemp: real,
                      xCenter: real, yCenter: real, radius: real)
    ensures var s := GasSource(N, shape, flowRate, sourceTemp, xCenter, yCenter, radius);
      Times(s.dens, |s.indices| as real) == flowRate
  {
    var s := GasSource(N, shape, flowRate, sourceTemp, xCenter, yCenter, radius);
    SpreadEvenly(flowRate, |s.indices| as real);
  }

  /** WindSource: one cell, the cell nearest its centre, pushed at the given
      speed and angle (cos and sin are those of the C maths library). */
  function WindSource(N: nat, angle: real, speed: real, xCenter: real, yCenter: real,
                      cos: real -> real, sin: real -> real): (s: Source)
    ensures s.kind == Wind && s.indices == [CenterCell(N, xCenter, yCenter)]
    ensures s.dens == 0.0 && s.temp == 0.0 && !s.isDynamic
    ensures speed == 0.0 ==> s.xVel == 0.0 && s.yVel == 0.0
    ensures s.geometry == Some(Geometry(Point, xCenter, yCenter, 0.0))
  {
    Plain(Wind, Some(Geometry(Point, xCenter, yCenter, 0.0)), ShapeIndices(N, Point, xCenter, yCenter, 0.0),
          speed * cos(Radians(angle, StaticPi)), speed * sin(Radians(angle, StaticPi)), 0.0, 0.0)
  }

  /** Where cos and sin satisfy the Pythagorean identity at the angle, a wind
      source's velocity has the magnitude of its speed. */
  lemma WindSourceSpeed(N: nat, angle: real, speed: real, xCenter: real, yCenter: real,
                        cos: real -> real, sin: real -> real)
    requires var t := Radians(angle, StaticPi); cos(t) * cos(t) + sin(t) * sin(t) == 1.0
    ensures var s := WindSource(N, angle, speed, xCenter, yCenter, cos, sin);
      s.xVel * s.xVel + s.yVel * s.yVel == speed * speed
  {
    var t := Radians(angle, StaticPi);
    var c, sn := cos(t), sin(t);
    assert (speed * c) * (speed * c) + (speed * sn) * (speed * sn) == (speed * speed) * (c * c + sn * sn);
  }

  /** HeatSource: the cells held at (at least) the source temperature. */
  function HeatSource(N: nat, shape: Shape, sourceTemp: real, xCenter: real, yCenter: real, radius: real): (s: Source)
    ensures s.kind == Heat && s.indices == ShapeIndices(N, shape, xCenter, yCenter, radius)
    ensures s.xVel == 0.0 && s.yVel == 0.0 && s.dens == 0.0 && s.temp == sourceTemp && !s.isDynamic
    ensures s.geometry == Some(Geometry(shape, xCenter, yCenter, radius))
  {
    Plain(Heat, Some(Geometry(shape, xCenter, yCenter, radius)), ShapeIndices(N, shape, xCenter, yCenter, radius),
          0.0, 0.0, 0.0, sourceTemp)
  }

  /** EnergySource: a heat flux turned into a temperature above the reference
      (the factor 12.5 of a linear heat transfer), spread over the covered
      cells. A zero reference density would divide by zero. */
  function EnergySource(N: nat, shape: Shape, flux: real, referenceTemp: real, referenceDensity: real,
                        xCenter: real, yCenter: real, radius: real): (s: Source)
    requires referenceDensity != 0.0
    ensures s.kind == Energy && s.indices == ShapeIndices(N, shape, xCenter, yCenter, radius)
    ensures s.xVel == 0.0 && s.yVel == 0.0 && s.dens == 0.0 && !s.isDynamic
    ensures s.geometry == Some(Geometry(shape, xCenter, yCenter, radius))
  {
    var idx := ShapeIndices(N, shape, xCenter, yCenter, radius);
    Plain(Energy, Some(Geometry(shape, xCenter, yCenter, radius)), idx, 0.0, 0.0, 0.0,
          referenceTemp + flux / EnergyDivisor(referenceDensity, |idx|))
  }

  /** 12.5 * referenceDensity * (number of cells): nonzero for a nonzero
      reference density, since every source covers a cell. */
  function EnergyDivisor(referenceDensity: real, n: nat): (q: real)
    requires referenceDensity != 0.0 && n >= 1
    ensures q != 0.0
  {
    MulPositive(12.5 * Abs(referenceDensity), n as real);
    assert Abs(12.5 * referenceDensity * n as real) == 12.5 * Abs(referenceDensity) * n as real;
    12.5 * referenceDensity * n as real
  }

  /** The energy source's temperature excess, times 12.5 * referenceDensity
      * (number of cells), is the flux. */
  lemma EnergySourceFlux(N: nat, shape: Shape, flux: real, referenceTemp: real, referenceDensity: real,
                         xCenter: real, yCenter: real, radius: real)
    requires referenceDensity != 0.0
    ensures var s := EnergySource(N, shape, flux, referenceTemp, referenceDensity, xCenter, yCenter, radius);
      Times(s.temp - referenceTemp, EnergyDivisor(referenceDensity, |s.indices|)) == flux
  {
    var s := EnergySource(N, shape, flux, referenceTemp, referenceDensity, xCenter, yCenter, radius);
    var q := EnergyDivisor(referenceDensity, |s.indices|);
    assert s.temp - referenceTemp == flux / q;
    SpreadEvenly(flux, q);
  }

  /** The cells the wind boundary's loop appends for rows 0 .. i-1: column 1
      then column N of each row. */
  function BoundaryCells(N: nat, i: nat): seq<int>
  {
    if i == 0 then [] else BoundaryCells(N, i - 1) + [Ind(N, 1, i - 1), Ind(N, N, i - 1)]
  }

  lemma {:induction false} BoundaryCellsAt(N: nat, i: nat)
    ensures |BoundaryCells(N, i)| == 2 * i
    ensures forall j :: 0 <= j < i ==>
      BoundaryCells(N, i)[2 * j] == Ind(N, 1, j) && BoundaryCells(N, i)[2 * j + 1] == Ind(N, N, j)
  {
    if i > 0 {
      BoundaryCellsAt(N, i - 1);
    }
  }

  /** WindBoundary: columns 1 and N of rows 0 .. N pushed right at the given
      speed. It has no geometry. */
  function WindBoundarySource(N: nat, speed: real): (s: Source)
    ensures s.kind == WindBoundary && s.geometry == None && !s.isDynamic
    ensures s.indices == BoundaryCells(N, N + 1)
    ensures s.xVel == speed && s.yVel == 0.0 && s.dens == 0.0 && s.temp == 0.0
  {
    Plain(WindBoundary, None, BoundaryCells(N, N + 1), speed, 0.0, 0.0, 0.0)
  }

  /** The wind boundary has 2(N+1) cells: column 1 and column N of every row
      0 .. N (the bottom ghost row included, the top one not), all on the grid. */
  lemma WindBoundaryCells(N: nat)
    ensures var idx := WindBoundarySource(N, 0.0).indices;
      && |idx| == 2 * (N + 1)
      && (forall j :: 0 <= j <= N ==> idx[2 * j] == Ind(N, 1, j) && idx[2 * j + 1] == Ind(N, N, j))
      && (forall k :: k in idx ==> 0 <= k < Size(N))
  {
    BoundaryCellsAt(N, N + 1);
    var idx := BoundaryCells(N, N + 1);
    forall k | k in idx
      ensures 0 <= k < Size(N)
    {
      var m :| 0 <= m < |idx| && idx[m] == k;
      var j := m / 2;
      assert m == 2 * j || m == 2 * j + 1;
      IndInRange(N, 1, j);
      IndInRange(N, N, j);
    }
  }

  // ---- The dynamic variants (Create...Dynamic) ----

  function DynamicGas(s: Source, flowVar: real, tempVar: real): Source
  {
    s.(isDynamic := true, dVar := flowVar, tVar := tempVar)
  }

  function DynamicWind(s: Source, angle: real, speed: real, speedVar: real, angleVar: real): Source
  {
    s.(isDynamic := true, wMean := speed, aMean := angle, wVar := speedVar, aVar := angleVar)
  }

  /** A dynamic heat or energy source: tVar is the temperature deviation (for
      an energy source the flux deviation is stored there unchanged). */
  function DynamicHeat(s: Source, tempVar: real): Source
  {
    s.(isDynamic := true, tVar := tempVar)
  }

  function DynamicBoundary(s: Source, speed: real, speedVar: real): Source
  {
    s.(isDynamic := true, wVar := speedVar, wMean := speed)
  }

  /** A draw of RandomNormal(mean, dev): exactly the mean when the deviation
      is zero, otherwise the sample the random engine delivers. */
  function RandomNormal(mean: real, dev: real, sample: real): (v: real)
    ensures dev == 0.0 ==> v == mean
    ensures dev != 0.0 ==> v == sample
  {
    if dev == 0.0 then mean else sample
  }

  /** Every source's indices address cells of a grid of n cells. */
  predicate IndicesIn(srcs: seq<Source>, n: nat)
  {
    forall i, m :: 0 <= i < |srcs| && 0 <= m < |srcs[i].indices| ==> 0 <= srcs[i].indices[m] < n
  }
}
