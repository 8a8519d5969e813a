/** SimSource: the list of sources a simulation is driven by, and the
    routines that build each source's index list, write the list into the
    four source buffers of a SimState and add or remove sources. */
module SourceManager {
  import opened Grid
  import opened Steps
  import opened StepProperties
  import opened Emitters
  import opened Deposits
  import opened SourceList
  import opened Simulation

  // ---- Building a source (SetIndices and the constructors) ----

  /** The inner loop of SetIndices: column x, rows yLo .. yHi. */
  method ScanColumn(N: nat, shape: Shape, xCInd: real, yCInd: real, rInd: real, x: int, yLo: int, yHi: int)
    returns (column: seq<int>)
    ensures column == ColumnScan(N, shape, xCInd, yCInd, rInd, x, yLo, yHi + 1)
  {
    column := [];
    var y := yLo;
    while y <= yHi
      invariant y == yLo || yLo < y <= yHi + 1
      invariant column == ColumnScan(N, shape, xCInd, yCInd, rInd, x, yLo, y)
      decreases yHi + 1 - y
    {
      match shape {
        case Square =>
          column := column + [Ind(N, x, y)];
        case Circle =>
          if Sq(x as real - xCInd) + Sq(y as real - yCInd) <= Sq(rInd) {
            column := column + [Ind(N, x, y)];
          }
        case Diamond =>
          if Abs(x as real - xCInd) + Abs(y as real - yCInd) <= rInd {
            column := column + [Ind(N, x, y)];
          }
        case Point =>
      }
      y := y + 1;
    }
    if y == yLo {
      assert ColumnScan(N, shape, xCInd, yCInd, rInd, x, yLo, yHi + 1) == [];
    }
  }

  /** SetIndices: a point source covers the cell nearest its centre; any
      other shape covers the visited grid points that pass its test, column
      by column, or the nearest cell when none does. */
  method SetIndices(N: nat, shape: Shape, xCenter: real, yCenter: real, radius: real) returns (indices: seq<int>)
    ensures indices == ShapeIndices(N, shape, xCenter, yCenter, radius)
  {
    var xCInd, yCInd := CenterIndex(N, xCenter), CenterIndex(N, yCenter);
    if shape == Point {
      indices := [Ind(N, Round(xCInd), Round(yCInd))];
      return;
    }
    var rInd := RadiusIndex(N, radius);
    var b := ShapeBox(N, xCInd, yCInd, rInd);
    var xMin, xMax, yMin, yMax := b.xLo, b.xHi, b.yLo, b.yHi;
    indices := [];
    var x := xMin;
    while x <= xMax
      invariant x == xMin || xMin < x <= xMax + 1
      invariant indices == BoxScan(N, shape, xCInd, yCInd, rInd, b, x)
      decreases xMax + 1 - x
    {
      var column := ScanColumn(N, shape, xCInd, yCInd, rInd, x, yMin, yMax);
      indices := indices + column;
      x := x + 1;
    }
    if x == xMin {
      assert BoxScan(N, shape, xCInd, yCInd, rInd, b, xMax + 1) == [];
    }
    if |indices| == 0 {
      indices := [Ind(N, Round(xCInd), Round(yCInd))];
    }
  }

  /** The GasSource constructor. */
  method NewGasSource(N: nat, shape: Shape, flowRate: real, sourceTemp: real,
                      xCenter: real, yCenter: real, radius: real) returns (s: Source)
    ensures s == GasSource(N, shape, flowRate, sourceTemp, xCenter, yCenter, radius)
  {
    var indices := SetIndices(N, shape, xCenter, yCenter, radius);
    s := Plain(Gas, Some(Geometry(shape, xCenter, yCenter, radius)), indices,
               0.0, 0.0, flowRate / |indices| as real, sourceTemp);
  }

  /** The WindSource constructor. */
  method NewWindSource(N: nat, angle: real, speed: real, xCenter: real, yCenter: real,
                       cos: real -> real, sin: real -> real) returns (s: Source)
    ensures s == WindSource(N, angle, speed, xCenter, yCenter, cos, sin)
  {
    var indices := SetIndices(N, Point, xCenter, yCenter, 0.0);
    s := Plain(Wind, Some(Geometry(Point, xCenter, yCenter, 0.0)), indices,
               speed * cos(Radians(angle, StaticPi)), speed * sin(Radians(angle, StaticPi)), 0.0, 0.0);
  }

  /** The HeatSource constructor. */
  method NewHeatSource(N: nat, shape: Shape, sourceTemp: real, xCenter: real, yCenter: real, radius: real)
    returns (s: Source)
    ensures s == HeatSource(N, shape, sourceTemp, xCenter, yCenter, radius)
  {
    var indices := SetIndices(N, shape, xCenter, yCenter, radius);
    s := Plain(Heat, Some(Geometry(shape, xCenter, yCenter, radius)), indices, 0.0, 0.0, 0.0, sourceTemp);
  }

  /** The EnergySource constructor. */
  method NewEnergySource(N: nat, shape: Shape, flux: real, referenceTemp: real, referenceDensity: real,
                         xCenter: real, yCenter: real, radius: real) returns (s: Source)
    requires referenceDensity != 0.0
    ensures s == EnergySource(N, shape, flux, referenceTemp, referenceDensity, xCenter, yCenter, radius)
  {
    var indices := SetIndices(N, shape, xCenter, yCenter, radius);
    s := Plain(Energy, Some(Geometry(shape, xCenter, yCenter, radius)), indices, 0.0, 0.0, 0.0,
               referenceTemp + flux / EnergyDivisor(referenceDensity, |indices|));
  }

  /** The WindBoundary constructor: one loop over the rows 0 .. N. */
  method NewWindBoundary(N: nat, speed: real) returns (s: Source)
    ensures s == WindBoundarySource(N, speed)
  {
    var indices := [];
    var i := 0;
    while i < N + 1
      invariant 0 <= i <= N + 1
      invariant indices == BoundaryCells(N, i)
    {
      indices := indices + [Ind(N, 1, i)];
      indices := indices + [Ind(N, N, i)];
      i := i + 1;
    }
    s := Plain(WindBoundary, None, indices, speed, 0.0, 0.0, 0.0);
  }

  // ---- Writing one source into the buffers ----

  /** Contents of four buffers, in the order of Sources. */
  function Buffers(dens: array<real>, xVel: array<real>, yVel: array<real>, temp: array<real>): Sources
    reads dens, xVel, yVel, temp
  {
    Sources(dens[..], xVel[..], yVel[..], temp[..])
  }

  /** Four different buffers of n cells each. */
  predicate Quad(dens: array<real>, xVel: array<real>, yVel: array<real>, temp: array<real>, n: nat)
  {
    && dens.Length == n && xVel.Length == n && yVel.Length == n && temp.Length == n
    && dens != xVel && dens != yVel && dens != temp && xVel != yVel && xVel != temp && yVel != temp
  }

  /** The loop of UpdateSources over one source's indices. */
  method DepositSource(s: Source, dens: array<real>, xVel: array<real>, yVel: array<real>, temp: array<real>)
    requires Quad(dens, xVel, yVel, temp, dens.Length) && Within(s.indices, dens.Length)
    modifies dens, xVel, yVel, temp
    ensures Buffers(dens, xVel, yVel, temp) == DepositIndices(old(Buffers(dens, xVel, yVel, temp)), s, s.indices)
  {
    ghost var b0 := Buffers(dens, xVel, yVel, temp);
    var m := 0;
    while m < |s.indices|
      invariant 0 <= m <= |s.indices|
      invariant Buffers(dens, xVel, yVel, temp) == DepositIndices(b0, s, s.indices[..m])
    {
      var index := s.indices[m];
      xVel[index] := xVel[index] + s.xVel;
      yVel[index] := yVel[index] + s.yVel;
      dens[index] := dens[index] + s.dens;
      temp[index] := Max(temp[index], s.temp);
      assert s.indices[..m + 1][..m] == s.indices[..m];
      m := m + 1;
    }
    assert s.indices[..m] == s.indices;
  }

  /** The switch of UpdateSourcesDynamic for one index of the dynamic
      source at list position i, at position m of its index list. */
  method DynamicStep(s: Source, i: nat, m: nat, index: int, dens: array<real>, xVel: array<real>,
                     yVel: array<real>, temp: array<real>, sample: Sampler, cos: real -> real, sin: real -> real)
    requires Quad(dens, xVel, yVel, temp, dens.Length) && 0 <= index < dens.Length
    modifies dens, xVel, yVel, temp
    ensures Buffers(dens, xVel, yVel, temp) ==
      DynamicCell(old(Buffers(dens, xVel, yVel, temp)), s, i, m, index, sample, cos, sin)
  {
    match s.kind {
      case Gas =>
        dens[index] := dens[index] + RandomNormal(s.dens, s.dVar, sample(i, m, 0));
        temp[index] := Max(temp[index], RandomNormal(s.temp, s.tVar, sample(i, m, 1)));
      case Wind =>
        var ang := RandomNormal(s.aMean, s.aVar, sample(i, m, 0));
        var spd := RandomNormal(s.wMean, s.wVar, sample(i, m, 1));
        xVel[index] := xVel[index] + WindX(spd, ang, cos);
        yVel[index] := yVel[index] + WindY(spd, ang, sin);
      case Heat =>
        temp[index] := Max(temp[index], RandomNormal(s.temp, s.tVar, sample(i, m, 0)));
      case Energy =>
        temp[index] := Max(temp[index], RandomNormal(s.temp, s.tVar, sample(i, m, 0)));
      case WindBoundary =>
        xVel[index] := xVel[index] + RandomNormal(s.wMean, s.wVar, sample(i, m, 0));
    }
  }

  /** The dynamic branch of UpdateSourcesDynamic over the indices of the
      source at list position i. */
  method DepositSourceDynamic(s: Source, i: nat, dens: array<real>, xVel: array<real>, yVel: array<real>,
                              temp: array<real>, sample: Sampler, cos: real -> real, sin: real -> real)
    requires Quad(dens, xVel, yVel, temp, dens.Length) && Within(s.indices, dens.Length)
    modifies dens, xVel, yVel, temp
    ensures Buffers(dens, xVel, yVel, temp) ==
      DynamicIndices(old(Buffers(dens, xVel, yVel, temp)), s, i, s.indices, sample, cos, sin)
  {
    ghost var b0 := Buffers(dens, xVel, yVel, temp);
    var m := 0;
    while m < |s.indices|
      invariant 0 <= m <= |s.indices|
      invariant Buffers(dens, xVel, yVel, temp) == DynamicIndices(b0, s, i, s.indices[..m], sample, cos, sin)
    {
      DynamicStep(s, i, m, s.indices[m], dens, xVel, yVel, temp, sample, cos, sin);
      assert s.indices[..m + 1][..m] == s.indices[..m];
      m := m + 1;
    }
    assert s.indices[..m] == s.indices;
  }

  /** The prefix of a list whose indices are on the grid has them there too. */
  lemma PrefixKeepsIndices(srcs: seq<Source>, i: nat, n: nat)
    requires i <= |srcs| && IndicesIn(srcs, n)
    ensures IndicesIn(srcs[..i], n)
  {
  }

  // ---- The source manager ----

  class SimSource {
    const simState: SimState
    var xVel: array<real>
    var yVel: array<real>
    var dens: array<real>
    var temp: array<real>
    var sources: seq<Source>

    /** The buffer pointers are the state's current source buffers (they go
        stale when the state's grid is resized, until Reset). */
    ghost predicate Linked()
      reads this, simState
    {
      && xVel == simState.fields.xVelSource && yVel == simState.fields.yVelSource
      && dens == simState.fields.densSource && temp == simState.fields.tempSource
    }

    /** The list srcs can be written into the state: the state is well
        formed, every index addresses one of its cells, and a non-empty
        list is written through current pointers. */
    ghost predicate Writable(srcs: seq<Source>)
      reads this, simState
    {
      simState.Valid() && (Linked() || srcs == []) && IndicesIn(srcs, simState.size)
    }

    /** The source buffers after ResetSources. */
    function Rest(): Sources
      reads this, simState
    {
      RestSources(simState.N, simState.params)
    }

    constructor(simState: SimState)
      ensures this.simState == simState && Linked() && sources == []
    {
      this.simState := simState;
      xVel := simState.fields.xVelSource;
      yVel := simState.fields.yVelSource;
      dens := simState.fields.densSource;
      temp := simState.fields.tempSource;
      sources := [];
    }

    /** UpdateSources: the buffers reset, then every source written in list order. */
    method UpdateSources()
      requires Writable(sources)
      modifies simState.fields.densSource, simState.fields.xVelSource, simState.fields.yVelSource, simState.fields.tempSource
      ensures simState.SourceContents() == Deposit(Rest(), sources)
    {
      simState.ResetSources();
      var i := 0;
      while i < |sources|
        invariant 0 <= i <= |sources|
        invariant IndicesIn(sources[..i], simState.size)
        invariant simState.SourceContents() == Deposit(Rest(), sources[..i])
      {
        var source := sources[i];
        assert Within(source.indices, simState.size);
        DepositSource(source, dens, xVel, yVel, temp);
        assert sources[..i + 1][..i] == sources[..i];
        i := i + 1;
        PrefixKeepsIndices(sources, i, simState.size);
      }
      assert sources[..i] == sources;
    }

    /** UpdateSourcesDynamic: as UpdateSources, except that a dynamic source
        draws each cell's contribution from the random engine. */
    method UpdateSourcesDynamic(sample: Sampler, cos: real -> real, sin: real -> real)
      requires Writable(sources)
      modifies simState.fields.densSource, simState.fields.xVelSource, simState.fields.yVelSource, simState.fields.tempSource
      ensures simState.SourceContents() == DynamicDeposit(Rest(), sources, sample, cos, sin)
    {
      simState.ResetSources();
      var i := 0;
      while i < |sources|
        invariant 0 <= i <= |sources|
        invariant IndicesIn(sources[..i], simState.size)
        invariant simState.SourceContents() == DynamicDeposit(Rest(), sources[..i], sample, cos, sin)
      {
        var source := sources[i];
        assert Within(source.indices, simState.size);
        if source.isDynamic {
          DepositSourceDynamic(source, i, dens, xVel, yVel, temp, sample, cos, sin);
        } else {
          DepositSource(source, dens, xVel, yVel, temp);
        }
        assert sources[..i + 1][..i] == sources[..i];
        i := i + 1;
        PrefixKeepsIndices(sources, i, simState.size);
      }
      assert sources[..i] == sources;
    }

    // ---- Adding sources (none of them writes the buffers) ----

    method CreateGasSource(shape: Shape, flowRate: real, sourceTemp: real, xCenter: real, yCenter: real, radius: real)
      modifies this`sources
      ensures sources == old(sources) + [GasSource(simState.N, shape, flowRate, sourceTemp, xCenter, yCenter, radius)]
      ensures simState.Valid() && IndicesIn(old(sources), simState.size) && FitsGrid(simState.N, shape, xCenter, yCenter, radius)
        ==> IndicesIn(sources, simState.size)
    {
      var N := simState.GetN();
      var s := NewGasSource(N, shape, flowRate, sourceTemp, xCenter, yCenter, radius);
      sources := sources + [s];
      if simState.Valid() && IndicesIn(old(sources), simState.size) && FitsGrid(N, shape, xCenter, yCenter, radius) {
        ShapeIndicesInGrid(N, shape, xCenter, yCenter, radius);
        AppendKeepsIndices(old(sources), s, simState.size);
      }
    }

    method CreateGasSourceDynamic(shape: Shape, flowRate: real, sourceTemp: real, xCenter: real, yCenter: real,
                                  radius: real, flowVar: real, tempVar: real)
      modifies this`sources
      ensures sources == old(sources) +
        [DynamicGas(GasSource(simState.N, shape, flowRate, sourceTemp, xCenter, yCenter, radius), flowVar, tempVar)]
      ensures simState.Valid() && IndicesIn(old(sources), simState.size) && FitsGrid(simState.N, shape, xCenter, yCenter, radius)
        ==> IndicesIn(sources, simState.size)
    {
      var N := simState.GetN();
      var s := NewGasSource(N, shape, flowRate, sourceTemp, xCenter, yCenter, radius);
      s := s.(isDynamic := true, dVar := flowVar, tVar := tempVar);
      sources := sources + [s];
      if simState.Valid() && IndicesIn(old(sources), simState.size) && FitsGrid(N, shape, xCenter, yCenter, radius) {
        ShapeIndicesInGrid(N, shape, xCenter, yCenter, radius);
        AppendKeepsIndices(old(sources), s, simState.size);
      }
    }

    method CreateWindSource(angle: real, speed: real, xCenter: real, yCenter: real, cos: real -> real, sin: real -> real)
      modifies this`sources
      ensures sources == old(sources) + [WindSource(simState.N, angle, speed, xCenter, yCenter, cos, sin)]
      ensures simState.Valid() && IndicesIn(old(sources), simState.size) && FitsGrid(simState.N, Point, xCenter, yCenter, 0.0)
        ==> IndicesIn(sources, simState.size)
    {
      var N := simState.GetN();
      var s := NewWindSource(N, angle, speed, xCenter, yCenter, cos, sin);
      sources := sources + [s];
      if simState.Valid() && IndicesIn(old(sources), simState.size) && FitsGrid(N, Point, xCenter, yCenter, 0.0) {
        ShapeIndicesInGrid(N, Point, xCenter, yCenter, 0.0);
        AppendKeepsIndices(old(sources), s, simState.size);
      }
    }

    method CreateWindSourceDynamic(angle: real, speed: real, xCenter: real, yCenter: real, speedVar: real, angleVar: real,
                                   cos: real -> real, sin: real -> real)
      modifies this`sources
      ensures sources == old(sources) +
        [DynamicWind(WindSource(simState.N, angle, speed, xCenter, yCenter, cos, sin), angle, speed, speedVar, angleVar)]
      ensures simState.Valid() && IndicesIn(old(sources), simState.size) && FitsGrid(simState.N, Point, xCenter, yCenter, 0.0)
        ==> IndicesIn(sources, simState.size)
    {
      var N := simState.GetN();
      var s := NewWindSource(N, angle, speed, xCenter, yCenter, cos, sin);
      s := s.(isDynamic := true, wMean := speed, aMean := angle, wVar := speedVar, aVar := angleVar);
      sources := sources + [s];
      if simState.Valid() && IndicesIn(old(sources), simState.size) && FitsGrid(N, Point, xCenter, yCenter, 0.0) {
        ShapeIndicesInGrid(N, Point, xCenter, yCenter, 0.0);
        AppendKeepsIndices(old(sources), s, simState.size);
      }
    }

    method CreateHeatSource(shape: Shape, sourceTemp: real, xCenter: real, yCenter: real, radius: real)
      modifies this`sources
      ensures sources == old(sources) + [HeatSource(simState.N, shape, sourceTemp, xCenter, yCenter, radius)]
      ensures simState.Valid() && IndicesIn(old(sources), simState.size) && FitsGrid(simState.N, shape, xCenter, yCenter, radius)
        ==> IndicesIn(sources, simState.size)
    {
      var N := simState.GetN();
      var s := NewHeatSource(N, shape, sourceTemp, xCenter, yCenter, radius);
      sources := sources + [s];
      if simState.Valid() && IndicesIn(old(sources), simState.size) && FitsGrid(N, shape, xCenter, yCenter, radius) {
        ShapeIndicesInGrid(N, shape, xCenter, yCenter, radius);
        AppendKeepsIndices(old(sources), s, simState.size);
      }
    }

    method CreateHeatSourceDynamic(shape: Shape, sourceTemp: real, xCenter: real, yCenter: real, radius: real, tempVar: real)
      modifies this`sources
      ensures sources == old(sources) + [DynamicHeat(HeatSource(simState.N, shape, sourceTemp, xCenter, yCenter, radius), tempVar)]
      ensures simState.Valid() && IndicesIn(old(sources), simState.size) && FitsGrid(simState.N, shape, xCenter, yCenter, radius)
        ==> IndicesIn(sources, simState.size)
    {
      var N := simState.GetN();
      var s := NewHeatSource(N, shape, sourceTemp, xCenter, yCenter, radius);
      s := s.(isDynamic := true, tVar := tempVar);
      sources := sources + [s];
      if simState.Valid() && IndicesIn(old(sources), simState.size) && FitsGrid(N, shape, xCenter, yCenter, radius) {
        ShapeIndicesInGrid(N, shape, xCenter, yCenter, radius);
        AppendKeepsIndices(old(sources), s, simState.size);
      }
    }

    method CreateEnergySource(shape: Shape, flux: real, referenceTemp: real, referenceDensity: real,
                              xCenter: real, yCenter: real, radius: real)
      requires referenceDensity != 0.0
      modifies this`sources
      ensures sources == old(sources) +
        [EnergySource(simState.N, shape, flux, referenceTemp, referenceDensity, xCenter, yCenter, radius)]
      ensures simState.Valid() && IndicesIn(old(sources), simState.size) && FitsGrid(simState.N, shape, xCenter, yCenter, radius)
        ==> IndicesIn(sources, simState.size)
    {
      var N := simState.GetN();
      var s := NewEnergySource(N, shape, flux, referenceTemp, referenceDensity, xCenter, yCenter, radius);
      sources := sources + [s];
      if simState.Valid() && IndicesIn(old(sources), simState.size) && FitsGrid(N, shape, xCenter, yCenter, radius) {
        ShapeIndicesInGrid(N, shape, xCenter, yCenter, radius);
        AppendKeepsIndices(old(sources), s, simState.size);
      }
    }

    method CreateEnergySourceDynamic(shape: Shape, flux: real, referenceTemp: real, referenceDensity: real,
                                     xCenter: real, yCenter: real, radius: real, fluxVar: real)
      requires referenceDensity != 0.0
      modifies this`sources
      ensures sources == old(sources) +
        [DynamicHeat(EnergySource(simState.N, shape, flux, referenceTemp, referenceDensity, xCenter, yCenter, radius), fluxVar)]
      ensures simState.Valid() && IndicesIn(old(sources), simState.size) && FitsGrid(simState.N, shape, xCenter, yCenter, radius)
        ==> IndicesIn(sources, simState.size)
    {
      var N := simState.GetN();
      var s := NewEnergySource(N, shape, flux, referenceTemp, referenceDensity, xCenter, yCenter, radius);
      s := s.(isDynamic := true, tVar := fluxVar);
      sources := sources + [s];
      if simState.Valid() && IndicesIn(old(sources), simState.size) && FitsGrid(N, shape, xCenter, yCenter, radius) {
        ShapeIndicesInGrid(N, shape, xCenter, yCenter, radius);
        AppendKeepsIndices(old(sources), s, simState.size);
      }
    }

    // ---- Removing sources (each rewrites the buffers) ----

    /** RemoveSource: the source at position i leaves the list and the
        buffers are rewritten from the rest. */
    method RemoveSource(i: nat)
      requires i < |sources| && Writable(Without(sources, i))
      modifies this`sources
      modifies simState.fields.densSource, simState.fields.xVelSource, simState.fields.yVelSource, simState.fields.tempSource
      ensures sources == Without(old(sources), i)
      ensures simState.SourceContents() == Deposit(Rest(), sources)
    {
      sources := sources[..i] + sources[i + 1..];
      simState.ResetSources();
      UpdateSources();
    }

    /** CreateWindBoundary: removes the first wind boundary if there is one,
        otherwise appends a new one without writing the buffers. */
    method CreateWindBoundary(speed: real)
      requires FirstBoundary(sources) < |sources| ==> Writable(Without(sources, FirstBoundary(sources)))
      modifies this`sources
      modifies simState.fields.densSource, simState.fields.xVelSource, simState.fields.yVelSource, simState.fields.tempSource
      ensures sources == Toggled(old(sources), WindBoundarySource(simState.N, speed))
      ensures old(FirstBoundary(sources) < |sources|) ==> simState.SourceContents() == Deposit(Rest(), sources)
      ensures old(FirstBoundary(sources) == |sources|) ==> simState.SourceContents() == old(simState.SourceContents())
    {
      var i := 0;
      while i < |sources|
        invariant 0 <= i <= |sources|
        invariant forall j :: 0 <= j < i ==> sources[j].kind != WindBoundary
      {
        if sources[i].kind == WindBoundary {
          assert FirstBoundary(sources) == i;
          RemoveSource(i);
          return;
        }
        i := i + 1;
      }
      var N := simState.GetN();
      var wb := NewWindBoundary(N, speed);
      sources := sources + [wb];
    }

    /** CreateWindBoundaryDynamic: as CreateWindBoundary, the new boundary dynamic. */
    method CreateWindBoundaryDynamic(speed: real, speedVar: real)
      requires FirstBoundary(sources) < |sources| ==> Writable(Without(sources, FirstBoundary(sources)))
      modifies this`sources
      modifies simState.fields.densSource, simState.fields.xVelSource, simState.fields.yVelSource, simState.fields.tempSource
      ensures sources == Toggled(old(sources), DynamicBoundary(WindBoundarySource(simState.N, speed), speed, speedVar))
      ensures old(FirstBoundary(sources) < |sources|) ==> simState.SourceContents() == Deposit(Rest(), sources)
      ensures old(FirstBoundary(sources) == |sources|) ==> simState.SourceContents() == old(simState.SourceContents())
    {
      var i := 0;
      while i < |sources|
        invariant 0 <= i <= |sources|
        invariant forall j :: 0 <= j < i ==> sources[j].kind != WindBoundary
      {
        if sources[i].kind == WindBoundary {
          assert FirstBoundary(sources) == i;
          RemoveSource(i);
          return;
        }
        i := i + 1;
      }
      var N := simState.GetN();
      var wb := NewWindBoundary(N, speed);
      wb := wb.(isDynamic := true, wVar := speedVar, wMean := speed);
      sources := sources + [wb];
    }

    /** RemoveSourceAtPoint: removes the first source the point hits (a
        source without geometry, the wind boundary, is skipped). */
    method RemoveSourceAtPoint(x: real, y: real, dist: real)
      requires FirstHit(sources, x, y, dist) < |sources| ==> Writable(Without(sources, FirstHit(sources, x, y, dist)))
      modifies this`sources
      modifies simState.fields.densSource, simState.fields.xVelSource, simState.fields.yVelSource, simState.fields.tempSource
      ensures sources == RemovedAt(old(sources), x, y, dist)
      ensures old(FirstHit(sources, x, y, dist) < |sources|) ==> simState.SourceContents() == Deposit(Rest(), sources)
      ensures old(FirstHit(sources, x, y, dist) == |sources|) ==> simState.SourceContents() == old(simState.SourceContents())
    {
      var i := 0;
      while i < |sources|
        invariant 0 <= i <= |sources|
        invariant forall j :: 0 <= j < i ==> !HitBy(sources[j], x, y, dist)
      {
        var source := sources[i];
        if source.geometry.Some? {
          var g := source.geometry.value;
          var rad := g.radius + dist;
          var xDist := Abs(x - g.xCenter);
          var yDist := Abs(y - g.yCenter);
          var hit := match g.shape
            case Circle => Sq(xDist) + Sq(yDist) < Sq(rad)
            case Square => xDist < rad && yDist < rad
            case Diamond => xDist + yDist < rad
            case Point => Sq(xDist) + Sq(yDist) < Sq(rad);
          if hit {
            assert FirstHit(sources, x, y, dist) == i;
            RemoveSource(i);
            return;
          }
        }
        i := i + 1;
      }
    }

    /** RemoveAllSources: the list emptied, the buffers at rest. */
    method RemoveAllSources()
      requires simState.Valid()
      modifies this`sources
      modifies simState.fields.densSource, simState.fields.xVelSource, simState.fields.yVelSource, simState.fields.tempSource
      ensures sources == [] && simState.SourceContents() == Rest()
    {
      while |sources| > 0
        decreases |sources|
      {
        sources := sources[..|sources| - 1];
      }
      simState.ResetSources();
      UpdateSources();
    }

    /** Reset (after the state's grid was resized): no sources, and the
        pointers taken again from the state. */
    method Reset()
      requires simState.Valid()
      modifies this
      modifies simState.fields.densSource, simState.fields.xVelSource, simState.fields.yVelSource, simState.fields.tempSource
      ensures sources == [] && Linked() && simState.SourceContents() == Rest()
    {
      RemoveAllSources();
      xVel := simState.fields.xVelSource;
      yVel := simState.fields.yVelSource;
      dens := simState.fields.densSource;
      temp := simState.fields.tempSource;
    }
  }
}
