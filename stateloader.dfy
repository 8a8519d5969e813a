/** The source part of the state loader: the names of shapes and source
    types, and LoadSources, which turns the entries of a state file's
    "sources" list into create calls on a SimSource, in order, and then
    writes the buffers once. The JSON document itself is not modelled: an
    entry is the record of the values its keys give. */
module StateLoader {
  import opened Grid
  import opened Emitters
  import opened Deposits
  import opened SourceList
  import opened Simulation
  import opened SourceManager

  // ---- Names ----

  /** The name a state file gives each shape. */
  function ShapeName(s: Shape): string
  {
    match s
    case Square => "square"
    case Circle => "circle"
    case Diamond => "diamond"
    case Point => "point"
  }

  /** The name a state file gives each source type. */
  function KindName(k: Kind): string
  {
    match k
    case Gas => "gas"
    case Wind => "wind"
    case WindBoundary => "windBoundary"
    case Heat => "heat"
    case Energy => "energy"
  }

  /** StringToShape: a shape's own name gives that shape; any other string,
      the empty one included, gives the point shape. */
  function StringToShape(shapeName: string): (s: Shape)
    ensures ShapeName(s) == shapeName || (s == Point && forall t: Shape :: ShapeName(t) != shapeName)
  {
    if shapeName == "square" then Square
    else if shapeName == "circle" then Circle
    else if shapeName == "diamond" then Diamond
    else if shapeName == "point" then Point
    else Point
  }

  /** StringToType: a type's own name gives that type; any other string
      gives the gas type. */
  function StringToType(typeName: string): (k: Kind)
    ensures KindName(k) == typeName || (k == Gas && forall t: Kind :: KindName(t) != typeName)
  {
    if typeName == "gas" then Gas
    else if typeName == "wind" then Wind
    else if typeName == "windBoundary" then WindBoundary
    else if typeName == "heat" then Heat
    else if typeName == "energy" then Energy
    else Gas
  }

  /** Every shape's name parses back to the shape, so distinct shapes have
      distinct names. */
  lemma ShapeRoundTrip(s: Shape, t: Shape)
    ensures StringToShape(ShapeName(s)) == s
    ensures ShapeName(s) == ShapeName(t) ==> s == t
  {
    var n := ShapeName(s);
    assert ShapeName(StringToShape(n)) == n;
  }

  /** Every type's name parses back to the type, so distinct types have
      distinct names. */
  lemma KindRoundTrip(k: Kind, l: Kind)
    ensures StringToType(KindName(k)) == k
    ensures KindName(k) == KindName(l) ==> k == l
  {
    var n := KindName(k);
    assert KindName(StringToType(n)) == n;
  }

  /** Strings that are not a shape's name all parse to the point shape;
      strings that are not a type's name all parse to gas. */
  lemma Defaults(name: string)
    ensures (forall t: Shape :: ShapeName(t) != name) ==> StringToShape(name) == Point
    ensures (forall t: Kind :: KindName(t) != name) ==> StringToType(name) == Gas
    ensures StringToShape("") == Point && StringToType("") == Gas
  {
    assert ShapeName(StringToShape("")) != "";
    assert KindName(StringToType("")) != "";
  }

  // ---- The entries of the source list ----

  /** One entry of the "sources" list: its type and shape names, its
      isDynamic flag, and the numbers under the keys the create calls read. */
  datatype Entry = Entry(
    typeName: string, isDynamic: bool, shapeName: string,
    xCenter: real, yCenter: real, radius: real,
    flowRate: real, sourceTemp: real, flowVar: real, tempVar: real,
    angle: real, speed: real, speedVar: real, angleVar: real,
    flux: real, referenceTemp: real, referenceDensity: real, fluxVar: real)

  /** An entry the create calls can take on a grid of N: the source's cells
      stay on the grid, and an energy source's reference density is not 0. */
  predicate Admissible(N: nat, e: Entry)
  {
    var k := StringToType(e.typeName);
    && Creatable(e)
    && (k == Wind ==> FitsGrid(N, Point, e.xCenter, e.yCenter, 0.0))
    && (k != Wind && k != WindBoundary ==> FitsGrid(N, StringToShape(e.shapeName), e.xCenter, e.yCenter, e.radius))
  }

  /** The create call of the entry divides by a nonzero number. */
  predicate Creatable(e: Entry)
  {
    StringToType(e.typeName) == Energy ==> e.referenceDensity != 0.0
  }

  /** The source an entry creates (for a wind boundary entry, the one it
      would append). */
  function Created(N: nat, e: Entry, cos: real -> real, sin: real -> real): (s: Source)
    requires Creatable(e)
    ensures s.kind == StringToType(e.typeName) && s.isDynamic == e.isDynamic
  {
    var shape := StringToShape(e.shapeName);
    match StringToType(e.typeName)
    case Gas =>
      var s := GasSource(N, shape, e.flowRate, e.sourceTemp, e.xCenter, e.yCenter, e.radius);
      if e.isDynamic then DynamicGas(s, e.flowVar, e.tempVar) else s
    case Wind =>
      var s := WindSource(N, e.angle, e.speed, e.xCenter, e.yCenter, cos, sin);
      if e.isDynamic then DynamicWind(s, e.angle, e.speed, e.speedVar, e.angleVar) else s
    case WindBoundary =>
      var s := WindBoundarySource(N, e.speed);
      if e.isDynamic then DynamicBoundary(s, e.speed, e.speedVar) else s
    case Heat =>
      var s := HeatSource(N, shape, e.sourceTemp, e.xCenter, e.yCenter, e.radius);
      if e.isDynamic then DynamicHeat(s, e.tempVar) else s
    case Energy =>
      var s := EnergySource(N, shape, e.flux, e.referenceTemp, e.referenceDensity, e.xCenter, e.yCenter, e.radius);
      if e.isDynamic then DynamicHeat(s, e.fluxVar) else s
  }

  /** The list after one entry: a wind boundary entry toggles, any other
      entry appends its source. */
  function Applied(srcs: seq<Source>, N: nat, e: Entry, cos: real -> real, sin: real -> real): seq<Source>
    requires Creatable(e)
  {
    if StringToType(e.typeName) == WindBoundary then Toggled(srcs, Created(N, e, cos, sin))
    else srcs + [Created(N, e, cos, sin)]
  }

  /** The list after the entries, in order. */
  function Loaded(srcs: seq<Source>, N: nat, entries: seq<Entry>, cos: real -> real, sin: real -> real): seq<Source>
    requires forall i :: 0 <= i < |entries| ==> Admissible(N, entries[i])
  {
    if |entries| == 0 then srcs
    else
      var last := entries[|entries| - 1];
      assert Admissible(N, last);
      Applied(Loaded(srcs, N, entries[..|entries| - 1], cos, sin), N, last, cos, sin)
  }

  /** The sources the entries create, one per entry, in order. */
  function CreatedAll(N: nat, entries: seq<Entry>, cos: real -> real, sin: real -> real): (r: seq<Source>)
    requires forall i :: 0 <= i < |entries| ==> Admissible(N, entries[i])
    ensures |r| == |entries|
    ensures forall i :: 0 <= i < |entries| ==> Admissible(N, entries[i]) && r[i] == Created(N, entries[i], cos, sin)
  {
    if |entries| == 0 then []
    else
      var last := entries[|entries| - 1];
      assert Admissible(N, last);
      CreatedAll(N, entries[..|entries| - 1], cos, sin) + [Created(N, last, cos, sin)]
  }

  /** The entries with no wind boundary among them add the source each
      creates, in order, behind the sources already there. */
  lemma {:induction false} LoadedAppends(srcs: seq<Source>, N: nat, entries: seq<Entry>, cos: real -> real, sin: real -> real)
    requires forall i :: 0 <= i < |entries| ==> Admissible(N, entries[i])
    requires forall i :: 0 <= i < |entries| ==> StringToType(entries[i].typeName) != WindBoundary
    ensures Loaded(srcs, N, entries, cos, sin) == srcs + CreatedAll(N, entries, cos, sin)
  {
    if |entries| > 0 {
      var front := entries[..|entries| - 1];
      LoadedAppends(srcs, N, front, cos, sin);
      assert srcs + CreatedAll(N, entries, cos, sin)
          == srcs + CreatedAll(N, front, cos, sin) + [Created(N, entries[|entries| - 1], cos, sin)];
    }
  }

  /** Loading never leaves two wind boundaries in a list that had at most one. */
  lemma {:induction false} LoadedAtMostOneBoundary(srcs: seq<Source>, N: nat, entries: seq<Entry>, cos: real -> real, sin: real -> real)
    requires forall i :: 0 <= i < |entries| ==> Admissible(N, entries[i])
    requires BoundaryCount(srcs) <= 1
    ensures BoundaryCount(Loaded(srcs, N, entries, cos, sin)) <= 1
  {
    if |entries| > 0 {
      var front := entries[..|entries| - 1];
      var e := entries[|entries| - 1];
      LoadedAtMostOneBoundary(srcs, N, front, cos, sin);
      var r0 := Loaded(srcs, N, front, cos, sin);
      var s := Created(N, e, cos, sin);
      if StringToType(e.typeName) == WindBoundary {
        ToggledCount(r0, s);
      } else {
        BoundaryCountConcat(r0, [s]);
        assert BoundaryCount([s]) == 0 by {
          assert [s][..0] == [];
        }
      }
    }
  }

  /** One entry's create call. */
  method LoadEntry(source: SimSource, e: Entry, cos: real -> real, sin: real -> real)
    requires source.simState.Valid() && source.Linked() && IndicesIn(source.sources, source.simState.size)
    requires Admissible(source.simState.N, e)
    modifies source`sources
    modifies source.simState.fields.densSource, source.simState.fields.xVelSource
    modifies source.simState.fields.yVelSource, source.simState.fields.tempSource
    ensures source.sources == Applied(old(source.sources), source.simState.N, e, cos, sin)
    ensures IndicesIn(source.sources, source.simState.size)
    ensures StringToType(e.typeName) == WindBoundary && old(FirstBoundary(source.sources) < |source.sources|) ==>
      source.simState.SourceContents() == Deposit(source.Rest(), source.sources)
    ensures !(StringToType(e.typeName) == WindBoundary && old(FirstBoundary(source.sources) < |source.sources|)) ==>
      source.simState.SourceContents() == old(source.simState.SourceContents())
  {
    var shape := StringToShape(e.shapeName);
    match StringToType(e.typeName) {
      case Gas =>
        if e.isDynamic {
          source.CreateGasSourceDynamic(shape, e.flowRate, e.sourceTemp, e.xCenter, e.yCenter, e.radius, e.flowVar, e.tempVar);
        } else {
          source.CreateGasSource(shape, e.flowRate, e.sourceTemp, e.xCenter, e.yCenter, e.radius);
        }
      case Wind =>
        if e.isDynamic {
          source.CreateWindSourceDynamic(e.angle, e.speed, e.xCenter, e.yCenter, e.speedVar, e.angleVar, cos, sin);
        } else {
          source.CreateWindSource(e.angle, e.speed, e.xCenter, e.yCenter, cos, sin);
        }
      case WindBoundary =>
        var N := source.simState.N;
        var f := FirstBoundary(source.sources);
        if f < |source.sources| {
          WithoutKeepsIndices(source.sources, f, source.simState.size);
        }
        WindBoundaryCells(N);
        if e.isDynamic {
          source.CreateWindBoundaryDynamic(e.speed, e.speedVar);
        } else {
          source.CreateWindBoundary(e.speed);
        }
        ToggledKeepsIndices(old(source.sources), Created(N, e, cos, sin), source.simState.size);
      case Heat =>
        if e.isDynamic {
          source.CreateHeatSourceDynamic(shape, e.sourceTemp, e.xCenter, e.yCenter, e.radius, e.tempVar);
        } else {
          source.CreateHeatSource(shape, e.sourceTemp, e.xCenter, e.yCenter, e.radius);
        }
      case Energy =>
        if e.isDynamic {
          source.CreateEnergySourceDynamic(shape, e.flux, e.referenceTemp, e.referenceDensity,
                                           e.xCenter, e.yCenter, e.radius, e.fluxVar);
        } else {
          source.CreateEnergySource(shape, e.flux, e.referenceTemp, e.referenceDensity, e.xCenter, e.yCenter, e.radius);
        }
    }
  }

  /** LoadSources: every entry's create call in list order, then one
      dynamic update of the buffers. */
  method LoadSources(entries: seq<Entry>, source: SimSource, sample: Sampler, cos: real -> real, sin: real -> real)
    requires source.simState.Valid() && source.Linked() && IndicesIn(source.sources, source.simState.size)
    requires forall i :: 0 <= i < |entries| ==> Admissible(source.simState.N, entries[i])
    modifies source`sources
    modifies source.simState.fields.densSource, source.simState.fields.xVelSource
    modifies source.simState.fields.yVelSource, source.simState.fields.tempSource
    ensures source.sources == Loaded(old(source.sources), source.simState.N, entries, cos, sin)
    ensures source.simState.Valid() && IndicesIn(source.sources, source.simState.size)
    ensures source.simState.SourceContents() == DynamicDeposit(source.Rest(), source.sources, sample, cos, sin)
  {
    var i := 0;
    while i < |entries|
      invariant 0 <= i <= |entries|
      invariant IndicesIn(source.sources, source.simState.size)
      invariant source.sources == Loaded(old(source.sources), source.simState.N, entries[..i], cos, sin)
    {
      LoadEntry(source, entries[i], cos, sin);
      assert entries[..i + 1][..i] == entries[..i];
      i := i + 1;
    }
    assert entries[..i] == entries;
    source.UpdateSourcesDynamic(sample, cos, sin);
  }
}
