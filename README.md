# A verified model of a 2-D stable-fluids smoke simulator

The simulator advances smoke on a square grid of N x N cells, with a ghost
ring of cells around it, so (N+2)^2 cells in all. Every quantity lives in
its own flat float buffer, indexed by `ind(i, j) = i + (N+2) j`. These
quantities are density, the two velocity components and temperature, each
with a scratch ("prev") buffer and a source buffer.

One simulation step does the following:

- It copies the source buffers into the scratch buffers.
- It runs the velocity step: add the sources, apply buoyancy, diffuse, project, advect, project again.
- It runs the density step: add, diffuse, dissipate, advect.
- Optionally it runs the temperature step: merge heat, diffuse, cool, advect.

All of these are loops over the buffers, plus the ghost-ring boundary rule
`SetBoundary`. The buffers are switched by pointer swaps.

Emitters sit in a list. Each emitter is a gas, wind, heat or energy source,
or a wind boundary, and covers a list of cells computed from a shape, a
centre and a radius. The list is flattened into the source buffers: in cell
order, amounts are added and temperatures rise to their maximum. A loader
turns parsed source records into create calls. An early prototype adds a
source into a buffer and draws a grid as text.

## How the model is built

- **Floats are reals.** Buffers of `float` become `array<real>` in the
  imperative parts and `seq<real>` in the specifications.
- **The index map.** `Grid` models it. It also gives the cell accessor `At`
  and the grid predicates.
- **Pure specification functions.** The modules `Pointwise`, `Boundary`,
  `Relaxation`, `Advection` and `Projection` give one function per loop of
  `src/SimState.cpp`. Each follows the loop cell by cell, in the source's
  order. `Steps` composes them into the three steps and the simulation
  step. `StepProperties` proves facts about the composed steps.
- **The state object.** `Simulation.SimState` is a class. Its twelve
  buffers are arrays held in a `SimFields` record. Every kernel method runs
  the source's loop in place and is proved equal to its specification
  function. Every step method swaps the buffers and dissipates the buffer
  the source dissipates, and is proved equal to the matching function in
  `Steps`. These functions follow the source as written. The corrected
  density and temperature steps of "## Findings" are separate functions,
  `Steps.CorrectedDensityStep` and `Steps.CorrectedTemperatureStep`, and
  `Steps.CorrectedSimulationStep` composes them.
- **Emitters.** `Emitters` models the emitters as values: the rasterisation
  of `SetIndices` and the five constructors. `Deposits` gives the
  flattening as folds over the list, with closed forms. `SourceList`
  covers removal, the wind-boundary toggle and the hit test.
- **The emitter manager.** `SourceManager.SimSource` is a class. Its source
  list is a `seq<Source>` field, and its four buffer pointers are array
  fields shared with the `SimState`. Every method runs the source's loops
  and is proved against those functions.
- **The loader.** `StateLoader` holds the name parsers and the per-entry
  dispatch of `LoadSources`.
- **The prototype.** `Prototype` models `FluidSim.cpp`. `displayGrid`
  returns the lines it would print.

### Parameters and deviations

- **Functions as parameters.** `sqrt`, `cos` and `sin` are given as
  function parameters. The coefficient callback of `Diffuse` is one of
  three coefficient kinds, evaluated on the current density and
  temperature of the cell. With advanced coefficients on, the thermal
  diffusivity reads the very buffer being relaxed, and the model keeps that
  aliasing.
- **Random draws.** `RandomNormal`'s random engine is an oracle `sample`
  argument. The `dev == 0` branch is modelled exactly.
- **Preconditions for division.** Divisions by values the source does not
  check become preconditions: `lengthScale != 0`, `airTemp != 0` with
  advanced coefficients, a nonzero mixed density, and
  `referenceDensity != 0` for an energy source. Infinities and NaN are not
  modelled.
- **Where the code and its description disagree, the model follows the code.**
  - The wind boundary covers rows 0 .. N of columns 1 and N, not rows 1 .. N.
  - A wind boundary has no shape, centre or radius. The model gives it no
    geometry, so the point-removal test, whose wind-boundary guard never
    fires, skips it. The source instead tests it with whatever its
    uninitialised members hold.
  - `RemoveSource` takes a position in the list rather than a pointer. Each
    source occurs once, so `std::list::remove` removes exactly that element.

## Model

| member | source | states |
|---|---|---|
| Grid.IndFormula | src/SimState.cpp:13 | the cell index of (i, j) is i + (N+2) j |
| Grid.IndInRange | src/SimState.cpp:13 | every cell (i, j) with 0 <= i, j <= N+1 has an index in [0, (N+2)^2) |
| Grid.IndCoordinates | src/SimState.cpp:13 | column and row are recovered from the index of a cell |
| Grid.IndInjective | src/SimState.cpp:13 | distinct grid cells have distinct indices |
| Grid.CoordinatesInGrid | src/SimState.cpp:13 | every index in [0, (N+2)^2) is the index of exactly the grid cell (Col, Row) |
| Grid.AllCoordinates | src/SimState.cpp:13 | the index map is a bijection between grid cells and [0, size), for all cells at once |
| Physics.DefaultParams | src/SimState.cpp:500-523 | the bare parameter set: unit scales, every physical coefficient 0, closed boundaries, all options off, 20 solver steps |
| Physics.MixedTemperature | src/SimState.cpp:145-149 | where there is no gas, or the gas is at air temperature, the mixture is at air temperature |
| Physics.MixedDensity | src/SimState.cpp:151-155 | where there is no gas the mixture has the density of air |
| Physics.AdjustedMassDiffusivity | src/SimState.cpp:157-163 | with advanced coefficients off the mass diffusivity is the constant diff |
| Physics.AdjustedViscosity | src/SimState.cpp:165-171 | with advanced coefficients off the viscosity is the constant visc |
| Physics.AdjustedThermalDiffusivity | src/SimState.cpp:173-179 | with advanced coefficients off the thermal diffusivity is the constant diffTemp |
| Physics.CoefficientsAtAirTemperature | src/SimState.cpp:157-179 | for pure air at air temperature the adjusted coefficients reduce to diff, diffTemp and visc / airDens (or visc when off) |
| Physics.BuoyantForce | src/SimState.cpp:398-412 | no force where there is no gas; force 1 when the density at air temperature is 0 |
| Physics.ConstantCoefficientsOK | src/SimState.cpp:157-179 | nonnegative constant coefficients are defined and nonnegative for every density and temperature |
| Physics.ScaledTimeStep | src/SimState.cpp:65 | with time scale 1 the step is the given time step; a zero time step stays zero |
| Physics.CellSize | src/SimState.cpp:257 | the cell size lengthScale / N is nonzero for a nonzero length scale |
| Physics.DiffusionRate | src/SimState.cpp:257-258 | the diffusion weight a = dt / h^2 is nonnegative for dt >= 0 and zero for dt = 0 |
| Physics.AdvectionRate | src/SimState.cpp:314-315 | the advection factor dt / h is zero for dt = 0 |
| Boundary.EdgeStepValues | src/SimState.cpp:240-245 | one iteration of the edge loop sets the four ghosts of row/column n to xMod or yMod times their interior neighbour and changes nothing else |
| Boundary.EdgePassValues | src/SimState.cpp:240-245 | after the edge loop every edge ghost holds its scaled neighbour, all other cells unchanged |
| Boundary.CornersAt | src/SimState.cpp:247-250 | each corner becomes the mean of its two adjacent edge ghosts |
| Boundary.CornersKeepOthers | src/SimState.cpp:247-250 | the corner writes change no other cell |
| Boundary.BoundaryKeepsInterior | src/SimState.cpp:229-251 | SetBoundary leaves every interior cell unchanged |
| Boundary.BoundaryEdges | src/SimState.cpp:240-245 | each edge ghost is xMod (left/right) or yMod (bottom/top) times the adjacent interior value |
| Boundary.BoundaryCorners | src/SimState.cpp:247-250 | each corner equals half the sum of its two neighbouring ghosts in the result |
| Boundary.BoundaryCornerValues | src/SimState.cpp:229-251 | in mode 0 a corner is the diagonal interior value, in every other mode it is 0 |
| Boundary.OpenBoundaryIsZero | src/SimState.cpp:234 | in open mode (-1) every ghost cell, corners included, is 0 |
| Boundary.BoundaryEstablishes | src/SimState.cpp:229-251 | the result satisfies the boundary relation of its mode |
| Boundary.BoundaryCellValue | src/SimState.cpp:229-251 | every cell of the result is given by the closed-form boundary value |
| Boundary.BoundaryClosedForm | src/SimState.cpp:229-251 | the whole result is the closed form: interior kept, edges scaled, corners averaged |
| Boundary.BoundaryDependsOnInterior | src/SimState.cpp:229-251 | the result depends only on the interior of the input |
| Boundary.BoundaryIdempotent | src/SimState.cpp:229-251 | applying SetBoundary twice is the same as once |
| Boundary.BoundaryKeepsRange | src/SimState.cpp:229-251 | when the input lies in [lo, hi] and the mode's factors keep that range, so does the result |
| Pointwise.AddedZeroStep | src/SimState.cpp:202-208 | adding a source over a zero time step leaves the buffer unchanged |
| Pointwise.AddedConstantZeroStep | src/SimState.cpp:220-226 | adding a constant over a zero time step leaves the buffer unchanged |
| Pointwise.HeatMergedBounds | src/SimState.cpp:211-217 | each merged cell is at least both inputs and equal to one of them |
| Pointwise.HeatMergedIdempotent | src/SimState.cpp:211-217 | merging the same heat source twice changes nothing the second time |
| Pointwise.DissipatedScalesDistance | src/SimState.cpp:280-291 | each cell's distance to eqVal is scaled by 1 - rate dt; rate dt = 0 is the identity |
| Pointwise.DissipatedAtEquilibrium | src/SimState.cpp:280-291 | a buffer at eqVal everywhere stays there |
| Pointwise.DissipatedApproachesEquilibrium | src/SimState.cpp:280-291 | for 0 <= rate dt <= 1 every cell moves towards eqVal without overshooting |
| Pointwise.FallOffAtAirTemperature | src/SimState.cpp:294-305 | in a cell at air temperature the fall-off dissipation equals plain dissipation |
| Pointwise.ConvectedAt | src/SimState.cpp:389-419 | every interior cell gets dt grav times the buoyant force of its own density and temperature; ghosts unchanged |
| Pointwise.ConvectWithoutGas | src/SimState.cpp:389-419 | with no gas anywhere (and nonzero air density) convection changes nothing |
| Relaxation.ConstantCoefficientsEverywhere | src/SimState.cpp:268 | constant nonnegative coefficients are defined in every cell for every field value met during the sweeps |
| Relaxation.CellWeight | src/SimState.cpp:268 | the per-cell weight a_t = a * coefficient is nonnegative |
| Relaxation.ConvexBound | src/SimState.cpp:271-272 | the update (x0 + a_t * neighbours) / (1 + 4 a_t) is a convex combination, within [lo, hi] |
| Relaxation.NewValueWithin | src/SimState.cpp:271-272 | one diffusion or pressure update stays within the bounds of what it reads |
| Relaxation.SweepColumnWithin | src/SimState.cpp:265-273 | the inner loop keeps the whole field in [lo, hi] |
| Relaxation.SweepUpToWithin | src/SimState.cpp:264-274 | the interior sweep keeps the whole field in [lo, hi] |
| Relaxation.RelaxWithin | src/SimState.cpp:261-276 | maximum principle: all solverSteps sweeps with SetBoundary keep the field within the bounds of x0 and the start field |
| Relaxation.ZeroWeightColumn | src/SimState.cpp:265-273 | with a = 0 the inner loop copies x0 into exactly the cells it visited |
| Relaxation.ZeroWeightUpTo | src/SimState.cpp:264-274 | with a = 0 the sweep copies x0 into exactly the interior columns visited |
| Relaxation.ZeroWeightRelax | src/SimState.cpp:254-277 | diffusion over a zero time step returns x0 with the boundary rule applied, whatever the start field |
| Advection.SplitAxis | src/SimState.cpp:326-339 | after clamping into [0.5, N+0.5] the lower cell is in [0, N] and its weight s1 in [0, 1), so every read is in the grid |
| Advection.AdvectInteriorAt | src/SimState.cpp:318-345 | every interior cell of d gets its back-traced value, every ghost keeps its old value |
| Advection.AdvectIgnoresTarget | src/SimState.cpp:308-347 | the result does not depend on the old contents of d |
| Advection.AdvectCellStill | src/SimState.cpp:322-343 | where the velocity is zero the cell takes its own d0 value |
| Advection.SplitAxisAtCell | src/SimState.cpp:326-339 | a back-trace landing on an interior grid point gives that point with weight 0 |
| Advection.AdvectStill | src/SimState.cpp:308-347 | in still air advection returns d0 with the boundary rule applied |
| Advection.LerpWithin | src/SimState.cpp:342-343 | an interpolation with convex weights stays between its samples' bounds |
| Advection.BilinearWithin | src/SimState.cpp:342-343 | the bilinear value lies between the min and max of the four d0 samples |
| Advection.AdvectCellWithin | src/SimState.cpp:322-343 | each advected interior value lies within the range of d0 |
| Advection.AdvectWithin | src/SimState.cpp:308-347 | advection creates no new extremes: the result stays in the range of d0 |
| Projection.DivergenceInteriorAt | src/SimState.cpp:356-362 | div gets -0.5 h times the central differences in every interior cell, ghosts unchanged |
| Projection.ZeroInteriorAt | src/SimState.cpp:356-362 | p is set to 0 in every interior cell, ghosts unchanged |
| Projection.GradientCorrectedAt | src/SimState.cpp:378-383 | u (resp. v) is reduced by 0.5 times the central pressure difference over h in every interior cell, ghosts unchanged |
| Projection.HodgeIgnoresScratch | src/SimState.cpp:350-386 | the projected velocity, pressure and divergence do not depend on the incoming contents of p and div |
| Projection.HodgeBoundaries | src/SimState.cpp:350-386 | on exit u satisfies the mode-1 boundary relation, v the mode-2 one and div the mode-0 one |
| Projection.ZeroInteriorBoundary | src/SimState.cpp:363-364 | a field zero inside is zero everywhere after SetBoundary |
| Projection.GradientOfZeroPressure | src/SimState.cpp:378-385 | a zero pressure field corrects nothing |
| Projection.PressureOfDivergenceFree | src/SimState.cpp:355-375 | for a divergence-free velocity the divergence and the relaxed pressure are zero |
| Projection.HodgeDivergenceFree | src/SimState.cpp:350-386 | a divergence-free velocity passes the projection unchanged apart from the boundary rule |
| Steps.DensityMode | src/SimState.cpp:428 | the density boundary mode (0 closed, -1 open) is a valid mode |
| Steps.XVelMode | src/SimState.cpp:458 | the x-velocity boundary mode (1 closed, 0 open) is a valid mode |
| Steps.YVelMode | src/SimState.cpp:460 | the y-velocity boundary mode (2 closed, 0 open) is a valid mode |
| Steps.VelocityStep | src/SimState.cpp:445-474 | the velocity step changes only the velocity buffers and their scratch buffers |
| Steps.DensityDecay | src/SimState.cpp:431-438 | no decay for densDecay <= 0; fall-off dissipation exactly when densDecay > 0 and tempFactor > 0; plain dissipation to 0 otherwise |
| Steps.DensityStep | src/SimState.cpp:421-443 | the density step as written changes only dens and dens_prev, and dens_prev ends as the diffused density |
| Steps.CorrectedDensityStep | src/SimState.cpp:421-443 | the corrected density step changes only dens and dens_prev; dens_prev ends as the diffused density after the decay |
| Steps.TemperatureDecay | src/SimState.cpp:487-489 | cooling towards airTemp exactly when tempDecay > 0 |
| Steps.TemperatureStep | src/SimState.cpp:476-494 | the temperature step as written changes only temp and temp_prev; temp_prev ends as the diffused temperature |
| Steps.CorrectedTemperatureStep | src/SimState.cpp:476-494 | the corrected temperature step changes only temp and temp_prev; temp_prev ends as the diffused temperature after cooling |
| Steps.ThermalIgnoresDensity | src/SimState.cpp:173-179 | the thermal diffusivity does not read density, so any density buffer may stand in |
| Steps.WithSources | src/SimState.cpp:68-71 | the four scratch buffers receive the four source buffers; the working buffers are kept |
| Steps.SimulationStep | src/SimState.cpp:62-78 | the temperature is left as it is when the temperature option is off |
| Steps.StepsFixedPoint | src/SimState.cpp:62-78 | a state that each of the three steps leaves as it is is left as it is by the simulation step |
| Steps.CorrectedSimulationStep | src/SimState.cpp:62-78 | with the corrected density and temperature steps, the temperature is still left as it is when the temperature option is off |
| Steps.CorrectedStepsFixedPoint | src/SimState.cpp:62-78 | a state that the velocity step and the corrected density and temperature steps leave as it is is left as it is by the corrected composition |
| StepProperties.HodgeOfZero | src/SimState.cpp:350-386 | the zero velocity field projects to zero velocity, pressure and divergence |
| StepProperties.RelaxConstant | src/SimState.cpp:254-277 | diffusion of a constant field towards the same constant keeps it |
| StepProperties.AdvectConstant | src/SimState.cpp:308-347 | advecting a constant field gives that field, whatever the velocity |
| StepProperties.RestFields | src/SimState.cpp:87-102 | the reset working buffers have the grid's size |
| StepProperties.RestSources | src/SimState.cpp:105-112 | the reset source buffers have the grid's size |
| StepProperties.VelocityAtRest | src/SimState.cpp:445-474 | the velocity step leaves a state at rest unchanged |
| StepProperties.DensityAtRest | src/SimState.cpp:421-443 | the density step as written leaves a state at rest unchanged |
| StepProperties.CorrectedDensityAtRest | src/SimState.cpp:421-443 | the corrected density step leaves a state at rest unchanged |
| StepProperties.TemperatureAtRest | src/SimState.cpp:476-494 | the temperature step as written leaves a state at rest unchanged |
| StepProperties.CorrectedTemperatureAtRest | src/SimState.cpp:476-494 | the corrected temperature step leaves a state at rest unchanged |
| StepProperties.VelocityFromRest | src/SimState.cpp:445-474 | after the reset sources are copied in, the velocity step returns the rest state |
| StepProperties.RestIsEquilibrium | src/SimState.cpp:62-78 | the reset state with reset sources is a fixed point of the simulation step as written |
| StepProperties.CorrectedRestIsEquilibrium | src/SimState.cpp:62-78 | the reset state with reset sources is a fixed point of the corrected composition too |
| StepProperties.VelocityStepBoundaries | src/SimState.cpp:445-474 | after the velocity step xVel satisfies the mode-1 and yVel the mode-2 boundary relation |
| StepProperties.DensityStepBoundaries | src/SimState.cpp:421-443 | after the density step as written dens satisfies the density mode's boundary relation |
| StepProperties.CorrectedDensityStepBoundaries | src/SimState.cpp:421-443 | after the corrected density step dens satisfies the density mode's boundary relation |
| StepProperties.TemperatureStepBoundaries | src/SimState.cpp:476-494 | after the temperature step as written temp satisfies the mode-0 boundary relation |
| StepProperties.CorrectedTemperatureStepBoundaries | src/SimState.cpp:476-494 | after the corrected temperature step temp satisfies the mode-0 boundary relation |
| StepProperties.DensityStepWithin | src/SimState.cpp:421-443 | the density step keeps dens and dens_prev inside any interval that holds the source and dens + dt * source and that the boundary mode keeps |
| StepProperties.TemperatureStepWithin | src/SimState.cpp:476-494 | the temperature step keeps temp and temp_prev inside any interval that holds the temperature and its source |
| StepProperties.StillAdvect | src/SimState.cpp:308-347 | in still air advection returns the source field with the boundary rule applied |
| StepProperties.DensityDecayIgnored | src/SimState.cpp:421-443 | as written, for every velocity field, the new density is the advection of the diffused density, whatever densDecay and tempFactor say |
| StepProperties.DensityDecayLost | src/SimState.cpp:421-443 | as written, the new density (in still air) is the diffused density with the boundary rule: decay has no effect |
| StepProperties.DensityDecayApplied | src/SimState.cpp:421-443 | corrected, the new density is the decayed diffused density with the boundary rule |
| StepProperties.TemperatureDecayIgnored | src/SimState.cpp:476-494 | as written, for every velocity field, the new temperature is the advection of the diffused temperature, whatever tempDecay says |
| StepProperties.TemperatureDecayLost | src/SimState.cpp:476-494 | as written, the new temperature (in still air) is the diffused one: cooling has no effect |
| StepProperties.TemperatureDecayApplied | src/SimState.cpp:476-494 | corrected, the new temperature is the cooled diffused temperature with the boundary rule |
| Simulation.SimState.NewFields | src/SimState.cpp:790-830 | twelve new buffers of the given size, pairwise distinct |
| Simulation.SimState.constructor | src/SimState.cpp:36-50 | a valid state with the given N and parameters, every buffer at its reset value |
| Simulation.SimState.WithDefaults | src/SimState.cpp:21-34 | a valid state with the bare parameters, every buffer at its reset value |
| Simulation.SimState.SetSources | src/SimState.cpp:52-59 | the four source pointers are replaced by the given buffers; nothing else changes |
| Simulation.SimState.SetBoundaryClosed | src/SimState.cpp:81-84 | only closedBoundaries changes |
| Simulation.SimState.ResetState | src/SimState.cpp:87-102 | all twelve buffers take their reset values: 0, and airTemp for the temperatures |
| Simulation.SimState.ResetSources | src/SimState.cpp:105-112 | the four source buffers take their reset values, the rest is unchanged |
| Simulation.SimState.ResizeGrid | src/SimState.cpp:115-129 | new N, size (N+2)^2, new buffers, all at their reset values |
| Simulation.SimState.GetDensity | src/SimState.cpp:131 | returns the density buffer |
| Simulation.SimState.GetXVelocity | src/SimState.cpp:132 | returns the x-velocity buffer |
| Simulation.SimState.GetYVelocity | src/SimState.cpp:133 | returns the y-velocity buffer |
| Simulation.SimState.GetTemperature | src/SimState.cpp:134 | returns the temperature buffer |
| Simulation.SimState.GetN | src/SimState.cpp:135 | returns N |
| Simulation.SimState.GetSize | src/SimState.cpp:136 | returns size, which is (N+2)^2 |
| Simulation.SimState.SetSource | src/SimState.cpp:184-190 | x becomes a copy of x_set |
| Simulation.SimState.SetConstantSource | src/SimState.cpp:193-199 | every one of the size cells equals the constant |
| Simulation.SimState.AddSource | src/SimState.cpp:202-208 | x becomes x + dt s, cell by cell (s may be x itself) |
| Simulation.SimState.AddHeatSource | src/SimState.cpp:211-217 | t becomes the cellwise maximum of t and s |
| Simulation.SimState.AddConstantSource | src/SimState.cpp:220-226 | x becomes x + dt s for a constant s |
| Simulation.SimState.Dissipate | src/SimState.cpp:280-291 | x becomes its dissipation towards eqVal |
| Simulation.SimState.DissipateWithFallOff | src/SimState.cpp:294-305 | x becomes its temperature-dependent dissipation, reading the temperature buffer |
| Simulation.SimState.VelocityStep | src/SimState.cpp:445-474 | the buffers end as the velocity step prescribes, under their original names after the swaps |
| Simulation.SimState.DensityStep | src/SimState.cpp:421-443 | the buffers end as the density step as written prescribes, dens being the buffer dissipated |
| Simulation.SimState.TemperatureStep | src/SimState.cpp:476-494 | the buffers end as the temperature step as written prescribes, temp being the buffer cooled |
| Simulation.SimState.SimulationStep | src/SimState.cpp:62-78 | the buffers end as the simulation step with dt = timeStep * timeScale prescribes; the source buffers are kept |
| Simulation.SimState.Diffuse | src/SimState.cpp:254-277 | x ends as solverSteps Gauss-Seidel sweeps towards x0, with SetBoundary after each; x0 is not written |
| Simulation.SimState.DiffuseSteps | src/SimState.cpp:261-276 | the k-loop yields the relaxation of the start field |
| Simulation.SimState.DiffuseStep | src/SimState.cpp:264-275 | one sweep then SetBoundary; x0 is not written |
| Simulation.SimState.DiffuseColumn | src/SimState.cpp:265-273 | the inner loop over j yields the column sweep |
| Simulation.SimState.DiffuseSweep | src/SimState.cpp:264-274 | the loop over columns yields the interior sweep |
| Simulation.SimState.DiffuseCell | src/SimState.cpp:268-272 | one cell's new value from x0 and its current neighbours |
| Simulation.SimState.Advect | src/SimState.cpp:308-347 | d ends as the semi-Lagrangian advection of d0 along (u, v); d0, u, v may alias one another |
| Simulation.SimState.AdvectCells | src/SimState.cpp:318-345 | the double loop writes every interior cell of d with its advected value |
| Simulation.SimState.TraceBack | src/SimState.cpp:322-343 | one cell's back-trace, clamp, split and interpolation |
| Simulation.SimState.HodgeProjection | src/SimState.cpp:350-386 | u, v, p and div end as the projection prescribes |
| Simulation.SimState.DivergenceLoop | src/SimState.cpp:356-362 | the divergence loop writes div and zeroes p in the interior |
| Simulation.SimState.PressureSteps | src/SimState.cpp:367-375 | the pressure loop yields the relaxation of the Poisson equation |
| Simulation.SimState.PressureStep | src/SimState.cpp:368-374 | one pressure sweep then SetBoundary |
| Simulation.SimState.PressureSweep | src/SimState.cpp:368-373 | the loop over columns yields the pressure sweep |
| Simulation.SimState.PressureColumn | src/SimState.cpp:369-372 | the inner loop over j yields the column of pressure updates |
| Simulation.SimState.PressureCell | src/SimState.cpp:370-371 | one pressure cell from div and its current neighbours |
| Simulation.SimState.GradientLoop | src/SimState.cpp:378-383 | the correction loop subtracts the pressure gradient from u and v |
| Simulation.SimState.Convect | src/SimState.cpp:389-419 | v ends as the buoyancy kick of each interior cell |
| Simulation.SimState.ConvectCells | src/SimState.cpp:395-417 | the double loop applies the kick cell by cell |
| Simulation.SimState.ForceAt | src/SimState.cpp:398-412 | one cell's buoyant force from its density and temperature |
| Simulation.SimState.SetBoundary | src/SimState.cpp:229-251 | x ends as the boundary rule of mode b applied to it |
| Simulation.SimState.SetEdgeCells | src/SimState.cpp:241-244 | one edge-loop iteration writes the four ghosts of index i |
| Simulation.SimState.SetCorners | src/SimState.cpp:247-250 | the four corner writes in source order |
| Emitters.Floor | src/SimSource.cpp:112-114 | floor gives the largest integer not above its argument, as the lower box bounds use it |
| Emitters.Ceil | src/SimSource.cpp:113-115 | ceil gives the smallest integer not below its argument, as the upper box bounds use it |
| Emitters.Round | src/SimSource.cpp:107 | rounding lands within 1/2 and keeps the sign |
| Emitters.RoundHalfAwayFromZero | src/SimSource.cpp:107 | halves round away from zero, like C++ round |
| Emitters.CenterIndex | src/SimSource.cpp:103-104 | screen -1 maps to grid 0, screen 1 to N+2, the centre to (N+2)/2 |
| Emitters.RadiusIndex | src/SimSource.cpp:111 | a nonnegative screen radius gives a nonnegative grid radius |
| Emitters.ShapeBox | src/SimSource.cpp:111-115 | the scan box is clamped to [0, N+2] on both axes |
| Emitters.ShapeIndices | src/SimSource.cpp:101-146 | the index list is never empty; for a point shape it is the one rounded centre cell |
| Emitters.ColumnScanExact | src/SimSource.cpp:119-139 | the inner loop appends exactly the indices of the cells of its column that pass the shape test |
| Emitters.BoxScanExact | src/SimSource.cpp:118-140 | the nested loops append exactly the indices of the box cells that pass the shape test |
| Emitters.ShapeIndicesExact | src/SimSource.cpp:111-145 | a non-point shape covers exactly the visited cells passing its test, or only the centre cell when none passes |
| Emitters.CircleCoverage | src/SimSource.cpp:127-131 | a circle covers a visited cell exactly when its squared distance is at most rInd^2 |
| Emitters.DiamondCoverage | src/SimSource.cpp:133-137 | a diamond covers a visited cell exactly when its Manhattan distance is at most rInd |
| Emitters.SquareCoverage | src/SimSource.cpp:118-125 | a square covers every cell of its clamped box |
| Emitters.ShapeIndicesInGrid | src/SimSource.cpp:101-146 | for a centre and radius that fit the grid every index lies in [0, (N+2)^2) |
| Emitters.ShapeIndicesCanLeaveGrid | src/SimSource.cpp:113-115 | with the clamp at N+2 a square of N = 1 at the top right corner yields an index outside the grid |
| Emitters.GasSource | src/SimSource.cpp:170-185 | a gas source covers the shape's cells at the source temperature, with no velocity |
| Emitters.GasSourceFlow | src/SimSource.cpp:181 | the per-cell density times the number of cells is the flow rate |
| Emitters.WindSource | src/SimSource.cpp:209-224 | a wind source covers one cell, adds no density or heat, no velocity at zero speed |
| Emitters.WindSourceSpeed | src/SimSource.cpp:215-216 | the wind velocity has the given speed when cos^2 + sin^2 = 1 at the angle |
| Emitters.HeatSource | src/SimSource.cpp:245-260 | a heat source covers the shape's cells at the source temperature, with no density or velocity |
| Emitters.EnergySource | src/SimSource.cpp:281-297 | an energy source covers the shape's cells, with no density or velocity |
| Emitters.EnergySourceFlux | src/SimSource.cpp:294 | (temp - referenceTemp) times 12.5 referenceDensity times the cell count is the flux |
| Emitters.BoundaryCellsAt | src/SimSource.cpp:345-350 | after i rows the loop has appended 2i indices: ind(1, j), ind(N, j) for each row j |
| Emitters.WindBoundarySource | src/SimSource.cpp:335-351 | a wind boundary pushes right at the given speed, with no density or heat and no geometry |
| Emitters.WindBoundaryCells | src/SimSource.cpp:345-350 | a wind boundary has exactly 2(N+1) cells, columns 1 and N of rows 0 .. N, all inside the grid |
| Emitters.RandomNormal | src/SimSource.cpp:444-454 | with deviation 0 the draw is exactly the mean; otherwise it is the oracle's sample |
| Deposits.DepositIndicesAdds | src/SimSource.cpp:36-41 | one source's pass adds its amount to each cell once per occurrence of the cell in its index list |
| Deposits.DepositAdds | src/SimSource.cpp:27-44 | after the list is flattened each cell holds its start value plus the sum of contributions over all occurrences |
| Deposits.DepositIndicesHeats | src/SimSource.cpp:41 | one source's pass raises each covered cell's temperature to at least the source's |
| Deposits.DepositHeats | src/SimSource.cpp:27-44 | each cell ends at the maximum of its start temperature and the covering sources' temperatures |
| Deposits.TotalUncovered | src/SimSource.cpp:27-44 | a cell no source covers receives nothing |
| Deposits.DepositUncovered | src/SimSource.cpp:27-44 | a cell no source covers keeps its reset values |
| Deposits.DynamicWithoutDynamicSources | src/SimSource.cpp:47-98 | with no dynamic sources the dynamic update equals the plain update, whatever the draws |
| Deposits.DynamicCellWithoutDeviation | src/SimSource.cpp:62-82 | a gas, heat or energy source with zero deviations contributes as in the plain update |
| Deposits.DynamicIndicesWithoutDeviation | src/SimSource.cpp:58-85 | the same over a whole index list |
| SourceList.Without | src/SimSource.cpp:359 | removal keeps the elements before position i and shifts those after it by one |
| SourceList.WithoutKeepsIndices | src/SimSource.cpp:359 | removing a source keeps every remaining index inside the grid |
| SourceList.AppendKeepsIndices | src/SimSource.cpp:155 | appending a source inside the grid keeps every index inside the grid |
| SourceList.FirstBoundary | src/SimSource.cpp:303-308 | the position found is a wind boundary with none before it, or the end of the list |
| SourceList.BoundaryCountZero | src/SimSource.cpp:303-308 | the count of wind boundaries is zero exactly when none is in the list |
| SourceList.WithoutBoundary | src/SimSource.cpp:305 | removing a wind boundary lowers the count by one |
| SourceList.ToggledCount | src/SimSource.cpp:300-313 | the toggle removes one wind boundary when there is one and adds one when there is none, so at most one ever exists |
| SourceList.ToggledKeepsIndices | src/SimSource.cpp:300-313 | the toggle keeps every index inside the grid |
| SourceList.FirstHit | src/SimSource.cpp:371-413 | the position found is hit by the point and no source before it is, or it is the end of the list |
| SourceList.RemovedAt | src/SimSource.cpp:368-414 | at most one source is removed |
| SourceList.HitAtCenter | src/SimSource.cpp:378-410 | a source's own centre hits a square or diamond iff radius + dist > 0, a circle or point iff it is nonzero |
| SourceList.HitsGrow | src/SimSource.cpp:378-410 | a larger search distance hits whatever a smaller nonnegative reach hits |
| SourceList.BoundaryNeverHit | src/SimSource.cpp:374 | a wind boundary is never removed by a point |
| SourceManager.ScanColumn | src/SimSource.cpp:120-139 | the inner loop appends the column's passing cells in row order |
| SourceManager.SetIndices | src/SimSource.cpp:101-146 | the method builds exactly the rasterised index list |
| SourceManager.NewGasSource | src/SimSource.cpp:170-185 | the constructor builds the gas source value |
| SourceManager.NewWindSource | src/SimSource.cpp:209-224 | the constructor builds the wind source value |
| SourceManager.NewHeatSource | src/SimSource.cpp:245-260 | the constructor builds the heat source value |
| SourceManager.NewEnergySource | src/SimSource.cpp:281-297 | the constructor builds the energy source value |
| SourceManager.NewWindBoundary | src/SimSource.cpp:335-351 | the constructor's loop builds the wind boundary value |
| SourceManager.DepositSource | src/SimSource.cpp:36-41 | one source's loop over its indices updates the four buffers as the fold prescribes |
| SourceManager.DynamicStep | src/SimSource.cpp:62-82 | one index of the dynamic switch |
| SourceManager.DepositSourceDynamic | src/SimSource.cpp:58-83 | one dynamic source's loop over its indices |
| SourceManager.SimSource.constructor | src/SimSource.cpp:14-24 | the manager shares the simulation's four source buffers and starts with an empty list |
| SourceManager.SimSource.UpdateSources | src/SimSource.cpp:27-44 | the source buffers end as the reset values with every source deposited, in list order |
| SourceManager.SimSource.UpdateSourcesDynamic | src/SimSource.cpp:47-98 | the source buffers end as the reset values with every source deposited, dynamic ones with their draws |
| SourceManager.SimSource.CreateGasSource | src/SimSource.cpp:151-156 | appends exactly one gas source; indices stay inside the grid |
| SourceManager.SimSource.CreateGasSourceDynamic | src/SimSource.cpp:159-167 | appends exactly one dynamic gas source with its deviations |
| SourceManager.SimSource.CreateWindSource | src/SimSource.cpp:188-193 | appends exactly one wind source |
| SourceManager.SimSource.CreateWindSourceDynamic | src/SimSource.cpp:196-206 | appends exactly one dynamic wind source with its means and deviations |
| SourceManager.SimSource.CreateHeatSource | src/SimSource.cpp:227-232 | appends exactly one heat source |
| SourceManager.SimSource.CreateHeatSourceDynamic | src/SimSource.cpp:235-242 | appends exactly one dynamic heat source |
| SourceManager.SimSource.CreateEnergySource | src/SimSource.cpp:263-268 | appends exactly one energy source |
| SourceManager.SimSource.CreateEnergySourceDynamic | src/SimSource.cpp:271-278 | appends exactly one dynamic energy source |
| SourceManager.SimSource.RemoveSource | src/SimSource.cpp:356-365 | the source at the position is removed, the rest kept in order, and the buffers are rebuilt from the new list |
| SourceManager.SimSource.CreateWindBoundary | src/SimSource.cpp:300-313 | the first wind boundary is removed (buffers rebuilt) if there is one, else one is appended |
| SourceManager.SimSource.CreateWindBoundaryDynamic | src/SimSource.cpp:316-332 | the same toggle, appending a dynamic wind boundary |
| SourceManager.SimSource.RemoveSourceAtPoint | src/SimSource.cpp:368-414 | the first source hit (strict tests, reach radius + dist) is removed and the buffers rebuilt; with no hit nothing changes |
| SourceManager.SimSource.RemoveAllSources | src/SimSource.cpp:417-426 | the list ends empty and the source buffers at their reset values |
| SourceManager.SimSource.Reset | src/SimSource.cpp:429-439 | the list ends empty and the manager is relinked to the simulation's current source buffers |
| StateLoader.StringToShape | src/StateLoader.cpp:240-249 | a listed shape name maps to its shape; any other string maps to point |
| StateLoader.StringToType | src/StateLoader.cpp:252-263 | a listed type name maps to its type; any other string maps to gas |
| StateLoader.ShapeRoundTrip | src/StateLoader.cpp:240-249 | each shape's name parses back to it, and distinct shapes have distinct names |
| StateLoader.KindRoundTrip | src/StateLoader.cpp:252-263 | each type's name parses back to it, and distinct types have distinct names |
| StateLoader.Defaults | src/StateLoader.cpp:247-262 | an unlisted name, the empty string included, gives point and gas |
| StateLoader.Created | src/StateLoader.cpp:115-175 | an entry creates a source of its parsed type, dynamic exactly when the entry says so |
| StateLoader.CreatedAll | src/StateLoader.cpp:112-177 | one created source per entry, in entry order |
| StateLoader.LoadedAppends | src/StateLoader.cpp:112-177 | without wind-boundary entries the loader appends the created sources in entry order |
| StateLoader.LoadedAtMostOneBoundary | src/StateLoader.cpp:112-177 | starting with at most one wind boundary the loaded list has at most one |
| StateLoader.LoadEntry | src/StateLoader.cpp:115-176 | one entry makes exactly its create call (a wind boundary toggles); the source buffers are rebuilt from the new list when a wind boundary is removed and are unchanged otherwise |
| StateLoader.LoadSources | src/StateLoader.cpp:106-181 | the entries are applied in order, then the source buffers are rebuilt once by the dynamic update |
| Prototype.AddSource | FluidSim.cpp:30-36 | every cell of the (N+2)^2 becomes x + dt s |
| Prototype.DisplayGrid | FluidSim.cpp:38-55 | the lines are exactly the columns 1 .. N-1, each drawn cell by cell along the row index |
| Prototype.CellsAt | FluidSim.cpp:45-50 | each drawn cell is its mark ('x' above 0.5) followed by a space |
| Prototype.LinesCount | FluidSim.cpp:42-54 | N-1 lines (none for N <= 1), line i drawing column i |
| Prototype.LineShape | FluidSim.cpp:43-53 | every line has 2N+1 characters: "| ", a mark and a space per row index 1 .. N-1, then "|" |
| Prototype.LinesIgnoreBorder | FluidSim.cpp:42-44 | cells with either index N (and the ghost ring) never affect the drawing |
| Prototype.CellsIgnoreBorder | FluidSim.cpp:44 | cells with row index N and beyond never affect a line |

## Left out

- Wall clock, frame timing, OpenGL/GLFW, the render and recording loops and
  BMP output: these are outside the simulator's logic.
- JSON and file I/O: `LoadState`, `LoadParams`, `LoadParameters`,
  `LoadWindow` and `LoadRecord`. The loader is modelled from the parsed
  source records onwards (a record type `Entry`). Missing keys (the JSON
  library throws) are not modelled.
- The GUI slider tables `FloatPointer`, `FloatName`, `FloatTip`,
  `FloatMin` and `FloatMax`: metadata for the interface.
- Memory management: `new`/`delete`, `ClearFields` and the discarded
  temporary of the bare `SimFields()` constructor. Buffers are fresh arrays.
  A resize allocates new ones.
- Pointer identity of sources: the model's list holds source values, and
  removal is by position.
- The main program of `FluidSim.cpp`: a driver that sets cells
  1 .. (N+2)^2-1 of a source buffer to 0 and cell (5, 5) to 1, leaving
  cell 0 unset (it is never drawn), and prints the buffer with
  `displayGrid`. Printing is outside the model; `displayGrid` is modelled
  with its lines returned.
- IEEE float behaviour: rounding, infinities, NaN and `float` width. Every
  division the source performs on an unchecked value becomes a
  precondition.
- `sqrt`, `cos` and `sin` are function parameters. Only the facts the
  lemmas state about them (`sqrt(1) = 1`, `cos^2 + sin^2 = 1`) are assumed,
  as preconditions of those lemmas.
- Random sampling: the normal distribution of `RandomNormal` is an oracle
  `sample(i, m, d)` for source i, cell position m and draw d. Its
  distribution is not modelled.
- Numerical claims such as mass conservation, convergence of the sweeps and
  the reduction of divergence by the projection: these depend on analysis
  beyond exact facts. The model proves the maximum principle, fixed points
  and boundary relations instead.
- Emitters.ShapeIndices: the model requires `FitsGrid` wherever indices are
  written into the buffers, because with the box clamp at N+2 and the
  rounded point centre an index can leave the grid. The source writes out
  of bounds there (see `Emitters.ShapeIndicesCanLeaveGrid`).
- SourceManager.SimSource.RemoveSource: requires a list that keeps every
  index inside the grid and a manager still linked to the simulation's
  buffers. After `ResizeGrid`, until `Reset`, the source writes through
  stale pointers.
- SourceManager.SimSource.CreateGasSource (and the other create methods):
  as in the source, they do not rebuild the buffers. The model states only
  the new list.
- The `lengthScale` argument of the source constructors is unused in the
  source, and the model drops it.
- The wind-boundary test at `src/SimSource.cpp:374` never matches in the
  source. The model skips sources without a geometry instead, which covers
  exactly the wind boundaries.
- Physics.MixedTemperature: states the two exact cases (no gas, gas at air
  temperature) rather than the formula, which is the body.
- Physics.MixedDensity, Physics.AdjustedMassDiffusivity,
  Physics.AdjustedViscosity, Physics.AdjustedThermalDiffusivity: each
  states the case it reduces to a constant. The advanced formulas are
  characterised only at air temperature, by
  `Physics.CoefficientsAtAirTemperature`, since `sqrt` is a parameter.
- Physics.BuoyantForce: states the no-gas and zero-density cases only.
  Elsewhere the force is (density - airDens) / density, its body.
- Relaxation.StencilOK, Steps.StepDomain, Physics.CoefficientOK: the model
  assumes a nonnegative time step, diffusion rate and coefficient, where
  the source divides only by 1 + 4 a_t. The GUI minimums
  (`src/SimState.cpp:729-757`) keep `timeScale` at or above 0 and `visc`,
  `diff` and `diffTemp` at or above 0.000001; the caller's `timeStep` is
  taken to be nonnegative, and a file loaded by `LoadParams` is not
  checked. With these signs the sweep is a convex combination, which the
  range and fixed-point lemmas use.
- Steps.SimulationStep: states the frame and the temperature option. The
  rest of its meaning is the composition of the step functions, proved
  through `StepProperties`.

## Findings

| source | as written | input that shows it | evidently intended | confidence | as-written member | corrected member |
|---|---|---|---|---|---|---|
| src/SimState.cpp:431-441 | after the diffused density is swapped into `dens_prev`, `Dissipate`/`DissipateWithFallOff` write `dens`, which `Advect` then overwrites entirely from `dens_prev`; the decay is lost | any state in still air with `densDecay > 0` and a density differing from 0: the new density is the undecayed diffused density (for any velocity it does not depend on `densDecay`, see `StepProperties.DensityDecayIgnored`) | dissipate the diffused density (`dens_prev`) before it is advected | not executed | StepProperties.DensityDecayLost | StepProperties.DensityDecayApplied |
| src/SimState.cpp:487-492 | `Dissipate` cools `temp`, which `Advect` then overwrites entirely from `temp_prev`; the cooling is lost | any state in still air with `tempDecay > 0` and a temperature differing from `airTemp`: the new temperature is the uncooled diffused one (for any velocity it does not depend on `tempDecay`, see `StepProperties.TemperatureDecayIgnored`) | cool the diffused temperature (`temp_prev`) before it is advected | not executed | StepProperties.TemperatureDecayLost | StepProperties.TemperatureDecayApplied |
