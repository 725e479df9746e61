# partikl core in Dafny

A model of the simulation core of partikl, a particle-life simulator: point
particles of several interaction types move on a toroidal plane, pushed and
pulled by type-dependent pair forces.

The model covers one tick of the simulation:

- the force pass, which folds a pair rule over each particle's candidate
  neighbours and merges the per-particle sums into the acceleration
  accumulators;
- the friction pass, which snaps slow particles to rest or applies
  quadratic drag;
- the position-Verlet update;
- the wrap of positions back into the simulation region;
- the `Paused` early exit of every pass.

It also covers the validation and random generation of the interaction
specification, the N x N coefficient matrix.

`f32` arithmetic is modelled by exact `real` arithmetic. The square root is a
parameter `sqrt: real -> real`, and every property that needs it assumes
`IsSqrt(sqrt)`: for each non-negative input, `sqrt` returns a non-negative
number whose square is that input. Particle entities are indices into a
`seq<Particle>`. The spatial index that proposes neighbours is replaced by an
input list of candidate handles per particle. The order in which the worker
queues reach the merge is an input `order`.

Modules:

- `Vec2s` (`vec2.dfy`): 2-D real vectors. Every product goes through `Mul`,
  which carries its sign rules.
- `Core` (`core.dfy`): constants, the particle record, the region, and the
  wrap arithmetic.
- `Kernel` (`kernel.dfy`): the tent kernel.
- `Loading` (`loading.dfy`): specification validation and generation.
- `Forces` (`forces.dfy`): the pair rule, the per-particle fold, and the merge.
- `Integration` (`integration.dfy`): friction, Verlet, wrap, and the tick.

Facts about the code that shape the model:

- The region is the closed box `[-h, h]`: `src/core.rs:48-58` compares with
  `>` and `<`, so a coordinate equal to a half-extent is not moved.
- The corrected delta is guaranteed to lie within the half-extents when both
  points are inside the region; `Core.CorrectedDeltaIsShortest` states it
  that way.
- The coefficient that acts on a particle of type `s` near a particle of
  type `o` is `interactions[o].force_coeffs[s]` (`src/sim.rs:49`).
- The repulsion magnitude `1000 - 100 d` falls below 500 for `d > 5`,
  while the kernel reaches the full coefficient, up to 500 in size for
  generated specifications, at distance 30. So the model states no bound of
  repulsion over attraction.
- The order force, friction, integrate, wrap within a tick is assumed;
  `simulation_stage` is not part of this model.

## Model

| member | source | states |
|---|---|---|
| Core.NewRegion | src/core.rs:37-39 | the region stores half of the width and height; it is valid exactly when both are non-negative, and then contains the origin |
| Core.AdjustmentFoldsOnce | src/core.rs:46-59 | each axis of the adjustment is 0 or plus/minus twice the half-extent, and a coordinate within three half-extents is brought into `[-h, h]` by one adjustment |
| Core.AdjustmentAxesIndependent | src/core.rs:48-58 | each axis of the adjustment depends only on that axis's coordinate |
| Core.AdjustmentZeroIffInside | src/core.rs:46-59 | with positive half-extents, the adjustment is zero exactly for points in the closed box, and its sign on each axis points back into the box |
| Core.AxisAdjustmentSign | src/core.rs:48-52 | on one axis the shift is positive exactly below `-h` and negative exactly above `h` |
| Core.AxisAdjustmentOdd | src/core.rs:48-52 | reflecting a coordinate reflects its shift |
| Core.AdjustmentOdd | src/core.rs:46-59 | the adjustment of a reflected point is the reflected adjustment |
| Core.WrapAroundAdjustment | src/core.rs:46-59 | a point inside the box receives no adjustment |
| Core.CorrectedDeltaIsShortest | src/core.rs:41-44 | the corrected delta differs from the raw delta by 0 or a full extent per axis, so it joins the same torus points; for two points in the region it lies within the half-extents |
| Core.CorrectedDeltaAntisymmetric | src/core.rs:41-59 | swapping origin and target negates the corrected delta |
| Core.CorrectedDeltaToSelf | src/core.rs:41-44 | a point is at corrected delta zero from itself |
| Core.OppositeEdgesCoincide | src/core.rs:41-59 | a point on one edge of the box is at corrected delta zero from its mirror on the opposite edge |
| Core.CorrectedPositionDelta | src/core.rs:41-44 | the raw difference folded once per axis; its properties are stated by Core.CorrectedDeltaIsShortest, Core.CorrectedDeltaAntisymmetric, Core.CorrectedDeltaToSelf and Core.OppositeEdgesCoincide |
| Core.CorrectedDeltaAcrossSeam | src/core.rs:41-44 | in a region 100 wide, from x = 49 to x = -49 the corrected delta is (2, 0), not (-98, 0) |
| Kernel.UnitTriangle | src/sim.rs:101-103 | the unit tent lies in [0, 1]; it is 1 exactly at 0 and 0 exactly when the absolute value of x is at least 1 |
| Kernel.TriangularKernel | src/sim.rs:97-99 | the tent of height `magnitude`, centred on `middle`, of half-width `width`; its properties are stated by Kernel.KernelLinearFlanks, Kernel.KernelPeak, Kernel.KernelVanishesOutside, Kernel.KernelSymmetric, Kernel.KernelBounded and Kernel.KernelRisesToPeak |
| Kernel.KernelLinearFlanks | src/sim.rs:97-103 | between each foot and the centre the kernel is the straight line from 0 to its magnitude |
| Kernel.KernelPeak | src/sim.rs:97-99 | the kernel equals its magnitude at the centre |
| Kernel.KernelVanishesOutside | src/sim.rs:97-99 | with positive width, the kernel is 0 at centre plus or minus width and beyond |
| Kernel.KernelSymmetric | src/sim.rs:97-99 | the kernel is symmetric about its centre |
| Kernel.KernelBounded | src/sim.rs:97-99 | the kernel's absolute value never exceeds the magnitude's |
| Kernel.KernelRisesToPeak | src/sim.rs:97-103 | a non-negative kernel increases monotonically from the left foot to the centre |
| Loading.ValidateSingleInteraction | src/loading.rs:63-76 | a row passes exactly when its length equals the row count; a failure records both counts |
| Loading.FoldAnd | src/loading.rs:51-54 | the `and`-fold from `Ok` passes exactly when every check passes, and otherwise yields the earliest failure |
| Loading.ValidateInteractionList | src/loading.rs:47-61 | the list is accepted exactly when it is square, and then unchanged; on rejection the error names the first malformed row's length and the row count |
| Loading.EmptyListIsValid | src/loading.rs:47-61 | the empty list is accepted |
| Loading.Coefficient | src/loading.rs:94 | a draw in [0, 1) gives a coefficient in [-500, 500) |
| Loading.GenerateSingleInteraction | src/loading.rs:91-97 | a generated row has `typeCount` coefficients, all in [-500, 500) when the draws are in [0, 1) |
| Loading.GenerateParticleSpec | src/loading.rs:78-89 | the generated spec has `typeCount` rows, passes validation unchanged, reads the draws row after row, and keeps every coefficient in range |
| Forces.PairForceAsWritten | src/sim.rs:30-40 | a particle exerts nothing on itself, and a pair beyond squared distance 1600 contributes nothing |
| Forces.PairForce | src/sim.rs:30-40 | the guarded rule: no self-force and nothing beyond the cutoff |
| Forces.PairRule | src/sim.rs:36-54 | the rule for a distinct pair: nothing beyond the cutoff, NaN at distance 0, repulsion below 10, the kernel otherwise; its properties are stated by Forces.PairRuleRepulsion and Forces.PairRuleKernel |
| Forces.PairRuleRepulsion | src/sim.rs:41-46 | below distance 10 the rule is `-(1000 - 100 d)` times the unit delta, with positive size, pointing away from the other particle |
| Forces.PairRuleKernel | src/sim.rs:47-54 | from distance 10 to the cutoff, d is at most 40 and the rule is the tent kernel times the unit delta, bounded by the coefficient and zero at d = 20 and d = 40 |
| Forces.PairForceRepulsion | src/sim.rs:41-46 | below the safety distance a distinct pair repels with size `1000 - 100 d` and a negative dot product with the delta |
| Forces.RepulsionIgnoresSpec | src/sim.rs:43-46 | below the safety distance the interaction coefficients are not consulted |
| Forces.PairForceKernel | src/sim.rs:47-54 | from 10 to 40 the contribution is the kernel of the other row's coefficient for this type, centred at 30 with half-width 10, times the unit delta; it is zero at 20 and 40 |
| Forces.PairForceAtPeak | src/sim.rs:47-54 | at distance 30 a pair acts with the full coefficient along the unit vector towards the other particle |
| Forces.CoincidentPairAtZeroDistance | src/sim.rs:33-36 | two particles at the same position have corrected delta zero |
| Forces.CoincidentPairIsUndefinedAsWritten | src/sim.rs:41-46 | two distinct particles at the same position give `delta / distance` at distance 0, which has no value |
| Forces.PairForceGuardsCoincidence | src/sim.rs:30-54 | the guarded rule gives zero at zero delta, agrees with the source wherever the source's value exists, and the source has no value exactly for distinct particles at zero delta |
| Forces.SumOverSkipsZeros | src/sim.rs:24-57 | dropping handles whose contribution is zero leaves the fold's sum unchanged |
| Forces.OutOfRangeContributesNothing | src/sim.rs:30-40 | a handle that is the particle itself, or beyond the cutoff, contributes zero to its sum |
| Forces.ForceOn | src/sim.rs:24-57 | one particle's neighbour fold with the guarded pair rule; its properties are stated by Forces.ForceOnOnlyInRange and Forces.ScheduledQueueSums |
| Forces.ForceOnOnlyInRange | src/sim.rs:24-57 | a particle's sum equals the sum over just the other particles within the cutoff |
| Forces.Filter | src/sim.rs:24-57 | the filtered list holds each accepted handle as many times as the original list does, and no other handle |
| Forces.SumForDistinct | src/sim.rs:62-66 | with distinct handles in the queue, a queued handle receives exactly its own entry |
| Forces.SumForAbsent | src/sim.rs:62-66 | a handle that is not queued receives nothing |
| Forces.Merge | src/sim.rs:62-66 | the merge adds each handle's queued sum to that particle's accumulator, and changes nothing else |
| Forces.ScheduledQueueSums | src/sim.rs:18-66 | whatever order the worker queues are flushed in, each particle's queued sum is its own neighbour fold |
| Forces.ComputeForces | src/sim.rs:8-67 | while paused nothing changes; while running each accumulator gains its own neighbour sum exactly once, and positions, histories and types are untouched |
| Integration.FrictionStep | src/sim.rs:76-84 | friction never moves a particle or changes its type; below the rest threshold it zeroes the displacement and keeps the acceleration; above it, it keeps the history |
| Integration.DragIsScaledVelocity | src/sim.rs:81-82 | above the threshold friction subtracts `k v` with `k = 0.01 * length(v)` positive |
| Integration.FrictionOpposesMotion | src/sim.rs:81-82 | above the threshold the drag points against the velocity |
| Integration.FrictionIsQuadratic | src/sim.rs:81-82 | above the threshold the drag has size `0.01 * length(v)^2` |
| Integration.FrictionSparesResting | src/sim.rs:77-79 | a particle whose history equals its position is left alone |
| Integration.FrictionRestIsFixedPoint | src/sim.rs:77-79 | friction applied to a particle it has just snapped to rest changes nothing more |
| Integration.IntegrateStep | src/sim.rs:112-118 | the old position becomes the history, the accumulator is cleared, and the displacement grows by `acc * dt^2` |
| Integration.IntegrateInertia | src/sim.rs:112-118 | with zero acceleration the displacement is preserved |
| Integration.IntegrateFromRest | src/sim.rs:112-118 | from rest a particle moves by exactly `acc * dt^2` |
| Integration.IntegrateReversible | src/sim.rs:112-118 | the dropped history is recovered from the new state and the applied acceleration |
| Integration.WrapStep | src/sim.rs:129-134 | wrapping moves the position by 0 or a full extent on each axis, so the particle stays at the same torus point; it preserves the displacement, acceleration and type, and leaves a particle inside the box unchanged |
| Integration.WrapBringsInside | src/sim.rs:129-134 | a particle within three half-extents lands inside the box, and a second wrap changes nothing |
| Integration.ComputeFriction | src/sim.rs:69-85 | while paused nothing changes; while running every particle gets its own friction step |
| Integration.Integrate | src/sim.rs:105-119 | while paused nothing changes; while running every particle gets its own Verlet step |
| Integration.WrapAround | src/sim.rs:121-139 | while paused nothing changes and the index gets no moves; while running every particle is wrapped, and the index is asked to move it from its history position to its new position |
| Integration.Tick | src/sim.rs:8-139 | types are kept; paused, the tick is the identity with no index moves; running, every accumulator ends cleared and each particle is moved in the index from its position at the start of the tick |
| Integration.TickIsPerParticle | src/sim.rs:8-139 | a running tick applies to each particle the force sum, then friction, then Verlet, then the wrap, independently of the others |
| Integration.RestingParticleMovesByForce | src/sim.rs:76-118 | a resting particle with a clear accumulator that receives a force gets no drag and moves by exactly that force times `dt^2` |
| Integration.RestingParticleTick | src/sim.rs:8-139 | over a whole running tick, a resting particle moves by its neighbour sum times `dt^2` and is then wrapped |
| Integration.Run | src/sim.rs:8-139 | a run of ticks keeps the number of particles and their types |
| Integration.PausedRunIsIdentity | src/sim.rs:15-17 | any number of paused ticks leaves every particle unchanged |

## Left out

- The spatial index (`get_entities_by_position`, `move_entity`, insertion) is not part of this model. Its implementation is not among the modelled files. Neighbour candidates are an input list per particle. The index moves requested by the wrap pass are returned as `Relocation` values.
- Bevy ECS queries, `Parallel` worker-local queues and parallel iteration are concurrency. The workers' output is modelled as one queue of `(handle, acceleration)` entries in an arbitrary order that covers each particle once, merged sequentially.
- IEEE-754 `f32` rounding, overflow and NaN propagation are left out. The pair rule as written, `Forces.PairForceAsWritten`, does return NaN at distance zero, but nothing downstream of it propagates NaN. This includes the cast `DELTA_TIME as f32` and the product `(DELTA_TIME * DELTA_TIME) as f32`, which are exact reals here.
- `sqrt` and `length` are not computed. They are a parameter that is assumed, where needed, to be an exact square root.
- The random number generator is replaced by a sequence of draws. Coefficient: the range [-500, 500) is proved for exact reals; the same bound under `f32` rounding is not proved here.
- `get_particle_spec` (file I/O, RON serialisation, timestamped dump, rng seeding) and the `Display` text of the error are I/O and formatting.
- `update_shape`, `scale_from_velocity`, `rotation_from_velocity` and `select_on_click` are presentation and UI. The unused `zigzag_kernel` and `unit_zigzag` are dead code.
- The tent kernel with width 0 divides by zero; `TriangularKernel` requires a non-zero width. The simulator only uses width 10.
- Forces.ComputeForces: the force pass, and so `Forces.ForceOn`, `Integration.Tick` and `Integration.Run`, use the guarded pair rule `Forces.PairForce`, so for two distinct particles at corrected delta zero they add a finite sum where the code adds NaN.
- The system schedule that orders the passes within a tick, and the user input that toggles `Paused`, are not modelled. A run has one fixed state.

## Findings

| source | as written | input that shows it | evidently intended | confidence | as-written member | corrected member |
|---|---|---|---|---|---|---|
| src/sim.rs:41-46 | `delta / distance` is computed for every distinct pair within the cutoff, including a pair at distance 0 | two distinct particles at the same position, or at `x = hw` and `x = -hw` with the same `y` (both inside the closed box, see Core.OppositeEdgesCoincide): the corrected delta is (0, 0), `distance` is 0, and `0 / 0` is NaN, which the repulsion branch adds to the particle's acceleration and then to its position | a coincident pair contributes nothing (or is pushed apart in a fixed direction) instead of poisoning the particle's state with NaN | medium, not executed | Forces.CoincidentPairIsUndefinedAsWritten | Forces.PairForceGuardsCoincidence |
