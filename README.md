# Potential grid: a verified model

This project models `PotentialGrid`, a finite-difference solver for the
electric potential in a two-dimensional region. The region is measured in
millimetres. It is sampled on a mesh of points at `granularity` divisions per
millimetre. Each point holds a voltage and a lock flag ("fixed"). Lines and
rectangles of fixed voltage are stamped onto the mesh. An initial guess is
written to every free point. Successive over-relaxation (SOR) sweeps then run
until the largest change of a sweep is at most `epsilon`. The solver keeps a
diagnostics log of its runs.

The model has four modules:

- `Points` (points.dfy): the point datatype, its guarded setter, and the
  unlock/set/relock bracket.
- `Meshes` (mesh.dfy): the mesh as a value, the size formula, the
  millimetre-to-index conversion, and the cells that a line or a rectangle
  covers.
- `Relaxation` (relaxation.dfy): the pure specification of one sweep. `Pre`
  is the sweep's state just before it visits a point. `Sweep` is a whole
  pass. `Relaxations` is the solver after `n` passes, and `SweepsRun` is the
  number of passes the solver performs. The lemmas cover:
  - which points a sweep writes, and which neighbour values each update reads;
  - that fixed points, lock flags and the border are kept;
  - the meaning of the max-change tracker;
  - what the solver does on a mesh that is already solved.
- `Grid` (grid.dfy): class `PotentialGrid`. It holds the points in an
  `array2<PotentialPoint>` and updates them in place, as the source does. Its
  loops are proved against the `Meshes` and `Relaxation` specifications. The
  log is a sequence of structured records.

Voltages are `real`. Each Java point object belongs to exactly one mesh cell
and is never shared between cells. Modelling points as values stored in the
array is therefore exact.

## Model

| member | source | states |
|---|---|---|
| Points.PotentialPoint.SetVoltage | src/PotentialGrid.java:74-80 | A fixed point is returned unchanged. A free point takes the new voltage. The lock flag never changes. |
| Points.PotentialPoint.SetFixed | src/PotentialGrid.java:82-85 | Only the lock flag changes, to the given value; the voltage is kept. |
| Points.PotentialPoint.Fix | src/PotentialGrid.java:171-173 | The unlock/set/relock bracket leaves any point, fixed or free, fixed at the new voltage, so the last writer wins. |
| Meshes.MeshSize | src/PotentialGrid.java:111-113 | `(dim+1)*g - g + 1` equals `dim*g + 1`, and is at least 1 for non-negative arguments. |
| Meshes.ToMeshRoundTrip | src/PotentialGrid.java:153-154 | The mesh index `mm*g` is a multiple of `g`. Integer division of it by `g` gives back `mm`. |
| Meshes.SpanIsWholeMillimetres | src/PotentialGrid.java:201-208 | A mesh index lies in the rectangle's span if and only if its whole millimetre is one of `start .. start+extent`. |
| Grid.PotentialGrid.constructor | src/PotentialGrid.java:106-123 | The mesh has `dimY*g+1` rows and `dimX*g+1` columns. Every point is at 0 V and free. The log holds the creation record. |
| Grid.PotentialGrid.NumberOfRows | src/PotentialGrid.java:126-129 | Returns `heightMM*g + 1`. |
| Grid.PotentialGrid.NumberOfColumns | src/PotentialGrid.java:132-135 | Returns `widthMM*g + 1`, the length of every row. |
| Grid.PotentialGrid.SetFixedLine | src/PotentialGrid.java:151-182 | Exactly the `size` cells of the line are fixed at the voltage: rows `[y0, y0+size)` of column `x0` when vertical, columns `[x0, x0+size)` of row `y0` when horizontal, with `x0 = startX*g` and `y0 = startY*g`. Every other cell is unchanged. |
| Grid.PotentialGrid.SetFixedRectangle | src/PotentialGrid.java:199-215 | Every cell with row in `[startY*g, startY*g+(height+1)*g)` and column in `[startX*g, startX*g+(width+1)*g)` is fixed at the voltage, even if it was fixed before. Every other cell is unchanged. |
| Grid.PotentialGrid.SetGuess | src/PotentialGrid.java:219-228 | Every free point takes the guess. Every fixed point keeps its voltage. No flag changes. |
| Grid.PotentialGrid.RelaxationSweep | src/PotentialGrid.java:258-288 | After the in-place sweep, the array holds `Sweep`'s mesh, and the returned change and location are `Sweep`'s tracker. |
| Grid.PotentialGrid.RelaxRow | src/PotentialGrid.java:262-287 | The column loop carries the array and the tracker from `Pre` at the start of a row to `Pre` at the start of the next row. |
| Grid.PotentialGrid.StencilIsStep | src/PotentialGrid.java:264-286 | The update computed from the array's neighbours, and the tracker's strict `>` update, agree with `Step` on the represented mesh. Only that point is written. |
| Grid.PotentialGrid.CalculateSolution | src/PotentialGrid.java:241-303 | The number of sweeps is the first `n` with `maxChange <= epsilon`. The change starts at the sentinel 1, so `epsilon >= 1` runs no sweep. The array holds the mesh after `n` sweeps. The log gains the start record, one record per sweep and the summary. |
| Grid.PotentialGrid.Snapshot | src/PotentialGrid.java:306-323 | Rows come out in reverse storage order (the last row first), and each row's voltages in column order. |
| Grid.IterationLogRecords | src/PotentialGrid.java:291-297 | Log record `k` describes sweep `k+1`: its number, its largest change, and the location as a mesh index and in millimetres. |
| Relaxation.Abs | src/PotentialGrid.java:278 | The result is non-negative and equals `x` or `-x`. |
| Relaxation.Stencil | src/PotentialGrid.java:264-275 | The SOR update goes through the guarded setter: the lock flag is kept, and a fixed point is unchanged. |
| Relaxation.StencilUnitAcceleration | src/PotentialGrid.java:267-275 | With acceleration 1, a free point becomes the average of its four neighbours. |
| Relaxation.StencilBalancedPoint | src/PotentialGrid.java:267-275 | A point that already equals its neighbours' average is unchanged, whatever the acceleration. |
| Relaxation.StepWrites | src/PotentialGrid.java:264-286 | One visit writes the relaxed point at `(r, c)` and nothing else. The tracker moves to `(r, c)` exactly when the change there is strictly larger than the maximum so far. |
| Relaxation.PreStepFrame | src/PotentialGrid.java:262-275 | Advancing the column counter writes only the point just visited. |
| Relaxation.PreFrame | src/PotentialGrid.java:260-288 | Between two positions of one sweep, only the interior points visited in between can change. |
| Relaxation.PreUnvisited | src/PotentialGrid.java:260-275 | A point not yet visited still holds its value from before the sweep. |
| Relaxation.PreVisited | src/PotentialGrid.java:260-275 | A visited point already holds its final value for this sweep. |
| Relaxation.NeighboursAtUpdate | src/PotentialGrid.java:264-275 | When `(r, c)` is updated, its up and left neighbours hold this sweep's values, and its down and right neighbours and the point itself hold the values from before the sweep. |
| Relaxation.SweepWritesOnce | src/PotentialGrid.java:260-275 | Each interior point's final value is the stencil applied to the mesh as the sweep saw it at that point. |
| Relaxation.SweepGaussSeidel | src/PotentialGrid.java:260-275 | Closed form of a sweep at each interior point: the stencil of the old point, the new up and left voltages, and the old down and right voltages. |
| Relaxation.SweepKeepsBorder | src/PotentialGrid.java:260-262 | Row 0, the last row, column 0 and the last column are never written. |
| Relaxation.SweepKeepsFixedPoints | src/PotentialGrid.java:266-275 | A fixed point is never changed by a sweep. |
| Relaxation.SweepKeepsFlags | src/PotentialGrid.java:267-275 | No lock flag is changed by a sweep. |
| Relaxation.PreTracker | src/PotentialGrid.java:278-286 | Partway through a sweep, the tracker holds the maximum change among the points visited so far, at the first such point in row-major order, or 0 at the previous sweep's location if none changed. |
| Relaxation.SweepMaxChange | src/PotentialGrid.java:258-286 | After a sweep, `maxChange >= 0` is the largest absolute change of any point. When it is positive, the recorded location is the first point in row-major order that attains it, because ties keep the earliest. When it is 0, the location is the one the previous sweep left. |
| Relaxation.PreHarmonic | src/PotentialGrid.java:260-286 | On a mesh where every free interior point is its neighbours' average, no visit changes anything. |
| Relaxation.SweepLeavesHarmonicMeshUnchanged | src/PotentialGrid.java:258-288 | A sweep over such a mesh changes no point and reports change 0 at the previous location. |
| Relaxation.RelaxationsKeepFixedPoints | src/PotentialGrid.java:254-298 | However many sweeps run, every fixed point keeps its voltage and no lock flag changes. |
| Relaxation.SweepsRunIsFirst | src/PotentialGrid.java:254 | Every earlier sweep count has a largest change above `epsilon`. The returned count has one at most `epsilon`, or is the sweep bound. |
| Relaxation.HarmonicMeshStopsAfterOneSweep | src/PotentialGrid.java:243-258 | On an already solved mesh with `0 <= epsilon < 1`, the solver performs exactly one sweep and leaves the mesh as it was. |

## Left out

- `toFile` (src/PotentialGrid.java:335-375) is left out. It writes files and prints exceptions to the console, and its log-reset header is only text.
- The log's text is not modelled. Its records are: the creation record, the start record with the acceleration and epsilon, one record per sweep, and the finishing summary. Java's rendering of doubles into that text is not part of this model, and neither is the text of `toString`. `Snapshot` keeps only the row and column order of the voltages.
- Voltages and the stencil arithmetic use exact `real` instead of IEEE doubles. Rounding, and numerical convergence or accuracy of SOR, are not modelled.
- Grid.PotentialGrid.CalculateSolution: the source loop has no cap and need not terminate. The model adds a sweep bound `maxSweeps`. When the bound is reached before the change drops to `epsilon`, `converged` is false and no summary record is written. The source would keep sweeping instead.
- Grid.PotentialGrid.constructor: requires non-negative dimensions and granularity at least 1. With granularity 0 the source builds a 1x1 grid, and its log divides by zero when printing millimetre coordinates. Negative dimensions give the source negative or empty array sizes.
- Grid.PotentialGrid.SetFixedLine and Grid.PotentialGrid.SetFixedRectangle: the caller must keep every visited index inside the mesh. The source would throw an index exception partway through, possibly after some cells were already written.
- Java's 32-bit `int` overflow in `dim*g` and `start*g` is not modelled; integers are unbounded.
- The solver takes the represented mesh as a ghost argument and states its result with the pure `Relaxation` functions. The inner column loop of the sweep is a separate method, `RelaxRow`.
- `src/EE240Program.java` is not part of this model. It is a driver that makes a fixed sequence of calls with literal values.
