# Heat equation time stepping, in Dafny

This project models the four solvers of the HeatEquation scripts and proves
properties of them. Each solver advances a temperature field by the explicit
finite-difference scheme for the heat equation `u_t = a * u_xx`: the 3-point
rule in 1D and the 5-point rule in 2D. It records one copy of the field per
time step.

- `simulate_1d` and `simulate_2d` in `heatEquation1Dn2D_2.py` use fixed
  (Dirichlet) boundaries. The field starts at 20, the boundary cells are set
  to 100 once, and each step rewrites only the interior.
- `simulate_1d_neumann_forcing` and `simulate_2d_neumann_forcing` in
  `heatEquation1Dn2D_3.py` start at 10. Each step:
  - rewrites the interior;
  - copies neighbouring values onto the boundary, which gives zero gradient
    (in 2D, first the end rows, then the end columns);
  - adds the heat `Q * dt` at the centre cell `nodes // 2`.

Field values are exact reals (`real`). Each step is modelled twice, and a
proof ties the two together:
- as a function on sequences, which is the specification;
- as a method that updates an `array` / `array2` buffer in place, in the same
  order as the script.

Each `Simulate` method runs the script's `while counter < time` loop. It is
proved to return:
- the trace of exactly `StepCount(time, dt)` steps, which is
  `max(0, ceil(time / dt))` in exact arithmetic;
- the time stamps of `np.arange(0, time, dt)`.

The modules are:
- `Field`: field shapes, uniform fields, and the value of a 2D buffer.
- `Stencil`: the shared 3-point and 5-point rules, the mesh ratio
  `r = dt * a / dx^2`, the stability bounds, `dt_common`, and the in-place
  interior updates.
- `Clock`: the loop counter, the iteration count and `arange`.
- `Dirichlet`: `heatEquation1Dn2D_2.py`.
- `Neumann`: `heatEquation1Dn2D_3.py`.

Snapshot `m` of `results` is the field after `m + 1` steps. It is recorded
after the step, and `Trace1D` / `Trace2D` state this. The time stamp paired
with it by `arange` is `m * dt`, the time before that step. The model keeps
both as the scripts compute them.

## Model

| member | source | states |
|---|---|---|
| Field.Fill1D | heatEquation1Dn2D_3.py:14 | `np.zeros(n) + v` has `n` cells, all `v` |
| Field.Rows | heatEquation1Dn2D_2.py:53 | the value `w = u.copy()` takes of a 2D buffer: `u.Length0` rows of `u.Length1` cells, cell `[i][j]` being `u[i, j]` |
| Field.Fill2D | heatEquation1Dn2D_3.py:40 | `np.zeros((n, n)) + v` is `n x n` with every cell `v` |
| Stencil.Dx | heatEquation1Dn2D_2.py:13 | `dx = length / nodes` is positive and `dx * nodes == length` |
| Stencil.Interior1D | heatEquation1Dn2D_2.py:27 | after `u[1:-1] = ...` every interior cell holds its 3-point value computed from the pre-step copy `w`; the two end cells keep their value |
| Stencil.Point1D | heatEquation1Dn2D_2.py:27 | the per-cell expression `dt * a * (w[i-1] - 2 w[i] + w[i+1]) / dx^2 + w[i]`, read from the pre-step copy only (a plain definition; what it means is stated by `Point1DWeights`, `Point1DBounded` and `Point1DMono`) |
| Stencil.Point1DWeights | heatEquation1Dn2D_2.py:27 | the 3-point value is `w[i] + r * (w[i-1] - 2 w[i] + w[i+1])` with `r = dt * a / dx^2` |
| Stencil.Blend | heatEquation1Dn2D_2.py:27 | a value moved by `r` times a sum of `m` neighbour differences, with `0 <= m r <= 1`, stays between the smallest and largest neighbour |
| Stencil.Point1DBounded | heatEquation1Dn2D_2.py:27 | with `0 <= r <= 1/2` a new 1D value lies in `[lo, hi]` when the whole pre-step copy does (discrete maximum principle) |
| Stencil.Point1DMono | heatEquation1Dn2D_2.py:27 | with `0 <= r <= 1/2` the 3-point value is monotone: a pre-step copy lying at or below another gives a value at or below |
| Stencil.Interior1DMono | heatEquation1Dn2D_2.py:27 | with `0 <= r <= 1/2` the 1D update preserves order cell by cell |
| Stencil.Interior1DBounded | heatEquation1Dn2D_2.py:27 | with `0 <= r <= 1/2` the whole 1D interior update keeps the field within `[lo, hi]` |
| Stencil.Interior2D | heatEquation1Dn2D_2.py:54-57 | after `u[1:-1, 1:-1] = ...` every interior cell holds its 5-point value from `w`; every boundary cell keeps its value |
| Stencil.Point2D | heatEquation1Dn2D_2.py:54-57 | the per-cell 5-point expression with the row and column offsets of the slices, read from the pre-step copy only (a plain definition; `Point2DWeights` and `Point2DBounded` state what it means) |
| Stencil.Point2DWeights | heatEquation1Dn2D_2.py:54-57 | the 5-point value is `w[i][j] + r` times the sum of the row and column second differences |
| Stencil.Point2DBounded | heatEquation1Dn2D_2.py:54-57 | with `0 <= r <= 1/4` a new 2D value lies in `[lo, hi]` when the pre-step copy does |
| Stencil.Interior2DBounded | heatEquation1Dn2D_2.py:54-57 | with `0 <= r <= 1/4` the 2D interior update keeps the plate within `[lo, hi]` |
| Stencil.DtCommon | heatEquation1Dn2D_2.py:73 | `min(0.5 dx^2 / a, dx^2 / (4a))` equals `dx^2 / (4a)`, is positive, is at or below the 1D bound, gives `r = 1/4` and meets both stability bounds (also line 76 of heatEquation1Dn2D_3.py) |
| Stencil.UpdateInterior1D | heatEquation1Dn2D_2.py:26-27 | the buffer after `w = u.copy(); u[1:-1] = ...` is `Interior1D` of the buffer before: every new value is computed from `w` alone |
| Stencil.UpdateInterior2D | heatEquation1Dn2D_2.py:53-57 | the 2D buffer after the copy and the slice assignment is `Interior2D` of the buffer before |
| Clock.Stamp | heatEquation1Dn2D_2.py:24-28 | the counter after `k` iterations of `counter = 0` followed by `counter += dt`: `k` additions of `dt` to 0 (a plain definition; `StampIsProduct` and `StampRises` state what it means) |
| Clock.StampIsProduct | heatEquation1Dn2D_2.py:24-28 | after `k` increments `counter += dt` from 0 the counter is `k * dt` |
| Clock.StampRises | heatEquation1Dn2D_2.py:28 | with `dt > 0` the counter rises strictly |
| Clock.StepCount | heatEquation1Dn2D_2.py:25 | the iteration count `n` is the least whose counter reaches `time`: `n * dt >= time` and `(n - 1) * dt < time` |
| Clock.BelowTime | heatEquation1Dn2D_2.py:25 | after `k` increments the loop test `counter < time` holds exactly when `k < StepCount` |
| Clock.Arange | heatEquation1Dn2D_2.py:32 | `np.arange(0, time, dt)` has `StepCount` stamps; stamp `k` is `k * dt` and below `time`; the stamps rise strictly; the next one would reach `time` |
| Dirichlet.MainTimeStep | heatEquation1Dn2D_2.py:67-73 | for `a = 110`, `length = 50`, `nodes = 50`, `dt_common` is `1/440`, `r` is `1/4`, and both bounds hold |
| Dirichlet.Init1D | heatEquation1Dn2D_2.py:14-19 | the rod before the loop has its two ends at 100 and every other cell at 20 |
| Dirichlet.Evolve1D | heatEquation1Dn2D_2.py:25-29 | after any number of steps the rod keeps its length and both end values |
| Dirichlet.Evolve1DBounded | heatEquation1Dn2D_2.py:25-29 | with `r <= 1/2` a rod within `[lo, hi]` stays within `[lo, hi]` for every number of steps |
| Dirichlet.Trace1D | heatEquation1Dn2D_2.py:23-29 | after `k` iterations `results` holds `k` snapshots; snapshot `m` is the rod after `m + 1` steps |
| Dirichlet.Trace1DSnoc | heatEquation1Dn2D_2.py:29 | one more iteration appends exactly one snapshot, the current rod |
| Dirichlet.Trace1DEdges | heatEquation1Dn2D_2.py:18-29 | every snapshot has `nodes` values and 100 at both ends |
| Dirichlet.Trace1DBounded | heatEquation1Dn2D_2.py:25-29 | with `r <= 1/2` every value of every snapshot lies in `[20, 100]` |
| Dirichlet.FirstStepRises | heatEquation1Dn2D_2.py:14-29 | with `r <= 1/2` the first step from the rod at 20 with ends at 100 raises no cell |
| Dirichlet.Evolve1DRises | heatEquation1Dn2D_2.py:25-29 | with `r <= 1/2` the rod after `k + 1` steps lies at or above the rod after `k` steps, cell by cell |
| Dirichlet.SnapshotRises | heatEquation1Dn2D_2.py:25-29 | with `r <= 1/2` snapshot `i + 1` lies at or above snapshot `i`, cell by cell |
| Dirichlet.Trace1DRises | heatEquation1Dn2D_2.py:25-29 | with `r <= 1/2` every snapshot lies at or above the one before it, cell by cell |
| Dirichlet.Trace1DCenterRises | heatEquation1Dn2D_2.py:25-29 | with `r <= 1/2` the centre `nodes // 2` of a later snapshot is at or above that of an earlier one, and the first is at or above 20 |
| Dirichlet.MainRun1D | heatEquation1Dn2D_2.py:73-77 | with `dt = dt_common(a, length, nodes)` every value of each of the `StepCount` snapshots lies in `[20, 100]` and the centre never decreases |
| Dirichlet.Simulate1D | heatEquation1Dn2D_2.py:11-32 | `simulate_1d` returns `StepCount(time, dt)` snapshots, namely the trace of that many steps from the initial rod, and the `arange` stamps |
| Dirichlet.Init2D | heatEquation1Dn2D_2.py:39-46 | the plate before the loop is 100 on the whole first and last row and column and 20 inside |
| Dirichlet.Evolve2D | heatEquation1Dn2D_2.py:52-59 | after any number of steps the plate is still `n x n` and no boundary cell has changed |
| Dirichlet.Evolve2DBounded | heatEquation1Dn2D_2.py:52-59 | with `r <= 1/4` a plate within `[lo, hi]` stays within `[lo, hi]` |
| Dirichlet.Trace2D | heatEquation1Dn2D_2.py:50-59 | after `k` iterations there are `k` snapshots; snapshot `m` is the plate after `m + 1` steps |
| Dirichlet.Trace2DSnoc | heatEquation1Dn2D_2.py:59 | one more iteration appends exactly one snapshot |
| Dirichlet.Trace2DEdges | heatEquation1Dn2D_2.py:43-59 | every snapshot is `nodes x nodes` and holds 100 on its whole boundary |
| Dirichlet.Trace2DBounded | heatEquation1Dn2D_2.py:52-59 | with `r <= 1/4` every value of every snapshot lies in `[20, 100]` |
| Dirichlet.Plate2D | heatEquation1Dn2D_2.py:39-46 | the freshly allocated buffer after the initialisation and the four edge assignments is `Init2D` |
| Dirichlet.MainRun2D | heatEquation1Dn2D_2.py:73-78 | with `dt = dt_common(a, length, nodes)` each of the `StepCount` snapshots is `nodes x nodes` with every value in `[20, 100]` |
| Dirichlet.Simulate2D | heatEquation1Dn2D_2.py:35-62 | `simulate_2d` returns `StepCount` snapshots, the trace from the initial plate, and the `arange` stamps |
| Neumann.MainTimeStep | heatEquation1Dn2D_3.py:69-76 | for `a = 10`, `length = 50`, `nodes = 100`, `dt_common` is `1/160`, `r` is `1/4`, and both bounds hold |
| Neumann.Center | heatEquation1Dn2D_3.py:15 | `nodes // 2` is an interior index and is the floor of `nodes / 2` |
| Neumann.Edges1D | heatEquation1Dn2D_3.py:25-26 | after `u[0] = u[1]; u[-1] = u[-2]` both ends equal their neighbour (taken after the stencil) and the interior is unchanged |
| Neumann.Force1D | heatEquation1Dn2D_3.py:28 | `u[c] += q` raises cell `c` by exactly `q` and leaves every other cell unchanged |
| Neumann.Step1D | heatEquation1Dn2D_3.py:22-28 | one iteration on the pre-step copy: the stencil, then the two end copies, then `Q * dt` at the centre, in that order; keeps the length (what the result holds is stated by `Step1DInterior`, `Step1DEdges`, `Step1DUniform` and `Step1DBounded`) |
| Neumann.Step1DInterior | heatEquation1Dn2D_3.py:22-28 | after a step every interior cell holds its 3-point value from `w`; the centre holds that value plus `Q * dt` |
| Neumann.Step1DEdges | heatEquation1Dn2D_3.py:15-28 | in a recorded snapshot, for `nodes >= 5`, the ends have zero gradient; for `nodes == 4` the right end lies `Q * dt` below its neighbour; for `nodes == 3` both ends lie `Q * dt` below the centre |
| Neumann.Step1DUniform | heatEquation1Dn2D_3.py:14-28 | a step from a uniform rod only raises the centre by `Q * dt` |
| Neumann.Step1DBounded | heatEquation1Dn2D_3.py:22-28 | with `r <= 1/2` and `Q * dt >= 0` a step keeps every value at or above the old minimum and at most `Q * dt` above the old maximum |
| Neumann.Init1D | heatEquation1Dn2D_3.py:14 | the rod before the loop is 10 everywhere |
| Neumann.Evolve1D | heatEquation1Dn2D_3.py:21-30 | after any number of steps the rod keeps its length |
| Neumann.Evolve1DBounded | heatEquation1Dn2D_3.py:21-30 | with `r <= 1/2` and `Q * dt >= 0`, after `k` steps the rod lies within `[lo, hi + k * Q * dt]` |
| Neumann.Trace1D | heatEquation1Dn2D_3.py:19-30 | after `k` iterations there are `k` snapshots; snapshot `m` is the rod after `m + 1` steps |
| Neumann.Trace1DSnoc | heatEquation1Dn2D_3.py:30 | one more iteration appends exactly one snapshot |
| Neumann.Evolve1DEdges | heatEquation1Dn2D_3.py:15-30 | with `nodes >= 5` the rod has zero gradient at both ends after every iteration, so in every snapshot |
| Neumann.Trace1DBounded | heatEquation1Dn2D_3.py:21-30 | with `r <= 1/2` and `Q * dt >= 0` snapshot `m` lies within `[10, 10 + (m + 1) * Q * dt]` |
| Neumann.CopyEdges1D | heatEquation1Dn2D_3.py:25-26 | the two end assignments on the buffer give `Edges1D` of the buffer before |
| Neumann.AddAt1D | heatEquation1Dn2D_3.py:28 | `u[center] += Q * dt` on the buffer gives `Force1D` of the buffer before |
| Neumann.StepInPlace1D | heatEquation1Dn2D_3.py:22-28 | copy, stencil, end copies and forcing on the buffer give `Step1D` of the buffer before |
| Neumann.Simulate1D | heatEquation1Dn2D_3.py:11-33 | `simulate_1d_neumann_forcing` returns `StepCount` snapshots, the trace from the rod at 10 with `q = Q * dt`, and the `arange` stamps |
| Neumann.RowPass | heatEquation1Dn2D_3.py:54-55 | the first and last rows take the row next to them; the other rows are unchanged |
| Neumann.ColPass | heatEquation1Dn2D_3.py:56-57 | in every row the first and last cells take the cell next to them; the other columns are unchanged |
| Neumann.Nearest | heatEquation1Dn2D_3.py:54-57 | the index a boundary row or column reads from is interior, and an interior index reads from itself |
| Neumann.Edges2D | heatEquation1Dn2D_3.py:54-57 | the closed form of the two boundary passes: every cell takes the value of its nearest interior cell; keeps the plate square (`PassesGiveEdges` ties it to the passes, `Edges2DGradient` states its gradient) |
| Neumann.PassesGiveEdges | heatEquation1Dn2D_3.py:54-57 | the row pass followed by the column pass sets every cell to the value of its nearest interior cell (`Edges2D`) |
| Neumann.Edges2DGradient | heatEquation1Dn2D_3.py:54-57 | after the boundary copy, before forcing: the interior is unchanged; `u[0][j] == u[1][j]`, `u[n-1][j] == u[n-2][j]`, `u[i][0] == u[i][1]` and `u[i][n-1] == u[i][n-2]` for all `i`, `j`; each corner equals its diagonal interior neighbour |
| Neumann.Force2D | heatEquation1Dn2D_3.py:59 | `u[c, c] += q` raises cell `(c, c)` by exactly `q` and leaves every other cell unchanged |
| Neumann.Force2DKeepsGradient | heatEquation1Dn2D_3.py:59 | forcing a cell at least two rows and columns from every edge keeps all four zero-gradient equalities |
| Neumann.Step2D | heatEquation1Dn2D_3.py:48-59 | one iteration on the pre-step copy: the 5-point stencil, the boundary copies (`Edges2D`), then `Q * dt` at `(c, c)`; keeps the plate square (`Step2DInterior`, `Step2DEdges`, `Step2DUniform` and `Step2DBounded` state what it holds) |
| Neumann.Step2DInterior | heatEquation1Dn2D_3.py:48-59 | after a step every interior cell holds its 5-point value from `w`; the centre holds that value plus `Q * dt` |
| Neumann.Step2DEdges | heatEquation1Dn2D_3.py:41-59 | with `nodes >= 5` a recorded snapshot has zero gradient across all four edges, and the corners `(0, 0)` and `(n-1, n-1)` equal their diagonal neighbours |
| Neumann.Step2DUniform | heatEquation1Dn2D_3.py:40-59 | a step from a uniform plate only raises the centre cell by `Q * dt` |
| Neumann.Step2DBounded | heatEquation1Dn2D_3.py:48-59 | with `r <= 1/4` and `Q * dt >= 0` a step keeps the plate at or above its old minimum and at most `Q * dt` above its old maximum |
| Neumann.Init2D | heatEquation1Dn2D_3.py:40 | the plate before the loop is `nodes x nodes` and 10 everywhere |
| Neumann.Evolve2D | heatEquation1Dn2D_3.py:47-61 | after any number of steps the plate is still `nodes x nodes` |
| Neumann.Evolve2DBounded | heatEquation1Dn2D_3.py:47-61 | with `r <= 1/4` and `Q * dt >= 0`, after `k` steps the plate lies within `[lo, hi + k * Q * dt]` |
| Neumann.Trace2D | heatEquation1Dn2D_3.py:45-61 | after `k` iterations there are `k` snapshots; snapshot `m` is the plate after `m + 1` steps |
| Neumann.Trace2DSnoc | heatEquation1Dn2D_3.py:61 | one more iteration appends exactly one snapshot |
| Neumann.Evolve2DEdges | heatEquation1Dn2D_3.py:41-61 | with `nodes >= 5` the plate has zero gradient across all four edges after every iteration, so in every snapshot |
| Neumann.Trace2DBounded | heatEquation1Dn2D_3.py:47-61 | with `r <= 1/4` and `Q * dt >= 0` snapshot `m` lies within `[10, 10 + (m + 1) * Q * dt]` |
| Neumann.CopyRows | heatEquation1Dn2D_3.py:54-55 | the two row assignments on the buffer give `RowPass` of the buffer before |
| Neumann.CopyCols | heatEquation1Dn2D_3.py:56-57 | the two column assignments on the buffer give `ColPass` of the buffer before |
| Neumann.AddAt2D | heatEquation1Dn2D_3.py:59 | `u[center, center] += Q * dt` on the buffer gives `Force2D` of the buffer before |
| Neumann.StepInPlace2D | heatEquation1Dn2D_3.py:48-59 | copy, stencil, row pass, column pass and forcing on the buffer give `Step2D` of the buffer before |
| Neumann.Simulate2D | heatEquation1Dn2D_3.py:37-64 | `simulate_2d_neumann_forcing` returns `StepCount` snapshots, the trace from the plate at 10, and the `arange` stamps |

## Left out

- Floating point: values, `dx`, the counter and the stamps are exact reals.
  The drift of `counter += dt` is not modelled. Nor is the float behaviour of
  `np.arange`, which can disagree with the loop count by one when rounding
  occurs. The count results hold in exact arithmetic only.
- Everything in `main` after `dt_common` is left out: the matplotlib figures
  and the `TkAgg` backend. This code only displays results.
- `@njit` (Numba compilation) does not change what the functions compute.
- `nodes < 3` is a precondition. With no interior cell the scripts either
  index out of range or have an empty stencil. `length > 0` and `dt > 0` are
  preconditions too. The source needs `dt > 0` to end: with `dt <= 0` and
  `time > 0` the test `while counter < time` (line 25 of
  heatEquation1Dn2D_2.py, line 21 of heatEquation1Dn2D_3.py) never fails,
  and `np.arange(0, time, 0)` raises an error. `a` and `time` are unconstrained; a `time <= 0` gives no
  snapshots, as the loop does.
- Copies are values. `w = u.copy()` is the sequence `u[..]` or `Rows(u)`.
  `results.append(u.copy())` appends that value. So every snapshot is
  independent of the buffer by construction, and aliasing is not modelled.
- Dirichlet.Plate2D: the four edge assignments of the 2D script (lines
  43-46) are one assignment over all boundary cells. They give the same
  plate, because every corner receives 100 either way.
- Neumann.Evolve1DBounded and Neumann.Evolve2DBounded give only the bound
  `hi + k * Q * dt` for a heated field. Total heat and energy balance are not
  modelled; the scripts do not claim them.
- Convergence of the Dirichlet rod towards 100 over long times is not
  modelled; that needs a rate estimate of the stencil. The other half of
  that property, that the centre never decreases, is proved
  (`Dirichlet.Trace1DCenterRises`). The 2D plate's centre is not covered.
- The scripts validate no input and detect no instability. The model adds
  neither; stability appears only as a premise of the boundedness lemmas.
