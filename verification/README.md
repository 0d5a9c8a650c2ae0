# Hotplate relaxation, modelled in Dafny

The program `hotplate.c` computes the steady-state temperature of a rectangular plate
whose four edges are held at fixed integer temperatures. It keeps two buffers,
`hotplate` (current) and `hotplateClone` (scratch). It initialises both, then repeats
generations until the largest change falls to epsilon. In each generation a pool of
threads splits the interior rows among themselves. Each thread writes the mean of each
cell's four neighbours into the scratch buffer and reports its largest change. The
reports are reduced with `max_max_diff`.

This project models the sequential logic of that program in five modules:

- `Plate` (plate.dfy): the grid, the initialiser's classification of cells into top,
  left, right, bottom and interior, the interior seed, and the state `initializeHotPlate`
  leaves in both buffers. It proves that the seed's weights are the cell counts of the
  four edges and that the seed lies between the coldest and hottest edge.
- `Partition` (partition.dfy): the row plan `main` builds for the threads, the
  conditions under which it tiles the interior rows, a counterexample where it does
  not, and a clamped plan that always tiles.
- `Relax` (relax.dfy): one thread's sweep (`generateHeat`) as pure functions (`Sweep`,
  `RangeMax`) and as the loops of the source (`GenerateHeat`, `SweepRows`, `RelaxRow`),
  proved equal. Any two sweeps commute, because each reads only the current buffer.
- `Reduce` (reduce.dfy): `max_max_diff` as a loop, proved against a reference maximum.
- `Generation` (generation.dfy): one generation as the threads run one after another.
  Over the clamped plan, the scratch buffer and metric do not depend on the number of
  threads. The clamped plan is the code's plan whenever (n-1)*rpt <= rows-1; otherwise
  the code's plan runs past the interior rows (see Findings). Any rearrangement of a plan
  gives the same scratch buffer and metric, so the order the threads run in does not
  matter. Borders survive the buffer swap. The uninitialised scratch interior is never
  observed.

Threads only read the current buffer and write disjoint rows of the scratch buffer.
So running them one after another in plan order computes what the threads compute
between two barriers. That sequential argument replaces the concurrency.

Modelling choices:

- Single-precision floats are `real`; `fabsf` is the mathematical absolute value.
- Temperatures are unbounded `int`, converted with `as real` where the source converts
  them to `float`.
- Every sweep takes the current buffer as an input and returns only the new scratch
  buffer, so "the current buffer is never modified" holds by construction.
- The uninitialised memory of `hotplateClone` is the parameter `clone0` of `Initialize`.
- Only `hotplate` receives the seed; the interior of `hotplateClone` is never written
  (hotplate.c:71-72). `UninitialisedScratchUnobservable` shows the difference is gone
  after the first generation.
- The code never checks the plate size, so `Classify` and `Initialize` accept any size
  and state what happens.

## Model

| member | source | states |
|---|---|---|
| Plate.Classify | hotplate.c:55-71 | For plates with at least 2 rows and 2 columns: top is row 0 without its corners; left is column 0 above the last row; right is the last column above the last row; bottom is the whole last row; interior is everything else. For any size, the chain falls through exactly when the line-71 off-border test holds. |
| Plate.Initialize | hotplate.c:46-76 | Both buffers get the top, left, right and bottom values on the same cells. Every interior cell of the current buffer gets the seed. Every interior cell of the scratch buffer keeps its previous content. |
| Plate.SeedWeightsAreCellCounts | hotplate.c:47-49 | The weights cols-2, rows-1, rows-1 and cols are the numbers of cells the initialiser gives the top, left, right and bottom edges. They sum to the divisor 2*rows+2*(cols-2). The remaining (rows-2)*(cols-2) cells are interior. |
| Plate.SeedWithinEdgeTemps | hotplate.c:47-49 | For rows, cols >= 2 the divisor is positive and the seed lies between the smallest and largest edge temperature. |
| Partition.RowsPerWorker | hotplate.c:167 | row_per_thread is the ceiling of rows / threads: rpt*n >= rows > (rpt-1)*n. |
| Partition.AsWritten | hotplate.c:170-184 | The plan has one range per thread. It starts at row 1 and stops at rows-1. For 0 < i, thread i starts at i*rpt. Each range stops where the next starts. |
| Partition.TilesExactlyOnce | hotplate.c:170-184 | A chain of ranges from lo to hi covers exactly the rows [lo, hi). No row is in two ranges. |
| Partition.AsWrittenTiles | hotplate.c:167-184 | If (n-1)*rpt <= rows-1 and rows >= 2, the plan tiles [1, rows-1). Every range lies in [1, rows-1], every interior row is in exactly one range, and so every neighbour read stays on the plate. |
| Partition.AsWrittenOverrunsBottom | hotplate.c:167-184 | With 5 rows and 4 threads, thread 2 gets [4, 6), past the last interior row, and the plan does not tile. |
| Partition.Clamped | hotplate.c:167-184 | With every generic boundary clamped into [1, rows-1], the plan tiles [1, rows-1) for every thread count. |
| Partition.ClampedAgreesWithAsWritten | hotplate.c:167-184 | Where (n-1)*rpt <= rows-1, the clamped plan is the plan the code builds. |
| Relax.SweepRow | hotplate.c:129-137 | After the column loop reaches n, columns [1, n) of the row hold their neighbour mean. Every other column is unchanged. |
| Relax.Sweep | hotplate.c:128-140 | After sweeping [start, stop), each cell with start <= r < stop and 1 <= c <= cols-2 holds the mean of its four neighbours in the current buffer. Every other scratch cell is unchanged. |
| Relax.RowMax | hotplate.c:129-135 | The running maximum over one row is >= 0 and >= every change seen. It is 0 or one of those changes. |
| Relax.RangeMax | hotplate.c:122-140 | A thread's report is >= 0 and >= |old - new| for every cell it computes. It is 0 or one of those changes. An empty range reports 0. |
| Relax.RelaxRow | hotplate.c:129-138 | The column loop writes the row the pure sweep describes. It folds the row's changes into the running maximum. |
| Relax.SweepRows | hotplate.c:128-140 | The row loop, starting from a zero maximum, produces the pure sweep and the pure report. |
| Relax.GenerateHeat | hotplate.c:122-141 | The thread body writes exactly the cells of its range with their neighbour means and leaves the rest of the scratch buffer alone. Its maximum bounds every change in the range and is 0 or one of them; an empty range reports 0. |
| Relax.SweepSplit | hotplate.c:130-136 | Sweeping [a, b) then [b, c) leaves the same scratch buffer as sweeping [a, c). |
| Relax.SweepOrderIrrelevant | hotplate.c:130-136 | Two adjacent workers can run in either order: sweeping [b, c) then [a, b) also leaves the scratch buffer of [a, c). |
| Relax.SweepsCommute | hotplate.c:128-137 | Any two workers, even with overlapping ranges, leave the same scratch buffer in either order, because every value written is computed from the current buffer alone. |
| Relax.RangeMaxSplit | hotplate.c:133-135 | The report for [a, c) is the larger of the reports for [a, b) and [b, c). |
| Reduce.MaxF | hotplate.c:84-85 | The conditional replacement yields a value >= both operands and equal to one of them. |
| Reduce.SeqMax | hotplate.c:79-87 | The reference maximum of a non-empty sequence is >= every element and equal to one. |
| Reduce.MaxMaxDiff | hotplate.c:79-87 | For n >= 1 the result is >= arr[i] for every i < n, equal to some arr[i], and equal to the reference maximum of arr[..n]. For n <= 1 it is arr[0]. |
| Generation.PlanStep | hotplate.c:194-199 | Helper for the loop of `RunGeneration`: running one more thread extends the combined sweep by its range and the reports by its report. |
| Generation.SweepAllTiles | hotplate.c:170-199 | Any chain of thread ranges from lo to hi, run in order, leaves the scratch buffer of a single sweep of [lo, hi). The largest report equals that sweep's report. |
| Generation.SweepAllPointwise | hotplate.c:194-199 | For any plan, a cell some worker sweeps holds its neighbour mean after all workers ran, and every other cell keeps its scratch value. |
| Generation.PlanOrderIrrelevant | hotplate.c:141-143 | The threads may run in any order: every rearrangement of a plan leaves the same scratch buffer and the same largest report. |
| Generation.RunGeneration | hotplate.c:194-201 | One generation over the clamped plan produces the scratch buffer of one sweep over all interior rows and the metric of that sweep, whatever the thread count. |
| Generation.InitialBordersAgree | hotplate.c:55-70 | After initialisation the two buffers agree on every border cell. |
| Generation.SwapKeepsBorders | hotplate.c:128-137 | If the buffers agree on the borders, then after a generation the new current buffer (the old scratch) has the old current buffer's borders. Every interior cell holds its neighbour mean. |
| Generation.UninitialisedScratchUnobservable | hotplate.c:55-72 | The first generation's scratch buffer does not depend on what the unwritten interior of `hotplateClone` held. |
| Generation.MinimalPlateSettles | hotplate.c:128-137 | On a 3 by 3 plate whose buffers agree on the borders, the generation after the first reports a change of 0. |

## Left out

- Threads, the barrier, `pthread_create`/`pthread_join`/`pthread_exit`, and the writes
  to the global `max_diffs` slots (hotplate.c:141-144, 191-199) are concurrency. They are
  replaced by running the threads' sweeps in plan order and reducing their reports.
- `swapHotplate` and its call (hotplate.c:91-96, 200) are left out. The call casts the
  addresses of the two pointer variables to `float*` and swaps only `sizeof(float)`
  bytes of them, so it is not a faithful buffer swap. A generation is modelled
  abstractly as "the scratch buffer becomes current" (`SwapKeepsBorders`).
- The outer `while` loop (hotplate.c:193-206) and convergence are left out. The loop has
  no bound, so only single generations are modelled.
- Single-precision rounding and `fabsf` are left out: cells are `real`.
- The `int` products at hotplate.c:48 can overflow. Temperatures and sizes are unbounded
  integers here, so overflow is assumed not to happen.
- I/O and environment plumbing are left out: `buildHotplate`/`malloc` (hotplate.c:38-44),
  `timestamp`/`gettimeofday` (hotplate.c:100-106), `alarm` (hotplate.c:127), the
  `atoi`/`atof` argument parsing (hotplate.c:150-157), and all `printf` output, including
  the power-of-two reporting test at hotplate.c:203.
- `MAX_NUM_THREAD` (hotplate.c:19) is never checked against the thread count. It is a
  resource limit, not behaviour.
- Generation.RunGeneration: requires rows >= 2. It uses the clamped plan, which equals
  the code's plan whenever (n-1)*rpt <= rows-1 (`ClampedAgreesWithAsWritten`).
  Otherwise the code's plan reads outside the plate (see Findings).
- Partition.Clamped: requires rows >= 2. With one row there are no interior rows and
  no interval [1, rows-1) to tile.
- Generation.MinimalPlateSettles: a 3 by 3 plate needs two generations. The first
  reports the move away from the seed; the second reports 0.
- Partition.RowsPerWorker / Partition.AsWritten / Generation.RunGeneration: require
  n >= 1. With no threads hotplate.c:167 divides by zero, hotplate.c:164 and :166 declare
  zero-length arrays, and hotplate.c:184 writes data[-1]; that undefined behaviour is not
  modelled.
- Plate.SeedWithinEdgeTemps: stated for rows, cols >= 2. For smaller plates the divisor
  can be 0, but then no interior cell receives the seed.

## Findings

| source | as written | input that shows it | evidently intended | confidence | as-written member | corrected member |
|---|---|---|---|---|---|---|
| hotplate.c:167-184 | Thread i gets [i*rpt, (i+1)*rpt) with only the first start and the last stop forced into the interior. | rows=5 with 4 threads: rpt=2, and thread 2 gets [4, 6). Row 4 is the bottom boundary: sweeping it overwrites boundary cells of the scratch buffer and reads row 5, which does not exist. Row 5 itself is past the plate. Thread 3 gets the inverted range [6, 4). | Threads beyond the interior get empty ranges, and every range stays within [1, rows-1). | high; not executed | Partition.AsWritten, Partition.AsWrittenOverrunsBottom | Partition.Clamped, Partition.ClampedAgreesWithAsWritten |
