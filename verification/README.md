# Rainfall simulation core of rwgen, modelled in Dafny

rwgen simulates rainfall with a Neyman-Scott rectangular pulse (NSRP)
process. The generator produces raincells. Each raincell rains at a
constant intensity from its arrival time to its end time, and in the
spatial model it covers a circle around its centre. The simulation
module turns these raincells into gridded time series.

This project models that module's core:

- **Kernel** (`kernel.dfy`): the point discretisation. Each raincell's
  intensity times its overlap with each timestep is added to that
  timestep of a per-month buffer.
- **Spatial** (`spatial.dfy`): the spatial discretisation. For every
  target location, the raincells whose circle holds the location are
  discretised with the point kernel, and the column is scaled by the
  location's phi.
- **Calendar** (`calendar.dfy`): the month table (`datetime_helper`). It
  holds each month's timestep count, start and end timestep, start and
  end time, and length in hours, built as a running sum. This module also
  has the temporal mask, which keeps the raincells overlapping a month,
  and the per-month buffer length.
- **Blocks** (`blocks.dfy`): the block-sizing pass and the simulation
  pass of `simulate_realisation`.
  - The sizing pass starts at `min(number_of_years, 1000)` years. It
    halves the block size and restarts from block 0 with a fresh
    generator state whenever a block fails.
  - The simulation pass then simulates block by block. Each block gets
    its slice of 12 · size months.
  - This module also models how a block's months are read from the
    sliced month table.
- **Catchment** (`catchment.dfy`): grid phi and catchment weights. These
  cover the clipping of interpolated phi, the point-ordering check, the
  pruning of unused grid points under one shared mask, and the weighted
  catchment average of the grid buffer.
- **Results** (`results.dfy`): `Option`, `Result` and the error cases
  the model reports.

The NSRP generator and the memory probes it triggers are one opaque
parameter, `Generator`. `fits` says whether simulating a month range
from a generator state succeeds, and `draw` gives the generator state
after it. Times are real numbers, and `floor` is `.Floor`.

Halving from 1000 would size 900 years as 1000 → 500 → 250. The code
instead starts at `min(900, 1000) = 900`, so it goes 900 → 450 → 225.
The model follows the code, and `Blocks.NineHundredYearsExample` states
that sequence.

## Model

| member | source | states |
|---|---|---|
| Kernel.TimestepOf | rwgen/rainfall/simulation.py:645-646 | the floor index k of a time x satisfies k·ts ≤ x < (k+1)·ts |
| Kernel.TimestepOfUnique | rwgen/rainfall/simulation.py:645-646 | any k that places x between k·ts and (k+1)·ts is the floor index |
| Kernel.AddCell | rwgen/rainfall/simulation.py:637-657 | one raincell adds, to every in-range timestep, its intensity times its overlap with that timestep and nothing elsewhere; length unchanged |
| Kernel.DiscretisePoint | rwgen/rainfall/simulation.py:628-657 | the buffer, zeroed first, ends as the reference buffer: slot t holds the sum over raincells of intensity × overlap with timestep t (negative timesteps skipped) |
| Kernel.AddCellAsWritten | rwgen/rainfall/simulation.py:637-657 | as written, a negative timestep t writes slot t + len: each slot gains the raincell's depth at t and at t − len |
| Kernel.DiscretisePointAsWritten | rwgen/rainfall/simulation.py:628-657 | the kernel as written computes slot t as the depth at t plus the depth at t − len |
| Kernel.CellDepthNonNegative | rwgen/rainfall/simulation.py:652-657 | a raincell with non-negative intensity and arrival ≤ end never adds negative depth |
| Kernel.SlotDepthNonNegative | rwgen/rainfall/simulation.py:637-657 | a slot's depth over well-formed raincells is non-negative |
| Kernel.PointBufferNonNegative | rwgen/rainfall/simulation.py:634-657 | every buffer entry is non-negative for well-formed raincells |
| Kernel.SingleSlotContainment | rwgen/rainfall/simulation.py:645-657 | a raincell inside one timestep deposits intensity × duration there and nothing anywhere else |
| Kernel.DurationBeforeStep | rwgen/rainfall/simulation.py:650-654 | the overlap with timestep m is the growth, from m·ts to (m+1)·ts, of the raincell's duration before that time |
| Kernel.CellSumClipped | rwgen/rainfall/simulation.py:649-657 | summed over the first n slots, a raincell starting in the period deposits intensity × its duration before n·ts |
| Kernel.CellConservation | rwgen/rainfall/simulation.py:649-657 | a raincell inside the buffer's span deposits exactly intensity × duration over the buffer |
| Kernel.SlotTotalIsCellsTotal | rwgen/rainfall/simulation.py:637-657 | summing the buffer slot by slot equals summing each raincell's deposits |
| Kernel.CellsTotalStep | rwgen/rainfall/simulation.py:637-657 | one more slot adds that slot's depth to the per-raincell totals |
| Kernel.SumOfPointBuffer | rwgen/rainfall/simulation.py:634-657 | the buffer's sum is the sum of its slot depths |
| Kernel.CellsTotalConserves | rwgen/rainfall/simulation.py:637-657 | raincells inside the span deposit their total depth |
| Kernel.BufferConservesDepth | rwgen/rainfall/simulation.py:628-657 | with raincells inside the span, the buffer's total equals the sum of intensity × duration over the raincells (depth conservation) |
| Kernel.NoDepthBeforeStart | rwgen/rainfall/simulation.py:640-646 | raincells arriving at or after the period start put nothing into negative timesteps |
| Kernel.AsWrittenAgreesWithoutEarlyCells | rwgen/rainfall/simulation.py:628-657 | as written and corrected kernels agree when no raincell arrives before the period start |
| Kernel.EarlyRaincellWrapsToTail | rwgen/rainfall/simulation.py:645-657 | a raincell from −0.5 h to 0.5 h puts 0.5 mm into the last slot as written, while the corrected kernel puts it into slot 0 only |
| Kernel.ThreeHalfHourExample | rwgen/rainfall/simulation.py:649-657 | 2 mm/h from 0 to 1.5 h with hourly steps gives 2.0, 1.0, then zeros |
| Kernel.ExampleSlot | rwgen/rainfall/simulation.py:649-657 | slot depths of that one-raincell example for every timestep |
| Spatial.RootComparison | rwgen/rainfall/simulation.py:676-677 | comparing sqrt(d) ≤ r is comparing d ≤ r² for a non-negative radius, so the squared form of the spatial mask is the source's |
| Spatial.ActiveAt | rwgen/rainfall/simulation.py:676-681 | the spatial mask keeps no more raincells than given, all of them when all cover the location and none when none does |
| Spatial.ActiveMembers | rwgen/rainfall/simulation.py:676-681 | a raincell is selected iff some raincell covering the location carries it |
| Spatial.SelectActive | rwgen/rainfall/simulation.py:676-681 | the boolean mask applied to the raincell arrays yields the covering raincells in order |
| Spatial.ScaleColumn | rwgen/rainfall/simulation.py:684 | the in-place multiplication gives the scaled column |
| Spatial.DiscretiseSpatial | rwgen/rainfall/simulation.py:660-684 | one column per location; column i is phi_i times the point buffer of the raincells covering location i |
| Spatial.FarRaincellIgnored | rwgen/rainfall/simulation.py:676-677 | a raincell not covering a location is dropped from that location's selection wherever it appears |
| Spatial.FarRaincellLeavesColumn | rwgen/rainfall/simulation.py:676-684 | a raincell not covering a location never changes that location's column |
| Spatial.ZeroPhiColumn | rwgen/rainfall/simulation.py:684 | a location with phi zero receives no rain |
| Spatial.ColumnsIndependent | rwgen/rainfall/simulation.py:671-684 | changing one location's coordinates or phi changes no other column |
| Spatial.ActiveWellFormed | rwgen/rainfall/simulation.py:679-681 | the selected raincells are well formed when the generated ones are |
| Spatial.ColumnNonNegative | rwgen/rainfall/simulation.py:679-684 | with well-formed raincells and phi ≥ 0 every column entry is non-negative |
| Spatial.SumOfScale | rwgen/rainfall/simulation.py:684 | scaling by phi scales the column's total by phi |
| Spatial.ActiveInsidePeriod | rwgen/rainfall/simulation.py:679-681 | the selected raincells keep the time bounds of the generated ones |
| Spatial.ColumnConservesDepth | rwgen/rainfall/simulation.py:660-684 | a location's column totals phi times the depth of the raincells covering it |
| Spatial.ScaledTotal | rwgen/rainfall/simulation.py:684 | a buffer with a known total, scaled by phi, totals phi times it |
| Spatial.OnlyCoveringRaincell | rwgen/rainfall/simulation.py:676-681 | a location that only raincell k covers selects exactly that raincell |
| Spatial.SingleRaincellColumn | rwgen/rainfall/simulation.py:676-684 | with phi 1, a location that only raincell k of the list covers gets that raincell's point buffer |
| Calendar.CalendarOf | rwgen/rainfall/simulation.py:419-427 | the month table has one row per month |
| Calendar.BuildCalendar | rwgen/rainfall/simulation.py:419-427 | running sum and shift give the closed-form table; an empty series is reported as an error (the `iloc[0]` assignment fails) |
| Calendar.SpanFacts | rwgen/rainfall/simulation.py:422-427 | a row's timestep width is its count, and its hours and time width are count × ts |
| Calendar.CalendarContiguous | rwgen/rainfall/simulation.py:422-424 | the first month starts at timestep 0 and time 0, each month starts where the previous ends, and the last ends at the total count |
| Calendar.CalendarWidths | rwgen/rainfall/simulation.py:422-427 | for every row: timestep width = n_timesteps, n_hours = n_timesteps × ts, end_time = start_time + n_hours |
| Calendar.MonthContaining | rwgen/rainfall/simulation.py:422-423 | every timestep of the realisation lies in a month between its start and end timesteps |
| Calendar.MonthContainingUnique | rwgen/rainfall/simulation.py:422-423 | months do not overlap: a timestep lies in exactly one month |
| Calendar.TimestepsBeforeMonotone | rwgen/rainfall/simulation.py:422 | the running sum never decreases |
| Calendar.MonthCells | rwgen/rainfall/simulation.py:546-549 | the temporal mask keeps at most the raincells given |
| Calendar.MonthCellsMembers | rwgen/rainfall/simulation.py:546 | a raincell is kept iff it arrives before the month's end and ends after its start |
| Calendar.SelectMonthCells | rwgen/rainfall/simulation.py:546-549 | the mask applied to the raincell arrays gives the kept raincells in order |
| Calendar.DroppedCellAddsNothing | rwgen/rainfall/simulation.py:546 | a raincell outside the month adds nothing to any of the month's timesteps |
| Calendar.MonthFilterPreservesSlots | rwgen/rainfall/simulation.py:543-549 | with the corrected point kernel, the temporal subset changes none of the month's slots |
| Calendar.MonthFilterChangesSlotAsWritten | rwgen/rainfall/simulation.py:543-549 | with the point kernel as written, a raincell ending before the month wraps into slot len − 2, and the temporal subset removes that depth |
| Kernel.LateRaincellWraps | rwgen/rainfall/simulation.py:645-657 | as written, a raincell from −1.5 h to −0.5 h puts 0.5 into each of the last two slots |
| Kernel.EmptyBufferAsWritten | rwgen/rainfall/simulation.py:628-657 | as written, no raincells leave every slot zero |
| Calendar.BufferLength | rwgen/rainfall/simulation.py:432 | the buffer length int((24/ts)·31) is the largest count of timesteps fitting in 744 hours |
| Calendar.MonthFitsBuffer | rwgen/rainfall/simulation.py:432 | any month of at most 31 days fits in the buffer |
| Calendar.MonthSeries | rwgen/rainfall/simulation.py:581-583 | the month's series is the buffer cut to the month's timestep count |
| Calendar.MonthSeriesComplete | rwgen/rainfall/simulation.py:543-583 | for a month that fits, its series has one entry per timestep, each the depth of all raincells at that timestep |
| Blocks.InitialBlockSize | rwgen/rainfall/simulation.py:441 | the first block size is the number of years when at most 1000, else 1000 |
| Blocks.BlockMonths | rwgen/rainfall/simulation.py:444-446 | a block's month range is ordered and ends within the realisation's 12·n months; what the ranges cover is in Blocks.BlocksTileMonths |
| Blocks.Step | rwgen/rainfall/simulation.py:443-474 | one sizing iteration never grows the block size, and one that keeps a positive size moves on to the next block; where the sizing lands is in Blocks.SizeFromFirstFitting |
| Blocks.RunAsWritten | rwgen/rainfall/simulation.py:440-476 | the loop as written, when it stops, has left its guard and never grown the block size |
| Blocks.SizeFrom | rwgen/rainfall/simulation.py:440-476 | the corrected loop's size is at most the start size, and positive for a positive number of years |
| Blocks.SizeFromResumes | rwgen/rainfall/simulation.py:443-468 | resuming at block b after b fitting blocks ends as the reference does |
| Blocks.SizeFromFirstFitting | rwgen/rainfall/simulation.py:440-476 | from a fresh seed at block 0, the corrected loop gives the first halving at which every block fits |
| Blocks.ChooseBlockSizeIsFirstFitting | rwgen/rainfall/simulation.py:440-476 | the sizing pass picks the first halving of min(n, 1000) at which every block fits |
| Blocks.FirstFittingIsFirstHalving | rwgen/rainfall/simulation.py:469-472 | when halving k is the first that fits, the result is exactly that halving |
| Blocks.FirstFittingFits | rwgen/rainfall/simulation.py:443-476 | whatever size is chosen is positive and every block fits at it |
| Blocks.FirstFittingFailsWhenNothingFits | rwgen/rainfall/simulation.py:469-472 | when no positive halving fits, the corrected sizing reports exhaustion |
| Blocks.ZeroBlockSizeNeverStops | rwgen/rainfall/simulation.py:443-472 | as written, at size 0 with years to simulate the guard holds forever |
| Blocks.AsWrittenAgreesWhenItStops | rwgen/rainfall/simulation.py:440-476 | whenever the loop as written stops, the corrected loop gives the same size |
| Blocks.AsWrittenNeverStopsWhenSizingFails | rwgen/rainfall/simulation.py:440-476 | where the corrected loop reports exhaustion, the loop as written does not stop for any number of iterations |
| Blocks.AsWrittenStopsWhenSizingSucceeds | rwgen/rainfall/simulation.py:440-476 | where the corrected loop succeeds, the loop as written stops with the same size |
| Blocks.NothingFitsNeverStops | rwgen/rainfall/simulation.py:440-476 | with a generator that always fails, the corrected pass reports exhaustion and the loop as written never stops |
| Blocks.NineHundredYearsExample | rwgen/rainfall/simulation.py:441-472 | 900 years with room for 2700 months sizes 900 → 450 → 225 and runs in 4 blocks |
| Blocks.NumBlocksIsCeiling | rwgen/rainfall/simulation.py:481 | the simulation loop visits block b iff b < ceil(n / size) |
| Blocks.BlocksTileMonths | rwgen/rainfall/simulation.py:481-486 | the blocks' month ranges are non-empty, contiguous, 12·size long except the last, and cover months 0 to 12·n |
| Blocks.SimulationBlocks | rwgen/rainfall/simulation.py:479-509 | one generator call per block, each on its month slice from the state every earlier block left |
| Blocks.SizeBlocks | rwgen/rainfall/simulation.py:440-476 | the sizing loop method computes the corrected sizing result |
| Blocks.SimulateRealisation | rwgen/rainfall/simulation.py:440-509 | sizing failure is reported; otherwise the plan is the block runs at the chosen size, and every planned block fits |
| Blocks.SizeFromFailsOnlyExhausted | rwgen/rainfall/simulation.py:469-472 | the only failure of sizing is exhaustion |
| Blocks.SliceTable | rwgen/rainfall/simulation.py:501 | `iloc[idx1:idx2]` gives the rows in range, each keeping its original label |
| Blocks.RowByLabel | rwgen/rainfall/simulation.py:544-545 | a label lookup finds a row iff one carries the label |
| Blocks.MonthBoundsAsWritten | rwgen/rainfall/simulation.py:538-545 | reading `start_time[month_idx]` by label succeeds iff some row of the slice is labelled month_idx |
| Blocks.MonthBounds | rwgen/rainfall/simulation.py:538-545 | reading by position gives a row of the slice |
| Blocks.EveryMonthReadsItsBounds | rwgen/rainfall/simulation.py:538-545 | read by position, month 12·b·size + i of the realisation (i < 12·size) is position i of block b, a block the pass visits, and is read with its own bounds |
| Blocks.FirstBlockLabelsArePositions | rwgen/rainfall/simulation.py:538-545 | in block 0 the lookup as written gives the positional row |
| Blocks.LaterBlockLosesItsMonths | rwgen/rainfall/simulation.py:538-545 | in every block after the first, the lookup as written fails on every month index of the loop |
| Catchment.AttachWeights | rwgen/rainfall/simulation.py:315-320 | succeeds iff every catchment's points equal the grid's x and y; on success it records each catchment's weights and changes nothing else |
| Catchment.Select | rwgen/rainfall/simulation.py:333-346 | `array[mask]` has one entry per set mask position |
| Catchment.KeptIndices | rwgen/rainfall/simulation.py:333-346 | the kept positions are in range, set in the mask, and strictly increasing |
| Catchment.SelectAt | rwgen/rainfall/simulation.py:333-346 | entry i of a masked array is the original entry at the i-th kept position |
| Catchment.KeptIndicesMembers | rwgen/rainfall/simulation.py:333-346 | a mask keeps exactly the positions whose entry is set |
| Catchment.MaskOf | rwgen/rainfall/simulation.py:327-330 | the catchment mask has one entry per grid point |
| Catchment.CatchmentMask | rwgen/rainfall/simulation.py:326-330 | mask[j] holds iff some catchment gives point j a weight above zero |
| Catchment.ApplyMask | rwgen/rainfall/simulation.py:332-346 | pruning keeps the phi seasons and the weight catchments |
| Catchment.PruneGrid | rwgen/rainfall/simulation.py:324-346 | without catchment output, or with grid output, the grid is unchanged; otherwise every array is cut by the catchment mask |
| Catchment.CatchmentWeights | rwgen/rainfall/simulation.py:315-348 | misordered points fail; otherwise the weights are attached and, when pruning applies, the grid is pruned; when pruning applies, a weight array of the wrong length fails, and so, exactly when some season has no grid phi, does the phi subset |
| Catchment.ClipNegative | rwgen/rainfall/simulation.py:216-219 | phi keeps its length and is never negative; a negative entry becomes 0, and exactly the entries that were not negative are kept |
| Catchment.ClipNegativeFixedPoints | rwgen/rainfall/simulation.py:216-219 | clipping leaves phi unchanged iff no entry is negative, and clipping twice is clipping once |
| Catchment.GridPhi | rwgen/rainfall/simulation.py:185-222 | grid phi has an entry for every season exactly when it is computed, each the clipped interpolated phi |
| Catchment.PrepareGrid | rwgen/rainfall/simulation.py:58-68 | phi, then catchment weights only for catchment output; with pruning, aligned points and full-length weights, the result succeeds iff grid phi was computed or there is no season, and fails with the missing phi otherwise |
| Catchment.PrepareGridAsWritten | rwgen/rainfall/simulation.py:58-68 | as written, catchment output without grid output and at least one season never succeeds: aligned, full-length input fails on the missing grid phi |
| Catchment.PrepareGridCorrected | rwgen/rainfall/simulation.py:58-68 | with grid phi computed for catchment output too, aligned, full-length input is always pruned, and every season's phi is present |
| Catchment.PruneKeepsUsedPoints | rwgen/rainfall/simulation.py:326-334 | pruning keeps point j iff some catchment gives it a weight above zero |
| Catchment.PruneKeepsAlignment | rwgen/rainfall/simulation.py:332-346 | after pruning all arrays have the same length, and position i of each holds the same original point's entry |
| Catchment.CatchmentAverage | rwgen/rainfall/simulation.py:606-609 | the weighted mean, times the total weight, is the weighted total; zero total weight is an error |
| Catchment.WeightedTotalOfEqualWeights | rwgen/rainfall/simulation.py:606-609 | with equal weights c the weighted total is c × the sum |
| Catchment.EqualWeightsGivePlainMean | rwgen/rainfall/simulation.py:606-609 | equal non-zero weights give the plain mean |
| Catchment.Row | rwgen/rainfall/simulation.py:606-607 | a timestep's row has one entry per grid column |
| Catchment.CatchmentSeries | rwgen/rainfall/simulation.py:606-610 | the catchment series averages each timestep's row, failing iff the weights sum to zero |
| Catchment.DropZeroWeights | rwgen/rainfall/simulation.py:326-340 | dropping zero-weight points changes neither the weighted total nor the total weight |
| Catchment.RowOfSelect | rwgen/rainfall/simulation.py:333-346 | a row of the pruned columns is the pruned row |
| Catchment.SpatialBufferOfSelect | rwgen/rainfall/simulation.py:333-346 | the spatial buffer over the kept points is the kept columns of the full buffer |
| Catchment.SeriesOfSelect | rwgen/rainfall/simulation.py:322-346 | dropping columns of zero weight leaves the catchment series unchanged |
| Catchment.PruningPreservesCatchmentSeries | rwgen/rainfall/simulation.py:322-346 | pruning the grid before discretising changes no catchment's series, provided the dropped points weigh nothing |
| Catchment.MaskDropsOnlyZeroWeights | rwgen/rainfall/simulation.py:326-330 | with weights that are never negative, a point the catchment mask drops has weight zero in every catchment |
| Catchment.PruningKeepsCatchmentSeries | rwgen/rainfall/simulation.py:322-346 | with weights that are never negative, pruning by the grid's own catchment mask leaves every catchment's series, in every season, as on the full grid |

## Left out

- The NSRP process simulation (`nsproc.main`) and the `MemoryError`
  probes are the `Generator` parameter. The allocation probe of lines
  452-467 is folded into `fits`. `nsproc.main` is not part of this model.
- The sizing and simulation passes pass `number_of_years` to the
  generator, not the block size. The model keeps only the month slice
  and the generator state, which is all the loops use.
- The `event_totals` discretisation method is left out (it is not
  implemented in the source), as is the km-to-m conversion of raincell
  coordinates (lines 493-496), a unit change with no effect on the
  logic.
- Writing output (`write_output`, output paths, float16 arrays),
  `initialise_discrete_rainfall_arrays`, the per-output-type loop, and
  the construction of `datetimes` and of catchment points from shapes
  (`utils`) are left out. These are I/O, or code outside the module.
- The call sites at lines 567-579 pass an extra `end_time` argument that
  the kernels at lines 628-684 do not take. The model follows the
  kernels' definitions.
- Floating point is modelled as exact real arithmetic. Rounding in
  `floor(x / ts)`, in the running sums and in the average is not
  modelled.
- The grid buffer is modelled as one column per location (`|xs|`
  columns). The source's fixed-size 2-D array is the same, read column
  by column.
- Spatial.DiscretiseSpatial: requires `|xs| <= |ys|` and
  `|xs| <= |phi|`. Shorter arrays would mean unchecked (undefined)
  numba indexing, so the model has no error path for them.
- Spatial.DiscretiseSpatial: discretises with the corrected point kernel
  of the first Findings row. The source's spatial kernel calls the kernel
  as written (line 679).
- Calendar.MonthFilterPreservesSlots: holds for the corrected point
  kernel only. With the kernel as written the subset can change a slot
  (Calendar.MonthFilterChangesSlotAsWritten).
- Calendar.MonthSeries: built on the corrected point kernel, not on the
  kernel as written that line 576 calls.
- Calendar.MonthSeriesComplete: states the series of the corrected point
  kernel. As written, raincells that start before the month add wrapped
  depth to the month's last slots.
- Kernel.DiscretisePointAsWritten: requires every timestep ≥ −len. Below
  that, numba indexing is undefined, so the model does not state what
  happens.
- Catchment.CatchmentWeights: the phi subset at lines 343-345 fails on a
  season without grid phi (the fourth Findings row). The source reports
  no such case; it raises a KeyError.
- Catchment.GridPhi: the interpolator (`make_phi_interpolator`) and the
  log transform are not part of this model. The interpolated phi is a
  parameter. Point phi is not modelled.
- Catchment.PrepareGrid: `create_discretisation_metadata_arrays` is not
  part of this model. It is taken to give consistent x, y and z arrays
  and no phi.
- Catchment.PruningKeepsCatchmentSeries: assumes no catchment weight is
  negative. The weights come from `utils.catchment_weights`, which is not
  part of this model.
- Catchment.AttachWeights: the `np.min(a == b) == 1` check is modelled
  as plain sequence equality on a non-empty grid. NumPy broadcasting of
  arrays of different shapes is not modelled.
- The parallel raincell arrays (arrival, end, intensity, x, y, radius)
  are modelled as one sequence of raincell records.
- Elevation (`z`) is pruned when it is present. The model does not check
  that the `dem is not None` condition matches its presence.
- The times of raincells in blocks after the first are taken to be
  relative to the realisation start. The generator that fixes this
  origin is not part of this model.
- Blocks.RunAsWritten: the loop as written may run forever, so it is
  bounded by a `fuel` count. `None` means "has not stopped within that
  many iterations".

## Findings

| source | as written | input that shows it | evidently intended | confidence | as-written member | corrected member |
|---|---|---|---|---|---|---|
| rwgen/rainfall/simulation.py:645-657 | a raincell arriving before the period start gives negative timesteps. The guard checks only `timestep < len`, so numba's negative indexing adds the early part of the raincell to the last slots of the month buffer | a raincell from −0.5 h to 0.5 h, hourly steps, 744-slot buffer: slot 743 gets 0.5 | skip timesteps below 0 (`0 <= timestep < len`) | not executed | Kernel.EarlyRaincellWrapsToTail | Kernel.DiscretisePoint |
| rwgen/rainfall/simulation.py:443-472 | when every block size fails, halving reaches 0. `0 * 0 < number_of_years` then holds forever, so the sizing loop never ends | a generator that never fits, with 1 year | stop with an error once the block size reaches 0 | not executed | Blocks.NothingFitsNeverStops | Blocks.ChooseBlockSizeIsFirstFitting |
| rwgen/rainfall/simulation.py:538-545 | `datetime_helper['start_time'][month_idx]` is a label lookup on the slice `iloc[idx1:idx2]`, whose labels start at `idx1`. For any block after the first, no label equals the loop's positional `month_idx` | 2 years in 1-year blocks: block 1's slice is labelled 12..23, but `month_idx` runs 0..11 | read the month's times by position, like `year` and `month` at lines 539-540 | not executed | Blocks.LaterBlockLosesItsMonths | Blocks.EveryMonthReadsItsBounds |
| rwgen/rainfall/simulation.py:343-345 | pruning applies only when `'grid'` is not an output (line 324), but phi estimation writes `('grid', 'phi', season)` only for the output types `{'point', 'grid'}` (line 198). The phi subset therefore reads a key that was never written | output types `{'catchment'}`, one season, aligned catchment points: the lookup at line 345 raises a KeyError | compute grid phi whenever catchment output is wanted, since the catchment series is discretised on the grid | not executed | Catchment.PrepareGridAsWritten | Catchment.PrepareGridCorrected |
