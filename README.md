# Spectrum charts: the batch summary of `mapData`

This project models the part of the spectrum monitor's charts component that
turns a time-ordered batch of sweeps into what the charts draw
(`ChartsComponent.mapData` and its helper `fillArray` in
`spectrum/static/app/charts.component.ts`), and proves what that summary is.

A sweep document carries one integer level (dB) per frequency bin, a
timestamp, a sweep number and a sweep time. A level of -128 is a failed
reading. From one pass over a batch of M sweeps with F bins each, `mapData`
builds:

- `agg.latest`: the last sweep's levels, with failed readings as null;
- `agg.min`, `agg.max`, `agg.avg`: per bin, the least and greatest valid
  reading and the sum of the valid readings divided by M (not by the number
  of valid readings); a bin with no valid reading gets no entry;
- `levels`: a waterfall of rows, each the per-bin mean of the valid readings
  of a run of consecutive sweeps (-128 where the run had none), stamped with
  the run's first sweep;
- `avg_time`: the total sweep time over 1000 M;
- `freq_idxs`: for each of min, max and avg, a best-first list of MAX_N slots
  filled by a neighbour pre-filter and a bubbling insertion.

It also writes null over every failed reading of the batch it was given.

## Structure

- `sweeps.dfy` (module `Sweeps`): the sweep document, the row, and the
  reference definitions of a batch's per-bin quantities: the sum and the count
  of valid readings, the least and greatest valid reading, the row mean, the
  batch average and the total sweep time. It also holds the lemmas that fold
  one more sweep into them.
- `binning.dfy` (module `Binning`): which sweeps close a waterfall row
  (`Closes`), the rows that result, and when there are min(H, M) of them.
- `peaks.dfy` (module `Peaks`): the sparse array's length, the neighbour
  pre-filter, the reference insertion `Bubble` with its properties, the
  in-place insertion loop, and the selection over a whole metric.
- `charts.dfy` (module `Charts`): class `ChartsComponent`. Its fields are the
  component's state: levels, latest, the three sparse arrays, the top-N lists
  and avg_time. Its methods follow the loops of `mapData` one by one.
  `MapData` promises that the state `Summarises` the batch.

The input batch is a `SweepBatch` object whose `docs` field `MapData`
reassigns, because the source overwrites the caller's array.

MAX_N and CHART_HEIGHT come from a constants file that is not part of this
model. They are the constructor's parameters `maxN` and `chartHeight`.

### Behaviour worth knowing

- **Row count.** The second disjunct of the row-close test
  (`charts.component.ts:148`) compares the sweep index with F - 1, the
  sweep's own bin count, where the batch size M - 1 is evidently meant. With
  exact arithmetic, min(H, M) rows, all finished, are therefore guaranteed
  only when F >= M; `Binning.FullBatchRows` proves that case. Other bin
  counts may or may not give the same rows: `Binning.ShortSweepsOpenExtraRow`
  shows M = 10, H = 5, F = 9 giving six rows, the last of them never divided.
- **Missing neighbour.** The pre-filter reads the entries beside an interior
  bin, and an entry is missing when its bin had only failed readings. The
  code then throws. The model returns `ok = false` at that point. The failing
  metric's list holds the selection over the bins before the failing bin, and
  the lists of the metrics after it keep their empty slots.
- **Empty batch.** Each top-N list keeps MAX_N null slots.
- **No configuration checks.** The code checks neither the chart height,
  MAX_N nor whether every sweep has the same number of bins. Height 0 closes a
  row only at sweep F - 1; MAX_N 0 gives empty lists.
- **Pre-filter direction.** The pre-filter has the same direction for the min
  list as for max and avg; `Peaks.LocalMinimumSkipped` states the effect.

## Model

| member | source | states |
|---|---|---|
| Sweeps.ScrubStep | spectrum/static/app/charts.component.ts:128-131 | taking one more level of a sweep writes null over it exactly when it is the -128 sentinel, and changes nothing else |
| Sweeps.CountValidPositive | spectrum/static/app/charts.component.ts:150-154 | a bin's count of valid readings over a run of sweeps is positive if and only if the run has a valid reading there |
| Sweeps.SumValidBounds | spectrum/static/app/charts.component.ts:127-145 | sentinel exclusion: when every valid reading lies in [low, high], the sum of valid readings lies between count·low and count·high |
| Sweeps.RowMeanWithin | spectrum/static/app/charts.component.ts:149-155 | a finished row's level at a bin with valid readings lies within the range of those readings; failed readings do not drag it |
| Sweeps.BatchAverageScaled | spectrum/static/app/charts.component.ts:139-142 | the batch average is the mean of the valid readings scaled by the fraction of sweeps that were valid, since it divides by every sweep |
| Sweeps.NoValidSumZero | spectrum/static/app/charts.component.ts:139-142 | with no valid reading, the sum and the count of valid readings are both zero, matching avg's start at 0 |
| Sweeps.FailedReadingStep | spectrum/static/app/charts.component.ts:128-131 | a failed reading leaves existence, least, greatest, sum and count of the valid readings as they were |
| Sweeps.LeastStep | spectrum/static/app/charts.component.ts:133-135 | replacing min when there is none or the reading is strictly smaller keeps min the least valid reading seen, and one of them |
| Sweeps.GreatestStep | spectrum/static/app/charts.component.ts:136-138 | replacing max when there is none or the reading is strictly larger keeps max the greatest valid reading seen, and one of them |
| Sweeps.AverageStep | spectrum/static/app/charts.component.ts:139-142 | starting at 0 and adding reading/M for each valid reading gives the sum of the valid readings over M |
| Binning.Closes | spectrum/static/app/charts.component.ts:148 | the closing sweeps after k sweeps are at most k, strictly increasing and below k |
| Binning.RowsPartition | spectrum/static/app/charts.component.ts:110-159 | the rows are consecutive non-empty runs of sweeps that start at sweep 0 and together cover every sweep taken in |
| Binning.ClosesBound | spectrum/static/app/charts.component.ts:92-148 | while F >= M, after k sweeps the c closed rows satisfy c·M <= H·k, and either every sweep closed a row or the next close point is not reached |
| Binning.CloseStepBound | spectrum/static/app/charts.component.ts:148 | a sweep that closes a row carries that bound over to the next sweep |
| Binning.OpenStepBound | spectrum/static/app/charts.component.ts:148 | a sweep that leaves the row open carries that bound over to the next sweep |
| Binning.LastSweepCloses | spectrum/static/app/charts.component.ts:148 | when F >= M, the last sweep of the batch closes a row |
| Binning.CountIsMin | spectrum/static/app/charts.component.ts:92-148 | the bound after all M sweeps pins the number of closed rows to min(H, M) |
| Binning.FullBatchRows | spectrum/static/app/charts.component.ts:92-148 | with H > 0 and F >= M there are exactly min(H, M) rows, the last sweep closes the last one, and none is left open |
| Binning.ShortSweepsOpenExtraRow | spectrum/static/app/charts.component.ts:112-148 | with M = 10, H = 5, F = 9 the bin-count test closes a row at sweep 8, and sweep 9 opens a sixth row that is never finished |
| Peaks.JsLength | spectrum/static/app/charts.component.ts:172 | a sparse array's length is one past its highest index, no larger than the bin count, and 0 for an empty one |
| Peaks.PreFilterConsiders | spectrum/static/app/charts.component.ts:172-176 | an interior bin is tried if and only if both neighbours exist, the left is strictly smaller and the right not larger; end bins are always tried; the filter fails if and only if it reaches a missing neighbour |
| Peaks.LocalMinimumSkipped | spectrum/static/app/charts.component.ts:172-176 | the pre-filter skips a strict interior local minimum for the min list too |
| Peaks.EmptySlotsWellOrdered | spectrum/static/app/charts.component.ts:97 | a list of empty slots is well ordered |
| Peaks.Bubble | spectrum/static/app/charts.component.ts:178-195 | the reference insertion keeps the list's length and names only bins of the array |
| Peaks.BubbleMembers | spectrum/static/app/charts.component.ts:178-195 | after an insertion the slots plus the dropped bin are exactly the old slots plus the candidate |
| Peaks.BubbleShape | spectrum/static/app/charts.component.ts:180-186 | occupied slots stay a prefix, a full list stays full, and a bin falls off if and only if the list was full |
| Peaks.BubbleDistinct | spectrum/static/app/charts.component.ts:178-195 | a candidate not yet listed leaves no bin in two slots, and the dropped bin is no longer listed |
| Peaks.BubbleDropWeakest | spectrum/static/app/charts.component.ts:187-194 | the bin that falls off is no better than the candidate and than every old occupant |
| Peaks.BubbleBestFirst | spectrum/static/app/charts.component.ts:187-194 | insertion into a packed best-first list leaves it best-first: non-decreasing for min, non-increasing for max and avg |
| Peaks.BubbleNoImprovement | spectrum/static/app/charts.component.ts:189 | a candidate that strictly beats no occupant of a full list changes nothing and is the bin that falls off |
| Peaks.BubbleAdmits | spectrum/static/app/charts.component.ts:183-194 | a new candidate gets a slot if and only if the list has a free slot or it strictly beats an occupant |
| Peaks.BubbleKeeps | spectrum/static/app/charts.component.ts:178-195 | every bin kept before an insertion, and the candidate itself, is kept after it: listed, or the list is full of bins at least as good |
| Peaks.InsertCandidate | spectrum/static/app/charts.component.ts:178-195 | the in-place slot loop produces exactly the reference insertion's slots |
| Peaks.SelectStep | spectrum/static/app/charts.component.ts:167-195 | slotting in a considered bin extends the selection over the bins below it by that bin |
| Peaks.SelectSkip | spectrum/static/app/charts.component.ts:172-176 | passing over a bin that is skipped or absent extends the selection unchanged |
| Peaks.SelectPeaks | spectrum/static/app/charts.component.ts:167-196 | one metric's selection keeps the list's length, leaves it well ordered with only considered bins, and returns ok if and only if the pre-filter never fails; when ok every considered bin is kept, and otherwise the list is the selection over the bins before the first bin the pre-filter fails on |
| Charts.AllScrubbed | spectrum/static/app/charts.component.ts:126-131 | once every sweep has been scrubbed, each sweep is its original with failed readings replaced by null |
| Charts.RowsBefore | spectrum/static/app/charts.component.ts:115-124 | before a sweep, either a row is open at level_idx holding the sums and counts of its sweeps so far, or none is and the next row starts at this sweep |
| Charts.RowsAfter | spectrum/static/app/charts.component.ts:148-159 | after a sweep, the open row is finished exactly when the sweep closes it, and the rows stand as the row invariant says for one more sweep |
| Charts.RowsAfterClose | spectrum/static/app/charts.component.ts:148-158 | a closing sweep appends its row to the finished rows |
| Charts.RowsAfterOpen | spectrum/static/app/charts.component.ts:148 | a sweep that does not close the row leaves the finished rows as they were |
| Charts.RowsFinal | spectrum/static/app/charts.component.ts:110-160 | after all sweeps the rows are the runs Closes delimits, finished rows holding means and an open last row its sums; with H > 0 and F >= M there are min(H, M) rows, all finished |
| Charts.FailedBinStep | spectrum/static/app/charts.component.ts:128-131 | a failed reading leaves a bin's min, max and avg entries valid for one more sweep |
| Charts.ChartsComponent.constructor | spectrum/static/app/charts.component.ts:18-19 | a new component holds the given MAX_N and chart height, and has no rows, empty aggregates, no lists and no avg_time |
| Charts.ChartsComponent.FillArray | spectrum/static/app/charts.component.ts:53-60 | the array has `size` elements, MAX_N when no size is given, each equal to v |
| Charts.ChartsComponent.ValuesBelow | spectrum/static/app/charts.component.ts:167-172 | each metric's values are keyed by bins below F when the sparse arrays are |
| Charts.ChartsComponent.FillLatest | spectrum/static/app/charts.component.ts:105-109 | latest has one entry per bin of the last sweep, holding its reading, or null for a failed one |
| Charts.ChartsComponent.TakeReading | spectrum/static/app/charts.component.ts:133-142 | after a valid reading the bin's min, max and avg are the least, greatest and summed-over-M valid readings for one more sweep; no other bin changes |
| Charts.ChartsComponent.TakeBin | spectrum/static/app/charts.component.ts:127-145 | one bin of a sweep: a failed reading becomes null in the batch, and the bin's aggregates, row sum and count advance by one sweep; nothing of another bin changes |
| Charts.ChartsComponent.AccumulateBins | spectrum/static/app/charts.component.ts:126-146 | after a sweep's bins, that sweep is scrubbed, the aggregates cover one more sweep, and the open row holds the sums and counts of its sweeps including this one |
| Charts.ChartsComponent.OpenRow | spectrum/static/app/charts.component.ts:115-124 | when no row is open a row of zeros stamped with this sweep's timestamp and number is appended, with zero counts; an open row is kept |
| Charts.ChartsComponent.FinaliseRow | spectrum/static/app/charts.component.ts:149-155 | each bin of the row becomes the mean of its valid readings, or -128 when it had none |
| Charts.ChartsComponent.CloseRowIfDue | spectrum/static/app/charts.component.ts:148-159 | the row is finished exactly when the sweep reaches the row's share of the batch or its index is the bin count minus one, and the rows then stand as the row invariant says |
| Charts.ChartsComponent.FoldSweep | spectrum/static/app/charts.component.ts:111-159 | folding one sweep in keeps the batch scrubbed below it, the aggregates and the rows as they are for one more sweep |
| Charts.ChartsComponent.FoldBatch | spectrum/static/app/charts.component.ts:110-160 | after the sweep loop every sweep is scrubbed, aggregated and binned into rows, and the summed sweep time is the batch's total |
| Charts.ChartsComponent.FindAllTopN | spectrum/static/app/charts.component.ts:164-197 | min, max and avg are selected in that order: the min list is its selection, complete or up to its failing bin; max is selected only if min succeeded and avg only if both did, and a list not reached keeps its old slots; every list keeps its length and stays well ordered, and ok says whether all three pre-filters succeed |
| Charts.ChartsComponent.Reset | spectrum/static/app/charts.component.ts:94-99 | the state is reset: no rows, empty aggregates and latest, MAX_N empty slots per list, no avg_time |
| Charts.ChartsComponent.FoldAll | spectrum/static/app/charts.component.ts:104-162 | a non-empty batch is scrubbed and the state then holds latest, aggregates, rows and avg_time as its summary describes |
| Charts.ChartsComponent.Summarise | spectrum/static/app/charts.component.ts:104-198 | a non-empty batch is scrubbed and the state summarises it: latest, aggregates, rows and avg_time, and the lists selected in order up to the first pre-filter failure, with the lists not reached left empty |
| Charts.ChartsComponent.MapData | spectrum/static/app/charts.component.ts:91-199 | the state is reset; a non-empty batch has exactly its failed readings nulled and is summarised (latest, min, max, avg over M, rows, avg_time, and the top-N lists selected in order up to the first pre-filter failure, with ok telling whether one occurred); an empty batch leaves the reset state; every list keeps MAX_N slots in best-first order |

## Left out

- Floating point: the row-close interval, the running average, the row means
  and avg_time are exact reals or integers. IEEE-754 rounding is not modelled,
  and the interval test is stated as H·(i+1) >= (row+1)·M on integers.
- Levels are unbounded integers. The int8 range the sweep producers clamp to is
  not needed by any property here.
- Charts.ChartsComponent.MapData: requires a well-formed batch, in which every
  sweep has the same number of bins and no level is null. The source also runs
  on ragged batches, where each sweep's own length drives its loops.
- Charts.ChartsComponent.MapData: when the pre-filter fails, the source throws
  out of the subscription callback. The model returns `ok = false` with the
  lists as the throw leaves them; the exception itself is not modelled.
- Binning.FullBatchRows: the min(H, M) guarantee holds for exact arithmetic
  only. The source computes the interval M / H and the close point
  (row + 1) * interval - 1 in IEEE doubles. For M = 25 and H = 11 the last
  close point is 24.000000000000004, so sweep 24 does not close the last row
  unless F - 1 = 24, and that row is left holding raw sums. M = 21, H = 19 and
  M = 29, H = 7 behave the same way.
- Charts.RowsFinal: states the rows of the exact-arithmetic close test; where
  rounding moves a close point, as in the Binning.FullBatchRows example above,
  the source's rows differ from it.
- Bin indices in the entries of latest, min, max and avg are strings in the
  source, because they come from `for ... in`. Here they are natural numbers.
  The `for ... in` loops become ascending index loops.
- `show()`, the data service subscriptions and the Angular input setters are
  not modelled; they are HTTP and UI wiring.
- `mapAudio`, `mapRdsNames` and `mapRdsText` are not modelled; they only
  reshape documents into lookup objects.
- The constants file that defines MAX_N and CHART_HEIGHT is not part of this
  model; both are parameters.
