/**
 * The charts component's summary of a batch of sweeps (charts.component.ts,
 * `mapData`): the latest sweep, per-bin minimum, maximum and average over the
 * batch, a waterfall of row means, the average sweep time, and the top-N
 * bins of each aggregate.
 */
module Charts {
  import opened Sweeps
  import opened Binning
  import opened Peaks

  /** The three aggregates that get a top-N list, in the order they are visited. */
  datatype Metric = Min | Max | Avg

  /** One entry `{ idx, v }` of an aggregate array. */
  datatype Entry<T> = Entry(idx: nat, v: T)

  /** The `min`, `max` and `avg` members of an object keyed by metric. */
  datatype PerMetric<T> = PerMetric(min: T, max: T, avg: T) {
    function Get(x: Metric): T {
      match x
      case Min => min
      case Max => max
      case Avg => avg
    }

    function With(x: Metric, t: T): (r: PerMetric<T>)
      ensures r.Get(x) == t
      ensures forall y: Metric | y != x :: r.Get(y) == Get(y)
    {
      match x
      case Min => this.(min := t)
      case Max => this.(max := t)
      case Avg => this.(avg := t)
    }
  }

  /** The batch handed to mapData; the component writes null over its failed readings. */
  class SweepBatch {
    var docs: seq<Doc>

    constructor (docs: seq<Doc>)
      ensures this.docs == docs
    {
      this.docs := docs;
    }
  }

  /** docs is a non-empty batch of sweeps with F bins each, whose readings are raw. */
  ghost predicate IsBatch(docs: seq<Doc>, raw: seq<seq<int>>, F: nat) {
    |docs| > 0 && |raw| == |docs| && F == Width(docs) &&
    forall s | 0 <= s < |raw| ::
      |raw[s]| == F && |docs[s].level| == F &&
      forall f | 0 <= f < F :: docs[s].level[f] == Some(raw[s][f])
  }

  /** The first i sweeps of the batch have been scrubbed, the rest are as given. */
  ghost predicate ScrubbedBelow(current: seq<Doc>, docs: seq<Doc>, i: nat) {
    |current| == |docs| &&
    forall s | 0 <= s < |docs| :: current[s] == (if s < i then Scrubbed(docs[s]) else docs[s])
  }

  /** Once every sweep has been scrubbed, each sweep is its scrubbed original. */
  lemma AllScrubbed(current: seq<Doc>, docs: seq<Doc>)
    requires ScrubbedBelow(current, docs, |docs|)
    ensures |current| == |docs| && forall s | 0 <= s < |current| :: current[s] == Scrubbed(docs[s])
  {
  }

  /**
   * A row that starts at sweep lo and has taken in the sweeps lo .. hi-1:
   * it carries the first sweep's timestamp and number, and at each bin the
   * mean of the valid readings once finished, their running sum before that.
   */
  ghost predicate RowHolds(row: Row, docs: seq<Doc>, raw: seq<seq<int>>, F: nat,
                           lo: nat, hi: nat, finished: bool)
    requires IsBatch(docs, raw, F) && lo < |docs| && lo <= hi <= |raw|
  {
    row.timestamp == docs[lo].timestamp && row.sweepN == docs[lo].n && |row.level| == F &&
    forall f | 0 <= f < F ::
      row.level[f] == (if finished then RowMean(raw, f, lo, hi) else SumValid(raw, f, lo, hi) as real)
  }

  /** The entry of a sparse array at index k, None where it has none. */
  function At<T>(m: map<nat, T>, k: nat): (r: Option<T>)
    ensures r.Some? <==> k in m
    ensures k in m ==> r.value == m[k]
  {
    if k in m then Some(m[k]) else None
  }

  /**
   * The min, max and avg entries of bin f after the first k sweeps: present
   * exactly when one of them had a valid reading; then min and max are the
   * least and greatest valid reading, and avg is the sum of the valid readings
   * divided by the number of sweeps in the whole batch.
   */
  ghost predicate BinAggregates(mn: Option<Entry<int>>, mx: Option<Entry<int>>, av: Option<Entry<real>>,
                                raw: seq<seq<int>>, f: nat, k: nat)
    requires HasBin(raw, f) && 0 < |raw| && k <= |raw|
  {
    (mn.Some? <==> HasValid(raw, f, 0, k)) &&
    (mx.Some? <==> HasValid(raw, f, 0, k)) &&
    (av.Some? <==> HasValid(raw, f, 0, k)) &&
    (mn.Some? ==> mn.value.idx == f && IsLeastValid(mn.value.v, raw, f, k)) &&
    (mx.Some? ==> mx.value.idx == f && IsGreatestValid(mx.value.v, raw, f, k)) &&
    (av.Some? ==> av.value == Entry(f, SumValid(raw, f, 0, k) as real / |raw| as real))
  }

  /**
   * Bin g after the first k sweeps, of which the open row took in lo .. k-1:
   * its aggregates, the row's running sum and the row's count of valid readings.
   */
  ghost predicate BinTaken(mn: Option<Entry<int>>, mx: Option<Entry<int>>, av: Option<Entry<real>>,
                           sum: real, n: int, raw: seq<seq<int>>, g: nat, lo: nat, k: nat)
    requires HasBin(raw, g) && 0 < |raw| && lo <= k <= |raw|
  {
    BinAggregates(mn, mx, av, raw, g, k) && sum == SumValid(raw, g, lo, k) as real && n == CountValid(raw, g, lo, k)
  }

  /** The sparse arrays hold only bins below F. */
  ghost predicate KeysBelow(mn: map<nat, Entry<int>>, mx: map<nat, Entry<int>>, av: map<nat, Entry<real>>, F: nat) {
    (forall f | f in mn :: f < F) && (forall f | f in mx :: f < F) && (forall f | f in av :: f < F)
  }

  /**
   * The aggregates after the first k sweeps: they hold only bins below F,
   * and each of those bins carries the aggregates of its readings.
   */
  ghost predicate Aggregates(mn: map<nat, Entry<int>>, mx: map<nat, Entry<int>>, av: map<nat, Entry<real>>,
                             raw: seq<seq<int>>, F: nat, k: nat)
    requires (forall f | 0 <= f < F :: HasBin(raw, f)) && 0 < |raw| && k <= |raw|
  {
    KeysBelow(mn, mx, av, F) &&
    forall f | 0 <= f < F :: BinAggregates(At(mn, f), At(mx, f), At(av, f), raw, f, k)
  }

  /** The rows closed among the first k sweeps of a chart of height H are finished. */
  ghost predicate ClosedRows(levels: seq<Row>, docs: seq<Doc>, raw: seq<seq<int>>, F: nat, H: nat, k: nat)
    requires IsBatch(docs, raw, F) && k <= |raw|
  {
    var cs := Closes(|raw|, H, F, k);
    |cs| <= |levels| &&
    forall r | 0 <= r < |cs| :: RowHolds(levels[r], docs, raw, F, RowStart(cs, r), RowEnd(cs, r, k), true)
  }

  /**
   * The waterfall after the first k sweeps of a chart of height H: the rows
   * closed so far are finished, and when sweeps follow the last close, an
   * open row holds their sums and `count` their numbers of valid readings;
   * otherwise `count` is null (the empty sequence). levelIdx is the next row.
   */
  ghost predicate RowsAt(levels: seq<Row>, docs: seq<Doc>, raw: seq<seq<int>>, F: nat, H: nat,
                         k: nat, levelIdx: nat, count: seq<int>)
    requires IsBatch(docs, raw, F) && k <= |raw|
  {
    var cs := Closes(|raw|, H, F, k);
    var lo := RowStart(cs, |cs|);
    levelIdx == |cs| && |levels| == RowCount(cs, k) && ClosedRows(levels, docs, raw, F, H, k) &&
    (lo < k ==> RowHolds(levels[|cs|], docs, raw, F, lo, k, false) &&
                |count| == F && forall f | 0 <= f < F :: count[f] == CountValid(raw, f, lo, k)) &&
    (lo >= k ==> count == [])
  }

  /** Before sweep i is taken in, either a row is open at levelIdx, or none is and the next row starts at i. */
  lemma RowsBefore(levels: seq<Row>, docs: seq<Doc>, raw: seq<seq<int>>, F: nat, H: nat,
                   i: nat, levelIdx: nat, count: seq<int>)
    requires IsBatch(docs, raw, F) && i < |raw|
    requires RowsAt(levels, docs, raw, F, H, i, levelIdx, count)
    ensures var cs := Closes(|raw|, H, F, i); var lo := RowStart(cs, |cs|);
      levelIdx == |cs| && lo <= i && ClosedRows(levels, docs, raw, F, H, i) &&
      (levelIdx < |levels| ==>
         |levels| == levelIdx + 1 && RowHolds(levels[levelIdx], docs, raw, F, lo, i, false) &&
         |count| == F && forall f | 0 <= f < F :: count[f] == CountValid(raw, f, lo, i)) &&
      (levelIdx >= |levels| ==> |levels| == levelIdx && lo == i)
  {
    var cs := Closes(|raw|, H, F, i);
    if |cs| > 0 {
      assert cs[|cs| - 1] < i;
    }
  }

  /**
   * After sweep i has been taken into row |cs| (cs the closes before it),
   * with the earlier rows as before: the row is finished exactly when sweep i
   * closes it, and the rows then stand as RowsAt describes for i + 1 sweeps.
   */
  lemma RowsAfter(before: seq<Row>, levels: seq<Row>, docs: seq<Doc>, raw: seq<seq<int>>, F: nat, H: nat,
                  i: nat, levelIdx: nat, count: seq<int>)
    requires IsBatch(docs, raw, F) && i < |raw|
    requires ClosedRows(before, docs, raw, F, H, i)
    requires var cs := Closes(|raw|, H, F, i);
      RowStart(cs, |cs|) <= i && |levels| == |cs| + 1 &&
      forall r | 0 <= r < |cs| :: levels[r] == before[r]
    requires var cs := Closes(|raw|, H, F, i); var lo := RowStart(cs, |cs|);
      if ClosesRow(i, |cs|, |raw|, H, F) then
        RowHolds(levels[|cs|], docs, raw, F, lo, i + 1, true) && levelIdx == |cs| + 1 && count == []
      else
        RowHolds(levels[|cs|], docs, raw, F, lo, i + 1, false) && levelIdx == |cs| &&
        |count| == F && forall f | 0 <= f < F :: count[f] == CountValid(raw, f, lo, i + 1)
    ensures RowsAt(levels, docs, raw, F, H, i + 1, levelIdx, count)
  {
    var cs := Closes(|raw|, H, F, i);
    if ClosesRow(i, |cs|, |raw|, H, F) {
      RowsAfterClose(before, levels, docs, raw, F, H, i);
    } else {
      RowsAfterOpen(before, levels, docs, raw, F, H, i);
    }
  }

  /** The closed rows after sweep i when sweep i closes the open row. */
  lemma RowsAfterClose(before: seq<Row>, levels: seq<Row>, docs: seq<Doc>, raw: seq<seq<int>>, F: nat, H: nat,
                       i: nat)
    requires IsBatch(docs, raw, F) && i < |raw|
    requires ClosedRows(before, docs, raw, F, H, i)
    requires var cs := Closes(|raw|, H, F, i);
      RowStart(cs, |cs|) <= i && |levels| == |cs| + 1 &&
      (forall r | 0 <= r < |cs| :: levels[r] == before[r]) &&
      ClosesRow(i, |cs|, |raw|, H, F) && RowHolds(levels[|cs|], docs, raw, F, RowStart(cs, |cs|), i + 1, true)
    ensures Closes(|raw|, H, F, i + 1) == Closes(|raw|, H, F, i) + [i]
    ensures ClosedRows(levels, docs, raw, F, H, i + 1)
  {
    var cs := Closes(|raw|, H, F, i);
    var cs' := Closes(|raw|, H, F, i + 1);
    assert cs' == cs + [i];
    forall r | 0 <= r < |cs'|
      ensures RowHolds(levels[r], docs, raw, F, RowStart(cs', r), RowEnd(cs', r, i + 1), true)
    {
      if r < |cs| {
        assert RowStart(cs', r) == RowStart(cs, r) && RowEnd(cs', r, i + 1) == RowEnd(cs, r, i);
        assert RowHolds(before[r], docs, raw, F, RowStart(cs, r), RowEnd(cs, r, i), true);
      } else {
        assert RowStart(cs', r) == RowStart(cs, |cs|) && RowEnd(cs', r, i + 1) == i + 1;
      }
    }
  }

  /** The closed rows after sweep i when sweep i leaves the open row open. */
  lemma RowsAfterOpen(before: seq<Row>, levels: seq<Row>, docs: seq<Doc>, raw: seq<seq<int>>, F: nat, H: nat,
                      i: nat)
    requires IsBatch(docs, raw, F) && i < |raw|
    requires ClosedRows(before, docs, raw, F, H, i)
    requires var cs := Closes(|raw|, H, F, i);
      |levels| == |cs| + 1 && (forall r | 0 <= r < |cs| :: levels[r] == before[r]) &&
      !ClosesRow(i, |cs|, |raw|, H, F)
    ensures Closes(|raw|, H, F, i + 1) == Closes(|raw|, H, F, i)
    ensures ClosedRows(levels, docs, raw, F, H, i + 1)
  {
    var cs := Closes(|raw|, H, F, i);
    forall r | 0 <= r < |cs|
      ensures RowHolds(levels[r], docs, raw, F, RowStart(cs, r), RowEnd(cs, r, i + 1), true)
    {
      assert RowHolds(before[r], docs, raw, F, RowStart(cs, r), RowEnd(cs, r, i), true);
    }
  }

  /** A non-empty well-formed batch is a batch of its own readings and width. */
  lemma ReadingsOfBatch(docs: seq<Doc>)
    requires WellFormed(docs) && |docs| > 0
    ensures IsBatch(docs, Readings(docs), Width(docs))
  {
  }

  /**
   * Once every sweep is in, the rows are the runs of sweeps that Closes
   * delimits, each holding its sweeps' means when finished and their sums
   * when not; when there are at least as many bins as sweeps and a positive
   * height, there are min(height, M) rows and all are finished.
   */
  lemma RowsFinal(levels: seq<Row>, docs: seq<Doc>, raw: seq<seq<int>>, F: nat, H: nat,
                  levelIdx: nat, count: seq<int>)
    requires IsBatch(docs, raw, F)
    requires RowsAt(levels, docs, raw, F, H, |raw|, levelIdx, count)
    ensures var M := |raw|; var cs := Closes(M, H, F, M);
      |levels| == RowCount(cs, M) &&
      (forall r | 0 <= r < |levels| ::
         r <= |cs| && RowHolds(levels[r], docs, raw, F, RowStart(cs, r), RowEnd(cs, r, M), r < |cs|)) &&
      (H > 0 && F >= M ==> |levels| == |cs| == MinNat(H, M))
  {
    var M := |raw|;
    var cs := Closes(M, H, F, M);
    if H > 0 && F >= M {
      FullBatchRows(M, H, F);
    }
    forall r | 0 <= r < |levels|
      ensures r <= |cs| && RowHolds(levels[r], docs, raw, F, RowStart(cs, r), RowEnd(cs, r, M), r < |cs|)
    {
    }
  }

  /** A failed reading at sweep k leaves a bin's aggregates as they were after k sweeps. */
  lemma FailedBinStep(mn: Option<Entry<int>>, mx: Option<Entry<int>>, av: Option<Entry<real>>,
                      raw: seq<seq<int>>, f: nat, k: nat)
    requires HasBin(raw, f) && k < |raw| && raw[k][f] == SENTINEL
    requires BinAggregates(mn, mx, av, raw, f, k)
    ensures BinAggregates(mn, mx, av, raw, f, k + 1)
  {
    FailedReadingStep(raw, f, 0, k, if mn.Some? then mn.value.v else 0);
    FailedReadingStep(raw, f, 0, k, if mx.Some? then mx.value.v else 0);
  }

  class ChartsComponent {
    /** MAX_N: the length of each top-N list. */
    const maxN: nat
    /** CHART_HEIGHT: the number of waterfall rows a full batch is folded into. */
    const chartHeight: nat

    /** `data.levels`: the waterfall rows. */
    var levels: seq<Row>
    /** `data.agg.latest`: the latest sweep, failed readings as null. */
    var latest: seq<Entry<Option<int>>>
    /** `data.agg.min`, `data.agg.max`, `data.agg.avg`: sparse arrays keyed by bin. */
    var aggMin: map<nat, Entry<int>>
    var aggMax: map<nat, Entry<int>>
    var aggAvg: map<nat, Entry<real>>
    /** `data.freq_idxs`: the top-N bins of each aggregate, best first, null for an empty slot. */
    var freqIdxs: PerMetric<seq<Option<nat>>>
    /** `avg_time`: the mean sweep time in seconds, None while deleted. */
    var avgTime: Option<real>

    constructor (maxN: nat, chartHeight: nat)
      ensures this.maxN == maxN && this.chartHeight == chartHeight
      ensures levels == [] && latest == [] && avgTime == None
      ensures aggMin == map[] && aggMax == map[] && aggAvg == map[]
      ensures freqIdxs == PerMetric([], [], [])
    {
      this.maxN := maxN;
      this.chartHeight := chartHeight;
      levels := [];
      latest := [];
      aggMin := map[];
      aggMax := map[];
      aggAvg := map[];
      freqIdxs := PerMetric([], [], []);
      avgTime := None;
    }

    /** An array of `size` copies of v; a missing size means MAX_N. */
    method FillArray<T>(v: T, size: Option<nat>) returns (a: seq<T>)
      ensures |a| == (if size.None? then maxN else size.value)
      ensures forall k | 0 <= k < |a| :: a[k] == v
    {
      var n := if size.None? then maxN else size.value;
      a := [];
      for k := 0 to n
        invariant |a| == k
        invariant forall j | 0 <= j < k :: a[j] == v
      {
        a := a + [v];
      }
    }

    /** The values of one aggregate's sparse array, as the peak selection reads them. */
    function Values(x: Metric): map<nat, real>
      reads this`aggMin, this`aggMax, this`aggAvg
    {
      match x
      case Min => map k | k in aggMin :: aggMin[k].v as real
      case Max => map k | k in aggMax :: aggMax[k].v as real
      case Avg => map k | k in aggAvg :: aggAvg[k].v
    }

    /** Each metric's values are keyed by the bins of its sparse array, so they lie below F when those do. */
    lemma ValuesBelow(F: nat)
      requires KeysBelow(aggMin, aggMax, aggAvg, F)
      ensures forall x: Metric :: Admissible(Values(x), F)
    {
      forall x: Metric ensures Admissible(Values(x), F) {
        match x
        case Min => assert Values(x).Keys == aggMin.Keys;
        case Max => assert Values(x).Keys == aggMax.Keys;
        case Avg => assert Values(x).Keys == aggAvg.Keys;
      }
    }

    /** The state of mapData after folding in the first i sweeps. */
    ghost predicate FoldedBelow(batch: SweepBatch, docs: seq<Doc>, raw: seq<seq<int>>, F: nat,
                                i: nat, levelIdx: nat, count: seq<int>)
      reads this, batch
      requires IsBatch(docs, raw, F) && i <= |raw|
    {
      ScrubbedBelow(batch.docs, docs, i) &&
      Aggregates(aggMin, aggMax, aggAvg, raw, F, i) &&
      RowsAt(levels, docs, raw, F, chartHeight, i, levelIdx, count)
    }

    /** `agg.latest` from the last sweep (charts.component.ts:105-109). */
    method FillLatest(batch: SweepBatch, ghost docs: seq<Doc>, ghost raw: seq<seq<int>>, ghost F: nat)
      requires IsBatch(docs, raw, F) && batch.docs == docs && latest == []
      modifies this`latest
      ensures |latest| == F
      ensures forall f | 0 <= f < F :: latest[f] == Entry(f, Reading(raw[|raw| - 1][f]))
    {
      var last := batch.docs[|batch.docs| - 1].level;
      for f := 0 to |last|
        invariant |latest| == f
        invariant forall g | 0 <= g < f :: latest[g] == Entry(g, Reading(raw[|raw| - 1][g]))
      {
        var level := last[f].value;
        latest := latest + [Entry(f, if level != SENTINEL then Some(level) else None)];
      }
    }

    /**
     * Fold the valid reading `level` of bin f at sweep i into the aggregates
     * (charts.component.ts:133-142): it becomes the bin's min when there is
     * none or it is strictly smaller, its max likewise, and level/M is added to
     * its avg, which starts at 0. The entries of the other bins are unchanged.
     */
    method TakeReading(ghost raw: seq<seq<int>>, f: nat, ghost i: nat, level: int, M: nat)
      requires HasBin(raw, f) && i < |raw| == M && raw[i][f] == level && level != SENTINEL
      requires BinAggregates(At(aggMin, f), At(aggMax, f), At(aggAvg, f), raw, f, i)
      modifies this`aggMin, this`aggMax, this`aggAvg
      ensures BinAggregates(At(aggMin, f), At(aggMax, f), At(aggAvg, f), raw, f, i + 1)
      ensures f in aggMin && aggMin == old(aggMin)[f := aggMin[f]]
      ensures f in aggMax && aggMax == old(aggMax)[f := aggMax[f]]
      ensures f in aggAvg && aggAvg == old(aggAvg)[f := aggAvg[f]]
    {
      LeastStep(raw, f, i, f in aggMin, if f in aggMin then aggMin[f].v else 0);
      GreatestStep(raw, f, i, f in aggMax, if f in aggMax then aggMax[f].v else 0);
      AverageStep(raw, f, i, f in aggAvg, if f in aggAvg then aggAvg[f].v else 0.0);
      if f !in aggMin || level < aggMin[f].v {
        aggMin := aggMin[f := Entry(f, level)];
      }
      if f !in aggMax || level > aggMax[f].v {
        aggMax := aggMax[f := Entry(f, level)];
      }
      if f !in aggAvg {
        aggAvg := aggAvg[f := Entry(f, 0.0)];
      }
      aggAvg := aggAvg[f := aggAvg[f].(v := aggAvg[f].v + level as real / M as real)];
    }

    /**
     * Take bin f of sweep i into the open row and the aggregates
     * (charts.component.ts:127-145): a failed reading is replaced by null in
     * the batch and skipped; a valid one updates min, max and avg of the bin
     * and is added to the row's running sum and count. The row occupies index
     * levelIdx and started at sweep lo. Nothing of any other bin changes.
     */
    method TakeBin(batch: SweepBatch, ghost docs: seq<Doc>, ghost raw: seq<seq<int>>, ghost F: nat,
                   i: nat, f: nat, levelIdx: nat, ghost lo: nat, count0: seq<int>)
      returns (count: seq<int>)
      requires HasBin(raw, f) && lo <= i < |raw| == |docs| && f < F
      requires f < |docs[i].level| && docs[i].level[f] == Some(raw[i][f])
      requires |batch.docs| == |docs| && batch.docs[i] == ScrubbedUpTo(docs[i], f)
      requires levelIdx < |levels| && |levels[levelIdx].level| == F && |count0| == F
      requires BinTaken(At(aggMin, f), At(aggMax, f), At(aggAvg, f), levels[levelIdx].level[f], count0[f],
                        raw, f, lo, i)
      requires KeysBelow(aggMin, aggMax, aggAvg, F)
      modifies this`levels, this`aggMin, this`aggMax, this`aggAvg, batch`docs
      ensures batch.docs == old(batch.docs)[i := ScrubbedUpTo(docs[i], f + 1)]
      ensures |levels| == old(|levels|)
      ensures forall r | 0 <= r < |levels| && r != levelIdx :: levels[r] == old(levels[r])
      ensures levels[levelIdx] == old(levels[levelIdx]).(level := levels[levelIdx].level)
      ensures |levels[levelIdx].level| == F && |count| == F
      ensures BinTaken(At(aggMin, f), At(aggMax, f), At(aggAvg, f), levels[levelIdx].level[f], count[f],
                       raw, f, lo, i + 1)
      ensures forall g | 0 <= g < F && g != f ::
        At(aggMin, g) == At(old(aggMin), g) && At(aggMax, g) == At(old(aggMax), g) &&
        At(aggAvg, g) == At(old(aggAvg), g) &&
        levels[levelIdx].level[g] == old(levels[levelIdx].level[g]) && count[g] == count0[g]
      ensures KeysBelow(aggMin, aggMax, aggAvg, F)
    {
      var level := batch.docs[i].level[f].value;
      assert level == raw[i][f];
      ScrubStep(docs[i], f);
      count := count0;
      if level == SENTINEL {
        // a failed reading is removed from the batch
        batch.docs := batch.docs[i := batch.docs[i].(level := batch.docs[i].level[f := None])];
        FailedBinStep(At(aggMin, f), At(aggMax, f), At(aggAvg, f), raw, f, i);
        FailedReadingStep(raw, f, lo, i, 0);
        return;
      }
      TakeReading(raw, f, i, level, |batch.docs|);
      var row := levels[levelIdx];
      levels := levels[levelIdx := row.(level := row.level[f := row.level[f] + level as real])];
      count := count[f := count[f] + 1];
    }

    /**
     * Take sweep i into the open row and the aggregates (charts.component.ts:126-146),
     * bin by bin. The row occupies index levelIdx and started at sweep lo.
     */
    method AccumulateBins(batch: SweepBatch, ghost docs: seq<Doc>, ghost raw: seq<seq<int>>, ghost F: nat,
                          i: nat, levelIdx: nat, ghost lo: nat, count0: seq<int>)
      returns (count: seq<int>)
      requires IsBatch(docs, raw, F) && lo <= i < |raw|
      requires ScrubbedBelow(batch.docs, docs, i)
      requires Aggregates(aggMin, aggMax, aggAvg, raw, F, i)
      requires levelIdx < |levels| && RowHolds(levels[levelIdx], docs, raw, F, lo, i, false)
      requires |count0| == F && forall f | 0 <= f < F :: count0[f] == CountValid(raw, f, lo, i)
      modifies this`levels, this`aggMin, this`aggMax, this`aggAvg, batch`docs
      ensures ScrubbedBelow(batch.docs, docs, i + 1)
      ensures Aggregates(aggMin, aggMax, aggAvg, raw, F, i + 1)
      ensures |levels| == old(|levels|)
      ensures forall r | 0 <= r < |levels| && r != levelIdx :: levels[r] == old(levels[r])
      ensures RowHolds(levels[levelIdx], docs, raw, F, lo, i + 1, false)
      ensures |count| == F && forall f | 0 <= f < F :: count[f] == CountValid(raw, f, lo, i + 1)
    {
      count := count0;
      ghost var next := i + 1;
      ghost var row0 := levels[levelIdx];
      for f := 0 to |batch.docs[i].level|
        invariant |batch.docs| == |docs|
        invariant forall s | 0 <= s < |docs| && s != i ::
          batch.docs[s] == (if s < i then Scrubbed(docs[s]) else docs[s])
        invariant batch.docs[i] == ScrubbedUpTo(docs[i], f)
        invariant KeysBelow(aggMin, aggMax, aggAvg, F)
        invariant |levels| == old(|levels|)
        invariant forall r | 0 <= r < |levels| && r != levelIdx :: levels[r] == old(levels[r])
        invariant levels[levelIdx] == row0.(level := levels[levelIdx].level)
        invariant |levels[levelIdx].level| == F && |count| == F
        invariant forall g | 0 <= g < f ::
          BinTaken(At(aggMin, g), At(aggMax, g), At(aggAvg, g), levels[levelIdx].level[g], count[g], raw, g, lo, next)
        invariant forall g | f <= g < F ::
          BinTaken(At(aggMin, g), At(aggMax, g), At(aggAvg, g), levels[levelIdx].level[g], count[g], raw, g, lo, i)
      {
        count := TakeBin(batch, docs, raw, F, i, f, levelIdx, lo, count);
      }
    }

    /**
     * Finish the open row (charts.component.ts:149-155): at each of the sweep's
     * `width` bins the running sum becomes the mean of the row's valid
     * readings, or the sentinel when the row had none there.
     */
    method FinaliseRow(ghost docs: seq<Doc>, ghost raw: seq<seq<int>>, ghost F: nat,
                       levelIdx: nat, ghost lo: nat, ghost hi: nat, count: seq<int>, width: nat)
      requires IsBatch(docs, raw, F) && lo < hi <= |raw| && width == F
      requires levelIdx < |levels| && RowHolds(levels[levelIdx], docs, raw, F, lo, hi, false)
      requires |count| == F && forall f | 0 <= f < F :: count[f] == CountValid(raw, f, lo, hi)
      modifies this`levels
      ensures |levels| == old(|levels|)
      ensures forall r | 0 <= r < |levels| && r != levelIdx :: levels[r] == old(levels[r])
      ensures RowHolds(levels[levelIdx], docs, raw, F, lo, hi, true)
    {
      for f := 0 to width
        invariant |levels| == old(|levels|)
        invariant forall r | 0 <= r < |levels| && r != levelIdx :: levels[r] == old(levels[r])
        invariant levels[levelIdx].timestamp == docs[lo].timestamp
        invariant levels[levelIdx].sweepN == docs[lo].n
        invariant |levels[levelIdx].level| == F
        invariant forall g | 0 <= g < f :: levels[levelIdx].level[g] == RowMean(raw, g, lo, hi)
        invariant forall g | f <= g < F :: levels[levelIdx].level[g] == SumValid(raw, g, lo, hi) as real
      {
        var row := levels[levelIdx];
        if count[f] > 0 {
          levels := levels[levelIdx := row.(level := row.level[f := row.level[f] / count[f] as real])];
        } else {
          // no reading
          levels := levels[levelIdx := row.(level := row.level[f := SENTINEL as real])];
        }
      }
    }

    /**
     * Open a row of zeros stamped with sweep i when there is none at levelIdx
     * (charts.component.ts:113-125), with a count of zeros beside it; an
     * open row is left as it is.
     */
    method OpenRow(batch: SweepBatch, ghost docs: seq<Doc>, ghost raw: seq<seq<int>>, ghost F: nat,
                   i: nat, levelIdx: nat, ghost lo: nat, count0: seq<int>)
      returns (count: seq<int>)
      requires IsBatch(docs, raw, F) && lo <= i < |raw| && |batch.docs| == |docs| && batch.docs[i] == docs[i]
      requires levelIdx <= |levels|
      requires levelIdx < |levels| ==>
        RowHolds(levels[levelIdx], docs, raw, F, lo, i, false) &&
        |count0| == F && forall f | 0 <= f < F :: count0[f] == CountValid(raw, f, lo, i)
      requires levelIdx == |levels| ==> lo == i
      modifies this`levels
      ensures levelIdx < |levels| == old(|levels|) + (if levelIdx < old(|levels|) then 0 else 1)
      ensures forall r | 0 <= r < old(|levels|) :: levels[r] == old(levels[r])
      ensures RowHolds(levels[levelIdx], docs, raw, F, lo, i, false)
      ensures |count| == F && forall f | 0 <= f < F :: count[f] == CountValid(raw, f, lo, i)
    {
      count := count0;
      if levelIdx >= |levels| {
        var length := |batch.docs[i].level|;
        var zeros := FillArray(0.0, Some(length));
        levels := levels + [Row(zeros, batch.docs[i].timestamp, batch.docs[i].n)];
        count := FillArray(0, Some(length));
      }
    }

    /**
     * Fold sweep i into the waterfall and the aggregates (charts.component.ts:112-158,
     * without the sweep time): open a row of zeros when there is none at
     * levelIdx, take the sweep in, and finish the row when the sweep reaches
     * the row's share of the batch or its index equals its own bin count minus one.
     */
    method FoldSweep(batch: SweepBatch, ghost docs: seq<Doc>, ghost raw: seq<seq<int>>, ghost F: nat,
                     i: nat, levelIdx0: nat, count0: seq<int>)
      returns (levelIdx: nat, count: seq<int>)
      requires IsBatch(docs, raw, F) && i < |raw|
      requires FoldedBelow(batch, docs, raw, F, i, levelIdx0, count0)
      modifies this`levels, this`aggMin, this`aggMax, this`aggAvg, batch`docs
      ensures FoldedBelow(batch, docs, raw, F, i + 1, levelIdx, count)
    {
      var length := |batch.docs[i].level|;
      ghost var cs := Closes(|raw|, chartHeight, F, i);
      ghost var lo := RowStart(cs, |cs|);
      RowsBefore(levels, docs, raw, F, chartHeight, i, levelIdx0, count0);
      levelIdx := levelIdx0;
      count := OpenRow(batch, docs, raw, F, i, levelIdx, lo, count0);
      count := AccumulateBins(batch, docs, raw, F, i, levelIdx, lo, count);
      levelIdx, count := CloseRowIfDue(docs, raw, F, i, levelIdx, lo, count, |batch.docs|, length);
    }

    /**
     * Finish the open row at levelIdx once sweep i is in, when the sweep
     * reaches the row's share of the M sweeps or its index equals the sweep's
     * bin count `length` minus one (charts.component.ts:148-157); the next
     * row is then levelIdx + 1 and the count is null.
     */
    method CloseRowIfDue(ghost docs: seq<Doc>, ghost raw: seq<seq<int>>, ghost F: nat,
                         i: nat, levelIdx0: nat, ghost lo: nat, count0: seq<int>, M: nat, length: nat)
      returns (levelIdx: nat, count: seq<int>)
      requires IsBatch(docs, raw, F) && i < |raw| == M && length == F
      requires var cs := Closes(|raw|, chartHeight, F, i);
        levelIdx0 == |cs| && lo == RowStart(cs, |cs|) && lo <= i && |levels| == |cs| + 1 &&
        ClosedRows(levels, docs, raw, F, chartHeight, i)
      requires RowHolds(levels[levelIdx0], docs, raw, F, lo, i + 1, false)
      requires |count0| == F && forall f | 0 <= f < F :: count0[f] == CountValid(raw, f, lo, i + 1)
      modifies this`levels
      ensures RowsAt(levels, docs, raw, F, chartHeight, i + 1, levelIdx, count)
    {
      ghost var before := levels;
      levelIdx, count := levelIdx0, count0;
      if chartHeight * (i + 1) >= (levelIdx + 1) * M || i == length - 1 {
        FinaliseRow(docs, raw, F, levelIdx, lo, i + 1, count, length);
        levelIdx := levelIdx + 1;
        count := [];
      }
      RowsAfter(before, levels, docs, raw, F, chartHeight, i, levelIdx, count);
    }

    /**
     * Fold every sweep of the batch into the waterfall and the aggregates,
     * adding up the sweep times (charts.component.ts:110-160).
     */
    method FoldBatch(batch: SweepBatch, ghost docs: seq<Doc>, ghost raw: seq<seq<int>>, ghost F: nat)
      returns (totalTime: real, levelIdx: nat, count: seq<int>)
      requires IsBatch(docs, raw, F) && batch.docs == docs
      requires levels == [] && aggMin == map[] && aggMax == map[] && aggAvg == map[]
      modifies this`levels, this`aggMin, this`aggMax, this`aggAvg, batch`docs
      ensures FoldedBelow(batch, docs, raw, F, |raw|, levelIdx, count)
      ensures totalTime == TotalTime(docs, |docs|)
    {
      totalTime := 0.0;
      levelIdx, count := 0, [];
      for i := 0 to |batch.docs|
        invariant FoldedBelow(batch, docs, raw, F, i, levelIdx, count)
        invariant totalTime == TotalTime(docs, i)
      {
        totalTime := totalTime + batch.docs[i].totaltime;
        levelIdx, count := FoldSweep(batch, docs, raw, F, i, levelIdx, count);
      }
    }

    /**
     * Fill the top-N lists of min, max and avg in that order
     * (charts.component.ts:165-197), stopping at the first that fails and
     * leaving the lists after it as they were.
     */
    method FindAllTopN(bound: nat) returns (ok: bool)
      requires forall x: Metric :: Admissible(Values(x), bound)
      requires forall x: Metric :: Unfilled(freqIdxs.Get(x))
      modifies this`freqIdxs
      ensures forall x: Metric :: |freqIdxs.Get(x)| == old(|freqIdxs.Get(x)|)
      ensures forall x: Metric :: WellOrdered(freqIdxs.Get(x), Values(x), x == Min)
      ensures ok <==> NoThrow(Values(Min), bound) && NoThrow(Values(Max), bound) && NoThrow(Values(Avg), bound)
      ensures ok ==> forall x: Metric :: IsTopN(freqIdxs.Get(x), Values(x), bound, x == Min)
      ensures Selected(freqIdxs.Get(Min), Values(Min), bound, true)
      ensures NoThrow(Values(Min), bound) ==> Selected(freqIdxs.Get(Max), Values(Max), bound, false)
      ensures NoThrow(Values(Min), bound) && NoThrow(Values(Max), bound) ==>
        Selected(freqIdxs.Get(Avg), Values(Avg), bound, false)
      ensures !NoThrow(Values(Min), bound) ==> freqIdxs.Get(Max) == old(freqIdxs.Get(Max))
      ensures !(NoThrow(Values(Min), bound) && NoThrow(Values(Max), bound)) ==>
        freqIdxs.Get(Avg) == old(freqIdxs.Get(Avg))
    {
      var mins, maxs, avgs := freqIdxs.Get(Min), freqIdxs.Get(Max), freqIdxs.Get(Avg);
      var vMin, vMax, vAvg := Values(Min), Values(Max), Values(Avg);
      EmptySlotsWellOrdered(maxs, vMax, false);
      EmptySlotsWellOrdered(avgs, vAvg, false);
      mins, ok := SelectPeaks(vMin, bound, true, mins);
      if ok {
        maxs, ok := SelectPeaks(vMax, bound, false, maxs);
      }
      if ok {
        avgs, ok := SelectPeaks(vAvg, bound, false, avgs);
      }
      freqIdxs := PerMetric(mins, maxs, avgs);
    }

    /**
     * The component's state summarises the non-empty well-formed batch docs
     * of M sweeps with F bins each: `latest` is the last sweep with failed
     * readings as null; each bin's min, max and avg are as Aggregates says;
     * the rows are the runs of sweeps that Closes delimits, finished ones
     * holding means and an unfinished last one its sums, and there are
     * min(height, M) of them, all finished, when F >= M; avg_time is the
     * total sweep time over M thousand; and the top-N lists are selected
     * for min, max and avg in that order up to the first metric whose
     * neighbour pre-filter fails, which keeps its selection up to the
     * failing bin while the lists after it stay empty; ok tells whether
     * every pre-filter succeeds.
     */
    ghost predicate Summarises(docs: seq<Doc>, ok: bool)
      reads this
      requires WellFormed(docs) && docs != []
    {
      Folds(docs) && Selects(Width(docs), ok)
    }

    /** The part of Summarises that the fold over the sweeps establishes. */
    ghost predicate Folds(docs: seq<Doc>)
      reads this`latest, this`levels, this`aggMin, this`aggMax, this`aggAvg, this`avgTime
      requires WellFormed(docs) && docs != []
    {
      ReadingsOfBatch(docs);
      var raw := Readings(docs);
      var M := |docs|;
      var F := Width(docs);
      var cs := Closes(M, chartHeight, F, M);
      |latest| == F && (forall f | 0 <= f < F :: latest[f] == Entry(f, Reading(raw[M - 1][f]))) &&
      Aggregates(aggMin, aggMax, aggAvg, raw, F, M) &&
      |levels| == RowCount(cs, M) &&
      (forall r | 0 <= r < |levels| ::
         r <= |cs| && RowHolds(levels[r], docs, raw, F, RowStart(cs, r), RowEnd(cs, r, M), r < |cs|)) &&
      (chartHeight > 0 && F >= M ==> |levels| == |cs| == MinNat(chartHeight, M)) &&
      avgTime == Some(TotalTime(docs, M) / (1000.0 * M as real))
    }

    /** The part of Summarises that the peak selection over F bins establishes. */
    ghost predicate Selects(F: nat, ok: bool)
      reads this`aggMin, this`aggMax, this`aggAvg, this`freqIdxs
    {
      (forall x: Metric :: Admissible(Values(x), F)) &&
      (ok <==> NoThrow(Values(Min), F) && NoThrow(Values(Max), F) && NoThrow(Values(Avg), F)) &&
      (ok ==> forall x: Metric :: IsTopN(freqIdxs.Get(x), Values(x), F, x == Min)) &&
      Selected(freqIdxs.Get(Min), Values(Min), F, true) &&
      (NoThrow(Values(Min), F) ==> Selected(freqIdxs.Get(Max), Values(Max), F, false)) &&
      (NoThrow(Values(Min), F) && NoThrow(Values(Max), F) ==> Selected(freqIdxs.Get(Avg), Values(Avg), F, false)) &&
      (!NoThrow(Values(Min), F) ==> Unfilled(freqIdxs.Get(Max))) &&
      (!(NoThrow(Values(Min), F) && NoThrow(Values(Max), F)) ==> Unfilled(freqIdxs.Get(Avg)))
    }

    /**
     * The reset at the start of mapData (charts.component.ts:94-99): no rows,
     * empty aggregates, top-N lists of MAX_N empty slots, no avg_time.
     */
    method Reset()
      modifies this
      ensures levels == [] && latest == [] && avgTime == None
      ensures aggMin == map[] && aggMax == map[] && aggAvg == map[]
      ensures forall x: Metric :: |freqIdxs.Get(x)| == maxN
      ensures forall x: Metric, k | 0 <= k < maxN :: freqIdxs.Get(x)[k] == None
    {
      levels := [];
      latest := [];
      aggMin, aggMax, aggAvg := map[], map[], map[];
      var mins := FillArray(None, None);
      var maxs := FillArray(None, None);
      var avgs := FillArray(None, None);
      freqIdxs := PerMetric(mins, maxs, avgs);
      avgTime := None;
    }

    /**
     * The fold of a non-empty batch once the state is reset
     * (charts.component.ts:104-162): the latest sweep, the sweeps one by one,
     * then avg_time.
     */
    method FoldAll(batch: SweepBatch)
      requires WellFormed(batch.docs) && batch.docs != []
      requires levels == [] && latest == [] && aggMin == map[] && aggMax == map[] && aggAvg == map[]
      modifies this`levels, this`latest, this`aggMin, this`aggMax, this`aggAvg, this`avgTime, batch`docs
      ensures |batch.docs| == |old(batch.docs)|
      ensures forall s | 0 <= s < |batch.docs| :: batch.docs[s] == Scrubbed(old(batch.docs)[s])
      ensures Folds(old(batch.docs))
    {
      ghost var docs := batch.docs;
      ghost var raw := Readings(docs);
      ghost var F := Width(docs);
      var M := |batch.docs|;
      ReadingsOfBatch(docs);
      FillLatest(batch, docs, raw, F);
      var totalTime, levelIdx, count := FoldBatch(batch, docs, raw, F);
      AllScrubbed(batch.docs, docs);
      avgTime := Some(totalTime / (1000.0 * M as real));
      RowsFinal(levels, docs, raw, F, chartHeight, levelIdx, count);
    }

    /** The work of mapData on a non-empty batch once the state is reset (charts.component.ts:104-198). */
    method Summarise(batch: SweepBatch) returns (ok: bool)
      requires WellFormed(batch.docs) && batch.docs != []
      requires levels == [] && latest == [] && aggMin == map[] && aggMax == map[] && aggAvg == map[]
      requires forall x: Metric :: Unfilled(freqIdxs.Get(x))
      modifies this`levels, this`latest, this`aggMin, this`aggMax, this`aggAvg, this`freqIdxs, this`avgTime
      modifies batch`docs
      ensures |batch.docs| == |old(batch.docs)|
      ensures forall s | 0 <= s < |batch.docs| :: batch.docs[s] == Scrubbed(old(batch.docs)[s])
      ensures forall x: Metric :: |freqIdxs.Get(x)| == old(|freqIdxs.Get(x)|)
      ensures forall x: Metric :: WellOrdered(freqIdxs.Get(x), Values(x), x == Min)
      ensures Summarises(old(batch.docs), ok)
    {
      ghost var docs := batch.docs;
      ghost var slots0 := freqIdxs;
      FoldAll(batch);
      assert |batch.docs[0].level| == Width(docs);
      var bins := |batch.docs[0].level|;
      assert freqIdxs == slots0;
      ValuesBelow(bins);
      ok := FindAllTopN(bins);
    }

    /**
     * Summarise a batch of sweeps (charts.component.ts:91-199): reset the
     * state, then, for a non-empty batch, write null over the batch's failed
     * readings and leave a state that Summarises the batch as given. An
     * empty batch leaves the state reset. The top-N lists always keep MAX_N
     * slots in best-first order.
     */
    method MapData(batch: SweepBatch) returns (ok: bool)
      requires WellFormed(batch.docs)
      modifies this, batch
      ensures |batch.docs| == |old(batch.docs)|
      ensures forall s | 0 <= s < |batch.docs| :: batch.docs[s] == Scrubbed(old(batch.docs)[s])
      ensures forall x: Metric :: |freqIdxs.Get(x)| == maxN && WellOrdered(freqIdxs.Get(x), Values(x), x == Min)
      ensures old(batch.docs) == [] ==>
        ok && levels == [] && latest == [] && avgTime == None &&
        aggMin == map[] && aggMax == map[] && aggAvg == map[] &&
        forall x: Metric, k | 0 <= k < maxN :: freqIdxs.Get(x)[k] == None
      ensures old(batch.docs) != [] ==> Summarises(old(batch.docs), ok)
    {
      Reset();
      if |batch.docs| > 0 {
        ok := Summarise(batch);
      } else {
        ok := true;
      }
    }
  }
}
