/**
 * Sweep documents as the spectrum charts receive them, and the per-bin
 * quantities that a batch of them defines: sums and counts of valid readings,
 * least and greatest valid readings, row means and the total sweep time.
 *
 * A level of SENTINEL (-128) is a failed reading and carries no measurement.
 */
module Sweeps {

  /** The level that a sweep producer stores for a failed reading. */
  const SENTINEL: int := -128

  datatype Option<T> = None | Some(value: T)

  /**
   * One sweep document: `fields.level`, `fields.timestamp[0]`, `fields.n[0]`
   * and `fields.totaltime[0]` (milliseconds). A level entry None is the null
   * that the charts component writes over a failed reading.
   */
  datatype Doc = Doc(level: seq<Option<int>>, timestamp: int, n: int, totaltime: real)

  /** One waterfall row: `fields.level`, `fields.timestamp` and `fields.sweep_n`. */
  datatype Row = Row(level: seq<real>, timestamp: int, sweepN: int)

  /** The number of frequency bins of a batch, read from its first sweep. */
  function Width(docs: seq<Doc>): nat {
    if docs == [] then 0 else |docs[0].level|
  }

  /** Every sweep of the batch holds a number for each of the same Width(docs) bins. */
  predicate WellFormed(docs: seq<Doc>) {
    forall s | 0 <= s < |docs| ::
      |docs[s].level| == Width(docs) &&
      forall f | 0 <= f < |docs[s].level| :: docs[s].level[f].Some?
  }

  /** The readings of a well-formed batch, sweep by bin. */
  function Readings(docs: seq<Doc>): (raw: seq<seq<int>>)
    requires WellFormed(docs)
    ensures |raw| == |docs|
    ensures forall s | 0 <= s < |raw| ::
      |raw[s]| == Width(docs) && forall f | 0 <= f < |raw[s]| :: docs[s].level[f] == Some(raw[s][f])
  {
    seq(|docs|, s requires 0 <= s < |docs| =>
      seq(|docs[s].level|, f requires 0 <= f < |docs[s].level| => docs[s].level[f].value))
  }

  /** The sentinel filter: the reading itself, or None for a failed reading. */
  function Reading(level: int): Option<int> {
    if level == SENTINEL then None else Some(level)
  }

  /** What is left of one stored level once a failed reading has been replaced by null. */
  function Scrub(o: Option<int>): Option<int> {
    if o == Some(SENTINEL) then None else o
  }

  /** A sweep document whose first `upTo` levels have been scrubbed. */
  function ScrubbedUpTo(d: Doc, upTo: nat): (r: Doc)
    ensures r.timestamp == d.timestamp && r.n == d.n && r.totaltime == d.totaltime
    ensures |r.level| == |d.level|
  {
    d.(level := seq(|d.level|, f requires 0 <= f < |d.level| =>
                      if f < upTo then Scrub(d.level[f]) else d.level[f]))
  }

  /** Scrubbing one more level writes null over it when it is a failed reading. */
  lemma ScrubStep(d: Doc, f: nat)
    requires f < |d.level|
    ensures var p := ScrubbedUpTo(d, f);
      ScrubbedUpTo(d, f + 1) == if d.level[f] == Some(SENTINEL) then p.(level := p.level[f := None]) else p
  {
    var p := ScrubbedUpTo(d, f);
    var q := ScrubbedUpTo(d, f + 1);
    if d.level[f] == Some(SENTINEL) {
      assert q.level == p.level[f := None];
    } else {
      assert q.level == p.level;
    }
  }

  /** A sweep document with every failed reading replaced by null. */
  function Scrubbed(d: Doc): Doc {
    ScrubbedUpTo(d, |d.level|)
  }

  /** Bin f exists in every sweep. */
  predicate HasBin(raw: seq<seq<int>>, f: nat) {
    forall s | 0 <= s < |raw| :: f < |raw[s]|
  }

  /** Sum of the valid readings of bin f over the sweeps lo .. hi-1. */
  function SumValid(raw: seq<seq<int>>, f: nat, lo: nat, hi: nat): int
    requires HasBin(raw, f) && lo <= hi <= |raw|
    decreases hi
  {
    if hi == lo then 0
    else SumValid(raw, f, lo, hi - 1) + (if raw[hi - 1][f] == SENTINEL then 0 else raw[hi - 1][f])
  }

  /** Number of valid readings of bin f over the sweeps lo .. hi-1. */
  function CountValid(raw: seq<seq<int>>, f: nat, lo: nat, hi: nat): nat
    requires HasBin(raw, f) && lo <= hi <= |raw|
    decreases hi
  {
    if hi == lo then 0
    else CountValid(raw, f, lo, hi - 1) + (if raw[hi - 1][f] == SENTINEL then 0 else 1)
  }

  /** Some sweep among lo .. hi-1 has a valid reading at bin f. */
  predicate HasValid(raw: seq<seq<int>>, f: nat, lo: nat, hi: nat)
    requires HasBin(raw, f) && lo <= hi <= |raw|
  {
    exists s | lo <= s < hi :: raw[s][f] != SENTINEL
  }

  /** m is a valid reading of bin f among the first hi sweeps, and no valid one is smaller. */
  predicate IsLeastValid(m: int, raw: seq<seq<int>>, f: nat, hi: nat)
    requires HasBin(raw, f) && hi <= |raw|
  {
    (exists s | 0 <= s < hi :: raw[s][f] != SENTINEL && raw[s][f] == m) &&
    (forall s | 0 <= s < hi :: raw[s][f] != SENTINEL ==> m <= raw[s][f])
  }

  /** m is a valid reading of bin f among the first hi sweeps, and no valid one is larger. */
  predicate IsGreatestValid(m: int, raw: seq<seq<int>>, f: nat, hi: nat)
    requires HasBin(raw, f) && hi <= |raw|
  {
    (exists s | 0 <= s < hi :: raw[s][f] != SENTINEL && raw[s][f] == m) &&
    (forall s | 0 <= s < hi :: raw[s][f] != SENTINEL ==> raw[s][f] <= m)
  }

  /**
   * The level a finished row shows at bin f: the mean of the valid readings of
   * the row's sweeps lo .. hi-1, or the sentinel when there is none.
   */
  function RowMean(raw: seq<seq<int>>, f: nat, lo: nat, hi: nat): real
    requires HasBin(raw, f) && lo <= hi <= |raw|
  {
    var c := CountValid(raw, f, lo, hi);
    if c > 0 then SumValid(raw, f, lo, hi) as real / c as real else SENTINEL as real
  }

  /** The mean over the whole batch of bin f: valid readings summed, divided by every sweep. */
  function BatchAverage(raw: seq<seq<int>>, f: nat): real
    requires HasBin(raw, f) && |raw| > 0
  {
    SumValid(raw, f, 0, |raw|) as real / |raw| as real
  }

  /** Sum of `totaltime` over the first k sweeps. */
  function TotalTime(docs: seq<Doc>, k: nat): real
    requires k <= |docs|
  {
    if k == 0 then 0.0 else TotalTime(docs, k - 1) + docs[k - 1].totaltime
  }

  /** The count of valid readings is positive exactly when a valid reading exists. */
  lemma {:induction false} CountValidPositive(raw: seq<seq<int>>, f: nat, lo: nat, hi: nat)
    requires HasBin(raw, f) && lo <= hi <= |raw|
    ensures CountValid(raw, f, lo, hi) > 0 <==> HasValid(raw, f, lo, hi)
    decreases hi
  {
    if hi > lo {
      CountValidPositive(raw, f, lo, hi - 1);
      if raw[hi - 1][f] != SENTINEL {
        assert lo <= hi - 1 < hi;
      }
    }
  }

  /**
   * Sentinel exclusion: when every valid reading of bin f in lo .. hi-1 lies
   * in [low, high], the sum of the valid readings lies between count * low
   * and count * high; a failed reading contributes to neither.
   */
  lemma {:induction false} SumValidBounds(raw: seq<seq<int>>, f: nat, lo: nat, hi: nat, low: int, high: int)
    requires HasBin(raw, f) && lo <= hi <= |raw|
    requires forall s | lo <= s < hi :: raw[s][f] != SENTINEL ==> low <= raw[s][f] <= high
    ensures CountValid(raw, f, lo, hi) * low <= SumValid(raw, f, lo, hi) <= CountValid(raw, f, lo, hi) * high
    decreases hi
  {
    if hi > lo {
      SumValidBounds(raw, f, lo, hi - 1, low, high);
      var c := CountValid(raw, f, lo, hi - 1);
      var sum := SumValid(raw, f, lo, hi - 1);
      var x := raw[hi - 1][f];
      if x != SENTINEL {
        assert CountValid(raw, f, lo, hi) == c + 1 && SumValid(raw, f, lo, hi) == sum + x;
        MulSucc(c, low);
        MulSucc(c, high);
      } else {
        assert CountValid(raw, f, lo, hi) == c && SumValid(raw, f, lo, hi) == sum;
      }
    }
  }

  lemma MulSucc(c: int, m: int)
    ensures (c + 1) * m == c * m + m
  {
  }

  /**
   * A finished row's level at a bin with valid readings lies within the range
   * of those readings: it is their mean, and failed readings do not drag it.
   */
  lemma RowMeanWithin(raw: seq<seq<int>>, f: nat, lo: nat, hi: nat, low: int, high: int)
    requires HasBin(raw, f) && lo <= hi <= |raw|
    requires forall s | lo <= s < hi :: raw[s][f] != SENTINEL ==> low <= raw[s][f] <= high
    requires HasValid(raw, f, lo, hi)
    ensures low as real <= RowMean(raw, f, lo, hi) <= high as real
  {
    CountValidPositive(raw, f, lo, hi);
    SumValidBounds(raw, f, lo, hi, low, high);
    var n := CountValid(raw, f, lo, hi);
    var sum := SumValid(raw, f, lo, hi);
    assert RowMean(raw, f, lo, hi) == sum as real / n as real;
    QuotientBounds(sum, n, low, high);
  }

  /** An integer sum of n terms within [low, high], divided by n, lies in [low, high]. */
  lemma QuotientBounds(sum: int, n: int, low: int, high: int)
    requires n > 0 && n * low <= sum <= n * high
    ensures low as real <= sum as real / n as real <= high as real
  {
    assert (n * low) as real == n as real * low as real;
    assert (n * high) as real == n as real * high as real;
    DivideBounds(sum as real, n as real, low as real, high as real);
  }

  lemma DivideBounds(sum: real, c: real, low: real, high: real)
    requires c > 0.0 && c * low <= sum <= c * high
    ensures low <= sum / c <= high
  {
    assert sum / c * c == sum;
  }

  /**
   * The batch average divides by every sweep, not by the valid ones: it is the
   * mean of the valid readings scaled by the fraction of sweeps that were valid.
   */
  lemma BatchAverageScaled(raw: seq<seq<int>>, f: nat)
    requires HasBin(raw, f) && |raw| > 0
    requires HasValid(raw, f, 0, |raw|)
    ensures BatchAverage(raw, f) ==
            (CountValid(raw, f, 0, |raw|) as real / |raw| as real) * RowMean(raw, f, 0, |raw|)
  {
    CountValidPositive(raw, f, 0, |raw|);
    var c := CountValid(raw, f, 0, |raw|) as real;
    var sum := SumValid(raw, f, 0, |raw|) as real;
    var m := |raw| as real;
    assert RowMean(raw, f, 0, |raw|) == sum / c;
    calc {
      (c / m) * (sum / c);
      (c * sum) / (m * c);
      sum / m;
    }
  }

  /** Without a valid reading the sum and the count of valid readings are both zero. */
  lemma {:induction false} NoValidSumZero(raw: seq<seq<int>>, f: nat, lo: nat, hi: nat)
    requires HasBin(raw, f) && lo <= hi <= |raw|
    requires !HasValid(raw, f, lo, hi)
    ensures SumValid(raw, f, lo, hi) == 0 && CountValid(raw, f, lo, hi) == 0
    decreases hi
  {
    if hi > lo {
      NoValidSumZero(raw, f, lo, hi - 1);
    }
  }

  /**
   * A failed reading at sweep k changes nothing that the first k sweeps
   * define: whether a valid reading exists, the least and greatest valid
   * reading, and the sum and count of valid readings.
   */
  lemma FailedReadingStep(raw: seq<seq<int>>, f: nat, lo: nat, k: nat, m: int)
    requires HasBin(raw, f) && lo <= k < |raw| && raw[k][f] == SENTINEL
    ensures HasValid(raw, f, lo, k + 1) <==> HasValid(raw, f, lo, k)
    ensures IsLeastValid(m, raw, f, k + 1) <==> IsLeastValid(m, raw, f, k)
    ensures IsGreatestValid(m, raw, f, k + 1) <==> IsGreatestValid(m, raw, f, k)
    ensures SumValid(raw, f, lo, k + 1) == SumValid(raw, f, lo, k)
    ensures CountValid(raw, f, lo, k + 1) == CountValid(raw, f, lo, k)
  {
  }

  /**
   * A valid reading at sweep k replaces the least valid reading so far when
   * there is none or it is strictly smaller; otherwise the old one stays least.
   */
  lemma LeastStep(raw: seq<seq<int>>, f: nat, k: nat, present: bool, m: int)
    requires HasBin(raw, f) && k < |raw| && raw[k][f] != SENTINEL
    requires present <==> HasValid(raw, f, 0, k)
    requires present ==> IsLeastValid(m, raw, f, k)
    ensures HasValid(raw, f, 0, k + 1)
    ensures IsLeastValid(if !present || raw[k][f] < m then raw[k][f] else m, raw, f, k + 1)
  {
    assert 0 <= k < k + 1;
  }

  /**
   * A valid reading at sweep k replaces the greatest valid reading so far when
   * there is none or it is strictly larger; otherwise the old one stays greatest.
   */
  lemma GreatestStep(raw: seq<seq<int>>, f: nat, k: nat, present: bool, m: int)
    requires HasBin(raw, f) && k < |raw| && raw[k][f] != SENTINEL
    requires present <==> HasValid(raw, f, 0, k)
    requires present ==> IsGreatestValid(m, raw, f, k)
    ensures HasValid(raw, f, 0, k + 1)
    ensures IsGreatestValid(if !present || raw[k][f] > m then raw[k][f] else m, raw, f, k + 1)
  {
    assert 0 <= k < k + 1;
  }

  /**
   * Adding reading/M to the running average after k sweeps, which starts at 0
   * when there has been no valid reading, gives the sum of the valid readings
   * of the first k + 1 sweeps divided by M.
   */
  lemma AverageStep(raw: seq<seq<int>>, f: nat, k: nat, present: bool, a: real)
    requires HasBin(raw, f) && k < |raw| && raw[k][f] != SENTINEL
    requires present <==> HasValid(raw, f, 0, k)
    requires present ==> a == SumValid(raw, f, 0, k) as real / |raw| as real
    ensures (if present then a else 0.0) + raw[k][f] as real / |raw| as real ==
            SumValid(raw, f, 0, k + 1) as real / |raw| as real
  {
    if !present {
      NoValidSumZero(raw, f, 0, k);
    }
    AddQuotients(SumValid(raw, f, 0, k) as real, raw[k][f] as real, |raw| as real);
  }

  lemma AddQuotients(a: real, b: real, m: real)
    requires m > 0.0
    ensures a / m + b / m == (a + b) / m
  {
    assert (a / m + b / m) * m == a + b;
    assert ((a + b) / m) * m == a + b;
    assert (a / m + b / m - (a + b) / m) * m == 0.0;
  }
}
