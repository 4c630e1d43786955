/**
 * How mapData partitions a batch of M sweeps into waterfall rows for a chart
 * of height H when every sweep has F bins.
 *
 * The source closes the row being built after sweep i when
 * `i >= (row + 1) * interval - 1` with `interval = M / H`, or when
 * `i == length - 1` where `length` is the sweep's bin count F (not M).
 * Since i + 1 >= (row + 1) * M / H is H * (i + 1) >= (row + 1) * M for H > 0,
 * the test is stated here on integers; for H == 0 neither form ever holds.
 */
module Binning {

  /** Sweep i closes row r (the test of charts.component.ts:148, on integers). */
  predicate ClosesRow(i: nat, r: nat, M: nat, H: nat, F: nat) {
    H * (i + 1) >= (r + 1) * M || i == F - 1
  }

  /** The indices of the sweeps that closed a row, among the first k sweeps. */
  function Closes(M: nat, H: nat, F: nat, k: nat): (cs: seq<nat>)
    ensures |cs| <= k
    ensures forall j | 0 <= j < |cs| :: cs[j] < k
    ensures forall j, j' | 0 <= j < j' < |cs| :: cs[j] < cs[j']
  {
    if k == 0 then []
    else
      var prev := Closes(M, H, F, k - 1);
      if ClosesRow(k - 1, |prev|, M, H, F) then prev + [k - 1] else prev
  }

  /** The first sweep of row r, given the closing sweeps cs. */
  function RowStart(cs: seq<nat>, r: nat): nat
    requires r <= |cs|
  {
    if r == 0 then 0 else cs[r - 1] + 1
  }

  /** One past the last sweep of row r after k sweeps: its closing sweep, or k for an open row. */
  function RowEnd(cs: seq<nat>, r: nat, k: nat): nat
    requires r <= |cs|
  {
    if r < |cs| then cs[r] + 1 else k
  }

  /** The number of rows after k sweeps: the closed ones, plus an open one if sweeps follow the last close. */
  function RowCount(cs: seq<nat>, k: nat): nat {
    |cs| + (if RowStart(cs, |cs|) < k then 1 else 0)
  }

  function MinNat(a: nat, b: nat): nat {
    if a <= b then a else b
  }

  /**
   * The rows after k sweeps are consecutive, non-empty runs of sweeps that
   * start at sweep 0 and together cover the sweeps 0 .. k-1.
   */
  lemma RowsPartition(M: nat, H: nat, F: nat, k: nat)
    ensures var cs := Closes(M, H, F, k);
      (forall r | 0 <= r < RowCount(cs, k) ::
         r <= |cs| && RowStart(cs, r) < RowEnd(cs, r, k) <= k) &&
      (forall r | 0 < r < RowCount(cs, k) :: RowStart(cs, r) == RowEnd(cs, r - 1, k)) &&
      (k > 0 ==> RowCount(cs, k) > 0 && RowEnd(cs, RowCount(cs, k) - 1, k) == k)
  {
    var cs := Closes(M, H, F, k);
    if k > 0 && RowCount(cs, k) == |cs| {
      assert RowStart(cs, |cs|) >= k;
    }
  }

  lemma MulLess(a: nat, b: nat, m: nat)
    requires a * m < b * m
    ensures a < b
  {
    if a >= b {
      MulMono(b, a, m);
    }
  }

  lemma MulMono(a: nat, b: nat, m: nat)
    requires a <= b
    ensures a * m <= b * m
  {
  }

  /**
   * While F >= M, after k sweeps with c = |Closes(k)| closed rows:
   * c <= k, c * M <= H * k, and either every sweep closed a row or the next
   * row's close point has not been reached (H * k < (c + 1) * M).
   */
  lemma {:induction false} ClosesBound(M: nat, H: nat, F: nat, k: nat)
    requires H > 0 && M > 0 && F >= M && k <= M
    ensures var c := |Closes(M, H, F, k)|;
      c <= k && c * M <= H * k && (c == k || H * k < (c + 1) * M)
  {
    if k > 0 {
      ClosesBound(M, H, F, k - 1);
      var c := |Closes(M, H, F, k - 1)|;
      if ClosesRow(k - 1, c, M, H, F) {
        CloseStepBound(M, H, F, k, c);
      } else {
        OpenStepBound(M, H, F, k, c);
      }
    }
  }

  /** The bound of ClosesBound carries over a sweep that closes row c. */
  lemma CloseStepBound(M: nat, H: nat, F: nat, k: nat, c: nat)
    requires H > 0 && M > 0 && F >= M && 0 < k <= M
    requires c <= k - 1 && c * M <= H * (k - 1) && (c == k - 1 || H * (k - 1) < (c + 1) * M)
    requires ClosesRow(k - 1, c, M, H, F)
    ensures c + 1 <= k && (c + 1) * M <= H * k && (c + 1 == k || H * k < (c + 2) * M)
  {
    if H * k < (c + 1) * M {
      BinCountCloseBound(M, H, k, c);
    }
    if c + 1 < k {
      NextCloseAhead(M, H, k, c);
    }
  }

  /**
   * A close that only the bin-count test made happens at the last sweep
   * (k == M), and the rows closed so far then stay within the height.
   */
  lemma BinCountCloseBound(M: nat, H: nat, k: nat, c: nat)
    requires H > 0 && M > 0 && k == M
    requires c * M <= H * (k - 1)
    ensures (c + 1) * M <= H * k
  {
    assert c * M <= H * (M - 1) < H * M;
    MulLess(c, H, M);
    MulMono(c + 1, H, M);
  }

  /** While some sweep has not closed a row, the next close point lies ahead. */
  lemma NextCloseAhead(M: nat, H: nat, k: nat, c: nat)
    requires H > 0 && M > 0 && 0 < k && c + 1 < k
    requires H * (k - 1) < (c + 1) * M
    ensures H * k < (c + 2) * M
  {
    assert H * (k - 1) < (k - 1) * M by {
      MulMono(c + 1, k - 1, M);
    }
    MulLess(H, M, k - 1);
    assert H * k == H * (k - 1) + H;
    assert (c + 2) * M == (c + 1) * M + M;
  }

  /** The bound of ClosesBound carries over a sweep that leaves row c open. */
  lemma OpenStepBound(M: nat, H: nat, F: nat, k: nat, c: nat)
    requires H > 0 && M > 0 && 0 < k
    requires c * M <= H * (k - 1)
    requires !ClosesRow(k - 1, c, M, H, F)
    ensures c * M <= H * k && H * k < (c + 1) * M
  {
    assert H * k == H * (k - 1) + H;
  }

  /**
   * When the bin count is at least the sweep count, the quirk of the bin-count
   * test never changes the outcome: there are min(H, M) rows, and the last
   * sweep closes the last one, so every row is finished.
   */
  lemma {:induction false} FullBatchRows(M: nat, H: nat, F: nat)
    requires H > 0 && M > 0 && F >= M
    ensures var cs := Closes(M, H, F, M);
      |cs| == MinNat(H, M) && |cs| > 0 && cs[|cs| - 1] == M - 1 && RowCount(cs, M) == |cs|
  {
    LastSweepCloses(M, H, F);
    var cs := Closes(M, H, F, M);
    ClosesBound(M, H, F, M);
    CountIsMin(M, H, |cs|);
    assert RowStart(cs, |cs|) == M;
  }

  /** When F >= M, the last sweep of the batch closes a row. */
  lemma LastSweepCloses(M: nat, H: nat, F: nat)
    requires H > 0 && M > 0 && F >= M
    ensures Closes(M, H, F, M) == Closes(M, H, F, M - 1) + [M - 1]
  {
    ClosesBound(M, H, F, M - 1);
    var c := |Closes(M, H, F, M - 1)|;
    assert c * M <= H * (M - 1) < H * M;
    MulLess(c, H, M);
    MulMono(c + 1, H, M);
    assert ClosesRow(M - 1, c, M, H, F);
  }

  /** The bound of ClosesBound after all M sweeps pins the number of rows to min(H, M). */
  lemma CountIsMin(M: nat, H: nat, c: nat)
    requires H > 0 && M > 0
    requires c <= M && c * M <= H * M && (c == M || H * M < (c + 1) * M)
    ensures c == MinNat(H, M)
  {
    if c < M {
      MulLess(H, c + 1, M);
      MulMono(c, H, M);
      MulLess(c, H + 1, M);
    } else {
      MulLess(c, H + 1, M);
    }
  }

  /**
   * With fewer bins than sweeps the bin-count test closes a row early: with
   * M = 10, H = 5 and F = 9, sweep 8 closes row 4, sweep 9 opens a sixth row,
   * and that row is never finished.
   */
  lemma ShortSweepsOpenExtraRow()
    ensures Closes(10, 5, 9, 10) == [1, 3, 5, 7, 8]
    ensures RowCount(Closes(10, 5, 9, 10), 10) == 6
    ensures RowStart(Closes(10, 5, 9, 10), 5) == 9
  {
    assert Closes(10, 5, 9, 1) == [];
    assert Closes(10, 5, 9, 2) == [1];
    assert Closes(10, 5, 9, 3) == [1];
    assert Closes(10, 5, 9, 4) == [1, 3];
    assert Closes(10, 5, 9, 5) == [1, 3];
    assert Closes(10, 5, 9, 6) == [1, 3, 5];
    assert Closes(10, 5, 9, 7) == [1, 3, 5];
    assert Closes(10, 5, 9, 8) == [1, 3, 5, 7];
    assert Closes(10, 5, 9, 9) == [1, 3, 5, 7, 8];
  }
}
