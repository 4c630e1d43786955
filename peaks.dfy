/**
 * Peak selection: for one aggregate metric, the bins worth marking on the
 * frequency chart, kept in a best-first list of MAX_N slots.
 *
 * The metric's values are given as a sparse array, modelled as a map from bin
 * index to value. A candidate bin first passes a neighbour pre-filter and is
 * then bubbled into the slot list: it takes the first empty slot, or swaps
 * with an occupant it strictly beats and carries the displaced occupant on
 * down the list; whatever is carried past the last slot falls off.
 */
module Peaks {
  import opened Sweeps

  /** Outcome of the neighbour pre-filter for one candidate bin. */
  datatype Verdict =
    | Skip      // the candidate is not considered
    | Consider  // the candidate is tried against the slots
    | Throw     // a neighbour's entry is missing and reading its value fails

  /** Strict improvement by the metric's ordering: smaller for min, larger for max and avg. */
  predicate Better(isMin: bool, a: real, b: real) {
    if isMin then a < b else a > b
  }

  /** a is at least as good as b: b does not strictly improve on a. */
  predicate AtLeast(isMin: bool, a: real, b: real) {
    !Better(isMin, b, a)
  }

  /** Every bin of the sparse array lies below bound. */
  predicate Admissible(vals: map<nat, real>, bound: nat) {
    forall k | k in vals :: k < bound
  }

  /** The `length` of a sparse array: one past its highest index, 0 when it has none. */
  function JsLength(vals: map<nat, real>, bound: nat): (len: nat)
    requires Admissible(vals, bound)
    ensures len <= bound
    ensures forall k | k in vals :: k < len
    ensures len == 0 || len - 1 in vals
    decreases bound
  {
    if bound == 0 then 0
    else if bound - 1 in vals then bound
    else JsLength(vals, bound - 1)
  }

  /**
   * The neighbour pre-filter, the same for every metric. An interior bin
   * (0 < idx < len - 1) is skipped when its left neighbour is at least as
   * large or its right neighbour is larger; `||` reads the right neighbour
   * only when the left one did not already decide. Reading a missing
   * neighbour fails.
   */
  function PreFilter(vals: map<nat, real>, len: nat, idx: nat): Verdict
    requires idx in vals
  {
    if idx > 0 && idx + 1 < len then
      if idx - 1 !in vals then Throw
      else if vals[idx - 1] >= vals[idx] then Skip
      else if idx + 1 !in vals then Throw
      else if vals[idx] < vals[idx + 1] then Skip
      else Consider
    else Consider
  }

  /** A bin of the sparse array that passes the pre-filter. */
  predicate Considered(vals: map<nat, real>, bound: nat, g: nat)
    requires Admissible(vals, bound)
  {
    g in vals && PreFilter(vals, JsLength(vals, bound), g) == Consider
  }

  /** No bin of the sparse array makes the pre-filter fail. */
  predicate NoThrow(vals: map<nat, real>, bound: nat)
    requires Admissible(vals, bound)
  {
    forall g | g in vals :: PreFilter(vals, JsLength(vals, bound), g) != Throw
  }

  /** Every occupied slot names a bin of the sparse array. */
  predicate AllIn(s: seq<Option<nat>>, vals: map<nat, real>) {
    forall k | 0 <= k < |s| && s[k].Some? :: s[k].value in vals
  }

  /** The occupied slots form a prefix. */
  predicate Packed(s: seq<Option<nat>>) {
    forall j, k | 0 <= j < k < |s| && s[j].None? :: s[k].None?
  }

  /** Every slot is occupied. */
  predicate Full(s: seq<Option<nat>>) {
    forall k | 0 <= k < |s| :: s[k].Some?
  }

  /** No bin occupies two slots. */
  predicate Distinct(s: seq<Option<nat>>) {
    forall j, k | 0 <= j < k < |s| && s[j].Some? :: s[j] != s[k]
  }

  /** Each occupant is at least as good as every occupant after it. */
  predicate BestFirst(s: seq<Option<nat>>, vals: map<nat, real>, isMin: bool)
    requires AllIn(s, vals)
  {
    forall j, k | 0 <= j < k < |s| && s[j].Some? && s[k].Some? ::
      AtLeast(isMin, vals[s[j].value], vals[s[k].value])
  }

  /** Every occupant is at least as good as bin g. */
  predicate Dominates(s: seq<Option<nat>>, vals: map<nat, real>, isMin: bool, g: nat)
    requires AllIn(s, vals) && g in vals
  {
    forall k | 0 <= k < |s| && s[k].Some? :: AtLeast(isMin, vals[s[k].value], vals[g])
  }

  /** Bin g holds a slot, or the slots are full of bins at least as good as g. */
  predicate Kept(s: seq<Option<nat>>, vals: map<nat, real>, isMin: bool, g: nat)
    requires AllIn(s, vals) && g in vals
  {
    Some(g) in s || (Full(s) && Dominates(s, vals, isMin, g))
  }

  /** The slot list is a well-formed best-first list without repeated bins. */
  predicate WellOrdered(s: seq<Option<nat>>, vals: map<nat, real>, isMin: bool) {
    AllIn(s, vals) && Packed(s) && Distinct(s) && BestFirst(s, vals, isMin)
  }

  /**
   * The slot list is the outcome of a selection over the whole sparse array:
   * well ordered, holding only bins that pass the pre-filter, and every such
   * bin either holds a slot or is no better than any occupant of a full list.
   */
  ghost predicate IsTopN(s: seq<Option<nat>>, vals: map<nat, real>, bound: nat, isMin: bool)
    requires Admissible(vals, bound)
  {
    WellOrdered(s, vals, isMin) &&
    (forall k | 0 <= k < |s| && s[k].Some? :: Considered(vals, bound, s[k].value)) &&
    (forall g: nat | Considered(vals, bound, g) :: Kept(s, vals, isMin, g))
  }

  /** Every slot of the list is empty, as fillArray leaves it. */
  predicate Unfilled(s: seq<Option<nat>>) {
    forall k | 0 <= k < |s| :: s[k].None?
  }

  /** A list of empty slots is well ordered. */
  lemma EmptySlotsWellOrdered(s: seq<Option<nat>>, vals: map<nat, real>, isMin: bool)
    requires Unfilled(s)
    ensures WellOrdered(s, vals, isMin)
  {
  }

  /**
   * Reference definition of slotting candidate c into the slots s: the new
   * slots and the bin carried past the last slot, if any.
   */
  function Bubble(s: seq<Option<nat>>, c: nat, vals: map<nat, real>, isMin: bool): (r: (seq<Option<nat>>, Option<nat>))
    requires c in vals && AllIn(s, vals)
    ensures |r.0| == |s| && AllIn(r.0, vals)
    decreases |s|
  {
    if s == [] then ([], Some(c))
    else if s[0].None? then ([Some(c)] + s[1..], None)
    else if Better(isMin, vals[c], vals[s[0].value]) then
      var t := Bubble(s[1..], s[0].value, vals, isMin);
      ([Some(c)] + t.0, t.1)
    else
      var t := Bubble(s[1..], c, vals, isMin);
      ([s[0]] + t.0, t.1)
  }

  /** Nothing is lost or invented: the new slots and the dropped bin are the old slots and the candidate. */
  lemma {:induction false} BubbleMembers(s: seq<Option<nat>>, c: nat, vals: map<nat, real>, isMin: bool)
    requires c in vals && AllIn(s, vals)
    ensures var r := Bubble(s, c, vals, isMin);
      AllIn(r.0, vals) && (r.1.Some? ==> r.1.value in vals) &&
      forall e :: (Some(e) in r.0 || r.1 == Some(e)) <==> (Some(e) in s || e == c)
    decreases |s|
  {
    if s != [] {
      assert s == [s[0]] + s[1..];
      if s[0].Some? {
        var h: nat := s[0].value;
        if Better(isMin, vals[c], vals[h]) {
          BubbleMembers(s[1..], h, vals, isMin);
        } else {
          BubbleMembers(s[1..], c, vals, isMin);
        }
      }
    }
  }

  /**
   * The occupied slots stay a prefix, a full list stays full, and a bin falls
   * off the end exactly when the list was full.
   */
  lemma {:induction false} BubbleShape(s: seq<Option<nat>>, c: nat, vals: map<nat, real>, isMin: bool)
    requires c in vals && AllIn(s, vals)
    ensures var r := Bubble(s, c, vals, isMin);
      (Packed(s) ==> Packed(r.0)) && (Full(s) ==> Full(r.0)) && (r.1.Some? <==> Full(s))
    decreases |s|
  {
    if s != [] && s[0].Some? {
      var h: nat := s[0].value;
      var next: nat := if Better(isMin, vals[c], vals[h]) then h else c;
      BubbleShape(s[1..], next, vals, isMin);
      var t := Bubble(s[1..], next, vals, isMin);
      assert Full(s) <==> Full(s[1..]) by {
        if Full(s[1..]) {
          forall k | 0 < k < |s| ensures s[k].Some? {
            assert s[k] == s[1..][k - 1];
          }
        }
      }
    }
  }

  /** A candidate not already listed keeps the list free of repeated bins, and the dropped bin is not listed. */
  lemma {:induction false} BubbleDistinct(s: seq<Option<nat>>, c: nat, vals: map<nat, real>, isMin: bool)
    requires c in vals && AllIn(s, vals)
    requires Distinct(s) && Some(c) !in s
    ensures var r := Bubble(s, c, vals, isMin);
      Distinct(r.0) && (r.1.Some? ==> Some(r.1.value) !in r.0)
    decreases |s|
  {
    if s != [] && s[0].Some? {
      var h: nat := s[0].value;
      var rest := s[1..];
      assert s == [s[0]] + rest;
      assert Distinct(rest) by {
        forall j, k | 0 <= j < k < |rest| && rest[j].Some? ensures rest[j] != rest[k] {
          assert rest[j] == s[j + 1] && rest[k] == s[k + 1];
        }
      }
      assert Some(h) !in rest by {
        forall k | 0 <= k < |rest| ensures rest[k] != Some(h) {
          assert rest[k] == s[k + 1];
        }
      }
      if Better(isMin, vals[c], vals[h]) {
        BubbleDistinct(rest, h, vals, isMin);
        BubbleMembers(rest, h, vals, isMin);
        var t := Bubble(rest, h, vals, isMin);
        DistinctCons(Some(c), t.0);
      } else {
        BubbleDistinct(rest, c, vals, isMin);
        BubbleMembers(rest, c, vals, isMin);
        var t := Bubble(rest, c, vals, isMin);
        DistinctCons(Some(h), t.0);
      }
    }
  }

  lemma DistinctCons(x: Option<nat>, t: seq<Option<nat>>)
    requires Distinct(t) && x !in t
    ensures Distinct([x] + t)
  {
    var u := [x] + t;
    forall j, k | 0 <= j < k < |u| && u[j].Some? ensures u[j] != u[k] {
      if j == 0 {
        assert u[k] == t[k - 1];
      } else {
        assert u[j] == t[j - 1] && u[k] == t[k - 1];
      }
    }
  }

  /** The bin that falls off is no better than the candidate and than every old occupant. */
  lemma {:induction false} BubbleDropWeakest(s: seq<Option<nat>>, c: nat, vals: map<nat, real>, isMin: bool)
    requires c in vals && AllIn(s, vals)
    ensures var r := Bubble(s, c, vals, isMin);
      r.1.Some? ==> r.1.value in vals && AtLeast(isMin, vals[c], vals[r.1.value]) &&
                    Dominates(s, vals, isMin, r.1.value)
    decreases |s|
  {
    if s != [] && s[0].Some? {
      var h: nat := s[0].value;
      var rest := s[1..];
      var next: nat := if Better(isMin, vals[c], vals[h]) then h else c;
      BubbleDropWeakest(rest, next, vals, isMin);
      BubbleMembers(rest, next, vals, isMin);
      var r := Bubble(s, c, vals, isMin);
      if r.1.Some? {
        var d := r.1.value;
        forall k | 0 <= k < |s| && s[k].Some? ensures AtLeast(isMin, vals[s[k].value], vals[d]) {
          if k > 0 {
            assert s[k] == rest[k - 1];
          }
        }
      }
    }
  }

  /** Slotting a candidate into a best-first list leaves it best-first. */
  lemma {:induction false} BubbleBestFirst(s: seq<Option<nat>>, c: nat, vals: map<nat, real>, isMin: bool)
    requires c in vals && AllIn(s, vals)
    requires Packed(s) && BestFirst(s, vals, isMin)
    ensures BestFirst(Bubble(s, c, vals, isMin).0, vals, isMin)
    decreases |s|
  {
    BubbleMembers(s, c, vals, isMin);
    if s != [] {
      var rest := s[1..];
      assert Packed(rest) && BestFirst(rest, vals, isMin) by {
        forall j, k | 0 <= j < k < |rest| ensures rest[j] == s[j + 1] && rest[k] == s[k + 1] { }
      }
      if s[0].Some? {
        var h: nat := s[0].value;
        var next: nat := if Better(isMin, vals[c], vals[h]) then h else c;
        var head: nat := if Better(isMin, vals[c], vals[h]) then c else h;
        BubbleBestFirst(rest, next, vals, isMin);
        BubbleMembers(rest, next, vals, isMin);
        var t := Bubble(rest, next, vals, isMin).0;
        assert Bubble(s, c, vals, isMin).0 == [Some(head)] + t;
        forall k | 0 <= k < |t| && t[k].Some? ensures AtLeast(isMin, vals[head], vals[t[k].value]) {
          var e := t[k].value;
          assert Some(e) in t;
          if e != next {
            assert Some(e) in rest;
            var j :| 0 <= j < |rest| && rest[j] == Some(e);
            assert s[j + 1] == Some(e);
          }
        }
        BestFirstCons(head, t, vals, isMin);
      }
    }
  }

  lemma BestFirstCons(x: nat, t: seq<Option<nat>>, vals: map<nat, real>, isMin: bool)
    requires x in vals && AllIn(t, vals) && BestFirst(t, vals, isMin)
    requires forall k | 0 <= k < |t| && t[k].Some? :: AtLeast(isMin, vals[x], vals[t[k].value])
    ensures AllIn([Some(x)] + t, vals) && BestFirst([Some(x)] + t, vals, isMin)
  {
    var u := [Some(x)] + t;
    forall k | 0 < k < |u| ensures u[k] == t[k - 1] { }
  }

  /**
   * A candidate that strictly beats no occupant of a full list changes
   * nothing: it is the bin that falls off.
   */
  lemma {:induction false} BubbleNoImprovement(s: seq<Option<nat>>, c: nat, vals: map<nat, real>, isMin: bool)
    requires c in vals && AllIn(s, vals) && Full(s)
    requires forall k | 0 <= k < |s| :: !Better(isMin, vals[c], vals[s[k].value])
    ensures Bubble(s, c, vals, isMin) == (s, Some(c))
    decreases |s|
  {
    if s != [] {
      var rest := s[1..];
      assert forall k | 0 <= k < |rest| :: rest[k] == s[k + 1];
      BubbleNoImprovement(rest, c, vals, isMin);
      assert s == [s[0]] + rest;
    }
  }

  /**
   * Bounded insertion: a new candidate gets a slot exactly when the list has
   * a free slot or the candidate strictly beats one of the occupants.
   */
  lemma BubbleAdmits(s: seq<Option<nat>>, c: nat, vals: map<nat, real>, isMin: bool)
    requires c in vals && AllIn(s, vals) && Distinct(s) && Some(c) !in s
    ensures Some(c) in Bubble(s, c, vals, isMin).0 <==>
            (!Full(s) || exists k | 0 <= k < |s| && s[k].Some? :: Better(isMin, vals[c], vals[s[k].value]))
  {
    var r := Bubble(s, c, vals, isMin);
    BubbleMembers(s, c, vals, isMin);
    BubbleShape(s, c, vals, isMin);
    BubbleDistinct(s, c, vals, isMin);
    BubbleDropWeakest(s, c, vals, isMin);
    if Full(s) && forall k | 0 <= k < |s| && s[k].Some? :: !Better(isMin, vals[c], vals[s[k].value]) {
      BubbleNoImprovement(s, c, vals, isMin);
    }
  }

  /**
   * One insertion keeps every earlier candidate kept, and keeps the new one:
   * whatever falls off is no better than all that remain.
   */
  lemma BubbleKeeps(s: seq<Option<nat>>, c: nat, vals: map<nat, real>, isMin: bool, g: nat)
    requires c in vals && AllIn(s, vals) && Distinct(s) && Some(c) !in s && g in vals
    requires g == c || Kept(s, vals, isMin, g)
    ensures AllIn(Bubble(s, c, vals, isMin).0, vals)
    ensures Kept(Bubble(s, c, vals, isMin).0, vals, isMin, g)
  {
    var r := Bubble(s, c, vals, isMin);
    var t := r.0;
    BubbleMembers(s, c, vals, isMin);
    BubbleShape(s, c, vals, isMin);
    BubbleDistinct(s, c, vals, isMin);
    BubbleDropWeakest(s, c, vals, isMin);
    if Some(g) !in t {
      assert r.1.Some? && Full(t);
      var d := r.1.value;
      forall k | 0 <= k < |t| && t[k].Some? ensures AtLeast(isMin, vals[t[k].value], vals[g]) {
        var e := t[k].value;
        assert Some(e) in t;
        if e == c {
          assert d != c;
          assert Some(d) in s;
          var j :| 0 <= j < |s| && s[j] == Some(d);
        } else {
          var j :| 0 <= j < |s| && s[j] == Some(e);
        }
      }
    }
  }

  /**
   * Slot candidate `cand` into the slots (charts.component.ts:178-195): take
   * the first empty slot, or swap with an occupant it strictly beats and go
   * on with the displaced occupant; a bin carried past the last slot falls off.
   */
  method InsertCandidate(slots0: seq<Option<nat>>, cand: nat, vals: map<nat, real>, isMin: bool)
    returns (slots: seq<Option<nat>>)
    requires cand in vals && AllIn(slots0, vals)
    ensures slots == Bubble(slots0, cand, vals, isMin).0
  {
    slots := slots0;
    var i := cand;
    var v := vals[cand];
    var n := 0;
    CarryStart(slots0, cand, vals, isMin);
    while n < |slots|
      invariant Carrying(slots0, cand, vals, isMin, slots, n, i) && v == vals[i]
      decreases |slots| - n
    {
      var slotIdx := slots[n];
      // an empty slot takes the carried bin and ends the search
      if slotIdx.None? {
        CarryInto(slots0, cand, vals, isMin, slots, n, i);
        slots := slots[n := Some(i)];
        return;
      }
      CarryPast(slots0, cand, vals, isMin, slots, n, i);
      var slotV := vals[slotIdx.value];
      // otherwise swap with the occupant when the carried bin strictly beats it
      if (isMin && v < slotV) || (!isMin && v > slotV) {
        var tmp := i;
        i := slotIdx.value;
        slots := slots[n := Some(tmp)];
        v := slotV;
      }
      n := n + 1;
    }
    CarryEnd(slots0, cand, vals, isMin, slots, i);
  }

  /**
   * The loop of InsertCandidate has settled the slots before n and carries
   * bin i: the insertion's result is those slots followed by the insertion
   * of i into the untouched slots from n on.
   */
  ghost predicate Carrying(slots0: seq<Option<nat>>, cand: nat, vals: map<nat, real>, isMin: bool,
                           slots: seq<Option<nat>>, n: nat, i: nat)
    requires cand in vals && AllIn(slots0, vals)
  {
    n <= |slots| == |slots0| && slots[n..] == slots0[n..] && i in vals && AllIn(slots0[n..], vals) &&
    Bubble(slots0, cand, vals, isMin).0 == slots[..n] + Bubble(slots0[n..], i, vals, isMin).0
  }

  lemma CarryStart(slots0: seq<Option<nat>>, cand: nat, vals: map<nat, real>, isMin: bool)
    requires cand in vals && AllIn(slots0, vals)
    ensures Carrying(slots0, cand, vals, isMin, slots0, 0, cand)
  {
    assert slots0[0..] == slots0;
  }

  /** An empty slot at n takes the carried bin, which completes the insertion. */
  lemma CarryInto(slots0: seq<Option<nat>>, cand: nat, vals: map<nat, real>, isMin: bool,
                  slots: seq<Option<nat>>, n: nat, i: nat)
    requires cand in vals && AllIn(slots0, vals)
    requires Carrying(slots0, cand, vals, isMin, slots, n, i) && n < |slots| && slots[n].None?
    ensures slots[n := Some(i)] == Bubble(slots0, cand, vals, isMin).0
  {
    var rest := slots0[n + 1..];
    assert slots0[n..] == [slots[n]] + rest;
    assert Bubble(slots0[n..], i, vals, isMin).0 == [Some(i)] + rest;
    assert slots[n := Some(i)] == slots[..n] + [Some(i)] + rest;
  }

  /**
   * An occupied slot at n keeps its occupant and the carried bin moves on,
   * unless the carried bin strictly beats it: then they swap.
   */
  lemma CarryPast(slots0: seq<Option<nat>>, cand: nat, vals: map<nat, real>, isMin: bool,
                  slots: seq<Option<nat>>, n: nat, i: nat)
    requires cand in vals && AllIn(slots0, vals)
    requires Carrying(slots0, cand, vals, isMin, slots, n, i) && n < |slots| && slots[n].Some?
    ensures slots[n].value in vals
    ensures Better(isMin, vals[i], vals[slots[n].value]) ==>
      Carrying(slots0, cand, vals, isMin, slots[n := Some(i)], n + 1, slots[n].value)
    ensures !Better(isMin, vals[i], vals[slots[n].value]) ==>
      Carrying(slots0, cand, vals, isMin, slots, n + 1, i)
  {
    var o := slots[n];
    var rest := slots0[n + 1..];
    var done := slots[..n];
    assert slots0[n..] == [o] + rest;
    assert o.value in vals by {
      assert slots0[n..][0] == o;
    }
    if Better(isMin, vals[i], vals[o.value]) {
      var t := slots[n := Some(i)];
      assert Bubble(slots0[n..], i, vals, isMin).0 == [Some(i)] + Bubble(rest, o.value, vals, isMin).0;
      Reassociate(done, Some(i), Bubble(rest, o.value, vals, isMin).0);
      assert t[..n + 1] == done + [Some(i)];
      assert t[n + 1..] == rest;
    } else {
      assert Bubble(slots0[n..], i, vals, isMin).0 == [o] + Bubble(rest, i, vals, isMin).0;
      Reassociate(done, o, Bubble(rest, i, vals, isMin).0);
      assert slots[..n + 1] == done + [o];
    }
  }

  /** Carried past the last slot, the bin falls off and the slots are the insertion's result. */
  lemma CarryEnd(slots0: seq<Option<nat>>, cand: nat, vals: map<nat, real>, isMin: bool,
                 slots: seq<Option<nat>>, i: nat)
    requires cand in vals && AllIn(slots0, vals)
    requires Carrying(slots0, cand, vals, isMin, slots, |slots|, i)
    ensures slots == Bubble(slots0, cand, vals, isMin).0
  {
    assert slots0[|slots|..] == [];
    assert slots[..|slots|] == slots;
  }

  lemma Reassociate<T>(done: seq<T>, x: T, tail: seq<T>)
    ensures done + ([x] + tail) == (done + [x]) + tail
  {
  }

  /** The state of the selection after visiting the bins below f. */
  ghost predicate SelectedBelow(slots: seq<Option<nat>>, vals: map<nat, real>, bound: nat, isMin: bool, f: nat)
    requires Admissible(vals, bound)
  {
    WellOrdered(slots, vals, isMin) &&
    (forall k | 0 <= k < |slots| && slots[k].Some? ::
       slots[k].value < f && Considered(vals, bound, slots[k].value)) &&
    (forall g: nat | Considered(vals, bound, g) && g < f :: Kept(slots, vals, isMin, g)) &&
    (forall g: nat | g in vals && g < f :: PreFilter(vals, JsLength(vals, bound), g) != Throw)
  }

  /**
   * The list a selection leaves when the pre-filter fails: the selection over
   * the bins below the first bin whose neighbour is missing.
   */
  ghost predicate StoppedAt(slots: seq<Option<nat>>, vals: map<nat, real>, bound: nat, isMin: bool)
    requires Admissible(vals, bound)
  {
    exists b: nat | b in vals && PreFilter(vals, JsLength(vals, bound), b) == Throw ::
      SelectedBelow(slots, vals, bound, isMin, b)
  }

  /**
   * What one metric's selection leaves in its list: the selection over every
   * bin, or, when the pre-filter fails, the selection up to the failing bin.
   */
  ghost predicate Selected(slots: seq<Option<nat>>, vals: map<nat, real>, bound: nat, isMin: bool)
    requires Admissible(vals, bound)
  {
    (NoThrow(vals, bound) ==> IsTopN(slots, vals, bound, isMin)) &&
    (!NoThrow(vals, bound) ==> StoppedAt(slots, vals, bound, isMin))
  }

  /** Slotting in a bin that passes the pre-filter extends the selection by that bin. */
  lemma SelectStep(slots: seq<Option<nat>>, vals: map<nat, real>, bound: nat, isMin: bool, f: nat)
    requires Admissible(vals, bound) && SelectedBelow(slots, vals, bound, isMin, f)
    requires Considered(vals, bound, f)
    ensures SelectedBelow(Bubble(slots, f, vals, isMin).0, vals, bound, isMin, f + 1)
  {
    assert Some(f) !in slots;
    BubbleWellOrdered(slots, f, vals, isMin);
    SelectStepMembers(slots, vals, bound, isMin, f);
    SelectStepKept(slots, vals, bound, isMin, f);
  }

  /** Inserting a bin that is not yet in a well-ordered list keeps it well ordered. */
  lemma BubbleWellOrdered(s: seq<Option<nat>>, c: nat, vals: map<nat, real>, isMin: bool)
    requires c in vals && WellOrdered(s, vals, isMin) && Some(c) !in s
    ensures WellOrdered(Bubble(s, c, vals, isMin).0, vals, isMin)
  {
    BubbleShape(s, c, vals, isMin);
    BubbleDistinct(s, c, vals, isMin);
    BubbleBestFirst(s, c, vals, isMin);
  }

  /** After slotting in bin f, every occupant is a considered bin below f + 1. */
  lemma SelectStepMembers(slots: seq<Option<nat>>, vals: map<nat, real>, bound: nat, isMin: bool, f: nat)
    requires Admissible(vals, bound) && SelectedBelow(slots, vals, bound, isMin, f)
    requires Considered(vals, bound, f)
    ensures var t := Bubble(slots, f, vals, isMin).0;
      forall k | 0 <= k < |t| && t[k].Some? :: t[k].value < f + 1 && Considered(vals, bound, t[k].value)
  {
    var t := Bubble(slots, f, vals, isMin).0;
    BubbleMembers(slots, f, vals, isMin);
    forall k | 0 <= k < |t| && t[k].Some?
      ensures t[k].value < f + 1 && Considered(vals, bound, t[k].value)
    {
      assert Some(t[k].value) in t;
    }
  }

  /** After slotting in bin f, every considered bin up to f is kept. */
  lemma SelectStepKept(slots: seq<Option<nat>>, vals: map<nat, real>, bound: nat, isMin: bool, f: nat)
    requires Admissible(vals, bound) && SelectedBelow(slots, vals, bound, isMin, f)
    requires Considered(vals, bound, f) && Some(f) !in slots
    ensures var t := Bubble(slots, f, vals, isMin).0;
      forall g: nat | Considered(vals, bound, g) && g < f + 1 :: Kept(t, vals, isMin, g)
  {
    var t := Bubble(slots, f, vals, isMin).0;
    forall g: nat | Considered(vals, bound, g) && g < f + 1
      ensures Kept(t, vals, isMin, g)
    {
      BubbleKeeps(slots, f, vals, isMin, g);
    }
  }

  /** Passing over a bin that is not considered extends the selection unchanged. */
  lemma SelectSkip(slots: seq<Option<nat>>, vals: map<nat, real>, bound: nat, isMin: bool, f: nat)
    requires Admissible(vals, bound) && SelectedBelow(slots, vals, bound, isMin, f)
    requires !Considered(vals, bound, f)
    requires f in vals ==> PreFilter(vals, JsLength(vals, bound), f) != Throw
    ensures SelectedBelow(slots, vals, bound, isMin, f + 1)
  {
  }

  /**
   * Select the peaks of one metric (charts.component.ts:167-196): visit the
   * bins of its sparse array in ascending order, skip those the pre-filter
   * rejects, and slot in the rest. Returns ok = false when the pre-filter
   * reads a missing neighbour, with the slots as they were at that point.
   */
  method SelectPeaks(vals: map<nat, real>, bound: nat, isMin: bool, init: seq<Option<nat>>)
    returns (slots: seq<Option<nat>>, ok: bool)
    requires Admissible(vals, bound)
    requires Unfilled(init)
    ensures |slots| == |init|
    ensures WellOrdered(slots, vals, isMin)
    ensures forall k | 0 <= k < |slots| && slots[k].Some? :: Considered(vals, bound, slots[k].value)
    ensures ok <==> NoThrow(vals, bound)
    ensures ok ==> IsTopN(slots, vals, bound, isMin)
    ensures !ok ==> StoppedAt(slots, vals, bound, isMin)
  {
    slots := init;
    var len := JsLength(vals, bound);
    for f := 0 to bound
      invariant |slots| == |init|
      invariant SelectedBelow(slots, vals, bound, isMin, f)
    {
      if f in vals {
        var verdict := PreFilter(vals, len, f);
        if verdict == Throw {
          ok := false;
          return;
        }
        if verdict == Consider {
          SelectStep(slots, vals, bound, isMin, f);
          slots := InsertCandidate(slots, f, vals, isMin);
        } else {
          SelectSkip(slots, vals, bound, isMin, f);
        }
      } else {
        SelectSkip(slots, vals, bound, isMin, f);
      }
    }
    ok := true;
  }

  /**
   * An interior bin is considered exactly when both neighbours are present,
   * the left one is strictly smaller and the right one is not larger; a bin at
   * either end of the array is always considered. The pre-filter fails exactly
   * when it reaches a missing neighbour.
   */
  lemma PreFilterConsiders(vals: map<nat, real>, len: nat, idx: nat)
    requires idx in vals
    ensures PreFilter(vals, len, idx) == Consider <==>
      (idx == 0 || idx + 1 >= len ||
       (idx - 1 in vals && idx + 1 in vals && vals[idx - 1] < vals[idx] && vals[idx] >= vals[idx + 1]))
    ensures PreFilter(vals, len, idx) == Throw <==>
      (0 < idx && idx + 1 < len &&
       (idx - 1 !in vals || (vals[idx - 1] < vals[idx] && idx + 1 !in vals)))
  {
  }

  /**
   * The pre-filter does not depend on the metric: for the min metric too, a
   * strict local minimum inside the array is skipped, so a min list never
   * holds one.
   */
  lemma LocalMinimumSkipped(vals: map<nat, real>, len: nat, idx: nat)
    requires idx in vals && 0 < idx && idx + 1 < len
    requires idx - 1 in vals && idx + 1 in vals
    requires vals[idx - 1] > vals[idx] && vals[idx] < vals[idx + 1]
    ensures PreFilter(vals, len, idx) == Skip
  {
  }
}
