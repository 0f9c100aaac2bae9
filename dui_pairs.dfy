/**
 * apps/exercises/modules/dui/dui_methods.js: the repair that gives every
 * row of an Optimism-Pessimism table its own (minimum, maximum) pair, so
 * that the rule separates the decisions. A pair is recorded as the key
 * `${min}|${max}`; on integers that key determines the pair, so the model
 * records the pair itself.
 */
module DuiPairs {
  import opened Random
  import opened DuiLexical
  import opened DuiRepair

  /** A (minimum, maximum) pair of a row. */
  type Pair = (int, int)

  /** The pair of a non-empty row. */
  function PairOf(row: seq<int>): (p: Pair)
    requires |row| > 0
    ensures p.0 in row && p.1 in row && p.0 <= p.1
  {
    (MinOf(row), MaxOf(row))
  }

  /** The pairs of the rows seen so far (`usedPairs`). */
  function PairSet(rows: seq<seq<int>>): (s: set<Pair>)
    requires forall i :: 0 <= i < |rows| ==> |rows[i]| > 0
    ensures forall i :: 0 <= i < |rows| ==> PairOf(rows[i]) in s
    ensures forall p :: p in s ==> exists i :: 0 <= i < |rows| && PairOf(rows[i]) == p
  {
    set i | 0 <= i < |rows| :: PairOf(rows[i])
  }

  /** Every entry lies in [0, hi]. */
  predicate InRange(row: seq<int>, hi: int) {
    forall i :: 0 <= i < |row| ==> 0 <= row[i] <= hi
  }

  /** Every entry is a multiple of the step. */
  predicate AllOnGrid(row: seq<int>, step: int)
    requires step > 0
  {
    forall i :: 0 <= i < |row| ==> OnGrid(row[i], 0, step)
  }

  /** A non-zero number of steps is at least one step away from 0. */
  lemma {:induction false} MulSign(k: int, step: int)
    requires step > 0
    ensures k >= 1 ==> k * step >= step
    ensures k <= -1 ==> k * step <= -step
    decreases if k < 0 then -k else k
  {
    if k > 1 {
      MulSign(k - 1, step);
      assert k * step == (k - 1) * step + step;
    } else if k < -1 {
      MulSign(k + 1, step);
      assert k * step == (k + 1) * step - step;
    }
  }

  /** Two points of one grid less than a step apart are the same point. */
  lemma GridGap(v: int, w: int, base: int, step: int)
    requires step > 0 && OnGrid(v, base, step) && OnGrid(w, base, step)
    requires w <= v < w + step
    ensures v == w
  {
    var a := (v - base) / step;
    var b := (w - base) / step;
    assert v - base == a * step;
    assert w - base == b * step;
    assert (a - b) * step == a * step - b * step;
    MulSign(a - b, step);
  }

  /** Being on a grid is transitive through a point of the second grid. */
  lemma OnGridTrans(v: int, a: int, base: int, step: int)
    requires step > 0 && OnGrid(v, a, step) && OnGrid(a, base, step)
    ensures OnGrid(v, base, step)
  {
    var q1 := (v - a) / step;
    var q2 := (a - base) / step;
    assert v - a == q1 * step;
    assert a - base == q2 * step;
    assert (q1 + q2) * step == q1 * step + q2 * step;
    StepsOnGrid(q1 + q2, step);
  }

  /** The pair a candidate value would make: with the row minimum when `withMin`, else with the row maximum. */
  function PairWith(value: int, withMin: bool, other: int): Pair {
    if withMin then (other, value) else (value, other)
  }

  /** `value` is a point of the grid lo, lo + step, … up to `hi` whose pair is not recorded yet. */
  ghost predicate FreshSlot(value: int, lo: int, hi: int, step: int, withMin: bool, other: int, usedPairs: set<Pair>)
    requires step > 0
  {
    lo <= value <= hi && OnGrid(value, lo, step) && PairWith(value, withMin, other) !in usedPairs
  }

  /** Some grid point of [lo, hi] has an unrecorded pair. */
  ghost predicate AnyFreshSlot(lo: int, hi: int, step: int, withMin: bool, other: int, usedPairs: set<Pair>)
    requires step > 0
  {
    exists v :: FreshSlot(v, lo, hi, step, withMin, other, usedPairs)
  }

  /**
   * One `for (value = lo; value <= hi; value += step)` scan of
   * `adjustRowMinMaxPair`: the grid points with an unrecorded pair, and,
   * when `skipUsed`, not already in the row.
   */
  method ScanGrid(lo: int, hi: int, step: int, used: set<int>, usedPairs: set<Pair>, withMin: bool, other: int,
                  skipUsed: bool)
    returns (candidates: seq<int>)
    requires step > 0
    ensures forall x :: x in candidates ==>
      FreshSlot(x, lo, hi, step, withMin, other, usedPairs) && (skipUsed ==> x !in used)
    ensures forall v :: FreshSlot(v, lo, hi, step, withMin, other, usedPairs) && (skipUsed ==> v !in used) ==>
      v in candidates
  {
    candidates := [];
    var value := lo;
    StepsOnGrid(0, step);
    while value <= hi
      invariant lo <= value && OnGrid(value, lo, step)
      invariant forall x :: x in candidates ==>
        FreshSlot(x, lo, hi, step, withMin, other, usedPairs) && (skipUsed ==> x !in used)
      invariant forall v :: (v < value && FreshSlot(v, lo, hi, step, withMin, other, usedPairs) &&
                             (skipUsed ==> v !in used)) ==> v in candidates
      decreases hi - value + step
    {
      if (!skipUsed || value !in used) && PairWith(value, withMin, other) !in usedPairs {
        candidates := candidates + [value];
      }
      forall v | v < value + step && FreshSlot(v, lo, hi, step, withMin, other, usedPairs) &&
          (skipUsed ==> v !in used)
        ensures v in candidates
      {
        if v >= value {
          GridGap(v, value, lo, step);
        }
      }
      OnGridShift(value + step, lo, step);
      value := value + step;
    }
  }

  /**
   * The candidate list of one branch of `adjustRowMinMaxPair`: the grid
   * points with an unrecorded pair that are not yet in the row, or, when
   * there are none, those with an unrecorded pair.
   */
  method PairCandidates(lo: int, hi: int, step: int, used: set<int>, usedPairs: set<Pair>, withMin: bool, other: int)
    returns (candidates: seq<int>)
    requires step > 0
    ensures forall x :: x in candidates ==> FreshSlot(x, lo, hi, step, withMin, other, usedPairs)
    ensures |candidates| > 0 <==> AnyFreshSlot(lo, hi, step, withMin, other, usedPairs)
    ensures (exists v :: FreshSlot(v, lo, hi, step, withMin, other, usedPairs) && v !in used) ==>
      forall x :: x in candidates ==> x !in used
  {
    candidates := ScanGrid(lo, hi, step, used, usedPairs, withMin, other, true);
    if exists v :: FreshSlot(v, lo, hi, step, withMin, other, usedPairs) && v !in used {
      var v :| FreshSlot(v, lo, hi, step, withMin, other, usedPairs) && v !in used;
      assert v in candidates;
    }
    if |candidates| == 0 {
      candidates := ScanGrid(lo, hi, step, used, usedPairs, withMin, other, false);
      if exists v :: FreshSlot(v, lo, hi, step, withMin, other, usedPairs) {
        var v :| FreshSlot(v, lo, hi, step, withMin, other, usedPairs);
        assert v in candidates;
      }
    }
    if |candidates| > 0 {
      assert candidates[0] in candidates;
      assert FreshSlot(candidates[0], lo, hi, step, withMin, other, usedPairs);
    }
  }

  /** The positions holding `v`, in increasing order (`row.map((value, index) => value === v ? index : -1).filter(i => i >= 0)`). */
  function IndicesOf(row: seq<int>, v: int): (r: seq<nat>)
    ensures forall k :: 0 <= k < |r| ==> r[k] < |row| && row[r[k]] == v
    ensures forall i :: 0 <= i < |row| && row[i] == v ==> i in r
    ensures forall j, k :: 0 <= j < k < |r| ==> r[j] < r[k]
  {
    Positions(seq(|row|, i requires 0 <= i < |row| => row[i] == v), 0)
  }

  /** A row whose entry at `k` is `m` and whose entries are all at most `m` has maximum `m`. */
  lemma MaxIs(row: seq<int>, k: int, m: int)
    requires 0 <= k < |row| && row[k] == m
    requires forall i :: 0 <= i < |row| ==> row[i] <= m
    ensures MaxOf(row) == m
  {
    assert MaxOf(row) >= row[k];
  }

  /** A larger maximum is possible: a grid value above the maximum, up to `maxAllowed`, with an unrecorded pair. */
  ghost predicate RaiseMaxPossible(minValue: int, maxValue: int, usedPairs: set<Pair>, step: int, maxAllowed: int)
    requires step > 0
  {
    maxValue < maxAllowed && AnyFreshSlot(maxValue + step, maxAllowed, step, true, minValue, usedPairs)
  }


  /** A smaller minimum is possible: a multiple of the step below the minimum with an unrecorded pair. */
  ghost predicate LowerMinPossible(minValue: int, maxValue: int, usedPairs: set<Pair>, step: int)
    requires step > 0
  {
    minValue > 0 && AnyFreshSlot(0, minValue - step, step, false, maxValue, usedPairs)
  }


  /** A smaller maximum is possible: a grid value from the minimum up to one step below the maximum. */
  ghost predicate LowerMaxPossible(minValue: int, maxValue: int, usedPairs: set<Pair>, step: int)
    requires step > 0
  {
    minValue < maxValue && maxValue - step >= minValue &&
    AnyFreshSlot(minValue, maxValue - step, step, true, minValue, usedPairs)
  }


  /** Some branch of `adjustRowMinMaxPair` has a candidate. */
  ghost predicate PairAdjustable(minValue: int, maxValue: int, usedPairs: set<Pair>, step: int, maxAllowed: int)
    requires step > 0
  {
    RaiseMaxPossible(minValue, maxValue, usedPairs, step, maxAllowed) ||
    LowerMinPossible(minValue, maxValue, usedPairs, step) ||
    LowerMaxPossible(minValue, maxValue, usedPairs, step)
  }

  /**
   * What a successful adjustment guarantees: the row has a different
   * (minimum, maximum) pair, only entries equal to the old minimum or the
   * old maximum changed, and entries in [0, maxAllowed] on the grid of the
   * step stay so.
   */
  ghost predicate Adjusted(before: seq<int>, after: seq<int>, minValue: int, maxValue: int, step: int, maxAllowed: int)
    requires step > 0
  {
    |after| == |before| && |after| > 0 &&
    PairOf(after) != (minValue, maxValue) &&
    (forall i :: 0 <= i < |before| && after[i] != before[i] ==> before[i] == minValue || before[i] == maxValue) &&
    (InRange(before, maxAllowed) ==> InRange(after, maxAllowed)) &&
    (AllOnGrid(before, step) ==> AllOnGrid(after, step))
  }

  /** Raising one maximum entry by at least a step, up to `maxAllowed`, adjusts the row. */
  lemma RaiseAdjusted(before: seq<int>, i: int, v: int, minValue: int, maxValue: int, step: int, maxAllowed: int)
    requires step > 0 && 0 <= i < |before| && minValue == MinOf(before) && maxValue == MaxOf(before)
    requires before[i] == maxValue && maxValue + step <= v <= maxAllowed && OnGrid(v, maxValue + step, step)
    ensures Adjusted(before, before[i := v], minValue, maxValue, step, maxAllowed)
  {
    var after := before[i := v];
    MaxIs(after, i, v);
    assert PairOf(after) != (minValue, maxValue);
    assert forall j :: 0 <= j < |before| && after[j] != before[j] ==> j == i;
    assert InRange(before, maxAllowed) ==> InRange(after, maxAllowed);
    if AllOnGrid(before, step) {
      OnGridShift(v, maxValue, step);
      OnGridTrans(v, maxValue, 0, step);
      assert AllOnGrid(after, step);
    }
  }

  /** Lowering one minimum entry to a multiple of the step below it adjusts the row. */
  lemma LowerMinAdjusted(before: seq<int>, i: int, v: int, minValue: int, maxValue: int, step: int, maxAllowed: int)
    requires step > 0 && 0 <= i < |before| && minValue == MinOf(before) && maxValue == MaxOf(before)
    requires before[i] == minValue && 0 <= v <= minValue - step && OnGrid(v, 0, step)
    ensures Adjusted(before, before[i := v], minValue, maxValue, step, maxAllowed)
  {
    var after := before[i := v];
    MinIs(after, i, v);
    assert PairOf(after) != (minValue, maxValue);
    assert forall j :: 0 <= j < |before| && after[j] != before[j] ==> j == i;
    assert InRange(before, maxAllowed) ==> InRange(after, maxAllowed);
    assert AllOnGrid(before, step) ==> AllOnGrid(after, step);
  }

  /** Lowering every maximum entry to one grid value from the minimum up adjusts the row. */
  lemma LowerMaxAdjusted(before: seq<int>, after: seq<int>, v: int, minValue: int, maxValue: int, step: int,
                         maxAllowed: int)
    requires step > 0 && |before| > 0 && minValue == MinOf(before) && maxValue == MaxOf(before)
    requires |after| == |before| && forall i :: 0 <= i < |before| ==> after[i] == if before[i] == maxValue then v else before[i]
    requires minValue <= v <= maxValue - step && OnGrid(v, minValue, step)
    ensures Adjusted(before, after, minValue, maxValue, step, maxAllowed)
  {
    assert forall i :: 0 <= i < |after| ==> after[i] < maxValue;
    assert MaxOf(after) in after;
    assert PairOf(after) != (minValue, maxValue);
    assert forall j :: 0 <= j < |before| && after[j] != before[j] ==> before[j] == maxValue;
    assert InRange(before, maxAllowed) ==> InRange(after, maxAllowed);
    if AllOnGrid(before, step) {
      OnGridTrans(v, minValue, 0, step);
      assert AllOnGrid(after, step);
    }
  }

  /** `row[pickIndex(indices)] = value`. */
  method SetOne(row: array<int>, indices: seq<nat>, value: int, rng: Oracle)
    requires |indices| > 0 && forall k :: 0 <= k < |indices| ==> indices[k] < row.Length
    modifies row, rng
    ensures exists k :: 0 <= k < |indices| && row[..] == old(row[..])[indices[k] := value]
  {
    var u := rng.Next();
    var k := FloorScaled(u, |indices|);
    row[indices[k]] := value;
  }

  /** `indices.forEach(index => { row[index] = value; })`. */
  method SetAll(row: array<int>, indices: seq<nat>, value: int)
    requires forall k :: 0 <= k < |indices| ==> indices[k] < row.Length
    modifies row
    ensures forall i :: 0 <= i < row.Length ==> row[i] == if i in indices then value else old(row[i])
  {
    for k := 0 to |indices|
      invariant forall i :: 0 <= i < row.Length ==> row[i] == if i in indices[..k] then value else old(row[i])
    {
      assert indices[..k + 1] == indices[..k] + [indices[k]];
      row[indices[k]] := value;
    }
    assert indices[..|indices|] == indices;
  }

  /** The first branch of `adjustRowMinMaxPair`: one maximum entry is raised. */
  method RaiseMax(row: array<int>, minValue: int, maxValue: int, usedPairs: set<Pair>, step: int, maxAllowed: int,
                  rng: Oracle)
    returns (changed: bool)
    requires step > 0 && row.Length > 0 && minValue == MinOf(row[..]) && maxValue == MaxOf(row[..])
    modifies row, rng
    ensures changed <==> RaiseMaxPossible(minValue, maxValue, usedPairs, step, maxAllowed)
    ensures !changed ==> row[..] == old(row[..])
    ensures changed ==> Adjusted(old(row[..]), row[..], minValue, maxValue, step, maxAllowed)
  {
    hide Adjusted, AnyFreshSlot;
    if maxValue >= maxAllowed {
      assert !RaiseMaxPossible(minValue, maxValue, usedPairs, step, maxAllowed);
      return false;
    }
    var values := row[..];
    var candidates := PairCandidates(maxValue + step, maxAllowed, step, Entries(values), usedPairs, true, minValue);
    if |candidates| == 0 {
      assert !RaiseMaxPossible(minValue, maxValue, usedPairs, step, maxAllowed);
      return false;
    }
    assert RaiseMaxPossible(minValue, maxValue, usedPairs, step, maxAllowed);
    var u := rng.Next();
    var newMax := candidates[FloorScaled(u, |candidates|)];
    assert FreshSlot(newMax, maxValue + step, maxAllowed, step, true, minValue, usedPairs);
    var maxIndices := IndicesOf(values, maxValue);
    assert maxIndices[0] in maxIndices by {
      assert values[FirstIndex(values, maxValue)] == maxValue;
    }
    SetOne(row, maxIndices, newMax, rng);
    ghost var k :| 0 <= k < |maxIndices| && row[..] == values[maxIndices[k] := newMax];
    RaiseAdjusted(values, maxIndices[k], newMax, minValue, maxValue, step, maxAllowed);
    changed := true;
  }

  /** The second branch of `adjustRowMinMaxPair`: one minimum entry is lowered. */
  method LowerMin(row: array<int>, minValue: int, maxValue: int, usedPairs: set<Pair>, step: int, maxAllowed: int,
                  rng: Oracle)
    returns (changed: bool)
    requires step > 0 && row.Length > 0 && minValue == MinOf(row[..]) && maxValue == MaxOf(row[..])
    modifies row, rng
    ensures changed <==> LowerMinPossible(minValue, maxValue, usedPairs, step)
    ensures !changed ==> row[..] == old(row[..])
    ensures changed ==> Adjusted(old(row[..]), row[..], minValue, maxValue, step, maxAllowed)
  {
    hide Adjusted, AnyFreshSlot;
    if minValue <= 0 {
      assert !LowerMinPossible(minValue, maxValue, usedPairs, step);
      return false;
    }
    var values := row[..];
    var candidates := PairCandidates(0, minValue - step, step, Entries(values), usedPairs, false, maxValue);
    if |candidates| == 0 {
      assert !LowerMinPossible(minValue, maxValue, usedPairs, step);
      return false;
    }
    assert LowerMinPossible(minValue, maxValue, usedPairs, step);
    var u := rng.Next();
    var newMin := candidates[FloorScaled(u, |candidates|)];
    assert FreshSlot(newMin, 0, minValue - step, step, false, maxValue, usedPairs);
    var minIndices := IndicesOf(values, minValue);
    assert minIndices[0] in minIndices by {
      assert values[FirstIndex(values, minValue)] == minValue;
    }
    SetOne(row, minIndices, newMin, rng);
    ghost var k :| 0 <= k < |minIndices| && row[..] == values[minIndices[k] := newMin];
    LowerMinAdjusted(values, minIndices[k], newMin, minValue, maxValue, step, maxAllowed);
    changed := true;
  }

  /** The third branch of `adjustRowMinMaxPair`: every maximum entry is lowered to one new value. */
  method LowerMax(row: array<int>, minValue: int, maxValue: int, usedPairs: set<Pair>, step: int, maxAllowed: int,
                  rng: Oracle)
    returns (changed: bool)
    requires step > 0 && row.Length > 0 && minValue == MinOf(row[..]) && maxValue == MaxOf(row[..])
    modifies row, rng
    ensures changed <==> LowerMaxPossible(minValue, maxValue, usedPairs, step)
    ensures !changed ==> row[..] == old(row[..])
    ensures changed ==> Adjusted(old(row[..]), row[..], minValue, maxValue, step, maxAllowed)
  {
    hide Adjusted, AnyFreshSlot;
    if !(minValue < maxValue && maxValue - step >= minValue) {
      assert !LowerMaxPossible(minValue, maxValue, usedPairs, step);
      return false;
    }
    var values := row[..];
    var candidates := PairCandidates(minValue, maxValue - step, step, Entries(values), usedPairs, true, minValue);
    if |candidates| == 0 {
      assert !LowerMaxPossible(minValue, maxValue, usedPairs, step);
      return false;
    }
    assert LowerMaxPossible(minValue, maxValue, usedPairs, step);
    var u := rng.Next();
    var newMax := candidates[FloorScaled(u, |candidates|)];
    assert FreshSlot(newMax, minValue, maxValue - step, step, true, minValue, usedPairs);
    var maxIndices := IndicesOf(values, maxValue);
    SetAll(row, maxIndices, newMax);
    ghost var after := row[..];
    forall i | 0 <= i < |values|
      ensures after[i] == if values[i] == maxValue then newMax else values[i]
    {
      assert values[i] == maxValue ==> i in maxIndices;
    }
    LowerMaxAdjusted(values, after, newMax, minValue, maxValue, step, maxAllowed);
    changed := true;
  }

  /**
   * dui_methods.js `adjustRowMinMaxPair`: try a larger maximum, then a
   * smaller minimum, then a smaller maximum, each with a grid value whose
   * pair with the other end is not recorded, preferring values not yet in
   * the row; false, and the row untouched, when no branch has a candidate.
   */
  method AdjustRowMinMaxPair(row: array<int>, minValue: int, maxValue: int, usedPairs: set<Pair>, step: int,
                             maxAllowed: int, rng: Oracle)
    returns (changed: bool)
    requires step > 0 && row.Length > 0 && minValue == MinOf(row[..]) && maxValue == MaxOf(row[..])
    modifies row, rng
    ensures changed <==> PairAdjustable(minValue, maxValue, usedPairs, step, maxAllowed)
    ensures !changed ==> row[..] == old(row[..])
    ensures changed ==> Adjusted(old(row[..]), row[..], minValue, maxValue, step, maxAllowed)
  {
    changed := RaiseMax(row, minValue, maxValue, usedPairs, step, maxAllowed, rng);
    if changed {
      return;
    }
    changed := LowerMin(row, minValue, maxValue, usedPairs, step, maxAllowed, rng);
    if changed {
      return;
    }
    changed := LowerMax(row, minValue, maxValue, usedPairs, step, maxAllowed, rng);
  }

  /**
   * The per-row loop of `ensureOprUniqueMinMax`: while the row's pair is
   * recorded, adjust the row, at most six times, and stop early when no
   * adjustment is possible. `adjustments` counts the adjustments made.
   */
  method SettleRow(row: array<int>, usedPairs: set<Pair>, step: int, maxAllowed: int, rng: Oracle)
    returns (ghost adjustments: nat)
    requires step > 0 && row.Length > 0
    modifies row, rng
    ensures adjustments <= 6
    ensures adjustments == 0 ==> row[..] == old(row[..])
    ensures adjustments > 0 ==>
      PairOf(old(row[..])) in usedPairs &&
      PairAdjustable(MinOf(old(row[..])), MaxOf(old(row[..])), usedPairs, step, maxAllowed)
    ensures PairOf(row[..]) in usedPairs ==>
      adjustments == 6 || !PairAdjustable(MinOf(row[..]), MaxOf(row[..]), usedPairs, step, maxAllowed)
    ensures InRange(old(row[..]), maxAllowed) ==> InRange(row[..], maxAllowed)
    ensures AllOnGrid(old(row[..]), step) ==> AllOnGrid(row[..], step)
  {
    ghost var original := row[..];
    var attempts := 0;
    while attempts < 6
      invariant attempts <= 6
      invariant attempts == 0 ==> row[..] == original
      invariant attempts > 0 ==>
        PairOf(original) in usedPairs && PairAdjustable(MinOf(original), MaxOf(original), usedPairs, step, maxAllowed)
      invariant InRange(original, maxAllowed) ==> InRange(row[..], maxAllowed)
      invariant AllOnGrid(original, step) ==> AllOnGrid(row[..], step)
    {
      var minValue := MinOf(row[..]);
      var maxValue := MaxOf(row[..]);
      if (minValue, maxValue) !in usedPairs {
        break;
      }
      ghost var before := row[..];
      var changed := AdjustRowMinMaxPair(row, minValue, maxValue, usedPairs, step, maxAllowed, rng);
      if !changed {
        break;
      }
      assert Adjusted(before, row[..], minValue, maxValue, step, maxAllowed);
      attempts := attempts + 1;
    }
    adjustments := attempts;
  }

  /** Recording one more row's pair. */
  lemma PairSetSnoc(rows: seq<seq<int>>, row: seq<int>)
    requires forall i :: 0 <= i < |rows| ==> |rows[i]| > 0
    requires |row| > 0
    ensures PairSet(rows + [row]) == PairSet(rows) + {PairOf(row)}
  {
    var extended := rows + [row];
    assert extended[|rows|] == row;
    forall p | p in PairSet(extended)
      ensures p in PairSet(rows) + {PairOf(row)}
    {
      var i :| 0 <= i < |extended| && PairOf(extended[i]) == p;
      if i < |rows| {
        assert extended[i] == rows[i];
      }
    }
    forall i | 0 <= i < |rows|
      ensures PairOf(rows[i]) in PairSet(extended)
    {
      assert extended[i] == rows[i];
    }
  }

  /**
   * What `ensureOprUniqueMinMax` guarantees for one row, given the rows
   * before it: the row changed only when its pair repeated an earlier pair
   * and could be adjusted; it still repeats one only when its six
   * adjustments are used up or none is possible; entries in [0, max] on
   * the grid stay so.
   */
  ghost predicate RowSettled(before: seq<int>, after: seq<int>, earlier: seq<seq<int>>, spent: nat, step: int)
    requires step > 0
  {
    |before| > 0 && |after| == |before| && (forall i :: 0 <= i < |earlier| ==> |earlier[i]| > 0) &&
    (after != before ==>
       PairOf(before) in PairSet(earlier) &&
       PairAdjustable(MinOf(before), MaxOf(before), PairSet(earlier), step, MaxPayoff(step))) &&
    (PairOf(after) in PairSet(earlier) ==>
       spent == 6 || !PairAdjustable(MinOf(after), MaxOf(after), PairSet(earlier), step, MaxPayoff(step))) &&
    (InRange(before, MaxPayoff(step)) ==> InRange(after, MaxPayoff(step))) &&
    (AllOnGrid(before, step) ==> AllOnGrid(after, step))
  }

  /** What `SettleRow` guarantees, read against the rows before it. */
  lemma SettledRow(before: seq<int>, after: seq<int>, earlier: seq<seq<int>>, usedPairs: set<Pair>, spent: nat,
                   step: int)
    requires step > 0 && |before| > 0 && |after| == |before|
    requires (forall i :: 0 <= i < |earlier| ==> |earlier[i]| > 0) && usedPairs == PairSet(earlier)
    requires spent == 0 ==> after == before
    requires spent > 0 ==>
      PairOf(before) in usedPairs && PairAdjustable(MinOf(before), MaxOf(before), usedPairs, step, MaxPayoff(step))
    requires PairOf(after) in usedPairs ==>
      spent == 6 || !PairAdjustable(MinOf(after), MaxOf(after), usedPairs, step, MaxPayoff(step))
    requires InRange(before, MaxPayoff(step)) ==> InRange(after, MaxPayoff(step))
    requires AllOnGrid(before, step) ==> AllOnGrid(after, step)
    ensures RowSettled(before, after, earlier, spent, step)
  {
  }

  /**
   * dui_methods.js `ensureOprUniqueMinMax`: the rows are visited in order
   * and each row's (minimum, maximum) pair is checked against the pairs of
   * the rows before it; a repeated pair is adjusted, at most six times,
   * and the row's final pair is recorded.
   */
  method EnsureOprUniqueMinMax(values: seq<seq<int>>, precision: int, rng: Oracle)
    returns (result: seq<seq<int>>, ghost adjustments: seq<nat>)
    requires precision > 0 && forall i :: 0 <= i < |values| ==> |values[i]| > 0
    modifies rng
    ensures |result| == |values| && |adjustments| == |values|
    ensures forall k :: 0 <= k < |values| ==> RowSettled(values[k], result[k], result[..k], adjustments[k], precision)
  {
    hide *;
    var usedPairs: set<Pair> := {};
    var maxValue := MaxPayoff(precision);
    result := [];
    adjustments := [];
    for k := 0 to |values|
      invariant |result| == k && |adjustments| == k
      invariant forall j :: 0 <= j < k ==> |result[j]| > 0
      invariant usedPairs == PairSet(result)
      invariant forall j :: 0 <= j < k ==> RowSettled(values[j], result[j], result[..j], adjustments[j], precision)
    {
      var row := RowArray(values[k]);
      ghost var spent := SettleRow(row, usedPairs, precision, maxValue, rng);
      SettledRow(values[k], row[..], result, usedPairs, spent, precision);
      PairSetSnoc(result, row[..]);
      usedPairs := usedPairs + {PairOf(row[..])};
      ghost var extended := result + [row[..]];
      forall j | 0 <= j < k + 1
        ensures RowSettled(values[j], extended[j], extended[..j], (adjustments + [spent])[j], precision)
      {
        assert extended[..j] == if j < k then result[..j] else result;
      }
      result := result + [row[..]];
      adjustments := adjustments + [spent];
    }
  }
}
