/**
 * apps/exercises/modules/dui/dui_methods.js: the routines that repair a
 * random payoff table before it is shown, so that the exercise has the
 * ties (or the unique winner) its rule is meant to teach. Entries live on
 * the grid 0, p, 2p, … of the value precision p; `rng` is an oracle.
 */
module DuiRepair {
  import opened Random
  import opened DuiLexical
  import Sorting

  /** The k-th point of the grid min, min + step, min + 2·step, … */
  function GridPoint(min: int, step: int, k: int): int {
    min + k * step
  }

  /** `v` lies on the grid that starts at `base` with spacing `step`. */
  predicate OnGrid(v: int, base: int, step: int)
    requires step > 0
  {
    (v - base) % step == 0
  }

  lemma {:induction false} MulAtLeastStep(k: int, step: int)
    requires k >= 1 && step > 0
    ensures k * step >= step
  {
    if k > 1 {
      MulAtLeastStep(k - 1, step);
      assert k * step == (k - 1) * step + step;
    }
  }

  /** A whole number of steps is a multiple of the step. */
  lemma StepsOnGrid(k: int, step: int)
    requires step > 0
    ensures (k * step) % step == 0
  {
    var x := k * step;
    var d := x / step;
    var r := x % step;
    assert x == d * step + r;
    assert (k - d) * step == r;
    if k - d >= 1 {
      MulAtLeastStep(k - d, step);
    } else if k - d <= -1 {
      MulAtLeastStep(d - k, step);
    }
  }

  /** Moving by one step stays on the grid. */
  lemma OnGridShift(v: int, base: int, step: int)
    requires step > 0 && OnGrid(v, base + step, step)
    ensures OnGrid(v, base, step)
  {
    var q := (v - base - step) / step;
    assert v - base - step == q * step;
    assert v - base == (q + 1) * step;
    StepsOnGrid(q + 1, step);
  }

  /**
   * `Math.floor((max - min) / step) + 1`: the number of grid points in
   * [min, max]. Every one of them lies in the range and on the grid.
   */
  function GridCount(min: int, max: int, step: int): (n: int)
    requires step > 0 && min <= max
    ensures n >= 1
  {
    (max - min) / step + 1
  }

  lemma GridPointInRange(min: int, max: int, step: int, k: int)
    requires step > 0 && min <= max && 0 <= k < GridCount(min, max, step)
    ensures min <= GridPoint(min, step, k) <= max
    ensures OnGrid(GridPoint(min, step, k), min, step)
  {
    var q := (max - min) / step;
    assert q * step <= max - min;
    assert (q - k) * step >= 0;
    StepsOnGrid(k, step);
  }

  /**
   * `pickValue`: a value of the grid min, min + step, … inside [min, max],
   * drawn at random up to six times and otherwise the first unused point;
   * `min` itself when the range is empty or every point is used.
   */
  method PickValue(min: int, max: int, step: int, used: set<int>, rng: Oracle) returns (value: int)
    requires step > 0
    modifies rng
    ensures min > max ==> value == min && rng.calls == old(rng.calls)
    ensures min <= max ==> min <= value <= max && OnGrid(value, min, step)
    ensures min <= max && value in used ==>
      forall k :: 0 <= k < GridCount(min, max, step) ==> GridPoint(min, step, k) in used
    ensures old(rng.calls) <= rng.calls <= old(rng.calls) + 6
  {
    if min > max {
      return min;
    }
    var count := GridCount(min, max, step);
    var tries := if count < 6 then count else 6;
    var i := 0;
    while i < tries
      invariant 0 <= i <= tries
      invariant rng.calls == old(rng.calls) + i
    {
      var u := rng.Next();
      var k := FloorScaled(u, count);
      GridPointInRange(min, max, step, k);
      value := GridPoint(min, step, k);
      if value !in used {
        return;
      }
      i := i + 1;
    }
    i := 0;
    while i < count
      invariant 0 <= i <= count
      invariant forall k :: 0 <= k < i ==> GridPoint(min, step, k) in used
      invariant old(rng.calls) <= rng.calls <= old(rng.calls) + 6
    {
      GridPointInRange(min, max, step, i);
      value := GridPoint(min, step, i);
      if value !in used {
        return;
      }
      i := i + 1;
    }
    value := min;
    GridPointInRange(min, max, step, 0);
  }

  /**
   * `pickValueAtMost`: a multiple of the step in [0, cap], where cap is
   * the current value bounded by `maxAllowed` and by 0 from below; tried at
   * random up to six times, then from the top down, and `cap` itself when
   * every multiple is used.
   */
  method PickValueAtMost(currentValue: int, maxAllowed: int, step: int, used: set<int>, rng: Oracle)
    returns (value: int)
    requires step > 0
    modifies rng
    ensures var cap := if currentValue < maxAllowed then currentValue else maxAllowed;
      var cap := if cap < 0 then 0 else cap;
      && 0 <= value <= cap
      && (value in used || !OnGrid(value, 0, step) ==>
            value == cap && forall k :: 0 <= k < GridCount(0, cap, step) ==> GridPoint(0, step, k) in used)
    ensures old(rng.calls) <= rng.calls <= old(rng.calls) + 6
  {
    var low := if currentValue < maxAllowed then currentValue else maxAllowed;
    var cap := if low < 0 then 0 else low;
    var count := GridCount(0, cap, step);
    var tries := if count < 6 then count else 6;
    var i := 0;
    while i < tries
      invariant 0 <= i <= tries
      invariant rng.calls == old(rng.calls) + i
    {
      var u := rng.Next();
      var k := FloorScaled(u, count);
      GridPointInRange(0, cap, step, k);
      value := GridPoint(0, step, k);
      if value !in used {
        return;
      }
      i := i + 1;
    }
    i := count - 1;
    while i >= 0
      invariant -1 <= i < count
      invariant forall k :: i < k < count ==> GridPoint(0, step, k) in used
      invariant old(rng.calls) <= rng.calls <= old(rng.calls) + 6
    {
      GridPointInRange(0, cap, step, i);
      value := GridPoint(0, step, i);
      if value !in used {
        return;
      }
      i := i - 1;
    }
    value := cap;
  }

  /** The set of entries of a row (`new Set(row)`). */
  function Entries(row: seq<int>): (s: set<int>)
    ensures forall v :: v in s <==> v in row
  {
    set i | 0 <= i < |row| :: row[i]
  }

  /**
   * What `normalizeRowMin` leaves at one position, given the entry found
   * there: the minimum at the chosen position; an entry above the minimum
   * kept; any other entry replaced by a grid value that is at least the
   * minimum, and above it when the grid leaves room.
   */
  ghost predicate EntryNormalized(v: int, before: int, isMin: bool, minValue: int, step: int, maxValue: int)
    requires step > 0
  {
    if isMin then v == minValue
    else if before > minValue then v == before
    else
      && v >= minValue
      && (minValue + step <= maxValue ==> v > minValue)
      && (minValue <= maxValue ==> v <= maxValue && OnGrid(v, minValue, step))
  }

  /** One visit of the `forEach` of `normalizeRowMin`. */
  method NormalizeEntry(value: int, isMin: bool, minValue: int, step: int, maxValue: int, used: set<int>, rng: Oracle)
    returns (newValue: int)
    requires step > 0
    modifies rng
    ensures EntryNormalized(newValue, value, isMin, minValue, step, maxValue)
  {
    if isMin {
      newValue := minValue;
    } else if value <= minValue {
      var targetFloor := if minValue + step > maxValue then minValue else minValue + step;
      newValue := PickValue(targetFloor, maxValue, step, used, rng);
      if targetFloor != minValue && minValue <= maxValue {
        OnGridShift(newValue, minValue, step);
      }
    } else {
      newValue := value;
    }
  }

  /**
   * `normalizeRowMin`: the row gets `minValue` at its first occurrence (or
   * at a random position when it has none); every other entry that is not
   * above `minValue` is replaced by a fresh grid value above it when the
   * grid leaves room, so `minValue` becomes the single minimum. Returns the
   * position of the minimum and the set of the row's final entries.
   */
  method NormalizeRowMin(row: array<int>, minValue: int, step: int, maxValue: int, rng: Oracle)
    returns (minIndex: int, used: set<int>)
    requires step > 0
    modifies row, rng
    ensures minValue in old(row[..]) ==> minIndex == FirstIndex(old(row[..]), minValue)
    ensures row.Length > 0 ==> 0 <= minIndex < row.Length && row[minIndex] == minValue
    ensures forall i :: 0 <= i < row.Length ==> row[i] >= minValue
    ensures minValue + step <= maxValue ==>
      forall i :: 0 <= i < row.Length && i != minIndex ==> row[i] > minValue
    ensures forall i :: 0 <= i < row.Length && i != minIndex && old(row[i]) > minValue ==> row[i] == old(row[i])
    ensures minValue <= maxValue ==>
      forall i :: 0 <= i < row.Length && i != minIndex && old(row[i]) <= minValue ==>
        row[i] <= maxValue && OnGrid(row[i], minValue, step)
    ensures used == Entries(row[..])
  {
    ghost var original := row[..];
    if minValue in row[..] {
      minIndex := FirstIndex(row[..], minValue);
    } else {
      var u := rng.Next();
      minIndex := FloorScaled(u, row.Length);
    }
    used := {};
    var index := 0;
    while index < row.Length
      invariant 0 <= index <= row.Length
      invariant row[index..] == original[index..]
      invariant forall i :: 0 <= i < index ==>
        EntryNormalized(row[i], original[i], i == minIndex, minValue, step, maxValue)
      invariant used == Entries(row[..index])
    {
      assert row[index] == original[index];
      var newValue := NormalizeEntry(row[index], index == minIndex, minValue, step, maxValue, used, rng);
      row[index] := newValue;
      used := used + {newValue};
      assert row[..index + 1] == row[..index] + [newValue];
      index := index + 1;
    }
    assert row[..] == row[..row.Length];
    forall i | 0 <= i < row.Length
      ensures EntryNormalized(row[i], original[i], i == minIndex, minValue, step, maxValue)
    {
    }
  }

  /** The positions from `from` on whose flag is set, in increasing order (`map` to index, then `filter`). */
  function Positions(flags: seq<bool>, from: nat): (r: seq<nat>)
    ensures forall k :: 0 <= k < |r| ==> from <= r[k] < |flags| && flags[r[k]]
    ensures forall i :: from <= i < |flags| && flags[i] ==> i in r
    ensures forall j, k :: 0 <= j < k < |r| ==> r[j] < r[k]
    decreases |flags| - from
  {
    if from >= |flags| then []
    else (if flags[from] then [from] else []) + Positions(flags, from + 1)
  }

  /** `row.reduce((acc, value) => acc + value, 0)`. */
  function RowSum(row: seq<int>): int {
    if |row| == 0 then 0 else row[0] + RowSum(row[1..])
  }

  /** Changing one entry changes the sum by the difference. */
  lemma {:induction false} RowSumUpdate(row: seq<int>, i: int, v: int)
    requires 0 <= i < |row|
    ensures RowSum(row[i := v]) == RowSum(row) - row[i] + v
  {
    if i > 0 {
      assert row[i := v][1..] == row[1..][i - 1 := v];
      RowSumUpdate(row[1..], i - 1, v);
    } else {
      assert row[i := v][1..] == row[1..];
    }
  }

  /** `Math.floor(200 / p) * p`: the largest payoff the tables use. */
  function MaxPayoff(precision: int): (m: int)
    requires precision > 0
    ensures 0 <= m <= 200 && OnGrid(m, 0, precision)
  {
    StepsOnGrid(200 / precision, precision);
    (200 / precision) * precision
  }

  /** A copy of a row as a fresh array (`row.slice(1).map(Number)`). */
  method RowArray(row: seq<int>) returns (a: array<int>)
    ensures fresh(a) && a[..] == row
  {
    a := new int[|row|](i requires 0 <= i < |row| => row[i]);
  }

  /**
   * `increaseRowValue`: one entry that still has room below `maxAllowed`
   * is raised to a grid value at least one step higher, at most
   * `maxAllowed`; false, and the row untouched, when no entry has room.
   */
  method IncreaseRowValue(row: array<int>, step: int, maxAllowed: int, rng: Oracle) returns (changed: bool)
    requires step > 0
    modifies row, rng
    ensures changed <==> exists i :: 0 <= i < row.Length && old(row[i]) + step <= maxAllowed
    ensures !changed ==> row[..] == old(row[..])
    ensures changed ==>
      exists i :: (0 <= i < row.Length &&
                   old(row[i]) + step <= row[i] <= maxAllowed && row[..] == old(row[..])[i := row[i]])
    ensures changed ==> RowSum(row[..]) >= RowSum(old(row[..])) + step
  {
    var values := row[..];
    var flags := seq(|values|, i requires 0 <= i < |values| => values[i] + step <= maxAllowed);
    var candidates := Positions(flags, 0);
    if |candidates| == 0 {
      forall i | 0 <= i < row.Length
        ensures row[i] + step > maxAllowed
      {
        assert flags[i] ==> i in candidates;
      }
      return false;
    }
    var u := rng.Next();
    var pick := candidates[FloorScaled(u, |candidates|)];
    var newValue := PickValue(values[pick] + step, maxAllowed, step, Entries(values), rng);
    row[pick] := newValue;
    assert row[..] == values[pick := newValue];
    RowSumUpdate(values, pick, newValue);
    return true;
  }

  /**
   * The (value, index) pair at a random one of the first three places once
   * the pairs are sorted by value from the largest down, ties in their
   * original order.
   */
  function AmongLargest(candidates: seq<(int, nat)>, u: Fraction): (pick: (int, nat))
    requires |candidates| > 0
    ensures pick in candidates
  {
    var sorted := Sorting.Sort(candidates, (a: (int, nat), b: (int, nat)) => a.0 >= b.0);
    var top := if |sorted| < 3 then |sorted| else 3;
    var pick := sorted[FloorScaled(u, top)];
    assert pick in multiset(sorted);
    pick
  }

  /** `pickValueAtMost(v, v - step, …)` for an entry at least one step above 0. */
  method LowerValue(v: int, step: int, used: set<int>, rng: Oracle) returns (newValue: int)
    requires step > 0 && v - step >= 0
    modifies rng
    ensures 0 <= newValue <= v - step
  {
    newValue := PickValueAtMost(v, v - step, step, used, rng);
  }

  /**
   * The entries at least one step above 0, from position `from` on, as
   * (value, index) pairs in row order.
   */
  function LowerableEntries(values: seq<int>, step: int, from: nat): (c: seq<(int, nat)>)
    ensures forall k :: 0 <= k < |c| ==> from <= c[k].1 < |values| && c[k].0 == values[c[k].1] && c[k].0 - step >= 0
    ensures |c| == 0 ==> forall i :: from <= i < |values| ==> values[i] - step < 0
    decreases |values| - from
  {
    if from >= |values| then []
    else (if values[from] - step >= 0 then [(values[from], from)] else []) + LowerableEntries(values, step, from + 1)
  }

  /** The position `decreaseRowValue` lowers, for the draw `u`. */
  function LowerablePick(values: seq<int>, step: int, candidates: seq<(int, nat)>, u: Fraction): (index: nat)
    requires candidates == LowerableEntries(values, step, 0) && |candidates| > 0
    ensures index < |values| && values[index] - step >= 0
  {
    var pick := AmongLargest(candidates, u);
    var k :| 0 <= k < |candidates| && candidates[k] == pick;
    pick.1
  }

  /**
   * `decreaseRowValue`: among the entries at least one step above 0,
   * sorted from the largest down, one of the first three is lowered to a
   * value between 0 and one step below it; false, and the row untouched,
   * when no entry is that large.
   */
  method DecreaseRowValue(row: array<int>, step: int, rng: Oracle) returns (changed: bool)
    requires step > 0
    modifies row, rng
    ensures changed <==> exists i :: 0 <= i < row.Length && old(row[i]) - step >= 0
    ensures !changed ==> row[..] == old(row[..])
    ensures changed ==>
      exists i :: (0 <= i < row.Length &&
                   0 <= row[i] <= old(row[i]) - step && row[..] == old(row[..])[i := row[i]])
    ensures changed ==> RowSum(row[..]) <= RowSum(old(row[..])) - step
  {
    var values := row[..];
    var candidates := LowerableEntries(values, step, 0);
    if |candidates| == 0 {
      return false;
    }
    var u := rng.Next();
    var index := LowerablePick(values, step, candidates, u);
    var newValue := LowerValue(values[index], step, Entries(values), rng);
    row[index] := newValue;
    assert row[..] == values[index := newValue];
    RowSumUpdate(values, index, newValue);
    assert 0 <= row[index] <= old(row[index]) - step && row[..] == old(row[..])[index := row[index]];
    return true;
  }

  /** The row sums (`values.map(row => row.reduce(…))`). */
  function Sums(values: seq<seq<int>>): (sums: seq<int>)
    ensures |sums| == |values| && forall i :: 0 <= i < |values| ==> sums[i] == RowSum(values[i])
  {
    seq(|values|, i requires 0 <= i < |values| => RowSum(values[i]))
  }

  /** The rows whose sum is the largest row sum, in order (`tied`); none for an empty table. */
  function Tied(values: seq<seq<int>>): (tied: seq<nat>)
    ensures |values| == 0 ==> tied == []
    ensures |values| > 0 ==> forall k :: 0 <= k < |tied| ==> tied[k] < |values| && RowSum(values[tied[k]]) == MaxOf(Sums(values))
    ensures |values| > 0 ==> forall i :: 0 <= i < |values| && RowSum(values[i]) == MaxOf(Sums(values)) ==> i in tied
    ensures forall j, k :: 0 <= j < k < |tied| ==> tied[j] < tied[k]
  {
    if |values| == 0 then []
    else
      var maxSum := MaxOf(Sums(values));
      Positions(seq(|values|, i requires 0 <= i < |values| => RowSum(values[i]) == maxSum), 0)
  }

  /** Some entry of the row can still grow by a step without passing `maxValue`. */
  predicate HasRoom(row: seq<int>, step: int, maxValue: int) {
    exists i :: 0 <= i < |row| && row[i] + step <= maxValue
  }

  /** The tied rows that have room to grow (`improvable`). */
  function Improvable(values: seq<seq<int>>, tied: seq<nat>, step: int, maxValue: int): (r: seq<nat>)
    requires forall k :: 0 <= k < |tied| ==> tied[k] < |values|
    ensures forall k :: 0 <= k < |r| ==> r[k] in tied && HasRoom(values[r[k]], step, maxValue)
    ensures |r| == 0 ==> forall k :: 0 <= k < |tied| ==> !HasRoom(values[tied[k]], step, maxValue)
  {
    if |tied| == 0 then []
    else (if HasRoom(values[tied[0]], step, maxValue) then [tied[0]] else []) + Improvable(values, tied[1..], step, maxValue)
  }

  /** The tied rows other than the winner (`losers`). */
  function Without(xs: seq<nat>, x: nat): (r: seq<nat>)
    ensures forall k :: 0 <= k < |r| ==> r[k] in xs && r[k] != x
    ensures (exists k :: 0 <= k < |xs| && xs[k] != x) ==> |r| > 0
  {
    if |xs| == 0 then []
    else (if xs[0] != x then [xs[0]] else []) + Without(xs[1..], x)
  }

  /** A row whose sum beats every other row's is the largest sum. */
  lemma BeatsAllIsMax(values: seq<seq<int>>, w: nat)
    requires w < |values|
    requires forall i :: 0 <= i < |values| && i != w ==> RowSum(values[i]) < RowSum(values[w])
    ensures RowSum(values[w]) == MaxOf(Sums(values))
  {
    var sums := Sums(values);
    assert sums[w] <= MaxOf(sums);
    assert forall i :: 0 <= i < |sums| ==> sums[i] <= sums[w];
    assert MaxOf(sums) in sums;
  }

  /** The last entry of a strictly increasing list is at least its length minus one above the first. */
  lemma {:induction false} IncreasingSpread(xs: seq<nat>)
    requires |xs| > 0
    requires forall j, k :: 0 <= j < k < |xs| ==> xs[j] < xs[k]
    ensures xs[|xs| - 1] - xs[0] >= |xs| - 1
  {
    if |xs| > 1 {
      IncreasingSpread(xs[..|xs| - 1]);
      assert xs[|xs| - 2] < xs[|xs| - 1];
    }
  }

  /** A strictly increasing list whose entries all equal `w` and that holds `w` is just [w]. */
  lemma OnlyEntry(xs: seq<nat>, w: nat)
    requires w in xs
    requires forall j, k :: 0 <= j < k < |xs| ==> xs[j] < xs[k]
    requires forall k :: 0 <= k < |xs| ==> xs[k] == w
    ensures xs == [w]
  {
    IncreasingSpread(xs);
    assert xs[|xs| - 1] == w && xs[0] == w;
  }

  /** When one row's sum beats every other row's, it is the only tied row. */
  lemma SingleTied(values: seq<seq<int>>, w: nat)
    requires w < |values|
    requires forall i :: 0 <= i < |values| && i != w ==> RowSum(values[i]) < RowSum(values[w])
    ensures Tied(values) == [w]
  {
    BeatsAllIsMax(values, w);
    var tied := Tied(values);
    forall k | 0 <= k < |tied|
      ensures tied[k] == w
    {
    }
    OnlyEntry(tied, w);
  }

  /** The improvable branch of `ensurePirUniqueBest`: a random improvable row grows. */
  method RaiseTiedRow(values: seq<seq<int>>, improvable: seq<nat>, precision: int, maxValue: int, rng: Oracle)
    returns (result: seq<seq<int>>, w: nat)
    requires precision > 0 && |improvable| > 0 && |values| > 0
    requires forall k :: 0 <= k < |improvable| ==> improvable[k] < |values| && HasRoom(values[improvable[k]], precision, maxValue)
    requires forall k :: 0 <= k < |improvable| ==> RowSum(values[improvable[k]]) == MaxOf(Sums(values))
    modifies rng
    ensures w in improvable && |result| == |values| && result == values[w := result[w]] && |result[w]| == |values[w]|
    ensures Tied(result) == [w]
  {
    var u := rng.Next();
    w := improvable[FloorScaled(u, |improvable|)];
    var row := RowArray(values[w]);
    var changed := IncreaseRowValue(row, precision, maxValue, rng);
    result := values[w := row[..]];
    assert RowSum(result[w]) > MaxOf(Sums(values));
    forall i | 0 <= i < |values| && i != w
      ensures RowSum(result[i]) < RowSum(result[w])
    {
      assert Sums(values)[i] <= MaxOf(Sums(values));
    }
    SingleTied(result, w);
  }

  /** The other branch of `ensurePirUniqueBest`: a random tied loser shrinks when it can. */
  method LowerTiedRow(values: seq<seq<int>>, tied: seq<nat>, precision: int, rng: Oracle)
    returns (result: seq<seq<int>>, t: nat)
    requires precision > 0 && |tied| > 0
    requires forall k :: 0 <= k < |tied| ==> tied[k] < |values|
    modifies rng
    ensures t in tied && |result| == |values| && result == values[t := result[t]] && |result[t]| == |values[t]|
    ensures RowSum(result[t]) <= RowSum(values[t])
    ensures result[t] != values[t] ==> RowSum(result[t]) <= RowSum(values[t]) - precision
  {
    var u := rng.Next();
    var winner := tied[FloorScaled(u, |tied|)];
    var losers := Without(tied, winner);
    t := winner;
    if |losers| > 0 {
      var u2 := rng.Next();
      t := losers[FloorScaled(u2, |losers|)];
    }
    var row := RowArray(values[t]);
    var changed := DecreaseRowValue(row, precision, rng);
    result := values[t := row[..]];
  }

  /**
   * `ensurePirUniqueBest`: when two or more rows share the largest sum, one
   * of them is changed. A tied row with room grows by at least a step and
   * becomes the single best row; otherwise a tied row shrinks by at least
   * a step when it can. A table with one best row is returned unchanged.
   */
  method EnsurePirUniqueBest(values: seq<seq<int>>, precision: int, rng: Oracle) returns (result: seq<seq<int>>)
    requires precision > 0
    modifies rng
    ensures |result| == |values| && forall i :: 0 <= i < |values| ==> |result[i]| == |values[i]|
    ensures |Tied(values)| <= 1 ==> result == values
    ensures |Tied(values)| > 1 && |Improvable(values, Tied(values), precision, MaxPayoff(precision))| > 0 ==>
      |Tied(result)| == 1 && Tied(result)[0] in Tied(values)
    ensures |Tied(values)| > 1 && |Improvable(values, Tied(values), precision, MaxPayoff(precision))| == 0 ==>
      exists t :: (0 <= t < |values| && t in Tied(values) && result == values[t := result[t]] &&
                   RowSum(result[t]) <= MaxOf(Sums(values)) &&
                   (result[t] != values[t] ==> RowSum(result[t]) < MaxOf(Sums(values))))
  {
    hide *;
    var tied := Tied(values);
    if |tied| <= 1 {
      return values;
    }
    var maxValue := MaxPayoff(precision);
    var improvable := Improvable(values, tied, precision, maxValue);
    if |improvable| > 0 {
      var w;
      result, w := RaiseTiedRow(values, improvable, precision, maxValue, rng);
    } else {
      var t;
      result, t := LowerTiedRow(values, tied, precision, rng);
      assert RowSum(values[t]) == MaxOf(Sums(values));
    }
  }

  /**
   * What `liftAbove` and the loop of `ensureSecondMin` leave at one
   * position: skipped positions and entries above the floor are kept; any
   * other entry is replaced by a grid value at least the floor, and above
   * it when the grid leaves room.
   */
  ghost predicate EntryLifted(v: int, before: int, skip: bool, floorValue: int, step: int, maxValue: int)
    requires step > 0
  {
    if skip || before > floorValue then v == before
    else
      && v >= floorValue
      && (floorValue + step <= maxValue ==> v > floorValue)
      && (floorValue <= maxValue ==> v <= maxValue && OnGrid(v, floorValue, step))
  }

  /** One visit of the lifting loop. */
  method LiftEntry(value: int, skip: bool, floorValue: int, step: int, maxValue: int, used: set<int>, rng: Oracle)
    returns (newValue: int)
    requires step > 0
    modifies rng
    ensures EntryLifted(newValue, value, skip, floorValue, step, maxValue)
  {
    if skip || value > floorValue {
      newValue := value;
    } else {
      var targetFloor := if floorValue + step > maxValue then floorValue else floorValue + step;
      newValue := PickValue(targetFloor, maxValue, step, used, rng);
      if targetFloor != floorValue && floorValue <= maxValue {
        OnGridShift(newValue, floorValue, step);
      }
    }
  }

  /**
   * The `forEach` shared by `liftAbove` and `ensureSecondMin`: every entry
   * not above `floorValue`, except at the skipped positions, is replaced by
   * a fresh grid value above it.
   */
  method LiftEntries(row: array<int>, skipA: int, skipB: int, floorValue: int, step: int, maxValue: int,
                     used: set<int>, rng: Oracle)
    requires step > 0
    modifies row, rng
    ensures forall i :: 0 <= i < row.Length ==>
      EntryLifted(row[i], old(row[i]), i == skipA || i == skipB, floorValue, step, maxValue)
  {
    ghost var original := row[..];
    var seen := used;
    var index := 0;
    while index < row.Length
      invariant 0 <= index <= row.Length
      invariant row[index..] == original[index..]
      invariant forall i :: 0 <= i < index ==>
        EntryLifted(row[i], original[i], i == skipA || i == skipB, floorValue, step, maxValue)
    {
      assert row[index] == original[index];
      var value := row[index];
      var skip := index == skipA || index == skipB;
      var newValue := LiftEntry(value, skip, floorValue, step, maxValue, seen, rng);
      if !skip && value <= floorValue {
        row[index] := newValue;
        seen := seen + {newValue};
      }
      index := index + 1;
    }
  }

  /** `liftAbove`: every entry but the minimum that is not above `floorValue` is lifted above it. */
  method LiftAbove(row: array<int>, minIndex: int, floorValue: int, step: int, maxValue: int, rng: Oracle, used: set<int>)
    requires step > 0
    modifies row, rng
    ensures forall i :: 0 <= i < row.Length ==>
      EntryLifted(row[i], old(row[i]), i == minIndex, floorValue, step, maxValue)
  {
    LiftEntries(row, minIndex, minIndex, floorValue, step, maxValue, used, rng);
  }

  /** The first position other than `skip` that holds `v` (`findIndex`), or -1. */
  function FirstOtherIndex(row: seq<int>, skip: int, v: int, from: nat): (i: int)
    ensures i == -1 || (from <= i < |row| && i != skip && row[i] == v)
    ensures i == -1 ==> forall j :: from <= j < |row| && j != skip ==> row[j] != v
    ensures i != -1 ==> forall j :: from <= j < i && j != skip ==> row[j] != v
    decreases |row| - from
  {
    if from >= |row| then -1
    else if from != skip && row[from] == v then from
    else FirstOtherIndex(row, skip, v, from + 1)
  }

  /**
   * `ensureSecondMin`: some position other than the minimum holds
   * `secondMin` (the first that already does, or a random one that is set
   * to it); every other entry not above `secondMin` is lifted above it.
   * A one-entry row has no such position and gets -1.
   */
  method EnsureSecondMin(row: array<int>, minIndex: int, secondMin: int, step: int, maxValue: int, rng: Oracle,
                         used: set<int>)
    returns (secondIndex: int)
    requires step > 0 && 0 <= minIndex < row.Length
    modifies row, rng
    ensures row.Length >= 2 ==> 0 <= secondIndex < row.Length && secondIndex != minIndex && row[secondIndex] == secondMin
    ensures row.Length < 2 ==> secondIndex == -1
    ensures row[minIndex] == old(row[minIndex])
    ensures forall i :: 0 <= i < row.Length && i != minIndex && i != secondIndex ==>
      EntryLifted(row[i], old(row[i]), false, secondMin, step, maxValue)
  {
    secondIndex := FirstOtherIndex(row[..], minIndex, secondMin, 0);
    if secondIndex == -1 {
      var candidates := Positions(seq(row.Length, i requires 0 <= i < row.Length => i != minIndex), 0);
      assert row.Length >= 2 ==> (if minIndex == 0 then 1 else 0) in candidates;
      var u := rng.Next();
      if |candidates| > 0 {
        secondIndex := candidates[FloorScaled(u, |candidates|)];
        row[secondIndex] := secondMin;
      }
    } else {
      assert row.Length >= 2;
    }
    ghost var middle := row[..];
    LiftEntries(row, minIndex, secondIndex, secondMin, step, maxValue, used + {secondMin}, rng);
    forall i | 0 <= i < row.Length && i != minIndex && i != secondIndex
      ensures EntryLifted(row[i], old(row[i]), false, secondMin, step, maxValue)
    {
      assert middle[i] == old(row[i]);
    }
  }

  /** A row whose entry at `k` is `m` and whose entries are all at least `m` has minimum `m`. */
  lemma MinIs(row: seq<int>, k: int, m: int)
    requires 0 <= k < |row| && row[k] == m
    requires forall i :: 0 <= i < |row| ==> row[i] >= m
    ensures MinOf(row) == m
  {
    assert MinOf(row) <= row[k];
  }

  /** One entry is `minValue`, every other is at least `secondMin`, and `secondMin` occurs when there is room. */
  ghost predicate SecondMinShape(row: seq<int>, minValue: int, secondMin: int) {
    exists m :: (0 <= m < |row| && row[m] == minValue &&
                 (forall i :: 0 <= i < |row| && i != m ==> row[i] >= secondMin) &&
                 (|row| >= 2 ==> secondMin in row))
  }

  /** One entry is `minValue` and every other lies above `floorValue`. */
  ghost predicate LiftedShape(row: seq<int>, minValue: int, floorValue: int) {
    exists m :: (0 <= m < |row| && row[m] == minValue &&
                 forall i :: 0 <= i < |row| && i != m ==> row[i] > floorValue)
  }

  /** `normalizeRowMin` on row k of the table. */
  method ForceRowMin(values: seq<seq<int>>, k: int, minValue: int, step: int, maxValue: int, rng: Oracle)
    returns (result: seq<seq<int>>)
    requires step > 0 && 0 <= k < |values| && |values[k]| > 0
    modifies rng
    ensures |result| == |values| && result == values[k := result[k]] && |result[k]| == |values[k]|
    ensures MinOf(result[k]) == minValue
  {
    var row := RowArray(values[k]);
    var minIndex, used := NormalizeRowMin(row, minValue, step, maxValue, rng);
    MinIs(row[..], minIndex, minValue);
    result := values[k := row[..]];
  }

  /** `normalizeRowMin` then `ensureSecondMin` on row k of the table. */
  method ForceRowSecondMin(values: seq<seq<int>>, k: int, minValue: int, secondMin: int, step: int, maxValue: int,
                           rng: Oracle)
    returns (result: seq<seq<int>>)
    requires step > 0 && 0 <= k < |values| && |values[k]| > 0
    requires minValue < secondMin
    modifies rng
    ensures |result| == |values| && result == values[k := result[k]] && |result[k]| == |values[k]|
    ensures MinOf(result[k]) == minValue
    ensures SecondMinShape(result[k], minValue, secondMin)
  {
    var row := RowArray(values[k]);
    var minIndex, used := NormalizeRowMin(row, minValue, step, maxValue, rng);
    ghost var normalized := row[..];
    var secondIndex := EnsureSecondMin(row, minIndex, secondMin, step, maxValue, rng, used);
    forall i | 0 <= i < row.Length && i != minIndex
      ensures row[i] >= secondMin
    {
      if i != secondIndex {
        assert EntryLifted(row[i], normalized[i], false, secondMin, step, maxValue);
      }
    }
    MinIs(row[..], minIndex, minValue);
    if row.Length >= 2 {
      assert row[..][secondIndex] == secondMin;
    }
    assert SecondMinShape(row[..], minValue, secondMin) by {
      assert row[..][minIndex] == minValue;
    }
    result := values[k := row[..]];
  }

  /** `normalizeRowMin` then `liftAbove` on row k of the table. */
  method ForceRowAbove(values: seq<seq<int>>, k: int, minValue: int, floorValue: int, step: int, maxValue: int,
                       rng: Oracle)
    returns (result: seq<seq<int>>)
    requires step > 0 && 0 <= k < |values| && |values[k]| > 0
    requires minValue < floorValue && floorValue + step <= maxValue
    modifies rng
    ensures |result| == |values| && result == values[k := result[k]] && |result[k]| == |values[k]|
    ensures MinOf(result[k]) == minValue
    ensures LiftedShape(result[k], minValue, floorValue)
  {
    var row := RowArray(values[k]);
    var minIndex, used := NormalizeRowMin(row, minValue, step, maxValue, rng);
    ghost var normalized := row[..];
    LiftAbove(row, minIndex, floorValue, step, maxValue, rng, used);
    forall i | 0 <= i < row.Length && i != minIndex
      ensures row[i] > floorValue
    {
      assert EntryLifted(row[i], normalized[i], false, floorValue, step, maxValue);
    }
    MinIs(row[..], minIndex, minValue);
    assert LiftedShape(row[..], minValue, floorValue) by {
      assert row[..][minIndex] == minValue;
    }
    result := values[k := row[..]];
  }

  /** The minimum of a row shaped by `ensureSecondMin` is its forced minimum. */
  lemma SecondMinShapeMin(row: seq<int>, minValue: int, secondMin: int)
    requires SecondMinShape(row, minValue, secondMin) && minValue < secondMin
    ensures |row| > 0 && MinOf(row) == minValue
  {
    var m :| 0 <= m < |row| && row[m] == minValue &&
             (forall i :: 0 <= i < |row| && i != m ==> row[i] >= secondMin);
    MinIs(row, m, minValue);
  }

  /** The minimum of a row shaped by `liftAbove` is its forced minimum. */
  lemma LiftedShapeMin(row: seq<int>, minValue: int, floorValue: int)
    requires LiftedShape(row, minValue, floorValue) && minValue < floorValue
    ensures |row| > 0 && MinOf(row) == minValue
  {
    var m :| 0 <= m < |row| && row[m] == minValue &&
             (forall i :: 0 <= i < |row| && i != m ==> row[i] > floorValue);
    MinIs(row, m, minValue);
  }

  /**
   * What `applyDoubleMaximinTie` leaves: the base row and row `b` have
   * minimum `minValue` and second minimum `secondMin`, row `a` has minimum
   * `minValue` and every other entry above `secondMin`, and the other rows
   * are untouched.
   */
  ghost predicate DoubleTie(values: seq<seq<int>>, result: seq<seq<int>>, base: int, a: int, b: int,
                            minValue: int, secondMin: int)
  {
    |result| == |values| &&
    0 <= base < |values| && 0 <= a < |values| && 0 <= b < |values| &&
    a != b && a != base && b != base &&
    (forall i :: 0 <= i < |values| && i != base && i != a && i != b ==> result[i] == values[i]) &&
    SecondMinShape(result[base], minValue, secondMin) &&
    SecondMinShape(result[b], minValue, secondMin) &&
    LiftedShape(result[a], minValue, secondMin)
  }

  /**
   * dui_methods.js `applyDoubleMaximinTie`: when there are two candidate
   * rows and room above `secondMin`, row B and the base row get minimum
   * `minValue` and second minimum `secondMin`, and row A gets minimum
   * `minValue` with everything else above `secondMin`.
   */
  method ApplyDoubleMaximinTie(values: seq<seq<int>>, baseIndex: int, candidates: seq<nat>, minValue: int,
                               secondMin: int, step: int, maxValue: int, rng: Oracle)
    returns (ok: bool, result: seq<seq<int>>)
    requires step > 0 && 0 <= baseIndex < |values|
    requires forall i :: 0 <= i < |values| ==> |values[i]| > 0
    requires forall k :: 0 <= k < |candidates| ==> candidates[k] < |values| && candidates[k] != baseIndex
    requires forall k, l :: 0 <= k < l < |candidates| ==> candidates[k] != candidates[l]
    modifies rng
    ensures ok <==> |candidates| >= 2 && minValue < secondMin && secondMin + step <= maxValue
    ensures !ok ==> result == values && rng.calls == old(rng.calls)
    ensures |result| == |values| && forall i :: 0 <= i < |values| ==> |result[i]| == |values[i]|
    ensures ok ==> exists a, b :: DoubleTie(values, result, baseIndex, a, b, minValue, secondMin)
  {
    if |candidates| < 2 || secondMin <= minValue || secondMin + step > maxValue {
      return false, values;
    }
    var u := rng.Next();
    var firstPick := FloorScaled(u, |candidates|);
    var rowA := candidates[firstPick];
    var remaining := candidates[..firstPick] + candidates[firstPick + 1..];
    var v := rng.Next();
    var j := FloorScaled(v, |remaining|);
    var bPos := if j < firstPick then j else j + 1;
    assert remaining[j] == candidates[bPos];
    var rowB := remaining[j];
    result := ForceRowSecondMin(values, baseIndex, minValue, secondMin, step, maxValue, rng);
    ghost var afterBase := result;
    result := ForceRowSecondMin(result, rowB, minValue, secondMin, step, maxValue, rng);
    ghost var afterB := result;
    result := ForceRowAbove(result, rowA, minValue, secondMin, step, maxValue, rng);
    assert result[baseIndex] == afterB[baseIndex] == afterBase[baseIndex];
    assert result[rowB] == afterB[rowB];
    assert DoubleTie(values, result, baseIndex, rowA, rowB, minValue, secondMin);
    ok := true;
  }

  /** Every position but `skip`, in increasing order (`values.map((_, idx) => idx).filter(idx => idx !== skip)`). */
  function Others(n: nat, skip: int): (r: seq<nat>)
    ensures forall k :: 0 <= k < |r| ==> r[k] < n && r[k] != skip
    ensures forall k, l :: 0 <= k < l < |r| ==> r[k] < r[l]
    ensures forall i :: 0 <= i < n && i != skip ==> i in r
    ensures 0 <= skip < n ==> |r| == n - 1
    ensures !(0 <= skip < n) ==> |r| == n
  {
    if n == 0 then []
    else
      var init := Others(n - 1, skip);
      if n - 1 == skip then init else init + [n - 1]
  }

  /** The entries of a row above `v`, in order (`row.filter(value => value > v)`). */
  function Above(row: seq<int>, v: int): (r: seq<int>)
    ensures forall x :: x in r <==> x in row && x > v
  {
    if |row| == 0 then []
    else (if row[0] > v then [row[0]] else []) + Above(row[1..], v)
  }

  /** Two positions with the same key put at least two copies of it among the keys. */
  lemma TwoWithKey(keys: seq<int>, p: int, q: int)
    requires 0 <= p < |keys| && 0 <= q < |keys| && p != q && keys[p] == keys[q]
    ensures multiset(keys)[keys[p]] >= 2
  {
    var indices := seq(|keys|, i requires 0 <= i < |keys| => i);
    var kept := Keep(indices, keys, keys[p]);
    KeepComplete(indices, keys, keys[p]);
    assert indices[p] in kept && indices[q] in kept;
    var k :| 0 <= k < |kept| && kept[k] == p;
    var l :| 0 <= l < |kept| && kept[l] == q;
    assert k != l;
  }

  /**
   * When every row of a table either is untouched or has had its minimum
   * forced to the best row minimum, and two rows now have that minimum,
   * the first Maximin round has that value and keeps at least two decisions.
   */
  lemma TieForced(values: seq<seq<int>>, result: seq<seq<int>>, decisions: seq<string>, p: int, q: int)
    requires |values| > 0 && Width(values) > 0 && Rect(values, Width(values)) && |decisions| == |values|
    requires |result| == |values| && forall i :: 0 <= i < |values| ==> |result[i]| == |values[i]|
    requires var bestMin := Best(Keys(values, Maximin), Maximin);
      forall i :: 0 <= i < |values| ==> result[i] == values[i] || MinOf(result[i]) == bestMin
    requires 0 <= p < |values| && 0 <= q < |values| && p != q
    requires MinOf(result[p]) == Best(Keys(values, Maximin), Maximin) == MinOf(result[q])
    ensures Rect(result, Width(result)) && Width(result) == Width(values)
    ensures var r := RoundOf(result, decisions, Maximin);
      r.value == Best(Keys(values, Maximin), Maximin) && |r.survivors| >= 2
  {
    var bestMin := Best(Keys(values, Maximin), Maximin);
    var keys := Keys(result, Maximin);
    forall i | 0 <= i < |keys|
      ensures keys[i] <= bestMin
    {
      assert Keys(values, Maximin)[i] <= bestMin;
    }
    assert Best(keys, Maximin) == bestMin by {
      assert keys[p] == bestMin;
    }
    TwoWithKey(keys, p, q);
  }

  /**
   * The table has rows and states, and `result` differs from it only in
   * rows whose minimum is now the best row minimum of `values`; the first
   * Maximin round on `result` has that value and keeps two decisions or more.
   */
  ghost predicate ForcedTie(values: seq<seq<int>>, decisions: seq<string>, result: seq<seq<int>>) {
    |values| > 0 && Width(values) > 0 && Rect(values, Width(values)) && |decisions| == |values| &&
    |result| == |values| && Rect(result, Width(values)) && Width(result) == Width(values) &&
    (forall i :: 0 <= i < |values| && result[i] != values[i] ==>
       MinOf(result[i]) == Best(Keys(values, Maximin), Maximin)) &&
    RoundOf(result, decisions, Maximin).value == Best(Keys(values, Maximin), Maximin) &&
    |RoundOf(result, decisions, Maximin).survivors| >= 2
  }

  /** The single-tie branch: one random candidate row gets the best row minimum. */
  method ForceSingleTie(values: seq<seq<int>>, decisions: seq<string>, baseIndex: int, candidates: seq<nat>,
                        precision: int, rng: Oracle)
    returns (result: seq<seq<int>>)
    requires |values| > 0 && Width(values) > 0 && Rect(values, Width(values)) && |decisions| == |values|
    requires precision > 0 && 0 <= baseIndex < |values|
    requires MinOf(values[baseIndex]) == Best(Keys(values, Maximin), Maximin)
    requires |candidates| > 0
    requires forall k :: 0 <= k < |candidates| ==> candidates[k] < |values| && candidates[k] != baseIndex
    modifies rng
    ensures ForcedTie(values, decisions, result)
  {
    var bestMin := Best(Keys(values, Maximin), Maximin);
    var u := rng.Next();
    var target := candidates[FloorScaled(u, |candidates|)];
    result := ForceRowMin(values, target, bestMin, precision, MaxPayoff(precision), rng);
    assert result[baseIndex] == values[baseIndex];
    TieForced(values, result, decisions, baseIndex, target);
  }

  /** The double-tie branch, falling back on a single tie when `applyDoubleMaximinTie` declines. */
  method ForceDoubleTie(values: seq<seq<int>>, decisions: seq<string>, baseIndex: int, candidates: seq<nat>,
                        precision: int, rng: Oracle)
    returns (result: seq<seq<int>>)
    requires |values| > 0 && Width(values) > 0 && Rect(values, Width(values)) && |decisions| == |values|
    requires precision > 0 && 0 <= baseIndex < |values|
    requires MinOf(values[baseIndex]) == Best(Keys(values, Maximin), Maximin)
    requires |candidates| > 0
    requires forall k :: 0 <= k < |candidates| ==> candidates[k] < |values| && candidates[k] != baseIndex
    requires forall k, l :: 0 <= k < l < |candidates| ==> candidates[k] < candidates[l]
    modifies rng
    ensures ForcedTie(values, decisions, result)
  {
    var bestMin := Best(Keys(values, Maximin), Maximin);
    var higher := Above(values[baseIndex], bestMin);
    var secondMin := if |higher| > 0 then MinOf(higher) else bestMin + precision;
    var ok;
    ok, result := ApplyDoubleMaximinTie(values, baseIndex, candidates, bestMin, secondMin, precision,
                                        MaxPayoff(precision), rng);
    if ok {
      ghost var a, b :| DoubleTie(values, result, baseIndex, a, b, bestMin, secondMin);
      SecondMinShapeMin(result[baseIndex], bestMin, secondMin);
      SecondMinShapeMin(result[b], bestMin, secondMin);
      LiftedShapeMin(result[a], bestMin, secondMin);
      TieForced(values, result, decisions, a, b);
    } else {
      result := ForceSingleTie(values, decisions, baseIndex, candidates, precision, rng);
    }
  }

  /**
   * dui_methods.js `maybeForceMaximinTies`: when lexical Maximin settles
   * the table in one round, with probability 0.6 the best row minimum is
   * forced onto one more row (probability 0.3, or when only one other row
   * exists) or onto two more rows with a second round prepared for them.
   */
  method MaybeForceMaximinTies(values: seq<seq<int>>, decisions: seq<string>, precision: int, rng: Oracle)
    returns (result: seq<seq<int>>)
    requires precision > 0 && Rect(values, Width(values)) && |decisions| == |values|
    modifies rng
    ensures |result| == |values| && forall i :: 0 <= i < |values| ==> |result[i]| == |values[i]|
    ensures Lex(values, decisions, Maximin).steps != 1 ==> result == values
    ensures Lex(values, decisions, Maximin).steps == 1 && rng.draws(old(rng.calls)) >= 0.6 ==> result == values
    ensures result != values ==> ForcedTie(values, decisions, result)
    ensures (Lex(values, decisions, Maximin).steps == 1 && rng.draws(old(rng.calls)) < 0.6 &&
             |values| >= 2 && Width(values) > 0)
            ==> ForcedTie(values, decisions, result)
  {
    var initial := SolveLexicalMaximin(values, decisions);
    if initial.steps != 1 {
      return values;
    }
    if |values| == 0 || Width(values) == 0 {
      LexEmpty(values, decisions, Maximin);
      return values;
    }
    var roll := rng.Next();
    if roll >= 0.6 {
      return values;
    }
    var rowMins := Keys(values, Maximin);
    var bestMin := Best(rowMins, Maximin);
    var baseIndex := FirstIndex(rowMins, bestMin);
    var candidates := Others(|values|, baseIndex);
    if |candidates| == 0 {
      return values;
    }
    if roll < 0.3 || |candidates| < 2 {
      result := ForceSingleTie(values, decisions, baseIndex, candidates, precision, rng);
    } else {
      result := ForceDoubleTie(values, decisions, baseIndex, candidates, precision, rng);
    }
  }
}
