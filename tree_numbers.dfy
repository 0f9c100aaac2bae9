/**
 * apps/exercises/modules/shared/decision_tree.js: the arithmetic helpers of
 * the decision-tree generator — `gcd`, the probability step, the random
 * split of 100% into branch probabilities and the random subset.
 */
module TreeNumbers {
  import opened Wrappers
  import opened Random
  import Sorting

  // ---------------------------------------------------------------- gcd

  /** `d` is a positive divisor of `n`. */
  predicate Divides(d: int, n: int) {
    d > 0 && n % d == 0
  }

  function Abs(n: int): nat {
    if n < 0 then -n else n
  }

  lemma MultipleMod(d: int, k: int)
    requires d > 0
    ensures (d * k) % d == 0
  {
    var z := d * k;
    var t := k - z / d;
    assert z == d * (z / d) + z % d;
    assert z % d == d * t;
  }

  /** Common divisors of `m` and `n` divide every `m - q * n`. */
  lemma DividesCombination(d: int, m: int, n: int, q: int)
    requires Divides(d, m) && Divides(d, n)
    ensures Divides(d, m - q * n)
  {
    var i, j := m / d, n / d;
    assert m == d * i;
    assert n == d * j;
    assert m - q * n == d * (i - q * j);
    MultipleMod(d, i - q * j);
  }

  lemma DividesNegation(d: int, n: int)
    requires d > 0
    ensures Divides(d, n) <==> Divides(d, -n)
  {
    if Divides(d, n) {
      DividesCombination(d, 0, n, 1);
    }
    if Divides(d, -n) {
      DividesCombination(d, 0, -n, 1);
    }
  }

  /** One step of Euclid's algorithm keeps the common divisors. */
  lemma EuclidStep(x: int, y: int, d: int)
    requires x >= 0 && y > 0 && d > 0
    ensures Divides(d, x) && Divides(d, y) <==> Divides(d, y) && Divides(d, x % y)
  {
    var q, r := x / y, x % y;
    assert x - q * y == r && r - (-q) * y == x;
    hide Divides;
    if Divides(d, x) && Divides(d, y) {
      DividesCombination(d, x, y, q);
    }
    if Divides(d, y) && Divides(d, r) {
      DividesCombination(d, r, y, -q);
    }
  }

  /**
   * `gcd(a, b)` on integers: Euclid's loop on the absolute values; the
   * `|| 1` turns gcd(0, 0) into 1, so the result is never 0. Otherwise the
   * result is the greatest common divisor: it divides both and every
   * common divisor divides it.
   */
  method Gcd(a: int, b: int) returns (g: int)
    ensures g > 0
    ensures a == 0 && b == 0 ==> g == 1
    ensures !(a == 0 && b == 0) ==> Divides(g, a) && Divides(g, b)
    ensures !(a == 0 && b == 0) ==> forall d :: Divides(d, a) && Divides(d, b) ==> Divides(d, g)
  {
    var x, y := Abs(a), Abs(b);
    assert forall d :: d > 0 ==> (Divides(d, x) <==> Divides(d, a)) && (Divides(d, y) <==> Divides(d, b)) by {
      forall d | d > 0
        ensures (Divides(d, x) <==> Divides(d, a)) && (Divides(d, y) <==> Divides(d, b))
      {
        DividesNegation(d, a);
        DividesNegation(d, b);
      }
    }
    while y != 0
      invariant x >= 0 && y >= 0
      invariant x > 0 || (x == Abs(a) && y == Abs(b))
      invariant a == 0 && b == 0 ==> x == 0 && y == 0
      invariant forall d :: d > 0 ==> (Divides(d, x) && Divides(d, y) <==> Divides(d, a) && Divides(d, b))
      decreases y
    {
      forall d | d > 0
        ensures Divides(d, x) && Divides(d, y) <==> Divides(d, y) && Divides(d, x % y)
      {
        EuclidStep(x, y, d);
      }
      x, y := y, x % y;
    }
    if x == 0 {
      g := 1;
    } else {
      g := x;
      assert Divides(x, x) && Divides(x, 0);
    }
  }

  // ---------------------------------------------------- probability step

  /**
   * `normalizeProbabilityStep`: a non-finite step (None) becomes 5, and so
   * does any step other than 1, 5 or 10.
   */
  function NormalizeProbabilityStep(value: Option<real>): (step: int)
    ensures step == 1 || step == 5 || step == 10
    ensures value.Some? && value.value in {1.0, 5.0, 10.0} ==> step as real == value.value
  {
    if value.Some? && value.value == 1.0 then 1
    else if value.Some? && value.value == 5.0 then 5
    else if value.Some? && value.value == 10.0 then 10
    else 5
  }

  // ------------------------------------------------- probability percents

  /** Left-to-right total of an integer list. */
  function Total(s: seq<int>): int {
    if |s| == 0 then 0 else Total(s[..|s| - 1]) + s[|s| - 1]
  }

  /** `Math.max(1, Math.round(step))` for an integer step. */
  function Unit(step: int): (unit: int)
    ensures unit >= 1
  {
    if step < 1 then 1 else step
  }

  /** `Math.floor(100 / unit)`: how many units fit in 100%. */
  function TotalUnits(step: int): (n: int)
    ensures 0 <= n <= 100
  {
    100 / Unit(step)
  }

  /** Every normalized step divides 100 exactly. */
  lemma NormalizedStepFillsHundred(value: Option<real>)
    ensures var step := NormalizeProbabilityStep(value);
      TotalUnits(step) * Unit(step) == 100
  {
  }

  /**
   * More branches than units: `floor(total / count)` units each, and the
   * first `total mod count` branches get one unit more.
   */
  function EvenSplit(total: nat, count: int, unit: int): (parts: seq<int>)
    requires count > 0
    ensures |parts| == count
  {
    var base := total / count;
    var rem := total - base * count;
    seq(count, i requires 0 <= i < count => (base + (if i < rem then 1 else 0)) * unit)
  }

  lemma {:induction false} EvenSplitPrefix(total: nat, count: int, unit: int, k: nat)
    requires count > 0 && k <= count
    ensures var base := total / count;
      var rem := total - base * count;
      Total(EvenSplit(total, count, unit)[..k]) == (k * base + (if k < rem then k else rem)) * unit
  {
    var parts := EvenSplit(total, count, unit);
    var base := total / count;
    var rem := total - base * count;
    if k > 0 {
      EvenSplitPrefix(total, count, unit, k - 1);
      assert parts[..k][..k - 1] == parts[..k - 1];
      var e := if k - 1 < rem then 1 else 0;
      var prev := (k - 1) * base + (if k - 1 < rem then k - 1 else rem);
      assert Total(parts[..k]) == Total(parts[..k - 1]) + parts[k - 1];
      assert parts[k - 1] == (base + e) * unit;
      assert prev * unit + (base + e) * unit == (prev + base + e) * unit;
      assert (k - 1) * base + base == k * base;
    }
  }

  /** The even split hands out every unit: its total is `total * unit`. */
  lemma EvenSplitTotal(total: nat, count: int, unit: int)
    requires count > 0
    ensures Total(EvenSplit(total, count, unit)) == total * unit
  {
    var parts := EvenSplit(total, count, unit);
    EvenSplitPrefix(total, count, unit, count);
    assert parts[..count] == parts;
    var base := total / count;
    assert total - base * count < count;
  }

  /** The unit differences between consecutive cuts, from 0 up to `total`. */
  function Gaps(cuts: seq<int>, total: int): (gaps: seq<int>)
    ensures |gaps| == |cuts| + 1
  {
    seq(|cuts| + 1, i requires 0 <= i <= |cuts| =>
      (if i < |cuts| then cuts[i] else total) - (if i == 0 then 0 else cuts[i - 1]))
  }

  /** The gaps telescope: whatever the cuts, they add up to `total`. */
  lemma {:induction false} GapsTotal(cuts: seq<int>, total: int)
    ensures Total(Gaps(cuts, total)) == total
  {
    if |cuts| > 0 {
      var n := |cuts| - 1;
      GapsTotal(cuts[..n], cuts[n]);
      assert Gaps(cuts, total)[..n + 1] == Gaps(cuts[..n], cuts[n]);
    }
  }

  predicate StrictlyIncreasing(s: seq<int>) {
    forall i, j :: 0 <= i < j < |s| ==> s[i] < s[j]
  }

  /** Strictly increasing cuts inside (0, total) leave every gap at least one unit wide. */
  lemma GapsPositive(cuts: seq<int>, total: int)
    requires total >= 1 && StrictlyIncreasing(cuts)
    requires forall i :: 0 <= i < |cuts| ==> 1 <= cuts[i] < total
    ensures forall i :: 0 <= i < |Gaps(cuts, total)| ==> Gaps(cuts, total)[i] >= 1
  {
    var gaps := Gaps(cuts, total);
    forall i | 0 <= i < |gaps|
      ensures gaps[i] >= 1
    {
      if 0 < i < |cuts| {
        assert cuts[i - 1] < cuts[i];
      }
    }
  }

  /** Each entry times the unit, as `units.map((value) => value * unit)`. */
  function Scale(s: seq<int>, unit: int): (r: seq<int>)
    ensures |r| == |s|
    ensures forall i :: 0 <= i < |s| ==> r[i] == s[i] * unit
  {
    seq(|s|, i requires 0 <= i < |s| => s[i] * unit)
  }

  lemma {:induction false} ScaleTotal(s: seq<int>, unit: int)
    ensures Total(Scale(s, unit)) == Total(s) * unit
  {
    if |s| > 0 {
      var n := |s| - 1;
      ScaleTotal(s[..n], unit);
      assert Scale(s, unit)[..n] == Scale(s[..n], unit);
      assert (Total(s[..n]) + s[n]) * unit == Total(s[..n]) * unit + s[n] * unit;
    }
  }

  predicate Distinct(s: seq<int>) {
    forall i, j :: 0 <= i < j < |s| ==> s[i] != s[j]
  }

  lemma {:induction false} DistinctOnce(s: seq<int>, x: int)
    requires Distinct(s)
    ensures multiset(s)[x] <= 1
  {
    if |s| > 0 {
      var n := |s| - 1;
      DistinctOnce(s[..n], x);
      assert s == s[..n] + [s[n]];
      if x == s[n] {
        assert x !in s[..n];
      }
    }
  }

  lemma RepeatTwice(s: seq<int>, i: int, j: int)
    requires 0 <= i < j < |s| && s[i] == s[j]
    ensures multiset(s)[s[i]] >= 2
  {
    assert s == s[..i] + [s[i]] + s[i + 1..];
    assert s[j] == s[i + 1..][j - i - 1];
    assert s[i] in multiset(s[i + 1..]);
  }

  /** `(a, b) => a - b` as an order. */
  function Ascending(): (int, int) -> bool {
    (a: int, b: int) => a <= b
  }

  /** Sorting a duplicate-free list of cuts numerically gives a strictly increasing list. */
  lemma SortedCutsIncrease(cuts: seq<int>)
    requires Distinct(cuts)
    ensures StrictlyIncreasing(Sorting.Sort(cuts, Ascending()))
  {
    var sorted := Sorting.Sort(cuts, Ascending());
    Sorting.SortSorted(cuts, Ascending());
    forall i, j | 0 <= i < j < |sorted|
      ensures sorted[i] < sorted[j]
    {
      assert Ascending()(sorted[i], sorted[j]);
      if sorted[i] == sorted[j] {
        RepeatTwice(sorted, i, j);
        DistinctOnce(cuts, sorted[i]);
      }
    }
  }

  /**
   * The cut set after `n` draws from position `start`: each draw is an
   * integer in [1, total - 1], added unless already present (a `Set`, which
   * keeps first-insertion order).
   */
  function CutsAfter(draws: Stream, start: nat, n: nat, total: int): (cuts: seq<int>)
    requires total >= 2
    ensures Distinct(cuts)
    ensures forall i :: 0 <= i < |cuts| ==> 1 <= cuts[i] <= total - 1
  {
    if n == 0 then []
    else
      var prev := CutsAfter(draws, start, n - 1, total);
      var c := RandomIntInclusive(1, total - 1, draws(start + n - 1));
      if c in prev then prev else prev + [c]
  }

  /** The percentages for a given cut list: gaps between the sorted cuts, times the unit. */
  function PercentsFromCuts(cuts: seq<int>, total: int, unit: int): seq<int> {
    Scale(Gaps(Sorting.Sort(cuts, Ascending()), total), unit)
  }

  /**
   * Random cuts yield exactly `|cuts| + 1` percentages, each a multiple of
   * the unit and at least one unit, summing to `total * unit`.
   */
  lemma PercentsFromCutsMeaning(cuts: seq<int>, total: int, unit: int)
    requires unit >= 1 && total >= 1 && Distinct(cuts)
    requires forall i :: 0 <= i < |cuts| ==> 1 <= cuts[i] < total
    ensures var p := PercentsFromCuts(cuts, total, unit);
      |p| == |cuts| + 1 &&
      Total(p) == total * unit &&
      forall i :: 0 <= i < |p| ==> p[i] >= unit && p[i] % unit == 0
  {
    var sorted := Sorting.Sort(cuts, Ascending());
    hide Gaps, Total, Sorting.Sort, Scale;
    SortedCutsIncrease(cuts);
    forall i | 0 <= i < |sorted|
      ensures 1 <= sorted[i] < total
    {
      assert sorted[i] in multiset(cuts);
    }
    GapsPositive(sorted, total);
    var gaps := Gaps(sorted, total);
    GapsTotal(sorted, total);
    ScaleTotal(gaps, unit);
    var p := PercentsFromCuts(cuts, total, unit);
    forall i | 0 <= i < |p|
      ensures p[i] >= unit && p[i] % unit == 0
    {
      assert p[i] == gaps[i] * unit;
      assert gaps[i] * unit >= 1 * unit;
      MultipleMod(unit, gaps[i]);
    }
  }

  /** The even split as the `Array.from` callback computes it, counting `remainder` down. */
  method SplitEvenly(total: nat, count: int, unit: int) returns (parts: seq<int>)
    requires count > 0
    ensures parts == EvenSplit(total, count, unit)
  {
    var base := total / count;
    var rem := total - base * count;
    var remainder := rem;
    parts := [];
    var i := 0;
    while i < count
      invariant 0 <= i <= count && |parts| == i
      invariant remainder == if i < rem then rem - i else 0
      invariant forall k :: 0 <= k < i ==> parts[k] == (base + (if k < rem then 1 else 0)) * unit
    {
      var extra := if remainder > 0 then 1 else 0;
      remainder := remainder - extra;
      parts := parts + [(base + extra) * unit];
      i := i + 1;
    }
  }

  /** The differences of consecutive sorted cuts, as the `forEach` with `prev` pushes them. */
  method CollectGaps(sorted: seq<int>, total: int) returns (units: seq<int>)
    ensures units == Gaps(sorted, total)
  {
    units := [];
    var prev := 0;
    var i := 0;
    while i < |sorted|
      invariant 0 <= i <= |sorted| && |units| == i
      invariant prev == if i == 0 then 0 else sorted[i - 1]
      invariant forall k :: 0 <= k < i ==> units[k] == Gaps(sorted, total)[k]
    {
      units := units + [sorted[i] - prev];
      prev := sorted[i];
      i := i + 1;
    }
    units := units + [total - prev];
  }

  /**
   * The `while (cuts.size < count - 1)` loop of `generateProbabilityPercents`,
   * stopped after `fuel` draws: it ends with the cut set after the first
   * number of draws that gives `count - 1` distinct cuts, or with fewer
   * cuts once the bound is reached.
   */
  method DrawCuts(count: int, total: int, rng: Oracle, fuel: nat) returns (cuts: seq<int>)
    requires total >= 2
    modifies rng
    ensures rng.calls >= old(rng.calls)
    ensures var used := rng.calls - old(rng.calls);
      && used <= fuel
      && cuts == CutsAfter(rng.draws, old(rng.calls), used, total)
      && (forall m :: 0 <= m < used ==> |CutsAfter(rng.draws, old(rng.calls), m, total)| < count - 1)
      && (|cuts| < count - 1 ==> used == fuel)
  {
    ghost var start := rng.calls;
    cuts := [];
    var used := 0;
    while |cuts| < count - 1 && used < fuel
      invariant rng.calls == start + used && used <= fuel
      invariant cuts == CutsAfter(rng.draws, start, used, total)
      invariant forall m :: 0 <= m < used ==> |CutsAfter(rng.draws, start, m, total)| < count - 1
      decreases fuel - used
    {
      var u := rng.Next();
      var c := RandomIntInclusive(1, total - 1, u);
      if c !in cuts {
        cuts := cuts + [c];
      }
      used := used + 1;
    }
  }

  /**
   * `generateProbabilityPercents(count, step, rng)`. No branches give [],
   * one gives [100]; more branches than units give the even split; otherwise
   * distinct cuts are drawn until there are `count - 1` of them. That loop
   * ends only when the draws allow it, so it is bounded here by `fuel`
   * draws, and None means the bound was reached.
   */
  method GenerateProbabilityPercents(count: int, step: int, rng: Oracle, fuel: nat) returns (r: Option<seq<int>>)
    modifies rng
    ensures rng.calls >= old(rng.calls)
    ensures count <= 0 ==> r == Some([])
    ensures count == 1 ==> r == Some([100])
    ensures count > 1 && count > TotalUnits(step) ==>
      r == Some(EvenSplit(TotalUnits(step), count, Unit(step)))
    ensures count <= 1 || count > TotalUnits(step) ==> rng.calls == old(rng.calls)
    ensures count > 1 && count <= TotalUnits(step) ==>
      var used := rng.calls - old(rng.calls);
      var cuts := CutsAfter(rng.draws, old(rng.calls), used, TotalUnits(step));
      && used <= fuel
      && (forall m :: 0 <= m < used ==> |CutsAfter(rng.draws, old(rng.calls), m, TotalUnits(step))| < count - 1)
      && (r.Some? ==> |cuts| == count - 1 && r.value == PercentsFromCuts(cuts, TotalUnits(step), Unit(step)))
      && (r.None? ==> used == fuel && |cuts| < count - 1)
  {
    var unit := Unit(step);
    var totalUnits := TotalUnits(step);
    if count <= 0 {
      return Some([]);
    }
    if count == 1 {
      return Some([100]);
    }
    if count > totalUnits {
      var parts := SplitEvenly(totalUnits, count, unit);
      return Some(parts);
    }
    var cuts := DrawCuts(count, totalUnits, rng, fuel);
    if |cuts| < count - 1 {
      return None;
    }
    var sorted := Sorting.Sort(cuts, Ascending());
    var units := CollectGaps(sorted, totalUnits);
    r := Some(Scale(units, unit));
  }

  /**
   * With a normalized step the percentages always add up to 100, there
   * are exactly `count` of them (when count > 0), and each is a multiple
   * of the step; when every branch gets a unit, each is at least the step.
   */
  lemma PercentsSumToHundred(count: int, value: Option<real>, draws: Stream, start: nat, used: nat)
    requires count > 1
    ensures var step := NormalizeProbabilityStep(value);
      var total := TotalUnits(step);
      count > total ==>
        var p := EvenSplit(total, count, Unit(step));
        Total(p) == 100 && forall i :: 0 <= i < |p| ==> p[i] % Unit(step) == 0
    ensures var step := NormalizeProbabilityStep(value);
      var total := TotalUnits(step);
      var cuts := CutsAfter(draws, start, used, total);
      count <= total && |cuts| == count - 1 ==>
        var p := PercentsFromCuts(cuts, total, Unit(step));
        |p| == count && Total(p) == 100 &&
        forall i :: 0 <= i < |p| ==> p[i] >= Unit(step) && p[i] % Unit(step) == 0
  {
    var step := NormalizeProbabilityStep(value);
    var total := TotalUnits(step);
    NormalizedStepFillsHundred(value);
    if count > total {
      EvenSplitTotal(total, count, Unit(step));
      var p := EvenSplit(total, count, Unit(step));
      forall i | 0 <= i < |p|
        ensures p[i] % Unit(step) == 0
      {
        var base := total / count;
        MultipleMod(Unit(step), base + (if i < total - base * count then 1 else 0));
      }
    } else {
      var cuts := CutsAfter(draws, start, used, total);
      if |cuts| == count - 1 {
        PercentsFromCutsMeaning(cuts, total, Unit(step));
      }
    }
  }

  // ------------------------------------------------------- random subset

  function Swap<T>(s: seq<T>, i: int, j: int): (r: seq<T>)
    requires 0 <= i < |s| && 0 <= j < |s|
    ensures |r| == |s| && multiset(r) == multiset(s)
  {
    s[i := s[j]][j := s[i]]
  }

  /**
   * The Fisher–Yates pass from position `i` down to 1, the k-th swap using
   * draw `pos + k`: position i is swapped with `floor(u * (i + 1))`.
   */
  function ShuffleDown<T>(s: seq<T>, i: int, draws: Stream, pos: nat): (r: seq<T>)
    requires i < |s|
    ensures |r| == |s| && multiset(r) == multiset(s)
    decreases i
  {
    if i <= 0 then s
    else ShuffleDown(Swap(s, i, FloorScaled(draws(pos), i + 1)), i - 1, draws, pos + 1)
  }

  lemma ShuffleDownStep<T>(s: seq<T>, i: int, draws: Stream, pos: nat)
    requires 0 < i < |s|
    ensures ShuffleDown(s, i, draws, pos) == ShuffleDown(Swap(s, i, FloorScaled(draws(pos), i + 1)), i - 1, draws, pos + 1)
  {
  }

  lemma ShuffleDownDone<T>(s: seq<T>, i: int, draws: Stream, pos: nat)
    requires i <= 0 && i < |s|
    ensures ShuffleDown(s, i, draws, pos) == s
  {
  }

  /** Where `slice(0, count)` stops on a list of length n (a negative count counts from the end). */
  function SliceEnd(n: nat, count: int): (end: nat)
    ensures end <= n
  {
    if count < 0 then (if n + count < 0 then 0 else n + count)
    else if count < n then count else n
  }

  /** The swap loop of `pickRandomSubset`, in place on the copied array. */
  method ShuffleInPlace<T>(a: array<T>, rng: Oracle)
    modifies a, rng
    ensures a[..] == ShuffleDown(old(a[..]), a.Length - 1, rng.draws, old(rng.calls))
    ensures rng.calls == old(rng.calls) + (if a.Length == 0 then 0 else a.Length - 1)
  {
    hide ShuffleDown;
    ghost var start := rng.calls;
    ghost var initial := a[..];
    var i := a.Length - 1;
    while i > 0
      invariant -1 <= i < a.Length
      invariant a.Length > 0 ==> i >= 0
      invariant rng.calls == start + (a.Length - 1 - i)
      invariant ShuffleDown(a[..], i, rng.draws, rng.calls) == ShuffleDown(initial, a.Length - 1, rng.draws, start)
      decreases i
    {
      ghost var before, pos := a[..], rng.calls;
      var u := rng.Next();
      var j := FloorScaled(u, i + 1);
      ShuffleDownStep(before, i, rng.draws, pos);
      a[i], a[j] := a[j], a[i];
      assert a[..] == Swap(before, i, j);
      i := i - 1;
      assert ShuffleDown(a[..], i, rng.draws, rng.calls) == ShuffleDown(before, i + 1, rng.draws, pos);
    }
    ShuffleDownDone(a[..], i, rng.draws, rng.calls);
  }

  /**
   * `pickRandomSubset(items, count, rng)`: a copy of the items is shuffled
   * in place by Fisher–Yates swaps, one draw per position from the last down
   * to 1, and the first `count` elements are returned.
   */
  method PickRandomSubset<T>(items: seq<T>, count: int, rng: Oracle) returns (picked: seq<T>)
    modifies rng
    ensures picked == ShuffleDown(items, |items| - 1, rng.draws, old(rng.calls))[..SliceEnd(|items|, count)]
    ensures rng.calls == old(rng.calls) + (if |items| == 0 then 0 else |items| - 1)
    ensures |picked| == SliceEnd(|items|, count)
    ensures multiset(picked) <= multiset(items)
  {
    hide ShuffleDown;
    var a := new T[|items|](k requires 0 <= k < |items| => items[k]);
    assert a[..] == items;
    ShuffleInPlace(a, rng);
    var shuffled := a[..];
    picked := shuffled[..SliceEnd(|items|, count)];
    assert shuffled == picked + shuffled[SliceEnd(|items|, count)..];
  }
}
