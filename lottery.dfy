/**
 * apps/lotteries/model/lottery.js: validation of a lottery typed as two
 * lists (payoffs and probabilities) and the theory shown beside a
 * simulation (result names, cumulative probabilities, expected value,
 * variance and the grouped distribution).
 */
module Lottery {
  import opened Wrappers
  import opened ListParser
  import Sorting

  const MaxOutcomes: nat := 20

  /** The problems `validateLottery` and `parseAndValidateLottery` report. */
  datatype LotteryError =
    | PayoffsList(payoffsError: ListError)
    | ProbabilitiesList(probsError: ListError)
    | EmptyLists
    | LengthMismatch
    | TooManyOutcomes
    | OutOfRange(position: nat)
    | BadSum(sum: real)
  {
    function Message(): string {
      match this
      case PayoffsList(e) => "Payoffs: " + e.Message()
      case ProbabilitiesList(e) => "Probabilities: " + e.Message()
      case EmptyLists => "Payoffs and probabilities must not be empty."
      case LengthMismatch => "Payoffs and probabilities must have the same length."
      case TooManyOutcomes => "Maximum number of outcomes is 20."
      case OutOfRange(k) => "Probability at position " + Text.IntToString(k) + " must be between 0 and 1."
      case BadSum(_) => "Probabilities must sum to 1."
    }
  }

  /** Left-to-right sum, as the `reduce` and the accumulating loops compute it. */
  function Sum(s: seq<real>): real
  {
    if |s| == 0 then 0.0 else Sum(s[..|s| - 1]) + s[|s| - 1]
  }

  /** The tolerance `validateLottery` allows between the sum and 1. */
  const Tolerance: real := 0.000000001

  /** `Math.abs(sum - 1) <= 1e-9`. */
  predicate SumsToOne(sum: real) {
    -Tolerance <= sum - 1.0 <= Tolerance
  }

  predicate InUnitRange(p: real) {
    0.0 <= p <= 1.0
  }

  /** One error per probability outside [0, 1], naming its 1-based position, in order. */
  function RangeErrors(probs: seq<real>): seq<LotteryError>
  {
    if |probs| == 0 then []
    else
      RangeErrors(probs[..|probs| - 1]) +
      (if InUnitRange(probs[|probs| - 1]) then [] else [OutOfRange(|probs|)])
  }

  /** Everything `validateLottery` reports, in the order it reports it. */
  function LotteryErrors(values: seq<real>, probs: seq<real>): (errors: seq<LotteryError>)
    ensures (|values| == 0 || |probs| == 0) ==> |errors| > 0 && errors[0] == EmptyLists
    ensures errors == [] ==> 0 < |values| == |probs| <= MaxOutcomes
  {
    ShapeErrors(values, probs) + RangeErrors(probs) + SumErrors(probs)
  }

  /** The checks on the two lengths, in order. */
  function ShapeErrors(values: seq<real>, probs: seq<real>): seq<LotteryError>
  {
    (if |values| == 0 || |probs| == 0 then [EmptyLists] else []) +
    (if |values| != |probs| then [LengthMismatch] else []) +
    (if |values| > MaxOutcomes then [TooManyOutcomes] else [])
  }

  function SumErrors(probs: seq<real>): seq<LotteryError>
  {
    if !SumsToOne(Sum(probs)) then [BadSum(Sum(probs))] else []
  }

  /** A lottery the simulator accepts. */
  predicate ValidLottery(values: seq<real>, probs: seq<real>) {
    0 < |values| == |probs| <= MaxOutcomes &&
    (forall i :: 0 <= i < |probs| ==> InUnitRange(probs[i])) &&
    SumsToOne(Sum(probs))
  }

  /** The range errors are exactly the out-of-range positions. */
  lemma {:induction false} RangeErrorsExact(probs: seq<real>, k: nat)
    ensures OutOfRange(k) in RangeErrors(probs) <==> 1 <= k <= |probs| && !InUnitRange(probs[k - 1])
    ensures forall e :: e in RangeErrors(probs) ==> e.OutOfRange?
  {
    if |probs| > 0 {
      var init := probs[..|probs| - 1];
      RangeErrorsExact(init, k);
      if 1 <= k < |probs| {
        assert init[k - 1] == probs[k - 1];
      }
    }
  }

  /** `validateLottery` answers ok exactly for valid lotteries. */
  lemma LotteryErrorsEmptyIff(values: seq<real>, probs: seq<real>)
    ensures LotteryErrors(values, probs) == [] <==> ValidLottery(values, probs)
  {
    if LotteryErrors(values, probs) == [] {
      assert RangeErrors(probs) == [];
      forall i | 0 <= i < |probs| ensures InUnitRange(probs[i]) {
        RangeErrorsExact(probs, i + 1);
      }
    } else if ValidLottery(values, probs) {
      if RangeErrors(probs) != [] {
        var e := RangeErrors(probs)[0];
        RangeErrorsExact(probs, 0);
        assert e.OutOfRange?;
        RangeErrorsExact(probs, e.position);
      }
    }
  }

  /** lottery.js `validateLottery`: the checks in order, then the loop over the probabilities. */
  method ValidateLottery(values: seq<real>, probs: seq<real>) returns (errors: seq<LotteryError>)
    ensures errors == LotteryErrors(values, probs)
  {
    hide Sum;
    hide InUnitRange;
    hide SumsToOne;
    errors := [];
    if |values| == 0 || |probs| == 0 {
      errors := errors + [EmptyLists];
    }
    if |values| != |probs| {
      errors := errors + [LengthMismatch];
    }
    if |values| > MaxOutcomes {
      errors := errors + [TooManyOutcomes];
    }
    assert errors == ShapeErrors(values, probs);
    hide ShapeErrors;
    ghost var header := errors;
    var i := 0;
    while i < |probs|
      invariant 0 <= i <= |probs|
      invariant errors == header + RangeErrors(probs[..i])
    {
      if !InUnitRange(probs[i]) {
        errors := errors + [OutOfRange(i + 1)];
      }
      assert probs[..i + 1][..i] == probs[..i];
      i := i + 1;
    }
    assert probs[..i] == probs;
    var sum := SumOf(probs);
    if !SumsToOne(sum) {
      errors := errors + [BadSum(sum)];
    }
  }

  /** The `reduce` in `validateLottery`: the probabilities added from the left. */
  method SumOf(probs: seq<real>) returns (sum: real)
    ensures sum == Sum(probs)
  {
    sum := 0.0;
    var i := 0;
    while i < |probs|
      invariant 0 <= i <= |probs|
      invariant sum == Sum(probs[..i])
    {
      sum := sum + probs[i];
      assert probs[..i + 1][..i] == probs[..i];
      i := i + 1;
    }
    assert probs[..i] == probs;
  }

  /** A lottery as entered: payoffs and their probabilities. */
  datatype Entered = Entered(values: seq<real>, probs: seq<real>)

  /**
   * lottery.js `parseAndValidateLottery`: both lists are parsed, their
   * errors reported with a prefix naming the list; only when both parse
   * is the lottery validated.
   */
  function ParseAndValidateLottery(valuesText: string, probsText: string): (r: Result<Entered, seq<LotteryError>>)
    ensures r.Success? ==> ValidLottery(r.value.values, r.value.probs)
    ensures r.Success? <==> NumberList(valuesText).Success? && NumberList(probsText).Success? &&
                            ValidLottery(NumberList(valuesText).value, NumberList(probsText).value)
    ensures r.Success? ==> r.value == Entered(NumberList(valuesText).value, NumberList(probsText).value)
    ensures r.Failure? ==> |r.error| > 0
  {
    var v := NumberList(valuesText);
    var p := NumberList(probsText);
    var errors :=
      (if v.Failure? then [PayoffsList(v.error)] else []) +
      (if p.Failure? then [ProbabilitiesList(p.error)] else []);
    if |errors| > 0 then Failure(errors)
    else
      var validation := LotteryErrors(v.value, p.value);
      LotteryErrorsEmptyIff(v.value, p.value);
      if |validation| > 0 then Failure(validation)
      else Success(Entered(v.value, p.value))
  }

  /** Parse errors are reported payoffs first and replace any validation. */
  lemma ParseErrorsFirst(valuesText: string, probsText: string)
    requires NumberList(valuesText).Failure?
    ensures ParseAndValidateLottery(valuesText, probsText).Failure?
    ensures ParseAndValidateLottery(valuesText, probsText).error[0] == PayoffsList(NumberList(valuesText).error)
  {
  }

  /** lottery.js `getResultNames`: the first n letters of A..Z, as one-letter names. */
  function ResultNames(n: nat): (names: seq<string>)
    ensures |names| == if n < 26 then n else 26
    ensures forall i :: 0 <= i < |names| ==> names[i] == [('A' as int + i) as char]
  {
    var k := if n < 26 then n else 26;
    seq(k, i requires 0 <= i < k => [('A' as int + i) as char])
  }

  /** Result names are pairwise distinct. */
  lemma ResultNamesDistinct(n: nat, i: nat, j: nat)
    requires i < j < |ResultNames(n)|
    ensures ResultNames(n)[i] != ResultNames(n)[j]
  {
    assert ResultNames(n)[i][0] != ResultNames(n)[j][0];
  }

  /** lottery.js `cumulateProbabilities`: entry i is the sum of the first i+1 probabilities. */
  method CumulateProbabilities(probs: seq<real>) returns (out: seq<real>)
    ensures |out| == |probs|
    ensures forall i :: 0 <= i < |probs| ==> out[i] == Sum(probs[..i + 1])
  {
    out := [];
    var acc := 0.0;
    var i := 0;
    while i < |probs|
      invariant 0 <= i <= |probs| && |out| == i
      invariant acc == Sum(probs[..i])
      invariant forall j :: 0 <= j < i ==> out[j] == Sum(probs[..j + 1])
    {
      assert probs[..i + 1][..i] == probs[..i];
      acc := acc + probs[i];
      out := out + [acc];
      i := i + 1;
    }
  }

  /** With nonnegative probabilities the cumulative sums never decrease and end at the total. */
  lemma {:induction false} CumulativeMonotone(probs: seq<real>, i: nat, j: nat)
    requires forall k :: 0 <= k < |probs| ==> probs[k] >= 0.0
    requires i <= j <= |probs|
    ensures Sum(probs[..i]) <= Sum(probs[..j])
  {
    if i < j {
      CumulativeMonotone(probs, i, j - 1);
      assert probs[..j][..j - 1] == probs[..j - 1];
    }
  }

  /** `Σ values[i]·probs[i]`, accumulated left to right. */
  function Dot(values: seq<real>, probs: seq<real>): real
    requires |values| == |probs|
  {
    if |values| == 0 then 0.0
    else Dot(values[..|values| - 1], probs[..|probs| - 1]) + values[|values| - 1] * probs[|probs| - 1]
  }

  /** lottery.js `expectedValue`. */
  method ExpectedValue(values: seq<real>, probs: seq<real>) returns (ev: real)
    requires |values| == |probs|
    ensures ev == Dot(values, probs)
  {
    ev := 0.0;
    var i := 0;
    while i < |values|
      invariant 0 <= i <= |values|
      invariant ev == Dot(values[..i], probs[..i])
    {
      assert values[..i + 1][..i] == values[..i];
      assert probs[..i + 1][..i] == probs[..i];
      ev := ev + values[i] * probs[i];
      i := i + 1;
    }
    assert values[..i] == values && probs[..i] == probs;
  }

  /** With nonnegative weights, payoffs at least `lo` give at least `lo` times the total weight. */
  lemma {:induction false} DotLowerBound(values: seq<real>, probs: seq<real>, lo: real)
    requires |values| == |probs|
    requires forall i :: 0 <= i < |probs| ==> probs[i] >= 0.0 && values[i] >= lo
    ensures Dot(values, probs) >= lo * Sum(probs)
  {
    if |values| > 0 {
      var n := |values| - 1;
      DotLowerBound(values[..n], probs[..n], lo);
      assert (values[n] - lo) * probs[n] >= 0.0;
    }
  }

  lemma {:induction false} DotUpperBound(values: seq<real>, probs: seq<real>, hi: real)
    requires |values| == |probs|
    requires forall i :: 0 <= i < |probs| ==> probs[i] >= 0.0 && values[i] <= hi
    ensures Dot(values, probs) <= hi * Sum(probs)
  {
    if |values| > 0 {
      var n := |values| - 1;
      DotUpperBound(values[..n], probs[..n], hi);
      assert (hi - values[n]) * probs[n] >= 0.0;
    }
  }

  /**
   * The expected value of a valid lottery lies between its smallest and its
   * largest payoff, scaled by a total within 1e-9 of 1 (exactly between
   * them when the total is exactly 1).
   */
  lemma ExpectedValueBetween(values: seq<real>, probs: seq<real>, lo: real, hi: real)
    requires ValidLottery(values, probs)
    requires forall i :: 0 <= i < |values| ==> lo <= values[i] <= hi
    ensures lo * Sum(probs) <= Dot(values, probs) <= hi * Sum(probs)
    ensures Sum(probs) == 1.0 ==> lo <= Dot(values, probs) <= hi
  {
    DotLowerBound(values, probs, lo);
    DotUpperBound(values, probs, hi);
  }

  /** `Σ probs[i]·(values[i] − ev)²`, the square of `theoreticalStdDev`. */
  function SquaredDeviation(values: seq<real>, probs: seq<real>, ev: real): real
    requires |values| == |probs|
  {
    if |values| == 0 then 0.0
    else
      var n := |values| - 1;
      SquaredDeviation(values[..n], probs[..n], ev) + probs[n] * (values[n] - ev) * (values[n] - ev)
  }

  /** lottery.js `theoreticalStdDev` before its final square root. */
  method Variance(values: seq<real>, probs: seq<real>, ev: real) returns (v: real)
    requires |values| == |probs|
    ensures v == SquaredDeviation(values, probs, ev)
  {
    v := 0.0;
    var i := 0;
    while i < |values|
      invariant 0 <= i <= |values|
      invariant v == SquaredDeviation(values[..i], probs[..i], ev)
    {
      assert values[..i + 1][..i] == values[..i];
      assert probs[..i + 1][..i] == probs[..i];
      var d := values[i] - ev;
      v := v + probs[i] * d * d;
      i := i + 1;
    }
    assert values[..i] == values && probs[..i] == probs;
  }

  /** With nonnegative probabilities the variance is nonnegative, so its square root exists. */
  lemma {:induction false} VarianceNonnegative(values: seq<real>, probs: seq<real>, ev: real)
    requires |values| == |probs|
    requires forall i :: 0 <= i < |probs| ==> probs[i] >= 0.0
    ensures SquaredDeviation(values, probs, ev) >= 0.0
  {
    if |values| > 0 {
      var n := |values| - 1;
      VarianceNonnegative(values[..n], probs[..n], ev);
      var d := values[n] - ev;
      assert d * d >= 0.0;
      assert probs[n] * d * d == probs[n] * (d * d);
    }
  }

  // ---------------------------------------------------------------------
  // Grouped distribution
  // ---------------------------------------------------------------------

  /** One bar of the grouped distribution. */
  datatype Mass = Mass(value: real, prob: real)

  /** Total probability of the outcomes whose payoff is `x`. */
  function MassOf(values: seq<real>, probs: seq<real>, x: real): real
    requires |values| == |probs|
  {
    if |values| == 0 then 0.0
    else
      var n := |values| - 1;
      MassOf(values[..n], probs[..n], x) + (if values[n] == x then probs[n] else 0.0)
  }

  predicate Distinct(keys: seq<real>) {
    forall i, j :: 0 <= i < j < |keys| ==> keys[i] != keys[j]
  }

  /**
   * lottery.js `groupedDistribution`: one entry per distinct payoff with
   * the summed probability of that payoff, sorted by payoff.
   */
  method GroupedDistribution(values: seq<real>, probs: seq<real>) returns (dist: seq<Mass>)
    requires |values| == |probs|
    ensures forall i, j :: 0 <= i < j < |dist| ==> dist[i].value < dist[j].value
    ensures forall i :: 0 <= i < |dist| ==> dist[i].value in values
    ensures forall x :: x in values ==> exists i :: 0 <= i < |dist| && dist[i].value == x
    ensures forall i :: 0 <= i < |dist| ==> dist[i].prob == MassOf(values, probs, dist[i].value)
  {
    hide MassOf;
    hide Sorting.Sort;
    var keys, mass := GroupMasses(values, probs);
    var le := (a: real, b: real) => a <= b;
    var sorted := Sorting.Sort(keys, le);
    Sorting.SortSorted(keys, le);
    forall k | k in sorted ensures k in keys {
      assert k in multiset(sorted);
    }
    forall k | k in keys ensures k in sorted {
      assert k in multiset(keys);
    }
    DistinctPermutation(keys, sorted);
    dist := seq(|sorted|, j requires 0 <= j < |sorted| => Mass(sorted[j], mass[sorted[j]]));
    forall x | x in values ensures exists i :: 0 <= i < |dist| && dist[i].value == x {
      var i :| 0 <= i < |sorted| && sorted[i] == x;
      assert dist[i].value == x;
    }
  }

  /** The `Map` loop of `groupedDistribution`: keys in first-appearance order with their summed masses. */
  method GroupMasses(values: seq<real>, probs: seq<real>) returns (keys: seq<real>, mass: map<real, real>)
    requires |values| == |probs|
    ensures Distinct(keys)
    ensures forall k :: k in keys <==> k in values
    ensures forall k :: k in keys ==> k in mass && mass[k] == MassOf(values, probs, k)
  {
    keys := [];
    mass := map[];
    var i := 0;
    while i < |values|
      invariant 0 <= i <= |values|
      invariant Distinct(keys)
      invariant forall k :: k in keys <==> k in values[..i]
      invariant mass.Keys == set k | k in keys
      invariant forall k :: k in mass ==> mass[k] == MassOf(values[..i], probs[..i], k)
    {
      var x := values[i];
      assert values[..i + 1][..i] == values[..i] && probs[..i + 1][..i] == probs[..i];
      assert values[..i + 1] == values[..i] + [x];
      var prior := 0.0;
      if x in mass {
        prior := mass[x];
      } else {
        MassOfAbsent(values[..i], probs[..i], x);
        keys := keys + [x];
      }
      mass := mass[x := prior + probs[i]];
      i := i + 1;
    }
    assert values[..i] == values && probs[..i] == probs;
  }

  /** A sorted rearrangement of duplicate-free keys is strictly increasing. */
  lemma DistinctPermutation(keys: seq<real>, sorted: seq<real>)
    requires Distinct(keys) && multiset(sorted) == multiset(keys)
    requires forall i, j :: 0 <= i < j < |sorted| ==> sorted[i] <= sorted[j]
    ensures forall i, j :: 0 <= i < j < |sorted| ==> sorted[i] < sorted[j]
  {
    forall i, j | 0 <= i < j < |sorted| ensures sorted[i] < sorted[j] {
      if sorted[i] == sorted[j] {
        DuplicateCounted(sorted, i, j);
        DistinctCountedOnce(keys, sorted[i]);
        assert false;
      }
    }
  }

  lemma DuplicateCounted(s: seq<real>, i: nat, j: nat)
    requires i < j < |s| && s[i] == s[j]
    ensures multiset(s)[s[i]] >= 2
  {
    assert s == s[..i] + [s[i]] + s[i + 1..j] + [s[j]] + s[j + 1..];
  }

  lemma {:induction false} DistinctCountedOnce(t: seq<real>, x: real)
    requires Distinct(t)
    ensures multiset(t)[x] <= 1
  {
    if |t| > 0 {
      var n := |t| - 1;
      assert Distinct(t[..n]);
      DistinctCountedOnce(t[..n], x);
      assert t == t[..n] + [t[n]];
      if t[n] == x {
        assert x !in t[..n];
      }
    }
  }

  lemma {:induction false} MassOfAbsent(values: seq<real>, probs: seq<real>, x: real)
    requires |values| == |probs| && x !in values
    ensures MassOf(values, probs, x) == 0.0
  {
    if |values| > 0 {
      var n := |values| - 1;
      assert x !in values[..n];
      MassOfAbsent(values[..n], probs[..n], x);
    }
  }

  /** Total of the grouped masses over any duplicate-free list of keys. */
  function SumMass(values: seq<real>, probs: seq<real>, keys: seq<real>): real
    requires |values| == |probs|
  {
    if |keys| == 0 then 0.0 else MassOf(values, probs, keys[0]) + SumMass(values, probs, keys[1..])
  }

  /** Total of the probabilities whose payoff is among `keys`. */
  function SumWhereIn(values: seq<real>, probs: seq<real>, keys: seq<real>): real
    requires |values| == |probs|
  {
    if |values| == 0 then 0.0
    else
      var n := |values| - 1;
      SumWhereIn(values[..n], probs[..n], keys) + (if values[n] in keys then probs[n] else 0.0)
  }

  lemma {:induction false} SumMassStep(values: seq<real>, probs: seq<real>, keys: seq<real>)
    requires |values| == |probs| && |values| > 0 && Distinct(keys)
    ensures SumMass(values, probs, keys) ==
            SumMass(values[..|values| - 1], probs[..|probs| - 1], keys) +
            (if values[|values| - 1] in keys then probs[|probs| - 1] else 0.0)
  {
    if |keys| > 0 {
      assert Distinct(keys[1..]);
      SumMassStep(values, probs, keys[1..]);
      var x := values[|values| - 1];
      if x == keys[0] {
        assert x !in keys[1..];
      }
    }
  }

  lemma {:induction false} SumMassIsSumWhereIn(values: seq<real>, probs: seq<real>, keys: seq<real>)
    requires |values| == |probs| && Distinct(keys)
    ensures SumMass(values, probs, keys) == SumWhereIn(values, probs, keys)
  {
    if |values| == 0 {
      SumMassEmpty(values, probs, keys);
    } else {
      var n := |values| - 1;
      SumMassStep(values, probs, keys);
      SumMassIsSumWhereIn(values[..n], probs[..n], keys);
    }
  }

  lemma {:induction false} SumMassEmpty(values: seq<real>, probs: seq<real>, keys: seq<real>)
    requires |values| == |probs| == 0
    ensures SumMass(values, probs, keys) == 0.0
  {
    if |keys| > 0 {
      SumMassEmpty(values, probs, keys[1..]);
    }
  }

  lemma {:induction false} SumWhereInAll(values: seq<real>, probs: seq<real>, keys: seq<real>)
    requires |values| == |probs|
    requires forall i :: 0 <= i < |values| ==> values[i] in keys
    ensures SumWhereIn(values, probs, keys) == Sum(probs)
  {
    if |values| > 0 {
      var n := |values| - 1;
      SumWhereInAll(values[..n], probs[..n], keys);
      assert Sum(probs) == Sum(probs[..n]) + probs[n];
    }
  }

  /** Grouping preserves the total probability mass. */
  lemma GroupedMassPreserved(values: seq<real>, probs: seq<real>, dist: seq<Mass>)
    requires |values| == |probs|
    requires forall i, j :: 0 <= i < j < |dist| ==> dist[i].value < dist[j].value
    requires forall x :: x in values ==> exists i :: 0 <= i < |dist| && dist[i].value == x
    requires forall i :: 0 <= i < |dist| ==> dist[i].prob == MassOf(values, probs, dist[i].value)
    ensures TotalProb(dist) == Sum(probs)
  {
    var keys := seq(|dist|, i requires 0 <= i < |dist| => dist[i].value);
    TotalIsSumMass(values, probs, dist, keys);
    SumMassIsSumWhereIn(values, probs, keys);
    forall k | 0 <= k < |values| ensures values[k] in keys {
      ValueIsKey(values, dist, keys, k);
    }
    SumWhereInAll(values, probs, keys);
  }

  lemma ValueIsKey(values: seq<real>, dist: seq<Mass>, keys: seq<real>, k: nat)
    requires k < |values| && |keys| == |dist|
    requires forall i :: 0 <= i < |dist| ==> keys[i] == dist[i].value
    requires forall x :: x in values ==> exists i :: 0 <= i < |dist| && dist[i].value == x
    ensures values[k] in keys
  {
    var x := values[k];
    assert x in values;
    var i :| 0 <= i < |dist| && dist[i].value == x;
    assert keys[i] == x;
  }

  function TotalProb(dist: seq<Mass>): real
  {
    if |dist| == 0 then 0.0 else dist[0].prob + TotalProb(dist[1..])
  }

  lemma {:induction false} TotalIsSumMass(values: seq<real>, probs: seq<real>, dist: seq<Mass>, keys: seq<real>)
    requires |values| == |probs| && |keys| == |dist|
    requires forall i :: 0 <= i < |dist| ==> keys[i] == dist[i].value
    requires forall i :: 0 <= i < |dist| ==> dist[i].prob == MassOf(values, probs, dist[i].value)
    ensures TotalProb(dist) == SumMass(values, probs, keys)
  {
    if |dist| > 0 {
      TotalIsSumMass(values, probs, dist[1..], keys[1..]);
    }
  }

  /** What `describeLottery` hands to the views and to the simulator. */
  datatype Description = Description(
    resultNames: seq<string>,
    values: seq<real>,
    probs: seq<real>,
    cumProbs: seq<real>,
    expectedValue: real,
    variance: real,
    distribution: seq<Mass>)

  /** What `describeLottery` computes from a lottery, field by field. */
  ghost predicate Describes(d: Description, values: seq<real>, probs: seq<real>)
    requires |values| == |probs|
  {
    && d.resultNames == ResultNames(|values|)
    && d.values == values && d.probs == probs
    && |d.cumProbs| == |probs| && (forall i :: 0 <= i < |probs| ==> d.cumProbs[i] == Sum(probs[..i + 1]))
    && d.expectedValue == Dot(values, probs)
    && d.variance == SquaredDeviation(values, probs, d.expectedValue)
    && (forall i, j :: 0 <= i < j < |d.distribution| ==> d.distribution[i].value < d.distribution[j].value)
    && (forall i :: 0 <= i < |d.distribution| ==> d.distribution[i].prob == MassOf(values, probs, d.distribution[i].value))
    && (forall x :: x in values ==> exists i :: 0 <= i < |d.distribution| && d.distribution[i].value == x)
  }

  /** lottery.js `describeLottery`, with the variance in place of its square root. */
  method DescribeLottery(values: seq<real>, probs: seq<real>) returns (d: Description)
    requires |values| == |probs|
    ensures Describes(d, values, probs)
  {
    var names := ResultNames(|values|);
    var cum := CumulateProbabilities(probs);
    var ev := ExpectedValue(values, probs);
    var v := Variance(values, probs, ev);
    var dist := GroupedDistribution(values, probs);
    d := Description(names, values, probs, cum, ev, v, dist);
  }
}
