/**
 * apps/exercises/modules/dui/dui_methods.js: drawing a random decision
 * table and a random level of optimism, and the early exits of the
 * Minimax tie repair.
 */
module DuiGenerate {
  import opened Random
  import opened DuiLexical
  import opened DuiRepair
  import DuiRules
  import Text

  /** `generateOprLevel`: a level of optimism from 0.20 to 0.70 in steps of 0.05. */
  function OprLevel(u: Fraction): (level: real)
    ensures 0.2 <= level <= 0.7
    ensures (level * 20.0).Floor as real == level * 20.0
  {
    var step := RandomIntInclusive(4, 14, u);
    assert (step * 5) as real / 100.0 * 20.0 == step as real;
    (step * 5) as real / 100.0
  }

  /** Every level 0.20, 0.25, …, 0.70 is drawn by some `u`. */
  lemma OprLevelOnto(k: int)
    requires 4 <= k <= 14
    ensures OprLevel((k - 4) as real / 11.0) == k as real * 0.05
  {
    RandomIntInclusiveOnto(4, 14, k);
  }

  /** `Array.from({ length: n }, (_, i) => prefix + (i + 1))`; a negative length gives no labels. */
  function Labels(prefix: string, n: int): (labels: seq<string>)
    ensures |labels| == if n < 0 then 0 else n
    ensures forall i :: 0 <= i < |labels| ==> labels[i] == prefix + Text.IntToString(i + 1)
  {
    var count := if n < 0 then 0 else n;
    seq(count, i requires 0 <= i < count => prefix + Text.IntToString(i + 1))
  }

  /** One payoff: `randomIntInclusive(0, floor(200 / p), rng) * p`. */
  function Payoff(u: Fraction, precision: int): (v: int)
    requires precision > 0
    ensures 0 <= v <= MaxPayoff(precision) && OnGrid(v, 0, precision)
  {
    var k := RandomIntInclusive(0, 200 / precision, u);
    assert k * precision <= (200 / precision) * precision by {
      assert (200 / precision - k) * precision >= 0;
    }
    StepsOnGrid(k, precision);
    k * precision
  }

  /** The payoffs of one row, drawn from `draws` at positions start, start + 1, … */
  function RowFromDraws(draws: nat -> Fraction, start: nat, width: nat, precision: int): (row: seq<int>)
    requires precision > 0
    ensures |row| == width
    ensures forall j :: 0 <= j < width ==> row[j] == Payoff(draws(start + j), precision)
  {
    seq(width, j requires 0 <= j < width => Payoff(draws(start + j), precision))
  }

  /** The position in the stream of draws of the first draw of row i. */
  function RowStart(base: nat, i: nat, width: nat): nat {
    base + i * width
  }

  lemma RowStartNext(base: nat, i: nat, width: nat)
    ensures RowStart(base, i + 1, width) == RowStart(base, i, width) + width
  {
  }

  /** `states.map(() => randomIntInclusive(0, maxVal, rng) * valuePrecision)`: one row of payoffs. */
  method DrawRow(width: nat, precision: int, rng: Oracle) returns (row: seq<int>)
    requires precision > 0
    modifies rng
    ensures row == RowFromDraws(rng.draws, old(rng.calls), width, precision)
    ensures rng.calls == old(rng.calls) + width
  {
    row := [];
    var j := 0;
    while j < width
      invariant 0 <= j <= width && |row| == j
      invariant rng.calls == old(rng.calls) + j
      invariant forall k :: 0 <= k < j ==> row[k] == Payoff(rng.draws(old(rng.calls) + k), precision)
    {
      var u := rng.Next();
      row := row + [Payoff(u, precision)];
      j := j + 1;
    }
  }

  /**
   * `createDuiTable`: decisions D1, D2, … and states S1, S2, …, the header
   * row led by the decisions label, and one payoff per decision and state,
   * drawn row by row, each a multiple of the precision in [0, max].
   */
  method CreateDuiTable(numDecisions: int, numStates: int, precision: int, decisionsLabel: string, rng: Oracle)
    returns (headers: seq<string>, decisions: seq<string>, values: seq<seq<int>>)
    requires precision > 0
    modifies rng
    ensures decisions == Labels("D", numDecisions)
    ensures headers == [decisionsLabel] + Labels("S", numStates)
    ensures var width := if numStates < 0 then 0 else numStates;
      && |values| == |decisions| && Rect(values, width)
      && (forall i :: 0 <= i < |values| ==>
            values[i] == RowFromDraws(rng.draws, RowStart(old(rng.calls), i, width), width, precision))
      && rng.calls == RowStart(old(rng.calls), |values|, width)
  {
    decisions := Labels("D", numDecisions);
    var states := Labels("S", numStates);
    var width := |states|;
    values := [];
    var i := 0;
    while i < |decisions|
      invariant 0 <= i <= |decisions| && |values| == i
      invariant rng.calls == RowStart(old(rng.calls), i, width)
      invariant forall k :: 0 <= k < i ==>
        values[k] == RowFromDraws(rng.draws, RowStart(old(rng.calls), k, width), width, precision)
    {
      RowStartNext(old(rng.calls), i, width);
      var row := DrawRow(width, precision, rng);
      values := values + [row];
      i := i + 1;
    }
    headers := [decisionsLabel] + states;
  }

  /**
   * The early exits of `maybeForceMinimaxTies`: the table is returned as
   * it is unless lexical Minimax on its regret table settles it in one
   * round, the roll is below 0.6 and some other decision exists. Only the
   * step-count guard comes before the draw; when it exits, the source
   * draws no roll and this parameter goes unused. (The repair that
   * follows is not part of this model.)
   */
  function MinimaxTiesSkipped(values: seq<seq<int>>, decisions: seq<string>, roll: Fraction): (skipped: bool)
    requires Rect(values, Width(values)) && |decisions| == |values|
    ensures !skipped ==> |values| >= 2 && roll < 0.6
    ensures Lex(DuiRules.RegretTable(values), decisions, Minimax).steps != 1 ==> skipped
  {
    var regrets := DuiRules.RegretTable(values);
    Lex(regrets, decisions, Minimax).steps != 1 || roll >= 0.6 || |values| < 2
  }

  /**
   * When the Minimax repair goes ahead on a table with two states or more,
   * exactly one decision has the smallest maximum regret: the repair is
   * only tried on tables the rule decides at once.
   */
  lemma MinimaxTiesTriedOnUniqueBest(values: seq<seq<int>>, decisions: seq<string>, roll: Fraction)
    requires Rect(values, Width(values)) && |decisions| == |values| && Width(values) >= 2
    requires !MinimaxTiesSkipped(values, decisions, roll)
    ensures var keys := Keys(DuiRules.RegretTable(values), Minimax);
      |keys| >= 2 && multiset(keys)[Best(keys, Minimax)] == 1
  {
    var regrets := DuiRules.RegretTable(values);
    OneStepMeansUniqueBest(regrets, decisions, Minimax);
  }
}
