/**
 * apps/exercises/modules/dui: the regret table of Minimax, the
 * single-round rules (optimism-pessimism and insufficient reason), the
 * ordered-values column of the solution tables and the text helpers of
 * the explainer.
 */
module DuiRules {
  import opened DuiLexical
  import Sorting
  import Text

  /** Column `j` of a table. */
  function Column(values: seq<seq<int>>, j: nat): (col: seq<int>)
    requires forall i :: 0 <= i < |values| ==> j < |values[i]|
    ensures |col| == |values|
    ensures forall i :: 0 <= i < |values| ==> col[i] == values[i][j]
  {
    seq(|values|, i requires 0 <= i < |values| => values[i][j])
  }

  /** `maxByState`: the best payoff of every state. */
  function ColumnMaxes(values: seq<seq<int>>): (maxes: seq<int>)
    requires |values| > 0 && Rect(values, Width(values))
    ensures |maxes| == Width(values)
    ensures forall j :: 0 <= j < Width(values) ==> maxes[j] == MaxOf(Column(values, j))
  {
    seq(Width(values), j requires 0 <= j < Width(values) => MaxOf(Column(values, j)))
  }

  /**
   * dui_methods.js `solveMinimax`, regret rows: every payoff replaced by
   * the best payoff of its state minus that payoff. A table without rows
   * has no regret rows.
   */
  function RegretTable(values: seq<seq<int>>): (regrets: seq<seq<int>>)
    requires Rect(values, Width(values))
    ensures |regrets| == |values| && Rect(regrets, Width(values)) && Width(regrets) == Width(values)
  {
    if |values| == 0 then []
    else
      var maxes := ColumnMaxes(values);
      seq(|values|, i requires 0 <= i < |values| =>
        seq(Width(values), j requires 0 <= j < Width(values) => maxes[j] - values[i][j]))
  }

  /**
   * A regret is what the decision loses against the best decision for
   * that state: never negative, and the best decision of every state has
   * regret 0 there.
   */
  lemma RegretMeaning(values: seq<seq<int>>)
    requires |values| > 0 && Rect(values, Width(values))
    ensures var regrets := RegretTable(values);
      && (forall i, j :: 0 <= i < |values| && 0 <= j < Width(values) ==>
            regrets[i][j] >= 0 && regrets[i][j] + values[i][j] == MaxOf(Column(values, j)))
      && (forall j :: 0 <= j < Width(values) ==> 0 in Column(regrets, j))
  {
    var regrets := RegretTable(values);
    forall j | 0 <= j < Width(values)
      ensures 0 in Column(regrets, j)
    {
      var col := Column(values, j);
      var i :| 0 <= i < |col| && col[i] == MaxOf(col);
      assert Column(regrets, j)[i] == 0;
    }
    forall i, j | 0 <= i < |values| && 0 <= j < Width(values)
      ensures regrets[i][j] >= 0 && regrets[i][j] + values[i][j] == MaxOf(Column(values, j))
    {
      assert Column(values, j)[i] == values[i][j];
    }
  }

  /** Every entry of the table is at least `lo`. */
  ghost predicate AllAtLeast(values: seq<seq<int>>, lo: int) {
    forall i, j :: 0 <= i < |values| && 0 <= j < |values[i]| ==> values[i][j] >= lo
  }

  lemma KeptAtLeast(values: seq<seq<int>>, keys: seq<int>, v: int, lo: int)
    requires |keys| == |values| && AllAtLeast(values, lo)
    ensures AllAtLeast(RemoveEach(Keep(values, keys, v), v), lo)
  {
    var kept := Keep(values, keys, v);
    KeepSound(values, keys, v);
    forall i | 0 <= i < |kept|
      ensures forall j :: 0 <= j < |kept[i]| ==> kept[i][j] >= lo
    {
      assert kept[i] in kept;
      var k :| 0 <= k < |values| && keys[k] == v && values[k] == kept[i];
    }
    var shrunk := RemoveEach(kept, v);
    forall i, j | 0 <= i < |shrunk| && 0 <= j < |shrunk[i]|
      ensures shrunk[i][j] >= lo
    {
      assert shrunk[i][j] in multiset(shrunk[i]);
      assert shrunk[i][j] in kept[i];
    }
  }

  /**
   * When every entry is at least `lo`, so is the value of every round:
   * the reported result never falls below the smallest entry.
   */
  lemma {:induction false} LexFromResultsAtLeast(values: seq<seq<int>>, decisions: seq<string>, kind: Kind, sol: Solution,
                                                 maxSteps: nat, lo: int)
    requires Rect(values, Width(values)) && |decisions| == |values|
    requires AllAtLeast(values, lo) && sol.results >= lo
    ensures LexFrom(values, decisions, kind, sol, maxSteps).results >= lo
    decreases Width(values)
  {
    if |values| > 0 && |values[0]| > 0 {
      var r := RoundOf(values, decisions, kind);
      var next := Solution(sol.steps + 1, r.value, r.survivors);
      LexFromStep(values, decisions, kind, sol, maxSteps);
      RoundAtLeast(values, decisions, kind, lo);
      hide *;
      if |r.survivors| != 1 && next.steps < maxSteps {
        LexFromResultsAtLeast(r.rest, r.survivors, kind, next, maxSteps, lo);
      }
    }
  }

  /** A round of a table whose entries are all at least `lo` has a value and a shrunk table that are too. */
  lemma RoundAtLeast(values: seq<seq<int>>, decisions: seq<string>, kind: Kind, lo: int)
    requires Rect(values, Width(values)) && |decisions| == |values|
    requires |values| > 0 && Width(values) > 0 && AllAtLeast(values, lo)
    ensures RoundOf(values, decisions, kind).value >= lo
    ensures AllAtLeast(RoundOf(values, decisions, kind).rest, lo)
  {
    var keys := Keys(values, kind);
    BestAtLeast(values, kind, lo);
    KeptAtLeast(values, keys, Best(keys, kind), lo);
  }

  /** The value of a round is an entry of the table. */
  lemma BestAtLeast(values: seq<seq<int>>, kind: Kind, lo: int)
    requires |values| > 0 && Width(values) > 0 && Rect(values, Width(values)) && AllAtLeast(values, lo)
    ensures Best(Keys(values, kind), kind) >= lo
  {
    var keys := Keys(values, kind);
    var i :| 0 <= i < |keys| && keys[i] == Best(keys, kind);
    if kind == Maximin {
      var k :| 0 <= k < |values[i]| && values[i][k] == MinOf(values[i]);
    } else {
      var k :| 0 <= k < |values[i]| && values[i][k] == MaxOf(values[i]);
    }
  }

  /**
   * dui_methods.js `solveMinimax`: the regret table, its lexical Minimax
   * solution and the ordered-regrets column (descending). The minimax
   * regret is never negative.
   */
  method SolveMinimax(values: seq<seq<int>>, decisions: seq<string>)
    returns (regrets: seq<seq<int>>, solution: Solution, ordered: seq<string>)
    requires Rect(values, Width(values)) && |decisions| == |values|
    ensures regrets == RegretTable(values)
    ensures solution == Lex(regrets, decisions, Minimax)
    ensures solution.results >= 0
    ensures |ordered| == |values| && forall i :: 0 <= i < |values| ==> ordered[i] == OrderedValuesString(regrets[i], true)
  {
    regrets := RegretTable(values);
    solution := SolveLexicalMinimax(regrets, decisions);
    RegretsAtLeastZero(values);
    assert Rect(regrets, Width(regrets)) && |decisions| == |regrets|;
    hide *;
    LexFromResultsAtLeast(regrets, decisions, Minimax, Solution(0, 0, []), Width(regrets), 0);
    ordered := seq(|regrets|, i requires 0 <= i < |regrets| => OrderedValuesString(regrets[i], true));
  }

  /** No regret is negative. */
  lemma RegretsAtLeastZero(values: seq<seq<int>>)
    requires Rect(values, Width(values))
    ensures AllAtLeast(RegretTable(values), 0)
  {
    if |values| > 0 {
      RegretMeaning(values);
    }
  }

  /**
   * dui_methods.js `solveMaximin`: the lexical Maximin solution of the
   * payoffs and the ordered-payoffs column (ascending).
   */
  method SolveMaximin(values: seq<seq<int>>, decisions: seq<string>) returns (solution: Solution, ordered: seq<string>)
    requires Rect(values, Width(values)) && |decisions| == |values|
    ensures solution == Lex(values, decisions, Maximin)
    ensures AllAtLeast(values, 0) ==> solution.results >= 0
    ensures |ordered| == |values| && forall i :: 0 <= i < |values| ==> ordered[i] == OrderedValuesString(values[i], false)
  {
    solution := SolveLexicalMaximin(values, decisions);
    if AllAtLeast(values, 0) {
      LexFromResultsAtLeast(values, decisions, Maximin, Solution(0, 0, []), Width(values), 0);
    }
    ordered := seq(|values|, i requires 0 <= i < |values| => OrderedValuesString(values[i], false));
  }

  function IntLe(a: int, b: int): bool {
    a <= b
  }

  lemma IntLeTotal()
    ensures Sorting.TotalPreorder(IntLe)
  {
  }

  /** The values of a row in ascending order, or descending when `reverse`. */
  function OrderedValues(values: seq<int>, reverse: bool): (r: seq<int>)
    ensures multiset(r) == multiset(values)
    ensures |r| == |values|
  {
    var sorted := Sorting.Sort(values, IntLe);
    if reverse then Reversed(sorted) else sorted
  }

  function Reversed(s: seq<int>): (r: seq<int>)
    ensures |r| == |s| && multiset(r) == multiset(s)
    ensures forall i :: 0 <= i < |s| ==> r[i] == s[|s| - 1 - i]
  {
    if |s| == 0 then []
    else
      assert s == s[..|s| - 1] + [s[|s| - 1]];
      [s[|s| - 1]] + Reversed(s[..|s| - 1])
  }

  /** The ordered values are a permutation of the row, ascending or descending as asked. */
  lemma OrderedValuesOrdered(values: seq<int>, reverse: bool)
    ensures var r := OrderedValues(values, reverse);
      && (!reverse ==> forall i, j :: 0 <= i < j < |r| ==> r[i] <= r[j])
      && (reverse ==> forall i, j :: 0 <= i < j < |r| ==> r[i] >= r[j])
  {
    IntLeTotal();
    Sorting.SortSorted(values, IntLe);
  }

  /** dui_methods.js `orderedValuesString`: the ordered values joined by " ≤ " or " ≥ ". */
  function OrderedValuesString(values: seq<int>, reverse: bool): (s: string)
    ensures |values| == 0 ==> s == ""
    ensures |values| == 1 ==> s == Text.IntToString(values[0])
  {
    var r := OrderedValues(values, reverse);
    var texts := seq(|r|, i requires 0 <= i < |r| => Text.IntToString(r[i]));
    Text.Join(texts, if reverse then " ≥ " else " ≤ ")
  }

  /** The single-round rules: optimism-pessimism with a level of optimism, and insufficient reason. */
  datatype Rule = Opr(level: real) | Pir

  function MinReal(s: seq<real>): (m: real)
    requires |s| > 0
    ensures m in s && forall i :: 0 <= i < |s| ==> m <= s[i]
  {
    if |s| == 1 then s[0]
    else
      var rest := MinReal(s[1..]);
      assert rest in s;
      if s[0] <= rest then s[0] else rest
  }

  function MaxReal(s: seq<real>): (m: real)
    requires |s| > 0
    ensures m in s && forall i :: 0 <= i < |s| ==> s[i] <= m
  {
    if |s| == 1 then s[0]
    else
      var rest := MaxReal(s[1..]);
      assert rest in s;
      if s[0] >= rest then s[0] else rest
  }

  function Sum(s: seq<real>): real {
    if |s| == 0 then 0.0 else s[0] + Sum(s[1..])
  }

  /** `x * n`, kept as a function so that proofs can hide the product. */
  function Times(x: real, n: real): real {
    x * n
  }

  lemma TimesSucc(x: real, n: real)
    ensures Times(x, n + 1.0) == x + Times(x, n)
  {
  }

  lemma {:induction false} SumBounds(s: seq<real>, lo: real, hi: real)
    requires forall i :: 0 <= i < |s| ==> lo <= s[i] <= hi
    ensures Times(lo, |s| as real) <= Sum(s) <= Times(hi, |s| as real)
  {
    if |s| > 0 {
      SumBounds(s[1..], lo, hi);
      TimesSucc(lo, |s[1..]| as real);
      TimesSucc(hi, |s[1..]| as real);
    }
  }

  function AsReals(row: seq<int>): (r: seq<real>)
    ensures |r| == |row| && forall i :: 0 <= i < |row| ==> r[i] == row[i] as real
  {
    seq(|row|, i requires 0 <= i < |row| => row[i] as real)
  }

  /**
   * `calcValue` of `solveOpr` (α·max + (1 − α)·min) and of `solvePir`
   * (the mean of the row).
   */
  function RowValue(row: seq<int>, rule: Rule): real
    requires |row| > 0
  {
    var xs := AsReals(row);
    match rule
    case Opr(a) => Mix(a, MinReal(xs), MaxReal(xs))
    case Pir => Mean(Sum(xs), |xs| as real)
  }

  /** `a * hi + (1 - a) * lo`, kept as a function so that proofs can hide the products. */
  function Mix(a: real, lo: real, hi: real): real {
    a * hi + (1.0 - a) * lo
  }

  /** `sum / n`, kept as a function so that proofs can hide the quotient. */
  function Mean(sum: real, n: real): real
    requires n != 0.0
  {
    sum / n
  }

  /**
   * With a level of optimism in [0, 1] the optimism-pessimism value lies
   * between the row's worst and best payoff, at the worst for level 0 and
   * at the best for level 1.
   */
  lemma OprValueBetween(row: seq<int>, a: real)
    requires |row| > 0 && 0.0 <= a <= 1.0
    ensures var xs := AsReals(row);
      && MinReal(xs) <= RowValue(row, Opr(a)) <= MaxReal(xs)
      && (a == 0.0 ==> RowValue(row, Opr(a)) == MinReal(xs))
      && (a == 1.0 ==> RowValue(row, Opr(a)) == MaxReal(xs))
  {
    var xs := AsReals(row);
    var lo, hi := MinReal(xs), MaxReal(xs);
    assert lo <= xs[0] <= hi;
    assert RowValue(row, Opr(a)) == Mix(a, lo, hi);
    hide *;
    Convex(a, lo, hi);
  }

  lemma Convex(a: real, lo: real, hi: real)
    requires 0.0 <= a <= 1.0 && lo <= hi
    ensures lo <= Mix(a, lo, hi) <= hi
    ensures a == 0.0 ==> Mix(a, lo, hi) == lo
    ensures a == 1.0 ==> Mix(a, lo, hi) == hi
  {
    assert a * hi + (1.0 - a) * lo - lo == a * (hi - lo);
    assert a * (hi - lo) >= 0.0;
    assert a * (hi - lo) <= hi - lo by {
      assert (1.0 - a) * (hi - lo) >= 0.0;
    }
  }

  /**
   * The insufficient-reason value is the mean: times the number of
   * states it gives the row's sum, and it lies between the worst and best
   * payoff.
   */
  lemma PirValueMean(row: seq<int>)
    requires |row| > 0
    ensures var xs := AsReals(row);
      && Times(RowValue(row, Pir), |row| as real) == Sum(xs)
      && MinReal(xs) <= RowValue(row, Pir) <= MaxReal(xs)
  {
    var xs := AsReals(row);
    var n := |row| as real;
    var lo, hi, sum := MinReal(xs), MaxReal(xs), Sum(xs);
    assert forall i :: 0 <= i < |xs| ==> lo <= xs[i] <= hi;
    assert RowValue(row, Pir) == Mean(sum, n);
    assert n == |xs| as real && n > 0.0;
    hide *;
    SumBounds(xs, lo, hi);
    MeanBetween(sum, n, lo, hi);
  }

  lemma MeanBetween(sum: real, n: real, lo: real, hi: real)
    requires n > 0.0 && Times(lo, n) <= sum <= Times(hi, n)
    ensures Times(Mean(sum, n), n) == sum && lo <= Mean(sum, n) <= hi
  {
  }

  /** The answer of a single-round rule: always one step, the value of every decision and the best ones. */
  datatype Evaluation = Evaluation(steps: nat, results: seq<real>, bestDecision: seq<string>)

  /** The rule's value of every row. */
  function RowValues(values: seq<seq<int>>, rule: Rule): (vs: seq<real>)
    requires forall i :: 0 <= i < |values| ==> |values[i]| > 0
    ensures |vs| == |values| && forall i :: 0 <= i < |values| ==> vs[i] == RowValue(values[i], rule)
  {
    seq(|values|, i requires 0 <= i < |values| => RowValue(values[i], rule))
  }

  /**
   * dui_methods.js `solveNonLexicalProblem`: every decision is valued
   * once and the decisions with the largest value are kept, in order.
   * With no decisions, `Math.max()` is -Infinity and nothing is kept.
   */
  function SolveNonLexical(values: seq<seq<int>>, decisions: seq<string>, rule: Rule): (e: Evaluation)
    requires forall i :: 0 <= i < |values| ==> |values[i]| > 0
    requires |decisions| == |values|
    ensures e.steps == 1 && |e.results| == |values|
    ensures |values| == 0 ==> e.bestDecision == []
  {
    var vs := RowValues(values, rule);
    if |vs| == 0 then Evaluation(1, vs, [])
    else Evaluation(1, vs, Keep(decisions, vs, MaxReal(vs)))
  }

  /** Decision `i` has a value no other decision exceeds. */
  ghost predicate IsBest(vs: seq<real>, i: int)
    requires 0 <= i < |vs|
  {
    forall k :: 0 <= k < |vs| ==> vs[k] <= vs[i]
  }

  /** Every recommended decision has a value no other decision exceeds; with decisions, one is recommended. */
  lemma NonLexicalSound(values: seq<seq<int>>, decisions: seq<string>, rule: Rule)
    requires forall i :: 0 <= i < |values| ==> |values[i]| > 0
    requires |decisions| == |values| && |values| > 0
    ensures var e := SolveNonLexical(values, decisions, rule);
      && |e.bestDecision| >= 1
      && forall d :: d in e.bestDecision ==> exists i :: 0 <= i < |values| && decisions[i] == d && IsBest(e.results, i)
  {
    var vs := RowValues(values, rule);
    var m := MaxReal(vs);
    var best := Keep(decisions, vs, m);
    assert SolveNonLexical(values, decisions, rule) == Evaluation(1, vs, best);
    assert |best| >= 1 by {
      var j :| 0 <= j < |vs| && vs[j] == m;
      KeepComplete(decisions, vs, m);
      assert decisions[j] in best;
    }
    KeepSound(decisions, vs, m);
    forall d | d in best
      ensures exists i :: 0 <= i < |values| && decisions[i] == d && IsBest(vs, i)
    {
      var i :| 0 <= i < |decisions| && vs[i] == m && decisions[i] == d;
      assert IsBest(vs, i);
    }
  }

  /** Keeping the decisions whose value is the maximum keeps every best decision. */
  lemma BestKept(vs: seq<real>, decisions: seq<string>, m: real)
    requires |vs| == |decisions| && m in vs && forall k :: 0 <= k < |vs| ==> vs[k] <= m
    ensures forall i :: 0 <= i < |vs| && IsBest(vs, i) ==> decisions[i] in Keep(decisions, vs, m)
  {
    KeepComplete(decisions, vs, m);
    forall i | 0 <= i < |vs| && IsBest(vs, i)
      ensures vs[i] == m
    {
      var j :| 0 <= j < |vs| && vs[j] == m;
      assert vs[j] <= vs[i] && vs[i] <= m;
    }
  }

  /** Every decision whose value no other decision exceeds is recommended. */
  lemma NonLexicalComplete(values: seq<seq<int>>, decisions: seq<string>, rule: Rule)
    requires forall i :: 0 <= i < |values| ==> |values[i]| > 0
    requires |decisions| == |values|
    ensures var e := SolveNonLexical(values, decisions, rule);
      forall i :: 0 <= i < |values| && IsBest(e.results, i) ==> decisions[i] in e.bestDecision
  {
    var vs := RowValues(values, rule);
    if |vs| > 0 {
      BestKept(vs, decisions, MaxReal(vs));
    }
  }

  /** dui_methods.js `formatList`: "a", "a and b", "a, b and c". */
  function FormatList(items: seq<string>, andLabel: string): (s: string)
    ensures |items| == 0 ==> s == ""
    ensures |items| == 1 ==> s == items[0]
  {
    if |items| == 0 then ""
    else if |items| == 1 then items[0]
    else if |items| == 2 then items[0] + " " + andLabel + " " + items[1]
    else Text.Join(items[..|items| - 1], ", ") + " " + andLabel + " " + items[|items| - 1]
  }

  /** From two items on, the list is the comma-joined items but the last, the conjunction and the last item. */
  lemma FormatListShape(items: seq<string>, andLabel: string)
    requires |items| >= 2
    ensures FormatList(items, andLabel) ==
      Text.Join(items[..|items| - 1], ", ") + " " + andLabel + " " + items[|items| - 1]
  {
  }

  /** A character `\w` matches. */
  predicate IsWordChar(c: char) {
    ('a' <= c <= 'z') || ('A' <= c <= 'Z') || ('0' <= c <= '9') || c == '_'
  }

  /** Length of the longest prefix of word characters. */
  function WordLength(s: string): (n: nat)
    ensures n <= |s|
    ensures forall i :: 0 <= i < n ==> IsWordChar(s[i])
    ensures n < |s| ==> !IsWordChar(s[n])
  {
    if |s| == 0 || !IsWordChar(s[0]) then 0 else 1 + WordLength(s[1..])
  }

  /**
   * dui_methods.js `fillTemplate`: every `{key}` whose key is a run of
   * word characters is replaced by the key's entry, or by "" when there is
   * none; everything else is copied.
   */
  function FillTemplate(template: string, data: map<string, string>): string
  {
    if |template| == 0 then ""
    else if template[0] == '{' then
      var n := WordLength(template[1..]);
      if n > 0 && n + 1 < |template| && template[n + 1] == '}' then
        var key := template[1..n + 1];
        (if key in data then data[key] else "") + FillTemplate(template[n + 2..], data)
      else [template[0]] + FillTemplate(template[1..], data)
    else [template[0]] + FillTemplate(template[1..], data)
  }

  /** A template without braces comes back unchanged. */
  lemma {:induction false} FillTemplateNoPlaceholder(template: string, data: map<string, string>)
    requires '{' !in template
    ensures FillTemplate(template, data) == template
  {
    if |template| > 0 {
      assert template[0] != '{';
      FillTemplateNoPlaceholder(template[1..], data);
    }
  }

  /** A placeholder in text without braces is replaced by its entry, or by "" when the key is missing. */
  lemma FillTemplatePlaceholder(before: string, key: string, after: string, data: map<string, string>)
    requires '{' !in before && '{' !in after
    requires |key| > 0 && forall i :: 0 <= i < |key| ==> IsWordChar(key[i])
    ensures FillTemplate(before + "{" + key + "}" + after, data) ==
      before + (if key in data then data[key] else "") + after
  {
    var t := "{" + key + "}" + after;
    assert before + "{" + key + "}" + after == before + t;
    FillTemplatePrefix(before, t, data);
    FillTemplateAtPlaceholder(key, after, data);
    FillTemplateNoPlaceholder(after, data);
  }

  lemma FillTemplateAtPlaceholder(key: string, after: string, data: map<string, string>)
    requires |key| > 0 && forall i :: 0 <= i < |key| ==> IsWordChar(key[i])
    ensures FillTemplate("{" + key + "}" + after, data) ==
      (if key in data then data[key] else "") + FillTemplate(after, data)
  {
    var t := "{" + key + "}" + after;
    assert t[1..] == key + ("}" + after);
    WordLengthOf(key, "}" + after);
    assert t[|key| + 1] == '}';
    assert t[|key| + 2..] == after;
    assert t[1..|key| + 1] == key;
  }

  lemma {:induction false} WordLengthOf(key: string, rest: string)
    requires forall i :: 0 <= i < |key| ==> IsWordChar(key[i])
    requires |rest| > 0 && !IsWordChar(rest[0])
    ensures WordLength(key + rest) == |key|
  {
    if |key| > 0 {
      assert (key + rest)[1..] == key[1..] + rest;
      WordLengthOf(key[1..], rest);
    } else {
      assert key + rest == rest;
    }
  }

  lemma {:induction false} FillTemplatePrefix(before: string, t: string, data: map<string, string>)
    requires '{' !in before
    ensures FillTemplate(before + t, data) == before + FillTemplate(t, data)
  {
    if |before| > 0 {
      assert before[0] in before;
      assert (before + t)[0] == before[0];
      assert (before + t)[1..] == before[1..] + t;
      FillTemplatePrefix(before[1..], t, data);
      assert before == [before[0]] + before[1..];
    } else {
      assert before + t == t;
    }
  }

  /**
   * `toUpperCase` on one character of the Latin-1 range: the ASCII and
   * Latin-1 lower-case letters map to their capitals, 'ß' to "SS", 'ÿ' to
   * 'Ÿ' and the micro sign to the Greek capital mu; every other character
   * is kept.
   */
  function UpperChar(c: char): (u: string)
    ensures ('a' <= c <= 'z' || ('\U{E0}' <= c <= '\U{FE}' && c != '\U{F7}')) ==> u == [(c as int - 32) as char]
    ensures c == '\U{DF}' ==> u == "SS"
    ensures c == '\U{FF}' ==> u == ['\U{178}']
    ensures c == '\U{B5}' ==> u == ['\U{39C}']
    ensures !Lower(c) ==> u == [c]
  {
    if 'a' <= c <= 'z' || ('\U{E0}' <= c <= '\U{FE}' && c != '\U{F7}') then [(c as int - 32) as char]
    else if c == '\U{DF}' then "SS"
    else if c == '\U{FF}' then ['\U{178}']
    else if c == '\U{B5}' then ['\U{39C}']
    else [c]
  }

  /** The characters `UpperChar` changes: the lower-case letters of the Latin-1 range. */
  predicate Lower(c: char) {
    'a' <= c <= 'z' || ('\U{DF}' <= c <= '\U{FF}' && c != '\U{F7}') || c == '\U{B5}'
  }

  /** Upper-casing a character gives characters that upper-casing keeps. */
  lemma UpperCharIdempotent(c: char)
    ensures forall i :: 0 <= i < |UpperChar(c)| ==> !Lower(UpperChar(c)[i])
    ensures |UpperChar(c)| == (if c == '\U{DF}' then 2 else 1)
  {
  }

  /**
   * dui_methods.js `capitalizeFirstChar`: the first character upper-cased,
   * the rest kept; only 'ß' makes the result longer.
   */
  function CapitalizeFirstChar(text: string): (s: string)
    ensures |s| == |text| + (if |text| > 0 && text[0] == '\U{DF}' then 1 else 0)
    ensures |text| > 0 ==> !Lower(s[0]) && s[|s| - (|text| - 1)..] == text[1..]
    ensures |text| > 0 && !Lower(text[0]) ==> s == text
    ensures |text| == 0 ==> s == ""
  {
    if |text| == 0 then "" else UpperChar(text[0]) + text[1..]
  }

  /** Capitalizing twice is capitalizing once. */
  lemma CapitalizeIdempotent(text: string)
    ensures CapitalizeFirstChar(CapitalizeFirstChar(text)) == CapitalizeFirstChar(text)
  {
  }
}
