/**
 * apps/exercises/index.js: the older decisions-under-ignorance page. Its
 * lexical solver keeps every row of the table for the whole run and, in
 * place of dropping one copy of the chosen value, overwrites every copy
 * of it in the surviving rows with a sentinel (201 for Maximin, 0 for
 * Minimax). Tables shown on the page hold a decision label followed by
 * the payoffs of that decision.
 */
module DuiLegacy {
  import opened DuiLexical
  import DuiRules
  import Text

  /** `row.map(value => value === result ? replaceValue : value)`. */
  function Replace(row: seq<int>, v: int, s: int): (r: seq<int>)
    ensures |r| == |row|
    ensures forall j :: 0 <= j < |row| ==> r[j] == (if row[j] == v then s else row[j])
  {
    seq(|row|, j requires 0 <= j < |row| => if row[j] == v then s else row[j])
  }

  /** `Replace` on every row. */
  function ReplaceEach(values: seq<seq<int>>, v: int, s: int): (r: seq<seq<int>>)
    ensures |r| == |values|
    ensures forall i :: 0 <= i < |values| ==> r[i] == Replace(values[i], v, s)
  {
    seq(|values|, i requires 0 <= i < |values| => Replace(values[i], v, s))
  }

  /** A working table: at least one row, and every row has the same, non-zero width. */
  ghost predicate Working(values: seq<seq<int>>, decisions: seq<string>, width: nat) {
    |values| > 0 && |decisions| == |values| && width > 0 && Rect(values, width)
  }

  /** What one pass of the loop produces: the chosen value and the working table and decisions after it. */
  datatype Pass = Pass(value: int, rows: seq<seq<int>>, survivors: seq<string>)

  /**
   * One pass of `solveLexicalProblem`: keep the rows whose key equals the
   * best key, with their decisions, and overwrite that value with the
   * sentinel everywhere in the kept rows.
   */
  function PassOf(values: seq<seq<int>>, decisions: seq<string>, kind: Kind, sentinel: int): (p: Pass)
    requires Working(values, decisions, Width(values))
    ensures Working(p.rows, p.survivors, Width(values)) && Width(p.rows) == Width(values)
  {
    var keys := Keys(values, kind);
    var v := Best(keys, kind);
    var kept := Keep(values, keys, v);
    KeepSound(values, keys, v);
    forall r | r in kept
      ensures |r| == Width(values)
    {
      var i :| 0 <= i < |values| && keys[i] == v && values[i] == r;
    }
    assert kept[0] in kept;
    Pass(v, ReplaceEach(kept, v, sentinel), Keep(decisions, keys, v))
  }

  /**
   * The passes from step `steps` on, with the loop's two exits: one
   * decision left, or `maxControl` passes run.
   */
  function PassesFrom(values: seq<seq<int>>, decisions: seq<string>, kind: Kind, sentinel: int, steps: nat, maxControl: nat): Solution
    requires Working(values, decisions, Width(values)) && steps < maxControl
    decreases maxControl - steps
  {
    var p := PassOf(values, decisions, kind, sentinel);
    if |p.survivors| == 1 || steps + 1 == maxControl then Solution(steps + 1, p.value, p.survivors)
    else PassesFrom(p.rows, p.survivors, kind, sentinel, steps + 1, maxControl)
  }

  /** `PassOf` spelled out, for the loop that computes it step by step. */
  lemma PassOfIs(values: seq<seq<int>>, decisions: seq<string>, kind: Kind, sentinel: int)
    requires Working(values, decisions, Width(values))
    ensures var keys := Keys(values, kind);
      var v := Best(keys, kind);
      PassOf(values, decisions, kind, sentinel) == Pass(v, ReplaceEach(Keep(values, keys, v), v, sentinel), Keep(decisions, keys, v))
  {
  }

  /** One unfolding of `PassesFrom`. */
  lemma PassesFromStep(values: seq<seq<int>>, decisions: seq<string>, kind: Kind, sentinel: int, steps: nat, maxControl: nat)
    requires Working(values, decisions, Width(values)) && steps < maxControl
    ensures var p := PassOf(values, decisions, kind, sentinel);
      PassesFrom(values, decisions, kind, sentinel, steps, maxControl) ==
        if |p.survivors| == 1 || steps + 1 == maxControl then Solution(steps + 1, p.value, p.survivors)
        else PassesFrom(p.rows, p.survivors, kind, sentinel, steps + 1, maxControl)
  {
    hide PassOf;
  }

  /**
   * The body of the loop: the selected value of every row, the value
   * chosen among them, and the rows and decisions kept, with that value
   * overwritten.
   */
  method RunPass(workingTable: seq<seq<int>>, workingDecisions: seq<string>, kind: Kind, sentinel: int)
    returns (result: int, rows: seq<seq<int>>, survivors: seq<string>)
    requires Working(workingTable, workingDecisions, Width(workingTable))
    ensures Pass(result, rows, survivors) == PassOf(workingTable, workingDecisions, kind, sentinel)
  {
    PassOfIs(workingTable, workingDecisions, kind, sentinel);
    var selectedValues := Keys(workingTable, kind);
    result := Best(selectedValues, kind);
    rows := ReplaceEach(Keep(workingTable, selectedValues, result), result, sentinel);
    survivors := Keep(workingDecisions, selectedValues, result);
  }

  /**
   * `solveLexicalProblem`: repeat passes until one decision is left or
   * the number of passes reaches the number of states minus one. The two
   * `selectFn`/`chooseFn` pairs the page uses are the two kinds:
   * (`Math.min`, `Math.max`) is Maximin and (`Math.max`, `Math.min`) is
   * Minimax.
   */
  method SolveLexicalProblem(table: seq<seq<int>>, decisions: seq<string>, sentinel: int, kind: Kind)
    returns (solution: Solution)
    requires Working(table, decisions, Width(table)) && Width(table) >= 2
    ensures solution == PassesFrom(table, decisions, kind, sentinel, 0, Width(table) - 1)
  {
    var workingTable := table;
    var workingDecisions := decisions;
    var maxControl := |table[0]| - 1;
    solution := Solution(0, 0, []);
    while true
      invariant Working(workingTable, workingDecisions, Width(table)) && Width(workingTable) == Width(table)
      invariant solution.steps < maxControl
      invariant PassesFrom(workingTable, workingDecisions, kind, sentinel, solution.steps, maxControl)
        == PassesFrom(table, decisions, kind, sentinel, 0, maxControl)
      decreases maxControl - solution.steps
    {
      PassesFromStep(workingTable, workingDecisions, kind, sentinel, solution.steps, maxControl);
      var result;
      result, workingTable, workingDecisions := RunPass(workingTable, workingDecisions, kind, sentinel);
      solution := Solution(solution.steps + 1, result, workingDecisions);
      var remaining := |workingDecisions|;
      if remaining == 1 {
        break;
      }
      if solution.steps == maxControl {
        break;
      }
    }
  }

  /**
   * A pass chooses the best key and keeps exactly the decisions whose row
   * has that key, in their order.
   */
  lemma PassMeaning(values: seq<seq<int>>, decisions: seq<string>, kind: Kind, sentinel: int)
    requires Working(values, decisions, Width(values))
    ensures var keys := Keys(values, kind);
      var p := PassOf(values, decisions, kind, sentinel);
      && p.value == Best(keys, kind)
      && (forall i :: 0 <= i < |values| && keys[i] == p.value ==> decisions[i] in p.survivors)
      && (forall d :: d in p.survivors ==> exists i :: 0 <= i < |values| && keys[i] == p.value && decisions[i] == d)
      && Subsequence(p.survivors, decisions)
  {
    var keys := Keys(values, kind);
    var v := Best(keys, kind);
    KeepComplete(decisions, keys, v);
    KeepSound(decisions, keys, v);
    KeepSubsequence(decisions, keys, v);
  }

  /**
   * Every row a pass keeps is a row whose key is the chosen value, with
   * every copy of that value, and nothing else, overwritten by the
   * sentinel.
   */
  lemma PassRows(values: seq<seq<int>>, decisions: seq<string>, kind: Kind, sentinel: int)
    requires Working(values, decisions, Width(values))
    ensures var keys := Keys(values, kind);
      var p := PassOf(values, decisions, kind, sentinel);
      && p.value == Best(keys, kind)
      && forall r :: r in p.rows ==> exists i :: 0 <= i < |values| && keys[i] == p.value && r == Replace(values[i], p.value, sentinel)
  {
    var keys := Keys(values, kind);
    var v := Best(keys, kind);
    var kept := Keep(values, keys, v);
    KeepSound(values, keys, v);
    forall r | r in PassOf(values, decisions, kind, sentinel).rows
      ensures exists i :: 0 <= i < |values| && keys[i] == v && r == Replace(values[i], v, sentinel)
    {
      var k :| 0 <= k < |kept| && ReplaceEach(kept, v, sentinel)[k] == r;
      assert kept[k] in kept;
      var i :| 0 <= i < |values| && keys[i] == v && values[i] == kept[k];
    }
  }

  /**
   * The loop runs between 1 and `maxControl` passes and ends with a
   * non-empty, order-preserving selection of the decisions; it stops
   * early only when one decision is left.
   */
  lemma {:induction false} PassesBounds(values: seq<seq<int>>, decisions: seq<string>, kind: Kind, sentinel: int, steps: nat, maxControl: nat)
    requires Working(values, decisions, Width(values)) && steps < maxControl
    ensures var s := PassesFrom(values, decisions, kind, sentinel, steps, maxControl);
      && steps + 1 <= s.steps <= maxControl
      && |s.bestDecision| >= 1
      && Subsequence(s.bestDecision, decisions)
      && (s.steps < maxControl ==> |s.bestDecision| == 1)
    decreases maxControl - steps
  {
    hide PassOf;
    var p := PassOf(values, decisions, kind, sentinel);
    PassMeaning(values, decisions, kind, sentinel);
    if !(|p.survivors| == 1 || steps + 1 == maxControl) {
      PassesBounds(p.rows, p.survivors, kind, sentinel, steps + 1, maxControl);
      SubsequenceTransitive(PassesFrom(p.rows, p.survivors, kind, sentinel, steps + 1, maxControl).bestDecision, p.survivors, decisions);
    }
  }

  /**
   * On a table of two states or more the solver runs between 1 and
   * (number of states − 1) passes and recommends a non-empty selection
   * of the decisions, in their order; fewer passes mean a single winner.
   */
  lemma SolveBounds(table: seq<seq<int>>, decisions: seq<string>, sentinel: int, kind: Kind)
    requires Working(table, decisions, Width(table)) && Width(table) >= 2
    ensures var s := PassesFrom(table, decisions, kind, sentinel, 0, Width(table) - 1);
      && 1 <= s.steps <= Width(table) - 1
      && |s.bestDecision| >= 1
      && Subsequence(s.bestDecision, decisions)
      && (s.steps < Width(table) - 1 ==> |s.bestDecision| == 1)
  {
    PassesBounds(table, decisions, kind, sentinel, 0, Width(table) - 1);
  }

  /**
   * The Maximin sentinel never hides a payoff: in a row whose minimum is
   * `v`, once every `v` becomes a sentinel above all entries, the new
   * minimum is the smallest entry above `v`, or the sentinel when there
   * is none.
   */
  lemma MaximinSentinelRaises(row: seq<int>, v: int, sentinel: int)
    requires |row| > 0 && MinOf(row) == v && v < sentinel
    requires forall j :: 0 <= j < |row| ==> row[j] <= sentinel
    ensures var m := MinOf(Replace(row, v, sentinel));
      && v < m <= sentinel
      && (forall j :: 0 <= j < |row| && row[j] > v ==> m <= row[j])
      && (m < sentinel ==> m in row)
  {
    var r := Replace(row, v, sentinel);
    var m := MinOf(r);
    var k :| 0 <= k < |r| && r[k] == m;
    forall j | 0 <= j < |row| && row[j] > v
      ensures m <= row[j]
    {
      assert r[j] == row[j];
    }
  }

  /**
   * The Minimax sentinel 0 never hides a regret: in a row of regrets
   * (all at least 0) whose maximum is `v` > 0, once every `v` becomes 0
   * the new maximum is the largest regret below `v`, or 0.
   */
  lemma MinimaxSentinelLowers(row: seq<int>, v: int)
    requires |row| > 0 && MaxOf(row) == v && v > 0
    requires forall j :: 0 <= j < |row| ==> row[j] >= 0
    ensures var m := MaxOf(Replace(row, v, 0));
      && 0 <= m < v
      && (forall j :: 0 <= j < |row| && row[j] < v ==> row[j] <= m)
      && (m > 0 ==> m in row)
  {
    var r := Replace(row, v, 0);
    var m := MaxOf(r);
    var k :| 0 <= k < |r| && r[k] == m;
    forall j | 0 <= j < |row| && row[j] < v
      ensures row[j] <= m
    {
      assert r[j] == row[j];
    }
  }

  /** One kept row after a Maximin pass. */
  lemma MaximinRowAfter(row: seq<int>, v: int, r: seq<int>)
    requires |row| > 0 && MinOf(row) == v && r == Replace(row, v, 201)
    requires forall j :: 0 <= j < |row| ==> 0 <= row[j] <= 201
    ensures forall j :: 0 <= j < |r| ==> 0 <= r[j] <= 201
    ensures v < 201 ==> MinOf(r) > v
  {
    if v < 201 {
      MaximinSentinelRaises(row, v, 201);
    }
  }

  /** One kept row after a Minimax pass. */
  lemma MinimaxRowAfter(row: seq<int>, v: int, r: seq<int>)
    requires |row| > 0 && MaxOf(row) == v && r == Replace(row, v, 0)
    requires forall j :: 0 <= j < |row| ==> 0 <= row[j] <= 200
    ensures forall j :: 0 <= j < |r| ==> 0 <= r[j] <= 200
    ensures v > 0 ==> MaxOf(r) < v
  {
    if v > 0 {
      MinimaxSentinelLowers(row, v);
    }
  }

  /** After a Maximin pass whose value is below 201, every kept row lies in [0, 201] and has a larger minimum. */
  lemma MaximinPassRows(values: seq<seq<int>>, decisions: seq<string>)
    requires Working(values, decisions, Width(values)) && Within(values, 0, 201)
    ensures var p := PassOf(values, decisions, Maximin, 201);
      forall r :: r in p.rows ==>
        && (forall j :: 0 <= j < |r| ==> 0 <= r[j] <= 201)
        && (p.value < 201 ==> MinOf(r) > p.value)
  {
    hide PassOf;
    var p := PassOf(values, decisions, Maximin, 201);
    PassRows(values, decisions, Maximin, 201);
    var keys := Keys(values, Maximin);
    forall r | r in p.rows
      ensures forall j :: 0 <= j < |r| ==> 0 <= r[j] <= 201
      ensures p.value < 201 ==> MinOf(r) > p.value
    {
      var i :| 0 <= i < |values| && keys[i] == p.value && r == Replace(values[i], p.value, 201);
      MaximinRowAfter(values[i], p.value, r);
    }
  }

  /** After a Minimax pass whose value is above 0, every kept row lies in [0, 200] and has a smaller maximum. */
  lemma MinimaxPassRows(values: seq<seq<int>>, decisions: seq<string>)
    requires Working(values, decisions, Width(values)) && Within(values, 0, 200)
    ensures var p := PassOf(values, decisions, Minimax, 0);
      forall r :: r in p.rows ==>
        && (forall j :: 0 <= j < |r| ==> 0 <= r[j] <= 200)
        && (p.value > 0 ==> MaxOf(r) < p.value)
  {
    hide PassOf;
    var p := PassOf(values, decisions, Minimax, 0);
    PassRows(values, decisions, Minimax, 0);
    var keys := Keys(values, Minimax);
    forall r | r in p.rows
      ensures forall j :: 0 <= j < |r| ==> 0 <= r[j] <= 200
      ensures p.value > 0 ==> MaxOf(r) < p.value
    {
      var i :| 0 <= i < |values| && keys[i] == p.value && r == Replace(values[i], p.value, 0);
      MinimaxRowAfter(values[i], p.value, r);
    }
  }

  /** The value a pass chooses is the key of one of its rows. */
  lemma PassValueIsKey(values: seq<seq<int>>, decisions: seq<string>, kind: Kind, sentinel: int)
    requires Working(values, decisions, Width(values))
    ensures exists k :: 0 <= k < |values| && PassOf(values, decisions, kind, sentinel).value == RowKey(values[k], kind)
  {
    var keys := Keys(values, kind);
    var k :| 0 <= k < |keys| && keys[k] == Best(keys, kind);
  }

  /** A table whose entries all lie in [lo, hi] row by row. */
  ghost predicate Within(values: seq<seq<int>>, lo: int, hi: int) {
    forall r :: r in values ==> forall j :: 0 <= j < |r| ==> lo <= r[j] <= hi
  }

  /**
   * Lexical Maximin with sentinel 201 on payoffs in [0, 201] (every
   * table the page draws has payoffs at most 200): while the chosen value
   * is below the sentinel, the next pass chooses a strictly larger one.
   */
  lemma MaximinPassesRise(values: seq<seq<int>>, decisions: seq<string>)
    requires Working(values, decisions, Width(values)) && Within(values, 0, 201)
    ensures var p := PassOf(values, decisions, Maximin, 201);
      && Within(p.rows, 0, 201)
      && (p.value < 201 ==> PassOf(p.rows, p.survivors, Maximin, 201).value > p.value)
  {
    hide PassOf;
    var p := PassOf(values, decisions, Maximin, 201);
    MaximinPassRows(values, decisions);
    if p.value < 201 {
      PassValueIsKey(p.rows, p.survivors, Maximin, 201);
      var k :| 0 <= k < |p.rows| && PassOf(p.rows, p.survivors, Maximin, 201).value == RowKey(p.rows[k], Maximin);
      assert p.rows[k] in p.rows;
    }
  }

  /**
   * Lexical Minimax with sentinel 0 on regrets in [0, 200]: while the
   * chosen value is above 0, the next pass chooses a strictly smaller one.
   */
  lemma MinimaxPassesFall(values: seq<seq<int>>, decisions: seq<string>)
    requires Working(values, decisions, Width(values)) && Within(values, 0, 200)
    ensures var p := PassOf(values, decisions, Minimax, 0);
      && Within(p.rows, 0, 200)
      && (p.value > 0 ==> PassOf(p.rows, p.survivors, Minimax, 0).value < p.value)
  {
    hide PassOf;
    var p := PassOf(values, decisions, Minimax, 0);
    MinimaxPassRows(values, decisions);
    if p.value > 0 {
      PassValueIsKey(p.rows, p.survivors, Minimax, 0);
      var k :| 0 <= k < |p.rows| && PassOf(p.rows, p.survivors, Minimax, 0).value == RowKey(p.rows[k], Minimax);
      assert p.rows[k] in p.rows;
    }
  }

  /** A cell of a page table: a label or a number. */
  datatype Cell = Label(text: string) | Number(value: int)

  /** A page table: its header row and its body rows. */
  datatype Table = Table(headers: seq<string>, rows: seq<seq<Cell>>)

  /** `String(cell)`. */
  function CellString(c: Cell): string {
    match c
    case Label(text) => text
    case Number(value) => Text.IntToString(value)
  }

  /** A problem table: every row is a label followed by the payoffs of that decision. */
  ghost predicate ProblemRows(t: Table) {
    forall i :: 0 <= i < |t.rows| ==> |t.rows[i]| >= 1 && forall j :: 1 <= j < |t.rows[i]| ==> t.rows[i][j].Number?
  }

  /** `row.slice(1).map(Number)`. */
  function NumbersOf(cells: seq<Cell>): (ns: seq<int>)
    requires forall j :: 0 <= j < |cells| ==> cells[j].Number?
    ensures |ns| == |cells| && forall j :: 0 <= j < |cells| ==> ns[j] == cells[j].value
  {
    seq(|cells|, j requires 0 <= j < |cells| => cells[j].value)
  }

  /** `problemTable.rows.map(row => String(row[0]))`. */
  function DecisionsOf(t: Table): (ds: seq<string>)
    requires ProblemRows(t)
    ensures |ds| == |t.rows|
  {
    seq(|t.rows|, i requires 0 <= i < |t.rows| => CellString(t.rows[i][0]))
  }

  /** `problemTable.rows.map(row => row.slice(1).map(Number))`. */
  function StatesOf(t: Table): (values: seq<seq<int>>)
    requires ProblemRows(t)
    ensures |values| == |t.rows|
    ensures forall i :: 0 <= i < |t.rows| ==> |values[i]| == |t.rows[i]| - 1
  {
    seq(|t.rows|, i requires 0 <= i < |t.rows| => NumbersOf(t.rows[i][1..]))
  }

  /**
   * `addOrderedValuesColumn`: one more header, and one more cell at the
   * end of every row holding its payoffs in order; the existing cells
   * stay as they were.
   */
  function AddOrderedValuesColumn(t: Table, reverse: bool, orderedLabel: string): (r: Table)
    requires ProblemRows(t)
    ensures r.headers == t.headers + [orderedLabel]
    ensures |r.rows| == |t.rows|
    ensures forall i :: 0 <= i < |t.rows| ==>
      && |r.rows[i]| == |t.rows[i]| + 1
      && r.rows[i][..|t.rows[i]|] == t.rows[i]
      && r.rows[i][|t.rows[i]|] == Label(DuiRules.OrderedValuesString(StatesOf(t)[i], reverse))
  {
    var values := StatesOf(t);
    Table(t.headers + [orderedLabel],
      seq(|t.rows|, i requires 0 <= i < |t.rows| =>
        t.rows[i] + [Label(DuiRules.OrderedValuesString(values[i], reverse))]))
  }

  /** The rows of a problem table as a working table for the solver. */
  ghost predicate Solvable(t: Table) {
    ProblemRows(t) && |t.rows| > 0 && Rect(StatesOf(t), Width(StatesOf(t))) && Width(StatesOf(t)) >= 2
  }

  /**
   * `solveMaximin`: lexical Maximin with sentinel 201, and the table with
   * every row's payoffs listed in ascending order.
   */
  method SolveMaximin(problem: Table, orderedLabel: string) returns (table: Table, solution: Solution)
    requires Solvable(problem)
    ensures var values := StatesOf(problem);
      solution == PassesFrom(values, DecisionsOf(problem), Maximin, 201, 0, Width(values) - 1)
    ensures table == AddOrderedValuesColumn(problem, false, orderedLabel)
  {
    var decisions := DecisionsOf(problem);
    var statesTable := StatesOf(problem);
    solution := SolveLexicalProblem(statesTable, decisions, 201, Maximin);
    table := AddOrderedValuesColumn(problem, false, orderedLabel);
  }

  /** `Array.from({ length: n }, (_, i) => "RS" + (i + 1))`. */
  function RegretHeaders(n: nat): (hs: seq<string>)
    ensures |hs| == n
    ensures forall i :: 0 <= i < n ==> hs[i] == "RS" + Text.IntToString(i + 1)
  {
    seq(n, i requires 0 <= i < n => "RS" + Text.IntToString(i + 1))
  }

  /** The regret table as shown: the decision label, then the regrets of that decision. */
  function RegretDisplay(decisionsLabel: string, decisions: seq<string>, regrets: seq<seq<int>>, width: nat): (t: Table)
    requires |decisions| == |regrets|
    ensures ProblemRows(t) && |t.rows| == |regrets|
    ensures StatesOf(t) == regrets
  {
    var t := Table([decisionsLabel] + RegretHeaders(width),
      seq(|regrets|, i requires 0 <= i < |regrets| => [Label(decisions[i])] + seq(|regrets[i]|, j requires 0 <= j < |regrets[i]| => Number(regrets[i][j]))));
    assert forall i :: 0 <= i < |regrets| ==> t.rows[i][1..] == seq(|regrets[i]|, j requires 0 <= j < |regrets[i]| => Number(regrets[i][j]));
    assert forall i :: 0 <= i < |regrets| ==> StatesOf(t)[i] == regrets[i];
    t
  }

  /**
   * `solveMinimax`: the regret table (best payoff of the state minus the
   * payoff), lexical Minimax on it with sentinel 0, and the regret table
   * with every row's regrets listed in descending order.
   */
  method SolveMinimax(problem: Table, decisionsLabel: string, orderedLabel: string) returns (table: Table, solution: Solution)
    requires Solvable(problem)
    ensures var values := StatesOf(problem);
      var regrets := DuiRules.RegretTable(values);
      && solution == PassesFrom(regrets, DecisionsOf(problem), Minimax, 0, 0, Width(values) - 1)
      && table == AddOrderedValuesColumn(RegretDisplay(decisionsLabel, DecisionsOf(problem), regrets, Width(values)), true, orderedLabel)
  {
    var decisions := DecisionsOf(problem);
    var statesTable := StatesOf(problem);
    var regretRows := DuiRules.RegretTable(statesTable);
    solution := SolveLexicalProblem(regretRows, decisions, 0, Minimax);
    table := AddOrderedValuesColumn(RegretDisplay(decisionsLabel, decisions, regretRows, Width(statesTable)), true, orderedLabel);
  }

  // ------------------------------------------------------ the code as written

  /*
   * `selectRowValue` hands the whole row to `Math.min`/`Math.max` as one
   * argument, and the solver hands the whole list of selected values to
   * the choosing function the same way. With one array argument both
   * functions convert the array to a number, which is the number its
   * comma-joined text denotes: 0 for no element, the element itself for
   * one, and NaN for two or more. The definitions below follow that
   * code; the definitions above follow the evident intent
   * (`Math.min(...row)`, as the newer page does).
   */

  /** A number as the as-written solver produces it: an integer or NaN. */
  datatype JsNumber = Num(n: int) | NaN

  /** `Math.min(arr)` and `Math.max(arr)` alike: `Number(arr.join(","))`. */
  function ArrayToNumber(xs: seq<JsNumber>): (r: JsNumber)
    ensures |xs| == 0 ==> r == Num(0)
    ensures |xs| == 1 ==> r == xs[0]
    ensures |xs| >= 2 ==> r == NaN
  {
    if |xs| == 0 then Num(0) else if |xs| == 1 then xs[0] else NaN
  }

  /** The payoffs of a row as numbers. */
  function Nums(row: seq<int>): (r: seq<JsNumber>)
    ensures |r| == |row|
    ensures forall j :: 0 <= j < |row| ==> r[j] == Num(row[j])
  {
    seq(|row|, j requires 0 <= j < |row| => Num(row[j]))
  }

  /** `===` on numbers: NaN equals nothing, itself included. */
  predicate StrictEq(a: JsNumber, b: JsNumber) {
    a.Num? && b.Num? && a.n == b.n
  }

  /** `selectRowValue(row, selectFn)` as written, for either function. */
  function RowSelectAsWritten(row: seq<int>): (r: JsNumber)
    ensures |row| >= 2 ==> r == NaN
    ensures |row| == 1 ==> r == Num(row[0])
  {
    ArrayToNumber(Nums(row))
  }

  /** The selected value of every row, as written. */
  function KeysAsWritten(rows: seq<seq<int>>): (keys: seq<JsNumber>)
    ensures |keys| == |rows|
    ensures forall i :: 0 <= i < |rows| ==> keys[i] == RowSelectAsWritten(rows[i])
  {
    seq(|rows|, i requires 0 <= i < |rows| => RowSelectAsWritten(rows[i]))
  }

  /** How many keys are `===` to `v` (`selection.filter(Boolean).length`). */
  function CountStrict(keys: seq<JsNumber>, v: JsNumber): (n: nat)
    ensures n <= |keys|
  {
    if |keys| == 0 then 0 else (if StrictEq(keys[0], v) then 1 else 0) + CountStrict(keys[1..], v)
  }

  /** The entries of `xs` whose key is `===` to `v`, in order. */
  function KeepStrict<T>(xs: seq<T>, keys: seq<JsNumber>, v: JsNumber): (r: seq<T>)
    requires |xs| == |keys|
    ensures |r| == CountStrict(keys, v)
    ensures forall x :: x in r ==> x in xs
  {
    if |xs| == 0 then []
    else (if StrictEq(keys[0], v) then [xs[0]] else []) + KeepStrict(xs[1..], keys[1..], v)
  }

  /** The overwrite step as written: no entry is `===` to NaN, so NaN overwrites nothing. */
  function ReplaceStrict(rows: seq<seq<int>>, v: JsNumber, s: int): (r: seq<seq<int>>)
    ensures |r| == |rows|
  {
    if v.Num? then ReplaceEach(rows, v.n, s) else rows
  }

  /** The solution object as written: `results` may be NaN. */
  datatype JsSolution = JsSolution(steps: nat, results: JsNumber, bestDecision: seq<string>)

  /** The passes of `solveLexicalProblem` as written, from step `steps` on. */
  function PassesAsWritten(rows: seq<seq<int>>, decisions: seq<string>, sentinel: int, steps: nat, maxControl: nat): (r: JsSolution)
    requires |rows| == |decisions| && steps < maxControl
    ensures steps < r.steps <= maxControl
    ensures |r.bestDecision| <= |decisions|
    ensures forall d :: d in r.bestDecision ==> d in decisions
    decreases maxControl - steps
  {
    var keys := KeysAsWritten(rows);
    var result := ArrayToNumber(keys);
    var kept := ReplaceStrict(KeepStrict(rows, keys, result), result, sentinel);
    var survivors := KeepStrict(decisions, keys, result);
    if |survivors| == 1 || steps + 1 == maxControl then JsSolution(steps + 1, result, survivors)
    else PassesAsWritten(kept, survivors, sentinel, steps + 1, maxControl)
  }

  /** `solveLexicalProblem(table, decisions, sentinel, Math.min, Math.max)` (or the Minimax pair) as written. */
  function SolveAsWritten(table: seq<seq<int>>, decisions: seq<string>, sentinel: int): (r: JsSolution)
    requires |table| > 0 && |decisions| == |table| && |table[0]| >= 2
    ensures 1 <= r.steps <= |table[0]| - 1
    ensures forall d :: d in r.bestDecision ==> d in decisions
  {
    PassesAsWritten(table, decisions, sentinel, 0, |table[0]| - 1)
  }

  /** Nothing is `===` to NaN, so keeping by NaN keeps nothing. */
  lemma {:induction false} KeepStrictNaN<T>(xs: seq<T>, keys: seq<JsNumber>)
    requires |xs| == |keys|
    ensures KeepStrict(xs, keys, NaN) == []
    decreases |xs|
  {
    if |xs| > 0 {
      KeepStrictNaN(xs[1..], keys[1..]);
    }
  }

  /** Once the table is empty every later pass chooses 0 and keeps nothing, until the pass limit. */
  lemma {:induction false} EmptyPassesAsWritten(sentinel: int, steps: nat, maxControl: nat)
    requires steps < maxControl
    ensures PassesAsWritten([], [], sentinel, steps, maxControl) == JsSolution(maxControl, Num(0), [])
    decreases maxControl - steps
  {
    if steps + 1 < maxControl {
      EmptyPassesAsWritten(sentinel, steps + 1, maxControl);
    }
  }

  /**
   * The solver as written never picks a decision: on any table whose rows
   * hold two or more payoffs, the first pass selects NaN for every row,
   * keeps nothing, and the remaining passes choose 0 until the pass limit.
   */
  lemma AsWrittenSelectsNothing(table: seq<seq<int>>, decisions: seq<string>, sentinel: int)
    requires |table| > 0 && |decisions| == |table| && Rect(table, Width(table)) && Width(table) >= 2
    ensures SolveAsWritten(table, decisions, sentinel)
      == JsSolution(Width(table) - 1, if Width(table) == 2 then NaN else Num(0), [])
  {
    var keys := KeysAsWritten(table);
    assert table[0] == table[0];
    assert keys[0] == NaN;
    assert ArrayToNumber(keys) == NaN;
    KeepStrictNaN(table, keys);
    KeepStrictNaN(decisions, keys);
    if Width(table) > 2 {
      EmptyPassesAsWritten(sentinel, 1, Width(table) - 1);
    }
  }

  /**
   * The smallest table that shows the difference: Maximin on
   * `[[1, 2], [3, 4]]` picks D2 with value 3, while the code as written
   * ends with NaN and no decision.
   */
  lemma AsWrittenDiffersFromIntended()
    ensures SolveAsWritten([[1, 2], [3, 4]], ["D1", "D2"], 201) == JsSolution(1, NaN, [])
    ensures PassesFrom([[1, 2], [3, 4]], ["D1", "D2"], Maximin, 201, 0, 1) == Solution(1, 3, ["D2"])
  {
    var t := [[1, 2], [3, 4]];
    AsWrittenSelectsNothing(t, ["D1", "D2"], 201);
    assert Working(t, ["D1", "D2"], Width(t));
    var keys := Keys(t, Maximin);
    assert keys == [1, 3];
    assert Best(keys, Maximin) == 3;
    assert Keep(["D1", "D2"], keys, 3) == ["D2"];
    PassesFromStep(t, ["D1", "D2"], Maximin, 201, 0, 1);
    PassOfIs(t, ["D1", "D2"], Maximin, 201);
  }
}
