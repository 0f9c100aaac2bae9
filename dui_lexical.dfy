/**
 * apps/exercises/modules/dui: the lexical Maximin and lexical Minimax
 * solvers for decisions under ignorance. A table holds one row of integer
 * payoffs (or regrets) per decision and one column per state of the world.
 */
module DuiLexical {
  /** Which lexical rule runs: Maximin ranks rows by their minimum, Minimax by their maximum. */
  datatype Kind = Maximin | Minimax

  /** The solver's answer: how many rounds ran, the last value chosen and the decisions left. */
  datatype Solution = Solution(steps: nat, results: int, bestDecision: seq<string>)

  /** Every row has `w` entries. */
  ghost predicate Rect(values: seq<seq<int>>, w: nat) {
    forall i :: 0 <= i < |values| ==> |values[i]| == w
  }

  /** `Math.min(...s)` on a non-empty list. */
  function MinOf(s: seq<int>): (m: int)
    requires |s| > 0
    ensures m in s
    ensures forall i :: 0 <= i < |s| ==> m <= s[i]
  {
    if |s| == 1 then s[0]
    else
      var rest := MinOf(s[1..]);
      assert rest in s;
      if s[0] <= rest then s[0] else rest
  }

  /** `Math.max(...s)` on a non-empty list. */
  function MaxOf(s: seq<int>): (m: int)
    requires |s| > 0
    ensures m in s
    ensures forall i :: 0 <= i < |s| ==> s[i] <= m
  {
    if |s| == 1 then s[0]
    else
      var rest := MaxOf(s[1..]);
      assert rest in s;
      if s[0] >= rest then s[0] else rest
  }

  /** The value a row is ranked by: its minimum for Maximin, its maximum for Minimax. */
  function RowKey(row: seq<int>, kind: Kind): int
    requires |row| > 0
  {
    if kind == Maximin then MinOf(row) else MaxOf(row)
  }

  /** The key of every row (`rowMins` / `rowMaxes`). */
  function Keys(values: seq<seq<int>>, kind: Kind): (keys: seq<int>)
    requires forall i :: 0 <= i < |values| ==> |values[i]| > 0
    ensures |keys| == |values|
    ensures forall i :: 0 <= i < |values| ==> keys[i] == RowKey(values[i], kind)
  {
    seq(|values|, i requires 0 <= i < |values| => RowKey(values[i], kind))
  }

  /** The winning key: the largest row minimum for Maximin, the smallest row maximum for Minimax. */
  function Best(keys: seq<int>, kind: Kind): (v: int)
    requires |keys| > 0
    ensures v in keys
    ensures kind == Maximin ==> forall i :: 0 <= i < |keys| ==> keys[i] <= v
    ensures kind == Minimax ==> forall i :: 0 <= i < |keys| ==> v <= keys[i]
  {
    if kind == Maximin then MaxOf(keys) else MinOf(keys)
  }

  /** The entries of `xs` whose key is `v`, in order (`filter` by the keep mask). */
  function Keep<T, K(==)>(xs: seq<T>, keys: seq<K>, v: K): (r: seq<T>)
    requires |xs| == |keys|
    ensures |r| == multiset(keys)[v]
  {
    if |xs| == 0 then []
    else
      assert keys == [keys[0]] + keys[1..];
      (if keys[0] == v then [xs[0]] else []) + Keep(xs[1..], keys[1..], v)
  }

  /** The position of the first `v` in `row` (`indexOf`), or `|row|` when there is none. */
  function FirstIndex(row: seq<int>, v: int): (i: nat)
    ensures i <= |row| && v !in row[..i]
    ensures i < |row| ==> row[i] == v
  {
    if |row| == 0 then 0
    else if row[0] == v then 0
    else
      var j := FirstIndex(row[1..], v);
      assert row[..j + 1] == [row[0]] + row[1..][..j];
      j + 1
  }

  /** `splice(indexOf(v), 1)`: the row without its first `v`; a row without `v` is kept. */
  function RemoveFirst(row: seq<int>, v: int): (r: seq<int>)
    ensures v !in row ==> r == row
    ensures v in row ==> |r| == |row| - 1 && multiset(r) == multiset(row) - multiset{v}
  {
    var i := FirstIndex(row, v);
    if i == |row| then
      assert row[..i] == row;
      row
    else
      assert row == row[..i] + [v] + row[i + 1..];
      row[..i] + row[i + 1..]
  }

  /** Every row without its first `v`. */
  function RemoveEach(values: seq<seq<int>>, v: int): (r: seq<seq<int>>)
    ensures |r| == |values|
    ensures forall i :: 0 <= i < |values| ==> r[i] == RemoveFirst(values[i], v)
  {
    seq(|values|, i requires 0 <= i < |values| => RemoveFirst(values[i], v))
  }

  /** The width of a table: the length of its first row, or 0 for no rows. */
  function Width(values: seq<seq<int>>): nat {
    if |values| == 0 then 0 else |values[0]|
  }

  /** What one round produces: its value, the surviving decisions and their shrunk rows. */
  datatype Round = Round(value: int, survivors: seq<string>, rest: seq<seq<int>>)

  /**
   * One round: keep the rows whose key is the best key, with their
   * decisions, and drop one copy of the best key from every kept row.
   */
  function RoundOf(values: seq<seq<int>>, decisions: seq<string>, kind: Kind): (r: Round)
    requires Rect(values, Width(values)) && |decisions| == |values|
    requires |values| > 0 && Width(values) > 0
    ensures |r.survivors| >= 1 && |r.rest| == |r.survivors|
    ensures Rect(r.rest, Width(values) - 1) && Width(r.rest) == Width(values) - 1
  {
    var keys := Keys(values, kind);
    var v := Best(keys, kind);
    KeptRows(values, kind);
    Round(v, Keep(decisions, keys, v), RemoveEach(Keep(values, keys, v), v))
  }

  /**
   * The rounds of the lexical solver from the current working table on:
   * stop on no rows or empty rows; otherwise run a round and record it,
   * then stop when one decision is left or once `maxSteps` rounds have
   * run, and go on with the shrunk rows otherwise.
   */
  function LexFrom(values: seq<seq<int>>, decisions: seq<string>, kind: Kind, sol: Solution, maxSteps: nat): Solution
    requires Rect(values, Width(values)) && |decisions| == |values|
    decreases Width(values)
  {
    if |values| == 0 || |values[0]| == 0 then sol
    else
      var r := RoundOf(values, decisions, kind);
      var next := Solution(sol.steps + 1, r.value, r.survivors);
      if |r.survivors| == 1 || next.steps >= maxSteps then next
      else LexFrom(r.rest, r.survivors, kind, next, maxSteps)
  }

  /** The solver's answer for a whole table. */
  function Lex(values: seq<seq<int>>, decisions: seq<string>, kind: Kind): Solution
    requires Rect(values, Width(values)) && |decisions| == |values|
  {
    LexFrom(values, decisions, kind, Solution(0, 0, []), Width(values))
  }

  /**
   * One round keeps at least one row, every kept row has the best key
   * and, once its first copy of the key is dropped, one entry fewer.
   */
  lemma KeptRows(values: seq<seq<int>>, kind: Kind)
    requires |values| > 0 && Width(values) > 0 && Rect(values, Width(values))
    ensures var keys := Keys(values, kind);
      var v := Best(keys, kind);
      var shrunk := RemoveEach(Keep(values, keys, v), v);
      && |shrunk| >= 1
      && Rect(shrunk, Width(values) - 1)
      && Width(shrunk) == Width(values) - 1
  {
    var keys := Keys(values, kind);
    var v := Best(keys, kind);
    KeepSound(values, keys, v);
    var kept := Keep(values, keys, v);
    forall r | r in kept
      ensures v in r && |r| == Width(values)
    {
      var i :| 0 <= i < |values| && keys[i] == v && values[i] == r;
    }
  }

  lemma KeepCons<T, K>(xs: seq<T>, keys: seq<K>, v: K)
    requires |xs| == |keys| && |xs| > 0
    ensures Keep(xs, keys, v) == (if keys[0] == v then [xs[0]] else []) + Keep(xs[1..], keys[1..], v)
  {
  }

  /** Everything `Keep` returns is an entry whose key is `v`. */
  lemma {:induction false} KeepSound<T, K>(xs: seq<T>, keys: seq<K>, v: K)
    requires |xs| == |keys|
    ensures forall x :: x in Keep(xs, keys, v) ==> exists i :: 0 <= i < |xs| && keys[i] == v && xs[i] == x
  {
    if |xs| > 0 {
      var xs', keys' := xs[1..], keys[1..];
      KeepSound(xs', keys', v);
      KeepCons(xs, keys, v);
      forall x | x in Keep(xs, keys, v)
        ensures exists i :: 0 <= i < |xs| && keys[i] == v && xs[i] == x
      {
        if !(keys[0] == v && x == xs[0]) {
          assert x in Keep(xs', keys', v);
          var j :| 0 <= j < |xs'| && keys'[j] == v && xs'[j] == x;
          assert keys[j + 1] == v && xs[j + 1] == x;
        }
      }
    }
  }

  /** Every entry whose key is `v` is kept. */
  lemma {:induction false} KeepComplete<T, K>(xs: seq<T>, keys: seq<K>, v: K)
    requires |xs| == |keys|
    ensures forall i :: 0 <= i < |xs| && keys[i] == v ==> xs[i] in Keep(xs, keys, v)
  {
    if |xs| > 0 {
      var xs', keys' := xs[1..], keys[1..];
      KeepComplete(xs', keys', v);
      KeepCons(xs, keys, v);
      forall i | 0 <= i < |xs| && keys[i] == v
        ensures xs[i] in Keep(xs, keys, v)
      {
        if i > 0 {
          assert keys'[i - 1] == v && xs'[i - 1] == xs[i];
        }
      }
    }
  }

  /** `a` is `b` with some entries deleted, the rest in their order. */
  ghost predicate Subsequence<T>(a: seq<T>, b: seq<T>)
    decreases |b|
  {
    if |a| == 0 then true
    else if |b| == 0 then false
    else (a[0] == b[0] && Subsequence(a[1..], b[1..])) || Subsequence(a, b[1..])
  }

  lemma {:induction false} SubsequenceTransitive<T>(a: seq<T>, b: seq<T>, c: seq<T>)
    requires Subsequence(a, b) && Subsequence(b, c)
    ensures Subsequence(a, c)
    decreases |c|
  {
    if |a| == 0 || |b| == 0 || |c| == 0 {
      return;
    }
    if Subsequence(b, c[1..]) {
      SubsequenceTransitive(a, b, c[1..]);
    } else if a[0] == b[0] && Subsequence(a[1..], b[1..]) {
      SubsequenceTransitive(a[1..], b[1..], c[1..]);
    } else {
      SubsequenceTransitive(a, b[1..], c[1..]);
    }
  }

  /** Filtering keeps order. */
  lemma {:induction false} KeepSubsequence<T, K>(xs: seq<T>, keys: seq<K>, v: K)
    requires |xs| == |keys|
    ensures Subsequence(Keep(xs, keys, v), xs)
  {
    if |xs| > 0 {
      KeepSubsequence(xs[1..], keys[1..], v);
      var rest := Keep(xs[1..], keys[1..], v);
      if keys[0] == v {
        assert Keep(xs, keys, v) == [xs[0]] + rest;
        assert ([xs[0]] + rest)[1..] == rest;
      } else {
        assert Keep(xs, keys, v) == rest;
      }
    }
  }

  /** One unfolding of the round loop on a table with at least one decision and one state. */
  lemma LexFromStep(values: seq<seq<int>>, decisions: seq<string>, kind: Kind, sol: Solution, maxSteps: nat)
    requires Rect(values, Width(values)) && |decisions| == |values|
    requires |values| > 0 && Width(values) > 0
    ensures var r := RoundOf(values, decisions, kind);
      var next := Solution(sol.steps + 1, r.value, r.survivors);
      LexFrom(values, decisions, kind, sol, maxSteps) ==
        if |r.survivors| == 1 || next.steps >= maxSteps then next
        else LexFrom(r.rest, r.survivors, kind, next, maxSteps)
  {
    hide RoundOf;
  }

  /** The survivors of a round are the current decisions with some left out, in order. */
  lemma RoundKeepsOrder(values: seq<seq<int>>, decisions: seq<string>, kind: Kind)
    requires Rect(values, Width(values)) && |decisions| == |values|
    requires |values| > 0 && Width(values) > 0
    ensures Subsequence(RoundOf(values, decisions, kind).survivors, decisions)
  {
    var keys := Keys(values, kind);
    KeepSubsequence(decisions, keys, Best(keys, kind));
  }

  /**
   * From a working table of width w > 0 the solver runs at least one and
   * at most w more rounds, and ends with a non-empty, order-preserving
   * selection of the current decisions.
   */
  lemma {:induction false} LexFromBounds(values: seq<seq<int>>, decisions: seq<string>, kind: Kind, sol: Solution, maxSteps: nat)
    requires Rect(values, Width(values)) && |decisions| == |values|
    requires |values| > 0 && Width(values) > 0
    ensures var r := LexFrom(values, decisions, kind, sol, maxSteps);
      && sol.steps + 1 <= r.steps <= sol.steps + Width(values)
      && |r.bestDecision| >= 1
      && Subsequence(r.bestDecision, decisions)
    decreases Width(values)
  {
    var r := RoundOf(values, decisions, kind);
    var next := Solution(sol.steps + 1, r.value, r.survivors);
    RoundKeepsOrder(values, decisions, kind);
    if |r.survivors| != 1 && next.steps < maxSteps {
      if Width(r.rest) > 0 {
        LexFromBounds(r.rest, r.survivors, kind, next, maxSteps);
        SubsequenceTransitive(LexFrom(r.rest, r.survivors, kind, next, maxSteps).bestDecision, r.survivors, decisions);
      }
    }
  }

  /**
   * On a table with at least one decision and one state the solver runs
   * between 1 and (number of states) rounds and recommends a non-empty
   * selection of the decisions in their original order.
   */
  lemma LexBounds(values: seq<seq<int>>, decisions: seq<string>, kind: Kind)
    requires Rect(values, Width(values)) && |decisions| == |values|
    requires |values| > 0 && Width(values) > 0
    ensures var r := Lex(values, decisions, kind);
      && 1 <= r.steps <= Width(values)
      && |r.bestDecision| >= 1
      && Subsequence(r.bestDecision, decisions)
  {
    LexFromBounds(values, decisions, kind, Solution(0, 0, []), Width(values));
  }

  /** With no decisions or no states no round runs: zero steps, result 0, no decision. */
  lemma LexEmpty(values: seq<seq<int>>, decisions: seq<string>, kind: Kind)
    requires Rect(values, Width(values)) && |decisions| == |values|
    requires |values| == 0 || Width(values) == 0
    ensures Lex(values, decisions, kind) == Solution(0, 0, [])
  {
  }

  /**
   * The value of a round is the maximin value (largest row minimum) or
   * the minimax value (smallest row maximum), and some row attains it.
   */
  lemma RoundValue(values: seq<seq<int>>, decisions: seq<string>, kind: Kind)
    requires Rect(values, Width(values)) && |decisions| == |values|
    requires |values| > 0 && Width(values) > 0
    ensures var v := RoundOf(values, decisions, kind).value;
      && (kind == Maximin ==> forall i :: 0 <= i < |values| ==> MinOf(values[i]) <= v)
      && (kind == Minimax ==> forall i :: 0 <= i < |values| ==> v <= MaxOf(values[i]))
      && (exists i :: 0 <= i < |values| && RowKey(values[i], kind) == v)
  {
    var keys := Keys(values, kind);
    var i :| 0 <= i < |keys| && keys[i] == Best(keys, kind);
  }

  /** A decision survives a round exactly when its row attains the round's value. */
  lemma RoundSurvivors(values: seq<seq<int>>, decisions: seq<string>, kind: Kind)
    requires Rect(values, Width(values)) && |decisions| == |values|
    requires |values| > 0 && Width(values) > 0
    ensures var r := RoundOf(values, decisions, kind);
      && (forall d :: d in r.survivors ==>
            exists i :: 0 <= i < |values| && RowKey(values[i], kind) == r.value && decisions[i] == d)
      && (forall i :: 0 <= i < |values| && RowKey(values[i], kind) == r.value ==> decisions[i] in r.survivors)
  {
    var keys := Keys(values, kind);
    var v := Best(keys, kind);
    var survivors := Keep(decisions, keys, v);
    assert RoundOf(values, decisions, kind).survivors == survivors && RoundOf(values, decisions, kind).value == v;
    assert forall i :: 0 <= i < |values| ==> keys[i] == RowKey(values[i], kind);
    hide *;
    KeepSound(decisions, keys, v);
    KeepComplete(decisions, keys, v);
    forall d | d in survivors
      ensures exists i :: 0 <= i < |values| && RowKey(values[i], kind) == v && decisions[i] == d
    {
      var i :| 0 <= i < |decisions| && keys[i] == v && decisions[i] == d;
      assert RowKey(values[i], kind) == v;
    }
  }

  /**
   * Every row that survives a round loses exactly one entry, one copy of
   * the round's value, and keeps the others.
   */
  lemma RoundShrinks(values: seq<seq<int>>, decisions: seq<string>, kind: Kind)
    requires Rect(values, Width(values)) && |decisions| == |values|
    requires |values| > 0 && Width(values) > 0
    ensures var r := RoundOf(values, decisions, kind);
      forall k :: 0 <= k < |r.rest| ==>
        exists i :: (0 <= i < |values| && RowKey(values[i], kind) == r.value &&
                     r.value in values[i] && multiset(r.rest[k]) == multiset(values[i]) - multiset{r.value})
  {
    var keys := Keys(values, kind);
    var v := Best(keys, kind);
    var kept := Keep(values, keys, v);
    var r := RoundOf(values, decisions, kind);
    assert r.rest == RemoveEach(kept, v) && r.value == v;
    KeepSound(values, keys, v);
    forall k | 0 <= k < |r.rest|
      ensures exists i :: (0 <= i < |values| && RowKey(values[i], kind) == v &&
                           v in values[i] && multiset(r.rest[k]) == multiset(values[i]) - multiset{v})
    {
      assert kept[k] in kept;
      var i :| 0 <= i < |values| && keys[i] == v && values[i] == kept[k];
      assert v in values[i] by {
        if kind == Maximin { assert MinOf(values[i]) in values[i]; } else { assert MaxOf(values[i]) in values[i]; }
      }
    }
  }

  /** When only one row attains the best key, the solver stops after one round with its decision. */
  lemma UniqueBestStopsAtOnce(values: seq<seq<int>>, decisions: seq<string>, kind: Kind)
    requires Rect(values, Width(values)) && |decisions| == |values|
    requires |values| > 0 && Width(values) > 0
    requires var keys := Keys(values, kind); multiset(keys)[Best(keys, kind)] == 1
    ensures var r := Lex(values, decisions, kind);
      r.steps == 1 && r.results == Best(Keys(values, kind), kind) && |r.bestDecision| == 1
  {
  }

  /**
   * Conversely, on a table with two states or more a solver that stops
   * after one round has found a single row attaining the best key.
   */
  lemma OneStepMeansUniqueBest(values: seq<seq<int>>, decisions: seq<string>, kind: Kind)
    requires Rect(values, Width(values)) && |decisions| == |values|
    requires Width(values) >= 2 && Lex(values, decisions, kind).steps == 1
    ensures |values| > 0 && var keys := Keys(values, kind); multiset(keys)[Best(keys, kind)] == 1
  {
    var start := Solution(0, 0, []);
    var r := RoundOf(values, decisions, kind);
    var next := Solution(1, r.value, r.survivors);
    LexFromStep(values, decisions, kind, start, Width(values));
    LexFromBounds(r.rest, r.survivors, kind, next, Width(values));
  }

  /**
   * dui_methods.js `solveLexicalMaximin` / `solveLexicalMinimax`: the
   * working table and decisions are reassigned round by round until one
   * decision is left or the rounds run out.
   */
  method SolveLexical(table: seq<seq<int>>, decisions: seq<string>, kind: Kind) returns (solution: Solution)
    requires Rect(table, Width(table)) && |decisions| == |table|
    ensures solution == Lex(table, decisions, kind)
  {
    var remainingValues := table;
    var remainingDecisions := decisions;
    var maxSteps := Width(table);
    solution := Solution(0, 0, []);
    while |remainingValues| > 0
      invariant Rect(remainingValues, Width(remainingValues)) && |remainingDecisions| == |remainingValues|
      invariant LexFrom(remainingValues, remainingDecisions, kind, solution, maxSteps) == Lex(table, decisions, kind)
      decreases Width(remainingValues)
    {
      if |remainingValues[0]| == 0 {
        break;
      }
      ghost var round := RoundOf(remainingValues, remainingDecisions, kind);
      var rowKeys := Keys(remainingValues, kind);
      var best := Best(rowKeys, kind);
      var keptValues := Keep(remainingValues, rowKeys, best);
      remainingDecisions := Keep(remainingDecisions, rowKeys, best);
      solution := Solution(solution.steps + 1, best, remainingDecisions);
      if |remainingDecisions| == 1 {
        break;
      }
      remainingValues := RemoveEach(keptValues, best);
      assert remainingValues == round.rest && remainingDecisions == round.survivors;
      if solution.steps >= maxSteps {
        break;
      }
    }
  }

  /** dui_methods.js `solveLexicalMaximin`. */
  method SolveLexicalMaximin(table: seq<seq<int>>, decisions: seq<string>) returns (solution: Solution)
    requires Rect(table, Width(table)) && |decisions| == |table|
    ensures solution == Lex(table, decisions, Maximin)
    ensures |table| > 0 && Width(table) > 0 ==>
      1 <= solution.steps <= Width(table) && |solution.bestDecision| >= 1 &&
      Subsequence(solution.bestDecision, decisions)
  {
    solution := SolveLexical(table, decisions, Maximin);
    if |table| > 0 && Width(table) > 0 {
      LexBounds(table, decisions, Maximin);
    }
  }

  /** dui_methods.js `solveLexicalMinimax`. */
  method SolveLexicalMinimax(table: seq<seq<int>>, decisions: seq<string>) returns (solution: Solution)
    requires Rect(table, Width(table)) && |decisions| == |table|
    ensures solution == Lex(table, decisions, Minimax)
    ensures |table| > 0 && Width(table) > 0 ==>
      1 <= solution.steps <= Width(table) && |solution.bestDecision| >= 1 &&
      Subsequence(solution.bestDecision, decisions)
  {
    solution := SolveLexical(table, decisions, Minimax);
    if |table| > 0 && Width(table) > 0 {
      LexBounds(table, decisions, Minimax);
    }
  }
}
