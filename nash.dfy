/**
 * apps/exercises/modules/game/nash_equilibrium.js: a random two-player
 * game in a payoff matrix (Player 1 picks a row, Player 2 a column) and
 * its pure-strategy Nash equilibria, found by marking best responses.
 */
module Nash {
  import opened Random
  import opened DuiLexical
  import DuiRepair
  import DuiGenerate
  import Letters
  import Text

  /** One cell of the matrix: Player 1's payoff and Player 2's payoff. */
  datatype Cell = Cell(row: int, col: int)

  /** `m` has `rows` rows of `cols` entries. */
  ghost predicate Shape<T>(m: seq<seq<T>>, rows: nat, cols: nat) {
    |m| == rows && forall r :: 0 <= r < rows ==> |m[r]| == cols
  }

  /** Player 1's payoffs. */
  function RowPayoffs(payoffs: seq<seq<Cell>>): (m: seq<seq<int>>)
    ensures |m| == |payoffs|
    ensures forall r :: 0 <= r < |m| ==> |m[r]| == |payoffs[r]| && forall c :: 0 <= c < |m[r]| ==> m[r][c] == payoffs[r][c].row
  {
    seq(|payoffs|, r requires 0 <= r < |payoffs| => seq(|payoffs[r]|, c requires 0 <= c < |payoffs[r]| => payoffs[r][c].row))
  }

  /** Player 2's payoffs. */
  function ColPayoffs(payoffs: seq<seq<Cell>>): (m: seq<seq<int>>)
    ensures |m| == |payoffs|
    ensures forall r :: 0 <= r < |m| ==> |m[r]| == |payoffs[r]| && forall c :: 0 <= c < |m[r]| ==> m[r][c] == payoffs[r][c].col
  {
    seq(|payoffs|, r requires 0 <= r < |payoffs| => seq(|payoffs[r]|, c requires 0 <= c < |payoffs[r]| => payoffs[r][c].col))
  }

  /** Row `r` is a best response of Player 1 to column `c`: no other row pays Player 1 more there. */
  predicate BestInColumn(m: seq<seq<int>>, r: nat, c: nat)
    requires r < |m| && forall i :: 0 <= i < |m| ==> c < |m[i]|
  {
    forall i :: 0 <= i < |m| ==> m[i][c] <= m[r][c]
  }

  /** Column `c` is a best response of Player 2 to row `r`: no other column pays Player 2 more there. */
  predicate BestInRow(m: seq<seq<int>>, r: nat, c: nat)
    requires r < |m| && c < |m[r]|
  {
    forall j :: 0 <= j < |m[r]| ==> m[r][j] <= m[r][c]
  }

  /** Column `c` of a matrix. */
  function ColumnOf<T>(m: seq<seq<T>>, c: nat): (col: seq<T>)
    requires forall i :: 0 <= i < |m| ==> c < |m[i]|
    ensures |col| == |m| && forall i :: 0 <= i < |m| ==> col[i] == m[i][c]
  {
    seq(|m|, i requires 0 <= i < |m| => m[i][c])
  }

  /** `xs.filter((_, i) => flags[i])`. */
  function Select<T>(xs: seq<T>, flags: seq<bool>): (r: seq<T>)
    requires |flags| == |xs|
    decreases |xs|
  {
    if |xs| == 0 then []
    else Select(xs[..|xs| - 1], flags[..|xs| - 1]) + (if flags[|xs| - 1] then [xs[|xs| - 1]] else [])
  }

  /** What `Select` keeps: exactly the flagged entries. */
  lemma {:induction false} SelectMeaning<T>(xs: seq<T>, flags: seq<bool>)
    requires |flags| == |xs|
    ensures forall x :: x in Select(xs, flags) ==> exists i :: 0 <= i < |xs| && flags[i] && xs[i] == x
    ensures forall i :: 0 <= i < |xs| && flags[i] ==> xs[i] in Select(xs, flags)
    decreases |xs|
  {
    if |xs| > 0 {
      var n := |xs| - 1;
      var ys, gs := xs[..n], flags[..n];
      SelectMeaning(ys, gs);
      var tail := if flags[n] then [xs[n]] else [];
      assert Select(xs, flags) == Select(ys, gs) + tail;
      forall x | x in Select(xs, flags)
        ensures exists i :: 0 <= i < |xs| && flags[i] && xs[i] == x
      {
        if x in Select(ys, gs) {
          var i :| 0 <= i < |ys| && gs[i] && ys[i] == x;
          assert flags[i] && xs[i] == x;
        } else {
          assert x in tail;
          assert flags[n] && xs[n] == x;
        }
      }
      forall i | 0 <= i < |xs| && flags[i]
        ensures xs[i] in Select(xs, flags)
      {
        if i < n {
          assert gs[i] && ys[i] == xs[i];
          assert xs[i] in Select(ys, gs);
        } else {
          assert xs[i] in tail;
        }
      }
    }
  }

  /** The pairs (a, b) for every b, in order. */
  function Pairs(a: string, bs: seq<string>): (ps: seq<(string, string)>)
    ensures |ps| == |bs| && forall i :: 0 <= i < |bs| ==> ps[i] == (a, bs[i])
  {
    seq(|bs|, i requires 0 <= i < |bs| => (a, bs[i]))
  }

  /** `nashCells` over the first `rows` rows, row by row and left to right within a row. */
  function NashCellsUpTo(nash: seq<seq<bool>>, rs: seq<string>, cs: seq<string>, rows: nat): seq<(string, string)>
    requires rows <= |rs| && Shape(nash, |rs|, |cs|)
  {
    if rows == 0 then []
    else NashCellsUpTo(nash, rs, cs, rows - 1) + Pairs(rs[rows - 1], Select(cs, nash[rows - 1]))
  }

  /** The equilibria as (row strategy, column strategy) pairs in row-major order. */
  function NashCells(nash: seq<seq<bool>>, rs: seq<string>, cs: seq<string>): seq<(string, string)>
    requires Shape(nash, |rs|, |cs|)
  {
    NashCellsUpTo(nash, rs, cs, |rs|)
  }

  /** A pair is listed exactly when it names a marked cell. */
  lemma {:induction false} NashCellsUpToMeaning(nash: seq<seq<bool>>, rs: seq<string>, cs: seq<string>, rows: nat)
    requires rows <= |rs| && Shape(nash, |rs|, |cs|)
    ensures forall p :: p in NashCellsUpTo(nash, rs, cs, rows) <==>
      exists r, c :: 0 <= r < rows && 0 <= c < |cs| && nash[r][c] && p == (rs[r], cs[c])
  {
    if rows > 0 {
      var r := rows - 1;
      NashCellsUpToMeaning(nash, rs, cs, r);
      SelectMeaning(cs, nash[r]);
      forall p | p in Pairs(rs[r], Select(cs, nash[r]))
        ensures exists c :: 0 <= c < |cs| && nash[r][c] && p == (rs[r], cs[c])
      {
        var k :| 0 <= k < |Select(cs, nash[r])| && Pairs(rs[r], Select(cs, nash[r]))[k] == p;
        assert Select(cs, nash[r])[k] in Select(cs, nash[r]);
      }
      forall c | 0 <= c < |cs| && nash[r][c]
        ensures (rs[r], cs[c]) in Pairs(rs[r], Select(cs, nash[r]))
      {
        assert cs[c] in Select(cs, nash[r]);
        var k :| 0 <= k < |Select(cs, nash[r])| && Select(cs, nash[r])[k] == cs[c];
        assert Pairs(rs[r], Select(cs, nash[r]))[k] == (rs[r], cs[c]);
      }
    }
  }

  /** In a list of distinct labels, equal labels sit at the same index. */
  lemma SameLabelSameIndex(xs: seq<string>, i: nat, j: nat)
    requires forall a, b :: 0 <= a < b < |xs| ==> xs[a] != xs[b]
    requires i < |xs| && j < |xs| && xs[i] == xs[j]
    ensures i == j
  {
  }

  /**
   * With distinct row labels and distinct column labels, the pair of a
   * cell's strategies is listed exactly when the cell is marked.
   */
  lemma NashCellsExact(nash: seq<seq<bool>>, rs: seq<string>, cs: seq<string>)
    requires Shape(nash, |rs|, |cs|)
    requires forall i, j :: 0 <= i < j < |rs| ==> rs[i] != rs[j]
    requires forall i, j :: 0 <= i < j < |cs| ==> cs[i] != cs[j]
    ensures forall r, c :: 0 <= r < |rs| && 0 <= c < |cs| ==> ((rs[r], cs[c]) in NashCells(nash, rs, cs) <==> nash[r][c])
  {
    NashCellsUpToMeaning(nash, rs, cs, |rs|);
    forall r, c | 0 <= r < |rs| && 0 <= c < |cs| && (rs[r], cs[c]) in NashCells(nash, rs, cs)
      ensures nash[r][c]
    {
      var r', c' :| 0 <= r' < |rs| && 0 <= c' < |cs| && nash[r'][c'] && (rs[r], cs[c]) == (rs[r'], cs[c']);
      SameLabelSameIndex(rs, r, r');
      SameLabelSameIndex(cs, c, c');
    }
  }

  /** What `analyzeGameForNash` returns. */
  datatype Analysis = Analysis(
    rowBest: seq<seq<bool>>,
    colBest: seq<seq<bool>>,
    nash: seq<seq<bool>>,
    nashCells: seq<(string, string)>,
    bestResponsesRow: seq<seq<string>>,
    bestResponsesCol: seq<seq<string>>)

  /** An all-false `rows` × `cols` matrix: `Array.from({ length: rows }, () => Array(cols).fill(false))`. */
  function AllFalse(rows: nat, cols: nat): (m: seq<seq<bool>>)
    ensures Shape(m, rows, cols) && forall r, c :: 0 <= r < rows && 0 <= c < cols ==> !m[r][c]
  {
    seq(rows, _ => seq(cols, _ => false))
  }

  /**
   * The inner loop over rows for one column: mark every row whose
   * Player 1 payoff equals the column's best.
   */
  method MarkColumnBests(rowBest: seq<seq<bool>>, payoffs: seq<seq<Cell>>, col: nat, cols: nat) returns (marked: seq<seq<bool>>)
    requires Shape(rowBest, |payoffs|, cols) && Shape(payoffs, |payoffs|, cols) && col < cols
    ensures Shape(marked, |payoffs|, cols)
    ensures forall r, c :: 0 <= r < |payoffs| && 0 <= c < cols ==>
      marked[r][c] == (rowBest[r][c] || (c == col && BestInColumn(RowPayoffs(payoffs), r, col)))
  {
    marked := rowBest;
    if |payoffs| == 0 {
      return;
    }
    var m := RowPayoffs(payoffs);
    var maxRowPayoff := MaxOf(ColumnOf(m, col));
    var row := 0;
    while row < |payoffs|
      invariant 0 <= row <= |payoffs| && Shape(marked, |payoffs|, cols)
      invariant forall r, c :: 0 <= r < |payoffs| && 0 <= c < cols ==>
        marked[r][c] == (rowBest[r][c] || (c == col && r < row && BestInColumn(m, r, col)))
    {
      if payoffs[row][col].row == maxRowPayoff {
        assert BestInColumn(m, row, col) by {
          forall i | 0 <= i < |m|
            ensures m[i][col] <= m[row][col]
          {
            assert ColumnOf(m, col)[i] == m[i][col];
          }
        }
        marked := marked[row := marked[row][col := true]];
      } else {
        assert !BestInColumn(m, row, col) by {
          var k :| 0 <= k < |m| && ColumnOf(m, col)[k] == maxRowPayoff;
          assert m[k][col] > m[row][col];
        }
      }
      row := row + 1;
    }
  }

  /**
   * The inner loop over columns for one row: mark every column whose
   * Player 2 payoff equals the row's best.
   */
  method MarkRowBests(colBest: seq<seq<bool>>, payoffs: seq<seq<Cell>>, row: nat, cols: nat) returns (marked: seq<seq<bool>>)
    requires Shape(colBest, |payoffs|, cols) && Shape(payoffs, |payoffs|, cols) && row < |payoffs|
    ensures Shape(marked, |payoffs|, cols)
    ensures forall r, c :: 0 <= r < |payoffs| && 0 <= c < cols ==>
      marked[r][c] == (colBest[r][c] || (r == row && BestInRow(ColPayoffs(payoffs), r, c)))
  {
    marked := colBest;
    if cols == 0 {
      return;
    }
    var m := ColPayoffs(payoffs);
    var maxColPayoff := MaxOf(m[row]);
    var col := 0;
    while col < cols
      invariant 0 <= col <= cols && Shape(marked, |payoffs|, cols)
      invariant forall r, c :: 0 <= r < |payoffs| && 0 <= c < cols ==>
        marked[r][c] == (colBest[r][c] || (r == row && c < col && BestInRow(m, r, c)))
    {
      if payoffs[row][col].col == maxColPayoff {
        assert BestInRow(m, row, col);
        marked := marked[row := marked[row][col := true]];
      } else {
        assert !BestInRow(m, row, col) by {
          var k :| 0 <= k < cols && m[row][k] == maxColPayoff;
          assert m[row][k] > m[row][col];
        }
      }
      col := col + 1;
    }
  }

  /**
   * `analyzeGameForNash`: Player 1's best responses (a cell whose row
   * payoff is the best in its column), Player 2's best responses (a cell
   * whose column payoff is the best in its row), the equilibria (cells
   * that are both), their strategy pairs in row-major order, and for
   * every strategy of one player the best responses of the other.
   */
  method AnalyzeGameForNash(payoffs: seq<seq<Cell>>, rowStrategies: seq<string>, colStrategies: seq<string>)
    returns (a: Analysis)
    requires Shape(payoffs, |rowStrategies|, |colStrategies|)
    ensures var rows, cols := |rowStrategies|, |colStrategies|;
      && Shape(a.rowBest, rows, cols) && Shape(a.colBest, rows, cols) && Shape(a.nash, rows, cols)
      && (forall r, c :: 0 <= r < rows && 0 <= c < cols ==>
            && (a.rowBest[r][c] <==> BestInColumn(RowPayoffs(payoffs), r, c))
            && (a.colBest[r][c] <==> BestInRow(ColPayoffs(payoffs), r, c))
            && (a.nash[r][c] <==> a.rowBest[r][c] && a.colBest[r][c]))
      && a.nashCells == NashCells(a.nash, rowStrategies, colStrategies)
      && |a.bestResponsesRow| == cols
      && (forall c :: 0 <= c < cols ==> a.bestResponsesRow[c] == Select(rowStrategies, ColumnOf(a.rowBest, c)))
      && |a.bestResponsesCol| == rows
      && (forall r :: 0 <= r < rows ==> a.bestResponsesCol[r] == Select(colStrategies, a.colBest[r]))
  {
    var numRows, numCols := |rowStrategies|, |colStrategies|;
    var rowBest := AllFalse(numRows, numCols);
    var colBest := AllFalse(numRows, numCols);
    for col := 0 to numCols
      invariant Shape(rowBest, numRows, numCols)
      invariant forall r, c :: 0 <= r < numRows && 0 <= c < numCols ==>
        rowBest[r][c] == (c < col && BestInColumn(RowPayoffs(payoffs), r, c))
    {
      rowBest := MarkColumnBests(rowBest, payoffs, col, numCols);
    }
    for row := 0 to numRows
      invariant Shape(colBest, numRows, numCols)
      invariant forall r, c :: 0 <= r < numRows && 0 <= c < numCols ==>
        colBest[r][c] == (r < row && BestInRow(ColPayoffs(payoffs), r, c))
    {
      colBest := MarkRowBests(colBest, payoffs, row, numCols);
    }
    var nash := seq(numRows, r requires 0 <= r < numRows =>
      seq(numCols, c requires 0 <= c < numCols => rowBest[r][c] && colBest[r][c]));
    var nashCells := CollectNashCells(nash, rowStrategies, colStrategies);
    var bestResponsesRow := seq(numCols, c requires 0 <= c < numCols => Select(rowStrategies, ColumnOf(rowBest, c)));
    var bestResponsesCol := seq(numRows, r requires 0 <= r < numRows => Select(colStrategies, colBest[r]));
    a := Analysis(rowBest, colBest, nash, nashCells, bestResponsesRow, bestResponsesCol);
  }

  /** Selecting over one more entry adds that entry when it is flagged. */
  lemma SelectSnoc<T>(xs: seq<T>, flags: seq<bool>, k: nat)
    requires |flags| == |xs| && k < |xs|
    ensures Select(xs[..k + 1], flags[..k + 1]) == Select(xs[..k], flags[..k]) + (if flags[k] then [xs[k]] else [])
  {
    assert xs[..k + 1][..k] == xs[..k] && flags[..k + 1][..k] == flags[..k];
  }

  /** Pairing distributes over concatenation. */
  lemma PairsAppend(a: string, xs: seq<string>, ys: seq<string>)
    ensures Pairs(a, xs + ys) == Pairs(a, xs) + Pairs(a, ys)
  {
  }

  /** The nested loops that push `[rowStrategies[row], colStrategies[col]]` for every marked cell. */
  method CollectNashCells(nash: seq<seq<bool>>, rs: seq<string>, cs: seq<string>) returns (cells: seq<(string, string)>)
    requires Shape(nash, |rs|, |cs|)
    ensures cells == NashCells(nash, rs, cs)
  {
    cells := [];
    for row := 0 to |rs|
      invariant cells == NashCellsUpTo(nash, rs, cs, row)
    {
      var start := cells;
      for col := 0 to |cs|
        invariant cells == start + Pairs(rs[row], Select(cs[..col], nash[row][..col]))
      {
        SelectSnoc(cs, nash[row], col);
        var picked := if nash[row][col] then [cs[col]] else [];
        PairsAppend(rs[row], Select(cs[..col], nash[row][..col]), picked);
        if nash[row][col] {
          cells := cells + [(rs[row], cs[col])];
        }
      }
      assert cs[..|cs|] == cs && nash[row][..|cs|] == nash[row];
    }
  }

  /** Some row is a best response of Player 1 to column `c`. */
  ghost predicate ColumnHasBest(m: seq<seq<int>>, c: nat)
    requires forall i :: 0 <= i < |m| ==> c < |m[i]|
  {
    exists r :: 0 <= r < |m| && BestInColumn(m, r, c)
  }

  /** Some column is a best response of Player 2 to row `r`. */
  ghost predicate RowHasBest(m: seq<seq<int>>, r: nat)
    requires r < |m|
  {
    exists c :: 0 <= c < |m[r]| && BestInRow(m, r, c)
  }

  /** In a game with at least one row, every column has a best response of Player 1. */
  lemma ColumnsHaveBest(payoffs: seq<seq<Cell>>, rows: nat, cols: nat)
    requires Shape(payoffs, rows, cols) && rows > 0
    ensures forall c :: 0 <= c < cols ==> ColumnHasBest(RowPayoffs(payoffs), c)
  {
    var m := RowPayoffs(payoffs);
    forall c | 0 <= c < cols
      ensures ColumnHasBest(m, c)
    {
      var col := ColumnOf(m, c);
      var best := MaxOf(col);
      var k :| 0 <= k < rows && col[k] == best;
      forall i | 0 <= i < rows
        ensures m[i][c] <= m[k][c]
      {
        assert col[i] <= best;
      }
      assert BestInColumn(m, k, c);
    }
  }

  /** In a game with at least one column, every row has a best response of Player 2. */
  lemma RowsHaveBest(payoffs: seq<seq<Cell>>, rows: nat, cols: nat)
    requires Shape(payoffs, rows, cols) && cols > 0
    ensures forall r :: 0 <= r < rows ==> RowHasBest(ColPayoffs(payoffs), r)
  {
    var m := ColPayoffs(payoffs);
    forall r | 0 <= r < rows
      ensures RowHasBest(m, r)
    {
      var best := MaxOf(m[r]);
      var k :| 0 <= k < cols && m[r][k] == best;
      forall j | 0 <= j < cols
        ensures m[r][j] <= m[r][k]
      {
        assert m[r][j] <= best;
      }
      assert BestInRow(m, r, k);
    }
  }

  /**
   * `bestResponsesRow` is never empty: in a game with at least one row,
   * every strategy of Player 2 has a best response of Player 1.
   */
  lemma BestResponsesRowNonEmpty(payoffs: seq<seq<Cell>>, rs: seq<string>, cs: seq<string>, rowBest: seq<seq<bool>>)
    requires Shape(payoffs, |rs|, |cs|) && Shape(rowBest, |rs|, |cs|) && |rs| > 0
    requires forall r, c :: 0 <= r < |rs| && 0 <= c < |cs| ==> (rowBest[r][c] <==> BestInColumn(RowPayoffs(payoffs), r, c))
    ensures forall c :: 0 <= c < |cs| ==> |Select(rs, ColumnOf(rowBest, c))| > 0
  {
    ColumnsHaveBest(payoffs, |rs|, |cs|);
    forall c | 0 <= c < |cs|
      ensures |Select(rs, ColumnOf(rowBest, c))| > 0
    {
      var flags := ColumnOf(rowBest, c);
      assert ColumnHasBest(RowPayoffs(payoffs), c);
      var r :| 0 <= r < |rs| && BestInColumn(RowPayoffs(payoffs), r, c);
      SelectMeaning(rs, flags);
      assert flags[r];
      assert rs[r] in Select(rs, flags);
    }
  }

  /**
   * `bestResponsesCol` is never empty: in a game with at least one
   * column, every strategy of Player 1 has a best response of Player 2.
   */
  lemma BestResponsesColNonEmpty(payoffs: seq<seq<Cell>>, rs: seq<string>, cs: seq<string>, colBest: seq<seq<bool>>)
    requires Shape(payoffs, |rs|, |cs|) && Shape(colBest, |rs|, |cs|) && |cs| > 0
    requires forall r, c :: 0 <= r < |rs| && 0 <= c < |cs| ==> (colBest[r][c] <==> BestInRow(ColPayoffs(payoffs), r, c))
    ensures forall r :: 0 <= r < |rs| ==> |Select(cs, colBest[r])| > 0
  {
    RowsHaveBest(payoffs, |rs|, |cs|);
    forall r | 0 <= r < |rs|
      ensures |Select(cs, colBest[r])| > 0
    {
      assert RowHasBest(ColPayoffs(payoffs), r);
      var c :| 0 <= c < |cs| && BestInRow(ColPayoffs(payoffs), r, c);
      SelectMeaning(cs, colBest[r]);
      assert colBest[r][c];
      assert cs[c] in Select(cs, colBest[r]);
    }
  }

  /**
   * `buildGameSolutionTable`, highlight classes: one row per row
   * strategy with one more entry than there are columns (the label
   * column), all "" but "nash-cell" one place right of every equilibrium.
   */
  method BuildCellClasses(nash: seq<seq<bool>>, rows: nat, cols: nat) returns (cellClasses: seq<seq<string>>)
    requires Shape(nash, rows, cols)
    ensures Shape(cellClasses, rows, cols + 1)
    ensures forall r :: 0 <= r < rows ==> cellClasses[r][0] == ""
    ensures forall r, c :: 0 <= r < rows && 0 <= c < cols ==>
      (cellClasses[r][c + 1] == "nash-cell" <==> nash[r][c]) && (cellClasses[r][c + 1] == "" <==> !nash[r][c])
  {
    cellClasses := seq(rows, _ => seq(cols + 1, _ => ""));
    for row := 0 to rows
      invariant Shape(cellClasses, rows, cols + 1)
      invariant forall r, c :: 0 <= r < rows && 0 <= c <= cols ==>
        cellClasses[r][c] == (if r < row && c > 0 && nash[r][c - 1] then "nash-cell" else "")
    {
      for col := 0 to cols
        invariant Shape(cellClasses, rows, cols + 1)
        invariant forall r, c :: 0 <= r < rows && 0 <= c <= cols ==>
          cellClasses[r][c] == (if (r < row || (r == row && 0 < c <= col)) && c > 0 && nash[r][c - 1] then "nash-cell" else "")
      {
        if nash[row][col] {
          cellClasses := cellClasses[row := cellClasses[row][col + 1 := "nash-cell"]];
        }
      }
    }
  }

  /** `<span class="cls">text</span>`: the text, unchanged, inside a span of class `cls`. */
  function WrapPlayer(text: string, cls: string): (html: string)
    ensures |html| == |text| + |cls| + 22
    ensures html[..15 + |cls|] == "<span class=\"" + cls + "\">"
    ensures html[|html| - 7 - |text|..|html| - 7] == text && html[|html| - 7..] == "</span>"
  {
    "<span class=\"" + cls + "\">" + text + "</span>"
  }

  lemma PlayerOnePrefix(left: string, rest: string, text: string)
    requires left == WrapPlayer(text, "player-one")
    ensures |left + rest| >= 25 && (left + rest)[..25] == "<span class=\"player-one\">"
  {
    assert (left + rest)[..25] == left[..25];
  }

  /**
   * `buildMatrixHeader`: a header with exactly one "|" has both sides
   * trimmed and wrapped in the two players' classes; any other header is
   * kept as it is.
   */
  function BuildMatrixHeader(header: string): (html: string)
    ensures html == header || (|html| >= 25 && html[..25] == "<span class=\"player-one\">")
  {
    var parts := Text.Split(header, '|');
    if |parts| == 2 then
      var left := WrapPlayer(Text.Trim(parts[0]), "player-one");
      var rest := " | " + WrapPlayer(Text.Trim(parts[1]), "player-two");
      PlayerOnePrefix(left, rest, Text.Trim(parts[0]));
      left + rest
    else header
  }

  /** "P1 | P2" style headers: the two sides, trimmed and wrapped. */
  lemma MatrixHeaderTwoSides(left: string, right: string)
    requires '|' !in left && '|' !in right
    ensures BuildMatrixHeader(left + "|" + right) ==
      WrapPlayer(Text.Trim(left), "player-one") + " | " + WrapPlayer(Text.Trim(right), "player-two")
  {
    Text.SplitAtSep(left, '|', right);
    Text.SplitNoSep(right, '|');
  }

  /** A header without "|" (the empty header among them) is kept. */
  lemma MatrixHeaderNoBar(header: string)
    requires '|' !in header
    ensures BuildMatrixHeader(header) == header
  {
    Text.SplitNoSep(header, '|');
  }

  /** A header with two or more "|" is kept. */
  lemma MatrixHeaderManyBars(a: string, b: string, rest: string)
    requires '|' !in a && '|' !in b
    ensures BuildMatrixHeader(a + "|" + b + "|" + rest) == a + "|" + b + "|" + rest
  {
    var h := a + "|" + b + "|" + rest;
    assert h == a + ['|'] + (b + ['|'] + rest);
    Text.SplitAtSep(a, '|', b + ['|'] + rest);
    Text.SplitAtSep(b, '|', rest);
  }

  /** Where in the stream of draws the cells of row r start: two draws per cell. */
  function CellRowStart(base: nat, r: nat, cols: nat): nat {
    DuiGenerate.RowStart(base, r, 2 * cols)
  }

  /** One cell: Player 1's payoff from draw `start`, Player 2's from draw `start + 1`. */
  function CellFromDraws(draws: Stream, start: nat, precision: int): Cell
    requires precision > 0
  {
    Cell(DuiGenerate.Payoff(draws(start), precision), DuiGenerate.Payoff(draws(start + 1), precision))
  }

  /** One row of cells drawn from position `start` on. */
  function CellRowFromDraws(draws: Stream, start: nat, cols: nat, precision: int): (row: seq<Cell>)
    requires precision > 0
    ensures |row| == cols && forall c :: 0 <= c < cols ==> row[c] == CellFromDraws(draws, start + 2 * c, precision)
  {
    seq(cols, c requires 0 <= c < cols => CellFromDraws(draws, start + 2 * c, precision))
  }

  /** `colStrategies.map(() => ({ row: …, col: … }))`: one row of cells. */
  method DrawCellRow(cols: nat, precision: int, rng: Oracle) returns (row: seq<Cell>)
    requires precision > 0
    modifies rng
    ensures row == CellRowFromDraws(rng.draws, old(rng.calls), cols, precision)
    ensures rng.calls == old(rng.calls) + 2 * cols
  {
    row := [];
    var c := 0;
    while c < cols
      invariant 0 <= c <= cols && |row| == c
      invariant rng.calls == old(rng.calls) + 2 * c
      invariant forall k :: 0 <= k < c ==> row[k] == CellFromDraws(rng.draws, old(rng.calls) + 2 * k, precision)
    {
      var u := rng.Next();
      var v := rng.Next();
      row := row + [Cell(DuiGenerate.Payoff(u, precision), DuiGenerate.Payoff(v, precision))];
      c := c + 1;
    }
  }

  /**
   * `createGameTable`: row strategies A, B, … and column strategies
   * continuing after the last row letter, and for every cell two payoffs
   * drawn in turn, each a multiple of the precision in [0, max].
   */
  method CreateGameTable(numRows: nat, numCols: nat, precision: int, rng: Oracle)
    returns (payoffs: seq<seq<Cell>>, rowStrategies: seq<string>, colStrategies: seq<string>)
    requires precision > 0
    modifies rng
    ensures rowStrategies == Letters.StrategyLabels(numRows, 0)
    ensures colStrategies == Letters.StrategyLabels(numCols, numRows)
    ensures Shape(payoffs, numRows, numCols)
    ensures forall r :: 0 <= r < numRows ==>
      payoffs[r] == CellRowFromDraws(rng.draws, CellRowStart(old(rng.calls), r, numCols), numCols, precision)
    ensures rng.calls == CellRowStart(old(rng.calls), numRows, numCols)
  {
    rowStrategies := Letters.StrategyLabels(numRows, 0);
    colStrategies := Letters.StrategyLabels(numCols, numRows);
    payoffs := [];
    var r := 0;
    while r < numRows
      invariant 0 <= r <= numRows && |payoffs| == r
      invariant rng.calls == CellRowStart(old(rng.calls), r, numCols)
      invariant forall k :: 0 <= k < r ==>
        payoffs[k] == CellRowFromDraws(rng.draws, CellRowStart(old(rng.calls), k, numCols), numCols, precision)
    {
      DuiGenerate.RowStartNext(old(rng.calls), r, 2 * numCols);
      var row := DrawCellRow(numCols, precision, rng);
      payoffs := payoffs + [row];
      r := r + 1;
    }
  }

  /**
   * Every payoff of a drawn game is a multiple of the precision in
   * [0, 200 / precision · precision].
   */
  lemma DrawnPayoffsOnGrid(draws: Stream, start: nat, cols: nat, precision: int)
    requires precision > 0
    ensures forall c :: 0 <= c < cols ==>
      var cell := CellRowFromDraws(draws, start, cols, precision)[c];
      && 0 <= cell.row <= DuiRepair.MaxPayoff(precision) && DuiRepair.OnGrid(cell.row, 0, precision)
      && 0 <= cell.col <= DuiRepair.MaxPayoff(precision) && DuiRepair.OnGrid(cell.col, 0, precision)
  {
  }
}
