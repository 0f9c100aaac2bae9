/**
 * apps/exercises/modules/game/game_mixed.js: a random 2x2 or 3x3 game
 * whose equilibrium in mixed strategies is fully mixed, its equilibria in
 * pure strategies, and the closed-form 2x2 mixed equilibrium.
 */
module MixedGame {
  import opened Wrappers
  import opened Random
  import Nash
  import DuiGenerate
  import Letters
  import Lottery

  /** A payoff matrix: one row per strategy of Player 1, one column per strategy of Player 2. */
  type Matrix = seq<seq<int>>

  /**
   * `transposeMatrix`: as many rows as the first row has entries, and
   * entry (j, i) of the result is entry (i, j) of the input.
   */
  function Transpose<T>(m: seq<seq<T>>): (t: seq<seq<T>>)
    requires |m| > 0 && forall i :: 0 <= i < |m| ==> |m[0]| <= |m[i]|
    ensures Nash.Shape(t, |m[0]|, |m|)
    ensures forall j, i :: 0 <= j < |m[0]| && 0 <= i < |m| ==> t[j][i] == m[i][j]
  {
    seq(|m[0]|, j requires 0 <= j < |m[0]| => seq(|m|, i requires 0 <= i < |m| => m[i][j]))
  }

  /** Transposing a rectangular matrix twice gives it back. */
  lemma TransposeTwice<T>(m: seq<seq<T>>, rows: nat, cols: nat)
    requires Nash.Shape(m, rows, cols) && rows > 0 && cols > 0
    ensures Transpose(Transpose(m)) == m
  {
    var t := Transpose(m);
    forall i | 0 <= i < rows
      ensures Transpose(t)[i] == m[i]
    {
    }
  }

  /** The default range of `randomMatrix`. */
  const DefaultMin: int := -10
  const DefaultMax: int := 16

  /** One row of integer draws from position `start` on. */
  function IntRowFromDraws(draws: Stream, start: nat, width: nat, lo: int, hi: int): (row: seq<int>)
    ensures |row| == width
    ensures forall j :: 0 <= j < width ==> row[j] == RandomIntInclusive(lo, hi, draws(start + j))
  {
    seq(width, j requires 0 <= j < width => RandomIntInclusive(lo, hi, draws(start + j)))
  }

  /** A `size` × `size` matrix of integer draws, row by row from position `start` on. */
  function MatrixFromDraws(draws: Stream, start: nat, size: nat, lo: int, hi: int): (m: Matrix)
    ensures Nash.Shape(m, size, size)
    ensures forall i :: 0 <= i < size ==>
      m[i] == IntRowFromDraws(draws, DuiGenerate.RowStart(start, i, size), size, lo, hi)
  {
    seq(size, i requires 0 <= i < size => IntRowFromDraws(draws, DuiGenerate.RowStart(start, i, size), size, lo, hi))
  }

  /** Every entry of a drawn matrix lies in [lo, hi]. */
  lemma MatrixFromDrawsInRange(draws: Stream, start: nat, size: nat, lo: int, hi: int)
    requires lo <= hi
    ensures var m := MatrixFromDraws(draws, start, size, lo, hi);
      forall i, j :: 0 <= i < size && 0 <= j < size ==> lo <= m[i][j] <= hi
  {
  }

  /** The inner `Array.from` of `randomMatrix`: one row of `width` draws. */
  method DrawIntRow(width: nat, lo: int, hi: int, rng: Oracle) returns (row: seq<int>)
    modifies rng
    ensures row == IntRowFromDraws(rng.draws, old(rng.calls), width, lo, hi)
    ensures rng.calls == old(rng.calls) + width
  {
    row := [];
    var j := 0;
    while j < width
      invariant 0 <= j <= width && |row| == j
      invariant rng.calls == old(rng.calls) + j
      invariant forall k :: 0 <= k < j ==> row[k] == RandomIntInclusive(lo, hi, rng.draws(old(rng.calls) + k))
    {
      var u := rng.Next();
      row := row + [RandomIntInclusive(lo, hi, u)];
      j := j + 1;
    }
  }

  /** `randomMatrix`: `size` rows of `size` draws, each in [lo, hi] when lo ≤ hi. */
  method RandomMatrix(size: nat, rng: Oracle, lo: int, hi: int) returns (m: Matrix)
    modifies rng
    ensures m == MatrixFromDraws(rng.draws, old(rng.calls), size, lo, hi)
    ensures rng.calls == DuiGenerate.RowStart(old(rng.calls), size, size)
  {
    m := [];
    var i := 0;
    while i < size
      invariant 0 <= i <= size && |m| == i
      invariant rng.calls == DuiGenerate.RowStart(old(rng.calls), i, size)
      invariant forall k :: 0 <= k < i ==>
        m[k] == IntRowFromDraws(rng.draws, DuiGenerate.RowStart(old(rng.calls), k, size), size, lo, hi)
    {
      DuiGenerate.RowStartNext(old(rng.calls), i, size);
      var row := DrawIntRow(size, lo, hi, rng);
      m := m + [row];
      i := i + 1;
    }
  }

  /** How many draws one call of `generatePayoffPair` takes: one matrix, or two when the style is not parallel. */
  function PairDraws(size: nat, parallel: bool): nat {
    var area := DuiGenerate.RowStart(0, size, size);
    if parallel then area else area + area
  }

  /** The pair of payoff matrices `generatePayoffPair` draws from position `start` on. */
  function PairFromDraws(draws: Stream, start: nat, size: nat, parallel: bool): (Matrix, Matrix)
    requires size > 0
  {
    var rowPayoffs := MatrixFromDraws(draws, start, size, DefaultMin, DefaultMax);
    if parallel then (rowPayoffs, Transpose(rowPayoffs))
    else (rowPayoffs, MatrixFromDraws(draws, DuiGenerate.RowStart(start, size, size), size, DefaultMin, DefaultMax))
  }

  /**
   * A drawn pair: both matrices are `size` × `size` with entries in
   * [-10, 16], and in the parallel style Player 2's payoff in cell (r, c)
   * is Player 1's payoff in cell (c, r).
   */
  lemma PairFromDrawsShape(draws: Stream, start: nat, size: nat, parallel: bool)
    requires size > 0
    ensures var (rowPayoffs, colPayoffs) := PairFromDraws(draws, start, size, parallel);
      && Nash.Shape(rowPayoffs, size, size) && Nash.Shape(colPayoffs, size, size)
      && (forall r, c :: 0 <= r < size && 0 <= c < size ==>
            DefaultMin <= rowPayoffs[r][c] <= DefaultMax && DefaultMin <= colPayoffs[r][c] <= DefaultMax)
      && (parallel ==> forall r, c :: 0 <= r < size && 0 <= c < size ==> colPayoffs[r][c] == rowPayoffs[c][r])
  {
    MatrixFromDrawsInRange(draws, start, size, DefaultMin, DefaultMax);
    MatrixFromDrawsInRange(draws, DuiGenerate.RowStart(start, size, size), size, DefaultMin, DefaultMax);
  }

  /**
   * `generatePayoffPair`: Player 1's matrix is drawn first; Player 2's is
   * its transpose in the "parallel" style and a second draw otherwise.
   */
  method GeneratePayoffPair(size: nat, payoffStyleId: string, rng: Oracle) returns (rowPayoffs: Matrix, colPayoffs: Matrix)
    requires size > 0
    modifies rng
    ensures (rowPayoffs, colPayoffs) == PairFromDraws(rng.draws, old(rng.calls), size, payoffStyleId == "parallel")
    ensures rng.calls == old(rng.calls) + PairDraws(size, payoffStyleId == "parallel")
  {
    var parallel := payoffStyleId == "parallel";
    rowPayoffs := RandomMatrix(size, rng, DefaultMin, DefaultMax);
    if parallel {
      colPayoffs := Transpose(rowPayoffs);
    } else {
      colPayoffs := RandomMatrix(size, rng, DefaultMin, DefaultMax);
    }
  }

  /** One entry of the list `computePureNashEquilibria` returns. */
  datatype PureEquilibrium = PureEquilibrium(rowIndex: nat, colIndex: nat, rowLabel: string, colLabel: string)

  /** Player 1's best responses: cell (r, c) is marked when row r pays Player 1 the most in column c. */
  function RowBestMatrix(m: Matrix, rows: nat, cols: nat): (b: seq<seq<bool>>)
    requires Nash.Shape(m, rows, cols)
    ensures Nash.Shape(b, rows, cols)
    ensures forall r, c :: 0 <= r < rows && 0 <= c < cols ==> b[r][c] == Nash.BestInColumn(m, r, c)
  {
    seq(rows, r requires 0 <= r < rows => seq(cols, c requires 0 <= c < cols => Nash.BestInColumn(m, r, c)))
  }

  /** Player 2's best responses: cell (r, c) is marked when column c pays Player 2 the most in row r. */
  function ColBestMatrix(m: Matrix, rows: nat, cols: nat): (b: seq<seq<bool>>)
    requires Nash.Shape(m, rows, cols)
    ensures Nash.Shape(b, rows, cols)
    ensures forall r, c :: 0 <= r < rows && 0 <= c < cols ==> b[r][c] == Nash.BestInRow(m, r, c)
  {
    seq(rows, r requires 0 <= r < rows => seq(cols, c requires 0 <= c < cols => Nash.BestInRow(m, r, c)))
  }

  /** The equilibria of row r among its first `cols` columns, left to right. */
  function PureRow(rowBest: seq<seq<bool>>, colBest: seq<seq<bool>>, rs: seq<string>, cs: seq<string>, r: nat, cols: nat): seq<PureEquilibrium>
    requires Nash.Shape(rowBest, |rs|, |cs|) && Nash.Shape(colBest, |rs|, |cs|) && r < |rs| && cols <= |cs|
  {
    if cols == 0 then []
    else
      PureRow(rowBest, colBest, rs, cs, r, cols - 1)
      + (if rowBest[r][cols - 1] && colBest[r][cols - 1] then [PureEquilibrium(r, cols - 1, rs[r], cs[cols - 1])] else [])
  }

  /** The equilibria of the first `rows` rows, in row-major order. */
  function PureUpTo(rowBest: seq<seq<bool>>, colBest: seq<seq<bool>>, rs: seq<string>, cs: seq<string>, rows: nat): seq<PureEquilibrium>
    requires Nash.Shape(rowBest, |rs|, |cs|) && Nash.Shape(colBest, |rs|, |cs|) && rows <= |rs|
  {
    if rows == 0 then []
    else PureUpTo(rowBest, colBest, rs, cs, rows - 1) + PureRow(rowBest, colBest, rs, cs, rows - 1, |cs|)
  }

  /** The pure equilibria of a game, as `computePureNashEquilibria` lists them. */
  function PureEquilibria(rowPayoffs: Matrix, colPayoffs: Matrix, rs: seq<string>, cs: seq<string>): seq<PureEquilibrium>
    requires Nash.Shape(rowPayoffs, |rs|, |cs|) && Nash.Shape(colPayoffs, |rs|, |cs|)
  {
    PureUpTo(RowBestMatrix(rowPayoffs, |rs|, |cs|), ColBestMatrix(colPayoffs, |rs|, |cs|), rs, cs, |rs|)
  }

  /** An entry names cell (r, c) of the first `rows` rows, with both marks and both labels. */
  ghost predicate Names(e: PureEquilibrium, rowBest: seq<seq<bool>>, colBest: seq<seq<bool>>, rs: seq<string>, cs: seq<string>, rows: nat)
    requires Nash.Shape(rowBest, |rs|, |cs|) && Nash.Shape(colBest, |rs|, |cs|) && rows <= |rs|
  {
    && e.rowIndex < rows && e.colIndex < |cs|
    && rowBest[e.rowIndex][e.colIndex] && colBest[e.rowIndex][e.colIndex]
    && e.rowLabel == rs[e.rowIndex] && e.colLabel == cs[e.colIndex]
  }

  /** What one row contributes: exactly its marked cells among the first `cols` columns. */
  lemma {:induction false} PureRowMeaning(rowBest: seq<seq<bool>>, colBest: seq<seq<bool>>, rs: seq<string>, cs: seq<string>, r: nat, cols: nat)
    requires Nash.Shape(rowBest, |rs|, |cs|) && Nash.Shape(colBest, |rs|, |cs|) && r < |rs| && cols <= |cs|
    ensures forall e :: e in PureRow(rowBest, colBest, rs, cs, r, cols) <==>
      e.rowIndex == r && e.colIndex < cols && Names(e, rowBest, colBest, rs, cs, |rs|)
  {
    if cols > 0 {
      PureRowMeaning(rowBest, colBest, rs, cs, r, cols - 1);
    }
  }

  /** The list holds exactly the marked cells of the first `rows` rows. */
  lemma {:induction false} PureUpToMeaning(rowBest: seq<seq<bool>>, colBest: seq<seq<bool>>, rs: seq<string>, cs: seq<string>, rows: nat)
    requires Nash.Shape(rowBest, |rs|, |cs|) && Nash.Shape(colBest, |rs|, |cs|) && rows <= |rs|
    ensures forall e :: e in PureUpTo(rowBest, colBest, rs, cs, rows) <==> Names(e, rowBest, colBest, rs, cs, rows)
  {
    if rows > 0 {
      PureUpToMeaning(rowBest, colBest, rs, cs, rows - 1);
      PureRowMeaning(rowBest, colBest, rs, cs, rows - 1, |cs|);
    }
  }

  /**
   * The listed equilibria are exactly the cells where the row is a best
   * response of Player 1 and the column a best response of Player 2,
   * each with its own strategy labels.
   */
  lemma PureEquilibriaMeaning(rowPayoffs: Matrix, colPayoffs: Matrix, rs: seq<string>, cs: seq<string>)
    requires Nash.Shape(rowPayoffs, |rs|, |cs|) && Nash.Shape(colPayoffs, |rs|, |cs|)
    ensures forall e :: e in PureEquilibria(rowPayoffs, colPayoffs, rs, cs) <==>
      && e.rowIndex < |rs| && e.colIndex < |cs|
      && Nash.BestInColumn(rowPayoffs, e.rowIndex, e.colIndex)
      && Nash.BestInRow(colPayoffs, e.rowIndex, e.colIndex)
      && e.rowLabel == rs[e.rowIndex] && e.colLabel == cs[e.colIndex]
  {
    PureUpToMeaning(RowBestMatrix(rowPayoffs, |rs|, |cs|), ColBestMatrix(colPayoffs, |rs|, |cs|), rs, cs, |rs|);
  }

  /**
   * The highlight classes: `rows` rows of `cols + 1` entries, column 0 for
   * the label, and "nash-cell" exactly one place right of each equilibrium.
   */
  ghost predicate CellClassesFor(cellClasses: seq<seq<string>>, rowBest: seq<seq<bool>>, colBest: seq<seq<bool>>, rows: nat, cols: nat)
    requires Nash.Shape(rowBest, rows, cols) && Nash.Shape(colBest, rows, cols)
  {
    && Nash.Shape(cellClasses, rows, cols + 1)
    && (forall r :: 0 <= r < rows ==> cellClasses[r][0] == "")
    && (forall r, k :: 0 <= r < rows && 1 <= k <= cols ==>
          cellClasses[r][k] == if rowBest[r][k - 1] && colBest[r][k - 1] then "nash-cell" else "")
  }

  /**
   * One column of the first pass: `best` climbs from -Infinity (here
   * `None`) through `Math.max`, then every row of the column is marked by
   * whether its payoff equals `best`.
   */
  method MarkColumn(rowBest: seq<seq<bool>>, m: Matrix, col: nat, rows: nat, cols: nat) returns (marked: seq<seq<bool>>)
    requires Nash.Shape(rowBest, rows, cols) && Nash.Shape(m, rows, cols) && col < cols
    ensures Nash.Shape(marked, rows, cols)
    ensures forall r, c :: 0 <= r < rows && 0 <= c < cols ==>
      marked[r][c] == if c == col then Nash.BestInColumn(m, r, c) else rowBest[r][c]
  {
    var best: Option<int> := None;
    for row := 0 to rows
      invariant best.None? <==> row == 0
      invariant best.Some? ==> exists i :: 0 <= i < row && m[i][col] == best.value
      invariant best.Some? ==> forall i :: 0 <= i < row ==> m[i][col] <= best.value
    {
      best := Some(if best.None? || m[row][col] > best.value then m[row][col] else best.value);
    }
    marked := rowBest;
    for row := 0 to rows
      invariant Nash.Shape(marked, rows, cols)
      invariant forall r, c :: 0 <= r < rows && 0 <= c < cols ==>
        marked[r][c] == if c == col && r < row then Nash.BestInColumn(m, r, c) else rowBest[r][c]
    {
      if m[row][col] != best.value {
        var i :| 0 <= i < rows && m[i][col] == best.value;
        assert m[i][col] > m[row][col];
      }
      marked := marked[row := marked[row][col := m[row][col] == best.value]];
    }
  }

  /** One row of the second pass: the same for Player 2 along a row. */
  method MarkRow(colBest: seq<seq<bool>>, m: Matrix, row: nat, rows: nat, cols: nat) returns (marked: seq<seq<bool>>)
    requires Nash.Shape(colBest, rows, cols) && Nash.Shape(m, rows, cols) && row < rows
    ensures Nash.Shape(marked, rows, cols)
    ensures forall r, c :: 0 <= r < rows && 0 <= c < cols ==>
      marked[r][c] == if r == row then Nash.BestInRow(m, r, c) else colBest[r][c]
  {
    var best: Option<int> := None;
    for col := 0 to cols
      invariant best.None? <==> col == 0
      invariant best.Some? ==> exists j :: 0 <= j < col && m[row][j] == best.value
      invariant best.Some? ==> forall j :: 0 <= j < col ==> m[row][j] <= best.value
    {
      best := Some(if best.None? || m[row][col] > best.value then m[row][col] else best.value);
    }
    marked := colBest;
    for col := 0 to cols
      invariant Nash.Shape(marked, rows, cols)
      invariant forall r, c :: 0 <= r < rows && 0 <= c < cols ==>
        marked[r][c] == if r == row && c < col then Nash.BestInRow(m, r, c) else colBest[r][c]
    {
      if m[row][col] != best.value {
        var j :| 0 <= j < cols && m[row][j] == best.value;
        assert m[row][j] > m[row][col];
      }
      marked := marked[row := marked[row][col := m[row][col] == best.value]];
    }
  }

  /** The inner loop of the last pass, over the columns of one row: push each cell marked twice and highlight it. */
  method CollectRow(rowBest: seq<seq<bool>>, colBest: seq<seq<bool>>, rs: seq<string>, cs: seq<string>, row: nat,
                    pure0: seq<PureEquilibrium>, line0: seq<string>)
    returns (pure: seq<PureEquilibrium>, line: seq<string>)
    requires Nash.Shape(rowBest, |rs|, |cs|) && Nash.Shape(colBest, |rs|, |cs|) && row < |rs| && |line0| == |cs| + 1
    ensures pure == pure0 + PureRow(rowBest, colBest, rs, cs, row, |cs|)
    ensures |line| == |cs| + 1 && line[0] == line0[0]
    ensures forall k :: 1 <= k <= |cs| ==>
      line[k] == if rowBest[row][k - 1] && colBest[row][k - 1] then "nash-cell" else line0[k]
  {
    pure, line := pure0, line0;
    for col := 0 to |cs|
      invariant pure == pure0 + PureRow(rowBest, colBest, rs, cs, row, col)
      invariant |line| == |cs| + 1 && line[0] == line0[0]
      invariant forall k :: 1 <= k <= |cs| ==>
        line[k] == if k <= col && rowBest[row][k - 1] && colBest[row][k - 1] then "nash-cell" else line0[k]
    {
      ghost var found := if rowBest[row][col] && colBest[row][col] then [PureEquilibrium(row, col, rs[row], cs[col])] else [];
      assert PureRow(rowBest, colBest, rs, cs, row, col + 1) == PureRow(rowBest, colBest, rs, cs, row, col) + found;
      if rowBest[row][col] && colBest[row][col] {
        pure := pure + [PureEquilibrium(row, col, rs[row], cs[col])];
        line := line[col + 1 := "nash-cell"];
      }
      assert pure == pure0 + PureRow(rowBest, colBest, rs, cs, row, col) + found;
    }
  }

  /** The last pair of nested loops: every cell marked twice, in row-major order, and the highlight classes. */
  method CollectPure(rowBest: seq<seq<bool>>, colBest: seq<seq<bool>>, rs: seq<string>, cs: seq<string>)
    returns (pure: seq<PureEquilibrium>, cellClasses: seq<seq<string>>)
    requires Nash.Shape(rowBest, |rs|, |cs|) && Nash.Shape(colBest, |rs|, |cs|)
    ensures pure == PureUpTo(rowBest, colBest, rs, cs, |rs|)
    ensures CellClassesFor(cellClasses, rowBest, colBest, |rs|, |cs|)
  {
    var rows, cols := |rs|, |cs|;
    pure := [];
    cellClasses := seq(rows, _ => seq(cols + 1, _ => ""));
    for row := 0 to rows
      invariant pure == PureUpTo(rowBest, colBest, rs, cs, row)
      invariant Nash.Shape(cellClasses, rows, cols + 1)
      invariant forall r :: 0 <= r < rows ==> cellClasses[r][0] == ""
      invariant forall r, k :: 0 <= r < rows && 1 <= k <= cols ==>
        cellClasses[r][k] == if r < row && rowBest[r][k - 1] && colBest[r][k - 1] then "nash-cell" else ""
    {
      assert PureUpTo(rowBest, colBest, rs, cs, row + 1) == PureUpTo(rowBest, colBest, rs, cs, row) + PureRow(rowBest, colBest, rs, cs, row, cols);
      var line;
      pure, line := CollectRow(rowBest, colBest, rs, cs, row, pure, cellClasses[row]);
      cellClasses := cellClasses[row := line];
    }
  }

  /** Two matrices of the same shape with the same entries are equal. */
  lemma SameMatrix<T>(a: seq<seq<T>>, b: seq<seq<T>>, rows: nat, cols: nat)
    requires Nash.Shape(a, rows, cols) && Nash.Shape(b, rows, cols)
    requires forall r, c :: 0 <= r < rows && 0 <= c < cols ==> a[r][c] == b[r][c]
    ensures a == b
  {
    forall r | 0 <= r < rows
      ensures a[r] == b[r]
    {
      assert forall c :: 0 <= c < cols ==> a[r][c] == b[r][c];
    }
  }

  /**
   * `computePureNashEquilibria`: Player 1's best responses column by
   * column, Player 2's row by row, then the cells marked by both, in
   * row-major order, and their highlight classes.
   */
  method ComputePureNashEquilibria(rowPayoffs: Matrix, colPayoffs: Matrix, rs: seq<string>, cs: seq<string>)
    returns (pure: seq<PureEquilibrium>, cellClasses: seq<seq<string>>)
    requires Nash.Shape(rowPayoffs, |rs|, |cs|) && Nash.Shape(colPayoffs, |rs|, |cs|)
    ensures pure == PureEquilibria(rowPayoffs, colPayoffs, rs, cs)
    ensures CellClassesFor(cellClasses, RowBestMatrix(rowPayoffs, |rs|, |cs|), ColBestMatrix(colPayoffs, |rs|, |cs|), |rs|, |cs|)
  {
    var rows, cols := |rs|, |cs|;
    var rowBest := Nash.AllFalse(rows, cols);
    var colBest := Nash.AllFalse(rows, cols);
    for col := 0 to cols
      invariant Nash.Shape(rowBest, rows, cols)
      invariant forall r, c :: 0 <= r < rows && 0 <= c < cols ==>
        rowBest[r][c] == (c < col && Nash.BestInColumn(rowPayoffs, r, c))
    {
      rowBest := MarkColumn(rowBest, rowPayoffs, col, rows, cols);
    }
    for row := 0 to rows
      invariant Nash.Shape(colBest, rows, cols)
      invariant forall r, c :: 0 <= r < rows && 0 <= c < cols ==>
        colBest[r][c] == (r < row && Nash.BestInRow(colPayoffs, r, c))
    {
      colBest := MarkRow(colBest, colPayoffs, row, rows, cols);
    }
    SameMatrix(rowBest, RowBestMatrix(rowPayoffs, rows, cols), rows, cols);
    SameMatrix(colBest, ColBestMatrix(colPayoffs, rows, cols), rows, cols);
    pure, cellClasses := CollectPure(rowBest, colBest, rs, cs);
  }

  /** What `solveMixed2x2` and `solveMixed3x3` return (the display details are not modelled). */
  datatype Solution = Solution(rowMix: seq<real>, colMix: seq<real>, rowValues: seq<real>, colValues: seq<real>)

  /** The four payoffs `solveMixed2x2` reads exist. */
  predicate Has2x2(m: Matrix) {
    |m| >= 2 && |m[0]| >= 2 && |m[1]| >= 2
  }

  /** a − b − c + d over Player 1's payoffs. */
  function QDenominator(m: Matrix): int
    requires Has2x2(m)
  {
    m[0][0] - m[0][1] - m[1][0] + m[1][1]
  }

  /** e − f − g + h over Player 2's payoffs. */
  function PDenominator(m: Matrix): int
    requires Has2x2(m)
  {
    m[0][0] - m[0][1] - m[1][0] + m[1][1]
  }

  /** Player 1's expected payoff from each row when Player 2 plays the columns with probabilities `mix`. */
  function RowPlayerValues(m: Matrix, mix: seq<real>): (v: seq<real>)
    requires Has2x2(m) && |mix| == 2
  {
    [mix[0] * m[0][0] as real + mix[1] * m[0][1] as real, mix[0] * m[1][0] as real + mix[1] * m[1][1] as real]
  }

  /** Player 2's expected payoff from each column when Player 1 plays the rows with probabilities `mix`. */
  function ColPlayerValues(m: Matrix, mix: seq<real>): (v: seq<real>)
    requires Has2x2(m) && |mix| == 2
  {
    [mix[0] * m[0][0] as real + mix[1] * m[1][0] as real, mix[0] * m[0][1] as real + mix[1] * m[1][1] as real]
  }

  /**
   * `solveMixed2x2`: null when either denominator is 0 (an integer
   * denominator is below 1e-9 in size only when it is 0); otherwise
   * Player 2's mix (q, 1 − q) leaves Player 1 indifferent between the
   * rows, and Player 1's mix (p, 1 − p) leaves Player 2 indifferent
   * between the columns.
   */
  function SolveMixed2x2(rowPayoffs: Matrix, colPayoffs: Matrix): (s: Option<Solution>)
    requires Has2x2(rowPayoffs) && Has2x2(colPayoffs)
    ensures s.None? <==> QDenominator(rowPayoffs) == 0 || PDenominator(colPayoffs) == 0
    ensures s.Some? ==>
      && |s.value.rowMix| == 2 && |s.value.colMix| == 2
      && s.value.rowMix[0] + s.value.rowMix[1] == 1.0 && s.value.colMix[0] + s.value.colMix[1] == 1.0
      && s.value.rowValues == RowPlayerValues(rowPayoffs, s.value.colMix)
      && s.value.colValues == ColPlayerValues(colPayoffs, s.value.rowMix)
      && s.value.rowValues[0] == s.value.rowValues[1]
      && s.value.colValues[0] == s.value.colValues[1]
  {
    var a, b, c, d := rowPayoffs[0][0] as real, rowPayoffs[0][1] as real, rowPayoffs[1][0] as real, rowPayoffs[1][1] as real;
    var qDenominator := QDenominator(rowPayoffs);
    if qDenominator == 0 then None
    else
      var q := (d - b) / qDenominator as real;
      var e, f, g, h := colPayoffs[0][0] as real, colPayoffs[0][1] as real, colPayoffs[1][0] as real, colPayoffs[1][1] as real;
      var pDenominator := PDenominator(colPayoffs);
      if pDenominator == 0 then None
      else
        var p := (h - g) / pDenominator as real;
        assert qDenominator as real == a - b - c + d && pDenominator as real == e - f - g + h;
        assert q * qDenominator as real == d - b;
        assert p * pDenominator as real == h - g;
        assert q * a + (1.0 - q) * b == q * c + (1.0 - q) * d;
        assert p * e + (1.0 - p) * g == p * f + (1.0 - p) * h;
        var rowMix := [p, 1.0 - p];
        var colMix := [q, 1.0 - q];
        Some(Solution(rowMix, colMix, RowPlayerValues(rowPayoffs, colMix), ColPlayerValues(colPayoffs, rowMix)))
  }

  /** Player 1 is indifferent between the rows when Player 2 plays the first column with probability q. */
  predicate RowIndifferent(m: Matrix, q: real)
    requires Has2x2(m)
  {
    var v := RowPlayerValues(m, [q, 1.0 - q]);
    v[0] == v[1]
  }

  /**
   * The q of `solveMixed2x2` is the only one that makes Player 1
   * indifferent; with a zero denominator either every q does (b = d) or
   * none does, so there is no mix to report.
   */
  lemma IndifferenceUnique(m: Matrix, q: real)
    requires Has2x2(m)
    ensures QDenominator(m) != 0 ==> (RowIndifferent(m, q) <==> q == (m[1][1] - m[0][1]) as real / QDenominator(m) as real)
    ensures QDenominator(m) == 0 ==> (RowIndifferent(m, q) <==> m[0][1] == m[1][1])
  {
    var a, b, c, d := m[0][0] as real, m[0][1] as real, m[1][0] as real, m[1][1] as real;
    var den := QDenominator(m) as real;
    assert den == a - b - c + d;
    var v := RowPlayerValues(m, [q, 1.0 - q]);
    assert v[0] - v[1] == q * den + b - d;
    if den != 0.0 {
      var q0 := (d - b) / den;
      assert q0 * den == d - b;
      if q * den + b - d == 0.0 {
        assert q * den == q0 * den;
      }
    }
  }

  /**
   * Whatever mix Player 1 plays against Player 2's solution mix, the
   * expected payoff is the same: no deviation of Player 1 pays more,
   * and likewise for Player 2 against Player 1's solution mix.
   */
  lemma NoProfitableDeviation(rowPayoffs: Matrix, colPayoffs: Matrix, x: real)
    requires Has2x2(rowPayoffs) && Has2x2(colPayoffs)
    requires SolveMixed2x2(rowPayoffs, colPayoffs).Some?
    ensures var s := SolveMixed2x2(rowPayoffs, colPayoffs).value;
      && x * s.rowValues[0] + (1.0 - x) * s.rowValues[1] == s.rowMix[0] * s.rowValues[0] + s.rowMix[1] * s.rowValues[1]
      && x * s.colValues[0] + (1.0 - x) * s.colValues[1] == s.colMix[0] * s.colValues[0] + s.colMix[1] * s.colValues[1]
  {
    var s := SolveMixed2x2(rowPayoffs, colPayoffs).value;
    assert x * s.rowValues[0] + (1.0 - x) * s.rowValues[1] == s.rowValues[0];
    assert s.rowMix[0] * s.rowValues[0] + s.rowMix[1] * s.rowValues[1] == (s.rowMix[0] + s.rowMix[1]) * s.rowValues[0];
    assert x * s.colValues[0] + (1.0 - x) * s.colValues[1] == s.colValues[0];
    assert s.colMix[0] * s.colValues[0] + s.colMix[1] * s.colValues[1] == (s.colMix[0] + s.colMix[1]) * s.colValues[0];
  }

  /**
   * With parallel payoffs (Player 2's matrix the transpose of Player 1's)
   * the two denominators and numerators coincide, so both players mix
   * alike and the parallel-style closeness check always passes.
   */
  lemma ParallelMixesAgree(rowPayoffs: Matrix)
    requires Nash.Shape(rowPayoffs, 2, 2)
    ensures var s := SolveMixed2x2(rowPayoffs, Transpose(rowPayoffs));
      s.Some? ==> s.value.rowMix == s.value.colMix && VectorsClose(s.value.rowMix, s.value.colMix, ParallelTolerance)
  {
    var t := Transpose(rowPayoffs);
    assert PDenominator(t) == QDenominator(rowPayoffs);
  }

  /** The bounds `isInteriorProbabilityVector` uses by default. */
  const MinProb: real := 0.08
  const MaxProb: real := 0.92

  /** The tolerance on the sum in `isInteriorProbabilityVector`. */
  const SumTolerance: real := 0.000001

  /** The tolerance `buildInstanceFromPayoffs` passes to `vectorsClose`. */
  const ParallelTolerance: real := 0.000001

  /**
   * `isInteriorProbabilityVector`: nonempty, summing to 1 within 1e-6,
   * every entry strictly between the bounds (reals are always finite).
   */
  predicate IsInteriorProbabilityVector(values: seq<real>, minProb: real, maxProb: real) {
    && |values| > 0
    && -SumTolerance <= Lottery.Sum(values) - 1.0 <= SumTolerance
    && forall i :: 0 <= i < |values| ==> minProb < values[i] < maxProb
  }

  /** `vectorsClose`: equal lengths and every pair of entries within the tolerance. */
  predicate VectorsClose(a: seq<real>, b: seq<real>, tolerance: real) {
    |a| == |b| && forall i :: 0 <= i < |a| ==> -tolerance <= a[i] - b[i] <= tolerance
  }

  /** For a two-entry mix (p, 1 − p), interior means 0.08 < p < 0.92. */
  lemma InteriorPair(p: real)
    ensures IsInteriorProbabilityVector([p, 1.0 - p], MinProb, MaxProb) <==> MinProb < p < MaxProb
  {
    assert Lottery.Sum([p, 1.0 - p]) == 1.0 by {
      assert [p, 1.0 - p][..1] == [p];
      assert [p][..0] == [];
      assert Lottery.Sum([p]) == p;
    }
  }

  /** `buildFallback2x2`: a fixed game; its Player 2 matrix is the transpose in the parallel style. */
  function Fallback2x2(parallel: bool): (pair: (Matrix, Matrix))
    ensures Nash.Shape(pair.0, 2, 2) && Nash.Shape(pair.1, 2, 2)
  {
    var rowPayoffs := [[4, 0], [1, 3]];
    assert Nash.Shape(Transpose(rowPayoffs), 2, 2);
    if parallel then (rowPayoffs, Transpose(rowPayoffs)) else (rowPayoffs, [[3, 1], [0, 4]])
  }

  /** `buildFallback3x3`: a fixed game; its Player 2 matrix is the transpose in the parallel style. */
  function Fallback3x3(parallel: bool): (pair: (Matrix, Matrix))
    ensures Nash.Shape(pair.0, 3, 3) && Nash.Shape(pair.1, 3, 3)
  {
    var rowPayoffs := [[9, 1, 4], [3, 8, 2], [5, 0, 7]];
    assert Nash.Shape(Transpose(rowPayoffs), 3, 3);
    if parallel then (rowPayoffs, Transpose(rowPayoffs)) else (rowPayoffs, [[6, 2, 9], [8, 5, 1], [3, 7, 4]])
  }

  /** Both fallback games are parallel exactly when asked: Player 2's matrix is then the transpose of Player 1's. */
  lemma FallbacksParallel()
    ensures Fallback2x2(true).1 == Transpose(Fallback2x2(true).0) && Fallback2x2(false).1 != Transpose(Fallback2x2(false).0)
    ensures Fallback3x3(true).1 == Transpose(Fallback3x3(true).0) && Fallback3x3(false).1 != Transpose(Fallback3x3(false).0)
  {
    assert Transpose(Fallback2x2(false).0)[0][0] == 4;
    assert Transpose(Fallback3x3(false).0)[0][0] == 9;
  }

  /** A solver for the 3x3 case: `solveMixed3x3` is not part of this model and is taken as a parameter. */
  type Solver3x3 = (Matrix, Matrix) -> Option<Solution>

  /** `solveMixedBySize`. */
  function SolveMixedBySize(size: nat, rowPayoffs: Matrix, colPayoffs: Matrix, solve3: Solver3x3): (s: Option<Solution>)
    requires size == 2 ==> Has2x2(rowPayoffs) && Has2x2(colPayoffs)
    ensures size == 2 ==> (s.None? <==> QDenominator(rowPayoffs) == 0 || PDenominator(colPayoffs) == 0)
    ensures size == 2 && s.Some? ==>
      && |s.value.rowMix| == 2 && |s.value.colMix| == 2
      && s.value.rowMix[0] + s.value.rowMix[1] == 1.0 && s.value.colMix[0] + s.value.colMix[1] == 1.0
    ensures size != 2 ==> s == solve3(rowPayoffs, colPayoffs)
  {
    if size == 2 then SolveMixed2x2(rowPayoffs, colPayoffs) else solve3(rowPayoffs, colPayoffs)
  }

  /** The checks of `buildInstanceFromPayoffs`: a solution, both mixes interior, and equal mixes in the parallel style. */
  predicate Accepted(size: nat, parallel: bool, rowPayoffs: Matrix, colPayoffs: Matrix, solve3: Solver3x3)
    requires size == 2 ==> Has2x2(rowPayoffs) && Has2x2(colPayoffs)
  {
    var s := SolveMixedBySize(size, rowPayoffs, colPayoffs, solve3);
    && s.Some?
    && IsInteriorProbabilityVector(s.value.rowMix, MinProb, MaxProb)
    && IsInteriorProbabilityVector(s.value.colMix, MinProb, MaxProb)
    && (parallel ==> VectorsClose(s.value.rowMix, s.value.colMix, ParallelTolerance))
  }

  /** The 2x2 fallback game is accepted in both styles: q = 1/2, and p = 1/2 or 2/3. */
  lemma Fallback2x2Accepted(parallel: bool, solve3: Solver3x3)
    ensures Accepted(2, parallel, Fallback2x2(parallel).0, Fallback2x2(parallel).1, solve3)
  {
    var (rowPayoffs, colPayoffs) := Fallback2x2(parallel);
    var s := SolveMixed2x2(rowPayoffs, colPayoffs).value;
    assert s.colMix[0] == 0.5;
    InteriorPair(s.colMix[0]);
    if parallel {
      assert s.rowMix[0] == 0.5;
    } else {
      assert s.rowMix[0] == 4.0 / 6.0;
    }
    InteriorPair(s.rowMix[0]);
  }

  /** A game instance (the HTML table is not modelled). */
  datatype Instance = Instance(
    size: nat,
    sizeId: string,
    payoffStyleId: string,
    rowStrategies: seq<string>,
    colStrategies: seq<string>,
    rowPayoffs: Matrix,
    colPayoffs: Matrix,
    pureEquilibria: seq<PureEquilibrium>,
    solution: Solution,
    solutionCellClasses: seq<seq<string>>)

  /** `inst` is what `buildInstanceFromPayoffs` builds from these payoffs once they are accepted. */
  ghost predicate Describes(inst: Instance, size: nat, sizeId: string, payoffStyleId: string,
                            rowPayoffs: Matrix, colPayoffs: Matrix, solve3: Solver3x3)
    requires Nash.Shape(rowPayoffs, size, size) && Nash.Shape(colPayoffs, size, size)
  {
    var labels := Letters.StrategyLabels(size, 0);
    && inst.size == size && inst.sizeId == sizeId && inst.payoffStyleId == payoffStyleId
    && inst.rowStrategies == labels && inst.colStrategies == labels
    && inst.rowPayoffs == rowPayoffs && inst.colPayoffs == colPayoffs
    && Some(inst.solution) == SolveMixedBySize(size, rowPayoffs, colPayoffs, solve3)
    && inst.pureEquilibria == PureEquilibria(rowPayoffs, colPayoffs, labels, labels)
    && CellClassesFor(inst.solutionCellClasses, RowBestMatrix(rowPayoffs, size, size), ColBestMatrix(colPayoffs, size, size), size, size)
  }

  /**
   * `buildInstanceFromPayoffs`: strategies A, B, (C) for both players;
   * null unless the payoffs are accepted; otherwise the solution, the
   * pure equilibria and their highlight classes.
   */
  method BuildInstanceFromPayoffs(size: nat, sizeId: string, payoffStyleId: string,
                                  rowPayoffs: Matrix, colPayoffs: Matrix, solve3: Solver3x3)
    returns (inst: Option<Instance>)
    requires Nash.Shape(rowPayoffs, size, size) && Nash.Shape(colPayoffs, size, size)
    ensures inst.Some? <==> Accepted(size, payoffStyleId == "parallel", rowPayoffs, colPayoffs, solve3)
    ensures inst.Some? ==> Describes(inst.value, size, sizeId, payoffStyleId, rowPayoffs, colPayoffs, solve3)
  {
    var rowStrategies := Letters.StrategyLabels(size, 0);
    var colStrategies := Letters.StrategyLabels(size, 0);
    var solution := SolveMixedBySize(size, rowPayoffs, colPayoffs, solve3);
    if solution.None? {
      return None;
    }
    if !IsInteriorProbabilityVector(solution.value.rowMix, MinProb, MaxProb) {
      return None;
    }
    if !IsInteriorProbabilityVector(solution.value.colMix, MinProb, MaxProb) {
      return None;
    }
    if payoffStyleId == "parallel" && !VectorsClose(solution.value.rowMix, solution.value.colMix, ParallelTolerance) {
      return None;
    }
    var pure, cellClasses := ComputePureNashEquilibria(rowPayoffs, colPayoffs, rowStrategies, colStrategies);
    inst := Some(Instance(size, sizeId, payoffStyleId, rowStrategies, colStrategies, rowPayoffs, colPayoffs,
                          pure, solution.value, cellClasses));
  }

  /** `sizeId === "3x3" ? 3 : 2`. */
  function SizeOf(sizeId: string): (size: nat)
    ensures size == 3 <==> sizeId == "3x3"
    ensures size == 2 || size == 3
  {
    if sizeId == "3x3" then 3 else 2
  }

  /** How many random pairs are tried before the fallback. */
  const Attempts: nat := 25000

  /** The pair drawn by attempt k, each attempt taking the same number of draws. */
  function PairAt(draws: Stream, base: nat, k: nat, size: nat, parallel: bool): (Matrix, Matrix)
    requires size > 0
  {
    PairFromDraws(draws, DuiGenerate.RowStart(base, k, PairDraws(size, parallel)), size, parallel)
  }

  /** Attempt k is accepted. */
  ghost predicate AcceptedAt(draws: Stream, base: nat, k: nat, size: nat, parallel: bool, solve3: Solver3x3)
    requires size > 0
  {
    var pair := PairAt(draws, base, k, size, parallel);
    PairFromDrawsShape(draws, DuiGenerate.RowStart(base, k, PairDraws(size, parallel)), size, parallel);
    Accepted(size, parallel, pair.0, pair.1, solve3)
  }

  /** `inst` is the instance built from the pair of attempt k. */
  ghost predicate DescribesAttempt(inst: Instance, draws: Stream, base: nat, k: nat, size: nat,
                                   sizeId: string, payoffStyleId: string, solve3: Solver3x3)
    requires size > 0
  {
    var parallel := payoffStyleId == "parallel";
    var pair := PairAt(draws, base, k, size, parallel);
    PairFromDrawsShape(draws, DuiGenerate.RowStart(base, k, PairDraws(size, parallel)), size, parallel);
    Describes(inst, size, sizeId, payoffStyleId, pair.0, pair.1, solve3)
  }

  /** The fixed game used when no attempt is accepted. */
  function Fallback(size: nat, parallel: bool): (pair: (Matrix, Matrix))
    requires size == 2 || size == 3
    ensures Nash.Shape(pair.0, size, size) && Nash.Shape(pair.1, size, size)
  {
    if size == 2 then Fallback2x2(parallel) else Fallback3x3(parallel)
  }

  /** What the final `buildInstanceFromPayoffs` on the fallback game returns. */
  ghost predicate FallbackOutcome(inst: Option<Instance>, size: nat, sizeId: string, payoffStyleId: string, solve3: Solver3x3)
    requires size == 2 || size == 3
  {
    var parallel := payoffStyleId == "parallel";
    var pair := Fallback(size, parallel);
    && (inst.Some? <==> Accepted(size, parallel, pair.0, pair.1, solve3))
    && (inst.Some? ==> Describes(inst.value, size, sizeId, payoffStyleId, pair.0, pair.1, solve3))
  }

  /** One pass of the retry loop: draw a pair at the position of attempt k and try to build an instance from it. */
  method TryAttempt(size: nat, sizeId: string, payoffStyleId: string, rng: Oracle, solve3: Solver3x3, ghost base: nat, ghost k: nat)
    returns (candidate: Option<Instance>)
    requires size > 0 && rng.calls == DuiGenerate.RowStart(base, k, PairDraws(size, payoffStyleId == "parallel"))
    modifies rng
    ensures rng.calls == DuiGenerate.RowStart(base, k + 1, PairDraws(size, payoffStyleId == "parallel"))
    ensures candidate.Some? <==> AcceptedAt(rng.draws, base, k, size, payoffStyleId == "parallel", solve3)
    ensures candidate.Some? ==> DescribesAttempt(candidate.value, rng.draws, base, k, size, sizeId, payoffStyleId, solve3)
  {
    var parallel := payoffStyleId == "parallel";
    DuiGenerate.RowStartNext(base, k, PairDraws(size, parallel));
    var rowPayoffs, colPayoffs := GeneratePayoffPair(size, payoffStyleId, rng);
    PairFromDrawsShape(rng.draws, DuiGenerate.RowStart(base, k, PairDraws(size, parallel)), size, parallel);
    assert (rowPayoffs, colPayoffs) == PairAt(rng.draws, base, k, size, parallel);
    candidate := BuildInstanceFromPayoffs(size, sizeId, payoffStyleId, rowPayoffs, colPayoffs, solve3);
  }

  /** Attempt k is the first one accepted. */
  ghost predicate FirstAcceptedAt(draws: Stream, base: nat, k: nat, size: nat, parallel: bool, solve3: Solver3x3)
    requires size > 0
  {
    && AcceptedAt(draws, base, k, size, parallel, solve3)
    && forall j :: 0 <= j < k ==> !AcceptedAt(draws, base, j, size, parallel, solve3)
  }

  /**
   * `buildMixedGameInstance`: size 3 exactly for "3x3", otherwise 2; up to
   * 25000 random pairs are drawn, and the first accepted one gives the
   * instance; when none is, the fixed fallback game is used. A 2x2 game
   * therefore always produces an instance.
   */
  method BuildMixedGameInstance(sizeId: string, payoffStyleId: string, rng: Oracle, solve3: Solver3x3)
    returns (inst: Option<Instance>)
    modifies rng
    ensures var size, parallel := SizeOf(sizeId), payoffStyleId == "parallel";
      var per := PairDraws(size, parallel);
      || (exists k :: 0 <= k < Attempts && FirstAcceptedAt(rng.draws, old(rng.calls), k, size, parallel, solve3)
            && rng.calls == DuiGenerate.RowStart(old(rng.calls), k + 1, per)
            && inst.Some? && DescribesAttempt(inst.value, rng.draws, old(rng.calls), k, size, sizeId, payoffStyleId, solve3))
      || ((forall j :: 0 <= j < Attempts ==> !AcceptedAt(rng.draws, old(rng.calls), j, size, parallel, solve3))
            && rng.calls == DuiGenerate.RowStart(old(rng.calls), Attempts, per)
            && FallbackOutcome(inst, size, sizeId, payoffStyleId, solve3))
    ensures SizeOf(sizeId) == 2 ==> inst.Some?
  {
    hide AcceptedAt, DescribesAttempt, Accepted, Describes;
    var size := SizeOf(sizeId);
    var parallel := payoffStyleId == "parallel";
    ghost var base := rng.calls;
    ghost var per := PairDraws(size, parallel);
    var attempt := 0;
    while attempt < Attempts
      invariant 0 <= attempt <= Attempts
      invariant rng.calls == DuiGenerate.RowStart(base, attempt, per)
      invariant forall j :: 0 <= j < attempt ==> !AcceptedAt(rng.draws, base, j, size, parallel, solve3)
    {
      var candidate := TryAttempt(size, sizeId, payoffStyleId, rng, solve3, base, attempt);
      if candidate.Some? {
        assert FirstAcceptedAt(rng.draws, base, attempt, size, parallel, solve3);
        return candidate;
      }
      attempt := attempt + 1;
    }
    var fallback := Fallback(size, parallel);
    if size == 2 {
      Fallback2x2Accepted(parallel, solve3);
    }
    inst := BuildInstanceFromPayoffs(size, sizeId, payoffStyleId, fallback.0, fallback.1, solve3);
  }
}
