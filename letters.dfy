/**
 * Spreadsheet-style letter labels: A, B, …, Z, AA, AB, …, the bijective
 * base-26 numeration used for strategy names and branch labels.
 */
module Letters {
  /** The capital letter with this position in the alphabet. */
  function Letter(d: int): (c: char)
    requires 0 <= d < 26
    ensures 'A' <= c <= 'Z'
  {
    (65 + d) as char
  }

  predicate IsUpper(s: string) {
    forall i :: 0 <= i < |s| ==> 'A' <= s[i] <= 'Z'
  }

  /** The label of index n: 0 is "A", 25 is "Z", 26 is "AA". */
  function Label(n: nat): (s: string)
    ensures |s| > 0 && IsUpper(s)
    ensures |s| == 1 <==> n < 26
  {
    if n < 26 then [Letter(n)] else Label(n / 26 - 1) + [Letter(n % 26)]
  }

  /** The index a non-empty string of capitals stands for. */
  function LabelValue(s: string): nat
    requires |s| > 0 && IsUpper(s)
  {
    if |s| == 1 then s[0] as int - 65
    else (LabelValue(s[..|s| - 1]) + 1) * 26 + (s[|s| - 1] as int - 65)
  }

  lemma {:induction false} LabelValueAtLeast(s: string)
    requires |s| > 1 && IsUpper(s)
    ensures LabelValue(s) >= 26
  {
  }

  /** Reading a label gives its index back. */
  lemma {:induction false} LabelValueOfLabel(n: nat)
    ensures LabelValue(Label(n)) == n
  {
    if n >= 26 {
      var s := Label(n);
      assert s[..|s| - 1] == Label(n / 26 - 1);
      LabelValueOfLabel(n / 26 - 1);
      assert s[|s| - 1] as int - 65 == n % 26;
    }
  }

  /** Every non-empty string of capitals is a label: the numeration is onto. */
  lemma {:induction false} LabelOfLabelValue(s: string)
    requires |s| > 0 && IsUpper(s)
    ensures Label(LabelValue(s)) == s
  {
    if |s| > 1 {
      var init := s[..|s| - 1];
      var w := LabelValue(init);
      var d := s[|s| - 1] as int - 65;
      var v := LabelValue(s);
      assert v == (w + 1) * 26 + d;
      assert v / 26 - 1 == w && v % 26 == d;
      LabelOfLabelValue(init);
      assert s == init + [s[|s| - 1]];
    }
  }

  /** Different indices have different labels. */
  lemma LabelInjective(a: nat, b: nat)
    requires Label(a) == Label(b)
    ensures a == b
  {
    LabelValueOfLabel(a);
    LabelValueOfLabel(b);
  }

  /** The first labels, as the numeration promises. */
  lemma LabelExamples()
    ensures Label(0) == "A" && Label(25) == "Z" && Label(26) == "AA" && Label(27) == "AB" && Label(701) == "ZZ" && Label(702) == "AAA"
  {
  }

  /** `Math.floor(n / 26)`: Dafny's division by a positive divisor already rounds down. */
  function FloorDiv26(n: int): (q: int)
    ensures 26 * q <= n < 26 * q + 26
  {
    n / 26
  }

  /** JavaScript's `%`: the remainder takes the sign of the dividend. */
  function JsRem26(n: int): (r: int)
    ensures -26 < r < 26
    ensures n >= 0 ==> r == n % 26
    ensures n < 0 ==> r <= 0 && (n - r) % 26 == 0
  {
    if n >= 0 then n % 26 else -((-n) % 26)
  }

  /**
   * nash_equilibrium.js and game_mixed.js `alphabetLabel`: letters are
   * prepended while the index stays non-negative; a negative index gives "".
   */
  method AlphabetLabel(index: int) returns (text: string)
    ensures index < 0 ==> text == ""
    ensures index >= 0 ==> text == Label(index)
  {
    var n := index;
    text := "";
    while n >= 0
      invariant index < 0 ==> n == index && text == ""
      invariant index >= 0 ==> n >= -1
      invariant index >= 0 && n >= 0 ==> Label(n) + text == Label(index)
      invariant index >= 0 && n < 0 ==> text == Label(index)
      decreases n + 1
    {
      text := [Letter(n % 26)] + text;
      if n >= 26 {
        assert Label(n) == Label(n / 26 - 1) + [Letter(n % 26)];
      }
      n := FloorDiv26(n) - 1;
    }
  }

  /** The rest of the do-while loop of `indexToLetters`, once `value` has been checked non-negative. */
  method PrependLabel(start: nat, suffix: string) returns (result: string)
    ensures result == Label(start) + suffix
  {
    var value := start as int;
    result := suffix;
    while value >= 0
      invariant value >= -1
      invariant value >= 0 ==> Label(value) + result == Label(start) + suffix
      invariant value < 0 ==> result == Label(start) + suffix
      decreases value + 1
    {
      if value >= 26 {
        assert Label(value) == Label(value / 26 - 1) + [Letter(value % 26)];
      }
      result := [Letter(value % 26)] + result;
      value := FloorDiv26(value) - 1;
    }
  }

  /**
   * decision_tree.js `indexToLetters`: the same numeration written as a
   * do-while loop, so one letter is produced even for a negative index;
   * that letter comes from JavaScript's signed remainder.
   */
  method IndexToLetters(index: int) returns (result: string)
    ensures index >= 0 ==> result == Label(index)
    ensures index < 0 ==> result == [(65 + JsRem26(index)) as char]
  {
    var value := index;
    result := [(65 + JsRem26(value)) as char];
    value := FloorDiv26(value) - 1;
    if value >= 0 {
      assert Label(index) == Label(value) + [Letter(index % 26)];
      result := PrependLabel(value, result);
    }
  }

  /** nash_equilibrium.js `buildStrategyLabels`: `count` labels from index `offset` on. */
  function StrategyLabels(count: nat, offset: nat): (labels: seq<string>)
    ensures |labels| == count
    ensures forall i :: 0 <= i < count ==> labels[i] == Label(offset + i)
  {
    seq(count, i requires 0 <= i < count => Label(offset + i))
  }

  /** The labels of a strategy list are pairwise different. */
  lemma StrategyLabelsDistinct(count: nat, offset: nat)
    ensures var labels := StrategyLabels(count, offset);
      forall i, j :: 0 <= i < j < count ==> labels[i] != labels[j]
  {
    var labels := StrategyLabels(count, offset);
    forall i, j | 0 <= i < j < count
      ensures labels[i] != labels[j]
    {
      if labels[i] == labels[j] {
        LabelInjective(offset + i, offset + j);
      }
    }
  }

  /**
   * The column strategies start at index `numRows`, so no column label
   * repeats a row label.
   */
  lemma RowAndColumnLabelsDiffer(numRows: nat, numCols: nat)
    ensures var rows, cols := StrategyLabels(numRows, 0), StrategyLabels(numCols, numRows);
      forall i, j :: 0 <= i < numRows && 0 <= j < numCols ==> rows[i] != cols[j]
  {
    var rows, cols := StrategyLabels(numRows, 0), StrategyLabels(numCols, numRows);
    forall i, j | 0 <= i < numRows && 0 <= j < numCols
      ensures rows[i] != cols[j]
    {
      if rows[i] == cols[j] {
        LabelInjective(i, numRows + j);
      }
    }
  }
}
