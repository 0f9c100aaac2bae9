/**
 * apps/exercises/modules/shared/decision_tree.js: the text helpers of the
 * decision-tree renderer — HTML escaping, the abstract branch labels
 * ("A", "A.2", "B.1.3") and the joining of signed LaTeX terms.
 */
module TreeText {
  import opened Wrappers
  import Letters
  import Text

  // --------------------------------------------------------- escapeHtml

  /** `s.replace(/c/g, rep)` for a single character `c`. */
  function ReplaceChar(s: string, c: char, rep: string): (r: string)
    ensures c !in rep ==> c !in r
  {
    if |s| == 0 then "" else (if s[0] == c then rep else [s[0]]) + ReplaceChar(s[1..], c, rep)
  }

  lemma {:induction false} ReplaceCharAppend(a: string, b: string, c: char, rep: string)
    ensures ReplaceChar(a + b, c, rep) == ReplaceChar(a, c, rep) + ReplaceChar(b, c, rep)
  {
    if |a| > 0 {
      ReplaceCharAppend(a[1..], b, c, rep);
      assert (a + b)[0] == a[0];
      assert (a + b)[1..] == a[1..] + b;
    } else {
      assert a + b == b;
    }
  }

  lemma ReplaceCharAbsent(s: string, c: char, rep: string)
    requires c !in s
    ensures ReplaceChar(s, c, rep) == s
  {
  }

  lemma ReplaceCharOne(x: char, c: char, rep: string)
    ensures ReplaceChar([x], c, rep) == if x == c then rep else [x]
  {
    assert [x][1..] == [];
  }

  lemma ReplaceCharKeeps(s: string, c: char, rep: string, d: char)
    requires d != c && d !in s && d !in rep
    ensures d !in ReplaceChar(s, c, rep)
  {
  }

  /**
   * `escapeHtml`: five global replacements in a row — `&` first, then
   * `<`, `>`, `"` and `'`.
   */
  function EscapeHtml(s: string): (r: string)
    ensures '&' !in s && '<' !in s && '>' !in s && '"' !in s && '\'' !in s ==> r == s
  {
    var amp := ReplaceChar(s, '&', "&amp;");
    var lt := ReplaceChar(amp, '<', "&lt;");
    var gt := ReplaceChar(lt, '>', "&gt;");
    var quot := ReplaceChar(gt, '"', "&quot;");
    if '&' !in s && '<' !in s && '>' !in s && '"' !in s && '\'' !in s then
      ReplaceCharAbsent(s, '&', "&amp;");
      ReplaceCharAbsent(s, '<', "&lt;");
      ReplaceCharAbsent(s, '>', "&gt;");
      ReplaceCharAbsent(s, '"', "&quot;");
      ReplaceCharAbsent(s, '\'', "&#39;");
      ReplaceChar(quot, '\'', "&#39;")
    else
      ReplaceChar(quot, '\'', "&#39;")
  }

  /** The escaped text has no `<`, `>`, `"` or `'` left. */
  lemma EscapeHtmlSafe(s: string)
    ensures var r := EscapeHtml(s);
      '<' !in r && '>' !in r && '"' !in r && '\'' !in r
  {
    var amp := ReplaceChar(s, '&', "&amp;");
    var lt := ReplaceChar(amp, '<', "&lt;");
    var gt := ReplaceChar(lt, '>', "&gt;");
    var quot := ReplaceChar(gt, '"', "&quot;");
    hide ReplaceChar;
    ReplaceCharKeeps(lt, '>', "&gt;", '<');
    ReplaceCharKeeps(gt, '"', "&quot;", '<');
    ReplaceCharKeeps(gt, '"', "&quot;", '>');
    ReplaceCharKeeps(quot, '\'', "&#39;", '<');
    ReplaceCharKeeps(quot, '\'', "&#39;", '>');
    ReplaceCharKeeps(quot, '\'', "&#39;", '"');
  }

  /** The entity one character becomes. */
  function EscapeChar(c: char): string {
    if c == '&' then "&amp;"
    else if c == '<' then "&lt;"
    else if c == '>' then "&gt;"
    else if c == '"' then "&quot;"
    else if c == '\'' then "&#39;"
    else [c]
  }

  function EscapeEach(s: string): string {
    if |s| == 0 then "" else EscapeChar(s[0]) + EscapeEach(s[1..])
  }

  lemma EscapeHtmlAppend(a: string, b: string)
    ensures EscapeHtml(a + b) == EscapeHtml(a) + EscapeHtml(b)
  {
    var a1, b1 := ReplaceChar(a, '&', "&amp;"), ReplaceChar(b, '&', "&amp;");
    ReplaceCharAppend(a, b, '&', "&amp;");
    var a2, b2 := ReplaceChar(a1, '<', "&lt;"), ReplaceChar(b1, '<', "&lt;");
    ReplaceCharAppend(a1, b1, '<', "&lt;");
    var a3, b3 := ReplaceChar(a2, '>', "&gt;"), ReplaceChar(b2, '>', "&gt;");
    ReplaceCharAppend(a2, b2, '>', "&gt;");
    var a4, b4 := ReplaceChar(a3, '"', "&quot;"), ReplaceChar(b3, '"', "&quot;");
    ReplaceCharAppend(a3, b3, '"', "&quot;");
    ReplaceCharAppend(a4, b4, '\'', "&#39;");
  }

  lemma EscapeHtmlChar(c: char)
    ensures EscapeHtml([c]) == EscapeChar(c)
  {
    hide ReplaceChar;
    var one := [c];
    var amp := ReplaceChar(one, '&', "&amp;");
    var lt := ReplaceChar(amp, '<', "&lt;");
    var gt := ReplaceChar(lt, '>', "&gt;");
    var quot := ReplaceChar(gt, '"', "&quot;");
    ReplaceCharOne(c, '&', "&amp;");
    ReplaceCharOne(c, '<', "&lt;");
    ReplaceCharOne(c, '>', "&gt;");
    ReplaceCharOne(c, '"', "&quot;");
    ReplaceCharOne(c, '\'', "&#39;");
    ReplaceCharAbsent("&amp;", '<', "&lt;");
    ReplaceCharAbsent("&amp;", '>', "&gt;");
    ReplaceCharAbsent("&amp;", '"', "&quot;");
    ReplaceCharAbsent("&amp;", '\'', "&#39;");
    ReplaceCharAbsent("&lt;", '>', "&gt;");
    ReplaceCharAbsent("&lt;", '"', "&quot;");
    ReplaceCharAbsent("&lt;", '\'', "&#39;");
    ReplaceCharAbsent("&gt;", '"', "&quot;");
    ReplaceCharAbsent("&gt;", '\'', "&#39;");
    ReplaceCharAbsent("&quot;", '\'', "&#39;");
    assert amp == if c == '&' then "&amp;" else one;
    assert lt == if c == '&' then "&amp;" else if c == '<' then "&lt;" else one;
    assert gt == if c == '&' then "&amp;" else if c == '<' then "&lt;" else if c == '>' then "&gt;" else one;
  }

  /**
   * Because `&` is replaced first and no later entity contains `<`, `>`,
   * `"` or `'`, the chained replacements escape each character on its own.
   */
  lemma {:induction false} EscapeHtmlCharwise(s: string)
    ensures EscapeHtml(s) == EscapeEach(s)
  {
    if |s| > 0 {
      assert s == [s[0]] + s[1..];
      EscapeHtmlAppend([s[0]], s[1..]);
      EscapeHtmlChar(s[0]);
      EscapeHtmlCharwise(s[1..]);
    }
  }

  /** Reads the five entities back; every other character stands for itself. */
  function UnescapeHtml(s: string): string
    decreases |s|
  {
    if |s| == 0 then ""
    else if "&amp;" <= s then "&" + UnescapeHtml(s[5..])
    else if "&lt;" <= s then "<" + UnescapeHtml(s[4..])
    else if "&gt;" <= s then ">" + UnescapeHtml(s[4..])
    else if "&quot;" <= s then "\"" + UnescapeHtml(s[6..])
    else if "&#39;" <= s then "'" + UnescapeHtml(s[5..])
    else [s[0]] + UnescapeHtml(s[1..])
  }

  lemma UnescapeStep(c: char, rest: string)
    ensures UnescapeHtml(EscapeChar(c) + rest) == [c] + UnescapeHtml(rest)
  {
    var e := EscapeChar(c);
    assert (e + rest)[|e|..] == rest;
    assert e <= e + rest;
    var t := e + rest;
    if c == '&' {
      assert t[5..] == rest;
    } else if c == '<' {
      assert t[1] == 'l' && t[4..] == rest;
    } else if c == '>' {
      assert t[1] == 'g' && t[4..] == rest;
    } else if c == '"' {
      assert t[1] == 'q' && t[6..] == rest;
    } else if c == '\'' {
      assert t[1] == '#' && t[5..] == rest;
    } else {
      assert e == [c];
      assert (e + rest)[0] == c && c != '&';
      assert !("&amp;" <= e + rest) && !("&lt;" <= e + rest) && !("&gt;" <= e + rest);
      assert !("&quot;" <= e + rest) && !("&#39;" <= e + rest);
    }
  }

  lemma {:induction false} UnescapeEscapeEach(s: string)
    ensures UnescapeHtml(EscapeEach(s)) == s
  {
    if |s| > 0 {
      UnescapeEscapeEach(s[1..]);
      UnescapeStep(s[0], EscapeEach(s[1..]));
      assert s == [s[0]] + s[1..];
    }
  }

  /** Escaping loses nothing: unescaping the output gives the input back. */
  lemma EscapeHtmlRoundTrip(s: string)
    ensures UnescapeHtml(EscapeHtml(s)) == s
  {
    EscapeHtmlCharwise(s);
    UnescapeEscapeEach(s);
  }

  // ------------------------------------------- buildAbstractBranchLabel

  /** The integers of a path written out as `String` does. */
  function IntStrings(xs: seq<int>): (r: seq<string>)
    ensures |r| == |xs|
    ensures forall i :: 0 <= i < |xs| ==> r[i] == Text.IntToString(xs[i])
  {
    seq(|xs|, i requires 0 <= i < |xs| => Text.IntToString(xs[i]))
  }

  /**
   * `buildAbstractBranchLabel(pathIndices)`: no path gives ""; otherwise
   * the first index k becomes the letters of max(0, k - 1) and the other
   * indices follow in decimal, all separated by dots.
   */
  function BuildAbstractBranchLabel(path: seq<int>): (name: string)
    ensures |path| == 0 <==> name == ""
  {
    if |path| == 0 then ""
    else
      var letter := Letters.Label(if path[0] - 1 < 0 then 0 else path[0] - 1);
      if |path| == 1 then letter else letter + "." + Text.Join(IntStrings(path[1..]), ".")
  }

  /** Reads a branch label back into its path: the letters, then one integer per dotted part. */
  function ParseBranchLabel(name: string): Option<seq<int>> {
    if name == "" then Some([]) else ParseParts(Text.Split(name, '.'))
  }

  function ParseParts(parts: seq<string>): Option<seq<int>> {
    if |parts| == 0 || |parts[0]| == 0 || !Letters.IsUpper(parts[0]) then None
    else
      match ParseAll(parts[1..])
      case None => None
      case Some(rest) => Some([Letters.LabelValue(parts[0]) + 1] + rest)
  }

  function ParseAll(parts: seq<string>): Option<seq<int>> {
    if |parts| == 0 then Some([])
    else
      match Text.ParseIntPrefix(parts[0])
      case None => None
      case Some(v) =>
        match ParseAll(parts[1..])
        case None => None
        case Some(rest) => Some([v] + rest)
  }

  lemma ParseAllCons(parts: seq<string>, v: int, rest: seq<int>)
    requires |parts| > 0 && Text.ParseIntPrefix(parts[0]) == Some(v)
    requires ParseAll(parts[1..]) == Some(rest)
    ensures ParseAll(parts) == Some([v] + rest)
  {
  }

  lemma IntStringsSplit(xs: seq<int>)
    requires |xs| > 0
    ensures IntStrings(xs)[0] == Text.IntToString(xs[0])
    ensures IntStrings(xs)[1..] == IntStrings(xs[1..])
  {
  }

  lemma {:induction false} ParseAllIntStrings(xs: seq<int>)
    ensures ParseAll(IntStrings(xs)) == Some(xs)
  {
    if |xs| > 0 {
      hide *;
      IntStringsSplit(xs);
      Text.ParseIntPrefixOfInt(xs[0]);
      ParseAllIntStrings(xs[1..]);
      ParseAllCons(IntStrings(xs), xs[0], xs[1..]);
      assert [xs[0]] + xs[1..] == xs;
    }
  }

  lemma NoDotInInt(i: int)
    ensures '.' !in Text.IntToString(i)
  {
    var s := Text.IntToString(i);
    if i < 0 {
      assert s[1..] == Text.NatToString(-i);
      assert forall k :: 1 <= k < |s| ==> s[k] == s[1..][k - 1];
    }
  }

  /** A label is its dotted parts joined: the letters, then the decimal indices. */
  function LabelParts(path: seq<int>): (parts: seq<string>)
    requires |path| > 0
    ensures |parts| == |path|
  {
    [Letters.Label(if path[0] - 1 < 0 then 0 else path[0] - 1)] + IntStrings(path[1..])
  }

  lemma LabelAsJoin(path: seq<int>)
    requires |path| > 0
    ensures BuildAbstractBranchLabel(path) == Text.Join(LabelParts(path), ".")
  {
    var parts := LabelParts(path);
    if |path| > 1 {
      assert parts[1..] == IntStrings(path[1..]);
    }
  }

  lemma LabelPartsNoDot(path: seq<int>)
    requires |path| > 0
    ensures forall i :: 0 <= i < |path| ==> '.' !in LabelParts(path)[i]
  {
    var parts := LabelParts(path);
    forall i | 0 <= i < |parts|
      ensures '.' !in parts[i]
    {
      if i > 0 {
        assert parts[i] == Text.IntToString(path[1..][i - 1]);
        NoDotInInt(path[1..][i - 1]);
      }
    }
  }

  lemma LabelPartsSplit(path: seq<int>)
    requires |path| > 0 && path[0] >= 1
    ensures LabelParts(path)[0] == Letters.Label(path[0] - 1)
    ensures LabelParts(path)[1..] == IntStrings(path[1..])
    ensures |LabelParts(path)[0]| > 0 && Letters.IsUpper(LabelParts(path)[0])
  {
  }

  lemma ParsePartsOf(parts: seq<string>, rest: seq<int>)
    requires |parts| > 0 && |parts[0]| > 0 && Letters.IsUpper(parts[0])
    requires ParseAll(parts[1..]) == Some(rest)
    ensures ParseParts(parts) == Some([Letters.LabelValue(parts[0]) + 1] + rest)
  {
  }

  lemma ParseFromParts(path: seq<int>)
    requires |path| > 0 && path[0] >= 1
    ensures ParseParts(LabelParts(path)) == Some(path)
  {
    hide *;
    var parts := LabelParts(path);
    var letter := Letters.Label(path[0] - 1);
    LabelPartsSplit(path);
    Letters.LabelValueOfLabel(path[0] - 1);
    ParseAllIntStrings(path[1..]);
    ParsePartsOf(parts, path[1..]);
    assert [Letters.LabelValue(letter) + 1] + path[1..] == path;
  }

  /**
   * A label of a path whose first index is at least 1 reads back as that
   * path, so different such paths get different labels.
   */
  lemma BranchLabelRoundTrip(path: seq<int>)
    requires |path| > 0 ==> path[0] >= 1
    ensures ParseBranchLabel(BuildAbstractBranchLabel(path)) == Some(path)
  {
    if |path| > 0 {
      var name := BuildAbstractBranchLabel(path);
      LabelAsJoin(path);
      LabelPartsNoDot(path);
      Text.SplitJoin(LabelParts(path), '.');
      ParseFromParts(path);
    }
  }

  lemma BranchLabelsDistinct(p: seq<int>, q: seq<int>)
    requires |p| > 0 ==> p[0] >= 1
    requires |q| > 0 ==> q[0] >= 1
    requires p != q
    ensures BuildAbstractBranchLabel(p) != BuildAbstractBranchLabel(q)
  {
    BranchLabelRoundTrip(p);
    BranchLabelRoundTrip(q);
  }

  // ---------------------------------------------------- joinSignedLatex

  function DropDashes(s: string): (r: string)
    ensures |r| > 0 ==> r[0] != '-'
  {
    if |s| > 0 && s[0] == '-' then DropDashes(s[1..]) else s
  }

  /**
   * One term of `joinSignedLatex`: a term starting with "-" loses its
   * leading dashes and the whitespace after them and is written "- x";
   * any other term is written "+ x", except the first, which stays bare.
   */
  function SignedTerm(term: string, index: nat): (r: string)
    ensures |term| > 0 && term[0] == '-' ==> |r| >= 2 && r[..2] == "- " && !(|r| > 2 && Text.IsSpace(r[2]))
    ensures !(|term| > 0 && term[0] == '-') ==> |r| >= |term| && r[|r| - |term|..] == term
    ensures !(|term| > 0 && term[0] == '-') && index > 0 ==> |r| == |term| + 2 && r[..2] == "+ "
  {
    var negative := |term| > 0 && term[0] == '-';
    var normalized := if negative then Text.TrimStart(DropDashes(term)) else term;
    if negative then "- " + normalized
    else if index == 0 then normalized
    else "+ " + normalized
  }

  /** `values.filter(Boolean).map((v) => String(v).trim())`. */
  function NonEmptyTrimmed(values: seq<string>): (parts: seq<string>)
    ensures |parts| <= |values|
  {
    if |values| == 0 then []
    else
      var rest := NonEmptyTrimmed(values[1..]);
      if values[0] == "" then rest else [Text.Trim(values[0])] + rest
  }

  /** `joinSignedLatex(values)`: the signed terms joined by single spaces. */
  function JoinSignedLatex(values: seq<string>): (r: string)
    ensures NonEmptyTrimmed(values) == [] ==> r == ""
  {
    var parts := NonEmptyTrimmed(values);
    if |parts| == 0 then ""
    else Text.Join(seq(|parts|, i requires 0 <= i < |parts| => SignedTerm(parts[i], i)), " ")
  }

  /**
   * Signs are rendered as operators: a negative term shows "- " and never
   * two minus signs in a row; a later non-negative term shows "+ ".
   */
  lemma SignedTermSign(term: string, index: nat)
    ensures |term| > 0 && term[0] == '-' ==> SignedTerm(term, index)[..2] == "- "
    ensures !(|term| > 0 && term[0] == '-') && index > 0 ==> SignedTerm(term, index)[..2] == "+ "
    ensures !(|term| > 0 && term[0] == '-') && index == 0 ==> SignedTerm(term, index) == term
  {
  }

  /** A negative integer is shown as "- " followed by its magnitude. */
  lemma SignedTermOfNegative(n: int, index: nat)
    requires n > 0
    ensures SignedTerm(Text.IntToString(-n), index) == "- " + Text.IntToString(n)
  {
    var s := Text.IntToString(-n);
    assert s == "-" + Text.NatToString(n);
    var digits := Text.NatToString(n);
    assert DropDashes(s) == digits by {
      assert s[1..] == digits;
      assert digits[0] != '-';
    }
    Text.IntToStringTrimmed(n);
  }

  /** Only empty values are dropped; with none left the result is empty, and with one it is that term. */
  lemma JoinSignedLatexSingle(v: string)
    requires v != "" && Text.Trim(v) != "" && Text.Trim(v)[0] != '-'
    ensures JoinSignedLatex([v]) == Text.Trim(v)
  {
  }
}
