/**
 * The text helpers of tools/yale_symposium_fetch.py: `_strip_tags`
 * (regular-expression tag removal, a fixed set of entity replacements,
 * whitespace collapsing and `str.strip`), Python's `str.find`, and the
 * `strptime(..., "%B %d, %Y")` / `isoformat()` date conversion of
 * `_extract_article`.
 */
module ScraperText {
  import opened Wrappers
  import Text

  // ---------------------------------------------------------- whitespace

  /** Python's `str.isspace`, which is also what `\s` matches in a `str` pattern. */
  predicate IsPySpace(c: char) {
    || c == ' ' || c == '\t' || c == '\n' || c == '\r' || c == '\U{0B}' || c == '\U{0C}'
    || ('\U{1C}' <= c <= '\U{1F}') || c == '\U{85}' || c == '\U{A0}' || c == '\U{1680}'
    || ('\U{2000}' <= c <= '\U{200A}') || c == '\U{2028}' || c == '\U{2029}'
    || c == '\U{202F}' || c == '\U{205F}' || c == '\U{3000}'
  }

  predicate AllPySpace(t: string) {
    forall i :: 0 <= i < |t| ==> IsPySpace(t[i])
  }

  /** The string without its leading whitespace. */
  function DropSpaces(s: string): (r: string)
    ensures |r| <= |s| && r == s[|s| - |r|..]
    ensures |r| > 0 ==> !IsPySpace(r[0])
    ensures AllPySpace(s[..|s| - |r|])
  {
    hide IsPySpace;
    if |s| > 0 && IsPySpace(s[0]) then
      var r := DropSpaces(s[1..]);
      assert s[..|s| - |r|] == [s[0]] + s[1..][..|s| - 1 - |r|];
      r
    else s
  }

  /** The string without its trailing whitespace. */
  function DropTrailingSpaces(s: string): (r: string)
    ensures |r| <= |s| && r == s[..|r|]
    ensures |r| > 0 ==> !IsPySpace(r[|r| - 1])
    ensures AllPySpace(s[|r|..])
  {
    hide IsPySpace;
    if |s| > 0 && IsPySpace(s[|s| - 1]) then
      var r := DropTrailingSpaces(s[..|s| - 1]);
      assert s[|r|..] == s[..|s| - 1][|r|..] + [s[|s| - 1]];
      r
    else s
  }

  /** How many whitespace characters `s` starts with. */
  function LeadingSpaces(s: string): (n: nat)
    ensures n <= |s|
  {
    |s| - |DropSpaces(s)|
  }

  /** `str.strip()`: neither the first nor the last character of the result is whitespace. */
  function Strip(s: string): (r: string)
    ensures |r| > 0 ==> !IsPySpace(r[0]) && !IsPySpace(r[|r| - 1])
  {
    hide IsPySpace, AllPySpace;
    var t := DropSpaces(s);
    var r := DropTrailingSpaces(t);
    assert |r| > 0 ==> r[0] == t[0];
    r
  }

  lemma StripIsSlice(s: string)
    ensures LeadingSpaces(s) + |Strip(s)| <= |s|
    ensures Strip(s) == s[LeadingSpaces(s)..LeadingSpaces(s) + |Strip(s)|]
  {
    hide IsPySpace, AllPySpace, DropSpaces, DropTrailingSpaces;
    var t := DropSpaces(s);
    var r := DropTrailingSpaces(t);
    assert Strip(s) == r && LeadingSpaces(s) == |s| - |t|;
    assert t == s[|s| - |t|..];
    assert r == t[..|r|];
  }

  lemma StripSuffix(s: string)
    ensures LeadingSpaces(s) + |Strip(s)| <= |s|
    ensures AllPySpace(s[LeadingSpaces(s) + |Strip(s)|..])
  {
    hide IsPySpace, AllPySpace, DropSpaces, DropTrailingSpaces;
    var t := DropSpaces(s);
    var r := DropTrailingSpaces(t);
    var a := LeadingSpaces(s);
    assert Strip(s) == r && a == |s| - |t|;
    assert s[a + |r|..] == t[|r|..] by {
      assert t == s[a..];
    }
  }

  /** What `str.strip()` removes is whitespace: it returns the slice between a whitespace prefix and a whitespace suffix. */
  lemma StripSlice(s: string)
    ensures LeadingSpaces(s) + |Strip(s)| <= |s|
    ensures Strip(s) == s[LeadingSpaces(s)..LeadingSpaces(s) + |Strip(s)|]
    ensures AllPySpace(s[..LeadingSpaces(s)]) && AllPySpace(s[LeadingSpaces(s) + |Strip(s)|..])
  {
    hide IsPySpace, AllPySpace;
    StripIsSlice(s);
    StripSuffix(s);
  }

  /**
   * `re.sub(r"\s+", " ", s)`: every run of whitespace becomes one space,
   * so the text gets no longer and the only whitespace left is the plain
   * space.
   */
  function CollapseSpaces(s: string): (r: string)
    ensures |r| <= |s|
    ensures forall i :: 0 <= i < |r| && IsPySpace(r[i]) ==> r[i] == ' '
    decreases |s|
  {
    if |s| == 0 then ""
    else if IsPySpace(s[0]) then " " + CollapseSpaces(DropSpaces(s))
    else [s[0]] + CollapseSpaces(s[1..])
  }

  /** Every whitespace character is a plain space, and no two are adjacent. */
  predicate SingleSpaced(t: string) {
    forall i :: 0 <= i < |t| && IsPySpace(t[i]) ==> t[i] == ' ' && (i + 1 < |t| ==> !IsPySpace(t[i + 1]))
  }

  /** What `_strip_tags` returns is always in this form. */
  predicate Normalized(t: string) {
    SingleSpaced(t) && (|t| > 0 ==> !IsPySpace(t[0]) && !IsPySpace(t[|t| - 1]))
  }

  lemma ConsSingleSpaced(c: char, t: string)
    requires SingleSpaced(t)
    requires IsPySpace(c) ==> c == ' ' && (|t| > 0 ==> !IsPySpace(t[0]))
    ensures SingleSpaced([c] + t)
  {
    hide IsPySpace;
    var r := [c] + t;
    forall i | 0 <= i < |r| && IsPySpace(r[i])
      ensures r[i] == ' ' && (i + 1 < |r| ==> !IsPySpace(r[i + 1]))
    {
      if i > 0 {
        assert r[i] == t[i - 1];
      }
    }
  }

  lemma {:induction false} CollapseSpacesSingle(s: string)
    ensures SingleSpaced(CollapseSpaces(s))
    ensures |s| > 0 ==> |CollapseSpaces(s)| > 0 && (IsPySpace(CollapseSpaces(s)[0]) <==> IsPySpace(s[0]))
    decreases |s|
  {
    assert IsPySpace(' ');
    hide IsPySpace, DropSpaces, SingleSpaced;
    if |s| > 0 {
      if IsPySpace(s[0]) {
        var t := DropSpaces(s);
        CollapseSpacesSingle(t);
        ConsSingleSpaced(' ', CollapseSpaces(t));
      } else {
        CollapseSpacesSingle(s[1..]);
        ConsSingleSpaced(s[0], CollapseSpaces(s[1..]));
      }
    }
  }

  lemma SingleSpacedSlice(t: string, a: nat, b: nat)
    requires SingleSpaced(t) && a <= b <= |t|
    ensures SingleSpaced(t[a..b])
  {
    hide IsPySpace;
    forall i | 0 <= i < b - a && IsPySpace(t[a..b][i])
      ensures t[a..b][i] == ' ' && (i + 1 < b - a ==> !IsPySpace(t[a..b][i + 1]))
    {
      assert t[a..b][i] == t[a + i];
    }
  }

  /** `re.sub(r"\s+", " ", s).strip()` always yields a normalized string. */
  lemma NormalizeSpacesNormalized(s: string)
    ensures Normalized(Strip(CollapseSpaces(s)))
  {
    hide IsPySpace;
    var c := CollapseSpaces(s);
    CollapseSpacesSingle(s);
    var r := Strip(c);
    var a := LeadingSpaces(c);
    StripSlice(c);
    SingleSpacedSlice(c, a, a + |r|);
  }

  lemma SingleSpacedAt(t: string, i: nat)
    requires SingleSpaced(t) && i < |t| && IsPySpace(t[i])
    ensures t[i] == ' ' && (i + 1 < |t| ==> !IsPySpace(t[i + 1]))
  {
  }

  lemma CollapseCons(c: char, rest: string)
    requires !IsPySpace(c)
    ensures CollapseSpaces([c] + rest) == [c] + CollapseSpaces(rest)
  {
    assert ([c] + rest)[1..] == rest;
  }

  lemma CollapseSpaceCons(after: string)
    requires |after| > 0 ==> !IsPySpace(after[0])
    ensures CollapseSpaces(" " + after) == " " + CollapseSpaces(after)
  {
    assert IsPySpace(' ');
    hide IsPySpace;
    assert DropSpaces(" " + after) == after by {
      assert (" " + after)[1..] == after;
    }
  }

  lemma {:induction false} CollapseNormalized(t: string)
    requires SingleSpaced(t) && (|t| > 0 ==> !IsPySpace(t[0]))
    ensures CollapseSpaces(t) == t
    decreases |t|
  {
    if |t| > 0 {
      hide IsPySpace, SingleSpaced, CollapseSpaces, DropSpaces;
      var rest := t[1..|t|];
      assert t == [t[0]] + rest;
      SingleSpacedSlice(t, 1, |t|);
      CollapseCons(t[0], rest);
      if |rest| > 0 && IsPySpace(rest[0]) {
        var after := t[2..|t|];
        assert rest[0] == t[1] && (|after| > 0 ==> after[0] == t[2]);
        SingleSpacedAt(t, 1);
        SingleSpacedSlice(t, 2, |t|);
        assert rest == " " + after;
        CollapseSpaceCons(after);
        CollapseNormalized(after);
        assert CollapseSpaces(rest) == rest;
      } else {
        CollapseNormalized(rest);
      }
    }
  }

  /** On a normalized string, collapsing and stripping change nothing. */
  lemma NormalizeSpacesIdempotent(t: string)
    requires Normalized(t)
    ensures Strip(CollapseSpaces(t)) == t
  {
    hide IsPySpace;
    CollapseNormalized(t);
    assert DropSpaces(t) == t;
    assert DropTrailingSpaces(t) == t;
  }

  // ------------------------------------------------------ tag removal

  /** The first index at or after `from` holding `c`. */
  function FindChar(s: string, c: char, from: nat): (r: Option<nat>)
    ensures r.Some? ==> from <= r.value < |s| && s[r.value] == c && forall k :: from <= k < r.value ==> s[k] != c
    ensures r.None? ==> forall k :: from <= k < |s| ==> s[k] != c
    decreases |s| - from
  {
    if from >= |s| then None
    else if s[from] == c then Some(from)
    else FindChar(s, c, from + 1)
  }

  /**
   * `re.sub(r"<[^>]+>", "", s)`: scanning from the left, a `<` followed by
   * at least one character other than `>` and then a `>` is removed up to
   * and including that `>`; any other character is kept.
   */
  function RemoveTags(s: string): (r: string)
    ensures |r| <= |s|
    ensures '<' !in s ==> r == s
    decreases |s|
  {
    if |s| == 0 then ""
    else if s[0] == '<' && |s| >= 2 && s[1] != '>' then
      match FindChar(s, '>', 2)
      case Some(k) => RemoveTags(s[k + 1..])
      case None => [s[0]] + RemoveTags(s[1..])
    else [s[0]] + RemoveTags(s[1..])
  }

  /** No substring matches `<[^>]+>`: between a `<` and a later `>` two or more places on, there is another `>`. */
  predicate NoTag(t: string) {
    forall i, j :: 0 <= i && i + 1 < j < |t| && t[i] == '<' && t[j] == '>' ==> '>' in t[i + 1..j]
  }

  lemma {:induction false} RemoveTagsChars(s: string, c: char)
    requires c in RemoveTags(s)
    ensures c in s
    decreases |s|
  {
    if |s| > 0 {
      if s[0] == '<' && |s| >= 2 && s[1] != '>' && FindChar(s, '>', 2).Some? {
        var k := FindChar(s, '>', 2).value;
        RemoveTagsChars(s[k + 1..], c);
        assert s[k + 1..] == s[k + 1..|s|];
      } else if c != s[0] {
        RemoveTagsChars(s[1..], c);
      }
    }
  }

  lemma NoTagCons(c: char, rest: string)
    requires NoTag(rest)
    requires c == '<' && |rest| > 0 ==> rest[0] == '>' || '>' !in rest
    ensures NoTag([c] + rest)
  {
    var r := [c] + rest;
    forall i, j | 0 <= i && i + 1 < j < |r| && r[i] == '<' && r[j] == '>'
      ensures '>' in r[i + 1..j]
    {
      assert r[j] == rest[j - 1];
      if i == 0 {
        assert r[1] == rest[0];
      } else {
        assert r[i + 1..j] == rest[i..j - 1];
      }
    }
  }

  /** No tag survives `_strip_tags`'s first substitution. */
  lemma {:induction false} RemoveTagsNoTag(s: string)
    ensures NoTag(RemoveTags(s))
    decreases |s|
  {
    if |s| > 0 {
      if s[0] == '<' && |s| >= 2 && s[1] != '>' && FindChar(s, '>', 2).Some? {
        RemoveTagsNoTag(s[FindChar(s, '>', 2).value + 1..]);
      } else {
        var rest := RemoveTags(s[1..]);
        RemoveTagsNoTag(s[1..]);
        if s[0] == '<' && |rest| > 0 {
          if s[1] == '>' {
            assert rest == [s[1]] + RemoveTags(s[2..]) by {
              assert s[1..][1..] == s[2..];
            }
          } else if '>' in rest {
            RemoveTagsChars(s[1..], '>');
            assert false;
          }
        }
        NoTagCons(s[0], rest);
      }
    }
  }

  lemma {:induction false} RemoveTagsPlain(s: string)
    requires '<' !in s
    ensures RemoveTags(s) == s
    decreases |s|
  {
    if |s| > 0 {
      RemoveTagsPlain(s[1..]);
      assert s == [s[0]] + s[1..];
    }
  }

  // ----------------------------------------------------- replacements

  /** `s.replace(pat, rep)`: every non-overlapping occurrence, from the left. */
  function ReplaceAll(s: string, pat: string, rep: string): string
    requires |pat| > 0
    decreases |s|
  {
    if |s| < |pat| then s
    else if s[..|pat|] == pat then rep + ReplaceAll(s[|pat|..], pat, rep)
    else [s[0]] + ReplaceAll(s[1..], pat, rep)
  }

  lemma {:induction false} ReplaceAllAbsent(s: string, pat: string, rep: string)
    requires |pat| > 0 && pat[0] !in s
    ensures ReplaceAll(s, pat, rep) == s
    decreases |s|
  {
    if |s| >= |pat| {
      assert s[0] != pat[0];
      assert s[..|pat|] != pat;
      ReplaceAllAbsent(s[1..], pat, rep);
      assert s == [s[0]] + s[1..];
    }
  }

  /** The entities `_strip_tags` decodes, in the order it decodes them. */
  const Entities: seq<(string, string)> := [
    ("&nbsp;", " "), ("&amp;", "&"), ("&#8217;", "\U{2019}"), ("&#8211;", "\U{2013}"),
    ("&#8212;", "\U{2014}"), ("&#8220;", "\U{201C}"), ("&#8221;", "\U{201D}"), ("&#8230;", "\U{2026}")
  ]

  /** The replacements from the `i`-th entity on, applied in order. */
  function DecodeFrom(s: string, i: nat): string
    requires i <= |Entities|
    decreases |Entities| - i
  {
    if i == |Entities| then s
    else
      assert |Entities[i].0| > 0;
      DecodeFrom(ReplaceAll(s, Entities[i].0, Entities[i].1), i + 1)
  }

  /** The entity replacements in order; text without `&` has no entity and is kept. */
  function DecodeEntities(s: string): (r: string)
    ensures '&' !in s ==> r == s
  {
    if '&' !in s then
      DecodeFromPlain(s, 0);
      DecodeFrom(s, 0)
    else DecodeFrom(s, 0)
  }

  lemma {:induction false} DecodeFromPlain(s: string, i: nat)
    requires i <= |Entities| && '&' !in s
    ensures DecodeFrom(s, i) == s
    decreases |Entities| - i
  {
    if i < |Entities| {
      assert Entities[i].0[0] == '&';
      ReplaceAllAbsent(s, Entities[i].0, Entities[i].1);
      DecodeFromPlain(s, i + 1);
    }
  }

  /**
   * `_strip_tags`: tags removed, the entities decoded, whitespace runs
   * collapsed to one space and the ends stripped; the result is always
   * normalized.
   */
  function StripTags(html: string): (r: string)
    ensures Normalized(r)
  {
    NormalizeSpacesNormalized(DecodeEntities(RemoveTags(html)));
    Strip(CollapseSpaces(DecodeEntities(RemoveTags(html))))
  }

  /**
   * On text with no `<` and no `&` (so on any result of `_strip_tags` that
   * has neither), `_strip_tags` changes nothing.
   */
  lemma StripTagsIdempotent(s: string)
    requires '<' !in StripTags(s) && '&' !in StripTags(s)
    ensures StripTags(StripTags(s)) == StripTags(s)
  {
    var t := StripTags(s);
    RemoveTagsPlain(t);
    DecodeFromPlain(t, 0);
    NormalizeSpacesIdempotent(t);
  }

  // -------------------------------------------------------- searching

  predicate OccursAt(s: string, pat: string, k: nat) {
    k + |pat| <= |s| && s[k..k + |pat|] == pat
  }

  /** `s.find(pat, start)`: the first occurrence at or after `start`, None for -1. */
  function Find(s: string, pat: string, from: nat): (r: Option<nat>)
    requires |pat| > 0
    ensures r.Some? ==> from <= r.value && OccursAt(s, pat, r.value)
    ensures r.Some? ==> forall k :: from <= k < r.value ==> !OccursAt(s, pat, k)
    ensures r.None? ==> forall k :: from <= k ==> !OccursAt(s, pat, k)
    decreases |s| - from
  {
    if from + |pat| > |s| then None
    else if s[from..from + |pat|] == pat then Some(from)
    else Find(s, pat, from + 1)
  }

  /** The number of whitespace characters `s` starts with (what a greedy `\s*` consumes). */
  function SpaceRun(s: string, from: nat): (n: nat)
    ensures from + n <= |s| || n == 0
    ensures forall k :: from <= k < from + n ==> IsPySpace(s[k])
    ensures from + n < |s| ==> !IsPySpace(s[from + n])
    decreases |s| - from
  {
    hide IsPySpace;
    if from < |s| && IsPySpace(s[from]) then 1 + SpaceRun(s, from + 1) else 0
  }

  // ------------------------------------------------------------- dates

  datatype Date = Date(year: nat, month: nat, day: nat)

  /** The English name of month `m`, as `%B` reads it in the C locale. */
  function MonthName(m: nat): string
    requires 1 <= m <= 12
  {
    [ "January", "February", "March", "April", "May", "June",
      "July", "August", "September", "October", "November", "December" ][m - 1]
  }

  function LowerAscii(c: char): char {
    if 'A' <= c <= 'Z' then (c as int + 32) as char else c
  }

  /** `s` has the month name at `from`, letters compared without case (`strptime` matches `%B` ignoring case). */
  predicate MonthAt(s: string, from: nat, name: string) {
    from + |name| <= |s| && forall k :: 0 <= k < |name| ==> LowerAscii(s[from + k]) == LowerAscii(name[k])
  }

  /** The first month (1 to 12) whose name starts `s`. */
  function MatchMonth(s: string, m: nat): (r: Option<(nat, nat)>)
    requires 1 <= m <= 13
    ensures r.Some? ==> m <= r.value.0 <= 12 && r.value.1 == |MonthName(r.value.0)|
    ensures r.Some? ==> MonthAt(s, 0, MonthName(r.value.0))
    decreases 13 - m
  {
    hide MonthName;
    if m > 12 then None
    else if MonthAt(s, 0, MonthName(m)) then Some((m, |MonthName(m)|))
    else MatchMonth(s, m + 1)
  }

  /** The `%d` token: 1 to 9, or two digits from 01 to 31. */
  predicate DayToken(t: string) {
    || (|t| == 1 && '1' <= t[0] <= '9')
    || (|t| == 2 && '0' <= t[1] <= '9' &&
        ((t[0] == '0' && t[1] != '0') || t[0] == '1' || t[0] == '2' || (t[0] == '3' && t[1] <= '1')))
  }

  function DigitRun(s: string, from: nat): (n: nat)
    ensures from + n <= |s| || n == 0
    ensures forall k :: from <= k < from + n ==> '0' <= s[k] <= '9'
    ensures from + n < |s| ==> !('0' <= s[from + n] <= '9')
    decreases |s| - from
  {
    if from < |s| && '0' <= s[from] <= '9' then 1 + DigitRun(s, from + 1) else 0
  }

  predicate LeapYear(y: nat) {
    (y % 4 == 0 && y % 100 != 0) || y % 400 == 0
  }

  function DaysInMonth(year: nat, month: nat): (n: nat)
    requires 1 <= month <= 12
    ensures 28 <= n <= 31
  {
    if month == 2 then (if LeapYear(year) then 29 else 28)
    else if month == 4 || month == 6 || month == 9 || month == 11 then 30
    else 31
  }

  /** A date `datetime` accepts. */
  predicate ValidDate(d: Date) {
    1 <= d.year <= 9999 && 1 <= d.month <= 12 && 1 <= d.day <= DaysInMonth(d.year, d.month)
  }

  /** `\s+` at `from`: the index after the run, None when there is no whitespace there. */
  function SkipSpaces(s: string, from: nat): (r: Option<nat>)
    ensures r.Some? ==> from < r.value <= |s|
  {
    var n := SpaceRun(s, from);
    if n == 0 then None else Some(from + n)
  }

  /** The `%d` field at `from`: its value and the index after it. */
  function ReadDay(s: string, from: nat): (r: Option<(nat, nat)>)
    ensures r.Some? ==> from < r.value.1 <= |s|
  {
    var n := DigitRun(s, from);
    if n == 0 || !DayToken(s[from..from + n]) then None
    else Some((Text.DigitsValue(s[from..from + n]), from + n))
  }

  /** The `%Y` field at `from`, which must also end the string: exactly four digits. */
  function ReadYear(s: string, from: nat): (r: Option<nat>)
  {
    if from + 4 != |s| || DigitRun(s, from) != 4 then None
    else Some(Text.DigitsValue(s[from..]))
  }

  /**
   * `datetime.strptime(s, "%B %d, %Y").date()`: a month name, whitespace,
   * the day, a comma, whitespace, four digits and nothing more, naming a
   * real date; None where `strptime` raises `ValueError`.
   */
  function ParseDisplayDate(s: string): (r: Option<Date>)
    ensures r.Some? ==> ValidDate(r.value)
  {
    hide MonthName;
    match MatchMonth(s, 1)
    case None => None
    case Some((month, p)) =>
      match SkipSpaces(s, p)
      case None => None
      case Some(q) =>
        match ReadDay(s, q)
        case None => None
        case Some((day, c)) =>
          if c >= |s| || s[c] != ',' then None
          else
            match SkipSpaces(s, c + 1)
            case None => None
            case Some(y) =>
              match ReadYear(s, y)
              case None => None
              case Some(year) =>
                if ValidDate(Date(year, month, day)) then Some(Date(year, month, day)) else None
  }

  /** `n` in decimal, padded with zeros to `width` digits. */
  function Pad(n: nat, width: nat): (s: string)
    ensures |s| >= width && Text.IsDigits(s)
  {
    var digits := Text.NatToString(n);
    if |digits| >= width then digits else seq(width - |digits|, _ => '0') + digits
  }

  /** `date.isoformat()`: YYYY-MM-DD. */
  function IsoDate(d: Date): (s: string)
    requires ValidDate(d)
    ensures |s| == 10 && s[4] == '-' && s[7] == '-'
  {
    PadMeaning(d.year, 4);
    PadMeaning(d.month, 2);
    PadMeaning(d.day, 2);
    Pad(d.year, 4) + "-" + Pad(d.month, 2) + "-" + Pad(d.day, 2)
  }

  /** How such a date is shown, `strftime("%B %-d, %Y")`, the form `strptime` reads back. */
  function DisplayDate(d: Date): string
    requires ValidDate(d)
  {
    MonthName(d.month) + " " + Text.NatToString(d.day) + ", " + Pad(d.year, 4)
  }

  lemma {:induction false} ZerosValue(k: nat)
    requires k > 0
    ensures Text.IsDigits(seq(k, _ => '0')) && Text.DigitsValue(seq(k, _ => '0')) == 0
  {
    if k > 1 {
      ZerosValue(k - 1);
      assert seq(k, _ => '0')[..k - 1] == seq(k - 1, _ => '0');
    }
  }

  /** Leading zeros do not change the value of a digit string. */
  lemma {:induction false} LeadingZerosValue(k: nat, t: string)
    requires Text.IsDigits(t)
    ensures Text.IsDigits(seq(k, _ => '0') + t)
    ensures Text.DigitsValue(seq(k, _ => '0') + t) == Text.DigitsValue(t)
    decreases |t|
  {
    var z := seq(k, _ => '0');
    var zt := z + t;
    if k == 0 {
      assert zt == t;
    } else if |t| == 1 {
      ZerosValue(k);
      assert zt[..|zt| - 1] == z;
    } else {
      LeadingZerosValue(k, t[..|t| - 1]);
      assert zt[..|zt| - 1] == z + t[..|t| - 1];
    }
  }

  /** A padded number is exactly `width` digits long when it fits, and reads back as the number. */
  lemma PadMeaning(n: nat, width: nat)
    requires 1 <= width && n < Text.Pow10(width)
    ensures |Pad(n, width)| == width
    ensures Text.DigitsValue(Pad(n, width)) == n
  {
    Text.NatToStringWidth(n, width);
    Text.DigitsValueOfNat(n);
    var digits := Text.NatToString(n);
    hide Text.NatToString, Text.DigitsValue, Text.IsDigits, Text.Pow10;
    if |digits| < width {
      LeadingZerosValue(width - |digits|, digits);
      assert Pad(n, width) == seq(width - |digits|, _ => '0') + digits;
    } else {
      assert Pad(n, width) == digits;
    }
  }

  /** `isoformat()` gives YYYY-MM-DD: ten characters, dashes at 4 and 7, and fields that read back as the date. */
  lemma IsoDateMeaning(d: Date)
    requires ValidDate(d)
    ensures var s := IsoDate(d);
      && |s| == 10 && s[4] == '-' && s[7] == '-'
      && Text.IsDigits(s[..4]) && Text.IsDigits(s[5..7]) && Text.IsDigits(s[8..])
      && Text.DigitsValue(s[..4]) == d.year
      && Text.DigitsValue(s[5..7]) == d.month
      && Text.DigitsValue(s[8..]) == d.day
  {
    PadMeaning(d.year, 4);
    PadMeaning(d.month, 2);
    PadMeaning(d.day, 2);
    var s := IsoDate(d);
    assert s[..4] == Pad(d.year, 4);
    assert s[5..7] == Pad(d.month, 2);
    assert s[8..] == Pad(d.day, 2);
  }

  predicate DiffersFrom(a: string, b: string, k: nat)
    decreases |a| - k
  {
    k < |a| && k < |b| && (LowerAscii(a[k]) != LowerAscii(b[k]) || DiffersFrom(a, b, k + 1))
  }

  /** No month name is a prefix of another, even ignoring case. */
  lemma MonthNamesDiffer(i: nat, j: nat)
    requires 1 <= i < j <= 12
    ensures DiffersFrom(MonthName(i), MonthName(j), 0)
  {
  }

  lemma {:induction false} DiffersNotAt(s: string, a: string, b: string, k: nat)
    requires DiffersFrom(a, b, k) && |b| <= |s| && s[..|b|] == b
    ensures !MonthAt(s, 0, a)
    decreases |a| - k
  {
    if LowerAscii(a[k]) == LowerAscii(b[k]) {
      DiffersNotAt(s, a, b, k + 1);
    } else {
      assert s[k] == b[k];
    }
  }

  lemma {:induction false} MatchMonthFrom(s: string, month: nat, m: nat)
    requires 1 <= m <= month <= 12
    requires |MonthName(month)| <= |s| && s[..|MonthName(month)|] == MonthName(month)
    ensures MatchMonth(s, m) == Some((month, |MonthName(month)|))
    decreases month - m
  {
    hide MonthName;
    if m < month {
      MonthNamesDiffer(m, month);
      DiffersNotAt(s, MonthName(m), MonthName(month), 0);
      MatchMonthFrom(s, month, m + 1);
    } else {
      var name := MonthName(month);
      assert forall k :: 0 <= k < |name| ==> s[k] == name[k];
    }
  }

  lemma DayText(day: nat)
    requires 1 <= day <= 31
    ensures DayToken(Text.NatToString(day))
  {
    if day >= 10 {
      var t := Text.NatToString(day);
      assert t == Text.NatToString(day / 10) + [Text.DigitChar(day % 10)];
      assert 1 <= day / 10 <= 3;
    }
  }

  /** Where the parts of the shown form of a date sit. */
  lemma DisplayDateParts(d: Date)
    requires ValidDate(d)
    ensures var s, name, dayText := DisplayDate(d), MonthName(d.month), Text.NatToString(d.day);
      var p := |name|;
      var c := p + 1 + |dayText|;
      && |s| == c + 6 && s[..p] == name && s[p] == ' ' && s[p + 1..c] == dayText
      && s[c] == ',' && s[c + 1] == ' ' && s[c + 2..] == Pad(d.year, 4)
      && '0' <= s[p + 1] <= '9' && '0' <= s[c + 2] <= '9'
  {
    hide MonthName;
    PadMeaning(d.year, 4);
    var s, name, dayText := DisplayDate(d), MonthName(d.month), Text.NatToString(d.day);
    var p := |name|;
    var c := p + 1 + |dayText|;
    assert s == name + " " + dayText + ", " + Pad(d.year, 4);
    assert s[..p] == name;
    assert s[p + 1..c] == dayText;
    assert s[c + 2..] == Pad(d.year, 4);
    assert s[p + 1] == dayText[0] && s[c + 2] == Pad(d.year, 4)[0];
  }

  lemma SkipOneSpace(s: string, p: nat)
    requires p + 1 < |s| && s[p] == ' ' && '0' <= s[p + 1] <= '9'
    ensures SkipSpaces(s, p) == Some(p + 1)
  {
    assert SpaceRun(s, p + 1) == 0;
  }

  lemma {:induction false} DigitRunExact(s: string, from: nat, to: nat)
    requires from < to <= |s| && Text.IsDigits(s[from..to])
    requires to < |s| ==> !('0' <= s[to] <= '9')
    ensures DigitRun(s, from) == to - from
    decreases (to as int) - (from as int)
  {
    assert s[from..to][0] == s[from];
    if from + 1 < to {
      assert Text.IsDigits(s[from + 1..to]) by {
        var t := s[from + 1..to];
        forall k | 0 <= k < |t|
          ensures '0' <= t[k] <= '9'
        {
          assert t[k] == s[from..to][k + 1];
        }
      }
      DigitRunExact(s, from + 1, to);
    }
  }

  lemma ReadDayShown(s: string, from: nat, day: nat)
    requires 1 <= day <= 31
    requires from + |Text.NatToString(day)| < |s| && s[from..from + |Text.NatToString(day)|] == Text.NatToString(day)
    requires s[from + |Text.NatToString(day)|] == ','
    ensures ReadDay(s, from) == Some((day, from + |Text.NatToString(day)|))
  {
    DayText(day);
    Text.DigitsValueOfNat(day);
    DigitRunExact(s, from, from + |Text.NatToString(day)|);
  }

  lemma ReadYearShown(s: string, from: nat, year: nat)
    requires 1 <= year <= 9999
    requires from + 4 == |s| && s[from..] == Pad(year, 4)
    ensures ReadYear(s, from) == Some(year)
  {
    PadMeaning(year, 4);
    assert s[from..|s|] == s[from..];
    DigitRunExact(s, from, |s|);
  }

  lemma ParseDisplayDateFields(s: string, month: nat, p: nat, day: nat, c: nat, year: nat)
    requires MatchMonth(s, 1) == Some((month, p))
    requires SkipSpaces(s, p) == Some(p + 1)
    requires ReadDay(s, p + 1) == Some((day, c))
    requires c + 1 < |s| && s[c] == ',' && SkipSpaces(s, c + 1) == Some(c + 2)
    requires ReadYear(s, c + 2) == Some(year) && ValidDate(Date(year, month, day))
    ensures ParseDisplayDate(s) == Some(Date(year, month, day))
  {
    hide MatchMonth, SkipSpaces, ReadDay, ReadYear, ValidDate, MonthAt, LowerAscii, MonthName;
  }

  lemma DisplayDateMonth(d: Date)
    requires ValidDate(d)
    ensures MatchMonth(DisplayDate(d), 1) == Some((d.month, |MonthName(d.month)|))
  {
    hide DisplayDate, Text.NatToString, Pad, IsPySpace, LeapYear, DaysInMonth, DiffersFrom;
    DisplayDateParts(d);
    MatchMonthFrom(DisplayDate(d), d.month, 1);
  }

  lemma DisplayDateSpaces(d: Date)
    requires ValidDate(d)
    ensures var s, p := DisplayDate(d), |MonthName(d.month)|;
      var c := p + 1 + |Text.NatToString(d.day)|;
      && SkipSpaces(s, p) == Some(p + 1)
      && c + 1 < |s| && s[c] == ',' && SkipSpaces(s, c + 1) == Some(c + 2)
  {
    hide DisplayDate, Text.NatToString, Pad, MonthName, LeapYear, DaysInMonth, DigitRun, ReadDay, ReadYear, MatchMonth;
    DisplayDateParts(d);
    var s, p := DisplayDate(d), |MonthName(d.month)|;
    SkipOneSpace(s, p);
    SkipOneSpace(s, p + 1 + |Text.NatToString(d.day)| + 1);
  }

  lemma DisplayDateDay(d: Date)
    requires ValidDate(d)
    ensures var s, p := DisplayDate(d), |MonthName(d.month)|;
      ReadDay(s, p + 1) == Some((d.day, p + 1 + |Text.NatToString(d.day)|))
  {
    hide DisplayDate, Pad, MonthName, IsPySpace, LeapYear, DaysInMonth;
    DisplayDateParts(d);
    ReadDayShown(DisplayDate(d), |MonthName(d.month)| + 1, d.day);
  }

  lemma DisplayDateYear(d: Date)
    requires ValidDate(d)
    ensures var s, p := DisplayDate(d), |MonthName(d.month)|;
      ReadYear(s, p + 1 + |Text.NatToString(d.day)| + 2) == Some(d.year)
  {
    hide DisplayDate, Text.NatToString, MonthName, IsPySpace, LeapYear, DaysInMonth, SpaceRun, ReadDay, MatchMonth, SkipSpaces;
    DisplayDateParts(d);
    ReadYearShown(DisplayDate(d), |MonthName(d.month)| + 1 + |Text.NatToString(d.day)| + 2, d.year);
  }

  /** `strptime(..., "%B %d, %Y")` reads the shown form of every real date back as that date. */
  lemma ParseDisplayDateRoundTrip(d: Date)
    requires ValidDate(d)
    ensures ParseDisplayDate(DisplayDate(d)) == Some(d)
  {
    hide LeapYear, DaysInMonth, DisplayDate, Text.NatToString, Pad, MatchMonth, SkipSpaces, ReadDay, ReadYear, IsPySpace, ParseDisplayDate, MonthName;
    var p := |MonthName(d.month)|;
    var c := p + 1 + |Text.NatToString(d.day)|;
    DisplayDateMonth(d);
    DisplayDateSpaces(d);
    DisplayDateDay(d);
    DisplayDateYear(d);
    ParseDisplayDateFields(DisplayDate(d), d.month, p, d.day, c, d.year);
  }
}
