/**
 * The extraction half of tools/yale_symposium_fetch.py: finding the
 * article fields in a post page (`_extract_article`), the depth-counted
 * scan for the body container (`_extract_pf_content_inner_html`), the
 * article links of the topic page (`_extract_article_urls`) and what
 * `main` composes from them (file name, header, exit status).
 */
module Scraper {
  import opened Wrappers
  import Text
  import opened ScraperText

  /** What `_extract_article` returns (the `Article` dataclass). */
  datatype Article = Article(
    url: string, title: string, author: string,
    dateDisplay: string, dateIso: string, slug: string, bodyHtml: string)

  /** The `ValueError`s `_extract_article` can raise, one per message. */
  datatype ExtractError =
    | NoTitle(url: string)      // "Could not extract title from {url}"
    | BadDate(display: string)  // `strptime` rejects the shown date
    | NoBody                    // "Could not find pf-content div"
    | Unterminated              // "Unterminated pf-content div"

  // ------------------------------------------------------ opening tags

  /**
   * The pattern `<tag\s+attr[^>]*>` matched at `i`: the index just after
   * its `>`. The whitespace run is taken whole, since `attr` starts with
   * a letter, and `[^>]*>` ends at the first `>`.
   */
  function OpenTagAt(s: string, i: nat, tag: string, attr: string): (r: Option<nat>)
    ensures r.Some? ==> i < r.value <= |s| && s[r.value - 1] == '>' && OccursAt(s, "<" + tag, i)
  {
    var j := i + 1 + |tag|;
    if !OccursAt(s, "<" + tag, i) then None
    else
      var n := SpaceRun(s, j);
      if n == 0 || !OccursAt(s, attr, j + n) then None
      else
        match FindChar(s, '>', j + n + |attr|)
        case None => None
        case Some(k) => Some(k + 1)
  }

  /** `re.search` for that opening tag from `from`: where the first match starts and ends. */
  function SearchTag(s: string, tag: string, attr: string, from: nat): (r: Option<(nat, nat)>)
    ensures r.Some? ==> from <= r.value.0 && OpenTagAt(s, r.value.0, tag, attr) == Some(r.value.1)
    ensures r.Some? ==> forall i :: from <= i < r.value.0 ==> OpenTagAt(s, i, tag, attr).None?
    ensures r.None? ==> forall i :: from <= i ==> OpenTagAt(s, i, tag, attr).None?
    decreases |s| - from
  {
    if from >= |s| then None
    else
      match OpenTagAt(s, from, tag, attr)
      case Some(e) => Some((from, e))
      case None => SearchTag(s, tag, attr, from + 1)
  }

  /** A pattern absent from [e, f) of `s` is absent from the slice `s[e..f]`. */
  lemma AbsentFromSlice(s: string, e: nat, f: nat, pat: string)
    requires e <= f <= |s| && |pat| > 0
    requires forall k :: e <= k < f ==> !OccursAt(s, pat, k)
    ensures forall k :: !OccursAt(s[e..f], pat, k)
  {
    forall k: nat | OccursAt(s[e..f], pat, k)
      ensures false
    {
      var t := s[e..f];
      assert k + |pat| <= |t| && t[k..k + |pat|] == pat;
      var u := s[e + k..e + k + |pat|];
      assert forall j :: 0 <= j < |pat| ==> u[j] == t[k..k + |pat|][j];
      assert OccursAt(s, pat, e + k);
    }
  }

  /**
   * `re.search(open + "(.*?)" + "</tag>", s, re.S).group(1)`: the text
   * from the first opening tag to the next closing tag. When that first
   * tag has no closing tag after it, no later one has either, so the
   * search fails.
   */
  function ElementText(s: string, tag: string, attr: string): (r: Option<string>)
    ensures r.Some? ==> forall k :: !OccursAt(r.value, "</" + tag + ">", k)
  {
    match SearchTag(s, tag, attr, 0)
    case None => None
    case Some((_, e)) =>
      match Find(s, "</" + tag + ">", e)
      case None => None
      case Some(f) =>
        AbsentFromSlice(s, e, f, "</" + tag + ">");
        Some(s[e..f])
  }

  // ---------------------------------------------- the body container

  const PfContentAttr: string := "class=\"pf-content\""

  /** Where the inside of the `pf-content` div starts: the end of its opening tag. */
  function BodyStart(page: string): (r: Option<nat>)
    ensures r.Some? ==> r.value <= |page|
  {
    match SearchTag(page, "div", PfContentAttr, 0)
    case None => None
    case Some((_, e)) => Some(e)
  }

  /** A `<div` that counts as an opening tag: followed by a space, `>`, tab, LF or CR. */
  predicate OpenAt(page: string, k: nat) {
    OccursAt(page, "<div", k) && k + 4 < |page| &&
    (page[k + 4] == ' ' || page[k + 4] == '>' || page[k + 4] == '\t' || page[k + 4] == '\n' || page[k + 4] == '\r')
  }

  /** Any `</div` counts as a closing tag. */
  predicate CloseAt(page: string, k: nat) {
    OccursAt(page, "</div", k)
  }

  /** The number of counted opening tags starting in [a, b). */
  function Opens(page: string, a: nat, b: nat): nat
    decreases b
  {
    if b <= a then 0 else Opens(page, a, b - 1) + (if OpenAt(page, b - 1) then 1 else 0)
  }

  /** The number of closing tags starting in [a, b). */
  function Closes(page: string, a: nat, b: nat): nat
    decreases b
  {
    if b <= a then 0 else Closes(page, a, b - 1) + (if CloseAt(page, b - 1) then 1 else 0)
  }

  /** The nesting depth just before position `k` of the container whose inside starts at `start`. */
  function Depth(page: string, start: nat, k: nat): int {
    1 + Opens(page, start, k) - Closes(page, start, k)
  }

  /** The first closing tag at or after `c` that closes the container: its depth is 1. */
  function MatchingClose(page: string, start: nat, c: nat): (r: Option<nat>)
    ensures r.Some? ==> c <= r.value && CloseAt(page, r.value) && Depth(page, start, r.value) == 1
    ensures r.Some? ==> forall k :: c <= k < r.value && CloseAt(page, k) ==> Depth(page, start, k) != 1
    ensures r.None? ==> forall k :: c <= k && CloseAt(page, k) ==> Depth(page, start, k) != 1
    decreases |page| - c
  {
    if c >= |page| then None
    else if CloseAt(page, c) && Depth(page, start, c) == 1 then Some(c)
    else MatchingClose(page, start, c + 1)
  }

  /**
   * What `_extract_pf_content_inner_html` returns: the stripped text
   * between the end of the `pf-content` opening tag and its matching
   * closing tag, or the error it raises.
   */
  function PfContent(page: string): (r: Result<string, ExtractError>)
    ensures BodyStart(page).None? <==> r == Failure(NoBody)
    ensures r == Failure(Unterminated) <==>
      BodyStart(page).Some? && forall k :: BodyStart(page).value <= k && CloseAt(page, k) ==> Depth(page, BodyStart(page).value, k) != 1
    ensures r.Success? <==> BodyStart(page).Some? && MatchingClose(page, BodyStart(page).value, BodyStart(page).value).Some?
    ensures r.Failure? ==> r.error == NoBody || r.error == Unterminated
  {
    match BodyStart(page)
    case None => Failure(NoBody)
    case Some(start) =>
      match MatchingClose(page, start, start)
      case None => Failure(Unterminated)
      case Some(e) => Success(Strip(page[start..e]))
  }

  lemma {:induction false} OpensSplit(page: string, a: nat, b: nat, c: nat)
    requires a <= b <= c
    ensures Opens(page, a, c) == Opens(page, a, b) + Opens(page, b, c)
    ensures Closes(page, a, c) == Closes(page, a, b) + Closes(page, b, c)
    decreases c
  {
    if b < c {
      OpensSplit(page, a, b, c - 1);
    }
  }

  /** No tag starts in [b, c): the counts do not change over it. */
  lemma {:induction false} NoTagsBetween(page: string, a: nat, b: nat, c: nat)
    requires a <= b <= c
    requires forall k :: b <= k < c ==> !OccursAt(page, "<div", k) && !OccursAt(page, "</div", k)
    ensures Opens(page, a, c) == Opens(page, a, b) && Closes(page, a, c) == Closes(page, a, b)
    decreases c
  {
    if b < c {
      NoTagsBetween(page, a, b, c - 1);
    }
  }

  /** The characters of a pattern found at `k`. */
  lemma OccursChar(s: string, pat: string, k: nat, j: nat)
    ensures OccursAt(s, pat, k) && j < |pat| ==> s[k + j] == pat[j]
  {
    if OccursAt(s, pat, k) && j < |pat| {
      assert s[k..k + |pat|][j] == s[k + j];
    }
  }

  /** Inside a matched `<div` or `</div` no other tag can start, since none of its later characters is `<`. */
  lemma NoTagInside(page: string, pat: string, o: nat)
    requires (pat == "<div" || pat == "</div") && OccursAt(page, pat, o)
    ensures forall k :: o < k < o + |pat| ==> !OccursAt(page, "<div", k) && !OccursAt(page, "</div", k)
  {
    forall k | o < k < o + |pat|
      ensures !OccursAt(page, "<div", k) && !OccursAt(page, "</div", k)
    {
      OccursChar(page, pat, o, k - o);
      OccursChar(page, "<div", k, 0);
      OccursChar(page, "</div", k, 0);
    }
  }

  /** No tag starts in [b, c): the depth at `c` is the depth at `b`. */
  lemma DepthUnchanged(page: string, start: nat, b: nat, c: nat)
    requires start <= b <= c
    requires forall k :: b <= k < c ==> !OccursAt(page, "<div", k) && !OccursAt(page, "</div", k)
    ensures Depth(page, start, c) == Depth(page, start, b)
    ensures forall k :: b <= k < c ==> !CloseAt(page, k)
  {
    NoTagsBetween(page, start, b, c);
  }

  /** Stepping over a `<div` at `o`: the depth grows by one exactly when it counts, and no closing tag is passed. */
  lemma StepOpen(page: string, start: nat, o: nat)
    requires start <= o && OccursAt(page, "<div", o)
    ensures o + 4 <= |page|
    ensures Depth(page, start, o + 4) == Depth(page, start, o) + (if OpenAt(page, o) then 1 else 0)
    ensures forall k :: o <= k < o + 4 ==> !CloseAt(page, k)
  {
    OccursChar(page, "<div", o, 1);
    OccursChar(page, "</div", o, 1);
    NoTagInside(page, "<div", o);
    NoTagsBetween(page, start, o + 1, o + 4);
  }

  /** Stepping over a `</div` at `c`: the depth drops by one, and no other closing tag is passed. */
  lemma StepClose(page: string, start: nat, c: nat)
    requires start <= c && OccursAt(page, "</div", c)
    ensures CloseAt(page, c) && c + 5 <= |page|
    ensures Depth(page, start, c + 5) == Depth(page, start, c) - 1
    ensures forall k :: c < k < c + 5 ==> !CloseAt(page, k)
  {
    OccursChar(page, "<div", c, 1);
    OccursChar(page, "</div", c, 1);
    NoTagInside(page, "</div", c);
    NoTagsBetween(page, start, c + 1, c + 5);
  }

  /** The scan's result, once every closing tag before `e` was left open and `e` closes the container. */
  lemma {:induction false} MatchingCloseFound(page: string, start: nat, c: nat, e: nat)
    requires c <= e && CloseAt(page, e) && Depth(page, start, e) == 1
    requires forall k :: c <= k < e && CloseAt(page, k) ==> Depth(page, start, k) >= 2
    ensures MatchingClose(page, start, c) == Some(e)
    decreases e - c
  {
    assert e < |page|;
    if c < e {
      MatchingCloseFound(page, start, c + 1, e);
    }
  }

  /** Every closing tag in [start, a) sits deeper than the container, so none of them closes it. */
  predicate NestedBefore(page: string, start: nat, a: nat) {
    forall k :: start <= k < a && CloseAt(page, k) ==> Depth(page, start, k) >= 2
  }

  lemma NestedExtend(page: string, start: nat, a: nat, b: nat)
    requires a <= b && NestedBefore(page, start, a)
    requires forall k :: a <= k < b ==> !CloseAt(page, k)
    ensures NestedBefore(page, start, b)
  {
  }

  lemma NestedPastClose(page: string, start: nat, c: nat)
    requires NestedBefore(page, start, c) && Depth(page, start, c) >= 2
    requires forall k :: c < k < c + 5 ==> !CloseAt(page, k)
    ensures NestedBefore(page, start, c + 5)
  {
  }

  lemma DepthAtStart(page: string, start: nat)
    ensures Depth(page, start, start) == 1
  {
  }

  /** The scan passes a `<div` at `o` that comes before the next `</div`. */
  lemma AdvanceOpen(page: string, start: nat, pos: nat, o: nat, c: nat)
    requires start <= pos <= o < c && NestedBefore(page, start, pos)
    requires OccursAt(page, "<div", o)
    requires forall k :: pos <= k < o ==> !OccursAt(page, "<div", k)
    requires forall k :: pos <= k < c ==> !OccursAt(page, "</div", k)
    ensures o + 4 <= |page| && NestedBefore(page, start, o + 4)
    ensures Depth(page, start, o + 4) == Depth(page, start, pos) + (if OpenAt(page, o) then 1 else 0)
  {
    DepthUnchanged(page, start, pos, o);
    StepOpen(page, start, o);
    NestedExtend(page, start, pos, o + 4);
  }

  /** The scan reaches the next `</div` at `c`, with no `<div` before it. */
  lemma AdvanceClose(page: string, start: nat, pos: nat, c: nat)
    requires start <= pos <= c && NestedBefore(page, start, pos)
    requires OccursAt(page, "</div", c)
    requires forall k :: pos <= k < c ==> !OccursAt(page, "<div", k) && !OccursAt(page, "</div", k)
    ensures c + 5 <= |page| && CloseAt(page, c) && NestedBefore(page, start, c)
    ensures Depth(page, start, c) == Depth(page, start, pos)
    ensures Depth(page, start, c + 5) == Depth(page, start, c) - 1
    ensures Depth(page, start, c) >= 2 ==> NestedBefore(page, start, c + 5)
  {
    DepthUnchanged(page, start, pos, c);
    NestedExtend(page, start, pos, c);
    StepClose(page, start, c);
    if Depth(page, start, c) >= 2 {
      NestedPastClose(page, start, c);
    }
  }

  /**
   * `_extract_pf_content_inner_html`: from the end of the opening tag,
   * alternately find the next `<div` and `</div`; a counted `<div`
   * before the next `</div` deepens the nesting, a `</div` closes one
   * level, and the slice up to the `</div` that closes the container is
   * returned stripped.
   */
  method ExtractBodyHtml(page: string) returns (r: Result<string, ExtractError>)
    ensures r == PfContent(page)
  {
    hide Opens, Closes, Strip, OpenTagAt, SearchTag, Find, OccursAt, MatchingClose;
    var found := BodyStart(page);
    if found.None? {
      return Failure(NoBody);
    }
    var start := found.value;
    var pos := start;
    var depth := 1;
    var failed := false;
    var end := start;
    DepthAtStart(page, start);
    while depth > 0 && !failed
      invariant start <= pos <= |page| && 0 <= depth
      invariant depth > 0 && !failed ==> depth == Depth(page, start, pos)
      invariant NestedBefore(page, start, pos)
      invariant depth == 0 ==>
        !failed && start <= end < |page| && CloseAt(page, end) && Depth(page, start, end) == 1 && NestedBefore(page, start, end)
      invariant failed ==> depth > 0 && forall k :: pos <= k ==> !OccursAt(page, "</div", k)
      decreases |page| - pos + (if failed || depth == 0 then 0 else 1)
    {
      hide *;
      var nextOpen := Find(page, "<div", pos);
      var nextClose := Find(page, "</div", pos);
      if nextClose.None? {
        failed := true;
      } else if nextOpen.Some? && nextOpen.value < nextClose.value {
        var o := nextOpen.value;
        AdvanceOpen(page, start, pos, o, nextClose.value);
        if OpenAt(page, o) {
          depth := depth + 1;
        }
        pos := o + 4;
      } else {
        var c := nextClose.value;
        AdvanceClose(page, start, pos, c);
        if depth == 1 {
          depth := 0;
          end := c;
        } else {
          depth := depth - 1;
          pos := c + 5;
        }
      }
    }
    if failed {
      r := Failure(Unterminated);
    } else {
      MatchingCloseFound(page, start, start, end);
      r := Success(Strip(page[start..end]));
    }
  }

  /** The container's body is the stripped text up to the one closing tag at depth 1, with every earlier closing tag nested deeper. */
  lemma PfContentMeaning(page: string)
    requires PfContent(page).Success?
    ensures var start := BodyStart(page).value;
      var e := MatchingClose(page, start, start).value;
      && start <= e && CloseAt(page, e) && Depth(page, start, e) == 1
      && (forall k :: start <= k < e && CloseAt(page, k) ==> Depth(page, start, k) >= 2)
      && PfContent(page).value == Strip(page[start..e])
  {
    var start := BodyStart(page).value;
    var e := MatchingClose(page, start, start).value;
    forall k | start <= k < e && CloseAt(page, k)
      ensures Depth(page, start, k) >= 2
    {
      DepthAboveOne(page, start, k);
    }
  }

  /** While no earlier closing tag reached depth 1, the depth at any closing tag is at least 1. */
  lemma {:induction false} DepthPositive(page: string, start: nat, k: nat)
    requires start <= k
    requires forall j :: start <= j < k && CloseAt(page, j) ==> Depth(page, start, j) != 1
    ensures Depth(page, start, k) >= 1
    decreases k
  {
    if start < k {
      DepthPositive(page, start, k - 1);
      OpensSplit(page, start, k - 1, k);
      assert Opens(page, k - 1, k) == (if OpenAt(page, k - 1) then 1 else 0);
      assert Closes(page, k - 1, k) == (if CloseAt(page, k - 1) then 1 else 0);
    }
  }

  lemma DepthAboveOne(page: string, start: nat, k: nat)
    requires start <= k && CloseAt(page, k)
    requires forall j :: start <= j <= k && CloseAt(page, j) ==> Depth(page, start, j) != 1
    ensures Depth(page, start, k) >= 2
  {
    DepthPositive(page, start, k);
  }

  // ------------------------------------------------------------ slug

  /** `url.rstrip("/")`. */
  function TrimSlashes(s: string): (r: string)
    ensures |r| <= |s| && r == s[..|r|] && (|r| > 0 ==> r[|r| - 1] != '/')
    ensures forall k :: |r| <= k < |s| ==> s[k] == '/'
  {
    if |s| > 0 && s[|s| - 1] == '/' then TrimSlashes(s[..|s| - 1]) else s
  }

  /** `url.rstrip("/").split("/")[-1]`: a name without `/`. */
  function Slug(url: string): (slug: string)
    ensures '/' !in slug
  {
    var parts := Text.Split(TrimSlashes(url), '/');
    parts[|parts| - 1]
  }

  /** The last part of a join is its suffix, preceded by the separator when there are other parts. */
  lemma {:induction false} JoinLast(parts: seq<string>, sep: char)
    requires |parts| >= 1
    ensures var j := Text.Join(parts, [sep]); var l := parts[|parts| - 1];
      && |l| <= |j| && j[|j| - |l|..] == l
      && (|parts| == 1 ==> j == l)
      && (|parts| >= 2 ==> |l| < |j| && j[|j| - |l| - 1] == sep)
  {
    if |parts| >= 2 {
      var rest := parts[1..];
      JoinLast(rest, sep);
      var j' := Text.Join(rest, [sep]);
      var j := Text.Join(parts, [sep]);
      var l := parts[|parts| - 1];
      assert j == parts[0] + [sep] + j';
      assert rest[|rest| - 1] == l;
      assert j[|j| - |l|..] == j'[|j'| - |l|..];
      if |rest| == 1 {
        assert j' == l;
      } else {
        assert j[|j| - |l| - 1] == j'[|j'| - |l| - 1];
      }
    }
  }

  /**
   * The slug is the last path segment: it has no `/`, and it ends the
   * URL once trailing slashes are dropped, right after a `/` unless it is
   * the whole of it.
   */
  lemma SlugMeaning(url: string)
    ensures '/' !in Slug(url)
    ensures var t := TrimSlashes(url); var g := Slug(url);
      && |g| <= |t| && t[|t| - |g|..] == g
      && (|g| < |t| ==> t[|t| - |g| - 1] == '/')
  {
    hide Text.Split, TrimSlashes, Text.Join;
    var t := TrimSlashes(url);
    var parts := Text.Split(t, '/');
    assert Slug(url) == parts[|parts| - 1];
    JoinLast(parts, '/');
    assert Text.Join(parts, ['/']) == t;
  }

  /** A URL without `/` is its own slug. */
  lemma SlugOfPlainName(url: string)
    requires '/' !in url
    ensures Slug(url) == url
  {
    Text.SplitNoSep(url, '/');
  }

  // --------------------------------------------------------- articles

  const TitleAttr: string := "class=\"headline-title\""
  const AuthorAttr: string := "class=\"meta-author\""
  const DateAttr: string := "class=\"meta-date\""

  /** `_strip_tags` of an element's text, and "" when the page has no such element. */
  function FieldText(page: string, tag: string, attr: string): (r: string)
    ensures Normalized(r)
    ensures ElementText(page, tag, attr).None? ==> r == ""
  {
    match ElementText(page, tag, attr)
    case None => ""
    case Some(t) => StripTags(t)
  }

  /** `strptime(display, "%B %d, %Y").date().isoformat()`, skipped when no date is shown. */
  function IsoOfDisplay(display: string): (r: Result<string, ExtractError>)
    ensures r.Failure? ==> r.error == BadDate(display)
  {
    if display == "" then Success("")
    else
      match ParseDisplayDate(display)
      case None => Failure(BadDate(display))
      case Some(d) => Success(IsoDate(d))
  }

  /**
   * An ISO date is present exactly when a date is shown, has the form
   * YYYY-MM-DD with the fields of a valid calendar date, and a shown
   * date that does not parse is the error.
   */
  lemma IsoOfDisplayMeaning(display: string)
    ensures IsoOfDisplay(display).Success? ==> (IsoOfDisplay(display).value == "" <==> display == "")
    ensures IsoOfDisplay(display).Failure? <==> display != "" && ParseDisplayDate(display).None?
    ensures IsoOfDisplay(display).Failure? ==> IsoOfDisplay(display).error == BadDate(display)
    ensures IsoOfDisplay(display).Success? && display != "" ==>
      var d := ParseDisplayDate(display).value; var iso := IsoOfDisplay(display).value;
      && ValidDate(d) && |iso| == 10 && iso[4] == '-' && iso[7] == '-'
      && Text.IsDigits(iso[..4]) && Text.IsDigits(iso[5..7]) && Text.IsDigits(iso[8..])
      && Text.DigitsValue(iso[..4]) == d.year && Text.DigitsValue(iso[5..7]) == d.month
      && Text.DigitsValue(iso[8..]) == d.day
  {
    hide ParseDisplayDate, IsoDate, Pad, ValidDate, DaysInMonth, LeapYear, MonthName, Text.DigitsValue, Text.NatToString, Text.IsDigits;
    if display != "" && ParseDisplayDate(display).Some? {
      IsoDateMeaning(ParseDisplayDate(display).value);
    }
  }

  /** A date shown the way the site shows it converts to that date's ISO form. */
  lemma IsoOfShownDate(d: Date)
    requires ValidDate(d)
    ensures IsoOfDisplay(DisplayDate(d)) == Success(IsoDate(d))
  {
    ParseDisplayDateRoundTrip(d);
    assert DisplayDate(d)[|MonthName(d.month)|] == ' ';
  }

  /**
   * `_extract_article`: the title (required), author and shown date
   * (optional), the ISO date, the slug of the URL and the body container,
   * failing with the first error met in that order.
   */
  function ExtractArticle(url: string, page: string): (r: Result<Article, ExtractError>)
    ensures r == Failure(NoTitle(url)) <==> ElementText(page, "h1", TitleAttr).None?
    ensures r.Success? ==> r.value.url == url && r.value.slug == Slug(url)
  {
    hide StripTags, FieldText, IsoOfDisplay, PfContent, Slug, ElementText;
    match ElementText(page, "h1", TitleAttr)
    case None => Failure(NoTitle(url))
    case Some(rawTitle) =>
      var author := FieldText(page, "li", AuthorAttr);
      var display := FieldText(page, "li", DateAttr);
      match IsoOfDisplay(display)
      case Failure(e) => Failure(e)
      case Success(iso) =>
        match PfContent(page)
        case Failure(e) => Failure(e)
        case Success(body) => Success(Article(url, StripTags(rawTitle), author, display, iso, Slug(url), body))
  }

  /**
   * What an extracted article holds: tag-free normalised title, author
   * and shown date, an ISO date exactly when a date is shown, a slug
   * without `/`, and the body container's inside.
   */
  lemma ArticleFields(url: string, page: string)
    requires ExtractArticle(url, page).Success?
    ensures var a := ExtractArticle(url, page).value;
      && Normalized(a.title) && Normalized(a.author) && Normalized(a.dateDisplay)
      && a.author == FieldText(page, "li", AuthorAttr) && a.dateDisplay == FieldText(page, "li", DateAttr)
      && IsoOfDisplay(a.dateDisplay) == Success(a.dateIso)
      && (a.dateIso == "" <==> a.dateDisplay == "")
      && '/' !in a.slug
      && PfContent(page) == Success(a.bodyHtml)
  {
    IsoOfDisplayMeaning(FieldText(page, "li", DateAttr));
    SlugMeaning(url);
  }

  /** Which error stops the extraction: a missing title first, then a bad date, then the body. */
  lemma ArticleErrors(url: string, page: string)
    ensures ExtractArticle(url, page).Failure? <==>
      || ElementText(page, "h1", TitleAttr).None?
      || IsoOfDisplay(FieldText(page, "li", DateAttr)).Failure?
      || PfContent(page).Failure?
    ensures ElementText(page, "h1", TitleAttr).Some? && IsoOfDisplay(FieldText(page, "li", DateAttr)).Success? ==>
      (ExtractArticle(url, page).Failure? <==> PfContent(page).Failure?) &&
      (PfContent(page).Failure? ==> ExtractArticle(url, page).error == PfContent(page).error)
  {
  }

  // ------------------------------------------------------ topic links

  const LinkAttr: string := "class=\"article-header__title"

  /**
   * The link pattern `<h1\s+class="article-header__title[^>]*>\s*<a\s+href="([^"]+)"`
   * matched at `i`: the captured address and where the match ends.
   */
  function LinkAt(s: string, i: nat): (r: Option<(string, nat)>)
    ensures r.Some? ==> i < r.value.1 <= |s| && |r.value.0| > 0 && '"' !in r.value.0
  {
    hide OpenTagAt, SpaceRun, IsPySpace, OccursAt, FindChar;
    match OpenTagAt(s, i, "h1", LinkAttr)
    case None => None
    case Some(e) =>
      var a := e + SpaceRun(s, e);
      if !OccursAt(s, "<a", a) then None
      else
        var n := SpaceRun(s, a + 2);
        if n == 0 || !OccursAt(s, "href=\"", a + 2 + n) then None
        else
          var h := a + 2 + n + 6;
          match FindChar(s, '"', h)
          case None => None
          case Some(q) =>
            if q == h then None
            else
              SliceAvoids(s, h, q, '"');
              Some((s[h..q], q + 1))
  }

  lemma SliceAvoids(s: string, h: nat, q: nat, c: char)
    requires h <= q <= |s| && forall k :: h <= k < q ==> s[k] != c
    ensures c !in s[h..q]
  {
    assert forall k :: 0 <= k < q - h ==> s[h..q][k] == s[h + k];
  }

  /** `re.findall` of the link pattern from `from`: the captured addresses, left to right, matches not overlapping. */
  function FindAllLinks(s: string, from: nat): (r: seq<string>)
    ensures forall u :: u in r ==> |u| > 0 && '"' !in u
    decreases |s| - from
  {
    if from >= |s| then []
    else
      match LinkAt(s, from)
      case Some((u, next)) => [u] + FindAllLinks(s, next)
      case None => FindAllLinks(s, from + 1)
  }

  /** A page with no `<h1` has no article links. */
  lemma {:induction false} NoHeadingNoLinks(s: string, from: nat)
    requires forall k :: from <= k ==> !OccursAt(s, "<h1", k)
    ensures FindAllLinks(s, from) == []
    decreases |s| - from
  {
    if from < |s| {
      assert "<" + "h1" == "<h1";
      NoHeadingNoLinks(s, from + 1);
    }
  }

  // ----------------------------------------------------- deduplication

  /** The addresses in order of first appearance, each once. */
  function Dedup(xs: seq<string>): seq<string>
    decreases |xs|
  {
    if |xs| == 0 then []
    else
      var r := Dedup(xs[..|xs| - 1]);
      if xs[|xs| - 1] in r then r else r + [xs[|xs| - 1]]
  }

  /** Where `x` first appears in `xs`. */
  function FirstIndex(xs: seq<string>, x: string): (i: nat)
    requires x in xs
    ensures i < |xs| && xs[i] == x && x !in xs[..i]
  {
    if xs[0] == x then 0
    else
      var j := FirstIndex(xs[1..], x);
      assert xs[..j + 1] == [xs[0]] + xs[1..][..j];
      1 + j
  }

  lemma FirstIndexPrefix(xs: seq<string>, n: nat, x: string)
    requires n <= |xs| && x in xs[..n]
    ensures x in xs && FirstIndex(xs, x) == FirstIndex(xs[..n], x)
  {
    var i := FirstIndex(xs[..n], x);
    assert xs[..n][..i] == xs[..i];
    var k := FirstIndex(xs, x);
  }

  /**
   * Deduplication keeps each address once, keeps every address, adds
   * none, and orders them by first appearance.
   */
  lemma {:induction false} DedupMeaning(xs: seq<string>)
    ensures var r := Dedup(xs);
      && (forall i, j :: 0 <= i < j < |r| ==> r[i] != r[j])
      && (forall x :: x in r <==> x in xs)
      && (forall i, j :: 0 <= i < j < |r| ==> FirstIndex(xs, r[i]) < FirstIndex(xs, r[j]))
    decreases |xs|
  {
    if |xs| > 0 {
      var p := xs[..|xs| - 1];
      var y := xs[|xs| - 1];
      DedupMeaning(p);
      var r0 := Dedup(p);
      assert xs == p + [y];
      forall x | x in r0
        ensures FirstIndex(xs, x) == FirstIndex(p, x)
      {
        FirstIndexPrefix(xs, |xs| - 1, x);
      }
      if y !in r0 {
        assert y !in p;
        assert FirstIndex(xs, y) == |xs| - 1;
      }
    }
  }

  /** Deduplicating twice changes nothing. */
  lemma DedupIdempotent(xs: seq<string>)
    ensures Dedup(Dedup(xs)) == Dedup(xs)
  {
    DedupMeaning(xs);
    DedupDistinct(Dedup(xs));
  }

  /** A list without repeats is its own deduplication. */
  lemma {:induction false} DedupDistinct(xs: seq<string>)
    requires forall i, j :: 0 <= i < j < |xs| ==> xs[i] != xs[j]
    ensures Dedup(xs) == xs
    decreases |xs|
  {
    if |xs| > 0 {
      var p := xs[..|xs| - 1];
      DedupDistinct(p);
      DedupMeaning(p);
      assert xs[|xs| - 1] !in p;
      assert p + [xs[|xs| - 1]] == xs;
    }
  }

  /** The article addresses of a topic page, as `_extract_article_urls` returns them. */
  function ArticleUrls(topicHtml: string): (urls: seq<string>)
    ensures forall i, j :: 0 <= i < j < |urls| ==> urls[i] != urls[j]
    ensures forall u :: u in urls <==> u in FindAllLinks(topicHtml, 0)
  {
    DedupMeaning(FindAllLinks(topicHtml, 0));
    Dedup(FindAllLinks(topicHtml, 0))
  }

  /** `_extract_article_urls`: every captured address, skipping the ones already seen. */
  method ExtractArticleUrls(topicHtml: string) returns (ordered: seq<string>)
    ensures ordered == ArticleUrls(topicHtml)
  {
    var urls := FindAllLinks(topicHtml, 0);
    var seen: set<string> := {};
    ordered := [];
    for i := 0 to |urls|
      invariant ordered == Dedup(urls[..i])
      invariant forall x :: x in seen <==> x in ordered
    {
      var url := urls[i];
      assert urls[..i + 1][..i] == urls[..i];
      if url in seen {
        continue;
      }
      seen := seen + {url};
      ordered := ordered + [url];
    }
    assert urls[..|urls|] == urls;
  }

  // ---------------------------------------------------------- output

  /** `f"{date_iso or 'unknown-date'}_{slug}.en.md"`. */
  function FileName(a: Article): (name: string)
    ensures |name| > 6 && name[|name| - 6..] == ".en.md"
  {
    (if a.dateIso == "" then "unknown-date" else a.dateIso) + "_" + a.slug + ".en.md"
  }

  /**
   * The eight header lines written before the body: the title as a
   * level-one heading, the author, the date and the source address, then
   * a rule between blank lines.
   */
  function HeaderLines(a: Article): (lines: seq<string>)
    ensures |lines| == 8 && lines[0] == "# " + a.title && lines[4] == "Fonte: " + a.url && lines[6] == "---"
    ensures lines[1] == "" && lines[5] == "" && lines[7] == ""
  {
    [ "# " + a.title,
      "",
      if a.author != "" then "Autor(es): " + a.author else "Autor(es):",
      if a.dateDisplay != "" then "Data: " + a.dateDisplay else "Data:",
      "Fonte: " + a.url,
      "",
      "---",
      "" ]
  }

  /** `_html_to_markdown`: pandoc's output stripped, with one final newline. */
  function MarkdownOf(pandocOut: string): (r: string)
    ensures |r| > 0 && r[|r| - 1] == '\n'
  {
    Strip(pandocOut) + "\n"
  }

  /** The file written for an article: its name and the header joined by newlines followed by the Markdown body. */
  function Output(a: Article, pandocOut: string): (file: (string, string))
    ensures file.0 == FileName(a)
    ensures |file.1| > 2 && file.1[..2] == "# " && file.1[|file.1| - 1] == '\n'
  {
    (FileName(a), Text.Join(HeaderLines(a), "\n") + MarkdownOf(pandocOut))
  }

  lemma NormalizedNoNewline(t: string)
    requires Normalized(t)
    ensures '\n' !in t
  {
    if '\n' in t {
      var i :| 0 <= i < |t| && t[i] == '\n';
      assert IsPySpace(t[i]);
    }
  }

  /**
   * A file name has no `/` when neither the date nor the slug has one,
   * so the file stays in the output directory; it starts with the ISO
   * date, or `unknown-date`, then `_`, and ends with `.en.md`.
   */
  lemma FileNameMeaning(a: Article)
    requires '/' !in a.slug && '/' !in a.dateIso
    ensures var f := FileName(a);
      var prefix := if a.dateIso == "" then "unknown-date" else a.dateIso;
      && '/' !in f
      && |f| > |prefix| + 6 && f[..|prefix|] == prefix && f[|prefix|] == '_'
      && f[|f| - 6..] == ".en.md"
  {
    var prefix := if a.dateIso == "" then "unknown-date" else a.dateIso;
    var f := FileName(a);
    assert f == prefix + "_" + a.slug + ".en.md";
    assert f[..|prefix|] == prefix;
    assert f[|f| - 6..] == ".en.md";
  }

  /** The date and slug of an extracted article contain no `/`. */
  lemma ExtractedNamePartsNoSlash(url: string, page: string)
    requires ExtractArticle(url, page).Success?
    ensures '/' !in ExtractArticle(url, page).value.slug && '/' !in ExtractArticle(url, page).value.dateIso
  {
    ArticleFields(url, page);
    var a := ExtractArticle(url, page).value;
    hide ExtractArticle, IsoOfDisplay, ParseDisplayDate, IsoDate, Pad, ValidDate, DaysInMonth, LeapYear, MonthName, Text.DigitsValue, Text.NatToString, Text.IsDigits;
    IsoOfDisplayMeaning(a.dateDisplay);
    if a.dateIso != "" {
      IsoDigitsNoSlash(a.dateIso);
    }
  }

  lemma IsoDigitsNoSlash(iso: string)
    requires |iso| == 10 && iso[4] == '-' && iso[7] == '-'
    requires Text.IsDigits(iso[..4]) && Text.IsDigits(iso[5..7]) && Text.IsDigits(iso[8..])
    ensures '/' !in iso
  {
    forall k | 0 <= k < 10
      ensures iso[k] != '/'
    {
      if k < 4 {
        assert iso[..4][k] == iso[k];
      } else if 4 < k < 7 {
        assert iso[5..7][k - 5] == iso[k];
      } else if 7 < k {
        assert iso[8..][k - 8] == iso[k];
      }
    }
  }

  /** The header of an article whose fields are normalised reads back as exactly its eight lines. */
  lemma HeaderReadsBack(a: Article)
    requires Normalized(a.title) && Normalized(a.author) && Normalized(a.dateDisplay)
    requires '\n' !in a.url
    ensures Text.Split(Text.Join(HeaderLines(a), "\n"), '\n') == HeaderLines(a)
  {
    NormalizedNoNewline(a.title);
    NormalizedNoNewline(a.author);
    NormalizedNoNewline(a.dateDisplay);
    hide Normalized, Text.Join, Text.Split;
    var lines := HeaderLines(a);
    forall i | 0 <= i < |lines|
      ensures '\n' !in lines[i]
    {
    }
    Text.SplitJoin(lines, '\n');
  }

  // ------------------------------------------------------------ main

  /** How `main` ends: a return code, or the error that escapes it. */
  datatype Status =
    | Exit(code: int)
    | FetchFailed(url: string)                       // `_fetch_html` gave up
    | ExtractFailed(url: string, error: ExtractError)
    | PandocFailed(url: string)                      // pandoc returned non-zero

  /** The article addresses `main` works through: none when the topic page cannot be fetched. */
  function TopicUrls(topicUrl: string, fetch: string -> Option<string>): seq<string> {
    match fetch(topicUrl)
    case None => []
    case Some(html) => ArticleUrls(html)
  }

  lemma TopicUrlsOf(topicUrl: string, fetch: string -> Option<string>)
    ensures fetch(topicUrl).None? ==> TopicUrls(topicUrl, fetch) == []
    ensures fetch(topicUrl).Some? ==> TopicUrls(topicUrl, fetch) == ArticleUrls(fetch(topicUrl).value)
  {
  }

  /** The article at `url`, when its page was fetched and extracted. */
  predicate Extracted(url: string, fetch: string -> Option<string>) {
    fetch(url).Some? && ExtractArticle(url, fetch(url).value).Success?
  }

  function ArticleOf(url: string, fetch: string -> Option<string>): Article
    requires Extracted(url, fetch)
  {
    ExtractArticle(url, fetch(url).value).value
  }

  /** `w` is the file written for the article at `url`. */
  predicate WroteArticle(w: (string, string), url: string, fetch: string -> Option<string>, pandoc: string -> Option<string>) {
    Extracted(url, fetch) && pandoc(ArticleOf(url, fetch).bodyHtml).Some? &&
    w == Output(ArticleOf(url, fetch), pandoc(ArticleOf(url, fetch).bodyHtml).value)
  }

  function Names(written: seq<(string, string)>): set<string> {
    set w | w in written :: w.0
  }

  /**
   * What holds once `main` has handled the first `i` article addresses:
   * the files now present are the old ones and those written; each file
   * written is the output of one of the addresses; without `overwrite`
   * no file was replaced or written twice; and every handled article was
   * extracted and has its file present.
   */
  ghost predicate Handled(urls: seq<string>, i: nat, fetch: string -> Option<string>, pandoc: string -> Option<string>,
                          overwrite: bool, existing: set<string>, onDisk: set<string>,
                          written: seq<(string, string)>, sources: seq<string>) {
    && i <= |urls|
    && onDisk == existing + Names(written)
    && |written| <= i && (overwrite ==> |written| == i)
    && |sources| == |written|
    && (forall j :: 0 <= j < |written| ==> sources[j] in urls && WroteArticle(written[j], sources[j], fetch, pandoc))
    && (!overwrite ==> forall j :: 0 <= j < |written| ==> written[j].0 !in existing)
    && (!overwrite ==> forall j, k :: 0 <= j < k < |written| ==> written[j].0 != written[k].0)
    && (forall k :: 0 <= k < i ==> Extracted(urls[k], fetch) && FileName(ArticleOf(urls[k], fetch)) in onDisk)
  }

  lemma HandledNone(urls: seq<string>, fetch: string -> Option<string>, pandoc: string -> Option<string>,
                    overwrite: bool, existing: set<string>)
    ensures Handled(urls, 0, fetch, pandoc, overwrite, existing, existing, [], [])
  {
  }

  /** An article whose file is present and not to be overwritten is skipped. */
  lemma HandledSkip(urls: seq<string>, i: nat, fetch: string -> Option<string>, pandoc: string -> Option<string>,
                    overwrite: bool, existing: set<string>, onDisk: set<string>,
                    written: seq<(string, string)>, sources: seq<string>)
    requires Handled(urls, i, fetch, pandoc, overwrite, existing, onDisk, written, sources)
    requires i < |urls| && Extracted(urls[i], fetch) && FileName(ArticleOf(urls[i], fetch)) in onDisk && !overwrite
    ensures Handled(urls, i + 1, fetch, pandoc, overwrite, existing, onDisk, written, sources)
  {
  }

  /** Writing the file of the next article keeps the record of what was handled. */
  lemma HandledWrite(urls: seq<string>, i: nat, fetch: string -> Option<string>, pandoc: string -> Option<string>,
                     overwrite: bool, existing: set<string>, onDisk: set<string>,
                     written: seq<(string, string)>, sources: seq<string>, w: (string, string))
    requires Handled(urls, i, fetch, pandoc, overwrite, existing, onDisk, written, sources)
    requires i < |urls| && WroteArticle(w, urls[i], fetch, pandoc)
    requires !overwrite ==> w.0 !in onDisk
    ensures Handled(urls, i + 1, fetch, pandoc, overwrite, existing, onDisk + {w.0}, written + [w], sources + [urls[i]])
  {
    hide ExtractArticle, FileName, Output, ArticleOf, Extracted;
    NamesAppend(written, w);
    WroteArticleName(w, urls[i], fetch, pandoc);
    hide Names, WroteArticle;
  }

  lemma WroteArticleName(w: (string, string), url: string, fetch: string -> Option<string>, pandoc: string -> Option<string>)
    requires WroteArticle(w, url, fetch, pandoc)
    ensures Extracted(url, fetch) && w.0 == FileName(ArticleOf(url, fetch))
  {
  }

  /** The promises of `main` that hold at any point of the run. */
  lemma HandledMeaning(urls: seq<string>, i: nat, fetch: string -> Option<string>, pandoc: string -> Option<string>,
                       overwrite: bool, existing: set<string>, onDisk: set<string>,
                       written: seq<(string, string)>, sources: seq<string>)
    requires Handled(urls, i, fetch, pandoc, overwrite, existing, onDisk, written, sources)
    ensures |written| <= |urls| && |sources| == |written|
    ensures forall j :: 0 <= j < |written| ==> sources[j] in urls && WroteArticle(written[j], sources[j], fetch, pandoc)
    ensures !overwrite ==> forall j :: 0 <= j < |written| ==> written[j].0 !in existing
    ensures !overwrite ==> forall j, k :: 0 <= j < k < |written| ==> written[j].0 != written[k].0
    ensures i == |urls| ==> forall u :: u in urls ==> Extracted(u, fetch) && FileName(ArticleOf(u, fetch)) in existing + Names(written)
    ensures overwrite && i == |urls| ==> |written| == |urls|
  {
    if i == |urls| {
      forall u | u in urls
        ensures Extracted(u, fetch) && FileName(ArticleOf(u, fetch)) in existing + Names(written)
      {
        var k :| 0 <= k < |urls| && urls[k] == u;
      }
    }
  }

  /**
   * `main`: fetch the topic page, exit with 2 when it lists no article,
   * otherwise fetch and extract every article in order and write its
   * file, skipping files already present unless `overwrite` is set.
   * `fetch` and `pandoc` stand for curl and pandoc (None when they
   * fail), `existing` for the files already in the output directory, and
   * `written` lists the files written, in order, as (name, contents),
   * and `sources` the article address each of them came from.
   */
  method Run(topicUrl: string, fetch: string -> Option<string>, pandoc: string -> Option<string>,
             overwrite: bool, existing: set<string>)
    returns (status: Status, written: seq<(string, string)>, ghost sources: seq<string>)
    ensures fetch(topicUrl).None? ==> status == FetchFailed(topicUrl) && written == []
    ensures status == Exit(2) <==> fetch(topicUrl).Some? && TopicUrls(topicUrl, fetch) == []
    ensures status.Exit? ==> status.code == 0 || status.code == 2
    ensures status == Exit(2) ==> written == []
    ensures |written| <= |TopicUrls(topicUrl, fetch)| && |sources| == |written|
    ensures forall i :: 0 <= i < |written| ==>
      sources[i] in TopicUrls(topicUrl, fetch) && WroteArticle(written[i], sources[i], fetch, pandoc)
    ensures !overwrite ==> forall i :: 0 <= i < |written| ==> written[i].0 !in existing
    ensures !overwrite ==> forall i, j :: 0 <= i < j < |written| ==> written[i].0 != written[j].0
    ensures status == Exit(0) ==> forall u :: u in TopicUrls(topicUrl, fetch) ==>
      (Extracted(u, fetch) && FileName(ArticleOf(u, fetch)) in existing + Names(written))
    ensures overwrite && status == Exit(0) ==> |written| == |TopicUrls(topicUrl, fetch)|
    ensures status.FetchFailed? && status.url != topicUrl ==>
      (status.url in TopicUrls(topicUrl, fetch) && fetch(status.url).None?)
    ensures status.ExtractFailed? ==>
      (status.url in TopicUrls(topicUrl, fetch) && fetch(status.url).Some? &&
       ExtractArticle(status.url, fetch(status.url).value) == Failure(status.error))
    ensures status.PandocFailed? ==>
      (status.url in TopicUrls(topicUrl, fetch) && Extracted(status.url, fetch) &&
       pandoc(ArticleOf(status.url, fetch).bodyHtml).None?)
  {
    hide Handled, ExtractArticle, FileName, Output, WroteArticle, Names, TopicUrls, ArticleUrls, Extracted, ArticleOf,
      Dedup, FindAllLinks, LinkAt, PfContent, StripTags, FieldText, IsoOfDisplay, Slug;
    var topic := fetch(topicUrl);
    if topic.None? {
      TopicUrlsOf(topicUrl, fetch);
      return FetchFailed(topicUrl), [], [];
    }
    var urls := ExtractArticleUrls(topic.value);
    TopicUrlsOf(topicUrl, fetch);
    if |urls| == 0 {
      return Exit(2), [], [];
    }
    var onDisk := existing;
    written, sources := [], [];
    HandledNone(urls, fetch, pandoc, overwrite, existing);
    var i := 0;
    var raised: Option<Status> := None;
    while i < |urls| && raised.None?
      invariant i <= |urls|
      invariant Handled(urls, i, fetch, pandoc, overwrite, existing, onDisk, written, sources)
      invariant raised.Some? ==> i < |urls| && Raises(urls[i], fetch, pandoc, raised.value)
      decreases |urls| - i, if raised.None? then 1 else 0
    {
      var url := urls[i];
      var page := fetch(url);
      if page.None? {
        raised := Some(FetchFailed(url));
        continue;
      }
      var article := ExtractArticle(url, page.value);
      if article.Failure? {
        raised := Some(ExtractFailed(url, article.error));
        continue;
      }
      var a := article.value;
      ArticleAt(url, fetch, a);
      var name := FileName(a);
      if name in onDisk && !overwrite {
        HandledSkip(urls, i, fetch, pandoc, overwrite, existing, onDisk, written, sources);
        i := i + 1;
        continue;
      }
      var markdown := pandoc(a.bodyHtml);
      if markdown.None? {
        raised := Some(PandocFailed(url));
        continue;
      }
      var file := Output(a, markdown.value);
      WroteNamed(file, url, fetch, pandoc);
      HandledWrite(urls, i, fetch, pandoc, overwrite, existing, onDisk, written, sources, file);
      written, sources := written + [file], sources + [url];
      onDisk := onDisk + {name};
      i := i + 1;
    }
    HandledMeaning(urls, i, fetch, pandoc, overwrite, existing, onDisk, written, sources);
    if raised.Some? {
      RaisesMeaning(urls, i, fetch, pandoc, raised.value);
      status := raised.value;
    } else {
      status := Exit(0);
    }
  }

  /** The error that escapes `main` while it handles the article at `url`. */
  ghost predicate Raises(url: string, fetch: string -> Option<string>, pandoc: string -> Option<string>, status: Status) {
    || (status == FetchFailed(url) && fetch(url).None?)
    || (status.ExtractFailed? && status.url == url && fetch(url).Some? &&
        ExtractArticle(url, fetch(url).value) == Failure(status.error))
    || (status == PandocFailed(url) && Extracted(url, fetch) && pandoc(ArticleOf(url, fetch).bodyHtml).None?)
  }

  lemma RaisesMeaning(urls: seq<string>, i: nat, fetch: string -> Option<string>, pandoc: string -> Option<string>, status: Status)
    requires i < |urls| && Raises(urls[i], fetch, pandoc, status)
    ensures !status.Exit?
    ensures status.FetchFailed? ==> status.url in urls && fetch(status.url).None?
    ensures status.ExtractFailed? ==>
      status.url in urls && fetch(status.url).Some? && ExtractArticle(status.url, fetch(status.url).value) == Failure(status.error)
    ensures status.PandocFailed? ==>
      status.url in urls && Extracted(status.url, fetch) && pandoc(ArticleOf(status.url, fetch).bodyHtml).None?
  {
  }

  lemma ArticleAt(url: string, fetch: string -> Option<string>, a: Article)
    requires fetch(url).Some? && ExtractArticle(url, fetch(url).value) == Success(a)
    ensures Extracted(url, fetch) && ArticleOf(url, fetch) == a
  {
  }

  lemma NamesAppend(written: seq<(string, string)>, w: (string, string))
    ensures Names(written + [w]) == Names(written) + {w.0}
  {
    assert forall x :: x in written + [w] <==> x in written || x == w;
  }

  lemma WroteNamed(w: (string, string), url: string, fetch: string -> Option<string>, pandoc: string -> Option<string>)
    requires Extracted(url, fetch) && pandoc(ArticleOf(url, fetch).bodyHtml).Some?
    requires w == Output(ArticleOf(url, fetch), pandoc(ArticleOf(url, fetch).bodyHtml).value)
    ensures WroteArticle(w, url, fetch, pandoc) && w.0 == FileName(ArticleOf(url, fetch))
  {
  }
}
