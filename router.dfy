/**
 * script.js: the site's hash router. A location hash either redirects to a
 * corrected hash or names a language, a path and a query; the first path
 * segment picks the page. Posts and projects exist in both languages and
 * are linked across languages by a shared group.
 */
module Router {
  import opened Wrappers
  import Text

  /** A parsed location: `{ lang, path, query }`. */
  datatype Route = Route(lang: string, path: string, query: string)

  /** What `parseHashOrRedirect` leads to: a `location.replace`, or a route to render. */
  datatype Navigation = Redirect(target: string) | Show(route: Route)

  predicate IsLang(lang: string) {
    lang == "pt" || lang == "en"
  }

  /** Characters that `.` in a regular expression does not match. */
  predicate IsLineTerminator(c: char) {
    c == '\n' || c == '\r' || c == '\U{2028}' || c == '\U{2029}'
  }

  predicate NoLineTerminator(s: string) {
    forall i :: 0 <= i < |s| ==> !IsLineTerminator(s[i])
  }

  /**
   * The regular expression `^\/(pt|en)(\/[^?]*)?(\?.*)?$` matches `raw`
   * with these three groups: `p` is the second group ("" when it takes no
   * part) and `q` the third.
   */
  predicate Matches(raw: string, lang: string, p: string, q: string) {
    && raw == "/" + lang + p + q
    && IsLang(lang)
    && (p == "" || (p[0] == '/' && '?' !in p))
    && (q == "" || (q[0] == '?' && NoLineTerminator(q[1..])))
  }

  /** The match of the route expression, computed by cutting `raw` at its first '?'. */
  function MatchRoute(raw: string): (r: Option<Route>)
    ensures r.Some? ==> IsLang(r.value.lang) && |r.value.path| > 0 && r.value.path[0] == '/' && '?' !in r.value.path
    ensures r.Some? ==> r.value.query == "" || r.value.query[0] == '?'
    ensures r.Some? ==> |raw| >= 3 && raw[0] == '/' && raw[1..3] == r.value.lang
  {
    if |raw| >= 3 && IsLang(raw[1..3]) && raw[0] == '/' then
      var rest := raw[3..];
      var k := Text.IndexOf(rest, '?');
      var p, q := rest[..k], rest[k..];
      if (p == "" || p[0] == '/') && (q == "" || NoLineTerminator(q[1..])) then
        Some(Route(raw[1..3], if p == "" then "/" else p, q))
      else None
    else None
  }

  /** Every match `MatchRoute` reports is a match of the expression. */
  lemma MatchRouteSound(raw: string)
    requires MatchRoute(raw).Some?
    ensures var r := MatchRoute(raw).value;
      exists p :: Matches(raw, r.lang, p, r.query) && r.path == (if p == "" then "/" else p)
  {
    var r := MatchRoute(raw).value;
    var rest := raw[3..];
    var k := Text.IndexOf(rest, '?');
    var p, q := rest[..k], rest[k..];
    assert raw == "/" + raw[1..3] + p + q;
    assert Matches(raw, r.lang, p, r.query);
  }

  /** Every match of the expression is found by `MatchRoute`, with the same groups. */
  lemma MatchRouteComplete(raw: string, lang: string, p: string, q: string)
    requires Matches(raw, lang, p, q)
    ensures MatchRoute(raw) == Some(Route(lang, if p == "" then "/" else p, q))
  {
    assert raw[0] == '/' && raw[1..3] == lang;
    var rest := raw[3..];
    assert rest == p + q;
    var k := Text.IndexOf(rest, '?');
    assert forall j :: 0 <= j < |p| ==> rest[j] == p[j];
    assert k >= |p|;
    assert rest[..|p|] == p;
    assert k == |p|;
    assert rest[k..] == q;
  }

  /** `raw.startsWith('/') ? raw : '/' + raw`. */
  function WithLeadingSlash(raw: string): (r: string)
    ensures |r| > 0 && r[0] == '/'
    ensures r == raw || r == "/" + raw
    ensures |raw| > 0 && raw[0] == '/' ==> r == raw
  {
    if |raw| > 0 && raw[0] == '/' then raw else "/" + raw
  }

  /** `location.hash` without its leading '#'. */
  function HashBody(hash: string): (raw: string)
    ensures hash == raw || hash == "#" + raw
  {
    if |hash| > 0 && hash[0] == '#' then hash[1..] else hash
  }

  /**
   * `parseHashOrRedirect`: an empty hash or "/" goes to the Portuguese home
   * page; a hash that the route expression does not match is redirected to
   * the same path under "/pt".
   */
  function ParseHashOrRedirect(hash: string): (n: Navigation)
    ensures var raw := HashBody(hash);
      (raw == "" || raw == "/") ==> n == Redirect("#/pt")
    ensures var raw := HashBody(hash);
      n.Redirect? && raw != "" && raw != "/" ==> n.target == "#/pt" + WithLeadingSlash(raw)
    ensures n.Show? ==> var raw := HashBody(hash);
      exists p :: Matches(raw, n.route.lang, p, n.route.query) && n.route.path == (if p == "" then "/" else p)
    ensures n.Show? ==> IsLang(n.route.lang) && |n.route.path| > 0 && n.route.path[0] == '/'
  {
    var raw := HashBody(hash);
    if raw == "" || raw == "/" then Redirect("#/pt")
    else
      match MatchRoute(raw)
      case None => Redirect("#/pt" + WithLeadingSlash(raw))
      case Some(route) =>
        MatchRouteSound(raw);
        Show(route)
  }

  /** A hash whose body matches the route expression is shown, never redirected. */
  lemma MatchedHashShown(hash: string, lang: string, p: string, q: string)
    requires Matches(HashBody(hash), lang, p, q)
    ensures ParseHashOrRedirect(hash) == Show(Route(lang, if p == "" then "/" else p, q))
  {
    MatchRouteComplete(HashBody(hash), lang, p, q);
  }

  /** A slash-led path without line terminators, put after "/pt", matches the route expression. */
  lemma SlashedPathMatches(fixed: string)
    requires NoLineTerminator(fixed) && (fixed == "" || fixed[0] == '/')
    ensures MatchRoute("/pt" + fixed).Some?
  {
    var k := Text.IndexOf(fixed, '?');
    var p, q := fixed[..k], fixed[k..];
    assert fixed == p + q;
    if |p| > 0 {
      assert p[0] == fixed[0];
    }
    if q != "" {
      assert forall i :: 0 <= i < |q[1..]| ==> q[1..][i] == fixed[k + 1 + i];
    }
    assert "/pt" + fixed == "/" + "pt" + p + q;
    MatchRouteComplete("/pt" + fixed, "pt", p, q);
  }

  /** What the redirect puts after "#/pt" starts with a slash and keeps the hash's characters. */
  lemma RedirectTail(raw: string)
    requires NoLineTerminator(raw) && raw != "" && raw != "/"
    ensures NoLineTerminator(WithLeadingSlash(raw))
  {
    var fixed := WithLeadingSlash(raw);
    if fixed != raw {
      assert forall i :: 1 <= i < |fixed| ==> fixed[i] == raw[i - 1];
    }
  }

  /** A redirect target always parses to a route: redirecting happens at most once. */
  lemma RedirectSettles(hash: string)
    requires ParseHashOrRedirect(hash).Redirect?
    requires NoLineTerminator(HashBody(hash))
    ensures ParseHashOrRedirect(ParseHashOrRedirect(hash).target).Show?
  {
    var raw := HashBody(hash);
    var target := ParseHashOrRedirect(hash).target;
    var fixed := if raw == "" || raw == "/" then "" else WithLeadingSlash(raw);
    assert target == "#/pt" + fixed;
    assert HashBody(target) == "/pt" + fixed;
    if fixed != "" {
      RedirectTail(raw);
    }
    SlashedPathMatches(fixed);
  }

  /**
   * The route segment of a path: "" for "/", otherwise the first
   * "/"-separated part after the leading slash.
   */
  function RouteSegment(path: string): (seg: string)
    ensures '/' !in seg
    ensures path != "/" && |path| > 0 ==> seg == path[1..][..Text.IndexOf(path[1..], '/')]
    ensures path == "/" ==> seg == ""
  {
    if path == "/" then ""
    else
      var rest := if |path| > 0 then path[1..] else "";
      Text.SplitFirst(rest, '/');
      Text.Split(rest, '/')[0]
  }

  /**
   * The pages of the site, the one shown for an unknown segment, and
   * `Throws`: the segment names a member every object inherits, so the
   * lookup finds that member instead of a page, and calling it throws a
   * TypeError before anything is rendered.
   */
  datatype Page = Home | BlogIndex | BlogPost | CV | Slides | ProjectsIndex | ProjectPage | NotFound | Throws

  /** The segments the route table lists. */
  const RouteKeys: set<string> := {"", "blog", "post", "cv", "slides", "projects", "project"}

  /**
   * The members of `Object.prototype`. `routes` is an object literal, so
   * `routes[seg]` finds one of these for such a segment, and the value is
   * truthy; none of them returns a promise when called with a language
   * and parameters, so `route(...).catch(...)` throws.
   */
  const InheritedKeys: set<string> := {
    "constructor", "toString", "toLocaleString", "valueOf", "hasOwnProperty", "isPrototypeOf",
    "propertyIsEnumerable", "__proto__", "__defineGetter__", "__defineSetter__",
    "__lookupGetter__", "__lookupSetter__"}

  /** The route table: `routes[seg] || renderNotFound`. */
  function PageFor(seg: string): (page: Page)
    ensures page == NotFound <==> seg !in RouteKeys && seg !in InheritedKeys
    ensures page == Throws <==> seg in InheritedKeys
  {
    match seg
    case "" => Home
    case "blog" => BlogIndex
    case "post" => BlogPost
    case "cv" => CV
    case "slides" => Slides
    case "projects" => ProjectsIndex
    case "project" => ProjectPage
    case _ => if seg in InheritedKeys then Throws else NotFound
  }

  /** The segment each navigation link points at: Home, Blog, CV, Slides, Projects. */
  const NavSegments: seq<string> := ["", "blog", "cv", "slides", "projects"]

  /** A navigation link: `#/${lang}/${p}` with one trailing slash removed. */
  function NavHref(lang: string, p: string): (href: string)
    ensures p == "" ==> href == "#/" + lang
    ensures p != "" && p[|p| - 1] != '/' ==> href == "#/" + lang + "/" + p
  {
    var s := "#/" + lang + "/" + p;
    if s[|s| - 1] == '/' then s[..|s| - 1] else s
  }

  /** The body of a navigation link's hash, for a segment without a trailing slash. */
  lemma NavHrefBody(lang: string, p: string)
    requires p == "" || p[|p| - 1] != '/'
    ensures HashBody(NavHref(lang, p)) == "/" + lang + (if p == "" then "" else "/" + p) + ""
  {
  }

  /** The segment of "/" + p is p itself when p has no slash. */
  lemma SegmentOfSlashed(p: string)
    requires p != "" && '/' !in p
    ensures RouteSegment("/" + p) == p
  {
    assert ("/" + p)[1..] == p;
    assert Text.IndexOf(p, '/') == |p|;
    assert p[..|p|] == p;
  }

  /** Following a navigation link renders the page of its segment, in the link's language. */
  lemma NavHrefRoutes(lang: string, k: nat)
    requires IsLang(lang) && k < |NavSegments|
    ensures var p := NavSegments[k];
      var n := ParseHashOrRedirect(NavHref(lang, p));
      n.Show? && n.route.lang == lang && n.route.query == "" &&
      RouteSegment(n.route.path) == p && PageFor(p) != NotFound
  {
    var p := NavSegments[k];
    assert p in {"", "blog", "cv", "slides", "projects"};
    assert p == "" || (p[|p| - 1] != '/' && '/' !in p);
    var href := NavHref(lang, p);
    NavHrefBody(lang, p);
    hide *;
    if p == "" {
      MatchedHashShown(href, lang, "", "");
    } else {
      MatchedHashShown(href, lang, "/" + p, "");
      SegmentOfSlashed(p);
    }
  }

  /** The page `navigate` renders, kept with the route it rendered. */
  datatype Rendered = Rendered(route: Route, page: Page)

  /** The router's state: `current` holds the last route shown. */
  class Site {
    var current: Route

    constructor ()
      ensures current == Route("pt", "/", "")
    {
      current := Route("pt", "/", "");
    }

    /**
     * `navigate`: a redirect leaves `current` alone and renders nothing;
     * otherwise `current` becomes the parsed route and the page of its
     * segment is rendered, unless the segment names an inherited member,
     * when the call throws and nothing is rendered.
     */
    method Navigate(hash: string) returns (shown: Option<Rendered>)
      modifies this
      ensures ParseHashOrRedirect(hash).Redirect? ==> shown == None && current == old(current)
      ensures ParseHashOrRedirect(hash).Show? ==> current == ParseHashOrRedirect(hash).route
      ensures ParseHashOrRedirect(hash).Show? ==>
        var page := PageFor(RouteSegment(current.path));
        shown == if page == Throws then None else Some(Rendered(current, page))
    {
      var parsed := ParseHashOrRedirect(hash);
      if parsed.Redirect? {
        return None;
      }
      current := parsed.route;
      var seg := RouteSegment(current.path);
      var page := PageFor(seg);
      if page == Throws {
        return None;
      }
      shown := Some(Rendered(current, page));
    }
  }

  /** A post or a project as listed in its JSON index; a missing group is "". */
  datatype Entry = Entry(slug: string, lang: string, group: string)

  predicate IsCounterpart(e: Entry, group: string, otherLang: string) {
    e.group != "" && e.group == group && e.lang == otherLang
  }

  /** `counterpartByGroup`: the first entry of the other language in the same (non-empty) group. */
  function CounterpartByGroup(list: seq<Entry>, group: string, otherLang: string): (r: Option<Entry>)
    ensures r.None? <==> forall i :: 0 <= i < |list| ==> !IsCounterpart(list[i], group, otherLang)
    ensures r.Some? ==>
      exists i :: (0 <= i < |list| && list[i] == r.value && IsCounterpart(list[i], group, otherLang) &&
                   forall j :: 0 <= j < i ==> !IsCounterpart(list[j], group, otherLang))
  {
    if |list| == 0 then None
    else if IsCounterpart(list[0], group, otherLang) then Some(list[0])
    else
      var r := CounterpartByGroup(list[1..], group, otherLang);
      if r.Some? then
        var i :| 0 <= i < |list[1..]| && list[1..][i] == r.value && IsCounterpart(list[1..][i], group, otherLang) &&
          forall j :: 0 <= j < i ==> !IsCounterpart(list[1..][j], group, otherLang);
        assert list[i + 1] == r.value;
        r
      else r
  }

  predicate HasSlugAndLang(e: Entry, slug: string, lang: string) {
    e.slug == slug && e.lang == lang
  }

  /** `findPostBySlugAndLang` and `findProjectBySlugAndLang`: the first entry with this slug and language. */
  function FindBySlugAndLang(list: seq<Entry>, slug: string, lang: string): (r: Option<Entry>)
    ensures r.None? <==> forall i :: 0 <= i < |list| ==> !HasSlugAndLang(list[i], slug, lang)
    ensures r.Some? ==>
      exists i :: (0 <= i < |list| && list[i] == r.value && HasSlugAndLang(list[i], slug, lang) &&
                   forall j :: 0 <= j < i ==> !HasSlugAndLang(list[j], slug, lang))
  {
    if |list| == 0 then None
    else if HasSlugAndLang(list[0], slug, lang) then Some(list[0])
    else
      var r := FindBySlugAndLang(list[1..], slug, lang);
      if r.Some? then
        var i :| 0 <= i < |list[1..]| && list[1..][i] == r.value && HasSlugAndLang(list[1..][i], slug, lang) &&
          forall j :: 0 <= j < i ==> !HasSlugAndLang(list[1..][j], slug, lang);
        assert list[i + 1] == r.value;
        r
      else r
  }

  /**
   * When a post's counterpart carries the same group back, the counterpart
   * of the counterpart is again an entry of the first language in that
   * group: switching language twice stays in the group.
   */
  lemma CounterpartSymmetric(list: seq<Entry>, here: Entry, otherLang: string)
    requires here in list && here.group != "" && CounterpartByGroup(list, here.group, otherLang).Some?
    ensures var there := CounterpartByGroup(list, here.group, otherLang).value;
      var back := CounterpartByGroup(list, there.group, here.lang);
      back.Some? && back.value.group == here.group && back.value.lang == here.lang
  {
    var there := CounterpartByGroup(list, here.group, otherLang).value;
    var i :| 0 <= i < |list| && list[i] == here;
    assert IsCounterpart(list[i], there.group, here.lang);
  }

  /** A slide deck as listed in slides.json; a missing project is "". */
  datatype Slide = Slide(lang: string, project: string)

  /** The projects that have at least one deck in `lang`. */
  ghost function ProjectsWithSlides(slides: seq<Slide>, lang: string): set<string>
  {
    set i | 0 <= i < |slides| && slides[i].lang == lang && slides[i].project != "" :: slides[i].project
  }

  /** `projectSlugsWithSlides`: the set filled while walking the decks. */
  method ProjectSlugsWithSlides(slides: seq<Slide>, lang: string) returns (slugs: set<string>)
    ensures slugs == ProjectsWithSlides(slides, lang)
    ensures forall p :: p in slugs <==> exists s :: s in slides && s.lang == lang && s.project == p && p != ""
  {
    slugs := {};
    var i := 0;
    while i < |slides|
      invariant 0 <= i <= |slides|
      invariant slugs == ProjectsWithSlides(slides[..i], lang)
    {
      var s := slides[i];
      assert slides[..i + 1] == slides[..i] + [s];
      if s.lang == lang && s.project != "" {
        slugs := slugs + {s.project};
      }
      i := i + 1;
    }
    assert slides[..i] == slides;
    forall p
      ensures p in slugs <==> exists s :: s in slides && s.lang == lang && s.project == p && p != ""
    {
      if exists s :: s in slides && s.lang == lang && s.project == p && p != "" {
        var s :| s in slides && s.lang == lang && s.project == p && p != "";
        var k :| 0 <= k < |slides| && slides[k] == s;
      }
    }
  }
}
