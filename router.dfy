/**
 * The client-side view router (`App.renderPage`, index.tsx:893-910): a total function
 * from the current route string to the kind of page to show, and the paths the site's
 * links build for each kind of page.
 */
module Router {
  import opened Paths

  /** The pages `renderPage` can choose; the two detail pages carry their parameter. */
  datatype Page =
    | Home
    | About
    | Governance
    | AcademicModel
    | ProgramList
    | ProgramDetail(id: string)
    | Admissions
    | PolicyList
    | PolicyDetail(slug: string)
    | Contact
    | StaffDirectory

  const ProgramsPrefix: string := "/programs/"
  const PoliciesPrefix: string := "/policies/"

  /** A prefix of the form `/word/`, with no `/` inside the word. */
  predicate SlashWordSlash(prefix: string)
  {
    |prefix| >= 2 && prefix[0] == '/' && prefix[|prefix| - 1] == '/' && '/' !in prefix[1..|prefix| - 1]
  }

  /** Both parameterised prefixes have that form. */
  lemma ParameterisedPrefixes()
    ensures SlashWordSlash(ProgramsPrefix) && SlashWordSlash(PoliciesPrefix)
  {
    assert ProgramsPrefix[1..|ProgramsPrefix| - 1] == "programs";
    assert PoliciesPrefix[1..|PoliciesPrefix| - 1] == "policies";
  }

  /** A route under a `/word/` prefix has at least three `/`-pieces; the third starts after the prefix. */
  lemma PrefixedSplit(route: string, prefix: string)
    requires SlashWordSlash(prefix)
    requires StartsWith(route, prefix)
    ensures |Split(route, '/')| >= 3
    ensures Split(route, '/')[2] == Split(route[|prefix|..], '/')[0]
  {
    var rest := route[|prefix|..];
    var word := prefix[1..|prefix| - 1];
    assert prefix == ['/'] + word + ['/'];
    assert route == route[..|prefix|] + rest;
    assert route == [] + ['/'] + (word + ['/'] + rest);
    SplitWordThenSep([], '/', word + ['/'] + rest);
    SplitWordThenSep(word, '/', rest);
  }

  /** `route.split('/')[2]`, which always exists under the two parameterised prefixes. */
  function ThirdSegment(route: string): string
    requires StartsWith(route, ProgramsPrefix) || StartsWith(route, PoliciesPrefix)
  {
    ParameterisedPrefixes();
    PrefixedSplit(route, if StartsWith(route, ProgramsPrefix) then ProgramsPrefix else PoliciesPrefix);
    Split(route, '/')[2]
  }

  /**
   * `renderPage`: the parameterised prefixes are tested first, then the route is
   * compared exactly with each static route, and anything else shows Home.
   */
  function Resolve(route: string): Page
  {
    if StartsWith(route, ProgramsPrefix) then ProgramDetail(ThirdSegment(route))
    else if StartsWith(route, PoliciesPrefix) then PolicyDetail(ThirdSegment(route))
    else if route == "/" then Home
    else if route == "/about" then About
    else if route == "/governance" then Governance
    else if route == "/academic-model" then AcademicModel
    else if route == "/programs" then ProgramList
    else if route == "/admissions" then Admissions
    else if route == "/policies" then PolicyList
    else if route == "/contact" then Contact
    else if route == "/staff" then StaffDirectory
    else Home
  }

  /**
   * The path the site's links use for a page: the static routes of the switch, and
   * `/programs/${prog.id}` and `/policies/<slug>` for the detail pages.
   */
  function PathOf(page: Page): string
  {
    match page
    case Home => "/"
    case About => "/about"
    case Governance => "/governance"
    case AcademicModel => "/academic-model"
    case ProgramList => "/programs"
    case ProgramDetail(id) => ProgramsPrefix + id
    case Admissions => "/admissions"
    case PolicyList => "/policies"
    case PolicyDetail(slug) => PoliciesPrefix + slug
    case Contact => "/contact"
    case StaffDirectory => "/staff"
  }

  /** A page whose parameter, if any, fits in one path segment. */
  predicate OneSegmentParameter(page: Page)
  {
    match page
    case ProgramDetail(id) => '/' !in id
    case PolicyDetail(slug) => '/' !in slug
    case _ => true
  }

  /** A page chosen by an exact match against the static table (Home is also the fallback). */
  predicate IsStaticPage(page: Page)
  {
    !page.ProgramDetail? && !page.PolicyDetail? && !page.Home?
  }

  /** The exact routes of the static table. */
  const StaticRoutes: set<string> := {
    "/", "/about", "/governance", "/academic-model", "/programs",
    "/admissions", "/policies", "/contact", "/staff"
  }

  /**
   * The parameter of a detail route is its third `/`-piece: whatever follows the
   * prefix up to the next `/` or the end. Later pieces are ignored.
   */
  lemma DetailRoute(prefix: string, param: string, tail: string)
    requires prefix == ProgramsPrefix || prefix == PoliciesPrefix
    requires '/' !in param
    requires tail == [] || tail[0] == '/'
    ensures Resolve(prefix + param + tail) ==
      if prefix == ProgramsPrefix then ProgramDetail(param) else PolicyDetail(param)
  {
    var route := prefix + param + tail;
    assert StartsWith(route, prefix) by {
      assert route[..|prefix|] == prefix;
    }
    assert prefix == PoliciesPrefix ==> !StartsWith(route, ProgramsPrefix) by {
      assert route[2] == prefix[2];
    }
    assert route[|prefix|..] == param + tail;
    ParameterisedPrefixes();
    PrefixedSplit(route, prefix);
    FirstPiece(param, '/', tail);
  }

  /**
   * Every route that starts with `/programs/` shows a program detail page, whose id is
   * the longest `/`-free stretch after the prefix; every other route does not.
   */
  lemma ProgramPrefixWins(route: string)
    ensures Resolve(route).ProgramDetail? <==> StartsWith(route, ProgramsPrefix)
    ensures StartsWith(route, ProgramsPrefix) ==>
      var id := Resolve(route).id; var rest := route[|ProgramsPrefix|..];
      '/' !in id && StartsWith(rest, id) && (|id| == |rest| || rest[|id|] == '/')
  {
    if StartsWith(route, ProgramsPrefix) {
      ParameterisedPrefixes();
      PrefixedSplit(route, ProgramsPrefix);
      FirstPieceOf(route[|ProgramsPrefix|..], '/');
    }
  }

  /**
   * Every route that starts with `/policies/` (and not `/programs/`, which it cannot)
   * shows a policy detail page whose slug is the longest `/`-free stretch after the
   * prefix; every other route does not.
   */
  lemma PolicyPrefixWins(route: string)
    ensures Resolve(route).PolicyDetail? <==> StartsWith(route, PoliciesPrefix)
    ensures StartsWith(route, PoliciesPrefix) ==>
      var slug := Resolve(route).slug; var rest := route[|PoliciesPrefix|..];
      '/' !in slug && StartsWith(rest, slug) && (|slug| == |rest| || rest[|slug|] == '/')
  {
    if StartsWith(route, PoliciesPrefix) {
      assert !StartsWith(route, ProgramsPrefix) by {
        assert route[2] == PoliciesPrefix[2];
      }
      ParameterisedPrefixes();
      PrefixedSplit(route, PoliciesPrefix);
      FirstPieceOf(route[|PoliciesPrefix|..], '/');
    }
  }

  /** No static route lies under a parameterised prefix. */
  lemma StaticRoutesUnprefixed(route: string)
    requires route in StaticRoutes
    ensures !StartsWith(route, ProgramsPrefix) && !StartsWith(route, PoliciesPrefix)
  {
    if route == "/admissions" || route == "/academic-model" || route == "/governance" {
      assert route[..|ProgramsPrefix|][1] != ProgramsPrefix[1];
      assert route[..|PoliciesPrefix|][1] != PoliciesPrefix[1];
    } else if route == "/" || route == "/about" || route == "/staff" {
      assert |route| < |ProgramsPrefix|;
    } else {
      assert route == "/programs" || route == "/policies" || route == "/contact";
      assert |route| < |ProgramsPrefix|;
    }
  }

  /**
   * Static matching is exact: a static page is shown for its own route and for no
   * other string (so `/programs` shows the list and `/programs/` does not).
   */
  lemma StaticPageExact(route: string, page: Page)
    requires IsStaticPage(page)
    ensures Resolve(route) == page <==> route == PathOf(page)
  {
    StaticRoutesUnprefixed(PathOf(page));
    if StartsWith(route, ProgramsPrefix) || StartsWith(route, PoliciesPrefix) {
      if route == PathOf(page) {
        StaticRoutesUnprefixed(route);
      }
    }
  }

  /**
   * The fallback: Home is shown for `/` and for every route that has neither prefix
   * and is not in the static table, and for nothing else.
   */
  lemma HomeIsTheFallback(route: string)
    ensures Resolve(route) == Home <==>
      route == "/" ||
      (!StartsWith(route, ProgramsPrefix) && !StartsWith(route, PoliciesPrefix) && route !in StaticRoutes)
  {
    if route in StaticRoutes {
      StaticRoutesUnprefixed(route);
    }
  }

  /**
   * Round trip: resolving the path a link builds for a page gives back that page,
   * whenever the page's parameter has no `/` in it.
   */
  lemma ResolvePathOf(page: Page)
    requires OneSegmentParameter(page)
    ensures Resolve(PathOf(page)) == page
  {
    match page
    case ProgramDetail(id) =>
      assert PathOf(page) == ProgramsPrefix + id + [];
      DetailRoute(ProgramsPrefix, id, []);
    case PolicyDetail(slug) =>
      assert PathOf(page) == PoliciesPrefix + slug + [];
      DetailRoute(PoliciesPrefix, slug, []);
    case Home =>
    case _ =>
      StaticPageExact(PathOf(page), page);
  }

  /** An empty program id is kept: `/programs/` shows the detail page for id `""`. */
  lemma EmptyProgramId()
    ensures Resolve("/programs/") == ProgramDetail("")
  {
    assert "/programs/" == ProgramsPrefix + "" + [];
    DetailRoute(ProgramsPrefix, "", []);
  }

  /** Pieces after the id are ignored: `/programs/a/b` shows the detail page for id `a`. */
  lemma LaterPiecesIgnored()
    ensures Resolve("/programs/a/b") == ProgramDetail("a")
  {
    assert "/programs/a/b" == ProgramsPrefix + "a" + "/b";
    DetailRoute(ProgramsPrefix, "a", "/b");
  }

  /** A trailing slash after a slug is ignored: `/policies/privacy/` shows that policy. */
  lemma TrailingSlashAfterSlug()
    ensures Resolve("/policies/privacy/") == PolicyDetail("privacy")
  {
    assert "/policies/privacy/" == PoliciesPrefix + "privacy" + "/";
    DetailRoute(PoliciesPrefix, "privacy", "/");
  }

  /** A trailing slash is not stripped from a static route: `/about/` and `/staff/` fall back to Home. */
  lemma TrailingSlashNotStripped()
    ensures Resolve("/about/") == Home
    ensures Resolve("/staff/") == Home
  {
    HomeIsTheFallback("/about/");
    HomeIsTheFallback("/staff/");
  }

  /** Routes are case-sensitive: `/About` and `/Programs/x` fall back to Home. */
  lemma CaseNotFolded()
    ensures Resolve("/About") == Home
    ensures Resolve("/Programs/x") == Home
  {
    HomeIsTheFallback("/About");
    assert "/Programs/x"[1] != ProgramsPrefix[1] && "/Programs/x"[1] != PoliciesPrefix[1];
    HomeIsTheFallback("/Programs/x");
  }
}
