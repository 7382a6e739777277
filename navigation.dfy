/**
 * The navigation state of the `App` component (index.tsx:889-890): one current route,
 * created as `/` and replaced by every `setRoute` call, and the header's `NavLink`
 * highlight test (index.tsx:350-353, 866-870).
 */
module Navigation {
  import opened Router

  /** The application shell holding the current route. */
  class App {
    var route: string

    /** `useState('/')`: the site opens on the root route, which shows Home. */
    constructor()
      ensures route == "/"
      ensures CurrentPage() == Home
    {
      route := "/";
      new;
      ResolvePathOf(Home);
    }

    /** The page `renderPage` shows for the current route. */
    function CurrentPage(): Page
      reads this
    {
      Resolve(route)
    }

    /**
     * `setRoute(to)`, as called by every button and `NavLink`: the route is replaced
     * unconditionally, with no validation and no history, and the page shown follows
     * the new route alone. Navigating to the current route leaves the page unchanged.
     */
    method SetRoute(to: string)
      modifies this
      ensures route == to
      ensures CurrentPage() == Resolve(to)
      ensures old(route) == to ==> CurrentPage() == old(CurrentPage())
      ensures forall other :: NavLinkActive(route, other) <==> other == to
    {
      route := to;
    }
  }

  /** `current === to`: a `NavLink` is highlighted only when the route is exactly its target. */
  function NavLinkActive(current: string, to: string): bool
  {
    current == to
  }

  /** The header's navigation links (index.tsx:866-870). */
  const NavLinks: seq<string> := ["/", "/about", "/programs", "/admissions", "/contact"]

  /** The page each navigation link's label names. */
  const NavPages: seq<Page> := [Home, About, ProgramList, Admissions, Contact]

  /** One navigation link at a time, so that no proof unfolds the whole literal list. */
  lemma NavEntry(i: nat)
    requires i < |NavPages|
    ensures i < |NavLinks| && NavLinks[i] == PathOf(NavPages[i])
    ensures !NavPages[i].ProgramDetail? && !NavPages[i].PolicyDetail?
    ensures NavPages[i] == Home <==> i == 0
    ensures NavLinks[i] == "/" <==> i == 0
  {
    if i == 0 { assert NavLinks[0] == PathOf(NavPages[0]); }
    else if i == 1 { assert NavLinks[1] == PathOf(NavPages[1]); }
    else if i == 2 { assert NavLinks[2] == PathOf(NavPages[2]); }
    else if i == 3 { assert NavLinks[3] == PathOf(NavPages[3]); }
    else { assert NavLinks[4] == PathOf(NavPages[4]); }
  }

  /**
   * A highlighted navigation link names the page being shown, and at most one link is
   * highlighted at a time.
   */
  lemma NavHighlightNamesCurrentPage(current: string)
    ensures forall i :: 0 <= i < |NavLinks| && NavLinkActive(current, NavLinks[i]) ==> Resolve(current) == NavPages[i]
    ensures forall i, j :: 0 <= i < j < |NavLinks| && NavLinkActive(current, NavLinks[i]) ==> !NavLinkActive(current, NavLinks[j])
  {
    forall i | 0 <= i < |NavPages| ensures Resolve(NavLinks[i]) == NavPages[i] {
      NavEntry(i);
      ResolvePathOf(NavPages[i]);
    }
  }

  /**
   * The highlight compares routes, not pages: on a detail page no navigation link is
   * highlighted (not even Programs), and a route that falls back to Home without being
   * `/` leaves the Home link unhighlighted.
   */
  lemma HighlightIsExactRouteMatch(current: string)
    requires Resolve(current).ProgramDetail? || Resolve(current).PolicyDetail? ||
             (Resolve(current) == Home && current != "/")
    ensures forall i :: 0 <= i < |NavLinks| ==> !NavLinkActive(current, NavLinks[i])
  {
    forall i | 0 <= i < |NavLinks| ensures !NavLinkActive(current, NavLinks[i]) {
      NavEntry(i);
      ResolvePathOf(NavPages[i]);
    }
  }
}
