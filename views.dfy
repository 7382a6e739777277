/**
 * What each page renders, reduced to the data it depends on (index.tsx:597-816), and
 * the navigation targets the site's buttons emit (index.tsx:380-407, 451-468, 611,
 * 720-728, 857-873). The detail pages look their parameter up and show a not-found
 * message on a miss instead of failing.
 */
module Views {
  import opened Wrappers
  import opened Content
  import opened Directory
  import opened Router
  import opened Navigation

  /** The rendered page, keeping only the content-dependent part of each view. */
  datatype View =
    | HomeView
    | AboutView
    | GovernanceView
    | AcademicModelView
    | ProgramListView(links: seq<string>)
    | ProgramView(program: Program)
    | ProgramNotFound
    | AdmissionsView
    | PolicyListView(links: seq<string>)
    | PolicyView(policy: Policy)
    | PolicyNotFound
    | InheritedPolicyPage(name: string)
    | ContactView
    | StaffView(groups: seq<Group>)

  /** A "Program not found" or "Policy Not Found" message. */
  predicate IsNotFound(view: View)
  {
    view == ProgramNotFound || view == PolicyNotFound
  }

  /** The "Program Details" buttons of the Programs page: `/programs/${prog.id}` per program. */
  function ProgramLinks(programs: seq<Program>): seq<string>
  {
    seq(|programs|, k requires 0 <= k < |programs| => ProgramsPrefix + programs[k].id)
  }

  /**
   * The Policies page's list of policy paths (index.tsx:720-728). Each path is written
   * as the policy prefix followed by the slug; the strings are the source's literals.
   */
  const PolicyIndexLinks: seq<string> := [
    PoliciesPrefix + "academic-integrity",
    PoliciesPrefix + "assessment",
    PoliciesPrefix + "attendance",
    PoliciesPrefix + "privacy",
    PoliciesPrefix + "terms",
    PoliciesPrefix + "grievance",
    PoliciesPrefix + "nondiscrimination"
  ]

  /** The footer's buttons (index.tsx:380-391 and 404-407), policy paths written as above. */
  const FooterLinks: seq<string> := [
    "/about", "/governance", "/staff",
    "/programs", "/academic-model", "/admissions", "/policies",
    PoliciesPrefix + "nondiscrimination", PoliciesPrefix + "privacy",
    PoliciesPrefix + "terms", PoliciesPrefix + "grievance"
  ]

  /** The header's buttons (index.tsx:857-873): the logo, the navigation links, "Apply Now". */
  const HeaderLinks: seq<string> := ["/"] + NavLinks + ["/admissions"]

  /** The Home page's buttons (index.tsx:451-474). */
  const HomeLinks: seq<string> := ["/programs", "/admissions", "/academic-model", "/staff", "/governance"]

  /** `ProgramDetail`: the first program with the id, or the not-found message. */
  function RenderProgramDetail(programs: seq<Program>, id: string): (view: View)
    ensures view.ProgramView? || view == ProgramNotFound
    ensures view == ProgramNotFound <==> forall k :: 0 <= k < |programs| ==> programs[k].id != id
    ensures view.ProgramView? ==> view.program in programs && view.program.id == id
  {
    match FindProgram(programs, id)
    case Some(program) => ProgramView(program)
    case None => ProgramNotFound
  }

  /** `PolicyDetail`: the policy stored under the slug, or the not-found message. */
  function RenderPolicyDetail(table: map<string, Policy>, slug: string): (view: View)
    ensures view.PolicyView? || view == PolicyNotFound
    ensures view == PolicyNotFound <==> slug !in table
    ensures view.PolicyView? ==> slug in table && view.policy == table[slug]
  {
    match LookupPolicy(table, slug)
    case Some(policy) => PolicyView(policy)
    case None => PolicyNotFound
  }

  /**
   * `PolicyDetail` as written: the not-found message only when reading the slug as a
   * property yields `undefined`; a name inherited from `Object.prototype` passes the
   * `!policy` test and gets the policy layout with no stored policy behind it.
   */
  function RenderPolicyDetailAsWritten(table: map<string, Policy>, slug: string): (view: View)
    ensures view == PolicyNotFound <==> slug !in table && slug !in ObjectPrototypeNames
    ensures view.InheritedPolicyPage? <==> slug !in table && slug in ObjectPrototypeNames
    ensures slug in table ==> view == RenderPolicyDetail(table, slug)
  {
    match ReadPolicyProperty(table, slug)
    case OwnEntry(policy) => PolicyView(policy)
    case InheritedMember(name) => InheritedPolicyPage(name)
    case Undefined => PolicyNotFound
  }

  /**
   * The page component `renderPage` mounts for a page, over the site's own tables, with
   * the corrected own-key policy lookup.
   */
  function Render(page: Page): View
  {
    match page
    case Home => HomeView
    case About => AboutView
    case Governance => GovernanceView
    case AcademicModel => AcademicModelView
    case ProgramList => ProgramListView(ProgramLinks(ProgramCatalog))
    case ProgramDetail(id) => RenderProgramDetail(ProgramCatalog, id)
    case Admissions => AdmissionsView
    case PolicyList => PolicyListView(PolicyIndexLinks)
    case PolicyDetail(slug) => RenderPolicyDetail(PolicyContent, slug)
    case Contact => ContactView
    case StaffDirectory => StaffView(Directory.StaffDirectory(StaffRoster))
  }

  /**
   * No page fails to render: the only failures are the two not-found messages, shown
   * exactly for a program id absent from the catalog and a slug absent from the policy
   * table.
   */
  lemma NotFoundOnlyOnMiss(page: Page)
    ensures IsNotFound(Render(page)) <==>
      (page.ProgramDetail? && forall k :: 0 <= k < |ProgramCatalog| ==> ProgramCatalog[k].id != page.id) ||
      (page.PolicyDetail? && page.slug !in PolicyContent)
  {
  }

  /**
   * Each "Program Details" button leads to the detail page of the program it was built
   * from, provided ids are unique and fit in one path segment.
   */
  lemma ProgramLinkShowsItsProgram(programs: seq<Program>, k: nat)
    requires UniqueIds(programs)
    requires k < |programs| && '/' !in programs[k].id
    ensures |ProgramLinks(programs)| == |programs|
    ensures Resolve(ProgramLinks(programs)[k]) == ProgramDetail(programs[k].id)
    ensures RenderProgramDetail(programs, programs[k].id) == ProgramView(programs[k])
  {
    ResolvePathOf(ProgramDetail(programs[k].id));
    FindListedProgram(programs, k);
  }

  /** Every program button of the Programs page opens a program that exists. */
  lemma CatalogLinksNeverMiss()
    ensures forall l :: l in ProgramLinks(ProgramCatalog) ==> Render(Resolve(l)).ProgramView?
  {
    CatalogIdsWellFormed();
    forall k | 0 <= k < |ProgramCatalog|
      ensures Render(Resolve(ProgramLinks(ProgramCatalog)[k])) == ProgramView(ProgramCatalog[k])
    {
      ProgramLinkShowsItsProgram(ProgramCatalog, k);
    }
  }

  /** The link a policy slug gets, and what it shows. */
  lemma PolicyLinkShowsItsPolicy(slug: string)
    requires slug in PolicyContent && '/' !in slug
    ensures Resolve(PoliciesPrefix + slug) == PolicyDetail(slug)
    ensures Render(Resolve(PoliciesPrefix + slug)) == PolicyView(PolicyContent[slug])
  {
    ResolvePathOf(PolicyDetail(slug));
  }

  /** A link whose page is neither the Home fallback nor a not-found message. */
  predicate OpensContent(link: string)
  {
    Resolve(link) != Home && !IsNotFound(Render(Resolve(link)))
  }

  /** Each button's path is the path of the page it names, with a one-segment parameter. */
  predicate NamesTargets(links: seq<string>, targets: seq<Page>)
  {
    |links| == |targets| &&
    forall k :: 0 <= k < |links| ==> links[k] == PathOf(targets[k]) && OneSegmentParameter(targets[k])
  }

  /** Buttons whose paths are the paths of their pages open exactly those pages. */
  lemma ButtonsOpenTargets(links: seq<string>, targets: seq<Page>)
    requires NamesTargets(links, targets)
    ensures forall k :: 0 <= k < |links| ==> Resolve(links[k]) == targets[k]
  {
    forall k | 0 <= k < |links| ensures Resolve(links[k]) == targets[k] {
      ResolvePathOf(targets[k]);
    }
  }

  /** The page each Policies-page entry names (index.tsx:721-727). */
  const PolicyIndexTargets: seq<Page> := [
    PolicyDetail("academic-integrity"), PolicyDetail("assessment"), PolicyDetail("attendance"),
    PolicyDetail("privacy"), PolicyDetail("terms"), PolicyDetail("grievance"),
    PolicyDetail("nondiscrimination")
  ]

  /** One Policies-page entry at a time, so that no proof unfolds the whole literal list. */
  lemma PolicyIndexEntry(k: nat)
    requires k < |PolicyIndexTargets|
    ensures k < |PolicyIndexLinks| && PolicyIndexLinks[k] == PathOf(PolicyIndexTargets[k])
    ensures PolicyIndexTargets[k].PolicyDetail? && '/' !in PolicyIndexTargets[k].slug
    ensures PolicyIndexTargets[k].slug in PolicyContent
  {
    if k == 0 { assert PolicyIndexLinks[0] == PathOf(PolicyIndexTargets[0]); }
    else if k == 1 { assert PolicyIndexLinks[1] == PathOf(PolicyIndexTargets[1]); }
    else if k == 2 { assert PolicyIndexLinks[2] == PathOf(PolicyIndexTargets[2]); }
    else if k == 3 { assert PolicyIndexLinks[3] == PathOf(PolicyIndexTargets[3]); }
    else if k == 4 { assert PolicyIndexLinks[4] == PathOf(PolicyIndexTargets[4]); }
    else if k == 5 { assert PolicyIndexLinks[5] == PathOf(PolicyIndexTargets[5]); }
    else { assert PolicyIndexLinks[6] == PathOf(PolicyIndexTargets[6]); }
  }

  /**
   * The Policies page lists exactly the policy table: every entry opens the policy it
   * names, that policy exists, and every policy in the table has an entry.
   */
  lemma PolicyIndexMatchesTable()
    ensures |PolicyIndexLinks| == |PolicyIndexTargets|
    ensures forall k :: 0 <= k < |PolicyIndexLinks| ==>
      Resolve(PolicyIndexLinks[k]) == PolicyIndexTargets[k] &&
      Render(PolicyIndexTargets[k]) == PolicyView(PolicyContent[PolicyIndexTargets[k].slug])
    ensures forall slug :: slug in PolicyContent ==> PoliciesPrefix + slug in PolicyIndexLinks
  {
    forall k | 0 <= k < |PolicyIndexTargets|
      ensures Resolve(PolicyIndexLinks[k]) == PolicyIndexTargets[k]
      ensures Render(PolicyIndexTargets[k]) == PolicyView(PolicyContent[PolicyIndexTargets[k].slug])
    {
      PolicyIndexEntry(k);
      var slug := PolicyIndexTargets[k].slug;
      assert PolicyIndexLinks[k] == PoliciesPrefix + slug;
      PolicyLinkShowsItsPolicy(slug);
    }
    forall slug | slug in PolicyContent ensures PoliciesPrefix + slug in PolicyIndexLinks {
      PolicySlugListed(slug);
    }
  }

  /** Every slug of the policy table has its entry on the Policies page. */
  lemma PolicySlugListed(slug: string)
    requires slug in PolicyContent
    ensures PoliciesPrefix + slug in PolicyIndexLinks
  {
    var k: nat;
    if slug == "academic-integrity" { k := 0; }
    else if slug == "assessment" { k := 1; }
    else if slug == "attendance" { k := 2; }
    else if slug == "privacy" { k := 3; }
    else if slug == "terms" { k := 4; }
    else if slug == "grievance" { k := 5; }
    else { k := 6; }
    PolicyIndexEntry(k);
    assert PolicyIndexLinks[k] == PathOf(PolicyDetail(slug));
  }

  /** The page each footer button's label names (index.tsx:380-391 and 404-407). */
  const FooterTargets: seq<Page> := [
    About, Governance, StaffDirectory,
    ProgramList, AcademicModel, Admissions, PolicyList,
    PolicyDetail("nondiscrimination"), PolicyDetail("privacy"), PolicyDetail("terms"), PolicyDetail("grievance")
  ]

  /** One footer button at a time, so that no proof unfolds the whole literal list. */
  lemma FooterEntry(k: nat)
    requires k < |FooterTargets|
    ensures k < |FooterLinks| && FooterLinks[k] == PathOf(FooterTargets[k]) && OneSegmentParameter(FooterTargets[k])
    ensures FooterTargets[k] != Home && !FooterTargets[k].ProgramDetail?
    ensures FooterTargets[k].PolicyDetail? ==> FooterTargets[k].slug in PolicyContent
  {
    if k < 7 { FooterColumnEntry(k); } else { FooterPolicyEntry(k); }
  }

  /** The footer's two columns of static routes. */
  lemma FooterColumnEntry(k: nat)
    requires k < 7
    ensures k < |FooterLinks| && FooterLinks[k] == PathOf(FooterTargets[k]) && IsStaticPage(FooterTargets[k])
  {
    if k == 0 { assert FooterLinks[0] == PathOf(FooterTargets[0]); }
    else if k == 1 { assert FooterLinks[1] == PathOf(FooterTargets[1]); }
    else if k == 2 { assert FooterLinks[2] == PathOf(FooterTargets[2]); }
    else if k == 3 { assert FooterLinks[3] == PathOf(FooterTargets[3]); }
    else if k == 4 { assert FooterLinks[4] == PathOf(FooterTargets[4]); }
    else if k == 5 { assert FooterLinks[5] == PathOf(FooterTargets[5]); }
    else { assert FooterLinks[6] == PathOf(FooterTargets[6]); }
  }

  /** The footer's row of policy links. */
  lemma FooterPolicyEntry(k: nat)
    requires 7 <= k < |FooterTargets|
    ensures k < |FooterLinks| && FooterLinks[k] == PathOf(FooterTargets[k])
    ensures FooterTargets[k].PolicyDetail? && '/' !in FooterTargets[k].slug && FooterTargets[k].slug in PolicyContent
  {
    if k == 7 { assert FooterLinks[7] == PathOf(FooterTargets[7]); }
    else if k == 8 { assert FooterLinks[8] == PathOf(FooterTargets[8]); }
    else if k == 9 { assert FooterLinks[9] == PathOf(FooterTargets[9]); }
    else { assert FooterLinks[10] == PathOf(FooterTargets[10]); }
  }

  /** Every footer button opens the page it names; none falls back to Home or a not-found message. */
  lemma FooterLinksLeadToContent()
    ensures |FooterLinks| == |FooterTargets|
    ensures forall k :: 0 <= k < |FooterLinks| ==> Resolve(FooterLinks[k]) == FooterTargets[k]
    ensures forall l :: l in FooterLinks ==> OpensContent(l)
  {
    forall k | 0 <= k < |FooterTargets|
      ensures FooterLinks[k] == PathOf(FooterTargets[k]) && OneSegmentParameter(FooterTargets[k])
      ensures FooterTargets[k] != Home && !IsNotFound(Render(FooterTargets[k]))
    {
      FooterEntry(k);
      NotFoundOnlyOnMiss(FooterTargets[k]);
    }
    ButtonsOpenTargets(FooterLinks, FooterTargets);
  }

  /** The page each header button names: the logo shows Home, "Apply Now" shows Admissions. */
  const HeaderTargets: seq<Page> := [Home] + NavPages + [Admissions]

  /** The page each Home-page button names. */
  const HomeTargets: seq<Page> := [ProgramList, Admissions, AcademicModel, StaffDirectory, Governance]

  /** One header button at a time, so that no proof unfolds the whole literal list. */
  lemma HeaderEntry(k: nat)
    requires k < |HeaderTargets|
    ensures k < |HeaderLinks| && HeaderLinks[k] == PathOf(HeaderTargets[k])
    ensures HeaderTargets[k] == Home <==> HeaderLinks[k] == "/"
    ensures !HeaderTargets[k].ProgramDetail? && !HeaderTargets[k].PolicyDetail?
  {
    if k == 0 {
      assert HeaderLinks[0] == "/" && HeaderTargets[0] == Home;
    } else if k <= |NavLinks| {
      NavEntry(k - 1);
      assert HeaderLinks[k] == NavLinks[k - 1] && HeaderTargets[k] == NavPages[k - 1];
    } else {
      assert HeaderLinks[k] == "/admissions" && HeaderTargets[k] == Admissions;
    }
  }

  /** One Home-page button at a time, so that no proof unfolds the whole literal list. */
  lemma HomeEntry(k: nat)
    requires k < |HomeTargets|
    ensures k < |HomeLinks| && HomeLinks[k] == PathOf(HomeTargets[k]) && HomeTargets[k] != Home
    ensures !HomeTargets[k].ProgramDetail? && !HomeTargets[k].PolicyDetail?
  {
    if k == 0 { assert HomeLinks[0] == PathOf(HomeTargets[0]); }
    else if k == 1 { assert HomeLinks[1] == PathOf(HomeTargets[1]); }
    else if k == 2 { assert HomeLinks[2] == PathOf(HomeTargets[2]); }
    else if k == 3 { assert HomeLinks[3] == PathOf(HomeTargets[3]); }
    else { assert HomeLinks[4] == PathOf(HomeTargets[4]); }
  }

  /**
   * Every header button opens the page it names; only the logo and the Home navigation
   * link (both `/`) show Home.
   */
  lemma HeaderLinksLeadToContent()
    ensures |HeaderLinks| == |HeaderTargets|
    ensures forall k :: 0 <= k < |HeaderLinks| ==> Resolve(HeaderLinks[k]) == HeaderTargets[k]
    ensures forall l :: l in HeaderLinks ==> (l == "/" || OpensContent(l))
  {
    forall k | 0 <= k < |HeaderTargets|
      ensures HeaderLinks[k] == PathOf(HeaderTargets[k]) && OneSegmentParameter(HeaderTargets[k])
      ensures HeaderTargets[k] == Home <==> HeaderLinks[k] == "/"
      ensures !IsNotFound(Render(HeaderTargets[k]))
    {
      HeaderEntry(k);
      NotFoundOnlyOnMiss(HeaderTargets[k]);
    }
    ButtonsOpenTargets(HeaderLinks, HeaderTargets);
  }

  /** Every Home-page button opens the page it names, none of which is Home or a not-found message. */
  lemma HomeLinksLeadToContent()
    ensures |HomeLinks| == |HomeTargets|
    ensures forall k :: 0 <= k < |HomeLinks| ==> Resolve(HomeLinks[k]) == HomeTargets[k]
    ensures forall l :: l in HomeLinks ==> OpensContent(l)
  {
    forall k | 0 <= k < |HomeTargets|
      ensures HomeLinks[k] == PathOf(HomeTargets[k]) && OneSegmentParameter(HomeTargets[k])
      ensures HomeTargets[k] != Home && !IsNotFound(Render(HomeTargets[k]))
    {
      HomeEntry(k);
      NotFoundOnlyOnMiss(HomeTargets[k]);
    }
    ButtonsOpenTargets(HomeLinks, HomeTargets);
  }

  /** On the page a link opens, the as-written policy page and the corrected one agree. */
  predicate AsWrittenAgrees(link: string)
  {
    Resolve(link).PolicyDetail? ==>
      RenderPolicyDetailAsWritten(PolicyContent, Resolve(link).slug) == Render(Resolve(link))
  }

  /** Links that open no not-found message (or open `/`) open pages on which both policy pages agree. */
  lemma LinksAgree(links: seq<string>)
    requires forall l :: l in links ==> l == "/" || !IsNotFound(Render(Resolve(l)))
    ensures forall l :: l in links ==> AsWrittenAgrees(l)
  {
    ResolvePathOf(Home);
    forall l | l in links ensures AsWrittenAgrees(l) {
      if l != "/" { NotFoundOnlyOnMiss(Resolve(l)); }
    }
  }

  /** `LinksAgree`, for links whose pages are known position by position. */
  lemma IndexedLinksAgree(links: seq<string>)
    requires forall k :: 0 <= k < |links| ==> !IsNotFound(Render(Resolve(links[k])))
    ensures forall l :: l in links ==> AsWrittenAgrees(l)
  {
    forall l | l in links ensures AsWrittenAgrees(l) {
      var k :| 0 <= k < |links| && links[k] == l;
      NotFoundOnlyOnMiss(Resolve(l));
    }
  }

  /**
   * The prototype defect is latent: the route starts at `/` and changes only through the
   * site's buttons, and every button opens either a page that is not a policy page or a
   * stored policy, where the as-written page and the corrected one agree.
   */
  lemma ButtonsNeverReachInheritedNames()
    ensures forall l :: l in HeaderLinks ==> AsWrittenAgrees(l)
    ensures forall l :: l in HomeLinks ==> AsWrittenAgrees(l)
    ensures forall l :: l in FooterLinks ==> AsWrittenAgrees(l)
    ensures forall l :: l in PolicyIndexLinks ==> AsWrittenAgrees(l)
    ensures forall l :: l in ProgramLinks(ProgramCatalog) ==> AsWrittenAgrees(l)
  {
    HeaderButtonsAgree();
    HomeButtonsAgree();
    FooterButtonsAgree();
    PolicyIndexButtonsAgree();
    ProgramButtonsAgree();
  }

  lemma HeaderButtonsAgree()
    ensures forall l :: l in HeaderLinks ==> AsWrittenAgrees(l)
  {
    HeaderLinksLeadToContent();
    LinksAgree(HeaderLinks);
  }

  lemma HomeButtonsAgree()
    ensures forall l :: l in HomeLinks ==> AsWrittenAgrees(l)
  {
    HomeLinksLeadToContent();
    LinksAgree(HomeLinks);
  }

  lemma FooterButtonsAgree()
    ensures forall l :: l in FooterLinks ==> AsWrittenAgrees(l)
  {
    FooterLinksLeadToContent();
    LinksAgree(FooterLinks);
  }

  lemma PolicyIndexButtonsAgree()
    ensures forall l :: l in PolicyIndexLinks ==> AsWrittenAgrees(l)
  {
    forall k | 0 <= k < |PolicyIndexLinks| ensures !IsNotFound(Render(Resolve(PolicyIndexLinks[k]))) {
      PolicyIndexEntry(k);
      var slug := PolicyIndexTargets[k].slug;
      assert PolicyIndexLinks[k] == PoliciesPrefix + slug;
      PolicyLinkShowsItsPolicy(slug);
    }
    IndexedLinksAgree(PolicyIndexLinks);
  }

  lemma ProgramButtonsAgree()
    ensures forall l :: l in ProgramLinks(ProgramCatalog) ==> AsWrittenAgrees(l)
  {
    CatalogLinksNeverMiss();
    LinksAgree(ProgramLinks(ProgramCatalog));
  }
}
