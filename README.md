# Maw'il academic site: routing and content model

This project models the single-page site of the Maw'il institution (`index.tsx`). The
site keeps one piece of navigation state, the current route string. `App.renderPage`
turns that route into the page to show:

- the two parameterised prefixes `/programs/` and `/policies/` are tested first, and
  their parameter is `route.split('/')[2]`;
- then the route is compared exactly with nine static routes;
- anything else shows the Home page.

The two detail pages look their parameter up in read-only tables:

- `PROGRAMS` is searched with `find`;
- `POLICY_CONTENT` is indexed by slug.

Both are meant to show a "not found" message on a miss. The program lookup does.
The policy lookup, as written, also lets names inherited from `Object.prototype`
through (see Findings). The views use the corrected own-key lookup, and the as-written
page is modelled beside it. The staff directory groups the `STAFF`
roster by department: the departments appear in the order they first occur, and each
group keeps roster order. Every button on the site calls `setRoute` with a literal
path, or with `/programs/${prog.id}`. The header's `NavLink` is highlighted when the
route equals its target.

Modules:

- `Paths`: JavaScript's `startsWith` and `split` with a one-character separator, and
  `Join` as the inverse of `Split`.
- `Content`: the program catalog, the staff roster, the policy table, and the two
  lookups. It also holds the as-written model of the policy lookup (see Findings).
- `Directory`: the department grouping of the staff page.
- `Router`: the `Page` kinds, `Resolve` (the route resolver) and `PathOf` (the path a
  link builds for a page).
- `Views`: what each page renders, reduced to its data, and the link lists of the
  Programs page, Policies page, footer, header and Home page.
- `Navigation`: the `App` class holding the mutable `route`, and the `NavLink`
  highlight test.

The code has no dedicated not-found page kind. An unknown route shows Home through the
`default` branch of the switch, and the model follows the code. A detail route's
parameter is the third `/`-piece of the route, not its last one:

- `/programs/a/b` shows program `a`;
- `/programs/` shows the detail page for the empty id, which then reports
  "Program not found".

## Model

| member | source | states |
|---|---|---|
| Paths.StartsWith | index.tsx:895-896 | `startsWith`: an exact, case-sensitive comparison of the first characters; its use in the resolver is characterised by `Router.ProgramPrefixWins` and `Router.PolicyPrefixWins` |
| Paths.Split | index.tsx:895 | `route.split('/')` yields one more piece than there are separators, and no piece contains the separator |
| Paths.JoinSplit | index.tsx:895 | splitting loses nothing: joining the pieces with the separator gives back the route |
| Paths.SplitJoin | index.tsx:895 | splitting undoes joining for non-empty lists of separator-free pieces |
| Paths.FirstPieceOf | index.tsx:895 | the first piece is the longest separator-free prefix, ending at the end of the string or at a separator |
| Content.FindProgram | index.tsx:623-624 | `PROGRAMS.find` finds nothing exactly when no program has the id; otherwise it returns the first program with that id |
| Content.FindListedProgram | index.tsx:623 | with unique ids, finding a listed program's id returns that same program |
| Content.CatalogIdsWellFormed | index.tsx:55-90 | the catalog's ids are distinct and contain no `/` |
| Content.LookupPolicy | index.tsx:749-751 | the corrected own-key lookup finds a policy exactly when the slug is a key of the table, and returns the stored policy |
| Content.ReadPolicyProperty | index.tsx:749 | `POLICY_CONTENT[type]` as written: own key first, then the `Object.prototype` names, otherwise `undefined`; characterised by `Content.PrototypeSlugsEscapeNotFound` and `Content.LookupAgreesOffPrototype` |
| Content.PassesNotFoundTestAsWritten | index.tsx:751 | the `!policy` test passes for everything but `undefined`; characterised by the same two lemmas |
| Content.PrototypeSlugsEscapeNotFound | index.tsx:749-751 | as written, an inherited name such as `constructor` passes the `!policy` test with no policy stored under it |
| Content.LookupAgreesOffPrototype | index.tsx:749-751 | off the inherited names, the corrected lookup and the as-written read agree on hit, miss and the policy found |
| Directory.Departments | index.tsx:774 | the departments are distinct, every staff member's department is listed, and every listed department belongs to some staff member |
| Directory.DepartmentsInFirstOccurrenceOrder | index.tsx:774 | the departments appear in the order of their first occurrence in the roster, as a `Set` built from the roster keeps them |
| Directory.Members | index.tsx:791 | a department's group holds only roster entries of that department, and every such entry |
| Directory.MembersKeepRosterOrder | index.tsx:791 | a department's group is the roster entries of that department, at increasing roster positions, with none skipped |
| Directory.StaffDirectory | index.tsx:774-791 | the Staff page's sections, one per department; characterised by `Directory.GroupAt`, `Directory.DirectoryIsPartition` and `Directory.ListedUnderOneDepartment` |
| Directory.GroupAt | index.tsx:784-791 | the g-th section is headed by the g-th department and lists that department's members |
| Directory.DirectoryIsPartition | index.tsx:774-791 | taken together, the directory's sections hold every staff member exactly as often as the roster does |
| Directory.ListedUnderOneDepartment | index.tsx:784-791 | each staff member appears under their own department's heading and under no other, and no heading repeats |
| Router.Resolve | index.tsx:893-910 | `renderPage`, total over all strings; characterised by `Router.ProgramPrefixWins`, `Router.PolicyPrefixWins`, `Router.StaticPageExact`, `Router.HomeIsTheFallback` and `Router.ResolvePathOf` |
| Router.ThirdSegment | index.tsx:895-896 | `route.split('/')[2]`, which exists under either prefix (`Router.PrefixedSplit`) and is the longest `/`-free stretch after the prefix (`Router.ProgramPrefixWins`, `Router.PolicyPrefixWins`) |
| Router.PathOf | index.tsx:611 | the path each link builds for a page, including `/programs/${prog.id}`; `Router.ResolvePathOf` proves `Resolve` inverts it |
| Router.PrefixedSplit | index.tsx:895-896 | under a `/word/` prefix such as `/programs/` or `/policies/` the route has a third piece, and it is the first piece of what follows the prefix |
| Router.DetailRoute | index.tsx:895-896 | prefix + separator-free parameter + (nothing or `/...`) resolves to the detail page for that parameter |
| Router.ProgramPrefixWins | index.tsx:895 | a route shows a program detail page exactly when it starts with `/programs/`; the id is the longest `/`-free stretch after the prefix |
| Router.PolicyPrefixWins | index.tsx:896 | a route shows a policy detail page exactly when it starts with `/policies/`; the slug is the longest `/`-free stretch after the prefix |
| Router.StaticRoutesUnprefixed | index.tsx:898-907 | no static route starts with either parameterised prefix, so the prefix tests never shadow one |
| Router.StaticPageExact | index.tsx:898-907 | each static page is shown for its own route and for no other string |
| Router.HomeIsTheFallback | index.tsx:893-910 | Home is shown exactly for `/` and for routes with neither prefix that are not static routes |
| Router.ResolvePathOf | index.tsx:893-910 | resolving the path built for any page gives back that page, when its parameter has no `/` |
| Router.EmptyProgramId | index.tsx:895 | `/programs/` shows the program detail page for the empty id |
| Router.LaterPiecesIgnored | index.tsx:895 | `/programs/a/b` shows the program detail page for id `a` |
| Router.TrailingSlashAfterSlug | index.tsx:896 | `/policies/privacy/` shows the `privacy` policy page |
| Router.TrailingSlashNotStripped | index.tsx:898-908 | a trailing slash is not stripped: `/about/` and `/staff/` fall back to Home |
| Router.CaseNotFolded | index.tsx:895-908 | routes are case-sensitive: `/About` and `/Programs/x` fall back to Home |
| Views.RenderProgramDetail | index.tsx:622-624 | the program page shows "Program not found" exactly when no program has the id, and otherwise shows a listed program with that id |
| Views.RenderPolicyDetailAsWritten | index.tsx:748-751 | the policy page as written: "Policy Not Found" exactly when the slug is neither a key nor an `Object.prototype` name, the inherited-member page exactly for such a name, and the corrected page for every key |
| Views.RenderPolicyDetail | index.tsx:748-751 | the corrected policy page shows "Policy Not Found" exactly when the slug is not a key, and otherwise the stored policy |
| Views.Render | index.tsx:893-910 | the component `renderPage` mounts, with the corrected policy lookup; characterised by `Views.NotFoundOnlyOnMiss` and the link lemmas below |
| Views.NotFoundOnlyOnMiss | index.tsx:893-910 | with the corrected policy lookup, no page fails to render: a not-found message appears exactly for an unknown program id or policy slug |
| Views.ProgramLinks | index.tsx:611 | the "Program Details" paths, one per program; characterised by `Views.ProgramLinkShowsItsProgram` |
| Views.ProgramLinkShowsItsProgram | index.tsx:611 | each "Program Details" button resolves to its program's detail page and shows that program |
| Views.CatalogLinksNeverMiss | index.tsx:611 | every program button on the Programs page opens an existing program |
| Views.PolicyLinkShowsItsPolicy | index.tsx:896 | `/policies/` + a stored slug resolves to that slug's page and shows the stored policy |
| Views.ButtonsOpenTargets | index.tsx:893-910 | buttons whose paths are the paths of pages open exactly those pages |
| Views.PolicyIndexMatchesTable | index.tsx:720-728 | each Policies-page entry opens the policy it names, that policy exists, and every stored policy has an entry |
| Views.FooterLinksLeadToContent | index.tsx:380-407 | each footer button opens the page it names, never the Home fallback and never a not-found message |
| Views.HeaderLinksLeadToContent | index.tsx:857-873 | each header button opens the page it names; only the two `/` buttons show Home |
| Views.HomeLinksLeadToContent | index.tsx:451-474 | each Home-page button opens the page it names, never Home and never a not-found message |
| Views.ButtonsNeverReachInheritedNames | index.tsx:749-751 | every button of the header, Home page, footer, Policies page and Programs page opens a page on which the as-written policy page and the corrected one agree, so no button reaches the inherited-name defect |
| Navigation.App.constructor | index.tsx:890 | the site starts at route `/`, which shows Home |
| Navigation.App.SetRoute | index.tsx:890 | `setRoute` replaces the route, the page shown is `Resolve` of the new route, re-navigating to the same route changes nothing, and the only highlighted target afterwards is the new route |
| Navigation.App.CurrentPage | index.tsx:893 | the page shown for the current route, `Resolve(route)`; tied to navigation by `Navigation.App.SetRoute` and the constructor |
| Navigation.NavLinkActive | index.tsx:353 | `current === to`; characterised by `Navigation.NavHighlightNamesCurrentPage` and `Navigation.HighlightIsExactRouteMatch` |
| Navigation.NavHighlightNamesCurrentPage | index.tsx:350-353 | a highlighted navigation link names the page being shown, and at most one link is highlighted |
| Navigation.HighlightIsExactRouteMatch | index.tsx:353 | on a detail page, or on a route that falls back to Home without being `/`, no navigation link is highlighted |

## Left out

- Markup, styling, icons and prose are not modelled. The views keep only the data that
  depends on the route and the tables.
- A program's `overview` and `outcomes` prose, and a policy's `content` markup, are not
  modelled. Programs keep id, title, level, duration, delivery and modules; policies
  keep their title.
- `window.scrollTo(0,0)` on navigation, and the `useEffect` that repeats it, are not
  modelled. They are browser side effects with no effect on the route or the page.
- React's rendering and re-rendering are not modelled: `SetRoute` stands for the state
  update and `CurrentPage` for the page the next render shows.
- `MawilLogo`'s image-error fallback, the `WebsiteStatus` widget, the contact form and
  the footer's use of the current date are not modelled. They are presentation or
  browser state outside the routing core.
- The chat assistant and its reply formatter are not part of this model.
- Views.Render: mounts the corrected own-key policy lookup (`Views.RenderPolicyDetail`).
  The as-written page for an inherited name is modelled only by
  `Views.RenderPolicyDetailAsWritten` and `Content.ReadPolicyProperty`.
- Views.NotFoundOnlyOnMiss: is proved of the corrected policy page. As written, an
  `Object.prototype` name such as `constructor` skips "Policy Not Found".
  `Views.RenderPolicyDetailAsWritten` states that case, and
  `Views.ButtonsNeverReachInheritedNames` shows that no button reaches it.
- The department order of the concrete `STAFF` roster is not computed as a literal
  list. It is stated for every roster by `Directory.DepartmentsInFirstOccurrenceOrder`.

## Findings

| source | as written | input that shows it | evidently intended | confidence | as-written member | corrected member |
|---|---|---|---|---|---|---|
| index.tsx:749-751 | `POLICY_CONTENT[type]` reads a property of a plain object literal, so names inherited from `Object.prototype` are truthy and skip the `!policy` not-found branch | route `/policies/constructor` (also `toString`, `__proto__`, ...); the defect is latent in `PolicyDetail`, since the route starts at `/`, is never read from the address bar, and no button builds such a route | a slug that is not a key of the policy table shows "Policy Not Found" | not executed | Content.PrototypeSlugsEscapeNotFound | Content.LookupAgreesOffPrototype |
