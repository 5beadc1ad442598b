# statusfly: organisation-scoped routes and page bookkeeping, in Dafny

statusfly is a status-page application. An organisation owns teams,
services (each with a status string) and incidents (open until they get a
`closedAt`). Users belong to at most one organisation. This project models
the following parts:

- the API route handlers that create and join organisations, create
  services and incidents, change a service's status, close an incident,
  and list services, incidents and the caller's organisation;
- the client-side helpers of the create-organisation, join-organisation
  and dashboard pages.

The database is a `Db.Store` object with one map per table (users,
organisations, teams, services, incidents) and a key counter `nextId`.
`Store.Valid` states the integrity the database keeps:

- keys are below the counter;
- every foreign key resolves;
- organisation slugs are unique, and team names are unique within an
  organisation;
- every organisation has a non-empty name and slug.

Every state-changing route is a module-level method that takes the
store as a parameter and modifies it. Its guards come in
the order the source checks them. It keeps `Valid`, and it keeps
`Evolves`: rows never disappear, never change organisation, a closed
incident never changes again, and keys are never reused. Its `ensures`
gives the exact new contents of every table. The read-only routes are
functions that read the store.

Organisation creation is one all-or-nothing transaction. The method
`Stage` runs the transaction's loops on a copy of the tables, and
`Transaction` then commits the copy or nothing. The resulting tables are
the function `Commit`, and the lemmas about `Commit` give the counts and
the contents.

The listing query (`Query.Select`) returns the rows of one organisation
in ascending key order. The incidents listing then sorts them newest first.

The pages are modelled as follows:

- the create-organisation form is a class with the form's four fields;
- the dashboard is a class with its three lists and two input fields;
- the join page only computes a request body, so it is a function.

The outcome of each request a page sends is a parameter. The dashboard
lemmas compare the page's local edits with what reloading the list from
the listing routes would give after the route's write:

- the services list agrees after a status change and after a creation
  (`StatusChangeInSync`, `CreateServiceInSync`);
- the open incident list agrees after a close (`CloseInSync`), and after a
  creation provided the new incident is strictly newer than every incident
  of the organisation (`CreateIncidentInSync`). Incidents created at the
  same instant are listed in key order, so the prepended one can then
  stand in a different place;
- the closed incident list does not agree: the page puts the closed
  incident in front, and whenever it is older than one closed before, the
  listing orders the two the other way (`CloseMayReorderPast`).

## Model

| member | source | states |
|---|---|---|
| Slug.Strip | app/create-organization/page.tsx:56 | dropping every character outside `a-z`, `0-9`, `-` leaves a slug no longer than its input |
| Slug.Slugify | app/create-organization/page.tsx:56 | the normaliser's output only ever holds `a-z`, `0-9` and `-` |
| Slug.SlugifyIdempotent | app/create-organization/page.tsx:56 | normalising a normalised slug again changes nothing |
| Slug.SlugifyOfSlug | app/join-organization/page.tsx:55 | a slug typed into either slug field comes out unchanged |
| Slug.SlugifySpaceRun | app/create-organization/page.tsx:56 | any maximal whitespace run, however long, becomes exactly one `-` |
| Slug.SlugifyChar | app/create-organization/page.tsx:56 | per character: whitespace gives `-`, an upper-case letter its lower-case form (lower-casing comes first), any other disallowed character is dropped, not replaced |
| Slug.SlugifyAppend | app/create-organization/page.tsx:56 | normalisation works piece by piece when the cut does not split a whitespace run |
| Slug.HyphenateFromAppend | app/create-organization/page.tsx:56 | the whitespace-run replacement on `u + v` is the replacement on `u`, then on `v` resumed in the run state `u` ended in |
| Slug.HyphenateNoSpace | app/create-organization/page.tsx:56 | no whitespace survives the run replacement |
| Slug.HyphenateOfNoSpace | app/create-organization/page.tsx:56 | a string without whitespace is left unchanged by the run replacement |
| Slug.StripOfSlug | app/create-organization/page.tsx:56 | stripping a slug changes nothing |
| Slug.LowerOfSlug | app/create-organization/page.tsx:56 | lower-casing a slug changes nothing |
| Slug.StripAppend | app/create-organization/page.tsx:56 | stripping works character by character |
| Slug.LowerAppend | app/create-organization/page.tsx:56 | lower-casing works character by character |
| CreateOrganizationRoute.CreateOrganization | app/api/create-organization/route.ts:5-120 | the guards in order: 401 without caller; 400 for a missing or empty name or slug; 400 for a missing or empty services list, then teams list; 400 for a taken slug; then 201 if the transaction can commit, else 500. Any non-201 answer leaves the store unchanged. On 201 it answers with the slug and the new organisation's key, and the tables become `Commit` of the old ones |
| CreateOrganizationRoute.Transaction | app/api/create-organization/route.ts:56-106 | commits iff the caller's user row exists and every team and service row can be inserted. Then the store is `Commit` of the old tables, else it is unchanged. It keeps `Valid` and `Evolves` |
| CreateOrganizationRoute.Stage | app/api/create-organization/route.ts:56-106 | staging on a copy succeeds exactly when no step would throw, and then yields `Commit` |
| CreateOrganizationRoute.StageTeams | app/api/create-organization/route.ts:77-86 | the per-team loop succeeds iff every team has a name and no two share one; the staged table is the old one plus `TeamRows` |
| CreateOrganizationRoute.StageServices | app/api/create-organization/route.ts:89-99 | the per-service loop succeeds iff every service has a name and a status; the staged table is the old one plus `ServiceRows` |
| CreateOrganizationRoute.CommitCounts | app/api/create-organization/route.ts:58-99 | a commit adds exactly one organisation, `|teams|` team rows and `|services|` service rows |
| CreateOrganizationRoute.CommitTeams | app/api/create-organization/route.ts:77-86 | the `k`-th requested team becomes a row of the new organisation; every other new team row also belongs to it; old rows stay |
| CreateOrganizationRoute.CommitServices | app/api/create-organization/route.ts:89-99 | the `k`-th requested service becomes a row of the new organisation with the requested status, whatever it is; old rows stay |
| CreateOrganizationRoute.CommitKeepsConsistent | app/api/create-organization/route.ts:56-99 | a commit with a fresh slug and non-empty name and slug keeps the store's integrity (keys, foreign keys, unique slug, unique team names) |
| CreateOrganizationRoute.CommitGrows | app/api/create-organization/route.ts:56-99 | a commit only adds rows and changes no existing team, service or incident |
| CreateOrganizationRoute.TeamRowsAt | app/api/create-organization/route.ts:77-86 | team rows are keyed consecutively in request order, one per requested team and no other |
| CreateOrganizationRoute.ServiceRowsAt | app/api/create-organization/route.ts:89-99 | service rows are keyed consecutively in request order, with the requested name and status |
| JoinOrganizationRoute.JoinOrganization | app/api/join-organization/route.ts:5-111 | the guards in order: 401; 400 for a missing name or slug; 400 for a missing team name; 400 when the caller already has an organisation (before any lookup); 404 when no organisation matches name AND slug; 404 when it has no team of exactly that name; 500 when the caller has no user row. On 200 only the caller's row changes, to that organisation and team with role `member`, and the answer echoes both |
| JoinOrganizationRoute.Admission | app/api/join-organization/route.ts:10-77 | the read-only guard chain with the same outcomes, and what an admitted caller is bound to |
| JoinOrganizationRoute.FindOrganization | app/api/join-organization/route.ts:50-60 | the first organisation (in key order) whose name and slug both match; none when no row matches |
| JoinOrganizationRoute.FindTeam | app/api/join-organization/route.ts:70 | the first team of that organisation whose name is equal, case included; none when no team matches |
| JoinOrganizationRoute.BindingKeepsValid | app/api/join-organization/route.ts:80-89 | binding the caller to an existing organisation and team keeps user rows resolvable |
| IncidentsCloseRoute.CloseIncident | app/api/incidents/close/route.ts:6-76 | the guards in order: 401; 400 without an id; 404 for a caller without an organisation (before the incident lookup); 404 for an unknown incident; 403 for another organisation's incident; 400 when it is already closed. Only a 200 writes, and it writes only that incident's `closedAt := now` |
| IncidentsCloseRoute.CloseTwice | app/api/incidents/close/route.ts:55-67 | after a successful close, closing the same incident again gives 400 and the first `closedAt` stays |
| ServicesStatusRoute.SetServiceStatus | app/api/services/status/route.ts:6-77 | the guards in order: 401; 400 without an id or status; 400 for a status outside the four values (before any lookup); 404 without an organisation; 404 for an unknown service; 403 for another organisation's service. On 200 only that service's status changes, to exactly the requested value, from whatever it was |
| IncidentsCreateRoute.CreateIncident | app/api/incidents/create/route.ts:6-52 | 401; 400 without a name; 404 without an organisation, and these create nothing. On 200 exactly one open incident with that name, time `now` and the caller's organisation is added, and it is answered back |
| ServicesCreateRoute.CreateService | app/api/services/create/route.ts:6-52 | 401; 400 without a name; 404 without an organisation. On 200 exactly one service is added to the caller's organisation, with status `Operational`, and nothing else changes |
| ServicesCreateRoute.InitialStatusIsValid | app/api/services/create/route.ts:40 | the fixed initial status is one of the four valid values |
| Query.Select | app/api/services/route.ts:28-30 | `findMany` returns only rows of the table that pass the filter, as stored, in strictly ascending key order |
| Query.SelectExact | app/api/incidents/route.ts:28-31 | a row is returned iff its key passes the filter and lies below the bound |
| Query.SelectAgree | app/api/services/route.ts:28-30 | tables that agree below the bound give the same listing |
| Query.SelectAppend | app/api/services/route.ts:28-30 | a row at a fresh key above all others is listed last |
| ServicesRoute.ListServices | app/api/services/route.ts:6-32 | 401 without caller; 404 without a user row or organisation; otherwise 200. Every listed row is a stored service of the caller's organisation, and none is listed twice. It only reads the store |
| ServicesRoute.ListServicesComplete | app/api/services/route.ts:28-30 | in a valid store every service of the caller's organisation is listed |
| IncidentsRoute.Insert | app/api/incidents/route.ts:28-31 | inserting into a newest-first list keeps it newest first and adds exactly that row |
| IncidentsRoute.SortByNewest | app/api/incidents/route.ts:28-31 | the ordering is newest first and a permutation of the fetched rows |
| IncidentsRoute.WithState | app/api/incidents/route.ts:34-35 | the open filter keeps exactly the rows without `closedAt`, the closed filter exactly those with it |
| IncidentsRoute.WithStateNewestFirst | app/api/incidents/route.ts:30-35 | filtering keeps the newest-first order |
| IncidentsRoute.WithStatePartition | app/api/incidents/route.ts:34-35 | every fetched row lands in exactly one of the two lists, as often as it was fetched |
| IncidentsRoute.ListIncidents | app/api/incidents/route.ts:6-40 | 401; 404; otherwise both lists are newest first, open rows have no `closedAt`, closed rows have one, and together they are a permutation of the organisation's rows. It only reads the store |
| IncidentsRoute.ListIncidentsExact | app/api/incidents/route.ts:28-35 | in a valid store an incident of the caller's organisation is in the open list iff it has no `closedAt`, in the closed list iff it has one; other organisations' incidents are in neither |
| IncidentsRoute.ConsNewestFirst | app/dashboard/page.tsx:196 | a row at least as new as every row of a newest-first list can go in front |
| CheckOrganizationRoute.OrNull | app/api/check-organization/route.ts:29-31 | `s \|\| null` is null exactly for the empty string and otherwise `s` |
| CheckOrganizationRoute.CheckOrganization | app/api/check-organization/route.ts:5-32 | 401 without caller; 404 without a user row; otherwise 200 with `hasOrganization` true iff the user row has an organisation, and all three fields null when it has none. It only reads the store |
| CheckOrganizationRoute.CheckOrganizationOfMember | app/api/check-organization/route.ts:27-32 | in a valid store a member gets `hasOrganization` and all three fields of their organisation, none null |
| CreateOrganizationPage.RemoveAt | app/create-organization/page.tsx:79-91 | filtering by index removes exactly that position (nothing, past the end) and keeps the rest in order |
| CreateOrganizationPage.NonBlank | app/create-organization/page.tsx:103-104 | the entries kept are exactly the non-blank ones, with their text as typed |
| CreateOrganizationPage.NonBlankAppend | app/create-organization/page.tsx:103-104 | the filter works entry by entry, so kept entries keep their order |
| CreateOrganizationPage.ServiceEntries | app/create-organization/page.tsx:123-126 | one service entry per name, each with status `Operational` |
| CreateOrganizationPage.TeamEntries | app/create-organization/page.tsx:127 | one team entry per name |
| CreateOrganizationPage.CreateOrganizationForm.constructor | app/create-organization/page.tsx:23-26 | empty name and slug and one empty entry in each list |
| CreateOrganizationPage.CreateOrganizationForm.HandleOrgNameChange | app/create-organization/page.tsx:52-57 | stores the name and regenerates the slug from it; the slug stays normalised |
| CreateOrganizationPage.CreateOrganizationForm.HandleOrgSlugChange | app/create-organization/page.tsx:203 | stores the normalised text of the slug field |
| CreateOrganizationPage.CreateOrganizationForm.HandleServiceChange | app/create-organization/page.tsx:59-63 | replaces only entry `index`; length and everything else are kept |
| CreateOrganizationPage.CreateOrganizationForm.HandleTeamChange | app/create-organization/page.tsx:65-69 | replaces only entry `index`; length and everything else are kept |
| CreateOrganizationPage.CreateOrganizationForm.AddService | app/create-organization/page.tsx:71-73 | appends one empty entry |
| CreateOrganizationPage.CreateOrganizationForm.AddTeam | app/create-organization/page.tsx:75-77 | appends one empty entry |
| CreateOrganizationPage.CreateOrganizationForm.RemoveService | app/create-organization/page.tsx:79-84 | removes entry `index` only while more than one is left, so the list is never empty |
| CreateOrganizationPage.CreateOrganizationForm.RemoveTeam | app/create-organization/page.tsx:86-91 | removes entry `index` only while more than one is left, so the list is never empty |
| CreateOrganizationPage.CreateOrganizationForm.Submission | app/create-organization/page.tsx:93-128 | submits iff name and slug are non-empty and both filtered lists are non-empty. The body carries name and slug unchanged and the non-blank entries in order, as typed, every service with status `Operational` |
| CreateOrganizationPage.SubmissionPassesGuards | app/create-organization/page.tsx:97-128 | a submitted body passes all the creation route's validation guards, and every service it carries has one of the four valid statuses |
| CreateOrganizationPage.RepeatedTeamNotWritable | app/create-organization/page.tsx:104 | repeated non-blank team names are submitted as they are; the route's transaction then cannot commit |
| JoinOrganizationPage.Submission | app/join-organization/page.tsx:58-80 | submits iff name and slug are non-empty and then the team name is non-empty; the three are sent unchanged, the name and team name as typed |
| JoinOrganizationPage.SubmissionPassesGuards | app/join-organization/page.tsx:62-80 | a submitted body passes the join route's input guards, and its slug is normalised |
| DashboardPage.WithStatus | app/dashboard/page.tsx:139-141 | same length and same ids; the entry with that id gets the new status, every other entry is identical |
| DashboardPage.Without | app/dashboard/page.tsx:223 | keeps exactly the incidents with another id |
| DashboardPage.WithoutKeepsOrder | app/dashboard/page.tsx:223 | removing by id keeps the open list newest first |
| DashboardPage.PastShown | app/dashboard/page.tsx:541 | shows a prefix of at most five closed incidents, all of them when there are fewer |
| DashboardPage.HiddenIffViewAll | app/dashboard/page.tsx:541-555 | some closed incident is hidden iff the View All control appears (more than five) |
| DashboardPage.Dashboard.HandleStatusChange | app/dashboard/page.tsx:130-151 | the services list is replaced by `WithStatus` only after the request succeeded; on failure nothing changes |
| DashboardPage.Dashboard.HandleCreateService | app/dashboard/page.tsx:154-180 | a blank name sends nothing; otherwise the name goes as typed, and a created service is appended and the input cleared |
| DashboardPage.Dashboard.HandleCreateIncident | app/dashboard/page.tsx:183-209 | a blank name sends nothing; otherwise the name goes as typed, and a created incident goes in front of the open list and the input is cleared |
| DashboardPage.Dashboard.HandleCloseIncident | app/dashboard/page.tsx:212-235 | after a successful close of an id in the open list, it leaves the open list and the answer goes in front of the closed list; otherwise both lists are unchanged |
| DashboardPage.StatusChangeInSync | app/dashboard/page.tsx:139-141 | the local status edit equals what the services listing answers after the status route's write |
| DashboardPage.CreateServiceInSync | app/dashboard/page.tsx:167 | appending the created service equals what the services listing answers after the creation |
| DashboardPage.CreateIncidentKeepsOrder | app/dashboard/page.tsx:196 | putting an incident created now in front keeps the open list newest first |
| DashboardPage.CloseKeepsDisjoint | app/dashboard/page.tsx:221-226 | moving the closed incident keeps the two lists free of shared ids |
| DashboardPage.CloseMayReorderPast | app/dashboard/page.tsx:225 | when the closed incident is older than one closed before, the page's closed list (the answer in front of the old list) differs from the closed list the incidents listing answers after the close route's write |
| DashboardPage.CreateIncidentInSync | app/dashboard/page.tsx:196 | prepending an incident strictly newer than every incident of the organisation equals the open list the incidents listing answers after the creation route's write |
| DashboardPage.CloseInSync | app/dashboard/page.tsx:223 | removing a closed incident by id equals the open list the incidents listing answers after the close route's write |
| DashboardPage.ClosingSelect | app/api/incidents/close/route.ts:64-67 | the close route's write seen through the listing query is the old listing with that one row closed |
| DashboardPage.ClosingSort | app/api/incidents/route.ts:28-31 | closing an incident keeps its creation time, so the newest-first order is the old order with that row closed |
| DashboardPage.ClosingOpen | app/api/incidents/route.ts:34 | when the incident was open, the open filter after its close is the old open filter without it |
| DashboardPage.Dashboard.constructor | app/dashboard/page.tsx:58-65 | three empty lists and two empty input fields |
| Db.Store.CallerOrg | app/api/incidents/close/route.ts:25-34 | the caller's organisation exists iff there is a caller, a user row for them, and an organisation on that row, and then it is the row's organisation |
| CreateOrganizationRoute.Commit | app/api/create-organization/route.ts:56-106 | after a commit the caller's row points at the new organisation with role `owner`, team unchanged, other users unchanged; the new organisation is at the next key with the given name and slug and is the only new one; incidents unchanged; the key counter moves past every new row |
| IncidentsRoute.Listed | app/api/incidents/route.ts:28-31 | the organisation's incidents, newest first, each fetched row once |

## Left out

- Authentication is a parameter. The caller's identity is an `Option<UserId>` standing in for `auth()`, and the session provider is not modelled.
- The database is modelled as plain maps, with these assumptions:
  - Keys are naturals from a counter. The real keys are generated non-empty strings, so a present key is always truthy; an absent or empty one is `None`.
  - The organisation row takes the next key, then its teams, then its services, in request order.
  - `findMany` without `orderBy` returns rows in ascending key order.
  - Incidents created at the same instant keep ascending key order after sorting; the database leaves that order open.
  - The schema defaults are taken as given: `createdAt` is the route's `now`, and `closedAt` starts null.
  - The creation transaction fails (500) on a team or service without `name`, and on a service without `status`. This assumes these columns are required and have no default, so that `create` throws; with a default the route would answer 201.
  - `Organization.name` is not unique; only the slug is.
- The unique constraints of the database schema are part of `Valid`: the organisation slug, and the pair of team name and organisation. The schema file is not part of this model.
- Concurrency is not modelled. `Promise.all` inside the creation transaction is a sequential loop. Races between concurrent requests are out of scope.
- Request and response plumbing is not modelled: `req.json()` failures, body shapes beyond the fields used, JSON values of the wrong type (a string where an array is expected, say), and the database or network errors that end in a 500 (the `catch` blocks). The model keeps only the 500 paths the code itself reaches: a failed creation transaction and the update of a missing user row on join (`JoinOrganization`).
- `userId` in the create and join request bodies is not modelled. The routes ignore it and use the session's identity.
- React rendering is not modelled: JSX, toasts, dialogs, loading flags, router redirects, and the `useEffect` loading sequences (the check-organization redirect, the dashboard's initial fetch). The outcome of each request a page sends is a parameter.
- Time is the `now` parameter. Date formatting with `toLocaleString` is not modelled.
- Unicode is not modelled. `toLowerCase` affects only ASCII letters, and whitespace is ASCII whitespace (space, tab, line feed, vertical tab, form feed, carriage return), in both `\s` and `trim`.
- The organisation-wide status reduction is not modelled. The shown code has none (the landing page fixes the text "Operational"), so there is nothing to model.
- The UI-only pages and the pass-through routes are not part of this model: the landing, status and onboarding pages, user details, and the public listings.
- CreateOrganizationPage.CreateOrganizationForm.HandleServiceChange: requires the index to be within the list, because the page only calls it with the index of a rendered entry. The JavaScript behaviour for an index past the end (a sparse array) is not modelled. HandleTeamChange is the same.
