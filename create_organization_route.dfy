/** POST /api/create-organization: creates an organisation with its first
    teams and services and makes the caller its owner, in one transaction. */
module CreateOrganizationRoute {
  import opened Common
  import opened Db

  /** One element of the body's `services` array. */
  datatype ServiceInput = ServiceInput(name: Option<string>, status: Option<string>)
  /** One element of the body's `teams` array. */
  datatype TeamInput = TeamInput(name: Option<string>)
  /** The JSON body the create-organisation page sends. */
  datatype CreateOrgBody = CreateOrgBody(name: Option<string>, slug: Option<string>,
                                         services: Option<seq<ServiceInput>>, teams: Option<seq<TeamInput>>)

  /** What a successful creation answers with. */
  datatype CreatedOrg = CreatedOrg(slug: string, id: Id)

  /** `!xs || !xs.length` is false: the array is present and not empty. */
  predicate NonEmptyList<T>(xs: Option<seq<T>>)
  {
    xs.Some? && |xs.value| > 0
  }

  /** The body passes the route's validation guards. */
  predicate WellFormed(b: CreateOrgBody)
  {
    Present(b.name) && Present(b.slug) && NonEmptyList(b.services) && NonEmptyList(b.teams)
  }

  /** `findUnique({ where: { slug } })` finds a row. */
  predicate SlugTaken(orgs: map<Id, Organization>, slug: string)
  {
    exists o :: o in orgs && orgs[o].slug == slug
  }

  /** Every team row can be inserted: the required name is present, and no
      two rows of the new organisation share a name (the unique constraint
      on team name and organisation). */
  predicate TeamsWritable(ts: seq<TeamInput>)
  {
    && (forall k :: 0 <= k < |ts| ==> ts[k].name.Some?)
    && (forall j, k :: 0 <= j < k < |ts| ==> ts[j].name != ts[k].name)
  }

  /** Every service row can be inserted: its required name and status are present. */
  predicate ServicesWritable(ss: seq<ServiceInput>)
  {
    forall k :: 0 <= k < |ss| ==> ss[k].name.Some? && ss[k].status.Some?
  }

  /** No step of the transaction throws: the caller's user row exists (for
      the update) and every team and service row can be inserted. */
  predicate Committable(users: map<UserId, User>, uid: UserId, b: CreateOrgBody)
    requires WellFormed(b)
  {
    uid in users && TeamsWritable(b.teams.value) && ServicesWritable(b.services.value)
  }

  /** The team rows the transaction inserts for organisation `org`, keyed
      `first`, `first + 1`, ... in the order of the request. */
  function TeamRows(org: Id, first: Id, ts: seq<TeamInput>): map<Id, Team>
    requires forall k :: 0 <= k < |ts| ==> ts[k].name.Some?
    decreases |ts|
  {
    if ts == [] then map[]
    else TeamRows(org, first, ts[..|ts| - 1])[first + |ts| - 1 := Team(ts[|ts| - 1].name.value, org)]
  }

  /** The service rows the transaction inserts, each with the status the
      request supplied, keyed from `first` in the order of the request. */
  function ServiceRows(org: Id, first: Id, ss: seq<ServiceInput>): map<Id, Service>
    requires ServicesWritable(ss)
    decreases |ss|
  {
    if ss == [] then map[]
    else ServiceRows(org, first, ss[..|ss| - 1])[first + |ss| - 1 := Service(ss[|ss| - 1].name.value, ss[|ss| - 1].status.value, org)]
  }

  /** The `k`-th requested team becomes the row at key `first + k`, and
      there are no other rows. */
  lemma {:induction false} TeamRowsAt(org: Id, first: Id, ts: seq<TeamInput>)
    requires forall k :: 0 <= k < |ts| ==> ts[k].name.Some?
    ensures forall t: Id :: t in TeamRows(org, first, ts) <==> first <= t < first + |ts|
    ensures forall t: Id :: first <= t < first + |ts| ==> TeamRows(org, first, ts)[t] == Team(ts[t - first].name.value, org)
    decreases |ts|
  {
    if ts != [] {
      var init := ts[..|ts| - 1];
      TeamRowsAt(org, first, init);
    }
  }

  /** The `k`-th requested service becomes the row at key `first + k`, and
      there are no other rows. */
  lemma {:induction false} ServiceRowsAt(org: Id, first: Id, ss: seq<ServiceInput>)
    requires ServicesWritable(ss)
    ensures forall s: Id :: s in ServiceRows(org, first, ss) <==> first <= s < first + |ss|
    ensures forall s: Id :: first <= s < first + |ss| ==>
              ServiceRows(org, first, ss)[s] == Service(ss[s - first].name.value, ss[s - first].status.value, org)
    decreases |ss|
  {
    if ss != [] {
      var init := ss[..|ss| - 1];
      ServiceRowsAt(org, first, init);
    }
  }

  /** Exactly one team row per requested team. */
  lemma {:induction false} TeamRowsCount(org: Id, first: Id, ts: seq<TeamInput>)
    requires forall k :: 0 <= k < |ts| ==> ts[k].name.Some?
    ensures |TeamRows(org, first, ts)| == |ts|
    decreases |ts|
  {
    if ts != [] {
      var init := ts[..|ts| - 1];
      TeamRowsCount(org, first, init);
      TeamRowsAt(org, first, init);
    }
  }

  /** Exactly one service row per requested service. */
  lemma {:induction false} ServiceRowsCount(org: Id, first: Id, ss: seq<ServiceInput>)
    requires ServicesWritable(ss)
    ensures |ServiceRows(org, first, ss)| == |ss|
    decreases |ss|
  {
    if ss != [] {
      var init := ss[..|ss| - 1];
      ServiceRowsCount(org, first, init);
      ServiceRowsAt(org, first, init);
    }
  }

  /** The caller's row after the transaction: organisation `org`, role
      `owner`, team left as it was. */
  function AsOwner(u: User, org: Id): User
  {
    u.(organizationId := Some(org), role := Some(Owner))
  }

  /** The tables after a committed transaction: the organisation row at
      the next free key `n`, the caller promoted to its owner, its team rows
      keyed from `n + 1` and its service rows after them; incidents as they
      were. */
  function Commit(t: Tables, uid: UserId, name: string, slug: string, ts: seq<TeamInput>, ss: seq<ServiceInput>): (r: Tables)
    requires uid in t.users && TeamsWritable(ts) && ServicesWritable(ss)
    ensures r.users.Keys == t.users.Keys
    ensures r.users[uid].organizationId == Some(t.nextId) && r.users[uid].role == Some(Owner)
    ensures r.users[uid].teamId == t.users[uid].teamId
    ensures forall u :: u in t.users && u != uid ==> r.users[u] == t.users[u]
    ensures t.nextId in r.orgs && r.orgs[t.nextId] == Organization(name, slug)
    ensures forall o :: o in r.orgs <==> o in t.orgs || o == t.nextId
    ensures r.incidents == t.incidents
    ensures r.nextId == t.nextId + 1 + |ts| + |ss|
  {
    Tables(t.users[uid := AsOwner(t.users[uid], t.nextId)], t.orgs[t.nextId := Organization(name, slug)],
           t.teams + TeamRows(t.nextId, t.nextId + 1, ts), t.services + ServiceRows(t.nextId, t.nextId + 1 + |ts|, ss),
           t.incidents, t.nextId + 1 + |ts| + |ss|)
  }

  ghost predicate TablesConsistent(t: Tables)
  {
    Consistent(t.users, t.orgs, t.teams, t.services, t.incidents, t.nextId)
  }

  /** Committing the transaction's writes keeps the tables consistent. */
  lemma CommitKeepsConsistent(t: Tables, uid: UserId, name: string, slug: string, ts: seq<TeamInput>, ss: seq<ServiceInput>)
    requires TablesConsistent(t) && name != "" && slug != ""
    requires uid in t.users && !SlugTaken(t.orgs, slug) && TeamsWritable(ts) && ServicesWritable(ss)
    ensures TablesConsistent(Commit(t, uid, name, slug, ts, ss))
  {
    WritesKeepConsistent(t.users, t.orgs, t.teams, t.services, t.incidents, t.nextId, uid, name, slug, ts, ss);
  }

  lemma {:induction false} WritesKeepConsistent(users: map<UserId, User>, orgs: map<Id, Organization>, teams: map<Id, Team>,
                             services: map<Id, Service>, incidents: map<Id, Incident>, n: Id,
                             uid: UserId, name: string, slug: string, ts: seq<TeamInput>, ss: seq<ServiceInput>)
    requires Consistent(users, orgs, teams, services, incidents, n) && name != "" && slug != ""
    requires uid in users && !SlugTaken(orgs, slug) && TeamsWritable(ts) && ServicesWritable(ss)
    ensures Consistent(users[uid := AsOwner(users[uid], n)], orgs[n := Organization(name, slug)],
                       teams + TeamRows(n, n + 1, ts), services + ServiceRows(n, n + 1 + |ts|, ss),
                       incidents, n + 1 + |ts| + |ss|)
  {
    TeamRowsShape(n, n + 1, ts);
    ServiceRowsShape(n, n + 1 + |ts|, ss);
    NewRowsResolve(users, orgs, teams, services, incidents, n, uid, name, slug, ts, ss);
    NewTeamNamesUnique(teams, orgs.Keys, n, ts);
  }

  /** A committed transaction only adds rows and changes no existing team,
      service or incident. */
  lemma CommitGrows(t: Tables, uid: UserId, name: string, slug: string, ts: seq<TeamInput>, ss: seq<ServiceInput>)
    requires KeysBelow(t.teams.Keys, t.nextId) && KeysBelow(t.services.Keys, t.nextId)
    requires uid in t.users && TeamsWritable(ts) && ServicesWritable(ss)
    ensures Grows(t, Commit(t, uid, name, slug, ts, ss))
  {
    var n := t.nextId;
    var c := Commit(t, uid, name, slug, ts, ss);
    TeamRowsShape(n, n + 1, ts);
    ServiceRowsShape(n, n + 1 + |ts|, ss);
    MergeKeepsOld(t.teams, TeamRows(n, n + 1, ts), n);
    MergeKeepsOld(t.services, ServiceRows(n, n + 1 + |ts|, ss), n);
    assert c.teams == t.teams + TeamRows(n, n + 1, ts);
    assert c.services == t.services + ServiceRows(n, n + 1 + |ts|, ss);
  }

  /** Team rows are keyed from `first` to `first + |ts| - 1` and belong to `org`. */
  lemma {:induction false} TeamRowsShape(org: Id, first: Id, ts: seq<TeamInput>)
    requires forall k :: 0 <= k < |ts| ==> ts[k].name.Some?
    ensures forall t :: t in TeamRows(org, first, ts) ==>
              first <= t < first + |ts| && TeamRows(org, first, ts)[t].organizationId == org
    decreases |ts|
  {
    if ts != [] {
      TeamRowsShape(org, first, ts[..|ts| - 1]);
    }
  }

  /** Service rows are keyed from `first` to `first + |ss| - 1` and belong to `org`. */
  lemma {:induction false} ServiceRowsShape(org: Id, first: Id, ss: seq<ServiceInput>)
    requires ServicesWritable(ss)
    ensures forall s :: s in ServiceRows(org, first, ss) ==>
              first <= s < first + |ss| && ServiceRows(org, first, ss)[s].organizationId == org
    decreases |ss|
  {
    if ss != [] {
      ServiceRowsShape(org, first, ss[..|ss| - 1]);
    }
  }

  /** A commit adds exactly one organisation, one team row per requested
      team and one service row per requested service (the tables `Commit`
      builds, written out). */
  lemma CommitCounts(orgs: map<Id, Organization>, teams: map<Id, Team>, services: map<Id, Service>, n: Id,
                     org: Organization, ts: seq<TeamInput>, ss: seq<ServiceInput>)
    requires KeysBelow(orgs.Keys, n) && KeysBelow(teams.Keys, n) && KeysBelow(services.Keys, n)
    requires TeamsWritable(ts) && ServicesWritable(ss)
    ensures |orgs[n := org]| == |orgs| + 1
    ensures |teams + TeamRows(n, n + 1, ts)| == |teams| + |ts|
    ensures |services + ServiceRows(n, n + 1 + |ts|, ss)| == |services| + |ss|
  {
    assert n !in orgs;
    TeamsAfterSize(teams, n, ts);
    ServicesAfterSize(services, n, n + 1 + |ts|, ss);
  }

  /** The team rows a commit adds: the `k`-th requested team as a row of
      the new organisation `n`, and no other new row; existing rows stay. */
  lemma CommitTeams(teams: map<Id, Team>, n: Id, ts: seq<TeamInput>)
    requires KeysBelow(teams.Keys, n) && forall k :: 0 <= k < |ts| ==> ts[k].name.Some?
    ensures var all := teams + TeamRows(n, n + 1, ts);
            && (forall k :: 0 <= k < |ts| ==> n + 1 + k in all && all[n + 1 + k] == Team(ts[k].name.value, n))
            && (forall i :: i in all ==> if i in teams then all[i] == teams[i] else all[i].organizationId == n)
  {
    TeamRowsAt(n, n + 1, ts);
    MergeTeamRows(teams, TeamRows(n, n + 1, ts), n, ts);
  }

  /** `CommitTeams` for any table of new rows keyed as `TeamRowsAt` states. */
  lemma MergeTeamRows(teams: map<Id, Team>, rows: map<Id, Team>, n: Id, ts: seq<TeamInput>)
    requires KeysBelow(teams.Keys, n) && forall k :: 0 <= k < |ts| ==> ts[k].name.Some?
    requires forall t: Id :: t in rows <==> n + 1 <= t < n + 1 + |ts|
    requires forall t: Id :: n + 1 <= t < n + 1 + |ts| ==> rows[t] == Team(ts[t - (n + 1)].name.value, n)
    ensures var all := teams + rows;
            && (forall k :: 0 <= k < |ts| ==> n + 1 + k in all && all[n + 1 + k] == Team(ts[k].name.value, n))
            && (forall i :: i in all ==> if i in teams then all[i] == teams[i] else all[i].organizationId == n)
  {
    var all := teams + rows;
    forall k | 0 <= k < |ts|
      ensures n + 1 + k in all && all[n + 1 + k] == Team(ts[k].name.value, n)
    {
      var key: Id := n + 1 + k;
      assert key in rows && key - (n + 1) == k;
    }
  }

  /** The service rows a commit adds: the `k`-th requested service, with
      its requested status, as a row of the new organisation `n`, and no
      other new row; existing rows stay. */
  lemma CommitServices(services: map<Id, Service>, n: Id, first: Id, ss: seq<ServiceInput>)
    requires KeysBelow(services.Keys, n) && n < first && ServicesWritable(ss)
    ensures var all := services + ServiceRows(n, first, ss);
            && (forall k :: 0 <= k < |ss| ==>
                  first + k in all && all[first + k] == Service(ss[k].name.value, ss[k].status.value, n))
            && (forall i :: i in all ==> if i in services then all[i] == services[i] else all[i].organizationId == n)
  {
    ServiceRowsAt(n, first, ss);
  }

  lemma TeamsAfterSize(teams: map<Id, Team>, n: Id, ts: seq<TeamInput>)
    requires KeysBelow(teams.Keys, n) && forall k :: 0 <= k < |ts| ==> ts[k].name.Some?
    ensures |teams + TeamRows(n, n + 1, ts)| == |teams| + |ts|
  {
    TeamRowsAt(n, n + 1, ts);
    TeamRowsCount(n, n + 1, ts);
    DisjointMergeSize(teams, TeamRows(n, n + 1, ts), n);
  }

  lemma ServicesAfterSize(services: map<Id, Service>, n: Id, first: Id, ss: seq<ServiceInput>)
    requires KeysBelow(services.Keys, n) && n <= first && ServicesWritable(ss)
    ensures |services + ServiceRows(n, first, ss)| == |services| + |ss|
  {
    ServiceRowsAt(n, first, ss);
    ServiceRowsCount(n, first, ss);
    DisjointMergeSize(services, ServiceRows(n, first, ss), n);
  }

  lemma DisjointMergeSize<V>(a: map<Id, V>, b: map<Id, V>, n: Id)
    requires KeysBelow(a.Keys, n) && forall k :: k in b ==> n <= k
    ensures |a + b| == |a| + |b|
  {
    assert (a + b).Keys == a.Keys + b.Keys;
    assert a.Keys * b.Keys == {};
  }

  /** After the commit every reference still resolves. */
  lemma NewRowsResolve(users: map<UserId, User>, orgs: map<Id, Organization>, teams: map<Id, Team>,
                       services: map<Id, Service>, incidents: map<Id, Incident>, n: Id,
                       uid: UserId, name: string, slug: string, ts: seq<TeamInput>, ss: seq<ServiceInput>)
    requires UsersResolve(users, orgs.Keys, teams.Keys) && TeamsResolve(teams, orgs.Keys)
    requires ServicesResolve(services, orgs.Keys) && IncidentsResolve(incidents, orgs.Keys) && SlugsUnique(orgs)
    requires uid in users && !SlugTaken(orgs, slug) && TeamsWritable(ts) && ServicesWritable(ss)
    ensures var orgs' := orgs[n := Organization(name, slug)];
            && UsersResolve(users[uid := AsOwner(users[uid], n)], orgs'.Keys, (teams + TeamRows(n, n + 1, ts)).Keys)
            && TeamsResolve(teams + TeamRows(n, n + 1, ts), orgs'.Keys)
            && ServicesResolve(services + ServiceRows(n, n + 1 + |ts|, ss), orgs'.Keys)
            && IncidentsResolve(incidents, orgs'.Keys)
            && SlugsUnique(orgs')
  {
    TeamRowsShape(n, n + 1, ts);
    ServiceRowsShape(n, n + 1 + |ts|, ss);
  }

  /** The new organisation's teams clash neither with each other (their
      names are distinct) nor with existing teams (those belong to other
      organisations). */
  lemma NewTeamNamesUnique(teams: map<Id, Team>, orgKeys: set<Id>, n: Id, ts: seq<TeamInput>)
    requires TeamNamesUnique(teams) && TeamsResolve(teams, orgKeys) && KeysBelow(teams.Keys, n) && n !in orgKeys
    requires TeamsWritable(ts)
    ensures TeamNamesUnique(teams + TeamRows(n, n + 1, ts))
  {
    var newTeams := TeamRows(n, n + 1, ts);
    TeamRowsAt(n, n + 1, ts);
    var all := teams + newTeams;
    forall t, t' | t in all && t' in all && all[t] == all[t']
      ensures t == t'
    {
      if t in newTeams && t' in newTeams {
        assert ts[t - n - 1].name == ts[t' - n - 1].name;
      } else if t in newTeams || t' in newTeams {
        assert false;
      }
    }
  }

  lemma GrowsReflexive(t: Tables)
    ensures Grows(t, t)
  {
  }

  /** Rows merged in at keys from `n` on leave every row below `n` as it was. */
  lemma MergeKeepsOld<V>(a: map<Id, V>, b: map<Id, V>, n: Id)
    requires KeysBelow(a.Keys, n) && forall k :: k in b ==> n <= k
    ensures forall k :: k in a ==> k in a + b && (a + b)[k] == a[k]
  {
  }

  /** Staging the next team extends the staged table by its row. */
  lemma TeamRowsStep(teams: map<Id, Team>, org: Id, ts: seq<TeamInput>, i: nat)
    requires i < |ts| && forall k :: 0 <= k <= i ==> ts[k].name.Some?
    ensures (teams + TeamRows(org, org + 1, ts[..i]))[org + 1 + i := Team(ts[i].name.value, org)]
            == teams + TeamRows(org, org + 1, ts[..i + 1])
  {
    assert ts[..i + 1][..i] == ts[..i];
  }

  /** Staging the next service extends the staged table by its row. */
  lemma ServiceRowsStep(services: map<Id, Service>, org: Id, first: Id, ss: seq<ServiceInput>, i: nat)
    requires i < |ss| && ServicesWritable(ss[..i + 1])
    ensures ServicesWritable(ss[..i])
    ensures (services + ServiceRows(org, first, ss[..i]))[first + i := Service(ss[i].name.value, ss[i].status.value, org)]
            == services + ServiceRows(org, first, ss[..i + 1])
  {
    assert ss[..i + 1][..i] == ss[..i];
    assert ss[..i + 1][i] == ss[i];
  }

  /** `teams.map(team => tx.team.create(...))` inside the transaction,
      in request order: stages one row per requested team for organisation
      `org`, keyed from `org + 1`. Fails as soon as a row would be rejected
      (a missing name, or a name already used in this organisation). */
  method StageTeams(teams: map<Id, Team>, org: Id, ts: seq<TeamInput>) returns (ok: bool, staged: map<Id, Team>)
    ensures ok <==> TeamsWritable(ts)
    ensures ok ==> staged == teams + TeamRows(org, org + 1, ts)
  {
    staged := teams;
    var names: seq<string> := [];
    var i := 0;
    while i < |ts|
      invariant 0 <= i <= |ts|
      invariant forall k :: 0 <= k < i ==> ts[k].name.Some?
      invariant forall j, k :: 0 <= j < k < i ==> ts[j].name != ts[k].name
      invariant |names| == i && forall k :: 0 <= k < i ==> names[k] == ts[k].name.value
      invariant staged == teams + TeamRows(org, org + 1, ts[..i])
    {
      var t := ts[i];
      if t.name.None? || t.name.value in names {
        return false, staged;
      }
      TeamRowsStep(teams, org, ts, i);
      staged := staged[org + 1 + i := Team(t.name.value, org)];
      names := names + [t.name.value];
      i := i + 1;
    }
    assert ts[..|ts|] == ts;
    ok := true;
  }

  /** `services.map(service => tx.service.create(...))` inside the
      transaction, in request order: stages one row per requested service,
      with the requested status, keyed from `first`. Fails as soon as a row
      lacks its name or status. */
  method StageServices(services: map<Id, Service>, org: Id, first: Id, ss: seq<ServiceInput>)
    returns (ok: bool, staged: map<Id, Service>)
    ensures ok <==> ServicesWritable(ss)
    ensures ok ==> staged == services + ServiceRows(org, first, ss)
  {
    staged := services;
    var i := 0;
    while i < |ss|
      invariant 0 <= i <= |ss|
      invariant ServicesWritable(ss[..i])
      invariant staged == services + ServiceRows(org, first, ss[..i])
    {
      var s := ss[i];
      if s.name.None? || s.status.None? {
        return false, staged;
      }
      ServiceRowsStep(services, org, first, ss, i);
      staged := staged[first + i := Service(s.name.value, s.status.value, org)];
      i := i + 1;
    }
    assert ss[..|ss|] == ss;
    ok := true;
  }

  /** The create-organisation route. Guards, in order: authentication
      (401); present name and slug (400); a non-empty services array (400);
      a non-empty teams array (400); the slug not already held by any
      organisation (400, "already taken"). Then one transaction stages the
      organisation row, the caller's promotion to owner, one team row per
      requested team and one service row per requested service (keeping the
      requested status), and commits them together; if any step would
      throw, nothing is written and the answer is 500. */
  method CreateOrganization(st: Store, caller: Option<UserId>, body: CreateOrgBody)
    returns (code: Code, created: Option<CreatedOrg>)
    requires st.Valid()
    modifies st
    ensures st.Valid() && Evolves(st)
    ensures code == Unauthorized <==> caller.None?
    ensures caller.Some? && !(Present(body.name) && Present(body.slug)) ==> code == BadRequest
    ensures caller.Some? && Present(body.name) && Present(body.slug) && !NonEmptyList(body.services) ==> code == BadRequest
    ensures caller.Some? && Present(body.name) && Present(body.slug) && NonEmptyList(body.services) && !NonEmptyList(body.teams) ==>
              code == BadRequest
    ensures caller.Some? && WellFormed(body) ==>
              code == if SlugTaken(old(st.orgs), body.slug.value) then BadRequest
                      else if Committable(old(st.users), caller.value, body) then Created
                      else InternalError
    ensures code != Created ==> unchanged(st) && created.None?
    ensures code == Created ==>
              && caller.Some? && WellFormed(body) && Committable(old(st.users), caller.value, body)
              && created == Some(CreatedOrg(body.slug.value, old(st.nextId)))
              && st.Snapshot() == Commit(old(st.Snapshot()), caller.value, body.name.value, body.slug.value,
                                         body.teams.value, body.services.value)
  {
    created := None;
    if caller.None? {
      return Unauthorized, created;
    }
    if !Present(body.name) || !Present(body.slug) {
      return BadRequest, created;
    }
    if !NonEmptyList(body.services) {
      return BadRequest, created;
    }
    if !NonEmptyList(body.teams) {
      return BadRequest, created;
    }
    var uid, name, slug := caller.value, body.name.value, body.slug.value;
    var ts, ss := body.teams.value, body.services.value;
    if SlugTaken(st.orgs, slug) {
      return BadRequest, created;
    }

    var id := st.nextId;
    var committed := Transaction(st, uid, name, slug, ts, ss);
    code := if committed then Created else InternalError;
    created := if committed then Some(CreatedOrg(slug, id)) else None;
  }

  /** The writes of `db.$transaction(...)`, staged on a copy of the tables:
      the organisation row, the caller's promotion to owner, the team rows
      and the service rows. Fails if a step would throw: the update of a
      missing user row, or the insertion of a team or service row the schema
      rejects. */
  method Stage(t: Tables, uid: UserId, name: string, slug: string, ts: seq<TeamInput>, ss: seq<ServiceInput>)
    returns (ok: bool, staged: Tables)
    ensures ok <==> uid in t.users && TeamsWritable(ts) && ServicesWritable(ss)
    ensures ok ==> staged == Commit(t, uid, name, slug, ts, ss)
  {
    staged := t;
    var n := t.nextId;
    if uid !in t.users {
      return false, staged;
    }
    var teamsOk, teams := StageTeams(t.teams, n, ts);
    if !teamsOk {
      return false, staged;
    }
    var servicesOk, services := StageServices(t.services, n, n + 1 + |ts|, ss);
    if !servicesOk {
      return false, staged;
    }
    staged := Tables(t.users[uid := AsOwner(t.users[uid], n)], t.orgs[n := Organization(name, slug)],
                     teams, services, t.incidents, n + 1 + |ts| + |ss|);
    ok := true;
  }

  /** `db.$transaction(...)`: stages every write and commits them together
      only if no step throws; otherwise the store is left as it was. */
  method Transaction(st: Store, uid: UserId, name: string, slug: string, ts: seq<TeamInput>, ss: seq<ServiceInput>)
    returns (committed: bool)
    requires st.Valid() && name != "" && slug != "" && !SlugTaken(st.orgs, slug)
    modifies st
    ensures st.Valid() && Evolves(st)
    ensures committed <==> uid in old(st.users) && TeamsWritable(ts) && ServicesWritable(ss)
    ensures !committed ==> unchanged(st)
    ensures committed ==> st.Snapshot() == Commit(old(st.Snapshot()), uid, name, slug, ts, ss)
  {
    var t := st.Snapshot();
    committed, t := Stage(t, uid, name, slug, ts, ss);
    if committed {
      CommitKeepsConsistent(old(st.Snapshot()), uid, name, slug, ts, ss);
      CommitGrows(old(st.Snapshot()), uid, name, slug, ts, ss);
      st.users, st.orgs, st.teams, st.services, st.incidents, st.nextId :=
        t.users, t.orgs, t.teams, t.services, t.incidents, t.nextId;
    } else {
      GrowsReflexive(t);
    }
  }
}
