/** POST /api/join-organization: admits the caller into an existing
    organisation's team as a member. */
module JoinOrganizationRoute {
  import opened Common
  import opened Db

  /** The JSON body the join page sends. */
  datatype JoinBody = JoinBody(name: Option<string>, slug: Option<string>, teamName: Option<string>)

  /** What a successful join echoes back: the organisation and the team. */
  datatype Joined = Joined(orgId: Id, orgName: string, orgSlug: string, teamId: Id, teamName: string)

  /** `findFirst` on organisations with both `name` and `slug` equal, in key
      order. Finds the least key whose row matches both; none when no row does. */
  method FindOrganization(st: Store, name: string, slug: string) returns (found: Option<Id>)
    ensures found.Some? ==> found.value in st.orgs && st.orgs[found.value] == Organization(name, slug)
    ensures found.Some? ==> forall o :: o in st.orgs && o < found.value ==> st.orgs[o] != Organization(name, slug)
    ensures found.None? ==> forall o :: o in st.orgs && o < st.nextId ==> st.orgs[o] != Organization(name, slug)
  {
    var o := 0;
    while o < st.nextId
      invariant o <= st.nextId
      invariant forall p :: p in st.orgs && p < o ==> st.orgs[p] != Organization(name, slug)
    {
      if o in st.orgs && st.orgs[o] == Organization(name, slug) {
        return Some(o);
      }
      o := o + 1;
    }
    return None;
  }

  /** `organization.teams.find(team => team.name === teamName)`: the first
      team of organisation `org` (in key order) whose name equals `teamName`
      exactly, case included. */
  method FindTeam(st: Store, org: Id, teamName: string) returns (found: Option<Id>)
    ensures found.Some? ==> found.value in st.teams && st.teams[found.value] == Team(teamName, org)
    ensures found.Some? ==> forall t :: t in st.teams && t < found.value ==> st.teams[t] != Team(teamName, org)
    ensures found.None? ==> forall t :: t in st.teams && t < st.nextId ==> st.teams[t] != Team(teamName, org)
  {
    var t := 0;
    while t < st.nextId
      invariant t <= st.nextId
      invariant forall u :: u in st.teams && u < t ==> st.teams[u] != Team(teamName, org)
    {
      if t in st.teams && st.teams[t].organizationId == org && st.teams[t].name == teamName {
        return Some(t);
      }
      t := t + 1;
    }
    return None;
  }

  /** The organisation row with exactly this name and slug, if any; the
      slug is unique in a valid store, so there is at most one. */
  ghost function MatchingOrg(orgs: map<Id, Organization>, name: string, slug: string): Option<Id>
  {
    if exists o :: o in orgs && orgs[o] == Organization(name, slug)
    then Some(var o :| o in orgs && orgs[o] == Organization(name, slug); o)
    else None
  }

  /** Organisation `org` has a team named exactly `teamName`. */
  ghost predicate TeamExists(teams: map<Id, Team>, org: Id, teamName: string)
  {
    exists t :: t in teams && teams[t] == Team(teamName, org)
  }

  /** The admission guards of the join route, read-only. Guards, in order:
      authentication (401); present name and slug (400); present team name
      (400); the caller not already in an organisation (400, before the
      organisation is looked up); an organisation matching name AND slug
      (404); a team of that organisation with that exact name (404).
      `Ok` means the caller may be bound to `joined`. */
  method Admission(st: Store, caller: Option<UserId>, body: JoinBody)
    returns (code: Code, joined: Option<Joined>)
    requires st.Valid()
    ensures code == Unauthorized <==> caller.None?
    ensures caller.Some? && !(Present(body.name) && Present(body.slug)) ==> code == BadRequest
    ensures caller.Some? && Present(body.name) && Present(body.slug) && !Present(body.teamName) ==> code == BadRequest
    ensures caller.Some? && Present(body.name) && Present(body.slug) && Present(body.teamName) ==>
              var org := MatchingOrg(st.orgs, body.name.value, body.slug.value);
              && (st.CallerOrg(caller).Some? ==> code == BadRequest)
              && (st.CallerOrg(caller).None? && org.None? ==> code == NotFound)
              && (st.CallerOrg(caller).None? && org.Some? ==>
                    code == (if TeamExists(st.teams, org.value, body.teamName.value) then Ok else NotFound))
    ensures code == Ok <==> joined.Some?
    ensures code == Ok ==>
              var j := joined.value;
              && j.orgId in st.orgs && st.orgs[j.orgId] == Organization(body.name.value, body.slug.value)
              && j.orgName == body.name.value && j.orgSlug == body.slug.value
              && j.teamId in st.teams && st.teams[j.teamId] == Team(body.teamName.value, j.orgId)
              && j.teamName == body.teamName.value
  {
    joined := None;
    if caller.None? {
      return Unauthorized, joined;
    }
    if !Present(body.name) || !Present(body.slug) {
      return BadRequest, joined;
    }
    if !Present(body.teamName) {
      return BadRequest, joined;
    }
    var uid := caller.value;
    if uid in st.users && st.users[uid].organizationId.Some? {
      return BadRequest, joined;
    }
    var name, slug, teamName := body.name.value, body.slug.value, body.teamName.value;
    var org := FindOrganization(st, name, slug);
    if org.None? {
      return NotFound, joined;
    }
    var o := org.value;
    assert MatchingOrg(st.orgs, name, slug) == Some(o);
    var team := FindTeam(st, o, teamName);
    if team.None? {
      return NotFound, joined;
    }
    code, joined := Ok, Some(Joined(o, name, slug, team.value, teamName));
  }

  /** The join route: the admission guards, then the single write that binds
      the caller to the organisation and team with role `member`. A caller
      without a user row passes the membership guard and then fails the
      update (Prisma's `update` throws on a missing row: 500). On success
      only the caller's row changes. */
  method JoinOrganization(st: Store, caller: Option<UserId>, body: JoinBody)
    returns (code: Code, joined: Option<Joined>)
    requires st.Valid()
    modifies st
    ensures st.Valid() && Evolves(st)
    ensures code == Unauthorized <==> caller.None?
    ensures caller.Some? && !(Present(body.name) && Present(body.slug)) ==> code == BadRequest
    ensures caller.Some? && Present(body.name) && Present(body.slug) && !Present(body.teamName) ==> code == BadRequest
    ensures caller.Some? && Present(body.name) && Present(body.slug) && Present(body.teamName) ==>
              var org := MatchingOrg(old(st.orgs), body.name.value, body.slug.value);
              && (old(st.CallerOrg(caller)).Some? ==> code == BadRequest)
              && (old(st.CallerOrg(caller)).None? && org.None? ==> code == NotFound)
              && (old(st.CallerOrg(caller)).None? && org.Some? && !TeamExists(old(st.teams), org.value, body.teamName.value) ==>
                    code == NotFound)
              && (old(st.CallerOrg(caller)).None? && org.Some? && TeamExists(old(st.teams), org.value, body.teamName.value) ==>
                    code == (if caller.value in old(st.users) then Ok else InternalError))
    ensures code != Ok ==> unchanged(st) && joined.None?
    ensures code == Ok ==> joined.Some?
    ensures code == Ok ==>
              var uid, j := caller.value, joined.value;
              && uid in old(st.users) && old(st.users)[uid].organizationId.None?
              && j.orgId in old(st.orgs) && old(st.orgs)[j.orgId] == Organization(body.name.value, body.slug.value)
              && j.orgName == body.name.value && j.orgSlug == body.slug.value
              && j.teamId in old(st.teams) && old(st.teams)[j.teamId] == Team(body.teamName.value, j.orgId)
              && j.teamName == body.teamName.value
              && st.users == old(st.users)[uid := User(Some(j.orgId), Some(j.teamId), Some(Member))]
              && st.orgs == old(st.orgs) && st.teams == old(st.teams) && st.services == old(st.services)
              && st.incidents == old(st.incidents) && st.nextId == old(st.nextId)
  {
    code, joined := Admission(st, caller, body);
    if code != Ok {
      return;
    }
    var uid := caller.value;
    if uid !in st.users {
      return InternalError, None;
    }
    var j := joined.value;
    BindingKeepsValid(st, uid, j.orgId, j.teamId);
    st.users := st.users[uid := User(Some(j.orgId), Some(j.teamId), Some(Member))];
  }

  /** Binding a user to an existing organisation and team keeps the user
      rows resolvable. */
  lemma BindingKeepsValid(st: Store, uid: UserId, org: Id, team: Id)
    requires st.Valid() && org in st.orgs && team in st.teams
    ensures UsersResolve(st.users[uid := User(Some(org), Some(team), Some(Member))], st.orgs.Keys, st.teams.Keys)
  {
  }
}
