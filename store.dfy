/** The persistent store the route handlers read and write: one table per
    entity, keyed by primary key. The database layer itself is not part of
    this model; its unique constraints and foreign keys appear as `Valid`. */
module Db {
  import opened Common

  /** Primary key of an organisation, team, service or incident. */
  type Id = nat
  /** The identity provider's user id, also the primary key of the user table. */
  type UserId = string
  /** Timestamps (milliseconds); the clock is the caller's `now` parameter. */
  type Time = int

  datatype Role = Owner | Member

  datatype User = User(organizationId: Option<Id>, teamId: Option<Id>, role: Option<Role>)
  datatype Organization = Organization(name: string, slug: string)
  datatype Team = Team(name: string, organizationId: Id)
  datatype Service = Service(name: string, status: string, organizationId: Id)
  datatype Incident = Incident(name: string, organizationId: Id, createdAt: Time, closedAt: Option<Time>)

  /** The contents of all tables at one moment. */
  datatype Tables = Tables(users: map<UserId, User>, orgs: map<Id, Organization>, teams: map<Id, Team>,
                           services: map<Id, Service>, incidents: map<Id, Incident>, nextId: Id)

  class Store {
    var users: map<UserId, User>
    var orgs: map<Id, Organization>
    var teams: map<Id, Team>
    var services: map<Id, Service>
    var incidents: map<Id, Incident>
    /** Every key handed out so far is below `nextId`. */
    var nextId: Id

    /** The store's integrity (see `Consistent`). */
    ghost predicate Valid()
      reads this
    {
      Consistent(users, orgs, teams, services, incidents, nextId)
    }

    /** The current contents of the tables. */
    function Snapshot(): Tables
      reads this
    {
      Tables(users, orgs, teams, services, incidents, nextId)
    }

    /** A store holding the given users, none of them in an organisation yet
        (user rows are created by the sign-up flow, outside this model). */
    constructor (signedUp: set<UserId>)
      ensures Valid()
      ensures users == map u | u in signedUp :: User(None, None, None)
      ensures orgs == map[] && teams == map[] && services == map[] && incidents == map[]
    {
      users := map u | u in signedUp :: User(None, None, None);
      orgs, teams, services, incidents := map[], map[], map[], map[];
      nextId := 0;
    }

    /** The caller's organisation, resolved through the caller's user row:
        none when unauthenticated, when there is no row or when the row has
        no organisation. */
    function CallerOrg(caller: Option<UserId>): (r: Option<Id>)
      reads this
      ensures r.Some? <==> caller.Some? && caller.value in users && users[caller.value].organizationId.Some?
      ensures r.Some? ==> r == users[caller.value].organizationId
    {
      if caller.Some? && caller.value in users then users[caller.value].organizationId else None
    }
  }

  /** Integrity of the tables: keys below `nextId`, every reference
      resolves (the foreign keys), org slugs are unique, team names are
      unique within an organisation (the unique constraints), and every
      organisation has a name and a slug. */
  ghost predicate Consistent(users: map<UserId, User>, orgs: map<Id, Organization>, teams: map<Id, Team>,
                             services: map<Id, Service>, incidents: map<Id, Incident>, nextId: Id)
  {
    && KeysBelow(orgs.Keys, nextId) && KeysBelow(teams.Keys, nextId)
    && KeysBelow(services.Keys, nextId) && KeysBelow(incidents.Keys, nextId)
    && UsersResolve(users, orgs.Keys, teams.Keys)
    && TeamsResolve(teams, orgs.Keys) && ServicesResolve(services, orgs.Keys) && IncidentsResolve(incidents, orgs.Keys)
    && SlugsUnique(orgs) && TeamNamesUnique(teams) && OrgsLabelled(orgs)
  }

  ghost predicate KeysBelow(keys: set<Id>, bound: Id)
  {
    forall k :: k in keys ==> k < bound
  }

  /** Every organisation and team a user row names exists. */
  ghost predicate UsersResolve(users: map<UserId, User>, orgKeys: set<Id>, teamKeys: set<Id>)
  {
    forall u :: u in users ==>
      && (users[u].organizationId.Some? ==> users[u].organizationId.value in orgKeys)
      && (users[u].teamId.Some? ==> users[u].teamId.value in teamKeys)
  }

  ghost predicate TeamsResolve(teams: map<Id, Team>, orgKeys: set<Id>)
  {
    forall t :: t in teams ==> teams[t].organizationId in orgKeys
  }

  ghost predicate ServicesResolve(services: map<Id, Service>, orgKeys: set<Id>)
  {
    forall s :: s in services ==> services[s].organizationId in orgKeys
  }

  ghost predicate IncidentsResolve(incidents: map<Id, Incident>, orgKeys: set<Id>)
  {
    forall i :: i in incidents ==> incidents[i].organizationId in orgKeys
  }

  /** The unique constraint on the organisation slug. */
  ghost predicate SlugsUnique(orgs: map<Id, Organization>)
  {
    forall o, o' :: o in orgs && o' in orgs && orgs[o].slug == orgs[o'].slug ==> o == o'
  }

  /** Every organisation has a non-empty name and slug (the creation route
      refuses empty ones). */
  ghost predicate OrgsLabelled(orgs: map<Id, Organization>)
  {
    forall o :: o in orgs ==> orgs[o].name != "" && orgs[o].slug != ""
  }

  /** The unique constraint on (team name, organisation). */
  ghost predicate TeamNamesUnique(teams: map<Id, Team>)
  {
    forall t, t' :: t in teams && t' in teams && teams[t] == teams[t'] ==> t == t'
  }

  /** From tables `a` to tables `b`: no row disappears, no team, service or
      incident moves to another organisation, a closed incident never
      changes again, and keys are never reused. */
  ghost predicate Grows(a: Tables, b: Tables)
  {
    && a.nextId <= b.nextId
    && a.users.Keys <= b.users.Keys
    && a.orgs.Keys <= b.orgs.Keys
    && (forall t :: t in a.teams ==> t in b.teams && b.teams[t] == a.teams[t])
    && (forall s :: s in a.services ==> s in b.services && b.services[s].organizationId == a.services[s].organizationId)
    && (forall i :: i in a.incidents ==> i in b.incidents && b.incidents[i].organizationId == a.incidents[i].organizationId)
    && (forall i :: i in a.incidents && a.incidents[i].closedAt.Some? ==> b.incidents[i] == a.incidents[i])
  }

  /** Between two states of the store, its tables only grow (see `Grows`).
      Every route keeps this. */
  twostate predicate Evolves(st: Store)
    reads st
  {
    Grows(old(st.Snapshot()), st.Snapshot())
  }

  /** The ownership check of the close and status routes. */
  predicate SameOrganization(entityOrg: Id, callerOrg: Id)
  {
    entityOrg == callerOrg
  }
}
