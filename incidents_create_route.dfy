/** POST /api/incidents/create: opens a new incident in the caller's organisation. */
module IncidentsCreateRoute {
  import opened Common
  import opened Db

  /** Creates an open incident named `name` at time `now`. Guards, in order:
      authentication (401), a present name (400), the caller's organisation
      (404). The new row gets the next free key, `createdAt = now` and no
      `closedAt` (the schema defaults, taken as given). */
  method CreateIncident(st: Store, caller: Option<UserId>, name: Option<string>, now: Time)
    returns (code: Code, created: Option<Row<Incident>>)
    requires st.Valid()
    modifies st
    ensures st.Valid() && Evolves(st)
    ensures code == Unauthorized <==> caller.None?
    ensures caller.Some? && !Present(name) ==> code == BadRequest
    ensures caller.Some? && Present(name) ==> code == (if old(st.CallerOrg(caller)).None? then NotFound else Ok)
    ensures code != Ok ==> unchanged(st) && created.None?
    ensures code == Ok ==>
              var id, org := old(st.nextId), old(st.CallerOrg(caller)).value;
              && id !in old(st.incidents)
              && st.incidents == old(st.incidents)[id := Incident(name.value, org, now, None)]
              && st.users == old(st.users) && st.orgs == old(st.orgs) && st.teams == old(st.teams)
              && st.services == old(st.services) && st.nextId == id + 1
              && created == Some(Row(id, st.incidents[id]))
  {
    created := None;
    if caller.None? {
      return Unauthorized, created;
    }
    if !Present(name) {
      return BadRequest, created;
    }
    var uid := caller.value;
    if uid !in st.users || st.users[uid].organizationId.None? {
      return NotFound, created;
    }
    var org := st.users[uid].organizationId.value;
    var id := st.nextId;
    var incident := Incident(name.value, org, now, None);
    st.incidents, st.nextId := st.incidents[id := incident], id + 1;
    code, created := Ok, Some(Row(id, incident));
  }
}
