/** PATCH /api/incidents/close: the open-to-closed transition of an incident. */
module IncidentsCloseRoute {
  import opened Common
  import opened Db

  /** Closes incident `incidentId` on behalf of `caller` at time `now`.
      Guards, in order: authentication (401), a present id (400), the
      caller's organisation (404), the incident's existence (404), its
      ownership (403), its being still open (400). Only the last step
      writes, and it writes only `closedAt` of that incident. */
  method CloseIncident(st: Store, caller: Option<UserId>, incidentId: Option<Id>, now: Time)
    returns (code: Code, updated: Option<Row<Incident>>)
    requires st.Valid()
    modifies st
    ensures st.Valid() && Evolves(st)
    ensures code == Unauthorized <==> caller.None?
    ensures caller.Some? && incidentId.None? ==> code == BadRequest
    ensures caller.Some? && incidentId.Some? && old(st.CallerOrg(caller)).None? ==> code == NotFound
    ensures caller.Some? && incidentId.Some? && old(st.CallerOrg(caller)).Some? ==>
              var id, org := incidentId.value, old(st.CallerOrg(caller)).value;
              && (id !in old(st.incidents) ==> code == NotFound)
              && (id in old(st.incidents) && !SameOrganization(old(st.incidents)[id].organizationId, org) ==> code == Forbidden)
              && (id in old(st.incidents) && SameOrganization(old(st.incidents)[id].organizationId, org) ==>
                    code == (if old(st.incidents)[id].closedAt.Some? then BadRequest else Ok))
    ensures code != Ok ==> unchanged(st) && updated.None?
    ensures code == Ok ==>
              var id := incidentId.value;
              && id in old(st.incidents) && old(st.incidents)[id].closedAt.None?
              && st.incidents == old(st.incidents)[id := old(st.incidents)[id].(closedAt := Some(now))]
              && st.users == old(st.users) && st.orgs == old(st.orgs) && st.teams == old(st.teams)
              && st.services == old(st.services) && st.nextId == old(st.nextId)
              && updated == Some(Row(id, st.incidents[id]))
  {
    updated := None;
    if caller.None? {
      return Unauthorized, updated;
    }
    if incidentId.None? {
      return BadRequest, updated;
    }
    var uid := caller.value;
    if uid !in st.users || st.users[uid].organizationId.None? {
      return NotFound, updated;
    }
    var org := st.users[uid].organizationId.value;
    var id := incidentId.value;
    if id !in st.incidents {
      return NotFound, updated;
    }
    var incident := st.incidents[id];
    if !SameOrganization(incident.organizationId, org) {
      return Forbidden, updated;
    }
    if incident.closedAt.Some? {
      return BadRequest, updated;
    }
    var closed := incident.(closedAt := Some(now));
    st.incidents := st.incidents[id := closed];
    code, updated := Ok, Some(Row(id, closed));
  }

  /** Closing is one-shot: after a successful close, closing the same
      incident again (at any later time) is rejected with 400 and leaves the
      first `closedAt` in place. */
  method CloseTwice(st: Store, caller: Option<UserId>, id: Id, first: Time, second: Time)
    returns (code1: Code, code2: Code)
    requires st.Valid()
    modifies st
    ensures code1 == Ok ==> code2 == BadRequest && id in st.incidents && st.incidents[id].closedAt == Some(first)
  {
    var row1, row2;
    code1, row1 := CloseIncident(st, caller, Some(id), first);
    code2, row2 := CloseIncident(st, caller, Some(id), second);
  }
}
