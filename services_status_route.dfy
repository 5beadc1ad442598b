/** PATCH /api/services/status: sets a service's status. */
module ServicesStatusRoute {
  import opened Common
  import opened Db

  /** Sets the status of service `serviceId` to `status` for `caller`.
      Guards, in order: authentication (401), present id and status (400),
      status among the four valid values (400, before any lookup), the
      caller's organisation (404), the service's existence (404), its
      ownership (403). Any status may replace any other. */
  method SetServiceStatus(st: Store, caller: Option<UserId>, serviceId: Option<Id>, status: Option<string>)
    returns (code: Code, updated: Option<Row<Service>>)
    requires st.Valid()
    modifies st
    ensures st.Valid() && Evolves(st)
    ensures code == Unauthorized <==> caller.None?
    ensures caller.Some? && (serviceId.None? || !Present(status)) ==> code == BadRequest
    ensures caller.Some? && serviceId.Some? && Present(status) && !IsValidStatus(status.value) ==> code == BadRequest
    ensures caller.Some? && serviceId.Some? && Present(status) && IsValidStatus(status.value) ==>
              var id := serviceId.value;
              && (old(st.CallerOrg(caller)).None? ==> code == NotFound)
              && (old(st.CallerOrg(caller)).Some? && id !in old(st.services) ==> code == NotFound)
              && (old(st.CallerOrg(caller)).Some? && id in old(st.services) ==>
                    code == (if SameOrganization(old(st.services)[id].organizationId, old(st.CallerOrg(caller)).value)
                             then Ok else Forbidden))
    ensures code != Ok ==> unchanged(st) && updated.None?
    ensures code == Ok ==>
              var id := serviceId.value;
              && id in old(st.services) && IsValidStatus(status.value)
              && st.services == old(st.services)[id := old(st.services)[id].(status := status.value)]
              && st.users == old(st.users) && st.orgs == old(st.orgs) && st.teams == old(st.teams)
              && st.incidents == old(st.incidents) && st.nextId == old(st.nextId)
              && updated == Some(Row(id, st.services[id]))
  {
    updated := None;
    if caller.None? {
      return Unauthorized, updated;
    }
    if serviceId.None? || !Present(status) {
      return BadRequest, updated;
    }
    if !IsValidStatus(status.value) {
      return BadRequest, updated;
    }
    var uid := caller.value;
    if uid !in st.users || st.users[uid].organizationId.None? {
      return NotFound, updated;
    }
    var org := st.users[uid].organizationId.value;
    var id := serviceId.value;
    if id !in st.services {
      return NotFound, updated;
    }
    var service := st.services[id];
    if !SameOrganization(service.organizationId, org) {
      return Forbidden, updated;
    }
    var changed := service.(status := status.value);
    st.services := st.services[id := changed];
    code, updated := Ok, Some(Row(id, changed));
  }
}
