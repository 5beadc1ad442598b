/** POST /api/services/create: adds a service to the caller's organisation. */
module ServicesCreateRoute {
  import opened Common
  import opened Db

  /** The status every service created through this route starts with. */
  const InitialStatus: string := "Operational"

  lemma InitialStatusIsValid()
    ensures IsValidStatus(InitialStatus)
  {
    assert InitialStatus == ValidStatuses[0];
  }

  /** Creates a service named `name`; only the name is read from the body,
      the status is always `Operational`. Guards, in order: authentication
      (401), a present name (400), the caller's organisation (404). */
  method CreateService(st: Store, caller: Option<UserId>, name: Option<string>)
    returns (code: Code, created: Option<Row<Service>>)
    requires st.Valid()
    modifies st
    ensures st.Valid() && Evolves(st)
    ensures code == Unauthorized <==> caller.None?
    ensures caller.Some? && !Present(name) ==> code == BadRequest
    ensures caller.Some? && Present(name) ==> code == (if old(st.CallerOrg(caller)).None? then NotFound else Ok)
    ensures code != Ok ==> unchanged(st) && created.None?
    ensures code == Ok ==>
              var id, org := old(st.nextId), old(st.CallerOrg(caller)).value;
              && id !in old(st.services)
              && st.services == old(st.services)[id := Service(name.value, InitialStatus, org)]
              && st.users == old(st.users) && st.orgs == old(st.orgs) && st.teams == old(st.teams)
              && st.incidents == old(st.incidents) && st.nextId == id + 1
              && created == Some(Row(id, st.services[id]))
  {
    created := None;
    if caller.None? {
      return Unauthorized, created;
    }
    if !Present(name) {
      return BadRequest, created;
    }
    var uid := caller.value;
    if uid !in st.users || st.users[uid].organizationId.None? {
      return NotFound, created;
    }
    var org := st.users[uid].organizationId.value;
    var id := st.nextId;
    var service := Service(name.value, InitialStatus, org);
    st.services, st.nextId := st.services[id := service], id + 1;
    code, created := Ok, Some(Row(id, service));
  }
}
