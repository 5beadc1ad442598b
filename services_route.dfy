/** GET /api/services: the services of the caller's organisation. */
module ServicesRoute {
  import opened Common
  import opened Db
  import opened Query

  /** The result code and, on success, the listed rows. */
  datatype ServiceListing = ServiceListing(code: Code, services: seq<Row<Service>>)

  /** Lists the caller's services. Guards, in order: authentication (401),
      the caller's user row and organisation (404). The listing only reads
      the store. On success every listed row is a service of the caller's
      organisation exactly as stored, and no key is listed twice. */
  function ListServices(st: Store, caller: Option<UserId>): (r: ServiceListing)
    reads st
    ensures r.code == Unauthorized <==> caller.None?
    ensures r.code == NotFound <==> caller.Some? && st.CallerOrg(caller).None?
    ensures r.code == Ok <==> st.CallerOrg(caller).Some?
    ensures r.code != Ok ==> r.services == []
    ensures r.code == Ok ==>
              forall k :: 0 <= k < |r.services| ==>
                && r.services[k].id in st.services
                && st.services[r.services[k].id] == r.services[k].value
                && r.services[k].value.organizationId == st.CallerOrg(caller).value
    ensures forall k, l :: 0 <= k < l < |r.services| ==> r.services[k].id < r.services[l].id
  {
    if caller.None? then ServiceListing(Unauthorized, [])
    else match st.CallerOrg(caller)
      case None => ServiceListing(NotFound, [])
      case Some(org) => ServiceListing(Ok, Select(st.services, OrgServiceIds(st.services, org), st.nextId))
  }

  /** In a valid store nothing is missed: every service of the caller's
      organisation is listed. */
  lemma ListServicesComplete(st: Store, caller: Option<UserId>)
    requires st.Valid() && st.CallerOrg(caller).Some?
    ensures forall s :: s in st.services && st.services[s].organizationId == st.CallerOrg(caller).value ==>
              Row(s, st.services[s]) in ListServices(st, caller).services
  {
    var org := st.CallerOrg(caller).value;
    SelectExact(st.services, OrgServiceIds(st.services, org), st.nextId);
  }
}
