/** GET /api/check-organization: whether the caller belongs to an
    organisation, and which. */
module CheckOrganizationRoute {
  import opened Common
  import opened Db

  /** The answer body: `hasOrganization` and the three nullable fields. */
  datatype OrgCheck = OrgCheck(hasOrganization: bool, organizationSlug: Option<string>,
                               organizationId: Option<Id>, organizationName: Option<string>)

  datatype CheckReply = CheckReply(code: Code, body: Option<OrgCheck>)

  /** `s || null` for a string: the empty string is falsy and becomes null. */
  function OrNull(s: string): (r: Option<string>)
    ensures r.Some? <==> s != ""
    ensures r.Some? ==> r.value == s
  {
    if s == "" then None else Some(s)
  }

  /** Answers for `caller`. Guards, in order: authentication (401), the
      caller's user row (404). The route only reads the store.
      `hasOrganization` is `!!user.organizationId`; each organisation field
      is read through the organisation the user row points to and is null
      when there is none. Keys are never falsy (the database's keys are
      non-empty strings), so `organization?.id || null` is null only when
      there is no organisation. */
  function CheckOrganization(st: Store, caller: Option<UserId>): (r: CheckReply)
    reads st
    ensures r.code == Unauthorized <==> caller.None?
    ensures r.code == NotFound <==> caller.Some? && caller.value !in st.users
    ensures r.code == Ok <==> caller.Some? && caller.value in st.users
    ensures r.code == Ok <==> r.body.Some?
    ensures r.code == Ok ==> (r.body.value.hasOrganization <==> st.CallerOrg(caller).Some?)
    ensures r.code == Ok && st.CallerOrg(caller).None? ==>
              r.body.value == OrgCheck(false, None, None, None)
  {
    if caller.None? then CheckReply(Unauthorized, None)
    else if caller.value !in st.users then CheckReply(NotFound, None)
    else
      var user := st.users[caller.value];
      var organization := if user.organizationId.Some? && user.organizationId.value in st.orgs
                          then Some(user.organizationId.value) else None;
      CheckReply(Ok, Some(OrgCheck(
        user.organizationId.Some?,
        if organization.Some? then OrNull(st.orgs[organization.value].slug) else None,
        organization,
        if organization.Some? then OrNull(st.orgs[organization.value].name) else None)))
  }

  /** In a valid store a member learns all three fields of their
      organisation: the user row points at an existing organisation, and
      every organisation has a non-empty name and slug. */
  lemma CheckOrganizationOfMember(st: Store, caller: Option<UserId>)
    requires st.Valid() && st.CallerOrg(caller).Some?
    ensures var org := st.CallerOrg(caller).value;
            CheckOrganization(st, caller) ==
              CheckReply(Ok, Some(OrgCheck(true, Some(st.orgs[org].slug), Some(org), Some(st.orgs[org].name))))
  {
    var org := st.CallerOrg(caller).value;
    assert org in st.orgs;
  }
}
