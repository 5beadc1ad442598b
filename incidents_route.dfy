/** GET /api/incidents: the incidents of the caller's organisation, newest
    first, split into the open and the closed ones. */
module IncidentsRoute {
  import opened Common
  import opened Db
  import opened Query

  /** The result code and, on success, the two lists. */
  datatype IncidentListing = IncidentListing(code: Code, open: seq<Row<Incident>>, closed: seq<Row<Incident>>)

  /** `orderBy: { createdAt: 'desc' }`: creation times never increase along the list. */
  predicate NewestFirst(s: seq<Row<Incident>>)
  {
    forall i, j :: 0 <= i < j < |s| ==> s[i].value.createdAt >= s[j].value.createdAt
  }

  /** The head of a newest-first list is at least as new as every row in it. */
  lemma HeadIsNewest(s: seq<Row<Incident>>)
    requires NewestFirst(s) && s != []
    ensures forall y :: y in s ==> y.value.createdAt <= s[0].value.createdAt
  {
  }

  /** A row at least as new as every row of a newest-first list can go in front. */
  lemma ConsNewestFirst(h: Row<Incident>, s: seq<Row<Incident>>)
    requires NewestFirst(s) && forall y :: y in s ==> y.value.createdAt <= h.value.createdAt
    ensures NewestFirst([h] + s)
  {
    assert forall j :: 0 <= j < |s| ==> s[j] in s;
  }

  /** Puts `x` into a newest-first list, before every row no newer than it. */
  function Insert(x: Row<Incident>, s: seq<Row<Incident>>): (r: seq<Row<Incident>>)
    requires NewestFirst(s)
    ensures NewestFirst(r) && multiset(r) == multiset(s) + multiset{x}
    ensures forall y :: y in r <==> y == x || y in s
    decreases |s|
  {
    if s == [] || x.value.createdAt >= s[0].value.createdAt then
      ConsNewestFirst(x, s);
      [x] + s
    else
      var rest := Insert(x, s[1..]);
      assert s == [s[0]] + s[1..];
      HeadIsNewest(s);
      ConsNewestFirst(s[0], rest);
      [s[0]] + rest
  }

  /** The fetched rows ordered newest first. Rows created at the same time
      keep their key order; the database leaves that order open. */
  function SortByNewest(s: seq<Row<Incident>>): (r: seq<Row<Incident>>)
    ensures NewestFirst(r) && multiset(r) == multiset(s)
    decreases |s|
  {
    if s == [] then []
    else
      assert s == [s[0]] + s[1..];
      Insert(s[0], SortByNewest(s[1..]))
  }

  /** The `findMany` with `orderBy: { createdAt: 'desc' }`: organisation
      `org`'s incidents below the key bound, newest first. */
  function Listed(incidents: map<Id, Incident>, org: Id, bound: nat): (r: seq<Row<Incident>>)
    ensures NewestFirst(r)
    ensures multiset(r) == multiset(Select(incidents, OrgIncidentIds(incidents, org), bound))
  {
    SortByNewest(Select(incidents, OrgIncidentIds(incidents, org), bound))
  }

  /** `incidents.filter(i => !i.closedAt)` when `closed` is false,
      `incidents.filter(i => i.closedAt)` when it is true. */
  function WithState(s: seq<Row<Incident>>, closed: bool): (r: seq<Row<Incident>>)
    ensures forall x :: x in r <==> x in s && x.value.closedAt.Some? == closed
    decreases |s|
  {
    if s == [] then []
    else (if s[0].value.closedAt.Some? == closed then [s[0]] else []) + WithState(s[1..], closed)
  }

  /** Filtering keeps the relative order, so both lists stay newest first. */
  lemma {:induction false} WithStateNewestFirst(s: seq<Row<Incident>>, closed: bool)
    requires NewestFirst(s)
    ensures NewestFirst(WithState(s, closed))
    decreases |s|
  {
    if s != [] {
      WithStateNewestFirst(s[1..], closed);
    }
  }

  /** Every fetched row lands in exactly one of the two lists, as often as
      it was fetched. */
  lemma {:induction false} WithStatePartition(s: seq<Row<Incident>>)
    ensures multiset(WithState(s, false)) + multiset(WithState(s, true)) == multiset(s)
    decreases |s|
  {
    if s != [] {
      WithStatePartition(s[1..]);
      assert s == [s[0]] + s[1..];
    }
  }

  /** Lists the caller's incidents. Guards, in order: authentication (401),
      the caller's user row and organisation (404). The listing only reads
      the store. On success the open list holds the rows without `closedAt`,
      the closed list those with it, both newest first, and together they
      are exactly the organisation's rows, each once. */
  function ListIncidents(st: Store, caller: Option<UserId>): (r: IncidentListing)
    reads st
    ensures r.code == Unauthorized <==> caller.None?
    ensures r.code == NotFound <==> caller.Some? && st.CallerOrg(caller).None?
    ensures r.code == Ok <==> st.CallerOrg(caller).Some?
    ensures r.code != Ok ==> r.open == [] && r.closed == []
    ensures r.code == Ok ==>
              var org := st.CallerOrg(caller).value;
              && NewestFirst(r.open) && NewestFirst(r.closed)
              && (forall x :: x in r.open ==> x.value.closedAt.None?)
              && (forall x :: x in r.closed ==> x.value.closedAt.Some?)
              && multiset(r.open) + multiset(r.closed) == multiset(Select(st.incidents, OrgIncidentIds(st.incidents, org), st.nextId))
              && r.open == WithState(Listed(st.incidents, org, st.nextId), false)
              && r.closed == WithState(Listed(st.incidents, org, st.nextId), true)
  {
    if caller.None? then IncidentListing(Unauthorized, [], [])
    else match st.CallerOrg(caller)
      case None => IncidentListing(NotFound, [], [])
      case Some(org) =>
        var all := Listed(st.incidents, org, st.nextId);
        WithStateNewestFirst(all, false);
        WithStateNewestFirst(all, true);
        WithStatePartition(all);
        IncidentListing(Ok, WithState(all, false), WithState(all, true))
  }

  /** In a valid store an incident of the caller's organisation is listed
      as open iff it has no `closedAt`, as closed iff it has one, and
      incidents of other organisations are not listed at all. */
  lemma ListIncidentsExact(st: Store, caller: Option<UserId>)
    requires st.Valid() && st.CallerOrg(caller).Some?
    ensures var r, org := ListIncidents(st, caller), st.CallerOrg(caller).value;
            forall i: Id, v ::
              && (Row(i, v) in r.open <==> i in st.incidents && st.incidents[i] == v && v.organizationId == org && v.closedAt.None?)
              && (Row(i, v) in r.closed <==> i in st.incidents && st.incidents[i] == v && v.organizationId == org && v.closedAt.Some?)
  {
    var org := st.CallerOrg(caller).value;
    var fetched := Select(st.incidents, OrgIncidentIds(st.incidents, org), st.nextId);
    SelectExact(st.incidents, OrgIncidentIds(st.incidents, org), st.nextId);
    SameElements(Listed(st.incidents, org, st.nextId), fetched);
  }

  /** Two lists with the same multiset have the same elements. */
  lemma SameElements<T>(a: seq<T>, b: seq<T>)
    requires multiset(a) == multiset(b)
    ensures forall x :: x in a <==> x in b
  {
    assert forall x :: x in a <==> x in multiset(a);
    assert forall x :: x in b <==> x in multiset(b);
  }
}
