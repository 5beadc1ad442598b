/** The dashboard page's local bookkeeping: after a request to one of the
    routes succeeds, the page updates its copies of the services list and
    of the open and closed incident lists itself instead of reloading them.
    The result of each request is a parameter: `None` when the request
    failed, otherwise the row the route answered with. */
module DashboardPage {
  import opened Common
  import opened Db
  import opened Query
  import opened IncidentsRoute

  /** `services.map(s => s.id === id ? { ...s, status } : s)`. */
  function WithStatus(xs: seq<Row<Service>>, id: Id, status: string): (r: seq<Row<Service>>)
    ensures |r| == |xs|
    ensures forall k :: 0 <= k < |r| ==> r[k].id == xs[k].id
    ensures forall k :: 0 <= k < |r| ==> r[k].value == if xs[k].id == id then xs[k].value.(status := status) else xs[k].value
  {
    seq(|xs|, k requires 0 <= k < |xs| => if xs[k].id == id then Row(id, xs[k].value.(status := status)) else xs[k])
  }

  /** `incidents.find(i => i.id === id)` finds something. */
  predicate HasId(xs: seq<Row<Incident>>, id: Id)
  {
    exists k :: 0 <= k < |xs| && xs[k].id == id
  }

  /** `incidents.filter(i => i.id !== id)`. */
  function Without(xs: seq<Row<Incident>>, id: Id): (r: seq<Row<Incident>>)
    ensures forall x :: x in r <==> x in xs && x.id != id
    ensures |r| <= |xs|
    decreases |xs|
  {
    if xs == [] then []
    else (if xs[0].id == id then [] else [xs[0]]) + Without(xs[1..], id)
  }

  /** How many closed incidents the "Past Incidents" card shows at most. */
  const PastShownLimit: nat := 5

  /** `closedIncidents.slice(0, 5)`. */
  function PastShown(closed: seq<Row<Incident>>): (r: seq<Row<Incident>>)
    ensures |r| == if |closed| < PastShownLimit then |closed| else PastShownLimit
    ensures r == closed[..|r|]
  {
    if |closed| < PastShownLimit then closed else closed[..PastShownLimit]
  }

  /** `closedIncidents.length > 5`: the "View All" control is shown. */
  predicate ShowsViewAll(closed: seq<Row<Incident>>)
  {
    |closed| > PastShownLimit
  }

  /** Some closed incident is hidden from the card exactly when the
      "View All" control appears. */
  lemma HiddenIffViewAll(closed: seq<Row<Incident>>)
    ensures PastShown(closed) != closed <==> ShowsViewAll(closed)
  {
    if ShowsViewAll(closed) {
      assert |PastShown(closed)| < |closed|;
    }
  }

  /** No incident id is in both lists. */
  predicate Disjoint(open: seq<Row<Incident>>, closed: seq<Row<Incident>>)
  {
    forall x, y :: x in open && y in closed ==> x.id != y.id
  }

  /** The page's state that the handlers update. */
  class Dashboard {
    var services: seq<Row<Service>>
    var openIncidents: seq<Row<Incident>>
    var closedIncidents: seq<Row<Incident>>
    var newServiceName: string
    var newIncidentName: string

    /** Before the first load: empty lists and empty input fields. */
    constructor ()
      ensures services == [] && openIncidents == [] && closedIncidents == []
      ensures newServiceName == "" && newIncidentName == ""
    {
      services, openIncidents, closedIncidents := [], [], [];
      newServiceName, newIncidentName := "", "";
    }

    /** After the status request for `serviceId` succeeded (`patched`),
        that entry gets the new status; on failure nothing changes. */
    method HandleStatusChange(serviceId: Id, status: string, patched: bool)
      modifies this
      ensures services == if patched then WithStatus(old(services), serviceId, status) else old(services)
      ensures openIncidents == old(openIncidents) && closedIncidents == old(closedIncidents)
      ensures newServiceName == old(newServiceName) && newIncidentName == old(newIncidentName)
    {
      if patched {
        services := WithStatus(services, serviceId, status);
      }
    }

    /** A blank name sends no request (`request` is `None`); otherwise the
        name is sent as typed. A created service is appended and the input
        cleared; after a failed request nothing changes. */
    method HandleCreateService(response: Option<Row<Service>>) returns (request: Option<string>)
      modifies this
      ensures request == if IsBlank(old(newServiceName)) then None else Some(old(newServiceName))
      ensures request.Some? && response.Some? ==> services == old(services) + [response.value] && newServiceName == ""
      ensures !(request.Some? && response.Some?) ==> services == old(services) && newServiceName == old(newServiceName)
      ensures openIncidents == old(openIncidents) && closedIncidents == old(closedIncidents)
      ensures newIncidentName == old(newIncidentName)
    {
      if IsBlank(newServiceName) {
        return None;
      }
      request := Some(newServiceName);
      if response.Some? {
        services := services + [response.value];
        newServiceName := "";
      }
    }

    /** A blank name sends no request; otherwise a created incident is put
        in front of the open list and the input cleared. */
    method HandleCreateIncident(response: Option<Row<Incident>>) returns (request: Option<string>)
      modifies this
      ensures request == if IsBlank(old(newIncidentName)) then None else Some(old(newIncidentName))
      ensures request.Some? && response.Some? ==> openIncidents == [response.value] + old(openIncidents) && newIncidentName == ""
      ensures !(request.Some? && response.Some?) ==> openIncidents == old(openIncidents) && newIncidentName == old(newIncidentName)
      ensures services == old(services) && closedIncidents == old(closedIncidents)
      ensures newServiceName == old(newServiceName)
    {
      if IsBlank(newIncidentName) {
        return None;
      }
      request := Some(newIncidentName);
      if response.Some? {
        openIncidents := [response.value] + openIncidents;
        newIncidentName := "";
      }
    }

    /** After the close request succeeded, an incident of the open list
        leaves it and the route's answer goes in front of the closed list.
        If the id is not in the open list, or the request failed, both
        lists stay as they are. */
    method HandleCloseIncident(incidentId: Id, response: Option<Row<Incident>>)
      modifies this
      ensures response.Some? && HasId(old(openIncidents), incidentId) ==>
                openIncidents == Without(old(openIncidents), incidentId) &&
                closedIncidents == [response.value] + old(closedIncidents)
      ensures !(response.Some? && HasId(old(openIncidents), incidentId)) ==>
                openIncidents == old(openIncidents) && closedIncidents == old(closedIncidents)
      ensures services == old(services)
      ensures newServiceName == old(newServiceName) && newIncidentName == old(newIncidentName)
    {
      if response.Some? && HasId(openIncidents, incidentId) {
        openIncidents := Without(openIncidents, incidentId);
        closedIncidents := [response.value] + closedIncidents;
      }
    }
  }

  /** Updating the entries in two pieces is updating the whole list. */
  lemma WithStatusAppend(a: seq<Row<Service>>, b: seq<Row<Service>>, id: Id, status: string)
    ensures WithStatus(a + b, id, status) == WithStatus(a, id, status) + WithStatus(b, id, status)
  {
    assert forall k :: 0 <= k < |a + b| ==> (a + b)[k] == if k < |a| then a[k] else b[k - |a|];
  }

  lemma {:induction false} WithStatusSelect(m: map<Id, Service>, keep: set<Id>, bound: nat, id: Id, status: string)
    requires id in m
    ensures WithStatus(Select(m, keep, bound), id, status) == Select(m[id := m[id].(status := status)], keep, bound)
    decreases bound
  {
    if bound > 0 {
      WithStatusSelect(m, keep, bound - 1, id, status);
      var init := Select(m, keep, bound - 1);
      if bound - 1 in keep && bound - 1 in m {
        WithStatusAppend(init, [Row(bound - 1, m[bound - 1])], id, status);
      }
    }
  }

  /** The status update keeps the page in step with the server: if the
      services list is what the listing route answered, then after the
      status route changed that service's status the updated list is what
      the listing route now answers. */
  lemma StatusChangeInSync(services: map<Id, Service>, org: Id, bound: nat, id: Id, status: string)
    requires id in services
    ensures var after := services[id := services[id].(status := status)];
            WithStatus(Select(services, OrgServiceIds(services, org), bound), id, status)
              == Select(after, OrgServiceIds(after, org), bound)
  {
    var after := services[id := services[id].(status := status)];
    assert OrgServiceIds(after, org) == OrgServiceIds(services, org);
    WithStatusSelect(services, OrgServiceIds(services, org), bound, id, status);
  }

  /** Appending keeps the page in step with the server: the creation route
      adds the row at the next free key, which the listing route returns
      last. */
  lemma CreateServiceInSync(services: map<Id, Service>, org: Id, n: Id, created: Service)
    requires KeysBelow(services.Keys, n) && created.organizationId == org
    ensures Select(services, OrgServiceIds(services, org), n) + [Row(n, created)]
              == Select(services[n := created], OrgServiceIds(services[n := created], org), n + 1)
  {
    assert OrgServiceIds(services[n := created], org) == OrgServiceIds(services, org) + {n};
    SelectAppend(services, OrgServiceIds(services, org), n, created);
  }

  /** Putting the created incident in front keeps the open list newest
      first, since the route stamps it with the current time. */
  lemma CreateIncidentKeepsOrder(open: seq<Row<Incident>>, created: Row<Incident>)
    requires NewestFirst(open) && forall x :: x in open ==> x.value.createdAt <= created.value.createdAt
    ensures NewestFirst([created] + open)
  {
    ConsNewestFirst(created, open);
  }

  /** Filtering by id keeps the remaining open incidents in their order. */
  lemma {:induction false} WithoutKeepsOrder(xs: seq<Row<Incident>>, id: Id)
    requires NewestFirst(xs)
    ensures NewestFirst(Without(xs, id))
    decreases |xs|
  {
    if xs != [] {
      WithoutKeepsOrder(xs[1..], id);
      HeadIsNewest(xs);
      if xs[0].id != id {
        ConsNewestFirst(xs[0], Without(xs[1..], id));
      }
    }
  }

  /** Closing moves the incident: if no id was in both lists before and
      the route answers with the closed incident's own id, still none is. */
  lemma CloseKeepsDisjoint(open: seq<Row<Incident>>, closed: seq<Row<Incident>>, id: Id, answer: Row<Incident>)
    requires Disjoint(open, closed) && answer.id == id
    ensures Disjoint(Without(open, id), [answer] + closed)
  {
  }

  /** A row that is newer than every row of `s` is listed first. */
  lemma {:induction false} SortNewestLast(s: seq<Row<Incident>>, x: Row<Incident>)
    requires forall y :: y in s ==> y.value.createdAt < x.value.createdAt
    ensures SortByNewest(s + [x]) == [x] + SortByNewest(s)
    decreases |s|
  {
    if s == [] {
      assert [] + [x] == [x];
      assert [x][1..] == [];
    } else {
      assert (s + [x])[0] == s[0] && (s + [x])[1..] == s[1..] + [x];
      SortNewestLast(s[1..], x);
      var rest := SortByNewest(s[1..]);
      assert ([x] + rest)[0] == x && ([x] + rest)[1..] == rest;
    }
  }

  /** The open filter passes an open row in front through. */
  lemma OpenInFront(x: Row<Incident>, s: seq<Row<Incident>>)
    requires x.value.closedAt.None?
    ensures WithState([x] + s, false) == [x] + WithState(s, false)
  {
    assert ([x] + s)[0] == x && ([x] + s)[1..] == s;
  }

  /** Putting the created incident in front keeps the open list in step
      with the server, provided the incident is strictly newer than every
      incident of the organisation: the creation route adds it at the next
      free key, and the listing route then lists it first. (Incidents
      created at the same instant are listed in key order, so there the
      page and the server can disagree.) */
  lemma CreateIncidentInSync(incidents: map<Id, Incident>, org: Id, n: Id, created: Incident)
    requires KeysBelow(incidents.Keys, n) && created.organizationId == org && created.closedAt.None?
    requires forall i :: i in incidents && incidents[i].organizationId == org ==> incidents[i].createdAt < created.createdAt
    ensures [Row(n, created)] + WithState(Listed(incidents, org, n), false)
              == WithState(Listed(incidents[n := created], org, n + 1), false)
  {
    var keep := OrgIncidentIds(incidents, org);
    assert OrgIncidentIds(incidents[n := created], org) == keep + {n};
    SelectAppend(incidents, keep, n, created);
    var fetched := Select(incidents, keep, n);
    SelectExact(incidents, keep, n);
    forall y | y in fetched
      ensures y.value.createdAt < created.createdAt
    {
      assert Row(y.id, y.value) in fetched;
    }
    SortNewestLast(fetched, Row(n, created));
    OpenInFront(Row(n, created), SortByNewest(fetched));
  }

  /** The row after the close route's write, if it is the closed incident. */
  function CloseRow(x: Row<Incident>, id: Id, now: Time): (r: Row<Incident>)
    ensures r.id == x.id && r.value.createdAt == x.value.createdAt
    ensures r.value.closedAt == if x.id == id then Some(now) else x.value.closedAt
    ensures x.id != id ==> r == x
  {
    if x.id == id then Row(id, x.value.(closedAt := Some(now))) else x
  }

  /** A fetched list as the close route's write changes it: incident `id`
      gets `closedAt := now`, every other row stays. */
  function Closing(s: seq<Row<Incident>>, id: Id, now: Time): (r: seq<Row<Incident>>)
    ensures |r| == |s|
    ensures forall k :: 0 <= k < |r| ==> r[k] == CloseRow(s[k], id, now)
    ensures NewestFirst(s) ==> NewestFirst(r)
  {
    seq(|s|, k requires 0 <= k < |s| => CloseRow(s[k], id, now))
  }

  lemma ClosingAppend(a: seq<Row<Incident>>, b: seq<Row<Incident>>, id: Id, now: Time)
    ensures Closing(a + b, id, now) == Closing(a, id, now) + Closing(b, id, now)
  {
    assert forall k :: 0 <= k < |a + b| ==> (a + b)[k] == if k < |a| then a[k] else b[k - |a|];
  }

  /** The close route's write, seen through the listing query. */
  lemma {:induction false} ClosingSelect(m: map<Id, Incident>, keep: set<Id>, bound: nat, id: Id, now: Time)
    requires id in m
    ensures Closing(Select(m, keep, bound), id, now) == Select(m[id := m[id].(closedAt := Some(now))], keep, bound)
    decreases bound
  {
    if bound > 0 {
      var b, m' := bound - 1, m[id := m[id].(closedAt := Some(now))];
      ClosingSelect(m, keep, b, id, now);
      if b in keep && b in m {
        assert Select(m, keep, bound) == Select(m, keep, b) + [Row(b, m[b])];
        assert Select(m', keep, bound) == Select(m', keep, b) + [Row(b, m'[b])];
        ClosingAppend(Select(m, keep, b), [Row(b, m[b])], id, now);
        assert Closing([Row(b, m[b])], id, now) == [CloseRow(Row(b, m[b]), id, now)];
      } else {
        assert Select(m, keep, bound) == Select(m, keep, b);
        assert Select(m', keep, bound) == Select(m', keep, b);
      }
    }
  }

  lemma ClosingCons(h: Row<Incident>, t: seq<Row<Incident>>, id: Id, now: Time)
    ensures Closing([h] + t, id, now) == [CloseRow(h, id, now)] + Closing(t, id, now)
  {
    ClosingAppend([h], t, id, now);
  }

  /** Closing keeps every creation time, so it does not move a row. */
  lemma {:induction false} ClosingInsert(x: Row<Incident>, s: seq<Row<Incident>>, id: Id, now: Time)
    requires NewestFirst(s)
    ensures Closing(Insert(x, s), id, now) == Insert(CloseRow(x, id, now), Closing(s, id, now))
    decreases |s|
  {
    if s == [] || x.value.createdAt >= s[0].value.createdAt {
      ClosingInsertFront(x, s, id, now);
    } else {
      ClosingInsert(x, s[1..], id, now);
      ClosingInsertBehind(x, s, id, now);
    }
  }

  lemma ClosingInsertFront(x: Row<Incident>, s: seq<Row<Incident>>, id: Id, now: Time)
    requires NewestFirst(s) && (s == [] || x.value.createdAt >= s[0].value.createdAt)
    ensures Closing(Insert(x, s), id, now) == Insert(CloseRow(x, id, now), Closing(s, id, now))
  {
    var cx, c := CloseRow(x, id, now), Closing(s, id, now);
    assert Insert(x, s) == [x] + s;
    ClosingCons(x, s, id, now);
    assert Insert(cx, c) == [cx] + c;
  }

  lemma ClosingInsertBehind(x: Row<Incident>, s: seq<Row<Incident>>, id: Id, now: Time)
    requires NewestFirst(s) && s != [] && x.value.createdAt < s[0].value.createdAt
    requires NewestFirst(s[1..])
    requires Closing(Insert(x, s[1..]), id, now) == Insert(CloseRow(x, id, now), Closing(s[1..], id, now))
    ensures Closing(Insert(x, s), id, now) == Insert(CloseRow(x, id, now), Closing(s, id, now))
  {
    var h, tail := s[0], s[1..];
    var cx, ch, ct := CloseRow(x, id, now), CloseRow(s[0], id, now), Closing(s[1..], id, now);
    assert s == [h] + tail;
    InsertBehind(x, h, tail);
    ClosingCons(h, Insert(x, tail), id, now);
    ClosingCons(h, tail, id, now);
    InsertBehind(cx, ch, ct);
  }

  /** A row older than the head of a newest-first list goes behind it. */
  lemma InsertBehind(x: Row<Incident>, h: Row<Incident>, t: seq<Row<Incident>>)
    requires NewestFirst([h] + t) && NewestFirst(t) && x.value.createdAt < h.value.createdAt
    ensures Insert(x, [h] + t) == [h] + Insert(x, t)
  {
    assert ([h] + t)[0] == h && ([h] + t)[1..] == t;
  }

  lemma {:induction false} ClosingSort(s: seq<Row<Incident>>, id: Id, now: Time)
    ensures Closing(SortByNewest(s), id, now) == SortByNewest(Closing(s, id, now))
    decreases |s|
  {
    if s != [] {
      var c := Closing(s, id, now);
      ClosingSort(s[1..], id, now);
      ClosingInsert(s[0], SortByNewest(s[1..]), id, now);
      ClosingCons(s[0], s[1..], id, now);
      assert s == [s[0]] + s[1..];
      assert c[0] == CloseRow(s[0], id, now) && c[1..] == Closing(s[1..], id, now);
    }
  }

  /** When incident `id` was open, the open filter after the write is the
      open filter before it without that incident. */
  lemma {:induction false} ClosingOpen(s: seq<Row<Incident>>, id: Id, now: Time)
    requires forall x :: x in s && x.id == id ==> x.value.closedAt.None?
    ensures WithState(Closing(s, id, now), false) == Without(WithState(s, false), id)
    decreases |s|
  {
    if s != [] {
      var h, tail := s[0], s[1..];
      var c, ch := Closing(s, id, now), CloseRow(s[0], id, now);
      assert s == [h] + tail;
      assert forall x :: x in tail ==> x in s;
      ClosingOpen(tail, id, now);
      ClosingCons(h, tail, id, now);
      assert c[0] == ch && c[1..] == Closing(tail, id, now);
      var rest := WithState(tail, false);
      assert WithState(c, false) == (if ch.value.closedAt.None? then [ch] else []) + WithState(Closing(tail, id, now), false);
      if h.value.closedAt.None? {
        assert WithState(s, false) == [h] + rest;
        assert ([h] + rest)[0] == h && ([h] + rest)[1..] == rest;
        assert Without([h] + rest, id) == (if h.id == id then [] else [h]) + Without(rest, id);
      } else {
        assert h.id != id;
        assert WithState(s, false) == rest;
      }
    }
  }

  /** Removing the closed incident keeps the open list in step with the
      server: after the close route's write to an open incident, the
      listing route's open list is the old one without that incident. */
  lemma CloseInSync(incidents: map<Id, Incident>, org: Id, bound: nat, id: Id, now: Time)
    requires id in incidents && incidents[id].closedAt.None?
    ensures var after := incidents[id := incidents[id].(closedAt := Some(now))];
            Without(WithState(Listed(incidents, org, bound), false), id)
              == WithState(Listed(after, org, bound), false)
  {
    var after := incidents[id := incidents[id].(closedAt := Some(now))];
    var keep := OrgIncidentIds(incidents, org);
    assert OrgIncidentIds(after, org) == keep;
    var fetched := Select(incidents, keep, bound);
    ClosingSelect(incidents, keep, bound, id, now);
    ClosingSort(fetched, id, now);
    var sorted := SortByNewest(fetched);
    SelectExact(incidents, keep, bound);
    SameElements(sorted, fetched);
    forall x | x in sorted && x.id == id
      ensures x.value.closedAt.None?
    {
      assert Row(x.id, x.value) in fetched;
    }
    ClosingOpen(sorted, id, now);
  }

  /** The closed list is not kept in step: the page puts the route's
      answer in front of the closed list, whereas the listing route orders
      the closed list by creation time. So whenever the closed incident is
      older than one closed before, the page's closed list and the one the
      listing route now answers differ. */
  lemma CloseMayReorderPast(incidents: map<Id, Incident>, org: Id, bound: nat, id: Id, now: Time, earlier: Id)
    requires id in incidents && incidents[id].closedAt.None?
    requires earlier in incidents && earlier < bound && incidents[earlier].organizationId == org
    requires incidents[earlier].closedAt.Some? && incidents[id].createdAt < incidents[earlier].createdAt
    ensures var after := incidents[id := incidents[id].(closedAt := Some(now))];
            [Row(id, after[id])] + WithState(Listed(incidents, org, bound), true)
              != WithState(Listed(after, org, bound), true)
  {
    var after := incidents[id := incidents[id].(closedAt := Some(now))];
    var keep := OrgIncidentIds(after, org);
    var e := Row(earlier, after[earlier]);
    assert earlier != id && after[earlier] == incidents[earlier];
    SelectExact(after, keep, bound);
    var fetched := Select(after, keep, bound);
    assert e in fetched;
    var sorted := Listed(after, org, bound);
    SameElements(sorted, fetched);
    var closed := WithState(sorted, true);
    assert e in closed;
    WithStateNewestFirst(sorted, true);
    var page := [Row(id, after[id])] + WithState(Listed(incidents, org, bound), true);
    HeadIsNewest(closed);
    assert page[0].value.createdAt < closed[0].value.createdAt;
  }
}
