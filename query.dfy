/** The one query shape the listing routes use: `findMany({ where })` on a
    table, keeping the rows whose key satisfies the filter. The database
    fixes no order without `orderBy`; the model returns rows in ascending
    key order, which is also the order they were created in. */
module Query {
  import opened Common
  import opened Db

  /** The rows of `m` whose key is in `keep` and below `bound`, in
      ascending key order. */
  function Select<V>(m: map<Id, V>, keep: set<Id>, bound: nat): (r: seq<Row<V>>)
    ensures forall k :: 0 <= k < |r| ==> r[k].id < bound && r[k].id in keep && r[k].id in m && r[k].value == m[r[k].id]
    ensures forall k, l :: 0 <= k < l < |r| ==> r[k].id < r[l].id
    decreases bound
  {
    if bound == 0 then []
    else
      var init := Select(m, keep, bound - 1);
      if bound - 1 in keep && bound - 1 in m then init + [Row(bound - 1, m[bound - 1])] else init
  }

  /** The keys of the services of organisation `org`. */
  function OrgServiceIds(services: map<Id, Service>, org: Id): set<Id>
  {
    set s | s in services && services[s].organizationId == org
  }

  /** The keys of the incidents of organisation `org`. */
  function OrgIncidentIds(incidents: map<Id, Incident>, org: Id): set<Id>
  {
    set i | i in incidents && incidents[i].organizationId == org
  }

  /** Nothing is missed: a row is selected iff its key passes the filter
      and lies below the bound. */
  lemma {:induction false} SelectExact<V>(m: map<Id, V>, keep: set<Id>, bound: nat)
    ensures forall i: Id, v :: Row(i, v) in Select(m, keep, bound) <==> i < bound && i in keep && i in m && m[i] == v
    decreases bound
  {
    if bound > 0 {
      SelectExact(m, keep, bound - 1);
    }
  }

  /** Two tables and filters that agree below the bound select the same rows. */
  lemma {:induction false} SelectAgree<V>(m: map<Id, V>, keep: set<Id>, m': map<Id, V>, keep': set<Id>, bound: nat)
    requires forall i :: i < bound ==> (i in m <==> i in m') && (i in keep <==> i in keep')
    requires forall i :: i < bound && i in m ==> m[i] == m'[i]
    ensures Select(m, keep, bound) == Select(m', keep', bound)
    decreases bound
  {
    if bound > 0 {
      SelectAgree(m, keep, m', keep', bound - 1);
    }
  }

  /** A row inserted at a fresh key above every other is selected last. */
  lemma SelectAppend<V>(m: map<Id, V>, keep: set<Id>, n: Id, v: V)
    requires KeysBelow(m.Keys, n)
    ensures Select(m[n := v], keep + {n}, n + 1) == Select(m, keep, n) + [Row(n, v)]
  {
    SelectAgree(m, keep, m[n := v], keep + {n}, n);
  }
}
