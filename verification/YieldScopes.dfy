// Whose savings a ledger report shows: a named tenant's own and no one else's, and all of them add up.
module YieldScopes {
  import opened Prelude
  import Ledger
  import Store
  import DedupKey
  import opened Yield

  // The row belongs to the tenant; rows that predate tenants belong to "default".
  predicate Owned(f: Ledger.Facts, t: string) { f.tenant == Some(t) || (f.tenant == None && t == "default") }

  function OwnerOf(f: Ledger.Facts): string { if f.tenant.Some? then f.tenant.value else "default" }

  function ReportFor(v: View, tenant: Option<string>): map<Cluster, Group> { Grouped(v, KeysFor(v, tenant)) }

  // A row of this tenant about this work.
  predicate About(f: Ledger.Facts, t: string, objective: string, workType: string) {
    Owned(f, t) && f.objective == objective && f.workType == workType
  }

  // A tenant's report has one cluster for each work its own rows are about, with the people of exactly those rows,
  // solved if and only if one of them is.
  lemma ReportReadsOwnRows(v: View, t: string, c: Cluster)
    ensures var g := ReportFor(v, Some(t));
            && (c in g <==> c.scope == t && exists k :: k in v && About(v[k], t, c.objective, c.workType))
            && (c in g ==>
                  && (forall p :: p in g[c].actors <==>
                        exists k :: k in v && About(v[k], t, c.objective, c.workType) && p in DedupKey.People(k))
                  && (g[c].solved <==>
                        exists k :: k in v && About(v[k], t, c.objective, c.workType) && v[k].mode == Ledger.Solved))
  {
    hide DedupKey.People;
    var keys := KeysFor(v, Some(t));
    forall k | k in v
      ensures k in Members(v, keys, c) <==> c.scope == t && About(v[k], t, c.objective, c.workType)
    {
      assert ClusterOf(v[k]) == Cluster(OwnerOf(v[k]), v[k].objective, v[k].workType);
    }
  }

  // The org-wide report has the same clusters, each under its owner.
  lemma ReportsAreParts(v: View, t: string, c: Cluster)
    ensures var all, own := ReportFor(v, None), ReportFor(v, Some(t));
            && (c in own <==> c in all && c.scope == t)
            && (c in own ==> own[c] == all[c])
  {
    hide DedupKey.People;
    var all, own := KeysFor(v, None), KeysFor(v, Some(t));
    if c.scope == t { assert Members(v, all, c) == Members(v, own, c); }
    forall k | k in own ensures ClusterOf(v[k]).scope == t {}
  }

  // What other tenants have in the ledger does not show: two ledgers that agree on a tenant's own rows give it the
  // same report.
  lemma TenantsDoNotInterfere(v: View, v': View, t: string)
    requires forall k :: k in v && Owned(v[k], t) ==> k in v' && v'[k] == v[k]
    requires forall k :: k in v' && Owned(v'[k], t) ==> k in v && v[k] == v'[k]
    ensures ReportFor(v, Some(t)) == ReportFor(v', Some(t))
  {
    var g, g' := ReportFor(v, Some(t)), ReportFor(v', Some(t));
    forall c ensures c in g <==> c in g' ensures c in g ==> g[c] == g'[c] { SameCluster(v, v', t, c); }
  }

  lemma SameCluster(v: View, v': View, t: string, c: Cluster)
    requires forall k :: k in v && Owned(v[k], t) ==> k in v' && v'[k] == v[k]
    requires forall k :: k in v' && Owned(v'[k], t) ==> k in v && v[k] == v'[k]
    ensures var g, g' := ReportFor(v, Some(t)), ReportFor(v', Some(t));
            (c in g <==> c in g') && (c in g ==> g[c] == g'[c])
  {
    hide ReportFor, DedupKey.People;
    ReportReadsOwnRows(v, t, c);
    ReportReadsOwnRows(v', t, c);
    var g, g' := ReportFor(v, Some(t)), ReportFor(v', Some(t));
    if c in g { assert g[c].actors == g'[c].actors; }
  }

  // ----- the reports of all tenants together -----

  function Owners(v: View): set<string> { set k | k in v :: OwnerOf(v[k]) }

  function ScopeOf(c: Cluster): string { c.scope }

  lemma OwnClusters(v: View, t: string)
    ensures ReportFor(v, Some(t)).Keys == Prelude.Group(ReportFor(v, None).Keys, ScopeOf, t)
  {
    hide ReportFor;
    forall c ensures c in ReportFor(v, Some(t)) <==> c in ReportFor(v, None) && c.scope == t {
      ReportsAreParts(v, t, c);
    }
  }

  lemma ScopesAreOwners(v: View)
    ensures forall c :: c in ReportFor(v, None) ==> ScopeOf(c) in Owners(v)
  {
    hide DedupKey.People;
  }

  // A figure taken per tenant over the tenant's own clusters adds up to the figure over all of them.
  lemma FigureAddsUp(v: View, figure: Cluster -> real, perTenant: string -> real)
    requires forall t :: perTenant(t) == SumSet(ReportFor(v, Some(t)).Keys, figure)
    ensures SumSet(Owners(v), perTenant) == SumSet(ReportFor(v, None).Keys, figure)
  {
    hide ReportFor, Owners;
    var keys := ReportFor(v, None).Keys;
    ScopesAreOwners(v);
    SumSetByTag(keys, figure, ScopeOf, Owners(v));
    forall t ensures perTenant(t) == SumSet(Prelude.Group(keys, ScopeOf, t), figure) { OwnClusters(v, t); }
    SumSetSame(Owners(v), perTenant, t => SumSet(Prelude.Group(keys, ScopeOf, t), figure));
  }

  // The amount, and the number of re-solves credited, in a tenant's report.
  ghost function AmountFor(v: View, derived: Store.Rows, k: nat): string -> real {
    t => TotalOf(derived, ReportFor(v, Some(t)), k)
  }

  ghost function SolvesFor(v: View, derived: Store.Rows, k: nat): string -> real {
    t => SumSet(ReportFor(v, Some(t)).Keys, Solves(derived, ReportFor(v, Some(t)), k))
  }

  // Summed over the distinct tenants of the ledger, both are the org-wide ones.
  lemma TenantsAddUp(v: View, derived: Store.Rows, k: nat)
    ensures SumSet(Owners(v), AmountFor(v, derived, k)) == TotalOf(derived, ReportFor(v, None), k)
    ensures SumSet(Owners(v), SolvesFor(v, derived, k))
         == SumSet(ReportFor(v, None).Keys, Solves(derived, ReportFor(v, None), k))
  {
    hide ReportFor, Owners, Value, Credited;
    var all := ReportFor(v, None);
    forall t
      ensures AmountFor(v, derived, k)(t) == SumSet(ReportFor(v, Some(t)).Keys, Worth(derived, all, k))
      ensures SolvesFor(v, derived, k)(t) == SumSet(ReportFor(v, Some(t)).Keys, Solves(derived, all, k))
    {
      var own := ReportFor(v, Some(t));
      forall c | c in own
        ensures Worth(derived, own, k)(c) == Worth(derived, all, k)(c)
        ensures Solves(derived, own, k)(c) == Solves(derived, all, k)(c)
      {
        ReportsAreParts(v, t, c);
      }
      SumSetSame(own.Keys, Worth(derived, own, k), Worth(derived, all, k));
      SumSetSame(own.Keys, Solves(derived, own, k), Solves(derived, all, k));
    }
    FigureAddsUp(v, Worth(derived, all, k), AmountFor(v, derived, k));
    FigureAddsUp(v, Solves(derived, all, k), SolvesFor(v, derived, k));
  }
}
