// The derived-record table: upserts by event id, tenant scoping, and the additive aggregates.
module Store {
  import opened Prelude

  const DEFAULT: string := "default"
  const UNATTRIBUTED: string := "(unattributed)"

  // One derived record, as far as the aggregates read it. A field is None where SQL would say NULL.
  datatype Row = Row(
    eventId: string, ts: real, tenant: Option<string>, actor: Option<string>, objectiveId: Option<string>,
    objectiveLabel: Option<string>, tool: Option<string>, model: Option<string>, provider: Option<string>,
    tier: Option<string>, workType: Option<string>,
    inputTokens: nat, outputTokens: nat, dupTokens: nat, cacheRead: nat, cacheCreation: nat, savedInput: nat,
    cost: real, priced: bool, retryLoop: bool, orphan: bool, fromCache: bool)

  type Rows = seq<Row>

  // The additive columns of totals, rollup and window_stats.
  datatype Measure = Calls | Tokens | Cost | DupTokens | CacheRead | CacheCreation | InputTokens | Retries
                   | Unpriced | SavedInput | CacheHits | OrphanTokens

  function Amount(r: Row, m: Measure): real {
    match m
    case Calls => 1.0
    case Tokens => (r.inputTokens + r.outputTokens) as real
    case Cost => r.cost
    case DupTokens => r.dupTokens as real
    case CacheRead => r.cacheRead as real
    case CacheCreation => r.cacheCreation as real
    case InputTokens => r.inputTokens as real
    case Retries => if r.retryLoop then 1.0 else 0.0
    case Unpriced => if r.priced then 0.0 else 1.0
    case SavedInput => r.savedInput as real
    case CacheHits => if r.fromCache then 1.0 else 0.0
    case OrphanTokens => if r.orphan then (r.inputTokens + r.outputTokens) as real else 0.0
  }

  // _tenant_pred: no tenant means org-wide, and "default" also owns the rows without one.
  predicate InScope(r: Row, scope: Option<string>) {
    match scope
    case None => true
    case Some(t) => if t == DEFAULT then r.tenant == Some(t) || r.tenant == None else r.tenant == Some(t)
  }

  function SumOf(rows: Rows, amount: Row -> real): real {
    if rows == [] then 0.0 else SumOf(rows[..|rows| - 1], amount) + amount(rows[|rows| - 1])
  }

  function Total(rows: Rows, scope: Option<string>, m: Measure): real {
    SumOf(rows, Scoped(scope, m))
  }

  // What a row adds to a total, to a line of a rollup, and to a time window.
  function Scoped(scope: Option<string>, m: Measure): Row -> real {
    (r: Row) => if InScope(r, scope) then Amount(r, m) else 0.0
  }

  function Labelled(scope: Option<string>, d: Dimension, line: string, m: Measure): Row -> real {
    (r: Row) => if InScope(r, scope) && LabelOf(r, d) == line then Amount(r, m) else 0.0
  }

  function Timed(scope: Option<string>, start: real, end: real, m: Measure): Row -> real {
    (r: Row) => if start <= r.ts < end && InScope(r, scope) then Amount(r, m) else 0.0
  }

  // COALESCE(tenant_id, 'default')
  function TenantOf(r: Row): string { if r.tenant.Some? then r.tenant.value else DEFAULT }

  function DistinctTenants(rows: Rows): set<string> { set r: Row | r in rows :: TenantOf(r) }

  datatype Dimension = ByObjective | ByTool | ByModel | ByProvider | ByTier | ByWorkType

  function LabelOf(r: Row, d: Dimension): string {
    var column := match d {
      case ByObjective => r.objectiveLabel
      case ByTool => r.tool
      case ByModel => r.model
      case ByProvider => r.provider
      case ByTier => r.tier
      case ByWorkType => r.workType
    };
    if column.Some? then column.value else UNATTRIBUTED
  }

  function Labels(rows: Rows, scope: Option<string>, d: Dimension): set<string> {
    set r: Row | r in rows && InScope(r, scope) :: LabelOf(r, d)
  }

  // One line of a rollup.
  function RollupLine(rows: Rows, scope: Option<string>, d: Dimension, line: string, m: Measure): real {
    SumOf(rows, Labelled(scope, d, line, m))
  }

  function Window(rows: Rows, scope: Option<string>, start: real, end: real, m: Measure): real {
    SumOf(rows, Timed(scope, start, end, m))
  }

  // ----- conservation -----

  // Two ways of adding up the same rows, when each row contributes the same to both.
  lemma {:induction false} SumOfSame(rows: Rows, f: Row -> real, g: Row -> real)
    requires forall i :: 0 <= i < |rows| ==> f(rows[i]) == g(rows[i])
    ensures SumOf(rows, f) == SumOf(rows, g)
  {
    if rows != [] { SumOfSame(rows[..|rows| - 1], f, g); }
  }

  lemma {:induction false} SumOfSplit(rows: Rows, f: Row -> real, g: Row -> real, h: Row -> real)
    requires forall i :: 0 <= i < |rows| ==> f(rows[i]) == g(rows[i]) + h(rows[i])
    ensures SumOf(rows, f) == SumOf(rows, g) + SumOf(rows, h)
  {
    if rows != [] { SumOfSplit(rows[..|rows| - 1], f, g, h); }
  }

  ghost function Part<L>(amount: Row -> real, tag: Row -> L, t: L): Row -> real {
    (r: Row) => if tag(r) == t then amount(r) else 0.0
  }

  // Adding a to one summand of a sum over a set.
  lemma SumSetBump<L>(s: set<L>, f: L -> real, g: L -> real, x: L, a: real)
    requires x in s && g(x) == f(x) + a && forall y :: y in s && y != x ==> g(y) == f(y)
    ensures SumSet(s, g) == SumSet(s, f) + a
  {
    SumSetPick(s, f, x);
    SumSetPick(s, g, x);
    SumSetSame(s - {x}, f, g);
  }

  lemma {:induction false} SumOfByTag<L>(rows: Rows, amount: Row -> real, tag: Row -> L, tags: set<L>)
    requires forall i :: 0 <= i < |rows| && amount(rows[i]) != 0.0 ==> tag(rows[i]) in tags
    ensures SumSet(tags, t => SumOf(rows, Part(amount, tag, t))) == SumOf(rows, amount)
  {
    var sums := (t: L) => SumOf(rows, Part(amount, tag, t));
    if rows == [] {
      SumSetSame(tags, sums, _ => 0.0);
      SumSetZero(tags);
    } else {
      var n := |rows| - 1;
      var r := rows[n];
      var before := (t: L) => SumOf(rows[..n], Part(amount, tag, t));
      SumOfByTag(rows[..n], amount, tag, tags);
      SumSetSame(tags, before, t => SumOf(rows[..n], Part(amount, tag, t)));
      if tag(r) in tags {
        SumSetBump(tags, before, sums, tag(r), amount(r));
      } else {
        SumSetSame(tags, before, sums);
      }
    }
    SumSetSame(tags, sums, t => SumOf(rows, Part(amount, tag, t)));
  }

  lemma TenantPart(rows: Rows, t: string, m: Measure)
    ensures Total(rows, Some(t), m) == SumOf(rows, Part(Scoped(None, m), TenantOf, t))
  {
    SumOfSame(rows, Scoped(Some(t), m), Part(Scoped(None, m), TenantOf, t));
  }

  // For every table, rows without a tenant included: each additive column summed over the distinct tenants
  // is the org-wide total.
  lemma TenantConservation(rows: Rows, m: Measure)
    ensures SumSet(DistinctTenants(rows), t => Total(rows, Some(t), m)) == Total(rows, None, m)
  {
    var tags := DistinctTenants(rows);
    SumOfByTag(rows, Scoped(None, m), TenantOf, tags);
    forall t ensures Total(rows, Some(t), m) == SumOf(rows, Part(Scoped(None, m), TenantOf, t)) {
      TenantPart(rows, t, m);
    }
    SumSetSame(tags, t => Total(rows, Some(t), m), t => SumOf(rows, Part(Scoped(None, m), TenantOf, t)));
  }

  function Labeller(d: Dimension): Row -> string { r => LabelOf(r, d) }

  lemma LabelPart(rows: Rows, scope: Option<string>, d: Dimension, line: string, m: Measure)
    ensures RollupLine(rows, scope, d, line, m) == SumOf(rows, Part(Scoped(scope, m), Labeller(d), line))
  {
    SumOfSame(rows, Labelled(scope, d, line, m), Part(Scoped(scope, m), Labeller(d), line));
  }

  // Each rollup, in any scope, sums to that scope's total.
  lemma RollupConservation(rows: Rows, scope: Option<string>, d: Dimension, m: Measure)
    ensures SumSet(Labels(rows, scope, d), l => RollupLine(rows, scope, d, l, m)) == Total(rows, scope, m)
  {
    var tags := Labels(rows, scope, d);
    SumOfByTag(rows, Scoped(scope, m), Labeller(d), tags);
    forall l ensures RollupLine(rows, scope, d, l, m) == SumOf(rows, Part(Scoped(scope, m), Labeller(d), l)) {
      LabelPart(rows, scope, d, l, m);
    }
    SumSetSame(tags, l => RollupLine(rows, scope, d, l, m), l => SumOf(rows, Part(Scoped(scope, m), Labeller(d), l)));
  }

  // Distinct actors are not additive: one developer in two tenants counts twice per tenant, once org-wide.
  function Actors(rows: Rows, scope: Option<string>): set<string> {
    set r: Row | r in rows && InScope(r, scope) && r.actor.Some? :: r.actor.value
  }

  lemma ActorsAreNotAdditive(r: Row, q: Row)
    requires r.actor.Some? && q.actor == r.actor && r.tenant == Some("a") && q.tenant == Some("b")
    ensures |Actors([r, q], None)| == 1 && |Actors([r, q], Some("a"))| + |Actors([r, q], Some("b"))| == 2
  {
    var rows := [r, q];
    assert r in rows && q in rows;
    assert Actors(rows, None) == {r.actor.value};
    assert Actors(rows, Some("a")) == {r.actor.value} && Actors(rows, Some("b")) == {r.actor.value};
  }

  function ActorsOf(rows: Rows): string -> set<string> { t => Actors(rows, Some(t)) }

  function Sizes(part: string -> set<string>): string -> real { t => |part(t)| as real }

  ghost function Together(tags: set<string>, part: string -> set<string>): set<string> {
    set t, a | t in tags && a in part(t) :: a
  }

  ghost predicate Disjoint(tags: set<string>, part: string -> set<string>) {
    forall t, u :: t in tags && u in tags && t != u ==> part(t) !! part(u)
  }

  // Counting by parts counts at least everyone, and no one twice exactly when the parts are disjoint.
  lemma {:induction false} PartsCount(tags: set<string>, part: string -> set<string>)
    ensures SumSet(tags, Sizes(part)) >= |Together(tags, part)| as real
    ensures SumSet(tags, Sizes(part)) == |Together(tags, part)| as real <==> Disjoint(tags, part)
    decreases tags
  {
    if tags == {} {
      assert Together(tags, part) == {};
    } else {
      var t :| t in tags;
      var rest := tags - {t};
      var before := Together(rest, part);
      SumSetPick(tags, Sizes(part), t);
      PartsCount(rest, part);
      assert Together(tags, part) == before + part(t);
      assert |before + part(t)| == |before| + |part(t)| - |before * part(t)|;
      DisjointStep(tags, part, t);
      assert |before * part(t)| == 0 <==> before * part(t) == {};
    }
  }

  lemma DisjointStep(tags: set<string>, part: string -> set<string>, t: string)
    requires t in tags
    ensures Disjoint(tags, part) <==> Disjoint(tags - {t}, part) && Together(tags - {t}, part) * part(t) == {}
  {
    var rest := tags - {t};
    if Disjoint(tags, part) {
      forall a | a in Together(rest, part) ensures a !in part(t) { var u :| u in rest && a in part(u); }
    }
    if Together(rest, part) * part(t) == {} {
      forall u, a | u in rest && a in part(u) ensures a !in part(t) {
        assert a in Together(rest, part);
        assert a !in Together(rest, part) * part(t);
      }
    }
  }

  predicate Attributed(rows: Rows, a: string, t: string) {
    exists i :: 0 <= i < |rows| && rows[i].actor == Some(a) && TenantOf(rows[i]) == t
  }

  lemma ActorIn(rows: Rows, a: string, t: string)
    ensures a in ActorsOf(rows)(t) <==> Attributed(rows, a, t)
    ensures Attributed(rows, a, t) ==> a in Actors(rows, None) && t in DistinctTenants(rows)
  {
  }

  lemma ActorSomewhere(rows: Rows, a: string) returns (t: string)
    requires a in Actors(rows, None)
    ensures Attributed(rows, a, t)
  {
    var r: Row :| r in rows && r.actor == Some(a);
    var i :| 0 <= i < |rows| && rows[i] == r;
    t := TenantOf(r);
  }

  // Summed over the tenants the distinct-actor column is at least the org-wide one, and equal to it exactly when
  // no developer has rows in two tenants.
  lemma ActorsAddUpIff(rows: Rows)
    ensures SumSet(DistinctTenants(rows), Sizes(ActorsOf(rows))) >= |Actors(rows, None)| as real
    ensures SumSet(DistinctTenants(rows), Sizes(ActorsOf(rows))) == |Actors(rows, None)| as real <==>
            forall a, t, u :: Attributed(rows, a, t) && Attributed(rows, a, u) ==> t == u
  {
    hide Actors, ActorsOf, Attributed, DistinctTenants, Sizes;
    var tags, part := DistinctTenants(rows), ActorsOf(rows);
    PartsCount(tags, part);
    forall a, t
      ensures a in part(t) <==> Attributed(rows, a, t)
      ensures Attributed(rows, a, t) ==> a in Actors(rows, None) && t in tags
    {
      ActorIn(rows, a, t);
    }
    forall a | a in Actors(rows, None) ensures a in Together(tags, part) { var t := ActorSomewhere(rows, a); }
    assert Together(tags, part) == Actors(rows, None);
    if Disjoint(tags, part) {
      forall a, t, u | Attributed(rows, a, t) && Attributed(rows, a, u) ensures t == u {
        assert a in part(t) * part(u);
      }
    }
    if forall a, t, u :: Attributed(rows, a, t) && Attributed(rows, a, u) ==> t == u {
      forall t, u | t in tags && u in tags && t != u ensures part(t) !! part(u) {
        forall a | a in part(t) ensures a !in part(u) { assert Attributed(rows, a, t); }
      }
    }
  }

  // ----- per-developer costs of one piece of work -----

  // The unclassified bucket is asked for as None or as "unknown" and holds both.
  predicate Unclassified(workType: Option<string>) { workType == None || workType == Some("unknown") }

  predicate InCell(r: Row, objective: string, workType: Option<string>, scope: Option<string>) {
    && r.objectiveId == Some(objective)
    && (if Unclassified(workType) then Unclassified(r.workType) else r.workType == workType)
    && InScope(r, scope)
  }

  function CellCost(objective: string, workType: Option<string>, scope: Option<string>): Row -> real {
    (r: Row) => if InCell(r, objective, workType, scope) then r.cost else 0.0
  }

  function ActorCost(objective: string, workType: Option<string>, scope: Option<string>, actor: Option<string>):
      Row -> real {
    (r: Row) => if r.actor == actor && InCell(r, objective, workType, scope) then r.cost else 0.0
  }

  // GROUP BY actor_pseudonym: the distinct actors, those without a pseudonym being one of them.
  function ActorList(rows: Rows): (l: seq<Option<string>>)
    ensures Distinct(l) && forall a :: a in l <==> exists i :: 0 <= i < |rows| && rows[i].actor == a
  {
    if rows == [] then []
    else
      var before := ActorList(rows[..|rows| - 1]);
      var a := rows[|rows| - 1].actor;
      if a in before then before else before + [a]
  }

  function CostList(rows: Rows, actors: seq<Option<string>>, objective: string, workType: Option<string>,
                    scope: Option<string>): seq<real> {
    if actors == [] then []
    else
      var c := SumOf(rows, ActorCost(objective, workType, scope, actors[0]));
      (if c != 0.0 then [c] else []) + CostList(rows, actors[1..], objective, workType, scope)
  }

  function ActorCostsFor(rows: Rows, objective: string, workType: Option<string>, scope: Option<string>): seq<real> {
    CostList(rows, ActorList(rows), objective, workType, scope)
  }

  lemma {:induction false} CostListSum(rows: Rows, actors: seq<Option<string>>, objective: string,
                                       workType: Option<string>, scope: Option<string>)
    requires Distinct(actors)
    ensures Sum(CostList(rows, actors, objective, workType, scope))
         == SumSet((set a | a in actors), a => SumOf(rows, ActorCost(objective, workType, scope, a)))
  {
    var all := set a | a in actors;
    var f := (a: Option<string>) => SumOf(rows, ActorCost(objective, workType, scope, a));
    if actors == [] {
      assert all == {};
    } else {
      CostListSum(rows, actors[1..], objective, workType, scope);
      assert actors == [actors[0]] + actors[1..];
      assert all - {actors[0]} == set a | a in actors[1..];
      SumSetPick(all, f, actors[0]);
      SumSetSame(all - {actors[0]}, f, a => SumOf(rows, ActorCost(objective, workType, scope, a)));
      var c := f(actors[0]);
      SumAppend(if c != 0.0 then [c] else [], CostList(rows, actors[1..], objective, workType, scope));
      assert Sum([c]) == c;
    }
    SumSetSame(all, f, a => SumOf(rows, ActorCost(objective, workType, scope, a)));
  }

  // The per-developer costs of a piece of work add up to what was spent on it.
  lemma ActorCostsAddUp(rows: Rows, objective: string, workType: Option<string>, scope: Option<string>)
    ensures Sum(ActorCostsFor(rows, objective, workType, scope)) == SumOf(rows, CellCost(objective, workType, scope))
  {
    var actors := ActorList(rows);
    var all := set a | a in actors;
    var cell, tag := CellCost(objective, workType, scope), (r: Row) => r.actor;
    CostListSum(rows, actors, objective, workType, scope);
    SumOfByTag(rows, cell, tag, all);
    forall a ensures SumOf(rows, ActorCost(objective, workType, scope, a)) == SumOf(rows, Part(cell, tag, a)) {
      SumOfSame(rows, ActorCost(objective, workType, scope, a), Part(cell, tag, a));
    }
    SumSetSame(all, a => SumOf(rows, ActorCost(objective, workType, scope, a)), a => SumOf(rows, Part(cell, tag, a)));
  }

  predicate NonNegativeCosts(rows: Rows) { forall i :: 0 <= i < |rows| ==> rows[i].cost >= 0.0 }

  lemma {:induction false} SumOfNonNegative(rows: Rows, f: Row -> real)
    requires forall i :: 0 <= i < |rows| ==> f(rows[i]) >= 0.0
    ensures SumOf(rows, f) >= 0.0
  {
    if rows != [] { SumOfNonNegative(rows[..|rows| - 1], f); }
  }

  predicate AllPositive(costs: seq<real>) { forall i :: 0 <= i < |costs| ==> costs[i] > 0.0 }

  lemma {:induction false} CostListPositive(rows: Rows, actors: seq<Option<string>>, objective: string,
                                            workType: Option<string>, scope: Option<string>)
    requires NonNegativeCosts(rows)
    ensures AllPositive(CostList(rows, actors, objective, workType, scope))
  {
    if actors != [] {
      CostListPositive(rows, actors[1..], objective, workType, scope);
      SumOfNonNegative(rows, ActorCost(objective, workType, scope, actors[0]));
    }
  }

  // ----- claiming rows that predate tenants -----

  function Claimed(rows: Rows, tenant: string): (r: Rows)
    ensures |r| == |rows|
  {
    seq(|rows|, i requires 0 <= i < |rows| =>
      if rows[i].tenant == None then rows[i].(tenant := Some(tenant)) else rows[i])
  }

  // What the rows without a tenant add up to.
  function Orphaned(m: Measure): Row -> real {
    (r: Row) => if r.tenant == None then Amount(r, m) else 0.0
  }

  lemma {:induction false} SumOfPointwise(rows: Rows, rows': Rows, f: Row -> real, g: Row -> real)
    requires |rows| == |rows'| && forall i :: 0 <= i < |rows| ==> f(rows[i]) == g(rows'[i])
    ensures SumOf(rows, f) == SumOf(rows', g)
  {
    if rows != [] { SumOfPointwise(rows[..|rows| - 1], rows'[..|rows| - 1], f, g); }
  }

  lemma ClaimKeeps(rows: Rows, tenant: string, scope: Option<string>, m: Measure)
    requires tenant != DEFAULT && scope != Some(tenant) && scope != Some(DEFAULT)
    ensures Total(Claimed(rows, tenant), scope, m) == Total(rows, scope, m)
  {
    SumOfPointwise(rows, Claimed(rows, tenant), Scoped(scope, m), Scoped(scope, m));
  }

  lemma ClaimInto(rows: Rows, tenant: string, m: Measure)
    requires tenant != DEFAULT
    ensures Total(Claimed(rows, tenant), Some(tenant), m) == Total(rows, Some(tenant), m) + SumOf(rows, Orphaned(m))
  {
    var own := Scoped(Some(tenant), m);
    var both := (r: Row) => own(r) + Orphaned(m)(r);
    SumOfPointwise(rows, Claimed(rows, tenant), both, own);
    SumOfSplit(rows, both, own, Orphaned(m));
  }

  lemma ClaimOutOf(rows: Rows, tenant: string, m: Measure)
    requires tenant != DEFAULT
    ensures Total(rows, Some(DEFAULT), m) == Total(Claimed(rows, tenant), Some(DEFAULT), m) + SumOf(rows, Orphaned(m))
  {
    var own := Scoped(Some(DEFAULT), m);
    var named := (r: Row) => if r.tenant == None then 0.0 else own(r);
    SumOfPointwise(rows, Claimed(rows, tenant), named, own);
    SumOfSplit(rows, own, named, Orphaned(m));
  }

  // Claiming for a named tenant moves exactly the rows without one: out of "default", into that tenant,
  // nothing else, and no org-wide total changes.
  lemma ClaimMovesExactlyTheOrphans(rows: Rows, tenant: string, m: Measure)
    requires tenant != DEFAULT
    ensures var rows' := Claimed(rows, tenant);
            var moved := SumOf(rows, Orphaned(m));
            && Total(rows', None, m) == Total(rows, None, m)
            && Total(rows', Some(tenant), m) == Total(rows, Some(tenant), m) + moved
            && Total(rows', Some(DEFAULT), m) == Total(rows, Some(DEFAULT), m) - moved
            && forall t :: t != tenant && t != DEFAULT ==> Total(rows', Some(t), m) == Total(rows, Some(t), m)
  {
    hide Total, Claimed, SumOf;
    ClaimKeeps(rows, tenant, None, m);
    ClaimInto(rows, tenant, m);
    ClaimOutOf(rows, tenant, m);
    forall t | t != tenant && t != DEFAULT
      ensures Total(Claimed(rows, tenant), Some(t), m) == Total(rows, Some(t), m)
    {
      ClaimKeeps(rows, tenant, Some(t), m);
    }
  }

  // ----- drift windows -----

  // time_bounds: the least and the greatest timestamp in scope, zero without rows.
  ghost predicate TimeBounds(rows: Rows, scope: Option<string>, lo: real, hi: real) {
    forall i :: 0 <= i < |rows| && InScope(rows[i], scope) ==> lo <= rows[i].ts <= hi
  }

  // The prior and the recent window partition the events in scope, wherever the split is put.
  lemma DriftWindowsPartition(rows: Rows, scope: Option<string>, lo: real, hi: real, split: real, m: Measure)
    requires TimeBounds(rows, scope, lo, hi)
    ensures Window(rows, scope, lo, split, m) + Window(rows, scope, split, hi + 1.0, m) == Total(rows, scope, m)
  {
    SumOfSplit(rows, Scoped(scope, m), Timed(scope, lo, split, m), Timed(scope, split, hi + 1.0, m));
  }

  // ----- the table as an object -----

  function OtherThan(id: string): Row -> bool { (q: Row) => q.eventId != id }

  function Upserted(rows: Rows, r: Row): Rows { Filter(rows, OtherThan(r.eventId)) + [r] }

  // Delivering a stored record again changes no aggregate, however many others came in between.
  lemma RedeliveryChangesNoTotal(rows: Rows, r: Row, scope: Option<string>, m: Measure)
    requires r in rows && UniqueIds(rows)
    ensures Total(Upserted(rows, r), scope, m) == Total(rows, scope, m)
  {
    var i :| 0 <= i < |rows| && rows[i] == r;
    var a, b, f := rows[..i], rows[i + 1..], Scoped(scope, m);
    assert rows == a + [r] + b;
    UpsertedMoves(a, r, b);
    SumOfAppend(a + [r], b, f);
    SumOfAppend(a, [r], f);
    SumOfAppend(a + b, [r], f);
    SumOfAppend(a, b, f);
  }

  lemma UpsertedMoves(a: Rows, r: Row, b: Rows)
    requires forall i :: 0 <= i < |a| ==> a[i].eventId != r.eventId
    requires forall i :: 0 <= i < |b| ==> b[i].eventId != r.eventId
    ensures Upserted(a + [r] + b, r) == a + b + [r]
  {
    var keep := OtherThan(r.eventId);
    FilterAppend(a + [r], b, keep);
    FilterAppend(a, [r], keep);
    FilterAll(a, keep);
    FilterAll(b, keep);
    assert Filter([r], keep) == [] && a + [] == a;
  }

  predicate UniqueIds(rows: Rows) {
    forall i, j :: 0 <= i < j < |rows| ==> rows[i].eventId != rows[j].eventId
  }

  lemma {:induction false} FilterAll(rows: Rows, keep: Row -> bool)
    requires forall i :: 0 <= i < |rows| ==> keep(rows[i])
    ensures Filter(rows, keep) == rows
  {
    if rows != [] {
      FilterAll(rows[1..], keep);
      assert rows == [rows[0]] + rows[1..];
    }
  }

  lemma {:induction false} SumOfAppend(rows: Rows, more: Rows, f: Row -> real)
    ensures SumOf(rows + more, f) == SumOf(rows, f) + SumOf(more, f)
  {
    if more == [] {
      assert rows + more == rows;
    } else {
      var n := |more| - 1;
      assert (rows + more)[..|rows| + n] == rows + more[..n];
      SumOfAppend(rows, more[..n], f);
    }
  }

  class DerivedStore {
    var rows: Rows

    ghost predicate Valid() reads this { UniqueIds(rows) }

    constructor () ensures Valid() && rows == [] { rows := []; }

    // INSERT OR REPLACE: the primary key is the event id.
    method Insert(r: Row)
      requires Valid()
      modifies this
      ensures Valid() && rows == Upserted(old(rows), r)
      ensures forall q :: q in rows <==> q == r || (q in old(rows) && q.eventId != r.eventId)
    {
      UpsertedUnique(rows, r);
      rows := Filter(rows, OtherThan(r.eventId)) + [r];
    }

    // Returns how many rows moved. "default" already owns the rows without a tenant.
    method ClaimNullTenant(tenant: string) returns (moved: nat)
      requires Valid()
      modifies this
      ensures Valid()
      ensures tenant == DEFAULT ==> moved == 0 && rows == old(rows)
      ensures tenant != DEFAULT ==>
                moved as real == SumOf(old(rows), Orphaned(Calls)) && rows == Claimed(old(rows), tenant)
      ensures |rows| == |old(rows)| && forall i :: 0 <= i < |rows| ==>
                rows[i] == if tenant != "default" && old(rows)[i].tenant == None
                           then old(rows)[i].(tenant := Some(tenant)) else old(rows)[i]
    {
      if tenant == DEFAULT { return 0; }
      moved := 0;
      for i := 0 to |rows|
        invariant moved as real == SumOf(rows[..i], Orphaned(Calls))
      {
        assert rows[..i + 1][..i] == rows[..i];
        if rows[i].tenant == None { moved := moved + 1; }
      }
      assert rows[..|rows|] == rows;
      rows := Claimed(rows, tenant);
    }
  }

  lemma UpsertedUnique(rows: Rows, r: Row)
    requires UniqueIds(rows)
    ensures UniqueIds(Upserted(rows, r))
  {
    FilterUnique(rows, OtherThan(r.eventId));
    forall j | 0 <= j < |Filter(rows, OtherThan(r.eventId))|
      ensures Filter(rows, OtherThan(r.eventId))[j].eventId != r.eventId
    {
      assert Filter(rows, OtherThan(r.eventId))[j] in Filter(rows, OtherThan(r.eventId));
    }
  }

  lemma {:induction false} FilterUnique(rows: Rows, keep: Row -> bool)
    requires UniqueIds(rows)
    ensures UniqueIds(Filter(rows, keep))
  {
    if rows != [] {
      FilterUnique(rows[1..], keep);
      forall j | 0 <= j < |Filter(rows[1..], keep)|
        ensures Filter(rows[1..], keep)[j].eventId != rows[0].eventId
      {
        assert Filter(rows[1..], keep)[j] in rows[1..];
      }
    }
  }
}
