// What one row means to the columns of the derived table, whose rows a tenant's figures are taken from, and whose
// costs the reuse ledger is given.
module StoreColumns {
  import opened Prelude
  import opened Store

  // Rows that predate tenants belong to "default"; without a tenant everything is asked for.
  predicate Wanted(r: Row, scope: Option<string>) {
    scope == None || r.tenant == scope || (r.tenant == None && scope == Some("default"))
  }

  // A table of one row shows the row's own figures, in every column, to those who may see it.
  lemma OneRow(r: Row, scope: Option<string>)
    ensures !Wanted(r, scope) ==> forall m :: Total([r], scope, m) == 0.0
    ensures Wanted(r, scope) ==>
              && Total([r], scope, Calls) == 1.0
              && Total([r], scope, Tokens) == r.inputTokens as real + r.outputTokens as real
              && Total([r], scope, Cost) == r.cost
              && Total([r], scope, DupTokens) == r.dupTokens as real
              && Total([r], scope, CacheRead) == r.cacheRead as real
              && Total([r], scope, CacheCreation) == r.cacheCreation as real
              && Total([r], scope, InputTokens) == r.inputTokens as real
              && Total([r], scope, Retries) == (if r.retryLoop then 1.0 else 0.0)
              && Total([r], scope, Unpriced) == (if r.priced then 0.0 else 1.0)
              && Total([r], scope, SavedInput) == r.savedInput as real
              && Total([r], scope, CacheHits) == (if r.fromCache then 1.0 else 0.0)
              && Total([r], scope, OrphanTokens)
                 == (if r.orphan then r.inputTokens as real + r.outputTokens as real else 0.0)
  {
    hide SumOf;
    forall m ensures Total([r], scope, m) == Scoped(scope, m)(r) { SumOfOne(r, Scoped(scope, m)); }
  }

  // A missing label shows as "(unattributed)".
  predicate Labels(column: Option<string>, line: string) {
    column == Some(line) || (column == None && line == "(unattributed)")
  }

  // A row shows on the line of its own label, of each dimension.
  lemma OneRowLines(r: Row, line: string, m: Measure)
    ensures var shown := (d: Dimension) => RollupLine([r], None, d, line, m);
            var amount := Total([r], None, m);
            && shown(ByObjective) == (if Labels(r.objectiveLabel, line) then amount else 0.0)
            && shown(ByTool) == (if Labels(r.tool, line) then amount else 0.0)
            && shown(ByModel) == (if Labels(r.model, line) then amount else 0.0)
            && shown(ByProvider) == (if Labels(r.provider, line) then amount else 0.0)
            && shown(ByTier) == (if Labels(r.tier, line) then amount else 0.0)
            && shown(ByWorkType) == (if Labels(r.workType, line) then amount else 0.0)
  {
    hide SumOf, Amount;
    SumOfOne(r, Scoped(None, m));
    forall d ensures RollupLine([r], None, d, line, m) == Labelled(None, d, line, m)(r) {
      SumOfOne(r, Labelled(None, d, line, m));
    }
  }

  lemma SumOfOne(r: Row, f: Row -> real)
    ensures SumOf([r], f) == f(r)
  {
    assert [r][..0] == [];
  }

  // Inserting a record adds its figures to every column, and takes away those of the row it replaces, if any.
  lemma InsertAdds(rows: Rows, r: Row, scope: Option<string>, m: Measure)
    requires UniqueIds(rows)
    ensures (forall q :: q in rows ==> q.eventId != r.eventId) ==>
              Total(Upserted(rows, r), scope, m) == Total(rows, scope, m) + Total([r], scope, m)
    ensures forall was :: was in rows && was.eventId == r.eventId ==>
              Total(Upserted(rows, r), scope, m)
              == Total(rows, scope, m) - Total([was], scope, m) + Total([r], scope, m)
  {
    hide Total, Upserted;
    if forall q :: q in rows ==> q.eventId != r.eventId { FreshAdds(rows, r, scope, m); }
    forall was | was in rows && was.eventId == r.eventId
      ensures Total(Upserted(rows, r), scope, m)
           == Total(rows, scope, m) - Total([was], scope, m) + Total([r], scope, m)
    {
      ReplacedAdds(rows, was, r, scope, m);
    }
  }

  lemma FreshAdds(rows: Rows, r: Row, scope: Option<string>, m: Measure)
    requires forall q :: q in rows ==> q.eventId != r.eventId
    ensures Total(Upserted(rows, r), scope, m) == Total(rows, scope, m) + Total([r], scope, m)
  {
    hide SumOf, Scoped, Filter;
    FilterAll(rows, OtherThan(r.eventId));
    SumOfAppend(rows, [r], Scoped(scope, m));
  }

  lemma ReplacedAdds(rows: Rows, was: Row, r: Row, scope: Option<string>, m: Measure)
    requires UniqueIds(rows) && was in rows && was.eventId == r.eventId
    ensures Total(Upserted(rows, r), scope, m) == Total(rows, scope, m) - Total([was], scope, m) + Total([r], scope, m)
  {
    hide SumOf, Scoped, Filter;
    var f := Scoped(scope, m);
    var i :| 0 <= i < |rows| && rows[i] == was;
    var a, b := rows[..i], rows[i + 1..];
    assert rows == a + [was] + b;
    WithoutOne(a, was, b);
    SumOfAppend(a + [was], b, f);
    SumOfAppend(a, [was], f);
    SumOfAppend(a + b, [r], f);
    SumOfAppend(a, b, f);
  }

  lemma WithoutOne(a: Rows, r: Row, b: Rows)
    requires forall i :: 0 <= i < |a| ==> a[i].eventId != r.eventId
    requires forall i :: 0 <= i < |b| ==> b[i].eventId != r.eventId
    ensures Filter(a + [r] + b, OtherThan(r.eventId)) == a + b
  {
    var keep := OtherThan(r.eventId);
    FilterAppend(a + [r], b, keep);
    FilterAppend(a, [r], keep);
    FilterAll(a, keep);
    FilterAll(b, keep);
    assert Filter([r], keep) == [] && a + [] == a;
  }

  // ----- a tenant's figures -----

  function OwnedBy(t: string): Row -> bool { (r: Row) => r.tenant == Some(t) || (r.tenant == None && t == "default") }

  function Own(rows: Rows, t: string): Rows { Filter(rows, OwnedBy(t)) }

  lemma {:induction false} SumOfOwn(rows: Rows, t: string, f: Row -> real, g: Row -> real)
    requires forall r :: r in rows ==> f(r) == if OwnedBy(t)(r) then g(r) else 0.0
    ensures SumOf(rows, f) == SumOf(Own(rows, t), g)
  {
    if rows != [] {
      var n := |rows| - 1;
      assert rows[n] in rows && forall r :: r in rows[..n] ==> r in rows;
      SumOfOwn(rows[..n], t, f, g);
      FilterLast(rows, OwnedBy(t));
      if OwnedBy(t)(rows[n]) {
        var own := Own(rows[..n], t) + [rows[n]];
        assert own[..|own| - 1] == Own(rows[..n], t);
      } else {
        assert Own(rows, t) == Own(rows[..n], t);
      }
    }
  }

  // Everything a named tenant is shown is what a table of its own rows alone would show: totals, lines of a rollup,
  // windows, distinct developers and what a developer spent on a piece of work.
  lemma TenantsSeeTheirOwnRows(rows: Rows, t: string)
    ensures forall m :: Total(rows, Some(t), m) == Total(Own(rows, t), None, m)
    ensures forall d, line, m :: RollupLine(rows, Some(t), d, line, m) == RollupLine(Own(rows, t), None, d, line, m)
    ensures forall start, end, m :: Window(rows, Some(t), start, end, m) == Window(Own(rows, t), None, start, end, m)
    ensures Actors(rows, Some(t)) == Actors(Own(rows, t), None)
    ensures forall o, w, a ::
              SumOf(rows, ActorCost(o, w, Some(t), a)) == SumOf(Own(rows, t), ActorCost(o, w, None, a))
  {
    hide Amount, Filter, LabelOf;
    forall m ensures Total(rows, Some(t), m) == Total(Own(rows, t), None, m) {
      SumOfOwn(rows, t, Scoped(Some(t), m), Scoped(None, m));
    }
    forall d, line, m ensures RollupLine(rows, Some(t), d, line, m) == RollupLine(Own(rows, t), None, d, line, m) {
      SumOfOwn(rows, t, Labelled(Some(t), d, line, m), Labelled(None, d, line, m));
    }
    forall start, end, m ensures Window(rows, Some(t), start, end, m) == Window(Own(rows, t), None, start, end, m) {
      SumOfOwn(rows, t, Timed(Some(t), start, end, m), Timed(None, start, end, m));
    }
    forall o, w, a ensures SumOf(rows, ActorCost(o, w, Some(t), a)) == SumOf(Own(rows, t), ActorCost(o, w, None, a)) {
      SumOfOwn(rows, t, ActorCost(o, w, Some(t), a), ActorCost(o, w, None, a));
    }
  }

  // ----- the developers behind a piece of work -----

  // A developer's spending on one objective and work type; no work type and "unknown" are the same.
  function Spending(objective: string, workType: Option<string>, scope: Option<string>, actor: Option<string>):
      Row -> real {
    (r: Row) =>
      if r.actor == actor && r.objectiveId == Some(objective) && Wanted(r, scope)
         && (r.workType == workType || (r.workType in {None, Some("unknown")} && workType in {None, Some("unknown")}))
      then r.cost else 0.0
  }

  lemma {:induction false} ListedCosts(rows: Rows, actors: seq<Option<string>>, objective: string,
                                       workType: Option<string>, scope: Option<string>)
    returns (who: seq<Option<string>>)
    requires Distinct(actors)
    ensures Distinct(who) && forall a :: a in who ==> a in actors
    ensures forall a :: a in who <==> a in actors && SumOf(rows, Spending(objective, workType, scope, a)) != 0.0
    ensures var costs := CostList(rows, actors, objective, workType, scope);
            |costs| == |who|
            && forall i :: 0 <= i < |who| ==> costs[i] == SumOf(rows, Spending(objective, workType, scope, who[i]))
  {
    hide SumOf;
    if actors == [] {
      who := [];
    } else {
      assert actors == [actors[0]] + actors[1..];
      var rest := ListedCosts(rows, actors[1..], objective, workType, scope);
      SpendingIs(rows, objective, workType, scope, actors[0]);
      assert actors[0] !in actors[1..];
      var spent := SumOf(rows, Spending(objective, workType, scope, actors[0]));
      who := (if spent != 0.0 then [actors[0]] else []) + rest;
      assert CostList(rows, actors, objective, workType, scope)
          == (if spent != 0.0 then [spent] else []) + CostList(rows, actors[1..], objective, workType, scope);
    }
  }

  lemma SpendingIs(rows: Rows, objective: string, workType: Option<string>, scope: Option<string>, a: Option<string>)
    ensures SumOf(rows, ActorCost(objective, workType, scope, a))
         == SumOf(rows, Spending(objective, workType, scope, a))
  {
    SumOfSame(rows, ActorCost(objective, workType, scope, a), Spending(objective, workType, scope, a));
  }

  // The ledger is given one cost for each developer who spent anything on the work, and it is what they spent.
  lemma OneCostPerDeveloper(rows: Rows, objective: string, workType: Option<string>, scope: Option<string>)
    returns (who: seq<Option<string>>)
    ensures Distinct(who)
    ensures forall a :: a in who <==> SumOf(rows, Spending(objective, workType, scope, a)) != 0.0
    ensures var costs := ActorCostsFor(rows, objective, workType, scope);
            |costs| == |who|
            && forall i :: 0 <= i < |who| ==> costs[i] == SumOf(rows, Spending(objective, workType, scope, who[i]))
  {
    hide SumOf;
    who := ListedCosts(rows, ActorList(rows), objective, workType, scope);
    forall a | a !in ActorList(rows) ensures SumOf(rows, Spending(objective, workType, scope, a)) == 0.0 {
      NoRowsNoSpending(rows, Spending(objective, workType, scope, a));
    }
  }

  lemma {:induction false} NoRowsNoSpending(rows: Rows, f: Row -> real)
    requires forall i :: 0 <= i < |rows| ==> f(rows[i]) == 0.0
    ensures SumOf(rows, f) == 0.0
  {
    if rows != [] { NoRowsNoSpending(rows[..|rows| - 1], f); }
  }
}
