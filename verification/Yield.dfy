// The ledger's report: clusters of opportunities, the n - 1 credit rule, and the k-gate.
module Yield {
  import opened Prelude
  import opened DedupKey
  import opened Ledger
  import Store
  import CostToSolve
  import opened CreditRule

  type View = map<string, Facts>

  predicate Asked(f: Facts, tenant: Option<string>) {
    match tenant
    case None => true
    case Some(t) => if t == Store.DEFAULT then f.tenant == Some(t) || f.tenant == None else f.tenant == Some(t)
  }

  function KeysFor(v: View, tenant: Option<string>): set<string> { set k | k in v && Asked(v[k], tenant) }

  datatype Cluster = Cluster(scope: string, objective: string, workType: string)

  function ClusterOf(f: Facts): Cluster {
    Cluster(if f.tenant.Some? then f.tenant.value else Store.DEFAULT, f.objective, f.workType)
  }

  // What the first loop of summary collects for one cluster.
  datatype Group = Group(actors: set<string>, solved: bool)

  function Members(v: View, keys: set<string>, c: Cluster): set<string> {
    set k | k in keys && k in v && ClusterOf(v[k]) == c
  }

  function Actors(v: View, keys: set<string>, c: Cluster): set<string> {
    set k, p | k in Members(v, keys, c) && p in People(k) :: p
  }

  predicate AnySolved(v: View, keys: set<string>, c: Cluster) {
    exists k :: k in Members(v, keys, c) && v[k].mode == Solved
  }

  function Clusters(v: View, keys: set<string>): set<Cluster> { set k | k in keys && k in v :: ClusterOf(v[k]) }

  function Grouped(v: View, keys: set<string>): map<Cluster, Group> {
    map c | c in Clusters(v, keys) :: Group(Actors(v, keys, c), AnySolved(v, keys, c))
  }

  // ----- value -----

  // The first solver pays; every later participant avoids one re-solve.
  function Avoided(g: Group): nat { if g.actors == {} then 0 else |g.actors| - 1 }

  function CostsOf(derived: Store.Rows, c: Cluster): seq<real> {
    Store.ActorCostsFor(derived, c.objective, Some(c.workType), Some(c.scope))
  }

  function EstimateAvoided(costs: seq<real>, solved: bool): real {
    Round6(CostToSolve.CostToSolve(costs) * (if solved then 1.0 else 0.5))
  }

  function Saving(costs: seq<real>, g: Group): real {
    EstimateAvoided(costs, g.solved) * Avoided(g) as real
  }

  predicate Credited(derived: Store.Rows, c: Cluster, g: Group, k: nat) {
    |CostsOf(derived, c)| >= k && Avoided(g) > 0
  }

  function Value(derived: Store.Rows, c: Cluster, g: Group, k: nat): real {
    if Credited(derived, c, g, k) then Saving(CostsOf(derived, c), g) else 0.0
  }

  function Worth(derived: Store.Rows, groups: map<Cluster, Group>, k: nat): Cluster -> real {
    (c: Cluster) => if c in groups then Value(derived, c, groups[c], k) else 0.0
  }

  function Solves(derived: Store.Rows, groups: map<Cluster, Group>, k: nat): Cluster -> real {
    (c: Cluster) => if c in groups && Credited(derived, c, groups[c], k) then Avoided(groups[c]) as real else 0.0
  }

  function Suppressed(derived: Store.Rows, groups: map<Cluster, Group>, k: nat): set<Cluster> {
    set c | c in groups && !Credited(derived, c, groups[c], k)
  }

  ghost function TotalOf(derived: Store.Rows, groups: map<Cluster, Group>, k: nat): real {
    SumSet(groups.Keys, Worth(derived, groups, k))
  }

  function WorkTypeOf(c: Cluster): string { c.workType }

  ghost function WorkTypeTotal(derived: Store.Rows, groups: map<Cluster, Group>, k: nat, wt: string): real {
    SumSet(Prelude.Group(groups.Keys, WorkTypeOf, wt), Worth(derived, groups, k))
  }

  // ----- the report, as the source computes it -----

  method Collect(v: View, keys: set<string>) returns (groups: map<Cluster, Group>)
    requires keys <= v.Keys
    ensures groups == Grouped(v, keys)
  {
    groups := map[];
    var todo := keys;
    assert Grouped(v, {}) == map[];
    while todo != {}
      invariant todo <= keys
      invariant groups == Grouped(v, keys - todo)
      decreases todo
    {
      var k :| k in todo;
      var c := ClusterOf(v[k]);
      var g := if c in groups then groups[c] else Group({}, false);
      AddOne(v, keys - todo, k);
      groups := groups[c := Group(g.actors + People(k), g.solved || v[k].mode == Solved)];
      assert keys - (todo - {k}) == (keys - todo) + {k};
      todo := todo - {k};
    }
    assert keys - todo == keys;
  }

  lemma AddOne(v: View, keys: set<string>, k: string)
    requires k in v && keys <= v.Keys
    ensures var c := ClusterOf(v[k]);
            var before := Grouped(v, keys);
            var g := if c in before then before[c] else Group({}, false);
            Grouped(v, keys + {k}) == before[c := Group(g.actors + People(k), g.solved || v[k].mode == Solved)]
  {
    hide People;
    var c := ClusterOf(v[k]);
    var keys' := keys + {k};
    assert Members(v, keys', c) == Members(v, keys, c) + {k};
    assert Actors(v, keys', c) == Actors(v, keys, c) + People(k);
    assert AnySolved(v, keys', c) <==> AnySolved(v, keys, c) || v[k].mode == Solved;
    if c !in Clusters(v, keys) {
      assert Members(v, keys, c) == {};
      assert Actors(v, keys, c) == {} && !AnySolved(v, keys, c);
    }
    assert Clusters(v, keys') == Clusters(v, keys) + {c};
    forall d | d != c
      ensures d in Clusters(v, keys') <==> d in Clusters(v, keys)
      ensures Actors(v, keys', d) == Actors(v, keys, d) && (AnySolved(v, keys', d) <==> AnySolved(v, keys, d))
    {
      assert Members(v, keys', d) == Members(v, keys, d);
    }
  }

  // sums[w] = sums.get(w, 0.0) + x
  function Plus(sums: map<string, real>, w: string, x: real): map<string, real> {
    sums[w := (if w in sums then sums[w] else 0.0) + x]
  }

  // The credited clusters among done, by work type.
  ghost predicate ByWorkType(byWorkType: map<string, real>, derived: Store.Rows, groups: map<Cluster, Group>, k: nat,
                             done: set<Cluster>) {
    var worth := Worth(derived, groups, k);
    && (forall w :: w in byWorkType <==> exists c :: c in done - Suppressed(derived, groups, k) && c.workType == w)
    && (forall w :: w in byWorkType ==> byWorkType[w] == SumSet(Prelude.Group(done, WorkTypeOf, w), worth))
  }

  lemma GroupAdd(done: set<Cluster>, c: Cluster, w: string)
    ensures Prelude.Group(done + {c}, WorkTypeOf, w)
         == Prelude.Group(done, WorkTypeOf, w) + if c.workType == w then {c} else {}
  {
  }

  lemma SuppressedAdd(sums: map<string, real>, derived: Store.Rows, groups: map<Cluster, Group>, k: nat,
                      done: set<Cluster>, c: Cluster)
    requires c in Suppressed(derived, groups, k) && c !in done && ByWorkType(sums, derived, groups, k, done)
    ensures ByWorkType(sums, derived, groups, k, done + {c})
  {
    hide CostsOf, Saving;
    var worth := Worth(derived, groups, k);
    forall w | w in sums ensures sums[w] == SumSet(Prelude.Group(done + {c}, WorkTypeOf, w), worth) {
      GroupAdd(done, c, w);
      if c.workType == w {
        SumSetAdd(Prelude.Group(done, WorkTypeOf, w), worth, c);
      } else {
        assert Prelude.Group(done, WorkTypeOf, w) + {} == Prelude.Group(done, WorkTypeOf, w);
      }
    }
  }

  // A work type no credited cluster has yet sums to nothing.
  lemma {:induction false} NothingYet(derived: Store.Rows, groups: map<Cluster, Group>, k: nat, s: set<Cluster>)
    requires s <= Suppressed(derived, groups, k)
    ensures SumSet(s, Worth(derived, groups, k)) == 0.0
  {
    SumSetSame(s, Worth(derived, groups, k), _ => 0.0);
    SumSetZero(s);
  }

  lemma CreditedAdd(sums: map<string, real>, derived: Store.Rows, groups: map<Cluster, Group>, k: nat,
                    done: set<Cluster>, c: Cluster)
    requires c in groups && c !in Suppressed(derived, groups, k) && c !in done && done <= groups.Keys
    requires ByWorkType(sums, derived, groups, k, done)
    ensures ByWorkType(Plus(sums, c.workType, Worth(derived, groups, k)(c)), derived, groups, k, done + {c})
  {
    hide Worth, CostsOf, Saving, Credited;
    var worth := Worth(derived, groups, k);
    var wt := c.workType;
    var here := Prelude.Group(done, WorkTypeOf, wt);
    if wt !in sums {
      assert here <= Suppressed(derived, groups, k);
      NothingYet(derived, groups, k, here);
    }
    GroupAdd(done, c, wt);
    SumSetAdd(here, worth, c);
    var sums' := Plus(sums, wt, worth(c));
    forall w | w in sums' && w != wt ensures sums'[w] == SumSet(Prelude.Group(done + {c}, WorkTypeOf, w), worth) {
      GroupAdd(done, c, w);
      assert Prelude.Group(done, WorkTypeOf, w) + {} == Prelude.Group(done, WorkTypeOf, w);
    }
  }

  // The figures summary returns, before the last rounding to cents.
  datatype Report = Report(total: real, byWorkType: map<string, real>, credited: nat, suppressed: nat)

  // One round of the second loop of summary.
  function Count(r: Report, derived: Store.Rows, groups: map<Cluster, Group>, k: nat, c: Cluster): Report
    requires c in groups
  {
    var costs, avoided := CostsOf(derived, c), Avoided(groups[c]);
    if |costs| < k || avoided == 0 then r.(suppressed := r.suppressed + 1)
    else
      var value := Saving(costs, groups[c]);
      Report(r.total + value, Plus(r.byWorkType, c.workType, value), r.credited + avoided, r.suppressed)
  }

  ghost predicate Tallied(r: Report, derived: Store.Rows, groups: map<Cluster, Group>, k: nat, done: set<Cluster>) {
    && r.total == SumSet(done, Worth(derived, groups, k))
    && r.credited as real == SumSet(done, Solves(derived, groups, k))
    && r.suppressed == |Suppressed(derived, groups, k) * done|
    && ByWorkType(r.byWorkType, derived, groups, k, done)
  }

  lemma {:induction false} CountTallies(r: Report, derived: Store.Rows, groups: map<Cluster, Group>, k: nat,
                                        done: set<Cluster>, c: Cluster)
    requires c in groups && c !in done && done <= groups.Keys && Tallied(r, derived, groups, k, done)
    ensures Tallied(Count(r, derived, groups, k, c), derived, groups, k, done + {c})
  {
    hide CostsOf, Saving, ByWorkType, SumSet, Worth, Solves, Suppressed, Plus;
    SumSetAdd(done, Worth(derived, groups, k), c);
    SumSetAdd(done, Solves(derived, groups, k), c);
    OneCluster(derived, groups, k, c);
    MeetAdd(Suppressed(derived, groups, k), done, c);
    if |CostsOf(derived, c)| < k || Avoided(groups[c]) == 0 {
      SuppressedAdd(r.byWorkType, derived, groups, k, done, c);
    } else {
      CreditedAdd(r.byWorkType, derived, groups, k, done, c);
    }
  }

  method Summarise(derived: Store.Rows, groups: map<Cluster, Group>, k: nat) returns (r: Report)
    ensures Tallied(r, derived, groups, k, groups.Keys)
  {
    hide *;
    r := Report(0.0, map[], 0, 0);
    var todo := groups.Keys;
    NothingDone(derived, groups, k);
    while todo != {}
      invariant todo <= groups.Keys && Tallied(r, derived, groups, k, groups.Keys - todo)
      decreases todo
    {
      var c :| c in todo;
      CountTallies(r, derived, groups, k, groups.Keys - todo, c);
      r := Count(r, derived, groups, k, c);
      assert groups.Keys - (todo - {c}) == (groups.Keys - todo) + {c};
      todo := todo - {c};
    }
    assert groups.Keys - todo == groups.Keys;
  }

  // ----- the published figures -----

  // Amounts to the cent, work types by falling amount.
  datatype Published = Published(total: real, lines: seq<(string, real)>, credited: nat, suppressed: nat)

  // The lines published for these amounts by work type: each once, rounded, the larger unrounded amount first.
  ghost predicate LinesOf(lines: seq<(string, real)>, amounts: map<string, real>) {
    && (forall w :: w in amounts <==> exists i :: 0 <= i < |lines| && lines[i].0 == w)
    && (forall i :: 0 <= i < |lines| ==> lines[i].0 in amounts && lines[i].1 == Round2(amounts[lines[i].0]))
    && (forall i, j :: 0 <= i < j < |lines| ==>
          lines[i].0 != lines[j].0 && amounts[lines[i].0] >= amounts[lines[j].0])
  }

  lemma {:induction false} LargestExists(left: set<string>, amounts: map<string, real>)
    requires left != {} && left <= amounts.Keys
    ensures exists w :: w in left && forall x :: x in left ==> amounts[x] <= amounts[w]
    decreases left
  {
    var x :| x in left;
    if left != {x} {
      LargestExists(left - {x}, amounts);
      var y :| y in left - {x} && forall z :: z in left - {x} ==> amounts[z] <= amounts[y];
      var top := if amounts[x] >= amounts[y] then x else y;
      assert forall z :: z in left ==> z == x || z in left - {x};
      assert top in left && forall z :: z in left ==> amounts[z] <= amounts[top];
    }
  }

  // Some lines are out, the larger amounts first; the work types left over come after them.
  ghost predicate Listing(lines: seq<(string, real)>, left: set<string>, amounts: map<string, real>) {
    && (forall w :: w in amounts <==> w in left || exists i :: 0 <= i < |lines| && lines[i].0 == w)
    && (forall i :: 0 <= i < |lines| ==>
          lines[i].0 in amounts && lines[i].0 !in left && lines[i].1 == Round2(amounts[lines[i].0]))
    && (forall i, j :: 0 <= i < j < |lines| ==>
          lines[i].0 != lines[j].0 && amounts[lines[i].0] >= amounts[lines[j].0])
    && (forall i, w :: 0 <= i < |lines| && w in left ==> amounts[lines[i].0] >= amounts[w])
  }

  lemma ListedNext(lines: seq<(string, real)>, left: set<string>, amounts: map<string, real>, w: string)
    requires Listing(lines, left, amounts) && w in left
    requires forall x :: x in left ==> x in amounts && amounts[x] <= amounts[w]
    ensures Listing(lines + [(w, Round2(amounts[w]))], left - {w}, amounts)
  {
    hide Round2;
    var more := lines + [(w, Round2(amounts[w]))];
    forall x ensures x in amounts <==> x in left - {w} || exists i :: 0 <= i < |more| && more[i].0 == x {
      if i :| 0 <= i < |lines| && lines[i].0 == x { assert more[i].0 == x; }
      assert more[|lines|].0 == w;
    }
  }

  lemma ListedAll(lines: seq<(string, real)>, amounts: map<string, real>)
    ensures Listing(lines, {}, amounts) ==> LinesOf(lines, amounts)
    ensures Listing([], amounts.Keys, amounts)
  {
    hide Round2;
  }

  method Publish(r: Report) returns (p: Published)
    ensures p.total == Round2(r.total) && p.credited == r.credited && p.suppressed == r.suppressed
    ensures LinesOf(p.lines, r.byWorkType)
  {
    hide Round2, Listing, LinesOf;
    var amounts := r.byWorkType;
    var lines: seq<(string, real)>, left := [], amounts.Keys;
    ListedAll(lines, amounts);
    while left != {}
      invariant left <= amounts.Keys && Listing(lines, left, amounts)
      decreases left
    {
      LargestExists(left, amounts);
      var w :| w in left && forall x :: x in left ==> amounts[x] <= amounts[w];
      ListedNext(lines, left, amounts, w);
      lines, left := lines + [(w, Round2(amounts[w]))], left - {w};
    }
    ListedAll(lines, amounts);
    p := Published(Round2(r.total), lines, r.credited, r.suppressed);
  }

  function AmountIn(amounts: map<string, real>): string -> real { w => if w in amounts then amounts[w] else 0.0 }

  // The unrounded amounts by work type add up to the total.
  lemma AmountsAddUp(r: Report, derived: Store.Rows, groups: map<Cluster, Group>, k: nat)
    requires Tallied(r, derived, groups, k, groups.Keys)
    ensures SumSet(r.byWorkType.Keys, AmountIn(r.byWorkType)) == r.total
  {
    hide Worth, Suppressed;
    var amounts, worth := r.byWorkType, Worth(derived, groups, k);
    var tags := set c | c in groups :: c.workType;
    WorkTypesAddUp(derived, groups, k);
    var rest := tags - amounts.Keys;
    assert amounts.Keys <= tags;
    forall w | w in tags ensures WorkTypeTotal(derived, groups, k, w) == AmountIn(amounts)(w) {
      if w !in amounts {
        assert Prelude.Group(groups.Keys, WorkTypeOf, w) <= Suppressed(derived, groups, k);
        NothingYet(derived, groups, k, Prelude.Group(groups.Keys, WorkTypeOf, w));
      }
    }
    SumSetSame(tags, w => WorkTypeTotal(derived, groups, k, w), AmountIn(amounts));
    SumSetRest(amounts.Keys, tags, AmountIn(amounts));
  }

  lemma {:induction false} SumSetRest(s: set<string>, t: set<string>, f: string -> real)
    requires s <= t && forall x :: x in t - s ==> f(x) == 0.0
    ensures SumSet(s, f) == SumSet(t, f)
    decreases t - s
  {
    if s == t {
    } else {
      assert t - s != {} by { assert t == s + (t - s); }
      var x :| x in t - s;
      SumSetAdd(s, f, x);
      SumSetRest(s + {x}, t, f);
    }
  }

  function Shown(lines: seq<(string, real)>): real {
    if lines == [] then 0.0 else Shown(lines[..|lines| - 1]) + lines[|lines| - 1].1
  }

  lemma {:induction false} RoundedLines(lines: seq<(string, real)>, amounts: map<string, real>, names: set<string>)
    requires forall w :: w in names <==> exists i :: 0 <= i < |lines| && lines[i].0 == w
    requires forall i :: 0 <= i < |lines| ==> lines[i].0 in amounts && lines[i].1 == Round2(amounts[lines[i].0])
    requires forall i, j :: 0 <= i < j < |lines| ==> lines[i].0 != lines[j].0
    ensures var d := Shown(lines) - SumSet(names, AmountIn(amounts));
            -0.005 * |lines| as real <= d <= 0.005 * |lines| as real
  {
    hide Round2;
    if lines == [] {
      assert names == {};
    } else {
      var n := |lines| - 1;
      var w := lines[n].0;
      assert w in names;
      forall x ensures x in names - {w} <==> exists i :: 0 <= i < n && lines[..n][i].0 == x {
        if i :| 0 <= i < n && lines[..n][i].0 == x { assert lines[i].0 == x; }
        if x in names - {w} {
          var i :| 0 <= i < |lines| && lines[i].0 == x;
          assert lines[..n][i].0 == x;
        }
      }
      RoundedLines(lines[..n], amounts, names - {w});
      SumSetPick(names, AmountIn(amounts), w);
    }
  }

  // The published lines add up to the published total within half a cent each, and half a cent for the total.
  lemma {:induction false} PublishedLinesAddUp(r: Report, p: Published, derived: Store.Rows,
                                               groups: map<Cluster, Group>, k: nat)
    requires Tallied(r, derived, groups, k, groups.Keys)
    requires p.total == Round2(r.total) && LinesOf(p.lines, r.byWorkType)
    ensures var n := |p.lines| + 1; -0.005 * n as real <= Shown(p.lines) - p.total <= 0.005 * n as real
  {
    AmountsAddUp(r, derived, groups, k);
    RoundedLines(p.lines, r.byWorkType, r.byWorkType.Keys);
  }

  lemma OneCluster(derived: Store.Rows, groups: map<Cluster, Group>, k: nat, c: Cluster)
    requires c in groups
    ensures var g := groups[c];
            if |CostsOf(derived, c)| < k || Avoided(g) == 0 then
              c in Suppressed(derived, groups, k)
              && Worth(derived, groups, k)(c) == 0.0 && Solves(derived, groups, k)(c) == 0.0
            else
              && c !in Suppressed(derived, groups, k) && Solves(derived, groups, k)(c) == Avoided(g) as real
              && Worth(derived, groups, k)(c) == Saving(CostsOf(derived, c), g)
  {
    hide CostsOf, Saving, Avoided;
  }

  lemma MeetAdd(out: set<Cluster>, done: set<Cluster>, c: Cluster)
    requires c !in done
    ensures |out * (done + {c})| == |out * done| + if c in out then 1 else 0
  {
    assert out * (done + {c}) == out * done + if c in out then {c} else {};
  }

  lemma NothingDone(derived: Store.Rows, groups: map<Cluster, Group>, k: nat)
    ensures Tallied(Report(0.0, map[], 0, 0), derived, groups, k, groups.Keys - groups.Keys)
  {
    assert groups.Keys - groups.Keys == {};
  }

  // ----- what the report promises -----

  function GroupsOf(bks: seq<Booking>, tenant: Option<string>): map<Cluster, Group> {
    var v := Ledger.View(BookAll(bks));
    Grouped(v, KeysFor(v, tenant))
  }

  // The total is the sum over the work types.
  lemma WorkTypesAddUp(derived: Store.Rows, groups: map<Cluster, Group>, k: nat)
    ensures TotalOf(derived, groups, k)
         == SumSet(set c | c in groups :: c.workType, w => WorkTypeTotal(derived, groups, k, w))
  {
    var tags := set c | c in groups :: c.workType;
    var worth := Worth(derived, groups, k);
    SumSetByTag(groups.Keys, worth, WorkTypeOf, tags);
    SumSetSame(tags, l => SumSet(Prelude.Group(groups.Keys, WorkTypeOf, l), worth),
               w => WorkTypeTotal(derived, groups, k, w));
  }

  // The figures depend only on the set of bookings and on the derived store, when bookings that share a key agree.
  lemma ReportDependsOnTheSet(bks: seq<Booking>, bks': seq<Booking>, tenant: Option<string>)
    requires KeysAgree(bks) && Bookings(bks) == Bookings(bks')
    ensures GroupsOf(bks, tenant) == GroupsOf(bks', tenant)
  {
    ViewDependsOnTheSet(bks, bks');
  }

  // The second view has every row of the first, at the same tier or a higher one.
  predicate Extends(v: View, v': View) {
    forall k :: k in v ==>
      k in v' && v[k].(mode := v'[k].mode) == v'[k] && (v[k].mode == Solved ==> v'[k].mode == Solved)
  }

  lemma ExtendsGroups(v: View, v': View, tenant: Option<string>, c: Cluster)
    requires Extends(v, v') && c in Grouped(v, KeysFor(v, tenant))
    ensures c in Grouped(v', KeysFor(v', tenant))
    ensures var g, g' := Grouped(v, KeysFor(v, tenant))[c], Grouped(v', KeysFor(v', tenant))[c];
            g.actors <= g'.actors && (g.solved ==> g'.solved)
  {
    hide People;
    var keys, keys' := KeysFor(v, tenant), KeysFor(v', tenant);
    forall k | k in Members(v, keys, c)
      ensures k in Members(v', keys', c) && (v[k].mode == Solved ==> v'[k].mode == Solved)
    {
    }
    var k :| k in keys && k in v && ClusterOf(v[k]) == c;
    assert k in Members(v', keys', c);
  }

  // A solved estimate that is not negative is no less than a live one, and neither is that negative.
  lemma EstimateGrows(costs: seq<real>, solved: bool, solved': bool)
    requires EstimateAvoided(costs, true) >= 0.0 && (solved ==> solved')
    ensures 0.0 <= EstimateAvoided(costs, solved) <= EstimateAvoided(costs, solved')
  {
    var c := CostToSolve.CostToSolve(costs);
    hide CostToSolve.CostToSolve, Round6;
    assert c * 1.0 == c;
    RoundZero();
    if c >= 0.0 {
      Round6Monotone(0.0, c * 0.5);
      Round6Monotone(c * 0.5, c);
    } else {
      Round6Monotone(c, c * 0.5);
      Round6Monotone(c * 0.5, 0.0);
    }
  }

  // What one avoided re-solve is worth: the cost to solve, or half of it while nobody has solved it yet, to six
  // digits.
  lemma LiveIsWorthHalf(costs: seq<real>)
    ensures var cost := CostToSolve.CostToSolve(costs);
            && -0.0000005 <= EstimateAvoided(costs, true) - cost <= 0.0000005
            && -0.000001 <= 2.0 * EstimateAvoided(costs, false) - cost <= 0.000001
  {
    hide CostToSolve.CostToSolve, RoundHalfEven;
  }

  // The k-gate and the n - 1 rule: nothing for work that fewer than k developers spent on, or that fewer than two
  // people share; otherwise one re-solve for each of them but the first.
  lemma WhatAClusterIsWorth(derived: Store.Rows, groups: map<Cluster, Group>, k: nat, c: Cluster)
    requires c in groups
    ensures var costs := Store.ActorCostsFor(derived, c.objective, Some(c.workType), Some(c.scope));
            var n := |groups[c].actors|;
            if |costs| < k || n <= 1 then
              c in Suppressed(derived, groups, k)
              && Worth(derived, groups, k)(c) == 0.0 && Solves(derived, groups, k)(c) == 0.0
            else
              && c !in Suppressed(derived, groups, k) && Solves(derived, groups, k)(c) == (n - 1) as real
              && Worth(derived, groups, k)(c) == EstimateAvoided(costs, groups[c].solved) * (n - 1) as real
  {
    hide EstimateAvoided;
  }

  lemma RoundZero()
    ensures Round6(0.0) == 0.0
  {
  }

  // Rows without negative costs give no negative estimate.
  lemma PositiveEstimate(derived: Store.Rows, c: Cluster)
    requires Store.NonNegativeCosts(derived)
    ensures EstimateAvoided(CostsOf(derived, c), true) >= 0.0
  {
    var costs := CostsOf(derived, c);
    Store.CostListPositive(derived, Store.ActorList(derived), c.objective, Some(c.workType), Some(c.scope));
    CostNonNegative(costs);
    hide CostToSolve.CostToSolve, Round6;
    RoundZero();
    Round6Monotone(0.0, CostToSolve.CostToSolve(costs) * 1.0);
  }

  lemma CostNonNegative(costs: seq<real>)
    requires Store.AllPositive(costs)
    ensures CostToSolve.CostToSolve(costs) >= 0.0
  {
    hide CostToSolve.Sort;
    if CostToSolve.Spent(costs) != [] {
      var hi := Sum(costs);
      BelowSum(costs);
      CostToSolve.WithinRange(costs, 0.0, hi);
    }
  }

  lemma {:induction false} BelowSum(costs: seq<real>)
    requires Store.AllPositive(costs)
    ensures Sum(costs) >= 0.0 && forall x :: x in costs ==> 0.0 <= x <= Sum(costs)
  {
    if costs != [] {
      BelowSum(costs[1..]);
      assert costs == [costs[0]] + costs[1..];
    }
  }

  lemma AvoidedGrows(g: Group, g': Group)
    requires g.actors <= g'.actors
    ensures Avoided(g) <= Avoided(g')
  {
    SubsetSmaller(g.actors, g'.actors);
  }

  lemma ProductGrows(x: real, y: real, m: nat, n: nat)
    requires 0.0 <= x <= y && m <= n
    ensures 0.0 <= x * m as real <= y * n as real
  {
    assert x * m as real <= y * m as real;
    assert y * m as real <= y * n as real;
  }

  predicate NoNegativeEstimate(derived: Store.Rows, c: Cluster, k: nat) {
    |CostsOf(derived, c)| >= k ==> EstimateAvoided(CostsOf(derived, c), true) >= 0.0
  }

  // A group's value grows with it, unless the grown group is credited at a negative estimate.
  lemma {:induction false} ValueGrows(derived: Store.Rows, c: Cluster, g: Group, g': Group, k: nat)
    requires Avoided(g') > 0 ==> NoNegativeEstimate(derived, c, k)
    requires g.actors <= g'.actors && (g.solved ==> g'.solved)
    ensures 0.0 <= Value(derived, c, g, k) <= Value(derived, c, g', k)
  {
    hide EstimateAvoided, Avoided, CostsOf;
    var costs := CostsOf(derived, c);
    AvoidedGrows(g, g');
    if |costs| >= k && Avoided(g') > 0 {
      EstimateGrows(costs, g.solved, g'.solved);
      ProductGrows(EstimateAvoided(costs, g.solved), EstimateAvoided(costs, g'.solved), Avoided(g), Avoided(g'));
      ProductGrows(EstimateAvoided(costs, g'.solved), EstimateAvoided(costs, g'.solved), Avoided(g'), Avoided(g'));
    }
  }

  // No cluster is credited at a negative estimate.
  predicate NoNegativeCredit(derived: Store.Rows, groups: map<Cluster, Group>, k: nat) {
    forall c :: c in groups && Avoided(groups[c]) > 0 ==> NoNegativeEstimate(derived, c, k)
  }

  // A view that extends another one is worth no less.
  lemma ExtendedViewIsWorthMore(v: View, v': View, tenant: Option<string>, derived: Store.Rows, k: nat)
    requires Extends(v, v') && NoNegativeCredit(derived, Grouped(v', KeysFor(v', tenant)), k)
    ensures TotalOf(derived, Grouped(v, KeysFor(v, tenant)), k) <= TotalOf(derived, Grouped(v', KeysFor(v', tenant)), k)
  {
    hide Value, Grouped, NoNegativeEstimate, Extends, Avoided;
    var groups, groups' := Grouped(v, KeysFor(v, tenant)), Grouped(v', KeysFor(v', tenant));
    forall c | c in groups
      ensures c in groups' && Worth(derived, groups, k)(c) <= Worth(derived, groups', k)(c)
    {
      ExtendsGroups(v, v', tenant, c);
      ValueGrows(derived, c, groups[c], groups'[c], k);
    }
    forall c | c in groups' ensures 0.0 <= Worth(derived, groups', k)(c) {
      ValueGrows(derived, c, groups'[c], groups'[c], k);
    }
    SumSetMonotone(groups.Keys, groups'.Keys, Worth(derived, groups, k), Worth(derived, groups', k));
  }

  // A later booking adds a row or raises the tier of one.
  lemma {:induction false} LaterBookingsExtend(bks: seq<Booking>, more: seq<Booking>)
    ensures Extends(Ledger.View(BookAll(bks)), Ledger.View(BookAll(bks + more)))
  {
    hide KeyOf;
    if more == [] {
      assert bks + more == bks;
    } else {
      var n := |more| - 1;
      assert (bks + more)[..|bks + more| - 1] == bks + more[..n];
      LaterBookingsExtend(bks, more[..n]);
    }
  }

  // For a fixed derived store, later bookings never lower the total, whatever was booked before and whatever the
  // names are, while no cluster is credited at a negative estimate.
  lemma LaterBookingsNeverLowerTheTotal(bks: seq<Booking>, more: seq<Booking>, tenant: Option<string>,
                                        derived: Store.Rows, k: nat)
    requires NoNegativeCredit(derived, GroupsOf(bks + more, tenant), k)
    ensures TotalOf(derived, GroupsOf(bks, tenant), k) <= TotalOf(derived, GroupsOf(bks + more, tenant), k)
  {
    hide TotalOf, Grouped, NoNegativeCredit, Extends;
    LaterBookingsExtend(bks, more);
    ExtendedViewIsWorthMore(Ledger.View(BookAll(bks)), Ledger.View(BookAll(bks + more)), tenant, derived, k);
  }

  // The same of bookings taken as sets, in any order, when those that share a key agree.
  lemma MoreBookingsNeverLowerTheTotal(bks: seq<Booking>, bks': seq<Booking>, tenant: Option<string>,
                                       derived: Store.Rows, k: nat)
    requires KeysAgree(bks') && Bookings(bks) <= Bookings(bks')
    requires NoNegativeCredit(derived, GroupsOf(bks', tenant), k)
    ensures TotalOf(derived, GroupsOf(bks, tenant), k) <= TotalOf(derived, GroupsOf(bks', tenant), k)
  {
    hide TotalOf, Grouped, NoNegativeCredit, Extends, KeysAgree;
    MoreBookingsExtend(bks, bks');
    ExtendedViewIsWorthMore(Ledger.View(BookAll(bks)), Ledger.View(BookAll(bks')), tenant, derived, k);
  }

  lemma {:induction false} MoreBookingsExtend(bks: seq<Booking>, bks': seq<Booking>)
    requires KeysAgree(bks') && Bookings(bks) <= Bookings(bks')
    ensures Extends(Ledger.View(BookAll(bks)), Ledger.View(BookAll(bks')))
  {
    hide KeyOf, SameFacts, KeysAgree;
    var v, v' := Ledger.View(BookAll(bks)), Ledger.View(BookAll(bks'));
    AgreeAsSets(bks', bks);
    forall k | k in v
      ensures k in v' && v[k].(mode := v'[k].mode) == v'[k] && (v[k].mode == Solved ==> v'[k].mode == Solved)
    {
      SameTier(bks, bks', k);
      BookingIsAJoin(bks, k);
      var i :| 0 <= i < |bks| && KeyOf(bks[i]) == k;
      assert bks[i] in Bookings(bks');
      var j :| 0 <= j < |bks'| && bks'[j] == bks[i];
      RowsSayWhatWasBooked(bks, i);
      RowsSayWhatWasBooked(bks', j);
    }
  }

  // Whether some booking of this tenant can name two people: a separator inside the tenant lets the parse read
  // only a part of the tenant, otherwise it reads the pair.
  predicate Creditable(scope: string) { Find(scope, "::", 0) == -1 || |People(scope + "::")| >= 2 }

  // A row's key starts with the tenant on the row.
  lemma {:induction false} KeyStartsWithTenant(bks: seq<Booking>, key: string)
    requires key in BookAll(bks)
    ensures BookAll(bks)[key].tenant.Some? && BookAll(bks)[key].tenant.value + "::" <= key
  {
    hide PairKey;
    var n := |bks| - 1;
    if key in BookAll(bks[..n]) {
      KeyStartsWithTenant(bks[..n], key);
    } else {
      assert key == KeyOf(bks[n]);
    }
  }

  // No cluster of a tenant that is not creditable is ever credited.
  lemma NeverCredited(bks: seq<Booking>, tenant: Option<string>, c: Cluster)
    requires c in GroupsOf(bks, tenant) && !Creditable(c.scope)
    ensures Avoided(GroupsOf(bks, tenant)[c]) == 0
  {
    hide People, BookAll;
    var v := Ledger.View(BookAll(bks));
    var keys := KeysFor(v, tenant);
    forall key | key in Members(v, keys, c) ensures People(key) == People(c.scope + "::") {
      KeyStartsWithTenant(bks, key);
      SeparatorHidesPair(c.scope, key, c.scope + "::");
    }
    assert Actors(v, keys, c) <= People(c.scope + "::");
    SubsetSmaller(Actors(v, keys, c), People(c.scope + "::"));
  }

  // Later bookings never lower the total, whichever they are and whoever asks.
  ghost predicate NeverLowers(derived: Store.Rows, k: nat) {
    forall bks, more, tenant ::
      TotalOf(derived, GroupsOf(bks, tenant), k) <= TotalOf(derived, GroupsOf(bks + more, tenant), k)
  }

  // The same of bookings taken as sets.
  ghost predicate NeverLowersAsSets(derived: Store.Rows, k: nat) {
    forall bks, bks', tenant :: KeysAgree(bks') && Bookings(bks) <= Bookings(bks') ==>
      TotalOf(derived, GroupsOf(bks, tenant), k) <= TotalOf(derived, GroupsOf(bks', tenant), k)
  }

  ghost predicate NoNegativeWork(derived: Store.Rows, k: nat) {
    forall c: Cluster :: Creditable(c.scope) ==> NoNegativeEstimate(derived, c, k)
  }

  // Both hold of a derived store exactly when no work of a creditable tenant, backed by k developers or more, has
  // a negative solved estimate.
  lemma NeverLowersIff(derived: Store.Rows, k: nat)
    ensures NeverLowers(derived, k) <==> NoNegativeWork(derived, k)
    ensures NeverLowersAsSets(derived, k) <==> NoNegativeWork(derived, k)
  {
    hide KeysAgree, TotalOf, GroupsOf, NoNegativeCredit, NoNegativeWork;
    if NoNegativeWork(derived, k) {
      forall bks, tenant ensures NoNegativeCredit(derived, GroupsOf(bks, tenant), k) {
        CreditIsSound(bks, tenant, derived, k);
      }
      forall bks, more, tenant
        ensures TotalOf(derived, GroupsOf(bks, tenant), k) <= TotalOf(derived, GroupsOf(bks + more, tenant), k)
      {
        LaterBookingsNeverLowerTheTotal(bks, more, tenant, derived, k);
      }
      forall bks, bks', tenant | KeysAgree(bks') && Bookings(bks) <= Bookings(bks')
        ensures TotalOf(derived, GroupsOf(bks, tenant), k) <= TotalOf(derived, GroupsOf(bks', tenant), k)
      {
        MoreBookingsNeverLowerTheTotal(bks, bks', tenant, derived, k);
      }
    } else {
      OneBookingLowers(derived, k);
    }
  }

  lemma CreditIsSound(bks: seq<Booking>, tenant: Option<string>, derived: Store.Rows, k: nat)
    requires NoNegativeWork(derived, k)
    ensures NoNegativeCredit(derived, GroupsOf(bks, tenant), k)
  {
    hide GroupsOf, NoNegativeEstimate, Creditable, Avoided;
    var groups := GroupsOf(bks, tenant);
    forall c | c in groups && Avoided(groups[c]) > 0 ensures NoNegativeEstimate(derived, c, k) {
      if !Creditable(c.scope) { NeverCredited(bks, tenant, c); }
    }
  }

  // One solved booking of work with a negative estimate brings the total below nothing.
  lemma OneBookingLowers(derived: Store.Rows, k: nat)
    requires !NoNegativeWork(derived, k)
    ensures !NeverLowers(derived, k) && !NeverLowersAsSets(derived, k)
  {
    hide NoNegativeEstimate, TotalOf, GroupsOf, People, Creditable, Key;
    var c: Cluster :| Creditable(c.scope) && !NoNegativeEstimate(derived, c, k);
    var bk := Booking(c.scope, "a", "b", c.objective, c.workType, "", Solved, 0.0);
    TwoNamed(bk);
    OneGroup(bk, c);
    TotalOfOne(derived, c, k, People(KeyOf(bk)));
    NoGroups(derived, k);
    assert KeysAgree([bk]) && Bookings([]) <= Bookings([bk]) && [] + [bk] == [bk];
  }

  // A booking of a creditable tenant, for developers a and b, names two people or more.
  lemma TwoNamed(bk: Booking)
    requires Creditable(bk.tenant) && bk.a == "a" && bk.b == "b"
    ensures |People(KeyOf(bk))| >= 2
  {
    hide People, Find;
    assert "a"[0] != "b"[0] && StringLe("a", "b");
    if Find(bk.tenant, "::", 0) != -1 {
      SeparatorHidesPair(bk.tenant, KeyOf(bk), bk.tenant + "::");
    } else if Clean(bk.tenant) {
      KeyRoundTrip(bk.tenant, "a", "b", bk.objective, bk.workType);
      TwoNames("a", "b");
    } else {
      ColonSticksToName(bk.tenant, "b", bk.objective, bk.workType);
      TwoNames(":a", "b");
    }
  }

  lemma TwoNames(p: string, q: string)
    requires p != q && p != "" && q != ""
    ensures |{p, q} - {""}| == 2
  {
    assert {p, q} - {""} == {p, q};
  }

  lemma OneGroup(bk: Booking, c: Cluster)
    requires bk.mode == Solved && c == Cluster(bk.tenant, bk.objective, bk.workType)
    ensures GroupsOf([bk], None) == map[c := Group(People(KeyOf(bk)), true)]
  {
    hide People, KeyOf;
    var k := KeyOf(bk);
    assert [bk][..0] == [];
    var v := Ledger.View(BookAll([bk]));
    assert BookAll([]) == map[];
    assert BookAll([bk]) == Booked(map[], bk);
    assert v == map[k := Facts(Some(bk.tenant), bk.objective, bk.workType, Solved)];
    var keys := KeysFor(v, None);
    assert keys == {k} && Members(v, keys, c) == {k};
    assert Clusters(v, keys) == {c};
    assert Actors(v, keys, c) == People(k);
    assert AnySolved(v, keys, c);
  }

  lemma TotalOfOne(derived: Store.Rows, c: Cluster, k: nat, people: set<string>)
    requires |people| >= 2 && !NoNegativeEstimate(derived, c, k)
    ensures TotalOf(derived, map[c := Group(people, true)], k) < 0.0
  {
    hide CostsOf, EstimateAvoided;
    var groups := map[c := Group(people, true)];
    var worth := Worth(derived, groups, k);
    SumSetPick(groups.Keys, worth, c);
    assert groups.Keys - {c} == {};
    NegativeProduct(EstimateAvoided(CostsOf(derived, c), true), |people| - 1);
  }

  lemma NegativeProduct(x: real, n: nat)
    requires x < 0.0 && n >= 1
    ensures x * n as real < 0.0
  {
  }

  lemma NoGroups(derived: Store.Rows, k: nat)
    ensures TotalOf(derived, GroupsOf([], None), k) == 0.0
  {
    assert GroupsOf([], None) == map[];
  }

  // ----- the credit rule -----

  // The pair of a booking with its two developers in the order of the key.
  function PairOf(bk: Booking): (string, string) { if StringLe(bk.a, bk.b) then (bk.a, bk.b) else (bk.b, bk.a) }

  function FactsOf(bk: Booking): Facts { Facts(Some(bk.tenant), bk.objective, bk.workType, bk.mode) }

  // The booked pairs behind one cluster of a report.
  function PairsOf(bks: seq<Booking>, tenant: Option<string>, c: Cluster): Pairs<string> {
    set bk | bk in bks && Asked(FactsOf(bk), tenant) && ClusterOf(FactsOf(bk)) == c :: PairOf(bk)
  }

  // The parse reads this booking's developers back from its key.
  predicate Readable(bk: Booking) {
    Clean(bk.tenant) && NoBar(bk.a, bk.b) && Clean(PairKey(bk.a, bk.b)) && bk.a != "" && bk.b != ""
  }

  predicate Named(bks: seq<Booking>) { KeysAgree(bks) && forall i :: 0 <= i < |bks| ==> Readable(bks[i]) }

  // As they are when the ids hold no separators and both developers have a name.
  lemma WellNamedIsNamed(bks: seq<Booking>)
    requires AllWellNamed(bks) && forall i :: 0 <= i < |bks| ==> bks[i].a != "" && bks[i].b != ""
    ensures Named(bks)
  {
    hide Find, KeysAgree, PairKey;
    WellNamedAgree(bks);
    forall i | 0 <= i < |bks| ensures Readable(bks[i]) { PairKeyClean(bks[i].a, bks[i].b); }
  }

  lemma {:induction false} BookingIsMember(bks: seq<Booking>, tenant: Option<string>, c: Cluster, i: nat)
    requires Named(bks) && i < |bks|
    ensures var v := Ledger.View(BookAll(bks));
            && (KeyOf(bks[i]) in Members(v, KeysFor(v, tenant), c) <==>
                Asked(FactsOf(bks[i]), tenant) && ClusterOf(FactsOf(bks[i])) == c)
            && People(KeyOf(bks[i])) == {bks[i].a, bks[i].b}
  {
    hide People, Key, BookAll, Clean, SameFacts;
    RowsSayWhatWasBooked(bks, i);
    assert Readable(bks[i]);
    PairReads(bks[i].tenant, bks[i].a, bks[i].b, bks[i].objective, bks[i].workType);
    assert {bks[i].a, bks[i].b} - {""} == {bks[i].a, bks[i].b};
    var f := Ledger.View(BookAll(bks))[KeyOf(bks[i])];
    assert f == FactsOf(bks[i]).(mode := f.mode);
  }

  // The people the report counts for a cluster are exactly the developers of its booked pairs.
  lemma ActorsAreParticipants(bks: seq<Booking>, tenant: Option<string>, c: Cluster)
    requires Named(bks)
    ensures var v := Ledger.View(BookAll(bks));
            Actors(v, KeysFor(v, tenant), c) == Participants(PairsOf(bks, tenant, c))
  {
    hide People, KeysFor, Key, BookAll, KeysAgree, Readable;
    var v := Ledger.View(BookAll(bks));
    var keys, pairs := KeysFor(v, tenant), PairsOf(bks, tenant, c);
    forall p | p in Actors(v, keys, c) ensures p in Participants(pairs) {
      var k :| k in Members(v, keys, c) && p in People(k);
      BookingIsAJoin(bks, k);
      var i :| 0 <= i < |bks| && KeyOf(bks[i]) == k;
      BookingIsMember(bks, tenant, c, i);
      assert PairOf(bks[i]) in pairs;
      EndsParticipate(pairs, PairOf(bks[i]));
    }
    forall p | p in Participants(pairs) ensures p in Actors(v, keys, c) {
      var e :| e in pairs && (e.0 == p || e.1 == p);
      var bk :| bk in bks && Asked(FactsOf(bk), tenant) && ClusterOf(FactsOf(bk)) == c && PairOf(bk) == e;
      var i :| 0 <= i < |bks| && bks[i] == bk;
      BookingIsMember(bks, tenant, c, i);
    }
  }

  // A cluster is credited exactly its distinct participants less one: at least one, at most C(n, 2), and at
  // most the number of booked pairs when those connect the participants.
  lemma {:induction false} CreditIsParticipantsLessOne(bks: seq<Booking>, tenant: Option<string>, c: Cluster)
    requires Named(bks) && c in GroupsOf(bks, tenant)
    ensures var n, avoided := |Participants(PairsOf(bks, tenant, c))|, Avoided(GroupsOf(bks, tenant)[c]);
            && n >= 1 && avoided == n - 1 <= n * (n - 1) / 2
            && (Connected(PairsOf(bks, tenant, c)) ==> avoided <= |PairsOf(bks, tenant, c)|)
  {
    hide People, Connected, KeysAgree, Readable, Key, BookAll, Participants;
    var v := Ledger.View(BookAll(bks));
    var keys, pairs := KeysFor(v, tenant), PairsOf(bks, tenant, c);
    ActorsAreParticipants(bks, tenant, c);
    var k :| k in keys && k in v && ClusterOf(v[k]) == c;
    BookingIsAJoin(bks, k);
    var i :| 0 <= i < |bks| && KeyOf(bks[i]) == k;
    BookingIsMember(bks, tenant, c, i);
    assert bks[i].a in Actors(v, keys, c);
    CreditBelowPairs(|Participants(pairs)|);
    if Connected(pairs) { ConnectedCredit(pairs); }
  }

  // ----- the store as an object -----

  class LedgerStore {
    var avoided: Table

    constructor () ensures avoided == map[] { avoided := map[]; }

    // INSERT .. ON CONFLICT DO UPDATE .. WHERE stored live and new solved; True when a row was written.
    method Book(bk: Booking) returns (written: bool)
      modifies this
      ensures avoided == Booked(old(avoided), bk)
      ensures written <==> Tier(avoided, KeyOf(bk)) != Tier(old(avoided), KeyOf(bk))
    {
      var k := KeyOf(bk);
      if k !in avoided {
        avoided := avoided[k := Row(Some(bk.tenant), bk.objective, bk.workType, bk.cluster, bk.mode, bk.ts)];
        return true;
      }
      if avoided[k].mode == Live && bk.mode == Solved {
        avoided := avoided[k := avoided[k].(mode := Solved, cluster := bk.cluster)];
        return true;
      }
      return false;
    }

    // The published figures, and the unrounded ones behind them.
    method Summary(derived: Store.Rows, tenant: Option<string>, k: nat) returns (p: Published, r: Report)
      ensures var v := Ledger.View(avoided);
              var groups := Grouped(v, KeysFor(v, tenant));
              Tallied(r, derived, groups, k, groups.Keys)
      ensures p.total == Round2(r.total) && p.credited == r.credited && p.suppressed == r.suppressed
      ensures LinesOf(p.lines, r.byWorkType)
    {
      var v := Ledger.View(avoided);
      var groups := Collect(v, KeysFor(v, tenant));
      r := Summarise(derived, groups, k);
      p := Publish(r);
    }
  }
}
