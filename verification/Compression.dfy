// Running the compression strategies in order, and what the reported saving means.
module Compression {
  import opened Prelude
  import SlimTools

  // A strategy: None stands for not applicable, for an exception, and for an empty or invalid body.
  datatype Strategy<!B> = Strategy(name: string, fn: B -> Option<B>)

  datatype Result<B> = Result(body: B, saved: nat, applied: seq<string>, perStrategy: map<string, nat>)

  type Tokens<!B> = B -> nat

  // ----- the chain of bodies -----

  function Final<B>(body: B, strats: seq<Strategy<B>>): B {
    if strats == [] then body
    else
      var cur := Final(body, strats[..|strats| - 1]);
      match strats[|strats| - 1].fn(cur)
      case None => cur
      case Some(after) => after
  }

  // Tokens the last strategy took off; negative when it made the request grow.
  function LastStep<B>(body: B, strats: seq<Strategy<B>>, tokens: Tokens<B>): int
    requires strats != []
  {
    tokens(Final(body, strats[..|strats| - 1])) - tokens(Final(body, strats))
  }

  predicate LastApplied<B>(body: B, strats: seq<Strategy<B>>)
    requires strats != []
  {
    strats[|strats| - 1].fn(Final(body, strats[..|strats| - 1])).Some?
  }

  // The names of the strategies that applied, in order.
  function AppliedNames<B>(body: B, strats: seq<Strategy<B>>): seq<string> {
    if strats == [] then []
    else AppliedNames(body, strats[..|strats| - 1])
         + if LastApplied(body, strats) then [strats[|strats| - 1].name] else []
  }

  function Positive(d: int): nat { if d > 0 then d else 0 }

  // The tokens removed by the strategies that removed some.
  function Gains<B>(body: B, strats: seq<Strategy<B>>, tokens: Tokens<B>): nat {
    if strats == [] then 0
    else Gains(body, strats[..|strats| - 1], tokens) + Positive(LastStep(body, strats, tokens))
  }

  predicate SomeStepGrew<B>(body: B, strats: seq<Strategy<B>>, tokens: Tokens<B>) {
    exists n :: 1 <= n <= |strats| && LastStep(body, strats[..n], tokens) < 0
  }

  // Gains never understate the net saving, and equal it exactly when no step made the request grow.
  lemma {:induction false} GainsAgainstNet<B>(body: B, strats: seq<Strategy<B>>, tokens: Tokens<B>)
    ensures Gains(body, strats, tokens) >= tokens(body) - tokens(Final(body, strats))
    ensures Gains(body, strats, tokens) == tokens(body) - tokens(Final(body, strats))
       <==> !SomeStepGrew(body, strats, tokens)
  {
    hide LastStep;
    if strats != [] {
      var n := |strats| - 1;
      GainsAgainstNet(body, strats[..n], tokens);
      NetStep(body, strats, tokens);
      assert strats[..|strats|] == strats;
      if SomeStepGrew(body, strats, tokens) && LastStep(body, strats, tokens) >= 0 {
        var k :| 1 <= k <= |strats| && LastStep(body, strats[..k], tokens) < 0;
        assert strats[..n][..k] == strats[..k];
      }
      if SomeStepGrew(body, strats[..n], tokens) {
        var k :| 1 <= k <= n && LastStep(body, strats[..n][..k], tokens) < 0;
        assert strats[..n][..k] == strats[..k];
      }
    }
  }

  lemma NetStep<B>(body: B, strats: seq<Strategy<B>>, tokens: Tokens<B>)
    requires strats != []
    ensures tokens(Final(body, strats)) == tokens(Final(body, strats[..|strats| - 1])) - LastStep(body, strats, tokens)
  {
  }

  // ----- the per-strategy table -----

  function PerStrategy<B>(body: B, strats: seq<Strategy<B>>, tokens: Tokens<B>): map<string, nat> {
    if strats == [] then map[]
    else
      var n := |strats| - 1;
      var per := PerStrategy(body, strats[..n], tokens);
      if LastApplied(body, strats) then per[strats[n].name := Positive(LastStep(body, strats, tokens))] else per
  }

  ghost function SumValues(per: map<string, nat>): real {
    SumSet(per.Keys, ValueOf(per))
  }

  ghost function ValueOf(per: map<string, nat>): string -> real {
    (k: string) => if k in per then per[k] as real else 0.0
  }

  predicate DistinctNames<B>(strats: seq<Strategy<B>>) {
    forall i, j :: 0 <= i < j < |strats| ==> strats[i].name != strats[j].name
  }

  lemma {:induction false} PerNames<B>(body: B, strats: seq<Strategy<B>>, tokens: Tokens<B>)
    ensures forall k :: k in PerStrategy(body, strats, tokens) ==> exists i :: 0 <= i < |strats| && strats[i].name == k
  {
    hide LastStep, LastApplied;
    if strats != [] {
      var n := |strats| - 1;
      PerNames(body, strats[..n], tokens);
      forall k | k in PerStrategy(body, strats[..n], tokens)
        ensures exists i :: 0 <= i < |strats| && strats[i].name == k
      {
        var i :| 0 <= i < n && strats[..n][i].name == k;
        assert strats[i].name == k;
      }
    }
  }

  function Names<B>(strats: seq<Strategy<B>>): (names: seq<string>)
    ensures |names| == |strats| && forall i :: 0 <= i < |strats| ==> names[i] == strats[i].name
  {
    seq(|strats|, i requires 0 <= i < |strats| => strats[i].name)
  }

  // The strategy at this position applied to what the earlier ones left.
  predicate AppliedAt<B>(body: B, strats: seq<Strategy<B>>, i: nat) {
    i < |strats| && strats[i].fn(Final(body, strats[..i])).Some?
  }

  lemma AppliedAtLast<B>(body: B, strats: seq<Strategy<B>>, i: nat)
    requires strats != []
    ensures var n := |strats| - 1;
            AppliedAt(body, strats, i) <==>
            if i == n then LastApplied(body, strats) else AppliedAt(body, strats[..n], i)
  {
    hide Final;
    if i < |strats| - 1 { assert strats[..|strats| - 1][..i] == strats[..i]; }
  }

  // The applied names stand in the order of the list, each for a step that applied, and every such step is there.
  lemma {:induction false} AppliedInOrder<B>(body: B, strats: seq<Strategy<B>>) returns (at: seq<nat>)
    ensures Picks(AppliedNames(body, strats), Names(strats), at)
    ensures forall i: nat :: i in at <==> AppliedAt(body, strats, i)
  {
    hide AppliedAt, LastApplied, Picks;
    if strats == [] {
      at := [];
      NothingApplied(body, strats);
    } else {
      var n := |strats| - 1;
      var before := AppliedInOrder(body, strats[..n]);
      at := before + if LastApplied(body, strats) then [n] else [];
      assert Names(strats)[..n] == Names(strats[..n]);
      PicksOneMore(AppliedNames(body, strats[..n]), Names(strats), before);
      assert before + [] == before && AppliedNames(body, strats[..n]) + [] == AppliedNames(body, strats[..n]);
      forall i: nat ensures i in at <==> AppliedAt(body, strats, i) { AppliedAtLast(body, strats, i); }
    }
  }

  lemma NothingApplied<B>(body: B, strats: seq<Strategy<B>>)
    requires strats == []
    ensures Picks(AppliedNames(body, strats), Names(strats), [])
    ensures forall i: nat :: !AppliedAt(body, strats, i)
  {
  }

  // With distinct names each applied strategy is credited with the tokens its own step took off, or with none.
  lemma {:induction false} EachNameItsOwn<B>(body: B, strats: seq<Strategy<B>>, tokens: Tokens<B>, i: nat)
    requires DistinctNames(strats) && i < |strats| && strats[i].fn(Final(body, strats[..i])).Some?
    ensures strats[i].name in PerStrategy(body, strats, tokens)
    ensures var off := tokens(Final(body, strats[..i])) - tokens(Final(body, strats[..i + 1]));
            PerStrategy(body, strats, tokens)[strats[i].name] == if off > 0 then off else 0
  {
    hide Final;
    var n := |strats| - 1;
    if i < n {
      assert strats[..n][..i] == strats[..i] && strats[..n][..i + 1] == strats[..i + 1];
      EachNameItsOwn(body, strats[..n], tokens, i);
    } else {
      assert strats[..n + 1] == strats;
    }
  }

  lemma AddEntry(per: map<string, nat>, name: string, x: nat)
    requires name !in per
    ensures SumValues(per[name := x]) == SumValues(per) + x as real
  {
    var more := per[name := x];
    SumSetAdd(per.Keys, ValueOf(more), name);
    SumSetSame(per.Keys, ValueOf(per), ValueOf(more));
    assert more.Keys == per.Keys + {name};
  }

  lemma {:induction false} PerSumsToGains<B>(body: B, strats: seq<Strategy<B>>, tokens: Tokens<B>)
    requires DistinctNames(strats)
    ensures SumValues(PerStrategy(body, strats, tokens)) == Gains(body, strats, tokens) as real
  {
    hide SumValues;
    if strats == [] {
      EmptySum();
    } else {
      var n := |strats| - 1;
      var per := PerStrategy(body, strats[..n], tokens);
      PerSumsToGains(body, strats[..n], tokens);
      PerNames(body, strats[..n], tokens);
      if LastApplied(body, strats) {
        assert strats[n].name !in per;
        AddEntry(per, strats[n].name, Positive(LastStep(body, strats, tokens)));
      }
    }
  }

  lemma EmptySum()
    ensures SumValues(map[]) == 0.0
  {
  }

  // ----- the request, as the source processes it -----

  // The parsed request, an object the caller keeps.
  class RequestBody<B> {
    var value: B

    constructor (value: B) ensures this.value == value { this.value := value; }
  }

  // Each strategy stands for a copy and its changes; the caller's body is handed back itself when nothing applied,
  // and a new one otherwise.
  method CompressRequest<B>(body: RequestBody<B>, strats: seq<Strategy<B>>, tokens: Tokens<B>)
    returns (out: RequestBody<B>, r: Result<B>)
    ensures unchanged(body)
    ensures r.applied == [] ==> out == body && r.saved == 0
    ensures r.applied != [] ==> fresh(out)
    ensures out.value == r.body == Final(body.value, strats)
    ensures r.applied == AppliedNames(body.value, strats)
    ensures r.perStrategy == PerStrategy(body.value, strats, tokens)
    ensures r.saved as real == SumValues(r.perStrategy)
  {
    hide LastStep, SumValues;
    ghost var value := body.value;
    var applied, per := [], map[];
    out := body;
    var prev := tokens(body.value);
    for i := 0 to |strats|
      invariant unchanged(body) && (if applied == [] then out == body else fresh(out))
      invariant out.value == Final(value, strats[..i]) && prev == tokens(out.value)
      invariant applied == AppliedNames(value, strats[..i]) && per == PerStrategy(value, strats[..i], tokens)
      invariant applied == [] ==> per == map[]
    {
      assert strats[..i + 1][..i] == strats[..i];
      match strats[i].fn(out.value) {
        case None =>
        case Some(next) =>
          var now := tokens(next);
          OneStep(value, strats[..i + 1], tokens, prev, now);
          per := per[strats[i].name := Positive(prev as int - now as int)];
          applied := applied + [strats[i].name];
          out := new RequestBody(next);
          prev := now;
      }
    }
    assert strats[..|strats|] == strats;
    var saved := SumOfValues(per);
    EmptySum();
    r := Result(out.value, saved, applied, per);
  }

  lemma OneStep<B>(body: B, strats: seq<Strategy<B>>, tokens: Tokens<B>, prev: nat, now: nat)
    requires strats != [] && LastApplied(body, strats)
    requires prev == tokens(Final(body, strats[..|strats| - 1])) && now == tokens(Final(body, strats))
    ensures LastStep(body, strats, tokens) == prev - now
  {
  }

  // sum(per.values())
  method SumOfValues(per: map<string, nat>) returns (total: nat)
    ensures total as real == SumValues(per)
  {
    total := 0;
    var todo := per.Keys;
    ghost var done: set<string> := {};
    while todo != {}
      invariant todo <= per.Keys && done == per.Keys - todo && total as real == SumSet(done, ValueOf(per))
      decreases todo
    {
      var k :| k in todo;
      SumSetAdd(done, ValueOf(per), k);
      total := total + per[k];
      todo, done := todo - {k}, done + {k};
    }
    assert done == per.Keys;
  }

  // With distinct strategies the reported saving is at least tokens before less tokens after, and equal to
  // it exactly when no applied strategy made the request grow.
  lemma {:induction false} SavedIsHonest<B>(body: B, strats: seq<Strategy<B>>, tokens: Tokens<B>)
    requires DistinctNames(strats)
    ensures var net, saved := tokens(body) - tokens(Final(body, strats)), SumValues(PerStrategy(body, strats, tokens));
            && saved >= net as real
            && (saved == net as real <==> !SomeStepGrew(body, strats, tokens))
  {
    hide SumValues, PerStrategy, Gains, SomeStepGrew;
    PerSumsToGains(body, strats, tokens);
    GainsAgainstNet(body, strats, tokens);
  }

  // ----- a strategy listed twice -----

  type Doc = SlimTools.Body<string>

  type Registry = string -> (Doc -> Option<Doc>)

  // The strategies that a list of names stands for.
  function Listed(names: seq<string>, registry: Registry): (strats: seq<Strategy<Doc>>)
    ensures |strats| == |names|
    ensures forall i :: 0 <= i < |names| ==> strats[i] == Strategy(names[i], registry(names[i]))
  {
    seq(|names|, i requires 0 <= i < |names| => Strategy(names[i], registry(names[i])))
  }

  // The reported saving is below the tokens that went.
  ghost predicate Understates(strats: seq<Strategy<Doc>>, body: Doc, tokens: Tokens<Doc>) {
    SumValues(PerStrategy(body, strats, tokens)) < (tokens(body) - tokens(Final(body, strats))) as real
  }

  function Itself(definition: string): string { definition }

  function SlimDoc(body: Doc): Option<Doc> { SlimTools.Slim(body, Itself) }

  function Skip(body: Doc): Option<Doc> { None }

  // Deduplication under one name, nothing under the others.
  function Registered(name: string): Registry { (k: string) => if k == name then SlimDoc else Skip }

  function Size(body: Doc): nat {
    |SlimTools.Definitions(body.tools)| + |SlimTools.Definitions(body.functions)|
  }

  // A definition repeated in both arrays, or already in fewer of them.
  function Repeated(passes: nat): Doc {
    SlimTools.Body(Some(if passes >= 1 then ["x"] else ["x", "x"]), Some(if passes >= 2 then ["x"] else ["x", "x"]))
  }

  lemma SlimRepeated(passes: nat)
    ensures SlimDoc(Repeated(passes)) == if passes < 2 then Some(Repeated(passes + 1)) else None
    ensures Size(Repeated(passes)) == if passes < 2 then 4 - passes else 2
  {
    hide SlimTools.Firsts;
    FirstOfTwo();
  }

  lemma FirstOfTwo()
    ensures SlimTools.Firsts(["x", "x"], Itself) == ["x"] == SlimTools.Firsts(["x"], Itself)
  {
    var two, one := ["x", "x"], ["x"];
    assert two[..1] == one && one[..0] == [];
    assert SlimTools.Firsts(one, Itself) == one;
    assert SlimTools.Seen(one, Itself, "x") by { assert Itself(one[0]) == "x"; }
  }

  function Occurrences(names: seq<string>, name: string): nat {
    if names == [] then 0
    else Occurrences(names[..|names| - 1], name) + if names[|names| - 1] == name then 1 else 0
  }

  lemma {:induction false} OccursTwice(names: seq<string>, i: nat, j: nat)
    requires i < j < |names| && names[i] == names[j]
    ensures Occurrences(names, names[j]) >= 2
  {
    if j == |names| - 1 {
      OccursOnce(names[..j], i);
    } else {
      OccursTwice(names[..|names| - 1], i, j);
    }
  }

  lemma {:induction false} OccursOnce(names: seq<string>, i: nat)
    requires i < |names|
    ensures Occurrences(names, names[i]) >= 1
  {
    if i < |names| - 1 { OccursOnce(names[..|names| - 1], i); }
  }

  // Only the first two passes find anything, and the second overwrites what the first one saved.
  lemma {:induction false} PassesRun(names: seq<string>, name: string)
    ensures var strats := Listed(names, Registered(name));
            && Final(Repeated(0), strats) == Repeated(Occurrences(names, name))
            && PerStrategy(Repeated(0), strats, Size) == if Occurrences(names, name) == 0 then map[] else map[name := 1]
  {
    hide SlimDoc, Repeated, Size;
    if names != [] {
      var n := |names| - 1;
      var strats := Listed(names, Registered(name));
      assert strats[..n] == Listed(names[..n], Registered(name));
      PassesRun(names[..n], name);
      SlimRepeated(Occurrences(names[..n], name));
      SlimRepeated(Occurrences(names[..n], name) + 1);
      AllPassed(Occurrences(names[..n], name));
    }
  }

  lemma AllPassed(passes: nat)
    ensures passes >= 2 ==> Repeated(passes + 1) == Repeated(passes)
  {
  }

  // Deduplicating a request with a definition repeated in both arrays, under a name listed twice, removes two
  // definitions and reports one.
  lemma RepeatedStrategyUnderstates(names: seq<string>, name: string)
    requires Occurrences(names, name) >= 2
    ensures var strats := Listed(names, Registered(name));
            && Size(Repeated(0)) - Size(Final(Repeated(0), strats)) == 2
            && SumValues(PerStrategy(Repeated(0), strats, Size)) == 1.0
  {
    hide SumValues, Size, Repeated;
    PassesRun(names, name);
    SlimRepeated(0);
    SlimRepeated(Occurrences(names, name));
    EmptySum();
    AddEntry(map[], name, 1);
  }

  // For a list of names the saving is never understated, whatever strategies the names stand for, whatever the
  // body and however tokens are counted, exactly when no name is listed twice.
  lemma NeverUnderstatedIff(names: seq<string>)
    ensures (forall registry: Registry, body: Doc, tokens: Tokens<Doc> ::
               !Understates(Listed(names, registry), body, tokens))
       <==> Distinct(names)
  {
    hide SumValues, PerStrategy, Final;
    if Distinct(names) {
      forall registry: Registry, body: Doc, tokens: Tokens<Doc>
        ensures !Understates(Listed(names, registry), body, tokens)
      {
        SavedIsHonest(body, Listed(names, registry), tokens);
      }
    } else {
      var i, j :| 0 <= i < j < |names| && names[i] == names[j];
      OccursTwice(names, i, j);
      RepeatedStrategyUnderstates(names, names[j]);
      assert Understates(Listed(names, Registered(names[j])), Repeated(0), Size);
    }
  }
}
