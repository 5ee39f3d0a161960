// The collaboration broker: isolation walls, matching, and one latest signal per developer.
module Broker {
  import opened Prelude

  // The embedding is opaque; only its similarity to another one is used.
  type Embedding = seq<real>
  type Similarity = (Embedding, Embedding) -> real

  datatype Signal = Signal(actor: string, embedding: Embedding, topic: string, client: Option<string>,
                           residency: string, org: string, objective: Option<string>, solved: bool)

  datatype Mode = LiveDuplication | SolvedReuse

  // The similarity is stored rounded to three digits, as thousandths.
  datatype Match = Match(a: string, b: string, similarity: int, topic: string, mode: Mode)

  // Python's truth of an optional string.
  predicate Truthy(s: Option<string>) { s.Some? && s.value != "" }

  predicate WallOk(x: Signal, y: Signal) {
    if x.org != y.org then false
    else if (Truthy(x.client) || Truthy(y.client)) && x.client != y.client then false
    else x.residency == y.residency
  }

  // ----- the walls are a partition -----

  datatype Class = Class(org: string, client: string, residency: string)

  // No client and an empty client are one and the same.
  function ClassOf(s: Signal): Class {
    Class(s.org, if s.client.Some? then s.client.value else "", s.residency)
  }

  lemma WallsArePartition(x: Signal, y: Signal)
    ensures WallOk(x, y) <==> ClassOf(x) == ClassOf(y)
  {
  }

  lemma WallIsEquivalence(x: Signal, y: Signal, z: Signal)
    ensures WallOk(x, x)
    ensures WallOk(x, y) ==> WallOk(y, x)
    ensures WallOk(x, y) && WallOk(y, z) ==> WallOk(x, z)
  {
  }

  // ----- matching -----

  predicate SameObjective(x: Signal, y: Signal) {
    if Truthy(x.objective) && Truthy(y.objective) then x.objective == y.objective
    else x.topic != "" && y.topic != "" && x.topic == y.topic
  }

  datatype Config = Config(threshold: real, crossThreshold: real, similarity: Similarity)

  function Bar(cfg: Config, x: Signal, y: Signal): real {
    if SameObjective(x, y) || x.solved || y.solved then cfg.threshold else cfg.crossThreshold
  }

  predicate Matches(cfg: Config, x: Signal, y: Signal) {
    x.actor != y.actor && WallOk(x, y) && cfg.similarity(x.embedding, y.embedding) >= Bar(cfg, x, y)
  }

  function MatchOf(cfg: Config, x: Signal, y: Signal): Match {
    Match(x.actor, y.actor, RoundHalfEven(cfg.similarity(x.embedding, y.embedding) * 1000.0), y.topic,
          if x.solved || y.solved then SolvedReuse else LiveDuplication)
  }

  // The matches a scan of these signals reports for x, in scan order.
  function Scan(cfg: Config, x: Signal, signals: seq<Signal>): seq<Match> {
    if signals == [] then []
    else
      var n := |signals| - 1;
      Scan(cfg, x, signals[..n]) + if Matches(cfg, x, signals[n]) then [MatchOf(cfg, x, signals[n])] else []
  }

  // Scanning only one class, without looking at the walls.
  function ClassScan(cfg: Config, x: Signal, signals: seq<Signal>): seq<Match> {
    if signals == [] then []
    else
      var n := |signals| - 1;
      var y := signals[n];
      ClassScan(cfg, x, signals[..n])
      + if x.actor != y.actor && cfg.similarity(x.embedding, y.embedding) >= Bar(cfg, x, y)
        then [MatchOf(cfg, x, y)] else []
  }

  function Behind(c: Class): Signal -> bool { (s: Signal) => ClassOf(s) == c }

  function InClass(c: Class, signals: seq<Signal>): seq<Signal> { Filter(signals, Behind(c)) }

  // The filtered scan of everything returns the same matches, in the same order, as a scan of the
  // signal's own (org, client, residency) partition: a partitioned index may replace it.
  lemma {:induction false} ScanOfOwnPartition(cfg: Config, x: Signal, signals: seq<Signal>)
    ensures Scan(cfg, x, signals) == ClassScan(cfg, x, InClass(ClassOf(x), signals))
  {
    if signals != [] {
      var n := |signals| - 1;
      var own := InClass(ClassOf(x), signals[..n]);
      ScanOfOwnPartition(cfg, x, signals[..n]);
      WallsArePartition(x, signals[n]);
      FilterLast(signals, Behind(ClassOf(x)));
      if ClassOf(signals[n]) == ClassOf(x) {
        assert (own + [signals[n]])[..|own|] == own;
      } else {
        assert own + [] == own;
      }
    }
  }

  // Sound and complete for the bar, and never with oneself.
  lemma {:induction false} ScanIsExact(cfg: Config, x: Signal, signals: seq<Signal>, m: Match)
    ensures m in Scan(cfg, x, signals) <==>
            exists i :: 0 <= i < |signals| && Matches(cfg, x, signals[i]) && m == MatchOf(cfg, x, signals[i])
    ensures m in Scan(cfg, x, signals) ==> m.a == x.actor && m.b != x.actor
  {
    hide Matches, MatchOf;
    if signals != [] {
      var n := |signals| - 1;
      ScanIsExact(cfg, x, signals[..n], m);
      if i :| 0 <= i < |signals| && Matches(cfg, x, signals[i]) && m == MatchOf(cfg, x, signals[i]) {
        assert i < n ==> signals[..n][i] == signals[i];
      }
      if i :| 0 <= i < n && Matches(cfg, x, signals[..n][i]) && m == MatchOf(cfg, x, signals[..n][i]) {
        assert signals[i] == signals[..n][i];
      }
      MatchFacts(cfg, x, signals[n]);
    }
  }

  lemma MatchFacts(cfg: Config, x: Signal, y: Signal)
    ensures Matches(cfg, x, y) ==> MatchOf(cfg, x, y).a == x.actor && MatchOf(cfg, x, y).b != x.actor
  {
  }

  ghost predicate Symmetric(similarity: Similarity) {
    forall a, b :: similarity(a, b) == similarity(b, a)
  }

  // Whether two signals match, how strongly and in which mode does not depend on who submitted first. The
  // topic does: it is the earlier signal's.
  lemma MatchingIsSymmetric(cfg: Config, x: Signal, y: Signal)
    requires Symmetric(cfg.similarity)
    ensures Matches(cfg, x, y) <==> Matches(cfg, y, x)
    ensures var m := MatchOf(cfg, y, x); MatchOf(cfg, x, y) == Match(x.actor, y.actor, m.similarity, y.topic, m.mode)
  {
    WallIsEquivalence(x, y, x);
    WallIsEquivalence(y, x, y);
  }

  // Between the two bars only work on the same objective, or work already solved, is reported. The objective is
  // compared by id when both sides have one, and by topic otherwise.
  lemma TwoBars(cfg: Config, x: Signal, y: Signal)
    requires cfg.threshold <= cfg.crossThreshold
    ensures var sim := cfg.similarity(x.embedding, y.embedding);
            Scan(cfg, x, [y]) != [] <==>
            && x.actor != y.actor && x.org == y.org && x.residency == y.residency
            && (x.client == y.client || (x.client in {None, Some("")} && y.client in {None, Some("")}))
            && sim >= cfg.threshold
            && (|| sim >= cfg.crossThreshold || x.solved || y.solved
                || if x.objective in {None, Some("")} || y.objective in {None, Some("")} then x.topic == y.topic != ""
                   else x.objective == y.objective)
  {
    assert [y][..0] == [];
  }

  // A report names the two developers, the earlier signal's topic, the similarity to three digits, and a solved
  // pattern exactly when one of the two is.
  lemma WhatIsReported(cfg: Config, x: Signal, signals: seq<Signal>, m: Match)
    requires m in Scan(cfg, x, signals)
    ensures exists i :: 0 <= i < |signals| && Reports(m, cfg, x, signals[i])
  {
    ScanIsExact(cfg, x, signals, m);
    var i :| 0 <= i < |signals| && Matches(cfg, x, signals[i]) && m == MatchOf(cfg, x, signals[i]);
    assert Reports(m, cfg, x, signals[i]);
  }

  predicate Reports(m: Match, cfg: Config, x: Signal, y: Signal) {
    && m.a == x.actor && m.b == y.actor && m.topic == y.topic
    && (m.mode == SolvedReuse <==> x.solved || y.solved)
    && -0.5 <= m.similarity as real - 1000.0 * cfg.similarity(x.embedding, y.embedding) <= 0.5
  }

  // With an id on one side only, equal topics are enough for the lower bar.
  lemma TopicStandsInForAMissingId(cfg: Config, x: Signal, y: Signal)
    requires x.objective.Some? && y.objective == None && x.topic == y.topic != ""
    ensures Bar(cfg, x, y) == cfg.threshold
  {
  }

  // ----- memory -----

  function NotBy(actor: string): Signal -> bool { (s: Signal) => s.actor != actor }

  function Others(signals: seq<Signal>, actor: string): seq<Signal> { Filter(signals, NotBy(actor)) }

  // Python's signals[-n:], which for n = 0 is the whole list.
  function KeepLast(signals: seq<Signal>, n: nat): seq<Signal> {
    if n == 0 || |signals| <= n then signals else signals[|signals| - n..]
  }

  function Remember(signals: seq<Signal>, sig: Signal, max: nat): seq<Signal> {
    var all := Others(signals, sig.actor) + [sig];
    if |all| > max then KeepLast(all, max) else all
  }

  lemma OthersAre(signals: seq<Signal>, actor: string)
    ensures forall s :: s in Others(signals, actor) ==> s in signals && s.actor != actor
  {
  }

  class CollaborationBroker {
    const cfg: Config
    const maxSignals: nat
    var signals: seq<Signal>

    constructor (cfg: Config, maxSignals: nat)
      ensures this.cfg == cfg && this.maxSignals == maxSignals && signals == []
    {
      this.cfg, this.maxSignals, signals := cfg, maxSignals, [];
    }

    method Submit(sig: Signal) returns (matches: seq<Match>)
      modifies this
      ensures matches == Scan(cfg, sig, old(signals))
      ensures signals == Remember(old(signals), sig, maxSignals)
      ensures signals != [] && signals[|signals| - 1] == sig
      ensures forall s :: s in signals ==> s == sig || (s in old(signals) && s.actor != sig.actor)
    {
      hide MatchOf, Others;
      matches := [];
      for i := 0 to |signals|
        invariant matches == Scan(cfg, sig, signals[..i])
      {
        assert signals[..i + 1][..i] == signals[..i];
        var other := signals[i];
        if other.actor != sig.actor && WallOk(sig, other) {
          var sim := cfg.similarity(sig.embedding, other.embedding);
          if sim >= Bar(cfg, sig, other) {
            matches := matches + [MatchOf(cfg, sig, other)];
          }
        }
      }
      assert signals[..|signals|] == signals;
      OthersAre(signals, sig.actor);
      signals := Others(signals, sig.actor) + [sig];
      if |signals| > maxSignals {
        signals := KeepLast(signals, maxSignals);
      }
    }
  }

  // ----- memory over whole runs -----

  function Run(history: seq<Signal>, max: nat): seq<Signal> {
    if history == [] then []
    else Remember(Run(history[..|history| - 1], max), history[|history| - 1], max)
  }

  predicate SubmitsAgain(later: seq<Signal>, actor: string) {
    exists i :: 0 <= i < |later| && later[i].actor == actor
  }

  // The history reduced to each developer's latest submission, in order of last submission.
  function Latest(history: seq<Signal>): seq<Signal> {
    if history == [] then []
    else if SubmitsAgain(history[1..], history[0].actor) then Latest(history[1..])
    else [history[0]] + Latest(history[1..])
  }

  predicate DistinctActors(signals: seq<Signal>) {
    forall i, j :: 0 <= i < j < |signals| ==> signals[i].actor != signals[j].actor
  }

  lemma {:induction false} LatestAppend(history: seq<Signal>, sig: Signal)
    ensures Latest(history + [sig]) == Others(Latest(history), sig.actor) + [sig]
  {
    if history == [] {
      assert ([] + [sig])[1..] == [];
    } else {
      var rest := history[1..];
      hide SubmitsAgain;
      var first, tail := history[0], Latest(rest);
      LatestAppend(rest, sig);
      assert (history + [sig])[1..] == rest + [sig];
      SubmitsAgainAppend(rest, sig, first.actor);
      if !SubmitsAgain(rest, first.actor) {
        assert Latest(history) == [first] + tail && ([first] + tail)[1..] == tail;
        assert [first] + (Others(tail, sig.actor) + [sig]) == ([first] + Others(tail, sig.actor)) + [sig];
      }
    }
  }

  lemma SubmitsAgainAppend(later: seq<Signal>, sig: Signal, actor: string)
    ensures SubmitsAgain(later + [sig], actor) <==> SubmitsAgain(later, actor) || sig.actor == actor
  {
    if i :| 0 <= i < |later| && later[i].actor == actor { assert (later + [sig])[i].actor == actor; }
    assert (later + [sig])[|later|] == sig;
  }

  lemma {:induction false} LatestDistinct(history: seq<Signal>)
    ensures DistinctActors(Latest(history))
    ensures forall i :: 0 <= i < |Latest(history)| ==> SubmitsAgain(history, Latest(history)[i].actor)
  {
    if history != [] {
      var rest := history[1..];
      LatestDistinct(rest);
      forall i | 0 <= i < |Latest(rest)| ensures SubmitsAgain(history, Latest(rest)[i].actor) {
        var j :| 0 <= j < |rest| && rest[j].actor == Latest(rest)[i].actor;
        assert history[j + 1].actor == Latest(rest)[i].actor;
      }
    }
  }

  lemma {:induction false} OthersDropsOne(signals: seq<Signal>, actor: string)
    requires DistinctActors(signals)
    ensures |Others(signals, actor)| >= |signals| - 1
    ensures !SubmitsAgain(signals, actor) ==> |Others(signals, actor)| == |signals|
  {
    if signals != [] {
      OthersDropsOne(signals[1..], actor);
      if i :| 0 <= i < |signals[1..]| && signals[1..][i].actor == actor { assert signals[i + 1].actor == actor; }
      if signals[0].actor == actor { assert !SubmitsAgain(signals[1..], actor); }
    }
  }

  // Forgetting all but the newest before a submission makes no difference to the newest after it.
  lemma {:induction false} ForgettingCommutes(signals: seq<Signal>, sig: Signal, max: nat)
    requires DistinctActors(signals) && max >= 1
    ensures Newest(Others(Newest(signals, max), sig.actor) + [sig], max)
         == Newest(Others(signals, sig.actor) + [sig], max)
  {
    hide Others, Newest;
    if |signals| <= max {
      NewestAll(signals, max);
    } else {
      var rest := signals[1..];
      var kept := Others(rest, sig.actor) + [sig];
      ForgettingCommutes(rest, sig, max);
      NewestDrop(signals, max);
      OthersDropsOne(rest, sig.actor);
      OthersFirst(signals, sig);
      if signals[0].actor != sig.actor {
        assert ([signals[0]] + kept)[1..] == kept;
        NewestDrop([signals[0]] + kept, max);
      }
    }
  }

  lemma NewestAll(s: seq<Signal>, max: nat)
    requires |s| <= max
    ensures Newest(s, max) == s
  {
  }

  lemma NewestDrop(s: seq<Signal>, max: nat)
    requires |s| > max
    ensures Newest(s, max) == Newest(s[1..], max)
  {
  }

  lemma OthersFirst(signals: seq<Signal>, sig: Signal)
    requires signals != []
    ensures var kept := Others(signals[1..], sig.actor) + [sig];
            Others(signals, sig.actor) + [sig] == if signals[0].actor == sig.actor then kept else [signals[0]] + kept
  {
  }

  lemma RememberKeepsNewest(signals: seq<Signal>, sig: Signal, max: nat)
    requires max >= 1
    ensures Remember(signals, sig, max) == Newest(Others(signals, sig.actor) + [sig], max)
  {
    hide Others;
  }

  // After any run the broker holds the last maxSignals entries of the history reduced to each developer's
  // latest submission, developers who were evicted and came back included.
  lemma {:induction false} MemoryIsLatestPerActor(history: seq<Signal>, max: nat)
    requires max >= 1
    ensures Run(history, max) == Newest(Latest(history), max)
  {
    if history != [] {
      hide Newest, Others, Remember, Latest;
      var n := |history| - 1;
      var sig := history[n];
      MemoryIsLatestPerActor(history[..n], max);
      assert history[..n] + [sig] == history;
      LatestAppend(history[..n], sig);
      LatestDistinct(history[..n]);
      RememberKeepsNewest(Run(history[..n], max), sig, max);
      ForgettingCommutes(Latest(history[..n]), sig, max);
    }
  }

  lemma {:induction false} ZeroForgetsNothing(history: seq<Signal>)
    ensures Run(history, 0) == Latest(history)
  {
    if history != [] {
      var n := |history| - 1;
      ZeroForgetsNothing(history[..n]);
      assert history[..n] + [history[n]] == history;
      LatestAppend(history[..n], history[n]);
    }
  }

  // The bound is kept for every history exactly when it is not zero: a bound of zero keeps everyone.
  lemma BoundHoldsIffPositive(max: nat, sig: Signal)
    ensures (forall history :: |Run(history, max)| <= max) <==> max >= 1
  {
    if max >= 1 {
      forall history ensures |Run(history, max)| <= max { MemoryIsLatestPerActor(history, max); }
    } else {
      ZeroForgetsNothing([sig]);
      assert [sig][1..] == [];
      assert |Run([sig], 0)| == 1;
    }
  }
}
