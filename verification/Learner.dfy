// The self-learning work-type vocabulary: support counts per term, promotion, withdrawal and eviction.
module Learner {
  import opened Prelude

  // A dict from labels to positive counts is a multiset of labels.
  type Bucket = multiset<string>
  type Counts = map<string, Bucket>
  type Learned = map<string, string>

  datatype Config = Config(minCount: nat, dominantShare: real, maxTerms: nat)

  predicate IsTop(b: Bucket, l: string) {
    l in b && forall m :: m in b ==> b[m] <= b[l]
  }

  // count / total >= dominant_share
  predicate ShareMet(cfg: Config, b: Bucket, l: string) {
    b[l] as real >= cfg.dominantShare * |b| as real
  }

  predicate Dominates(cfg: Config, b: Bucket, l: string) { IsTop(b, l) && ShareMet(cfg, b, l) }

  ghost predicate Promoted(cfg: Config, b: Bucket) {
    |b| >= cfg.minCount && exists l :: Dominates(cfg, b, l)
  }

  // A term is learned exactly when its counts promote it, and under a label on top of them.
  ghost predicate Exact(cfg: Config, counts: Counts, learned: Learned) {
    && (forall t :: t in counts ==> counts[t] != multiset{})
    && (forall t :: t in learned <==> t in counts && Promoted(cfg, counts[t]))
    && (forall t :: t in learned ==> Dominates(cfg, counts[t], learned[t]))
  }

  lemma TwoLabels(b: Bucket, l: string, m: string)
    requires l != m
    ensures b[l] + b[m] <= |b|
  {
    var rest := b[l := 0][m := 0];
    assert |b[l := 0]| == |b| - b[l];
    assert |rest| == |b[l := 0]| - b[m];
  }

  // Above one half, the dominating label is the unique top, and no other label can replace it.
  lemma DominantIsUnique(cfg: Config, b: Bucket, l: string, m: string)
    requires cfg.dominantShare > 0.5 && Dominates(cfg, b, l) && m != l
    ensures b[m] < b[l] && !Dominates(cfg, b, m)
  {
    TwoLabels(b, l, m);
    assert b[l] <= |b| && b[l] > 0;
    OverHalf(cfg.dominantShare, |b|, b[l], b[m]);
  }

  lemma OverHalf(share: real, n: nat, x: nat, y: nat)
    requires share > 0.5 && n > 0 && x as real >= share * n as real && x + y <= n
    ensures y < x
  {
    var r := n as real;
    Product(share - 0.5, r);
    Distributes(share, 0.5, r);
    assert x as real > 0.5 * r;
    MoreThanHalf(n, x, y);
  }

  lemma MoreThanHalf(n: nat, x: nat, y: nat)
    requires x as real > 0.5 * n as real && x + y <= n
    ensures y < x
  {
  }

  lemma Product(a: real, b: real)
    requires a > 0.0 && b > 0.0
    ensures a * b > 0.0
  {
  }

  lemma Distributes(a: real, b: real, c: real)
    ensures (a - b) * c == a * c - b * c
  {
  }

  // One half is the exact border: at or below it two labels can dominate the same term.
  lemma UniqueIffMajority(cfg: Config)
    ensures (forall b: Bucket, l, m :: Dominates(cfg, b, l) && Dominates(cfg, b, m) ==> l == m)
       <==> cfg.dominantShare > 0.5
  {
    if cfg.dominantShare > 0.5 {
      forall b: Bucket, l, m | Dominates(cfg, b, l) && Dominates(cfg, b, m) ensures l == m {
        if l != m { DominantIsUnique(cfg, b, l, m); }
      }
    } else {
      var b := multiset{"a", "b"};
      assert |b| == 2 && b["a"] == 1 && b["b"] == 1;
      assert cfg.dominantShare * 2.0 <= 1.0;
      assert Dominates(cfg, b, "a") && Dominates(cfg, b, "b");
    }
  }

  // A term seen a times under one label and less often, b times, under another is learned, under the first, exactly
  // when it was seen often enough and the first has its share.
  lemma LearnedIff(cfg: Config, counts: Counts, learned: Learned, t: string, w: string, v: string, a: nat, b: nat)
    requires Exact(cfg, counts, learned) && w != v && a > b
    requires t in counts && counts[t] == multiset{}[w := a][v := b]
    ensures t in learned <==> a + b >= cfg.minCount && a as real >= cfg.dominantShare * (a + b) as real
    ensures t in learned ==> learned[t] == w
  {
    hide IsTop, ShareMet, Promoted;
    OneOnTop(cfg, w, v, a, b);
  }

  lemma OneOnTop(cfg: Config, w: string, v: string, a: nat, b: nat)
    requires w != v && a > b
    ensures var bucket := multiset{}[w := a][v := b];
            && (forall l :: Dominates(cfg, bucket, l) ==> l == w)
            && (Promoted(cfg, bucket) <==> a + b >= cfg.minCount && a as real >= cfg.dominantShare * (a + b) as real)
  {
    hide IsTop, ShareMet;
    var bucket := multiset{}[w := a][v := b];
    TwoInBucket(w, v, a, b);
    TopOfTwo(w, v, a, b);
    ShareOf(cfg, bucket, w);
    if ShareMet(cfg, bucket, w) { assert Dominates(cfg, bucket, w); }
  }

  lemma TopOfTwo(w: string, v: string, a: nat, b: nat)
    requires w != v && a > b
    ensures var bucket := multiset{}[w := a][v := b]; forall l :: IsTop(bucket, l) <==> l == w
  {
    TwoInBucket(w, v, a, b);
    assert w in multiset{}[w := a][v := b];
  }

  lemma ShareOf(cfg: Config, b: Bucket, l: string)
    ensures ShareMet(cfg, b, l) <==> b[l] as real >= cfg.dominantShare * |b| as real
  {
  }

  lemma TwoInBucket(w: string, v: string, a: nat, b: nat)
    requires w != v
    ensures var bucket := multiset{}[w := a][v := b];
            && bucket[w] == a && bucket[v] == b && |bucket| == a + b
            && forall m :: m in bucket ==> m == w || m == v
  {
    assert |multiset{}[w := a]| == a;
  }

  // ----- order -----

  function CountsOf(log: seq<(string, string)>): Counts {
    if log == [] then map[]
    else
      var before := CountsOf(log[..|log| - 1]);
      var (t, l) := log[|log| - 1];
      before[t := (if t in before then before[t] else multiset{}) + multiset{l}]
  }

  lemma {:induction false} CountsAreMultiplicities(log: seq<(string, string)>, t: string, l: string)
    ensures (if t in CountsOf(log) then CountsOf(log)[t][l] else 0) == multiset(log)[(t, l)]
    ensures t in CountsOf(log) ==> CountsOf(log)[t] != multiset{}
  {
    if log != [] {
      var n := |log| - 1;
      CountsAreMultiplicities(log[..n], t, l);
      assert log == log[..n] + [log[n]];
      assert multiset(log)[(t, l)] == multiset(log[..n])[(t, l)] + if log[n] == (t, l) then 1 else 0;
    }
  }

  lemma CountsIgnoreOrder(log: seq<(string, string)>, log': seq<(string, string)>)
    requires multiset(log) == multiset(log')
    ensures CountsOf(log) == CountsOf(log')
  {
    CountsWithin(log, log');
    CountsWithin(log', log);
  }

  lemma CountsWithin(log: seq<(string, string)>, log': seq<(string, string)>)
    requires multiset(log) == multiset(log')
    ensures forall t :: t in CountsOf(log) ==> t in CountsOf(log') && CountsOf(log)[t] == CountsOf(log')[t]
  {
    forall t | t in CountsOf(log)
      ensures t in CountsOf(log') && CountsOf(log)[t] == CountsOf(log')[t]
    {
      CountsAreMultiplicities(log, t, "");
      var l0 :| l0 in CountsOf(log)[t];
      CountsAreMultiplicities(log, t, l0);
      CountsAreMultiplicities(log', t, l0);
      forall l ensures CountsOf(log)[t][l] == CountsOf(log')[t][l] {
        CountsAreMultiplicities(log, t, l);
        CountsAreMultiplicities(log', t, l);
      }
    }
  }

  // Above one half, the vocabulary is a function of the counts.
  lemma {:induction false} LearnedDependsOnCounts(cfg: Config, counts: Counts, learned: Learned, learned': Learned)
    requires cfg.dominantShare > 0.5 && Exact(cfg, counts, learned) && Exact(cfg, counts, learned')
    ensures learned == learned'
  {
    forall t | t in learned ensures learned[t] == learned'[t] {
      if learned[t] != learned'[t] { DominantIsUnique(cfg, counts[t], learned[t], learned'[t]); }
    }
  }

  // Without eviction the vocabulary does not depend on the order of the observations.
  lemma {:induction false} OrderDoesNotMatter(cfg: Config, log: seq<(string, string)>, log': seq<(string, string)>,
                                              learned: Learned, learned': Learned)
    requires cfg.dominantShare > 0.5 && multiset(log) == multiset(log')
    requires Exact(cfg, CountsOf(log), learned) && Exact(cfg, CountsOf(log'), learned')
    ensures CountsOf(log) == CountsOf(log') && learned == learned'
  {
    CountsIgnoreOrder(log, log');
    LearnedDependsOnCounts(cfg, CountsOf(log), learned, learned');
  }

  // ----- eviction -----

  function Max(a: nat, b: nat): nat { if a >= b then a else b }

  // No dropped term has more support than a kept one.
  ghost predicate SupportedLess(counts: Counts, drop: set<string>, keep: set<string>) {
    forall t, u :: t in drop && u in keep && t in counts && u in counts ==> |counts[t]| <= |counts[u]|
  }

  // What one eviction may do: unlearned terms go, least supported first, down to the bound.
  ghost predicate EvictsTo(cfg: Config, learned: Learned, counts: Counts, counts': Counts) {
    var drop := counts.Keys - counts'.Keys;
    && counts' == counts - drop && drop !! learned.Keys
    && SupportedLess(counts, drop, counts'.Keys - learned.Keys)
    && |drop| == Min(Excess(cfg, counts), |counts.Keys - learned.Keys|)
  }

  // How many terms are above the bound; an eviction drops that many, or all that are unlearned.
  function Excess(cfg: Config, counts: Counts): nat { if |counts| > cfg.maxTerms then |counts| - cfg.maxTerms else 0 }

  function Min(a: nat, b: nat): nat { if a <= b then a else b }

  predicate LeastSupported(terms: set<string>, counts: Counts, t: string)
    requires terms <= counts.Keys
  {
    t in terms && forall u :: u in terms ==> |counts[t]| <= |counts[u]|
  }

  lemma {:induction false} LeastExists(terms: set<string>, counts: Counts)
    requires terms != {} && terms <= counts.Keys
    ensures exists t :: LeastSupported(terms, counts, t)
    decreases terms
  {
    var x :| x in terms;
    var rest := terms - {x};
    if rest == {} {
      assert terms == {x};
      assert LeastSupported(terms, counts, x);
    } else {
      LeastExists(rest, counts);
      var y :| LeastSupported(rest, counts, y);
      assert terms == rest + {x};
      if |counts[x]| <= |counts[y]| {
        assert LeastSupported(terms, counts, x);
      } else {
        assert LeastSupported(terms, counts, y);
      }
    }
  }

  lemma EvictionKeepsExact(cfg: Config, learned: Learned, counts: Counts, counts': Counts)
    requires Exact(cfg, counts, learned) && EvictsTo(cfg, learned, counts, counts')
    ensures Exact(cfg, counts', learned)
    ensures |counts'| <= Max(cfg.maxTerms, |learned|)
    ensures |counts| <= cfg.maxTerms ==> counts' == counts
    ensures |counts| > cfg.maxTerms ==> |counts'| == if cfg.maxTerms >= |learned| then cfg.maxTerms else |learned|
  {
    hide Exact, SupportedLess;
    if |counts| <= cfg.maxTerms { EvictedNothing(cfg, learned, counts, counts'); }
    ExactKeys(cfg, counts, learned);
    ExactWithout(cfg, learned, counts, counts.Keys - counts'.Keys);
    EvictionFits(cfg, learned, counts, counts.Keys - counts'.Keys);
  }

  lemma ExactWithout(cfg: Config, learned: Learned, counts: Counts, drop: set<string>)
    requires Exact(cfg, counts, learned) && drop !! learned.Keys
    ensures Exact(cfg, counts - drop, learned)
  {
    hide Promoted, Dominates;
  }

  lemma EvictionFits(cfg: Config, learned: Learned, counts: Counts, drop: set<string>)
    requires learned.Keys <= counts.Keys && drop <= counts.Keys
    requires |drop| == Min(Excess(cfg, counts), |counts.Keys - learned.Keys|)
    ensures |counts - drop| <= Max(cfg.maxTerms, |learned|)
    ensures |counts| > cfg.maxTerms ==>
              |counts - drop| == if cfg.maxTerms >= |learned| then cfg.maxTerms else |learned|
  {
    DropCount(counts, drop);
    Unlearned(counts, learned);
  }

  lemma Unlearned(counts: Counts, learned: Learned)
    requires learned.Keys <= counts.Keys
    ensures |counts.Keys - learned.Keys| == |counts| - |learned|
  {
    assert counts.Keys == learned.Keys + (counts.Keys - learned.Keys);
    assert |counts.Keys| == |counts| && |learned.Keys| == |learned|;
  }

  // The counts after the terms of one observation, before any eviction.
  function Taught(counts: Counts, terms: seq<string>, workType: string): Counts {
    if terms == [] then counts
    else
      Raised(Taught(counts, terms[..|terms| - 1], workType), terms[|terms| - 1], workType)
  }

  lemma NoneTaught(counts: Counts, terms: seq<string>, workType: string)
    ensures Taught(counts, terms[..0], workType) == counts && Labelled(terms[..0], workType) == []
  {
  }

  // The counts after one more observation of a term.
  function Raised(counts: Counts, term: string, workType: string): Counts {
    counts[term := (if term in counts then counts[term] else multiset{}) + multiset{workType}]
  }

  lemma OneTaught(counts: Counts, terms: seq<string>, workType: string, i: nat)
    requires i < |terms|
    ensures Taught(counts, terms[..i + 1], workType) == Raised(Taught(counts, terms[..i], workType), terms[i], workType)
    ensures Labelled(terms[..i + 1], workType) == Labelled(terms[..i], workType) + [(terms[i], workType)]
  {
    assert terms[..i + 1][..i] == terms[..i];
  }

  lemma OneLogged(log: seq<(string, string)>, term: string, workType: string)
    ensures CountsOf(log + [(term, workType)]) == Raised(CountsOf(log), term, workType)
  {
    assert (log + [(term, workType)])[..|log|] == log;
  }

  // Each term gains its occurrences under the label; nothing else changes.
  lemma {:induction false} TaughtCounts(counts: Counts, terms: seq<string>, workType: string, t: string, l: string)
    ensures var after := Taught(counts, terms, workType);
            && (t in after <==> t in counts || t in terms)
            && (t in after ==> after[t][l] == (if t in counts then counts[t][l] else 0)
                                              + if l == workType then multiset(terms)[t] else 0)
  {
    if terms != [] {
      var n := |terms| - 1;
      TaughtCounts(counts, terms[..n], workType, t, l);
      assert terms == terms[..n] + [terms[n]];
      assert multiset(terms)[t] == multiset(terms[..n])[t] + if terms[n] == t then 1 else 0;
    }
  }

  // What one eviction leaves: the counts of the terms that stay, every learned term, and of the others none with
  // less support than one that went.
  ghost predicate Kept(learned: Learned, taught: Counts, kept: Counts) {
    && (forall t :: t in kept ==> t in taught && kept[t] == taught[t])
    && (forall t :: t in learned ==> t in kept)
    && (forall t, u :: t in taught && t !in kept && u in kept && u !in learned ==> |taught[t]| <= |taught[u]|)
  }

  lemma WhatIsKept(cfg: Config, learned: Learned, taught: Counts, kept: Counts)
    requires learned.Keys <= taught.Keys && EvictsTo(cfg, learned, taught, kept)
    ensures Kept(learned, taught, kept)
  {
    hide EvictsTo, SupportedLess;
    var drop := taught.Keys - kept.Keys;
    Dropped(cfg, learned, taught, kept);
    Remaining(taught, kept, drop);
    Support(taught, drop, kept.Keys - learned.Keys);
  }

  lemma Dropped(cfg: Config, learned: Learned, taught: Counts, kept: Counts)
    requires EvictsTo(cfg, learned, taught, kept)
    ensures var drop := taught.Keys - kept.Keys;
            kept == taught - drop && drop !! learned.Keys && SupportedLess(taught, drop, kept.Keys - learned.Keys)
  {
    hide SupportedLess, Excess, Min;
  }

  lemma Remaining(taught: Counts, kept: Counts, drop: set<string>)
    requires kept == taught - drop
    ensures forall t :: t in kept <==> t in taught && t !in drop
    ensures forall t :: t in kept ==> kept[t] == taught[t]
  {
  }

  lemma Support(counts: Counts, drop: set<string>, keep: set<string>)
    requires SupportedLess(counts, drop, keep)
    ensures forall t, u :: t in drop && u in keep && t in counts && u in counts ==> |counts[t]| <= |counts[u]|
  {
  }

  // ----- the learner -----

  class WorkTypeLearner {
    const cfg: Config
    var counts: Counts
    var learned: Learned
    ghost var log: seq<(string, string)>   // every (term, workType) observed
    ghost var evicted: bool                // whether an eviction ever dropped a term

    ghost predicate Valid() reads this {
      && Exact(cfg, counts, learned)
      && |counts| <= Max(cfg.maxTerms, |learned|)
      && (!evicted ==> counts == CountsOf(log))
    }

    constructor (cfg: Config)
      ensures Valid() && this.cfg == cfg && counts == map[] && log == [] && !evicted
    {
      this.cfg, counts, learned, log, evicted := cfg, map[], map[], [], false;
    }

    // One term of one observation, and the promotion or withdrawal that follows it.
    method Teach(term: string, workType: string)
      requires Exact(cfg, counts, learned)
      modifies this`counts, this`learned
      ensures Exact(cfg, counts, learned)
      ensures var was := if term in old(counts) then old(counts)[term] else multiset{};
              counts == old(counts)[term := was + multiset{workType}]
    {
      hide Exact, Promoted, Dominates, IsTop, ShareMet;
      var bucket := (if term in counts then counts[term] else multiset{}) + multiset{workType};
      assert workType in bucket;
      var total := |bucket|;
      if total < cfg.minCount {
        TooFew(cfg, counts, learned, term, bucket);
        counts := counts[term := bucket];
        return;
      }
      TopExists(bucket);
      var top :| top in bucket && IsTop(bucket, top);
      if ShareMet(cfg, bucket, top) {
        Promotes(cfg, counts, learned, term, bucket, top);
        counts, learned := counts[term := bucket], learned[term := top];
      } else {
        Withdraws(cfg, counts, learned, term, bucket, top);
        counts, learned := counts[term := bucket], learned - {term};
      }
    }

    method EvictIfNeeded()
      requires Exact(cfg, counts, learned)
      modifies this`counts
      ensures EvictsTo(cfg, learned, old(counts), counts)
    {
      hide *;
      ExactKeys(cfg, counts, learned);
      if |counts| <= cfg.maxTerms {
        NothingEvicted(cfg, learned, counts);
        return;
      }
      var table, victims, drop := counts, counts.Keys - learned.Keys, {};
      NobodyDropped(table, victims);
      while |drop| < |table| - cfg.maxTerms && victims != {}
        invariant Splits(table.Keys - learned.Keys, drop, victims) && victims <= table.Keys
        invariant |drop| <= |table| - cfg.maxTerms
        invariant SupportedLess(table, drop, victims)
        decreases victims
      {
        LeastExists(victims, table);
        var t :| LeastSupported(victims, table, t);
        NextVictim(table, table.Keys - learned.Keys, drop, victims, t);
        drop, victims := drop + {t}, victims - {t};
      }
      Evicted(cfg, learned, table, drop, victims);
      counts := table - drop;
    }

    // The loop of one observation.
    method TeachAll(terms: seq<string>, workType: string)
      requires Exact(cfg, counts, learned) && (!evicted ==> counts == CountsOf(log))
      modifies this`counts, this`learned, this`log
      ensures Exact(cfg, counts, learned) && (!evicted ==> counts == CountsOf(log))
      ensures log == old(log) + Labelled(terms, workType)
      ensures counts == Taught(old(counts), terms, workType)
    {
      hide Exact, Taught, Labelled, CountsOf;
      NoneTaught(counts, terms, workType);
      for i := 0 to |terms|
        invariant Exact(cfg, counts, learned)
        invariant counts == Taught(old(counts), terms[..i], workType)
        invariant log == old(log) + Labelled(terms[..i], workType)
        invariant !evicted ==> counts == CountsOf(log)
      {
        OneTaught(old(counts), terms, workType, i);
        OneLogged(log, terms[i], workType);
        assert old(log) + (Labelled(terms[..i], workType) + [(terms[i], workType)]) == log + [(terms[i], workType)];
        Teach(terms[i], workType);
        log := log + [(terms[i], workType)];
      }
      assert terms[..|terms|] == terms;
    }

    // `text` is the term list of the prompt, None when there is no prompt.
    method Observe(text: Option<seq<string>>, workType: string)
      requires Valid()
      modifies this
      ensures Valid()
      ensures text == None || workType == "" || workType == "unknown" ==>
                counts == old(counts) && learned == old(learned) && log == old(log)
      ensures text.Some? && workType != "" && workType != "unknown" ==>
                && log == old(log) + Labelled(text.value, workType)
                && Kept(learned, Taught(old(counts), text.value, workType), counts)
                && (|Taught(old(counts), text.value, workType)| <= cfg.maxTerms ==>
                      counts == Taught(old(counts), text.value, workType))
                && (|Taught(old(counts), text.value, workType)| > cfg.maxTerms ==>
                      |counts| == if cfg.maxTerms >= |learned| then cfg.maxTerms else |learned|)
      ensures evicted ==> old(evicted) || |CountsOf(log)| > cfg.maxTerms
    {
      hide Exact, EvictsTo, CountsOf, Labelled, Kept, Taught;
      if text == None || workType == "" || workType == "unknown" { return; }
      TeachAll(text.value, workType);
      ghost var taught := counts;
      EvictIfNeeded();
      EvictionKeepsExact(cfg, learned, taught, counts);
      ExactKeys(cfg, taught, learned);
      WhatIsKept(cfg, learned, taught, counts);
      if |taught| > cfg.maxTerms {
        evicted := true;
      } else {
        EvictedNothing(cfg, learned, taught, counts);
      }
    }

    // label -> its learned terms
    method Patterns() returns (out: map<string, set<string>>)
      requires Valid()
      ensures forall l, t :: l in out && t in out[l] <==> t in learned && learned[t] == l
      ensures forall l :: l in out ==> out[l] != {}
    {
      out := map[];
      var todo := learned.Keys;
      while todo != {}
        invariant todo <= learned.Keys
        invariant forall l, t :: l in out && t in out[l] <==> t in learned && t !in todo && learned[t] == l
        invariant forall l :: l in out ==> out[l] != {}
        decreases todo
      {
        var t :| t in todo;
        var l := learned[t];
        out := out[l := (if l in out then out[l] else {}) + {t}];
        todo := todo - {t};
      }
    }
  }

  function Labelled(terms: seq<string>, workType: string): seq<(string, string)> {
    if terms == [] then [] else Labelled(terms[..|terms| - 1], workType) + [(terms[|terms| - 1], workType)]
  }

  lemma {:induction false} TopExists(b: Bucket)
    requires b != multiset{}
    ensures exists l :: l in b && IsTop(b, l)
    decreases |b|
  {
    var x :| x in b;
    var rest := b[x := 0];
    if rest == multiset{} {
      assert forall m :: m in b ==> m == x || m in rest;
      assert IsTop(b, x);
    } else {
      TopExists(rest);
      var y :| y in rest && IsTop(rest, y);
      assert y in rest && y != x && rest[y] == b[y];
      var best := if b[x] >= b[y] then x else y;
      forall m | m in b ensures b[m] <= b[best] {
        assert m != x ==> rest[m] == b[m] && m in rest;
        if m != x { assert rest[m] <= rest[y]; }
      }
      assert best in b && IsTop(b, best);
    }
  }

  predicate Grows(counts: Counts, term: string, bucket: Bucket) {
    bucket != multiset{} && (term in counts ==> |counts[term]| <= |bucket|)
  }

  lemma TooFew(cfg: Config, counts: Counts, learned: Learned, term: string, bucket: Bucket)
    requires Exact(cfg, counts, learned) && Grows(counts, term, bucket) && |bucket| < cfg.minCount
    ensures Exact(cfg, counts[term := bucket], learned)
  {
    hide Dominates;
  }

  lemma Promotes(cfg: Config, counts: Counts, learned: Learned, term: string, bucket: Bucket, top: string)
    requires Exact(cfg, counts, learned) && bucket != multiset{} && |bucket| >= cfg.minCount
    requires IsTop(bucket, top) && ShareMet(cfg, bucket, top)
    ensures Exact(cfg, counts[term := bucket], learned[term := top])
  {
    hide IsTop, ShareMet;
    assert Dominates(cfg, bucket, top);
    assert Promoted(cfg, bucket);
  }

  lemma Withdraws(cfg: Config, counts: Counts, learned: Learned, term: string, bucket: Bucket, top: string)
    requires Exact(cfg, counts, learned) && bucket != multiset{}
    requires IsTop(bucket, top) && !ShareMet(cfg, bucket, top)
    ensures Exact(cfg, counts[term := bucket], learned - {term})
  {
    NoOtherTop(cfg, bucket, top);
    hide IsTop, Dominates, ShareMet;
    assert !Promoted(cfg, bucket);
  }

  lemma ExactKeys(cfg: Config, counts: Counts, learned: Learned)
    requires Exact(cfg, counts, learned)
    ensures learned.Keys <= counts.Keys
  {
  }

  lemma NoOtherTop(cfg: Config, b: Bucket, top: string)
    requires IsTop(b, top) && !ShareMet(cfg, b, top)
    ensures forall l :: !Dominates(cfg, b, l)
  {
  }

  predicate Splits(all: set<string>, drop: set<string>, victims: set<string>) {
    drop + victims == all && drop !! victims
  }

  lemma NobodyDropped(counts: Counts, keep: set<string>)
    ensures SupportedLess(counts, {}, keep) && Splits(keep, {}, keep)
  {
  }

  lemma NextVictim(counts: Counts, all: set<string>, drop: set<string>, victims: set<string>, t: string)
    requires victims <= counts.Keys && LeastSupported(victims, counts, t) && SupportedLess(counts, drop, victims)
    requires Splits(all, drop, victims)
    ensures t in victims && SupportedLess(counts, drop + {t}, victims - {t})
    ensures Splits(all, drop + {t}, victims - {t}) && |drop + {t}| == |drop| + 1
  {
  }

  lemma EvictedNothing(cfg: Config, learned: Learned, counts: Counts, counts': Counts)
    requires EvictsTo(cfg, learned, counts, counts') && |counts| <= cfg.maxTerms
    ensures counts' == counts
  {
    hide SupportedLess;
    var drop := counts.Keys - counts'.Keys;
    assert |drop| == 0 && drop == {} && counts - {} == counts;
  }

  lemma {:induction false} NothingEvicted(cfg: Config, learned: Learned, counts: Counts)
    requires |counts| <= cfg.maxTerms
    ensures EvictsTo(cfg, learned, counts, counts)
  {
    assert counts.Keys - counts.Keys == {} && counts - {} == counts;
  }

  lemma DropCount(counts: Counts, drop: set<string>)
    requires drop <= counts.Keys
    ensures (counts - drop).Keys == counts.Keys - drop && |counts - drop| == |counts| - |drop|
  {
    assert |(counts - drop).Keys| == |counts - drop| && |counts.Keys| == |counts|;
    assert counts.Keys == (counts.Keys - drop) + drop;
  }

  lemma {:induction false} Evicted(cfg: Config, learned: Learned, counts: Counts, drop: set<string>,
                                   victims: set<string>)
    requires learned.Keys <= counts.Keys && |counts| > cfg.maxTerms
    requires Splits(counts.Keys - learned.Keys, drop, victims) && SupportedLess(counts, drop, victims)
    requires |drop| <= |counts| - cfg.maxTerms && (|drop| == |counts| - cfg.maxTerms || victims == {})
    ensures EvictsTo(cfg, learned, counts, counts - drop)
  {
    hide SupportedLess;
    DropCount(counts, drop);
    SameSets(counts.Keys, learned.Keys, drop, victims);
    assert |drop + victims| == |drop| + |victims|;
  }

  lemma SameSets(all: set<string>, kept: set<string>, drop: set<string>, victims: set<string>)
    requires kept <= all && drop + victims == all - kept && drop !! victims
    ensures drop <= all && kept !! victims && all - drop == kept + victims
    ensures all - (all - drop) == drop && all - drop - kept == victims && drop !! kept
  {
  }
}
