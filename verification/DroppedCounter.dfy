// What the dropped counter says about records that never reach the table. It can miss them, when a batch is
// refused for good, and it can count records that are there, when only their acknowledgement was lost.
module DroppedCounter {
  import opened Prelude
  import opened Spool
  import opened Collector
  import opened Delivery
  import opened DeliveryLimits

  // Inserted records that the collector would store and whose id has no row.
  function Missing(cfg: Config, s: State): set<nat> {
    set t | 0 <= t < |s.log| && cfg.judge(s.log[t]).Stored? && s.log[t].eventId !in s.table
  }

  ghost predicate JudgeStoresNothing(cfg: Config) { forall r :: !cfg.judge(r).Stored? }

  ghost predicate JudgeStoresAll(cfg: Config) { forall r :: cfg.judge(r).Stored? }

  // A run to its end against a collector that refuses for good only what is too large.
  ghost predicate Settled(cfg: Config, steps: seq<Step>) {
    Exec(cfg, steps).Some? && OnlySizeRefused(cfg, steps) && Drained(Exec(cfg, steps).value)
  }

  lemma {:induction false} SetInMultiset<T>(s: set<T>, m: multiset<T>)
    requires forall x :: x in s ==> x in m
    ensures |s| <= |m|
    decreases s
  {
    if s != {} {
      var x :| x in s;
      SetInMultiset(s - {x}, m[x := 0]);
      assert |m[x := 0]| == |m| - m[x];
    }
  }

  lemma MissingWasEvicted(cfg: Config, steps: seq<Step>)
    requires KeepsIds(cfg.judge) && Settled(cfg, steps) && Exec(cfg, steps).value.refused == multiset{}
    ensures |Missing(cfg, Exec(cfg, steps).value)| <= Exec(cfg, steps).value.dropped
  {
    hide Exec, OnlySizeRefused;
    var s := Exec(cfg, steps).value;
    SpoolConservation(cfg, steps);
    forall t | t in Missing(cfg, s) ensures t in s.evicted { DrainedAccountsForEverything(cfg, steps, t); }
    SetInMultiset(Missing(cfg, s), s.evicted);
  }

  // The counter is at least the loss after every settled run.
  ghost predicate CoversTheLoss(cfg: Config) {
    forall steps :: Settled(cfg, steps) ==>
      |Missing(cfg, Exec(cfg, steps).value)| <= Exec(cfg, steps).value.dropped
  }

  // So it is exactly when the spool's bound is within the collector's limit, or there is nothing to lose.
  lemma DroppedCoversTheLossIff(cfg: Config)
    requires KeepsIds(cfg.judge)
    ensures CoversTheLoss(cfg) <==> cfg.maxSpool <= cfg.maxBatch || JudgeStoresNothing(cfg)
  {
    hide Exec, OnlySizeRefused;
    if cfg.maxSpool <= cfg.maxBatch {
      forall steps | Settled(cfg, steps)
        ensures |Missing(cfg, Exec(cfg, steps).value)| <= Exec(cfg, steps).value.dropped
      {
        NothingRefused(cfg, steps);
        MissingWasEvicted(cfg, steps);
      }
    } else if JudgeStoresNothing(cfg) {
      forall s ensures Missing(cfg, s) == {} {}
    } else {
      var steps := LostUncounted(cfg);
    }
  }

  // A backlog of storable records above the limit is lost and not counted.
  lemma LostUncounted(cfg: Config) returns (steps: seq<Step>)
    requires !JudgeStoresNothing(cfg) && cfg.maxSpool > cfg.maxBatch
    ensures Settled(cfg, steps) && Exec(cfg, steps).value.dropped == 0
    ensures |Missing(cfg, Exec(cfg, steps).value)| > 0
  {
    hide Exec, OnlySizeRefused, Outage;
    var r :| cfg.judge(r).Stored?;
    var rs := Repeat(r, cfg.maxBatch + 1);
    OversizedFlushLosesTheBacklog(cfg, rs, 1);
    steps := Outage(rs, 1) + [Take] + [Answer(0, 0, Status(413))];
    var s := Exec(cfg, steps).value;
    LogSurvives(cfg, rs, 1);
    assert 0 in Missing(cfg, s);
  }

  lemma LogSurvives(cfg: Config, rs: seq<Record>, batchSize: nat)
    requires cfg.maxBatch < |rs| <= cfg.maxSpool
    ensures var run := Outage(rs, batchSize) + [Take] + [Answer(0, 0, Status(413))];
            Exec(cfg, run).Some? && Exec(cfg, run).value.log == rs
  {
    hide Exec, OnlySizeRefused, FlushersBelow, Outage;
    var filled := Outage(rs, batchSize);
    OutageBuildsBacklog(cfg, rs, batchSize);
    ExecSnoc(cfg, filled, Take, 1);
    ExecSnoc(cfg, filled + [Take], Answer(0, 0, Status(413)), 1);
  }

  // ----- counted, and yet there -----

  function From(n: nat, k: nat): (r: seq<nat>)
    ensures |r| == k && forall i :: 0 <= i < k ==> r[i] == n + i
  {
    seq(k, i => n + i)
  }

  // Copies of one record, inserted while there is room.
  lemma {:induction false} InsertCopies(cfg: Config, steps: seq<Step>, r: Record, k: nat) returns (run: seq<Step>)
    requires Exec(cfg, steps).Some? && OnlySizeRefused(cfg, steps)
    requires |Exec(cfg, steps).value.buf| + k <= cfg.maxSpool
    ensures OnlySizeRefused(cfg, run)
    ensures var s := Exec(cfg, steps).value;
            Exec(cfg, run) == Some(s.(log := s.log + Repeat(r, k), buf := s.buf + From(|s.log|, k)))
  {
    hide Exec, OnlySizeRefused, FlushersBelow;
    var s := Exec(cfg, steps).value;
    if k == 0 {
      run := steps;
      assert s.log + Repeat(r, 0) == s.log && s.buf + From(|s.log|, 0) == s.buf;
    } else {
      var before := InsertCopies(cfg, steps, r, k - 1);
      var t := Exec(cfg, before).value;
      ExecSnoc(cfg, before, Insert(r), 1);
      OnlySizeSnoc(cfg, before, Insert(r));
      run := before + [Insert(r)];
      assert t.log + [r] == s.log + Repeat(r, k);
      assert t.buf + [|t.log|] == s.buf + From(|s.log|, k);
      assert t.evicted + multiset((t.buf + [|t.log|])[..0]) == t.evicted;
    }
  }

  // One record posted, stored or not, and its acknowledgement lost.
  lemma LostAcknowledgement(cfg: Config, r: Record, stored: nat) returns (run: seq<Step>)
    requires cfg.maxSpool >= 1 && CollectorAllows(cfg.maxBatch, 1, stored, NoReply)
    ensures Exec(cfg, run).Some? && OnlySizeRefused(cfg, run)
    ensures var s := Exec(cfg, run).value;
            && s.log == [r] && s.buf == [] && s.flights == [Flight([0], true)] && s.dropped == 0
            && s.delivered == s.refused == s.evicted == multiset{}
  {
    hide Exec, OnlySizeRefused, FlushersBelow;
    NoBacklog(cfg);
    var one := InsertCopies(cfg, [], r, 1);
    var s := Exec(cfg, one).value;
    assert s.log == [r] && s.buf == [0];
    ExecSnoc(cfg, one, Take, 1);
    OnlySizeSnoc(cfg, one, Take);
    var taken := one + [Take];
    ExecSnoc(cfg, taken, Answer(0, stored, NoReply), 1);
    OnlySizeSnoc(cfg, taken, Answer(0, stored, NoReply));
    run := taken + [Answer(0, stored, NoReply)];
  }

  // While it is outside, copies fill the spool; put back, it is the oldest, and goes.
  lemma EvictedOnReturn(cfg: Config, r: Record, stored: nat) returns (run: seq<Step>)
    requires cfg.maxSpool >= 1 && CollectorAllows(cfg.maxBatch, 1, stored, NoReply)
    ensures Exec(cfg, run).Some? && OnlySizeRefused(cfg, run)
    ensures var s := Exec(cfg, run).value;
            && s.log == Repeat(r, cfg.maxSpool + 1) && s.buf == From(1, cfg.maxSpool) && s.flights == []
            && s.dropped == 1 && s.delivered == s.refused == multiset{}
  {
    hide Exec, OnlySizeRefused, FlushersBelow;
    var k := cfg.maxSpool;
    var away := LostAcknowledgement(cfg, r, stored);
    var full := InsertCopies(cfg, away, r, k);
    var s := Exec(cfg, full).value;
    assert s.log == Repeat(r, k + 1) && s.buf == From(1, k);
    ExecSnoc(cfg, full, Requeue(0), 1);
    OnlySizeSnoc(cfg, full, Requeue(0));
    run := full + [Requeue(0)];
    assert Newest([0] + From(1, k), k) == From(1, k);
    assert Without(s.flights, 0) == [];
  }

  // The copies are then posted and accepted, or refused for their number. The first record is counted as
  // dropped all the same.
  lemma CountedOnReturn(cfg: Config, r: Record, stored: nat, last: nat, reply: Reply) returns (run: seq<Step>)
    requires cfg.maxSpool >= 1 && CollectorAllows(cfg.maxBatch, 1, stored, NoReply)
    requires CollectorAllows(cfg.maxBatch, cfg.maxSpool, last, reply) && PostOk(reply)
    requires PermanentRefusal(reply) ==> cfg.maxSpool > cfg.maxBatch
    ensures Settled(cfg, run) && Exec(cfg, run).value.dropped == 1
    ensures Exec(cfg, run).value.log == Repeat(r, cfg.maxSpool + 1)
    ensures !PermanentRefusal(reply) ==> 1 in Exec(cfg, run).value.delivered
  {
    hide Exec, OnlySizeRefused, FlushersBelow;
    var back := EvictedOnReturn(cfg, r, stored);
    ExecSnoc(cfg, back, Take, 1);
    OnlySizeSnoc(cfg, back, Take);
    var taken := back + [Take];
    var s := Exec(cfg, taken).value;
    assert s.flights == [Flight(From(1, cfg.maxSpool), false)];
    ExecSnoc(cfg, taken, Answer(0, last, reply), 1);
    OnlySizeSnoc(cfg, taken, Answer(0, last, reply));
    run := taken + [Answer(0, last, reply)];
    assert Without(s.flights, 0) == [];
    assert From(1, cfg.maxSpool)[0] == 1;
  }

  // A record the collector stored is counted as dropped when its acknowledgement was lost: drained, nothing
  // refused, one drop, and every record in the table.
  lemma StoredAndDropped(cfg: Config, r: Record) returns (run: seq<Step>)
    requires KeepsIds(cfg.judge) && 1 <= cfg.maxSpool <= cfg.maxBatch
    ensures Settled(cfg, run) && Exec(cfg, run).value.dropped == 1 && Missing(cfg, Exec(cfg, run).value) == {}
  {
    hide Exec, OnlySizeRefused;
    run := CountedOnReturn(cfg, r, 1, cfg.maxSpool, Status(200));
    var s := Exec(cfg, run).value;
    DeliveryIsSound(cfg, run);
    assert Landed(cfg, s, 1);
  }

  // The counter is the loss, no more and no less, after every settled run.
  ghost predicate IsTheLoss(cfg: Config) {
    forall steps :: Settled(cfg, steps) ==>
      Exec(cfg, steps).value.dropped == |Missing(cfg, Exec(cfg, steps).value)|
  }

  // So it is only for a spool that holds nothing and a collector that would store everything.
  lemma DroppedIsTheLossIff(cfg: Config)
    requires KeepsIds(cfg.judge)
    ensures IsTheLoss(cfg) <==> cfg.maxSpool == 0 && JudgeStoresAll(cfg)
  {
    hide Exec, OnlySizeRefused, Missing, CollectorAllows;
    if cfg.maxSpool == 0 {
      if JudgeStoresAll(cfg) {
        forall steps | Settled(cfg, steps)
          ensures Exec(cfg, steps).value.dropped == |Missing(cfg, Exec(cfg, steps).value)|
        {
          NoSpoolLosesAll(cfg, steps);
        }
      } else {
        var r :| !cfg.judge(r).Stored?;
        var steps := RefusedAndDropped(cfg, r);
      }
    } else if cfg.maxSpool <= cfg.maxBatch {
      var steps := StoredAndDropped(cfg, Record("", ""));
    } else if JudgeStoresNothing(cfg) {
      Refusable(cfg);
      var steps := CountedOnReturn(cfg, Record("", ""), 0, 0, Status(413));
      NothingMissing(cfg, Exec(cfg, steps).value);
    } else {
      var steps := LostUncounted(cfg);
    }
  }

  lemma Refusable(cfg: Config)
    requires cfg.maxSpool > cfg.maxBatch
    ensures CollectorAllows(cfg.maxBatch, 1, 0, NoReply) && CollectorAllows(cfg.maxBatch, cfg.maxSpool, 0, Status(413))
  {
  }

  lemma NothingMissing(cfg: Config, s: State)
    requires JudgeStoresNothing(cfg)
    ensures Missing(cfg, s) == {}
  {
  }

  // Without a spool every record is dropped as it comes.
  predicate NothingKept(s: State) {
    s.buf == [] && s.flights == [] && s.lost == [] && s.table == map[] && s.dropped == |s.log|
  }

  lemma StepKeepsNothing(cfg: Config, s: State, step: Step)
    requires cfg.maxSpool == 0 && NothingKept(s) && Enabled(cfg, s, step)
    ensures NothingKept(Next(cfg, s, step))
  {
    hide StoreAll, Records, CollectorAllows;
  }

  lemma {:induction false} NoSpool(cfg: Config, steps: seq<Step>)
    requires Exec(cfg, steps).Some? && cfg.maxSpool == 0
    ensures NothingKept(Exec(cfg, steps).value)
  {
    hide Next, Enabled, NothingKept;
    if steps != [] {
      NoSpool(cfg, steps[..|steps| - 1]);
      StepKeepsNothing(cfg, Exec(cfg, steps[..|steps| - 1]).value, steps[|steps| - 1]);
    } else {
      NothingAtFirst();
    }
  }

  lemma NothingAtFirst()
    ensures NothingKept(INITIAL)
  {
  }

  lemma NoSpoolLosesAll(cfg: Config, steps: seq<Step>)
    requires Exec(cfg, steps).Some? && cfg.maxSpool == 0 && JudgeStoresAll(cfg)
    ensures Exec(cfg, steps).value.dropped == |Missing(cfg, Exec(cfg, steps).value)|
  {
    hide Exec;
    NoSpool(cfg, steps);
    var s := Exec(cfg, steps).value;
    var n := |s.log|;
    forall t: nat | t < n ensures t in Tickets(n) { assert Tickets(n)[t] == t; }
    assert Missing(cfg, s) == set t | t in Tickets(n);
    AsManyTickets(n);
  }

  lemma {:induction false} AsManyTickets(n: nat)
    ensures |set t | t in Tickets(n)| == n
  {
    if n > 0 {
      var m := n - 1;
      AsManyTickets(m);
      assert Tickets(n) == Tickets(m) + [m];
      assert (set t | t in Tickets(n)) == (set t | t in Tickets(m)) + {m};
    }
  }

  // Without a spool a record the collector would refuse is counted like any other.
  lemma RefusedAndDropped(cfg: Config, r: Record) returns (run: seq<Step>)
    requires cfg.maxSpool == 0 && !cfg.judge(r).Stored?
    ensures Settled(cfg, run) && Exec(cfg, run).value.dropped == 1 && Missing(cfg, Exec(cfg, run).value) == {}
  {
    hide Exec, OnlySizeRefused, FlushersBelow;
    NoBacklog(cfg);
    ExecSnoc(cfg, [], Insert(r), 1);
    OnlySizeSnoc(cfg, [], Insert(r));
    run := [] + [Insert(r)];
  }
}
