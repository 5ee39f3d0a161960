// What delivery promises only under a condition: order needs flushes that do not overlap, and the dropped
// counter is the loss only when the spool cannot outgrow the collector's batch limit.
module DeliveryLimits {
  import opened Prelude
  import opened Spool
  import opened Collector
  import opened Delivery

  // ----- order -----

  predicate Increasing(s: seq<nat>) {
    forall i, j :: 0 <= i < j < |s| ==> s[i] < s[j]
  }

  predicate Ordered(s: seq<nat>, bound: nat) {
    Increasing(s) && forall i :: 0 <= i < |s| ==> s[i] < bound
  }

  // In flight, then buffered.
  function Pending(s: State): seq<nat> { InFlight(s.flights) + s.buf }

  predicate InOrder(s: State) { |s.flights| <= 1 && Ordered(Pending(s), |s.log|) }

  // A flush starts only when fewer than n batches are outside the lock.
  predicate FlushersBelow(cfg: Config, steps: seq<Step>, n: nat) {
    steps == [] ||
    (var before := steps[..|steps| - 1];
     && FlushersBelow(cfg, before, n)
     && (steps[|steps| - 1].Take? && Exec(cfg, before).Some? ==> |Exec(cfg, before).value.flights| < n))
  }

  lemma SuffixOrdered(front: seq<nat>, back: seq<nat>, max: nat, bound: nat)
    requires Ordered(front + back, bound)
    ensures Ordered(front + Newest(back, max), bound)
  {
    var cut := |back| - |Newest(back, max)|;
    var s := front + Newest(back, max);
    forall i | 0 <= i < |s|
      ensures s[i] == (front + back)[if i < |front| then i else i + cut]
    {
    }
  }

  lemma NewestOrdered(s: seq<nat>, max: nat, bound: nat)
    requires Ordered(s, bound)
    ensures Ordered(Newest(s, max), bound)
  {
  }

  lemma OneMoreOrdered(s: seq<nat>, bound: nat)
    requires Ordered(s, bound)
    ensures Ordered(s + [bound], bound + 1)
  {
  }

  lemma OneFlight(flights: seq<Flight>)
    requires |flights| == 1
    ensures InFlight(flights) == flights[0].batch
    ensures Without(flights, 0) == [] && InFlight([]) == []
  {
    assert InFlight(flights[1..]) == [];
    assert Without(flights, 0) == [];
  }

  lemma InsertKeepsOrder(cfg: Config, s: State, r: Record)
    requires InOrder(s)
    ensures InOrder(Next(cfg, s, Insert(r)))
  {
    hide Ordered, Newest, InFlight;
    var fly := InFlight(s.flights);
    assert fly + (s.buf + [|s.log|]) == Pending(s) + [|s.log|];
    OneMoreOrdered(Pending(s), |s.log|);
    SuffixOrdered(fly, s.buf + [|s.log|], cfg.maxSpool, |s.log| + 1);
  }

  lemma TakeKeepsOrder(cfg: Config, s: State)
    requires InOrder(s) && s.buf != [] && s.flights == []
    ensures InOrder(Next(cfg, s, Take))
  {
    hide Ordered;
    var s' := Next(cfg, s, Take);
    OneFlight(s'.flights);
    assert Pending(s') == s.buf == Pending(s);
  }

  lemma {:induction false} AnswerKeepsOrder(cfg: Config, s: State, f: nat, stored: nat, reply: Reply)
    requires InOrder(s) && Enabled(cfg, s, Answer(f, stored, reply))
    ensures InOrder(Next(cfg, s, Answer(f, stored, reply)))
  {
    hide Ordered, InFlight, Without, Records, StoreAll;
    var s' := Next(cfg, s, Answer(f, stored, reply));
    OneFlight(s.flights);
    if PostOk(reply) {
      NewestOrdered(Pending(s), |s.buf|, |s.log|);
      assert Pending(s') == Newest(Pending(s), |s.buf|);
    } else {
      OneFlight(s'.flights);
      assert Pending(s') == Pending(s);
    }
  }

  lemma RequeueKeepsOrder(cfg: Config, s: State, f: nat)
    requires InOrder(s) && Enabled(cfg, s, Requeue(f))
    ensures InOrder(Next(cfg, s, Requeue(f)))
  {
    hide Newest, Ordered, InFlight, Without, Records, StoreAll;
    OneFlight(s.flights);
    NewestOrdered(Pending(s), cfg.maxSpool, |s.log|);
    assert Pending(Next(cfg, s, Requeue(f))) == Newest(Pending(s), cfg.maxSpool);
  }

  lemma StepKeepsOrder(cfg: Config, s: State, step: Step)
    requires InOrder(s) && Enabled(cfg, s, step) && (step.Take? ==> s.flights == [])
    ensures InOrder(Next(cfg, s, step))
  {
    match step {
      case Insert(r) => InsertKeepsOrder(cfg, s, r);
      case Take => TakeKeepsOrder(cfg, s);
      case Answer(f, stored, reply) => AnswerKeepsOrder(cfg, s, f, stored, reply);
      case Requeue(f) => RequeueKeepsOrder(cfg, s, f);
      case Late(_, _) =>
    }
  }

  // If flushes never overlap, what is in flight followed by what is buffered is always in insertion order,
  // through failures, requeues and evictions.
  lemma {:induction false} PendingInInsertionOrder(cfg: Config, steps: seq<Step>)
    requires Exec(cfg, steps).Some? && FlushersBelow(cfg, steps, 1)
    ensures InOrder(Exec(cfg, steps).value)
  {
    if steps != [] {
      var before := steps[..|steps| - 1];
      PendingInInsertionOrder(cfg, before);
      StepKeepsOrder(cfg, Exec(cfg, before).value, steps[|steps| - 1]);
    }
  }

  lemma ExecSnoc(cfg: Config, steps: seq<Step>, step: Step, n: nat)
    requires Exec(cfg, steps).Some? && Enabled(cfg, Exec(cfg, steps).value, step)
    ensures Exec(cfg, steps + [step]) == Some(Next(cfg, Exec(cfg, steps).value, step))
    ensures FlushersBelow(cfg, steps, n) && (step.Take? ==> |Exec(cfg, steps).value.flights| < n) ==>
              FlushersBelow(cfg, steps + [step], n)
  {
    assert (steps + [step])[..|steps|] == steps;
  }

  lemma ExecNil(cfg: Config)
    ensures Exec(cfg, []) == Some(INITIAL) && FlushersBelow(cfg, [], 2)
  {
  }

  // An insert followed by a flush that stays pending.
  lemma {:induction false} InsertAndTake(cfg: Config, steps: seq<Step>, s: State, r: Record) returns (run: seq<Step>)
    requires cfg.maxSpool >= 1 && Exec(cfg, steps) == Some(s) && s.buf == []
    requires FlushersBelow(cfg, steps, 2) && |s.flights| < 2
    ensures Exec(cfg, run) == Some(s.(log := s.log + [r], flights := s.flights + [Flight([|s.log|], false)]))
    ensures FlushersBelow(cfg, run, 2)
  {
    hide Exec, FlushersBelow;
    ExecSnoc(cfg, steps, Insert(r), 2);
    var s1 := Next(cfg, s, Insert(r));
    assert s.evicted + multiset([|s.log|][..0]) == s.evicted;
    assert s1 == s.(log := s.log + [r], buf := [|s.log|]);
    run := steps + [Insert(r)];
    ExecSnoc(cfg, run, Take, 2);
    run := run + [Take];
  }

  lemma FailBoth(cfg: Config, s: State)
    requires cfg.maxSpool >= 2 && s.buf == [] && s.flights == [Flight([0], false), Flight([1], false)]
    ensures Enabled(cfg, s, Answer(0, 0, NoReply))
    ensures var s1 := Next(cfg, s, Answer(0, 0, NoReply));
            && Enabled(cfg, s1, Answer(1, 0, NoReply))
            && var s2 := Next(cfg, s1, Answer(1, 0, NoReply));
               s2.buf == [] && s2.flights == [Flight([0], true), Flight([1], true)]
  {
  }

  lemma RequeueBoth(cfg: Config, s: State)
    requires cfg.maxSpool >= 2 && s.buf == [] && s.flights == [Flight([0], true), Flight([1], true)]
    ensures Enabled(cfg, s, Requeue(0))
    ensures var s1 := Next(cfg, s, Requeue(0));
            Enabled(cfg, s1, Requeue(0)) && Next(cfg, s1, Requeue(0)).buf == [1, 0]
  {
    var s1 := Next(cfg, s, Requeue(0));
    assert s1.buf == [0] && s1.flights == [Flight([1], true)];
  }

  // Two overlapping flushes that both fail can leave the buffer out of order.
  lemma OverlapReorders(cfg: Config, r: Record)
    requires cfg.maxSpool >= 2
    ensures exists steps ::
              Exec(cfg, steps).Some? && FlushersBelow(cfg, steps, 2) && Exec(cfg, steps).value.buf == [1, 0]
  {
    hide Exec, Next, Enabled, FlushersBelow;
    ExecNil(cfg);
    var one := InsertAndTake(cfg, [], INITIAL, r);
    var run0 := InsertAndTake(cfg, one, Exec(cfg, one).value, r);
    assert Exec(cfg, run0).value.flights == [Flight([0], false), Flight([1], false)];
    FailBoth(cfg, Exec(cfg, run0).value);
    ExecSnoc(cfg, run0, Answer(0, 0, NoReply), 2);
    var run1 := run0 + [Answer(0, 0, NoReply)];
    ExecSnoc(cfg, run1, Answer(1, 0, NoReply), 2);
    var run2 := run1 + [Answer(1, 0, NoReply)];
    RequeueBoth(cfg, Exec(cfg, run2).value);
    ExecSnoc(cfg, run2, Requeue(0), 2);
    var run3 := run2 + [Requeue(0)];
    ExecSnoc(cfg, run3, Requeue(0), 2);
    assert FlushersBelow(cfg, run3 + [Requeue(0)], 2);
  }

  lemma {:induction false} FewerFlushers(cfg: Config, steps: seq<Step>, n: nat, m: nat)
    requires FlushersBelow(cfg, steps, n) && n <= m
    ensures FlushersBelow(cfg, steps, m)
  {
    if steps != [] { FewerFlushers(cfg, steps[..|steps| - 1], n, m); }
  }

  // The buffer is in insertion order in every run with at most n flushers.
  ghost predicate KeepsOrder(cfg: Config, n: nat) {
    forall steps :: Exec(cfg, steps).Some? && FlushersBelow(cfg, steps, n) ==> Increasing(Exec(cfg, steps).value.buf)
  }

  // With at most n flushers the buffer is in insertion order in every run, exactly when there is at most one
  // of them or the spool holds at most one record.
  lemma OrderIffOneFlusher(cfg: Config, n: nat)
    ensures KeepsOrder(cfg, n) <==> n <= 1 || cfg.maxSpool <= 1
  {
    hide Exec, FlushersBelow;
    if n <= 1 || cfg.maxSpool <= 1 {
      forall steps | Exec(cfg, steps).Some? && FlushersBelow(cfg, steps, n)
        ensures Increasing(Exec(cfg, steps).value.buf)
      {
        SpoolConservation(cfg, steps);
        if n <= 1 {
          FewerFlushers(cfg, steps, n, 1);
          PendingInInsertionOrder(cfg, steps);
          BufferOrdered(Exec(cfg, steps).value);
        }
      }
    } else {
      OverlapReorders(cfg, Record("", ""));
      var steps :| Exec(cfg, steps).Some? && FlushersBelow(cfg, steps, 2) && Exec(cfg, steps).value.buf == [1, 0];
      FewerFlushers(cfg, steps, 2, n);
      var buf := Exec(cfg, steps).value.buf;
      assert buf[0] > buf[1];
      assert !KeepsOrder(cfg, n);
    }
  }

  lemma BufferOrdered(s: State)
    requires InOrder(s)
    ensures Increasing(s.buf)
  {
    var k := |InFlight(s.flights)|;
    assert forall i :: 0 <= i < |s.buf| ==> Pending(s)[k + i] == s.buf[i];
  }

  // ----- permanent refusals -----

  // For a collector that refuses for good only what is too large: a POST the sink counts as done stored its
  // batch, whatever the reply, exactly when the batch is within the limit.
  lemma DoneMeansStored(maxBatch: nat, n: nat)
    requires n > 0
    ensures (forall stored: nat, reply ::
               CollectorAllows(maxBatch, n, stored, reply) && PostOk(reply)
               && (PermanentRefusal(reply) ==> n > maxBatch)
               ==> stored == n)
       <==> n <= maxBatch
  {
    if n > maxBatch { assert CollectorAllows(maxBatch, n, 0, Status(413)); }
  }

  lemma {:induction false} BatchesFitTheSpool(cfg: Config, steps: seq<Step>)
    requires Exec(cfg, steps).Some?
    ensures var s := Exec(cfg, steps).value; forall f :: 0 <= f < |s.flights| ==> |s.flights[f].batch| <= cfg.maxSpool
  {
    hide Conserved, Next, Enabled;
    if steps != [] {
      var before, step := steps[..|steps| - 1], steps[|steps| - 1];
      BatchesFitTheSpool(cfg, before);
      SpoolConservation(cfg, before);
      Bounded(cfg, Exec(cfg, before).value);
      StepFits(cfg, Exec(cfg, before).value, step);
    }
  }

  lemma StepFits(cfg: Config, s: State, step: Step)
    requires Enabled(cfg, s, step) && |s.buf| <= cfg.maxSpool
    requires forall f :: 0 <= f < |s.flights| ==> |s.flights[f].batch| <= cfg.maxSpool
    ensures var s' := Next(cfg, s, step); forall f :: 0 <= f < |s'.flights| ==> |s'.flights[f].batch| <= cfg.maxSpool
  {
    hide Newest, Records, StoreAll;
  }

  lemma Bounded(cfg: Config, s: State)
    requires Conserved(cfg, s)
    ensures |s.buf| <= cfg.maxSpool
  {
  }

  // A collector that refuses for good only what is too large.
  predicate OnlySizeRefused(cfg: Config, steps: seq<Step>) {
    steps == [] ||
    (var before, step := steps[..|steps| - 1], steps[|steps| - 1];
     && OnlySizeRefused(cfg, before)
     && (step.Answer? && PermanentRefusal(step.reply) && Exec(cfg, before).Some?
         && step.f < |Exec(cfg, before).value.flights| ==>
           |Exec(cfg, before).value.flights[step.f].batch| > cfg.maxBatch))
  }

  lemma {:induction false} NothingRefused(cfg: Config, steps: seq<Step>)
    requires Exec(cfg, steps).Some? && OnlySizeRefused(cfg, steps) && cfg.maxSpool <= cfg.maxBatch
    ensures Exec(cfg, steps).value.refused == multiset{}
  {
    if steps != [] {
      NothingRefused(cfg, steps[..|steps| - 1]);
      BatchesFitTheSpool(cfg, steps[..|steps| - 1]);
    }
  }

  // An outage: each record is inserted, and from a full batch on each insert's flush fails and is put back.
  function Outage(rs: seq<Record>, batchSize: nat): seq<Step> {
    if rs == [] then []
    else
      var n := |rs| - 1;
      Outage(rs[..n], batchSize) + [Insert(rs[n])]
      + if n + 1 >= batchSize then [Take] + [Answer(0, 0, NoReply)] + [Requeue(0)] else []
  }

  // Everything inserted waits in the buffer; nothing else has happened, but for failed posts.
  predicate Backlog(s: State, rs: seq<Record>) {
    s.(lost := []) == INITIAL.(log := rs, buf := Tickets(|rs|))
  }

  lemma OnlySizeSnoc(cfg: Config, steps: seq<Step>, step: Step)
    requires OnlySizeRefused(cfg, steps)
    requires step.Answer? && PermanentRefusal(step.reply) ==>
               Exec(cfg, steps).Some? && step.f < |Exec(cfg, steps).value.flights|
               && |Exec(cfg, steps).value.flights[step.f].batch| > cfg.maxBatch
    ensures OnlySizeRefused(cfg, steps + [step])
  {
    assert (steps + [step])[..|steps|] == steps;
  }

  lemma FailedFlush(cfg: Config, steps: seq<Step>, rs: seq<Record>)
    requires rs != [] && |rs| <= cfg.maxSpool && OnlySizeRefused(cfg, steps)
    requires Exec(cfg, steps).Some? && Backlog(Exec(cfg, steps).value, rs)
    ensures var run := steps + [Take] + [Answer(0, 0, NoReply)] + [Requeue(0)];
            Exec(cfg, run).Some? && Backlog(Exec(cfg, run).value, rs) && OnlySizeRefused(cfg, run)
  {
    hide Exec, OnlySizeRefused, FlushersBelow, Tickets;
    var s := Exec(cfg, steps).value;
    ExecSnoc(cfg, steps, Take, 1);
    OnlySizeSnoc(cfg, steps, Take);
    var taken := steps + [Take];
    ExecSnoc(cfg, taken, Answer(0, 0, NoReply), 1);
    OnlySizeSnoc(cfg, taken, Answer(0, 0, NoReply));
    var failed := taken + [Answer(0, 0, NoReply)];
    assert Exec(cfg, failed).value.flights == [Flight(s.buf, true)];
    ExecSnoc(cfg, failed, Requeue(0), 1);
    OnlySizeSnoc(cfg, failed, Requeue(0));
    assert s.buf + [] == s.buf;
    assert INITIAL.evicted + multiset(s.buf[..0]) == multiset{};
  }

  lemma OneMoreInBacklog(cfg: Config, steps: seq<Step>, rs: seq<Record>, r: Record)
    requires |rs| < cfg.maxSpool && OnlySizeRefused(cfg, steps)
    requires Exec(cfg, steps).Some? && Backlog(Exec(cfg, steps).value, rs)
    ensures var run := steps + [Insert(r)];
            Exec(cfg, run).Some? && Backlog(Exec(cfg, run).value, rs + [r]) && OnlySizeRefused(cfg, run)
  {
    hide Exec, OnlySizeRefused, FlushersBelow;
    ExecSnoc(cfg, steps, Insert(r), 1);
    OnlySizeSnoc(cfg, steps, Insert(r));
    var n := |rs|;
    assert Tickets(n) + [n] == Tickets(n + 1);
    assert INITIAL.evicted + multiset((Tickets(n) + [n])[..0]) == multiset{};
  }

  lemma {:induction false} OutageBuildsBacklog(cfg: Config, rs: seq<Record>, batchSize: nat)
    requires |rs| <= cfg.maxSpool
    ensures var run := Outage(rs, batchSize);
            Exec(cfg, run).Some? && Backlog(Exec(cfg, run).value, rs) && OnlySizeRefused(cfg, run)
  {
    hide Exec, OnlySizeRefused, Backlog;
    if rs == [] {
      NoBacklog(cfg);
    } else {
      var n := |rs| - 1;
      OutageBuildsBacklog(cfg, rs[..n], batchSize);
      assert rs[..n] + [rs[n]] == rs;
      var run := Outage(rs[..n], batchSize);
      OneMoreInBacklog(cfg, run, rs[..n], rs[n]);
      run := run + [Insert(rs[n])];
      if n + 1 >= batchSize {
        FailedFlush(cfg, run, rs);
        assert Outage(rs, batchSize) == run + [Take] + [Answer(0, 0, NoReply)] + [Requeue(0)];
      } else {
        assert Outage(rs, batchSize) == run;
      }
    }
  }

  lemma NoBacklog(cfg: Config)
    ensures Exec(cfg, []) == Some(INITIAL) && Backlog(INITIAL, []) && OnlySizeRefused(cfg, [])
  {
    assert Tickets(0) == [];
  }

  // A backlog that outgrew the collector's batch limit during an outage is lost by the first flush that gets
  // through, without any trace in the counter: drained, nothing dropped, nothing stored, every record refused.
  lemma OversizedFlushLosesTheBacklog(cfg: Config, rs: seq<Record>, batchSize: nat)
    requires cfg.maxBatch < |rs| <= cfg.maxSpool
    ensures var run := Outage(rs, batchSize) + [Take] + [Answer(0, 0, Status(413))];
            && Exec(cfg, run).Some? && OnlySizeRefused(cfg, run)
            && var s := Exec(cfg, run).value;
               Drained(s) && s.dropped == 0 && s.table == map[] && s.refused == multiset(Tickets(|rs|))
  {
    hide Exec, OnlySizeRefused, FlushersBelow, Outage, Tickets, InFlight;
    var filled := Outage(rs, batchSize);
    OutageBuildsBacklog(cfg, rs, batchSize);
    ExecSnoc(cfg, filled, Take, 1);
    OnlySizeSnoc(cfg, filled, Take);
    var taken := filled + [Take];
    assert Exec(cfg, taken).value.flights == [Flight(Tickets(|rs|), false)];
    ExecSnoc(cfg, taken, Answer(0, 0, Status(413)), 1);
    OnlySizeSnoc(cfg, taken, Answer(0, 0, Status(413)));
  }

  // Every batch of every run stays within the collector's limit exactly when the spool's bound does.
  lemma BatchesWithinLimitIff(cfg: Config)
    ensures (forall steps, f :: Exec(cfg, steps).Some? && 0 <= f < |Exec(cfg, steps).value.flights| ==>
                                  |Exec(cfg, steps).value.flights[f].batch| <= cfg.maxBatch)
       <==> cfg.maxSpool <= cfg.maxBatch
  {
    hide Exec;
    if cfg.maxSpool <= cfg.maxBatch {
      forall steps | Exec(cfg, steps).Some? { BatchesFitTheSpool(cfg, steps); }
    } else {
      var rs := Repeat(Record("", ""), cfg.maxBatch + 1);
      OutageBuildsBacklog(cfg, rs, 1);
      var run := Outage(rs, 1);
      ExecSnoc(cfg, run, Take, 1);
      assert |Exec(cfg, run + [Take]).value.flights[0].batch| > cfg.maxBatch;
    }
  }

  // What the edge no longer tries to deliver.
  function GivenUp(s: State): multiset<nat> { s.evicted + s.refused }

  // Against a collector that refuses for good only what is too large, the dropped counter is the number of
  // records the edge gave up in every run exactly when the spool's bound is within the collector's limit. The
  // defaults, 10000 and 1000, are not.
  lemma DroppedIsTheGivenUpIff(cfg: Config)
    ensures (forall steps :: Exec(cfg, steps).Some? && OnlySizeRefused(cfg, steps) ==>
                               Exec(cfg, steps).value.dropped == |GivenUp(Exec(cfg, steps).value)|)
       <==> cfg.maxSpool <= cfg.maxBatch
  {
    hide Exec, OnlySizeRefused;
    if cfg.maxSpool <= cfg.maxBatch {
      forall steps | Exec(cfg, steps).Some? && OnlySizeRefused(cfg, steps)
        ensures Exec(cfg, steps).value.dropped == |GivenUp(Exec(cfg, steps).value)|
      {
        NothingRefused(cfg, steps);
        SpoolConservation(cfg, steps);
      }
    } else {
      var rs := Repeat(Record("", ""), cfg.maxBatch + 1);
      OversizedFlushLosesTheBacklog(cfg, rs, 1);
      var s := Exec(cfg, Outage(rs, 1) + [Take] + [Answer(0, 0, Status(413))]).value;
      assert |s.refused| == cfg.maxBatch + 1;
    }
  }
}
