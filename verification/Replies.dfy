// What each answer of the endpoint does to a batch, by status code, over whole runs of the delivery protocol.
module Replies {
  import opened Prelude
  import opened Spool
  import opened Collector
  import opened Delivery

  // No answer of the run is a client error, other than the two that ask to try again.
  predicate NoClientError(steps: seq<Step>) {
    forall i :: 0 <= i < |steps| && steps[i].Answer? && steps[i].reply.Status? ==>
      var code := steps[i].reply.code; code < 400 || code == 408 || code == 429 || code >= 500
  }

  // No answer of the run is a success.
  predicate NoSuccess(steps: seq<Step>) {
    forall i :: 0 <= i < |steps| && steps[i].Answer? && steps[i].reply.Status? ==> steps[i].reply.code >= 300
  }

  predicate BatchesCarry(s: State) {
    forall f :: 0 <= f < |s.flights| ==> s.flights[f].batch != []
  }

  lemma BatchSettles(m: multiset<nat>, batch: seq<nat>)
    requires batch != []
    ensures m + multiset(batch) != multiset{}
  {
    assert batch[0] in m + multiset(batch);
  }

  lemma OneAnswer(cfg: Config, s: State, f: nat, stored: nat, reply: Reply)
    requires Enabled(cfg, s, Answer(f, stored, reply)) && BatchesCarry(s)
    ensures var s' := Next(cfg, s, Answer(f, stored, reply));
            && BatchesCarry(s')
            && (s'.refused == multiset{} <==> s.refused == multiset{} && NoClientError([Answer(f, stored, reply)]))
            && (s'.delivered == multiset{} <==> s.delivered == multiset{} && NoSuccess([Answer(f, stored, reply)]))
  {
    hide StoreAll, Records;
    BatchSettles(s.refused, s.flights[f].batch);
    BatchSettles(s.delivered, s.flights[f].batch);
    assert [Answer(f, stored, reply)][0].reply == reply;
  }

  lemma OtherStep(cfg: Config, s: State, step: Step)
    requires Enabled(cfg, s, step) && BatchesCarry(s) && !step.Answer?
    ensures var s' := Next(cfg, s, step);
            BatchesCarry(s') && s'.refused == s.refused && s'.delivered == s.delivered
  {
    hide StoreAll, Records, Newest;
  }

  lemma OneMore(steps: seq<Step>, step: Step)
    ensures NoClientError(steps + [step]) <==> NoClientError(steps) && NoClientError([step])
    ensures NoSuccess(steps + [step]) <==> NoSuccess(steps) && NoSuccess([step])
  {
    var all := steps + [step];
    assert all[|steps|] == [step][0];
    assert forall i :: 0 <= i < |steps| ==> all[i] == steps[i];
  }

  // Every batch holds a record, and which tickets were refused for good or accepted is decided by the codes alone.
  lemma {:induction false} CodesDecide(cfg: Config, steps: seq<Step>)
    requires Exec(cfg, steps).Some?
    ensures var s := Exec(cfg, steps).value;
            && BatchesCarry(s)
            && (s.refused == multiset{} <==> NoClientError(steps))
            && (s.delivered == multiset{} <==> NoSuccess(steps))
  {
    hide Next, Enabled, NoClientError, NoSuccess, BatchesCarry;
    if steps == [] {
      NothingYet();
    } else {
      var n := |steps| - 1;
      var before, step := Exec(cfg, steps[..n]).value, steps[n];
      CodesDecide(cfg, steps[..n]);
      OneMore(steps[..n], step);
      assert steps == steps[..n] + [step];
      if step.Answer? {
        OneAnswer(cfg, before, step.f, step.stored, step.reply);
      } else {
        NotAnAnswer(step);
        OtherStep(cfg, before, step);
      }
    }
  }

  lemma NothingYet()
    ensures NoClientError([]) && NoSuccess([]) && BatchesCarry(INITIAL)
  {
  }

  lemma NotAnAnswer(step: Step)
    requires !step.Answer?
    ensures NoClientError([step]) && NoSuccess([step])
  {
  }

  // In every run, records are refused for good exactly when some answer is a client error other than 408 and 429;
  // no other answer, and no missing one, refuses a record.
  lemma RefusedIffClientError(cfg: Config, steps: seq<Step>)
    requires Exec(cfg, steps).Some?
    ensures Exec(cfg, steps).value.refused != multiset{} <==>
            exists i :: 0 <= i < |steps| && steps[i].Answer? && steps[i].reply.Status?
                        && 400 <= steps[i].reply.code < 500 && steps[i].reply.code !in {408, 429}
  {
    hide Exec;
    CodesDecide(cfg, steps);
  }

  // And records count as delivered exactly when some answer is below 300.
  lemma DeliveredIffSuccess(cfg: Config, steps: seq<Step>)
    requires Exec(cfg, steps).Some?
    ensures Exec(cfg, steps).value.delivered != multiset{} <==>
            exists i :: 0 <= i < |steps| && steps[i].Answer? && steps[i].reply.Status? && steps[i].reply.code < 300
  {
    hide Exec;
    CodesDecide(cfg, steps);
  }

  // So whatever else goes wrong, in every drained run without a drop and without such an answer each record the
  // collector would store has its row.
  lemma TransientFailuresLoseNothing(cfg: Config, steps: seq<Step>)
    requires KeepsIds(cfg.judge) && Exec(cfg, steps).Some?
    requires forall i :: 0 <= i < |steps| && steps[i].Answer? && steps[i].reply.Status? ==>
               var code := steps[i].reply.code; code < 400 || code == 408 || code == 429 || code >= 500
    ensures var s := Exec(cfg, steps).value;
            && s.refused == multiset{}
            && (s.buf == [] && s.flights == [] && s.dropped == 0 ==>
                  forall t :: 0 <= t < |s.log| && cfg.judge(s.log[t]).Stored? ==> s.log[t].eventId in s.table)
  {
    hide Exec;
    var s := Exec(cfg, steps).value;
    CodesDecide(cfg, steps);
    SpoolConservation(cfg, steps);
    if s.buf == [] && s.flights == [] && s.dropped == 0 {
      forall t | 0 <= t < |s.log| && cfg.judge(s.log[t]).Stored? ensures s.log[t].eventId in s.table {
        DrainedAccountsForEverything(cfg, steps, t);
      }
    }
  }
}
