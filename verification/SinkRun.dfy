// The spool object driven through a run of the delivery protocol: what the state machine says about the buffer
// and the dropped counter is what HttpSink's own methods produce, lock section by lock section.
module SinkRun {
  import opened Prelude
  import opened Spool
  import opened Collector
  import opened Delivery

  method Drive(cfg: Config, steps: seq<Step>, now: real) returns (sink: HttpSink<nat>, flights: seq<Flight>)
    requires Exec(cfg, steps).Some?
    ensures fresh(sink) && sink.Valid() && sink.maxSpool == cfg.maxSpool
    ensures var s := Exec(cfg, steps).value; sink.buf == s.buf && sink.dropped == s.dropped && flights == s.flights
  {
    sink := new HttpSink(50, 5.0, cfg.maxSpool, now);
    flights := [];
    var inserted: nat := 0;
    assert steps[..0] == [];
    for i := 0 to |steps|
      invariant fresh(sink) && sink.Valid() && sink.maxSpool == cfg.maxSpool
      invariant Exec(cfg, steps[..i]).Some?
      invariant var s := Exec(cfg, steps[..i]).value;
                sink.buf == s.buf && sink.dropped == s.dropped && flights == s.flights && inserted == |s.log|
    {
      hide Newest, Records, StoreAll;
      RunReaches(cfg, steps, i + 1);
      assert steps[..i + 1][..i] == steps[..i];
      match steps[i] {
        case Insert(_) =>
          var _ := sink.Append(inserted, now);
          inserted := inserted + 1;
        case Take =>
          var batch := sink.Take(now);
          flights := flights + [Flight(batch, false)];
        case Answer(f, _, reply) =>
          if PostOk(reply) {
            sink.Settle(flights[f].batch, reply);
            flights := Without(flights, f);
          } else {
            flights := flights[f := Flight(flights[f].batch, true)];
          }
        case Requeue(f) =>
          sink.Settle(flights[f].batch, NoReply);
          flights := Without(flights, f);
        case Late(_, _) =>
      }
    }
    assert steps[..|steps|] == steps;
  }

  // A run that goes through goes through up to any point.
  lemma {:induction false} RunReaches(cfg: Config, steps: seq<Step>, n: nat)
    requires n <= |steps| && Exec(cfg, steps).Some?
    ensures Exec(cfg, steps[..n]).Some?
    decreases |steps|
  {
    if n == |steps| {
      assert steps[..n] == steps;
    } else {
      var before := steps[..|steps| - 1];
      assert before[..n] == steps[..n];
      RunReaches(cfg, before, n);
    }
  }
}
