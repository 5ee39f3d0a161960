// Edge-to-collector delivery as a state machine whose steps are the spool's locked sections and the
// answers to the POSTs between them. Any number of flushers may be posting at once. A ticket is the
// position of a record in the order of insertion, so it also tells apart records with equal contents. A post
// that failed at the edge may still be stored, in part or whole, at any later time and more than once.
module Delivery {
  import opened Prelude
  import opened Spool
  import opened Collector

  // The spool's bound, the collector's batch limit, and its judgement of each item.
  datatype Config = Config(maxSpool: nat, maxBatch: nat, judge: Judge)

  // A batch outside the lock: its POST is pending, or has failed and waits to be put back.
  datatype Flight = Flight(batch: seq<nat>, failed: bool)

  datatype State = State(
    log: seq<Record>, buf: seq<nat>, flights: seq<Flight>, lost: seq<seq<nat>>, table: Table, dropped: nat,
    delivered: multiset<nat>, refused: multiset<nat>, evicted: multiset<nat>)

  // Answer and Requeue name a flight by its position, Late a post that failed at the edge.
  datatype Step =
    | Insert(r: Record)
    | Take
    | Answer(f: nat, stored: nat, reply: Reply)
    | Requeue(f: nat)
    | Late(p: nat, stored: nat)

  const INITIAL := State([], [], [], [], map[], 0, multiset{}, multiset{}, multiset{})

  function Evict(s: State, buf: seq<nat>, max: nat): State {
    var kept := Newest(buf, max);
    s.(buf := kept, dropped := s.dropped + |buf| - |kept|,
       evicted := s.evicted + multiset(buf[..|buf| - |kept|]))
  }

  // What the collector can do with n posted items: it stores a prefix and replies. It refuses for good
  // before storing anything, never accepts an oversized batch, and says 2xx only after the last item.
  predicate CollectorAllows(maxBatch: nat, n: nat, stored: nat, reply: Reply) {
    && stored <= n
    && (n > maxBatch || PermanentRefusal(reply) ==> stored == 0)
    && (reply.Status? && reply.code < 300 ==> stored == n && n <= maxBatch)
  }

  predicate Enabled(cfg: Config, s: State, step: Step) {
    match step
    case Insert(_) => true
    case Take => s.buf != []
    case Answer(f, stored, reply) =>
      f < |s.flights| && !s.flights[f].failed && CollectorAllows(cfg.maxBatch, |s.flights[f].batch|, stored, reply)
    case Requeue(f) => f < |s.flights| && s.flights[f].failed
    case Late(p, stored) => p < |s.lost| && stored <= |s.lost[p]| <= cfg.maxBatch
  }

  function Without<T>(s: seq<T>, i: nat): seq<T>
    requires i < |s|
  {
    s[..i] + s[i + 1..]
  }

  // The records behind tickets; a ticket outside the log, which no run produces, stands for nothing.
  function Records(log: seq<Record>, tickets: seq<nat>): (rs: seq<Record>) {
    if tickets == [] then []
    else Records(log, tickets[..|tickets| - 1])
         + (if tickets[|tickets| - 1] < |log| then [log[tickets[|tickets| - 1]]] else [])
  }

  function Next(cfg: Config, s: State, step: Step): State
    requires Enabled(cfg, s, step)
  {
    match step
    case Insert(r) => Evict(s.(log := s.log + [r]), s.buf + [|s.log|], cfg.maxSpool)
    case Take => s.(buf := [], flights := s.flights + [Flight(s.buf, false)])
    case Answer(f, stored, reply) =>
      var batch := s.flights[f].batch;
      var s' := s.(table := StoreAll(s.table, Records(s.log, batch[..stored]), cfg.judge));
      if !PostOk(reply) then
        s'.(flights := s.flights[f := Flight(batch, true)], lost := s.lost + [batch])
      else if PermanentRefusal(reply) then
        s'.(flights := Without(s.flights, f), refused := s.refused + multiset(batch))
      else
        s'.(flights := Without(s.flights, f), delivered := s.delivered + multiset(batch))
    case Requeue(f) =>
      Evict(s.(flights := Without(s.flights, f)), s.flights[f].batch + s.buf, cfg.maxSpool)
    case Late(p, stored) => s.(table := StoreAll(s.table, Records(s.log, s.lost[p][..stored]), cfg.judge))
  }

  function Exec(cfg: Config, steps: seq<Step>): Option<State> {
    if steps == [] then Some(INITIAL)
    else
      match Exec(cfg, steps[..|steps| - 1])
      case None => None
      case Some(s) =>
        var step := steps[|steps| - 1];
        if Enabled(cfg, s, step) then Some(Next(cfg, s, step)) else None
  }

  // ----- conservation -----

  function Tickets(n: nat): (r: seq<nat>)
    ensures |r| == n && forall i :: 0 <= i < n ==> r[i] == i
  {
    seq(n, i => i)
  }

  function InFlight(flights: seq<Flight>): seq<nat> {
    if flights == [] then [] else flights[0].batch + InFlight(flights[1..])
  }

  lemma {:induction false} InFlightAt(flights: seq<Flight>, f: nat)
    requires f < |flights|
    ensures multiset(InFlight(flights)) == multiset(flights[f].batch) + multiset(InFlight(Without(flights, f)))
  {
    if f > 0 {
      InFlightAt(flights[1..], f - 1);
      assert Without(flights, f)[1..] == Without(flights[1..], f - 1);
    } else {
      assert Without(flights, 0) == flights[1..];
    }
  }

  lemma {:induction false} InFlightAppend(flights: seq<Flight>, x: Flight)
    ensures InFlight(flights + [x]) == InFlight(flights) + x.batch
  {
    if flights != [] {
      assert (flights + [x])[1..] == flights[1..] + [x];
      InFlightAppend(flights[1..], x);
    } else {
      assert [x][1..] == [];
    }
  }

  lemma {:induction false} InFlightUpdate(flights: seq<Flight>, f: nat, x: Flight)
    requires f < |flights| && flights[f].batch == x.batch
    ensures InFlight(flights[f := x]) == InFlight(flights)
  {
    if f > 0 {
      assert flights[f := x][1..] == flights[1..][f - 1 := x];
      InFlightUpdate(flights[1..], f - 1, x);
    } else {
      assert flights[0 := x][1..] == flights[1..];
    }
  }

  // Where every inserted record is.
  function Everywhere(s: State): multiset<nat> {
    multiset(s.buf) + multiset(InFlight(s.flights)) + (s.delivered + s.refused) + s.evicted
  }

  ghost predicate Conserved(cfg: Config, s: State) {
    && Everywhere(s) == multiset(Tickets(|s.log|))
    && s.dropped == |s.evicted|
    && |s.buf| <= cfg.maxSpool
  }

  lemma EvictConserves(s: State, buf: seq<nat>, max: nat)
    ensures var s' := Evict(s, buf, max);
            && multiset(s'.buf) + s'.evicted == multiset(buf) + s.evicted
            && (s.dropped == |s.evicted| ==> s'.dropped == |s'.evicted|)
            && |s'.buf| <= max
  {
    var kept := Newest(buf, max);
    assert buf == buf[..|buf| - |kept|] + kept;
  }

  // The multiset arithmetic of an eviction, away from the state: b is what was added to the buffer.
  lemma Regroup(buf: multiset<nat>, fly: multiset<nat>, done: multiset<nat>, gone: multiset<nat>,
                buf': multiset<nat>, gone': multiset<nat>, b: multiset<nat>)
    requires buf' + gone' == b + buf + gone
    ensures buf' + fly + done + gone' == b + (buf + fly + done + gone)
  {
    assert buf' + fly + done + gone' == (buf' + gone') + (fly + done);
    assert b + (buf + fly + done + gone) == (b + buf + gone) + (fly + done);
  }

  lemma TicketsGrow(n: nat)
    ensures multiset(Tickets(n + 1)) == multiset{n} + multiset(Tickets(n))
  {
    assert Tickets(n + 1) == Tickets(n) + [n];
  }

  lemma InsertConserves(cfg: Config, s: State, r: Record)
    requires Conserved(cfg, s)
    ensures Conserved(cfg, Next(cfg, s, Insert(r)))
  {
    hide Tickets, InFlight, Newest;
    var n := |s.log|;
    var s' := Next(cfg, s, Insert(r));
    var fly := multiset(InFlight(s.flights));
    EvictConserves(s.(log := s.log + [r]), s.buf + [n], cfg.maxSpool);
    TicketsGrow(n);
    assert multiset(s.buf + [n]) == multiset{n} + multiset(s.buf);
    Regroup(multiset(s.buf), fly, s.delivered + s.refused, s.evicted, multiset(s'.buf), s'.evicted, multiset{n});
    assert Everywhere(s') == multiset{n} + Everywhere(s);
  }

  lemma AnswerConserves(cfg: Config, s: State, f: nat, stored: nat, reply: Reply)
    requires Conserved(cfg, s) && Enabled(cfg, s, Answer(f, stored, reply))
    ensures Conserved(cfg, Next(cfg, s, Answer(f, stored, reply)))
  {
    hide InFlight, Tickets, Records, StoreAll, Without;
    var s' := Next(cfg, s, Answer(f, stored, reply));
    var batch := multiset(s.flights[f].batch);
    if PostOk(reply) {
      InFlightAt(s.flights, f);
      var fly, done := multiset(InFlight(s'.flights)), s.delivered + s.refused;
      assert s'.delivered + s'.refused == done + batch;
      Landing(multiset(s.buf), fly, done, s.evicted, batch);
    } else {
      InFlightUpdate(s.flights, f, Flight(s.flights[f].batch, true));
    }
  }

  lemma Landing(buf: multiset<nat>, fly: multiset<nat>, done: multiset<nat>, gone: multiset<nat>, b: multiset<nat>)
    ensures buf + (b + fly) + done + gone == buf + fly + (done + b) + gone
  {
  }

  lemma {:induction false} RequeueConserves(cfg: Config, s: State, f: nat)
    requires Conserved(cfg, s) && Enabled(cfg, s, Requeue(f))
    ensures Conserved(cfg, Next(cfg, s, Requeue(f)))
  {
    var batch := s.flights[f].batch;
    var s' := Next(cfg, s, Requeue(f));
    var fly := multiset(InFlight(s'.flights));
    InFlightAt(s.flights, f);
    EvictConserves(s.(flights := Without(s.flights, f)), batch + s.buf, cfg.maxSpool);
    Regroup(multiset(s.buf), fly, s.delivered + s.refused, s.evicted, multiset(s'.buf), s'.evicted, multiset(batch));
    assert Everywhere(s) == multiset(batch) + (multiset(s.buf) + fly + (s.delivered + s.refused) + s.evicted);
  }

  lemma {:induction false} StepConserves(cfg: Config, s: State, step: Step)
    requires Conserved(cfg, s) && Enabled(cfg, s, step)
    ensures Conserved(cfg, Next(cfg, s, step))
  {
    match step {
      case Insert(r) => InsertConserves(cfg, s, r);
      case Take => InFlightAppend(s.flights, Flight(s.buf, false));
      case Answer(f, stored, reply) => AnswerConserves(cfg, s, f, stored, reply);
      case Requeue(f) => RequeueConserves(cfg, s, f);
      case Late(_, _) =>
    }
  }

  // In every run each inserted record is in exactly one place: buffered, in flight, accepted, refused for
  // good, or evicted. The dropped counter is the exact number of evictions; the spool keeps its bound.
  lemma {:induction false} SpoolConservation(cfg: Config, steps: seq<Step>)
    requires Exec(cfg, steps).Some?
    ensures Conserved(cfg, Exec(cfg, steps).value)
  {
    if steps == [] {
      assert Tickets(0) == [];
    } else {
      SpoolConservation(cfg, steps[..|steps| - 1]);
      StepConserves(cfg, Exec(cfg, steps[..|steps| - 1]).value, steps[|steps| - 1]);
    }
  }

  // ----- end to end -----

  // The row under an id comes from that inserted record.
  predicate RowOf(cfg: Config, s: State, id: string, t: nat) {
    && t < |s.log| && s.log[t].eventId == id && cfg.judge(s.log[t]).Stored?
    && id in s.table && s.table[id] == cfg.judge(s.log[t]).row
  }

  ghost predicate NothingInvented(cfg: Config, s: State) {
    forall id :: id in s.table ==> exists t: nat :: RowOf(cfg, s, id, t)
  }

  // The record of this ticket has a row, unless the collector's checks refuse the item itself.
  predicate Landed(cfg: Config, s: State, t: nat) {
    t < |s.log| && (cfg.judge(s.log[t]).Stored? ==> s.log[t].eventId in s.table)
  }

  ghost predicate DeliveredLanded(cfg: Config, s: State) {
    forall t :: t in s.delivered ==> Landed(cfg, s, t)
  }

  lemma {:induction false} RecordsAre(log: seq<Record>, tickets: seq<nat>)
    ensures forall r :: r in Records(log, tickets) ==> exists t :: t in tickets && t < |log| && log[t] == r
    ensures forall t :: t in tickets && t < |log| ==> log[t] in Records(log, tickets)
  {
    if tickets != [] {
      RecordsAre(log, tickets[..|tickets| - 1]);
    }
  }

  // s' is s after storing the records behind some tickets.
  predicate Stores(cfg: Config, s: State, s': State, tickets: seq<nat>) {
    s'.log == s.log && s'.table == StoreAll(s.table, Records(s.log, tickets), cfg.judge)
  }

  lemma StoringIsSound(cfg: Config, s: State, s': State, tickets: seq<nat>)
    requires KeepsIds(cfg.judge) && NothingInvented(cfg, s) && Stores(cfg, s, s', tickets)
    ensures NothingInvented(cfg, s')
  {
    var items := Records(s.log, tickets);
    RecordsAre(s.log, tickets);
    forall id | id in s'.table
      ensures exists t: nat :: RowOf(cfg, s', id, t)
    {
      StoreAllLookup(s.table, items, cfg.judge, id);
      var i := LastStored(items, cfg.judge, id);
      if i >= 0 {
        assert items[i] in items;
        var t: nat :| t in tickets && t < |s.log| && s.log[t] == items[i];
        assert RowOf(cfg, s', id, t);
      } else {
        var t: nat :| RowOf(cfg, s, id, t);
        assert RowOf(cfg, s', id, t);
      }
    }
  }

  lemma StepIsSound(cfg: Config, s: State, step: Step)
    requires KeepsIds(cfg.judge) && NothingInvented(cfg, s) && Enabled(cfg, s, step)
    ensures NothingInvented(cfg, Next(cfg, s, step))
  {
    var s' := Next(cfg, s, step);
    if step.Answer? {
      StoringIsSound(cfg, s, s', s.flights[step.f].batch[..step.stored]);
    } else if step.Late? {
      StoringIsSound(cfg, s, s', s.lost[step.p][..step.stored]);
    } else {
      forall id | id in s'.table
        ensures exists t: nat :: RowOf(cfg, s', id, t)
      {
        var t: nat :| RowOf(cfg, s, id, t);
        assert RowOf(cfg, s', id, t);
      }
    }
  }

  lemma StoringLands(cfg: Config, s: State, s': State, tickets: seq<nat>, t: nat)
    requires KeepsIds(cfg.judge) && Stores(cfg, s, s', tickets)
    requires Landed(cfg, s, t) || (t in tickets && t < |s.log|)
    ensures Landed(cfg, s', t)
  {
    var items := Records(s.log, tickets);
    RecordsAre(s.log, tickets);
    StoreAllLookup(s.table, items, cfg.judge, s.log[t].eventId);
    if t in tickets { assert s.log[t] in items; }
  }

  lemma FlownIsInserted(cfg: Config, s: State, f: nat, t: nat)
    requires Conserved(cfg, s) && f < |s.flights| && t in s.flights[f].batch
    ensures t < |s.log|
  {
    InFlightAt(s.flights, f);
    assert t in multiset(s.flights[f].batch) && t in Everywhere(s);
    assert t in multiset(Tickets(|s.log|));
  }

  lemma AnswerLands(cfg: Config, s: State, f: nat, stored: nat, reply: Reply)
    requires KeepsIds(cfg.judge) && DeliveredLanded(cfg, s) && Conserved(cfg, s)
    requires Enabled(cfg, s, Answer(f, stored, reply))
    ensures DeliveredLanded(cfg, Next(cfg, s, Answer(f, stored, reply)))
  {
    hide Landed, Records, StoreAll, Conserved;
    var s' := Next(cfg, s, Answer(f, stored, reply));
    var batch := s.flights[f].batch;
    forall t | t in s'.delivered
      ensures Landed(cfg, s', t)
    {
      if t !in s.delivered {
        FlownIsInserted(cfg, s, f, t);
        assert batch[..stored] == batch;
      }
      StoringLands(cfg, s, s', batch[..stored], t);
    }
  }

  lemma StepLands(cfg: Config, s: State, step: Step)
    requires KeepsIds(cfg.judge) && DeliveredLanded(cfg, s) && Conserved(cfg, s) && Enabled(cfg, s, step)
    ensures DeliveredLanded(cfg, Next(cfg, s, step))
  {
    var s' := Next(cfg, s, step);
    if step.Answer? {
      AnswerLands(cfg, s, step.f, step.stored, step.reply);
    } else if step.Late? {
      forall t | t in s'.delivered ensures Landed(cfg, s', t) {
        StoringLands(cfg, s, s', s.lost[step.p][..step.stored], t);
      }
    } else {
      forall t | t in s'.delivered ensures Landed(cfg, s', t) { assert Landed(cfg, s, t); }
    }
  }

  // In every run, whatever fails, is retried, loses its acknowledgement or is stored late: the collector never
  // holds a row that no inserted record explains, and every record the edge counts as accepted has its row.
  lemma {:induction false} DeliveryIsSound(cfg: Config, steps: seq<Step>)
    requires KeepsIds(cfg.judge) && Exec(cfg, steps).Some?
    ensures var s := Exec(cfg, steps).value; NothingInvented(cfg, s) && DeliveredLanded(cfg, s)
  {
    if steps != [] {
      var before := steps[..|steps| - 1];
      DeliveryIsSound(cfg, before);
      SpoolConservation(cfg, before);
      StepIsSound(cfg, Exec(cfg, before).value, steps[|steps| - 1]);
      StepLands(cfg, Exec(cfg, before).value, steps[|steps| - 1]);
    }
  }

  predicate Drained(s: State) { s.buf == [] && s.flights == [] }

  // Once drained, a record without a row was evicted by the spool, refused for good by the endpoint, or
  // refused as an item.
  lemma {:induction false} DrainedAccountsForEverything(cfg: Config, steps: seq<Step>, t: nat)
    requires KeepsIds(cfg.judge) && Exec(cfg, steps).Some? && Drained(Exec(cfg, steps).value)
    requires t < |Exec(cfg, steps).value.log|
    ensures var s := Exec(cfg, steps).value; t in s.evicted || t in s.refused || Landed(cfg, s, t)
  {
    var s := Exec(cfg, steps).value;
    SpoolConservation(cfg, steps);
    DeliveryIsSound(cfg, steps);
    assert Tickets(|s.log|)[t] == t;
    assert t in Everywhere(s);
    if t in s.delivered { assert Landed(cfg, s, t); }
  }

  ghost function RowsWanted(cfg: Config, log: seq<Record>): set<Record> {
    set r | r in log && cfg.judge(r).Stored? :: cfg.judge(r).row
  }

  // Two inserted records that share an id are written as the same row.
  ghost predicate NoIdConflict(cfg: Config, log: seq<Record>) {
    forall q, r :: q in log && r in log && q.eventId == r.eventId && cfg.judge(q).Stored? && cfg.judge(r).Stored? ==>
                     cfg.judge(q).row == cfg.judge(r).row
  }

  // Drained, with a zero dropped counter and no permanent refusal, the table holds exactly the rows of the
  // inserted records, if and only if no two of them write different rows under one id.
  lemma {:induction false} ExactlyTheInsertedRows(cfg: Config, steps: seq<Step>)
    requires KeepsIds(cfg.judge) && Exec(cfg, steps).Some? && Drained(Exec(cfg, steps).value)
    requires Exec(cfg, steps).value.dropped == 0 && Exec(cfg, steps).value.refused == multiset{}
    ensures var s := Exec(cfg, steps).value;
            s.table.Values == RowsWanted(cfg, s.log) <==> NoIdConflict(cfg, s.log)
    ensures var s := Exec(cfg, steps).value;
            forall id :: id in s.table <==> exists r :: r in s.log && cfg.judge(r).Stored? && r.eventId == id
  {
    var s := Exec(cfg, steps).value;
    SpoolConservation(cfg, steps);
    DeliveryIsSound(cfg, steps);
    forall r | r in s.log && cfg.judge(r).Stored?
      ensures r.eventId in s.table
    {
      var t: nat :| t < |s.log| && s.log[t] == r;
      DrainedAccountsForEverything(cfg, steps, t);
    }
    forall id | id in s.table
      ensures exists r :: r in s.log && cfg.judge(r).Stored? && r.eventId == id && s.table[id] == cfg.judge(r).row
    {
      var t: nat :| RowOf(cfg, s, id, t);
      assert s.log[t] in s.log;
    }
    if NoIdConflict(cfg, s.log) {
      forall r | r in s.log && cfg.judge(r).Stored?
        ensures cfg.judge(r).row in s.table.Values
      {
        assert s.table[r.eventId] == cfg.judge(r).row;
      }
    }
    if s.table.Values == RowsWanted(cfg, s.log) {
      forall r | r in s.log && cfg.judge(r).Stored?
        ensures s.table[r.eventId] == cfg.judge(r).row
      {
        assert cfg.judge(r).row in s.table.Values;
        var id :| id in s.table && s.table[id] == cfg.judge(r).row;
        assert s.table[id].eventId == id;
      }
    }
  }
}
