// Double-blind reveal as a protocol: ingest writes match rows on both sides, a developer consents on one
// of their own rows, and a response names a peer only after both have consented on the same topic.
module Reveal {
  import opened Prelude
  import opened Broker
  import opened Matches

  const PAGE: nat := 50

  // A match the broker reported, and the clock readings of its two writes.
  datatype Found = Found(m: Match, tsA: real, tsB: real)

  datatype State = State(rows: Rows, consents: set<Consent>)

  const INITIAL := State([], {})

  // The listing of a step is the answer of for_owner it works on: the fifty newest own rows, for a view
  // only those not older than `since`.
  datatype Step =
    | Ingest(found: seq<Found>)
    | Ask(who: string, id: nat, listing: Rows)
    | View(who: string, since: real, listing: Rows)

  function RecordBoth(rows: Rows, f: Found): Rows {
    var m := f.m;
    Recorded(Recorded(rows, m.a, m.b, m.topic, m.similarity, m.mode, f.tsA),
             m.b, m.a, m.topic, m.similarity, m.mode, f.tsB)
  }

  function RecordAll(rows: Rows, found: seq<Found>): Rows {
    if found == [] then rows else RecordBoth(RecordAll(rows, found[..|found| - 1]), found[|found| - 1])
  }

  function ById(listing: Rows, id: nat): (r: Option<Row>)
    ensures r.Some? ==> r.value in listing && r.value.id == id
    ensures r == None ==> forall q :: q in listing ==> q.id != id
  {
    if listing == [] then None
    else if listing[0].id == id then Some(listing[0])
    else
      assert listing == [listing[0]] + listing[1..];
      ById(listing[1..], id)
  }

  ghost predicate Enabled(s: State, step: Step) {
    match step
    case Ingest(_) => true
    case Ask(who, _, listing) => TopRows(listing, s.rows, who, PAGE, None)
    case View(who, since, listing) => TopRows(listing, s.rows, who, PAGE, Some(since))
  }

  function WithConsent(consents: set<Consent>, owner: string, peer: string, topic: string): set<Consent> {
    consents + if owner == peer then {} else {Consent(owner, peer, topic)}
  }

  function Next(s: State, step: Step): State {
    match step
    case Ingest(found) => s.(rows := RecordAll(s.rows, found))
    case Ask(who, id, listing) =>
      (match ById(listing, id)
       case None => s
       case Some(r) => s.(consents := WithConsent(s.consents, who, r.peer, r.topic)))
    case View(_, _, _) => s
  }

  // The response to a step in s gives `who` the identity and card of peer, on a topic.
  predicate Reveals(s: State, step: Step, who: string, peer: string, topic: string) {
    match step
    case Ingest(_) => false
    case Ask(o, id, listing) =>
      (match ById(listing, id)
       case None => false
       case Some(r) => o == who && r.peer == peer && r.topic == topic
                       && Agreed(Next(s, step).consents, who, peer, topic))
    case View(o, _, listing) =>
      o == who && Agreed(s.consents, who, peer, topic) && exists r :: r in listing && r.peer == peer && r.topic == topic
  }

  ghost function Exec(steps: seq<Step>): Option<State> {
    if steps == [] then Some(INITIAL)
    else
      match Exec(steps[..|steps| - 1])
      case None => None
      case Some(s) => if Enabled(s, steps[|steps| - 1]) then Some(Next(s, steps[|steps| - 1])) else None
  }

  // ----- rows -----

  // The mirror image of a row: the other side of the same match.
  predicate Mirrors(r: Row, q: Row) {
    About(q, r.peer, r.owner, r.topic) && q.similarity == r.similarity && q.mode == r.mode
  }

  ghost predicate HasMirror(rows: Rows, i: nat)
    requires i < |rows|
  {
    exists j :: 0 <= j < |rows| && Mirrors(rows[i], rows[j])
  }

  ghost predicate TwoSided(rows: Rows) {
    forall i :: 0 <= i < |rows| ==> HasMirror(rows, i)
  }

  // Ids keep their owner, peer and topic for good.
  ghost predicate KeepsRows(rows: Rows, rows': Rows) {
    |rows| <= |rows'| &&
    forall i :: 0 <= i < |rows| ==>
      rows'[i].id == rows[i].id && About(rows'[i], rows[i].owner, rows[i].peer, rows[i].topic)
  }

  lemma RecordedAbout(rows: Rows, owner: string, peer: string, topic: string, similarity: int, mode: Mode, ts: real)
    requires ValidRows(rows) && owner != peer
    ensures var rows' := Recorded(rows, owner, peer, topic, similarity, mode, ts);
            && ValidRows(rows') && KeepsRows(rows, rows')
            && (exists i :: 0 <= i < |rows'| && About(rows'[i], owner, peer, topic)
                            && rows'[i].similarity == similarity && rows'[i].mode == mode)
            && (forall i :: 0 <= i < |rows'| && !About(rows'[i], owner, peer, topic) ==>
                  i < |rows| && rows'[i] == rows[i])
  {
    hide Lookup;
    RecordedValid(rows, owner, peer, topic, similarity, mode, ts);
    var i := Lookup(rows, owner, peer, topic);
    var rows' := Recorded(rows, owner, peer, topic, similarity, mode, ts);
    var at := if i >= 0 then i else |rows|;
    assert About(rows'[at], owner, peer, topic) && rows'[at].similarity == similarity && rows'[at].mode == mode;
  }

  lemma RecordBothKeeps(rows: Rows, f: Found)
    requires ValidRows(rows) && TwoSided(rows)
    ensures var rows' := RecordBoth(rows, f); ValidRows(rows') && TwoSided(rows') && KeepsRows(rows, rows')
  {
    hide Recorded, ValidRows;
    var m := f.m;
    if m.a == m.b {
      SelfMatch(rows, m.a, m.topic, m.similarity, m.mode, f.tsA);
      SelfMatch(rows, m.a, m.topic, m.similarity, m.mode, f.tsB);
    } else {
      var one := Recorded(rows, m.a, m.b, m.topic, m.similarity, m.mode, f.tsA);
      RecordedAbout(rows, m.a, m.b, m.topic, m.similarity, m.mode, f.tsA);
      RecordedAbout(one, m.b, m.a, m.topic, m.similarity, m.mode, f.tsB);
      BothSides(rows, one, RecordBoth(rows, f), m);
    }
  }

  lemma SelfMatch(rows: Rows, a: string, topic: string, similarity: int, mode: Mode, ts: real)
    ensures Recorded(rows, a, a, topic, similarity, mode, ts) == rows
  {
  }

  ghost predicate Writes(rows: Rows, rows': Rows, owner: string, peer: string, m: Match) {
    && KeepsRows(rows, rows')
    && (exists i :: 0 <= i < |rows'| && About(rows'[i], owner, peer, m.topic)
                    && rows'[i].similarity == m.similarity && rows'[i].mode == m.mode)
    && (forall i :: 0 <= i < |rows'| && !About(rows'[i], owner, peer, m.topic) ==> i < |rows| && rows'[i] == rows[i])
  }

  lemma UniqueAbout(rows: Rows, i: nat, j: nat, owner: string, peer: string, topic: string)
    requires ValidRows(rows) && i < |rows| && j < |rows|
    requires About(rows[i], owner, peer, topic) && About(rows[j], owner, peer, topic)
    ensures i == j
  {
  }

  lemma KeepsTransitive(rows: Rows, one: Rows, two: Rows)
    requires KeepsRows(rows, one) && KeepsRows(one, two)
    ensures KeepsRows(rows, two)
  {
  }

  lemma Untouched(rows: Rows, rows': Rows, owner: string, peer: string, m: Match, i: nat)
    requires Writes(rows, rows', owner, peer, m)
    ensures i < |rows'| && !About(rows'[i], owner, peer, m.topic) ==> i < |rows| && rows'[i] == rows[i]
    ensures i < |rows| && !About(rows[i], owner, peer, m.topic) ==> i < |rows'| && rows'[i] == rows[i]
  {
    if i < |rows| { assert About(rows'[i], rows[i].owner, rows[i].peer, rows[i].topic); }
  }

  // A row neither write touched keeps its mirror image, which neither write touched.
  lemma {:induction false} MirrorSurvives(rows: Rows, one: Rows, two: Rows, m: Match, i: nat) returns (j: nat)
    requires TwoSided(rows) && Writes(rows, one, m.a, m.b, m) && Writes(one, two, m.b, m.a, m)
    requires i < |two| && !About(two[i], m.a, m.b, m.topic) && !About(two[i], m.b, m.a, m.topic)
    ensures j < |two| && Mirrors(two[i], two[j])
  {
    hide Writes;
    Untouched(one, two, m.b, m.a, m, i);
    Untouched(rows, one, m.a, m.b, m, i);
    assert HasMirror(rows, i);
    var k :| 0 <= k < |rows| && Mirrors(rows[i], rows[k]);
    j := k;
    Untouched(rows, one, m.a, m.b, m, k);
    Untouched(one, two, m.b, m.a, m, k);
  }

  lemma {:induction false} BothSides(rows: Rows, one: Rows, two: Rows, m: Match)
    requires TwoSided(rows) && m.a != m.b && ValidRows(two)
    requires Writes(rows, one, m.a, m.b, m) && Writes(one, two, m.b, m.a, m)
    ensures TwoSided(two) && KeepsRows(rows, two)
  {
    hide ValidRows, KeepsRows, Writes;
    var p := Written(rows, one, m.a, m.b, m);
    var q := Written(one, two, m.b, m.a, m);
    KeepsTransitive(rows, one, two);
    Untouched(one, two, m.b, m.a, m, p);
    assert two[p] == one[p];
    forall i | 0 <= i < |two|
      ensures HasMirror(two, i)
    {
      if About(two[i], m.b, m.a, m.topic) {
        UniqueAbout(two, i, q, m.b, m.a, m.topic);
        assert Mirrors(two[i], two[p]);
      } else if About(two[i], m.a, m.b, m.topic) {
        UniqueAbout(two, i, p, m.a, m.b, m.topic);
        assert Mirrors(two[i], two[q]);
      } else {
        var j := MirrorSurvives(rows, one, two, m, i);
        assert Mirrors(two[i], two[j]);
      }
    }
  }

  lemma Written(rows: Rows, rows': Rows, owner: string, peer: string, m: Match) returns (p: nat)
    requires Writes(rows, rows', owner, peer, m)
    ensures KeepsRows(rows, rows') && p < |rows'| && About(rows'[p], owner, peer, m.topic)
    ensures rows'[p].similarity == m.similarity && rows'[p].mode == m.mode
  {
    p :| 0 <= p < |rows'| && About(rows'[p], owner, peer, m.topic)
         && rows'[p].similarity == m.similarity && rows'[p].mode == m.mode;
  }

  lemma {:induction false} RecordAllKeeps(rows: Rows, found: seq<Found>)
    requires ValidRows(rows) && TwoSided(rows)
    ensures var rows' := RecordAll(rows, found); ValidRows(rows') && TwoSided(rows') && KeepsRows(rows, rows')
  {
    hide RecordBoth, ValidRows, TwoSided;
    if found != [] {
      RecordAllKeeps(rows, found[..|found| - 1]);
      RecordBothKeeps(RecordAll(rows, found[..|found| - 1]), found[|found| - 1]);
    }
  }

  // ----- what an ingest writes -----

  // The match is about these two people, in either order, on this topic.
  predicate Concerns(m: Match, owner: string, peer: string, topic: string) {
    m.a != m.b && m.topic == topic && ((m.a == owner && m.b == peer) || (m.a == peer && m.b == owner))
  }

  predicate ConcernsRow(m: Match, r: Row) { Concerns(m, r.owner, r.peer, r.topic) }

  predicate SomeConcern(found: seq<Found>, r: Row) {
    exists i :: 0 <= i < |found| && ConcernsRow(found[i].m, r)
  }

  // The owner has a row for the peer with the figures of this match.
  predicate Shows(rows: Rows, owner: string, peer: string, m: Match, ts: real) {
    exists p :: 0 <= p < |rows| && rows[p] == Row(p + 1, owner, peer, m.topic, m.similarity, m.mode, ts)
  }

  // No later match of the ingest is about the same two people and topic.
  predicate LastWord(found: seq<Found>, i: nat)
    requires i < |found|
  {
    && found[i].m.a != found[i].m.b
    && forall j :: i < j < |found| ==> !Concerns(found[j].m, found[i].m.a, found[i].m.b, found[i].m.topic)
  }

  // The rows after an ingest: both sides of every match with its latest figures, and nothing else touched.
  ghost predicate Ingested(rows: Rows, rows': Rows, found: seq<Found>) {
    && KeepsRows(rows, rows')
    && (forall i :: 0 <= i < |found| && LastWord(found, i) ==>
          && Shows(rows', found[i].m.a, found[i].m.b, found[i].m, found[i].tsA)
          && Shows(rows', found[i].m.b, found[i].m.a, found[i].m, found[i].tsB))
    && (forall p :: 0 <= p < |rows| && rows'[p] != rows[p] ==> SomeConcern(found, rows[p]))
    && (forall p :: |rows| <= p < |rows'| ==> SomeConcern(found, rows'[p]))
  }

  // One upsert, as positions: the row is there, and every other one is where it was.
  ghost predicate Upserts(rows: Rows, rows': Rows, r: Row) {
    && KeepsRows(rows, rows')
    && (exists p :: 0 <= p < |rows'| && rows'[p] == r.(id := p + 1))
    && (forall p :: 0 <= p < |rows| && !About(rows[p], r.owner, r.peer, r.topic) ==> rows'[p] == rows[p])
    && (forall p :: |rows| <= p < |rows'| ==> About(rows'[p], r.owner, r.peer, r.topic))
  }

  lemma RecordedUpserts(rows: Rows, owner: string, peer: string, topic: string, similarity: int, mode: Mode, ts: real)
    requires ValidRows(rows) && owner != peer
    ensures var rows' := Recorded(rows, owner, peer, topic, similarity, mode, ts);
            ValidRows(rows') && Upserts(rows, rows', Row(0, owner, peer, topic, similarity, mode, ts))
  {
    hide Lookup;
    RecordedValid(rows, owner, peer, topic, similarity, mode, ts);
    var i := Lookup(rows, owner, peer, topic);
    var rows' := Recorded(rows, owner, peer, topic, similarity, mode, ts);
    var at := if i >= 0 then i else |rows|;
    assert rows'[at] == Row(at + 1, owner, peer, topic, similarity, mode, ts);
  }

  lemma StillShown(rows: Rows, rows': Rows, r: Row, owner: string, peer: string, m: Match, ts: real)
    requires Upserts(rows, rows', r) && Shows(rows, owner, peer, m, ts)
    requires !(r.owner == owner && r.peer == peer && r.topic == m.topic)
    ensures Shows(rows', owner, peer, m, ts)
  {
    var p :| 0 <= p < |rows| && rows[p] == Row(p + 1, owner, peer, m.topic, m.similarity, m.mode, ts);
    assert rows'[p] == rows[p];
  }

  lemma OneMatchWrites(rows: Rows, f: Found)
    requires ValidRows(rows)
    ensures ValidRows(RecordBoth(rows, f)) && Ingested(rows, RecordBoth(rows, f), [f])
    ensures forall owner, peer, m, ts :: Shows(rows, owner, peer, m, ts) && !Concerns(f.m, owner, peer, m.topic) ==>
              Shows(RecordBoth(rows, f), owner, peer, m, ts)
  {
    hide Recorded, ValidRows, Upserts, Shows;
    var m := f.m;
    assert [f][0] == f;
    if m.a == m.b {
      SelfMatch(rows, m.a, m.topic, m.similarity, m.mode, f.tsA);
      SelfMatch(rows, m.a, m.topic, m.similarity, m.mode, f.tsB);
    } else {
      var one := Recorded(rows, m.a, m.b, m.topic, m.similarity, m.mode, f.tsA);
      var two := RecordBoth(rows, f);
      var x := Row(0, m.a, m.b, m.topic, m.similarity, m.mode, f.tsA);
      var y := Row(0, m.b, m.a, m.topic, m.similarity, m.mode, f.tsB);
      RecordedUpserts(rows, m.a, m.b, m.topic, m.similarity, m.mode, f.tsA);
      RecordedUpserts(one, m.b, m.a, m.topic, m.similarity, m.mode, f.tsB);
      UpsertShows(rows, one, x, m);
      UpsertShows(one, two, y, m);
      StillShown(one, two, y, m.a, m.b, m, f.tsA);
      TwoUpserts(rows, one, two, x, y, f);
      forall owner, peer, n: Match, ts | Shows(rows, owner, peer, n, ts) && !Concerns(m, owner, peer, n.topic)
        ensures Shows(two, owner, peer, n, ts)
      {
        StillShown(rows, one, x, owner, peer, n, ts);
        StillShown(one, two, y, owner, peer, n, ts);
      }
    }
  }

  lemma UpsertShows(rows: Rows, rows': Rows, r: Row, m: Match)
    requires Upserts(rows, rows', r) && r.topic == m.topic && r.similarity == m.similarity && r.mode == m.mode
    ensures Shows(rows', r.owner, r.peer, m, r.ts)
  {
  }

  lemma TwoUpserts(rows: Rows, one: Rows, two: Rows, x: Row, y: Row, f: Found)
    requires Upserts(rows, one, x) && Upserts(one, two, y) && x.owner != x.peer
    requires x.owner == f.m.a == y.peer && x.peer == f.m.b == y.owner && x.topic == f.m.topic == y.topic
    requires ValidRows(rows) && ValidRows(one)
    ensures KeepsRows(rows, two)
    ensures forall p :: 0 <= p < |rows| && two[p] != rows[p] ==> ConcernsRow(f.m, rows[p])
    ensures forall p :: |rows| <= p < |two| ==> ConcernsRow(f.m, two[p])
  {
    hide ValidRows;
  }

  // Both sides of every match are written, whatever the ingest contains and whatever was there; of several
  // matches on the same people and topic the last one counts; no other row changes and no other row is new.
  lemma {:induction false} IngestWritesBothSides(rows: Rows, found: seq<Found>)
    requires ValidRows(rows)
    ensures ValidRows(RecordAll(rows, found)) && Ingested(rows, RecordAll(rows, found), found)
  {
    hide ValidRows, RecordBoth, Shows, Concerns;
    if found != [] {
      var n := |found| - 1;
      IngestWritesBothSides(rows, found[..n]);
      OneMatchWrites(RecordAll(rows, found[..n]), found[n]);
      IngestedThen(rows, RecordAll(rows, found[..n]), RecordAll(rows, found), found);
    }
  }

  lemma IngestedThen(rows: Rows, mid: Rows, rows': Rows, found: seq<Found>)
    requires found != [] && Ingested(rows, mid, found[..|found| - 1]) && Ingested(mid, rows', [found[|found| - 1]])
    requires forall owner, peer, m, ts ::
               Shows(mid, owner, peer, m, ts) && !Concerns(found[|found| - 1].m, owner, peer, m.topic) ==>
                 Shows(rows', owner, peer, m, ts)
    ensures Ingested(rows, rows', found)
  {
    hide Shows, Concerns;
    var n := |found| - 1;
    var front, last := found[..n], [found[n]];
    assert last[0] == found[n];
    forall i | 0 <= i < |found| && LastWord(found, i)
      ensures Shows(rows', found[i].m.a, found[i].m.b, found[i].m, found[i].tsA)
      ensures Shows(rows', found[i].m.b, found[i].m.a, found[i].m, found[i].tsB)
    {
      if i == n {
        assert LastWord(last, 0);
      } else {
        assert front[i] == found[i] && LastWord(front, i);
        EitherOrder(found[n].m, found[i].m.a, found[i].m.b, found[i].m.topic);
      }
    }
    forall p | 0 <= p < |rows| && rows'[p] != rows[p]
      ensures SomeConcern(found, rows[p])
    {
      if mid[p] != rows[p] {
        assert SomeConcern(front, rows[p]);
        var i :| 0 <= i < n && ConcernsRow(front[i].m, rows[p]);
        assert ConcernsRow(found[i].m, rows[p]);
      } else {
        assert ConcernsRow(found[n].m, rows[p]);
      }
    }
    forall p | |rows| <= p < |rows'| ensures SomeConcern(found, rows'[p]) {
      if p < |mid| {
        assert SomeConcern(front, mid[p]);
        var i :| 0 <= i < n && ConcernsRow(front[i].m, mid[p]);
        assert ConcernsRow(found[i].m, rows'[p]);
      } else {
        assert ConcernsRow(found[n].m, rows'[p]);
      }
    }
  }

  lemma EitherOrder(m: Match, a: string, b: string, topic: string)
    ensures Concerns(m, a, b, topic) <==> Concerns(m, b, a, topic)
  {
  }

  // The same of one step of the protocol, in its own terms: the last match on two people and a topic is on both
  // their sides, and rows on other people or topics are neither changed nor added.
  lemma {:induction false} IngestInFull(s: State, found: seq<Found>)
    requires ValidRows(s.rows)
    ensures forall i :: 0 <= i < |found| && found[i].m.a != found[i].m.b
                        && (forall j :: i < j < |found| ==>
                              found[j].m.topic != found[i].m.topic
                              || {found[j].m.a, found[j].m.b} != {found[i].m.a, found[i].m.b})
              ==> var m, rows := found[i].m, Next(s, Ingest(found)).rows;
                  && (exists id :: Row(id, m.a, m.b, m.topic, m.similarity, m.mode, found[i].tsA) in rows)
                  && (exists id :: Row(id, m.b, m.a, m.topic, m.similarity, m.mode, found[i].tsB) in rows)
    ensures forall r :: r in s.rows && r !in Next(s, Ingest(found)).rows ==> FoundFor(found, r)
    ensures forall p :: |s.rows| <= p < |Next(s, Ingest(found)).rows| ==>
              FoundFor(found, Next(s, Ingest(found)).rows[p])
  {
    hide ValidRows, RecordAll, KeepsRows;
    var rows := RecordAll(s.rows, found);
    IngestWritesBothSides(s.rows, found);
    forall i | 0 <= i < |found| && found[i].m.a != found[i].m.b
               && (forall j :: i < j < |found| ==> found[j].m.topic != found[i].m.topic
                                                   || {found[j].m.a, found[j].m.b} != {found[i].m.a, found[i].m.b})
      ensures var m := found[i].m;
              && (exists id :: Row(id, m.a, m.b, m.topic, m.similarity, m.mode, found[i].tsA) in rows)
              && (exists id :: Row(id, m.b, m.a, m.topic, m.similarity, m.mode, found[i].tsB) in rows)
    {
      assert LastWord(found, i);
      ShownIsThere(rows, found[i].m.a, found[i].m.b, found[i].m, found[i].tsA);
      ShownIsThere(rows, found[i].m.b, found[i].m.a, found[i].m, found[i].tsB);
    }
    forall r | r in s.rows && r !in rows ensures FoundFor(found, r) {
      var p :| 0 <= p < |s.rows| && s.rows[p] == r;
      KeptRows(s.rows, rows);
      assert SomeConcern(found, s.rows[p]);
      var i :| 0 <= i < |found| && ConcernsRow(found[i].m, s.rows[p]);
      assert found[i] in found;
    }
    forall p | |s.rows| <= p < |rows| ensures FoundFor(found, rows[p]) { NewRow(s.rows, rows, found, p); }
  }

  // Some match of the ingest is about the two people and the topic of this row.
  predicate FoundFor(found: seq<Found>, r: Row) {
    exists i :: 0 <= i < |found| && found[i].m.topic == r.topic && {found[i].m.a, found[i].m.b} == {r.owner, r.peer}
  }

  lemma NewRow(rows: Rows, rows': Rows, found: seq<Found>, p: nat)
    requires Ingested(rows, rows', found) && |rows| <= p < |rows'|
    ensures FoundFor(found, rows'[p])
  {
    hide LastWord, Shows;
    assert SomeConcern(found, rows'[p]);
    var i :| 0 <= i < |found| && ConcernsRow(found[i].m, rows'[p]);
  }

  lemma KeptRows(rows: Rows, rows': Rows)
    requires KeepsRows(rows, rows')
    ensures |rows| <= |rows'|
  {
  }

  lemma ShownIsThere(rows: Rows, owner: string, peer: string, m: Match, ts: real)
    requires Shows(rows, owner, peer, m, ts)
    ensures exists id :: Row(id, owner, peer, m.topic, m.similarity, m.mode, ts) in rows
  {
    var p :| 0 <= p < |rows| && rows[p] == Row(p + 1, owner, peer, m.topic, m.similarity, m.mode, ts);
    assert Row(p + 1, owner, peer, m.topic, m.similarity, m.mode, ts) in rows;
  }

  // Between ingests, in every run: at most one row per owner, peer and topic, never with oneself, and each
  // row has its mirror image with the same similarity and mode.
  lemma {:induction false} RowsComeInPairs(steps: seq<Step>)
    requires Exec(steps).Some?
    ensures ValidRows(Exec(steps).value.rows) && TwoSided(Exec(steps).value.rows)
  {
    hide ValidRows, TwoSided, RecordAll, Enabled;
    if steps == [] {
      NoRows();
    } else {
      var before, step := Exec(steps[..|steps| - 1]).value, steps[|steps| - 1];
      RowsComeInPairs(steps[..|steps| - 1]);
      if step.Ingest? { RecordAllKeeps(before.rows, step.found); }
    }
  }

  // In every run the peer on a row has a row for its owner, with the same figures.
  lemma {:induction false} PeerHasTheRow(steps: seq<Step>, r: Row) returns (q: Row)
    requires Exec(steps).Some? && r in Exec(steps).value.rows
    ensures r.owner != r.peer && q in Exec(steps).value.rows
    ensures q == Row(q.id, r.peer, r.owner, r.topic, r.similarity, r.mode, q.ts)
  {
    hide Exec, TwoSided, ValidRows;
    RowsComeInPairs(steps);
    q := OtherSide(Exec(steps).value.rows, r);
    NotWithOneself(Exec(steps).value.rows, r);
  }

  lemma OtherSide(rows: Rows, r: Row) returns (q: Row)
    requires TwoSided(rows) && r in rows
    ensures q in rows && q == Row(q.id, r.peer, r.owner, r.topic, r.similarity, r.mode, q.ts)
  {
    var i :| 0 <= i < |rows| && rows[i] == r;
    assert HasMirror(rows, i);
    var j :| 0 <= j < |rows| && Mirrors(rows[i], rows[j]);
    q := rows[j];
  }

  lemma NotWithOneself(rows: Rows, r: Row)
    requires ValidRows(rows) && r in rows
    ensures r.owner != r.peer
  {
  }

  lemma NoRows()
    ensures ValidRows([]) && TwoSided([])
  {
  }

  // A row id never changes its owner, its peer or its topic, however the run goes on.
  lemma {:induction false} IdsAreStable(steps: seq<Step>, n: nat)
    requires n <= |steps| && Exec(steps).Some?
    ensures Exec(steps[..n]).Some? && KeepsRows(Exec(steps[..n]).value.rows, Exec(steps).value.rows)
    decreases |steps|
  {
    if n == |steps| {
      assert steps[..n] == steps;
    } else {
      var before := steps[..|steps| - 1];
      assert before[..n] == steps[..n];
      IdsAreStable(before, n);
      RowsComeInPairs(before);
      if steps[|steps| - 1].Ingest? { RecordAllKeeps(Exec(before).value.rows, steps[|steps| - 1].found); }
    }
  }

  // ----- reveal -----

  // At that point of the run the developer owns a match row for the peer on the topic.
  ghost predicate Owns(steps: seq<Step>, i: nat, who: string, peer: string, topic: string) {
    && i <= |steps| && Exec(steps[..i]).Some?
    && exists j :: 0 <= j < |Exec(steps[..i]).value.rows| && About(Exec(steps[..i]).value.rows[j], who, peer, topic)
  }

  // Step i is that developer's request on that very row.
  ghost predicate Asks(steps: seq<Step>, i: nat, who: string, peer: string, topic: string) {
    && i < |steps| && steps[i].Ask? && steps[i].who == who
    && ById(steps[i].listing, steps[i].id).Some?
    && About(ById(steps[i].listing, steps[i].id).value, who, peer, topic)
    && Owns(steps, i, who, peer, topic)
  }

  ghost predicate Asked(steps: seq<Step>, who: string, peer: string, topic: string) {
    exists i: nat :: Asks(steps, i, who, peer, topic)
  }

  lemma AskedEarlier(before: seq<Step>, steps: seq<Step>, who: string, peer: string, topic: string)
    requires before <= steps && Asked(before, who, peer, topic)
    ensures Asked(steps, who, peer, topic)
  {
    var i: nat :| Asks(before, i, who, peer, topic);
    assert before[..i] == steps[..i];
    assert Asks(steps, i, who, peer, topic);
  }

  lemma ListedIsOwned(s: State, step: Step)
    requires step.Ask? && Enabled(s, step) && ById(step.listing, step.id).Some?
    ensures var r := ById(step.listing, step.id).value;
            r.owner == step.who && exists j :: 0 <= j < |s.rows| && s.rows[j] == r
  {
    var r := ById(step.listing, step.id).value;
    var k :| 0 <= k < |step.listing| && step.listing[k] == r;
    assert step.listing[k] in s.rows;
  }

  lemma LastAsk(steps: seq<Step>)
    requires Exec(steps).Some? && steps != [] && steps[|steps| - 1].Ask?
    requires ById(steps[|steps| - 1].listing, steps[|steps| - 1].id).Some?
    ensures var step := steps[|steps| - 1];
            var r := ById(step.listing, step.id).value;
            r.owner == step.who && Asked(steps, r.owner, r.peer, r.topic)
  {
    hide Enabled, ById;
    var n := |steps| - 1;
    var s, step := Exec(steps[..n]).value, steps[n];
    var r := ById(step.listing, step.id).value;
    ListedIsOwned(s, step);
    var j :| 0 <= j < |s.rows| && s.rows[j] == r;
    assert About(Exec(steps[..n]).value.rows[j], r.owner, r.peer, r.topic);
    assert Asks(steps, n, r.owner, r.peer, r.topic);
  }

  // A consent is recorded exactly when its owner asked, on that topic, while owning a row for that peer.
  lemma {:induction false} ConsentsComeFromOwners(steps: seq<Step>, who: string, peer: string, topic: string)
    requires Exec(steps).Some?
    ensures Consent(who, peer, topic) in Exec(steps).value.consents <==> Asked(steps, who, peer, topic)
  {
    hide Enabled, ById, RecordAll, Asked;
    if steps == [] {
      NobodyAsked(who, peer, topic);
    } else {
      var before, step := steps[..|steps| - 1], steps[|steps| - 1];
      ConsentsComeFromOwners(before, who, peer, topic);
      AskedLast(steps, who, peer, topic);
      if step.Ask? && ById(step.listing, step.id).Some? {
        LastAsk(steps);
        OwnersDiffer(steps);
      }
    }
  }

  lemma NobodyAsked(who: string, peer: string, topic: string)
    ensures !Asked([], who, peer, topic)
  {
  }

  lemma AsksBack(before: seq<Step>, steps: seq<Step>, i: nat, who: string, peer: string, topic: string)
    requires before <= steps
    ensures i < |before| && Asks(steps, i, who, peer, topic) ==> Asks(before, i, who, peer, topic)
  {
    if i < |before| { assert before[..i] == steps[..i] && before[i] == steps[i]; }
  }

  // Who asked in the longer run asked before, or asks now.
  lemma AskedLast(steps: seq<Step>, who: string, peer: string, topic: string)
    requires steps != []
    ensures var step := steps[|steps| - 1];
            Asked(steps[..|steps| - 1], who, peer, topic) ==> Asked(steps, who, peer, topic)
    ensures var step := steps[|steps| - 1];
            Asked(steps, who, peer, topic) && !Asked(steps[..|steps| - 1], who, peer, topic) ==>
              step.Ask? && ById(step.listing, step.id).Some? && step.who == who
              && ById(step.listing, step.id).value.peer == peer && ById(step.listing, step.id).value.topic == topic
  {
    hide ById;
    var before := steps[..|steps| - 1];
    if Asked(before, who, peer, topic) {
      AskedEarlier(before, steps, who, peer, topic);
    } else if Asked(steps, who, peer, topic) {
      var i: nat :| Asks(steps, i, who, peer, topic);
      AsksBack(before, steps, i, who, peer, topic);
    }
  }

  lemma {:induction false} OwnersDiffer(steps: seq<Step>)
    requires Exec(steps).Some? && steps != [] && steps[|steps| - 1].Ask?
    requires ById(steps[|steps| - 1].listing, steps[|steps| - 1].id).Some?
    ensures var r := ById(steps[|steps| - 1].listing, steps[|steps| - 1].id).value; r.owner != r.peer
  {
    hide ById, Enabled;
    var n := |steps| - 1;
    RowsComeInPairs(steps[..n]);
    ListedIsOwned(Exec(steps[..n]).value, steps[n]);
  }

  // Safety over whole runs: a response names a peer on a topic only if both sides asked for it on that same
  // topic, each on a match row they owned at the time.
  lemma RevealNeedsBothConsents(steps: seq<Step>, step: Step, who: string, peer: string, topic: string)
    requires Exec(steps).Some? && Enabled(Exec(steps).value, step)
    requires Reveals(Exec(steps).value, step, who, peer, topic)
    ensures Asked(steps + [step], who, peer, topic) && Asked(steps + [step], peer, who, topic)
  {
    hide Enabled, ById, Asked;
    var all := steps + [step];
    assert all[..|steps|] == steps;
    assert Exec(all) == Some(Next(Exec(steps).value, step));
    ConsentsComeFromOwners(all, who, peer, topic);
    ConsentsComeFromOwners(all, peer, who, topic);
  }

  // And once both have asked, a view that lists a row for the peer on the topic does name them.
  lemma {:induction false} BothConsentsReveal(steps: seq<Step>, step: Step, r: Row)
    requires Exec(steps).Some? && Enabled(Exec(steps).value, step) && step.View? && r in step.listing
    requires Asked(steps, r.owner, r.peer, r.topic) && Asked(steps, r.peer, r.owner, r.topic)
    ensures Reveals(Exec(steps).value, step, step.who, r.peer, r.topic)
  {
    hide Asked, Exec, TwoSided, Lookup, ById;
    ConsentsComeFromOwners(steps, r.owner, r.peer, r.topic);
    ConsentsComeFromOwners(steps, r.peer, r.owner, r.topic);
    RowsComeInPairs(steps);
    TopAreOwn(step.listing, Exec(steps).value.rows, step.who, step.since);
    var k :| 0 <= k < |step.listing| && step.listing[k] == r;
    assert step.listing[k] in Exec(steps).value.rows;
  }

  // So does the second request itself, whoever of the two makes it.
  lemma {:induction false} SecondRequestReveals(steps: seq<Step>, step: Step, r: Row)
    requires Exec(steps).Some? && Enabled(Exec(steps).value, step) && step.Ask?
    requires ById(step.listing, step.id) == Some(r) && Asked(steps, r.peer, r.owner, r.topic)
    ensures Reveals(Exec(steps).value, step, step.who, r.peer, r.topic)
  {
    hide Asked, Exec, TwoSided, Lookup, ById, TopRows;
    ConsentsComeFromOwners(steps, r.peer, r.owner, r.topic);
    RowsComeInPairs(steps);
    ListedIsOwned(Exec(steps).value, step);
  }

  // A listing leaves out an own, fresh row only when it is full of rows that are no older.
  lemma FreshRowIsListed(s: State, step: Step, r: Row)
    requires Enabled(s, step) && !step.Ingest? && r in s.rows && r.owner == step.who
    requires step.View? ==> r.ts >= step.since
    ensures r in step.listing || (|step.listing| == 50 && forall q :: q in step.listing ==> q.ts >= r.ts)
    ensures forall q :: q in step.listing ==> q in s.rows && q.owner == step.who && (step.View? ==> q.ts >= step.since)
  {
  }

  // A response names only the peer of a row it is about: the one asked on, or one on the page.
  lemma {:induction false} NamedPeerIsListed(s: State, step: Step, who: string, peer: string, topic: string)
    requires Reveals(s, step, who, peer, topic)
    ensures !step.Ingest? && who == step.who
    ensures exists r :: r in step.listing && r.peer == peer && r.topic == topic && (step.Ask? ==> r.id == step.id)
  {
    hide Agreed;
    if step.Ask? { assert ById(step.listing, step.id).value in step.listing; }
  }

  // It does happen: two people matched on an empty store, each asking once, and the first looking at their page.
  lemma IntroductionHappens(f: Found, since: real) returns (steps: seq<Step>, step: Step)
    requires f.m.a != f.m.b && since <= f.tsA
    ensures Exec(steps).Some? && Enabled(Exec(steps).value, step) && step.View? && step.who == f.m.a
    ensures Reveals(Exec(steps).value, step, f.m.a, f.m.b, f.m.topic)
  {
    hide Exec, Enabled, Next, RecordAll;
    var m := f.m;
    var x := Row(1, m.a, m.b, m.topic, m.similarity, m.mode, f.tsA);
    var y := Row(2, m.b, m.a, m.topic, m.similarity, m.mode, f.tsB);
    var ingest, ask, back := Ingest([f]), Ask(m.a, 1, [x]), Ask(m.b, 2, [y]);
    FirstIngest(f);
    AskOnOnly([x, y], x, y, {});
    ExecMore([ingest], ask);
    assert {} + {Consent(m.a, m.b, m.topic)} == {Consent(m.a, m.b, m.topic)};
    AskOnOnly([x, y], y, x, {Consent(m.a, m.b, m.topic)});
    ExecMore([ingest] + [ask], back);
    steps, step := [ingest] + [ask] + [back], View(m.a, since, [x]);
    ViewOfOnly([x, y], x, y, since, Exec(steps).value.consents);
  }

  lemma FirstIngest(f: Found)
    requires f.m.a != f.m.b
    ensures Exec([Ingest([f])]) == Some(State([Row(1, f.m.a, f.m.b, f.m.topic, f.m.similarity, f.m.mode, f.tsA),
                                               Row(2, f.m.b, f.m.a, f.m.topic, f.m.similarity, f.m.mode, f.tsB)], {}))
  {
    hide Recorded;
    FirstRows(f);
    var steps := [Ingest([f])];
    assert steps[..0] == [];
  }

  lemma AskOnOnly(rows: Rows, x: Row, y: Row, consents: set<Consent>)
    requires (rows == [x, y] || rows == [y, x]) && x.owner != y.owner && x.owner != x.peer
    ensures var s := State(rows, consents);
            && Enabled(s, Ask(x.owner, x.id, [x]))
            && Next(s, Ask(x.owner, x.id, [x])) == s.(consents := consents + {Consent(x.owner, x.peer, x.topic)})
  {
    hide TopRows;
    OnlyRow(rows, x, y, None);
  }

  lemma ViewOfOnly(rows: Rows, x: Row, y: Row, since: real, consents: set<Consent>)
    requires (rows == [x, y] || rows == [y, x]) && x.owner != y.owner && x.owner != x.peer && x.ts >= since
    requires Consent(x.owner, x.peer, x.topic) in consents && Consent(x.peer, x.owner, x.topic) in consents
    ensures var s, step := State(rows, consents), View(x.owner, since, [x]);
            Enabled(s, step) && Reveals(s, step, x.owner, x.peer, x.topic)
  {
    hide TopRows;
    OnlyRow(rows, x, y, Some(since));
    assert x in [x];
  }

  lemma FirstRows(f: Found)
    requires f.m.a != f.m.b
    ensures RecordAll([], [f]) == [Row(1, f.m.a, f.m.b, f.m.topic, f.m.similarity, f.m.mode, f.tsA),
                                   Row(2, f.m.b, f.m.a, f.m.topic, f.m.similarity, f.m.mode, f.tsB)]
  {
    assert [f][..0] == [];
    var x := Row(1, f.m.a, f.m.b, f.m.topic, f.m.similarity, f.m.mode, f.tsA);
    assert [x][..0] == [];
    assert Lookup([x], f.m.b, f.m.a, f.m.topic) == -1;
  }

  lemma ExecMore(steps: seq<Step>, step: Step)
    requires Exec(steps).Some? && Enabled(Exec(steps).value, step)
    ensures Exec(steps + [step]) == Some(Next(Exec(steps).value, step))
  {
    assert (steps + [step])[..|steps|] == steps;
  }

  lemma OnlyRow(rows: Rows, x: Row, y: Row, since: Option<real>)
    requires (forall r :: r in rows <==> r == x || r == y) && x.owner != y.owner
    requires since.Some? ==> x.ts >= since.value
    ensures TopRows([x], rows, x.owner, PAGE, since)
  {
  }

  // ----- the endpoints -----

  // The writes of one ingested record: a row on each side of every match.
  method IngestMatches(store: MatchStore, found: seq<Found>)
    requires store.Valid()
    modifies store`rows
    ensures store.Valid() && store.rows == RecordAll(old(store.rows), found)
    ensures Ingested(old(store.rows), store.rows, found)
  {
    hide Recorded, Ingested;
    IngestWritesBothSides(store.rows, found);
    for i := 0 to |found|
      invariant store.Valid() && store.rows == RecordAll(old(store.rows), found[..i])
    {
      assert found[..i + 1][..i] == found[..i];
      var m := found[i].m;
      store.Record(m.a, m.b, m.topic, m.similarity, m.mode, found[i].tsA);
      store.Record(m.b, m.a, m.topic, m.similarity, m.mode, found[i].tsB);
    }
    assert found[..|found|] == found;
  }

  // A request for an introduction; the identity travels back exactly when `revealed` is some peer.
  method CollabConsent(store: MatchStore, who: string, id: nat)
    returns (known: bool, revealed: Option<(string, string)>, ghost step: Step)
    requires store.Valid()
    modifies store`consents
    ensures store.Valid() && step.Ask? && step.who == who && step.id == id
    ensures Enabled(old(State(store.rows, store.consents)), step)
    ensures State(store.rows, store.consents) == Next(old(State(store.rows, store.consents)), step)
    ensures known <==> ById(step.listing, id).Some?
    ensures forall peer, topic :: revealed == Some((peer, topic)) <==>
                                  Reveals(old(State(store.rows, store.consents)), step, who, peer, topic)
  {
    hide TopRows;
    var listing := store.ForOwner(who, PAGE, None);
    step := Ask(who, id, listing);
    var row := ById(listing, id);
    if row == None { return false, None, step; }
    var r := row.value;
    store.RecordConsent(who, r.peer, r.topic);
    var mutual := store.MutuallyConsented(who, r.peer, r.topic);
    return true, if mutual then Some((r.peer, r.topic)) else None, step;
  }

  lemma TopAreOwn(out: Rows, rows: Rows, owner: string, since: real)
    requires TopRows(out, rows, owner, PAGE, Some(since))
    ensures forall i :: 0 <= i < |out| ==> out[i].owner == owner && out[i].ts >= since
  {
  }

  // A developer's own view: their fresh rows, each with whether the peer is named.
  method Me(store: MatchStore, who: string, since: real) returns (page: seq<(Row, bool)>, ghost step: Step)
    requires store.Valid()
    ensures step.View? && step.who == who && step.since == since && Enabled(State(store.rows, store.consents), step)
    ensures |page| == |step.listing| && forall i :: 0 <= i < |page| ==> page[i].0 == step.listing[i]
    ensures forall i :: 0 <= i < |page| ==>
              (page[i].1 <==> Reveals(State(store.rows, store.consents), step, who, page[i].0.peer, page[i].0.topic))
    ensures forall i :: 0 <= i < |page| ==>
              page[i].0.owner == who && page[i].0.ts >= since
              && (page[i].1 <==> Agreed(store.consents, who, page[i].0.peer, page[i].0.topic))
  {
    hide TopRows;
    var listing := store.ForOwner(who, PAGE, Some(since));
    TopAreOwn(listing, store.rows, who, since);
    step := View(who, since, listing);
    page := [];
    for i := 0 to |listing|
      invariant |page| == i && forall j :: 0 <= j < i ==> page[j].0 == listing[j]
      invariant forall j :: 0 <= j < i ==>
                  (page[j].1 <==> Agreed(store.consents, who, listing[j].peer, listing[j].topic))
    {
      var mutual := store.MutuallyConsented(who, listing[i].peer, listing[i].topic);
      page := page + [(listing[i], mutual)];
    }
  }
}
