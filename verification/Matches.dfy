// The match store: one row per owner, peer and topic, and consents scoped to a topic.
module Matches {
  import opened Prelude
  import opened Broker

  // Ids are handed out in order and rows are never deleted, so a row's id is one past its position.
  datatype Row = Row(id: nat, owner: string, peer: string, topic: string, similarity: int, mode: Mode, ts: real)

  type Rows = seq<Row>

  datatype Consent = Consent(owner: string, peer: string, topic: string)

  predicate About(r: Row, owner: string, peer: string, topic: string) {
    r.owner == owner && r.peer == peer && r.topic == topic
  }

  // SELECT id .. WHERE owner=? AND peer=? AND topic=?, as a position or -1.
  function Lookup(rows: Rows, owner: string, peer: string, topic: string): (i: int)
    ensures -1 <= i < |rows|
    ensures i >= 0 ==> About(rows[i], owner, peer, topic)
    ensures i < 0 ==> forall j :: 0 <= j < |rows| ==> !About(rows[j], owner, peer, topic)
  {
    if rows == [] then -1
    else
      var n := |rows| - 1;
      if About(rows[n], owner, peer, topic) then n else Lookup(rows[..n], owner, peer, topic)
  }

  ghost predicate ValidRows(rows: Rows) {
    && (forall i :: 0 <= i < |rows| ==> rows[i].id == i + 1 && rows[i].owner != rows[i].peer)
    && (forall i, j :: 0 <= i < j < |rows| ==> !About(rows[j], rows[i].owner, rows[i].peer, rows[i].topic))
  }

  function Recorded(rows: Rows, owner: string, peer: string, topic: string, similarity: int, mode: Mode, ts: real):
      Rows {
    if owner == peer then rows
    else
      var i := Lookup(rows, owner, peer, topic);
      if i >= 0 then rows[i := rows[i].(similarity := similarity, mode := mode, ts := ts)]
      else rows + [Row(|rows| + 1, owner, peer, topic, similarity, mode, ts)]
  }

  function Agreed(consents: set<Consent>, a: string, b: string, topic: string): bool {
    a != b && Consent(a, b, topic) in consents && Consent(b, a, topic) in consents
  }

  predicate Eligible(r: Row, owner: string, since: Option<real>) {
    r.owner == owner && (since.Some? ==> r.ts >= since.value)
  }

  // What "ORDER BY ts DESC LIMIT n" may return: eligible rows, newest first, none left out that is newer
  // than a returned one, and none left out at all below the limit.
  ghost predicate TopRows(out: Rows, rows: Rows, owner: string, limit: nat, since: Option<real>) {
    && |out| <= limit
    && (forall i :: 0 <= i < |out| ==> out[i] in rows && Eligible(out[i], owner, since))
    && (forall i, j :: 0 <= i < j < |out| ==> out[i].ts >= out[j].ts && out[i] != out[j])
    && (forall r :: r in rows && Eligible(r, owner, since) && r !in out ==>
          |out| == limit && forall i :: 0 <= i < |out| ==> out[i].ts >= r.ts)
  }

  class MatchStore {
    var rows: Rows
    var consents: set<Consent>

    ghost predicate Valid() reads this { ValidRows(rows) }

    constructor () ensures Valid() && rows == [] && consents == {} { rows, consents := [], {}; }

    method Record(owner: string, peer: string, topic: string, similarity: int, mode: Mode, ts: real)
      requires Valid()
      modifies this`rows
      ensures Valid() && rows == Recorded(old(rows), owner, peer, topic, similarity, mode, ts)
    {
      RecordedValid(rows, owner, peer, topic, similarity, mode, ts);
      if owner == peer { return; }
      var i := Lookup(rows, owner, peer, topic);
      if i >= 0 {
        rows := rows[i := rows[i].(similarity := similarity, mode := mode, ts := ts)];
      } else {
        rows := rows + [Row(|rows| + 1, owner, peer, topic, similarity, mode, ts)];
      }
    }

    method RecordConsent(owner: string, peer: string, topic: string)
      modifies this`consents
      ensures consents == old(consents) + if owner == peer then {} else {Consent(owner, peer, topic)}
    {
      if owner == peer { return; }
      consents := consents + {Consent(owner, peer, topic)};
    }

    method MutuallyConsented(a: string, b: string, topic: string) returns (yes: bool)
      ensures yes == Agreed(consents, a, b, topic)
    {
      if a == b { return false; }
      yes := Consent(a, b, topic) in consents && Consent(b, a, topic) in consents;
    }

    method ForOwner(owner: string, limit: nat, since: Option<real>) returns (out: Rows)
      requires Valid()
      ensures TopRows(out, rows, owner, limit, since)
      ensures |out| <= limit && forall r :: r in out ==> r in rows && r.owner == owner
      ensures since.Some? ==> forall r :: r in out ==> r.ts >= since.value
      ensures forall r :: r in rows && r.owner == owner && (since == None || r.ts >= since.value) ==>
                r in out || (|out| == limit && forall q :: q in out ==> q.ts >= r.ts)
    {
      out := [];
      var left := set r | r in rows && Eligible(r, owner, since);
      while left != {} && |out| < limit
        invariant |out| <= limit
        invariant forall r :: r in out || r in left <==> r in rows && Eligible(r, owner, since)
        invariant forall i, j :: 0 <= i < j < |out| ==> out[i].ts >= out[j].ts && out[i] != out[j]
        invariant forall i, r :: 0 <= i < |out| && r in left ==> out[i].ts >= r.ts && out[i] != r
        decreases left
      {
        LatestExists(left);
        var r :| r in left && forall q :: q in left ==> q.ts <= r.ts;
        out := out + [r];
        left := left - {r};
      }
    }
  }

  lemma {:induction false} LatestExists(left: set<Row>)
    requires left != {}
    ensures exists r :: r in left && forall q :: q in left ==> q.ts <= r.ts
    decreases left
  {
    var x :| x in left;
    if left != {x} {
      LatestExists(left - {x});
      var y :| y in left - {x} && forall q :: q in left - {x} ==> q.ts <= y.ts;
      var top := if x.ts >= y.ts then x else y;
      assert forall q :: q in left ==> q == x || q in left - {x};
      assert top in left && forall q :: q in left ==> q.ts <= top.ts;
    }
  }

  lemma RecordedValid(rows: Rows, owner: string, peer: string, topic: string, similarity: int, mode: Mode, ts: real)
    requires ValidRows(rows)
    ensures ValidRows(Recorded(rows, owner, peer, topic, similarity, mode, ts))
  {
  }
}
