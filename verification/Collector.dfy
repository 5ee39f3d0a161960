// The central collector's ingest loop: an upsert by event id, item by item.
module Collector {
  import opened Prelude
  import opened Spool

  datatype Record = Record(eventId: string, facts: string)

  // How the collector treats one item. Refused: malformed, or an actor it does not know. Stored: the
  // hardened row it writes; `matched` is false when the matching after the write raised.
  datatype Verdict = Refused | Stored(row: Record, matched: bool)

  type Judge = Record -> Verdict

  // Hardening re-prices and re-redacts a record; it never changes its id.
  ghost predicate KeepsIds(judge: Judge) {
    forall r :: judge(r).Stored? ==> judge(r).row.eventId == r.eventId
  }

  type Table = map<string, Record>

  function StoreOne(table: Table, r: Record, judge: Judge): Table {
    match judge(r)
    case Refused => table
    case Stored(row, _) => table[row.eventId := row]
  }

  function StoreAll(table: Table, items: seq<Record>, judge: Judge): Table {
    if items == [] then table
    else StoreOne(StoreAll(table, items[..|items| - 1], judge), items[|items| - 1], judge)
  }

  function Matched(items: seq<Record>, judge: Judge): nat {
    if items == [] then 0
    else Matched(items[..|items| - 1], judge)
         + (if judge(items[|items| - 1]) == Refused || !judge(items[|items| - 1]).matched then 0 else 1)
  }

  // The positions of the items that are stored and matched.
  function MatchedAt(items: seq<Record>, judge: Judge): set<nat> {
    set i: nat | i < |items| && judge(items[i]).Stored? && judge(items[i]).matched
  }

  // The count of an ingest is that of those items.
  lemma {:induction false} MatchedCounts(items: seq<Record>, judge: Judge)
    ensures Matched(items, judge) == |MatchedAt(items, judge)|
  {
    if items != [] {
      var n := |items| - 1;
      MatchedCounts(items[..n], judge);
      MatchedLast(items, judge);
    }
  }

  lemma MatchedLast(items: seq<Record>, judge: Judge)
    requires items != []
    ensures var n := |items| - 1;
            MatchedAt(items, judge)
            == MatchedAt(items[..n], judge) + if judge(items[n]).Stored? && judge(items[n]).matched then {n} else {}
  {
  }

  // The index of the last item of the batch that is stored under an id, or -1.
  function LastStored(items: seq<Record>, judge: Judge, id: string): (i: int)
    ensures -1 <= i < |items|
    ensures i >= 0 ==> judge(items[i]).Stored? && items[i].eventId == id
    ensures forall j :: i < j < |items| && judge(items[j]).Stored? ==> items[j].eventId != id
  {
    if items == [] then -1
    else if judge(items[|items| - 1]).Stored? && items[|items| - 1].eventId == id then |items| - 1
    else LastStored(items[..|items| - 1], judge, id)
  }

  // What a batch leaves in the table, without replaying it: per id its last stored item, or the old row.
  lemma {:induction false} StoreAllLookup(table: Table, items: seq<Record>, judge: Judge, id: string)
    requires KeepsIds(judge)
    ensures var i := LastStored(items, judge, id); var t := StoreAll(table, items, judge);
            if i >= 0 then id in t && t[id] == judge(items[i]).row
            else (id in t <==> id in table) && (id in table ==> t[id] == table[id])
  {
    if items != [] {
      StoreAllLookup(table, items[..|items| - 1], judge, id);
    }
  }

  // Delivering a batch again changes nothing, whatever the first delivery found in the table.
  lemma RetryIsIdempotent(table: Table, items: seq<Record>, judge: Judge)
    requires KeepsIds(judge)
    ensures StoreAll(StoreAll(table, items, judge), items, judge) == StoreAll(table, items, judge)
  {
    var once := StoreAll(table, items, judge);
    var twice := StoreAll(once, items, judge);
    forall id
      ensures id in twice <==> id in once
      ensures id in once ==> twice[id] == once[id]
    {
      StoreAllLookup(table, items, judge, id);
      StoreAllLookup(once, items, judge, id);
    }
  }

  class CollectorService {
    const judge: Judge
    const maxBatch: nat
    var table: Table

    constructor (judge: Judge, maxBatch: nat)
      ensures this.judge == judge && this.maxBatch == maxBatch && table == map[]
    {
      this.judge, this.maxBatch, table := judge, maxBatch, map[];
    }

    // The ingest endpoint once the token and the JSON are accepted.
    method Ingest(items: seq<Record>) returns (reply: Reply, n: nat, rejected: nat)
      modifies this`table
      ensures |items| > maxBatch ==> reply == Status(413) && table == old(table) && n == rejected == 0
      ensures |items| <= maxBatch ==> reply == Status(200) && table == StoreAll(old(table), items, judge)
      ensures |items| <= maxBatch ==> n == Matched(items, judge) && n + rejected == |items|
    {
      n, rejected := 0, 0;
      if |items| > maxBatch {
        return Status(413), 0, 0;
      }
      for i := 0 to |items|
        invariant n + rejected == i
        invariant table == StoreAll(old(table), items[..i], judge)
        invariant n == Matched(items[..i], judge)
      {
        assert items[..i + 1][..i] == items[..i];
        match judge(items[i]) {
          case Refused => rejected := rejected + 1;
          case Stored(row, matched) =>
            table := table[row.eventId := row];
            if matched { n := n + 1; } else { rejected := rejected + 1; }
        }
      }
      assert items[..|items|] == items;
      reply := Status(200);
    }
  }
}
