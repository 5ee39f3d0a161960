// The reuse-yield ledger: opportunities booked by an upsert, valued when the report is read.
module Ledger {
  import opened Prelude
  import opened DedupKey

  datatype Mode = Live | Solved

  // tenant is None for rows that predate tenants.
  datatype Row = Row(tenant: Option<string>, objective: string, workType: string, cluster: string, mode: Mode, ts: real)

  datatype Booking = Booking(tenant: string, a: string, b: string, objective: string, workType: string,
                             cluster: string, mode: Mode, ts: real)

  type Table = map<string, Row>

  function KeyOf(bk: Booking): string { Key(bk.tenant, bk.a, bk.b, bk.objective, bk.workType) }

  function Booked(table: Table, bk: Booking): Table {
    var k := KeyOf(bk);
    if k !in table then table[k := Row(Some(bk.tenant), bk.objective, bk.workType, bk.cluster, bk.mode, bk.ts)]
    else if table[k].mode == Live && bk.mode == Solved then
      table[k := table[k].(mode := Solved, cluster := bk.cluster)]
    else table
  }

  // The value tier stored under a key: nothing, live, solved.
  function Tier(table: Table, k: string): nat {
    if k !in table then 0 else if table[k].mode == Live then 1 else 2
  }

  // ----- booking, over whole runs -----

  function BookAll(bks: seq<Booking>): Table {
    if bks == [] then map[] else Booked(BookAll(bks[..|bks| - 1]), bks[|bks| - 1])
  }

  predicate SomeBooking(bks: seq<Booking>, k: string, atLeast: nat) {
    exists i :: 0 <= i < |bks| && KeyOf(bks[i]) == k && (bks[i].mode == Solved || atLeast < 2)
  }

  lemma {:induction false} SomeBookingLast(bks: seq<Booking>, k: string, atLeast: nat)
    requires bks != []
    ensures var n := |bks| - 1;
            SomeBooking(bks, k, atLeast) <==>
            SomeBooking(bks[..n], k, atLeast) || (KeyOf(bks[n]) == k && (bks[n].mode == Solved || atLeast < 2))
  {
    hide KeyOf;
    var n := |bks| - 1;
    if SomeBooking(bks[..n], k, atLeast) {
      var i :| 0 <= i < n && KeyOf(bks[..n][i]) == k && (bks[..n][i].mode == Solved || atLeast < 2);
      assert bks[i] == bks[..n][i];
    }
    if SomeBooking(bks, k, atLeast) {
      var i :| 0 <= i < |bks| && KeyOf(bks[i]) == k && (bks[i].mode == Solved || atLeast < 2);
      assert i < n ==> bks[..n][i] == bks[i];
    }
  }

  // Whatever the order, the duplication and the interleaving: a key is stored iff it was booked, and it is
  // solved iff some booking for it was.
  lemma {:induction false} BookingIsAJoin(bks: seq<Booking>, k: string)
    ensures Tier(BookAll(bks), k) >= 1 <==> SomeBooking(bks, k, 1)
    ensures Tier(BookAll(bks), k) == 2 <==> SomeBooking(bks, k, 2)
  {
    hide KeyOf, SomeBooking;
    if bks == [] {
      NoBooking(k);
    } else {
      BookingIsAJoin(bks[..|bks| - 1], k);
      SomeBookingLast(bks, k, 1);
      SomeBookingLast(bks, k, 2);
    }
  }

  lemma NoBooking(k: string)
    ensures !SomeBooking([], k, 1) && !SomeBooking([], k, 2)
  {
  }

  // How often book returned True for a key.
  function Changes(bks: seq<Booking>, k: string): nat {
    if bks == [] then 0
    else
      var before := bks[..|bks| - 1];
      Changes(before, k) + if Tier(BookAll(bks), k) != Tier(BookAll(before), k) then 1 else 0
  }

  lemma {:induction false} AtMostTwoChanges(bks: seq<Booking>, k: string)
    ensures Changes(bks, k) <= Tier(BookAll(bks), k) <= 2
    ensures Changes(bks, k) == 0 <==> Tier(BookAll(bks), k) == 0
  {
    if bks != [] { AtMostTwoChanges(bks[..|bks| - 1], k); }
  }

  ghost function Bookings(bks: seq<Booking>): set<Booking> { set bk | bk in bks }

  predicate AllWellNamed(bks: seq<Booking>) {
    forall i :: 0 <= i < |bks| ==> WellNamed(bks[i].tenant, bks[i].a, bks[i].b, bks[i].objective)
  }

  // The part of a row the report reads.
  datatype Facts = Facts(tenant: Option<string>, objective: string, workType: string, mode: Mode)

  function View(table: Table): map<string, Facts> {
    map k | k in table :: Facts(table[k].tenant, table[k].objective, table[k].workType, table[k].mode)
  }

  // Bookings that share a key are for the same tenant, objective and work type.
  predicate KeysAgree(bks: seq<Booking>) {
    forall i, j :: 0 <= i < |bks| && 0 <= j < |bks| && KeyOf(bks[i]) == KeyOf(bks[j]) ==> SameFacts(bks[i], bks[j])
  }

  predicate SameFacts(x: Booking, y: Booking) {
    x.tenant == y.tenant && x.objective == y.objective && x.workType == y.workType
  }

  // As they are when the ids hold no separators.
  lemma WellNamedAgree(bks: seq<Booking>)
    requires AllWellNamed(bks)
    ensures KeysAgree(bks)
  {
    hide Key, WellNamed;
    forall i, j | 0 <= i < |bks| && 0 <= j < |bks| && KeyOf(bks[i]) == KeyOf(bks[j])
      ensures SameFacts(bks[i], bks[j])
    {
      var x, y := bks[i], bks[j];
      SameKeyIffSameOpportunity(
        x.tenant, x.a, x.b, x.objective, x.workType, y.tenant, y.a, y.b, y.objective, y.workType);
    }
  }

  // Then a row says what every booking of its key says.
  lemma {:induction false} RowsSayWhatWasBooked(bks: seq<Booking>, i: nat)
    requires KeysAgree(bks) && i < |bks|
    ensures KeyOf(bks[i]) in BookAll(bks)
    ensures var r := BookAll(bks)[KeyOf(bks[i])];
            r.tenant == Some(bks[i].tenant) && r.objective == bks[i].objective && r.workType == bks[i].workType
  {
    hide KeyOf;
    var n := |bks| - 1;
    var before, k := bks[..n], KeyOf(bks[i]);
    if i < n {
      RowsSayWhatWasBooked(before, i);
    } else if k in BookAll(before) {
      BookingIsAJoin(before, k);
      var j :| 0 <= j < |before| && KeyOf(before[j]) == k;
      RowsSayWhatWasBooked(before, j);
      assert SameFacts(bks[j], bks[i]);
    }
  }

  lemma AgreeAsSets(bks: seq<Booking>, bks': seq<Booking>)
    requires KeysAgree(bks) && Bookings(bks') <= Bookings(bks)
    ensures KeysAgree(bks')
  {
    hide KeyOf, SameFacts;
    forall i, j | 0 <= i < |bks'| && 0 <= j < |bks'| && KeyOf(bks'[i]) == KeyOf(bks'[j])
      ensures SameFacts(bks'[i], bks'[j])
    {
      assert bks'[i] in Bookings(bks) && bks'[j] in Bookings(bks);
      var x :| 0 <= x < |bks| && bks[x] == bks'[i];
      var y :| 0 <= y < |bks| && bks[y] == bks'[j];
    }
  }

  // What the report reads depends only on the set of bookings.
  lemma {:induction false} ViewDependsOnTheSet(bks: seq<Booking>, bks': seq<Booking>)
    requires KeysAgree(bks) && Bookings(bks) == Bookings(bks')
    ensures View(BookAll(bks)) == View(BookAll(bks'))
  {
    hide KeyOf, SameFacts, KeysAgree;
    AgreeAsSets(bks, bks');
    forall k
      ensures k in BookAll(bks) <==> k in BookAll(bks')
      ensures k in BookAll(bks) ==> View(BookAll(bks))[k] == View(BookAll(bks'))[k]
    {
      SameTier(bks, bks', k);
      SameTier(bks', bks, k);
      if k in BookAll(bks) {
        BookingIsAJoin(bks, k);
        var i :| 0 <= i < |bks| && KeyOf(bks[i]) == k;
        assert bks[i] in Bookings(bks');
        var j :| 0 <= j < |bks'| && bks'[j] == bks[i];
        RowsSayWhatWasBooked(bks, i);
        RowsSayWhatWasBooked(bks', j);
      }
    }
  }

  // The first booking of a key decides what its row says.
  lemma {:induction false} FirstBookingStays(first: Booking, bks: seq<Booking>)
    ensures var t := BookAll([first] + bks);
            && KeyOf(first) in t && t[KeyOf(first)].tenant == Some(first.tenant)
            && t[KeyOf(first)].objective == first.objective && t[KeyOf(first)].workType == first.workType
            && t[KeyOf(first)].ts == first.ts
            && (first.mode == Solved ==> t[KeyOf(first)].mode == Solved)
            && (first.mode == Solved || t[KeyOf(first)].mode == Live ==> t[KeyOf(first)].cluster == first.cluster)
  {
    hide KeyOf;
    var all := [first] + bks;
    if bks == [] {
      assert all[..0] == [];
    } else {
      FirstBookingStays(first, bks[..|bks| - 1]);
      assert all[..|all| - 1] == [first] + bks[..|bks| - 1];
    }
  }

  // An upgrade takes over the cluster of the booking that brings it, and nothing else changes the row.
  lemma UpgradeRelabels(table: Table, bk: Booking)
    ensures KeyOf(bk) in table ==>
              Booked(table, bk)[KeyOf(bk)]
              == if table[KeyOf(bk)].mode == Live && bk.mode == Solved
                 then table[KeyOf(bk)].(mode := Solved, cluster := bk.cluster) else table[KeyOf(bk)]
    ensures forall k :: k in table && k != KeyOf(bk) ==> k in Booked(table, bk) && Booked(table, bk)[k] == table[k]
  {
    hide KeyOf;
  }

  // Whatever order and repetition these bookings come in, the report reads the same.
  ghost predicate OrderFree(bks: seq<Booking>) {
    forall bks' :: Bookings(bks') == Bookings(bks) ==> View(BookAll(bks')) == View(BookAll(bks))
  }

  // This holds exactly when bookings that share a key agree.
  lemma OrderFreeIffKeysAgree(bks: seq<Booking>)
    ensures OrderFree(bks) <==> KeysAgree(bks)
  {
    hide KeyOf, View, BookAll, KeysAgree;
    if KeysAgree(bks) {
      forall bks' | Bookings(bks') == Bookings(bks) ensures View(BookAll(bks')) == View(BookAll(bks)) {
        ViewDependsOnTheSet(bks, bks');
      }
    } else {
      var x, y := Clash(bks);
      var xs, ys := [x] + bks, [y] + bks;
      assert Bookings(xs) == Bookings(bks) && Bookings(ys) == Bookings(bks);
      FirstBookingStays(x, bks);
      FirstBookingStays(y, bks);
      ViewsDiffer(BookAll(xs), BookAll(ys), KeyOf(x));
    }
  }

  lemma Clash(bks: seq<Booking>) returns (x: Booking, y: Booking)
    requires !KeysAgree(bks)
    ensures x in bks && y in bks && KeyOf(x) == KeyOf(y) && !SameFacts(x, y)
  {
    var i, j :| 0 <= i < |bks| && 0 <= j < |bks| && KeyOf(bks[i]) == KeyOf(bks[j]) && !SameFacts(bks[i], bks[j]);
    x, y := bks[i], bks[j];
  }

  lemma ViewsDiffer(t: Table, t': Table, k: string)
    requires k in t && k in t'
    requires t[k].tenant != t'[k].tenant || t[k].objective != t'[k].objective || t[k].workType != t'[k].workType
    ensures View(t) != View(t')
  {
    assert View(t)[k] != View(t')[k];
  }

  lemma {:induction false} SameTier(bks: seq<Booking>, bks': seq<Booking>, k: string)
    requires Bookings(bks) <= Bookings(bks')
    ensures Tier(BookAll(bks), k) <= Tier(BookAll(bks'), k)
  {
    BookingIsAJoin(bks, k);
    BookingIsAJoin(bks', k);
    forall atLeast: nat | SomeBooking(bks, k, atLeast)
      ensures SomeBooking(bks', k, atLeast)
    {
      var i :| 0 <= i < |bks| && KeyOf(bks[i]) == k && (bks[i].mode == Solved || atLeast < 2);
      assert bks[i] in Bookings(bks');
      var j :| 0 <= j < |bks'| && bks'[j] == bks[i];
    }
  }
}
