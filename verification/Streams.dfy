// Two ways a loop over a stream of events leaves its mark: appending to a list, and overwriting a field.
module Streams {
  import opened Prelude

  // Everything the events append, in order.
  function Gather<E, T>(events: seq<E>, piece: E -> seq<T>): seq<T> {
    if events == [] then [] else Gather(events[..|events| - 1], piece) + piece(events[|events| - 1])
  }

  // The last value any event assigns, or the initial one.
  function LastOr<E, T>(events: seq<E>, field: E -> Option<T>, initial: T): T {
    if events == [] then initial
    else
      match field(events[|events| - 1])
      case Some(v) => v
      case None => LastOr(events[..|events| - 1], field, initial)
  }

  lemma GatherStep<E, T>(events: seq<E>, piece: E -> seq<T>, i: nat)
    requires i < |events|
    ensures Gather(events[..i + 1], piece) == Gather(events[..i], piece) + piece(events[i])
  {
    assert events[..i + 1][..i] == events[..i];
  }

  lemma LastStep<E, T>(events: seq<E>, field: E -> Option<T>, initial: T, i: nat)
    requires i < |events|
    ensures LastOr(events[..i + 1], field, initial)
         == match field(events[i]) case Some(v) => v case None => LastOr(events[..i], field, initial)
  {
    assert events[..i + 1][..i] == events[..i];
  }

  lemma GatherOne<E, T>(e: E, piece: E -> seq<T>)
    ensures Gather([e], piece) == piece(e)
  {
    assert [e][..0] == [];
  }

  lemma LastOne<E, T>(e: E, field: E -> Option<T>, initial: T)
    ensures LastOr([e], field, initial) == match field(e) case Some(v) => v case None => initial
  {
    assert [e][..0] == [];
  }

  lemma {:induction false} GatherAppend<E, T>(a: seq<E>, b: seq<E>, piece: E -> seq<T>)
    ensures Gather(a + b, piece) == Gather(a, piece) + Gather(b, piece)
  {
    if b == [] {
      assert a + b == a;
    } else {
      var n := |b| - 1;
      GatherAppend(a, b[..n], piece);
      assert (a + b)[..|a + b| - 1] == a + b[..n];
    }
  }

  lemma {:induction false} LastAppend<E, T>(a: seq<E>, b: seq<E>, field: E -> Option<T>, initial: T)
    ensures LastOr(a + b, field, initial) == LastOr(b, field, LastOr(a, field, initial))
  {
    if b == [] {
      assert a + b == a;
    } else {
      var n := |b| - 1;
      LastAppend(a, b[..n], field, initial);
      assert (a + b)[..|a + b| - 1] == a + b[..n];
    }
  }

  // What a prefix of the events appends is a prefix of what all of them append.
  lemma {:induction false} GatherPrefix<E, T>(events: seq<E>, k: nat, piece: E -> seq<T>)
    requires k <= |events|
    ensures Gather(events[..k], piece) <= Gather(events, piece)
  {
    assert events == events[..k] + events[k..];
    GatherAppend(events[..k], events[k..], piece);
  }

  lemma {:induction false} GatherNothing<E, T>(events: seq<E>, piece: E -> seq<T>)
    requires forall e :: e in events ==> piece(e) == []
    ensures Gather(events, piece) == []
  {
    if events != [] { GatherNothing(events[..|events| - 1], piece); }
  }

  lemma {:induction false} GatherEmpty<E, T>(es: seq<E>, piece: E -> seq<T>)
    ensures Gather(es, piece) == [] <==> forall e :: e in es ==> piece(e) == []
  {
    if es != [] {
      var n := |es| - 1;
      GatherEmpty(es[..n], piece);
      assert es == es[..n] + [es[n]];
    }
  }

  lemma {:induction false} LastUnset<E, T>(events: seq<E>, field: E -> Option<T>, initial: T)
    requires forall e :: e in events ==> field(e) == None
    ensures LastOr(events, field, initial) == initial
  {
    if events != [] { LastUnset(events[..|events| - 1], field, initial); }
  }

  // A field that is never assigned anything else keeps its value.
  lemma {:induction false} LastAgrees<E, T>(events: seq<E>, field: E -> Option<T>, value: T)
    requires forall e :: e in events ==> field(e) == None || field(e) == Some(value)
    ensures LastOr(events, field, value) == value
  {
    if events != [] { LastAgrees(events[..|events| - 1], field, value); }
  }

  // The last assignment holds.
  lemma LastFrom<E, T>(events: seq<E>, field: E -> Option<T>, initial: T, k: nat)
    requires k < |events| && field(events[k]).Some?
    requires forall j :: k < j < |events| ==> field(events[j]) == None
    ensures LastOr(events, field, initial) == field(events[k]).value
  {
    var after := events[k + 1..];
    assert events == events[..k + 1] + after;
    LastAppend(events[..k + 1], after, field, initial);
    LastStep(events, field, initial, k);
    LastUnset(after, field, field(events[k]).value);
  }

  // Assigning one value, at least once, leaves that value.
  lemma {:induction false} LastOfOne<E, T>(events: seq<E>, field: E -> Option<T>, initial: T, value: T)
    requires forall e :: e in events ==> field(e) == None || field(e) == Some(value)
    requires initial == value || exists e :: e in events && field(e).Some?
    ensures LastOr(events, field, initial) == value
  {
    if initial == value {
      LastAgrees(events, field, value);
    } else if field(events[|events| - 1]) == None {
      assert events == events[..|events| - 1] + [events[|events| - 1]];
      LastOfOne(events[..|events| - 1], field, initial, value);
    }
  }

  // Events that append nothing can be dropped from the stream.
  lemma {:induction false} GatherIgnores<E(!new), T>(events: seq<E>, keep: E -> bool, piece: E -> seq<T>)
    requires forall e :: e in events && !keep(e) ==> piece(e) == []
    ensures Gather(Filter(events, keep), piece) == Gather(events, piece)
  {
    if events != [] {
      var n := |events| - 1;
      GatherIgnores(events[..n], keep, piece);
      FilterLast(events, keep);
      GatherAppend(Filter(events[..n], keep), if keep(events[n]) then [events[n]] else [], piece);
      assert [events[n]][..0] == [];
    }
  }

  // Events that assign nothing can be dropped from the stream.
  lemma {:induction false} LastIgnores<E(!new), T>(events: seq<E>, keep: E -> bool, field: E -> Option<T>, initial: T)
    requires forall e :: e in events && !keep(e) ==> field(e) == None
    ensures LastOr(Filter(events, keep), field, initial) == LastOr(events, field, initial)
  {
    if events != [] {
      var n := |events| - 1;
      LastIgnores(events[..n], keep, field, initial);
      FilterLast(events, keep);
      LastAppend(Filter(events[..n], keep), if keep(events[n]) then [events[n]] else [], field, initial);
      assert [events[n]][..0] == [];
    }
  }

  // Gathering from the gathered is gathering in one go.
  lemma {:induction false} GatherGather<E, F, T>(events: seq<E>, parts: E -> seq<F>, piece: F -> seq<T>,
                                                 both: E -> seq<T>)
    requires forall e :: e in events ==> both(e) == Gather(parts(e), piece)
    ensures Gather(Gather(events, parts), piece) == Gather(events, both)
  {
    if events != [] {
      var n := |events| - 1;
      GatherGather(events[..n], parts, piece, both);
      GatherAppend(Gather(events[..n], parts), parts(events[n]), piece);
    }
  }
}
