// Dropping tool definitions that repeat an earlier one.
module SlimTools {
  import opened Prelude

  // The two arrays a request may carry; None when missing or not a list.
  datatype Body<T> = Body(tools: Option<seq<T>>, functions: Option<seq<T>>)

  // json.dumps with sorted keys: two definitions are the same when their signatures are.
  type Signature<!T> = T -> string

  predicate Seen<T>(arr: seq<T>, sig: Signature<T>, s: string) {
    exists j :: 0 <= j < |arr| && sig(arr[j]) == s
  }

  predicate AllDifferent<T>(arr: seq<T>, sig: Signature<T>) {
    forall i, j :: 0 <= i < j < |arr| ==> sig(arr[i]) != sig(arr[j])
  }

  // The first definition of each signature, in order.
  function Firsts<T>(arr: seq<T>, sig: Signature<T>): seq<T> {
    if arr == [] then []
    else
      var n := |arr| - 1;
      Firsts(arr[..n], sig) + if Seen(arr[..n], sig, sig(arr[n])) then [] else [arr[n]]
  }

  method Dedupe<T>(arr: seq<T>, sig: Signature<T>) returns (deduped: seq<T>)
    ensures deduped == Firsts(arr, sig)
  {
    var seen: set<string> := {};
    deduped := [];
    for i := 0 to |arr|
      invariant deduped == Firsts(arr[..i], sig)
      invariant forall s :: s in seen <==> Seen(arr[..i], sig, s)
    {
      assert arr[..i + 1][..i] == arr[..i];
      SeenLast(arr[..i + 1], sig);
      if sig(arr[i]) !in seen {
        seen := seen + {sig(arr[i])};
        deduped := deduped + [arr[i]];
      }
    }
    assert arr[..|arr|] == arr;
  }

  lemma SeenLast<T>(arr: seq<T>, sig: Signature<T>)
    requires arr != []
    ensures var n := |arr| - 1; forall s :: Seen(arr, sig, s) <==> Seen(arr[..n], sig, s) || sig(arr[n]) == s
  {
    var n := |arr| - 1;
    forall s
      ensures Seen(arr, sig, s) <==> Seen(arr[..n], sig, s) || sig(arr[n]) == s
    {
      if j :| 0 <= j < |arr| && sig(arr[j]) == s { assert j < n ==> arr[..n][j] == arr[j]; }
      if j :| 0 <= j < n && sig(arr[..n][j]) == s { assert arr[j] == arr[..n][j]; }
    }
  }

  // Every definition survives once: same signatures, none twice, and nothing is dropped from a list without
  // repetitions.
  lemma {:induction false} EachOnce<T>(arr: seq<T>, sig: Signature<T>)
    ensures AllDifferent(Firsts(arr, sig), sig)
    ensures forall s :: Seen(Firsts(arr, sig), sig, s) <==> Seen(arr, sig, s)
    ensures |Firsts(arr, sig)| < |arr| || Firsts(arr, sig) == arr
    ensures Firsts(arr, sig) == arr <==> AllDifferent(arr, sig)
  {
    hide Seen, AllDifferent;
    if arr == [] {
      NothingSeen(sig);
    } else {
      var n := |arr| - 1;
      var before := Firsts(arr[..n], sig);
      EachOnce(arr[..n], sig);
      SeenLast(arr, sig);
      assert arr == arr[..n] + [arr[n]];
      if Seen(arr[..n], sig, sig(arr[n])) {
        RepeatFound(arr, sig);
        assert Firsts(arr, sig) == before;
      } else {
        var all := before + [arr[n]];
        assert Firsts(arr, sig) == all && all[..|before|] == before;
        SeenLast(all, sig);
        NewOneDiffers(before, arr[n], sig);
        NewOneDiffers(arr[..n], arr[n], sig);
        if all == arr { assert before == arr[..n]; }
      }
    }
  }

  lemma NothingSeen<T>(sig: Signature<T>)
    ensures AllDifferent([], sig) && forall s :: !Seen([], sig, s)
  {
  }

  lemma RepeatFound<T>(arr: seq<T>, sig: Signature<T>)
    requires arr != [] && Seen(arr[..|arr| - 1], sig, sig(arr[|arr| - 1]))
    ensures !AllDifferent(arr, sig)
  {
    var n := |arr| - 1;
    var j :| 0 <= j < n && sig(arr[..n][j]) == sig(arr[n]);
    assert sig(arr[j]) == sig(arr[n]);
  }

  lemma NewOneDiffers<T>(before: seq<T>, x: T, sig: Signature<T>)
    requires !Seen(before, sig, sig(x))
    ensures AllDifferent(before + [x], sig) <==> AllDifferent(before, sig)
  {
    var all := before + [x];
    assert forall i :: 0 <= i < |before| ==> all[i] == before[i];
    if AllDifferent(all, sig) {
      forall i, j | 0 <= i < j < |before| ensures sig(before[i]) != sig(before[j]) {
        assert sig(all[i]) != sig(all[j]);
      }
    }
  }

  // No earlier definition has the signature of this one.
  predicate FirstAt<T>(arr: seq<T>, sig: Signature<T>, i: nat) {
    i < |arr| && forall j :: 0 <= j < i ==> sig(arr[j]) != sig(arr[i])
  }

  lemma FirstAtLast<T>(arr: seq<T>, sig: Signature<T>, i: nat)
    requires arr != []
    ensures var n := |arr| - 1;
            FirstAt(arr, sig, i) <==> if i == n then !Seen(arr[..n], sig, sig(arr[n])) else FirstAt(arr[..n], sig, i)
  {
    var n := |arr| - 1;
    if i == n {
      assert forall j :: 0 <= j < n ==> arr[..n][j] == arr[j];
    }
  }

  // What survives stands where it stood: the first definition of each signature, in order.
  lemma {:induction false} FirstsStay<T>(arr: seq<T>, sig: Signature<T>) returns (at: seq<nat>)
    ensures Picks(Firsts(arr, sig), arr, at)
    ensures forall i: nat :: i in at <==> FirstAt(arr, sig, i)
  {
    hide FirstAt, Seen, Picks;
    if arr == [] {
      at := [];
      NothingFirst(sig);
    } else {
      var n := |arr| - 1;
      var before := FirstsStay(arr[..n], sig);
      at := before + if Seen(arr[..n], sig, sig(arr[n])) then [] else [n];
      PicksOneMore(Firsts(arr[..n], sig), arr, before);
      assert before + [] == before && Firsts(arr[..n], sig) + [] == Firsts(arr[..n], sig);
      forall i: nat ensures i in at <==> FirstAt(arr, sig, i) { FirstAtLast(arr, sig, i); }
    }
  }

  lemma NothingFirst<T>(sig: Signature<T>)
    ensures Picks(Firsts([], sig), [], []) && forall i: nat :: !FirstAt([], sig, i)
  {
  }

  function Definitions<T>(field: Option<seq<T>>): seq<T> { if field.Some? then field.value else [] }

  predicate Repeats<T>(field: Option<seq<T>>, sig: Signature<T>) {
    field.Some? && |field.value| > 1 && |Firsts(field.value, sig)| < |field.value|
  }

  function Slim<T>(body: Body<T>, sig: Signature<T>): Option<Body<T>> {
    if Repeats(body.tools, sig) then Some(body.(tools := Some(Firsts(body.tools.value, sig))))
    else if Repeats(body.functions, sig) then Some(body.(functions := Some(Firsts(body.functions.value, sig))))
    else None
  }

  method SlimTools<T>(body: Body<T>, sig: Signature<T>) returns (r: Option<Body<T>>)
    ensures r == Slim(body, sig)
  {
    if body.tools.Some? && |body.tools.value| > 1 {
      var deduped := Dedupe(body.tools.value, sig);
      if |deduped| < |body.tools.value| { return Some(body.(tools := Some(deduped))); }
    }
    if body.functions.Some? && |body.functions.value| > 1 {
      var deduped := Dedupe(body.functions.value, sig);
      if |deduped| < |body.functions.value| { return Some(body.(functions := Some(deduped))); }
    }
    return None;
  }

  lemma RepeatsIff<T>(field: Option<seq<T>>, sig: Signature<T>)
    ensures Repeats(field, sig) <==> !AllDifferent(Definitions(field), sig)
  {
    if field.Some? { EachOnce(field.value, sig); }
  }

  // The strategy applies if and only if some array repeats a definition, and it loses none.
  lemma AppliesIffRepeated<T>(body: Body<T>, sig: Signature<T>)
    ensures Slim(body, sig).Some? <==>
            !AllDifferent(Definitions(body.tools), sig) || !AllDifferent(Definitions(body.functions), sig)
    ensures Slim(body, sig).Some? ==>
              forall s :: var slim := Slim(body, sig).value;
                && (Seen(Definitions(slim.tools), sig, s) <==> Seen(Definitions(body.tools), sig, s))
                && (Seen(Definitions(slim.functions), sig, s) <==> Seen(Definitions(body.functions), sig, s))
  {
    hide Firsts, Seen, AllDifferent;
    RepeatsIff(body.tools, sig);
    RepeatsIff(body.functions, sig);
    if body.tools.Some? { EachOnce(body.tools.value, sig); }
    if body.functions.Some? { EachOnce(body.functions.value, sig); }
  }

  // The array that is not treated stays as it is, the tools being looked at first.
  lemma OneArrayOnly<T>(body: Body<T>, sig: Signature<T>)
    requires Slim(body, sig).Some?
    ensures var slim := Slim(body, sig).value;
            if AllDifferent(Definitions(body.tools), sig)
            then slim.tools == body.tools && slim.functions == Some(Firsts(Definitions(body.functions), sig))
            else slim.functions == body.functions && slim.tools == Some(Firsts(Definitions(body.tools), sig))
  {
    hide Firsts, AllDifferent;
    RepeatsIff(body.tools, sig);
    RepeatsIff(body.functions, sig);
  }

  // One pass treats one array only, so a request may need two; it never needs a third.
  lemma TwoPassesSuffice<T>(body: Body<T>, sig: Signature<T>)
    requires Slim(body, sig).Some? && Slim(Slim(body, sig).value, sig).Some?
    ensures Slim(Slim(Slim(body, sig).value, sig).value, sig) == None
  {
    hide Firsts, AllDifferent;
    SlimFixes(body.tools, sig);
    SlimFixes(body.functions, sig);
  }

  // Given that it applies, one pass is enough exactly when not both arrays repeat a definition.
  lemma OnePassSufficesIff<T>(body: Body<T>, sig: Signature<T>)
    requires Slim(body, sig).Some?
    ensures Slim(Slim(body, sig).value, sig) == None <==>
            AllDifferent(Definitions(body.tools), sig) || AllDifferent(Definitions(body.functions), sig)
  {
    hide Firsts, AllDifferent;
    RepeatsIff(body.tools, sig);
    RepeatsIff(body.functions, sig);
    SlimFixes(body.tools, sig);
    SlimFixes(body.functions, sig);
  }

  lemma SlimFixes<T>(field: Option<seq<T>>, sig: Signature<T>)
    ensures field.Some? ==> !Repeats(Some(Firsts(field.value, sig)), sig)
  {
    hide Firsts, AllDifferent;
    if field.Some? {
      EachOnce(field.value, sig);
      RepeatsIff(Some(Firsts(field.value, sig)), sig);
    }
  }
}
