// The ledger's string key for an opportunity, and the parse that recovers the two developers from it.
module DedupKey {
  import opened Prelude

  // Python's order on strings: by code point, a prefix first.
  predicate StringLe(a: string, b: string) {
    a == [] || (b != [] && (a[0] < b[0] || (a[0] == b[0] && StringLe(a[1..], b[1..]))))
  }

  lemma {:induction false} StringLeTotal(a: string, b: string)
    ensures StringLe(a, b) || StringLe(b, a)
    ensures StringLe(a, b) && StringLe(b, a) ==> a == b
  {
    if a != [] && b != [] && a[0] == b[0] {
      StringLeTotal(a[1..], b[1..]);
      assert a == [a[0]] + a[1..] && b == [b[0]] + b[1..];
    }
  }

  function PairKey(a: string, b: string): string {
    if StringLe(a, b) then a + "|" + b else b + "|" + a
  }

  function Key(tenant: string, a: string, b: string, objective: string, workType: string): string {
    tenant + "::" + (PairKey(a, b) + "::" + (objective + "::" + workType))
  }

  // The people summary counts for one stored key.
  function People(key: string): set<string> {
    var parts := Split(key, "::");
    if |parts| < 2 then {} else set p | p in Split(parts[1], "|") && p != ""
  }

  // A field that its following "::" ends unambiguously, and an id without either separator.
  predicate Clean(s: string) {
    (s == [] || s[|s| - 1] != ':') && Find(s, "::", 0) == -1
  }

  predicate Pseudonym(p: string) { ':' !in p && '|' !in p }

  lemma AtReads(s: string, pat: string, k: nat)
    requires pat != []
    ensures At(s, pat, k) ==> k < |s| && s[k] == pat[0] && (|pat| > 1 ==> k + 1 < |s| && s[k + 1] == pat[1])
  {
    if At(s, pat, k) {
      assert s[k..k + |pat|][0] == s[k];
      if |pat| > 1 { assert s[k..k + |pat|][1] == s[k + 1]; }
    }
  }

  lemma CleanEnds(x: string, y: string)
    requires Clean(x)
    ensures Find(x + "::" + y, "::", 0) == |x|
  {
    hide Find;
    var s := x + "::" + y;
    assert At(s, "::", |x|);
    forall k: nat | k < |x| ensures !At(s, "::", k) {
      AtReads(s, "::", k);
      assert s[k] == x[k] && !At(x, "::", k);
      assert k + 1 < |x| ==> x[k..k + 2] == s[k..k + 2];
    }
  }

  lemma BarEnds(x: string, y: string)
    requires '|' !in x
    ensures Find(x + "|" + y, "|", 0) == |x|
  {
    hide Find;
    var s := x + "|" + y;
    assert At(s, "|", |x|);
    forall k: nat | k < |x| ensures !At(s, "|", k) {
      AtReads(s, "|", k);
      assert s[k] == x[k] && x[k] in x;
    }
  }

  lemma NoSeparator(x: string, sep: string)
    requires sep != [] && sep[0] !in x
    ensures Find(x, sep, 0) == -1
  {
    hide Find;
    forall k: nat ensures !At(x, sep, k) {
      AtReads(x, sep, k);
      assert k < |x| ==> x[k] in x;
    }
  }

  lemma PairKeyClean(a: string, b: string)
    requires Pseudonym(a) && Pseudonym(b)
    ensures Clean(PairKey(a, b))
  {
    hide Find;
    var p := PairKey(a, b);
    assert ':' !in p;
    NoSeparator(p, "::");
    assert p != [] ==> p[|p| - 1] in p;
  }

  lemma SplitFirst(x: string, sep: string, y: string)
    requires sep != [] && Find(x + sep + y, sep, 0) == |x|
    ensures Split(x + sep + y, sep) == [x] + Split(y, sep)
  {
    hide Find;
    var s := x + sep + y;
    assert s[..|x|] == x && s[|x| + |sep|..] == y;
  }

  predicate NoBar(a: string, b: string) { '|' !in a && '|' !in b }

  lemma SplitPair(a: string, b: string)
    requires NoBar(a, b)
    ensures forall p :: p in Split(PairKey(a, b), "|") <==> p == a || p == b
  {
    hide Find;
    var x, y := if StringLe(a, b) then a else b, if StringLe(a, b) then b else a;
    BarEnds(x, y);
    SplitFirst(x, "|", y);
    NoSeparator(y, "|");
    assert Split(y, "|") == [y];
  }

  lemma PairPart(tenant: string, pair: string, rest: string)
    requires Clean(tenant) && Clean(pair)
    ensures var parts := Split(tenant + "::" + (pair + "::" + rest), "::"); |parts| >= 2 && parts[1] == pair
  {
    hide Find;
    CleanEnds(tenant, pair + "::" + rest);
    SplitFirst(tenant, "::", pair + "::" + rest);
    CleanEnds(pair, rest);
    SplitFirst(pair, "::", rest);
  }

  // Splitting the key recovers exactly the booked pair, whatever the objective and the work type contain, when
  // no name has a bar and the pair's part of the key ends unambiguously.
  lemma PairReads(tenant: string, a: string, b: string, objective: string, workType: string)
    requires Clean(tenant) && NoBar(a, b) && Clean(PairKey(a, b))
    ensures People(Key(tenant, a, b, objective, workType)) == {a, b} - {""}
  {
    hide Find, Split;
    PairPart(tenant, PairKey(a, b), objective + "::" + workType);
    SplitPair(a, b);
  }

  // In particular for pseudonyms, which have neither separator.
  lemma KeyRoundTrip(tenant: string, a: string, b: string, objective: string, workType: string)
    requires Clean(tenant) && Pseudonym(a) && Pseudonym(b)
    ensures People(Key(tenant, a, b, objective, workType)) == {a, b} - {""}
  {
    hide Find;
    PairKeyClean(a, b);
    PairReads(tenant, a, b, objective, workType);
  }

  lemma CleanSplitUnique(x: string, y: string, x': string, y': string)
    requires Clean(x) && Clean(x') && x + "::" + y == x' + "::" + y'
    ensures x == x' && y == y'
  {
    hide Find;
    CleanEnds(x, y);
    CleanEnds(x', y');
    var s := x + "::" + y;
    assert s[..|x|] == x && s[|x| + 2..] == y && (x' + "::" + y')[..|x'|] == x' && (x' + "::" + y')[|x'| + 2..] == y';
  }

  lemma BarSplitUnique(x: string, y: string, x': string, y': string)
    requires '|' !in x && '|' !in x' && x + "|" + y == x' + "|" + y'
    ensures x == x' && y == y'
  {
    hide Find;
    BarEnds(x, y);
    BarEnds(x', y');
    var s := x + "|" + y;
    assert s[..|x|] == x && s[|x| + 1..] == y && (x' + "|" + y')[..|x'|] == x' && (x' + "|" + y')[|x'| + 1..] == y';
  }

  // An opportunity: what the key is meant to identify, with the developers in either order.
  datatype Opportunity = Opportunity(tenant: string, people: set<string>, objective: string, workType: string)

  predicate WellNamed(tenant: string, a: string, b: string, objective: string) {
    Clean(tenant) && Clean(objective) && Pseudonym(a) && Pseudonym(b)
  }

  lemma PlainIdsAreWellNamed(tenant: string, a: string, b: string, objective: string)
    requires ':' !in tenant && ':' !in objective && Pseudonym(a) && Pseudonym(b)
    ensures WellNamed(tenant, a, b, objective)
  {
    hide Find;
    NoSeparator(tenant, "::");
    NoSeparator(objective, "::");
    assert tenant != [] ==> tenant[|tenant| - 1] in tenant;
    assert objective != [] ==> objective[|objective| - 1] in objective;
  }

  // Two bookings share a key exactly when they are about the same opportunity.
  lemma SameKeyIffSameOpportunity(t: string, a: string, b: string, o: string, w: string,
                                  t': string, a': string, b': string, o': string, w': string)
    requires WellNamed(t, a, b, o) && WellNamed(t', a', b', o')
    ensures Key(t, a, b, o, w) == Key(t', a', b', o', w')
       <==> Opportunity(t, {a, b}, o, w) == Opportunity(t', {a', b'}, o', w')
  {
    hide Find;
    if Key(t, a, b, o, w) == Key(t', a', b', o', w') {
      PairKeyClean(a, b);
      PairKeyClean(a', b');
      var p, p', r, r' := PairKey(a, b), PairKey(a', b'), o + "::" + w, o' + "::" + w';
      CleanSplitUnique(t, p + "::" + r, t', p' + "::" + r');
      CleanSplitUnique(p, r, p', r');
      CleanSplitUnique(o, w, o', w');
      PairKeyUnordered(a, b, a', b');
    }
    if {a, b} == {a', b'} { PairKeyUnordered(a, b, a', b'); }
  }

  lemma PairKeyUnordered(a: string, b: string, a': string, b': string)
    requires Pseudonym(a) && Pseudonym(b) && Pseudonym(a') && Pseudonym(b')
    ensures PairKey(a, b) == PairKey(a', b') <==> {a, b} == {a', b'}
  {
    hide Find, StringLe;
    StringLeTotal(a, b);
    StringLeTotal(a', b');
    var x, y := if StringLe(a, b) then a else b, if StringLe(a, b) then b else a;
    var x', y' := if StringLe(a', b') then a' else b', if StringLe(a', b') then b' else a';
    assert {a, b} == {x, y} && {a', b'} == {x', y'};
    if PairKey(a, b) == PairKey(a', b') {
      BarSplitUnique(x, y, x', y');
    }
    if {a, b} == {a', b'} {
      assert a in {a', b'} && b in {a', b'} && a' in {a, b} && b' in {a, b};
      assert (a == a' && b == b') || (a == b' && b == a');
    }
  }

  // Without clean tenants the parse can name developers nobody booked.
  lemma UncleanTenantMisleads()
    ensures People(Key("t::x|y", "a", "b", "o", "w")) == {"x", "y"}
  {
    hide Find, Split;
    var rest := PairKey("a", "b") + "::" + ("o" + "::" + "w");
    NoSeparator("t", "::");
    PairKeyClean("x", "y");
    assert PairKey("x", "y") == "x|y";
    PairPart("t", "x|y", rest);
    assert Key("t::x|y", "a", "b", "o", "w") == "t" + "::" + ("x|y" + "::" + rest);
    SplitPair("x", "y");
  }

  // The parse recovers the booked pair, whichever pseudonyms and whatever work were booked for this tenant.
  ghost predicate Recovers(tenant: string) {
    forall a, b, objective, workType :: Pseudonym(a) && Pseudonym(b) ==>
      People(Key(tenant, a, b, objective, workType)) == {a, b} - {""}
  }

  // It does so exactly for tenants without "::" and without a trailing ':'.
  lemma RecoversIffClean(tenant: string)
    ensures Recovers(tenant) <==> Clean(tenant)
  {
    hide Find, People, Key;
    if Clean(tenant) {
      forall a, b, objective, workType | Pseudonym(a) && Pseudonym(b)
        ensures People(Key(tenant, a, b, objective, workType)) == {a, b} - {""}
      {
        KeyRoundTrip(tenant, a, b, objective, workType);
      }
    } else if Find(tenant, "::", 0) != -1 {
      KeyStarts(tenant, "a", "a");
      KeyStarts(tenant, "b", "b");
      SeparatorHidesPair(tenant, Key(tenant, "a", "a", "", ""), Key(tenant, "b", "b", "", ""));
      TwoLoners(tenant);
    } else {
      ColonSticksToName(tenant, "a", "", "");
      assert ":a" in {":a", "a"} - {""} && ":a" !in {"a", "a"} - {""};
    }
  }

  lemma TwoLoners(tenant: string)
    requires People(Key(tenant, "a", "a", "", "")) == People(Key(tenant, "b", "b", "", ""))
    ensures !Recovers(tenant)
  {
    hide People, Key;
    assert "a" in {"a", "a"} - {""} && "a" !in {"b", "b"} - {""} by { assert "a"[0] != "b"[0]; }
    assert Pseudonym("a") && Pseudonym("b");
  }

  // With a separator inside the tenant the parse reads a part of the tenant, whoever was booked.
  lemma SeparatorHidesPair(tenant: string, key: string, key': string)
    requires Find(tenant, "::", 0) != -1 && tenant + "::" <= key && tenant + "::" <= key'
    ensures People(key) == People(key')
  {
    hide Find, Split;
    SecondPart(tenant, key);
    SecondPart(tenant, key');
  }

  lemma SecondPart(tenant: string, key: string)
    requires Find(tenant, "::", 0) != -1 && tenant + "::" <= key
    ensures var rest := tenant[Find(tenant, "::", 0) + 2..] + "::";
            var q := Find(rest, "::", 0);
            0 <= q <= |rest| && |Split(key, "::")| >= 2 && Split(key, "::")[1] == rest[..q]
  {
    hide Find, Split;
    var j := Find(tenant, "::", 0);
    var rest := tenant[j + 2..] + "::";
    assert tenant <= key by { assert tenant == (tenant + "::")[..|tenant|]; }
    FindGrows(tenant, key, "::");
    assert At(rest, "::", |rest| - 2);
    assert rest == (tenant + "::")[j + 2..] && rest <= key[j + 2..];
    FindGrows(rest, key[j + 2..], "::");
    FirstPart(key);
    FirstPart(key[j + 2..]);
  }

  lemma FirstPart(s: string)
    requires Find(s, "::", 0) != -1
    ensures var j := Find(s, "::", 0);
            Split(s, "::") == [s[..j]] + Split(s[j + 2..], "::") && Split(s[j + 2..], "::") != []
  {
    hide Find;
  }

  // The key of a booking of nameless work.
  lemma KeyStarts(tenant: string, p: string, q: string)
    requires StringLe(p, q)
    ensures Key(tenant, p, q, "", "") == tenant + "::" + (p + "|" + q + "::::")
  {
    assert Key(tenant, p, q, "", "") == tenant + "::" + (p + "|" + q + "::" + ("" + "::" + ""));
    assert "::" + ("" + "::" + "") == "::::";
  }

  // A tenant's trailing colon goes over to the first name.
  lemma {:induction false} ColonSticksToName(tenant: string, b: string, objective: string, workType: string)
    requires tenant != [] && tenant[|tenant| - 1] == ':' && Find(tenant, "::", 0) == -1
    requires Pseudonym(b) && StringLe("a", b)
    ensures People(Key(tenant, "a", b, objective, workType)) == {":a", b} - {""}
  {
    hide Find, Split;
    ColonPart(tenant, "a|" + b, objective + "::" + workType);
    assert "a" + "|" + b == "a|" + b;
    ColonName(b);
  }

  lemma ColonName(b: string)
    requires Pseudonym(b)
    ensures Split(":" + ("a|" + b), "|") == [":a", b]
  {
    hide Find;
    NoSeparator(b, "|");
    BarEnds(":a", b);
    assert ":a" + "|" + b == ":" + ("a|" + b);
    SplitFirst(":a", "|", b);
  }

  lemma {:induction false} ColonPart(tenant: string, pair: string, rest: string)
    requires tenant != [] && tenant[|tenant| - 1] == ':' && Find(tenant, "::", 0) == -1
    requires pair != [] && ':' !in pair
    ensures var parts := Split(tenant + "::" + (pair + "::" + rest), "::"); |parts| >= 2 && parts[1] == ":" + pair
  {
    hide Find, Split;
    var x, tail := tenant[..|tenant| - 1], ":" + pair + "::" + rest;
    var key := tenant + "::" + (pair + "::" + rest);
    assert key == x + "::" + tail;
    EndsAtColon(tenant, key, x, tail);
    SplitFirst(x, "::", tail);
    NoDoubleColon(pair);
    CleanEnds(":" + pair, rest);
    SplitFirst(":" + pair, "::", rest);
  }

  lemma NoDoubleColon(pair: string)
    requires pair != [] && ':' !in pair
    ensures Clean(":" + pair)
  {
    hide Find;
    var s := ":" + pair;
    forall k: nat ensures !At(s, "::", k) {
      AtReads(s, "::", k);
      assert k + 1 < |s| ==> s[k + 1] == pair[k] && pair[k] in pair;
    }
    assert s[|s| - 1] == pair[|pair| - 1] && pair[|pair| - 1] in pair;
  }

  lemma EndsAtColon(tenant: string, key: string, x: string, tail: string)
    requires tenant == x + ":" && Find(tenant, "::", 0) == -1 && key == x + "::" + tail
    ensures Find(key, "::", 0) == |x|
  {
    hide Find;
    assert At(key, "::", |x|);
    forall k: nat | k < |x| ensures !At(key, "::", k) {
      assert key[k..k + 2] == tenant[k..k + 2] && !At(tenant, "::", k);
    }
  }

  // ----- which names can be read back -----

  lemma {:induction false} PartsHaveNoBar(s: string)
    ensures forall p :: p in Split(s, "|") ==> '|' !in p
    decreases |s|
  {
    hide Find;
    var j := Find(s, "|", 0);
    if j == -1 {
      NoBarBefore(s, |s|);
      assert s[..|s|] == s;
    } else {
      NoBarBefore(s, j);
      PartsHaveNoBar(s[j + 1..]);
    }
  }

  lemma NoBarBefore(s: string, n: nat)
    requires n <= |s| && forall i: nat :: i < n ==> !At(s, "|", i)
    ensures '|' !in s[..n]
  {
    forall i | 0 <= i < n ensures s[i] != '|' { assert !At(s, "|", i) && s[i..i + 1] == [s[i]]; }
  }

  // The part the parse reads when the pair itself does not end unambiguously: a proper prefix of it.
  lemma CutPair(tenant: string, pair: string, rest: string) returns (q: nat)
    requires Clean(tenant) && pair != [] && !Clean(pair)
    ensures q < |pair| && Find(pair + "::", "::", 0) == q
    ensures var parts := Split(tenant + "::" + (pair + "::" + rest), "::"); |parts| >= 2 && parts[1] == pair[..q]
  {
    hide Find, Split;
    var ended := pair + "::";
    if Find(pair, "::", 0) != -1 {
      FindGrows(pair, ended, "::");
    } else {
      assert ended[|pair| - 1..|pair| + 1] == "::";
      assert At(ended, "::", |pair| - 1);
    }
    q := Find(ended, "::", 0);
    var tail := pair + "::" + rest;
    assert ended <= tail;
    FindGrows(ended, tail, "::");
    CleanEnds(tenant, tail);
    SplitFirst(tenant, "::", tail);
    FirstPart(tail);
  }

  function Names(part: string): set<string> { set p | p in Split(part, "|") && p != "" }

  // A cut in the first name loses it.
  lemma CutInFirst(x: string, y: string, q: nat)
    requires NoBar(x, y) && q < |x|
    ensures Names((x + "|" + y)[..q]) != {x, y} - {""}
  {
    hide Find;
    var part := x[..q];
    assert (x + "|" + y)[..q] == part;
    assert '|' !in part;
    NoSeparator(part, "|");
    assert Split(part, "|") == [part];
    assert x in {x, y} - {""} && x !in Names(part);
  }

  // A cut in the second name loses it, unless it is the first name again and nothing is left of it.
  lemma CutInSecond(x: string, y: string, q: nat)
    requires NoBar(x, y) && |x| < q < |x + "|" + y|
    ensures Names((x + "|" + y)[..q]) == {x, y} - {""} ==> x == y && q == |x| + 1
  {
    hide Find;
    var left := y[..q - |x| - 1];
    assert (x + "|" + y)[..q] == x + "|" + left;
    assert '|' !in left;
    BarEnds(x, left);
    SplitFirst(x, "|", left);
    NoSeparator(left, "|");
    assert Split(left, "|") == [left];
    assert y in {x, y} - {""};
    assert left != "" ==> left in Names(x + "|" + left);
  }

  // So a cut pair is read back only when both names are a single colon.
  lemma CutReads(x: string, y: string, q: nat)
    requires NoBar(x, y) && q < |x + "|" + y| && Find(x + "|" + y + "::", "::", 0) == q
    ensures Names((x + "|" + y)[..q]) == {x, y} - {""} ==> x == y == ":"
  {
    hide Find, Names;
    var s := x + "|" + y + "::";
    AtReads(s, "::", q);
    assert s[|x|] == '|' && s[0..2] == [s[0], s[1]];
    if q < |x| {
      CutInFirst(x, y, q);
    } else {
      CutInSecond(x, y, q);
      if x == y && q == |x| + 1 {
        assert !At(s, "::", 0);
        assert forall k :: 0 <= k < |y| ==> s[q + k] == s[k];
        assert s[q] == s[0];
      }
    }
  }

  lemma ColonPairReads(tenant: string, objective: string, workType: string)
    requires Clean(tenant)
    ensures People(Key(tenant, ":", ":", objective, workType)) == {":"}
  {
    hide Find, Split;
    var pair := ":|:";
    assert PairKey(":", ":") == pair;
    var q := CutPair(tenant, pair, objective + "::" + workType);
    ColonCut();
    assert pair[..2] == ":" + "|" + "";
    BarEnds(":", "");
    SplitFirst(":", "|", "");
    NoSeparator("", "|");
    EmptySplit();
  }

  lemma EmptySplit()
    ensures Split("", "|") == [""]
  {
    hide Find;
    NoSeparator("", "|");
  }

  lemma ColonCut()
    ensures !Clean(":|:") && Find(":|:" + "::", "::", 0) == 2
  {
    hide Find;
    var s := ":|:" + "::";
    assert s[2..4] == "::" && At(s, "::", 2);
    AtReads(s, "::", 0);
    AtReads(s, "::", 1);
  }

  // For a clean tenant the parse recovers a pair, whatever the names are, exactly when no name has a bar and the
  // pair ends unambiguously, or both names are a single colon.
  lemma PairReadsIff(tenant: string, a: string, b: string, objective: string, workType: string)
    requires Clean(tenant)
    ensures People(Key(tenant, a, b, objective, workType)) == {a, b} - {""} <==>
            NoBar(a, b) && (Clean(PairKey(a, b)) || a == b == ":")
  {
    hide Find, Split, Clean, StringLe;
    var key := Key(tenant, a, b, objective, workType);
    if !NoBar(a, b) {
      BarIsNeverRead(key, if '|' in a then a else b);
    } else if Clean(PairKey(a, b)) {
      PairReads(tenant, a, b, objective, workType);
    } else if a == b == ":" {
      ColonPairReads(tenant, objective, workType);
      assert {a, b} - {""} == {":"};
    } else {
      var x, y := if StringLe(a, b) then a else b, if StringLe(a, b) then b else a;
      var q := CutPair(tenant, x + "|" + y, objective + "::" + workType);
      CutReads(x, y, q);
      assert {a, b} == {x, y};
    }
  }

  // A name with a bar is never read back, for any tenant.
  lemma BarIsNeverRead(key: string, a: string)
    requires '|' in a
    ensures a !in People(key)
  {
    hide Find, Split;
    var parts := Split(key, "::");
    if |parts| >= 2 { PartsHaveNoBar(parts[1]); }
  }
}
