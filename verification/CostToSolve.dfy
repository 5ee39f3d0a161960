// The robust cost-to-solve estimate: a symmetric trimmed mean of the developers' totals.
module CostToSolve {
  import opened Prelude

  // ----- sorting -----

  predicate Ascending(s: seq<real>) {
    s == [] || ((forall k :: 0 < k < |s| ==> s[0] <= s[k]) && Ascending(s[1..]))
  }

  lemma {:induction false} AscendingAt(s: seq<real>, i: nat, j: nat)
    requires Ascending(s) && i <= j < |s|
    ensures s[i] <= s[j]
  {
    if i > 0 { AscendingAt(s[1..], i - 1, j - 1); }
  }

  function InsertSorted(x: real, s: seq<real>): (r: seq<real>)
    ensures |r| == |s| + 1
  {
    if s == [] || x <= s[0] then [x] + s else [s[0]] + InsertSorted(x, s[1..])
  }

  function Sort(s: seq<real>): (r: seq<real>)
    ensures |r| == |s|
  {
    if s == [] then [] else InsertSorted(s[0], Sort(s[1..]))
  }

  lemma {:induction false} InsertKeeps(x: real, s: seq<real>)
    ensures multiset(InsertSorted(x, s)) == multiset{x} + multiset(s)
  {
    if s != [] {
      assert s == [s[0]] + s[1..];
      InsertKeeps(x, s[1..]);
    }
  }

  lemma {:induction false} InsertAscends(x: real, s: seq<real>)
    requires Ascending(s)
    ensures Ascending(InsertSorted(x, s))
  {
    if s == [] || x <= s[0] {
      assert ([x] + s)[1..] == s;
    } else {
      var r := InsertSorted(x, s[1..]);
      InsertAscends(x, s[1..]);
      InsertKeeps(x, s[1..]);
      assert ([s[0]] + r)[1..] == r;
      forall k | 0 <= k < |r|
        ensures s[0] <= r[k]
      {
        assert r[k] in multiset(r);
        assert r[k] == x || r[k] in s[1..];
      }
    }
  }

  // Sort is a sort.
  lemma {:induction false} SortSorts(s: seq<real>)
    ensures Ascending(Sort(s)) && multiset(Sort(s)) == multiset(s)
  {
    if s != [] {
      assert s == [s[0]] + s[1..];
      SortSorts(s[1..]);
      InsertAscends(s[0], Sort(s[1..]));
      InsertKeeps(s[0], Sort(s[1..]));
    }
  }

  lemma LeastFirst(s: seq<real>, x: real)
    requires s != [] && Ascending(s) && x in multiset(s)
    ensures s[0] <= x
  {
    assert x in s;
  }

  lemma TailMultiset(s: seq<real>)
    requires s != []
    ensures multiset(s) == multiset{s[0]} + multiset(s[1..])
  {
    assert s == [s[0]] + s[1..];
  }

  lemma TailsAgree(s: seq<real>, t: seq<real>)
    requires s != [] && t != [] && s[0] == t[0] && multiset(s) == multiset(t)
    ensures multiset(s[1..]) == multiset(t[1..])
  {
    TailMultiset(s);
    TailMultiset(t);
    assert multiset(s[1..]) == multiset(s) - multiset{s[0]};
    assert multiset(t[1..]) == multiset(t) - multiset{s[0]};
  }

  lemma SameFirst(s: seq<real>, t: seq<real>)
    requires s != [] && t != [] && Ascending(s) && Ascending(t) && multiset(s) == multiset(t)
    ensures s[0] == t[0]
  {
    assert s[0] in multiset(s) && t[0] in multiset(t);
    LeastFirst(s, t[0]);
    LeastFirst(t, s[0]);
  }

  lemma {:induction false} AscendingUnique(s: seq<real>, t: seq<real>)
    requires Ascending(s) && Ascending(t) && multiset(s) == multiset(t)
    ensures s == t
  {
    assert |multiset(s)| == |s| && |multiset(t)| == |t|;
    if s != [] {
      SameFirst(s, t);
      TailsAgree(s, t);
      AscendingUnique(s[1..], t[1..]);
      assert s == [s[0]] + s[1..] && t == [t[0]] + t[1..];
    }
  }

  // ----- the estimate -----

  function Spent(costs: seq<real>): seq<real> { Filter(costs, c => c != 0.0) }

  // How many amounts are dropped at each end: about a tenth, at least one, none below four.
  function Trim(n: nat): nat {
    if n < 4 then 0 else if n / 10 > 1 then n / 10 else 1
  }

  function Core(costs: seq<real>): (r: seq<real>)
    ensures Spent(costs) != [] ==> r != []
  {
    var s := Sort(Spent(costs));
    s[Trim(|s|)..|s| - Trim(|s|)]
  }

  function CostToSolve(costs: seq<real>): real {
    if Spent(costs) == [] then 0.0 else Sum(Core(costs)) / |Core(costs)| as real
  }

  // ----- bounds -----

  // How many amounts lie outside lo..hi.
  function Outside(s: seq<real>, lo: real, hi: real): nat {
    if s == [] then 0 else (if lo <= s[0] <= hi then 0 else 1) + Outside(s[1..], lo, hi)
  }

  lemma {:induction false} OutsideInsert(x: real, s: seq<real>, lo: real, hi: real)
    ensures Outside(InsertSorted(x, s), lo, hi) == Outside([x], lo, hi) + Outside(s, lo, hi)
  {
    if s == [] || x <= s[0] {
      assert ([x] + s)[1..] == s;
    } else {
      OutsideInsert(x, s[1..], lo, hi);
    }
  }

  lemma {:induction false} OutsideSort(s: seq<real>, lo: real, hi: real)
    ensures Outside(Sort(s), lo, hi) == Outside(s, lo, hi)
  {
    if s != [] {
      OutsideSort(s[1..], lo, hi);
      OutsideInsert(s[0], Sort(s[1..]), lo, hi);
    }
  }

  // A window of consecutive amounts that all lie outside is counted.
  lemma {:induction false} OutsideWindow(s: seq<real>, a: nat, b: nat, lo: real, hi: real)
    requires a <= b <= |s| && forall i :: a <= i < b ==> !(lo <= s[i] <= hi)
    ensures Outside(s, lo, hi) >= b - a
  {
    if s != [] && b > 0 {
      OutsideWindow(s[1..], if a > 0 then a - 1 else 0, b - 1, lo, hi);
    }
  }

  lemma MeanBounds(s: seq<real>, lo: real, hi: real)
    requires s != [] && forall i :: 0 <= i < |s| ==> lo <= s[i] <= hi
    ensures lo <= Sum(s) / |s| as real <= hi
  {
    SumBounds(s, lo, hi);
    Quotient(Sum(s), |s| as real, lo, hi);
  }

  lemma Quotient(x: real, n: real, lo: real, hi: real)
    requires n > 0.0 && n * lo <= x <= n * hi
    ensures lo <= x / n <= hi
  {
    assert (x / n - lo) * n == x - n * lo;
    assert (hi - x / n) * n == n * hi - x;
  }

  // With at most the trimmed number of amounts outside lo..hi, on whichever side, the estimate stays in.
  lemma Breakdown(costs: seq<real>, lo: real, hi: real)
    requires Spent(costs) != [] && Outside(Spent(costs), lo, hi) <= Trim(|Spent(costs)|)
    ensures lo <= CostToSolve(costs) <= hi
  {
    var s := Sort(Spent(costs));
    SortSorts(Spent(costs));
    OutsideSort(Spent(costs), lo, hi);
    CoreInside(s, Trim(|s|), lo, hi);
    MeanBounds(Core(costs), lo, hi);
  }

  lemma CoreInside(s: seq<real>, t: nat, lo: real, hi: real)
    requires Ascending(s) && 2 * t < |s| && Outside(s, lo, hi) <= t
    ensures forall i :: t <= i < |s| - t ==> lo <= s[i] <= hi
  {
    var n := |s|;
    forall i | t <= i < n - t
      ensures lo <= s[i] <= hi
    {
      if s[i] < lo {
        forall j | 0 <= j <= i ensures s[j] < lo { AscendingAt(s, j, i); }
        OutsideWindow(s, 0, i + 1, lo, hi);
        assert false;
      }
      if s[i] > hi {
        forall j | i <= j < n ensures s[j] > hi { AscendingAt(s, i, j); }
        OutsideWindow(s, i, n, lo, hi);
        assert false;
      }
    }
  }

  lemma {:induction false} NothingOutside(s: seq<real>, lo: real, hi: real)
    requires forall i :: 0 <= i < |s| ==> lo <= s[i] <= hi
    ensures Outside(s, lo, hi) == 0
  {
    if s != [] { NothingOutside(s[1..], lo, hi); }
  }

  // Between the least and the greatest positive total, whatever their number.
  lemma WithinRange(costs: seq<real>, lo: real, hi: real)
    requires Spent(costs) != [] && forall x :: x in costs && x != 0.0 ==> lo <= x <= hi
    ensures lo <= CostToSolve(costs) <= hi
  {
    forall i | 0 <= i < |Spent(costs)| ensures lo <= Spent(costs)[i] <= hi { assert Spent(costs)[i] in Spent(costs); }
    NothingOutside(Spent(costs), lo, hi);
    Breakdown(costs, lo, hi);
  }

  lemma {:induction false} SpentMultiset(s: seq<real>)
    ensures multiset(Spent(s)) == multiset(s)[0.0 := 0]
  {
    if s != [] {
      TailMultiset(s);
      SpentMultiset(s[1..]);
      var rest := Spent(s[1..]);
      assert Spent(s) == if s[0] != 0.0 then [s[0]] + rest else rest;
    }
  }

  lemma SortCanonical(s: seq<real>, t: seq<real>)
    requires multiset(s) == multiset(t)
    ensures Sort(s) == Sort(t)
  {
    SortSorts(s);
    SortSorts(t);
    AscendingUnique(Sort(s), Sort(t));
  }

  // The order in which the developers' totals come out of the store does not matter.
  lemma PermutationInvariant(costs: seq<real>, costs': seq<real>)
    requires multiset(costs) == multiset(costs')
    ensures CostToSolve(costs) == CostToSolve(costs')
  {
    hide Spent, Sort;
    SpentMultiset(costs);
    SpentMultiset(costs');
    SortCanonical(Spent(costs), Spent(costs'));
    assert |Sort(Spent(costs))| == |Sort(Spent(costs'))|;
  }

  // ----- the mean of what is kept -----

  // The totals that are not zero, in ascending order.
  ghost predicate Sorts(s: seq<real>, costs: seq<real>) {
    multiset(s) == multiset(costs)[0.0 := 0] && forall i, j :: 0 <= i < j < |s| ==> s[i] <= s[j]
  }

  // The estimate is the mean of the sorted non-zero totals without the t least and the t greatest: none of fewer
  // than four, else a tenth of them, at least one. Without totals it is zero.
  lemma TrimmedMean(costs: seq<real>, s: seq<real>, t: nat)
    requires Sorts(s, costs) && t == if |s| < 4 then 0 else if |s| / 10 > 1 then |s| / 10 else 1
    ensures s == [] ==> CostToSolve(costs) == 0.0
    ensures s != [] ==>
              2 * t < |s| && CostToSolve(costs) * (|s| - 2 * t) as real == Sum(s[t..|s| - t])
  {
    hide Sum, Spent, Sorts, Core;
    SortedIs(costs, s);
    CoreIs(costs, s);
    if s != [] {
      assert |Core(costs)| == |s| - 2 * t;
      Divides(Sum(Core(costs)), |Core(costs)| as real);
    }
  }

  lemma SortedIs(costs: seq<real>, s: seq<real>)
    requires Sorts(s, costs)
    ensures Sort(Spent(costs)) == s && |Spent(costs)| == |s|
  {
    hide Spent, Sort;
    SpentMultiset(costs);
    FromOrdered(s);
    SortCanonical(Spent(costs), s);
    SortedStays(s);
    assert |Sort(Spent(costs))| == |Spent(costs)|;
  }

  lemma CoreIs(costs: seq<real>, s: seq<real>)
    requires Sort(Spent(costs)) == s
    ensures Core(costs) == s[Trim(|s|)..|s| - Trim(|s|)]
  {
    hide Spent, Sort;
  }

  lemma Divides(x: real, n: real)
    requires n > 0.0
    ensures x / n * n == x
  {
  }

  lemma SumUpdate(s: seq<real>, i: nat, x: real)
    requires i < |s|
    ensures Sum(s[i := x]) == Sum(s) - s[i] + x
  {
    var a, b := s[..i], s[i + 1..];
    assert s == a + ([s[i]] + b) && s[i := x] == a + ([x] + b);
    SumAppend(a, [s[i]] + b);
    SumAppend(a, [x] + b);
    SumAppend([s[i]], b);
    SumAppend([x], b);
    assert Sum([s[i]]) == s[i] && Sum([x]) == x;
  }

  // A change to one of the sorted totals that keeps the order moves the estimate by its share of the kept ones,
  // and not at all when it happens outside them.
  lemma OneTotalMoves(costs: seq<real>, costs': seq<real>, s: seq<real>, i: nat, d: real, t: nat)
    requires i < |s| && Sorts(s, costs) && Sorts(s[i := s[i] + d], costs')
    requires t == if |s| < 4 then 0 else if |s| / 10 > 1 then |s| / 10 else 1
    ensures 2 * t < |s|
    ensures CostToSolve(costs') - CostToSolve(costs)
         == if t <= i < |s| - t then d / (|s| - 2 * t) as real else 0.0
  {
    hide Sum, CostToSolve, Sorts;
    var s' := s[i := s[i] + d];
    TrimmedMean(costs, s, t);
    TrimmedMean(costs', s', t);
    CoreMoves(s, i, d, t);
    Shares(CostToSolve(costs), CostToSolve(costs'), if t <= i < |s| - t then d else 0.0, (|s| - 2 * t) as real);
  }

  lemma CoreMoves(s: seq<real>, i: nat, d: real, t: nat)
    requires i < |s| && 2 * t < |s|
    ensures Sum(s[i := s[i] + d][t..|s| - t]) == Sum(s[t..|s| - t]) + if t <= i < |s| - t then d else 0.0
  {
    hide Sum;
    var s', core := s[i := s[i] + d], s[t..|s| - t];
    if t <= i < |s| - t {
      assert s'[t..|s| - t] == core[i - t := core[i - t] + d];
      SumUpdate(core, i - t, core[i - t] + d);
    } else {
      assert s'[t..|s| - t] == core;
    }
  }

  lemma Cancels(x: real, y: real, m: real)
    requires m > 0.0 && x * m == y * m
    ensures x == y
  {
    Quotient(x * m, m, y, y);
    Quotient(x * m, m, x, x);
  }

  lemma Shares(x: real, y: real, d: real, m: real)
    requires m > 0.0 && y * m == x * m + d
    ensures y - x == d / m
  {
    Divides(d, m);
    Cancels(y - x, d / m, m);
  }

  // ----- runaway sessions -----

  // How many positions of two lists differ.
  function Touched(xs: seq<real>, ys: seq<real>): nat
    requires |xs| == |ys|
  {
    if xs == [] then 0 else (if xs[0] == ys[0] then 0 else 1) + Touched(xs[1..], ys[1..])
  }

  // Each touched position accounts for one amount that fell to zero or left the range.
  lemma {:induction false} TouchedCovers(xs: seq<real>, ys: seq<real>, lo: real, hi: real)
    requires |xs| == |ys|
    requires forall i :: 0 <= i < |xs| ==> xs[i] != 0.0 && (xs[i] == ys[i] ==> lo <= xs[i] <= hi)
    ensures |ys| - |Spent(ys)| + Outside(Spent(ys), lo, hi) <= Touched(xs, ys)
  {
    if xs != [] {
      TouchedCovers(xs[1..], ys[1..], lo, hi);
      var rest := Spent(ys[1..]);
      if ys[0] != 0.0 {
        assert Spent(ys) == [ys[0]] + rest && Spent(ys)[1..] == rest;
      } else {
        assert Spent(ys) == rest;
      }
    }
  }

  // Replacing up to Trim(n) of n >= 4 totals by any amounts at all, zero and negative ones included, keeps
  // the estimate between bounds that hold for the untouched ones.
  lemma {:induction false} RunawayBound(xs: seq<real>, ys: seq<real>, lo: real, hi: real)
    requires |xs| == |ys| >= 4 && Touched(xs, ys) <= Trim(|xs|)
    requires forall i :: 0 <= i < |xs| ==> xs[i] != 0.0 && (xs[i] == ys[i] ==> lo <= xs[i] <= hi)
    ensures lo <= CostToSolve(ys) <= hi
  {
    TouchedCovers(xs, ys, lo, hi);
    var n, m := |xs|, |Spent(ys)|;
    assert Trim(n) < n;
    TrimLoses(n, n - m);
    Breakdown(ys, lo, hi);
  }

  lemma TrimLoses(n: nat, z: nat)
    requires z <= Trim(n)
    ensures Trim(n) - z <= Trim(n - z)
  {
    assert 10 * (n / 10) <= n;
    var q := n / 10;
    assert n - z >= 10 * (q - z);
  }

  lemma {:induction false} SumRepeat(x: real, n: nat)
    ensures Sum(Repeat(x, n)) == n as real * x
  {
    if n > 0 {
      assert Repeat(x, n)[1..] == Repeat(x, n - 1);
      SumRepeat(x, n - 1);
      assert n as real == 1.0 + (n - 1) as real;
    }
  }

  lemma {:induction false} SortedStays(s: seq<real>)
    requires Ascending(s)
    ensures Sort(s) == s
  {
    if s != [] {
      SortedStays(s[1..]);
      assert s == [s[0]] + s[1..];
    }
  }

  lemma {:induction false} FromOrdered(s: seq<real>)
    requires forall i, j :: 0 <= i < j < |s| ==> s[i] <= s[j]
    ensures Ascending(s)
  {
    if s != [] { FromOrdered(s[1..]); }
  }

  lemma {:induction false} NothingFiltered(s: seq<real>)
    requires forall i :: 0 <= i < |s| ==> s[i] != 0.0
    ensures Spent(s) == s
  {
    if s != [] {
      NothingFiltered(s[1..]);
      assert s == [s[0]] + s[1..];
    }
  }

  function Skewed(n: nat, big: real): seq<real>
    requires n >= 4
  {
    Repeat(1.0, n - Trim(n) - 1) + Repeat(big, Trim(n) + 1)
  }

  lemma SkewedCore(n: nat, big: real)
    requires n >= 4 && big >= 1.0
    ensures Spent(Skewed(n, big)) != []
    ensures Core(Skewed(n, big)) == Repeat(1.0, n - 2 * Trim(n) - 1) + [big]
  {
    hide Sum;
    var costs := Skewed(n, big);
    FromOrdered(costs);
    NothingFiltered(costs);
    SortedStays(costs);
  }

  lemma QuotientAtLeast(x: real, n: real, lo: real)
    requires n > 0.0 && n * lo <= x
    ensures lo <= x / n
  {
    assert (x / n - lo) * n == x - n * lo;
  }

  // And one more is one too many: with Trim(n) + 1 runaways among n totals of 1 the estimate passes any m.
  lemma BreakdownIsTight(n: nat, m: nat) returns (costs: seq<real>)
    requires n >= 4
    ensures |costs| == n && Touched(Repeat(1.0, n), costs) <= Trim(n) + 1
    ensures CostToSolve(costs) > m as real
  {
    hide Spent, Core, Sort;
    var t := Trim(n);
    var size := n - 2 * t;
    var big := (size * (m + 1)) as real;
    assert size * (m + 1) >= 1;
    costs := Skewed(n, big);
    SkewedCore(n, big);
    var k := size - 1;
    SumAppend(Repeat(1.0, k), [big]);
    SumRepeat(1.0, k);
    assert Sum([big]) == big;
    assert big == size as real * (m + 1) as real;
    QuotientAtLeast(Sum(Core(costs)), size as real, (m + 1) as real);
    TouchedTail(n - t - 1, t + 1, big);
  }

  lemma {:induction false} TouchedTail(a: nat, b: nat, big: real)
    ensures Touched(Repeat(1.0, a + b), Repeat(1.0, a) + Repeat(big, b)) <= b
  {
    var xs, ys := Repeat(1.0, a + b), Repeat(1.0, a) + Repeat(big, b);
    if a > 0 {
      assert xs[1..] == Repeat(1.0, a - 1 + b) && ys[1..] == Repeat(1.0, a - 1) + Repeat(big, b);
      TouchedTail(a - 1, b, big);
    } else if b > 0 {
      assert xs[1..] == Repeat(1.0, 0 + (b - 1)) && ys[1..] == Repeat(1.0, 0) + Repeat(big, b - 1);
      TouchedTail(0, b - 1, big);
    }
  }
}
