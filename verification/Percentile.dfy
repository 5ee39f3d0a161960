// The cohort percentile of the cross-tenant benchmark.
module Percentile {
  import opened Prelude

  // others.remove(value): one equal element less, or the list as it is.
  function RemoveOne(series: seq<real>, value: real): (r: seq<real>)
    ensures |r| == |series| - if value in series then 1 else 0
  {
    if series == [] then []
    else if series[0] == value then series[1..]
    else [series[0]] + RemoveOne(series[1..], value)
  }

  function Beats(value: real, other: real, higherIsBetter: bool): bool {
    if higherIsBetter then value > other else value < other
  }

  // wins + ties / 2 over the given others
  function Score(value: real, others: seq<real>, higherIsBetter: bool): real {
    if others == [] then 0.0
    else
      (if Beats(value, others[0], higherIsBetter) then 1.0 else if value == others[0] then 0.5 else 0.0)
      + Score(value, others[1..], higherIsBetter)
  }

  // The fraction of the others beaten, before rounding.
  function Rank(value: real, series: seq<real>, higherIsBetter: bool): real {
    var others := RemoveOne(series, value);
    if others == [] then 0.0 else Score(value, others, higherIsBetter) / |others| as real
  }

  function PercentileIn(value: real, series: seq<real>, higherIsBetter: bool): real {
    Round4(Rank(value, series, higherIsBetter))
  }

  // ----- one value -----

  lemma {:induction false} ScoreRange(value: real, others: seq<real>, higherIsBetter: bool)
    ensures 0.0 <= Score(value, others, higherIsBetter) <= |others| as real
  {
    if others != [] { ScoreRange(value, others[1..], higherIsBetter); }
  }

  lemma {:induction false} ScoreFlips(value: real, others: seq<real>)
    ensures Score(value, others, true) + Score(value, others, false) == |others| as real
  {
    if others != [] { ScoreFlips(value, others[1..]); }
  }

  lemma Divide(x: real, y: real, n: real)
    requires n > 0.0 && x + y == n && x >= 0.0 && y >= 0.0
    ensures 0.0 <= x / n <= 1.0 && x / n + y / n == 1.0
  {
    Part(x, n);
    Part(y, n);
    Parts(x, y, n);
  }

  lemma Part(x: real, n: real)
    requires n > 0.0 && x >= 0.0
    ensures x / n >= 0.0
  {
  }

  lemma Parts(x: real, y: real, n: real)
    requires n > 0.0 && x + y == n
    ensures x / n + y / n == 1.0
  {
    assert (x + y) / n == x / n + y / n;
  }

  lemma Distribute(a: real, b: real, m: real)
    ensures (a + b) * m == a * m + b * m
  {
  }

  lemma Cancel(a: real, b: real, m: real)
    requires m != 0.0 && a * m == b * m
    ensures a == b
  {
    assert (a - b) * m == 0.0;
  }

  lemma Divided(x: real, m: real) returns (q: real)
    requires m != 0.0
    ensures q == x / m && q * m == x
  {
    q := x / m;
  }

  // Every percentile lies between 0 and 1, also after rounding.
  lemma PercentileInUnit(value: real, series: seq<real>, higherIsBetter: bool)
    ensures 0.0 <= Rank(value, series, higherIsBetter) <= 1.0
    ensures 0.0 <= PercentileIn(value, series, higherIsBetter) <= 1.0
  {
    var others := RemoveOne(series, value);
    if others != [] {
      ScoreRange(value, others, true);
      ScoreRange(value, others, false);
      ScoreFlips(value, others);
      Divide(Score(value, others, higherIsBetter), Score(value, others, !higherIsBetter), |others| as real);
    }
    var r := Rank(value, series, higherIsBetter);
    RoundHalfEvenMonotone(0.0, r * 10000.0);
    RoundHalfEvenMonotone(r * 10000.0, 10000.0);
  }

  // Halves go to the even neighbour, so rounding respects the complement.
  lemma RoundComplement(x: real)
    ensures RoundHalfEven(10000.0 - x) == 10000 - RoundHalfEven(x)
  {
    var f := x.Floor;
    var d := x - f as real;
    if d == 0.0 {
      assert (10000.0 - x).Floor == 10000 - f;
    } else {
      assert (10000.0 - x).Floor == 9999 - f;
    }
  }

  // Flipping the direction gives the complement, exactly, rounding included, whenever there is anyone to
  // compare with; alone, a value ranks 0 in both directions.
  lemma FlipIsComplement(value: real, series: seq<real>)
    ensures PercentileIn(value, series, true) + PercentileIn(value, series, false)
         == if |series| > 1 || (|series| == 1 && value !in series) then 1.0 else 0.0
  {
    var others := RemoveOne(series, value);
    if others != [] {
      ScoreRange(value, others, true);
      ScoreRange(value, others, false);
      ScoreFlips(value, others);
      Divide(Score(value, others, true), Score(value, others, false), |others| as real);
      var r := Rank(value, series, true);
      assert Rank(value, series, false) == 1.0 - r;
      RoundComplement(r * 10000.0);
    }
  }

  // ----- the whole cohort -----

  function Scores(values: seq<real>, others: seq<real>, higherIsBetter: bool): real {
    if values == [] then 0.0 else Score(values[0], others, higherIsBetter) + Scores(values[1..], others, higherIsBetter)
  }

  // The sum over the cohort of the unrounded percentiles, and of the published ones.
  function RankSum(values: seq<real>, series: seq<real>, higherIsBetter: bool): real {
    if values == [] then 0.0 else Rank(values[0], series, higherIsBetter) + RankSum(values[1..], series, higherIsBetter)
  }

  function PercentileSum(values: seq<real>, series: seq<real>, higherIsBetter: bool): real {
    if values == [] then 0.0
    else PercentileIn(values[0], series, higherIsBetter) + PercentileSum(values[1..], series, higherIsBetter)
  }

  // Removing one occurrence of the value takes exactly its tie with itself.
  lemma {:induction false} ScoreWithoutSelf(value: real, series: seq<real>, higherIsBetter: bool)
    requires value in series
    ensures Score(value, RemoveOne(series, value), higherIsBetter) == Score(value, series, higherIsBetter) - 0.5
  {
    if series[0] != value {
      assert series == [series[0]] + series[1..];
      ScoreWithoutSelf(value, series[1..], higherIsBetter);
      var rest := RemoveOne(series[1..], value);
      assert ([series[0]] + rest)[1..] == rest;
    }
  }

  // What the values gain from one more opponent x, and what x gains from them, is one point per encounter.
  lemma {:induction false} OneMore(values: seq<real>, x: real, others: seq<real>, higherIsBetter: bool)
    ensures Scores(values, [x] + others, higherIsBetter) + Score(x, values, higherIsBetter)
         == Scores(values, others, higherIsBetter) + |values| as real
  {
    if values != [] {
      OneMore(values[1..], x, others, higherIsBetter);
      assert ([x] + others)[1..] == others;
    }
  }

  // Everyone against everyone, oneself included: n * n / 2 points.
  lemma {:induction false} RoundRobin(series: seq<real>, higherIsBetter: bool)
    ensures Scores(series, series, higherIsBetter) == (|series| * |series|) as real / 2.0
  {
    if series != [] {
      var x, rest := series[0], series[1..];
      var n := |rest|;
      RoundRobin(rest, higherIsBetter);
      OneMore(rest, x, rest, higherIsBetter);
      assert series == [x] + rest;
      assert Score(x, series, higherIsBetter) == 0.5 + Score(x, rest, higherIsBetter);
      assert (n + 1) * (n + 1) == n * n + 2 * n + 1;
    }
  }

  lemma RankFromScore(value: real, series: seq<real>, higherIsBetter: bool, m: real)
    requires |series| > 1 && value in series && m == (|series| - 1) as real
    ensures Rank(value, series, higherIsBetter) * m == Score(value, series, higherIsBetter) - 0.5
  {
    hide Score, RemoveOne;
    ScoreWithoutSelf(value, series, higherIsBetter);
    var others := RemoveOne(series, value);
    var q := Divided(Score(value, others, higherIsBetter), m);
    assert |others| as real == m;
  }

  lemma {:induction false} BetterScoresMore(v: real, w: real, others: seq<real>, higherIsBetter: bool)
    requires Beats(v, w, higherIsBetter)
    ensures Score(v, others, higherIsBetter) >= Score(w, others, higherIsBetter) + if w in others then 0.5 else 0.0
  {
    if others != [] {
      assert others == [others[0]] + others[1..];
      BetterScoresMore(v, w, others[1..], higherIsBetter);
    }
  }

  // Within one cohort the unrounded percentile orders the values strictly: ties share a rank, and only ties do.
  lemma RankOrdersTheCohort(v: real, w: real, series: seq<real>, higherIsBetter: bool)
    requires v in series && w in series
    ensures Rank(v, series, higherIsBetter) > Rank(w, series, higherIsBetter) <==>
            if higherIsBetter then v > w else v < w
    ensures Rank(v, series, higherIsBetter) == Rank(w, series, higherIsBetter) <==> v == w
  {
    if v != w {
      assert |series| > 1;
      if Beats(v, w, higherIsBetter) {
        RankFollowsScore(v, w, series, higherIsBetter);
      } else {
        RankFollowsScore(w, v, series, higherIsBetter);
      }
    }
  }

  lemma RankFollowsScore(v: real, w: real, series: seq<real>, higherIsBetter: bool)
    requires |series| > 1 && v in series && w in series && Beats(v, w, higherIsBetter)
    ensures Rank(v, series, higherIsBetter) > Rank(w, series, higherIsBetter)
  {
    hide Rank, Score, Beats;
    var m := (|series| - 1) as real;
    RankFromScore(v, series, higherIsBetter, m);
    RankFromScore(w, series, higherIsBetter, m);
    BetterScoresMore(v, w, series, higherIsBetter);
    assert Score(v, series, higherIsBetter) > Score(w, series, higherIsBetter);
    var a, b := Rank(w, series, higherIsBetter), Rank(v, series, higherIsBetter);
    assert a * m < b * m;
    Less(a, b, m);
  }

  lemma Less(a: real, b: real, m: real)
    requires m > 0.0 && a * m < b * m
    ensures a < b
  {
    assert (b - a) * m > 0.0;
  }

  lemma {:induction false} RanksFromScores(values: seq<real>, series: seq<real>, higherIsBetter: bool, m: real)
    requires |series| > 1 && m == (|series| - 1) as real && forall i :: 0 <= i < |values| ==> values[i] in series
    ensures RankSum(values, series, higherIsBetter) * m
         == Scores(values, series, higherIsBetter) - |values| as real / 2.0
  {
    hide Rank, Score;
    if values == [] {
    } else {
      var v, rest := values[0], values[1..];
      RanksFromScores(rest, series, higherIsBetter, m);
      RankFromScore(v, series, higherIsBetter, m);
      Distribute(Rank(v, series, higherIsBetter), RankSum(rest, series, higherIsBetter), m);
      assert |values| as real == 1.0 + |rest| as real;
    }
  }

  // Over any cohort of more than one value, ties included, the unrounded percentiles sum to exactly n / 2.
  lemma PercentilesConserve(series: seq<real>, higherIsBetter: bool)
    requires |series| > 1
    ensures RankSum(series, series, higherIsBetter) == |series| as real / 2.0
  {
    hide Scores, RankSum;
    var n := |series|;
    RoundRobin(series, higherIsBetter);
    RanksFromScores(series, series, higherIsBetter, (n - 1) as real);
    HalfSquare(n);
    Cancel(RankSum(series, series, higherIsBetter), n as real / 2.0, (n - 1) as real);
  }

  lemma HalfSquare(n: nat)
    ensures (n * n) as real / 2.0 - n as real / 2.0 == n as real / 2.0 * (n - 1) as real
  {
    var r := n as real;
    assert (n * n) as real == r * r;
    assert r / 2.0 * (r - 1.0) == r * r / 2.0 - r / 2.0;
  }

  lemma {:induction false} RoundingDrift(values: seq<real>, series: seq<real>, higherIsBetter: bool)
    ensures var d := PercentileSum(values, series, higherIsBetter) - RankSum(values, series, higherIsBetter);
            -(|values| as real) * 0.00005 <= d <= |values| as real * 0.00005
  {
    if values != [] { RoundingDrift(values[1..], series, higherIsBetter); }
  }

  // The published percentiles sum to n / 2 within half a unit of the last digit each.
  lemma PublishedPercentilesConserve(series: seq<real>, higherIsBetter: bool)
    requires |series| > 1
    ensures var n := |series| as real;
            n / 2.0 - n * 0.00005 <= PercentileSum(series, series, higherIsBetter) <= n / 2.0 + n * 0.00005
  {
    PercentilesConserve(series, higherIsBetter);
    RoundingDrift(series, series, higherIsBetter);
  }
}
