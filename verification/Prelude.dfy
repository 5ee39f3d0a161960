// Vocabulary shared by the models: options, selections from sequences, exact sums, and rounding.
module Prelude {

  datatype Option<+T> = None | Some(value: T)

  type byte = x: int | 0 <= x < 256
  type bytes = seq<byte>

  // ----- sequences -----

  // The newest n elements (all of them when there are fewer).
  function Newest<T>(s: seq<T>, n: nat): (r: seq<T>) {
    if |s| <= n then s else s[|s| - n..]
  }

  function Repeat<T>(x: T, n: nat): (r: seq<T>)
    ensures |r| == n && forall i :: 0 <= i < n ==> r[i] == x
  {
    seq(n, _ => x)
  }

  function Filter<T(!new)>(s: seq<T>, keep: T -> bool): (r: seq<T>)
    ensures |r| <= |s|
    ensures forall x :: x in r <==> x in s && keep(x)
  {
    if s == [] then [] else (if keep(s[0]) then [s[0]] else []) + Filter(s[1..], keep)
  }

  lemma {:induction false} FilterAppend<T(!new)>(s: seq<T>, t: seq<T>, keep: T -> bool)
    ensures Filter(s + t, keep) == Filter(s, keep) + Filter(t, keep)
  {
    if s == [] {
      assert s + t == t;
    } else {
      assert (s + t)[1..] == s[1..] + t;
      FilterAppend(s[1..], t, keep);
    }
  }

  lemma {:induction false} FilterLast<T(!new)>(s: seq<T>, keep: T -> bool)
    requires s != []
    ensures var n := |s| - 1;
            Filter(s, keep) == Filter(s[..n], keep) + if keep(s[n]) then [s[n]] else []
  {
    hide Filter;
    var n := |s| - 1;
    assert s == s[..n] + [s[n]];
    FilterAppend(s[..n], [s[n]], keep);
    FilterOne(s[n], keep);
  }

  lemma FilterOne<T(!new)>(x: T, keep: T -> bool)
    ensures Filter([x], keep) == if keep(x) then [x] else []
  {
    assert [x][1..] == [];
    assert Filter([], keep) == [];
  }

  // The elements of s at these positions, in order.
  predicate Picks<T(==)>(picked: seq<T>, s: seq<T>, at: seq<nat>) {
    && |picked| == |at|
    && (forall k :: 0 <= k < |at| ==> at[k] < |s| && picked[k] == s[at[k]])
    && (forall k, l :: 0 <= k < l < |at| ==> at[k] < at[l])
  }

  // Picking from one element more: it is left out, or taken.
  lemma PicksOneMore<T>(picked: seq<T>, s: seq<T>, at: seq<nat>)
    requires s != [] && Picks(picked, s[..|s| - 1], at)
    ensures Picks(picked, s, at) && |s| - 1 !in at
    ensures Picks(picked + [s[|s| - 1]], s, at + [|s| - 1])
  {
  }

  predicate Distinct<T(==)>(s: seq<T>) {
    forall i, j :: 0 <= i < j < |s| ==> s[i] != s[j]
  }

  predicate At<T(==)>(s: seq<T>, pat: seq<T>, k: nat) { k + |pat| <= |s| && s[k..k + |pat|] == pat }

  // The first position of pat in s at or after k, or -1.
  function Find<T(==)>(s: seq<T>, pat: seq<T>, k: nat): (j: int)
    ensures j == -1 || (k <= j && At(s, pat, j))
    ensures forall i: nat :: k <= i && (j == -1 || i < j) ==> !At(s, pat, i)
    decreases |s| - k
  {
    if k + |pat| > |s| then -1 else if At(s, pat, k) then k else Find(s, pat, k + 1)
  }

  lemma FindGrows<T>(s: seq<T>, t: seq<T>, pat: seq<T>)
    requires s <= t && Find(s, pat, 0) != -1
    ensures Find(t, pat, 0) == Find(s, pat, 0)
  {
    hide Find;
    var j, i := Find(s, pat, 0), Find(t, pat, 0);
    assert t[j..j + |pat|] == s[j..j + |pat|];
    assert At(t, pat, j) && i != -1 && i <= j;
    assert s[i..i + |pat|] == t[i..i + |pat|];
    assert At(s, pat, i);
  }

  // s.split(sep)
  function Split(s: string, sep: string): (parts: seq<string>)
    requires sep != []
    ensures parts != []
    decreases |s|
  {
    var j := Find(s, sep, 0);
    if j == -1 then [s] else [s[..j]] + Split(s[j + |sep|..], sep)
  }

  // sep.join(parts)
  function Join(parts: seq<string>, sep: string): string {
    if parts == [] then [] else if |parts| == 1 then parts[0] else parts[0] + sep + Join(parts[1..], sep)
  }

  lemma {:induction false} JoinSplit(s: string, sep: string)
    requires sep != []
    ensures Join(Split(s, sep), sep) == s
    decreases |s|
  {
    hide Find;
    var j := Find(s, sep, 0);
    if j != -1 {
      var rest := s[j + |sep|..];
      JoinSplit(rest, sep);
      assert Split(s, sep)[1..] == Split(rest, sep);
      assert s == s[..j] + sep + rest;
    }
  }

  lemma SubsetSmaller<T>(s: set<T>, t: set<T>)
    requires s <= t
    ensures |s| <= |t|
  {
    assert t == s + (t - s);
  }

  // ----- exact sums -----

  function Sum(s: seq<real>): real {
    if s == [] then 0.0 else s[0] + Sum(s[1..])
  }

  lemma {:induction false} SumAppend(s: seq<real>, t: seq<real>)
    ensures Sum(s + t) == Sum(s) + Sum(t)
  {
    if s == [] {
      assert s + t == t;
    } else {
      assert (s + t)[1..] == s[1..] + t;
      SumAppend(s[1..], t);
    }
  }

  lemma {:induction false} SumBounds(s: seq<real>, lo: real, hi: real)
    requires forall i :: 0 <= i < |s| ==> lo <= s[i] <= hi
    ensures |s| as real * lo <= Sum(s) <= |s| as real * hi
  {
    if s != [] {
      SumBounds(s[1..], lo, hi);
      var n := |s[1..]| as real;
      assert |s| as real == 1.0 + n;
      assert (1.0 + n) * lo == lo + n * lo;
      assert (1.0 + n) * hi == hi + n * hi;
    }
  }

  // The sum of f over a finite set; it does not depend on the order in which elements are drawn.
  ghost function SumSet<K>(s: set<K>, f: K -> real): real {
    if s == {} then 0.0
    else
      var x :| x in s;
      f(x) + SumSet(s - {x}, f)
  }

  lemma {:induction false} SumSetPick<K>(s: set<K>, f: K -> real, x: K)
    requires x in s
    ensures SumSet(s, f) == f(x) + SumSet(s - {x}, f)
    decreases s
  {
    var y :| y in s && SumSet(s, f) == f(y) + SumSet(s - {y}, f);
    if y != x {
      SumSetPick(s - {y}, f, x);
      SumSetPick(s - {x}, f, y);
      assert s - {y} - {x} == s - {x} - {y};
    }
  }

  lemma SumSetAdd<K>(s: set<K>, f: K -> real, x: K)
    requires x !in s
    ensures SumSet(s + {x}, f) == SumSet(s, f) + f(x)
  {
    SumSetPick(s + {x}, f, x);
    assert s + {x} - {x} == s;
  }

  lemma {:induction false} SumSetMonotone<K>(s: set<K>, t: set<K>, f: K -> real, g: K -> real)
    requires s <= t
    requires forall x :: x in s ==> f(x) <= g(x)
    requires forall x :: x in t ==> 0.0 <= g(x)
    ensures SumSet(s, f) <= SumSet(t, g)
    decreases t
  {
    if t != {} {
      var x :| x in t;
      SumSetPick(t, g, x);
      if x in s { SumSetPick(s, f, x); }
      assert s - {x} <= t - {x};
      assert x !in s ==> s - {x} == s;
      SumSetMonotone(s - {x}, t - {x}, f, g);
    } else {
      assert s == {};
    }
  }

  lemma {:induction false} SumSetSame<K>(s: set<K>, f: K -> real, g: K -> real)
    requires forall x :: x in s ==> f(x) == g(x)
    ensures SumSet(s, f) == SumSet(s, g)
    decreases s
  {
    if s != {} {
      var x :| x in s && SumSet(s, f) == f(x) + SumSet(s - {x}, f);
      SumSetPick(s, g, x);
      SumSetSame(s - {x}, f, g);
    }
  }

  function Group<K, L(==)>(s: set<K>, tag: K -> L, l: L): set<K> {
    set x | x in s && tag(x) == l
  }

  // A sum taken group by group: each element falls into the group its tag names.
  lemma {:induction false} SumSetByTag<K, L>(s: set<K>, f: K -> real, tag: K -> L, tags: set<L>)
    requires forall x :: x in s ==> tag(x) in tags
    ensures SumSet(s, f) == SumSet(tags, l => SumSet(Group(s, tag, l), f))
    decreases s
  {
    var groups := (l: L) => SumSet(Group(s, tag, l), f);
    if s == {} {
      forall l ensures groups(l) == 0.0 { assert Group(s, tag, l) == {}; }
      SumSetSame(tags, groups, l => 0.0);
      SumSetZero(tags);
    } else {
      var x :| x in s;
      var rest := s - {x};
      var others := (l: L) => SumSet(Group(rest, tag, l), f);
      SumSetPick(s, f, x);
      SumSetByTag(rest, f, tag, tags);
      SumSetSame(tags, others, l => SumSet(Group(rest, tag, l), f));
      SumSetPick(Group(s, tag, tag(x)), f, x);
      assert Group(s, tag, tag(x)) - {x} == Group(rest, tag, tag(x));
      forall l | l in tags - {tag(x)} ensures groups(l) == others(l) {
        assert Group(s, tag, l) == Group(rest, tag, l);
      }
      SumSetPick(tags, groups, tag(x));
      SumSetPick(tags, others, tag(x));
      SumSetSame(tags - {tag(x)}, groups, others);
    }
    SumSetSame(tags, groups, l => SumSet(Group(s, tag, l), f));
  }

  lemma {:induction false} SumSetZero<K>(s: set<K>)
    ensures SumSet(s, (_: K) => 0.0) == 0.0
    decreases s
  {
    if s != {} {
      var x :| x in s && SumSet(s, (_: K) => 0.0) == 0.0 + SumSet(s - {x}, (_: K) => 0.0);
      SumSetZero(s - {x});
    }
  }

  // ----- rounding -----

  // Python's round: to the nearest integer, halves to the even neighbour.
  function RoundHalfEven(x: real): (r: int)
    ensures x - 0.5 <= r as real <= x + 0.5
    ensures r as real == x - 0.5 || r as real == x + 0.5 ==> r % 2 == 0
  {
    var f := x.Floor;
    var d := x - f as real;
    if d < 0.5 then f else if d > 0.5 then f + 1 else if f % 2 == 0 then f else f + 1
  }

  lemma RoundHalfEvenMonotone(x: real, y: real)
    requires x <= y
    ensures RoundHalfEven(x) <= RoundHalfEven(y)
  {
    assert x.Floor <= y.Floor;
  }

  // round(x, 2), round(x, 4) and round(x, 6) over exact numbers.
  function Round2(x: real): (r: real)
    ensures x - 0.005 <= r <= x + 0.005
  {
    RoundHalfEven(x * 100.0) as real / 100.0
  }

  function Round4(x: real): (r: real)
    ensures x - 0.00005 <= r <= x + 0.00005
  {
    RoundHalfEven(x * 10000.0) as real / 10000.0
  }

  function Round6(x: real): (r: real)
    ensures x - 0.0000005 <= r <= x + 0.0000005
  {
    RoundHalfEven(x * 1000000.0) as real / 1000000.0
  }

  // A rounded amount has no further digits.
  lemma RoundedDigits(x: real)
    ensures (Round2(x) * 100.0).Floor as real == Round2(x) * 100.0
    ensures (Round4(x) * 10000.0).Floor as real == Round4(x) * 10000.0
    ensures (Round6(x) * 1000000.0).Floor as real == Round6(x) * 1000000.0
  {
    hide RoundHalfEven;
    Unscaled(RoundHalfEven(x * 100.0), 100.0);
    Unscaled(RoundHalfEven(x * 10000.0), 10000.0);
    Unscaled(RoundHalfEven(x * 1000000.0), 1000000.0);
  }

  lemma Unscaled(n: int, scale: real)
    requires scale > 0.0
    ensures (n as real / scale * scale).Floor as real == n as real / scale * scale
  {
    assert n as real / scale * scale == n as real;
  }

  lemma {:induction false} Round6Monotone(x: real, y: real)
    requires x <= y
    ensures Round6(x) <= Round6(y)
  {
    RoundHalfEvenMonotone(x * 1000000.0, y * 1000000.0);
  }
}
