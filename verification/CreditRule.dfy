// What the n - 1 credit rule promises about the graph of booked pairs behind a cluster.
module CreditRule {
  import opened Prelude

  // Undirected edges, each stored in one direction.
  type Pairs<V(==)> = set<(V, V)>

  function Participants<V>(pairs: Pairs<V>): set<V> {
    (set e | e in pairs :: e.0) + (set e | e in pairs :: e.1)
  }

  predicate Linked<V(==)>(pairs: Pairs<V>, a: V, b: V) { (a, b) in pairs || (b, a) in pairs }

  predicate Path<V(==)>(pairs: Pairs<V>, p: seq<V>) {
    p != [] && forall i :: 0 <= i < |p| - 1 ==> Linked(pairs, p[i], p[i + 1])
  }

  // A chain of booked pairs from one to the other.
  ghost predicate Joined<V(!new)>(pairs: Pairs<V>, a: V, b: V) {
    exists p :: Path(pairs, p) && p[0] == a && p[|p| - 1] == b
  }

  // Every two participants are joined.
  ghost predicate Connected<V(!new)>(pairs: Pairs<V>) {
    forall a, b :: a in Participants(pairs) && b in Participants(pairs) ==> Joined(pairs, a, b)
  }

  // A path that leaves a set crosses its border somewhere.
  lemma {:induction false} PathLeaves<V>(pairs: Pairs<V>, p: seq<V>, s: set<V>) returns (a: V, b: V)
    requires Path(pairs, p) && p[0] in s && p[|p| - 1] !in s
    ensures Linked(pairs, a, b) && a in s && b !in s
  {
    if p[1] in s {
      assert Path(pairs, p[1..]) by {
        forall i | 0 <= i < |p[1..]| - 1 ensures Linked(pairs, p[1..][i], p[1..][i + 1]) {
          assert Linked(pairs, p[i + 1], p[i + 2]);
        }
      }
      a, b := PathLeaves(pairs, p[1..], s);
    } else {
      assert Linked(pairs, p[0], p[0 + 1]);
      a, b := p[0], p[1];
    }
  }

  lemma EndsParticipate<V>(pairs: Pairs<V>, e: (V, V))
    requires e in pairs
    ensures e.0 in Participants(pairs) && e.1 in Participants(pairs)
  {
  }

  // A booked pair joins its two people, and chains go on.
  lemma JoinedThroughAPair<V(!new)>(pairs: Pairs<V>, a: V, b: V, c: V)
    ensures Joined(pairs, a, a)
    ensures ((a, b) in pairs || (b, a) in pairs) && Joined(pairs, b, c) ==> Joined(pairs, a, c)
  {
    assert Path(pairs, [a]);
    if ((a, b) in pairs || (b, a) in pairs) && Joined(pairs, b, c) {
      var p :| Path(pairs, p) && p[0] == b && p[|p| - 1] == c;
      var q := [a] + p;
      forall i | 0 <= i < |q| - 1 ensures Linked(pairs, q[i], q[i + 1]) {
        assert i > 0 ==> Linked(pairs, p[i - 1], p[i]);
      }
      assert Path(pairs, q) && q[|q| - 1] == c;
    }
  }

  // Every other participant is joined to one of the roots: one root for each connected part of the graph is enough.
  ghost predicate CoveredBy<V(!new)>(pairs: Pairs<V>, roots: set<V>) {
    roots <= Participants(pairs) &&
    forall b :: b in Participants(pairs) - roots ==> exists root :: root in roots && Joined(pairs, root, b)
  }

  // While someone is left out, a booked pair leads out of the reached ones.
  lemma PairOut<V(!new)>(pairs: Pairs<V>, roots: set<V>, reached: set<V>) returns (e: (V, V), y: V)
    requires CoveredBy(pairs, roots) && roots <= reached < Participants(pairs)
    ensures e in pairs && y in Participants(pairs) && y !in reached
    ensures (e.0 in reached && e.1 == y) || (e.1 in reached && e.0 == y)
  {
    var b :| b in Participants(pairs) && b !in reached;
    assert b in Participants(pairs) - roots;
    var root :| root in roots && Joined(pairs, root, b);
    var p :| Path(pairs, p) && p[0] == root && p[|p| - 1] == b;
    hide CoveredBy, Path;
    var x, z := PathLeaves(pairs, p, reached);
    y := z;
    e := if (x, z) in pairs then (x, z) else (z, x);
    EndsParticipate(pairs, e);
  }

  // Grow a set of reached participants, using one new pair for each of them.
  lemma {:induction false} Grow<V(!new)>(pairs: Pairs<V>, roots: set<V>, reached: set<V>, used: Pairs<V>)
    requires CoveredBy(pairs, roots) && roots <= reached <= Participants(pairs)
    requires used <= pairs && |used| >= |reached| - |roots|
    requires forall e :: e in used ==> e.0 in reached && e.1 in reached
    ensures |pairs| >= |Participants(pairs)| - |roots|
    decreases Participants(pairs) - reached
  {
    hide CoveredBy, Participants;
    if reached == Participants(pairs) {
      SubsetSmaller(used, pairs);
    } else {
      var e, y := PairOut(pairs, roots, reached);
      Grow(pairs, roots, reached + {y}, used + {e});
    }
  }

  // The credit of a cluster exceeds its booked pairs by at most the number of its connected parts less one.
  lemma CoveredCredit<V(!new)>(pairs: Pairs<V>, roots: set<V>)
    requires CoveredBy(pairs, roots)
    ensures |Participants(pairs)| - 1 <= |pairs| + |roots| - 1
  {
    Grow(pairs, roots, roots, {});
  }

  // It never exceeds them when they connect its participants.
  lemma ConnectedCredit<V(!new)>(pairs: Pairs<V>)
    requires Connected(pairs)
    ensures |Participants(pairs)| - 1 <= |pairs|
  {
    hide Connected, CoveredBy, Path;
    if pairs != {} {
      var e :| e in pairs;
      EndsParticipate(pairs, e);
      OneRoot(pairs, e.0);
      CoveredCredit(pairs, {e.0});
    }
  }

  lemma OneRoot<V(!new)>(pairs: Pairs<V>, root: V)
    requires Connected(pairs) && root in Participants(pairs)
    ensures CoveredBy(pairs, {root})
  {
    hide Joined, Participants;
  }

  // n - 1 is at most the number of pairs C(n, 2), with equality only up to two participants.
  lemma CreditBelowPairs(n: nat)
    requires n >= 1
    ensures n - 1 <= n * (n - 1) / 2
    ensures n - 1 == n * (n - 1) / 2 <==> n <= 2
  {
    if n >= 3 { assert n * (n - 1) >= 3 * (n - 1); }
  }

  lemma NoWayAcross(pairs: Pairs<int>)
    requires pairs == {(1, 2), (3, 4)}
    ensures !Connected(pairs)
  {
    assert (1, 2) in pairs && (3, 4) in pairs;
    EndsParticipate(pairs, (1, 2));
    EndsParticipate(pairs, (3, 4));
    forall p: seq<int> | p != [] && p[0] == 1 && p[|p| - 1] == 3
      ensures !Path(pairs, p)
    {
      if Path(pairs, p) { var a, b := PathLeaves(pairs, p, {1, 2}); }
    }
  }

  // Without connection it can: two separate pairs are credited three re-solves.
  lemma {:induction false} DisconnectedCreditExceedsPairs()
    ensures var pairs := {(1, 2), (3, 4)}; |Participants(pairs)| - 1 == 3 && |pairs| == 2 && !Connected(pairs)
  {
    hide Connected;
    var pairs: Pairs<int> := {(1, 2), (3, 4)};
    NoWayAcross(pairs);
    assert (1, 2) in pairs && (3, 4) in pairs;
    assert Participants(pairs) == {1, 2, 3, 4};
  }
}
