/** Walks in a directed graph given by its successor sets. */
module Reachability {

  ghost predicate Walk<N(!new)>(succ: N -> set<N>, p: seq<N>) {
    |p| > 0 && forall i | 0 <= i < |p| - 1 :: p[i + 1] in succ(p[i])
  }

  ghost predicate Reaches<N(!new)>(succ: N -> set<N>, a: N, b: N) {
    exists p :: Walk(succ, p) && p[0] == a && p[|p| - 1] == b
  }

  lemma ReachesItself<N(!new)>(succ: N -> set<N>, a: N)
    ensures Reaches(succ, a, a)
  {
    assert Walk(succ, [a]);
  }

  lemma ReachesFrom<N(!new)>(succ: N -> set<N>, a: N, b: N, c: N)
    requires b in succ(a) && Reaches(succ, b, c)
    ensures Reaches(succ, a, c)
  {
    var p :| Walk(succ, p) && p[0] == b && p[|p| - 1] == c;
    var q := [a] + p;
    assert forall i | 0 <= i < |q| - 1 :: q[i + 1] in succ(q[i]) by {
      forall i | 0 <= i < |q| - 1 ensures q[i + 1] in succ(q[i]) {
        if i > 0 { assert q[i + 1] == p[i] && q[i] == p[i - 1] && p[(i - 1) + 1] in succ(p[i - 1]); }
      }
    }
    assert Walk(succ, q) && q[0] == a && q[|q| - 1] == c;
  }

  ghost predicate Closed<N(!new)>(succ: N -> set<N>, s: set<N>) {
    forall x | x in s :: succ(x) <= s
  }

  lemma {:induction false} WalkStays<N(!new)>(succ: N -> set<N>, s: set<N>, p: seq<N>)
    requires Closed(succ, s) && Walk(succ, p) && p[0] in s
    ensures p[|p| - 1] in s
    decreases |p|
  {
    if |p| > 1 {
      var q := p[1..];
      assert p[0 + 1] in succ(p[0]);
      assert forall i | 0 <= i < |q| - 1 :: q[i + 1] in succ(q[i]) by {
        forall i | 0 <= i < |q| - 1 ensures q[i + 1] in succ(q[i]) {
          assert p[(i + 1) + 1] in succ(p[i + 1]);
        }
      }
      WalkStays(succ, s, q);
    }
  }

  lemma ClosedContains<N(!new)>(succ: N -> set<N>, s: set<N>, a: N, b: N)
    requires Closed(succ, s) && a in s && Reaches(succ, a, b)
    ensures b in s
  {
    var p :| Walk(succ, p) && p[0] == a && p[|p| - 1] == b;
    WalkStays(succ, s, p);
  }
}
