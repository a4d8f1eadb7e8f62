/** Dependency graphs as the build tool sees them: each target key with the
    ordered list of keys it names in its `deps`. */
module Graphs {

  datatype Key = Key(path: string, name: string)

  type Graph = map<Key, seq<Key>>

  /** Every dependency is itself a key, so no lookup can miss. */
  ghost predicate Closed(g: Graph) {
    forall k, d :: k in g && d in g[k] ==> d in g
  }

  /** There is a path of n + 1 edges from a to b. */
  ghost predicate ReachesIn(g: Graph, a: Key, b: Key, n: nat)
    decreases n
  {
    a in g && if n == 0 then b in g[a] else exists d :: d in g[a] && ReachesIn(g, d, b, n - 1)
  }

  /** b is a direct or indirect dependency of a. */
  ghost predicate Reaches(g: Graph, a: Key, b: Key) {
    exists n: nat :: ReachesIn(g, a, b, n)
  }

  ghost predicate Acyclic(g: Graph) {
    forall k :: !Reaches(g, k, k)
  }

  lemma Edge(g: Graph, a: Key, b: Key)
    requires a in g && b in g[a]
    ensures Reaches(g, a, b)
  {
    assert ReachesIn(g, a, b, 0);
  }

  lemma {:induction false} JoinPaths(g: Graph, a: Key, b: Key, c: Key, m: nat, n: nat)
    requires ReachesIn(g, a, b, m) && ReachesIn(g, b, c, n)
    ensures ReachesIn(g, a, c, m + n + 1)
    decreases m
  {
    if m == 0 {
    } else {
      var d :| d in g[a] && ReachesIn(g, d, b, m - 1);
      JoinPaths(g, d, b, c, m - 1, n);
    }
  }

  lemma Transitive(g: Graph, a: Key, b: Key, c: Key)
    requires Reaches(g, a, b) && Reaches(g, b, c)
    ensures Reaches(g, a, c)
  {
    var m: nat :| ReachesIn(g, a, b, m);
    var n: nat :| ReachesIn(g, b, c, n);
    JoinPaths(g, a, b, c, m, n);
  }

  /** A set of keys that follows all edges of its members contains whatever they reach. */
  lemma {:induction false} StaysInside(g: Graph, s: set<Key>, a: Key, b: Key, n: nat)
    requires ReachesIn(g, a, b, n)
    requires forall d :: d in g[a] ==> d in s
    requires forall k, d :: k in s && k in g && d in g[k] ==> d in s
    ensures b in s
    decreases n
  {
    if n == 0 {
    } else {
      var d :| d in g[a] && ReachesIn(g, d, b, n - 1);
      StaysInside(g, s, d, b, n - 1);
    }
  }
}
