/** Dependency expansion, the converse relation and Kahn's sort of the build tool. */
module DependencyAnalyzer {
  import opened Prelude
  import opened Graphs

  // ---------------------------------------------------------------- keep-last de-duplication

  /** Of every repeated item only the last occurrence is kept. */
  function KeepLast(s: seq<Key>): seq<Key> {
    if s == [] then []
    else if s[0] in s[1..] then KeepLast(s[1..])
    else [s[0]] + KeepLast(s[1..])
  }

  lemma {:induction false} KeepLastIsSetOf(s: seq<Key>)
    ensures NoDup(KeepLast(s))
    ensures forall x :: x in KeepLast(s) <==> x in s
  {
    if s == [] {
    } else {
      KeepLastIsSetOf(s[1..]);
    }
  }

  /** A link order: whatever an item depends on directly occurs to its right. */
  ghost predicate LinkOrdered(g: Graph, s: seq<Key>) {
    s == [] || ((s[0] in g ==> forall y :: y in g[s[0]] ==> y in s[1..]) && LinkOrdered(g, s[1..]))
  }

  lemma {:induction false} KeepLastKeepsLinkOrder(g: Graph, s: seq<Key>)
    requires LinkOrdered(g, s)
    ensures LinkOrdered(g, KeepLast(s))
  {
    if s == [] {
    } else {
      KeepLastIsSetOf(s[1..]);
      KeepLastKeepsLinkOrder(g, s[1..]);
      var t := KeepLast(s[1..]);
      assert ([s[0]] + t)[1..] == t;
    }
  }

  lemma {:induction false} LinkOrderedConcat(g: Graph, s: seq<Key>, t: seq<Key>)
    requires LinkOrdered(g, s) && LinkOrdered(g, t)
    ensures LinkOrdered(g, s + t)
  {
    if s == [] {
      assert s + t == t;
    } else {
      LinkOrderedConcat(g, s[1..], t);
      assert (s + t)[1..] == s[1..] + t;
    }
  }

  method UniqueDeps(newDepsList: seq<Key>) returns (unique: seq<Key>)
    ensures unique == KeepLast(newDepsList)
  {
    var result := [];
    var deps: set<Key> := {};
    var i := |newDepsList|;
    while i > 0
      invariant 0 <= i <= |newDepsList|
      invariant Reversed(result) == KeepLast(newDepsList[i..])
      invariant forall x :: x in deps <==> x in newDepsList[i..]
    {
      i := i - 1;
      var dep := newDepsList[i];
      assert newDepsList[i..] == [dep] + newDepsList[i + 1..];
      if dep !in deps {
        ReversedAppend(result, dep);
        result := result + [dep];
        deps := deps + {dep};
      }
    }
    assert newDepsList[0..] == newDepsList;
    unique := Reversed(result);
  }

  // ---------------------------------------------------------------- expansion, without the memo

  /** The direct and indirect dependencies of k, with the keys `path` already being
      expanded; None when a dependency on the path is met again. */
  function Expand(g: Graph, k: Key, path: set<Key>): Option<seq<Key>>
    decreases g.Keys - path, 0
  {
    if k !in g || k in path then None
    else
      match ExpandAll(g, g[k], path + {k})
      case None => None
      case Some(list) => Some(KeepLast(list))
  }

  /** Each dependency followed by its own expansion, for the whole list. */
  function ExpandAll(g: Graph, ds: seq<Key>, path: set<Key>): Option<seq<Key>>
    decreases g.Keys - path, 1 + |ds|
  {
    if ds == [] then Some([])
    else
      var d := ds[|ds| - 1];
      match (ExpandAll(g, ds[..|ds| - 1], path), Expand(g, d, path))
      case (Some(before), Some(below)) => Some(before + [d] + below)
      case _ => None
  }

  lemma ExpandOneMore(g: Graph, ds: seq<Key>, i: nat, path: set<Key>)
    requires i < |ds| && ExpandAll(g, ds[..i], path).Some? && Expand(g, ds[i], path).Some?
    ensures ExpandAll(g, ds[..i + 1], path) ==
      Some(ExpandAll(g, ds[..i], path).value + [ds[i]] + Expand(g, ds[i], path).value)
  {
    assert ds[..i + 1][..i] == ds[..i];
  }

  /** What a successful expansion r of k consists of. */
  ghost predicate Expansion(g: Graph, k: Key, path: set<Key>, r: seq<Key>) {
    && NoDup(r)
    && LinkOrdered(g, r)
    && (forall x :: x in r ==> x in g && x != k && x !in path && Reaches(g, k, x))
    && (k in g ==> forall d :: d in g[k] ==> d in r)
  }

  lemma {:induction false} ExpandIsExpansion(g: Graph, k: Key, path: set<Key>)
    requires k in g && Expand(g, k, path).Some?
    ensures Expansion(g, k, path, Expand(g, k, path).value)
    decreases g.Keys - path, 0
  {
    var list := ExpandAll(g, g[k], path + {k}).value;
    ExpandAllIsExpansion(g, k, g[k], path + {k});
    KeepLastIsSetOf(list);
    KeepLastKeepsLinkOrder(g, list);
  }

  lemma {:induction false} ExpandAllIsExpansion(g: Graph, k: Key, ds: seq<Key>, path: set<Key>)
    requires k in g && ExpandAll(g, ds, path).Some?
    requires forall d :: d in ds ==> d in g[k]
    ensures var list := ExpandAll(g, ds, path).value;
      && LinkOrdered(g, list)
      && (forall x :: x in list ==> x in g && x !in path && Reaches(g, k, x))
      && (forall d :: d in ds ==> d in list)
    decreases g.Keys - path, 1 + |ds|
  {
    if ds == [] {
    } else {
      var d := ds[|ds| - 1];
      var before, below := ExpandAll(g, ds[..|ds| - 1], path).value, Expand(g, d, path).value;
      ExpandAllIsExpansion(g, k, ds[..|ds| - 1], path);
      ExpandIsExpansion(g, d, path);
      Edge(g, k, d);
      forall x | x in below ensures Reaches(g, k, x) { Transitive(g, k, d, x); }
      LinkOrderedHead(g, d, below);
      LinkOrderedConcat(g, before, [d] + below);
      ConcatAssociative(before, [d], below);
    }
  }

  lemma LinkOrderedHead(g: Graph, d: Key, below: seq<Key>)
    requires LinkOrdered(g, below) && (d in g ==> forall y :: y in g[d] ==> y in below)
    ensures LinkOrdered(g, [d] + below)
  {
    assert ([d] + below)[1..] == below;
  }

  // ---------------------------------------------------------------- what expansion means

  lemma {:induction false} LinkOrderedAt(g: Graph, s: seq<Key>, i: nat, y: Key)
    requires LinkOrdered(g, s) && i < |s| && s[i] in g && y in g[s[i]]
    ensures y in s[i + 1..]
  {
    if i == 0 {
    } else {
      LinkOrderedAt(g, s[1..], i - 1, y);
      assert s[1..][i..] == s[i + 1..];
    }
  }

  /** Order along paths: an item's direct and indirect dependencies are all to its right. */
  lemma LinkOrderIsTransitive(g: Graph, s: seq<Key>, i: nat, y: Key)
    requires LinkOrdered(g, s) && i < |s| && Reaches(g, s[i], y)
    ensures y in s[i + 1..]
  {
    var n: nat :| ReachesIn(g, s[i], y, n);
    var tail := s[i + 1..];
    var right := set x | x in tail;
    forall d | d in g[s[i]] ensures d in right { LinkOrderedAt(g, s, i, d); }
    forall k, d | k in right && k in g && d in g[k] ensures d in right {
      var j :| 0 <= j < |s[i + 1..]| && s[i + 1..][j] == k;
      LinkOrderedAt(g, s, i + 1 + j, d);
      assert s[i + 1 + j + 1..] == s[i + 1..][j + 1..];
    }
    StaysInside(g, right, s[i], y, n);
  }

  ghost predicate BelowOrSelf(g: Graph, k: Key, x: Key) {
    x == k || Reaches(g, k, x)
  }

  lemma {:induction false} NoneMeansCycle(g: Graph, k: Key, path: set<Key>) returns (c: Key)
    requires Closed(g) && k in g && k !in path && Expand(g, k, path).None?
    requires forall p :: p in path ==> Reaches(g, p, k)
    ensures BelowOrSelf(g, k, c) && Reaches(g, c, c)
    decreases g.Keys - path, 0
  {
    c := AllNoneMeansCycle(g, k, g[k], path + {k});
  }

  lemma {:induction false} AllNoneMeansCycle(g: Graph, k: Key, ds: seq<Key>, path: set<Key>) returns (c: Key)
    requires Closed(g) && k in path && ExpandAll(g, ds, path).None?
    requires k in g && forall d :: d in ds ==> d in g[k]
    requires forall p :: p in path ==> BelowOrSelf(g, p, k)
    ensures BelowOrSelf(g, k, c) && Reaches(g, c, c)
    decreases g.Keys - path, 1 + |ds|
  {
    var d := ds[|ds| - 1];
    Edge(g, k, d);
    if ExpandAll(g, ds[..|ds| - 1], path).None? {
      c := AllNoneMeansCycle(g, k, ds[..|ds| - 1], path);
    } else if d in path {
      c := d;
      if d != k { Transitive(g, d, k, d); }
    } else {
      forall p | p in path ensures Reaches(g, p, d) {
        if p != k { Transitive(g, p, k, d); }
      }
      c := NoneMeansCycle(g, d, path);
      if c != d { Transitive(g, k, d, c); }
    }
  }

  /** Expansion fails exactly when a cycle is below the target, and otherwise lists
      exactly its transitive dependencies, once each, dependents before dependencies. */
  lemma ExpandMeaning(g: Graph, k: Key)
    requires Closed(g) && k in g
    ensures Expand(g, k, {}).Some? <==> forall c :: BelowOrSelf(g, k, c) ==> !Reaches(g, c, c)
    ensures Expand(g, k, {}).Some? ==>
      var r := Expand(g, k, {}).value;
      && NoDup(r)
      && (forall x :: x in r <==> Reaches(g, k, x))
      && (forall i, j :: 0 <= i < |r| && 0 <= j < |r| && Reaches(g, r[i], r[j]) ==> i < j)
  {
    if Expand(g, k, {}).None? {
      var c := NoneMeansCycle(g, k, {});
    } else {
      var r := Expand(g, k, {}).value;
      ExpandIsExpansion(g, k, {});
      forall x | Reaches(g, k, x) ensures x in r {
        var n: nat :| ReachesIn(g, k, x, n);
        ExpansionIsClosed(g, k, {}, r);
        StaysInside(g, (set y | y in r), k, x, n);
      }
      forall i, j | 0 <= i < |r| && 0 <= j < |r| && Reaches(g, r[i], r[j]) ensures i < j {
        LinkOrderIsTransitive(g, r, i, r[j]);
      }
      forall c | BelowOrSelf(g, k, c) ensures !Reaches(g, c, c) {
        if c in r {
          var i :| 0 <= i < |r| && r[i] == c;
        }
      }
    }
  }

  lemma ExpansionIsClosed(g: Graph, k: Key, path: set<Key>, r: seq<Key>)
    requires k in g && Expansion(g, k, path, r)
    ensures forall x, d :: x in r && x in g && d in g[x] ==> d in r
  {
    forall x, d | x in r && x in g && d in g[x] ensures d in r {
      var i :| 0 <= i < |r| && r[i] == x;
      LinkOrderedAt(g, r, i, d);
    }
  }

  /** The keys on the path matter only for failing: any path that misses the expanded
      part gives the same expansion. This is what makes the memo sound. */
  lemma {:induction false} PathDoesNotMatter(g: Graph, k: Key, p: set<Key>, q: set<Key>)
    requires k in g && Expand(g, k, p).Some?
    requires k !in q && forall x :: x in Expand(g, k, p).value ==> x !in q
    ensures Expand(g, k, q) == Expand(g, k, p)
    decreases g.Keys - p, 0
  {
    KeepLastIsSetOf(ExpandAll(g, g[k], p + {k}).value);
    PathDoesNotMatterAll(g, g[k], p + {k}, q + {k}, k);
  }

  lemma {:induction false} PathDoesNotMatterAll(g: Graph, ds: seq<Key>, p: set<Key>, q: set<Key>, k: Key)
    requires k in p && ExpandAll(g, ds, p).Some?
    requires forall x :: x in ExpandAll(g, ds, p).value && x != k ==> x !in q
    ensures ExpandAll(g, ds, q) == ExpandAll(g, ds, p)
    decreases g.Keys - p, 1 + |ds|
  {
    if ds == [] {
    } else {
      var d := ds[|ds| - 1];
      ExpandIsExpansion(g, d, p);
      assert d != k;
      PathDoesNotMatterAll(g, ds[..|ds| - 1], p, q, k);
      PathDoesNotMatter(g, d, p, q);
    }
  }

  // ---------------------------------------------------------------- the order of an expansion

  /** Following the dependencies with the numbers in p, as declared, leads from k to x. */
  ghost predicate Leads(g: Graph, k: Key, p: seq<nat>, x: Key)
    decreases |p|
  {
    if p == [] then x == k else k in g && p[0] < |g[k]| && Leads(g, g[k][p[0]], p[1..], x)
  }

  /** Walking down from k through the first n of its dependencies in declared order, y is visited
      again after the last visit to x. */
  ghost predicate VisitedLater(g: Graph, k: Key, n: nat, x: Key, y: Key) {
    exists q :: VisitedAfterAll(g, k, n, x, y, q)
  }

  ghost predicate VisitedAfterAll(g: Graph, k: Key, n: nat, x: Key, y: Key, q: seq<nat>) {
    && q != [] && q[0] < n && Leads(g, k, q, y)
    && forall p :: p != [] && p[0] < n && Leads(g, k, p, x) ==> Precedes(p, q)
  }

  /** The items stand in the order of their last visits. */
  ghost predicate InVisitOrder(g: Graph, k: Key, r: seq<Key>) {
    k in g && forall i, j :: 0 <= i < j < |r| ==> VisitedLater(g, k, |g[k]|, r[i], r[j])
  }

  /** Where an item occurs for the last time in s, an item that comes later in s is visited later. */
  ghost predicate LastVisitsInOrder(g: Graph, k: Key, n: nat, s: seq<Key>) {
    forall i, j :: 0 <= i < j < |s| && s[i] !in s[i + 1..] ==> VisitedLater(g, k, n, s[i], s[j])
  }

  lemma {:induction false} LeadsIsReaches(g: Graph, k: Key, p: seq<nat>, x: Key)
    requires p != [] && Leads(g, k, p, x)
    ensures Reaches(g, k, x)
    decreases |p|
  {
    Edge(g, k, g[k][p[0]]);
    if |p| == 1 {
      assert p[1..] == [];
    } else {
      LeadsIsReaches(g, g[k][p[0]], p[1..], x);
      Transitive(g, k, g[k][p[0]], x);
    }
  }

  lemma {:induction false} ReachesIsLed(g: Graph, k: Key, x: Key, n: nat) returns (p: seq<nat>)
    requires ReachesIn(g, k, x, n)
    ensures p != [] && Leads(g, k, p, x)
    decreases n
  {
    var d :| d in g[k] && if n == 0 then d == x else ReachesIn(g, d, x, n - 1);
    var i :| 0 <= i < |g[k]| && g[k][i] == d;
    if n == 0 {
      p := [i];
      assert p[1..] == [];
    } else {
      var q := ReachesIsLed(g, d, x, n - 1);
      p := [i] + q;
      assert p[1..] == q;
    }
  }

  /** Two items of a de-duplicated list stand in the order of their last occurrences. */
  lemma {:induction false} KeepLastOrder(s: seq<Key>, i: nat, j: nat) returns (a: nat, b: nat)
    requires i < j < |KeepLast(s)|
    ensures a < b < |s| && s[a] == KeepLast(s)[i] && s[b] == KeepLast(s)[j] && s[a] !in s[a + 1..]
    decreases |s|
  {
    var rest := s[1..];
    if s[0] !in rest && i == 0 {
      var c := PlaceKept(rest, j - 1);
      a, b := 0, c + 1;
    } else {
      var less := if s[0] in rest then 0 else 1;
      a, b := KeepLastOrder(rest, i - less, j - less);
      a, b := a + 1, b + 1;
      assert s[a + 1..] == rest[a..];
    }
  }

  lemma PlaceKept(s: seq<Key>, i: nat) returns (a: nat)
    requires i < |KeepLast(s)|
    ensures a < |s| && s[a] == KeepLast(s)[i]
  {
    KeepLastIsSetOf(s);
    assert KeepLast(s)[i] in s;
    a :| a < |s| && s[a] == KeepLast(s)[i];
  }

  /** In an acyclic graph the path does not matter for what is below a key on it. */
  lemma ExpandBelow(g: Graph, k: Key, d: Key)
    requires Closed(g) && Acyclic(g) && k in g && d in g[k]
    ensures Expand(g, d, {}).Some? && Expand(g, d, {k}) == Expand(g, d, {})
    ensures forall x :: x in Expand(g, d, {}).value <==> Reaches(g, d, x)
  {
    ExpandMeaning(g, d);
    Edge(g, k, d);
    forall x | x in Expand(g, d, {}).value ensures x != k {
      if x == k { Transitive(g, k, d, k); }
    }
    PathDoesNotMatter(g, d, {}, {k});
  }

  /** A later visit among the first n dependencies stays later when the next one does not lead
      to x again. */
  lemma VisitedLaterStill(g: Graph, k: Key, n: nat, x: Key, y: Key)
    requires k in g && n < |g[k]| && VisitedLater(g, k, n, x, y)
    requires x != g[k][n] && !Reaches(g, g[k][n], x)
    ensures VisitedLater(g, k, n + 1, x, y)
  {
    var q :| VisitedAfterAll(g, k, n, x, y, q);
    forall p | p != [] && p[0] < n + 1 && Leads(g, k, p, x) ensures Precedes(p, q) {
      if p[0] == n {
        assert Leads(g, g[k][n], p[1..], x);
        if p[1..] != [] { LeadsIsReaches(g, g[k][n], p[1..], x); }
      }
    }
    assert VisitedAfterAll(g, k, n + 1, x, y, q);
  }

  /** A visit below dependency n is later than all visits to x, if those below n are. */
  lemma VisitedBelow(g: Graph, k: Key, n: nat, x: Key, y: Key, below: seq<nat>)
    requires k in g && n < |g[k]| && Leads(g, g[k][n], below, y)
    requires forall p :: Leads(g, g[k][n], p, x) ==> Precedes(p, below)
    ensures VisitedLater(g, k, n + 1, x, y)
  {
    var q := [n] + below;
    assert q[1..] == below;
    forall p | p != [] && p[0] < n + 1 && Leads(g, k, p, x) ensures Precedes(p, q) {
      if p[0] == n { assert Leads(g, g[k][n], p[1..], x); }
    }
    assert VisitedAfterAll(g, k, n + 1, x, y, q);
  }

  lemma VisitedInNewBlock(g: Graph, k: Key, n: nat, x: Key, y: Key)
    requires k in g && n < |g[k]| && x != g[k][n] && !Reaches(g, g[k][n], x)
    requires y == g[k][n] || Reaches(g, g[k][n], y)
    ensures VisitedLater(g, k, n + 1, x, y)
  {
    var d := g[k][n];
    var below: seq<nat> := [];
    if y != d {
      var m: nat :| ReachesIn(g, d, y, m);
      below := ReachesIsLed(g, d, y, m);
    }
    forall p | Leads(g, d, p, x) ensures Precedes(p, below) {
      if p != [] { LeadsIsReaches(g, d, p, x); }
    }
    VisitedBelow(g, k, n, x, y, below);
  }

  lemma VisitedBelowHead(g: Graph, k: Key, n: nat, y: Key)
    requires Acyclic(g) && k in g && n < |g[k]| && Reaches(g, g[k][n], y)
    ensures VisitedLater(g, k, n + 1, g[k][n], y)
  {
    var d := g[k][n];
    var m: nat :| ReachesIn(g, d, y, m);
    var below := ReachesIsLed(g, d, y, m);
    forall p | Leads(g, d, p, d) ensures Precedes(p, below) {
      if p != [] { LeadsIsReaches(g, d, p, d); }
    }
    VisitedBelow(g, k, n, d, y, below);
  }

  lemma VisitedWithinBlock(g: Graph, k: Key, n: nat, x: Key, y: Key)
    requires Acyclic(g) && k in g && n < |g[k]| && g[k][n] in g && Reaches(g, g[k][n], x)
    requires VisitedLater(g, g[k][n], |g[g[k][n]]|, x, y)
    ensures VisitedLater(g, k, n + 1, x, y)
  {
    var d := g[k][n];
    var below :| VisitedAfterAll(g, d, |g[d]|, x, y, below);
    forall p | Leads(g, d, p, x) ensures Precedes(p, below) {
      assert p != [];
    }
    VisitedBelow(g, k, n, x, y, below);
  }

  /** The block of the next dependency keeps the order of last visits. */
  lemma NextBlockInOrder(g: Graph, k: Key, n: nat, list: seq<Key>, below: seq<Key>)
    requires Acyclic(g) && k in g && n < |g[k]| && LastVisitsInOrder(g, k, n, list)
    requires InVisitOrder(g, g[k][n], below) && forall x :: x in below <==> Reaches(g, g[k][n], x)
    ensures LastVisitsInOrder(g, k, n + 1, list + [g[k][n]] + below)
  {
    var d := g[k][n];
    var s := list + [d] + below;
    forall i, j | 0 <= i < j < |s| && s[i] !in s[i + 1..] ensures VisitedLater(g, k, n + 1, s[i], s[j]) {
      var m := |list|;
      NotLaterInList(list, d, below, i);
      if j < m {
        VisitedLaterStill(g, k, n, s[i], s[j]);
      } else if i < m {
        assert s[j] == if j == m then d else below[j - m - 1];
        VisitedInNewBlock(g, k, n, s[i], s[j]);
      } else if i == m {
        assert s[j] == below[j - m - 1];
        VisitedBelowHead(g, k, n, s[j]);
      } else {
        assert s[i] == below[i - m - 1] && s[j] == below[j - m - 1];
        VisitedWithinBlock(g, k, n, s[i], s[j]);
      }
    }
  }

  lemma NotLaterInList(list: seq<Key>, d: Key, below: seq<Key>, i: nat)
    requires i < |list + [d] + below| && (list + [d] + below)[i] !in (list + [d] + below)[i + 1..]
    ensures i < |list| ==> list[i] !in list[i + 1..] && list[i] != d && list[i] !in below
  {
    if i < |list| {
      assert (list + [d] + below)[i + 1..] == list[i + 1..] + [d] + below;
    }
  }

  lemma {:induction false} ListInVisitOrder(g: Graph, k: Key, n: nat)
    requires Closed(g) && Acyclic(g) && k in g && n <= |g[k]|
    requires forall d :: d in g[k] ==> Expand(g, d, {}).Some? && InVisitOrder(g, d, Expand(g, d, {}).value)
    ensures ExpandAll(g, g[k][..n], {k}).Some?
    ensures LastVisitsInOrder(g, k, n, ExpandAll(g, g[k][..n], {k}).value)
    decreases n
  {
    if n == 0 {
    } else {
      ListInVisitOrder(g, k, n - 1);
      OneMoreInVisitOrder(g, k, n - 1);
    }
  }

  lemma OneMoreInVisitOrder(g: Graph, k: Key, n: nat)
    requires Closed(g) && Acyclic(g) && k in g && n < |g[k]|
    requires Expand(g, g[k][n], {}).Some? && InVisitOrder(g, g[k][n], Expand(g, g[k][n], {}).value)
    requires ExpandAll(g, g[k][..n], {k}).Some? && LastVisitsInOrder(g, k, n, ExpandAll(g, g[k][..n], {k}).value)
    ensures ExpandAll(g, g[k][..n + 1], {k}).Some?
    ensures LastVisitsInOrder(g, k, n + 1, ExpandAll(g, g[k][..n + 1], {k}).value)
  {
    var d := g[k][n];
    ExpandBelow(g, k, d);
    ExpandOneMore(g, g[k], n, {k});
    NextBlockInOrder(g, k, n, ExpandAll(g, g[k][..n], {k}).value, Expand(g, d, {}).value);
  }

  /** The expansion of a key lists what is below it in the order of the last visits of a walk
      that goes through the dependencies as they are declared. This fixes the list. */
  lemma {:induction false} ExpansionIsInVisitOrder(g: Graph, k: Key)
    requires Closed(g) && Acyclic(g) && k in g
    ensures Expand(g, k, {}).Some? && InVisitOrder(g, k, Expand(g, k, {}).value)
    decreases if Expand(g, k, {}).Some? then |Expand(g, k, {}).value| else 0
  {
    ExpandMeaning(g, k);
    forall d | d in g[k] ensures Expand(g, d, {}).Some? && InVisitOrder(g, d, Expand(g, d, {}).value) {
      BelowIsSmaller(g, k, d);
      ExpansionIsInVisitOrder(g, d);
    }
    ListInVisitOrder(g, k, |g[k]|);
    assert g[k][..|g[k]|] == g[k] && {} + {k} == {k};
    KeptInVisitOrder(g, k, ExpandAll(g, g[k], {k}).value);
  }

  lemma KeptInVisitOrder(g: Graph, k: Key, list: seq<Key>)
    requires k in g && LastVisitsInOrder(g, k, |g[k]|, list)
    ensures InVisitOrder(g, k, KeepLast(list))
  {
    var r := KeepLast(list);
    forall i, j | 0 <= i < j < |r| ensures VisitedLater(g, k, |g[k]|, r[i], r[j]) {
      var a, b := KeepLastOrder(list, i, j);
    }
  }

  lemma NotVisitedLaterBothWays(g: Graph, k: Key, n: nat, x: Key, y: Key)
    ensures !(VisitedLater(g, k, n, x, y) && VisitedLater(g, k, n, y, x))
  {
    if VisitedLater(g, k, n, x, y) && VisitedLater(g, k, n, y, x) {
      var q :| VisitedAfterAll(g, k, n, x, y, q);
      var p :| VisitedAfterAll(g, k, n, y, x, p);
      PrecedesIsAsymmetric(p, q);
    }
  }

  /** Two lists of the same keys in the order of last visits are equal. */
  lemma {:induction false} VisitOrderIsUnique(g: Graph, k: Key, r: seq<Key>, t: seq<Key>)
    requires NoDup(r) && NoDup(t) && InVisitOrder(g, k, r) && InVisitOrder(g, k, t)
    requires forall x :: x in r <==> x in t
    ensures r == t
    decreases |r|
  {
    assert t != [] ==> t[0] in t;
    if r == [] {
    } else {
      assert r[0] in r && r[0] in t && t[0] in r;
      FirstVisitedIsSame(g, k, r, t);
      forall x ensures x in r[1..] <==> x in t[1..] {
        NotFirst(r, x);
        NotFirst(t, x);
      }
      VisitOrderIsUnique(g, k, r[1..], t[1..]);
      assert r == [r[0]] + r[1..] && t == [t[0]] + t[1..];
    }
  }

  lemma FirstVisitedIsSame(g: Graph, k: Key, r: seq<Key>, t: seq<Key>)
    requires r != [] && t != [] && InVisitOrder(g, k, r) && InVisitOrder(g, k, t)
    requires r[0] in t && t[0] in r
    ensures r[0] == t[0]
  {
    var i :| 0 <= i < |t| && t[i] == r[0];
    var j :| 0 <= j < |r| && r[j] == t[0];
    NotVisitedLaterBothWays(g, k, |g[k]|, r[0], t[0]);
  }

  lemma NotFirst(s: seq<Key>, x: Key)
    requires NoDup(s) && s != []
    ensures x in s[1..] <==> x in s && x != s[0]
  {
    assert s == [s[0]] + s[1..];
  }

  /** Of two dependencies the one declared first comes first, unless a dependency declared after
      it needs it. */
  lemma DeclaredOrderSurvives(g: Graph, k: Key, i: nat, j: nat, a: nat, b: nat)
    requires Closed(g) && Acyclic(g) && k in g && NoDup(g[k]) && i < j < |g[k]|
    requires forall m :: i < m < |g[k]| ==> !Reaches(g, g[k][m], g[k][i])
    requires Expand(g, k, {}).Some? && a < |Expand(g, k, {}).value| && b < |Expand(g, k, {}).value|
    requires Expand(g, k, {}).value[a] == g[k][i] && Expand(g, k, {}).value[b] == g[k][j]
    ensures a < b
  {
    ExpansionIsInVisitOrder(g, k);
    NotVisitedAgain(g, k, i, j);
  }

  lemma NotVisitedAgain(g: Graph, k: Key, i: nat, j: nat)
    requires k in g && NoDup(g[k]) && i < j < |g[k]|
    requires forall m :: i < m < |g[k]| ==> !Reaches(g, g[k][m], g[k][i])
    ensures !VisitedLater(g, k, |g[k]|, g[k][j], g[k][i])
  {
    if VisitedLater(g, k, |g[k]|, g[k][j], g[k][i]) {
      var q :| VisitedAfterAll(g, k, |g[k]|, g[k][j], g[k][i], q);
      assert Leads(g, k, [j], g[k][j]) by { assert [j][1..] == []; }
      assert Precedes([j], q) && Leads(g, g[k][q[0]], q[1..], g[k][i]);
      if q[1..] != [] { LeadsIsReaches(g, g[k][q[0]], q[1..], g[k][i]); }
    }
  }

  // ---------------------------------------------------------------- the converse relation

  type Dependents = map<Key, set<Key>>

  /** What each target had, together with the keys among `seen` that name it. */
  ghost function Converse(g: Graph, had: Dependents, seen: seq<Key>): Dependents {
    map t | t in had :: had[t] + set k | k in seen && k in g && t in g[k]
  }

  /** `key` entered at each target in ds. */
  ghost function Entered(had: Dependents, ds: seq<Key>, key: Key): Dependents {
    map t | t in had :: had[t] + if t in ds then {key} else {}
  }

  lemma ConverseOneMore(g: Graph, had: Dependents, order: seq<Key>, i: nat)
    requires i < |order| && order[i] in g
    ensures Converse(g, had, order[..i + 1]) == Entered(Converse(g, had, order[..i]), g[order[i]], order[i])
  {
    var k := order[i];
    assert forall x :: x in order[..i + 1] <==> x in order[..i] || x == k;
    forall t | t in had
      ensures Converse(g, had, order[..i + 1])[t] == Converse(g, had, order[..i])[t] + if t in g[k] then {k} else {}
    {}
  }

  lemma ConverseOfNone(g: Graph, had: Dependents)
    ensures Converse(g, had, []) == had
  {
    forall t | t in had ensures Converse(g, had, [])[t] == had[t] {}
  }

  lemma EnteredNone(had: Dependents, key: Key)
    ensures Entered(had, [], key) == had
  {
    forall t | t in had ensures Entered(had, [], key)[t] == had[t] {}
  }

  lemma EnteredOneMore(had: Dependents, ds: seq<Key>, j: nat, key: Key)
    requires j < |ds| && ds[j] in had
    ensures var sofar := Entered(had, ds[..j], key);
      Entered(had, ds[..j + 1], key) == sofar[ds[j] := sofar[ds[j]] + {key}]
  {
    var sofar, next := Entered(had, ds[..j], key), Entered(had, ds[..j + 1], key);
    assert forall t :: t in ds[..j + 1] <==> t in ds[..j] || t == ds[j];
    forall t | t in had ensures next[t] == sofar[t] + if t == ds[j] then {key} else {} {}
  }

  /** Enters `key` at each target it names. */
  method EnterOne(g: Graph, had: Dependents, key: Key) returns (m: Dependents)
    requires Closed(g) && g.Keys == had.Keys && key in g
    ensures m == Entered(had, g[key], key)
  {
    m := had;
    EnteredNone(had, key);
    for j := 0 to |g[key]|
      invariant m == Entered(had, g[key][..j], key)
    {
      var depkey := g[key][j];
      EnteredOneMore(had, g[key], j, key);
      m := m[depkey := m[depkey] + {key}];
    }
    assert g[key][..|g[key]|] == g[key];
  }

  /** Enters every target in `order` with each target it names. */
  method EnterAll(g: Graph, had: Dependents, order: seq<Key>) returns (m: Dependents)
    requires Closed(g) && g.Keys == had.Keys && forall k :: k in order ==> k in g
    ensures m == Converse(g, had, order)
  {
    m := had;
    ConverseOfNone(g, had);
    for i := 0 to |order|
      invariant m == Converse(g, had, order[..i])
    {
      m := EnterOne(g, m, order[i]);
      ConverseOneMore(g, had, order, i);
    }
    assert order[..|order|] == order;
  }

  // ---------------------------------------------------------------- emission order

  /** Every item's direct dependencies occur to its left. */
  ghost predicate BuildOrdered(g: Graph, s: seq<Key>) {
    forall i, d :: 0 <= i < |s| && s[i] in g && d in g[s[i]] ==> d in s[..i]
  }

  /** The dependencies of k that have not been emitted yet. */
  ghost function Pending(g: Graph, k: Key, done: set<Key>): set<Key> {
    if k in g then set d | d in g[k] && d !in done else {}
  }

  lemma PendingShrinks(g: Graph, k: Key, done: set<Key>, key: Key)
    requires k in g && key !in done
    ensures key in g[k] ==> |Pending(g, k, done)| == |Pending(g, k, done + {key})| + 1
    ensures key !in g[k] ==> Pending(g, k, done) == Pending(g, k, done + {key})
  {
    if key in g[k] {
      assert Pending(g, k, done) == Pending(g, k, done + {key}) + {key};
    }
  }

  lemma PendingAtStart(g: Graph, k: Key)
    requires k in g && NoDup(g[k])
    ensures |Pending(g, k, {})| == |g[k]|
  {
    var deps := g[k];
    NoDupSize(deps);
    assert Pending(g, k, {}) == set x | x in deps;
  }

  lemma BelowIsSmaller(g: Graph, k: Key, d: Key)
    requires Closed(g) && Acyclic(g) && k in g && d in g[k]
    ensures Expand(g, k, {}).Some? && Expand(g, d, {}).Some?
    ensures |Expand(g, d, {}).value| < |Expand(g, k, {}).value|
  {
    ExpandMeaning(g, k);
    ExpandMeaning(g, d);
    var rk, rd := Expand(g, k, {}).value, Expand(g, d, {}).value;
    Edge(g, k, d);
    forall x | x in rd ensures x in rk { Transitive(g, k, d, x); }
    var above, below := set x | x in rk, set x | x in rd;
    assert d in above && d !in below;
    NoDupSize(rk);
    NoDupSize(rd);
    SubsetSize(below, above);
  }

  /** Induction along the dependencies of an acyclic graph. */
  lemma {:induction false} AllEmitted(g: Graph, done: set<Key>, k: Key)
    requires Closed(g) && Acyclic(g) && k in g
    requires forall x :: x in g && (forall d :: d in g[x] ==> d in done) ==> x in done
    ensures k in done
    decreases if Expand(g, k, {}).Some? then |Expand(g, k, {}).value| else 0
  {
    forall d | d in g[k] ensures d in done {
      BelowIsSmaller(g, k, d);
      AllEmitted(g, done, d);
    }
  }

  lemma BuildOrderMeansAcyclic(g: Graph, s: seq<Key>)
    requires Closed(g) && NoDup(s) && BuildOrdered(g, s) && forall k :: k in g ==> k in s
    ensures Acyclic(g)
  {
    forall k ensures !Reaches(g, k, k) {
      if Reaches(g, k, k) {
        var n: nat :| ReachesIn(g, k, k, n);
        var i :| 0 <= i < |s| && s[i] == k;
        var prefix := s[..i];
        StaysInside(g, (set x | x in prefix), k, k, n);
      }
    }
  }

  /** numpreds counts the pending dependencies, one too many for the keys in `todo`. */
  ghost predicate Counted(g: Graph, numpreds: map<Key, int>, done: set<Key>, todo: set<Key>) {
    && numpreds.Keys == g.Keys
    && (forall k :: k in g ==> numpreds[k] == |Pending(g, k, done)| + if k in todo then 1 else 0)
  }

  /** The queue holds exactly the keys that count zero and have not been emitted. */
  ghost predicate Queued(numpreds: map<Key, int>, q: seq<Key>, done: set<Key>) {
    && NoDup(q)
    && (forall k :: k in q <==> k in numpreds && numpreds[k] == 0 && k !in done)
    && (forall k :: k in done ==> k in numpreds && numpreds[k] == 0)
  }

  lemma EmittedAllOrCycle(g: Graph, numpreds: map<Key, int>, done: set<Key>)
    requires Closed(g) && Counted(g, numpreds, done, {}) && Queued(numpreds, [], done) && Acyclic(g)
    ensures done == g.Keys
  {
    forall x | x in g && (forall d :: d in g[x] ==> d in done) ensures x in done {
      assert Pending(g, x, done) == {};
      assert numpreds[x] == 0;
    }
    forall k | k in g ensures k in done { AllEmitted(g, done, k); }
  }

  lemma Emit(g: Graph, numpreds: map<Key, int>, q: seq<Key>, done: set<Key>, dependents: set<Key>)
    requires q != [] && Counted(g, numpreds, done, {}) && Queued(numpreds, q, done)
    requires forall k :: k in dependents <==> k in g && q[|q| - 1] in g[k]
    ensures var key := q[|q| - 1];
      && key in g && key !in done && (forall d :: d in g[key] ==> d in done)
      && Counted(g, numpreds, done + {key}, dependents)
      && Queued(numpreds, q[..|q| - 1], done + {key})
  {
    var key := q[|q| - 1];
    assert key in q && key in numpreds.Keys;
    assert Pending(g, key, done) == {};
    forall k | k in g { PendingShrinks(g, k, done, key); }
    assert q == q[..|q| - 1] + [key];
    forall k ensures k in q[..|q| - 1] <==> k in q && k != key {}
  }

  lemma EmitInOrder(g: Graph, sorted: seq<Key>, done: set<Key>, key: Key)
    requires done == (set k | k in sorted) && NoDup(sorted) && BuildOrdered(g, sorted)
    requires key in g && key !in done && forall d :: d in g[key] ==> d in done
    ensures done + {key} == (set k | k in sorted + [key])
    ensures NoDup(sorted + [key]) && BuildOrdered(g, sorted + [key])
  {
    forall i, d | 0 <= i < |sorted + [key]| && (sorted + [key])[i] in g && d in g[(sorted + [key])[i]]
      ensures d in (sorted + [key])[..i]
    {
      assert (sorted + [key])[..i] == sorted[..i];
    }
  }

  // ---------------------------------------------------------------- the targets in memory

  /** The keys being expanded, shared by all levels of one recursion. */
  class RootTargets {
    var keys: set<Key>
    constructor () ensures keys == {} { keys := {}; }
  }

  /** A dictionary's iteration order: all its keys, once each. */
  ghost predicate Enumerates(order: seq<Key>, g: Graph) {
    NoDup(order) && forall k :: k in order <==> k in g
  }

  /** What `expanded_deps` may hold between calls: plain expansions, with the targets
      below each filled-in one filled in too. */
  ghost predicate MemoSound(g: Graph, memo: map<Key, seq<Key>>) {
    forall k :: k in memo ==>
      k in g && Expand(g, k, {}) == Some(memo[k]) && forall x :: x in memo[k] ==> x in memo
  }

  /** Every target with its transitive dependencies. */
  ghost function ExpandedGraph(g: Graph): Graph {
    map k | k in g :: match Expand(g, k, {}) case Some(r) => r case None => []
  }

  lemma ExpandedGraphIsReachability(g: Graph)
    requires Closed(g) && Acyclic(g)
    ensures Closed(ExpandedGraph(g))
    ensures forall k, t :: k in g && t in ExpandedGraph(g)[k] <==> Reaches(g, k, t)
  {
    forall k, t ensures k in g && t in ExpandedGraph(g)[k] <==> Reaches(g, k, t) {
      if k in g { ExpandMeaning(g, k); }
    }
    forall k, d | k in g && d in ExpandedGraph(g)[k] ensures d in g {
      ExpandIsExpansion(g, k, {});
    }
  }

  /** In the filled-in attribute the dependency declared first comes first, unless a dependency
      declared after it needs it. */
  lemma DeclaredOrderIsFilledIn(g: Graph, k: Key, i: nat, j: nat)
    requires Closed(g) && Acyclic(g) && k in g && NoDup(g[k]) && i < j < |g[k]|
    requires forall m :: i < m < |g[k]| ==> !Reaches(g, g[k][m], g[k][i])
    ensures exists a, b ::
      0 <= a < b < |ExpandedGraph(g)[k]| && ExpandedGraph(g)[k][a] == g[k][i] && ExpandedGraph(g)[k][b] == g[k][j]
  {
    var r := ExpandedGraph(g)[k];
    ExpandMeaning(g, k);
    Edge(g, k, g[k][i]);
    Edge(g, k, g[k][j]);
    var a :| 0 <= a < |r| && r[a] == g[k][i];
    var b :| 0 <= b < |r| && r[b] == g[k][j];
    DeclaredOrderSurvives(g, k, i, j, a, b);
  }

  /** A memo that has an entry for every target leaves no room for a cycle. */
  lemma AllExpanded(g: Graph, memo: map<Key, seq<Key>>)
    requires Closed(g) && MemoSound(g, memo) && forall k :: k in g ==> k in memo
    ensures Acyclic(g) && memo == ExpandedGraph(g)
    ensures forall k :: k in g ==> InVisitOrder(g, k, memo[k])
  {
    forall k ensures !Reaches(g, k, k) {
      if k in g { ExpandMeaning(g, k); }
    }
    forall k | k in g ensures InVisitOrder(g, k, memo[k]) { ExpansionIsInVisitOrder(g, k); }
  }

  datatype AnalysisError = LoopFound(at: Key) | NotAllEmitted

  /** The related targets, an attribute of all of them in each field. A key that is
      absent from expandedDeps has not been expanded yet. */
  class RelatedTargets {
    const deps: Graph
    var expandedDeps: map<Key, seq<Key>>
    var dependents: Dependents
    var expandedDependents: Dependents

    constructor (deps: Graph)
      ensures this.deps == deps && expandedDeps == map[]
      ensures dependents == expandedDependents == map k | k in deps :: {}
    {
      this.deps := deps;
      expandedDeps := map[];
      dependents := map k | k in deps :: {};
      expandedDependents := map k | k in deps :: {};
    }

    method ExpandTargetDeps(id: Key, roots: RootTargets) returns (r: Result<seq<Key>, Key>)
      requires Closed(deps) && MemoSound(deps, expandedDeps)
      requires id in deps && roots.keys <= deps.Keys && id !in roots.keys
      requires forall p :: p in roots.keys ==> p !in expandedDeps && Reaches(deps, p, id)
      modifies this`expandedDeps, roots
      ensures r.Success? ==>
        && roots.keys == old(roots.keys)
        && MemoSound(deps, expandedDeps)
        && id in expandedDeps && expandedDeps[id] == r.value
        && (forall p :: p in roots.keys ==> p !in expandedDeps)
      ensures forall k :: k in old(expandedDeps) ==> k in expandedDeps && expandedDeps[k] == old(expandedDeps)[k]
      ensures r.Failure? ==> r.error in deps && Reaches(deps, r.error, r.error)
      decreases deps.Keys - roots.keys
    {
      if id in expandedDeps {
        return Success(expandedDeps[id]);
      }
      ghost var before := roots.keys;
      roots.keys := roots.keys + {id};
      var newDepsList := [];
      for i := 0 to |deps[id]|
        invariant roots.keys == before + {id}
        invariant MemoSound(deps, expandedDeps)
        invariant forall p :: p in roots.keys ==> p !in expandedDeps
        invariant forall k :: k in old(expandedDeps) ==> k in expandedDeps && expandedDeps[k] == old(expandedDeps)[k]
        invariant forall x :: x in newDepsList ==> x in expandedDeps
        invariant ExpandAll(deps, deps[id][..i], {id}) == Some(newDepsList)
      {
        var d := deps[id][i];
        Edge(deps, id, d);
        forall p | p in roots.keys ensures Reaches(deps, p, d) {
          if p != id { Transitive(deps, p, id, d); }
        }
        if d in roots.keys {
          return Failure(d);
        }
        var below := ExpandTargetDeps(d, roots);
        if below.Failure? {
          return below;
        }
        PathDoesNotMatter(deps, d, {}, {id});
        ExpandOneMore(deps, deps[id], i, {id});
        newDepsList := newDepsList + [d] + below.value;
      }
      assert deps[id][..|deps[id]|] == deps[id];
      KeepLastIsSetOf(newDepsList);
      newDepsList := UniqueDeps(newDepsList);
      expandedDeps := expandedDeps[id := newDepsList];
      roots.keys := roots.keys - {id};
      assert {} + {id} == {id};
      r := Success(newDepsList);
    }

    /** Expands every target in the given order. The outcome is the key at which a loop
        was reported; it is None exactly for acyclic graphs. */
    method ExpandDeps(order: seq<Key>) returns (loop: Option<Key>)
      requires Closed(deps) && Enumerates(order, deps) && MemoSound(deps, expandedDeps)
      modifies this`expandedDeps
      ensures loop.None? <==> Acyclic(deps)
      ensures loop.None? ==> expandedDeps == ExpandedGraph(deps)
      ensures loop.None? ==> forall k :: k in deps ==> k in expandedDeps && InVisitOrder(deps, k, expandedDeps[k])
      ensures loop.Some? ==> loop.value in deps && Reaches(deps, loop.value, loop.value)
    {
      for i := 0 to |order|
        invariant MemoSound(deps, expandedDeps)
        invariant forall k :: k in order[..i] ==> k in expandedDeps
      {
        var roots := new RootTargets();
        var r := ExpandTargetDeps(order[i], roots);
        if r.Failure? {
          return Some(r.error);
        }
      }
      AllExpanded(deps, expandedDeps);
      loop := None;
    }

    method ExpandDependents(order: seq<Key>)
      requires Closed(deps) && Closed(expandedDeps) && Enumerates(order, deps)
      requires deps.Keys == expandedDeps.Keys == dependents.Keys == expandedDependents.Keys
      modifies this`dependents, this`expandedDependents
      ensures dependents == Converse(deps, old(dependents), order)
      ensures expandedDependents == Converse(expandedDeps, old(expandedDependents), order)
    {
      dependents := EnterAll(deps, dependents, order);
      expandedDependents := EnterAll(expandedDeps, expandedDependents, order);
    }

    method CountPredecessors(order: seq<Key>) returns (numpreds: map<Key, int>, q: seq<Key>)
      requires Enumerates(order, deps) && forall k :: k in deps ==> NoDup(deps[k])
      ensures Counted(deps, numpreds, {}, {}) && Queued(numpreds, q, {})
    {
      numpreds, q := map[], [];
      for i := 0 to |order|
        invariant forall k :: k in numpreds <==> k in order[..i]
        invariant forall k :: k in numpreds ==> numpreds[k] == |Pending(deps, k, {})|
        invariant Queued(numpreds, q, {})
      {
        var key := order[i];
        var depLen := |deps[key]|;
        PendingAtStart(deps, key);
        numpreds := numpreds[key := depLen];
        if depLen == 0 {
          q := q + [key];
        }
      }
    }

    /** Takes one pending dependency off each dependent of the key just emitted. */
    method KnockDown(key: Key, ghost done: set<Key>, numpreds0: map<Key, int>, q0: seq<Key>)
      returns (numpreds: map<Key, int>, q: seq<Key>)
      requires key in dependents && dependents[key] <= deps.Keys
      requires Counted(deps, numpreds0, done, dependents[key]) && Queued(numpreds0, q0, done)
      ensures Counted(deps, numpreds, done, {}) && Queued(numpreds, q, done)
    {
      numpreds, q := numpreds0, q0;
      var todo := dependents[key];
      while todo != {}
        invariant todo <= dependents[key]
        invariant Counted(deps, numpreds, done, todo) && Queued(numpreds, q, done)
      {
        var depkey :| depkey in todo;
        todo := todo - {depkey};
        numpreds := numpreds[depkey := numpreds[depkey] - 1];
        if numpreds[depkey] == 0 {
          q := q + [depkey];
        }
      }
    }

    /** Kahn's algorithm. None stands for the failing assertion that all keys were emitted. */
    method TopologicalSort(order: seq<Key>) returns (sorted: Option<seq<Key>>)
      requires Closed(deps) && Enumerates(order, deps)
      requires forall k :: k in deps ==> NoDup(deps[k])
      requires dependents == Converse(deps, map k | k in deps :: {}, order)
      ensures sorted.Some? <==> Acyclic(deps)
      ensures sorted.Some? ==> NoDup(sorted.value) && BuildOrdered(deps, sorted.value)
      ensures sorted.Some? ==> forall k :: k in sorted.value <==> k in deps
    {
      var numpreds, q := CountPredecessors(order);
      var sortedKeys: seq<Key> := [];
      ghost var done: set<Key> := {};
      while q != []
        invariant done <= deps.Keys && done == (set k | k in sortedKeys)
        invariant NoDup(sortedKeys) && BuildOrdered(deps, sortedKeys)
        invariant Counted(deps, numpreds, done, {}) && Queued(numpreds, q, done)
        decreases deps.Keys - done
      {
        var key := q[|q| - 1];
        assert key in q && key in numpreds.Keys;
        Emit(deps, numpreds, q, done, dependents[key]);
        EmitInOrder(deps, sortedKeys, done, key);
        q := q[..|q| - 1];
        sortedKeys := sortedKeys + [key];
        done := done + {key};
        numpreds, q := KnockDown(key, done, numpreds, q);
      }
      NoDupSize(sortedKeys);
      SubsetSize(done, deps.Keys);
      if Acyclic(deps) { EmittedAllOrCycle(deps, numpreds, done); }
      if |sortedKeys| == |deps| {
        BuildOrderMeansAcyclic(deps, sortedKeys);
        sorted := Some(sortedKeys);
      } else {
        sorted := None;
      }
    }

    /** The whole analysis: expansion, converse relation, build order. */
    method AnalyzeDeps(order: seq<Key>) returns (r: Result<seq<Key>, AnalysisError>)
      requires Closed(deps) && Enumerates(order, deps) && forall k :: k in deps ==> NoDup(deps[k])
      requires expandedDeps == map[] && dependents == expandedDependents == map k | k in deps :: {}
      modifies this
      ensures r.Success? <==> Acyclic(deps)
      ensures r.Failure? ==> r.error.LoopFound? && Reaches(deps, r.error.at, r.error.at)
      ensures r.Success? ==>
        && NoDup(r.value) && BuildOrdered(deps, r.value) && (forall k :: k in r.value <==> k in deps)
        && (forall k :: k in deps ==> k in expandedDeps && InVisitOrder(deps, k, expandedDeps[k]))
        && expandedDeps == ExpandedGraph(deps) && dependents.Keys == expandedDependents.Keys == deps.Keys
        && (forall t, k :: t in deps ==> (k in dependents[t] <==> k in deps && t in deps[k]))
        && (forall t, k :: t in deps ==> (k in expandedDependents[t] <==> Reaches(deps, k, t)))
    {
      var loop := ExpandDeps(order);
      if loop.Some? {
        return Failure(LoopFound(loop.value));
      }
      ExpandedGraphIsReachability(deps);
      ExpandDependents(order);
      var sorted := TopologicalSort(order);
      r := match sorted case Some(keys) => Success(keys) case None => Failure(NotAllEmitted);
    }
  }
}
