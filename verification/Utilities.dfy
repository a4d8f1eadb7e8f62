/** The two result shapes and the sequence facts that the modules share. */
module Prelude {

  datatype Option<+T> = None | Some(value: T)

  datatype Result<+T, +E> = Success(value: T) | Failure(error: E)

  /** No value occurs at two positions. */
  predicate NoDup<T(==)>(s: seq<T>) {
    forall i, j :: 0 <= i < j < |s| ==> s[i] != s[j]
  }

  lemma NoDupInit<T>(s: seq<T>)
    requires NoDup(s) && s != []
    ensures NoDup(s[..|s| - 1]) && forall x :: x in s[..|s| - 1] ==> x in s && x != s[|s| - 1]
  {
  }

  lemma NoDupSize<T>(s: seq<T>)
    requires NoDup(s)
    ensures |set x | x in s| == |s|
  {
    if s != [] {
      NoDupSize(s[1..]);
      assert s == [s[0]] + s[1..];
      assert (set x | x in s) == {s[0]} + set x | x in s[1..];
      assert s[0] !in s[1..];
    }
  }

  /** The order of positions in a tree, given as child numbers from the top: a position comes
      before those below it, and those before whatever is further right. */
  predicate Precedes(p: seq<nat>, q: seq<nat>) {
    q != [] && (p == [] || p[0] < q[0] || (p[0] == q[0] && Precedes(p[1..], q[1..])))
  }

  lemma {:induction false} PrecedesIsAsymmetric(p: seq<nat>, q: seq<nat>)
    ensures !(Precedes(p, q) && Precedes(q, p))
  {
    if p == [] || q == [] {
    } else {
      PrecedesIsAsymmetric(p[1..], q[1..]);
    }
  }

  function Reversed<T>(s: seq<T>): seq<T> {
    if s == [] then [] else [s[|s| - 1]] + Reversed(s[..|s| - 1])
  }

  lemma ReversedAppend<T>(s: seq<T>, x: T)
    ensures Reversed(s + [x]) == [x] + Reversed(s)
  {
    assert (s + [x])[..|s|] == s;
  }

  lemma ConcatAssociative<T>(a: seq<T>, b: seq<T>, c: seq<T>)
    ensures (a + b) + c == a + (b + c)
  {
  }

  lemma InitAndLast<T>(s: seq<T>)
    requires s != []
    ensures s[..|s| - 1] + [s[|s| - 1]] == s
  {
  }

  lemma EmptyConcat<T>(s: seq<T>)
    ensures [] + s == s
  {
  }

  lemma SubsetSize<T>(a: set<T>, b: set<T>)
    requires a <= b
    ensures |a| <= |b|
    ensures a < b ==> |a| < |b|
  {
    assert b == a + (b - a);
    assert |b| == |a| + |b - a|;
  }
}

/** The order of strings, and splitting, joining and finding as Python's `str` methods do it. */
module Strings {
  import opened Prelude

  // ---------------------------------------------------------------- the order of strings

  predicate LexLess(a: string, b: string) {
    b != "" && (a == "" || a[0] < b[0] || (a[0] == b[0] && LexLess(a[1..], b[1..])))
  }

  lemma {:induction false} LexLessIsTotal(a: string, b: string)
    ensures !(LexLess(a, b) && LexLess(b, a))
    ensures !LexLess(a, b) && !LexLess(b, a) ==> a == b
  {
    if a != "" && b != "" && a[0] == b[0] {
      LexLessIsTotal(a[1..], b[1..]);
      assert a == [a[0]] + a[1..] && b == [b[0]] + b[1..];
    }
  }

  lemma {:induction false} LexLessIsTransitive(a: string, b: string, d: string)
    requires LexLess(a, b) && LexLess(b, d)
    ensures LexLess(a, d)
  {
    if a != "" && b != "" && a[0] == b[0] && b[0] == d[0] { LexLessIsTransitive(a[1..], b[1..], d[1..]); }
  }

  /** a and b agree up to position k, where a ends or has the smaller character. */
  predicate SmallerAt(a: string, b: string, k: nat) {
    k <= |a| && k < |b| && (forall i :: 0 <= i < k ==> a[i] == b[i]) && (k == |a| || a[k] < b[k])
  }

  /** a comes before b when it is a proper prefix of b or has the smaller character where they
      first differ. */
  lemma LexLessMeans(a: string, b: string)
    ensures LexLess(a, b) <==> exists k :: SmallerAt(a, b, k)
  {
    if LexLess(a, b) {
      var k := WhereSmaller(a, b);
    }
    if k :| SmallerAt(a, b, k) { SmallerIsLess(a, b, k); }
  }

  lemma {:induction false} WhereSmaller(a: string, b: string) returns (k: nat)
    requires LexLess(a, b)
    ensures SmallerAt(a, b, k)
    decreases |a|
  {
    if a == "" || a[0] != b[0] {
      k := 0;
    } else {
      k := WhereSmaller(a[1..], b[1..]);
      forall i | 0 < i < k + 1 ensures a[i] == b[i] { assert a[1..][i - 1] == b[1..][i - 1]; }
      k := k + 1;
    }
  }

  lemma {:induction false} SmallerIsLess(a: string, b: string, k: nat)
    requires SmallerAt(a, b, k)
    ensures LexLess(a, b)
    decreases k
  {
    if k == 0 {
    } else {
      forall i | 0 <= i < k - 1 ensures a[1..][i] == b[1..][i] { assert a[i + 1] == b[i + 1]; }
      SmallerIsLess(a[1..], b[1..], k - 1);
    }
  }

  predicate Ascending(s: seq<string>) {
    forall i, j :: 0 <= i < j < |s| ==> LexLess(s[i], s[j])
  }

  /** The elements in ascending order, standing for `sorted`. */
  method Sorted(elems: set<string>) returns (s: seq<string>)
    ensures Ascending(s) && forall x :: x in s <==> x in elems
  {
    s := [];
    var todo := elems;
    while todo != {}
      invariant Ascending(s) && todo <= elems
      invariant forall x :: x in s <==> x in elems && x !in todo
    {
      var x :| x in todo;
      todo := todo - {x};
      s := InsertInOrder(s, x);
    }
  }

  method InsertInOrder(s: seq<string>, x: string) returns (t: seq<string>)
    requires Ascending(s) && x !in s
    ensures Ascending(t) && forall y :: y in t <==> y == x || y in s
  {
    var k := 0;
    while k < |s| && LexLess(s[k], x)
      invariant k <= |s| && forall i :: 0 <= i < k ==> LexLess(s[i], x)
    {
      k := k + 1;
    }
    forall i | k <= i < |s| ensures LexLess(x, s[i]) {
      LexLessIsTotal(x, s[k]);
      if i > k { LexLessIsTransitive(x, s[k], s[i]); }
    }
    InsertedAscending(s, k, x);
    t := s[..k] + [x] + s[k..];
  }

  lemma InsertedAscending(s: seq<string>, k: nat, x: string)
    requires Ascending(s) && k <= |s|
    requires (forall i :: 0 <= i < k ==> LexLess(s[i], x)) && forall i :: k <= i < |s| ==> LexLess(x, s[i])
    ensures Ascending(s[..k] + [x] + s[k..])
    ensures forall y :: y in s[..k] + [x] + s[k..] <==> y == x || y in s
  {
    var t := s[..k] + [x] + s[k..];
    forall i, j | 0 <= i < j < |t| ensures LexLess(t[i], t[j]) {
      assert i < k ==> t[i] == s[i];
      assert i > k ==> t[i] == s[i - 1];
      assert j < k ==> t[j] == s[j];
      assert j > k ==> t[j] == s[j - 1];
    }
    assert s == s[..k] + s[k..];
  }

  /** There is one ascending list of given elements. */
  lemma {:induction false} AscendingIsUnique(s: seq<string>, t: seq<string>)
    requires Ascending(s) && Ascending(t) && forall x :: x in s <==> x in t
    ensures s == t
    decreases |s|
  {
    assert t != [] ==> t[0] in t;
    if s == [] {
    } else {
      assert s[0] in t;
      FirstIsLeast(s, t);
      forall x ensures x in s[1..] <==> x in t[1..] {
        RestWithoutFirst(s, x);
        RestWithoutFirst(t, x);
      }
      AscendingIsUnique(s[1..], t[1..]);
      assert s == [s[0]] + s[1..] && t == [t[0]] + t[1..];
    }
  }

  lemma FirstIsLeast(s: seq<string>, t: seq<string>)
    requires Ascending(s) && Ascending(t) && s != [] && t != [] && forall x :: x in s <==> x in t
    ensures s[0] == t[0]
  {
    assert s[0] in t && t[0] in s;
    var i :| 0 <= i < |t| && t[i] == s[0];
    var j :| 0 <= j < |s| && s[j] == t[0];
    LexLessIsTotal(s[0], t[0]);
  }

  lemma RestWithoutFirst(s: seq<string>, x: string)
    requires Ascending(s) && s != []
    ensures x in s[1..] <==> x in s && x != s[0]
  {
    LexLessIsTotal(s[0], s[0]);
    assert s == [s[0]] + s[1..];
    if x in s[1..] {
      var i :| 0 <= i < |s[1..]| && s[1..][i] == x;
      assert LexLess(s[0], s[i + 1]);
    }
  }

  // ---------------------------------------------------------------- splitting, joining and finding

  function SplitOn(s: string, c: char): (parts: seq<string>)
    ensures |parts| > 0
  {
    if s == "" then [""]
    else Prepend(s[0], c, SplitOn(s[1..], c))
  }

  function Join(parts: seq<string>, c: char): string {
    if parts == [] then ""
    else if |parts| == 1 then parts[0]
    else parts[0] + [c] + Join(parts[1..], c)
  }

  lemma {:induction false} PartsHaveNoSeparator(s: string, c: char)
    ensures forall part :: part in SplitOn(s, c) ==> c !in part
  {
    if s != "" {
      PartsHaveNoSeparator(s[1..], c);
      var rest := SplitOn(s[1..], c);
      assert rest[0] in rest;
    }
  }

  lemma {:induction false} SplitWithoutSeparator(s: string, c: char)
    requires c !in s
    ensures SplitOn(s, c) == [s]
  {
    if s != "" {
      SplitWithoutSeparator(s[1..], c);
      assert [s[0]] + s[1..] == s;
    }
  }

  lemma {:induction false} SplitAtSeparator(s: string, c: char, t: string)
    ensures SplitOn(s + [c] + t, c) == SplitOn(s, c) + SplitOn(t, c)
  {
    var whole := s + [c] + t;
    if s == "" {
      assert whole[1..] == t;
    } else {
      SplitAtSeparator(s[1..], c, t);
      assert whole[1..] == s[1..] + [c] + t && whole[0] == s[0];
      PrependConcat(s[0], c, SplitOn(s[1..], c), SplitOn(t, c));
    }
  }

  /** What the first character does to the split of the remaining ones. */
  function Prepend(x: char, c: char, rest: seq<string>): seq<string> {
    if rest == [] then []
    else if x == c then [""] + rest else [[x] + rest[0]] + rest[1..]
  }

  lemma PrependConcat(x: char, c: char, rest: seq<string>, more: seq<string>)
    requires rest != []
    ensures Prepend(x, c, rest + more) == Prepend(x, c, rest) + more
  {
    assert (rest + more)[1..] == rest[1..] + more;
  }

  /** Splitting undoes joining, for parts that do not hold the separator. */
  lemma {:induction false} SplitOfJoin(parts: seq<string>, c: char)
    requires parts != [] && forall part :: part in parts ==> c !in part
    ensures SplitOn(Join(parts, c), c) == parts
    decreases |parts|
  {
    SplitWithoutSeparator(parts[0], c);
    if |parts| <= 1 {
    } else {
      SplitOfJoin(parts[1..], c);
      SplitAtSeparator(parts[0], c, Join(parts[1..], c));
    }
  }

  /** The first position at which `sub` occurs in s. */
  function Find(s: string, sub: string): Option<nat> {
    if |sub| <= |s| && s[..|sub|] == sub then Some(0)
    else if s == "" then None
    else match Find(s[1..], sub) case None => None case Some(i) => Some(i + 1)
  }

  lemma {:induction false} FindInside(s: string, sub: string)
    ensures Find(s, sub).Some? ==> Find(s, sub).value + |sub| <= |s|
  {
    if s != "" { FindInside(s[1..], sub); }
  }

  /** sub stands in s at position i. */
  predicate Occurs(s: string, sub: string, i: nat) {
    i + |sub| <= |s| && forall k :: 0 <= k < |sub| ==> s[i + k] == sub[k]
  }

  /** The first occurrence is found, if there is one. */
  lemma {:induction false} FindIsFirst(s: string, sub: string)
    ensures match Find(s, sub)
      case None => forall i: nat :: !Occurs(s, sub, i)
      case Some(at) => Occurs(s, sub, at) && forall i: nat :: i < at ==> !Occurs(s, sub, i)
    decreases |s|
  {
    if s == "" {
    } else {
      FindIsFirst(s[1..], sub);
      OccursAtStart(s, sub);
      forall i: nat | i > 0 ensures Occurs(s, sub, i) <==> Occurs(s[1..], sub, i - 1) { OccursLater(s, sub, i); }
    }
  }

  lemma OccursAtStart(s: string, sub: string)
    ensures Occurs(s, sub, 0) <==> |sub| <= |s| && s[..|sub|] == sub
  {
    if Occurs(s, sub, 0) {
      assert forall k :: 0 <= k < |sub| ==> s[0 + k] == s[..|sub|][k];
    }
  }

  lemma OccursLater(s: string, sub: string, i: nat)
    requires s != "" && i > 0
    ensures Occurs(s, sub, i) <==> Occurs(s[1..], sub, i - 1)
  {
    assert forall j :: 0 < j < |s| ==> s[1..][j - 1] == s[j];
  }
}
