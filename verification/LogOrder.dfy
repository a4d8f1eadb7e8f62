/** Cell types, the orders in which columns are sorted, and the in-place sort of row indexes. */
module LogOrder {
  import opened Prelude
  import Strings

  datatype DataType = Int | Float | Str | Telephone | Date | Timestamp

  /** The C library's readings of a string: the number it starts with and whether the whole
      string was consumed. A real number stands for what strtof returns; readings that are not
      finite are not modelled. */
  datatype CLib = CLib(strtol: string -> (int, bool), strtof: string -> (real, bool))

  const MIN_TIMESTAMP := 1673503905
  const MAX_TIMESTAMP := 4102415999

  function ParseColumnDataType(c: CLib, cell: string): DataType {
    var (i, whole) := c.strtol(cell);
    if whole then
      if MIN_TIMESTAMP <= i <= MAX_TIMESTAMP then Timestamp
      else if |cell| == 11 && i / 100000000 in {130, 131, 132, 134} then Telephone
      else Int
    else if c.strtof(cell).1 then Float
    else if |cell| == 10 && cell[4] == '-' && cell[7] == '-' then Date
    else Str
  }

  // ---------------------------------------------------------------- float cells

  /** A float cell is valid when it reads as a float and both sides of its at most one dot
      read as integers. */
  predicate ValidFloatStr(c: CLib, cell: string) {
    c.strtof(cell).1 &&
    var parts := Strings.SplitOn(cell, '.');
    |parts| <= 2 && forall i :: 0 <= i < |parts| ==> c.strtol(parts[i]).1
  }

  // ---------------------------------------------------------------- comparators

  /** The comparator by which a column of the given type is sorted. */
  predicate Less(c: CLib, t: DataType, a: string, b: string) {
    match t
    case Int => c.strtol(a).0 < c.strtol(b).0
    case Float => ValidFloatStr(c, a) && ValidFloatStr(c, b) && c.strtof(a).0 < c.strtof(b).0
    case _ => Strings.LexLess(a, b)
  }

  /** What std::sort demands of a comparator on these cells: it is asymmetric, and cells that
      it does not tell apart form classes. */
  ghost predicate Sortable(c: CLib, t: DataType, cells: set<string>) {
    && (forall a, b :: a in cells && b in cells && Less(c, t, a, b) ==> !Less(c, t, b, a))
    && (forall a, b, d {:trigger Less(c, t, a, d), Less(c, t, d, b)} ::
          a in cells && b in cells && d in cells && Less(c, t, a, b) ==> Less(c, t, a, d) || Less(c, t, d, b))
  }

  /** Every comparator but the one for floats meets the demand on all cells; the one for floats
      meets it exactly if all cells are valid or the valid ones are all equal. */
  lemma SortableIff(c: CLib, t: DataType, cells: set<string>)
    ensures Sortable(c, t, cells) <==>
      t.Float? ==>
        (forall a :: a in cells ==> ValidFloatStr(c, a))
        || (forall a, b :: a in cells && b in cells && ValidFloatStr(c, a) && ValidFloatStr(c, b) ==>
          c.strtof(a).0 == c.strtof(b).0)
  {
    match t
    case Int =>
    case Float =>
      if Sortable(c, t, cells) {
        if x :| x in cells && !ValidFloatStr(c, x) {
          forall a, b | a in cells && b in cells && ValidFloatStr(c, a) && ValidFloatStr(c, b)
            ensures c.strtof(a).0 == c.strtof(b).0
          {
            assert !Less(c, t, a, x) && !Less(c, t, x, b) && !Less(c, t, b, x) && !Less(c, t, x, a);
          }
        }
      }
    case _ =>
      forall a, b | a in cells && b in cells && Less(c, t, a, b) ensures !Less(c, t, b, a) {
        Strings.LexLessIsTotal(a, b);
      }
      forall a, b, d | a in cells && b in cells && d in cells && !Less(c, t, a, d) && !Less(c, t, d, b)
        ensures !Less(c, t, a, b)
      {
        Strings.LexLessIsTotal(a, d);
        Strings.LexLessIsTotal(d, b);
        if Strings.LexLess(a, b) && Strings.LexLess(d, a) { Strings.LexLessIsTransitive(d, a, b); }
      }
  }

  /** The library reads these numbers as C does: an exponent or a dot is no part of an integer. */
  predicate ReadsLikeC(c: CLib) {
    && c.strtol("1").1 && c.strtol("2").1 && c.strtol("5").1
    && !c.strtol("1e5").1 && !c.strtol("1.5").1 && !c.strtol("2.5").1
    && c.strtof("1e5") == (100000.0, true) && c.strtof("1.5") == (1.5, true) && c.strtof("2.5") == (2.5, true)
  }

  /** A number with an exponent is a float cell, but no valid one: beside two different valid
      ones the comparator fails the demand. */
  lemma ExponentsAreNotSortable(c: CLib)
    requires ReadsLikeC(c)
    ensures forall cell :: cell in {"1e5", "1.5", "2.5"} ==> ParseColumnDataType(c, cell) == Float
    ensures ValidFloatStr(c, "1.5") && ValidFloatStr(c, "2.5") && !ValidFloatStr(c, "1e5")
    ensures !Sortable(c, Float, {"1e5", "1.5", "2.5"})
  {
    Strings.SplitWithoutSeparator("1e5", '.');
    assert Strings.SplitOn("1e5", '.')[0] == "1e5";
    AroundTheDot("1", "5");
    AroundTheDot("2", "5");
    assert "1" + ['.'] + "5" == "1.5" && "2" + ['.'] + "5" == "2.5";
    assert c.strtof("1.5").0 != c.strtof("2.5").0;
    SortableIff(c, Float, {"1e5", "1.5", "2.5"});
  }

  lemma AroundTheDot(a: string, b: string)
    requires '.' !in a && '.' !in b
    ensures Strings.SplitOn(a + ['.'] + b, '.') == [a, b]
  {
    Strings.SplitAtSeparator(a, '.', b);
    Strings.SplitWithoutSeparator(a, '.');
    Strings.SplitWithoutSeparator(b, '.');
  }

  // ---------------------------------------------------------------- sorting row indexes

  /** idx lists the rows 0 to n - 1, each once. */
  ghost predicate Permutation(idx: seq<nat>, n: nat) {
    && |idx| == n && NoDup(idx)
    && (forall i :: 0 <= i < n ==> idx[i] < n)
  }

  ghost predicate SortedBy(less: (nat, nat) -> bool, idx: seq<nat>) {
    forall i, j :: 0 <= i < j < |idx| ==> !less(idx[j], idx[i])
  }

  /** A comparator that std::sort may be given, on the numbers below n. */
  ghost predicate Ranking(less: (nat, nat) -> bool, n: nat) {
    && (forall a: nat, b: nat :: a < n && b < n && less(a, b) ==> !less(b, a))
    && (forall a: nat, b: nat, d: nat {:trigger less(a, d), less(d, b)} ::
          a < n && b < n && d < n && less(a, b) ==> less(a, d) || less(d, b))
  }

  lemma SwapKeepsPermutation(s: seq<nat>, j: nat, k: nat, n: nat)
    requires Permutation(s, n) && j < n && k < n
    ensures Permutation(s[j := s[k]][k := s[j]], n)
  {
  }

  /** In-place sort of row indexes, standing for std::sort. */
  method SortIndexes(less: (nat, nat) -> bool, a: array<nat>)
    requires Permutation(a[..], a.Length)
    modifies a
    ensures Permutation(a[..], a.Length)
    ensures Ranking(less, a.Length) ==> SortedBy(less, a[..])
  {
    for i := 0 to a.Length
      invariant Permutation(a[..], a.Length)
      invariant Ranking(less, a.Length) ==> SortedBy(less, a[..i])
    {
      Insert(less, a, i);
    }
    assert a[..a.Length] == a[..];
  }

  /** Moves the element at i down to its place among the sorted ones before it. */
  method Insert(less: (nat, nat) -> bool, a: array<nat>, i: nat)
    requires Permutation(a[..], a.Length) && i < a.Length
    modifies a
    ensures Permutation(a[..], a.Length)
    ensures Ranking(less, a.Length) && SortedBy(less, old(a[..i])) ==> SortedBy(less, a[..i + 1])
  {
    ghost var ok := Ranking(less, a.Length) && SortedBy(less, a[..i]);
    var j := i;
    while j > 0 && less(a[j], a[j - 1])
      invariant j <= i && Permutation(a[..], a.Length)
      invariant ok ==> forall p, q :: 0 <= p < q <= i && q != j ==> !less(a[q], a[p])
    {
      SwapKeepsPermutation(a[..], j, j - 1, a.Length);
      ghost var s := a[..];
      a[j], a[j - 1] := a[j - 1], a[j];
      assert a[..] == s[j := s[j - 1]][j - 1 := s[j]];
      j := j - 1;
    }
    if ok {
      forall p | 0 <= p < j ensures !less(a[j], a[p]) {
        assert a[..][j] < a.Length && a[..][p] < a.Length && a[..][j - 1] < a.Length;
        assert !less(a[j], a[j - 1]) && (p < j - 1 ==> !less(a[j - 1], a[p]));
      }
    }
  }

  // ---------------------------------------------------------------- order statistics

  function Range(n: nat): (rows: set<nat>)
    ensures |rows| == n && forall r: nat :: r in rows <==> r < n
  {
    if n == 0 then {} else Range(n - 1) + {n - 1}
  }

  lemma PermutationCovers(idx: seq<nat>, n: nat)
    requires Permutation(idx, n)
    ensures (set r | r in idx) == Range(n)
  {
    var rows := set r | r in idx;
    NoDupSize(idx);
    assert rows <= Range(n);
    SubsetSize(rows, Range(n));
  }

  function RowsBefore(less: (nat, nat) -> bool, n: nat, x: nat): set<nat> {
    set r | r in Range(n) && less(r, x)
  }

  function RowsAfter(less: (nat, nat) -> bool, n: nat, x: nat): set<nat> {
    set r | r in Range(n) && less(x, r)
  }

  /** x has rank k: at most k of n rows come before it and at most n - 1 - k after it. */
  ghost predicate HasRank(less: (nat, nat) -> bool, n: nat, x: nat, k: nat) {
    x < n && k < n && |RowsBefore(less, n, x)| <= k && |RowsAfter(less, n, x)| <= n - 1 - k
  }

  lemma RowsBeforeAreLeft(less: (nat, nat) -> bool, idx: seq<nat>, n: nat, k: nat)
    requires Permutation(idx, n) && Ranking(less, n) && SortedBy(less, idx) && k < n
    ensures forall r :: r in RowsBefore(less, n, idx[k]) ==> r in idx[..k]
    ensures forall r :: r in RowsAfter(less, n, idx[k]) ==> r in idx[k + 1..]
  {
    forall r | r in RowsBefore(less, n, idx[k]) ensures r in idx[..k] {
      var i := PositionOf(idx, n, r);
      assert idx[..k][i] == r;
    }
    forall r | r in RowsAfter(less, n, idx[k]) ensures r in idx[k + 1..] {
      var i := PositionOf(idx, n, r);
      assert idx[k + 1..][i - (k + 1)] == r;
    }
  }

  lemma PositionOf(idx: seq<nat>, n: nat, r: nat) returns (i: nat)
    requires Permutation(idx, n) && r in Range(n)
    ensures i < n && idx[i] == r
  {
    PermutationCovers(idx, n);
    assert r in set x | x in idx;
    i :| i < |idx| && idx[i] == r;
  }

  /** Position k of a sorted index vector holds a row of rank k. */
  lemma OrderStatistic(less: (nat, nat) -> bool, idx: seq<nat>, n: nat, k: nat)
    requires Permutation(idx, n) && Ranking(less, n) && SortedBy(less, idx) && k < n
    ensures HasRank(less, n, idx[k], k)
  {
    RowsBeforeAreLeft(less, idx, n, k);
    var before, after := idx[..k], idx[k + 1..];
    NoDupSize(before);
    NoDupSize(after);
    SubsetSize(RowsBefore(less, n, idx[k]), set r | r in before);
    SubsetSize(RowsAfter(less, n, idx[k]), set r | r in after);
  }
}
