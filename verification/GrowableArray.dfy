/** The growable array, slot by slot: which slots of the block hold a constructed element. */
module GrowableArrays {
  import opened Prelude

  /** Raw memory, an element, or an element that was moved from and still has to be destroyed. */
  datatype Slot<+T> = Raw | Live(value: T) | MovedFrom

  function Lives<T>(xs: seq<T>): seq<Slot<T>> {
    seq(|xs|, i requires 0 <= i < |xs| => Live(xs[i]))
  }

  function Repeat<T>(n: nat, x: T): seq<Slot<T>> {
    seq(n, _ => Live(x))
  }

  function MovedOut<T>(n: nat): seq<Slot<T>> {
    seq(n, _ => MovedFrom)
  }

  /** The element at n replaced by the last one, which leaves its place. */
  function RemoveSwap<T>(s: seq<T>, n: nat): seq<T>
    requires n < |s|
  {
    var last := |s| - 1;
    if n == last then s[..last] else s[..n] + [s[last]] + s[n + 1..last]
  }

  /** `remove` takes out exactly the nth element; only the last one changes place. */
  lemma RemoveSwapTakesOne<T>(s: seq<T>, n: nat)
    requires n < |s|
    ensures var t := RemoveSwap(s, n);
      && |t| == |s| - 1
      && multiset(t) + multiset{s[n]} == multiset(s)
      && forall i :: 0 <= i < |t| && i != n ==> t[i] == s[i]
  {
    RemoveSwapKeepsOthers(s, n);
    RemoveSwapTakesNth(s, n);
  }

  lemma RemoveSwapKeepsOthers<T>(s: seq<T>, n: nat)
    requires n < |s|
    ensures var t := RemoveSwap(s, n);
      |t| == |s| - 1 && forall i :: 0 <= i < |t| && i != n ==> t[i] == s[i]
  {
  }

  lemma RemoveSwapTakesNth<T>(s: seq<T>, n: nat)
    requires n < |s|
    ensures multiset(RemoveSwap(s, n)) + multiset{s[n]} == multiset(s)
  {
    var last := |s| - 1;
    if n == last {
      LastTaken(s, s[..n], s[n]);
    } else {
      MiddleTaken(s, s[..n], s[n], s[n + 1..last], s[last]);
    }
  }

  lemma LastTaken<T>(whole: seq<T>, before: seq<T>, x: T)
    requires whole == before + [x]
    ensures multiset(before) + multiset{x} == multiset(whole)
  {
  }

  lemma MiddleTaken<T>(whole: seq<T>, before: seq<T>, x: T, after: seq<T>, y: T)
    requires whole == before + [x] + after + [y]
    ensures multiset(before + [y] + after) + multiset{x} == multiset(whole)
  {
    assert multiset(before + [y] + after) == multiset(before) + multiset{y} + multiset(after);
    assert multiset(whole) == multiset(before) + multiset{x} + multiset(after) + multiset{y};
  }

  lemma RemoveSwapInPlace<T>(s: seq<T>, last: nat, n: nat, hole: T)
    requires n < last < |s|
    ensures s[n := s[last]][last := hole][..last] == RemoveSwap(s[..last + 1], n)
  {
  }

  // ---------------------------------------------------------------- the cost of appending

  function Grown(cap: nat): nat { cap + cap / 2 + 1 }

  /** Capacity and relocations after n single appends to an empty array. */
  function AfterAppends(n: nat): (nat, nat) {
    if n == 0 then (0, 0)
    else
      var (cap, moved) := AfterAppends(n - 1);
      if cap == n - 1 then (Grown(cap), moved + (n - 1)) else (cap, moved)
  }

  lemma {:induction false} AppendsAreAmortised(n: nat)
    requires n > 0
    ensures var (cap, moved) := AfterAppends(n);
      && n <= cap && 2 * cap <= 3 * n
      && moved <= 2 * cap - 2 && moved < 3 * n
  {
    if n <= 1 {
    } else {
      AppendsAreAmortised(n - 1);
    }
  }

  /** Capacity and relocations after n emplacements into an empty array. */
  function AfterEmplaces(n: nat): (nat, nat) {
    if n == 0 then (0, 0)
    else
      var (cap, moved) := AfterEmplaces(n - 1);
      if cap < n then (n, moved + (n - 1)) else (cap, moved)
  }

  /** `emplace` asks for one more slot each time: its cost is not amortised. */
  lemma {:induction false} EmplacesAreQuadratic(n: nat)
    ensures AfterEmplaces(n).0 == n && 2 * AfterEmplaces(n).1 == n * (n - 1)
  {
    if n == 0 {
    } else {
      EmplacesAreQuadratic(n - 1);
    }
  }

  /** A range of elements outside the array, or n of its own from a position on. */
  datatype Range<+T> = Foreign(src: seq<Slot<T>>) | Own(from: nat, n: nat)

  class Array<T> {
    var cap: nat
    var size: nat
    var p: array?<Slot<T>>
    /** How many elements reallocations have carried over. */
    ghost var relocated: nat

    /** Exactly the slots below `size` hold constructed elements. */
    ghost predicate Valid()
      reads this, p
    {
      && (if p == null then cap == 0 else p.Length == cap)
      && size <= cap
      && (forall i :: 0 <= i < size ==> !p[i].Raw?)
      && (forall i :: size <= i < cap ==> p[i].Raw?)
    }

    ghost function Contents(): seq<Slot<T>>
      requires Valid()
      reads this, p
    {
      if p == null then [] else p[..size]
    }

    /** The slots, spelled out: the contents are constructed and nothing else is. */
    lemma SlotsAre()
      requires Valid()
      ensures p == null ==> size == cap == 0 && Contents() == []
      ensures p != null ==>
        && size <= cap == p.Length && |Contents()| == size
        && (forall i :: 0 <= i < cap ==> (p[i].Raw? <==> i >= size))
        && (forall i :: 0 <= i < size ==> Contents()[i] == p[i])
    {
    }

    ghost predicate Apart(x: Array<T>)
      reads this, x
    {
      this != x && (p == null || p != x.p)
    }

    constructor ()
      ensures Valid() && Contents() == [] && cap == 0 && p == null && relocated == 0
    {
      cap, size, p, relocated := 0, 0, null, 0;
    }

    constructor WithCapacity(cap: nat)
      ensures Valid() && fresh(p) && Contents() == [] && this.cap == cap && relocated == 0
    {
      this.cap, size, relocated := cap, 0, 0;
      p := new Slot<T>[cap](_ => Raw);
    }

    // ---------------------------------------------------------------- memory

    /** Placement new into raw memory. */
    method Construct(i: nat, v: Slot<T>)
      requires p != null && i < p.Length && p[i].Raw? && !v.Raw?
      modifies p
      ensures p[..] == old(p[..])[i := v]
    {
      p[i] := v;
    }

    method Destruct(i: nat)
      requires p != null && i < p.Length && !p[i].Raw?
      modifies p
      ensures p[..] == old(p[..])[i := Raw]
    {
      p[i] := Raw;
    }

    /** Destroys the elements from beg up to end. */
    method DestructRange(beg: nat, end: nat)
      requires beg < end ==> p != null && end <= p.Length
      requires forall i :: beg <= i < end ==> !p[i].Raw?
      modifies p
      ensures p != null ==> forall i :: 0 <= i < p.Length ==> p[i] == if beg <= i < end then Raw else old(p[i])
    {
      var i := beg;
      while i < end
        invariant if beg < end then beg <= i <= end else i == beg
        invariant p != null ==> forall j :: 0 <= j < p.Length ==> p[j] == if beg <= j < i then Raw else old(p[j])
      {
        Destruct(i);
        i := i + 1;
      }
    }

    /** Copies n slots of the block, from `from` to the raw slots at `to`. */
    method CopyWithin(to: nat, from: nat, n: nat)
      requires n > 0 ==> p != null && to + n <= p.Length && from + n <= to
      requires forall i :: from <= i < from + n ==> !p[i].Raw?
      requires forall i :: to <= i < to + n ==> p[i].Raw?
      modifies p
      ensures p != null ==> forall i :: 0 <= i < p.Length ==>
        p[i] == if to <= i < to + n then old(p[i - to + from]) else old(p[i])
    {
      for i := 0 to n
        invariant p != null ==> forall j :: 0 <= j < p.Length ==>
          p[j] == if to <= j < to + i then old(p[j - to + from]) else old(p[j])
      {
        Construct(to + i, p[from + i]);
      }
    }

    /** Copies elements from elsewhere to the raw slots at `to`. */
    method CopyFrom(to: nat, src: seq<Slot<T>>)
      requires src != [] ==> p != null && to + |src| <= p.Length
      requires forall i :: 0 <= i < |src| ==> !src[i].Raw?
      requires forall i :: to <= i < to + |src| ==> p[i].Raw?
      modifies p
      ensures p != null ==> forall i :: 0 <= i < p.Length ==>
        p[i] == if to <= i < to + |src| then src[i - to] else old(p[i])
    {
      for i := 0 to |src|
        invariant p != null ==> forall j :: 0 <= j < p.Length ==>
          p[j] == if to <= j < to + i then src[j - to] else old(p[j])
      {
        Construct(to + i, src[i]);
      }
    }

    /** Moves all elements of x to the raw slots at `to`. */
    method MoveFrom(to: nat, x: Array<T>)
      requires x.Valid() && Apart(x)
      requires x.size > 0 ==> p != null && to + x.size <= p.Length
      requires forall i :: to <= i < to + x.size ==> p[i].Raw?
      modifies p, x.p
      ensures p != null ==> forall i :: 0 <= i < p.Length ==>
        p[i] == if to <= i < to + x.size then old(x.p[i - to]) else old(p[i])
      ensures x.Valid() && x.Contents() == MovedOut(x.size)
    {
      for i := 0 to x.size
        invariant p != null ==> forall j :: 0 <= j < p.Length ==>
          p[j] == if to <= j < to + i then old(x.p[j - to]) else old(p[j])
        invariant x.p != null ==> forall j :: 0 <= j < x.p.Length ==> x.p[j] == if j < i then MovedFrom else old(x.p[j])
      {
        Construct(to + i, x.p[i]);
        x.p[i] := MovedFrom;
      }
    }

    /** realloc: a larger block with the old contents. */
    method Reallocate(n: nat)
      requires Valid() && cap <= n
      modifies this`p, this`cap, this`relocated
      ensures Valid() && fresh(p) && cap == n && Contents() == old(Contents())
      ensures relocated == old(relocated) + size
    {
      var old_p, old_cap := p, cap;
      p := new Slot<T>[n](i requires 0 <= i reads this, old_p =>
        if i < old_cap && old_p != null && i < old_p.Length then old_p[i] else Raw);
      cap := n;
      relocated := relocated + size;
    }

    method Reserve(n: nat)
      requires Valid()
      modifies this`p, this`cap, this`relocated
      ensures Valid() && Contents() == old(Contents())
      ensures cap == (if old(cap) < n then n else old(cap)) && (p == old(p) || fresh(p))
      ensures relocated == old(relocated) + if old(cap) < n then size else 0
    {
      if cap < n {
        Reallocate(n);
      }
    }

    // ---------------------------------------------------------------- operations

    method Append(x: T)
      requires Valid()
      modifies this, p
      ensures Valid() && Contents() == old(Contents()) + [Live(x)]
      ensures p == old(p) || fresh(p)
      ensures old((cap, relocated)) == AfterAppends(old(size)) ==> (cap, relocated) == AfterAppends(size)
      ensures cap == if old(cap) == old(size) then old(cap) + old(cap) / 2 + 1 else old(cap)
    {
      ghost var all := Contents() + [Live(x)];
      if cap == size {
        Reallocate(Grown(cap));
      }
      Construct(size, Live(x));
      size := size + 1;
      forall i | 0 <= i < size ensures p[i] == all[i] {}
    }

    /** Appends the elements of a range one by one. */
    method AppendEach(xs: seq<T>)
      requires Valid()
      modifies this, p
      ensures Valid() && Contents() == old(Contents()) + Lives(xs)
      ensures p == old(p) || fresh(p)
      ensures old((cap, relocated)) == AfterAppends(old(size)) ==> (cap, relocated) == AfterAppends(size)
    {
      for i := 0 to |xs|
        invariant Valid() && Contents() == old(Contents()) + Lives(xs[..i])
        invariant p == old(p) || fresh(p)
        invariant old((cap, relocated)) == AfterAppends(old(size)) ==> (cap, relocated) == AfterAppends(size)
      {
        assert Lives(xs[..i + 1]) == Lives(xs[..i]) + [Live(xs[i])];
        ConcatAssociative(old(Contents()), Lives(xs[..i]), [Live(xs[i])]);
        Append(xs[i]);
      }
      assert xs[..|xs|] == xs;
    }

    /** n copies of x. */
    method AppendFill(n: nat, x: T)
      requires Valid()
      modifies this, p
      ensures Valid() && Contents() == old(Contents()) + Repeat(n, x)
      ensures size == old(size) + n && forall i :: old(size) <= i < size ==> p[i] == Live(x)
      ensures p == old(p) || fresh(p)
    {
      Reserve(size + n);
      CopyFrom(size, Repeat(n, x));
      size := size + n;
    }

    /** Elements that lie outside this array. */
    method AppendFrom(src: seq<Slot<T>>)
      requires Valid() && forall i :: 0 <= i < |src| ==> !src[i].Raw?
      modifies this, p
      ensures Valid() && Contents() == old(Contents()) + src
      ensures p == old(p) || fresh(p)
    {
      Reserve(size + |src|);
      CopyFrom(size, src);
      size := size + |src|;
    }

    /** n of the array's own elements, from position `from` on. */
    method AppendOwn(from: nat, n: nat)
      requires Valid() && from + n <= size
      modifies this, p
      ensures Valid() && Contents() == old(Contents()) + old(Contents())[from..from + n]
      ensures p == old(p) || fresh(p)
    {
      Reserve(size + n);
      AppendOwnInPlace(from, n);
    }

    method AppendOwnInPlace(from: nat, n: nat)
      requires Valid() && from + n <= size && size + n <= cap
      modifies this`size, p
      ensures Valid() && Contents() == old(Contents()) + old(Contents())[from..from + n]
    {
      ghost var all := Contents() + Contents()[from..from + n];
      CopyWithin(size, from, n);
      size := size + n;
      forall i | 0 <= i < size ensures p[i] == all[i] {}
    }

    /** append(x), where x may be this array. */
    method AppendArray(x: Array<T>)
      requires Valid() && x.Valid() && (x == this || Apart(x))
      modifies this, p
      ensures Valid() && Contents() == old(Contents()) + old(x.Contents())
      ensures p == old(p) || fresh(p)
    {
      if x != this {
        AppendFrom(if x.p == null then [] else x.p[..x.size]);
      } else {
        AppendOwn(0, size);
      }
    }

    /** append of a moved array: its elements are carried over and stay behind moved-from. */
    method AppendMoved(x: Array<T>)
      requires Valid() && x.Valid() && (x == this || Apart(x))
      modifies this, p, x.p
      ensures Valid() && Contents() == old(Contents()) + old(x.Contents())
      ensures p == old(p) || fresh(p)
      ensures x != this ==> x.Valid() && x.Contents() == MovedOut(old(x.size))
      ensures x != this ==> x.size == old(x.size) && forall i :: 0 <= i < x.size ==> x.p[i] == MovedFrom
    {
      if x != this {
        Reserve(size + x.size);
        AppendMovedInto(x);
      } else {
        AppendOwn(0, size);
      }
    }

    method AppendMovedInto(x: Array<T>)
      requires Valid() && x.Valid() && Apart(x) && size + x.size <= cap
      modifies this`size, p, x.p
      ensures Valid() && Contents() == old(Contents()) + old(x.Contents())
      ensures x.Valid() && x.Contents() == MovedOut(old(x.size))
      ensures x.size == old(x.size) && forall i :: 0 <= i < x.size ==> x.p[i] == MovedFrom
    {
      ghost var all := Contents() + x.Contents();
      MoveFrom(size, x);
      size := size + x.size;
      forall i | 0 <= i < size ensures p[i] == all[i] {}
      forall i | 0 <= i < x.size ensures x.p[i] == MovedFrom { assert x.p[i] == x.Contents()[i]; }
    }

    /** Like the append of a range, but the range may lie within the array. */
    method SafeAppend(range: Range<T>)
      requires Valid()
      requires match range
        case Foreign(src) => forall i :: 0 <= i < |src| ==> !src[i].Raw?
        case Own(from, n) => from < size && from + n <= size
      modifies this, p
      ensures Valid() && Contents() == old(Contents()) +
        match range case Foreign(src) => src case Own(from, n) => old(Contents())[from..from + n]
      ensures p == old(p) || fresh(p)
    {
      match range
      case Foreign(src) => AppendFrom(src);
      case Own(from, n) => AppendOwn(from, n);
    }

    method Emplace(x: T)
      requires Valid()
      modifies this, p
      ensures Valid() && Contents() == old(Contents()) + [Live(x)]
      ensures p == old(p) || fresh(p)
      ensures old((cap, relocated)) == AfterEmplaces(old(size)) ==> (cap, relocated) == AfterEmplaces(size)
    {
      Reserve(size + 1);
      Construct(size, Live(x));
      size := size + 1;
    }

    method PopBack() returns (x: Slot<T>)
      requires Valid() && size > 0
      modifies this, p
      ensures Valid() && old(Contents()) == Contents() + [x] && p == old(p) && cap == old(cap)
    {
      size := size - 1;
      x := p[size];
      p[size] := MovedFrom;
      Destruct(size);
    }

    method RemoveBack()
      requires Valid() && size > 0
      modifies this, p
      ensures Valid() && Contents() == old(Contents())[..old(size) - 1] && p == old(p) && cap == old(cap)
    {
      size := size - 1;
      Destruct(size);
    }

    /** Replaces the nth element by the last one. */
    method SwapInLast(n: nat)
      requires Valid() && n < size - 1
      modifies this`size, p
      ensures Valid() && Contents() == RemoveSwap(old(Contents()), n)
    {
      ghost var was := p[..];
      Destruct(n);
      size := size - 1;
      Construct(n, p[size]);
      p[size] := MovedFrom;
      Destruct(size);
      assert p[..] == was[n := was[size]][size := Raw];
      RemoveSwapInPlace(was, size, n, Raw);
    }

    method Remove(n: nat)
      requires Valid()
      modifies this, p
      ensures Valid() && p == old(p) && cap == old(cap)
      ensures Contents() == if n < old(size) then RemoveSwap(old(Contents()), n) else old(Contents())
    {
      if n < size {
        if n != size - 1 {
          SwapInLast(n);
        } else {
          RemoveBack();
        }
      }
    }

    /** Shrinking destroys the surplus. Growing constructs nothing: only shrinking leaves an
        array whose slots below `size` are all constructed. */
    method Resize(n: nat)
      requires Valid()
      modifies this, p
      ensures size == n && (p == old(p) || fresh(p))
      ensures Valid() <==> n <= old(size)
      ensures n <= old(size) ==> Contents() == old(Contents())[..n]
      ensures n > old(size) ==> p != null && n <= p.Length && p[..n] == old(Contents()) + seq(n - old(size), _ => Raw)
    {
      ghost var was := Contents();
      Reserve(n);
      DestructRange(n, size);
      size := n;
      if n <= old(size) {
        Shrunk(was, n);
      } else {
        Grew(was, n);
      }
    }

    /** After the surplus has been destroyed. */
    lemma Shrunk(was: seq<Slot<T>>, n: nat)
      requires size == n <= |was| && (if p == null then cap == 0 else p.Length == cap) && |was| <= cap
      requires forall i :: 0 <= i < |was| ==> !was[i].Raw?
      requires forall i :: 0 <= i < cap ==> p[i] == if i < n then was[i] else Raw
      ensures Valid() && Contents() == was[..n]
    {
    }

    /** After the size alone has grown. */
    lemma Grew(was: seq<Slot<T>>, n: nat)
      requires |was| < size == n <= cap && p != null && p.Length == cap
      requires forall i :: 0 <= i < n ==> p[i] == if i < |was| then was[i] else Raw
      ensures !Valid() && p[..n] == was + seq(n - |was|, _ => Raw)
    {
      assert p[|was|].Raw?;
    }

    method Clear()
      requires Valid()
      modifies this, p
      ensures Valid() && Contents() == [] && p == old(p) && cap == old(cap)
    {
      DestructRange(0, size);
      size := 0;
    }

    /** The block is given back; every element must have been destroyed before. */
    method Free()
      requires p != null && forall i :: 0 <= i < p.Length ==> p[i].Raw?
      modifies this`p
      ensures p == null
    {
      p := null;
    }

    /** Every element of a block has been destroyed. */
    static ghost predicate Destroyed(block: array<Slot<T>>)
      reads block
    {
      forall i :: 0 <= i < block.Length ==> block[i].Raw?
    }

    method Reset()
      requires Valid()
      modifies this, p
      ensures Valid() && p == null && cap == size == 0
      ensures old(p) != null ==> Destroyed(old(p))
    {
      if p != null {
        DestructRange(0, size);
        Free();
        cap, size := 0, 0;
      }
    }

    method Assign(x: Array<T>)
      requires Valid() && x.Valid() && (x == this || Apart(x))
      modifies this, p
      ensures Valid() && Contents() == old(x.Contents())
      ensures x != this ==> x.Valid() && x.Contents() == old(x.Contents()) && Apart(x)
      ensures x != this && old(p) != null ==> Destroyed(old(p))
    {
      if x != this {
        Reset();
        cap, size := x.size, x.size;
        p := new Slot<T>[cap](_ => Raw);
        CopyFrom(0, if x.p == null then [] else x.p[..x.size]);
      }
    }

    method AssignMoved(x: Array<T>)
      requires Valid() && x.Valid() && (x == this || Apart(x))
      modifies this, p, x
      ensures Valid() && Contents() == old(x.Contents())
      ensures x != this ==> x.Valid() && x.Contents() == [] && Apart(x)
      ensures x != this && old(p) != null ==> Destroyed(old(p))
    {
      if x != this {
        Reset();
        cap, size, p := x.cap, x.size, x.p;
        x.p := null;
        x.cap, x.size := 0, 0;
      }
    }

    method Swap(x: Array<T>)
      requires Valid() && x.Valid() && (x == this || Apart(x))
      modifies this, x
      ensures Valid() && x.Valid() && (x == this || Apart(x))
      ensures Contents() == old(x.Contents()) && x.Contents() == old(Contents())
    {
      cap, x.cap := x.cap, cap;
      size, x.size := x.size, size;
      p, x.p := x.p, p;
    }
  }

  /** An array built by appending n elements to an empty one has relocated fewer than 3n
      elements and reserved at most half as many slots again as it needs. */
  method BuildByAppends<T>(xs: seq<T>) returns (a: Array<T>)
    requires xs != []
    ensures fresh(a) && a.Valid() && a.Contents() == Lives(xs)
    ensures a.size == |xs| && forall i :: 0 <= i < |xs| ==> a.p[i] == Live(xs[i])
    ensures a.relocated < 3 * |xs| && 2 * a.cap <= 3 * |xs|
  {
    a := new Array<T>();
    a.AppendEach(xs);
    AppendsAreAmortised(|xs|);
  }
}
