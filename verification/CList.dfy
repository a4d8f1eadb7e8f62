/** The intrusive doubly linked list. `head.prev` is the last node and the last node's `next`
    is null; nodes belong to the caller. */
module CLists {
  import opened Prelude

  class Link {
    var next: Link?
    var prev: Link?

    constructor ()
      ensures next == null && prev == null
    {
      next, prev := null, null;
    }
  }

  /** s without the node at position i. */
  function RemoveAt<T>(s: seq<T>, i: nat): seq<T>
    requires i < |s|
  {
    s[..i] + s[i + 1..]
  }

  function ToFront<T>(s: seq<T>, i: nat): seq<T>
    requires i < |s|
  {
    [s[i]] + RemoveAt(s, i)
  }

  function ToBack<T>(s: seq<T>, i: nat): seq<T>
    requires i < |s|
  {
    RemoveAt(s, i) + [s[i]]
  }

  lemma RemoveAtAt<T>(s: seq<T>, i: nat)
    requires i < |s| && NoDup(s)
    ensures var t := RemoveAt(s, i);
      && |t| == |s| - 1 && NoDup(t)
      && (forall j :: 0 <= j < i ==> t[j] == s[j])
      && (forall j :: i <= j < |t| ==> t[j] == s[j + 1])
  {
  }

  lemma ToFrontAt<T>(s: seq<T>, i: nat)
    requires i < |s| && NoDup(s)
    ensures var t := ToFront(s, i);
      && |t| == |s| && NoDup(t) && t[0] == s[i]
      && (forall j :: 0 < j <= i ==> t[j] == s[j - 1])
      && (forall j :: i < j < |t| ==> t[j] == s[j])
  {
  }

  lemma ToBackAt<T>(s: seq<T>, i: nat)
    requires i < |s| && NoDup(s)
    ensures var t := ToBack(s, i);
      && |t| == |s| && NoDup(t) && t[|s| - 1] == s[i]
      && (forall j :: 0 <= j < i ==> t[j] == s[j])
      && (forall j :: i <= j < |t| - 1 ==> t[j] == s[j + 1])
  {
  }

  ghost function NextIn(s: seq<Link>, i: int): Link?
    requires 0 <= i < |s|
  {
    if i + 1 < |s| then s[i + 1] else null
  }

  ghost function PrevIn(s: seq<Link>, i: int): Link
    requires 0 <= i < |s|
  {
    if i > 0 then s[i - 1] else s[|s| - 1]
  }

  /** Both fields of every node are fixed by its position. */
  ghost predicate Linked(s: seq<Link>)
    reads s
  {
    && (forall i {:trigger s[i].next} :: 0 <= i < |s| ==> s[i].next == NextIn(s, i))
    && (forall i {:trigger s[i].prev} :: 0 <= i < |s| ==> s[i].prev == PrevIn(s, i))
  }

  /** s with the node at position i unlinked. */
  lemma LinkedWithout(s: seq<Link>, i: nat)
    requires NoDup(s) && i < |s|
    requires i > 0 ==> s[i - 1].next == NextIn(s, i) && s[0].prev == s[if i == |s| - 1 then i - 1 else |s| - 1]
    requires i + 1 < |s| ==> s[i + 1].prev == PrevIn(s, i)
    requires forall j {:trigger s[j].next} :: 0 <= j < |s| && j != i - 1 && j != i ==> s[j].next == NextIn(s, j)
    requires forall j {:trigger s[j].prev} :: 0 < j < |s| && j != i + 1 && j != i ==> s[j].prev == s[j - 1]
    ensures NoDup(RemoveAt(s, i)) && Linked(RemoveAt(s, i))
  {
    RemoveAtAt(s, i);
    var t := RemoveAt(s, i);
    forall j | 0 <= j < |t| ensures t[j].next == NextIn(t, j) && t[j].prev == PrevIn(t, j) {
      if j < i { assert t[j] == s[j]; } else { assert t[j] == s[j + 1]; }
    }
  }

  /** The fields after the node at position i (not the first) has been put in front of s. */
  ghost predicate RelinkedFront(s: seq<Link>, i: nat)
    reads s
  {
    && 0 < i < |s|
    && s[i].next == s[0] && s[i].prev == s[if i == |s| - 1 then i - 1 else |s| - 1]
    && s[i - 1].next == NextIn(s, i) && (i + 1 < |s| ==> s[i + 1].prev == s[i - 1])
    && s[0].prev == s[i]
    && (forall j {:trigger s[j].next} :: 0 <= j < |s| && j != i - 1 && j != i ==> s[j].next == NextIn(s, j))
    && (forall j {:trigger s[j].prev} :: 0 < j < |s| && j != i + 1 && j != i ==> s[j].prev == s[j - 1])
  }

  lemma LinkedToFront(s: seq<Link>, i: nat)
    requires NoDup(s) && 0 < i < |s| && RelinkedFront(s, i)
    ensures NoDup(ToFront(s, i)) && Linked(ToFront(s, i))
  {
    ToFrontAt(s, i);
    var t := ToFront(s, i);
    forall j | 0 <= j < |t| ensures t[j].next == NextIn(t, j) && t[j].prev == PrevIn(t, j) {
      if j > i { assert t[j] == s[j]; } else if j > 0 { assert t[j] == s[j - 1]; }
    }
  }

  /** The fields after the node at position i (not the last) has been put behind s. */
  ghost predicate RelinkedBack(s: seq<Link>, i: nat)
    reads s
  {
    && i < |s| - 1
    && s[i].next == null && s[i].prev == s[|s| - 1] && s[|s| - 1].next == s[i]
    && (if i == 0 then s[1].prev == s[0]
        else s[i - 1].next == s[i + 1] && s[i + 1].prev == s[i - 1] && s[0].prev == s[i])
    && (forall j {:trigger s[j].next} :: 0 <= j < |s| - 1 && j != i - 1 && j != i ==> s[j].next == s[j + 1])
    && (forall j {:trigger s[j].prev} :: 0 < j < |s| && j != i + 1 && j != i ==> s[j].prev == s[j - 1])
  }

  lemma LinkedToBack(s: seq<Link>, i: nat)
    requires NoDup(s) && i < |s| - 1 && RelinkedBack(s, i)
    ensures NoDup(ToBack(s, i)) && Linked(ToBack(s, i))
  {
    ToBackAt(s, i);
    var t := ToBack(s, i);
    forall j | 0 <= j < |t| ensures t[j].next == NextIn(t, j) && t[j].prev == PrevIn(t, j) {
      if j < i { assert t[j] == s[j]; } else if j < |s| - 1 { assert t[j] == s[j + 1]; }
    }
  }

  class CList {
    var head: Link?
    /** The nodes from front to back. */
    ghost var nodes: seq<Link>

    ghost predicate Valid()
      reads this, nodes
    {
      && NoDup(nodes) && Linked(nodes)
      && head == (if nodes == [] then null else nodes[0])
    }

    /** The chain, spelled out. */
    lemma ChainIs()
      requires Valid()
      ensures head == null <==> nodes == []
      ensures nodes != [] ==>
        && head == nodes[0] && nodes[0].prev == nodes[|nodes| - 1] && nodes[|nodes| - 1].next == null
        && (forall i, j :: 0 <= i < |nodes| && j == i + 1 < |nodes| ==>
              nodes[i].next == nodes[j] && nodes[j].prev == nodes[i])
    {
    }

    constructor ()
      ensures Valid() && nodes == []
    {
      head, nodes := null, [];
    }

    method Front() returns (node: Link?)
      requires Valid()
      ensures node == if nodes == [] then null else nodes[0]
    {
      node := head;
    }

    method Back() returns (node: Link?)
      requires Valid()
      ensures node == if nodes == [] then null else nodes[|nodes| - 1]
    {
      node := if head != null then head.prev else null;
    }

    method PushFront(node: Link)
      requires Valid() && node !in nodes
      modifies this, node, nodes
      ensures Valid() && nodes == [node] + old(nodes)
    {
      if head != null {
        node.next := head;
        node.prev := head.prev;
        head.prev := node;
        head := node;
      } else {
        node.next := null;
        node.prev := node;
        head := node;
      }
      nodes := [node] + nodes;
    }

    method PushBack(node: Link)
      requires Valid() && node !in nodes
      modifies this, node, nodes
      ensures Valid() && nodes == old(nodes) + [node]
    {
      if head != null {
        node.next := null;
        node.prev := head.prev;
        head.prev.next := node;
        head.prev := node;
      } else {
        node.next := null;
        node.prev := node;
        head := node;
      }
      nodes := nodes + [node];
    }

    method Erase(node: Link, ghost at: nat)
      requires Valid() && at < |nodes| && nodes[at] == node
      modifies this, nodes
      ensures Valid() && nodes == RemoveAt(old(nodes), at)
    {
      if node != head {
        node.prev.next := node.next;
        var x := if node.next != null then node.next else head;
        x.prev := node.prev;
      } else {
        head := head.next;
        if head != null { head.prev := node.prev; }
      }
      LinkedWithout(nodes, at);
      nodes := RemoveAt(nodes, at);
    }

    method MoveFront(node: Link, ghost at: nat)
      requires Valid() && at < |nodes| && nodes[at] == node
      modifies this, nodes
      ensures Valid() && nodes == ToFront(old(nodes), at)
    {
      ToFrontAt(nodes, at);
      if node != head {
        RelinkFront(node, at);
        LinkedToFront(nodes, at);
      }
      nodes := ToFront(nodes, at);
    }

    /** The pointers of a move to the front. */
    method RelinkFront(node: Link, ghost at: nat)
      requires Valid() && 0 < at < |nodes| && nodes[at] == node
      modifies this`head, nodes
      ensures head == node && RelinkedFront(nodes, at)
    {
      node.prev.next := node.next;
      if node.next != null {
        node.next.prev := node.prev;
        node.prev := head.prev;
        head.prev := node;
      }
      node.next := head;
      head := node;
    }

    method MoveBack(node: Link, ghost at: nat)
      requires Valid() && at < |nodes| && nodes[at] == node
      modifies this, nodes
      ensures Valid() && nodes == ToBack(old(nodes), at)
    {
      ToBackAt(nodes, at);
      if node != head.prev {
        if node == head {
          RelinkHeadBack(node);
        } else {
          RelinkBack(node, at);
        }
        LinkedToBack(nodes, at);
      }
      nodes := ToBack(nodes, at);
    }

    /** The pointers of a move of the head to the back. */
    method RelinkHeadBack(node: Link)
      requires Valid() && |nodes| > 1 && nodes[0] == node
      modifies this`head, nodes
      ensures head == nodes[1] && RelinkedBack(nodes, 0)
    {
      head := head.next;
      node.prev.next := node;
      node.next := null;
    }

    /** The pointers of a move of an inner node to the back. */
    method RelinkBack(node: Link, ghost at: nat)
      requires Valid() && 0 < at < |nodes| - 1 && nodes[at] == node
      modifies nodes
      ensures RelinkedBack(nodes, at)
    {
      node.prev.next := node.next;
      node.next.prev := node.prev;
      node.prev := head.prev;
      node.next := null;
      head.prev.next := node;
      head.prev := node;
    }

    method Clear()
      modifies this
      ensures Valid() && nodes == []
    {
      head, nodes := null, [];
    }
  }
}
