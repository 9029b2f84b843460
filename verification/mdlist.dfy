/** mdlist.h: the same circular doubly linked relinking as dlist.h, written
    as type-generic macros over an entry embedded in the caller's struct.
    The macros check nothing: every pointer they follow must be a node of a
    well-formed ring. A node here is a DList object (its `cont` field plays
    no part), and the list is again a ghost ring `r` whose head r[0] is the
    list struct itself. */
module MdList {
  import opened Seqs
  import opened DList

  /** MDLIST_INIT: the list's entry points at the list itself both ways. */
  method Init(list: DList)
    modifies list`next, list`prev
    ensures list.next == list && list.prev == list
    ensures Ring([list]) && Empty(list)
  {
    list.prev := list;
    list.next := list;
  }

  /** MDLIST_EMPTY: the list's next entry is the list itself. */
  predicate Empty(list: DList)
    reads list
  {
    list.next == list
  }

  /** A list is empty exactly when its ring holds the head alone. */
  lemma EmptyIffNoElements(r: seq<DList>)
    requires Ring(r)
    ensures Empty(r[0]) <==> |r| == 1
  {
    assert r[0].next == r[Succ(0, |r|)];
  }

  /** MDLIST_PUSH_AFTER: src between dst and dst's old successor. */
  method PushAfter(dst: DList, src: DList, ghost r: seq<DList>, ghost k: nat)
    requires Ring(r) && k < |r| && r[k] == dst && src !in r
    modifies {dst, dst.next, src}`next, {dst, dst.next, src}`prev
    ensures Ring(InsertAt(r, k + 1, src))
    ensures dst.next == src && src.prev == dst && src.next == old(dst.next)
  {
    dst.next.prev := src;
    src.next := dst.next;
    dst.next := src;
    src.prev := dst;
    RingInsert(r, k + 1, src);
  }

  /** MDLIST_PUSH_BEFORE: src between dst's old predecessor and dst. */
  method PushBefore(dst: DList, src: DList, ghost r: seq<DList>, ghost k: nat)
    requires Ring(r) && k < |r| && r[k] == dst && src !in r
    modifies {dst, dst.prev, src}`next, {dst, dst.prev, src}`prev
    ensures Ring(InsertAt(r, if k == 0 then |r| else k, src))
    ensures dst.prev == src && src.next == dst && src.prev == old(dst.prev)
  {
    dst.prev.next := src;
    src.prev := dst.prev;
    dst.prev := src;
    src.next := dst;
    RingInsert(r, if k == 0 then |r| else k, src);
  }

  /** MDLIST_POP: target's neighbours are linked to each other and target's
      own links are left as they were. */
  method Pop(target: DList, ghost r: seq<DList>, ghost k: nat)
    requires Ring(r) && k < |r| && r[k] == target
    modifies {target.prev, target.next}`next, {target.prev, target.next}`prev
    ensures target.next == old(target.next) && target.prev == old(target.prev)
    ensures if |r| == 1 then Ring(r) else Ring(Without(r, k))
  {
    assert target.prev == r[Pred(k, |r|)] && target.next == r[Succ(k, |r|)];
    target.prev.next := target.next;
    target.next.prev := target.prev;
    if |r| > 1 {
      RingRemove(r, k);
    }
  }

  /** MDLIST_FOREACH: the nodes visited walking next from list.next until
      the list is met again, which are the elements in order. */
  method Foreach(list: DList, ghost r: seq<DList>) returns (visited: seq<DList>)
    requires Ring(r) && r[0] == list
    ensures visited == r[1..]
  {
    visited := [];
    var node := list.next;
    while node != list
      invariant |visited| < |r| && visited == r[1..|visited| + 1]
      invariant node == r[Succ(|visited|, |r|)]
      decreases |r| - |visited|
    {
      visited := visited + [node];
      node := node.next;
    }
  }

  /** MDLIST_FOREACH_REV: the nodes visited walking prev from list.prev
      until the list is met again, which are the elements backwards. */
  method ForeachRev(list: DList, ghost r: seq<DList>) returns (visited: seq<DList>)
    requires Ring(r) && r[0] == list
    ensures visited == Reversed(r)[1..]
  {
    visited := [];
    var node := list.prev;
    ghost var i := |r| - 1;
    while node != list
      invariant 0 <= i < |r| && i == |r| - 1 - |visited|
      invariant node == r[i]
      invariant forall p {:trigger visited[p]} :: 0 <= p < |visited| ==> visited[p] == r[|r| - 1 - p]
      decreases i
    {
      visited := visited + [node];
      node := node.prev;
      i := i - 1;
    }
    ghost var t := Reversed(r);
    assert forall p {:trigger visited[p]} :: 0 <= p < |visited| ==> visited[p] == t[p + 1];
  }

  /** One step of the usage loop: pops the first element of the list
      [list] + rest and returns its next link, the following element or the
      list itself. */
  method PopFirst(list: DList, node: DList, ghost rest: seq<DList>) returns (following: DList?)
    requires Ring([list] + rest) && |rest| >= 1 && node == rest[0]
    modifies ([list] + rest)`next, ([list] + rest)`prev
    ensures Ring([list] + rest[1..])
    ensures following == if |rest| == 1 then list else rest[1]
  {
    ghost var ring := [list] + rest;
    assert ring[1] == node && node.next == ring[Succ(1, |ring|)] && node.prev == ring[0];
    Pop(node, ring, 1);
    following := node.next;
    assert Without(ring, 1) == [list] + rest[1..];
  }

  /** The usage loop of the header: it pops every node it visits and then
      steps to the popped node's next, which its own links still give. The
      nodes come out in order and the list ends up empty. */
  method PopEach(list: DList, ghost r: seq<DList>) returns (visited: seq<DList>)
    requires Ring(r) && r[0] == list
    modifies r`next, r`prev
    ensures visited == r[1..]
    ensures list.next == list && list.prev == list
  {
    visited := [];
    var node := list.next;
    ghost var i := 1;
    assert [list] + r[1..] == r;
    while node != list
      invariant 1 <= i <= |r| && |visited| == i - 1
      invariant forall p {:trigger visited[p]} :: 0 <= p < |visited| ==> visited[p] == r[p + 1]
      invariant Ring([list] + r[i..])
      invariant node == if i == |r| then list else r[i]
      decreases |r| - i
    {
      assert r[i..][0] == node && r[i..][1..] == r[i + 1..];
      var following := PopFirst(list, node, r[i..]);
      visited := visited + [node];
      node := following;
      i := i + 1;
    }
    assert [list] + r[i..] == [list];
    assert visited == r[1..];
    assert [list][0].next == [list][0] && [list][0].prev == [list][0];
  }

  /** MDLIST_PUSH_BEFORE on the list head for each of nodes in turn: every
      push lands just before the head, at the back, so the nodes end up
      appended in the order they were pushed. */
  method PushAllBefore(list: DList, nodes: seq<DList>, ghost r: seq<DList>)
    requires Ring(r) && r[0] == list && Distinct(nodes) && Disjoint(r, nodes)
    modifies r`next, r`prev, nodes`next, nodes`prev
    ensures Ring(r + nodes)
  {
    var i := 0;
    ghost var ring := r;
    while i < |nodes|
      invariant i <= |nodes|
      invariant ring == r + nodes[..i]
      invariant Ring(ring)
      decreases |nodes| - i
    {
      assert ring[0] == list && list.prev == ring[Pred(0, |ring|)];
      assert nodes[i] !in ring by {
        forall p | 0 <= p < |ring|
          ensures ring[p] != nodes[i]
        {
          if p >= |r| {
            assert ring[p] == nodes[p - |r|];
          }
        }
      }
      PushBefore(list, nodes[i], ring, 0);
      assert InsertAt(ring, |ring|, nodes[i]) == r + nodes[..i + 1];
      ring := InsertAt(ring, |ring|, nodes[i]);
      i := i + 1;
    }
    assert nodes[..i] == nodes;
  }

  /** The usage example of the header: a, b and c pushed before a fresh
      list are visited as a, b, c, which is why it prints 0, 1, 2. */
  method UsageExample() returns (visited: seq<DList>, a: DList, b: DList, c: DList)
    ensures visited == [a, b, c]
  {
    var list := new DList.Alloc();
    Init(list);
    a := new DList.Alloc();
    b := new DList.Alloc();
    c := new DList.Alloc();
    PushAllBefore(list, [a, b, c], [list]);
    assert [list] + [a, b, c] == [list, a, b, c];
    visited := Foreach(list, [list, a, b, c]);
  }
}
