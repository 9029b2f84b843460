/** slist.h: an intrusive NULL-terminated singly linked list. A node carries
    `next` and a `cont` pointer to the structure it is embedded in; the list
    head is a node like any other, and its elements are the nodes reached
    from it by `next` until NULL.

    The shape of a list is a ghost sequence `l` of its nodes in `next`
    order, starting at the head: Chain(l) says l[i].next is l[i + 1] and the
    last node's next is NULL. The elements of the list are l[1..]. */
module SList {
  import opened Seqs

  /** struct slist. */
  class SList {
    var next: SList?
    var cont: object?

    /** Storage for a node before slist_init: NULL link, no container. */
    constructor Alloc()
      ensures next == null && cont == null
    {
      next, cont := null, null;
    }
  }

  /** Each node of l but the last has the following node as next. */
  ghost predicate Linked(l: seq<SList>)
    reads l
  {
    forall i {:trigger l[i].next} :: 0 <= i < |l| - 1 ==> l[i].next == l[i + 1]
  }

  /** l lists distinct nodes, each linked to the next, the last to NULL. */
  ghost predicate Chain(l: seq<SList>)
    reads l
  {
    |l| >= 1 && Distinct(l) && Linked(l) && l[|l| - 1].next == null
  }

  /** The successor of l[i] in a chain: l[i + 1], or NULL after the last. */
  ghost function After(l: seq<SList>, i: nat): (s: SList?)
    requires i < |l|
    ensures i + 1 < |l| ==> s == l[i + 1]
    ensures i + 1 == |l| ==> s == null
  {
    if i + 1 < |l| then l[i + 1] else null
  }

  /** slist_init: NULL next and the given container; a one-node chain. */
  method Init(dst: SList, cont: object?) returns (res: SList)
    modifies dst
    ensures res == dst && dst.next == null && dst.cont == cont
    ensures Chain([dst])
  {
    dst.next := null;
    dst.cont := cont;
    res := dst;
  }

  /** Relinking a chain around one new node: if the nodes of l are distinct,
      x is not among them, x sits between l[pos - 1] and that node's old
      successor and every other link of l is still the chain's, then l with
      x inserted at pos is a chain. */
  lemma ChainInsert(l: seq<SList>, pos: nat, x: SList)
    requires Distinct(l) && x !in l && 1 <= pos <= |l|
    requires l[pos - 1].next == x && x.next == After(l, pos - 1)
    requires forall i {:trigger l[i].next} :: 0 <= i < |l| - 1 && i != pos - 1 ==> l[i].next == l[i + 1]
    requires pos < |l| ==> l[|l| - 1].next == null
    ensures Chain(InsertAt(l, pos, x))
  {
    var n, t := |l|, InsertAt(l, pos, x);
    assert Distinct(t) by {
      forall i, j | 0 <= i < j < n + 1
        ensures t[i] != t[j]
      {
        if j == pos {
          assert t[i] in l;
        } else if i == pos {
          assert t[j] in l;
        }
      }
    }
    assert Linked(t) by {
      forall p | 0 <= p < n
        ensures t[p].next == t[p + 1]
      {
        if p < pos - 1 {
          assert t[p] == l[p];
        } else if pos < p {
          assert t[p] == l[p - 1];
        }
      }
    }
    if pos < n {
      assert t[n] == l[n - 1];
    }
  }

  /** Relinking a chain around a removed node: if the nodes of l are
      distinct, l[k - 1] is linked to l[k]'s successor and every other link
      of l is still the chain's, then l without l[k] is a chain. */
  lemma ChainRemove(l: seq<SList>, k: nat)
    requires Distinct(l) && 1 <= k < |l|
    requires l[k - 1].next == After(l, k)
    requires forall i {:trigger l[i].next} :: 0 <= i < |l| - 1 && i != k - 1 ==> l[i].next == l[i + 1]
    requires k + 1 < |l| ==> l[|l| - 1].next == null
    ensures Chain(Without(l, k))
  {
    var n, t := |l|, Without(l, k);
    assert Distinct(t) by {
      forall i, j | 0 <= i < j < n - 1
        ensures t[i] != t[j]
      {
        var i', j' := if i < k then i else i + 1, if j < k then j else j + 1;
        assert t[i] == l[i'] && t[j] == l[j'];
      }
    }
    assert Linked(t) by {
      forall p | 0 <= p < n - 2
        ensures t[p].next == t[p + 1]
      {
        if p < k - 1 {
          assert t[p] == l[p];
        } else if p >= k {
          assert t[p] == l[p + 1];
        }
      }
    }
    if k + 1 < n {
      assert t[n - 2] == l[n - 1];
    }
  }

  /** slist_pop_after: unlinks src's successor and returns it; the popped
      node keeps its own next. With src NULL or without a successor it
      returns NULL and changes nothing. */
  method PopAfter(src: SList?, ghost l: seq<SList>, ghost k: nat) returns (res: SList?)
    requires src != null && src.next != null ==> Chain(l) && k < |l| && l[k] == src
    modifies (if src != null && src.next != null then {src} else {})`next
    ensures src == null || old(src.next) == null ==> res == null
    ensures src != null && old(src.next) != null ==>
              k + 1 < |l| && res == l[k + 1] && res == old(src.next) &&
              res.next == After(l, k + 1) && Chain(Without(l, k + 1))
  {
    if src != null && src.next != null {
      assert src.next == l[k + 1];
      var tmp := src.next;
      src.next := src.next.next;
      ChainRemove(l, k + 1);
      return tmp;
    }
    return null;
  }

  /** slist_push_after: links src between dst and dst's old successor and
      returns src; with src or dst NULL it returns NULL and changes
      nothing. */
  method PushAfter(dst: SList?, src: SList?, ghost l: seq<SList>, ghost k: nat) returns (res: SList?)
    requires src != null && dst != null ==> Chain(l) && k < |l| && l[k] == dst && src !in l
    modifies (if src != null && dst != null then {dst, src} else {})`next
    ensures src == null || dst == null ==> res == null
    ensures src != null && dst != null ==>
              res == src && dst.next == src && src.next == old(dst.next) &&
              Chain(InsertAt(l, k + 1, src))
  {
    if src != null && dst != null {
      src.next := dst.next;
      dst.next := src;
      ChainInsert(l, k + 1, src);
      return src;
    }
    return null;
  }

  /** slist_push_front: slist_push_after on the head, so src becomes the
      first element. */
  method PushFront(self: SList?, src: SList?, ghost l: seq<SList>) returns (res: SList?)
    requires src != null && self != null ==> Chain(l) && l[0] == self && src !in l
    modifies (if src != null && self != null then {self, src} else {})`next
    ensures src == null || self == null ==> res == null
    ensures src != null && self != null ==>
              res == src && Chain([self, src] + l[1..])
  {
    res := PushAfter(self, src, l, 0);
    if src != null && self != null {
      assert InsertAt(l, 1, src) == [self, src] + l[1..];
    }
  }

  /** slist_length as written: the counter is never advanced, so every
      list has length 0. */
  method Length(self: SList) returns (n: nat)
    ensures n == 0
  {
    n := 0;
  }

  /** slist_length as evidently intended: slist_foreach from the head,
      counting the nodes until NULL, which gives the number of elements. */
  method LengthCorrected(self: SList, ghost l: seq<SList>) returns (n: nat)
    requires Chain(l) && l[0] == self
    ensures n == |l| - 1
  {
    n := 0;
    var node := self.next;
    while node != null
      invariant n < |l| && node == After(l, n)
      decreases |l| - n
    {
      n := n + 1;
      node := node.next;
    }
  }

  /** Pushing src after dst and then popping after dst gives src back and
      restores every link of the list. */
  method PushThenPop(dst: SList, src: SList, ghost l: seq<SList>, ghost k: nat) returns (popped: SList?)
    requires Chain(l) && k < |l| && l[k] == dst && src !in l
    modifies dst`next, src`next
    ensures popped == src && dst.next == old(dst.next) && Chain(l)
  {
    var _ := PushAfter(dst, src, l, k);
    ghost var grown := InsertAt(l, k + 1, src);
    popped := PopAfter(dst, grown, k);
    assert Without(grown, k + 1) == l;
  }

  /** A list with one element: the as-written length is 0, the corrected
      one 1. */
  method LengthOfOneElement() returns (asWritten: nat, corrected: nat)
    ensures asWritten == 0 && corrected == 1
  {
    var head := new SList.Alloc();
    var node := new SList.Alloc();
    var _ := Init(head, null);
    var _ := PushFront(head, node, [head]);
    assert [head, node] + [head][1..] == [head, node];
    asWritten := Length(head);
    corrected := LengthCorrected(head, [head, node]);
  }
}
