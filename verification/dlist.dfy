/** dlist.h: an intrusive circular doubly linked list. Every node carries
    `next`, `prev` and a `cont` pointer to the structure it is embedded in;
    a list head is a node with `cont` NULL, and an empty list is a head
    linked to itself.

    The shape of a list is a ghost sequence `r` of its nodes in `next`
    order, starting at the head: Ring(r) says r[i].next is r[i + 1] and
    r[i].prev is r[i - 1], both read cyclically. The elements of the list are
    r[1..]. */
module DList {
  import opened Seqs

  /** The cyclic successor and predecessor of index i in a ring of n. */
  function Succ(i: nat, n: nat): nat
    requires i < n
  {
    if i + 1 == n then 0 else i + 1
  }

  function Pred(i: nat, n: nat): nat
    requires i < n
  {
    if i == 0 then n - 1 else i - 1
  }

  /** struct dlist: node and list head at once. */
  class DList {
    var cont: object?
    var next: DList?
    var prev: DList?

    /** Storage for a node before dlist_init: NULL links, no container. */
    constructor Alloc()
      ensures cont == null && next == null && prev == null
    {
      cont, next, prev := null, null, null;
    }
  }

  /** Each node's next is the following node of r, cyclically. */
  ghost predicate NextLinked(r: seq<DList>)
    reads r
  {
    forall i {:trigger r[i].next} :: 0 <= i < |r| ==> r[i].next == r[Succ(i, |r|)]
  }

  /** Each node's prev is the preceding node of r, cyclically. */
  ghost predicate PrevLinked(r: seq<DList>)
    reads r
  {
    forall i {:trigger r[i].prev} :: 0 <= i < |r| ==> r[i].prev == r[Pred(i, |r|)]
  }

  /** r lists distinct nodes linked into one cycle in both directions. */
  ghost predicate Ring(r: seq<DList>)
    reads r
  {
    |r| >= 1 && Distinct(r) && NextLinked(r) && PrevLinked(r)
  }

  /** In a ring, following next and then prev gets back to the node. */
  lemma RingNextPrev(r: seq<DList>, i: nat)
    requires Ring(r) && i < |r|
    ensures r[i].next != null && r[i].next.prev == r[i]
    ensures r[i].prev != null && r[i].prev.next == r[i]
  {
    assert r[Succ(i, |r|)].prev == r[Pred(Succ(i, |r|), |r|)];
    assert r[Pred(i, |r|)].next == r[Succ(Pred(i, |r|), |r|)];
  }

  /** dlist_init: a node linked to itself, one-node ring, holding cont. */
  method Init(dst: DList, cont: object?) returns (res: DList)
    modifies dst
    ensures res == dst && dst.cont == cont
    ensures dst.next == dst && dst.prev == dst
    ensures Ring([dst])
  {
    dst.cont := cont;
    dst.next := dst;
    dst.prev := dst;
    res := dst;
  }

  /** dlist_head_init: dlist_init with no container, an empty list. */
  method HeadInit(dst: DList) returns (res: DList)
    modifies dst
    ensures res == dst && dst.cont == null
    ensures dst.next == dst && dst.prev == dst
    ensures Ring([dst])
  {
    res := Init(dst, null);
  }

  /** Relinking a ring around one new node: if the nodes of r are distinct,
      x is not among them, x sits between r[pos - 1] and r's next node after
      it in both directions and every other link of r is still the ring's,
      then r with x inserted at pos is a ring. */
  lemma RingInsert(r: seq<DList>, pos: nat, x: DList)
    requires Distinct(r) && x !in r && 1 <= pos <= |r|
    requires r[pos - 1].next == x && x.prev == r[pos - 1]
    requires x.next == r[Succ(pos - 1, |r|)] && r[Succ(pos - 1, |r|)].prev == x
    requires forall i {:trigger r[i].next} :: 0 <= i < |r| && i != pos - 1 ==> r[i].next == r[Succ(i, |r|)]
    requires forall i {:trigger r[i].prev} :: 0 <= i < |r| && i != Succ(pos - 1, |r|) ==> r[i].prev == r[Pred(i, |r|)]
    ensures Ring(InsertAt(r, pos, x))
  {
    var n, t := |r|, InsertAt(r, pos, x);
    assert Distinct(t) by {
      forall i, j | 0 <= i < j < n + 1
        ensures t[i] != t[j]
      {
        if j == pos {
          assert t[i] in r;
        } else if i == pos {
          assert t[j] in r;
        }
      }
    }
    assert NextLinked(t) by {
      forall p | 0 <= p < n + 1
        ensures t[p].next == t[Succ(p, n + 1)]
      {
        if p < pos - 1 {
          assert t[p] == r[p];
        } else if pos < p < n {
          assert t[p] == r[p - 1];
        } else if p == n && pos < n {
          assert t[p] == r[n - 1];
        }
      }
    }
    assert PrevLinked(t) by {
      forall p | 0 <= p < n + 1
        ensures t[p].prev == t[Pred(p, n + 1)]
      {
        if 0 < p < pos {
          assert t[p] == r[p];
        } else if pos + 1 < p {
          assert t[p] == r[p - 1];
        } else if p == 0 && pos < n {
          assert t[p] == r[0];
        }
      }
    }
  }

  /** dlist_push_after: links src between dst and dst's successor and
      returns src; with src, dst or dst.next NULL it returns NULL and
      changes nothing. */
  method PushAfter(dst: DList?, src: DList?, ghost r: seq<DList>, ghost k: nat) returns (res: DList?)
    requires src != null && dst != null && dst.next != null ==> Ring(r) && k < |r| && r[k] == dst && src !in r
    modifies (if src != null && dst != null && dst.next != null then {dst, dst.next, src} else {})`next
    modifies (if src != null && dst != null && dst.next != null then {dst, dst.next, src} else {})`prev
    ensures src == null || dst == null || old(dst.next) == null ==> res == null
    ensures src != null && dst != null && old(dst.next) != null ==>
              res == src && Ring(InsertAt(r, k + 1, src))
  {
    if src != null && dst != null && dst.next != null {
      dst.next.prev := src;
      src.next := dst.next;
      dst.next := src;
      src.prev := dst;
      RingInsert(r, k + 1, src);
      return src;
    }
    return null;
  }

  /** dlist_push_before: links src between dst's predecessor and dst and
      returns src; with src, dst or dst.prev NULL it returns NULL and
      changes nothing. */
  method PushBefore(dst: DList?, src: DList?, ghost r: seq<DList>, ghost k: nat) returns (res: DList?)
    requires src != null && dst != null && dst.prev != null ==> Ring(r) && k < |r| && r[k] == dst && src !in r
    modifies (if src != null && dst != null && dst.prev != null then {dst, dst.prev, src} else {})`next
    modifies (if src != null && dst != null && dst.prev != null then {dst, dst.prev, src} else {})`prev
    ensures src == null || dst == null || old(dst.prev) == null ==> res == null
    ensures src != null && dst != null && old(dst.prev) != null ==>
              res == src && Ring(InsertAt(r, if k == 0 then |r| else k, src))
  {
    if src != null && dst != null && dst.prev != null {
      dst.prev.next := src;
      src.prev := dst.prev;
      dst.prev := src;
      src.next := dst;
      RingInsert(r, if k == 0 then |r| else k, src);
      return src;
    }
    return null;
  }

  /** dlist_push_back: dlist_push_after on the last node, self.prev; src
      becomes the last element. NULL when src or self.prev is NULL. */
  method PushBack(self: DList, src: DList?, ghost r: seq<DList>) returns (res: DList?)
    requires src != null && self.prev != null ==> Ring(r) && r[0] == self && src !in r
    modifies (if src != null && self.prev != null then {self.prev, self, src} else {})`next
    modifies (if src != null && self.prev != null then {self.prev, self, src} else {})`prev
    ensures src == null || old(self.prev) == null ==> res == null
    ensures src != null && old(self.prev) != null ==>
              res == src && Ring(r + [src])
  {
    ghost var linked := src != null && self.prev != null;
    ghost var last := if |r| > 0 then |r| - 1 else 0;
    if linked {
      assert self.prev == r[last] && self.prev.next == self;
    }
    res := PushAfter(self.prev, src, r, last);
    if linked {
      assert InsertAt(r, last + 1, src) == r + [src];
    }
  }

  /** dlist_push_front: dlist_push_before on the first node, self.next;
      src becomes the first element. NULL when src or self.next is NULL. */
  method PushFront(self: DList, src: DList?, ghost r: seq<DList>) returns (res: DList?)
    requires src != null && self.next != null ==> Ring(r) && r[0] == self && src !in r
    modifies (if src != null && self.next != null then {self.next, self, src} else {})`next
    modifies (if src != null && self.next != null then {self.next, self, src} else {})`prev
    ensures src == null || old(self.next) == null ==> res == null
    ensures src != null && old(self.next) != null ==>
              res == src && Ring([self, src] + r[1..])
  {
    ghost var linked := src != null && self.next != null;
    ghost var first := if |r| > 0 then Succ(0, |r|) else 0;
    if linked {
      assert self.next == r[first] && self.next.prev == self;
    }
    res := PushBefore(self.next, src, r, first);
    if linked {
      assert InsertAt(r, if first == 0 then |r| else first, src) == [self, src] + r[1..];
    }
  }

  /** Relinking a ring around a removed node: if the nodes of r (at least
      two) are distinct, the ring neighbours of r[k] point at each other and
      every other link of r is still the ring's, then r without r[k] is a
      ring. */
  lemma RingRemove(r: seq<DList>, k: nat)
    requires Distinct(r) && |r| >= 2 && k < |r|
    requires r[Pred(k, |r|)].next == r[Succ(k, |r|)] && r[Succ(k, |r|)].prev == r[Pred(k, |r|)]
    requires forall i {:trigger r[i].next} :: 0 <= i < |r| && i != Pred(k, |r|) ==> r[i].next == r[Succ(i, |r|)]
    requires forall i {:trigger r[i].prev} :: 0 <= i < |r| && i != Succ(k, |r|) ==> r[i].prev == r[Pred(i, |r|)]
    ensures Ring(Without(r, k))
  {
    var n, t := |r|, Without(r, k);
    assert Distinct(t) by {
      forall i, j | 0 <= i < j < n - 1
        ensures t[i] != t[j]
      {
        var i', j' := if i < k then i else i + 1, if j < k then j else j + 1;
        assert t[i] == r[i'] && t[j] == r[j'];
      }
    }
    assert NextLinked(t) by {
      forall p | 0 <= p < n - 1
        ensures t[p].next == t[Succ(p, n - 1)]
      {
        var q := if p < k then p else p + 1;
        assert t[p] == r[q];
        if q != Pred(k, n) {
          assert t[p].next == r[Succ(q, n)];
        }
      }
    }
    assert PrevLinked(t) by {
      forall p | 0 <= p < n - 1
        ensures t[p].prev == t[Pred(p, n - 1)]
      {
        var q := if p < k then p else p + 1;
        assert t[p] == r[q];
        if q != Succ(k, n) {
          assert t[p].prev == r[Pred(q, n)];
        }
      }
    }
  }

  /** dlist_pop: links target's neighbours to each other and returns
      target, whose own links are left as they were; NULL when target or
      one of its links is NULL. Popping an empty head relinks it to itself,
      which changes nothing. */
  method Pop(target: DList?, ghost r: seq<DList>, ghost k: nat) returns (res: DList?)
    requires target != null && target.prev != null && target.next != null ==> Ring(r) && k < |r| && r[k] == target
    modifies (if target != null && target.prev != null && target.next != null then {target.prev, target.next} else {})`next
    modifies (if target != null && target.prev != null && target.next != null then {target.prev, target.next} else {})`prev
    ensures target == null || old(target.prev) == null || old(target.next) == null ==> res == null
    ensures target != null && old(target.prev) != null && old(target.next) != null ==>
              res == target && target.next == old(target.next) && target.prev == old(target.prev)
    ensures target != null && old(target.prev) != null && old(target.next) != null ==>
              if |r| == 1 then Ring(r) && target.next == target && target.prev == target
              else Ring(Without(r, k))
  {
    if target != null && target.prev != null && target.next != null {
      ghost var n := |r|;
      assert target.prev == r[Pred(k, n)] && target.next == r[Succ(k, n)];
      target.prev.next := target.next;
      target.next.prev := target.prev;
      if n > 1 {
        RingRemove(r, k);
      }
      return target;
    }
    return null;
  }

  /** Relinking two rings into one: if r and s hold distinct nodes, none in
      both, s has elements, s[1] follows r[pos - 1], the last node of s
      precedes r's next node after r[pos - 1], and every other link of r and
      of the elements of s is still their ring's, then the elements of s
      spliced into r at pos form a ring. */
  lemma RingSplice(r: seq<DList>, pos: nat, s: seq<DList>)
    requires Distinct(r) && Distinct(s) && Disjoint(r, s)
    requires 1 <= pos <= |r| && |s| >= 2
    requires r[pos - 1].next == s[1] && s[1].prev == r[pos - 1]
    requires s[|s| - 1].next == r[Succ(pos - 1, |r|)] && r[Succ(pos - 1, |r|)].prev == s[|s| - 1]
    requires forall i {:trigger r[i].next} :: 0 <= i < |r| && i != pos - 1 ==> r[i].next == r[Succ(i, |r|)]
    requires forall i {:trigger r[i].prev} :: 0 <= i < |r| && i != Succ(pos - 1, |r|) ==> r[i].prev == r[Pred(i, |r|)]
    requires forall j {:trigger s[j].next} :: 1 <= j < |s| - 1 ==> s[j].next == s[j + 1]
    requires forall j {:trigger s[j].prev} :: 1 < j < |s| ==> s[j].prev == s[j - 1]
    ensures Ring(Spliced(r, pos, s))
  {
    var n, m, t := |r|, |s| - 1, Spliced(r, pos, s);
    SplicedDistinct(r, pos, s);
    assert NextLinked(t) by {
      forall p | 0 <= p < n + m
        ensures t[p].next == t[Succ(p, n + m)]
      {
        if p < pos - 1 {
          assert t[p] == r[p];
        } else if pos <= p < pos + m - 1 {
          assert t[p] == s[p - pos + 1];
        } else if pos + m <= p {
          assert t[p] == r[p - m];
        }
      }
    }
    assert PrevLinked(t) by {
      forall p | 0 <= p < n + m
        ensures t[p].prev == t[Pred(p, n + m)]
      {
        if 0 < p < pos {
          assert t[p] == r[p];
        } else if pos < p < pos + m {
          assert t[p] == s[p - pos + 1];
        } else if pos + m < p {
          assert t[p] == r[p - m];
        } else if p == 0 && pos < n {
          assert t[p] == r[0];
        }
      }
    }
  }

  /** dlist_splice_after: moves the elements of the list src, in order,
      between dst and dst's old successor, leaves src an empty list and
      returns dst.next, the first moved element. When src is NULL or empty
      nothing changes and dst.next, dst's successor, is returned. */
  method SpliceAfter(dst: DList, src: DList?, ghost r: seq<DList>, ghost k: nat, ghost s: seq<DList>)
    returns (res: DList?)
    requires src != null && src.next != src ==>
               Ring(r) && k < |r| && r[k] == dst && Ring(s) && s[0] == src && Disjoint(r, s)
    modifies (if src != null && src.next != src then {dst, dst.next, src, src.next, src.prev} else {})`next
    modifies (if src != null && src.next != src then {dst, dst.next, src, src.next, src.prev} else {})`prev
    ensures src == null || old(src.next) == src ==> res == dst.next
    ensures src != null && old(src.next) != src ==>
              Ring(Spliced(r, k + 1, s)) && Ring([src]) && res == dst.next && res == s[1]
  {
    if src != null && src.next != src {
      ghost var n := |r|;
      assert dst.next == r[Succ(k, n)] && src.next == s[1] && src.prev == s[|s| - 1];
      dst.next.prev := src.prev;
      src.prev.next := dst.next;
      src.next.prev := dst;
      dst.next := src.next;
      src.next := src;
      src.prev := src;
      RingSplice(r, k + 1, s);
    }
    res := dst.next;
  }

  /** dlist_splice_before as written: moves the elements of src, in order,
      between dst's old predecessor and dst, leaves src an empty list and
      returns dst.next, which is dst's successor and not the last moved
      element. */
  method SpliceBefore(dst: DList, src: DList?, ghost r: seq<DList>, ghost k: nat, ghost s: seq<DList>)
    returns (res: DList?)
    requires src != null && src.next != src ==>
               Ring(r) && k < |r| && r[k] == dst && Ring(s) && s[0] == src && Disjoint(r, s)
    modifies (if src != null && src.next != src then {dst, dst.prev, src, src.next, src.prev} else {})`next
    modifies (if src != null && src.next != src then {dst, dst.prev, src, src.next, src.prev} else {})`prev
    ensures src == null || old(src.next) == src ==> res == dst.next
    ensures src != null && old(src.next) != src ==>
              Ring(Spliced(r, if k == 0 then |r| else k, s)) && Ring([src]) && res == dst.next
    ensures src != null && old(src.next) != src ==> dst.prev == s[|s| - 1]
  {
    if src != null && src.next != src {
      ghost var n := |r|;
      assert dst.prev == r[Pred(k, n)] && src.next == s[1] && src.prev == s[|s| - 1];
      dst.prev.next := src.next;
      src.next.prev := dst.prev;
      src.prev.next := dst;
      dst.prev := src.prev;
      src.next := src;
      src.prev := src;
      RingSplice(r, if k == 0 then n else k, s);
    }
    res := dst.next;
  }

  /** dlist_splice_after returning what its comment promises: dst when src
      is NULL or empty, otherwise the first moved element. */
  method SpliceAfterCorrected(dst: DList, src: DList?, ghost r: seq<DList>, ghost k: nat, ghost s: seq<DList>)
    returns (res: DList?)
    requires src != null && src.next != src ==>
               Ring(r) && k < |r| && r[k] == dst && Ring(s) && s[0] == src && Disjoint(r, s)
    modifies (if src != null && src.next != src then {dst, dst.next, src, src.next, src.prev} else {})`next
    modifies (if src != null && src.next != src then {dst, dst.next, src, src.next, src.prev} else {})`prev
    ensures src == null || old(src.next) == src ==> res == dst
    ensures src != null && old(src.next) != src ==> Ring(Spliced(r, k + 1, s)) && Ring([src]) && res == s[1]
  {
    var empty := src == null || src.next == src;
    res := SpliceAfter(dst, src, r, k, s);
    if empty {
      res := dst;
    }
  }

  /** dlist_splice_before returning what its comment promises: dst when src
      is NULL or empty, otherwise the last moved element, now dst.prev. */
  method SpliceBeforeCorrected(dst: DList, src: DList?, ghost r: seq<DList>, ghost k: nat, ghost s: seq<DList>)
    returns (res: DList?)
    requires src != null && src.next != src ==>
               Ring(r) && k < |r| && r[k] == dst && Ring(s) && s[0] == src && Disjoint(r, s)
    modifies (if src != null && src.next != src then {dst, dst.prev, src, src.next, src.prev} else {})`next
    modifies (if src != null && src.next != src then {dst, dst.prev, src, src.next, src.prev} else {})`prev
    ensures src == null || old(src.next) == src ==> res == dst
    ensures src != null && old(src.next) != src ==>
              Ring(Spliced(r, if k == 0 then |r| else k, s)) && Ring([src]) && res == s[|s| - 1]
  {
    var empty := src == null || src.next == src;
    res := SpliceBefore(dst, src, r, k, s);
    res := if empty then dst else dst.prev;
  }

  /** dlist_length: counts the nodes met walking next from self.next back
      to self, the number of elements. */
  method Length(self: DList, ghost r: seq<DList>) returns (n: nat)
    requires Ring(r) && r[0] == self
    ensures n == |r| - 1
  {
    n := 0;
    var node := self.next;
    while node != self
      invariant n < |r| && node == r[Succ(n, |r|)]
      decreases |r| - n
    {
      n := n + 1;
      node := node.next;
    }
  }

  /** The ring r read backwards from its head: the head stays first and the
      elements come in reverse order. */
  ghost function Reversed(r: seq<DList>): (t: seq<DList>)
    requires |r| >= 1
    ensures |t| == |r| && t[0] == r[0]
    ensures forall p {:trigger t[p]} :: 0 < p < |t| ==> t[p] == r[|r| - p]
  {
    seq(|r|, p requires 0 <= p < |r| => if p == 0 then r[0] else r[|r| - p])
  }

  /** Reading a ring backwards twice gives it back. */
  lemma ReversedTwice(r: seq<DList>)
    requires |r| >= 1
    ensures Reversed(Reversed(r)) == r
  {
    var t := Reversed(r);
    forall p | 0 < p < |r|
      ensures Reversed(t)[p] == r[p]
    {
      assert t[|r| - p] == r[p];
    }
  }

  /** Nodes of a ring whose links have all been swapped form the reversed
      ring. */
  lemma ReversedRing(r: seq<DList>)
    requires |r| >= 1 && Distinct(r)
    requires r[0].next == r[|r| - 1] && r[0].prev == r[Succ(0, |r|)]
    requires forall j {:trigger r[j].next} :: 1 <= j < |r| ==> r[j].next == r[j - 1]
    requires forall j {:trigger r[j].prev} :: 1 <= j < |r| ==> r[j].prev == r[Succ(j, |r|)]
    ensures Ring(Reversed(r))
  {
    var n := |r|;
    var t := Reversed(r);
    assert NextLinked(t) by {
      forall p | 0 <= p < n
        ensures t[p].next == t[Succ(p, n)]
      {
        if 0 < p {
          assert t[p] == r[n - p];
        }
      }
    }
    assert PrevLinked(t) by {
      forall p | 0 <= p < n
        ensures t[p].prev == t[Pred(p, n)]
      {
        if 0 < p {
          assert t[p] == r[n - p];
        }
      }
    }
    assert Distinct(t) by {
      forall a, b | 0 <= a < b < n
        ensures t[a] != t[b]
      {
        assert t[a] == r[if a == 0 then 0 else n - a] && t[b] == r[n - b];
      }
    }
  }

  /** dlist_reverse: swaps next and prev of the head and then of every
      node, walking from the old first element along the (new) prev links
      back to the head. The nodes then form the reversed ring, and no
      container pointer changes. */
  method Reverse(self: DList, ghost r: seq<DList>)
    requires Ring(r) && r[0] == self
    modifies r`next, r`prev
    ensures Ring(Reversed(r))
  {
    ghost var n := |r|;
    assert self.next == r[Succ(0, n)] && self.prev == r[n - 1];
    var tmp := self.next;
    self.next := self.prev;
    self.prev := tmp;
    ReverseNodes(self, r);
    ReversedRing(r);
  }

  /** The loop of dlist_reverse: with the head already swapped, it swaps
      next and prev of every other node, walking from the old first element
      along the new prev links back to the head. */
  method ReverseNodes(self: DList, ghost r: seq<DList>)
    requires |r| >= 1 && Distinct(r) && r[0] == self
    requires self.next == r[|r| - 1] && self.prev == r[Succ(0, |r|)]
    requires forall j {:trigger r[j].next} :: 1 <= j < |r| ==> r[j].next == r[Succ(j, |r|)]
    requires forall j {:trigger r[j].prev} :: 1 <= j < |r| ==> r[j].prev == r[j - 1]
    modifies r`next, r`prev
    ensures self.next == r[|r| - 1] && self.prev == r[Succ(0, |r|)]
    ensures forall j {:trigger r[j].next} :: 1 <= j < |r| ==> r[j].next == r[j - 1]
    ensures forall j {:trigger r[j].prev} :: 1 <= j < |r| ==> r[j].prev == r[Succ(j, |r|)]
  {
    ghost var n := |r|;
    var node := self.prev;
    ghost var i := 1;
    while node != self
      invariant 1 <= i <= n
      invariant node == r[if i == n then 0 else i]
      invariant self.next == r[n - 1]
      invariant self.prev == r[Succ(0, n)]
      invariant forall j {:trigger r[j].next} :: 1 <= j < i ==> r[j].next == r[j - 1]
      invariant forall j {:trigger r[j].prev} :: 1 <= j < i ==> r[j].prev == r[Succ(j, n)]
      invariant forall j {:trigger r[j].next} :: i <= j < n ==> r[j].next == r[Succ(j, n)]
      invariant forall j {:trigger r[j].prev} :: i <= j < n ==> r[j].prev == r[j - 1]
      decreases n - i
    {
      var tmp := node.next;
      node.next := node.prev;
      node.prev := tmp;
      node := node.prev;
      i := i + 1;
    }
  }

  /** A fresh list head has length 0. */
  method FreshHeadIsEmpty() returns (n: nat)
    ensures n == 0
  {
    var head := new DList.Alloc();
    var _ := HeadInit(head);
    n := Length(head, [head]);
  }

  /** Popping an empty head returns the head and leaves it linked to itself,
      which is how dlist_popeach stops. */
  method PopEmptyHead() returns (res: DList?, head: DList)
    ensures res == head && head.next == head && head.prev == head
  {
    head := new DList.Alloc();
    var _ := HeadInit(head);
    res := Pop(head, [head], 0);
  }

  /** A list holding one node x. */
  method OneElement() returns (head: DList, x: DList)
    ensures Ring([head, x]) && fresh(head) && fresh(x)
  {
    head := new DList.Alloc();
    var _ := HeadInit(head);
    x := new DList.Alloc();
    var _ := PushBack(head, x, [head]);
    assert [head] + [x] == [head, x];
  }

  /** A list holding y and z. */
  method TwoElements() returns (head: DList, y: DList, z: DList)
    ensures Ring([head, y, z]) && fresh(head) && fresh(y) && fresh(z)
  {
    head, y := OneElement();
    z := new DList.Alloc();
    assert [head, y][0].prev == [head, y][1];
    var _ := PushBack(head, z, [head, y]);
    assert [head, y] + [z] == [head, y, z];
  }

  /** Two nodes pushed at the back of a fresh list and one at its front
      give the list c, a, b. */
  method PushBackAndFront() returns (head: DList, a: DList, b: DList, c: DList)
    ensures Ring([head, c, a, b])
    ensures fresh(head) && fresh(a) && fresh(b) && fresh(c)
  {
    head, a, b := TwoElements();
    c := new DList.Alloc();
    assert [head, a, b][0].next == [head, a, b][1];
    var _ := PushFront(head, c, [head, a, b]);
    assert [head, c] + [head, a, b][1..] == [head, c, a, b];
  }

  /** The list c, a, b has length 3 and reversing it links b, a, c. */
  method PushThenReverse() returns (head: DList, a: DList, b: DList, c: DList, len: nat)
    ensures len == 3
    ensures head.next == b && b.next == a && a.next == c && c.next == head
    ensures head.prev == c && c.prev == a && a.prev == b && b.prev == head
  {
    head, a, b, c := PushBackAndFront();
    len := Length(head, [head, c, a, b]);
    Reverse(head, [head, c, a, b]);
    ghost var t := Reversed([head, c, a, b]);
    assert t == [head, b, a, c];
    assert t[0].next == t[1] && t[1].next == t[2] && t[2].next == t[3] && t[3].next == t[0];
    assert t[0].prev == t[3] && t[1].prev == t[0] && t[2].prev == t[1] && t[3].prev == t[2];
  }

  /** A list [head, x] and a distinct list [src, y, z]. */
  method TwoLists() returns (head: DList, x: DList, src: DList, y: DList, z: DList)
    ensures Ring([head, x]) && Ring([src, y, z]) && Disjoint([head, x], [src, y, z])
    ensures fresh(head) && fresh(x) && fresh(src) && fresh(y) && fresh(z)
  {
    head, x := OneElement();
    src, y, z := TwoElements();
  }

  /** Splicing [y, z] before the head of [x] with the as-written
      dlist_splice_before returns x, the head's successor, not z, the last
      element moved. */
  method SpliceBeforeReturnsSuccessor() returns (res: DList?, last: DList)
    ensures res != last
  {
    var head, x, src, y, z := TwoLists();
    assert [head, x][0].prev == [head, x][1];
    assert [src, y, z][0].next == [src, y, z][1] && [src, y, z][0].prev == [src, y, z][2];
    res := SpliceBefore(head, src, [head, x], 0, [src, y, z]);
    last := z;
    ghost var t := Spliced([head, x], 2, [src, y, z]);
    assert t == [head, x, y, z] && t[0].next == t[1];
  }

  /** The corrected splice returns z for the same calls. */
  method SpliceBeforeCorrectedReturnsLast() returns (res: DList?, last: DList)
    ensures res == last
  {
    var head, x, src, y, z := TwoLists();
    assert [head, x][0].prev == [head, x][1];
    assert [src, y, z][0].next == [src, y, z][1] && [src, y, z][0].prev == [src, y, z][2];
    res := SpliceBeforeCorrected(head, src, [head, x], 0, [src, y, z]);
    last := z;
    assert [src, y, z][2] == z;
  }

  /** Splicing an empty list after the head of [x] with the as-written
      dlist_splice_after returns x, not the head. */
  method SpliceAfterEmptyReturnsSuccessor() returns (res: DList?, dst: DList)
    ensures res != dst
  {
    var head, x, _, _, _ := TwoLists();
    var empty := new DList.Alloc();
    var _ := HeadInit(empty);
    res := SpliceAfter(head, empty, [head, x], 0, [empty]);
    dst := head;
    assert [head, x][0].next == [head, x][1];
  }

  /** The corrected splice returns the head for the same calls. */
  method SpliceAfterCorrectedEmptyReturnsDst() returns (res: DList?, dst: DList)
    ensures res == dst
  {
    var head, x, _, _, _ := TwoLists();
    var empty := new DList.Alloc();
    var _ := HeadInit(empty);
    res := SpliceAfterCorrected(head, empty, [head, x], 0, [empty]);
    dst := head;
  }
}
