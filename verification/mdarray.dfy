/** mdarray.h: a growable byte array whose size and capacity (both in bytes)
    live in a header. In C the header sits just before the data and the
    caller holds a pointer to the data; here the header is an object with
    the two counters and the data block, and "rebasing the caller's pointer"
    is replacing the `data` field. */
module MdArray {
  import opened Pow2
  import opened Mem

  /** mdarray_ciellog2: doubles i from 1 until it exceeds x. */
  method CielLog2(x: nat) returns (i: nat)
    ensures i == NextPow2(x)
    ensures IsPow2(i) && x < i
  {
    i := 1;
    while i <= x
      invariant IsPow2(i) && i <= NextPow2(x)
      decreases x + 1 - i
    {
      Pow2Gap(i, NextPow2(x));
      i := 2 * i;
    }
    NextPow2Least(x, i);
  }

  /** mdarray_free: releases the block and nulls the caller's handle.
      Releasing memory is not modelled, so the handle passed in is not
      used; only the NULL the caller's pointer becomes is. */
  method Free(handle: Header) returns (h: Header?)
    ensures h == null
  {
    h := null;
  }

  /** struct mdarray_header together with the data block it prefixes. */
  class Header {
    var size: nat
    var cap: nat
    var data: array<bv8>

    /** The data block is `cap` bytes long and holds the `size` live bytes. */
    ghost predicate Valid()
      reads this
    {
      data.Length == cap && size <= cap
    }

    /** The capacity rule after an insert: cap is the least power of two
        above size (or the array is still fresh). A remove whose shrink
        realloc fails leaves a larger power of two. */
    ghost predicate Planned()
      reads this
    {
      (size == 0 && cap == 0) || (IsPow2(cap) && size < cap)
    }

    /** The live bytes, what the caller indexes through its pointer. */
    ghost function Contents(): seq<bv8>
      reads this, data
      requires Valid()
    {
      data[..size]
    }

    /** MDARRAY_INIT: a header with size = cap = 0 and no data. */
    constructor Init()
      ensures Valid() && Planned() && fresh(data)
      ensures size == 0 && cap == 0 && Contents() == []
    {
      size, cap := 0, 0;
      data := new bv8[0];
    }

    /** MDARRAY_SIZE: the number of whole elements of `stride` bytes. */
    function Count(stride: nat): (n: nat)
      reads this
      requires stride > 0
      ensures n * stride <= size < (n + 1) * stride
    {
      size / stride
    }

    /** The realloc step shared by insert and remove: when the planned
        capacity differs from cap the block is reallocated, and `ok` is the
        allocator's answer; a failed realloc changes nothing. */
    method Reserve(newCap: nat, ok: bool) returns (r: bool)
      requires Valid()
      modifies this
      ensures r <==> newCap == old(cap) || ok
      ensures size == old(size)
      ensures r ==> cap == newCap && data.Length == newCap
      ensures r && size <= newCap ==> Valid() && data[..size] == old(data[..size])
      ensures r && newCap < size ==> data[..] == old(data[..newCap])
      ensures !r ==> cap == old(cap) && data == old(data)
      ensures newCap == old(cap) ==> data == old(data)
      ensures newCap != old(cap) && r ==> fresh(data)
    {
      if newCap == cap {
        return true;
      }
      if !ok {
        return false;
      }
      var block := Realloc(data, newCap);
      if size <= newCap {
        assert block[..size] == block[..Min(newCap, cap)][..size];
      } else {
        assert block[..] == block[..Min(newCap, cap)];
      }
      cap, data := newCap, block;
      r := true;
    }

    /** mdarray_insert: copies the bytes of src into the array at byte
        offset index. The capacity is re-planned for the new size; the block
        is reallocated only when the plan differs from the current capacity,
        and `ok` is the allocator's answer to that request. */
    method Insert(src: seq<bv8>, index: nat, ok: bool) returns (r: bool)
      requires Valid()
      requires index <= size
      modifies this, data
      ensures r <==> NextPow2(old(size) + |src|) == old(cap) || ok
      ensures !r ==> size == old(size) && cap == old(cap) && data == old(data)
      ensures !r ==> data[..] == old(data[..])
      ensures r ==> Valid() && Planned()
      ensures r ==> size == old(size) + |src| && cap == NextPow2(old(size) + |src|)
      ensures r ==> Contents() == old(Contents())[..index] + src + old(Contents())[index..]
      ensures cap == old(cap) ==> data == old(data)
      ensures cap != old(cap) ==> fresh(data)
    {
      var newCap := CielLog2(size + |src|);
      r := Reserve(newCap, ok);
      if r {
        ShiftIn(data, size, index, src);
        size := size + |src|;
      }
    }

    /** mdarray_append: an insert at the end. */
    method Append(src: seq<bv8>, ok: bool) returns (r: bool)
      requires Valid()
      modifies this, data
      ensures data == old(data) || fresh(data)
      ensures r <==> NextPow2(old(size) + |src|) == old(cap) || ok
      ensures !r ==> size == old(size) && cap == old(cap) && data == old(data)
      ensures !r ==> data[..] == old(data[..])
      ensures r ==> Valid() && Planned()
      ensures r ==> size == old(size) + |src| && cap == NextPow2(old(size) + |src|)
      ensures r ==> Contents() == old(Contents()) + src
    {
      r := Insert(src, size, ok);
    }

    /** The memmove and size update of a remove: the `count` bytes after
        the removed span move down to index and the size drops. With a
        count of at least the live suffix the live bytes lose the span. */
    method CloseGap(removed: nat, index: nat, count: nat)
      requires Valid()
      requires index + removed <= size <= index + removed + count <= cap
      modifies this, data
      ensures Valid() && cap == old(cap) && data == old(data)
      ensures size == old(size) - removed
      ensures Contents() == old(Contents())[..index] + old(Contents())[index + removed..]
    {
      ShiftOut(data, size, index, removed, count);
      size := size - removed;
    }

    /** mdarray_remove as written: removes `removed` bytes at byte offset
        index. The memmove copies size - index bytes, `removed` more than
        the live suffix, so it reads past the live bytes; the size is
        decremented once and then the capacity is planned for
        size - removed, a second subtraction. The call always reports
        success, also when the shrink realloc fails. */
    method Remove(removed: nat, index: nat, ok: bool) returns (r: bool)
      requires Valid()
      requires index + removed <= size
      requires 2 * removed <= size
      requires size + removed <= cap
      modifies this, data
      ensures data == old(data) || fresh(data)
      ensures r
      ensures size == old(size) - removed
      ensures cap == if NextPow2(size - removed) == old(cap) || ok then NextPow2(size - removed) else old(cap)
      ensures data.Length == cap
      ensures size <= cap ==> Valid() && Contents() == old(Contents())[..index] + old(Contents())[index + removed..]
      ensures cap < size ==> data[..] == (old(Contents())[..index] + old(Contents())[index + removed..])[..cap]
    {
      CloseGap(removed, index, size - index);
      var newCap := CielLog2(size - removed);
      var _ := Reserve(newCap, ok);
      r := true;
    }

    /** mdarray_remove with both slips fixed: the memmove moves exactly the
        live suffix behind the removed bytes, and the capacity is planned for
        the new size. Its result always fits the live bytes. */
    method RemoveCorrected(removed: nat, index: nat, ok: bool) returns (r: bool)
      requires Valid()
      requires index + removed <= size
      modifies this, data
      ensures data == old(data) || fresh(data)
      ensures r
      ensures Valid() && (old(Planned()) ==> Planned())
      ensures size == old(size) - removed
      ensures cap == if NextPow2(size) == old(cap) || ok then NextPow2(size) else old(cap)
      ensures Contents() == old(Contents())[..index] + old(Contents())[index + removed..]
    {
      CloseGap(removed, index, size - index - removed);
      var newCap := CielLog2(size);
      var _ := Reserve(newCap, ok);
      r := true;
    }

    /** MDARRAY_INSERT and MDARRAY_INSERT_ARR: elems holds the bytes of the
        element(s) to insert and index counts elements of `stride` bytes;
        both are turned into a byte count and a byte offset. */
    method InsertAt(elems: seq<bv8>, index: nat, stride: nat, ok: bool) returns (r: bool)
      requires Valid()
      requires index * stride <= size
      modifies this, data
      ensures data == old(data) || fresh(data)
      ensures r <==> NextPow2(old(size) + |elems|) == old(cap) || ok
      ensures !r ==> size == old(size) && cap == old(cap) && data == old(data)
      ensures !r ==> data[..] == old(data[..])
      ensures r ==> Valid() && Planned()
      ensures r ==> Contents() == old(Contents())[..index * stride] + elems + old(Contents())[index * stride..]
    {
      r := Insert(elems, index * stride, ok);
    }

    /** MDARRAY_REMOVE: mdarray_remove of the element at index, `stride`
        bytes at byte offset index * stride. It inherits the as-written
        remove: the capacity is planned for size - 2 * stride, and the call
        needs 2 * stride <= size (with one element left the plan's argument
        wraps, see RemovePlanHangs) and a block that covers the over-read. */
    method RemoveAt(index: nat, stride: nat, ok: bool) returns (r: bool)
      requires Valid()
      requires index * stride + stride <= size
      requires 2 * stride <= size
      requires size + stride <= cap
      modifies this, data
      ensures data == old(data) || fresh(data)
      ensures r
      ensures size == old(size) - stride
      ensures cap == if NextPow2(size - stride) == old(cap) || ok then NextPow2(size - stride) else old(cap)
      ensures size <= cap ==> Valid()
      ensures size <= cap ==>
                Contents() == old(Contents())[..index * stride] + old(Contents())[index * stride + stride..]
      ensures cap < size ==>
                data[..] == (old(Contents())[..index * stride] + old(Contents())[index * stride + stride..])[..cap]
    {
      r := Remove(stride, index * stride, ok);
    }

    /** MDARRAY_REMOVE over the corrected remove: any in-range element,
        the last one included, is removed and the array stays valid. */
    method RemoveAtCorrected(index: nat, stride: nat, ok: bool) returns (r: bool)
      requires Valid()
      requires index * stride + stride <= size
      modifies this, data
      ensures data == old(data) || fresh(data)
      ensures r
      ensures Valid() && (old(Planned()) ==> Planned())
      ensures size == old(size) - stride
      ensures Contents() == old(Contents())[..index * stride] + old(Contents())[index * stride + stride..]
    {
      r := RemoveCorrected(stride, index * stride, ok);
    }
  }

  /** Reduction modulo 2^64, the value a size_t holds. */
  function Wrap64(x: int): (w: nat)
    ensures w < 0x1_0000_0000_0000_0000
    ensures 0 <= x < 0x1_0000_0000_0000_0000 ==> w == x
  {
    x % 0x1_0000_0000_0000_0000
  }

  /** mdarray_ciellog2 on a 64-bit size_t: the value of i after k
      executions of i *= 2, which wraps around modulo 2^64 (a doubled
      size_t is below 2^65, so one subtraction reduces it). */
  function Doubled(k: nat): (i: nat)
    ensures i < 0x1_0000_0000_0000_0000
  {
    if k == 0 then 1
    else if 2 * Doubled(k - 1) < 0x1_0000_0000_0000_0000 then 2 * Doubled(k - 1)
    else 2 * Doubled(k - 1) - 0x1_0000_0000_0000_0000
  }

  /** The loop variable is 2^k for 64 doublings and 0 from then on. */
  lemma {:induction false} DoubledExp2(k: nat)
    ensures Doubled(k) == if k < 64 then Exp2(k) else 0
  {
    if k > 0 {
      DoubledExp2(k - 1);
      if k < 64 {
        Exp2Of63();
        Exp2Monotone(k, 63);
        assert 2 * Doubled(k - 1) == Exp2(k) < 0x1_0000_0000_0000_0000;
      } else if k == 64 {
        Exp2Of63();
      }
    }
  }

  /** For an argument of 2^63 or more the loop condition i <= x holds
      after every number of doublings: mdarray_ciellog2 never returns. */
  lemma CielLog2Diverges(x: int, k: nat)
    requires x >= 0x8000_0000_0000_0000
    ensures Doubled(k) <= x
  {
    DoubledExp2(k);
    Exp2Of63();
    if k < 64 {
      Exp2Monotone(k, 63);
    }
  }

  /** The plan of mdarray_remove as written on a 64-bit size_t, when the
      removed bytes are more than half of the live ones (removing the only
      element, or every byte just appended to an empty array):
      header->size - size wraps to 2^63 or more, and the capacity loop
      runs for ever. */
  lemma RemovePlanHangs(size: nat, removed: nat)
    requires removed <= size < 2 * removed && removed <= 0x8000_0000_0000_0000
    ensures forall k: nat :: Doubled(k) <= Wrap64(size - removed - removed)
  {
    var x := Wrap64(size - removed - removed);
    assert x >= 0x8000_0000_0000_0000;
    forall k: nat
      ensures Doubled(k) <= x
    {
      CielLog2Diverges(x, k);
    }
  }

  /** Appending a span and then removing it again with the corrected
      remove at the old end gives back the original live bytes, whatever
      the allocator answers. */
  method AppendThenRemoveCorrected(a: Header, e: seq<bv8>, ok1: bool, ok2: bool) returns (appended: bool)
    requires a.Valid()
    modifies a, a.data
    ensures a.Valid()
    ensures a.Contents() == old(a.Contents())
  {
    var n := a.size;
    appended := a.Append(e, ok1);
    if appended {
      var _ := a.RemoveCorrected(|e|, n, ok2);
      assert (old(a.Contents()) + e)[..n] + (old(a.Contents()) + e)[n + |e|..] == old(a.Contents());
    }
  }

  /** The same round trip with the as-written remove: 4 bytes are
      appended to 4 live bytes and removed again at offset 4; the 4 bytes
      that are left sit in a block of 1. */
  method AppendThenRemoveShrinks() returns (size: nat, cap: nat)
    ensures size == 4 && cap == 1
  {
    var a := new Header.Init();
    var _ := a.Append([1, 2, 3, 4], true);
    var _ := a.Append([5, 6, 7, 8], true);
    var _ := a.Remove(4, 4, true);
    size, cap := a.size, a.cap;
  }

  /** MDARRAY_REMOVE of the first of two 4-byte elements: 4 bytes stay
      live in a block of 1. */
  method RemoveAtShrinksBelowSize() returns (size: nat, cap: nat)
    ensures size == 4 && cap == 1
  {
    var a := new Header.Init();
    var _ := a.Append([1, 2, 3, 4, 5, 6, 7, 8], true);
    var _ := a.RemoveAt(0, 4, true);
    size, cap := a.size, a.cap;
  }

  /** The as-written remove can shrink the block below the live bytes:
      after appending 4 bytes (size 4, cap 8) and removing 2 at offset 0,
      2 bytes are live but the plan is for 4 - 2 - 2 = 0 bytes, a block of 1. */
  method RemoveShrinksBelowSize() returns (size: nat, cap: nat)
    ensures size == 2 && cap == 1
  {
    var a := new Header.Init();
    var _ := a.Append([1, 2, 3, 4], true);
    var _ := a.Remove(2, 0, true);
    size, cap := a.size, a.cap;
  }

  /** The same calls with the corrected remove keep both live bytes in a
      block of 4. */
  method RemoveCorrectedKeepsBytes() returns (live: seq<bv8>, cap: nat)
    ensures live == [3, 4] && cap == 4
  {
    var a := new Header.Init();
    var _ := a.Append([1, 2, 3, 4], true);
    var _ := a.RemoveCorrected(2, 0, true);
    live, cap := a.data[..a.size], a.cap;
  }

  /** The as-written memmove of a remove reads past the block: with 7 live
      bytes in a block of 8, removing the last 2 (offset 5) is in range,
      but the source range of the memmove ends at 5 + 2 + (7 - 5) = 9. */
  method RemoveOverreadExample() returns (size: nat, cap: nat, readEnd: nat)
    ensures size == 7 && cap == 8
    ensures 5 + 2 <= size && 2 * 2 <= size
    ensures readEnd == 9 && cap < readEnd
  {
    var a := new Header.Init();
    var _ := a.Append([1, 2, 3, 4, 5, 6, 7], true);
    size, cap := a.size, a.cap;
    readEnd := 5 + 2 + (size - 5);
  }
}
