/** darray.h: a growable byte array held in a struct with the data pointer,
    the capacity and the size (both in bytes). Callers give element counts
    and an element size; the functions turn them into byte counts. A NULL
    data pointer is modelled as an empty block. */
module DArray {
  import opened Pow2
  import opened Mem

  /** darray_size_for: doubles i from 1 until it exceeds x. */
  method SizeFor(x: nat) returns (i: nat)
    ensures i == NextPow2(x)
    ensures IsPow2(i) && x < i
  {
    i := 1;
    while i <= x
      invariant IsPow2(i) && i <= NextPow2(x)
      decreases x + 1 - i
    {
      Pow2Gap(i, NextPow2(x));
      i := 2 * i;
    }
    NextPow2Least(x, i);
  }

  /** The number of bytes of n elements of e bytes, n * e (see BytesIsProduct);
      stated by recursion so that the contracts below stay linear. */
  function Bytes(n: nat, e: nat): (r: nat)
    ensures e > 0 ==> n <= r
  {
    if n == 0 then 0 else e + Bytes(n - 1, e)
  }

  lemma {:induction false} BytesIsProduct(n: nat, e: nat)
    ensures Bytes(n, e) == n * e
  {
    if n > 0 {
      BytesIsProduct(n - 1, e);
    }
  }

  /** struct darray. */
  class DArray {
    var arr: array<bv8>
    var cap: nat
    var size: nat

    /** The block is `cap` bytes long and holds the `size` live bytes. */
    ghost predicate Valid()
      reads this
    {
      arr.Length == cap && size <= cap
    }

    /** The capacity rule: cap is a power of two above size (after a
        successful change of capacity), or the array is empty. */
    ghost predicate Planned()
      reads this
    {
      (size == 0 && cap == 0) || (IsPow2(cap) && size < cap)
    }

    ghost function Contents(): seq<bv8>
      reads this, arr
      requires Valid()
    {
      arr[..size]
    }

    /** darray_init: no block, cap = 0, size = 0. */
    constructor Init()
      ensures Valid() && Planned() && fresh(arr)
      ensures arr.Length == 0 && cap == 0 && size == 0 && Contents() == []
    {
      arr := new bv8[0];
      cap, size := 0, 0;
    }

    /** darray_free: releases the block and resets the struct to the state
        darray_init gives. */
    method Free()
      modifies this
      ensures Valid() && Planned() && fresh(arr)
      ensures arr.Length == 0 && cap == 0 && size == 0 && Contents() == []
    {
      arr := new bv8[0];
      size, cap := 0, 0;
    }

    /** darray_size: the number of whole elements of elemSize bytes. */
    function Count(elemSize: nat): (n: nat)
      reads this
      requires elemSize > 0
      ensures n * elemSize <= size < (n + 1) * elemSize
    {
      size / elemSize
    }

    /** darray_at: the elemSize bytes at byte offset Bytes(index, elemSize), which
        for an index below the element count are that element of the live
        bytes. */
    function At(index: nat, elemSize: nat): (elem: seq<bv8>)
      reads this, arr
      requires Valid()
      requires Bytes(index, elemSize) + elemSize <= cap
      ensures |elem| == elemSize
      ensures Bytes(index, elemSize) + elemSize <= size ==>
                elem == Contents()[Bytes(index, elemSize)..Bytes(index, elemSize) + elemSize]
    {
      arr[Bytes(index, elemSize)..Bytes(index, elemSize) + elemSize]
    }

    /** darray_change_cap: plans the capacity for `target` bytes; when the
        plan equals cap nothing happens, otherwise the block is reallocated
        and `ok` is the allocator's answer. A failed realloc returns false
        and changes nothing. */
    method ChangeCap(target: nat, ok: bool) returns (r: bool)
      requires Valid() && size <= target
      modifies this
      ensures size == old(size)
      ensures arr == old(arr) || fresh(arr)
      ensures r <==> NextPow2(target) == old(cap) || ok
      ensures !r ==> cap == old(cap) && arr == old(arr)
      ensures r ==> cap == NextPow2(target) && Valid()
      ensures r ==> arr[..size] == old(arr[..size])
      ensures r ==> arr[..] == Resized(old(arr[..]), cap)
    {
      var newCap := SizeFor(target);
      if newCap == cap {
        return true;
      }
      if !ok {
        return false;
      }
      var block := Realloc(arr, newCap);
      assert block[..size] == block[..Min(newCap, cap)][..size];
      arr, cap := block, newCap;
      r := true;
    }

    /** darray_append as written: size grows by Bytes(num, elemSize) bytes, but
        only the first num bytes of src are copied; the rest of the new span
        keeps what the (possibly reallocated) block held there. */
    method Append(src: seq<bv8>, num: nat, elemSize: nat, ok: bool) returns (r: bool)
      requires Valid()
      requires elemSize > 0 && |src| == Bytes(num, elemSize)
      modifies this, arr
      ensures arr == old(arr) || fresh(arr)
      ensures r <==> NextPow2(old(size) + Bytes(num, elemSize)) == old(cap) || ok
      ensures !r ==> size == old(size) && cap == old(cap) && arr == old(arr)
      ensures !r ==> arr[..] == old(arr[..])
      ensures r ==> Valid() && Planned()
      ensures r ==> size == old(size) + Bytes(num, elemSize) && cap == NextPow2(old(size) + Bytes(num, elemSize))
      ensures r ==> Contents()[..old(size) + num] == old(Contents()) + src[..num]
      ensures r ==> arr[..] == Resized(old(arr[..]), cap)[..old(size)] + src[..num] + Resized(old(arr[..]), cap)[old(size) + num..]
    {
      r := ChangeCap(size + Bytes(num, elemSize), ok);
      if r {
        ghost var grown := arr[..];
        CopyIn(arr, size, src[..num]);
        assert arr[..size + num] == grown[..size] + src[..num];
        size := size + Bytes(num, elemSize);
      }
    }

    /** darray_append with the copy fixed to Bytes(num, elemSize) bytes. */
    method AppendCorrected(src: seq<bv8>, num: nat, elemSize: nat, ok: bool) returns (r: bool)
      requires Valid()
      requires |src| == Bytes(num, elemSize)
      modifies this, arr
      ensures arr == old(arr) || fresh(arr)
      ensures r <==> NextPow2(old(size) + Bytes(num, elemSize)) == old(cap) || ok
      ensures !r ==> size == old(size) && cap == old(cap) && arr == old(arr)
      ensures !r ==> arr[..] == old(arr[..])
      ensures r ==> Valid() && Planned()
      ensures r ==> size == old(size) + Bytes(num, elemSize) && cap == NextPow2(old(size) + Bytes(num, elemSize))
      ensures r ==> Contents() == old(Contents()) + src
    {
      r := ChangeCap(size + Bytes(num, elemSize), ok);
      if r {
        ghost var grown := arr[..];
        CopyIn(arr, size, src);
        assert arr[..size + |src|] == grown[..size] + src;
        size := size + Bytes(num, elemSize);
      }
    }

    /** darray_insert: num elements of elemSize bytes at element index. */
    method Insert(src: seq<bv8>, num: nat, index: nat, elemSize: nat, ok: bool) returns (r: bool)
      requires Valid()
      requires |src| == Bytes(num, elemSize)
      requires Bytes(index, elemSize) <= size
      modifies this, arr
      ensures arr == old(arr) || fresh(arr)
      ensures r <==> NextPow2(old(size) + Bytes(num, elemSize)) == old(cap) || ok
      ensures !r ==> size == old(size) && cap == old(cap) && arr == old(arr)
      ensures !r ==> arr[..] == old(arr[..])
      ensures r ==> Valid() && Planned()
      ensures r ==> size == old(size) + Bytes(num, elemSize) && cap == NextPow2(old(size) + Bytes(num, elemSize))
      ensures r ==> Contents() == old(Contents())[..Bytes(index, elemSize)] + src + old(Contents())[Bytes(index, elemSize)..]
    {
      r := ChangeCap(size + Bytes(num, elemSize), ok);
      if r {
        ShiftIn(arr, size, Bytes(index, elemSize), src);
        size := size + Bytes(num, elemSize);
      }
    }

    /** darray_remove as written: the memmove copies size - Bytes(index, elemSize)
        bytes, Bytes(num, elemSize) more than the live suffix, so it reads past
        the live bytes. The size is decremented before the capacity change
        and stays decremented when that change fails and 0 is returned. */
    method Remove(num: nat, index: nat, elemSize: nat, ok: bool) returns (r: bool)
      requires Valid()
      requires Bytes(index, elemSize) + Bytes(num, elemSize) <= size
      requires size + Bytes(num, elemSize) <= cap
      modifies this, arr
      ensures arr == old(arr) || fresh(arr)
      ensures Valid() && (old(Planned()) ==> Planned())
      ensures size == old(size) - Bytes(num, elemSize)
      ensures r <==> NextPow2(size) == old(cap) || ok
      ensures cap == if r then NextPow2(size) else old(cap)
      ensures Contents() == old(Contents())[..Bytes(index, elemSize)] + old(Contents())[Bytes(index, elemSize) + Bytes(num, elemSize)..]
    {
      ShiftOut(arr, size, Bytes(index, elemSize), Bytes(num, elemSize), size - Bytes(index, elemSize));
      size := size - Bytes(num, elemSize);
      r := ChangeCap(size, ok);
    }

    /** darray_remove with the memmove limited to the live suffix behind the
        removed elements. */
    method RemoveCorrected(num: nat, index: nat, elemSize: nat, ok: bool) returns (r: bool)
      requires Valid()
      requires Bytes(index, elemSize) + Bytes(num, elemSize) <= size
      modifies this, arr
      ensures arr == old(arr) || fresh(arr)
      ensures Valid() && (old(Planned()) ==> Planned())
      ensures size == old(size) - Bytes(num, elemSize)
      ensures r <==> NextPow2(size) == old(cap) || ok
      ensures cap == if r then NextPow2(size) else old(cap)
      ensures Contents() == old(Contents())[..Bytes(index, elemSize)] + old(Contents())[Bytes(index, elemSize) + Bytes(num, elemSize)..]
    {
      ShiftOut(arr, size, Bytes(index, elemSize), Bytes(num, elemSize), size - Bytes(index, elemSize) - Bytes(num, elemSize));
      size := size - Bytes(num, elemSize);
      r := ChangeCap(size, ok);
    }
  }

  /** The as-written append with 2-byte elements: one element [1, 2] is
      appended to an empty array, but only its first byte is copied. */
  method AppendCopiesTooFew() returns (live: seq<bv8>)
    ensures live == [1, 0]
  {
    var a := new DArray.Init();
    var _ := a.Append([1, 2], 1, 2, true);
    live := a.arr[..a.size];
  }

  /** The same call with the corrected append stores the whole element. */
  method AppendCorrectedCopiesAll() returns (live: seq<bv8>)
    ensures live == [1, 2]
  {
    var a := new DArray.Init();
    var _ := a.AppendCorrected([1, 2], 1, 2, true);
    live := a.arr[..a.size];
  }

  /** The as-written memmove of a remove reads past the block: 7 live bytes
      sit in a block of 8; removing the last 2 one-byte elements (index 5)
      is in range, but the source range of the memmove ends at
      (5 + 2) + (7 - 5) = 9. */
  method RemoveOverreadExample() returns (size: nat, cap: nat, readEnd: nat)
    ensures size == 7 && cap == 8 && 5 + 2 <= size
    ensures readEnd == 9 && cap < readEnd
  {
    var a := new DArray.Init();
    var _ := a.AppendCorrected([1, 2, 3, 4, 5, 6, 7], 7, 1, true);
    size, cap := a.size, a.cap;
    readEnd := (5 + 2) + (size - 5);
  }

  /** An element appended to an empty array by the corrected append is
      what darray_at gives back for index 0 (the as-written append keeps
      only its first byte, see AppendCopiesTooFew). */
  method AppendCorrectedThenAt(elem: seq<bv8>) returns (got: seq<bv8>)
    requires |elem| > 0
    ensures got == elem
  {
    var a := new DArray.Init();
    var _ := a.AppendCorrected(elem, 1, |elem|, true);
    got := a.At(0, |elem|);
  }
}
