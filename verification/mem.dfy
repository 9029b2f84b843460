/** The C library memory primitives the growable arrays are built on,
    stated over Dafny arrays of bytes. A realloc that fails is not decided
    here: the callers take the allocator's answer as a parameter. */
module Mem {

  function Min(a: nat, b: nat): nat
  {
    if a <= b then a else b
  }

  /** memmove(a + dst, a + src, n): the n bytes at src are copied to dst as if
      through a temporary buffer, so the two ranges may overlap. */
  method Memmove(a: array<bv8>, dst: nat, src: nat, n: nat)
    requires dst + n <= a.Length && src + n <= a.Length
    modifies a
    ensures a[..] == old(a[..])[..dst] + old(a[..])[src..src + n] + old(a[..])[dst + n..]
  {
    ghost var s := a[..];
    forall k | 0 <= k < n {
      a[dst + k] := a[src + k];
    }
    assert a[..] == s[..dst] + s[src..src + n] + s[dst + n..];
  }

  /** memmove(a + at, src, |src|) from a caller's buffer that does not
      overlap a. */
  method CopyIn(a: array<bv8>, at: nat, src: seq<bv8>)
    requires at + |src| <= a.Length
    modifies a
    ensures a[..] == old(a[..])[..at] + src + old(a[..])[at + |src|..]
  {
    ghost var s := a[..];
    forall k | 0 <= k < |src| {
      a[at + k] := src[k];
    }
    assert a[..] == s[..at] + src + s[at + |src|..];
  }

  /** The contents of a block of n bytes reallocated from s: s cut to n
      bytes, or s followed by zero bytes up to n. */
  function Resized(s: seq<bv8>, n: nat): (r: seq<bv8>)
    ensures |r| == n
    ensures r[..Min(n, |s|)] == s[..Min(n, |s|)]
    ensures forall k :: |s| <= k < n ==> r[k] == 0
  {
    if n <= |s| then s[..n] else s + seq(n - |s|, _ => 0)
  }

  /** A successful realloc(a, n): a new block of n bytes that starts with
      the first min(n, |a|) bytes of a. The bytes past the old block are
      indeterminate in C; here they are 0. */
  method Realloc(a: array<bv8>, n: nat) returns (b: array<bv8>)
    ensures fresh(b) && b.Length == n
    ensures b[..Min(n, a.Length)] == a[..Min(n, a.Length)]
    ensures forall k :: a.Length <= k < n ==> b[k] == 0
    ensures b[..] == Resized(a[..], n)
  {
    b := new bv8[n];
    var m := Min(n, a.Length);
    forall k | 0 <= k < n {
      b[k] := if k < m then a[k] else 0;
    }
  }

  /** The two memmoves of an insert: the bytes [index, size) are shifted
      right by |src| and src is copied into the gap. */
  method ShiftIn(a: array<bv8>, size: nat, index: nat, src: seq<bv8>)
    requires index <= size && size + |src| <= a.Length
    modifies a
    ensures a[..size + |src|] == old(a[..size])[..index] + src + old(a[..size])[index..]
  {
    ghost var b := a[..];
    Memmove(a, index + |src|, index, size - index);
    ghost var shifted := a[..];
    assert shifted[..index] == b[..index];
    assert shifted[index + |src|..size + |src|] == b[index..size];
    CopyIn(a, index, src);
    assert a[..size + |src|] == b[..index] + src + b[index..size];
    assert b[..size][..index] == b[..index] && b[..size][index..] == b[index..size];
  }

  /** The memmove of a remove: `count` bytes starting after the n removed
      bytes move down to index. Moving at least the live suffix closes the
      gap; any further bytes moved land past the new end. */
  method ShiftOut(a: array<bv8>, size: nat, index: nat, n: nat, count: nat)
    requires index + n <= size && size <= index + n + count <= a.Length
    modifies a
    ensures a[..size - n] == old(a[..size])[..index] + old(a[..size])[index + n..]
  {
    ghost var b := a[..];
    Memmove(a, index, index + n, count);
    assert a[..size - n] == b[..index] + b[index + n..size];
    assert b[..size][..index] == b[..index] && b[..size][index + n..] == b[index + n..size];
  }
}
