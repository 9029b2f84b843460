/** fifo.h: a byte FIFO over a buffer the caller supplies. `tail` is where
    the next byte is read and `head` where the next byte is written, both
    taken modulo `size`; one slot always stays free, so a full FIFO holds
    size - 1 bytes. */
module Fifo {

  /** A nonzero multiple of a positive m is at least m away from 0. */
  lemma MulAway(m: int, d: int)
    requires 0 < m
    ensures d >= 1 ==> m * d >= m
    ensures d <= -1 ==> m * d <= -m
  {
    if d >= 1 {
      assert m * d == m + m * (d - 1);
    } else if d <= -1 {
      assert m * d == -m + m * (d + 1);
    }
  }

  /** The Euclidean remainder is fixed by any decomposition
      x == m * q + r with 0 <= r < m. */
  lemma ModUnique(x: int, m: int, q: int, r: int)
    requires 0 < m && 0 <= r < m && x == m * q + r
    ensures x % m == r
  {
    var q0, r0 := x / m, x % m;
    assert m * (q0 - q) == r - r0;
    MulAway(m, q0 - q);
  }

  /** x % m for x in [-m, 2m): at most one wrap in either direction. */
  lemma ModWrap(x: int, m: int)
    requires 0 < m && -m <= x < 2 * m
    ensures x % m == if x < 0 then x + m else if x < m then x else x - m
  {
    if x < 0 {
      ModUnique(x, m, -1, x + m);
    } else if x < m {
      ModUnique(x, m, 0, x);
    } else {
      ModUnique(x, m, 1, x - m);
    }
  }

  /** An index below 2m brought back into [0, m): x % m without division. */
  function Wrap(x: nat, m: nat): nat
    requires x < 2 * m
  {
    if x < m then x else x - m
  }

  /** The n bytes of a ring buffer starting at index `from`, wrapping at the
      end of the buffer. */
  function Window(buf: seq<bv8>, from: nat, n: nat): (w: seq<bv8>)
    requires from < |buf| || (from == 0 && n == 0)
    requires n <= |buf|
    ensures |w| == n
    ensures forall i :: 0 <= i < n ==> w[i] == buf[Wrap(from + i, |buf|)]
  {
    seq(n, i requires 0 <= i < n => buf[Wrap(from + i, |buf|)])
  }

  /** Byte i of a window is buf[(from + i) % |buf|], the index fifo_read
      and fifo_write compute. */
  lemma WindowMod(buf: seq<bv8>, from: nat, n: nat)
    requires from < |buf| && n <= |buf|
    ensures forall i :: 0 <= i < n ==> Window(buf, from, n)[i] == buf[(from + i) % |buf|]
  {
    forall i | 0 <= i < n
      ensures Window(buf, from, n)[i] == buf[(from + i) % |buf|]
    {
      ModWrap(from + i, |buf|);
    }
  }

  /** The forward distance from index a to index k in a ring of m slots. */
  function Dist(a: nat, k: nat, m: nat): nat
    requires a < m && k < m
  {
    if a <= k then k - a else m + k - a
  }

  /** What fifo_write does to the queue: when the |src| slots from h on
      receive src and every other slot keeps its byte, the window of c bytes
      from t (ending at h) grows by src. */
  lemma WindowWrite(before: seq<bv8>, after: seq<bv8>, t: nat, h: nat, src: seq<bv8>)
    requires |after| == |before| && t < |before| && h < |before|
    requires Dist(t, h, |before|) + |src| < |before|
    requires forall j :: 0 <= j < |src| ==> after[Wrap(h + j, |after|)] == src[j]
    requires forall k :: 0 <= k < |before| && Dist(h, k, |before|) >= |src| ==> after[k] == before[k]
    ensures Window(after, t, Dist(t, h, |before|) + |src|) == Window(before, t, Dist(t, h, |before|)) + src
  {
    var m, c := |before|, Dist(t, h, |before|);
    var w, q := Window(after, t, c + |src|), Window(before, t, c);
    forall j | 0 <= j < c + |src|
      ensures w[j] == (q + src)[j]
    {
      if j < c {
        assert Dist(h, Wrap(t + j, m), m) >= |src|;
      } else {
        assert Wrap(t + j, m) == Wrap(h + (j - c), m);
      }
    }
  }

  /** What fifo_read does to the queue: advancing t by n drops the first n
      bytes of the window. */
  lemma WindowRead(buf: seq<bv8>, t: nat, c: nat, n: nat)
    requires t < |buf| && n <= c < |buf|
    ensures Window(buf, Wrap(t + n, |buf|), c - n) == Window(buf, t, c)[n..]
  {
    var m := |buf|;
    var w, q := Window(buf, Wrap(t + n, m), c - n), Window(buf, t, c);
    forall j | 0 <= j < c - n
      ensures w[j] == q[n + j]
    {
      assert Wrap(Wrap(t + n, m) + j, m) == Wrap(t + (n + j), m);
    }
  }

  /** A window that starts at index 0 is a prefix of the buffer. */
  lemma {:induction false} WindowFromZero(buf: seq<bv8>, n: nat)
    requires 0 < |buf| && n <= |buf|
    ensures Window(buf, 0, n) == buf[..n]
  {
    if n > 0 {
      WindowFromZero(buf, n - 1);
      assert buf[..n] == buf[..n - 1] + [buf[n - 1]];
    }
  }

  /** The loop of fifo_write: byte i of src goes to buf[(h + i) % |buf|].
      The |src| slots from h on receive src; as |src| < |buf| no slot is
      written twice and every other slot keeps its byte. */
  method RingWrite(buf: array<bv8>, h: nat, src: seq<bv8>)
    requires h < buf.Length && |src| < buf.Length
    modifies buf
    ensures forall j :: 0 <= j < |src| ==> buf[Wrap(h + j, buf.Length)] == src[j]
    ensures forall j :: 0 <= j < |src| ==> buf[(h + j) % buf.Length] == src[j]
    ensures forall k :: 0 <= k < buf.Length && Dist(h, k, buf.Length) >= |src| ==> buf[k] == old(buf[k])
  {
    var i := 0;
    while i < |src|
      invariant i <= |src|
      invariant forall j :: 0 <= j < i ==> buf[Wrap(h + j, buf.Length)] == src[j]
      invariant forall k :: 0 <= k < buf.Length && Dist(h, k, buf.Length) >= i ==> buf[k] == old(buf[k])
    {
      var p := (h + i) % buf.Length;
      ModWrap(h + i, buf.Length);
      buf[p] := src[i];
      i := i + 1;
    }
    forall j | 0 <= j < |src|
      ensures buf[(h + j) % buf.Length] == src[j]
    {
      ModWrap(h + j, buf.Length);
    }
  }

  /** The loop of fifo_read: dst[i] receives buf[(t + i) % |buf|] for
      i < n, the n bytes from t on; the rest of dst is left alone. */
  method RingRead(buf: array<bv8>, t: nat, dst: array<bv8>, n: nat)
    requires buf != dst && (t < buf.Length || n == 0) && n <= buf.Length && n <= dst.Length
    modifies dst
    ensures forall j :: 0 <= j < n ==> dst[j] == buf[Wrap(t + j, buf.Length)]
    ensures dst[n..] == old(dst[n..])
  {
    var i := 0;
    while i < n
      invariant i <= n
      invariant forall j :: 0 <= j < i ==> dst[j] == buf[Wrap(t + j, buf.Length)]
      invariant forall j :: i <= j < dst.Length ==> dst[j] == old(dst[j])
    {
      ModWrap(t + i, buf.Length);
      dst[i] := buf[(t + i) % buf.Length];
      i := i + 1;
    }
  }

  /** The loop of fifo_peek as written: every one of dst[..n] receives
      buf[(t + 1) % |buf|]. dst may be buf itself: the byte that is read
      keeps its value, because a write that reaches it writes the value
      already there. */
  method RingPeek(buf: array<bv8>, t: nat, dst: array<bv8>, n: nat)
    requires (t < buf.Length || n == 0) && n <= dst.Length
    modifies dst
    ensures forall j :: 0 <= j < n ==> dst[j] == old(buf[(t + 1) % buf.Length])
    ensures dst[n..] == old(dst[n..])
  {
    var i := 0;
    while i < n
      invariant i <= n
      invariant 0 < n ==> buf[(t + 1) % buf.Length] == old(buf[(t + 1) % buf.Length])
      invariant forall j :: 0 <= j < i ==> dst[j] == old(buf[(t + 1) % buf.Length])
      invariant forall j :: i <= j < dst.Length ==> dst[j] == old(dst[j])
    {
      dst[i] := buf[(t + 1) % buf.Length];
      i := i + 1;
    }
  }

  /** struct fifo. */
  class Fifo {
    var size: nat
    var tail: nat
    var head: nat
    var data: array<bv8>

    /** The buffer is `size` bytes and both indices lie inside it (a FIFO
        over an empty buffer has both at 0). */
    ghost predicate Valid()
      reads this
    {
      data.Length == size && ((size == 0 && tail == 0 && head == 0) || (tail < size && head < size))
    }

    /** fifo_size: the number of queued bytes, the forward distance from
        tail to head. It is (head - tail) mod size and stays below size. */
    function Count(): (n: nat)
      reads this
      requires Valid()
      ensures size == 0 ==> n == 0
      ensures size > 0 ==> n < size
    {
      if head >= tail then head - tail else size + head - tail
    }

    /** The queued bytes, oldest first. */
    ghost function Contents(): (q: seq<bv8>)
      reads this, data
      requires Valid()
    {
      Window(data[..], tail, Count())
    }

    /** fifo_init: a FIFO over the caller's buffer, with nothing queued. */
    constructor Init(buf: array<bv8>)
      ensures Valid() && data == buf && size == buf.Length
      ensures tail == 0 && head == 0
      ensures Count() == 0 && Contents() == []
    {
      size := buf.Length;
      data := buf;
      tail := 0;
      head := 0;
    }

    /** fifo_write: queues the bytes of src when they fit while keeping one
        slot free; otherwise returns false and changes nothing. Byte i goes
        to data[(head + i) % size]; head advances by |src| modulo size. */
    method Write(src: seq<bv8>) returns (r: bool)
      requires Valid()
      modifies this, data
      ensures Valid() && size == old(size) && data == old(data) && tail == old(tail)
      ensures r <==> old(Count()) + |src| < size
      ensures !r ==> head == old(head) && data[..] == old(data[..])
      ensures r ==> head == (old(head) + |src|) % size
      ensures r ==> forall i :: 0 <= i < |src| ==> data[(old(head) + i) % size] == src[i]
      ensures r ==> Count() == old(Count()) + |src|
      ensures r ==> Contents() == old(Contents()) + src
    {
      if Count() + |src| >= size {
        return false;
      }
      ghost var before := data[..];
      ghost var c := Count();
      assert c == Dist(tail, head, size);
      var h, m := head, size;
      RingWrite(data, h, src);
      assert Window(data[..], tail, c + |src|) == Window(before, tail, c) + src by {
        WindowWrite(before, data[..], tail, head, src);
      }
      head := (h + |src|) % m;
      assert head == Wrap(h + |src|, m) by { ModWrap(h + |src|, m); }
      assert Count() == c + |src|;
      assert Contents() == old(Contents()) + src;
      r := true;
    }

    /** fifo_read: when at least n bytes are queued, moves the oldest n of
        them into dst[..n] and advances tail by n modulo size; otherwise
        returns false and changes nothing. */
    method Read(dst: array<bv8>, n: nat) returns (r: bool)
      requires Valid()
      requires dst != data && n <= dst.Length
      requires size > 0 || n > 0
      modifies this, dst
      ensures Valid() && size == old(size) && data == old(data) && head == old(head)
      ensures r <==> n <= old(Count())
      ensures !r ==> tail == old(tail) && dst[..] == old(dst[..])
      ensures r ==> tail == (old(tail) + n) % size
      ensures r ==> dst[..n] == old(Contents())[..n] && dst[n..] == old(dst[n..])
      ensures r ==> Count() == old(Count()) - n
      ensures r ==> Contents() == old(Contents())[n..]
    {
      if Count() < n {
        return false;
      }
      ghost var queued := Contents();
      ghost var c := Count();
      RingRead(data, tail, dst, n);
      assert dst[..n] == queued[..n];
      WindowRead(data[..], tail, c, n);
      ModWrap(tail + n, size);
      tail := (tail + n) % size;
      assert Count() == c - n;
      assert Contents() == queued[n..];
      r := true;
    }

    /** fifo_peek as written: when at least n bytes are queued every one of
        dst[..n] receives the same byte, data[(tail + 1) % size], the second
        queued byte rather than byte i. The FIFO's fields do not change; when
        dst is its own buffer, dst[..n] is overwritten like any dst. */
    method Peek(dst: array<bv8>, n: nat) returns (r: bool)
      requires Valid()
      requires n <= dst.Length
      modifies dst
      ensures r <==> n <= Count()
      ensures !r ==> dst[..] == old(dst[..])
      ensures r ==> forall i :: 0 <= i < n ==> dst[i] == old(data[(tail + 1) % size])
      ensures r ==> dst[n..] == old(dst[n..])
    {
      if Count() < n {
        return false;
      }
      RingPeek(data, tail, dst, n);
      r := true;
    }

    /** fifo_peek with byte i taken from data[(tail + i) % size]: the oldest
        n queued bytes are copied out and the FIFO is left as it was. */
    method PeekCorrected(dst: array<bv8>, n: nat) returns (r: bool)
      requires Valid()
      requires dst != data && n <= dst.Length
      modifies dst
      ensures r <==> n <= Count()
      ensures !r ==> dst[..] == old(dst[..])
      ensures r ==> dst[..n] == Contents()[..n] && dst[n..] == old(dst[n..])
    {
      if Count() < n {
        return false;
      }
      RingRead(data, tail, dst, n);
      assert dst[..n] == Contents()[..n];
      r := true;
    }
  }

  /** fifo_size is (head - tail) mod size. */
  lemma CountIsModDistance(f: Fifo)
    requires f.Valid() && f.size > 0
    ensures f.Count() == (f.head - f.tail) % f.size
  {
    ModWrap(f.head - f.tail, f.size);
  }

  /** fifo_copy as written: when dst's buffer is at least as large as src's,
      it peeks src.size bytes into dst's buffer and sets dst.head to
      src.size. That peek asks for more bytes than src can ever hold, so it
      fails unless src.size is 0 and writes nothing: dst's bytes stay as
      they were and only its head moves. Otherwise null and no change. */
  method Copy(dst: Fifo, src: Fifo) returns (res: Fifo?)
    requires dst.Valid() && src.Valid()
    modifies dst, dst.data
    ensures dst.size == old(dst.size) && dst.data == old(dst.data) && dst.tail == old(dst.tail)
    ensures dst.data[..] == old(dst.data[..])
    ensures old(dst.size) < src.size ==> res == null && dst.head == old(dst.head)
    ensures src.size <= old(dst.size) ==> res == dst && dst.head == src.size
  {
    if dst.size >= src.size {
      var _ := src.Peek(dst.data, src.size);
      dst.head := src.size;
      return dst;
    }
    return null;
  }

  /** fifo_copy as evidently intended: under the same size check, the bytes
      queued in src are copied to the front of dst's buffer and dst then
      queues exactly them. */
  method CopyCorrected(dst: Fifo, src: Fifo) returns (res: Fifo?)
    requires dst.Valid() && src.Valid()
    requires dst.data != src.data
    modifies dst, dst.data
    ensures dst.size == old(dst.size) && dst.data == old(dst.data)
    ensures old(dst.size) < src.size ==> res == null && dst.head == old(dst.head) && dst.tail == old(dst.tail)
    ensures old(dst.size) < src.size ==> dst.data[..] == old(dst.data[..])
    ensures src.size <= old(dst.size) ==> res == dst && dst.Valid() && dst.Contents() == src.Contents()
  {
    if dst.size >= src.size {
      var n := src.Count();
      var _ := src.PeekCorrected(dst.data, n);
      dst.tail := 0;
      dst.head := n;
      if dst.size > 0 {
        WindowFromZero(dst.data[..], n);
      }
      return dst;
    }
    return null;
  }

  /** A FIFO over a fresh buffer of `size` bytes after a was written to
      it: a sits at the front of the buffer. */
  method Filled(size: nat, a: seq<bv8>) returns (f: Fifo)
    requires |a| < size
    ensures fresh(f) && fresh(f.data) && f.Valid() && f.size == size
    ensures f.tail == 0 && f.Count() == |a| && f.Contents() == a
    ensures f.data[..|a|] == a
  {
    var buf := new bv8[size];
    f := new Fifo.Init(buf);
    var _ := f.Write(a);
    WindowFromZero(f.data[..], |a|);
  }

  /** FIFO order: bytes written in two batches and read back in one come
      out in the order they were written. */
  method WriteThenRead(a: seq<bv8>, b: seq<bv8>) returns (out: seq<bv8>)
    ensures out == a + b
  {
    var f := Filled(|a| + |b| + 1, a);
    var _ := f.Write(b);
    var dst := new bv8[|a| + |b|];
    var _ := f.Read(dst, |a| + |b|);
    out := dst[..];
  }

  /** Peeking two bytes of a FIFO holding [1, 2]: the as-written peek gives
      [2, 2], the corrected one [1, 2]. */
  method PeekRepeatsSecondByte() returns (peeked: seq<bv8>, queued: seq<bv8>)
    ensures peeked == [2, 2] && queued == [1, 2]
  {
    var f := Filled(4, [1, 2]);
    assert f.data[1] == [1, 2][1];
    var dst := new bv8[2];
    var _ := f.Peek(dst, 2);
    assert dst[0] == 2 && dst[1] == 2;
    var dst2 := new bv8[2];
    var _ := f.PeekCorrected(dst2, 2);
    peeked, queued := dst[..], dst2[..];
  }

  /** The as-written copy between two FIFOs over 4-byte buffers leaves dst
      with head == size, outside the buffer, and none of src's bytes. */
  method CopyBreaksHead() returns (head: nat, size: nat, first: bv8)
    ensures head == 4 && size == 4 && first == 0
  {
    var sbuf := new bv8[4];
    var src := new Fifo.Init(sbuf);
    var _ := src.Write([7]);
    var dbuf := new bv8[4](_ => 0);
    var dst := new Fifo.Init(dbuf);
    var _ := Copy(dst, src);
    head, size, first := dst.head, dst.size, dst.data[0];
  }
}
