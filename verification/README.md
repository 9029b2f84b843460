# C container headers in Dafny

This project models the container headers of a small C library and proves
properties of that model:

- `mdarray.h`: a growable byte array whose size and capacity live in a header
  in front of the data;
- `darray.h`: the same vector kept in a struct;
- `fifo.h`: a byte FIFO over a buffer the caller supplies;
- `dlist.h`: a circular doubly linked intrusive list with a sentinel head;
- `mdlist.h`: the same relinking written as type-generic macros;
- `slist.h`: a NULL-terminated singly linked list.

The C code changes state in place, so the model is imperative. The header of
an mdarray, a darray, a FIFO and every list node are classes whose fields the
methods update. Byte buffers are `array<bv8>`, and copies are loops or
`forall` statements over them.

Every method is proved against a specification:

- A growable array's abstract value is `Contents()`, its live bytes.
- A FIFO's abstract value is `Contents()`, the queued bytes from `tail` to
  `head`, read around the buffer.
- A list's shape is a ghost sequence of its nodes in `next` order, head
  first. For `dlist.h` and `mdlist.h`, `Ring(r)` says the nodes are distinct
  and linked cyclically in both directions. For `slist.h`, `Chain(l)` says
  each node links to the next and the last links to NULL.
- A relinking method states the new shape as a sequence operation on the old
  one: `InsertAt`, `Without`, `Spliced` or `Reversed`. A lemma per operation
  proves that the relinked nodes form that shape.
- Relinking methods may only change `next` and `prev`, through
  field-granular `modifies` clauses. So `cont` and every node outside the
  frame are unchanged by construction.

Allocation is a parameter. `realloc` and `malloc` never fail by themselves
here: the methods that reallocate take the allocator's answer as
`ok: bool`, so both the success and the failure branch are modelled. Machine
integers are naturals. Where the C arithmetic would wrap, the method requires
the inputs that avoid it.

The growable arrays behave as follows in points a reader might not expect:

- Capacity is the least power of two strictly greater than the size, not
  greater than or equal to it: 4 bytes get a block of 8.
- Inserting past the end is not zero-filled. The unsigned subtraction would
  wrap, so `index <= size` is required.
- There is no shrink hysteresis. `darray_remove` re-plans the capacity for
  the new size at once. `mdarray_remove` plans for the new size minus the
  removed count again (the first row of "## Findings").
- An out-of-range remove is not detected. It is a precondition.
- `darray_remove` reports the failure of its shrink realloc by returning 0,
  but the size stays decremented. `mdarray_remove` always reports success.

## Model

| member | source | states |
|---|---|---|
| Pow2.NextPow2 | mdarray.h:130-134 | the capacity plan is a power of two strictly above x, and halving it no longer exceeds x |
| Pow2.Pow2Gap | mdarray.h:132 | two distinct powers of two differ by at least a factor 2, which is why doubling from 1 meets the plan exactly |
| Pow2.NextPow2Least | darray.h:33-37 | the plan is at most every power of two above x: it is the least one |
| Pow2.NextPow2Unique | darray.h:33-37 | the plan is the only power of two p with p / 2 <= x < p |
| Pow2.NextPow2Monotone | mdarray.h:138 | a larger request never gets a smaller capacity |
| Mem.Memmove | mdarray.h:144 | after memmove the destination range holds the old source range and every other byte is unchanged, also for overlapping ranges |
| Mem.CopyIn | mdarray.h:145 | copying a caller's span writes exactly that span at the offset |
| Mem.Resized | darray.h:44 | a reallocated block has the new length, keeps the common prefix and has zero bytes beyond the old end |
| Mem.Realloc | mdarray.h:140 | a successful realloc yields a fresh block equal to `Resized` of the old contents |
| Mem.ShiftIn | mdarray.h:144-145 | the two memmoves of an insert give prefix, then src, then the old suffix |
| Mem.ShiftOut | darray.h:83 | a remove's memmove of at least the live suffix gives the live bytes without the removed span |
| MdArray.CielLog2 | mdarray.h:130-134 | the doubling loop returns `NextPow2(x)`, a power of two above x |
| MdArray.Free | mdarray.h:171-175 | the caller's handle becomes NULL |
| MdArray.Header.Init | mdarray.h:45 | a fresh header has size = cap = 0 and no live bytes |
| MdArray.Header.Count | mdarray.h:47 | the element count n satisfies n * stride <= size < (n + 1) * stride |
| MdArray.Header.Reserve | mdarray.h:138-143 | realloc happens only when the plan differs from cap; success is "plan equals cap or allocator said yes"; failure changes nothing |
| MdArray.Header.Insert | mdarray.h:136-150 | on failure nothing changes; on success the contents are prefix + src + old suffix, size grows by \|src\|, cap is `NextPow2` of the new size, a power of two above it |
| MdArray.Header.Append | mdarray.h:152-154 | the old contents are a prefix and src follows them; failure changes nothing |
| MdArray.Header.CloseGap | mdarray.h:158-159 | moving at least the live suffix down over the removed span and dropping the size keeps the block and leaves the live bytes without the span |
| MdArray.Header.Remove | mdarray.h:156-169 | as written: always returns 1, size drops by `removed`, cap becomes the plan for the already reduced size minus `removed` again (or stays when the allocator refuses), and the contents lose the span as far as the block still holds them |
| MdArray.Header.RemoveCorrected | mdarray.h:156-169 | corrected: the contents lose exactly the span, the array stays valid and a planned capacity stays planned, whatever the allocator answers |
| MdArray.Header.InsertAt | mdarray.h:115-117 | element index and span are scaled to bytes; the contents gain the elements at byte offset index * stride |
| MdArray.Header.RemoveAt | mdarray.h:124 | as written, through `Remove`: size drops by `stride`, cap becomes the plan for the reduced size minus `stride` again, and the contents lose the element as far as the block still holds them |
| MdArray.Header.RemoveAtCorrected | mdarray.h:124 | through `RemoveCorrected`: any in-range element, the last one included, leaves the contents and the array stays valid |
| MdArray.AppendThenRemoveCorrected | mdarray.h:152-169 | with the corrected remove, appending a span and then removing it again restores the contents, for every allocator answer |
| MdArray.AppendThenRemoveShrinks | mdarray.h:152-169 | with the as-written remove, appending 4 bytes to 4 and removing them again leaves 4 live bytes in a block of 1 |
| MdArray.RemoveAtShrinksBelowSize | mdarray.h:124 | `MDARRAY_REMOVE` of the first of two 4-byte elements leaves 4 live bytes in a block of 1 |
| MdArray.DoubledExp2 | mdarray.h:132 | on a 64-bit `size_t`, the loop variable is 2^k after k doublings while k < 64 and 0 from then on |
| MdArray.CielLog2Diverges | mdarray.h:130-134 | for an argument of 2^63 or more, `i <= x` holds after every number of doublings, so the loop never ends |
| MdArray.RemovePlanHangs | mdarray.h:159-160 | when more than half of the live bytes are removed, the plan's argument wraps to 2^63 or more and the capacity loop never ends |
| MdArray.RemoveShrinksBelowSize | mdarray.h:159-160 | the as-written remove leaves 2 live bytes in a block of 1 |
| MdArray.RemoveCorrectedKeepsBytes | mdarray.h:156-169 | the corrected remove on the same calls keeps [3, 4] in a block of 4 |
| MdArray.RemoveOverreadExample | mdarray.h:158 | an in-range remove whose memmove source range ends past the block |
| DArray.SizeFor | darray.h:33-37 | the doubling loop returns `NextPow2(x)` |
| DArray.BytesIsProduct | darray.h:56 | the recursive byte count `Bytes(n, e)` is n * e |
| DArray.DArray.Init | darray.h:19-24 | no block, cap = 0, size = 0, no contents |
| DArray.DArray.Free | darray.h:26-31 | the same empty state as init |
| DArray.DArray.Count | darray.h:68-70 | the element count n satisfies n * e <= size < (n + 1) * e |
| DArray.DArray.At | darray.h:64-66 | for an index inside the live bytes, the element is that slice of the contents |
| DArray.DArray.ChangeCap | darray.h:39-53 | returns true and changes nothing when the plan equals cap; otherwise success sets cap to the plan and keeps the live bytes, failure changes nothing |
| DArray.DArray.Append | darray.h:55-62 | as written: size grows by num * e, but only the first num bytes of src follow the old contents; failure changes nothing |
| DArray.DArray.AppendCorrected | darray.h:55-62 | corrected: the contents become the old contents + src, with cap `NextPow2` of the new size |
| DArray.DArray.Insert | darray.h:72-80 | on success prefix + src + old suffix at byte offset index * e, with cap `NextPow2` of the new size; failure changes nothing |
| DArray.DArray.Remove | darray.h:82-89 | size drops by num * e before the capacity change and stays dropped when it fails; the contents lose the span |
| DArray.DArray.RemoveCorrected | darray.h:82-89 | the same result with the memmove limited to the live suffix |
| DArray.AppendCopiesTooFew | darray.h:57 | appending one 2-byte element [1, 2] does not copy its second byte: the model's zero fill leaves [1, 0] live |
| DArray.AppendCorrectedCopiesAll | darray.h:57-58 | the corrected append leaves [1, 2] live |
| DArray.RemoveOverreadExample | darray.h:83 | an in-range remove whose memmove source range ends past the block |
| DArray.AppendCorrectedThenAt | darray.h:55-66 | with the corrected append, an element appended to an empty array is what `At(0)` returns |
| Fifo.WindowMod | fifo.h:78 | byte i of the queued window is data[(from + i) % size], the index the code computes |
| Fifo.WindowWrite | fifo.h:77-80 | writing src after the queued bytes makes the window old window + src |
| Fifo.WindowRead | fifo.h:87-89 | advancing tail by n drops the first n queued bytes |
| Fifo.WindowFromZero | fifo.h:50-56 | a window from index 0 is a prefix of the buffer |
| Fifo.RingWrite | fifo.h:77-79 | byte i of src lands at (head + i) mod size and no other slot changes |
| Fifo.RingRead | fifo.h:87-88 | dst[i] receives data[(tail + i) mod size] for i < n and nothing else of dst changes |
| Fifo.RingPeek | fifo.h:96-97 | every dst[i], i < n, receives data[(tail + 1) mod size] |
| Fifo.Fifo.Init | fifo.h:50-56 | tail = head = 0, so nothing is queued |
| Fifo.Fifo.Count | fifo.h:67-72 | the queued count is below size (0 for an empty buffer) |
| Fifo.CountIsModDistance | fifo.h:67-72 | the count is (head - tail) mod size |
| Fifo.Fifo.Write | fifo.h:74-82 | succeeds iff count + n < size; then byte i is at data[(head + i) % size], head advances by n mod size, tail stays, count grows by n and the contents become old contents + src; otherwise nothing changes |
| Fifo.Fifo.Read | fifo.h:84-91 | succeeds iff n <= count; then dst[..n] are the oldest n queued bytes, tail advances by n mod size and the contents lose them; otherwise nothing changes |
| Fifo.Fifo.Peek | fifo.h:93-99 | as written: fails iff fewer than n are queued; otherwise every dst[i] is data[(tail + 1) % size]; only dst changes |
| Fifo.Fifo.PeekCorrected | fifo.h:93-99 | corrected: dst[..n] are the oldest n queued bytes and the FIFO is untouched |
| Fifo.Copy | fifo.h:58-65 | as written: NULL and no change when dst is smaller; otherwise head = src.size and dst's bytes stay as they were, because the peek always fails |
| Fifo.CopyCorrected | fifo.h:58-65 | corrected: under the same size check dst ends up queuing exactly src's bytes |
| Fifo.WriteThenRead | fifo.h:74-91 | bytes written in two batches and read back come out in the order written |
| Fifo.PeekRepeatsSecondByte | fifo.h:97 | peeking two bytes of a FIFO holding [1, 2] gives [2, 2]; the corrected peek gives the queued [1, 2] |
| Fifo.CopyBreaksHead | fifo.h:60-61 | copying a FIFO holding [7] into an empty one over 4 zero bytes leaves dst.head == dst.size == 4 and dst's first byte 0, not 7 |
| DList.RingNextPrev | dlist.h:65-68 | in a ring, n.next.prev == n and n.prev.next == n for every node |
| DList.Init | dlist.h:77-82 | a one-node ring linked to itself, holding cont |
| DList.HeadInit | dlist.h:90-92 | an empty list head with cont NULL |
| DList.RingInsert | dlist.h:118-127 | relinking one node between two ring neighbours gives the ring with that node inserted |
| DList.PushAfter | dlist.h:118-127 | returns src and the ring gains src right after dst; NULL and no change when src, dst or dst.next is NULL |
| DList.PushBefore | dlist.h:136-145 | returns src and the ring gains src right before dst; NULL and no change on a NULL argument or link |
| DList.PushBack | dlist.h:154-156 | src becomes the last element: the ring becomes r + [src], one longer |
| DList.PushFront | dlist.h:165-167 | src becomes the first element: the ring becomes [head, src] + elements, one longer |
| DList.RingRemove | dlist.h:102-109 | linking a node's two neighbours to each other gives the ring without that node |
| DList.Pop | dlist.h:102-109 | returns target, whose own links stay; the ring loses target, or stays as it is for a lone head; NULL on a NULL pointer |
| DList.PopEmptyHead | dlist.h:94-109 | popping an empty head returns it and leaves it linked to itself |
| DList.RingSplice | dlist.h:176-185 | relinking the elements of a second ring between two neighbours gives the spliced ring |
| DList.SpliceAfter | dlist.h:176-185 | the elements of src, in order, follow dst; src becomes an empty ring; returns dst.next, also when src is empty |
| DList.SpliceBefore | dlist.h:194-203 | the elements of src, in order, precede dst; src becomes an empty ring; returns dst.next, not the last moved element |
| DList.SpliceAfterCorrected | dlist.h:170-185 | the same splice returning the first moved element, or dst when src is empty |
| DList.SpliceBeforeCorrected | dlist.h:187-203 | the same splice returning the last moved element, or dst when src is empty |
| DList.Length | dlist.h:211-215 | counting along next from the head gives the number of elements |
| DList.ReversedTwice | dlist.h:223-232 | reading a ring backwards twice gives it back |
| DList.ReversedRing | dlist.h:223-232 | nodes whose links are the ring's, swapped, form the reversed ring |
| DList.Reverse | dlist.h:223-232 | the nodes form the reversed ring: same head and length, elements backwards, next/prev consistent |
| DList.ReverseNodes | dlist.h:227-231 | the loop swaps next and prev of every non-head node |
| DList.FreshHeadIsEmpty | dlist.h:90-92 | a fresh head has length 0 |
| DList.PushBackAndFront | dlist.h:154-167 | two pushes at the back and one at the front give c, a, b |
| DList.PushThenReverse | dlist.h:211-232 | that list has length 3 and is linked b, a, c after reversing |
| DList.SpliceBeforeReturnsSuccessor | dlist.h:202 | the as-written splice before the head returns the head's successor, not the last moved node |
| DList.SpliceBeforeCorrectedReturnsLast | dlist.h:187-193 | the corrected splice returns the last moved node |
| DList.SpliceAfterEmptyReturnsSuccessor | dlist.h:184 | splicing an empty list after the head returns the head's successor, not the head |
| DList.SpliceAfterCorrectedEmptyReturnsDst | dlist.h:170-175 | the corrected splice returns the head |
| Seqs.SplicedDistinct | dlist.h:176-185 | splicing two disjoint lists of distinct nodes keeps the nodes distinct |
| MdList.Init | mdlist.h:98-101 | the list entry points at the list both ways, a one-node ring |
| MdList.EmptyIffNoElements | mdlist.h:165 | `MDLIST_EMPTY` holds iff the ring is the head alone |
| MdList.PushAfter | mdlist.h:110-115 | src sits between dst and dst's old next, and the ring gains it there |
| MdList.PushBefore | mdlist.h:124-129 | src sits between dst's old prev and dst, and the ring gains it there |
| MdList.Pop | mdlist.h:137-141 | the neighbours are linked to each other, target's own links stay, and the ring loses target |
| MdList.Foreach | mdlist.h:151-152 | the nodes visited are the elements in order |
| MdList.ForeachRev | mdlist.h:162-163 | the nodes visited are the elements backwards |
| MdList.PopFirst | mdlist.h:50-55 | one step of the usage loop: the first element is popped and its own next gives the following node |
| MdList.PopEach | mdlist.h:50-55 | popping while iterating visits every element in order and leaves the list empty |
| MdList.PushAllBefore | mdlist.h:40-42 | pushing nodes before the head appends them in push order |
| MdList.UsageExample | mdlist.h:31-47 | a, b and c pushed before a fresh list are visited as a, b, c |
| SList.Init | slist.h:49-53 | next is NULL and cont is stored: a one-node chain |
| SList.ChainInsert | slist.h:64-71 | relinking one node after a chain node gives the chain with that node inserted |
| SList.ChainRemove | slist.h:55-62 | linking a node to its successor's successor gives the chain without the successor |
| SList.PopAfter | slist.h:55-62 | returns src's old successor, which keeps its own next, and the chain loses it; NULL and no change when src is NULL or last |
| SList.PushAfter | slist.h:64-71 | returns src, which now follows dst and links to dst's old next; NULL and no change on a NULL argument |
| SList.PushFront | slist.h:73-75 | src becomes the first element |
| SList.Length | slist.h:77-81 | as written: the length is 0 for every list |
| SList.LengthCorrected | slist.h:32-33 | walking next from the head to NULL counts the elements |
| SList.PushThenPop | slist.h:55-71 | pushing after dst and popping after dst returns the pushed node and restores every link |
| SList.LengthOfOneElement | slist.h:77-81 | a one-element list has as-written length 0 and corrected length 1 |

## Left out

- Fixed-width `size_t` and `uint` arithmetic is not modelled, except for the capacity plan of `mdarray_remove` (`MdArray.RemovePlanHangs`, on a 64-bit `size_t`). The model uses naturals, so the 32-bit loop counters of `fifo.h`, the `uint` index of `darray_at` and `darray_insert` and the `uint` result of `darray_size` cannot wrap. Where C would wrap, a precondition excludes it.
- The `#if 0` block at mdarray.h:49-109 is dead code and is not modelled.
- The header-before-data pointer arithmetic (`MDARRAY_HEADER`) and address identity are not modelled. The header is an object, and rebasing the caller's pointer is replacing its `data` field.
- `MDARRAY_INSERT_VA` builds a temporary array from variadic arguments, which has no counterpart here.
- `DARRAY_INSERT` passes four arguments to the five-parameter `darray_insert` and cannot compile.
- dlist.c is not part of this model. It uses node and list types that no header declares.
- The `slist_popeach*` macros are malformed `for` headers.
- `dlist_foreach_cont_reverse` is a verbatim copy of the forward iterator.
- The `dlist_foreach*` and `dlist_popeach*` iteration macros are modelled only through `DList.Length` and `DList.PopEmptyHead`. The same holds for `slist_foreach*` and `SList.LengthCorrected`.
- The iteration macros of `mdlist.h` run arbitrary loop bodies. The model collects the visited nodes instead.
- `malloc`, `realloc` and `free` internals are not modelled. The allocator's answer is the `ok` parameter. Freed memory is out of scope. When realloc fails, the old block stays allocated and the caller keeps it, which the model mirrors by leaving `data` unchanged.
- Bytes past the old end of a grown block are indeterminate in C. `Mem.Realloc` makes them 0.
- Concurrency is not modelled. The code has none.
- MdArray.Header.Remove: requires `2 * removed <= size`. Otherwise the plan's argument wraps and the planning loop never ends, as `MdArray.RemovePlanHangs` proves.
- MdArray.Header.RemoveAt: requires `2 * stride <= size` and `size + stride <= cap`, the requirements of `Remove`. `MDARRAY_REMOVE` of the only element hangs.
- MdArray.Header.Remove: requires `size + removed <= cap`, so that the overlong memmove stays inside the block. `MdArray.RemoveOverreadExample` shows an in-range remove that violates this.
- DArray.DArray.Remove: requires `size + num * e <= cap`, for the same reason.
- DArray.DArray.Append: requires a nonzero element size. With size 0 and num > 0 the C code reads num bytes from a span of none.
- DArray.DArray.ChangeCap: requires `size <= target`. Every call in the header satisfies this.
- DArray.DArray.At: returns the element's bytes rather than a pointer. It requires the element to lie inside the block.
- Fifo.Fifo.Read: requires `dst != data`, because reads into the FIFO's own buffer are not modelled. It also requires `size > 0 || n > 0`: reading 0 bytes from a FIFO over an empty buffer computes `% 0`.
- Fifo.Fifo.PeekCorrected: requires `dst != data`.
- Fifo.Fifo.Init: takes the buffer only. `fifo_init` takes a separate size, and the model's FIFO always uses the whole buffer, so a size smaller than the buffer is not modelled.
- Fifo.CopyCorrected: requires distinct buffers.
- DList.SpliceAfter: `dst` must not be NULL. The C code dereferences it in its return statement whatever its check says. The same holds for DList.SpliceBefore and both corrected splices.
- DList.PushAfter, DList.PushBefore, DList.Pop and the splices require a well-formed ring whenever the code follows a pointer. Behaviour on malformed lists is not modelled. So is pushing a node that is already in the list. The same holds for the `MdList` and `SList` operations.
- MdList: the list struct and the entries are `DList` nodes. Their `cont` field plays no part. The type-generic `_field` selection of the macros is not modelled.

## Findings

| source | as written | input that shows it | evidently intended | confidence | as-written member | corrected member |
|---|---|---|---|---|---|---|
| mdarray.h:159-160 | `size` is decremented by the removed count, then the capacity is planned for `size - size` again | append 4 bytes, then remove 2 at offset 0: 2 live bytes, block of 1 | plan the capacity for the new size | high, not executed | MdArray.RemoveShrinksBelowSize | MdArray.Header.RemoveCorrected |
| mdarray.h:160 | `MDARRAY_REMOVE` expands to `mdarray_remove`, whose plan argument `header->size - size` wraps once the element removed is more than half of the live bytes | an array holding one 4-byte element, `MDARRAY_REMOVE(arr, 0)`: the argument is 2^64 - 4 and `mdarray_ciellog2` never returns | plan for the new size, so that the last element can be removed | high, not executed | MdArray.RemovePlanHangs | MdArray.Header.RemoveAtCorrected |
| mdarray.h:158 | memmove of `header->size - index` bytes starting after the removed span | 7 live bytes in a block of 8, remove 2 at offset 5: the source range ends at byte 9 | move `size - index - removed` bytes | high, not executed | MdArray.RemoveOverreadExample | MdArray.Header.RemoveCorrected |
| darray.h:83 | memmove of `size - index * e` bytes starting after the removed span | 7 live bytes in a block of 8, remove 2 one-byte elements at index 5: the source range ends at byte 9 | move `size - (index + num) * e` bytes | high, not executed | DArray.RemoveOverreadExample | DArray.DArray.RemoveCorrected |
| darray.h:57 | copies `num` bytes while size grows by `num * elem_size` | append one 2-byte element [1, 2] to an empty array: the second live byte is not copied from src (indeterminate in C, 0 in the model) | copy `num * elem_size` bytes | high, not executed | DArray.AppendCopiesTooFew | DArray.DArray.AppendCorrected |
| fifo.h:97 | every byte is read from `(tail + 1) % size` | peek 2 bytes of a FIFO holding [1, 2]: [2, 2] | read `(tail + i) % size` | high, not executed | Fifo.PeekRepeatsSecondByte | Fifo.Fifo.PeekCorrected |
| fifo.h:60-61 | peeks `src->size` bytes, which always fails, then sets `dst->head = src->size` | src over 4 bytes holding [7], dst over 4 bytes: dst.head is 4, outside the buffer, and no byte is copied | copy the queued bytes and set head to their count | medium, not executed | Fifo.CopyBreaksHead | Fifo.CopyCorrected |
| slist.h:77-81 | the counter is never advanced | a list with one element: length 0 | count the nodes like `dlist_length` | high, not executed | SList.LengthOfOneElement | SList.LengthCorrected |
| dlist.h:202 | returns `dst->next` | splice [y, z] before the head of [x]: returns x | return the last inserted node, or dst when src is empty, as the comment at dlist.h:192 says | high, not executed | DList.SpliceBeforeReturnsSuccessor | DList.SpliceBeforeCorrected |
| dlist.h:184 | returns `dst->next` also when src is empty | splice an empty list after the head of [x]: returns x | return dst when src is empty, as the comment at dlist.h:174 says | high, not executed | DList.SpliceAfterEmptyReturnsSuccessor | DList.SpliceAfterCorrected |
