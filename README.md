# Queues: a verified model of a linked FIFO queue

This project models `queue.c`, a singly-linked FIFO queue of opaque element
handles, in Dafny. A queue header holds `front`, `back` and a cached `size`.
The chain below it is made of nodes, each holding one element handle and a
`next` link.

- `sequences.dfy` (module `Sequences`) holds the reference definitions the
  queue is specified against: `Reversed` and the strict left fold `FoldLeft`,
  each defined by recursion on a sequence, with lemmas about them.
- `queue.dfy` (module `Queues`) holds the heap model:
  - `Node` is a class with the fields `data` and `next`.
  - `Queue` is a class with the fields `front`, `back` and `size`. Its ghost
    fields are `nodes` (the chain, front to back), `Contents` (the element
    handles, front to back) and `Repr` (exactly the set of nodes of the chain).
  - `Queue.Valid()` is the representation invariant: `size` distinct nodes,
    each linked to the next, the last one with no successor, and `front` and
    `back` at the two ends. Nothing is required of `back` while the queue is
    empty.
  - The source's own runtime check, `is_inclusive_segment`, is modelled as the
    loop it is (`IsInclusiveSegment`). It is specified through a ghost walk
    along `next` links (`Walk`, `IsSegment`). Two lemmas connect the two
    views: `ValidIsSegment` (every valid queue passes the check) and
    `SegmentIsChain` (a chain that passes the check is acyclic and properly
    terminated).

Every public operation except `queue_new` checks `is_queue` on entry;
`queue_new`, `enq`, `deq`, `queue_peek` and `queue_reverse` also check it on
exit (`queue_reverse` skips that exit check on its early return). Here the
entry check becomes `requires Valid()`, and the exit check becomes
`ensures Valid()` on the constructor and the methods that change the queue.
The read-only methods have no `modifies` clause, so `Valid()` still holds
after them.
The callbacks become Dafny function values: `T -> bool` for the predicate of
`queue_all` and `(A, T) -> A` for the combining function of `queue_iterate`.

Two places where the code does less than one might expect, followed as
written:
- `queue_new` never sets `back` (queue.c:48-50), and `deq` leaves `back`
  pointing at the released node once the queue becomes empty (queue.c:89-93).
  An empty queue might be expected to have no `back` at all. The constructor
  leaves `back` unassigned, `Deq` does not touch it, and `Valid()` says
  nothing about `back` while the queue is empty, just as `is_inclusive_segment`
  returns early for an empty chain (queue.c:24).
- `enq` never sets the new node's `next`. This is recorded under Findings.

The pointer loop of `queue_reverse` (queue.c:118-126) is its own method,
`ReverseLinks`, which `Reverse` calls before swapping the two ends; it
rewrites the `next` links in place exactly as the source's loop does.

## Model

| member | source | states |
|---|---|---|
| Queues.IsInclusiveSegment | queue.c:23-39 | Returns true exactly when the start is null with a count of 0, or when `end` has no successor and `end` is reached from `start` after visiting `i` nodes. With unbounded integers the loop always ends, even on a cyclic chain, because it stops once it has visited more than `i` nodes. |
| Queues.SegmentIsChain | queue.c:23-39 | A chain that passes the segment check has a count of at least 0. Its `i` nodes are all present and pairwise distinct, so the chain has no cycle. The walk reaches null right after them. |
| Queues.IsQueue | queue.c:41-44 | Returns true exactly when the header exists, its size is not negative, and the chain from `front` is a segment of `size` nodes ending at `back`. |
| Queues.Queue.ValidIsSegment | queue.c:41-44 | Every queue satisfying the representation invariant passes the source's `is_queue` check. The walk from `front` visits exactly the nodes of the chain, in order. |
| Queues.Queue.constructor | queue.c:46-54 | The new queue is valid, has size 0, has empty contents and owns no nodes. |
| Queues.Queue.Size | queue.c:56-62 | Returns the number of elements in the queue. This number is never negative. |
| Queues.Queue.Enq | queue.c:64-82 | Keeps the invariant. Adds exactly one element. `x` becomes the last element and every earlier element is unchanged. On an empty queue the new node becomes both `front` and `back`. The new `back` is a freshly allocated node, it is appended to the chain, and it is the only object added to the footprint. |
| Queues.Queue.EnqAsWritten | queue.c:68-81 | Models `enq` as written, where the new node's `next` is never assigned. The new `back` is still the one fresh node appended to the chain and holds `x`. The invariant holds afterwards only if its `next` happens to be null. Otherwise the `is_queue` check at the end of `enq` fails. |
| Queues.Queue.Deq | queue.c:84-97 | Requires a non-empty queue. Returns the front element and leaves the old tail as the contents. Size drops by 1, the invariant is kept, and only the released node leaves the footprint. |
| Queues.Queue.Peek | queue.c:99-110 | Requires `i < size`. Returns the element at position `i` counted from the front, and changes nothing. |
| Queues.Queue.Reverse | queue.c:112-132 | Keeps the invariant, the size and the footprint. The new contents are exactly the reverse of the old, and `front` and `back` swap. When the size is at most 1 no object is changed. |
| Queues.ReverseLinks | queue.c:118-126 | Turns every `next` link of the chain around in place: the first node ends up with no successor, every other node points at the node before it, and no element handle changes. |
| Queues.Queue.ValidAfterReverse | queue.c:128-131 | The chain with its links turned around, read from the old `back` to the old `front`, satisfies the invariant again, with the reversed contents and the same set of nodes. |
| Sequences.ReversedAt | queue.c:118-130 | Reversal keeps the length. It puts the element at position `k` at position `size - 1 - k`. |
| Sequences.ReversedShort | queue.c:116 | A sequence of at most one element is its own reverse, so the early return of `queue_reverse` is correct. |
| Sequences.ReversedReversed | queue.c:112-132 | Reversing twice restores the original sequence, so two calls of `queue_reverse` restore the queue's contents. |
| Queues.Queue.All | queue.c:134-147 | Returns true exactly when the predicate holds for every element. It tests front to back. On false, the last element tested is the first one that fails, and every earlier element passed. On true, every element was tested. An empty queue gives true. |
| Queues.Queue.Iterate | queue.c:149-164 | Returns the left fold of `F` over the contents, front to back, starting from `base`. For an empty queue this is `base`. |
| Sequences.FoldLeftSnoc | queue.c:159-162 | Folding one more element at the back applies the combining function once more to the accumulated value. This is the step of `queue_iterate`'s loop. |
| Sequences.FoldLeftCount | queue.c:149-164 | Folding "add one" from `n` over a sequence gives `n` plus its length, so counting with `queue_iterate` gives the size. |
| Queues.Queue.Free | queue.c:166-181 | The element handles are passed to the cleanup callback in front-to-back order, each exactly once. |

## Findings

| source | as written | input that shows it | evidently intended | confidence | as-written member | corrected member |
|---|---|---|---|---|---|---|
| queue.c:68-69 | `enq` allocates a node and sets only its `data`. The node's `next` keeps whatever the allocator left in it. | Any `enq` where the allocator returns memory whose `next` slot is not null. The new back node then has a successor, and `ENSURES(is_queue(Q))` at queue.c:81 fails. | The new node's `next` is null, so the new node ends the chain. | not executed; depends on the allocator not zeroing memory | Queues.Queue.EnqAsWritten | Queues.Queue.Enq |

## Left out

- Deallocation: Dafny has no `free`. `Deq` takes the released node out of the footprint, and `Free` only walks the chain.
- Queues.Queue.Free: the queue stays usable afterwards. The model does not capture that the header and nodes are released, or that the handle becomes invalid.
- Allocation failure: `xmalloc` becomes `new`, which always succeeds. The allocator's abort-on-exhaustion behaviour is not modelled. The allocator library is not part of this model.
- Queues.IsInclusiveSegment: `i` and the counter `k` are unbounded integers. In C, `is_queue` on a corrupted header with `size == INT_MAX` and a cyclic chain never returns: the test `k > i` can never hold and `k++` overflows a signed `int`. The model does not capture that non-termination.
- C integer widths: `size` is an unbounded integer. The conversion from `int` to `size_t` in `queue_size` and a possible overflow of `Q->size++` are not modelled.
- Null checks on the queue, predicate and callback arguments: Dafny's non-null references and function values rule these out. `IsQueue` still takes a nullable header, because `is_queue` tests for null.
- Side effects of the callbacks: the predicate, combining function and cleanup function are modelled as pure functions. The cleanup callback is represented by the sequence of handles it receives.
- The run-time contract machinery (`REQUIRES`/`ENSURES`): it becomes Dafny `requires` and `ensures` clauses, checked statically.
