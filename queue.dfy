/** A singly-linked FIFO queue of element handles: a header with `front`,
    `back` and a cached `size`, over a chain of nodes linked by `next`. */
module Queues {
  import opened Sequences

  /** One link of the chain: an element handle and the next node, if any. */
  class Node<T> {
    var data: T
    var next: Node?<T>

    /** A fresh node holding `x`, with no successor. */
    constructor (x: T)
      ensures data == x && next == null
    {
      data := x;
      next := null;
    }

    /** A fresh node whose `data` is written and whose `next` is left as the
        allocator returned it: any value at all. */
    constructor Alloc(x: T)
      ensures data == x
    {
      data := x;
    }
  }

  /** The node reached from `start` after following `next` `k` times, or null
      once the chain has ended. */
  ghost function Walk<T>(start: Node?<T>, k: nat): (n: Node?<T>)
    reads *
  {
    if k == 0 then start
    else
      var p := Walk(start, k - 1);
      if p == null then null else p.next
  }

  /** The chain from `start` is an inclusive segment of `i` nodes ending at
      `end`, and `end` is the last node of the chain (or the chain is empty). */
  ghost predicate IsSegment<T>(start: Node?<T>, end: Node?<T>, i: int)
    reads *
  {
    (start == null && i == 0) ||
    (end != null && end.next == null && i >= 1 && Walk(start, i - 1) == end)
  }

  /** Once the walk has reached null it stays there. */
  lemma {:induction false} WalkStaysNull<T>(start: Node?<T>, a: nat, b: nat)
    requires a <= b && Walk(start, a) == null
    ensures Walk(start, b) == null
    decreases b
  {
    if a < b {
      WalkStaysNull(start, a, b - 1);
    }
  }

  /** Two walks that meet at one node go on together. */
  lemma {:induction false} WalkShift<T>(start: Node?<T>, a: nat, b: nat, t: nat)
    requires Walk(start, a) == Walk(start, b)
    ensures Walk(start, a + t) == Walk(start, b + t)
    decreases t
  {
    if t > 0 {
      WalkShift(start, a, b, t - 1);
    }
  }

  /** A segment of `i` nodes is a proper chain: its `i` nodes are present and
      pairwise distinct (no cycle), and the walk ends right after them. */
  lemma SegmentIsChain<T>(start: Node?<T>, end: Node?<T>, i: int)
    requires IsSegment(start, end, i)
    ensures i >= 0
    ensures forall a: nat :: a < i ==> Walk(start, a) != null
    ensures forall a: nat, b: nat :: a < b < i ==> Walk(start, a) != Walk(start, b)
    ensures Walk(start, i) == null
  {
    if i == 0 {
      return;
    }
    forall a: nat | a < i ensures Walk(start, a) != null {
      if Walk(start, a) == null {
        WalkStaysNull(start, a, i - 1);
      }
    }
    forall a: nat, b: nat | a < b < i ensures Walk(start, a) != Walk(start, b) {
      if Walk(start, a) == Walk(start, b) {
        var t := i - 1 - b;
        WalkShift(start, a, b, t);
        assert Walk(start, a + t + 1) == null;
      }
    }
  }

  /** The source's own invariant check: does the chain from `start` reach `end`
      after visiting exactly `i` nodes, with `end` the last node?  The walk gives
      up once it has gone past `i` nodes, so it ends on a cyclic chain too. */
  method IsInclusiveSegment<T>(start: Node?<T>, end: Node?<T>, i: int) returns (b: bool)
    ensures b <==> IsSegment(start, end, i)
  {
    if start == null && i == 0 {
      return true;
    }
    if end == null || end.next != null {
      return false;
    }
    if start == end && start.next == null && i == 1 {
      return true;
    }
    var k := 1;
    var s := start;
    while s != null && s != end
      invariant 1 <= k
      invariant s == Walk(start, k - 1)
      invariant forall j: nat :: j < k - 1 ==> Walk(start, j) != null && Walk(start, j) != end
      decreases i + 1 - k
    {
      if k > i {
        return false;
      }
      k := k + 1;
      s := s.next;
    }
    if s == null || k != i {
      if i >= 1 && i - 1 >= k - 1 {
        if s == null {
          WalkStaysNull(start, k - 1, i - 1);
        } else {
          assert Walk(start, k) == null;
          WalkStaysNull(start, k, i - 1);
        }
      }
      return false;
    }
    return true;
  }

  /** Reversing a chain's node sequence keeps its set of nodes. */
  lemma ReversedSameNodes<T>(s: seq<Node<T>>)
    ensures (set n | n in Reversed(s)) == (set n | n in s)
  {
    ReversedPermutes(s);
    var reversed, original := set n | n in Reversed(s), set n | n in s;
    forall n | n in reversed ensures n in original {
      assert n in multiset(Reversed(s));
    }
    forall n | n in original ensures n in reversed {
      assert n in multiset(s);
    }
  }

  /** A chain whose links all point backward, read in reverse, is a chain
      linked forward that ends with no successor. */
  lemma ReversedChain<T>(s: seq<Node<T>>)
    requires |s| > 0 && s[0].next == null
    requires forall k :: 0 < k < |s| ==> s[k].next == s[k - 1]
    requires forall i, j :: 0 <= i < j < |s| ==> s[i] != s[j]
    ensures |Reversed(s)| == |s|
    ensures forall k :: 0 <= k < |s| ==> Reversed(s)[k] == s[|s| - 1 - k]
    ensures forall k :: 0 <= k < |s| - 1 ==> Reversed(s)[k].next == Reversed(s)[k + 1]
    ensures forall i, j :: 0 <= i < j < |s| ==> Reversed(s)[i] != Reversed(s)[j]
    ensures Reversed(s)[|s| - 1].next == null
  {
    ReversedIndex(s);
  }

  /** The pointer loop of the reversal: walks the chain from `first`, turning
      each node's `next` link to point at the node before it. */
  method ReverseLinks<T>(first: Node<T>, ghost chain: seq<Node<T>>)
    requires |chain| > 0 && chain[0] == first && chain[|chain| - 1].next == null
    requires forall k :: 0 <= k < |chain| - 1 ==> chain[k].next == chain[k + 1]
    requires forall a, b :: 0 <= a < b < |chain| ==> chain[a] != chain[b]
    modifies chain
    ensures chain[0].next == null
    ensures forall k :: 0 < k < |chain| ==> chain[k].next == chain[k - 1]
    ensures forall k :: 0 <= k < |chain| ==> chain[k].data == old(chain[k].data)
  {
    ghost var n := |chain|;
    var prev: Node?<T> := null;
    var f: Node?<T> := first;
    ghost var j := 0;
    while f != null
      invariant 0 <= j <= n
      invariant f == (if j < n then chain[j] else null)
      invariant prev == (if j == 0 then null else chain[j - 1])
      invariant forall k :: 0 < k < j ==> chain[k].next == chain[k - 1]
      invariant j > 0 ==> chain[0].next == null
      invariant forall k :: j <= k < n - 1 ==> chain[k].next == chain[k + 1]
      invariant j < n ==> chain[n - 1].next == null
      invariant forall k :: 0 <= k < n ==> chain[k].data == old(chain[k].data)
      decreases n - j
    {
      var node := f.next;
      f.next := prev;
      prev := f;
      f := node;
      j := j + 1;
    }
  }

  /** The queue header. */
  class Queue<T> {
    var front: Node?<T>
    var back: Node?<T>
    var size: int

    /** The chain, front to back. */
    ghost var nodes: seq<Node<T>>
    /** The element handles, front to back. */
    ghost var Contents: seq<T>
    /** The nodes of the chain, and nothing else. */
    ghost var Repr: set<Node<T>>

    /** The representation invariant: `size` distinct nodes, each linked to the
        next, the last one without a successor, `front` and `back` the ends of
        the chain.  Nothing is required of `back` when the queue is empty. */
    ghost predicate Valid()
      reads this, Repr
    {
      Repr == (set n | n in nodes) &&
      size == |nodes| && |Contents| == |nodes| &&
      (forall k :: 0 <= k < |nodes| ==> nodes[k].data == Contents[k]) &&
      (forall k :: 0 <= k < |nodes| - 1 ==> nodes[k].next == nodes[k + 1]) &&
      (forall i, j :: 0 <= i < j < |nodes| ==> nodes[i] != nodes[j]) &&
      (|nodes| == 0 ==> front == null) &&
      (|nodes| > 0 ==> front == nodes[0] && back == nodes[|nodes| - 1] && back.next == null)
    }

    /** A valid queue passes the source's invariant check, and the walk from
        `front` visits exactly the nodes of the chain. */
    lemma ValidIsSegment()
      requires Valid()
      ensures forall k: nat :: k < size ==> Walk(front, k) == nodes[k]
      ensures IsSegment(front, back, size)
    {
      var k: nat := 0;
      while k < size
        invariant k <= size
        invariant forall j: nat :: j < k ==> Walk(front, j) == nodes[j]
      {
        if k > 0 {
          assert Walk(front, k) == Walk(front, k - 1).next;
        }
        k := k + 1;
      }
    }

    /** The state `Reverse` leaves behind is valid: the chain `s`, whose links
        now all point backward, read in reverse order. */
    lemma ValidAfterReverse(s: seq<Node<T>>, c: seq<T>)
      requires |s| > 0 && |c| == |s| && s[0].next == null
      requires forall k :: 0 < k < |s| ==> s[k].next == s[k - 1]
      requires forall i, j :: 0 <= i < j < |s| ==> s[i] != s[j]
      requires forall k :: 0 <= k < |s| ==> s[k].data == c[k]
      requires Repr == (set n | n in s)
      requires nodes == Reversed(s) && Contents == Reversed(c) && size == |s|
      requires front == s[|s| - 1] && back == s[0]
      ensures Valid()
    {
      ReversedIndex(c);
      ReversedChain(s);
      ReversedSameNodes(s);
    }

    /** An empty queue. */
    constructor ()
      ensures Valid() && Repr == {}
      ensures size == 0 && Contents == []
    {
      front := null;
      size := 0;
      nodes := [];
      Contents := [];
      Repr := {};
    }

    /** The number of elements in the queue. */
    method Size() returns (n: nat)
      requires Valid()
      ensures n == |Contents|
    {
      n := size;
    }

    /** Appends `x` at the back. */
    method Enq(x: T)
      requires Valid()
      modifies this, Repr
      ensures Valid() && fresh(back) && Repr == old(Repr) + {back}
      ensures nodes == old(nodes) + [back]
      ensures Contents == old(Contents) + [x]
      ensures size == old(size) + 1
      ensures old(size) == 0 ==> front == back
    {
      var node := new Node(x);
      if size == 0 {
        front := node;
        back := node;
      } else {
        back.next := node;
        back := back.next;
      }
      size := size + 1;
      nodes := nodes + [node];
      Contents := Contents + [x];
      Repr := Repr + {node};
    }

    /** Appends `x` at the back exactly as written, where the new node's `next`
        is never assigned: the invariant is restored only when that field
        happens to be null, and otherwise the invariant check fails. */
    method EnqAsWritten(x: T)
      requires Valid()
      modifies this, Repr
      ensures back != null && fresh(back) && Repr == old(Repr) + {back}
      ensures nodes == old(nodes) + [back]
      ensures Contents == old(Contents) + [x] && size == old(size) + 1
      ensures back.data == x
      ensures back.next == null ==> Valid()
      ensures back.next != null ==> !IsSegment(front, back, size)
    {
      var node := new Node.Alloc(x);
      if size == 0 {
        front := node;
        back := node;
      } else {
        back.next := node;
        back := back.next;
      }
      size := size + 1;
      nodes := nodes + [node];
      Contents := Contents + [x];
      Repr := Repr + {node};
    }

    /** Removes and returns the front element; the caller must not dequeue
        from an empty queue. */
    method Deq() returns (x: T)
      requires Valid()
      requires size > 0
      modifies this
      ensures Valid() && Repr == old(Repr) - {old(front)}
      ensures x == old(Contents)[0]
      ensures Contents == old(Contents)[1..]
      ensures size == old(size) - 1
    {
      x := front.data;
      var temp := front;
      front := front.next;
      size := size - 1;
      nodes := nodes[1..];
      Contents := Contents[1..];
      Repr := Repr - {temp};
    }

    /** The element at position `i`, counted from the front. */
    method Peek(i: nat) returns (x: T)
      requires Valid()
      requires i < size
      ensures x == Contents[i]
    {
      var f := front;
      for k := 0 to i
        invariant f == nodes[k]
      {
        f := f.next;
      }
      x := f.data;
    }

    /** Reverses the chain in place by turning every `next` link around, then
        swaps `front` and `back`. */
    method Reverse()
      requires Valid()
      modifies this, Repr
      ensures Valid() && Repr == old(Repr)
      ensures Contents == Reversed(old(Contents))
      ensures size == old(size)
      ensures old(size) > 0 ==> front == old(back) && back == old(front)
      ensures old(size) <= 1 ==> unchanged(this) && unchanged(Repr)
    {
      if size <= 1 {
        ReversedShort(Contents);
        return;
      }
      ReverseLinks(front, nodes);
      var oldFront := front;
      front := back;
      back := oldFront;
      ghost var chain, elems := nodes, Contents;
      nodes, Contents := Reversed(chain), Reversed(elems);
      ValidAfterReverse(chain, elems);
    }

    /** Whether `P` holds of every element, testing front to back and stopping
        at the first element that fails; `calls` counts the tests made. */
    method All(P: T -> bool) returns (b: bool, ghost calls: nat)
      requires Valid()
      ensures b <==> forall k :: 0 <= k < |Contents| ==> P(Contents[k])
      ensures calls <= |Contents| && (b ==> calls == |Contents|)
      ensures !b ==> 0 < calls && !P(Contents[calls - 1])
      ensures forall k :: 0 <= k < calls - 1 ==> P(Contents[k])
    {
      var f := front;
      calls := 0;
      while f != null
        invariant calls <= size
        invariant f == (if calls < size then nodes[calls] else null)
        invariant forall k :: 0 <= k < calls ==> P(Contents[k])
        decreases size - calls
      {
        calls := calls + 1;
        if !P(f.data) {
          return false, calls;
        }
        f := f.next;
      }
      return true, calls;
    }

    /** The left fold of `F` over the elements, front to back, from `base`. */
    method Iterate<A>(base: A, F: (A, T) -> A) returns (r: A)
      requires Valid()
      ensures r == FoldLeft(F, base, Contents)
    {
      if size == 0 {
        return base;
      }
      var f := front;
      r := base;
      ghost var k := 0;
      while f != null
        invariant k <= size
        invariant f == (if k < size then nodes[k] else null)
        invariant r == FoldLeft(F, base, Contents[..k])
        decreases size - k
      {
        FoldLeftSnoc(F, base, Contents[..k], f.data);
        assert Contents[..k + 1] == Contents[..k] + [f.data];
        r := F(r, f.data);
        f := f.next;
        k := k + 1;
      }
      assert Contents[..k] == Contents;
    }

    /** The walk of the teardown: the element handles in the order they are
        handed to the cleanup callback. */
    method Free() returns (released: seq<T>)
      requires Valid()
      ensures released == Contents
    {
      var f := front;
      released := [];
      while f != null
        invariant |released| <= size
        invariant f == (if |released| < size then nodes[|released|] else null)
        invariant released == Contents[..|released|]
        decreases size - |released|
      {
        var temp := f.next;
        released := released + [f.data];
        f := temp;
      }
    }
  }

  /** The source's invariant check on a header: a queue exists, its size is
      not negative, and the chain from `front` is a segment of `size` nodes
      ending at `back`. */
  method IsQueue<T>(q: Queue?<T>) returns (b: bool)
    ensures b <==> q != null && q.size >= 0 && IsSegment(q.front, q.back, q.size)
  {
    if q == null || q.size < 0 {
      return false;
    }
    b := IsInclusiveSegment(q.front, q.back, q.size);
  }

  /** A client run: enqueue 1, 2, 3; dequeue 1; reverse; dequeue 3 then 2. */
  method FifoScenario()
  {
    var q := new Queue<int>();
    q.Enq(1);
    q.Enq(2);
    q.Enq(3);
    var x := q.Deq();
    assert x == 1;
    var n := q.Size();
    assert n == 2;
    q.Reverse();
    ReversedIndex([2, 3]);
    x := q.Deq();
    assert x == 3;
    x := q.Deq();
    assert x == 2;
    n := q.Size();
    assert n == 0;
  }
}
