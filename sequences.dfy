/** Reference definitions for the queue's contents: reversal and the strict
    left fold, each defined by recursion on the sequence, with the facts the
    queue operations need about them. */
module Sequences {

  /** The elements of `s` in the opposite order. */
  function Reversed<T>(s: seq<T>): (r: seq<T>)
  {
    if s == [] then [] else Reversed(s[1..]) + [s[0]]
  }

  /** Reversal keeps the length and sends position `k` to position `|s| - 1 - k`. */
  lemma {:induction false} ReversedAt<T>(s: seq<T>, k: nat)
    requires k < |s|
    ensures |Reversed(s)| == |s| && Reversed(s)[k] == s[|s| - 1 - k]
  {
    if |s| > 1 {
      ReversedAt(s[1..], if k < |s| - 1 then k else 0);
    }
  }

  /** The same fact for every position at once. */
  lemma ReversedIndex<T>(s: seq<T>)
    ensures |Reversed(s)| == |s|
    ensures forall k :: 0 <= k < |s| ==> Reversed(s)[k] == s[|s| - 1 - k]
  {
    if s == [] {
    } else {
      ReversedAt(s, 0);
      forall k | 0 <= k < |s| ensures Reversed(s)[k] == s[|s| - 1 - k] {
        ReversedAt(s, k);
      }
    }
  }

  /** Reversal only reorders: it keeps every element with its multiplicity. */
  lemma {:induction false} ReversedPermutes<T>(s: seq<T>)
    ensures multiset(Reversed(s)) == multiset(s)
  {
    if s != [] {
      ReversedPermutes(s[1..]);
      assert s == [s[0]] + s[1..];
    }
  }

  /** Sequences of at most one element are their own reverse. */
  lemma ReversedShort<T>(s: seq<T>)
    requires |s| <= 1
    ensures Reversed(s) == s
  {
    if |s| == 1 {
      assert s[1..] == [];
    }
  }

  /** Reversing twice gives back the original sequence. */
  lemma ReversedReversed<T>(s: seq<T>)
    ensures Reversed(Reversed(s)) == s
  {
    ReversedIndex(s);
    ReversedIndex(Reversed(s));
  }

  /** The strict left fold of `f` over `s`, front to back, starting from `a`. */
  function FoldLeft<A, T>(f: (A, T) -> A, a: A, s: seq<T>): (r: A)
  {
    if s == [] then a else FoldLeft(f, f(a, s[0]), s[1..])
  }

  /** Folding one more element applies `f` once more to the accumulated value. */
  lemma {:induction false} FoldLeftSnoc<A, T>(f: (A, T) -> A, a: A, s: seq<T>, x: T)
    ensures FoldLeft(f, a, s + [x]) == f(FoldLeft(f, a, s), x)
  {
    if s == [] {
      assert [x][1..] == [];
    } else {
      assert (s + [x])[1..] == s[1..] + [x];
      FoldLeftSnoc(f, f(a, s[0]), s[1..], x);
    }
  }

  /** Folding "add one" over `s` from `n` counts its elements. */
  lemma {:induction false} FoldLeftCount<T>(n: int, s: seq<T>)
    decreases s
    ensures FoldLeft((acc: int, x: T) => acc + 1, n, s) == n + |s|
  {
    if s != [] {
      FoldLeftCount(n + 1, s[1..]);
    }
  }
}
