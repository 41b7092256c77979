/**
  A priority queue kept as an implicit binary heap in a growable vector
  (priority_queue.cpp). The element type is fixed to `int` and the comparator
  to its default, `>`: an element is "better" than another when it is larger,
  so the queue is a max-heap and pops the largest element first.
 */
module Heap {
  import opened Wrappers

  /** The default comparator: `e1` is strictly better than `e2`. */
  predicate Better(e1: int, e2: int) {
    e1 > e2
  }

  /** `x >= n` as priority_queue.cpp evaluates it when the `int` index `x` is compared
      with the unsigned `size`: a negative `x` converts to a huge value. */
  predicate AtOrBeyond(x: int, n: nat) {
    x < 0 || x >= n
  }

  /** Entry `j` is no better than its parent (trivially so for the root). */
  ghost predicate ParentOk(h: seq<int>, j: int) {
    0 < j < |h| ==> !Better(h[j], h[(j - 1) / 2])
  }

  /** The heap invariant: no element is strictly better than its parent. */
  ghost predicate IsHeap(h: seq<int>) {
    forall j :: 0 < j < |h| ==> ParentOk(h, j)
  }

  /** Entry `c`, if it exists, is no better than entry `a`. */
  ghost predicate NoBetterThan(h: seq<int>, c: int, a: nat) {
    0 <= c < |h| && a < |h| ==> !Better(h[c], h[a])
  }

  /** The heap invariant everywhere except between `i` and its parent, while
      `i`'s children are still no better than `i`'s parent (the state during
      a bubble-up). */
  ghost predicate HeapExceptUp(h: seq<int>, i: nat) {
    && (forall j :: 0 < j < |h| && j != i ==> ParentOk(h, j))
    && (0 < i ==> NoBetterThan(h, 2 * i + 1, (i - 1) / 2) && NoBetterThan(h, 2 * i + 2, (i - 1) / 2))
  }

  /** The heap invariant everywhere except between `i` and its children,
      while those children are no better than `i`'s parent (the state during
      a bubble-down). */
  ghost predicate HeapExceptDown(h: seq<int>, i: nat) {
    && (forall j :: 0 < j < |h| && (j - 1) / 2 != i ==> ParentOk(h, j))
    && (0 < i ==> NoBetterThan(h, 2 * i + 1, (i - 1) / 2) && NoBetterThan(h, 2 * i + 2, (i - 1) / 2))
  }

  /** Exchange two entries (std::swap on two vector slots). */
  function Swap(h: seq<int>, i: nat, j: nat): (r: seq<int>)
    requires i < |h| && j < |h|
    ensures |r| == |h| && r[i] == h[j] && r[j] == h[i]
    ensures forall k {:trigger r[k]} :: 0 <= k < |h| && k != i && k != j ==> r[k] == h[k]
    ensures multiset(r) == multiset(h)
  {
    h[i := h[j]][j := h[i]]
  }

  /** No stored element is better than the root of a heap. */
  lemma {:induction false} RootIsBest(h: seq<int>, k: nat)
    requires IsHeap(h) && k < |h|
    ensures !Better(h[k], h[0])
    decreases k
  {
    if k > 0 {
      assert ParentOk(h, k);
      RootIsBest(h, (k - 1) / 2);
    }
  }

  /** One bubble-up step: swapping a node that beats its parent moves the
      exception one level up. */
  lemma SwapUp(h: seq<int>, i: nat)
    requires 0 < i < |h| && HeapExceptUp(h, i) && Better(h[i], h[(i - 1) / 2])
    ensures HeapExceptUp(Swap(h, i, (i - 1) / 2), (i - 1) / 2)
  {
    var p := (i - 1) / 2;
    var h' := Swap(h, i, p);
    SwapUpParents(h, i, p, h');
    if 0 < p {
      var sibling := if i == 2 * p + 1 then 2 * p + 2 else 2 * p + 1;
      assert ParentOk(h, p) && ParentOk(h, sibling);
    }
  }

  /** After a bubble-up swap every entry except the parent's is no better
      than its own parent. */
  lemma SwapUpParents(h: seq<int>, i: nat, p: nat, h': seq<int>)
    requires 0 < i < |h| && p == (i - 1) / 2 && HeapExceptUp(h, i) && Better(h[i], h[p])
    requires h' == Swap(h, i, p)
    ensures forall j :: 0 < j < |h'| && j != p ==> ParentOk(h', j)
  {
    ChildIndex(p, i);
    forall j | 0 < j < |h'| && j != p
      ensures ParentOk(h', j)
    {
      if j == i {
      } else if (j - 1) / 2 == i {
        ChildIndex(i, j);
        assert h'[j] == h[j];
      } else {
        assert ParentOk(h, j);
      }
    }
  }

  /** The children of `i` are `2i+1` and `2i+2`. */
  lemma ChildIndex(i: int, j: int)
    requires 0 < j && (j - 1) / 2 == i
    ensures j == 2 * i + 1 || j == 2 * i + 2
  {
  }

  /** The index of child `c` (1 or 2) of `i`, or -1 when it is not stored. */
  function ChildOrNone(i: int, c: int, n: nat): int {
    if 0 <= i && 2 * i + c < n then 2 * i + c else -1
  }

  /** One bubble-down step: swapping a node with its better child `m` when
      that child beats it moves the exception one level down. */
  lemma SwapDown(h: seq<int>, i: nat, m: int)
    requires HeapExceptDown(h, i) && i < |h|
    requires m == ChildOrNone(i, 1, |h|) || m == ChildOrNone(i, 2, |h|)
    requires 0 <= m && NoBetterThan(h, ChildOrNone(i, 1, |h|), m) && NoBetterThan(h, ChildOrNone(i, 2, |h|), m)
    requires Better(h[m], h[i])
    ensures i < m < |h| && HeapExceptDown(Swap(h, m, i), m)
  {
    var h' := Swap(h, m, i);
    forall j | 0 < j < |h'| && (j - 1) / 2 != m
      ensures ParentOk(h', j)
    {
      if j == m {
      } else if (j - 1) / 2 == i {
        ChildIndex(i, j);
      } else if j == i {
      } else {
        assert ParentOk(h, j);
      }
    }
    assert ParentOk(h, 2 * m + 1) && ParentOk(h, 2 * m + 2);
  }

  /** Bubbling down ends in a heap once the node has no child, or its better
      child `m` does not beat it. */
  lemma DownDone(h: seq<int>, i: nat, m: int)
    requires HeapExceptDown(h, i)
    requires m == -1 ==> ChildOrNone(i, 1, |h|) == -1 && ChildOrNone(i, 2, |h|) == -1
    requires m != -1 ==> i < |h| && 0 <= m < |h| && !Better(h[m], h[i])
    requires m != -1 ==> NoBetterThan(h, ChildOrNone(i, 1, |h|), m) && NoBetterThan(h, ChildOrNone(i, 2, |h|), m)
    ensures IsHeap(h)
  {
    forall j | 0 < j < |h| && (j - 1) / 2 == i
      ensures ParentOk(h, j)
    {
      ChildIndex(i, j);
    }
  }

  /** No element of a non-increasing sequence is better than an earlier one. */
  ghost predicate NonIncreasing(s: seq<int>) {
    forall i, j :: 0 <= i < j < |s| ==> s[i] >= s[j]
  }

  /** The head of a non-increasing sequence is its largest element. */
  lemma HeadIsLargest(s: seq<int>, x: int)
    requires NonIncreasing(s) && x in multiset(s)
    ensures s != [] && s[0] >= x
  {
    assert x in s;
    var i :| 0 <= i < |s| && s[i] == x;
  }

  /** Removing equal heads from two sequences with the same elements leaves
      tails with the same elements. */
  lemma SameTails(a: seq<int>, b: seq<int>)
    requires a != [] && b != [] && a[0] == b[0] && multiset(a) == multiset(b)
    ensures multiset(a[1..]) == multiset(b[1..])
  {
    calc {
      multiset(a[1..]);
      { assert a == [a[0]] + a[1..]; }
      multiset(a) - multiset{a[0]};
      multiset(b) - multiset{b[0]};
      { assert b == [b[0]] + b[1..]; }
      multiset(b[1..]);
    }
  }

  /** A non-increasing sequence is determined by its multiset of elements. */
  lemma {:induction false} NonIncreasingUnique(a: seq<int>, b: seq<int>)
    requires NonIncreasing(a) && NonIncreasing(b) && multiset(a) == multiset(b)
    ensures a == b
    decreases |a|
  {
    if a == [] {
      assert |b| == |multiset(b)| == 0;
    } else {
      assert b != [] && a[0] == b[0] by {
        HeadIsLargest(b, a[0]);
        HeadIsLargest(a, b[0]);
      }
      SameTails(a, b);
      NonIncreasingUnique(a[1..], b[1..]);
      assert a == [a[0]] + a[1..] && b == [b[0]] + b[1..];
    }
  }

  /** `bubble_up` taken literally, on a snapshot of the vector:
      `None` when the loop guard evaluates `heap[parent(0)]`, that is, reads
      index -1 of the vector. */
  function BubbleUpAsWritten(h: seq<int>, i: nat): (r: Option<seq<int>>)
    requires i < |h|
    ensures r.Some? ==> multiset(r.value) == multiset(h)
  {
    if i == 0 then Some(h)  // parent(i) == -1 on entry: nothing to do
    else BubbleUpLoopAsWritten(h, i)
  }

  /** The while loop of bubble_up as written: after a swap that lands on the
      root, the guard compares against `heap[-1]`. */
  function BubbleUpLoopAsWritten(h: seq<int>, i: nat): (r: Option<seq<int>>)
    requires 0 < i < |h|
    ensures r.Some? ==> multiset(r.value) == multiset(h)
    decreases i
  {
    var p := (i - 1) / 2;
    if !Better(h[i], h[p]) then Some(h)
    else if p == 0 then None  // `i == -1` never holds; the guard then reads heap[-1]
    else BubbleUpLoopAsWritten(Swap(h, i, p), p)
  }

  lemma {:induction false} LoopReadsBeforeRoot(h: seq<int>, i: nat)
    requires 0 < i < |h|
    requires forall j :: 0 <= j < |h| && j != i ==> Better(h[i], h[j])
    ensures BubbleUpLoopAsWritten(h, i) == None
    decreases i
  {
    var p := (i - 1) / 2;
    if p != 0 {
      var h' := Swap(h, i, p);
      forall j | 0 <= j < |h'| && j != p
        ensures Better(h'[p], h'[j])
      {
        if j == i {
        } else {
          assert h'[j] == h[j];
        }
      }
      LoopReadsBeforeRoot(h', p);
    }
  }

  /** Pushing onto a non-empty heap any element better than the current top
      makes the literal `bubble_up` read `heap[-1]`. */
  lemma PushNewTopReadsOutOfRange(h: seq<int>, x: int)
    requires IsHeap(h) && |h| > 0 && Better(x, h[0])
    ensures BubbleUpAsWritten(h + [x], |h|) == None
  {
    var h' := h + [x];
    forall j | 0 <= j < |h'| && j != |h|
      ensures Better(h'[|h|], h'[j])
    {
      RootIsBest(h, j);
    }
    LoopReadsBeforeRoot(h', |h|);
  }

  /** The smallest case: pushing 2 onto the queue [1]. */
  lemma PushTwoOntoOneReadsOutOfRange()
    ensures BubbleUpAsWritten([1, 2], 1) == None
  {
    PushNewTopReadsOutOfRange([1], 2);
  }

  class PriorityQueue {
    var heap: seq<int>
    var size: nat

    /** `size` tracks the length of the vector, which is a heap. */
    ghost predicate Valid()
      reads this
    {
      size == |heap| && IsHeap(heap)
    }

    constructor ()
      ensures Valid() && heap == []
    {
      heap := [];
      size := 0;
    }

    /** Index of the left child of `i`, or -1 when `i` or the child is out of range. */
    function Left(i: int): (r: int)
      reads this
      ensures r == ChildOrNone(i, 1, size)
    {
      var answer := (i + 1) * 2 - 1;
      if AtOrBeyond(answer, size) || AtOrBeyond(i, size) then -1 else answer
    }

    /** Index of the right child of `i`, or -1 when `i` or the child is out of range. */
    function Right(i: int): (r: int)
      reads this
      ensures r == ChildOrNone(i, 2, size)
    {
      var answer := (i + 1) * 2;
      if AtOrBeyond(answer, size) || AtOrBeyond(i, size) then -1 else answer
    }

    /** Index of the parent of `i`, or -1 for the root and out-of-range `i`. */
    function Parent(i: int): (r: int)
      reads this
      ensures r == -1 <==> !(0 < i < size)
      ensures r != -1 ==> 0 <= r < i && r == (i - 1) / 2
    {
      if i <= 0 || AtOrBeyond(i, size) then -1 else (i - 1) / 2
    }

    /** The child and parent helpers are inverse to each other. */
    lemma ParentOfChild(i: int, j: int)
      ensures Left(i) != -1 ==> Parent(Left(i)) == i
      ensures Right(i) != -1 ==> Parent(Right(i)) == i
      ensures Parent(j) != -1 ==> Left(Parent(j)) == j || Right(Parent(j)) == j
    {
    }

    /** Index of the last slot of the vector, the one `push` has just
      filled (-1 on an empty queue). */
    function LastElt(): (r: int)
      reads this
      requires size == |heap|
      ensures r == |heap| - 1
      ensures r == -1 <==> heap == []
    {
      size - 1
    }

    /** Of two candidate indices, the in-range one whose element the other
      does not beat; -1 when neither is in range; ties go to `e2`. */
    function BetterElt(e1: int, e2: int): (r: int)
      reads this
      requires size == |heap|
      ensures r == -1 <==> AtOrBeyond(e1, size) && AtOrBeyond(e2, size)
      ensures r != -1 ==> (r == e1 || r == e2) && 0 <= r < size
      ensures r != -1 ==> NoBetterThan(heap, e1, r) && NoBetterThan(heap, e2, r)
      ensures !AtOrBeyond(e1, size) && !AtOrBeyond(e2, size) ==> (r == e1 <==> e1 == e2 || Better(heap[e1], heap[e2]))
    {
      if AtOrBeyond(e1, size) && AtOrBeyond(e2, size) then -1
      else if AtOrBeyond(e1, size) then e2
      else if AtOrBeyond(e2, size) then e1
      else if Better(heap[e1], heap[e2]) then e1
      else e2
    }

    /** Move the element at `i` towards the root while it beats its parent.
      `bubble_up` tests `i == -1` after each step, which never holds, and then
      reads `heap[parent(0)]`; this version stops once `i` is the root. */
    method BubbleUp(start: int)
      requires size == |heap| && 0 <= start < size && HeapExceptUp(heap, start)
      modifies this
      ensures Valid() && size == old(size)
      ensures multiset(heap) == old(multiset(heap))
    {
      var i := start;
      if Parent(i) == -1 {
        return;
      }
      while Better(heap[i], heap[Parent(i)])
        invariant size == |heap| && size == old(size) && 0 < i < size
        invariant HeapExceptUp(heap, i)
        invariant multiset(heap) == old(multiset(heap))
        decreases i
      {
        var p := Parent(i);
        SwapUp(heap, i);
        heap := Swap(heap, i, p);
        i := p;
        if Parent(i) == -1 {
          return;
        }
      }
    }

    /** Move the element at `i` away from the root while its better child
      beats it. */
    method BubbleDown(start: int)
      requires size == |heap| && 0 <= start && HeapExceptDown(heap, start)
      modifies this
      ensures Valid() && size == old(size)
      ensures multiset(heap) == old(multiset(heap))
    {
      var i := start;
      var m := BetterElt(Left(i), Right(i));
      if m == -1 {
        DownDone(heap, i, m);
        return;
      }
      while Better(heap[m], heap[i])
        invariant size == |heap| && size == old(size) && 0 <= i < size
        invariant m != -1 && m == BetterElt(Left(i), Right(i))
        invariant HeapExceptDown(heap, i)
        invariant multiset(heap) == old(multiset(heap))
        decreases size - i
      {
        SwapDown(heap, i, m);
        heap := Swap(heap, m, i);
        i := m;
        m := BetterElt(Left(i), Right(i));
        if m == -1 {
          DownDone(heap, i, m);
          return;
        }
      }
      DownDone(heap, i, m);
    }

    /** Append `elt` and restore the heap by bubbling it up. */
    method Push(elt: int)
      requires Valid()
      modifies this
      ensures Valid()
      ensures size == old(size) + 1
      ensures multiset(heap) == old(multiset(heap)) + multiset{elt}
    {
      ghost var before := heap;
      heap := heap + [elt];
      size := size + 1;
      forall j | 0 < j < |heap| && j != |before|
        ensures ParentOk(heap, j)
      {
        assert ParentOk(before, j);
      }
      BubbleUp(LastElt());
    }

    /** Remove one copy of the root: swap it with the last element, drop the
      last slot and bubble the new root down. */
    method Pop()
      requires Valid() && size > 0
      modifies this
      ensures Valid()
      ensures size == old(size) - 1
      ensures multiset(heap) == old(multiset(heap)) - multiset{old(heap[0])}
    {
      var last := LastElt();
      heap := Swap(heap, 0, last);
      assert heap == heap[..last] + [heap[last]];
      heap := heap[..last];
      size := size - 1;
      forall j | 0 < j < |heap| && (j - 1) / 2 != 0
        ensures ParentOk(heap, j)
      {
        assert ParentOk(old(heap), j);
      }
      BubbleDown(0);
    }

    /** The root slot: a stored element that no stored element beats. */
    function Top(): (x: int)
      reads this
      requires Valid() && size > 0
      ensures x == heap[0]
      ensures x in multiset(heap)
      ensures forall k :: 0 <= k < |heap| ==> !Better(heap[k], x)
    {
      assert forall k :: 0 <= k < |heap| ==> !Better(heap[k], heap[0]) by {
        forall k | 0 <= k < |heap| ensures !Better(heap[k], heap[0]) {
          RootIsBest(heap, k);
        }
      }
      heap[0]
    }

    /** Number of stored elements: the length of the vector. */
    function Count(): (n: nat)
      reads this
      requires Valid()
      ensures n == |heap|
    {
      size
    }

    function IsEmpty(): (b: bool)
      reads this
      requires Valid()
      ensures b <==> heap == []
    {
      size == 0
    }
  }

  /** The last element popped so far is at least every element still
      stored. */
  ghost predicate Dominates(out: seq<int>, h: seq<int>) {
    out == [] || forall k :: 0 <= k < |h| ==> out[|out| - 1] >= h[k]
  }

  /** One pass of the draining loop: appending the top `x` that was removed
      from `before`, leaving `after`, keeps the popped sequence
      non-increasing, dominating what is left, and every element accounted
      for. */
  lemma DrainNext(out: seq<int>, before: seq<int>, after: seq<int>, x: int)
    requires NonIncreasing(out) && Dominates(out, before)
    requires x in multiset(before) && forall k :: 0 <= k < |before| ==> !Better(before[k], x)
    requires multiset(after) == multiset(before) - multiset{x}
    ensures NonIncreasing(out + [x]) && Dominates(out + [x], after)
    ensures multiset(out + [x]) + multiset(after) == multiset(out) + multiset(before)
  {
    assert multiset(after) <= multiset(before);
    NoneBetterAfter(before, after, x);
  }

  /** When no element of `before` beats `x`, none of a sub-multiset does. */
  lemma NoneBetterAfter(before: seq<int>, after: seq<int>, x: int)
    requires forall k :: 0 <= k < |before| ==> !Better(before[k], x)
    requires multiset(after) <= multiset(before)
    ensures forall k :: 0 <= k < |after| ==> x >= after[k]
  {
    forall k | 0 <= k < |after|
      ensures x >= after[k]
    {
      assert after[k] in multiset(before);
      var idx :| 0 <= idx < |before| && before[idx] == after[k];
    }
  }

  /** Pop until empty, collecting each top: the pop order is non-increasing
      and holds every stored element once. */
  method Drain(q: PriorityQueue) returns (out: seq<int>)
    requires q.Valid()
    modifies q
    ensures q.Valid() && q.heap == []
    ensures NonIncreasing(out)
    ensures multiset(out) == old(multiset(q.heap))
  {
    out := [];
    while !q.IsEmpty()
      invariant q.Valid()
      invariant NonIncreasing(out)
      invariant Dominates(out, q.heap)
      invariant multiset(out) + multiset(q.heap) == old(multiset(q.heap))
      decreases |q.heap|
    {
      var x := q.Top();
      ghost var before := q.heap;
      q.Pop();
      DrainNext(out, before, q.heap, x);
      out := out + [x];
    }
  }

  /** With `bubble_up` stopping at the root (see `BubbleUp`), pushing 1, 2,
    10, 11 and popping until empty yields 11, 10, 2, 1. As written, the
    second push already reads `heap[-1]` (`PushTwoOntoOneReadsOutOfRange`). */
  method PushPopExample() returns (out: seq<int>)
    ensures out == [11, 10, 2, 1]
  {
    var q := new PriorityQueue();
    q.Push(1);
    q.Push(2);
    q.Push(10);
    q.Push(11);
    out := Drain(q);
    DrainedExample(out);
  }

  /** The only non-increasing arrangement of 1, 2, 10 and 11. */
  lemma DrainedExample(out: seq<int>)
    requires NonIncreasing(out) && multiset(out) == multiset{1, 2, 10, 11}
    ensures out == [11, 10, 2, 1]
  {
    assert multiset(out) == multiset([11, 10, 2, 1]);
    NonIncreasingUnique(out, [11, 10, 2, 1]);
  }
}
