/**
  An unbalanced binary search tree (BST.cpp). The element type is fixed to
  `int`, the comparator to its default `<` and the equalizer to `==`. Nodes
  are a datatype; the tree object holds the root and the element count.
 */
module SearchTree {
  import opened Wrappers

  datatype Tree = Leaf | Node(left: Tree, value: int, right: Tree)

  /** The set of values stored in `t`. */
  ghost function Elements(t: Tree): set<int> {
    match t
    case Leaf => {}
    case Node(l, x, r) => Elements(l) + {x} + Elements(r)
  }

  /** The values stored in `t`, one copy per node. */
  ghost function Values(t: Tree): multiset<int> {
    match t
    case Leaf => multiset{}
    case Node(l, x, r) => Values(l) + multiset{x} + Values(r)
  }

  function NodeCount(t: Tree): nat {
    match t
    case Leaf => 0
    case Node(l, _, r) => NodeCount(l) + 1 + NodeCount(r)
  }

  /** The search-tree order under the default comparator and equalizer:
      every value in a left subtree is `<` the node, every value in a right
      subtree is neither `<` nor `==` to it. */
  ghost predicate Ordered(t: Tree) {
    match t
    case Leaf => true
    case Node(l, x, r) =>
      && (forall y :: y in Elements(l) ==> y < x)
      && (forall y :: y in Elements(r) ==> !(y < x) && y != x)
      && Ordered(l) && Ordered(r)
  }

  lemma {:induction false} ValuesAndElements(t: Tree)
    ensures |Values(t)| == NodeCount(t)
    ensures forall y :: y in Values(t) <==> y in Elements(t)
  {
    match t
    case Leaf =>
    case Node(l, x, r) =>
      ValuesAndElements(l);
      ValuesAndElements(r);
  }

  /** In an ordered tree no value is stored twice. */
  lemma {:induction false} OrderedCount(t: Tree)
    requires Ordered(t)
    ensures NodeCount(t) == |Elements(t)|
  {
    match t
    case Leaf =>
    case Node(l, x, r) =>
      OrderedCount(l);
      OrderedCount(r);
      var el, er := Elements(l), Elements(r);
      assert el !! er by {
        forall y | y in el ensures y !in er {
          assert y < x;
        }
      }
      assert x !in el + er;
      assert |el + er| == |el| + |er|;
      assert Elements(t) == (el + er) + {x};
  }

  // ---------------------------------------------------------------------------
  // Queries that recurse on the tree

  /** The descent of `contains`: `==` first, then `<` to choose a side. */
  function Contains(t: Tree, v: int): (b: bool)
    ensures b ==> v in Elements(t)
  {
    match t
    case Leaf => false
    case Node(l, x, r) =>
      if v == x then true
      else if v < x then Contains(l, v)
      else Contains(r, v)
  }

  /** In an ordered tree the descent finds exactly the stored values. */
  lemma {:induction false} ContainsIffMember(t: Tree, v: int)
    requires Ordered(t)
    ensures Contains(t, v) <==> v in Elements(t)
  {
    match t
    case Leaf =>
    case Node(l, x, r) =>
      ContainsIffMember(l, v);
      ContainsIffMember(r, v);
  }

  function Height(t: Tree): (h: nat)
    ensures h <= NodeCount(t)
    ensures h == 0 <==> t == Leaf
  {
    match t
    case Leaf => 0
    case Node(l, _, r) =>
      var hl, hr := Height(l), Height(r);
      1 + if hl < hr then hr else hl
  }

  function Pow2(n: nat): (p: nat)
    ensures p >= 1
  {
    if n == 0 then 1 else 2 * Pow2(n - 1)
  }

  /** A tree of height `h` has fewer than `2^h` nodes. */
  lemma {:induction false} HeightBound(t: Tree)
    ensures NodeCount(t) < Pow2(Height(t))
  {
    match t
    case Leaf =>
    case Node(l, x, r) =>
      HeightBound(l);
      HeightBound(r);
      var m := Height(t) - 1;
      Pow2Monotone(Height(l), m);
      Pow2Monotone(Height(r), m);
  }

  lemma {:induction false} Pow2Monotone(a: nat, b: nat)
    requires a <= b
    ensures Pow2(a) <= Pow2(b)
    decreases b
  {
    if a < b {
      Pow2Monotone(a, b - 1);
    }
  }

  // ---------------------------------------------------------------------------
  // Insertion

  /** The tree that `insert(v)` produces: unchanged when the descent meets a
      value equal to `v`, otherwise `v` in a new leaf where the descent ends. */
  function Inserted(t: Tree, v: int): Tree {
    match t
    case Leaf => Node(Leaf, v, Leaf)
    case Node(l, x, r) =>
      if v == x then t
      else if v < x then Node(Inserted(l, v), x, r)
      else Node(l, x, Inserted(r, v))
  }

  /** Insertion adds `v` to the stored values. */
  lemma {:induction false} InsertedElements(t: Tree, v: int)
    ensures Elements(Inserted(t, v)) == Elements(t) + {v}
  {
    match t
    case Leaf =>
    case Node(l, x, r) =>
      InsertedElements(l, v);
      InsertedElements(r, v);
  }

  /** Insertion adds exactly one node unless the descent finds `v`, in which
      case the tree is unchanged. */
  lemma {:induction false} InsertedCount(t: Tree, v: int)
    ensures NodeCount(Inserted(t, v)) == NodeCount(t) + if Contains(t, v) then 0 else 1
    ensures Contains(t, v) ==> Inserted(t, v) == t
  {
    match t
    case Leaf =>
    case Node(l, x, r) =>
      if v == x {
      } else if v < x {
        InsertedCount(l, v);
      } else {
        InsertedCount(r, v);
      }
  }

  /** The node insertion adds holds `v`. */
  lemma {:induction false} InsertedValues(t: Tree, v: int)
    ensures Values(Inserted(t, v)) == if Contains(t, v) then Values(t) else Values(t) + multiset{v}
  {
    match t
    case Leaf =>
    case Node(l, x, r) =>
      if v == x {
      } else if v < x {
        InsertedValues(l, v);
        assert Inserted(t, v) == Node(Inserted(l, v), x, r);
      } else {
        InsertedValues(r, v);
        assert Inserted(t, v) == Node(l, x, Inserted(r, v));
      }
  }

  /** Insertion preserves the search-tree order. */
  lemma {:induction false} InsertedOrdered(t: Tree, v: int)
    requires Ordered(t)
    ensures Ordered(Inserted(t, v))
  {
    match t
    case Leaf =>
    case Node(l, x, r) =>
      if v == x {
      } else if v < x {
        InsertedElements(l, v);
        InsertedOrdered(l, v);
        assert Inserted(t, v) == Node(Inserted(l, v), x, r);
      } else {
        InsertedElements(r, v);
        InsertedOrdered(r, v);
        assert Inserted(t, v) == Node(l, x, Inserted(r, v));
      }
  }

  /** Insert the elements of `s` in order, as the vector constructor does. */
  function InsertAll(t: Tree, s: seq<int>): Tree
    decreases |s|
  {
    if s == [] then t else InsertAll(Inserted(t, s[0]), s[1..])
  }

  /** Inserting a sequence keeps the order and stores exactly the values
      already there and those of the sequence. */
  lemma {:induction false} InsertAllContents(t: Tree, s: seq<int>)
    requires Ordered(t)
    ensures Ordered(InsertAll(t, s))
    ensures forall y :: y in Elements(InsertAll(t, s)) <==> y in Elements(t) || y in s
    decreases |s|
  {
    if s != [] {
      InsertedOrdered(t, s[0]);
      InsertedElements(t, s[0]);
      InsertAllContents(Inserted(t, s[0]), s[1..]);
      assert forall y :: y in s <==> y == s[0] || y in s[1..];
    }
  }

  // ---------------------------------------------------------------------------
  // Traversals

  /** Left subtree, node, right subtree. */
  function InOrderSeq(t: Tree): (r: seq<int>)
    ensures |r| == NodeCount(t)
  {
    match t
    case Leaf => []
    case Node(l, x, r) => InOrderSeq(l) + [x] + InOrderSeq(r)
  }

  /** Node, left subtree, right subtree: every node once, the root first. */
  function PreOrder(t: Tree): (r: seq<int>)
    ensures multiset(r) == Values(t)
    ensures t.Node? ==> r != [] && r[0] == t.value
  {
    match t
    case Leaf => []
    case Node(l, x, r) => [x] + PreOrder(l) + PreOrder(r)
  }

  /** Left subtree, right subtree, node: every node once, the root last. */
  function PostOrder(t: Tree): (r: seq<int>)
    ensures multiset(r) == Values(t)
    ensures t.Node? ==> r != [] && r[|r| - 1] == t.value
  {
    match t
    case Leaf => []
    case Node(l, x, r) => PostOrder(l) + PostOrder(r) + [x]
  }

  ghost predicate StrictlyIncreasing(s: seq<int>) {
    forall i, j :: 0 <= i < j < |s| ==> s[i] < s[j]
  }

  /** In-order visits every node exactly once. */
  lemma {:induction false} InOrderValues(t: Tree)
    ensures multiset(InOrderSeq(t)) == Values(t)
  {
    match t
    case Leaf =>
    case Node(l, x, r) =>
      InOrderValues(l);
      InOrderValues(r);
  }

  lemma {:induction false} InOrderMembers(t: Tree)
    ensures forall k :: 0 <= k < |InOrderSeq(t)| ==> InOrderSeq(t)[k] in Elements(t)
  {
    match t
    case Leaf =>
    case Node(l, x, r) =>
      InOrderMembers(l);
      InOrderMembers(r);
      var sl, sr := InOrderSeq(l), InOrderSeq(r);
      forall k | 0 <= k < |InOrderSeq(t)|
        ensures InOrderSeq(t)[k] in Elements(t)
      {
        if k < |sl| {
          assert InOrderSeq(t)[k] == sl[k];
        } else if k > |sl| {
          assert InOrderSeq(t)[k] == sr[k - |sl| - 1];
        }
      }
  }

  /** In an ordered tree the in-order walk yields the values in strictly
      ascending order. */
  lemma {:induction false} InOrderSorted(t: Tree)
    requires Ordered(t)
    ensures StrictlyIncreasing(InOrderSeq(t))
  {
    match t
    case Leaf =>
    case Node(l, x, r) =>
      InOrderSorted(l);
      InOrderSorted(r);
      InOrderMembers(l);
      InOrderMembers(r);
      var s := InOrderSeq(t);
      var sl, sr := InOrderSeq(l), InOrderSeq(r);
      assert forall i :: 0 <= i < |sl| ==> s[i] == sl[i] && sl[i] < x;
      assert forall j :: |sl| < j < |s| ==> s[j] == sr[j - |sl| - 1] && x < sr[j - |sl| - 1];
      assert s[|sl|] == x;
  }

  /** The values still to be emitted for the nodes on the explicit stack of
      the in-order walk: each popped node yields its value, then its right
      subtree. The top of the stack is the last element. */
  function Pending(stack: seq<Tree>): seq<int> {
    if stack == [] then []
    else
      var top := stack[|stack| - 1];
      match top
      case Leaf => Pending(stack[..|stack| - 1])
      case Node(_, x, r) => [x] + InOrderSeq(r) + Pending(stack[..|stack| - 1])
  }

  lemma PendingPush(stack: seq<Tree>, n: Tree)
    requires n.Node?
    ensures Pending(stack + [n]) == [n.value] + InOrderSeq(n.right) + Pending(stack)
  {
    assert (stack + [n])[..|stack|] == stack;
  }

  /** Pushing a node and descending to its left child leaves the values still
      to be emitted unchanged, and moves one node onto the stack. */
  lemma DescendLeft(out: seq<int>, n: Tree, stack: seq<Tree>)
    requires n.Node?
    ensures out + InOrderSeq(n.left) + Pending(stack + [n]) == out + InOrderSeq(n) + Pending(stack)
    ensures NodeCount(n.left) + |Pending(stack + [n])| == NodeCount(n) + |Pending(stack)|
  {
    PendingPush(stack, n);
    var l, r, p := InOrderSeq(n.left), InOrderSeq(n.right), Pending(stack);
    Regroup(out + l, [n.value] + r, p);
    Regroup(out, l, [n.value] + r);
    Regroup(l, [n.value], r);
  }

  /** Popping the top node, emitting it and moving to its right subtree
      leaves the values still to be emitted unchanged. */
  lemma VisitTop(out: seq<int>, stack: seq<Tree>)
    requires stack != [] && stack[|stack| - 1].Node?
    ensures var n := stack[|stack| - 1];
      && out + [n.value] + InOrderSeq(n.right) + Pending(stack[..|stack| - 1]) == out + InOrderSeq(Leaf) + Pending(stack)
      && NodeCount(n.right) + |Pending(stack[..|stack| - 1])| < |Pending(stack)|
  {
    var rest := stack[..|stack| - 1];
    assert stack == rest + [stack[|stack| - 1]];
    PendingPush(rest, stack[|stack| - 1]);
  }

  /** The iterative in-order walk: push the left spine on an explicit stack,
      pop a node, visit it and continue with its right subtree. */
  method InOrder(t: Tree) returns (out: seq<int>)
    ensures out == InOrderSeq(t)
  {
    var current := t;
    var stack: seq<Tree> := [];
    out := [];
    while true
      invariant AllNodes(stack)
      invariant out + InOrderSeq(current) + Pending(stack) == InOrderSeq(t)
      decreases NodeCount(current) + |Pending(stack)|, NodeCount(current)
    {
      if current.Node? {
        DescendLeft(out, current, stack);
        stack := stack + [current];
        current := current.left;
      } else if stack != [] {
        VisitTop(out, stack);
        current := stack[|stack| - 1];
        stack := stack[..|stack| - 1];
        out := out + [current.value];
        current := current.right;
      } else {
        return;
      }
    }
  }

  // ---------------------------------------------------------------------------
  // Breadth-first traversal

  /** Every tree of the forest is a node (the queue never holds null). */
  ghost predicate AllNodes(f: seq<Tree>) {
    forall k :: 0 <= k < |f| ==> f[k].Node?
  }

  function ForestSize(f: seq<Tree>): nat {
    if f == [] then 0 else NodeCount(f[0]) + ForestSize(f[1..])
  }

  lemma {:induction false} ForestSizeAppend(a: seq<Tree>, b: seq<Tree>)
    ensures ForestSize(a + b) == ForestSize(a) + ForestSize(b)
    decreases |a|
  {
    if a != [] {
      assert (a + b)[1..] == a[1..] + b;
      ForestSizeAppend(a[1..], b);
    } else {
      assert a + b == b;
    }
  }

  /** The value of a tree's root, if it has one. */
  function Root(t: Tree): seq<int> {
    if t.Node? then [t.value] else []
  }

  /** The values of the roots of a forest, left to right. */
  function Roots(f: seq<Tree>): seq<int> {
    if f == [] then [] else Root(f[0]) + Roots(f[1..])
  }

  /** A subtree as a forest: an empty subtree contributes nothing. */
  function AsForest(t: Tree): (f: seq<Tree>)
    ensures AllNodes(f)
  {
    if t.Node? then [t] else []
  }

  /** The non-empty children of a node, left then right. */
  function Kids(t: Tree): (c: seq<Tree>)
    ensures AllNodes(c)
  {
    if t.Leaf? then [] else AsForest(t.left) + AsForest(t.right)
  }

  lemma AsForestSize(t: Tree)
    ensures ForestSize(AsForest(t)) == NodeCount(t)
  {
    if t.Node? {
      assert [t][1..] == [];
    }
  }

  lemma KidsSize(t: Tree)
    ensures ForestSize(Kids(t)) + |Root(t)| == NodeCount(t)
  {
    if t.Node? {
      ForestSizeAppend(AsForest(t.left), AsForest(t.right));
      AsForestSize(t.left);
      AsForestSize(t.right);
    }
  }

  /** The next level of a forest: the non-empty children of its trees, in
      order. Every node but the roots is in the next level. */
  function Children(f: seq<Tree>): (c: seq<Tree>)
    ensures AllNodes(c)
  {
    if f == [] then [] else Kids(f[0]) + Children(f[1..])
  }

  /** Every node of a forest except its roots is in the next level. */
  lemma {:induction false} ChildrenSize(f: seq<Tree>)
    ensures ForestSize(Children(f)) + |Roots(f)| == ForestSize(f)
    ensures Roots(f) == [] ==> Children(f) == []
    decreases |f|
  {
    if f != [] {
      ChildrenSize(f[1..]);
      ForestSizeAppend(Kids(f[0]), Children(f[1..]));
      KidsSize(f[0]);
    }
  }

  lemma {:induction false} ChildrenAppend(a: seq<Tree>, b: seq<Tree>)
    ensures Children(a + b) == Children(a) + Children(b)
    decreases |a|
  {
    if a != [] {
      assert (a + b)[1..] == a[1..] + b;
      ChildrenAppend(a[1..], b);
    } else {
      assert a + b == b;
    }
  }

  /** Level order of a forest: its roots, then the level order of the next level. */
  function LevelOrderF(f: seq<Tree>): seq<int>
    decreases ForestSize(f), |f|
  {
    ChildrenSize(f);
    if f == [] then [] else Roots(f) + LevelOrderF(Children(f))
  }

  /** The level order of a tree: level by level, left to right. */
  function LevelOrder(t: Tree): seq<int> {
    LevelOrderF([t])
  }

  /** The multiset of values stored in a forest. */
  ghost function ForestValues(f: seq<Tree>): multiset<int> {
    if f == [] then multiset{} else Values(f[0]) + ForestValues(f[1..])
  }

  lemma {:induction false} ForestValuesAppend(a: seq<Tree>, b: seq<Tree>)
    ensures ForestValues(a + b) == ForestValues(a) + ForestValues(b)
    decreases |a|
  {
    if a != [] {
      assert (a + b)[1..] == a[1..] + b;
      ForestValuesAppend(a[1..], b);
    } else {
      assert a + b == b;
    }
  }

  lemma AsForestValues(t: Tree)
    ensures ForestValues(AsForest(t)) == Values(t)
  {
    if t.Node? {
      assert [t][1..] == [];
    }
  }

  lemma KidsValues(t: Tree)
    ensures multiset(Root(t)) + ForestValues(Kids(t)) == Values(t)
  {
    if t.Node? {
      ForestValuesAppend(AsForest(t.left), AsForest(t.right));
      AsForestValues(t.left);
      AsForestValues(t.right);
    }
  }

  /** The roots and the next level together hold the values of a forest. */
  lemma {:induction false} RootsAndChildren(f: seq<Tree>)
    ensures multiset(Roots(f)) + ForestValues(Children(f)) == ForestValues(f)
    decreases |f|
  {
    if f != [] {
      var t := f[0];
      RootsAndChildren(f[1..]);
      ForestValuesAppend(Kids(t), Children(f[1..]));
      KidsValues(t);
      assert Children(f) == Kids(t) + Children(f[1..]);
      assert Roots(f) == Root(t) + Roots(f[1..]);
      assert multiset(Roots(f)) == multiset(Root(t)) + multiset(Roots(f[1..]));
    }
  }

  /** Level order visits every node of a forest exactly once. */
  lemma {:induction false} LevelOrderFValues(f: seq<Tree>)
    ensures multiset(LevelOrderF(f)) == ForestValues(f)
    decreases ForestSize(f), |f|
  {
    RootsAndChildren(f);
    ChildrenSize(f);
    if f != [] {
      LevelOrderFValues(Children(f));
    }
  }

  /** Breadth-first traversal visits every node of the tree exactly once. */
  lemma LevelOrderValues(t: Tree)
    ensures multiset(LevelOrder(t)) == Values(t)
  {
    LevelOrderFValues([t]);
    assert ForestValues([t]) == Values(t) + ForestValues([]);
  }

  /** What a first-in first-out queue of subtrees yields when each step
      visits the front tree and queues its non-empty children at the back. */
  function QueueOrder(q: seq<Tree>): seq<int>
    decreases ForestSize(q), |q|
  {
    if q == [] then []
    else
      ForestSizeAppend(q[1..], Kids(q[0]));
      KidsSize(q[0]);
      Root(q[0]) + QueueOrder(q[1..] + Kids(q[0]))
  }

  /** Draining the trees of `rest` from the front of the queue yields their
      roots and leaves their children queued behind `next`. */
  lemma {:induction false} QueueDrainsLevel(rest: seq<Tree>, next: seq<Tree>)
    ensures QueueOrder(rest + next) == Roots(rest) + QueueOrder(next + Children(rest))
    decreases |rest|
  {
    if rest == [] {
      NothingToDrain(rest, next);
    } else {
      QueueDrainsLevel(rest[1..], next + Kids(rest[0]));
      DrainOne(rest, next);
    }
  }

  /** Draining an empty level changes nothing. */
  lemma NothingToDrain(rest: seq<Tree>, next: seq<Tree>)
    requires rest == []
    ensures QueueOrder(rest + next) == Roots(rest) + QueueOrder(next + Children(rest))
  {
    assert rest + next == next;
    assert next + Children(rest) == next;
  }

  /** Draining the front tree of `rest`, given that the remaining ones drain. */
  lemma {:induction false} DrainOne(rest: seq<Tree>, next: seq<Tree>)
    requires rest != []
    requires QueueOrder(rest[1..] + (next + Kids(rest[0])))
      == Roots(rest[1..]) + QueueOrder(next + Kids(rest[0]) + Children(rest[1..]))
    ensures QueueOrder(rest + next) == Roots(rest) + QueueOrder(next + Children(rest))
  {
    var c, r := rest[0], rest[1..];
    FrontStep(rest, next);
    Regroup(next, Kids(c), Children(r));
    Regroup(Root(c), Roots(r), QueueOrder(next + Children(rest)));
  }

  /** The first step of draining `rest` in front of `next`. */
  lemma {:induction false} FrontStep(rest: seq<Tree>, next: seq<Tree>)
    requires rest != []
    ensures QueueOrder(rest + next) == Root(rest[0]) + QueueOrder(rest[1..] + (next + Kids(rest[0])))
    ensures Roots(rest) == Root(rest[0]) + Roots(rest[1..])
    ensures Children(rest) == Kids(rest[0]) + Children(rest[1..])
  {
    var q := rest + next;
    assert q[0] == rest[0];
    assert q[1..] + Kids(rest[0]) == rest[1..] + (next + Kids(rest[0]));
  }

  lemma QueueOneLevel(f: seq<Tree>)
    ensures QueueOrder(f) == Roots(f) + QueueOrder(Children(f))
  {
    QueueDrainsLevel(f, []);
    assert f + [] == f;
    assert [] + Children(f) == Children(f);
  }

  /** The queue visits a forest level by level. */
  lemma {:induction false} QueueIsLevelOrder(f: seq<Tree>)
    ensures QueueOrder(f) == LevelOrderF(f)
    decreases ForestSize(f), |f|
  {
    if f != [] {
      QueueOneLevel(f);
      ChildrenSize(f);
      QueueIsLevelOrder(Children(f));
    }
  }

  /** One step of the queue: the front node is emitted and its children
      queued behind the rest. */
  lemma QueueStep(q: seq<Tree>)
    requires q != [] && AllNodes(q)
    ensures QueueOrder(q) == [q[0].value] + QueueOrder(q[1..] + Kids(q[0]))
    ensures AllNodes(q[1..] + Kids(q[0]))
    ensures ForestSize(q[1..] + Kids(q[0])) < ForestSize(q)
  {
    ForestSizeAppend(q[1..], Kids(q[0]));
    KidsSize(q[0]);
  }

  /** Queue the non-null children of `n`, left first. */
  method EnqueueChildren(q: seq<Tree>, n: Tree) returns (q': seq<Tree>)
    requires n.Node?
    ensures q' == q + Kids(n)
  {
    q' := q;
    if n.left.Node? {
      q' := q' + [n.left];
    }
    if n.right.Node? {
      q' := q' + [n.right];
    }
  }

  /** The visitor of `accumulate`: starting from `zero`, combine the answer
      with each visited value in turn. */
  method FoldVisits(op: (int, int) -> int, zero: int, visited: seq<int>) returns (answer: int)
    ensures answer == FoldLeft(op, zero, visited)
  {
    answer := zero;
    for k := 0 to |visited|
      invariant answer == FoldLeft(op, zero, visited[..k])
    {
      assert visited[..k + 1][..k] == visited[..k];
      answer := op(answer, visited[k]);
    }
    assert visited[..|visited|] == visited;
  }

  /** The queue-driven traversal. `bfs` queues `start` without testing it
      and dereferences every queued pointer, so the tree must be non-empty. */
  method Bfs(t: Tree) returns (out: seq<int>)
    requires t.Node?
    ensures out == LevelOrder(t)
  {
    var q: seq<Tree> := [t];
    out := [];
    while q != []
      invariant AllNodes(q)
      invariant out + QueueOrder(q) == QueueOrder([t])
      decreases ForestSize(q)
    {
      QueueStep(q);
      var current := q[0];
      out := out + [current.value];
      q := EnqueueChildren(q[1..], current);
    }
    QueueIsLevelOrder([t]);
  }

  // ---------------------------------------------------------------------------
  // Folding

  /** Fold `op` over `s` from the left, starting from `zero`. */
  function FoldLeft(op: (int, int) -> int, zero: int, s: seq<int>): int {
    if s == [] then zero else op(FoldLeft(op, zero, s[..|s| - 1]), s[|s| - 1])
  }

  function Sum(s: seq<int>): int {
    if s == [] then 0 else Sum(s[..|s| - 1]) + s[|s| - 1]
  }

  lemma {:induction false} SumAppend(a: seq<int>, b: seq<int>)
    ensures Sum(a + b) == Sum(a) + Sum(b)
    decreases |b|
  {
    if b != [] {
      assert (a + b)[..|a + b| - 1] == a + b[..|b| - 1];
      SumAppend(a, b[..|b| - 1]);
    } else {
      assert a + b == a;
    }
  }

  lemma {:induction false} FoldAddIsSum(zero: int, s: seq<int>)
    ensures FoldLeft((a, b) => a + b, zero, s) == zero + Sum(s)
    decreases |s|
  {
    if s != [] {
      FoldAddIsSum(zero, s[..|s| - 1]);
    }
  }

  function TreeSum(t: Tree): int {
    if t.Leaf? then 0 else TreeSum(t.left) + t.value + TreeSum(t.right)
  }

  function ForestSum(f: seq<Tree>): int {
    if f == [] then 0 else TreeSum(f[0]) + ForestSum(f[1..])
  }

  lemma {:induction false} ForestSumAppend(a: seq<Tree>, b: seq<Tree>)
    ensures ForestSum(a + b) == ForestSum(a) + ForestSum(b)
    decreases |a|
  {
    if a != [] {
      assert (a + b)[1..] == a[1..] + b;
      ForestSumAppend(a[1..], b);
    } else {
      assert a + b == b;
    }
  }

  lemma AsForestSum(t: Tree)
    ensures ForestSum(AsForest(t)) == TreeSum(t)
  {
    if t.Node? {
      assert [t][1..] == [];
    }
  }

  lemma KidsSum(t: Tree)
    ensures Sum(Root(t)) + ForestSum(Kids(t)) == TreeSum(t)
  {
    if t.Node? {
      ForestSumAppend(AsForest(t.left), AsForest(t.right));
      AsForestSum(t.left);
      AsForestSum(t.right);
      assert [t.value][..0] == [];
    }
  }

  /** The queue emits values summing to the values stored in its trees. */
  lemma {:induction false} QueueSum(q: seq<Tree>)
    ensures Sum(QueueOrder(q)) == ForestSum(q)
    decreases ForestSize(q), |q|
  {
    if q != [] {
      var next := q[1..] + Kids(q[0]);
      ForestSizeAppend(q[1..], Kids(q[0]));
      KidsSize(q[0]);
      QueueSum(next);
      SumAppend(Root(q[0]), QueueOrder(next));
      ForestSumAppend(q[1..], Kids(q[0]));
      KidsSum(q[0]);
    }
  }

  lemma {:induction false} InOrderSum(t: Tree)
    ensures Sum(InOrderSeq(t)) == TreeSum(t)
  {
    if t.Node? {
      InOrderSum(t.left);
      InOrderSum(t.right);
      SumAppend(InOrderSeq(t.left) + [t.value], InOrderSeq(t.right));
      SumAppend(InOrderSeq(t.left), [t.value]);
      assert [t.value][..0] == [];
    }
  }

  /** Accumulating with `+` over the breadth-first order gives `zero` plus
      the sum of the in-order sequence: the fold sees every value once,
      whatever the shape. */
  lemma AccumulateAddIsSum(t: Tree, zero: int)
    ensures FoldLeft((a, b) => a + b, zero, LevelOrder(t)) == zero + Sum(InOrderSeq(t))
  {
    FoldAddIsSum(zero, LevelOrder(t));
    QueueIsLevelOrder([t]);
    QueueSum([t]);
    assert [t][1..] == [];
    InOrderSum(t);
  }

  /** Breadth-first order holds exactly the stored values. */
  lemma LevelOrderMembers(t: Tree)
    ensures forall y :: y in LevelOrder(t) <==> y in Elements(t)
  {
    LevelOrderValues(t);
    ValuesAndElements(t);
    forall y
      ensures y in LevelOrder(t) <==> y in Elements(t)
    {
      assert y in LevelOrder(t) <==> y in multiset(LevelOrder(t));
    }
  }

  /** Re-inserting a search tree's values in breadth-first order rebuilds a
      search tree with the same values and the same number of nodes. */
  lemma CopyContents(t: Tree)
    requires Ordered(t)
    ensures var c := InsertAll(Leaf, LevelOrder(t));
      Ordered(c) && Elements(c) == Elements(t) && NodeCount(c) == NodeCount(t)
  {
    var c := InsertAll(Leaf, LevelOrder(t));
    InsertAllContents(Leaf, LevelOrder(t));
    LevelOrderMembers(t);
    forall y
      ensures y in Elements(c) <==> y in Elements(t)
    {
    }
    assert Elements(c) == Elements(t);
    OrderedCount(c);
    OrderedCount(t);
  }

  // ---------------------------------------------------------------------------
  // The tree object

  class BST {
    var root: Tree
    var size: nat

    /** The order invariant holds and `size` counts the nodes. */
    ghost predicate Valid()
      reads this
    {
      Ordered(root) && size == NodeCount(root)
    }

    /** An empty tree. */
    constructor ()
      ensures Valid() && root == Leaf && size == 0
    {
      root := Leaf;
      size := 0;
    }

    /** Insert the elements of `v` one by one, in order. */
    constructor FromSeq(v: seq<int>)
      ensures Valid() && root == InsertAll(Leaf, v)
      ensures forall y :: y in Elements(root) <==> y in v
    {
      root := Leaf;
      size := 0;
      new;
      InsertAllContents(Leaf, v);
      InsertEach(v);
    }

    /** Re-insert the values of `other` in breadth-first order. `bfs`
      traverses `other.root` without testing it, so `other` must be non-empty. */
    constructor Copy(other: BST)
      requires other.Valid() && other.root.Node?
      ensures Valid() && root == InsertAll(Leaf, LevelOrder(other.root))
      ensures Elements(root) == Elements(other.root) && size == other.size
    {
      root := Leaf;
      size := 0;
      new;
      var visited := Bfs(other.root);
      InsertEach(visited);
      CopyContents(other.root);
    }

    /** The insertion loop shared by the vector and copy constructors. */
    method InsertEach(s: seq<int>)
      requires Valid()
      modifies this`root, this`size
      ensures Valid() && root == InsertAll(old(root), s)
    {
      for k := 0 to |s|
        invariant Valid() && InsertAll(root, s[k..]) == InsertAll(old(root), s)
      {
        assert s[k..][1..] == s[k + 1..];
        var _ := Insert(s[k]);
      }
      assert s[|s|..] == [];
    }

    /** The private recursive `insert`: compare with `==` before `<`, attach a
      new leaf where the descent meets a missing child, and count it. */
    method InsertAt(t: Tree, v: int) returns (t': Tree, ok: bool)
      modifies this`size
      ensures t' == Inserted(t, v) && ok == !Contains(t, v)
      ensures size == if !ok then old(size) else if t.Leaf? then 1 else old(size) + 1
    {
      if t.Leaf? {
        size := 1;
        return Node(Leaf, v, Leaf), true;
      }
      if v == t.value {
        return t, false;
      }
      if v < t.value {
        if t.left.Leaf? {
          size := size + 1;
          return Node(Node(Leaf, v, Leaf), t.value, t.right), true;
        }
        var l;
        l, ok := InsertAt(t.left, v);
        return Node(l, t.value, t.right), ok;
      } else {
        if t.right.Leaf? {
          size := size + 1;
          return Node(t.left, t.value, Node(Leaf, v, Leaf)), true;
        }
        var r;
        r, ok := InsertAt(t.right, v);
        return Node(t.left, t.value, r), ok;
      }
    }

    /** Insert `v`: false, with nothing changed, when `v` is already stored. */
    method Insert(v: int) returns (ok: bool)
      requires Valid()
      modifies this`root, this`size
      ensures Valid()
      ensures ok <==> v !in old(Elements(root))
      ensures root == Inserted(old(root), v)
      ensures Elements(root) == old(Elements(root)) + {v}
      ensures size == old(size) + if ok then 1 else 0
    {
      ContainsIffMember(root, v);
      InsertedElements(root, v);
      InsertedCount(root, v);
      InsertedOrdered(root, v);
      root, ok := InsertAt(root, v);
    }

    function ContainsValue(v: int): (b: bool)
      reads this
      requires Valid()
      ensures b <==> v in Elements(root)
    {
      ContainsIffMember(root, v);
      Contains(root, v)
    }

    function TreeHeight(): (h: nat)
      reads this
      requires Valid()
      ensures h <= size && size < Pow2(h)
    {
      HeightBound(root);
      Height(root)
    }

    /** Fold `op` over the values in breadth-first order, starting from
      `zero`. `accumulate` runs `bfs` on the root unconditionally. */
    method Accumulate(op: (int, int) -> int, zero: int) returns (answer: int)
      requires Valid() && root.Node?
      ensures answer == FoldLeft(op, zero, LevelOrder(root))
    {
      var visited := Bfs(root);
      answer := FoldVisits(op, zero, visited);
    }

    function IsEmpty(): (b: bool)
      reads this
      requires Valid()
      ensures b <==> size == 0
      ensures b <==> Elements(root) == {}
    {
      ValuesAndElements(root);
      root.Leaf?
    }
  }

  /** `swap` of two trees: exchange their roots and sizes (the comparator and
      equalizer are fixed, so there is nothing else to exchange). */
  method Swap(t1: BST, t2: BST)
    requires t1.Valid() && t2.Valid()
    modifies t1, t2
    ensures t1.Valid() && t2.Valid()
    ensures t1.root == old(t2.root) && t1.size == old(t2.size)
    ensures t2.root == old(t1.root) && t2.size == old(t1.size)
  {
    var root, size := t1.root, t1.size;
    t1.root, t1.size := t2.root, t2.size;
    t2.root, t2.size := root, size;
  }

  /** The tree that `main` builds from 8, 3, 10, 1, 6, 14, 4, 7, 13. */
  function MainTree(): Tree {
    var n1, n4, n7, n13 := Node(Leaf, 1, Leaf), Node(Leaf, 4, Leaf), Node(Leaf, 7, Leaf), Node(Leaf, 13, Leaf);
    Node(Node(n1, 3, Node(n4, 6, n7)), 8, Node(Leaf, 10, Node(n13, 14, Leaf)))
  }

  /** Inserting the values of `main` one by one gives `MainTree()`. */
  lemma MainTreeShape()
    ensures InsertAll(Leaf, [8, 3, 10, 1, 6, 14, 4, 7, 13]) == MainTree()
  {
    var n1, n4, n7, n13 := Node(Leaf, 1, Leaf), Node(Leaf, 4, Leaf), Node(Leaf, 7, Leaf), Node(Leaf, 13, Leaf);
    calc {
      InsertAll(Leaf, [8, 3, 10, 1, 6, 14, 4, 7, 13]);
      InsertAll(Node(Leaf, 8, Leaf), [3, 10, 1, 6, 14, 4, 7, 13]);
      InsertAll(Node(Node(Leaf, 3, Leaf), 8, Leaf), [10, 1, 6, 14, 4, 7, 13]);
      InsertAll(Node(Node(Leaf, 3, Leaf), 8, Node(Leaf, 10, Leaf)), [1, 6, 14, 4, 7, 13]);
      InsertAll(Node(Node(n1, 3, Leaf), 8, Node(Leaf, 10, Leaf)), [6, 14, 4, 7, 13]);
      InsertAll(Node(Node(n1, 3, Node(Leaf, 6, Leaf)), 8, Node(Leaf, 10, Leaf)), [14, 4, 7, 13]);
      InsertAll(Node(Node(n1, 3, Node(Leaf, 6, Leaf)), 8, Node(Leaf, 10, Node(Leaf, 14, Leaf))), [4, 7, 13]);
      InsertAll(Node(Node(n1, 3, Node(n4, 6, Leaf)), 8, Node(Leaf, 10, Node(Leaf, 14, Leaf))), [7, 13]);
      InsertAll(Node(Node(n1, 3, Node(n4, 6, n7)), 8, Node(Leaf, 10, Node(Leaf, 14, Leaf))), [13]);
      InsertAll(MainTree(), []);
    }
  }

  /** The tree of `main` has height 4. */
  lemma MainTreeHeight()
    ensures Height(MainTree()) == 4
  {
    var n1, n4, n7, n13 := Node(Leaf, 1, Leaf), Node(Leaf, 4, Leaf), Node(Leaf, 7, Leaf), Node(Leaf, 13, Leaf);
    assert Height(Node(n1, 3, Node(n4, 6, n7))) == 3;
    assert Height(Node(Leaf, 10, Node(n13, 14, Leaf))) == 3;
  }

  /** The tree of `main` yields its values in ascending order in-order. */
  lemma MainTreeInOrder()
    ensures InOrderSeq(MainTree()) == [1, 3, 4, 6, 7, 8, 10, 13, 14]
  {
    var n1, n4, n7, n13 := Node(Leaf, 1, Leaf), Node(Leaf, 4, Leaf), Node(Leaf, 7, Leaf), Node(Leaf, 13, Leaf);
    InOrderJoin(n4, 6, n7, [4], [7]);
    InOrderJoin(n1, 3, Node(n4, 6, n7), [1], [4, 6, 7]);
    InOrderJoin(n13, 14, Leaf, [13], []);
    InOrderJoin(Leaf, 10, Node(n13, 14, Leaf), [], [13, 14]);
    InOrderJoin(Node(n1, 3, Node(n4, 6, n7)), 8, Node(Leaf, 10, Node(n13, 14, Leaf)), [1, 3, 4, 6, 7], [10, 13, 14]);
  }

  /** The in-order sequence of a node, from those of its subtrees. */
  lemma InOrderJoin(l: Tree, x: int, r: Tree, sl: seq<int>, sr: seq<int>)
    requires InOrderSeq(l) == sl && InOrderSeq(r) == sr
    ensures InOrderSeq(Node(l, x, r)) == sl + [x] + sr
  {
  }

  /** The tree `main` builds is a binary search tree. */
  lemma MainTreeOrdered()
    ensures Ordered(MainTree())
  {
    var s := [8, 3, 10, 1, 6, 14, 4, 7, 13];
    MainTreeShape();
    InsertAllContents(Leaf, s);
  }
}
