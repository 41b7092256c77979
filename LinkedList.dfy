/**
  A doubly linked list of `int` (DoublyLinkedList.cpp). Nodes live in an
  arena held as two parallel sequences: `arena[id]` is the pair of links of
  node `id` and `values[id]` its value; `Null` (-1) stands for the null
  pointer. A node that is unlinked stays in the arena, unreachable, which is
  how `delete` appears here. The ghost sequence `nodes` lists the ids met on
  the way from `head` to `tail`; the list's contents are their values.
 */
module LinkedList {
  import opened Wrappers

  /** The null pointer. */
  const Null: int := -1

  /** The links of a node: the ids of its neighbours. */
  datatype Link = Link(previous: int, next: int)

  // ---------------------------------------------------------------------------
  // The link invariant

  /** The values stored at `ids`, in order. */
  ghost function ValuesOf(values: seq<int>, ids: seq<nat>): (s: seq<int>)
    requires Within(values, ids)
    ensures |s| == |ids|
    ensures forall i :: 0 <= i < |ids| ==> s[i] == values[ids[i]]
  {
    seq(|ids|, i requires 0 <= i < |ids| => values[ids[i]])
  }

  /** `nodes` is a chain of distinct arena nodes from `head` to `tail`: the
      first has no `previous`, the last has no `next`, and each node's `next`
      is the following node, whose `previous` points back. An empty chain has
      a null `head`; its `tail` is stale and never read. */
  ghost predicate Linked(arena: seq<Link>, nodes: seq<nat>, head: int, tail: int) {
    && Within(arena, nodes)
    && Ends(arena, nodes, head, tail)
    && (nodes != [] ==> Chain(arena, nodes, Null, tail))
  }

  /** A non-empty chain, one node at a time: the first node points back to
      `prev`, occurs nowhere later, and points forward to the rest of the
      chain, which ends at `tail` with no `next`. */
  ghost predicate Chain(arena: seq<Link>, nodes: seq<nat>, prev: int, tail: int)
    requires nodes != []
    decreases |nodes|
  {
    && nodes[0] < |arena| && arena[nodes[0]].previous == prev && nodes[0] !in nodes[1..]
    && if |nodes| == 1 then tail == nodes[0] && arena[nodes[0]].next == Null
       else arena[nodes[0]].next == nodes[1] && Chain(arena, nodes[1..], nodes[0], tail)
  }

  /** Every id names an entry of the arena. */
  ghost predicate Within<T>(arena: seq<T>, ids: seq<nat>) {
    forall i :: 0 <= i < |ids| ==> ids[i] < |arena|
  }

  /** `head` and `tail` are the ends of the chain, and the chain is open. */
  ghost predicate Ends(arena: seq<Link>, nodes: seq<nat>, head: int, tail: int)
    requires Within(arena, nodes)
  {
    && (nodes == [] ==> head == Null)
    && (nodes != [] ==>
          && head == nodes[0] && tail == nodes[|nodes| - 1]
          && arena[head].previous == Null && arena[tail].next == Null)
  }

  /** No id occurs twice. */
  ghost predicate DistinctAll(ids: seq<nat>) {
    forall i, j :: 0 <= i < j < |ids| ==> ids[i] != ids[j]
  }

  /** Each node's `next` is the following node. */
  ghost predicate ForwardAll(arena: seq<Link>, nodes: seq<nat>)
    requires Within(arena, nodes)
  {
    forall i :: 0 <= i < |nodes| - 1 ==> arena[nodes[i]].next == nodes[i + 1]
  }

  /** Each node's `previous` is the preceding node. */
  ghost predicate BackwardAll(arena: seq<Link>, nodes: seq<nat>)
    requires Within(arena, nodes)
  {
    forall i :: 0 < i < |nodes| ==> arena[nodes[i]].previous == nodes[i - 1]
  }

  /** `Linked`, stated position by position. */
  ghost predicate LinkedAll(arena: seq<Link>, nodes: seq<nat>, head: int, tail: int) {
    && Within(arena, nodes)
    && DistinctAll(nodes)
    && Ends(arena, nodes, head, tail)
    && ForwardAll(arena, nodes)
    && BackwardAll(arena, nodes)
  }

  /** `Chain`, stated position by position. */
  lemma {:induction false} ChainIff(arena: seq<Link>, nodes: seq<nat>, prev: int, tail: int)
    requires nodes != []
    ensures Chain(arena, nodes, prev, tail) <==>
      && Within(arena, nodes) && DistinctAll(nodes) && ForwardAll(arena, nodes) && BackwardAll(arena, nodes)
      && arena[nodes[0]].previous == prev && tail == nodes[|nodes| - 1] && arena[tail].next == Null
    decreases |nodes|
  {
    if |nodes| > 1 {
      var t := nodes[1..];
      assert forall i :: 0 <= i < |t| ==> t[i] == nodes[i + 1];
      ChainIff(arena, t, nodes[0], tail);
      if Chain(arena, nodes, prev, tail) {
        forall i, j | 0 <= i < j < |nodes|
          ensures nodes[i] != nodes[j]
        {
          if i == 0 {
            assert nodes[j] == t[j - 1];
          } else {
            assert nodes[i] == t[i - 1] && nodes[j] == t[j - 1];
          }
        }
        forall i | 0 < i < |nodes| - 1
          ensures arena[nodes[i]].next == nodes[i + 1]
        {
          assert nodes[i] == t[i - 1] && nodes[i + 1] == t[i];
        }
        forall i | 1 < i < |nodes|
          ensures arena[nodes[i]].previous == nodes[i - 1]
        {
          assert nodes[i] == t[i - 1] && nodes[i - 1] == t[i - 2];
        }
      }
      if && Within(arena, nodes) && DistinctAll(nodes) && ForwardAll(arena, nodes) && BackwardAll(arena, nodes)
         && arena[nodes[0]].previous == prev && tail == nodes[|nodes| - 1] && arena[tail].next == Null
      {
        assert nodes[0] !in t by {
          forall j | 0 <= j < |t| ensures t[j] != nodes[0] {
            assert t[j] == nodes[j + 1];
          }
        }
      }
    }
  }

  /** The chain invariant and its position-by-position form agree. */
  lemma LinkedIff(arena: seq<Link>, nodes: seq<nat>, head: int, tail: int)
    ensures Linked(arena, nodes, head, tail) <==> LinkedAll(arena, nodes, head, tail)
  {
    if nodes != [] {
      ChainIff(arena, nodes, Null, tail);
    }
  }

  /** One step forward or back from position `k` of a chain. */
  lemma StepAt(arena: seq<Link>, nodes: seq<nat>, head: int, tail: int, k: nat)
    requires Linked(arena, nodes, head, tail) && k < |nodes|
    ensures arena[nodes[k]].next == NodeAt(nodes, k + 1)
    ensures arena[nodes[k]].previous == NodeAt(nodes, k - 1)
  {
    LinkedIff(arena, nodes, head, tail);
  }

  /** A cursor at position `p` of a chain, at most one past position `r`:
      it has run past `r` exactly when it is `r`'s `next`, and until then it
      names a node holding the `p`-th value and linking to position `p + 1`. */
  lemma CursorAt(arena: seq<Link>, values: seq<int>, nodes: seq<nat>, head: int, tail: int, p: nat, r: nat)
    requires Linked(arena, nodes, head, tail) && |values| == |arena| && p <= r + 1 && r < |nodes|
    ensures Within(values, nodes)
    ensures NodeAt(nodes, p) == arena[nodes[r]].next <==> p == r + 1
    ensures p <= r ==> && 0 <= NodeAt(nodes, p) < |arena|
                       && values[NodeAt(nodes, p)] == ValuesOf(values, nodes)[p]
                       && arena[NodeAt(nodes, p)].next == NodeAt(nodes, p + 1)
  {
    LinkedIff(arena, nodes, head, tail);
    assert arena[nodes[r]].next == NodeAt(nodes, r + 1);
    if p <= r {
      if r + 1 < |nodes| {
        assert nodes[p] != nodes[r + 1];
      }
    }
  }

  /** Splicing a fresh id into distinct ids keeps them distinct. */
  lemma SpliceInDistinct(ids: seq<nat>, k: nat, id: nat)
    requires DistinctAll(ids) && k <= |ids|
    requires forall i :: 0 <= i < |ids| ==> ids[i] != id
    ensures DistinctAll(ids[..k] + [id] + ids[k..])
  {
    var ns := ids[..k] + [id] + ids[k..];
    assert forall i :: 0 <= i < k ==> ns[i] == ids[i];
    assert forall i :: k < i < |ns| ==> ns[i] == ids[i - 1];
  }

  /** Dropping one id keeps the rest distinct. */
  lemma SpliceOutDistinct(ids: seq<nat>, k: nat)
    requires DistinctAll(ids) && k < |ids|
    ensures DistinctAll(ids[..k] + ids[k + 1..])
  {
    var ns := ids[..k] + ids[k + 1..];
    assert forall i :: 0 <= i < k ==> ns[i] == ids[i];
    assert forall i :: k <= i < |ns| ==> ns[i] == ids[i + 1];
  }

  /** The id at position `p` of the chain, or `Null` just outside it. */
  function NodeAt(nodes: seq<nat>, p: int): int {
    if 0 <= p < |nodes| then nodes[p] else Null
  }

  /** The links after the node constructor builds a node between `p` and `n`
      as node `|arena|`: the new node becomes `p`'s `next` and `n`'s
      `previous`. */
  function Attach(arena: seq<Link>, p: int, n: int): (r: seq<Link>)
    requires p == Null || 0 <= p < |arena|
    requires n == Null || 0 <= n < |arena|
    ensures |r| == |arena| + 1 && r[|arena|] == Link(p, n)
    ensures forall x :: 0 <= x < |arena| && x != p ==> r[x].next == arena[x].next
    ensures forall x :: 0 <= x < |arena| && x != n ==> r[x].previous == arena[x].previous
    ensures p != Null ==> r[p].next == |arena|
    ensures n != Null ==> r[n].previous == |arena|
  {
    var id := |arena|;
    var a := arena + [Link(p, n)];
    var a' := if p != Null then a[p := a[p].(next := id)] else a;
    if n != Null then a'[n := a'[n].(previous := id)] else a'
  }

  /** Writing a value into the node at position `p` changes the contents at
      `p` only, since no other position holds that node. */
  lemma SetValueAt(arena: seq<Link>, values: seq<int>, nodes: seq<nat>, head: int, tail: int, p: nat, v: int)
    requires Linked(arena, nodes, head, tail) && |values| == |arena| && p < |nodes|
    ensures ValuesOf(values[nodes[p] := v], nodes) == ValuesOf(values, nodes)[p := v]
  {
    LinkedIff(arena, nodes, head, tail);
  }

  /** A chain survives a change of arena that keeps every link, except that
      its first node may now point back elsewhere. */
  lemma {:induction false} ChainRelink(a: seq<Link>, r: seq<Link>, nodes: seq<nat>, prev: int, prev': int, tail: int)
    requires nodes != [] && Within(a, nodes) && Chain(a, nodes, prev, tail)
    requires nodes[0] < |r| && r[nodes[0]].next == a[nodes[0]].next && r[nodes[0]].previous == prev'
    requires forall i :: 0 < i < |nodes| ==>
      nodes[i] < |r| && r[nodes[i]].next == a[nodes[i]].next && r[nodes[i]].previous == a[nodes[i]].previous
    ensures Chain(r, nodes, prev', tail)
    decreases |nodes|
  {
    if |nodes| > 1 {
      var t := nodes[1..];
      assert forall i :: 0 <= i < |t| ==> t[i] == nodes[i + 1];
      ChainRelink(a, r, t, nodes[0], nodes[0], tail);
    }
  }

  /** `push_front`: a new node linked before the head. */
  lemma {:induction false} LinkFront(arena: seq<Link>, values: seq<int>, nodes: seq<nat>, head: int, tail: int, v: int)
    requires Linked(arena, nodes, head, tail) && |values| == |arena|
    ensures var r, id := Attach(arena, Null, head), |arena|;
      && Linked(r, [id] + nodes, id, if nodes == [] then id else tail)
      && ValuesOf(values + [v], [id] + nodes) == [v] + ValuesOf(values, nodes)
  {
    var r, id := Attach(arena, Null, head), |arena|;
    var ns := [id] + nodes;
    assert forall i :: 0 < i < |ns| ==> ns[i] == nodes[i - 1];
    if nodes != [] {
      assert Chain(r, nodes, id, tail) by {
        forall i | 0 < i < |nodes|
          ensures nodes[i] != head
        {
          assert nodes[i] == nodes[1..][i - 1];
        }
        ChainRelink(arena, r, nodes, Null, id, tail);
      }
      assert ns[1..] == nodes;
    }
    ValuesCons(values, nodes, v);
  }

  /** The values of a chain with a new node `|values|` in front. */
  lemma ValuesCons(values: seq<int>, nodes: seq<nat>, v: int)
    requires Within(values, nodes)
    ensures ValuesOf(values + [v], [|values|] + nodes) == [v] + ValuesOf(values, nodes)
  {
    var vs, ns := values + [v], [|values|] + nodes;
    assert forall i :: 0 < i < |ns| ==> ns[i] == nodes[i - 1] && vs[ns[i]] == values[nodes[i - 1]];
  }

  /** `push_back` on a non-empty list: a new node linked after the tail. */
  lemma {:induction false} LinkBack(arena: seq<Link>, values: seq<int>, nodes: seq<nat>, head: int, tail: int, v: int)
    requires Linked(arena, nodes, head, tail) && |values| == |arena| && nodes != []
    ensures var r, id := Attach(arena, tail, Null), |arena|;
      && Linked(r, nodes + [id], head, id)
      && ValuesOf(values + [v], nodes + [id]) == ValuesOf(values, nodes) + [v]
  {
    LinkedIff(arena, nodes, head, tail);
    var r, id := Attach(arena, tail, Null), |arena|;
    var ns := nodes + [id];
    forall i | 0 <= i < |ns| - 1
      ensures r[ns[i]].next == ns[i + 1] && r[ns[i + 1]].previous == ns[i]
    {
      if i < |nodes| - 1 {
        assert ns[i] == nodes[i] && ns[i + 1] == nodes[i + 1];
      }
    }
    LinkedIff(r, ns, head, id);
  }

  /** `insert` in the middle: a new node linked between positions `k - 1`
      and `k` (the arena `a`), followed by the redundant store into the
      predecessor's `next` (the arena `r`). */
  lemma {:induction false} LinkAfter(arena: seq<Link>, values: seq<int>, nodes: seq<nat>, head: int, tail: int, v: int, k: nat,
                                     j: int, n: int, a: seq<Link>, r: seq<Link>, vs: seq<int>, ns: seq<nat>)
    requires Linked(arena, nodes, head, tail) && |values| == |arena| && 0 < k < |nodes|
    requires j == nodes[k - 1] && n == nodes[k] && a == Attach(arena, j, n) && r == a[j := a[j].(next := |arena|)]
    requires vs == values + [v] && ns == nodes[..k] + [|arena|] + nodes[k..]
    ensures Linked(r, ns, head, tail)
    ensures ValuesOf(vs, ns) == ValuesOf(values, nodes)[..k] + [v] + ValuesOf(values, nodes)[k..]
  {
    LinkedIff(arena, nodes, head, tail);
    assert r == a;
    SpliceIn(arena, nodes, head, tail, k);
    LinkedIff(a, ns, head, tail);
    SpliceInValues(vs, values, nodes, k, |arena|);
  }

  /** The links of `LinkAfter`, position by position. */
  lemma {:induction false} SpliceIn(arena: seq<Link>, nodes: seq<nat>, head: int, tail: int, k: nat)
    requires LinkedAll(arena, nodes, head, tail) && 0 < k < |nodes|
    ensures var a, ns := Attach(arena, nodes[k - 1], nodes[k]), nodes[..k] + [|arena|] + nodes[k..];
      LinkedAll(a, ns, head, tail)
  {
    var a, ns := Attach(arena, nodes[k - 1], nodes[k]), nodes[..k] + [|arena|] + nodes[k..];
    assert ns[0] == nodes[0] && ns[|ns| - 1] == nodes[|nodes| - 1];
    assert nodes[0] != nodes[k] && nodes[|nodes| - 1] != nodes[k - 1];
    SpliceInDistinct(nodes, k, |arena|);
    AttachForward(arena, nodes, k);
    AttachBackward(arena, nodes, k);
  }

  /** The `next` links after `Attach` between positions `k - 1` and `k`
      follow the chain with the new node spliced in. */
  lemma {:induction false} AttachForward(arena: seq<Link>, nodes: seq<nat>, k: nat)
    requires Within(arena, nodes) && DistinctAll(nodes) && ForwardAll(arena, nodes) && 0 < k < |nodes|
    ensures var a, ns := Attach(arena, nodes[k - 1], nodes[k]), nodes[..k] + [|arena|] + nodes[k..];
      Within(a, ns) && ForwardAll(a, ns)
  {
    var a, ns := Attach(arena, nodes[k - 1], nodes[k]), nodes[..k] + [|arena|] + nodes[k..];
    assert forall i :: 0 <= i < k ==> ns[i] == nodes[i];
    assert forall i :: k < i < |ns| ==> ns[i] == nodes[i - 1];
    forall i | 0 <= i < |ns| - 1
      ensures a[ns[i]].next == ns[i + 1]
    {
      if i < k - 1 {
        assert ns[i] == nodes[i] && ns[i + 1] == nodes[i + 1];
      } else if i > k {
        assert ns[i] == nodes[i - 1] && ns[i + 1] == nodes[i];
      }
    }
  }

  /** The `previous` links after `Attach` between positions `k - 1` and `k`
      follow the chain with the new node spliced in. */
  lemma {:induction false} AttachBackward(arena: seq<Link>, nodes: seq<nat>, k: nat)
    requires Within(arena, nodes) && DistinctAll(nodes) && BackwardAll(arena, nodes) && 0 < k < |nodes|
    ensures var a, ns := Attach(arena, nodes[k - 1], nodes[k]), nodes[..k] + [|arena|] + nodes[k..];
      Within(a, ns) && BackwardAll(a, ns)
  {
    var a, ns := Attach(arena, nodes[k - 1], nodes[k]), nodes[..k] + [|arena|] + nodes[k..];
    assert forall i :: 0 <= i < k ==> ns[i] == nodes[i];
    assert forall i :: k < i < |ns| ==> ns[i] == nodes[i - 1];
    forall i | 0 < i < |ns|
      ensures a[ns[i]].previous == ns[i - 1]
    {
      if i < k {
        assert ns[i] == nodes[i] && ns[i - 1] == nodes[i - 1];
      } else if i > k + 1 {
        assert ns[i] == nodes[i - 1] && ns[i - 1] == nodes[i - 2];
      }
    }
  }

  /** The values along a chain with `id` spliced in at position `k`, read in
      values `vs` that agree with `values` on every old node. */
  lemma SpliceInValues(vs: seq<int>, values: seq<int>, nodes: seq<nat>, k: nat, id: nat)
    requires Within(values, nodes)
    requires |values| <= |vs| && id < |vs| && k <= |nodes|
    requires forall x :: 0 <= x < |values| ==> vs[x] == values[x]
    ensures ValuesOf(vs, nodes[..k] + [id] + nodes[k..])
      == ValuesOf(values, nodes)[..k] + [vs[id]] + ValuesOf(values, nodes)[k..]
  {
    var ns := nodes[..k] + [id] + nodes[k..];
    assert forall i :: 0 <= i < k ==> ns[i] == nodes[i];
    assert forall i :: k < i < |ns| ==> ns[i] == nodes[i - 1];
  }

  /** `pop_front`: the chain loses its first node; the new head, if any,
      forgets its predecessor. */
  lemma {:induction false} UnlinkFront(arena: seq<Link>, values: seq<int>, nodes: seq<nat>, head: int, tail: int)
    requires Linked(arena, nodes, head, tail) && |values| == |arena| && nodes != []
    ensures arena[head].next == NodeAt(nodes, 1)
    ensures |nodes| == 1 ==> Linked(arena, [], Null, tail)
    ensures |nodes| > 1 ==>
      var h := nodes[1];
      var r := arena[h := arena[h].(previous := Null)];
      Linked(r, nodes[1..], h, tail) && ValuesOf(values, nodes[1..]) == ValuesOf(values, nodes)[1..]
  {
    if |nodes| > 1 {
      var h := nodes[1];
      var r, ns := arena[h := arena[h].(previous := Null)], nodes[1..];
      assert forall i :: 0 <= i < |ns| ==> ns[i] == nodes[i + 1];
      assert Chain(r, ns, Null, tail) by {
        forall i | 0 < i < |ns|
          ensures ns[i] != h
        {
          assert ns[i] == ns[1..][i - 1];
        }
        ChainRelink(arena, r, ns, head, Null, tail);
      }
    }
  }

  /** `pop_back` on two or more nodes: the chain loses its last node and the
      new tail forgets its successor. */
  lemma {:induction false} UnlinkBack(arena: seq<Link>, values: seq<int>, nodes: seq<nat>, head: int, tail: int)
    requires Linked(arena, nodes, head, tail) && |values| == |arena| && |nodes| >= 2
    ensures arena[tail].previous == nodes[|nodes| - 2]
    ensures var t := nodes[|nodes| - 2];
      var r := arena[t := arena[t].(next := Null)];
      && Linked(r, nodes[..|nodes| - 1], head, t)
      && ValuesOf(values, nodes[..|nodes| - 1]) == ValuesOf(values, nodes)[..|nodes| - 1]
  {
    LinkedIff(arena, nodes, head, tail);
    var t := nodes[|nodes| - 2];
    var r, ns := arena[t := arena[t].(next := Null)], nodes[..|nodes| - 1];
    assert forall i :: 0 <= i < |ns| ==> ns[i] == nodes[i];
    LinkedIff(r, ns, head, t);
  }

  /** The links after node `p`'s `next` is set to `n` and then node `n`'s
      `previous` to `p`. */
  function Bridge(arena: seq<Link>, p: nat, n: nat): (r: seq<Link>)
    requires p < |arena| && n < |arena|
    ensures |r| == |arena| && r[p].next == n && r[n].previous == p
    ensures p != n ==> r[p] == arena[p].(next := n) && r[n] == arena[n].(previous := p)
    ensures forall x :: 0 <= x < |arena| && x != p && x != n ==> r[x] == arena[x]
  {
    var a := arena[p := arena[p].(next := n)];
    a[n := a[n].(previous := p)]
  }

  /** `remove` in the middle: the neighbours of position `k` are linked to
      each other directly. */
  lemma {:induction false} UnlinkMiddle(arena: seq<Link>, values: seq<int>, nodes: seq<nat>, head: int, tail: int, k: nat)
    requires Linked(arena, nodes, head, tail) && |values| == |arena| && 0 < k < |nodes| - 1
    ensures arena[nodes[k]].previous == nodes[k - 1] && arena[nodes[k]].next == nodes[k + 1]
    ensures var r := Bridge(arena, nodes[k - 1], nodes[k + 1]);
      && Linked(r, nodes[..k] + nodes[k + 1..], head, tail)
      && ValuesOf(values, nodes[..k] + nodes[k + 1..]) == ValuesOf(values, nodes)[..k] + ValuesOf(values, nodes)[k + 1..]
  {
    LinkedIff(arena, nodes, head, tail);
    SpliceOut(arena, nodes, head, tail, k);
    LinkedIff(Bridge(arena, nodes[k - 1], nodes[k + 1]), nodes[..k] + nodes[k + 1..], head, tail);
    SpliceOutValues(values, nodes, k);
  }

  /** The links of `UnlinkMiddle`, position by position. */
  lemma {:induction false} SpliceOut(arena: seq<Link>, nodes: seq<nat>, head: int, tail: int, k: nat)
    requires LinkedAll(arena, nodes, head, tail) && 0 < k < |nodes| - 1
    ensures var r, ns := Bridge(arena, nodes[k - 1], nodes[k + 1]), nodes[..k] + nodes[k + 1..];
      LinkedAll(r, ns, head, tail)
  {
    var r, ns := Bridge(arena, nodes[k - 1], nodes[k + 1]), nodes[..k] + nodes[k + 1..];
    assert ns[0] == nodes[0] && ns[|ns| - 1] == nodes[|nodes| - 1];
    assert nodes[0] != nodes[k + 1] && nodes[|nodes| - 1] != nodes[k - 1];
    SpliceOutDistinct(nodes, k);
    BridgeForward(arena, nodes, k);
    BridgeBackward(arena, nodes, k);
  }

  /** The `next` links after `Bridge` follow the chain without position `k`. */
  lemma {:induction false} BridgeForward(arena: seq<Link>, nodes: seq<nat>, k: nat)
    requires Within(arena, nodes) && DistinctAll(nodes) && ForwardAll(arena, nodes) && 0 < k < |nodes| - 1
    ensures var r, ns := Bridge(arena, nodes[k - 1], nodes[k + 1]), nodes[..k] + nodes[k + 1..];
      Within(r, ns) && ForwardAll(r, ns)
  {
    var r, ns := Bridge(arena, nodes[k - 1], nodes[k + 1]), nodes[..k] + nodes[k + 1..];
    assert forall i :: 0 <= i < k ==> ns[i] == nodes[i];
    assert forall i :: k <= i < |ns| ==> ns[i] == nodes[i + 1];
    forall i | 0 <= i < |ns| - 1
      ensures r[ns[i]].next == ns[i + 1]
    {
      if i < k - 1 {
        assert ns[i] == nodes[i] && ns[i + 1] == nodes[i + 1];
      } else if i >= k {
        assert ns[i] == nodes[i + 1] && ns[i + 1] == nodes[i + 2];
      }
    }
  }

  /** The `previous` links after `Bridge` follow the chain without position `k`. */
  lemma {:induction false} BridgeBackward(arena: seq<Link>, nodes: seq<nat>, k: nat)
    requires Within(arena, nodes) && DistinctAll(nodes) && BackwardAll(arena, nodes) && 0 < k < |nodes| - 1
    ensures var r, ns := Bridge(arena, nodes[k - 1], nodes[k + 1]), nodes[..k] + nodes[k + 1..];
      Within(r, ns) && BackwardAll(r, ns)
  {
    var r, ns := Bridge(arena, nodes[k - 1], nodes[k + 1]), nodes[..k] + nodes[k + 1..];
    assert forall i :: 0 <= i < k ==> ns[i] == nodes[i];
    assert forall i :: k <= i < |ns| ==> ns[i] == nodes[i + 1];
    forall i | 0 < i < |ns|
      ensures r[ns[i]].previous == ns[i - 1]
    {
      if i < k {
        assert ns[i] == nodes[i] && ns[i - 1] == nodes[i - 1];
      } else if i > k {
        assert ns[i] == nodes[i + 1] && ns[i - 1] == nodes[i];
      }
    }
  }

  /** The values along a chain without position `k`. */
  lemma SpliceOutValues(values: seq<int>, nodes: seq<nat>, k: nat)
    requires Within(values, nodes) && k < |nodes|
    ensures ValuesOf(values, nodes[..k] + nodes[k + 1..])
      == ValuesOf(values, nodes)[..k] + ValuesOf(values, nodes)[k + 1..]
  {
    var ns := nodes[..k] + nodes[k + 1..];
    assert forall i :: 0 <= i < k ==> ns[i] == nodes[i];
    assert forall i :: k <= i < |ns| ==> ns[i] == nodes[i + 1];
  }

  // ---------------------------------------------------------------------------
  // The two-ended scans of `contains` and `is_sorted`

  /** Whether the scan of `contains` looks at position `p` of a list of
      length `n`: it stops when its two cursors meet, so the middle of an
      odd-length list is never compared. */
  predicate Scanned(n: nat, p: nat) {
    !(n % 2 == 1 && p == n / 2)
  }

  /** `x` occurs at a position the scan of `contains` compares. */
  ghost predicate ScanFinds(s: seq<int>, x: int) {
    exists p :: 0 <= p < |s| && Scanned(|s|, p) && s[p] == x
  }

  /** Whether the scan of `is_sorted` compares the adjacent pair at `p` and
      `p + 1` of a list of length `n`: on an even length it stops before the
      middle pair. */
  predicate PairScanned(n: nat, p: nat) {
    !(n % 2 == 0 && p + 1 == n / 2)
  }

  /** The adjacent pair at `p` and `p + 1` is in order. */
  predicate PairInOrder(s: seq<int>, p: nat)
    requires p + 1 < |s|
  {
    s[p] <= s[p + 1]
  }

  /** Every adjacent pair that `is_sorted` compares is in order. */
  ghost predicate ScannedPairsOrdered(s: seq<int>) {
    forall p :: 0 <= p < |s| - 1 && PairScanned(|s|, p) ==> PairInOrder(s, p)
  }

  /** Every adjacent pair is in order. */
  ghost predicate Ascending(s: seq<int>) {
    forall p :: 0 <= p < |s| - 1 ==> PairInOrder(s, p)
  }

  /** One pass of the scan of `is_sorted`: the pairs known to be in order
      grow by one at each end. */
  lemma PairsInward(s: seq<int>, k: nat, m: nat)
    requires k < m < |s|
    requires forall p :: 0 <= p < k ==> PairInOrder(s, p)
    requires forall p :: m <= p < |s| - 1 ==> PairInOrder(s, p)
    requires PairInOrder(s, k) && PairInOrder(s, m - 1)
    ensures forall p :: 0 <= p < k + 1 ==> PairInOrder(s, p)
    ensures forall p :: m - 1 <= p < |s| - 1 ==> PairInOrder(s, p)
  {
  }

  /** Whatever the scan of `contains` finds is in the list. */
  lemma ScanFindsMember(s: seq<int>, x: int)
    requires ScanFinds(s, x)
    ensures x in s
  {
    var p :| 0 <= p < |s| && Scanned(|s|, p) && s[p] == x;
  }

  /** On an even length the scan of `contains` compares every position, so
      it finds exactly the members. */
  lemma ScanFindsEven(s: seq<int>, x: int)
    requires |s| % 2 == 0
    ensures ScanFinds(s, x) <==> x in s
  {
    if x in s {
      var p :| 0 <= p < |s| && s[p] == x;
      assert Scanned(|s|, p);
    }
  }

  /** On an odd length the scan of `contains` misses exactly the middle
      element: `x` is found iff it occurs away from the middle. */
  lemma ScanFindsOdd(s: seq<int>, x: int)
    requires |s| % 2 == 1
    ensures ScanFinds(s, x) <==> x in s[..|s| / 2] + s[|s| / 2 + 1..]
  {
    var m := |s| / 2;
    var t := s[..m] + s[m + 1..];
    assert forall i :: 0 <= i < m ==> t[i] == s[i];
    assert forall i :: m <= i < |t| ==> t[i] == s[i + 1];
    if ScanFinds(s, x) {
      var p :| 0 <= p < |s| && Scanned(|s|, p) && s[p] == x;
      if p < m {
        assert t[p] == x;
      } else {
        assert t[p - 1] == x;
      }
    }
    if x in t {
      var i :| 0 <= i < |t| && t[i] == x;
      if i < m {
        assert Scanned(|s|, i) && s[i] == x;
      } else {
        assert Scanned(|s|, i + 1) && s[i + 1] == x;
      }
    }
  }

  /** `contains` on the one-element list `[5]` misses the 5 it holds. */
  lemma ContainsMissesSingleton()
    ensures 5 in [5] && !ScanFinds([5], 5)
  {
    assert !Scanned(1, 0);
  }

  /** An ascending list passes the scan of `is_sorted`. */
  lemma AscendingPassesScan(s: seq<int>)
    requires Ascending(s)
    ensures ScannedPairsOrdered(s)
  {
  }

  /** On an odd length the scan of `is_sorted` compares every adjacent pair,
      so it passes exactly the ascending lists. */
  lemma ScanOrderedOdd(s: seq<int>)
    requires |s| % 2 == 1
    ensures ScannedPairsOrdered(s) <==> Ascending(s)
  {
    if ScannedPairsOrdered(s) {
      forall p | 0 <= p < |s| - 1
        ensures PairInOrder(s, p)
      {
        assert PairScanned(|s|, p);
      }
    }
  }

  /** `is_sorted` on `[2, 1]` compares no pair and passes a descending list. */
  lemma IsSortedPassesDescendingPair()
    ensures ScannedPairsOrdered([2, 1]) && !Ascending([2, 1])
  {
    assert !PairScanned(2, 0);
    assert !PairInOrder([2, 1], 0);
  }

  /** Every adjacent pair is in order exactly when every pair is. */
  lemma {:induction false} AscendingIffSorted(s: seq<int>)
    ensures Ascending(s) <==> Sorted(s)
    decreases |s|
  {
    if |s| > 1 {
      var t := s[1..];
      assert forall i :: 0 <= i < |t| ==> t[i] == s[i + 1];
      AscendingIffSorted(t);
      if Ascending(s) {
        assert Ascending(t) by {
          forall p | 0 <= p < |t| - 1 ensures t[p] <= t[p + 1] {
            assert PairInOrder(s, p + 1);
          }
        }
        forall i, j | 0 <= i < j < |s|
          ensures s[i] <= s[j]
        {
          assert PairInOrder(s, 0);
          if i > 0 {
            assert s[i] == t[i - 1] && s[j] == t[j - 1];
          } else if j > 1 {
            assert s[1] == t[0] && s[j] == t[j - 1];
          }
        }
      }
    }
  }

  // ---------------------------------------------------------------------------
  // The merge sort, on the sequence of values

  /** Every pair of positions in `lo .. hi - 1` is in order. */
  ghost predicate SortedOn(s: seq<int>, lo: nat, hi: nat)
    requires lo <= hi <= |s|
  {
    forall i, j :: lo <= i < j < hi ==> s[i] <= s[j]
  }

  /** Every pair is in order. */
  ghost predicate Sorted(s: seq<int>) {
    SortedOn(s, 0, |s|)
  }

  /** `v` is at most every element of `s`. */
  ghost predicate AtMost(v: int, s: seq<int>) {
    forall i :: 0 <= i < |s| ==> v <= s[i]
  }

  /** `v` is at most every value at positions `lo .. hi - 1`. */
  ghost predicate AtMostOn(v: int, s: seq<int>, lo: nat, hi: nat)
    requires lo <= hi <= |s|
  {
    forall i :: lo <= i < hi ==> v <= s[i]
  }

  /** `r` and `s` agree everywhere outside positions `lo .. hi - 1`. */
  ghost predicate SameOutside(r: seq<int>, s: seq<int>, lo: nat, hi: nat) {
    |r| == |s| && forall i :: 0 <= i < |s| && !(lo <= i < hi) ==> r[i] == s[i]
  }

  /** `sort_swap` at position `p`: the pair at `p` and `p + 1` is put in
      order; at the last position, or past the end, nothing happens. */
  function SortPair(s: seq<int>, p: nat): (r: seq<int>)
    requires p <= |s|
    ensures |r| == |s|
  {
    if p + 1 < |s| && s[p] > s[p + 1] then s[p := s[p + 1]][p + 1 := s[p]] else s
  }

  /** After `sort_swap` at `p` the pair at `p` is in order, and every other
      position keeps its value. */
  lemma SortPairOrders(s: seq<int>, p: nat)
    requires p <= |s|
    ensures p + 1 < |s| ==> PairInOrder(SortPair(s, p), p)
    ensures SameOutside(SortPair(s, p), s, p, p + 2)
  {
  }

  /** `sort_swap` only exchanges values. */
  lemma SortPairPerm(s: seq<int>, p: nat)
    requires p <= |s|
    ensures multiset(SortPair(s, p)) == multiset(s)
  {
  }

  /** The gathering loop of `merge` over the neighbouring runs `s[p..m1]`
      and `s[q..b1]`: while both runs have values the smaller head goes
      first, and on a tie the head of the right run does; then whatever is
      left of either run. */
  function MergeFrom(s: seq<int>, p: nat, m1: nat, q: nat, b1: nat): (r: seq<int>)
    requires p <= m1 <= q <= b1 <= |s|
    ensures |r| == (m1 - p) + (b1 - q)
    decreases (m1 - p) + (b1 - q)
  {
    if p < m1 && q < b1 then
      if s[p] < s[q] then [s[p]] + MergeFrom(s, p + 1, m1, q, b1)
      else [s[q]] + MergeFrom(s, p, m1, q + 1, b1)
    else if p < m1 then [s[p]] + MergeFrom(s, p + 1, m1, q, b1)
    else if q < b1 then [s[q]] + MergeFrom(s, p, m1, q + 1, b1)
    else []
  }

  /** The merge starts with the head of the left run when that is smaller
      than the head of the right run, or the right run is empty. */
  lemma MergeFromLeft(s: seq<int>, p: nat, m1: nat, q: nat, b1: nat)
    requires p < m1 <= q <= b1 <= |s| && (q == b1 || s[p] < s[q])
    ensures MergeFrom(s, p, m1, q, b1) == [s[p]] + MergeFrom(s, p + 1, m1, q, b1)
  {
  }

  /** Otherwise it starts with the head of the right run. */
  lemma MergeFromRight(s: seq<int>, p: nat, m1: nat, q: nat, b1: nat)
    requires p <= m1 <= q < b1 <= |s| && (p == m1 || s[p] >= s[q])
    ensures MergeFrom(s, p, m1, q, b1) == [s[q]] + MergeFrom(s, p, m1, q + 1, b1)
  {
  }

  /** One step of the gathering loop of `merge` that takes `v`, the head
      of the left run: when `result` followed by the merge of what is left of
      both runs is `total`, so is `result + [v]` followed by the rest. */
  lemma MergeTakeLeft(s: seq<int>, p: nat, m1: nat, q: nat, b1: nat, result: seq<int>, total: seq<int>, v: int)
    requires p < m1 <= q <= b1 <= |s| && (q == b1 || s[p] < s[q]) && v == s[p]
    requires result + MergeFrom(s, p, m1, q, b1) == total
    ensures (result + [v]) + MergeFrom(s, p + 1, m1, q, b1) == total
  {
    Regroup(result, [v], MergeFrom(s, p + 1, m1, q, b1));
  }

  /** One step of the gathering loop of `merge` that takes `v`, the head
      of the right run. */
  lemma MergeTakeRight(s: seq<int>, p: nat, m1: nat, q: nat, b1: nat, result: seq<int>, total: seq<int>, v: int)
    requires p <= m1 <= q < b1 <= |s| && (p == m1 || s[p] >= s[q]) && v == s[q]
    requires result + MergeFrom(s, p, m1, q, b1) == total
    ensures (result + [v]) + MergeFrom(s, p, m1, q + 1, b1) == total
  {
    Regroup(result, [v], MergeFrom(s, p, m1, q + 1, b1));
  }

  /** One pass of the gathering loop of `merge`: with `i` at position `p` of
      the left run `..m` and `j` at position `q` of the right run `..b`, not
      both run out, take the smaller value, the right one on a tie, and
      advance past it. */
  method MergeStep(links: seq<Link>, vals: seq<int>, ghost ns: seq<nat>, ghost h: int, ghost t: int,
                   mid: int, end: int, ghost m: nat, ghost b: nat, ghost total: seq<int>,
                   i: int, j: int, result: seq<int>, ghost p: nat, ghost q: nat)
    returns (i': int, j': int, result': seq<int>, ghost p': nat, ghost q': nat)
    requires Linked(links, ns, h, t) && |vals| == |links| && m <= b < |ns|
    requires mid == ns[m] && end == ns[b] && p <= m + 1 <= q <= b + 1
    requires i == NodeAt(ns, p) && j == NodeAt(ns, q)
    requires 0 <= mid < |links| && 0 <= end < |links|
    requires i != links[mid].next || j != links[end].next
    requires Within(vals, ns) && result + MergeFrom(ValuesOf(vals, ns), p, m + 1, q, b + 1) == total
    ensures p <= p' <= m + 1 <= q <= q' <= b + 1 && p' + q' == p + q + 1
    ensures i' == NodeAt(ns, p') && j' == NodeAt(ns, q')
    ensures result' + MergeFrom(ValuesOf(vals, ns), p', m + 1, q', b + 1) == total
  {
    ghost var s := ValuesOf(vals, ns);
    CursorAt(links, vals, ns, h, t, p, m);
    CursorAt(links, vals, ns, h, t, q, b);
    if i != links[mid].next && (j == links[end].next || vals[i] < vals[j]) {
      MergeTakeLeft(s, p, m + 1, q, b + 1, result, total, vals[i]);
      result' := result + [vals[i]];
      i', j', p', q' := links[i].next, j, p + 1, q;
    } else {
      MergeTakeRight(s, p, m + 1, q, b + 1, result, total, vals[j]);
      result' := result + [vals[j]];
      i', j', p', q' := i, links[j].next, p, q + 1;
    }
  }

  /** The gathering loop of `merge` over the links and values of a chain:
      walk `i` from `start` to just past `mid` and `j` from just past `mid`
      to just past `end`, each time taking the smaller value, the right one
      on a tie. */
  method MergeScan(links: seq<Link>, vals: seq<int>, ghost ns: seq<nat>, ghost h: int, ghost t: int,
                   start: int, mid: int, end: int, ghost a: nat, ghost m: nat, ghost b: nat)
    returns (result: seq<int>)
    requires Linked(links, ns, h, t) && |vals| == |links| && a <= m <= b < |ns|
    requires start == ns[a] && mid == ns[m] && end == ns[b]
    ensures Within(vals, ns) && result == MergeFrom(ValuesOf(vals, ns), a, m + 1, m + 1, b + 1)
  {
    CursorAt(links, vals, ns, h, t, 0, m);
    CursorAt(links, vals, ns, h, t, 0, b);
    ghost var total := MergeFrom(ValuesOf(vals, ns), a, m + 1, m + 1, b + 1);
    StepAt(links, ns, h, t, m);
    result := [];
    var i, j := start, links[mid].next;
    ghost var p, q := a, m + 1;
    while i != links[mid].next || j != links[end].next
      invariant a <= p <= m + 1 <= q <= b + 1
      invariant i == NodeAt(ns, p) && j == NodeAt(ns, q)
      invariant result + MergeFrom(ValuesOf(vals, ns), p, m + 1, q, b + 1) == total
      decreases m + 1 - p + b + 1 - q
    {
      i, j, result, p, q := MergeStep(links, vals, ns, h, t, mid, end, m, b, total, i, j, result, p, q);
    }
    CursorAt(links, vals, ns, h, t, p, m);
    CursorAt(links, vals, ns, h, t, q, b);
    assert result == total;
  }

  /** The merge holds the values of both runs. */
  lemma {:induction false} MergeFromPerm(s: seq<int>, p: nat, m1: nat, q: nat, b1: nat)
    requires p <= m1 <= q <= b1 <= |s|
    ensures multiset(MergeFrom(s, p, m1, q, b1)) == multiset(s[p..m1]) + multiset(s[q..b1])
    decreases (m1 - p) + (b1 - q)
  {
    if p < m1 && (q == b1 || s[p] < s[q]) {
      MergeFromLeft(s, p, m1, q, b1);
      MergeFromPerm(s, p + 1, m1, q, b1);
      PermTakeLeft(s, p, m1, q, b1, MergeFrom(s, p + 1, m1, q, b1));
    } else if q < b1 {
      MergeFromRight(s, p, m1, q, b1);
      MergeFromPerm(s, p, m1, q + 1, b1);
      PermTakeRight(s, p, m1, q, b1, MergeFrom(s, p, m1, q + 1, b1));
    } else {
      assert s[p..m1] == [] && s[q..b1] == [];
    }
  }

  /** Taking the head of the left run keeps the multiset of what is merged. */
  lemma PermTakeLeft(s: seq<int>, p: nat, m1: nat, q: nat, b1: nat, u: seq<int>)
    requires p < m1 <= q <= b1 <= |s|
    requires multiset(u) == multiset(s[p + 1..m1]) + multiset(s[q..b1])
    ensures multiset([s[p]] + u) == multiset(s[p..m1]) + multiset(s[q..b1])
  {
    assert s[p..m1] == [s[p]] + s[p + 1..m1];
  }

  /** Taking the head of the right run keeps the multiset of what is merged. */
  lemma PermTakeRight(s: seq<int>, p: nat, m1: nat, q: nat, b1: nat, u: seq<int>)
    requires p <= m1 <= q < b1 <= |s|
    requires multiset(u) == multiset(s[p..m1]) + multiset(s[q + 1..b1])
    ensures multiset([s[q]] + u) == multiset(s[p..m1]) + multiset(s[q..b1])
  {
    assert s[q..b1] == [s[q]] + s[q + 1..b1];
  }

  /** A lower bound of both runs bounds their merge. */
  lemma {:induction false} MergeFromAtMost(v: int, s: seq<int>, p: nat, m1: nat, q: nat, b1: nat)
    requires p <= m1 <= q <= b1 <= |s|
    requires AtMostOn(v, s, p, m1) && AtMostOn(v, s, q, b1)
    ensures AtMost(v, MergeFrom(s, p, m1, q, b1))
    decreases (m1 - p) + (b1 - q)
  {
    if p < m1 && (q == b1 || s[p] < s[q]) {
      MergeFromLeft(s, p, m1, q, b1);
      MergeFromAtMost(v, s, p + 1, m1, q, b1);
    } else if q < b1 {
      MergeFromRight(s, p, m1, q, b1);
      MergeFromAtMost(v, s, p, m1, q + 1, b1);
    }
  }

  /** Putting a lower bound in front of a sorted sequence keeps it sorted. */
  lemma SortedCons(v: int, s: seq<int>)
    requires AtMost(v, s) && Sorted(s)
    ensures Sorted([v] + s)
  {
    var t := [v] + s;
    forall i, j | 0 <= i < j < |t|
      ensures t[i] <= t[j]
    {
      assert t[j] == s[j - 1];
      if i > 0 {
        assert t[i] == s[i - 1];
      }
    }
  }

  /** The merge of two sorted runs is sorted. */
  lemma {:induction false} MergeFromSorted(s: seq<int>, p: nat, m1: nat, q: nat, b1: nat)
    requires p <= m1 <= q <= b1 <= |s|
    requires SortedOn(s, p, m1) && SortedOn(s, q, b1)
    ensures Sorted(MergeFrom(s, p, m1, q, b1))
    decreases (m1 - p) + (b1 - q)
  {
    if p < m1 && (q == b1 || s[p] < s[q]) {
      MergeFromLeft(s, p, m1, q, b1);
      MergeFromSorted(s, p + 1, m1, q, b1);
      assert AtMostOn(s[p], s, q, b1) by {
        if q < b1 {
          assert forall i :: q <= i < b1 ==> s[q] <= s[i];
        }
      }
      MergeFromAtMost(s[p], s, p + 1, m1, q, b1);
      SortedCons(s[p], MergeFrom(s, p + 1, m1, q, b1));
    } else if q < b1 {
      MergeFromRight(s, p, m1, q, b1);
      MergeFromSorted(s, p, m1, q + 1, b1);
      assert AtMostOn(s[q], s, p, m1) by {
        if p < m1 {
          assert forall i :: p <= i < m1 ==> s[p] <= s[i];
        }
      }
      MergeFromAtMost(s[q], s, p, m1, q + 1, b1);
      SortedCons(s[q], MergeFrom(s, p, m1, q + 1, b1));
    }
  }

  /** `merge` on the runs at positions `a..m` and `m + 1..b`: a left run of
      one node is `sort_swap`; otherwise the merged runs replace both. */
  function MergeInto(s: seq<int>, a: nat, m: nat, b: nat): (r: seq<int>)
    requires a <= m <= b < |s|
    ensures |r| == |s|
  {
    if a == m then SortPair(s, a)
    else s[..a] + MergeFrom(s, a, m + 1, m + 1, b + 1) + s[b + 1..]
  }

  /** `merge` of two sorted runs sorts `a..b`, leaves everything outside
      `a .. b + 1` alone, and keeps every value. */
  lemma MergeIntoSorts(s: seq<int>, a: nat, m: nat, b: nat)
    requires a < m <= b < |s| && SortedOn(s, a, m + 1) && SortedOn(s, m + 1, b + 1)
    ensures SortedOn(MergeInto(s, a, m, b), a, b + 1)
    ensures SameOutside(MergeInto(s, a, m, b), s, a, b + 1)
  {
    var x, w, z := s[..a], s[a..b + 1], s[b + 1..];
    var mg := MergeFrom(s, a, m + 1, m + 1, b + 1);
    assert s == x + w + z;
    MergeFromSorted(s, a, m + 1, m + 1, b + 1);
    SpliceSorted(x, mg, z);
    SpliceFrame(x, w, mg, z);
  }

  /** A sorted middle part is sorted in place. */
  lemma SpliceSorted(x: seq<int>, mg: seq<int>, z: seq<int>)
    requires Sorted(mg)
    ensures SortedOn(x + mg + z, |x|, |x| + |mg|)
  {
    var r := x + mg + z;
    assert forall i :: |x| <= i < |x| + |mg| ==> r[i] == mg[i - |x|];
  }

  /** Replacing the middle part changes nothing outside it. */
  lemma SpliceFrame(x: seq<int>, w: seq<int>, mg: seq<int>, z: seq<int>)
    requires |w| == |mg|
    ensures SameOutside(x + mg + z, x + w + z, |x|, |x| + |w|)
  {
    var r, s := x + mg + z, x + w + z;
    assert forall i :: 0 <= i < |x| ==> r[i] == x[i] == s[i];
    assert forall i :: |x| + |w| <= i < |s| ==> r[i] == z[i - |x| - |w|] == s[i];
  }

  /** `merge` only moves values. */
  lemma MergeIntoPerm(s: seq<int>, a: nat, m: nat, b: nat)
    requires a <= m <= b < |s|
    ensures multiset(MergeInto(s, a, m, b)) == multiset(s)
  {
    if a == m {
      SortPairPerm(s, a);
    } else {
      MergedSplicePerm(s, a, m, b);
    }
  }

  /** Splicing the merge of `a .. m` and `m + 1 .. b` back in place keeps
      every value. */
  lemma MergedSplicePerm(s: seq<int>, a: nat, m: nat, b: nat)
    requires a <= m <= b < |s|
    ensures multiset(s[..a] + MergeFrom(s, a, m + 1, m + 1, b + 1) + s[b + 1..]) == multiset(s)
  {
    MergedSpliceAt(s, a, m + 1, b + 1);
  }

  /** `MergedSplicePerm` with the ends of the runs given as `m1` and `b1`. */
  lemma MergedSpliceAt(s: seq<int>, a: nat, m1: nat, b1: nat)
    requires a <= m1 <= b1 <= |s|
    ensures multiset(s[..a] + MergeFrom(s, a, m1, m1, b1) + s[b1..]) == multiset(s)
  {
    MergeFromPerm(s, a, m1, m1, b1);
    PermSplice(s, a, m1, b1, MergeFrom(s, a, m1, m1, b1));
  }

  /** A sequence cut at three positions. */
  lemma Split3(s: seq<int>, a: nat, c: nat, e: nat)
    requires a <= c <= e <= |s|
    ensures s == s[..a] + (s[a..c] + s[c..e]) + s[e..]
  {
  }

  /** Replacing the part `a .. e` of a sequence by a permutation of its two
      halves `a .. c` and `c .. e` permutes the sequence. */
  lemma PermSplice(s: seq<int>, a: nat, c: nat, e: nat, mg: seq<int>)
    requires a <= c <= e <= |s|
    requires multiset(mg) == multiset(s[a..c]) + multiset(s[c..e])
    ensures multiset(s[..a] + mg + s[e..]) == multiset(s)
  {
    Split3(s, a, c, e);
  }

  /** The base case of `merge_sort`: a range of one or two nodes is
      `sort_swap`ped at its first position, which sorts it and may change the
      position after a one-node range. */
  lemma SortPairSortsRange(s: seq<int>, a: nat, b: nat)
    requires a <= b <= a + 1 && b < |s|
    ensures SortedOn(SortPair(s, a), a, b + 1)
    ensures SameOutside(SortPair(s, a), s, a, b + 2)
  {
    SortPairOrders(s, a);
    if b == a + 1 {
      assert PairInOrder(SortPair(s, a), a);
    }
  }

  /** One level of `merge_sort` on `a..b` split at `m`: when sorting the
      left half sorted `a..m` and changed nothing beyond `m + 1`, and
      sorting the right half sorted `m + 1..b` and changed nothing outside
      `m + 1 .. b + 1`, merging sorts `a..b` and leaves everything outside
      `a .. b + 1` as it was before the first half was sorted. */
  lemma MergeSortLevel(s0: seq<int>, s1: seq<int>, s2: seq<int>, a: nat, m: nat, b: nat)
    requires a < m < b < |s0|
    requires SameOutside(s1, s0, a, m + 2) && SortedOn(s1, a, m + 1)
    requires SameOutside(s2, s1, m + 1, b + 2) && SortedOn(s2, m + 1, b + 1)
    ensures SortedOn(MergeInto(s2, a, m, b), a, b + 1)
    ensures SameOutside(MergeInto(s2, a, m, b), s0, a, b + 2)
  {
    assert SortedOn(s2, a, m + 1) by {
      assert forall i :: a <= i <= m ==> s2[i] == s1[i];
    }
    MergeIntoSorts(s2, a, m, b);
  }

  /** `s` with `r[..k]` written over it from position `a` on, one value at a
      time, as the writing loop of `merge` does. */
  function Written(s: seq<int>, r: seq<int>, a: nat, k: nat): (w: seq<int>)
    requires a + |r| <= |s| && k <= |r|
    ensures |w| == |s|
  {
    if k == 0 then s else Written(s, r, a, k - 1)[a + k - 1 := r[k - 1]]
  }

  /** One more write: position `a + k` receives `r[k]`. */
  lemma WrittenNext(s: seq<int>, r: seq<int>, a: nat, k: nat)
    requires a + |r| <= |s| && k < |r|
    ensures Written(s, r, a, k + 1) == Written(s, r, a, k)[a + k := r[k]]
  {
  }

  /** Writing all of `r` from position `a` on replaces `s[a..a + |r|]` by
      `r`. */
  lemma {:induction false} WrittenAll(s: seq<int>, r: seq<int>, a: nat, k: nat)
    requires a + |r| <= |s| && k <= |r|
    ensures Written(s, r, a, k) == s[..a] + r[..k] + s[a + k..]
  {
    if k > 0 {
      WrittenAll(s, r, a, k - 1);
      assert r[..k] == r[..k - 1] + [r[k - 1]];
    }
  }

  // ---------------------------------------------------------------------------
  // The list object

  class DLL {
    var arena: seq<Link>
    var values: seq<int>
    var head: int
    var tail: int
    var size: nat
    ghost var nodes: seq<nat>

    /** The chain from `head` to `tail` holds `size` nodes. */
    ghost predicate Valid()
      reads this
    {
      size == |nodes| && |values| == |arena| && Linked(arena, nodes, head, tail)
    }

    /** The values along the chain, front to back. */
    ghost function Contents(): (s: seq<int>)
      reads this
      requires Valid()
      ensures |s| == size
    {
      ValuesOf(values, nodes)
    }

    /** An empty list. */
    constructor ()
      ensures Valid() && Contents() == []
    {
      arena, values, head, tail, size, nodes := [], [], Null, Null, 0, [];
    }

    /** The vector constructor: `PushBack` each element of `v` in turn. */
    constructor FromSeq(v: seq<int>)
      ensures Valid() && Contents() == v
    {
      arena, values, head, tail, size, nodes := [], [], Null, Null, 0, [];
      new;
      for k := 0 to |v|
        invariant Valid() && Contents() == v[..k]
      {
        assert v[..k + 1] == v[..k] + [v[k]];
        var _ := PushBack(v[k]);
      }
      assert v[..|v|] == v;
    }

    /** The copy constructor: walk `other` from its head and `PushBack` each
        value, so the copy shares no node with `other`. */
    constructor Copy(other: DLL)
      requires other.Valid()
      ensures Valid() && Contents() == other.Contents()
    {
      arena, values, head, tail, size, nodes := [], [], Null, Null, 0, [];
      new;
      var jumper := other.head;
      ghost var k := 0;
      while jumper != Null
        invariant Valid() && k <= other.size
        invariant jumper == NodeAt(other.nodes, k)
        invariant Contents() == other.Contents()[..k]
        decreases other.size - k
      {
        other.SameCursor(k, other.size);
        other.Steps(k);
        assert other.Contents()[..k + 1] == other.Contents()[..k] + [other.values[jumper]];
        var _ := PushBack(other.values[jumper]);
        jumper := other.arena[jumper].next;
        k := k + 1;
      }
      other.SameCursor(k, other.size);
      assert other.Contents()[..k] == other.Contents();
    }

    /** The node constructor: a new node holding `v` between `p` and `n`,
        which it links to itself. */
    method NewNode(v: int, p: int, n: int) returns (id: nat)
      requires |values| == |arena|
      requires p == Null || 0 <= p < |arena|
      requires n == Null || 0 <= n < |arena|
      modifies this`arena, this`values
      ensures id == old(|arena|) && arena == Attach(old(arena), p, n) && values == old(values) + [v]
    {
      id := |arena|;
      arena, values := arena + [Link(p, n)], values + [v];
      if p != Null {
        arena := arena[p := arena[p].(next := id)];
      }
      if n != Null {
        arena := arena[n := arena[n].(previous := id)];
      }
    }

    /** Whether the list is empty, judged by a null `head`. */
    function IsEmpty(): (b: bool)
      reads this
      requires Valid()
      ensures b <==> Contents() == []
    {
      head == Null
    }

    /** The number of elements. */
    function Length(): (n: nat)
      reads this
      requires Valid()
      ensures n == |Contents()|
    {
      size
    }

    /** The node at position `index`, walking from the head when `index` is
        in the first half and from the tail otherwise; null when out of range. */
    method NodeAtIndex(index: nat) returns (n: int)
      requires Valid()
      ensures n == NodeAt(nodes, index)
      ensures index < size ==> 0 <= n < |arena| && values[n] == Contents()[index]
    {
      if index >= size {
        return Null;
      }
      if index < size / 2 {
        n := head;
        var k := 0;
        while k < index
          invariant 0 <= k <= index && n == nodes[k]
        {
          Steps(k);
          n := arena[n].next;
          k := k + 1;
        }
      } else {
        n := tail;
        var k := size - 1;
        while k > index
          invariant index <= k < size && n == nodes[k]
        {
          Steps(k);
          n := arena[n].previous;
          k := k - 1;
        }
      }
    }

    /** Put `v` in front. */
    method PushFront(v: int) returns (ok: bool)
      requires Valid()
      modifies this
      ensures Valid() && ok
      ensures Contents() == [v] + old(Contents())
    {
      LinkFront(arena, values, nodes, head, tail, v);
      ghost var r, ns, t := Attach(arena, Null, head), [|arena|] + nodes, if nodes == [] then |arena| else tail;
      ghost var s := [v] + Contents();
      var id := NewNode(v, Null, head);
      head := id;
      nodes := [id] + nodes;
      size := size + 1;
      if size == 1 {
        tail := head;
      }
      ok := true;
      assert arena == r && nodes == ns && tail == t && size == |ns|;
      assert Linked(arena, nodes, head, tail) && ValuesOf(values, nodes) == s;
    }

    /** Put `v` at the back; on an empty list this is `PushFront`. */
    method PushBack(v: int) returns (ok: bool)
      requires Valid()
      modifies this
      ensures Valid() && ok
      ensures Contents() == old(Contents()) + [v]
    {
      if IsEmpty() {
        ok := PushFront(v);
        assert old(Contents()) == [];
        return;
      }
      LinkBack(arena, values, nodes, head, tail, v);
      var id := NewNode(v, tail, Null);
      tail := id;
      nodes := nodes + [id];
      size := size + 1;
      ok := true;
    }

    /** Insert `v` so that it ends up at position `index`; refused when
        `index` is past the end. */
    method Insert(v: int, index: nat) returns (ok: bool)
      requires Valid()
      modifies this
      ensures Valid()
      ensures ok <==> index <= old(size)
      ensures ok ==> Contents() == old(Contents())[..index] + [v] + old(Contents())[index..]
      ensures !ok ==> Contents() == old(Contents())
    {
      ghost var s := Contents();
      if index > size {
        return false;
      }
      if index == 0 {
        ok := PushFront(v);
        assert s[..0] == [] && s[0..] == s;
        return;
      }
      if index == size {
        ok := PushBack(v);
        assert s[..index] == s && s[index..] == [];
        return;
      }
      LinkAt(v, index);
      ok := true;
    }

    /** The middle case of `Insert`: a new node between positions
        `index - 1` and `index`. */
    method LinkAt(v: int, index: nat)
      requires Valid() && 0 < index < size
      modifies this
      ensures Valid() && size == old(size) + 1
      ensures Contents() == old(Contents())[..index] + [v] + old(Contents())[index..]
    {
      ghost var arena0, values0, nodes0 := arena, values, nodes;
      var j := NodeAtIndex(index - 1);
      Steps(index - 1);
      var id := NewNode(v, j, arena[j].next);
      ghost var attached := arena;
      arena := arena[j := arena[j].(next := id)];
      nodes, size := nodes[..index] + [id] + nodes[index..], size + 1;
      LinkAfter(arena0, values0, nodes0, head, tail, v, index, j, nodes0[index], attached, arena, values, nodes);
    }

    /** Drop the first element; refused on an empty list. */
    method PopFront() returns (ok: bool)
      requires Valid()
      modifies this
      ensures Valid()
      ensures ok <==> old(size) > 0
      ensures ok ==> Contents() == old(Contents())[1..]
      ensures !ok ==> Contents() == old(Contents())
    {
      if IsEmpty() {
        return false;
      }
      UnlinkFront(arena, values, nodes, head, tail);
      head := arena[head].next;
      size := size - 1;
      nodes := nodes[1..];
      if size != 0 {
        arena := arena[head := arena[head].(previous := Null)];
      }
      ok := true;
    }

    /** Drop the last element; below two elements this is `PopFront`. */
    method PopBack() returns (ok: bool)
      requires Valid()
      modifies this
      ensures Valid()
      ensures ok <==> old(size) > 0
      ensures ok ==> Contents() == old(Contents())[..old(size) - 1]
      ensures !ok ==> Contents() == old(Contents())
    {
      if size < 2 {
        ok := PopFront();
        return;
      }
      UnlinkBack(arena, values, nodes, head, tail);
      tail := arena[tail].previous;
      arena := arena[tail := arena[tail].(next := Null)];
      size := size - 1;
      nodes := nodes[..size];
      ok := true;
    }

    /** Remove the element at position `index`; refused when out of range. */
    method Remove(index: nat) returns (ok: bool)
      requires Valid()
      modifies this
      ensures Valid()
      ensures ok <==> index < old(size)
      ensures ok ==> Contents() == old(Contents())[..index] + old(Contents())[index + 1..]
      ensures !ok ==> Contents() == old(Contents())
    {
      ghost var s := Contents();
      if index >= size {
        return false;
      }
      if index == 0 {
        ok := PopFront();
        assert s[..0] + s[1..] == s[1..];
        return;
      }
      if index == size - 1 {
        ok := PopBack();
        assert s[index + 1..] == [];
        return;
      }
      UnlinkAt(index);
      ok := true;
    }

    /** The middle case of `Remove`: the neighbours of the node at `index`
        are linked to each other and the node is left unreachable. */
    method UnlinkAt(index: nat)
      requires Valid() && 0 < index < size - 1
      modifies this
      ensures Valid() && size == old(size) - 1
      ensures Contents() == old(Contents())[..index] + old(Contents())[index + 1..]
    {
      var trash := NodeAtIndex(index);
      UnlinkMiddle(arena, values, nodes, head, tail, index);
      ghost var before := arena;
      var p := arena[trash].previous;
      arena := arena[p := arena[p].(next := arena[trash].next)];
      var n := arena[trash].next;
      arena := arena[n := arena[n].(previous := arena[trash].previous)];
      assert arena == Bridge(before, p, n);
      nodes := nodes[..index] + nodes[index + 1..];
      size := size - 1;
    }

    /** Overwrite the element at position `index`; refused when out of range. */
    method Replace(index: nat, v: int) returns (ok: bool)
      requires Valid()
      modifies this`values
      ensures Valid()
      ensures ok <==> index < size
      ensures ok ==> Contents() == old(Contents())[index := v]
      ensures !ok ==> Contents() == old(Contents())
    {
      var wanted := NodeAtIndex(index);
      if wanted != Null {
        SetValueAt(arena, values, nodes, head, tail, index, v);
        values := values[wanted := v];
      }
      ok := wanted != Null;
    }

    /** The element at position `index`, or the error `operator[]` throws. */
    method Get(index: nat) returns (r: Result<int>)
      requires Valid()
      ensures index < size ==> r == Ok(Contents()[index])
      ensures index >= size ==> r == Err("Index out of bounds")
    {
      var wanted := NodeAtIndex(index);
      if wanted != Null {
        r := Ok(values[wanted]);
      } else {
        r := Err("Index out of bounds");
      }
    }

    /** The cursor moves of the scans: one step forward from position `k`
        and one step back from position `size - 1 - k`. */
    lemma Steps(k: int)
      requires Valid() && 0 <= k < size
      ensures arena[nodes[k]].next == NodeAt(nodes, k + 1)
      ensures arena[nodes[k]].previous == NodeAt(nodes, k - 1)
    {
      LinkedIff(arena, nodes, head, tail);
    }

    /** Two cursors at positions in `-1 .. size` name the same node exactly
        when the positions are equal or both are off the chain. */
    lemma SameCursor(p: int, q: int)
      requires Valid() && -1 <= p <= size && -1 <= q <= size
      ensures NodeAt(nodes, p) == NodeAt(nodes, q) <==>
        p == q || ((p == -1 || p == size) && (q == -1 || q == size))
    {
      LinkedIff(arena, nodes, head, tail);
    }

    /** One pass of the loop of `contains`: whether the node at either
        cursor holds `elt`, and the cursors moved one node inward. */
    method ScanStep(elt: int, j1: int, j2: int, ghost k: nat, ghost m: nat) returns (hit: bool, j1': int, j2': int)
      requires Valid() && k < size && m < size && j1 == nodes[k] && j2 == nodes[m]
      ensures hit <==> Contents()[k] == elt || Contents()[m] == elt
      ensures j1' == NodeAt(nodes, k + 1) && j2' == NodeAt(nodes, m - 1)
    {
      Steps(k);
      Steps(m);
      hit := values[j1] == elt || values[j2] == elt;
      j1', j2' := arena[j1].next, arena[j2].previous;
    }

    /** `contains`: scan from both ends until the cursors meet. */
    method Contains(elt: int) returns (b: bool)
      requires Valid()
      ensures b <==> ScanFinds(Contents(), elt)
    {
      if IsEmpty() {
        return false;
      }
      ghost var s := Contents();
      var j1, j2 := head, tail;
      ghost var k, m := 0, size - 1;
      while j1 != j2
        invariant 0 <= k <= size && k + m == size - 1
        invariant j1 == NodeAt(nodes, k) && j2 == NodeAt(nodes, m)
        invariant forall p :: 0 <= p < k ==> s[p] != elt
        invariant forall p :: m < p < size ==> s[p] != elt
        decreases size - k
      {
        SameCursor(k, m);
        var hit;
        hit, j1, j2 := ScanStep(elt, j1, j2, k, m);
        if hit {
          assert Scanned(size, k) && Scanned(size, m);
          return true;
        }
        k, m := k + 1, m - 1;
      }
      SameCursor(k, m);
      b := false;
    }

    /** `contains` with the comparison of the node where the cursors meet,
        which the loop leaves out. */
    method ContainsCorrected(elt: int) returns (b: bool)
      requires Valid()
      ensures b <==> elt in Contents()
    {
      if IsEmpty() {
        return false;
      }
      ghost var s := Contents();
      var j1, j2 := head, tail;
      ghost var k, m := 0, size - 1;
      while j1 != j2
        invariant 0 <= k <= size && k + m == size - 1
        invariant j1 == NodeAt(nodes, k) && j2 == NodeAt(nodes, m)
        invariant forall p :: 0 <= p < k ==> s[p] != elt
        invariant forall p :: m < p < size ==> s[p] != elt
        decreases size - k
      {
        SameCursor(k, m);
        var hit;
        hit, j1, j2 := ScanStep(elt, j1, j2, k, m);
        if hit {
          return true;
        }
        k, m := k + 1, m - 1;
      }
      SameCursor(k, m);
      b := j1 != Null && values[j1] == elt;
      assert j1 != Null ==> values[j1] == s[k];
    }

    /** The cursors of `is_sorted` at positions `k <= m`: when they
        coincide, when the second one's `previous` is the first, and where
        their steps lead. */
    lemma Meet(k: nat, m: nat)
      requires Valid() && k <= m < size
      ensures (nodes[k] == nodes[m]) == (k == m)
      ensures k < m ==> arena[nodes[m]].previous == nodes[m - 1] && (nodes[k] == nodes[m - 1]) == (k == m - 1)
      ensures k < m - 1 ==> arena[nodes[k]].next == nodes[k + 1]
    {
      LinkedIff(arena, nodes, head, tail);
    }

    /** One pass of the loop of `is_sorted`: whether the pair after the
        cursor at `k` and the pair before the cursor at `m` are both in
        order, and the cursors moved one node inward. */
    method PairStep(start: int, end: int, ghost k: nat, ghost m: nat) returns (inOrder: bool, start': int, end': int)
      requires Valid() && k < m < size && start == nodes[k] && end == nodes[m]
      ensures inOrder <==> PairInOrder(Contents(), k) && PairInOrder(Contents(), m - 1)
      ensures start' == nodes[k + 1] && end' == nodes[m - 1]
    {
      Steps(k);
      Steps(m);
      start', end' := arena[start].next, arena[end].previous;
      inOrder := values[start] <= values[start'] && values[end] >= values[end'];
    }

    /** `is_sorted`: compare adjacent pairs from both ends until the cursors
        meet or become neighbours. */
    method IsSorted() returns (b: bool)
      requires Valid()
      ensures b <==> ScannedPairsOrdered(Contents())
    {
      if size < 2 {
        return true;
      }
      ghost var s := Contents();
      var start, end := head, tail;
      ghost var k, m := 0, size - 1;
      while start != end && start != arena[end].previous
        invariant k <= m < size && k + m == size - 1
        invariant start == nodes[k] && end == nodes[m]
        invariant forall p :: 0 <= p < k ==> PairInOrder(s, p)
        invariant forall p :: m <= p < size - 1 ==> PairInOrder(s, p)
        decreases m - k
      {
        Meet(k, m);
        var inOrder;
        inOrder, start, end := PairStep(start, end, k, m);
        if !inOrder {
          assert PairScanned(size, k) && PairScanned(size, m - 1);
          return false;
        }
        PairsInward(s, k, m);
        k, m := k + 1, m - 1;
      }
      Meet(k, m);
      b := true;
    }

    /** `is_sorted` with the comparison of the middle pair, which the loop
        leaves out when the cursors stop as neighbours. */
    method IsSortedCorrected() returns (b: bool)
      requires Valid()
      ensures b <==> Ascending(Contents())
    {
      if size < 2 {
        return true;
      }
      ghost var s := Contents();
      var start, end := head, tail;
      ghost var k, m := 0, size - 1;
      while start != end && start != arena[end].previous
        invariant k <= m < size
        invariant start == nodes[k] && end == nodes[m]
        invariant forall p :: 0 <= p < k ==> PairInOrder(s, p)
        invariant forall p :: m <= p < size - 1 ==> PairInOrder(s, p)
        decreases m - k
      {
        Meet(k, m);
        var inOrder;
        inOrder, start, end := PairStep(start, end, k, m);
        if !inOrder {
          return false;
        }
        PairsInward(s, k, m);
        k, m := k + 1, m - 1;
      }
      Meet(k, m);
      assert values[start] == s[k] && values[end] == s[m];
      b := start == end || values[start] <= values[end];
      assert k < m ==> (b <==> PairInOrder(s, k));
    }

    /** `sort_swap`: put the values of `start` and its successor in order;
        a null `start`, or one without a successor, is left alone. */
    method SortSwap(start: int, ghost p: nat)
      requires Valid() && p <= size && start == NodeAt(nodes, p)
      modifies this`values
      ensures Valid()
      ensures Contents() == SortPair(old(Contents()), p)
    {
      SameCursor(p, size);
      if start == Null {
        return;
      }
      Steps(p);
      SameCursor(p + 1, size);
      var after := arena[start].next;
      if after == Null {
        return;
      }
      ghost var s := Contents();
      var x, y := values[start], values[after];
      assert x == s[p] && y == s[p + 1];
      if x > y {
        SetValueAt(arena, values, nodes, head, tail, p, y);
        values := values[start := y];
        SetValueAt(arena, values, nodes, head, tail, p + 1, x);
        values := values[after := x];
      }
    }

    /** `node_between`: move two cursors towards each other until they meet
        or become neighbours; the first one is then at the midpoint. */
    method NodeBetween(start: int, end: int, ghost a: nat, ghost b: nat) returns (mid: int)
      requires Valid() && a <= b < size && start == nodes[a] && end == nodes[b]
      ensures mid == nodes[(a + b) / 2]
    {
      var i, j := start, end;
      ghost var k, m := a, b;
      Steps(k);
      SameCursor(k, m);
      SameCursor(k + 1, m);
      while i != j && arena[i].next != j
        invariant a <= k <= m <= b && k + m == a + b
        invariant i == nodes[k] && j == nodes[m]
        invariant arena[i].next == NodeAt(nodes, k + 1)
        invariant (i == j) == (k == m) && (arena[i].next == j) == (k + 1 == m)
        decreases m - k
      {
        Steps(m);
        i, j := arena[i].next, arena[j].previous;
        k, m := k + 1, m - 1;
        Steps(k);
        SameCursor(k, m);
        SameCursor(k + 1, m);
      }
      mid := i;
    }

    /** The gathering loop of `merge`: the values of the runs `a..m` and
        `m + 1..b`, merged. */
    method MergeRuns(start: int, mid: int, end: int, ghost a: nat, ghost m: nat, ghost b: nat)
      returns (result: seq<int>)
      requires Valid() && a <= m <= b < size
      requires start == nodes[a] && mid == nodes[m] && end == nodes[b]
      ensures result == MergeFrom(Contents(), a, m + 1, m + 1, b + 1)
    {
      result := MergeScan(arena, values, nodes, head, tail, start, mid, end, a, m, b);
    }

    /** One pass of the writing loop of `merge`: store `v` in the node `id`
        at position `p` and move on to the next node. */
    method WriteNode(id: int, v: int, ghost p: nat) returns (next: int)
      requires Valid() && p < size && id == nodes[p]
      modifies this`values
      ensures Valid()
      ensures Contents() == old(Contents())[p := v]
      ensures next == NodeAt(nodes, p + 1)
    {
      Steps(p);
      SetValueAt(arena, values, nodes, head, tail, p, v);
      values := values[id := v];
      next := arena[id].next;
    }

    /** The writing loop of `merge`: the values of `result`, one per node
        from `start` on. */
    method WriteBack(start: int, result: seq<int>, ghost a: nat)
      requires Valid() && a + |result| <= size && start == NodeAt(nodes, a)
      modifies this`values
      ensures Valid()
      ensures Contents() == old(Contents())[..a] + result + old(Contents())[a + |result|..]
    {
      ghost var s := Contents();
      var cur := start;
      for k := 0 to |result|
        invariant Valid()
        invariant cur == NodeAt(nodes, a + k)
        invariant Contents() == Written(s, result, a, k)
      {
        WrittenNext(s, result, a, k);
        cur := WriteNode(cur, result[k], a + k);
      }
      WrittenAll(s, result, a, |result|);
      assert result[..|result|] == result;
    }

    /** `merge`: merge the sorted runs `start..mid` and `mid.next..end` into
        the nodes of `start..end`; when `start` is `mid` it is `sort_swap`. */
    method Merge(start: int, mid: int, end: int, ghost a: nat, ghost m: nat, ghost b: nat)
      requires Valid() && a <= m <= b < size
      requires start == nodes[a] && mid == nodes[m] && end == nodes[b]
      modifies this`values
      ensures Valid()
      ensures Contents() == MergeInto(old(Contents()), a, m, b)
    {
      SameCursor(a, m);
      if start == mid {
        SortSwap(start, a);
        return;
      }
      var result := MergeRuns(start, mid, end, a, m, b);
      WriteBack(start, result, a);
    }

    /** `merge_sort` on the nodes at positions `a..b`: split at the node
        `node_between` finds, sort both halves and merge them; a range of one
        or two nodes is `sort_swap`ped at its first node. The range ends up
        sorted, with the same values; only the node after a one-node range
        may change besides. */
    method MergeSort(start: int, end: int, ghost a: nat, ghost b: nat)
      requires Valid() && a <= b < size && start == nodes[a] && end == nodes[b]
      modifies this`values
      ensures Valid()
      ensures SortedOn(Contents(), a, b + 1)
      ensures SameOutside(Contents(), old(Contents()), a, b + 2)
      ensures multiset(Contents()) == multiset(old(Contents()))
      decreases b - a
    {
      ghost var s0 := Contents();
      var mid := NodeBetween(start, end, a, b);
      ghost var m := (a + b) / 2;
      SameCursor(a, m);
      if start == mid {
        SortSwap(start, a);
        SortPairSortsRange(s0, a, b);
        SortPairPerm(s0, a);
        return;
      }
      MergeSort(start, mid, a, m);
      ghost var s1 := Contents();
      Steps(m);
      MergeSort(arena[mid].next, end, m + 1, b);
      ghost var s2 := Contents();
      Merge(start, mid, end, a, m, b);
      MergeSortLevel(s0, s1, s2, a, m, b);
      MergeIntoPerm(s2, a, m, b);
    }

    /** `operator=`: copy `other` (it is taken by value), then swap this list
        with the copy, which takes the old nodes away with it. */
    method Assign(other: DLL)
      requires Valid() && other.Valid()
      modifies this
      ensures Valid() && Contents() == old(other.Contents())
    {
      var copy := new DLL.Copy(other);
      Swap(this, copy);
    }

    /** `sort`: a list of fewer than two elements is left alone; otherwise
        `merge_sort` runs from `head` to `tail`. The values end up in
        ascending order, the same values as before, and no link changes. */
    method Sort()
      requires Valid()
      modifies this`values
      ensures Valid()
      ensures Ascending(Contents())
      ensures multiset(Contents()) == multiset(old(Contents()))
    {
      if size < 2 {
        AscendingIffSorted(Contents());
        return;
      }
      MergeSort(head, tail, 0, size - 1);
      AscendingIffSorted(Contents());
    }
  }

  /** `swap` of two lists: exchange their heads, tails and sizes. The nodes of
      a list live in its arena, so the arenas are exchanged as well. */
  method Swap(l1: DLL, l2: DLL)
    requires l1.Valid() && l2.Valid()
    modifies l1, l2
    ensures l1.Valid() && l2.Valid()
    ensures l1.Contents() == old(l2.Contents()) && l2.Contents() == old(l1.Contents())
  {
    var arena, values, head, tail, size := l1.arena, l1.values, l1.head, l1.tail, l1.size;
    ghost var nodes := l1.nodes;
    l1.arena, l1.values, l1.head, l1.tail, l1.size, l1.nodes := l2.arena, l2.values, l2.head, l2.tail, l2.size, l2.nodes;
    l2.arena, l2.values, l2.head, l2.tail, l2.size, l2.nodes := arena, values, head, tail, size, nodes;
  }
}
