/** The nodes of a path search over a navigation mesh, and the open list that orders them. */
module NavNode {

  type Ref = nat

  datatype Pos = Pos(x: real, y: real, z: real)

  /** `dtNode`. `pidx` is one more than the index of the parent in the pool, 0 for none; costs are counted in
      whole units. The flag word is 0 when neither flag is set. */
  datatype Node = Node(pos: Pos, cost: nat, total: nat, pidx: nat, state: nat, open: bool, closed: bool, id: Ref) {
    predicate Fresh() {
      !open && !closed
    }
  }

  // ---------------------------------------------------------------- binary heaps over a sequence of nodes

  function Parent(i: nat): nat {
    if i == 0 then 0 else (i - 1) / 2
  }

  predicate Within(h: seq<nat>, ns: seq<Node>) {
    forall i | 0 <= i < |h| :: h[i] < |ns|
  }

  /** Every entry is at least its parent. */
  predicate Ordered(h: seq<nat>, ns: seq<Node>) {
    && Within(h, ns)
    && (forall i | 0 < i < |h| :: ns[h[Parent(i)]].total <= ns[h[i]].total)
  }

  /** Ordered around a hole at `at`: entries not touching the hole are ordered, and the hole's parent is no
      more than the hole's children. */
  predicate OrderedAround(h: seq<nat>, ns: seq<Node>, at: nat) {
    && Within(h, ns)
    && (forall i | 0 < i < |h| && i != at && Parent(i) != at :: ns[h[Parent(i)]].total <= ns[h[i]].total)
    && (forall i | 0 < i < |h| && Parent(i) == at && 0 < at < |h| :: ns[h[Parent(at)]].total <= ns[h[i]].total)
  }

  /** The entry put into the hole is no more than the hole's children. */
  predicate FitsAbove(h: seq<nat>, ns: seq<Node>, at: nat, node: nat) {
    node < |ns| && forall i | 0 < i < |h| && Parent(i) == at && h[i] < |ns| :: ns[node].total <= ns[h[i]].total
  }

  /** In a heap the first entry is a least one. */
  lemma {:induction false} RootIsLeast(h: seq<nat>, ns: seq<Node>, i: nat)
    requires Ordered(h, ns) && i < |h|
    ensures ns[h[0]].total <= ns[h[i]].total
  {
    if i > 0 {
      RootIsLeast(h, ns, Parent(i));
    }
  }

  lemma SwapMultiset(h: seq<nat>, i: nat, j: nat, x: nat)
    requires i < |h| && j < |h| && i != j
    ensures multiset(h[i := h[j]][j := x]) == multiset(h[i := x])
  {
    var a, b := h[i := h[j]][j := x], h[i := x];
    assert multiset(a) == multiset(h) - multiset{h[i]} + multiset{h[j]} - multiset{h[j]} + multiset{x};
    assert multiset(b) == multiset(h) - multiset{h[i]} + multiset{x};
  }

  /** `node` has a total no greater than any other entry. */
  predicate IsLeast(node: nat, h: seq<nat>, ns: seq<Node>) {
    node < |ns| && forall i | i in h && i < |ns| :: ns[node].total <= ns[i].total
  }

  /** The heap is ordered but for `node`, whose total may have become smaller than its parent's. */
  ghost predicate Lowered(h: seq<nat>, ns: seq<Node>, node: nat) {
    forall k | 0 <= k < |h| && h[k] == node :: OrderedAround(h, ns, k) && FitsAbove(h, ns, k, node)
  }

  lemma HeapHeadIsLeast(h: seq<nat>, ns: seq<Node>)
    requires h != [] && Ordered(h, ns)
    ensures IsLeast(h[0], h, ns)
  {
    forall i | i in h ensures i < |ns| && ns[h[0]].total <= ns[i].total {
      var k :| 0 <= k < |h| && h[k] == i;
      RootIsLeast(h, ns, k);
    }
  }

  /** Taking the last entry off a heap. */
  lemma PopSplit(h: seq<nat>, ns: seq<Node>)
    requires h != [] && Ordered(h, ns)
    ensures var n := |h| - 1;
            && h[n] < |ns| && h == h[..n] + [h[n]]
            && Ordered(h[..n], ns)
            && (n > 0 ==> OrderedAround(h[..n], ns, 0)
                          && multiset(h) == multiset(h[..n][0 := h[n]]) + multiset{h[0]})
            && (n == 0 ==> multiset(h) == multiset(h[..n]) + multiset{h[0]})
  {
    var n := |h| - 1;
    assert h == h[..n] + [h[n]];
    if n > 0 {
      assert multiset(h) == multiset(h[..n]) + multiset{h[n]};
      assert multiset(h[..n][0 := h[n]]) == multiset(h[..n]) - multiset{h[0]} + multiset{h[n]};
    }
  }

  /** A new last entry is a hole without children. */
  lemma PushOpens(h: seq<nat>, ns: seq<Node>, node: nat)
    requires Ordered(h, ns) && node < |ns|
    ensures OrderedAround(h + [node], ns, |h|) && FitsAbove(h + [node], ns, |h|, node)
  {
    var g := h + [node];
    forall i | 0 < i < |g| ensures Parent(i) != |h| {
    }
  }

  lemma HoleBounds(h: seq<nat>, ns: seq<Node>, i: nat, node: nat)
    requires OrderedAround(h, ns, i) && FitsAbove(h, ns, i, node)
    ensures node < |ns| && forall k | 0 <= k < |h| :: h[k] < |ns|
  {
  }

  lemma HoleFilled(h: seq<nat>, ns: seq<Node>, i: nat, node: nat)
    requires i < |h| && OrderedAround(h, ns, i) && FitsAbove(h, ns, i, node)
    requires i == 0 || ns[h[Parent(i)]].total <= ns[node].total
    ensures Ordered(h[i := node], ns)
  {
    var g := h[i := node];
    forall j | 0 < j < |g| ensures ns[g[Parent(j)]].total <= ns[g[j]].total {
    }
  }

  lemma InPool(h: seq<nat>, ns: seq<Node>, at: nat, k: nat)
    requires OrderedAround(h, ns, at) && k < |h|
    ensures h[k] < |ns|
  {
  }

  /** `child` is a child of `i`, with the least total. */
  predicate IsSmallerChild(h: seq<nat>, ns: seq<Node>, i: nat, child: nat) {
    && 0 < child < |h| && Parent(child) == i
    && forall j | 0 < j < |h| && Parent(j) == i && h[child] < |ns| && h[j] < |ns| ::
         ns[h[child]].total <= ns[h[j]].total
  }

  lemma ChildIsSmaller(h: seq<nat>, ns: seq<Node>, i: nat, child: nat)
    requires OrderedAround(h, ns, i) && (child == 2 * i + 1 || child == 2 * i + 2) && child < |h|
    requires child == 2 * i + 1 ==> child + 1 >= |h| || ns[h[child]].total <= ns[h[child + 1]].total
    requires child == 2 * i + 2 ==> ns[h[child]].total <= ns[h[child - 1]].total
    ensures IsSmallerChild(h, ns, i, child)
  {
    forall j | 0 < j < |h| && Parent(j) == i ensures j == 2 * i + 1 || j == 2 * i + 2 {
    }
  }

  lemma NoChildren(h: seq<nat>, ns: seq<Node>, i: nat, node: nat)
    requires OrderedAround(h, ns, i) && 2 * i + 1 >= |h| && node < |ns|
    ensures FitsAbove(h, ns, i, node)
  {
    forall j | 0 < j < |h| ensures Parent(j) != i {
    }
  }

  /** Moving the hole up one level. */
  lemma HoleUp(h: seq<nat>, ns: seq<Node>, i: nat, node: nat)
    requires 0 < i < |h| && OrderedAround(h, ns, i) && FitsAbove(h, ns, i, node)
    requires ns[h[Parent(i)]].total > ns[node].total
    ensures var g := h[i := h[Parent(i)]]; OrderedAround(g, ns, Parent(i)) && FitsAbove(g, ns, Parent(i), node)
  {
    var p, g := Parent(i), h[i := h[Parent(i)]];
    forall j | 0 < j < |g| && Parent(j) == p
      ensures ns[node].total <= ns[g[j]].total && (p > 0 ==> ns[g[Parent(p)]].total <= ns[g[j]].total)
    {
      if p > 0 {
        assert ns[h[Parent(p)]].total <= ns[h[p]].total;
      }
      if j != i {
        assert ns[h[p]].total <= ns[h[j]].total;
      }
    }
  }

  /** Moving the hole down to the smaller child. */
  lemma HoleDown(h: seq<nat>, ns: seq<Node>, i: nat, child: nat)
    requires i < |h| && OrderedAround(h, ns, i) && IsSmallerChild(h, ns, i, child)
    ensures OrderedAround(h[i := h[child]], ns, child)
  {
    var g := h[i := h[child]];
    forall j | 0 < j < |g| && j != child && Parent(j) != child
      ensures ns[g[Parent(j)]].total <= ns[g[j]].total
    {
      if j == i {
        assert ns[h[Parent(i)]].total <= ns[h[child]].total;
      }
    }
    forall j | 0 < j < |g| && Parent(j) == child
      ensures ns[g[Parent(child)]].total <= ns[g[j]].total
    {
      assert ns[h[child]].total <= ns[h[j]].total;
    }
  }

  /** The same, with the entry that is to be put into the hole. */
  lemma HoleSinks(h: seq<nat>, ns: seq<Node>, i: nat, child: nat, node: nat)
    requires i < child < |h| && OrderedAround(h, ns, i) && IsSmallerChild(h, ns, i, child)
    ensures OrderedAround(h[i := h[child]], ns, child)
    ensures multiset(h[i := h[child]][child := node]) == multiset(h[i := node])
  {
    HoleDown(h, ns, i, child);
    hide OrderedAround, IsSmallerChild;
    SwapMultiset(h, i, child, node);
  }

  /** `dtNodeQueue`: pointers to nodes are indices into the pool's array. */
  class NodeQueue {
    const heap: array<nat>
    const capacity: nat
    var size: nat

    predicate Shape()
      reads this
    {
      heap.Length == capacity + 1 && size <= capacity
    }

    constructor (n: nat)
      requires n > 0
      ensures Shape() && size == 0 && capacity == n && fresh(heap)
    {
      heap := new nat[n + 1];
      capacity := n;
      size := 0;
    }

    function Items(): seq<nat>
      requires size <= heap.Length
      reads this, heap
    {
      heap[..size]
    }

    method Clear()
      requires Shape()
      modifies `size
      ensures Shape() && Items() == []
    {
      size := 0;
    }

    /** `bubbleUp`: puts `node` into the hole at `at`, or higher. */
    method BubbleUp(nodes: array<Node>, at: nat, node: nat)
      requires at < size <= heap.Length
      requires OrderedAround(heap[..size], nodes[..], at) && FitsAbove(heap[..size], nodes[..], at, node)
      modifies heap
      ensures Ordered(heap[..size], nodes[..])
      ensures multiset(heap[..size]) == multiset(old(heap[..size])[at := node])
    {
      hide OrderedAround, FitsAbove, Ordered, Within;
      ghost var h, ns := heap[..size], nodes[..];
      ghost var goal := multiset(h[at := node]);
      var i := at;
      HoleBounds(h, ns, i, node);
      while i > 0 && nodes[heap[Parent(i)]].total > nodes[node].total
        invariant i < size && node < nodes.Length && h == heap[..size]
        invariant OrderedAround(h, ns, i) && FitsAbove(h, ns, i, node)
        invariant forall k | 0 <= k < size :: h[k] < |ns|
        invariant multiset(h[i := node]) == goal
      {
        var parent := Parent(i);
        HoleUp(h, ns, i, node);
        SwapMultiset(h, i, parent, node);
        heap[i] := heap[parent];
        h := h[i := h[parent]];
        HoleBounds(h, ns, parent, node);
        i := parent;
      }
      HoleFilled(h, ns, i, node);
      heap[i] := node;
      assert heap[..size] == h[i := node];
    }

    /** The child of `at` with the smaller total; `child` is the left one. */
    method SmallerChild(nodes: array<Node>, at: nat, child: nat) returns (smaller: nat)
      requires child == at * 2 + 1 < size <= heap.Length
      requires OrderedAround(heap[..size], nodes[..], at)
      ensures at < smaller < size && IsSmallerChild(heap[..size], nodes[..], at, smaller)
    {
      hide OrderedAround, IsSmallerChild;
      ghost var h, ns := heap[..size], nodes[..];
      InPool(h, ns, at, child);
      smaller := child;
      if child + 1 < size {
        InPool(h, ns, at, child + 1);
        if nodes[heap[child]].total > nodes[heap[child + 1]].total {
          smaller := child + 1;
        }
      }
      ChildIsSmaller(h, ns, at, smaller);
    }

    /** `trickleDown`: moves the hole at `at` to the bottom along the smaller children, then lets `node`
        rise from there. */
    method TrickleDown(nodes: array<Node>, at: nat, node: nat)
      requires at < size <= heap.Length && node < nodes.Length
      requires OrderedAround(heap[..size], nodes[..], at)
      modifies heap
      ensures Ordered(heap[..size], nodes[..])
      ensures multiset(heap[..size]) == multiset(old(heap[..size])[at := node])
    {
      hide OrderedAround, Ordered, Within, FitsAbove, IsSmallerChild;
      ghost var h, ns := heap[..size], nodes[..];
      ghost var goal := multiset(h[at := node]);
      var i := at;
      var child := i * 2 + 1;
      while child < size
        invariant i < size && child == i * 2 + 1 && h == heap[..size]
        invariant OrderedAround(h, ns, i) && multiset(h[i := node]) == goal
        decreases size - i
      {
        child := SmallerChild(nodes, i, child);
        HoleSinks(h, ns, i, child, node);
        heap[i] := heap[child];
        h := h[i := h[child]];
        i := child;
        child := i * 2 + 1;
      }
      NoChildren(h, ns, i, node);
      BubbleUp(nodes, i, node);
    }

    /** `push`. */
    method Push(nodes: array<Node>, node: nat)
      requires Shape() && size < capacity && node < nodes.Length
      requires Ordered(Items(), nodes[..])
      modifies heap, `size
      ensures Shape() && size == old(size) + 1
      ensures Ordered(Items(), nodes[..])
      ensures multiset(Items()) == multiset(old(Items())) + multiset{node}
    {
      hide OrderedAround, FitsAbove, Ordered, Within;
      heap[size] := node;
      size := size + 1;
      assert heap[..size] == old(Items()) + [node];
      assert heap[..size][size - 1 := node] == heap[..size];
      PushOpens(old(Items()), nodes[..], node);
      BubbleUp(nodes, size - 1, node);
    }

    /** `pop`: removes and returns a node of least total. */
    method Pop(nodes: array<Node>) returns (node: nat)
      requires Shape() && size > 0
      requires Ordered(Items(), nodes[..])
      modifies heap, `size
      ensures Shape() && size == old(size) - 1
      ensures Ordered(Items(), nodes[..])
      ensures multiset(old(Items())) == multiset(Items()) + multiset{node}
      ensures IsLeast(node, old(Items()), nodes[..])
    {
      hide OrderedAround, Ordered, Within, IsLeast;
      ghost var h, ns := Items(), nodes[..];
      HeapHeadIsLeast(h, ns);
      node := heap[0];
      size := size - 1;
      var last := heap[size];
      PopSplit(h, ns);
      ghost var front := h[..size];
      assert heap[..size] == front;
      if size > 0 {
        TrickleDown(nodes, 0, last);
        assert multiset(Items()) == multiset(front[0 := last]);
      } else {
        heap[0] := last;
        assert Items() == front;
      }
    }

    /** `modify`: restores the order after the total of `node` went down in place. */
    method Modify(nodes: array<Node>, node: nat)
      requires Shape() && Lowered(Items(), nodes[..], node)
      modifies heap
      ensures node in old(Items()) ==> Ordered(Items(), nodes[..])
      ensures node !in old(Items()) ==> Items() == old(Items())
      ensures multiset(Items()) == multiset(old(Items()))
    {
      hide OrderedAround, FitsAbove, Ordered, Within;
      ghost var h := Items();
      for i := 0 to size
        invariant Items() == h && size == |h|
        invariant node !in h[..i]
      {
        if heap[i] == node {
          assert h[i] == node && h[i := node] == h;
          BubbleUp(nodes, i, node);
          return;
        }
        assert h[..i + 1] == h[..i] + [h[i]];
      }
      assert h[..size] == h;
    }
  }
}
