/** `dtNavMeshQuery::findPath`: best-first search in which closed nodes are opened again and get new parents. */
module NavFindPath {
  import opened NavNode

  /** A link of a polygon; `side` is 0xff inside a tile. */
  datatype Link = Link(ref: Ref, side: nat)

  /** The mesh, the query filter and the geometry, as functions of what the search passes to them. Costs and
      distances are counted in whole units. */
  datatype World = World(
    valid: Ref -> bool,
    links: Ref -> seq<Link>,
    passes: Ref -> bool,
    mid: (Ref, Ref) -> Pos,
    step: (Pos, Pos, Ref, Ref, Ref) -> nat,
    dist: (Pos, Pos) -> nat)

  /** What is asked: the world and the two ends. */
  datatype Quest = Quest(w: World, start: Ref, end: Ref, endPos: Pos)

  /** The nodes of a search: the pool, the time at which each node got its cost, how many there are, and the next
      time. */
  datatype Forest = Forest(ns: seq<Node>, at: seq<nat>, count: nat, now: nat)

  datatype Status = Status(success: bool, partial: bool, outOfNodes: bool, bufferTooSmall: bool)

  const FAILURE := Status(false, false, false, false)
  const SUCCESS := Status(true, false, false, false)

  // ---------------------------------------------------------------- walks over the mesh

  /** `to` is joined to `from` by a link, and may be entered. */
  ghost predicate Edge(w: World, from: Ref, to: Ref) {
    to != 0 && w.passes(to) && exists k | 0 <= k < |w.links(from)| :: w.links(from)[k].ref == to
  }

  ghost predicate Walk(w: World, p: seq<Ref>) {
    p != [] && forall i | 0 < i < |p| :: Edge(w, p[i - 1], p[i])
  }

  ghost predicate Reachable(w: World, from: Ref, to: Ref) {
    exists p: seq<Ref> :: Walk(w, p) && p[0] == from && p[|p| - 1] == to
  }

  // ---------------------------------------------------------------- the parent tree

  /** The order that parents precede their children in: cost first, and between equal costs the time the
      cost was assigned. */
  predicate Precedes(ns: seq<Node>, at: seq<nat>, p: nat, i: nat)
    requires p < |ns| && i < |ns| && |at| == |ns|
  {
    ns[p].cost < ns[i].cost || (ns[p].cost == ns[i].cost && at[p] < at[i])
  }

  /** What is left to go: fixed once a node has a position, and nothing at the goal. */
  function Heuristic(w: World, end: Ref, endPos: Pos, n: Node): nat {
    if n.id == end then 0 else w.dist(n.pos, endPos)
  }

  /** Node `i` has a parent that precedes it, joined to it by a link. */
  ghost predicate ChildOk(w: World, ns: seq<Node>, at: seq<nat>, count: nat, i: nat)
    requires i < count <= |ns| == |at|
  {
    && 0 < ns[i].pidx <= count
    && Precedes(ns, at, ns[i].pidx - 1, i)
    && Edge(w, ns[ns[i].pidx - 1].id, ns[i].id)
  }

  /** The parent pointers form a tree rooted at node 0, the start: every chain of parents descends strictly.
      `at` gives the time of each node's last update, all before `now`. */
  ghost predicate TreeOk(q: Quest, f: Forest) {
    && 0 < f.count <= |f.ns| == |f.at| && q.start != q.end
    && f.ns[0].id == q.start && f.ns[0].pidx == 0 && f.ns[0].cost == 0
    && (forall i | 0 <= i < f.count :: !f.ns[i].Fresh() && !(f.ns[i].open && f.ns[i].closed) && f.at[i] < f.now)
    && (forall i | 0 <= i < f.count :: f.ns[i].total == f.ns[i].cost + Heuristic(q.w, q.end, q.endPos, f.ns[i]))
    && (forall i | 0 < i < f.count :: ChildOk(q.w, f.ns, f.at, f.count, i))
  }

  /** The nodes from `i` up to the root, by parent pointers. */
  ghost function Chain(q: Quest, f: Forest, i: nat): (c: seq<nat>)
    requires TreeOk(q, f) && i < f.count
    ensures c != [] && forall k | 0 <= k < |c| :: c[k] < f.count
    decreases f.ns[i].cost, f.at[i]
  {
    if i == 0 then [0]
    else
      assert ChildOk(q.w, f.ns, f.at, f.count, i);
      [i] + Chain(q, f, f.ns[i].pidx - 1)
  }

  /** A list of distinct nodes from `i` to the root, each followed by its parent. */
  ghost predicate IsChain(ns: seq<Node>, count: nat, c: seq<nat>, i: nat)
    requires count <= |ns|
  {
    && c != [] && c[0] == i && c[|c| - 1] == 0
    && (forall k | 0 <= k < |c| :: c[k] < count)
    && (forall k | 0 <= k < |c| - 1 :: c[k] > 0 && ns[c[k]].pidx == c[k + 1] + 1)
    && (forall j, k | 0 <= j < k < |c| :: c[j] != c[k])
  }

  /** Everything above a node precedes it. */
  lemma {:induction false} AncestorsPrecede(q: Quest, f: Forest, i: nat)
    requires TreeOk(q, f) && i < f.count
    ensures var c := Chain(q, f, i);
            c[0] == i && forall k | 0 < k < |c| :: Precedes(f.ns, f.at, c[k], i)
    decreases f.ns[i].cost, f.at[i]
  {
    if i > 0 {
      assert ChildOk(q.w, f.ns, f.at, f.count, i);
      var p := f.ns[i].pidx - 1;
      var d := Chain(q, f, p);
      AncestorsPrecede(q, f, p);
      var c := [i] + d;
      forall k | 0 < k < |c| ensures Precedes(f.ns, f.at, c[k], i) {
        assert c[k] == d[k - 1];
      }
    }
  }

  lemma LongerChain(ns: seq<Node>, count: nat, d: seq<nat>, i: nat)
    requires count <= |ns| && 0 < i < count && ns[i].pidx > 0 && IsChain(ns, count, d, ns[i].pidx - 1)
    requires forall k | 0 <= k < |d| :: d[k] != i
    ensures IsChain(ns, count, [i] + d, i)
  {
    var c := [i] + d;
    assert forall k | 0 < k < |c| :: c[k] == d[k - 1];
  }

  /** Following parents reaches the root without meeting a node twice. */
  lemma {:induction false} ChainShape(q: Quest, f: Forest, i: nat)
    requires TreeOk(q, f) && i < f.count
    ensures IsChain(f.ns, f.count, Chain(q, f, i), i)
    decreases f.ns[i].cost, f.at[i]
  {
    if i > 0 {
      assert ChildOk(q.w, f.ns, f.at, f.count, i);
      var p := f.ns[i].pidx - 1;
      var d := Chain(q, f, p);
      AncestorsPrecede(q, f, i);
      ChainShape(q, f, p);
      forall k | 0 <= k < |d| ensures d[k] != i {
        assert Precedes(f.ns, f.at, ([i] + d)[k + 1], i);
      }
      LongerChain(f.ns, f.count, d, i);
    }
  }

  /** Ids along a chain, from the root to the node. */
  ghost function PathIds(ns: seq<Node>, c: seq<nat>): (p: seq<Ref>)
    requires forall k | 0 <= k < |c| :: c[k] < |ns|
    ensures |p| == |c| && forall k | 0 <= k < |c| :: p[k] == ns[c[|c| - 1 - k]].id
  {
    seq(|c|, k requires 0 <= k < |c| => ns[c[|c| - 1 - k]].id)
  }

  /** The path a chain stands for is a walk from the start to the node. */
  lemma ChainIsWalk(q: Quest, f: Forest, i: nat)
    requires TreeOk(q, f) && i < f.count
    ensures var p := PathIds(f.ns, Chain(q, f, i));
            Walk(q.w, p) && p[0] == q.start && p[|p| - 1] == f.ns[i].id
  {
    var c := Chain(q, f, i);
    ChainShape(q, f, i);
    var p := PathIds(f.ns, c);
    forall k | 0 < k < |p| ensures Edge(q.w, p[k - 1], p[k]) {
      var j := |c| - 1 - k;
      assert ChildOk(q.w, f.ns, f.at, f.count, c[j]);
    }
  }

  // ---------------------------------------------------------------- one improvement of a node

  /** Node `n` reached from `best` at a better cost. */
  function Relaxed(ns: seq<Node>, n: nat, best: nat, pos: Pos, cost: nat, total: nat): seq<Node>
    requires n < |ns|
  {
    ns[n := ns[n].(pos := pos, cost := cost, total := total, pidx := best + 1, open := true, closed := false)]
  }

  /** Re-parenting a node that was visited before keeps the tree: a better total means a smaller cost than
      before, so neither the start nor an ancestor of `best` can be the node. */
  lemma RelaxKeepsTree(q: Quest, f: Forest, best: nat, n: nat, cost: nat, total: nat)
    requires TreeOk(q, f) && best < f.count && n < f.count
    requires Edge(q.w, f.ns[best].id, f.ns[n].id)
    requires cost >= f.ns[best].cost && total == cost + Heuristic(q.w, q.end, q.endPos, f.ns[n])
             && total < f.ns[n].total
    ensures n != 0 && n != best
    ensures TreeOk(q, Forest(Relaxed(f.ns, n, best, f.ns[n].pos, cost, total), f.at[n := f.now], f.count, f.now + 1))
  {
    var ms, bt := Relaxed(f.ns, n, best, f.ns[n].pos, cost, total), f.at[n := f.now];
    assert cost < f.ns[n].cost;
    forall i | 0 < i < f.count ensures ChildOk(q.w, ms, bt, f.count, i) {
      assert ChildOk(q.w, f.ns, f.at, f.count, i);
    }
  }

  /** A node visited for the first time hangs below `best`; it is nobody's parent yet. */
  lemma FirstVisitKeepsTree(q: Quest, f: Forest, best: nat, n: Node, pos: Pos, cost: nat, total: nat)
    requires TreeOk(q, f) && best < f.count < |f.ns|
    requires Edge(q.w, f.ns[best].id, n.id)
    requires cost >= f.ns[best].cost && total == cost + Heuristic(q.w, q.end, q.endPos, n.(pos := pos))
    ensures TreeOk(q, Forest(Relaxed(f.ns[f.count := n], f.count, best, pos, cost, total), f.at[f.count := f.now],
                             f.count + 1, f.now + 1))
  {
    var ms, bt := Relaxed(f.ns[f.count := n], f.count, best, pos, cost, total), f.at[f.count := f.now];
    var more := f.count + 1;
    forall i | 0 < i < more ensures ChildOk(q.w, ms, bt, more, i) {
      if i < f.count {
        assert ChildOk(q.w, f.ns, f.at, f.count, i);
      }
    }
  }

  // ---------------------------------------------------------------- the open list

  /** A node is open exactly when it is in the heap, and then once. */
  ghost predicate OpenOk(h: seq<nat>, ns: seq<Node>, count: nat) {
    && count <= |ns| && Ordered(h, ns)
    && (forall i | i in h :: i < count)
    && (forall i | 0 <= i < count :: multiset(h)[i] == if ns[i].open then 1 else 0)
  }

  lemma {:induction false} CountBound(m: multiset<nat>, n: nat)
    requires forall i | i in m :: i < n && m[i] <= 1
    ensures |m| <= n
  {
    if n > 0 {
      var m1 := m[n - 1 := 0];
      assert m == m1 + multiset{n - 1} || m == m1;
      CountBound(m1, n - 1);
    } else {
      assert m == multiset{};
    }
  }

  lemma TwiceIn(h: seq<nat>, j: nat, k: nat)
    requires j < k < |h|
    ensures h[j] == h[k] ==> multiset(h)[h[j]] >= 2
  {
    assert h == h[..k] + [h[k]] + h[k + 1..];
    assert multiset(h) == multiset(h[..k]) + multiset([h[k]]) + multiset(h[k + 1..]);
    assert h[..k][j] == h[j];
    assert multiset(h[..k])[h[j]] >= 1;
  }

  /** Never more open nodes than nodes. */
  lemma OpenFits(h: seq<nat>, ns: seq<Node>, count: nat)
    requires OpenOk(h, ns, count)
    ensures |h| <= count
    ensures forall i | 0 <= i < count && !ns[i].open :: |h| < count && i !in h
    ensures forall j, k | 0 <= j < k < |h| :: h[j] != h[k]
  {
    forall i | i in multiset(h) ensures i < count && multiset(h)[i] <= 1 {
      assert i in h;
    }
    CountBound(multiset(h), count);
    forall i | 0 <= i < count && !ns[i].open ensures |h| < count && i !in h {
      var m: multiset<nat> := multiset(h)[i := 1];
      assert multiset(h)[i] == 0;
      forall j | j in m ensures j < count && m[j] <= 1 {
        assert j in h || j == i;
      }
      CountBound(m, count);
      assert |m| == |h| + 1;
    }
    forall j, k | 0 <= j < k < |h| ensures h[j] != h[k] {
      TwiceIn(h, j, k);
      assert h[j] in h;
    }
  }

  /** Lowering the total of an open node disturbs the heap only around that node. */
  lemma LowerDisturbs(h: seq<nat>, ns: seq<Node>, ms: seq<Node>, n: nat)
    requires Ordered(h, ns) && n < |ns| && |ms| == |ns| && ms[n].total <= ns[n].total
    requires forall i | 0 <= i < |ns| && i != n :: ms[i].total == ns[i].total
    requires forall j, k | 0 <= j < k < |h| :: h[j] != h[k]
    ensures Lowered(h, ms, n)
    ensures n !in h ==> Ordered(h, ms)
  {
    forall k | 0 <= k < |h| && h[k] == n ensures OrderedAround(h, ms, k) && FitsAbove(h, ms, k, n) {
      forall i | 0 < i < |h| && Parent(i) == k && 0 < k < |h| ensures ms[h[Parent(k)]].total <= ms[h[i]].total {
        assert ns[h[Parent(k)]].total <= ns[h[k]].total <= ns[h[i]].total;
      }
    }
  }

  // ---------------------------------------------------------------- what has been explored

  function Least(a: nat, b: nat): nat {
    if a <= b then a else b
  }

  ghost predicate HasNode(ns: seq<Node>, count: nat, ref: Ref)
    requires count <= |ns|
  {
    exists j | 0 <= j < count :: ns[j].id == ref
  }

  ghost predicate LinkHandled(w: World, ns: seq<Node>, count: nat, ref: Ref)
    requires count <= |ns|
  {
    ref != 0 && w.passes(ref) ==> HasNode(ns, count, ref)
  }

  /** Every polygon that can be entered from `ref` has a node. */
  ghost predicate Handled(w: World, ns: seq<Node>, count: nat, ref: Ref, upTo: nat)
    requires count <= |ns|
  {
    forall k | 0 <= k < Least(upTo, |w.links(ref)|) :: LinkHandled(w, ns, count, w.links(ref)[k].ref)
  }

  /** Closed nodes other than `except` are not the goal, and have had all their links followed. */
  ghost predicate ExploredOk(w: World, end: Ref, ns: seq<Node>, count: nat, except: nat)
    requires count <= |ns|
  {
    forall i | 0 <= i < count && i != except && ns[i].closed ::
      ns[i].id != end && Handled(w, ns, count, ns[i].id, |w.links(ns[i].id)|)
  }

  ghost predicate SameIds(ns: seq<Node>, ms: seq<Node>, count: nat)
    requires count <= |ns| && count <= |ms|
  {
    forall i | 0 <= i < count :: ms[i].id == ns[i].id && ms[i].state == ns[i].state
  }

  lemma HandledStays(w: World, ns: seq<Node>, count: nat, ms: seq<Node>, more: nat, ref: Ref, upTo: nat)
    requires count <= |ns| && count <= more <= |ms| && SameIds(ns, ms, count)
    requires Handled(w, ns, count, ref, upTo)
    ensures Handled(w, ms, more, ref, upTo)
  {
    forall k | 0 <= k < Least(upTo, |w.links(ref)|) ensures LinkHandled(w, ms, more, w.links(ref)[k].ref) {
      var r := w.links(ref)[k].ref;
      assert LinkHandled(w, ns, count, r);
      if r != 0 && w.passes(r) {
        var j :| 0 <= j < count && ns[j].id == r;
        assert ms[j].id == r;
      }
    }
  }

  /** With nothing left open, the polygons that have nodes are closed under links, so a goal without a node
      cannot be reached. */
  lemma {:induction false} ExhaustedWalk(w: World, end: Ref, ns: seq<Node>, count: nat, p: seq<Ref>)
    requires 0 < count <= |ns| && ExploredOk(w, end, ns, count, count)
    requires forall i | 0 <= i < count :: ns[i].closed
    requires Walk(w, p) && exists i | 0 <= i < count :: ns[i].id == p[0]
    ensures p[|p| - 1] != end
    decreases |p|
  {
    var i :| 0 <= i < count && ns[i].id == p[0];
    if |p| > 1 {
      assert Edge(w, p[0], p[1]);
      var k :| 0 <= k < |w.links(p[0])| && w.links(p[0])[k].ref == p[1];
      assert LinkHandled(w, ns, count, w.links(p[0])[k].ref);
      var q := p[1..];
      forall j | 0 < j < |q| ensures Edge(w, q[j - 1], q[j]) {
        assert Edge(w, p[j], p[j + 1]);
      }
      ExhaustedWalk(w, end, ns, count, q);
    }
  }

  /** With nothing left open, every polygon that can be reached has a node. */
  lemma {:induction false} ReachedHasNode(w: World, end: Ref, ns: seq<Node>, count: nat, p: seq<Ref>)
    requires 0 < count <= |ns| && ExploredOk(w, end, ns, count, count)
    requires forall i | 0 <= i < count :: ns[i].closed
    requires Walk(w, p) && HasNode(ns, count, p[0])
    ensures HasNode(ns, count, p[|p| - 1])
    decreases |p|
  {
    if |p| > 1 {
      var n := |p| - 1;
      forall j | 0 < j < n ensures Edge(w, p[..n][j - 1], p[..n][j]) {
        assert Edge(w, p[j - 1], p[j]);
      }
      ReachedHasNode(w, end, ns, count, p[..n]);
      var i :| 0 <= i < count && ns[i].id == p[n - 1];
      assert Edge(w, p[n - 1], p[n]);
      var k :| 0 <= k < |w.links(p[n - 1])| && w.links(p[n - 1])[k].ref == p[n];
      assert LinkHandled(w, ns, count, w.links(p[n - 1])[k].ref);
    }
  }

  lemma Exhausted(w: World, start: Ref, end: Ref, ns: seq<Node>, count: nat)
    requires 0 < count <= |ns| && ExploredOk(w, end, ns, count, count) && ns[0].id == start
    requires forall i | 0 <= i < count :: ns[i].closed
    ensures !Reachable(w, start, end)
  {
    forall p: seq<Ref> | Walk(w, p) && p[0] == start ensures p[|p| - 1] != end {
      ExhaustedWalk(w, end, ns, count, p);
    }
  }

  // ---------------------------------------------------------------- termination

  function SumTotals(ns: seq<Node>, count: nat): nat
    requires count <= |ns|
  {
    if count == 0 then 0 else SumTotals(ns, count - 1) + ns[count - 1].total
  }

  lemma {:induction false} SumSame(ns: seq<Node>, ms: seq<Node>, count: nat)
    requires count <= |ns| && count <= |ms| && forall i | 0 <= i < count :: ms[i].total == ns[i].total
    ensures SumTotals(ms, count) == SumTotals(ns, count)
  {
    if count > 0 {
      SumSame(ns, ms, count - 1);
    }
  }

  lemma {:induction false} SumUpdate(ns: seq<Node>, count: nat, n: nat, x: Node)
    requires n < count <= |ns|
    ensures SumTotals(ns[n := x], count) == SumTotals(ns, count) - ns[n].total + x.total
  {
    if n < count - 1 {
      SumUpdate(ns, count - 1, n, x);
    } else {
      SumSame(ns, ns[n := x], count - 1);
    }
  }

  // ---------------------------------------------------------------- the search as a whole

  /** What holds between any two links the search follows. `except` is the node being expanded. */
  ghost predicate SearchOk(q: Quest, f: Forest, h: seq<nat>, lost: bool, except: nat) {
    && TreeOk(q, f)
    && OpenOk(h, f.ns, f.count)
    && (forall i | 0 <= i < f.count :: f.ns[i].open || f.ns[i].closed)
    && (!lost ==> ExploredOk(q.w, q.end, f.ns, f.count, except))
  }

  /** A strict step forward: a new node, or a smaller sum of totals. */
  ghost predicate Forward(ns: seq<Node>, count: nat, ms: seq<Node>, more: nat)
    requires count <= |ns| && more <= |ms|
  {
    more > count || (more == count && SumTotals(ms, more) < SumTotals(ns, count))
  }

  lemma TreeSize(q: Quest, f: Forest)
    requires TreeOk(q, f)
    ensures 0 < f.count <= |f.ns| == |f.at|
  {
  }

  lemma KnownHeap(h: seq<nat>, ns: seq<Node>, count: nat, ms: seq<Node>, n: nat)
    requires OpenOk(h, ns, count) && n < count && |ms| == |ns| && ms[n].total <= ns[n].total
    requires forall i | 0 <= i < |ns| && i != n :: ms[i].total == ns[i].total
    ensures ns[n].open ==> Lowered(h, ms, n) && n in h
    ensures !ns[n].open ==> Ordered(h, ms) && |h| < count
  {
    OpenFits(h, ns, count);
    LowerDisturbs(h, ns, ms, n);
    hide Ordered, Lowered;
    if ns[n].open {
      assert multiset(h)[n] == 1;
    }
  }

  lemma ExploredStays(w: World, end: Ref, ns: seq<Node>, count: nat, ms: seq<Node>, more: nat, except: nat)
    requires count <= |ns| && count <= more <= |ms| && SameIds(ns, ms, count)
    requires ExploredOk(w, end, ns, count, except)
    requires forall i | 0 <= i < more && i != except && ms[i].closed :: i < count && ns[i].closed
    ensures ExploredOk(w, end, ms, more, except)
  {
    forall i | 0 <= i < more && i != except && ms[i].closed
      ensures ms[i].id != end && Handled(w, ms, more, ms[i].id, |w.links(ms[i].id)|)
    {
      HandledStays(w, ns, count, ms, more, ns[i].id, |w.links(ns[i].id)|);
    }
  }

  /** A node met before, improved. */
  lemma KnownNode(q: Quest, f: Forest, h: seq<nat>, lost: bool, best: nat, n: nat, cost: nat, total: nat)
    requires SearchOk(q, f, h, lost, best) && best < f.count && n < f.count
    requires Edge(q.w, f.ns[best].id, f.ns[n].id)
    requires cost >= f.ns[best].cost && total == cost + Heuristic(q.w, q.end, q.endPos, f.ns[n])
             && total < f.ns[n].total
    ensures var ms := Relaxed(f.ns, n, best, f.ns[n].pos, cost, total);
            && TreeOk(q, Forest(ms, f.at[n := f.now], f.count, f.now + 1))
            && Forward(f.ns, f.count, ms, f.count) && SameIds(f.ns, ms, f.count) && n != best
            && (!lost ==> ExploredOk(q.w, q.end, ms, f.count, best))
            && (f.ns[n].open ==> Lowered(h, ms, n) && n in h)
            && (!f.ns[n].open ==> Ordered(h, ms) && |h| < f.count)
  {
    hide TreeOk, OpenOk, Lowered, Ordered, Edge, ExploredOk, SumTotals;
    TreeSize(q, f);
    var ms := Relaxed(f.ns, n, best, f.ns[n].pos, cost, total);
    RelaxKeepsTree(q, f, best, n, cost, total);
    SumUpdate(f.ns, f.count, n, ms[n]);
    KnownHeap(h, f.ns, f.count, ms, n);
    if !lost {
      ExploredStays(q.w, q.end, f.ns, f.count, ms, f.count, best);
    }
  }

  /** A node met for the first time: `mid` is the pool with the fresh node. */
  lemma NewNode(q: Quest, f: Forest, h: seq<nat>, lost: bool, best: nat, mid: seq<Node>, cost: nat, total: nat)
    requires SearchOk(q, f, h, lost, best) && best < f.count < |f.ns| == |mid|
    requires mid == f.ns[f.count := mid[f.count]] && Edge(q.w, f.ns[best].id, mid[f.count].id)
    requires cost >= f.ns[best].cost && total == cost + Heuristic(q.w, q.end, q.endPos, mid[f.count])
    ensures var ms := Relaxed(mid, f.count, best, mid[f.count].pos, cost, total);
            && TreeOk(q, Forest(ms, f.at[f.count := f.now], f.count + 1, f.now + 1))
            && Forward(f.ns, f.count, ms, f.count + 1) && SameIds(f.ns, ms, f.count)
            && (!lost ==> ExploredOk(q.w, q.end, ms, f.count + 1, best))
            && Ordered(h, ms) && |h| <= f.count
  {
    var ms := Relaxed(mid, f.count, best, mid[f.count].pos, cost, total);
    FirstVisitKeepsTree(q, f, best, mid[f.count], mid[f.count].pos, cost, total);
    OpenFits(h, f.ns, f.count);
    assert Ordered(h, ms) by {
      assert forall i | 0 <= i < |h| :: h[i] in h;
    }
    if !lost {
      ExploredStays(q.w, q.end, f.ns, f.count, ms, f.count + 1, best);
    }
  }

  /** What one followed link leaves behind. */
  ghost predicate Followed(q: Quest, ns: seq<Node>, count: nat, best: nat, lost: bool, ref: Ref,
                           f: Forest, g: seq<nat>) {
    && SearchOk(q, f, g, lost, best)
    && best < count <= f.count && |ns| == |f.ns| && SameIds(ns, f.ns, count) && f.ns[best] == ns[best]
    && Forward(ns, count, f.ns, f.count) && LinkHandled(q.w, f.ns, f.count, ref)
  }

  /** Node `m` of `mid` is worth a new parent: it is a known one that gets better, or the fresh one. */
  ghost predicate Worth(q: Quest, f: Forest,
                        h: seq<nat>, lost: bool, best: nat, mid: seq<Node>, m: nat, cost: nat, total: nat) {
    && SearchOk(q, f, h, lost, best) && best < f.count && |f.ns| == |mid| && m < |f.ns|
    && (m < f.count ==> mid == f.ns && total < f.ns[m].total)
    && (m >= f.count ==> m == f.count && mid == f.ns[f.count := mid[f.count]] && mid[f.count].Fresh())
    && Edge(q.w, f.ns[best].id, mid[m].id)
    && cost >= f.ns[best].cost && total == cost + Heuristic(q.w, q.end, q.endPos, mid[m])
  }

  lemma MetNode(q: Quest, f: Forest, h: seq<nat>, lost: bool, best: nat, i: nat)
    requires SearchOk(q, f, h, lost, best) && i < f.count
    ensures f.count <= |f.ns| == |f.at| && !f.ns[i].Fresh() && (f.ns[i].open || f.ns[i].closed)
    ensures f.ns[i].total == f.ns[i].cost + Heuristic(q.w, q.end, q.endPos, f.ns[i])
  {
  }

  /** Such a node is neither the start nor the one expanded, and a known one gets cheaper. */
  lemma WorthIsCheaper(q: Quest, f: Forest,
                       h: seq<nat>, lost: bool, best: nat, mid: seq<Node>, m: nat, cost: nat, total: nat)
    requires Worth(q, f, h, lost, best, mid, m, cost, total)
    ensures m != 0 && m != best && m < |mid| == |f.ns|
    ensures m < f.count ==> cost < f.ns[m].cost && mid == f.ns
    ensures m >= f.count ==> m == f.count && mid == f.ns[m := mid[m]]
    ensures Edge(q.w, f.ns[best].id, mid[m].id)
  {
    if m < f.count {
      RelaxKeepsTree(q, f, best, m, cost, total);
    }
  }

  lemma WorthIsReady(q: Quest, f: Forest,
                     h: seq<nat>, lost: bool, best: nat, mid: seq<Node>, m: nat, cost: nat, total: nat)
    requires Worth(q, f, h, lost, best, mid, m, cost, total)
    ensures m < |mid| == |f.at|
    ensures var ms := Relaxed(mid, m, best, mid[m].pos, cost, total);
            if mid[m].open then Lowered(h, ms, m) && m in h else Ordered(h, ms) && |h| < |f.ns|
  {
    hide TreeOk, ExploredOk, OpenOk, Ordered, Lowered, Edge, Heuristic;
    MetNode(q, f, h, lost, best, best);
    if m < f.count {
      KnownNode(q, f, h, lost, best, m, cost, total);
    } else {
      NewNode(q, f, h, lost, best, mid, cost, total);
    }
  }

  lemma InBoth(g: seq<nat>, h: seq<nat>, i: nat)
    requires multiset(g) <= multiset(h) && i in g
    ensures i in h
  {
    assert multiset(g)[i] >= 1;
    assert multiset(h)[i] >= 1;
  }

  /** The open list after `modify`. */
  lemma OpenAfterModify(h: seq<nat>, g: seq<nat>, ns: seq<Node>, ms: seq<Node>, count: nat, n: nat)
    requires OpenOk(h, ns, count) && n < count <= |ms| && Ordered(g, ms) && multiset(g) == multiset(h)
    requires ns[n].open && forall i | 0 <= i < count :: ms[i].open == ns[i].open
    ensures OpenOk(g, ms, count)
  {
    forall i | i in g ensures i < count {
      InBoth(g, h, i);
    }
  }

  /** The open list after `push`. */
  lemma OpenAfterPush(h: seq<nat>, g: seq<nat>, ns: seq<Node>, count: nat, ms: seq<Node>, more: nat, n: nat)
    requires OpenOk(h, ns, count) && n < more && count <= more <= |ms| && more <= count + 1
             && (n < count ==> !ns[n].open)
    requires more == count + 1 ==> n == count
    requires Ordered(g, ms) && multiset(g) == multiset(h) + multiset{n}
    requires ms[n].open && forall i | 0 <= i < count && i != n :: ms[i].open == ns[i].open
    ensures OpenOk(g, ms, more)
  {
    forall i | i in g ensures i < more {
      InBoth(g, h + [n], i);
    }
    forall i | 0 <= i < more ensures multiset(g)[i] == if ms[i].open then 1 else 0 {
      if i == count {
        assert i !in h;
      }
    }
  }

  /** A polygon that has a node needs no other. */
  lemma FoundHandles(w: World, ns: seq<Node>, count: nat, j: nat)
    requires j < count <= |ns|
    ensures LinkHandled(w, ns, count, ns[j].id)
  {
  }

  lemma WorthIsFollowed(q: Quest, f: Forest,
                        h: seq<nat>, lost: bool, best: nat, mid: seq<Node>, m: nat, cost: nat, total: nat, g: seq<nat>)
    requires Worth(q, f, h, lost, best, mid, m, cost, total)
    requires m < |mid| == |f.at| && Ordered(g, Relaxed(mid, m, best, mid[m].pos, cost, total))
    requires multiset(g) == if mid[m].open then multiset(h) else multiset(h) + multiset{m}
    ensures Followed(q, f.ns, f.count, best, lost, mid[m].id,
                     Forest(Relaxed(mid, m, best, mid[m].pos, cost, total), f.at[m := f.now],
                            if m < f.count then f.count else f.count + 1, f.now + 1), g)
  {
    hide TreeOk, ExploredOk, OpenOk, Ordered, Lowered, Edge, Heuristic;
    var ms := Relaxed(mid, m, best, mid[m].pos, cost, total);
    MetNode(q, f, h, lost, best, best);
    if m < f.count {
      KnownNode(q, f, h, lost, best, m, cost, total);
      if f.ns[m].open {
        OpenAfterModify(h, g, f.ns, ms, f.count, m);
      } else {
        OpenAfterPush(h, g, f.ns, f.count, ms, f.count, m);
      }
      FoundHandles(q.w, ms, f.count, m);
    } else {
      NewNode(q, f, h, lost, best, mid, cost, total);
      OpenAfterPush(h, g, f.ns, f.count, ms, f.count + 1, f.count);
      FoundHandles(q.w, ms, f.count + 1, f.count);
    }
  }

  /** What the search knows of a node it has met. */
  lemma AllMet(q: Quest, f: Forest, h: seq<nat>, lost: bool, except: nat)
    requires SearchOk(q, f, h, lost, except)
    ensures f.count <= |f.ns| && forall i | 0 <= i < f.count :: !f.ns[i].Fresh() && (f.ns[i].open || f.ns[i].closed)
  {
  }

  /** Links that are skipped lead nowhere, or to a polygon that has a node. */
  lemma SkippedIsHandled(w: World, ns: seq<Node>, count: nat, ref: Ref, parentRef: Ref)
    requires count <= |ns|
    requires parentRef != 0 ==> HasNode(ns, count, parentRef)
    requires ref == 0 || ref == parentRef || !w.passes(ref)
    ensures LinkHandled(w, ns, count, ref)
  {
  }

  lemma LinkIsEdge(w: World, from: Ref, link: Link)
    requires link in w.links(from) && link.ref != 0 && w.passes(link.ref)
    ensures Edge(w, from, link.ref)
  {
  }

  /** Once a node was lost nothing is claimed about what was explored. */
  lemma LostKnowsLess(q: Quest, f: Forest, h: seq<nat>, lost: bool, except: nat)
    requires SearchOk(q, f, h, lost, except)
    ensures SearchOk(q, f, h, true, except)
  {
  }

  /** The open list after `pop`, and the popped node's flags. */
  lemma OpenAfterPop(h: seq<nat>, g: seq<nat>, ns: seq<Node>, count: nat, n: nat)
    requires OpenOk(h, ns, count) && Ordered(g, ns) && multiset(h) == multiset(g) + multiset{n} && n < |ns|
    ensures n < count && ns[n].open && OpenOk(g, ns[n := ns[n].(open := false, closed := true)], count)
  {
    assert n in multiset(h);
    assert n in h;
    var ms := ns[n := ns[n].(open := false, closed := true)];
    forall i | i in g ensures i < count {
      InBoth(g, h, i);
    }
    forall i | 0 <= i < |g| ensures g[i] < |ms| && ms[g[i]].total == ns[g[i]].total {
    }
  }

  lemma TreeAfterPop(q: Quest, f: Forest, n: nat)
    requires TreeOk(q, f) && n < f.count
    ensures TreeOk(q, Forest(f.ns[n := f.ns[n].(open := false, closed := true)], f.at, f.count, f.now))
  {
    var ms := f.ns[n := f.ns[n].(open := false, closed := true)];
    forall i | 0 < i < f.count ensures ChildOk(q.w, ms, f.at, f.count, i) {
      assert ChildOk(q.w, f.ns, f.at, f.count, i);
    }
  }

  /** Popping a node: it becomes the one being expanded. */
  lemma Popped(q: Quest, f: Forest, h: seq<nat>, lost: bool, none: nat, g: seq<nat>, n: nat)
    requires SearchOk(q, f, h, lost, none) && none >= f.count
    requires Ordered(g, f.ns) && multiset(h) == multiset(g) + multiset{n} && n < |f.ns|
    ensures n < f.count
    ensures var ms := f.ns[n := f.ns[n].(open := false, closed := true)];
            && SearchOk(q, Forest(ms, f.at, f.count, f.now), g, lost, n)
            && SumTotals(ms, f.count) == SumTotals(f.ns, f.count) && |h| == |g| + 1
  {
    var ms := f.ns[n := f.ns[n].(open := false, closed := true)];
    OpenAfterPop(h, g, f.ns, f.count, n);
    TreeAfterPop(q, f, n);
    SumUpdate(f.ns, f.count, n, ms[n]);
    assert |multiset(h)| == |multiset(g)| + 1;
    if !lost {
      ExploredStays(q.w, q.end, f.ns, f.count, ms, f.count, n);
    }
  }

  /** All links of the expanded node followed: it counts as explored. */
  lemma Expanded(q: Quest, f: Forest, h: seq<nat>, lost: bool, best: nat, none: nat)
    requires SearchOk(q, f, h, lost, best) && best < f.count <= none
    requires f.ns[best].id != q.end
    requires !lost ==> Handled(q.w, f.ns, f.count, f.ns[best].id, |q.w.links(f.ns[best].id)|)
    ensures SearchOk(q, f, h, lost, none)
  {
  }

  lemma HandleOneMore(w: World, ns: seq<Node>, count: nat, ref: Ref, k: nat)
    requires count <= |ns| && k < |w.links(ref)| && Handled(w, ns, count, ref, k)
    requires LinkHandled(w, ns, count, w.links(ref)[k].ref)
    ensures Handled(w, ns, count, ref, k + 1)
  {
  }

  // ---------------------------------------------------------------- turning a chain round

  /** The parent index of the `j`th node of the chain after `k` rounds. */
  ghost function LinkAfter(ns: seq<Node>, c: seq<nat>, k: nat, j: nat): nat
    requires j < |c| && c[j] < |ns|
  {
    if j >= k then ns[c[j]].pidx else if j == 0 then 0 else c[j - 1] + 1
  }

  /** After `k` rounds of the reversal loop: the first `k` nodes of the chain point back, the others are as
      they were. */
  ghost predicate Turned(ns: seq<Node>, ms: seq<Node>, c: seq<nat>, k: nat) {
    && |ms| == |ns| && k <= |c|
    && (forall j | 0 <= j < |c| :: c[j] < |ns|)
    && SameIds(ns, ms, |ns|)
    && (forall j | 0 <= j < |c| :: ms[c[j]].pidx == LinkAfter(ns, c, k, j))
  }

  lemma LinkAfterStep(ns: seq<Node>, ms: seq<Node>, c: seq<nat>, k: nat, j: nat)
    requires Turned(ns, ms, c, k) && k < |c| && j < |c|
    ensures c[j] < |ns| == |ms|
    ensures LinkAfter(ns, c, k + 1, j) == if j == k then (if k == 0 then 0 else c[k - 1] + 1) else ms[c[j]].pidx
  {
    assert ms[c[j]].pidx == LinkAfter(ns, c, k, j);
  }

  lemma TurnOne(ns: seq<Node>, ms: seq<Node>, c: seq<nat>, k: nat, pidx: nat)
    requires Turned(ns, ms, c, k) && k < |c|
    requires forall i, j | 0 <= i < j < |c| :: c[i] != c[j]
    requires pidx == if k == 0 then 0 else c[k - 1] + 1
    ensures Turned(ns, ms[c[k] := ms[c[k]].(pidx := pidx)], c, k + 1)
  {
    var m1 := ms[c[k] := ms[c[k]].(pidx := pidx)];
    forall j | 0 <= j < |c| ensures m1[c[j]].pidx == LinkAfter(ns, c, k + 1, j) {
      LinkAfterStep(ns, ms, c, k, j);
      if j != k {
        assert c[j] != c[k];
      }
    }
  }

  /** Where the search starts: one open node. */
  lemma Begin(q: Quest, ns: seq<Node>, h: seq<nat>)
    requires ns != [] && q.start != q.end && ns[0].id == q.start && ns[0].pidx == 0 && ns[0].cost == 0
    requires ns[0].open && !ns[0].closed && ns[0].total == q.w.dist(ns[0].pos, q.endPos)
    requires Ordered(h, ns) && multiset(h) == multiset{0}
    ensures SearchOk(q, Forest(ns, seq(|ns|, _ => 0), 1, 1), h, false, |ns|)
  {
    forall i | i in h ensures i < 1 {
      InBoth(h, [0], i);
    }
  }

  /** The parent of the node being expanded has a node, trivially. */
  lemma ParentIsThere(q: Quest, f: Forest, h: seq<nat>, lost: bool, except: nat, i: nat)
    requires SearchOk(q, f, h, lost, except) && i < f.count
    ensures f.count <= |f.ns| && f.ns[i].pidx <= f.count
    ensures f.ns[i].pidx > 0 ==> HasNode(f.ns, f.count, f.ns[f.ns[i].pidx - 1].id)
  {
    if i > 0 {
      assert ChildOk(q.w, f.ns, f.at, f.count, i);
    }
  }

  /** The path of the best node is a walk; when the search ran dry without losing a node the goal cannot be
      reached. */
  lemma PathOf(q: Quest, f: Forest, h: seq<nat>, lost: bool, except: nat, i: nat) returns (c: seq<nat>)
    requires SearchOk(q, f, h, lost, except) && i < f.count
    ensures f.count <= |f.ns| && IsChain(f.ns, f.count, c, i)
    ensures var p := PathIds(f.ns, c); Walk(q.w, p) && p[0] == q.start && p[|p| - 1] == f.ns[i].id
  {
    c := Chain(q, f, i);
    ChainShape(q, f, i);
    ChainIsWalk(q, f, i);
  }

  lemma AllClosed(q: Quest, f: Forest, h: seq<nat>, lost: bool, none: nat)
    requires SearchOk(q, f, h, lost, none) && h == []
    ensures f.count <= |f.ns| && forall i | 0 <= i < f.count :: f.ns[i].closed
  {
    forall i | 0 <= i < f.count ensures f.ns[i].closed {
      assert multiset(h)[i] == 0;
    }
  }

  lemma NoneOpen(q: Quest, f: Forest, h: seq<nat>, lost: bool, none: nat)
    requires SearchOk(q, f, h, lost, none) && h == []
    ensures f.count <= |f.ns| && forall i | 0 <= i < f.count :: !f.ns[i].open
  {
    forall i | 0 <= i < f.count ensures !f.ns[i].open {
      assert multiset(h)[i] == 0;
    }
  }

  lemma RanDry(q: Quest, f: Forest, h: seq<nat>, none: nat)
    requires SearchOk(q, f, h, false, none) && h == [] && none >= f.count
    ensures !Reachable(q.w, q.start, q.end) && forall i | 0 <= i < f.count :: f.ns[i].id != q.end
    ensures forall r | Reachable(q.w, q.start, r) :: HasNode(f.ns, f.count, r)
  {
    AllClosed(q, f, h, false, none);
    Exhausted(q.w, q.start, q.end, f.ns, f.count);
    forall r | Reachable(q.w, q.start, r) ensures HasNode(f.ns, f.count, r) {
      var p: seq<Ref> :| Walk(q.w, p) && p[0] == q.start && p[|p| - 1] == r;
      ReachedHasNode(q.w, q.end, f.ns, f.count, p);
    }
  }

  /** A node that was least in the open list has no open node below it. */
  lemma LeastOfOpen(q: Quest, f: Forest, h: seq<nat>, lost: bool, none: nat, n: nat)
    requires SearchOk(q, f, h, lost, none) && IsLeast(n, h, f.ns)
    ensures f.count <= |f.ns| && forall i | 0 <= i < f.count && f.ns[i].open :: f.ns[n].total <= f.ns[i].total
  {
    forall i | 0 <= i < f.count && f.ns[i].open ensures f.ns[n].total <= f.ns[i].total {
      assert multiset(h)[i] == 1;
      assert i in h;
    }
  }

  lemma NothingHandled(w: World, ns: seq<Node>, count: nat, ref: Ref)
    requires count <= |ns|
    ensures Handled(w, ns, count, ref, 0)
  {
  }

  lemma IdsStay(ns: seq<Node>, ms: seq<Node>, count: nat, more: nat, ref: Ref)
    requires count <= |ns| && count <= more <= |ms| && SameIds(ns, ms, count)
    ensures HasNode(ns, count, ref) ==> HasNode(ms, more, ref)
  {
    if HasNode(ns, count, ref) {
      var j :| 0 <= j < count && ns[j].id == ref;
      assert ms[j].id == ref;
    }
  }

  lemma ForwardAgain(ns0: seq<Node>, count0: nat, ns: seq<Node>, count: nat, ms: seq<Node>, more: nat)
    requires count0 <= |ns0| && count <= |ns| && more <= |ms|
    requires Forward(ns0, count0, ns, count) || (count == count0 && ns == ns0)
    requires Forward(ns, count, ms, more)
    ensures Forward(ns0, count0, ms, more)
  {
  }

  lemma StartTurning(ns: seq<Node>, c: seq<nat>)
    requires forall j | 0 <= j < |c| :: c[j] < |ns|
    ensures Turned(ns, ns, c, 0)
  {
  }

  /** The next node of the reversal loop and where it leads. */
  lemma NextToTurn(ns: seq<Node>, ms: seq<Node>, count: nat, c: seq<nat>, i: nat, k: nat)
    requires count <= |ns| && IsChain(ns, count, c, i) && ns[0].pidx == 0 && Turned(ns, ms, c, k) && k < |c|
    ensures c[k] < |ms| && ms[c[k]].pidx == if k + 1 < |c| then c[k + 1] + 1 else 0
  {
    assert ms[c[k]].pidx == LinkAfter(ns, c, k, k);
  }

  /** A turned chain leads from its last node to its first. */
  lemma TurnedAt(ns: seq<Node>, ms: seq<Node>, c: seq<nat>, j: nat)
    requires Turned(ns, ms, c, |c|) && j < |c|
    ensures c[j] < |ms| == |ns| && ms[c[j]].id == ns[c[j]].id && ms[c[j]].pidx == if j == 0 then 0 else c[j - 1] + 1
  {
    assert ms[c[j]].pidx == LinkAfter(ns, c, |c|, j);
  }

  lemma TurnedIds(ns: seq<Node>, ms: seq<Node>, c: seq<nat>, k: nat)
    requires Turned(ns, ms, c, k)
    ensures |ms| == |ns| && SameIds(ns, ms, |ns|)
  {
  }
}
