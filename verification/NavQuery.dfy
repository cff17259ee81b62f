/** The query object: `findPath` as the program runs it, over its node pool and open list.

    Nodes are updated in place in the pool's array, the open list holds their indices, and a node that was
    closed goes back to the open list when a cheaper way to it is found. The times at which costs were
    assigned are a ghost sequence: they break ties between equal costs, so that the parent pointers are a
    tree even where links cost nothing. Every method keeps the search invariant of NavFindPath, and the
    loops end because each step adds a node, lowers a total or shortens the open list. */
module NavQuery {
  import opened NavNode
  import opened NavNodePool
  import opened NavFindPath
  import opened NavCosts

  lemma EmptyHeap(ns: seq<Node>)
    ensures Ordered([], ns)
  {
  }

  lemma LeastIsNode(n: nat, h: seq<nat>, ns: seq<Node>)
    requires IsLeast(n, h, ns)
    ensures n < |ns|
  {
  }

  lemma ForwardIs(ns: seq<Node>, count: nat, ms: seq<Node>, more: nat)
    requires count <= |ns| && more <= |ms|
    ensures Forward(ns, count, ms, more)
            ==> more > count || (more == count && SumTotals(ms, more) < SumTotals(ns, count))
  {
  }

  lemma SearchIsOrdered(w: World, start: Ref, end: Ref, endPos: Pos, ns: seq<Node>, at: seq<nat>, count: nat, now: nat,
                        h: seq<nat>, lost: bool, except: nat)
    requires SearchOk(Quest(w, start, end, endPos), Forest(ns, at, count, now), h, lost, except)
    ensures Ordered(h, ns)
  {
  }

  lemma RootHasNoParent(w: World, start: Ref, end: Ref, endPos: Pos, ns: seq<Node>, at: seq<nat>, count: nat, now: nat,
                        h: seq<nat>, lost: bool, except: nat)
    requires SearchOk(Quest(w, start, end, endPos), Forest(ns, at, count, now), h, lost, except)
    ensures ns != [] && ns[0].pidx == 0
  {
  }

  lemma ChainEnds(ns: seq<Node>, count: nat, c: seq<nat>, i: nat)
    requires count <= |ns| && IsChain(ns, count, c, i)
    ensures c != [] && c[|c| - 1] == 0 && forall k | 0 <= k < |c| :: c[k] < |ns|
  {
  }

  lemma ReachedBy(w: World, start: Ref, end: Ref, p: seq<Ref>)
    requires Walk(w, p) && p != [] && p[0] == start && p[|p| - 1] == end
    ensures Reachable(w, start, end)
  {
  }

  /** What a successful `findPath` promises; `met` are the nodes it leaves in the pool. */
  ghost predicate PathOk(q: Quest, startPos: Pos, met: seq<Node>, maxPath: nat, status: Status, path: seq<Ref>) {
    && (exists p: seq<Ref> :: Walk(q.w, p) && p[0] == q.start && path == p[..Least(maxPath, |p|)]
          && (status.partial <==> p[|p| - 1] != q.end)
          && (q.start != q.end ==>
                && status.bufferTooSmall == (|p| >= maxPath)
                && Told(q, startPos, met, status.partial, status.outOfNodes, p[|p| - 1])))
    && (!status.outOfNodes ==> (status.partial <==> !Reachable(q.w, q.start, q.end)))
  }

  lemma TrivialPath(w: World, start: Ref, endPos: Pos, startPos: Pos, met: seq<Node>, maxPath: nat)
    requires maxPath > 0
    ensures PathOk(Quest(w, start, start, endPos), startPos, met, maxPath, SUCCESS, [start])
  {
    var p := [start];
    assert Walk(w, p) && p[0] == start && p[|p| - 1] == start && p[..Least(maxPath, |p|)] == p;
    ReachedBy(w, start, start, p);
  }

  class Query {
    const pool: NodePool
    const queue: NodeQueue
    const world: World

    ghost predicate Shape()
      reads this, pool, queue
    {
      && pool.Shape() && queue.Shape() && queue.capacity == pool.maxNodes
      && queue.heap != pool.first && queue.heap != pool.next
    }

    ghost predicate Valid()
      reads this, pool, pool.nodes, pool.first, pool.next, queue
    {
      Shape() && pool.Valid()
    }

    /** `init`. */
    constructor (world: World, maxNodes: nat, hashSize: nat, hash: Ref -> nat)
      requires 0 < maxNodes <= NULL_IDX && hashSize > 0
      ensures Valid() && this.world == world && pool.count == 0 && queue.size == 0 && pool.maxNodes == maxNodes
      ensures fresh(pool) && fresh(pool.nodes) && fresh(pool.first) && fresh(pool.next)
      ensures fresh(queue) && fresh(queue.heap)
    {
      this.world := world;
      pool := new NodePool(maxNodes, hashSize, hash);
      queue := new NodeQueue(maxNodes);
    }

    /** Changing a node without renaming it leaves the hash chains alone. */
    lemma IdsKept(ns: seq<Node>, ms: seq<Node>, count: nat)
      requires pool.first.Length > 0 && count <= |ns| == |ms| && SameIds(ns, ms, count)
      ensures BucketsOf(ms[..count], pool.hash, pool.first.Length)
              == BucketsOf(ns[..count], pool.hash, pool.first.Length)
      ensures Unique(ns, count) ==> Unique(ms, count)
    {
    }

    /** The end of the link loop: a new parent and new costs for `n`, and its place in the open list. */
    method Reparent(best: nat, n: nat, cost: nat, total: nat)
      requires Valid() && n < pool.count && best < pool.count
      requires var ms := Relaxed(pool.nodes[..], n, best, pool.nodes[n].pos, cost, total);
               if pool.nodes[n].open then Lowered(queue.Items(), ms, n)
               else Ordered(queue.Items(), ms) && queue.size < queue.capacity
      modifies pool.nodes, queue, queue.heap
      ensures Valid()
      ensures pool.nodes[..] == Relaxed(old(pool.nodes[..]), n, best, old(pool.nodes[n].pos), cost, total)
      ensures old(pool.nodes[n].open) ==>
        && multiset(queue.Items()) == multiset(old(queue.Items()))
        && (n in old(queue.Items()) ==> Ordered(queue.Items(), pool.nodes[..]))
      ensures !old(pool.nodes[n].open) ==>
        multiset(queue.Items()) == multiset(old(queue.Items())) + multiset{n} && Ordered(queue.Items(), pool.nodes[..])
    {
      hide Ordered, Lowered, ChainsOk, Unique;
      ghost var ns := pool.nodes[..];
      pool.nodes[n] := pool.nodes[n].(pidx := best + 1, closed := false, cost := cost, total := total);
      var wasOpen := pool.nodes[n].open;
      if !wasOpen {
        pool.nodes[n] := pool.nodes[n].(open := true);
      }
      assert pool.nodes[..] == Relaxed(ns, n, best, ns[n].pos, cost, total);
      IdsKept(ns, pool.nodes[..], pool.count);
      if wasOpen {
        queue.Modify(pool.nodes, n);
      } else {
        queue.Push(pool.nodes, n);
      }
    }

    /** The node of a neighbour, with its position set on the first visit. NULL_IDX when the pool is full. */
    method Visit(bestRef: Ref, ref: Ref, side: nat) returns (n: nat)
      requires Valid() && forall i | 0 <= i < pool.count :: !pool.nodes[i].Fresh()
      modifies pool, pool.nodes, pool.first, pool.next
      ensures Valid()
      ensures n == NULL_IDX ==> pool.nodes[..] == old(pool.nodes[..]) && pool.count == old(pool.count)
      ensures n != NULL_IDX ==>
        && n < pool.count && pool.nodes[n].id == ref
        && pool.nodes[n].state == StateOf(Link(ref, side))
      ensures n < old(pool.count) ==> pool.nodes[..] == old(pool.nodes[..]) && pool.count == old(pool.count)
      ensures old(pool.count) <= n != NULL_IDX ==>
        && n == old(pool.count) && pool.count == n + 1 && pool.nodes[n].Fresh()
        && pool.nodes[n].pos == world.mid(bestRef, ref)
        && pool.nodes[..] == old(pool.nodes[..])[n := pool.nodes[n]]
    {
      hide ChainsOk, Unique;
      n := pool.GetNode(ref, if side != 0xff then side / 2 else 0);
      if n != NULL_IDX && pool.nodes[n].Fresh() {
        ghost var ns := pool.nodes[..];
        pool.nodes[n] := pool.nodes[n].(pos := world.mid(bestRef, ref));
        IdsKept(ns, pool.nodes[..], pool.count);
      }
    }

    /** Cost and heuristic of `there` by way of `here`. */
    method Price(here: Node, there: Node, parentRef: Ref, end: Ref, endPos: Pos, ghost q: Quest)
      returns (cost: nat, heuristic: nat)
      requires q.w == world && q.end == end && q.endPos == endPos
      ensures cost == here.cost + StepPrice(q, here, there, parentRef)
      ensures heuristic == Heuristic(world, end, endPos, there)
    {
      cost := here.cost + world.step(here.pos, there.pos, parentRef, here.id, there.id);
      if there.id == end {
        cost := cost + world.step(there.pos, endPos, here.id, there.id, 0);
        heuristic := 0;
      } else {
        heuristic := world.dist(there.pos, endPos);
      }
    }

    /** Node `m` gets a better parent; `f` is the search before the visit to `m`. */
    method Improve(ghost q: Quest, ghost f: Forest, best: nat, m: nat, cost: nat, total: nat, ghost lost: bool)
      requires Valid() && m < pool.count == (if m < f.count then f.count else f.count + 1)
      requires Worth(q, f, queue.Items(), lost, best, pool.nodes[..], m, cost, total)
      modifies pool.nodes, queue, queue.heap
      ensures Valid() && m < |f.at|
      ensures Followed(q, f.ns, f.count, best, lost, old(pool.nodes[m].id),
                       Forest(pool.nodes[..], f.at[m := f.now], pool.count, f.now + 1), queue.Items())
      ensures pool.nodes[..] == Relaxed(old(pool.nodes[..]), m, best, old(pool.nodes[m].pos), cost, total)
    {
      hide SearchOk, Ordered, Lowered, Edge, ChainsOk, Unique, Forward, Heuristic, Followed, LinkHandled;
      ghost var mid, h := pool.nodes[..], queue.Items();
      WorthIsReady(q, f, h, lost, best, mid, m, cost, total);
      Reparent(best, m, cost, total);
      WorthIsFollowed(q, f, h, lost, best, mid, m, cost, total, queue.Items());
    }

    /** One link of the node being expanded. Reports the node that was improved, or NULL_IDX, and its
        heuristic. */
    method FollowLink(ghost start: Ref, end: Ref, endPos: Pos, best: nat, parentRef: Ref, link: Link,
                      ghost at: seq<nat>, ghost now: nat, ghost lost: bool)
      returns (n: nat, heuristic: nat, outOfNodes: bool, ghost at': seq<nat>, ghost now': nat)
      requires Valid() && best < pool.count
      requires SearchOk(Quest(world, start, end, endPos), Forest(pool.nodes[..], at, pool.count, now), queue.Items(),
                        lost, best)
      requires link in world.links(pool.nodes[best].id)
      requires parentRef != 0 ==> HasNode(pool.nodes[..], pool.count, parentRef)
      requires parentRef == ParentRef(pool.nodes[..], best)
      modifies pool, pool.nodes, pool.first, pool.next, queue, queue.heap
      ensures Valid() && old(pool.count) <= pool.count && SameIds(old(pool.nodes[..]), pool.nodes[..], old(pool.count))
      ensures pool.nodes[best] == old(pool.nodes[best])
      ensures SearchOk(Quest(world, start, end, endPos), Forest(pool.nodes[..], at', pool.count, now'), queue.Items(),
                       lost || outOfNodes, best)
      ensures !outOfNodes ==> LinkHandled(world, pool.nodes[..], pool.count, link.ref)
      ensures n == NULL_IDX ==> pool.nodes[..] == old(pool.nodes[..]) && pool.count == old(pool.count)
      ensures n == NULL_IDX ==> queue.Items() == old(queue.Items())
      ensures n != NULL_IDX ==>
                && n < pool.count && Forward(old(pool.nodes[..]), old(pool.count), pool.nodes[..], pool.count)
                && heuristic == Heuristic(world, end, endPos, pool.nodes[n])
      ensures Stepped(Quest(world, start, end, endPos), old(pool.nodes[..]), old(pool.count), pool.nodes[..],
                      pool.count, best, link, n, lost || outOfNodes)
    {
      hide SearchOk, Ordered, Lowered, Edge, ChainsOk, Unique, Forward, Heuristic, SumTotals, ParentRef, StepPrice,
           Stepped;
      ghost var q := Quest(world, start, end, endPos);
      n, heuristic, outOfNodes, at', now' := NULL_IDX, 0, false, at, now;
      ghost var ns, count, h := pool.nodes[..], pool.count, queue.Items();
      AllMet(Quest(world, start, end, endPos), Forest(ns, at, count, now), h, lost, best);
      var bestRef, ref := pool.nodes[best].id, link.ref;
      if ref == 0 || ref == parentRef || !world.passes(ref) {
        NoStep(q, ns, count, best, link, lost);
        SkippedIsHandled(world, ns, count, ref, parentRef);
        return;
      }
      LinkIsEdge(world, bestRef, link);
      var m := Visit(bestRef, ref, link.side);
      if m == NULL_IDX {
        outOfNodes := true;
        NoStep(q, ns, count, best, link, true);
        LostKnowsLess(Quest(world, start, end, endPos), Forest(ns, at, count, now), h, lost, best);
        return;
      }
      var there := pool.nodes[m];
      var cost;
      cost, heuristic := Price(pool.nodes[best], there, parentRef, end, endPos, q);
      var total := cost + heuristic;
      if (there.open && total >= there.total) || (there.closed && total >= there.total) {
        FoundHandles(world, ns, count, m);
        NotCheaper(q, Forest(ns, at, count, now), h, lost, best, m, cost, link);
        NoStep(q, ns, count, best, link, lost);
        return;
      }
      ghost var mid := pool.nodes[..];
      WorthIsCheaper(q, Forest(ns, at, count, now), h, lost, best, mid, m, cost, total);
      ImprovedIsStep(q, ns, count, mid, pool.count, best, link, m, cost, total, lost);
      Improve(q, Forest(ns, at, count, now), best, m, cost, total, lost);
      n, at', now' := m, at[m := now], now + 1;
    }

    /** The link loop: expands `best`, keeping track of the node nearest to the goal. */
    method Expand(ghost start: Ref, ghost startPos: Pos, end: Ref, endPos: Pos, best: nat, near0: nat, nearCost0: nat,
                  ghost at: seq<nat>, ghost now: nat, lost0: bool, ghost ways: seq<seq<nat>>)
      returns (near: nat, nearCost: nat, lost: bool, ghost at': seq<nat>, ghost now': nat, ghost ways': seq<seq<nat>>)
      requires Valid() && best < pool.count && near0 < pool.count && pool.nodes[best].id != end
      requires SearchOk(Quest(world, start, end, endPos), Forest(pool.nodes[..], at, pool.count, now), queue.Items(),
                        lost0, best)
      requires Known(Quest(world, start, end, endPos), startPos, pool.nodes[..], pool.count, ways, near0, nearCost0)
      requires !lost0 ==> Settled(Quest(world, start, end, endPos), pool.nodes[..], pool.count, best)
      modifies pool, pool.nodes, pool.first, pool.next, queue, queue.heap
      ensures Valid() && near < pool.count
      ensures SearchOk(Quest(world, start, end, endPos), Forest(pool.nodes[..], at', pool.count, now'), queue.Items(),
                       lost, NULL_IDX)
      ensures Known(Quest(world, start, end, endPos), startPos, pool.nodes[..], pool.count, ways', near, nearCost)
      ensures !lost ==> Settled(Quest(world, start, end, endPos), pool.nodes[..], pool.count, NULL_IDX)
      ensures Forward(old(pool.nodes[..]), old(pool.count), pool.nodes[..], pool.count)
        || (pool.count == old(pool.count) && pool.nodes[..] == old(pool.nodes[..])
            && queue.Items() == old(queue.Items()))
    {
      hide SearchOk, Forward, Handled, ChainsOk, Unique, LinkHandled, SameIds, Ordered, HasNode, Known, Settled,
           RelaxedUpTo, Stepped, ParentRef, Heuristic;
      near, nearCost, lost, at', now', ways' := near0, nearCost0, lost0, at, now, ways;
      ghost var q := Quest(world, start, end, endPos);
      ghost var ns0, count0 := pool.nodes[..], pool.count;
      ParentIs(q, startPos, ns0, count0, ways, near, nearCost, best);
      NoneRelaxed(q, ns0, count0, ns0[best], ParentRef(ns0, best));
      var bestRef := pool.nodes[best].id;
      var parentRef := 0;
      ParentIsThere(Quest(world, start, end, endPos), Forest(pool.nodes[..], at, pool.count, now), queue.Items(),
                    lost0, best, best);
      if pool.nodes[best].pidx != 0 {
        parentRef := pool.nodes[pool.nodes[best].pidx - 1].id;
      }
      var links := world.links(bestRef);
      NothingHandled(world, pool.nodes[..], pool.count, bestRef);
      for i := 0 to |links|
        invariant Valid() && best < count0 <= pool.count && near < pool.count
        invariant pool.nodes[best].id == bestRef && parentRef == ParentRef(pool.nodes[..], best)
        invariant Known(q, startPos, pool.nodes[..], pool.count, ways', near, nearCost)
        invariant !lost ==>
                    && Settled(q, pool.nodes[..], pool.count, best)
                    && RelaxedUpTo(q, pool.nodes[..], pool.count, pool.nodes[best], parentRef, i)
        invariant parentRef != 0 ==> HasNode(pool.nodes[..], pool.count, parentRef)
        invariant SearchOk(Quest(world, start, end, endPos), Forest(pool.nodes[..], at', pool.count, now'),
                           queue.Items(), lost, best)
        invariant !lost ==> Handled(world, pool.nodes[..], pool.count, bestRef, i)
        invariant Forward(ns0, count0, pool.nodes[..], pool.count)
          || (pool.count == count0 && pool.nodes[..] == ns0 && queue.Items() == old(queue.Items()))
      {
        ghost var ns, count := pool.nodes[..], pool.count;
        var n, heuristic, out;
        n, heuristic, out, at', now' := FollowLink(start, end, endPos, best, parentRef, links[i], at', now', lost);
        IdsStay(ns, pool.nodes[..], count, pool.count, parentRef);
        if !lost && !out {
          HandledStays(world, ns, count, pool.nodes[..], pool.count, bestRef, i);
          HandleOneMore(world, pool.nodes[..], pool.count, bestRef, i);
        }
        LinkFollowed(q, startPos, ns, count, pool.nodes[..], pool.count, best, i, n, lost, out, ways', near, nearCost);
        lost := lost || out;
        if n != NULL_IDX {
          ways' := ways'[n := ways'[best] + [n]];
          ForwardAgain(ns0, count0, ns, count, pool.nodes[..], pool.count);
          if heuristic < nearCost {
            near, nearCost := n, heuristic;
          }
        }
      }
      Expanded(q, Forest(pool.nodes[..], at', pool.count, now'), queue.Items(), lost, best, NULL_IDX);
      if !lost {
        AllSettled(q, pool.nodes[..], pool.count, best, NULL_IDX);
      }
    }

    /** The reversal loop at the end of `findPath`. Returns the first node of the path. */
    method Reverse(last: nat, ghost c: seq<nat>) returns (head: nat)
      requires Valid() && IsChain(pool.nodes[..], pool.count, c, last) && pool.nodes[0].pidx == 0
      modifies pool.nodes
      ensures Valid() && Turned(old(pool.nodes[..]), pool.nodes[..], c, |c|) && head == 0
      ensures OnlyParents(old(pool.nodes[..]), pool.nodes[..])
    {
      hide ChainsOk, Unique, Turned, OnlyParents;
      ghost var ns, k := pool.nodes[..], 0;
      StartTurning(ns, c);
      NoneTurned(ns);
      var prev, node := 0, last + 1;
      while node != 0
        invariant k <= |c| && node == (if k < |c| then c[k] + 1 else 0) && prev == (if k == 0 then 0 else c[k - 1] + 1)
        invariant Shape() && Turned(ns, pool.nodes[..], c, k) && OnlyParents(ns, pool.nodes[..])
        decreases |c| - k
      {
        ghost var ms := pool.nodes[..];
        NextToTurn(ns, ms, pool.count, c, last, k);
        var next := pool.nodes[node - 1].pidx;
        pool.nodes[node - 1] := pool.nodes[node - 1].(pidx := prev);
        TurnOne(ns, ms, c, k, prev);
        OneTurned(ns, ms, node - 1, prev);
        prev := node;
        node := next;
        k := k + 1;
      }
      head := prev - 1;
      TurnedIds(ns, pool.nodes[..], c, k);
      IdsKept(ns, pool.nodes[..], pool.count);
    }

    /** The copying loop at the end of `findPath`. */
    method Store(head: nat, maxPath: nat, ghost ns: seq<Node>, ghost c: seq<nat>)
      returns (path: seq<Ref>, tooSmall: bool)
      requires maxPath > 0 && c != [] && Turned(ns, pool.nodes[..], c, |c|) && head == c[|c| - 1]
      requires forall k | 0 <= k < |c| :: c[k] < |ns|
      ensures path == PathIds(ns, c)[..Least(maxPath, |c|)] && tooSmall == (|c| >= maxPath)
    {
      hide Turned;
      path, tooSmall := [], false;
      ghost var p, ms := PathIds(ns, c), pool.nodes[..];
      TurnedAt(ns, ms, c, |c| - 1);
      var node := head + 1;
      while node != 0
        invariant |path| <= |c| && path == p[..|path|] && |path| < maxPath
        invariant node == if |path| < |c| then c[|c| - 1 - |path|] + 1 else 0
        decreases |c| - |path|
      {
        ghost var k := |path|;
        TurnedAt(ns, ms, c, |c| - 1 - k);
        path := path + [pool.nodes[node - 1].id];
        assert path == p[..k + 1];
        if |path| >= maxPath {
          tooSmall := true;
          break;
        }
        node := pool.nodes[node - 1].pidx;
      }
    }

    /** The start node, alone in the pool and in the open list. */
    method PlaceStart(start: Ref, end: Ref, startPos: Pos, endPos: Pos)
      requires Valid() && pool.count == 0 && queue.size == 0 && start != end
      modifies pool, pool.nodes, pool.first, pool.next, queue, queue.heap
      ensures Valid() && pool.count == 1 && pool.nodes[0].total == world.dist(startPos, endPos)
      ensures SearchOk(Quest(world, start, end, endPos), Forest(pool.nodes[..], seq(pool.maxNodes, _ => 0), 1, 1),
                       queue.Items(), false, pool.maxNodes)
      ensures Known(Quest(world, start, end, endPos), startPos, pool.nodes[..], 1, seq(pool.maxNodes, _ => [0]), 0,
                    pool.nodes[0].total)
      ensures Settled(Quest(world, start, end, endPos), pool.nodes[..], 1, pool.maxNodes)
    {
      hide SearchOk, ChainsOk, Unique, Ordered, Known, Settled;
      var first := pool.GetNode(start, 0);
      ghost var ns := pool.nodes[..];
      pool.nodes[first] := pool.nodes[first].(pos := startPos, pidx := 0, cost := 0,
                                              total := world.dist(startPos, endPos),
                                              id := start, open := true, closed := false);
      IdsKept(ns, pool.nodes[..], pool.count);
      EmptyHeap(pool.nodes[..]);
      assert queue.Items() == [];
      queue.Push(pool.nodes, first);
      Begin(Quest(world, start, end, endPos), pool.nodes[..], queue.Items());
      KnownAtStart(Quest(world, start, end, endPos), startPos, pool.nodes[..]);
    }

    /** Takes the best open node, and expands it unless it is the goal. */
    method ExpandBest(ghost start: Ref, ghost startPos: Pos, end: Ref, endPos: Pos, near0: nat, nearCost0: nat,
                      ghost at: seq<nat>, ghost now: nat, lost0: bool, ghost except: nat, ghost ways: seq<seq<nat>>)
      returns (near: nat, nearCost: nat, lost: bool, found: bool, ghost at': seq<nat>, ghost now': nat,
               ghost except': nat, ghost ways': seq<seq<nat>>)
      requires Valid() && queue.size > 0 && near0 < pool.count <= except
      requires SearchOk(Quest(world, start, end, endPos), Forest(pool.nodes[..], at, pool.count, now), queue.Items(),
                        lost0, except)
      requires Known(Quest(world, start, end, endPos), startPos, pool.nodes[..], pool.count, ways, near0, nearCost0)
      requires !lost0 ==> Settled(Quest(world, start, end, endPos), pool.nodes[..], pool.count, except)
      modifies pool, pool.nodes, pool.first, pool.next, queue, queue.heap
      ensures Valid() && near < pool.count
      ensures SearchOk(Quest(world, start, end, endPos), Forest(pool.nodes[..], at', pool.count, now'), queue.Items(),
                       lost, except')
      ensures Known(Quest(world, start, end, endPos), startPos, pool.nodes[..], pool.count, ways', near,
                    if found then 0 else nearCost)
      ensures !lost ==> Settled(Quest(world, start, end, endPos), pool.nodes[..], pool.count, except')
      ensures found ==>
        && pool.nodes[near].id == end && except' == near
        && forall i | 0 <= i < pool.count && pool.nodes[i].open :: pool.nodes[near].total <= pool.nodes[i].total
      ensures !found ==> pool.count <= except'
      ensures !found ==>
        || old(pool.count) < pool.count
        || (old(pool.count) == pool.count
            && SumTotals(pool.nodes[..], pool.count) < SumTotals(old(pool.nodes[..]), old(pool.count)))
        || (old(pool.count) == pool.count
            && SumTotals(pool.nodes[..], pool.count) == SumTotals(old(pool.nodes[..]), old(pool.count))
            && queue.size < old(queue.size))
    {
      hide SearchOk, Forward, ChainsOk, Unique, Ordered, IsLeast, SumTotals, Known, Settled;
      ghost var q := Quest(world, start, end, endPos);
      ghost var ns, h := pool.nodes[..], queue.Items();
      SearchIsOrdered(world, start, end, endPos, ns, at, pool.count, now, h, lost0, except);
      var best := queue.Pop(pool.nodes);
      LeastIsNode(best, h, ns);
      LeastOfOpen(q, Forest(ns, at, pool.count, now), h, lost0, except, best);
      Popped(q, Forest(ns, at, pool.count, now), h, lost0, except, queue.Items(), best);
      pool.nodes[best] := pool.nodes[best].(open := false, closed := true);
      ghost var ms := pool.nodes[..];
      assert ms == ns[best := ns[best].(open := false, closed := true)];
      IdsKept(ns, ms, pool.count);
      KnownAfterPop(q, startPos, ns, pool.count, ways, near0, nearCost0, best);
      if !lost0 {
        SettledAfterPop(q, startPos, ns, pool.count, ways, near0, nearCost0, best, except);
      }
      if pool.nodes[best].id == end {
        KnownAtGoal(q, startPos, ms, pool.count, ways, near0, nearCost0, best);
        near, nearCost, lost, found, at', now', except', ways' :=
          best, nearCost0, lost0, true, at, now, best, ways;
        return;
      }
      ghost var count, g := pool.count, queue.Items();
      near, nearCost, lost, at', now', ways' :=
        Expand(start, startPos, end, endPos, best, near0, nearCost0, at, now, lost0, ways);
      ForwardIs(ms, count, pool.nodes[..], pool.count);
      found, except' := false, NULL_IDX;
    }

    /** The path of the node nearest to the goal. */
    method Finish(start: Ref, ghost startPos: Pos, end: Ref, endPos: Pos, near: nat, maxPath: nat, lost: bool,
                  ghost found: bool, ghost at: seq<nat>, ghost now: nat, ghost except: nat, ghost ways: seq<seq<nat>>,
                  ghost nearCost: nat)
      returns (status: Status, path: seq<Ref>)
      requires Valid() && near < pool.count && maxPath > 0 && start != end
      requires SearchOk(Quest(world, start, end, endPos), Forest(pool.nodes[..], at, pool.count, now), queue.Items(),
                        lost, except)
      requires Known(Quest(world, start, end, endPos), startPos, pool.nodes[..], pool.count, ways, near, nearCost)
      requires !lost ==> Settled(Quest(world, start, end, endPos), pool.nodes[..], pool.count, except)
      requires if found then
                 && pool.nodes[near].id == end && except == near
                 && forall i | 0 <= i < pool.count && pool.nodes[i].open ::
                     pool.nodes[near].total <= pool.nodes[i].total
               else queue.size == 0 && pool.count <= except
      modifies pool.nodes
      ensures Valid() && status.success
      ensures PathOk(Quest(world, start, end, endPos), startPos, pool.nodes[..pool.count], maxPath, status, path)
    {
      hide SearchOk, ChainsOk, Unique, IsChain, Turned, Walk, Reachable, Known, Settled, OnlyParents, Told, Heuristic;
      ghost var q := Quest(world, start, end, endPos);
      ghost var ns, h := pool.nodes[..], queue.Items();
      ghost var c := PathOf(q, Forest(ns, at, pool.count, now), h, lost, except, near);
      ghost var p := PathIds(ns, c);
      MetNode(q, Forest(ns, at, pool.count, now), h, lost, except, near);
      if found {
        ReachedBy(world, start, end, p);
      } else {
        assert h == [];
        AllClosed(q, Forest(ns, at, pool.count, now), h, lost, except);
        AllMet(q, Forest(ns, at, pool.count, now), h, lost, except);
        NoneOpen(q, Forest(ns, at, pool.count, now), h, lost, except);
        if !lost {
          RanDry(q, Forest(ns, at, pool.count, now), h, except);
        }
      }
      RootHasNoParent(world, start, end, endPos, ns, at, pool.count, now, h, lost, except);
      ChainEnds(ns, pool.count, c, near);
      status := Status(true, pool.nodes[near].id != end, lost, false);
      var head := Reverse(near, c);
      AllTold(q, startPos, ns, pool.count, ways, near, nearCost, pool.nodes[..], lost, except);
      assert pool.nodes[..][..pool.count] == pool.nodes[..pool.count];
      var tooSmall;
      path, tooSmall := Store(head, maxPath, ns, c);
      status := status.(bufferTooSmall := tooSmall);
    }

    /** `findPath` after its arguments were checked and pool and open list emptied. */
    method Search(start: Ref, end: Ref, startPos: Pos, endPos: Pos, maxPath: nat)
      returns (status: Status, path: seq<Ref>)
      requires Valid() && pool.count == 0 && queue.size == 0 && start != end && maxPath > 0
      modifies pool, pool.nodes, pool.first, pool.next, queue, queue.heap
      ensures Valid() && status.success
      ensures PathOk(Quest(world, start, end, endPos), startPos, pool.nodes[..pool.count], maxPath, status, path)
    {
      hide SearchOk, ChainsOk, Unique, SumTotals, PathOk, Known, Settled;
      PlaceStart(start, end, startPos, endPos);
      ghost var at, now, except, ways := seq(pool.maxNodes, _ => 0), 1, pool.maxNodes, seq(pool.maxNodes, _ => [0]);
      var near: nat, nearCost: nat, lost, found := 0, pool.nodes[0].total, false, false;
      while queue.size > 0
        invariant Valid() && near < pool.count && !found && pool.count <= except
        invariant SearchOk(Quest(world, start, end, endPos), Forest(pool.nodes[..], at, pool.count, now),
                           queue.Items(), lost, except)
        invariant Known(Quest(world, start, end, endPos), startPos, pool.nodes[..], pool.count, ways, near, nearCost)
        invariant !lost ==> Settled(Quest(world, start, end, endPos), pool.nodes[..], pool.count, except)
        decreases pool.maxNodes - pool.count, SumTotals(pool.nodes[..], pool.count), queue.size
      {
        near, nearCost, lost, found, at, now, except, ways :=
          ExpandBest(start, startPos, end, endPos, near, nearCost, at, now, lost, except, ways);
        if found {
          break;
        }
      }
      status, path := Finish(start, startPos, end, endPos, near, maxPath, lost, found, at, now, except, ways,
                             if found then 0 else nearCost);
    }

    /** `findPath`. On success the polygons returned begin a walk from `start` whose later polygons may all be
        entered; the walk ends at `end` unless the result is partial; a result is partial exactly when `end` cannot be
        reached, as long as no node was refused. A partial walk ends with the polygon nearest to `endPos` of all that
        were met, which then are all that can be reached; any other has found the goal at a cost that no open node can
        undercut. Costs are prices of walks, and no followed link would lower one. */
    method FindPath(start: Ref, end: Ref, startPos: Pos, endPos: Pos, maxPath: nat)
      returns (status: Status, path: seq<Ref>)
      requires Valid()
      modifies pool, pool.nodes, pool.first, pool.next, queue, queue.heap
      ensures Valid()
      ensures !status.success <==> start == 0 || end == 0 || maxPath == 0 || !world.valid(start) || !world.valid(end)
      ensures !status.success ==> path == [] && status == FAILURE
      ensures status.success ==>
        PathOk(Quest(world, start, end, endPos), startPos, pool.nodes[..pool.count], maxPath, status, path)
    {
      path := [];
      if start == 0 || end == 0 {
        return FAILURE, [];
      }
      if maxPath == 0 {
        return FAILURE, [];
      }
      if !world.valid(start) || !world.valid(end) {
        return FAILURE, [];
      }
      if start == end {
        TrivialPath(world, start, endPos, startPos, pool.nodes[..pool.count], maxPath);
        return SUCCESS, [start];
      }
      pool.Clear();
      queue.Clear();
      status, path := Search(start, end, startPos, endPos, maxPath);
    }
  }
}
