/** What the nodes of a path search mean: where each one lies, what its cost is the price of, that no link which was
    followed would make a node cheaper, and which node is nearest to the goal. */
module NavCosts {
  import opened NavNode
  import opened NavFindPath

  /** The part of a polygon's node that a link selects: 0 inside a tile, half the side across a border. */
  function StateOf(link: Link): nat {
    if link.side != 0xff then link.side / 2 else 0
  }

  /** The price of going from one node to the next, when polygon `before` lies before the first; at the goal the way to
      the end position is added. */
  function StepPrice(q: Quest, from: Node, to: Node, before: Ref): nat {
    q.w.step(from.pos, to.pos, before, from.id, to.id)
    + if to.id == q.end then q.w.step(to.pos, q.endPos, from.id, to.id, 0) else 0
  }

  /** The price of a way, given as indices of nodes. */
  ghost function WayPrice(q: Quest, ns: seq<Node>, way: seq<nat>): nat
    requires forall k | 0 <= k < |way| :: way[k] < |ns|
    decreases |way|
  {
    var n := |way|;
    if n < 2 then 0
    else WayPrice(q, ns, way[..n - 1])
         + StepPrice(q, ns[way[n - 2]], ns[way[n - 1]], if n == 2 then 0 else ns[way[n - 3]].id)
  }

  /** The polygon a node was reached from, 0 for the start. */
  function ParentRef(ns: seq<Node>, i: nat): Ref
    requires i < |ns|
  {
    if 0 < ns[i].pidx <= |ns| then ns[ns[i].pidx - 1].id else 0
  }

  // ---------------------------------------------------------------- the invariants

  ghost predicate PlacedAt(w: World, n: Node) {
    exists from :: Edge(w, from, n.id) && n.pos == w.mid(from, n.id)
  }

  /** The start lies at the start position, every other node where a link into its polygon crosses. */
  ghost predicate Placed(q: Quest, startPos: Pos, ns: seq<Node>, count: nat) {
    && 0 < count <= |ns| && ns[0].id == q.start && ns[0].pos == startPos
    && forall i | 0 < i < count :: PlacedAt(q.w, ns[i])
  }

  /** `way` leads from the start over links to node `i`, and its price is the cost of the node. */
  ghost predicate PricedBy(q: Quest, ns: seq<Node>, count: nat, way: seq<nat>, i: nat)
    requires i < count <= |ns|
  {
    && way != [] && way[0] == 0 && way[|way| - 1] == i && (forall k | 0 <= k < |way| :: way[k] < count)
    && (forall k | 0 < k < |way| :: Edge(q.w, ns[way[k - 1]].id, ns[way[k]].id))
    && ns[i].cost == WayPrice(q, ns, way)
  }

  /** And it goes by the node's parent. */
  ghost predicate WayOk(q: Quest, ns: seq<Node>, count: nat, way: seq<nat>, i: nat)
    requires i < count <= |ns|
  {
    && PricedBy(q, ns, count, way, i)
    && (if i == 0 then |way| == 1 && ns[i].pidx == 0 else |way| > 1 && ns[i].pidx == way[|way| - 2] + 1)
  }

  ghost predicate Priced(q: Quest, ns: seq<Node>, count: nat, ways: seq<seq<nat>>) {
    && count <= |ns| == |ways|
    && forall i | 0 <= i < count :: WayOk(q, ns, count, ways[i], i)
  }

  /** The link leads nowhere new from node `u`, which was reached from `before`, or to a node that it cannot make
      cheaper. */
  ghost predicate Relaxed1(q: Quest, ns: seq<Node>, count: nat, u: Node, before: Ref, link: Link)
    requires count <= |ns|
  {
    link.ref != 0 && link.ref != before && q.w.passes(link.ref) ==>
      exists m | 0 <= m < count ::
        && ns[m].id == link.ref && ns[m].state == StateOf(link)
        && ns[m].cost <= u.cost + StepPrice(q, u, ns[m], before)
  }

  ghost predicate RelaxedUpTo(q: Quest, ns: seq<Node>, count: nat, u: Node, before: Ref, upTo: nat)
    requires count <= |ns|
  {
    forall k | 0 <= k < Least(upTo, |q.w.links(u.id)|) :: Relaxed1(q, ns, count, u, before, q.w.links(u.id)[k])
  }

  /** No link of a closed node other than `except` would make another node cheaper. */
  ghost predicate Settled(q: Quest, ns: seq<Node>, count: nat, except: nat)
    requires count <= |ns|
  {
    forall i | 0 <= i < count && i != except && ns[i].closed ::
      RelaxedUpTo(q, ns, count, ns[i], ParentRef(ns, i), |q.w.links(ns[i].id)|)
  }

  /** `near` is `cost` away from the goal, and no node is nearer. */
  ghost predicate Nearest(q: Quest, ns: seq<Node>, count: nat, near: nat, cost: nat) {
    && near < count <= |ns| && cost == Heuristic(q.w, q.end, q.endPos, ns[near])
    && forall i | 0 <= i < count :: cost <= Heuristic(q.w, q.end, q.endPos, ns[i])
  }

  // ---------------------------------------------------------------- one link

  /** What following `link` from node `best` does to the nodes: nothing, since it leads nowhere new or makes nothing
      cheaper; or node `n` is reached more cheaply, or for the first time. */
  ghost predicate Stepped(q: Quest, ns: seq<Node>, count: nat, ms: seq<Node>, more: nat, best: nat, link: Link, n: nat,
                          lost: bool) {
    && best < count <= |ns| == |ms| && count <= more <= |ms|
    && (n >= more ==> ms == ns && more == count
                      && (!lost ==> Relaxed1(q, ns, count, ns[best], ParentRef(ns, best), link)))
    && (n < more ==>
          && n != best && n != 0 && (more == count || (n == count && more == count + 1))
          && ms == ns[n := ms[n]] && ms[n].id == link.ref && ms[n].state == StateOf(link)
          && (n < count ==> ns[n].id == link.ref && ns[n].state == ms[n].state && ms[n].pos == ns[n].pos
                            && ms[n].cost < ns[n].cost)
          && (n == count ==> ms[n].pos == q.w.mid(ns[best].id, link.ref))
          && ms[n].pidx == best + 1 && !ms[n].closed && Edge(q.w, ns[best].id, link.ref)
          && ms[n].cost == ns[best].cost + StepPrice(q, ns[best], ms[n], ParentRef(ns, best)))
  }

  lemma SamePrice(q: Quest, u: Node, a: Node, b: Node, before: Ref)
    requires a.id == b.id && a.pos == b.pos
    ensures StepPrice(q, u, a, before) == StepPrice(q, u, b, before)
  {
  }

  /** A link to a node whose total is no higher already makes nothing cheaper. */
  lemma NotCheaper(q: Quest, f: Forest, h: seq<nat>, lost: bool, best: nat, m: nat, cost: nat, link: Link)
    requires SearchOk(q, f, h, lost, best) && best < f.count && m < f.count
    requires f.ns[m].id == link.ref && f.ns[m].state == StateOf(link)
    requires cost == f.ns[best].cost + StepPrice(q, f.ns[best], f.ns[m], ParentRef(f.ns, best))
    requires cost + Heuristic(q.w, q.end, q.endPos, f.ns[m]) >= f.ns[m].total
    ensures Relaxed1(q, f.ns, f.count, f.ns[best], ParentRef(f.ns, best), link)
  {
    hide StepPrice, ParentRef;
    MetNode(q, f, h, lost, best, m);
  }

  lemma NoStep(q: Quest, ns: seq<Node>, count: nat, best: nat, link: Link, lost: bool)
    requires best < count <= |ns|
    requires lost || Relaxed1(q, ns, count, ns[best], ParentRef(ns, best), link)
             || link.ref == 0 || link.ref == ParentRef(ns, best) || !q.w.passes(link.ref)
    ensures forall n | n >= count :: Stepped(q, ns, count, ns, count, best, link, n, lost)
  {
    hide Edge, StepPrice, ParentRef;
  }

  /** A node with a new parent; `mid` is the pool with the node of the polygon in it. */
  lemma ImprovedIsStep(q: Quest, ns: seq<Node>, count: nat, mid: seq<Node>, more: nat, best: nat, link: Link, m: nat,
                       cost: nat, total: nat, lost: bool)
    requires best < count <= |ns| == |mid| && m < |mid| && m != 0 && m != best && more <= |mid|
    requires more == if m < count then count else count + 1
    requires Edge(q.w, ns[best].id, link.ref) && mid[m].id == link.ref && mid[m].state == StateOf(link)
    requires m < count ==> mid == ns && cost < ns[m].cost
    requires m >= count ==> m == count && mid == ns[m := mid[m]] && mid[m].pos == q.w.mid(ns[best].id, link.ref)
    requires cost == ns[best].cost + StepPrice(q, ns[best], mid[m], ParentRef(ns, best))
    ensures var ms := Relaxed(mid, m, best, mid[m].pos, cost, total);
            && Stepped(q, ns, count, ms, more, best, link, m, lost)
            && Heuristic(q.w, q.end, q.endPos, ms[m]) == Heuristic(q.w, q.end, q.endPos, mid[m])
  {
    var ms := Relaxed(mid, m, best, mid[m].pos, cost, total);
    SamePrice(q, ns[best], mid[m], ms[m], ParentRef(ns, best));
    hide Edge, StepPrice, ParentRef, Relaxed1;
  }

  /** Nodes keep their places and never get dearer. */
  ghost predicate Better(ns: seq<Node>, count: nat, ms: seq<Node>, more: nat) {
    && count <= |ns| && count <= more <= |ms|
    && forall i | 0 <= i < count ::
         ms[i].id == ns[i].id && ms[i].state == ns[i].state && ms[i].pos == ns[i].pos && ms[i].cost <= ns[i].cost
  }

  lemma SteppedBetter(q: Quest, ns: seq<Node>, count: nat, ms: seq<Node>, more: nat, best: nat, link: Link, n: nat,
                      lost: bool)
    requires Stepped(q, ns, count, ms, more, best, link, n, lost)
    ensures Better(ns, count, ms, more)
  {
    hide Edge, StepPrice, Relaxed1;
  }

  lemma PlacedStays(q: Quest, startPos: Pos, ns: seq<Node>, count: nat, ms: seq<Node>, more: nat, best: nat,
                    link: Link, n: nat, lost: bool)
    requires Placed(q, startPos, ns, count) && Stepped(q, ns, count, ms, more, best, link, n, lost)
    ensures Placed(q, startPos, ms, more)
  {
    SteppedBetter(q, ns, count, ms, more, best, link, n, lost);
    hide Edge, StepPrice, Relaxed1;
    forall i | 0 < i < more ensures PlacedAt(q.w, ms[i]) {
      if i < count {
        assert PlacedAt(q.w, ns[i]);
        var from :| Edge(q.w, from, ns[i].id) && ns[i].pos == q.w.mid(from, ns[i].id);
        assert Edge(q.w, from, ms[i].id) && ms[i].pos == q.w.mid(from, ms[i].id);
      } else {
        assert Edge(q.w, ns[best].id, ms[i].id) && ms[i].pos == q.w.mid(ns[best].id, ms[i].id);
      }
    }
  }

  lemma NearestStays(q: Quest, ns: seq<Node>, count: nat, ms: seq<Node>, more: nat, best: nat, link: Link, n: nat,
                     lost: bool, near: nat, cost: nat)
    requires Nearest(q, ns, count, near, cost) && Stepped(q, ns, count, ms, more, best, link, n, lost)
    ensures n >= more ==> Nearest(q, ms, more, near, cost)
    ensures n < more ==>
              var h := Heuristic(q.w, q.end, q.endPos, ms[n]);
              Nearest(q, ms, more, if h < cost then n else near, if h < cost then h else cost)
  {
    SteppedBetter(q, ns, count, ms, more, best, link, n, lost);
    hide Edge, StepPrice, Relaxed1;
  }

  lemma {:induction false} PriceStays(q: Quest, ns: seq<Node>, count: nat, ms: seq<Node>, more: nat, way: seq<nat>)
    requires Better(ns, count, ms, more) && forall k | 0 <= k < |way| :: way[k] < count
    ensures WayPrice(q, ms, way) == WayPrice(q, ns, way)
    decreases |way|
  {
    if |way| >= 2 {
      PriceStays(q, ns, count, ms, more, way[..|way| - 1]);
    }
  }

  lemma WayStays(q: Quest, ns: seq<Node>, count: nat, ms: seq<Node>, more: nat, way: seq<nat>, i: nat)
    requires i < count && Better(ns, count, ms, more) && WayOk(q, ns, count, way, i)
    requires ms[i].cost == ns[i].cost && ms[i].pidx == ns[i].pidx
    ensures WayOk(q, ms, more, way, i)
  {
    hide Edge, WayPrice;
    PriceStays(q, ns, count, ms, more, way);
    forall k | 0 < k < |way| ensures Edge(q.w, ms[way[k - 1]].id, ms[way[k]].id) {
      assert Edge(q.w, ns[way[k - 1]].id, ns[way[k]].id);
    }
  }

  /** The way to a node that was reached from `best`. */
  lemma WayLonger(q: Quest, ns: seq<Node>, count: nat, ms: seq<Node>, more: nat, best: nat, link: Link, n: nat,
                  lost: bool, way: seq<nat>)
    requires Stepped(q, ns, count, ms, more, best, link, n, lost) && n < more && WayOk(q, ns, count, way, best)
    ensures WayOk(q, ms, more, way + [n], n)
  {
    SteppedBetter(q, ns, count, ms, more, best, link, n, lost);
    hide Edge, StepPrice, Relaxed1;
    WayStays(q, ns, count, ms, more, way, best);
    var w1 := way + [n];
    assert w1[..|w1| - 1] == way;
    forall k | 0 < k < |w1| ensures Edge(q.w, ms[w1[k - 1]].id, ms[w1[k]].id) {
      if k < |way| {
        assert Edge(q.w, ms[way[k - 1]].id, ms[way[k]].id);
      }
    }
  }

  lemma PricedStays(q: Quest, ns: seq<Node>, count: nat, ms: seq<Node>, more: nat, best: nat, link: Link, n: nat,
                    lost: bool, ways: seq<seq<nat>>)
    requires Priced(q, ns, count, ways) && Stepped(q, ns, count, ms, more, best, link, n, lost)
    ensures Priced(q, ms, more, if n < more then ways[n := ways[best] + [n]] else ways)
  {
    SteppedBetter(q, ns, count, ms, more, best, link, n, lost);
    hide Edge, StepPrice, Relaxed1, WayOk;
    var ways1 := if n < more then ways[n := ways[best] + [n]] else ways;
    forall i | 0 <= i < more ensures WayOk(q, ms, more, ways1[i], i) {
      if i == n {
        WayLonger(q, ns, count, ms, more, best, link, n, lost, ways[best]);
      } else {
        assert WayOk(q, ns, count, ways[i], i);
        WayStays(q, ns, count, ms, more, ways[i], i);
      }
    }
  }

  lemma RelaxedStays(q: Quest, ns: seq<Node>, count: nat, ms: seq<Node>, more: nat, u: Node, before: Ref, upTo: nat)
    requires Better(ns, count, ms, more) && RelaxedUpTo(q, ns, count, u, before, upTo)
    ensures RelaxedUpTo(q, ms, more, u, before, upTo)
  {
    hide StepPrice;
    forall k | 0 <= k < Least(upTo, |q.w.links(u.id)|) ensures Relaxed1(q, ms, more, u, before, q.w.links(u.id)[k]) {
      var link := q.w.links(u.id)[k];
      assert Relaxed1(q, ns, count, u, before, link);
      if link.ref != 0 && link.ref != before && q.w.passes(link.ref) {
        var m :| 0 <= m < count && ns[m].id == link.ref && ns[m].state == StateOf(link)
                 && ns[m].cost <= u.cost + StepPrice(q, u, ns[m], before);
        SamePrice(q, u, ns[m], ms[m], before);
      }
    }
  }

  /** The parent of a node stays where it is. */
  lemma ParentStays(q: Quest, ns: seq<Node>, count: nat, ms: seq<Node>, more: nat, ways: seq<seq<nat>>, i: nat)
    requires Priced(q, ns, count, ways) && Better(ns, count, ms, more) && |ms| == |ns|
    requires i < count && ms[i].pidx == ns[i].pidx
    ensures ParentRef(ms, i) == ParentRef(ns, i)
    ensures ParentRef(ns, i) == 0 || Edge(q.w, ParentRef(ns, i), ns[i].id)
  {
    hide Edge, WayPrice;
    assert WayOk(q, ns, count, ways[i], i);
    if i != 0 {
      var way := ways[i];
      assert Edge(q.w, ns[way[|way| - 2]].id, ns[way[|way| - 1]].id);
    }
  }

  lemma LinkRelaxed(q: Quest, ns: seq<Node>, count: nat, ms: seq<Node>, more: nat, best: nat, link: Link, n: nat)
    requires Stepped(q, ns, count, ms, more, best, link, n, false)
    ensures Relaxed1(q, ms, more, ms[best], ParentRef(ns, best), link)
  {
    hide Edge, StepPrice;
    if n < more {
      assert ms[n].cost <= ms[best].cost + StepPrice(q, ms[best], ms[n], ParentRef(ns, best));
    }
  }

  lemma OneMoreRelaxed(q: Quest, ns: seq<Node>, count: nat, u: Node, before: Ref, k: nat)
    requires count <= |ns| && k < |q.w.links(u.id)| && RelaxedUpTo(q, ns, count, u, before, k)
    requires Relaxed1(q, ns, count, u, before, q.w.links(u.id)[k])
    ensures RelaxedUpTo(q, ns, count, u, before, k + 1)
  {
    hide Relaxed1;
  }

  /** What is settled stays so, and one link more of the expanded node is. */
  lemma SettledStays(q: Quest, ns: seq<Node>, count: nat, ms: seq<Node>, more: nat, best: nat, k: nat, n: nat,
                     ways: seq<seq<nat>>)
    requires Priced(q, ns, count, ways) && best < count && k < |q.w.links(ns[best].id)|
    requires Stepped(q, ns, count, ms, more, best, q.w.links(ns[best].id)[k], n, false)
    requires Settled(q, ns, count, best) && RelaxedUpTo(q, ns, count, ns[best], ParentRef(ns, best), k)
    ensures Settled(q, ms, more, best) && RelaxedUpTo(q, ms, more, ms[best], ParentRef(ms, best), k + 1)
  {
    var link := q.w.links(ns[best].id)[k];
    SteppedBetter(q, ns, count, ms, more, best, link, n, false);
    LinkRelaxed(q, ns, count, ms, more, best, link, n);
    hide Edge, StepPrice, Relaxed1, ParentRef, Priced;
    ParentStays(q, ns, count, ms, more, ways, best);
    RelaxedStays(q, ns, count, ms, more, ns[best], ParentRef(ns, best), k);
    hide RelaxedUpTo;
    forall i | 0 <= i < more && i != best && ms[i].closed
      ensures RelaxedUpTo(q, ms, more, ms[i], ParentRef(ms, i), |q.w.links(ms[i].id)|)
    {
      ParentStays(q, ns, count, ms, more, ways, i);
      RelaxedStays(q, ns, count, ms, more, ns[i], ParentRef(ns, i), |q.w.links(ns[i].id)|);
    }
    OneMoreRelaxed(q, ms, more, ms[best], ParentRef(ms, best), k);
  }

  // ---------------------------------------------------------------- the search

  /** What a search knows of its nodes; `near` is the nearest to the goal so far, `cost` away from it. */
  ghost predicate Known(q: Quest, startPos: Pos, ns: seq<Node>, count: nat, ways: seq<seq<nat>>, near: nat, cost: nat) {
    Placed(q, startPos, ns, count) && Priced(q, ns, count, ways) && Nearest(q, ns, count, near, cost)
  }

  lemma SteppedBounds(q: Quest, ns: seq<Node>, count: nat, ms: seq<Node>, more: nat, best: nat, link: Link, n: nat,
                      lost: bool)
    requires Stepped(q, ns, count, ms, more, best, link, n, lost)
    ensures best < count <= |ns| == |ms| && ms[best] == ns[best]
  {
    hide Edge, StepPrice, Relaxed1;
  }

  lemma KnownStays(q: Quest, startPos: Pos, ns: seq<Node>, count: nat, ms: seq<Node>, more: nat, best: nat, link: Link,
                   n: nat, lost: bool, ways: seq<seq<nat>>, near: nat, cost: nat)
    requires Known(q, startPos, ns, count, ways, near, cost)
    requires Stepped(q, ns, count, ms, more, best, link, n, lost)
    ensures n >= more ==> Known(q, startPos, ms, more, ways, near, cost)
    ensures n < more ==>
              var h := Heuristic(q.w, q.end, q.endPos, ms[n]);
              && best < |ways| == |ms|
              && Known(q, startPos, ms, more, ways[n := ways[best] + [n]], if h < cost then n else near,
                       if h < cost then h else cost)
  {
    hide Nearest, Stepped, Placed, WayOk, Heuristic;
    PlacedStays(q, startPos, ns, count, ms, more, best, link, n, lost);
    PricedStays(q, ns, count, ms, more, best, link, n, lost, ways);
    NearestStays(q, ns, count, ms, more, best, link, n, lost, near, cost);
    SteppedBounds(q, ns, count, ms, more, best, link, n, lost);
  }

  /** The parent of a node, read from its index. */
  lemma ParentIs(q: Quest, startPos: Pos, ns: seq<Node>, count: nat, ways: seq<seq<nat>>, near: nat, cost: nat, i: nat)
    requires Known(q, startPos, ns, count, ways, near, cost) && i < count
    ensures ns[i].pidx <= count <= |ns|
    ensures ParentRef(ns, i) == if ns[i].pidx == 0 then 0 else ns[ns[i].pidx - 1].id
  {
    assert WayOk(q, ns, count, ways[i], i);
  }

  lemma WaysLength(q: Quest, ns: seq<Node>, count: nat, ways: seq<seq<nat>>)
    requires Priced(q, ns, count, ways)
    ensures count <= |ns| == |ways|
  {
  }

  lemma BetterBounds(ns: seq<Node>, count: nat, ms: seq<Node>, more: nat)
    requires Better(ns, count, ms, more)
    ensures count <= more <= |ms|
  {
  }

  /** What one link does to all that is known. */
  lemma LinkFollowed(q: Quest, startPos: Pos, ns: seq<Node>, count: nat, ms: seq<Node>, more: nat, best: nat, k: nat,
                     n: nat, lost: bool, out: bool, ways: seq<seq<nat>>, near: nat, cost: nat)
    requires Known(q, startPos, ns, count, ways, near, cost) && best < count && k < |q.w.links(ns[best].id)|
    requires Stepped(q, ns, count, ms, more, best, q.w.links(ns[best].id)[k], n, lost || out)
    requires !lost ==> Settled(q, ns, count, best) && RelaxedUpTo(q, ns, count, ns[best], ParentRef(ns, best), k)
    ensures best < |ms| == |ways| && more <= |ms| && ParentRef(ms, best) == ParentRef(ns, best)
    ensures n >= more ==> Known(q, startPos, ms, more, ways, near, cost)
    ensures n < more ==>
              var h := Heuristic(q.w, q.end, q.endPos, ms[n]);
              Known(q, startPos, ms, more, ways[n := ways[best] + [n]], if h < cost then n else near,
                    if h < cost then h else cost)
    ensures !lost && !out ==>
              Settled(q, ms, more, best) && RelaxedUpTo(q, ms, more, ms[best], ParentRef(ms, best), k + 1)
  {
    var link := q.w.links(ns[best].id)[k];
    KnownStays(q, startPos, ns, count, ms, more, best, link, n, lost || out, ways, near, cost);
    SteppedBetter(q, ns, count, ms, more, best, link, n, lost || out);
    SteppedBounds(q, ns, count, ms, more, best, link, n, lost || out);
    hide Stepped, Settled, RelaxedUpTo, Better, ParentRef, Placed, Priced, Nearest, Heuristic;
    ParentStays(q, ns, count, ms, more, ways, best);
    WaysLength(q, ns, count, ways);
    BetterBounds(ns, count, ms, more);
    if !lost && !out {
      SettledStays(q, ns, count, ms, more, best, k, n, ways);
    }
  }

  /** Changing the flags of a node changes nothing that is known. */
  lemma KnownAfterPop(q: Quest, startPos: Pos, ns: seq<Node>, count: nat, ways: seq<seq<nat>>, near: nat, cost: nat,
                      b: nat)
    requires Known(q, startPos, ns, count, ways, near, cost) && b < count
    ensures Known(q, startPos, ns[b := ns[b].(open := false, closed := true)], count, ways, near, cost)
  {
    var ms := ns[b := ns[b].(open := false, closed := true)];
    hide Edge, WayOk;
    forall i | 0 < i < count ensures PlacedAt(q.w, ms[i]) {
      assert PlacedAt(q.w, ns[i]);
      var from :| Edge(q.w, from, ns[i].id) && ns[i].pos == q.w.mid(from, ns[i].id);
      assert Edge(q.w, from, ms[i].id) && ms[i].pos == q.w.mid(from, ms[i].id);
    }
    forall i | 0 <= i < count ensures WayOk(q, ms, count, ways[i], i) {
      assert WayOk(q, ns, count, ways[i], i);
      WayStays(q, ns, count, ms, count, ways[i], i);
    }
  }

  /** No node is nearer to the goal than the goal. */
  lemma KnownAtGoal(q: Quest, startPos: Pos, ns: seq<Node>, count: nat, ways: seq<seq<nat>>, near: nat, cost: nat,
                    b: nat)
    requires Known(q, startPos, ns, count, ways, near, cost) && b < count && ns[b].id == q.end
    ensures Known(q, startPos, ns, count, ways, b, 0)
  {
  }

  lemma NoneRelaxed(q: Quest, ns: seq<Node>, count: nat, u: Node, before: Ref)
    requires count <= |ns|
    ensures RelaxedUpTo(q, ns, count, u, before, 0)
  {
  }

  lemma SettledAfterPop(q: Quest, startPos: Pos, ns: seq<Node>, count: nat, ways: seq<seq<nat>>, near: nat, cost: nat,
                        b: nat, none: nat)
    requires Known(q, startPos, ns, count, ways, near, cost) && b < count <= none && Settled(q, ns, count, none)
    ensures var ms := ns[b := ns[b].(open := false, closed := true)];
            Settled(q, ms, count, b) && RelaxedUpTo(q, ms, count, ms[b], ParentRef(ms, b), 0)
  {
    var ms := ns[b := ns[b].(open := false, closed := true)];
    hide RelaxedUpTo, WayOk, ParentRef, Nearest;
    forall i | 0 <= i < count && i != b && ms[i].closed
      ensures RelaxedUpTo(q, ms, count, ms[i], ParentRef(ms, i), |q.w.links(ms[i].id)|)
    {
      ParentStays(q, ns, count, ms, count, ways, i);
      RelaxedStays(q, ns, count, ms, count, ns[i], ParentRef(ns, i), |q.w.links(ns[i].id)|);
    }
    NoneRelaxed(q, ms, count, ms[b], ParentRef(ms, b));
  }

  /** All links of the expanded node followed: it is settled with the others. */
  lemma AllSettled(q: Quest, ns: seq<Node>, count: nat, best: nat, none: nat)
    requires best < count <= none && count <= |ns| && Settled(q, ns, count, best)
    requires RelaxedUpTo(q, ns, count, ns[best], ParentRef(ns, best), |q.w.links(ns[best].id)|)
    ensures Settled(q, ns, count, none)
  {
  }

  lemma KnownAtStart(q: Quest, startPos: Pos, ns: seq<Node>)
    requires ns != [] && q.start != q.end && ns[0].id == q.start && ns[0].pidx == 0 && ns[0].cost == 0
    requires ns[0].pos == startPos && ns[0].open && !ns[0].closed
    ensures Known(q, startPos, ns, 1, seq(|ns|, _ => [0]), 0, q.w.dist(startPos, q.endPos))
    ensures Settled(q, ns, 1, |ns|)
  {
    var ways := seq(|ns|, _ => [0]);
    assert WayOk(q, ns, 1, ways[0], 0);
  }

  // ---------------------------------------------------------------- what is promised in the end

  ghost predicate NoneNearer(q: Quest, met: seq<Node>, pos: Pos) {
    forall j | 0 <= j < |met| :: q.w.dist(pos, q.endPos) <= q.w.dist(met[j].pos, q.endPos)
  }

  /** Of all nodes met, one of polygon `last` lies nearest to the end position. */
  ghost predicate NearestLast(q: Quest, met: seq<Node>, last: Ref) {
    exists i | 0 <= i < |met| :: met[i].id == last && NoneNearer(q, met, met[i].pos)
  }

  ghost predicate NoneCheaper(met: seq<Node>, cost: nat) {
    forall j | 0 <= j < |met| && met[j].open :: cost <= met[j].total
  }

  /** The goal was met, and its cost is at most what an open node has and has left to go. */
  ghost predicate CheapestGoal(q: Quest, met: seq<Node>) {
    exists i | 0 <= i < |met| :: met[i].id == q.end && NoneCheaper(met, met[i].cost)
  }

  /** No link of node `u` that does not lead back makes another node cheaper. */
  ghost predicate SettledBy(q: Quest, met: seq<Node>, u: Node) {
    exists before :: (before == 0 || Edge(q.w, before, u.id))
      && RelaxedUpTo(q, met, |met|, u, before, |q.w.links(u.id)|)
  }

  ghost predicate HasPrice(q: Quest, met: seq<Node>, i: nat)
    requires i < |met|
  {
    exists way :: PricedBy(q, met, |met|, way, i)
  }

  /** What the nodes met say when a search is over whose walk ends at `last`. Each lies where it should and costs what
      some walk to it costs; unless nodes were refused, links of the closed nodes make nothing cheaper. A partial
      walk ends nearest to the end position, and unless nodes were refused among all polygons that can be reached;
      another has found the goal at a cost no open node can undercut. */
  ghost predicate Told(q: Quest, startPos: Pos, met: seq<Node>, partial: bool, lost: bool, last: Ref) {
    && Placed(q, startPos, met, |met|)
    && (forall i | 0 <= i < |met| :: HasPrice(q, met, i))
    && (!lost ==> forall i | 0 <= i < |met| && met[i].closed && met[i].id != q.end :: SettledBy(q, met, met[i]))
    && (partial ==> NearestLast(q, met, last) && forall i | 0 <= i < |met| :: met[i].closed)
    && (partial && !lost ==> forall r | Reachable(q.w, q.start, r) :: HasNode(met, |met|, r))
    && (!partial ==> CheapestGoal(q, met))
  }

  /** Only parents differ. */
  predicate OnlyParents(ns: seq<Node>, ms: seq<Node>) {
    |ms| == |ns| && forall i | 0 <= i < |ns| :: ms[i] == ns[i].(pidx := ms[i].pidx)
  }

  lemma NoneTurned(ns: seq<Node>)
    ensures OnlyParents(ns, ns)
  {
  }

  lemma OneTurned(ns: seq<Node>, ms: seq<Node>, i: nat, parent: nat)
    requires OnlyParents(ns, ms) && i < |ms|
    ensures OnlyParents(ns, ms[i := ms[i].(pidx := parent)])
  {
  }

  lemma OnlyParentsBetter(ns: seq<Node>, ms: seq<Node>, count: nat)
    requires OnlyParents(ns, ms) && count <= |ns|
    ensures Better(ns, count, ms[..count], count)
    ensures forall i | 0 <= i < count :: ms[..count][i] == ns[i].(pidx := ms[i].pidx)
  {
  }

  lemma PricesTold(q: Quest, startPos: Pos, ns: seq<Node>, count: nat, ways: seq<seq<nat>>, near: nat, cost: nat,
                   ms: seq<Node>)
    requires Known(q, startPos, ns, count, ways, near, cost) && OnlyParents(ns, ms)
    ensures var met := ms[..count]; Placed(q, startPos, met, count) && forall i | 0 <= i < count :: HasPrice(q, met, i)
  {
    var met := ms[..count];
    OnlyParentsBetter(ns, ms, count);
    hide OnlyParents, Edge, Nearest, WayPrice;
    forall i | 0 < i < count ensures PlacedAt(q.w, met[i]) {
      assert PlacedAt(q.w, ns[i]);
      var from :| Edge(q.w, from, ns[i].id) && ns[i].pos == q.w.mid(from, ns[i].id);
      assert Edge(q.w, from, met[i].id) && met[i].pos == q.w.mid(from, met[i].id);
    }
    forall i | 0 <= i < count ensures HasPrice(q, met, i) {
      var way := ways[i];
      assert WayOk(q, ns, count, way, i);
      PriceStays(q, ns, count, met, count, way);
      forall k | 0 < k < |way| ensures Edge(q.w, met[way[k - 1]].id, met[way[k]].id) {
        assert Edge(q.w, ns[way[k - 1]].id, ns[way[k]].id);
      }
      assert PricedBy(q, met, |met|, way, i);
    }
  }

  /** The parent index of a node does not matter to its links. */
  lemma SameNode(q: Quest, met: seq<Node>, u: Node, v: Node, before: Ref)
    requires v == u.(pidx := v.pidx)
    requires RelaxedUpTo(q, met, |met|, u, before, |q.w.links(u.id)|)
    ensures RelaxedUpTo(q, met, |met|, v, before, |q.w.links(v.id)|)
  {
    forall k | 0 <= k < |q.w.links(v.id)| ensures Relaxed1(q, met, |met|, v, before, q.w.links(v.id)[k]) {
      assert Relaxed1(q, met, |met|, u, before, q.w.links(u.id)[k]);
    }
  }

  lemma SettledTold(q: Quest, startPos: Pos, ns: seq<Node>, count: nat, ways: seq<seq<nat>>, near: nat, cost: nat,
                    ms: seq<Node>, except: nat, i: nat)
    requires Known(q, startPos, ns, count, ways, near, cost) && OnlyParents(ns, ms) && Settled(q, ns, count, except)
    requires i < count && i != except && ns[i].closed
    ensures SettledBy(q, ms[..count], ms[i])
  {
    var met, before := ms[..count], ParentRef(ns, i);
    OnlyParentsBetter(ns, ms, count);
    hide Edge, ParentRef, Nearest, Placed, StepPrice, WayOk;
    ParentStays(q, ns, count, ns, count, ways, i);
    RelaxedStays(q, ns, count, met, count, ns[i], before, |q.w.links(ns[i].id)|);
    SameNode(q, met, ns[i], ms[i], before);
  }

  lemma NearestTold(q: Quest, ns: seq<Node>, count: nat, near: nat, cost: nat, ms: seq<Node>)
    requires Nearest(q, ns, count, near, cost) && OnlyParents(ns, ms) && ns[near].id != q.end
    ensures NearestLast(q, ms[..count], ns[near].id)
  {
    var met := ms[..count];
    OnlyParentsBetter(ns, ms, count);
    hide OnlyParents;
    assert met[near].id == ns[near].id && met[near].pos == ns[near].pos;
    forall j | 0 <= j < |met| ensures q.w.dist(met[near].pos, q.endPos) <= q.w.dist(met[j].pos, q.endPos) {
      assert cost <= Heuristic(q.w, q.end, q.endPos, ns[j]);
    }
  }

  /** What was known all along is what is told in the end. */
  lemma AllTold(q: Quest, startPos: Pos, ns: seq<Node>, count: nat, ways: seq<seq<nat>>, near: nat, cost: nat,
                ms: seq<Node>, lost: bool, except: nat)
    requires Known(q, startPos, ns, count, ways, near, cost) && OnlyParents(ns, ms)
    requires !lost ==> Settled(q, ns, count, except) && (except < count ==> ns[except].id == q.end)
    requires ns[near].id != q.end ==> forall i | 0 <= i < count :: ns[i].closed
    requires ns[near].id != q.end && !lost ==> forall r | Reachable(q.w, q.start, r) :: HasNode(ns, count, r)
    requires ns[near].id == q.end ==> forall i | 0 <= i < count && ns[i].open :: ns[near].cost <= ns[i].total
    ensures Told(q, startPos, ms[..count], ns[near].id != q.end, lost, ns[near].id)
  {
    var met := ms[..count];
    PricesTold(q, startPos, ns, count, ways, near, cost, ms);
    OnlyParentsBetter(ns, ms, count);
    if !lost {
      forall i | 0 <= i < |met| && met[i].closed && met[i].id != q.end ensures SettledBy(q, met, met[i]) {
        SettledTold(q, startPos, ns, count, ways, near, cost, ms, except, i);
      }
    }
    hide OnlyParents, Placed, Priced, Settled, SettledBy, HasPrice, Edge, Reachable;
    if ns[near].id != q.end {
      NearestTold(q, ns, count, near, cost, ms);
      if !lost {
        forall r | Reachable(q.w, q.start, r) ensures HasNode(met, |met|, r) {
          var j :| 0 <= j < count && ns[j].id == r;
          assert met[j].id == r;
        }
      }
    } else {
      assert met[near].id == q.end && met[near].cost == ns[near].cost;
      assert NoneCheaper(met, met[near].cost);
    }
  }
}
