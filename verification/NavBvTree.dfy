/** The bounding-volume tree of a navigation tile: built in place by `subdivide`, flattened with escape
    offsets, and walked by `queryPolygonsInTile`. */
module NavBvTree {
  import opened Basics
  import opened LittleEndian

  datatype Vec = Vec(x: U16, y: U16, z: U16)

  datatype Box = Box(lo: Vec, hi: Vec)

  datatype Item = Item(box: Box, i: nat)

  /** `dtBVNode`: a polygon when `i` is not negative, otherwise an inner node of `-i` nodes in all. */
  datatype BvNode = BvNode(box: Box, i: int)

  /** What tile data is cleared to before the tree is built. */
  const ZERO_NODE := BvNode(Box(Vec(0, 0, 0), Vec(0, 0, 0)), 0)

  /** `dtOverlapQuantBounds`. */
  predicate Overlap(a: Box, b: Box) {
    && !(a.lo.x > b.hi.x || a.hi.x < b.lo.x)
    && !(a.lo.y > b.hi.y || a.hi.y < b.lo.y)
    && !(a.lo.z > b.hi.z || a.hi.z < b.lo.z)
  }

  function Min(a: U16, b: U16): U16 { if b < a then b else a }
  function Max(a: U16, b: U16): U16 { if b > a then b else a }

  /** No coordinate of the lower corner lies above that of the upper one. */
  predicate Proper(b: Box) {
    b.lo.x <= b.hi.x && b.lo.y <= b.hi.y && b.lo.z <= b.hi.z
  }

  predicate Inside(p: Vec, b: Box) {
    b.lo.x <= p.x <= b.hi.x && b.lo.y <= p.y <= b.hi.y && b.lo.z <= p.z <= b.hi.z
  }

  /** Some point lies in both boxes. */
  ghost predicate SharePoint(a: Box, b: Box) {
    exists p :: Inside(p, a) && Inside(p, b)
  }

  /** The test is exact, borders included. */
  lemma OverlapIff(a: Box, b: Box)
    requires Proper(a) && Proper(b)
    ensures Overlap(a, b) <==> SharePoint(a, b)
  {
    if Overlap(a, b) {
      var p := Vec(Max(a.lo.x, b.lo.x), Max(a.lo.y, b.lo.y), Max(a.lo.z, b.lo.z));
      assert Inside(p, a) && Inside(p, b);
    }
  }

  predicate Covers(a: Box, b: Box) {
    && a.lo.x <= b.lo.x && a.lo.y <= b.lo.y && a.lo.z <= b.lo.z
    && b.hi.x <= a.hi.x && b.hi.y <= a.hi.y && b.hi.z <= a.hi.z
  }

  lemma CoveredOverlaps(a: Box, b: Box, q: Box)
    requires Covers(a, b) && Overlap(q, b)
    ensures Overlap(q, a)
  {
  }

  function Join(a: Box, b: Box): (c: Box)
    ensures Covers(c, a) && Covers(c, b)
  {
    Box(Vec(Min(a.lo.x, b.lo.x), Min(a.lo.y, b.lo.y), Min(a.lo.z, b.lo.z)),
        Vec(Max(a.hi.x, b.hi.x), Max(a.hi.y, b.hi.y), Max(a.hi.z, b.hi.z)))
  }

  /** The box of a run of items. */
  function Extends(s: seq<Item>): (c: Box)
    requires s != []
    ensures forall i | 0 <= i < |s| :: Covers(c, s[i].box)
  {
    if |s| == 1 then s[0].box else Join(Extends(s[..|s| - 1]), s[|s| - 1].box)
  }

  /** It is the smallest box around them. */
  lemma {:induction false} ExtendsLeast(s: seq<Item>, c: Box)
    requires s != [] && forall i | 0 <= i < |s| :: Covers(c, s[i].box)
    ensures Covers(c, Extends(s))
    decreases |s|
  {
    if |s| > 1 {
      ExtendsLeast(s[..|s| - 1], c);
      assert Covers(c, s[|s| - 1].box);
    }
  }

  /** `longestAxis` of the box; the sizes are 16-bit differences. */
  function LongestAxis(b: Box): nat {
    var x, y, z := (b.hi.x - b.lo.x) % 0x1_0000, (b.hi.y - b.lo.y) % 0x1_0000, (b.hi.z - b.lo.z) % 0x1_0000;
    if z > (if y > x then y else x) then 2 else if y > x then 1 else 0
  }

  /** The coordinate of `v` along an axis. */
  function Along(v: Vec, axis: nat): U16 {
    if axis == 0 then v.x else if axis == 1 then v.y else v.z
  }

  lemma LongestIs(b: Box, axis: nat)
    requires Proper(b) && axis < 3
    ensures LongestAxis(b) < 3
    ensures Along(b.hi, axis) - Along(b.lo, axis) <= Along(b.hi, LongestAxis(b)) - Along(b.lo, LongestAxis(b))
  {
  }

  /** `qsort` along an axis: some rearrangement of the items. */
  type Sorter = (seq<Item>, nat) -> seq<Item>

  ghost predicate Permutes(sorter: Sorter) {
    forall s, axis {:trigger sorter(s, axis)} :: multiset(sorter(s, axis)) == multiset(s)
  }

  lemma SortedLength(sorter: Sorter, s: seq<Item>, axis: nat)
    requires Permutes(sorter)
    ensures |sorter(s, axis)| == |s|
  {
    assert |multiset(sorter(s, axis))| == |multiset(s)|;
  }

  // ---------------------------------------------------------------- trees and their flattening

  datatype Tree = Leaf(item: Item) | Fork(box: Box, left: Tree, right: Tree)

  function Leaves(t: Tree): seq<Item> {
    match t
    case Leaf(item) => [item]
    case Fork(_, l, r) => Leaves(l) + Leaves(r)
  }

  /** An inner node in front of its flattened subtrees. */
  function ForkNodes(box: Box, l: seq<BvNode>, r: seq<BvNode>): (f: seq<BvNode>)
    ensures |f| == 1 + |l| + |r|
  {
    [BvNode(box, -(1 + |l| + |r|))] + l + r
  }

  function Flatten(t: Tree): (r: seq<BvNode>)
    ensures |r| == 2 * |Leaves(t)| - 1
  {
    match t
    case Leaf(item) => [BvNode(item.box, item.i)]
    case Fork(box, l, r) => ForkNodes(box, Flatten(l), Flatten(r))
  }

  /** Every inner box covers the leaves below it. */
  predicate Covering(t: Tree) {
    match t
    case Leaf(_) => true
    case Fork(box, l, r) =>
      Covering(l) && Covering(r) && forall i | 0 <= i < |Leaves(t)| :: Covers(box, Leaves(t)[i].box)
  }

  /** The tree `subdivide` builds on a run of items. */
  ghost function Build(sorter: Sorter, s: seq<Item>): (t: Tree)
    requires Permutes(sorter) && s != []
    ensures |Leaves(t)| == |s|
    decreases |s|
  {
    if |s| == 1 then Leaf(s[0])
    else
      var box := Extends(s);
      var sorted := sorter(s, LongestAxis(box));
      SortedLength(sorter, s, LongestAxis(box));
      var half := |s| / 2;
      Fork(box, Build(sorter, sorted[..half]), Build(sorter, sorted[half..]))
  }

  /** The leaves are the items, rearranged, and every inner box covers its subtree. */
  lemma {:induction false} BuildOk(sorter: Sorter, s: seq<Item>)
    requires Permutes(sorter) && s != []
    ensures multiset(Leaves(Build(sorter, s))) == multiset(s) && Covering(Build(sorter, s))
    decreases |s|
  {
    var t := Build(sorter, s);
    if |s| == 1 {
      assert s == [s[0]];
    } else {
      var box := Extends(s);
      var sorted := sorter(s, LongestAxis(box));
      SortedLength(sorter, s, LongestAxis(box));
      var half := |s| / 2;
      BuildOk(sorter, sorted[..half]);
      BuildOk(sorter, sorted[half..]);
      assert sorted == sorted[..half] + sorted[half..];
      assert multiset(Leaves(t)) == multiset(s);
      forall i | 0 <= i < |Leaves(t)| ensures Covers(box, Leaves(t)[i].box) {
        assert Leaves(t)[i] in multiset(Leaves(t));
        assert Leaves(t)[i] in s;
      }
    }
  }

  /** One level of the tree. */
  lemma BuildIsFork(sorter: Sorter, s: seq<Item>, sorted: seq<Item>, half: nat)
    requires Permutes(sorter) && |s| > 1 && sorted == sorter(s, LongestAxis(Extends(s))) && half == |s| / 2
    ensures 0 < half < |s| == |sorted|
    ensures Build(sorter, s) == Fork(Extends(s), Build(sorter, sorted[..half]), Build(sorter, sorted[half..]))
  {
    hide LongestAxis, Extends, Permutes;
    SortedLength(sorter, s, LongestAxis(Extends(s)));
  }

  /** The sorter orders items by their lower bound along the axis. */
  ghost predicate SortsAlong(sorter: Sorter) {
    forall s, axis, j, k | 0 <= j < k < |sorter(s, axis)| ::
      Along(sorter(s, axis)[j].box.lo, axis) <= Along(sorter(s, axis)[k].box.lo, axis)
  }

  predicate Ordered(l: seq<Item>, r: seq<Item>, axis: nat) {
    forall i, j | 0 <= i < |l| && 0 <= j < |r| :: Along(l[i].box.lo, axis) <= Along(r[j].box.lo, axis)
  }

  /** Along the longest axis of every inner box, no leaf of its left half starts behind one of its right half, and the
      halves are as large as each other or the right one is larger by one. */
  predicate Halved(t: Tree) {
    match t
    case Leaf(_) => true
    case Fork(box, l, r) =>
      && Halved(l) && Halved(r) && |Leaves(l)| <= |Leaves(r)| <= |Leaves(l)| + 1
      && Ordered(Leaves(l), Leaves(r), LongestAxis(box))
  }

  lemma StaysOrdered(l: seq<Item>, r: seq<Item>, l1: seq<Item>, r1: seq<Item>, axis: nat)
    requires Ordered(l, r, axis) && multiset(l) == multiset(l1) && multiset(r) == multiset(r1)
    ensures Ordered(l1, r1, axis)
  {
    forall i, j | 0 <= i < |l1| && 0 <= j < |r1| ensures Along(l1[i].box.lo, axis) <= Along(r1[j].box.lo, axis) {
      assert l1[i] in multiset(l1) && r1[j] in multiset(r1);
      assert l1[i] in l && r1[j] in r;
      var m :| 0 <= m < |l| && l[m] == l1[i];
      var n :| 0 <= n < |r| && r[n] == r1[j];
    }
  }

  lemma SortedHalves(sorter: Sorter, s: seq<Item>, axis: nat, half: nat)
    requires SortsAlong(sorter) && half <= |sorter(s, axis)|
    ensures Ordered(sorter(s, axis)[..half], sorter(s, axis)[half..], axis)
  {
  }

  lemma {:induction false} BuildHalves(sorter: Sorter, s: seq<Item>)
    requires Permutes(sorter) && SortsAlong(sorter) && s != []
    ensures Halved(Build(sorter, s))
    decreases |s|
  {
    if |s| > 1 {
      hide LongestAxis, Along, Extends, Permutes, SortsAlong, Covering, Ordered;
      var axis, half := LongestAxis(Extends(s)), |s| / 2;
      var sorted := sorter(s, axis);
      BuildIsFork(sorter, s, sorted, half);
      hide Build;
      BuildHalves(sorter, sorted[..half]);
      BuildHalves(sorter, sorted[half..]);
      BuildOk(sorter, sorted[..half]);
      BuildOk(sorter, sorted[half..]);
      SortedHalves(sorter, s, axis, half);
      StaysOrdered(sorted[..half], sorted[half..], Leaves(Build(sorter, sorted[..half])),
                   Leaves(Build(sorter, sorted[half..])), axis);
    }
  }

  // ---------------------------------------------------------------- the walk

  /** The walk of `queryPolygonsInTile` from node `p` on, without the limit on results. */
  function Walk(nodes: seq<BvNode>, p: nat, q: Box): seq<int>
    decreases |nodes| - p
  {
    if p >= |nodes| then []
    else
      var n := nodes[p];
      if n.i >= 0 then (if Overlap(q, n.box) then [n.i] else []) + Walk(nodes, p + 1, q)
      else if Overlap(q, n.box) then Walk(nodes, p + 1, q)
      else Walk(nodes, p + -n.i, q)
  }

  /** The naive answer: test every item. */
  function Scan(s: seq<Item>, q: Box): seq<int> {
    if s == [] then [] else (if Overlap(q, s[0].box) then [s[0].i] else []) + Scan(s[1..], q)
  }

  lemma {:induction false} ScanAppend(s: seq<Item>, t: seq<Item>, q: Box)
    ensures Scan(s + t, q) == Scan(s, q) + Scan(t, q)
    decreases |s|
  {
    if s == [] {
      assert s + t == t;
    } else {
      assert (s + t)[1..] == s[1..] + t;
      ScanAppend(s[1..], t, q);
      assert Scan(s + t, q) == (if Overlap(q, s[0].box) then [s[0].i] else []) + (Scan(s[1..], q) + Scan(t, q));
    }
  }

  lemma {:induction false} ScanNothing(s: seq<Item>, q: Box)
    requires forall i | 0 <= i < |s| :: !Overlap(q, s[i].box)
    ensures Scan(s, q) == []
    decreases |s|
  {
    if s != [] {
      ScanNothing(s[1..], q);
    }
  }

  /** `f` stands in `nodes` from position `p` on. */
  predicate StandsAt(nodes: seq<BvNode>, p: nat, f: seq<BvNode>) {
    p + |f| <= |nodes| && nodes[p..p + |f|] == f
  }

  lemma StandsApart(nodes: seq<BvNode>, p: nat, f: seq<BvNode>, g: seq<BvNode>)
    requires StandsAt(nodes, p, f + g)
    ensures StandsAt(nodes, p, f) && StandsAt(nodes, p + |f|, g)
  {
    var h := f + g;
    assert f == h[..|f|] && g == h[|f|..];
    assert nodes[p..p + |f|] == nodes[p..p + |h|][..|f|];
    assert nodes[p + |f|..p + |f| + |g|] == nodes[p..p + |h|][|f|..];
  }

  lemma ForkParts(nodes: seq<BvNode>, p: nat, box: Box, l: seq<BvNode>, r: seq<BvNode>)
    requires StandsAt(nodes, p, ForkNodes(box, l, r))
    ensures p < |nodes| && nodes[p] == BvNode(box, -(1 + |l| + |r|))
    ensures StandsAt(nodes, p + 1, l) && StandsAt(nodes, p + 1 + |l|, r)
  {
    var head := BvNode(box, -(1 + |l| + |r|));
    StandsApart(nodes, p, [head] + l, r);
    StandsApart(nodes, p, [head], l);
    assert nodes[p..p + 1][0] == head;
  }

  lemma ScanOne(item: Item, q: Box)
    ensures Scan([item], q) == if Overlap(q, item.box) then [item.i] else []
  {
    assert [item][1..] == [];
    assert Scan([item], q) == (if Overlap(q, item.box) then [item.i] else []) + [];
  }

  lemma ForkMisses(box: Box, l: Tree, r: Tree, q: Box)
    requires Covering(Fork(box, l, r)) && !Overlap(q, box)
    ensures Scan(Leaves(Fork(box, l, r)), q) == []
  {
    var leaves := Leaves(Fork(box, l, r));
    forall i | 0 <= i < |leaves| ensures !Overlap(q, leaves[i].box) {
      if Overlap(q, leaves[i].box) {
        CoveredOverlaps(box, leaves[i].box, q);
      }
    }
    ScanNothing(leaves, q);
  }

  lemma LeafPart(nodes: seq<BvNode>, p: nat, item: Item)
    requires StandsAt(nodes, p, Flatten(Leaf(item)))
    ensures p < |nodes| && nodes[p] == BvNode(item.box, item.i)
  {
    assert nodes[p] == nodes[p..p + 1][0];
  }

  /** Walking a flattened subtree, wherever it stands in the array, finds exactly the overlapping leaves in
      order and goes on behind it; skipping an inner node by its escape offset loses nothing. */
  lemma {:induction false} WalkSubtree(nodes: seq<BvNode>, p: nat, t: Tree, q: Box)
    requires Covering(t) && StandsAt(nodes, p, Flatten(t))
    ensures Walk(nodes, p, q) == Scan(Leaves(t), q) + Walk(nodes, p + |Flatten(t)|, q)
    decreases t
  {
    hide Overlap, StandsAt, ForkNodes, Scan;
    match t {
      case Leaf(item) =>
        ScanOne(item, q);
        LeafPart(nodes, p, item);
      case Fork(box, l, r) =>
        var rest := Walk(nodes, p + |Flatten(t)|, q);
        ForkParts(nodes, p, box, Flatten(l), Flatten(r));
        if Overlap(q, box) {
          WalkSubtree(nodes, p + 1, l, q);
          WalkSubtree(nodes, p + 1 + |Flatten(l)|, r, q);
          ScanAppend(Leaves(l), Leaves(r), q);
          Assoc(Scan(Leaves(l), q), Scan(Leaves(r), q), rest);
        } else {
          ForkMisses(box, l, r, q);
          Assoc([], [], rest);
        }
    }
  }

  /** What the tile's node array answers: the tree takes 2n-1 of the 2n nodes, and the zeroed last one passes
      for polygon 0 when the query touches the quantised origin. */
  lemma WalkTile(t: Tree, q: Box)
    requires Covering(t)
    ensures Walk(Flatten(t) + [ZERO_NODE], 0, q)
         == Scan(Leaves(t), q) + if Overlap(q, ZERO_NODE.box) then [0] else []
  {
    var nodes, k := Flatten(t) + [ZERO_NODE], |Flatten(t)|;
    assert nodes[0..0 + k] == Flatten(t);
    WalkSubtree(nodes, 0, t, q);
    assert nodes[k] == ZERO_NODE && Walk(nodes, k + 1, q) == [];
    assert Walk(nodes, k, q) == (if Overlap(q, ZERO_NODE.box) then [0] else []) + [];
  }

  lemma TakeOneOut<T>(a: seq<T>, x: T, b: seq<T>)
    ensures multiset(a + [x] + b) == multiset(a + b) + multiset{x}
  {
  }

  lemma CancelOne<T>(a: multiset<T>, b: multiset<T>, x: T)
    requires a + multiset{x} == b + multiset{x}
    ensures a == b
  {
    assert a == (a + multiset{x}) - multiset{x} && b == (b + multiset{x}) - multiset{x};
  }

  lemma ScanTakenOut(a: seq<Item>, x: Item, b: seq<Item>, q: Box)
    ensures multiset(Scan(a + [x] + b, q)) == multiset(Scan(a + b, q)) + multiset(Scan([x], q))
  {
    ScanAppend(a + [x], b, q);
    ScanAppend(a, [x], q);
    ScanAppend(a, b, q);
  }

  /** How often each polygon is found does not depend on the order of the leaves. */
  lemma {:induction false} ScanPermutes(s: seq<Item>, t: seq<Item>, q: Box)
    requires multiset(s) == multiset(t)
    ensures multiset(Scan(s, q)) == multiset(Scan(t, q))
    decreases |s|
  {
    hide Scan;
    assert |multiset(s)| == |multiset(t)|;
    if s == [] {
      assert t == [];
    } else {
      var x := s[0];
      assert x in multiset(s);
      assert x in t;
      var k :| 0 <= k < |t| && t[k] == x;
      var a, b := t[..k], t[k + 1..];
      assert t == a + [x] + b;
      assert s == [] + [x] + s[1..] && [] + s[1..] == s[1..];
      TakeOneOut(a, x, b);
      TakeOneOut([], x, s[1..]);
      CancelOne(multiset(s[1..]), multiset(a + b), x);
      ScanPermutes(s[1..], a + b, q);
      ScanTakenOut(a, x, b, q);
      ScanTakenOut([], x, s[1..], q);
    }
  }

  // ---------------------------------------------------------------- building in place

  /** `calcExtends`. */
  method CalcExtends(items: array<Item>, imin: nat, imax: nat) returns (box: Box)
    requires imin < imax <= items.Length
    ensures box == Extends(items[imin..imax])
  {
    box := items[imin].box;
    assert items[imin..imin + 1] == [items[imin]];
    for i := imin + 1 to imax
      invariant box == Extends(items[imin..i])
    {
      assert items[imin..i + 1] == items[imin..i] + [items[i]];
      box := Join(box, items[i].box);
    }
  }

  /** `qsort` on a range of the array. */
  method SortRange(items: array<Item>, imin: nat, imax: nat, axis: nat, sorter: Sorter)
    requires imin <= imax <= items.Length && Permutes(sorter)
    modifies items
    ensures items[imin..imax] == sorter(old(items[imin..imax]), axis)
    ensures items[..imin] == old(items[..imin]) && items[imax..] == old(items[imax..])
  {
    var sorted := sorter(items[imin..imax], axis);
    SortedLength(sorter, items[imin..imax], axis);
    forall k | imin <= k < imax {
      items[k] := sorted[k - imin];
    }
    assert items[imin..imax] == sorted;
  }

  /** One level of the tree, flattened. */
  lemma BuildFork(sorter: Sorter, s: seq<Item>, sorted: seq<Item>, half: nat)
    requires Permutes(sorter) && |s| > 1 && sorted == sorter(s, LongestAxis(Extends(s))) && half == |s| / 2
    ensures 0 < half < |s| == |sorted|
    ensures Flatten(Build(sorter, s))
         == ForkNodes(Extends(s), Flatten(Build(sorter, sorted[..half])), Flatten(Build(sorter, sorted[half..])))
  {
    hide LongestAxis, Extends, Permutes, Build, Leaves, ForkNodes;
    BuildIsFork(sorter, s, sorted, half);
  }

  lemma SubSlices<T>(a: seq<T>, i: nat, m: nat, j: nat)
    requires i <= m <= j <= |a|
    ensures a[i..j][..m - i] == a[i..m] && a[i..j][m - i..] == a[m..j]
  {
  }

  lemma BuildLeaf(sorter: Sorter, s: seq<Item>)
    requires Permutes(sorter) && |s| == 1
    ensures Flatten(Build(sorter, s)) == [BvNode(s[0].box, s[0].i)]
  {
  }

  lemma Assemble(nodes: seq<BvNode>, cur: nat, box: Box, l: seq<BvNode>, r: seq<BvNode>)
    requires cur + 1 + |l| + |r| <= |nodes| && nodes[cur] == BvNode(box, -(1 + |l| + |r|))
    requires nodes[cur + 1..cur + 1 + |l|] == l && nodes[cur + 1 + |l|..cur + 1 + |l| + |r|] == r
    ensures nodes[cur..cur + 1 + |l| + |r|] == ForkNodes(box, l, r)
  {
    assert nodes[cur..cur + 1] == [nodes[cur]];
    assert nodes[cur..cur + 1 + |l|] == nodes[cur..cur + 1] + nodes[cur + 1..cur + 1 + |l|];
  }

  lemma SliceOfTail<T>(a: seq<T>, b: seq<T>, i: nat, j: nat, k: nat)
    requires i <= j <= k <= |a| == |b| && a[i..] == b[i..]
    ensures a[j..k] == b[j..k] && a[j..] == b[j..]
  {
    var c := a[i..];
    forall m | i <= m < |a| ensures a[m] == b[m] {
      assert a[m] == c[m - i] && b[m] == c[m - i];
    }
  }

  lemma SliceOfHead<T>(a: seq<T>, b: seq<T>, i: nat, j: nat, k: nat)
    requires i <= j <= k <= |a| == |b| && a[..k] == b[..k]
    ensures a[i..j] == b[i..j] && a[..i] == b[..i]
  {
    var c := a[..k];
    forall m | 0 <= m < k ensures a[m] == b[m] {
      assert a[m] == c[m] && b[m] == c[m];
    }
  }

  /** What sorting one half after the other leaves of the items: the first leaves the second half alone, and both
      keep what is before and behind. */
  lemma BothSorted(is1: seq<Item>, is2: seq<Item>, is3: seq<Item>, imin: nat, isplit: nat, imax: nat)
    requires imin <= isplit <= imax <= |is1| == |is2| == |is3|
    requires is2[..imin] == is1[..imin] && is2[isplit..] == is1[isplit..]
    requires is3[..isplit] == is2[..isplit] && is3[imax..] == is2[imax..]
    ensures is2[isplit..imax] == is1[isplit..imax]
    ensures is3[..imin] == is1[..imin] && is3[imax..] == is1[imax..]
  {
    SliceOfTail(is1, is2, isplit, isplit, imax);
    SliceOfTail(is1, is2, isplit, imax, imax);
    SliceOfHead(is2, is3, imin, imin, isplit);
  }

  /** What two subtrees written one behind the other leave of the nodes: the second keeps the first, and both keep
      what is before and behind. */
  lemma BothWritten(ns1: seq<BvNode>, ns2: seq<BvNode>, ns3: seq<BvNode>, cur: nat, mid: nat, next: nat)
    requires cur < mid <= next <= |ns1| == |ns2| == |ns3|
    requires ns2[..cur + 1] == ns1[..cur + 1] && ns2[mid..] == ns1[mid..]
    requires ns3[..mid] == ns2[..mid] && ns3[next..] == ns2[next..]
    ensures ns3[cur] == ns1[cur] && ns3[..cur] == ns1[..cur]
    ensures ns3[cur + 1..mid] == ns2[cur + 1..mid] && ns3[next..] == ns1[next..]
  {
    SliceOfHead(ns2, ns3, cur + 1, mid, mid);
    SliceOfHead(ns2, ns3, cur, cur, mid);
    SliceOfHead(ns1, ns2, cur, cur, cur + 1);
    SliceOfTail(ns1, ns2, mid, next, next);
    assert ns3[cur] == ns3[..mid][cur] == ns2[..cur + 1][cur];
  }

  /** The nodes of a fork: its box is written first, then its subtrees, then the way past them. */
  lemma ForkWritten(ns0: seq<BvNode>, ns1: seq<BvNode>, ns2: seq<BvNode>, ns3: seq<BvNode>, cur: nat, mid: nat,
                    next: nat, box: Box)
    requires cur < mid <= next <= |ns0| == |ns1| == |ns2| == |ns3|
    requires ns1 == ns0[cur := BvNode(box, ns0[cur].i)]
    requires ns2[..cur + 1] == ns1[..cur + 1] && ns2[mid..] == ns1[mid..]
    requires ns3[..mid] == ns2[..mid] && ns3[next..] == ns2[next..]
    ensures var ns := ns3[cur := ns3[cur].(i := -(next - cur))];
            && ns[cur..next] == ForkNodes(box, ns2[cur + 1..mid], ns3[mid..next])
            && ns[..cur] == ns0[..cur] && ns[next..] == ns0[next..]
  {
    hide ForkNodes;
    BothWritten(ns1, ns2, ns3, cur, mid, next);
    Assemble(ns3[cur := ns3[cur].(i := -(next - cur))], cur, box, ns3[cur + 1..mid], ns3[mid..next]);
  }

  /** `subdivide`: writes the flattened tree of the items in [imin, imax) to `nodes` from `cur` on, and
      nothing else of `nodes`. Returns the next free index. */
  method Subdivide(items: array<Item>, imin: nat, imax: nat, cur: nat, nodes: array<BvNode>, sorter: Sorter)
    returns (next: nat)
    requires imin < imax <= items.Length && Permutes(sorter)
    requires cur + 2 * (imax - imin) - 1 <= nodes.Length
    modifies items, nodes
    ensures next == cur + 2 * (imax - imin) - 1
    ensures nodes[cur..next] == Flatten(Build(sorter, old(items[imin..imax])))
    ensures nodes[..cur] == old(nodes[..cur]) && nodes[next..] == old(nodes[..])[next..]
    ensures items[..imin] == old(items[..imin]) && items[imax..] == old(items[imax..])
    decreases imax - imin
  {
    hide Permutes, LongestAxis, Extends, Build, Flatten, ForkNodes;
    ghost var s, ns0 := items[imin..imax], nodes[..];
    var inum := imax - imin;
    var icur := cur;
    next := cur + 1;
    if inum == 1 {
      nodes[icur] := BvNode(items[imin].box, items[imin].i);
      BuildLeaf(sorter, s);
    } else {
      var box := CalcExtends(items, imin, imax);
      nodes[icur] := BvNode(box, nodes[icur].i);
      ghost var is0 := items[..];
      SortRange(items, imin, imax, LongestAxis(box), sorter);
      var isplit := imin + inum / 2;
      ghost var sorted, is1, ns1 := items[imin..imax], items[..], nodes[..];
      BuildFork(sorter, s, sorted, inum / 2);
      SubSlices(is1, imin, isplit, imax);
      next := Subdivide(items, imin, isplit, next, nodes, sorter);
      ghost var mid, is2, ns2 := next, items[..], nodes[..];
      next := Subdivide(items, isplit, imax, next, nodes, sorter);
      ghost var is3, ns3 := items[..], nodes[..];
      BothSorted(is1, is2, is3, imin, isplit, imax);
      ForkWritten(ns0, ns1, ns2, ns3, cur, mid, next, box);
      nodes[icur] := nodes[icur].(i := -(next - icur));
      assert nodes[..] == ns3[cur := ns3[cur].(i := -(next - cur))];
    }
  }

  /** `createBVTree` on ready items and cleared nodes. */
  method CreateBvTree(items: array<Item>, nodes: array<BvNode>, sorter: Sorter) returns (count: nat)
    requires items.Length > 0 && nodes.Length == 2 * items.Length && Permutes(sorter)
    requires forall k | 0 <= k < nodes.Length :: nodes[k] == ZERO_NODE
    modifies items, nodes
    ensures count == 2 * items.Length - 1
    ensures nodes[..] == Flatten(Build(sorter, old(items[..]))) + [ZERO_NODE]
  {
    hide Permutes, Flatten, Build;
    ghost var s := items[..];
    assert items[0..items.Length] == s;
    count := Subdivide(items, 0, items.Length, 0, nodes, sorter);
    assert nodes[..] == nodes[0..count] + nodes[count..];
    assert nodes[count..] == [ZERO_NODE];
  }

  // ---------------------------------------------------------------- querying

  function Take(s: seq<int>, n: nat): seq<int> {
    if |s| <= n then s else s[..n]
  }

  /** The loop of `queryPolygonsInTile` over a tile's nodes. */
  method QueryTile(nodes: array<BvNode>, q: Box, maxPolys: nat) returns (polys: seq<int>)
    ensures polys == Take(Walk(nodes[..], 0, q), maxPolys)
  {
    polys := [];
    var p := 0;
    ghost var done, all := [], Walk(nodes[..], 0, q);
    while p < nodes.Length
      invariant 0 <= p && all == done + Walk(nodes[..], p, q) && polys == Take(done, maxPolys)
      decreases nodes.Length - p
    {
      var node := nodes[p];
      var overlap := Overlap(q, node.box);
      var isLeaf := node.i >= 0;
      ghost var rest := Walk(nodes[..], p + 1, q);
      if isLeaf && overlap {
        if |polys| < maxPolys {
          polys := polys + [node.i];
        }
        assert done + ([node.i] + rest) == (done + [node.i]) + rest;
        done := done + [node.i];
      }
      assert [] + rest == rest;
      if overlap || isLeaf {
        p := p + 1;
      } else {
        p := p + -node.i;
      }
    }
    assert done + [] == done;
  }

  /** The scan reports the polygons of the items that share a point with the query. */
  lemma {:induction false} ScanIff(s: seq<Item>, q: Box, i: int)
    requires Proper(q) && forall k | 0 <= k < |s| :: Proper(s[k].box)
    ensures i in Scan(s, q) <==> exists k | 0 <= k < |s| :: s[k].i == i && SharePoint(q, s[k].box)
    decreases |s|
  {
    hide Overlap, SharePoint;
    if s != [] {
      OverlapIff(q, s[0].box);
      ScanIff(s[1..], q, i);
      assert forall k | 1 <= k < |s| :: s[k] == s[1..][k - 1];
      if k :| 1 <= k < |s| && s[k].i == i && SharePoint(q, s[k].box) {
        assert s[1..][k - 1] == s[k];
      }
    }
  }

  /** The whole: on a tile built from `s`, the walk reports the polygons a scan of the rearranged items reports, in that
      order, up to `maxPolys`, and then polygon 0 once more if the query touches the origin and there is
      room. */
  lemma TileAnswers(sorter: Sorter, s: seq<Item>, q: Box, maxPolys: nat)
    requires Permutes(sorter) && s != []
    ensures var nodes := Flatten(Build(sorter, s)) + [ZERO_NODE];
            var leaves := Leaves(Build(sorter, s));
            && multiset(leaves) == multiset(s) && multiset(Scan(leaves, q)) == multiset(Scan(s, q))
            && Take(Walk(nodes, 0, q), maxPolys)
               == Take(Scan(leaves, q) + if Overlap(q, ZERO_NODE.box) then [0] else [], maxPolys)
  {
    BuildOk(sorter, s);
    WalkTile(Build(sorter, s), q);
    ScanPermutes(Leaves(Build(sorter, s)), s, q);
  }

  /** In points: the walk reports polygon `i`, as long as there is room for all, exactly if an item of that number
      shares a point with the query, or if `i` is 0 and the query holds the origin. */
  lemma TileAnswersPoints(sorter: Sorter, s: seq<Item>, q: Box, i: int)
    requires Permutes(sorter) && s != []
    requires Proper(q) && forall k | 0 <= k < |s| :: Proper(s[k].box)
    ensures i in Walk(Flatten(Build(sorter, s)) + [ZERO_NODE], 0, q)
            <==>
            (exists k | 0 <= k < |s| :: s[k].i == i && exists p :: Inside(p, q) && Inside(p, s[k].box))
            || (i == 0 && Inside(Vec(0, 0, 0), q))
  {
    hide Scan, Build, Flatten, Walk, Permutes, Leaves;
    var leaves := Leaves(Build(sorter, s));
    BuildOk(sorter, s);
    WalkTile(Build(sorter, s), q);
    ScanPermutes(leaves, s, q);
    assert i in Scan(leaves, q) <==> i in multiset(Scan(leaves, q));
    assert i in Scan(s, q) <==> i in multiset(Scan(s, q));
    ScanIff(s, q, i);
  }

  /** The tree answers what the scan answers exactly when the query stays off the origin or the result is
      full already. */
  lemma ExactIff(sorter: Sorter, s: seq<Item>, q: Box, maxPolys: nat)
    requires Permutes(sorter) && s != []
    ensures var t := Build(sorter, s);
            Take(Walk(Flatten(t) + [ZERO_NODE], 0, q), maxPolys) == Take(Scan(Leaves(t), q), maxPolys)
            <==> !Overlap(q, ZERO_NODE.box) || |Scan(Leaves(t), q)| >= maxPolys
  {
    var t := Build(sorter, s);
    BuildOk(sorter, s);
    WalkTile(t, q);
    var hits := Scan(Leaves(t), q);
    assert hits + [] == hits;
    if Overlap(q, ZERO_NODE.box) {
      if |hits| >= maxPolys {
        assert (hits + [0])[..maxPolys] == hits[..maxPolys];
      } else {
        assert |Take(hits + [0], maxPolys)| == |hits| + 1;
      }
    }
  }
}
