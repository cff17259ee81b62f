/** A new tile's own links: the free list, and a link for each edge two of its polygons share. */
module NavMeshBuild {
  import opened NavMeshIds
  import opened NavMeshLists
  import opened NavMeshLinks
  import opened NavMeshTiles

  function UpTo(n: nat): (c: seq<nat>)
    ensures |c| == n && forall i | 0 <= i < n :: c[i] == i
  {
    seq(n, i => i)
  }

  function AllFree(n: nat): (home: seq<int>)
    ensures |home| == n && forall i | 0 <= i < n :: home[i] == -1
  {
    seq(n, i => -1)
  }

  /** The tile with its first `n` polygons only: the others' lists are not set up yet. */
  function View(tile: Tile, n: nat): Tile
    requires n <= |tile.polys|
  {
    tile.(polys := tile.polys[..n])
  }

  lemma FreshPool(tile: Tile)
    requires ListFrom(Nexts(tile.links), tile.linksFreeList, UpTo(|tile.links|))
    ensures PoolOk(View(tile, 0), Pool(UpTo(|tile.links|), [], AllFree(|tile.links|)))
  {
    var pool := Pool(UpTo(|tile.links|), [], AllFree(|tile.links|));
    forall l | 0 <= l < |pool.home| ensures HomeOk(pool, l) {
      assert pool.free[l] == l;
    }
  }

  /** The list of polygon `n` is set up, empty. */
  lemma OpenPoly(tile: Tile, pool: Pool, n: nat)
    requires n < |tile.polys| && PoolOk(View(tile, n), pool)
    ensures var tile1 := tile.(polys := tile.polys[n := tile.polys[n].(firstLink := NULL_LINK)]);
            PoolOk(View(tile1, n + 1), pool.(lists := pool.lists + [[]]))
  {
    var tile0 := View(tile, n);
    var tile1 := View(tile.(polys := tile.polys[n := tile.polys[n].(firstLink := NULL_LINK)]), n + 1);
    var pool1 := pool.(lists := pool.lists + [[]]);
    forall l | 0 <= l < |pool1.home| ensures HomeOk(pool1, l) {
      assert HomeOk(pool, l);
    }
    forall i | -1 <= i < |pool1.lists| ensures Houses(pool1, i) {
      if i < |pool.lists| {
        assert Houses(pool, i) && ListOf(pool1, i) == ListOf(pool, i);
      }
    }
    forall i | -1 <= i < |tile1.polys| ensures ListFrom(Nexts(tile1.links), HeadOf(tile1, i), ListOf(pool1, i)) {
      if i < |tile0.polys| {
        assert ListFrom(Nexts(tile0.links), HeadOf(tile0, i), ListOf(pool, i));
      }
    }
  }

  lemma ViewAdded(tile: Tile, n: nat, i: nat, ref: nat, edge: nat, side: nat)
    requires i < n <= |tile.polys| && (tile.linksFreeList == NULL_LINK || 0 <= tile.linksFreeList < |tile.links|)
    ensures View(Added(tile, i, ref, edge, side), n) == Added(View(tile, n), i, ref, edge, side)
  {
  }

  /** A reference to a polygon of tile `t` itself. */
  ghost predicate OwnRef(bits: Bits, salt: nat, t: nat, n: nat, ref: nat) {
    exists p: nat | p < n :: ref == Encode(bits, salt, t, p)
  }

  ghost predicate OwnRefs(bits: Bits, tile: Tile, pool: Pool, t: nat) {
    && |pool.home| == |tile.links|
    && forall l | 0 <= l < |tile.links| && pool.home[l] >= 0 ::
         OwnRef(bits, tile.salt, t, |tile.polys|, tile.links[l].ref)
  }

  /** Link `l` stands for an edge that its polygon shares with another one of the tile. */
  ghost predicate InnerLink(bits: Bits, tile: Tile, pool: Pool, t: nat, l: nat)
    requires l < |pool.home| == |tile.links|
  {
    var i, link := pool.home[l], tile.links[l];
    && 0 <= i < |tile.polys| && link.edge < |tile.polys[i].neis| && !tile.polys[i].offMesh
    && 0 < tile.polys[i].neis[link.edge] < 0x8000
    && link.ref == Encode(bits, tile.salt, t, tile.polys[i].neis[link.edge] - 1) && link.side == 0xff
  }

  ghost predicate InnerLinks(bits: Bits, tile: Tile, pool: Pool, t: nat) {
    |pool.home| == |tile.links| &&
    forall l | 0 <= l < |tile.links| && pool.home[l] >= 0 :: InnerLink(bits, tile, pool, t, l)
  }

  lemma InnerStays(bits: Bits, a: Tile, p: Pool, b: Tile, q: Pool, t: nat, l: nat)
    requires TileGrows(a, p, b, q) && SameFace(a, b) && l < |a.links| && p.home[l] >= 0 && InnerLink(bits, a, p, t, l)
    ensures l < |b.links| && InnerLink(bits, b, q, t, l)
  {
    hide Encode;
    assert SamePoly(a.polys[p.home[l]], b.polys[p.home[l]]) && SameLink(a.links[l], b.links[l]);
  }

  /** The link for internal edge `j` of polygon `i` is there, unless the links ran out. */
  ghost predicate EdgeLinked(bits: Bits, tile: Tile, pool: Pool, t: nat, i: nat, j: nat)
    requires i < |tile.polys| && j < |tile.polys[i].neis|
  {
    Internal(tile.polys[i], j) && !tile.polys[i].offMesh && tile.linksFreeList != NULL_LINK ==>
      HasLink(tile, pool, i, Encode(bits, tile.salt, t, tile.polys[i].neis[j] - 1), j, 0xff)
  }

  ghost predicate PolyLinked(bits: Bits, tile: Tile, pool: Pool, t: nat, i: nat, from: nat)
    requires i < |tile.polys|
  {
    forall j | from <= j < |tile.polys[i].neis| :: EdgeLinked(bits, tile, pool, t, i, j)
  }

  /** The tile loaded from data: its links chained into one free list. */
  method BuildFreeList(links: seq<Link>) returns (links1: seq<Link>)
    requires |links| > 0
    ensures |links1| == |links| && ListFrom(Nexts(links1), 0, UpTo(|links|))
  {
    var n := |links|;
    links1 := links[n - 1 := links[n - 1].(next := NULL_LINK)];
    var i := 0;
    while i < n - 1
      invariant 0 <= i <= n - 1 && |links1| == n && links1[n - 1].next == NULL_LINK
      invariant forall k | 0 <= k < i :: links1[k].next == k + 1
    {
      links1 := links1[i := links1[i].(next := i + 1)];
      i := i + 1;
    }
    assert forall k | 0 <= k < n :: LinkAt(Nexts(links1), UpTo(n), k);
  }

  /** What `connectIntLinks` has done: the first `n` polygons are set up. */
  ghost predicate Built(bits: Bits, a: Tile, b: Tile, q: Pool, t: nat, n: nat) {
    && SameData(a, b) && SameFace(a, b) && a.next == b.next
    && n <= |b.polys| && PoolOk(View(b, n), q) && OwnRefs(bits, b, q, t) && InnerLinks(bits, b, q, t)
  }

  lemma BuiltStarts(bits: Bits, a: Tile, t: nat)
    requires a.linksFreeList == 0 && ListFrom(Nexts(a.links), 0, UpTo(|a.links|))
    ensures Built(bits, a, a, Pool(UpTo(|a.links|), [], AllFree(|a.links|)), t, 0)
  {
    FreshPool(a);
  }

  lemma BuiltOpens(bits: Bits, a: Tile, b: Tile, q: Pool, t: nat, n: nat)
    requires Built(bits, a, b, q, t, n) && n < |b.polys|
    ensures var b1 := b.(polys := b.polys[n := b.polys[n].(firstLink := NULL_LINK)]);
            var q1 := q.(lists := q.lists + [[]]);
            Built(bits, a, b1, q1, t, n + 1)
  {
    OpenPoly(b, q, n);
    hide PoolOk, Encode;
    var b1 := b.(polys := b.polys[n := b.polys[n].(firstLink := NULL_LINK)]);
    var q1 := q.(lists := q.lists + [[]]);
    assert forall i | 0 <= i < |a.polys| :: SamePoly(a.polys[i], b.polys[i]);
    forall l | 0 <= l < |b1.links| && q1.home[l] >= 0 ensures InnerLink(bits, b1, q1, t, l) {
      assert InnerLink(bits, b, q, t, l);
    }
  }

  lemma ViewIs(tile: Tile, n: nat)
    requires n <= |tile.polys|
    ensures View(tile, n).links == tile.links && View(tile, n).linksFreeList == tile.linksFreeList
    ensures |View(tile, n).polys| == n && View(tile, n).salt == tile.salt
  {
  }

  lemma AddedInner(bits: Bits, b: Tile, q: Pool, t: nat, i: nat, j: nat)
    requires i < |b.polys| && j < |b.polys[i].neis| && Internal(b.polys[i], j) && !b.polys[i].offMesh
    requires InnerLinks(bits, b, q, t) && i < |q.lists|
    requires b.linksFreeList != NULL_LINK ==>
               0 <= b.linksFreeList < |b.links| && q.free != [] && q.free[0] == b.linksFreeList
    ensures InnerLinks(bits, Added(b, i, Encode(bits, b.salt, t, b.polys[i].neis[j] - 1), j, 0xff), PoolAdded(b, q, i),
                       t)
  {
    hide Encode;
    var ref := Encode(bits, b.salt, t, b.polys[i].neis[j] - 1);
    var b1, q1 := Added(b, i, ref, j, 0xff), PoolAdded(b, q, i);
    forall l | 0 <= l < |b1.links| && q1.home[l] >= 0 ensures InnerLink(bits, b1, q1, t, l) {
      assert q.home[l] >= 0 && q1.home[l] == q.home[l] && b1.links[l] == b.links[l] ==> InnerLink(bits, b, q, t, l);
    }
  }

  /** An internal edge gets its link. */
  lemma BuiltAdds(bits: Bits, a: Tile, b: Tile, q: Pool, t: nat, i: nat, j: nat)
    requires Built(bits, a, b, q, t, i + 1) && i < |b.polys| && j < |b.polys[i].neis| && Internal(b.polys[i], j)
    requires b.polys[i].neis[j] <= |b.polys| && !b.polys[i].offMesh
    ensures i < |q.lists| && |q.home| == |b.links|
    ensures b.linksFreeList != NULL_LINK ==>
              0 <= b.linksFreeList < |b.links| && q.free != [] && q.free[0] == b.linksFreeList
    ensures var ref := Encode(bits, b.salt, t, b.polys[i].neis[j] - 1);
            var b1, q1 := Added(b, i, ref, j, 0xff), PoolAdded(b, q, i);
            && Built(bits, a, b1, q1, t, i + 1) && TileGrows(b, q, b1, q1) && SameFace(b, b1)
            && EdgeLinked(bits, b1, q1, t, i, j)
  {
    var ref := Encode(bits, b.salt, t, b.polys[i].neis[j] - 1);
    AddedGrows(bits, View(b, i + 1), q, i, ref, j, 0xff);
    ViewIs(b, i + 1);
    ViewAdded(b, i + 1, i, ref, j, 0xff);
    hide PoolOk, Encode;
    var b1, q1 := Added(b, i, ref, j, 0xff), PoolAdded(b, q, i);
    assert SameData(b, b1);
    assert forall k | 0 <= k < |a.polys| :: SamePoly(a.polys[k], b.polys[k]);
    forall l | 0 <= l < |b1.links| && q1.home[l] >= 0 ensures OwnRef(bits, b1.salt, t, |b1.polys|, b1.links[l].ref) {
      if b1.links[l].ref != ref {
        assert OwnRef(bits, b.salt, t, |b.polys|, b.links[l].ref);
      }
    }
    AddedInner(bits, b, q, t, i, j);
    if b1.linksFreeList != NULL_LINK {
      assert HasLink(View(b1, i + 1), q1, i, ref, j, 0xff);
      var l :| 0 <= l < |b1.links| && q1.home[l] == i && SameLink(b1.links[l], Link(ref, NULL_LINK, j, 0xff));
      assert HasLink(b1, q1, i, ref, j, 0xff);
    }
  }

  lemma EdgesKept(bits: Bits, a: Tile, p: Pool, b: Tile, q: Pool, t: nat, i: nat, from: nat)
    requires TileGrows(a, p, b, q) && SameFace(a, b) && i < |a.polys| && PolyLinked(bits, a, p, t, i, from)
    ensures PolyLinked(bits, b, q, t, i, from)
  {
    hide HasLink, Encode;
    assert SamePoly(a.polys[i], b.polys[i]);
    forall j | from <= j < |b.polys[i].neis| ensures EdgeLinked(bits, b, q, t, i, j) {
      assert EdgeLinked(bits, a, p, t, i, j);
      if Internal(b.polys[i], j) && !b.polys[i].offMesh && b.linksFreeList != NULL_LINK {
        HasLinkKept(a, p, b, q, i, Encode(bits, a.salt, t, a.polys[i].neis[j] - 1), j, 0xff);
      }
    }
  }

  lemma BuiltPoly(bits: Bits, a: Tile, b: Tile, q: Pool, t: nat, n: nat, i: nat)
    requires Built(bits, a, b, q, t, n) && i < |a.polys|
    ensures |b.polys| == |a.polys| && b.polys[i].neis == a.polys[i].neis && b.polys[i].offMesh == a.polys[i].offMesh
  {
    assert SamePoly(a.polys[i], b.polys[i]);
  }

  lemma InRange(bits: Bits, tile: Tile, i: nat, j: nat)
    requires DataOk(bits, tile.polys, tile.cons) && i < |tile.polys| && j < |tile.polys[i].neis|
    requires Internal(tile.polys[i], j)
    ensures tile.polys[i].neis[j] <= |tile.polys|
  {
  }

  lemma NoEdges(bits: Bits, b: Tile, q: Pool, t: nat, i: nat, j: nat)
    requires i < |b.polys| && j == |b.polys[i].neis|
    ensures PolyLinked(bits, b, q, t, i, j)
  {
  }

  lemma OneMoreEdge(bits: Bits, b: Tile, q: Pool, t: nat, i: nat, j: nat)
    requires i < |b.polys| && j < |b.polys[i].neis|
    requires PolyLinked(bits, b, q, t, i, j + 1) && EdgeLinked(bits, b, q, t, i, j)
    ensures PolyLinked(bits, b, q, t, i, j)
  {
    forall k | j <= k < |b.polys[i].neis| ensures EdgeLinked(bits, b, q, t, i, k) {
    }
  }

  lemma OffMeshLinked(bits: Bits, b: Tile, q: Pool, t: nat, i: nat)
    requires i < |b.polys| && b.polys[i].offMesh
    ensures PolyLinked(bits, b, q, t, i, 0)
  {
  }

  /** Setting up the next polygon's list keeps the links there are. */
  lemma OpenedKeeps(bits: Bits, b: Tile, q: Pool, t: nat, n: nat)
    requires n < |b.polys|
    ensures var b1 := b.(polys := b.polys[n := b.polys[n].(firstLink := NULL_LINK)]);
            var q1 := q.(lists := q.lists + [[]]);
            forall k | 0 <= k < n && PolyLinked(bits, b, q, t, k, 0) :: PolyLinked(bits, b1, q1, t, k, 0)
  {
    hide Encode;
    var b1 := b.(polys := b.polys[n := b.polys[n].(firstLink := NULL_LINK)]);
    var q1 := q.(lists := q.lists + [[]]);
    forall k | 0 <= k < n && PolyLinked(bits, b, q, t, k, 0) ensures PolyLinked(bits, b1, q1, t, k, 0) {
      forall j | 0 <= j < |b1.polys[k].neis| ensures EdgeLinked(bits, b1, q1, t, k, j) {
        assert EdgeLinked(bits, b, q, t, k, j);
      }
    }
  }

  /** `connectIntLinks`. */
  method ConnectIntLinks(bits: Bits, tile: Tile, t: nat) returns (b: Tile, ghost q: Pool)
    requires tile.linksFreeList == 0 && ListFrom(Nexts(tile.links), 0, UpTo(|tile.links|))
    requires DataOk(bits, tile.polys, tile.cons)
    ensures Built(bits, tile, b, q, t, |b.polys|)
    ensures forall i | 0 <= i < |b.polys| :: PolyLinked(bits, b, q, t, i, 0)
  {
    hide PoolOk, Built, PolyLinked, DataOk, Encode;
    b, q := tile, Pool(UpTo(|tile.links|), [], AllFree(|tile.links|));
    BuiltStarts(bits, tile, t);
    var i := 0;
    while i < |tile.polys|
      invariant 0 <= i <= |tile.polys| && Built(bits, tile, b, q, t, i) && |b.polys| == |tile.polys|
      invariant forall k | 0 <= k < i :: PolyLinked(bits, b, q, t, k, 0)
    {
      BuiltOpens(bits, tile, b, q, t, i);
      OpenedKeeps(bits, b, q, t, i);
      b := b.(polys := b.polys[i := b.polys[i].(firstLink := NULL_LINK)]);
      q := q.(lists := q.lists + [[]]);
      BuiltPoly(bits, tile, b, q, t, i + 1, i);
      if !b.polys[i].offMesh {
        var j := |tile.polys[i].neis|;
        NoEdges(bits, b, q, t, i, j);
        while j > 0
          invariant 0 <= j <= |tile.polys[i].neis| && Built(bits, tile, b, q, t, i + 1) && |b.polys| == |tile.polys|
          invariant b.polys[i].neis == tile.polys[i].neis && b.polys[i].offMesh == tile.polys[i].offMesh
          invariant forall k | 0 <= k < i :: PolyLinked(bits, b, q, t, k, 0)
          invariant PolyLinked(bits, b, q, t, i, j)
        {
          j := j - 1;
          if b.polys[i].neis[j] != 0 && b.polys[i].neis[j] < EXT_LINK {
            InRange(bits, tile, i, j);
            ghost var b0, q0 := b, q;
            BuiltAdds(bits, tile, b, q, t, i, j);
            ghost var pool1 := PoolAdded(b, q, i);
            if b.linksFreeList != NULL_LINK {
              b := Linked(b, i, Encode(bits, b.salt, t, b.polys[i].neis[j] - 1), j, 0xff);
            }
            q := pool1;
            forall k | 0 <= k < i ensures PolyLinked(bits, b, q, t, k, 0) {
              EdgesKept(bits, b0, q0, b, q, t, k, 0);
            }
            EdgesKept(bits, b0, q0, b, q, t, i, j + 1);
            BuiltPoly(bits, tile, b, q, t, i + 1, i);
          }
          OneMoreEdge(bits, b, q, t, i, j);
        }
      } else {
        OffMeshLinked(bits, b, q, t, i);
      }
      i := i + 1;
    }
  }
}
