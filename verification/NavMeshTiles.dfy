/** The tiles of a navigation mesh: what their links refer to. */
module NavMeshTiles {
  import opened Basics
  import opened NavMeshIds
  import opened NavMeshLinks
  import opened NavMeshLists
  import opened HashChains

  predicate Live(tiles: seq<Tile>, t: int) {
    0 <= t < |tiles| && tiles[t].header.Some?
  }

  /** The same cell or one of the eight around it. */
  predicate Near(a: Header, b: Header) {
    -1 <= a.x - b.x <= 1 && -1 <= a.y - b.y <= 1
  }

  /** `getPolyRefBase`, with the index of a polygon. */
  function RefTo(bits: Bits, tiles: seq<Tile>, t: nat, poly: nat): nat
    requires t < |tiles|
  {
    Encode(bits, tiles[t].salt, t, poly)
  }

  /** `isValidPolyRef`. */
  predicate IsValid(bits: Bits, tiles: seq<Tile>, ref: nat) {
    var it := DecodeTile(bits, ref);
    Live(tiles, it) && tiles[it].salt == DecodeSalt(bits, ref) && DecodePoly(bits, ref) < |tiles[it].polys|
  }

  /** A link of tile `t` may say `ref`: a polygon of a live tile in the same or a neighbouring cell. */
  ghost predicate RefOk(bits: Bits, tiles: seq<Tile>, t: nat, ref: nat) {
    && IsValid(bits, tiles, ref) && Live(tiles, t)
    && Near(tiles[t].header.value, tiles[DecodeTile(bits, ref)].header.value)
  }

  /** DT_EXT_LINK: the edge is a portal to the tile on the side its low byte names. */
  const EXT_LINK: nat := 0x8000

  /** An edge shared with polygon `neis[j] - 1` of the same tile. */
  predicate Internal(poly: Poly, j: nat)
    requires j < |poly.neis|
  {
    0 < poly.neis[j] < EXT_LINK
  }

  /** What the loader guarantees of a tile: indices in range. */
  ghost predicate DataOk(bits: Bits, polys: seq<Poly>, cons: seq<Con>) {
    && |polys| <= Pow2(bits.poly)
    && (forall i, j | 0 <= i < |polys| && 0 <= j < |polys[i].neis| && Internal(polys[i], j) ::
          polys[i].neis[j] <= |polys|)
    && (forall c | 0 <= c < |cons| :: cons[c].poly < |polys|)
  }

  ghost predicate TileOk(bits: Bits, tile: Tile, pool: Pool) {
    && 0 < tile.salt < Pow2(bits.salt)
    && (tile.header.Some? ==> DataOk(bits, tile.polys, tile.cons) && PoolOk(tile, pool))
  }

  ghost predicate TilesOk(bits: Bits, tiles: seq<Tile>, pools: seq<Pool>) {
    && |pools| == |tiles| <= Pow2(bits.tile)
    && (forall t | 0 <= t < |tiles| :: TileOk(bits, tiles[t], pools[t]))
  }

  /** Every link in use refers to a live polygon. */
  ghost predicate LinksOk(bits: Bits, tiles: seq<Tile>, pools: seq<Pool>, t: nat)
    requires t < |tiles| == |pools| && |pools[t].home| == |tiles[t].links|
  {
    forall l | 0 <= l < |tiles[t].links| && pools[t].home[l] >= 0 :: RefOk(bits, tiles, t, tiles[t].links[l].ref)
  }

  ghost predicate Sound(bits: Bits, tiles: seq<Tile>, pools: seq<Pool>)
    requires TilesOk(bits, tiles, pools)
  {
    forall t | Live(tiles, t) :: assert TileOk(bits, tiles[t], pools[t]); LinksOk(bits, tiles, pools, t)
  }

  // ---------------------------------------------------------------- changes to links only

  /** A tile as links see it. */
  predicate SameFace(a: Tile, b: Tile) {
    a.salt == b.salt && a.header == b.header && |a.polys| == |b.polys|
  }

  /** Tiles as links and the index see them. */
  ghost predicate SameFaces(a: seq<Tile>, b: seq<Tile>) {
    |a| == |b| && forall t | 0 <= t < |a| :: SameFace(a[t], b[t]) && a[t].next == b[t].next
  }

  lemma RefKept(bits: Bits, a: seq<Tile>, b: seq<Tile>, t: nat, ref: nat)
    requires |a| == |b| && RefOk(bits, a, t, ref)
    requires SameFace(a[t], b[t]) && SameFace(a[DecodeTile(bits, ref)], b[DecodeTile(bits, ref)])
    ensures RefOk(bits, b, t, ref)
  {
  }

  lemma RefToIs(bits: Bits, tiles: seq<Tile>, pools: seq<Pool>, t: nat, poly: nat)
    requires TilesOk(bits, tiles, pools) && Live(tiles, t) && poly < |tiles[t].polys|
    ensures var ref := RefTo(bits, tiles, t, poly);
            IsValid(bits, tiles, ref) && DecodeTile(bits, ref) == t && DecodePoly(bits, ref) == poly
  {
    hide Pow2, PoolOk;
    assert TileOk(bits, tiles[t], pools[t]);
    DecodeEncode(bits, tiles[t].salt, t, poly);
  }

  // ---------------------------------------------------------------- adding links

  predicate SamePoly(a: Poly, b: Poly) {
    a.neis == b.neis && a.offMesh == b.offMesh
  }

  predicate SameLink(a: Link, b: Link) {
    a.ref == b.ref && a.edge == b.edge && a.side == b.side
  }

  /** Polygon `i` has a link to `ref`. */
  ghost predicate HasLink(tile: Tile, pool: Pool, i: nat, ref: nat, edge: nat, side: nat) {
    |pool.home| == |tile.links| &&
    exists l | 0 <= l < |tile.links| :: pool.home[l] == i && SameLink(tile.links[l], Link(ref, NULL_LINK, edge, side))
  }

  ghost predicate SameData(a: Tile, b: Tile) {
    && |a.polys| == |b.polys| && (forall i | 0 <= i < |a.polys| :: SamePoly(a.polys[i], b.polys[i]))
    && a.cons == b.cons && |a.links| == |b.links|
  }

  /** Links in use stay, where they are and as they are; links are only taken from the free list. */
  ghost predicate TileGrows(a: Tile, p: Pool, b: Tile, q: Pool) {
    && SameData(a, b) && |p.home| == |q.home| == |a.links|
    && (forall l | 0 <= l < |a.links| && p.home[l] >= 0 :: q.home[l] == p.home[l] && SameLink(a.links[l], b.links[l]))
    && (a.linksFreeList == NULL_LINK ==> b.linksFreeList == NULL_LINK)
  }

  lemma TileGrowsOn(a: Tile, p: Pool, b: Tile, q: Pool, c: Tile, r: Pool)
    requires TileGrows(a, p, b, q) && TileGrows(b, q, c, r)
    ensures TileGrows(a, p, c, r)
  {
    forall i | 0 <= i < |a.polys| ensures SamePoly(a.polys[i], c.polys[i]) {
      assert SamePoly(a.polys[i], b.polys[i]) && SamePoly(b.polys[i], c.polys[i]);
    }
  }

  lemma HasLinkKept(a: Tile, p: Pool, b: Tile, q: Pool, i: nat, ref: nat, edge: nat, side: nat)
    requires TileGrows(a, p, b, q) && HasLink(a, p, i, ref, edge, side)
    ensures HasLink(b, q, i, ref, edge, side)
  {
    var l :| 0 <= l < |a.links| && p.home[l] == i && SameLink(a.links[l], Link(ref, NULL_LINK, edge, side));
    assert q.home[l] == i && SameLink(b.links[l], Link(ref, NULL_LINK, edge, side));
  }

  /** `allocLink` and the use of the link, or nothing once the links have run out. */
  function Added(tile: Tile, i: nat, ref: nat, edge: nat, side: nat): Tile
    requires i < |tile.polys| && (tile.linksFreeList == NULL_LINK || 0 <= tile.linksFreeList < |tile.links|)
  {
    if tile.linksFreeList == NULL_LINK then tile else Linked(tile, i, ref, edge, side)
  }

  function PoolAdded(tile: Tile, pool: Pool, i: nat): Pool
    requires i < |pool.lists|
    requires tile.linksFreeList == NULL_LINK || (pool.free != [] && pool.free[0] < |pool.home|)
  {
    if tile.linksFreeList == NULL_LINK then pool else PoolLinked(pool, i)
  }

  /** Afterwards the link is there, unless there was none left. */
  lemma AddedGrows(bits: Bits, tile: Tile, pool: Pool, i: nat, ref: nat, edge: nat, side: nat)
    requires PoolOk(tile, pool) && i < |tile.polys|
    ensures |pool.lists| == |tile.polys| && |pool.home| == |tile.links|
    ensures tile.linksFreeList != NULL_LINK ==>
              0 <= tile.linksFreeList < |tile.links| && pool.free != [] && pool.free[0] == tile.linksFreeList
    ensures var tile1, pool1 := Added(tile, i, ref, edge, side), PoolAdded(tile, pool, i);
            && PoolOk(tile1, pool1) && TileGrows(tile, pool, tile1, pool1) && SameFace(tile, tile1)
            && tile1.next == tile.next
            && (tile1.linksFreeList == NULL_LINK || HasLink(tile1, pool1, i, ref, edge, side))
            && (forall l | 0 <= l < |tile1.links| && pool1.home[l] >= 0 ::
                  (pool.home[l] >= 0 && SameLink(tile1.links[l], tile.links[l])) || tile1.links[l].ref == ref)
            && (DataOk(bits, tile.polys, tile.cons) ==> DataOk(bits, tile1.polys, tile1.cons))
  {
    hide Pow2;
    if tile.linksFreeList != NULL_LINK {
      FreeHead(tile, pool);
      LinkedOk(tile, pool, i, ref, edge, side);
      var l, tile1, pool1 := pool.free[0], Linked(tile, i, ref, edge, side), PoolLinked(pool, i);
      hide PoolOk;
      assert pool1.home[l] == i && SameLink(tile1.links[l], Link(ref, NULL_LINK, edge, side));
    }
  }

  // ---------------------------------------------------------------- growing tiles

  ghost predicate Grows(tiles: seq<Tile>, pools: seq<Pool>, tiles1: seq<Tile>, pools1: seq<Pool>) {
    && SameFaces(tiles, tiles1) && |pools| == |pools1| == |tiles|
    && (forall t | Live(tiles, t) :: TileGrows(tiles[t], pools[t], tiles1[t], pools1[t]))
  }

  /** Building links: the mesh stays in order, and stays sound if it was. */
  ghost predicate Builds(bits: Bits, tiles: seq<Tile>, pools: seq<Pool>, tiles1: seq<Tile>, pools1: seq<Pool>) {
    && TilesOk(bits, tiles, pools) && TilesOk(bits, tiles1, pools1) && Grows(tiles, pools, tiles1, pools1)
    && (Sound(bits, tiles, pools) ==> Sound(bits, tiles1, pools1))
  }

  lemma PoolSize(tile: Tile, pool: Pool)
    requires PoolOk(tile, pool)
    ensures |pool.home| == |tile.links| && |pool.lists| == |tile.polys|
  {
  }

  lemma BuildsNothing(bits: Bits, tiles: seq<Tile>, pools: seq<Pool>)
    requires TilesOk(bits, tiles, pools)
    ensures Builds(bits, tiles, pools, tiles, pools)
  {
    hide PoolOk;
    forall t | Live(tiles, t) ensures TileGrows(tiles[t], pools[t], tiles[t], pools[t]) {
      assert TileOk(bits, tiles[t], pools[t]);
      PoolSize(tiles[t], pools[t]);
    }
  }

  lemma BuildsOn(bits: Bits, ts: seq<Tile>, ps: seq<Pool>, ts1: seq<Tile>, ps1: seq<Pool>, ts2: seq<Tile>,
                 ps2: seq<Pool>)
    requires Builds(bits, ts, ps, ts1, ps1) && Builds(bits, ts1, ps1, ts2, ps2)
    ensures Builds(bits, ts, ps, ts2, ps2)
  {
    hide TilesOk, Sound, TileGrows;
    forall t | 0 <= t < |ts| ensures SameFace(ts[t], ts2[t]) && ts[t].next == ts2[t].next {
      assert SameFace(ts[t], ts1[t]) && SameFace(ts1[t], ts2[t]);
    }
    forall t | Live(ts, t) ensures TileGrows(ts[t], ps[t], ts2[t], ps2[t]) {
      assert SameFace(ts[t], ts1[t]);
      TileGrowsOn(ts[t], ps[t], ts1[t], ps1[t], ts2[t], ps2[t]);
    }
  }

  lemma FacesRef(bits: Bits, a: seq<Tile>, b: seq<Tile>, t: nat, ref: nat)
    requires SameFaces(a, b) && RefOk(bits, a, t, ref)
    ensures RefOk(bits, b, t, ref)
  {
    RefKept(bits, a, b, t, ref);
  }

  lemma AddLinkSound(bits: Bits, tiles: seq<Tile>, pools: seq<Pool>, tiles1: seq<Tile>, pools1: seq<Pool>, t: nat,
                     ref: nat)
    requires TilesOk(bits, tiles, pools) && TilesOk(bits, tiles1, pools1) && Sound(bits, tiles, pools)
    requires SameFaces(tiles, tiles1) && Live(tiles, t) && RefOk(bits, tiles, t, ref)
    requires |pools[t].home| == |tiles[t].links| == |pools1[t].home| == |tiles1[t].links|
    requires forall u | 0 <= u < |tiles| && u != t :: tiles1[u] == tiles[u] && pools1[u] == pools[u]
    requires forall l | 0 <= l < |tiles1[t].links| && pools1[t].home[l] >= 0 ::
               (pools[t].home[l] >= 0 && SameLink(tiles1[t].links[l], tiles[t].links[l]))
               || tiles1[t].links[l].ref == ref
    ensures Sound(bits, tiles1, pools1)
  {
    hide PoolOk, RefOk, Pow2, DataOk;
    forall u | Live(tiles1, u) ensures |pools1[u].home| == |tiles1[u].links| && LinksOk(bits, tiles1, pools1, u) {
      assert TileOk(bits, tiles[u], pools[u]) && TileOk(bits, tiles1[u], pools1[u]) && Live(tiles, u);
      PoolSize(tiles[u], pools[u]);
      PoolSize(tiles1[u], pools1[u]);
      assert LinksOk(bits, tiles, pools, u);
      forall l | 0 <= l < |tiles1[u].links| && pools1[u].home[l] >= 0
        ensures RefOk(bits, tiles1, u, tiles1[u].links[l].ref)
      {
        FacesRef(bits, tiles, tiles1, u, tiles1[u].links[l].ref);
      }
    }
  }

  /** A link to a live polygon nearby is added to tile `t`. */
  lemma AddLinkBuilds(bits: Bits, tiles: seq<Tile>, pools: seq<Pool>, t: nat, i: nat, ref: nat, edge: nat, side: nat)
    requires TilesOk(bits, tiles, pools) && Live(tiles, t) && i < |tiles[t].polys| && RefOk(bits, tiles, t, ref)
    ensures |pools| == |tiles| && i < |pools[t].lists| && |pools[t].home| == |tiles[t].links|
    ensures tiles[t].linksFreeList != NULL_LINK ==>
              0 <= tiles[t].linksFreeList < |tiles[t].links|
              && pools[t].free != [] && pools[t].free[0] == tiles[t].linksFreeList
    ensures var tiles1 := tiles[t := Added(tiles[t], i, ref, edge, side)];
            var pools1 := pools[t := PoolAdded(tiles[t], pools[t], i)];
            && Builds(bits, tiles, pools, tiles1, pools1)
            && (tiles1[t].linksFreeList == NULL_LINK || HasLink(tiles1[t], pools1[t], i, ref, edge, side))
  {
    assert TileOk(bits, tiles[t], pools[t]);
    AddedGrows(bits, tiles[t], pools[t], i, ref, edge, side);
    hide PoolOk, RefOk, Pow2, HasLink, DataOk;
    var tiles1 := tiles[t := Added(tiles[t], i, ref, edge, side)];
    var pools1 := pools[t := PoolAdded(tiles[t], pools[t], i)];
    assert TilesOk(bits, tiles1, pools1) by {
      forall u | 0 <= u < |tiles1| ensures TileOk(bits, tiles1[u], pools1[u]) {
        assert TileOk(bits, tiles[u], pools[u]);
      }
    }
    forall u | Live(tiles, u) ensures TileGrows(tiles[u], pools[u], tiles1[u], pools1[u]) {
      assert TileOk(bits, tiles[u], pools[u]);
      PoolSize(tiles[u], pools[u]);
    }
    if Sound(bits, tiles, pools) {
      AddLinkSound(bits, tiles, pools, tiles1, pools1, t, ref);
    }
  }
}
