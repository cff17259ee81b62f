/** Where tiles lie to each other, and what a link between polygons stands for. */
module NavMeshGeometry {
  import opened Basics
  import opened NavMeshIds
  import opened NavMeshLists
  import opened NavMeshLinks
  import opened NavMeshTiles

  /** What the coordinates decide: whether an edge of a polygon meets an edge of another tile's polygon, and the
      polygon on which an off-mesh connection starts (in its own tile) or lands (in a given tile). An index that is
      no polygon of the tile means there is none close enough. */
  datatype Geometry = Geometry(touches: (nat, nat, nat, nat, nat, nat) -> bool, start: (nat, nat) -> nat,
                               landing: (nat, nat, nat) -> nat)

  /** The cell of `b` lies on `side` of the cell of `a`; side -1 is the cell itself, the others go round from the
      direction of x by way of that of y. */
  predicate Beside(a: Header, b: Header, side: int) {
    var dx, dy := b.x - a.x, b.y - a.y;
    || (side == -1 && dx == 0 && dy == 0)
    || (side == 0 && dx == 1 && dy == 0)
    || (side == 1 && dx == 1 && dy == 1)
    || (side == 2 && dx == 0 && dy == 1)
    || (side == 3 && dx == -1 && dy == 1)
    || (side == 4 && dx == -1 && dy == 0)
    || (side == 5 && dx == -1 && dy == -1)
    || (side == 6 && dx == 0 && dy == -1)
    || (side == 7 && dx == 1 && dy == -1)
  }

  lemma BesideNear(a: Header, b: Header, side: int)
    requires Beside(a, b, side)
    ensures -1 <= side < 8 && Near(a, b) && Near(b, a)
    ensures Beside(b, a, if side == -1 then -1 else (side + 4) % 8)
  {
  }

  /** The layer does not matter. */
  lemma BesideCell(a: Header, b: Header, x: int, y: int, side: int)
    requires Beside(a, Header(x, y, 0), side) && b.x == x && b.y == y
    ensures Beside(a, b, side)
  {
  }

  /** The side as links and connections store it. */
  function StoredSide(side: int): nat {
    if 0 <= side < 8 then side else 0xff
  }

  // ---------------------------------------------------------------- what a link stands for

  ghost predicate LivePoly(tiles: seq<Tile>, t: nat, i: nat) {
    Live(tiles, t) && i < |tiles[t].polys|
  }

  /** Edge `edge` of polygon `i` is a portal to `side`, where the other tile lies or in the same cell, and meets an edge
      of polygon `p` that is a portal to the opposite side. */
  ghost predicate PortalLink(geo: Geometry, tiles: seq<Tile>, t: nat, i: nat, u: nat, p: nat, edge: nat, side: nat)
    requires LivePoly(tiles, t, i) && LivePoly(tiles, u, p)
  {
    && u != t && edge < |tiles[t].polys[i].neis|
    && tiles[t].polys[i].neis[edge] >= 0x8000 && side == tiles[t].polys[i].neis[edge] % 0x100
    && (Beside(tiles[t].header.value, tiles[u].header.value, -1)
        || Beside(tiles[t].header.value, tiles[u].header.value, side))
    && exists e | 0 <= e < |tiles[u].polys[p].neis| ::
         tiles[u].polys[p].neis[e] == 0x8000 + (side + 4) % 8 && geo.touches(t, i, edge, u, p, e)
  }

  /** A connection of the tile starts on one of the two polygons and is the other. */
  ghost predicate StartLink(geo: Geometry, tiles: seq<Tile>, t: nat, i: nat, p: nat, edge: nat, side: nat)
    requires Live(tiles, t)
  {
    side == 0xff && exists c | 0 <= c < |tiles[t].cons| ::
      || (tiles[t].cons[c].poly == i && geo.start(t, c) == p && edge == 0)
      || (geo.start(t, c) == i && tiles[t].cons[c].poly == p && edge == 0xff)
  }

  /** The side that is stored as `side` is where tile `u` lies. */
  ghost predicate LeadsTo(tiles: seq<Tile>, t: nat, u: nat, side: nat)
    requires Live(tiles, t) && Live(tiles, u)
  {
    exists s :: StoredSide(s) == side && Beside(tiles[t].header.value, tiles[u].header.value, s)
  }

  /** A connection of tile `t`, polygon `i`, leads to the side where tile `u` lies and lands on its polygon `p`. */
  ghost predicate LandLink(geo: Geometry, tiles: seq<Tile>, t: nat, i: nat, u: nat, p: nat, edge: nat, side: nat)
    requires Live(tiles, t) && Live(tiles, u)
  {
    edge == 1 && exists c | 0 <= c < |tiles[t].cons| ::
      && tiles[t].cons[c].poly == i && geo.landing(u, t, c) == p && tiles[t].cons[c].side == side
      && LeadsTo(tiles, t, u, side)
  }

  /** A connection of tile `u` that goes both ways, polygon `p`, lands on polygon `i`. */
  ghost predicate BackLink(geo: Geometry, tiles: seq<Tile>, t: nat, i: nat, u: nat, p: nat, edge: nat, side: nat)
    requires Live(tiles, t) && Live(tiles, u)
  {
    edge == 0xff && LeadsTo(tiles, t, u, side) && exists c | 0 <= c < |tiles[u].cons| ::
      && tiles[u].cons[c].poly == p && tiles[u].cons[c].bidir && geo.landing(t, u, c) == i
      && tiles[u].cons[c].side == if side == 0xff then 0xff else (side + 4) % 8
  }

  /** Polygon `i` has a link other than `l`. */
  ghost predicate OtherLink(pool: Pool, i: int, l: int) {
    exists m | 0 <= m < |pool.home| :: m != l && pool.home[m] == i
  }

  /** What a link of polygon `i` to polygon `p` of tile `u` stands for; `l` is its index. */
  ghost predicate Meant(geo: Geometry, tiles: seq<Tile>, pool: Pool, t: nat, i: nat, u: nat, p: nat, edge: nat,
                        side: nat, l: int)
  {
    LivePoly(tiles, t, i) && LivePoly(tiles, u, p) &&
    (|| PortalLink(geo, tiles, t, i, u, p, edge, side)
     || (u == t && StartLink(geo, tiles, t, i, p, edge, side))
     || (LandLink(geo, tiles, t, i, u, p, edge, side) && OtherLink(pool, i, l))
     || BackLink(geo, tiles, t, i, u, p, edge, side))
  }

  /** Link `l` of tile `t` names a polygon that it has a reason to lead to. */
  ghost predicate Justified(geo: Geometry, bits: Bits, tiles: seq<Tile>, pools: seq<Pool>, t: nat, l: nat) {
    && t < |tiles| == |pools| && l < |tiles[t].links| == |pools[t].home| && pools[t].home[l] >= 0
    && exists u: nat, p: nat ::
         && u < |tiles| && tiles[t].links[l].ref == RefTo(bits, tiles, u, p)
         && Meant(geo, tiles, pools[t], t, pools[t].home[l], u, p, tiles[t].links[l].edge, tiles[t].links[l].side, l)
  }

  /** Link `l` of tile `t` was not in use before and is now. */
  ghost predicate NewLink(ps: seq<Pool>, pools: seq<Pool>, t: nat, l: nat) {
    t < |ps| == |pools| && l < |ps[t].home| == |pools[t].home| && ps[t].home[l] < 0 <= pools[t].home[l]
  }

  /** All new links are justified. */
  ghost predicate AllMeant(geo: Geometry, bits: Bits, ts: seq<Tile>, ps: seq<Pool>, tiles: seq<Tile>,
                           pools: seq<Pool>)
  {
    forall t: nat, l: nat | Live(ts, t) && NewLink(ps, pools, t, l) :: Justified(geo, bits, tiles, pools, t, l)
  }

  // ---------------------------------------------------------------- while links are built

  ghost predicate SameSite(a: Tile, b: Tile) {
    SameFace(a, b) && (a.header.Some? ==> SameData(a, b))
  }

  /** The facts about tiles that what a link stands for depends on. */
  ghost predicate SameSites(ts: seq<Tile>, tiles: seq<Tile>) {
    |ts| == |tiles| && forall t | 0 <= t < |ts| :: SameSite(ts[t], tiles[t])
  }

  lemma BuildsSites(bits: Bits, ts: seq<Tile>, ps: seq<Pool>, tiles: seq<Tile>, pools: seq<Pool>)
    requires Builds(bits, ts, ps, tiles, pools)
    ensures SameSites(ts, tiles)
  {
    hide TilesOk, Sound;
    forall t | 0 <= t < |ts| ensures SameSite(ts[t], tiles[t]) {
      assert SameFace(ts[t], tiles[t]);
    }
  }

  lemma PortalStays(geo: Geometry, ts: seq<Tile>, tiles: seq<Tile>, t: nat, i: nat, u: nat, p: nat, edge: nat,
                    side: nat)
    requires SameSites(ts, tiles) && LivePoly(ts, t, i) && LivePoly(ts, u, p)
    requires PortalLink(geo, ts, t, i, u, p, edge, side)
    ensures LivePoly(tiles, t, i) && LivePoly(tiles, u, p) && PortalLink(geo, tiles, t, i, u, p, edge, side)
  {
    hide Beside;
    assert SameSite(ts[t], tiles[t]) && SameSite(ts[u], tiles[u]);
    assert SamePoly(ts[t].polys[i], tiles[t].polys[i]) && SamePoly(ts[u].polys[p], tiles[u].polys[p]);
  }

  lemma LeadsStays(ts: seq<Tile>, tiles: seq<Tile>, t: nat, u: nat, side: nat)
    requires SameSites(ts, tiles) && Live(ts, t) && Live(ts, u) && LeadsTo(ts, t, u, side)
    ensures Live(tiles, t) && Live(tiles, u) && LeadsTo(tiles, t, u, side)
  {
    hide Beside;
    assert SameSite(ts[t], tiles[t]) && SameSite(ts[u], tiles[u]);
  }

  lemma ConsStay(geo: Geometry, ts: seq<Tile>, tiles: seq<Tile>, t: nat, i: nat, u: nat, p: nat, edge: nat, side: nat)
    requires SameSites(ts, tiles) && LivePoly(ts, t, i) && LivePoly(ts, u, p)
    ensures LivePoly(tiles, t, i) && LivePoly(tiles, u, p)
    ensures StartLink(geo, ts, t, i, p, edge, side) ==> StartLink(geo, tiles, t, i, p, edge, side)
    ensures LandLink(geo, ts, t, i, u, p, edge, side) ==> LandLink(geo, tiles, t, i, u, p, edge, side)
    ensures BackLink(geo, ts, t, i, u, p, edge, side) ==> BackLink(geo, tiles, t, i, u, p, edge, side)
  {
    hide LeadsTo;
    assert SameSite(ts[t], tiles[t]) && SameSite(ts[u], tiles[u]);
    if LeadsTo(ts, t, u, side) {
      LeadsStays(ts, tiles, t, u, side);
    }
  }

  lemma MeantStays(geo: Geometry, ts: seq<Tile>, pool0: Pool, l0: int, tiles: seq<Tile>, pool: Pool, l: int, t: nat,
                   i: nat, u: nat, p: nat, edge: nat, side: nat)
    requires SameSites(ts, tiles) && Meant(geo, ts, pool0, t, i, u, p, edge, side, l0)
    requires OtherLink(pool0, i, l0) ==> OtherLink(pool, i, l)
    ensures Meant(geo, tiles, pool, t, i, u, p, edge, side, l)
  {
    hide OtherLink, PortalLink, StartLink, LandLink, BackLink;
    ConsStay(geo, ts, tiles, t, i, u, p, edge, side);
    if PortalLink(geo, ts, t, i, u, p, edge, side) {
      PortalStays(geo, ts, tiles, t, i, u, p, edge, side);
    }
  }

  lemma OtherStays(a: Tile, p: Pool, b: Tile, q: Pool, i: nat, l: int)
    requires TileGrows(a, p, b, q) && OtherLink(p, i, l)
    ensures OtherLink(q, i, l)
  {
    var m :| 0 <= m < |p.home| && m != l && p.home[m] == i;
    assert q.home[m] == i;
  }

  lemma JustifiedStays(geo: Geometry, bits: Bits, ts: seq<Tile>, ps: seq<Pool>, tiles: seq<Tile>, pools: seq<Pool>,
                       t: nat, l: nat)
    requires Builds(bits, ts, ps, tiles, pools) && Live(ts, t) && Justified(geo, bits, ts, ps, t, l)
    ensures Justified(geo, bits, tiles, pools, t, l)
  {
    BuildsSites(bits, ts, ps, tiles, pools);
    hide TilesOk, Sound, Meant, OtherLink, Encode;
    var link, i := ts[t].links[l], ps[t].home[l];
    var u: nat, p: nat :| u < |ts| && link.ref == RefTo(bits, ts, u, p)
                          && Meant(geo, ts, ps[t], t, i, u, p, link.edge, link.side, l);
    assert TileGrows(ts[t], ps[t], tiles[t], pools[t]);
    assert SameLink(ts[t].links[l], tiles[t].links[l]) && pools[t].home[l] == i;
    if OtherLink(ps[t], i, l) {
      OtherStays(ts[t], ps[t], tiles[t], pools[t], i, l);
    }
    MeantStays(geo, ts, ps[t], l, tiles, pools[t], l, t, i, u, p, link.edge, link.side);
    assert SameSite(ts[u], tiles[u]);
  }

  lemma NothingNew(geo: Geometry, bits: Bits, tiles: seq<Tile>, pools: seq<Pool>)
    ensures AllMeant(geo, bits, tiles, pools, tiles, pools)
  {
  }

  lemma BuildsLive(bits: Bits, ts: seq<Tile>, ps: seq<Pool>, tiles: seq<Tile>, pools: seq<Pool>)
    requires Builds(bits, ts, ps, tiles, pools)
    ensures |ps| == |ts| == |tiles| == |pools| && forall t :: Live(ts, t) <==> Live(tiles, t)
    ensures forall t | Live(ts, t) :: TileGrows(ts[t], ps[t], tiles[t], pools[t])
  {
    hide TilesOk, Sound, TileGrows;
    assert forall t | 0 <= t < |ts| :: SameFace(ts[t], tiles[t]);
  }

  /** What is new in the end was new in the first stretch or in the second. */
  lemma NewEither(bits: Bits, ts: seq<Tile>, ps: seq<Pool>, ts1: seq<Tile>, ps1: seq<Pool>, ts2: seq<Tile>,
                  ps2: seq<Pool>, t: nat, l: nat)
    requires Builds(bits, ts, ps, ts1, ps1) && Builds(bits, ts1, ps1, ts2, ps2)
    requires Live(ts, t) && NewLink(ps, ps2, t, l)
    ensures NewLink(ps, ps1, t, l) || NewLink(ps1, ps2, t, l)
  {
    BuildsLive(bits, ts, ps, ts1, ps1);
    hide Builds;
    assert TileGrows(ts[t], ps[t], ts1[t], ps1[t]);
  }

  /** One stretch of building after the other. */
  lemma MeantOn(geo: Geometry, bits: Bits, ts: seq<Tile>, ps: seq<Pool>, ts1: seq<Tile>, ps1: seq<Pool>,
                ts2: seq<Tile>, ps2: seq<Pool>)
    requires Builds(bits, ts, ps, ts1, ps1) && Builds(bits, ts1, ps1, ts2, ps2)
    requires AllMeant(geo, bits, ts, ps, ts1, ps1) && AllMeant(geo, bits, ts1, ps1, ts2, ps2)
    ensures Builds(bits, ts, ps, ts2, ps2) && AllMeant(geo, bits, ts, ps, ts2, ps2)
  {
    BuildsOn(bits, ts, ps, ts1, ps1, ts2, ps2);
    BuildsLive(bits, ts, ps, ts1, ps1);
    hide Justified, Builds, NewLink;
    forall t: nat, l: nat | Live(ts, t) && NewLink(ps, ps2, t, l) ensures Justified(geo, bits, ts2, ps2, t, l) {
      NewEither(bits, ts, ps, ts1, ps1, ts2, ps2, t, l);
      if NewLink(ps, ps1, t, l) {
        JustifiedStays(geo, bits, ts1, ps1, ts2, ps2, t, l);
      }
    }
  }

  // ---------------------------------------------------------------- one link

  /** At most one link is new: one of polygon `i` of tile `t`, as given. */
  ghost predicate OneNew(ts: seq<Tile>, ps: seq<Pool>, tiles: seq<Tile>, pools: seq<Pool>, t: nat, i: nat, ref: nat,
                         edge: nat, side: nat)
  {
    forall u: nat, l: nat | Live(ts, u) && NewLink(ps, pools, u, l) ::
      && u == t < |tiles| && l < |tiles[t].links| && pools[t].home[l] == i
      && SameLink(tiles[t].links[l], Link(ref, NULL_LINK, edge, side))
  }

  lemma OneNewIs(ts: seq<Tile>, ps: seq<Pool>, t: nat, i: nat, ref: nat, edge: nat, side: nat)
    requires t < |ts| == |ps| && PoolOk(ts[t], ps[t]) && i < |ts[t].polys|
    ensures |ps[t].lists| == |ts[t].polys| && |ps[t].home| == |ts[t].links|
    ensures ts[t].linksFreeList != NULL_LINK ==>
              0 <= ts[t].linksFreeList < |ts[t].links| && ps[t].free != [] && ps[t].free[0] == ts[t].linksFreeList
    ensures OneNew(ts, ps, ts[t := Added(ts[t], i, ref, edge, side)], ps[t := PoolAdded(ts[t], ps[t], i)], t, i, ref,
                   edge, side)
  {
    PoolSize(ts[t], ps[t]);
    FreeHead(ts[t], ps[t]);
    hide PoolOk;
  }

  /** A link there was before is another than a new one. */
  lemma OtherBefore(a: Tile, p: Pool, b: Tile, q: Pool, i: nat, l: int)
    requires TileGrows(a, p, b, q) && OtherLink(p, i, -1) && 0 <= l < |p.home| && p.home[l] < 0
    ensures OtherLink(q, i, l)
  {
    var m :| 0 <= m < |p.home| && m != -1 && p.home[m] == i;
    assert q.home[m] == i;
  }

  lemma OneJustified(geo: Geometry, bits: Bits, ts: seq<Tile>, ps: seq<Pool>, tiles: seq<Tile>, pools: seq<Pool>,
                     t: nat, i: nat, u: nat, p: nat, edge: nat, side: nat, l: nat)
    requires |ps| == |ts| == |tiles| == |pools| && u < |ts| && Live(ts, t) && SameSites(ts, tiles)
    requires TileGrows(ts[t], ps[t], tiles[t], pools[t]) && NewLink(ps, pools, t, l) && l < |tiles[t].links|
    requires pools[t].home[l] == i && SameLink(tiles[t].links[l], Link(RefTo(bits, ts, u, p), NULL_LINK, edge, side))
    requires Meant(geo, ts, ps[t], t, i, u, p, edge, side, -1)
    ensures Justified(geo, bits, tiles, pools, t, l)
  {
    hide Meant, OtherLink, Encode;
    if OtherLink(ps[t], i, -1) {
      OtherBefore(ts[t], ps[t], tiles[t], pools[t], i, l);
    }
    MeantStays(geo, ts, ps[t], -1, tiles, pools[t], l, t, i, u, p, edge, side);
    assert SameSite(ts[u], tiles[u]);
  }

  lemma OneNewMeant(geo: Geometry, bits: Bits, ts: seq<Tile>, ps: seq<Pool>, tiles: seq<Tile>, pools: seq<Pool>,
                    t: nat, i: nat, u: nat, p: nat, edge: nat, side: nat)
    requires Builds(bits, ts, ps, tiles, pools) && u < |ts|
    requires OneNew(ts, ps, tiles, pools, t, i, RefTo(bits, ts, u, p), edge, side)
    requires t < |ps| && Meant(geo, ts, ps[t], t, i, u, p, edge, side, -1)
    ensures AllMeant(geo, bits, ts, ps, tiles, pools)
  {
    BuildsSites(bits, ts, ps, tiles, pools);
    BuildsLive(bits, ts, ps, tiles, pools);
    hide Builds, TileGrows, OtherLink, SameSites, Justified, Meant, Encode;
    forall w: nat, l: nat | Live(ts, w) && NewLink(ps, pools, w, l) ensures Justified(geo, bits, tiles, pools, w, l) {
      OneJustified(geo, bits, ts, ps, tiles, pools, t, i, u, p, edge, side, l);
    }
  }
}
