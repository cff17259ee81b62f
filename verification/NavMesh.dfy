/** The navigation mesh: adding and removing tiles. Where polygons meet in space is given by a `Geometry`.

    What an operation may do to the tiles is said by predicates of two states: `Builds` for those that only
    add links, `Sheds` for those that only take links to one tile away; `AddedTile` and `RemovedTile` for whole
    calls. `Valid` is kept by all of them; `NoDangling` says that every link leads to a live polygon. */
module NavMesh {
  import opened Basics
  import opened NavMeshIds
  import opened NavMeshLists
  import opened NavMeshLinks
  import opened NavMeshTiles
  import opened NavMeshGeometry
  import opened NavMeshIndex
  import opened NavMeshBuild
  import opened NavMeshDetach
  import HashChains

  /** What a tile is loaded from. */
  datatype Data = Data(header: Header, polys: seq<Poly>, links: seq<Link>, cons: seq<Con>)

  datatype Status = Added(ref: nat) | Occupied | OutOfMemory

  /** How `removeTile` ends; `NoHeader` is a read of the header of a tile that has none. */
  datatype Removal = Removed | Refused | NoHeader

  /** `dtOppositeTile`. */
  function Opposite(side: nat): nat {
    (side + 4) % 8
  }

  const NO_SIDE: nat := 0xff

  function SideByte(side: int): nat
    requires -1 <= side < 8
  {
    if side == -1 then NO_SIDE else side
  }

  function OppositeByte(side: int): nat
    requires -1 <= side < 8
  {
    if side == -1 then NO_SIDE else Opposite(side)
  }

  function OppositeSide(side: int): int
    requires -1 <= side < 8
  {
    if side == -1 then -1 else Opposite(side)
  }

  // ---------------------------------------------------------------- portal edges

  /** Edge `j` of a polygon is a portal to `side`, or to any if `side` is -1. */
  predicate Faces(poly: Poly, j: nat, side: int)
    requires j < |poly.neis|
  {
    poly.neis[j] >= EXT_LINK && (side == -1 || poly.neis[j] % 0x100 == side)
  }

  /** Polygon `p` has a portal edge to `side` that meets edge `j` of polygon `i`. */
  predicate Meets(geo: Geometry, t: nat, i: nat, j: nat, u: nat, polys: seq<Poly>, p: nat, side: nat)
    requires p < |polys|
  {
    exists e | 0 <= e < |polys[p].neis| :: polys[p].neis[e] == EXT_LINK + side && geo.touches(t, i, j, u, p, e)
  }

  const MAX_CON: nat := 4

  /** The first polygons that meet an edge, at most four. */
  function Meeting(geo: Geometry, t: nat, i: nat, j: nat, u: nat, polys: seq<Poly>, n: nat, side: nat): (con: seq<nat>)
    requires n <= |polys|
    ensures |con| <= MAX_CON && forall k | 0 <= k < |con| :: con[k] < n && Meets(geo, t, i, j, u, polys, con[k], side)
    ensures |con| < MAX_CON ==> forall p | 0 <= p < n && Meets(geo, t, i, j, u, polys, p, side) :: p in con
  {
    if n == 0 then []
    else
      var before := Meeting(geo, t, i, j, u, polys, n - 1, side);
      if Meets(geo, t, i, j, u, polys, n - 1, side) && |before| < MAX_CON then before + [n - 1] else before
  }

  lemma {:induction false} MeetingSame(geo: Geometry, t: nat, i: nat, j: nat, u: nat, a: seq<Poly>, b: seq<Poly>,
                                       n: nat, side: nat)
    requires n <= |a| == |b| && forall k | 0 <= k < |a| :: SamePoly(a[k], b[k])
    ensures Meeting(geo, t, i, j, u, a, n, side) == Meeting(geo, t, i, j, u, b, n, side)
  {
    if n > 0 {
      MeetingSame(geo, t, i, j, u, a, b, n - 1, side);
      assert SamePoly(a[n - 1], b[n - 1]);
    }
  }

  function Refs(bits: Bits, ts: seq<Tile>, u: nat, con: seq<nat>): (refs: seq<nat>)
    requires u < |ts|
    ensures |refs| == |con| && forall k | 0 <= k < |con| :: refs[k] == RefTo(bits, ts, u, con[k])
  {
    seq(|con|, k requires 0 <= k < |con| => RefTo(bits, ts, u, con[k]))
  }

  /** Edge `j` of polygon `i` has links to the first `n` of `refs`, unless the links ran out. */
  ghost predicate AllLinked(tile: Tile, pool: Pool, i: nat, j: nat, dir: nat, refs: seq<nat>, n: nat)
    requires n <= |refs|
  {
    tile.linksFreeList != NULL_LINK ==> forall k | 0 <= k < n :: HasLink(tile, pool, i, refs[k], j, dir)
  }

  /** The edge's links to the polygons that meet it are there, unless the links ran out. */
  ghost predicate EdgeExtLinked(geo: Geometry, bits: Bits, ts: seq<Tile>, tiles: seq<Tile>, pools: seq<Pool>, t: nat,
                                u: nat, i: nat, j: nat)
    requires t < |ts| && u < |ts| == |tiles| == |pools| && i < |ts[t].polys| && j < |ts[t].polys[i].neis|
  {
    var dir := ts[t].polys[i].neis[j] % 0x100;
    var con := Meeting(geo, t, i, j, u, ts[u].polys, |ts[u].polys|, Opposite(dir));
    AllLinked(tiles[t], pools[t], i, j, dir, Refs(bits, ts, u, con), |con|)
  }

  lemma NoneLinked(tile: Tile, pool: Pool, i: nat, j: nat, dir: nat, refs: seq<nat>)
    ensures AllLinked(tile, pool, i, j, dir, refs, 0)
  {
  }

  lemma OneMoreLinked(tile: Tile, pool: Pool, i: nat, j: nat, dir: nat, refs: seq<nat>, n: nat)
    requires n < |refs| && AllLinked(tile, pool, i, j, dir, refs, n)
    requires tile.linksFreeList == NULL_LINK || HasLink(tile, pool, i, refs[n], j, dir)
    ensures AllLinked(tile, pool, i, j, dir, refs, n + 1)
  {
  }

  lemma AllLinkedKept(a: Tile, p: Pool, b: Tile, q: Pool, i: nat, j: nat, dir: nat, refs: seq<nat>, n: nat)
    requires n <= |refs| && TileGrows(a, p, b, q) && AllLinked(a, p, i, j, dir, refs, n)
    ensures AllLinked(b, q, i, j, dir, refs, n)
  {
    hide HasLink;
    if b.linksFreeList != NULL_LINK {
      forall k | 0 <= k < n ensures HasLink(b, q, i, refs[k], j, dir) {
        HasLinkKept(a, p, b, q, i, refs[k], j, dir);
      }
    }
  }

  /** The first `n` edges of polygon `i`. */
  ghost predicate ExtLinked(geo: Geometry, bits: Bits, ts: seq<Tile>, tiles: seq<Tile>, pools: seq<Pool>, t: nat,
                            u: nat, i: nat, side: int, n: nat)
    requires t < |ts| && u < |ts| == |tiles| == |pools| && i < |ts[t].polys| && n <= |ts[t].polys[i].neis|
  {
    forall j | 0 <= j < n && Faces(ts[t].polys[i], j, side) :: EdgeExtLinked(geo, bits, ts, tiles, pools, t, u, i, j)
  }

  lemma ExtLinkedKept(geo: Geometry, bits: Bits, ts: seq<Tile>, ts1: seq<Tile>, ps1: seq<Pool>, ts2: seq<Tile>,
                      ps2: seq<Pool>, t: nat, u: nat, i: nat, side: int, n: nat)
    requires t < |ts| && u < |ts| == |ts1| == |ps1| && Live(ts1, t) && i < |ts[t].polys| && n <= |ts[t].polys[i].neis|
    requires Builds(bits, ts1, ps1, ts2, ps2) && ExtLinked(geo, bits, ts, ts1, ps1, t, u, i, side, n)
    ensures |ts2| == |ps2| == |ts| && ExtLinked(geo, bits, ts, ts2, ps2, t, u, i, side, n)
  {
    hide AllLinked, TilesOk, Sound, Meeting, RefTo;
    forall j | 0 <= j < n && Faces(ts[t].polys[i], j, side) ensures EdgeExtLinked(geo, bits, ts, ts2, ps2, t, u, i, j) {
      assert EdgeExtLinked(geo, bits, ts, ts1, ps1, t, u, i, j);
      var dir := ts[t].polys[i].neis[j] % 0x100;
      var con := Meeting(geo, t, i, j, u, ts[u].polys, |ts[u].polys|, Opposite(dir));
      AllLinkedKept(ts1[t], ps1[t], ts2[t], ps2[t], i, j, dir, Refs(bits, ts, u, con), |con|);
    }
  }

  lemma NoEdgesYet(geo: Geometry, bits: Bits, ts: seq<Tile>, tiles: seq<Tile>, pools: seq<Pool>, t: nat, u: nat,
                   i: nat, side: int)
    requires t < |ts| && u < |ts| == |tiles| == |pools| && i < |ts[t].polys|
    ensures ExtLinked(geo, bits, ts, tiles, pools, t, u, i, side, 0)
  {
  }

  lemma OneMoreExt(geo: Geometry, bits: Bits, ts: seq<Tile>, tiles: seq<Tile>, pools: seq<Pool>, t: nat, u: nat, i: nat,
                   side: int, n: nat)
    requires t < |ts| && u < |ts| == |tiles| == |pools| && i < |ts[t].polys| && n < |ts[t].polys[i].neis|
    requires ExtLinked(geo, bits, ts, tiles, pools, t, u, i, side, n)
    requires Faces(ts[t].polys[i], n, side) ==> EdgeExtLinked(geo, bits, ts, tiles, pools, t, u, i, n)
    ensures ExtLinked(geo, bits, ts, tiles, pools, t, u, i, side, n + 1)
  {
    var m := n + 1;
    forall j | 0 <= j < m && Faces(ts[t].polys[i], j, side)
      ensures EdgeExtLinked(geo, bits, ts, tiles, pools, t, u, i, j)
    {
    }
  }

  /** So is a connection for links with the polygon it starts on. */
  lemma StartIsMeant(geo: Geometry, tiles: seq<Tile>, pools: seq<Pool>, t: nat, c: nat)
    requires Live(tiles, t) && |pools| == |tiles| && c < |tiles[t].cons| && tiles[t].cons[c].poly < |tiles[t].polys|
    requires geo.start(t, c) < |tiles[t].polys|
    ensures var p, from := geo.start(t, c), tiles[t].cons[c].poly;
            && Meant(geo, tiles, pools[t], t, from, t, p, 0, NO_SIDE, -1)
            && Meant(geo, tiles, pools[t], t, p, t, from, 0xff, NO_SIDE, -1)
  {
    hide PortalLink, LandLink, BackLink;
    var p, from := geo.start(t, c), tiles[t].cons[c].poly;
    assert StartLink(geo, tiles, t, from, p, 0, NO_SIDE) && StartLink(geo, tiles, t, p, from, 0xff, NO_SIDE);
  }

  /** An edge that meets a polygon of tile `u` is a reason for a link to it, also after links were built. */
  lemma MeetsIsPortal(geo: Geometry, bits: Bits, ts: seq<Tile>, ps: seq<Pool>, tiles: seq<Tile>, pools: seq<Pool>,
                      t: nat, i: nat, u: nat, p: nat, j: nat)
    requires Builds(bits, ts, ps, tiles, pools) && LivePoly(ts, t, i) && LivePoly(ts, u, p) && u != t
    requires j < |ts[t].polys[i].neis| && ts[t].polys[i].neis[j] >= EXT_LINK
    requires Beside(ts[t].header.value, ts[u].header.value, -1)
             || Beside(ts[t].header.value, ts[u].header.value, ts[t].polys[i].neis[j] % 0x100)
    requires Meets(geo, t, i, j, u, ts[u].polys, p, Opposite(ts[t].polys[i].neis[j] % 0x100))
    ensures t < |pools| && Meant(geo, tiles, pools[t], t, i, u, p, j, ts[t].polys[i].neis[j] % 0x100, -1)
  {
    BuildsLive(bits, ts, ps, tiles, pools);
    BuildsSites(bits, ts, ps, tiles, pools);
    hide Builds, TileGrows, Beside, StartLink, LandLink, BackLink, SameSites;
    var side := ts[t].polys[i].neis[j] % 0x100;
    assert PortalLink(geo, ts, t, i, u, p, j, side);
    PortalStays(geo, ts, tiles, t, i, u, p, j, side);
  }

  /** What stays the same of a live tile while links are built. */
  lemma BuildsFacts(bits: Bits, ts: seq<Tile>, ps: seq<Pool>, tiles: seq<Tile>, pools: seq<Pool>, t: nat)
    requires Builds(bits, ts, ps, tiles, pools) && t < |ts|
    ensures |tiles| == |pools| == |ts| == |ps| && SameFace(ts[t], tiles[t]) && TilesOk(bits, tiles, pools)
    ensures Live(ts, t) ==>
              && SameData(ts[t], tiles[t]) && TileGrows(ts[t], ps[t], tiles[t], pools[t])
              && forall i | 0 <= i < |ts[t].polys| :: SamePoly(ts[t].polys[i], tiles[t].polys[i])
  {
  }

  lemma BuildsRef(bits: Bits, ts: seq<Tile>, ps: seq<Pool>, tiles: seq<Tile>, pools: seq<Pool>, t: nat, ref: nat)
    requires Builds(bits, ts, ps, tiles, pools) && RefOk(bits, ts, t, ref)
    ensures RefOk(bits, tiles, t, ref)
  {
    hide TilesOk, RefOk;
    FacesRef(bits, ts, tiles, t, ref);
  }

  /** Every portal edge of tile `t` to `side` is linked to the polygons of tile `u` that meet it, unless the links ran
      out. */
  ghost predicate TileExtLinked(geo: Geometry, bits: Bits, tiles: seq<Tile>, pools: seq<Pool>, t: nat, u: nat,
                                side: int)
  {
    && t < |tiles| == |pools| && u < |tiles|
    && forall i | 0 <= i < |tiles[t].polys| ::
         ExtLinked(geo, bits, tiles, tiles, pools, t, u, i, side, |tiles[t].polys[i].neis|)
  }

  /** It does not matter whether an edge is described by the mesh before or after links were built. */
  lemma EdgeRebased(geo: Geometry, bits: Bits, ts: seq<Tile>, ps: seq<Pool>, tiles: seq<Tile>, pools: seq<Pool>,
                    t: nat, u: nat, i: nat, j: nat)
    requires Builds(bits, ts, ps, tiles, pools) && Live(ts, t) && Live(ts, u)
    requires i < |ts[t].polys| && j < |ts[t].polys[i].neis|
    ensures |tiles| == |pools| == |ts| && i < |tiles[t].polys| && tiles[t].polys[i].neis == ts[t].polys[i].neis
    ensures EdgeExtLinked(geo, bits, ts, tiles, pools, t, u, i, j)
            <==> EdgeExtLinked(geo, bits, tiles, tiles, pools, t, u, i, j)
  {
    BuildsFacts(bits, ts, ps, tiles, pools, t);
    BuildsFacts(bits, ts, ps, tiles, pools, u);
    hide TilesOk, AllLinked, Builds, TileGrows, Meeting;
    var dir := ts[t].polys[i].neis[j] % 0x100;
    assert SamePoly(ts[t].polys[i], tiles[t].polys[i]);
    MeetingSame(geo, t, i, j, u, ts[u].polys, tiles[u].polys, |ts[u].polys|, Opposite(dir));
    var con := Meeting(geo, t, i, j, u, ts[u].polys, |ts[u].polys|, Opposite(dir));
    assert Refs(bits, ts, u, con) == Refs(bits, tiles, u, con);
  }

  lemma SameNeis(a: Poly, b: Poly)
    requires SamePoly(a, b)
    ensures a.neis == b.neis
  {
  }

  lemma Rebased(geo: Geometry, bits: Bits, ts: seq<Tile>, ps: seq<Pool>, tiles: seq<Tile>, pools: seq<Pool>, t: nat,
                u: nat, side: int)
    requires Builds(bits, ts, ps, tiles, pools) && Live(ts, t) && Live(ts, u) && |tiles| == |pools| == |ts|
    requires forall i | 0 <= i < |ts[t].polys| ::
               ExtLinked(geo, bits, ts, tiles, pools, t, u, i, side, |ts[t].polys[i].neis|)
    ensures TileExtLinked(geo, bits, tiles, pools, t, u, side)
  {
    BuildsFacts(bits, ts, ps, tiles, pools, t);
    hide TilesOk, EdgeExtLinked, Builds, TileGrows, SamePoly;
    forall i | 0 <= i < |tiles[t].polys|
      ensures ExtLinked(geo, bits, tiles, tiles, pools, t, u, i, side, |tiles[t].polys[i].neis|)
    {
      assert ExtLinked(geo, bits, ts, tiles, pools, t, u, i, side, |ts[t].polys[i].neis|);
      forall j | 0 <= j < |tiles[t].polys[i].neis| && Faces(tiles[t].polys[i], j, side)
        ensures EdgeExtLinked(geo, bits, tiles, tiles, pools, t, u, i, j)
      {
        SameNeis(ts[t].polys[i], tiles[t].polys[i]);
        EdgeRebased(geo, bits, ts, ps, tiles, pools, t, u, i, j);
      }
    }
  }

  lemma TileExtLinkedKept(geo: Geometry, bits: Bits, ts: seq<Tile>, ps: seq<Pool>, tiles: seq<Tile>, pools: seq<Pool>,
                          t: nat, u: nat, side: int)
    requires Builds(bits, ts, ps, tiles, pools) && Live(ts, t) && Live(ts, u)
    requires TileExtLinked(geo, bits, ts, ps, t, u, side)
    ensures TileExtLinked(geo, bits, tiles, pools, t, u, side)
  {
    BuildsFacts(bits, ts, ps, tiles, pools, t);
    hide TilesOk, EdgeExtLinked, Builds, TileGrows, SamePoly, ExtLinked;
    forall i | 0 <= i < |ts[t].polys|
      ensures ExtLinked(geo, bits, ts, tiles, pools, t, u, i, side, |ts[t].polys[i].neis|)
    {
      assert ExtLinked(geo, bits, ts, ts, ps, t, u, i, side, |ts[t].polys[i].neis|);
      ExtLinkedKept(geo, bits, ts, ts, ps, tiles, pools, t, u, i, side, |ts[t].polys[i].neis|);
    }
    Rebased(geo, bits, ts, ps, tiles, pools, t, u, side);
  }

  /** Polygon `i` has the link, unless the links ran out. */
  ghost predicate OneLinked(tile: Tile, pool: Pool, i: nat, ref: nat, edge: nat, side: nat) {
    tile.linksFreeList == NULL_LINK || HasLink(tile, pool, i, ref, edge, side)
  }

  lemma OneLinkedKept(a: Tile, p: Pool, b: Tile, q: Pool, i: nat, ref: nat, edge: nat, side: nat)
    requires TileGrows(a, p, b, q) && OneLinked(a, p, i, ref, edge, side)
    ensures OneLinked(b, q, i, ref, edge, side)
  {
    if a.linksFreeList != NULL_LINK {
      HasLinkKept(a, p, b, q, i, ref, edge, side);
    }
  }

  /** Off-mesh connection `c` of tile `t` is tied to the polygon it starts on, both ways. */
  ghost predicate StartLinked(geo: Geometry, bits: Bits, tiles: seq<Tile>, pools: seq<Pool>, t: nat, c: nat) {
    t < |tiles| == |pools| && c < |tiles[t].cons| &&
    var p, from := geo.start(t, c), tiles[t].cons[c].poly;
    p < |tiles[t].polys| ==>
      && OneLinked(tiles[t], pools[t], from, RefTo(bits, tiles, t, p), 0, NO_SIDE)
      && OneLinked(tiles[t], pools[t], p, RefTo(bits, tiles, t, from), 0xff, NO_SIDE)
  }

  lemma StartLinkedKept(geo: Geometry, bits: Bits, ts: seq<Tile>, ps: seq<Pool>, tiles: seq<Tile>, pools: seq<Pool>,
                        t: nat, c: nat)
    requires Builds(bits, ts, ps, tiles, pools) && Live(ts, t) && StartLinked(geo, bits, ts, ps, t, c)
    ensures StartLinked(geo, bits, tiles, pools, t, c)
  {
    BuildsFacts(bits, ts, ps, tiles, pools, t);
    hide TilesOk, Builds, OneLinked, TileGrows;
    var p, from := geo.start(t, c), ts[t].cons[c].poly;
    if p < |ts[t].polys| {
      OneLinkedKept(ts[t], ps[t], tiles[t], pools[t], from, RefTo(bits, ts, t, p), 0, NO_SIDE);
      OneLinkedKept(ts[t], ps[t], tiles[t], pools[t], p, RefTo(bits, ts, t, from), 0xff, NO_SIDE);
    }
  }

  lemma AllStartKept(geo: Geometry, bits: Bits, ts: seq<Tile>, ps: seq<Pool>, tiles: seq<Tile>, pools: seq<Pool>,
                     t: nat)
    requires Builds(bits, ts, ps, tiles, pools) && Live(ts, t)
    requires forall c | 0 <= c < |ts[t].cons| :: StartLinked(geo, bits, ts, ps, t, c)
    ensures forall c | 0 <= c < |ts[t].cons| :: StartLinked(geo, bits, tiles, pools, t, c)
  {
    hide Builds, StartLinked;
    forall c | 0 <= c < |ts[t].cons| ensures StartLinked(geo, bits, tiles, pools, t, c) {
      StartLinkedKept(geo, bits, ts, ps, tiles, pools, t, c);
    }
  }

  predicate HasLinks(tile: Tile, i: nat) {
    i < |tile.polys| && tile.polys[i].firstLink != NULL_LINK
  }

  /** Off-mesh connection `c` of tile `u`, if it leads to `side` of tile `t` and its own polygon has links in `ts`, is
      linked to the polygon it lands on, and back if it goes both ways. */
  ghost predicate LandingLinked(geo: Geometry, bits: Bits, ts: seq<Tile>, tiles: seq<Tile>, pools: seq<Pool>, t: nat,
                                u: nat, side: int, c: nat)
    requires -1 <= side < 8
  {
    t < |tiles| == |pools| && u < |tiles| == |ts| && c < |tiles[u].cons| &&
    var con, p := tiles[u].cons[c], geo.landing(t, u, c);
    con.side == OppositeByte(side) && p < |tiles[t].polys| && HasLinks(ts[u], con.poly) ==>
      && OneLinked(tiles[u], pools[u], con.poly, RefTo(bits, tiles, t, p), 1, OppositeByte(side))
      && (con.bidir ==> OneLinked(tiles[t], pools[t], p, RefTo(bits, tiles, u, con.poly), 0xff, SideByte(side)))
  }

  lemma LandingLinkedKept(geo: Geometry, bits: Bits, base: seq<Tile>, ts: seq<Tile>, ps: seq<Pool>, tiles: seq<Tile>,
                          pools: seq<Pool>, t: nat, u: nat, side: int, c: nat)
    requires Builds(bits, ts, ps, tiles, pools) && Live(ts, t) && Live(ts, u) && -1 <= side < 8
    requires LandingLinked(geo, bits, base, ts, ps, t, u, side, c)
    ensures LandingLinked(geo, bits, base, tiles, pools, t, u, side, c)
  {
    BuildsFacts(bits, ts, ps, tiles, pools, t);
    BuildsFacts(bits, ts, ps, tiles, pools, u);
    hide TilesOk, Builds, OneLinked, TileGrows, HasLinks;
    var con, p := ts[u].cons[c], geo.landing(t, u, c);
    if con.side == OppositeByte(side) && p < |ts[t].polys| && HasLinks(base[u], con.poly) {
      OneLinkedKept(ts[u], ps[u], tiles[u], pools[u], con.poly, RefTo(bits, ts, t, p), 1, OppositeByte(side));
      if con.bidir {
        OneLinkedKept(ts[t], ps[t], tiles[t], pools[t], p, RefTo(bits, ts, u, con.poly), 0xff, SideByte(side));
      }
    }
  }

  lemma HeadIffHome(tile: Tile, pool: Pool, i: nat)
    requires PoolOk(tile, pool) && i < |tile.polys|
    ensures |pool.home| == |tile.links|
    ensures tile.polys[i].firstLink != NULL_LINK <==> exists l | 0 <= l < |pool.home| :: pool.home[l] == i
  {
    assert ListFrom(Nexts(tile.links), HeadOf(tile, i), ListOf(pool, i)) && Houses(pool, i);
    if tile.polys[i].firstLink != NULL_LINK {
      assert pool.home[ListOf(pool, i)[0]] == i;
    }
    if l :| 0 <= l < |pool.home| && pool.home[l] == i {
      assert HomeOk(pool, l);
    }
  }

  lemma PoolOfTile(bits: Bits, tiles: seq<Tile>, pools: seq<Pool>, u: nat)
    requires TilesOk(bits, tiles, pools) && Live(tiles, u)
    ensures |pools| == |tiles| && PoolOk(tiles[u], pools[u])
  {
    hide PoolOk;
    assert TileOk(bits, tiles[u], pools[u]);
  }

  /** A connection to the side where the other tile lies, and what its links say of the sides. */
  lemma ConLeads(geo: Geometry, tiles: seq<Tile>, t: nat, u: nat, side: int, c: nat)
    requires Live(tiles, t) && Live(tiles, u) && -1 <= side < 8 && c < |tiles[u].cons|
    requires Beside(tiles[t].header.value, tiles[u].header.value, side) && tiles[u].cons[c].side == OppositeByte(side)
    ensures var con, p := tiles[u].cons[c], geo.landing(t, u, c);
            && LandLink(geo, tiles, u, con.poly, t, p, 1, OppositeByte(side))
            && (con.bidir ==> BackLink(geo, tiles, t, p, u, con.poly, 0xff, SideByte(side)))
  {
    BesideNear(tiles[t].header.value, tiles[u].header.value, side);
    hide Beside;
    var back := OppositeSide(side);
    assert StoredSide(side) == SideByte(side) && StoredSide(back) == OppositeByte(side);
    assert LeadsTo(tiles, t, u, SideByte(side)) && LeadsTo(tiles, u, t, OppositeByte(side));
  }

  lemma LandIsMeant(geo: Geometry, bits: Bits, tiles: seq<Tile>, pools: seq<Pool>, t: nat, i: nat, u: nat, p: nat,
                    side: nat)
    requires TilesOk(bits, tiles, pools) && LivePoly(tiles, t, i) && LivePoly(tiles, u, p)
    requires LandLink(geo, tiles, t, i, u, p, 1, side) && HasLinks(tiles[t], i)
    ensures t < |pools| && Meant(geo, tiles, pools[t], t, i, u, p, 1, side, -1)
  {
    PoolOfTile(bits, tiles, pools, t);
    hide TilesOk, PoolOk, PortalLink, StartLink, BackLink, LandLink;
    HeadIffHome(tiles[t], pools[t], i);
    var l :| 0 <= l < |pools[t].home| && pools[t].home[l] == i;
    assert OtherLink(pools[t], i, -1);
  }

  lemma BackIsMeant(geo: Geometry, bits: Bits, ts: seq<Tile>, ps: seq<Pool>, tiles: seq<Tile>, pools: seq<Pool>,
                    t: nat, i: nat, u: nat, p: nat, side: nat)
    requires Builds(bits, ts, ps, tiles, pools) && LivePoly(ts, t, i) && LivePoly(ts, u, p)
    requires BackLink(geo, ts, t, i, u, p, 0xff, side)
    ensures t < |pools| && Meant(geo, tiles, pools[t], t, i, u, p, 0xff, side, -1)
  {
    BuildsSites(bits, ts, ps, tiles, pools);
    BuildsLive(bits, ts, ps, tiles, pools);
    hide Builds, PortalLink, StartLink, BackLink, LandLink, SameSites;
    ConsStay(geo, ts, tiles, t, i, u, p, 0xff, side);
  }

  /** A polygon that has links keeps having some. */
  lemma HasLinksKept(bits: Bits, ts: seq<Tile>, ps: seq<Pool>, tiles: seq<Tile>, pools: seq<Pool>, u: nat, i: nat)
    requires Builds(bits, ts, ps, tiles, pools) && Live(ts, u) && HasLinks(ts[u], i)
    ensures |tiles| == |ts| && HasLinks(tiles[u], i)
  {
    BuildsFacts(bits, ts, ps, tiles, pools, u);
    PoolOfTile(bits, ts, ps, u);
    PoolOfTile(bits, tiles, pools, u);
    hide TilesOk, Builds, Sound, PoolOk;
    HeadIffHome(ts[u], ps[u], i);
    HeadIffHome(tiles[u], pools[u], i);
  }

  /** Tile `t` is linked, both ways, to the other tiles of the cell that lies on `side` of it; -1 is its own cell. */
  ghost predicate Joined(geo: Geometry, bits: Bits, tiles: seq<Tile>, pools: seq<Pool>, t: nat, x: int, y: int,
                         side: int)
    requires -1 <= side < 8
  {
    forall u | InCell(tiles, u, x, y) && u != t ::
      && TileExtLinked(geo, bits, tiles, pools, t, u, side)
      && TileExtLinked(geo, bits, tiles, pools, u, t, OppositeSide(side))
  }

  lemma JoinedKept(geo: Geometry, bits: Bits, ts: seq<Tile>, ps: seq<Pool>, tiles: seq<Tile>, pools: seq<Pool>, t: nat,
                   x: int, y: int, side: int)
    requires Builds(bits, ts, ps, tiles, pools) && Live(ts, t) && -1 <= side < 8
             && Joined(geo, bits, ts, ps, t, x, y, side)
    ensures Joined(geo, bits, tiles, pools, t, x, y, side)
  {
    hide TileExtLinked, Sound, TilesOk, TileGrows;
    BuildsFacts(bits, ts, ps, tiles, pools, t);
    forall u | InCell(tiles, u, x, y) && u != t
      ensures TileExtLinked(geo, bits, tiles, pools, t, u, side)
      ensures TileExtLinked(geo, bits, tiles, pools, u, t, OppositeSide(side))
    {
      BuildsFacts(bits, ts, ps, tiles, pools, u);
      assert InCell(ts, u, x, y);
      TileExtLinkedKept(geo, bits, ts, ps, tiles, pools, t, u, side);
      TileExtLinkedKept(geo, bits, ts, ps, tiles, pools, u, t, OppositeSide(side));
    }
  }

  /** `getNeighbourTilesAt`: the cell on a side. */
  function StepX(side: nat): (dx: int)
    ensures -1 <= dx <= 1
  {
    if side == 0 || side == 1 || side == 7 then 1 else if side == 3 || side == 4 || side == 5 then -1 else 0
  }

  function StepY(side: nat): (dy: int)
    ensures -1 <= dy <= 1
  {
    if side == 1 || side == 2 || side == 3 then 1 else if side == 5 || side == 6 || side == 7 then -1 else 0
  }

  /** Joined to its own cell and to the first `n` around it, as far as the mesh looks at all tiles of a cell. */
  ghost predicate AllJoined(geo: Geometry, bits: Bits, tiles: seq<Tile>, pools: seq<Pool>, t: nat, x: int, y: int,
                            n: nat)
    requires n <= 8
  {
    && (CellFits(tiles, x, y, NO_TILE) ==> Joined(geo, bits, tiles, pools, t, x, y, -1))
    && forall k | 0 <= k < n && CellFits(tiles, x + StepX(k), y + StepY(k), NO_TILE) ::
         Joined(geo, bits, tiles, pools, t, x + StepX(k), y + StepY(k), k)
  }

  lemma CellSame(ts: seq<Tile>, tiles: seq<Tile>, t: int, x: int, y: int)
    requires |ts| == |tiles| && forall u | 0 <= u < |ts| :: ts[u].header == tiles[u].header
    ensures CellFits(ts, x, y, t) == CellFits(tiles, x, y, t)
  {
    forall u: nat ensures u in CellSet(ts, x, y) <==> u in CellSet(tiles, x, y) {
    }
    assert CellSet(ts, x, y) == CellSet(tiles, x, y);
  }

  lemma CellsSame(ts: seq<Tile>, tiles: seq<Tile>, t: int, x: int, y: int)
    requires SameFaces(ts, tiles)
    ensures CellFits(ts, x, y, t) == CellFits(tiles, x, y, t)
  {
    assert forall u | 0 <= u < |ts| :: SameFace(ts[u], tiles[u]) && ts[u].header == tiles[u].header;
    CellSame(ts, tiles, t, x, y);
  }

  lemma FitsStill(bits: Bits, ts: seq<Tile>, ps: seq<Pool>, tiles: seq<Tile>, pools: seq<Pool>, x: int, y: int)
    requires Builds(bits, ts, ps, tiles, pools)
    ensures CellFits(tiles, x, y, NO_TILE) == CellFits(ts, x, y, NO_TILE)
  {
    hide Sound, TilesOk, CellFits;
    assert SameFaces(ts, tiles);
    CellsSame(ts, tiles, NO_TILE, x, y);
  }

  lemma AllJoinedKept(geo: Geometry, bits: Bits, ts: seq<Tile>, ps: seq<Pool>, tiles: seq<Tile>, pools: seq<Pool>,
                      t: nat, x: int, y: int, n: nat)
    requires n < 8 && Builds(bits, ts, ps, tiles, pools) && Live(ts, t) && AllJoined(geo, bits, ts, ps, t, x, y, n)
    requires CellFits(tiles, x + StepX(n), y + StepY(n), NO_TILE) ==>
               Joined(geo, bits, tiles, pools, t, x + StepX(n), y + StepY(n), n)
    ensures AllJoined(geo, bits, tiles, pools, t, x, y, n + 1)
  {
    hide Builds, Joined, CellFits;
    FitsStill(bits, ts, ps, tiles, pools, x, y);
    if CellFits(ts, x, y, NO_TILE) {
      JoinedKept(geo, bits, ts, ps, tiles, pools, t, x, y, -1);
    }
    var m := n + 1;
    forall k | 0 <= k < m && CellFits(tiles, x + StepX(k), y + StepY(k), NO_TILE)
      ensures Joined(geo, bits, tiles, pools, t, x + StepX(k), y + StepY(k), k)
    {
      FitsStill(bits, ts, ps, tiles, pools, x + StepX(k), y + StepY(k));
      if k < n {
        JoinedKept(geo, bits, ts, ps, tiles, pools, t, x + StepX(k), y + StepY(k), k);
      }
    }
  }

  // ---------------------------------------------------------------- where off-mesh connections land

  predicate SameButNext(a: Tile, b: Tile) {
    b == a.(next := b.next)
  }

  /** All connections of tile `u` that land on tile `t`, `side` of which they lead to. */
  ghost predicate Landings(geo: Geometry, bits: Bits, base: seq<Tile>, tiles: seq<Tile>, pools: seq<Pool>, t: nat,
                           u: nat, side: int)
    requires -1 <= side < 8
  {
    u < |tiles| && forall c | 0 <= c < |tiles[u].cons| :: LandingLinked(geo, bits, base, tiles, pools, t, u, side, c)
  }

  lemma LandingsKept(geo: Geometry, bits: Bits, base: seq<Tile>, ts: seq<Tile>, ps: seq<Pool>, tiles: seq<Tile>,
                     pools: seq<Pool>, t: nat, u: nat, side: int)
    requires Builds(bits, ts, ps, tiles, pools) && Live(ts, t) && Live(ts, u) && -1 <= side < 8
    requires Landings(geo, bits, base, ts, ps, t, u, side)
    ensures Landings(geo, bits, base, tiles, pools, t, u, side)
  {
    BuildsFacts(bits, ts, ps, tiles, pools, u);
    hide Builds, LandingLinked, TileGrows;
    forall c | 0 <= c < |tiles[u].cons| ensures LandingLinked(geo, bits, base, tiles, pools, t, u, side, c) {
      LandingLinkedKept(geo, bits, base, ts, ps, tiles, pools, t, u, side, c);
    }
  }

  /** A polygon that had links before is one that has links. */
  lemma LandingsSince(geo: Geometry, bits: Bits, base: seq<Tile>, bs: seq<Pool>, ts: seq<Tile>, ps: seq<Pool>,
                      tiles: seq<Tile>, pools: seq<Pool>, t: nat, u: nat, side: int)
    requires Builds(bits, base, bs, ts, ps) && Live(base, u) && -1 <= side < 8
    requires Landings(geo, bits, ts, tiles, pools, t, u, side)
    ensures Landings(geo, bits, base, tiles, pools, t, u, side)
  {
    BuildsFacts(bits, base, bs, ts, ps, u);
    hide Builds, HasLinks, OneLinked, TilesOk, TileGrows;
    forall c | 0 <= c < |tiles[u].cons| ensures LandingLinked(geo, bits, base, tiles, pools, t, u, side, c) {
      assert LandingLinked(geo, bits, ts, tiles, pools, t, u, side, c);
      if HasLinks(base[u], tiles[u].cons[c].poly) {
        HasLinksKept(bits, base, bs, ts, ps, u, tiles[u].cons[c].poly);
      }
    }
  }

  /** Off-mesh connections between tile `t` and the tiles of the cell on `side` of it, in either direction. */
  ghost predicate Landed(geo: Geometry, bits: Bits, base: seq<Tile>, tiles: seq<Tile>, pools: seq<Pool>, t: nat,
                         x: int, y: int, side: int)
    requires -1 <= side < 8
  {
    forall u | InCell(tiles, u, x, y) ::
      && Landings(geo, bits, base, tiles, pools, t, u, side)
      && Landings(geo, bits, base, tiles, pools, u, t, OppositeSide(side))
  }

  lemma LandedKept(geo: Geometry, bits: Bits, base: seq<Tile>, ts: seq<Tile>, ps: seq<Pool>, tiles: seq<Tile>,
                   pools: seq<Pool>, t: nat, x: int, y: int, side: int)
    requires Builds(bits, ts, ps, tiles, pools) && Live(ts, t) && -1 <= side < 8
    requires Landed(geo, bits, base, ts, ps, t, x, y, side)
    ensures Landed(geo, bits, base, tiles, pools, t, x, y, side)
  {
    hide Landings, Sound, TilesOk, TileGrows;
    forall u | InCell(tiles, u, x, y)
      ensures Landings(geo, bits, base, tiles, pools, t, u, side)
      ensures Landings(geo, bits, base, tiles, pools, u, t, OppositeSide(side))
    {
      BuildsFacts(bits, ts, ps, tiles, pools, u);
      assert InCell(ts, u, x, y);
      LandingsKept(geo, bits, base, ts, ps, tiles, pools, t, u, side);
      LandingsKept(geo, bits, base, ts, ps, tiles, pools, u, t, OppositeSide(side));
    }
  }

  lemma LandedSince(geo: Geometry, bits: Bits, base: seq<Tile>, bs: seq<Pool>, ts: seq<Tile>, ps: seq<Pool>,
                    tiles: seq<Tile>, pools: seq<Pool>, t: nat, x: int, y: int, side: int)
    requires Builds(bits, base, bs, ts, ps) && Builds(bits, ts, ps, tiles, pools) && Live(base, t) && -1 <= side < 8
    requires Landed(geo, bits, ts, tiles, pools, t, x, y, side)
    ensures Landed(geo, bits, base, tiles, pools, t, x, y, side)
  {
    hide Landings, Sound, TilesOk, TileGrows;
    forall u | InCell(tiles, u, x, y)
      ensures Landings(geo, bits, base, tiles, pools, t, u, side)
      ensures Landings(geo, bits, base, tiles, pools, u, t, OppositeSide(side))
    {
      BuildsFacts(bits, base, bs, ts, ps, u);
      BuildsFacts(bits, ts, ps, tiles, pools, u);
      LandingsSince(geo, bits, base, bs, ts, ps, tiles, pools, t, u, side);
      LandingsSince(geo, bits, base, bs, ts, ps, tiles, pools, u, t, OppositeSide(side));
    }
  }

  /** The cell on a side, or the own cell for -1. */
  function CellX(side: int): int
    requires -1 <= side < 8
  {
    if side == -1 then 0 else StepX(side)
  }

  function CellY(side: int): int
    requires -1 <= side < 8
  {
    if side == -1 then 0 else StepY(side)
  }

  /** So for the cell on side `k`, if the mesh looks at all tiles of it. */
  ghost predicate LandedAt(geo: Geometry, bits: Bits, base: seq<Tile>, tiles: seq<Tile>, pools: seq<Pool>, t: nat,
                           x: int, y: int, k: int)
    requires -1 <= k < 8
  {
    CellFits(tiles, x + CellX(k), y + CellY(k), NO_TILE) ==>
      Landed(geo, bits, base, tiles, pools, t, x + CellX(k), y + CellY(k), k)
  }

  ghost predicate AllLanded(geo: Geometry, bits: Bits, base: seq<Tile>, tiles: seq<Tile>, pools: seq<Pool>, t: nat,
                            x: int, y: int, n: nat)
    requires n <= 8
  {
    forall k | -1 <= k < n :: LandedAt(geo, bits, base, tiles, pools, t, x, y, k)
  }

  lemma LandedAtKept(geo: Geometry, bits: Bits, base: seq<Tile>, ts: seq<Tile>, ps: seq<Pool>, tiles: seq<Tile>,
                     pools: seq<Pool>, t: nat, x: int, y: int, k: int)
    requires -1 <= k < 8 && Builds(bits, ts, ps, tiles, pools) && Live(ts, t)
    requires LandedAt(geo, bits, base, ts, ps, t, x, y, k)
    ensures LandedAt(geo, bits, base, tiles, pools, t, x, y, k)
  {
    hide Builds, Landed, CellFits, CellX, CellY;
    FitsStill(bits, ts, ps, tiles, pools, x + CellX(k), y + CellY(k));
    if CellFits(tiles, x + CellX(k), y + CellY(k), NO_TILE) {
      LandedKept(geo, bits, base, ts, ps, tiles, pools, t, x + CellX(k), y + CellY(k), k);
    }
  }

  lemma LandedAtSince(geo: Geometry, bits: Bits, base: seq<Tile>, bs: seq<Pool>, ts: seq<Tile>, ps: seq<Pool>,
                      tiles: seq<Tile>, pools: seq<Pool>, t: nat, x: int, y: int, k: int)
    requires -1 <= k < 8 && Builds(bits, base, bs, ts, ps) && Builds(bits, ts, ps, tiles, pools) && Live(base, t)
    requires LandedAt(geo, bits, ts, tiles, pools, t, x, y, k)
    ensures LandedAt(geo, bits, base, tiles, pools, t, x, y, k)
  {
    hide Builds, Landed, CellFits, CellX, CellY;
    if CellFits(tiles, x + CellX(k), y + CellY(k), NO_TILE) {
      LandedSince(geo, bits, base, bs, ts, ps, tiles, pools, t, x + CellX(k), y + CellY(k), k);
    }
  }

  lemma AllLandedKept(geo: Geometry, bits: Bits, base: seq<Tile>, bs: seq<Pool>, ts: seq<Tile>, ps: seq<Pool>,
                      tiles: seq<Tile>, pools: seq<Pool>, t: nat, x: int, y: int, n: nat)
    requires n < 8 && Builds(bits, base, bs, ts, ps) && Builds(bits, ts, ps, tiles, pools) && Live(base, t)
    requires AllLanded(geo, bits, base, ts, ps, t, x, y, n) && LandedAt(geo, bits, ts, tiles, pools, t, x, y, n)
    ensures AllLanded(geo, bits, base, tiles, pools, t, x, y, n + 1)
  {
    BuildsFacts(bits, base, bs, ts, ps, t);
    hide Builds, LandedAt;
    LandedAtSince(geo, bits, base, bs, ts, ps, tiles, pools, t, x, y, n);
    forall k | -1 <= k < n ensures LandedAt(geo, bits, base, tiles, pools, t, x, y, k) {
      LandedAtKept(geo, bits, base, ts, ps, tiles, pools, t, x, y, k);
    }
  }

  /** A connection of the new tile `t`, once it is tied to the polygon it starts on, is linked to the polygon of tile
      `u` it lands on, and back if it goes both ways, unless the links of either tile ran out. */
  ghost predicate OwnLanding(geo: Geometry, bits: Bits, tiles: seq<Tile>, pools: seq<Pool>, t: nat, u: nat, side: int,
                             c: nat)
    requires -1 <= side < 8
  {
    t < |tiles| && c < |tiles[t].cons| &&
    (tiles[t].linksFreeList != NULL_LINK && geo.start(t, c) < |tiles[t].polys| ==>
       HasLinks(tiles[t], tiles[t].cons[c].poly)
       && LandingLinked(geo, bits, tiles, tiles, pools, u, t, OppositeSide(side), c))
  }

  /** What a new tile `t` comes to in the cell on `side` of it: connections of the tiles that were there before, from
      polygons that had links, and those of its own. */
  ghost predicate CellLanded(geo: Geometry, bits: Bits, was: seq<Tile>, tiles: seq<Tile>, pools: seq<Pool>, t: nat,
                             x: int, y: int, side: int)
    requires -1 <= side < 8
  {
    t < |tiles| && forall u | InCell(tiles, u, x, y) ::
      && (u != t ==> Landings(geo, bits, was, tiles, pools, t, u, side))
      && forall c | 0 <= c < |tiles[t].cons| :: OwnLanding(geo, bits, tiles, pools, t, u, side, c)
  }

  /** So for the cell on side `k`, if the mesh looks at all tiles of it. */
  ghost predicate CellLandedAt(geo: Geometry, bits: Bits, was: seq<Tile>, tiles: seq<Tile>, pools: seq<Pool>, t: nat,
                               x: int, y: int, k: int)
    requires -1 <= k < 8
  {
    CellFits(tiles, x + CellX(k), y + CellY(k), NO_TILE) ==>
      CellLanded(geo, bits, was, tiles, pools, t, x + CellX(k), y + CellY(k), k)
  }

  ghost predicate CellsLanded(geo: Geometry, bits: Bits, was: seq<Tile>, tiles: seq<Tile>, pools: seq<Pool>, t: nat,
                              x: int, y: int)
  {
    forall k | -1 <= k < 8 :: CellLandedAt(geo, bits, was, tiles, pools, t, x, y, k)
  }

  /** A polygon with a link has a list of links. */
  lemma LinkedHasLinks(bits: Bits, tiles: seq<Tile>, pools: seq<Pool>, t: nat, i: nat, ref: nat, edge: nat, side: nat)
    requires TilesOk(bits, tiles, pools) && Live(tiles, t) && i < |tiles[t].polys| && |pools| == |tiles|
    requires HasLink(tiles[t], pools[t], i, ref, edge, side)
    ensures HasLinks(tiles[t], i)
  {
    PoolOfTile(bits, tiles, pools, t);
    HeadIffHome(tiles[t], pools[t], i);
  }

  lemma ConInRange(bits: Bits, tiles: seq<Tile>, pools: seq<Pool>, t: nat, c: nat)
    requires TilesOk(bits, tiles, pools) && Live(tiles, t) && c < |tiles[t].cons|
    ensures tiles[t].cons[c].poly < |tiles[t].polys|
  {
    hide PoolOk;
    assert TileOk(bits, tiles[t], pools[t]);
  }

  lemma OwnLandingIs(geo: Geometry, bits: Bits, base: seq<Tile>, bs: seq<Pool>, tiles: seq<Tile>, pools: seq<Pool>,
                     t: nat, u: nat, side: int, c: nat)
    requires Builds(bits, base, bs, tiles, pools) && Live(base, t) && -1 <= side < 8 && c < |base[t].cons|
    requires StartLinked(geo, bits, base, bs, t, c)
    requires t < |tiles| && c < |tiles[t].cons|
    requires LandingLinked(geo, bits, base, tiles, pools, u, t, OppositeSide(side), c)
    ensures OwnLanding(geo, bits, tiles, pools, t, u, side, c)
  {
    BuildsFacts(bits, base, bs, tiles, pools, t);
    ConInRange(bits, base, bs, t, c);
    var from := base[t].cons[c].poly;
    if tiles[t].linksFreeList != NULL_LINK && geo.start(t, c) < |tiles[t].polys| {
      hide TilesOk, HasLink, Sound;
      LinkedHasLinks(bits, base, bs, t, from, RefTo(bits, base, t, geo.start(t, c)), 0, NO_SIDE);
      HasLinksKept(bits, base, bs, tiles, pools, t, from);
    }
  }

  /** Tiles that were there before have the polygons with the links they had when the new tile was put in. */
  lemma LandingsBefore(geo: Geometry, bits: Bits, was: seq<Tile>, base: seq<Tile>, tiles: seq<Tile>, pools: seq<Pool>,
                       t: nat, u: nat, side: int)
    requires u < |was| == |base| == |tiles| && -1 <= side < 8
    requires forall i :: HasLinks(was[u], i) ==> HasLinks(base[u], i)
    requires Landings(geo, bits, base, tiles, pools, t, u, side)
    ensures Landings(geo, bits, was, tiles, pools, t, u, side)
  {
    hide HasLinks, OneLinked;
    forall c | 0 <= c < |tiles[u].cons| ensures LandingLinked(geo, bits, was, tiles, pools, t, u, side, c) {
      assert LandingLinked(geo, bits, base, tiles, pools, t, u, side, c);
    }
  }

  lemma SameHasLinks(a: Tile, b: Tile, i: nat)
    requires SameButNext(a, b)
    ensures HasLinks(a, i) == HasLinks(b, i)
  {
  }

  lemma LandingOf(geo: Geometry, bits: Bits, base: seq<Tile>, tiles: seq<Tile>, pools: seq<Pool>, t: nat, u: nat,
                  side: int, c: nat)
    requires -1 <= side < 8 && Landings(geo, bits, base, tiles, pools, t, u, side)
    ensures u < |tiles| && (c < |tiles[u].cons| ==> LandingLinked(geo, bits, base, tiles, pools, t, u, side, c))
  {
  }

  /** From the connections as they were when tile `t` was tied to its own polygons to what that means in the end. */
  lemma CellLandedIs(geo: Geometry, bits: Bits, was: seq<Tile>, ts: seq<Tile>, ps: seq<Pool>, base: seq<Tile>,
                     bs: seq<Pool>, tiles: seq<Tile>, pools: seq<Pool>, t: nat, x: int, y: int, side: int)
    requires |was| == |ts| && forall u | 0 <= u < |ts| && u != t :: SameButNext(was[u], ts[u])
    requires Builds(bits, ts, ps, base, bs) && Builds(bits, base, bs, tiles, pools) && Live(base, t)
    requires forall c | 0 <= c < |base[t].cons| :: StartLinked(geo, bits, base, bs, t, c)
    requires -1 <= side < 8 && Landed(geo, bits, base, tiles, pools, t, x, y, side)
    ensures CellLanded(geo, bits, was, tiles, pools, t, x, y, side)
  {
    BuildsFacts(bits, base, bs, tiles, pools, t);
    hide Builds, StartLinked, LandingLinked, Landings, OwnLanding, TilesOk, TileGrows, HasLinks;
    forall u | InCell(tiles, u, x, y) && u != t ensures Landings(geo, bits, was, tiles, pools, t, u, side) {
      BuildsFacts(bits, base, bs, tiles, pools, u);
      BuildsFacts(bits, ts, ps, base, bs, u);
      forall i: nat | HasLinks(was[u], i) ensures HasLinks(base[u], i) {
        SameHasLinks(was[u], ts[u], i);
        HasLinksKept(bits, ts, ps, base, bs, u, i);
      }
      LandingsBefore(geo, bits, was, base, tiles, pools, t, u, side);
    }
    forall u, c | InCell(tiles, u, x, y) && 0 <= c < |tiles[t].cons|
      ensures OwnLanding(geo, bits, tiles, pools, t, u, side, c)
    {
      LandingOf(geo, bits, base, tiles, pools, u, t, OppositeSide(side), c);
      OwnLandingIs(geo, bits, base, bs, tiles, pools, t, u, side, c);
    }
  }

  lemma CellsLandedIs(geo: Geometry, bits: Bits, was: seq<Tile>, ts: seq<Tile>, ps: seq<Pool>, base: seq<Tile>,
                      bs: seq<Pool>, tiles: seq<Tile>, pools: seq<Pool>, t: nat, x: int, y: int)
    requires |was| == |ts| && forall u | 0 <= u < |ts| && u != t :: SameButNext(was[u], ts[u])
    requires Builds(bits, ts, ps, base, bs) && Builds(bits, base, bs, tiles, pools) && Live(base, t)
    requires forall c | 0 <= c < |base[t].cons| :: StartLinked(geo, bits, base, bs, t, c)
    requires AllLanded(geo, bits, base, tiles, pools, t, x, y, 8)
    ensures CellsLanded(geo, bits, was, tiles, pools, t, x, y)
  {
    hide Builds, StartLinked, CellFits, Landed, CellLanded, CellX, CellY;
    forall k | -1 <= k < 8 ensures CellLandedAt(geo, bits, was, tiles, pools, t, x, y, k) {
      assert LandedAt(geo, bits, base, tiles, pools, t, x, y, k);
      if CellFits(tiles, x + CellX(k), y + CellY(k), NO_TILE) {
        CellLandedIs(geo, bits, was, ts, ps, base, bs, tiles, pools, t, x + CellX(k), y + CellY(k), k);
      }
    }
  }

  lemma NearRef(bits: Bits, tiles: seq<Tile>, pools: seq<Pool>, t: nat, u: nat, p: nat)
    requires TilesOk(bits, tiles, pools) && Live(tiles, t) && Live(tiles, u) && p < |tiles[u].polys|
    requires Near(tiles[t].header.value, tiles[u].header.value)
    ensures RefOk(bits, tiles, t, RefTo(bits, tiles, u, p))
  {
    RefToIs(bits, tiles, pools, u, p);
  }

  lemma BuildsIndex(bits: Bits, ts: seq<Tile>, ps: seq<Pool>, ts1: seq<Tile>, ps1: seq<Pool>, posLookup: seq<int>,
                    nextFree: int, index: Index)
    requires Builds(bits, ts, ps, ts1, ps1) && IndexOk(ts, posLookup, nextFree, index, NO_TILE)
    ensures TilesOk(bits, ts1, ps1) && IndexOk(ts1, posLookup, nextFree, index, NO_TILE)
  {
    hide IndexOk, TilesOk;
    FacesKeepIndex(ts, ts1, posLookup, nextFree, index, NO_TILE);
  }

  // ---------------------------------------------------------------- in coordinates

  ghost predicate LiesBeside(tiles: seq<Tile>, t: nat, u: nat, side: int)
    requires Live(tiles, t) && Live(tiles, u)
  {
    && Beside(tiles[t].header.value, tiles[u].header.value, side)
    && CellFits(tiles, tiles[u].header.value.x, tiles[u].header.value.y, NO_TILE)
  }

  /** Tile `t` is linked, both ways, to every live tile of its own and the cells around, by the portals to the side on
      which that tile lies and the portals back, as far as the mesh looks at all tiles of its cell. */
  ghost predicate JoinedAround(geo: Geometry, bits: Bits, tiles: seq<Tile>, pools: seq<Pool>, t: nat) {
    Live(tiles, t) && forall u: nat, side | Live(tiles, u) && u != t && LiesBeside(tiles, t, u, side) ::
      && TileExtLinked(geo, bits, tiles, pools, t, u, side)
      && TileExtLinked(geo, bits, tiles, pools, u, t, if side == -1 then -1 else (side + 4) % 8)
  }

  /** So for the off-mesh connections between them. */
  ghost predicate LandedAround(geo: Geometry, bits: Bits, was: seq<Tile>, tiles: seq<Tile>, pools: seq<Pool>, t: nat) {
    Live(tiles, t) && forall u: nat, side | Live(tiles, u) && LiesBeside(tiles, t, u, side) ::
      && -1 <= side < 8 && (u != t ==> Landings(geo, bits, was, tiles, pools, t, u, side))
      && forall c | 0 <= c < |tiles[t].cons| :: OwnLanding(geo, bits, tiles, pools, t, u, side, c)
  }

  lemma BesideIsCell(a: Header, b: Header, side: int)
    requires Beside(a, b, side)
    ensures -1 <= side < 8 && b.x == a.x + CellX(side) && b.y == a.y + CellY(side)
  {
  }

  lemma JoinedAroundIs(geo: Geometry, bits: Bits, was: seq<Tile>, tiles: seq<Tile>, pools: seq<Pool>, t: nat)
    requires Live(tiles, t)
    requires AllJoined(geo, bits, tiles, pools, t, tiles[t].header.value.x, tiles[t].header.value.y, 8)
    requires CellsLanded(geo, bits, was, tiles, pools, t, tiles[t].header.value.x, tiles[t].header.value.y)
    ensures JoinedAround(geo, bits, tiles, pools, t) && LandedAround(geo, bits, was, tiles, pools, t)
  {
    hide TileExtLinked, Landings, OwnLanding, CellFits, Beside;
    var x, y := tiles[t].header.value.x, tiles[t].header.value.y;
    forall u: nat, side | Live(tiles, u) && LiesBeside(tiles, t, u, side)
      ensures u != t ==> TileExtLinked(geo, bits, tiles, pools, t, u, side)
      ensures u != t ==> TileExtLinked(geo, bits, tiles, pools, u, t, if side == -1 then -1 else (side + 4) % 8)
      ensures -1 <= side < 8 && (u != t ==> Landings(geo, bits, was, tiles, pools, t, u, side))
      ensures forall c | 0 <= c < |tiles[t].cons| :: OwnLanding(geo, bits, tiles, pools, t, u, side, c)
    {
      BesideIsCell(tiles[t].header.value, tiles[u].header.value, side);
      assert InCell(tiles, u, x + CellX(side), y + CellY(side));
      assert CellLandedAt(geo, bits, was, tiles, pools, t, x, y, side);
      if side >= 0 {
        assert Joined(geo, bits, tiles, pools, t, x + StepX(side), y + StepY(side), side);
      } else {
        assert Joined(geo, bits, tiles, pools, t, x, y, -1);
      }
    }
  }

  /** The polygons of tile `u` below `n` that have a portal edge to side `back` which meets edge `j` of polygon `i`. */
  ghost function Facing(geo: Geometry, tiles: seq<Tile>, t: nat, i: nat, j: nat, u: nat, n: nat, back: nat): set<nat>
    requires u < |tiles| && n <= |tiles[u].polys|
  {
    set p: nat | p < n && exists e | 0 <= e < |tiles[u].polys[p].neis| ::
      tiles[u].polys[p].neis[e] == 0x8000 + back && geo.touches(t, i, j, u, p, e)
  }

  lemma {:induction false} MeetingCount(geo: Geometry, tiles: seq<Tile>, t: nat, i: nat, j: nat, u: nat, n: nat,
                                        back: nat)
    requires u < |tiles| && n <= |tiles[u].polys|
    ensures |Meeting(geo, t, i, j, u, tiles[u].polys, n, back)| <= |Facing(geo, tiles, t, i, j, u, n, back)|
  {
    if n > 0 {
      MeetingCount(geo, tiles, t, i, j, u, n - 1, back);
      var before, now := Facing(geo, tiles, t, i, j, u, n - 1, back), Facing(geo, tiles, t, i, j, u, n, back);
      assert now == if Meets(geo, t, i, j, u, tiles[u].polys, n - 1, back) then before + {n - 1} else before;
    }
  }

  lemma {:induction false} MeetingHas(geo: Geometry, tiles: seq<Tile>, t: nat, i: nat, j: nat, u: nat, n: nat,
                                      back: nat, p: nat)
    requires u < |tiles| && p < n <= |tiles[u].polys| && Meets(geo, t, i, j, u, tiles[u].polys, p, back)
    requires |Facing(geo, tiles, t, i, j, u, p, back)| < 4
    ensures p in Meeting(geo, t, i, j, u, tiles[u].polys, n, back)
  {
    if p == n - 1 {
      MeetingCount(geo, tiles, t, i, j, u, p, back);
    } else {
      MeetingHas(geo, tiles, t, i, j, u, n - 1, back, p);
    }
  }

  /** Where a portal edge of tile `t` to side `d` meets a portal edge of a polygon of tile `u` to the opposite side, and
      fewer than four polygons before it, there is a link to that polygon, unless the links ran out. */
  lemma PortalsMeet(geo: Geometry, bits: Bits, tiles: seq<Tile>, pools: seq<Pool>, t: nat, u: nat, side: int, i: nat,
                    j: nat, d: nat, p: nat, e: nat)
    requires TileExtLinked(geo, bits, tiles, pools, t, u, side) && d < 8 && (side == -1 || side == d)
    requires i < |tiles[t].polys| && j < |tiles[t].polys[i].neis| && tiles[t].polys[i].neis[j] == 0x8000 + d
    requires p < |tiles[u].polys| && e < |tiles[u].polys[p].neis| && tiles[u].polys[p].neis[e] == 0x8000 + (d + 4) % 8
    requires geo.touches(t, i, j, u, p, e) && |Facing(geo, tiles, t, i, j, u, p, (d + 4) % 8)| < 4
    ensures tiles[t].linksFreeList != NULL_LINK ==>
              HasLink(tiles[t], pools[t], i, RefTo(bits, tiles, u, p), j, d)
  {
    hide HasLink, Encode, Meeting, Facing;
    assert ExtLinked(geo, bits, tiles, tiles, pools, t, u, i, side, |tiles[t].polys[i].neis|);
    assert Faces(tiles[t].polys[i], j, side);
    assert EdgeExtLinked(geo, bits, tiles, tiles, pools, t, u, i, j);
    assert Meets(geo, t, i, j, u, tiles[u].polys, p, Opposite(d));
    MeetingHas(geo, tiles, t, i, j, u, |tiles[u].polys|, Opposite(d), p);
    var con := Meeting(geo, t, i, j, u, tiles[u].polys, |tiles[u].polys|, Opposite(d));
    var k :| 0 <= k < |con| && con[k] == p;
    assert Refs(bits, tiles, u, con)[k] == RefTo(bits, tiles, u, p);
  }

  /** Every link that was made when tile `t` came stands for something: edges that polygons of the tile share, portal
      edges that meet, or the start or the landing of an off-mesh connection. */
  ghost predicate LinksMeant(geo: Geometry, bits: Bits, ts: seq<Tile>, ps: seq<Pool>, tiles: seq<Tile>,
                             pools: seq<Pool>, t: nat)
  {
    && AllMeant(geo, bits, ts, ps, tiles, pools)
    && t < |tiles| == |pools| && |pools[t].home| == |tiles[t].links|
    && forall l | 0 <= l < |tiles[t].links| && pools[t].home[l] >= 0 ::
         InnerLink(bits, tiles[t], pools[t], t, l) || Justified(geo, bits, tiles, pools, t, l)
  }

  lemma LinksMeantIs(geo: Geometry, bits: Bits, ts: seq<Tile>, ps: seq<Pool>, ts1: seq<Tile>, ps1: seq<Pool>,
                     tiles: seq<Tile>, pools: seq<Pool>, t: nat)
    requires Builds(bits, ts1, ps1, tiles, pools) && AllMeant(geo, bits, ts1, ps1, tiles, pools)
    requires |ts| == |ts1| == |ps| && t < |ts| && !Live(ts, t) && Live(ts1, t)
    requires |ps1| == |ts1| && InnerLinks(bits, ts1[t], ps1[t], t)
    requires forall u | 0 <= u < |ts| && u != t :: SameButNext(ts[u], ts1[u]) && ps1[u] == ps[u]
    ensures LinksMeant(geo, bits, ts, ps, tiles, pools, t)
  {
    BuildsLive(bits, ts1, ps1, tiles, pools);
    BuildsFacts(bits, ts1, ps1, tiles, pools, t);
    hide Builds, Justified, InnerLink, TilesOk;
    forall u: nat, l: nat | Live(ts, u) && NewLink(ps, pools, u, l) ensures Justified(geo, bits, tiles, pools, u, l) {
      assert SameButNext(ts[u], ts1[u]) && Live(ts1, u) && NewLink(ps1, pools, u, l);
    }
    assert TileGrows(ts1[t], ps1[t], tiles[t], pools[t]);
    forall l: nat | l < |tiles[t].links| && pools[t].home[l] >= 0
      ensures InnerLink(bits, tiles[t], pools[t], t, l) || Justified(geo, bits, tiles, pools, t, l)
    {
      if ps1[t].home[l] >= 0 {
        InnerStays(bits, ts1[t], ps1[t], tiles[t], pools[t], t, l);
      } else {
        assert NewLink(ps1, pools, t, l);
      }
    }
  }

  // ---------------------------------------------------------------- a tile comes and goes

  lemma NextIsNoPart(tile: Tile, pool: Pool, next: int)
    requires PoolOk(tile, pool)
    ensures PoolOk(tile.(next := next), pool)
  {
    var tile1 := tile.(next := next);
    forall i | -1 <= i < |tile1.polys| ensures ListFrom(Nexts(tile1.links), HeadOf(tile1, i), ListOf(pool, i)) {
      assert ListFrom(Nexts(tile.links), HeadOf(tile, i), ListOf(pool, i));
    }
  }

  lemma MovedTiles(bits: Bits, tiles: seq<Tile>, pools: seq<Pool>, prev: int, t: nat, tile: Tile, pool: Pool)
    requires TilesOk(bits, tiles, pools) && t < |tiles| && -1 <= prev < |tiles| && prev != t && TileOk(bits, tile, pool)
    ensures var tiles1 := Moved(tiles, prev, t, tile);
            && TilesOk(bits, tiles1, pools[t := pool])
            && (forall u | 0 <= u < |tiles| && u != t ::
                  SameFace(tiles[u], tiles1[u]) && tiles[u].links == tiles1[u].links && SameData(tiles[u], tiles1[u]))
  {
    hide PoolOk, DataOk;
    var tiles1 := Moved(tiles, prev, t, tile);
    forall u | 0 <= u < |tiles1| ensures TileOk(bits, tiles1[u], pools[t := pool][u]) {
      assert TileOk(bits, tiles[u], pools[u]);
      if u != t && tiles[u].header.Some? {
        NextIsNoPart(tiles[u], pools[u], tiles1[u].next);
      }
    }
  }

  lemma InstallSound(bits: Bits, tiles: seq<Tile>, pools: seq<Pool>, prev: int, t: nat, tile: Tile, pool: Pool)
    requires TilesOk(bits, tiles, pools) && t < |tiles| && -1 <= prev < |tiles| && prev != t && TileOk(bits, tile, pool)
    requires !Live(tiles, t) && tile.header.Some? && OwnRefs(bits, tile, pool, t)
    requires TilesOk(bits, Moved(tiles, prev, t, tile), pools[t := pool])
    ensures Sound(bits, tiles, pools) ==> Sound(bits, Moved(tiles, prev, t, tile), pools[t := pool])
  {
    hide PoolOk, DataOk, HashChains.Pow2;
    var tiles1, pools1 := Moved(tiles, prev, t, tile), pools[t := pool];
    if Sound(bits, tiles, pools) {
      forall u | Live(tiles1, u) ensures |pools1[u].home| == |tiles1[u].links| && LinksOk(bits, tiles1, pools1, u) {
        assert TileOk(bits, tiles1[u], pools1[u]);
        PoolSize(tiles1[u], pools1[u]);
        if u == t {
          forall l | 0 <= l < |tile.links| && pool.home[l] >= 0 ensures RefOk(bits, tiles1, t, tile.links[l].ref) {
            assert OwnRef(bits, tile.salt, t, |tile.polys|, tile.links[l].ref);
            var p: nat :| p < |tile.polys| && tile.links[l].ref == Encode(bits, tile.salt, t, p);
            RefToIs(bits, tiles1, pools1, t, p);
          }
        } else {
          assert TileOk(bits, tiles[u], pools[u]) && Live(tiles, u);
          PoolSize(tiles[u], pools[u]);
          assert LinksOk(bits, tiles, pools, u);
          forall l | 0 <= l < |tiles1[u].links| && pools1[u].home[l] >= 0
            ensures RefOk(bits, tiles1, u, tiles1[u].links[l].ref)
          {
            RefKept(bits, tiles, tiles1, u, tiles1[u].links[l].ref);
          }
        }
      }
    }
  }

  /** A tile holds what it was loaded from, apart from its links. */
  ghost predicate FromData(tile: Tile, data: Data) {
    && |tile.polys| == |data.polys| && (forall i | 0 <= i < |data.polys| :: SamePoly(tile.polys[i], data.polys[i]))
    && tile.cons == data.cons && |tile.links| == |data.links|
  }

  lemma BuiltTile(bits: Bits, blank: Tile, tile: Tile, pool: Pool, t: nat)
    requires Built(bits, blank, tile, pool, t, |tile.polys|) && blank.header.Some?
    requires DataOk(bits, blank.polys, blank.cons) && 0 < blank.salt < HashChains.Pow2(bits.salt)
    ensures TileOk(bits, tile, pool) && OwnRefs(bits, tile, pool, t) && InnerLinks(bits, tile, pool, t)
    ensures tile.header == blank.header && tile.salt == blank.salt && tile.next == blank.next && SameData(blank, tile)
  {
    hide PoolOk;
    assert View(tile, |tile.polys|) == tile;
    assert forall i | 0 <= i < |blank.polys| :: SamePoly(blank.polys[i], tile.polys[i]);
  }

  lemma Sizes(bits: Bits, tiles: seq<Tile>, pools: seq<Pool>)
    requires TilesOk(bits, tiles, pools)
    ensures |pools| == |tiles|
  {
  }

  lemma SaltInRange(bits: Bits, tiles: seq<Tile>, pools: seq<Pool>, t: nat, lastRef: nat)
    requires TilesOk(bits, tiles, pools) && t < |tiles|
    ensures 0 < tiles[t].salt < HashChains.Pow2(bits.salt) && DecodeSalt(bits, lastRef) < HashChains.Pow2(bits.salt)
  {
    hide PoolOk, HashChains.Pow2;
    assert TileOk(bits, tiles[t], pools[t]);
  }

  lemma BuildsSound(bits: Bits, ts: seq<Tile>, ps: seq<Pool>, tiles: seq<Tile>, pools: seq<Pool>)
    requires Builds(bits, ts, ps, tiles, pools)
    ensures Sound(bits, ts, ps) ==> Sound(bits, tiles, pools)
  {
  }

  /** What a successful `addTile` comes to: a free tile is loaded, under a reference with its salt; it has its internal
      links; and the other tiles keep the links they had. */
  ghost predicate AddedTile(bits: Bits, ts: seq<Tile>, ps: seq<Pool>, tiles: seq<Tile>, pools: seq<Pool>, data: Data,
                            lastRef: nat, ref: nat)
  {
    var t := DecodeTile(bits, ref);
    && |tiles| == |ts| == |pools| == |ps| && t < |ts| && !Live(ts, t) && tiles[t].header == Some(data.header)
    && ref == RefTo(bits, tiles, t, 0) && FromData(tiles[t], data)
    && (if lastRef == 0 then tiles[t].salt == ts[t].salt
        else t == DecodeTile(bits, lastRef) && tiles[t].salt == DecodeSalt(bits, lastRef))
    && (forall i | 0 <= i < |tiles[t].polys| :: PolyLinked(bits, tiles[t], pools[t], t, i, 0))
    && (forall u | Live(ts, u) :: SameFace(ts[u], tiles[u]) && TileGrows(ts[u], ps[u], tiles[u], pools[u]))
    && (forall u: nat | u < |ts| && u != t && !Live(ts, u) :: !Live(tiles, u) && tiles[u].salt == ts[u].salt)
  }

  lemma PowPositive(bits: Bits)
    ensures HashChains.Pow2(bits.poly) > 0
  {
  }

  lemma AddedIs(bits: Bits, ts: seq<Tile>, ps: seq<Pool>, ts1: seq<Tile>, ps1: seq<Pool>, tiles: seq<Tile>,
                pools: seq<Pool>, data: Data, lastRef: nat, t: nat)
    requires TilesOk(bits, ts, ps) && Builds(bits, ts1, ps1, tiles, pools) && |ts1| == |ts| && t < |ts| && !Live(ts, t)
    requires Live(ts1, t) && ts1[t].header == Some(data.header) && FromData(ts1[t], data)
    requires if lastRef == 0 then ts1[t].salt == ts[t].salt
             else t == DecodeTile(bits, lastRef) && ts1[t].salt == DecodeSalt(bits, lastRef)
    requires |ps1| == |ts1| && forall i | 0 <= i < |ts1[t].polys| :: PolyLinked(bits, ts1[t], ps1[t], t, i, 0)
    requires forall u | 0 <= u < |ts| && u != t :: SameButNext(ts[u], ts1[u]) && ps1[u] == ps[u]
    ensures |tiles| == |ts|
    ensures AddedTile(bits, ts, ps, tiles, pools, data, lastRef, RefTo(bits, tiles, t, 0))
  {
    hide PoolOk, HashChains.Pow2, PolyLinked, Sound, DecodeSalt, DecodeTile, Encode;
    BuildsFacts(bits, ts1, ps1, tiles, pools, t);
    SaltInRange(bits, tiles, pools, t, 0);
    PowPositive(bits);
    DecodeEncode(bits, tiles[t].salt, t, 0);
    forall i | 0 <= i < |tiles[t].polys| ensures PolyLinked(bits, tiles[t], pools[t], t, i, 0) {
      EdgesKept(bits, ts1[t], ps1[t], tiles[t], pools[t], t, i, 0);
    }
    forall u | Live(ts, u) ensures SameFace(ts[u], tiles[u]) && TileGrows(ts[u], ps[u], tiles[u], pools[u]) {
      BuildsFacts(bits, ts1, ps1, tiles, pools, u);
    }
    forall u: nat | u < |ts| && u != t && !Live(ts, u) ensures !Live(tiles, u) && tiles[u].salt == ts[u].salt {
      BuildsFacts(bits, ts1, ps1, tiles, pools, u);
    }
  }

  // ---------------------------------------------------------------- links to a tile that goes

  /** Some links of the tile to tile `num` may be free now; the others stay. */
  ghost predicate LinksShed(bits: Bits, a: Tile, p: Pool, b: Tile, q: Pool, num: nat) {
    && SameData(a, b) && |p.home| == |q.home| == |a.links|
    && forall l | 0 <= l < |a.links| ::
         SameLink(a.links[l], b.links[l]) && (q.home[l] == p.home[l] || (Hits(bits, a, p, l, num) && q.home[l] == -1))
  }

  ghost predicate Sheds(bits: Bits, ts: seq<Tile>, ps: seq<Pool>, tiles: seq<Tile>, pools: seq<Pool>, t: nat) {
    && TilesOk(bits, ts, ps) && TilesOk(bits, tiles, pools) && SameFaces(ts, tiles)
    && t < |ts| && tiles[t] == ts[t] && pools[t] == ps[t]
    && (forall u | Live(ts, u) :: LinksShed(bits, ts[u], ps[u], tiles[u], pools[u], t))
    && (Sound(bits, ts, ps) ==> Sound(bits, tiles, pools))
  }

  ghost predicate CellDone(bits: Bits, tiles: seq<Tile>, pools: seq<Pool>, t: nat, x: int, y: int) {
    |pools| == |tiles| && forall u | InCell(tiles, u, x, y) && u != t :: NoneTo(bits, tiles[u], pools[u], t)
  }

  lemma ShedsNothing(bits: Bits, tiles: seq<Tile>, pools: seq<Pool>, t: nat)
    requires TilesOk(bits, tiles, pools) && t < |tiles|
    ensures |pools| == |tiles| && Sheds(bits, tiles, pools, tiles, pools, t)
  {
    hide PoolOk;
    forall u | Live(tiles, u) ensures LinksShed(bits, tiles[u], pools[u], tiles[u], pools[u], t) {
      assert TileOk(bits, tiles[u], pools[u]);
      PoolSize(tiles[u], pools[u]);
    }
  }

  lemma ShedsFacts(bits: Bits, ts: seq<Tile>, ps: seq<Pool>, tiles: seq<Tile>, pools: seq<Pool>, t: nat, u: int)
    requires Sheds(bits, ts, ps, tiles, pools, t)
    ensures |tiles| == |pools| == |ts| == |ps| && t < |ts| && tiles[t] == ts[t] && TilesOk(bits, tiles, pools)
    ensures SameFaces(ts, tiles)
    ensures Live(ts, u) <==> Live(tiles, u)
    ensures 0 <= u < |ts| ==> SameFace(ts[u], tiles[u])
    ensures Sound(bits, ts, ps) ==> Sound(bits, tiles, pools)
  {
  }

  lemma LinksShedOn(bits: Bits, a: Tile, p: Pool, b: Tile, q: Pool, c: Tile, r: Pool, num: nat)
    requires LinksShed(bits, a, p, b, q, num) && LinksShed(bits, b, q, c, r, num)
    ensures LinksShed(bits, a, p, c, r, num)
    ensures NoneTo(bits, b, q, num) ==> NoneTo(bits, c, r, num)
  {
    assert forall i | 0 <= i < |a.polys| :: SamePoly(a.polys[i], b.polys[i]) && SamePoly(b.polys[i], c.polys[i]);
    forall l | 0 <= l < |a.links|
      ensures SameLink(a.links[l], c.links[l])
              && (r.home[l] == p.home[l] || (Hits(bits, a, p, l, num) && r.home[l] == -1))
    {
      assert SameLink(a.links[l], b.links[l]) && SameLink(b.links[l], c.links[l]);
    }
    if NoneTo(bits, b, q, num) {
      forall l | 0 <= l < |c.links| ensures !Hits(bits, c, r, l, num) {
        assert !Hits(bits, b, q, l, num) && SameLink(b.links[l], c.links[l]);
      }
    }
  }

  lemma ShedsOn(bits: Bits, ts: seq<Tile>, ps: seq<Pool>, ts1: seq<Tile>, ps1: seq<Pool>, ts2: seq<Tile>,
                ps2: seq<Pool>, t: nat)
    requires Sheds(bits, ts, ps, ts1, ps1, t) && Sheds(bits, ts1, ps1, ts2, ps2, t)
    ensures Sheds(bits, ts, ps, ts2, ps2, t)
    ensures forall u | Live(ts1, u) && NoneTo(bits, ts1[u], ps1[u], t) :: NoneTo(bits, ts2[u], ps2[u], t)
  {
    ShedsFacts(bits, ts, ps, ts1, ps1, t, t);
    ShedsFacts(bits, ts1, ps1, ts2, ps2, t, t);
    hide TilesOk, Sound, LinksShed, NoneTo;
    forall u | 0 <= u < |ts| ensures SameFace(ts[u], ts2[u]) && ts[u].next == ts2[u].next {
      assert SameFace(ts[u], ts1[u]) && SameFace(ts1[u], ts2[u]);
    }
    forall u | Live(ts, u) ensures LinksShed(bits, ts[u], ps[u], ts2[u], ps2[u], t) {
      assert SameFace(ts[u], ts1[u]);
      LinksShedOn(bits, ts[u], ps[u], ts1[u], ps1[u], ts2[u], ps2[u], t);
    }
    forall u | Live(ts1, u) && NoneTo(bits, ts1[u], ps1[u], t) ensures NoneTo(bits, ts2[u], ps2[u], t) {
      assert SameFace(ts[u], ts1[u]) && Live(ts, u);
      LinksShedOn(bits, ts[u], ps[u], ts1[u], ps1[u], ts2[u], ps2[u], t);
    }
  }

  lemma DetachSheds(bits: Bits, tiles: seq<Tile>, pools: seq<Pool>, u: nat, b: Tile, q: Pool, t: nat)
    requires TilesOk(bits, tiles, pools) && Live(tiles, u) && u != t && t < |tiles|
    requires Detached(bits, tiles[u], pools[u], b, q, t)
    requires TilesOk(bits, tiles[u := b], pools[u := q]) && SameFaces(tiles, tiles[u := b])
    requires Sound(bits, tiles, pools) ==> Sound(bits, tiles[u := b], pools[u := q])
    ensures Sheds(bits, tiles, pools, tiles[u := b], pools[u := q], t)
  {
    hide PoolOk, Sound;
    forall w | Live(tiles, w) ensures LinksShed(bits, tiles[w], pools[w], tiles[u := b][w], pools[u := q][w], t) {
      assert TileOk(bits, tiles[w], pools[w]);
      PoolSize(tiles[w], pools[w]);
      if w == u {
        forall l | 0 <= l < |tiles[u].links|
          ensures SameLink(tiles[u].links[l], b.links[l])
                  && (q.home[l] == pools[u].home[l] || (Hits(bits, tiles[u], pools[u], l, t) && q.home[l] == -1))
        {
          assert LinkFreed(bits, tiles[u], pools[u], b, q, t, l, true);
        }
      }
    }
  }

  lemma CutSound(bits: Bits, tiles: seq<Tile>, pools: seq<Pool>, prev: int, t: nat)
    requires TilesOk(bits, tiles, pools) && t < |tiles| && -1 <= prev < |tiles|
    ensures TilesOk(bits, Cut(tiles, prev, t), pools)
    ensures Sound(bits, tiles, pools) ==> Sound(bits, Cut(tiles, prev, t), pools)
  {
    hide PoolOk, DataOk;
    var tiles1 := Cut(tiles, prev, t);
    forall u | 0 <= u < |tiles1| ensures TileOk(bits, tiles1[u], pools[u]) {
      assert TileOk(bits, tiles[u], pools[u]);
      if tiles[u].header.Some? {
        NextIsNoPart(tiles[u], pools[u], tiles1[u].next);
      }
    }
    if Sound(bits, tiles, pools) {
      forall u | Live(tiles1, u) ensures |pools[u].home| == |tiles1[u].links| && LinksOk(bits, tiles1, pools, u) {
        assert TileOk(bits, tiles[u], pools[u]) && Live(tiles, u);
        PoolSize(tiles[u], pools[u]);
        assert LinksOk(bits, tiles, pools, u);
        forall l | 0 <= l < |tiles1[u].links| && pools[u].home[l] >= 0
          ensures RefOk(bits, tiles1, u, tiles1[u].links[l].ref)
        {
          RefKept(bits, tiles, tiles1, u, tiles1[u].links[l].ref);
        }
      }
    }
  }

  lemma OnChain(tiles: seq<Tile>, posLookup: seq<int>, nextFree: int, index: Index, t: nat)
    requires IndexOk(tiles, posLookup, nextFree, index, NO_TILE) && Live(tiles, t)
    ensures t in index.buckets[Hash(tiles[t].header.value.x, tiles[t].header.value.y, |posLookup|)]
  {
    assert Listed(tiles, index, t);
  }

  // ---------------------------------------------------------------- a tile that is gone

  /** The tests of `removeTile`. */
  predicate Matches(bits: Bits, tiles: seq<Tile>, ref: nat) {
    ref != 0 && DecodeTile(bits, ref) < |tiles| && tiles[DecodeTile(bits, ref)].salt == DecodeSalt(bits, ref)
  }

  /** No cell around tile `t`, its own among them, holds more other tiles than the mesh looks at. */
  ghost predicate CellsFit(tiles: seq<Tile>, t: nat) {
    Live(tiles, t) ==>
      var x, y := tiles[t].header.value.x, tiles[t].header.value.y;
      CellFits(tiles, x, y, t) && forall k | 0 <= k < 8 :: CellFits(tiles, x + StepX(k), y + StepY(k), t)
  }

  const NO_LINKS: Pool := Pool([], [], [])

  /** What a successful `removeTile` comes to: the tile is free, under the next salt; the others are as before, apart
      from links to it. */
  ghost predicate RemovedTile(bits: Bits, ts: seq<Tile>, ps: seq<Pool>, tiles: seq<Tile>, pools: seq<Pool>, t: nat) {
    && |tiles| == |ts| == |pools| == |ps| && t < |ts|
    && Live(ts, t) && !Live(tiles, t) && tiles[t].salt == SaltAfter(bits, ts[t].salt)
    && (forall u | 0 <= u < |ts| && u != t :: SameFace(ts[u], tiles[u]))
    && (forall u | Live(ts, u) && u != t :: LinksShed(bits, ts[u], ps[u], tiles[u], pools[u], t))
  }

  lemma FitsAfterCut(ts: seq<Tile>, tiles: seq<Tile>, t: nat)
    requires |ts| == |tiles| && t < |ts| && forall u | 0 <= u < |ts| :: SameButNext(ts[u], tiles[u])
    ensures CellsFit(ts, t) == CellsFit(tiles, t)
  {
    hide CellFits;
    assert forall u | 0 <= u < |ts| :: SameButNext(ts[u], tiles[u]) && ts[u].header == tiles[u].header;
    if Live(ts, t) {
      var x, y := ts[t].header.value.x, ts[t].header.value.y;
      CellSame(ts, tiles, t, x, y);
      forall k | 0 <= k < 8
        ensures CellFits(ts, x + StepX(k), y + StepY(k), t) == CellFits(tiles, x + StepX(k), y + StepY(k), t)
      {
        CellSame(ts, tiles, t, x + StepX(k), y + StepY(k));
      }
    }
  }

  lemma DoneKept(bits: Bits, ts: seq<Tile>, ps: seq<Pool>, tiles: seq<Tile>, pools: seq<Pool>, t: nat, x: int, y: int)
    requires Sheds(bits, ts, ps, tiles, pools, t) && CellDone(bits, ts, ps, t, x, y)
    ensures CellDone(bits, tiles, pools, t, x, y)
  {
    ShedsFacts(bits, ts, ps, tiles, pools, t, t);
    ShedsNothing(bits, ts, ps, t);
    ShedsOn(bits, ts, ps, ts, ps, tiles, pools, t);
    hide NoneTo, TilesOk, Sound, LinksShed;
    forall u | InCell(tiles, u, x, y) && u != t ensures NoneTo(bits, tiles[u], pools[u], t) {
      assert SameFace(ts[u], tiles[u]) && InCell(ts, u, x, y);
    }
  }

  /** The side on which a neighbouring cell lies. */
  function SideOf(dx: int, dy: int): (k: nat)
    requires -1 <= dx <= 1 && -1 <= dy <= 1 && (dx != 0 || dy != 0)
    ensures k < 8 && StepX(k) == dx && StepY(k) == dy
  {
    if dx == 1 then (if dy == 0 then 0 else if dy == 1 then 1 else 7)
    else if dx == 0 then (if dy == 1 then 2 else 6)
    else (if dy == 1 then 3 else if dy == 0 then 4 else 5)
  }

  /** With its own and all eight cells around done, nothing leads to tile `t`. */
  lemma AllDone(bits: Bits, tiles: seq<Tile>, pools: seq<Pool>, t: nat, x: int, y: int)
    requires TilesOk(bits, tiles, pools) && Sound(bits, tiles, pools) && InCell(tiles, t, x, y)
    requires CellDone(bits, tiles, pools, t, x, y)
    requires forall k | 0 <= k < 8 :: CellDone(bits, tiles, pools, t, x + StepX(k), y + StepY(k))
    ensures |pools| == |tiles| && forall u | Live(tiles, u) && u != t :: NoneTo(bits, tiles[u], pools[u], t)
  {
    hide TilesOk, Sound, NoneTo;
    forall u | Live(tiles, u) && u != t ensures NoneTo(bits, tiles[u], pools[u], t) {
      var dx, dy := tiles[u].header.value.x - x, tiles[u].header.value.y - y;
      if -1 <= dx <= 1 && -1 <= dy <= 1 {
        if dx != 0 || dy != 0 {
          var k := SideOf(dx, dy);
          assert CellDone(bits, tiles, pools, t, x + StepX(k), y + StepY(k));
          assert InCell(tiles, u, x + StepX(k), y + StepY(k));
        } else {
          assert InCell(tiles, u, x, y);
        }
      } else {
        FarHasNone(bits, tiles, pools, u, t);
      }
    }
  }

  /** Of a cell the tiles in `list` have no link to tile `t` any more; all other tiles are as before. */
  ghost predicate CellCleared(bits: Bits, ts: seq<Tile>, ps: seq<Pool>, tiles: seq<Tile>, pools: seq<Pool>, t: nat,
                              list: seq<nat>, x: int, y: int)
  {
    && |tiles| == |pools| == |ts| == |ps|
    && (forall u | u in list :: InCell(ts, u, x, y) && NoneTo(bits, tiles[u], pools[u], t))
    && (forall u: nat | u < |tiles| && u !in list :: tiles[u] == ts[u] && pools[u] == ps[u])
  }

  lemma CellClearedIs(bits: Bits, ts: seq<Tile>, ps: seq<Pool>, tiles: seq<Tile>, pools: seq<Pool>, t: nat,
                      list: seq<nat>, x: int, y: int)
    requires |tiles| == |pools| == |ts| == |ps|
    requires forall k | 0 <= k < |list| :: InCell(ts, list[k], x, y) && NoneTo(bits, tiles[list[k]], pools[list[k]], t)
    requires forall u: nat | u < |tiles| && u !in list :: tiles[u] == ts[u] && pools[u] == ps[u]
    ensures CellCleared(bits, ts, ps, tiles, pools, t, list, x, y)
  {
    hide NoneTo;
  }

  /** Tile `t` has left all chains, and nothing else has changed there. */
  ghost predicate AllWithout(was: Index, index: Index, t: nat) {
    |index.buckets| == |was.buckets| &&
    forall h | 0 <= h < |index.buckets| :: index.buckets[h] == Without(was.buckets[h], t)
  }

  lemma ChainsCut(tiles: seq<Tile>, posLookup: seq<int>, nextFree: int, index: Index, h: nat, a: seq<nat>, t: nat,
                  b: seq<nat>)
    requires IndexOk(tiles, posLookup, nextFree, index, NO_TILE) && h < |posLookup| && index.buckets[h] == a + [t] + b
    ensures |index.buckets| == |posLookup| && AllWithout(index, Loose(index, a, b, h), t)
  {
    hide ListFrom;
    assert BucketOk(tiles, |posLookup|, h, posLookup[h], index.buckets[h]);
    assert (a + [t] + b)[|a|] == t && InBucket(tiles, (a + [t] + b)[|a|], h, |posLookup|);
    CutDistinct(a, t, b);
    WithoutOne(a, t, b);
    forall g | 0 <= g < |posLookup| && g != h ensures index.buckets[g] == Without(index.buckets[g], t) {
      assert BucketOk(tiles, |posLookup|, g, posLookup[g], index.buckets[g]);
      assert forall k | 0 <= k < |index.buckets[g]| :: InBucket(tiles, index.buckets[g][k], g, |posLookup|);
      WithoutNone(index.buckets[g], t);
    }
  }

  /** Tile `u` is among those of a cell that `removeTile` looks at when tile `t` goes. */
  ghost predicate LooksAt(tiles: seq<Tile>, index: Index, t: nat, x: int, y: int, u: nat) {
    |index.buckets| > 0 && u in FirstTiles(tiles, Without(index.buckets[Hash(x, y, |index.buckets|)], t), x, y)
  }

  /** So in its own cell and the first `n` around it. */
  ghost predicate LooksAround(tiles: seq<Tile>, index: Index, t: nat, n: int, u: nat)
    requires -1 <= n <= 8
  {
    Live(tiles, t) &&
    var x, y := tiles[t].header.value.x, tiles[t].header.value.y;
    exists k | -1 <= k < n :: LooksAt(tiles, index, t, x + CellX(k), y + CellY(k), u)
  }

  /** While tile `t` is in no chain, the tiles that are looked at are the first of their chains. */
  lemma LooksAtIs(tiles: seq<Tile>, posLookup: seq<int>, nextFree: int, index: Index, t: nat, x: int, y: int, u: nat)
    requires IndexOk(tiles, posLookup, nextFree, index, t)
    ensures |index.buckets| == |posLookup| > 0
    ensures LooksAt(tiles, index, t, x, y, u) <==>
              u in FirstTiles(tiles, index.buckets[Hash(x, y, |posLookup|)], x, y)
    ensures LooksAt(tiles, index, t, x, y, u) ==> InCell(tiles, u, x, y)
  {
    CellTilesAll(tiles, posLookup, nextFree, index, x, y, t);
    FirstTilesAre(tiles, posLookup, nextFree, index, x, y, t);
    var c := index.buckets[Hash(x, y, |posLookup|)];
    WithoutNone(c, t);
  }

  /** The tiles looked at so far have no link to tile `t` any more; all others are as before. */
  ghost predicate Cleared(bits: Bits, ts: seq<Tile>, ps: seq<Pool>, tiles: seq<Tile>, pools: seq<Pool>, index: Index,
                          t: nat, n: int)
    requires -1 <= n <= 8
  {
    && |tiles| == |pools| == |ts| == |ps|
    && forall u: nat | u < |tiles| ::
         if LooksAround(ts, index, t, n, u) then Live(ts, u) && NoneTo(bits, tiles[u], pools[u], t)
         else tiles[u] == ts[u] && pools[u] == ps[u]
  }

  lemma LooksFurther(tiles: seq<Tile>, index: Index, t: nat, n: int, u: nat)
    requires -1 <= n < 8 && Live(tiles, t)
    ensures var x, y := tiles[t].header.value.x, tiles[t].header.value.y;
            LooksAround(tiles, index, t, n + 1, u) <==>
              LooksAround(tiles, index, t, n, u) || LooksAt(tiles, index, t, x + CellX(n), y + CellY(n), u)
  {
    hide LooksAt, CellX, CellY;
    var x, y := tiles[t].header.value.x, tiles[t].header.value.y;
    if LooksAround(tiles, index, t, n + 1, u) {
      var k :| -1 <= k < n + 1 && LooksAt(tiles, index, t, x + CellX(k), y + CellY(k), u);
      assert k < n || k == n;
    }
    if LooksAround(tiles, index, t, n, u) {
      var k :| -1 <= k < n && LooksAt(tiles, index, t, x + CellX(k), y + CellY(k), u);
    }
  }

  /** One cell more, whose tiles in `list` are now looked at. */
  lemma ClearedOn(bits: Bits, ts: seq<Tile>, ps: seq<Pool>, ts1: seq<Tile>, ps1: seq<Pool>, tiles: seq<Tile>,
                  pools: seq<Pool>, index: Index, t: nat, n: int, list: seq<nat>, x: int, y: int)
    requires -1 <= n < 8
    requires Cleared(bits, ts, ps, ts1, ps1, index, t, n) && CellCleared(bits, ts1, ps1, tiles, pools, t, list, x, y)
    requires forall u | Live(ts1, u) && NoneTo(bits, ts1[u], ps1[u], t) :: NoneTo(bits, tiles[u], pools[u], t)
    requires forall u: nat :: Live(ts, u) <==> Live(ts1, u)
    requires forall u: nat :: LooksAround(ts, index, t, n + 1, u) <==> LooksAround(ts, index, t, n, u) || u in list
    ensures Cleared(bits, ts, ps, tiles, pools, index, t, n + 1)
  {
    hide LooksAround, NoneTo;
  }

  lemma IndexSize(tiles: seq<Tile>, posLookup: seq<int>, nextFree: int, index: Index, loose: int)
    requires IndexOk(tiles, posLookup, nextFree, index, loose)
    ensures |index.buckets| == |posLookup| > 0
  {
  }

  lemma ClearedStep(bits: Bits, ts: seq<Tile>, ps: seq<Pool>, ts1: seq<Tile>, ps1: seq<Pool>, tiles: seq<Tile>,
                    pools: seq<Pool>, posLookup: seq<int>, nextFree: int, index: Index, t: nat, n: int)
    requires -1 <= n < 8 && IndexOk(ts, posLookup, nextFree, index, t) && Live(ts, t)
    requires Sheds(bits, ts, ps, ts1, ps1, t) && Sheds(bits, ts1, ps1, tiles, pools, t)
    requires Cleared(bits, ts, ps, ts1, ps1, index, t, n)
    requires var x, y := ts[t].header.value.x + CellX(n), ts[t].header.value.y + CellY(n);
             CellCleared(bits, ts1, ps1, tiles, pools, t,
                         FirstTiles(ts1, index.buckets[Hash(x, y, |index.buckets|)], x, y), x, y)
    ensures Cleared(bits, ts, ps, tiles, pools, index, t, n + 1)
  {
    hide Sheds, Cleared, CellCleared, LooksAround, LooksAt, NoneTo, Hash, CellX, CellY, TilesOk, FirstTiles, IndexOk;
    ShedsFacts(bits, ts, ps, ts1, ps1, t, t);
    ShedsFacts(bits, ts1, ps1, tiles, pools, t, t);
    ShedsOn(bits, ts, ps, ts1, ps1, tiles, pools, t);
    var x, y := ts[t].header.value.x + CellX(n), ts[t].header.value.y + CellY(n);
    assert forall u | 0 <= u < |ts| :: SameFace(ts[u], ts1[u]) && ts[u].header == ts1[u].header;
    IndexSize(ts, posLookup, nextFree, index, t);
    var list := FirstTiles(ts1, index.buckets[Hash(x, y, |index.buckets|)], x, y);
    FirstTilesSame(ts, ts1, index.buckets[Hash(x, y, |index.buckets|)], x, y);
    forall u: nat
      ensures LooksAround(ts, index, t, n + 1, u) <==> LooksAround(ts, index, t, n, u) || u in list
    {
      LooksFurther(ts, index, t, n, u);
      LooksAtIs(ts, posLookup, nextFree, index, t, x, y, u);
    }
    hide SameFace;
    ClearedOn(bits, ts, ps, ts1, ps1, tiles, pools, index, t, n, list, x, y);
  }

  /** No tile that `removeTile` does not look at has a link to the tile that goes. */
  ghost predicate NoneLeftOut(bits: Bits, tiles: seq<Tile>, pools: seq<Pool>, index: Index, t: nat) {
    |pools| == |tiles| &&
    forall u | Live(tiles, u) && u != t && !LooksAround(tiles, index, t, 8, u) :: NoneTo(bits, tiles[u], pools[u], t)
  }

  lemma DeadTile(bits: Bits, tiles: seq<Tile>, pools: seq<Pool>, t: nat, dead: Tile)
    requires TilesOk(bits, tiles, pools) && t < |tiles| && dead.header.None?
             && 0 < dead.salt < HashChains.Pow2(bits.salt)
    ensures |pools| == |tiles| && TilesOk(bits, tiles[t := dead], pools[t := NO_LINKS])
    ensures Sound(bits, tiles, pools)
            && (forall u | Live(tiles, u) && u != t :: NoneTo(bits, tiles[u], pools[u], t)) ==>
              Sound(bits, tiles[t := dead], pools[t := NO_LINKS])
  {
    hide PoolOk, NoneTo, HashChains.Pow2;
    var tiles1, pools1 := tiles[t := dead], pools[t := NO_LINKS];
    forall u | 0 <= u < |tiles1| ensures TileOk(bits, tiles1[u], pools1[u]) {
      assert TileOk(bits, tiles[u], pools[u]);
    }
    if Sound(bits, tiles, pools) && (forall u | Live(tiles, u) && u != t :: NoneTo(bits, tiles[u], pools[u], t)) {
      DropSound(bits, tiles, pools, tiles1, pools1, t);
    }
  }

  lemma SameButNextNone(bits: Bits, a: Tile, b: Tile, p: Pool, num: nat)
    requires SameButNext(a, b)
    ensures NoneTo(bits, a, p, num) == NoneTo(bits, b, p, num)
  {
    hide DecodeTile;
    if |a.links| == |p.home| {
      assert forall l | 0 <= l < |a.links| :: Hits(bits, a, p, l, num) == Hits(bits, b, p, l, num);
    }
  }

  lemma ClearedNothing(bits: Bits, tiles: seq<Tile>, pools: seq<Pool>, index: Index, t: nat)
    requires |pools| == |tiles|
    ensures Cleared(bits, tiles, pools, tiles, pools, index, t, -1)
  {
  }

  lemma LooksSame(ts: seq<Tile>, tiles: seq<Tile>, was: Index, index: Index, t: nat, x: int, y: int, u: nat)
    requires |ts| == |tiles| && forall w | 0 <= w < |ts| :: ts[w].header == tiles[w].header
    requires AllWithout(was, index, t)
    ensures LooksAt(ts, was, t, x, y, u) == LooksAt(tiles, index, t, x, y, u)
  {
    hide Hash;
    if |was.buckets| > 0 {
      var c := was.buckets[Hash(x, y, |was.buckets|)];
      WithoutTwice(c, t);
      FirstTilesSame(ts, tiles, Without(c, t), x, y);
    }
  }

  /** Once the tiles looked at are cleared, the links to tile `t` are those of the tiles that were left out. */
  lemma LeftOutIff(bits: Bits, ts0: seq<Tile>, ts: seq<Tile>, ps: seq<Pool>, tiles: seq<Tile>, pools: seq<Pool>,
                   was: Index, index: Index, t: nat)
    requires |ts0| == |ts| && forall u | 0 <= u < |ts| :: SameButNext(ts0[u], ts[u])
    requires AllWithout(was, index, t) && Cleared(bits, ts, ps, tiles, pools, index, t, 8)
    requires SameFaces(ts, tiles)
    ensures |pools| == |tiles| && (NoneLeftOut(bits, ts0, ps, was, t) <==>
              forall u | Live(tiles, u) && u != t :: NoneTo(bits, tiles[u], pools[u], t))
  {
    hide LooksAt, CellX, CellY, AllWithout;
    assert forall u | 0 <= u < |ts| :: SameButNext(ts0[u], ts[u]) && ts0[u].header == ts[u].header;
    forall u: nat | u < |ts| ensures LooksAround(ts0, was, t, 8, u) == LooksAround(ts, index, t, 8, u) {
      forall x, y ensures LooksAt(ts0, was, t, x, y, u) == LooksAt(ts, index, t, x, y, u) {
        LooksSame(ts0, ts, was, index, t, x, y, u);
      }
    }
    hide LooksAround;
    forall u: nat | u < |ts| ensures Live(ts0, u) == Live(tiles, u) && SameButNext(ts0[u], ts[u]) {
      assert SameFace(ts[u], tiles[u]);
    }
    assert forall u: nat | u < |ts| :: NoneTo(bits, ts0[u], ps[u], t) == NoneTo(bits, ts[u], ps[u], t) by {
      forall u: nat | u < |ts| ensures NoneTo(bits, ts0[u], ps[u], t) == NoneTo(bits, ts[u], ps[u], t) {
        SameButNextNone(bits, ts0[u], ts[u], ps[u], t);
      }
    }
    hide NoneTo, SameButNext;
  }

  /** A sound mesh that loses a tile stays sound exactly if no link leads to that tile. */
  lemma DropSoundIff(bits: Bits, tiles: seq<Tile>, pools: seq<Pool>, t: nat, dead: Tile)
    requires TilesOk(bits, tiles, pools) && Sound(bits, tiles, pools) && t < |tiles| && dead.header.None?
    requires 0 < dead.salt < HashChains.Pow2(bits.salt)
    ensures |pools| == |tiles| && TilesOk(bits, tiles[t := dead], pools[t := NO_LINKS])
    ensures Sound(bits, tiles[t := dead], pools[t := NO_LINKS]) <==>
              forall u | Live(tiles, u) && u != t :: NoneTo(bits, tiles[u], pools[u], t)
  {
    DeadTile(bits, tiles, pools, t, dead);
    hide HashChains.Pow2, DecodeTile, DecodeSalt, DecodePoly, PoolOk, DataOk;
    var tiles1, pools1 := tiles[t := dead], pools[t := NO_LINKS];
    if Sound(bits, tiles1, pools1) {
      forall u | Live(tiles, u) && u != t ensures NoneTo(bits, tiles[u], pools[u], t) {
        PoolOfTile(bits, tiles, pools, u);
        PoolSize(tiles[u], pools[u]);
        assert Live(tiles1, u) && LinksOk(bits, tiles1, pools1, u);
        forall l | 0 <= l < |tiles[u].links| ensures !Hits(bits, tiles[u], pools[u], l, t) {
          assert pools1[u].home[l] >= 0 ==> RefOk(bits, tiles1, u, tiles1[u].links[l].ref);
        }
      }
    }
  }

  lemma RemovedIs(bits: Bits, ts0: seq<Tile>, ps0: seq<Pool>, ts: seq<Tile>, ts2: seq<Tile>, ps2: seq<Pool>, t: nat,
                  dead: Tile)
    requires t < |ts0| == |ts| && (forall u | 0 <= u < |ts| :: SameButNext(ts0[u], ts[u])) && Live(ts0, t)
    requires Sheds(bits, ts, ps0, ts2, ps2, t) && dead.header.None? && dead.salt == SaltAfter(bits, ts0[t].salt)
    ensures |ps2| == |ts2| == |ts| == |ps0|
    ensures RemovedTile(bits, ts0, ps0, ts2[t := dead], ps2[t := NO_LINKS], t)
  {
    ShedsFacts(bits, ts, ps0, ts2, ps2, t, t);
    hide TilesOk, Sound;
    forall u | Live(ts0, u) && u != t
      ensures LinksShed(bits, ts0[u], ps0[u], ts2[t := dead][u], ps2[t := NO_LINKS][u], t)
    {
      assert SameButNext(ts0[u], ts[u]) && Live(ts, u) && LinksShed(bits, ts[u], ps0[u], ts2[u], ps2[u], t);
      assert forall l | 0 <= l < |ts0[u].links| && |ps0[u].home| == |ts0[u].links| ::
          Hits(bits, ts0[u], ps0[u], l, t) == Hits(bits, ts[u], ps0[u], l, t);
    }
  }

  // ---------------------------------------------------------------- an empty mesh

  /** `dtIlog2(dtNextPow2(n))`: the least width that holds `n` different indices. */
  function Log2Up(n: nat): (k: nat)
    ensures HashChains.Pow2(k) >= n && (k > 0 ==> HashChains.Pow2(k - 1) < n)
  {
    if n <= 1 then 0 else Log2Up((n + 1) / 2) + 1
  }

  lemma InitBits(tileBits: nat, polyBits: nat)
    requires tileBits + polyBits <= 22
    ensures Fits(Bits(SaltBits(tileBits, polyBits), tileBits, polyBits))
  {
    SmallMod(32 - tileBits - polyBits, 0x1_0000_0000);
  }

  predicate BlankTile(tile: Tile) {
    tile.salt == 1 && tile.header == None && tile.polys == [] && tile.links == [] && tile.cons == []
  }

  lemma InitOk(bits: Bits, tiles: seq<Tile>, pools: seq<Pool>, posLookup: seq<int>, nextFree: int, index: Index, n: nat)
    requires Fits(bits) && |tiles| == |pools| == n && 0 < n <= HashChains.Pow2(bits.tile)
             && |posLookup| == |index.buckets| > 0
    requires forall k | 0 <= k < n :: BlankTile(tiles[k]) && tiles[k].next == if k + 1 < n then k + 1 else NULL_LINK
    requires nextFree == 0 && index.free == UpTo(n)
    requires forall h | 0 <= h < |posLookup| :: posLookup[h] == NULL_LINK && index.buckets[h] == []
    ensures TilesOk(bits, tiles, pools) && Sound(bits, tiles, pools)
    ensures IndexOk(tiles, posLookup, nextFree, index, NO_TILE)
  {
    Pow2Grows(1, bits.salt);
    assert HashChains.Pow2(1) == 2;
    hide HashChains.Pow2, PoolOk;
    forall t | 0 <= t < |tiles| ensures TileOk(bits, tiles[t], pools[t]) {
      assert BlankTile(tiles[t]);
    }
    forall k | 0 <= k < n ensures LinkAt(TileNexts(tiles), UpTo(n), k) && !Live(tiles, UpTo(n)[k]) {
      assert BlankTile(tiles[k]);
    }
    forall h | 0 <= h < |posLookup| ensures BucketOk(tiles, |posLookup|, h, posLookup[h], index.buckets[h]) {
    }
    forall t | 0 <= t < |tiles| ensures Listed(tiles, index, t) {
      assert BlankTile(tiles[t]) && UpTo(n)[t] == t;
    }
  }

  predicate FreeAt(tiles: seq<Tile>, c: seq<nat>, k: nat)
    requires k < |c|
  {
    c[k] < |tiles| && !Live(tiles, c[k]) && tiles[c[k]].next == NextOf(c, k)
  }

  lemma FreeChain(tiles: seq<Tile>, posLookup: seq<int>, nextFree: int, index: Index)
    requires IndexOk(tiles, posLookup, nextFree, index, NO_TILE)
    ensures var c := index.free;
            && nextFree == FirstOf(c) && forall k | 0 <= k < |c| :: FreeAt(tiles, c, k)
  {
    var c := index.free;
    forall k | 0 <= k < |c| ensures FreeAt(tiles, c, k) {
      assert LinkAt(TileNexts(tiles), c, k);
    }
  }

  lemma FreeNext(tiles: seq<Tile>, c: seq<nat>, k: nat)
    requires k < |c| && FreeAt(tiles, c, k)
    ensures c[k] < |tiles| && !Live(tiles, c[k]) && tiles[c[k]].next == NextOf(c, k)
  {
  }

  lemma FreeAll(tiles: seq<Tile>, posLookup: seq<int>, nextFree: int, index: Index)
    requires IndexOk(tiles, posLookup, nextFree, index, NO_TILE)
    ensures forall t: nat | t < |tiles| && !Live(tiles, t) :: t in index.free
  {
    forall t: nat | t < |tiles| && !Live(tiles, t) ensures t in index.free {
      assert Listed(tiles, index, t);
    }
  }

  predicate LiveAt(tiles: seq<Tile>, c: seq<nat>, k: nat)
    requires k < |c|
  {
    Live(tiles, c[k]) && tiles[c[k]].next == NextOf(c, k)
  }

  lemma LiveNext(tiles: seq<Tile>, c: seq<nat>, k: nat)
    requires k < |c| && LiveAt(tiles, c, k)
    ensures Live(tiles, c[k]) && tiles[c[k]].next == NextOf(c, k)
  {
  }

  lemma ChainOf(tiles: seq<Tile>, posLookup: seq<int>, nextFree: int, index: Index, h: nat, loose: int)
    requires IndexOk(tiles, posLookup, nextFree, index, loose) && h < |posLookup|
    ensures var c := index.buckets[h];
            && posLookup[h] == FirstOf(c) && Unlisted(c, loose) && forall k | 0 <= k < |c| :: LiveAt(tiles, c, k)
  {
    var c := index.buckets[h];
    assert BucketOk(tiles, |posLookup|, h, posLookup[h], c);
    forall k | 0 <= k < |c| ensures LiveAt(tiles, c, k) {
      assert LinkAt(TileNexts(tiles), c, k) && InBucket(tiles, c[k], h, |posLookup|);
    }
  }

  class Mesh {
    const bits: Bits
    var tiles: seq<Tile>
    var posLookup: seq<int>
    var nextFree: int
    ghost var pools: seq<Pool>
    ghost var index: Index

    ghost predicate ValidBut(loose: int)
      reads this
    {
      Fits(bits) && TilesOk(bits, tiles, pools) && IndexOk(tiles, posLookup, nextFree, index, loose)
    }

    ghost predicate Valid()
      reads this
    {
      ValidBut(NO_TILE)
    }

    /** Every link in use leads to a polygon of a live tile, in the same cell or one next to it. */
    ghost predicate NoDangling()
      reads this
      requires Valid()
    {
      Sound(bits, tiles, pools)
    }

    /** The loop of `getTileAt`: the live tile at a position, or -1. */
    method GetTileAt(x: int, y: int, layer: int) returns (t: int)
      requires Valid()
      ensures t >= 0 ==> Live(tiles, t) && tiles[t].header == Some(Header(x, y, layer))
      ensures t < 0 ==> forall u | Live(tiles, u) :: tiles[u].header != Some(Header(x, y, layer))
    {
      hide TilesOk;
      var h := Hash(x, y, |posLookup|);
      ghost var c := index.buckets[h];
      ChainOf(tiles, posLookup, nextFree, index, h, NO_TILE);
      t := posLookup[h];
      ghost var k := 0;
      while t != NULL_LINK
        invariant 0 <= k <= |c| && t == if k < |c| then c[k] else NULL_LINK
        invariant forall m | 0 <= m < k :: Live(tiles, c[m]) && tiles[c[m]].header != Some(Header(x, y, layer))
        decreases |c| - k
      {
        assert LiveAt(tiles, c, k);
        if tiles[t].header == Some(Header(x, y, layer)) {
          return;
        }
        t := tiles[t].next;
        k := k + 1;
      }
      forall u | Live(tiles, u) ensures tiles[u].header != Some(Header(x, y, layer)) {
        assert Listed(tiles, index, u);
      }
    }

    /** `getTilesAt`: the tiles of a cell, as far as they fit into the array. */
    method GetTilesAt(x: int, y: int, ghost loose: int) returns (list: seq<nat>)
      requires ValidBut(loose)
      ensures |list| <= MAX_NEIS && forall k | 0 <= k < |list| :: InCell(tiles, list[k], x, y) && list[k] != loose
      ensures CellFits(tiles, x, y, loose) ==> forall t | InCell(tiles, t, x, y) && t != loose :: t in list
      ensures |index.buckets| > 0 && list == FirstTiles(tiles, index.buckets[Hash(x, y, |index.buckets|)], x, y)
    {
      hide TilesOk, IndexOk;
      IndexSize(tiles, posLookup, nextFree, index, loose);
      var h := Hash(x, y, |posLookup|);
      ghost var c := index.buckets[h];
      ChainOf(tiles, posLookup, nextFree, index, h, loose);
      hide CellTiles, FirstFew, CellFits, Hash;
      list := [];
      var t := posLookup[h];
      ghost var k := 0;
      while t != NULL_LINK
        invariant 0 <= k <= |c| && t == if k < |c| then c[k] else NULL_LINK
        invariant list == FirstFew(CellTiles(tiles, c, k, x, y))
        decreases |c| - k
      {
        assert LiveAt(tiles, c, k);
        OneMoreFew(tiles, c, k, x, y);
        if tiles[t].header.Some? && tiles[t].header.value.x == x && tiles[t].header.value.y == y {
          if |list| < MAX_NEIS {
            list := list + [t];
          }
        }
        t := tiles[t].next;
        k := k + 1;
      }
      assert list == FirstTiles(tiles, c, x, y);
      hide FirstTiles, InCell;
      FirstTilesAre(tiles, posLookup, nextFree, index, x, y, loose);
    }

    /** `allocLink`, and the link put first in the list of polygon `i`. */
    method AddLink(t: nat, i: nat, ref: nat, edge: nat, side: nat)
      requires Valid() && Live(tiles, t) && i < |tiles[t].polys| && RefOk(bits, tiles, t, ref)
      modifies `tiles, `pools
      ensures Valid() && Builds(bits, old(tiles), old(pools), tiles, pools)
      ensures |tiles| == |pools| == |old(tiles)| && OneLinked(tiles[t], pools[t], i, ref, edge, side)
      ensures OneNew(old(tiles), old(pools), tiles, pools, t, i, ref, edge, side)
    {
      hide TilesOk, IndexOk, RefOk, HasLink, Builds, OneNew, PoolOk;
      AddLinkBuilds(bits, tiles, pools, t, i, ref, edge, side);
      PoolOfTile(bits, tiles, pools, t);
      OneNewIs(tiles, pools, t, i, ref, edge, side);
      ghost var pools1 := pools[t := PoolAdded(tiles[t], pools[t], i)];
      ghost var tiles0 := tiles;
      var link := tiles[t].linksFreeList;
      if link != NULL_LINK {
        var tile := tiles[t].(linksFreeList := tiles[t].links[link].next);
        tile := tile.(links := tile.links[link := Link(ref, tile.polys[i].firstLink, edge, side)]);
        tile := tile.(polys := tile.polys[i := tile.polys[i].(firstLink := link)]);
        tiles := tiles[t := tile];
      }
      pools := pools1;
      assert tiles == tiles0[t := NavMeshTiles.Added(tiles0[t], i, ref, edge, side)];
      BuildsIndex(bits, tiles0, old(pools), tiles, pools, posLookup, nextFree, index);
    }

    /** `findConnectingPolys`: polygons of tile `u` with an edge to `side` that meets edge `j` of polygon `i`. */
    method FindConnectingPolys(geo: Geometry, t: nat, i: nat, j: nat, u: nat, side: nat) returns (con: seq<nat>)
      requires u < |tiles|
      ensures con == Meeting(geo, t, i, j, u, tiles[u].polys, |tiles[u].polys|, side)
    {
      con := [];
      var polys := tiles[u].polys;
      var p := 0;
      while p < |polys|
        invariant 0 <= p <= |polys| && con == Meeting(geo, t, i, j, u, polys, p, side)
      {
        var e := 0;
        var met := false;
        while e < |polys[p].neis| && !met
          invariant 0 <= e <= |polys[p].neis|
          invariant met ==> Meets(geo, t, i, j, u, polys, p, side)
          invariant !met ==> forall f | 0 <= f < e ::
                      !(polys[p].neis[f] == EXT_LINK + side && geo.touches(t, i, j, u, p, f))
          decreases |polys[p].neis| - e, !met
        {
          if polys[p].neis[e] == EXT_LINK + side && geo.touches(t, i, j, u, p, e) {
            met := true;
          } else {
            e := e + 1;
          }
        }
        if met && |con| < MAX_CON {
          con := con + [p];
        }
        p := p + 1;
      }
    }

    /** One portal edge in `connectExtLinks`. `ts` is the mesh before the links were built. */
    method ConnectEdge(geo: Geometry, t: nat, u: nat, i: nat, j: nat, ghost ts: seq<Tile>, ghost ps: seq<Pool>)
      requires Valid() && Builds(bits, ts, ps, tiles, pools)
      requires Live(ts, t) && Live(ts, u) && Near(ts[t].header.value, ts[u].header.value)
      requires i < |ts[t].polys| && j < |ts[t].polys[i].neis| && u != t && ts[t].polys[i].neis[j] >= EXT_LINK
      requires Beside(ts[t].header.value, ts[u].header.value, -1)
               || Beside(ts[t].header.value, ts[u].header.value, ts[t].polys[i].neis[j] % 0x100)
      modifies `tiles, `pools
      ensures Valid() && Builds(bits, old(tiles), old(pools), tiles, pools) && Builds(bits, ts, ps, tiles, pools)
      ensures |tiles| == |pools| == |ts| && EdgeExtLinked(geo, bits, ts, tiles, pools, t, u, i, j)
      ensures AllMeant(geo, bits, old(tiles), old(pools), tiles, pools)
    {
      hide TilesOk, IndexOk, Builds, HasLink, AllLinked, Meeting, RefOk, SameData, TileGrows, Near, OneNew, Meant,
           AllMeant, Beside, Meets;
      BuildsFacts(bits, ts, ps, tiles, pools, t);
      BuildsFacts(bits, ts, ps, tiles, pools, u);
      BuildsNothing(bits, tiles, pools);
      ghost var ts0, ps0 := tiles, pools;
      var dir := tiles[t].polys[i].neis[j] % 0x100;
      var con := FindConnectingPolys(geo, t, i, j, u, Opposite(dir));
      MeetingSame(geo, t, i, j, u, ts[u].polys, tiles[u].polys, |ts[u].polys|, Opposite(dir));
      ghost var refs := Refs(bits, ts, u, con);
      var k := 0;
      NoneLinked(tiles[t], pools[t], i, j, dir, refs);
      NothingNew(geo, bits, tiles, pools);
      while k < |con|
        invariant 0 <= k <= |con| == |refs| && Valid()
        invariant Builds(bits, ts0, ps0, tiles, pools) && Builds(bits, ts, ps, tiles, pools)
        invariant AllMeant(geo, bits, ts0, ps0, tiles, pools)
        invariant |tiles| == |pools| == |ts| && AllLinked(tiles[t], pools[t], i, j, dir, refs, k)
      {
        ghost var ts1, ps1 := tiles, pools;
        BuildsFacts(bits, ts, ps, tiles, pools, t);
        BuildsFacts(bits, ts, ps, tiles, pools, u);
        NearRef(bits, tiles, pools, t, u, con[k]);
        MeetsIsPortal(geo, bits, ts, ps, ts1, ps1, t, i, u, con[k], j);
        AddLink(t, i, RefTo(bits, tiles, u, con[k]), j, dir);
        OneNewMeant(geo, bits, ts1, ps1, tiles, pools, t, i, u, con[k], j, dir);
        MeantOn(geo, bits, ts0, ps0, ts1, ps1, tiles, pools);
        BuildsOn(bits, ts, ps, ts1, ps1, tiles, pools);
        BuildsFacts(bits, ts1, ps1, tiles, pools, t);
        AllLinkedKept(ts1[t], ps1[t], tiles[t], pools[t], i, j, dir, refs, k);
        OneMoreLinked(tiles[t], pools[t], i, j, dir, refs, k);
        k := k + 1;
      }
    }

    /** `connectExtLinks`: each portal edge of tile `t` to `side` is linked to the polygons of `u` that meet it,
        unless the links run out. */
    method ConnectExtLinks(geo: Geometry, t: nat, u: nat, side: int)
      requires Valid() && Live(tiles, t) && Live(tiles, u) && t != u
      requires -1 <= side < 8 && Beside(tiles[t].header.value, tiles[u].header.value, side)
      modifies `tiles, `pools
      ensures Valid() && Builds(bits, old(tiles), old(pools), tiles, pools) && |tiles| == |pools| == |old(tiles)|
      ensures forall i | 0 <= i < |old(tiles)[t].polys| ::
                ExtLinked(geo, bits, old(tiles), tiles, pools, t, u, i, side, |old(tiles)[t].polys[i].neis|)
      ensures TileExtLinked(geo, bits, tiles, pools, t, u, side)
      ensures AllMeant(geo, bits, old(tiles), old(pools), tiles, pools)
    {
      hide TilesOk, IndexOk, Builds, ExtLinked, EdgeExtLinked, AllMeant, Beside;
      ghost var ts, ps := tiles, pools;
      BuildsNothing(bits, tiles, pools);
      NothingNew(geo, bits, tiles, pools);
      BesideNear(tiles[t].header.value, tiles[u].header.value, side);
      BuildsFacts(bits, ts, ps, tiles, pools, t);
      var i := 0;
      while i < |tiles[t].polys|
        invariant |tiles| == |pools| == |ts| && Valid() && Builds(bits, ts, ps, tiles, pools)
        invariant AllMeant(geo, bits, ts, ps, tiles, pools)
        invariant 0 <= i <= |ts[t].polys| == |tiles[t].polys|
        invariant forall k | 0 <= k < i :: ExtLinked(geo, bits, ts, tiles, pools, t, u, k, side, |ts[t].polys[k].neis|)
        decreases |ts[t].polys| - i
      {
        var j := 0;
        BuildsFacts(bits, ts, ps, tiles, pools, t);
        NoEdgesYet(geo, bits, ts, tiles, pools, t, u, i, side);
        while j < |tiles[t].polys[i].neis|
          invariant Valid() && Builds(bits, ts, ps, tiles, pools) && AllMeant(geo, bits, ts, ps, tiles, pools)
          invariant |tiles| == |pools| == |ts| && |tiles[t].polys| == |ts[t].polys|
          invariant 0 <= j <= |ts[t].polys[i].neis| && tiles[t].polys[i].neis == ts[t].polys[i].neis
          invariant forall k | 0 <= k < i ::
                      ExtLinked(geo, bits, ts, tiles, pools, t, u, k, side, |ts[t].polys[k].neis|)
          invariant ExtLinked(geo, bits, ts, tiles, pools, t, u, i, side, j)
          decreases |ts[t].polys[i].neis| - j
        {
          if tiles[t].polys[i].neis[j] >= EXT_LINK && (side == -1 || tiles[t].polys[i].neis[j] % 0x100 == side) {
            ghost var ts1, ps1 := tiles, pools;
            BuildsFacts(bits, ts, ps, tiles, pools, t);
            ConnectEdge(geo, t, u, i, j, ts, ps);
            MeantOn(geo, bits, ts, ps, ts1, ps1, tiles, pools);
            BuildsFacts(bits, ts, ps, tiles, pools, t);
            forall k | 0 <= k < i ensures ExtLinked(geo, bits, ts, tiles, pools, t, u, k, side, |ts[t].polys[k].neis|) {
              ExtLinkedKept(geo, bits, ts, ts1, ps1, tiles, pools, t, u, k, side, |ts[t].polys[k].neis|);
            }
            ExtLinkedKept(geo, bits, ts, ts1, ps1, tiles, pools, t, u, i, side, j);
          }
          OneMoreExt(geo, bits, ts, tiles, pools, t, u, i, side, j);
          j := j + 1;
        }
        i := i + 1;
      }
      Rebased(geo, bits, ts, ps, tiles, pools, t, u, side);
    }

    /** One round of its loop. */
    method StartOne(geo: Geometry, t: nat, c: nat)
      requires Valid() && Live(tiles, t) && c < |tiles[t].cons|
      modifies `tiles, `pools
      ensures Valid() && Builds(bits, old(tiles), old(pools), tiles, pools)
              && StartLinked(geo, bits, tiles, pools, t, c)
      ensures AllMeant(geo, bits, old(tiles), old(pools), tiles, pools)
    {
      hide TilesOk, IndexOk, Builds, HasLink, OneLinked, TileGrows, RefOk, OneNew, AllMeant, Meant;
      NothingNew(geo, bits, tiles, pools);
      ghost var ts, ps := tiles, pools;
      BuildsNothing(bits, tiles, pools);
      BuildsFacts(bits, ts, ps, tiles, pools, t);
      ConInRange(bits, tiles, pools, t, c);
      var p, from := geo.start(t, c), tiles[t].cons[c].poly;
      if p < |tiles[t].polys| {
        NearRef(bits, tiles, pools, t, t, p);
        NearRef(bits, tiles, pools, t, t, from);
        var ref, back := RefTo(bits, tiles, t, p), RefTo(bits, tiles, t, from);
        StartIsMeant(geo, tiles, pools, t, c);
        AddLink(t, from, ref, 0, NO_SIDE);
        OneNewMeant(geo, bits, ts, ps, tiles, pools, t, from, t, p, 0, NO_SIDE);
        BuildsFacts(bits, ts, ps, tiles, pools, t);
        BuildsRef(bits, ts, ps, tiles, pools, t, back);
        ghost var ts1, ps1 := tiles, pools;
        StartIsMeant(geo, tiles, pools, t, c);
        AddLink(t, p, back, 0xff, NO_SIDE);
        OneNewMeant(geo, bits, ts1, ps1, tiles, pools, t, p, t, from, 0xff, NO_SIDE);
        MeantOn(geo, bits, ts, ps, ts1, ps1, tiles, pools);
        BuildsFacts(bits, ts1, ps1, tiles, pools, t);
        OneLinkedKept(ts1[t], ps1[t], tiles[t], pools[t], from, ref, 0, NO_SIDE);
      }
    }

    /** `baseOffMeshLinks`: each off-mesh connection of tile `t` is tied to the polygon it starts on, both ways. */
    method BaseOffMeshLinks(geo: Geometry, t: nat)
      requires Valid() && Live(tiles, t)
      modifies `tiles, `pools
      ensures Valid() && Builds(bits, old(tiles), old(pools), tiles, pools) && |tiles| == |old(tiles)|
      ensures forall c | 0 <= c < |old(tiles)[t].cons| :: StartLinked(geo, bits, tiles, pools, t, c)
      ensures AllMeant(geo, bits, old(tiles), old(pools), tiles, pools)
    {
      hide TilesOk, IndexOk, Builds, HasLink, StartLinked, AllMeant;
      ghost var ts, ps := tiles, pools;
      BuildsNothing(bits, tiles, pools);
      NothingNew(geo, bits, tiles, pools);
      var cons := tiles[t].cons;
      var i := 0;
      while i < |cons|
        invariant 0 <= i <= |cons| && Valid() && Builds(bits, ts, ps, tiles, pools)
        invariant AllMeant(geo, bits, ts, ps, tiles, pools)
        invariant forall c | 0 <= c < i :: StartLinked(geo, bits, tiles, pools, t, c)
      {
        ghost var ts1, ps1 := tiles, pools;
        BuildsFacts(bits, ts, ps, tiles, pools, t);
        StartOne(geo, t, i);
        MeantOn(geo, bits, ts, ps, ts1, ps1, tiles, pools);
        forall c | 0 <= c < i ensures StartLinked(geo, bits, tiles, pools, t, c) {
          StartLinkedKept(geo, bits, ts1, ps1, tiles, pools, t, c);
        }
        i := i + 1;
      }
      BuildsFacts(bits, ts, ps, tiles, pools, t);
    }

    /** The link from polygon `from` of tile `u` to polygon `p` of tile `t`, and back if asked. */
    method LinkPair(ghost geo: Geometry, t: nat, u: nat, p: nat, from: nat, there: nat, here: nat, both: bool)
      requires Valid() && Live(tiles, t) && Live(tiles, u) && Near(tiles[t].header.value, tiles[u].header.value)
      requires p < |tiles[t].polys| && from < |tiles[u].polys|
      requires LandLink(geo, tiles, u, from, t, p, 1, there) && HasLinks(tiles[u], from)
      requires both ==> BackLink(geo, tiles, t, p, u, from, 0xff, here)
      modifies `tiles, `pools
      ensures Valid() && Builds(bits, old(tiles), old(pools), tiles, pools) && |tiles| == |pools| == |old(tiles)|
      ensures OneLinked(tiles[u], pools[u], from, RefTo(bits, tiles, t, p), 1, there)
      ensures both ==> OneLinked(tiles[t], pools[t], p, RefTo(bits, tiles, u, from), 0xff, here)
      ensures AllMeant(geo, bits, old(tiles), old(pools), tiles, pools)
    {
      hide TilesOk, IndexOk, Builds, OneLinked, TileGrows, RefOk, OneNew, AllMeant, Meant, LandLink, BackLink, HasLinks;
      ghost var ts, ps := tiles, pools;
      NearRef(bits, tiles, pools, u, t, p);
      NearRef(bits, tiles, pools, t, u, from);
      var ref, back := RefTo(bits, tiles, t, p), RefTo(bits, tiles, u, from);
      LandIsMeant(geo, bits, tiles, pools, u, from, t, p, there);
      AddLink(u, from, ref, 1, there);
      OneNewMeant(geo, bits, ts, ps, tiles, pools, u, from, t, p, 1, there);
      BuildsFacts(bits, ts, ps, tiles, pools, t);
      BuildsFacts(bits, ts, ps, tiles, pools, u);
      if both {
        BuildsRef(bits, ts, ps, tiles, pools, t, back);
        ghost var ts1, ps1 := tiles, pools;
        BackIsMeant(geo, bits, ts, ps, tiles, pools, t, p, u, from, here);
        AddLink(t, p, back, 0xff, here);
        OneNewMeant(geo, bits, ts1, ps1, tiles, pools, t, p, u, from, 0xff, here);
        MeantOn(geo, bits, ts, ps, ts1, ps1, tiles, pools);
        BuildsFacts(bits, ts1, ps1, tiles, pools, t);
        BuildsFacts(bits, ts1, ps1, tiles, pools, u);
        OneLinkedKept(ts1[u], ps1[u], tiles[u], pools[u], from, ref, 1, there);
      }
    }

    /** One round of its loop. */
    method LandOne(geo: Geometry, t: nat, u: nat, side: int, c: nat, ghost base: seq<Tile>, ghost ps0: seq<Pool>)
      requires Valid() && Live(tiles, t) && Live(tiles, u)
      requires -1 <= side < 8 && Beside(tiles[t].header.value, tiles[u].header.value, side)
      requires c < |tiles[u].cons| && Builds(bits, base, ps0, tiles, pools) && Live(base, u)
      modifies `tiles, `pools
      ensures Valid() && Builds(bits, old(tiles), old(pools), tiles, pools)
      ensures LandingLinked(geo, bits, base, tiles, pools, t, u, side, c)
      ensures AllMeant(geo, bits, old(tiles), old(pools), tiles, pools)
    {
      hide TilesOk, IndexOk, Builds, OneLinked, TileGrows, RefOk, RefTo, AllMeant, Beside, LandLink, BackLink;
      NothingNew(geo, bits, tiles, pools);
      BesideNear(tiles[t].header.value, tiles[u].header.value, side);
      ghost var ts, ps := tiles, pools;
      BuildsNothing(bits, tiles, pools);
      BuildsFacts(bits, ts, ps, tiles, pools, t);
      BuildsFacts(bits, base, ps0, tiles, pools, u);
      ConInRange(bits, tiles, pools, u, c);
      var con := tiles[u].cons[c];
      if HasLinks(base[u], con.poly) {
        HasLinksKept(bits, base, ps0, tiles, pools, u, con.poly);
      }
      if con.side == OppositeByte(side) && tiles[u].polys[con.poly].firstLink != NULL_LINK {
        var p := geo.landing(t, u, c);
        if p < |tiles[t].polys| {
          ConLeads(geo, tiles, t, u, side, c);
          LinkPair(geo, t, u, p, con.poly, OppositeByte(side), SideByte(side), con.bidir);
          BuildsFacts(bits, ts, ps, tiles, pools, t);
          BuildsFacts(bits, ts, ps, tiles, pools, u);
        }
      }
    }

    /** `connectExtOffMeshLinks`: off-mesh connections of tile `u` that land on tile `t`, and back if they go both
        ways. */
    method ConnectExtOffMeshLinks(geo: Geometry, t: nat, u: nat, side: int)
      requires Valid() && Live(tiles, t) && Live(tiles, u)
      requires -1 <= side < 8 && Beside(tiles[t].header.value, tiles[u].header.value, side)
      modifies `tiles, `pools
      ensures Valid() && Builds(bits, old(tiles), old(pools), tiles, pools) && |tiles| == |old(tiles)|
      ensures forall c | 0 <= c < |old(tiles)[u].cons| ::
                LandingLinked(geo, bits, old(tiles), tiles, pools, t, u, side, c)
      ensures AllMeant(geo, bits, old(tiles), old(pools), tiles, pools)
    {
      hide TilesOk, IndexOk, Builds, HasLink, LandingLinked, HasLinks, AllMeant, Beside;
      ghost var ts, ps := tiles, pools;
      BuildsNothing(bits, tiles, pools);
      NothingNew(geo, bits, tiles, pools);
      var cons := tiles[u].cons;
      var i := 0;
      while i < |cons|
        invariant 0 <= i <= |cons| && Valid() && Builds(bits, ts, ps, tiles, pools)
        invariant AllMeant(geo, bits, ts, ps, tiles, pools)
        invariant forall c | 0 <= c < i :: LandingLinked(geo, bits, ts, tiles, pools, t, u, side, c)
      {
        ghost var ts1, ps1 := tiles, pools;
        BuildsFacts(bits, ts, ps, tiles, pools, t);
        BuildsFacts(bits, ts, ps, tiles, pools, u);
        LandOne(geo, t, u, side, i, ts, ps);
        MeantOn(geo, bits, ts, ps, ts1, ps1, tiles, pools);
        forall c | 0 <= c < i ensures LandingLinked(geo, bits, ts, tiles, pools, t, u, side, c) {
          LandingLinkedKept(geo, bits, ts, ts1, ps1, tiles, pools, t, u, side, c);
        }
        i := i + 1;
      }
      BuildsFacts(bits, ts, ps, tiles, pools, u);
    }

    /** Everything that links tile `t` and a tile `u` of its own or a neighbouring cell. */
    method ConnectTiles(geo: Geometry, t: nat, u: nat, side: int)
      requires Valid() && Live(tiles, t) && Live(tiles, u)
      requires -1 <= side < 8 && Beside(tiles[t].header.value, tiles[u].header.value, side)
      modifies `tiles, `pools
      ensures Valid() && Builds(bits, old(tiles), old(pools), tiles, pools)
      ensures t != u ==> TileExtLinked(geo, bits, tiles, pools, t, u, side)
      ensures t != u ==> TileExtLinked(geo, bits, tiles, pools, u, t, OppositeSide(side))
      ensures Landings(geo, bits, old(tiles), tiles, pools, t, u, side)
      ensures Landings(geo, bits, old(tiles), tiles, pools, u, t, OppositeSide(side))
      ensures AllMeant(geo, bits, old(tiles), old(pools), tiles, pools)
    {
      hide TilesOk, IndexOk, Builds, HasLink, TileExtLinked, ExtLinked, LandingLinked, AllMeant, Beside;
      ghost var ts, ps := tiles, pools;
      BuildsNothing(bits, tiles, pools);
      NothingNew(geo, bits, tiles, pools);
      BesideNear(tiles[t].header.value, tiles[u].header.value, side);
      var opposite: int := if side == -1 then -1 else Opposite(side);
      if t != u {
        ConnectExtLinks(geo, t, u, side);
        BuildsFacts(bits, ts, ps, tiles, pools, t);
        BuildsFacts(bits, ts, ps, tiles, pools, u);
        ghost var ts1, ps1 := tiles, pools;
        ConnectExtLinks(geo, u, t, opposite);
        MeantOn(geo, bits, ts, ps, ts1, ps1, tiles, pools);
        TileExtLinkedKept(geo, bits, ts1, ps1, tiles, pools, t, u, side);
      }
      BuildsFacts(bits, ts, ps, tiles, pools, t);
      BuildsFacts(bits, ts, ps, tiles, pools, u);
      ghost var ts2, ps2 := tiles, pools;
      ConnectExtOffMeshLinks(geo, t, u, side);
      MeantOn(geo, bits, ts, ps, ts2, ps2, tiles, pools);
      BuildsFacts(bits, ts, ps, tiles, pools, t);
      BuildsFacts(bits, ts, ps, tiles, pools, u);
      ghost var ts3, ps3 := tiles, pools;
      ConnectExtOffMeshLinks(geo, u, t, opposite);
      BuildsFacts(bits, ts3, ps3, tiles, pools, t);
      LandingsKept(geo, bits, ts2, ts3, ps3, tiles, pools, t, u, side);
      LandingsSince(geo, bits, ts, ps, ts2, ps2, tiles, pools, t, u, side);
      LandingsSince(geo, bits, ts, ps, ts3, ps3, tiles, pools, u, t, opposite);
      MeantOn(geo, bits, ts, ps, ts3, ps3, tiles, pools);
      if t != u {
        BuildsOn(bits, ts2, ps2, ts3, ps3, tiles, pools);
        TileExtLinkedKept(geo, bits, ts2, ps2, tiles, pools, t, u, side);
        TileExtLinkedKept(geo, bits, ts2, ps2, tiles, pools, u, t, opposite);
      }
    }

    /** The tiles of a cell, one after the other. */
    method ConnectCell(geo: Geometry, t: nat, x: int, y: int, side: int)
      requires Valid() && Live(tiles, t) && -1 <= side < 8 && Beside(tiles[t].header.value, Header(x, y, 0), side)
      modifies `tiles, `pools
      ensures Valid() && Builds(bits, old(tiles), old(pools), tiles, pools)
      ensures AllMeant(geo, bits, old(tiles), old(pools), tiles, pools)
      ensures CellFits(tiles, x, y, NO_TILE) ==>
                && Joined(geo, bits, tiles, pools, t, x, y, side)
                && Landed(geo, bits, old(tiles), tiles, pools, t, x, y, side)
    {
      hide TilesOk, IndexOk, Builds, HasLink, TileExtLinked, CellFits, Landings, AllMeant, Beside;
      ghost var ts, ps := tiles, pools;
      BuildsNothing(bits, tiles, pools);
      NothingNew(geo, bits, tiles, pools);
      var neis := GetTilesAt(x, y, NO_TILE);
      var j := 0;
      while j < |neis|
        invariant 0 <= j <= |neis| && Valid() && Builds(bits, ts, ps, tiles, pools)
        invariant AllMeant(geo, bits, ts, ps, tiles, pools)
        invariant forall k | 0 <= k < j && neis[k] != t ::
                    && TileExtLinked(geo, bits, tiles, pools, t, neis[k], side)
                    && TileExtLinked(geo, bits, tiles, pools, neis[k], t, OppositeSide(side))
        invariant forall k | 0 <= k < j ::
                    && Landings(geo, bits, ts, tiles, pools, t, neis[k], side)
                    && Landings(geo, bits, ts, tiles, pools, neis[k], t, OppositeSide(side))
      {
        assert InCell(ts, neis[j], x, y);
        BuildsFacts(bits, ts, ps, tiles, pools, t);
        BuildsFacts(bits, ts, ps, tiles, pools, neis[j]);
        ghost var ts1, ps1 := tiles, pools;
        BesideCell(tiles[t].header.value, tiles[neis[j]].header.value, x, y, side);
        ConnectTiles(geo, t, neis[j], side);
        LandingsSince(geo, bits, ts, ps, ts1, ps1, tiles, pools, t, neis[j], side);
        LandingsSince(geo, bits, ts, ps, ts1, ps1, tiles, pools, neis[j], t, OppositeSide(side));
        forall k | 0 <= k < j
          ensures Landings(geo, bits, ts, tiles, pools, t, neis[k], side)
          ensures Landings(geo, bits, ts, tiles, pools, neis[k], t, OppositeSide(side))
        {
          BuildsFacts(bits, ts, ps, ts1, ps1, neis[k]);
          assert InCell(ts, neis[k], x, y);
          LandingsKept(geo, bits, ts, ts1, ps1, tiles, pools, t, neis[k], side);
          LandingsKept(geo, bits, ts, ts1, ps1, tiles, pools, neis[k], t, OppositeSide(side));
        }
        MeantOn(geo, bits, ts, ps, ts1, ps1, tiles, pools);
        forall k | 0 <= k < j && neis[k] != t
          ensures TileExtLinked(geo, bits, tiles, pools, t, neis[k], side)
          ensures TileExtLinked(geo, bits, tiles, pools, neis[k], t, OppositeSide(side))
        {
          BuildsFacts(bits, ts, ps, ts1, ps1, neis[k]);
          assert InCell(ts, neis[k], x, y);
          TileExtLinkedKept(geo, bits, ts1, ps1, tiles, pools, t, neis[k], side);
          TileExtLinkedKept(geo, bits, ts1, ps1, tiles, pools, neis[k], t, OppositeSide(side));
        }
        j := j + 1;
      }
      FitsStill(bits, ts, ps, tiles, pools, x, y);
      BuildsFacts(bits, ts, ps, tiles, pools, t);
      if CellFits(ts, x, y, NO_TILE) {
        forall u | InCell(tiles, u, x, y) && u != t
          ensures TileExtLinked(geo, bits, tiles, pools, t, u, side)
          ensures TileExtLinked(geo, bits, tiles, pools, u, t, OppositeSide(side))
        {
          BuildsFacts(bits, ts, ps, tiles, pools, u);
          assert InCell(ts, u, x, y) && u in neis;
        }
        forall u | InCell(tiles, u, x, y)
          ensures Landings(geo, bits, ts, tiles, pools, t, u, side)
          ensures Landings(geo, bits, ts, tiles, pools, u, t, OppositeSide(side))
        {
          BuildsFacts(bits, ts, ps, tiles, pools, u);
          assert InCell(ts, u, x, y) && u in neis;
        }
      }
    }

    /** The search of `addTile` for a given tile in the free list: the tile before it, if it is free at all. */
    method FindFree(target: nat) returns (found: bool, prev: int, ghost a: seq<nat>, ghost b: seq<nat>)
      requires Valid()
      ensures found <==> target < |tiles| && !Live(tiles, target)
      ensures found ==> index.free == a + [target] + b && prev == Before(a)
    {
      hide TilesOk, IndexOk, Before;
      ghost var c := index.free;
      FreeChain(tiles, posLookup, nextFree, index);
      hide FreeAt, Live;
      prev := NULL_LINK;
      var tile := nextFree;
      ghost var k: nat := 0;
      while tile != NULL_LINK && tile != target
        invariant k <= |c| && tile == (if k < |c| then c[k] else NULL_LINK)
        invariant prev == (if k == 0 then NULL_LINK else c[k - 1]) && forall m | 0 <= m < k :: c[m] != target
        decreases |c| - k
      {
        FreeNext(tiles, c, k);
        prev := tile;
        tile := tiles[tile].next;
        k := k + 1;
      }
      found := tile == target;
      a, b := c, [];
      if found {
        a, b := c[..k], c[k + 1..];
        FreeNext(tiles, c, k);
        SplitAt(c, k);
      } else {
        FreeAll(tiles, posLookup, nextFree, index);
      }
    }

    /** Takes a free tile: any, or the one `lastRef` names. */
    method AllocTile(lastRef: nat) returns (t: int, prev: int, ghost a: seq<nat>, ghost b: seq<nat>)
      requires Valid()
      ensures -1 <= t < |tiles|
      ensures t >= 0 ==> !Live(tiles, t) && index.free == a + [t as nat] + b && prev == Before(a)
      ensures t >= 0 && lastRef == 0 ==> a == []
      ensures t >= 0 && lastRef != 0 ==> t == DecodeTile(bits, lastRef)
      ensures t < 0 <==> if lastRef == 0 then forall u: nat | u < |tiles| :: Live(tiles, u)
                         else !(DecodeTile(bits, lastRef) < |tiles| && !Live(tiles, DecodeTile(bits, lastRef)))
    {
      hide TilesOk, IndexOk, DecodeTile;
      a, b := [], [];
      prev := NULL_LINK;
      if lastRef == 0 {
        t := nextFree;
        FreeChain(tiles, posLookup, nextFree, index);
        FreeAll(tiles, posLookup, nextFree, index);
        if t != NULL_LINK {
          FreeNext(tiles, index.free, 0);
          b := index.free[1..];
          assert index.free == a + [t as nat] + b;
        }
      } else {
        var target := DecodeTile(bits, lastRef);
        if target >= |tiles| {
          return -1, prev, a, b;
        }
        var found;
        found, prev, a, b := FindFree(target);
        t := if found then target else -1;
      }
    }

    /** The new tile, with its own links, takes its place in the list of its hash value. */
    method Install(data: Data, salt: nat, t: nat, prev: int, ghost a: seq<nat>, ghost b: seq<nat>)
      requires Valid() && index.free == a + [t] + b && prev == Before(a) && t < |tiles| && !Live(tiles, t)
      requires |data.links| > 0 && DataOk(bits, data.polys, data.cons) && 0 < salt < HashChains.Pow2(bits.salt)
      modifies `tiles, `pools, `index, `posLookup, `nextFree
      ensures Valid() && |tiles| == |old(tiles)| && Live(tiles, t)
      ensures old(NoDangling()) ==> NoDangling()
      ensures tiles[t].header == Some(data.header) && tiles[t].salt == salt && FromData(tiles[t], data)
      ensures |pools| == |tiles| && forall i | 0 <= i < |tiles[t].polys| ::
                PolyLinked(bits, tiles[t], pools[t], t, i, 0)
      ensures InnerLinks(bits, tiles[t], pools[t], t)
      ensures forall u | 0 <= u < |tiles| && u != t :: SameButNext(old(tiles)[u], tiles[u]) && pools[u] == old(pools)[u]
    {
      hide TilesOk, IndexOk, PoolOk, DataOk, PolyLinked, HashChains.Pow2, Sound, InnerLinks;
      IndexSize(tiles, posLookup, nextFree, index, NO_TILE);
      ghost var ts, ps := tiles, pools;
      var h := Hash(data.header.x, data.header.y, |posLookup|);
      var links := BuildFreeList(data.links);
      var blank := Tile(salt, Some(data.header), data.polys, links, 0, data.cons, posLookup[h]);
      ghost var pool;
      var tile;
      tile, pool := ConnectIntLinks(bits, blank, t);
      BuiltTile(bits, blank, tile, pool, t);
      UseTile(tiles, posLookup, nextFree, index, a, t, b, tile);
      Sizes(bits, tiles, pools);
      MovedTiles(bits, tiles, pools, prev, t, tile, pool);
      InstallSound(bits, tiles, pools, prev, t, tile, pool);
      index := Used(index, a, t, b, h);
      if prev == NULL_LINK {
        nextFree := tiles[t].next;
      } else {
        tiles := tiles[prev := tiles[prev].(next := tiles[t].next)];
      }
      posLookup := posLookup[h := t];
      tiles := tiles[t := tile];
      pools := pools[t := pool];
      assert tiles == Moved(ts, prev, t, tile);
    }

    /** `addTile`. */
    method AddTile(geo: Geometry, data: Data, lastRef: nat) returns (status: Status)
      requires Valid() && |data.links| > 0 && DataOk(bits, data.polys, data.cons)
      requires lastRef != 0 ==> DecodeSalt(bits, lastRef) > 0
      modifies `tiles, `pools, `index, `posLookup, `nextFree
      ensures Valid() && |tiles| == |old(tiles)|
      ensures old(NoDangling()) ==> NoDangling()
      ensures status.Occupied? <==> exists u :: Live(old(tiles), u) && old(tiles)[u].header == Some(data.header)
      ensures !status.Occupied? ==>
                (status.OutOfMemory? <==>
                 if lastRef == 0 then forall u: nat | u < |tiles| :: Live(old(tiles), u)
                 else !(DecodeTile(bits, lastRef) < |tiles| && !Live(old(tiles), DecodeTile(bits, lastRef))))
      ensures !status.Added? ==> tiles == old(tiles) && posLookup == old(posLookup) && nextFree == old(nextFree)
      ensures status.Added? ==> AddedTile(bits, old(tiles), old(pools), tiles, pools, data, lastRef, status.ref)
      ensures status.Added? ==> AllJoined(geo, bits, tiles, pools, DecodeTile(bits, status.ref), data.header.x,
                                          data.header.y, 8)
      ensures status.Added? ==> forall c | 0 <= c < |data.cons| ::
                StartLinked(geo, bits, tiles, pools, DecodeTile(bits, status.ref), c)
      ensures status.Added? ==> CellsLanded(geo, bits, old(tiles), tiles, pools, DecodeTile(bits, status.ref),
                                            data.header.x, data.header.y)
      ensures status.Added? ==>
                && JoinedAround(geo, bits, tiles, pools, DecodeTile(bits, status.ref))
                && LandedAround(geo, bits, old(tiles), tiles, pools, DecodeTile(bits, status.ref))
                && LinksMeant(geo, bits, old(tiles), old(pools), tiles, pools, DecodeTile(bits, status.ref))
    {
      hide Joined, Landed, CellsLanded, StartLinked, CellFits, TilesOk, IndexOk, PoolOk, DataOk, PolyLinked,
           HashChains.Pow2, Sound, Builds, DecodeTile, DecodeSalt, JoinedAround, LandedAround, LinksMeant, AllMeant,
           InnerLinks;
      ghost var ts, ps := tiles, pools;
      var there := GetTileAt(data.header.x, data.header.y, data.header.layer);
      if there >= 0 {
        return Occupied;
      }
      var t, prev;
      ghost var a, b;
      t, prev, a, b := AllocTile(lastRef);
      if t < 0 {
        return OutOfMemory;
      }
      var salt := if lastRef == 0 then tiles[t].salt else DecodeSalt(bits, lastRef);
      SaltInRange(bits, tiles, pools, t, lastRef);
      Install(data, salt, t, prev, a, b);
      ghost var ts1, ps1 := tiles, pools;
      BuildsNothing(bits, tiles, pools);
      BaseOffMeshLinks(geo, t);
      BuildsFacts(bits, ts1, ps1, tiles, pools, t);
      ghost var base, bs := tiles, pools;
      ghost var x, y := data.header.x, data.header.y;
      ConnectCell(geo, t, data.header.x, data.header.y, -1);
      var i := 0;
      while i < 8
        invariant 0 <= i <= 8 && Valid() && Builds(bits, base, bs, tiles, pools)
        invariant AllMeant(geo, bits, base, bs, tiles, pools)
        invariant AllJoined(geo, bits, tiles, pools, t, x, y, i)
        invariant AllLanded(geo, bits, base, tiles, pools, t, x, y, i)
      {
        BuildsFacts(bits, base, bs, tiles, pools, t);
        ghost var ts2, ps2 := tiles, pools;
        ConnectCell(geo, t, data.header.x + StepX(i), data.header.y + StepY(i), i);
        AllJoinedKept(geo, bits, ts2, ps2, tiles, pools, t, x, y, i);
        AllLandedKept(geo, bits, base, bs, ts2, ps2, tiles, pools, t, x, y, i);
        MeantOn(geo, bits, base, bs, ts2, ps2, tiles, pools);
        i := i + 1;
      }
      CellsLandedIs(geo, bits, ts, ts1, ps1, base, bs, tiles, pools, t, x, y);
      AllStartKept(geo, bits, base, bs, tiles, pools, t);
      MeantOn(geo, bits, ts1, ps1, base, bs, tiles, pools);
      BuildsFacts(bits, ts1, ps1, tiles, pools, t);
      BuildsSound(bits, ts1, ps1, tiles, pools);
      status := Status.Added(RefTo(bits, tiles, t, 0));
      AddedIs(bits, ts, ps, ts1, ps1, tiles, pools, data, lastRef, t);
      JoinedAroundIs(geo, bits, ts, tiles, pools, t);
      LinksMeantIs(geo, bits, ts, ps, ts1, ps1, tiles, pools, t);
    }

    /** The first part of `removeTile`: tile `t` comes out of the list of its hash value. */
    method RemoveFromHash(t: nat)
      requires Valid() && Live(tiles, t)
      modifies `tiles, `posLookup, `index
      ensures ValidBut(t) && |tiles| == |old(tiles)| && nextFree == old(nextFree) && Live(tiles, t)
      ensures forall u | 0 <= u < |tiles| :: SameButNext(old(tiles)[u], tiles[u])
      ensures old(NoDangling()) ==> Sound(bits, tiles, pools)
      ensures AllWithout(old(index), index, t)
    {
      hide TilesOk, IndexOk, Sound, Before, Hash;
      IndexSize(tiles, posLookup, nextFree, index, NO_TILE);
      var h := Hash(tiles[t].header.value.x, tiles[t].header.value.y, |posLookup|);
      ghost var c := index.buckets[h];
      ChainOf(tiles, posLookup, nextFree, index, h, NO_TILE);
      OnChain(tiles, posLookup, nextFree, index, t);
      hide LiveAt;
      var prev := NULL_LINK;
      var cur := posLookup[h];
      ghost var k: nat := 0;
      while cur != NULL_LINK && cur != t
        invariant k <= |c| && cur == (if k < |c| then c[k] else NULL_LINK)
        invariant prev == (if k == 0 then NULL_LINK else c[k - 1]) && forall m | 0 <= m < k :: c[m] != t
        modifies {}
        decreases |c| - k
      {
        LiveNext(tiles, c, k);
        prev := cur;
        cur := tiles[cur].next;
        k := k + 1;
      }
      LiveNext(tiles, c, k);
      if k > 0 {
        LiveNext(tiles, c, k - 1);
      }
      ghost var a, b := c[..k], c[k + 1..];
      SplitAt(c, k);
      ghost var tiles0, posLookup0 := tiles, posLookup;
      CutTile(tiles, posLookup, nextFree, index, h, a, t, b);
      CutSound(bits, tiles, pools, prev, t);
      if prev != NULL_LINK {
        tiles := tiles[prev := tiles[prev].(next := tiles[cur].next)];
      } else {
        posLookup := posLookup[h := tiles[cur].next];
      }
      ChainsCut(tiles0, posLookup0, nextFree, index, h, a, t, b);
      index := Loose(index, a, b, h);
    }

    /** `unconnectLinks` for one tile. */
    method UnconnectTile(u: nat, t: nat)
      requires ValidBut(t) && Live(tiles, t) && Live(tiles, u) && u != t
      modifies `tiles, `pools
      ensures ValidBut(t) && Sheds(bits, old(tiles), old(pools), tiles, pools, t)
      ensures |tiles| == |pools| == |old(tiles)| == |old(pools)| && NoneTo(bits, tiles[u], pools[u], t)
      ensures forall w | 0 <= w < |tiles| && w != u :: tiles[w] == old(tiles)[w] && pools[w] == old(pools)[w]
    {
      hide TilesOk, IndexOk, Sound, Sheds, NoneTo, Detached;
      ghost var ts, ps := tiles, pools;
      PoolOfTile(bits, tiles, pools, u);
      var b;
      ghost var q;
      b, q := UnconnectLinks(bits, tiles[u], pools[u], t);
      DetachKeeps(bits, tiles, pools, u, b, q, t);
      DetachSheds(bits, tiles, pools, u, b, q, t);
      tiles := tiles[u := b];
      pools := pools[u := q];
      FacesKeepIndex(ts, tiles, posLookup, nextFree, index, t);
    }

    /** `unconnectLinks` for the tiles of a cell. */
    method UnconnectCell(x: int, y: int, t: nat)
      requires ValidBut(t) && Live(tiles, t)
      modifies `tiles, `pools
      ensures ValidBut(t) && Sheds(bits, old(tiles), old(pools), tiles, pools, t)
      ensures |index.buckets| > 0 && |tiles| == |pools| == |old(tiles)| == |old(pools)|
      ensures CellCleared(bits, old(tiles), old(pools), tiles, pools, t,
                          FirstTiles(old(tiles), index.buckets[Hash(x, y, |index.buckets|)], x, y), x, y)
      ensures CellFits(old(tiles), x, y, t) ==> CellDone(bits, tiles, pools, t, x, y)
    {
      hide TilesOk, IndexOk, Sound, Sheds, NoneTo, FirstTiles, Hash, CellFits;
      ghost var ts, ps := tiles, pools;
      ShedsNothing(bits, tiles, pools, t);
      var neis := GetTilesAt(x, y, t);
      var j := 0;
      while j < |neis|
        invariant 0 <= j <= |neis| && ValidBut(t) && Sheds(bits, ts, ps, tiles, pools, t)
        invariant |tiles| == |pools| == |ts| == |ps|
        invariant forall k | 0 <= k < j :: NoneTo(bits, tiles[neis[k]], pools[neis[k]], t)
        invariant forall w: nat | w < |tiles| && w !in neis :: tiles[w] == ts[w] && pools[w] == ps[w]
      {
        assert InCell(ts, neis[j], x, y);
        ShedsFacts(bits, ts, ps, tiles, pools, t, neis[j]);
        ghost var ts1, ps1 := tiles, pools;
        UnconnectTile(neis[j], t);
        ShedsOn(bits, ts, ps, ts1, ps1, tiles, pools, t);
        forall k | 0 <= k < j ensures NoneTo(bits, tiles[neis[k]], pools[neis[k]], t) {
          assert InCell(ts, neis[k], x, y);
          ShedsFacts(bits, ts, ps, ts1, ps1, t, neis[k]);
        }
        j := j + 1;
      }
      CellClearedIs(bits, ts, ps, tiles, pools, t, neis, x, y);
      if CellFits(ts, x, y, t) {
        forall u | InCell(tiles, u, x, y) && u != t ensures NoneTo(bits, tiles[u], pools[u], t) {
          ShedsFacts(bits, ts, ps, tiles, pools, t, u);
          assert InCell(ts, u, x, y);
        }
      }
    }

    /** `unconnectLinks` for the tiles of the own and the eight cells around. */
    method UnconnectAround(t: nat)
      requires ValidBut(t) && Live(tiles, t)
      modifies `tiles, `pools
      ensures ValidBut(t) && Sheds(bits, old(tiles), old(pools), tiles, pools, t) && Live(tiles, t)
      ensures Cleared(bits, old(tiles), old(pools), tiles, pools, index, t, 8)
      ensures Sound(bits, tiles, pools) && CellsFit(old(tiles), t) ==>
                |pools| == |tiles| && forall u | Live(tiles, u) && u != t :: NoneTo(bits, tiles[u], pools[u], t)
    {
      hide TilesOk, IndexOk, Sound, Sheds, NoneTo, CellFits, CellDone, Cleared, CellCleared, FirstTiles, Hash;
      ghost var ts, ps := tiles, pools;
      var x, y := tiles[t].header.value.x, tiles[t].header.value.y;
      ShedsNothing(bits, tiles, pools, t);
      ClearedNothing(bits, tiles, pools, index, t);
      UnconnectCell(x, y, t);
      ShedsFacts(bits, ts, ps, tiles, pools, t, t);
      ClearedStep(bits, ts, ps, ts, ps, tiles, pools, posLookup, nextFree, index, t, -1);
      var i := 0;
      while i < 8
        invariant 0 <= i <= 8 && ValidBut(t) && Sheds(bits, ts, ps, tiles, pools, t) && Live(tiles, t)
        invariant Cleared(bits, ts, ps, tiles, pools, index, t, i)
        invariant CellsFit(ts, t) ==> CellDone(bits, tiles, pools, t, x, y)
        invariant CellsFit(ts, t) ==> forall k | 0 <= k < i ::
                    CellDone(bits, tiles, pools, t, x + StepX(k), y + StepY(k))
      {
        ghost var ts1, ps1 := tiles, pools;
        ShedsFacts(bits, ts, ps, tiles, pools, t, t);
        UnconnectCell(x + StepX(i), y + StepY(i), t);
        ClearedStep(bits, ts, ps, ts1, ps1, tiles, pools, posLookup, nextFree, index, t, i);
        CellsSame(ts, ts1, t, x + StepX(i), y + StepY(i));
        ShedsFacts(bits, ts1, ps1, tiles, pools, t, t);
        ShedsOn(bits, ts, ps, ts1, ps1, tiles, pools, t);
        if CellDone(bits, ts1, ps1, t, x, y) {
          DoneKept(bits, ts1, ps1, tiles, pools, t, x, y);
        }
        forall k | 0 <= k < i && CellDone(bits, ts1, ps1, t, x + StepX(k), y + StepY(k))
          ensures CellDone(bits, tiles, pools, t, x + StepX(k), y + StepY(k))
        {
          DoneKept(bits, ts1, ps1, tiles, pools, t, x + StepX(k), y + StepY(k));
        }
        i := i + 1;
      }
      ShedsFacts(bits, ts, ps, tiles, pools, t, t);
      if Sound(bits, tiles, pools) && CellsFit(ts, t) {
        AllDone(bits, tiles, pools, t, x, y);
      }
    }

    /** `removeTile`. Afterwards no link dangles exactly if no tile that was not looked at had a link to the one that
        is gone; there is no such tile as long as no cell around holds more other tiles than the mesh looks at. */
    method RemoveTile(ref: nat) returns (removal: Removal)
      requires Valid()
      modifies `tiles, `pools, `index, `posLookup, `nextFree
      ensures Valid() && |tiles| == |old(tiles)|
      ensures removal.Refused? <==> !Matches(bits, old(tiles), ref)
      ensures removal.NoHeader? <==> Matches(bits, old(tiles), ref) && !Live(old(tiles), DecodeTile(bits, ref))
      ensures !removal.Removed? ==> tiles == old(tiles) && pools == old(pools)
      ensures !removal.Removed? ==> posLookup == old(posLookup) && nextFree == old(nextFree)
      ensures removal.Removed? ==> RemovedTile(bits, old(tiles), old(pools), tiles, pools, DecodeTile(bits, ref))
      ensures removal.Removed? && old(NoDangling()) ==>
                (NoDangling() <==> NoneLeftOut(bits, old(tiles), old(pools), old(index), DecodeTile(bits, ref)))
      ensures removal.Removed? && old(NoDangling()) && CellsFit(old(tiles), DecodeTile(bits, ref)) ==> NoDangling()
    {
      hide TilesOk, IndexOk, Sound, Sheds, NoneTo, DecodeTile, DecodeSalt, CellFits, Cleared, CellsFit, NoneLeftOut;
      var t := DecodeTile(bits, ref);
      if ref == 0 || t >= |tiles| || tiles[t].salt != DecodeSalt(bits, ref) {
        return Refused;
      }
      if tiles[t].header.None? {
        return NoHeader;
      }
      ghost var ts0, ps0, index0 := tiles, pools, index;
      RemoveFromHash(t);
      ghost var ts, ps := tiles, pools;
      FitsAfterCut(ts0, ts, t);
      UnconnectAround(t);
      ShedsFacts(bits, ts, ps, tiles, pools, t, t);
      ghost var ts2, ps2 := tiles, pools;
      SaltInRange(bits, tiles, pools, t, 0);
      SaltAfterOk(bits, tiles[t].salt);
      var salt := (tiles[t].salt + 1) % HashChains.Pow2(bits.salt);
      if salt == 0 {
        salt := salt + 1;
      }
      var dead := Tile(salt, None, [], [], 0, [], nextFree);
      FreeTile(tiles, posLookup, nextFree, index, t, dead);
      DeadTile(bits, tiles, pools, t, dead);
      if Sound(bits, ts2, ps2) {
        DropSoundIff(bits, ts2, ps2, t, dead);
        LeftOutIff(bits, ts0, ts, ps, ts2, ps2, index0, index, t);
      }
      tiles := tiles[t := dead];
      pools := pools[t := NO_LINKS];
      nextFree := t;
      index := index.(free := [t] + index.free);
      RemovedIs(bits, ts0, ps0, ts, ts2, ps2, t, dead);
      removal := Removed;
    }

    /** `init`: all tiles are free, the first at the head of the list. The widths of the references come from
        `maxTiles` and `maxPolys`; they have to fit. */
    constructor (maxTiles: nat, maxPolys: nat)
      requires maxTiles > 0 && Log2Up(maxTiles) + Log2Up(maxPolys) <= 22
      ensures Valid() && NoDangling() && |tiles| == maxTiles && forall t: nat | t < maxTiles :: !Live(tiles, t)
      ensures maxPolys <= HashChains.Pow2(bits.poly) && maxTiles <= HashChains.Pow2(bits.tile)
      ensures forall t: nat | t < maxTiles ::
                BlankTile(tiles[t]) && tiles[t].next == if t + 1 < maxTiles then t + 1 else NULL_LINK
      ensures nextFree == 0
    {
      var tileBits, polyBits := Log2Up(maxTiles), Log2Up(maxPolys);
      bits := Bits(SaltBits(tileBits, polyBits), tileBits, polyBits);
      var lutSize := if maxTiles / 4 == 0 then 1 else HashChains.Pow2(Log2Up(maxTiles / 4));
      posLookup := seq(lutSize, i => NULL_LINK);
      tiles := seq(maxTiles, i => Tile(1, None, [], [], 0, [], NULL_LINK));
      nextFree := NULL_LINK;
      pools := seq(maxTiles, i => NO_LINKS);
      index := Index(UpTo(maxTiles), seq(lutSize, i => []));
      new;
      var i := maxTiles;
      while i > 0
        invariant 0 <= i <= maxTiles == |tiles| && nextFree == if i < maxTiles then i else NULL_LINK
        invariant forall k | 0 <= k < maxTiles :: BlankTile(tiles[k])
        invariant forall k | i <= k < maxTiles :: tiles[k].next == if k + 1 < maxTiles then k + 1 else NULL_LINK
        invariant posLookup == seq(lutSize, i => NULL_LINK) && pools == seq(maxTiles, i => NO_LINKS)
        invariant index == Index(UpTo(maxTiles), seq(lutSize, i => []))
      {
        i := i - 1;
        tiles := tiles[i := tiles[i].(next := nextFree)];
        nextFree := i;
      }
      InitBits(tileBits, polyBits);
      InitOk(bits, tiles, pools, posLookup, nextFree, index, maxTiles);
    }
  }
}
