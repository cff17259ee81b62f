/** A cell with more tiles than the mesh looks at: taking one of them out leaves a link that dangles. */
module NavMeshCrowd {
  import opened Basics
  import opened NavMeshIds
  import opened NavMeshLists
  import opened NavMeshLinks
  import opened NavMeshTiles
  import opened NavMeshIndex
  import opened NavMeshDetach
  import opened NavMesh
  import HashChains

  /** Two tiles more than `getTilesAt` returns. */
  const CROWD: nat := MAX_NEIS + 2

  const BITS := Bits(26, 6, 0)

  /** Tile `k` of the cell (0, 0), in layer `k`, with one polygon and one link. The tiles were added in this order, so
      each stands before the ones added earlier. The link of tile 0 leads to tile 1; the others have not used theirs. */
  function CrowdTile(k: nat): Tile {
    Tile(1, Some(Header(0, 0, k)), [Poly(false, [], if k == 0 then 0 else NULL_LINK)],
         [Link(if k == 0 then Encode(BITS, 1, 1, 0) else 0, NULL_LINK, 0, 0)], if k == 0 then NULL_LINK else 0, [],
         if k == 0 then NULL_LINK else k - 1)
  }

  function CrowdPool(k: nat): Pool {
    if k == 0 then Pool([], [[0]], [0]) else Pool([0], [[]], [-1])
  }

  function CrowdTiles(): (tiles: seq<Tile>)
    ensures |tiles| == CROWD && forall k | 0 <= k < CROWD :: tiles[k] == CrowdTile(k)
  {
    seq(CROWD, k requires 0 <= k < CROWD => CrowdTile(k))
  }

  function CrowdPools(): (pools: seq<Pool>)
    ensures |pools| == CROWD && forall k | 0 <= k < CROWD :: pools[k] == CrowdPool(k)
  {
    seq(CROWD, k requires 0 <= k < CROWD => CrowdPool(k))
  }

  /** The only chain: the tiles added last come first. */
  function CrowdChain(): (c: seq<nat>)
    ensures |c| == CROWD && forall k | 0 <= k < CROWD :: c[k] == CROWD - 1 - k
  {
    seq(CROWD, k requires 0 <= k < CROWD => CROWD - 1 - k)
  }

  const CROWD_INDEX := Index([], [CrowdChain()])

  lemma CrowdBits()
    ensures HashChains.Pow2(6) == 64 && HashChains.Pow2(0) == 1 && HashChains.Pow2(26) > 1
  {
    assert HashChains.Pow2(3) == 8;
    Pow2Grows(1, 26);
    assert HashChains.Pow2(1) == 2;
  }

  lemma CrowdPoolOk(k: nat)
    ensures PoolOk(CrowdTile(k), CrowdPool(k))
  {
    hide Encode;
    var tile, pool := CrowdTile(k), CrowdPool(k);
    assert Nexts(tile.links) == [NULL_LINK];
    forall i | -1 <= i < 1 ensures ListFrom(Nexts(tile.links), HeadOf(tile, i), ListOf(pool, i)) && Houses(pool, i) {
    }
    assert HomeOk(pool, 0);
  }

  lemma CrowdTilesOk()
    ensures TilesOk(BITS, CrowdTiles(), CrowdPools())
  {
    CrowdBits();
    hide HashChains.Pow2, PoolOk;
    forall k | 0 <= k < CROWD ensures TileOk(BITS, CrowdTiles()[k], CrowdPools()[k]) {
      CrowdPoolOk(k);
    }
  }

  lemma CrowdBucketOk()
    ensures BucketOk(CrowdTiles(), 1, 0, CROWD - 1, CrowdChain())
  {
    hide Encode, Hash;
    var tiles, c := CrowdTiles(), CrowdChain();
    forall k | 0 <= k < CROWD ensures LinkAt(TileNexts(tiles), c, k) && InBucket(tiles, c[k], 0, 1) {
      assert tiles[c[k]] == CrowdTile(c[k]);
    }
  }

  lemma LiveThere(t: nat)
    requires t < CROWD
    ensures InCell(CrowdTiles(), t, 0, 0)
  {
  }

  lemma CrowdIndexOk()
    ensures IndexOk(CrowdTiles(), [CROWD - 1], NULL_LINK, CROWD_INDEX, NO_TILE)
  {
    CrowdBucketOk();
    hide Hash, BucketOk, CrowdTile;
    var tiles, c := CrowdTiles(), CrowdChain();
    forall t | 0 <= t < CROWD ensures Listed(tiles, CROWD_INDEX, t) {
      assert c[CROWD - 1 - t] == t;
      LiveThere(t);
    }
  }

  lemma CrowdSound()
    requires TilesOk(BITS, CrowdTiles(), CrowdPools())
    ensures Sound(BITS, CrowdTiles(), CrowdPools())
  {
    CrowdBits();
    DecodeEncode(BITS, 1, 1, 0);
    hide HashChains.Pow2, Encode, DecodeTile, DecodeSalt, DecodePoly, TilesOk, PoolOk;
    var tiles, pools := CrowdTiles(), CrowdPools();
    assert RefOk(BITS, tiles, 0, Encode(BITS, 1, 1, 0));
    forall k | 0 <= k < CROWD ensures |pools[k].home| == |tiles[k].links| && LinksOk(BITS, tiles, pools, k) {
      assert tiles[k] == CrowdTile(k) && pools[k] == CrowdPool(k);
    }
  }

  lemma {:induction false} AllInCell(tiles: seq<Tile>, c: seq<nat>, n: nat)
    requires n <= |c| && forall k | 0 <= k < |c| :: InCell(tiles, c[k], 0, 0)
    ensures CellTiles(tiles, c, n, 0, 0) == c[..n]
  {
    if n > 0 {
      AllInCell(tiles, c, n - 1);
      assert c[..n] == c[..n - 1] + [c[n - 1]];
    }
  }

  lemma {:induction false} InCellAll(tiles: seq<Tile>, c: seq<nat>, n: nat, x: int, y: int)
    requires n <= |c|
    ensures forall u | u in CellTiles(tiles, c, n, x, y) :: InCell(tiles, u, x, y)
  {
    if n > 0 {
      InCellAll(tiles, c, n - 1, x, y);
    }
  }

  lemma InCellOnly(tiles: seq<Tile>, c: seq<nat>, x: int, y: int, u: nat)
    requires u in FirstTiles(tiles, c, x, y)
    ensures InCell(tiles, u, x, y)
  {
    InCellAll(tiles, c, |c|, x, y);
  }

  lemma OnlyCell(x: int, y: int, u: nat)
    requires u < CROWD && InCell(CrowdTiles(), u, x, y)
    ensures x == 0 && y == 0
  {
  }

  lemma FirstOfCrowd(a: seq<nat>, b: seq<nat>)
    requires |a| == MAX_NEIS && forall k | 0 <= k < |a + b| :: (a + b)[k] < CROWD
    ensures FirstTiles(CrowdTiles(), a + b, 0, 0) == a
  {
    var tiles, d := CrowdTiles(), a + b;
    hide InCell;
    forall k | 0 <= k < |d| ensures InCell(tiles, d[k], 0, 0) {
      LiveThere(d[k]);
    }
    AllInCell(tiles, d, |d|);
    hide CellTiles;
    assert d[..|d|] == d && d[..MAX_NEIS] == a;
  }

  /** When tile 1 goes, all the others but tile 0 are looked at. */
  lemma ZeroIsLeftOut()
    ensures !LooksAround(CrowdTiles(), CROWD_INDEX, 1, 8, 0)
  {
    hide Hash, CrowdTile, FirstTiles, InCell, Without;
    var tiles, c := CrowdTiles(), CrowdChain();
    var a, b := c[..MAX_NEIS], [0];
    assert c == a + [1] + b;
    WithoutOne(a, 1, b);
    forall x, y ensures !LooksAt(tiles, CROWD_INDEX, 1, x, y, 0) {
      if LooksAt(tiles, CROWD_INDEX, 1, x, y, 0) {
        InCellOnly(tiles, a + b, x, y, 0);
        OnlyCell(x, y, 0);
        FirstOfCrowd(a, b);
      }
    }
  }

  /** A mesh in order, without dangling links, from which tile 1 cannot be removed without leaving one. */
  lemma CrowdDangles()
    ensures Fits(BITS) && TilesOk(BITS, CrowdTiles(), CrowdPools())
    ensures IndexOk(CrowdTiles(), [CROWD - 1], NULL_LINK, CROWD_INDEX, NO_TILE)
    ensures Sound(BITS, CrowdTiles(), CrowdPools()) && Live(CrowdTiles(), 1)
    ensures !NoneLeftOut(BITS, CrowdTiles(), CrowdPools(), CROWD_INDEX, 1)
  {
    CrowdTilesOk();
    CrowdIndexOk();
    CrowdSound();
    ZeroIsLeftOut();
    CrowdBits();
    DecodeEncode(BITS, 1, 1, 0);
    hide HashChains.Pow2, Encode, DecodeTile, LooksAround, TilesOk, IndexOk, Sound;
    var tiles, pools := CrowdTiles(), CrowdPools();
    assert Hits(BITS, tiles[0], pools[0], 0, 1);
    assert Live(tiles, 0) && !NoneTo(BITS, tiles[0], pools[0], 1);
  }
}
