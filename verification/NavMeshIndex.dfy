/** Which tiles are where: the free list and the position hash chains, which share the tiles' `next` field. */
module NavMeshIndex {
  import opened Basics
  import opened NavMeshLists
  import opened NavMeshLinks
  import opened NavMeshTiles
  import HashChains

  /** `computeTileHash`: the product wraps at 32 bits; the table size is a power of two, so masking is the
      remainder. */
  function Hash(x: int, y: int, size: nat): (h: nat)
    requires size > 0
    ensures h < size
  {
    (0x8da6b343 * x + 0xd8163841 * y) % 0x1_0000_0000 % size
  }

  function TileNexts(tiles: seq<Tile>): (next: seq<int>)
    ensures |next| == |tiles| && forall t | 0 <= t < |tiles| :: next[t] == tiles[t].next
  {
    seq(|tiles|, t requires 0 <= t < |tiles| => tiles[t].next)
  }

  /** The free tiles, and the live tiles of each hash value, in list order. */
  datatype Index = Index(free: seq<nat>, buckets: seq<seq<nat>>)

  predicate InBucket(tiles: seq<Tile>, t: int, h: nat, size: nat)
    requires size > 0
  {
    Live(tiles, t) && Hash(tiles[t].header.value.x, tiles[t].header.value.y, size) == h
  }

  ghost predicate BucketOk(tiles: seq<Tile>, size: nat, h: nat, first: int, c: seq<nat>)
    requires size > 0
  {
    && ListFrom(TileNexts(tiles), first, c) && Distinct(c)
    && (forall k | 0 <= k < |c| :: InBucket(tiles, c[k], h, size))
  }

  ghost predicate FreeOk(tiles: seq<Tile>, first: int, c: seq<nat>) {
    && ListFrom(TileNexts(tiles), first, c) && Distinct(c)
    && (forall k | 0 <= k < |c| :: c[k] < |tiles| && !Live(tiles, c[k]))
  }

  ghost predicate Listed(tiles: seq<Tile>, index: Index, t: nat)
    requires t < |tiles| && |index.buckets| > 0
  {
    if Live(tiles, t)
    then t in index.buckets[Hash(tiles[t].header.value.x, tiles[t].header.value.y, |index.buckets|)]
    else t in index.free
  }

  const NO_TILE: int := -1

  ghost predicate Unlisted(c: seq<nat>, loose: int) {
    forall k | 0 <= k < |c| :: c[k] != loose
  }

  /** Every tile is in exactly one list, the free one or the one of its hash value; but `loose`, while it is
      taken from one to the other, is in none. */
  ghost predicate IndexOk(tiles: seq<Tile>, posLookup: seq<int>, nextFree: int, index: Index, loose: int) {
    && |index.buckets| == |posLookup| > 0
    && FreeOk(tiles, nextFree, index.free) && Unlisted(index.free, loose)
    && (forall h | 0 <= h < |posLookup| ::
          BucketOk(tiles, |posLookup|, h, posLookup[h], index.buckets[h]) && Unlisted(index.buckets[h], loose))
    && (forall t | 0 <= t < |tiles| && t != loose :: Listed(tiles, index, t))
  }

  lemma FacesKeepIndex(tiles: seq<Tile>, tiles1: seq<Tile>, posLookup: seq<int>, nextFree: int, index: Index,
                       loose: int)
    requires IndexOk(tiles, posLookup, nextFree, index, loose) && SameFaces(tiles, tiles1)
    ensures IndexOk(tiles1, posLookup, nextFree, index, loose)
  {
    assert forall t | 0 <= t < |tiles| :: SameFace(tiles[t], tiles1[t]);
    assert TileNexts(tiles1) == TileNexts(tiles);
    forall h | 0 <= h < |posLookup| ensures BucketOk(tiles1, |posLookup|, h, posLookup[h], index.buckets[h]) {
      assert BucketOk(tiles, |posLookup|, h, posLookup[h], index.buckets[h]);
      forall k | 0 <= k < |index.buckets[h]| ensures InBucket(tiles1, index.buckets[h][k], h, |posLookup|) {
        assert InBucket(tiles, index.buckets[h][k], h, |posLookup|);
      }
    }
    forall t | 0 <= t < |tiles1| && t != loose ensures Listed(tiles1, index, t) {
      assert Listed(tiles, index, t);
    }
  }

  // ---------------------------------------------------------------- moving a tile between the lists

  /** Tile `t` comes out of the list in which it follows `prev`, and becomes `tile`. */
  function Moved(tiles: seq<Tile>, prev: int, t: nat, tile: Tile): seq<Tile>
    requires t < |tiles| && -1 <= prev < |tiles|
  {
    (if prev == NULL_LINK then tiles else tiles[prev := tiles[prev].(next := tiles[t].next)])[t := tile]
  }

  function Before(a: seq<nat>): int {
    if a == [] then NULL_LINK else a[|a| - 1]
  }

  lemma SplitAt(c: seq<nat>, k: nat)
    requires k < |c|
    ensures c == c[..k] + [c[k]] + c[k + 1..] && Before(c[..k]) == if k == 0 then NULL_LINK else c[k - 1]
  {
  }

  /** The nexts of the list that loses `t`, of the one that gains it, and of the others. */
  lemma MovedLists(tiles: seq<Tile>, a: seq<nat>, t: nat, b: seq<nat>, first: int, tile: Tile)
    requires ListFrom(TileNexts(tiles), first, a + [t] + b) && Distinct(a + [t] + b)
    ensures t < |tiles| && -1 <= Before(a) < |tiles| && Before(a) != t
    ensures var tiles1 := Moved(tiles, Before(a), t, tile);
            ListFrom(TileNexts(tiles1), if a == [] then tiles[t].next else first, a + b)
  {
    var c := a + [t] + b;
    assert LinkAt(TileNexts(tiles), c, |a|) && c[|a|] == t;
    forall k | 0 <= k < |a| ensures a[k] < |tiles| && a[k] != t {
      assert c[k] == a[k] && LinkAt(TileNexts(tiles), c, k);
    }
    forall k, k0 | 0 <= k < k0 < |a| ensures a[k] != a[k0] {
      assert c[k] == a[k] && c[k0] == a[k0];
    }
    forall k | 0 <= k < |b| ensures b[k] < |tiles| && b[k] != t {
      assert c[|a| + 1 + k] == b[k] && LinkAt(TileNexts(tiles), c, |a| + 1 + k);
    }
    forall k, k0 | 0 <= k < |b| && 0 <= k0 < |a| ensures b[k] != a[k0] {
      assert c[|a| + 1 + k] == b[k] && c[k0] == a[k0];
    }
    CutOk(TileNexts(tiles), TileNexts(Moved(tiles, Before(a), t, tile)), first,
          if a == [] then tiles[t].next else first, a, t, b);
  }

  /** Lists that do not hold `t` or the tile before it are untouched. */
  lemma MovedElsewhere(tiles: seq<Tile>, prev: int, t: nat, tile: Tile, first: int, c: seq<nat>)
    requires t < |tiles| && -1 <= prev < |tiles|
    requires ListFrom(TileNexts(tiles), first, c) && forall k | 0 <= k < |c| :: c[k] != t && c[k] != prev
    ensures ListFrom(TileNexts(Moved(tiles, prev, t, tile)), first, c)
  {
    ListKept(TileNexts(tiles), TileNexts(Moved(tiles, prev, t, tile)), first, c);
  }

  lemma CutDistinct(a: seq<nat>, t: nat, b: seq<nat>)
    requires Distinct(a + [t] + b)
    ensures Distinct(a + b) && t !in a + b
    ensures forall x :: x in a + [t] + b <==> x == t || x in a + b
  {
    var c, d := a + [t] + b, a + b;
    assert c[|a|] == t;
    forall k | 0 <= k < |d| ensures d[k] == c[if k < |a| then k else k + 1] && d[k] != t {
    }
    forall j, k | 0 <= j < k < |d| ensures d[j] != d[k] {
      assert d[j] == c[if j < |a| then j else j + 1] && d[k] == c[if k < |a| then k else k + 1];
    }
    forall x | x in a + [t] + b ensures x == t || x in a + b {
      assert x in a || x == t || x in b;
    }
  }

  lemma FrontDistinct(t: nat, c: seq<nat>)
    requires Distinct(c) && t !in c
    ensures Distinct([t] + c)
  {
    var d := [t] + c;
    forall j, k | 0 <= j < k < |d| ensures d[j] != d[k] {
      assert d[k] == c[k - 1];
    }
  }

  /** The index once a free tile is in use. */
  function Used(index: Index, a: seq<nat>, t: nat, b: seq<nat>, h: nat): Index
    requires h < |index.buckets|
  {
    Index(a + b, index.buckets[h := [t] + index.buckets[h]])
  }

  lemma UseTile(tiles: seq<Tile>, posLookup: seq<int>, nextFree: int, index: Index, a: seq<nat>, t: nat, b: seq<nat>,
                tile: Tile)
    requires IndexOk(tiles, posLookup, nextFree, index, NO_TILE) && index.free == a + [t] + b
    requires tile.header.Some?
    requires tile.next == posLookup[Hash(tile.header.value.x, tile.header.value.y, |posLookup|)]
    ensures t < |tiles| && -1 <= Before(a) < |tiles| && !Live(tiles, t) && Before(a) != t
    ensures var h := Hash(tile.header.value.x, tile.header.value.y, |posLookup|);
            IndexOk(Moved(tiles, Before(a), t, tile), posLookup[h := t],
                    if a == [] then tiles[t].next else nextFree, Used(index, a, t, b, h), NO_TILE)
  {
    var h := Hash(tile.header.value.x, tile.header.value.y, |posLookup|);
    MovedLists(tiles, a, t, b, nextFree, tile);
    CutDistinct(a, t, b);
    assert (a + [t] + b)[|a|] == t;
    assert a != [] ==> (a + [t] + b)[|a| - 1] == Before(a);
    var tiles1, index1 := Moved(tiles, Before(a), t, tile), Used(index, a, t, b, h);
    assert FreeOk(tiles1, if a == [] then tiles[t].next else nextFree, a + b) by {
      forall k | 0 <= k < |a + b| ensures (a + b)[k] < |tiles1| && !Live(tiles1, (a + b)[k]) {
        assert (a + b)[k] == (a + [t] + b)[if k < |a| then k else k + 1];
        assert (a + b)[k] in a + b;
      }
    }
    forall g | 0 <= g < |posLookup|
      ensures BucketOk(tiles1, |posLookup|, g, posLookup[h := t][g], index1.buckets[g])
    {
      var c := index.buckets[g];
      assert BucketOk(tiles, |posLookup|, g, posLookup[g], c);
      assert forall k | 0 <= k < |c| :: InBucket(tiles, c[k], g, |posLookup|);
      MovedElsewhere(tiles, Before(a), t, tile, posLookup[g], c);
      if g == h {
        ConsOf(TileNexts(tiles1), posLookup[g], c, t);
        FrontDistinct(t, c);
        forall k | 0 <= k < |c| + 1 ensures InBucket(tiles1, ([t] + c)[k], g, |posLookup|) {
        }
      } else {
        forall k | 0 <= k < |c| ensures InBucket(tiles1, c[k], g, |posLookup|) {
        }
      }
    }
    forall u | 0 <= u < |tiles1| ensures Listed(tiles1, index1, u) {
      assert Listed(tiles, index, u);
    }
  }

  /** Tile `t` comes out of the list in which it follows `prev`. */
  function Cut(tiles: seq<Tile>, prev: int, t: nat): seq<Tile>
    requires t < |tiles| && -1 <= prev < |tiles|
  {
    if prev == NULL_LINK then tiles else tiles[prev := tiles[prev].(next := tiles[t].next)]
  }

  /** The index while a tile is loose. */
  function Loose(index: Index, a: seq<nat>, b: seq<nat>, h: nat): Index
    requires h < |index.buckets|
  {
    index.(buckets := index.buckets[h := a + b])
  }

  lemma CutTile(tiles: seq<Tile>, posLookup: seq<int>, nextFree: int, index: Index, h: nat, a: seq<nat>, t: nat,
                b: seq<nat>)
    requires IndexOk(tiles, posLookup, nextFree, index, NO_TILE) && h < |posLookup| && index.buckets[h] == a + [t] + b
    ensures t < |tiles| && -1 <= Before(a) < |tiles| && InBucket(tiles, t, h, |posLookup|) && Before(a) != t
    ensures IndexOk(Cut(tiles, Before(a), t), if a == [] then posLookup[h := tiles[t].next] else posLookup,
                    nextFree, Loose(index, a, b, h), t)
  {
    assert BucketOk(tiles, |posLookup|, h, posLookup[h], a + [t] + b);
    assert (a + [t] + b)[|a|] == t && InBucket(tiles, (a + [t] + b)[|a|], h, |posLookup|);
    MovedLists(tiles, a, t, b, posLookup[h], tiles[t]);
    CutDistinct(a, t, b);
    if a != [] {
      assert (a + [t] + b)[|a| - 1] == Before(a) && InBucket(tiles, (a + [t] + b)[|a| - 1], h, |posLookup|);
    }
    var tiles1, index1 := Cut(tiles, Before(a), t), Loose(index, a, b, h);
    assert tiles1 == Moved(tiles, Before(a), t, tiles[t]);
    var posLookup1 := if a == [] then posLookup[h := tiles[t].next] else posLookup;
    assert FreeOk(tiles1, nextFree, index1.free) && Unlisted(index1.free, t) by {
      MovedElsewhere(tiles, Before(a), t, tiles[t], nextFree, index.free);
    }
    forall g | 0 <= g < |posLookup|
      ensures BucketOk(tiles1, |posLookup|, g, posLookup1[g], index1.buckets[g]) && Unlisted(index1.buckets[g], t)
    {
      var c := index.buckets[g];
      assert BucketOk(tiles, |posLookup|, g, posLookup[g], c);
      assert forall k | 0 <= k < |c| :: InBucket(tiles, c[k], g, |posLookup|);
      if g == h {
        forall k | 0 <= k < |a + b| ensures InBucket(tiles1, (a + b)[k], g, |posLookup|) && (a + b)[k] != t {
          assert (a + b)[k] == c[if k < |a| then k else k + 1] && (a + b)[k] in a + b;
        }
      } else {
        MovedElsewhere(tiles, Before(a), t, tiles[t], posLookup[g], c);
        forall k | 0 <= k < |c| ensures InBucket(tiles1, c[k], g, |posLookup|) {
        }
      }
    }
    forall u | 0 <= u < |tiles1| && u != t ensures Listed(tiles1, index1, u) {
      assert Listed(tiles, index, u);
    }
  }

  /** The loose tile becomes free. */
  lemma FreeTile(tiles: seq<Tile>, posLookup: seq<int>, nextFree: int, index: Index, t: nat, tile: Tile)
    requires IndexOk(tiles, posLookup, nextFree, index, t) && t < |tiles|
    requires tile.header.None? && tile.next == nextFree
    ensures IndexOk(tiles[t := tile], posLookup, t, index.(free := [t] + index.free), NO_TILE)
  {
    var tiles1, index1 := tiles[t := tile], index.(free := [t] + index.free);
    assert tiles1 == Moved(tiles, NULL_LINK, t, tile);
    assert FreeOk(tiles1, t, index1.free) by {
      MovedElsewhere(tiles, NULL_LINK, t, tile, nextFree, index.free);
      ConsOf(TileNexts(tiles1), nextFree, index.free, t);
      FrontDistinct(t, index.free);
      forall k | 0 <= k < |index1.free| ensures index1.free[k] < |tiles1| && !Live(tiles1, index1.free[k]) {
      }
    }
    forall g | 0 <= g < |posLookup| ensures BucketOk(tiles1, |posLookup|, g, posLookup[g], index1.buckets[g]) {
      var c := index.buckets[g];
      assert BucketOk(tiles, |posLookup|, g, posLookup[g], c) && Unlisted(c, t);
      MovedElsewhere(tiles, NULL_LINK, t, tile, posLookup[g], c);
      forall k | 0 <= k < |c| ensures InBucket(tiles1, c[k], g, |posLookup|) {
        assert InBucket(tiles, c[k], g, |posLookup|);
      }
    }
    forall u | 0 <= u < |tiles1| ensures Listed(tiles1, index1, u) {
      if u != t {
        assert Listed(tiles, index, u);
      }
    }
  }

  // ---------------------------------------------------------------- the tiles of a cell

  predicate InCell(tiles: seq<Tile>, t: int, x: int, y: int) {
    Live(tiles, t) && tiles[t].header.value.x == x && tiles[t].header.value.y == y
  }

  /** The tiles of a chain that lie in a cell. */
  function CellTiles(tiles: seq<Tile>, c: seq<nat>, n: nat, x: int, y: int): seq<nat>
    requires n <= |c|
  {
    if n == 0 then []
    else CellTiles(tiles, c, n - 1, x, y) + (if InCell(tiles, c[n - 1], x, y) then [c[n - 1]] else [])
  }

  ghost function CellSet(tiles: seq<Tile>, x: int, y: int): set<nat> {
    set t: nat | t < |tiles| && InCell(tiles, t, x, y)
  }

  /** MAX_NEIS: as many tiles of a cell as the mesh looks at. */
  const MAX_NEIS: nat := 32

  /** No more tiles in the cell than that, not counting the loose one. */
  ghost predicate CellFits(tiles: seq<Tile>, x: int, y: int, loose: int) {
    |CellSet(tiles, x, y) - {loose}| <= MAX_NEIS
  }

  function Elems(c: seq<nat>): (e: set<nat>)
    ensures forall t :: t in e <==> t in c
  {
    if c == [] then {}
    else
      assert c == c[..|c| - 1] + [c[|c| - 1]];
      Elems(c[..|c| - 1]) + {c[|c| - 1]}
  }

  lemma {:induction false} SizeOf(c: seq<nat>)
    requires Distinct(c)
    ensures |Elems(c)| == |c|
  {
    if c != [] {
      var n := |c| - 1;
      SizeOf(c[..n]);
      assert c[n] !in c[..n];
    }
  }

  /** The tiles of a cell on the chain of its hash value, and how many they can be. */
  lemma {:induction false} CellTilesAre(tiles: seq<Tile>, c: seq<nat>, n: nat, x: int, y: int)
    requires n <= |c| && Distinct(c)
    ensures forall t :: t in CellTiles(tiles, c, n, x, y) <==> t in c[..n] && InCell(tiles, t, x, y)
    ensures Distinct(CellTiles(tiles, c, n, x, y))
  {
    if n > 0 {
      CellTilesAre(tiles, c, n - 1, x, y);
      assert c[..n] == c[..n - 1] + [c[n - 1]];
      var list := CellTiles(tiles, c, n - 1, x, y);
      forall k | 0 <= k < |list| ensures list[k] != c[n - 1] {
        assert list[k] in list;
      }
    }
  }

  lemma CellTilesFit(tiles: seq<Tile>, c: seq<nat>, x: int, y: int, loose: int)
    requires Distinct(c) && Unlisted(c, loose)
    ensures |CellTiles(tiles, c, |c|, x, y)| <= |CellSet(tiles, x, y) - {loose}|
  {
    var list := CellTiles(tiles, c, |c|, x, y);
    CellTilesAre(tiles, c, |c|, x, y);
    SizeOf(list);
    assert c[..|c|] == c;
    assert forall t | t in Elems(list) :: t in c && t != loose;
    HashChains.Inside(Elems(list), CellSet(tiles, x, y) - {loose});
  }

  /** The chain of a cell's hash value holds all its tiles. */
  lemma CellTilesAll(tiles: seq<Tile>, posLookup: seq<int>, nextFree: int, index: Index, x: int, y: int, loose: int)
    requires IndexOk(tiles, posLookup, nextFree, index, loose)
    ensures var c := index.buckets[Hash(x, y, |posLookup|)];
            && Distinct(c) && Unlisted(c, loose)
            && forall t :: t in CellTiles(tiles, c, |c|, x, y) <==> InCell(tiles, t, x, y) && t != loose
  {
    var h := Hash(x, y, |posLookup|);
    var c := index.buckets[h];
    assert BucketOk(tiles, |posLookup|, h, posLookup[h], c);
    CellTilesAre(tiles, c, |c|, x, y);
    assert c[..|c|] == c;
    forall t | InCell(tiles, t, x, y) && t != loose ensures t in c {
      assert Listed(tiles, index, t);
    }
  }

  /** As many as fit into the array of neighbours. */
  function FirstFew(all: seq<nat>): (few: seq<nat>)
    ensures |few| <= MAX_NEIS && forall k | 0 <= k < |few| :: few[k] in all
    ensures |all| <= MAX_NEIS ==> few == all
  {
    if |all| <= MAX_NEIS then all else all[..MAX_NEIS]
  }

  lemma OneMoreFew(tiles: seq<Tile>, c: seq<nat>, k: nat, x: int, y: int)
    requires k < |c|
    ensures var few := FirstFew(CellTiles(tiles, c, k, x, y));
            FirstFew(CellTiles(tiles, c, k + 1, x, y))
            == if InCell(tiles, c[k], x, y) && |few| < MAX_NEIS then few + [c[k]] else few
  {
  }

  /** What `getTilesAt` finds on the chain of a cell's hash value. */
  function FirstTiles(tiles: seq<Tile>, c: seq<nat>, x: int, y: int): seq<nat> {
    FirstFew(CellTiles(tiles, c, |c|, x, y))
  }

  lemma FirstTilesAre(tiles: seq<Tile>, posLookup: seq<int>, nextFree: int, index: Index, x: int, y: int, loose: int)
    requires IndexOk(tiles, posLookup, nextFree, index, loose)
    ensures var list := FirstTiles(tiles, index.buckets[Hash(x, y, |posLookup|)], x, y);
            && (forall k | 0 <= k < |list| :: InCell(tiles, list[k], x, y) && list[k] != loose)
            && (CellFits(tiles, x, y, loose) ==> forall t | InCell(tiles, t, x, y) && t != loose :: t in list)
  {
    hide FirstFew, CellTiles, InCell, Hash;
    CellTilesAll(tiles, posLookup, nextFree, index, x, y, loose);
    CellTilesFit(tiles, index.buckets[Hash(x, y, |posLookup|)], x, y, loose);
  }

  lemma {:induction false} CellTilesSame(ts: seq<Tile>, tiles: seq<Tile>, c: seq<nat>, n: nat, x: int, y: int)
    requires n <= |c| && |ts| == |tiles| && forall t | 0 <= t < |ts| :: ts[t].header == tiles[t].header
    ensures CellTiles(ts, c, n, x, y) == CellTiles(tiles, c, n, x, y)
  {
    if n > 0 {
      CellTilesSame(ts, tiles, c, n - 1, x, y);
    }
  }

  lemma FirstTilesSame(ts: seq<Tile>, tiles: seq<Tile>, c: seq<nat>, x: int, y: int)
    requires |ts| == |tiles| && forall t | 0 <= t < |ts| :: ts[t].header == tiles[t].header
    ensures FirstTiles(ts, c, x, y) == FirstTiles(tiles, c, x, y)
  {
    CellTilesSame(ts, tiles, c, |c|, x, y);
  }

  /** A chain without tile `t`. */
  function Without(c: seq<nat>, t: nat): seq<nat> {
    if c == [] then [] else (if c[0] == t then [] else [c[0]]) + Without(c[1..], t)
  }

  lemma {:induction false} WithoutNone(c: seq<nat>, t: nat)
    requires t !in c
    ensures Without(c, t) == c
  {
    if c != [] {
      WithoutNone(c[1..], t);
      assert c == [c[0]] + c[1..];
    }
  }

  lemma {:induction false} WithoutOne(a: seq<nat>, t: nat, b: seq<nat>)
    requires t !in a && t !in b
    ensures Without(a + [t] + b, t) == a + b
  {
    var c := a + [t] + b;
    if a == [] {
      assert c[1..] == b && a + b == b;
      WithoutNone(b, t);
    } else {
      assert c[1..] == a[1..] + [t] + b;
      WithoutOne(a[1..], t, b);
      assert a + b == [a[0]] + (a[1..] + b);
    }
  }

  lemma {:induction false} WithoutTwice(c: seq<nat>, t: nat)
    ensures t !in Without(c, t) && Without(Without(c, t), t) == Without(c, t)
  {
    if c != [] {
      WithoutTwice(c[1..], t);
    }
    WithoutNone(Without(c, t), t);
  }
}
