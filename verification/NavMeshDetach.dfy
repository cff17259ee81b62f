/** Taking the links to one tile out of another. */
module NavMeshDetach {
  import opened NavMeshIds
  import opened NavMeshLists
  import opened NavMeshLinks
  import opened NavMeshTiles

  /** Whether link `l` is in use and leads to tile `num`. */
  predicate Hits(bits: Bits, tile: Tile, pool: Pool, l: nat, num: nat)
    requires l < |tile.links| == |pool.home|
  {
    pool.home[l] >= 0 && DecodeTile(bits, tile.links[l].ref) == num
  }

  /** Link `l` of `b` is that of `a`, except that it is free if it led to `num` and is `done`. */
  ghost predicate LinkFreed(bits: Bits, a: Tile, p: Pool, b: Tile, q: Pool, num: nat, l: nat, done: bool)
    requires l < |a.links| == |p.home| == |b.links| == |q.home|
  {
    && SameLink(a.links[l], b.links[l])
    && q.home[l] == if Hits(bits, a, p, l, num) && done then -1 else p.home[l]
  }

  predicate IsDone(p: Pool, l: nat, i: nat, rest: seq<nat>)
    requires l < |p.home|
  {
    p.home[l] < i || (p.home[l] == i && l !in rest)
  }

  /** Polygons before `i` are done; of polygon `i`, all but the links in `rest`. */
  ghost predicate Removing(bits: Bits, a: Tile, p: Pool, b: Tile, q: Pool, num: nat, i: nat, rest: seq<nat>) {
    && SameData(a, b) && SameFace(a, b) && a.next == b.next && |a.links| == |p.home| == |q.home|
    && PoolOk(b, q)
    && forall l | 0 <= l < |a.links| ::
         LinkFreed(bits, a, p, b, q, num, l, IsDone(p, l, i, rest))
  }

  /** Exactly the links to `num` are free now. */
  ghost predicate Detached(bits: Bits, a: Tile, p: Pool, b: Tile, q: Pool, num: nat) {
    && SameData(a, b) && SameFace(a, b) && a.next == b.next && |a.links| == |p.home| == |q.home|
    && PoolOk(b, q)
    && forall l | 0 <= l < |a.links| :: LinkFreed(bits, a, p, b, q, num, l, true)
  }

  lemma RemovingStarts(bits: Bits, a: Tile, p: Pool, num: nat)
    requires PoolOk(a, p)
    ensures Removing(bits, a, p, a, p, num, 0, if |p.lists| > 0 then p.lists[0] else [])
  {
    PoolSize(a, p);
    var rest := if |p.lists| > 0 then p.lists[0] else [];
    forall l | 0 <= l < |a.links| ensures LinkFreed(bits, a, p, a, p, num, l, IsDone(p, l, 0, rest)) {
      assert HomeOk(p, l);
    }
  }

  /** From one polygon to the next. */
  lemma RemovingNext(bits: Bits, a: Tile, p: Pool, b: Tile, q: Pool, num: nat, i: nat)
    requires Removing(bits, a, p, b, q, num, i, []) && PoolOk(a, p)
    ensures |p.lists| == |a.polys| == |b.polys| == |q.lists|
    ensures Removing(bits, a, p, b, q, num, i + 1, if i + 1 < |q.lists| then q.lists[i + 1] else [])
  {
    PoolSize(b, q);
    PoolSize(a, p);
    var n := i + 1;
    var rest := if n < |q.lists| then q.lists[n] else [];
    forall l | 0 <= l < |a.links| ensures LinkFreed(bits, a, p, b, q, num, l, IsDone(p, l, n, rest)) {
      assert LinkFreed(bits, a, p, b, q, num, l, IsDone(p, l, i, []));
      assert HomeOk(p, l) && HomeOk(q, l);
    }
  }

  lemma RemovingEnds(bits: Bits, a: Tile, p: Pool, b: Tile, q: Pool, num: nat, i: nat)
    requires Removing(bits, a, p, b, q, num, i, []) && PoolOk(a, p) && i >= |a.polys|
    ensures Detached(bits, a, p, b, q, num)
  {
    PoolSize(a, p);
    forall l | 0 <= l < |a.links| ensures LinkFreed(bits, a, p, b, q, num, l, true) {
      assert LinkFreed(bits, a, p, b, q, num, l, IsDone(p, l, i, []));
      assert HomeOk(p, l);
    }
  }

  /** What the walk along a polygon's list sees next. */
  lemma WalkAt(tile: Tile, pool: Pool, i: nat, kept: seq<nat>, rest: seq<nat>)
    requires PoolOk(tile, pool) && i < |tile.polys| && pool.lists[i] == kept + rest
    ensures |pool.lists| == |tile.polys| && |pool.home| == |tile.links|
    ensures rest != [] ==>
              && rest[0] < |tile.links| && tile.links[rest[0]].next == FirstOf(rest[1..])
              && pool.home[rest[0]] == i && rest[0] !in rest[1..]
    ensures kept != [] ==> kept[|kept| - 1] < |tile.links|
  {
    var c := kept + rest;
    assert Houses(pool, i) && ListOf(pool, i) == c;
    assert ListFrom(Nexts(tile.links), HeadOf(tile, i), c);
    if rest != [] {
      assert c[|kept|] == rest[0] && LinkAt(Nexts(tile.links), c, |kept|);
      assert pool.home[ListOf(pool, i)[|kept|]] == i;
      if |rest| > 1 {
        assert c[|kept| + 1] == rest[1];
      }
      forall k | 0 <= k < |rest[1..]| ensures rest[1..][k] != rest[0] {
        assert c[|kept| + 1 + k] == rest[1..][k];
      }
    }
    if kept != [] {
      assert c[|kept| - 1] == kept[|kept| - 1] && LinkAt(Nexts(tile.links), c, |kept| - 1);
    }
  }

  /** The link met leads elsewhere and stays. */
  lemma RemovingKeep(bits: Bits, a: Tile, p: Pool, b: Tile, q: Pool, num: nat, i: nat, rest: seq<nat>)
    requires Removing(bits, a, p, b, q, num, i, rest) && rest != [] && rest[0] < |b.links|
    requires DecodeTile(bits, b.links[rest[0]].ref) != num
    ensures Removing(bits, a, p, b, q, num, i, rest[1..])
  {
    hide PoolOk;
    forall l | 0 <= l < |a.links|
      ensures LinkFreed(bits, a, p, b, q, num, l, IsDone(p, l, i, rest[1..]))
    {
      assert LinkFreed(bits, a, p, b, q, num, l, IsDone(p, l, i, rest));
      assert rest == [rest[0]] + rest[1..];
    }
  }

  /** The link met leads to `num` and is freed. */
  lemma RemovingCut(bits: Bits, a: Tile, p: Pool, b: Tile, q: Pool, num: nat, i: nat, kept: seq<nat>, rest: seq<nat>)
    requires Removing(bits, a, p, b, q, num, i, rest) && rest != [] && i < |b.polys| == |q.lists|
    requires q.lists[i] == kept + rest && rest[0] < |b.links| && DecodeTile(bits, b.links[rest[0]].ref) == num
    requires rest[0] !in rest[1..] && q.home[rest[0]] == i
    ensures kept != [] ==> kept[|kept| - 1] < |b.links|
    ensures var pj := if kept == [] then NULL_LINK else kept[|kept| - 1];
            Removing(bits, a, p, Unlinked(b, i, pj, rest[0]), PoolUnlinked(q, i, kept, rest[0], rest[1..]), num, i,
                     rest[1..])
  {
    var j := rest[0];
    assert kept + rest == kept + [j] + rest[1..];
    UnlinkedOk(b, q, i, kept, j, rest[1..]);
    hide PoolOk;
    var pj := if kept == [] then NULL_LINK else kept[|kept| - 1];
    var b1, q1 := Unlinked(b, i, pj, j), PoolUnlinked(q, i, kept, j, rest[1..]);
    forall l | 0 <= l < |a.links|
      ensures LinkFreed(bits, a, p, b1, q1, num, l, IsDone(p, l, i, rest[1..]))
    {
      assert LinkFreed(bits, a, p, b, q, num, l, IsDone(p, l, i, rest));
      assert rest == [j] + rest[1..];
    }
  }

  lemma HeadIs(tile: Tile, pool: Pool, i: nat)
    requires PoolOk(tile, pool) && i < |tile.polys|
    ensures i < |pool.lists| && tile.polys[i].firstLink == FirstOf(pool.lists[i])
  {
    assert ListFrom(Nexts(tile.links), HeadOf(tile, i), ListOf(pool, i));
  }

  lemma RemovingPool(bits: Bits, a: Tile, p: Pool, b: Tile, q: Pool, num: nat, i: nat, rest: seq<nat>)
    requires Removing(bits, a, p, b, q, num, i, rest)
    ensures PoolOk(b, q) && |a.polys| == |b.polys| == |q.lists|
  {
  }

  /** `unconnectLinks`: every link of the tile to tile `num` goes back to the free list, and no other. */
  method UnconnectLinks(bits: Bits, tile: Tile, ghost pool: Pool, num: nat) returns (b: Tile, ghost q: Pool)
    requires PoolOk(tile, pool)
    ensures Detached(bits, tile, pool, b, q, num)
  {
    hide PoolOk, Removing, Detached;
    b, q := tile, pool;
    PoolSize(tile, pool);
    RemovingStarts(bits, tile, pool, num);
    var i := 0;
    while i < |tile.polys|
      invariant 0 <= i <= |tile.polys| == |b.polys| == |q.lists| && PoolOk(b, q)
      invariant Removing(bits, tile, pool, b, q, num, i, if i < |q.lists| then q.lists[i] else [])
    {
      var j := b.polys[i].firstLink;
      var pj := NULL_LINK;
      ghost var kept, rest: seq<nat> := [], q.lists[i];
      HeadIs(b, q, i);
      while j != NULL_LINK
        invariant |tile.polys| == |b.polys| == |q.lists| && PoolOk(b, q) && q.lists[i] == kept + rest
        invariant j == FirstOf(rest) && pj == if kept == [] then NULL_LINK else kept[|kept| - 1]
        invariant Removing(bits, tile, pool, b, q, num, i, rest)
        decreases |rest|
      {
        WalkAt(b, q, i, kept, rest);
        assert kept + rest == kept + [rest[0]] + rest[1..];
        if DecodeTile(bits, b.links[j].ref) == num {
          var nj := b.links[j].next;
          RemovingCut(bits, tile, pool, b, q, num, i, kept, rest);
          q := PoolUnlinked(q, i, kept, rest[0], rest[1..]);
          b := Unlinked(b, i, pj, j);
          RemovingPool(bits, tile, pool, b, q, num, i, rest[1..]);
          j := nj;
        } else {
          RemovingKeep(bits, tile, pool, b, q, num, i, rest);
          pj := j;
          j := b.links[j].next;
          kept := kept + [rest[0]];
        }
        rest := rest[1..];
      }
      RemovingNext(bits, tile, pool, b, q, num, i);
      i := i + 1;
    }
    RemovingEnds(bits, tile, pool, b, q, num, i);
  }

  // ---------------------------------------------------------------- the other tiles

  /** No link in use of tile `u` leads to tile `num`. */
  ghost predicate NoneTo(bits: Bits, tile: Tile, pool: Pool, num: nat) {
    |tile.links| == |pool.home| && forall l | 0 <= l < |tile.links| :: !Hits(bits, tile, pool, l, num)
  }

  lemma DetachData(bits: Bits, a: Tile, p: Pool, b: Tile, q: Pool, num: nat)
    requires Detached(bits, a, p, b, q, num) && DataOk(bits, a.polys, a.cons)
    ensures DataOk(bits, b.polys, b.cons)
  {
    assert forall i | 0 <= i < |a.polys| :: SamePoly(a.polys[i], b.polys[i]);
  }

  lemma DetachSound(bits: Bits, tiles: seq<Tile>, pools: seq<Pool>, u: nat, b: Tile, q: Pool, num: nat)
    requires TilesOk(bits, tiles, pools) && Live(tiles, u) && Sound(bits, tiles, pools)
    requires Detached(bits, tiles[u], pools[u], b, q, num) && TilesOk(bits, tiles[u := b], pools[u := q])
    ensures Sound(bits, tiles[u := b], pools[u := q])
  {
    hide PoolOk, RefOk;
    var tiles1, pools1 := tiles[u := b], pools[u := q];
    forall t | Live(tiles1, t) ensures |pools1[t].home| == |tiles1[t].links| && LinksOk(bits, tiles1, pools1, t) {
      assert TileOk(bits, tiles[t], pools[t]) && TileOk(bits, tiles1[t], pools1[t]) && Live(tiles, t);
      PoolSize(tiles[t], pools[t]);
      PoolSize(tiles1[t], pools1[t]);
      assert LinksOk(bits, tiles, pools, t);
      forall l | 0 <= l < |tiles1[t].links| && pools1[t].home[l] >= 0
        ensures RefOk(bits, tiles1, t, tiles1[t].links[l].ref)
      {
        if t == u {
          assert LinkFreed(bits, tiles[u], pools[u], b, q, num, l, true);
        }
        FacesRef(bits, tiles, tiles1, t, tiles1[t].links[l].ref);
      }
    }
  }

  /** Detaching one tile keeps the mesh sound. */
  lemma DetachKeeps(bits: Bits, tiles: seq<Tile>, pools: seq<Pool>, u: nat, b: Tile, q: Pool, num: nat)
    requires TilesOk(bits, tiles, pools) && Live(tiles, u)
    requires Detached(bits, tiles[u], pools[u], b, q, num)
    ensures var tiles1, pools1 := tiles[u := b], pools[u := q];
            && TilesOk(bits, tiles1, pools1) && SameFaces(tiles, tiles1) && NoneTo(bits, b, q, num)
            && (Sound(bits, tiles, pools) ==> Sound(bits, tiles1, pools1))
  {
    hide PoolOk, RefOk;
    assert TileOk(bits, tiles[u], pools[u]);
    var tiles1, pools1 := tiles[u := b], pools[u := q];
    DetachData(bits, tiles[u], pools[u], b, q, num);
    assert TilesOk(bits, tiles1, pools1) by {
      forall t | 0 <= t < |tiles1| ensures TileOk(bits, tiles1[t], pools1[t]) {
        assert TileOk(bits, tiles[t], pools[t]);
      }
    }
    forall l | 0 <= l < |b.links| ensures !Hits(bits, b, q, l, num) {
      assert LinkFreed(bits, tiles[u], pools[u], b, q, num, l, true);
    }
    if Sound(bits, tiles, pools) {
      DetachSound(bits, tiles, pools, u, b, q, num);
    }
  }

  /** Once nothing leads to tile `t` any more, it can go. */
  lemma DropSound(bits: Bits, tiles: seq<Tile>, pools: seq<Pool>, tiles1: seq<Tile>, pools1: seq<Pool>, t: nat)
    requires TilesOk(bits, tiles, pools) && TilesOk(bits, tiles1, pools1) && Sound(bits, tiles, pools)
    requires t < |tiles| == |tiles1| && !Live(tiles1, t)
    requires forall u | 0 <= u < |tiles| && u != t :: SameFace(tiles[u], tiles1[u]) && tiles[u].links == tiles1[u].links
    requires forall u | 0 <= u < |tiles| && u != t :: pools1[u] == pools[u]
    requires forall u | Live(tiles, u) && u != t :: NoneTo(bits, tiles[u], pools[u], t)
    ensures Sound(bits, tiles1, pools1)
  {
    hide PoolOk;
    forall u | Live(tiles1, u) ensures |pools1[u].home| == |tiles1[u].links| && LinksOk(bits, tiles1, pools1, u) {
      assert u != t && SameFace(tiles[u], tiles1[u]);
      assert TileOk(bits, tiles[u], pools[u]) && Live(tiles, u) && NoneTo(bits, tiles[u], pools[u], t);
      assert LinksOk(bits, tiles, pools, u);
      forall l | 0 <= l < |tiles1[u].links| && pools1[u].home[l] >= 0
        ensures RefOk(bits, tiles1, u, tiles1[u].links[l].ref)
      {
        assert !Hits(bits, tiles[u], pools[u], l, t);
        RefKept(bits, tiles, tiles1, u, tiles1[u].links[l].ref);
      }
    }
  }

  /** A sound tile that is not near has no link to `t`. */
  lemma FarHasNone(bits: Bits, tiles: seq<Tile>, pools: seq<Pool>, u: nat, t: nat)
    requires TilesOk(bits, tiles, pools) && Sound(bits, tiles, pools) && Live(tiles, u) && Live(tiles, t)
    requires !Near(tiles[u].header.value, tiles[t].header.value)
    ensures NoneTo(bits, tiles[u], pools[u], t)
  {
    hide PoolOk;
    assert TileOk(bits, tiles[u], pools[u]);
    PoolSize(tiles[u], pools[u]);
    assert LinksOk(bits, tiles, pools, u);
  }
}
