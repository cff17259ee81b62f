/** One tile's link pool: a free list and one list per polygon, all chained through `next`. */
module NavMeshLinks {
  import opened Basics
  import opened NavMeshLists

  datatype Link = Link(ref: nat, next: int, edge: nat, side: nat)
  datatype Poly = Poly(offMesh: bool, neis: seq<nat>, firstLink: int)
  datatype Con = Con(poly: nat, side: nat, bidir: bool)
  datatype Header = Header(x: int, y: int, layer: int)

  /** A tile slot; it is in use while it has a header. */
  datatype Tile = Tile(salt: nat, header: Option<Header>, polys: seq<Poly>, links: seq<Link>, linksFreeList: int,
                       cons: seq<Con>, next: int)

  function Nexts(links: seq<Link>): (next: seq<int>)
    ensures |next| == |links| && forall l | 0 <= l < |links| :: next[l] == links[l].next
  {
    seq(|links|, l requires 0 <= l < |links| => links[l].next)
  }

  // ---------------------------------------------------------------- the pool

  /** The free list, each polygon's list, and for each link the list it is in (-1 for the free one). */
  datatype Pool = Pool(free: seq<nat>, lists: seq<seq<nat>>, home: seq<int>)

  function ListOf(pool: Pool, i: int): seq<nat>
    requires -1 <= i < |pool.lists|
  {
    if i == -1 then pool.free else pool.lists[i]
  }

  ghost predicate HomeOk(pool: Pool, l: nat)
    requires l < |pool.home|
  {
    -1 <= pool.home[l] < |pool.lists| && l in ListOf(pool, pool.home[l])
  }

  /** Every link of list `i` is at home there, and listed once. */
  ghost predicate Housed(home: seq<int>, c: seq<nat>, i: int) {
    && (forall k | 0 <= k < |c| :: c[k] < |home| && home[c[k]] == i)
    && Distinct(c)
  }

  ghost predicate Houses(pool: Pool, i: int)
    requires -1 <= i < |pool.lists|
  {
    Housed(pool.home, ListOf(pool, i), i)
  }

  /** Every link is in exactly one list, once. */
  ghost predicate Partition(pool: Pool) {
    && (forall l | 0 <= l < |pool.home| :: HomeOk(pool, l))
    && (forall i | -1 <= i < |pool.lists| :: Houses(pool, i))
  }

  function HeadOf(tile: Tile, i: int): int
    requires -1 <= i < |tile.polys|
  {
    if i == -1 then tile.linksFreeList else tile.polys[i].firstLink
  }

  /** The tile's links are the pool's lists. */
  ghost predicate PoolOk(tile: Tile, pool: Pool) {
    && |pool.lists| == |tile.polys| && |pool.home| == |tile.links|
    && Partition(pool)
    && (forall i | -1 <= i < |tile.polys| :: ListFrom(Nexts(tile.links), HeadOf(tile, i), ListOf(pool, i)))
  }

  // ---------------------------------------------------------------- allocating a link

  /** `allocLink`, and the new link put first in the list of polygon `i`. */
  function Linked(tile: Tile, i: nat, ref: nat, edge: nat, side: nat): Tile
    requires i < |tile.polys| && 0 <= tile.linksFreeList < |tile.links|
  {
    var l := tile.linksFreeList;
    tile.(linksFreeList := tile.links[l].next,
          links := tile.links[l := Link(ref, tile.polys[i].firstLink, edge, side)],
          polys := tile.polys[i := tile.polys[i].(firstLink := l)])
  }

  function PoolLinked(pool: Pool, i: nat): Pool
    requires i < |pool.lists| && pool.free != [] && pool.free[0] < |pool.home|
  {
    Pool(pool.free[1..], pool.lists[i := [pool.free[0]] + pool.lists[i]], pool.home[pool.free[0] := i])
  }

  lemma FreeHead(tile: Tile, pool: Pool)
    requires PoolOk(tile, pool)
    ensures if tile.linksFreeList == NULL_LINK then pool.free == []
            else pool.free != [] && tile.linksFreeList == pool.free[0] < |tile.links|
                 && pool.home[pool.free[0]] == -1
  {
    assert ListOf(pool, -1) == pool.free && HeadOf(tile, -1) == tile.linksFreeList;
    assert ListFrom(Nexts(tile.links), HeadOf(tile, -1), ListOf(pool, -1)) && Houses(pool, -1);
    if pool.free != [] {
      assert LinkAt(Nexts(tile.links), pool.free, 0);
      assert pool.home[ListOf(pool, -1)[0]] == -1;
    }
  }

  lemma PoolLinkedHome(pool: Pool, i: nat, m: nat)
    requires i < |pool.lists| && pool.free != [] && pool.free[0] < |pool.home| && m < |pool.home| && HomeOk(pool, m)
    ensures HomeOk(PoolLinked(pool, i), m)
  {
    var l := pool.free[0];
    if m != l && pool.home[m] == -1 {
      assert m in [l] + pool.free[1..];
    }
  }

  lemma HeadIsHome(home: seq<int>, c: seq<nat>, i: int)
    requires Housed(home, c, i) && c != []
    ensures c[0] < |home| && home[c[0]] == i
  {
  }

  /** Link `l` comes out of the list at whose head it is. */
  lemma HeadLeaves(home: seq<int>, l: nat, c: seq<nat>, j: int, i: int)
    requires l < |home| && Housed(home, [l] + c, j)
    ensures Housed(home[l := i], c, j)
  {
    var d := [l] + c;
    forall k | 0 <= k < |c| ensures c[k] == d[k + 1] && c[k] != d[0] {
    }
    forall m, n | 0 <= m < n < |c| ensures c[m] != c[n] {
      assert d[m + 1] != d[n + 1];
    }
  }

  /** Link `l` goes to the head of list `j`; the other lists do not have it. */
  lemma HeadArrives(home: seq<int>, l: nat, c: seq<nat>, j: int, i: int)
    requires Housed(home, c, j) && l < |home| && home[l] != j
    ensures Housed(home[l := i], if i == j then [l] + c else c, j)
  {
    forall k | 0 <= k < |c| ensures c[k] != l {
      assert home[c[k]] == j;
    }
  }

  lemma PoolLinkedHouse(pool: Pool, i: nat, j: int)
    requires i < |pool.lists| && pool.free != [] && pool.free[0] < |pool.home|
    requires -1 <= j < |pool.lists| && Houses(pool, -1) && Houses(pool, j)
    ensures Houses(PoolLinked(pool, i), j)
  {
    hide Housed;
    var l := pool.free[0];
    assert pool.free == [l] + pool.free[1..];
    HeadIsHome(pool.home, pool.free, -1);
    if j == -1 {
      HeadLeaves(pool.home, l, pool.free[1..], -1, i);
    } else {
      HeadArrives(pool.home, l, pool.lists[j], j, i);
    }
  }

  lemma PoolLinkedPartition(pool: Pool, i: nat)
    requires Partition(pool) && i < |pool.lists| && pool.free != [] && pool.free[0] < |pool.home|
    ensures Partition(PoolLinked(pool, i))
  {
    hide HomeOk, Houses;
    var pool1 := PoolLinked(pool, i);
    forall m | 0 <= m < |pool1.home| ensures HomeOk(pool1, m) {
      PoolLinkedHome(pool, i, m);
    }
    forall j | -1 <= j < |pool1.lists| ensures Houses(pool1, j) {
      PoolLinkedHouse(pool, i, j);
    }
  }

  lemma LinkedOk(tile: Tile, pool: Pool, i: nat, ref: nat, edge: nat, side: nat)
    requires PoolOk(tile, pool) && i < |tile.polys| && tile.linksFreeList != NULL_LINK
    ensures 0 <= tile.linksFreeList < |tile.links| && pool.free != [] && pool.free[0] == tile.linksFreeList
    ensures PoolOk(Linked(tile, i, ref, edge, side), PoolLinked(pool, i))
  {
    FreeHead(tile, pool);
    var l := pool.free[0];
    var tile1, pool1 := Linked(tile, i, ref, edge, side), PoolLinked(pool, i);
    PoolLinkedPartition(pool, i);
    forall j | -1 <= j < |tile1.polys| ensures ListFrom(Nexts(tile1.links), HeadOf(tile1, j), ListOf(pool1, j)) {
      assert ListFrom(Nexts(tile.links), HeadOf(tile, j), ListOf(pool, j)) && Houses(pool, j);
      if j == -1 {
        TailOf(Nexts(tile.links), pool.free);
        forall k | 0 <= k < |pool1.free| ensures pool1.free[k] != l {
          assert pool1.free[k] == ListOf(pool, -1)[k + 1] && ListOf(pool, -1)[0] == l;
        }
        ListKept(Nexts(tile.links), Nexts(tile1.links), HeadOf(tile1, j), pool1.free);
      } else {
        assert forall k | 0 <= k < |pool.lists[j]| :: pool.home[ListOf(pool, j)[k]] == j;
        ListKept(Nexts(tile.links), Nexts(tile1.links), HeadOf(tile, j), pool.lists[j]);
        if j == i {
          ConsOf(Nexts(tile1.links), HeadOf(tile, i), pool.lists[i], l);
        }
      }
    }
  }

  // ---------------------------------------------------------------- freeing a link

  /** `unconnectLinks` on link `j` of polygon `i`, which comes behind link `pj` or first; then `freeLink`. */
  function Unlinked(tile: Tile, i: nat, pj: int, j: nat): Tile
    requires i < |tile.polys| && j < |tile.links| && -1 <= pj < |tile.links|
  {
    var nj := tile.links[j].next;
    var cut := if pj == NULL_LINK then tile.(polys := tile.polys[i := tile.polys[i].(firstLink := nj)])
               else tile.(links := tile.links[pj := tile.links[pj].(next := nj)]);
    cut.(links := cut.links[j := cut.links[j].(next := cut.linksFreeList)], linksFreeList := j)
  }

  function PoolUnlinked(pool: Pool, i: nat, a: seq<nat>, j: nat, b: seq<nat>): Pool
    requires i < |pool.lists| && j < |pool.home|
  {
    Pool([j] + pool.free, pool.lists[i := a + b], pool.home[j := -1])
  }

  /** `a` and `b` are what is left of list `i` when link `j` is taken out. */
  ghost predicate Apart(home: seq<int>, a: seq<nat>, j: nat, b: seq<nat>, i: int) {
    && j < |home| && home[j] == i && Housed(home, a, i) && Housed(home, b, i)
    && j !in a && j !in b && forall k, m | 0 <= k < |a| && 0 <= m < |b| :: a[k] != b[m]
  }

  lemma TakenApart(home: seq<int>, a: seq<nat>, j: nat, b: seq<nat>, i: int)
    requires Housed(home, a + [j] + b, i)
    ensures Apart(home, a, j, b, i)
  {
    var c := a + [j] + b;
    assert c[|a|] == j;
    assert forall k | 0 <= k < |a| :: a[k] == c[k];
    assert forall m | 0 <= m < |b| :: b[m] == c[|a| + 1 + m];
  }

  lemma PutTogether(home: seq<int>, a: seq<nat>, j: nat, b: seq<nat>, i: int)
    requires Apart(home, a, j, b, i)
    ensures Housed(home[j := -1], a + b, i)
  {
    var d := a + b;
    forall k | 0 <= k < |d| ensures d[k] < |home| && d[k] != j && home[d[k]] == i {
      assert d[k] == if k < |a| then a[k] else b[k - |a|];
    }
  }

  lemma PoolUnlinkedHome(pool: Pool, i: nat, a: seq<nat>, j: nat, b: seq<nat>, m: nat)
    requires i < |pool.lists| && j < |pool.home| && pool.lists[i] == a + [j] + b
    requires m < |pool.home| && HomeOk(pool, m)
    ensures HomeOk(PoolUnlinked(pool, i, a, j, b), m)
  {
    if m != j && pool.home[m] == i {
      assert m in a + [j] + b;
      assert m in a + b;
    }
  }

  lemma PoolUnlinkedHouse(pool: Pool, i: nat, a: seq<nat>, j: nat, b: seq<nat>, h: int)
    requires i < |pool.lists| && j < |pool.home| && pool.lists[i] == a + [j] + b
    requires -1 <= h < |pool.lists| && Houses(pool, i) && Houses(pool, h)
    ensures Houses(PoolUnlinked(pool, i, a, j, b), h)
  {
    hide Housed;
    TakenApart(pool.home, a, j, b, i);
    if h == i {
      PutTogether(pool.home, a, j, b, i);
    } else {
      HeadArrives(pool.home, j, ListOf(pool, h), h, -1);
    }
  }

  lemma PoolUnlinkedPartition(pool: Pool, i: nat, a: seq<nat>, j: nat, b: seq<nat>)
    requires Partition(pool) && i < |pool.lists| && j < |pool.home| && pool.lists[i] == a + [j] + b
    ensures Partition(PoolUnlinked(pool, i, a, j, b))
  {
    hide HomeOk, Houses;
    var pool1 := PoolUnlinked(pool, i, a, j, b);
    forall m | 0 <= m < |pool1.home| ensures HomeOk(pool1, m) {
      PoolUnlinkedHome(pool, i, a, j, b, m);
    }
    forall h | -1 <= h < |pool1.lists| ensures Houses(pool1, h) {
      PoolUnlinkedHouse(pool, i, a, j, b, h);
    }
  }

  lemma UnlinkedList(tile: Tile, pool: Pool, i: nat, a: seq<nat>, j: nat, b: seq<nat>, h: int)
    requires PoolOk(tile, pool) && i < |tile.polys| && pool.lists[i] == a + [j] + b && -1 <= h < |tile.polys|
    requires Apart(pool.home, a, j, b, i)
    ensures var tile1 := Unlinked(tile, i, if a == [] then NULL_LINK else a[|a| - 1], j);
            ListFrom(Nexts(tile1.links), HeadOf(tile1, h), ListOf(PoolUnlinked(pool, i, a, j, b), h))
  {
    var tile1 := Unlinked(tile, i, if a == [] then NULL_LINK else a[|a| - 1], j);
    assert ListFrom(Nexts(tile.links), HeadOf(tile, h), ListOf(pool, h)) && Houses(pool, h);
    hide ListFrom, Partition;
    if h == i {
      CutOk(Nexts(tile.links), Nexts(tile1.links), HeadOf(tile, i), HeadOf(tile1, i), a, j, b);
    } else {
      ListKept(Nexts(tile.links), Nexts(tile1.links), HeadOf(tile, h), ListOf(pool, h));
      if h == -1 {
        ConsOf(Nexts(tile1.links), HeadOf(tile, -1), pool.free, j);
      }
    }
  }

  lemma UnlinkedOk(tile: Tile, pool: Pool, i: nat, a: seq<nat>, j: nat, b: seq<nat>)
    requires PoolOk(tile, pool) && i < |tile.polys| && pool.lists[i] == a + [j] + b
    ensures j < |tile.links| && (a != [] ==> a[|a| - 1] < |tile.links|)
    ensures tile.links[j].next == FirstOf(b)
    ensures PoolOk(Unlinked(tile, i, if a == [] then NULL_LINK else a[|a| - 1], j), PoolUnlinked(pool, i, a, j, b))
  {
    var c := ListOf(pool, i);
    assert ListFrom(Nexts(tile.links), HeadOf(tile, i), c) && LinkAt(Nexts(tile.links), c, |a|) && Houses(pool, i);
    TakenApart(pool.home, a, j, b, i);
    PoolUnlinkedPartition(pool, i, a, j, b);
    hide ListFrom, Partition, Distinct;
    forall h | -1 <= h < |tile.polys|
      ensures var tile1 := Unlinked(tile, i, if a == [] then NULL_LINK else a[|a| - 1], j);
              ListFrom(Nexts(tile1.links), HeadOf(tile1, h), ListOf(PoolUnlinked(pool, i, a, j, b), h))
    {
      UnlinkedList(tile, pool, i, a, j, b, h);
    }
  }
}
