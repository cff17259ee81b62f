/** References over whole runs of a mesh: which go stale, for how long, and which the program does not tell apart. */
module NavMeshRuns {
  import opened NavMeshIds
  import opened NavMeshLinks
  import opened NavMeshTiles
  import opened NavMeshBuild
  import opened NavMesh
  import HashChains

  datatype Snapshot = Snapshot(tiles: seq<Tile>, pools: seq<Pool>)

  /** One call: a tile is added, though not to restore slot `t` under an old reference, or a tile is removed. */
  ghost predicate Call(bits: Bits, a: Snapshot, b: Snapshot, t: nat) {
    || (exists data, lastRef, ref | AddedTile(bits, a.tiles, a.pools, b.tiles, b.pools, data, lastRef, ref) ::
          lastRef == 0 || DecodeTile(bits, lastRef) != t)
    || (exists u: nat :: RemovedTile(bits, a.tiles, a.pools, b.tiles, b.pools, u))
  }

  ghost predicate MeshRun(bits: Bits, run: seq<Snapshot>, t: nat) {
    run != [] && forall i | 0 < i < |run| :: Call(bits, run[i - 1], run[i], t)
  }

  /** How often slot `t` was freed. */
  function Freed(run: seq<Snapshot>, t: nat): (n: nat)
    ensures n <= |run|
  {
    if |run| <= 1 then 0
    else
      var n := |run| - 1;
      Freed(run[..n], t) + if Live(run[n - 1].tiles, t) && !Live(run[n].tiles, t) then 1 else 0
  }

  /** What one call does to a slot: its salt moves on exactly when the slot is freed. */
  lemma CallSalt(bits: Bits, a: Snapshot, b: Snapshot, t: nat)
    requires Call(bits, a, b, t) && t < |a.tiles|
    ensures |b.tiles| == |a.tiles|
    ensures b.tiles[t].salt
            == if Live(a.tiles, t) && !Live(b.tiles, t) then SaltAfter(bits, a.tiles[t].salt) else a.tiles[t].salt
  {
    hide DecodeTile, DecodeSalt, SaltAfter, LinksShed, TileGrows, PolyLinked, FromData;
    if u: nat :| RemovedTile(bits, a.tiles, a.pools, b.tiles, b.pools, u) {
      assert u != t ==> SameFace(a.tiles[t], b.tiles[t]);
    }
  }

  /** The salt after `n` releases, counted around without 0. */
  function SaltAfterAll(bits: Bits, salt: nat, n: nat): nat
    requires HashChains.Pow2(bits.salt) > 1 && salt > 0
  {
    1 + (salt - 1 + n) % (HashChains.Pow2(bits.salt) - 1)
  }

  lemma SameRest(x: nat, m: nat, q: nat, r: nat)
    requires r < m && x == m * q + r
    ensures x % m == r
  {
    assert q * m == m * q;
    DivMod(m, q, r);
  }

  lemma OneFurther(x: nat, m: nat)
    requires m > 0
    ensures (x + 1) % m == if x % m + 1 < m then x % m + 1 else 0
  {
    var q := x / m;
    assert x + 1 == m * q + (x % m + 1);
    if x % m + 1 < m {
      SameRest(x + 1, m, q, x % m + 1);
    } else {
      assert m * (q + 1) == m * q + m;
      SameRest(x + 1, m, q + 1, 0);
    }
  }

  lemma {:induction false} RunSalt(bits: Bits, run: seq<Snapshot>, t: nat)
    requires Fits(bits) && MeshRun(bits, run, t) && t < |run[0].tiles|
    requires 0 < run[0].tiles[t].salt < HashChains.Pow2(bits.salt)
    ensures var last := run[|run| - 1].tiles;
            && |last| == |run[0].tiles| && last[t].salt == SaltAfterAll(bits, run[0].tiles[t].salt, Freed(run, t))
            && 0 < last[t].salt < HashChains.Pow2(bits.salt)
    decreases |run|
  {
    hide Call;
    var m, n := HashChains.Pow2(bits.salt) - 1, |run| - 1;
    var salt := run[0].tiles[t].salt;
    if n == 0 {
      SmallMod(salt - 1, m);
    } else {
      var front := run[..n];
      assert front[n - 1] == run[n - 1] && front[0] == run[0];
      RunSalt(bits, front, t);
      CallSalt(bits, run[n - 1], run[n], t);
      hide HashChains.Pow2, SaltAfter, Live, Fits;
      SaltAfterOk(bits, run[n - 1].tiles[t].salt);
      OneFurther(salt - 1 + Freed(front, t), m);
    }
  }

  function FirstTiles(run: seq<Snapshot>): seq<Tile> {
    if run == [] then [] else run[0].tiles
  }

  lemma BackAgain(x: nat, n: nat, m: nat)
    requires x < m
    ensures (x + n) % m == x <==> n % m == 0
  {
    var q, r := n / m, n % m;
    assert n == m * q + r;
    if x + r < m {
      SameRest(x + n, m, q, x + r);
    } else {
      assert m * (q + 1) == m * q + m;
      SameRest(x + n, m, q + 1, x + r - m);
    }
  }

  /** A reference to a tile that has been freed is invalid, until the salt of its slot has gone all the way round: the
      slot has the old salt again exactly when it was freed a multiple of 2^salt - 1 times. */
  lemma StaleUntilRound(bits: Bits, run: seq<Snapshot>, ref: nat)
    requires Fits(bits) && IsValid(bits, FirstTiles(run), ref) && MeshRun(bits, run, DecodeTile(bits, ref))
    requires 0 < run[0].tiles[DecodeTile(bits, ref)].salt < HashChains.Pow2(bits.salt)
    ensures var t, last := DecodeTile(bits, ref), run[|run| - 1].tiles;
            && HashChains.Pow2(bits.salt) > 1 && |last| == |run[0].tiles|
            && (last[t].salt == DecodeSalt(bits, ref) <==> Freed(run, t) % (HashChains.Pow2(bits.salt) - 1) == 0)
            && (Freed(run, t) % (HashChains.Pow2(bits.salt) - 1) != 0 ==> !IsValid(bits, last, ref))
  {
    var t := DecodeTile(bits, ref);
    RunSalt(bits, run, t);
    var m, salt, n := HashChains.Pow2(bits.salt) - 1, run[0].tiles[t].salt, Freed(run, t);
    hide HashChains.Pow2, DecodeTile, DecodeSalt;
    BackAgain(salt - 1, n, m);
  }

  // ---------------------------------------------------------------- references that should not be removed

  /** `removeTile` takes a reference that names a free slot exactly when it carries that slot's salt; it then reads the
      header of a tile that has none. */
  lemma UnsafeIff(bits: Bits, tiles: seq<Tile>, ref: nat)
    requires |tiles| <= HashChains.Pow2(bits.tile)
    requires forall t: nat | t < |tiles| :: 0 < tiles[t].salt < HashChains.Pow2(bits.salt)
    requires 0 < ref < HashChains.Pow2(bits.salt) * HashChains.Pow2(bits.tile) * HashChains.Pow2(bits.poly)
    ensures (Matches(bits, tiles, ref) && !Live(tiles, DecodeTile(bits, ref))) <==>
              exists t: nat, p: nat | t < |tiles| && !Live(tiles, t) && p < HashChains.Pow2(bits.poly) ::
                ref == Encode(bits, tiles[t].salt, t, p)
  {
    EncodeDecode(bits, ref);
    hide HashChains.Pow2, Encode, DecodeTile, DecodeSalt, DecodePoly;
    if t: nat, p: nat :| t < |tiles| && !Live(tiles, t) && p < HashChains.Pow2(bits.poly)
                         && ref == Encode(bits, tiles[t].salt, t, p)
    {
      DecodeEncode(bits, tiles[t].salt, t, p);
    }
  }

  /** There is such a reference in a mesh that has just been made: salt 1, slot 0. */
  lemma FreshSlotMatches(bits: Bits, tiles: seq<Tile>)
    requires Fits(bits) && 0 < |tiles| <= HashChains.Pow2(bits.tile) && BlankTile(tiles[0])
    ensures var ref := Encode(bits, 1, 0, 0); Matches(bits, tiles, ref) && !Live(tiles, DecodeTile(bits, ref))
  {
    Pow2Grows(1, bits.salt);
    assert HashChains.Pow2(1) == 2;
    hide HashChains.Pow2;
    EncodeInRange(bits, 1, 0, 0);
    DecodeEncode(bits, 1, 0, 0);
  }
}
