/** Hash tables chained through their own slots, as the object table of the area-of-interest engine and the
    word filter's tables are: the slots, their chains, and the ways to put a new id in. */
module HashChains {
  import opened Basics

  /** `Free` is a blank slot: one without id, object and successor. */
  datatype Slot<+T> = Free | Slot(id: nat, obj: T, next: int)

  /** `mainposition`: the table size is a power of two, so masking is the remainder (`MaskIsRemainder`). */
  function Main(id: nat, size: nat): (p: nat)
    requires size > 0
    ensures p < size
  {
    id % size
  }

  function BitAnd(a: nat, b: nat): nat {
    if a == 0 || b == 0 then 0 else 2 * BitAnd(a / 2, b / 2) + (a % 2) * (b % 2)
  }

  function Pow2(k: nat): (p: nat)
    ensures p > 0
  {
    if k == 0 then 1 else 2 * Pow2(k - 1)
  }

  lemma BitAndZero(a: nat)
    ensures BitAnd(a, 0) == 0 == BitAnd(0, a)
  {
  }

  lemma MainOfOne(id: nat)
    ensures Main(id, 1) == 0 && forall p: nat | p > 0 :: Main(0, p) == 0
  {
  }

  lemma MaskStep(id: nat, p: nat)
    requires id > 0 && p > 0
    ensures BitAnd(id, 2 * p - 1) == 2 * BitAnd(id / 2, p - 1) + id % 2
  {
    var mask := 2 * p - 1;
    assert mask / 2 == p - 1 && mask % 2 == 1;
    assert (id % 2) * (mask % 2) == id % 2;
  }

  lemma Multiple(d: nat, e: int)
    ensures e > 0 ==> d * e >= d
  {
    if e > 0 {
      assert d * e == d * (e - 1) + d;
    }
  }

  /** Division with remainder has one result. */
  lemma SameRemainder(d: nat, q: int, r: int, q1: int, r1: int)
    requires d * q + r == d * q1 + r1 && 0 <= r < d && 0 <= r1 < d
    ensures r == r1
  {
    Multiple(d, q - q1);
    Multiple(d, q1 - q);
    var a, b := d * q, d * q1;
    assert d * (q - q1) == a - b && d * (q1 - q) == b - a;
  }

  lemma HalfRemainder(x: nat, p: nat)
    requires p > 0
    ensures Main(x, 2 * p) == 2 * Main(x / 2, p) + x % 2
  {
    var half, bit := x / 2, x % 2;
    var q, r := half / p, half % p;
    assert half == p * q + r;
    assert 2 * (p * q) == (2 * p) * q;
    SameRemainder(2 * p, x / (2 * p), x % (2 * p), q, 2 * r + bit);
  }

  lemma {:induction false} MaskIsRemainder(id: nat, k: nat)
    ensures BitAnd(id, Pow2(k) - 1) == Main(id, Pow2(k))
  {
    hide BitAnd, Main;
    BitAndZero(id);
    BitAndZero(Pow2(k) - 1);
    MainOfOne(id);
    if k > 0 && id > 0 {
      var p: nat := Pow2(k - 1);
      MaskIsRemainder(id / 2, k - 1);
      HalfRemainder(id, p);
      MaskStep(id, p);
    }
  }

  // ---------------------------------------------------------------- chains

  /** Where the slot at place `k` of chain `c` points. */
  function NextIn(c: seq<nat>, k: nat): int
    requires k < |c|
  {
    if k + 1 < |c| then c[k + 1] else -1
  }

  ghost predicate LinkOk<T>(s: seq<Slot<T>>, h: nat, c: seq<nat>, k: nat)
    requires k < |c|
  {
    c[k] < |s| && s[c[k]].Slot? && Main(s[c[k]].id, |s|) == h && s[c[k]].next == NextIn(c, k)
  }

  /** `c` lists, from the main position `h` on, slots whose ids all have main position `h`, each pointing to
      the next and the last to none. */
  ghost predicate ChainOk<T>(s: seq<Slot<T>>, h: nat, c: seq<nat>) {
    && (c != [] ==> c[0] == h)
    && (forall k | 0 <= k < |c| :: LinkOk(s, h, c, k))
    && Distinct(c)
  }

  ghost predicate ChainsOk<T>(s: seq<Slot<T>>, chains: seq<seq<nat>>) {
    |chains| == |s| && forall h | 0 <= h < |s| :: ChainOk(s, h, chains[h])
  }

  /** Every used slot lies on the chain of its main position. */
  ghost predicate OnChain<T>(s: seq<Slot<T>>, chains: seq<seq<nat>>, i: nat)
    requires i < |s| == |chains|
  {
    s[i].Slot? ==> i in chains[Main(s[i].id, |s|)]
  }

  ghost predicate Covered<T>(s: seq<Slot<T>>, chains: seq<seq<nat>>) {
    |chains| == |s| && forall i | 0 <= i < |s| :: OnChain(s, chains, i)
  }

  /** Ids are not repeated. */
  ghost predicate IdsOk<T>(s: seq<Slot<T>>) {
    (forall i, j | 0 <= i < j < |s| && s[i].Slot? && s[j].Slot? :: s[i].id != s[j].id)
  }

  ghost predicate TableOk<T>(s: seq<Slot<T>>, chains: seq<seq<nat>>) {
    |s| > 0 && ChainsOk(s, chains) && Covered(s, chains) && IdsOk(s)
  }

  ghost predicate HasId<T>(s: seq<Slot<T>>, id: nat) {
    exists i | 0 <= i < |s| :: s[i].Slot? && s[i].id == id
  }

  /** The head of a chain sits at its main position. */
  lemma HeadIsHome<T>(s: seq<Slot<T>>, h: nat, c: seq<nat>)
    requires ChainOk(s, h, c)
    ensures c != [] ==> h < |s| && s[h].Slot? && Main(s[h].id, |s|) == h
  {
    if c != [] {
      assert LinkOk(s, h, c, 0);
    }
  }

  lemma ChainKept<T>(s: seq<Slot<T>>, t: seq<Slot<T>>, h: nat, c: seq<nat>)
    requires ChainOk(s, h, c) && |t| == |s| > 0
    requires forall k | 0 <= k < |c| :: c[k] < |s| && t[c[k]] == s[c[k]]
    ensures ChainOk(t, h, c)
  {
    forall k | 0 <= k < |c| ensures LinkOk(t, h, c, k) {
      assert LinkOk(s, h, c, k);
    }
  }

  /** A chain is not touched by changes to slots that are free or belong to another chain. */
  lemma OtherChainKept<T>(s: seq<Slot<T>>, t: seq<Slot<T>>, h: nat, c: seq<nat>)
    requires ChainOk(s, h, c) && |t| == |s| > 0
    requires forall i | 0 <= i < |s| && t[i] != s[i] :: !s[i].Slot? || Main(s[i].id, |s|) != h
    ensures ChainOk(t, h, c)
  {
    forall k | 0 <= k < |c| ensures c[k] < |s| && t[c[k]] == s[c[k]] {
      assert LinkOk(s, h, c, k);
    }
    ChainKept(s, t, h, c);
  }

  /** Each slot lies on one chain, at one place. */
  lemma OnlyOnOwnChain<T>(s: seq<Slot<T>>, chains: seq<seq<nat>>, g: nat, i: nat)
    requires ChainsOk(s, chains) && g < |chains| && i in chains[g]
    ensures i < |s| && s[i].Slot? && Main(s[i].id, |s|) == g
  {
    var k :| 0 <= k < |chains[g]| && chains[g][k] == i;
    assert ChainOk(s, g, chains[g]) && LinkOk(s, g, chains[g], k);
  }

  lemma OnePlace<T>(s: seq<Slot<T>>, chains: seq<seq<nat>>, g: nat, j: nat, k: nat)
    requires TableOk(s, chains) && g < |chains| && j < |chains[g]| && k < |chains[g]| && chains[g][j] == chains[g][k]
    ensures j == k
  {
    assert ChainOk(s, g, chains[g]);
  }

  // ---------------------------------------------------------------- the ways in

  function Fresh<T>(id: nat, obj: T, next: int): Slot<T> {
    Slot(id, obj, next)
  }

  /** `t` differs from `s` only at `at`, which now holds `id`, and perhaps in the `next` of `p`. */
  ghost predicate Planted<T>(s: seq<Slot<T>>, t: seq<Slot<T>>, at: nat, id: nat, obj: T, p: nat) {
    && |t| == |s| && at < |s| && p < |s| && t[at].Slot? && t[at].id == id && t[at].obj == obj
    && (forall i | 0 <= i < |s| && i != at && i != p :: t[i] == s[i])
    && (p != at ==> s[p].Slot? && t[p].Slot? && t[p].id == s[p].id && t[p].obj == s[p].obj)
  }

  lemma PlantedIds<T>(s: seq<Slot<T>>, t: seq<Slot<T>>, at: nat, id: nat, obj: T, p: nat)
    requires IdsOk(s) && Planted(s, t, at, id, obj, p)
    requires !HasId(s, id)
    ensures IdsOk(t)
  {
    forall i, j | 0 <= i < j < |t| && t[i].Slot? && t[j].Slot? ensures t[i].id != t[j].id {
      if i != at && j != at {
        assert t[i].id == s[i].id && t[j].id == s[j].id;
      } else if i == at {
        assert s[j].id != id;
      } else {
        assert s[i].id != id;
      }
    }
  }

  /** The main position is free. */
  lemma PlaceAtMain<T>(s: seq<Slot<T>>, chains: seq<seq<nat>>, id: nat, obj: T)
    requires TableOk(s, chains) && !HasId(s, id)
    requires !s[Main(id, |s|)].Slot?
    ensures var h := Main(id, |s|);
            TableOk(s[h := Fresh(id, obj, -1)], chains[h := [h]])
  {
    hide HasId;
    var h := Main(id, |s|);
    var t, d := s[h := Fresh(id, obj, -1)], chains[h := [h]];
    assert ChainOk(s, h, chains[h]);
    HeadIsHome(s, h, chains[h]);
    forall g | 0 <= g < |t| ensures ChainOk(t, g, d[g]) {
      assert ChainOk(s, g, chains[g]);
      if g == h {
        assert LinkOk(t, h, d[h], 0);
      } else {
        OtherChainKept(s, t, g, chains[g]);
      }
    }
    assert Covered(t, d) by {
      forall i | 0 <= i < |t| ensures OnChain(t, d, i) {
        assert OnChain(s, chains, i);
      }
    }
    assert Planted(s, t, h, id, obj, h);
    PlantedIds(s, t, h, id, obj, h);
  }

  /** What taking `h` out of the chain `a + [h] + b` leaves. */
  lemma Unlink<T>(s: seq<Slot<T>>, t: seq<Slot<T>>, m: nat, a: seq<nat>, h: nat, b: seq<nat>)
    requires ChainOk(s, m, a + [h] + b) && a != [] && |t| == |s| > 0
    requires forall k | 0 <= k < |a| - 1 :: a[k] < |s| && t[a[k]] == s[a[k]]
    requires forall k | 0 <= k < |b| :: b[k] < |s| && t[b[k]] == s[b[k]]
    requires var p := a[|a| - 1]; h < |s| && p < |s| && s[p].Slot? && s[h].Slot? && t[p] == s[p].(next := s[h].next)
    ensures ChainOk(t, m, a + b)
  {
    var c, c1 := a + [h] + b, a + b;
    forall k | 0 <= k < |c1| ensures LinkOk(t, m, c1, k) {
      if k < |a| {
        assert LinkOk(s, m, c, k) && LinkOk(s, m, c, |a|);
      } else {
        assert LinkOk(s, m, c, k + 1) && c[k + 1] == c1[k];
      }
    }
    forall j, k | 0 <= j < k < |c1| ensures c1[j] != c1[k] {
      assert c1[j] == c[if j < |a| then j else j + 1] && c1[k] == c[if k < |a| then k else k + 1];
    }
  }

  lemma TakeOverCovers<T>(s: seq<Slot<T>>, chains: seq<seq<nat>>, t: seq<Slot<T>>, d: seq<seq<nat>>,
                          h: nat, m: nat, p: nat, a: seq<nat>, b: seq<nat>)
    requires Covered(s, chains) && |t| == |s| && h < |s| && m < |s| && p < |s| && h != m
    requires chains[m] == a + [h] + b && d == chains[m := a + b][h := [h]] && chains[h] == []
    requires forall i | 0 <= i < |s| && i != h && t[i].Slot? :: s[i].Slot? && t[i].id == s[i].id
    requires t[h].Slot? && Main(t[h].id, |t|) == h
    ensures Covered(t, d)
  {
    forall i | 0 <= i < |t| ensures OnChain(t, d, i) {
      assert OnChain(s, chains, i);
      if i != h && t[i].Slot? && Main(s[i].id, |s|) == m {
        assert i in a + [h] + b;
        assert i in a || i in b;
      }
    }
  }

  /** The main position holds a slot of another chain, which gives way: its predecessor skips it. */
  lemma TakeOver<T>(s: seq<Slot<T>>, chains: seq<seq<nat>>, id: nat, obj: T, a: seq<nat>, b: seq<nat>)
    requires TableOk(s, chains) && !HasId(s, id)
    requires var h := Main(id, |s|);
             s[h].Slot? && Main(s[h].id, |s|) != h && a != [] && chains[Main(s[h].id, |s|)] == a + [h] + b
    ensures var h := Main(id, |s|);
            var m := Main(s[h].id, |s|);
            var p := a[|a| - 1];
            && p < |s| && p != h && s[p].Slot?
            && TableOk(s[p := s[p].(next := s[h].next)][h := Fresh(id, obj, -1)], chains[m := a + b][h := [h]])
            && (forall i | 0 <= i < |s| && s[i].Slot? :: s[i].id == s[h].id ==> i == h)
  {
    hide HasId;
    var h := Main(id, |s|);
    var m := Main(s[h].id, |s|);
    var c := a + [h] + b;
    var p := a[|a| - 1];
    assert ChainOk(s, m, c) && ChainOk(s, h, chains[h]);
    assert c[|a| - 1] == p && c[|a|] == h;
    assert LinkOk(s, m, c, |a| - 1) && LinkOk(s, m, c, |a|);
    assert forall k | 0 <= k < |a| :: c[k] == a[k];
    assert forall k | 0 <= k < |b| :: c[|a| + 1 + k] == b[k];
    var t := s[p := s[p].(next := s[h].next)][h := Fresh(id, obj, -1)];
    var d := chains[m := a + b][h := [h]];
    HeadIsHome(s, h, chains[h]);
    assert ChainsOk(t, d) by {
      forall g | 0 <= g < |t| ensures ChainOk(t, g, d[g]) {
        assert ChainOk(s, g, chains[g]);
        if g == h {
          assert LinkOk(t, h, d[h], 0);
        } else if g == m {
          forall k | 0 <= k < |a| - 1 ensures a[k] < |s| && t[a[k]] == s[a[k]] {
            assert LinkOk(s, m, c, k);
          }
          forall k | 0 <= k < |b| ensures b[k] < |s| && t[b[k]] == s[b[k]] {
            assert LinkOk(s, m, c, |a| + 1 + k);
          }
          Unlink(s, t, m, a, h, b);
        } else {
          OtherChainKept(s, t, g, chains[g]);
        }
      }
    }
    TakeOverCovers(s, chains, t, d, h, m, p, a, b);
    assert Planted(s, t, h, id, obj, p);
    PlantedIds(s, t, h, id, obj, p);
  }

  lemma Relink<T>(s: seq<Slot<T>>, t: seq<Slot<T>>, m: nat, a: seq<nat>, h: nat, b: seq<nat>, n: nat)
    requires ChainOk(s, m, a + [h] + b) && a != [] && |t| == |s| > 0 && n < |s| && h < |s| && !s[n].Slot? && s[h].Slot?
    requires var p := a[|a| - 1]; p < |s| && s[p].Slot? && t[p] == s[p].(next := n) && t[n] == s[h]
    requires forall i | 0 <= i < |s| && i != n && i != h && i != a[|a| - 1] :: t[i] == s[i]
    ensures ChainOk(t, m, a + [n] + b)
  {
    var c, c1 := a + [h] + b, a + [n] + b;
    assert forall k | 0 <= k < |c| && k != |a| :: c1[k] == c[k];
    forall k | 0 <= k < |c1| ensures LinkOk(t, m, c1, k) {
      assert LinkOk(s, m, c, k);
      assert c[|a| - 1] == a[|a| - 1] && c[|a|] == h;
      if k > |a| {
        assert c[|a|] != c[k] && c[|a| - 1] != c[k];
      } else if k < |a| - 1 {
        assert c[k] != c[|a|] && c[k] != c[|a| - 1];
      }
    }
    forall j, k | 0 <= j < k < |c1| ensures c1[j] != c1[k] {
      assert LinkOk(s, m, c, j) && LinkOk(s, m, c, k);
    }
  }

  lemma MoveAwayCovers<T>(s: seq<Slot<T>>, chains: seq<seq<nat>>, t: seq<Slot<T>>, d: seq<seq<nat>>,
                          h: nat, m: nat, n: nat, a: seq<nat>, b: seq<nat>)
    requires Covered(s, chains) && |t| == |s| && h < |s| && m < |s| && n < |s| && h != m && n != h
    requires chains[m] == a + [h] + b && d == chains[m := a + [n] + b][h := [h]] && chains[h] == []
    requires forall i | 0 <= i < |s| && i != h && i != n && t[i].Slot? :: s[i].Slot? && t[i].id == s[i].id
    requires t[h].Slot? && Main(t[h].id, |t|) == h && t[n].Slot? && Main(t[n].id, |t|) == m
    ensures Covered(t, d)
  {
    forall i | 0 <= i < |t| ensures OnChain(t, d, i) {
      assert OnChain(s, chains, i);
      if i == n {
        assert n in a + [n] + b;
      } else if i != h && t[i].Slot? && Main(s[i].id, |s|) == m {
        assert i in a + [h] + b;
        assert i in a || i in b;
      }
    }
  }

  lemma MoveAwayIds<T>(s: seq<Slot<T>>, t: seq<Slot<T>>, h: nat, id: nat, n: nat)
    requires IdsOk(s) && |t| == |s| && h < |s| && n < |s| && h != n && s[h].Slot? && !s[n].Slot? && !HasId(s, id)
    requires t[h].Slot? && t[h].id == id && t[n] == s[h]
    requires forall i | 0 <= i < |s| && i != h && i != n && t[i].Slot? :: s[i].Slot? && t[i].id == s[i].id
    ensures IdsOk(t)
  {
    forall i, j | 0 <= i < j < |t| && t[i].Slot? && t[j].Slot? ensures t[i].id != t[j].id {
      var i0, j0 := if i == n then h else i, if j == n then h else j;
      if i != h {
        assert s[i0].Slot? && s[i0].id == t[i].id;
      }
      if j != h {
        assert s[j0].Slot? && s[j0].id == t[j].id;
      }
    }
  }

  /** The main position holds a slot of another chain, which moves to the free slot `n`, its place on the chain
      kept. */
  lemma MoveAway<T>(s: seq<Slot<T>>, chains: seq<seq<nat>>, id: nat, obj: T, a: seq<nat>, b: seq<nat>, n: nat)
    requires TableOk(s, chains) && !HasId(s, id) && n < |s| && !s[n].Slot?
    requires var h := Main(id, |s|);
             s[h].Slot? && Main(s[h].id, |s|) != h && a != [] && chains[Main(s[h].id, |s|)] == a + [h] + b
    ensures var h := Main(id, |s|);
            var m := Main(s[h].id, |s|);
            var p := a[|a| - 1];
            && p < |s| && p != h && p != n && s[p].Slot?
            && TableOk(s[p := s[p].(next := n)][n := s[h]][h := Fresh(id, obj, -1)],
                       chains[m := a + [n] + b][h := [h]])
  {
    hide HasId;
    var h := Main(id, |s|);
    var m := Main(s[h].id, |s|);
    var c := a + [h] + b;
    var p := a[|a| - 1];
    assert ChainOk(s, m, c) && ChainOk(s, h, chains[h]);
    assert c[|a| - 1] == p && c[|a|] == h;
    assert LinkOk(s, m, c, |a| - 1) && LinkOk(s, m, c, |a|);
    var t := s[p := s[p].(next := n)][n := s[h]][h := Fresh(id, obj, -1)];
    var d := chains[m := a + [n] + b][h := [h]];
    HeadIsHome(s, h, chains[h]);
    assert ChainsOk(t, d) by {
      forall g | 0 <= g < |t| ensures ChainOk(t, g, d[g]) {
        assert ChainOk(s, g, chains[g]);
        if g == h {
          assert LinkOk(t, h, d[h], 0);
        } else if g == m {
          Relink(s, t, m, a, h, b, n);
        } else {
          OtherChainKept(s, t, g, chains[g]);
        }
      }
    }
    MoveAwayCovers(s, chains, t, d, h, m, n, a, b);
    MoveAwayIds(s, t, h, id, n);
  }

  lemma LinkSecond<T>(s: seq<Slot<T>>, t: seq<Slot<T>>, h: nat, f: nat, b: seq<nat>)
    requires ChainOk(s, h, [h] + b) && |t| == |s| > 0 && f < |s| && h < |s| && f != h && !s[f].Slot?
    requires s[h].Slot? && t[f].Slot? && t[h] == s[h].(next := f) && t[f].next == s[h].next && Main(t[f].id, |t|) == h
    requires forall i | 0 <= i < |s| && i != f && i != h :: t[i] == s[i]
    ensures ChainOk(t, h, [h, f] + b)
  {
    var c, c1 := [h] + b, [h, f] + b;
    assert LinkOk(s, h, c, 0);
    forall k | 0 <= k < |c1| ensures LinkOk(t, h, c1, k) {
      if k >= 2 {
        assert c1[k] == c[k - 1] && LinkOk(s, h, c, k - 1) && c[0] != c[k - 1];
      }
    }
    forall j, k | 0 <= j < k < |c1| ensures c1[j] != c1[k] {
      if j != 1 && k != 1 {
        assert c1[j] == c[if j == 0 then 0 else j - 1] && c1[k] == c[k - 1];
      } else if j == 1 {
        assert c1[k] == c[k - 1] && LinkOk(s, h, c, k - 1);
      }
    }
  }

  /** The main position holds a slot of the same chain: the new one goes to a free slot, second in the
      chain. */
  lemma PlaceBehindHead<T>(s: seq<Slot<T>>, chains: seq<seq<nat>>, id: nat, obj: T, f: nat)
    requires TableOk(s, chains) && !HasId(s, id)
    requires f < |s| && !s[f].Slot?
    requires var h := Main(id, |s|); s[h].Slot? && Main(s[h].id, |s|) == h
    ensures var h := Main(id, |s|);
            && f != h && chains[h] != []
            && TableOk(s[f := Fresh(id, obj, s[h].next)][h := s[h].(next := f)], chains[h := [h, f] + chains[h][1..]])
  {
    hide HasId;
    var h := Main(id, |s|);
    var c := chains[h];
    assert ChainOk(s, h, c);
    assert h in c by { assert OnChain(s, chains, h); }
    var t := s[f := Fresh(id, obj, s[h].next)][h := s[h].(next := f)];
    var b := c[1..];
    var c1 := [h, f] + b;
    var d := chains[h := c1];
    assert c == [h] + b;
    assert ChainsOk(t, d) by {
      forall g | 0 <= g < |t| ensures ChainOk(t, g, d[g]) {
        assert ChainOk(s, g, chains[g]);
        if g == h {
          LinkSecond(s, t, h, f, b);
        } else {
          OtherChainKept(s, t, g, chains[g]);
        }
      }
    }
    assert Covered(t, d) by {
      forall i | 0 <= i < |t| ensures OnChain(t, d, i) {
        assert OnChain(s, chains, i);
        if i != f && i != h && s[i].Slot? && Main(s[i].id, |s|) == h {
          assert i in [h] + b;
          assert i in b;
        }
      }
    }
    assert Planted(s, t, f, id, obj, h);
    PlantedIds(s, t, f, id, obj, h);
  }

  // ---------------------------------------------------------------- walking a chain

  /** The walk along `next` from the main position: it either meets `id` or leaves the chain without it. */
  lemma WalkStarts<T>(s: seq<Slot<T>>, chains: seq<seq<nat>>, h: nat) returns (g: nat, k: nat)
    requires TableOk(s, chains) && h < |s| && s[h].Slot?
    ensures g < |s| == |chains| && k < |chains[g]| && chains[g][k] == h && (g == h ==> k == 0)
  {
    assert OnChain(s, chains, h);
    g := Main(s[h].id, |s|);
    k :| 0 <= k < |chains[g]| && chains[g][k] == h;
    assert ChainOk(s, g, chains[g]);
  }

  lemma StepOn<T>(s: seq<Slot<T>>, chains: seq<seq<nat>>, g: nat, j: nat)
    requires TableOk(s, chains) && g < |chains| && j < |chains[g]|
    ensures chains[g][j] < |s| && s[chains[g][j]].Slot?
    ensures var next := s[chains[g][j]].next;
            if j + 1 < |chains[g]| then next >= 0 && next == chains[g][j + 1] < |s| else next < 0
  {
    var c := chains[g];
    assert ChainOk(s, g, c) && LinkOk(s, g, c, j);
    if j + 1 < |c| {
      assert LinkOk(s, g, c, j + 1);
    }
  }

  lemma NotMet<T>(s: seq<Slot<T>>, chains: seq<seq<nat>>, id: nat, g: nat, k: nat)
    requires TableOk(s, chains) && g < |s| && k < |chains[g]|
    requires var h := Main(id, |s|); chains[g][k] == h && (g == h ==> k == 0)
    requires forall j | k <= j < |chains[g]| :: chains[g][j] < |s| && s[chains[g][j]].Slot? && s[chains[g][j]].id != id
    ensures !HasId(s, id)
  {
    var h := Main(id, |s|);
    var c := chains[h];
    OnlyOnOwnChain(s, chains, g, h);
    assert ChainOk(s, h, c);
    HeadIsHome(s, h, c);
    forall i | 0 <= i < |s| && s[i].Slot? ensures s[i].id != id {
      assert OnChain(s, chains, i);
      if Main(s[i].id, |s|) == h {
        var j :| 0 <= j < |c| && c[j] == i;
      }
    }
  }

  lemma BlankMain<T>(s: seq<Slot<T>>, chains: seq<seq<nat>>, id: nat)
    requires TableOk(s, chains) && !s[Main(id, |s|)].Slot?
    ensures !HasId(s, id)
  {
    var h := Main(id, |s|);
    assert ChainOk(s, h, chains[h]);
    HeadIsHome(s, h, chains[h]);
    forall i | 0 <= i < |s| && s[i].Slot? ensures s[i].id != id {
      assert OnChain(s, chains, i);
    }
  }

  /** Whether `id` finds its main position taken by a slot of another chain. */
  ghost predicate Foreign<T>(s: seq<Slot<T>>, id: nat)
    requires |s| > 0
  {
    var h := Main(id, |s|);
    s[h].Slot? && Main(s[h].id, |s|) != h
  }

  /** Where a foreign slot stands on its chain: not first. */
  lemma ForeignSpot<T>(s: seq<Slot<T>>, chains: seq<seq<nat>>, h: nat) returns (k: nat)
    requires TableOk(s, chains) && h < |s| && s[h].Slot? && Main(s[h].id, |s|) != h
    ensures |chains| == |s|
    ensures var c := chains[Main(s[h].id, |s|)];
            0 < k < |c| && c[k] == h && c[0] == Main(s[h].id, |s|) && (forall j | 0 <= j < k :: c[j] != h)
  {
    var g;
    g, k := WalkStarts(s, chains, h);
    OnlyOnOwnChain(s, chains, g, h);
    assert ChainOk(s, g, chains[g]);
  }

  // ---------------------------------------------------------------- free slots

  ghost function UsedSlots<T>(s: seq<Slot<T>>): set<nat> {
    set i: nat | i < |s| && s[i].Slot?
  }

  ghost predicate HasFree<T>(s: seq<Slot<T>>) {
    exists i | 0 <= i < |s| :: !s[i].Slot?
  }

  /** Everything above `lastfree` is used. */
  ghost predicate FreeBelow<T>(s: seq<Slot<T>>, lastfree: int) {
    -1 <= lastfree < |s| && forall i | lastfree < i < |s| :: s[i].Slot?
  }

  function Below(n: nat): (b: set<nat>)
    ensures |b| == n && forall i: nat :: i in b <==> i < n
  {
    if n == 0 then {} else Below(n - 1) + {n - 1}
  }

  lemma RoomLeft<T>(s: seq<Slot<T>>)
    requires |UsedSlots(s)| < |s|
    ensures HasFree(s)
  {
    assert !HasFree(s) ==> UsedSlots(s) == Below(|s|);
  }

  lemma Inside(a: set<nat>, b: set<nat>)
    requires a <= b
    ensures |a| <= |b|
  {
    assert b == a + (b - a);
  }

  lemma UsedGrows<T>(s: seq<Slot<T>>, t: seq<Slot<T>>, at: nat)
    requires |t| == |s| && forall i | 0 <= i < |s| && i != at :: t[i].Slot? ==> s[i].Slot?
    ensures |UsedSlots(t)| <= |UsedSlots(s)| + 1
    ensures at < |s| && s[at].Slot? ==> |UsedSlots(t)| <= |UsedSlots(s)|
  {
    var both := UsedSlots(s) + {at};
    assert UsedSlots(t) <= both;
    Inside(UsedSlots(t), both);
    if at < |s| && s[at].Slot? {
      assert both == UsedSlots(s);
    }
  }

  lemma StillFull<T>(s: seq<Slot<T>>, t: seq<Slot<T>>, lastfree: int)
    requires FreeBelow(s, lastfree) && |t| == |s| && forall i | 0 <= i < |s| :: s[i].Slot? ==> t[i].Slot?
    ensures FreeBelow(t, lastfree)
  {
  }

  lemma AllUsed<T>(s: seq<Slot<T>>)
    requires FreeBelow(s, -1)
    ensures !HasFree(s)
  {
  }

  lemma StepDown<T>(s: seq<Slot<T>>, f: int)
    requires FreeBelow(s, f) && f >= 0
    ensures f < |s| && (s[f].Slot? ==> FreeBelow(s, f - 1))
  {
  }

  lemma TableParts<T>(s: seq<Slot<T>>, chains: seq<seq<nat>>, lastfree: int)
    requires TableOk(s, chains) && FreeBelow(s, lastfree)
    ensures IdsOk(s) && |s| > 0 && |chains| == |s| && -1 <= lastfree < |s|
  {
  }

  lemma DoubleSize(k: nat)
    requires k > 0
    ensures Pow2(k) == 2 * Pow2(k - 1)
  {
  }

  // ---------------------------------------------------------------- what a table holds

  ghost predicate Holds<T>(s: seq<Slot<T>>, id: nat, obj: T) {
    exists i | 0 <= i < |s| :: s[i].Slot? && s[i].id == id && s[i].obj == obj
  }

  /** `m` is the map from ids to objects that the slots stand for. */
  ghost predicate Maps<T>(s: seq<Slot<T>>, m: map<nat, T>) {
    && (forall i | 0 <= i < |s| && s[i].Slot? :: s[i].id in m && m[s[i].id] == s[i].obj)
    && (forall id | id in m :: Holds(s, id, m[id]))
  }

  lemma HeldId<T>(s: seq<Slot<T>>, m: map<nat, T>, id: nat)
    requires Maps(s, m)
    ensures HasId(s, id) <==> id in m
  {
    if id in m {
      assert Holds(s, id, m[id]);
    }
  }

  function Without<T>(m: map<nat, T>, slot: Slot<T>): map<nat, T> {
    if slot.Slot? then m - {slot.id} else m
  }

  /** What planting `id` means for the table's map and its free slots. */
  lemma PlantedOk<T>(s: seq<Slot<T>>, t: seq<Slot<T>>, at: nat, id: nat, obj: T, p: nat, m: map<nat, T>, lastfree: int)
    requires IdsOk(s) && Maps(s, m) && FreeBelow(s, lastfree) && id !in m && Planted(s, t, at, id, obj, p)
    ensures Maps(t, Without(m, s[at])[id := obj]) && FreeBelow(t, lastfree)
    ensures |UsedSlots(t)| <= |UsedSlots(s)| + 1
    ensures s[at].Slot? ==> |UsedSlots(t)| <= |UsedSlots(s)| && (HasFree(s) ==> HasFree(t))
    ensures s[at].Slot? ==> s[at].id in m && m[s[at].id] == s[at].obj
  {
    UsedGrows(s, t, at);
    var m1 := Without(m, s[at])[id := obj];
    forall i | 0 <= i < |t| && t[i].Slot? ensures t[i].id in m1 && m1[t[i].id] == t[i].obj {
      if i != at {
        assert s[i].Slot? && t[i].id == s[i].id && t[i].obj == s[i].obj;
      }
    }
    forall x | x in m1 ensures Holds(t, x, m1[x]) {
      if x == id {
        assert t[at].id == id;
      } else {
        assert Holds(s, x, m[x]);
        var i :| 0 <= i < |s| && s[i].Slot? && s[i].id == x && s[i].obj == m[x];
        assert t[i].Slot? && t[i].id == x && t[i].obj == m[x];
      }
    }
    if HasFree(s) {
      var i :| 0 <= i < |s| && !s[i].Slot?;
      assert s[at].Slot? ==> !t[i].Slot?;
    }
  }

  /** Setting the object of a used slot. */
  lemma SetObject<T>(s: seq<Slot<T>>, chains: seq<seq<nat>>, m: map<nat, T>, lastfree: int, i: nat, obj: T)
    requires TableOk(s, chains) && Maps(s, m) && FreeBelow(s, lastfree) && i < |s| && s[i].Slot?
    ensures var t := s[i := s[i].(obj := obj)];
            && TableOk(t, chains) && Maps(t, m[s[i].id := obj]) && FreeBelow(t, lastfree)
            && s[i].id in m && s[i].obj == m[s[i].id]
  {
    var t := s[i := s[i].(obj := obj)];
    forall h | 0 <= h < |t| ensures ChainOk(t, h, chains[h]) {
      assert ChainOk(s, h, chains[h]);
      forall k | 0 <= k < |chains[h]| ensures LinkOk(t, h, chains[h], k) {
        assert LinkOk(s, h, chains[h], k);
      }
    }
    forall j | 0 <= j < |t| ensures OnChain(t, chains, j) {
      assert OnChain(s, chains, j);
    }
    var m1 := m[s[i].id := obj];
    forall x | x in m1 ensures Holds(t, x, m1[x]) {
      if x == s[i].id {
        assert t[i].id == x;
      } else {
        assert Holds(s, x, m[x]);
        var j :| 0 <= j < |s| && s[j].Slot? && s[j].id == x && s[j].obj == m[x];
        assert t[j] == s[j];
      }
    }
  }

  lemma Empty<T>(s: seq<Slot<T>>, chains: seq<seq<nat>>)
    requires |s| == |chains| > 0 && forall i | 0 <= i < |s| :: s[i] == Free && chains[i] == []
    ensures TableOk(s, chains) && Maps(s, map[]) && FreeBelow(s, |s| - 1) && UsedSlots(s) == {}
  {
    forall h | 0 <= h < |s| ensures ChainOk(s, h, chains[h]) {
    }
  }
}
