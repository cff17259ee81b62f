/** The hash table behind each node of the word filter's trie, as a finite map from runes to entries.

    A node with flag 0 is `Free`. */
module CrabTable {
  import opened HashChains

  /** `table_newkey` with a node of another chain in the main position: it moves to the free node `n`. */
  function Moved<T>(s: seq<Slot<T>>, last: nat, h: nat, n: nat, key: nat, made: T): seq<Slot<T>>
    requires last < |s| && h < |s| && n < |s| && s[last].Slot?
  {
    s[last := s[last].(next := n)][n := s[h]][h := Fresh(key, made, -1)]
  }

  ghost function Relinked(chains: seq<seq<nat>>, m: nat, k: nat, h: nat, n: nat): seq<seq<nat>>
    requires m < |chains| && k < |chains[m]| && h < |chains|
  {
    chains[m := chains[m][..k] + [n] + chains[m][k + 1..]][h := [h]]
  }

  lemma MovedOk<T>(s: seq<Slot<T>>, chains: seq<seq<nat>>, key: nat, made: T, last: nat, k: nat, n: nat, m: map<nat, T>,
                   lastfree: int)
    requires TableOk(s, chains) && Maps(s, m) && FreeBelow(s, lastfree) && key !in m && n < |s| && s[n].Free?
    requires Foreign(s, key)
    requires var c := chains[Main(s[Main(key, |s|)].id, |s|)];
             0 < k < |c| && c[k] == Main(key, |s|) && c[k - 1] == last < |s|
    ensures s[last].Slot? && last != Main(key, |s|) && last != n
    ensures var h := Main(key, |s|);
            var t := Moved(s, last, h, n, key, made);
            && TableOk(t, Relinked(chains, Main(s[h].id, |s|), k, h, n)) && FreeBelow(t, lastfree)
            && Maps(t, m[key := made]) && |UsedSlots(t)| <= |UsedSlots(s)| + 1
  {
    hide FreeBelow, HasId, HasFree, UsedSlots, IdsOk;
    TableParts(s, chains, lastfree);
    var h := Main(key, |s|);
    var g := Main(s[h].id, |s|);
    var a, b := chains[g][..k], chains[g][k + 1..];
    assert chains[g] == a + [h] + b;
    HeldId(s, m, key);
    MoveAway(s, chains, key, made, a, b, n);
    var t := Moved(s, last, h, n, key, made);
    StillFull(s, t, lastfree);
    UsedGrows(s, t, n);
    var m1 := m[key := made];
    forall x | x in m1 ensures Holds(t, x, m1[x]) {
      if x == key {
        assert t[h].id == key;
      } else {
        assert Holds(s, x, m[x]);
        var i :| 0 <= i < |s| && s[i].Slot? && s[i].id == x && s[i].obj == m[x];
        var i1 := if i == h then n else i;
        assert t[i1].Slot? && t[i1].id == x && t[i1].obj == m[x];
      }
    }
  }

  /** `c` is what nodes `0..n` of `s` hold. */
  ghost predicate Reinserted<T>(s: seq<Slot<T>>, n: int, m: map<nat, T>, c: map<nat, T>) {
    && 0 <= n <= |s| && Maps(s, m) && IdsOk(s)
    && (forall x | x in c :: x in m && c[x] == m[x])
    && (forall x | x in m :: x in c <==> exists j | 0 <= j < n :: s[j].Slot? && s[j].id == x)
  }

  lemma ReinsertNext<T>(s: seq<Slot<T>>, n: nat, m: map<nat, T>, c: map<nat, T>)
    requires n < |s| && Reinserted(s, n, m, c)
    ensures if s[n].Slot? then s[n].id !in c && Reinserted(s, n + 1, m, c[s[n].id := s[n].obj])
            else Reinserted(s, n + 1, m, c)
  {
    if s[n].Slot? {
      assert forall j | 0 <= j < n && s[j].Slot? :: s[j].id != s[n].id;
    }
  }

  lemma AllReinserted<T>(s: seq<Slot<T>>, m: map<nat, T>, c: map<nat, T>)
    requires Reinserted(s, |s|, m, c)
    ensures c == m
  {
    forall x | x in m ensures x in c {
      assert Holds(s, x, m[x]);
    }
  }

  lemma NoneReinserted<T>(s: seq<Slot<T>>, m: map<nat, T>)
    requires Maps(s, m) && IdsOk(s)
    ensures Reinserted(s, 0, m, map[])
  {
  }

  class RuneTable<T> {
    var lastfree: int
    var node: array<Slot<T>>
    ghost var chains: seq<seq<nat>>
    /** The map from runes to entries that the table stands for. */
    ghost var contents: map<nat, T>
    ghost var bits: nat

    ghost predicate Valid()
      reads this, node
    {
      && node.Length == Pow2(bits)
      && TableOk(node[..], chains)
      && FreeBelow(node[..], lastfree)
      && Maps(node[..], contents)
    }

    /** `table_new`: one empty node. */
    constructor ()
      ensures Valid() && fresh(node) && contents == map[]
    {
      lastfree := 0;
      node := new Slot<T>[1](i => Free);
      chains := [[]];
      contents := map[];
      bits := 0;
    }

    /** `table_get`: the node of `key`, or -1. */
    method Get(key: nat) returns (i: int)
      requires Valid()
      ensures -1 <= i < node.Length
      ensures if i >= 0 then node[i].Slot? && node[i].id == key && key in contents && contents[key] == node[i].obj
              else key !in contents
    {
      hide TableOk, ChainsOk, Pow2, HasId, FreeBelow;
      var n := Main(key, node.Length);
      ghost var s := node[..];
      HeldId(s, contents, key);
      if node[n].Free? {
        BlankMain(s, chains, key);
        return -1;
      }
      ghost var g, k := WalkStarts(s, chains, n);
      ghost var j := k;
      while node[n].Slot?
        invariant k <= j < |chains[g]| && n < node.Length && chains[g][j] == n && node[n].Slot?
        invariant forall x | k <= x < j :: chains[g][x] < |s| && s[chains[g][x]].Slot? && s[chains[g][x]].id != key
        decreases |chains[g]| - j
      {
        StepOn(s, chains, g, j);
        if node[n].id == key {
          return n;
        }
        if node[n].next < 0 {
          NotMet(s, chains, key, g, k);
          return -1;
        }
        n := node[n].next;
        j := j + 1;
        StepOn(s, chains, g, j);
      }
      return -1;
    }

    /** `getfreenode`. */
    method FreeNode() returns (n: int)
      requires Valid()
      modifies `lastfree
      ensures Valid() && n == lastfree < node.Length
      ensures if n >= 0 then node[n].Free? else !HasFree(node[..])
    {
      hide TableOk, Maps, Pow2, FreeBelow;
      ghost var s := node[..];
      TableParts(s, chains, lastfree);
      while lastfree >= 0
        invariant -1 <= lastfree < |s| && FreeBelow(s, lastfree)
        decreases lastfree
      {
        if node[lastfree].Free? {
          return lastfree;
        }
        StepDown(s, lastfree);
        lastfree := lastfree - 1;
      }
      AllUsed(s);
      n := lastfree;
    }

    /** The walk of `table_newkey` from the main position of the node at `h` to the node that points to it. */
    method Predecessor(h: nat) returns (othern: nat, ghost k: nat)
      requires Valid() && h < node.Length && node[h].Slot? && Main(node[h].id, node.Length) != h
      ensures var m := Main(node[h].id, node.Length);
              m < |chains| && 0 < k < |chains[m]| && chains[m][k] == h && chains[m][k - 1] == othern < node.Length
      ensures node[othern].Slot?
    {
      hide TableOk, Maps, Pow2, FreeBelow;
      ghost var s := node[..];
      TableParts(s, chains, lastfree);
      othern := Main(node[h].id, node.Length);
      ghost var m := othern;
      k := ForeignSpot(s, chains, h);
      ghost var j: nat := 0;
      StepOn(s, chains, m, j);
      while node[othern].next != h
        invariant j < k && chains[m][j] == othern < node.Length
        invariant node[othern].Slot? && node[othern].next == chains[m][j + 1]
        decreases k - j
      {
        othern := node[othern].next;
        j := j + 1;
        StepOn(s, chains, m, j);
      }
      OnePlace(s, chains, m, j + 1, k);
    }

    /** `table_newkey`: the node of a new key. A table with a free node never grows, so growth is never nested. */
    method NewKey(key: nat, made: T) returns (i: nat)
      requires Valid() && key !in contents
      modifies this, node
      ensures Valid() && contents == old(contents)[key := made]
      ensures i < node.Length && node[i].Slot? && node[i].id == key && node[i].obj == made
      ensures HasFree(old(node[..])) ==> node == old(node) && |UsedSlots(node[..])| <= |UsedSlots(old(node[..]))| + 1
      ensures node == old(node) || (fresh(node) && node.Length == 2 * old(node.Length))
      decreases if HasFree(node[..]) then 0 else 1, 0
    {
      hide TableOk, Maps, Pow2, FreeBelow, HasFree, UsedSlots, IdsOk, Relinked;
      var mp := Main(key, node.Length);
      ghost var s := node[..];
      TableParts(s, chains, lastfree);
      HeldId(s, contents, key);
      if node[mp].Free? {
        PlaceAtMain(s, chains, key, made);
        node[mp] := Slot(key, made, -1);
        chains := chains[mp := [mp]];
        assert Planted(s, node[..], mp, key, made, mp);
        PlantedOk(s, node[..], mp, key, made, mp, contents, lastfree);
        contents := contents[key := made];
        assert node[..] == s[mp := Fresh(key, made, -1)];
        return mp;
      }
      var n := FreeNode();
      if n < 0 {
        Expand();
        i := NewKey(key, made);
        return;
      }
      if Main(node[mp].id, node.Length) != mp {
        ghost var m := Main(node[mp].id, node.Length);
        var othern, k := Predecessor(mp);
        MovedOk(s, chains, key, made, othern, k, n, contents, lastfree);
        node[othern] := node[othern].(next := n);
        node[n] := node[mp];
        node[mp] := Slot(key, made, -1);
        chains := Relinked(chains, m, k, mp, n);
        contents := contents[key := made];
        assert node[..] == Moved(s, othern, mp, n, key, made);
        return mp;
      }
      PlaceBehindHead(s, chains, key, made, n);
      node[n] := Slot(key, made, node[mp].next);
      node[mp] := node[mp].(next := n);
      chains := chains[mp := [mp, n] + chains[mp][1..]];
      assert node[..] == s[n := Fresh(key, made, s[mp].next)][mp := s[mp].(next := n)];
      assert Planted(s, node[..], n, key, made, mp);
      PlantedOk(s, node[..], n, key, made, mp, contents, lastfree);
      contents := contents[key := made];
      return n;
    }

    /** `table_expand`: twice the nodes, and every entry inserted again. */
    method Expand()
      requires Valid()
      modifies this
      ensures Valid() && contents == old(contents)
      ensures fresh(node) && node.Length == 2 * old(node.Length) && HasFree(node[..])
      decreases 0, 1
    {
      hide TableOk, Maps, Pow2, FreeBelow, HasFree, UsedSlots, IdsOk, Reinserted;
      var oldNode := node;
      ghost var s, m := node[..], contents;
      TableParts(s, chains, lastfree);
      node := new Slot<T>[2 * oldNode.Length](i => Free);
      lastfree := node.Length - 1;
      chains := seq(node.Length, i => []);
      contents := map[];
      bits := bits + 1;
      Empty(node[..], chains);
      DoubleSize(bits);
      NoneReinserted(s, m);
      var i := 0;
      while i < oldNode.Length
        invariant 0 <= i <= oldNode.Length && oldNode[..] == s
        invariant fresh(node) && node != oldNode && node.Length == 2 * |s|
        invariant Valid()
        invariant |UsedSlots(node[..])| <= i
        invariant Reinserted(s, i, m, contents)
      {
        RoomLeft(node[..]);
        ReinsertNext(s, i, m, contents);
        if oldNode[i].Slot? {
          var k := NewKey(oldNode[i].id, oldNode[i].obj);
        }
        i := i + 1;
      }
      RoomLeft(node[..]);
      AllReinserted(s, m, contents);
    }

    /** Writing the flag or the value of a node. */
    method SetEntry(i: nat, obj: T)
      requires Valid() && i < node.Length && node[i].Slot?
      modifies this, node
      ensures Valid() && node == old(node) && node[i] == old(node[i]).(obj := obj)
      ensures contents == old(contents)[old(node[i].id) := obj]
    {
      hide TableOk, Maps, Pow2, FreeBelow;
      ghost var s := node[..];
      HashChains.SetObject(s, chains, contents, lastfree, i, obj);
      node[i] := node[i].(obj := obj);
      contents := contents[s[i].id := obj];
      assert node[..] == s[i := s[i].(obj := obj)];
    }
  }
}
