/** The object table of the area-of-interest engine as a finite map from ids to objects.

    A slot whose id is INVALID_ID is `Free` here, so INVALID_ID itself is not an id; dropping an object leaves
    its slot in place and only clears the object. */
module AoiMap {
  import opened Basics
  import opened HashChains

  const INVALID_ID: nat := 0xffff_ffff
  const PRE_ALLOC: nat := 16

  type Id = x: nat | x < INVALID_ID

  /** The entries whose object has not been dropped. */
  ghost function Live<T>(entries: map<nat, Option<T>>): map<nat, T> {
    map id | id in entries && entries[id].Some? :: entries[id].value
  }

  ghost predicate AreIds<T>(entries: map<nat, T>) {
    forall id | id in entries :: id < INVALID_ID
  }

  function Evicted<T>(s: seq<Slot<T>>, last: nat, h: nat, id: nat, obj: T): seq<Slot<T>>
    requires last < |s| && h < |s| && s[last].Slot? && s[h].Slot?
  {
    s[last := s[last].(next := s[h].next)][h := Fresh(id, obj, -1)]
  }

  ghost function Unlinked(chains: seq<seq<nat>>, m: nat, k: nat, h: nat): seq<seq<nat>>
    requires m < |chains| && k < |chains[m]| && h < |chains|
  {
    chains[m := chains[m][..k] + chains[m][k + 1..]][h := [h]]
  }

  /** The state between turning a foreign slot out and inserting its object again. */
  lemma Evict<T>(s: seq<Slot<T>>, chains: seq<seq<nat>>, id: nat, obj: T, last: nat, k: nat, m: map<nat, T>,
                 lastfree: int)
    requires TableOk(s, chains) && Maps(s, m) && FreeBelow(s, lastfree) && id !in m
    requires Foreign(s, id)
    requires var c := chains[Main(s[Main(id, |s|)].id, |s|)];
             0 < k < |c| && c[k] == Main(id, |s|) && c[k - 1] == last < |s|
    ensures s[last].Slot?
    ensures var h := Main(id, |s|);
            var t := Evicted(s, last, h, id, obj);
            var gone := s[h];
            && TableOk(t, Unlinked(chains, Main(gone.id, |s|), k, h)) && FreeBelow(t, lastfree)
            && Maps(t, (m - {gone.id})[id := obj]) && |UsedSlots(t)| <= |UsedSlots(s)|
            && (HasFree(s) ==> HasFree(t)) && !Foreign(t, gone.id)
            && gone.id != id && gone.id in m && m[gone.id] == gone.obj
  {
    hide Maps, FreeBelow, HasId, HasFree, UsedSlots, IdsOk;
    TableParts(s, chains, lastfree);
    var h := Main(id, |s|);
    var g := Main(s[h].id, |s|);
    var a, b := chains[g][..k], chains[g][k + 1..];
    assert chains[g] == a + [h] + b;
    HeldId(s, m, id);
    TakeOver(s, chains, id, obj, a, b);
    var t := Evicted(s, last, h, id, obj);
    assert Planted(s, t, h, id, obj, last);
    PlantedOk(s, t, h, id, obj, last, m, lastfree);
    assert ChainOk(s, g, chains[g]);
    HeadIsHome(s, g, chains[g]);
  }

  /** `c` holds the live objects of slots `0..n` of `s`. */
  ghost predicate Moved<T>(s: seq<Slot<Option<T>>>, n: int, m: map<nat, Option<T>>, c: map<nat, Option<T>>) {
    && 0 <= n <= |s| && Maps(s, m) && IdsOk(s)
    && (forall x | x in c :: x in m && c[x] == m[x] && c[x].Some?)
    && (forall x | x in m && m[x].Some? :: x in c <==> exists j | 0 <= j < n :: s[j].Slot? && s[j].id == x)
  }

  lemma MoveNone<T>(s: seq<Slot<Option<T>>>, m: map<nat, Option<T>>)
    requires Maps(s, m) && IdsOk(s)
    ensures Moved(s, 0, m, map[])
  {
  }

  lemma MoveOn<T>(s: seq<Slot<Option<T>>>, n: nat, m: map<nat, Option<T>>, c: map<nat, Option<T>>)
    requires n < |s| && Moved(s, n, m, c)
    ensures if s[n].Slot? && s[n].obj.Some?
            then s[n].id !in c && s[n].id in m && Moved(s, n + 1, m, c[s[n].id := s[n].obj])
            else Moved(s, n + 1, m, c)
  {
    if s[n].Slot? {
      assert forall j | 0 <= j < n && s[j].Slot? :: s[j].id != s[n].id;
    }
  }

  /** Where nothing is dropped, the live objects are all there is. */
  lemma AllLive<T>(c: map<nat, Option<T>>, e: map<nat, Option<T>>, id: nat, obj: T)
    requires forall x | x in c :: c[x].Some?
    requires Live(e) == Live(c)[id := obj] && e.Keys <= c.Keys + {id}
    ensures e == c[id := Some(obj)]
  {
    forall x | x in c || x == id ensures x in e && e[x] == c[id := Some(obj)][x] {
      assert x in Live(e);
    }
  }

  lemma MovedLive<T>(s: seq<Slot<Option<T>>>, n: int, m: map<nat, Option<T>>, c: map<nat, Option<T>>)
    requires Moved(s, n, m, c)
    ensures forall x | x in c :: c[x].Some?
  {
  }

  lemma AllMoved<T>(s: seq<Slot<Option<T>>>, m: map<nat, Option<T>>, c: map<nat, Option<T>>)
    requires Moved(s, |s|, m, c)
    ensures Live(c) == Live(m) && c.Keys <= m.Keys
  {
    forall x | x in m && m[x].Some? ensures x in c {
      assert Holds(s, x, m[x]);
    }
  }

  /** The ids of the first `n` slots that hold an object, in slot order. */
  function LiveIds<T>(s: seq<Slot<Option<T>>>, n: nat): (ids: seq<nat>)
    requires n <= |s|
    ensures forall id :: id in ids <==> exists i | 0 <= i < n :: s[i].Slot? && s[i].obj.Some? && s[i].id == id
  {
    if n == 0 then []
    else LiveIds(s, n - 1) + (if s[n - 1].Slot? && s[n - 1].obj.Some? then [s[n - 1].id] else [])
  }

  lemma {:induction false} LiveIdsOnce<T>(s: seq<Slot<Option<T>>>, n: nat)
    requires n <= |s| && IdsOk(s)
    ensures Distinct(LiveIds(s, n))
  {
    if n > 0 {
      LiveIdsOnce(s, n - 1);
      var ids := LiveIds(s, n - 1);
      if s[n - 1].Slot? && s[n - 1].obj.Some? {
        forall k | 0 <= k < |ids| ensures ids[k] != s[n - 1].id {
          assert ids[k] in ids;
        }
      }
    }
  }

  lemma LiveIdsAll<T>(s: seq<Slot<Option<T>>>, m: map<nat, Option<T>>)
    requires Maps(s, m)
    ensures forall id :: id in LiveIds(s, |s|) <==> id in Live(m)
  {
    forall id | id in Live(m) ensures id in LiveIds(s, |s|) {
      assert Holds(s, id, m[id]);
    }
  }

  class Map<T> {
    var lastfree: int
    var slot: array<Slot<Option<T>>>
    ghost var chains: seq<seq<nat>>
    /** What the used slots hold, dropped objects included. */
    ghost var entries: map<nat, Option<T>>
    ghost var bits: nat

    ghost predicate Valid()
      reads this, slot
    {
      && slot.Length == Pow2(bits)
      && TableOk(slot[..], chains)
      && FreeBelow(slot[..], lastfree)
      && Maps(slot[..], entries) && AreIds(entries)
    }

    /** The map from ids to objects that the table stands for. */
    ghost function Contents(): map<nat, T>
      reads this
    {
      Live(entries)
    }

    constructor ()
      ensures Valid() && fresh(slot) && Contents() == map[] && slot.Length == PRE_ALLOC
    {
      lastfree := PRE_ALLOC - 1;
      slot := new Slot<Option<T>>[PRE_ALLOC](i => Free);
      chains := seq(PRE_ALLOC, i => []);
      entries := map[];
      bits := 4;
    }

    /** The loop that `map_query` and `map_drop` share: the slot of `id`, or -1. */
    method Seek(id: Id) returns (i: int)
      requires Valid()
      ensures -1 <= i < slot.Length
      ensures if i >= 0 then slot[i].Slot? && slot[i].id == id else id !in entries
    {
      hide TableOk, ChainsOk, Maps, Pow2, HasId;
      var at := Main(id, slot.Length);
      ghost var s := slot[..];
      HeldId(s, entries, id);
      if slot[at].Free? {
        BlankMain(s, chains, id);
        return -1;
      }
      ghost var g, k := WalkStarts(s, chains, at);
      ghost var j := k;
      while true
        invariant k <= j < |chains[g]| && at < slot.Length && chains[g][j] == at
        invariant forall x | k <= x < j :: chains[g][x] < |s| && s[chains[g][x]].Slot? && s[chains[g][x]].id != id
        decreases |chains[g]| - j
      {
        StepOn(s, chains, g, j);
        if slot[at].id == id {
          return at;
        }
        if slot[at].next < 0 {
          NotMet(s, chains, id, g, k);
          return -1;
        }
        at := slot[at].next;
        j := j + 1;
      }
    }

    /** `map_insert`: `id` goes to its main position, turning out a slot of another chain, or to the last
        free slot; with none left the table doubles first. At most once: with a free slot left it never does. */
    method Insert(id: Id, obj: T)
      requires Valid() && id !in entries
      modifies this, slot
      ensures Valid() && Contents() == old(Contents())[id := obj] && entries.Keys <= old(entries.Keys) + {id}
      ensures HasFree(old(slot[..])) ==> slot == old(slot) && |UsedSlots(slot[..])| <= |UsedSlots(old(slot[..]))| + 1
      ensures slot == old(slot) || (fresh(slot) && slot.Length == 2 * old(slot.Length))
      decreases if HasFree(slot[..]) then 0 else 1, if Foreign(slot[..], id) then 1 else 0
    {
      hide TableOk, Maps, Pow2, FreeBelow, HasFree, UsedSlots, IdsOk;
      var h := Main(id, slot.Length);
      ghost var s := slot[..];
      TableParts(s, chains, lastfree);
      HeldId(s, entries, id);
      if slot[h].Free? {
        PlaceAtMain(s, chains, id, Some(obj));
        slot[h] := Slot(id, Some(obj), -1);
        chains := chains[h := [h]];
        assert Planted(s, slot[..], h, id, Some(obj), h);
        PlantedOk(s, slot[..], h, id, Some(obj), h, entries, lastfree);
        entries := entries[id := Some(obj)];
        assert slot[..] == s[h := Fresh(id, Some(obj), -1)];
        return;
      }
      if Main(slot[h].id, slot.Length) != h {
        TurnOut(id, obj);
        return;
      }
      while lastfree >= 0
        invariant slot == old(slot) && slot[..] == s && chains == old(chains) && entries == old(entries)
        invariant bits == old(bits) && -1 <= lastfree && FreeBelow(s, lastfree)
        decreases lastfree
      {
        var f := lastfree;
        StepDown(s, lastfree);
        lastfree := lastfree - 1;
        if slot[f].Free? {
          PlaceBehindHead(s, chains, id, Some(obj), f);
          slot[f] := Slot(id, Some(obj), slot[h].next);
          slot[h] := slot[h].(next := f);
          chains := chains[h := [h, f] + chains[h][1..]];
          assert slot[..] == s[f := Fresh(id, Some(obj), s[h].next)][h := s[h].(next := f)];
          assert Planted(s, slot[..], f, id, Some(obj), h);
          PlantedOk(s, slot[..], f, id, Some(obj), h, entries, f);
          entries := entries[id := Some(obj)];
          StepDown(slot[..], f);
          return;
        }
      }
      AllUsed(s);
      Rehash();
      Insert(id, obj);
    }

    /** `map_query`: the object of `id`, made if there is none. */
    method Query(id: Id, made: T) returns (obj: T)
      requires Valid()
      modifies this, slot
      ensures Valid()
      ensures Contents() == if id in old(Contents()) then old(Contents()) else old(Contents())[id := made]
      ensures obj == Contents()[id]
      ensures slot == old(slot) || fresh(slot)
    {
      hide TableOk, Maps, Pow2, FreeBelow;
      var i := Seek(id);
      ghost var s := slot[..];
      if i < 0 {
        Insert(id, made);
        return made;
      }
      SetObject(s, chains, entries, lastfree, i, Some(made));
      if slot[i].obj.None? {
        slot[i] := slot[i].(obj := Some(made));
        entries := entries[id := Some(made)];
        assert slot[..] == s[i := s[i].(obj := Some(made))];
        return made;
      }
      return slot[i].obj.value;
    }

    /** `map_drop`: takes the object of `id` out, leaving its slot in place. */
    method Drop(id: Id) returns (obj: Option<T>)
      requires Valid()
      modifies this, slot
      ensures Valid() && slot == old(slot)
      ensures Contents() == old(Contents()) - {id}
      ensures obj == if id in old(Contents()) then Some(old(Contents())[id]) else None
    {
      hide TableOk, Maps, Pow2, FreeBelow;
      var i := Seek(id);
      ghost var s := slot[..];
      if i < 0 {
        return None;
      }
      SetObject(s, chains, entries, lastfree, i, None);
      obj := slot[i].obj;
      slot[i] := slot[i].(obj := None);
      entries := entries[id := None];
      assert slot[..] == s[i := s[i].(obj := None)];
    }

    /** The walk from the main position of the slot at `h` to the slot that points to it. */
    method Predecessor(h: nat) returns (last: nat, ghost k: nat)
      requires Valid() && h < slot.Length && slot[h].Slot? && Main(slot[h].id, slot.Length) != h
      ensures var m := Main(slot[h].id, slot.Length);
              m < |chains| && 0 < k < |chains[m]| && chains[m][k] == h && chains[m][k - 1] == last < slot.Length
    {
      hide TableOk, Maps, Pow2, FreeBelow;
      ghost var s := slot[..];
      TableParts(s, chains, lastfree);
      last := Main(slot[h].id, slot.Length);
      ghost var m := last;
      k := ForeignSpot(s, chains, h);
      ghost var j: nat := 0;
      StepOn(s, chains, m, j);
      while slot[last].next != h
        invariant j < k && chains[m][j] == last < slot.Length
        invariant slot[last].Slot? && slot[last].next == chains[m][j + 1]
        decreases k - j
      {
        assert slot[last].next >= 0;
        last := slot[last].next;
        j := j + 1;
        StepOn(s, chains, m, j);
      }
      OnePlace(s, chains, m, j + 1, k);
    }

    /** The branch of `map_insert` in which the main position holds a slot of another chain. */
    method TurnOut(id: Id, obj: T)
      requires Valid() && id !in entries && Foreign(slot[..], id)
      modifies this, slot
      ensures Valid() && Contents() == old(Contents())[id := obj] && entries.Keys <= old(entries.Keys) + {id}
      ensures HasFree(old(slot[..])) ==> slot == old(slot) && |UsedSlots(slot[..])| <= |UsedSlots(old(slot[..]))| + 1
      ensures slot == old(slot) || (fresh(slot) && slot.Length == 2 * old(slot.Length))
      decreases if HasFree(slot[..]) then 0 else 1, 1, 0
    {
      hide TableOk, Maps, Pow2, FreeBelow, HasFree, UsedSlots, IdsOk, Unlinked;
      ghost var s := slot[..];
      TableParts(s, chains, lastfree);
      var h := Main(id, slot.Length);
      ghost var m := Main(slot[h].id, slot.Length);
      var last, k := Predecessor(h);
      Evict(s, chains, id, Some(obj), last, k, entries, lastfree);
      var temp := slot[h];
      slot[last] := slot[last].(next := slot[h].next);
      slot[h] := Slot(id, Some(obj), -1);
      chains := Unlinked(chains, m, k, h);
      assert slot[..] == Evicted(s, last, h, id, Some(obj));
      entries := (entries - {temp.id})[id := Some(obj)];
      if temp.obj.Some? {
        Insert(temp.id, temp.obj.value);
      }
    }

    /** `map_foreach`: meets every object once. */
    method Visited() returns (ids: seq<nat>)
      requires Valid()
      ensures Distinct(ids) && forall id :: id in ids <==> id in Contents()
    {
      hide Pow2, FreeBelow, Maps;
      ids := [];
      var i := 0;
      while i < slot.Length
        invariant 0 <= i <= slot.Length
        invariant ids == LiveIds(slot[..], i)
      {
        if slot[i].Slot? && slot[i].obj.Some? {
          ids := ids + [slot[i].id];
        }
        i := i + 1;
      }
      LiveIdsOnce(slot[..], slot.Length);
      LiveIdsAll(slot[..], entries);
    }

    /** `rehash`: twice the slots, and every object inserted again. */
    method Rehash()
      requires Valid()
      modifies this
      ensures Valid() && Contents() == old(Contents()) && entries.Keys <= old(entries.Keys)
      ensures fresh(slot) && slot.Length == 2 * old(slot.Length) && HasFree(slot[..])
      decreases 0, 2
    {
      hide TableOk, Maps, Pow2, FreeBelow, HasFree, UsedSlots, IdsOk, Moved;
      var oldSlot := slot;
      ghost var s, m := slot[..], entries;
      TableParts(s, chains, lastfree);
      slot := new Slot<Option<T>>[2 * oldSlot.Length](i => Free);
      lastfree := slot.Length - 1;
      chains := seq(slot.Length, i => []);
      entries := map[];
      bits := bits + 1;
      Empty(slot[..], chains);
      DoubleSize(bits);
      MoveNone(s, m);
      var i := 0;
      while i < oldSlot.Length
        invariant 0 <= i <= oldSlot.Length && oldSlot[..] == s
        invariant fresh(slot) && slot != oldSlot && slot.Length == 2 * |s|
        invariant Valid()
        invariant |UsedSlots(slot[..])| <= i
        invariant Moved(s, i, m, entries)
      {
        RoomLeft(slot[..]);
        MoveOn(s, i, m, entries);
        MovedLive(s, i, m, entries);
        if oldSlot[i].Slot? && oldSlot[i].obj.Some? {
          ghost var c := entries;
          Insert(oldSlot[i].id, oldSlot[i].obj.value);
          AllLive(c, entries, s[i].id, s[i].obj.value);
        }
        i := i + 1;
      }
      RoomLeft(slot[..]);
      AllMoved(s, m, entries);
    }
  }
}
