/** The area-of-interest engine put together: the space, and the hash table through which it finds its objects. */
module AoiEngine {
  import opened AoiMap
  import opened AoiSpace

  lemma DropTouchesOne(objs: Objects, hot: seq<Pair>, id: nat)
    ensures forall x | x in AfterDrop(objs, hot, id) :: x in objs
    ensures forall x | x in objs && x != id :: x in AfterDrop(objs, hot, id)
  {
  }

  class Engine {
    const space: Space
    /** A slot holds the object of its id, which `space` keeps under that id. */
    const table: Map<nat>

    ghost predicate Valid()
      reads this, space, table, table.slot
    {
      && space.Valid() && table.Valid()
      && table.Contents().Keys == space.objs.Keys && AreIds(space.objs)
    }

    constructor ()
      ensures Valid() && fresh(space) && fresh(table) && fresh(table.slot) && space.objs == map[] && space.hot == []
    {
      space := new Space();
      table := new Map<nat>();
    }

    /** Objects that `drop_object` has released leave the table: `map_drop` for each of them. */
    method ForgetReleased(ids: seq<nat>)
      requires space.Valid() && table.Valid() && AreIds(space.objs)
      requires space.objs.Keys <= table.Contents().Keys
      requires forall id | id in table.Contents() :: id in space.objs || id in ids
      requires forall id | id in ids :: id < INVALID_ID
      modifies table, table.slot
      ensures Valid() && table.slot == old(table.slot)
    {
      hide SpaceOk, Map<nat>.Valid;
      var i := 0;
      while i < |ids|
        invariant 0 <= i <= |ids| && table.Valid() && table.slot == old(table.slot)
        invariant space.objs.Keys <= table.Contents().Keys
        invariant forall id | id in table.Contents() :: id in space.objs || id in ids[i..]
      {
        assert ids[i] in ids;
        if ids[i] !in space.objs {
          var gone := table.Drop(ids[i]);
        }
        i := i + 1;
      }
    }

    /** `aoi_update`: the object is found or made through the table. */
    method Update(id: Id, modestring: string, pos: Pos, junk: (Pos, Pos))
      requires Valid()
      modifies space, table, table.slot
      ensures Valid() && (table.slot == old(table.slot) || fresh(table.slot)) && space.hot == old(space.hot)
      ensures 'd' in modestring ==> space.objs == AfterDrop(old(space.objs), space.hot, id)
      ensures 'd' !in modestring ==>
                id in space.objs && space.objs == old(space.objs)[id := space.objs[id]]
                && UpdatedTo(old(space.objs), space.hot, id, 'w' in modestring, 'm' in modestring, pos, space.objs[id])
    {
      hide UpdatedTo, SpaceOk, Map<nat>.Valid;
      ghost var was := space.objs;
      var obj := table.Query(id, id);
      space.Update(id, modestring, pos, junk);
      if 'd' in modestring {
        DropTouchesOne(was, space.hot, id);
      }
      ForgetReleased([id]);
    }

    /** `aoi_message`: the table gives the order in which its objects are looked at. */
    method Message() returns (calls: seq<(nat, nat)>)
      requires Valid()
      modifies space, table, table.slot
      ensures Valid() && table.slot == old(table.slot)
      ensures ObjectsAfter(old(space.objs), space.objs)
      ensures Once(calls) && forall w: nat, m: nat :: (w, m) in calls <==> Called(old(space.objs), old(space.hot), w, m)
      ensures forall p :: p in space.hot <==> HotAfter(old(space.objs), old(space.hot), p)
    {
      hide SpaceOk, Once, Called, HotAfter, Map<nat>.Valid;
      ghost var was := space.objs;
      var order := table.Visited();
      calls := space.Message(order);
      assert forall id | id in space.objs :: id in was;
      ForgetReleased(order);
    }
  }
}
