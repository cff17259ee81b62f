/** The area-of-interest engine on top of its object table: reference counts, hot pairs and messages.

    An object stands for the memory behind its id; that the table finds it again is proved in `AoiMap`. */
module AoiSpace {
  import opened Basics

  /** AOI_RADIS2. */
  const RADIUS2: real := 100.0

  datatype Pos = Pos(x: real, y: real, z: real)

  function Dist2(p: Pos, q: Pos): real {
    (p.x - q.x) * (p.x - q.x) + (p.y - q.y) * (p.y - q.y) + (p.z - q.z) * (p.z - q.z)
  }

  /** The four mode bits. */
  datatype Mode = Mode(watcher: bool, marker: bool, moved: bool, dropped: bool)

  const NO_MODE := Mode(false, false, false, false)
  const MODE_DROP := Mode(false, false, false, true)

  datatype Object = Object(ref: int, version: nat, mode: Mode, last: Pos, position: Pos)

  datatype Pair = Pair(watcher: nat, marker: nat, watcherVersion: nat, markerVersion: nat) {
    function Ids(): (nat, nat) {
      (watcher, marker)
    }
  }

  type Objects = map<nat, Object>

  /** Memory fresh from the allocator keeps whatever positions it held. */
  function NewObject(last: Pos, position: Pos): Object {
    Object(1, 0, NO_MODE, last, position)
  }

  // ---------------------------------------------------------------- counting references

  function Sides(p: Pair, id: nat): nat {
    (if p.watcher == id then 1 else 0) + (if p.marker == id then 1 else 0)
  }

  /** How often an id stands in the list of hot pairs. */
  function Occurs(hot: seq<Pair>, id: nat): nat {
    if hot == [] then 0 else Sides(hot[0], id) + Occurs(hot[1..], id)
  }

  lemma {:induction false} OccursConcat(a: seq<Pair>, b: seq<Pair>, id: nat)
    ensures Occurs(a + b, id) == Occurs(a, id) + Occurs(b, id)
  {
    if a == [] {
      assert a + b == b;
    } else {
      OccursConcat(a[1..], b, id);
      assert (a + b)[0] == a[0] && (a + b)[1..] == a[1..] + b;
    }
  }

  /** Taking one pair out of the list. */
  lemma OccursBetween(a: seq<Pair>, p: Pair, b: seq<Pair>, id: nat)
    ensures Occurs(a + [p] + b, id) == Occurs(a + b, id) + Sides(p, id)
  {
    OccursConcat(a + [p], b, id);
    OccursConcat(a, [p], id);
    OccursConcat(a, b, id);
    assert [p][1..] == [];
  }

  lemma {:induction false} OccursIn(hot: seq<Pair>, id: nat)
    ensures Occurs(hot, id) > 0 <==> exists k | 0 <= k < |hot| :: hot[k].watcher == id || hot[k].marker == id
  {
    if hot != [] {
      OccursIn(hot[1..], id);
      if Occurs(hot[1..], id) > 0 {
        var k :| 0 <= k < |hot[1..]| && (hot[1..][k].watcher == id || hot[1..][k].marker == id);
        assert hot[k + 1] == hot[1..][k];
      }
      forall k | 0 < k < |hot| && (hot[k].watcher == id || hot[k].marker == id) ensures Occurs(hot[1..], id) > 0 {
        assert hot[1..][k - 1] == hot[k];
      }
    }
  }

  function Base(o: Object): int {
    if o.mode.dropped then 0 else 1
  }

  /** The references an id should have: one unless it is dropped or unknown, and one for each hot pair side. */
  function Count(objs: Objects, hot: seq<Pair>, id: nat): int {
    (if id in objs then Base(objs[id]) else 0) + Occurs(hot, id)
  }

  /** Every count is right, and an object is there exactly while its count is positive. */
  ghost predicate RefsOk(objs: Objects, hot: seq<Pair>) {
    && (forall id | id in objs :: objs[id].ref == Count(objs, hot, id))
    && (forall id: nat :: id in objs <==> Count(objs, hot, id) > 0)
  }

  /** `drop_object`. */
  function Released(objs: Objects, id: nat): Objects
    requires id in objs
  {
    var o := objs[id].(ref := objs[id].ref - 1);
    if o.ref <= 0 then objs - {id} else objs[id := o]
  }

  /** The objects of `b` are those of `a` with other counts; only dropped ones may be missing. */
  ghost predicate SameButRefs(a: Objects, b: Objects) {
    && (forall id | id in b :: id in a && b[id] == a[id].(ref := b[id].ref))
    && (forall id | id in a && !a[id].mode.dropped :: id in b)
  }

  /** `drop_pair` on a pair of two different objects. */
  lemma DropPairKeeps(objs: Objects, a: seq<Pair>, p: Pair, b: seq<Pair>)
    requires RefsOk(objs, a + [p] + b) && p.watcher != p.marker
    ensures p.watcher in objs && p.marker in Released(objs, p.watcher)
    ensures var left := Released(Released(objs, p.watcher), p.marker);
            RefsOk(left, a + b) && SameButRefs(objs, left)
  {
    OccursBetween(a, p, b, p.watcher);
    OccursBetween(a, p, b, p.marker);
    assert Count(objs, a + [p] + b, p.watcher) > 0 && Count(objs, a + [p] + b, p.marker) > 0;
    var left := Released(Released(objs, p.watcher), p.marker);
    forall id: nat ensures (id in left <==> Count(left, a + b, id) > 0)
                           && (id in left ==> left[id].ref == Count(left, a + b, id)) {
      OccursBetween(a, p, b, id);
      assert id in objs <==> Count(objs, a + [p] + b, id) > 0;
    }
  }

  // ---------------------------------------------------------------- hot pairs

  predicate Near(objs: Objects, w: nat, m: nat)
    requires w in objs && m in objs
  {
    Dist2(objs[w].position, objs[m].position) < RADIUS2
  }

  predicate Far(objs: Objects, w: nat, m: nat)
    requires w in objs && m in objs
  {
    Dist2(objs[w].position, objs[m].position) > RADIUS2 * 4.0
  }

  /** Neither side of the pair was updated or dropped since it became hot. */
  predicate Current(objs: Objects, p: Pair)
    requires p.watcher in objs && p.marker in objs
  {
    && objs[p.watcher].version == p.watcherVersion && objs[p.marker].version == p.markerVersion
    && !objs[p.watcher].mode.dropped && !objs[p.marker].mode.dropped
  }

  /** A side that is still current is watching (or marking) and has not moved. */
  ghost predicate PairOk(objs: Objects, p: Pair) {
    && p.watcher in objs && p.marker in objs && p.watcher != p.marker
    && p.watcherVersion <= objs[p.watcher].version && p.markerVersion <= objs[p.marker].version
    && var w, m := objs[p.watcher], objs[p.marker];
    && (p.watcherVersion == w.version && !w.mode.dropped ==> w.mode.watcher && !w.mode.moved)
    && (p.markerVersion == m.version && !m.mode.dropped ==> m.mode.marker && !m.mode.moved)
  }

  ghost predicate PairsOk(objs: Objects, hot: seq<Pair>) {
    forall k | 0 <= k < |hot| :: PairOk(objs, hot[k])
  }

  ghost predicate NoRepeat(hot: seq<Pair>) {
    forall j, k | 0 <= j < k < |hot| :: hot[j].Ids() != hot[k].Ids()
  }

  ghost predicate ModesOk(objs: Objects) {
    forall id | id in objs && objs[id].mode.dropped :: objs[id].mode == MODE_DROP
  }

  ghost predicate SpaceOk(objs: Objects, hot: seq<Pair>) {
    RefsOk(objs, hot) && PairsOk(objs, hot) && NoRepeat(hot) && ModesOk(objs)
  }

  /** The pairs that `flush_pair` reports, and those it keeps. */
  predicate Reported(objs: Objects, p: Pair)
    requires p.watcher in objs && p.marker in objs
  {
    Current(objs, p) && Near(objs, p.watcher, p.marker)
  }

  predicate Kept(objs: Objects, p: Pair)
    requires p.watcher in objs && p.marker in objs
  {
    Current(objs, p) && !Near(objs, p.watcher, p.marker) && !Far(objs, p.watcher, p.marker)
  }

  ghost function HotCalls(objs: Objects, hot: seq<Pair>, n: nat): (calls: seq<(nat, nat)>)
    requires n <= |hot| && PairsOk(objs, hot)
  {
    if n == 0 then []
    else
      assert PairOk(objs, hot[n - 1]);
      HotCalls(objs, hot, n - 1) + (if Reported(objs, hot[n - 1]) then [hot[n - 1].Ids()] else [])
  }

  ghost function HotKept(objs: Objects, hot: seq<Pair>, n: nat): (kept: seq<Pair>)
    requires n <= |hot| && PairsOk(objs, hot)
  {
    if n == 0 then []
    else
      assert PairOk(objs, hot[n - 1]);
      HotKept(objs, hot, n - 1) + (if Kept(objs, hot[n - 1]) then [hot[n - 1]] else [])
  }

  // ---------------------------------------------------------------- generating pairs

  /** The ordered pairs of a watcher list and a marker list, in the order of the two loops. */
  function Row(w: nat, ms: seq<nat>, n: nat): seq<(nat, nat)>
    requires n <= |ms|
  {
    if n == 0 then [] else Row(w, ms, n - 1) + [(w, ms[n - 1])]
  }

  function Grid(ws: seq<nat>, ms: seq<nat>, n: nat): seq<(nat, nat)>
    requires n <= |ws|
  {
    if n == 0 then [] else Grid(ws, ms, n - 1) + Row(ws[n - 1], ms, |ms|)
  }

  ghost predicate AllIn(objs: Objects, g: seq<(nat, nat)>) {
    forall k | 0 <= k < |g| :: g[k].0 in objs && g[k].1 in objs
  }

  function IfNear(objs: Objects, w: nat, m: nat): seq<(nat, nat)>
    requires w in objs && m in objs
  {
    if w != m && Near(objs, w, m) then [(w, m)] else []
  }

  function IfBetween(objs: Objects, w: nat, m: nat): seq<Pair>
    requires w in objs && m in objs
  {
    if w != m && !Near(objs, w, m) && !Far(objs, w, m)
    then [Pair(w, m, objs[w].version, objs[m].version)] else []
  }

  /** What `gen_pair` reports of a list of pairs, and what it puts on the hot list, newest first. */
  ghost function GenCalls(objs: Objects, g: seq<(nat, nat)>): seq<(nat, nat)>
    requires AllIn(objs, g)
  {
    if g == [] then []
    else
      var (w, m) := g[|g| - 1];
      GenCalls(objs, g[..|g| - 1]) + IfNear(objs, w, m)
  }

  ghost function GenHot(objs: Objects, g: seq<(nat, nat)>): seq<Pair>
    requires AllIn(objs, g)
  {
    if g == [] then []
    else
      var (w, m) := g[|g| - 1];
      IfBetween(objs, w, m) + GenHot(objs, g[..|g| - 1])
  }

  // ---------------------------------------------------------------- updates

  /** `is_near`: within half the radius of where the last move was counted. */
  predicate IsNear(p: Pos, q: Pos) {
    Dist2(p, q) < RADIUS2 * 0.25
  }

  /** `change_mode`: the new mode and whether it counts as a change. */
  function ChangeMode(mode: Mode, watcher: bool, marker: bool): (r: (Mode, bool))
    ensures r.0 == mode.(watcher := watcher, marker := marker)
    ensures r.1 <==> mode == NO_MODE || mode.watcher != watcher || mode.marker != marker
  {
    if mode == NO_MODE then
      var m1 := if watcher then mode.(watcher := true) else mode;
      (if marker then m1.(marker := true) else m1, true)
    else
      var (m1, c1) :=
        if watcher then (if !mode.watcher then (mode.(watcher := true), true) else (mode, false))
        else (if mode.watcher then (mode.(watcher := false), true) else (mode, false));
      if marker then (if !m1.marker then (m1.(marker := true), true) else (m1, c1))
      else (if m1.marker then (m1.(marker := false), true) else (m1, c1))
  }

  /** Whether an update counts as a move: a new, dropped or re-moded object always does, another one when it
      has come far enough since the last counted move. */
  predicate CountsAsMove(objs: Objects, id: nat, watcher: bool, marker: bool, pos: Pos) {
    || id !in objs || objs[id].mode.dropped || objs[id].mode == NO_MODE
    || objs[id].mode.watcher != watcher || objs[id].mode.marker != marker
    || !IsNear(pos, objs[id].last)
  }

  /** What dropping `id` leaves: nothing if no hot pair holds it, else the dropped object. */
  function AfterDrop(objs: Objects, hot: seq<Pair>, id: nat): Objects {
    if id !in objs || objs[id].mode.dropped then objs
    else if Occurs(hot, id) == 0 then objs - {id}
    else objs[id := objs[id].(ref := Occurs(hot, id), mode := MODE_DROP)]
  }

  lemma DropKeeps(objs: Objects, hot: seq<Pair>, id: nat)
    requires SpaceOk(objs, hot)
    ensures SpaceOk(AfterDrop(objs, hot, id), hot)
  {
    var left := AfterDrop(objs, hot, id);
    forall x: nat ensures (x in left <==> Count(left, hot, x) > 0)
                          && (x in left ==> left[x].ref == Count(left, hot, x)) {
      assert x in objs <==> Count(objs, hot, x) > 0;
    }
    forall k | 0 <= k < |hot| ensures PairOk(left, hot[k]) {
      assert PairOk(objs, hot[k]);
      OccursIn(hot, hot[k].watcher);
      OccursIn(hot, hot[k].marker);
    }
  }

  /** An object `n` that replaces `id` after an update that does not drop it. */
  ghost predicate UpdatedTo(objs: Objects, hot: seq<Pair>, id: nat, watcher: bool, marker: bool, pos: Pos, n: Object) {
    && n.ref == 1 + Occurs(hot, id)
    && n.mode.watcher == watcher && n.mode.marker == marker && !n.mode.dropped && n.position == pos
    && if CountsAsMove(objs, id, watcher, marker, pos)
       then n.mode.moved && n.last == pos && n.version == (if id in objs then objs[id].version else 0) + 1
       else n.mode.moved == objs[id].mode.moved && n.last == objs[id].last && n.version == objs[id].version
  }

  lemma UpdateKeeps(objs: Objects, hot: seq<Pair>, id: nat, watcher: bool, marker: bool, pos: Pos, n: Object)
    requires SpaceOk(objs, hot) && UpdatedTo(objs, hot, id, watcher, marker, pos, n)
    ensures SpaceOk(objs[id := n], hot)
  {
    var left := objs[id := n];
    forall x: nat ensures (x in left <==> Count(left, hot, x) > 0)
                          && (x in left ==> left[x].ref == Count(left, hot, x)) {
      assert x in objs <==> Count(objs, hot, x) > 0;
    }
    forall k | 0 <= k < |hot| ensures PairOk(left, hot[k]) {
      assert PairOk(objs, hot[k]);
    }
  }

  // ---------------------------------------------------------------- messages: the flush

  /** The state of the flush loop after the first `n` pairs of `hot`. */
  ghost predicate FlushedTo(was: Objects, hot: seq<Pair>, n: nat, objs: Objects) {
    && n <= |hot| && PairsOk(was, hot) && RefsOk(objs, HotKept(was, hot, n) + hot[n..]) && SameButRefs(was, objs)
  }

  lemma FlushStep(was: Objects, hot: seq<Pair>, n: nat, objs: Objects)
    requires FlushedTo(was, hot, n, objs) && n < |hot|
    ensures var p := hot[n];
            && p.watcher in was && p.marker in was && p.watcher in objs && p.marker in objs && p.watcher != p.marker
            && Current(objs, p) == Current(was, p) && objs[p.watcher].position == was[p.watcher].position
            && objs[p.marker].position == was[p.marker].position
            && p.marker in Released(objs, p.watcher)
            && FlushedTo(was, hot, n + 1, if Kept(was, p) then objs else Released(Released(objs, p.watcher), p.marker))
  {
    var p := hot[n];
    assert PairOk(was, p);
    var kept := HotKept(was, hot, n);
    assert hot[n..] == [p] + hot[n + 1..];
    assert kept + hot[n..] == kept + [p] + hot[n + 1..];
    DropPairKeeps(objs, kept, p, hot[n + 1..]);
    assert HotKept(was, hot, n + 1) == if Kept(was, p) then kept + [p] else kept + [];
    assert kept + [] == kept;
  }

  lemma FlushStarts(objs: Objects, hot: seq<Pair>)
    requires SpaceOk(objs, hot)
    ensures FlushedTo(objs, hot, 0, objs)
  {
    assert HotKept(objs, hot, 0) + hot[0..] == hot;
  }

  ghost predicate Once(calls: seq<(nat, nat)>) {
    forall j, k | 0 <= j < k < |calls| :: calls[j] != calls[k]
  }

  /** What the kept and reported pairs are. */
  lemma {:induction false} HotSplit(objs: Objects, hot: seq<Pair>, n: nat)
    requires n <= |hot| && PairsOk(objs, hot) && NoRepeat(hot)
    ensures forall p :: p in HotKept(objs, hot, n) <==>
              exists k | 0 <= k < n :: p == hot[k] && PairOk(objs, p) && Kept(objs, p)
    ensures forall c :: c in HotCalls(objs, hot, n) <==>
              exists k | 0 <= k < n :: c == hot[k].Ids() && PairOk(objs, hot[k]) && Reported(objs, hot[k])
    ensures NoRepeat(HotKept(objs, hot, n)) && Once(HotCalls(objs, hot, n))
  {
    if n > 0 {
      HotSplit(objs, hot, n - 1);
      assert PairOk(objs, hot[n - 1]);
      var kept, calls := HotKept(objs, hot, n - 1), HotCalls(objs, hot, n - 1);
      forall k | 0 <= k < |kept| ensures kept[k].Ids() != hot[n - 1].Ids() {
        assert kept[k] in kept;
      }
      forall k | 0 <= k < |calls| ensures calls[k] != hot[n - 1].Ids() {
        assert calls[k] in calls;
      }
    }
  }

  lemma FlushEnds(was: Objects, hot: seq<Pair>, objs: Objects)
    requires SpaceOk(was, hot) && FlushedTo(was, hot, |hot|, objs)
    ensures SpaceOk(objs, HotKept(was, hot, |hot|)) && SameButRefs(was, objs)
    ensures forall p | p in HotKept(was, hot, |hot|) :: PairOk(objs, p) && Current(objs, p)
  {
    var kept := HotKept(was, hot, |hot|);
    HotSplit(was, hot, |hot|);
    assert kept + hot[|hot|..] == kept;
    forall k | 0 <= k < |kept| ensures PairOk(objs, kept[k]) && Current(objs, kept[k]) {
      var p := kept[k];
      assert p in kept;
      OccursIn(kept, p.watcher);
      OccursIn(kept, p.marker);
      assert Count(objs, kept, p.watcher) > 0 && Count(objs, kept, p.marker) > 0;
    }
  }

  // ---------------------------------------------------------------- messages: sorting the objects

  /** What `set_push` leaves of an object: watchers and markers lose the move bit. */
  function Settle(o: Object): Object {
    o.(mode := o.mode.(moved := o.mode.moved && !o.mode.watcher && !o.mode.marker))
  }

  /** The ids among the first `n` of `order` that watch (or mark) and have moved or not, as asked. */
  predicate Wanted(objs: Objects, id: nat, watching: bool, moved: bool) {
    && id in objs && objs[id].mode.moved == moved
    && (if watching then objs[id].mode.watcher else objs[id].mode.marker)
  }

  function Pick(objs: Objects, order: seq<nat>, n: nat, watching: bool, moved: bool): seq<nat>
    requires n <= |order|
  {
    if n == 0 then []
    else Pick(objs, order, n - 1, watching, moved)
         + (if Wanted(objs, order[n - 1], watching, moved) then [order[n - 1]] else [])
  }

  ghost predicate Lists(order: seq<nat>, objs: Objects) {
    Distinct(order) && forall id | id in objs :: id in order
  }

  lemma {:induction false} PickMembers(objs: Objects, order: seq<nat>, n: nat, watching: bool, moved: bool)
    requires n <= |order| && Distinct(order)
    ensures var picked := Pick(objs, order, n, watching, moved);
            && Distinct(picked)
            && forall id :: id in picked <==> id in order[..n] && Wanted(objs, id, watching, moved)
  {
    if n > 0 {
      PickMembers(objs, order, n - 1, watching, moved);
      var picked := Pick(objs, order, n - 1, watching, moved);
      assert order[..n] == order[..n - 1] + [order[n - 1]];
      forall k | 0 <= k < |picked| ensures picked[k] != order[n - 1] {
        assert picked[k] in picked;
      }
    }
  }

  /** The first `n` objects of `order` are settled. */
  ghost predicate SettledTo(was: Objects, order: seq<nat>, n: nat, objs: Objects) {
    && n <= |order| && objs.Keys == was.Keys
    && forall id | id in was :: objs[id] == if id in order[..n] then Settle(was[id]) else was[id]
  }

  lemma SettleStarts(was: Objects, order: seq<nat>)
    ensures SettledTo(was, order, 0, was)
  {
  }

  lemma SettleStep(was: Objects, order: seq<nat>, n: nat, objs: Objects)
    requires SettledTo(was, order, n, objs) && Distinct(order) && n < |order|
    ensures order[n] in objs <==> order[n] in was
    ensures order[n] in objs ==> objs[order[n]] == was[order[n]]
    ensures SettledTo(was, order, n + 1, if order[n] in was then objs[order[n] := Settle(was[order[n]])] else objs)
  {
    assert order[..n + 1] == order[..n] + [order[n]];
    assert forall k | 0 <= k < n :: order[k] != order[n];
  }

  lemma SettleKeeps(was: Objects, order: seq<nat>, objs: Objects, hot: seq<Pair>)
    requires SpaceOk(was, hot) && SettledTo(was, order, |order|, objs)
    ensures SpaceOk(objs, hot)
    ensures (forall p | p in hot :: PairOk(was, p) && Current(was, p)) ==>
              forall p | p in hot :: PairOk(objs, p) && Current(objs, p)
  {
    forall x: nat ensures (x in objs <==> Count(objs, hot, x) > 0)
                          && (x in objs ==> objs[x].ref == Count(objs, hot, x)) {
      assert x in was <==> Count(was, hot, x) > 0;
    }
    forall k | 0 <= k < |hot| ensures PairOk(objs, hot[k]) && (Current(was, hot[k]) ==> Current(objs, hot[k])) {
      assert PairOk(was, hot[k]);
    }
  }

  // ---------------------------------------------------------------- messages: the new pairs

  lemma {:induction false} RowMembers(w: nat, ms: seq<nat>, n: nat)
    requires n <= |ms|
    ensures forall c :: c in Row(w, ms, n) <==> c.0 == w && c.1 in ms[..n]
    ensures Distinct(ms) ==> Once(Row(w, ms, n))
  {
    if n > 0 {
      RowMembers(w, ms, n - 1);
      var row := Row(w, ms, n - 1);
      assert ms[..n] == ms[..n - 1] + [ms[n - 1]];
      forall k | 0 <= k < |row| ensures row[k].0 == w && row[k].1 in ms[..n - 1] {
        assert row[k] in row;
      }
    }
  }

  lemma OnceConcat(a: seq<(nat, nat)>, b: seq<(nat, nat)>)
    requires Once(a) && Once(b) && forall c | c in a :: c !in b
    ensures Once(a + b)
  {
    var ab := a + b;
    forall j, k | 0 <= j < k < |ab| ensures ab[j] != ab[k] {
      if j < |a| <= k {
        assert ab[j] in a && ab[k] in b;
      }
    }
  }

  lemma {:induction false} GridMembers(ws: seq<nat>, ms: seq<nat>, n: nat)
    requires n <= |ws|
    ensures forall c :: c in Grid(ws, ms, n) <==> c.0 in ws[..n] && c.1 in ms
    ensures Distinct(ws) && Distinct(ms) ==> Once(Grid(ws, ms, n))
  {
    if n > 0 {
      GridMembers(ws, ms, n - 1);
      RowMembers(ws[n - 1], ms, |ms|);
      assert ms[..|ms|] == ms;
      assert ws[..n] == ws[..n - 1] + [ws[n - 1]];
      if Distinct(ws) && Distinct(ms) {
        OnceConcat(Grid(ws, ms, n - 1), Row(ws[n - 1], ms, |ms|));
      }
    }
  }

  /** The exact contents of what `gen_pair` reports, and of what it remembers. */
  lemma {:induction false} GenCallMembers(objs: Objects, g: seq<(nat, nat)>)
    requires AllIn(objs, g)
    ensures forall c ::
              c in GenCalls(objs, g) <==> c in g && c.0 in objs && c.1 in objs && c.0 != c.1 && Near(objs, c.0, c.1)
    ensures Once(g) ==> Once(GenCalls(objs, g))
  {
    hide Near;
    if g != [] {
      var n := |g| - 1;
      var rest, last := g[..n], g[n];
      assert g == rest + [last];
      GenCallMembers(objs, rest);
      if Once(g) {
        var calls := GenCalls(objs, rest);
        assert forall k | 0 <= k < n :: rest[k] == g[k] && g[k] != last;
        forall k | 0 <= k < |calls| ensures calls[k] != last {
          assert calls[k] in calls;
        }
      }
    }
  }

  /** A pair `gen_pair` remembers: two objects further apart than the radius, but not by more than the radius. */
  predicate NewPair(objs: Objects, p: Pair) {
    && p.watcher in objs && p.marker in objs && p.watcher != p.marker
    && !Near(objs, p.watcher, p.marker) && !Far(objs, p.watcher, p.marker)
    && p.watcherVersion == objs[p.watcher].version && p.markerVersion == objs[p.marker].version
  }

  lemma {:induction false} GenHotMembers(objs: Objects, g: seq<(nat, nat)>)
    requires AllIn(objs, g)
    ensures forall p :: p in GenHot(objs, g) <==> p.Ids() in g && NewPair(objs, p)
    ensures Once(g) ==> NoRepeat(GenHot(objs, g))
  {
    hide Near, Far;
    if g != [] {
      var n := |g| - 1;
      var rest, last := g[..n], g[n];
      assert g == rest + [last];
      GenHotMembers(objs, rest);
      var hot, new1 := GenHot(objs, rest), IfBetween(objs, last.0, last.1);
      assert GenHot(objs, g) == new1 + hot;
      forall p ensures p in GenHot(objs, g) <==> p.Ids() in g && NewPair(objs, p) {
        assert p in new1 <==> p.Ids() == last && NewPair(objs, p);
        assert p.Ids() in g <==> p.Ids() == last || p.Ids() in rest;
      }
      if Once(g) {
        assert forall k | 0 <= k < n :: rest[k] == g[k] && g[k] != last;
        forall k | 0 <= k < |hot| ensures hot[k].Ids() != last {
          assert hot[k] in hot;
        }
      }
    }
  }

  /** The state after the pairs `g` were generated from `base`. */
  ghost predicate GenOk(base: Objects, kept: seq<Pair>, g: seq<(nat, nat)>, objs: Objects, hot: seq<Pair>) {
    && AllIn(base, g) && objs.Keys == base.Keys && SameButRefs(base, objs)
    && hot == GenHot(base, g) + kept && RefsOk(objs, hot)
  }

  function Grabbed(objs: Objects, id: nat): Objects
    requires id in objs
  {
    objs[id := objs[id].(ref := objs[id].ref + 1)]
  }

  lemma SameDistance(a: Objects, b: Objects, w: nat, m: nat)
    requires w in a && w in b && a[w].position == b[w].position
    requires m in a && m in b && a[m].position == b[m].position
    ensures Near(a, w, m) == Near(b, w, m) && Far(a, w, m) == Far(b, w, m)
  {
  }

  lemma GrabKeeps(objs: Objects, hot: seq<Pair>, p: Pair)
    requires RefsOk(objs, hot) && p.watcher in objs && p.marker in objs && p.watcher != p.marker
    ensures var objs1 := Grabbed(Grabbed(objs, p.watcher), p.marker);
            RefsOk(objs1, [p] + hot) && objs1.Keys == objs.Keys
  {
    var hot1, objs1 := [p] + hot, Grabbed(Grabbed(objs, p.watcher), p.marker);
    assert hot1[1..] == hot;
    forall x: nat ensures (x in objs1 <==> Count(objs1, hot1, x) > 0)
                          && (x in objs1 ==> objs1[x].ref == Count(objs1, hot1, x)) {
      assert x in objs <==> Count(objs, hot, x) > 0;
    }
  }

  lemma GenNext(objs: Objects, g: seq<(nat, nat)>, w: nat, m: nat)
    requires AllIn(objs, g) && w in objs && m in objs
    ensures AllIn(objs, g + [(w, m)])
    ensures GenCalls(objs, g + [(w, m)]) == GenCalls(objs, g) + IfNear(objs, w, m)
    ensures GenHot(objs, g + [(w, m)]) == IfBetween(objs, w, m) + GenHot(objs, g)
  {
    hide Near, Far;
    var g1 := g + [(w, m)];
    assert g1[..|g1| - 1] == g;
  }

  /** `calls` is what the pairs of `g1` behind those of `g` report. */
  ghost predicate Told(base: Objects, g: seq<(nat, nat)>, calls: seq<(nat, nat)>, g1: seq<(nat, nat)>) {
    AllIn(base, g) && AllIn(base, g1) && GenCalls(base, g) + calls == GenCalls(base, g1)
  }

  lemma ToldStarts(base: Objects, g: seq<(nat, nat)>)
    requires AllIn(base, g)
    ensures Told(base, g, [], g)
  {
    assert GenCalls(base, g) + [] == GenCalls(base, g);
  }

  lemma ToldNext(base: Objects, g: seq<(nat, nat)>, calls: seq<(nat, nat)>, g1: seq<(nat, nat)>, w: nat, m: nat)
    requires Told(base, g, calls, g1) && w in base && m in base
    ensures Told(base, g, calls + IfNear(base, w, m), g1 + [(w, m)])
  {
    hide GenCalls, AllIn, Near;
    GenNext(base, g1, w, m);
    Assoc(GenCalls(base, g), calls, IfNear(base, w, m));
  }

  lemma ToldIs(base: Objects, g: seq<(nat, nat)>, calls: seq<(nat, nat)>, g1: seq<(nat, nat)>)
    requires Told(base, g, calls, g1)
    ensures AllIn(base, g) && AllIn(base, g1) && GenCalls(base, g) + calls == GenCalls(base, g1)
  {
  }

  lemma GridNone(ws: seq<nat>, ms: seq<nat>, g: seq<(nat, nat)>)
    ensures g + Grid(ws, ms, 0) == g
  {
  }

  lemma RowNone(w: nat, ms: seq<nat>, g: seq<(nat, nat)>)
    ensures g + Row(w, ms, 0) == g
  {
  }

  lemma RowNext(w: nat, ms: seq<nat>, j: nat, g: seq<(nat, nat)>)
    requires j < |ms|
    ensures g + Row(w, ms, j + 1) == g + Row(w, ms, j) + [(w, ms[j])]
  {
    Assoc(g, Row(w, ms, j), [(w, ms[j])]);
  }

  lemma GridNext(ws: seq<nat>, ms: seq<nat>, i: nat, g: seq<(nat, nat)>)
    requires i < |ws|
    ensures g + Grid(ws, ms, i + 1) == g + Grid(ws, ms, i) + Row(ws[i], ms, |ms|)
  {
    Assoc(g, Grid(ws, ms, i), Row(ws[i], ms, |ms|));
  }

  lemma GenAt(base: Objects, kept: seq<Pair>, g: seq<(nat, nat)>, objs: Objects, hot: seq<Pair>)
    requires GenOk(base, kept, g, objs, hot)
    ensures AllIn(base, g)
  {
  }

  lemma GenStep(base: Objects, kept: seq<Pair>, g: seq<(nat, nat)>, objs: Objects, hot: seq<Pair>, w: nat, m: nat)
    requires GenOk(base, kept, g, objs, hot) && w in base && m in base
    ensures w in objs && m in objs && Near(objs, w, m) == Near(base, w, m) && Far(objs, w, m) == Far(base, w, m)
    ensures IfBetween(objs, w, m) == IfBetween(base, w, m)
    ensures if IfBetween(base, w, m) != []
            then GenOk(base, kept, g + [(w, m)], Grabbed(Grabbed(objs, w), m), IfBetween(base, w, m) + hot)
            else GenOk(base, kept, g + [(w, m)], objs, hot)
  {
    hide RefsOk, Near, Far, GenCalls, GenHot;
    assert objs[w] == base[w].(ref := objs[w].ref) && objs[m] == base[m].(ref := objs[m].ref);
    SameDistance(base, objs, w, m);
    GenNext(base, g, w, m);
    Assoc(IfBetween(base, w, m), GenHot(base, g), kept);
    if IfBetween(base, w, m) != [] {
      GrabKeeps(objs, hot, IfBetween(base, w, m)[0]);
    }
  }

  // ---------------------------------------------------------------- messages: what they report

  /** Two objects that are there, alive, watching and marking. */
  predicate Paired(objs: Objects, w: nat, m: nat) {
    && w in objs && m in objs && w != m
    && !objs[w].mode.dropped && !objs[m].mode.dropped && objs[w].mode.watcher && objs[m].mode.marker
  }

  ghost predicate StillHot(objs: Objects, hot: seq<Pair>, w: nat, m: nat) {
    exists k | 0 <= k < |hot| :: hot[k].Ids() == (w, m) && PairOk(objs, hot[k]) && Current(objs, hot[k])
  }

  /** A pair whose distance a message looks at: it is hot and still current, or one side has moved. */
  ghost predicate LookedAt(objs: Objects, hot: seq<Pair>, w: nat, m: nat) {
    Paired(objs, w, m) && (objs[w].mode.moved || objs[m].mode.moved || StillHot(objs, hot, w, m))
  }

  ghost predicate Called(objs: Objects, hot: seq<Pair>, w: nat, m: nat) {
    LookedAt(objs, hot, w, m) && Near(objs, w, m)
  }

  ghost predicate HotAfter(objs: Objects, hot: seq<Pair>, p: Pair) {
    LookedAt(objs, hot, p.watcher, p.marker) && NewPair(objs, p)
  }

  lemma Square(d: real, r: real)
    requires r > 0.0
    ensures d * d >= 0.0 && (d * d < r * r <==> -r < d < r) && (d * d <= r * r <==> -r <= d <= r)
  {
    var a := if d < 0.0 then -d else d;
    assert a * a == d * d;
    if a < r {
      assert a * a <= a * r && a * r < r * r;
    } else if a > r {
      assert a * a >= a * r && a * r > r * r;
    }
  }

  /** What a distance below a bound means for the coordinates. */
  lemma WithinAxes(dx: real, dy: real, dz: real, r: real)
    requires r > 0.0
    ensures dx * dx + dy * dy + dz * dz < r * r ==> -r < dx < r && -r < dy < r && -r < dz < r
    ensures dx == 0.0 && dy == 0.0 ==> (dx * dx + dy * dy + dz * dz < r * r <==> -r < dz < r)
    ensures dx == 0.0 && dy == 0.0 ==> (dx * dx + dy * dy + dz * dz <= r * r <==> -r <= dz <= r)
  {
    Square(dx, r);
    Square(dy, r);
    Square(dz, r);
  }

  lemma StillHotMeans(objs: Objects, hot: seq<Pair>, w: nat, m: nat)
    requires SpaceOk(objs, hot) && Paired(objs, w, m)
    ensures StillHot(objs, hot, w, m) <==>
              exists k | 0 <= k < |hot| ::
                && hot[k].watcher == w && hot[k].marker == m
                && hot[k].watcherVersion == objs[w].version && hot[k].markerVersion == objs[m].version
  {
    hide RefsOk, NoRepeat, ModesOk;
    forall k | 0 <= k < |hot| ensures PairOk(objs, hot[k]) {
    }
    assert forall k | 0 <= k < |hot| :: hot[k].Ids() == (hot[k].watcher, hot[k].marker);
  }

  /** A message calls back a pair exactly if both are alive, the one watching and the other marking, one has moved or
      the pair is hot and neither was updated since, and they are less than 10 apart. */
  lemma CalledMeans(objs: Objects, hot: seq<Pair>, w: nat, m: nat)
    requires SpaceOk(objs, hot)
    ensures Called(objs, hot, w, m) <==>
              && w in objs && m in objs && w != m
              && objs[w].mode.watcher && !objs[w].mode.dropped && objs[m].mode.marker && !objs[m].mode.dropped
              && (objs[w].mode.moved || objs[m].mode.moved
                  || exists k | 0 <= k < |hot| ::
                       && hot[k].watcher == w && hot[k].marker == m
                       && hot[k].watcherVersion == objs[w].version && hot[k].markerVersion == objs[m].version)
              && var p, q := objs[w].position, objs[m].position;
                 (p.x - q.x) * (p.x - q.x) + (p.y - q.y) * (p.y - q.y) + (p.z - q.z) * (p.z - q.z) < 100.0
  {
    if Paired(objs, w, m) {
      StillHotMeans(objs, hot, w, m);
    }
    hide StillHot, SpaceOk;
  }

  /** In coordinates: a pair that is called back is closer than 10 along every axis, and of two objects one above the
      other that is all it takes; a pair that is kept hot is then between 10 and 20 apart. */
  lemma CallsInReach(objs: Objects, hot: seq<Pair>, p: Pair)
    requires LookedAt(objs, hot, p.watcher, p.marker)
    ensures var a, b := objs[p.watcher].position, objs[p.marker].position;
            var dx, dy, dz := a.x - b.x, a.y - b.y, a.z - b.z;
            && (Called(objs, hot, p.watcher, p.marker) ==>
                  -10.0 < dx < 10.0 && -10.0 < dy < 10.0 && -10.0 < dz < 10.0)
            && (dx == 0.0 && dy == 0.0 ==>
                  && (Called(objs, hot, p.watcher, p.marker) <==> -10.0 < dz < 10.0)
                  && (HotAfter(objs, hot, p) ==> (10.0 <= dz <= 20.0 || -20.0 <= dz <= -10.0)))
            && (HotAfter(objs, hot, p) <==>
                  && 100.0 <= dx * dx + dy * dy + dz * dz <= 400.0
                  && p.watcherVersion == objs[p.watcher].version && p.markerVersion == objs[p.marker].version)
  {
    hide StillHot;
    var a, b := objs[p.watcher].position, objs[p.marker].position;
    var d := Dist2(a, b);
    WithinAxes(a.x - b.x, a.y - b.y, a.z - b.z, 10.0);
    WithinAxes(a.x - b.x, a.y - b.y, a.z - b.z, 20.0);
    assert Called(objs, hot, p.watcher, p.marker) <==> d < 100.0;
    assert Far(objs, p.watcher, p.marker) <==> d > 400.0;
    hide Dist2;
  }

  /** An update that leaves the mode of a known object alone counts as a move exactly if the object is 5 or more away
      from where its last move was counted. */
  lemma MoveCounts(objs: Objects, id: nat, pos: Pos)
    requires id in objs && !objs[id].mode.dropped && objs[id].mode != NO_MODE
    ensures var o := objs[id];
            var dx, dy, dz := pos.x - o.last.x, pos.y - o.last.y, pos.z - o.last.z;
            && (CountsAsMove(objs, id, o.mode.watcher, o.mode.marker, pos) <==> dx * dx + dy * dy + dz * dz >= 25.0)
            && (dx == 0.0 && dy == 0.0 ==>
                  (CountsAsMove(objs, id, o.mode.watcher, o.mode.marker, pos) <==> dz >= 5.0 || dz <= -5.0))
  {
    var o := objs[id];
    WithinAxes(pos.x - o.last.x, pos.y - o.last.y, pos.z - o.last.z, 5.0);
  }

  /** The pairs that the three calls of `gen_pair_list` go through. */
  function Walked(ws: seq<nat>, wm: seq<nat>, ms: seq<nat>, mm: seq<nat>): seq<(nat, nat)> {
    Grid(ws, mm, |ws|) + Grid(wm, ms, |wm|) + Grid(wm, mm, |wm|)
  }

  predicate MovedPair(objs: Objects, w: nat, m: nat) {
    && w in objs && m in objs && objs[w].mode.watcher && objs[m].mode.marker
    && (objs[w].mode.moved || objs[m].mode.moved)
  }

  /** The pairs walked are those with a side that has moved. */
  ghost predicate WalkedOk(was: Objects, g: seq<(nat, nat)>) {
    && Once(g)
    && forall c :: c in g <==> MovedPair(was, c.0, c.1)
  }

  lemma WalkedMembers(was: Objects, order: seq<nat>, ws: seq<nat>, wm: seq<nat>, ms: seq<nat>, mm: seq<nat>)
    requires Lists(order, was)
    requires ws == Pick(was, order, |order|, true, false) && wm == Pick(was, order, |order|, true, true)
    requires ms == Pick(was, order, |order|, false, false) && mm == Pick(was, order, |order|, false, true)
    ensures WalkedOk(was, Walked(ws, wm, ms, mm))
  {
    var n := |order|;
    PickMembers(was, order, n, true, false);
    PickMembers(was, order, n, true, true);
    PickMembers(was, order, n, false, false);
    PickMembers(was, order, n, false, true);
    assert order[..n] == order;
    assert ws[..|ws|] == ws && wm[..|wm|] == wm;
    GridMembers(ws, mm, |ws|);
    GridMembers(wm, ms, |wm|);
    GridMembers(wm, mm, |wm|);
    OnceConcat(Grid(ws, mm, |ws|), Grid(wm, ms, |wm|));
    OnceConcat(Grid(ws, mm, |ws|) + Grid(wm, ms, |wm|), Grid(wm, mm, |wm|));
  }

  /** The objects a message leaves: those not dropped, settled. */
  ghost predicate ObjectsAfter(was: Objects, objs: Objects) {
    && (forall id :: id in objs <==> id in was && !was[id].mode.dropped)
    && (forall id | id in objs :: objs[id] == Settle(was[id]).(ref := objs[id].ref))
  }

  /** Everything between the two states of a message: the flushed objects `f`, settled to `s`. */
  ghost predicate MessageOk(was: Objects, list: seq<Pair>, f: Objects, s: Objects, order: seq<nat>) {
    && SpaceOk(was, list) && SameButRefs(was, f) && SpaceOk(f, HotKept(was, list, |list|))
    && (forall p | p in HotKept(was, list, |list|) :: PairOk(f, p) && Current(f, p))
    && Lists(order, was) && SettledTo(f, order, |order|, s)
  }

  lemma SameEntry(was: Objects, list: seq<Pair>, f: Objects, s: Objects, order: seq<nat>, id: nat)
    requires MessageOk(was, list, f, s, order)
    ensures id in s ==> id in was && s[id] == Settle(was[id]).(ref := s[id].ref)
    ensures id in was && !was[id].mode.dropped ==> id in s
    ensures id in was && (was[id].mode.watcher || was[id].mode.marker) ==> !was[id].mode.dropped
  {
    assert order[..|order|] == order;
  }

  lemma SameNew(was: Objects, list: seq<Pair>, f: Objects, s: Objects, order: seq<nat>, p: Pair)
    requires MessageOk(was, list, f, s, order) && Paired(was, p.watcher, p.marker)
    ensures NewPair(s, p) <==> NewPair(was, p)
    ensures p.watcher in s && p.marker in s && Near(s, p.watcher, p.marker) == Near(was, p.watcher, p.marker)
  {
    hide MessageOk, Near, Far;
    SameEntry(was, list, f, s, order, p.watcher);
    SameEntry(was, list, f, s, order, p.marker);
    SameDistance(was, s, p.watcher, p.marker);
  }

  /** A hot pair that is still current joins a watcher and a marker that have not moved. */
  lemma CurrentIsPaired(objs: Objects, hot: seq<Pair>, p: Pair)
    requires ModesOk(objs) && PairOk(objs, p) && Current(objs, p)
    ensures Paired(objs, p.watcher, p.marker)
    ensures !objs[p.watcher].mode.moved && !objs[p.marker].mode.moved
  {
  }

  lemma StillHotIsStill(objs: Objects, hot: seq<Pair>)
    requires ModesOk(objs)
    ensures forall w: nat, m: nat | StillHot(objs, hot, w, m) :: Paired(objs, w, m) && !MovedPair(objs, w, m)
  {
    forall w: nat, m: nat | StillHot(objs, hot, w, m) ensures Paired(objs, w, m) && !MovedPair(objs, w, m) {
      var k :| 0 <= k < |hot| && hot[k].Ids() == (w, m) && PairOk(objs, hot[k]) && Current(objs, hot[k]);
      CurrentIsPaired(objs, hot, hot[k]);
    }
  }

  lemma HotCallsExact(was: Objects, list: seq<Pair>)
    requires SpaceOk(was, list)
    ensures Once(HotCalls(was, list, |list|))
    ensures forall w: nat, m: nat :: (w, m) in HotCalls(was, list, |list|) <==>
              StillHot(was, list, w, m) && Paired(was, w, m) && Near(was, w, m)
  {
    hide Near, Far;
    HotSplit(was, list, |list|);
    StillHotIsStill(was, list);
    forall w: nat, m: nat | (w, m) in HotCalls(was, list, |list|) ensures StillHot(was, list, w, m) && Near(was, w, m) {
      var k :| 0 <= k < |list| && (w, m) == list[k].Ids() && PairOk(was, list[k]) && Reported(was, list[k]);
    }
  }

  lemma NewCallsExact(was: Objects, list: seq<Pair>, f: Objects, s: Objects, order: seq<nat>, g: seq<(nat, nat)>)
    requires MessageOk(was, list, f, s, order) && WalkedOk(was, g) && AllIn(s, g)
    ensures Once(GenCalls(s, g))
    ensures forall w: nat, m: nat :: (w, m) in GenCalls(s, g) <==>
              Paired(was, w, m) && MovedPair(was, w, m) && Near(was, w, m)
  {
    hide Near, Far, MessageOk;
    GenCallMembers(s, g);
    forall w: nat, m: nat
      ensures (w, m) in GenCalls(s, g) <==> Paired(was, w, m) && MovedPair(was, w, m) && Near(was, w, m)
    {
      SameEntry(was, list, f, s, order, w);
      SameEntry(was, list, f, s, order, m);
      if Paired(was, w, m) {
        SameNew(was, list, f, s, order, Pair(w, m, 0, 0));
      }
    }
  }

  lemma CallsExact(was: Objects, list: seq<Pair>, f: Objects, s: Objects, order: seq<nat>, g: seq<(nat, nat)>)
    requires MessageOk(was, list, f, s, order) && WalkedOk(was, g) && AllIn(s, g)
    ensures var calls := HotCalls(was, list, |list|) + GenCalls(s, g);
            Once(calls) && forall w: nat, m: nat :: (w, m) in calls <==> Called(was, list, w, m)
  {
    hide Near, StillHot, WalkedOk, AllIn;
    HotCallsExact(was, list);
    NewCallsExact(was, list, f, s, order, g);
    StillHotIsStill(was, list);
    var a, b := HotCalls(was, list, |list|), GenCalls(s, g);
    forall c | c in a ensures c !in b {
      assert c == (c.0, c.1);
    }
    OnceConcat(a, b);
  }

  lemma KeptExact(was: Objects, list: seq<Pair>)
    requires SpaceOk(was, list)
    ensures NoRepeat(HotKept(was, list, |list|))
    ensures forall p :: p in HotKept(was, list, |list|) <==>
              NewPair(was, p) && Paired(was, p.watcher, p.marker) && StillHot(was, list, p.watcher, p.marker)
  {
    hide Near, Far;
    HotSplit(was, list, |list|);
    StillHotIsStill(was, list);
    var kept := HotKept(was, list, |list|);
    forall p
      ensures p in kept <==>
        NewPair(was, p) && Paired(was, p.watcher, p.marker) && StillHot(was, list, p.watcher, p.marker)
    {
      if NewPair(was, p) && StillHot(was, list, p.watcher, p.marker) {
        var k :| 0 <= k < |list| && list[k].Ids() == p.Ids() && PairOk(was, list[k]) && Current(was, list[k]);
        assert list[k] == p;
      }
      if p in kept {
        var k :| 0 <= k < |list| && p == list[k] && PairOk(was, p) && Kept(was, p);
        assert list[k].Ids() == (p.watcher, p.marker);
      }
    }
  }

  lemma NewHotExact(was: Objects, list: seq<Pair>, f: Objects, s: Objects, order: seq<nat>, g: seq<(nat, nat)>)
    requires MessageOk(was, list, f, s, order) && WalkedOk(was, g) && AllIn(s, g)
    ensures NoRepeat(GenHot(s, g))
    ensures forall p :: p in GenHot(s, g) <==>
              NewPair(was, p) && Paired(was, p.watcher, p.marker) && MovedPair(was, p.watcher, p.marker)
  {
    hide Near, Far, MessageOk;
    GenHotMembers(s, g);
    forall p
      ensures p in GenHot(s, g) <==>
        NewPair(was, p) && Paired(was, p.watcher, p.marker) && MovedPair(was, p.watcher, p.marker)
    {
      SameEntry(was, list, f, s, order, p.watcher);
      SameEntry(was, list, f, s, order, p.marker);
      if Paired(was, p.watcher, p.marker) {
        SameNew(was, list, f, s, order, p);
      }
    }
  }

  lemma HotExact(was: Objects, list: seq<Pair>, f: Objects, s: Objects, order: seq<nat>, g: seq<(nat, nat)>)
    requires MessageOk(was, list, f, s, order) && WalkedOk(was, g) && AllIn(s, g)
    ensures var hot := GenHot(s, g) + HotKept(was, list, |list|);
            NoRepeat(hot) && forall p :: p in hot <==> HotAfter(was, list, p)
  {
    hide NewPair, StillHot, WalkedOk, AllIn;
    KeptExact(was, list);
    NewHotExact(was, list, f, s, order, g);
    StillHotIsStill(was, list);
    var a, b := GenHot(s, g), HotKept(was, list, |list|);
    var ab := a + b;
    forall j, k | 0 <= j < k < |ab| ensures ab[j].Ids() != ab[k].Ids() {
      if j < |a| <= k {
        assert ab[j] in a && ab[k] in b;
      }
    }
  }

  ghost predicate CurrentPair(objs: Objects, p: Pair) {
    PairOk(objs, p) && Current(objs, p)
  }

  /** After a message every hot pair is current. */
  lemma HotIsCurrent(was: Objects, list: seq<Pair>, f: Objects, s: Objects, order: seq<nat>, objs: Objects, p: Pair)
    requires MessageOk(was, list, f, s, order) && SameButRefs(s, objs) && objs.Keys == s.Keys && HotAfter(was, list, p)
    ensures CurrentPair(objs, p)
  {
    hide Near, Far, MessageOk;
    SameEntry(was, list, f, s, order, p.watcher);
    SameEntry(was, list, f, s, order, p.marker);
  }

  lemma ModesLeft(was: Objects, list: seq<Pair>, f: Objects, s: Objects, order: seq<nat>, objs: Objects)
    requires MessageOk(was, list, f, s, order) && SameButRefs(s, objs)
    ensures ModesOk(objs)
  {
    SettleKeeps(f, order, s, HotKept(was, list, |list|));
  }

  lemma SpaceAfter(was: Objects, list: seq<Pair>, f: Objects, s: Objects, order: seq<nat>, g: seq<(nat, nat)>,
                   objs: Objects, hot: seq<Pair>)
    requires MessageOk(was, list, f, s, order) && WalkedOk(was, g)
    requires GenOk(s, HotKept(was, list, |list|), g, objs, hot)
    ensures SpaceOk(objs, hot)
    ensures forall k | 0 <= k < |hot| :: CurrentPair(objs, hot[k])
    ensures forall p :: p in hot <==> HotAfter(was, list, p)
  {
    hide MessageOk, GenHot, HotKept, HotAfter, PairOk, RefsOk, NoRepeat, SameButRefs, WalkedOk, AllIn, ModesOk;
    HotExact(was, list, f, s, order, g);
    ModesLeft(was, list, f, s, order, objs);
    forall k | 0 <= k < |hot| ensures CurrentPair(objs, hot[k]) {
      assert hot[k] in hot;
      HotIsCurrent(was, list, f, s, order, objs, hot[k]);
    }
  }

  /** No dropped object is left. */
  lemma ObjectsLeft(was: Objects, list: seq<Pair>, f: Objects, s: Objects, order: seq<nat>, objs: Objects,
                    hot: seq<Pair>)
    requires MessageOk(was, list, f, s, order) && SameButRefs(s, objs) && objs.Keys == s.Keys
    requires RefsOk(objs, hot) && forall k | 0 <= k < |hot| :: CurrentPair(objs, hot[k])
    ensures ObjectsAfter(was, objs)
  {
    hide MessageOk;
    forall id: nat ensures (id in objs <==> id in was && !was[id].mode.dropped)
                           && (id in objs ==> objs[id] == Settle(was[id]).(ref := objs[id].ref)) {
      SameEntry(was, list, f, s, order, id);
      OccursIn(hot, id);
      assert id in objs <==> Count(objs, hot, id) > 0;
    }
  }

  lemma WalkedSame(was: Objects, list: seq<Pair>, f: Objects, s: Objects, order: seq<nat>, g: seq<(nat, nat)>)
    requires MessageOk(was, list, f, s, order) && WalkedOk(f, g)
    ensures WalkedOk(was, g)
  {
    forall c: (nat, nat) ensures MovedPair(was, c.0, c.1) <==> MovedPair(f, c.0, c.1) {
      SameEntry(was, list, f, s, order, c.0);
      SameEntry(was, list, f, s, order, c.1);
    }
  }

  lemma MessageExact(was: Objects, list: seq<Pair>, f: Objects, s: Objects, order: seq<nat>, g: seq<(nat, nat)>,
                     objs: Objects, hot: seq<Pair>)
    requires MessageOk(was, list, f, s, order) && WalkedOk(f, g) && AllIn(s, g)
    requires GenOk(s, HotKept(was, list, |list|), g, objs, hot)
    ensures SpaceOk(objs, hot) && ObjectsAfter(was, objs)
    ensures forall p :: p in hot <==> HotAfter(was, list, p)
    ensures var calls := HotCalls(was, list, |list|) + GenCalls(s, g);
            Once(calls) && forall w: nat, m: nat :: (w, m) in calls <==> Called(was, list, w, m)
  {
    hide SpaceOk, WalkedOk, CurrentPair, HotAfter, Called, ObjectsAfter, HotKept, HotCalls, GenCalls, GenHot, Once;
    hide RefsOk, SameButRefs, AllIn;
    WalkedSame(was, list, f, s, order, g);
    SpaceAfter(was, list, f, s, order, g, objs, hot);
    ObjectsLeft(was, list, f, s, order, objs, hot);
    CallsExact(was, list, f, s, order, g);
  }

  /** A message that follows another with no update between them reports nothing. */
  lemma NothingTwice(was: Objects, list: seq<Pair>, objs: Objects, hot: seq<Pair>)
    requires ObjectsAfter(was, objs) && forall p :: p in hot <==> HotAfter(was, list, p)
    ensures forall w: nat, m: nat :: !Called(objs, hot, w, m)
  {
    hide Near, Far;
    forall w: nat, m: nat | LookedAt(objs, hot, w, m) ensures !Near(objs, w, m) {
      assert StillHot(objs, hot, w, m);
      var k :| 0 <= k < |hot| && hot[k].Ids() == (w, m) && PairOk(objs, hot[k]) && Current(objs, hot[k]);
      assert hot[k] in hot;
      assert NewPair(was, hot[k]);
      SameDistance(was, objs, w, m);
    }
  }

  lemma ListsPart(order: seq<nat>, was: Objects, f: Objects)
    requires Lists(order, was) && SameButRefs(was, f)
    ensures Lists(order, f) && Distinct(order)
  {
  }

  lemma MessageStarts(was: Objects, list: seq<Pair>, f: Objects, s: Objects, order: seq<nat>)
    requires SpaceOk(was, list) && SameButRefs(was, f) && SpaceOk(f, HotKept(was, list, |list|))
    requires forall p | p in HotKept(was, list, |list|) :: PairOk(f, p) && Current(f, p)
    requires Lists(order, was) && SettledTo(f, order, |order|, s)
    ensures MessageOk(was, list, f, s, order)
  {
  }

  lemma GenStarts(f: Objects, order: seq<nat>, base: Objects, kept: seq<Pair>)
    requires SpaceOk(f, kept) && SettledTo(f, order, |order|, base)
    ensures GenOk(base, kept, [], base, kept) && GenCalls(base, []) == []
  {
    SettleKeeps(f, order, base, kept);
    assert GenHot(base, []) + kept == kept;
  }

  /** All that is picked is there. */
  lemma PickedIn(f: Objects, base: Objects, order: seq<nat>, n: nat, watching: bool, moved: bool)
    requires SettledTo(f, order, |order|, base) && n <= |order|
    ensures var picked := Pick(f, order, n, watching, moved); forall k | 0 <= k < |picked| :: picked[k] in base
  {
  }

  lemma CallsJoin(base: Objects, g1: seq<(nat, nat)>, g2: seq<(nat, nat)>, g: seq<(nat, nat)>,
                  c1: seq<(nat, nat)>, c2: seq<(nat, nat)>, c3: seq<(nat, nat)>)
    requires AllIn(base, g1) && AllIn(base, g2) && AllIn(base, g)
    requires [] + c1 == GenCalls(base, g1) && GenCalls(base, g1) + c2 == GenCalls(base, g2)
    requires GenCalls(base, g2) + c3 == GenCalls(base, g)
    ensures c1 + c2 + c3 == GenCalls(base, g)
  {
    assert [] + c1 == c1;
  }

  lemma CountOf(objs: Objects, hot: seq<Pair>, id: nat)
    requires SpaceOk(objs, hot)
    ensures if id in objs then objs[id].ref == Base(objs[id]) + Occurs(hot, id) && objs[id].ref > 0
            else Occurs(hot, id) == 0
    ensures id in objs && objs[id].mode.dropped ==> objs[id].mode == MODE_DROP
  {
    assert id in objs <==> Count(objs, hot, id) > 0;
  }

  class Space {
    var objs: Objects
    var hot: seq<Pair>
    var watcherStatic: seq<nat>
    var watcherMove: seq<nat>
    var markerStatic: seq<nat>
    var markerMove: seq<nat>

    ghost predicate Valid()
      reads this
    {
      SpaceOk(objs, hot)
    }

    constructor ()
      ensures Valid() && objs == map[] && hot == []
    {
      objs, hot := map[], [];
      watcherStatic, watcherMove, markerStatic, markerMove := [], [], [], [];
    }

    method DropObject(id: nat)
      requires id in objs
      modifies `objs
      ensures objs == Released(old(objs), id)
    {
      var o := objs[id].(ref := objs[id].ref - 1);
      objs := objs[id := o];
      if o.ref <= 0 {
        objs := objs - {id};
      }
    }

    method GrabObject(id: nat)
      requires id in objs
      modifies `objs
      ensures objs == old(objs)[id := old(objs)[id].(ref := old(objs)[id].ref + 1)]
    {
      objs := objs[id := objs[id].(ref := objs[id].ref + 1)];
    }

    /** `aoi_update`. `junk` is what the memory of a new object holds. */
    method Update(id: nat, modestring: string, pos: Pos, junk: (Pos, Pos))
      requires Valid()
      modifies `objs
      ensures Valid()
      ensures 'd' in modestring ==> objs == AfterDrop(old(objs), hot, id)
      ensures 'd' !in modestring ==>
                id in objs && objs == old(objs)[id := objs[id]]
                && UpdatedTo(old(objs), hot, id, 'w' in modestring, 'm' in modestring, pos, objs[id])
    {
      hide SpaceOk;
      ghost var was := objs;
      CountOf(objs, hot, id);
      if id !in objs {
        objs := objs[id := NewObject(junk.0, junk.1)];
      }
      var setWatcher, setMarker := false, false;
      var i := 0;
      while i < |modestring|
        invariant 0 <= i <= |modestring| && 'd' !in modestring[..i]
        invariant setWatcher == ('w' in modestring[..i]) && setMarker == ('m' in modestring[..i])
        invariant objs == if id in was then was else was[id := NewObject(junk.0, junk.1)]
      {
        match modestring[i] {
          case 'w' => setWatcher := true;
          case 'm' => setMarker := true;
          case 'd' =>
            if !objs[id].mode.dropped {
              objs := objs[id := objs[id].(mode := MODE_DROP)];
              DropObject(id);
            }
            DropKeeps(was, hot, id);
            assert objs == AfterDrop(was, hot, id);
            return;
          case _ =>
        }
        i := i + 1;
      }
      assert modestring[..i] == modestring;
      if objs[id].mode.dropped {
        objs := objs[id := objs[id].(mode := objs[id].mode.(dropped := false))];
        GrabObject(id);
      }
      var (mode, changed) := ChangeMode(objs[id].mode, setWatcher, setMarker);
      objs := objs[id := objs[id].(mode := mode)];
      objs := objs[id := objs[id].(position := pos)];
      if changed || !IsNear(pos, objs[id].last) {
        objs := objs[id := objs[id].(last := pos, mode := objs[id].mode.(moved := true),
                                     version := objs[id].version + 1)];
      }
      assert objs == was[id := objs[id]];
      UpdateKeeps(was, hot, id, 'w' in modestring, 'm' in modestring, pos, objs[id]);
    }

    method DropPair(p: Pair)
      requires p.watcher in objs && p.marker in Released(objs, p.watcher)
      modifies `objs
      ensures objs == Released(Released(old(objs), p.watcher), p.marker)
    {
      DropObject(p.watcher);
      DropObject(p.marker);
    }

    /** `flush_pair`: the list is walked once; `before` is the part of it already passed and kept. */
    method FlushPairs() returns (calls: seq<(nat, nat)>)
      requires Valid()
      modifies this
      ensures Valid() && SameButRefs(old(objs), objs)
      ensures PairsOk(old(objs), old(hot)) && hot == HotKept(old(objs), old(hot), |old(hot)|)
      ensures calls == HotCalls(old(objs), old(hot), |old(hot)|)
      ensures forall p | p in hot :: PairOk(objs, p) && Current(objs, p)
    {
      hide SpaceOk, FlushedTo, Current, PairOk, NoRepeat;
      ghost var was, list := objs, hot;
      FlushStarts(was, list);
      calls := [];
      var before: seq<Pair> := [];
      var i := 0;
      while i < |hot|
        invariant 0 <= i <= |hot| && hot == list && PairsOk(was, list)
        invariant FlushedTo(was, list, i, objs)
        invariant before == HotKept(was, list, i) && calls == HotCalls(was, list, i)
      {
        var p := hot[i];
        FlushStep(was, list, i, objs);
        if !Current(objs, p) {
          DropPair(p);
        } else {
          var distance2 := Dist2(objs[p.watcher].position, objs[p.marker].position);
          if distance2 > RADIUS2 * 4.0 {
            DropPair(p);
          } else if distance2 < RADIUS2 {
            calls := calls + [(p.watcher, p.marker)];
            DropPair(p);
          } else {
            before := before + [p];
          }
        }
        i := i + 1;
      }
      hot := before;
      FlushEnds(was, list, objs);
    }

    method SetPush(id: nat)
      requires id in objs
      modifies `objs, `watcherStatic, `watcherMove, `markerStatic, `markerMove
      ensures objs == old(objs)[id := Settle(old(objs)[id])]
      ensures watcherStatic == old(watcherStatic) + (if Wanted(old(objs), id, true, false) then [id] else [])
      ensures watcherMove == old(watcherMove) + (if Wanted(old(objs), id, true, true) then [id] else [])
      ensures markerStatic == old(markerStatic) + (if Wanted(old(objs), id, false, false) then [id] else [])
      ensures markerMove == old(markerMove) + (if Wanted(old(objs), id, false, true) then [id] else [])
    {
      var mode := objs[id].mode;
      if mode.watcher {
        if mode.moved {
          watcherMove := watcherMove + [id];
          objs := objs[id := objs[id].(mode := objs[id].mode.(moved := false))];
        } else {
          watcherStatic := watcherStatic + [id];
        }
      }
      if mode.marker {
        if mode.moved {
          markerMove := markerMove + [id];
          objs := objs[id := objs[id].(mode := objs[id].mode.(moved := false))];
        } else {
          markerStatic := markerStatic + [id];
        }
      }
      assert objs == old(objs)[id := Settle(old(objs)[id])];
    }

    /** `set_push` on every object, in the order of the table. */
    method SetPushAll(order: seq<nat>)
      requires Distinct(order)
      modifies this
      ensures hot == old(hot) && SettledTo(old(objs), order, |order|, objs)
      ensures watcherStatic == Pick(old(objs), order, |order|, true, false)
      ensures watcherMove == Pick(old(objs), order, |order|, true, true)
      ensures markerStatic == Pick(old(objs), order, |order|, false, false)
      ensures markerMove == Pick(old(objs), order, |order|, false, true)
    {
      hide SettledTo, Distinct;
      watcherStatic, watcherMove, markerStatic, markerMove := [], [], [], [];
      ghost var was := objs;
      SettleStarts(was, order);
      var i := 0;
      while i < |order|
        invariant 0 <= i <= |order| && hot == old(hot) && SettledTo(was, order, i, objs)
        invariant watcherStatic == Pick(was, order, i, true, false)
        invariant watcherMove == Pick(was, order, i, true, true)
        invariant markerStatic == Pick(was, order, i, false, false)
        invariant markerMove == Pick(was, order, i, false, true)
      {
        var id := order[i];
        SettleStep(was, order, i, objs);
        if id in objs {
          SetPush(id);
        }
        i := i + 1;
      }
    }

    /** `gen_pair`, as the next of the pairs `g`. */
    method GenPair(w: nat, m: nat, ghost base: Objects, ghost kept: seq<Pair>, ghost g: seq<(nat, nat)>)
      returns (calls: seq<(nat, nat)>)
      requires GenOk(base, kept, g, objs, hot) && w in base && m in base
      modifies `objs, `hot
      ensures GenOk(base, kept, g + [(w, m)], objs, hot) && calls == IfNear(base, w, m)
    {
      hide GenOk, Near, Far;
      GenStep(base, kept, g, objs, hot, w, m);
      if w == m {
        return [];
      }
      if Near(objs, w, m) {
        return [(w, m)];
      }
      if Far(objs, w, m) {
        return [];
      }
      var p := Pair(w, m, objs[w].version, objs[m].version);
      GrabObject(w);
      GrabObject(m);
      hot := [p] + hot;
      calls := [];
    }

    /** `gen_pair_list`, after the pairs `g`. */
    method GenPairList(ws: seq<nat>, ms: seq<nat>, ghost base: Objects, ghost kept: seq<Pair>, ghost g: seq<(nat, nat)>)
      returns (calls: seq<(nat, nat)>)
      requires GenOk(base, kept, g, objs, hot)
      requires (forall k | 0 <= k < |ws| :: ws[k] in base) && (forall k | 0 <= k < |ms| :: ms[k] in base)
      modifies `objs, `hot
      ensures GenOk(base, kept, g + Grid(ws, ms, |ws|), objs, hot) && AllIn(base, g)
      ensures AllIn(base, g + Grid(ws, ms, |ws|))
      ensures GenCalls(base, g) + calls == GenCalls(base, g + Grid(ws, ms, |ws|))
    {
      hide GenOk, GenCalls, AllIn, Told, Grid, Row;
      calls := [];
      var i := 0;
      GenAt(base, kept, g, objs, hot);
      ToldStarts(base, g);
      ghost var g1 := g;
      GridNone(ws, ms, g);
      while i < |ws|
        invariant 0 <= i <= |ws| && g1 == g + Grid(ws, ms, i)
        invariant GenOk(base, kept, g1, objs, hot) && Told(base, g, calls, g1)
      {
        var j := 0;
        ghost var g2 := g1;
        RowNone(ws[i], ms, g1);
        while j < |ms|
          invariant 0 <= j <= |ms| && g2 == g1 + Row(ws[i], ms, j)
          invariant GenOk(base, kept, g2, objs, hot) && Told(base, g, calls, g2)
        {
          var more := GenPair(ws[i], ms[j], base, kept, g2);
          ToldNext(base, g, calls, g2, ws[i], ms[j]);
          RowNext(ws[i], ms, j, g1);
          calls := calls + more;
          g2 := g2 + [(ws[i], ms[j])];
          j := j + 1;
        }
        GridNext(ws, ms, i, g);
        g1 := g2;
        i := i + 1;
      }
      ToldIs(base, g, calls, g1);
    }

    ghost predicate SetsIn(base: Objects)
      reads this
    {
      && (forall k | 0 <= k < |watcherStatic| :: watcherStatic[k] in base)
      && (forall k | 0 <= k < |watcherMove| :: watcherMove[k] in base)
      && (forall k | 0 <= k < |markerStatic| :: markerStatic[k] in base)
      && (forall k | 0 <= k < |markerMove| :: markerMove[k] in base)
    }

    /** The three calls of `gen_pair_list`. */
    method GenAll(ghost base: Objects, ghost kept: seq<Pair>) returns (calls: seq<(nat, nat)>)
      requires GenOk(base, kept, [], objs, hot) && SetsIn(base)
      modifies `objs, `hot
      ensures var g := Walked(watcherStatic, watcherMove, markerStatic, markerMove);
              GenOk(base, kept, g, objs, hot) && AllIn(base, g) && calls == GenCalls(base, g)
    {
      hide GenOk, AllIn;
      ghost var g1 := Grid(watcherStatic, markerMove, |watcherStatic|);
      ghost var g2 := Grid(watcherMove, markerStatic, |watcherMove|);
      ghost var g := Walked(watcherStatic, watcherMove, markerStatic, markerMove);
      assert [] + g1 == g1;
      var c1 := GenPairList(watcherStatic, markerMove, base, kept, []);
      var c2 := GenPairList(watcherMove, markerStatic, base, kept, g1);
      var c3 := GenPairList(watcherMove, markerMove, base, kept, g1 + g2);
      CallsJoin(base, g1, g1 + g2, g, c1, c2, c3);
      calls := c1 + c2 + c3;
    }

    /** `aoi_message`. `order` is the order in which the table meets its objects. */
    method Message(order: seq<nat>) returns (calls: seq<(nat, nat)>)
      requires Valid() && Lists(order, objs)
      modifies this
      ensures Valid() && ObjectsAfter(old(objs), objs)
      ensures Once(calls) && forall w: nat, m: nat :: (w, m) in calls <==> Called(old(objs), old(hot), w, m)
      ensures forall p :: p in hot <==> HotAfter(old(objs), old(hot), p)
    {
      hide SpaceOk, Lists, SettledTo, Once, Called, HotAfter, ObjectsAfter, GenOk, PairOk, Current, MessageOk, WalkedOk;
      hide SameButRefs, AllIn, GenCalls, HotKept, HotCalls, PairsOk, Walked, Pick;
      ghost var was, list := objs, hot;
      calls := FlushPairs();
      ghost var flushed, kept := objs, hot;
      ListsPart(order, was, flushed);
      SetPushAll(order);
      ghost var base := objs;
      MessageStarts(was, list, flushed, base, order);
      GenStarts(flushed, order, base, kept);
      PickedIn(flushed, base, order, |order|, true, false);
      PickedIn(flushed, base, order, |order|, true, true);
      PickedIn(flushed, base, order, |order|, false, false);
      PickedIn(flushed, base, order, |order|, false, true);
      WalkedMembers(flushed, order, watcherStatic, watcherMove, markerStatic, markerMove);
      ghost var g := Walked(watcherStatic, watcherMove, markerStatic, markerMove);
      var more := GenAll(base, kept);
      MessageExact(was, list, flushed, base, order, g, objs, hot);
      calls := calls + more;
    }
  }
}
