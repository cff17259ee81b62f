/** Decoding what was encoded: the same graph, with the same sharing. */
module MarshalRoundTrip {
  import opened LittleEndian
  import opened Marshal

  /** What every Lua table satisfies: neither nil nor NaN is a key, no value is nil, and keys are not repeated. */
  ghost predicate EntriesPlain(entries: Entries) {
    && (forall i | 0 <= i < |entries| :: IsKey(entries[i].0) && entries[i].1 != Nil)
    && (forall i, j | 0 <= i < j < |entries| :: !SameKey(entries[i].0, entries[j].0))
  }

  ghost predicate Plain(g: Graph) {
    GraphOk(g) && forall t | t in g :: EntriesPlain(g[t])
  }

  // ---------------------------------------------------------------- matching SEEN tables

  /** The two sides at one moment: the SEEN table of the encoder, and the decoder. */
  datatype Point = Point(seen: map<nat, nat>, st: State)

  /** The decoded table (or constant) with the index of table `t`. */
  predicate Known(seen: map<nat, nat>, at: map<nat, Value>, t: nat) {
    t in seen && seen[t] in at
  }

  /** A value on the decoding side: tables are replaced by those with the same index. */
  function Image(seen: map<nat, nat>, at: map<nat, Value>, v: Value): Value {
    if v.Table? && Known(seen, at, v.ref) then at[seen[v.ref]] else v
  }

  ghost predicate LinkOk(pt: Point, t: nat)
    requires t in pt.seen
  {
    && 0 < pt.seen[t] < pt.st.idx && pt.seen[t] in pt.st.seen
    && pt.st.seen[pt.seen[t]].Table? && pt.st.seen[pt.seen[t]].ref < |pt.st.heap|
  }

  ghost predicate SameImage(seen: map<nat, nat>, at: map<nat, Value>, t: nat, u: nat) {
    Known(seen, at, t) && Known(seen, at, u) && at[seen[t]] == at[seen[u]]
  }

  /** Both sides number the same tables the same way, and different tables stay different. */
  ghost predicate Linked(pt: Point) {
    && pt.st.idx > 0
    && (forall t | t in pt.seen :: LinkOk(pt, t))
    && (forall t, u | SameImage(pt.seen, pt.st.seen, t, u) :: t == u)
    && (forall i | i in pt.st.seen :: i < pt.st.idx)
  }

  ghost predicate SeenKept(a: map<nat, nat>, b: map<nat, nat>) {
    forall t | t in a :: t in b && b[t] == a[t]
  }

  ghost predicate AtKept(a: map<nat, Value>, b: map<nat, Value>) {
    forall i | i in a :: i in b && b[i] == a[i]
  }

  /** Tables known before stay as they are, except `open`. */
  ghost predicate HeapKept(a: Heap, b: Heap, open: int) {
    |a| <= |b| && forall d | 0 <= d < |a| && d != open :: b[d] == a[d]
  }

  /** The entries of a decoded table. */
  ghost function Filled(entries: Entries, n: nat, seen: map<nat, nat>, at: map<nat, Value>): map<Value, Value>
    requires n <= |entries|
  {
    if n == 0 then map[]
    else
      var m: map<Value, Value> := Filled(entries, n - 1, seen, at);
      m[Image(seen, at, entries[n - 1].0) := Image(seen, at, entries[n - 1].1)]
  }

  predicate ValueSeen(seen: map<nat, nat>, v: Value) {
    v.Table? ==> v.ref in seen
  }

  ghost predicate EntriesSeen(entries: Entries, n: nat, seen: map<nat, nat>)
    requires n <= |entries|
  {
    forall i | 0 <= i < n :: ValueSeen(seen, entries[i].0) && ValueSeen(seen, entries[i].1)
  }

  /** A table met since `before` is new, and holds what the original holds. */
  ghost predicate Done(g: Graph, size: nat, pt: Point, t: nat) {
    && t in g && Known(pt.seen, pt.st.seen, t) && pt.st.seen[pt.seen[t]].Table?
    && size <= pt.st.seen[pt.seen[t]].ref < |pt.st.heap|
    && EntriesSeen(g[t], |g[t]|, pt.seen)
    && pt.st.heap[pt.st.seen[pt.seen[t]].ref] == Filled(g[t], |g[t]|, pt.seen, pt.st.seen)
  }

  ghost predicate Finished(g: Graph, size: nat, before: map<nat, nat>, pt: Point) {
    forall t | t in pt.seen && t !in before :: Done(g, size, pt, t)
  }

  /** From one pair of states to the next. */
  ghost predicate Step(g: Graph, pt: Point, pt1: Point, open: int) {
    && Linked(pt) && Linked(pt1)
    && SeenKept(pt.seen, pt1.seen) && AtKept(pt.st.seen, pt1.st.seen) && HeapKept(pt.st.heap, pt1.st.heap, open)
    && Finished(g, |pt.st.heap|, pt.seen, pt1)
  }

  lemma ImageKept(pt: Point, seen1: map<nat, nat>, at1: map<nat, Value>, v: Value)
    requires ValueSeen(pt.seen, v) && Linked(pt) && SeenKept(pt.seen, seen1) && AtKept(pt.st.seen, at1)
    ensures ValueSeen(seen1, v) && Image(seen1, at1, v) == Image(pt.seen, pt.st.seen, v)
  {
    if v.Table? {
      assert LinkOk(pt, v.ref);
    }
  }

  lemma {:induction false} FilledKept(entries: Entries, n: nat, pt: Point, seen1: map<nat, nat>,
                                      at1: map<nat, Value>)
    requires n <= |entries| && EntriesSeen(entries, n, pt.seen) && Linked(pt)
    requires SeenKept(pt.seen, seen1) && AtKept(pt.st.seen, at1)
    ensures Filled(entries, n, seen1, at1) == Filled(entries, n, pt.seen, pt.st.seen)
  {
    if n > 0 {
      FilledKept(entries, n - 1, pt, seen1, at1);
      ImageKept(pt, seen1, at1, entries[n - 1].0);
      ImageKept(pt, seen1, at1, entries[n - 1].1);
    }
  }

  lemma EntriesSeenKept(entries: Entries, n: nat, seen: map<nat, nat>, seen1: map<nat, nat>)
    requires n <= |entries| && EntriesSeen(entries, n, seen) && SeenKept(seen, seen1)
    ensures EntriesSeen(entries, n, seen1)
  {
  }

  /** A finished table stays finished. */
  lemma DoneKept(g: Graph, size: nat, pt: Point, pt1: Point, open: int, t: nat)
    requires Done(g, size, pt, t) && Linked(pt) && SeenKept(pt.seen, pt1.seen) && AtKept(pt.st.seen, pt1.st.seen)
    requires HeapKept(pt.st.heap, pt1.st.heap, open) && pt.st.seen[pt.seen[t]].ref != open
    ensures Done(g, size, pt1, t)
  {
    FilledKept(g[t], |g[t]|, pt, pt1.seen, pt1.st.seen);
    EntriesSeenKept(g[t], |g[t]|, pt.seen, pt1.seen);
  }

  /** Steps compose, as long as the second leaves new tables alone. */
  lemma StepStep(g: Graph, pt: Point, pt1: Point, pt2: Point, open: int)
    requires Step(g, pt, pt1, open) && Step(g, pt1, pt2, open)
    requires open < |pt.st.heap|
    ensures Step(g, pt, pt2, open)
  {
    forall t | t in pt2.seen && t !in pt.seen ensures Done(g, |pt.st.heap|, pt2, t) {
      if t in pt1.seen {
        assert Done(g, |pt.st.heap|, pt1, t);
        DoneKept(g, |pt.st.heap|, pt1, pt2, open, t);
      } else {
        assert Done(g, |pt1.st.heap|, pt2, t);
      }
    }
  }

  // ---------------------------------------------------------------- reading single values back

  lemma TakeAt(pre: seq<Byte>, x: seq<Byte>, post: seq<Byte>)
    ensures var buf := pre + x + post;
            |pre| + |x| <= |buf| && buf[|pre|..|pre| + |x|] == x
            && forall i | 0 <= i < |x| :: buf[|pre| + i] == x[i]
  {
  }

  lemma ReadLength(v: nat)
    requires v <= UINT32_MAX
    ensures Dec32(Enc32(v)) == v
  {
    Dec32Enc32(v, []);
    assert Enc32(v) + [] == Enc32(v);
  }

  /** What a value's own bytes read back as, wherever they stand. */
  ghost predicate ReadsAs(bytes: seq<Byte>, st: State, value: Value, st1: State) {
    forall pre: seq<Byte>, post: seq<Byte>, end: nat | |pre| + |bytes| <= end ::
      DecodeValue(pre + bytes + post, end, |pre|, st) == Read(Decoded(value, |pre| + |bytes|, st1))
  }

  lemma ReadsNil(st: State)
    ensures ReadsAs([TNIL], st, Nil, st)
  {
    forall pre: seq<Byte>, post: seq<Byte>, end: nat | |pre| + |[TNIL]| <= end
      ensures DecodeValue(pre + [TNIL] + post, end, |pre|, st) == Read(Decoded(Nil, |pre| + 1, st))
    {
      TakeAt(pre, [TNIL], post);
      assert (pre + [TNIL] + post)[|pre| + 0] == TNIL;
    }
  }

  lemma ReadsBoolean(b: bool, st: State)
    ensures ReadsAs([TBOOLEAN, Flag(b)], st, Boolean(b), st)
  {
    var x := [TBOOLEAN, Flag(b)];
    forall pre: seq<Byte>, post: seq<Byte>, end: nat | |pre| + |x| <= end
      ensures DecodeValue(pre + x + post, end, |pre|, st) == Read(Decoded(Boolean(b), |pre| + 2, st))
    {
      TakeAt(pre, x, post);
      assert (pre + x + post)[|pre| + 0] == TBOOLEAN && (pre + x + post)[|pre| + 1] == Flag(b);
    }
  }

  lemma ReadsNumber(bits: Double, st: State)
    ensures ReadsAs([TNUMBER] + bits, st, Number(bits), st)
  {
    var x := [TNUMBER] + bits;
    forall pre: seq<Byte>, post: seq<Byte>, end: nat | |pre| + |x| <= end
      ensures DecodeValue(pre + x + post, end, |pre|, st) == Read(Decoded(Number(bits), |pre| + 9, st))
    {
      TakeAt(pre, x, post);
      var buf := pre + x + post;
      assert buf[|pre| + 0] == TNUMBER;
      assert buf[|pre| + 1..|pre| + 9] == buf[|pre|..|pre| + 9][1..] == bits;
    }
  }

  lemma ReadsString(s: seq<Byte>, st: State)
    requires |s| <= UINT32_MAX
    ensures ReadsAs([TSTRING] + (Enc32(|s|) + s), st, Str(s), st)
  {
    hide Enc32, Dec32;
    var l := Enc32(|s|);
    var x := [TSTRING] + (l + s);
    ReadLength(|s|);
    forall pre: seq<Byte>, post: seq<Byte>, end: nat | |pre| + |x| <= end
      ensures DecodeValue(pre + x + post, end, |pre|, st) == Read(Decoded(Str(s), |pre| + |x|, st))
    {
      TakeAt(pre, x, post);
      var buf, p := pre + x + post, |pre|;
      assert buf[p + 0] == TSTRING;
      assert buf[p + 1..p + 5] == buf[p..p + |x|][1..5] == l;
      assert buf[p + 5..p + 5 + |s|] == buf[p..p + |x|][5..] == s;
    }
  }

  lemma ReadsRef(ref: nat, st: State)
    requires ref < INT_LIMIT && ref in st.seen
    ensures ReadsAs([TTABLE, MAR_TREF] + RefBytes(ref), st, st.seen[ref], st)
  {
    hide Enc32, Dec32;
    var l := RefBytes(ref);
    var x := [TTABLE, MAR_TREF] + l;
    ReadLength(ref);
    forall pre: seq<Byte>, post: seq<Byte>, end: nat | |pre| + |x| <= end
      ensures DecodeValue(pre + x + post, end, |pre|, st) == Read(Decoded(st.seen[ref], |pre| + 6, st))
    {
      TakeAt(pre, x, post);
      var buf, p := pre + x + post, |pre|;
      assert buf[p + 0] == TTABLE && buf[p + 1] == MAR_TREF;
      assert buf[p + 2..p + 6] == buf[p..p + 6][2..] == l;
    }
  }

  /** What the entries of a table read back as, wherever they stand. */
  ghost predicate TableReads(body: seq<Byte>, st: State, t: nat, st1: State) {
    && t < |st.heap|
    && forall pre: seq<Byte>, post: seq<Byte> ::
         DecodeTable(pre + body + post, |pre| + |body|, |pre|, st, t) == Read(st1)
  }

  lemma ReadsTable(body: seq<Byte>, st: State, st1: State)
    requires |body| <= UINT32_MAX && TableReads(body, NewTable(st), |st.heap|, st1)
    ensures ReadsAs([TTABLE, MAR_TVAL] + (Enc32(|body|) + body), st, Table(|st.heap|), st1)
  {
    hide Enc32, Dec32, DecodeTable, NewTable;
    var l := Enc32(|body|);
    var x := [TTABLE, MAR_TVAL] + (l + body);
    ReadLength(|body|);
    forall pre: seq<Byte>, post: seq<Byte>, end: nat | |pre| + |x| <= end
      ensures DecodeValue(pre + x + post, end, |pre|, st) == Read(Decoded(Table(|st.heap|), |pre| + |x|, st1))
    {
      TakeAt(pre, x, post);
      var buf, p := pre + x + post, |pre|;
      assert buf[p + 0] == TTABLE && buf[p + 1] == MAR_TVAL;
      assert buf[p + 2..p + 6] == buf[p..p + |x|][2..6] == l;
      var front := pre + ([TTABLE, MAR_TVAL] + l);
      assert buf == front + body + post;
      assert DecodeTable(front + body + post, |front| + |body|, |front|, NewTable(st), |st.heap|) == Read(st1);
    }
  }

  // ---------------------------------------------------------------- the round trip

  lemma NewLinked(g: Graph, pt: Point, t: nat)
    requires Linked(pt) && t !in pt.seen
    ensures Linked(Point(pt.seen[t := pt.st.idx], NewTable(pt.st)))
    ensures SeenKept(pt.seen, pt.seen[t := pt.st.idx]) && AtKept(pt.st.seen, NewTable(pt.st).seen)
    ensures HeapKept(pt.st.heap, NewTable(pt.st).heap, -1)
  {
    var seen1, st1 := pt.seen[t := pt.st.idx], NewTable(pt.st);
    forall u | u in seen1 ensures LinkOk(Point(seen1, st1), u) {
      if u != t {
        assert LinkOk(pt, u);
      }
    }
    forall u, w | SameImage(seen1, st1.seen, u, w) ensures u == w {
      if u != t {
        assert LinkOk(pt, u);
      }
      if w != t {
        assert LinkOk(pt, w);
      }
      if u != t && w != t {
        assert SameImage(pt.seen, pt.st.seen, u, w);
      }
    }
  }

  lemma NoStep(g: Graph, pt: Point, open: int)
    requires Linked(pt)
    ensures Step(g, pt, pt, open)
  {
  }

  /** The step over a whole new table, from the step over its entries. */
  lemma TableStep(g: Graph, pt: Point, t: nat, pt1: Point)
    requires Linked(pt) && t !in pt.seen && t in g
    requires Step(g, Point(pt.seen[t := pt.st.idx], NewTable(pt.st)), pt1, |pt.st.heap|)
    requires EntriesSeen(g[t], |g[t]|, pt1.seen)
    requires |pt.st.heap| < |pt1.st.heap| && pt1.st.heap[|pt.st.heap|] == Filled(g[t], |g[t]|, pt1.seen, pt1.st.seen)
    ensures Step(g, pt, pt1, -1) && Image(pt1.seen, pt1.st.seen, Table(t)) == Table(|pt.st.heap|) && t in pt1.seen
  {
    NewLinked(g, pt, t);
    var seen0, st0 := pt.seen[t := pt.st.idx], NewTable(pt.st);
    assert t in seen0 && st0.seen[seen0[t]] == Table(|pt.st.heap|);
    assert pt.st.idx in st0.seen && pt1.seen[t] == pt.st.idx && pt1.st.seen[pt.st.idx] == Table(|pt.st.heap|);
    forall d | 0 <= d < |pt.st.heap| ensures pt1.st.heap[d] == pt.st.heap[d] {
      assert st0.heap[d] == pt.st.heap[d];
    }
    forall u | u in pt1.seen && u !in pt.seen ensures Done(g, |pt.st.heap|, pt1, u) {
      if u != t {
        assert Done(g, |st0.heap|, pt1, u);
      }
    }
    forall u | u in pt.seen ensures u in pt1.seen && pt1.seen[u] == pt.seen[u] {
      assert u in seen0;
    }
    forall i | i in pt.st.seen ensures i in pt1.st.seen && pt1.st.seen[i] == pt.st.seen[i] {
      assert i in st0.seen && st0.seen[i] == pt.st.seen[i];
    }
  }

  lemma ImageOfPlain(seen: map<nat, nat>, at: map<nat, Value>, v: Value)
    ensures Image(seen, at, v) == if v.Table? && Known(seen, at, v.ref) then at[seen[v.ref]] else v
  {
  }

  lemma LinkedOne(pt: Point, t: nat)
    requires Linked(pt) && t in pt.seen
    ensures 0 < pt.seen[t] < pt.st.idx && pt.seen[t] in pt.st.seen && Known(pt.seen, pt.st.seen, t)
  {
    assert LinkOk(pt, t);
  }

  lemma PlainTable(g: Graph, t: nat)
    requires Plain(g)
    ensures GraphOk(g) && (t in g ==> EntriesPlain(g[t]) && EntriesClosed(g, g[t]))
  {
  }

  lemma LinkedAfter(g: Graph, pt: Point, pt1: Point, open: int)
    requires Step(g, pt, pt1, open)
    ensures Linked(pt1) && |pt.st.heap| <= |pt1.st.heap| && SeenKept(pt.seen, pt1.seen)
            && AtKept(pt.st.seen, pt1.st.seen)
    ensures forall d | 0 <= d < |pt.st.heap| && d != open :: pt1.st.heap[d] == pt.st.heap[d]
  {
  }

  lemma StepOpen(g: Graph, pt: Point, pt1: Point, open: int)
    requires Step(g, pt, pt1, -1)
    ensures Step(g, pt, pt1, open)
  {
  }

  lemma ImageNotNil(pt: Point, v: Value)
    requires Linked(pt) && v != Nil
    ensures Image(pt.seen, pt.st.seen, v) != Nil
  {
    if v.Table? && v.ref in pt.seen {
      assert LinkOk(pt, v.ref);
    }
  }

  /** What the first entries of table `t` read back as: the decoder is carried past them. */
  ghost predicate EntriesRead(bytes: seq<Byte>, st: State, t: nat, st1: State) {
    && t < |st.heap| <= |st1.heap|
    && forall pre: seq<Byte>, post: seq<Byte>, end: nat | |pre| + |bytes| <= end ::
         DecodeTable(pre + bytes + post, end, |pre|, st, t)
         == DecodeTable(pre + bytes + post, end, |pre| + |bytes|, st1, t)
  }

  lemma ReadsWhole(bytes: seq<Byte>, st: State, t: nat, st1: State)
    requires t < |st.heap| && EntriesRead(bytes, st, t, st1)
    ensures TableReads(bytes, st, t, st1)
  {
    forall pre: seq<Byte>, post: seq<Byte>
      ensures DecodeTable(pre + bytes + post, |pre| + |bytes|, |pre|, st, t) == Read(st1)
    {
      var end := |pre| + |bytes|;
      assert DecodeTable(pre + bytes + post, end, |pre|, st, t)
             == DecodeTable(pre + bytes + post, end, |pre| + |bytes|, st1, t);
    }
  }

  /** A new table, once its entries are read. */
  lemma NewTableRead(g: Graph, pt: Point, t: nat, body: Encoded, st1: State)
    requires Linked(pt) && t in g && t !in pt.seen && |body.bytes| <= UINT32_MAX
    requires Step(g, Point(pt.seen[t := pt.st.idx], NewTable(pt.st)), Point(body.seen, st1), |pt.st.heap|)
    requires EntriesRead(body.bytes, NewTable(pt.st), |pt.st.heap|, st1) && EntriesSeen(g[t], |g[t]|, body.seen)
    requires |pt.st.heap| < |st1.heap| && st1.heap[|pt.st.heap|] == Filled(g[t], |g[t]|, body.seen, st1.seen)
    ensures ReadsAs([TTABLE, MAR_TVAL] + (Enc32(|body.bytes|) + body.bytes), pt.st, Table(|pt.st.heap|), st1)
    ensures Step(g, pt, Point(body.seen, st1), -1) && Image(body.seen, st1.seen, Table(t)) == Table(|pt.st.heap|)
    ensures t in body.seen
  {
    hide ReadsAs, Step, Linked, Filled, EntriesSeen, EntriesRead, TableReads, Enc32;
    ReadsWhole(body.bytes, NewTable(pt.st), |pt.st.heap|, st1);
    ReadsTable(body.bytes, pt.st, st1);
    TableStep(g, pt, t, Point(body.seen, st1));
  }

  /** Decoding an encoded value, wherever it stands: the image of the value, and every table met on the way is
      rebuilt. */
  lemma {:induction false} RoundValue(g: Graph, v: Value, seen: map<nat, nat>, e: Encoded, st: State)
    returns (value: Value, st1: State)
    requires Plain(g) && Closed(g, v) && EncodeValue(g, v, seen, st.idx) == Ok(e)
    requires Linked(Point(seen, st)) && e.idx <= INT_LIMIT
    ensures ReadsAs(e.bytes, st, value, st1) && st1.idx == e.idx
    ensures Step(g, Point(seen, st), Point(e.seen, st1), -1)
    ensures value == Image(e.seen, st1.seen, v) && ValueSeen(e.seen, v)
    decreases Unseen(g, seen), 0, 1
  {
    hide ReadsAs, Step, Linked, Plain, EntriesPlain, Filled, EntriesSeen, EntriesRead, DecodeTable, Enc32, GraphOk,
         Image;
    ImageOfPlain(seen, st.seen, v);
    value, st1 := v, st;
    NoStep(g, Point(seen, st), -1);
    match v {
      case Nil => ReadsNil(st);
      case Boolean(b) => ReadsBoolean(b, st);
      case Number(bits) => ReadsNumber(bits, st);
      case Str(s) => ReadsString(s, st);
      case Table(t) =>
        if t in seen {
          LinkedOne(Point(seen, st), t);
          ReadsRef(seen[t], st);
          value := st.seen[seen[t]];
        } else {
          value, st1 := RoundTable(g, t, seen, e, st);
        }
    }
  }

  /** What encoding a new table comes to. */
  lemma NewTableIs(g: Graph, t: nat, seen: map<nat, nat>, idx: nat, e: Encoded) returns (body: Encoded)
    requires GraphOk(g) && t in g && t !in seen && EncodeValue(g, Table(t), seen, idx) == Ok(e)
    ensures Unseen(g, seen[t := idx]) < Unseen(g, seen)
    ensures EntriesClosed(g, g[t]) && EncodeEntries(g, g[t], |g[t]|, seen[t := idx], idx + 1) == Ok(body)
    ensures |body.bytes| <= UINT32_MAX
    ensures e == body.(bytes := [TTABLE, MAR_TVAL] + (Enc32(|body.bytes|) + body.bytes))
  {
    SeenGrows(g, seen, t, idx);
    body := EncodeEntries(g, g[t], |g[t]|, seen[t := idx], idx + 1).value;
  }

  lemma RoundTable(g: Graph, t: nat, seen: map<nat, nat>, e: Encoded, st: State) returns (value: Value, st1: State)
    requires Plain(g) && t in g && t !in seen && EncodeValue(g, Table(t), seen, st.idx) == Ok(e)
    requires Linked(Point(seen, st)) && e.idx <= INT_LIMIT
    ensures ReadsAs(e.bytes, st, value, st1) && st1.idx == e.idx
    ensures Step(g, Point(seen, st), Point(e.seen, st1), -1)
    ensures value == Image(e.seen, st1.seen, Table(t)) && t in e.seen
    decreases Unseen(g, seen), 0, 0
  {
    hide ReadsAs, Step, Linked, Plain, EntriesPlain, Filled, EntriesSeen, EntriesRead, DecodeTable, Enc32, GraphOk,
         Image;
    hide EncodeValue, EncodeEntries, Unseen;
    PlainTable(g, t);
    var body := NewTableIs(g, t, seen, st.idx, e);
    NewLinked(g, Point(seen, st), t);
    st1 := RoundEntries(g, g[t], |g[t]|, seen[t := st.idx], body, NewTable(st), |st.heap|);
    NewTableRead(g, Point(seen, st), t, body, st1);
    value := Table(|st.heap|);
  }

  /** One more entry. */
  function Entered(st: State, t: nat, k: Value, v: Value): State
    requires t < |st.heap|
  {
    var m: map<Value, Value> := st.heap[t][k := v];
    st.(heap := st.heap[t := m])
  }

  lemma ReadsEntry(bytes: seq<Byte>, key: seq<Byte>, val: seq<Byte>, st: State, t: nat, s0: State, k: Value, s1: State,
                   v: Value, s2: State)
    requires EntriesRead(bytes, st, t, s0) && ReadsAs(key, s0, k, s1) && ReadsAs(val, s1, v, s2)
    requires |key| > 0 && |s0.heap| <= |s1.heap| <= |s2.heap| && v != Nil
    requires IsKey(k) && Home(s2.heap[t], k) == k
    ensures EntriesRead(bytes + key + val, st, t, Entered(s2, t, k, v))
  {
    hide DecodeValue, IsKey, Home;
    var all := bytes + key + val;
    forall pre: seq<Byte>, post: seq<Byte>, end: nat | |pre| + |all| <= end
      ensures DecodeTable(pre + all + post, end, |pre|, st, t)
           == DecodeTable(pre + all + post, end, |pre| + |all|, Entered(s2, t, k, v), t)
    {
      var buf, a, b := pre + all + post, pre + bytes, pre + bytes + key;
      assert buf == pre + bytes + (key + val + post);
      assert buf == a + key + (val + post);
      assert buf == b + val + post;
      assert DecodeValue(a + key + (val + post), end, |a|, s0) == Read(Decoded(k, |a| + |key|, s1));
      assert DecodeValue(b + val + post, end, |b|, s1) == Read(Decoded(v, |b| + |val|, s2));
      assert DecodeTable(buf, end, |pre|, st, t) == DecodeTable(buf, end, |a|, s0, t);
    }
  }

  lemma {:induction false} FilledKeys(entries: Entries, n: nat, seen: map<nat, nat>, at: map<nat, Value>,
                                      x: Value)
    returns (i: nat)
    requires n <= |entries| && x in Filled(entries, n, seen, at)
    ensures i < n && x == Image(seen, at, entries[i].0)
  {
    if x == Image(seen, at, entries[n - 1].0) {
      i := n - 1;
    } else {
      i := FilledKeys(entries, n - 1, seen, at, x);
    }
  }

  lemma ImageIsTable(pt: Point, v: Value)
    requires Linked(pt)
    ensures v.Table? ==> Image(pt.seen, pt.st.seen, v).Table?
    ensures !v.Table? ==> Image(pt.seen, pt.st.seen, v) == v
  {
    if v.Table? && v.ref in pt.seen {
      assert LinkOk(pt, v.ref);
    }
  }

  /** The next key of a table is a key, and no key like it is there yet. */
  lemma NextKey(entries: Entries, n: nat, pt: Point)
    requires EntriesPlain(entries) && 0 < n <= |entries| && Linked(pt)
    ensures var k := Image(pt.seen, pt.st.seen, entries[n - 1].0);
            IsKey(k) && Home(Filled(entries, n - 1, pt.seen, pt.st.seen), k) == k
  {
    var key, m := entries[n - 1].0, Filled(entries, n - 1, pt.seen, pt.st.seen);
    ImageIsTable(pt, key);
    var k := Image(pt.seen, pt.st.seen, key);
    assert forall i | 0 <= i < n - 1 :: !SameKey(entries[i].0, key);
    hide Linked, Image, Filled;
    if Home(m, k) != k {
      var i := FilledKeys(entries, n - 1, pt.seen, pt.st.seen, Home(m, k));
      ImageIsTable(pt, entries[i].0);
    }
  }

  lemma FilledOne(entries: Entries, n: nat, seen: map<nat, nat>, at: map<nat, Value>)
    requires 0 < n <= |entries|
    ensures var m: map<Value, Value> := Filled(entries, n - 1, seen, at);
            Filled(entries, n, seen, at) == m[Image(seen, at, entries[n - 1].0) := Image(seen, at, entries[n - 1].1)]
  {
  }

  lemma StepEntered(g: Graph, pt: Point, pt2: Point, t: nat, k: Value, v: Value)
    requires Step(g, pt, pt2, t) && t < |pt.st.heap|
    ensures |pt.st.heap| <= |pt2.st.heap| && Step(g, pt, Point(pt2.seen, Entered(pt2.st, t, k, v)), t)
  {
    var st1 := Entered(pt2.st, t, k, v);
    forall u | u in pt2.seen ensures LinkOk(Point(pt2.seen, st1), u) {
      assert LinkOk(pt2, u);
    }
    forall u | u in pt2.seen && u !in pt.seen ensures Done(g, |pt.st.heap|, Point(pt2.seen, st1), u) {
      assert Done(g, |pt.st.heap|, pt2, u);
    }
    forall u, w | SameImage(pt2.seen, st1.seen, u, w) ensures u == w {
      assert SameImage(pt2.seen, pt2.st.seen, u, w);
    }
  }

  /** Filling in one more entry of the open table keeps everything else. */
  lemma EntryStep(g: Graph, pt: Point, entries: Entries, n: nat, t: nat, pt0: Point, pt1: Point, pt2: Point)
    requires 0 < n <= |entries| && t < |pt.st.heap|
    requires Step(g, pt, pt0, t) && Step(g, pt0, pt1, -1) && Step(g, pt1, pt2, -1)
    requires EntriesSeen(entries, n - 1, pt0.seen) && pt0.st.heap[t] == Filled(entries, n - 1, pt0.seen, pt0.st.seen)
    requires ValueSeen(pt1.seen, entries[n - 1].0) && ValueSeen(pt2.seen, entries[n - 1].1)
    ensures |pt.st.heap| <= |pt0.st.heap| <= |pt1.st.heap| <= |pt2.st.heap| && Linked(pt2)
    ensures pt2.st.heap[t] == Filled(entries, n - 1, pt2.seen, pt2.st.seen)
    ensures Image(pt2.seen, pt2.st.seen, entries[n - 1].0) == Image(pt1.seen, pt1.st.seen, entries[n - 1].0)
    ensures var st1 := Entered(pt2.st, t, Image(pt1.seen, pt1.st.seen, entries[n - 1].0),
                               Image(pt2.seen, pt2.st.seen, entries[n - 1].1));
            && Step(g, pt, Point(pt2.seen, st1), t)
            && EntriesSeen(entries, n, pt2.seen) && st1.heap[t] == Filled(entries, n, pt2.seen, st1.seen)
  {
    hide Step, Filled, Linked;
    LinkedAfter(g, pt, pt0, t);
    LinkedAfter(g, pt0, pt1, -1);
    LinkedAfter(g, pt1, pt2, -1);
    StepOpen(g, pt0, pt1, t);
    StepOpen(g, pt1, pt2, t);
    StepStep(g, pt, pt0, pt1, t);
    StepStep(g, pt, pt1, pt2, t);
    EntriesSeenKept(entries, n - 1, pt0.seen, pt1.seen);
    EntriesSeenKept(entries, n - 1, pt1.seen, pt2.seen);
    FilledKept(entries, n - 1, pt0, pt1.seen, pt1.st.seen);
    FilledKept(entries, n - 1, pt1, pt2.seen, pt2.st.seen);
    ImageKept(pt1, pt2.seen, pt2.st.seen, entries[n - 1].0);
    var k, v := Image(pt1.seen, pt1.st.seen, entries[n - 1].0), Image(pt2.seen, pt2.st.seen, entries[n - 1].1);
    StepEntered(g, pt, pt2, t, k, v);
    FilledOne(entries, n, pt2.seen, pt2.st.seen);
  }

  lemma NothingRead(st: State, t: nat)
    requires t < |st.heap|
    ensures EntriesRead([], st, t, st)
  {
  }

  lemma {:induction false} RoundEntries(g: Graph, entries: Entries, n: nat, seen: map<nat, nat>, e: Encoded, st: State,
                                        t: nat)
    returns (st1: State)
    requires Plain(g) && EntriesClosed(g, entries) && EntriesPlain(entries) && n <= |entries|
    requires EncodeEntries(g, entries, n, seen, st.idx) == Ok(e)
    requires Linked(Point(seen, st)) && e.idx <= INT_LIMIT && t < |st.heap| && st.heap[t] == map[]
    ensures Step(g, Point(seen, st), Point(e.seen, st1), t) && st1.idx == e.idx && |st.heap| <= |st1.heap|
    ensures EntriesRead(e.bytes, st, t, st1)
    ensures EntriesSeen(entries, n, e.seen) && st1.heap[t] == Filled(entries, n, e.seen, st1.seen)
    decreases Unseen(g, seen), 1, n
  {
    hide ReadsAs, Step, Linked, Plain, EntriesRead, EncodeValue, Unseen;
    PlainTable(g, 0);
    if n == 0 {
      st1 := st;
      NoStep(g, Point(seen, st), t);
      NothingRead(st, t);
    } else {
      var (key, val) := entries[n - 1];
      var e0 := EncodeEntries(g, entries, n - 1, seen, st.idx).value;
      var ek := EncodeValue(g, key, e0.seen, e0.idx).value;
      var ev := EncodeValue(g, val, ek.seen, ek.idx).value;
      SeenShrinks(g, seen, e0.seen);
      SeenShrinks(g, seen, ek.seen);
      var s0 := RoundEntries(g, entries, n - 1, seen, e0, st, t);
      LinkedAfter(g, Point(seen, st), Point(e0.seen, s0), t);
      var k, s1 := RoundValue(g, key, e0.seen, ek, s0);
      LinkedAfter(g, Point(e0.seen, s0), Point(ek.seen, s1), -1);
      var v, s2 := RoundValue(g, val, ek.seen, ev, s1);
      LinkedAfter(g, Point(ek.seen, s1), Point(ev.seen, s2), -1);
      ImageNotNil(Point(ek.seen, s1), key);
      ImageNotNil(Point(ev.seen, s2), val);
      st1 := Entered(s2, t, k, v);
      EntryStep(g, Point(seen, st), entries, n, t, Point(e0.seen, s0), Point(ek.seen, s1), Point(ev.seen, s2));
      NextKey(entries, n, Point(ev.seen, s2));
      ReadsEntry(e0.bytes, ek.bytes, ev.bytes, st, t, s0, k, s1, v, s2);
    }
  }

  // ---------------------------------------------------------------- how many tables fit

  /** Anything else counts no table. */
  lemma OtherCount(g: Graph, v: Value, seen: map<nat, nat>, idx: nat, e: Encoded)
    requires GraphOk(g) && Closed(g, v) && EncodeValue(g, v, seen, idx) == Ok(e)
    requires !(v.Table? && v.ref !in seen)
    ensures e.idx == idx && (v.Table? ==> |e.bytes| == 6)
  {
  }

  /** A new table takes at least six bytes. */
  lemma {:induction false} ValueCount(g: Graph, v: Value, seen: map<nat, nat>, idx: nat, e: Encoded)
    requires GraphOk(g) && Closed(g, v) && EncodeValue(g, v, seen, idx) == Ok(e)
    ensures 6 * (e.idx - idx) <= |e.bytes|
    ensures v.Table? ==> |e.bytes| <= 6 + UINT32_MAX
    ensures !v.Table? ==> e.idx == idx
    decreases Unseen(g, seen), 0, 0
  {
    hide EncodeValue, EncodeEntries, Enc32, GraphOk, EntriesClosed, Unseen;
    if v.Table? && v.ref !in seen {
      var body := NewTableIs(g, v.ref, seen, idx, e);
      EntriesCount(g, g[v.ref], |g[v.ref]|, seen[v.ref := idx], idx + 1, body);
    } else {
      OtherCount(g, v, seen, idx, e);
    }
  }

  lemma {:induction false} EntriesCount(g: Graph, entries: Entries, n: nat, seen: map<nat, nat>, idx: nat, e: Encoded)
    requires GraphOk(g) && EntriesClosed(g, entries) && n <= |entries|
             && EncodeEntries(g, entries, n, seen, idx) == Ok(e)
    ensures 6 * (e.idx - idx) <= |e.bytes|
    decreases Unseen(g, seen), 1, n
  {
    if n > 0 {
      var e0 := EncodeEntries(g, entries, n - 1, seen, idx).value;
      EntriesCount(g, entries, n - 1, seen, idx, e0);
      SeenShrinks(g, seen, e0.seen);
      var ek := EncodeValue(g, entries[n - 1].0, e0.seen, e0.idx).value;
      ValueCount(g, entries[n - 1].0, e0.seen, e0.idx, ek);
      SeenShrinks(g, seen, ek.seen);
      ValueCount(g, entries[n - 1].1, ek.seen, ek.idx, EncodeValue(g, entries[n - 1].1, ek.seen, ek.idx).value);
    }
  }

  // ---------------------------------------------------------------- the whole

  /** As many constants as leave every index a table can get below 2^31. */
  const MAX_CONSTANTS: nat := 0x4000_0000

  /** The two constant lists agree on where their tables are and which are the same. */
  ghost predicate ConstantsMatch(a: seq<Value>, b: seq<Value>, heap: Heap) {
    && |a| == |b| < MAX_CONSTANTS
    && (forall i | 0 <= i < |a| && a[i].Table? :: b[i].Table? && b[i].ref < |heap|)
    && (forall i, j | 0 <= i < |a| && 0 <= j < |a| && a[i].Table? && a[j].Table? :: a[i] == a[j] <==> b[i] == b[j])
  }

  /** Index `i` of the SEEN table of the encoder names the constant `t`. */
  ghost predicate SeenConstant(a: seq<Value>, n: nat, t: nat)
    requires n <= |a|
  {
    var seen := ConstantsSeen(a, n);
    t in seen && 0 < seen[t] <= n && a[seen[t] - 1] == Table(t)
  }

  lemma {:induction false} SeenConstants(a: seq<Value>, n: nat)
    requires n <= |a|
    ensures forall t | t in ConstantsSeen(a, n) :: SeenConstant(a, n, t)
    ensures forall i | 0 <= i < n && a[i].Table? :: a[i].ref in ConstantsSeen(a, n)
  {
    if n > 0 {
      SeenConstants(a, n - 1);
      forall t | t in ConstantsSeen(a, n) ensures SeenConstant(a, n, t) {
        assert t in ConstantsSeen(a, n - 1) ==> SeenConstant(a, n - 1, t);
      }
    }
  }

  lemma {:induction false} ConstantsStored(b: seq<Value>, n: nat)
    requires n <= |b|
    ensures forall i: nat :: i in ConstantsAt(b, n) <==> 0 < i <= n && b[i - 1] != Nil
    ensures forall i | i in ConstantsAt(b, n) :: ConstantsAt(b, n)[i] == b[i - 1]
  {
    if n > 0 {
      ConstantsStored(b, n - 1);
    }
  }

  /** The number of a table among the constants names it on both sides. */
  lemma OneConstant(a: seq<Value>, b: seq<Value>, heap: Heap, t: nat)
    requires ConstantsMatch(a, b, heap) && t in ConstantsSeen(a, |a|)
    ensures var i, at := ConstantsSeen(a, |a|)[t], Start(b, heap).seen;
            && 0 < i <= |a| && a[i - 1] == Table(t) && b[i - 1].Table? && b[i - 1].ref < |heap|
            && i in at && at[i] == b[i - 1]
  {
    SeenConstants(a, |a|);
    ConstantsStored(b, |b|);
    hide ConstantsSeen, ConstantsAt;
    assert SeenConstant(a, |a|, t);
  }

  lemma ConstantsLinked(a: seq<Value>, b: seq<Value>, heap: Heap)
    requires ConstantsMatch(a, b, heap)
    ensures Linked(Point(ConstantsSeen(a, |a|), Start(b, heap)))
    ensures forall i | 0 <= i < |a| && a[i].Table? ::
              ValueSeen(ConstantsSeen(a, |a|), a[i]) && Image(ConstantsSeen(a, |a|), Start(b, heap).seen, a[i]) == b[i]
  {
    hide ConstantsSeen, ConstantsAt;
    var seen, st := ConstantsSeen(a, |a|), Start(b, heap);
    SeenConstants(a, |a|);
    ConstantsStored(b, |b|);
    forall t | t in seen ensures LinkOk(Point(seen, st), t) {
      OneConstant(a, b, heap, t);
    }
    forall t, u | SameImage(seen, st.seen, t, u) ensures t == u {
      OneConstant(a, b, heap, t);
      OneConstant(a, b, heap, u);
    }
    forall i | 0 <= i < |a| && a[i].Table? ensures ValueSeen(seen, a[i]) && Image(seen, st.seen, a[i]) == b[i] {
      OneConstant(a, b, heap, a[i].ref);
    }
  }

  /** Different values have different images. */
  lemma ImageInjective(pt: Point, v: Value, w: Value)
    requires Linked(pt) && ValueSeen(pt.seen, v) && ValueSeen(pt.seen, w)
    ensures Image(pt.seen, pt.st.seen, v) == Image(pt.seen, pt.st.seen, w) ==> v == w
    ensures v.Table? <==> Image(pt.seen, pt.st.seen, v).Table?
  {
    if v.Table? {
      assert LinkOk(pt, v.ref);
    }
    if w.Table? {
      assert LinkOk(pt, w.ref);
    }
    if v.Table? && w.Table? && Image(pt.seen, pt.st.seen, v) == Image(pt.seen, pt.st.seen, w) {
      assert SameImage(pt.seen, pt.st.seen, v.ref, w.ref);
    }
  }

  ghost predicate HoldsImage(entry: (Value, Value), seen: map<nat, nat>, at: map<nat, Value>, m: map<Value, Value>) {
    Image(seen, at, entry.0) in m && m[Image(seen, at, entry.0)] == Image(seen, at, entry.1)
  }

  /** Table `m` holds exactly the images of the entries. */
  ghost predicate HoldsImages(entries: Entries, n: nat, seen: map<nat, nat>, at: map<nat, Value>, m: map<Value, Value>)
    requires n <= |entries|
  {
    && (forall i | 0 <= i < n :: HoldsImage(entries[i], seen, at, m))
    && (forall x | x in m :: exists i | 0 <= i < n :: x == Image(seen, at, entries[i].0))
  }

  lemma HoldsOneMore(entries: Entries, n: nat, seen: map<nat, nat>, at: map<nat, Value>, m: map<Value, Value>)
    requires n < |entries| && HoldsImages(entries, n, seen, at, m)
    requires forall i | 0 <= i < n :: Image(seen, at, entries[i].0) != Image(seen, at, entries[n].0)
    ensures HoldsImages(entries, n + 1, seen, at, m[Image(seen, at, entries[n].0) := Image(seen, at, entries[n].1)])
  {
    hide Image;
    var m1 := m[Image(seen, at, entries[n].0) := Image(seen, at, entries[n].1)];
    forall i | 0 <= i < n + 1 ensures HoldsImage(entries[i], seen, at, m1) {
      if i < n {
        assert HoldsImage(entries[i], seen, at, m);
      }
    }
  }

  lemma HoldsNone(entries: Entries, seen: map<nat, nat>, at: map<nat, Value>)
    ensures HoldsImages(entries, 0, seen, at, map[])
  {
  }

  lemma {:induction false} FilledHolds(entries: Entries, n: nat, pt: Point)
    requires n <= |entries| && EntriesPlain(entries) && EntriesSeen(entries, n, pt.seen) && Linked(pt)
    ensures HoldsImages(entries, n, pt.seen, pt.st.seen, Filled(entries, n, pt.seen, pt.st.seen))
  {
    hide Linked, Image, HoldsImages;
    if n > 0 {
      FilledHolds(entries, n - 1, pt);
      forall i | 0 <= i < n - 1
        ensures Image(pt.seen, pt.st.seen, entries[i].0) != Image(pt.seen, pt.st.seen, entries[n - 1].0)
      {
        ImageInjective(pt, entries[i].0, entries[n - 1].0);
      }
      HoldsOneMore(entries, n - 1, pt.seen, pt.st.seen, Filled(entries, n - 1, pt.seen, pt.st.seen));
    } else {
      HoldsNone(entries, pt.seen, pt.st.seen);
    }
  }

  /** Table `t` is rebuilt as a table of its own, made by the decoder, that holds the images of what `t` holds. */
  ghost predicate Rebuilt(g: Graph, pt: Point, size: nat, t: nat) {
    && t in g && EntriesSeen(g[t], |g[t]|, pt.seen)
    && var d := Image(pt.seen, pt.st.seen, Table(t));
    && d.Table? && size <= d.ref < |pt.st.heap| && HoldsImages(g[t], |g[t]|, pt.seen, pt.st.seen, pt.st.heap[d.ref])
  }

  /** The same value up to the names of tables: different values stay different, constants become the decoder's
      constants, every other table that can be reached is rebuilt, and existing tables are left alone. */
  ghost predicate SameGraph(g: Graph, v: Value, a: seq<Value>, b: seq<Value>, heap: Heap, seen: map<nat, nat>,
                            d: Decoded)
  {
    && |a| == |b| && ValueSeen(seen, v) && d.value == Image(seen, d.st.seen, v)
    && (forall x, y | ValueSeen(seen, x) && ValueSeen(seen, y) ::
          Image(seen, d.st.seen, x) == Image(seen, d.st.seen, y) ==> x == y)
    && (forall i | 0 <= i < |a| && a[i].Table? :: ValueSeen(seen, a[i]) && Image(seen, d.st.seen, a[i]) == b[i])
    && (forall t | t in seen && Table(t) !in a :: Rebuilt(g, Point(seen, d.st), |heap|, t))
    && HeapKept(heap, d.st.heap, -1)
  }

  lemma StepIsSame(g: Graph, v: Value, a: seq<Value>, b: seq<Value>, heap: Heap, seen: map<nat, nat>, value: Value,
                   p: nat, st: State)
    requires Plain(g) && ConstantsMatch(a, b, heap)
    requires Step(g, Point(ConstantsSeen(a, |a|), Start(b, heap)), Point(seen, st), -1)
    requires value == Image(seen, st.seen, v) && ValueSeen(seen, v)
    ensures SameGraph(g, v, a, b, heap, seen, Decoded(value, p, st))
  {
    var seen0, st0 := ConstantsSeen(a, |a|), Start(b, heap);
    ConstantsLinked(a, b, heap);
    SeenConstants(a, |a|);
    forall x, y | ValueSeen(seen, x) && ValueSeen(seen, y)
      ensures Image(seen, st.seen, x) == Image(seen, st.seen, y) ==> x == y
    {
      ImageInjective(Point(seen, st), x, y);
    }
    forall i | 0 <= i < |a| && a[i].Table? ensures ValueSeen(seen, a[i]) && Image(seen, st.seen, a[i]) == b[i] {
      ImageKept(Point(seen0, st0), seen, st.seen, a[i]);
    }
    forall t | t in seen && Table(t) !in a ensures Rebuilt(g, Point(seen, st), |heap|, t) {
      assert t in seen0 ==> SeenConstant(a, |a|, t);
      assert Done(g, |heap|, Point(seen, st), t);
      FilledHolds(g[t], |g[t]|, Point(seen, st));
    }
  }

  lemma MatchLengths(a: seq<Value>, b: seq<Value>, heap: Heap)
    requires ConstantsMatch(a, b, heap)
    ensures |a| == |b| < MAX_CONSTANTS
  {
  }

  lemma ReadsAlone(bytes: seq<Byte>, st: State, value: Value, st1: State)
    requires ReadsAs(bytes, st, value, st1)
    ensures DecodeValue(bytes + [0], |bytes|, 0, st) == Read(Decoded(value, |bytes|, st1))
  {
    var none: seq<Byte> := [];
    assert none + bytes + [0] == bytes + [0];
    assert DecodeValue(none + bytes + [0], |bytes|, |none|, st) == Read(Decoded(value, |none| + |bytes|, st1));
  }

  /** Decoding what was encoded: the same graph, all bytes read, and the same indices given out. */
  lemma RoundTrip(g: Graph, v: Value, a: seq<Value>, b: seq<Value>, heap: Heap, e: Encoded)
    requires Plain(g) && Closed(g, v) && ConstantsMatch(a, b, heap) && Encode(g, v, a) == Ok(e)
    ensures var d := Decode(e.bytes, b, heap);
            && d.Read? && SameGraph(g, v, a, b, heap, e.seen, d.value)
            && 1 + d.value.p == |e.bytes| && d.value.st.idx == e.idx
  {
    hide Plain, Linked, Step, SameGraph, DecodeValue, EncodeValue, ConstantsMatch, ConstantsSeen, ConstantsAt;
    MatchLengths(a, b, heap);
    var st := Start(b, heap);
    ConstantsLinked(a, b, heap);
    PlainTable(g, 0);
    var inner := EncodeValue(g, v, ConstantsSeen(a, |a|), |a| + 1).value;
    ValueCount(g, v, ConstantsSeen(a, |a|), |a| + 1, inner);
    var value, st1 := RoundValue(g, v, ConstantsSeen(a, |a|), inner, st);
    assert e.bytes[1..] == inner.bytes;
    ReadsAlone(inner.bytes, st, value, st1);
    StepIsSame(g, v, a, b, heap, e.seen, value, |inner.bytes|, st1);
  }
}
