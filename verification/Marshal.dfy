/** The byte format of the Lua value marshaller: what encoding a value graph writes and what decoding reads. */
module Marshal {
  import opened LittleEndian

  // lua_type of the values that are marshalled
  const TNIL: Byte := 0
  const TBOOLEAN: Byte := 1
  const TNUMBER: Byte := 3
  const TSTRING: Byte := 4
  const TTABLE: Byte := 5
  const TTHREAD: Byte := 8

  const MAR_TREF: Byte := 1
  const MAR_TVAL: Byte := 2
  const MAR_MAGIC: Byte := 0x8e

  const UINT32_MAX: nat := 0xffff_ffff
  const INT_LIMIT: nat := 0x8000_0000

  /** A `lua_Number` is the eight bytes of its double. */
  type Double = b: seq<Byte> | |b| == 8 witness [0, 0, 0, 0, 0, 0, 0, 0]

  /** Tables are named; what they hold is in a graph (encoding) or a heap (decoding). */
  datatype Value = Nil | Boolean(b: bool) | Number(bits: Double) | Str(s: seq<Byte>) | Table(ref: nat)

  datatype Result<+T> = Ok(value: T) | Fail

  /** How decoding ends: with a value, with an error, or with a read beyond the memory of the string. */
  datatype Outcome<+T> = Read(value: T) | Refused | PastEnd

  /** Plus or minus zero, in the layout of IEEE 754. */
  predicate IsZero(d: Double) {
    d[..7] == [0, 0, 0, 0, 0, 0, 0] && d[7] % 0x80 == 0
  }

  /** Not a number: the exponent is all ones and the fraction is not 0. */
  predicate IsNan(d: Double) {
    d[7] % 0x80 == 0x7f && d[6] >= 0xf0 && (d[6] > 0xf0 || d[..6] != [0, 0, 0, 0, 0, 0])
  }

  /** Equal as table keys: the same value, or both zero. */
  predicate SameKey(a: Value, b: Value) {
    a == b || (a.Number? && b.Number? && IsZero(a.bits) && IsZero(b.bits))
  }

  /** What Lua accepts as a key. */
  predicate IsKey(k: Value) {
    !k.Nil? && !(k.Number? && IsNan(k.bits))
  }

  // ---------------------------------------------------------------- encoding

  type Entries = seq<(Value, Value)>

  /** For each table its entries in the order of `lua_next`. */
  type Graph = map<nat, Entries>

  predicate Closed(g: Graph, v: Value) {
    v.Table? ==> v.ref in g
  }

  ghost predicate EntriesClosed(g: Graph, entries: Entries) {
    forall i | 0 <= i < |entries| :: Closed(g, entries[i].0) && Closed(g, entries[i].1)
  }

  ghost predicate GraphOk(g: Graph) {
    forall t | t in g :: EntriesClosed(g, g[t])
  }

  /** How many tables have not been met yet. */
  ghost function Unseen(g: Graph, seen: map<nat, nat>): nat {
    |g.Keys - seen.Keys|
  }

  /** Bytes written, the SEEN table from tables to indices, and the next index. */
  datatype Encoded = Encoded(bytes: seq<Byte>, seen: map<nat, nat>, idx: nat)

  /** An `int` as four bytes. */
  function RefBytes(ref: nat): (r: seq<Byte>)
    ensures |r| == 4
  {
    Enc32(ref % 0x1_0000_0000)
  }

  /** A length and the bytes it counts; longer strings than a length can say are refused. */
  function Prefixed(s: seq<Byte>): Result<seq<Byte>> {
    if |s| > UINT32_MAX then Fail else Ok(Enc32(|s|) + s)
  }

  function Flag(b: bool): Byte {
    if b then 1 else 0
  }

  lemma SeenGrows(g: Graph, seen: map<nat, nat>, t: nat, idx: nat)
    requires t in g && t !in seen
    ensures Unseen(g, seen[t := idx]) < Unseen(g, seen)
  {
    var left := g.Keys - seen.Keys;
    assert g.Keys - seen[t := idx].Keys == left - {t};
  }

  /** `mar_encode_value`. */
  ghost function EncodeValue(g: Graph, v: Value, seen: map<nat, nat>, idx: nat): (r: Result<Encoded>)
    requires GraphOk(g) && Closed(g, v)
    ensures r.Ok? ==> seen.Keys <= r.value.seen.Keys && r.value.idx >= idx && |r.value.bytes| > 0
    decreases Unseen(g, seen), 0, 0
  {
    match v
    case Nil => Ok(Encoded([TNIL], seen, idx))
    case Boolean(b) => Ok(Encoded([TBOOLEAN, Flag(b)], seen, idx))
    case Number(bits) => Ok(Encoded([TNUMBER] + bits, seen, idx))
    case Str(s) =>
      var p := Prefixed(s);
      if p.Fail? then Fail else Ok(Encoded([TSTRING] + p.value, seen, idx))
    case Table(t) =>
      if t in seen then Ok(Encoded([TTABLE, MAR_TREF] + RefBytes(seen[t]), seen, idx))
      else
        SeenGrows(g, seen, t, idx);
        var body := EncodeEntries(g, g[t], |g[t]|, seen[t := idx], idx + 1);
        if body.Fail? then Fail else
        var p := Prefixed(body.value.bytes);
        if p.Fail? then Fail else Ok(body.value.(bytes := [TTABLE, MAR_TVAL] + p.value))
  }

  lemma SeenShrinks(g: Graph, a: map<nat, nat>, b: map<nat, nat>)
    requires a.Keys <= b.Keys
    ensures Unseen(g, b) <= Unseen(g, a)
  {
    var x, y := g.Keys - b.Keys, g.Keys - a.Keys;
    assert y == x + (y - x);
  }

  /** `mar_encode_table`, after the first `n` entries. */
  ghost function EncodeEntries(g: Graph, entries: Entries, n: nat, seen: map<nat, nat>, idx: nat): (r: Result<Encoded>)
    requires GraphOk(g) && EntriesClosed(g, entries) && n <= |entries|
    ensures r.Ok? ==> seen.Keys <= r.value.seen.Keys && r.value.idx >= idx
    decreases Unseen(g, seen), 1, n
  {
    if n == 0 then Ok(Encoded([], seen, idx))
    else
      var before := EncodeEntries(g, entries, n - 1, seen, idx);
      if before.Fail? then Fail else
      SeenShrinks(g, seen, before.value.seen);
      var key := EncodeValue(g, entries[n - 1].0, before.value.seen, before.value.idx);
      if key.Fail? then Fail else
      SeenShrinks(g, seen, key.value.seen);
      var val := EncodeValue(g, entries[n - 1].1, key.value.seen, key.value.idx);
      if val.Fail? then Fail else
      Ok(val.value.(bytes := before.value.bytes + key.value.bytes + val.value.bytes))
  }

  /** What encoding a table not seen before comes to. */
  lemma NewTableEncoded(g: Graph, t: nat, seen: map<nat, nat>, idx: nat)
    requires GraphOk(g) && t in g && t !in seen
    ensures Unseen(g, seen[t := idx]) < Unseen(g, seen) && EntriesClosed(g, g[t])
    ensures var body := EncodeEntries(g, g[t], |g[t]|, seen[t := idx], idx + 1);
            var r := EncodeValue(g, Table(t), seen, idx);
            if body.Ok? && |body.value.bytes| <= UINT32_MAX
            then r == Ok(body.value.(bytes := [TTABLE, MAR_TVAL] + (Enc32(|body.value.bytes|) + body.value.bytes)))
            else r.Fail?
  {
    hide Unseen, Enc32, EncodeEntries;
    SeenGrows(g, seen, t, idx);
  }

  /** One more entry. */
  lemma EntryEncoded(g: Graph, entries: Entries, n: nat, seen: map<nat, nat>, idx: nat, before: Encoded)
    requires GraphOk(g) && EntriesClosed(g, entries) && n < |entries|
    requires EncodeEntries(g, entries, n, seen, idx) == Ok(before)
    ensures seen.Keys <= before.seen.Keys
    ensures var key := EncodeValue(g, entries[n].0, before.seen, before.idx);
            if key.Fail? then EncodeEntries(g, entries, n + 1, seen, idx).Fail?
            else
              var val := EncodeValue(g, entries[n].1, key.value.seen, key.value.idx);
              EncodeEntries(g, entries, n + 1, seen, idx)
              == if val.Fail? then Fail
                 else Ok(val.value.(bytes := before.bytes + key.value.bytes + val.value.bytes))
  {
  }

  /** Entries that cannot be encoded are not encoded by going on. */
  lemma {:induction false} StaysFailed(g: Graph, entries: Entries, n: nat, m: nat, seen: map<nat, nat>, idx: nat)
    requires GraphOk(g) && EntriesClosed(g, entries) && n <= m <= |entries|
    requires EncodeEntries(g, entries, n, seen, idx).Fail?
    ensures EncodeEntries(g, entries, m, seen, idx).Fail?
  {
    if n < m {
      StaysFailed(g, entries, n, m - 1, seen, idx);
    }
  }

  /** The SEEN table that the constants start with, and the first free index: nil constants are skipped, and
      of a repeated one the last index counts. Only tables are ever looked up in it. */
  function ConstantsSeen(constants: seq<Value>, n: nat): map<nat, nat>
    requires n <= |constants|
  {
    if n == 0 then map[]
    else
      var before := ConstantsSeen(constants, n - 1);
      if constants[n - 1].Table? then before[constants[n - 1].ref := n] else before
  }

  /** The constants can be entered into the SEEN table, as its keys. */
  predicate AreKeys(constants: seq<Value>) {
    forall i | 0 <= i < |constants| :: constants[i].Nil? || IsKey(constants[i])
  }

  /** `mar_encode`. */
  ghost function Encode(g: Graph, v: Value, constants: seq<Value>): Result<Encoded>
    requires GraphOk(g) && Closed(g, v)
  {
    if !AreKeys(constants) then Fail else
    var r := EncodeValue(g, v, ConstantsSeen(constants, |constants|), |constants| + 1);
    if r.Fail? then Fail else Ok(r.value.(bytes := [MAR_MAGIC] + r.value.bytes))
  }

  // ---------------------------------------------------------------- decoding

  type Heap = seq<map<Value, Value>>

  /** The tables made, the SEEN table from indices to values, and the next index. */
  datatype State = State(heap: Heap, seen: map<nat, Value>, idx: nat)

  datatype Decoded = Decoded(value: Value, p: nat, st: State)

  const PLUS_ZERO: Double := [0, 0, 0, 0, 0, 0, 0, 0]
  const MINUS_ZERO: Double := [0, 0, 0, 0, 0, 0, 0, 0x80]

  /** The key of `m` that `k` stands for: a zero stands for the other zero if that is there. */
  function Home(m: map<Value, Value>, k: Value): Value {
    if k == Number(PLUS_ZERO) && Number(MINUS_ZERO) in m then Number(MINUS_ZERO)
    else if k == Number(MINUS_ZERO) && Number(PLUS_ZERO) in m then Number(PLUS_ZERO)
    else k
  }

  /** `lua_settable` on a plain table; nil and NaN are no keys. */
  function SetTable(heap: Heap, t: nat, k: Value, v: Value): (r: Outcome<Heap>)
    requires t < |heap|
    ensures !r.PastEnd? && (r.Read? ==> |r.value| == |heap|)
  {
    if !IsKey(k) then Refused
    else
      var at := Home(heap[t], k);
      var m: map<Value, Value> := if v.Nil? then heap[t] - {at} else heap[t][at := v];
      Read(heap[t := m])
  }

  /** An index read back as an `int`; negative ones are never seen. */
  function Lookup(seen: map<nat, Value>, ref: nat): Value {
    if ref < INT_LIMIT && ref in seen then seen[ref] else Nil
  }

  /** The decoder when it meets a new table. */
  function NewTable(st: State): State {
    State(st.heap + [map[]], st.seen[st.idx := Table(|st.heap|)], st.idx + 1)
  }

  /** `mar_decode_value` at `p`, in a buffer that is said to end at `end`. `mem` is what may be read: the string and
      its terminating zero. The end of a nested buffer is announced by its length, and may lie beyond the string;
      the program compares a length with the end of its buffer only after it has read that far, except for the
      length fields themselves.
      The tags of functions, userdata and `__persist` tables are not modelled and are refused, like bad codes. */
  function DecodeValue(mem: seq<Byte>, end: nat, p: nat, st: State): (r: Outcome<Decoded>)
    requires p <= end && p <= |mem|
    ensures r.Read? ==> p < r.value.p <= end && r.value.p <= |mem| && |st.heap| <= |r.value.st.heap|
    decreases |mem| - p, 0
  {
    if p == |mem| then PastEnd
    else if p + 1 > end then Refused
    else if mem[p] == TNIL || mem[p] == TTHREAD then Read(Decoded(Nil, p + 1, st))
    else if mem[p] == TBOOLEAN then
      if p + 2 > |mem| then PastEnd
      else if p + 2 > end then Refused
      else Read(Decoded(Boolean(mem[p + 1] != 0), p + 2, st))
    else if mem[p] == TNUMBER then
      if p + 9 > |mem| then PastEnd
      else if p + 9 > end then Refused
      else Read(Decoded(Number(mem[p + 1..p + 9]), p + 9, st))
    else if mem[p] == TSTRING then
      if p + 5 > end then Refused
      else if p + 5 > |mem| then PastEnd
      else
        var l := Dec32(mem[p + 1..p + 5]);
        if p + 5 + l > |mem| then PastEnd
        else if p + 5 + l > end then Refused
        else Read(Decoded(Str(mem[p + 5..p + 5 + l]), p + 5 + l, st))
    else if mem[p] == TTABLE then
      if p + 2 > |mem| then PastEnd
      else if p + 2 > end || (mem[p + 1] != MAR_TREF && mem[p + 1] != MAR_TVAL) || p + 6 > end then Refused
      else if p + 6 > |mem| then PastEnd
      else
        var l := Dec32(mem[p + 2..p + 6]);
        if mem[p + 1] == MAR_TREF then Read(Decoded(Lookup(st.seen, l), p + 6, st))
        else
          var t := |st.heap|;
          match DecodeTable(mem, p + 6 + l, p + 6, NewTable(st), t)
          case Refused => Refused
          case PastEnd => PastEnd
          case Read(st1) => if p + 6 + l > end then Refused else Read(Decoded(Table(t), p + 6 + l, st1))
    else Refused
  }

  /** `mar_decode_table` into table `t`, from `p` on. */
  function DecodeTable(mem: seq<Byte>, end: nat, p: nat, st: State, t: nat): (r: Outcome<State>)
    requires p <= end && p <= |mem| && t < |st.heap|
    ensures r.Read? ==> |st.heap| <= |r.value.heap| && end <= |mem|
    decreases |mem| - p, 1
  {
    if p == end then Read(st)
    else
      match DecodeValue(mem, end, p, st)
      case Refused => Refused
      case PastEnd => PastEnd
      case Read(k) =>
        match DecodeValue(mem, end, k.p, k.st)
        case Refused => Refused
        case PastEnd => PastEnd
        case Read(v) =>
          match SetTable(v.st.heap, t, k.value, v.value)
          case Refused => Refused
          case Read(heap) => DecodeTable(mem, end, v.p, v.st.(heap := heap), t)
  }

  /** The SEEN table that the constants start with; storing nil stores nothing. */
  function ConstantsAt(constants: seq<Value>, n: nat): map<nat, Value>
    requires n <= |constants|
  {
    if n == 0 then map[]
    else
      var before := ConstantsAt(constants, n - 1);
      if constants[n - 1].Nil? then before else before[n := constants[n - 1]]
  }

  /** The two SEEN tables after the constants are entered. */
  function Start(b: seq<Value>, heap: Heap): State {
    State(heap, ConstantsAt(b, |b|), |b| + 1)
  }

  /** `mar_decode`. `heap` holds the tables that exist already, those of the constants among them. A Lua string is
      followed by a zero in memory. */
  function Decode(s: seq<Byte>, constants: seq<Value>, heap: Heap): Outcome<Decoded> {
    if |s| < 1 || s[0] != MAR_MAGIC then Refused
    else DecodeValue(s[1..] + [0], |s| - 1, 0, Start(constants, heap))
  }

  // ---------------------------------------------------------------- the bytes themselves

  /** A tag, a 32-bit number and what follows. */
  lemma Prefix32(tag: seq<Byte>, n: U32, rest: seq<Byte>)
    ensures var b, k := tag + (Enc32(n) + rest), |tag|;
            |b| == k + 4 + |rest| && b[..k] == tag && FromDigits(b[k..k + 4]) == n && b[k + 4..] == rest
  {
    hide Enc32, Dec32, FromDigits;
    var b, k := tag + (Enc32(n) + rest), |tag|;
    Dec32Enc32(n, rest);
    DecIsDigits(Enc32(n) + rest);
    assert b[k..k + 4] == (Enc32(n) + rest)[..4];
  }

  /** What encoding writes, byte by byte: a tag, and then one byte for a boolean, the eight of a double, a length in
      little-endian order and what it counts for a string or a new table, and an index for a table seen before. */
  lemma BytesOf(g: Graph, v: Value, seen: map<nat, nat>, idx: nat)
    requires GraphOk(g) && Closed(g, v)
    ensures var r := EncodeValue(g, v, seen, idx);
            && (v.Nil? ==> r == Ok(Encoded([0], seen, idx)))
            && (v.Boolean? ==> r == Ok(Encoded([1, if v.b then 1 else 0], seen, idx)))
            && (v.Number? ==> r == Ok(Encoded([3] + v.bits, seen, idx)))
            && (v.Str? ==> (r.Fail? <==> |v.s| >= 0x1_0000_0000))
            && (v.Str? && r.Ok? ==>
                  && r.value.seen == seen && r.value.idx == idx && |r.value.bytes| == 5 + |v.s|
                  && r.value.bytes[0] == 4 && FromDigits(r.value.bytes[1..5]) == |v.s| && r.value.bytes[5..] == v.s)
            && (v.Table? && v.ref in seen ==>
                  && r.Ok? && r.value.seen == seen && r.value.idx == idx && |r.value.bytes| == 6
                  && r.value.bytes[..2] == [5, 1] && FromDigits(r.value.bytes[2..6]) == seen[v.ref] % 0x1_0000_0000)
  {
    match v
    case Str(s) =>
      if |s| <= UINT32_MAX {
        Prefix32([TSTRING], |s|, s);
      }
    case Table(t) =>
      if t in seen {
        Prefix32([TTABLE, MAR_TREF], seen[t] % 0x1_0000_0000, []);
        assert [TTABLE, MAR_TREF] + (RefBytes(seen[t]) + []) == [TTABLE, MAR_TREF] + RefBytes(seen[t]);
      }
    case _ =>
  }

  /** A table not seen before gets the next index, and its entries follow with their length in front. */
  lemma BytesOfNewTable(g: Graph, t: nat, seen: map<nat, nat>, idx: nat)
    requires GraphOk(g) && t in g && t !in seen && Unseen(g, seen[t := idx]) < Unseen(g, seen)
    ensures var body, r := EncodeEntries(g, g[t], |g[t]|, seen[t := idx], idx + 1), EncodeValue(g, Table(t), seen, idx);
            && (r.Ok? <==> body.Ok? && |body.value.bytes| < 0x1_0000_0000)
            && (r.Ok? ==>
                  && r.value.seen == body.value.seen && r.value.idx == body.value.idx
                  && |r.value.bytes| == 6 + |body.value.bytes| && r.value.bytes[..2] == [5, 2]
                  && FromDigits(r.value.bytes[2..6]) == |body.value.bytes| && r.value.bytes[6..] == body.value.bytes)
  {
    hide Unseen, Enc32, EncodeEntries, EncodeValue, FromDigits;
    NewTableEncoded(g, t, seen, idx);
    var body := EncodeEntries(g, g[t], |g[t]|, seen[t := idx], idx + 1);
    if body.Ok? && |body.value.bytes| <= UINT32_MAX {
      Prefix32([TTABLE, MAR_TVAL], |body.value.bytes|, body.value.bytes);
    }
  }

  /** Index `k` is the last that table `t` has among the constants; 0 is none. */
  predicate LastIndex(constants: seq<Value>, n: nat, t: nat, k: nat)
    requires n <= |constants|
  {
    && k <= n && (k > 0 ==> constants[k - 1] == Table(t))
    && forall i | k <= i < n :: constants[i] != Table(t)
  }

  lemma {:induction false} ConstantFound(constants: seq<Value>, n: nat, t: nat)
    requires n <= |constants|
    ensures var seen := ConstantsSeen(constants, n);
            && (t in seen ==> seen[t] > 0) && LastIndex(constants, n, t, if t in seen then seen[t] else 0)
  {
    if n > 0 {
      ConstantFound(constants, n - 1, t);
    }
  }

  /** The constants have the indices 1, 2, ...; a table among them is found under the last it has, and new tables go on
      behind them. Everything begins with the magic byte. */
  lemma BytesBegin(g: Graph, v: Value, constants: seq<Value>)
    requires GraphOk(g) && Closed(g, v) && AreKeys(constants)
    ensures var seen := ConstantsSeen(constants, |constants|);
            var r, e := EncodeValue(g, v, seen, |constants| + 1), Encode(g, v, constants);
            && (e.Ok? <==> r.Ok?) && (e.Ok? ==> e.value == r.value.(bytes := [0x8e] + r.value.bytes))
            && (forall t: nat | t in seen :: seen[t] > 0)
            && (forall t: nat :: LastIndex(constants, |constants|, t, if t in seen then seen[t] else 0))
  {
    forall t: nat ensures var seen := ConstantsSeen(constants, |constants|);
                          (t in seen ==> seen[t] > 0)
                          && LastIndex(constants, |constants|, t, if t in seen then seen[t] else 0)
    {
      ConstantFound(constants, |constants|, t);
    }
  }

  /** What the decoder makes of the byte at `p`, as long as all it asks for is there: 0 and 8 are nil, any other byte
      than 0 behind a 1 is true, 3 is a double, and 5 with 1 is the value of an index, or nil if there is none or it
      is negative as an `int`; other tags and codes are refused. */
  lemma TagsMean(mem: seq<Byte>, end: nat, p: nat, st: State)
    requires p + 9 <= end <= |mem|
    ensures var r, tag := DecodeValue(mem, end, p, st), mem[p];
            && (tag == 0 || tag == 8 ==> r == Read(Decoded(Nil, p + 1, st)))
            && (tag == 1 ==> r == Read(Decoded(Boolean(mem[p + 1] != 0), p + 2, st)))
            && (tag == 3 ==> r == Read(Decoded(Number(mem[p + 1..p + 9]), p + 9, st)))
            && (tag !in {0, 1, 3, 4, 5, 8} ==> r == Refused)
            && (tag == 5 && mem[p + 1] != 1 && mem[p + 1] != 2 ==> r == Refused)
            && (tag == 5 && mem[p + 1] == 1 ==>
                  var l := FromDigits(mem[p + 2..p + 6]);
                  r == Read(Decoded(if l < 0x8000_0000 && l in st.seen then st.seen[l] else Nil, p + 6, st)))
  {
    hide Dec32, FromDigits, DecodeTable;
    DecIsDigits(mem[p + 2..p + 6]);
    assert mem[p + 2..p + 6][..4] == mem[p + 2..p + 6];
  }

  /** A string or a table body is exactly as long as announced; behind a table the table made for it holds what its
      entries put in, and decoding goes on after the announced length. */
  lemma LengthsMean(mem: seq<Byte>, end: nat, p: nat, st: State)
    requires p + 6 <= end <= |mem|
    ensures var r, l := DecodeValue(mem, end, p, st), FromDigits(mem[p + 1..p + 5]);
            mem[p] == 4 ==>
              && (r.PastEnd? <==> p + 5 + l > |mem|) && (r.Refused? <==> end < p + 5 + l <= |mem|)
              && (r.Read? ==> r.value == Decoded(Str(mem[p + 5..p + 5 + l]), p + 5 + l, st))
    ensures var r, l := DecodeValue(mem, end, p, st), FromDigits(mem[p + 2..p + 6]);
            mem[p] == 5 && mem[p + 1] == 2 ==>
              var st0 := State(st.heap + [map[]], st.seen[st.idx := Table(|st.heap|)], st.idx + 1);
              var body := DecodeTable(mem, p + 6 + l, p + 6, st0, |st.heap|);
              && (r.Read? <==> body.Read? && p + 6 + l <= end) && (r.PastEnd? <==> body.PastEnd?)
              && (r.Read? ==> r.value == Decoded(Table(|st.heap|), p + 6 + l, body.value))
  {
    hide Dec32, FromDigits, DecodeTable;
    DecIsDigits(mem[p + 2..p + 6]);
    DecIsDigits(mem[p + 1..p + 5]);
    assert mem[p + 2..p + 6][..4] == mem[p + 2..p + 6] && mem[p + 1..p + 5][..4] == mem[p + 1..p + 5];
  }

  /** No two keys of a table are equal as keys. */
  predicate KeysDiffer(m: map<Value, Value>) {
    forall a, b | a in m && b in m && SameKey(a, b) :: a == b
  }

  /** What the table finds under `k`, if anything. */
  predicate FindsUnder(m: map<Value, Value>, k: Value, v: Value) {
    exists x | x in m :: SameKey(x, k) && m[x] == v
  }

  lemma ZeroIs(k: Value)
    ensures k.Number? && IsZero(k.bits) <==> k == Number(PLUS_ZERO) || k == Number(MINUS_ZERO)
  {
    if k.Number? && IsZero(k.bits) {
      assert k.bits == k.bits[..7] + [k.bits[7]];
      assert PLUS_ZERO == PLUS_ZERO[..7] + [PLUS_ZERO[7]] && MINUS_ZERO == MINUS_ZERO[..7] + [MINUS_ZERO[7]];
    }
  }

  /** Storing a value makes it the one thing found under its key, or nothing if it is nil; plus and minus zero are the
      same key. Other keys and other tables keep what they have, and nil and NaN are refused as keys. */
  lemma StoreMeans(heap: Heap, t: nat, k: Value, v: Value)
    requires t < |heap| && KeysDiffer(heap[t])
    ensures var r := SetTable(heap, t, k, v);
            && (r.Read? <==> !k.Nil? && !(k.Number? && IsNan(k.bits))) && (!r.Read? ==> r == Refused)
            && (r.Read? ==>
                  var m := r.value[t];
                  && r.value == heap[t := m] && KeysDiffer(m)
                  && (forall x :: FindsUnder(m, k, x) <==> x == v && !v.Nil?)
                  && (forall x | !SameKey(x, k) :: x in m <==> x in heap[t])
                  && (forall x | !SameKey(x, k) && x in m :: m[x] == heap[t][x]))
  {
    ZeroIs(k);
    if IsKey(k) {
      var at := Home(heap[t], k);
      assert SameKey(at, k) && forall x | x in heap[t] && SameKey(x, k) :: x == at by {
        forall x | x in heap[t] && SameKey(x, k) ensures x == at {
          ZeroIs(x);
        }
      }
      var m := SetTable(heap, t, k, v).value[t];
      if !v.Nil? {
        assert at in m && m[at] == v;
      }
      hide IsZero;
    }
  }
}
