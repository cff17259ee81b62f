/** The marshaller as it runs: growing buffers, a cursor, and a SEEN table on each side.

    The encoder appends to a buffer that doubles when it is full, and writes a new table by way of a second
    buffer, because the length comes first. The decoder walks a cursor through bytes it has no reason to
    trust, and fills tables that others may refer to already. Both are shown to do what the functions
    of Marshal say, on all inputs, so that the round trip proved of those functions is theirs. */
module MarshalCodec {
  import Basics
  import opened LittleEndian
  import opened Marshal
  import opened MarshalRoundTrip

  class Buffer {
    var data: array<Byte>
    var head: nat

    ghost predicate Valid()
      reads this
    {
      head <= data.Length && data.Length > 0
    }

    ghost function Contents(): seq<Byte>
      reads this, data
      requires Valid()
    {
      data[..head]
    }

    /** `buf_init`. */
    constructor ()
      ensures Valid() && fresh(data) && Contents() == []
    {
      data := new Byte[128](i => 0);
      head := 0;
    }

    /** The growing part of `buf_write`: doubles the buffer as often as it takes for `n` bytes more. */
    method Reserve(n: nat)
      requires Valid()
      modifies this
      ensures Valid() && (data == old(data) || fresh(data)) && head == old(head)
      ensures data.Length - head >= n && Contents() == old(Contents())
    {
      if data.Length - head < n {
        var newSize := data.Length * 2;
        while newSize - head <= n
          invariant newSize > data.Length
          decreases n + head - newSize
        {
          newSize := newSize * 2;
        }
        var room := new Byte[newSize](i => 0);
        var i := 0;
        while i < head
          invariant 0 <= i <= head <= data.Length && room[..i] == data[..i]
          modifies room
        {
          room[i] := data[i];
          i := i + 1;
        }
        data := room;
      }
    }

    /** `buf_write`: appends, whatever the length. */
    method Write(str: seq<Byte>) returns (ok: bool)
      requires Valid()
      modifies this, data
      ensures Valid() && (data == old(data) || fresh(data))
      ensures ok <==> |str| <= UINT32_MAX
      ensures Contents() == if ok then old(Contents()) + str else old(Contents())
    {
      if |str| > UINT32_MAX {
        return false;
      }
      ghost var was := Contents();
      Reserve(|str|);
      var j := 0;
      while j < |str|
        invariant 0 <= j <= |str| && head + |str| <= data.Length
        invariant data[..head + j] == was + str[..j]
        modifies data
      {
        data[head + j] := str[j];
        j := j + 1;
        assert data[..head + j] == was + str[..j - 1] + [str[j - 1]];
        assert str[..j] == str[..j - 1] + [str[j - 1]];
      }
      head := head + |str|;
      assert str[..j] == str;
      ok := true;
    }

    /** A tag of one byte and what follows it. */
    method PutTagged(tag: Byte, x: seq<Byte>) returns (ok: bool)
      requires Valid()
      modifies this, data
      ensures Valid() && (data == old(data) || fresh(data))
      ensures ok <==> |x| <= UINT32_MAX
      ensures ok ==> Contents() == old(Contents()) + ([tag] + x)
    {
      ghost var was := Contents();
      ok := Write([tag]);
      ok := Write(x);
      assert was + [tag] + x == was + ([tag] + x);
    }

    /** A string behind its tag and length. */
    method PutString(s: seq<Byte>) returns (ok: bool)
      requires Valid()
      modifies this, data
      ensures Valid() && (data == old(data) || fresh(data))
      ensures ok <==> |s| <= UINT32_MAX
      ensures ok ==> Contents() == old(Contents()) + ([TSTRING] + (Enc32(|s|) + s))
    {
      hide Enc32;
      ghost var was := Contents();
      var l := RefBytes(|s|);
      ok := PutTagged(TSTRING, l);
      ok := Write(s);
      assert was + ([TSTRING] + l) + s == was + ([TSTRING] + (l + s));
    }

    /** A back reference. */
    method PutRef(ref: nat) returns (ok: bool)
      requires Valid()
      modifies this, data
      ensures Valid() && (data == old(data) || fresh(data))
      ensures ok && Contents() == old(Contents()) + ([TTABLE, MAR_TREF] + RefBytes(ref))
    {
      ghost var was := Contents();
      var l := RefBytes(ref);
      ok := Write([TTABLE]);
      ok := PutTagged(MAR_TREF, l);
      assert was + [TTABLE] + ([MAR_TREF] + l) == was + ([TTABLE, MAR_TREF] + l);
    }

    /** The tag of a new table, and its body behind its length. */
    method PutBody(body: seq<Byte>) returns (ok: bool)
      requires Valid()
      modifies this, data
      ensures Valid() && (data == old(data) || fresh(data))
      ensures ok <==> |body| <= UINT32_MAX
      ensures ok ==> Contents() == old(Contents()) + ([MAR_TVAL] + (Enc32(|body|) + body))
    {
      hide Enc32;
      ghost var was := Contents();
      var l := RefBytes(|body|);
      ok := Write([MAR_TVAL]);
      ok := Write(l);
      ok := Write(body);
      Basics.Assoc(was, [MAR_TVAL], l + body);
      Basics.Assoc(was + [MAR_TVAL], l, body);
    }
  }

  /** A writer that took a buffer from `was` to `now` did what `r` says. */
  ghost predicate Wrote(r: Result<Encoded>, ok: bool, was: seq<Byte>, now: seq<Byte>, seen: map<nat, nat>, idx: nat) {
    if ok then r.Ok? && r.value.seen == seen && r.value.idx == idx && now == was + r.value.bytes else r.Fail?
  }

  lemma WroteNothing(r: Result<Encoded>, was: seq<Byte>, now: seq<Byte>, seen: map<nat, nat>, idx: nat)
    requires Wrote(r, false, was, now, seen, idx)
    ensures r.Fail?
  {
  }

  lemma FailsToWrite(r: Result<Encoded>, was: seq<Byte>, now: seq<Byte>, seen: map<nat, nat>, idx: nat)
    requires r.Fail?
    ensures Wrote(r, false, was, now, seen, idx)
  {
  }

  /** A new table: its body was written as `r` says, then put behind tag and length. */
  lemma NewTableWrote(g: Graph, t: nat, seen: map<nat, nat>, idx: nat, ok: bool, body: seq<Byte>, seen1: map<nat, nat>,
                      idx1: nat, was: seq<Byte>, now: seq<Byte>)
    requires GraphOk(g) && t in g && t !in seen && EntriesClosed(g, g[t])
    requires Wrote(EncodeEntries(g, g[t], |g[t]|, seen[t := idx], idx + 1), true, [], body, seen1, idx1)
    requires ok <==> |body| <= UINT32_MAX
    requires ok ==> now == was + [TTABLE] + ([MAR_TVAL] + (Enc32(|body|) + body))
    ensures Wrote(EncodeValue(g, Table(t), seen, idx), ok, was, now, seen1, idx1)
  {
    hide EncodeValue, EncodeEntries, GraphOk, EntriesClosed, Enc32, Unseen;
    NewTableEncoded(g, t, seen, idx);
    if ok {
      var l := Enc32(|body|);
      assert was + [TTABLE] + ([MAR_TVAL] + (l + body)) == was + ([TTABLE, MAR_TVAL] + (l + body));
    }
  }

  lemma NewTableFailed(g: Graph, t: nat, seen: map<nat, nat>, idx: nat)
    requires GraphOk(g) && t in g && t !in seen && EntriesClosed(g, g[t])
    requires EncodeEntries(g, g[t], |g[t]|, seen[t := idx], idx + 1).Fail?
    ensures EncodeValue(g, Table(t), seen, idx).Fail?
  {
    NewTableEncoded(g, t, seen, idx);
  }

  lemma NoEntries(g: Graph, entries: Entries, seen: map<nat, nat>, idx: nat)
    requires GraphOk(g) && EntriesClosed(g, entries)
    ensures EncodeEntries(g, entries, 0, seen, idx) == Ok(Encoded([], seen, idx))
  {
  }

  lemma EntryClosed(g: Graph, entries: Entries, i: nat)
    requires EntriesClosed(g, entries) && i < |entries|
    ensures Closed(g, entries[i].0) && Closed(g, entries[i].1)
  {
  }

  class Encoder {
    var seen: map<nat, nat>
    var idx: nat

    constructor ()
      ensures seen == map[] && idx == 1
    {
      seen := map[];
      idx := 1;
    }

    /** Enters the constants as keys of the SEEN table, nil excepted. A NaN cannot be one. */
    method EnterConstants(constants: seq<Value>) returns (ok: bool)
      requires seen == map[] && idx == 1
      modifies this
      ensures ok <==> AreKeys(constants)
      ensures ok ==> seen == ConstantsSeen(constants, |constants|) && idx == |constants| + 1
    {
      while idx <= |constants|
        invariant 1 <= idx <= |constants| + 1 && seen == ConstantsSeen(constants, idx - 1)
        invariant forall i | 0 <= i < idx - 1 :: constants[i].Nil? || IsKey(constants[i])
      {
        var constant := constants[idx - 1];
        if !constant.Nil? && !IsKey(constant) {
          return false;
        }
        if constant.Table? {
          seen := seen[constant.ref := idx];
        }
        idx := idx + 1;
      }
      ok := true;
    }

    /** `mar_encode_value`. */
    method WriteValue(g: Graph, v: Value, buf: Buffer) returns (ok: bool)
      requires GraphOk(g) && Closed(g, v) && buf.Valid()
      modifies this, buf, buf.data
      ensures buf.Valid() && (buf.data == old(buf.data) || fresh(buf.data))
      ensures Wrote(EncodeValue(g, v, old(seen), old(idx)), ok, old(buf.Contents()), buf.Contents(), seen, idx)
      decreases Unseen(g, seen), 0, 1
    {
      hide GraphOk, EncodeEntries, Enc32, RefBytes, Unseen;
      match v {
        case Nil => ok := buf.Write([TNIL]);
        case Boolean(b) => ok := buf.PutTagged(TBOOLEAN, [Flag(b)]);
        case Number(bits) => ok := buf.PutTagged(TNUMBER, bits);
        case Str(s) => ok := buf.PutString(s);
        case Table(t) =>
          if t in seen {
            ok := buf.PutRef(seen[t]);
          } else {
            ok := WriteNewTable(g, t, buf);
          }
      }
    }

    /** The branch of `mar_encode_value` for a table not seen before. */
    method WriteNewTable(g: Graph, t: nat, buf: Buffer) returns (ok: bool)
      requires GraphOk(g) && t in g && t !in seen && buf.Valid()
      modifies this, buf, buf.data
      ensures buf.Valid() && (buf.data == old(buf.data) || fresh(buf.data))
      ensures Wrote(EncodeValue(g, Table(t), old(seen), old(idx)), ok, old(buf.Contents()), buf.Contents(), seen, idx)
      decreases Unseen(g, seen), 0, 0
    {
      hide GraphOk, EncodeEntries, EntriesClosed, EncodeValue, Wrote, Unseen, Enc32;
      ghost var was, seen0, idx0 := buf.Contents(), seen, idx;
      ok := buf.Write([TTABLE]);
      NewTableEncoded(g, t, seen, idx);
      seen := seen[t := idx];
      idx := idx + 1;
      var recBuf := new Buffer();
      ok := WriteTable(g, g[t], recBuf);
      if !ok {
        WroteNothing(EncodeEntries(g, g[t], |g[t]|, seen0[t := idx0], idx0 + 1), [], recBuf.Contents(), seen, idx);
        NewTableFailed(g, t, seen0, idx0);
        FailsToWrite(EncodeValue(g, Table(t), seen0, idx0), was, buf.Contents(), seen, idx);
        return;
      }
      var body := recBuf.data[..recBuf.head];
      ok := buf.PutBody(body);
      NewTableWrote(g, t, seen0, idx0, ok, body, seen, idx, was, buf.Contents());
    }

    /** `mar_encode_table`. */
    method WriteTable(g: Graph, entries: Entries, buf: Buffer) returns (ok: bool)
      requires GraphOk(g) && EntriesClosed(g, entries) && buf.Valid() && buf.Contents() == []
      modifies this, buf, buf.data
      ensures buf.Valid() && (buf.data == old(buf.data) || fresh(buf.data))
      ensures Wrote(EncodeEntries(g, entries, |entries|, old(seen), old(idx)), ok, [], buf.Contents(), seen, idx)
      decreases Unseen(g, seen), 1, 0
    {
      hide GraphOk, EncodeValue, EncodeEntries, EntriesClosed, Unseen;
      NoEntries(g, entries, seen, idx);
      ghost var seen0, idx0 := seen, idx;
      var i := 0;
      while i < |entries|
        invariant 0 <= i <= |entries|
        invariant buf.Valid() && (buf.data == old(buf.data) || fresh(buf.data))
        invariant seen0.Keys <= seen.Keys
        invariant EncodeEntries(g, entries, i, seen0, idx0) == Ok(Encoded(buf.Contents(), seen, idx))
      {
        EntryEncoded(g, entries, i, seen0, idx0, Encoded(buf.Contents(), seen, idx));
        EntryClosed(g, entries, i);
        SeenShrinks(g, seen0, seen);
        ok := WriteValue(g, entries[i].0, buf);
        if !ok {
          StaysFailed(g, entries, i + 1, |entries|, seen0, idx0);
          return;
        }
        assert seen0.Keys <= seen.Keys;
        SeenShrinks(g, seen0, seen);
        ok := WriteValue(g, entries[i].1, buf);
        if !ok {
          StaysFailed(g, entries, i + 1, |entries|, seen0, idx0);
          return;
        }
        i := i + 1;
      }
      ok := true;
    }
  }

  /** `mar_encode`. */
  method EncodeBytes(g: Graph, v: Value, constants: seq<Value>) returns (r: Result<seq<Byte>>)
    requires GraphOk(g) && Closed(g, v)
    ensures var e := Encode(g, v, constants);
            if r.Ok? then e.Ok? && r.value == e.value.bytes else e.Fail?
  {
    hide EncodeValue;
    var encoder := new Encoder();
    var ok := encoder.EnterConstants(constants);
    if !ok {
      return Fail;
    }
    var buf := new Buffer();
    ok := buf.Write([MAR_MAGIC]);
    ok := encoder.WriteValue(g, v, buf);
    r := if ok then Ok(buf.data[..buf.head]) else Fail;
  }

  class Decoder {
    var heap: Heap
    var seen: map<nat, Value>
    var idx: nat

    function Now(): State
      reads this
    {
      State(heap, seen, idx)
    }

    constructor (constants: seq<Value>, heap0: Heap)
      ensures Now() == Start(constants, heap0)
    {
      heap := heap0;
      seen := map[];
      idx := 1;
      new;
      while idx <= |constants|
        invariant 1 <= idx <= |constants| + 1 && seen == ConstantsAt(constants, idx - 1) && heap == heap0
      {
        if !constants[idx - 1].Nil? {
          seen := seen[idx := constants[idx - 1]];
        }
        idx := idx + 1;
      }
    }

    /** A string, from its length on. */
    method ReadString(mem: seq<Byte>, end: nat, at: nat) returns (r: Outcome<(Value, nat)>)
      requires 0 < at <= end && at <= |mem| && mem[at - 1] == TSTRING
      ensures match DecodeValue(mem, end, at - 1, Now())
              case Refused => r == Refused
              case PastEnd => r == PastEnd
              case Read(d) => r == Read((d.value, d.p)) && Now() == d.st
    {
      hide Dec32, DecodeTable;
      if at + 4 > end {
        return Refused;
      }
      if at + 4 > |mem| {
        return PastEnd;
      }
      var l := Dec32(mem[at..at + 4]);
      var next := at + 4;
      if next + l > |mem| {
        return PastEnd;
      }
      var s := mem[next..next + l];
      if next + l > end {
        return Refused;
      }
      return Read((Str(s), next + l));
    }

    /** `mar_decode_value`: reads the value at `p` and moves behind it. Each read of memory comes before the comparison
        with the end of the buffer, as in the program. */
    method ReadValue(mem: seq<Byte>, end: nat, p: nat) returns (r: Outcome<(Value, nat)>)
      requires p <= end && p <= |mem|
      modifies this
      ensures match DecodeValue(mem, end, p, old(Now()))
              case Refused => r == Refused
              case PastEnd => r == PastEnd
              case Read(d) => r == Read((d.value, d.p)) && Now() == d.st
      decreases |mem| - p, 0
    {
      hide Dec32, DecodeTable, NewTable;
      if p == |mem| {
        return PastEnd;
      }
      var valType := mem[p];
      var next := p + 1;
      if next > end {
        return Refused;
      }
      if valType == TBOOLEAN {
        if next + 1 > |mem| {
          return PastEnd;
        }
        var b := mem[next] != 0;
        if next + 1 > end {
          return Refused;
        }
        return Read((Boolean(b), next + 1));
      } else if valType == TNUMBER {
        if next + 8 > |mem| {
          return PastEnd;
        }
        var bits := mem[next..next + 8];
        if next + 8 > end {
          return Refused;
        }
        return Read((Number(bits), next + 8));
      } else if valType == TSTRING {
        r := ReadString(mem, end, next);
      } else if valType == TTABLE {
        if next + 1 > |mem| {
          return PastEnd;
        }
        var tag := mem[next];
        if next + 1 > end {
          return Refused;
        }
        if (tag != MAR_TREF && tag != MAR_TVAL) || next + 5 > end {
          return Refused;
        }
        if next + 5 > |mem| {
          return PastEnd;
        }
        var l := Dec32(mem[next + 1..next + 5]);
        next := next + 5;
        if tag == MAR_TREF {
          return Read((Lookup(seen, l), next));
        }
        r := ReadNewTable(mem, end, next, l);
      } else if valType == TNIL || valType == TTHREAD {
        return Read((Nil, next));
      } else {
        return Refused;
      }
    }

    /** A new table, from its entries on, which are said to take `l` bytes. */
    method ReadNewTable(mem: seq<Byte>, end: nat, at: nat, l: nat) returns (r: Outcome<(Value, nat)>)
      requires at <= end && at <= |mem|
      modifies this
      ensures var st := old(Now());
              match DecodeTable(mem, at + l, at, NewTable(st), |st.heap|)
              case Refused => r == Refused
              case PastEnd => r == PastEnd
              case Read(st1) =>
                if at + l > end then r == Refused else r == Read((Table(|st.heap|), at + l)) && Now() == st1
      decreases |mem| - at, 2
    {
      hide DecodeTable;
      var t := |heap|;
      heap := heap + [map[]];
      seen := seen[idx := Table(t)];
      idx := idx + 1;
      var how := ReadTable(mem, at + l, at, t);
      match how
      case Refused => return Refused;
      case PastEnd => return PastEnd;
      case Read(_) =>
        if at + l > end {
          return Refused;
        }
        return Read((Table(t), at + l));
    }

    /** `mar_decode_table`: fills table `t` with the entries from `base` on. */
    method ReadTable(mem: seq<Byte>, end: nat, base: nat, t: nat) returns (how: Outcome<()>)
      requires base <= end && base <= |mem| && t < |heap|
      modifies this
      ensures match DecodeTable(mem, end, base, old(Now()), t)
              case Refused => how == Refused
              case PastEnd => how == PastEnd
              case Read(st) => how == Read(()) && Now() == st
      decreases |mem| - base, 1
    {
      hide DecodeValue, SetTable;
      ghost var st0 := Now();
      var p := base;
      while p < end
        invariant base <= p <= end && p <= |mem| && t < |heap|
        invariant DecodeTable(mem, end, base, st0, t) == DecodeTable(mem, end, p, Now(), t)
        decreases |mem| - p
      {
        ghost var at := p;
        var key, val;
        var r := ReadValue(mem, end, p);
        match r {
          case Refused => return Refused;
          case PastEnd => return PastEnd;
          case Read(d) => key, p := d.0, d.1;
        }
        r := ReadValue(mem, end, p);
        match r {
          case Refused => return Refused;
          case PastEnd => return PastEnd;
          case Read(d) => val, p := d.0, d.1;
        }
        var stored := SetTable(heap, t, key, val);
        if stored.Refused? {
          return Refused;
        }
        heap := stored.value;
      }
      how := Read(());
    }
  }

  /** `mar_decode`: the value and the tables there are afterwards. */
  method DecodeBytes(s: seq<Byte>, constants: seq<Value>, heap: Heap) returns (r: Outcome<(Value, Heap)>)
    ensures match Decode(s, constants, heap)
            case Refused => r == Refused
            case PastEnd => r == PastEnd
            case Read(d) => r == Read((d.value, d.st.heap))
  {
    hide DecodeValue;
    if |s| < 1 || s[0] != MAR_MAGIC {
      return Refused;
    }
    var decoder := new Decoder(constants, heap);
    var how := decoder.ReadValue(s[1..] + [0], |s| - 1, 0);
    match how
    case Refused => return Refused;
    case PastEnd => return PastEnd;
    case Read(d) => return Read((d.0, decoder.heap));
  }

  /** `mar_clone`: a value that can be encoded is cloned into the same graph over new tables; only constants are
      shared. */
  method Clone(g: Graph, v: Value, constants: seq<Value>, heap: Heap) returns (r: Outcome<(Value, Heap)>)
    requires Plain(g) && Closed(g, v) && ConstantsMatch(constants, constants, heap)
    ensures var e := Encode(g, v, constants);
            if e.Fail? then r.Refused?
            else
              var d := Decode(e.value.bytes, constants, heap);
              && r.Read? && d.Read? && r.value == (d.value.value, d.value.st.heap)
              && SameGraph(g, v, constants, constants, heap, e.value.seen, d.value)
  {
    hide SameGraph, ConstantsMatch, Encode, Decode;
    var bytes := EncodeBytes(g, v, constants);
    if bytes.Fail? {
      return Refused;
    }
    RoundTrip(g, v, constants, constants, heap, Encode(g, v, constants).value);
    r := DecodeBytes(bytes.value, constants, heap);
  }
}
