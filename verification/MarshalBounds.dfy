/** When the decoder stays inside the string it is given. */
module MarshalBounds {
  import opened LittleEndian
  import opened Marshal

  /** How far the decoder looks when it meets a value at `p`, before it compares anything with the end of the buffer:
      for a number its eight bytes, for a string as many as its length announces. What is in a table is met later. */
  function Extent(mem: seq<Byte>, end: nat, p: nat): (e: nat)
    requires p <= end && p <= |mem|
    ensures e > p
  {
    if p == |mem| || p + 1 > end then p + 1
    else if mem[p] == TBOOLEAN then p + 2
    else if mem[p] == TNUMBER then p + 9
    else if mem[p] == TSTRING then
      if p + 5 > end then p + 1
      else if p + 5 > |mem| then p + 5
      else p + 5 + Dec32(mem[p + 1..p + 5])
    else if mem[p] == TTABLE then
      if p + 2 > |mem| || p + 6 > end || (mem[p + 1] != MAR_TREF && mem[p + 1] != MAR_TVAL) then p + 2 else p + 6
    else p + 1
  }

  /** A new table starts at `p`, with its length readable. */
  predicate OpensTable(mem: seq<Byte>, end: nat, p: nat) {
    p + 6 <= |mem| && p + 6 <= end && mem[p] == TTABLE && mem[p + 1] == MAR_TVAL
  }

  /** Where the table that opens at `p` is said to end. */
  function TableEnd(mem: seq<Byte>, p: nat): nat
    requires p + 6 <= |mem|
  {
    p + 6 + Dec32(mem[p + 2..p + 6])
  }

  /** Decoding the value at `p` comes to a value at `q`, in a buffer that is said to end at `e`. */
  ghost predicate Reaches(mem: seq<Byte>, end: nat, p: nat, st: State, q: nat, e: nat)
    requires p <= end && p <= |mem|
    decreases |mem| - p, 0
  {
    || (q == p && e == end)
    || (OpensTable(mem, end, p) && ReachesInside(mem, TableEnd(mem, p), p + 6, NewTable(st), |st.heap|, q, e))
  }

  /** So does decoding the entries from `p` on. */
  ghost predicate ReachesInside(mem: seq<Byte>, end: nat, p: nat, st: State, t: nat, q: nat, e: nat)
    requires p <= end && p <= |mem| && t < |st.heap|
    decreases |mem| - p, 1
  {
    p < end &&
    (Reaches(mem, end, p, st, q, e) ||
     match DecodeValue(mem, end, p, st)
     case Refused => false
     case PastEnd => false
     case Read(k) =>
       Reaches(mem, end, k.p, k.st, q, e) ||
       match DecodeValue(mem, end, k.p, k.st)
       case Refused => false
       case PastEnd => false
       case Read(v) =>
         match SetTable(v.st.heap, t, k.value, v.value)
         case Refused => false
         case Read(heap) => ReachesInside(mem, end, v.p, v.st.(heap := heap), t, q, e))
  }

  /** The decoder looks beyond the memory at the value at `q`. */
  ghost predicate Overruns(mem: seq<Byte>, q: nat, e: nat) {
    q <= e && q <= |mem| && Extent(mem, e, q) > |mem|
  }

  /** Decoding reads past the end exactly when some value it comes to announces more bytes than there are. */
  lemma {:induction false} ValueIff(mem: seq<Byte>, end: nat, p: nat, st: State)
    requires p <= end && p <= |mem|
    ensures DecodeValue(mem, end, p, st).PastEnd? <==>
              exists q: nat, e: nat :: Reaches(mem, end, p, st, q, e) && Overruns(mem, q, e)
    decreases |mem| - p, 0
  {
    hide Dec32;
    assert Reaches(mem, end, p, st, p, end);
    if OpensTable(mem, end, p) {
      var t := |st.heap|;
      EntriesIff(mem, TableEnd(mem, p), p + 6, NewTable(st), t);
      assert !Overruns(mem, p, end);
      if DecodeValue(mem, end, p, st).PastEnd? {
        var q: nat, e: nat :| ReachesInside(mem, TableEnd(mem, p), p + 6, NewTable(st), t, q, e) && Overruns(mem, q, e);
        assert Reaches(mem, end, p, st, q, e);
      }
    } else {
      assert DecodeValue(mem, end, p, st).PastEnd? <==> Overruns(mem, p, end);
    }
  }

  lemma {:induction false} EntriesIff(mem: seq<Byte>, end: nat, p: nat, st: State, t: nat)
    requires p <= end && p <= |mem| && t < |st.heap|
    ensures DecodeTable(mem, end, p, st, t).PastEnd? <==>
              exists q: nat, e: nat :: ReachesInside(mem, end, p, st, t, q, e) && Overruns(mem, q, e)
    decreases |mem| - p, 1
  {
    hide Overruns, SetTable, DecodeValue;
    if p < end {
      ValueIff(mem, end, p, st);
      match DecodeValue(mem, end, p, st)
      case Refused =>
      case PastEnd =>
        var q: nat, e: nat :| Reaches(mem, end, p, st, q, e) && Overruns(mem, q, e);
        assert ReachesInside(mem, end, p, st, t, q, e);
      case Read(k) =>
        ValueIff(mem, end, k.p, k.st);
        match DecodeValue(mem, end, k.p, k.st)
        case Refused =>
        case PastEnd =>
          var q: nat, e: nat :| Reaches(mem, end, k.p, k.st, q, e) && Overruns(mem, q, e);
          assert ReachesInside(mem, end, p, st, t, q, e);
        case Read(v) =>
          match SetTable(v.st.heap, t, k.value, v.value)
          case Refused =>
          case Read(heap) =>
            var st1 := v.st.(heap := heap);
            EntriesIff(mem, end, v.p, st1, t);
            if DecodeTable(mem, end, v.p, st1, t).PastEnd? {
              var q: nat, e: nat :| ReachesInside(mem, end, v.p, st1, t, q, e) && Overruns(mem, q, e);
              assert ReachesInside(mem, end, p, st, t, q, e);
            }
    }
  }

  /** `mar_decode` reads past the string exactly when a value it comes to announces more bytes than are left. */
  lemma PastEndIff(s: seq<Byte>, constants: seq<Value>, heap: Heap)
    requires |s| > 0 && s[0] == MAR_MAGIC
    ensures var mem, st := s[1..] + [0], Start(constants, heap);
            Decode(s, constants, heap).PastEnd? <==>
              exists q: nat, e: nat :: Reaches(mem, |s| - 1, 0, st, q, e) && Overruns(mem, q, e)
  {
    ValueIff(s[1..] + [0], |s| - 1, 0, Start(constants, heap));
  }

  // ---------------------------------------------------------------- a scan that can be made beforehand

  /** What the tag and the announced length at `p` say: a value that ends at `next`, and whether it can be a key; the
      value with an index; a table whose entries are in [body, bodyEnd); or a stop, past the end of memory or not. */
  datatype Head = Leaf(next: nat, key: bool) | Ref(next: nat, index: nat) | Opens(body: nat, bodyEnd: nat)
                | Stops(past: bool)

  function HeadAt(mem: seq<Byte>, end: nat, p: nat): (h: Head)
    requires p <= end && p <= |mem|
    ensures h.Leaf? || h.Ref? ==> p < h.next <= end && h.next <= |mem|
    ensures h.Opens? ==> p < h.body <= h.bodyEnd && h.body <= |mem|
  {
    var reach := Extent(mem, end, p);
    if reach > |mem| then Stops(true)
    else if mem[p] == TTABLE then
      if p + 6 > end || (mem[p + 1] != MAR_TREF && mem[p + 1] != MAR_TVAL) then Stops(false)
      else if mem[p + 1] == MAR_TREF then Ref(p + 6, Dec32(mem[p + 2..p + 6]))
      else Opens(p + 6, TableEnd(mem, p))
    else if reach > end || (mem[p] == TSTRING && p + 5 > end) then Stops(false)
    else if mem[p] == TNIL || mem[p] == TTHREAD then Leaf(p + 1, false)
    else if mem[p] == TNUMBER then Leaf(p + 9, !IsNan(mem[p + 1..p + 9]))
    else if mem[p] == TBOOLEAN || mem[p] == TSTRING then Leaf(reach, true)
    else Stops(false)
  }

  /** Where a scan stands behind a value: whether the value can be a key, and which indices name one that can. */
  datatype Scanned = Scanned(p: nat, key: bool, marks: seq<bool>)

  predicate Marks(marks: seq<bool>, index: nat) {
    0 < index <= |marks| && index < INT_LIMIT && marks[index - 1]
  }

  /** Runs over the value at `p`, looking at tags and lengths only; it builds nothing. */
  function Scan(mem: seq<Byte>, end: nat, p: nat, marks: seq<bool>): (r: Outcome<Scanned>)
    requires p <= end && p <= |mem|
    ensures r.Read? ==> p < r.value.p <= end && r.value.p <= |mem|
    decreases |mem| - p, 0
  {
    match HeadAt(mem, end, p)
    case Stops(past) => if past then PastEnd else Refused
    case Leaf(next, key) => Read(Scanned(next, key, marks))
    case Ref(next, index) => Read(Scanned(next, Marks(marks, index), marks))
    case Opens(body, bodyEnd) =>
      match ScanEntries(mem, bodyEnd, body, marks + [true])
      case Refused => Refused
      case PastEnd => PastEnd
      case Read(after) => if bodyEnd > end then Refused else Read(Scanned(bodyEnd, true, after))
  }

  function ScanEntries(mem: seq<Byte>, end: nat, p: nat, marks: seq<bool>): (r: Outcome<seq<bool>>)
    requires p <= end && p <= |mem|
    ensures r.Read? ==> end <= |mem|
    decreases |mem| - p, 1
  {
    if p == end then Read(marks)
    else
      match Scan(mem, end, p, marks)
      case Refused => Refused
      case PastEnd => PastEnd
      case Read(k) =>
        match Scan(mem, end, k.p, k.marks)
        case Refused => Refused
        case PastEnd => PastEnd
        case Read(v) => if k.key then ScanEntries(mem, end, v.p, v.marks) else Refused
  }

  /** A scan of a whole string; `constants` says which constants can be keys. */
  function ScanAll(s: seq<Byte>, constants: seq<bool>): Outcome<Scanned> {
    if |s| < 1 || s[0] != MAR_MAGIC then Refused
    else Scan(s[1..] + [0], |s| - 1, 0, constants)
  }

  /** The marks agree with what the decoder has seen. */
  ghost predicate Marked(st: State, marks: seq<bool>) {
    st.idx == |marks| + 1 && forall index: nat :: IsKey(Lookup(st.seen, index)) <==> Marks(marks, index)
  }

  lemma NewTableMarked(st: State, marks: seq<bool>)
    requires Marked(st, marks)
    ensures Marked(NewTable(st), marks + [true])
  {
    var st1 := NewTable(st);
    forall index: nat ensures IsKey(Lookup(st1.seen, index)) <==> Marks(marks + [true], index) {
      assert IsKey(Lookup(st.seen, index)) <==> Marks(marks, index);
    }
  }

  /** The scan ends as decoding does, and stands where the decoder stands. */
  ghost predicate Agree(d: Outcome<Decoded>, r: Outcome<Scanned>) {
    match d
    case Refused => r == Refused
    case PastEnd => r == PastEnd
    case Read(x) => r.Read? && r.value.p == x.p && r.value.key == IsKey(x.value) && Marked(x.st, r.value.marks)
  }

  lemma HeadAgrees(mem: seq<Byte>, end: nat, p: nat, st: State, marks: seq<bool>)
    requires p <= end && p <= |mem| && Marked(st, marks) && !OpensTable(mem, end, p)
    ensures Agree(DecodeValue(mem, end, p, st), Scan(mem, end, p, marks))
  {
    hide Dec32, Lookup, Marks, IsNan;
  }

  lemma {:induction false} ScanAgrees(mem: seq<Byte>, end: nat, p: nat, st: State, marks: seq<bool>)
    requires p <= end && p <= |mem| && Marked(st, marks)
    ensures Agree(DecodeValue(mem, end, p, st), Scan(mem, end, p, marks))
    decreases |mem| - p, 0
  {
    hide Dec32, Marked, Marks, IsNan;
    if OpensTable(mem, end, p) {
      NewTableMarked(st, marks);
      EntriesAgree(mem, TableEnd(mem, p), p + 6, NewTable(st), |st.heap|, marks + [true]);
    } else {
      HeadAgrees(mem, end, p, st, marks);
    }
  }

  lemma {:induction false} EntriesAgree(mem: seq<Byte>, end: nat, p: nat, st: State, t: nat, marks: seq<bool>)
    requires p <= end && p <= |mem| && t < |st.heap| && Marked(st, marks)
    ensures match DecodeTable(mem, end, p, st, t)
            case Refused => ScanEntries(mem, end, p, marks) == Refused
            case PastEnd => ScanEntries(mem, end, p, marks) == PastEnd
            case Read(x) => ScanEntries(mem, end, p, marks).Read? && Marked(x, ScanEntries(mem, end, p, marks).value)
    decreases |mem| - p, 1
  {
    hide DecodeValue, Scan, Marks;
    if p < end {
      ScanAgrees(mem, end, p, st, marks);
      match DecodeValue(mem, end, p, st)
      case Refused =>
      case PastEnd =>
      case Read(k) =>
        var marks1 := Scan(mem, end, p, marks).value.marks;
        ScanAgrees(mem, end, k.p, k.st, marks1);
        match DecodeValue(mem, end, k.p, k.st)
        case Refused =>
        case PastEnd =>
        case Read(v) =>
          match SetTable(v.st.heap, t, k.value, v.value)
          case Refused =>
          case Read(heap) =>
            EntriesAgree(mem, end, v.p, v.st.(heap := heap), t, Scan(mem, end, k.p, marks1).value.marks);
    }
  }

  function KeyMarks(constants: seq<Value>): (marks: seq<bool>)
    ensures |marks| == |constants| && forall i | 0 <= i < |constants| :: marks[i] <==> IsKey(constants[i])
  {
    seq(|constants|, i requires 0 <= i < |constants| => IsKey(constants[i]))
  }

  lemma {:induction false} ConstantAt(constants: seq<Value>, n: nat, index: nat)
    requires n <= |constants|
    ensures index in ConstantsAt(constants, n) <==> 0 < index <= n && !constants[index - 1].Nil?
    ensures index in ConstantsAt(constants, n) ==> ConstantsAt(constants, n)[index] == constants[index - 1]
  {
    if n > 0 {
      ConstantAt(constants, n - 1, index);
    }
  }

  lemma StartMarked(constants: seq<Value>, heap: Heap)
    ensures Marked(Start(constants, heap), KeyMarks(constants))
  {
    var st := Start(constants, heap);
    forall index: nat ensures IsKey(Lookup(st.seen, index)) <==> Marks(KeyMarks(constants), index) {
      ConstantAt(constants, |constants|, index);
    }
  }

  /** Whether `mar_decode` succeeds, refuses or reads past the end can be told beforehand: by a scan of the tags and the
      announced lengths, which builds no value and needs of the constants only which can be keys. */
  lemma ScanIff(s: seq<Byte>, constants: seq<Value>, heap: Heap)
    ensures Decode(s, constants, heap).PastEnd? <==> ScanAll(s, KeyMarks(constants)).PastEnd?
    ensures Decode(s, constants, heap).Refused? <==> ScanAll(s, KeyMarks(constants)).Refused?
  {
    hide DecodeValue, Scan, Marked;
    if |s| > 0 && s[0] == MAR_MAGIC {
      StartMarked(constants, heap);
      ScanAgrees(s[1..] + [0], |s| - 1, 0, Start(constants, heap), KeyMarks(constants));
    }
  }

  /** A string cut off behind its length makes the decoder read what is not there, here two hundred bytes of a
      buffer of five. */
  lemma CutStringIsPastEnd(constants: seq<Value>, heap: Heap)
    ensures Decode([MAR_MAGIC, TSTRING, 200, 0, 0, 0], constants, heap).PastEnd?
  {
    var s: seq<Byte> := [MAR_MAGIC, TSTRING, 200, 0, 0, 0];
    var mem := s[1..] + [0];
    assert mem == [TSTRING, 200, 0, 0, 0, 0];
    assert mem[1..5] == [200, 0, 0, 0];
  }
}
