/** The control block as the program updates it: fields changed in place, one method per function of
    `ikcp.c` and one per loop of the longer ones, each shown to do to the fields what KcpModel says of their
    value. `View()` is the value of the whole block, so that what is proved of runs of the model holds of
    runs of this class. Numbers are the 32-bit numbers of the program throughout. Output is kept as the
    list of datagrams handed to the callback, the open one being the bytes not yet handed over. */
module KcpEndpoint {
  import opened LittleEndian
  import opened KcpArith
  import opened KcpWire
  import opened KcpModel
  import opened KcpDatagrams

  /** A size that `ikcp_ack_push` allocates: 8, doubled some number of times. */
  predicate IsBlock(n: nat) {
    n == 8 || (n > 8 && n % 2 == 0 && IsBlock(n / 2))
  }

  /** The bytes of each datagram. */
  function Encoded(ds: seq<seq<Wire>>): (r: seq<seq<Byte>>)
    ensures |r| == |ds| && forall i | 0 <= i < |ds| :: r[i] == EncodeAll(ds[i])
  {
    seq(|ds|, i requires 0 <= i < |ds| => EncodeAll(ds[i]))
  }

  lemma {:induction false} EncodeSnoc(ws: seq<Wire>, w: Wire)
    ensures EncodeAll(ws + [w]) == EncodeAll(ws) + Encode(w)
    decreases |ws|
  {
    if ws == [] {
      assert Encode(w) + EncodeAll([]) == Encode(w);
    } else {
      assert (ws + [w])[1..] == ws[1..] + [w];
      EncodeSnoc(ws[1..], w);
    }
  }

  /** `kcp->buffer`, filled up to `ptr`, and the trace of the output callback. The ghost fields are the
      segments behind the bytes. */
  class Outbox {
    const mtu: nat
    var cur: seq<Byte>
    var out: seq<seq<Byte>>
    ghost var open: seq<Wire>
    ghost var done: seq<seq<Wire>>

    ghost predicate Ok()
      reads this
    {
      cur == EncodeAll(open) && out == Encoded(done)
    }

    /** All datagrams, if `rest` is still to come. */
    ghost function Ahead(rest: seq<Wire>): seq<seq<Wire>>
      reads this
    {
      done + Pack(open, rest, mtu)
    }

    constructor (mtu: nat)
      ensures Ok() && this.mtu == mtu && open == [] && done == []
    {
      this.mtu, cur, out, open, done := mtu, [], [], [], [];
    }

    /** `ikcp_output`: nothing is output for an empty buffer. */
    method Output()
      requires Ok()
      modifies this
      ensures Ok() && open == [] && done == old(done) + if old(open) == [] then [] else [old(open)]
    {
      EncodedSize(open);
      if |cur| > 0 {
        out := out + [cur];
        done := done + [open];
      }
      cur, open := [], [];
    }

    /** Appends a segment, after sending what is buffered if there is no room for it. */
    method Put(w: Wire, ghost rest: seq<Wire>)
      requires Ok()
      modifies this
      ensures Ok() && Ahead(rest) == old(Ahead([w] + rest))
    {
      EncodedSize(open);
      ghost var ws := [w] + rest;
      assert ws[1..] == rest;
      if |cur| + OVERHEAD + |w.data| > mtu {
        Output();
      }
      assert open == [] ==> open + [w] == [w];
      EncodeSnoc(open, w);
      cur, open := cur + Encode(w), open + [w];
    }

    /** Sends what is left. */
    method Finish()
      requires Ok()
      modifies this
      ensures Ok() && done == old(Ahead([]))
    {
      Output();
    }
  }

  /** The decision about a segment does not depend on what the loop has changed so far. */
  lemma SameDecision(g: Seg, c: Ctl, lost: nat, dead: bool, conv: U32, wnd: U16, una: nat)
    ensures var d := Resent(c, lost, dead);
            && Reason(g, d) == Reason(g, c) && Transmit(g, d) == Transmit(g, c) && (Dies(g, d) <==> Dies(g, c))
            && PushWire(conv, g, d, wnd, una) == PushWire(conv, g, c, wnd, una)
  {
    hide ITimeDiff, U32Of;
  }

  lemma NothingSent(c: Ctl, conv: U32, wnd: U16, una: nat)
    ensures !DeadLink([], c) && PushWires(conv, [], c, wnd, una) == []
    ensures forall why :: CountWhy([], c, why) == 0
  {
  }

  lemma SendNext(b: seq<Seg>, p: nat, c: Ctl, conv: U32, wnd: U16, una: nat)
    requires p < |b|
    ensures PushWires(conv, b[p..], c, wnd, una)
            == PushWire(conv, b[p], c, wnd, una) + PushWires(conv, b[p + 1..], c, wnd, una)
    ensures forall why ::
              CountWhy(b[p..], c, why) == (if Reason(b[p], c) == why then 1 else 0) + CountWhy(b[p + 1..], c, why)
  {
    hide Reason, PushWire;
    assert b[p..][0] == b[p] && b[p..][1..] == b[p + 1..];
  }

  lemma FlushWiresAre(cb: Cb, c: Ctl, buf: seq<Seg>)
    ensures FlushWires(cb, c, buf)
         == AckWires(cb) + ProbeWires(cb, c.askSend, c.askTell)
            + PushWires(cb.conv, buf, c, WndUnused(cb.rcv), cb.rcv.nxt)
  {
  }

  lemma FilledIs(s: Snd, c: Ctl)
    ensures Filled(false, s, c) == FillWindow(false, s, SendWindow(c), c.current, c.rxRto)
  {
  }

  /** What a flush leaves behind. */
  lemma EmitIs(cb: Cb, c: Ctl, s: Snd)
    ensures var f := Emit(cb, c, s);
            && f.cb == Cb(cb.conv, cb.mtu, cb.stream, s.(buf := TransmitAll(s.buf, c)), cb.rcv.(acks := []), f.cb.ctl)
            && f.out == Pack([], FlushWires(cb, c, s.buf), cb.mtu)
            && f.cb.ctl == Congest(Resent(Probed(c), CountWhy(s.buf, c, Timeout), DeadLink(s.buf, c)), cb.Mss(),
                                   U32Of(s.nxt - s.una), SendWindow(c), CountWhy(s.buf, c, Fast) > 0,
                                   CountWhy(s.buf, c, Timeout) > 0)
  {
    hide Congest, Resent, Probed, CountWhy, DeadLink, SendWindow, TransmitAll, FlushWires, Pack, U32Of;
  }

  /** Clearing the probe flags early changes nothing that is sent. */
  lemma ProbeIgnored(s: Snd, c: Ctl, d: Ctl, conv: U32, wnd: U16, una: nat)
    requires d == Probed(c)
    ensures Filled(false, s, c) == Filled(false, s, d) && SendWindow(c) == SendWindow(d)
    ensures PushWires(conv, s.buf, c, wnd, una) == PushWires(conv, s.buf, d, wnd, una)
    ensures TransmitAll(s.buf, c) == TransmitAll(s.buf, d) && DeadLink(s.buf, c) == DeadLink(s.buf, d)
    ensures forall why :: CountWhy(s.buf, c, why) == CountWhy(s.buf, d, why)
    decreases |s.buf|
  {
    hide ITimeDiff, U32Of;
    assert forall i | 0 <= i < |s.buf| ::
        Transmit(s.buf[i], c) == Transmit(s.buf[i], d) && Dies(s.buf[i], c) == Dies(s.buf[i], d);
    if s.buf != [] {
      ProbeIgnored(s.(buf := s.buf[1..]), c, d, conv, wnd, una);
    }
  }

  lemma WndIgnoresAcks(r: Rcv)
    ensures WndUnused(r.(acks := [])) == WndUnused(r)
  {
  }

  lemma ToldOrNot(ctl: Ctl)
    ensures Told(ctl, true) == ctl.(askTell := true) && Told(ctl, false) == ctl
  {
  }

  lemma ResentNone(c: Ctl)
    ensures Resent(c, 0, false) == c
  {
  }

  lemma ResentMore(c: Ctl, m: nat, dead: bool, n: nat, dies: bool)
    ensures Resent(Resent(c, m, dead), n, dies) == Resent(c, m + n, dead || dies)
  {
  }

  lemma DeadSoFar(b: seq<Seg>, c: Ctl, p: nat)
    requires p < |b|
    ensures DeadLink(b[..p + 1], c) <==> DeadLink(b[..p], c) || Dies(b[p], c)
  {
    hide Dies;
    var more := b[..p + 1];
    assert more[p] == b[p];
    assert forall i | 0 <= i < p :: more[i] == b[..p][i];
  }

  /** One round of the fragment loop of `ikcp_send`. */
  lemma OneFragment(q: seq<Frag>, stream: bool, data: seq<Byte>, mss: nat, count: nat, f: Frag)
    requires 0 < count <= 128 && f == Frag(if stream then 0 else count - 1, data[..Min(|data|, mss)])
    ensures q + Fragments(stream, data, mss, count)
            == (q + [f]) + Fragments(stream, data[Min(|data|, mss)..], mss, count - 1)
  {
    var tail := Fragments(stream, data[Min(|data|, mss)..], mss, count - 1);
    assert q + ([f] + tail) == (q + [f]) + tail;
  }

  lemma NoFragment(q: seq<Frag>, stream: bool, data: seq<Byte>, mss: nat)
    ensures q + Fragments(stream, data, mss, 0) == q
  {
  }

  lemma RemoveStarts(b: seq<Seg>, sn: nat)
    ensures RemoveSn(b, sn) == b[..0] + RemoveSn(b[0..], sn)
    ensures b[..|b|] + RemoveSn(b[|b|..], sn) == b
  {
    assert b[0..] == b;
  }

  /** One round of the loop of `ikcp_parse_ack`. */
  lemma RemoveNext(b: seq<Seg>, p: nat, sn: nat)
    requires p < |b|
    ensures b[..p] + RemoveSn(b[p..], sn)
         == if SameSn(sn, b[p].sn) then b[..p] + b[p + 1..]
            else if ITimeDiff(sn, b[p].sn) < 0 then b
            else b[..p + 1] + RemoveSn(b[p + 1..], sn)
  {
    hide ITimeDiff, SameSn;
    assert b[p..][1..] == b[p + 1..] && b[..p] + b[p..] == b;
    assert b[..p] + ([b[p]] + RemoveSn(b[p + 1..], sn)) == b[..p + 1] + RemoveSn(b[p + 1..], sn);
  }

  lemma InsertSize<T>(s: seq<T>, p: nat, x: T)
    requires p <= |s|
    ensures |s[..p] + [x] + s[p..]| == |s| + 1
  {
  }

  lemma BumpStops(b: seq<Seg>, sn: nat)
    requires b == [] || ITimeDiff(sn, b[0].sn) < 0
    ensures BumpFastack(b, sn) == b
  {
  }

  lemma ReplaceAt<T>(done: seq<T>, rest: seq<T>, x: T)
    requires rest != []
    ensures (done + rest)[|done| := x] == (done + [x]) + rest[1..]
  {
  }

  /** One round of the loop of `ikcp_parse_fastack`. */
  lemma BumpOne(b: seq<Seg>, sn: nat, done: seq<Seg>, seg: Seg, rest: seq<Seg>)
    requires b != [] && rest == b[1..] && ITimeDiff(sn, b[0].sn) >= 0
    requires seg == if SameSn(sn, b[0].sn) then b[0] else b[0].(fastack := U32Of(b[0].fastack + 1))
    ensures done + BumpFastack(b, sn) == (done + [seg]) + BumpFastack(rest, sn)
  {
    hide ITimeDiff, U32Of, SameSn;
    assert BumpFastack(b, sn) == [seg] + BumpFastack(rest, sn);
  }

  lemma {:induction false} DatasSnoc(q: seq<Frag>, p: nat)
    requires p < |q|
    ensures Datas(q[..p + 1]) == Datas(q[..p]) + q[p].data
    ensures HeadLen(q[p..]) == if q[p].frg == 0 then 1 else 1 + HeadLen(q[p + 1..])
  {
    assert q[p..][1..] == q[p + 1..];
    if p > 0 {
      DatasSnoc(q[1..], p - 1);
      assert q[..p + 1][1..] == q[1..][..p] && q[..p][1..] == q[1..][..p - 1];
    }
  }

  class Ikcp {
    const conv: U32
    const mtu: nat
    const stream: bool

    var sndUna: nat
    var sndNxt: nat
    var sndQueue: seq<Frag>
    var sndBuf: seq<Seg>
    var nsndQue: nat
    var nsndBuf: nat

    var rcvNxt: nat
    var rcvWnd: U32
    var rcvQueue: seq<Frag>
    var rcvBuf: seq<RSeg>
    var nrcvQue: nat
    var nrcvBuf: nat
    /** The block allocated for pending acknowledgements, of which the first `ackcount` are in use. */
    var acklist: seq<Ack>
    var ackcount: nat
    var ackblock: nat

    /** Timers, windows and congestion state. */
    var ctl: Ctl

    /** The stored counters are the queue lengths, pending acknowledgements fit their block, and the receive window
        has room for any message. */
    predicate Valid()
      reads this
    {
      && 50 <= mtu < TWO31
      && nsndQue == |sndQueue| && nsndBuf == |sndBuf| && nrcvQue == |rcvQueue| && nrcvBuf == |rcvBuf|
      && ackcount <= ackblock == |acklist| && (ackblock == 0 || IsBlock(ackblock))
      && rcvWnd >= WND_RCV
    }

    function Acks(): seq<Ack>
      reads this
    {
      if ackcount <= |acklist| then acklist[..ackcount] else []
    }

    function SndView(): Snd
      reads this
    {
      Snd(sndUna, sndNxt, sndQueue, sndBuf)
    }

    function RcvView(): Rcv
      reads this
    {
      Rcv(rcvNxt, rcvWnd, rcvQueue, rcvBuf, Acks())
    }

    /** The value of the control block. */
    function View(): Cb
      reads this
    {
      Cb(conv, mtu, stream, SndView(), RcvView(), ctl)
    }

    /** `ikcp_create`. */
    constructor (conv: U32, mtu: nat, stream: bool)
      requires 50 <= mtu < TWO31
      ensures Valid() && View() == Create(conv, mtu, stream)
    {
      this.conv, this.mtu, this.stream := conv, mtu, stream;
      sndUna, sndNxt, sndQueue, sndBuf, nsndQue, nsndBuf := 0, 0, [], [], 0, 0;
      rcvNxt, rcvWnd, rcvQueue, rcvBuf, nrcvQue, nrcvBuf := 0, WND_RCV, [], [], 0, 0;
      acklist, ackcount, ackblock := [], 0, 0;
      ctl := Create(conv, mtu, stream).ctl;
    }

    // ---------------------------------------------------------------- sending

    /** The fragment loop of `ikcp_send`. */
    method QueueFragments(data: seq<Byte>, count: nat)
      requires Valid() && count <= 128
      modifies `sndQueue, `nsndQue
      ensures Valid()
      ensures sndQueue == old(sndQueue) + Fragments(stream, data, mtu - OVERHEAD, count)
    {
      hide Fragments, IsBlock;
      var mss, rest := mtu - OVERHEAD, data;
      ghost var whole := sndQueue + Fragments(stream, data, mss, count);
      var i := 0;
      while i < count
        invariant 0 <= i <= count && nsndQue == |sndQueue|
        invariant sndQueue + Fragments(stream, rest, mss, count - i) == whole
      {
        var size := if |rest| > mss then mss else |rest|;
        var f := Frag(if stream then 0 else count - i - 1, rest[..size]);
        OneFragment(sndQueue, stream, rest, mss, count - i, f);
        sndQueue := sndQueue + [f];
        nsndQue := nsndQue + 1;
        rest := rest[size..];
        i := i + 1;
      }
      NoFragment(sndQueue, stream, rest, mss);
    }

    /** `ikcp_send`. */
    method SendData(data: seq<Byte>) returns (code: int)
      requires Valid()
      modifies `sndQueue, `nsndQue
      ensures Valid()
      ensures code == Send(old(View()), data).0
      ensures View() == old(View()).(snd := old(SndView()).(queue := Send(old(View()), data).1))
    {
      hide Fragments, IsBlock;
      var mss := mtu - OVERHEAD;
      var rest := data;
      if stream {
        if sndQueue != [] {
          var last := sndQueue[|sndQueue| - 1];
          if |last.data| < mss {
            var capacity := mss - |last.data|;
            var extend := if |rest| < capacity then |rest| else capacity;
            sndQueue := sndQueue[..|sndQueue| - 1] + [Frag(0, last.data + rest[..extend])];
            rest := rest[extend..];
          }
        }
        if |rest| == 0 {
          return 0;
        }
      }
      var count := if |rest| <= mss then 1 else (|rest| + mss - 1) / mss;
      assert count == FragCount(|rest|, mss);
      if count >= WND_RCV {
        return -2;
      }
      QueueFragments(rest, count);
      return 0;
    }

    // ---------------------------------------------------------------- receiving by the application

    /** `ikcp_peeksize`. */
    method PeekNext() returns (size: int)
      requires Valid()
      ensures size == PeekSize(rcvQueue)
    {
      if rcvQueue == [] {
        return -1;
      }
      if rcvQueue[0].frg == 0 {
        return |rcvQueue[0].data|;
      }
      if nrcvQue < rcvQueue[0].frg + 1 {
        return -1;
      }
      size := 0;
      var p := 0;
      ghost var k := HeadLen(rcvQueue);
      while p < |rcvQueue|
        invariant 0 <= p <= |rcvQueue| && k == p + HeadLen(rcvQueue[p..])
        invariant size == |Datas(rcvQueue[..p])|
        decreases |rcvQueue| - p
      {
        var seg := rcvQueue[p];
        DatasSnoc(rcvQueue, p);
        size := size + |seg.data|;
        p := p + 1;
        if seg.frg == 0 {
          break;
        }
      }
      assert p == k;
    }

    /** The loop that moves segments whose turn has come. */
    method MoveInTurn()
      requires Valid()
      modifies `rcvBuf, `nrcvBuf, `rcvQueue, `nrcvQue, `rcvNxt
      ensures Valid() && RcvView() == MoveReady(false, old(RcvView()))
    {
      while rcvBuf != []
        invariant Valid()
        invariant MoveReady(false, RcvView()) == MoveReady(false, old(RcvView()))
        decreases |rcvBuf|
      {
        var seg := rcvBuf[0];
        if SameSn(seg.sn, rcvNxt) && nrcvQue < rcvWnd {
          rcvBuf, nrcvBuf := rcvBuf[1..], nrcvBuf - 1;
          rcvQueue, nrcvQue := rcvQueue + [seg.frag], nrcvQue + 1;
          rcvNxt := U32Of(rcvNxt + 1);
        } else {
          break;
        }
      }
    }

    /** The loop of `ikcp_recv` that copies the fragments of one message, and removes them unless peeking. */
    method MergeFragments(peek: bool) returns (data: seq<Byte>)
      requires Valid()
      modifies `rcvQueue, `nrcvQue
      ensures Valid()
      ensures var q := old(rcvQueue);
              data == Datas(q[..HeadLen(q)]) && rcvQueue == if peek then q else q[HeadLen(q)..]
    {
      ghost var q, k, done := rcvQueue, HeadLen(rcvQueue), 0;
      var p := 0;
      data := [];
      while p < |rcvQueue|
        invariant 0 <= done <= |q| && k == done + HeadLen(q[done..])
        invariant data == Datas(q[..done]) && nrcvQue == |rcvQueue|
        invariant if peek then p == done && rcvQueue == q else p == 0 && rcvQueue == q[done..]
        decreases |q| - done
      {
        var seg := rcvQueue[p];
        DatasSnoc(q, done);
        data := data + seg.data;
        if peek {
          p := p + 1;
        } else {
          rcvQueue, nrcvQue := rcvQueue[1..], nrcvQue - 1;
        }
        done := done + 1;
        if seg.frg == 0 {
          break;
        }
      }
      assert done == k;
    }

    /** `ikcp_recv`: the return code, and the bytes copied to the caller's buffer. */
    method Receive(len: int) returns (code: int, data: seq<Byte>)
      requires Valid()
      modifies `rcvBuf, `nrcvBuf, `rcvQueue, `nrcvQue, `rcvNxt, `ctl
      ensures Valid()
      ensures var r := Recv(false, old(RcvView()), len);
              && code == r.code && data == r.data
              && View() == old(View()).(rcv := r.rcv, ctl := Told(old(ctl), r.tell))
    {
      hide PeekSize, Datas, HeadLen, MoveReady, IsBlock, Told;
      ToldOrNot(ctl);
      if rcvQueue == [] {
        return -1, [];
      }
      var size := PeekNext();
      if size < 0 {
        return -2, [];
      }
      if size > Max(len, -len) {
        return -3, [];
      }
      var recover := nrcvQue >= rcvWnd;
      data := MergeFragments(len < 0);
      MoveInTurn();
      if nrcvQue < rcvWnd && recover {
        ctl := ctl.(askTell := true);
      }
      code := |data|;
    }

    // ---------------------------------------------------------------- acknowledgements

    /** `ikcp_shrink_buf`. */
    method ShrinkBuf()
      modifies `sndUna
      ensures SndView() == Shrink(old(SndView()))
    {
      if sndBuf != [] {
        sndUna := sndBuf[0].sn;
      } else {
        sndUna := sndNxt;
      }
    }

    /** `ikcp_parse_una`. */
    method DropAcknowledged(una: nat)
      requires Valid()
      modifies `sndBuf, `nsndBuf
      ensures Valid() && sndBuf == DropBelow(old(sndBuf), una)
    {
      while sndBuf != []
        invariant nsndBuf == |sndBuf|
        invariant DropBelow(sndBuf, una) == DropBelow(old(sndBuf), una)
        decreases |sndBuf|
      {
        if ITimeDiff(una, sndBuf[0].sn) > 0 {
          sndBuf, nsndBuf := sndBuf[1..], nsndBuf - 1;
        } else {
          break;
        }
      }
    }

    /** `ikcp_parse_ack`. */
    method RemoveAcknowledged(sn: nat)
      requires Valid()
      modifies `sndBuf, `nsndBuf
      ensures Valid()
      ensures sndBuf == if InFlight(old(SndView()), sn) then RemoveSn(old(sndBuf), sn) else old(sndBuf)
    {
      if ITimeDiff(sn, sndUna) < 0 || ITimeDiff(sn, sndNxt) >= 0 {
        return;
      }
      hide ITimeDiff, SameSn, RemoveSn, IsBlock;
      var p := 0;
      RemoveStarts(sndBuf, sn);
      while p < |sndBuf|
        invariant 0 <= p <= |sndBuf| && sndBuf == old(sndBuf) && nsndBuf == |sndBuf|
        invariant RemoveSn(sndBuf, sn) == sndBuf[..p] + RemoveSn(sndBuf[p..], sn)
      {
        var seg := sndBuf[p];
        RemoveNext(sndBuf, p, sn);
        if SameSn(sn, seg.sn) {
          sndBuf, nsndBuf := sndBuf[..p] + sndBuf[p + 1..], nsndBuf - 1;
          return;
        }
        if ITimeDiff(sn, seg.sn) < 0 {
          return;
        }
        p := p + 1;
      }
      RemoveStarts(sndBuf, sn);
    }

    /** `ikcp_parse_fastack`. */
    method CountFastack(sn: nat)
      requires Valid()
      modifies `sndBuf
      ensures Valid() && SndView() == ParseFastack(old(SndView()), sn)
    {
      if ITimeDiff(sn, sndUna) < 0 || ITimeDiff(sn, sndNxt) >= 0 {
        return;
      }
      hide ITimeDiff, U32Of, SameSn, BumpFastack;
      ghost var b, done, rest := sndBuf, [], sndBuf;
      var p := 0;
      assert [] + BumpFastack(b, sn) == BumpFastack(b, sn);
      while p < |sndBuf|
        invariant p == |done| && sndBuf == done + rest && |sndBuf| == |b|
        invariant BumpFastack(b, sn) == done + BumpFastack(rest, sn)
        decreases |rest|
      {
        var seg := sndBuf[p];
        assert seg == rest[0];
        if ITimeDiff(sn, seg.sn) < 0 {
          BumpStops(rest, sn);
          return;
        }
        var seg' := if SameSn(sn, seg.sn) then seg else seg.(fastack := U32Of(seg.fastack + 1));
        BumpOne(rest, sn, done, seg', rest[1..]);
        ReplaceAt(done, rest, seg');
        sndBuf := sndBuf[p := seg'];
        done := done + [seg'];
        rest := rest[1..];
        p := p + 1;
      }
      BumpStops(rest, sn);
    }

    /** `ikcp_ack_push`: the block grows to the next power of two when it is full, and keeps what is pending. */
    method AckPush(sn: nat, ts: U32)
      requires Valid()
      modifies `acklist, `ackcount, `ackblock
      ensures Valid() && Acks() == old(Acks()) + [Ack(sn, ts)]
      ensures if old(ackcount < ackblock) then ackblock == old(ackblock) else ackblock == 8 || ackblock < 2 * ackcount
    {
      if ackcount + 1 > ackblock {
        var newblock := 8;
        while newblock < ackcount + 1
          invariant IsBlock(newblock) && (newblock == 8 || newblock < 2 * (ackcount + 1))
        {
          newblock := newblock * 2;
        }
        var cells := seq(newblock, _ => Ack(0, 0));
        var x := 0;
        while x < ackcount
          invariant 0 <= x <= ackcount && |cells| == newblock && cells[..x] == acklist[..x]
        {
          cells := cells[x := acklist[x]];
          x := x + 1;
        }
        acklist, ackblock := cells, newblock;
      }
      acklist := acklist[ackcount := Ack(sn, ts)];
      ackcount := ackcount + 1;
    }

    // ---------------------------------------------------------------- data

    /** The search of `ikcp_parse_data`, from the end of `rcv_buf`. */
    method FindPlace(seg: RSeg) returns (p: nat, repeat: bool)
      ensures p <= |rcvBuf|
      ensures Insert(rcvBuf, seg) == if repeat then rcvBuf else rcvBuf[..p] + [seg] + rcvBuf[p..]
    {
      hide ITimeDiff, SameSn;
      p, repeat := |rcvBuf|, false;
      assert rcvBuf[..p] == rcvBuf && rcvBuf[p..] == [];
      while p > 0
        invariant 0 <= p <= |rcvBuf| && !repeat
        invariant Insert(rcvBuf, seg) == Insert(rcvBuf[..p], seg) + rcvBuf[p..]
        decreases p, !repeat
      {
        var last := rcvBuf[p - 1];
        assert rcvBuf[..p][..p - 1] == rcvBuf[..p - 1];
        assert rcvBuf[p - 1..] == [last] + rcvBuf[p..];
        if SameSn(last.sn, seg.sn) {
          repeat := true;
          assert rcvBuf[..p] + rcvBuf[p..] == rcvBuf;
          break;
        }
        if ITimeDiff(seg.sn, last.sn) > 0 {
          break;
        }
        ghost var front := Insert(rcvBuf[..p - 1], seg);
        assert (front + [last]) + rcvBuf[p..] == front + rcvBuf[p - 1..];
        p := p - 1;
      }
    }

    /** `ikcp_parse_data`. */
    method PlaceData(seg: RSeg)
      requires Valid()
      modifies `rcvBuf, `nrcvBuf, `rcvQueue, `nrcvQue, `rcvNxt
      ensures Valid() && RcvView() == ParseData(false, old(RcvView()), seg)
    {
      hide ITimeDiff, MoveReady, Insert, IsBlock;
      if ITimeDiff(seg.sn, rcvNxt + rcvWnd) >= 0 || ITimeDiff(seg.sn, rcvNxt) < 0 {
        return;
      }
      var p, repeat := FindPlace(seg);
      InsertSize(rcvBuf, p, seg);
      if !repeat {
        rcvBuf, nrcvBuf := rcvBuf[..p] + [seg] + rcvBuf[p..], nrcvBuf + 1;
      }
      MoveInTurn();
    }

    /** The data branch of `ikcp_input`. */
    method TakePush(w: Wire)
      requires Valid()
      modifies `rcvBuf, `nrcvBuf, `rcvQueue, `nrcvQue, `rcvNxt, `acklist, `ackcount, `ackblock
      ensures Valid() && RcvView() == AcceptPush(false, old(RcvView()), w)
    {
      if ITimeDiff(w.sn, rcvNxt + rcvWnd) < 0 {
        AckPush(w.sn, w.ts);
        if ITimeDiff(w.sn, rcvNxt) >= 0 {
          PlaceData(RSeg(w.sn, Frag(w.frg, w.data)));
        }
      }
    }

    // ---------------------------------------------------------------- ikcp_input

    /** The acknowledgement branch of `ikcp_input`. */
    method TakeAck(sn: nat, ts: U32)
      requires Valid()
      modifies `ctl, `sndBuf, `nsndBuf, `sndUna
      ensures Valid() && SndView() == ParseAck(old(SndView()), sn) && ctl == AckTimes(old(ctl), ts)
    {
      hide ITimeDiff, RemoveSn, InFlight, UpdateAck, IsBlock;
      var rtt := ITimeDiff(ctl.current, ts);
      if rtt >= 0 {
        ctl := UpdateAck(ctl, rtt);
      }
      RemoveAcknowledged(sn);
      ShrinkBuf();
    }

    /** The cumulative acknowledgement of a segment. */
    method TakeUna(una: nat)
      requires Valid()
      modifies `sndBuf, `nsndBuf, `sndUna
      ensures Valid() && SndView() == ParseUna(old(SndView()), una)
    {
      hide DropBelow, IsBlock;
      DropAcknowledged(una);
      ShrinkBuf();
    }

    /** One segment of a datagram. */
    method TakeSegment(w: Wire)
      requires Valid() && KnownCmd(w.cmd)
      modifies this
      ensures Valid() && View() == InputSeg(false, old(View()), w)
    {
      hide ITimeDiff, U32Of, ParseUna, ParseAck, AcceptPush, AckTimes, IsBlock, Told;
      ctl := ctl.(rmtWnd := w.wnd);
      ToldOrNot(ctl);
      TakeUna(w.una);
      if w.cmd == CMD_ACK {
        TakeAck(w.sn, w.ts);
      } else if w.cmd == CMD_PUSH {
        TakePush(w);
      } else if w.cmd == CMD_WASK {
        ctl := ctl.(askTell := true);
      }
    }

    /** The congestion window growth at the end of `ikcp_input`. */
    method GrowWindow()
      requires Valid()
      modifies `ctl
      ensures ctl == Grow(old(ctl), mtu - OVERHEAD)
    {
      hide U32Of, AvoidIncr, WndBytes;
      var mss := mtu - OVERHEAD;
      if ctl.cwnd < ctl.rmtWnd {
        if ctl.cwnd < ctl.ssthresh {
          ctl := ctl.(cwnd := U32Of(ctl.cwnd + 1), incr := U32Of(ctl.incr + mss));
        } else {
          ctl := ctl.(incr := AvoidIncr(ctl.incr, mss));
          if WndBytes(ctl.cwnd + 1, mss) <= ctl.incr {
            ctl := ctl.(cwnd := U32Of(ctl.cwnd + 1));
          }
        }
      }
    }

    /** The parsing loop of `ikcp_input`: a malformed segment stops it, after the segments before it took effect. */
    method ReadSegments(data: seq<Byte>) returns (code: int, m: MaxAck)
      requires Valid()
      modifies this
      ensures Valid() && (code, View(), m) == InputLoop(old(View()), NoAck, data)
    {
      hide InputSeg, ITimeDiff, DecodeHeader, DecodeLen, IsBlock;
      var b := data;
      m := NoAck;
      while |b| >= OVERHEAD
        invariant Valid()
        invariant InputLoop(View(), m, b) == InputLoop(old(View()), NoAck, data)
        decreases |b|
      {
        var h := DecodeHeader(b);
        if h.conv != conv {
          return -1, m;
        }
        var len := DecodeLen(b);
        if |b| - OVERHEAD < len {
          return -2, m;
        }
        if !KnownCmd(h.cmd) {
          return -3, m;
        }
        var w := h.(data := b[OVERHEAD..][..len]);
        assert w == DecodeSeg(b);
        TakeSegment(w);
        if w.cmd == CMD_ACK && (m.NoAck? || ITimeDiff(w.sn, m.sn) > 0) {
          m := SomeAck(w.sn);
        }
        b := b[OVERHEAD..][len..];
      }
      code := 0;
    }

    /** `ikcp_input`. */
    method InputData(data: seq<Byte>) returns (code: int)
      requires Valid()
      modifies this
      ensures Valid() && (code, View()) == InputBytes(old(View()), data)
    {
      hide InputLoop, ITimeDiff, Grow, ParseFastack, IsBlock;
      if |data| < OVERHEAD {
        return -1;
      }
      var una := sndUna;
      var m;
      code, m := ReadSegments(data);
      if code < 0 {
        return;
      }
      if m.SomeAck? {
        CountFastack(m.sn);
      }
      if ITimeDiff(sndUna, una) > 0 {
        GrowWindow();
      }
      code := 0;
    }

    // ---------------------------------------------------------------- ikcp_flush

    /** The window-probe timer of `ikcp_flush`. */
    method CheckProbe()
      modifies `ctl
      ensures ctl == ProbeTimer(old(ctl))
    {
      hide ITimeDiff, U32Of;
      var wait := ctl.probeWait;
      if ctl.rmtWnd == 0 {
        if wait == 0 {
          ctl := ctl.(probeWait := PROBE_INIT, tsProbe := U32Of(ctl.current + PROBE_INIT));
        } else if ITimeDiff(ctl.current, ctl.tsProbe) >= 0 {
          if wait < PROBE_INIT {
            wait := PROBE_INIT;
          }
          wait := U32Of(wait + wait / 2);
          if wait > PROBE_LIMIT {
            wait := PROBE_LIMIT;
          }
          ctl := ctl.(probeWait := wait, tsProbe := U32Of(ctl.current + wait), askSend := true);
        }
      } else {
        ctl := ctl.(tsProbe := 0, probeWait := 0);
      }
    }

    /** Moves data from `snd_queue` to `snd_buf`. */
    method FillFromQueue(cwnd: U32)
      requires Valid()
      modifies `sndQueue, `nsndQue, `sndBuf, `nsndBuf, `sndNxt
      ensures Valid() && SndView() == FillWindow(false, old(SndView()), cwnd, ctl.current, ctl.rxRto)
    {
      hide ITimeDiff, U32Of, IsBlock;
      while ITimeDiff(sndNxt, sndUna + cwnd) < 0
        invariant Valid()
        invariant FillWindow(false, SndView(), cwnd, ctl.current, ctl.rxRto)
               == FillWindow(false, old(SndView()), cwnd, ctl.current, ctl.rxRto)
        decreases |sndQueue|
      {
        if sndQueue == [] {
          break;
        }
        var f := sndQueue[0];
        sndQueue, nsndQue := sndQueue[1..], nsndQue - 1;
        sndBuf, nsndBuf := sndBuf + [Seg(sndNxt, f, ctl.current, ctl.rxRto, 0, 0)], nsndBuf + 1;
        sndNxt := U32Of(sndNxt + 1);
      }
    }

    /** The acknowledgement loop of `ikcp_flush`; `rest` is what the flush emits after them. */
    method EmitAcks(box: Outbox, ghost rest: seq<Wire>)
      requires Valid() && box.Ok() && box.mtu == mtu
      modifies box, `ackcount
      ensures Valid() && box.Ok() && box.mtu == mtu && ackcount == 0
      ensures box.Ahead(rest) == old(box.Ahead(AckWires(View()) + rest))
    {
      ghost var wires := AckWires(View());
      ghost var goal := box.Ahead(wires + rest);
      var i := 0;
      assert wires[0..] == wires;
      while i < ackcount
        invariant 0 <= i <= ackcount == |wires|
        invariant box.Ok() && box.mtu == mtu && box.Ahead(wires[i..] + rest) == goal
        modifies box
      {
        var w := Wire(conv, CMD_ACK, 0, WndUnused(RcvView()), acklist[i].ts, acklist[i].sn, rcvNxt, []);
        assert acklist[i] == Acks()[i];
        assert w == wires[i];
        assert wires[i..] + rest == [w] + (wires[i + 1..] + rest);
        box.Put(w, wires[i + 1..] + rest);
        i := i + 1;
      }
      assert wires[i..] + rest == rest;
      ackcount := 0;
    }

    /** The probe segments. */
    method EmitProbes(box: Outbox, w: Wire, ghost rest: seq<Wire>)
      requires box.Ok() && box.mtu == mtu
      modifies box
      ensures box.Ok() && box.mtu == mtu
      ensures box.Ahead(rest) == old(box.Ahead(ProbePair(w, ctl.askSend, ctl.askTell) + rest))
    {
      ghost var tell := if ctl.askTell then [w.(cmd := CMD_WINS)] else [];
      assert [w] + tell + rest == [w] + (tell + rest) && [] + tell + rest == tell + rest && [] + rest == rest;
      if ctl.askSend {
        box.Put(w, tell + rest);
      }
      if ctl.askTell {
        box.Put(w.(cmd := CMD_WINS), rest);
      }
    }

    /** Whether and why a segment is sent in this flush, and what becomes of it. */
    method Decide(entry: Seg) returns (seg: Seg, why: Why)
      ensures seg == Transmit(entry, ctl) && why == Reason(entry, ctl)
    {
      hide ITimeDiff, U32Of;
      seg, why := entry, Rest;
      if seg.xmit == 0 {
        why := First;
        var rtomin := if ctl.nodelay then 0 else ctl.rxRto / 8;
        seg := seg.(xmit := U32Of(seg.xmit + 1), rto := ctl.rxRto, resendts := U32Of(ctl.current + ctl.rxRto + rtomin));
      } else if ITimeDiff(ctl.current, seg.resendts) >= 0 {
        why := Timeout;
        seg := seg.(xmit := U32Of(seg.xmit + 1),
                    rto := U32Of(seg.rto + if ctl.nodelay then ctl.rxRto / 2 else ctl.rxRto));
        seg := seg.(resendts := U32Of(ctl.current + seg.rto));
      } else if seg.fastack >= ResendLimit(ctl) {
        why := Fast;
        seg := seg.(xmit := U32Of(seg.xmit + 1), fastack := 0, resendts := U32Of(ctl.current + seg.rto));
      }
    }

    /** One round of the data loop of `ikcp_flush`. */
    method EmitSegment(box: Outbox, p: nat, wnd: U16, ghost rest: seq<Wire>) returns (why: Why)
      requires p < |sndBuf| && box.Ok() && box.mtu == mtu
      modifies box, `sndBuf, `ctl
      ensures box.Ok() && box.mtu == mtu
      ensures var seg, c := old(sndBuf[p]), old(ctl);
              && why == Reason(seg, c) && sndBuf == old(sndBuf)[p := Transmit(seg, c)]
              && ctl == Resent(c, if why == Timeout then 1 else 0, Dies(seg, c))
              && box.Ahead(rest) == old(box.Ahead(PushWire(conv, seg, c, wnd, rcvNxt) + rest))
    {
      ResentNone(ctl);
      hide ITimeDiff, U32Of, Pack;
      var seg;
      seg, why := Decide(sndBuf[p]);
      sndBuf := sndBuf[p := seg];
      if why == Timeout {
        ctl := ctl.(xmit := U32Of(ctl.xmit + 1));
      }
      assert [] + rest == rest;
      if why != Rest {
        box.Put(Wire(conv, CMD_PUSH, seg.frag.frg, wnd, ctl.current, seg.sn, rcvNxt, seg.frag.data), rest);
        if seg.xmit >= ctl.deadLink {
          ctl := ctl.(dead := true);
        }
      }
    }

    /** The data loop of `ikcp_flush`. */
    method EmitData(box: Outbox) returns (change: nat, lost: bool)
      requires Valid() && box.Ok() && box.mtu == mtu
      modifies box, `sndBuf, `ctl
      ensures Valid() && box.Ok() && box.mtu == mtu
      ensures var b, c := old(sndBuf), old(ctl);
              && sndBuf == TransmitAll(b, c)
              && ctl == Resent(c, CountWhy(b, c, Timeout), DeadLink(b, c))
              && change == CountWhy(b, c, Fast) && (lost <==> CountWhy(b, c, Timeout) > 0)
              && box.Ahead([]) == old(box.Ahead(PushWires(conv, sndBuf, ctl, WndUnused(RcvView()), rcvNxt)))
    {
      hide ITimeDiff, U32Of, Pack, DeadLink, Dies, Transmit, Reason, PushWire, PushWires, CountWhy, Resent, IsBlock;
      ghost var b, c := sndBuf, ctl;
      var wnd := WndUnused(RcvView());
      ghost var goal := box.Ahead(PushWires(conv, b, c, wnd, rcvNxt));
      change, lost := 0, false;
      ghost var timeouts := 0;
      var p := 0;
      assert b[0..] == b && b[..0] == [];
      NothingSent(c, conv, wnd, rcvNxt);
      ResentNone(c);
      while p < |sndBuf|
        invariant 0 <= p <= |b| == |sndBuf| == nsndBuf && box.Ok() && box.mtu == mtu
        invariant forall i | 0 <= i < |b| :: sndBuf[i] == if i < p then Transmit(b[i], c) else b[i]
        invariant timeouts + CountWhy(b[p..], c, Timeout) == CountWhy(b, c, Timeout) && (lost <==> timeouts > 0)
        invariant change + CountWhy(b[p..], c, Fast) == CountWhy(b, c, Fast)
        invariant ctl == Resent(c, timeouts, DeadLink(b[..p], c))
        invariant box.Ahead(PushWires(conv, b[p..], c, wnd, rcvNxt)) == goal
      {
        SendNext(b, p, c, conv, wnd, rcvNxt);
        SameDecision(b[p], c, timeouts, DeadLink(b[..p], c), conv, wnd, rcvNxt);
        DeadSoFar(b, c, p);
        ResentMore(c, timeouts, DeadLink(b[..p], c), if Reason(b[p], c) == Timeout then 1 else 0, Dies(b[p], c));
        var why := EmitSegment(box, p, wnd, PushWires(conv, b[p + 1..], c, wnd, rcvNxt));
        if why == Timeout {
          lost := true;
          timeouts := timeouts + 1;
        } else if why == Fast {
          change := change + 1;
        }
        p := p + 1;
      }
      assert b[..p] == b && b[p..] == [] && sndBuf == TransmitAll(b, c);
    }

    /** Acknowledgements, probe timer and probes of `ikcp_flush`. */
    method EmitControl(box: Outbox, ghost rest: seq<Wire>)
      requires Valid() && box.Ok() && box.mtu == mtu
      modifies box, `ackcount, `ctl
      ensures Valid() && box.Ok() && box.mtu == mtu && ackcount == 0
      ensures var c1 := ProbeTimer(old(ctl));
              && ctl == Probed(c1)
              && box.Ahead(rest) == old(box.Ahead(AckWires(View()) + ProbeWires(View(), c1.askSend, c1.askTell) + rest))
    {
      hide AckWires, ProbePair, ProbeHeader, ProbeTimer, Pack;
      ghost var c1 := ProbeTimer(ctl);
      var header := ProbeHeader(View());
      ghost var acks, probes := AckWires(View()), ProbePair(header, c1.askSend, c1.askTell);
      assert acks + probes + rest == acks + (probes + rest);
      EmitAcks(box, probes + rest);
      CheckProbe();
      EmitProbes(box, header, rest);
      ctl := ctl.(askSend := false, askTell := false);
    }

    /** The window that limits what is sent: the peer's, and the congestion window unless it is switched off. */
    method WindowNow() returns (cwnd: U32)
      ensures cwnd == SendWindow(ctl)
    {
      cwnd := Min(ctl.sndWnd, ctl.rmtWnd);
      if !ctl.nocwnd {
        cwnd := Min(ctl.cwnd, cwnd);
      }
    }

    /** What `ikcp_flush` puts into datagrams: acknowledgements, probes, and the data the window allows. */
    method EmitAll(box: Outbox) returns (change: bool, lost: bool, cwnd: U32)
      requires Valid() && box.Ok() && box.mtu == mtu
      modifies this, box
      ensures Valid() && box.Ok() && box.mtu == mtu
      ensures var cb, c1 := old(View()), ProbeTimer(old(ctl));
              var s1 := Filled(false, cb.snd, c1);
              && SndView() == s1.(buf := TransmitAll(s1.buf, c1)) && RcvView() == cb.rcv.(acks := [])
              && ctl == Resent(Probed(c1), CountWhy(s1.buf, c1, Timeout), DeadLink(s1.buf, c1))
              && (change <==> CountWhy(s1.buf, c1, Fast) > 0) && (lost <==> CountWhy(s1.buf, c1, Timeout) > 0)
              && cwnd == SendWindow(c1)
              && box.Ahead([]) == old(box.Ahead(FlushWires(cb, c1, s1.buf)))
    {
      hide ITimeDiff, U32Of, Pack, DeadLink, TransmitAll, CountWhy, ProbeTimer, PushWires, FillWindow,
        ProbeWires, AckWires, WndUnused, Filled, SendWindow, FlushWires, Resent, Probed, IsBlock;
      ghost var cb, c1 := View(), ProbeTimer(ctl);
      ghost var s1, wnd := Filled(false, SndView(), c1), WndUnused(RcvView());
      FlushWiresAre(cb, c1, s1.buf);
      EmitControl(box, PushWires(conv, s1.buf, c1, wnd, rcvNxt));
      ProbeIgnored(cb.snd, c1, ctl, conv, wnd, rcvNxt);
      cwnd := WindowNow();
      FilledIs(cb.snd, ctl);
      FillFromQueue(cwnd);
      WndIgnoresAcks(cb.rcv);
      ProbeIgnored(s1, c1, ctl, conv, wnd, rcvNxt);
      var count;
      count, lost := EmitData(box);
      change := count > 0;
    }

    /** The end of `ikcp_flush`: threshold and window after resending. */
    method Congestion(change: bool, lost: bool, window: U32)
      requires Valid()
      modifies `ctl
      ensures ctl == Congest(old(ctl), mtu - OVERHEAD, U32Of(sndNxt - sndUna), window, change, lost)
    {
      var mss := mtu - OVERHEAD;
      if change {
        var inflight := U32Of(sndNxt - sndUna);
        ctl := ctl.(ssthresh := Max(inflight / 2, THRESH_MIN));
        ctl := ctl.(cwnd := U32Of(ctl.ssthresh + ResendLimit(ctl)));
        ctl := ctl.(incr := WndBytes(ctl.cwnd, mss));
      }
      if lost {
        ctl := ctl.(ssthresh := Max(window / 2, THRESH_MIN), cwnd := 1, incr := U32Of(mss));
      }
      if ctl.cwnd < 1 {
        ctl := ctl.(cwnd := 1, incr := U32Of(mss));
      }
    }

    /** `ikcp_flush`: the byte strings handed to the output callback. */
    method FlushOut() returns (out: seq<seq<Byte>>)
      requires Valid()
      modifies this
      ensures Valid()
      ensures var f := Flush(false, old(View())); View() == f.cb && out == Encoded(f.out)
    {
      hide Pack, DeadLink, TransmitAll, CountWhy, Congest, ProbeTimer, Filled, SendWindow, FlushWires, Emit, Resent,
           Probed, IsBlock;
      if !ctl.updated {
        return [];
      }
      var box := new Outbox(mtu);
      ghost var cb, c1 := View(), ProbeTimer(ctl);
      var change, lost, cwnd := EmitAll(box);
      box.Finish();
      Congestion(change, lost, cwnd);
      out := box.out;
      ghost var s1 := Filled(false, cb.snd, c1);
      EmitIs(cb, c1, s1);
      assert box.done == [] + Pack([], FlushWires(cb, c1, s1.buf), mtu);
    }

    /** The clock part of `ikcp_update`. */
    method AdvanceClock(current: U32) returns (due: bool)
      modifies `ctl
      ensures (ctl, due) == Tick(old(ctl), current)
    {
      hide ITimeDiff, U32Of;
      ctl := ctl.(current := current);
      if !ctl.updated {
        ctl := ctl.(updated := true, tsFlush := current);
      }
      var slap := ITimeDiff(ctl.current, ctl.tsFlush);
      var far := slap >= 10000 || slap < -10000;
      if far {
        ctl := ctl.(tsFlush := current);
        slap := 0;
      }
      due := slap >= 0;
      if due {
        ctl := ctl.(tsFlush := U32Of(ctl.tsFlush + ctl.interval));
        if ITimeDiff(current, ctl.tsFlush) >= 0 {
          ctl := ctl.(tsFlush := U32Of(current + ctl.interval));
        }
      }
    }

    /** `ikcp_update`. */
    method UpdateClock(current: U32) returns (out: seq<seq<Byte>>)
      requires Valid()
      modifies this
      ensures Valid()
      ensures var f := Update(false, old(View()), current); View() == f.cb && out == Encoded(f.out)
    {
      hide Tick, Flush;
      var due := AdvanceClock(current);
      out := [];
      if due {
        out := FlushOut();
      }
    }

    /** `ikcp_wndsize`. */
    method SetWndSize(sndwnd: int, rcvwnd: int)
      requires Valid() && sndwnd < TWO31 && rcvwnd < TWO31
      modifies `ctl, `rcvWnd
      ensures Valid() && View() == WndSize(old(View()), sndwnd, rcvwnd)
      ensures rcvWnd >= WND_RCV
    {
      if sndwnd > 0 {
        ctl := ctl.(sndWnd := sndwnd);
      }
      if rcvwnd > 0 {
        rcvWnd := Max(rcvwnd, WND_RCV);
      }
    }
  }
}
