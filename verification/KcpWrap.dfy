/** The program's 32-bit counters against counters that never wrap: every operation commutes with
    reducing all segment numbers modulo 2^32. No bound on the numbers is needed, because the code
    only subtracts, compares and increments them.

    `WrapCb` and its parts reduce the numbers of a control block, of segments and of datagrams; there is one
    lemma for each operation of KcpModel, saying that to reduce and then operate is to operate and then
    reduce. KcpSystem carries this over to runs. */
module KcpWrap {
  import opened LittleEndian
  import opened KcpArith
  import opened KcpWire
  import opened KcpModel

  function Map<A, B>(f: A -> B, s: seq<A>): (r: seq<B>)
    ensures |r| == |s|
    ensures forall i | 0 <= i < |s| :: r[i] == f(s[i])
  {
    seq(|s|, i requires 0 <= i < |s| => f(s[i]))
  }

  lemma MapAppend<A, B>(f: A -> B, s: seq<A>, t: seq<A>)
    ensures Map(f, s + t) == Map(f, s) + Map(f, t)
  {
  }

  lemma MapDrop<A, B>(f: A -> B, s: seq<A>, k: nat)
    requires k <= |s|
    ensures Map(f, s[k..]) == Map(f, s)[k..]
    ensures Map(f, s[..k]) == Map(f, s)[..k]
  {
  }

  function WrapSeg(g: Seg): Seg { g.(sn := U32Of(g.sn)) }
  function WrapRSeg(g: RSeg): RSeg { g.(sn := U32Of(g.sn)) }
  function WrapAck(a: Ack): Ack { a.(sn := U32Of(a.sn)) }
  function WrapSnd(s: Snd): Snd { s.(una := U32Of(s.una), nxt := U32Of(s.nxt), buf := Map(WrapSeg, s.buf)) }
  function WrapRcv(r: Rcv): Rcv { r.(nxt := U32Of(r.nxt), buf := Map(WrapRSeg, r.buf), acks := Map(WrapAck, r.acks)) }
  function WrapCb(cb: Cb): Cb { cb.(snd := WrapSnd(cb.snd), rcv := WrapRcv(cb.rcv)) }
  function WrapMax(m: MaxAck): MaxAck { if m.NoAck? then m else SomeAck(U32Of(m.sn)) }
  function WrapDgrams(ds: seq<seq<Wire>>): seq<seq<Wire>> { Map(WrapWires, ds) }

  // ---------------------------------------------------------------- wire round trip

  lemma WrapWiresDrop(ws: seq<Wire>)
    requires ws != []
    ensures WrapWires(ws) == [WrapWire(ws[0])] + WrapWires(ws[1..])
    ensures WrapWires(ws)[1..] == WrapWires(ws[1..])
  {
  }

  /** The parsing loop reads back the segments that were encoded, and nothing else. */
  lemma {:induction false} InputLoopOfEncoding(cb: Cb, m: MaxAck, ws: seq<Wire>)
    requires Encodable(ws)
    requires forall w | w in ws :: w.conv == cb.conv && KnownCmd(w.cmd)
    ensures InputLoop(cb, m, EncodeAll(ws)) == (0, InputSegs(false, cb, WrapWires(ws)), NoteAcks(m, WrapWires(ws)))
    decreases |ws|
  {
    if ws != [] {
      var w, rest := ws[0], EncodeAll(ws[1..]);
      var b := Encode(w) + rest;
      DecodeEncode(w, rest);
      assert b[OVERHEAD..][..DecodeLen(b)] == w.data;
      assert b[OVERHEAD..][DecodeLen(b)..] == rest;
      assert DecodeSeg(b) == WrapWire(w);
      WrapWiresDrop(ws);
      InputLoopOfEncoding(InputSeg(false, cb, WrapWire(w)), NoteAck(m, WrapWire(w)), ws[1..]);
    }
  }

  /** A datagram made of whole segments of this conversation is accepted (return code 0) and has the
      effect of exactly those segments, in order. */
  lemma WireRoundTrip(cb: Cb, ws: seq<Wire>)
    requires cb.Mss() > 0 && ws != [] && Encodable(ws)
    requires forall w | w in ws :: w.conv == cb.conv && KnownCmd(w.cmd)
    ensures InputBytes(cb, EncodeAll(ws)) == (0, Input(false, cb, WrapWires(ws)))
  {
    InputLoopOfEncoding(cb, NoAck, ws);
    assert |EncodeAll(ws)| >= OVERHEAD;
  }

  // ---------------------------------------------------------------- sender side

  lemma {:induction false} DropBelowWraps(buf: seq<Seg>, una: nat)
    ensures DropBelow(Map(WrapSeg, buf), U32Of(una)) == Map(WrapSeg, DropBelow(buf, una))
  {
    hide U32Of, ITimeDiff, SameSn;
    if buf != [] {
      DiffOfReduced(una, buf[0].sn, 0);
      DropBelowWraps(buf[1..], una);
      MapDrop(WrapSeg, buf, 1);
    }
  }

  lemma {:induction false} RemoveSnWraps(buf: seq<Seg>, sn: nat)
    ensures RemoveSn(Map(WrapSeg, buf), U32Of(sn)) == Map(WrapSeg, RemoveSn(buf, sn))
  {
    hide U32Of, ITimeDiff, SameSn;
    if buf != [] {
      DiffOfReduced(sn, buf[0].sn, 0);
      RemoveSnWraps(buf[1..], sn);
      MapDrop(WrapSeg, buf, 1);
      MapAppend(WrapSeg, [buf[0]], RemoveSn(buf[1..], sn));
    }
  }

  lemma {:induction false} BumpFastackWraps(buf: seq<Seg>, sn: nat)
    ensures BumpFastack(Map(WrapSeg, buf), U32Of(sn)) == Map(WrapSeg, BumpFastack(buf, sn))
  {
    hide U32Of, ITimeDiff, SameSn;
    if buf != [] {
      DiffOfReduced(sn, buf[0].sn, 0);
      BumpFastackWraps(buf[1..], sn);
      MapDrop(WrapSeg, buf, 1);
      var b0 := if SameSn(sn, buf[0].sn) then buf[0] else buf[0].(fastack := U32Of(buf[0].fastack + 1));
      MapAppend(WrapSeg, [b0], BumpFastack(buf[1..], sn));
    }
  }

  lemma ParseUnaWraps(s: Snd, una: nat)
    ensures ParseUna(WrapSnd(s), U32Of(una)) == WrapSnd(ParseUna(s, una))
  {
    DropBelowWraps(s.buf, una);
  }

  lemma InFlightWraps(s: Snd, sn: nat)
    ensures InFlight(WrapSnd(s), U32Of(sn)) == InFlight(s, sn)
  {
    DiffOfReduced(sn, s.una, 0);
    DiffOfReduced(sn, s.nxt, 0);
  }

  lemma ParseAckWraps(s: Snd, sn: nat)
    ensures ParseAck(WrapSnd(s), U32Of(sn)) == WrapSnd(ParseAck(s, sn))
  {
    InFlightWraps(s, sn);
    RemoveSnWraps(s.buf, sn);
  }

  lemma ParseFastackWraps(s: Snd, sn: nat)
    ensures ParseFastack(WrapSnd(s), U32Of(sn)) == WrapSnd(ParseFastack(s, sn))
  {
    InFlightWraps(s, sn);
    BumpFastackWraps(s.buf, sn);
  }

  // ---------------------------------------------------------------- receiver side

  lemma {:induction false} InsertWraps(buf: seq<RSeg>, g: RSeg)
    ensures Insert(Map(WrapRSeg, buf), WrapRSeg(g)) == Map(WrapRSeg, Insert(buf, g))
  {
    hide U32Of, ITimeDiff, SameSn;
    if buf == [] {
      assert Map(WrapRSeg, [g]) == [WrapRSeg(g)];
    } else {
      var n := |buf| - 1;
      DiffOfReduced(g.sn, buf[n].sn, 0);
      DiffOfReduced(buf[n].sn, g.sn, 0);
      InsertWraps(buf[..n], g);
      MapDrop(WrapRSeg, buf, n);
      MapAppend(WrapRSeg, buf, [g]);
      MapAppend(WrapRSeg, Insert(buf[..n], g), [buf[n]]);
    }
  }

  lemma SuccWraps(n: nat)
    ensures Succ(false, U32Of(n)) == U32Of(Succ(true, n))
  {
    var k := n / TWO32;
    assert n == k * TWO32 + U32Of(n);
  }

  lemma {:induction false} MoveReadyWraps(r: Rcv)
    ensures MoveReady(false, WrapRcv(r)) == WrapRcv(MoveReady(true, r))
    decreases |r.buf|
  {
    if r.buf != [] {
      DiffOfReduced(r.buf[0].sn, r.nxt, 0);
      if SameSn(r.buf[0].sn, r.nxt) && |r.queue| < r.wnd {
        var r1 := r.(nxt := r.nxt + 1, queue := r.queue + [r.buf[0].frag], buf := r.buf[1..]);
        MapDrop(WrapRSeg, r.buf, 1);
        SuccWraps(r.nxt);
        MoveReadyWraps(r1);
      }
    }
  }

  lemma ParseDataWraps(r: Rcv, g: RSeg)
    ensures ParseData(false, WrapRcv(r), WrapRSeg(g)) == WrapRcv(ParseData(true, r, g))
  {
    hide MoveReady, Insert;
    var c, cg := WrapRcv(r), WrapRSeg(g);
    assert ITimeDiff(cg.sn, c.nxt + c.wnd) == ITimeDiff(g.sn, r.nxt + r.wnd) by { DiffOfReduced(g.sn, r.nxt, r.wnd); }
    assert ITimeDiff(cg.sn, c.nxt) == ITimeDiff(g.sn, r.nxt) by { DiffOfReduced(g.sn, r.nxt, 0); }
    var r1 := r.(buf := Insert(r.buf, g));
    assert c.(buf := Insert(c.buf, cg)) == WrapRcv(r1) by { InsertWraps(r.buf, g); }
    MoveReadyWraps(r1);
  }

  lemma AcceptPushWraps(r: Rcv, w: Wire)
    ensures AcceptPush(false, WrapRcv(r), WrapWire(w)) == WrapRcv(AcceptPush(true, r, w))
  {
    assert ITimeDiff(U32Of(w.sn), U32Of(r.nxt) + r.wnd) == ITimeDiff(w.sn, r.nxt + r.wnd) by {
      DiffOfReduced(w.sn, r.nxt, r.wnd);
    }
    assert ITimeDiff(U32Of(w.sn), U32Of(r.nxt)) == ITimeDiff(w.sn, r.nxt) by { DiffOfReduced(w.sn, r.nxt, 0); }
    var a := Ack(w.sn, w.ts);
    var r1 := r.(acks := r.acks + [a]);
    assert WrapRcv(r1) == WrapRcv(r).(acks := WrapRcv(r).acks + [WrapAck(a)]) by {
      MapAppend(WrapAck, r.acks, [a]);
      assert Map(WrapAck, [a]) == [WrapAck(a)];
    }
    ParseDataWraps(r1, RSeg(w.sn, Frag(w.frg, w.data)));
  }

  // ---------------------------------------------------------------- input, recv, flush

  lemma InputSegWraps(cb: Cb, w: Wire)
    ensures InputSeg(false, WrapCb(cb), WrapWire(w)) == WrapCb(InputSeg(true, cb, w))
  {
    ParseUnaWraps(cb.snd, w.una);
    ParseAckWraps(ParseUna(cb.snd, w.una), w.sn);
    AcceptPushWraps(cb.rcv, w);
  }

  lemma {:induction false} InputSegsWraps(cb: Cb, ws: seq<Wire>)
    ensures InputSegs(false, WrapCb(cb), WrapWires(ws)) == WrapCb(InputSegs(true, cb, ws))
    decreases |ws|
  {
    if ws != [] {
      WrapWiresDrop(ws);
      InputSegWraps(cb, ws[0]);
      InputSegsWraps(InputSeg(true, cb, ws[0]), ws[1..]);
    }
  }

  lemma {:induction false} NoteAcksWraps(m: MaxAck, ws: seq<Wire>)
    ensures NoteAcks(WrapMax(m), WrapWires(ws)) == WrapMax(NoteAcks(m, ws))
    decreases |ws|
  {
    if ws != [] {
      WrapWiresDrop(ws);
      if m.SomeAck? {
        DiffOfReduced(ws[0].sn, m.sn, 0);
      }
      NoteAcksWraps(NoteAck(m, ws[0]), ws[1..]);
    }
  }

  lemma InputWraps(cb: Cb, ws: seq<Wire>)
    requires cb.Mss() > 0
    ensures Input(false, WrapCb(cb), WrapWires(ws)) == WrapCb(Input(true, cb, ws))
  {
    hide U32Of, Grow;
    InputSegsWraps(cb, ws);
    NoteAcksWraps(NoAck, ws);
    var c, m := InputSegs(true, cb, ws), NoteAcks(NoAck, ws);
    if m.SomeAck? {
      ParseFastackWraps(c.snd, m.sn);
    }
    var snd := if m.SomeAck? then ParseFastack(c.snd, m.sn) else c.snd;
    DiffOfReduced(snd.una, cb.snd.una, 0);
  }

  lemma RecvWraps(r: Rcv, len: int)
    ensures var c, a := Recv(false, WrapRcv(r), len), Recv(true, r, len);
            c == a.(rcv := WrapRcv(a.rcv))
  {
    var k := HeadLen(r.queue);
    MoveReadyWraps(r.(queue := if len < 0 then r.queue else r.queue[k..]));
  }

  lemma {:induction false} FillWindowWraps(s: Snd, cwnd: U32, current: U32, rto: U32)
    ensures FillWindow(false, WrapSnd(s), cwnd, current, rto) == WrapSnd(FillWindow(true, s, cwnd, current, rto))
    decreases |s.queue|
  {
    DiffOfReduced(s.nxt, s.una, cwnd);
    if ITimeDiff(s.nxt, s.una + cwnd) < 0 && s.queue != [] {
      var g := Seg(s.nxt, s.queue[0], current, rto, 0, 0);
      MapAppend(WrapSeg, s.buf, [g]);
      assert Map(WrapSeg, [g]) == [WrapSeg(g)];
      SuccWraps(s.nxt);
      FillWindowWraps(s.(queue := s.queue[1..], nxt := s.nxt + 1, buf := s.buf + [g]), cwnd, current, rto);
    }
  }

  lemma {:induction false} PushWiresWraps(conv: U32, buf: seq<Seg>, ctl: Ctl, wnd: U16, una: nat)
    ensures PushWires(conv, Map(WrapSeg, buf), ctl, wnd, U32Of(una)) == WrapWires(PushWires(conv, buf, ctl, wnd, una))
    decreases |buf|
  {
    if buf != [] {
      PushWiresWraps(conv, buf[1..], ctl, wnd, una);
      MapDrop(WrapSeg, buf, 1);
    }
  }

  lemma {:induction false} CountWhyWraps(buf: seq<Seg>, ctl: Ctl, why: Why)
    ensures CountWhy(Map(WrapSeg, buf), ctl, why) == CountWhy(buf, ctl, why)
    decreases |buf|
  {
    if buf != [] {
      CountWhyWraps(buf[1..], ctl, why);
      MapDrop(WrapSeg, buf, 1);
    }
  }

  lemma SizeWraps(ws: seq<Wire>)
    ensures Size(WrapWires(ws)) == Size(ws)
    decreases |ws|
  {
    if ws != [] {
      SizeWraps(ws[1..]);
      WrapWiresDrop(ws);
    }
  }

  lemma {:induction false} PackWraps(cur: seq<Wire>, ws: seq<Wire>, mtu: nat)
    ensures Pack(WrapWires(cur), WrapWires(ws), mtu) == WrapDgrams(Pack(cur, ws, mtu))
    decreases |ws|
  {
    SizeWraps(cur);
    if ws != [] {
      WrapWiresDrop(ws);
      PackWraps([ws[0]], ws[1..], mtu);
      PackWraps(cur + [ws[0]], ws[1..], mtu);
      assert WrapWires([ws[0]]) == [WrapWire(ws[0])];
      assert WrapWires(cur + [ws[0]]) == WrapWires(cur) + [WrapWire(ws[0])];
    }
  }

  lemma AckWiresWraps(cb: Cb)
    ensures AckWires(WrapCb(cb)) == WrapWires(AckWires(cb))
  {
    var a, c := AckWires(cb), AckWires(WrapCb(cb));
    forall i | 0 <= i < |a| ensures c[i] == WrapWire(a[i]) {
    }
  }

  lemma ProbeWiresWraps(cb: Cb, askSend: bool, askTell: bool)
    ensures ProbeWires(WrapCb(cb), askSend, askTell) == WrapWires(ProbeWires(cb, askSend, askTell))
  {
  }

  lemma WrapWiresAppend(s: seq<Wire>, t: seq<Wire>)
    ensures WrapWires(s + t) == WrapWires(s) + WrapWires(t)
  {
  }

  lemma FlushWiresWraps(cb: Cb, ctl: Ctl, buf: seq<Seg>)
    ensures FlushWires(WrapCb(cb), ctl, Map(WrapSeg, buf)) == WrapWires(FlushWires(cb, ctl, buf))
  {
    assert WndUnused(WrapCb(cb).rcv) == WndUnused(cb.rcv);
    hide AckWires, ProbeWires, PushWires, WrapWires, WndUnused;
    var acks, probes := AckWires(cb), ProbeWires(cb, ctl.askSend, ctl.askTell);
    AckWiresWraps(cb);
    ProbeWiresWraps(cb, ctl.askSend, ctl.askTell);
    PushWiresWraps(cb.conv, buf, ctl, WndUnused(cb.rcv), cb.rcv.nxt);
    WrapWiresAppend(acks, probes);
    WrapWiresAppend(acks + probes, PushWires(cb.conv, buf, ctl, WndUnused(cb.rcv), cb.rcv.nxt));
  }

  lemma DeadLinkWraps(buf: seq<Seg>, ctl: Ctl)
    ensures DeadLink(Map(WrapSeg, buf), ctl) == DeadLink(buf, ctl)
  {
    var wb := Map(WrapSeg, buf);
    forall i | 0 <= i < |buf|
      ensures Dies(wb[i], ctl) == Dies(buf[i], ctl)
    {
    }
  }

  lemma InflightWraps(a: nat, b: nat)
    ensures U32Of(U32Of(a) - U32Of(b)) == U32Of(a - b)
  {
    var ka, kb := a / TWO32, b / TWO32;
    assert a == ka * TWO32 + U32Of(a) && b == kb * TWO32 + U32Of(b);
  }

  lemma AfterSendingWraps(ctl: Ctl, mss: nat, snd: Snd, window: U32)
    ensures AfterSending(ctl, mss, WrapSnd(snd), window) == AfterSending(ctl, mss, snd, window)
  {
    var w := WrapSnd(snd);
    assert w.buf == Map(WrapSeg, snd.buf);
    CountWhyWraps(snd.buf, ctl, Timeout);
    CountWhyWraps(snd.buf, ctl, Fast);
    DeadLinkWraps(snd.buf, ctl);
    assert U32Of(w.nxt - w.una) == U32Of(snd.nxt - snd.una) by { InflightWraps(snd.nxt, snd.una); }
  }

  lemma TransmitAllWraps(buf: seq<Seg>, ctl: Ctl)
    ensures TransmitAll(Map(WrapSeg, buf), ctl) == Map(WrapSeg, TransmitAll(buf, ctl))
  {
    var a, c := Map(WrapSeg, TransmitAll(buf, ctl)), TransmitAll(Map(WrapSeg, buf), ctl);
    forall i | 0 <= i < |buf| ensures a[i] == c[i] {
      assert Reason(WrapSeg(buf[i]), ctl) == Reason(buf[i], ctl);
    }
  }

  lemma EmitOutWraps(cb: Cb, ctl: Ctl, snd: Snd)
    ensures Emit(WrapCb(cb), ctl, WrapSnd(snd)).out == WrapDgrams(Emit(cb, ctl, snd).out)
  {
    FlushWiresWraps(cb, ctl, snd.buf);
    PackWraps([], FlushWires(cb, ctl, snd.buf), cb.mtu);
    assert WrapWires([]) == [];
  }

  lemma EmitCbWraps(cb: Cb, ctl: Ctl, snd: Snd)
    ensures Emit(WrapCb(cb), ctl, WrapSnd(snd)).cb == WrapCb(Emit(cb, ctl, snd).cb)
  {
    hide U32Of, AfterSending, Pack, FlushWires;
    AfterSendingWraps(ctl, cb.Mss(), snd, SendWindow(ctl));
    TransmitAllWraps(snd.buf, ctl);
    assert Map(WrapAck, []) == [];
  }

  lemma EmitWraps(cb: Cb, ctl: Ctl, snd: Snd)
    ensures var a := Emit(cb, ctl, snd);
            Emit(WrapCb(cb), ctl, WrapSnd(snd)) == FlushResult(WrapCb(a.cb), WrapDgrams(a.out))
  {
    EmitOutWraps(cb, ctl, snd);
    EmitCbWraps(cb, ctl, snd);
  }

  lemma FlushWraps(cb: Cb)
    ensures var a := Flush(true, cb);
            Flush(false, WrapCb(cb)) == FlushResult(WrapCb(a.cb), WrapDgrams(a.out))
  {
    if cb.ctl.updated {
      var ctl := ProbeTimer(cb.ctl);
      FillWindowWraps(cb.snd, SendWindow(ctl), ctl.current, ctl.rxRto);
      EmitWraps(cb, ctl, Filled(true, cb.snd, ctl));
    }
  }

  lemma UpdateWraps(cb: Cb, current: U32)
    ensures var a := Update(true, cb, current);
            Update(false, WrapCb(cb), current) == FlushResult(WrapCb(a.cb), WrapDgrams(a.out))
  {
    var (ctl, due) := Tick(cb.ctl, current);
    FlushWraps(cb.(ctl := ctl));
  }
}
