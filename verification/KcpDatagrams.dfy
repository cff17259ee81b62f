/** What `ikcp_flush` puts into datagrams: sizes, contents, and the fate of acknowledgements. */
module KcpDatagrams {
  import opened LittleEndian
  import opened KcpArith
  import opened KcpWire
  import opened KcpModel
  import opened KcpSystem

  /** The segments of all datagrams, in order. */
  function Concat(ds: seq<seq<Wire>>): seq<Wire> {
    if ds == [] then [] else ds[0] + Concat(ds[1..])
  }

  /** Packing into datagrams neither loses, repeats nor reorders segments. */
  lemma {:induction false} PackConcat(cur: seq<Wire>, ws: seq<Wire>, mtu: nat)
    ensures Concat(Pack(cur, ws, mtu)) == cur + ws
    decreases |ws|
  {
    assert cur + [] == cur && Concat([cur]) == cur + Concat([]);
    if ws != [] {
      var rest := Pack([ws[0]], ws[1..], mtu);
      PackConcat([ws[0]], ws[1..], mtu);
      PackConcat(cur + [ws[0]], ws[1..], mtu);
      assert [ws[0]] + ws[1..] == ws;
      assert (cur + [ws[0]]) + ws[1..] == cur + ws;
      if cur != [] {
        assert ([cur] + rest)[1..] == rest;
      } else {
        assert [] + rest == rest && [] + ws == ws;
      }
    }
  }

  /** A datagram is handed over only when the next segment does not fit into it, or no more are to come. */
  lemma {:induction false} PackGreedy(cur: seq<Wire>, ws: seq<Wire>, mtu: nat)
    ensures var ds := Pack(cur, ws, mtu);
            && (cur != [] ==> ds != [] && cur <= ds[0])
            && forall i | 0 < i < |ds| :: ds[i] != [] && Size(ds[i - 1]) + OVERHEAD + |ds[i][0].data| > mtu
    decreases |ws|
  {
    if ws != [] {
      if Size(cur) + OVERHEAD + |ws[0].data| > mtu {
        var rest := Pack([ws[0]], ws[1..], mtu);
        PackGreedy([ws[0]], ws[1..], mtu);
        assert rest[0][0] == ws[0];
        assert cur != [] ==> Pack(cur, ws, mtu)[1..] == rest;
      } else {
        PackGreedy(cur + [ws[0]], ws[1..], mtu);
      }
    }
  }

  lemma {:induction false} ConcatMember(ds: seq<seq<Wire>>, i: nat, j: nat)
    requires i < |ds| && j < |ds[i]|
    ensures ds[i][j] in Concat(ds)
  {
    if i > 0 {
      ConcatMember(ds[1..], i - 1, j);
    }
  }

  // ---------------------------------------------------------------- sizes

  lemma SizeAppend(s: seq<Wire>, w: Wire)
    ensures Size(s + [w]) == Size(s) + OVERHEAD + |w.data|
    decreases |s|
  {
    if s != [] {
      assert (s + [w])[1..] == s[1..] + [w];
      SizeAppend(s[1..], w);
    }
  }

  /** A datagram is not empty, fits the mtu, and consists of segments `ikcp_input` understands. */
  predicate DgramOk(d: seq<Wire>, conv: U32, mtu: nat) {
    && d != [] && Size(d) <= mtu
    && (forall w | w in d :: w.conv == conv && KnownCmd(w.cmd))
  }

  predicate DgramsOk(ds: seq<seq<Wire>>, conv: U32, mtu: nat) {
    forall d | d in ds :: DgramOk(d, conv, mtu)
  }

  lemma {:induction false} PackSizes(cur: seq<Wire>, ws: seq<Wire>, conv: U32, mtu: nat)
    requires Size(cur) <= mtu
    requires forall w | w in cur + ws :: w.conv == conv && KnownCmd(w.cmd) && OVERHEAD + |w.data| <= mtu
    ensures DgramsOk(Pack(cur, ws, mtu), conv, mtu)
    decreases |ws|
  {
    assert forall w | w in cur :: w in cur + ws;
    assert cur != [] ==> DgramOk(cur, conv, mtu);
    if ws != [] {
      assert ws[0] in cur + ws;
      assert forall w | w in ws[1..] :: w in cur + ws;
      if Size(cur) + OVERHEAD + |ws[0].data| > mtu {
        assert Size([ws[0]]) == OVERHEAD + |ws[0].data|;
        PackSizes([ws[0]], ws[1..], conv, mtu);
      } else {
        SizeAppend(cur, ws[0]);
        PackSizes(cur + [ws[0]], ws[1..], conv, mtu);
      }
    }
  }

  lemma {:induction false} EncodedSize(ws: seq<Wire>)
    ensures |EncodeAll(ws)| == Size(ws)
    decreases |ws|
  {
    if ws != [] {
      EncodedSize(ws[1..]);
    }
  }

  lemma {:induction false} SmallIsEncodable(ws: seq<Wire>, mtu: nat)
    requires Size(ws) <= mtu < TWO31
    ensures Encodable(ws)
    decreases |ws|
  {
    if ws != [] {
      SmallIsEncodable(ws[1..], mtu);
      assert forall w | w in ws :: w == ws[0] || w in ws[1..];
    }
  }

  // ---------------------------------------------------------------- no fragment outgrows the mtu

  predicate FragsFit(fs: seq<Frag>, mss: int) {
    forall f | f in fs :: |f.data| <= mss
  }

  predicate SegsFit(buf: seq<Seg>, mss: int) {
    forall i | 0 <= i < |buf| :: |buf[i].frag.data| <= mss
  }

  /** Fragments cut by `ikcp_send`: as many as computed, counted down, none above mss. */
  lemma {:induction false} FragmentsShape(stream: bool, data: seq<Byte>, mss: nat, count: nat)
    requires count <= 128
    ensures var fs := Fragments(stream, data, mss, count);
            && |fs| == count && FragsFit(fs, mss)
            && (forall i | 0 <= i < count :: fs[i].frg == if stream then 0 else count - 1 - i)
    decreases count
  {
    if count > 0 {
      FragmentsShape(stream, data[Min(|data|, mss)..], mss, count - 1);
    }
  }

  lemma SendFits(cb: Cb, data: seq<Byte>)
    requires cb.Mss() > 0 && FragsFit(cb.snd.queue, cb.Mss())
    ensures FragsFit(Send(cb, data).1, cb.Mss())
  {
    var q, mss := cb.snd.queue, cb.Mss();
    var ext := if cb.stream then Extension(q, |data|, mss) else 0;
    var rest := data[ext..];
    var q1 := if cb.stream then ExtendLast(q, data[..ext], mss) else q;
    assert FragsFit(q1, mss);
    if FragCount(|rest|, mss) < WND_RCV {
      FragmentsShape(cb.stream, rest, mss, FragCount(|rest|, mss));
    }
  }

  ghost predicate PeerFits(p: Peer) {
    && 50 <= p.cb.mtu < TWO31
    && FragsFit(p.cb.snd.queue, p.cb.Mss())
    && SegsFit(p.cb.snd.buf, p.cb.Mss())
    && DgramsOk(p.out, p.cb.conv, p.cb.mtu)
  }

  lemma {:induction false} DropBelowFits(buf: seq<Seg>, una: nat, mss: int)
    requires SegsFit(buf, mss)
    ensures SegsFit(DropBelow(buf, una), mss)
  {
    if buf != [] {
      DropBelowFits(buf[1..], una, mss);
    }
  }

  lemma {:induction false} RemoveSnFits(buf: seq<Seg>, sn: nat, mss: int)
    requires SegsFit(buf, mss)
    ensures SegsFit(RemoveSn(buf, sn), mss)
  {
    if buf != [] {
      RemoveSnFits(buf[1..], sn, mss);
    }
  }

  lemma {:induction false} BumpFastackFits(buf: seq<Seg>, sn: nat, mss: int)
    requires SegsFit(buf, mss)
    ensures SegsFit(BumpFastack(buf, sn), mss)
  {
    if buf != [] {
      BumpFastackFits(buf[1..], sn, mss);
    }
  }

  lemma {:induction false} FillWindowFits(wide: bool, s: Snd, cwnd: U32, current: U32, rto: U32, mss: int)
    requires FragsFit(s.queue, mss) && SegsFit(s.buf, mss)
    ensures var t := FillWindow(wide, s, cwnd, current, rto); FragsFit(t.queue, mss) && SegsFit(t.buf, mss)
    decreases |s.queue|
  {
    if ITimeDiff(s.nxt, s.una + cwnd) < 0 && s.queue != [] {
      FillWindowFits(wide, s.(queue := s.queue[1..], nxt := Succ(wide, s.nxt),
                              buf := s.buf + [Seg(s.nxt, s.queue[0], current, rto, 0, 0)]), cwnd, current, rto, mss);
    }
  }

  lemma {:induction false} InputSegsFit(wide: bool, cb: Cb, ws: seq<Wire>)
    requires SegsFit(cb.snd.buf, cb.Mss())
    ensures var c := InputSegs(wide, cb, ws); SegsFit(c.snd.buf, cb.Mss()) && c.snd.queue == cb.snd.queue
    decreases |ws|
  {
    if ws != [] {
      DropBelowFits(cb.snd.buf, ws[0].una, cb.Mss());
      RemoveSnFits(ParseUna(cb.snd, ws[0].una).buf, ws[0].sn, cb.Mss());
      InputSegsFit(wide, InputSeg(wide, cb, ws[0]), ws[1..]);
    }
  }

  lemma {:induction false} PushWiresFit(conv: U32, buf: seq<Seg>, ctl: Ctl, wnd: U16, una: nat, mss: int, w: Wire)
    requires SegsFit(buf, mss) && w in PushWires(conv, buf, ctl, wnd, una)
    ensures w.conv == conv && KnownCmd(w.cmd) && |w.data| <= mss
    decreases |buf|
  {
    if buf != [] && w in PushWires(conv, buf[1..], ctl, wnd, una) {
      PushWiresFit(conv, buf[1..], ctl, wnd, una, mss, w);
    }
  }

  lemma FlushWiresFit(cb: Cb, ctl: Ctl, buf: seq<Seg>, w: Wire)
    requires cb.Mss() > 0 && SegsFit(buf, cb.Mss()) && w in FlushWires(cb, ctl, buf)
    ensures w.conv == cb.conv && KnownCmd(w.cmd) && |w.data| <= cb.Mss()
  {
    var pushes := PushWires(cb.conv, buf, ctl, WndUnused(cb.rcv), cb.rcv.nxt);
    if w in pushes {
      PushWiresFit(cb.conv, buf, ctl, WndUnused(cb.rcv), cb.rcv.nxt, cb.Mss(), w);
    } else if w in AckWires(cb) {
    } else {
      assert w in ProbeWires(cb, ctl.askSend, ctl.askTell);
    }
  }

  lemma FlushFits(wide: bool, cb: Cb)
    requires 50 <= cb.mtu < TWO31 && FragsFit(cb.snd.queue, cb.Mss()) && SegsFit(cb.snd.buf, cb.Mss())
    ensures var f := Flush(wide, cb);
            && FragsFit(f.cb.snd.queue, cb.Mss()) && SegsFit(f.cb.snd.buf, cb.Mss())
            && DgramsOk(f.out, cb.conv, cb.mtu)
  {
    if cb.ctl.updated {
      var ctl := ProbeTimer(cb.ctl);
      var s := Filled(wide, cb.snd, ctl);
      FillWindowFits(wide, cb.snd, SendWindow(ctl), ctl.current, ctl.rxRto, cb.Mss());
      var ws := FlushWires(cb, ctl, s.buf);
      forall w | w in [] + ws ensures w.conv == cb.conv && KnownCmd(w.cmd) && |w.data| <= cb.Mss() {
        FlushWiresFit(cb, ctl, s.buf, w);
      }
      PackSizes([], ws, cb.conv, cb.mtu);
    }
  }

  lemma InputFits(wide: bool, cb: Cb, ws: seq<Wire>)
    requires 50 <= cb.mtu < TWO31 && FragsFit(cb.snd.queue, cb.Mss()) && SegsFit(cb.snd.buf, cb.Mss())
    ensures var c := Input(wide, cb, ws);
            c.mtu == cb.mtu && c.conv == cb.conv && c.snd.queue == cb.snd.queue && SegsFit(c.snd.buf, cb.Mss())
  {
    hide ITimeDiff, U32Of, SegsFit, FragsFit;
    InputSegsFit(wide, cb, ws);
    var c, m := InputSegs(wide, cb, ws), NoteAcks(NoAck, ws);
    if m.SomeAck? {
      BumpFastackFits(c.snd.buf, m.sn, cb.Mss());
    }
  }

  lemma StepFits(wide: bool, p: Peer, q: Peer, act: Act)
    requires PeerFits(p)
    ensures PeerFits(StepPeer(wide, p, q, act))
  {
    StepKeepsConfig(wide, p, q, act);
    hide FragsFit, SegsFit, Flush, Send, Input, Recv, Tick, NoDelay;
    match act
    case CallSend(data) =>
      SendFits(p.cb, data);
    case CallRecv(_) =>
    case CallUpdate(current) =>
      var (ctl, due) := Tick(p.cb.ctl, current);
      FlushFits(wide, p.cb.(ctl := ctl));
    case CallFlush =>
      FlushFits(wide, p.cb);
    case CallInput(i) =>
      if i < |q.out| {
        InputFits(wide, p.cb, q.out[i]);
      }
    case CallWndSize(_, _) =>
    case CallNoDelay(_, _, _, _) =>
  }

  lemma {:induction false} RunFits(wide: bool, s: Sys, evs: seq<Event>)
    requires PeerFits(s.a) && PeerFits(s.b)
    ensures PeerFits(Run(wide, s, evs).a) && PeerFits(Run(wide, s, evs).b)
    decreases |evs|
  {
    if evs != [] {
      StepFits(wide, s.a, s.b, evs[0].act);
      StepFits(wide, s.b, s.a, evs[0].act);
      RunFits(wide, Step(wide, s, evs[0]), evs[1..]);
    }
  }

  // ---------------------------------------------------------------- acknowledgements

  /** The (sn, ts) pairs a list of segments acknowledges, in order. */
  function AcksIn(ws: seq<Wire>): seq<Ack> {
    if ws == [] then []
    else (if ws[0].cmd == CMD_ACK then [Ack(ws[0].sn, ws[0].ts)] else []) + AcksIn(ws[1..])
  }

  lemma {:induction false} AcksInAppend(s: seq<Wire>, t: seq<Wire>)
    ensures AcksIn(s + t) == AcksIn(s) + AcksIn(t)
    decreases |s|
  {
    if s == [] {
      assert s + t == t;
    } else {
      assert (s + t)[1..] == s[1..] + t;
      AcksInAppend(s[1..], t);
    }
  }

  lemma {:induction false} NoAcksIn(ws: seq<Wire>)
    requires forall w | w in ws :: w.cmd != CMD_ACK
    ensures AcksIn(ws) == []
    decreases |ws|
  {
    if ws != [] {
      NoAcksIn(ws[1..]);
    }
  }

  lemma {:induction false} PushWiresPush(conv: U32, buf: seq<Seg>, ctl: Ctl, wnd: U16, una: nat)
    ensures forall w | w in PushWires(conv, buf, ctl, wnd, una) :: w.cmd == CMD_PUSH
    decreases |buf|
  {
    if buf != [] {
      PushWiresPush(conv, buf[1..], ctl, wnd, una);
    }
  }

  lemma {:induction false} AcksInAckWires(ws: seq<Wire>, acks: seq<Ack>)
    requires |ws| == |acks|
    requires forall i | 0 <= i < |ws| :: ws[i].cmd == CMD_ACK && acks[i] == Ack(ws[i].sn, ws[i].ts)
    ensures AcksIn(ws) == acks
    decreases |ws|
  {
    if ws != [] {
      AcksInAckWires(ws[1..], acks[1..]);
    }
  }

  /** A flush emits each pending acknowledgement exactly once, in arrival order, and nothing is left
      pending. */
  lemma FlushEmitsAcks(wide: bool, cb: Cb)
    requires cb.ctl.updated
    ensures AcksIn(Concat(Flush(wide, cb).out)) == cb.rcv.acks
    ensures Flush(wide, cb).cb.rcv == cb.rcv.(acks := [])
  {
    var ctl := ProbeTimer(cb.ctl);
    var s := Filled(wide, cb.snd, ctl);
    var acks, probes := AckWires(cb), ProbeWires(cb, ctl.askSend, ctl.askTell);
    var pushes := PushWires(cb.conv, s.buf, ctl, WndUnused(cb.rcv), cb.rcv.nxt);
    PackConcat([], FlushWires(cb, ctl, s.buf), cb.mtu);
    assert [] + FlushWires(cb, ctl, s.buf) == acks + probes + pushes;
    AcksInAppend(acks + probes, pushes);
    AcksInAppend(acks, probes);
    AcksInAckWires(acks, cb.rcv.acks);
    PushWiresPush(cb.conv, s.buf, ctl, WndUnused(cb.rcv), cb.rcv.nxt);
    NoAcksIn(pushes);
    NoAcksIn(probes);
    assert cb.rcv.acks + [] + [] == cb.rcv.acks;
  }
}
