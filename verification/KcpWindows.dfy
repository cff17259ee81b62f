/** What holds of the buffers in every run, whatever datagrams arrive, however old: the wrapped comparison is a
    true order on each of them. */
module KcpWindows {
  import opened LittleEndian
  import opened KcpArith
  import opened KcpWire
  import opened KcpModel
  import opened KcpQueues
  import opened KcpSystem

  // ---------------------------------------------------------------- at most 65535 segments in flight

  /** `snd_buf` is sorted within [snd_una, snd_nxt), `snd_una` is its head, and that range never exceeds 65535
      numbers. */
  ghost predicate WindowOk(s: Snd) {
    && s.una <= s.nxt <= s.una + 65535
    && SortedSegs(s.buf)
    && (forall i | 0 <= i < |s.buf| :: s.una <= s.buf[i].sn < s.nxt)
    && s.una == (if s.buf == [] then s.nxt else s.buf[0].sn)
  }

  /** Whatever acknowledgements arrive, true, stale or nonsensical. */
  lemma ParseUnaWindow(s: Snd, una: nat)
    requires WindowOk(s)
    ensures WindowOk(ParseUna(s, una))
  {
    var k := DropBelowIsSuffix(s.buf, una);
  }

  predicate Within(buf: seq<Seg>, lo: nat, hi: nat) {
    forall i | 0 <= i < |buf| :: lo <= buf[i].sn < hi
  }

  lemma {:induction false} RemoveSnSorted(buf: seq<Seg>, sn: nat, lo: nat, hi: nat)
    requires SortedSegs(buf) && Within(buf, lo, hi)
    ensures SortedSegs(RemoveSn(buf, sn)) && Within(RemoveSn(buf, sn), lo, hi)
    decreases |buf|
  {
    if buf != [] {
      RemoveSnSorted(buf[1..], sn, buf[0].sn + 1, hi);
    }
  }

  lemma ParseAckWindow(s: Snd, sn: nat)
    requires WindowOk(s)
    ensures WindowOk(ParseAck(s, sn))
  {
    RemoveSnSorted(s.buf, sn, s.una, s.nxt);
    var b := RemoveSn(s.buf, sn);
    assert b != [] ==> s.una <= b[0].sn < s.nxt;
  }

  lemma InputSegWindow(cb: Cb, w: Wire)
    requires WindowOk(cb.snd)
    ensures WindowOk(InputSeg(true, cb, w).snd)
  {
    ParseUnaWindow(cb.snd, w.una);
    ParseAckWindow(ParseUna(cb.snd, w.una), w.sn);
  }

  lemma {:induction false} InputSegsWindow(cb: Cb, ws: seq<Wire>)
    requires WindowOk(cb.snd)
    ensures WindowOk(InputSegs(true, cb, ws).snd)
    decreases |ws|
  {
    if ws != [] {
      InputSegWindow(cb, ws[0]);
      InputSegsWindow(InputSeg(true, cb, ws[0]), ws[1..]);
    }
  }

  lemma {:induction false} FillWindowWindow(s: Snd, cwnd: U32, current: U32, rto: U32)
    requires WindowOk(s) && cwnd <= 65535
    ensures WindowOk(FillWindow(true, s, cwnd, current, rto))
    decreases |s.queue|
  {
    DiffExact(s.nxt, s.una + cwnd);
    if ITimeDiff(s.nxt, s.una + cwnd) < 0 && s.queue != [] {
      FillWindowWindow(s.(queue := s.queue[1..], nxt := s.nxt + 1,
                          buf := s.buf + [Seg(s.nxt, s.queue[0], current, rto, 0, 0)]), cwnd, current, rto);
    }
  }

  // ---------------------------------------------------------------- the receive buffer is in order

  /** How far ahead of `nxt` the program takes a number to be. */
  function Ahead(sn: nat, nxt: nat): int {
    ITimeDiff(sn, nxt)
  }

  /** `rcv_buf` is strictly ordered from `nxt` on, as the program reads its numbers. */
  ghost predicate Ascending(buf: seq<RSeg>, nxt: nat) {
    && (forall i | 0 <= i < |buf| :: 0 <= Ahead(buf[i].sn, nxt) < RCVWND_MAX)
    && (forall i, j | 0 <= i < j < |buf| :: Ahead(buf[i].sn, nxt) < Ahead(buf[j].sn, nxt))
  }

  ghost predicate ArrivalsOk(r: Rcv) {
    r.wnd <= RCVWND_MAX && Ascending(r.buf, r.nxt)
  }

  /** Numbers of the window compare as their distances from its start. */
  lemma AheadCompares(a: nat, b: nat, nxt: nat)
    requires 0 <= Ahead(a, nxt) < RCVWND_MAX && 0 <= Ahead(b, nxt) < RCVWND_MAX
    ensures ITimeDiff(a, b) == Ahead(a, nxt) - Ahead(b, nxt)
    ensures SameSn(a, b) <==> Ahead(a, nxt) == Ahead(b, nxt)
  {
    hide ITimeDiff, SameSn;
    var k := Turns(a, nxt);
    var j := Turns(b, nxt);
    DiffOfTurns(a, b, k - j, Ahead(a, nxt) - Ahead(b, nxt));
  }

  lemma {:induction false} InsertAscending(buf: seq<RSeg>, g: RSeg, nxt: nat)
    requires Ascending(buf, nxt) && 0 <= Ahead(g.sn, nxt) < RCVWND_MAX
    ensures Ascending(Insert(buf, g), nxt)
    ensures forall x | x in Insert(buf, g) :: x in buf || x == g
    decreases |buf|
  {
    hide ITimeDiff, SameSn, Ahead;
    if buf != [] {
      var front, last := buf[..|buf| - 1], buf[|buf| - 1];
      AheadCompares(g.sn, last.sn, nxt);
      AheadCompares(last.sn, g.sn, nxt);
      InsertAscending(front, g, nxt);
      forall x | x in Insert(front, g) ensures x in buf || x == g {
        assert x in front ==> x in buf;
      }
      if Ahead(g.sn, nxt) < Ahead(last.sn, nxt) {
        var b := Insert(front, g);
        forall i | 0 <= i < |b| ensures Ahead(b[i].sn, nxt) < Ahead(last.sn, nxt) {
          assert b[i] in b;
        }
      }
    }
  }

  lemma NextAhead(sn: nat, nxt: nat)
    requires 0 < Ahead(sn, nxt)
    ensures Ahead(sn, nxt + 1) == Ahead(sn, nxt) - 1
  {
    hide ITimeDiff;
    var k := Turns(sn, nxt);
    DiffOfTurns(sn, nxt + 1, k, Ahead(sn, nxt) - 1);
  }

  lemma {:induction false} MoveReadyAscending(r: Rcv)
    requires ArrivalsOk(r)
    ensures ArrivalsOk(MoveReady(true, r))
    decreases |r.buf|
  {
    if r.buf != [] && SameSn(r.buf[0].sn, r.nxt) && |r.queue| < r.wnd {
      var r1 := r.(nxt := r.nxt + 1, queue := r.queue + [r.buf[0].frag], buf := r.buf[1..]);
      forall i | 0 <= i < |r1.buf| ensures Ahead(r1.buf[i].sn, r1.nxt) == Ahead(r.buf[i + 1].sn, r.nxt) - 1 {
        NextAhead(r.buf[i + 1].sn, r.nxt);
      }
      MoveReadyAscending(r1);
    }
  }

  lemma AcceptPushAscending(r: Rcv, w: Wire)
    requires ArrivalsOk(r)
    ensures ArrivalsOk(AcceptPush(true, r, w))
  {
    hide ITimeDiff, Insert, MoveReady, Ascending;
    var k := Turns(w.sn, r.nxt);
    var t := ITimeDiff(w.sn, r.nxt);
    if t >= 0 && ITimeDiff(w.sn, r.nxt + r.wnd) < 0 {
      DiffOfTurns(w.sn, r.nxt + r.wnd, k, t - r.wnd);
      var g := RSeg(w.sn, Frag(w.frg, w.data));
      InsertAscending(r.buf, g, r.nxt);
      MoveReadyAscending(r.(acks := r.acks + [Ack(w.sn, w.ts)], buf := Insert(r.buf, g)));
    }
  }

  lemma {:induction false} InputSegsAscending(cb: Cb, ws: seq<Wire>)
    requires ArrivalsOk(cb.rcv)
    ensures ArrivalsOk(InputSegs(true, cb, ws).rcv)
    decreases |ws|
  {
    if ws != [] {
      AcceptPushAscending(cb.rcv, ws[0]);
      InputSegsAscending(InputSeg(true, cb, ws[0]), ws[1..]);
    }
  }

  // ---------------------------------------------------------------- every call, every run

  ghost predicate PeerWindowOk(p: Peer) {
    p.cb.Mss() > 0 && WindowOk(p.cb.snd) && ArrivalsOk(p.cb.rcv)
  }

  lemma PeerWindow(cfg: Config)
    requires cfg.Valid()
    ensures PeerWindowOk(Start(cfg).a) && PeerWindowOk(Start(cfg).b)
  {
  }

  lemma FlushWindow(cb: Cb)
    requires WindowOk(cb.snd) && ArrivalsOk(cb.rcv)
    ensures WindowOk(Flush(true, cb).cb.snd) && ArrivalsOk(Flush(true, cb).cb.rcv)
  {
    hide Congest, Pack, FlushWires, CountWhy, DeadLink;
    if cb.ctl.updated {
      var ctl := ProbeTimer(cb.ctl);
      FillWindowWindow(cb.snd, SendWindow(ctl), ctl.current, ctl.rxRto);
    }
  }

  lemma InputWindow(cb: Cb, ws: seq<Wire>)
    requires cb.Mss() > 0 && WindowOk(cb.snd) && ArrivalsOk(cb.rcv)
    ensures WindowOk(Input(true, cb, ws).snd) && ArrivalsOk(Input(true, cb, ws).rcv)
  {
    InputSegsWindow(cb, ws);
    InputSegsAscending(cb, ws);
    var c, m := InputSegs(true, cb, ws), NoteAcks(NoAck, ws);
    if m.SomeAck? && InFlight(c.snd, m.sn) {
      BumpFastackKeeps(c.snd.buf, m.sn);
    }
  }

  lemma RecvWindow(r: Rcv, len: int)
    requires ArrivalsOk(r)
    ensures ArrivalsOk(Recv(true, r, len).rcv)
  {
    hide MoveReady, Ascending;
    MoveReadyAscending(r);
    MoveReadyAscending(r.(queue := r.queue[HeadLen(r.queue)..]));
  }

  lemma StepWindow(p: Peer, q: Peer, act: Act)
    requires PeerWindowOk(p)
    ensures PeerWindowOk(StepPeer(true, p, q, act))
  {
    hide Ascending;
    match act {
      case CallUpdate(current) =>
        var (ctl, due) := Tick(p.cb.ctl, current);
        FlushWindow(p.cb.(ctl := ctl));
      case CallFlush => FlushWindow(p.cb);
      case CallInput(i) =>
        if i < |q.out| {
          InputWindow(p.cb, q.out[i]);
        }
      case CallSend(data) => assert StepPeer(true, p, q, act).cb.snd.buf == p.cb.snd.buf;
      case CallRecv(len) => RecvWindow(p.cb.rcv, len);
      case _ => assert StepPeer(true, p, q, act).cb.snd == p.cb.snd;
    }
  }

  lemma {:induction false} RunWindow(s: Sys, evs: seq<Event>)
    requires PeerWindowOk(s.a) && PeerWindowOk(s.b)
    ensures PeerWindowOk(Run(true, s, evs).a) && PeerWindowOk(Run(true, s, evs).b)
    decreases |evs|
  {
    if evs != [] {
      StepWindow(s.a, s.b, evs[0].act);
      StepWindow(s.b, s.a, evs[0].act);
      RunWindow(Step(true, s, evs[0]), evs[1..]);
    }
  }
}
