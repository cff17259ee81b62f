/** How old a number may be before it is misread, and runs in which that happens. */
module KcpStale {
  import opened LittleEndian
  import opened KcpArith
  import opened KcpWire
  import opened KcpModel
  import opened KcpQueues
  import opened KcpSystem
  import opened KcpInvariant
  import opened KcpTheorems

  // ---------------------------------------------------------------- ages

  /** An `una` less than 2^32 behind the head of the send buffer is ignored exactly when it is at most 2^31
      behind; otherwise the program drops data for it. */
  lemma OldUnaIgnoredIff(buf: seq<Seg>, una: nat)
    requires buf != [] && una < buf[0].sn < una + TWO32
    ensures DropBelow(buf, una) == buf <==> buf[0].sn - una <= TWO31
  {
    var d := una - buf[0].sn;
    assert d % TWO32 == d + TWO32;
    var k := DropBelowIsSuffix(buf, una);
  }

  /** An acknowledgement of something up to 2^32 numbers before `snd_una` is ignored exactly when the number it
      is mistaken for is not in the send buffer. */
  lemma OldAckIgnoredIff(s: Snd, numbered: seq<Frag>, sn: nat)
    requires SndOk(s, numbered) && sn < s.una <= sn + TWO32
    ensures ParseAck(s, sn) == s <==> !InBuf(s, sn + TWO32)
  {
    hide ITimeDiff, U32Of, RemoveSn, InFlight, SortedSegs;
    var left, hit, right := RemoveSnAt(s.buf, sn);
    DiffOfTurns(sn + TWO32, sn, 1, 0);
    if InBuf(s, sn + TWO32) {
      InFlightIs(s, sn, sn + TWO32);
      RemoveSnHits(s.buf, sn, s.una, sn + TWO32);
    } else {
      if hit != [] {
        assert s.buf[|left|] == hit[0];
        SameSnExact(hit[0].sn, sn + TWO32);
      } else {
        assert left + [] + right == left + right;
      }
    }
  }

  /** A duplicate up to 2^32 numbers old brings nothing new exactly when it is at most 2^32 - rcv_wnd numbers
      old, or the number it is mistaken for waits in the buffer already. */
  lemma DuplicateIgnoredIff(r: Rcv, numbered: seq<Frag>, w: Wire)
    requires RcvBufOk(r, numbered) && w.sn < r.nxt <= w.sn + TWO32
    ensures NothingNew(r, AcceptPush(true, r, w)) <==> (r.nxt - w.sn <= TWO32 - r.wnd || Waits(r.buf, w.sn + TWO32))
  {
    AcceptOldIff(r, numbered, w);
    hide NothingNew, AcceptPush, Waits, ITimeDiff, U32Of;
    var k := w.sn + TWO32;
    DiffOfTurns(k, w.sn, 1, 0);
    forall j: nat | r.nxt <= j < r.nxt + r.wnd && SameSn(j, w.sn) ensures j == k {
      SameSnExact(j, k);
    }
  }

  // ---------------------------------------------------------------- a run of any length

  const BYTE: seq<Byte> := [0]
  const FRAG := Frag(0, BYTE)

  /** Settings under which the window never closes. */
  ghost predicate Running(c: Ctl) {
    c.updated && c.cwnd > 0 && c.sndWnd == WND_SND && c.rmtWnd == WND_RCV && !c.askSend && !c.askTell
  }

  /** The datagram with message `n`, and the answer to it. */
  ghost predicate CarriesPush(d: seq<Wire>, n: nat) {
    && |d| == 1 && d[0].cmd == CMD_PUSH && d[0].sn == n && d[0].una == 0 && d[0].wnd == WND_RCV
    && d[0].frg == 0 && d[0].data == BYTE
  }

  ghost predicate CarriesAck(d: seq<Wire>, n: nat) {
    |d| == 1 && d[0].cmd == CMD_ACK && d[0].sn == n && d[0].una == n + 1 && d[0].wnd == WND_RCV
  }

  /** `n` one-byte messages went from `a` to `b`, one at a time, each read and acknowledged; the first datagram on
      either side was about message 0. */
  ghost predicate Idle(s: Sys, n: nat) {
    && s.a.cb.Mss() > 0 && s.b.cb.Mss() > 0
    && s.a.cb.snd == Snd(n, n, [], []) && s.a.cb.rcv == Rcv(0, WND_RCV, [], [], [])
    && s.b.cb.snd == Snd(0, 0, [], []) && s.b.cb.rcv == Rcv(n, WND_RCV, [], [], [])
    && Running(s.a.cb.ctl) && Running(s.b.cb.ctl)
    && |s.a.numbered| == n && |s.b.popped| == n
    && (if n == 0 then s.a.out == [] && s.b.out == []
        else s.a.out != [] && s.b.out != [] && CarriesPush(s.a.out[0], 0) && CarriesAck(s.b.out[0], 0))
  }

  lemma CongestRuns(ctl: Ctl, mss: nat, inflight: U32, window: U32, fast: bool, lost: bool)
    requires Running(ctl)
    ensures Running(Congest(ctl, mss, inflight, window, fast, lost))
  {
  }

  lemma PackOne(w: Wire, mtu: nat)
    requires OVERHEAD + |w.data| <= mtu
    ensures Pack([], [w], mtu) == [[w]]
  {
    assert [] + [w] == [w] && [w][1..] == [];
    assert Size([]) == 0;
    assert Pack([], [w], mtu) == Pack([w], [], mtu);
  }

  /** What a flush does when it has one segment to send or one acknowledgement. */
  lemma FlushRuns(cb: Cb, snd: Snd, w: Wire)
    requires Running(cb.ctl) && cb.Mss() > 0 && |w.data| <= 1
    requires snd == Filled(true, cb.snd, ProbeTimer(cb.ctl)) && FlushWires(cb, ProbeTimer(cb.ctl), snd.buf) == [w]
    ensures var f := Flush(true, cb);
            && f.out == [[w]] && Running(f.cb.ctl) && f.cb.mtu == cb.mtu && f.cb.rcv == cb.rcv.(acks := [])
            && f.cb.snd == snd.(buf := TransmitAll(snd.buf, ProbeTimer(cb.ctl)))
  {
    hide Filled, FlushWires, TransmitAll, CountWhy, DeadLink, Congest, U32Of;
    var ctl := ProbeTimer(cb.ctl);
    var lost := CountWhy(snd.buf, ctl, Timeout);
    var c1 := Resent(Probed(ctl), lost, DeadLink(snd.buf, ctl));
    CongestRuns(c1, cb.Mss(), U32Of(snd.nxt - snd.una), SendWindow(ctl), CountWhy(snd.buf, ctl, Fast) > 0, lost > 0);
    PackOne(w, cb.mtu);
  }

  lemma SendOne(p: Peer, q: Peer)
    requires p.cb.Mss() > 0 && p.cb.snd.queue == []
    ensures var t := StepPeer(true, p, q, CallSend(BYTE));
            t == p.(cb := p.cb.(snd := p.cb.snd.(queue := [FRAG])), sent := t.sent, written := t.written)
  {
    assert BYTE[0..] == BYTE && BYTE[..1] == BYTE && BYTE[1..] == [];
    assert Fragments(p.cb.stream, BYTE, p.cb.Mss(), 1) == [FRAG] + Fragments(p.cb.stream, [], p.cb.Mss(), 0);
  }

  function PushAt(cb: Cb, n: nat): Wire {
    Wire(cb.conv, CMD_PUSH, 0, WND_RCV, cb.ctl.current, n, 0, BYTE)
  }

  lemma FlushPush(p: Peer, q: Peer, n: nat)
    requires p.cb.Mss() > 0 && Running(p.cb.ctl)
    requires p.cb.snd == Snd(n, n, [FRAG], []) && p.cb.rcv == Rcv(0, WND_RCV, [], [], [])
    ensures var t := StepPeer(true, p, q, CallFlush);
            && t.cb.Mss() > 0 && Running(t.cb.ctl) && t.cb.rcv == p.cb.rcv && t.out == p.out + [[PushAt(p.cb, n)]]
            && t.cb.snd.una == n && t.cb.snd.nxt == n + 1 && t.cb.snd.queue == []
            && |t.cb.snd.buf| == 1 && t.cb.snd.buf[0].sn == n
            && t.numbered == p.numbered + [FRAG] && t.popped == p.popped
  {
    var ctl := ProbeTimer(p.cb.ctl);
    var g := Seg(n, FRAG, ctl.current, ctl.rxRto, 0, 0);
    var snd := Snd(n, n + 1, [], [g]);
    assert [FRAG][1..] == [] && [] + [g] == [g] && [FRAG][..1] == [FRAG];
    var wnd := SendWindow(ctl);
    DiffExact(n, n + wnd);
    assert FillWindow(true, p.cb.snd, wnd, ctl.current, ctl.rxRto)
        == FillWindow(true, snd, wnd, ctl.current, ctl.rxRto) == snd;
    var w := PushAt(p.cb, n);
    assert PushWires(p.cb.conv, [g], ctl, WND_RCV, 0) == [w] by {
      assert [g][1..] == [] && PushWires(p.cb.conv, [], ctl, WND_RCV, 0) == [] && [w] + [] == [w];
    }
    assert FlushWires(p.cb, ctl, [g]) == [w] by {
      assert AckWires(p.cb) == [] && ProbeWires(p.cb, false, false) == [] && [] + [] + [w] == [w];
    }
    FlushRuns(p.cb, snd, w);
  }

  lemma TakePush(p: Peer, q: Peer, i: nat, n: nat, w: Wire)
    requires p.cb.Mss() > 0 && Running(p.cb.ctl)
    requires p.cb.snd == Snd(0, 0, [], []) && p.cb.rcv == Rcv(n, WND_RCV, [], [], [])
    requires i < |q.out| && q.out[i] == [w] && w.cmd == CMD_PUSH && SameSn(w.sn, n) && w.una == 0 && w.wnd == WND_RCV
    requires w.frg == 0 && w.data == BYTE
    ensures var t := StepPeer(true, p, q, CallInput(i));
            && t.cb.Mss() > 0 && Running(t.cb.ctl) && t.cb.snd == p.cb.snd
            && t.cb.rcv == Rcv(n + 1, WND_RCV, [FRAG], [], [Ack(w.sn, w.ts)])
            && t == p.(cb := t.cb)
  {
    DiffOfReduced(w.sn, n, WND_RCV);
    DiffOfReduced(n, n, WND_RCV);
    DiffOfReduced(w.sn, n, 0);
    DiffExact(n, n + WND_RCV);
    var g := RSeg(w.sn, FRAG);
    var r := Rcv(n, WND_RCV, [], [g], [Ack(w.sn, w.ts)]);
    assert Insert([], g) == [g] && [g][1..] == [] && [] + [FRAG] == [FRAG];
    assert MoveReady(true, r) == MoveReady(true, Rcv(n + 1, WND_RCV, [FRAG], [], r.acks))
           == Rcv(n + 1, WND_RCV, [FRAG], [], r.acks);
    assert [] + [Ack(w.sn, w.ts)] == [Ack(w.sn, w.ts)];
    assert AcceptPush(true, p.cb.rcv, w) == MoveReady(true, r);
    var c := InputSeg(true, p.cb, w);
    assert [w][1..] == [] && InputSegs(true, p.cb, [w]) == InputSegs(true, c, []) == c;
    assert NoteAcks(NoAck, [w]) == NoteAcks(NoAck, []) == NoAck;
  }

  lemma ReadOne(p: Peer, q: Peer, n: nat)
    requires p.cb.Mss() > 0 && |p.cb.rcv.queue| == 1 && p.cb.rcv.queue[0] == FRAG && p.cb.rcv.buf == []
    requires p.cb.rcv.wnd == WND_RCV
    ensures var t := StepPeer(true, p, q, CallRecv(1));
            t == p.(cb := p.cb.(rcv := p.cb.rcv.(queue := [])), popped := p.popped + [FRAG], got := t.got)
  {
    var fs := p.cb.rcv.queue;
    assert fs == [FRAG] && fs[..1] == fs && fs[1..] == [];
    assert HeadLen(fs) == 1;
    assert Datas(fs) == BYTE + Datas(fs[1..]) == BYTE;
  }

  lemma FlushAck(p: Peer, q: Peer, n: nat, ts: U32)
    requires p.cb.Mss() > 0 && Running(p.cb.ctl)
    requires p.cb.snd == Snd(0, 0, [], []) && p.cb.rcv == Rcv(n + 1, WND_RCV, [], [], [Ack(n, ts)])
    ensures var t := StepPeer(true, p, q, CallFlush);
            && t.cb.Mss() > 0 && Running(t.cb.ctl) && t.cb.snd == p.cb.snd && t.cb.rcv == p.cb.rcv.(acks := [])
            && t.out == p.out + [[Wire(p.cb.conv, CMD_ACK, 0, WND_RCV, ts, n, n + 1, [])]]
            && t.numbered == p.numbered && t.popped == p.popped
  {
    var ctl := ProbeTimer(p.cb.ctl);
    var w := Wire(p.cb.conv, CMD_ACK, 0, WND_RCV, ts, n, n + 1, []);
    assert FlushWires(p.cb, ctl, []) == [w] by {
      assert AckWires(p.cb) == [w] && ProbeWires(p.cb, false, false) == [] && [w] + [] + [] == [w];
    }
    FlushRuns(p.cb, p.cb.snd, w);
    assert TransmitAll([], ctl) == [] && p.numbered + [] == p.numbered;
  }

  lemma GrowRuns(ctl: Ctl, mss: nat)
    requires Running(ctl) && mss > 0
    ensures Running(Grow(ctl, mss))
  {
    hide AvoidIncr, WndBytes;
  }

  lemma NotInFlight(s: Snd, sn: nat)
    requires s.una == s.nxt
    ensures !InFlight(s, sn)
  {
  }

  lemma TakeAck(p: Peer, q: Peer, i: nat, n: nat)
    requires p.cb.Mss() > 0 && Running(p.cb.ctl)
    requires p.cb.snd.nxt == n + 1 && p.cb.snd.una == n && p.cb.snd.queue == [] && |p.cb.snd.buf| == 1
             && p.cb.snd.buf[0].sn == n
    requires i < |q.out| && |q.out[i]| == 1 && q.out[i][0].cmd == CMD_ACK && q.out[i][0].wnd == WND_RCV
    requires ITimeDiff(q.out[i][0].una, n) > 0
    ensures var t := StepPeer(true, p, q, CallInput(i));
            && t.cb.Mss() > 0 && Running(t.cb.ctl) && t.cb.snd == Snd(n + 1, n + 1, [], []) && t.cb.rcv == p.cb.rcv
            && t == p.(cb := t.cb)
  {
    var w, b := q.out[i][0], p.cb.snd.buf;
    assert q.out[i] == [w] && b[1..] == [];
    assert DropBelow(b, w.una) == DropBelow(b[1..], w.una) == [];
    var s1 := Snd(n + 1, n + 1, [], []);
    assert ParseUna(p.cb.snd, w.una) == s1;
    NotInFlight(s1, w.sn);
    var c := InputSeg(true, p.cb, w);
    hide ITimeDiff, UpdateAck, Grow;
    GrowRuns(c.ctl, c.Mss());
    assert [w][1..] == [] && InputSegs(true, p.cb, [w]) == InputSegs(true, c, []) == c;
    assert NoteAcks(NoAck, [w]) == NoteAcks(SomeAck(w.sn), []) == SomeAck(w.sn);
  }

  /** One message more. */
  function Round(s: Sys): seq<Event> {
    [Event(true, CallSend(BYTE)), Event(true, CallFlush), Event(false, CallInput(|s.a.out|)),
     Event(false, CallRecv(1)), Event(false, CallFlush), Event(true, CallInput(|s.b.out|))]
  }

  lemma RunOne(s: Sys, e: Event, rest: seq<Event>)
    requires s.a.cb.Mss() > 0 && s.b.cb.Mss() > 0
    ensures Run(true, s, [e] + rest) == Run(true, Step(true, s, e), rest)
  {
    assert ([e] + rest)[0] == e && ([e] + rest)[1..] == rest;
  }

  lemma {:induction false} RunAppend(s: Sys, evs: seq<Event>, more: seq<Event>)
    requires s.a.cb.Mss() > 0 && s.b.cb.Mss() > 0
    ensures var t := Run(true, s, evs);
            t.a.cb.Mss() > 0 && t.b.cb.Mss() > 0 && Run(true, s, evs + more) == Run(true, t, more)
    decreases |evs|
  {
    if evs == [] {
      assert [] + more == more;
    } else {
      assert (evs + more)[1..] == evs[1..] + more;
      RunAppend(Step(true, s, evs[0]), evs[1..], more);
    }
  }

  lemma RunThree(s: Sys, d: Event, e: Event, f: Event)
    requires s.a.cb.Mss() > 0 && s.b.cb.Mss() > 0
    ensures Run(true, s, [d, e, f]) == Step(true, Step(true, Step(true, s, d), e), f)
  {
    hide Step;
    assert [d, e, f] == [d] + ([e] + ([f] + []));
    RunOne(s, d, [e] + ([f] + []));
    RunOne(Step(true, s, d), e, [f] + []);
    RunOne(Step(true, Step(true, s, d), e), f, []);
  }

  lemma RoundIs(s: Sys)
    requires s.a.cb.Mss() > 0 && s.b.cb.Mss() > 0
    ensures var e := Round(s);
            var t := Step(true, Step(true, Step(true, s, e[0]), e[1]), e[2]);
            Run(true, s, e) == Step(true, Step(true, Step(true, t, e[3]), e[4]), e[5])
  {
    var e := Round(s);
    assert e == [e[0], e[1], e[2]] + [e[3], e[4], e[5]];
    RunAppend(s, [e[0], e[1], e[2]], [e[3], e[4], e[5]]);
    RunThree(s, e[0], e[1], e[2]);
    RunThree(Run(true, s, [e[0], e[1], e[2]]), e[3], e[4], e[5]);
  }

  /** What a message sent out of an idle state leads to, up to the flush that puts it on the network. */
  lemma SentOut(s: Sys, n: nat) returns (t: Sys)
    requires Idle(s, n)
    ensures t == Step(true, Step(true, s, Event(true, CallSend(BYTE))), Event(true, CallFlush))
    ensures t.a.cb.Mss() > 0 && t.b == s.b && Running(t.a.cb.ctl) && t.a.cb.rcv == s.a.cb.rcv
    ensures |t.a.out| == |s.a.out| + 1 && t.a.out[..|s.a.out|] == s.a.out && CarriesPush(t.a.out[|s.a.out|], n)
    ensures t.a.cb.snd.una == n && t.a.cb.snd.nxt == n + 1 && t.a.cb.snd.queue == []
    ensures |t.a.cb.snd.buf| == 1 && t.a.cb.snd.buf[0].sn == n
    ensures t.a.numbered == s.a.numbered + [FRAG]
  {
    SendOne(s.a, s.b);
    var s1 := Step(true, s, Event(true, CallSend(BYTE)));
    FlushPush(s1.a, s1.b, n);
    t := Step(true, s1, Event(true, CallFlush));
  }

  /** How the answer comes about. */
  lemma Answered(s: Sys, n: nat) returns (t: Sys)
    requires s.a.cb.Mss() > 0 && s.b.cb.Mss() > 0 && Running(s.b.cb.ctl)
    requires s.b.cb.snd == Snd(0, 0, [], []) && s.b.cb.rcv == Rcv(n, WND_RCV, [], [], []) && s.a.out != []
    requires CarriesPush(s.a.out[|s.a.out| - 1], n)
    ensures t == Step(true, Step(true, Step(true, s, Event(false, CallInput(|s.a.out| - 1))),
                                 Event(false, CallRecv(1))),
                      Event(false, CallFlush))
    ensures t.b.cb.Mss() > 0 && t.a == s.a && Running(t.b.cb.ctl)
    ensures t.b.cb.snd == Snd(0, 0, [], []) && t.b.cb.rcv == Rcv(n + 1, WND_RCV, [], [], [])
    ensures |t.b.popped| == |s.b.popped| + 1 && |t.b.out| == |s.b.out| + 1 && t.b.out[..|s.b.out|] == s.b.out
    ensures CarriesAck(t.b.out[|s.b.out|], n)
  {
    var w := s.a.out[|s.a.out| - 1][0];
    TakePush(s.b, s.a, |s.a.out| - 1, n, w);
    var s1 := Step(true, s, Event(false, CallInput(|s.a.out| - 1)));
    ReadOne(s1.b, s1.a, n);
    var s2 := Step(true, s1, Event(false, CallRecv(1)));
    FlushAck(s2.b, s2.a, n, w.ts);
    t := Step(true, s2, Event(false, CallFlush));
  }

  lemma StepsAre(s: Sys, s2: Sys, s5: Sys)
    requires s.a.cb.Mss() > 0 && s.b.cb.Mss() > 0 && s2.a.cb.Mss() > 0 && s2.b.cb.Mss() > 0
    requires s5.a.cb.Mss() > 0 && s5.b.cb.Mss() > 0
    requires s2 == Step(true, Step(true, s, Event(true, CallSend(BYTE))), Event(true, CallFlush))
    requires s5 == Step(true, Step(true, Step(true, s2, Event(false, CallInput(|s.a.out|))), Event(false, CallRecv(1))),
                        Event(false, CallFlush))
    ensures Run(true, s, Round(s)) == s5.(a := StepPeer(true, s5.a, s5.b, CallInput(|s.b.out|)))
  {
    hide StepPeer, Run;
    RoundIs(s);
  }

  lemma RoundIdle(s: Sys, n: nat)
    requires Idle(s, n)
    ensures Idle(Run(true, s, Round(s)), n + 1)
  {
    hide Running, Step, StepPeer, Run, Round;
    var s2 := SentOut(s, n);
    var s5 := Answered(s2, n);
    assert ITimeDiff(n + 1, n) > 0 by { DiffExact(n + 1, n); }
    TakeAck(s5.a, s5.b, |s.b.out|, n);
    StepsAre(s, s2, s5);
    assert s.a.out != [] ==> s5.a.out[0] == s5.a.out[..|s.a.out|][0];
    assert s.b.out != [] ==> s5.b.out[0] == s5.b.out[..|s.b.out|][0];
  }

  lemma FirstUpdate(p: Peer)
    requires p.cb == Create(p.cb.conv, p.cb.mtu, p.cb.stream) && 50 <= p.cb.mtu && p.numbered == [] && p.out == []
    ensures var f := Update(true, p.cb, 0);
            && f.cb.snd == p.cb.snd && f.cb.rcv == p.cb.rcv && f.cb.mtu == p.cb.mtu && Running(f.cb.ctl) && f.out == []
            && AfterFlush(p, f).numbered == [] && AfterFlush(p, f).out == []
  {
    var (ctl, due) := Tick(p.cb.ctl, 0);
    assert due && ctl.updated;
    var cb := p.cb.(ctl := ctl);
    var c := ProbeTimer(ctl);
    assert Filled(true, cb.snd, c) == cb.snd && AckWires(cb) == []
           && PushWires(cb.conv, [], c, WndUnused(cb.rcv), cb.rcv.nxt) == [];
    assert FlushWires(cb, c, []) == [] && Pack([], [], cb.mtu) == [] && TransmitAll([], c) == [];
  }

  /** There is a run from two fresh endpoints to an idle state after any number of messages. */
  lemma {:induction false} LongRun(cfg: Config, n: nat) returns (evs: seq<Event>)
    requires cfg.Valid()
    ensures Idle(Ideal(cfg, evs), n)
  {
    if n == 0 {
      evs := [Event(true, CallUpdate(0)), Event(false, CallUpdate(0))];
      assert evs == [evs[0]] + ([evs[1]] + []);
      RunOne(Start(cfg), evs[0], [evs[1]] + []);
      RunOne(Step(true, Start(cfg), evs[0]), evs[1], []);
      FirstUpdate(Start(cfg).a);
      FirstUpdate(Start(cfg).b);
    } else {
      var front := LongRun(cfg, n - 1);
      RoundIdle(Ideal(cfg, front), n - 1);
      RunAppend(Start(cfg), front, Round(Ideal(cfg, front)));
      evs := front + Round(Ideal(cfg, front));
    }
  }

  // ---------------------------------------------------------------- runs that go wrong

  /** A datagram kept back for 2^32 segments breaks delivery: message 0, delivered once more, becomes fragment
      2^32 of the receiver, which the sender never numbered. */
  lemma StaleDatagramIsDelivered(cfg: Config) returns (evs: seq<Event>)
    requires cfg.Valid()
    ensures var s := Outcome(cfg, evs); !DeliveredInOrder(s.a, s.b)
  {
    var front := LongRun(cfg, TWO32);
    var s, e := Ideal(cfg, front), Event(false, CallInput(0));
    TakePush(s.b, s.a, 0, TWO32, s.a.out[0][0]);
    RunAppend(Start(cfg), front, [e]);
    RunOne(s, e, []);
    evs := front + [e];
    OutcomeWraps(cfg, evs);
  }

  lemma Forgotten(p: Peer, q: Peer, n: nat)
    requires p.cb.snd.buf == [] && |p.numbered| == n + 1 && |q.popped| == n && q.cb.rcv.queue == []
             && q.cb.rcv.buf == []
    ensures n < |WrapPeer(p).numbered| && !Accounted(WrapPeer(p), WrapPeer(q), n)
  {
  }

  /** One message more, and then the first answer again. */
  function StaleAnswer(): seq<Event> {
    [Event(true, CallSend(BYTE)), Event(true, CallFlush), Event(true, CallInput(0))]
  }

  lemma InputAtA(s: Sys, i: nat)
    requires s.a.cb.Mss() > 0 && s.b.cb.Mss() > 0
    ensures Step(true, s, Event(true, CallInput(i))) == s.(a := StepPeer(true, s.a, s.b, CallInput(i)))
  {
    hide StepPeer;
  }

  lemma StaleRun(s: Sys, t: Sys, e: seq<Event>)
    requires s.a.cb.Mss() > 0 && s.b.cb.Mss() > 0 && t.a.cb.Mss() > 0 && t.b.cb.Mss() > 0
    requires |e| == 3 && t == Step(true, Step(true, s, e[0]), e[1]) && e[2] == Event(true, CallInput(0))
    ensures Run(true, s, e) == t.(a := StepPeer(true, t.a, t.b, CallInput(0)))
  {
    hide StepPeer, Run, Step;
    assert e == [e[0], e[1], e[2]];
    RunThree(s, e[0], e[1], e[2]);
    InputAtA(t, 0);
  }

  lemma LastDropped(p: Peer, q: Peer, n: nat)
    requires p.cb.Mss() > 0 && Running(p.cb.ctl)
    requires p.cb.snd.nxt == n + 1 && p.cb.snd.una == n && p.cb.snd.queue == [] && |p.cb.snd.buf| == 1
             && p.cb.snd.buf[0].sn == n
    requires q.out != [] && CarriesAck(q.out[0], 0) && n == TWO31 + 2
    ensures var t := StepPeer(true, p, q, CallInput(0)); t.cb.snd.buf == [] && t.numbered == p.numbered
  {
    assert ITimeDiff(1, n) == TWO31 - 1;
    hide ITimeDiff, StepPeer, Running;
    TakeAck(p, q, 0, n);
  }

  lemma LastIsDropped(s: Sys, n: nat)
    requires Idle(s, n) && n == TWO31 + 2
    ensures var t := Run(true, s, StaleAnswer());
            && t.a.cb.snd.buf == [] && |t.a.numbered| == n + 1
            && |t.b.popped| == n && t.b.cb.rcv.queue == [] && t.b.cb.rcv.buf == []
  {
    hide Step, StepPeer, Run, Running, ITimeDiff;
    var t := SentOut(s, n);
    StaleRun(s, t, StaleAnswer());
    LastDropped(t.a, t.b, n);
  }

  /** An answer kept back for a little more than 2^31 segments makes the sender drop data: the first answer,
      delivered again after the sender has numbered and sent fragment 2^31 + 2, takes that fragment out of the
      send buffer, though nobody has received it. */
  lemma StaleUnaForgets(cfg: Config) returns (evs: seq<Event>)
    requires cfg.Valid()
    ensures var s := Outcome(cfg, evs); TWO31 + 2 < |s.a.numbered| && !Accounted(s.a, s.b, TWO31 + 2)
  {
    var n := TWO31 + 2;
    var front := LongRun(cfg, n);
    evs := front + StaleAnswer();
    hide Run, Idle, Accounted, StaleAnswer, WrapPeer;
    RunAppend(Start(cfg), front, StaleAnswer());
    LastIsDropped(Ideal(cfg, front), n);
    OutcomeWraps(cfg, evs);
    Forgotten(Ideal(cfg, evs).a, Ideal(cfg, evs).b, n);
  }
}
