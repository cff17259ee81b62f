/** The timers of KCP and the settings they depend on, in every run. */
module KcpTimers {
  import opened LittleEndian
  import opened KcpArith
  import opened KcpWire
  import opened KcpModel
  import opened KcpQueues
  import opened KcpSystem
  import opened KcpDatagrams

  // ---------------------------------------------------------------- the flush clock

  predicate IntervalOk(ctl: Ctl) {
    10 <= ctl.interval <= 5000
  }

  /** Once the clock runs, the next flush lies ahead, by no more than ten seconds. */
  predicate ClockOk(ctl: Ctl) {
    ctl.updated ==> 0 < ITimeDiff(ctl.tsFlush, ctl.current) <= 10000
  }

  /** One interval after `ts`, seen from `current`, which is `slap` after `ts`. */
  lemma Ahead(ts: U32, current: U32, interval: U32, slap: int, k: int)
    requires current - ts == k * TWO32 + slap && -10000 <= slap < 10000 && 10 <= interval <= 5000
    ensures ITimeDiff(U32Of(ts + interval), current) == interval - slap
    ensures ITimeDiff(current, U32Of(ts + interval)) == slap - interval
  {
    var j := (ts + interval) / TWO32;
    assert ts + interval == j * TWO32 + U32Of(ts + interval);
    DiffOfTurns(U32Of(ts + interval), current, -k - j, interval - slap);
    DiffOfTurns(current, U32Of(ts + interval), k + j, slap - interval);
  }

  lemma Backwards(a: int, b: int)
    requires -TWO31 < ITimeDiff(a, b)
    ensures ITimeDiff(b, a) == -ITimeDiff(a, b)
  {
    var k := Turns(a, b);
    DiffOfTurns(b, a, -k, -ITimeDiff(a, b));
  }

  /** `ikcp_update` flushes on its first call, when the time has come, and when the clock has jumped back. A flush
      that is less than an interval late keeps the pace, so that the next one lies within one interval; any other
      starts the interval anew. */
  lemma TickRule(ctl: Ctl, current: U32)
    requires IntervalOk(ctl)
    ensures var (t, due) := Tick(ctl, current);
            var slap := ITimeDiff(current, ctl.tsFlush);
            && t.current == current && t.updated && t.interval == ctl.interval && ClockOk(t)
            && (due <==> !ctl.updated || slap >= 0 || slap < -10000)
            && (due ==> ITimeDiff(t.tsFlush, current) <= ctl.interval)
            && (!due ==> t.tsFlush == ctl.tsFlush)
            && (ctl.updated && 0 <= slap < ctl.interval ==> t.tsFlush == U32Of(ctl.tsFlush + ctl.interval))
            && (due && !(ctl.updated && 0 <= slap < ctl.interval) ==> t.tsFlush == U32Of(current + ctl.interval))
  {
    var ts := if ctl.updated then ctl.tsFlush else current;
    var slap := ITimeDiff(current, ts);
    var k := Turns(current, ts);
    hide ITimeDiff, U32Of;
    var far := slap >= 10000 || slap < -10000;
    var ts0 := if far then current else ts;
    Ahead(ts0, current, ctl.interval, if far then 0 else slap, if far then 0 else k);
    Ahead(current, current, ctl.interval, 0, 0);
    DiffOfTurns(current, current, 0, 0);
    if !far {
      Backwards(current, ts);
    }
  }

  lemma Later(current: U32, w: U32)
    requires w < TWO31
    ensures ITimeDiff(U32Of(current + w), current) == w
  {
    var j := (current + w) / TWO32;
    assert current + w == j * TWO32 + U32Of(current + w);
    DiffOfTurns(U32Of(current + w), current, -j, w);
  }

  // ---------------------------------------------------------------- window probes

  predicate ProbeOk(ctl: Ctl) {
    !ctl.askSend && (ctl.probeWait == 0 || PROBE_INIT <= ctl.probeWait <= PROBE_LIMIT)
  }

  /** The peer's window is closed, and the time to ask about it has come. */
  predicate ProbeDue(ctl: Ctl) {
    ctl.rmtWnd == 0 && ctl.probeWait != 0 && ITimeDiff(ctl.current, ctl.tsProbe) >= 0
  }

  lemma HalfMore(wait: U32)
    requires wait <= PROBE_LIMIT
    ensures U32Of(wait + wait / 2) == wait + wait / 2
  {
  }

  /** The timer runs exactly while the peer's window is closed. It asks when its time has come, and then waits half
      as long again, from 7 seconds up to 2 minutes; it is always set to the length of its wait, and runs on
      undisturbed until then. */
  lemma ProbeRule(ctl: Ctl)
    requires ProbeOk(ctl)
    ensures var t := ProbeTimer(ctl);
            && ProbeOk(t.(askSend := false)) && (t.askSend <==> ProbeDue(ctl))
            && (t.probeWait != 0 <==> ctl.rmtWnd == 0)
            && (ctl.rmtWnd == 0 && ctl.probeWait == 0 ==> t.probeWait == 7000)
            && (ctl.rmtWnd == 0 && ctl.probeWait != 0 && !ProbeDue(ctl) ==> t == ctl)
            && (t.probeWait != ctl.probeWait && t.probeWait != 0 ==> ITimeDiff(t.tsProbe, t.current) == t.probeWait)
            && (ProbeDue(ctl) ==> t.probeWait == Min(ctl.probeWait + ctl.probeWait / 2, 120000)
                                  && ITimeDiff(t.tsProbe, t.current) == t.probeWait)
  {
    hide ITimeDiff, U32Of;
    if ctl.rmtWnd != 0 {
    } else if ctl.probeWait == 0 {
      Later(ctl.current, PROBE_INIT);
    } else {
      HalfMore(ctl.probeWait);
      Later(ctl.current, Min(ctl.probeWait + ctl.probeWait / 2, PROBE_LIMIT));
    }
  }

  /** A flush asks for the peer's window exactly when that window is closed and the probe is due. */
  lemma ProbeGoesOut(cb: Cb, buf: seq<Seg>)
    requires ProbeOk(cb.ctl)
    ensures (exists w :: w in FlushWires(cb, ProbeTimer(cb.ctl), buf) && w.cmd == CMD_WASK) <==> ProbeDue(cb.ctl)
  {
    var ctl := ProbeTimer(cb.ctl);
    ProbeRule(cb.ctl);
    PushWiresPush(cb.conv, buf, ctl, WndUnused(cb.rcv), cb.rcv.nxt);
    hide ProbeTimer, PushWires, ProbeOk, ProbeDue, WndUnused;
    var acks, probes := AckWires(cb), ProbeWires(cb, ctl.askSend, ctl.askTell);
    assert forall w | w in acks :: w.cmd == CMD_ACK;
    if ctl.askSend {
      assert probes[0] in FlushWires(cb, ctl, buf) && probes[0].cmd == CMD_WASK;
    }
  }

  // ---------------------------------------------------------------- in every run

  predicate TimersOk(ctl: Ctl) {
    IntervalOk(ctl) && ClockOk(ctl) && ProbeOk(ctl)
  }

  /** The receive window is at least 128 segments, the timers are within their bounds. */
  predicate SettingsOk(cb: Cb) {
    cb.rcv.wnd >= WND_RCV && TimersOk(cb.ctl)
  }

  /** Fields that only the clock, the probe timer and the configuration change. */
  predicate SameTimers(c: Ctl, d: Ctl) {
    && d.interval == c.interval && d.updated == c.updated && d.tsFlush == c.tsFlush && d.current == c.current
    && d.askSend == c.askSend && d.probeWait == c.probeWait
  }

  lemma SameTimersOk(c: Ctl, d: Ctl)
    requires TimersOk(c) && SameTimers(c, d)
    ensures TimersOk(d)
  {
  }

  lemma InputSegTimers(wide: bool, cb: Cb, w: Wire)
    ensures var c := InputSeg(wide, cb, w); c.rcv.wnd == cb.rcv.wnd && SameTimers(cb.ctl, c.ctl)
  {
    hide ITimeDiff, MoveReady, Insert, ParseUna, ParseAck, U32Of;
    var r1 := cb.rcv.(acks := cb.rcv.acks + [Ack(w.sn, w.ts)]);
    MoveReadyWnd(wide, r1.(buf := Insert(r1.buf, RSeg(w.sn, Frag(w.frg, w.data)))));
  }

  lemma {:induction false} InputSegsTimers(wide: bool, cb: Cb, ws: seq<Wire>)
    ensures var c := InputSegs(wide, cb, ws); c.rcv.wnd == cb.rcv.wnd && SameTimers(cb.ctl, c.ctl)
    decreases |ws|
  {
    if ws != [] {
      InputSegTimers(wide, cb, ws[0]);
      InputSegsTimers(wide, InputSeg(wide, cb, ws[0]), ws[1..]);
    }
  }

  lemma GrowTimers(ctl: Ctl, mss: nat)
    requires mss > 0
    ensures SameTimers(ctl, Grow(ctl, mss))
  {
    hide AvoidIncr, WndBytes, U32Of;
  }

  lemma InputTimers(wide: bool, cb: Cb, ws: seq<Wire>)
    requires cb.Mss() > 0 && SettingsOk(cb)
    ensures SettingsOk(Input(wide, cb, ws))
  {
    hide ITimeDiff, ParseFastack, TimersOk, Grow, NoteAcks;
    InputSegsTimers(wide, cb, ws);
    var c := InputSegs(wide, cb, ws);
    GrowTimers(c.ctl, cb.Mss());
    SameTimersOk(cb.ctl, c.ctl);
    SameTimersOk(c.ctl, Grow(c.ctl, cb.Mss()));
  }

  lemma CongestTimers(ctl: Ctl, mss: nat, inflight: U32, window: U32, fast: bool, lost: bool)
    ensures SameTimers(ctl, Congest(ctl, mss, inflight, window, fast, lost))
  {
    hide U32Of, WndBytes, ResendLimit;
  }

  lemma SendTimers(ctl: Ctl, mss: nat, snd: Snd, window: U32)
    ensures SameTimers(ctl.(askSend := false), AfterSending(ctl, mss, snd, window))
  {
    hide U32Of, CountWhy, DeadLink, Congest;
    var lost := CountWhy(snd.buf, ctl, Timeout);
    CongestTimers(Resent(Probed(ctl), lost, DeadLink(snd.buf, ctl)), mss, U32Of(snd.nxt - snd.una),
                  window, CountWhy(snd.buf, ctl, Fast) > 0, lost > 0);
  }

  lemma ProbeTimersOk(ctl: Ctl)
    requires TimersOk(ctl)
    ensures TimersOk(ProbeTimer(ctl).(askSend := false))
  {
    ProbeRule(ctl);
    hide ITimeDiff, U32Of;
  }

  lemma FlushTimers(wide: bool, cb: Cb)
    requires SettingsOk(cb)
    ensures SettingsOk(Flush(wide, cb).cb)
  {
    if cb.ctl.updated {
      hide TimersOk, SameTimers, ProbeTimer, AfterSending, Filled, TransmitAll, FlushWires, Pack, SendWindow;
      var ctl := ProbeTimer(cb.ctl);
      ProbeTimersOk(cb.ctl);
      SendTimers(ctl, cb.Mss(), Filled(wide, cb.snd, ctl), SendWindow(ctl));
      SameTimersOk(ctl.(askSend := false), AfterSending(ctl, cb.Mss(), Filled(wide, cb.snd, ctl), SendWindow(ctl)));
    }
  }

  lemma TickTimersOk(ctl: Ctl, current: U32)
    requires TimersOk(ctl)
    ensures TimersOk(Tick(ctl, current).0)
  {
    TickRule(ctl, current);
    hide ITimeDiff, U32Of;
  }

  lemma StepTimers(wide: bool, p: Peer, q: Peer, act: Act)
    requires p.cb.Mss() > 0 && SettingsOk(p.cb)
    ensures SettingsOk(StepPeer(wide, p, q, act).cb)
  {
    match act
    case CallSend(data) =>
    case CallRecv(len) =>
      hide ITimeDiff, MoveReady, Send, Input, Flush, Tick, PeekSize, TimersOk;
      SameTimersOk(p.cb.ctl, Told(p.cb.ctl, Recv(wide, p.cb.rcv, len).tell));
      MoveReadyWnd(wide, p.cb.rcv);
      MoveReadyWnd(wide, p.cb.rcv.(queue := p.cb.rcv.queue[HeadLen(p.cb.rcv.queue)..]));
    case CallUpdate(current) =>
      TickTimersOk(p.cb.ctl, current);
      hide Tick, TimersOk, Flush;
      var (ctl, due) := Tick(p.cb.ctl, current);
      FlushTimers(wide, p.cb.(ctl := ctl));
    case CallFlush => FlushTimers(wide, p.cb);
    case CallInput(i) =>
      if i < |q.out| {
        InputTimers(wide, p.cb, q.out[i]);
      }
    case CallWndSize(_, _) =>
    case CallNoDelay(_, _, _, _) =>
  }

  lemma {:induction false} RunTimers(wide: bool, s: Sys, evs: seq<Event>)
    requires s.a.cb.Mss() > 0 && s.b.cb.Mss() > 0 && SettingsOk(s.a.cb) && SettingsOk(s.b.cb)
    ensures var t := Run(wide, s, evs); SettingsOk(t.a.cb) && SettingsOk(t.b.cb)
    decreases |evs|
  {
    hide SettingsOk;
    if evs != [] {
      StepTimers(wide, s.a, s.b, evs[0].act);
      StepTimers(wide, s.b, s.a, evs[0].act);
      RunTimers(wide, Step(wide, s, evs[0]), evs[1..]);
    }
  }

  lemma {:induction false} RunMss(wide: bool, s: Sys, evs: seq<Event>)
    requires s.a.cb.Mss() > 0 && s.b.cb.Mss() > 0
    ensures Run(wide, s, evs).a.cb.Mss() > 0 && Run(wide, s, evs).b.cb.Mss() > 0
    decreases |evs|
  {
    if evs != [] {
      RunMss(wide, Step(wide, s, evs[0]), evs[1..]);
    }
  }

  lemma {:induction false} FragmentsCount(stream: bool, data: seq<Byte>, mss: nat, count: nat)
    requires count <= 128
    ensures |Fragments(stream, data, mss, count)| == count
    decreases count
  {
    if count > 0 {
      FragmentsCount(stream, data[Min(|data|, mss)..], mss, count - 1);
    }
  }

  lemma AcceptedFits(cb: Cb, data: seq<Byte>)
    requires cb.Mss() > 0
    ensures Send(cb, data).0 == 0 ==> |Send(cb, data).1| < |cb.snd.queue| + WND_RCV
  {
    var ext := if cb.stream then Extension(cb.snd.queue, |data|, cb.Mss()) else 0;
    var rest := data[ext..];
    FragmentsCount(cb.stream, rest, cb.Mss(),
                   if FragCount(|rest|, cb.Mss()) < WND_RCV then FragCount(|rest|, cb.Mss()) else 0);
  }

  /** In every run at all: the timers stay within their bounds, and a message that `ikcp_send` accepts has fewer
      fragments than either receive window has room for. */
  lemma SettingsStay(cfg: Config, evs: seq<Event>, data: seq<Byte>)
    requires cfg.Valid()
    ensures var s := Run(false, Start(cfg), evs);
            && SettingsOk(s.a.cb) && SettingsOk(s.b.cb)
            && s.a.cb.Mss() > 0 && s.b.cb.Mss() > 0
            && (Send(s.a.cb, data).0 == 0 ==> |Send(s.a.cb, data).1| < |s.a.cb.snd.queue| + s.b.cb.rcv.wnd)
            && (Send(s.b.cb, data).0 == 0 ==> |Send(s.b.cb, data).1| < |s.b.cb.snd.queue| + s.a.cb.rcv.wnd)
  {
    RunTimers(false, Start(cfg), evs);
    RunMss(false, Start(cfg), evs);
    var s := Run(false, Start(cfg), evs);
    AcceptedFits(s.a.cb, data);
    AcceptedFits(s.b.cb, data);
  }
}
