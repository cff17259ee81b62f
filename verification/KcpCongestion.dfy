/** The congestion window counts segments, `incr` counts the same window in bytes; this file shows that they
    never drift apart, in any run whatever the network does.

    The relation kept is `cwnd * mss <= incr < (cwnd + 1) * mss`. In slow start both grow by one segment. In
    congestion avoidance `incr` grows by less than a segment, and `cwnd` follows when a whole one is complete.
    Losses set both at once. That the threshold is never below 2 is part of the invariant. All products are
    computed in 32 bits: `Small` says they do not overflow, for a given bound on the fast resend setting.

    The methods of KcpEndpoint that change these fields are GrowWindow, at the end of `ikcp_input`, and Congestion,
    at the end of `ikcp_flush`; the lemmas here are about the functions of KcpModel that specify them, first
    for one step each, then for a call, then for a run. */
module KcpCongestion {
  import opened LittleEndian
  import opened KcpArith
  import opened KcpWire
  import opened KcpModel
  import opened KcpQueues
  import opened KcpWindows
  import opened KcpSystem

  // ---------------------------------------------------------------- cwnd against incr

  /** The 32-bit products of the congestion code do not overflow for this segment size and this
      largest `resend` setting. */
  predicate Small(mss: nat, maxResend: nat) {
    mss > 0 && (maxResend + 0x1_0001) * mss < TWO32
  }

  /** The size in bytes of `n` segments. */
  function Bytes(n: nat, mss: nat): (r: nat)
    ensures r == n * mss
  {
    n * mss
  }

  /** `incr` is the window in bytes, rounded inside one segment; the threshold is at least 2. */
  predicate CwndOk(ctl: Ctl, mss: nat, maxResend: nat) {
    && Bytes(ctl.cwnd, mss) <= ctl.incr < Bytes(ctl.cwnd, mss) + mss
    && ctl.ssthresh >= THRESH_MIN
    && ctl.cwnd <= maxResend + 65535
    && ctl.fastresend <= maxResend
  }

  lemma MulMono(a: nat, b: nat, m: nat)
    requires a <= b
    ensures a * m <= b * m
  {
  }

  lemma SmallBounds(c: nat, mss: nat, maxResend: nat)
    requires Small(mss, maxResend) && c <= maxResend + 0x1_0001
    ensures 0 <= c * mss < TWO32 && mss < 0x1_0000
  {
    var k := maxResend + 0x1_0001;
    MulMono(c, k, mss);
    MulMono(0x1_0001, k, mss);
  }

  /** `mss * mss / incr` is at most half a segment. */
  lemma SquareOverIncr(incr: nat, mss: nat)
    requires mss > 0 && incr >= 2 * mss
    ensures mss * mss / incr <= mss / 2
  {
    var d := mss * mss / incr;
    assert d * incr <= mss * mss;
    MulMono(2 * mss, incr, d);
    assert (2 * d) * mss <= mss * mss by {
      assert (2 * mss) * d == (2 * d) * mss;
    }
    if 2 * d > mss {
      MulMono(mss + 1, 2 * d, mss);
    }
  }

  lemma WndBytesExact(n: nat, mss: nat)
    requires n * mss < TWO32
    ensures WndBytes(n, mss) == Bytes(n, mss)
  {
  }

  lemma SmallGain(incr: nat, mss: nat, d: nat)
    requires 0 < mss && d <= mss / 2 && incr + mss < TWO32
    ensures incr <= U32Of(incr + d + mss / 16) < incr + mss
  {
  }

  /** One step of congestion avoidance adds less than one segment. */
  lemma AvoidanceStep(incr: U32, mss: nat)
    requires 0 < mss < 0x1_0000 && incr >= 2 * mss && incr + mss < TWO32
    ensures incr <= AvoidIncr(incr, mss) < incr + mss
  {
    MulMono(mss, 0x1_0000, mss);
    WndBytesExact(mss, mss);
    assert Max(incr, mss) == incr;
    hide WndBytes;
    SquareOverIncr(incr, mss);
    SmallGain(incr, mss, WndBytes(mss, mss) / incr);
  }

  lemma NextBytes(c: nat, mss: nat)
    ensures Bytes(c + 1, mss) == Bytes(c, mss) + mss
  {
  }

  /** Slow start adds one segment to both. */
  lemma SlowStartKeeps(ctl: Ctl, mss: nat, maxResend: nat)
    requires Small(mss, maxResend) && CwndOk(ctl, mss, maxResend)
    requires ctl.cwnd < ctl.rmtWnd && ctl.cwnd < ctl.ssthresh
    ensures CwndOk(Grow(ctl, mss), mss, maxResend)
  {
    var c := ctl.cwnd;
    SmallBounds(c + 2, mss, maxResend);
    NextBytes(c, mss);
    NextBytes(c + 1, mss);
    assert ctl.incr + mss < TWO32 && c + 1 < TWO32;
    assert U32Of(c + 1) == c + 1 && U32Of(ctl.incr + mss) == ctl.incr + mss;
    assert CwndOk(ctl.(cwnd := c + 1, incr := ctl.incr + mss), mss, maxResend);
    hide Bytes, Small, AvoidIncr, WndBytes, U32Of, CwndOk;
  }

  lemma AvoidedIs(ctl: Ctl, mss: nat, maxResend: nat, incr: U32)
    requires mss > 0 && CwndOk(ctl, mss, maxResend) && ctl.cwnd < ctl.rmtWnd && ctl.cwnd >= ctl.ssthresh
    requires ctl.incr <= incr < ctl.incr + mss && incr == AvoidIncr(ctl.incr, mss)
    requires WndBytes(ctl.cwnd + 1, mss) == Bytes(ctl.cwnd + 1, mss) == Bytes(ctl.cwnd, mss) + mss
    ensures CwndOk(Grow(ctl, mss), mss, maxResend)
  {
    hide WndBytes, AvoidIncr, Bytes;
    NextBytes(ctl.cwnd + 1, mss);
    var g := Grow(ctl, mss);
    assert g.incr == incr && g.cwnd == if WndBytes(ctl.cwnd + 1, mss) <= incr then ctl.cwnd + 1 else ctl.cwnd;
  }

  /** Congestion avoidance adds a segment to the window when `incr` has collected one. */
  lemma AvoidanceKeeps(ctl: Ctl, mss: nat, maxResend: nat)
    requires Small(mss, maxResend) && CwndOk(ctl, mss, maxResend)
    requires ctl.cwnd < ctl.rmtWnd && ctl.cwnd >= ctl.ssthresh
    ensures CwndOk(Grow(ctl, mss), mss, maxResend)
  {
    var c, incr := ctl.cwnd, AvoidIncr(ctl.incr, mss);
    assert ctl.incr <= incr < ctl.incr + mss by {
      MulMono(2, c, mss);
      SmallBounds(c + 2, mss, maxResend);
      assert (c + 2) * mss == Bytes(c, mss) + mss + mss;
      AvoidanceStep(ctl.incr, mss);
    }
    NextBytes(c, mss);
    assert WndBytes(c + 1, mss) == Bytes(c + 1, mss) by {
      SmallBounds(c + 1, mss, maxResend);
      WndBytesExact(c + 1, mss);
    }
    AvoidedIs(ctl, mss, maxResend, incr);
  }

  lemma GrowKeeps(ctl: Ctl, mss: nat, maxResend: nat)
    requires Small(mss, maxResend) && CwndOk(ctl, mss, maxResend)
    ensures CwndOk(Grow(ctl, mss), mss, maxResend)
  {
    if ctl.cwnd < ctl.rmtWnd {
      if ctl.cwnd < ctl.ssthresh {
        SlowStartKeeps(ctl, mss, maxResend);
      } else {
        AvoidanceKeeps(ctl, mss, maxResend);
      }
    }
  }

  /** The window after a fast retransmit. With `fastresend` off the limit is 2^32 - 1 and the sum wraps to
      one less than the threshold. */
  lemma FastWindow(ctl: Ctl, inflight: U32, maxResend: nat)
    requires inflight <= 65535 && ctl.fastresend <= maxResend && maxResend + 0x1_0001 < TWO32
    ensures 1 <= U32Of(Max(inflight / 2, THRESH_MIN) + ResendLimit(ctl)) <= maxResend + 65535
  {
    var th := Max(inflight / 2, THRESH_MIN);
    if ctl.fastresend == 0 {
      assert (th + (TWO32 - 1)) % TWO32 == th - 1;
    }
  }

  lemma CongestKeeps(ctl: Ctl, mss: nat, inflight: U32, window: U32, fast: bool, lost: bool, maxResend: nat)
    requires Small(mss, maxResend) && CwndOk(ctl, mss, maxResend) && inflight <= 65535
    ensures CwndOk(Congest(ctl, mss, inflight, window, fast, lost), mss, maxResend)
    ensures Congest(ctl, mss, inflight, window, fast, lost).cwnd >= 1
  {
    SmallBounds(1, mss, maxResend);
    assert Bytes(1, mss) == mss && U32Of(mss) == mss;
    assert maxResend + 0x1_0001 < TWO32 by { MulMono(1, mss, maxResend + 0x1_0001); }
    FastWindow(ctl, inflight, maxResend);
    var cw := U32Of(Max(inflight / 2, THRESH_MIN) + ResendLimit(ctl));
    SmallBounds(cw, mss, maxResend);
    WndBytesExact(cw, mss);
  }

  ghost predicate PeerCwndOk(p: Peer, maxResend: nat) {
    Small(p.cb.Mss(), maxResend) && WindowOk(p.cb.snd) && CwndOk(p.cb.ctl, p.cb.Mss(), maxResend)
  }

  lemma TransmitWindow(s: Snd, ctl: Ctl)
    requires WindowOk(s)
    ensures WindowOk(s.(buf := TransmitAll(s.buf, ctl)))
  {
    hide ITimeDiff, U32Of, Reason;
    var b := TransmitAll(s.buf, ctl);
    assert forall i | 0 <= i < |b| :: b[i] == Transmit(s.buf[i], ctl) && b[i].sn == s.buf[i].sn;
  }

  /** The probe timer and the flags of a flush are not congestion state. */
  lemma ProbeIsNoCwnd(ctl: Ctl, lost: nat, dead: bool, mss: nat, maxResend: nat)
    requires CwndOk(ctl, mss, maxResend)
    ensures CwndOk(ProbeTimer(ctl), mss, maxResend) && CwndOk(Resent(Probed(ctl), lost, dead), mss, maxResend)
  {
    hide Bytes, U32Of, ITimeDiff;
  }

  lemma SendCwnd(ctl: Ctl, mss: nat, s: Snd, window: U32, maxResend: nat)
    requires Small(mss, maxResend) && WindowOk(s) && CwndOk(ctl, mss, maxResend)
    ensures CwndOk(AfterSending(ctl, mss, s, window), mss, maxResend)
    ensures AfterSending(ctl, mss, s, window).cwnd >= 1
  {
    hide Bytes, Small, CwndOk, Congest, CountWhy, DeadLink, Resent, Probed;
    var lost := CountWhy(s.buf, ctl, Timeout);
    ProbeIsNoCwnd(ctl, lost, DeadLink(s.buf, ctl), mss, maxResend);
    var c1 := Resent(Probed(ctl), lost, DeadLink(s.buf, ctl));
    CongestKeeps(c1, mss, U32Of(s.nxt - s.una), window, CountWhy(s.buf, ctl, Fast) > 0, lost > 0, maxResend);
  }

  /** Timers are not congestion state. */
  lemma TimersKeep(ctl: Ctl, t: Ctl, mss: nat, maxResend: nat)
    requires CwndOk(ctl, mss, maxResend)
    requires t.cwnd == ctl.cwnd && t.incr == ctl.incr && t.ssthresh == ctl.ssthresh && t.fastresend <= maxResend
    ensures CwndOk(t, mss, maxResend)
  {
  }

  lemma FlushCwnd(cb: Cb, maxResend: nat)
    requires Small(cb.Mss(), maxResend) && WindowOk(cb.snd) && CwndOk(cb.ctl, cb.Mss(), maxResend)
    ensures var f := Flush(true, cb); WindowOk(f.cb.snd) && CwndOk(f.cb.ctl, cb.Mss(), maxResend)
    ensures cb.ctl.updated ==> Flush(true, cb).cb.ctl.cwnd >= 1
  {
    if cb.ctl.updated {
      var ctl := ProbeTimer(cb.ctl);
      assert SendWindow(ctl) <= 65535;
      hide CwndOk, Small, WindowOk, AfterSending, Pack, FlushWires, ProbeTimer, TransmitAll, FillWindow, SendWindow;
      ProbeIsNoCwnd(cb.ctl, 0, false, cb.Mss(), maxResend);
      FillWindowWindow(cb.snd, SendWindow(ctl), ctl.current, ctl.rxRto);
      var s := Filled(true, cb.snd, ctl);
      TransmitWindow(s, ctl);
      SendCwnd(ctl, cb.Mss(), s, SendWindow(ctl), maxResend);
    }
  }

  lemma InputSegCwnd(cb: Cb, w: Wire, mss: nat, maxResend: nat)
    requires CwndOk(cb.ctl, mss, maxResend)
    ensures CwndOk(InputSeg(true, cb, w).ctl, mss, maxResend)
  {
    hide Bytes, ParseUna, ParseAck, AcceptPush, U32Of, ITimeDiff;
  }

  lemma {:induction false} InputSegsCwnd(cb: Cb, ws: seq<Wire>, mss: nat, maxResend: nat)
    requires CwndOk(cb.ctl, mss, maxResend)
    ensures CwndOk(InputSegs(true, cb, ws).ctl, mss, maxResend)
    decreases |ws|
  {
    if ws != [] {
      InputSegCwnd(cb, ws[0], mss, maxResend);
      InputSegsCwnd(InputSeg(true, cb, ws[0]), ws[1..], mss, maxResend);
    }
  }

  lemma InputCwnd(p: Peer, ws: seq<Wire>, maxResend: nat)
    requires PeerCwndOk(p, maxResend)
    ensures PeerCwndOk(p.(cb := Input(true, p.cb, ws)), maxResend)
  {
    hide Bytes, Grow, ITimeDiff;
    InputSegsWindow(p.cb, ws);
    InputSegsCwnd(p.cb, ws, p.cb.Mss(), maxResend);
    var c, m := InputSegs(true, p.cb, ws), NoteAcks(NoAck, ws);
    if m.SomeAck? && InFlight(c.snd, m.sn) {
      BumpFastackKeeps(c.snd.buf, m.sn);
    }
    GrowKeeps(c.ctl, p.cb.Mss(), maxResend);
  }

  /** Every `resend` setting of the call is at most `maxResend`. */
  predicate ResendWithin(act: Act, maxResend: nat) {
    act.CallNoDelay? ==> act.resend <= maxResend
  }

  lemma UpdateCwnd(cb: Cb, current: U32, maxResend: nat)
    requires Small(cb.Mss(), maxResend) && WindowOk(cb.snd) && CwndOk(cb.ctl, cb.Mss(), maxResend)
    ensures var f := Update(true, cb, current); WindowOk(f.cb.snd) && CwndOk(f.cb.ctl, cb.Mss(), maxResend)
  {
    var (ctl, due) := Tick(cb.ctl, current);
    TimersKeep(cb.ctl, ctl, cb.Mss(), maxResend);
    FlushCwnd(cb.(ctl := ctl), maxResend);
  }

  lemma NoDelayCwnd(cb: Cb, nodelay: int, interval: int, resend: CInt, nc: int, maxResend: nat)
    requires cb.Mss() > 0 && CwndOk(cb.ctl, cb.Mss(), maxResend) && resend <= maxResend
    ensures CwndOk(NoDelay(cb, nodelay, interval, resend, nc).ctl, cb.Mss(), maxResend)
  {
    hide Bytes;
    TimersKeep(cb.ctl, NoDelay(cb, nodelay, interval, resend, nc).ctl, cb.Mss(), maxResend);
  }

  lemma StepCwnd(p: Peer, q: Peer, act: Act, maxResend: nat)
    requires PeerCwndOk(p, maxResend) && ResendWithin(act, maxResend)
    ensures PeerCwndOk(StepPeer(true, p, q, act), maxResend)
  {
    hide Bytes, Recv, Flush, Update, Input, ITimeDiff, U32Of;
    StepKeepsConfig(true, p, q, act);
    match act {
      case CallUpdate(current) => UpdateCwnd(p.cb, current, maxResend);
      case CallFlush => FlushCwnd(p.cb, maxResend);
      case CallInput(i) =>
        if i < |q.out| {
          InputCwnd(p, q.out[i], maxResend);
        }
      case CallNoDelay(n, i, r, c) => NoDelayCwnd(p.cb, n, i, r, c, maxResend);
      case _ =>
        var c := StepPeer(true, p, q, act).cb;
        assert c.snd.buf == p.cb.snd.buf && c.mtu == p.cb.mtu;
        TimersKeep(p.cb.ctl, c.ctl, p.cb.Mss(), maxResend);
    }
  }

  lemma {:induction false} RunCwnd(s: Sys, evs: seq<Event>, maxResend: nat)
    requires PeerCwndOk(s.a, maxResend) && PeerCwndOk(s.b, maxResend)
    requires forall e | e in evs :: ResendWithin(e.act, maxResend)
    ensures PeerCwndOk(Run(true, s, evs).a, maxResend) && PeerCwndOk(Run(true, s, evs).b, maxResend)
    decreases |evs|
  {
    if evs != [] {
      StepCwnd(s.a, s.b, evs[0].act, maxResend);
      StepCwnd(s.b, s.a, evs[0].act, maxResend);
      RunCwnd(Step(true, s, evs[0]), evs[1..], maxResend);
    }
  }
}
