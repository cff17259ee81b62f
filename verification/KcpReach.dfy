/** Receive windows: under which of them a receiver has everything in reach that its peer can number. */
module KcpReach {
  import opened KcpArith
  import opened KcpWire
  import opened KcpModel
  import opened KcpQueues
  import opened KcpSystem
  import opened KcpInvariant
  import opened KcpSafety

  /** What the receiver keeps was within a window of `reach` segments, the largest there was. */
  ghost predicate Within(r: Rcv, reach: nat) {
    r.wnd <= reach && forall i | 0 <= i < |r.buf| :: r.buf[i].sn < r.nxt + reach
  }

  /** The window has not been taken back by more than 2^31 - 65535 segments. */
  predicate Ample(r: Rcv, reach: nat) {
    reach - r.wnd <= TWO31 - WINDOW_MAX
  }

  /** Then the peer, which is at most its own window ahead of what the receiver keeps, stays in reach. */
  lemma AmpleIsInReach(s: Snd, r: Rcv, numbered: seq<Frag>, reach: nat)
    requires SndOk(s, numbered) && NoneForgotten(s, r) && Within(r, reach) && Ample(r, reach)
    ensures InReach(r, |numbered|)
  {
    if s.una > r.nxt + reach {
      assert !InBuf(s, s.una - 1);
      assert Held(r, s.una - 1);
    }
  }

  // ---------------------------------------------------------------- every call

  lemma {:induction false} MoveReadyWithin(r: Rcv, reach: nat)
    requires Within(r, reach)
    ensures Within(MoveReady(true, r), reach)
    decreases |r.buf|
  {
    if r.buf != [] && SameSn(r.buf[0].sn, r.nxt) && |r.queue| < r.wnd {
      var r1 := r.(nxt := Succ(true, r.nxt), queue := r.queue + [r.buf[0].frag], buf := r.buf[1..]);
      MoveReadyWithin(r1, reach);
    }
  }

  lemma AcceptPushWithin(r: Rcv, w: Wire, reach: nat)
    requires Within(r, reach) && r.wnd <= RCVWND_MAX && w.sn < r.nxt + RCVWND_MAX + WINDOW_MAX
    ensures Within(AcceptPush(true, r, w), reach)
  {
    var g := RSeg(w.sn, Frag(w.frg, w.data));
    if w.sn - r.nxt >= TWO31 {
      DiffOfTurns(w.sn, r.nxt, 1, w.sn - r.nxt - TWO32);
    } else if ITimeDiff(w.sn, r.nxt + r.wnd) < 0 && ITimeDiff(w.sn, r.nxt) >= 0 {
      if w.sn >= r.nxt {
        PushWindow(r, w.sn);
      }
      InsertMembers(r.buf, g);
      var r1 := r.(acks := r.acks + [Ack(w.sn, w.ts)], buf := Insert(r.buf, g));
      forall i | 0 <= i < |r1.buf| ensures r1.buf[i].sn < r1.nxt + reach {
        assert r1.buf[i] in r1.buf;
      }
      MoveReadyWithin(r1, reach);
    }
  }

  lemma {:induction false} InputSegsWithin(p: Peer, q: Peer, ws: seq<Wire>, reach: nat)
    requires HalvesOk(p, q) && (forall i | 0 <= i < |ws| :: PushOk(ws[i], q.numbered))
             && HarmlessSegs(p.cb, q.cb.rcv, ws)
    requires Within(p.cb.rcv, reach)
    ensures Within(InputSegs(true, p.cb, ws).rcv, reach) && InputSegs(true, p.cb, ws).rcv.wnd == p.cb.rcv.wnd
    decreases |ws|
  {
    if ws != [] {
      InputSegKeeps(p, q, ws[0]);
      if ws[0].cmd == CMD_PUSH {
        AcceptPushWithin(p.cb.rcv, ws[0], reach);
        AcceptPushWnd(p.cb.rcv, ws[0]);
      }
      InputSegsWithin(p.(cb := InputSeg(true, p.cb, ws[0])), q, ws[1..], reach);
    }
  }

  lemma RecvWithin(r: Rcv, len: int, reach: nat)
    requires Within(r, reach)
    ensures Within(Recv(true, r, len).rcv, reach) && Recv(true, r, len).rcv.wnd == r.wnd
  {
    var left := r.queue[HeadLen(r.queue)..];
    MoveReadyWithin(r, reach);
    MoveReadyWithin(r.(queue := left), reach);
    MoveReadyWnd(true, r);
    MoveReadyWnd(true, r.(queue := left));
  }

  lemma StepWithin(p: Peer, q: Peer, act: Act, reach: nat)
    requires LinkOk(p, q) && LinkOk(q, p) && p.cb.Mss() > 0 && HarmlessSegs(p.cb, q.cb.rcv, Delivered(q, act))
    requires Within(p.cb.rcv, reach)
    ensures var r := StepPeer(true, p, q, act).cb.rcv; Within(r, Max(reach, r.wnd))
  {
    hide ITimeDiff, U32Of, Send, Pack, FlushWires, Congest, MoveReady, SndOk, RcvOk, NoneForgotten, PushesOk;
    match act
    case CallRecv(len) =>
      RecvWithin(p.cb.rcv, len, reach);
    case CallInput(i) =>
      if i < |q.out| {
        DeliveredOk(p, q, act);
        InputSegsWithin(p, q, q.out[i], reach);
      }
    case _ =>
  }

  // ---------------------------------------------------------------- whole runs

  ghost predicate RecentEvent(s: Sys, e: Event) {
    var ws := Delivered(Other(s, e), e.act);
    forall j | 0 <= j < |ws| :: Fresh(ws[j], |At(s, e).numbered|, |Other(s, e).numbered|)
  }

  /** No event of the run delivers a number that is more than 2^31 assignments old. */
  ghost predicate RecentRun(s: Sys, evs: seq<Event>)
    requires s.a.cb.Mss() > 0 && s.b.cb.Mss() > 0
    decreases |evs|
  {
    evs == [] || (RecentEvent(s, evs[0]) && RecentRun(Step(true, s, evs[0]), evs[1..]))
  }

  /** The windows of both sides are ample at every step; `ra` and `rb` are the largest there were. */
  ghost predicate AmpleRun(s: Sys, evs: seq<Event>, ra: nat, rb: nat)
    requires s.a.cb.Mss() > 0 && s.b.cb.Mss() > 0
    decreases |evs|
  {
    evs == [] ||
    (Ample(s.a.cb.rcv, ra) && Ample(s.b.cb.rcv, rb) &&
     var t := Step(true, s, evs[0]);
     AmpleRun(t, evs[1..], Max(ra, t.a.cb.rcv.wnd), Max(rb, t.b.cb.rcv.wnd)))
  }

  /** With ample windows it is enough that nothing delivered is too old. */
  lemma {:induction false} AmpleRunIsFresh(s: Sys, evs: seq<Event>, ra: nat, rb: nat)
    requires SysOk(s) && Truthful(s.a) && Truthful(s.b) && Within(s.a.cb.rcv, ra) && Within(s.b.cb.rcv, rb)
    requires RecentRun(s, evs) && AmpleRun(s, evs, ra, rb)
    ensures FreshRun(s, evs)
    decreases |evs|
  {
    if evs != [] {
      AmpleIsInReach(s.b.cb.snd, s.a.cb.rcv, s.b.numbered, ra);
      AmpleIsInReach(s.a.cb.snd, s.b.cb.rcv, s.a.numbered, rb);
      FreshStep(s, evs[0]);
      StepKeeps(s, evs[0]);
      var t := Step(true, s, evs[0]);
      if evs[0].atA {
        StepWithin(s.a, s.b, evs[0].act, ra);
      } else {
        StepWithin(s.b, s.a, evs[0].act, rb);
      }
      AmpleRunIsFresh(t, evs[1..], Max(ra, t.a.cb.rcv.wnd), Max(rb, t.b.cb.rcv.wnd));
    }
  }

  /** The event asks for no window above 2^31 - 65535 segments. */
  predicate Modest(e: Event) {
    e.act.CallWndSize? ==> e.act.rcvwnd <= TWO31 - WINDOW_MAX
  }

  lemma {:induction false} InputSegsWnd(cb: Cb, ws: seq<Wire>)
    ensures InputSegs(true, cb, ws).rcv.wnd == cb.rcv.wnd
    decreases |ws|
  {
    if ws != [] {
      AcceptPushWnd(cb.rcv, ws[0]);
      InputSegsWnd(InputSeg(true, cb, ws[0]), ws[1..]);
    }
  }

  lemma StepWnd(p: Peer, q: Peer, e: Event)
    requires p.cb.Mss() > 0 && Modest(e) && p.cb.rcv.wnd <= TWO31 - WINDOW_MAX
    ensures StepPeer(true, p, q, e.act).cb.rcv.wnd <= TWO31 - WINDOW_MAX
  {
    hide ITimeDiff, U32Of, Send, Pack, FlushWires, Congest, MoveReady, AcceptPush;
    match e.act
    case CallRecv(len) =>
      MoveReadyWnd(true, p.cb.rcv);
      MoveReadyWnd(true, p.cb.rcv.(queue := p.cb.rcv.queue[HeadLen(p.cb.rcv.queue)..]));
    case CallInput(i) =>
      if i < |q.out| {
        InputSegsWnd(p.cb, q.out[i]);
      }
    case _ =>
  }

  /** Windows up to that are ample, however they change. */
  lemma {:induction false} ModestIsAmple(s: Sys, evs: seq<Event>, ra: nat, rb: nat)
    requires s.a.cb.Mss() > 0 && s.b.cb.Mss() > 0 && ra <= TWO31 - WINDOW_MAX && rb <= TWO31 - WINDOW_MAX
    requires s.a.cb.rcv.wnd <= TWO31 - WINDOW_MAX && s.b.cb.rcv.wnd <= TWO31 - WINDOW_MAX
    requires forall e | e in evs :: Modest(e)
    ensures AmpleRun(s, evs, ra, rb)
    decreases |evs|
  {
    if evs != [] {
      var t := Step(true, s, evs[0]);
      assert evs[0] in evs;
      StepWnd(s.a, s.b, evs[0]);
      StepWnd(s.b, s.a, evs[0]);
      ModestIsAmple(t, evs[1..], Max(ra, t.a.cb.rcv.wnd), Max(rb, t.b.cb.rcv.wnd));
    }
  }

  /** No window is taken back in the run, whatever its size. */
  ghost predicate GrowingRun(s: Sys, evs: seq<Event>)
    requires s.a.cb.Mss() > 0 && s.b.cb.Mss() > 0
    decreases |evs|
  {
    evs == [] ||
    (var t := Step(true, s, evs[0]);
     t.a.cb.rcv.wnd >= s.a.cb.rcv.wnd && t.b.cb.rcv.wnd >= s.b.cb.rcv.wnd && GrowingRun(t, evs[1..]))
  }

  /** Windows that only grow, or stay, are ample too. */
  lemma {:induction false} GrowingIsAmple(s: Sys, evs: seq<Event>)
    requires s.a.cb.Mss() > 0 && s.b.cb.Mss() > 0 && GrowingRun(s, evs)
    ensures AmpleRun(s, evs, s.a.cb.rcv.wnd, s.b.cb.rcv.wnd)
    decreases |evs|
  {
    if evs != [] {
      GrowingIsAmple(Step(true, s, evs[0]), evs[1..]);
    }
  }
}
