/** Every call of a run keeps the invariant of KcpInvariant, as long as no segment is misread. */
module KcpSafety {
  import opened LittleEndian
  import opened KcpArith
  import opened KcpWire
  import opened KcpModel
  import opened KcpQueues
  import opened KcpDatagrams
  import opened KcpSystem
  import opened KcpInvariant

  // ---------------------------------------------------------------- ikcp_input

  /** `ikcp_input` of a datagram misreads none of its segments, each in the state it meets. */
  ghost predicate HarmlessSegs(cb: Cb, r: Rcv, ws: seq<Wire>)
    decreases |ws|
  {
    ws == [] || (Harmless(cb, r, ws[0]) && HarmlessSegs(InputSeg(true, cb, ws[0]), r, ws[1..]))
  }

  /** No segment of the datagram does any of the harm that old numbers can do. */
  ghost predicate InnocentSegs(cb: Cb, r: Rcv, ws: seq<Wire>)
    decreases |ws|
  {
    ws == [] || (Innocent(cb, r, ws[0]) && InnocentSegs(InputSeg(true, cb, ws[0]), r, ws[1..]))
  }

  lemma InputSegKeeps(p: Peer, q: Peer, w: Wire)
    requires HalvesOk(p, q) && PushOk(w, q.numbered) && Harmless(p.cb, q.cb.rcv, w)
    ensures var c := InputSeg(true, p.cb, w);
            HalvesOk(p.(cb := c), q) && Advanced(p.cb.rcv, c.rcv) && c.snd.una >= p.cb.snd.una
            && c.snd.queue == p.cb.snd.queue
  {
    var s1 := ParseUna(p.cb.snd, w.una);
    ParseUnaIff(p.cb.snd, q.cb.rcv, p.numbered, w.una);
    if w.cmd == CMD_ACK {
      ParseAckKeeps(s1, q.cb.rcv, p.numbered, w.sn);
    } else if w.cmd == CMD_PUSH {
      AcceptPushKeeps(p.cb.rcv, q.numbered, p.popped, w);
    }
  }

  lemma {:induction false} InputSegsKeep(p: Peer, q: Peer, ws: seq<Wire>)
    requires HalvesOk(p, q) && (forall i | 0 <= i < |ws| :: PushOk(ws[i], q.numbered))
             && HarmlessSegs(p.cb, q.cb.rcv, ws)
    ensures var c := InputSegs(true, p.cb, ws);
            HalvesOk(p.(cb := c), q) && Advanced(p.cb.rcv, c.rcv) && c.snd.una >= p.cb.snd.una
            && c.snd.queue == p.cb.snd.queue
    decreases |ws|
  {
    if ws != [] {
      InputSegKeeps(p, q, ws[0]);
      var p1 := p.(cb := InputSeg(true, p.cb, ws[0]));
      InputSegsKeep(p1, q, ws[1..]);
    }
  }

  lemma {:induction false} SegmentsIff(p: Peer, q: Peer, ws: seq<Wire>)
    requires HalvesOk(p, q) && forall i | 0 <= i < |ws| :: PushOk(ws[i], q.numbered)
    ensures InnocentSegs(p.cb, q.cb.rcv, ws) <==> HarmlessSegs(p.cb, q.cb.rcv, ws)
    decreases |ws|
  {
    if ws != [] {
      SegmentIff(p, q, ws[0]);
      if Harmless(p.cb, q.cb.rcv, ws[0]) {
        InputSegKeeps(p, q, ws[0]);
        SegmentsIff(p.(cb := InputSeg(true, p.cb, ws[0])), q, ws[1..]);
      }
    }
  }

  lemma InputKeeps(p: Peer, q: Peer, ws: seq<Wire>)
    requires p.cb.Mss() > 0
    requires HalvesOk(p, q) && (forall i | 0 <= i < |ws| :: PushOk(ws[i], q.numbered))
             && HarmlessSegs(p.cb, q.cb.rcv, ws)
    ensures var c := Input(true, p.cb, ws);
            HalvesOk(p.(cb := c), q) && Advanced(p.cb.rcv, c.rcv) && c.snd.una >= p.cb.snd.una
            && c.snd.queue == p.cb.snd.queue
  {
    InputSegsKeep(p, q, ws);
    var c, m := InputSegs(true, p.cb, ws), NoteAcks(NoAck, ws);
    if m.SomeAck? && InFlight(c.snd, m.sn) {
      BumpFastackKeeps(c.snd.buf, m.sn);
      SameNumbersKeep(c.snd, ParseFastack(c.snd, m.sn), q.cb.rcv, p.numbered);
    }
  }

  /** Reports sent earlier stay true as the receiver moves on. */
  lemma ReportsStay(out: seq<seq<Wire>>, r: Rcv, t: Rcv)
    requires ReportsOk(out, r) && Advanced(r, t)
    ensures ReportsOk(out, t)
  {
    forall i, j | 0 <= i < |out| && 0 <= j < |out[i]| ensures ReportOk(out[i][j], t) {
      assert ReportOk(out[i][j], r);
    }
  }

  lemma NoneForgottenStays(s: Snd, r: Rcv, t: Rcv)
    requires NoneForgotten(s, r) && Advanced(r, t)
    ensures NoneForgotten(s, t)
  {
  }

  /** What an event delivers at `p`, if it delivers something. */
  function Delivered(q: Peer, act: Act): seq<Wire> {
    if act.CallInput? && act.i < |q.out| then q.out[act.i] else []
  }

  lemma DeliveredOk(p: Peer, q: Peer, act: Act)
    requires LinkOk(p, q) && LinkOk(q, p)
    ensures HalvesOk(p, q) && forall j | 0 <= j < |Delivered(q, act)| :: PushOk(Delivered(q, act)[j], q.numbered)
  {
    Distance(q.cb.snd, p.cb.rcv, q.numbered);
    if act.CallInput? && act.i < |q.out| {
      forall j | 0 <= j < |q.out[act.i]| ensures PushOk(q.out[act.i][j], q.numbered) {
      }
    }
  }

  lemma InputStep(p: Peer, q: Peer, i: nat)
    requires LinkOk(p, q) && LinkOk(q, p) && p.cb.Mss() > 0
    requires i < |q.out| && HarmlessSegs(p.cb, q.cb.rcv, q.out[i])
    ensures var p1 := p.(cb := Input(true, p.cb, q.out[i]));
            LinkOk(p1, q) && LinkOk(q, p1) && Advanced(p.cb.rcv, p1.cb.rcv)
  {
    DeliveredOk(p, q, CallInput(i));
    InputKeeps(p, q, q.out[i]);
    var c := Input(true, p.cb, q.out[i]);
    NoneForgottenStays(q.cb.snd, p.cb.rcv, c.rcv);
  }

  // ---------------------------------------------------------------- ikcp_flush

  lemma {:induction false} PushWiresOk(conv: U32, buf: seq<Seg>, ctl: Ctl, wnd: U16, una: nat, numbered: seq<Frag>,
                                       w: Wire)
    requires BufNumbered(buf, numbered) && w in PushWires(conv, buf, ctl, wnd, una)
    ensures w.cmd == CMD_PUSH && w.una == una && w.conv == conv && PushOk(w, numbered)
    decreases |buf|
  {
    if buf != [] && w in PushWires(conv, buf[1..], ctl, wnd, una) {
      PushWiresOk(conv, buf[1..], ctl, wnd, una, numbered, w);
    }
  }

  lemma FlushWiresOk(cb: Cb, ctl: Ctl, s: Snd, numbered: seq<Frag>, w: Wire)
    requires BufNumbered(s.buf, numbered) && w in FlushWires(cb, ctl, s.buf)
    ensures w.conv == cb.conv && KnownCmd(w.cmd) && PushOk(w, numbered)
    ensures AcksOk(cb.rcv) ==> ReportOk(w, cb.rcv)
  {
    var pushes := PushWires(cb.conv, s.buf, ctl, WndUnused(cb.rcv), cb.rcv.nxt);
    if w in pushes {
      PushWiresOk(cb.conv, s.buf, ctl, WndUnused(cb.rcv), cb.rcv.nxt, numbered, w);
    } else if w in AckWires(cb) {
    } else {
      assert w in ProbeWires(cb, ctl.askSend, ctl.askTell);
    }
  }

  /** Everything one flush outputs is true of the state it leaves. */
  lemma FlushOutOk(cb: Cb, ctl: Ctl, s: Snd, numbered: seq<Frag>)
    requires BufNumbered(s.buf, numbered)
    ensures PushesOk(Emit(cb, ctl, s).out, numbered)
    ensures AcksOk(cb.rcv) ==> ReportsOk(Emit(cb, ctl, s).out, cb.rcv)
  {
    var out := Emit(cb, ctl, s).out;
    PackConcat([], FlushWires(cb, ctl, s.buf), cb.mtu);
    forall i, j | 0 <= i < |out| && 0 <= j < |out[i]|
      ensures PushOk(out[i][j], numbered) && (AcksOk(cb.rcv) ==> ReportOk(out[i][j], cb.rcv))
    {
      ConcatMember(out, i, j);
      FlushWiresOk(cb, ctl, s, numbered, out[i][j]);
    }
  }

  lemma PushesStay(out: seq<seq<Wire>>, more: seq<seq<Wire>>, numbered: seq<Frag>, extra: seq<Frag>)
    requires PushesOk(out, numbered) && PushesOk(more, numbered + extra)
    ensures PushesOk(out + more, numbered + extra)
  {
    forall i, j | 0 <= i < |out + more| && 0 <= j < |(out + more)[i]|
      ensures PushOk((out + more)[i][j], numbered + extra)
    {
      if i < |out| {
        assert PushOk(out[i][j], numbered);
      } else {
        assert PushOk(more[i - |out|][j], numbered + extra);
      }
    }
  }

  lemma ReportsAppend(out: seq<seq<Wire>>, more: seq<seq<Wire>>, r: Rcv)
    requires ReportsOk(out, r) && ReportsOk(more, r)
    ensures ReportsOk(out + more, r)
  {
    forall i, j | 0 <= i < |out + more| && 0 <= j < |(out + more)[i]| ensures ReportOk((out + more)[i][j], r) {
      if i < |out| {
        assert ReportOk(out[i][j], r);
      } else {
        assert ReportOk(more[i - |out|][j], r);
      }
    }
  }

  lemma AcksDropped(r: Rcv)
    ensures Advanced(r, r.(acks := []))
  {
    assert forall k: nat :: Held(r, k) == Held(r.(acks := []), k);
  }

  /** The receiver half does not care about a longer history. */
  lemma RcvOkStays(r: Rcv, numbered: seq<Frag>, extra: seq<Frag>, popped: seq<Frag>)
    requires RcvOk(r, numbered, popped)
    ensures RcvOk(r, numbered + extra, popped)
  {
    assert (numbered + extra)[..r.nxt] == numbered[..r.nxt];
  }

  /** What is numbered and sent by a flush, seen from the link on which `p` sends. */
  lemma FlushSends(p: Peer, q: Peer, cb: Cb) returns (moved: nat)
    requires LinkOk(p, q) && cb.snd == p.cb.snd && cb.ctl.updated
    ensures var f := Flush(true, cb);
            && moved <= |cb.snd.queue| && f.cb.snd.queue == cb.snd.queue[moved..]
            && LinkOk(Peer(f.cb, p.out + f.out, p.numbered + cb.snd.queue[..moved], p.popped, p.sent, p.written,
                           p.got), q)
            && (AcksOk(cb.rcv) ==> ReportsOk(f.out, cb.rcv))
  {
    var ctl := ProbeTimer(cb.ctl);
    moved := FillWindowKeeps(cb.snd, q.cb.rcv, p.numbered, SendWindow(ctl), ctl.current, ctl.rxRto);
    var s, f := Filled(true, cb.snd, ctl), Flush(true, cb);
    var extra := cb.snd.queue[..moved];
    FlushOutOk(cb, ctl, s, p.numbered + extra);
    SameNumbersKeep(s, f.cb.snd, q.cb.rcv, p.numbered + extra);
    PushesStay(p.out, f.out, p.numbered, extra);
    RcvOkStays(q.cb.rcv, p.numbered, extra, q.popped);
  }

  /** The same flush seen from the link on which `p` receives: its acknowledgements have gone out. */
  lemma FlushReports(q: Peer, p: Peer, p1: Peer, more: seq<seq<Wire>>)
    requires LinkOk(q, p) && (AcksOk(p.cb.rcv) ==> ReportsOk(more, p.cb.rcv))
    requires p1.out == p.out + more && p1.popped == p.popped && p1.cb.rcv == p.cb.rcv.(acks := [])
    ensures LinkOk(q, p1) && Advanced(p.cb.rcv, p1.cb.rcv) && (Truthful(p) ==> Truthful(p1))
  {
    AcksDropped(p.cb.rcv);
    if Truthful(p) {
      ReportsAppend(p.out, more, p.cb.rcv);
      ReportsStay(p.out + more, p.cb.rcv, p1.cb.rcv);
    }
    NoneForgottenStays(q.cb.snd, p.cb.rcv, p1.cb.rcv);
  }

  lemma FlushStep(p: Peer, q: Peer, ctl0: Ctl)
    requires LinkOk(p, q) && LinkOk(q, p) && p.cb.Mss() > 0
    ensures var f := Flush(true, p.cb.(ctl := ctl0));
            && LinkOk(AfterFlush(p, f), q) && LinkOk(q, AfterFlush(p, f))
            && Advanced(p.cb.rcv, f.cb.rcv) && (Truthful(p) ==> Truthful(AfterFlush(p, f)))
  {
    var cb := p.cb.(ctl := ctl0);
    var f := Flush(true, cb);
    if ctl0.updated {
      var moved := FlushSends(p, q, cb);
      FlushReports(q, p, AfterFlush(p, f), f.out);
    } else {
      assert p.out + [] == p.out && p.numbered + [] == p.numbered;
    }
  }

  // ---------------------------------------------------------------- the remaining calls

  lemma RecvKeeps(r: Rcv, numbered: seq<Frag>, popped: seq<Frag>, len: int)
    requires RcvOk(r, numbered, popped)
    ensures var x := Recv(true, r, len);
            RcvOk(x.rcv, numbered, popped + x.taken) && Advanced(r, x.rcv) && x.rcv.acks == r.acks
  {
    var x := Recv(true, r, len);
    assert popped + [] == popped;
    if x.code >= 0 {
      var k := HeadLen(r.queue);
      var left := if len < 0 then r.queue else r.queue[k..];
      assert popped + x.taken + left == popped + r.queue;
      assert forall n: nat :: Held(r.(queue := left), n) == Held(r, n);
      MoveReadyKeeps(r.(queue := left), numbered, popped + x.taken);
    }
  }

  lemma RecvStep(p: Peer, q: Peer, len: CInt)
    requires LinkOk(p, q) && LinkOk(q, p) && p.cb.Mss() > 0
    ensures var p1 := StepPeer(true, p, q, CallRecv(len));
            && LinkOk(p1, q) && LinkOk(q, p1) && Advanced(p.cb.rcv, p1.cb.rcv)
            && p1.cb.rcv.acks == p.cb.rcv.acks && p1.out == p.out
  {
    RecvKeeps(p.cb.rcv, q.numbered, p.popped, len);
    var t := Recv(true, p.cb.rcv, len).rcv;
    NoneForgottenStays(q.cb.snd, p.cb.rcv, t);
  }

  lemma WndSizeStep(p: Peer, q: Peer, sndwnd: CInt, rcvwnd: CInt)
    requires LinkOk(p, q) && LinkOk(q, p) && p.cb.Mss() > 0
    ensures var p1 := p.(cb := WndSize(p.cb, sndwnd, rcvwnd));
            LinkOk(p1, q) && LinkOk(q, p1) && Advanced(p.cb.rcv, p1.cb.rcv)
  {
    var t := WndSize(p.cb, sndwnd, rcvwnd).rcv;
    assert forall k: nat :: Held(t, k) == Held(p.cb.rcv, k);
    NoneForgottenStays(q.cb.snd, p.cb.rcv, t);
  }

  lemma QueueStep(p: Peer, q: Peer, queue: seq<Frag>)
    requires LinkOk(p, q) && LinkOk(q, p)
    ensures var p1 := p.(cb := p.cb.(snd := p.cb.snd.(queue := queue)));
            LinkOk(p1, q) && LinkOk(q, p1)
  {
    assert forall k: nat :: InBuf(p.cb.snd.(queue := queue), k) == InBuf(p.cb.snd, k);
  }

  /** An endpoint that says nothing more stays truthful as it moves on. */
  lemma StaysTruthful(p: Peer, p1: Peer)
    requires Truthful(p) && Advanced(p.cb.rcv, p1.cb.rcv) && p1.out == p.out && p1.cb.rcv.acks == p.cb.rcv.acks
    ensures Truthful(p1)
  {
    ReportsStay(p.out, p.cb.rcv, p1.cb.rcv);
  }

  lemma AdvancedSame(r: Rcv)
    ensures Advanced(r, r)
  {
  }

  lemma StepPeerKeeps(p: Peer, q: Peer, act: Act)
    requires LinkOk(p, q) && LinkOk(q, p) && p.cb.Mss() > 0 && HarmlessSegs(p.cb, q.cb.rcv, Delivered(q, act))
    ensures var p1 := StepPeer(true, p, q, act);
            && LinkOk(p1, q) && LinkOk(q, p1) && Advanced(p.cb.rcv, p1.cb.rcv)
            && (Truthful(p) && Delivered(q, act) == [] ==> Truthful(p1))
  {
    hide ReportsOk, RcvOk, AcksOk, Advanced, SndOk, NoneForgotten, PushesOk;
    AdvancedSame(p.cb.rcv);
    assert p.out + [] == p.out && p.numbered + [] == p.numbered;
    match act
    case CallSend(data) => QueueStep(p, q, Send(p.cb, data).1);
    case CallRecv(len) =>
      RecvStep(p, q, len);
      if Truthful(p) {
        StaysTruthful(p, StepPeer(true, p, q, act));
      }
    case CallUpdate(current) =>
      var (ctl, due) := Tick(p.cb.ctl, current);
      if due {
        FlushStep(p, q, ctl);
      }
    case CallFlush => FlushStep(p, q, p.cb.ctl);
    case CallInput(i) =>
      if i < |q.out| {
        InputStep(p, q, i);
        if q.out[i] == [] {
          assert InputSegs(true, p.cb, []) == p.cb;
        }
      }
    case CallWndSize(s, r) =>
      WndSizeStep(p, q, s, r);
      if Truthful(p) {
        StaysTruthful(p, StepPeer(true, p, q, act));
      }
    case CallNoDelay(_, _, _, _) =>
  }

  // ---------------------------------------------------------------- whole runs

  /** The endpoint at which the event happens, and its peer. */
  function At(s: Sys, e: Event): Peer {
    if e.atA then s.a else s.b
  }

  function Other(s: Sys, e: Event): Peer {
    if e.atA then s.b else s.a
  }

  ghost predicate HarmlessEvent(s: Sys, e: Event) {
    HarmlessSegs(At(s, e).cb, Other(s, e).cb.rcv, Delivered(Other(s, e), e.act))
  }

  ghost predicate InnocentEvent(s: Sys, e: Event) {
    InnocentSegs(At(s, e).cb, Other(s, e).cb.rcv, Delivered(Other(s, e), e.act))
  }

  /** No segment delivered in the run is misread. */
  ghost predicate HarmlessRun(s: Sys, evs: seq<Event>)
    requires s.a.cb.Mss() > 0 && s.b.cb.Mss() > 0
    decreases |evs|
  {
    evs == [] || (HarmlessEvent(s, evs[0]) && HarmlessRun(Step(true, s, evs[0]), evs[1..]))
  }

  /** No segment delivered in the run makes an endpoint forget what its peer misses, or take a duplicate for new. */
  ghost predicate InnocentRun(s: Sys, evs: seq<Event>)
    requires s.a.cb.Mss() > 0 && s.b.cb.Mss() > 0
    decreases |evs|
  {
    evs == [] || (InnocentEvent(s, evs[0]) && InnocentRun(Step(true, s, evs[0]), evs[1..]))
  }

  lemma StartOk(cfg: Config)
    requires cfg.Valid()
    ensures SysOk(Start(cfg))
  {
  }

  lemma StepKeeps(s: Sys, e: Event)
    requires SysOk(s) && HarmlessEvent(s, e)
    ensures SysOk(Step(true, s, e))
  {
    StepPeerKeeps(At(s, e), Other(s, e), e.act);
  }

  lemma {:induction false} RunKeeps(s: Sys, evs: seq<Event>)
    requires SysOk(s) && HarmlessRun(s, evs)
    ensures SysOk(Run(true, s, evs))
    decreases |evs|
  {
    if evs != [] {
      StepKeeps(s, evs[0]);
      RunKeeps(Step(true, s, evs[0]), evs[1..]);
    }
  }

  /** A run does none of the harm exactly when none of its segments is misread. */
  lemma {:induction false} RunIff(s: Sys, evs: seq<Event>)
    requires SysOk(s)
    ensures InnocentRun(s, evs) <==> HarmlessRun(s, evs)
    decreases |evs|
  {
    if evs != [] {
      var p, q := At(s, evs[0]), Other(s, evs[0]);
      DeliveredOk(p, q, evs[0].act);
      SegmentsIff(p, q, Delivered(q, evs[0].act));
      if HarmlessEvent(s, evs[0]) {
        StepKeeps(s, evs[0]);
        RunIff(Step(true, s, evs[0]), evs[1..]);
      }
    }
  }

  // ---------------------------------------------------------------- recent numbers are never misread

  /** No number carried by the segment was assigned more than 2^31 numbers ago. `mine` counts what the
      endpoint reading it has numbered, `theirs` what its peer has. */
  ghost predicate Fresh(w: Wire, mine: nat, theirs: nat) {
    && mine - w.una <= TWO31
    && (w.cmd == CMD_ACK ==> mine - w.sn <= TWO31)
    && (w.cmd == CMD_PUSH ==> theirs - w.sn <= TWO31)
  }

  /** The peer has numbered nothing more than 2^31 numbers beyond the end of the receive window. */
  ghost predicate InReach(r: Rcv, theirs: nat) {
    theirs <= r.nxt + r.wnd + TWO31
  }

  ghost predicate FreshEvent(s: Sys, e: Event) {
    var ws := Delivered(Other(s, e), e.act);
    && (forall j | 0 <= j < |ws| :: Fresh(ws[j], |At(s, e).numbered|, |Other(s, e).numbered|))
    && (ws != [] ==> InReach(At(s, e).cb.rcv, |Other(s, e).numbered|))
  }

  /** No event of the run delivers a number that is more than 2^31 assignments old, or while others are out that lie
      more than 2^31 beyond the window. */
  ghost predicate FreshRun(s: Sys, evs: seq<Event>)
    requires s.a.cb.Mss() > 0 && s.b.cb.Mss() > 0
    decreases |evs|
  {
    evs == [] || (FreshEvent(s, evs[0]) && FreshRun(Step(true, s, evs[0]), evs[1..]))
  }

  lemma HeldIsNumbered(r: Rcv, numbered: seq<Frag>, k: nat)
    requires RcvBufOk(r, numbered) && Held(r, k)
    ensures k < |numbered|
  {
    if k >= r.nxt {
      var i :| 0 <= i < |r.buf| && r.buf[i].sn == k;
      assert RSegOk(r.buf[i], r.nxt, numbered);
    }
  }

  lemma FreshIsHarmless(p: Peer, q: Peer, w: Wire)
    requires HalvesOk(p, q) && RcvBufOk(q.cb.rcv, p.numbered)
    requires PushOk(w, q.numbered) && ReportOk(w, q.cb.rcv) && Fresh(w, |p.numbered|, |q.numbered|)
    ensures Harmless(p.cb, q.cb.rcv, w)
  {
    var s, r := p.cb.snd, p.cb.rcv;
    DiffExact(w.una, s.una);
    assert UnaSafe(s, w.una, q.cb.rcv);
    if w.cmd == CMD_ACK {
      assert w.sn < |p.numbered| by { HeldIsNumbered(q.cb.rcv, p.numbered, w.sn); }
      forall k: nat | s.una <= k < s.nxt && SameSn(k, w.sn) ensures Held(q.cb.rcv, k) {
        SameSnExact(k, w.sn);
      }
    } else if w.cmd == CMD_PUSH && w.sn < r.nxt {
      forall k: nat | r.nxt <= k < r.nxt + r.wnd ensures !SameSn(k, w.sn) {
        SameSnExact(k, w.sn);
      }
    }
  }

  lemma InputSegTrue(p: Peer, q: Peer, w: Wire)
    requires HalvesOk(p, q) && PushOk(w, q.numbered) && Harmless(p.cb, q.cb.rcv, w) && AcksOk(p.cb.rcv)
    requires InReach(p.cb.rcv, |q.numbered|)
    ensures var r := InputSeg(true, p.cb, w).rcv; AcksOk(r) && InReach(r, |q.numbered|)
  {
    InputSegKeeps(p, q, w);
    if w.cmd == CMD_PUSH {
      AcceptPushTrue(p.cb.rcv, q.numbered, p.popped, w);
      AcceptPushWnd(p.cb.rcv, w);
    }
  }

  lemma {:induction false} FreshSegsAreHarmless(p: Peer, q: Peer, ws: seq<Wire>)
    requires HalvesOk(p, q) && RcvBufOk(q.cb.rcv, p.numbered) && AcksOk(p.cb.rcv)
    requires InReach(p.cb.rcv, |q.numbered|)
    requires forall j | 0 <= j < |ws| :: && PushOk(ws[j], q.numbered) && ReportOk(ws[j], q.cb.rcv)
                                         && Fresh(ws[j], |p.numbered|, |q.numbered|)
    ensures HarmlessSegs(p.cb, q.cb.rcv, ws) && AcksOk(InputSegs(true, p.cb, ws).rcv)
    decreases |ws|
  {
    if ws != [] {
      FreshIsHarmless(p, q, ws[0]);
      InputSegKeeps(p, q, ws[0]);
      InputSegTrue(p, q, ws[0]);
      FreshSegsAreHarmless(p.(cb := InputSeg(true, p.cb, ws[0])), q, ws[1..]);
    }
  }

  /** A fresh event harms nothing, and what is said after it is true. */
  lemma FreshStep(s: Sys, e: Event)
    requires SysOk(s) && Truthful(s.a) && Truthful(s.b) && FreshEvent(s, e)
    ensures HarmlessEvent(s, e) && Truthful(Step(true, s, e).a) && Truthful(Step(true, s, e).b)
  {
    var p, q := At(s, e), Other(s, e);
    var ws := Delivered(q, e.act);
    DeliveredOk(p, q, e.act);
    if ws != [] {
      forall j | 0 <= j < |ws| ensures ReportOk(ws[j], q.cb.rcv) {
        assert ReportOk(q.out[e.act.i][j], q.cb.rcv);
      }
      FreshSegsAreHarmless(p, q, ws);
      StepPeerKeeps(p, q, e.act);
      ReportsStay(p.out, p.cb.rcv, StepPeer(true, p, q, e.act).cb.rcv);
    } else {
      StepPeerKeeps(p, q, e.act);
    }
  }

  lemma {:induction false} FreshRunIsHarmless(s: Sys, evs: seq<Event>)
    requires SysOk(s) && Truthful(s.a) && Truthful(s.b) && FreshRun(s, evs)
    ensures HarmlessRun(s, evs)
    decreases |evs|
  {
    if evs != [] {
      FreshStep(s, evs[0]);
      StepKeeps(s, evs[0]);
      FreshRunIsHarmless(Step(true, s, evs[0]), evs[1..]);
    }
  }

  lemma StepNumbers(wide: bool, s: Sys, e: Event)
    requires s.a.cb.Mss() > 0 && s.b.cb.Mss() > 0
    ensures var t := Step(wide, s, e); s.a.numbered <= t.a.numbered && s.b.numbered <= t.b.numbered
  {
  }

  lemma {:induction false} RunNumbers(s: Sys, evs: seq<Event>)
    requires s.a.cb.Mss() > 0 && s.b.cb.Mss() > 0
    ensures var t := Run(true, s, evs); |s.a.numbered| <= |t.a.numbered| && |s.b.numbered| <= |t.b.numbered|
    decreases |evs|
  {
    if evs != [] {
      StepNumbers(true, s, evs[0]);
      RunNumbers(Step(true, s, evs[0]), evs[1..]);
    }
  }

  /** A run that numbers at most 2^31 segments in each direction cannot deliver anything too old. */
  lemma {:induction false} ShortRunIsFresh(s: Sys, evs: seq<Event>)
    requires s.a.cb.Mss() > 0 && s.b.cb.Mss() > 0
    requires |Run(true, s, evs).a.numbered| <= TWO31 && |Run(true, s, evs).b.numbered| <= TWO31
    ensures FreshRun(s, evs)
    decreases |evs|
  {
    if evs != [] {
      RunNumbers(s, evs);
      ShortRunIsFresh(Step(true, s, evs[0]), evs[1..]);
    }
  }
}
