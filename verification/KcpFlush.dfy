/** What one `ikcp_flush` does, said in the fields of the control block before and after it and not in the
    functions of its loops: what the window lets go, which segments are sent and why, what each header says, and
    what becomes of a segment that was sent, of the probes and of the congestion window. */
module KcpFlush {
  import opened LittleEndian
  import opened KcpArith
  import opened KcpWire
  import opened KcpModel
  import opened KcpDatagrams
  import opened KcpTimers

  // ---------------------------------------------------------------- the window

  /** `window` is the least of `snd_wnd`, `rmt_wnd` and, unless it is switched off, `cwnd`. */
  predicate LeastWindow(c: Ctl, window: nat) {
    && window <= c.sndWnd && window <= c.rmtWnd && (c.nocwnd || window <= c.cwnd)
    && (window == c.sndWnd || window == c.rmtWnd || (!c.nocwnd && window == c.cwnd))
  }

  /** The send buffer of a flush after it has numbered what the window lets go, before anything is sent. */
  function Outgoing(wide: bool, cb: Cb): seq<Seg> {
    Filled(wide, cb.snd, ProbeTimer(cb.ctl)).buf
  }

  lemma NextDiff(wide: bool, n: nat, end: nat)
    requires ITimeDiff(n, end) < 0
    ensures ITimeDiff(Succ(wide, n), end) == ITimeDiff(n, end) + 1
  {
    var k := Turns(n, end);
    DiffOfTurns(n + 1, end, k, ITimeDiff(n, end) + 1);
    DiffOfTurns(U32Of(n + 1), end, k - (n + 1) / TWO32, ITimeDiff(n, end) + 1);
  }

  lemma SuccSame(wide: bool, n: nat, i: nat)
    ensures SameSn(Succ(wide, n) + i, n + 1 + i)
  {
    DiffOfReduced(n + 1, 0, 0);
    assert U32Of(U32Of(n + 1) + i) == U32Of(n + 1 + i);
  }

  /** A fragment that has its number and was not sent yet. */
  predicate NewEntry(g: Seg, sn: nat, f: Frag) {
    SameSn(g.sn, sn) && g.frag == f && g.xmit == 0 && g.fastack == 0
  }

  /** What `FillWindow` makes of `s`: the first `n` fragments of the queue are numbered and appended. */
  predicate Numbered(s: Snd, t: Snd, n: nat) {
    && n <= |s.queue| && t.una == s.una && t.queue == s.queue[n..] && SameSn(t.nxt, s.nxt + n)
    && |t.buf| == |s.buf| + n && t.buf[..|s.buf|] == s.buf
    && (forall i | 0 <= i < n :: NewEntry(t.buf[|s.buf| + i], s.nxt + i, s.queue[i]))
  }

  lemma NumberedMore(wide: bool, s: Snd, g: Seg, t: Snd, n: nat)
    requires s.queue != [] && NewEntry(g, s.nxt, s.queue[0])
    requires Numbered(s.(queue := s.queue[1..], nxt := Succ(wide, s.nxt), buf := s.buf + [g]), t, n)
    ensures Numbered(s, t, n + 1)
  {
    hide U32Of;
    var s1 := s.(queue := s.queue[1..], nxt := Succ(wide, s.nxt), buf := s.buf + [g]);
    SuccSame(wide, s.nxt, n);
    assert t.buf[..|s.buf|] == t.buf[..|s1.buf|][..|s.buf|];
    assert t.buf[|s.buf|] == t.buf[..|s1.buf|][|s.buf|];
    forall i | 0 < i < n + 1 ensures NewEntry(t.buf[|s.buf| + i], s.nxt + i, s.queue[i]) {
      assert NewEntry(t.buf[|s1.buf| + (i - 1)], s1.nxt + (i - 1), s1.queue[i - 1]);
      SuccSame(wide, s.nxt, i - 1);
    }
  }

  lemma {:induction false} FillMoves(wide: bool, s: Snd, window: U32, now: U32, rto: U32)
    ensures Numbered(s, FillWindow(wide, s, window, now, rto),
                     Min(|s.queue|, Max(0, -ITimeDiff(s.nxt, s.una + window))))
    decreases |s.queue|
  {
    hide ITimeDiff, U32Of;
    if ITimeDiff(s.nxt, s.una + window) < 0 && s.queue != [] {
      var g := Seg(s.nxt, s.queue[0], now, rto, 0, 0);
      var s1 := s.(queue := s.queue[1..], nxt := Succ(wide, s.nxt), buf := s.buf + [g]);
      NextDiff(wide, s.nxt, s.una + window);
      FillMoves(wide, s1, window, now, rto);
      NumberedMore(wide, s, g, FillWindow(wide, s, window, now, rto),
                   Min(|s1.queue|, Max(0, -ITimeDiff(s1.nxt, s1.una + window))));
    }
  }

  /** A flush numbers as many fragments as the window has room for behind what is under way, or all there are. */
  lemma WindowMoves(wide: bool, cb: Cb, window: nat)
    requires cb.ctl.updated && LeastWindow(cb.ctl, window)
    ensures var s, t := cb.snd, Flush(wide, cb).cb.snd;
            && Numbered(s, t.(buf := Outgoing(wide, cb)), Min(|s.queue|, Max(0, -ITimeDiff(s.nxt, s.una + window))))
            && |t.buf| == |Outgoing(wide, cb)|
  {
    hide ITimeDiff, U32Of, AfterSending, FlushWires, Pack, Transmit, Numbered;
    var c := ProbeTimer(cb.ctl);
    assert SendWindow(c) == window;
    FillMoves(wide, cb.snd, window, c.current, c.rxRto);
    var f := Filled(wide, cb.snd, c);
    assert Flush(wide, cb).cb.snd.(buf := f.buf) == f;
  }

  // ---------------------------------------------------------------- what is put out

  lemma OutIs(wide: bool, cb: Cb)
    requires cb.ctl.updated
    ensures Concat(Flush(wide, cb).out) == FlushWires(cb, ProbeTimer(cb.ctl), Outgoing(wide, cb))
  {
    hide FlushWires, AfterSending, ProbeTimer, FillWindow;
    var ws := FlushWires(cb, ProbeTimer(cb.ctl), Outgoing(wide, cb));
    PackConcat([], ws, cb.mtu);
    assert [] + ws == ws;
  }

  lemma PushWiresSnoc(conv: U32, buf: seq<Seg>, g: Seg, c: Ctl, wnd: U16, una: nat)
    ensures PushWires(conv, buf + [g], c, wnd, una)
            == PushWires(conv, buf, c, wnd, una) + PushWire(conv, g, c, wnd, una)
    decreases |buf|
  {
    hide PushWire;
    if buf == [] {
      assert [] + PushWire(conv, g, c, wnd, una) == PushWire(conv, g, c, wnd, una) + [];
    } else {
      assert (buf + [g])[1..] == buf[1..] + [g];
      PushWiresSnoc(conv, buf[1..], g, c, wnd, una);
    }
  }

  /** Segment `g` goes out at time `now`: for the first time, because its timer ran out, or because it was passed
      over by as many acknowledgements as the fast resend setting says. The last case is that setting 0, which
      stands for 2^32 - 1. */
  predicate Due(g: Seg, now: U32, fastresend: U32) {
    || g.xmit == 0
    || ITimeDiff(now, g.resendts) >= 0
    || (fastresend > 0 && g.fastack >= fastresend)
    || g.fastack == 0xffff_ffff
  }

  lemma DueIs(g: Seg, c: Ctl)
    ensures Reason(g, c) != Rest <==> Due(g, c.current, c.fastresend)
  {
    hide ITimeDiff;
  }

  /** `due` lists the entries that are due, each once and in order. */
  predicate DueIn(buf: seq<Seg>, due: seq<nat>, now: U32, fastresend: U32) {
    && (forall j, k | 0 <= j < k < |due| :: due[j] < due[k])
    && (forall k | 0 <= k < |due| :: due[k] < |buf| && Due(buf[due[k]], now, fastresend))
    && (forall i | 0 <= i < |buf| && Due(buf[i], now, fastresend) :: i in due)
  }

  lemma DueSnoc(buf: seq<Seg>, g: Seg, due: seq<nat>, now: U32, fastresend: U32)
    requires DueIn(buf, due, now, fastresend)
    ensures DueIn(buf + [g], if Due(g, now, fastresend) then due + [|buf|] else due, now, fastresend)
  {
    hide Due;
    var due1 := if Due(g, now, fastresend) then due + [|buf|] else due;
    assert forall k | 0 <= k < |due| :: (buf + [g])[due[k]] == buf[due[k]] && due1[k] == due[k];
    forall i | 0 <= i < |buf| + 1 && Due((buf + [g])[i], now, fastresend) ensures i in due1 {
      if i == |buf| {
        assert due1[|due|] == i;
      } else {
        assert i in due;
      }
    }
  }

  predicate CarryOne(w: Wire, g: Seg, conv: U32, now: U32, room: U16, una: nat) {
    w == Wire(conv, 81, g.frag.frg, room, now, g.sn, una, g.frag.data)
  }

  /** The segments `ws` carry the entries that `due` lists. */
  predicate Carry(ws: seq<Wire>, buf: seq<Seg>, due: seq<nat>, conv: U32, now: U32, room: U16, una: nat) {
    && |ws| == |due|
    && (forall k | 0 <= k < |due| :: due[k] < |buf| && CarryOne(ws[k], buf[due[k]], conv, now, room, una))
  }

  lemma CarrySnoc(ws: seq<Wire>, buf: seq<Seg>, due: seq<nat>, g: Seg, c: Ctl, conv: U32, room: U16, una: nat)
    requires Carry(ws, buf, due, conv, c.current, room, una)
    ensures Carry(ws + PushWire(conv, g, c, room, una), buf + [g],
                  if Due(g, c.current, c.fastresend) then due + [|buf|] else due, conv, c.current, room, una)
  {
    DueIs(g, c);
    hide Due, Reason;
    var ws1, due1 := ws + PushWire(conv, g, c, room, una),
        if Due(g, c.current, c.fastresend) then due + [|buf|] else due;
    forall k | 0 <= k < |due1|
      ensures due1[k] < |buf + [g]| && CarryOne(ws1[k], (buf + [g])[due1[k]], conv, c.current, room, una)
    {
      if k < |due| {
        assert due1[k] == due[k] && ws1[k] == ws[k];
      }
    }
  }

  /** The data segments are those of the entries that are due, in the order of the buffer. */
  lemma {:induction false} PushesAre(conv: U32, buf: seq<Seg>, c: Ctl, room: U16, una: nat) returns (due: seq<nat>)
    ensures DueIn(buf, due, c.current, c.fastresend)
    ensures Carry(PushWires(conv, buf, c, room, una), buf, due, conv, c.current, room, una)
    decreases |buf|
  {
    if buf == [] {
      due := [];
    } else {
      hide Due, DueIn, Carry, PushWire, PushWires;
      var n := |buf| - 1;
      assert buf == buf[..n] + [buf[n]];
      var due0 := PushesAre(conv, buf[..n], c, room, una);
      PushWiresSnoc(conv, buf[..n], buf[n], c, room, una);
      DueSnoc(buf[..n], buf[n], due0, c.current, c.fastresend);
      CarrySnoc(PushWires(conv, buf[..n], c, room, una), buf[..n], due0, buf[n], c, conv, room, una);
      due := if Due(buf[n], c.current, c.fastresend) then due0 + [n] else due0;
    }
  }

  lemma Asks(c: Ctl)
    ensures ProbeTimer(c).askSend <==> c.askSend || ProbeDue(c)
    ensures ProbeTimer(c).askTell == c.askTell
    ensures ProbeTimer(c).current == c.current && ProbeTimer(c).fastresend == c.fastresend
  {
  }

  lemma Room(r: Rcv)
    ensures WndUnused(r) == (if |r.queue| < r.wnd then r.wnd - |r.queue| else 0) % 0x1_0000
  {
  }

  lemma ThreeParts(cb: Cb, c: Ctl, b: seq<Seg>, ctrl: seq<Wire>, pushes: seq<Wire>)
    requires ctrl == AckWires(cb) + ProbeWires(cb, c.askSend, c.askTell)
    requires pushes == PushWires(cb.conv, b, c, WndUnused(cb.rcv), cb.rcv.nxt)
    ensures var ws := FlushWires(cb, c, b);
            |ctrl| <= |ws| && ws[..|ctrl|] == ctrl && ws[|ctrl|..] == pushes
  {
    hide AckWires, ProbeWires, PushWires, WndUnused;
    assert (ctrl + pushes)[|ctrl|..] == pushes && (ctrl + pushes)[..|ctrl|] == ctrl;
  }

  /** The segments `ws` are the pending acknowledgements of `cb` in arrival order, then a window request if `ask`,
      then a window notice if `tell`; the probes repeat number and time of the last acknowledgement. */
  predicate Control(ws: seq<Wire>, cb: Cb, room: U16, ask: bool, tell: bool) {
    var acks := cb.rcv.acks;
    var last := if acks == [] then Ack(0, 0) else acks[|acks| - 1];
    && |ws| == |acks| + (if ask then 1 else 0) + (if tell then 1 else 0)
    && (forall i | 0 <= i < |acks| :: ws[i] == Wire(cb.conv, 82, 0, room, acks[i].ts, acks[i].sn, cb.rcv.nxt, []))
    && (ask ==> ws[|acks|] == Wire(cb.conv, 83, 0, room, last.ts, last.sn, cb.rcv.nxt, []))
    && (tell ==> ws[|ws| - 1] == Wire(cb.conv, 84, 0, room, last.ts, last.sn, cb.rcv.nxt, []))
  }

  lemma ControlIs(cb: Cb, c: Ctl)
    ensures Control(AckWires(cb) + ProbeWires(cb, c.askSend, c.askTell), cb, WndUnused(cb.rcv), c.askSend, c.askTell)
  {
  }

  /** Everything one flush puts out, segment by segment: acknowledgements and probes, then the entries of the send
      buffer that are due, in order. Each segment advertises the room left in the receive queue, in 16 bits, and
      acknowledges all below `rcv_nxt`. A window request goes out exactly if one is due. */
  lemma FlushPuts(wide: bool, cb: Cb) returns (k: nat, due: seq<nat>)
    requires cb.ctl.updated
    ensures DueIn(Outgoing(wide, cb), due, cb.ctl.current, cb.ctl.fastresend)
    ensures var ws := Concat(Flush(wide, cb).out);
            var room := (if |cb.rcv.queue| < cb.rcv.wnd then cb.rcv.wnd - |cb.rcv.queue| else 0) % 0x1_0000;
            && k <= |ws| && Control(ws[..k], cb, room, cb.ctl.askSend || ProbeDue(cb.ctl), cb.ctl.askTell)
            && Carry(ws[k..], Outgoing(wide, cb), due, cb.conv, cb.ctl.current, room, cb.rcv.nxt)
  {
    hide Flush, Outgoing, PushWires, DueIn, Concat, ProbeDue, Carry, Control, AckWires, ProbeWires, ProbeTimer;
    hide FlushWires, WndUnused;
    var c, b, room := ProbeTimer(cb.ctl), Outgoing(wide, cb), WndUnused(cb.rcv);
    Room(cb.rcv);
    Asks(cb.ctl);
    OutIs(wide, cb);
    ControlIs(cb, c);
    var ctrl, pushes := AckWires(cb) + ProbeWires(cb, c.askSend, c.askTell), PushWires(cb.conv, b, c, room, cb.rcv.nxt);
    ThreeParts(cb, c, b, ctrl, pushes);
    k := |ctrl|;
    due := PushesAre(cb.conv, b, c, room, cb.rcv.nxt);
  }

  lemma CarriedIff(ws: seq<Wire>, b: seq<Seg>, due: seq<nat>, c: Cb, room: U16, now: U32, fastresend: U32, sn: nat)
    requires DueIn(b, due, now, fastresend) && Carry(ws, b, due, c.conv, now, room, c.rcv.nxt)
    ensures (exists w :: w in ws && w.sn == sn)
            <==> exists i | 0 <= i < |b| :: b[i].sn == sn && Due(b[i], now, fastresend)
    ensures forall w | w in ws :: w.cmd == 81
  {
    hide Due;
    if i :| 0 <= i < |b| && b[i].sn == sn && Due(b[i], now, fastresend) {
      var k :| 0 <= k < |due| && due[k] == i;
      assert ws[k] in ws && CarryOne(ws[k], b[due[k]], c.conv, now, room, c.rcv.nxt);
    }
    forall w | w in ws ensures w.cmd == 81 && exists i | 0 <= i < |b| :: b[i].sn == w.sn && Due(b[i], now, fastresend) {
      var k :| 0 <= k < |ws| && ws[k] == w;
      assert CarryOne(ws[k], b[due[k]], c.conv, now, room, c.rcv.nxt) && Due(b[due[k]], now, fastresend);
    }
  }

  lemma ControlIsNoData(ws: seq<Wire>, cb: Cb, room: U16, ask: bool, tell: bool)
    requires Control(ws, cb, room, ask, tell)
    ensures forall w | w in ws :: w.cmd != 81
  {
  }

  /** A data segment with number `sn` goes out exactly if the send buffer has an entry with that number that was
      never sent, whose timer has run out, or that was passed over by enough acknowledgements. */
  lemma PushGoesOutIff(wide: bool, cb: Cb, sn: nat)
    requires cb.ctl.updated
    ensures var b, now, limit := Outgoing(wide, cb), cb.ctl.current, cb.ctl.fastresend;
            (exists w :: w in Concat(Flush(wide, cb).out) && w.cmd == CMD_PUSH && w.sn == sn)
            <==>
            exists i | 0 <= i < |b| :: b[i].sn == sn
                 && (b[i].xmit == 0 || ITimeDiff(now, b[i].resendts) >= 0
                     || (limit > 0 && b[i].fastack >= limit) || b[i].fastack == 0xffff_ffff)
  {
    hide Outgoing, Flush, Concat, DueIn, Carry, ProbeDue, ITimeDiff, WndUnused, Control;
    var k, due := FlushPuts(wide, cb);
    var ws, b := Concat(Flush(wide, cb).out), Outgoing(wide, cb);
    Room(cb.rcv);
    ControlIsNoData(ws[..k], cb, WndUnused(cb.rcv), cb.ctl.askSend || ProbeDue(cb.ctl), cb.ctl.askTell);
    CarriedIff(ws[k..], b, due, cb, WndUnused(cb.rcv), cb.ctl.current, cb.ctl.fastresend, sn);
    assert ws == ws[..k] + ws[k..];
    assert forall w :: w in ws <==> w in ws[..k] || w in ws[k..];
  }

  // ---------------------------------------------------------------- what a flush leaves

  /** The probe timer leaves every other field alone. */
  lemma SameSettings(c: Ctl)
    ensures var d := ProbeTimer(c);
            d == c.(tsProbe := d.tsProbe, probeWait := d.probeWait, askSend := d.askSend)
  {
    hide ITimeDiff, U32Of;
    if c.rmtWnd == 0 && c.probeWait != 0 {
      var d := ProbeTimer(c);
    }
  }

  lemma TransmitIs(g: Seg, c: Ctl)
    ensures var h, due := Transmit(g, c), Due(g, c.current, c.fastresend);
            var timeout := ITimeDiff(c.current, g.resendts) >= 0;
            && h.sn == g.sn && h.frag == g.frag && (!due ==> h == g)
            && (due ==> h.xmit == (g.xmit + 1) % 0x1_0000_0000)
            && (g.xmit == 0 ==>
                  && h.rto == c.rxRto && h.fastack == g.fastack
                  && h.resendts == (c.current + c.rxRto + if c.nodelay then 0 else c.rxRto / 8) % 0x1_0000_0000)
            && (g.xmit != 0 && timeout ==>
                  && h.rto == (g.rto + if c.nodelay then c.rxRto / 2 else c.rxRto) % 0x1_0000_0000
                  && h.resendts == (c.current + h.rto) % 0x1_0000_0000 && h.fastack == g.fastack)
            && (g.xmit != 0 && !timeout && due ==>
                  && h.rto == g.rto && h.resendts == (c.current + h.rto) % 0x1_0000_0000 && h.fastack == 0)
  {
    hide ITimeDiff;
  }

  /** What a flush makes of an entry of the send buffer. A segment that is sent counts one transmission more. The
      first time its timer is set to `rx_rto`, and an eighth more unless there is no delay; on a timeout `rto` grows
      by `rx_rto`, or half of it without delay; a fast resend starts the same timer again and forgets the
      acknowledgements that passed it over. A segment that is not sent stays as it is. */
  lemma EntryAfter(wide: bool, cb: Cb, i: nat)
    requires cb.ctl.updated && i < |Outgoing(wide, cb)|
    ensures i < |Flush(wide, cb).cb.snd.buf|
    ensures var c, g, h := cb.ctl, Outgoing(wide, cb)[i], Flush(wide, cb).cb.snd.buf[i];
            var timeout := ITimeDiff(c.current, g.resendts) >= 0;
            var due := Due(g, c.current, c.fastresend);
            && h.sn == g.sn && h.frag == g.frag
            && (!due ==> h == g)
            && (due ==> h.xmit == (g.xmit + 1) % 0x1_0000_0000)
            && (g.xmit == 0 ==>
                  && h.rto == c.rxRto && h.fastack == g.fastack
                  && h.resendts == (c.current + c.rxRto + if c.nodelay then 0 else c.rxRto / 8) % 0x1_0000_0000)
            && (g.xmit != 0 && timeout ==>
                  && h.rto == (g.rto + if c.nodelay then c.rxRto / 2 else c.rxRto) % 0x1_0000_0000
                  && h.resendts == (c.current + h.rto) % 0x1_0000_0000 && h.fastack == g.fastack)
            && (g.xmit != 0 && !timeout && due ==>
                  && h.rto == g.rto && h.resendts == (c.current + h.rto) % 0x1_0000_0000 && h.fastack == 0)
  {
    hide ITimeDiff, FlushWires, Pack, AfterSending, Filled, Due, Transmit, ProbeTimer;
    var g, c := Outgoing(wide, cb)[i], ProbeTimer(cb.ctl);
    SameSettings(cb.ctl);
    TransmitIs(g, c);
    assert Flush(wide, cb).cb.snd.buf[i] == Transmit(g, c);
  }

  lemma TimerRuns(now: U32, wait: U32, later: U32)
    requires wait < TWO31 && ITimeDiff(later, now) >= 0
    ensures ITimeDiff(later, (now + wait) % 0x1_0000_0000) == ITimeDiff(later, now) - wait
  {
    var k := Turns(later, now);
    var j := (now + wait) / TWO32;
    DiffOfTurns(later, (now + wait) % TWO32, k + j, ITimeDiff(later, now) - wait);
  }

  lemma WaitIs(wide: bool, cb: Cb, i: nat, wait: U32)
    requires cb.ctl.updated && i < |Outgoing(wide, cb)| && i < |Flush(wide, cb).cb.snd.buf|
    requires Due(Outgoing(wide, cb)[i], cb.ctl.current, cb.ctl.fastresend)
    requires wait == Flush(wide, cb).cb.snd.buf[i].rto
                     + if Outgoing(wide, cb)[i].xmit == 0 && !cb.ctl.nodelay then cb.ctl.rxRto / 8 else 0
    ensures Flush(wide, cb).cb.snd.buf[i].resendts == (cb.ctl.current + wait) % 0x1_0000_0000
  {
    hide ITimeDiff, Flush, Outgoing, Due;
    EntryAfter(wide, cb, i);
  }

  /** A segment that was just sent is due again when its timer has run for `wait` milliseconds and not before, unless
      acknowledgements pass it over. The wait is `rto`, and an eighth of `rx_rto` more after the first time. */
  lemma DueAgain(wide: bool, cb: Cb, i: nat, later: U32, wait: U32)
    requires cb.ctl.updated && i < |Outgoing(wide, cb)| && i < |Flush(wide, cb).cb.snd.buf|
    requires Due(Outgoing(wide, cb)[i], cb.ctl.current, cb.ctl.fastresend)
    requires wait == Flush(wide, cb).cb.snd.buf[i].rto
                     + if Outgoing(wide, cb)[i].xmit == 0 && !cb.ctl.nodelay then cb.ctl.rxRto / 8 else 0
    requires wait < TWO31 && ITimeDiff(later, cb.ctl.current) >= 0
    ensures var h, limit := Flush(wide, cb).cb.snd.buf[i], cb.ctl.fastresend;
            h.xmit != 0 && h.fastack != 0xffff_ffff && (limit == 0 || h.fastack < limit) ==>
              (Due(h, later, limit) <==> ITimeDiff(later, cb.ctl.current) >= wait)
  {
    WaitIs(wide, cb, i, wait);
    hide ITimeDiff, Flush, Outgoing;
    TimerRuns(cb.ctl.current, wait, later);
  }

  // ---------------------------------------------------------------- congestion

  lemma {:induction false} CountSnoc(b: seq<Seg>, g: Seg, c: Ctl, why: Why)
    ensures CountWhy(b + [g], c, why) == CountWhy(b, c, why) + if Reason(g, c) == why then 1 else 0
    decreases |b|
  {
    hide Reason;
    if b != [] {
      assert (b + [g])[1..] == b[1..] + [g];
      CountSnoc(b[1..], g, c, why);
    }
  }

  /** The entries that are sent for the reason `why`. */
  function Sent(b: seq<Seg>, c: Ctl, why: Why): set<int> {
    set i | 0 <= i < |b| && Reason(b[i], c) == why
  }

  lemma SentSnoc(b: seq<Seg>, g: Seg, c: Ctl, why: Why)
    ensures |Sent(b + [g], c, why)| == |Sent(b, c, why)| + if Reason(g, c) == why then 1 else 0
  {
    hide Reason;
    assert forall i | 0 <= i < |b| :: (b + [g])[i] == b[i];
    assert Sent(b + [g], c, why) == if Reason(g, c) == why then Sent(b, c, why) + {|b|} else Sent(b, c, why);
  }

  lemma {:induction false} CountIsSize(b: seq<Seg>, c: Ctl, why: Why)
    ensures CountWhy(b, c, why) == |Sent(b, c, why)|
    decreases |b|
  {
    if b != [] {
      hide Reason, CountWhy, Sent;
      var n := |b| - 1;
      CountIsSize(b[..n], c, why);
      CountSnoc(b[..n], b[n], c, why);
      SentSnoc(b[..n], b[n], c, why);
      assert b == b[..n] + [b[n]];
    }
  }

  /** The entries that are sent again because their timer has run out. */
  function Overdue(b: seq<Seg>, now: U32): set<int> {
    set i | 0 <= i < |b| && b[i].xmit != 0 && ITimeDiff(now, b[i].resendts) >= 0
  }

  /** Entry `g` is sent again early because it was passed over. */
  predicate PassedOver(g: Seg, now: U32, fastresend: U32) {
    g.xmit != 0 && ITimeDiff(now, g.resendts) < 0 && Due(g, now, fastresend)
  }

  lemma CongestIs(c: Ctl, mss: nat, inflight: U32, window: U32, fast: bool, lost: bool)
    ensures var d, half := Congest(c, mss, inflight, window, fast, lost), Max(inflight / 2, 2);
            var resend := if c.fastresend > 0 then c.fastresend else 0xffff_ffff;
            && d.xmit == c.xmit && d.dead == c.dead
            && (lost ==> d.ssthresh == Max(window / 2, 2) && d.cwnd == 1 && d.incr == mss % 0x1_0000_0000)
            && (!lost && fast ==>
                  && d.ssthresh == half && d.cwnd == Max((half + resend) % 0x1_0000_0000, 1)
                  && d.incr == d.cwnd * mss % 0x1_0000_0000)
            && (!lost && !fast ==>
                  && d.ssthresh == c.ssthresh && d.cwnd == Max(c.cwnd, 1)
                  && d.incr == if c.cwnd == 0 then mss % 0x1_0000_0000 else c.incr)
  {
  }

  lemma WhyIs(g: Seg, c: Ctl)
    ensures Reason(g, c) == Timeout <==> g.xmit != 0 && ITimeDiff(c.current, g.resendts) >= 0
    ensures Reason(g, c) == Fast <==> PassedOver(g, c.current, c.fastresend)
    ensures Dies(g, c) <==> Due(g, c.current, c.fastresend) && (g.xmit + 1) % 0x1_0000_0000 >= c.deadLink
  {
    hide ITimeDiff;
  }

  lemma CountsAre(b: seq<Seg>, c: Ctl)
    ensures CountWhy(b, c, Timeout) == |Overdue(b, c.current)|
    ensures CountWhy(b, c, Fast) > 0 <==> exists i | 0 <= i < |b| :: PassedOver(b[i], c.current, c.fastresend)
    ensures DeadLink(b, c) <==> exists i | 0 <= i < |b| ::
              Due(b[i], c.current, c.fastresend) && (b[i].xmit + 1) % 0x1_0000_0000 >= c.deadLink
  {
    hide Reason, ITimeDiff, Due, PassedOver, Dies;
    forall i | 0 <= i < |b|
      ensures Reason(b[i], c) == Timeout <==> i in Overdue(b, c.current)
      ensures Reason(b[i], c) == Fast <==> PassedOver(b[i], c.current, c.fastresend)
      ensures Dies(b[i], c) <==> Due(b[i], c.current, c.fastresend) && (b[i].xmit + 1) % 0x1_0000_0000 >= c.deadLink
    {
      WhyIs(b[i], c);
    }
    CountIsSize(b, c, Timeout);
    CountIsSize(b, c, Fast);
    assert Sent(b, c, Timeout) == Overdue(b, c.current);
    assert Sent(b, c, Fast) != {} <==> exists i | 0 <= i < |b| :: Reason(b[i], c) == Fast;
  }

  /** The congestion state of a flush with something lost: half of the window it had, but at least 2, becomes the
      threshold, and the window falls back to one segment. After an early resend alone the threshold is half of
      what is under way, at least 2, and the window that much and the fast resend setting. Otherwise nothing
      changes, but a window of 0 becomes 1. Every timeout is counted, and the link is dead once a segment was sent
      as often as the limit says. */
  lemma CongestionAfter(wide: bool, cb: Cb, window: nat)
    requires cb.ctl.updated && LeastWindow(cb.ctl, window)
    ensures var b, f := Outgoing(wide, cb), Flush(wide, cb).cb;
            var c, d, mss := cb.ctl, f.ctl, cb.Mss();
            var lost := Overdue(b, c.current);
            var fast := exists i | 0 <= i < |b| :: PassedOver(b[i], c.current, c.fastresend);
            var resend := if c.fastresend > 0 then c.fastresend else 0xffff_ffff;
            var half := Max((f.snd.nxt - f.snd.una) % 0x1_0000_0000 / 2, 2);
            && d.xmit == (c.xmit + |lost|) % 0x1_0000_0000
            && (lost != {} ==> d.ssthresh == Max(window / 2, 2) && d.cwnd == 1 && d.incr == mss % 0x1_0000_0000)
            && (lost == {} && fast ==>
                  && d.ssthresh == half && d.cwnd == Max((half + resend) % 0x1_0000_0000, 1)
                  && d.incr == d.cwnd * mss % 0x1_0000_0000)
            && (lost == {} && !fast ==>
                  && d.ssthresh == c.ssthresh && d.cwnd == Max(c.cwnd, 1)
                  && d.incr == if c.cwnd == 0 then mss % 0x1_0000_0000 else c.incr)
            && (d.dead <==> c.dead || exists i | 0 <= i < |b| ::
                  Due(b[i], c.current, c.fastresend) && (b[i].xmit + 1) % 0x1_0000_0000 >= c.deadLink)
  {
    hide ITimeDiff, Congest, CountWhy, DeadLink, Due, PassedOver, FlushWires, Pack, ProbeTimer, Filled, Overdue;
    var c, s := ProbeTimer(cb.ctl), Filled(wide, cb.snd, ProbeTimer(cb.ctl));
    SameSettings(cb.ctl);
    CountsAre(s.buf, c);
    var lost := CountWhy(s.buf, c, Timeout);
    CongestIs(Resent(Probed(c), lost, DeadLink(s.buf, c)), cb.Mss(), U32Of(s.nxt - s.una), window,
              CountWhy(s.buf, c, Fast) > 0, lost > 0);
  }

  /** Before the first `ikcp_update` a flush does nothing. Afterwards it has sent all acknowledgements and probes, and
      beyond the send half and the congestion state it changes nothing but the probe timer. */
  lemma NothingElse(wide: bool, cb: Cb)
    ensures !cb.ctl.updated ==> Flush(wide, cb) == FlushResult(cb, [])
    ensures var f, p := Flush(wide, cb).cb, ProbeTimer(cb.ctl);
            cb.ctl.updated ==>
              && f == cb.(snd := f.snd, rcv := cb.rcv.(acks := []), ctl := f.ctl)
              && f.ctl == cb.ctl.(tsProbe := p.tsProbe, probeWait := p.probeWait, askSend := false, askTell := false,
                                  ssthresh := f.ctl.ssthresh, cwnd := f.ctl.cwnd, incr := f.ctl.incr,
                                  xmit := f.ctl.xmit, dead := f.ctl.dead)
  {
    hide ITimeDiff, CountWhy, DeadLink, FlushWires, Pack, ProbeTimer, Filled, U32Of, ResendLimit, WndBytes;
    SameSettings(cb.ctl);
  }

  // ---------------------------------------------------------------- settings

  /** What the settings change for the next flush: windows of 0 or less are not taken, and the receive window that is
      advertised has at least 128 segments; no delay lowers the least timeout from 100 to 30, and negative settings
      are not taken. */
  lemma SettingsTake(cb: Cb, sndwnd: int, rcvwnd: int, nodelay: int, interval: int, resend: int, nc: int)
    requires sndwnd < TWO31 && rcvwnd < TWO31 && resend < TWO31
    ensures var w := WndSize(cb, sndwnd, rcvwnd);
            && w == cb.(ctl := cb.ctl.(sndWnd := w.ctl.sndWnd), rcv := cb.rcv.(wnd := w.rcv.wnd))
            && (if sndwnd > 0 then w.ctl.sndWnd == sndwnd else w == cb.(rcv := w.rcv))
            && (rcvwnd <= 0 ==> w.rcv == cb.rcv)
            && (0 < rcvwnd <= 128 ==> w.rcv.wnd == 128)
            && (rcvwnd > 128 ==> w.rcv.wnd == rcvwnd)
    ensures var d := NoDelay(cb, nodelay, interval, resend, nc).ctl;
            && NoDelay(cb, nodelay, interval, resend, nc)
               == cb.(ctl := cb.ctl.(nodelay := d.nodelay, rxMinrto := d.rxMinrto, interval := d.interval,
                                     fastresend := d.fastresend, nocwnd := d.nocwnd))
            && (nodelay > 0 ==> d.nodelay && d.rxMinrto == 30) && (nodelay == 0 ==> !d.nodelay && d.rxMinrto == 100)
            && (nodelay < 0 ==> d.nodelay == cb.ctl.nodelay && d.rxMinrto == cb.ctl.rxMinrto)
            && (10 <= interval <= 5000 ==> d.interval == interval) && (0 <= interval < 10 ==> d.interval == 10)
            && (interval > 5000 ==> d.interval == 5000) && (interval < 0 ==> d.interval == cb.ctl.interval)
            && (d.fastresend == if resend >= 0 then resend else cb.ctl.fastresend)
            && (nc > 0 ==> d.nocwnd) && (nc == 0 ==> !d.nocwnd) && (nc < 0 ==> d.nocwnd == cb.ctl.nocwnd)
  {
  }

  // ---------------------------------------------------------------- the first flights

  /** The control block at the first flush: new but for its queue and its clock. */
  predicate New(cb: Cb, t0: U32) {
    && cb.snd.una == 0 && cb.snd.nxt == 0 && cb.snd.buf == [] && cb.rcv.acks == []
    && cb.ctl == Create(cb.conv, cb.mtu, cb.stream).ctl.(current := t0, updated := true, tsFlush := U32Of(t0 + 100))
  }

  lemma FirstFlush(cb: Cb, t0: U32)
    requires New(cb, t0)
    ensures var f := Flush(false, cb);
            && f.out == [] && f.cb.snd == cb.snd && f.cb.rcv == cb.rcv
            && f.cb.ctl == cb.ctl.(cwnd := 1, incr := cb.Mss() % 0x1_0000_0000)
  {
    assert ProbeTimer(cb.ctl) == cb.ctl;
    assert Filled(false, cb.snd, cb.ctl) == cb.snd;
    assert FlushWires(cb, cb.ctl, []) == [];
    hide ProbeTimer, Filled, FlushWires;
  }

  lemma SecondFlush(cb: Cb, t1: U32)
    requires cb.snd.una == 0 && cb.snd.nxt == 0 && cb.snd.buf == [] && cb.snd.queue != [] && cb.rcv.acks == []
    requires cb.ctl.updated && cb.ctl.cwnd == 1 <= cb.ctl.sndWnd && cb.ctl.rmtWnd >= 1 && !cb.ctl.nocwnd
    requires cb.ctl.current == t1 && cb.ctl.rxRto == 200 && !cb.ctl.nodelay
    ensures var g := Flush(false, cb).cb.snd;
            && g.queue == cb.snd.queue[1..] && |g.buf| == 1 && U32Of(g.buf[0].sn) == 0
            && g.buf[0].rto == 200 && g.buf[0].resendts == U32Of(t1 + 225)
  {
    WindowMoves(false, cb, 1);
    EntryAfter(false, cb, 0);
  }

  /** A new endpoint holds its data back at the first flush, since its congestion window is still 0, and numbers one
      fragment at the second; without an answer that is due again after 225 milliseconds. */
  lemma SlowStart(conv: U32, mtu: nat, stream: bool, queue: seq<Frag>, t0: U32, t1: U32)
    requires queue != [] && 100 <= ITimeDiff(t1, t0) < 10000
    ensures var cb := Create(conv, mtu, stream);
            var f := Update(false, cb.(snd := cb.snd.(queue := queue)), t0);
            var g := Update(false, f.cb, t1).cb.snd;
            && f.out == [] && f.cb.snd.queue == queue && f.cb.ctl.cwnd == 1
            && g.queue == queue[1..] && |g.buf| == 1 && U32Of(g.buf[0].sn) == 0
            && g.buf[0].rto == 200 && g.buf[0].resendts == U32Of(t1 + 225)
  {
    hide Flush, ITimeDiff;
    var cb := Create(conv, mtu, stream).(snd := Snd(0, 0, queue, []));
    TickRule(cb.ctl, t0);
    FirstFlush(cb.(ctl := Tick(cb.ctl, t0).0), t0);
    var f := Update(false, cb, t0).cb;
    TimerRuns(t0, 100, t1);
    TickRule(f.ctl, t1);
    SecondFlush(f.(ctl := Tick(f.ctl, t1).0), t1);
  }
}
