/** What is true of the data in every run, whatever is misread: an endpoint only ever takes fragments that its peer
    numbered, each as it was, and the numbers recorded for them are theirs. */
module KcpGenuine {
  import opened LittleEndian
  import opened KcpArith
  import opened KcpWire
  import opened KcpModel
  import opened KcpQueues
  import opened KcpSystem
  import opened KcpInvariant
  import opened KcpSafety
  import opened KcpExact

  /** The fragments `fs` are those with the numbers `taken`. */
  ghost predicate FragsOf(numbered: seq<Frag>, taken: seq<nat>, fs: seq<Frag>) {
    |fs| == |taken| && forall i | 0 <= i < |taken| :: taken[i] < |numbered| && fs[i] == numbered[taken[i]]
  }

  /** The segments that wait in `rcv_buf` carry the fragments that were given their numbers. */
  ghost predicate Arrived(buf: seq<RSeg>, numbered: seq<Frag>) {
    forall i | 0 <= i < |buf| :: buf[i].sn < |numbered| && buf[i].frag == numbered[buf[i].sn]
  }

  /** One direction, from `p` to `q`, which has taken the numbers `taken`. */
  ghost predicate Genuine(p: Peer, q: Peer, taken: seq<nat>) {
    && p.cb.snd.nxt == |p.numbered| && BufNumbered(p.cb.snd.buf, p.numbered) && PushesOk(p.out, p.numbered)
    && |taken| == q.cb.rcv.nxt && Arrived(q.cb.rcv.buf, p.numbered)
    && FragsOf(p.numbered, taken, q.popped + q.cb.rcv.queue)
  }

  // ---------------------------------------------------------------- the receiver half

  lemma {:induction false} ReadyGenuine(r: Rcv, numbered: seq<Frag>, popped: seq<Frag>, taken: seq<nat>)
    requires Arrived(r.buf, numbered) && FragsOf(numbered, taken, popped + r.queue)
    ensures var t := MoveReady(true, r);
            Arrived(t.buf, numbered) && FragsOf(numbered, taken + ReadyNumbers(r), popped + t.queue)
    decreases |r.buf|
  {
    if r.buf != [] && SameSn(r.buf[0].sn, r.nxt) && |r.queue| < r.wnd {
      hide SameSn;
      var r1 := r.(nxt := Succ(true, r.nxt), queue := r.queue + [r.buf[0].frag], buf := r.buf[1..]);
      var taken1 := taken + [r.buf[0].sn];
      assert popped + r1.queue == popped + r.queue + [r.buf[0].frag];
      ReadyGenuine(r1, numbered, popped, taken1);
      assert taken + ([r.buf[0].sn] + ReadyNumbers(r1)) == taken1 + ReadyNumbers(r1);
    } else {
      assert taken + [] == taken;
    }
  }

  lemma SegGenuine(cb: Cb, w: Wire, numbered: seq<Frag>, popped: seq<Frag>, taken: seq<nat>)
    requires Arrived(cb.rcv.buf, numbered) && FragsOf(numbered, taken, popped + cb.rcv.queue) && PushOk(w, numbered)
    ensures var r := InputSeg(true, cb, w).rcv;
            Arrived(r.buf, numbered) && FragsOf(numbered, taken + SegNumbers(cb, w), popped + r.queue)
  {
    hide ITimeDiff, Insert, MoveReady, ReadyNumbers, Accepts, AcceptPush, FragsOf;
    assert taken + [] == taken;
    AcceptIs(cb.rcv, w);
    if w.cmd == CMD_PUSH && Accepts(cb.rcv, w.sn) {
      var g, r1 := RSeg(w.sn, Frag(w.frg, w.data)), Kept(cb.rcv, w);
      InsertMembers(cb.rcv.buf, g);
      forall i | 0 <= i < |r1.buf| ensures r1.buf[i].sn < |numbered| && r1.buf[i].frag == numbered[r1.buf[i].sn] {
        assert r1.buf[i] in r1.buf;
      }
      ReadyGenuine(r1, numbered, popped, taken);
    }
  }

  lemma {:induction false} SegsGenuine(cb: Cb, ws: seq<Wire>, numbered: seq<Frag>, popped: seq<Frag>, taken: seq<nat>)
    requires Arrived(cb.rcv.buf, numbered) && FragsOf(numbered, taken, popped + cb.rcv.queue)
    requires forall i | 0 <= i < |ws| :: PushOk(ws[i], numbered)
    ensures var r := InputSegs(true, cb, ws).rcv;
            Arrived(r.buf, numbered) && FragsOf(numbered, taken + SegsNumbers(cb, ws), popped + r.queue)
    decreases |ws|
  {
    hide FragsOf, Arrived, InputSeg, SegNumbers, PushOk;
    assert taken + [] == taken;
    if ws != [] {
      var c, more := InputSeg(true, cb, ws[0]), SegNumbers(cb, ws[0]);
      SegGenuine(cb, ws[0], numbered, popped, taken);
      SegsGenuine(c, ws[1..], numbered, popped, taken + more);
      assert taken + (more + SegsNumbers(c, ws[1..])) == taken + more + SegsNumbers(c, ws[1..]);
    }
  }

  lemma {:induction false} SegsLength(cb: Cb, ws: seq<Wire>)
    ensures |SegsNumbers(cb, ws)| == InputSegs(true, cb, ws).rcv.nxt - cb.rcv.nxt
    decreases |ws|
  {
    hide InputSeg, SegNumbers;
    if ws != [] {
      SegLength(cb, ws[0]);
      SegsLength(InputSeg(true, cb, ws[0]), ws[1..]);
    }
  }

  lemma RecvGenuine(r: Rcv, len: int, numbered: seq<Frag>, popped: seq<Frag>, taken: seq<nat>)
    requires Arrived(r.buf, numbered) && FragsOf(numbered, taken, popped + r.queue)
    ensures var x := Recv(true, r, len);
            && Arrived(x.rcv.buf, numbered)
            && FragsOf(numbered, taken + RecvNumbers(r, len), popped + x.taken + x.rcv.queue)
            && |RecvNumbers(r, len)| == x.rcv.nxt - r.nxt
  {
    hide FragsOf, Arrived, MoveReady, ReadyNumbers;
    var x := Recv(true, r, len);
    assert taken + [] == taken && popped + [] == popped;
    if x.code >= 0 {
      var left := if len < 0 then r.queue else r.queue[HeadLen(r.queue)..];
      assert popped + x.taken + left == popped + r.queue;
      ReadyGenuine(r.(queue := left), numbered, popped + x.taken, taken);
    }
  }

  // ---------------------------------------------------------------- the sender half

  lemma FewerNumbered(buf: seq<Seg>, more: seq<Seg>, numbered: seq<Frag>)
    requires BufNumbered(more, numbered) && forall g :: g in buf ==> g in more
    ensures BufNumbered(buf, numbered)
  {
    forall i | 0 <= i < |buf| ensures buf[i].sn < |numbered| && buf[i].frag == numbered[buf[i].sn] {
      assert buf[i] in more;
    }
  }

  lemma {:induction false} SegsNumbered(cb: Cb, ws: seq<Wire>, numbered: seq<Frag>)
    requires BufNumbered(cb.snd.buf, numbered)
    ensures var s := InputSegs(true, cb, ws).snd;
            BufNumbered(s.buf, numbered) && s.nxt == cb.snd.nxt && s.queue == cb.snd.queue
    decreases |ws|
  {
    if ws != [] {
      DropBelowMembers(cb.snd.buf, ws[0].una);
      RemoveSnMembers(ParseUna(cb.snd, ws[0].una).buf, ws[0].sn);
      FewerNumbered(InputSeg(true, cb, ws[0]).snd.buf, cb.snd.buf, numbered);
      SegsNumbered(InputSeg(true, cb, ws[0]), ws[1..], numbered);
    }
  }

  lemma FinishNumbered(cb: Cb, una0: nat, m: MaxAck, numbered: seq<Frag>)
    requires cb.Mss() > 0 && BufNumbered(cb.snd.buf, numbered)
    ensures var c := FinishInput(cb, una0, m);
            && BufNumbered(c.snd.buf, numbered) && c.snd.nxt == cb.snd.nxt && c.rcv == cb.rcv
            && c.snd.queue == cb.snd.queue
  {
    if m.SomeAck? && InFlight(cb.snd, m.sn) {
      BumpFastackKeeps(cb.snd.buf, m.sn);
    }
  }

  lemma {:induction false} FillNumbered(s: Snd, numbered: seq<Frag>, cwnd: U32, current: U32, rto: U32)
    returns (moved: nat)
    requires s.nxt == |numbered| && BufNumbered(s.buf, numbered)
    ensures var t := FillWindow(true, s, cwnd, current, rto);
            && moved <= |s.queue| && t.queue == s.queue[moved..]
            && t.nxt == |numbered| + moved && BufNumbered(t.buf, numbered + s.queue[..moved])
    decreases |s.queue|
  {
    hide ITimeDiff;
    moved := 0;
    if ITimeDiff(s.nxt, s.una + cwnd) < 0 && s.queue != [] {
      var g := Seg(s.nxt, s.queue[0], current, rto, 0, 0);
      var s1 := s.(queue := s.queue[1..], nxt := s.nxt + 1, buf := s.buf + [g]);
      var m := FillNumbered(s1, numbered + [s.queue[0]], cwnd, current, rto);
      moved := m + 1;
      assert s.queue[1..][..m] == s.queue[1..moved];
      assert numbered + [s.queue[0]] + s.queue[1..moved] == numbered + s.queue[..moved];
    } else {
      assert numbered + [] == numbered;
    }
  }

  /** A longer history makes no difference to what has arrived. */
  lemma GenuineLonger(q: Peer, numbered: seq<Frag>, extra: seq<Frag>, taken: seq<nat>)
    requires Arrived(q.cb.rcv.buf, numbered) && FragsOf(numbered, taken, q.popped + q.cb.rcv.queue)
    ensures Arrived(q.cb.rcv.buf, numbered + extra)
    ensures FragsOf(numbered + extra, taken, q.popped + q.cb.rcv.queue)
  {
  }

  lemma FlushGenuine(p: Peer, q: Peer, ctl0: Ctl, tp: seq<nat>, tq: seq<nat>)
    requires Genuine(p, q, tq) && Genuine(q, p, tp) && p.cb.Mss() > 0
    ensures var p1 := AfterFlush(p, Flush(true, p.cb.(ctl := ctl0)));
            Genuine(p1, q, tq) && Genuine(q, p1, tp)
  {
    hide FragsOf, Arrived, PushesOk, ITimeDiff;
    var cb := p.cb.(ctl := ctl0);
    var f := Flush(true, cb);
    if ctl0.updated {
      var ctl := ProbeTimer(ctl0);
      var moved := FillNumbered(cb.snd, p.numbered, SendWindow(ctl), ctl.current, ctl.rxRto);
      var s := Filled(true, cb.snd, ctl);
      var extra := cb.snd.queue[..moved];
      FlushOutOk(cb, ctl, s, p.numbered + extra);
      PushesStay(p.out, f.out, p.numbered, extra);
      GenuineLonger(q, p.numbered, extra, tq);
    } else {
      assert p.out + [] == p.out && p.numbered + [] == p.numbered;
    }
  }

  // ---------------------------------------------------------------- every call, every run

  lemma InputGenuine(p: Peer, q: Peer, i: nat, tp: seq<nat>, tq: seq<nat>)
    requires Genuine(p, q, tq) && Genuine(q, p, tp) && p.cb.Mss() > 0 && i < |q.out|
    ensures var p1 := p.(cb := Input(true, p.cb, q.out[i]));
            Genuine(p1, q, tq) && Genuine(q, p1, tp + SegsNumbers(p.cb, q.out[i]))
  {
    var ws := q.out[i];
    assert forall j | 0 <= j < |ws| :: PushOk(q.out[i][j], q.numbered);
    hide FragsOf, Arrived, PushesOk, BufNumbered, InputSegs, SegsNumbers, FinishInput;
    SegsGenuine(p.cb, ws, q.numbered, p.popped, tp);
    SegsLength(p.cb, ws);
    SegsNumbered(p.cb, ws, p.numbered);
    FinishNumbered(InputSegs(true, p.cb, ws), p.cb.snd.una, NoteAcks(NoAck, ws), p.numbered);
  }

  lemma StepGenuine(p: Peer, q: Peer, act: Act, tp: seq<nat>, tq: seq<nat>)
    requires Genuine(p, q, tq) && Genuine(q, p, tp) && p.cb.Mss() > 0
    ensures var p1 := StepPeer(true, p, q, act);
            Genuine(p1, q, tq) && Genuine(q, p1, tp + TakenBy(p, q, act))
  {
    hide FragsOf, Arrived, PushesOk, BufNumbered, Send, Input, Recv, RecvNumbers, SegsNumbers, Flush;
    assert tp + [] == tp && p.out + [] == p.out && p.numbered + [] == p.numbered;
    match act
    case CallRecv(len) =>
      RecvGenuine(p.cb.rcv, len, q.numbered, p.popped, tp);
    case CallUpdate(current) =>
      var (ctl, due) := Tick(p.cb.ctl, current);
      if due {
        FlushGenuine(p, q, ctl, tp, tq);
      }
    case CallFlush =>
      FlushGenuine(p, q, p.cb.ctl, tp, tq);
    case CallInput(i) =>
      if i < |q.out| {
        InputGenuine(p, q, i, tp, tq);
      }
    case _ =>
  }

  /** In every run at all. */
  lemma {:induction false} RunGenuine(tr: Trace, evs: seq<Event>)
    requires tr.s.a.cb.Mss() > 0 && tr.s.b.cb.Mss() > 0
    requires Genuine(tr.s.a, tr.s.b, tr.b) && Genuine(tr.s.b, tr.s.a, tr.a)
    ensures var end := RunTrace(tr, evs);
            Genuine(end.s.a, end.s.b, end.b) && Genuine(end.s.b, end.s.a, end.a)
    decreases |evs|
  {
    hide Genuine, StepPeer, TakenBy;
    if evs != [] {
      if evs[0].atA {
        StepGenuine(tr.s.a, tr.s.b, evs[0].act, tr.a, tr.b);
      } else {
        StepGenuine(tr.s.b, tr.s.a, evs[0].act, tr.b, tr.a);
      }
      RunGenuine(StepTrace(tr, evs[0]), evs[1..]);
    }
  }

  lemma StartGenuine(cfg: Config)
    ensures Genuine(NewPeer(Create(cfg.conv, cfg.mtuA, cfg.streamA)), NewPeer(Create(cfg.conv, cfg.mtuB, cfg.streamB)),
                    [])
    ensures Genuine(NewPeer(Create(cfg.conv, cfg.mtuB, cfg.streamB)), NewPeer(Create(cfg.conv, cfg.mtuA, cfg.streamA)),
                    [])
  {
  }
}
