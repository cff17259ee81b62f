/** Delivery counted by segment numbers: which fragments of its peer an endpoint has taken, told apart even when their
    contents are the same. In-order, exactly-once delivery in this sense, with nothing forgotten, is what understood
    runs have and no others. */
module KcpExact {
  import opened KcpArith
  import opened KcpWire
  import opened KcpModel
  import opened KcpQueues
  import opened KcpSystem
  import opened KcpInvariant
  import opened KcpSafety

  // ---------------------------------------------------------------- the numbers of what is taken

  /** The numbers of the segments that move from `rcv_buf` to `rcv_queue`. */
  function ReadyNumbers(r: Rcv): (taken: seq<nat>)
    ensures |taken| == MoveReady(true, r).nxt - r.nxt
    decreases |r.buf|
  {
    if r.buf != [] && SameSn(r.buf[0].sn, r.nxt) && |r.queue| < r.wnd then
      [r.buf[0].sn]
      + ReadyNumbers(r.(nxt := Succ(true, r.nxt), queue := r.queue + [r.buf[0].frag], buf := r.buf[1..]))
    else []
  }

  /** Whether a push passes both window tests. */
  predicate Accepts(r: Rcv, sn: nat) {
    ITimeDiff(sn, r.nxt + r.wnd) < 0 && ITimeDiff(sn, r.nxt) >= 0
  }

  /** The receiver half with the push put into `rcv_buf`, before anything moves. */
  function Kept(r: Rcv, w: Wire): Rcv {
    r.(acks := r.acks + [Ack(w.sn, w.ts)], buf := Insert(r.buf, RSeg(w.sn, Frag(w.frg, w.data))))
  }

  lemma AcceptIs(r: Rcv, w: Wire)
    ensures Accepts(r, w.sn) ==> AcceptPush(true, r, w) == MoveReady(true, Kept(r, w))
    ensures !Accepts(r, w.sn) ==> AcceptPush(true, r, w).(acks := r.acks) == r
  {
    hide MoveReady, Insert, ITimeDiff;
  }

  function PushNumbers(r: Rcv, w: Wire): seq<nat> {
    if Accepts(r, w.sn) then ReadyNumbers(Kept(r, w)) else []
  }

  function SegNumbers(cb: Cb, w: Wire): seq<nat> {
    if w.cmd == CMD_PUSH then PushNumbers(cb.rcv, w) else []
  }

  function SegsNumbers(cb: Cb, ws: seq<Wire>): seq<nat>
    decreases |ws|
  {
    if ws == [] then [] else SegNumbers(cb, ws[0]) + SegsNumbers(InputSeg(true, cb, ws[0]), ws[1..])
  }

  function RecvNumbers(r: Rcv, len: int): seq<nat> {
    var x := Recv(true, r, len);
    if x.code < 0 then [] else ReadyNumbers(r.(queue := if len < 0 then r.queue else r.queue[HeadLen(r.queue)..]))
  }

  /** The numbers of the fragments that a call at `p` appends to its receive queue, in order. */
  function TakenBy(p: Peer, q: Peer, act: Act): seq<nat> {
    match act
    case CallRecv(len) => RecvNumbers(p.cb.rcv, len)
    case CallInput(i) => if i < |q.out| then SegsNumbers(p.cb, q.out[i]) else []
    case _ => []
  }

  /** A system and the numbers of all fragments that either side has taken, in order. */
  datatype Trace = Trace(s: Sys, a: seq<nat>, b: seq<nat>)

  function StepTrace(tr: Trace, e: Event): Trace
    requires tr.s.a.cb.Mss() > 0 && tr.s.b.cb.Mss() > 0
  {
    var t := Step(true, tr.s, e);
    if e.atA then Trace(t, tr.a + TakenBy(tr.s.a, tr.s.b, e.act), tr.b)
    else Trace(t, tr.a, tr.b + TakenBy(tr.s.b, tr.s.a, e.act))
  }

  function RunTrace(tr: Trace, evs: seq<Event>): Trace
    requires tr.s.a.cb.Mss() > 0 && tr.s.b.cb.Mss() > 0
    decreases |evs|
  {
    if evs == [] then tr else RunTrace(StepTrace(tr, evs[0]), evs[1..])
  }

  lemma {:induction false} TraceRuns(tr: Trace, evs: seq<Event>)
    requires tr.s.a.cb.Mss() > 0 && tr.s.b.cb.Mss() > 0
    ensures RunTrace(tr, evs).s == Run(true, tr.s, evs)
    decreases |evs|
  {
    if evs != [] {
      TraceRuns(StepTrace(tr, evs[0]), evs[1..]);
    }
  }

  // ---------------------------------------------------------------- what delivery means

  /** The numbers taken are 0, 1, 2, ... without gap or repetition, and nothing that waits was taken before. */
  ghost predicate TakenOnce(taken: seq<nat>, r: Rcv) {
    && |taken| == r.nxt && (forall i | 0 <= i < |taken| :: taken[i] == i)
    && (forall i | 0 <= i < |r.buf| :: r.buf[i].sn >= r.nxt)
  }

  /** Each side has taken the other's fragments in order, each once, and each fragment that was numbered is still with
      its sender or has arrived. */
  ghost predicate Exact(tr: Trace) {
    && TakenOnce(tr.a, tr.s.a.cb.rcv) && TakenOnce(tr.b, tr.s.b.cb.rcv)
    && NoneForgotten(tr.s.a.cb.snd, tr.s.b.cb.rcv) && NoneForgotten(tr.s.b.cb.snd, tr.s.a.cb.rcv)
  }

  /** So in every state of the run. */
  ghost predicate ExactRun(tr: Trace, evs: seq<Event>)
    requires tr.s.a.cb.Mss() > 0 && tr.s.b.cb.Mss() > 0
    decreases |evs|
  {
    Exact(tr) && (evs == [] || ExactRun(StepTrace(tr, evs[0]), evs[1..]))
  }

  // ---------------------------------------------------------------- harmless segments

  /** In order, exactly once, for as long as the receive buffer is true. */
  lemma {:induction false} ReadyOnce(r: Rcv, numbered: seq<Frag>, taken: seq<nat>)
    requires RcvBufOk(r, numbered) && TakenOnce(taken, r)
    ensures TakenOnce(taken + ReadyNumbers(r), MoveReady(true, r))
    decreases |r.buf|
  {
    if r.buf != [] && SameSn(r.buf[0].sn, r.nxt) && |r.queue| < r.wnd {
      assert RSegOk(r.buf[0], r.nxt, numbered);
      SameSnExact(r.buf[0].sn, r.nxt);
      HeadMoves(r, numbered);
      var r1 := r.(nxt := r.nxt + 1, queue := r.queue + [r.buf[0].frag], buf := r.buf[1..]);
      ReadyOnce(r1, numbered, taken + [r.nxt]);
      assert taken + ([r.nxt] + ReadyNumbers(r1)) == taken + [r.nxt] + ReadyNumbers(r1);
    } else {
      assert taken + [] == taken;
    }
  }

  /** What passes the window test and lies ahead lies less than 2^31 ahead. */
  lemma NewInReach(sn: nat, nxt: nat)
    requires nxt <= sn < nxt + RCVWND_MAX + WINDOW_MAX && ITimeDiff(sn, nxt) >= 0
    ensures ITimeDiff(sn, nxt) == sn - nxt
  {
    if sn - nxt >= TWO31 {
      DiffOfTurns(sn, nxt, 1, sn - nxt - TWO32);
    }
  }

  /** A harmless push that is accepted keeps the receive buffer true. */
  lemma KeptOk(r: Rcv, numbered: seq<Frag>, w: Wire)
    requires RcvBufOk(r, numbered) && w.cmd == CMD_PUSH && PushOk(w, numbered) && PushSafe(r, w.sn)
    requires |numbered| <= r.nxt + RCVWND_MAX + WINDOW_MAX && Accepts(r, w.sn)
    ensures RcvBufOk(Kept(r, w), numbered)
  {
    var k := r.nxt + ITimeDiff(w.sn, r.nxt);
    WindowRead(r.nxt, r.wnd, w.sn, k);
    var g := RSeg(w.sn, Frag(w.frg, w.data));
    if w.sn >= r.nxt {
      NewInReach(w.sn, r.nxt);
      hide ITimeDiff, SameSn, Insert;
      InsertKeeps(r, numbered, g);
    } else {
      hide ITimeDiff, Insert;
      InsertAlike(r.buf, g, g.(sn := k));
      InsertGrowsUnlessThere(r, numbered, g.(sn := k));
    }
  }

  lemma StillOnce(taken: seq<nat>, r: Rcv, t: Rcv, numbered: seq<Frag>)
    requires TakenOnce(taken, r) && t.nxt == r.nxt && RcvBufOk(t, numbered)
    ensures TakenOnce(taken, t)
  {
    forall i | 0 <= i < |t.buf| ensures t.buf[i].sn >= t.nxt {
      assert RSegOk(t.buf[i], t.nxt, numbered);
    }
  }

  lemma PushOnce(r: Rcv, numbered: seq<Frag>, w: Wire, taken: seq<nat>)
    requires RcvBufOk(r, numbered) && w.cmd == CMD_PUSH && PushOk(w, numbered) && PushSafe(r, w.sn)
    requires |numbered| <= r.nxt + RCVWND_MAX + WINDOW_MAX && TakenOnce(taken, r)
    ensures TakenOnce(taken + PushNumbers(r, w), AcceptPush(true, r, w))
  {
    hide ITimeDiff, SameSn, Insert, MoveReady, ReadyNumbers, Accepts, PushSafe, RcvBufOk, AcceptPush;
    assert taken + [] == taken;
    AcceptIs(r, w);
    if Accepts(r, w.sn) {
      KeptOk(r, numbered, w);
      StillOnce(taken, r, Kept(r, w), numbered);
      ReadyOnce(Kept(r, w), numbered, taken);
    }
  }

  lemma SegOnce(p: Peer, q: Peer, w: Wire, taken: seq<nat>)
    requires HalvesOk(p, q) && PushOk(w, q.numbered) && Harmless(p.cb, q.cb.rcv, w) && TakenOnce(taken, p.cb.rcv)
    ensures TakenOnce(taken + SegNumbers(p.cb, w), InputSeg(true, p.cb, w).rcv)
  {
    hide TakenOnce, ITimeDiff, AcceptPush, PushNumbers;
    assert taken + [] == taken;
    if w.cmd == CMD_PUSH {
      PushOnce(p.cb.rcv, q.numbered, w, taken);
    }
  }

  lemma {:induction false} SegsOnce(p: Peer, q: Peer, ws: seq<Wire>, taken: seq<nat>)
    requires HalvesOk(p, q) && (forall i | 0 <= i < |ws| :: PushOk(ws[i], q.numbered))
             && HarmlessSegs(p.cb, q.cb.rcv, ws)
    requires TakenOnce(taken, p.cb.rcv)
    ensures TakenOnce(taken + SegsNumbers(p.cb, ws), InputSegs(true, p.cb, ws).rcv)
    decreases |ws|
  {
    hide TakenOnce, Harmless, InputSeg, SegNumbers, HalvesOk, PushOk;
    if ws == [] {
      assert taken + [] == taken;
    } else {
      InputSegKeeps(p, q, ws[0]);
      SegOnce(p, q, ws[0], taken);
      var c, more := InputSeg(true, p.cb, ws[0]), SegNumbers(p.cb, ws[0]);
      SegsOnce(p.(cb := c), q, ws[1..], taken + more);
      assert taken + (more + SegsNumbers(c, ws[1..])) == taken + more + SegsNumbers(c, ws[1..]);
    }
  }

  // ---------------------------------------------------------------- what cannot be undone

  /** Some number was taken out of turn, or waits though it was taken before. */
  ghost predicate Broken(taken: seq<nat>, r: Rcv) {
    || (exists i | 0 <= i < |taken| :: taken[i] != i)
    || (exists i | 0 <= i < |r.buf| :: r.buf[i].sn < r.nxt)
  }

  lemma OnceOrBroken(taken: seq<nat>, r: Rcv)
    requires |taken| == r.nxt
    ensures TakenOnce(taken, r) <==> !Broken(taken, r)
  {
  }

  lemma BrokenIn(taken: seq<nat>, more: seq<nat>, r: Rcv)
    requires exists i | 0 <= i < |taken| :: taken[i] != i
    ensures Broken(taken + more, r)
  {
    var i :| 0 <= i < |taken| && taken[i] != i;
    assert (taken + more)[i] != i;
  }

  lemma {:induction false} ReadyBroken(r: Rcv, taken: seq<nat>)
    requires |taken| == r.nxt && Broken(taken, r)
    ensures Broken(taken + ReadyNumbers(r), MoveReady(true, r))
    decreases |r.buf|
  {
    if r.buf != [] && SameSn(r.buf[0].sn, r.nxt) && |r.queue| < r.wnd {
      var r1 := r.(nxt := r.nxt + 1, queue := r.queue + [r.buf[0].frag], buf := r.buf[1..]);
      var taken1 := taken + [r.buf[0].sn];
      if i :| 0 <= i < |taken| && taken[i] != i {
        assert taken1[i] != i;
      } else {
        var i :| 0 <= i < |r.buf| && r.buf[i].sn < r.nxt;
        if i == 0 {
          assert taken1[r.nxt] != r.nxt;
        } else {
          assert r1.buf[i - 1].sn < r1.nxt;
        }
      }
      ReadyBroken(r1, taken1);
      assert taken + ([r.buf[0].sn] + ReadyNumbers(r1)) == taken1 + ReadyNumbers(r1);
    } else {
      assert taken + [] == taken;
    }
  }

  lemma KeptBroken(r: Rcv, w: Wire, taken: seq<nat>)
    requires Broken(taken, r)
    ensures Broken(taken, Kept(r, w))
  {
    hide Insert;
    InsertMembers(r.buf, RSeg(w.sn, Frag(w.frg, w.data)));
    if i :| 0 <= i < |r.buf| && r.buf[i].sn < r.nxt {
      assert r.buf[i] in Kept(r, w).buf;
    }
  }

  lemma PushBroken(r: Rcv, w: Wire, taken: seq<nat>)
    requires |taken| == r.nxt && Broken(taken, r)
    ensures Broken(taken + PushNumbers(r, w), AcceptPush(true, r, w))
  {
    hide ITimeDiff, SameSn, Insert, MoveReady, ReadyNumbers, Accepts, AcceptPush;
    assert taken + [] == taken;
    AcceptIs(r, w);
    if Accepts(r, w.sn) {
      KeptBroken(r, w, taken);
      ReadyBroken(Kept(r, w), taken);
    }
  }

  /** Harm at the receiver: a duplicate that is taken for new data breaks the order. */
  lemma MisreadBreaks(r: Rcv, numbered: seq<Frag>, w: Wire, taken: seq<nat>)
    requires RcvBufOk(r, numbered) && |taken| == r.nxt && w.sn < r.nxt && !PushSafe(r, w.sn)
    ensures Broken(taken + PushNumbers(r, w), AcceptPush(true, r, w))
  {
    var k := r.nxt + ITimeDiff(w.sn, r.nxt);
    WindowRead(r.nxt, r.wnd, w.sn, k);
    hide ITimeDiff, SameSn, Insert, MoveReady, ReadyNumbers, AcceptPush;
    var g := RSeg(w.sn, Frag(w.frg, w.data));
    InsertAlike(r.buf, g, g.(sn := k));
    InsertGrowsUnlessThere(r, numbered, g.(sn := k));
    InsertMembers(r.buf, g);
    assert g in Kept(r, w).buf;
    AcceptIs(r, w);
    ReadyBroken(Kept(r, w), taken);
  }

  lemma SegLength(cb: Cb, w: Wire)
    ensures |SegNumbers(cb, w)| == InputSeg(true, cb, w).rcv.nxt - cb.rcv.nxt
  {
    hide ITimeDiff, SameSn, Insert, MoveReady, ReadyNumbers, Accepts, AcceptPush;
    AcceptIs(cb.rcv, w);
  }

  lemma SegBroken(cb: Cb, w: Wire, taken: seq<nat>)
    requires |taken| == cb.rcv.nxt && Broken(taken, cb.rcv)
    ensures Broken(taken + SegNumbers(cb, w), InputSeg(true, cb, w).rcv)
  {
    hide Broken, PushNumbers, AcceptPush;
    assert taken + [] == taken;
    if w.cmd == CMD_PUSH {
      PushBroken(cb.rcv, w, taken);
    }
  }

  lemma {:induction false} SegsBroken(cb: Cb, ws: seq<Wire>, taken: seq<nat>)
    requires |taken| == cb.rcv.nxt && Broken(taken, cb.rcv)
    ensures Broken(taken + SegsNumbers(cb, ws), InputSegs(true, cb, ws).rcv)
    decreases |ws|
  {
    hide Broken, InputSeg, SegNumbers;
    assert taken + [] == taken;
    if ws != [] {
      var c, more := InputSeg(true, cb, ws[0]), SegNumbers(cb, ws[0]);
      SegLength(cb, ws[0]);
      SegBroken(cb, ws[0], taken);
      SegsBroken(c, ws[1..], taken + more);
      assert taken + (more + SegsNumbers(c, ws[1..])) == taken + more + SegsNumbers(c, ws[1..]);
    }
  }

  // ---------------------------------------------------------------- what is forgotten stays forgotten

  lemma {:induction false} DropBelowMembers(buf: seq<Seg>, una: nat)
    ensures forall g :: g in DropBelow(buf, una) ==> g in buf
    decreases |buf|
  {
    if buf != [] {
      DropBelowMembers(buf[1..], una);
    }
  }

  lemma {:induction false} RemoveSnMembers(buf: seq<Seg>, sn: nat)
    ensures forall g :: g in RemoveSn(buf, sn) ==> g in buf
    decreases |buf|
  {
    if buf != [] {
      RemoveSnMembers(buf[1..], sn);
    }
  }

  lemma FewerMembers(s: Snd, t: Snd, r: Rcv)
    requires t.nxt == s.nxt && (forall g :: g in t.buf ==> g in s.buf) && NoneForgotten(t, r)
    ensures NoneForgotten(s, r)
  {
    forall k: nat | k < s.nxt ensures InBuf(s, k) || Held(r, k) {
      assert InBuf(t, k) || Held(r, k);
      if i :| 0 <= i < |t.buf| && t.buf[i].sn == k {
        assert t.buf[i] in s.buf;
      }
    }
  }

  lemma SegForgets(cb: Cb, w: Wire, r: Rcv)
    requires NoneForgotten(InputSeg(true, cb, w).snd, r)
    ensures NoneForgotten(cb.snd, r)
  {
    DropBelowMembers(cb.snd.buf, w.una);
    RemoveSnMembers(ParseUna(cb.snd, w.una).buf, w.sn);
    FewerMembers(cb.snd, InputSeg(true, cb, w).snd, r);
  }

  lemma {:induction false} SegsForget(cb: Cb, ws: seq<Wire>, r: Rcv)
    requires NoneForgotten(InputSegs(true, cb, ws).snd, r)
    ensures NoneForgotten(cb.snd, r)
    decreases |ws|
  {
    if ws != [] {
      SegsForget(InputSeg(true, cb, ws[0]), ws[1..], r);
      SegForgets(cb, ws[0], r);
    }
  }

  // ---------------------------------------------------------------- one datagram

  /** A segment that is misread does one of the two. */
  lemma HarmfulSeg(p: Peer, q: Peer, w: Wire, taken: seq<nat>)
    requires HalvesOk(p, q) && !Harmless(p.cb, q.cb.rcv, w) && |taken| == p.cb.rcv.nxt
    ensures var c := InputSeg(true, p.cb, w);
            !NoneForgotten(c.snd, q.cb.rcv) || Broken(taken + SegNumbers(p.cb, w), c.rcv)
  {
    SegmentIff(p, q, w);
    if NoneForgotten(InputSeg(true, p.cb, w).snd, q.cb.rcv) {
      AcceptOldIff(p.cb.rcv, q.numbered, w);
      MisreadBreaks(p.cb.rcv, q.numbered, w, taken);
    }
  }

  lemma {:induction false} HarmfulSegs(p: Peer, q: Peer, ws: seq<Wire>, taken: seq<nat>)
    requires HalvesOk(p, q) && forall i | 0 <= i < |ws| :: PushOk(ws[i], q.numbered)
    requires !HarmlessSegs(p.cb, q.cb.rcv, ws) && |taken| == p.cb.rcv.nxt
    ensures var c := InputSegs(true, p.cb, ws);
            !NoneForgotten(c.snd, q.cb.rcv) || Broken(taken + SegsNumbers(p.cb, ws), c.rcv)
    decreases |ws|
  {
    hide Broken, InputSeg, SegNumbers, Harmless, NoneForgotten, HalvesOk, PushOk;
    var c, more := InputSeg(true, p.cb, ws[0]), SegNumbers(p.cb, ws[0]);
    var taken1 := taken + more;
    SegLength(p.cb, ws[0]);
    if Harmless(p.cb, q.cb.rcv, ws[0]) {
      InputSegKeeps(p, q, ws[0]);
      HarmfulSegs(p.(cb := c), q, ws[1..], taken1);
    } else {
      HarmfulSeg(p, q, ws[0], taken);
      if NoneForgotten(InputSegs(true, c, ws[1..]).snd, q.cb.rcv) {
        SegsForget(c, ws[1..], q.cb.rcv);
        SegsBroken(c, ws[1..], taken1);
      }
    }
    assert taken + (more + SegsNumbers(c, ws[1..])) == taken1 + SegsNumbers(c, ws[1..]);
  }

  // ---------------------------------------------------------------- every call

  lemma FinishForgets(cb: Cb, una0: nat, m: MaxAck, r: Rcv)
    requires cb.Mss() > 0
    ensures FinishInput(cb, una0, m).rcv == cb.rcv
    ensures NoneForgotten(FinishInput(cb, una0, m).snd, r) <==> NoneForgotten(cb.snd, r)
  {
    if m.SomeAck? && InFlight(cb.snd, m.sn) {
      BumpFastackKeeps(cb.snd.buf, m.sn);
      var t := ParseFastack(cb.snd, m.sn);
      forall k: nat ensures InBuf(t, k) == InBuf(cb.snd, k) {
        if i :| 0 <= i < |cb.snd.buf| && cb.snd.buf[i].sn == k {
          assert t.buf[i].sn == k;
        }
      }
    }
  }

  lemma RecvOnce(r: Rcv, numbered: seq<Frag>, len: int, taken: seq<nat>)
    requires RcvBufOk(r, numbered) && TakenOnce(taken, r)
    ensures TakenOnce(taken + RecvNumbers(r, len), Recv(true, r, len).rcv)
  {
    assert taken + [] == taken;
    if Recv(true, r, len).code >= 0 {
      var r1 := r.(queue := if len < 0 then r.queue else r.queue[HeadLen(r.queue)..]);
      assert forall i | 0 <= i < |r1.buf| :: RSegOk(r1.buf[i], r1.nxt, numbered);
      ReadyOnce(r1, numbered, taken);
    }
  }

  /** A harmless call leaves each side's takings in order. */
  lemma StepOnce(p: Peer, q: Peer, act: Act, taken: seq<nat>)
    requires LinkOk(p, q) && LinkOk(q, p) && p.cb.Mss() > 0 && HarmlessSegs(p.cb, q.cb.rcv, Delivered(q, act))
    requires TakenOnce(taken, p.cb.rcv)
    ensures TakenOnce(taken + TakenBy(p, q, act), StepPeer(true, p, q, act).cb.rcv)
  {
    hide ITimeDiff, U32Of, Send, Pack, FlushWires, Congest, SndOk, NoneForgotten, PushesOk;
    assert taken + [] == taken;
    match act
    case CallRecv(len) =>
      RecvOnce(p.cb.rcv, q.numbered, len, taken);
    case CallInput(i) =>
      if i < |q.out| {
        DeliveredOk(p, q, act);
        SegsOnce(p, q, q.out[i], taken);
        FinishForgets(InputSegs(true, p.cb, q.out[i]), p.cb.snd.una, NoteAcks(NoAck, q.out[i]), q.cb.rcv);
      }
    case _ =>
  }

  /** A call that misreads a segment leaves one of the two marks. */
  lemma StepHarms(p: Peer, q: Peer, act: Act, taken: seq<nat>)
    requires LinkOk(p, q) && LinkOk(q, p) && p.cb.Mss() > 0 && !HarmlessSegs(p.cb, q.cb.rcv, Delivered(q, act))
    requires |taken| == p.cb.rcv.nxt
    ensures var p1 := StepPeer(true, p, q, act);
            !NoneForgotten(p1.cb.snd, q.cb.rcv) || Broken(taken + TakenBy(p, q, act), p1.cb.rcv)
  {
    DeliveredOk(p, q, act);
    var ws := Delivered(q, act);
    HarmfulSegs(p, q, ws, taken);
    FinishForgets(InputSegs(true, p.cb, ws), p.cb.snd.una, NoteAcks(NoAck, ws), q.cb.rcv);
  }

  lemma BrokenIsNotOnce(taken: seq<nat>, r: Rcv)
    requires Broken(taken, r)
    ensures !TakenOnce(taken, r)
  {
  }

  lemma TakenLength(tr: Trace)
    requires Exact(tr)
    ensures |tr.a| == tr.s.a.cb.rcv.nxt && |tr.b| == tr.s.b.cb.rcv.nxt
  {
  }

  lemma LinkForgetsNone(s: Sys)
    requires SysOk(s)
    ensures NoneForgotten(s.a.cb.snd, s.b.cb.rcv) && NoneForgotten(s.b.cb.snd, s.a.cb.rcv)
  {
  }

  lemma StepExactIff(tr: Trace, e: Event)
    requires SysOk(tr.s) && Exact(tr)
    ensures Exact(StepTrace(tr, e)) <==> HarmlessEvent(tr.s, e)
  {
    var p, q := At(tr.s, e), Other(tr.s, e);
    var taken := if e.atA then tr.a else tr.b;
    hide TakenOnce, NoneForgotten, HarmlessSegs, LinkOk, StepPeer, TakenBy, Delivered, Broken;
    TakenLength(tr);
    if HarmlessEvent(tr.s, e) {
      StepKeeps(tr.s, e);
      StepOnce(p, q, e.act, taken);
      LinkForgetsNone(Step(true, tr.s, e));
    } else {
      StepHarms(p, q, e.act, taken);
      if Broken(taken + TakenBy(p, q, e.act), StepPeer(true, p, q, e.act).cb.rcv) {
        BrokenIsNotOnce(taken + TakenBy(p, q, e.act), StepPeer(true, p, q, e.act).cb.rcv);
      }
    }
  }

  // ---------------------------------------------------------------- whole runs

  /** In every state of the run each side has taken the other's numbers in order, each once, and none is forgotten,
      exactly when no segment of the run is misread. */
  lemma {:induction false} ExactIff(tr: Trace, evs: seq<Event>)
    requires SysOk(tr.s) && Exact(tr)
    ensures ExactRun(tr, evs) <==> HarmlessRun(tr.s, evs)
    decreases |evs|
  {
    if evs != [] {
      StepExactIff(tr, evs[0]);
      if HarmlessEvent(tr.s, evs[0]) {
        StepKeeps(tr.s, evs[0]);
        ExactIff(StepTrace(tr, evs[0]), evs[1..]);
      }
    }
  }

  lemma StartExact(cfg: Config)
    requires cfg.Valid()
    ensures Exact(Trace(Start(cfg), [], []))
  {
  }
}
