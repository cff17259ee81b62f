/** What KCP guarantees. */
module KcpTheorems {
  import opened KcpArith
  import opened KcpWire
  import opened KcpModel
  import opened KcpWrap
  import opened KcpQueues
  import opened KcpWindows
  import opened KcpSystem
  import opened KcpDatagrams
  import opened KcpInvariant
  import opened KcpSafety
  import opened KcpReach
  import opened KcpExact
  import opened KcpGenuine
  import opened KcpMessages
  import opened KcpCongestion

  // The statements here are about the program itself, with its 32-bit counters, over every run from two
  // fresh endpoints. Those about delivery hold for the runs called `Understood`. By UnderstoodIff these are
  // exactly the runs in all of whose states each side has taken the other's numbers in order, each once, and no
  // number is forgotten. In another run the contents may still come out right, as when all fragments are alike.

  /** No number in the run is taken, modulo 2^32, for a later one that its reader acts upon. */
  ghost predicate Understood(cfg: Config, evs: seq<Event>)
    requires cfg.Valid()
  {
    HarmlessRun(Start(cfg), evs)
  }

  /** No number delivered in the run is more than 2^31 behind the last one given out, or, if it comes with data,
      while such lie more than 2^31 beyond the receive window. */
  ghost predicate Timely(cfg: Config, evs: seq<Event>)
    requires cfg.Valid()
  {
    FreshRun(Start(cfg), evs)
  }

  /** The program's run, and the same run with unbounded numbers. */
  function Outcome(cfg: Config, evs: seq<Event>): Sys
    requires cfg.Valid()
  {
    Run(false, Start(cfg), evs)
  }

  function Ideal(cfg: Config, evs: seq<Event>): Sys
    requires cfg.Valid()
  {
    Run(true, Start(cfg), evs)
  }

  lemma OutcomeWraps(cfg: Config, evs: seq<Event>)
    requires cfg.Valid()
    ensures Outcome(cfg, evs) == WrapSys(Ideal(cfg, evs))
  {
    var s := Start(cfg);
    assert WrapSys(s) == s by {
      assert Map(WrapSeg, []) == [] && Map(WrapRSeg, []) == [] && Map(WrapAck, []) == [] && Map(WrapWires, []) == [];
      assert U32Of(0) == 0;
    }
    RunWraps(s, evs);
  }

  function Beginning(cfg: Config): Trace
    requires cfg.Valid()
  {
    Trace(Start(cfg), [], [])
  }

  /** A run is understood exactly if in each of its states either side has taken the other's numbers 0, 1, 2, ... in
      order, each once, and no number is forgotten; and exactly if at none of its segments the sender forgets what its
      peer misses or the receiver takes a duplicate for new data. */
  lemma UnderstoodIff(cfg: Config, evs: seq<Event>)
    requires cfg.Valid()
    ensures ExactRun(Beginning(cfg), evs) <==> Understood(cfg, evs)
    ensures InnocentRun(Start(cfg), evs) <==> Understood(cfg, evs)
  {
    StartOk(cfg);
    StartExact(cfg);
    ExactIff(Beginning(cfg), evs);
    RunIff(Start(cfg), evs);
  }

  /** In every run at all, understood or not, the fragments that ever entered a receive queue are fragments of the
      peer, unchanged: those with the numbers that UnderstoodIff speaks of. */
  lemma TakenAreSent(cfg: Config, evs: seq<Event>)
    requires cfg.Valid()
    ensures var s, end := Outcome(cfg, evs), RunTrace(Beginning(cfg), evs);
            && FragsOf(s.a.numbered, end.b, s.b.popped + s.b.cb.rcv.queue)
            && FragsOf(s.b.numbered, end.a, s.a.popped + s.a.cb.rcv.queue)
  {
    hide FragsOf, StepTrace;
    OutcomeWraps(cfg, evs);
    StartGenuine(cfg);
    RunGenuine(Beginning(cfg), evs);
    TraceRuns(Beginning(cfg), evs);
  }

  lemma TimelyIsUnderstood(cfg: Config, evs: seq<Event>)
    requires cfg.Valid() && Timely(cfg, evs)
    ensures Understood(cfg, evs)
  {
    StartOk(cfg);
    assert Truthful(Start(cfg).a) && Truthful(Start(cfg).b);
    FreshRunIsHarmless(Start(cfg), evs);
  }

  /** With receive windows that are never taken back by more than 2^31 - 65535 segments, a run is timely as soon as
      nothing in it is delivered more than 2^31 numbers late. Windows that are set once and for all are such, of any
      size a C `int` can express, and so are all windows up to 2^31 - 65535. */
  lemma RecentIsTimely(cfg: Config, evs: seq<Event>)
    requires cfg.Valid() && RecentRun(Start(cfg), evs)
    requires AmpleRun(Start(cfg), evs, WND_RCV, WND_RCV) || GrowingRun(Start(cfg), evs)
             || forall e | e in evs :: Modest(e)
    ensures Timely(cfg, evs)
  {
    var s := Start(cfg);
    StartOk(cfg);
    assert Truthful(s.a) && Truthful(s.b);
    if GrowingRun(s, evs) {
      GrowingIsAmple(s, evs);
    } else if !AmpleRun(s, evs, WND_RCV, WND_RCV) {
      ModestIsAmple(s, evs, WND_RCV, WND_RCV);
    }
    AmpleRunIsFresh(s, evs, WND_RCV, WND_RCV);
  }

  /** Numbering at most 2^31 segments in each direction is enough to be timely. */
  lemma FewSegmentsAreTimely(cfg: Config, evs: seq<Event>)
    requires cfg.Valid()
    requires |Outcome(cfg, evs).a.numbered| <= TWO31 && |Outcome(cfg, evs).b.numbered| <= TWO31
    ensures Timely(cfg, evs)
  {
    OutcomeWraps(cfg, evs);
    ShortRunIsFresh(Start(cfg), evs);
  }

  lemma IdealOk(cfg: Config, evs: seq<Event>)
    requires cfg.Valid() && Understood(cfg, evs)
    ensures SysOk(Ideal(cfg, evs))
  {
    StartOk(cfg);
    RunKeeps(Start(cfg), evs);
  }

  // ---------------------------------------------------------------- in order, exactly once

  /** What ever entered the receiver's queue is what the sender numbered, from number 0 on, each once and
      in order, and `rcv_nxt` counts it. */
  ghost predicate DeliveredInOrder(p: Peer, q: Peer) {
    exists n: nat ::
      n <= |p.numbered| && q.popped + q.cb.rcv.queue == p.numbered[..n] && q.cb.rcv.nxt == U32Of(n)
  }

  /** In-order, exactly-once delivery, in both directions, for every run that is understood. */
  lemma InOrderExactlyOnce(cfg: Config, evs: seq<Event>)
    requires cfg.Valid() && Understood(cfg, evs)
    ensures var s := Outcome(cfg, evs); DeliveredInOrder(s.a, s.b) && DeliveredInOrder(s.b, s.a)
  {
    OutcomeWraps(cfg, evs);
    IdealOk(cfg, evs);
    var s := Ideal(cfg, evs);
    assert s.b.popped + s.b.cb.rcv.queue == s.a.numbered[..s.b.cb.rcv.nxt];
    assert s.a.popped + s.a.cb.rcv.queue == s.b.numbered[..s.a.cb.rcv.nxt];
  }

  // ---------------------------------------------------------------- nothing is forgotten

  /** Fragment number `k` is still in the send buffer, or was delivered, or waits in the receive buffer;
      each time with its content. */
  ghost predicate Accounted(p: Peer, q: Peer, k: nat)
    requires k < |p.numbered|
  {
    || (exists i | 0 <= i < |p.cb.snd.buf| :: p.cb.snd.buf[i].sn == U32Of(k) && p.cb.snd.buf[i].frag == p.numbered[k])
    || (k < |q.popped + q.cb.rcv.queue| && (q.popped + q.cb.rcv.queue)[k] == p.numbered[k])
    || (exists i | 0 <= i < |q.cb.rcv.buf| :: q.cb.rcv.buf[i].sn == U32Of(k) && q.cb.rcv.buf[i].frag == p.numbered[k])
  }

  lemma LinkAccounts(p: Peer, q: Peer, k: nat)
    requires LinkOk(p, q) && k < |p.numbered|
    ensures Accounted(WrapPeer(p), WrapPeer(q), k)
  {
    assert InBuf(p.cb.snd, k) || Held(q.cb.rcv, k);
    if InBuf(p.cb.snd, k) {
      var i :| 0 <= i < |p.cb.snd.buf| && p.cb.snd.buf[i].sn == k;
      assert WrapPeer(p).cb.snd.buf[i].sn == U32Of(k) && WrapPeer(p).cb.snd.buf[i].frag == p.numbered[k];
    } else if k < q.cb.rcv.nxt {
      assert (q.popped + q.cb.rcv.queue)[k] == p.numbered[..q.cb.rcv.nxt][k];
    } else {
      var i :| 0 <= i < |q.cb.rcv.buf| && q.cb.rcv.buf[i].sn == k;
      assert RSegOk(q.cb.rcv.buf[i], q.cb.rcv.nxt, p.numbered);
      assert WrapPeer(q).cb.rcv.buf[i].sn == U32Of(k) && WrapPeer(q).cb.rcv.buf[i].frag == p.numbered[k];
    }
  }

  /** KCP never drops a fragment before the other side has it. */
  lemma NothingForgotten(cfg: Config, evs: seq<Event>)
    requires cfg.Valid() && Understood(cfg, evs)
    ensures var s := Outcome(cfg, evs);
            && (forall k: nat | k < |s.a.numbered| :: Accounted(s.a, s.b, k))
            && (forall k: nat | k < |s.b.numbered| :: Accounted(s.b, s.a, k))
  {
    OutcomeWraps(cfg, evs);
    IdealOk(cfg, evs);
    var s := Ideal(cfg, evs);
    forall k: nat | k < |s.a.numbered| ensures Accounted(WrapPeer(s.a), WrapPeer(s.b), k) {
      LinkAccounts(s.a, s.b, k);
    }
    forall k: nat | k < |s.b.numbered| ensures Accounted(WrapPeer(s.b), WrapPeer(s.a), k) {
      LinkAccounts(s.b, s.a, k);
    }
  }

  // ---------------------------------------------------------------- windows and orders

  /** The wrapped comparison orders the send buffer, from `snd_una` up to `snd_nxt`, never more than 65535
      apart. */
  ghost predicate SendOrder(s: Snd) {
    && U32Of(s.nxt - s.una) <= 65535
    && (forall i, j | 0 <= i < j < |s.buf| :: ITimeDiff(s.buf[i].sn, s.buf[j].sn) < 0)
    && (forall i | 0 <= i < |s.buf| :: ITimeDiff(s.buf[i].sn, s.una) >= 0 && ITimeDiff(s.buf[i].sn, s.nxt) < 0)
  }

  lemma SendOrderOf(s: Snd)
    requires WindowOk(s)
    ensures SendOrder(WrapSnd(s))
  {
    var w := WrapSnd(s);
    InflightWraps(s.nxt, s.una);
    forall i, j | 0 <= i < j < |s.buf| ensures ITimeDiff(w.buf[i].sn, w.buf[j].sn) < 0 {
      DiffOfReduced(s.buf[i].sn, s.buf[j].sn, 0);
      DiffExact(s.buf[i].sn, s.buf[j].sn);
    }
    forall i | 0 <= i < |s.buf| ensures ITimeDiff(w.buf[i].sn, w.una) >= 0 && ITimeDiff(w.buf[i].sn, w.nxt) < 0 {
      DiffOfReduced(s.buf[i].sn, s.una, 0);
      DiffExact(s.buf[i].sn, s.una);
      DiffOfReduced(s.buf[i].sn, s.nxt, 0);
      DiffExact(s.buf[i].sn, s.nxt);
    }
  }

  /** In every run at all, understood or not, the send window never exceeds 65535 segments, so wrapped comparison
      is a true order on what is in flight. */
  lemma WindowNeverTooWide(cfg: Config, evs: seq<Event>)
    requires cfg.Valid()
    ensures SendOrder(Outcome(cfg, evs).a.cb.snd) && SendOrder(Outcome(cfg, evs).b.cb.snd)
  {
    OutcomeWraps(cfg, evs);
    PeerWindow(cfg);
    RunWindow(Start(cfg), evs);
    SendOrderOf(Ideal(cfg, evs).a.cb.snd);
    SendOrderOf(Ideal(cfg, evs).b.cb.snd);
  }

  /** `snd_una` is the head of the send buffer, and the wrapped comparison orders the receive buffer
      strictly from `rcv_nxt` on. */
  ghost predicate BuffersOrdered(c: Cb) {
    && c.snd.una == (if c.snd.buf == [] then c.snd.nxt else c.snd.buf[0].sn)
    && (forall i, j | 0 <= i < j < |c.rcv.buf| :: ITimeDiff(c.rcv.buf[i].sn, c.rcv.buf[j].sn) < 0)
    && (forall i | 0 <= i < |c.rcv.buf| :: ITimeDiff(c.rcv.buf[i].sn, c.rcv.nxt) >= 0)
  }

  lemma BuffersOrderedOf(p: Peer)
    requires PeerWindowOk(p)
    ensures BuffersOrdered(WrapCb(p.cb))
  {
    var r, w := p.cb.rcv, WrapCb(p.cb).rcv;
    forall i | 0 <= i < |r.buf| ensures ITimeDiff(w.buf[i].sn, w.nxt) == Ahead(r.buf[i].sn, r.nxt) {
      DiffOfReduced(r.buf[i].sn, r.nxt, 0);
    }
    forall i, j | 0 <= i < j < |r.buf| ensures ITimeDiff(w.buf[i].sn, w.buf[j].sn) < 0 {
      AheadCompares(r.buf[i].sn, r.buf[j].sn, r.nxt);
      DiffOfReduced(r.buf[i].sn, r.buf[j].sn, 0);
    }
  }

  /** In every run at all, the buffers are in the order the program takes them to be in. */
  lemma BuffersStayOrdered(cfg: Config, evs: seq<Event>)
    requires cfg.Valid()
    ensures BuffersOrdered(Outcome(cfg, evs).a.cb) && BuffersOrdered(Outcome(cfg, evs).b.cb)
  {
    OutcomeWraps(cfg, evs);
    PeerWindow(cfg);
    RunWindow(Start(cfg), evs);
    BuffersOrderedOf(Ideal(cfg, evs).a);
    BuffersOrderedOf(Ideal(cfg, evs).b);
  }

  // ---------------------------------------------------------------- messages and bytes

  lemma {:induction false} ConfigKept(s: Sys, evs: seq<Event>)
    requires s.a.cb.Mss() > 0 && s.b.cb.Mss() > 0
    ensures var t := Run(true, s, evs);
            && t.a.cb.stream == s.a.cb.stream && t.b.cb.stream == s.b.cb.stream
            && t.a.cb.conv == s.a.cb.conv && t.b.cb.conv == s.b.cb.conv
            && t.a.cb.mtu == s.a.cb.mtu && t.b.cb.mtu == s.b.cb.mtu
    decreases |evs|
  {
    if evs != [] {
      StepKeepsConfig(true, s.a, s.b, evs[0].act);
      StepKeepsConfig(true, s.b, s.a, evs[0].act);
      ConfigKept(Step(true, s, evs[0]), evs[1..]);
    }
  }

  lemma TalkStart(cfg: Config)
    requires cfg.Valid()
    ensures TalkOk(Start(cfg))
  {
  }

  lemma IdealTalk(cfg: Config, evs: seq<Event>)
    requires cfg.Valid() && Understood(cfg, evs)
    ensures SysOk(Ideal(cfg, evs)) && TalkOk(Ideal(cfg, evs))
  {
    IdealOk(cfg, evs);
    StartOk(cfg);
    TalkStart(cfg);
    RunMessages(Start(cfg), evs);
  }

  lemma PrefixOfBytes(p: Peer, q: Peer)
    requires LinkOk(p, q) && BytesOk(p, q)
    ensures Flatten(q.got) <= p.written
  {
    var line := p.numbered + p.cb.snd.queue;
    var rest := line[|q.popped|..];
    assert line == q.popped + rest by {
      assert (q.popped + q.cb.rcv.queue)[..|q.popped|] == q.popped;
      assert p.numbered[..q.cb.rcv.nxt][..|q.popped|] == line[..|q.popped|];
    }
    DatasAppend(q.popped, rest);
  }

  /** In message mode the messages returned are the messages sent, whole and in order; in either mode the
      bytes returned are a prefix of the bytes accepted. */
  lemma EndToEnd(cfg: Config, evs: seq<Event>)
    requires cfg.Valid() && Understood(cfg, evs)
    ensures var s := Outcome(cfg, evs);
            && (!cfg.streamA ==> s.b.got <= s.a.sent) && (!cfg.streamB ==> s.a.got <= s.b.sent)
            && Flatten(s.b.got) <= s.a.written && Flatten(s.a.got) <= s.b.written
  {
    OutcomeWraps(cfg, evs);
    IdealTalk(cfg, evs);
    var s := Ideal(cfg, evs);
    ConfigKept(Start(cfg), evs);
    PrefixOfBytes(s.a, s.b);
    PrefixOfBytes(s.b, s.a);
  }

  /** A receive queue that has filled its window can always be read, and what is read next is the next
      message sent. */
  ghost predicate ReadsNext(p: Peer, q: Peer) {
    var size := PeekSize(q.cb.rcv.queue);
    && (|q.cb.rcv.queue| >= q.cb.rcv.wnd ==> size >= 0)
    && (size >= 0 ==>
          && |q.got| < |p.sent| && size == |p.sent[|q.got|]|
          && (size < TWO31 ==> Recv(false, q.cb.rcv, size).data == p.sent[|q.got|]))
  }

  lemma ReadsNextOf(p: Peer, q: Peer)
    requires LinkOk(p, q) && MessagesOk(p, q) && !p.cb.stream
    ensures ReadsNext(WrapPeer(p), WrapPeer(q))
  {
    var size := PeekSize(q.cb.rcv.queue);
    RecvReturnsNext(p, q, 0);
    if 0 <= size < TWO31 {
      RecvReturnsNext(p, q, size);
      RecvWraps(q.cb.rcv, size);
    }
  }

  /** In message mode a receiver whose queue has filled its window never stalls. */
  lemma FullQueueNeverStalls(cfg: Config, evs: seq<Event>)
    requires cfg.Valid() && Understood(cfg, evs)
    ensures var s := Outcome(cfg, evs);
            (!cfg.streamA ==> ReadsNext(s.a, s.b)) && (!cfg.streamB ==> ReadsNext(s.b, s.a))
  {
    OutcomeWraps(cfg, evs);
    IdealTalk(cfg, evs);
    var s := Ideal(cfg, evs);
    ConfigKept(Start(cfg), evs);
    if !cfg.streamA {
      ReadsNextOf(s.a, s.b);
    }
    if !cfg.streamB {
      ReadsNextOf(s.b, s.a);
    }
  }

  // ---------------------------------------------------------------- the wire

  lemma FitsStart(cfg: Config)
    requires cfg.Valid()
    ensures PeerFits(Start(cfg).a) && PeerFits(Start(cfg).b)
  {
  }

  lemma WrappedTwice(d: seq<Wire>)
    ensures WrapWires(WrapWires(d)) == WrapWires(d)
  {
  }

  /** A datagram of an endpoint whose numbers are 32-bit numbers. */
  lemma DgramReads(p: Peer, ideal: Peer, d: seq<Wire>, cb: Cb)
    requires PeerFits(p) && p == WrapPeer(ideal) && d in p.out && cb.conv == p.cb.conv && cb.Mss() > 0
    ensures 1 <= |EncodeAll(d)| <= p.cb.mtu
    ensures InputBytes(cb, EncodeAll(d)) == (0, Input(false, cb, d))
  {
    assert DgramOk(d, p.cb.conv, p.cb.mtu);
    EncodedSize(d);
    SmallIsEncodable(d, p.cb.mtu);
    WireRoundTrip(cb, d);
    var i :| 0 <= i < |ideal.out| && d == WrapWires(ideal.out[i]);
    WrappedTwice(ideal.out[i]);
  }

  /** In every run at all, every datagram either side outputs is between 1 and mtu bytes long, and
      `ikcp_input` of the same conversation reads its bytes back as exactly the segments that were put in,
      returning 0. */
  lemma DatagramsAreRead(cfg: Config, evs: seq<Event>, fromA: bool, d: seq<Wire>, cb: Cb)
    requires cfg.Valid() && cb.conv == cfg.conv && cb.Mss() > 0
    requires d in (if fromA then Outcome(cfg, evs).a else Outcome(cfg, evs).b).out
    ensures 1 <= |EncodeAll(d)| <= (if fromA then cfg.mtuA else cfg.mtuB)
    ensures InputBytes(cb, EncodeAll(d)) == (0, Input(false, cb, d))
  {
    FitsStart(cfg);
    RunFits(false, Start(cfg), evs);
    OutcomeWraps(cfg, evs);
    ConfigKept(Start(cfg), evs);
    if fromA {
      DgramReads(Outcome(cfg, evs).a, Ideal(cfg, evs).a, d, cb);
    } else {
      DgramReads(Outcome(cfg, evs).b, Ideal(cfg, evs).b, d, cb);
    }
  }

  // ---------------------------------------------------------------- congestion

  lemma CwndStart(cfg: Config, maxResend: nat)
    requires cfg.Valid() && Small(cfg.mtuA - OVERHEAD, maxResend) && Small(cfg.mtuB - OVERHEAD, maxResend)
    ensures PeerCwndOk(Start(cfg).a, maxResend) && PeerCwndOk(Start(cfg).b, maxResend)
  {
  }

  lemma QuotientIs(ctl: Ctl, mss: nat, maxResend: nat)
    requires mss > 0 && CwndOk(ctl, mss, maxResend)
    ensures ctl.cwnd == ctl.incr / mss
  {
    var q := ctl.incr / mss;
    assert q * mss <= ctl.incr < q * mss + mss;
    if q < ctl.cwnd {
      MulMono(q + 1, ctl.cwnd, mss);
    } else if q > ctl.cwnd {
      MulMono(ctl.cwnd + 1, q, mss);
    }
  }

  /** In every run at all, while the 32-bit products cannot overflow, the congestion window is exactly
      the number of whole segments in `incr`, and the threshold never falls below 2. */
  lemma CwndIsIncrOverMss(cfg: Config, evs: seq<Event>, maxResend: nat)
    requires cfg.Valid() && Small(cfg.mtuA - OVERHEAD, maxResend) && Small(cfg.mtuB - OVERHEAD, maxResend)
    requires forall e | e in evs :: ResendWithin(e.act, maxResend)
    ensures var c := Outcome(cfg, evs).a.cb;
            c.ctl.cwnd == c.ctl.incr / (cfg.mtuA - OVERHEAD) && c.ctl.ssthresh >= 2
    ensures var c := Outcome(cfg, evs).b.cb;
            c.ctl.cwnd == c.ctl.incr / (cfg.mtuB - OVERHEAD) && c.ctl.ssthresh >= 2
  {
    hide Bytes, Run, Small;
    OutcomeWraps(cfg, evs);
    CwndStart(cfg, maxResend);
    RunCwnd(Start(cfg), evs, maxResend);
    ConfigKept(Start(cfg), evs);
    QuotientIs(Ideal(cfg, evs).a.cb.ctl, cfg.mtuA - OVERHEAD, maxResend);
    QuotientIs(Ideal(cfg, evs).b.cb.ctl, cfg.mtuB - OVERHEAD, maxResend);
  }
}
