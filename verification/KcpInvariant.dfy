/** The invariant of a KCP connection, stated on unbounded segment numbers, and what acknowledgements and data
    of any age do to it. */
module KcpInvariant {
  import opened LittleEndian
  import opened KcpArith
  import opened KcpWire
  import opened KcpModel
  import opened KcpQueues
  import opened KcpSystem

  const WINDOW_MAX := 65535

  // ---------------------------------------------------------------- the invariant

  /** The sender half: `snd_buf` holds numbered fragments in order, `snd_una` is its first number, and
      at most 65535 numbers are outstanding. */
  ghost predicate SndOk(s: Snd, numbered: seq<Frag>) {
    && s.nxt == |numbered|
    && s.una <= s.nxt <= s.una + WINDOW_MAX
    && SortedSegs(s.buf)
    && (forall i | 0 <= i < |s.buf| :: s.una <= s.buf[i].sn < s.nxt && s.buf[i].frag == numbered[s.buf[i].sn])
    && s.una == (if s.buf == [] then s.nxt else s.buf[0].sn)
  }

  /** The segments of `snd_buf` carry the fragments that were given their numbers. */
  ghost predicate BufNumbered(buf: seq<Seg>, numbered: seq<Frag>) {
    forall i | 0 <= i < |buf| :: buf[i].sn < |numbered| && buf[i].frag == numbered[buf[i].sn]
  }

  /** A fragment waiting for its turn: its number is at or after `rcv_nxt` and was given to it. */
  ghost predicate RSegOk(g: RSeg, nxt: nat, numbered: seq<Frag>) {
    nxt <= g.sn < Min(|numbered|, nxt + RCVWND_MAX) && g.frag == numbered[g.sn]
  }

  /** What `rcv_buf` holds: numbered fragments, sorted, at or after `rcv_nxt`. */
  ghost predicate RcvBufOk(r: Rcv, numbered: seq<Frag>) {
    && r.nxt <= |numbered| && WND_RCV <= r.wnd <= RCVWND_MAX
    && SortedRSegs(r.buf)
    && (forall i | 0 <= i < |r.buf| :: RSegOk(r.buf[i], r.nxt, numbered))
  }

  /** The receiver half: what was ever appended to `rcv_queue` is the prefix of length `rcv_nxt` of
      what the peer numbered. */
  ghost predicate RcvOk(r: Rcv, numbered: seq<Frag>, popped: seq<Frag>) {
    && RcvBufOk(r, numbered)
    && popped + r.queue == numbered[..r.nxt]
  }

  /** Every number is still kept by the sender or has reached the receiver. */
  ghost predicate NoneForgotten(s: Snd, r: Rcv) {
    forall k: nat | k < s.nxt :: InBuf(s, k) || Held(r, k)
  }

  ghost predicate PushOk(w: Wire, numbered: seq<Frag>) {
    w.cmd == CMD_PUSH ==> w.sn < |numbered| && numbered[w.sn] == Frag(w.frg, w.data)
  }

  /** A segment's `una` and acknowledgement only speak of data its sender has. */
  ghost predicate ReportOk(w: Wire, r: Rcv) {
    w.una <= r.nxt && (w.cmd == CMD_ACK ==> Held(r, w.sn))
  }

  ghost predicate PushesOk(out: seq<seq<Wire>>, numbered: seq<Frag>) {
    forall i, j | 0 <= i < |out| && 0 <= j < |out[i]| :: PushOk(out[i][j], numbered)
  }

  ghost predicate ReportsOk(out: seq<seq<Wire>>, r: Rcv) {
    forall i, j | 0 <= i < |out| && 0 <= j < |out[i]| :: ReportOk(out[i][j], r)
  }

  /** One direction of the connection: `p` sends, `q` receives. */
  ghost predicate LinkOk(p: Peer, q: Peer) {
    && SndOk(p.cb.snd, p.numbered)
    && RcvOk(q.cb.rcv, p.numbered, q.popped)
    && NoneForgotten(p.cb.snd, q.cb.rcv)
    && PushesOk(p.out, p.numbered)
  }

  ghost predicate SysOk(s: Sys) {
    LinkOk(s.a, s.b) && LinkOk(s.b, s.a) && s.a.cb.Mss() > 0 && s.b.cb.Mss() > 0
  }

  /** Only numbers that were received wait to be acknowledged. */
  ghost predicate AcksOk(r: Rcv) {
    forall i | 0 <= i < |r.acks| :: Held(r, r.acks[i].sn)
  }

  /** What an endpoint says of the data it has, or is about to say, is true. */
  ghost predicate Truthful(p: Peer) {
    AcksOk(p.cb.rcv) && ReportsOk(p.out, p.cb.rcv)
  }

  // ---------------------------------------------------------------- segments that are read as what they say

  /** The number `snd_buf` understands by an `una`: the one equal to it modulo 2^32 that is nearest to `snd_una`. */
  function UnaRead(s: Snd, una: nat): int {
    s.una + ITimeDiff(una, s.una)
  }

  /** No outstanding number below what `una` is taken for is missing at the receiver. */
  ghost predicate UnaSafe(s: Snd, una: nat, r: Rcv) {
    forall k: nat | s.una <= k < s.nxt && k < UnaRead(s, una) :: Held(r, k)
  }

  /** The outstanding number that `sn` is taken for, if there is one, is not missing at the receiver. */
  ghost predicate AckSafe(s: Snd, sn: nat, r: Rcv) {
    forall k: nat | s.una <= k < s.nxt && SameSn(k, sn) :: Held(r, k)
  }

  /** A number that was delivered before is not taken for one that is still awaited. */
  ghost predicate PushSafe(r: Rcv, sn: nat) {
    sn < r.nxt ==> forall k: nat | r.nxt <= k < r.nxt + r.wnd && SameSn(k, sn) :: Waits(r.buf, k)
  }

  /** Segment `w`, read by an endpoint in state `cb` whose peer's receiver half is `r`, is not misread to any effect. */
  ghost predicate Harmless(cb: Cb, r: Rcv, w: Wire) {
    && UnaSafe(cb.snd, w.una, r)
    && (w.cmd == CMD_ACK ==> AckSafe(cb.snd, w.sn, r))
    && (w.cmd == CMD_PUSH ==> PushSafe(cb.rcv, w.sn))
  }

  /** What a duplicate may do to the receiver half: be acknowledged, and move on what was ready to be moved. */
  ghost predicate NothingNew(r: Rcv, t: Rcv) {
    t.(acks := r.acks) == r || t.(acks := r.acks) == MoveReady(true, r)
  }

  /** What processing `w` should leave true: the sender forgets nothing the receiver misses, and a duplicate is
      not taken for new data. */
  ghost predicate Innocent(cb: Cb, r: Rcv, w: Wire) {
    var c := InputSeg(true, cb, w);
    && NoneForgotten(c.snd, r)
    && (w.cmd == CMD_PUSH && w.sn < cb.rcv.nxt ==> NothingNew(cb.rcv, c.rcv))
  }

  // ---------------------------------------------------------------- consequences for one state

  /** How far the two ends can be apart. The sender may be ahead of `rcv_nxt` in what it believes
      received, because a receiver whose queue is full acknowledges what it keeps in `rcv_buf`. */
  lemma Distance(s: Snd, r: Rcv, numbered: seq<Frag>)
    requires SndOk(s, numbered) && RcvBufOk(r, numbered) && NoneForgotten(s, r)
    ensures r.nxt <= s.nxt <= r.nxt + RCVWND_MAX + WINDOW_MAX
  {
    if s.una > r.nxt + RCVWND_MAX {
      assert !InBuf(s, s.una - 1);
      assert Held(r, s.una - 1);
    }
  }

  // ---------------------------------------------------------------- sender half

  /** As long as the window is narrow, moving the other operand moves the difference. */
  lemma DiffShift(a: int, b: int, d: int)
    requires 0 <= d <= WINDOW_MAX && ITimeDiff(a, b) > 0
    ensures ITimeDiff(a, b + d) == ITimeDiff(a, b) - d
  {
    hide ITimeDiff;
    var k := Turns(a, b);
    DiffOfTurns(a, b + d, k, ITimeDiff(a, b) - d);
  }

  /** `parse_una` removes exactly the segments below the number that `una` is taken for, whatever its age. */
  lemma DropBelowRead(s: Snd, numbered: seq<Frag>, una: nat) returns (k: nat)
    requires SndOk(s, numbered)
    ensures k <= |s.buf| && DropBelow(s.buf, una) == s.buf[k..]
    ensures forall i | 0 <= i < |s.buf| :: i < k <==> s.buf[i].sn < UnaRead(s, una)
  {
    k := DropBelowIsSuffix(s.buf, una);
    var t := ITimeDiff(una, s.una);
    forall i | 0 <= i < |s.buf| ensures i < k <==> s.buf[i].sn < s.una + t {
      if t > 0 {
        DiffShift(una, s.una, s.buf[i].sn - s.una);
        if k < |s.buf| {
          DiffShift(una, s.una, s.buf[k].sn - s.una);
        }
      }
    }
  }

  lemma ParseUnaKeeps(s: Snd, r: Rcv, numbered: seq<Frag>, una: nat)
    requires SndOk(s, numbered) && NoneForgotten(s, r) && UnaSafe(s, una, r)
    ensures NoneForgotten(ParseUna(s, una), r)
  {
    var j := DropBelowRead(s, numbered, una);
    var t := ParseUna(s, una);
    hide ITimeDiff, DropBelow;
    forall n: nat | n < s.nxt ensures InBuf(t, n) || Held(r, n) {
      if InBuf(s, n) {
        var i :| 0 <= i < |s.buf| && s.buf[i].sn == n;
        if i >= j {
          assert t.buf[i - j].sn == n;
        }
      }
    }
  }

  /** A cumulative acknowledgement of any age forgets nothing exactly when it is not taken for one of data the
      receiver misses. */
  lemma ParseUnaIff(s: Snd, r: Rcv, numbered: seq<Frag>, una: nat)
    requires SndOk(s, numbered) && NoneForgotten(s, r)
    ensures NoneForgotten(ParseUna(s, una), r) <==> UnaSafe(s, una, r)
    ensures SndOk(ParseUna(s, una), numbered) && ParseUna(s, una).una >= s.una
  {
    if UnaSafe(s, una, r) {
      ParseUnaKeeps(s, r, numbered, una);
    }
    var j := DropBelowRead(s, numbered, una);
    var t := ParseUna(s, una);
    hide ITimeDiff, DropBelow;
    assert t.buf == s.buf[j..];
    assert forall i | 0 <= i < |t.buf| :: t.buf[i] == s.buf[i + j];
    if NoneForgotten(t, r) {
      forall k: nat | s.una <= k < s.nxt && k < UnaRead(s, una) ensures Held(r, k) {
        assert InBuf(t, k) || Held(r, k);
      }
    }
  }

  /** Taking one received segment out of the send buffer. */
  lemma TakeOutKeeps(s: Snd, r: Rcv, numbered: seq<Frag>, left: seq<Seg>, x: Seg, right: seq<Seg>)
    requires SndOk(s, numbered) && NoneForgotten(s, r)
    requires s.buf == left + [x] + right && Held(r, x.sn)
    ensures var t := Shrink(s.(buf := left + right));
            SndOk(t, numbered) && NoneForgotten(t, r) && t.una >= s.una
  {
    var k := |left|;
    var t := Shrink(s.(buf := left + right));
    assert s.buf[k] == x;
    assert forall i | 0 <= i < k :: t.buf[i] == s.buf[i];
    assert forall i | k <= i < |t.buf| :: t.buf[i] == s.buf[i + 1];
    forall n: nat | n < s.nxt ensures InBuf(t, n) || Held(r, n) {
      if InBuf(s, n) {
        var i :| 0 <= i < |s.buf| && s.buf[i].sn == n;
        if i != k {
          assert t.buf[if i < k then i else i - 1].sn == n;
        }
      }
    }
  }

  lemma {:induction false} RemoveSnHits(buf: seq<Seg>, sn: nat, lo: nat, k: nat)
    requires SortedSegs(buf) && SameSn(k, sn) && k <= lo + WINDOW_MAX
    requires forall i | 0 <= i < |buf| :: lo <= buf[i].sn <= lo + WINDOW_MAX
    ensures forall i | 0 <= i < |RemoveSn(buf, sn)| :: RemoveSn(buf, sn)[i].sn != k
    decreases |buf|
  {
    if buf != [] {
      DiffOfReduced(sn, buf[0].sn, 0);
      DiffOfReduced(k, buf[0].sn, 0);
      if buf[0].sn <= k {
        SameSnExact(k, buf[0].sn);
        DiffExact(k, buf[0].sn);
        RemoveSnHits(buf[1..], sn, lo, k);
      }
      if RemoveSn(buf, sn) == [buf[0]] + RemoveSn(buf[1..], sn) {
        RemoveSnHits(buf[1..], sn, lo, k);
      }
    }
  }

  /** What is in flight is taken for itself. */
  lemma InFlightIs(s: Snd, sn: nat, k: nat)
    requires s.una <= k < s.nxt <= s.una + WINDOW_MAX && SameSn(k, sn)
    ensures InFlight(s, sn)
  {
    DiffOfReduced(sn, s.una, 0);
    DiffOfReduced(k, s.una, 0);
    DiffOfReduced(sn, s.nxt, 0);
    DiffOfReduced(k, s.nxt, 0);
    DiffExact(k, s.una);
    DiffExact(k, s.nxt);
  }

  lemma ParseAckKeeps(s: Snd, r: Rcv, numbered: seq<Frag>, sn: nat)
    requires SndOk(s, numbered) && NoneForgotten(s, r) && AckSafe(s, sn, r)
    ensures SndOk(ParseAck(s, sn), numbered) && NoneForgotten(ParseAck(s, sn), r)
    ensures ParseAck(s, sn).una >= s.una
  {
    var left, hit, right := RemoveSnAt(s.buf, sn);
    if hit != [] {
      assert hit == [hit[0]] && s.buf[|left|] == hit[0];
      TakeOutKeeps(s, r, numbered, left, hit[0], right);
    } else {
      assert left + [] + right == left + right;
    }
  }

  /** A selective acknowledgement of any age forgets nothing exactly when it is not taken for one of data the
      receiver misses. */
  lemma ParseAckIff(s: Snd, r: Rcv, numbered: seq<Frag>, sn: nat)
    requires SndOk(s, numbered) && NoneForgotten(s, r)
    ensures NoneForgotten(ParseAck(s, sn), r) <==> AckSafe(s, sn, r)
  {
    if AckSafe(s, sn, r) {
      ParseAckKeeps(s, r, numbered, sn);
    }
    var t := ParseAck(s, sn);
    if NoneForgotten(t, r) {
      forall k: nat | s.una <= k < s.nxt && SameSn(k, sn) ensures Held(r, k) {
        assert InBuf(t, k) || Held(r, k);
        InFlightIs(s, sn, k);
        RemoveSnHits(s.buf, sn, s.una, k);
      }
    }
  }

  /** Changing only the bookkeeping of segments changes nothing for the invariant. */
  lemma SameNumbersKeep(s: Snd, t: Snd, r: Rcv, numbered: seq<Frag>)
    requires SndOk(s, numbered) && NoneForgotten(s, r)
    requires t.una == s.una && t.nxt == s.nxt && |t.buf| == |s.buf|
    requires forall i | 0 <= i < |s.buf| :: t.buf[i].sn == s.buf[i].sn && t.buf[i].frag == s.buf[i].frag
    ensures SndOk(t, numbered) && NoneForgotten(t, r)
  {
    forall n: nat | n < s.nxt ensures InBuf(t, n) || Held(r, n) {
      if InBuf(s, n) {
        var i :| 0 <= i < |s.buf| && s.buf[i].sn == n;
        assert t.buf[i].sn == n;
      }
    }
  }

  /** Numbering queued segments extends the history by exactly those segments, and the window bounds
      how many are outstanding. */
  lemma {:induction false} FillWindowKeeps(s: Snd, r: Rcv, numbered: seq<Frag>, cwnd: U32, current: U32,
                                           rto: U32)
    returns (moved: nat)
    requires SndOk(s, numbered) && NoneForgotten(s, r) && cwnd <= WINDOW_MAX
    ensures var t := FillWindow(true, s, cwnd, current, rto);
            && moved <= |s.queue| && t.queue == s.queue[moved..]
            && SndOk(t, numbered + s.queue[..moved]) && NoneForgotten(t, r)
    decreases |s.queue|
  {
    DiffExact(s.nxt, s.una + cwnd);
    if ITimeDiff(s.nxt, s.una + cwnd) < 0 && s.queue != [] {
      var g := Seg(s.nxt, s.queue[0], current, rto, 0, 0);
      var s1 := s.(queue := s.queue[1..], nxt := s.nxt + 1, buf := s.buf + [g]);
      forall n: nat | n < s1.nxt ensures InBuf(s1, n) || Held(r, n) {
        if n == s.nxt {
          assert s1.buf[|s.buf|].sn == n;
        } else if InBuf(s, n) {
          var i :| 0 <= i < |s.buf| && s.buf[i].sn == n;
          assert s1.buf[i].sn == n;
        }
      }
      var m := FillWindowKeeps(s1, r, numbered + [s.queue[0]], cwnd, current, rto);
      moved := m + 1;
      assert s.queue[1..][..m] == s.queue[1..moved];
      assert numbered + [s.queue[0]] + s.queue[1..moved] == numbered + s.queue[..moved];
    } else {
      moved := 0;
      assert numbered + [] == numbered;
    }
  }

  // ---------------------------------------------------------------- receiver half

  /** The receiver has moved on: it holds at least what it held. */
  ghost predicate Advanced(r: Rcv, t: Rcv) {
    r.nxt <= t.nxt && forall k: nat :: Held(r, k) ==> Held(t, k)
  }

  /** Moving the next fragment on. */
  lemma PrefixGrows(popped: seq<Frag>, queue: seq<Frag>, numbered: seq<Frag>, n: nat)
    requires n < |numbered| && popped + queue == numbered[..n]
    ensures popped + (queue + [numbered[n]]) == numbered[..n + 1]
  {
    assert popped + (queue + [numbered[n]]) == (popped + queue) + [numbered[n]];
  }

  lemma HeadMoves(r: Rcv, numbered: seq<Frag>)
    requires RcvBufOk(r, numbered) && r.buf != [] && r.buf[0].sn == r.nxt
    ensures var r1 := r.(nxt := r.nxt + 1, queue := r.queue + [numbered[r.nxt]], buf := r.buf[1..]);
            RcvBufOk(r1, numbered) && Advanced(r, r1)
  {
    var r1 := r.(nxt := r.nxt + 1, queue := r.queue + [numbered[r.nxt]], buf := r.buf[1..]);
    assert RSegOk(r.buf[0], r.nxt, numbered);
    forall i | 0 <= i < |r1.buf| ensures RSegOk(r1.buf[i], r1.nxt, numbered) {
      assert r1.buf[i] == r.buf[i + 1] && RSegOk(r.buf[i + 1], r.nxt, numbered);
    }
    forall k: nat | Held(r, k) ensures Held(r1, k) {
      if k >= r1.nxt {
        var i :| 0 <= i < |r.buf| && r.buf[i].sn == k;
        assert r1.buf[i - 1].sn == k;
      }
    }
  }

  lemma {:induction false} MoveReadyKeeps(r: Rcv, numbered: seq<Frag>, popped: seq<Frag>)
    requires RcvBufOk(r, numbered) && popped + r.queue == numbered[..r.nxt]
    ensures var t := MoveReady(true, r);
            RcvBufOk(t, numbered) && popped + t.queue == numbered[..t.nxt] && Advanced(r, t) && t.acks == r.acks
    decreases |r.buf|
  {
    if r.buf != [] && SameSn(r.buf[0].sn, r.nxt) && |r.queue| < r.wnd {
      assert RSegOk(r.buf[0], r.nxt, numbered);
      SameSnExact(r.buf[0].sn, r.nxt);
      hide SameSn, RcvBufOk, Held, RSegOk;
      var r1 := r.(nxt := r.nxt + 1, queue := r.queue + [r.buf[0].frag], buf := r.buf[1..]);
      HeadMoves(r, numbered);
      PrefixGrows(popped, r.queue, numbered, r.nxt);
      MoveReadyKeeps(r1, numbered, popped);
    }
  }

  lemma SpliceSorted(left: seq<RSeg>, g: RSeg, right: seq<RSeg>)
    requires SortedRSegs(left + right)
    requires forall i | 0 <= i < |left| :: left[i].sn < g.sn
    requires forall i | 0 <= i < |right| :: g.sn < right[i].sn
    ensures SortedRSegs(left + [g] + right)
  {
    var was, b, k := left + right, left + [g] + right, |left|;
    assert forall i | 0 <= i < k :: b[i] == was[i] == left[i];
    assert forall i | k < i < |b| :: b[i] == was[i - 1] == right[i - k - 1];
  }

  lemma SpliceHeld(r: Rcv, left: seq<RSeg>, g: RSeg, right: seq<RSeg>)
    requires r.buf == left + right
    ensures Advanced(r, r.(buf := left + [g] + right)) && Held(r.(buf := left + [g] + right), g.sn)
  {
    var k, b := |left|, left + [g] + right;
    assert b[k] == g;
    forall n: nat | Held(r, n) ensures Held(r.(buf := b), n) {
      if n >= r.nxt {
        var i :| 0 <= i < |r.buf| && r.buf[i].sn == n;
        assert b[if i < k then i else i + 1] == r.buf[i];
      }
    }
  }

  /** Putting a new number between its neighbours. */
  lemma SpliceKeeps(r: Rcv, numbered: seq<Frag>, left: seq<RSeg>, g: RSeg, right: seq<RSeg>)
    requires RcvBufOk(r, numbered) && r.buf == left + right
    requires g.sn < |numbered| && numbered[g.sn] == g.frag && r.nxt <= g.sn < r.nxt + RCVWND_MAX
    requires forall i | 0 <= i < |left| :: left[i].sn < g.sn
    requires forall i | 0 <= i < |right| :: g.sn < right[i].sn
    ensures var r1 := r.(buf := left + [g] + right);
            RcvBufOk(r1, numbered) && Advanced(r, r1) && Held(r1, g.sn)
  {
    SpliceSorted(left, g, right);
    SpliceHeld(r, left, g, right);
    var b, k := left + [g] + right, |left|;
    assert RSegOk(g, r.nxt, numbered);
    forall i | 0 <= i < |b| ensures RSegOk(b[i], r.nxt, numbered) {
      assert b[i] == if i < k then r.buf[i] else if i == k then g else r.buf[i - 1];
    }
  }

  lemma InsertKeeps(r: Rcv, numbered: seq<Frag>, g: RSeg)
    requires RcvBufOk(r, numbered)
    requires g.sn < |numbered| && numbered[g.sn] == g.frag
    requires r.nxt <= g.sn < r.nxt + r.wnd
    ensures var r1 := r.(buf := Insert(r.buf, g));
            RcvBufOk(r1, numbered) && Advanced(r, r1) && Held(r1, g.sn)
  {
    var left, right, repeat := InsertAt(r.buf, g);
    if repeat {
      assert r.buf[|left|].sn == g.sn;
    } else {
      SpliceKeeps(r, numbered, left, g, right);
    }
  }

  lemma ParseDataKeeps(r: Rcv, numbered: seq<Frag>, popped: seq<Frag>, g: RSeg)
    requires RcvBufOk(r, numbered) && popped + r.queue == numbered[..r.nxt]
    requires g.sn < |numbered| && numbered[g.sn] == g.frag
    requires r.nxt <= g.sn < r.nxt + r.wnd
    ensures var t := ParseData(true, r, g);
            && RcvBufOk(t, numbered) && popped + t.queue == numbered[..t.nxt]
            && Advanced(r, t) && t.acks == r.acks && Held(t, g.sn)
  {
    DiffExact(g.sn, r.nxt + r.wnd);
    DiffExact(g.sn, r.nxt);
    InsertKeeps(r, numbered, g);
    MoveReadyKeeps(r.(buf := Insert(r.buf, g)), numbered, popped);
  }

  /** The window tests of `ikcp_input` look for a number of the window that is the same modulo 2^32. */
  lemma WindowRead(nxt: nat, wnd: nat, sn: nat, k: nat)
    requires wnd <= RCVWND_MAX && k == nxt + ITimeDiff(sn, nxt)
    ensures SameSn(k, sn)
    ensures ITimeDiff(sn, nxt + wnd) < 0 && ITimeDiff(sn, nxt) >= 0 <==> nxt <= k < nxt + wnd
    ensures forall j: nat | nxt <= j < nxt + wnd && SameSn(j, sn) :: j == k
  {
    hide ITimeDiff, SameSn;
    var t := ITimeDiff(sn, nxt);
    var turns := Turns(sn, nxt);
    DiffOfTurns(k, sn, -turns, 0);
    if t >= 0 {
      DiffOfTurns(sn, nxt + wnd, turns, t - wnd);
    }
    forall j: nat | nxt <= j < nxt + wnd && SameSn(j, sn) ensures j == k {
      var e := ITimeDiff(j, sn);
      var more := Turns(j, sn);
      DiffOfTurns(j, sn, more, e);
    }
  }

  /** How the window tests of `ikcp_input` read when the numbers are not too far apart. */
  lemma PushWindow(r: Rcv, sn: nat)
    requires 0 <= sn - r.nxt < TWO31 && r.wnd <= RCVWND_MAX
    ensures ITimeDiff(sn, r.nxt + r.wnd) < 0 ==> sn < r.nxt + r.wnd
  {
    WindowRead(r.nxt, r.wnd, sn, sn);
  }

  /** A new segment is never further ahead than both windows. It is taken for what it is, or, if it is 2^31 numbers
      ahead, for an old one. */
  lemma AcceptNewKeeps(r: Rcv, numbered: seq<Frag>, popped: seq<Frag>, w: Wire)
    requires RcvOk(r, numbered, popped) && w.cmd == CMD_PUSH && PushOk(w, numbered)
    requires w.sn >= r.nxt && |numbered| <= r.nxt + RCVWND_MAX + WINDOW_MAX
    ensures var t := AcceptPush(true, r, w);
            RcvOk(t, numbered, popped) && Advanced(r, t)
  {
    var r1 := r.(acks := r.acks + [Ack(w.sn, w.ts)]);
    assert forall k: nat :: Held(r1, k) == Held(r, k);
    if w.sn - r.nxt >= TWO31 {
      DiffOfTurns(w.sn, r.nxt, 1, w.sn - r.nxt - TWO32);
    } else if ITimeDiff(w.sn, r.nxt + r.wnd) < 0 {
      PushWindow(r, w.sn);
      ParseDataKeeps(r1, numbered, popped, RSeg(w.sn, Frag(w.frg, w.data)));
    }
  }

  // ---------------------------------------------------------------- duplicates

  /** Insertion looks only at the low 32 bits of the number. */
  lemma {:induction false} InsertAlike(buf: seq<RSeg>, g: RSeg, h: RSeg)
    requires SameSn(g.sn, h.sn)
    ensures |Insert(buf, g)| == |Insert(buf, h)| && (Insert(buf, g) == buf <==> |Insert(buf, h)| == |buf|)
    ensures |buf| <= |Insert(buf, g)| <= |buf| + 1
    decreases |buf|
  {
    if buf != [] {
      var last := buf[|buf| - 1];
      var front := buf[..|buf| - 1];
      assert buf == front + [last];
      DiffOfReduced(last.sn, g.sn, 0);
      DiffOfReduced(last.sn, h.sn, 0);
      DiffOfReduced(g.sn, last.sn, 0);
      DiffOfReduced(h.sn, last.sn, 0);
      InsertAlike(front, g, h);
    }
  }

  lemma InsertGrowsUnlessThere(r: Rcv, numbered: seq<Frag>, g: RSeg)
    requires RcvBufOk(r, numbered) && r.nxt <= g.sn < r.nxt + r.wnd
    ensures |Insert(r.buf, g)| == |r.buf| <==> Waits(r.buf, g.sn)
  {
    forall i | 0 <= i < |r.buf| ensures -TWO31 < r.buf[i].sn - g.sn < TWO31 {
      assert RSegOk(r.buf[i], r.nxt, numbered);
    }
    var left, right, repeat := InsertAt(r.buf, g);
    if repeat {
      assert r.buf[|left|].sn == g.sn;
    } else {
      forall i | 0 <= i < |r.buf| ensures r.buf[i].sn != g.sn {
        if i < |left| {
          assert r.buf[i] == left[i];
        } else {
          assert r.buf[i] == right[i - |left|];
        }
      }
    }
  }

  /** Moving segments on loses none of them. */
  lemma {:induction false} MoveReadyCount(r: Rcv)
    ensures var t := MoveReady(true, r); |t.queue| + |t.buf| == |r.queue| + |r.buf|
    decreases |r.buf|
  {
    if r.buf != [] && SameSn(r.buf[0].sn, r.nxt) && |r.queue| < r.wnd {
      MoveReadyCount(r.(nxt := Succ(true, r.nxt), queue := r.queue + [r.buf[0].frag], buf := r.buf[1..]));
    }
  }

  lemma {:induction false} AcksDoNotMatter(r: Rcv, acks: seq<Ack>)
    ensures MoveReady(true, r.(acks := acks)) == MoveReady(true, r).(acks := acks)
    decreases |r.buf|
  {
    if r.buf != [] && SameSn(r.buf[0].sn, r.nxt) && |r.queue| < r.wnd {
      var r1 := r.(nxt := Succ(true, r.nxt), queue := r.queue + [r.buf[0].frag], buf := r.buf[1..]);
      AcksDoNotMatter(r1, acks);
    }
  }

  lemma MoveReadyAcks(r: Rcv)
    ensures MoveReady(true, r).acks == r.acks
  {
    AcksDoNotMatter(r, r.acks);
  }

  /** What becomes of a segment that passes both window tests: nothing but an acknowledgement exactly when
      the insertion finds its number there. */
  lemma MistakenFor(r: Rcv, a: Ack, g: RSeg)
    requires ITimeDiff(g.sn, r.nxt + r.wnd) < 0 && ITimeDiff(g.sn, r.nxt) >= 0
    ensures NothingNew(r, ParseData(true, r.(acks := r.acks + [a]), g)) <==> |Insert(r.buf, g)| == |r.buf|
  {
    InsertAlike(r.buf, g, g);
    hide ITimeDiff, SameSn, Insert, MoveReady;
    var r1 := r.(acks := r.acks + [a]);
    var r2 := r1.(buf := Insert(r.buf, g));
    assert ParseData(true, r1, g) == MoveReady(true, r2);
    MoveReadyCount(r2);
    MoveReadyCount(r);
    MoveReadyAcks(r);
    AcksDoNotMatter(r, r1.acks);
  }

  /** A duplicate of delivered data, however old, brings nothing new exactly when it is not taken for an awaited
      number. */
  lemma AcceptOldIff(r: Rcv, numbered: seq<Frag>, w: Wire)
    requires RcvBufOk(r, numbered) && w.sn < r.nxt
    ensures NothingNew(r, AcceptPush(true, r, w)) <==> PushSafe(r, w.sn)
  {
    var k := r.nxt + ITimeDiff(w.sn, r.nxt);
    WindowRead(r.nxt, r.wnd, w.sn, k);
    hide ITimeDiff, SameSn, MoveReady, Insert, ParseData, Waits;
    var g := RSeg(w.sn, Frag(w.frg, w.data));
    if r.nxt <= k < r.nxt + r.wnd {
      InsertAlike(r.buf, g, g.(sn := k));
      InsertGrowsUnlessThere(r, numbered, g.(sn := k));
      MistakenFor(r, Ack(w.sn, w.ts), g);
    }
  }

  lemma AcceptAcks(r: Rcv, w: Wire)
    ensures var t := AcceptPush(true, r, w); t.acks == r.acks || t.acks == r.acks + [Ack(w.sn, w.ts)]
  {
    hide MoveReady, Insert, ITimeDiff;
    var r1 := r.(acks := r.acks + [Ack(w.sn, w.ts)]);
    MoveReadyAcks(r1.(buf := Insert(r1.buf, RSeg(w.sn, Frag(w.frg, w.data)))));
  }

  lemma AcceptPushWnd(r: Rcv, w: Wire)
    ensures AcceptPush(true, r, w).wnd == r.wnd
  {
    hide MoveReady, Insert, ITimeDiff;
    var r1 := r.(acks := r.acks + [Ack(w.sn, w.ts)]);
    MoveReadyWnd(true, r1.(buf := Insert(r1.buf, RSeg(w.sn, Frag(w.frg, w.data)))));
  }

  /** A harmless duplicate keeps the receiver half in order. */
  lemma AcceptOldKeeps(r: Rcv, numbered: seq<Frag>, popped: seq<Frag>, w: Wire)
    requires RcvOk(r, numbered, popped) && w.sn < r.nxt && PushSafe(r, w.sn)
    ensures var t := AcceptPush(true, r, w);
            RcvOk(t, numbered, popped) && Advanced(r, t)
  {
    AcceptOldIff(r, numbered, w);
    MoveReadyKeeps(r, numbered, popped);
    var t := AcceptPush(true, r, w);
    AcceptAcks(r, w);
    var u := if t.(acks := r.acks) == r then r else MoveReady(true, r);
    assert t == u.(acks := t.acks);
    assert forall k: nat :: Held(t, k) == Held(u, k);
  }

  lemma AcceptPushKeeps(r: Rcv, numbered: seq<Frag>, popped: seq<Frag>, w: Wire)
    requires RcvOk(r, numbered, popped) && w.cmd == CMD_PUSH && PushOk(w, numbered) && PushSafe(r, w.sn)
    requires |numbered| <= r.nxt + RCVWND_MAX + WINDOW_MAX
    ensures var t := AcceptPush(true, r, w);
            RcvOk(t, numbered, popped) && Advanced(r, t)
  {
    if w.sn < r.nxt {
      AcceptOldKeeps(r, numbered, popped, w);
    } else {
      AcceptNewKeeps(r, numbered, popped, w);
    }
  }

  // ---------------------------------------------------------------- what is acknowledged

  /** A new segment is acknowledged though it is not kept exactly if it is 2^31 numbers beyond the end of the window.
      A fixed window rules that out; a window that is taken back far enough does not. */
  lemma AckedUnheldIff(r: Rcv, numbered: seq<Frag>, popped: seq<Frag>, w: Wire)
    requires RcvOk(r, numbered, popped) && w.cmd == CMD_PUSH && PushOk(w, numbered) && AcksOk(r)
    requires w.sn >= r.nxt && |numbered| <= r.nxt + RCVWND_MAX + WINDOW_MAX
    ensures var t := AcceptPush(true, r, w);
            && (!AcksOk(t) <==> w.sn - (r.nxt + r.wnd) >= TWO31)
            && (!AcksOk(t) ==> t == r.(acks := r.acks + [Ack(w.sn, w.ts)]) && !Held(t, w.sn))
  {
    var r1, t := r.(acks := r.acks + [Ack(w.sn, w.ts)]), AcceptPush(true, r, w);
    AcceptNewKeeps(r, numbered, popped, w);
    AcceptAcks(r, w);
    var d := w.sn - (r.nxt + r.wnd);
    if d >= TWO31 {
      DiffOfTurns(w.sn, r.nxt + r.wnd, 1, d - TWO32);
      DiffOfTurns(w.sn, r.nxt, 1, w.sn - r.nxt - TWO32);
      assert t == r1;
      forall i | 0 <= i < |r.buf| ensures r.buf[i].sn != w.sn {
        assert RSegOk(r.buf[i], r.nxt, numbered);
      }
      assert t.acks[|r.acks|].sn == w.sn;
    } else {
      DiffExact(w.sn, r.nxt + r.wnd);
      if d < 0 {
        ParseDataKeeps(r1, numbered, popped, RSeg(w.sn, Frag(w.frg, w.data)));
      }
    }
  }

  /** What is acknowledged is held: of a harmless push, unless it is 2^31 numbers beyond the end of the window. */
  lemma AcceptPushTrue(r: Rcv, numbered: seq<Frag>, popped: seq<Frag>, w: Wire)
    requires RcvOk(r, numbered, popped) && w.cmd == CMD_PUSH && PushOk(w, numbered) && PushSafe(r, w.sn) && AcksOk(r)
    requires |numbered| <= r.nxt + RCVWND_MAX + WINDOW_MAX && w.sn - (r.nxt + r.wnd) < TWO31
    ensures AcksOk(AcceptPush(true, r, w))
  {
    if w.sn >= r.nxt {
      AckedUnheldIff(r, numbered, popped, w);
    } else {
      AcceptPushKeeps(r, numbered, popped, w);
      AcceptAcks(r, w);
    }
  }

  // ---------------------------------------------------------------- one segment of any age

  /** The two halves of endpoint `p` that talk to `q`. */
  ghost predicate HalvesOk(p: Peer, q: Peer) {
    && SndOk(p.cb.snd, p.numbered)
    && NoneForgotten(p.cb.snd, q.cb.rcv)
    && q.cb.rcv.nxt <= |p.numbered|
    && RcvOk(p.cb.rcv, q.numbered, p.popped)
    && |q.numbered| <= p.cb.rcv.nxt + RCVWND_MAX + WINDOW_MAX
  }

  lemma AckForgetsMore(s: Snd, numbered: seq<Frag>, sn: nat, r: Rcv)
    requires SndOk(s, numbered)
    ensures NoneForgotten(ParseAck(s, sn), r) ==> NoneForgotten(s, r)
  {
    hide ITimeDiff, SameSn, RemoveSn;
    var left, hit, right := RemoveSnAt(s.buf, sn);
    var t := ParseAck(s, sn);
    forall k: nat | InBuf(t, k) ensures InBuf(s, k) {
      var i :| 0 <= i < |t.buf| && t.buf[i].sn == k;
      if t.buf == left + right {
        assert s.buf[if i < |left| then i else i + |hit|] == t.buf[i];
      }
    }
  }

  /** Numbers that a harmless `una` took off are held already. */
  lemma AckSafeBefore(s: Snd, t: Snd, sn: nat, r: Rcv)
    requires NoneForgotten(t, r) && t.nxt == s.nxt && s.una <= t.una
             && forall i | 0 <= i < |t.buf| :: t.una <= t.buf[i].sn
    ensures AckSafe(s, sn, r) <==> AckSafe(t, sn, r)
  {
    forall k: nat | k < t.una && k < t.nxt ensures Held(r, k) {
      assert InBuf(t, k) || Held(r, k);
    }
  }

  /** A segment of any age, with any numbers, makes the sender forget what the receiver misses, or the receiver
      take a duplicate for new data, exactly when one of its numbers is misread to that effect. */
  lemma SegmentIff(p: Peer, q: Peer, w: Wire)
    requires HalvesOk(p, q)
    ensures Innocent(p.cb, q.cb.rcv, w) <==> Harmless(p.cb, q.cb.rcv, w)
  {
    var s, r := p.cb.snd, q.cb.rcv;
    ParseUnaIff(s, r, p.numbered, w.una);
    var s1 := ParseUna(s, w.una);
    if w.cmd == CMD_ACK {
      AckForgetsMore(s1, p.numbered, w.sn, r);
      if UnaSafe(s, w.una, r) {
        ParseAckIff(s1, r, p.numbered, w.sn);
        AckSafeBefore(s, s1, w.sn, r);
      }
    } else if w.cmd == CMD_PUSH && w.sn < p.cb.rcv.nxt {
      AcceptOldIff(p.cb.rcv, q.numbered, w);
    }
  }
}
