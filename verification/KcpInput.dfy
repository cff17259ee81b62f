/** What one `ikcp_input` does with any string of bytes, and what each kind of segment does to the fields of the
    control block, said without the functions of the loops: which bytes are a segment of this conversation, when
    each return code comes, what the round-trip estimate, the windows and the counters are afterwards, and that
    requests and data are answered by the next flush. */
module KcpInput {
  import opened LittleEndian
  import opened KcpArith
  import opened KcpWire
  import opened KcpModel
  import opened KcpWrap
  import opened KcpQueues
  import opened KcpCongestion
  import opened KcpDatagrams
  import opened KcpTimers
  import opened KcpFlush

  // ---------------------------------------------------------------- the header, byte by byte

  /** The fields of a header lie at these places, numbers in little-endian order. */
  lemma HeaderFields(b: seq<Byte>)
    requires |b| >= 24
    ensures var h := DecodeHeader(b);
            && h.conv == FromDigits(b[0..4]) && h.cmd == b[4] && h.frg == b[5] && h.wnd == FromDigits(b[6..8])
            && h.ts == FromDigits(b[8..12]) && h.sn == FromDigits(b[12..16]) && h.una == FromDigits(b[16..20])
            && DecodeLen(b) == FromDigits(b[20..24])
  {
    forall k: nat | k <= 20 ensures Dec32(b[k..]) == FromDigits(b[k..k + 4])
        && Dec16(b[k..]) == FromDigits(b[k..k + 2]) {
      DecIsDigits(b[k..]);
      assert b[k..][..4] == b[k..k + 4] && b[k..][..2] == b[k..k + 2];
    }
    assert b[0..] == b;
  }

  // ---------------------------------------------------------------- the return code

  /** `b` starts with a whole segment of conversation `conv`, with a command there is, and `w` is that segment. */
  predicate StartsWith(b: seq<Byte>, w: Wire, conv: U32) {
    && |b| >= 24 && FromDigits(b[0..4]) == conv && b[4] in {81, 82, 83, 84} && |b| >= 24 + FromDigits(b[20..24])
    && w.conv == conv && w.cmd == b[4] && w.frg == b[5] && w.wnd == FromDigits(b[6..8]) && w.ts == FromDigits(b[8..12])
    && w.sn == FromDigits(b[12..16]) && w.una == FromDigits(b[16..20]) && w.data == b[24..24 + FromDigits(b[20..24])]
  }

  /** `b` is the segments `ws` of conversation `conv`, one behind the other, and then `rest`. */
  predicate Cut(b: seq<Byte>, conv: U32, ws: seq<Wire>, rest: seq<Byte>)
    decreases |ws|
  {
    if ws == [] then b == rest
    else StartsWith(b, ws[0], conv) && Cut(b[24 + |ws[0].data|..], conv, ws[1..], rest)
  }

  /** Why no whole segment of the conversation is at the front of `rest`: 0 if there are fewer bytes than a header,
      -1 for another conversation, -2 for a length beyond the end, -3 for a command there is not. */
  predicate StopsWith(rest: seq<Byte>, conv: U32, code: int) {
    if |rest| < 24 then code == 0
    else if FromDigits(rest[0..4]) != conv then code == -1
    else if |rest| < 24 + FromDigits(rest[20..24]) then code == -2
    else code == -3 && rest[4] !in {81, 82, 83, 84}
  }

  lemma StopsOrStarts(b: seq<Byte>, conv: U32) returns (w: Wire, code: int)
    ensures StopsWith(b, conv, code) || StartsWith(b, w, conv)
  {
    code := 0;
    if |b| >= 24 {
      HeaderFields(b);
      w := DecodeHeader(b);
      var len: int := DecodeLen(b);
      if |b| >= 24 + len {
        w := DecodeSeg(b);
        assert b[24..][..len] == b[24..24 + len];
      }
      code := if w.conv != conv then -1 else if |b| < 24 + len then -2 else -3;
    } else {
      w := Wire(0, 0, 0, 0, 0, 0, 0, []);
    }
  }

  lemma StartsIs(b: seq<Byte>, w: Wire, conv: U32)
    requires StartsWith(b, w, conv)
    ensures DecodeHeader(b).conv == conv && |b| - 24 >= DecodeLen(b) && KnownCmd(DecodeHeader(b).cmd)
    ensures DecodeSeg(b) == w && b[24..][DecodeLen(b)..] == b[24 + |w.data|..]
    ensures forall code :: !StopsWith(b, conv, code)
  {
    HeaderFields(b);
    assert b[24..][..DecodeLen(b)] == b[24..24 + DecodeLen(b)];
  }

  /** Every string can be cut so. */
  lemma {:induction false} CutExists(b: seq<Byte>, conv: U32) returns (ws: seq<Wire>, rest: seq<Byte>, code: int)
    ensures Cut(b, conv, ws, rest) && StopsWith(rest, conv, code)
    decreases |b|
  {
    var w, stop := StopsOrStarts(b, conv);
    if StopsWith(b, conv, stop) {
      ws, rest, code := [], b, stop;
    } else {
      var ws1, rest1, code1 := CutExists(b[24 + |w.data|..], conv);
      ws, rest, code := [w] + ws1, rest1, code1;
      assert ws[1..] == ws1;
    }
  }

  lemma {:induction false} LoopReads(cb: Cb, m: MaxAck, b: seq<Byte>, ws: seq<Wire>, rest: seq<Byte>, code: int)
    requires Cut(b, cb.conv, ws, rest) && StopsWith(rest, cb.conv, code)
    ensures InputLoop(cb, m, b) == (code, InputSegs(false, cb, ws), NoteAcks(m, ws))
    decreases |ws|
  {
    if ws == [] {
      if |b| >= 24 {
        HeaderFields(b);
      }
    } else {
      hide InputSeg, NoteAck, StopsWith;
      StartsIs(b, ws[0], cb.conv);
      LoopReads(InputSeg(false, cb, ws[0]), NoteAck(m, ws[0]), b[24 + |ws[0].data|..], ws[1..], rest, code);
    }
  }

  /** What `ikcp_input` does with any string of bytes. Fewer bytes than a header are refused. Otherwise cut the
      string into whole segments of this conversation until none is left at the front: if what is left is shorter
      than a header the segments were a datagram, and if not, the code says why, and just those segments had
      their effect. */
  lemma InputCodes(cb: Cb, b: seq<Byte>, ws: seq<Wire>, rest: seq<Byte>, code: int)
    requires cb.Mss() > 0 && Cut(b, cb.conv, ws, rest) && StopsWith(rest, cb.conv, code)
    ensures |b| < 24 ==> InputBytes(cb, b) == (-1, cb)
    ensures |b| >= 24 && code == 0 ==> InputBytes(cb, b) == (0, Input(false, cb, ws))
    ensures |b| >= 24 && code != 0 ==> InputBytes(cb, b) == (code, InputSegs(false, cb, ws))
  {
    hide InputLoop, InputSegs, NoteAcks, FinishInput, Cut;
    LoopReads(cb, NoAck, b, ws, rest, code);
  }

  /** A datagram of another conversation is refused and changes nothing. */
  lemma StrangerRefused(cb: Cb, b: seq<Byte>)
    requires cb.Mss() > 0 && |b| >= 24 && FromDigits(b[0..4]) != cb.conv
    ensures InputBytes(cb, b) == (-1, cb)
  {
    InputCodes(cb, b, [], b, -1);
  }

  lemma {:induction false} CutUnique(b: seq<Byte>, conv: U32, ws: seq<Wire>, rest: seq<Byte>, code: int,
                                     ws': seq<Wire>, rest': seq<Byte>, code': int)
    requires Cut(b, conv, ws, rest) && StopsWith(rest, conv, code)
    requires Cut(b, conv, ws', rest') && StopsWith(rest', conv, code')
    ensures ws == ws' && rest == rest' && code == code'
    decreases |ws|
  {
    if ws != [] {
      StartsIs(b, ws[0], conv);
    }
    if ws' != [] {
      StartsIs(b, ws'[0], conv);
    }
    if ws != [] && ws' != [] {
      CutUnique(b[24 + |ws[0].data|..], conv, ws[1..], rest, code, ws'[1..], rest', code');
      assert ws == [ws[0]] + ws[1..] && ws' == [ws'[0]] + ws'[1..];
    }
  }

  /** Each code comes exactly for the strings that can be cut to stop with it. */
  lemma CodeIff(cb: Cb, b: seq<Byte>, code: int)
    requires cb.Mss() > 0 && |b| >= 24
    ensures InputBytes(cb, b).0 == code
            <==> exists ws, rest :: Cut(b, cb.conv, ws, rest) && StopsWith(rest, cb.conv, code)
  {
    hide Cut, StopsWith, InputBytes;
    var ws, rest, stop := CutExists(b, cb.conv);
    InputCodes(cb, b, ws, rest, stop);
    if ws', rest' :| Cut(b, cb.conv, ws', rest') && StopsWith(rest', cb.conv, code) {
      CutUnique(b, cb.conv, ws, rest, stop, ws', rest', code);
    }
  }

  lemma EncodedStarts(w: Wire, rest: seq<Byte>)
    requires KnownCmd(w.cmd) && |w.data| < TWO32
    ensures StartsWith(Encode(w) + rest, WrapWire(w), w.conv)
    ensures (Encode(w) + rest)[24 + |w.data|..] == rest
  {
    var b := Encode(w) + rest;
    DecodeEncode(w, rest);
    HeaderFields(b);
    assert b[24..24 + |w.data|] == b[24..][..|w.data|] == w.data;
    assert b[24 + |w.data|..] == b[24..][|w.data|..] == rest;
  }

  /** The bytes a flush makes of a datagram are its segments one behind the other, with nothing left over. */
  lemma {:induction false} EncodedIsCut(ws: seq<Wire>, conv: U32)
    requires Encodable(ws) && forall w | w in ws :: w.conv == conv && KnownCmd(w.cmd)
    ensures Cut(EncodeAll(ws), conv, WrapWires(ws), [])
    decreases |ws|
  {
    if ws != [] {
      hide StartsWith, Encode;
      EncodedStarts(ws[0], EncodeAll(ws[1..]));
      EncodedIsCut(ws[1..], conv);
      WrapWiresDrop(ws);
    }
  }

  // ---------------------------------------------------------------- what a segment does

  /** Every segment tells the peer's window and acknowledges what is below its `una`; numbers are given out and
      fragments queued by none. Only an acknowledgement feeds the round-trip estimate, only data changes the receive
      side, and only a window request makes a notice owed. */
  lemma SegmentDoes(wide: bool, cb: Cb, w: Wire)
    requires KnownCmd(w.cmd)
    ensures var c := InputSeg(wide, cb, w);
            && c == cb.(snd := c.snd, rcv := c.rcv, ctl := c.ctl)
            && c.snd == cb.snd.(una := c.snd.una, buf := c.snd.buf)
            && c.snd.una == (if c.snd.buf == [] then c.snd.nxt else c.snd.buf[0].sn)
            && c.ctl == cb.ctl.(rmtWnd := w.wnd, askTell := cb.ctl.askTell || w.cmd == 83, rxSrtt := c.ctl.rxSrtt,
                                rxRttval := c.ctl.rxRttval, rxRto := c.ctl.rxRto)
            && (w.cmd != 81 ==> c.rcv == cb.rcv)
            && (w.cmd != 82 ==>
                  && c.ctl.rxSrtt == cb.ctl.rxSrtt && c.ctl.rxRttval == cb.ctl.rxRttval && c.ctl.rxRto == cb.ctl.rxRto)
  {
    hide ITimeDiff, U32Of, AcceptPush, DropBelow, RemoveSn;
  }

  lemma {:induction false} MoveReadyKeepsAcks(wide: bool, r: Rcv)
    ensures MoveReady(wide, r).acks == r.acks
    decreases |r.buf|
  {
    if r.buf != [] && SameSn(r.buf[0].sn, r.nxt) && |r.queue| < r.wnd {
      MoveReadyKeepsAcks(wide, r.(nxt := Succ(wide, r.nxt), queue := r.queue + [r.buf[0].frag], buf := r.buf[1..]));
    }
  }

  /** Data below the end of the receive window is acknowledged with its number and time, whatever else becomes of it;
      other data is not. */
  lemma PushAcked(wide: bool, cb: Cb, w: Wire)
    requires w.cmd == 81
    ensures InputSeg(wide, cb, w).rcv.acks
         == if ITimeDiff(w.sn, cb.rcv.nxt + cb.rcv.wnd) < 0 then cb.rcv.acks + [Ack(w.sn, w.ts)] else cb.rcv.acks
  {
    hide ITimeDiff, U32Of, Insert, ParseUna;
    var r1 := cb.rcv.(acks := cb.rcv.acks + [Ack(w.sn, w.ts)]);
    MoveReadyKeepsAcks(wide, r1.(buf := Insert(r1.buf, RSeg(w.sn, Frag(w.frg, w.data)))));
  }

  /** Nothing that is next in turn waits while there is room, once data has been placed. */
  lemma {:induction false} MoveReadyStops(wide: bool, r: Rcv)
    ensures var t := MoveReady(wide, r);
            && (t.buf != [] && SameSn(t.buf[0].sn, t.nxt) ==> |t.queue| >= t.wnd)
            && (|r.queue| <= r.wnd ==> |t.queue| <= t.wnd)
    decreases |r.buf|
  {
    if r.buf != [] && SameSn(r.buf[0].sn, r.nxt) && |r.queue| < r.wnd {
      MoveReadyStops(wide, r.(nxt := Succ(wide, r.nxt), queue := r.queue + [r.buf[0].frag], buf := r.buf[1..]));
    }
  }

  // ---------------------------------------------------------------- the round-trip estimate

  /** `d` is the rounded-down `n`-th part of `s`. */
  predicate PartOf(d: nat, n: nat, s: nat) {
    n * d <= s < n * d + n
  }

  /** The estimate after an acknowledgement whose time stamp lies `rtt` back: the first sample is taken over, with half
      of it as deviation; later the mean moves by an eighth towards the sample and the deviation by a quarter towards
      their distance. The timeout is the mean and the larger of the flush interval and four deviations, within its
      bounds. A time stamp of the future is ignored. */
  lemma EstimateMoves(c: Ctl, ts: U32)
    ensures var t, rtt := AckTimes(c, ts), ITimeDiff(c.current, ts);
            && t == c.(rxSrtt := t.rxSrtt, rxRttval := t.rxRttval, rxRto := t.rxRto)
            && (rtt < 0 ==> t == c)
            && (rtt >= 0 && c.rxSrtt == 0 ==> t.rxSrtt == rtt && PartOf(t.rxRttval, 2, rtt))
            && (rtt >= 0 && c.rxSrtt != 0 ==>
                  && (PartOf(t.rxSrtt, 8, 7 * c.rxSrtt + rtt) || (t.rxSrtt == 1 && 7 * c.rxSrtt + rtt < 8))
                  && PartOf(t.rxRttval, 4, 3 * c.rxRttval
                            + (if rtt >= c.rxSrtt then rtt - c.rxSrtt else c.rxSrtt - rtt)))
            && (rtt >= 0 ==> t.rxRto <= 60000 && (c.rxMinrto <= 60000 ==> t.rxRto >= c.rxMinrto))
            && (rtt >= 0 && t.rxSrtt + c.interval < TWO32 && t.rxSrtt + 4 * t.rxRttval < TWO32 ==>
                  var rto := t.rxSrtt + Max(c.interval, 4 * t.rxRttval);
                  t.rxRto == if rto <= c.rxMinrto then Min(c.rxMinrto, 60000) else Min(rto, 60000))
  {
    hide ITimeDiff;
  }

  // ---------------------------------------------------------------- segments passed over

  /** An acknowledgement of `sn` counts against the entries before it, up to the first that lies after it. */
  lemma {:induction false} PassesOver(buf: seq<Seg>, sn: nat) returns (k: nat)
    ensures k <= |buf| && (forall i | 0 <= i < k :: ITimeDiff(sn, buf[i].sn) >= 0)
    ensures k < |buf| ==> ITimeDiff(sn, buf[k].sn) < 0
    ensures var b := BumpFastack(buf, sn);
            && |b| == |buf|
            && forall i | 0 <= i < |buf| ::
                 b[i] == if i < k && !SameSn(sn, buf[i].sn)
                         then buf[i].(fastack := (buf[i].fastack + 1) % 0x1_0000_0000) else buf[i]
    decreases |buf|
  {
    hide ITimeDiff, SameSn;
    k := 0;
    if buf != [] && ITimeDiff(sn, buf[0].sn) >= 0 {
      var j := PassesOver(buf[1..], sn);
      k := j + 1;
      var b := BumpFastack(buf, sn);
      forall i | 1 <= i < |buf|
        ensures b[i] == if i < k && !SameSn(sn, buf[i].sn)
                        then buf[i].(fastack := (buf[i].fastack + 1) % 0x1_0000_0000) else buf[i]
      {
        assert b[i] == BumpFastack(buf[1..], sn)[i - 1] && buf[i] == buf[1..][i - 1];
      }
      forall i | 0 <= i < k ensures ITimeDiff(sn, buf[i].sn) >= 0 {
        assert i > 0 ==> buf[i] == buf[1..][i - 1];
      }
    }
  }

  /** The acknowledgements of `ws` carry numbers less than 2^31 behind `end`. */
  predicate AcksWithin(ws: seq<Wire>, end: nat) {
    forall i | 0 <= i < |ws| && ws[i].cmd == CMD_ACK :: end - TWO31 < ws[i].sn <= end
  }

  /** What is remembered of a datagram is the largest number acknowledged. */
  lemma {:induction false} LargestAck(m: MaxAck, ws: seq<Wire>, end: nat)
    requires AcksWithin(ws, end) && (m.SomeAck? ==> end - TWO31 < m.sn <= end)
    ensures var t := NoteAcks(m, ws);
            && (t.NoAck? <==> m.NoAck? && forall i | 0 <= i < |ws| :: ws[i].cmd != CMD_ACK)
            && (t.SomeAck? ==>
                  && (t == m || exists i | 0 <= i < |ws| :: ws[i].cmd == CMD_ACK && ws[i].sn == t.sn)
                  && (m.SomeAck? ==> m.sn <= t.sn)
                  && forall i | 0 <= i < |ws| && ws[i].cmd == CMD_ACK :: ws[i].sn <= t.sn)
    decreases |ws|
  {
    if ws != [] {
      hide ITimeDiff;
      if m.SomeAck? && ws[0].cmd == CMD_ACK {
        DiffExact(ws[0].sn, m.sn);
      }
      LargestAck(NoteAck(m, ws[0]), ws[1..], end);
      assert forall i | 0 < i < |ws| :: ws[i] == ws[1..][i - 1];
    }
  }

  // ---------------------------------------------------------------- the end of a datagram

  lemma SmallSum(a: nat, b: nat, c: nat)
    ensures a + b + c < TWO32 ==> U32Of(a + b + c) == a + b + c
  {
  }

  /** `incr` after a step of congestion avoidance: the fraction a segment is of the window and a sixteenth of a segment
      more, in bytes and rounded down, while the 32-bit sums and products do not overflow. */
  lemma AvoidanceAdds(incr: U32, mss: nat)
    requires 0 < mss < 0x1_0000
    ensures var base := Max(incr, mss);
            base + mss * mss / base + mss / 16 < TWO32 ==> AvoidIncr(incr, mss) == base + mss * mss / base + mss / 16
  {
    MulMono(mss, 0x1_0000, mss);
    WndBytesExact(mss, mss);
    hide WndBytes;
    var base := Max(incr, mss);
    SmallSum(base, WndBytes(mss, mss) / base, mss / 16);
  }

  /** The window opens only below the peer's: below the threshold by one segment, above it when `incr` has collected
      one more. */
  lemma WindowOpens(c: Ctl, mss: nat)
    requires 0 < mss < 0x1_0000 && Bytes(c.cwnd + 1, mss) < TWO32 && c.incr + mss < TWO32
    ensures var d, base := Grow(c, mss), Max(c.incr, mss);
            && d == c.(cwnd := d.cwnd, incr := d.incr)
            && (c.cwnd >= c.rmtWnd ==> d == c)
            && (c.cwnd < c.rmtWnd && c.cwnd < c.ssthresh ==> d.cwnd == c.cwnd + 1 && d.incr == c.incr + mss)
            && (c.cwnd < c.rmtWnd && c.cwnd >= c.ssthresh && base + mss * mss / base + mss / 16 < TWO32 ==>
                  && d.incr == base + mss * mss / base + mss / 16
                  && d.cwnd == c.cwnd + if Bytes(c.cwnd + 1, mss) <= d.incr then 1 else 0)
  {
    hide WndBytes, AvoidIncr, U32Of;
    AvoidanceAdds(c.incr, mss);
    WndBytesExact(c.cwnd + 1, mss);
    MulMono(1, mss, c.cwnd + 1);
    SmallSum(c.cwnd, 1, 0);
    SmallSum(c.incr, mss, 0);
  }

  /** Once its segments are read, a datagram counts the segments that its largest acknowledgement passed over, if that
      is in flight, and opens the congestion window if `snd_una` moved. It does nothing else. */
  lemma DatagramEnds(wide: bool, cb: Cb, ws: seq<Wire>)
    requires cb.Mss() > 0
    ensures var t, c, m := InputSegs(wide, cb, ws), Input(wide, cb, ws), NoteAcks(NoAck, ws);
            var counts := m.SomeAck? && ITimeDiff(m.sn, t.snd.una) >= 0 && ITimeDiff(m.sn, t.snd.nxt) < 0;
            && c == t.(snd := t.snd.(buf := if counts then BumpFastack(t.snd.buf, m.sn) else t.snd.buf),
                       ctl := if ITimeDiff(t.snd.una, cb.snd.una) > 0 then Grow(t.ctl, cb.Mss()) else t.ctl)
  {
    hide ITimeDiff, InputSegs, NoteAcks, BumpFastack, Grow;
  }

  // ---------------------------------------------------------------- what the next flush answers

  lemma {:induction false} SegmentsKeep(wide: bool, cb: Cb, ws: seq<Wire>)
    requires forall w | w in ws :: KnownCmd(w.cmd)
    ensures var c := InputSegs(wide, cb, ws);
            && c.ctl.updated == cb.ctl.updated && (cb.ctl.askTell ==> c.ctl.askTell)
            && (forall a | a in cb.rcv.acks :: a in c.rcv.acks)
            && ((exists w | w in ws :: w.cmd == 83) ==> c.ctl.askTell)
            && (ws != [] ==> c.ctl.rmtWnd == ws[|ws| - 1].wnd)
    decreases |ws|
  {
    if ws != [] {
      var c := InputSeg(wide, cb, ws[0]);
      SegmentDoes(wide, cb, ws[0]);
      if ws[0].cmd == 81 {
        PushAcked(wide, cb, ws[0]);
      }
      hide InputSeg;
      SegmentsKeep(wide, c, ws[1..]);
      assert forall w | w in ws :: w == ws[0] || w in ws[1..];
    }
  }

  lemma {:induction false} SegmentsSplit(wide: bool, cb: Cb, ws: seq<Wire>, j: nat)
    requires j <= |ws|
    ensures InputSegs(wide, cb, ws) == InputSegs(wide, InputSegs(wide, cb, ws[..j]), ws[j..])
    decreases |ws|
  {
    hide InputSeg;
    if j > 0 {
      SegmentsSplit(wide, InputSeg(wide, cb, ws[0]), ws[1..], j - 1);
      assert ws[1..][..j - 1] == ws[..j][1..] && ws[1..][j - 1..] == ws[j..];
    } else {
      assert ws[0..] == ws;
    }
  }

  lemma GrowTells(c: Ctl, mss: nat)
    requires mss > 0
    ensures var d := Grow(c, mss); d.askTell == c.askTell && d.updated == c.updated && d.rmtWnd == c.rmtWnd
  {
    hide AvoidIncr, WndBytes, U32Of;
  }

  /** A datagram with a window request is answered by the next flush: it puts out a window notice, and that tells the
      room left in the receive queue. The peer's window is the one its last segment told. */
  lemma RequestAnswered(wide: bool, cb: Cb, ws: seq<Wire>)
    requires cb.Mss() > 0 && cb.ctl.updated && ws != [] && forall w | w in ws :: KnownCmd(w.cmd)
    ensures Input(wide, cb, ws).ctl.rmtWnd == ws[|ws| - 1].wnd
    ensures (exists w | w in ws :: w.cmd == CMD_WASK) ==>
              var c := Input(wide, cb, ws);
              exists v | v in Concat(Flush(wide, c).out) :: v.cmd == CMD_WINS && v.una == c.rcv.nxt
                && v.wnd == (if |c.rcv.queue| < c.rcv.wnd then c.rcv.wnd - |c.rcv.queue| else 0) % 0x1_0000
  {
    hide Flush, Concat, Outgoing, DueIn, Carry, ProbeDue, Grow, BumpFastack, ITimeDiff, InputSegs, NoteAcks;
    SegmentsKeep(wide, cb, ws);
    DatagramEnds(wide, cb, ws);
    GrowTells(InputSegs(wide, cb, ws).ctl, cb.Mss());
    var c := Input(wide, cb, ws);
    if exists w | w in ws :: w.cmd == CMD_WASK {
      var k, _ := FlushPuts(wide, c);
      assert Concat(Flush(wide, c).out)[..k][k - 1] in Concat(Flush(wide, c).out);
    }
  }

  lemma OneSegment(wide: bool, cb: Cb, w: Wire)
    ensures InputSegs(wide, cb, [w]) == InputSeg(wide, cb, w)
  {
    hide InputSeg;
    assert [w][1..] == [];
    assert InputSegs(wide, InputSeg(wide, cb, w), []) == InputSeg(wide, cb, w);
  }

  /** Data below the end of the receive window, wherever it stands in a datagram, is acknowledged by the next flush
      with its number and its time. */
  lemma PushAnswered(wide: bool, cb: Cb, ws: seq<Wire>, j: nat)
    requires cb.Mss() > 0 && cb.ctl.updated && (forall w | w in ws :: KnownCmd(w.cmd))
    requires j < |ws| && ws[j].cmd == CMD_PUSH
    requires var r := InputSegs(wide, cb, ws[..j]).rcv; ITimeDiff(ws[j].sn, r.nxt + r.wnd) < 0
    ensures exists v | v in Concat(Flush(wide, Input(wide, cb, ws)).out) ::
              v.cmd == CMD_ACK && v.sn == ws[j].sn && v.ts == ws[j].ts
  {
    hide Flush, Concat, Outgoing, DueIn, Carry, ProbeDue, Grow, BumpFastack, ITimeDiff, InputSegs, NoteAcks, InputSeg;
    var c0, c := InputSegs(wide, cb, ws[..j]), Input(wide, cb, ws);
    SegmentsSplit(wide, cb, ws, j);
    SegmentsSplit(wide, c0, ws[j..], 1);
    assert ws[j..][..1] == [ws[j]] && ws[j..][1..] == ws[j + 1..];
    OneSegment(wide, c0, ws[j]);
    PushAcked(wide, c0, ws[j]);
    SegmentsKeep(wide, cb, ws);
    SegmentsKeep(wide, InputSeg(wide, c0, ws[j]), ws[j + 1..]);
    DatagramEnds(wide, cb, ws);
    GrowTells(InputSegs(wide, cb, ws).ctl, cb.Mss());
    assert Ack(ws[j].sn, ws[j].ts) in InputSeg(wide, c0, ws[j]).rcv.acks;
    assert Ack(ws[j].sn, ws[j].ts) in c.rcv.acks;
    var i :| 0 <= i < |c.rcv.acks| && c.rcv.acks[i] == Ack(ws[j].sn, ws[j].ts);
    var k, _ := FlushPuts(wide, c);
    assert Concat(Flush(wide, c).out)[..k][i] in Concat(Flush(wide, c).out);
  }
}
