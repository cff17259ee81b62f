/** The KCP control block as a value, and what each operation of `ikcp.c` makes of it.

    Functions that number segments take a flag `wide`. With `wide == false` the counters are the
    32-bit counters of the program. With `wide == true` they never wrap; nothing else differs, every
    comparison still being the 32-bit one. KcpWrap relates the two readings. */
module KcpModel {
  import opened LittleEndian
  import opened KcpArith
  import opened KcpWire

  const RTO_NDL: U32 := 30
  const RTO_MIN: U32 := 100
  const RTO_DEF: U32 := 200
  const RTO_MAX: U32 := 60000
  const WND_SND: U32 := 32
  const WND_RCV := 128
  const INTERVAL: U32 := 100
  const DEADLINK: U32 := 20
  const THRESH_INIT: U32 := 2
  const THRESH_MIN := 2
  const PROBE_INIT := 7000
  const PROBE_LIMIT := 120000

  /** One fragment of a message; `frg` counts the fragments that follow it. */
  datatype Frag = Frag(frg: Byte, data: seq<Byte>)

  /** An entry of `snd_buf`: sent at least once or about to be, and not yet acknowledged. */
  datatype Seg = Seg(sn: nat, frag: Frag, resendts: U32, rto: U32, fastack: U32, xmit: U32)

  /** An entry of `rcv_buf`: received ahead of its turn. */
  datatype RSeg = RSeg(sn: nat, frag: Frag)

  datatype Ack = Ack(sn: nat, ts: U32)

  datatype Snd = Snd(una: nat, nxt: nat, queue: seq<Frag>, buf: seq<Seg>)

  datatype Rcv = Rcv(nxt: nat, wnd: U32, queue: seq<Frag>, buf: seq<RSeg>, acks: seq<Ack>)

  /** Timers, windows and congestion state. */
  datatype Ctl = Ctl(
    dead: bool, ssthresh: U32, rxRttval: nat, rxSrtt: nat, rxRto: U32, rxMinrto: U32,
    sndWnd: U32, rmtWnd: U16, cwnd: U32, incr: U32, askSend: bool, askTell: bool,
    current: U32, interval: U32, tsFlush: U32, xmit: U32, nodelay: bool, updated: bool,
    tsProbe: U32, probeWait: U32, deadLink: U32, fastresend: U32, nocwnd: bool)

  datatype Cb = Cb(conv: U32, mtu: nat, stream: bool, snd: Snd, rcv: Rcv, ctl: Ctl) {
    /** `mss`; `ikcp_setmtu` refuses an mtu below 50. */
    function Mss(): nat {
      if mtu >= OVERHEAD then mtu - OVERHEAD else 0
    }
  }

  /** `ikcp_create`, with the mtu and stream mode of the run. */
  function Create(conv: U32, mtu: nat, stream: bool): Cb {
    Cb(conv, mtu, stream,
       Snd(0, 0, [], []),
       Rcv(0, WND_RCV, [], [], []),
       Ctl(false, THRESH_INIT, 0, 0, RTO_DEF, RTO_MIN,
           WND_SND, WND_RCV, 0, 0, false, false,
           0, INTERVAL, INTERVAL, 0, false, false,
           0, 0, DEADLINK, 0, false))
  }

  /** `n++` on a counter of segments. */
  function Succ(wide: bool, n: nat): nat {
    if wide then n + 1 else U32Of(n + 1)
  }

  function Datas(fs: seq<Frag>): seq<Byte> {
    if fs == [] then [] else fs[0].data + Datas(fs[1..])
  }

  // ---------------------------------------------------------------- sending

  /** The fragments `ikcp_send` cuts `data` into. */
  function Fragments(stream: bool, data: seq<Byte>, mss: nat, count: nat): seq<Frag>
    requires count <= 128
    decreases count
  {
    if count == 0 then []
    else
      var size := Min(|data|, mss);
      [Frag(if stream then 0 else count - 1, data[..size])] + Fragments(stream, data[size..], mss, count - 1)
  }

  function FragCount(len: nat, mss: nat): nat
    requires mss > 0
  {
    if len <= mss then 1 else (len + mss - 1) / mss
  }

  /** How many bytes streaming mode appends to the last queued segment. */
  function Extension(queue: seq<Frag>, len: nat, mss: nat): nat {
    if queue != [] && |queue[|queue| - 1].data| < mss then Min(len, mss - |queue[|queue| - 1].data|) else 0
  }

  function ExtendLast(queue: seq<Frag>, extra: seq<Byte>, mss: nat): seq<Frag> {
    if queue != [] && |queue[|queue| - 1].data| < mss then
      queue[..|queue| - 1] + [Frag(0, queue[|queue| - 1].data + extra)]
    else queue
  }

  /** `ikcp_send`: the return code and the new `snd_queue`. */
  function Send(cb: Cb, data: seq<Byte>): (int, seq<Frag>)
    requires cb.Mss() > 0
  {
    var q := cb.snd.queue;
    var mss := cb.Mss();
    var ext := if cb.stream then Extension(q, |data|, mss) else 0;
    var q1 := if cb.stream then ExtendLast(q, data[..ext], mss) else q;
    var rest := data[ext..];
    if cb.stream && rest == [] then (0, q1)
    else if FragCount(|rest|, mss) >= WND_RCV then (-2, q1)
    else (0, q1 + Fragments(cb.stream, rest, mss, FragCount(|rest|, mss)))
  }

  // ---------------------------------------------------------------- receiving by the application

  /** Number of fragments up to and including the first that ends a message. */
  function HeadLen(q: seq<Frag>): (n: nat)
    ensures n <= |q|
  {
    if q == [] then 0 else if q[0].frg == 0 then 1 else 1 + HeadLen(q[1..])
  }

  /** `ikcp_peeksize`. */
  function PeekSize(q: seq<Frag>): int {
    if q == [] then -1
    else if q[0].frg == 0 then |q[0].data|
    else if |q| < q[0].frg + 1 then -1
    else |Datas(q[..HeadLen(q)])|
  }

  /** Moves segments that are next in turn from `rcv_buf` to `rcv_queue` while there is room. */
  function MoveReady(wide: bool, r: Rcv): Rcv
    decreases |r.buf|
  {
    if r.buf != [] && SameSn(r.buf[0].sn, r.nxt) && |r.queue| < r.wnd then
      MoveReady(wide, r.(nxt := Succ(wide, r.nxt), queue := r.queue + [r.buf[0].frag], buf := r.buf[1..]))
    else r
  }

  datatype RecvResult = RecvResult(code: int, data: seq<Byte>, taken: seq<Frag>, rcv: Rcv, tell: bool)

  /** `ikcp_recv` with a buffer of `|len|` bytes; a negative `len` only peeks. `tell` is raised when
      the window reopens. */
  function Recv(wide: bool, r: Rcv, len: int): RecvResult {
    var peek := PeekSize(r.queue);
    if r.queue == [] then RecvResult(-1, [], [], r, false)
    else if peek < 0 then RecvResult(-2, [], [], r, false)
    else if peek > Max(len, -len) then RecvResult(-3, [], [], r, false)
    else
      var k := HeadLen(r.queue);
      var taken := if len < 0 then [] else r.queue[..k];
      var r1 := MoveReady(wide, r.(queue := if len < 0 then r.queue else r.queue[k..]));
      RecvResult(|Datas(r.queue[..k])|, Datas(r.queue[..k]), taken, r1, |r.queue| >= r.wnd && |r1.queue| < r.wnd)
  }

  // ---------------------------------------------------------------- acknowledgements, sender side

  function DropBelow(buf: seq<Seg>, una: nat): seq<Seg> {
    if buf != [] && ITimeDiff(una, buf[0].sn) > 0 then DropBelow(buf[1..], una) else buf
  }

  /** `ikcp_shrink_buf`. */
  function Shrink(s: Snd): Snd {
    s.(una := if s.buf != [] then s.buf[0].sn else s.nxt)
  }

  /** `ikcp_parse_una` and the `ikcp_shrink_buf` that follows it. */
  function ParseUna(s: Snd, una: nat): Snd {
    Shrink(s.(buf := DropBelow(s.buf, una)))
  }

  function RemoveSn(buf: seq<Seg>, sn: nat): seq<Seg> {
    if buf == [] then []
    else if SameSn(sn, buf[0].sn) then buf[1..]
    else if ITimeDiff(sn, buf[0].sn) < 0 then buf
    else [buf[0]] + RemoveSn(buf[1..], sn)
  }

  predicate InFlight(s: Snd, sn: nat) {
    !(ITimeDiff(sn, s.una) < 0 || ITimeDiff(sn, s.nxt) >= 0)
  }

  /** `ikcp_parse_ack` and the `ikcp_shrink_buf` that follows it. */
  function ParseAck(s: Snd, sn: nat): Snd {
    Shrink(if InFlight(s, sn) then s.(buf := RemoveSn(s.buf, sn)) else s)
  }

  function BumpFastack(buf: seq<Seg>, sn: nat): seq<Seg> {
    if buf == [] || ITimeDiff(sn, buf[0].sn) < 0 then buf
    else if SameSn(sn, buf[0].sn) then [buf[0]] + BumpFastack(buf[1..], sn)
    else [buf[0].(fastack := U32Of(buf[0].fastack + 1))] + BumpFastack(buf[1..], sn)
  }

  /** `ikcp_parse_fastack`. */
  function ParseFastack(s: Snd, sn: nat): Snd {
    if InFlight(s, sn) then s.(buf := BumpFastack(s.buf, sn)) else s
  }

  /** `ikcp_update_ack`; the estimator is computed without overflow. */
  function UpdateAck(ctl: Ctl, rtt: nat): Ctl {
    var delta := Max(rtt - ctl.rxSrtt, ctl.rxSrtt - rtt);
    var srtt := if ctl.rxSrtt == 0 then rtt else Max(1, (7 * ctl.rxSrtt + rtt) / 8);
    var rttval := if ctl.rxSrtt == 0 then rtt / 2 else (3 * ctl.rxRttval + delta) / 4;
    var rto := U32Of(srtt + Max(ctl.interval, U32Of(4 * rttval)));
    ctl.(rxSrtt := srtt, rxRttval := rttval, rxRto := Min(Max(ctl.rxMinrto, rto), RTO_MAX))
  }

  /** The estimator is fed unless the time stamp lies in the future. */
  function AckTimes(ctl: Ctl, ts: U32): Ctl {
    var rtt := ITimeDiff(ctl.current, ts);
    if rtt >= 0 then UpdateAck(ctl, rtt) else ctl
  }

  // ---------------------------------------------------------------- data, receiver side

  /** Where `ikcp_parse_data` puts a segment, looking from the end of `rcv_buf`; a segment already
      there is discarded. */
  function Insert(buf: seq<RSeg>, seg: RSeg): seq<RSeg> {
    if buf == [] then [seg]
    else
      var last := buf[|buf| - 1];
      if SameSn(last.sn, seg.sn) then buf
      else if ITimeDiff(seg.sn, last.sn) > 0 then buf + [seg]
      else Insert(buf[..|buf| - 1], seg) + [last]
  }

  /** `ikcp_parse_data`. */
  function ParseData(wide: bool, r: Rcv, seg: RSeg): Rcv {
    if ITimeDiff(seg.sn, r.nxt + r.wnd) >= 0 || ITimeDiff(seg.sn, r.nxt) < 0 then r
    else MoveReady(wide, r.(buf := Insert(r.buf, seg)))
  }

  /** What `ikcp_input` does with a data segment: acknowledge it if it is below the end of the
      window, keep it if it is also not below the window. */
  function AcceptPush(wide: bool, r: Rcv, w: Wire): Rcv {
    if ITimeDiff(w.sn, r.nxt + r.wnd) < 0 then
      var r1 := r.(acks := r.acks + [Ack(w.sn, w.ts)]);
      if ITimeDiff(w.sn, r.nxt) >= 0 then ParseData(wide, r1, RSeg(w.sn, Frag(w.frg, w.data))) else r1
    else r
  }

  // ---------------------------------------------------------------- ikcp_input

  /** The peer is to be told of the window, if `tell`. */
  function Told(ctl: Ctl, tell: bool): Ctl {
    ctl.(askTell := ctl.askTell || tell)
  }

  datatype MaxAck = NoAck | SomeAck(sn: nat)

  predicate KnownCmd(cmd: Byte) {
    cmd == CMD_PUSH || cmd == CMD_ACK || cmd == CMD_WASK || cmd == CMD_WINS
  }

  /** One segment of a datagram. */
  function InputSeg(wide: bool, cb: Cb, w: Wire): Cb {
    var snd := ParseUna(cb.snd, w.una);
    var ctl := cb.ctl.(rmtWnd := w.wnd);
    if w.cmd == CMD_ACK then
      cb.(snd := ParseAck(snd, w.sn), ctl := AckTimes(ctl, w.ts))
    else if w.cmd == CMD_PUSH then
      cb.(snd := snd, ctl := ctl, rcv := AcceptPush(wide, cb.rcv, w))
    else
      cb.(snd := snd, ctl := Told(ctl, w.cmd == CMD_WASK))
  }

  function NoteAck(m: MaxAck, w: Wire): MaxAck {
    if w.cmd != CMD_ACK then m
    else if m.NoAck? || ITimeDiff(w.sn, m.sn) > 0 then SomeAck(w.sn)
    else m
  }

  function InputSegs(wide: bool, cb: Cb, ws: seq<Wire>): (r: Cb)
    ensures r.mtu == cb.mtu && r.conv == cb.conv && r.stream == cb.stream
    decreases |ws|
  {
    if ws == [] then cb else InputSegs(wide, InputSeg(wide, cb, ws[0]), ws[1..])
  }

  function NoteAcks(m: MaxAck, ws: seq<Wire>): MaxAck
    decreases |ws|
  {
    if ws == [] then m else NoteAcks(NoteAck(m, ws[0]), ws[1..])
  }

  /** The size of `n` segments, as the program multiplies it. */
  function WndBytes(n: nat, mss: nat): U32 {
    U32Of(n * mss)
  }

  /** `incr` after one step of congestion avoidance. */
  function AvoidIncr(incr: U32, mss: nat): U32
    requires mss > 0
  {
    var incr0 := Max(incr, mss);
    U32Of(incr0 + WndBytes(mss, mss) / incr0 + mss / 16)
  }

  /** Congestion window growth after `snd_una` advanced. */
  function Grow(ctl: Ctl, mss: nat): Ctl
    requires mss > 0
  {
    if ctl.cwnd >= ctl.rmtWnd then ctl
    else if ctl.cwnd < ctl.ssthresh then
      ctl.(cwnd := U32Of(ctl.cwnd + 1), incr := U32Of(ctl.incr + mss))
    else
      var incr := AvoidIncr(ctl.incr, mss);
      ctl.(incr := incr, cwnd := if WndBytes(ctl.cwnd + 1, mss) <= incr then U32Of(ctl.cwnd + 1) else ctl.cwnd)
  }

  /** The window grows by at most one segment and stays within the peer's, so the program's final cap on
      `cwnd` has no effect and is not repeated here. */
  lemma GrowNeedsNoCap(ctl: Ctl, mss: nat)
    requires mss > 0
    ensures Grow(ctl, mss).cwnd == ctl.cwnd || Grow(ctl, mss).cwnd == ctl.cwnd + 1 <= ctl.rmtWnd
  {
    assert ctl.cwnd < ctl.rmtWnd ==> U32Of(ctl.cwnd + 1) == ctl.cwnd + 1;
    hide AvoidIncr, WndBytes, U32Of;
  }

  /** What follows the last segment of a datagram; `una0` is `snd_una` before the datagram. */
  function FinishInput(cb: Cb, una0: nat, m: MaxAck): Cb
    requires cb.Mss() > 0
  {
    var snd := if m.SomeAck? then ParseFastack(cb.snd, m.sn) else cb.snd;
    cb.(snd := snd, ctl := if ITimeDiff(snd.una, una0) > 0 then Grow(cb.ctl, cb.Mss()) else cb.ctl)
  }

  /** `ikcp_input` on a datagram made of the segments `ws`. */
  function Input(wide: bool, cb: Cb, ws: seq<Wire>): Cb
    requires cb.Mss() > 0
  {
    FinishInput(InputSegs(wide, cb, ws), cb.snd.una, NoteAcks(NoAck, ws))
  }

  /** The segment at the front of `b`. */
  function DecodeSeg(b: seq<Byte>): Wire
    requires |b| >= OVERHEAD && |b| - OVERHEAD >= DecodeLen(b)
  {
    DecodeHeader(b).(data := b[OVERHEAD..][..DecodeLen(b)])
  }

  /** The parsing loop of `ikcp_input`: what it returns on a malformed segment, having already
      acted on the segments before it; 0 when fewer than 24 bytes are left. */
  function InputLoop(cb: Cb, m: MaxAck, b: seq<Byte>): (r: (int, Cb, MaxAck))
    ensures r.1.mtu == cb.mtu && r.1.conv == cb.conv && r.1.stream == cb.stream
    decreases |b|
  {
    if |b| < OVERHEAD then (0, cb, m)
    else
      var h := DecodeHeader(b);
      if h.conv != cb.conv then (-1, cb, m)
      else if |b| - OVERHEAD < DecodeLen(b) then (-2, cb, m)
      else if !KnownCmd(h.cmd) then (-3, cb, m)
      else
        var w := DecodeSeg(b);
        InputLoop(InputSeg(false, cb, w), NoteAck(m, w), b[OVERHEAD..][DecodeLen(b)..])
  }

  /** `ikcp_input` on a byte string. */
  function InputBytes(cb: Cb, b: seq<Byte>): (int, Cb)
    requires cb.Mss() > 0
  {
    if |b| < OVERHEAD then (-1, cb)
    else
      var (code, c, m) := InputLoop(cb, NoAck, b);
      if code < 0 then (code, c) else (0, FinishInput(c, cb.snd.una, m))
  }

  // ---------------------------------------------------------------- ikcp_flush

  /** `ikcp_wnd_unused`, as it is written into the 16-bit header field. */
  function WndUnused(r: Rcv): U16 {
    if |r.queue| < r.wnd then (r.wnd - |r.queue|) % TWO16 else 0
  }

  function AckWires(cb: Cb): (r: seq<Wire>)
    ensures |r| == |cb.rcv.acks|
  {
    seq(|cb.rcv.acks|, i requires 0 <= i < |cb.rcv.acks| =>
      Wire(cb.conv, CMD_ACK, 0, WndUnused(cb.rcv), cb.rcv.acks[i].ts, cb.rcv.acks[i].sn, cb.rcv.nxt, []))
  }

  /** The window-probe timer. */
  function ProbeTimer(ctl: Ctl): Ctl {
    if ctl.rmtWnd != 0 then ctl.(tsProbe := 0, probeWait := 0)
    else if ctl.probeWait == 0 then
      ctl.(probeWait := PROBE_INIT, tsProbe := U32Of(ctl.current + PROBE_INIT))
    else if ITimeDiff(ctl.current, ctl.tsProbe) >= 0 then
      var w0 := Max(ctl.probeWait, PROBE_INIT);
      var w := Min(U32Of(w0 + w0 / 2), PROBE_LIMIT);
      ctl.(probeWait := w, tsProbe := U32Of(ctl.current + w), askSend := true)
    else ctl
  }

  /** Probe segments reuse the header of the last acknowledgement, with its `sn` and `ts`. */
  function ProbeHeader(cb: Cb): Wire {
    var acks := cb.rcv.acks;
    var last := if acks == [] then Ack(0, 0) else acks[|acks| - 1];
    Wire(cb.conv, CMD_WASK, 0, WndUnused(cb.rcv), last.ts, last.sn, cb.rcv.nxt, [])
  }

  function ProbePair(w: Wire, askSend: bool, askTell: bool): seq<Wire> {
    (if askSend then [w] else []) + (if askTell then [w.(cmd := CMD_WINS)] else [])
  }

  function ProbeWires(cb: Cb, askSend: bool, askTell: bool): seq<Wire> {
    ProbePair(ProbeHeader(cb), askSend, askTell)
  }

  function SendWindow(ctl: Ctl): U32 {
    var w := Min(ctl.sndWnd, ctl.rmtWnd);
    if ctl.nocwnd then w else Min(ctl.cwnd, w)
  }

  /** Numbers queued segments and moves them to `snd_buf` while the window lasts. */
  function FillWindow(wide: bool, s: Snd, cwnd: U32, current: U32, rto: U32): Snd
    decreases |s.queue|
  {
    if ITimeDiff(s.nxt, s.una + cwnd) < 0 && s.queue != [] then
      FillWindow(wide, s.(queue := s.queue[1..], nxt := Succ(wide, s.nxt),
                          buf := s.buf + [Seg(s.nxt, s.queue[0], current, rto, 0, 0)]),
                 cwnd, current, rto)
    else s
  }

  datatype Why = Rest | First | Timeout | Fast

  function ResendLimit(ctl: Ctl): U32 {
    if ctl.fastresend > 0 then ctl.fastresend else TWO32 - 1
  }

  /** Why a segment of `snd_buf` is sent in this flush, if it is. */
  function Reason(seg: Seg, ctl: Ctl): Why {
    if seg.xmit == 0 then First
    else if ITimeDiff(ctl.current, seg.resendts) >= 0 then Timeout
    else if seg.fastack >= ResendLimit(ctl) then Fast
    else Rest
  }

  function Transmit(seg: Seg, ctl: Ctl): Seg {
    var sent := seg.(xmit := U32Of(seg.xmit + 1));
    match Reason(seg, ctl)
    case Rest => seg
    case First =>
      var rtomin := if ctl.nodelay then 0 else ctl.rxRto / 8;
      sent.(rto := ctl.rxRto, resendts := U32Of(ctl.current + ctl.rxRto + rtomin))
    case Timeout =>
      var rto := U32Of(seg.rto + if ctl.nodelay then ctl.rxRto / 2 else ctl.rxRto);
      sent.(rto := rto, resendts := U32Of(ctl.current + rto))
    case Fast =>
      sent.(fastack := 0, resendts := U32Of(ctl.current + seg.rto))
  }

  function TransmitAll(buf: seq<Seg>, ctl: Ctl): (r: seq<Seg>)
    ensures |r| == |buf|
    ensures forall i | 0 <= i < |buf| :: r[i] == Transmit(buf[i], ctl)
  {
    seq(|buf|, i requires 0 <= i < |buf| => Transmit(buf[i], ctl))
  }

  /** The data segment that goes out for an entry of `snd_buf`, if any. */
  function PushWire(conv: U32, g: Seg, ctl: Ctl, wnd: U16, una: nat): seq<Wire> {
    if Reason(g, ctl) == Rest then []
    else [Wire(conv, CMD_PUSH, g.frag.frg, wnd, ctl.current, g.sn, una, g.frag.data)]
  }

  /** The data segments that go out, in order. */
  function PushWires(conv: U32, buf: seq<Seg>, ctl: Ctl, wnd: U16, una: nat): seq<Wire> {
    if buf == [] then []
    else PushWire(conv, buf[0], ctl, wnd, una) + PushWires(conv, buf[1..], ctl, wnd, una)
  }

  function CountWhy(buf: seq<Seg>, ctl: Ctl, why: Why): nat {
    if buf == [] then 0 else (if Reason(buf[0], ctl) == why then 1 else 0) + CountWhy(buf[1..], ctl, why)
  }

  /** The segment has now been sent `dead_link` times. */
  predicate Dies(g: Seg, ctl: Ctl) {
    Reason(g, ctl) != Rest && Transmit(g, ctl).xmit >= ctl.deadLink
  }

  predicate DeadLink(buf: seq<Seg>, ctl: Ctl) {
    exists i | 0 <= i < |buf| :: Dies(buf[i], ctl)
  }

  function Size(ws: seq<Wire>): nat {
    if ws == [] then 0 else OVERHEAD + |ws[0].data| + Size(ws[1..])
  }

  /** Fills datagrams greedily: `cur` is the one being filled. */
  function Pack(cur: seq<Wire>, ws: seq<Wire>, mtu: nat): seq<seq<Wire>>
    decreases |ws|
  {
    var flushed := if cur == [] then [] else [cur];
    if ws == [] then flushed
    else if Size(cur) + OVERHEAD + |ws[0].data| > mtu then flushed + Pack([ws[0]], ws[1..], mtu)
    else Pack(cur + [ws[0]], ws[1..], mtu)
  }

  /** The congestion state after a flush that resent `fast` segments early and `lost` on timeout. */
  function Congest(ctl: Ctl, mss: nat, inflight: U32, window: U32, fast: bool, lost: bool): Ctl {
    var c1 :=
      if fast then
        var th := Max(inflight / 2, THRESH_MIN);
        var cw := U32Of(th + ResendLimit(ctl));
        ctl.(ssthresh := th, cwnd := cw, incr := WndBytes(cw, mss))
      else ctl;
    var c2 := if lost then c1.(ssthresh := Max(window / 2, THRESH_MIN), cwnd := 1, incr := U32Of(mss)) else c1;
    if c2.cwnd < 1 then c2.(cwnd := 1, incr := U32Of(mss)) else c2
  }

  datatype FlushResult = FlushResult(cb: Cb, out: seq<seq<Wire>>)

  /** The segments one flush emits, in order: acknowledgements, probes, data. */
  function FlushWires(cb: Cb, ctl: Ctl, buf: seq<Seg>): seq<Wire> {
    AckWires(cb) + ProbeWires(cb, ctl.askSend, ctl.askTell)
    + PushWires(cb.conv, buf, ctl, WndUnused(cb.rcv), cb.rcv.nxt)
  }

  /** The probes have been answered. */
  function Probed(ctl: Ctl): Ctl {
    ctl.(askSend := false, askTell := false)
  }

  /** `lost` segments have been sent again after a timeout; `dead` says whether some segment was sent too often. */
  function Resent(ctl: Ctl, lost: nat, dead: bool): Ctl {
    ctl.(xmit := U32Of(ctl.xmit + lost), dead := ctl.dead || dead)
  }

  /** The control fields after sending out of `snd`, whose window was `window`. */
  function AfterSending(ctl: Ctl, mss: nat, snd: Snd, window: U32): Ctl {
    var lost := CountWhy(snd.buf, ctl, Timeout);
    var c1 := Resent(Probed(ctl), lost, DeadLink(snd.buf, ctl));
    Congest(c1, mss, U32Of(snd.nxt - snd.una), window, CountWhy(snd.buf, ctl, Fast) > 0, lost > 0)
  }

  /** Sends out of `snd`, the sender half after the window was filled. */
  function Emit(cb: Cb, ctl: Ctl, snd: Snd): FlushResult {
    FlushResult(
      cb.(snd := snd.(buf := TransmitAll(snd.buf, ctl)),
          rcv := cb.rcv.(acks := []),
          ctl := AfterSending(ctl, cb.Mss(), snd, SendWindow(ctl))),
      Pack([], FlushWires(cb, ctl, snd.buf), cb.mtu))
  }

  /** The sender half after `ikcp_flush` moved what the window allows. */
  function Filled(wide: bool, s: Snd, ctl: Ctl): Snd {
    FillWindow(wide, s, SendWindow(ctl), ctl.current, ctl.rxRto)
  }

  /** `ikcp_flush`: the new control block and the datagrams handed to the output callback. */
  function Flush(wide: bool, cb: Cb): FlushResult {
    if !cb.ctl.updated then FlushResult(cb, [])
    else
      var ctl := ProbeTimer(cb.ctl);
      Emit(cb, ctl, Filled(wide, cb.snd, ctl))
  }

  /** The clock part of `ikcp_update`: the new timers, and whether a flush is due. */
  function Tick(ctl: Ctl, current: U32): (Ctl, bool) {
    var c1 := ctl.(current := current, updated := true, tsFlush := if ctl.updated then ctl.tsFlush else current);
    var slap := ITimeDiff(current, c1.tsFlush);
    var far := slap >= 10000 || slap < -10000;
    var ts0 := if far then current else c1.tsFlush;
    if far || slap >= 0 then
      var ts1 := U32Of(ts0 + c1.interval);
      (c1.(tsFlush := if ITimeDiff(current, ts1) >= 0 then U32Of(current + c1.interval) else ts1), true)
    else (c1.(tsFlush := ts0), false)
  }

  /** `ikcp_update`. */
  function Update(wide: bool, cb: Cb, current: U32): FlushResult {
    var (ctl, due) := Tick(cb.ctl, current);
    if due then Flush(wide, cb.(ctl := ctl)) else FlushResult(cb.(ctl := ctl), [])
  }

  // ---------------------------------------------------------------- configuration

  /** `ikcp_wndsize`. */
  function WndSize(cb: Cb, sndwnd: int, rcvwnd: int): Cb
    requires sndwnd < TWO31 && rcvwnd < TWO31
  {
    cb.(ctl := if sndwnd > 0 then cb.ctl.(sndWnd := sndwnd) else cb.ctl,
        rcv := if rcvwnd > 0 then cb.rcv.(wnd := Max(rcvwnd, WND_RCV)) else cb.rcv)
  }

  /** `ikcp_nodelay`. */
  function NoDelay(cb: Cb, nodelay: int, interval: int, resend: int, nc: int): Cb
    requires resend < TWO31
  {
    cb.(ctl := cb.ctl.(
      nodelay := if nodelay >= 0 then nodelay != 0 else cb.ctl.nodelay,
      rxMinrto := if nodelay > 0 then RTO_NDL else if nodelay == 0 then RTO_MIN else cb.ctl.rxMinrto,
      interval := if interval >= 0 then Max(Min(interval, 5000), 10) else cb.ctl.interval,
      fastresend := if resend >= 0 then resend else cb.ctl.fastresend,
      nocwnd := if nc >= 0 then nc != 0 else cb.ctl.nocwnd))
  }
}
