/** Two KCP endpoints and the network between them. The network is the log of everything either side
    ever handed to its output callback. An input event may pick any entry of the peer's log at any time, so
    datagrams are lost, duplicated, delayed and reordered at will, but never forged. */
module KcpSystem {
  import opened LittleEndian
  import opened KcpArith
  import opened KcpWire
  import opened KcpModel
  import opened KcpWrap

  /** An endpoint and the history of its run.
      `out`: datagrams output. `numbered`: fragments given a serial number, in order.
      `popped`: fragments `ikcp_recv` removed. `sent`: payloads for which `ikcp_send` returned 0.
      `written`: bytes `ikcp_send` queued. `got`: payloads `ikcp_recv` returned and removed. */
  datatype Peer = Peer(cb: Cb, out: seq<seq<Wire>>, numbered: seq<Frag>, popped: seq<Frag>,
                       sent: seq<seq<Byte>>, written: seq<Byte>, got: seq<seq<Byte>>)

  datatype Sys = Sys(a: Peer, b: Peer)

  type CInt = n: int | -0x8000_0000 <= n < 0x8000_0000

  /** The largest window a C `int` can ask for. */
  const RCVWND_MAX := 0x7fff_ffff

  datatype Act =
    | CallSend(data: seq<Byte>)
    | CallRecv(len: CInt)
    | CallUpdate(current: U32)
    | CallFlush
    | CallInput(i: nat)
    | CallWndSize(sndwnd: CInt, rcvwnd: CInt)
    | CallNoDelay(nodelay: CInt, interval: CInt, resend: CInt, nc: CInt)

  datatype Event = Event(atA: bool, act: Act)

  /** What a run keeps fixed: conversation id, mtu and mode of each side. */
  datatype Config = Config(conv: U32, mtuA: nat, streamA: bool, mtuB: nat, streamB: bool) {
    /** `ikcp_setmtu` refuses less than 50; an mtu is a C `int`. */
    predicate Valid() {
      50 <= mtuA < TWO31 && 50 <= mtuB < TWO31
    }
  }

  function NewPeer(cb: Cb): Peer {
    Peer(cb, [], [], [], [], [], [])
  }

  function Start(cfg: Config): Sys {
    Sys(NewPeer(Create(cfg.conv, cfg.mtuA, cfg.streamA)), NewPeer(Create(cfg.conv, cfg.mtuB, cfg.streamB)))
  }

  /** How many bytes of `data` a call of `ikcp_send` queues; all of them when it returns 0. */
  function Accepted(cb: Cb, data: seq<Byte>): (n: nat)
    requires cb.Mss() > 0
    ensures n <= |data|
  {
    if Send(cb, data).0 == 0 then |data|
    else if cb.stream then Extension(cb.snd.queue, |data|, cb.Mss())
    else 0
  }

  function AfterFlush(p: Peer, f: FlushResult): Peer {
    var moved := |p.cb.snd.queue| - |f.cb.snd.queue|;
    p.(cb := f.cb, out := p.out + f.out,
       numbered := if 0 <= moved <= |p.cb.snd.queue| then p.numbered + p.cb.snd.queue[..moved] else p.numbered)
  }

  /** One call at endpoint `p`, whose peer is `q`. */
  function StepPeer(wide: bool, p: Peer, q: Peer, act: Act): Peer
    requires p.cb.Mss() > 0
  {
    match act
    case CallSend(data) =>
      var (code, queue) := Send(p.cb, data);
      p.(cb := p.cb.(snd := p.cb.snd.(queue := queue)),
         sent := if code == 0 then p.sent + [data] else p.sent,
         written := p.written + data[..Accepted(p.cb, data)])
    case CallRecv(len) =>
      var r := Recv(wide, p.cb.rcv, len);
      p.(cb := p.cb.(rcv := r.rcv, ctl := Told(p.cb.ctl, r.tell)),
         popped := p.popped + r.taken,
         got := if r.code >= 0 && len >= 0 then p.got + [r.data] else p.got)
    case CallUpdate(current) => AfterFlush(p, Update(wide, p.cb, current))
    case CallFlush => AfterFlush(p, Flush(wide, p.cb))
    case CallInput(i) => if i < |q.out| then p.(cb := Input(wide, p.cb, q.out[i])) else p
    case CallWndSize(s, r) => p.(cb := WndSize(p.cb, s, r))
    case CallNoDelay(n, i, r, c) => p.(cb := NoDelay(p.cb, n, i, r, c))
  }

  lemma StepKeepsConfig(wide: bool, p: Peer, q: Peer, act: Act)
    requires p.cb.Mss() > 0
    ensures var c := StepPeer(wide, p, q, act).cb;
            c.mtu == p.cb.mtu && c.conv == p.cb.conv && c.stream == p.cb.stream
  {
  }

  function Step(wide: bool, s: Sys, e: Event): (t: Sys)
    requires s.a.cb.Mss() > 0 && s.b.cb.Mss() > 0
    ensures t.a.cb.Mss() > 0 && t.b.cb.Mss() > 0
  {
    StepKeepsConfig(wide, s.a, s.b, e.act);
    StepKeepsConfig(wide, s.b, s.a, e.act);
    if e.atA then s.(a := StepPeer(wide, s.a, s.b, e.act)) else s.(b := StepPeer(wide, s.b, s.a, e.act))
  }

  function Run(wide: bool, s: Sys, evs: seq<Event>): Sys
    requires s.a.cb.Mss() > 0 && s.b.cb.Mss() > 0
    decreases |evs|
  {
    if evs == [] then s else Run(wide, Step(wide, s, evs[0]), evs[1..])
  }

  // ---------------------------------------------------------------- 32-bit counters against unbounded ones

  function WrapPeer(p: Peer): Peer {
    p.(cb := WrapCb(p.cb), out := WrapDgrams(p.out))
  }

  function WrapSys(s: Sys): Sys {
    Sys(WrapPeer(s.a), WrapPeer(s.b))
  }

  lemma AfterFlushWraps(p: Peer, c: FlushResult, a: FlushResult)
    requires c == FlushResult(WrapCb(a.cb), WrapDgrams(a.out))
    ensures AfterFlush(WrapPeer(p), c) == WrapPeer(AfterFlush(p, a))
  {
    MapAppend(WrapWires, p.out, a.out);
  }

  lemma StepWraps(p: Peer, q: Peer, act: Act)
    requires p.cb.Mss() > 0
    ensures StepPeer(false, WrapPeer(p), WrapPeer(q), act) == WrapPeer(StepPeer(true, p, q, act))
  {
    hide U32Of, Recv, Flush, Update, Input;
    match act
    case CallSend(data) =>
    case CallRecv(len) => RecvWraps(p.cb.rcv, len);
    case CallUpdate(current) =>
      UpdateWraps(p.cb, current);
      AfterFlushWraps(p, Update(false, WrapCb(p.cb), current), Update(true, p.cb, current));
    case CallFlush =>
      FlushWraps(p.cb);
      AfterFlushWraps(p, Flush(false, WrapCb(p.cb)), Flush(true, p.cb));
    case CallInput(i) =>
      if i < |q.out| {
        InputWraps(p.cb, q.out[i]);
      }
    case CallWndSize(_, _) =>
    case CallNoDelay(_, _, _, _) =>
  }

  /** Every run of the program is the run with unbounded numbers, with all numbers reduced modulo 2^32. */
  lemma {:induction false} RunWraps(s: Sys, evs: seq<Event>)
    requires s.a.cb.Mss() > 0 && s.b.cb.Mss() > 0
    ensures Run(false, WrapSys(s), evs) == WrapSys(Run(true, s, evs))
    decreases |evs|
  {
    if evs != [] {
      var e := evs[0];
      StepWraps(s.a, s.b, e.act);
      StepWraps(s.b, s.a, e.act);
      assert Step(false, WrapSys(s), e) == WrapSys(Step(true, s, e));
      RunWraps(Step(true, s, e), evs[1..]);
    }
  }
}
