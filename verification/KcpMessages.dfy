/** Messages and bytes end to end: what `ikcp_recv` returns is what `ikcp_send` accepted. */
module KcpMessages {
  import opened Basics
  import opened LittleEndian
  import opened KcpArith
  import opened KcpWire
  import opened KcpModel
  import opened KcpCongestion
  import opened KcpDatagrams
  import opened KcpSystem
  import opened KcpInvariant
  import opened KcpSafety

  // ---------------------------------------------------------------- bytes

  function Flatten(ms: seq<seq<Byte>>): seq<Byte> {
    if ms == [] then [] else ms[0] + Flatten(ms[1..])
  }

  lemma {:induction false} FlattenAppend(s: seq<seq<Byte>>, t: seq<seq<Byte>>)
    ensures Flatten(s + t) == Flatten(s) + Flatten(t)
    decreases |s|
  {
    if s == [] {
      assert s + t == t;
    } else {
      assert (s + t)[1..] == s[1..] + t;
      FlattenAppend(s[1..], t);
    }
  }

  lemma {:induction false} DatasAppend(s: seq<Frag>, t: seq<Frag>)
    ensures Datas(s + t) == Datas(s) + Datas(t)
    decreases |s|
  {
    if s == [] {
      assert s + t == t;
    } else {
      assert (s + t)[1..] == s[1..] + t;
      DatasAppend(s[1..], t);
    }
  }

  lemma SingletonDatas(f: Frag)
    ensures Datas([f]) == f.data
  {
    assert f.data + Datas([]) == f.data;
  }

  lemma RestFits(len: nat, mss: nat, count: nat)
    requires count > 0 && len <= mss * count
    ensures len - Min(len, mss) <= mss * (count - 1)
  {
    assert mss * count == mss * (count - 1) + mss;
  }

  /** The fragments carry the whole payload when there are enough of them. */
  lemma {:induction false} FragmentsCarry(stream: bool, data: seq<Byte>, mss: nat, count: nat)
    requires count <= 128 && |data| <= mss * count
    ensures Datas(Fragments(stream, data, mss, count)) == data
    decreases count
  {
    if count > 0 {
      var size := Min(|data|, mss);
      RestFits(|data|, mss, count);
      FragmentsCarry(stream, data[size..], mss, count - 1);
      assert data == data[..size] + data[size..];
    }
  }

  lemma FragCountEnough(len: nat, mss: nat)
    requires mss > 0
    ensures len <= mss * FragCount(len, mss) && FragCount(len, mss) >= 1
  {
    if len > mss {
      var c := (len + mss - 1) / mss;
      assert (len + mss - 1) == mss * c + (len + mss - 1) % mss;
    }
  }

  lemma ExtendCarries(q: seq<Frag>, extra: seq<Byte>, mss: nat)
    requires extra != [] ==> q != [] && |q[|q| - 1].data| < mss
    ensures Datas(ExtendLast(q, extra, mss)) == Datas(q) + extra
  {
    if q != [] && |q[|q| - 1].data| < mss {
      var front, last := q[..|q| - 1], q[|q| - 1];
      var longer := Frag(0, last.data + extra);
      assert q == front + [last];
      DatasAppend(front, [last]);
      SingletonDatas(last);
      DatasAppend(front, [longer]);
      SingletonDatas(longer);
      Assoc(Datas(front), last.data, extra);
    }
  }

  lemma WholeCarries(stream: bool, q: seq<Frag>, data: seq<Byte>, mss: nat)
    requires mss > 0 && FragCount(|data|, mss) < WND_RCV
    ensures Datas(q + Fragments(stream, data, mss, FragCount(|data|, mss))) == Datas(q) + data
  {
    FragCountEnough(|data|, mss);
    FragmentsCarry(stream, data, mss, FragCount(|data|, mss));
    DatasAppend(q, Fragments(stream, data, mss, FragCount(|data|, mss)));
  }

  /** `ikcp_send` queues the accepted bytes after those already queued, in either mode. */
  lemma SendCarries(cb: Cb, data: seq<Byte>)
    requires cb.Mss() > 0
    ensures Datas(Send(cb, data).1) == Datas(cb.snd.queue) + data[..Accepted(cb, data)]
  {
    var q, mss := cb.snd.queue, cb.Mss();
    var ext := if cb.stream then Extension(q, |data|, mss) else 0;
    var q1 := if cb.stream then ExtendLast(q, data[..ext], mss) else q;
    var rest := data[ext..];
    assert Datas(q1) == Datas(q) + data[..ext] by {
      if cb.stream {
        ExtendCarries(q, data[..ext], mss);
      }
    }
    if !(cb.stream && rest == []) && FragCount(|rest|, mss) < WND_RCV {
      WholeCarries(cb.stream, q1, rest, mss);
    }
    assert data[..ext] + rest == data && data[..|data|] == data;
    Assoc(Datas(q), data[..ext], rest);
  }

  lemma MulStep(mss: nat, count: nat)
    requires count > 0
    ensures mss * count == mss * (count - 1) + mss
  {
  }

  /** All fragments but the last are full, if there are no more than needed. */
  lemma {:induction false} FragmentsFull(stream: bool, data: seq<Byte>, mss: nat, count: nat)
    requires 0 < count <= 128 && mss * (count - 1) < |data| <= mss * count
    ensures var fs := Fragments(stream, data, mss, count);
            && |fs| == count && (forall i | 0 <= i < count - 1 :: |fs[i].data| == mss)
            && |fs[count - 1].data| == |data| - mss * (count - 1)
    decreases count
  {
    MulStep(mss, count);
    if count > 1 {
      MulStep(mss, count - 1);
      FragmentsFull(stream, data[mss..], mss, count - 1);
    }
  }

  lemma FragCountLeast(len: nat, mss: nat)
    requires mss > 0
    ensures var c := FragCount(len, mss); c >= 1 && len <= mss * c && (len > 0 ==> mss * (c - 1) < len)
    ensures FragCount(len, mss) >= 128 <==> len > 127 * mss
  {
    var c := FragCount(len, mss);
    FragCountEnough(len, mss);
    if len > mss {
      assert len + mss - 1 == mss * c + (len + mss - 1) % mss;
      MulStep(mss, c);
      if c >= 128 {
        MulMono(128, c, mss);
      } else {
        MulMono(c, 127, mss);
      }
    }
  }

  /** What `ikcp_send` does. In streaming mode the last fragment queued is filled first; what does not fit into it is
      refused with -2 exactly if it needs 128 fragments or more, and otherwise cut into full fragments and a rest, one
      at least for a message, counted down to 0 in message mode. Nothing else that was queued changes. */
  lemma SendCuts(cb: Cb, data: seq<Byte>) returns (room: nat, count: nat)
    requires cb.Mss() > 0
    ensures var q, mss := cb.snd.queue, cb.Mss();
            room == if cb.stream && q != [] && |q[|q| - 1].data| < mss then Min(|data|, mss - |q[|q| - 1].data|) else 0
    ensures var (code, q1), q, mss, rest := Send(cb, data), cb.snd.queue, cb.Mss(), |data| - room;
            && code == (if rest > 127 * mss then -2 else 0) && |q1| == |q| + count
            && (count == 0 <==> code == -2 || (cb.stream && rest == 0))
            && (count > 0 && rest > 0 ==> mss * (count - 1) < rest <= mss * count)
            && (count > 0 && rest == 0 ==> count == 1)
            && (room == 0 ==> forall i | 0 <= i < |q| :: q1[i].data == q[i].data && (data != [] ==> q1[i] == q[i]))
            && (room > 0 ==> q1[|q| - 1] == Frag(0, q[|q| - 1].data + data[..room]) && q1[..|q| - 1] == q[..|q| - 1])
            && (forall i | |q| <= i < |q1| :: q1[i].frg == if cb.stream then 0 else |q1| - 1 - i)
            && (forall i | |q| <= i < |q1| - 1 :: |q1[i].data| == mss)
  {
    var q, mss := cb.snd.queue, cb.Mss();
    room := if cb.stream then Extension(q, |data|, mss) else 0;
    var rest := data[room..];
    FragCountLeast(|rest|, mss);
    count := FragCount(|rest|, mss);
    if count >= WND_RCV || (cb.stream && rest == []) {
      count := 0;
    } else {
      FragmentsShape(cb.stream, rest, mss, count);
      if rest != [] {
        FragmentsFull(cb.stream, rest, mss, count);
      }
    }
  }

  // ---------------------------------------------------------------- messages

  lemma {:induction false} HeadLenIs(q: seq<Frag>)
    ensures var k := HeadLen(q);
            && (q != [] ==> k > 0) && (forall i | 0 <= i < k - 1 :: q[i].frg != 0)
            && (0 < k < |q| ==> q[k - 1].frg == 0)
  {
    if q != [] && q[0].frg != 0 {
      HeadLenIs(q[1..]);
    }
  }

  lemma {:induction false} MoveReadyAppends(wide: bool, r: Rcv)
    ensures r.queue <= MoveReady(wide, r).queue
    decreases |r.buf|
  {
    if r.buf != [] && SameSn(r.buf[0].sn, r.nxt) && |r.queue| < r.wnd {
      MoveReadyAppends(wide, r.(nxt := Succ(wide, r.nxt), queue := r.queue + [r.buf[0].frag], buf := r.buf[1..]));
    }
  }

  /** What `ikcp_recv` does, on any queue. The first fragment says how many follow it: -1 on an empty queue, -2 if fewer
      are there, -3 if the caller's buffer is too small, each changing nothing; otherwise the fragments up to the
      first that ends a message, which a negative length leaves in the queue. A notice is owed exactly if this
      brought a full queue below the window. */
  lemma RecvCodes(wide: bool, r: Rcv, len: int) returns (k: nat)
    ensures var q := r.queue;
            && k <= |q| && (q != [] ==> k > 0) && (forall i | 0 <= i < k - 1 :: q[i].frg != 0)
            && (0 < k < |q| ==> q[k - 1].frg == 0)
    ensures var t, q := Recv(wide, r, len), r.queue;
            var size := |Datas(q[..k])|;
            && (q == [] ==> t.code == -1)
            && (q != [] && q[0].frg >= |q| ==> t.code == -2)
            && (q != [] && q[0].frg < |q| ==> t.code == if size > Max(len, -len) then -3 else size)
            && (t.code < 0 ==> t == RecvResult(t.code, [], [], r, false))
            && (t.code >= 0 ==>
                  && t.data == Datas(q[..k]) && t.taken == (if len < 0 then [] else q[..k])
                  && (if len < 0 then q else q[k..]) <= t.rcv.queue
                  && (t.tell <==> |q| >= r.wnd && |t.rcv.queue| < r.wnd))
  {
    k := HeadLen(r.queue);
    HeadLenIs(r.queue);
    MoveReadyAppends(wide, r.(queue := if len < 0 then r.queue else r.queue[k..]));
    if r.queue != [] && r.queue[0].frg == 0 {
      assert r.queue[..1] == [r.queue[0]];
      SingletonDatas(r.queue[0]);
    }
  }

  /** The fragments of whole messages, in order. */
  function AllFrags(ms: seq<seq<Byte>>, mss: nat): seq<Frag>
    requires mss > 0
    requires forall m | m in ms :: FragCount(|m|, mss) < WND_RCV
  {
    if ms == [] then [] else Fragments(false, ms[0], mss, FragCount(|ms[0]|, mss)) + AllFrags(ms[1..], mss)
  }

  lemma {:induction false} AllFragsAppend(s: seq<seq<Byte>>, t: seq<seq<Byte>>, mss: nat)
    requires mss > 0
    requires forall m | m in s + t :: FragCount(|m|, mss) < WND_RCV
    ensures (forall m | m in s :: m in s + t) && (forall m | m in t :: m in s + t)
    ensures AllFrags(s + t, mss) == AllFrags(s, mss) + AllFrags(t, mss)
    decreases |s|
  {
    assert forall i | 0 <= i < |t| :: (s + t)[|s| + i] == t[i];
    if s == [] {
      assert s + t == t;
    } else {
      assert (s + t)[1..] == s[1..] + t;
      AllFragsAppend(s[1..], t, mss);
    }
  }

  /** Reading a queue that starts inside the fragments of message `m`: the message is complete exactly
      when all its fragments have arrived, and then it is what is read. */
  lemma {:induction false} HeadLenOf(q: seq<Frag>, fs: seq<Frag>, rest: seq<Frag>)
    requires fs != [] && q <= fs + rest
    requires forall i | 0 <= i < |fs| :: fs[i].frg == |fs| - 1 - i
    ensures |q| >= |fs| ==> HeadLen(q) == |fs| && q[..|fs|] == fs
    ensures |q| < |fs| ==> HeadLen(q) == |q|
  {
    if |q| >= |fs| {
      assert q[..|fs|] == (fs + rest)[..|fs|] == fs;
    }
    if q != [] {
      assert q[0] == fs[0];
      if |fs| > 1 {
        assert q[1..] <= fs[1..] + rest by {
          assert (fs + rest)[1..] == fs[1..] + rest;
        }
        HeadLenOf(q[1..], fs[1..], rest);
      }
    }
  }

  lemma PeekOf(q: seq<Frag>, fs: seq<Frag>, rest: seq<Frag>)
    requires fs != [] && q <= fs + rest
    requires forall i | 0 <= i < |fs| :: fs[i].frg == |fs| - 1 - i
    ensures PeekSize(q) == if |q| >= |fs| then |Datas(fs)| else -1
  {
    HeadLenOf(q, fs, rest);
    if q != [] {
      assert q[0] == fs[0];
      if |fs| == 1 {
        assert fs == [q[0]];
        SingletonDatas(q[0]);
      }
    }
  }

  /** In message mode: what is queued or numbered is the fragments of the accepted messages; what was
      taken is the fragments of the messages returned, a prefix of those sent. */
  ghost predicate MessagesOk(p: Peer, q: Peer) {
    p.cb.Mss() > 0 &&
    (!p.cb.stream ==>
      && (forall m | m in p.sent :: FragCount(|m|, p.cb.Mss()) < WND_RCV)
      && p.numbered + p.cb.snd.queue == AllFrags(p.sent, p.cb.Mss())
      && q.got <= p.sent
      && q.popped == AllFrags(q.got, p.cb.Mss()))
  }

  /** In either mode: the bytes queued or numbered are those written; the bytes returned are those
      taken. */
  ghost predicate BytesOk(p: Peer, q: Peer) {
    Datas(p.numbered + p.cb.snd.queue) == p.written && Flatten(q.got) == Datas(q.popped)
  }

  /** What is left in line after what was taken. */
  lemma StillInLine(popped: seq<Frag>, queue: seq<Frag>, line: seq<Frag>, later: seq<Frag>)
    requires popped + queue <= line && line == popped + later
    ensures queue <= later
  {
    assert (popped + queue)[|popped|..] == queue && line[|popped|..] == later;
  }

  lemma FirstMessage(ms: seq<seq<Byte>>, mss: nat)
    requires mss > 0 && ms != [] && FragCount(|ms[0]|, mss) < WND_RCV
    requires forall m | m in ms :: FragCount(|m|, mss) < WND_RCV
    ensures var m := ms[0];
            var fs := Fragments(false, m, mss, FragCount(|m|, mss));
            && |fs| == FragCount(|m|, mss) >= 1 && (forall i | 0 <= i < |fs| :: fs[i].frg == |fs| - 1 - i)
            && Datas(fs) == m && AllFrags(ms, mss) == fs + AllFrags(ms[1..], mss)
  {
    var m := ms[0];
    FragmentsShape(false, m, mss, FragCount(|m|, mss));
    FragCountEnough(|m|, mss);
    FragmentsCarry(false, m, mss, FragCount(|m|, mss));
  }

  /** What the receiver's queue holds next, in message mode. */
  lemma NextMessage(p: Peer, q: Peer)
    requires LinkOk(p, q) && MessagesOk(p, q) && !p.cb.stream
    ensures q.cb.rcv.queue != [] ==> |q.got| < |p.sent|
    ensures q.cb.rcv.queue != [] ==>
      var mss := p.cb.Mss();
      var m := p.sent[|q.got|];
      var fs := Fragments(false, m, mss, FragCount(|m|, mss));
      && |fs| == FragCount(|m|, mss) >= 1 && (forall i | 0 <= i < |fs| :: fs[i].frg == |fs| - 1 - i)
      && Datas(fs) == m
      && exists rest :: q.cb.rcv.queue <= fs + rest
  {
    var mss := p.cb.Mss();
    var queue := q.cb.rcv.queue;
    var later := p.sent[|q.got|..];
    assert p.sent == q.got + later;
    assert AllFrags([], mss) == [];
    hide AllFrags, Fragments, FragCount, Datas;
    AllFragsAppend(q.got, later, mss);
    StillInLine(q.popped, queue, p.numbered + p.cb.snd.queue, AllFrags(later, mss));
    if queue != [] {
      assert later != [];
      assert forall m | m in later :: m in p.sent;
      FirstMessage(later, mss);
      assert queue <= Fragments(false, later[0], mss, FragCount(|later[0]|, mss)) + AllFrags(later[1..], mss);
    }
  }

  /** What `ikcp_recv` does in message mode. With the next message complete and the buffer large enough it
      returns exactly that message; a queue filled to the receive window always has one complete, so a
      receiver cannot stall with a full queue. */
  lemma RecvReturnsNext(p: Peer, q: Peer, len: CInt)
    requires LinkOk(p, q) && MessagesOk(p, q) && !p.cb.stream
    ensures var r := Recv(true, q.cb.rcv, len);
            if r.code >= 0 then
              |q.got| < |p.sent| && r.data == p.sent[|q.got|] && r.code == |r.data|
              && (len >= 0 ==> r.taken == Fragments(false, r.data, p.cb.Mss(), FragCount(|r.data|, p.cb.Mss())))
            else r.taken == [] && r.rcv == q.cb.rcv
    ensures |q.cb.rcv.queue| >= q.cb.rcv.wnd ==> PeekSize(q.cb.rcv.queue) >= 0
    ensures PeekSize(q.cb.rcv.queue) >= 0 ==>
      |q.got| < |p.sent| && PeekSize(q.cb.rcv.queue) == |p.sent[|q.got|]|
  {
    NextMessage(p, q);
    if q.cb.rcv.queue != [] {
      var mss := p.cb.Mss();
      var m := p.sent[|q.got|];
      var fs := Fragments(false, m, mss, FragCount(|m|, mss));
      var rest :| q.cb.rcv.queue <= fs + rest;
      HeadLenOf(q.cb.rcv.queue, fs, rest);
      PeekOf(q.cb.rcv.queue, fs, rest);
      assert m in p.sent;
    }
  }

  // ---------------------------------------------------------------- steps

  lemma LineGrows(numbered: seq<Frag>, queue: seq<Frag>, queue1: seq<Frag>, more: seq<Byte>)
    requires Datas(queue1) == Datas(queue) + more
    ensures Datas(numbered + queue1) == Datas(numbered + queue) + more
  {
    DatasAppend(numbered, queue);
    DatasAppend(numbered, queue1);
    Assoc(Datas(numbered), Datas(queue), more);
  }

  lemma SendBytes(p: Peer, q: Peer, data: seq<Byte>)
    requires p.cb.Mss() > 0 && BytesOk(p, q)
    ensures BytesOk(StepPeer(true, p, q, CallSend(data)), q)
  {
    var p1 := StepPeer(true, p, q, CallSend(data));
    var more := data[..Accepted(p.cb, data)];
    assert p1.cb.snd.queue == Send(p.cb, data).1 && p1.numbered == p.numbered && p1.written == p.written + more;
    LineGrows(p.numbered, p.cb.snd.queue, p1.cb.snd.queue, more) by { SendCarries(p.cb, data); }
  }

  /** One more whole message adds its fragments. */
  lemma OneMore(ms: seq<seq<Byte>>, m: seq<Byte>, mss: nat)
    requires mss > 0 && FragCount(|m|, mss) < WND_RCV
    requires forall x | x in ms :: FragCount(|x|, mss) < WND_RCV
    ensures forall x | x in ms + [m] :: FragCount(|x|, mss) < WND_RCV
    ensures AllFrags(ms + [m], mss) == AllFrags(ms, mss) + Fragments(false, m, mss, FragCount(|m|, mss))
  {
    assert forall x | x in ms + [m] :: x in ms || x == m;
    AllFragsAppend(ms, [m], mss);
    var fs := Fragments(false, m, mss, FragCount(|m|, mss));
    assert [m][1..] == [] && fs + [] == fs;
  }

  lemma SendMessages(p: Peer, q: Peer, data: seq<Byte>)
    requires MessagesOk(p, q)
    ensures MessagesOk(StepPeer(true, p, q, CallSend(data)), q)
  {
    hide FragCount, Fragments, AllFrags;
    if !p.cb.stream && Send(p.cb, data).0 == 0 {
      var mss := p.cb.Mss();
      assert data[0..] == data;
      var fs := Fragments(false, data, mss, FragCount(|data|, mss));
      assert Send(p.cb, data).1 == p.cb.snd.queue + fs;
      OneMore(p.sent, data, mss);
      Assoc(p.numbered, p.cb.snd.queue, fs);
    }
  }

  lemma RecvHistory(p: Peer, q: Peer, len: CInt)
    requires q.cb.Mss() > 0
    ensures var r, q1 := Recv(true, q.cb.rcv, len), StepPeer(true, q, p, CallRecv(len));
            && q1.popped == q.popped + r.taken
            && (if r.code >= 0 && len >= 0 then q1.got == q.got + [r.data] && r.data == Datas(r.taken)
                else q1.got == q.got && r.taken == [])
  {
    hide MoveReady, HeadLen, PeekSize, Datas, Send, Input, Flush, Update, NoDelay, WndSize;
  }

  lemma RecvBytes(p: Peer, q: Peer, len: CInt)
    requires BytesOk(p, q) && q.cb.Mss() > 0
    ensures BytesOk(p, StepPeer(true, q, p, CallRecv(len)))
  {
    RecvHistory(p, q, len);
    hide StepPeer, Recv;
    var r := Recv(true, q.cb.rcv, len);
    DatasAppend(q.popped, r.taken);
    if r.code >= 0 && len >= 0 {
      FlattenAppend(q.got, [r.data]);
      assert Flatten([r.data]) == r.data + Flatten([]) == r.data;
    } else {
      assert q.popped + r.taken == q.popped;
    }
  }

  lemma OneMoreMessage(p: Peer, got: seq<seq<Byte>>, m: seq<Byte>, fs: seq<Frag>)
    requires p.cb.Mss() > 0 && (forall x | x in p.sent :: FragCount(|x|, p.cb.Mss()) < WND_RCV)
    requires got <= p.sent && |got| < |p.sent| && m == p.sent[|got|]
    requires fs == Fragments(false, m, p.cb.Mss(), FragCount(|m|, p.cb.Mss()))
    ensures got + [m] <= p.sent
    ensures (forall x | x in got + [m] :: x in p.sent)
    ensures AllFrags(got + [m], p.cb.Mss()) == AllFrags(got, p.cb.Mss()) + fs
  {
    assert p.sent[..|got| + 1] == got + [m];
    assert forall x | x in got :: x in p.sent;
    assert m in p.sent;
    OneMore(got, m, p.cb.Mss());
  }

  lemma RecvMessages(p: Peer, q: Peer, len: CInt)
    requires LinkOk(p, q) && MessagesOk(p, q) && q.cb.Mss() > 0
    ensures MessagesOk(p, StepPeer(true, q, p, CallRecv(len)))
  {
    var r := Recv(true, q.cb.rcv, len);
    if r.code >= 0 && len >= 0 {
      if !p.cb.stream {
        RecvReturnsNext(p, q, len);
        OneMoreMessage(p, q.got, r.data, r.taken);
      }
    } else {
      assert q.popped + r.taken == q.popped;
    }
  }

  ghost predicate TalkBothOk(p: Peer, q: Peer) {
    MessagesOk(p, q) && BytesOk(p, q) && MessagesOk(q, p) && BytesOk(q, p)
  }

  /** A call that leaves the fragments in line, what was written and the configuration alone. */
  lemma SenderUntouched(p: Peer, p1: Peer, q: Peer)
    requires p1.numbered + p1.cb.snd.queue == p.numbered + p.cb.snd.queue
    requires p1.sent == p.sent && p1.written == p.written
    requires p1.cb.mtu == p.cb.mtu && p1.cb.stream == p.cb.stream
    requires MessagesOk(p, q) && BytesOk(p, q)
    ensures MessagesOk(p1, q) && BytesOk(p1, q)
  {
  }

  /** A call that takes nothing from the receive queue. */
  lemma ReceiverUntouched(p: Peer, p1: Peer, q: Peer)
    requires p1.got == p.got && p1.popped == p.popped
    requires MessagesOk(q, p) && BytesOk(q, p)
    ensures MessagesOk(q, p1) && BytesOk(q, p1)
  {
  }

  lemma {:induction false} FillWindowQueue(wide: bool, s: Snd, cwnd: U32, current: U32, rto: U32)
    ensures var t := FillWindow(wide, s, cwnd, current, rto);
            |t.queue| <= |s.queue| && t.queue == s.queue[|s.queue| - |t.queue|..]
    decreases |s.queue|
  {
    if ITimeDiff(s.nxt, s.una + cwnd) < 0 && s.queue != [] {
      FillWindowQueue(wide, s.(queue := s.queue[1..], nxt := Succ(wide, s.nxt),
                               buf := s.buf + [Seg(s.nxt, s.queue[0], current, rto, 0, 0)]), cwnd, current, rto);
    }
  }

  /** A flush moves fragments from the queue to the history and changes neither their order nor the log
      of the other calls. */
  lemma FlushMessages(p: Peer, ctl0: Ctl)
    ensures var p1 := AfterFlush(p, Flush(true, p.cb.(ctl := ctl0)));
            && p1.numbered + p1.cb.snd.queue == p.numbered + p.cb.snd.queue
            && p1.sent == p.sent && p1.written == p.written && p1.got == p.got && p1.popped == p.popped
            && p1.cb.mtu == p.cb.mtu && p1.cb.stream == p.cb.stream
  {
    hide AfterSending, Pack, FlushWires, ProbeTimer, TransmitAll, SendWindow, FillWindow;
    var cb := p.cb.(ctl := ctl0);
    if ctl0.updated {
      var ctl := ProbeTimer(ctl0);
      FillWindowQueue(true, cb.snd, SendWindow(ctl), ctl.current, ctl.rxRto);
      var k := |cb.snd.queue| - |Flush(true, cb).cb.snd.queue|;
      assert cb.snd.queue == cb.snd.queue[..k] + cb.snd.queue[k..];
      assert p.numbered + cb.snd.queue[..k] + cb.snd.queue[k..] == p.numbered + cb.snd.queue;
    }
  }

  lemma {:induction false} InputSegsQueue(cb: Cb, ws: seq<Wire>)
    ensures InputSegs(true, cb, ws).snd.queue == cb.snd.queue
    decreases |ws|
  {
    if ws != [] {
      InputSegsQueue(InputSeg(true, cb, ws[0]), ws[1..]);
    }
  }

  lemma StepSends(p: Peer, q: Peer, act: Act)
    requires p.cb.Mss() > 0 && MessagesOk(p, q) && BytesOk(p, q)
    ensures MessagesOk(StepPeer(true, p, q, act), q) && BytesOk(StepPeer(true, p, q, act), q)
  {
    var p1 := StepPeer(true, p, q, act);
    match act {
      case CallSend(data) =>
        SendMessages(p, q, data);
        SendBytes(p, q, data);
      case CallUpdate(current) =>
        FlushMessages(p, Tick(p.cb.ctl, current).0);
        assert p.numbered + [] == p.numbered;
        SenderUntouched(p, p1, q);
      case CallFlush =>
        FlushMessages(p, p.cb.ctl);
        SenderUntouched(p, p1, q);
      case CallInput(i) =>
        if i < |q.out| {
          InputSegsQueue(p.cb, q.out[i]);
        }
        SenderUntouched(p, p1, q);
      case _ => SenderUntouched(p, p1, q);
    }
  }

  lemma OnlyRecvTakes(p: Peer, q: Peer, act: Act)
    requires p.cb.Mss() > 0 && !act.CallRecv?
    ensures StepPeer(true, p, q, act).got == p.got && StepPeer(true, p, q, act).popped == p.popped
  {
  }

  lemma StepReceives(p: Peer, q: Peer, act: Act)
    requires LinkOk(q, p) && p.cb.Mss() > 0 && MessagesOk(q, p) && BytesOk(q, p)
    ensures MessagesOk(q, StepPeer(true, p, q, act)) && BytesOk(q, StepPeer(true, p, q, act))
  {
    if act.CallRecv? {
      RecvMessages(q, p, act.len);
      RecvBytes(q, p, act.len);
    } else {
      OnlyRecvTakes(p, q, act);
      ReceiverUntouched(p, StepPeer(true, p, q, act), q);
    }
  }

  ghost predicate TalkOk(s: Sys) {
    TalkBothOk(s.a, s.b)
  }

  lemma {:induction false} RunMessages(s: Sys, evs: seq<Event>)
    requires SysOk(s) && TalkOk(s) && HarmlessRun(s, evs)
    ensures TalkOk(Run(true, s, evs))
    decreases |evs|
  {
    if evs != [] {
      var e := evs[0];
      StepKeeps(s, e);
      StepSends(At(s, e), Other(s, e), e.act);
      StepReceives(At(s, e), Other(s, e), e.act);
      RunMessages(Step(true, s, e), evs[1..]);
    }
  }
}
