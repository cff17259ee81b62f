/** What the queue operations of the control block do to sorted queues, stated on unbounded numbers. */
module KcpQueues {
  import opened KcpArith
  import opened KcpModel

  predicate SortedSegs(buf: seq<Seg>) {
    forall i, j | 0 <= i < j < |buf| :: buf[i].sn < buf[j].sn
  }

  predicate SortedRSegs(buf: seq<RSeg>) {
    forall i, j | 0 <= i < j < |buf| :: buf[i].sn < buf[j].sn
  }

  /** `parse_una` removes exactly the longest prefix that compares below `una`. */
  lemma {:induction false} DropBelowIsSuffix(buf: seq<Seg>, una: nat) returns (k: nat)
    ensures k <= |buf| && DropBelow(buf, una) == buf[k..]
    ensures forall i | 0 <= i < k :: ITimeDiff(una, buf[i].sn) > 0
    ensures k < |buf| ==> ITimeDiff(una, buf[k].sn) <= 0
  {
    if buf != [] && ITimeDiff(una, buf[0].sn) > 0 {
      var j := DropBelowIsSuffix(buf[1..], una);
      k := j + 1;
      assert forall i | 1 <= i < k :: buf[i] == buf[1..][i - 1];
      assert buf[1..][j..] == buf[k..];
    } else {
      k := 0;
    }
  }

  /** `parse_ack` removes one segment with that number, or nothing. */
  lemma {:induction false} RemoveSnAt(buf: seq<Seg>, sn: nat) returns (left: seq<Seg>, hit: seq<Seg>, right: seq<Seg>)
    ensures buf == left + hit + right && RemoveSn(buf, sn) == left + right
    ensures |hit| <= 1 && (hit != [] ==> SameSn(sn, hit[0].sn))
  {
    left, hit, right := [], [], buf;
    if buf != [] {
      if SameSn(sn, buf[0].sn) {
        hit, right := [buf[0]], buf[1..];
      } else if ITimeDiff(sn, buf[0].sn) >= 0 {
        left, hit, right := RemoveSnAt(buf[1..], sn);
        assert [buf[0]] + (left + right) == ([buf[0]] + left) + right;
        assert [buf[0]] + (left + hit + right) == ([buf[0]] + left) + hit + right;
        left := [buf[0]] + left;
      }
    }
  }

  /** `parse_fastack` only counts. */
  lemma {:induction false} BumpFastackKeeps(buf: seq<Seg>, sn: nat)
    ensures |BumpFastack(buf, sn)| == |buf|
    ensures forall i | 0 <= i < |buf| ::
              BumpFastack(buf, sn)[i].sn == buf[i].sn && BumpFastack(buf, sn)[i].frag == buf[i].frag
  {
    if buf != [] && ITimeDiff(sn, buf[0].sn) >= 0 {
      BumpFastackKeeps(buf[1..], sn);
      assert forall i | 1 <= i < |buf| :: buf[i] == buf[1..][i - 1];
    }
  }

  predicate Waits(buf: seq<RSeg>, k: nat) {
    exists i | 0 <= i < |buf| :: buf[i].sn == k
  }

  /** Number `k` has reached this receiver: it was moved to `rcv_queue`, or waits in `rcv_buf`. */
  predicate Held(r: Rcv, k: nat) {
    k < r.nxt || Waits(r.buf, k)
  }

  predicate InBuf(s: Snd, k: nat) {
    exists i | 0 <= i < |s.buf| :: s.buf[i].sn == k
  }

  /** All numbers of the buffer and `sn` are close enough for the comparison to be the true one. */
  predicate Near(buf: seq<RSeg>, sn: nat) {
    forall i | 0 <= i < |buf| :: -TWO31 < buf[i].sn - sn < TWO31
  }

  /** `parse_data` discards a repeated number and otherwise puts the segment between its neighbours. */
  lemma {:induction false} InsertAt(buf: seq<RSeg>, g: RSeg) returns (left: seq<RSeg>, right: seq<RSeg>, repeat: bool)
    requires SortedRSegs(buf) && Near(buf, g.sn)
    ensures buf == left + right
    ensures repeat ==> right != [] && right[0].sn == g.sn && Insert(buf, g) == buf
    ensures !repeat ==> Insert(buf, g) == left + [g] + right
    ensures !repeat ==>
              (forall i | 0 <= i < |left| :: left[i].sn < g.sn) && (forall i | 0 <= i < |right| :: g.sn < right[i].sn)
  {
    left, right, repeat := [], [], false;
    if buf != [] {
      var front, last := buf[..|buf| - 1], buf[|buf| - 1];
      assert buf == front + [last];
      SameSnExact(last.sn, g.sn);
      DiffExact(g.sn, last.sn);
      if last.sn == g.sn {
        left, right, repeat := front, [last], true;
      } else if g.sn > last.sn {
        left := buf;
      } else {
        left, right, repeat := InsertAt(front, g);
        assert left + [g] + right + [last] == left + [g] + (right + [last]);
        right := right + [last];
      }
    }
  }

  lemma {:induction false} MoveReadyWnd(wide: bool, r: Rcv)
    ensures MoveReady(wide, r).wnd == r.wnd
    decreases |r.buf|
  {
    if r.buf != [] && SameSn(r.buf[0].sn, r.nxt) && |r.queue| < r.wnd {
      MoveReadyWnd(wide, r.(nxt := Succ(wide, r.nxt), queue := r.queue + [r.buf[0].frag], buf := r.buf[1..]));
    }
  }

  /** Insertion keeps what is there, and brings nothing but the new segment. */
  lemma {:induction false} InsertMembers(buf: seq<RSeg>, g: RSeg)
    ensures forall h :: h in buf ==> h in Insert(buf, g)
    ensures forall h :: h in Insert(buf, g) ==> h == g || h in buf
    ensures Insert(buf, g) != buf ==> g in Insert(buf, g)
    decreases |buf|
  {
    if buf != [] {
      var front, last := buf[..|buf| - 1], buf[|buf| - 1];
      assert buf == front + [last];
      InsertMembers(front, g);
    }
  }
}
