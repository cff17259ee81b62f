/** `dtNodePool`: nodes found by polygon and state through hash chains threaded over arrays. */
module NavNodePool {
  import opened NavNode

  /** `DT_NULL_IDX`. */
  const NULL_IDX := 0xffff

  /** `dtHashRef(id) & (m_hashSize - 1)`, with `m_hashSize` a power of two. */
  function Bucket(hash: Ref -> nat, size: nat, id: Ref): (b: nat)
    requires size > 0
    ensures b < size
  {
    hash(id) % size
  }

  function BucketsOf(ns: seq<Node>, hash: Ref -> nat, size: nat): (r: seq<nat>)
    requires size > 0
    ensures |r| == |ns| && forall i | 0 <= i < |ns| :: r[i] == Bucket(hash, size, ns[i].id)
  {
    seq(|ns|, i requires 0 <= i < |ns| => Bucket(hash, size, ns[i].id))
  }

  /** `i` is the last index below `limit` that falls into bucket `b`, or NULL_IDX if there is none. */
  ghost predicate LastBefore(bs: seq<nat>, b: nat, limit: nat, i: nat) {
    && limit <= |bs|
    && (if i == NULL_IDX then forall j | 0 <= j < limit :: bs[j] != b
        else i < limit && bs[i] == b && forall j | i < j < limit :: bs[j] != b)
  }

  /** Every bucket's chain lists exactly the nodes of that bucket, newest first. `bs` is the bucket of each
      node. */
  ghost predicate ChainsOk(bs: seq<nat>, first: seq<nat>, next: seq<nat>) {
    && |bs| <= |next|
    && (forall b | 0 <= b < |first| :: LastBefore(bs, b, |bs|, first[b]))
    && (forall i | 0 <= i < |bs| :: LastBefore(bs, bs[i], i, next[i]))
  }

  /** The chains after a new node went to the front of its bucket. */
  lemma ChainsGrow(bs: seq<nat>, first: seq<nat>, next: seq<nat>, b: nat)
    requires ChainsOk(bs, first, next) && |bs| < |next| && |bs| < NULL_IDX && b < |first|
    ensures ChainsOk(bs + [b], first[b := |bs|], next[|bs| := first[b]])
  {
    var n := |bs|;
    var bs1, first1, next1 := bs + [b], first[b := n], next[n := first[b]];
    forall c | 0 <= c < |first1| ensures LastBefore(bs1, c, n + 1, first1[c]) {
      assert LastBefore(bs, c, n, first[c]);
    }
    forall i | 0 <= i < n + 1 ensures LastBefore(bs1, bs1[i], i, next1[i]) {
      if i < n {
        assert LastBefore(bs, bs[i], i, next[i]);
      } else {
        assert LastBefore(bs, b, n, first[b]);
      }
    }
  }

  predicate Match(n: Node, id: Ref, state: nat) {
    n.id == id && n.state == state
  }

  /** Between the entry `i` of a chain and the place it was reached from there is no node of the bucket. */
  lemma NoneBetween(ns: seq<Node>, bs: seq<nat>, b: nat, above: nat, i: nat, hash: Ref -> nat, size: nat, id: Ref,
                    state: nat)
    requires size > 0 && bs == BucketsOf(ns, hash, size) && b == Bucket(hash, size, id)
    requires LastBefore(bs, b, above, i)
    ensures i != NULL_IDX ==> i < above && bs[i] == b
    ensures forall j | (if i == NULL_IDX then 0 else i + 1) <= j < above :: !Match(ns[j], id, state)
  {
    forall j | (if i == NULL_IDX then 0 else i + 1) <= j < above ensures !Match(ns[j], id, state) {
      assert bs[j] != b;
    }
  }

  /** No two nodes stand for the same polygon and state. */
  ghost predicate Unique(ns: seq<Node>, count: nat)
    requires count <= |ns|
  {
    forall i, j | 0 <= i < j < count :: !Match(ns[j], ns[i].id, ns[i].state)
  }

  class NodePool {
    const nodes: array<Node>
    const first: array<nat>
    const next: array<nat>
    const maxNodes: nat
    const hash: Ref -> nat
    var count: nat

    ghost predicate Shape()
      reads this
    {
      && nodes.Length == maxNodes && next.Length == maxNodes && first.Length > 0 && first != next
      && 0 < maxNodes <= NULL_IDX && count <= maxNodes
    }

    ghost predicate Valid()
      reads this, nodes, first, next
    {
      && Shape()
      && ChainsOk(BucketsOf(nodes[..count], hash, first.Length), first[..], next[..])
      && Unique(nodes[..], count)
    }

    constructor (maxNodes: nat, hashSize: nat, hash: Ref -> nat)
      requires 0 < maxNodes <= NULL_IDX && hashSize > 0
      ensures Valid() && count == 0 && this.maxNodes == maxNodes && this.hash == hash
      ensures fresh(nodes) && fresh(first) && fresh(next)
    {
      this.maxNodes, this.hash, count := maxNodes, hash, 0;
      nodes := new Node[maxNodes](_ => Node(Pos(0.0, 0.0, 0.0), 0, 0, 0, 0, false, false, 0));
      first := new nat[hashSize](_ => NULL_IDX);
      next := new nat[maxNodes](_ => NULL_IDX);
      new;
    }

    /** `clear`. */
    method Clear()
      requires Shape()
      modifies this, first
      ensures Valid() && count == 0
    {
      forall i | 0 <= i < first.Length {
        first[i] := NULL_IDX;
      }
      count := 0;
    }

    /** `findNode`: the index of the node, or NULL_IDX exactly when there is none. */
    method FindNode(id: Ref, state: nat) returns (i: nat)
      requires Valid()
      ensures i == NULL_IDX ==> forall j | 0 <= j < count :: !Match(nodes[j], id, state)
      ensures i != NULL_IDX ==> i < count && Match(nodes[i], id, state)
    {
      hide LastBefore;
      var b := Bucket(hash, first.Length, id);
      ghost var ns := nodes[..count];
      ghost var above: nat := count;
      ghost var bs := BucketsOf(ns, hash, first.Length);
      i := first[b];
      while i != NULL_IDX
        invariant above <= count && LastBefore(bs, b, above, i)
        invariant forall j | above <= j < count :: !Match(ns[j], id, state)
        decreases above
      {
        NoneBetween(ns, bs, b, above, i, hash, first.Length, id, state);
        if nodes[i].id == id && nodes[i].state == state {
          return;
        }
        above := i;
        i := next[i];
      }
      NoneBetween(ns, bs, b, above, i, hash, first.Length, id, state);
    }

    /** `getNode`: the node for a polygon and state, made if there is none and the pool has room. */
    method GetNode(id: Ref, state: nat) returns (i: nat)
      requires Valid()
      modifies this, nodes, first, next
      ensures Valid()
      ensures i != NULL_IDX ==> i < count && Match(nodes[i], id, state)
      ensures i < old(count) ==> count == old(count) && nodes[..] == old(nodes[..])
      ensures i == NULL_IDX ==> count == old(count) == maxNodes && nodes[..] == old(nodes[..])
      ensures old(count) <= i != NULL_IDX ==>
        && i == old(count) && count == i + 1
        && nodes[..] == old(nodes[..])[i := Node(old(nodes[i].pos), 0, 0, 0, state, false, false, id)]
      ensures old(count) <= i ==> forall j | 0 <= j < old(count) :: !Match(old(nodes[j]), id, state)
    {
      i := FindNode(id, state);
      if i != NULL_IDX {
        return;
      }
      if count >= maxNodes {
        return;
      }
      hide LastBefore;
      var bucket := Bucket(hash, first.Length, id);
      ghost var bs := BucketsOf(nodes[..count], hash, first.Length);
      i := count;
      ChainsGrow(bs, first[..], next[..], bucket);
      count := count + 1;
      nodes[i] := Node(nodes[i].pos, 0, 0, 0, state, false, false, id);
      next[i] := first[bucket];
      first[bucket] := i;
      assert BucketsOf(nodes[..count], hash, first.Length) == bs + [bucket];
      assert first[..] == old(first[..])[bucket := i];
      assert next[..] == old(next[..])[i := old(first[..])[bucket]];
    }
  }
}
