/** Lists chained through a `next` field, as sequences of the places they run through. */
module NavMeshLists {

  /** DT_NULL_LINK, and the null pointer between tiles. */
  const NULL_LINK: int := -1

  function NextOf(c: seq<nat>, k: nat): int
    requires k < |c|
  {
    if k + 1 < |c| then c[k + 1] else NULL_LINK
  }

  function FirstOf(c: seq<nat>): int {
    if c == [] then NULL_LINK else c[0]
  }

  ghost predicate LinkAt(next: seq<int>, c: seq<nat>, k: nat)
    requires k < |c|
  {
    c[k] < |next| && next[c[k]] == NextOf(c, k)
  }

  /** `c` is the list that starts with `first`. */
  ghost predicate ListFrom(next: seq<int>, first: int, c: seq<nat>) {
    first == FirstOf(c) && forall k | 0 <= k < |c| :: LinkAt(next, c, k)
  }

  lemma ListKept(next: seq<int>, next1: seq<int>, first: int, c: seq<nat>)
    requires ListFrom(next, first, c) && |next1| == |next|
    requires forall k | 0 <= k < |c| && c[k] < |next| :: next1[c[k]] == next[c[k]]
    ensures ListFrom(next1, first, c)
  {
    forall k | 0 <= k < |c| ensures LinkAt(next1, c, k) {
      assert LinkAt(next, c, k);
    }
  }

  lemma TailOf(next: seq<int>, c: seq<nat>)
    requires c != [] && ListFrom(next, c[0], c)
    ensures c[0] < |next| && ListFrom(next, next[c[0]], c[1..])
  {
    assert LinkAt(next, c, 0);
    forall k | 0 <= k < |c[1..]| ensures LinkAt(next, c[1..], k) {
      assert LinkAt(next, c, k + 1);
    }
  }

  lemma ConsOf(next: seq<int>, first: int, c: seq<nat>, l: nat)
    requires ListFrom(next, first, c) && l < |next| && next[l] == first
    ensures ListFrom(next, l, [l] + c)
  {
    var c1 := [l] + c;
    forall k | 0 <= k < |c1| ensures LinkAt(next, c1, k) {
      if k > 0 {
        assert LinkAt(next, c, k - 1);
      }
    }
  }

  /** Cutting a link out of the middle of a list. */
  lemma CutOk(next: seq<int>, next1: seq<int>, first: int, first1: int, a: seq<nat>, j: nat, b: seq<nat>)
    requires ListFrom(next, first, a + [j] + b) && |next1| == |next| && j < |next|
    requires first1 == if a == [] then next[j] else first
    requires forall k | 0 <= k < |a| && a[k] < |next| ::
               next1[a[k]] == if k + 1 == |a| then next[j] else next[a[k]]
    requires forall k | 0 <= k < |b| && b[k] < |next| :: next1[b[k]] == next[b[k]]
    ensures ListFrom(next1, first1, a + b)
  {
    var c, d := a + [j] + b, a + b;
    assert LinkAt(next, c, |a|) && c[|a|] == j;
    forall k | 0 <= k < |d| ensures LinkAt(next1, d, k) {
      if k < |a| {
        assert c[k] == a[k] && LinkAt(next, c, k);
      } else {
        assert c[k + 1] == d[k] == b[k - |a|] && LinkAt(next, c, k + 1);
      }
    }
  }
}
