/** What several components share. */
module Basics {

  datatype Option<+T> = None | Some(value: T)

  ghost predicate Distinct(c: seq<nat>) {
    forall j, k | 0 <= j < k < |c| :: c[j] != c[k]
  }

  lemma Assoc<T>(a: seq<T>, b: seq<T>, c: seq<T>)
    ensures (a + b) + c == a + (b + c) && [] + c == c
  {
  }
}
