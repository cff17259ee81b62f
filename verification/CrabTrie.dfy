/** The word filter's trie as values, and the naive filter it stands for. */
module CrabTrie {

  /** What a table node holds besides its rune: whether a word ends here, and the table below it (-1 if none). */
  datatype Entry = Entry(terminal: bool, child: int)

  type Trie = seq<map<nat, Entry>>

  ghost predicate EntryOk(trie: Trie, t: nat, r: nat) {
    t < |trie| && r in trie[t] ==> trie[t][r].child == -1 || t < trie[t][r].child < |trie|
  }

  ghost predicate SameChild(trie: Trie, t: nat, r: nat, u: nat, q: nat) {
    && t < |trie| && u < |trie| && r in trie[t] && q in trie[u]
    && trie[t][r].child >= 0 && trie[t][r].child == trie[u][q].child
  }

  /** A tree: tables point to later tables, and no table is pointed to twice. */
  ghost predicate TrieOk(trie: Trie) {
    && |trie| > 0
    && (forall t: nat, r: nat :: EntryOk(trie, t, r))
    && (forall t: nat, r: nat, u: nat, q: nat | SameChild(trie, t, r, u, q) :: t == u && r == q)
  }

  /** The table reached by reading `w` from the root, or -1. */
  ghost function TableOf(trie: Trie, w: seq<nat>): (t: int)
    requires TrieOk(trie)
    ensures -1 <= t < |trie| && (w != [] ==> t != 0)
  {
    if w == [] then 0
    else
      var n := |w| - 1;
      var t := TableOf(trie, w[..n]);
      if t < 0 || w[n] !in trie[t] then -1 else assert EntryOk(trie, t, w[n]); trie[t][w[n]].child
  }

  ghost predicate Accepts(trie: Trie, w: seq<nat>)
    requires TrieOk(trie)
  {
    w != [] &&
    var n := |w| - 1;
    var t := TableOf(trie, w[..n]);
    t >= 0 && w[n] in trie[t] && trie[t][w[n]].terminal
  }

  /** In a tree a table is reached by one word only. */
  lemma {:induction false} OneWord(trie: Trie, v: seq<nat>, w: seq<nat>)
    requires TrieOk(trie) && TableOf(trie, v) == TableOf(trie, w) >= 0
    ensures v == w
    decreases |v|
  {
    if v != [] && w != [] {
      var m, n := |v| - 1, |w| - 1;
      var t, u := TableOf(trie, v[..m]), TableOf(trie, w[..n]);
      assert SameChild(trie, t, v[m], u, w[n]);
      OneWord(trie, v[..m], w[..n]);
      assert v == v[..m] + [v[m]] && w == w[..n] + [w[n]];
    }
  }

  // ---------------------------------------------------------------- the three ways the trie changes

  function WithEntry(trie: Trie, t: nat, r: nat, entry: Entry): Trie
    requires t < |trie|
  {
    var below: map<nat, Entry> := trie[t][r := entry];
    trie[t := below]
  }

  function WithKey(trie: Trie, t: nat, r: nat): Trie
    requires t < |trie|
  {
    WithEntry(trie, t, r, Entry(false, -1))
  }

  function WithChild(trie: Trie, t: nat, r: nat): Trie
    requires t < |trie| && r in trie[t]
  {
    WithEntry(trie, t, r, trie[t][r].(child := |trie|)) + [map[]]
  }

  function WithWord(trie: Trie, t: nat, r: nat): Trie
    requires t < |trie| && r in trie[t]
  {
    WithEntry(trie, t, r, trie[t][r].(terminal := true))
  }

  lemma KeyKeepsTrie(trie: Trie, t: nat, r: nat)
    requires TrieOk(trie) && t < |trie| && r !in trie[t]
    ensures TrieOk(WithKey(trie, t, r))
  {
    var after := WithKey(trie, t, r);
    forall u: nat, q: nat ensures EntryOk(after, u, q) {
      assert EntryOk(trie, u, q);
    }
    forall u: nat, q: nat, u1: nat, q1: nat | SameChild(after, u, q, u1, q1) ensures u == u1 && q == q1 {
      assert SameChild(trie, u, q, u1, q1);
    }
  }

  lemma ChildKeepsTrie(trie: Trie, t: nat, r: nat)
    requires TrieOk(trie) && t < |trie| && r in trie[t] && trie[t][r].child == -1
    ensures TrieOk(WithChild(trie, t, r))
  {
    var after := WithChild(trie, t, r);
    forall u: nat, q: nat ensures EntryOk(after, u, q) {
      assert EntryOk(trie, u, q);
    }
    forall u: nat, q: nat, u1: nat, q1: nat | SameChild(after, u, q, u1, q1) ensures u == u1 && q == q1 {
      assert EntryOk(trie, u, q) && EntryOk(trie, u1, q1);
      if (u, q) != (t, r) && (u1, q1) != (t, r) {
        assert SameChild(trie, u, q, u1, q1);
      }
    }
  }

  lemma WordKeepsTrie(trie: Trie, t: nat, r: nat)
    requires TrieOk(trie) && t < |trie| && r in trie[t]
    ensures TrieOk(WithWord(trie, t, r))
  {
    var after := WithWord(trie, t, r);
    forall u: nat, q: nat ensures EntryOk(after, u, q) {
      assert EntryOk(trie, u, q);
    }
    forall u: nat, q: nat, u1: nat, q1: nat | SameChild(after, u, q, u1, q1) ensures u == u1 && q == q1 {
      assert SameChild(trie, u, q, u1, q1);
    }
  }

  lemma {:induction false} KeyKeepsTables(trie: Trie, t: nat, r: nat, w: seq<nat>)
    requires TrieOk(trie) && t < |trie| && r !in trie[t] && TrieOk(WithKey(trie, t, r))
    ensures TableOf(WithKey(trie, t, r), w) == TableOf(trie, w)
    decreases |w|
  {
    hide TrieOk;
    if w != [] {
      KeyKeepsTables(trie, t, r, w[..|w| - 1]);
    }
  }

  lemma {:induction false} ChildKeepsTables(trie: Trie, t: nat, r: nat, w: seq<nat>)
    requires TrieOk(trie) && t < |trie| && r in trie[t] && trie[t][r].child == -1 && TrieOk(WithChild(trie, t, r))
    ensures var u := TableOf(WithChild(trie, t, r), w);
            u == TableOf(trie, w) || (TableOf(trie, w) == -1 && u == |trie|)
    decreases |w|
  {
    hide TrieOk;
    if w != [] {
      ChildKeepsTables(trie, t, r, w[..|w| - 1]);
    }
  }

  lemma {:induction false} WordKeepsTables(trie: Trie, t: nat, r: nat, w: seq<nat>)
    requires TrieOk(trie) && t < |trie| && r in trie[t] && TrieOk(WithWord(trie, t, r))
    ensures TableOf(WithWord(trie, t, r), w) == TableOf(trie, w)
    decreases |w|
  {
    hide TrieOk;
    if w != [] {
      WordKeepsTables(trie, t, r, w[..|w| - 1]);
    }
  }

  /** Adding a rune or a table below one changes no word. */
  lemma KeyKeepsWords(trie: Trie, t: nat, r: nat)
    requires TrieOk(trie) && t < |trie| && r !in trie[t]
    ensures TrieOk(WithKey(trie, t, r)) && forall w :: Accepts(WithKey(trie, t, r), w) <==> Accepts(trie, w)
    ensures forall w :: TableOf(WithKey(trie, t, r), w) == TableOf(trie, w)
  {
    KeyKeepsTrie(trie, t, r);
    hide TrieOk, TableOf;
    forall w ensures TableOf(WithKey(trie, t, r), w) == TableOf(trie, w) {
      KeyKeepsTables(trie, t, r, w);
    }
    forall w ensures Accepts(WithKey(trie, t, r), w) <==> Accepts(trie, w) {
      if w != [] {
        KeyKeepsTables(trie, t, r, w[..|w| - 1]);
      }
    }
  }

  lemma ChildKeepsWords(trie: Trie, t: nat, r: nat)
    requires TrieOk(trie) && t < |trie| && r in trie[t] && trie[t][r].child == -1
    ensures TrieOk(WithChild(trie, t, r)) && forall w :: Accepts(WithChild(trie, t, r), w) <==> Accepts(trie, w)
  {
    ChildKeepsTrie(trie, t, r);
    hide TrieOk, TableOf;
    forall w ensures Accepts(WithChild(trie, t, r), w) <==> Accepts(trie, w) {
      if w != [] {
        ChildKeepsTables(trie, t, r, w[..|w| - 1]);
      }
    }
  }

  /** Reading on: where `w + [r]` leads. */
  lemma ReadOn(trie: Trie, w: seq<nat>, r: nat)
    requires TrieOk(trie)
    ensures (w + [r])[..|w|] == w
    ensures var t := TableOf(trie, w);
            if t >= 0 && r in trie[t]
            then TableOf(trie, w + [r]) == trie[t][r].child && (Accepts(trie, w + [r]) <==> trie[t][r].terminal)
            else TableOf(trie, w + [r]) == -1 && !Accepts(trie, w + [r])
  {
    assert (w + [r])[..|w|] == w;
  }

  /** A new table hangs below the node that `w + [r]` leads to. */
  lemma ChildLeads(trie: Trie, t: nat, r: nat, w: seq<nat>)
    requires TrieOk(trie) && t < |trie| && r in trie[t] && trie[t][r].child == -1 && TableOf(trie, w) == t
    ensures TrieOk(WithChild(trie, t, r)) && TableOf(WithChild(trie, t, r), w + [r]) == |trie|
  {
    ChildKeepsTrie(trie, t, r);
    ChildKeepsTables(trie, t, r, w);
    ReadOn(WithChild(trie, t, r), w, r);
  }

  lemma ChildInRange(trie: Trie, t: nat, r: nat)
    requires TrieOk(trie) && t < |trie| && r in trie[t]
    ensures trie[t][r].child == -1 || 0 <= trie[t][r].child < |trie|
  {
    assert EntryOk(trie, t, r);
  }

  lemma RootIsFirst(trie: Trie)
    requires TrieOk(trie)
    ensures |trie| > 0 && TableOf(trie, []) == 0
  {
  }

  /** A table nothing points to yet. */
  lemma SpareTable(trie: Trie)
    requires TrieOk(trie)
    ensures TrieOk(trie + [map[]])
  {
    var after := trie + [map[]];
    forall u: nat, q: nat ensures EntryOk(after, u, q) {
      assert EntryOk(trie, u, q);
    }
    forall u: nat, q: nat, u1: nat, q1: nat | SameChild(after, u, q, u1, q1) ensures u == u1 && q == q1 {
      assert SameChild(trie, u, q, u1, q1);
    }
  }

  lemma WordAddsOnly(trie: Trie, t: nat, r: nat, w: seq<nat>, v: seq<nat>)
    requires TrieOk(trie) && t < |trie| && r in trie[t] && TableOf(trie, w) == t && TrieOk(WithWord(trie, t, r))
    ensures Accepts(WithWord(trie, t, r), v) <==> Accepts(trie, v) || v == w + [r]
  {
    if v != [] {
      var front, last := v[..|v| - 1], v[|v| - 1];
      WordKeepsTables(trie, t, r, front);
      if TableOf(trie, front) == t {
        OneWord(trie, front, w);
      }
      hide TrieOk, TableOf;
      assert v == front + [last];
      assert v == w + [r] <==> front == w && last == r;
    }
  }

  /** Ending a word at the node that `w` leads to adds exactly `w`. */
  lemma WordAddsWord(trie: Trie, t: nat, r: nat, w: seq<nat>)
    requires TrieOk(trie) && t < |trie| && r in trie[t] && TableOf(trie, w) == t
    ensures TrieOk(WithWord(trie, t, r))
    ensures forall v :: Accepts(WithWord(trie, t, r), v) <==> Accepts(trie, v) || v == w + [r]
  {
    WordKeepsTrie(trie, t, r);
    forall v ensures Accepts(WithWord(trie, t, r), v) <==> Accepts(trie, v) || v == w + [r] {
      WordAddsOnly(trie, t, r, w, v);
    }
  }

  /** Once reading leaves the trie it does not come back. */
  lemma {:induction false} LeftForGood(trie: Trie, w: seq<nat>, v: seq<nat>)
    requires TrieOk(trie) && TableOf(trie, w) < 0 && v != []
    ensures TableOf(trie, w + v) < 0 && !Accepts(trie, w + v)
    decreases |v|
  {
    hide TrieOk;
    var n := |v| - 1;
    assert (w + v)[..|w + v| - 1] == w + v[..n];
    if n == 0 {
      assert w + v[..n] == w;
    } else {
      LeftForGood(trie, w, v[..n]);
    }
  }

  // ---------------------------------------------------------------- the naive filter

  const STAR: nat := 42

  /** Whether `w` stands in `text` at `i`. */
  predicate StandsAt(text: seq<nat>, i: nat, w: seq<nat>) {
    i + |w| <= |text| && text[i..i + |w|] == w
  }

  /** The length of the longest word of the list that stands at `i`, or 0. */
  function Longest(words: seq<seq<nat>>, text: seq<nat>, i: nat): nat {
    if words == [] then 0
    else
      var n := |words| - 1;
      var best := Longest(words[..n], text, i);
      if StandsAt(text, i, words[n]) && |words[n]| > best then |words[n]| else best
  }

  function Stars(n: nat): (s: seq<nat>)
    ensures |s| == n && forall k | 0 <= k < n :: s[k] == STAR
  {
    seq(n, i => STAR)
  }

  lemma {:induction false} LongestFits(words: seq<seq<nat>>, text: seq<nat>, i: nat)
    requires i <= |text|
    ensures i + Longest(words, text, i) <= |text|
    ensures var n := Longest(words, text, i);
            (n > 0 ==> text[i..i + n] in words) && forall w | w in words && StandsAt(text, i, w) :: |w| <= n
  {
    if words != [] {
      LongestFits(words[..|words| - 1], text, i);
      assert words == words[..|words| - 1] + [words[|words| - 1]];
    }
  }

  /** Masking from `i` on: the longest word at each place is starred out whole, left to right. */
  function Masked(words: seq<seq<nat>>, text: seq<nat>, i: nat): (masked: seq<nat>)
    requires i <= |text|
    ensures |masked| == |text| - i
    decreases |text| - i
  {
    if i == |text| then []
    else
      var n := Longest(words, text, i);
      LongestFits(words, text, i);
      if n > 0 then Stars(n) + Masked(words, text, i + n) else [text[i]] + Masked(words, text, i + 1)
  }

  ghost predicate IsHit(words: seq<seq<nat>>, text: seq<nat>, start: nat, end: nat)
    requires start <= end <= |text|
  {
    text[start..end] in words && forall w | w in words && StandsAt(text, start, w) :: |w| <= end - start
  }

  /** The stretches from `starts[k]` to `ends[k]` follow one another, and each holds a word of the list, the longest
      that stands at its start. */
  ghost predicate Hits(words: seq<seq<nat>>, text: seq<nat>, i: nat, starts: seq<nat>, ends: seq<nat>) {
    && |starts| == |ends|
    && (forall k | 0 <= k < |starts| :: i <= starts[k] < ends[k] <= |text| && IsHit(words, text, starts[k], ends[k]))
    && (forall k, m | 0 <= k < m < |starts| :: ends[k] <= starts[m])
  }

  ghost predicate Covered(starts: seq<nat>, ends: seq<nat>, p: nat)
    requires |starts| == |ends|
  {
    exists k | 0 <= k < |starts| :: starts[k] <= p < ends[k]
  }

  ghost predicate NoneStarts(words: seq<seq<nat>>, text: seq<nat>, p: nat) {
    forall w | w in words && StandsAt(text, p, w) :: w == []
  }

  /** What is written at `p`: a star inside a hit, otherwise what was there, and then no word starts there. */
  ghost predicate WrittenAt(words: seq<seq<nat>>, text: seq<nat>, i: nat, starts: seq<nat>, ends: seq<nat>, p: nat)
    requires i <= p < |text| && |starts| == |ends|
  {
    if Covered(starts, ends, p) then Masked(words, text, i)[p - i] == 42
    else Masked(words, text, i)[p - i] == text[p] && NoneStarts(words, text, p)
  }

  lemma CoveredFrom(starts: seq<nat>, ends: seq<nat>, s: seq<nat>, e: seq<nat>, i: nat, n: nat, p: nat)
    requires |s| == |e| && i <= p
    requires starts == (if n > 0 then [i] + s else s) && ends == if n > 0 then [i + n] + e else e
    ensures Covered(starts, ends, p) <==> Covered(s, e, p) || p < i + n
  {
    if n > 0 {
      if k :| 0 <= k < |s| && s[k] <= p < e[k] {
        assert starts[k + 1] == s[k] && ends[k + 1] == e[k];
      }
      assert starts[0] == i && ends[0] == i + n;
    }
  }

  lemma NothingStarts(words: seq<seq<nat>>, text: seq<nat>, p: nat)
    requires p <= |text| && Longest(words, text, p) == 0
    ensures NoneStarts(words, text, p)
  {
    LongestFits(words, text, p);
  }

  ghost predicate AllWritten(words: seq<seq<nat>>, text: seq<nat>, i: nat, starts: seq<nat>, ends: seq<nat>)
    requires i <= |text|
  {
    |starts| == |ends| && forall p | i <= p < |text| :: WrittenAt(words, text, i, starts, ends, p)
  }

  /** A hit in front. */
  lemma WrittenHit(words: seq<seq<nat>>, text: seq<nat>, i: nat, n: nat, s: seq<nat>, e: seq<nat>)
    requires i < |text| && n == Longest(words, text, i) && n > 0 && i + n <= |text|
    requires AllWritten(words, text, i + n, s, e)
    ensures AllWritten(words, text, i, [i] + s, [i + n] + e)
  {
    hide Longest, NoneStarts, Covered;
    assert Masked(words, text, i) == Stars(n) + Masked(words, text, i + n);
    hide Masked;
    var starts, ends := [i] + s, [i + n] + e;
    forall p | i <= p < |text| ensures WrittenAt(words, text, i, starts, ends, p) {
      CoveredFrom(starts, ends, s, e, i, n, p);
      if p >= i + n {
        assert WrittenAt(words, text, i + n, s, e, p);
      }
    }
  }

  lemma HitsStart(words: seq<seq<nat>>, text: seq<nat>, i: nat, s: seq<nat>, e: seq<nat>)
    requires Hits(words, text, i, s, e)
    ensures |s| == |e| && forall k | 0 <= k < |s| :: i <= s[k]
  {
    hide IsHit;
  }

  /** A place where nothing starts. */
  lemma WrittenMiss(words: seq<seq<nat>>, text: seq<nat>, i: nat, s: seq<nat>, e: seq<nat>)
    requires i < |text| && Longest(words, text, i) == 0 && Hits(words, text, i + 1, s, e)
    requires AllWritten(words, text, i + 1, s, e)
    ensures AllWritten(words, text, i, s, e)
  {
    NothingStarts(words, text, i);
    HitsStart(words, text, i + 1, s, e);
    hide Longest, NoneStarts, Hits;
    assert Masked(words, text, i) == [text[i]] + Masked(words, text, i + 1);
    hide Masked;
    forall p | i <= p < |text| ensures WrittenAt(words, text, i, s, e, p) {
      if p > i {
        assert WrittenAt(words, text, i + 1, s, e, p);
      }
    }
  }

  lemma HitsFrom(words: seq<seq<nat>>, text: seq<nat>, i: nat, n: nat, s: seq<nat>, e: seq<nat>)
    requires 0 < n && i + n <= |text| && IsHit(words, text, i, i + n) && Hits(words, text, i + n, s, e)
    ensures Hits(words, text, i, [i] + s, [i + n] + e)
  {
    hide IsHit;
    var starts, ends := [i] + s, [i + n] + e;
    forall k | 0 <= k < |starts| ensures i <= starts[k] < ends[k] <= |text| && IsHit(words, text, starts[k], ends[k]) {
      if k > 0 {
        assert starts[k] == s[k - 1] && ends[k] == e[k - 1];
      }
    }
  }

  lemma HitsLater(words: seq<seq<nat>>, text: seq<nat>, i: nat, s: seq<nat>, e: seq<nat>)
    requires Hits(words, text, i + 1, s, e)
    ensures Hits(words, text, i, s, e)
  {
    hide IsHit;
  }

  lemma LongestIsHit(words: seq<seq<nat>>, text: seq<nat>, i: nat)
    requires i < |text|
    ensures var n := Longest(words, text, i); i + n <= |text| && (n > 0 ==> IsHit(words, text, i, i + n))
  {
    LongestFits(words, text, i);
  }

  /** What masking comes to: the longest words, one behind the other, are starred out; everything else is as it was,
      and there no word of the list starts. */
  lemma {:induction false} MaskedMeans(words: seq<seq<nat>>, text: seq<nat>, i: nat)
    returns (starts: seq<nat>, ends: seq<nat>)
    requires i <= |text|
    ensures Hits(words, text, i, starts, ends) && AllWritten(words, text, i, starts, ends)
    decreases |text| - i
  {
    if i == |text| {
      starts, ends := [], [];
    } else {
      var n := Longest(words, text, i);
      LongestIsHit(words, text, i);
      hide *;
      var s, e := MaskedMeans(words, text, if n > 0 then i + n else i + 1);
      if n > 0 {
        starts, ends := [i] + s, [i + n] + e;
        WrittenHit(words, text, i, n, s, e);
        HitsFrom(words, text, i, n, s, e);
      } else {
        starts, ends := s, e;
        WrittenMiss(words, text, i, s, e);
        HitsLater(words, text, i, s, e);
      }
    }
  }

  /** Some word of the list stands somewhere in the text. */
  ghost predicate Found(words: seq<seq<nat>>, text: seq<nat>) {
    exists w, i: nat :: w in words && w != [] && StandsAt(text, i, w)
  }

  ghost predicate FoundBefore(words: seq<seq<nat>>, text: seq<nat>, i: nat) {
    exists k: nat | k < i :: Longest(words, text, k) > 0
  }

  /** The next place to look at comes after the whole match; what it skips cannot be the first match. */
  lemma FoundStep(words: seq<seq<nat>>, text: seq<nat>, i: nat)
    requires i < |text|
    ensures var n := Longest(words, text, i);
            if n > 0 then FoundBefore(words, text, i + n)
            else FoundBefore(words, text, i + 1) <==> FoundBefore(words, text, i)
  {
  }

  lemma FoundAll(words: seq<seq<nat>>, text: seq<nat>)
    ensures FoundBefore(words, text, |text|) <==> Found(words, text)
  {
    hide Longest;
    if FoundBefore(words, text, |text|) {
      var k: nat :| k < |text| && Longest(words, text, k) > 0;
      LongestFits(words, text, k);
      assert StandsAt(text, k, text[k..k + Longest(words, text, k)]);
    }
    if Found(words, text) {
      var w, i: nat :| w in words && w != [] && StandsAt(text, i, w);
      LongestFits(words, text, i);
      assert i < |text| && Longest(words, text, i) > 0;
    }
  }

  /** Only the text from `i` on matters for what stands at `i`. */
  lemma {:induction false} SameFromHere(words: seq<seq<nat>>, a: seq<nat>, b: seq<nat>, i: nat)
    requires i <= |a| == |b| && a[i..] == b[i..]
    ensures Longest(words, a, i) == Longest(words, b, i)
  {
    if words != [] {
      var w := words[|words| - 1];
      SameFromHere(words[..|words| - 1], a, b, i);
      if i + |w| <= |a| {
        assert a[i..i + |w|] == a[i..][..|w|] == b[i..][..|w|] == b[i..i + |w|];
      }
    }
  }

  lemma MaskedStep(words: seq<seq<nat>>, text: seq<nat>, i: nat)
    requires i <= |text|
    ensures i + Longest(words, text, i) <= |text|
    ensures Masked(words, text, i) ==
            if i == |text| then []
            else if Longest(words, text, i) > 0
            then Stars(Longest(words, text, i)) + Masked(words, text, i + Longest(words, text, i))
            else [text[i]] + Masked(words, text, i + 1)
  {
    LongestFits(words, text, i);
  }

  /** The trie accepts exactly the words of the list. */
  ghost predicate Knows(trie: Trie, words: seq<seq<nat>>)
    requires TrieOk(trie)
  {
    forall w :: Accepts(trie, w) <==> w in words && w != []
  }

  ghost predicate AcceptsAt(trie: Trie, text: seq<nat>, i: nat, n: nat)
    requires TrieOk(trie)
  {
    i + n <= |text| && Accepts(trie, text[i..i + n])
  }

  /** No word of more than `lo` and at most `hi` runes stands at `i`. */
  ghost predicate NoneBetween(trie: Trie, text: seq<nat>, i: nat, lo: nat, hi: nat)
    requires TrieOk(trie)
  {
    forall n: nat | lo < n <= hi :: !AcceptsAt(trie, text, i, n)
  }

  lemma NoneNext(trie: Trie, text: seq<nat>, i: nat, lo: nat, hi: nat)
    requires TrieOk(trie) && NoneBetween(trie, text, i, lo, hi) && lo <= hi && i + hi < |text|
    ensures if AcceptsAt(trie, text, i, hi + 1) then NoneBetween(trie, text, i, hi + 1, hi + 1)
            else NoneBetween(trie, text, i, lo, hi + 1)
  {
  }

  lemma NoneBeyond(trie: Trie, text: seq<nat>, i: nat, lo: nat, hi: nat)
    requires TrieOk(trie) && NoneBetween(trie, text, i, lo, hi) && i + hi == |text|
    ensures forall n: nat | n > lo :: !AcceptsAt(trie, text, i, n)
  {
  }

  /** Where reading has left the trie, no longer word stands either. */
  lemma StuckFor(trie: Trie, text: seq<nat>, i: nat, lo: nat, hi: nat)
    requires TrieOk(trie) && NoneBetween(trie, text, i, lo, hi) && i + hi <= |text|
             && TableOf(trie, text[i..i + hi]) < 0
    ensures forall n: nat | n > lo :: !AcceptsAt(trie, text, i, n)
  {
    hide TrieOk, Accepts, TableOf;
    forall n: nat | n > lo ensures !AcceptsAt(trie, text, i, n) {
      if n > hi && i + n <= |text| {
        assert text[i..i + n] == text[i..i + hi] + text[i + hi..i + n];
        LeftForGood(trie, text[i..i + hi], text[i + hi..i + n]);
      }
    }
  }

  /** The length a walk through the trie finds is the longest word's. */
  lemma WalkIsLongest(trie: Trie, words: seq<seq<nat>>, text: seq<nat>, i: nat, step: nat)
    requires TrieOk(trie) && Knows(trie, words) && i < |text|
    requires step > 0 ==> AcceptsAt(trie, text, i, step)
    requires forall n: nat | n > step :: !AcceptsAt(trie, text, i, n)
    ensures step == Longest(words, text, i)
  {
    hide TrieOk, Accepts, Longest;
    LongestFits(words, text, i);
    var n := Longest(words, text, i);
    assert n > 0 ==> AcceptsAt(trie, text, i, n);
    if step > 0 {
      assert StandsAt(text, i, text[i..i + step]);
    }
  }
}
