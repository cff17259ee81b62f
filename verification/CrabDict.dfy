/** The word filter's dictionary: a trie whose nodes are the hash tables of `CrabTable`.

    The tables are objects changed in place; the ghost field `trie` is what they hold, and `Valid` keeps the
    two together. Inserting a rune may move another node or double the table, which changes nothing in
    the trie. The filter walks the tables, and is shown to mask what the naive scan of the word list
    masks; CrabTrie has the scan, the words a trie accepts, and how insertion changes them. */
module CrabDict {
  import opened CrabTable
  import opened CrabTrie

  lemma TailOfTail<T>(a: seq<T>, b: seq<T>, i: nat, j: nat)
    requires i <= j <= |a| == |b|
    ensures a[j..] == a[i..][j - i..] && b[j..] == b[i..][j - i..]
  {
  }

  /** The masking loop: `n` runes from `i` on become stars. */
  method PutStars(text: array<nat>, i: nat, n: nat)
    requires i + n <= text.Length
    modifies text
    ensures text[..i + n] == old(text[..i]) + Stars(n) && text[i + n..] == old(text[i + n..])
  {
    ghost var front := text[..i];
    var j := 0;
    while j < n
      invariant 0 <= j <= n
      invariant text[..i + j] == front + Stars(j) && text[i + j..] == old(text[i + j..])
    {
      text[i + j] := STAR;
      j := j + 1;
      assert text[..i + j] == front + Stars(j - 1) + [STAR];
      assert Stars(j) == Stars(j - 1) + [STAR];
    }
  }

  class Dict {
    /** Every table made so far; `Entry.child` names one by its place here, and the root is the first. */
    var tables: seq<RuneTable<Entry>>
    ghost var trie: Trie
    ghost var repr: set<object>

    ghost predicate TablesOk()
      reads this, repr
    {
      && |tables| == |trie|
      && (forall t | 0 <= t < |tables| :: tables[t] in repr && tables[t].node in repr)
      && (forall t | 0 <= t < |tables| :: tables[t].Valid() && tables[t].contents == trie[t])
    }

    ghost predicate Apart()
      reads this, repr
    {
      && (forall t | 0 <= t < |tables| :: tables[t] in repr && tables[t].node in repr)
      && (forall t, u | 0 <= t < u < |tables| :: tables[t] != tables[u] && tables[t].node != tables[u].node)
    }

    ghost predicate Valid()
      reads this, repr
    {
      this !in repr && TablesOk() && Apart() && TrieOk(trie)
    }

    constructor ()
      ensures Valid() && fresh(repr) && forall w :: !Accepts(trie, w)
    {
      var root := new RuneTable<Entry>();
      tables := [root];
      trie := [map[]];
      repr := {root, root.node};
      new;
      assert TrieOk(trie) by {
        forall t: nat, r: nat ensures EntryOk(trie, t, r) {
        }
      }
    }

    ghost predicate At(t: nat, i: nat, rune: nat)
      reads this, repr
    {
      && t < |tables| && tables[t] in repr && tables[t].node in repr
      && i < tables[t].node.Length && tables[t].node[i].Slot? && tables[t].node[i].id == rune
      && t < |trie| && rune in trie[t] && tables[t].node[i].obj == trie[t][rune]
    }

    /** `table_insert`: the node of `rune` in table `t`, made if there is none. */
    method TableInsert(t: nat, rune: nat) returns (i: nat)
      requires Valid() && t < |tables|
      modifies this, repr
      ensures Valid() && fresh(repr - old(repr)) && tables == old(tables)
      ensures forall w :: Accepts(trie, w) <==> Accepts(old(trie), w)
      ensures forall w :: TableOf(trie, w) == TableOf(old(trie), w)
      ensures At(t, i, rune)
    {
      hide TrieOk, RuneTable<Entry>.Valid, Accepts, TableOf;
      var k := tables[t].Get(rune);
      if k >= 0 {
        return k;
      }
      KeyKeepsWords(trie, t, rune);
      i := tables[t].NewKey(rune, Entry(false, -1));
      repr := repr + {tables[t].node};
      trie := WithKey(trie, t, rune);
    }

    /** Writes the entry of a node. */
    method SetEntry(t: nat, i: nat, ghost rune: nat, entry: Entry)
      requires Valid() && At(t, i, rune) && TrieOk(WithEntry(trie, t, rune, entry))
      modifies this, repr
      ensures Valid() && repr == old(repr) && tables == old(tables) && trie == WithEntry(old(trie), t, rune, entry)
      ensures At(t, i, rune)
    {
      hide TrieOk, RuneTable<Entry>.Valid;
      tables[t].SetEntry(i, entry);
      trie := WithEntry(trie, t, rune, entry);
    }

    /** The table below a node, made if there is none. */
    method Below(t: nat, i: nat, ghost w: seq<nat>, ghost rune: nat) returns (below: nat)
      requires Valid() && At(t, i, rune) && TableOf(trie, w) == t
      modifies this, repr
      ensures Valid() && fresh(repr - old(repr)) && below < |tables|
      ensures TableOf(trie, w + [rune]) == below
      ensures forall v :: Accepts(trie, v) <==> Accepts(old(trie), v)
    {
      hide TrieOk, Accepts, TableOf, RuneTable<Entry>.Valid;
      var entry := tables[t].node[i].obj;
      ReadOn(trie, w, rune);
      ChildInRange(trie, t, rune);
      if entry.child >= 0 {
        return entry.child;
      }
      ghost var was := trie;
      ChildKeepsWords(was, t, rune);
      ChildLeads(was, t, rune, w);
      SpareTable(was);
      var table := new RuneTable<Entry>();
      below := |tables|;
      tables := tables + [table];
      trie := trie + [map[]];
      repr := repr + {table, table.node};
      assert WithEntry(trie, t, rune, entry.(child := below)) == WithChild(was, t, rune);
      SetEntry(t, i, rune, entry.(child := below));
    }

    lemma AtNode(t: nat, i: nat, rune: nat)
      requires At(t, i, rune)
      ensures t < |tables| && i < tables[t].node.Length && tables[t].node[i].Slot? && t < |trie| && rune in trie[t]
      ensures tables[t].node[i].obj == trie[t][rune]
    {
    }

    /** `_dict_insert` on a list of runes: afterwards the dictionary accepts that word too. */
    method Insert(word: seq<nat>)
      requires Valid()
      modifies this, repr
      ensures Valid() && fresh(repr - old(repr))
      ensures forall w :: Accepts(trie, w) <==> Accepts(old(trie), w) || (w == word && word != [])
    {
      hide TrieOk, Accepts, TableOf, At;
      if word == [] {
        return;
      }
      ghost var was := trie;
      var t: nat, i: nat := 0, 0;
      var n := 0;
      while n < |word|
        invariant 0 <= n <= |word|
        invariant Valid() && fresh(repr - old(repr))
        invariant forall w :: Accepts(trie, w) <==> Accepts(was, w)
        invariant n > 0 ==> TableOf(trie, word[..n - 1]) == t && At(t, i, word[n - 1])
      {
        var rune := word[n];
        if n == 0 {
          RootIsFirst(trie);
          assert word[..0] == [];
          t := 0;
        } else {
          assert word[..n] == word[..n - 1] + [word[n - 1]];
          t := Below(t, i, word[..n - 1], word[n - 1]);
        }
        i := TableInsert(t, rune);
        n := n + 1;
      }
      ghost var w, rune := word[..n - 1], word[n - 1];
      assert word == w + [rune];
      AtNode(t, i, rune);
      WordAddsWord(trie, t, rune, w);
      var entry := tables[t].node[i].obj;
      SetEntry(t, i, rune, entry.(terminal := true));
    }

    /** The inner loop of `dict_filter`: the length of the longest word that stands at `i`, or 0. */
    method Step(words: seq<seq<nat>>, text: array<nat>, i: nat) returns (step: nat)
      requires Valid() && Knows(trie, words) && i < text.Length
      ensures step == Longest(words, text[..], i)
    {
      hide TrieOk, Accepts, TableOf, Knows, Longest, RuneTable<Entry>.Valid;
      ghost var s := text[..];
      step := 0;
      var cur: nat := 0;
      var j := i;
      RootIsFirst(trie);
      assert s[i..i] == [];
      while j < text.Length
        invariant i <= j <= text.Length && cur < |tables| && TableOf(trie, s[i..j]) == cur
        invariant step > 0 ==> AcceptsAt(trie, s, i, step)
        invariant step <= j - i && NoneBetween(trie, s, i, step, j - i)
      {
        var rune := text[j];
        assert s[i..j + 1] == s[i..j] + [rune];
        ReadOn(trie, s[i..j], rune);
        var k := tables[cur].Get(rune);
        NoneNext(trie, s, i, step, j - i);
        if k >= 0 && tables[cur].node[k].obj.terminal {
          step := j - i + 1;
        }
        if k < 0 || tables[cur].node[k].obj.child < 0 {
          StuckFor(trie, s, i, step, j - i + 1);
          WalkIsLongest(trie, words, s, i, step);
          return;
        }
        ChildInRange(trie, cur, rune);
        cur := tables[cur].node[k].obj.child;
        j := j + 1;
      }
      NoneBeyond(trie, s, i, step, j - i);
      WalkIsLongest(trie, words, s, i, step);
    }

    /** `dict_filter`, on a dictionary that knows exactly `words`. */
    method Filter(words: seq<seq<nat>>, text: array<nat>) returns (found: bool)
      requires Valid() && Knows(trie, words) && text !in repr
      modifies text
      ensures text[..] == Masked(words, old(text[..]), 0)
      ensures found <==> Found(words, old(text[..]))
      ensures Valid() && Knows(trie, words)
    {
      hide TrieOk, Accepts, Knows, Longest, Masked, Stars, RuneTable<Entry>.Valid;
      ghost var was := text[..];
      found := false;
      var i := 0;
      while i < text.Length
        invariant 0 <= i <= text.Length && Valid() && Knows(trie, words)
        invariant text[i..] == was[i..]
        invariant Masked(words, was, 0) == text[..i] + Masked(words, was, i)
        invariant found <==> FoundBefore(words, was, i)
      {
        var step := Step(words, text, i);
        SameFromHere(words, was, text[..], i);
        MaskedStep(words, was, i);
        FoundStep(words, was, i);
        ghost var now := text[..i];
        if step > 0 {
          TailOfTail(text[..], was, i, i + step);
          PutStars(text, i, step);
          found := true;
          i := i + step;
        } else {
          i := i + 1;
          assert text[..i] == now + [was[i - 1]];
        }
      }
      MaskedStep(words, was, i);
      assert text[..i] == text[..];
      FoundAll(words, was);
    }

    /** `dict_open`: a dictionary that knows exactly the words of the list. */
    static method Open(words: seq<seq<nat>>) returns (dict: Dict)
      ensures fresh(dict) && dict.Valid() && fresh(dict.repr) && Knows(dict.trie, words)
    {
      hide TrieOk, Accepts;
      dict := new Dict();
      var i := 0;
      while i < |words|
        invariant 0 <= i <= |words| && fresh(dict) && dict.Valid() && fresh(dict.repr)
        invariant Knows(dict.trie, words[..i])
      {
        assert words[..i + 1] == words[..i] + [words[i]];
        dict.Insert(words[i]);
        i := i + 1;
      }
      assert words[..i] == words;
    }
  }
}
