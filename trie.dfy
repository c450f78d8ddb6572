/**
  * The dictionary prefix tree, kept as an arena of nodes: node n has the
  * child map `children[n]` (one edge per lower-case character) and the
  * flag `isWord[n]`; node 0 is the root.  `Descend` is the child lookup the
  * searches use for pruning.
  *
  * The ghost state names what each node means: `Label[n]` is the text on
  * the edges from the root to n, `Node` maps each such text back to its
  * node, and `Words` is the set of words inserted so far.
  */
module Trie {
  import opened Wrappers

  /** Every child edge points at a node of the arena. */
  predicate ArenaOk(children: seq<map<char, nat>>, isWord: seq<bool>)
  {
    && |children| == |isWord| >= 1
    && forall n, ch :: 0 <= n < |children| && ch in children[n] ==> children[n][ch] < |children|
  }

  /** Follow the edges for the characters of `s` from `node`, one at a
      time; `None` as soon as a character has no edge. */
  function Descend(children: seq<map<char, nat>>, node: nat, s: string): (r: Option<nat>)
    requires node < |children|
    requires forall n, ch :: 0 <= n < |children| && ch in children[n] ==> children[n][ch] < |children|
    ensures r.Some? ==> r.value < |children|
    decreases |s|
  {
    if s == [] then Some(node)
    else if s[0] in children[node] then Descend(children, children[node][s[0]], s[1..])
    else None
  }

  /** The character loop of `dfs`: walk down from `node` one edge per
      character of `s`, giving up at the first missing edge. */
  method Walk(children: seq<map<char, nat>>, node: nat, s: string) returns (r: Option<nat>)
    requires node < |children|
    requires forall n, ch :: 0 <= n < |children| && ch in children[n] ==> children[n][ch] < |children|
    ensures r == Descend(children, node, s)
  {
    var n: nat := node;
    var k := 0;
    while k < |s|
      invariant 0 <= k <= |s| && n < |children|
      invariant Descend(children, node, s) == Descend(children, n, s[k..])
    {
      if s[k] !in children[n] {
        return None;
      }
      assert s[k..][1..] == s[k + 1..];
      n := children[n][s[k]];
      k := k + 1;
    }
    return Some(n);
  }

  /** Node n spells `spelt[n]` and `node` is the inverse of `spelt`. */
  ghost predicate Labelled(spelt: seq<string>, node: map<string, nat>)
  {
    && (forall n :: 0 <= n < |spelt| ==> spelt[n] in node && node[spelt[n]] == n)
    && (forall s :: s in node ==> node[s] < |spelt| && spelt[node[s]] == s)
  }

  /** The spelt texts are closed under dropping the last character. */
  ghost predicate PrefixClosed(node: map<string, nat>)
  {
    forall s, ch :: s + [ch] in node ==> s in node
  }

  /** An edge exists exactly where the longer text is spelt, and leads to
      the node spelling it. */
  ghost predicate EdgesSpell(children: seq<map<char, nat>>, spelt: seq<string>, node: map<string, nat>)
    requires |spelt| == |children|
  {
    && (forall n, ch :: 0 <= n < |children| ==> (ch in children[n] <==> spelt[n] + [ch] in node))
    && (forall n, ch :: 0 <= n < |children| && ch in children[n] ==> children[n][ch] == node[spelt[n] + [ch]])
  }

  /** A node is a word exactly when its text was inserted, and every
      prefix of an inserted word has a node. */
  ghost predicate MarksWords(isWord: seq<bool>, spelt: seq<string>, node: map<string, nat>, words: set<string>)
    requires |spelt| == |isWord|
  {
    && (forall n :: 0 <= n < |isWord| ==> (isWord[n] <==> spelt[n] in words))
    && (forall w, k :: w in words && 0 <= k <= |w| ==> w[..k] in node)
  }

  /** The meaning of the arena; node 0, the root, spells the empty text. */
  ghost predicate Inv(children: seq<map<char, nat>>, isWord: seq<bool>, spelt: seq<string>,
                      node: map<string, nat>, words: set<string>)
  {
    && ArenaOk(children, isWord)
    && |spelt| == |children|
    && spelt[0] == []
    && Labelled(spelt, node)
    && PrefixClosed(node)
    && EdgesSpell(children, spelt, node)
    && MarksWords(isWord, spelt, node, words)
  }

  lemma AppendOneInjective(a: string, b: string, c: char, d: char)
    ensures a + [c] == b + [d] ==> a == b && c == d
  {
    if a + [c] == b + [d] {
      assert a == (a + [c])[..|a|];
      assert c == (a + [c])[|a|];
    }
  }

  /** Every prefix of a spelt text is spelt. */
  lemma {:induction false} PrefixSpelt(node: map<string, nat>, s: string, k: nat)
    requires PrefixClosed(node)
    requires s in node && k <= |s|
    ensures s[..k] in node
    decreases |s| - k
  {
    if k < |s| {
      assert s == s[..|s| - 1] + [s[|s| - 1]];
      PrefixSpelt(node, s[..|s| - 1], k);
      assert s[..|s| - 1][..k] == s[..k];
    } else {
      assert s[..k] == s;
    }
  }

  /** Following the edge for `ch` from node n reaches the node spelling
      one character more. */
  lemma ChildSpells(children: seq<map<char, nat>>, isWord: seq<bool>, spelt: seq<string>,
                    node: map<string, nat>, words: set<string>, n: nat, ch: char)
    requires Inv(children, isWord, spelt, node, words) && n < |children| && ch in children[n]
    ensures children[n][ch] < |children| && spelt[children[n][ch]] == spelt[n] + [ch]
    ensures spelt[n] + [ch] in node
  {
  }

  /** A text with an unspelt prefix is itself unspelt. */
  lemma PrefixUnspelt(node: map<string, nat>, s: string, k: nat)
    requires PrefixClosed(node) && k <= |s| && s[..k] !in node
    ensures s !in node
  {
    if s in node {
      PrefixSpelt(node, s, k);
    }
  }

  /** Descending from node n by `s` succeeds exactly when spelt(n) + s is
      spelt by a node, and then reaches that node. */
  lemma {:induction false} DescendSpells(children: seq<map<char, nat>>, isWord: seq<bool>, spelt: seq<string>,
                                         node: map<string, nat>, words: set<string>, n: nat, s: string)
    requires Inv(children, isWord, spelt, node, words) && n < |children|
    ensures Descend(children, n, s).Some? <==> spelt[n] + s in node
    ensures Descend(children, n, s).Some? ==> spelt[Descend(children, n, s).value] == spelt[n] + s
    decreases |s|
  {
    if s == [] {
      assert spelt[n] + s == spelt[n];
    } else if s[0] in children[n] {
      var c := children[n][s[0]];
      ChildSpells(children, isWord, spelt, node, words, n, s[0]);
      DescendSpells(children, isWord, spelt, node, words, c, s[1..]);
      assert spelt[c] + s[1..] == spelt[n] + s;
    } else {
      assert (spelt[n] + s)[..|spelt[n]| + 1] == spelt[n] + [s[0]];
      PrefixUnspelt(node, spelt[n] + s, |spelt[n]| + 1);
    }
  }

  /** A word was inserted exactly when descending by it from the root ends
      on a node marked as a word. */
  lemma WordIsMarked(children: seq<map<char, nat>>, isWord: seq<bool>, spelt: seq<string>,
                     node: map<string, nat>, words: set<string>, w: string)
    requires Inv(children, isWord, spelt, node, words)
    ensures w in words <==> Descend(children, 0, w).Some? && isWord[Descend(children, 0, w).value]
  {
    DescendSpells(children, isWord, spelt, node, words, 0, w);
    assert spelt[0] + w == w;
    if w in words {
      assert w[..|w|] == w;
    }
  }

  /** Pruning is safe: a descent fails only when no inserted word starts
      with the text it stands for. */
  lemma PruneOnlyDeadPrefixes(children: seq<map<char, nat>>, isWord: seq<bool>, spelt: seq<string>,
                              node: map<string, nat>, words: set<string>, n: nat, s: string)
    requires Inv(children, isWord, spelt, node, words) && n < |children|
    ensures Descend(children, n, s).None? ==> forall w :: w in words ==> !(spelt[n] + s <= w)
  {
    DescendSpells(children, isWord, spelt, node, words, n, s);
    var t := spelt[n] + s;
    forall w | w in words && t <= w ensures t in node {
      assert w[..|t|] == t;
    }
  }

  /** The arena with a fresh empty node added as child `ch` of node n. */
  function Grow(children: seq<map<char, nat>>, n: nat, ch: char): seq<map<char, nat>>
    requires n < |children|
  {
    var edges: map<char, nat> := children[n][ch := |children|];
    children[n := edges] + [map[]]
  }

  /** Adding a node for the text `spelt[n] + [ch]`, which has none yet,
      as `node.children[ch] = new TrieNode()` does, keeps the meaning. */
  lemma AddChildKeepsInv(children: seq<map<char, nat>>, isWord: seq<bool>, spelt: seq<string>,
                         node: map<string, nat>, words: set<string>, n: nat, ch: char)
    requires Inv(children, isWord, spelt, node, words) && n < |children| && ch !in children[n]
    ensures var s := spelt[n] + [ch];
            Inv(Grow(children, n, ch), isWord + [false], spelt + [s], node[s := |children|], words)
  {
    var s := spelt[n] + [ch];
    AddChildLabels(spelt, node, n, ch);
    AddChildPrefixClosed(spelt, node, n, ch);
    AddChildEdges(children, isWord, spelt, node, words, n, ch);
    AddChildMarks(isWord, spelt, node, words, n, ch);
  }

  lemma AddChildLabels(spelt: seq<string>, node: map<string, nat>, n: nat, ch: char)
    requires Labelled(spelt, node) && n < |spelt| && spelt[n] + [ch] !in node
    ensures Labelled(spelt + [spelt[n] + [ch]], node[spelt[n] + [ch] := |spelt|])
  {
    var s := spelt[n] + [ch];
    forall i | 0 <= i < |spelt| ensures spelt[i] != s {
      assert spelt[i] in node;
    }
  }

  lemma AddChildPrefixClosed(spelt: seq<string>, node: map<string, nat>, n: nat, ch: char)
    requires PrefixClosed(node) && n < |spelt| && spelt[n] in node
    ensures PrefixClosed(node[spelt[n] + [ch] := |spelt|])
  {
    var s := spelt[n] + [ch];
    forall t, c | t + [c] in node[s := |spelt|] ensures t in node[s := |spelt|] {
      AppendOneInjective(t, spelt[n], c, ch);
    }
  }

  lemma AddChildMarks(isWord: seq<bool>, spelt: seq<string>, node: map<string, nat>, words: set<string>,
                      n: nat, ch: char)
    requires |spelt| == |isWord| && MarksWords(isWord, spelt, node, words)
    requires n < |spelt| && spelt[n] + [ch] !in node
    ensures MarksWords(isWord + [false], spelt + [spelt[n] + [ch]], node[spelt[n] + [ch] := |spelt|], words)
  {
    var s := spelt[n] + [ch];
    forall w | w in words ensures w != s {
      assert w[..|w|] == w;
    }
  }

  /** Marking node n as a word, as `node.isWord = true` does, adds its
      text to the inserted words and keeps the meaning. */
  lemma MarkKeepsInv(children: seq<map<char, nat>>, isWord: seq<bool>, spelt: seq<string>,
                     node: map<string, nat>, words: set<string>, n: nat)
    requires Inv(children, isWord, spelt, node, words) && n < |children|
    ensures Inv(children, isWord[n := true], spelt, node, words + {spelt[n]})
  {
    var w := spelt[n];
    forall i | 0 <= i < |isWord| ensures isWord[n := true][i] <==> spelt[i] in words + {w} {
      if spelt[i] == w {
        assert node[spelt[i]] == i && node[spelt[n]] == n;
      }
    }
    forall k | 0 <= k <= |w| ensures w[..k] in node {
      PrefixSpelt(node, w, k);
    }
  }

  /** The edge part of `AddChildKeepsInv`. */
  lemma AddChildEdges(children: seq<map<char, nat>>, isWord: seq<bool>, spelt: seq<string>,
                      node: map<string, nat>, words: set<string>, n: nat, ch: char)
    requires Inv(children, isWord, spelt, node, words) && n < |children| && ch !in children[n]
    ensures var s := spelt[n] + [ch];
            EdgesSpell(Grow(children, n, ch), spelt + [s], node[s := |children|])
  {
    var m := |children|;
    var s := spelt[n] + [ch];
    var children' := Grow(children, n, ch);
    var spelt' := spelt + [s];
    var node' := node[s := m];
    assert s !in node;
    forall i, c | 0 <= i < |children'|
      ensures c in children'[i] <==> spelt'[i] + [c] in node'
      ensures c in children'[i] ==> children'[i][c] == node'[spelt'[i] + [c]]
    {
      if i == m {
        assert spelt'[i] == s && children'[i] == map[];
        assert (s + [c])[..|s|] == s && s + [c] != s;
        PrefixUnspelt(node, s + [c], |s|);
      } else {
        assert spelt'[i] == spelt[i];
        if i == n {
          assert children'[i] == children[n][ch := m];
        } else {
          assert children'[i] == children[i];
        }
        AppendOneInjective(spelt[i], spelt[n], c, ch);
        assert spelt[i] == spelt[n] ==> i == n by {
          assert node[spelt[i]] == i && node[spelt[n]] == n;
        }
      }
    }
  }

  /** One `trieRoot` of the source: an arena that only grows. */
  class Trie {
    var children: seq<map<char, nat>>
    var isWord: seq<bool>
    ghost var Label: seq<string>
    ghost var Node: map<string, nat>
    ghost var Words: set<string>

    ghost predicate Valid()
      reads this
    {
      && |Label| == |children| == |isWord|
      && Inv(children, isWord, Label, Node, Words)
    }

    /** `new TrieNode()` for the root. */
    constructor ()
      ensures Valid() && Words == {}
    {
      children, isWord := [map[]], [false];
      Label, Node, Words := [[]], map[[] := 0], {};
    }

    /** Add a node for `Label[node] + [ch]`, which has none yet. */
    method AddChild(node: nat, ch: char) returns (m: nat)
      requires Valid() && node < |children| && ch !in children[node]
      modifies this
      ensures Valid() && Words == old(Words)
      ensures m == old(|children|) && |children| == m + 1
      ensures ch in children[node] && children[node][ch] == m && Label[m] == Label[node] + [ch]
      ensures Node == old(Node)[Label[node] + [ch] := m]
      ensures forall n :: 0 <= n < old(|children|) ==> Label[n] == old(Label[n])
    {
      m := |children|;
      AddChildKeepsInv(children, isWord, Label, Node, Words, node, ch);
      var s := Label[node] + [ch];
      children := Grow(children, node, ch);
      isWord := isWord + [false];
      Label := Label + [s];
      Node := Node[s := m];
    }

    /** The insertion loop of `loadWordList` for one (already lower-cased)
        word: walk or create the edge for each character, then mark the
        last node. */
    method Insert(word: string)
      requires Valid()
      modifies this
      ensures Valid() && Words == old(Words) + {word}
    {
      var node: nat := 0;
      var i := 0;
      while i < |word|
        invariant 0 <= i <= |word|
        invariant Valid() && Words == old(Words)
        invariant node < |children| && Label[node] == word[..i]
      {
        var ch := word[i];
        if ch !in children[node] {
          var m := AddChild(node, ch);
        }
        ChildSpells(children, isWord, Label, Node, Words, node, ch);
        assert Label[node] + [ch] == word[..i + 1];
        node := children[node][ch];
        i := i + 1;
      }
      assert word[..|word|] == word;
      MarkKeepsInv(children, isWord, Label, Node, Words, node);
      isWord := isWord[node := true];
      Words := Words + {word};
    }
  }
}
