/**
  * The word solver: loading the word list into the prefix tree, the
  * depth-first enumeration of every dictionary word on a board
  * (`solveGrid` / `dfs`), and the search for every path that spells one
  * given word (`findWordPaths` / `findPaths`).
  *
  * Each search is specified by a pair of functions that mirror it: `...From`
  * is one call standing on a cell, `...Nbrs` the loop over that cell's
  * neighbour list, folded from the back so that a loop invariant can speak
  * of the neighbours handled so far.  The functions take the tiles already
  * case-mapped, as the searches map each tile they stand on.
  */
module WordSolver {
  import opened Wrappers
  import opened Text
  import opened Board
  import Grid
  import opened Trie

  // ---------------------------------------------------------------------
  // Loading the word list

  /** The list's lines trimmed and lower-cased, in order. */
  function Normalised(lines: seq<string>): (words: seq<string>)
    ensures |words| == |lines| && forall i :: 0 <= i < |lines| ==> words[i] == Lower(Trim(lines[i]))
  {
    seq(|lines|, i requires 0 <= i < |lines| => Lower(Trim(lines[i])))
  }

  /** The words the insertion loop of `loadWordList` keeps: those with
      three or more characters. */
  function LongWords(words: seq<string>): (r: set<string>)
    ensures forall w :: w in r ==> |w| >= 3
  {
    if words == [] then {}
    else
      var w := words[|words| - 1];
      LongWords(words[..|words| - 1]) + (if |w| >= 3 then {w} else {})
  }

  /** A word is kept exactly when it has three or more characters and
      occurs in the list. */
  lemma {:induction false} LongWordsMembers(words: seq<string>, w: string)
    ensures w in LongWords(words) <==> |w| >= 3 && w in words
  {
    if words != [] {
      var init := words[..|words| - 1];
      LongWordsMembers(init, w);
      assert words == init + [words[|words| - 1]];
    }
  }

  /** One more line of the list: the insertion loop's step. */
  lemma LongWordsSnoc(words: seq<string>, i: nat)
    requires i < |words|
    ensures LongWords(words[..i + 1]) == LongWords(words[..i]) + (if |words[i]| >= 3 then {words[i]} else {})
  {
    assert words[..i + 1][..i] == words[..i];
  }

  /** Every indexed word is lower case and has three or more characters. */
  lemma IndexedWordsShape(lines: seq<string>, w: string)
    requires w in LongWords(Normalised(lines))
    ensures |w| >= 3 && IsLowerCase(w)
  {
    LongWordsMembers(Normalised(lines), w);
    var i :| 0 <= i < |lines| && Normalised(lines)[i] == w;
    LowerIsLowerCase(Trim(lines[i]));
  }

  // ---------------------------------------------------------------------
  // Enumerating the words on a board: the specification of `dfs`

  /** What one call of `dfs` standing on `idx` adds to `found`: nothing
      when the trie has no edge for the tile's text, otherwise the word so
      far (if it is long enough and marks a word) and what the calls on the
      unvisited neighbours add, with `idx` marked. */
  function SolveFrom(adj: seq<seq<nat>>, tiles: seq<string>, children: seq<map<char, nat>>, isWord: seq<bool>,
                     visited: seq<bool>, idx: nat, node: nat, cur: string, minLen: int): set<string>
    requires AdjOk(adj) && |tiles| == |adj| && |visited| == |adj| && ArenaOk(children, isWord)
    requires idx < |adj| && !visited[idx] && node < |children|
    decreases Unvisited(visited), 0
  {
    match Descend(children, node, tiles[idx])
    case None => {}
    case Some(n) =>
      var word := cur + tiles[idx];
      MarkShrinks(visited, idx);
      (if |word| >= minLen && isWord[n] then {word} else {})
        + SolveNbrs(adj, tiles, children, isWord, visited[idx := true], adj[idx], n, word, minLen)
  }

  /** What the loop over the neighbour list `nbrs` adds. */
  function SolveNbrs(adj: seq<seq<nat>>, tiles: seq<string>, children: seq<map<char, nat>>, isWord: seq<bool>,
                     visited: seq<bool>, nbrs: seq<nat>, node: nat, cur: string, minLen: int): set<string>
    requires AdjOk(adj) && |tiles| == |adj| && |visited| == |adj| && ArenaOk(children, isWord)
    requires (forall k :: 0 <= k < |nbrs| ==> nbrs[k] < |adj|) && node < |children|
    decreases Unvisited(visited), 1, |nbrs|
  {
    if nbrs == [] then {}
    else
      var last := nbrs[|nbrs| - 1];
      SolveNbrs(adj, tiles, children, isWord, visited, nbrs[..|nbrs| - 1], node, cur, minLen)
        + (if visited[last] then {} else SolveFrom(adj, tiles, children, isWord, visited, last, node, cur, minLen))
  }

  /** One more neighbour: the step of the loop in `dfs`. */
  lemma SolveNbrsSnoc(adj: seq<seq<nat>>, tiles: seq<string>, children: seq<map<char, nat>>, isWord: seq<bool>,
                      visited: seq<bool>, nbrs: seq<nat>, i: nat, node: nat, cur: string, minLen: int)
    requires AdjOk(adj) && |tiles| == |adj| && |visited| == |adj| && ArenaOk(children, isWord)
    requires (forall k :: 0 <= k < |nbrs| ==> nbrs[k] < |adj|) && node < |children| && i < |nbrs|
    ensures SolveNbrs(adj, tiles, children, isWord, visited, nbrs[..i + 1], node, cur, minLen) ==
            SolveNbrs(adj, tiles, children, isWord, visited, nbrs[..i], node, cur, minLen)
              + (if visited[nbrs[i]] then {} else SolveFrom(adj, tiles, children, isWord, visited, nbrs[i], node, cur, minLen))
  {
    assert nbrs[..i + 1][..i] == nbrs[..i];
  }

  /** What the calls on the starting cells `0 .. k-1`, each with a fresh
      visited buffer, add. */
  function SolveStarts(adj: seq<seq<nat>>, tiles: seq<string>, children: seq<map<char, nat>>, isWord: seq<bool>,
                       k: nat, minLen: int): set<string>
    requires AdjOk(adj) && |tiles| == |adj| && ArenaOk(children, isWord) && k <= |adj|
  {
    if k == 0 then {}
    else SolveStarts(adj, tiles, children, isWord, k - 1, minLen)
           + SolveFrom(adj, tiles, children, isWord, Fresh(|adj|), k - 1, 0, "", minLen)
  }

  /** A word comes out of the neighbour loop exactly when it comes out of
      the call on one of the unvisited neighbours. */
  lemma {:induction false} SolveNbrsMembers(adj: seq<seq<nat>>, tiles: seq<string>, children: seq<map<char, nat>>,
                                            isWord: seq<bool>, visited: seq<bool>, nbrs: seq<nat>, node: nat,
                                            cur: string, minLen: int, w: string)
    requires AdjOk(adj) && |tiles| == |adj| && |visited| == |adj| && ArenaOk(children, isWord)
    requires (forall k :: 0 <= k < |nbrs| ==> nbrs[k] < |adj|) && node < |children|
    ensures w in SolveNbrs(adj, tiles, children, isWord, visited, nbrs, node, cur, minLen) <==>
            exists k :: 0 <= k < |nbrs| && !visited[nbrs[k]] &&
                        w in SolveFrom(adj, tiles, children, isWord, visited, nbrs[k], node, cur, minLen)
    decreases |nbrs|
  {
    if nbrs != [] {
      var m := |nbrs| - 1;
      var init := nbrs[..m];
      SolveNbrsMembers(adj, tiles, children, isWord, visited, init, node, cur, minLen, w);
      if w in SolveNbrs(adj, tiles, children, isWord, visited, init, node, cur, minLen) {
        var k :| 0 <= k < |init| && !visited[init[k]] &&
                 w in SolveFrom(adj, tiles, children, isWord, visited, init[k], node, cur, minLen);
        assert nbrs[k] == init[k];
      }
      if exists k :: 0 <= k < |nbrs| && !visited[nbrs[k]] &&
                     w in SolveFrom(adj, tiles, children, isWord, visited, nbrs[k], node, cur, minLen) {
        var k :| 0 <= k < |nbrs| && !visited[nbrs[k]] &&
                 w in SolveFrom(adj, tiles, children, isWord, visited, nbrs[k], node, cur, minLen);
        if k < m {
          assert init[k] == nbrs[k];
        }
      }
    }
  }

  /** Soundness of one call: every word it adds is a dictionary word of
      the minimum length, spelt by the word so far followed by a simple
      path that starts at `idx` and avoids the visited cells. */
  lemma {:induction false} SolveFromSound(adj: seq<seq<nat>>, tiles: seq<string>, children: seq<map<char, nat>>,
                                          isWord: seq<bool>, spelt: seq<string>, nodeOf: map<string, nat>,
                                          words: set<string>, visited: seq<bool>, idx: nat, node: nat,
                                          cur: string, minLen: int, w: string)
    requires AdjOk(adj) && |tiles| == |adj| && |visited| == |adj| && Inv(children, isWord, spelt, nodeOf, words)
    requires idx < |adj| && !visited[idx] && node < |children| && spelt[node] == cur
    requires w in SolveFrom(adj, tiles, children, isWord, visited, idx, node, cur, minLen)
    ensures w in words && |w| >= minLen
    ensures exists ext :: Extension(adj, visited, idx, ext) && w == cur + Spell(tiles, ext)
    decreases Unvisited(visited)
  {
    DescendSpells(children, isWord, spelt, nodeOf, words, node, tiles[idx]);
    var n := Descend(children, node, tiles[idx]).value;
    var word := cur + tiles[idx];
    var v := visited[idx := true];
    if w == word && |word| >= minLen && isWord[n] {
      assert Extension(adj, visited, idx, [idx]);
      assert Spell(tiles, [idx]) == tiles[idx] + Spell(tiles, []);
    } else {
      SolveNbrsMembers(adj, tiles, children, isWord, v, adj[idx], n, word, minLen, w);
      var k :| 0 <= k < |adj[idx]| && !v[adj[idx][k]] &&
               w in SolveFrom(adj, tiles, children, isWord, v, adj[idx][k], n, word, minLen);
      var j := adj[idx][k];
      MarkShrinks(visited, idx);
      SolveFromSound(adj, tiles, children, isWord, spelt, nodeOf, words, v, j, n, word, minLen, w);
      var rest :| Extension(adj, v, j, rest) && w == word + Spell(tiles, rest);
      ExtensionCons(adj, visited, idx, rest);
      SpellCons(tiles, idx, rest);
      ConcatAssoc(cur, tiles[idx], Spell(tiles, rest));
      assert Extension(adj, visited, idx, [idx] + rest);
      assert w == cur + Spell(tiles, [idx] + rest);
    }
  }

  /** A prefix of a dictionary word has a node. */
  lemma WordPrefixSpelt(children: seq<map<char, nat>>, isWord: seq<bool>, spelt: seq<string>,
                        nodeOf: map<string, nat>, words: set<string>, w: string, u: string)
    requires Inv(children, isWord, spelt, nodeOf, words) && w in words && u <= w
    ensures u in nodeOf
  {
    assert w[..|u|] == u;
  }

  /** Completeness of one call: the pruning never loses a word.  Every
      dictionary word of the minimum length that the word so far followed
      by a simple path from `idx` spells is added. */
  lemma {:induction false} SolveFromComplete(adj: seq<seq<nat>>, tiles: seq<string>, children: seq<map<char, nat>>,
                                             isWord: seq<bool>, spelt: seq<string>, nodeOf: map<string, nat>,
                                             words: set<string>, visited: seq<bool>, idx: nat, node: nat,
                                             cur: string, minLen: int, ext: Path)
    requires AdjOk(adj) && |tiles| == |adj| && |visited| == |adj| && Inv(children, isWord, spelt, nodeOf, words)
    requires idx < |adj| && node < |children| && spelt[node] == cur
    requires Extension(adj, visited, idx, ext)
    requires cur + Spell(tiles, ext) in words && |cur + Spell(tiles, ext)| >= minLen
    ensures cur + Spell(tiles, ext) in SolveFrom(adj, tiles, children, isWord, visited, idx, node, cur, minLen)
    decreases |ext|
  {
    var w := cur + Spell(tiles, ext);
    var word := cur + tiles[idx];
    var rest := ext[1..];
    assert ext == [idx] + rest;
    SpellCons(tiles, idx, rest);
    assert w == word + Spell(tiles, rest);
    WordPrefixSpelt(children, isWord, spelt, nodeOf, words, w, word);
    DescendSpells(children, isWord, spelt, nodeOf, words, node, tiles[idx]);
    var n := Descend(children, node, tiles[idx]).value;
    if |ext| == 1 {
      assert rest == [] && w == word;
    } else {
      ExtensionTail(adj, visited, idx, ext);
      var v := visited[idx := true];
      SolveFromComplete(adj, tiles, children, isWord, spelt, nodeOf, words, v, ext[1], n, word, minLen, rest);
      var k :| 0 <= k < |adj[idx]| && adj[idx][k] == ext[1];
      SolveNbrsMembers(adj, tiles, children, isWord, v, adj[idx], n, word, minLen, w);
    }
  }

  lemma {:induction false} SolveStartsMembers(adj: seq<seq<nat>>, tiles: seq<string>, children: seq<map<char, nat>>,
                                              isWord: seq<bool>, k: nat, minLen: int, w: string)
    requires AdjOk(adj) && |tiles| == |adj| && ArenaOk(children, isWord) && k <= |adj|
    ensures w in SolveStarts(adj, tiles, children, isWord, k, minLen) <==>
            exists s :: 0 <= s < k && w in SolveFrom(adj, tiles, children, isWord, Fresh(|adj|), s, 0, "", minLen)
  {
    if k > 0 {
      SolveStartsMembers(adj, tiles, children, isWord, k - 1, minLen, w);
      assert SolveStarts(adj, tiles, children, isWord, k, minLen) == SolveStarts(adj, tiles, children, isWord, k - 1, minLen)
             + SolveFrom(adj, tiles, children, isWord, Fresh(|adj|), k - 1, 0, "", minLen);
      if w in SolveStarts(adj, tiles, children, isWord, k, minLen) {
        if w in SolveStarts(adj, tiles, children, isWord, k - 1, minLen) {
          var s :| 0 <= s < k - 1 && w in SolveFrom(adj, tiles, children, isWord, Fresh(|adj|), s, 0, "", minLen);
          assert 0 <= s < k && w in SolveFrom(adj, tiles, children, isWord, Fresh(|adj|), s, 0, "", minLen);
        } else {
          assert w in SolveFrom(adj, tiles, children, isWord, Fresh(|adj|), k - 1, 0, "", minLen);
        }
      }
      if exists s :: 0 <= s < k && w in SolveFrom(adj, tiles, children, isWord, Fresh(|adj|), s, 0, "", minLen) {
        var s :| 0 <= s < k && w in SolveFrom(adj, tiles, children, isWord, Fresh(|adj|), s, 0, "", minLen);
        if s < k - 1 {
          assert 0 <= s < k - 1 && w in SolveFrom(adj, tiles, children, isWord, Fresh(|adj|), s, 0, "", minLen);
        }
      }
    }
  }

  /** The whole enumeration: a string is found exactly when it is a
      dictionary word of the minimum length that some simple path on the
      board spells. */
  lemma SolveStartsSpec(adj: seq<seq<nat>>, tiles: seq<string>, children: seq<map<char, nat>>, isWord: seq<bool>,
                        spelt: seq<string>, nodeOf: map<string, nat>, words: set<string>, minLen: int, w: string)
    requires AdjOk(adj) && |tiles| == |adj| && Inv(children, isWord, spelt, nodeOf, words)
    ensures w in SolveStarts(adj, tiles, children, isWord, |adj|, minLen) <==>
            w in words && |w| >= minLen && Traceable(adj, tiles, w)
  {
    var none := Fresh(|adj|);
    SolveStartsMembers(adj, tiles, children, isWord, |adj|, minLen, w);
    if w in SolveStarts(adj, tiles, children, isWord, |adj|, minLen) {
      var s :| 0 <= s < |adj| && w in SolveFrom(adj, tiles, children, isWord, none, s, 0, "", minLen);
      SolveFromSound(adj, tiles, children, isWord, spelt, nodeOf, words, none, s, 0, "", minLen, w);
      var ext :| Extension(adj, none, s, ext) && w == "" + Spell(tiles, ext);
      assert "" + Spell(tiles, ext) == Spell(tiles, ext);
      assert OnBoard(tiles, ext);
    }
    if w in words && |w| >= minLen && Traceable(adj, tiles, w) {
      var p :| p != [] && IsTrail(adj, p) && OnBoard(tiles, p) && Spell(tiles, p) == w;
      assert Extension(adj, none, p[0], p);
      assert "" + Spell(tiles, p) == w;
      SolveFromComplete(adj, tiles, children, isWord, spelt, nodeOf, words, none, p[0], 0, "", minLen, p);
    }
  }

  /** Raising the minimum word length only removes words. */
  lemma SolveMinLenMonotone(adj: seq<seq<nat>>, tiles: seq<string>, children: seq<map<char, nat>>,
                            isWord: seq<bool>, spelt: seq<string>, nodeOf: map<string, nat>, words: set<string>,
                            lo: int, hi: int)
    requires AdjOk(adj) && |tiles| == |adj| && Inv(children, isWord, spelt, nodeOf, words) && lo <= hi
    ensures SolveStarts(adj, tiles, children, isWord, |adj|, hi) <= SolveStarts(adj, tiles, children, isWord, |adj|, lo)
  {
    forall w | w in SolveStarts(adj, tiles, children, isWord, |adj|, hi)
      ensures w in SolveStarts(adj, tiles, children, isWord, |adj|, lo)
    {
      SolveStartsSpec(adj, tiles, children, isWord, spelt, nodeOf, words, hi, w);
      SolveStartsSpec(adj, tiles, children, isWord, spelt, nodeOf, words, lo, w);
    }
  }

  /** `dfs`: the trie walk for the tile's text, then the mark, the word
      check, the calls on the unvisited neighbours and the unmark. */
  method Dfs(idx: nat, visited: array<bool>, node: nat, cur: string, tiles: seq<string>, adj: seq<seq<nat>>,
             children: seq<map<char, nat>>, isWord: seq<bool>, minLen: int, found: set<string>)
    returns (found': set<string>)
    requires AdjOk(adj) && |tiles| == |adj| && visited.Length == |adj| && ArenaOk(children, isWord)
    requires idx < |adj| && !visited[idx] && node < |children|
    modifies visited
    ensures visited[..] == old(visited[..])
    ensures found' == found + SolveFrom(adj, Lowered(tiles), children, isWord, old(visited[..]), idx, node, cur, minLen)
    decreases Unvisited(visited[..]), 0
  {
    ghost var lowered := Lowered(tiles);
    ghost var before := visited[..];
    var letter := Lower(tiles[idx]);
    var step := Walk(children, node, letter);
    if step.None? {
      return found;
    }
    var n := step.value;
    visited[idx] := true;
    var word := cur + letter;
    found' := found;
    if |word| >= minLen && isWord[n] {
      found' := found' + {word};
    }
    ghost var here := found';
    ghost var marked := visited[..];
    assert marked == before[idx := true];
    MarkShrinks(before, idx);
    var nbrs := adj[idx];
    assert forall k :: 0 <= k < |nbrs| ==> nbrs[k] < |adj|;
    var i := 0;
    while i < |nbrs|
      invariant 0 <= i <= |nbrs|
      invariant visited[..] == marked
      invariant found' == here + SolveNbrs(adj, lowered, children, isWord, marked, nbrs[..i], n, word, minLen)
    {
      var next := nbrs[i];
      SolveNbrsSnoc(adj, lowered, children, isWord, marked, nbrs, i, n, word, minLen);
      if !visited[next] {
        ghost var sofar := SolveNbrs(adj, lowered, children, isWord, marked, nbrs[..i], n, word, minLen);
        found' := Dfs(next, visited, n, word, tiles, adj, children, isWord, minLen, found');
        UnionAssoc(here, sofar, SolveFrom(adj, lowered, children, isWord, marked, next, n, word, minLen));
      } else {
        assert marked[next];
      }
      i := i + 1;
    }
    assert nbrs[..i] == nbrs;
    visited[idx] := false;
    assert visited[..] == before;
  }

  // ---------------------------------------------------------------------
  // The paths that spell one word: the specification of `findPaths`

  /** The completed paths one call of `findPaths` standing on `idx`
      appends: none when the tile's text does not start the rest of the
      word; the path so far plus `idx` when the tile ends the word;
      otherwise what the calls on the unvisited neighbours append. */
  function MatchFrom(adj: seq<seq<nat>>, tiles: seq<string>, visited: seq<bool>, idx: nat,
                     word: string, pos: nat, path: Path): seq<Path>
    requires AdjOk(adj) && |tiles| == |adj| && |visited| == |adj|
    requires idx < |adj| && !visited[idx] && pos <= |word|
    decreases Unvisited(visited), 0
  {
    var letter := tiles[idx];
    if !StartsWith(word[pos..], letter) then []
    else
      var newPos := pos + |letter|;
      if newPos == |word| then [path + [idx]]
      else
        MarkShrinks(visited, idx);
        MatchNbrs(adj, tiles, visited[idx := true], adj[idx], word, newPos, path + [idx])
  }

  function MatchNbrs(adj: seq<seq<nat>>, tiles: seq<string>, visited: seq<bool>, nbrs: seq<nat>,
                     word: string, pos: nat, path: Path): seq<Path>
    requires AdjOk(adj) && |tiles| == |adj| && |visited| == |adj|
    requires (forall k :: 0 <= k < |nbrs| ==> nbrs[k] < |adj|) && pos <= |word|
    decreases Unvisited(visited), 1, |nbrs|
  {
    if nbrs == [] then []
    else
      var last := nbrs[|nbrs| - 1];
      MatchNbrs(adj, tiles, visited, nbrs[..|nbrs| - 1], word, pos, path)
        + (if visited[last] then [] else MatchFrom(adj, tiles, visited, last, word, pos, path))
  }

  /** One more neighbour: the step of the loop in `findPaths`. */
  lemma MatchNbrsSnoc(adj: seq<seq<nat>>, tiles: seq<string>, visited: seq<bool>, nbrs: seq<nat>, i: nat,
                      word: string, pos: nat, path: Path)
    requires AdjOk(adj) && |tiles| == |adj| && |visited| == |adj|
    requires (forall k :: 0 <= k < |nbrs| ==> nbrs[k] < |adj|) && pos <= |word| && i < |nbrs|
    ensures MatchNbrs(adj, tiles, visited, nbrs[..i + 1], word, pos, path) ==
            MatchNbrs(adj, tiles, visited, nbrs[..i], word, pos, path)
              + (if visited[nbrs[i]] then [] else MatchFrom(adj, tiles, visited, nbrs[i], word, pos, path))
  {
    assert nbrs[..i + 1][..i] == nbrs[..i];
  }

  function MatchStarts(adj: seq<seq<nat>>, tiles: seq<string>, k: nat, word: string): seq<Path>
    requires AdjOk(adj) && |tiles| == |adj| && k <= |adj|
  {
    if k == 0 then []
    else MatchStarts(adj, tiles, k - 1, word) + MatchFrom(adj, tiles, Fresh(|adj|), k - 1, word, 0, [])
  }

  lemma {:induction false} MatchNbrsMembers(adj: seq<seq<nat>>, tiles: seq<string>, visited: seq<bool>,
                                            nbrs: seq<nat>, word: string, pos: nat, path: Path, p: Path)
    requires AdjOk(adj) && |tiles| == |adj| && |visited| == |adj|
    requires (forall k :: 0 <= k < |nbrs| ==> nbrs[k] < |adj|) && pos <= |word|
    ensures p in MatchNbrs(adj, tiles, visited, nbrs, word, pos, path) <==>
            exists k :: 0 <= k < |nbrs| && !visited[nbrs[k]] && p in MatchFrom(adj, tiles, visited, nbrs[k], word, pos, path)
    decreases |nbrs|
  {
    if nbrs != [] {
      var m := |nbrs| - 1;
      var init := nbrs[..m];
      var head := MatchNbrs(adj, tiles, visited, init, word, pos, path);
      var tail := if visited[nbrs[m]] then [] else MatchFrom(adj, tiles, visited, nbrs[m], word, pos, path);
      assert MatchNbrs(adj, tiles, visited, nbrs, word, pos, path) == head + tail;
      MatchNbrsMembers(adj, tiles, visited, init, word, pos, path, p);
      if p in head {
        var k :| 0 <= k < |init| && !visited[init[k]] && p in MatchFrom(adj, tiles, visited, init[k], word, pos, path);
        assert nbrs[k] == init[k];
      } else if p in tail {
        assert !visited[nbrs[m]] && p in MatchFrom(adj, tiles, visited, nbrs[m], word, pos, path);
      }
      if exists k :: 0 <= k < |nbrs| && !visited[nbrs[k]] && p in MatchFrom(adj, tiles, visited, nbrs[k], word, pos, path) {
        var k :| 0 <= k < |nbrs| && !visited[nbrs[k]] && p in MatchFrom(adj, tiles, visited, nbrs[k], word, pos, path);
        if k < m {
          assert init[k] == nbrs[k];
          assert p in head;
        } else {
          assert p in tail;
        }
      }
    }
  }

  lemma InSingleton(p: Path, q: Path)
    requires p in [q]
    ensures p == q
  {
  }

  lemma SpellOne(tiles: seq<string>, idx: nat)
    requires idx < |tiles|
    ensures Spell(tiles, [idx]) == tiles[idx]
  {
    assert Spell(tiles, [idx]) == tiles[idx] + Spell(tiles, []);
  }

  /** Soundness: every path a call appends is the path so far followed by
      a simple path `ext` from `idx`, avoiding the visited cells, that
      spells the rest of the word. */
  lemma {:induction false} MatchSound(adj: seq<seq<nat>>, tiles: seq<string>, visited: seq<bool>, idx: nat,
                                      word: string, pos: nat, path: Path, p: Path) returns (ext: Path)
    requires AdjOk(adj) && |tiles| == |adj| && |visited| == |adj|
    requires idx < |adj| && !visited[idx] && pos <= |word|
    requires p in MatchFrom(adj, tiles, visited, idx, word, pos, path)
    ensures p == path + ext && Extension(adj, visited, idx, ext) && Spell(tiles, ext) == word[pos..]
    decreases Unvisited(visited)
  {
    var letter := tiles[idx];
    assert StartsWith(word[pos..], letter);
    var newPos := pos + |letter|;
    assert word[pos..] == letter + word[newPos..];
    if newPos == |word| {
      assert MatchFrom(adj, tiles, visited, idx, word, pos, path) == [path + [idx]];
      InSingleton(p, path + [idx]);
      SpellOne(tiles, idx);
      ext := [idx];
    } else {
      var v := visited[idx := true];
      var next := path + [idx];
      MatchNbrsMembers(adj, tiles, v, adj[idx], word, newPos, next, p);
      var k :| 0 <= k < |adj[idx]| && !v[adj[idx][k]] && p in MatchFrom(adj, tiles, v, adj[idx][k], word, newPos, next);
      var j := adj[idx][k];
      MarkShrinks(visited, idx);
      var rest := MatchSound(adj, tiles, v, j, word, newPos, next, p);
      ExtensionCons(adj, visited, idx, rest);
      SpellCons(tiles, idx, rest);
      ext := [idx] + rest;
      AppendCons(path, idx, rest);
    }
  }

  /** Completeness, for boards whose tiles all hold text: every simple
      path from `idx` avoiding the visited cells that spells the rest of
      the word is appended. */
  lemma {:induction false} MatchComplete(adj: seq<seq<nat>>, tiles: seq<string>, visited: seq<bool>, idx: nat,
                                         word: string, pos: nat, path: Path, ext: Path)
    requires AdjOk(adj) && |tiles| == |adj| && |visited| == |adj| && TilesNonEmpty(tiles)
    requires idx < |adj| && pos <= |word|
    requires Extension(adj, visited, idx, ext) && Spell(tiles, ext) == word[pos..]
    ensures path + ext in MatchFrom(adj, tiles, visited, idx, word, pos, path)
    decreases |ext|
  {
    var letter := tiles[idx];
    var rest := ext[1..];
    assert ext == [idx] + rest;
    SpellCons(tiles, idx, rest);
    var newPos := pos + |letter|;
    assert word[pos..] == letter + Spell(tiles, rest);
    assert word[newPos..] == Spell(tiles, rest);
    assert StartsWith(word[pos..], letter);
    if |ext| == 1 {
      assert rest == [] && newPos == |word|;
      assert MatchFrom(adj, tiles, visited, idx, word, pos, path) == [path + [idx]];
      assert path + ext == path + [idx];
    } else {
      ExtensionTail(adj, visited, idx, ext);
      SpellCons(tiles, ext[1], rest[1..]);
      assert rest == [ext[1]] + rest[1..];
      assert newPos < |word|;
      var v := visited[idx := true];
      MatchComplete(adj, tiles, v, ext[1], word, newPos, path + [idx], rest);
      AppendCons(path, idx, rest);
      var k :| 0 <= k < |adj[idx]| && adj[idx][k] == ext[1];
      MatchNbrsMembers(adj, tiles, v, adj[idx], word, newPos, path + [idx], path + ext);
      assert MatchFrom(adj, tiles, visited, idx, word, pos, path) == MatchNbrs(adj, tiles, v, adj[idx], word, newPos, path + [idx]);
    }
  }

  /** Without any assumption on the tiles, a simple path that spells the
      rest of the word guarantees that the search records some path: it
      may stop early, at the first prefix of the path that already spells
      the whole word, but it records something. */
  lemma {:induction false} MatchReaches(adj: seq<seq<nat>>, tiles: seq<string>, visited: seq<bool>, idx: nat,
                                        word: string, pos: nat, path: Path, ext: Path)
    requires AdjOk(adj) && |tiles| == |adj| && |visited| == |adj|
    requires idx < |adj| && pos <= |word|
    requires Extension(adj, visited, idx, ext) && Spell(tiles, ext) == word[pos..]
    ensures MatchFrom(adj, tiles, visited, idx, word, pos, path) != []
    decreases |ext|
  {
    var rest := ext[1..];
    var newPos := pos + |tiles[idx]|;
    assert StartsWith(word[pos..], tiles[idx]) && newPos <= |word| && word[newPos..] == Spell(tiles, rest) by {
      assert ext == [idx] + rest;
      SpellCons(tiles, idx, rest);
      assert word[pos..] == tiles[idx] + Spell(tiles, rest);
    }
    if newPos == |word| {
      assert path + [idx] in MatchFrom(adj, tiles, visited, idx, word, pos, path);
    } else {
      assert rest != [];
      ExtensionTail(adj, visited, idx, ext);
      var v := visited[idx := true];
      MatchReaches(adj, tiles, v, ext[1], word, newPos, path + [idx], rest);
      var q := MatchFrom(adj, tiles, v, ext[1], word, newPos, path + [idx])[0];
      var k :| 0 <= k < |adj[idx]| && adj[idx][k] == ext[1];
      MatchNbrsMembers(adj, tiles, v, adj[idx], word, newPos, path + [idx], q);
      assert MatchFrom(adj, tiles, visited, idx, word, pos, path) == MatchNbrs(adj, tiles, v, adj[idx], word, newPos, path + [idx]);
    }
  }

  lemma {:induction false} MatchStartsMembers(adj: seq<seq<nat>>, tiles: seq<string>, k: nat, word: string, p: Path)
    requires AdjOk(adj) && |tiles| == |adj| && k <= |adj|
    ensures p in MatchStarts(adj, tiles, k, word) <==>
            exists s :: 0 <= s < k && p in MatchFrom(adj, tiles, Fresh(|adj|), s, word, 0, [])
  {
    if k > 0 {
      MatchStartsMembers(adj, tiles, k - 1, word, p);
      assert MatchStarts(adj, tiles, k, word) == MatchStarts(adj, tiles, k - 1, word)
             + MatchFrom(adj, tiles, Fresh(|adj|), k - 1, word, 0, []);
      if p in MatchStarts(adj, tiles, k, word) {
        if p in MatchStarts(adj, tiles, k - 1, word) {
          var s :| 0 <= s < k - 1 && p in MatchFrom(adj, tiles, Fresh(|adj|), s, word, 0, []);
          assert 0 <= s < k && p in MatchFrom(adj, tiles, Fresh(|adj|), s, word, 0, []);
        } else {
          assert p in MatchFrom(adj, tiles, Fresh(|adj|), k - 1, word, 0, []);
        }
      }
      if exists s :: 0 <= s < k && p in MatchFrom(adj, tiles, Fresh(|adj|), s, word, 0, []) {
        var s :| 0 <= s < k && p in MatchFrom(adj, tiles, Fresh(|adj|), s, word, 0, []);
        if s < k - 1 {
          assert 0 <= s < k - 1 && p in MatchFrom(adj, tiles, Fresh(|adj|), s, word, 0, []);
        }
      }
    }
  }

  /** `findWordPaths`: every path returned is a simple path on the board
      that spells the word; on a board whose tiles all hold text, every
      such path is returned. */
  lemma MatchStartsSpec(adj: seq<seq<nat>>, tiles: seq<string>, word: string, p: Path)
    requires AdjOk(adj) && |tiles| == |adj|
    ensures p in MatchStarts(adj, tiles, |adj|, word) ==>
            p != [] && IsTrail(adj, p) && OnBoard(tiles, p) && Spell(tiles, p) == word
    ensures TilesNonEmpty(tiles) && p != [] && IsTrail(adj, p) && OnBoard(tiles, p) && Spell(tiles, p) == word ==>
            p in MatchStarts(adj, tiles, |adj|, word)
  {
    var none := Fresh(|adj|);
    MatchStartsMembers(adj, tiles, |adj|, word, p);
    if p in MatchStarts(adj, tiles, |adj|, word) {
      var s :| 0 <= s < |adj| && p in MatchFrom(adj, tiles, none, s, word, 0, []);
      var ext := MatchSound(adj, tiles, none, s, word, 0, [], p);
      assert p == ext && word[0..] == word;
    }
    if TilesNonEmpty(tiles) && p != [] && IsTrail(adj, p) && OnBoard(tiles, p) && Spell(tiles, p) == word {
      assert Extension(adj, none, p[0], p);
      assert word[0..] == word && [] + p == p;
      MatchComplete(adj, tiles, none, p[0], word, 0, [], p);
    }
  }

  /** `findWordPaths` returns some path whenever the word can be traced on
      the board, whatever the tiles hold. */
  lemma MatchStartsReach(adj: seq<seq<nat>>, tiles: seq<string>, word: string, p: Path)
    requires AdjOk(adj) && |tiles| == |adj|
    requires p != [] && IsTrail(adj, p) && OnBoard(tiles, p) && Spell(tiles, p) == word
    ensures MatchStarts(adj, tiles, |adj|, word) != []
  {
    var none := Fresh(|adj|);
    assert Extension(adj, none, p[0], p);
    assert word[0..] == word;
    MatchReaches(adj, tiles, none, p[0], word, 0, [], p);
    var q := MatchFrom(adj, tiles, none, p[0], word, 0, [])[0];
    MatchStartsMembers(adj, tiles, |adj|, word, q);
  }

  /** `findPaths`: the prefix test, the mark, the recorded path or the
      calls on the unvisited neighbours, and the unmark.  The shared
      `currentPath` array is passed as a value: its push and pop bracket
      the call, so each call sees it as the path so far. */
  method FindPaths(idx: nat, visited: array<bool>, word: string, pos: nat, tiles: seq<string>, adj: seq<seq<nat>>,
                   path: Path, paths: seq<Path>) returns (paths': seq<Path>)
    requires AdjOk(adj) && |tiles| == |adj| && visited.Length == |adj|
    requires idx < |adj| && !visited[idx] && pos <= |word|
    modifies visited
    ensures visited[..] == old(visited[..])
    ensures paths' == paths + MatchFrom(adj, Lowered(tiles), old(visited[..]), idx, word, pos, path)
    decreases Unvisited(visited[..]), 0
  {
    ghost var lowered := Lowered(tiles);
    ghost var before := visited[..];
    var letter := Lower(tiles[idx]);
    var remaining := word[pos..];
    if !StartsWith(remaining, letter) {
      return paths;
    }
    var newPos := pos + |letter|;
    visited[idx] := true;
    var current := path + [idx];
    if newPos == |word| {
      paths' := paths + [current];
    } else {
      ghost var marked := visited[..];
      assert marked == before[idx := true];
      MarkShrinks(before, idx);
      paths' := paths;
      var nbrs := adj[idx];
      assert forall k :: 0 <= k < |nbrs| ==> nbrs[k] < |adj|;
      var i := 0;
      while i < |nbrs|
        invariant 0 <= i <= |nbrs|
        invariant visited[..] == marked
        invariant paths' == paths + MatchNbrs(adj, lowered, marked, nbrs[..i], word, newPos, current)
      {
        var next := nbrs[i];
        MatchNbrsSnoc(adj, lowered, marked, nbrs, i, word, newPos, current);
        if !visited[next] {
          ghost var sofar := MatchNbrs(adj, lowered, marked, nbrs[..i], word, newPos, current);
          paths' := FindPaths(next, visited, word, newPos, tiles, adj, current, paths');
          ConcatAssoc(paths, sofar, MatchFrom(adj, lowered, marked, next, word, newPos, current));
        }
        i := i + 1;
      }
      assert nbrs[..i] == nbrs;
    }
    visited[idx] := false;
    assert visited[..] == before;
  }

  // ---------------------------------------------------------------------
  // The module's entry points

  datatype SolveError = NotLoaded

  /** The module state: the prefix tree, absent until the list is loaded. */
  class Solver {
    var trie: Trie?
    /** The lines the loaded list was built from. */
    ghost var Lines: seq<string>

    ghost predicate Valid()
      reads this, trie
    {
      trie != null ==> trie.Valid() && trie.Words == LongWords(Normalised(Lines))
    }

    constructor ()
      ensures Valid() && trie == null
    {
      trie := null;
      Lines := [];
    }

    /** `loadWordList`, given the lines of the list (fetching and splitting
        the file is not modelled): a second call does nothing; the first
        builds the trie of the indexed words. */
    method LoadWordList(lines: seq<string>)
      requires Valid()
      modifies this
      ensures Valid() && trie != null
      ensures old(trie) != null ==> trie == old(trie) && Lines == old(Lines)
      ensures old(trie) == null ==> fresh(trie) && Lines == lines
    {
      if trie != null {
        return;
      }
      var words := Normalised(lines);
      var t := new Trie();
      var i := 0;
      while i < |words|
        invariant 0 <= i <= |words|
        invariant fresh(t) && t.Valid() && t.Words == LongWords(words[..i])
        modifies t
      {
        var word := words[i];
        LongWordsSnoc(words, i);
        if |word| >= 3 {
          t.Insert(word);
        }
        i := i + 1;
      }
      assert words[..i] == words;
      trie := t;
      Lines := lines;
    }

    /** `solveGrid` on the flattened board: fails when no list is loaded,
        otherwise every word the enumeration finds from every start. */
    method SolveGrid(tiles: seq<string>, rows: nat, cols: nat, minLen: int, cache: Grid.AdjacencyCache)
      returns (r: Result<set<string>, SolveError>)
      requires Valid() && cache.Valid() && |tiles| == rows * cols
      modifies cache
      ensures cache.Valid()
      ensures trie == null ==> r == Failure(NotLoaded) && cache.entries == old(cache.entries)
      ensures trie != null ==> cache.entries == old(cache.entries)[(rows, cols) := Grid.Adjacency(rows, cols)]
      ensures trie != null ==>
                r == Success(SolveStarts(Grid.Adjacency(rows, cols), Lowered(tiles), trie.children, trie.isWord,
                                         rows * cols, minLen))
    {
      if trie == null {
        return Failure(NotLoaded);
      }
      var children, isWord := trie.children, trie.isWord;
      assert ArenaOk(children, isWord);
      var adj := cache.BuildAdjacency(rows, cols);
      assert AdjOk(adj) && |tiles| == |adj|;
      ghost var lowered := Lowered(tiles);
      var found: set<string> := {};
      var start := 0;
      while start < |tiles|
        invariant 0 <= start <= |tiles|
        invariant found == SolveStarts(adj, lowered, children, isWord, start, minLen)
        modifies {}
      {
        var visited := new bool[|tiles|](_ => false);
        assert visited[..] == Fresh(|adj|);
        assert SolveStarts(adj, lowered, children, isWord, start + 1, minLen) ==
               found + SolveFrom(adj, lowered, children, isWord, Fresh(|adj|), start, 0, "", minLen);
        found := Dfs(start, visited, 0, "", tiles, adj, children, isWord, minLen, found);
        start := start + 1;
      }
      return Success(found);
    }

    /** Every word `solveGrid` returns is an indexed word of the list with
        at least `minLen` (and at least three) characters that a simple
        path on the board spells, case-insensitively; every such word is
        returned. */
    lemma SolveGridSpec(tiles: seq<string>, rows: nat, cols: nat, minLen: int, w: string)
      requires Valid() && trie != null && |tiles| == rows * cols
      ensures w in SolveStarts(Grid.Adjacency(rows, cols), Lowered(tiles), trie.children, trie.isWord, rows * cols, minLen)
              <==> w in LongWords(Normalised(Lines)) && |w| >= minLen && Traceable(Grid.Adjacency(rows, cols), Lowered(tiles), w)
      ensures w in SolveStarts(Grid.Adjacency(rows, cols), Lowered(tiles), trie.children, trie.isWord, rows * cols, minLen)
              ==> |w| >= 3 && IsLowerCase(w)
    {
      SolveStartsSpec(Grid.Adjacency(rows, cols), Lowered(tiles), trie.children, trie.isWord,
                      trie.Label, trie.Node, trie.Words, minLen, w);
      if w in LongWords(Normalised(Lines)) {
        IndexedWordsShape(Lines, w);
      }
    }
  }

  /** `findWordPaths` on the flattened board: every path that spells the
      word, lower-cased, from every start. */
  method FindWordPaths(word: string, tiles: seq<string>, rows: nat, cols: nat, cache: Grid.AdjacencyCache)
    returns (paths: seq<Path>)
    requires cache.Valid() && |tiles| == rows * cols
    modifies cache
    ensures cache.Valid() && cache.entries == old(cache.entries)[(rows, cols) := Grid.Adjacency(rows, cols)]
    ensures paths == MatchStarts(Grid.Adjacency(rows, cols), Lowered(tiles), rows * cols, Lower(word))
  {
    var adj := cache.BuildAdjacency(rows, cols);
    assert AdjOk(adj) && |tiles| == |adj|;
    ghost var lowered := Lowered(tiles);
    var lowerWord := Lower(word);
    paths := [];
    var start := 0;
    while start < |tiles|
      invariant 0 <= start <= |tiles|
      invariant paths == MatchStarts(adj, lowered, start, lowerWord)
      modifies {}
    {
      var visited := new bool[|tiles|](_ => false);
      assert visited[..] == Fresh(|adj|);
      assert MatchStarts(adj, lowered, start + 1, lowerWord) ==
             paths + MatchFrom(adj, lowered, Fresh(|adj|), start, lowerWord, 0, []);
      paths := FindPaths(start, visited, lowerWord, 0, tiles, adj, [], paths);
      start := start + 1;
    }
  }

  /** Every word the solver finds can be highlighted: `findWordPaths`
      returns at least one path for it. */
  lemma FoundWordsHavePaths(adj: seq<seq<nat>>, tiles: seq<string>, children: seq<map<char, nat>>,
                            isWord: seq<bool>, spelt: seq<string>, nodeOf: map<string, nat>, words: set<string>,
                            minLen: int, w: string)
    requires AdjOk(adj) && |tiles| == |adj| && Inv(children, isWord, spelt, nodeOf, words)
    requires forall u :: u in words ==> IsLowerCase(u)
    requires w in SolveStarts(adj, Lowered(tiles), children, isWord, |adj|, minLen)
    ensures MatchStarts(adj, Lowered(tiles), |adj|, Lower(w)) != []
  {
    SolveStartsSpec(adj, Lowered(tiles), children, isWord, spelt, nodeOf, words, minLen, w);
    LowerOfLowerCase(w);
    var p :| p != [] && IsTrail(adj, p) && OnBoard(Lowered(tiles), p) && Spell(Lowered(tiles), p) == w;
    MatchStartsReach(adj, Lowered(tiles), w, p);
  }
}
