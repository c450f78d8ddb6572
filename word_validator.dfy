/**
  * The live check of what the player has typed: the typed text, upper-cased,
  * is matched literally against the board (a `Qu` tile consumes two typed
  * characters), recording every path that consumes all of it and, where
  * the match stalls, the furthest paths reached.  The status is `Valid`
  * exactly when some path consumes the whole text.
  */
module WordValidator {
  import opened Text
  import opened Board
  import opened WordSolver
  import Grid
  import Trie

  /** The two lists `explorePaths` appends to. */
  datatype Traces = Traces(complete: seq<Path>, partial: seq<Path>)

  const NoTraces := Traces([], [])

  /** Both lists of `a` followed by those of `b`. */
  function Cat(a: Traces, b: Traces): (r: Traces)
    ensures Total(r) == Total(a) + Total(b)
  {
    Traces(a.complete + b.complete, a.partial + b.partial)
  }

  /** The number of paths recorded in both lists. */
  function Total(t: Traces): nat
  {
    |t.complete| + |t.partial|
  }

  // ---------------------------------------------------------------------
  // The specification of `explorePaths`

  /** What one call of `explorePaths` standing on `idx` appends: nothing
      when the tile's text does not start the rest of the typed text; the
      path plus `idx` as a complete path when the tile ends it; otherwise
      what the calls on the unvisited neighbours append, or, when they
      append nothing, the path plus `idx` as a partial path. */
  function ExploreFrom(adj: seq<seq<nat>>, tiles: seq<string>, visited: seq<bool>, idx: nat,
                       typed: string, pos: nat, path: Path): Traces
    requires AdjOk(adj) && |tiles| == |adj| && |visited| == |adj|
    requires idx < |adj| && !visited[idx] && pos <= |typed|
    decreases Unvisited(visited), 0
  {
    var letter := tiles[idx];
    if !StartsWith(typed[pos..], letter) then NoTraces
    else
      var newPos := pos + |letter|;
      if newPos == |typed| then Traces([path + [idx]], [])
      else
        MarkShrinks(visited, idx);
        var t := ExploreNbrs(adj, tiles, visited[idx := true], adj[idx], typed, newPos, path + [idx]);
        if Total(t) == 0 then Traces([], [path + [idx]]) else t
  }

  /** What the loop over the neighbour list `nbrs` appends. */
  function ExploreNbrs(adj: seq<seq<nat>>, tiles: seq<string>, visited: seq<bool>, nbrs: seq<nat>,
                       typed: string, pos: nat, path: Path): Traces
    requires AdjOk(adj) && |tiles| == |adj| && |visited| == |adj|
    requires (forall k :: 0 <= k < |nbrs| ==> nbrs[k] < |adj|) && pos <= |typed|
    decreases Unvisited(visited), 1, |nbrs|
  {
    if nbrs == [] then NoTraces
    else
      var last := nbrs[|nbrs| - 1];
      Cat(ExploreNbrs(adj, tiles, visited, nbrs[..|nbrs| - 1], typed, pos, path),
          if visited[last] then NoTraces else ExploreFrom(adj, tiles, visited, last, typed, pos, path))
  }

  /** What the calls on the starting cells `0 .. k-1` append. */
  function ExploreStarts(adj: seq<seq<nat>>, tiles: seq<string>, k: nat, typed: string): Traces
    requires AdjOk(adj) && |tiles| == |adj| && k <= |adj|
  {
    if k == 0 then NoTraces
    else Cat(ExploreStarts(adj, tiles, k - 1, typed), ExploreFrom(adj, tiles, Fresh(|adj|), k - 1, typed, 0, []))
  }

  lemma ExploreNbrsSnoc(adj: seq<seq<nat>>, tiles: seq<string>, visited: seq<bool>, nbrs: seq<nat>, i: nat,
                        typed: string, pos: nat, path: Path)
    requires AdjOk(adj) && |tiles| == |adj| && |visited| == |adj|
    requires (forall k :: 0 <= k < |nbrs| ==> nbrs[k] < |adj|) && pos <= |typed| && i < |nbrs|
    ensures ExploreNbrs(adj, tiles, visited, nbrs[..i + 1], typed, pos, path) ==
            Cat(ExploreNbrs(adj, tiles, visited, nbrs[..i], typed, pos, path),
                if visited[nbrs[i]] then NoTraces else ExploreFrom(adj, tiles, visited, nbrs[i], typed, pos, path))
  {
    assert nbrs[..i + 1][..i] == nbrs[..i];
  }

  lemma CatAssoc(a: Traces, b: Traces, c: Traces)
    ensures Cat(Cat(a, b), c) == Cat(a, Cat(b, c))
  {
    assert a.complete + b.complete + c.complete == a.complete + (b.complete + c.complete);
    assert a.partial + b.partial + c.partial == a.partial + (b.partial + c.partial);
  }

  lemma CatNone(a: Traces)
    ensures Cat(a, NoTraces) == a
  {
    assert a.complete + [] == a.complete && a.partial + [] == a.partial;
  }

  /** `explorePaths`: the prefix test, the mark, the complete path or the
      calls on the unvisited neighbours (noting whether any of them
      recorded something) and the partial path, and the unmark.  The path
      so far is passed by value. */
  method ExplorePaths(idx: nat, visited: array<bool>, typed: string, pos: nat, tiles: seq<string>,
                      adj: seq<seq<nat>>, path: Path, traces: Traces) returns (traces': Traces)
    requires AdjOk(adj) && |tiles| == |adj| && visited.Length == |adj|
    requires idx < |adj| && !visited[idx] && pos <= |typed|
    modifies visited
    ensures visited[..] == old(visited[..])
    ensures traces' == Cat(traces, ExploreFrom(adj, Uppered(tiles), old(visited[..]), idx, typed, pos, path))
    decreases Unvisited(visited[..]), 0
  {
    ghost var uppered := Uppered(tiles);
    ghost var before := visited[..];
    var cellLetter := Upper(tiles[idx]);
    var remaining := typed[pos..];
    assert cellLetter == uppered[idx];
    if !StartsWith(remaining, cellLetter) {
      CatNone(traces);
      return traces;
    }
    var newPos := pos + |cellLetter|;
    visited[idx] := true;
    var current := path + [idx];
    if newPos == |typed| {
      traces' := Traces(traces.complete + [current], traces.partial);
      assert traces.partial + [] == traces.partial;
    } else {
      ghost var marked := visited[..];
      assert marked == before[idx := true];
      MarkShrinks(before, idx);
      traces' := traces;
      var extended := false;
      var nbrs := adj[idx];
      var i := 0;
      while i < |nbrs|
        invariant 0 <= i <= |nbrs|
        invariant visited[..] == marked
        invariant traces' == Cat(traces, ExploreNbrs(adj, uppered, marked, nbrs[..i], typed, newPos, current))
        invariant extended <==> Total(ExploreNbrs(adj, uppered, marked, nbrs[..i], typed, newPos, current)) > 0
      {
        var next := nbrs[i];
        ExploreNbrsSnoc(adj, uppered, marked, nbrs, i, typed, newPos, current);
        ghost var sofar := ExploreNbrs(adj, uppered, marked, nbrs[..i], typed, newPos, current);
        if !visited[next] {
          var count := Total(traces');
          ghost var prev := traces';
          traces' := ExplorePaths(next, visited, typed, newPos, tiles, adj, current, traces');
          ghost var here := ExploreFrom(adj, uppered, marked, next, typed, newPos, current);
          assert traces' == Cat(prev, here);
          CatAssoc(traces, sofar, here);
          if Total(traces') > count {
            extended := true;
          }
        } else {
          assert marked[next];
          CatNone(sofar);
        }
        i := i + 1;
      }
      assert nbrs[..i] == nbrs;
      ghost var t := ExploreNbrs(adj, uppered, marked, nbrs, typed, newPos, current);
      if !extended {
        traces' := Traces(traces'.complete, traces'.partial + [current]);
        assert t == NoTraces;
      }
      assert ExploreFrom(adj, uppered, before, idx, typed, pos, path) ==
             if Total(t) == 0 then Traces([], [current]) else t;
    }
    visited[idx] := false;
    assert visited[..] == before;
  }

  // ---------------------------------------------------------------------
  // What the exploration records

  /** The complete paths are exactly the paths `findPaths` finds for the
      same text: the validator and the highlighter agree. */
  lemma {:induction false} ExploreFromComplete(adj: seq<seq<nat>>, tiles: seq<string>, visited: seq<bool>, idx: nat,
                                               typed: string, pos: nat, path: Path)
    requires AdjOk(adj) && |tiles| == |adj| && |visited| == |adj|
    requires idx < |adj| && !visited[idx] && pos <= |typed|
    ensures ExploreFrom(adj, tiles, visited, idx, typed, pos, path).complete ==
            MatchFrom(adj, tiles, visited, idx, typed, pos, path)
    decreases Unvisited(visited), 0
  {
    var letter := tiles[idx];
    if StartsWith(typed[pos..], letter) && pos + |letter| != |typed| {
      MarkShrinks(visited, idx);
      ExploreNbrsComplete(adj, tiles, visited[idx := true], adj[idx], typed, pos + |letter|, path + [idx]);
    }
  }

  lemma {:induction false} ExploreNbrsComplete(adj: seq<seq<nat>>, tiles: seq<string>, visited: seq<bool>,
                                               nbrs: seq<nat>, typed: string, pos: nat, path: Path)
    requires AdjOk(adj) && |tiles| == |adj| && |visited| == |adj|
    requires (forall k :: 0 <= k < |nbrs| ==> nbrs[k] < |adj|) && pos <= |typed|
    ensures ExploreNbrs(adj, tiles, visited, nbrs, typed, pos, path).complete ==
            MatchNbrs(adj, tiles, visited, nbrs, typed, pos, path)
    decreases Unvisited(visited), 1, |nbrs|
  {
    if nbrs != [] {
      var last := nbrs[|nbrs| - 1];
      ExploreNbrsComplete(adj, tiles, visited, nbrs[..|nbrs| - 1], typed, pos, path);
      if !visited[last] {
        ExploreFromComplete(adj, tiles, visited, last, typed, pos, path);
      }
    }
  }

  lemma {:induction false} ExploreStartsComplete(adj: seq<seq<nat>>, tiles: seq<string>, k: nat, typed: string)
    requires AdjOk(adj) && |tiles| == |adj| && k <= |adj|
    ensures ExploreStarts(adj, tiles, k, typed).complete == MatchStarts(adj, tiles, k, typed)
  {
    if k > 0 {
      ExploreStartsComplete(adj, tiles, k - 1, typed);
      ExploreFromComplete(adj, tiles, Fresh(|adj|), k - 1, typed, 0, []);
    }
  }

  /** A call records something exactly when its tile's text starts the
      rest of the typed text: the `extended` flag of the caller is true
      exactly when some unvisited neighbour matches. */
  lemma ExploreFromRecords(adj: seq<seq<nat>>, tiles: seq<string>, visited: seq<bool>, idx: nat,
                           typed: string, pos: nat, path: Path)
    requires AdjOk(adj) && |tiles| == |adj| && |visited| == |adj|
    requires idx < |adj| && !visited[idx] && pos <= |typed|
    ensures Total(ExploreFrom(adj, tiles, visited, idx, typed, pos, path)) > 0 <==> StartsWith(typed[pos..], tiles[idx])
  {
  }

  lemma {:induction false} ExploreNbrsRecords(adj: seq<seq<nat>>, tiles: seq<string>, visited: seq<bool>,
                                              nbrs: seq<nat>, typed: string, pos: nat, path: Path)
    requires AdjOk(adj) && |tiles| == |adj| && |visited| == |adj|
    requires (forall k :: 0 <= k < |nbrs| ==> nbrs[k] < |adj|) && pos <= |typed|
    ensures Total(ExploreNbrs(adj, tiles, visited, nbrs, typed, pos, path)) > 0 <==>
            exists k :: 0 <= k < |nbrs| && !visited[nbrs[k]] && StartsWith(typed[pos..], tiles[nbrs[k]])
  {
    if nbrs != [] {
      var init, last := nbrs[..|nbrs| - 1], nbrs[|nbrs| - 1];
      ExploreNbrsRecords(adj, tiles, visited, init, typed, pos, path);
      if !visited[last] {
        ExploreFromRecords(adj, tiles, visited, last, typed, pos, path);
      }
      if exists k :: 0 <= k < |nbrs| && !visited[nbrs[k]] && StartsWith(typed[pos..], tiles[nbrs[k]]) {
        var k :| 0 <= k < |nbrs| && !visited[nbrs[k]] && StartsWith(typed[pos..], tiles[nbrs[k]]);
        if k < |nbrs| - 1 {
          assert init[k] == nbrs[k];
        }
      }
      if exists k :: 0 <= k < |init| && !visited[init[k]] && StartsWith(typed[pos..], tiles[init[k]]) {
        var k :| 0 <= k < |init| && !visited[init[k]] && StartsWith(typed[pos..], tiles[init[k]]);
        assert nbrs[k] == init[k];
      }
    }
  }

  /** No unvisited neighbour of the last cell of `ext`, off `ext`, has a
      tile that starts the typed text from `at`. */
  predicate DeadEnd(adj: seq<seq<nat>>, tiles: seq<string>, visited: seq<bool>, ext: Path, typed: string, at: nat)
  {
    && |tiles| == |adj| == |visited| && ext != [] && ext[|ext| - 1] < |adj| && at <= |typed|
    && var nbrs := adj[ext[|ext| - 1]];
       forall k :: 0 <= k < |nbrs| && nbrs[k] < |adj| && nbrs[k] !in ext && !visited[nbrs[k]] ==>
         !StartsWith(typed[at..], tiles[nbrs[k]])
  }

  /** A cell none of whose unvisited neighbours can continue is a dead
      end on its own. */
  lemma DeadEndLeaf(adj: seq<seq<nat>>, tiles: seq<string>, visited: seq<bool>, idx: nat,
                    typed: string, at: nat, path: Path)
    requires AdjOk(adj) && |tiles| == |adj| && |visited| == |adj| && idx < |adj| && at <= |typed|
    requires Total(ExploreNbrs(adj, tiles, visited[idx := true], adj[idx], typed, at, path)) == 0
    ensures DeadEnd(adj, tiles, visited, [idx], typed, at)
  {
    var v := visited[idx := true];
    ExploreNbrsRecords(adj, tiles, v, adj[idx], typed, at, path);
    forall k | 0 <= k < |adj[idx]| && adj[idx][k] < |adj| && adj[idx][k] !in [idx] && !visited[adj[idx][k]]
      ensures !StartsWith(typed[at..], tiles[adj[idx][k]])
    {
      assert !v[adj[idx][k]];
    }
  }

  /** A dead end reached after marking `idx` stays one with `idx` put in
      front of it. */
  lemma DeadEndCons(adj: seq<seq<nat>>, tiles: seq<string>, visited: seq<bool>, idx: nat,
                    rest: Path, typed: string, at: nat)
    requires |tiles| == |adj| && |visited| == |adj| && idx < |adj| && at <= |typed|
    requires rest != [] && rest[|rest| - 1] < |adj|
    requires DeadEnd(adj, tiles, visited[idx := true], rest, typed, at)
    ensures DeadEnd(adj, tiles, visited, [idx] + rest, typed, at)
  {
    var ext := [idx] + rest;
    assert ext[|ext| - 1] == rest[|rest| - 1];
    var last := rest[|rest| - 1];
    forall k | 0 <= k < |adj[last]| && adj[last][k] < |adj| && adj[last][k] !in ext && !visited[adj[last][k]]
      ensures !StartsWith(typed[at..], tiles[adj[last][k]])
    {
      var j := adj[last][k];
      assert j != idx && j !in rest && !visited[idx := true][j];
    }
  }

  /** The furthest progress: every partial path is the path so far
      followed by a simple path `ext` from `idx` avoiding the visited
      cells, which spells a proper prefix of the rest of the typed text,
      and from whose last cell no unvisited neighbour off the path can
      continue the match. */
  lemma {:induction false} ExplorePartialSound(adj: seq<seq<nat>>, tiles: seq<string>, visited: seq<bool>, idx: nat,
                                               typed: string, pos: nat, path: Path, p: Path) returns (ext: Path, at: nat)
    requires AdjOk(adj) && |tiles| == |adj| && |visited| == |adj|
    requires idx < |adj| && !visited[idx] && pos <= |typed|
    requires p in ExploreFrom(adj, tiles, visited, idx, typed, pos, path).partial
    ensures p == path + ext && Extension(adj, visited, idx, ext)
    ensures Spell(tiles, ext) < typed[pos..]
    ensures at == pos + |Spell(tiles, ext)| && DeadEnd(adj, tiles, visited, ext, typed, at)
    decreases Unvisited(visited)
  {
    var letter := tiles[idx];
    assert StartsWith(typed[pos..], letter);
    var newPos := pos + |letter|;
    assert typed[pos..] == letter + typed[newPos..];
    var v := visited[idx := true];
    var next := path + [idx];
    MarkShrinks(visited, idx);
    var t := ExploreNbrs(adj, tiles, v, adj[idx], typed, newPos, next);
    if Total(t) == 0 {
      assert ExploreFrom(adj, tiles, visited, idx, typed, pos, path).partial == [next] && newPos < |typed|;
      InSingleton(p, next);
      ext, at := PartialLeaf(adj, tiles, visited, idx, typed, pos, newPos, next);
    } else {
      assert ExploreFrom(adj, tiles, visited, idx, typed, pos, path) == t;
      var j := PartialFromNeighbour(adj, tiles, v, adj[idx], typed, newPos, next, p);
      var rest, restAt := ExplorePartialSound(adj, tiles, v, j, typed, newPos, next, p);
      ext, at := PartialCons(adj, tiles, visited, idx, typed, pos, newPos, path, rest, restAt, p);
    }
  }

  /** A tile that is a proper prefix of the rest of the text, from which
      no neighbour continues, is a partial path of one cell. */
  lemma PartialLeaf(adj: seq<seq<nat>>, tiles: seq<string>, visited: seq<bool>, idx: nat,
                    typed: string, pos: nat, newPos: nat, next: Path) returns (ext: Path, at: nat)
    requires AdjOk(adj) && |tiles| == |adj| && |visited| == |adj| && idx < |adj| && !visited[idx]
    requires newPos == pos + |tiles[idx]| < |typed| && typed[pos..] == tiles[idx] + typed[newPos..]
    requires Total(ExploreNbrs(adj, tiles, visited[idx := true], adj[idx], typed, newPos, next)) == 0
    ensures ext == [idx] && Extension(adj, visited, idx, ext)
    ensures Spell(tiles, ext) < typed[pos..]
    ensures at == pos + |Spell(tiles, ext)| && DeadEnd(adj, tiles, visited, ext, typed, at)
  {
    ext, at := [idx], newPos;
    SpellOne(tiles, idx);
    DeadEndLeaf(adj, tiles, visited, idx, typed, newPos, next);
  }

  /** Putting `idx` in front of a partial extension found from one of its
      neighbours gives a partial extension from `idx`. */
  lemma PartialCons(adj: seq<seq<nat>>, tiles: seq<string>, visited: seq<bool>, idx: nat,
                    typed: string, pos: nat, newPos: nat, path: Path, rest: Path, restAt: nat, p: Path)
    returns (ext: Path, at: nat)
    requires AdjOk(adj) && |tiles| == |adj| && |visited| == |adj| && idx < |adj| && !visited[idx]
    requires newPos == pos + |tiles[idx]| <= |typed| && typed[pos..] == tiles[idx] + typed[newPos..]
    requires rest != [] && rest[0] in adj[idx]
    requires p == path + [idx] + rest && Extension(adj, visited[idx := true], rest[0], rest)
    requires Spell(tiles, rest) < typed[newPos..]
    requires restAt == newPos + |Spell(tiles, rest)| && DeadEnd(adj, tiles, visited[idx := true], rest, typed, restAt)
    ensures ext == [idx] + rest && p == path + ext && Extension(adj, visited, idx, ext)
    ensures Spell(tiles, ext) < typed[pos..]
    ensures at == pos + |Spell(tiles, ext)| && DeadEnd(adj, tiles, visited, ext, typed, at)
  {
    ext, at := [idx] + rest, restAt;
    ExtensionCons(adj, visited, idx, rest);
    SpellCons(tiles, idx, rest);
    AppendCons(path, idx, rest);
    ProperPrefixAppend(tiles[idx], Spell(tiles, rest), typed[newPos..]);
    DeadEndCons(adj, tiles, visited, idx, rest, typed, restAt);
  }

  /** A partial path recorded by the neighbour loop comes from the call on
      one of the unvisited neighbours. */
  lemma {:induction false} PartialFromNeighbour(adj: seq<seq<nat>>, tiles: seq<string>, visited: seq<bool>,
                                                nbrs: seq<nat>, typed: string, pos: nat, path: Path, p: Path)
    returns (j: nat)
    requires AdjOk(adj) && |tiles| == |adj| && |visited| == |adj|
    requires (forall k :: 0 <= k < |nbrs| ==> nbrs[k] < |adj|) && pos <= |typed|
    requires p in ExploreNbrs(adj, tiles, visited, nbrs, typed, pos, path).partial
    ensures j in nbrs && j < |adj| && !visited[j] && p in ExploreFrom(adj, tiles, visited, j, typed, pos, path).partial
    decreases |nbrs|
  {
    var init, last := nbrs[..|nbrs| - 1], nbrs[|nbrs| - 1];
    if p in ExploreNbrs(adj, tiles, visited, init, typed, pos, path).partial {
      j := PartialFromNeighbour(adj, tiles, visited, init, typed, pos, path, p);
    } else {
      j := last;
    }
  }

  // ---------------------------------------------------------------------
  // `validateInput`

  datatype Status = Empty | Valid | Invalid

  /** The object `validateInput` returns. */
  datatype Validation = Validation(status: Status, completePaths: seq<Path>, partialPaths: seq<Path>)

  /** What `validateInput` returns: the empty result for empty input;
      otherwise the paths of the exploration from every start of the
      upper-cased text over the upper-cased tiles, `Valid` when one of them
      is complete. */
  function Validate(typed: string, tiles: seq<string>, rows: nat, cols: nat): (v: Validation)
    requires |tiles| == rows * cols
    ensures v.status == Empty <==> typed == ""
    ensures v.status == Empty ==> v.completePaths == [] && v.partialPaths == []
    ensures v.status == Valid <==> v.completePaths != []
  {
    if typed == "" then Validation(Empty, [], [])
    else
      var t := ExploreStarts(Grid.Adjacency(rows, cols), Uppered(tiles), rows * cols, Upper(typed));
      Validation(if |t.complete| > 0 then Valid else Invalid, t.complete, t.partial)
  }

  /** The loop of `validateInput`: a search from every start cell, each
      with a fresh visited buffer, the traces gathered in cell order. */
  method ExploreAllStarts(upper: string, tiles: seq<string>, adj: seq<seq<nat>>) returns (traces: Traces)
    requires AdjOk(adj) && |tiles| == |adj|
    ensures traces == ExploreStarts(adj, Uppered(tiles), |tiles|, upper)
  {
    ghost var uppered := Uppered(tiles);
    traces := NoTraces;
    var start := 0;
    while start < |tiles|
      invariant 0 <= start <= |tiles|
      invariant traces == ExploreStarts(adj, uppered, start, upper)
    {
      var visited := new bool[|tiles|](_ => false);
      assert visited[..] == Fresh(|adj|);
      assert ExploreStarts(adj, uppered, start + 1, upper) ==
             Cat(traces, ExploreFrom(adj, uppered, Fresh(|adj|), start, upper, 0, []));
      traces := ExplorePaths(start, visited, upper, 0, tiles, adj, [], traces);
      start := start + 1;
    }
  }

  method ValidateInput(typed: string, tiles: seq<string>, rows: nat, cols: nat, cache: Grid.AdjacencyCache)
    returns (r: Validation)
    requires cache.Valid() && |tiles| == rows * cols
    modifies cache
    ensures cache.Valid()
    ensures typed == "" ==> cache.entries == old(cache.entries)
    ensures typed != "" ==> cache.entries == old(cache.entries)[(rows, cols) := Grid.Adjacency(rows, cols)]
    ensures r == Validate(typed, tiles, rows, cols)
  {
    if typed == "" {
      return Validation(Empty, [], []);
    }
    var upper := Upper(typed);
    var adj := cache.BuildAdjacency(rows, cols);
    var traces := ExploreAllStarts(upper, tiles, adj);
    r := Validation(if |traces.complete| > 0 then Valid else Invalid, traces.complete, traces.partial);
  }

  /** The status is `Empty` exactly for empty input; every complete path
      is a simple path spelling the typed text (case-insensitively), so
      `Valid` means the text can be traced; and a non-empty text that can
      be traced is `Valid`. */
  lemma ValidateSpec(typed: string, tiles: seq<string>, rows: nat, cols: nat)
    requires |tiles| == rows * cols
    ensures Validate(typed, tiles, rows, cols).status == Empty <==> typed == ""
    ensures forall p :: p in Validate(typed, tiles, rows, cols).completePaths ==>
              p != [] && IsTrail(Grid.Adjacency(rows, cols), p) && OnBoard(tiles, p) &&
              Spell(Uppered(tiles), p) == Upper(typed)
    ensures Validate(typed, tiles, rows, cols).status == Valid ==>
              Traceable(Grid.Adjacency(rows, cols), Uppered(tiles), Upper(typed))
    ensures typed != "" && Traceable(Grid.Adjacency(rows, cols), Uppered(tiles), Upper(typed)) ==>
              Validate(typed, tiles, rows, cols).status == Valid
  {
    var adj, up, word := Grid.Adjacency(rows, cols), Uppered(tiles), Upper(typed);
    ExploreStartsComplete(adj, up, |adj|, word);
    var r := Validate(typed, tiles, rows, cols);
    forall p | p in r.completePaths
      ensures p != [] && IsTrail(adj, p) && OnBoard(tiles, p) && Spell(up, p) == word
    {
      MatchStartsSpec(adj, up, word, p);
    }
    if r.status == Valid {
      var p := r.completePaths[0];
      assert p in r.completePaths;
    }
    if typed != "" && Traceable(adj, up, word) {
      var p :| p != [] && IsTrail(adj, p) && OnBoard(up, p) && Spell(up, p) == word;
      MatchStartsReach(adj, up, word, p);
    }
  }

  lemma {:induction false} PartialFromStart(adj: seq<seq<nat>>, tiles: seq<string>, k: nat, typed: string, p: Path)
    returns (s: nat)
    requires AdjOk(adj) && |tiles| == |adj| && k <= |adj|
    requires p in ExploreStarts(adj, tiles, k, typed).partial
    ensures s < k && p in ExploreFrom(adj, tiles, Fresh(|adj|), s, typed, 0, []).partial
  {
    if p in ExploreStarts(adj, tiles, k - 1, typed).partial {
      s := PartialFromStart(adj, tiles, k - 1, typed, p);
    } else {
      s := k - 1;
    }
  }

  /** Every partial path is a simple path spelling a proper prefix of the
      typed text (case-insensitively) that no unused neighbour of its last
      cell can extend. */
  lemma ValidatePartialSpec(typed: string, tiles: seq<string>, rows: nat, cols: nat, p: Path)
    requires |tiles| == rows * cols
    requires p in Validate(typed, tiles, rows, cols).partialPaths
    ensures p != [] && IsTrail(Grid.Adjacency(rows, cols), p) && OnBoard(tiles, p)
    ensures Spell(Uppered(tiles), p) < Upper(typed)
    ensures DeadEnd(Grid.Adjacency(rows, cols), Uppered(tiles), Fresh(rows * cols), p, Upper(typed),
                    |Spell(Uppered(tiles), p)|)
  {
    var adj, up, word := Grid.Adjacency(rows, cols), Uppered(tiles), Upper(typed);
    var s := PartialFromStart(adj, up, |adj|, word, p);
    var ext, at := ExplorePartialSound(adj, up, Fresh(|adj|), s, word, 0, [], p);
    assert p == ext && word[0..] == word;
    assert at == |Spell(up, p)|;
  }

  /** Every word the solver finds is reported `Valid` when typed, in any
      case; the trie holds no empty word, as only words of three or more
      letters are indexed. */
  lemma SolvedWordsValidate(tiles: seq<string>, rows: nat, cols: nat, children: seq<map<char, nat>>,
                            isWord: seq<bool>, spelt: seq<string>, nodeOf: map<string, nat>, words: set<string>,
                            minLen: int, w: string)
    requires |tiles| == rows * cols && Trie.Inv(children, isWord, spelt, nodeOf, words) && "" !in words
    requires w in SolveStarts(Grid.Adjacency(rows, cols), Lowered(tiles), children, isWord, rows * cols, minLen)
    ensures Validate(w, tiles, rows, cols).status == Valid
  {
    var adj := Grid.Adjacency(rows, cols);
    SolveStartsSpec(adj, Lowered(tiles), children, isWord, spelt, nodeOf, words, minLen, w);
    var p :| p != [] && IsTrail(adj, p) && OnBoard(Lowered(tiles), p) && Spell(Lowered(tiles), p) == w;
    SpellLowered(tiles, p);
    SpellUppered(tiles, p);
    UpperOfLower(Spell(tiles, p));
    assert Spell(Uppered(tiles), p) == Upper(w);
    assert OnBoard(Uppered(tiles), p);
    ValidateSpec(w, tiles, rows, cols);
  }
}
