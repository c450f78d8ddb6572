/**
  * Boards and search paths shared by the word enumerator, the path finder
  * and the literal validator.  A board is the flat row-major sequence of
  * its tiles (`grid.flat()`); an adjacency map gives each cell's
  * neighbour list; a search path is a sequence of distinct cells, each
  * adjacent to the one before, and it spells the concatenation of its
  * tiles.
  */
module Board {
  import opened Text

  type Path = seq<nat>

  /** Every neighbour list stays on the board. */
  predicate AdjOk(adj: seq<seq<nat>>)
  {
    forall i, k :: 0 <= i < |adj| && 0 <= k < |adj[i]| ==> adj[i][k] < |adj|
  }

  /** The cells a visited buffer has not marked. */
  function Unvisited(visited: seq<bool>): set<nat>
  {
    set i | 0 <= i < |visited| && !visited[i]
  }

  /** Marking an unmarked cell shrinks the unmarked set: the measure under
      which every depth-first search here terminates. */
  lemma MarkShrinks(visited: seq<bool>, idx: nat)
    requires idx < |visited| && !visited[idx]
    ensures Unvisited(visited[idx := true]) < Unvisited(visited)
  {
    assert idx in Unvisited(visited) - Unvisited(visited[idx := true]);
  }

  /** A buffer as `new Uint8Array(n)` leaves it: nothing visited. */
  function Fresh(n: nat): (v: seq<bool>)
    ensures |v| == n && forall i :: 0 <= i < n ==> !v[i]
  {
    seq(n, i => false)
  }

  /** A simple path: on the board, no cell twice, each step to a neighbour. */
  predicate IsTrail(adj: seq<seq<nat>>, p: Path)
  {
    && (forall k :: 0 <= k < |p| ==> p[k] < |adj|)
    && (forall k, l :: 0 <= k < l < |p| ==> p[k] != p[l])
    && (forall k :: 0 <= k < |p| - 1 ==> p[k + 1] in adj[p[k]])
  }

  /** No cell of the path is marked in the buffer. */
  predicate Avoids(visited: seq<bool>, p: Path)
  {
    forall k :: 0 <= k < |p| ==> p[k] < |visited| && !visited[p[k]]
  }

  /** The ways a search standing at `idx`, with `visited` marked, can go on:
      a simple path that starts at `idx` and touches no marked cell. */
  predicate Extension(adj: seq<seq<nat>>, visited: seq<bool>, idx: nat, ext: Path)
  {
    ext != [] && ext[0] == idx && IsTrail(adj, ext) && Avoids(visited, ext)
  }

  /** The text a path spells: its tiles concatenated in order. */
  function Spell(tiles: seq<string>, p: Path): string
    requires forall k :: 0 <= k < |p| ==> p[k] < |tiles|
  {
    if p == [] then "" else tiles[p[0]] + Spell(tiles, p[1..])
  }

  /** Every tile case-mapped, as the searches do cell by cell. */
  function Lowered(tiles: seq<string>): (r: seq<string>)
    ensures |r| == |tiles| && forall i :: 0 <= i < |tiles| ==> r[i] == Lower(tiles[i])
  {
    seq(|tiles|, i requires 0 <= i < |tiles| => Lower(tiles[i]))
  }

  function Uppered(tiles: seq<string>): (r: seq<string>)
    ensures |r| == |tiles| && forall i :: 0 <= i < |tiles| ==> r[i] == Upper(tiles[i])
  {
    seq(|tiles|, i requires 0 <= i < |tiles| => Upper(tiles[i]))
  }

  /** Spelling with lower-cased tiles is lower-casing the spelling. */
  lemma {:induction false} SpellLowered(tiles: seq<string>, p: Path)
    requires forall k :: 0 <= k < |p| ==> p[k] < |tiles|
    ensures Spell(Lowered(tiles), p) == Lower(Spell(tiles, p))
  {
    if p != [] {
      SpellLowered(tiles, p[1..]);
      LowerAppend(tiles[p[0]], Spell(tiles, p[1..]));
    }
  }

  lemma {:induction false} SpellUppered(tiles: seq<string>, p: Path)
    requires forall k :: 0 <= k < |p| ==> p[k] < |tiles|
    ensures Spell(Uppered(tiles), p) == Upper(Spell(tiles, p))
  {
    if p != [] {
      SpellUppered(tiles, p[1..]);
      UpperAppend(tiles[p[0]], Spell(tiles, p[1..]));
    }
  }

  /** A search path one cell longer than its tail: the step the
      depth-first searches take. */
  lemma ExtensionCons(adj: seq<seq<nat>>, visited: seq<bool>, idx: nat, rest: Path)
    requires idx < |visited| && !visited[idx] && idx < |adj|
    requires rest != [] && rest[0] in adj[idx]
    ensures Extension(adj, visited, idx, [idx] + rest) <==> Extension(adj, visited[idx := true], rest[0], rest)
  {
    var ext := [idx] + rest;
    assert ext[1..] == rest;
    if Extension(adj, visited[idx := true], rest[0], rest) {
      forall k, l | 0 <= k < l < |ext| ensures ext[k] != ext[l] {
        if k == 0 {
          assert visited[idx := true][rest[l - 1]] == false;
        }
      }
    }
  }

  /** Conversely, a search path of two or more cells is its first cell
      followed by a search path from one of that cell's neighbours. */
  lemma ExtensionTail(adj: seq<seq<nat>>, visited: seq<bool>, idx: nat, ext: Path)
    requires Extension(adj, visited, idx, ext) && |ext| >= 2
    ensures ext[1] in adj[idx] && ext == [idx] + ext[1..]
    ensures idx < |visited| && !visited[idx]
    ensures Extension(adj, visited[idx := true], ext[1], ext[1..])
  {
    ExtensionCons(adj, visited, idx, ext[1..]);
    assert [idx] + ext[1..] == ext;
  }

  /** Appending a cell and then the rest of a path is appending both.
      Dafny proves this unaided; the recursive searches call it to regroup
      the recorded path cheaply. */
  lemma AppendCons(path: Path, idx: nat, rest: Path)
    ensures path + [idx] + rest == path + ([idx] + rest)
  {
  }

  lemma SpellCons(tiles: seq<string>, idx: nat, rest: Path)
    requires idx < |tiles| && forall k :: 0 <= k < |rest| ==> rest[k] < |tiles|
    ensures Spell(tiles, [idx] + rest) == tiles[idx] + Spell(tiles, rest)
  {
    assert ([idx] + rest)[1..] == rest;
  }

  /** The tiles spelt by a path stay inside the board. */
  predicate OnBoard(tiles: seq<string>, p: Path)
  {
    forall k :: 0 <= k < |p| ==> p[k] < |tiles|
  }

  /** Every tile holds text (a letter, or the two letters of `Qu`). */
  predicate TilesNonEmpty(tiles: seq<string>)
  {
    forall i :: 0 <= i < |tiles| ==> tiles[i] != ""
  }

  /** A string that some simple path on the board spells. */
  ghost predicate Traceable(adj: seq<seq<nat>>, tiles: seq<string>, w: string)
  {
    exists p :: p != [] && IsTrail(adj, p) && OnBoard(tiles, p) && Spell(tiles, p) == w
  }
}
