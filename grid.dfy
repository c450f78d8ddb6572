/**
  * The adjacency graph of a rows x cols board whose cells are numbered
  * row-major (cell (r, c) has index r * cols + c): each cell's neighbours
  * are the in-bounds cells at Chebyshev distance 1.  `IsAdjacent` is the
  * test the tap input uses; `Neighbours` is the list `buildAdjacency`
  * stores, scanned in the order of its loops (dr, then dc, each from -1
  * to 1).  `AdjacencyCache` is the module-level cache keyed by shape.
  */
module Grid {

  /** `isAdjacent(idx1, idx2, cols)`: distinct cells whose rows and columns
      each differ by at most one.  With no columns JavaScript divides by
      zero and every comparison with NaN fails, so nothing is adjacent. */
  predicate IsAdjacent(i: nat, j: nat, cols: nat): (b: bool)
    ensures b ==> cols > 0 && i != j
    ensures b ==> i <= j + cols + 1 && j <= i + cols + 1
  {
    && cols > 0 && i != j && -1 <= i / cols - j / cols <= 1 && -1 <= i % cols - j % cols <= 1
    && (IndexDistance(i, j, cols); true)
  }

  /** Cells at most one row and one column apart have indices at most
      `cols + 1` apart. */
  lemma IndexDistance(i: nat, j: nat, cols: nat)
    requires cols > 0 && -1 <= i / cols - j / cols <= 1 && -1 <= i % cols - j % cols <= 1
    ensures i <= j + cols + 1 && j <= i + cols + 1
  {
    var qi, qj := i / cols, j / cols;
    assert i == qi * cols + i % cols && j == qj * cols + j % cols;
    if qi == qj + 1 {
      assert qi * cols == qj * cols + cols;
    } else if qj == qi + 1 {
      assert qj * cols == qi * cols + cols;
    }
  }

  /** The row offset and column offset of step k: k / 3 - 1 and k % 3 - 1,
      written without division. */
  function Dr(k: nat): int
  {
    if k < 3 then -1 else if k < 6 then 0 else 1
  }

  function Dc(k: nat): int
  {
    k - 3 * (Dr(k) + 1) - 1
  }

  /** The neighbour found at step k (0 <= k < 9) of the two inner loops:
      dr = Dr(k) and dc = Dc(k), skipping (0, 0) and clipping at the
      edges. */
  function Step(rows: nat, cols: nat, r: nat, c: nat, k: nat): seq<nat>
    requires k < 9
  {
    var dr, dc := Dr(k), Dc(k);
    if (dr == 0 && dc == 0) || !(0 <= r + dr < rows && 0 <= c + dc < cols) then []
    else [(r + dr) * cols + (c + dc)]
  }

  /** The neighbours found by the first k steps. */
  function Scan(rows: nat, cols: nat, r: nat, c: nat, k: nat): seq<nat>
    requires k <= 9
  {
    if k == 0 then [] else Scan(rows, cols, r, c, k - 1) + Step(rows, cols, r, c, k - 1)
  }

  /** The number of (dr, dc) steps the two inner loops take. */
  const StepCount: nat := 9

  /** The neighbour list of cell `idx`. */
  function Neighbours(rows: nat, cols: nat, idx: nat): seq<nat>
    requires cols > 0
  {
    Scan(rows, cols, idx / cols, idx % cols, StepCount)
  }

  /** The whole adjacency map, one list per cell. */
  function Adjacency(rows: nat, cols: nat): (adj: seq<seq<nat>>)
    ensures |adj| == rows * cols
    ensures forall i, k :: 0 <= i < |adj| && 0 <= k < |adj[i]| ==> adj[i][k] < |adj|
  {
    if cols == 0 then []
    else
      NeighboursBounded(rows, cols);
      seq(rows * cols, i requires 0 <= i < rows * cols => Neighbours(rows, cols, i))
  }

  lemma NeighboursBounded(rows: nat, cols: nat)
    requires cols > 0
    ensures forall i, k :: 0 <= i < rows * cols && 0 <= k < |Neighbours(rows, cols, i)| ==>
                           Neighbours(rows, cols, i)[k] < rows * cols
  {
    forall i, k | 0 <= i < rows * cols && 0 <= k < |Neighbours(rows, cols, i)|
      ensures Neighbours(rows, cols, i)[k] < rows * cols
    {
      NeighboursSorted(rows, cols, i);
      assert Neighbours(rows, cols, i)[k] in Neighbours(rows, cols, i);
    }
  }

  /** Row-major decoding: the index of (r, c) divides back into r and c. */
  lemma DivModCell(r: int, c: int, cols: int)
    requires cols > 0 && 0 <= c < cols
    ensures (r * cols + c) / cols == r && (r * cols + c) % cols == c
  {
    var n := r * cols + c;
    var q, m := n / cols, n % cols;
    assert n == q * cols + m;
    assert (q - r) * cols == c - m;
    if q > r {
      assert (q - r) * cols >= cols by { MulMono(q - r, 1, cols); }
    } else if q < r {
      assert (r - q) * cols >= cols by { MulMono(r - q, 1, cols); }
    }
  }

  /** Multiplying by a non-negative factor keeps order.  Dafny knows this,
      but calling it names the nonlinear step so the solver does not have
      to search for it. */
  lemma MulMono(a: int, b: int, k: int)
    requires a >= b && k >= 0
    ensures a * k >= b * k
  {
  }

  /** What step k contributes, in terms of coordinates. */
  lemma StepCell(rows: nat, cols: nat, r: nat, c: nat, k: nat, j: nat)
    requires k < 9 && cols > 0 && r < rows && c < cols
    ensures j in Step(rows, cols, r, c, k) <==>
      (k != 4 && 0 <= r + Dr(k) < rows && 0 <= c + Dc(k) < cols &&
       j == (r + Dr(k)) * cols + (c + Dc(k)))
  {
  }

  /** A cell found at some step is a neighbour in the sense of `isAdjacent`. */
  lemma StepAdjacent(rows: nat, cols: nat, r: nat, c: nat, k: nat, j: nat)
    requires k < 9 && cols > 0 && r < rows && c < cols
    requires j in Step(rows, cols, r, c, k)
    ensures j < rows * cols && IsAdjacent(r * cols + c, j, cols)
  {
    var dr, dc := Dr(k), Dc(k);
    var nr, nc := r + dr, c + dc;
    assert 0 <= nr < rows && 0 <= nc < cols && j == nr * cols + nc;
    DivModCell(nr, nc, cols);
    DivModCell(r, c, cols);
    MulMono(rows - 1, nr, cols);
    assert (rows - 1) * cols + cols == rows * cols;
  }

  /** Every step's cell appears in the scan of all nine steps. */
  lemma {:induction false} StepInScan(rows: nat, cols: nat, r: nat, c: nat, d: nat, k: nat)
    requires d < k <= 9
    ensures forall j :: j in Step(rows, cols, r, c, d) ==> j in Scan(rows, cols, r, c, k)
  {
    if d < k - 1 {
      StepInScan(rows, cols, r, c, d, k - 1);
    }
  }

  lemma {:induction false} ScanAdjacent(rows: nat, cols: nat, r: nat, c: nat, k: nat)
    requires k <= 9 && cols > 0 && r < rows && c < cols
    ensures forall j :: j in Scan(rows, cols, r, c, k) ==> j < rows * cols && IsAdjacent(r * cols + c, j, cols)
  {
    if k > 0 {
      ScanAdjacent(rows, cols, r, c, k - 1);
      var t := Step(rows, cols, r, c, k - 1);
      if t != [] {
        StepAdjacent(rows, cols, r, c, k - 1, t[0]);
      }
    }
  }

  /** The coordinates of a cell of the board are in range. */
  lemma CellCoordinates(rows: nat, cols: nat, i: nat)
    requires cols > 0 && i < rows * cols
    ensures i / cols < rows && i == (i / cols) * cols + i % cols
  {
    if i / cols >= rows {
      MulMono(i / cols, rows, cols);
    }
  }

  /** An adjacent cell is found at the step of its direction. */
  lemma AdjacentInStep(rows: nat, cols: nat, i: nat, j: nat)
    requires cols > 0 && i < rows * cols && j < rows * cols && IsAdjacent(i, j, cols)
    ensures j in Step(rows, cols, i / cols, i % cols, (j / cols - i / cols + 1) * 3 + (j % cols - i % cols + 1))
  {
    CellCoordinates(rows, cols, i);
    CellCoordinates(rows, cols, j);
    var r, c, nr, nc := i / cols, i % cols, j / cols, j % cols;
    var d := (nr - r + 1) * 3 + (nc - c + 1);
    assert Dr(d) == nr - r && Dc(d) == nc - c;
  }

  /** Membership in a neighbour list is exactly `isAdjacent` between two
      cells of the board. */
  lemma NeighboursAreAdjacent(rows: nat, cols: nat, i: nat, j: nat)
    requires cols > 0 && i < rows * cols
    ensures j in Neighbours(rows, cols, i) <==> j < rows * cols && IsAdjacent(i, j, cols)
  {
    if j in Neighbours(rows, cols, i) {
      NeighbourIsAdjacent(rows, cols, i, j);
    }
    if j < rows * cols && IsAdjacent(i, j, cols) {
      AdjacentIsNeighbour(rows, cols, i, j);
    }
  }

  lemma NeighbourIsAdjacent(rows: nat, cols: nat, i: nat, j: nat)
    requires cols > 0 && i < rows * cols
    requires j in Neighbours(rows, cols, i)
    ensures j < rows * cols && IsAdjacent(i, j, cols)
  {
    var r, c := i / cols, i % cols;
    CellCoordinates(rows, cols, i);
    assert r < rows && c < cols && i == r * cols + c;
    assert j in Scan(rows, cols, r, c, StepCount);
    ScanAdjacent(rows, cols, r, c, StepCount);
  }

  lemma AdjacentIsNeighbour(rows: nat, cols: nat, i: nat, j: nat)
    requires cols > 0 && i < rows * cols && j < rows * cols && IsAdjacent(i, j, cols)
    ensures j in Neighbours(rows, cols, i)
  {
    var r, c := i / cols, i % cols;
    var d := (j / cols - r + 1) * 3 + (j % cols - c + 1);
    AdjacentInStep(rows, cols, i, j);
    StepInScan(rows, cols, r, c, d, StepCount);
  }

  /** A cell is never its own neighbour. */
  lemma NotOwnNeighbour(rows: nat, cols: nat, i: nat)
    requires cols > 0 && i < rows * cols
    ensures i !in Neighbours(rows, cols, i)
  {
    NeighboursAreAdjacent(rows, cols, i, i);
  }

  /** The graph is symmetric. */
  lemma NeighboursSymmetric(rows: nat, cols: nat, i: nat, j: nat)
    requires cols > 0 && i < rows * cols && j < rows * cols
    ensures j in Neighbours(rows, cols, i) <==> i in Neighbours(rows, cols, j)
  {
    NeighboursAreAdjacent(rows, cols, i, j);
    NeighboursAreAdjacent(rows, cols, j, i);
  }

  predicate StrictlyIncreasing(s: seq<nat>)
  {
    forall a, b :: 0 <= a < b < |s| ==> s[a] < s[b]
  }

  /** The cell of a later step has a larger index than that of an earlier one. */
  lemma StepOrder(rows: nat, cols: nat, r: nat, c: nat, d1: nat, d2: nat, x: nat, y: nat)
    requires d1 < d2 < 9 && cols > 0 && c < cols
    requires x in Step(rows, cols, r, c, d1) && y in Step(rows, cols, r, c, d2)
    ensures x < y
  {
    var r1, c1 := r + Dr(d1), c + Dc(d1);
    var r2, c2 := r + Dr(d2), c + Dc(d2);
    assert x == r1 * cols + c1 && y == r2 * cols + c2;
    if r1 < r2 {
      MulMono(r2, r1 + 1, cols);
    }
  }

  /** The first k steps find only cells below those of the later steps. */
  lemma {:induction false} ScanBelowLater(rows: nat, cols: nat, r: nat, c: nat, k: nat)
    requires k <= 9 && cols > 0 && c < cols
    ensures forall x, d, y :: x in Scan(rows, cols, r, c, k) && k <= d < 9 && y in Step(rows, cols, r, c, d) ==> x < y
  {
    if k > 0 {
      ScanBelowLater(rows, cols, r, c, k - 1);
      var t := Step(rows, cols, r, c, k - 1);
      if t != [] {
        forall d, y | k <= d < 9 && y in Step(rows, cols, r, c, d)
          ensures t[0] < y
        {
          StepOrder(rows, cols, r, c, k - 1, d, t[0], y);
        }
      }
    }
  }

  lemma {:induction false} ScanIncreasing(rows: nat, cols: nat, r: nat, c: nat, k: nat)
    requires k <= 9 && cols > 0 && c < cols
    ensures StrictlyIncreasing(Scan(rows, cols, r, c, k))
  {
    if k > 0 {
      ScanIncreasing(rows, cols, r, c, k - 1);
      ScanBelowLater(rows, cols, r, c, k - 1);
      var s, t := Scan(rows, cols, r, c, k - 1), Step(rows, cols, r, c, k - 1);
      if t != [] {
        assert t[0] in t;
        forall a | 0 <= a < |s| ensures s[a] < t[0] {
          assert s[a] in s;
        }
        assert Scan(rows, cols, r, c, k) == s + t;
      }
    }
  }

  /** Every list is sorted in ascending (row-major) order, hence free of
      duplicates, and stays on the board. */
  lemma NeighboursSorted(rows: nat, cols: nat, i: nat)
    requires cols > 0 && i < rows * cols
    ensures StrictlyIncreasing(Neighbours(rows, cols, i))
    ensures forall a, b :: 0 <= a < b < |Neighbours(rows, cols, i)| ==>
              Neighbours(rows, cols, i)[a] != Neighbours(rows, cols, i)[b]
    ensures forall j :: j in Neighbours(rows, cols, i) ==> j < rows * cols
  {
    ScanIncreasing(rows, cols, i / cols, i % cols, 9);
    CellCoordinates(rows, cols, i);
    ScanAdjacent(rows, cols, i / cols, i % cols, 9);
  }

  /** The row-major index of cell (r, c). */
  function CellIndex(r: nat, c: nat, cols: nat): (i: nat)
  {
    r * cols + c
  }

  /** One more (dr, dc) step of the inner loops appends that step's cell. */
  lemma ScanNext(rows: nat, cols: nat, r: nat, c: nat, dr: int, dc: int)
    requires -1 <= dr <= 1 && -1 <= dc <= 1
    ensures Scan(rows, cols, r, c, 3 * (dr + 1) + (dc + 1) + 1) ==
      Scan(rows, cols, r, c, 3 * (dr + 1) + (dc + 1)) +
      (if (dr == 0 && dc == 0) || !(0 <= r + dr < rows && 0 <= c + dc < cols) then []
       else [CellIndex(r + dr, c + dc, cols)])
  {
    var k := 3 * (dr + 1) + (dc + 1);
    assert Dr(k) == dr && Dc(k) == dc;
  }

  /** The two inner loops of `buildAdjacency`: the in-bounds cells around
      (r, c), scanned by dr and then dc. */
  method CellNeighbours(rows: nat, cols: nat, r: nat, c: nat) returns (cell: seq<nat>)
    ensures cell == Scan(rows, cols, r, c, StepCount)
  {
    cell := [];
    var dr := -1;
    while dr <= 1
      invariant -1 <= dr <= 2
      invariant cell == Scan(rows, cols, r, c, 3 * (dr + 1))
    {
      var dc := -1;
      while dc <= 1
        invariant -1 <= dc <= 2
        invariant cell == Scan(rows, cols, r, c, 3 * (dr + 1) + (dc + 1))
      {
        ScanNext(rows, cols, r, c, dr, dc);
        if !(dr == 0 && dc == 0) {
          var nr, nc := r + dr, c + dc;
          if 0 <= nr < rows && 0 <= nc < cols {
            var next: nat := CellIndex(nr, nc, cols);
            cell := cell + [next];
          }
        }
        dc := dc + 1;
      }
      dr := dr + 1;
    }
  }

  /** The memo of `buildAdjacency`, keyed by shape.  The source keys it by
      the string `${rows}x${cols}`, which is one-to-one on pairs of
      numbers, so a pair is used here. */
  class AdjacencyCache {
    var entries: map<(nat, nat), seq<seq<nat>>>

    ghost predicate Valid()
      reads this
    {
      forall key :: key in entries ==> entries[key] == Adjacency(key.0, key.1)
    }

    constructor ()
      ensures Valid() && entries == map[]
    {
      entries := map[];
    }

    /** `buildAdjacency(rows, cols)`: the cached map if this shape was seen
        before, otherwise one computed by the four nested loops and then
        remembered. */
    method BuildAdjacency(rows: nat, cols: nat) returns (adj: seq<seq<nat>>)
      requires Valid()
      modifies this
      ensures Valid()
      ensures adj == Adjacency(rows, cols)
      ensures (rows, cols) in old(entries) ==> entries == old(entries)
      ensures entries == old(entries)[(rows, cols) := adj]
    {
      if (rows, cols) in entries {
        return entries[(rows, cols)];
      }
      adj := [];
      var r := 0;
      while r < rows
        invariant 0 <= r <= rows
        invariant |adj| == r * cols
        invariant entries == old(entries)
        invariant forall i :: 0 <= i < |adj| && cols > 0 ==> adj[i] == Neighbours(rows, cols, i)
      {
        var c := 0;
        while c < cols
          invariant 0 <= c <= cols
          invariant |adj| == r * cols + c
          invariant entries == old(entries)
          invariant forall i :: 0 <= i < |adj| && cols > 0 ==> adj[i] == Neighbours(rows, cols, i)
        {
          var idx := r * cols + c;
          var cell := CellNeighbours(rows, cols, r, c);
          DivModCell(r, c, cols);
          assert idx == |adj|;
          adj := adj + [cell];
          c := c + 1;
        }
        assert (r + 1) * cols == r * cols + cols;
        r := r + 1;
      }
      assert adj == Adjacency(rows, cols);
      ghost var before := entries;
      entries := entries[(rows, cols) := adj];
      forall key | key in entries ensures entries[key] == Adjacency(key.0, key.1) {
        if key != (rows, cols) {
          assert key in before && entries[key] == before[key];
        }
      }
    }
  }

  /** Worked examples of `buildAdjacency`, in increasing cell order: a
      corner of a 2 by 2 board touches the other three cells; the centre
      of a 3 by 3 board touches all eight others; the middle of its right
      edge touches five. */
  lemma TwoByTwoCorner()
    ensures Neighbours(2, 2, 0) == [1, 2, 3]
  {
  }

  lemma ThreeByThreeCentre()
    ensures Neighbours(3, 3, 4) == [0, 1, 2, 3, 5, 6, 7, 8]
  {
  }

  lemma ThreeByThreeEdge()
    ensures Neighbours(3, 3, 5) == [1, 2, 4, 7, 8]
  {
  }
}
