/** The board of the knight's tour: cells, the eight knight offsets, the
    legality and degree queries, and the correspondence between a path and
    the grid of visit orders that records it. */
module Board {

  /** A cell, as (row, column). */
  type Pos = (int, int)

  /** The visit-order grid: each cell holds its 0-based visit order, or -1. */
  type Grid = seq<seq<int>>

  /** The eight knight offsets, indexed 0..7 (moves_x and moves_y). */
  const MovesX: seq<int> := [2, 1, -1, -2, -2, -1, 1, 2]
  const MovesY: seq<int> := [1, 2, 2, 1, -1, -2, -2, -1]

  /** The cell reached from `p` by offset `k`. */
  function Target(p: Pos, k: int): Pos
    requires 0 <= k < 8
  {
    (p.0 + MovesX[k], p.1 + MovesY[k])
  }

  /** `q` is one of the eight offsets away from `p`. */
  ghost predicate KnightStep(p: Pos, q: Pos) {
    exists k :: 0 <= k < 8 && q == Target(p, k)
  }

  function Abs(n: int): nat {
    if n < 0 then -n else n
  }

  /** The offset table is exactly the set of knight moves: one coordinate
      changes by 1 and the other by 2. */
  lemma KnightStepIff(p: Pos, q: Pos)
    ensures KnightStep(p, q) <==>
      (Abs(q.0 - p.0) == 1 && Abs(q.1 - p.1) == 2) || (Abs(q.0 - p.0) == 2 && Abs(q.1 - p.1) == 1)
  {
    var dx, dy := q.0 - p.0, q.1 - p.1;
    if (Abs(dx) == 1 && Abs(dy) == 2) || (Abs(dx) == 2 && Abs(dy) == 1) {
      var k :=
        if dx == 2 && dy == 1 then 0
        else if dx == 1 && dy == 2 then 1
        else if dx == -1 && dy == 2 then 2
        else if dx == -2 && dy == 1 then 3
        else if dx == -2 && dy == -1 then 4
        else if dx == -1 && dy == -2 then 5
        else if dx == 1 && dy == -2 then 6
        else 7;
      assert q == Target(p, k);
    }
  }

  predicate InBoard(size: nat, p: Pos) {
    0 <= p.0 < size && 0 <= p.1 < size
  }

  predicate IsGrid(size: nat, g: Grid) {
    |g| == size && forall i :: 0 <= i < size ==> |g[i]| == size
  }

  /** is_valid_move: the cell is on the board and unvisited. */
  predicate IsValidMove(size: nat, g: Grid, x: int, y: int)
    requires IsGrid(size, g)
  {
    0 <= x < size && 0 <= y < size && g[x][y] == -1
  }

  /** Whether offset `k` from `p` reaches a valid cell. */
  predicate OffsetOpen(size: nat, g: Grid, p: Pos, k: int)
    requires IsGrid(size, g) && 0 <= k < 8
  {
    IsValidMove(size, g, Target(p, k).0, Target(p, k).1)
  }

  /** The number of offsets among 0..i-1 that reach a valid cell. */
  function CountBelow(size: nat, g: Grid, p: Pos, i: nat): (c: nat)
    requires IsGrid(size, g) && i <= 8
    ensures c <= i
  {
    if i == 0 then 0
    else CountBelow(size, g, p, i - 1) + (if OffsetOpen(size, g, p, i - 1) then 1 else 0)
  }

  /** The degree of `p`: how many of the eight offsets reach a valid cell. */
  function Degree(size: nat, g: Grid, p: Pos): (d: nat)
    requires IsGrid(size, g)
    ensures d <= 8
  {
    CountBelow(size, g, p, 8)
  }

  /** The number of offsets among 0..i-1 from `p` that reach a board cell
      other than `c`. */
  function OpenCountBeside(size: nat, c: Pos, p: Pos, i: nat): nat
    requires i <= 8
  {
    if i == 0 then 0
    else OpenCountBeside(size, c, p, i - 1) + OpenBeside(size, c, p, i - 1)
  }

  /** Whether offset `k` from `p` reaches a board cell other than `c`, as 1 or 0. */
  function OpenBeside(size: nat, c: Pos, p: Pos, k: int): nat
    requires 0 <= k < 8
  {
    if InBoard(size, Target(p, k)) && Target(p, k) != c then 1 else 0
  }

  /** The count over all eight offsets, written out as a sum. */
  lemma OpenCountBesideSum(size: nat, c: Pos, p: Pos)
    ensures OpenCountBeside(size, c, p, 8) ==
      OpenBeside(size, c, p, 0) + OpenBeside(size, c, p, 1) + OpenBeside(size, c, p, 2) + OpenBeside(size, c, p, 3) +
      OpenBeside(size, c, p, 4) + OpenBeside(size, c, p, 5) + OpenBeside(size, c, p, 6) + OpenBeside(size, c, p, 7)
  {
    assert OpenCountBeside(size, c, p, 1) == OpenBeside(size, c, p, 0);
    assert OpenCountBeside(size, c, p, 2) == OpenCountBeside(size, c, p, 1) + OpenBeside(size, c, p, 1);
    assert OpenCountBeside(size, c, p, 3) == OpenCountBeside(size, c, p, 2) + OpenBeside(size, c, p, 2);
    assert OpenCountBeside(size, c, p, 4) == OpenCountBeside(size, c, p, 3) + OpenBeside(size, c, p, 3);
    assert OpenCountBeside(size, c, p, 5) == OpenCountBeside(size, c, p, 4) + OpenBeside(size, c, p, 4);
    assert OpenCountBeside(size, c, p, 6) == OpenCountBeside(size, c, p, 5) + OpenBeside(size, c, p, 5);
    assert OpenCountBeside(size, c, p, 7) == OpenCountBeside(size, c, p, 6) + OpenBeside(size, c, p, 6);
  }

  /** Once only the start cell `c` is visited, an offset is open exactly
      when it reaches a board cell other than `c`. */
  lemma OffsetOpenAfterStart(size: nat, c: Pos, p: Pos, k: int)
    requires 0 <= k < 8
    ensures OffsetOpen(size, BoardOf(size, [c]), p, k) <==> OpenBeside(size, c, p, k) == 1
  {
    ValidMoveIffUnvisited(size, [c], Target(p, k).0, Target(p, k).1);
  }

  /** Once only the start cell `c` is visited, a cell's degree counts the
      offsets reaching a board cell other than `c`. */
  lemma {:induction false} DegreeAfterStart(size: nat, c: Pos, p: Pos, i: nat)
    requires i <= 8
    ensures CountBelow(size, BoardOf(size, [c]), p, i) == OpenCountBeside(size, c, p, i)
  {
    if i > 0 {
      DegreeAfterStart(size, c, p, i - 1);
      var t := Target(p, i - 1);
      ValidMoveIffUnvisited(size, [c], t.0, t.1);
    }
  }

  /** The open offsets among 0..i-1, collected one offset at a time. */
  ghost function OpenOffsetsBelow(size: nat, g: Grid, p: Pos, i: nat): set<int>
    requires IsGrid(size, g) && i <= 8
  {
    if i == 0 then {}
    else OpenOffsetsBelow(size, g, p, i - 1) + (if OffsetOpen(size, g, p, i - 1) then {i - 1} else {})
  }

  lemma {:induction false} OpenOffsetsBelowMembers(size: nat, g: Grid, p: Pos, i: nat, k: int)
    requires IsGrid(size, g) && i <= 8
    ensures k in OpenOffsetsBelow(size, g, p, i) <==> 0 <= k < i && OffsetOpen(size, g, p, k)
  {
    if i > 0 {
      OpenOffsetsBelowMembers(size, g, p, i - 1, k);
    }
  }

  lemma {:induction false} CountBelowIsCardinality(size: nat, g: Grid, p: Pos, i: nat)
    requires IsGrid(size, g) && i <= 8
    ensures CountBelow(size, g, p, i) == |OpenOffsetsBelow(size, g, p, i)|
  {
    if i > 0 {
      var below := OpenOffsetsBelow(size, g, p, i - 1);
      CountBelowIsCardinality(size, g, p, i - 1);
      if OffsetOpen(size, g, p, i - 1) {
        OpenOffsetsBelowMembers(size, g, p, i - 1, i - 1);
        assert |below + {i - 1}| == |below| + 1;
      } else {
        assert below + {} == below;
      }
    }
  }

  /** The degree is the number of offsets whose target is on the board and
      unvisited; it is zero exactly when no offset is open. */
  lemma DegreeCountsOpenOffsets(size: nat, g: Grid, p: Pos)
    requires IsGrid(size, g)
    ensures Degree(size, g, p) == |set k | 0 <= k < 8 && OffsetOpen(size, g, p, k)|
    ensures Degree(size, g, p) == 0 <==> forall k :: 0 <= k < 8 ==> !OffsetOpen(size, g, p, k)
  {
    CountBelowIsCardinality(size, g, p, 8);
    forall k: int
      ensures k in OpenOffsetsBelow(size, g, p, 8) <==> 0 <= k < 8 && OffsetOpen(size, g, p, k)
    {
      OpenOffsetsBelowMembers(size, g, p, 8, k);
    }
    assert OpenOffsetsBelow(size, g, p, 8) == set k | 0 <= k < 8 && OffsetOpen(size, g, p, k);
    if k :| 0 <= k < 8 && OffsetOpen(size, g, p, k) {
      assert k in OpenOffsetsBelow(size, g, p, 8);
    }
  }

  // ---------------------------------------------------------------------
  // Paths and the grid that records them
  // ---------------------------------------------------------------------

  predicate Distinct(s: seq<Pos>) {
    forall i, j :: 0 <= i < j < |s| ==> s[i] != s[j]
  }

  predicate OnBoard(size: nat, s: seq<Pos>) {
    forall k :: 0 <= k < |s| ==> InBoard(size, s[k])
  }

  ghost predicate IsKnightPath(s: seq<Pos>) {
    forall k :: 0 < k < |s| ==> KnightStep(s[k - 1], s[k])
  }

  /** A knight's tour of the board: every cell once, by knight moves. */
  ghost predicate IsTour(size: nat, s: seq<Pos>) {
    |s| == size * size && OnBoard(size, s) && Distinct(s) && IsKnightPath(s)
  }

  /** The index of the last occurrence of `p` in `s`, or -1: the value a
      cell holds after the cells of `s` are written in order. */
  function OrderOf(s: seq<Pos>, p: Pos): (r: int)
    ensures -1 <= r < |s|
    ensures r == -1 <==> p !in s
    ensures r >= 0 ==> s[r] == p && forall j :: r < j < |s| ==> s[j] != p
  {
    if |s| == 0 then -1
    else if s[|s| - 1] == p then |s| - 1
    else OrderOf(s[..|s| - 1], p)
  }

  /** The grid recording path `s`: each cell holds its order in `s`, or -1. */
  function BoardOf(size: nat, s: seq<Pos>): (g: Grid)
    ensures IsGrid(size, g)
  {
    seq(size, i => seq(size, j => OrderOf(s, (i, j))))
  }

  /** The grid in which no cell is visited. */
  function Blank(size: nat): (g: Grid)
    ensures IsGrid(size, g)
  {
    seq(size, i => seq(size, j => -1))
  }

  /** Writes `v` at cell `q` (board[x][y] = v). */
  function Place(g: Grid, q: Pos, v: int): Grid
    requires 0 <= q.0 < |g| && 0 <= q.1 < |g[q.0]|
  {
    g[q.0 := g[q.0][q.1 := v]]
  }

  lemma BoardOfCell(size: nat, s: seq<Pos>, x: int, y: int)
    requires 0 <= x < size && 0 <= y < size
    ensures BoardOf(size, s)[x][y] == OrderOf(s, (x, y))
  {
  }

  /** The empty path is recorded by the all -1 grid. */
  lemma BoardOfEmpty(size: nat)
    ensures BoardOf(size, []) == Blank(size)
  {
    var g, b := BoardOf(size, []), Blank(size);
    forall i | 0 <= i < size
      ensures g[i] == b[i]
    {
      assert forall j :: 0 <= j < size ==> g[i][j] == OrderOf([], (i, j)) == -1 == b[i][j];
    }
  }

  /** For a path of distinct cells on the board, the grid holds k at the
      k-th cell of the path and -1 at every cell not on it. */
  lemma BoardMatchesPath(size: nat, s: seq<Pos>)
    requires OnBoard(size, s) && Distinct(s)
    ensures forall k :: 0 <= k < |s| ==> BoardOf(size, s)[s[k].0][s[k].1] == k
    ensures forall x, y :: 0 <= x < size && 0 <= y < size && (x, y) !in s ==> BoardOf(size, s)[x][y] == -1
  {
    forall k | 0 <= k < |s|
      ensures BoardOf(size, s)[s[k].0][s[k].1] == k
    {
      BoardOfCell(size, s, s[k].0, s[k].1);
      var r := OrderOf(s, s[k]);
      assert r >= 0 && s[r] == s[k];
      assert r == k;
    }
  }

  /** On the grid recording `s`, a cell is a valid move exactly when it is
      on the board and not on `s`. */
  lemma ValidMoveIffUnvisited(size: nat, s: seq<Pos>, x: int, y: int)
    ensures IsValidMove(size, BoardOf(size, s), x, y) <==> InBoard(size, (x, y)) && (x, y) !in s
  {
  }

  /** A prefix of a path extended by the next cell is the longer prefix. */
  lemma PrefixExtend(s: seq<Pos>, m: nat)
    requires m < |s|
    ensures s[..m] + [s[m]] == s[..m + 1]
  {
  }

  /** Visiting one more cell writes its order into the grid. */
  lemma {:induction false} BoardOfAppend(size: nat, s: seq<Pos>, q: Pos)
    requires InBoard(size, q)
    ensures BoardOf(size, s + [q]) == Place(BoardOf(size, s), q, |s|)
  {
    var g, h := BoardOf(size, s + [q]), Place(BoardOf(size, s), q, |s|);
    assert (s + [q])[..|s|] == s;
    forall i | 0 <= i < size
      ensures g[i] == h[i]
    {
      forall j | 0 <= j < size
        ensures g[i][j] == h[i][j]
      {
        assert g[i][j] == OrderOf(s + [q], (i, j));
      }
    }
  }

  /** Undoing the last visit of a path of distinct cells resets that cell
      to -1 and leaves the rest of the grid as it was. */
  lemma BoardOfRemoveLast(size: nat, s: seq<Pos>)
    requires |s| > 0 && InBoard(size, s[|s| - 1]) && Distinct(s)
    ensures BoardOf(size, s[..|s| - 1]) == Place(BoardOf(size, s), s[|s| - 1], -1)
  {
    var p, q := s[..|s| - 1], s[|s| - 1];
    assert s == p + [q];
    BoardOfAppend(size, p, q);
    assert q !in p;
    var g, h := BoardOf(size, p), Place(BoardOf(size, s), q, -1);
    forall i | 0 <= i < size
      ensures g[i] == h[i]
    {
    }
  }

  /** Visiting an unvisited board cell keeps the path a path of distinct
      board cells whose grid is the old grid with the new cell numbered. */
  lemma VisitKeepsPath(size: nat, s: seq<Pos>, q: Pos)
    requires OnBoard(size, s) && Distinct(s) && InBoard(size, q) && q !in s
    ensures OnBoard(size, s + [q]) && Distinct(s + [q])
    ensures BoardOf(size, s + [q]) == Place(BoardOf(size, s), q, |s|)
  {
    BoardOfAppend(size, s, q);
  }

  /** Undoing the last visit keeps the path a path of distinct board cells
      whose grid is the old grid with that cell reset. */
  lemma UnvisitKeepsPath(size: nat, s: seq<Pos>)
    requires |s| > 0 && OnBoard(size, s) && Distinct(s)
    ensures OnBoard(size, s[..|s| - 1]) && Distinct(s[..|s| - 1])
    ensures BoardOf(size, s[..|s| - 1]) == Place(BoardOf(size, s), s[|s| - 1], -1)
  {
    BoardOfRemoveLast(size, s);
  }

  // ---------------------------------------------------------------------
  // A tour visits every cell
  // ---------------------------------------------------------------------

  ghost function Cells(size: nat): set<Pos> {
    set x, y | 0 <= x < size && 0 <= y < size :: (x, y)
  }

  ghost function RowsBelow(size: nat, r: nat): set<Pos> {
    set x, y | 0 <= x < r && 0 <= y < size :: (x, y)
  }

  ghost function RowPrefix(x: int, n: nat): set<Pos> {
    set y | 0 <= y < n :: (x, y)
  }

  lemma {:induction false} RowPrefixSize(x: int, n: nat)
    ensures |RowPrefix(x, n)| == n
  {
    if n > 0 {
      RowPrefixSize(x, n - 1);
      assert RowPrefix(x, n) == RowPrefix(x, n - 1) + {(x, n - 1)};
    } else {
      assert RowPrefix(x, 0) == {};
    }
  }

  lemma {:induction false} RowsBelowSize(size: nat, r: nat)
    ensures |RowsBelow(size, r)| == r * size
  {
    if r == 0 {
      assert RowsBelow(size, 0) == {};
    } else {
      RowsBelowSize(size, r - 1);
      RowPrefixSize(r - 1, size);
      assert RowsBelow(size, r) == RowsBelow(size, r - 1) + RowPrefix(r - 1, size);
      assert RowsBelow(size, r - 1) !! RowPrefix(r - 1, size);
      assert (r - 1) * size + size == r * size;
    }
  }

  ghost function Elements(s: seq<Pos>): set<Pos> {
    set k | 0 <= k < |s| :: s[k]
  }

  lemma {:induction false} DistinctElements(s: seq<Pos>)
    requires Distinct(s)
    ensures |Elements(s)| == |s|
  {
    if |s| == 0 {
      assert Elements(s) == {};
    } else {
      var p := s[..|s| - 1];
      DistinctElements(p);
      assert Elements(s) == Elements(p) + {s[|s| - 1]};
      assert s[|s| - 1] !in Elements(p);
    }
  }

  lemma SubsetOfSameSize(a: set<Pos>, b: set<Pos>)
    requires a <= b && |a| == |b|
    ensures a == b
  {
    var rest := b - a;
    assert b == a + rest && a !! rest;
    assert |rest| == 0;
    assert rest == {};
  }

  /** Pigeonhole: a path of size*size distinct cells of the board visits
      every cell of the board. */
  lemma FullPathCoversBoard(size: nat, s: seq<Pos>)
    requires |s| == size * size && OnBoard(size, s) && Distinct(s)
    ensures forall x, y :: 0 <= x < size && 0 <= y < size ==> (x, y) in s
  {
    DistinctElements(s);
    RowsBelowSize(size, size);
    assert RowsBelow(size, size) == Cells(size);
    assert Elements(s) <= Cells(size);
    SubsetOfSameSize(Elements(s), Cells(size));
    forall x, y | 0 <= x < size && 0 <= y < size
      ensures (x, y) in s
    {
      assert (x, y) in Elements(s);
    }
  }
}
