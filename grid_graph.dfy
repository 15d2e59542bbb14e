/** The grid seen as a graph: bounds, walls, the four-neighbour adjacency that
    `getNeighbors` implements, and walks over it. */
module GridGraph {
  import opened Types

  /** `rows` and `cols` are the grid's real dimensions. */
  predicate WellFormed(grid: Grid, rows: int, cols: int) {
    rows == |grid| && forall r :: 0 <= r < |grid| ==> |grid[r]| == cols
  }

  predicate InBounds(rows: int, cols: int, p: Pos) {
    0 <= p.row < rows && 0 <= p.col < cols
  }

  /** A cell a search may enter: inside the grid and not a wall. */
  predicate Passable(grid: Grid, rows: int, cols: int, p: Pos)
    requires WellFormed(grid, rows, cols)
  {
    InBounds(rows, cols, p) && grid[p.row][p.col] != Wall
  }

  /** Four-connectivity: same row and neighbouring columns, or the other way round. */
  predicate Adjacent(p: Pos, q: Pos) {
    || (p.row == q.row && (p.col == q.col + 1 || q.col == p.col + 1))
    || (p.col == q.col && (p.row == q.row + 1 || q.row == p.row + 1))
  }

  /** Every cell of a `rows` by `cols` grid; the searches only ever record
      cells from here, which is what makes them terminate. */
  ghost function AllCells(rows: int, cols: int): (cells: set<Pos>)
    ensures forall p :: p in cells <==> InBounds(rows, cols, p)
  {
    set r, c | 0 <= r < rows && 0 <= c < cols :: Pos(r, c)
  }

  predicate NoDup(s: seq<Pos>) {
    forall i, j :: 0 <= i < j < |s| ==> s[i] != s[j]
  }

  /** Two duplicate-free sequences with no common element join without duplicates. */
  lemma NoDupAppend(a: seq<Pos>, b: seq<Pos>)
    requires NoDup(a) && NoDup(b) && forall x :: x in a ==> x !in b
    ensures NoDup(a + b)
  {
    forall i, j | 0 <= i < j < |a + b|
      ensures (a + b)[i] != (a + b)[j]
    {
      if i < |a| && j >= |a| {
        assert (a + b)[i] == a[i] && (a + b)[j] == b[j - |a|];
        assert a[i] in a;
      } else if i >= |a| {
        assert (a + b)[i] == b[i - |a|] && (a + b)[j] == b[j - |a|];
      } else {
        assert (a + b)[i] == a[i] && (a + b)[j] == a[j];
      }
    }
  }

  function Elems(s: seq<Pos>): (r: set<Pos>)
    ensures forall q :: q in r <==> q in s
  {
    set q | q in s
  }

  /** The elements of `s` that are not in `excluded`, in their order in `s`. */
  function Outside(s: seq<Pos>, excluded: set<Pos>): (r: seq<Pos>)
    ensures forall q :: q in r <==> q in s && q !in excluded
    ensures NoDup(s) ==> NoDup(r)
    ensures |r| <= |s|
  {
    if s == [] then []
    else
      var last := s[|s| - 1];
      var rest := Outside(s[..|s| - 1], excluded);
      assert forall q :: q in s <==> q in s[..|s| - 1] || q == last;
      rest + (if last in excluded then [] else [last])
  }

  /** Extending a sequence by one element extends its filtered copy by that
      element when it is not excluded. */
  lemma OutsideSnoc(s: seq<Pos>, x: Pos, excluded: set<Pos>)
    ensures Outside(s + [x], excluded) == Outside(s, excluded) + (if x in excluded then [] else [x])
  {
    assert (s + [x])[..|s + [x]| - 1] == s;
  }

  lemma SliceSnoc(s: seq<Pos>, i: nat)
    requires i < |s|
    ensures s[..i + 1] == s[..i] + [s[i]]
  {
  }

  lemma SnocAssoc(a: seq<Pos>, b: seq<Pos>, n: Pos)
    ensures (a + b) + [n] == a + (b + [n])
  {
  }

  /** In a sequence without repetition, no element occurs before itself. */
  lemma NoDupSlice(s: seq<Pos>, i: nat)
    requires NoDup(s) && i < |s|
    ensures s[i] !in s[..i]
  {
    forall j | 0 <= j < i
      ensures s[..i][j] != s[i]
    {
    }
  }

  /** Marking more cells visited leaves fewer cells of the grid unvisited;
      this is the measure that makes every search loop terminate. */
  lemma FewerUnvisited(grid: Grid, rows: int, cols: int, visited: set<Pos>, visited': set<Pos>)
    requires WellFormed(grid, rows, cols) && visited <= visited'
    requires forall c :: c in visited' ==> Passable(grid, rows, cols, c)
    ensures AllCells(rows, cols) - visited' <= AllCells(rows, cols) - visited
    ensures visited' != visited ==> AllCells(rows, cols) - visited' < AllCells(rows, cols) - visited
  {
    if visited' != visited {
      var n :| n in visited' && n !in visited;
      assert n in AllCells(rows, cols) - visited;
    }
  }

  // ---------------------------------------------------------------------
  // Neighbours (src/algorithms/pathfinding.ts, getNeighbors)
  // ---------------------------------------------------------------------

  /** The direction offsets in the order the source lists them: up, down, left, right. */
  const Directions: seq<(int, int)> := [(-1, 0), (1, 0), (0, -1), (0, 1)]

  /** Which of the four directions leads from `p` to `q` (0 up, 1 down, 2 left,
      3 right), or 4 when `q` is not next to `p`. */
  function DirectionIndex(p: Pos, q: Pos): nat {
    if q == Pos(p.row - 1, p.col) then 0
    else if q == Pos(p.row + 1, p.col) then 1
    else if q == Pos(p.row, p.col - 1) then 2
    else if q == Pos(p.row, p.col + 1) then 3
    else 4
  }

  /** The cells the neighbour loop has kept after trying the offsets `ds` in order. */
  function Scan(grid: Grid, rows: int, cols: int, p: Pos, ds: seq<(int, int)>): seq<Pos>
    requires WellFormed(grid, rows, cols)
  {
    if ds == [] then []
    else
      Scan(grid, rows, cols, p, ds[..|ds| - 1]) + Keep(grid, rows, cols, Step(p, ds[|ds| - 1]))
  }

  function Keep(grid: Grid, rows: int, cols: int, q: Pos): seq<Pos>
    requires WellFormed(grid, rows, cols)
  {
    if Passable(grid, rows, cols, q) then [q] else []
  }

  /** The neighbours of `p`: exactly the passable cells next to it, at most
      four of them, never `p` itself. NeighborsOrdered gives their order. */
  function Neighbors(grid: Grid, rows: int, cols: int, p: Pos): (ns: seq<Pos>)
    requires WellFormed(grid, rows, cols)
    ensures |ns| <= 4
    ensures forall q :: q in ns <==> Adjacent(p, q) && Passable(grid, rows, cols, q)
    ensures p !in ns
  {
    assert Directions[..4] == Directions;
    ScanDirections(grid, rows, cols, p, 4);
    AdjacentDirection(p);
    Scan(grid, rows, cols, p, Directions)
  }

  /** The neighbours come in the fixed order up, down, left, right, so none
      is listed twice. */
  lemma NeighborsOrdered(grid: Grid, rows: int, cols: int, p: Pos)
    requires WellFormed(grid, rows, cols)
    ensures var ns := Neighbors(grid, rows, cols, p);
      && (forall i, j :: 0 <= i < j < |ns| ==> DirectionIndex(p, ns[i]) < DirectionIndex(p, ns[j]))
      && NoDup(ns)
  {
    assert Directions[..4] == Directions;
    ScanDirections(grid, rows, cols, p, 4);
  }

  lemma AdjacentDirection(p: Pos)
    ensures forall q :: Adjacent(p, q) <==> DirectionIndex(p, q) < 4
  {
  }

  /** The offsets tried so far keep exactly the passable cells in those
      directions, in direction order. */
  lemma {:induction false} ScanDirections(grid: Grid, rows: int, cols: int, p: Pos, k: nat)
    requires WellFormed(grid, rows, cols) && k <= 4
    ensures var s := Scan(grid, rows, cols, p, Directions[..k]);
      && |s| <= k
      && (forall q :: q in s <==> DirectionIndex(p, q) < k && Passable(grid, rows, cols, q))
      && (forall i, j :: 0 <= i < j < |s| ==> DirectionIndex(p, s[i]) < DirectionIndex(p, s[j]))
  {
    if k > 0 {
      ScanDirections(grid, rows, cols, p, k - 1);
      assert Directions[..k][..k - 1] == Directions[..k - 1];
      var q := Step(p, Directions[k - 1]);
      var s0 := Scan(grid, rows, cols, p, Directions[..k - 1]);
      var s := Scan(grid, rows, cols, p, Directions[..k]);
      assert s == s0 + Keep(grid, rows, cols, q);
      forall r
        ensures DirectionIndex(p, r) == k - 1 <==> r == q
      {
        DirectionStep(p, r, k - 1);
      }
      OrderedAppend(p, s0, Keep(grid, rows, cols, q), k - 1);
    }
  }

  /** Cells in directions before `m`, in order, followed by at most one in
      direction `m`, are still in order. */
  lemma OrderedAppend(p: Pos, s0: seq<Pos>, extra: seq<Pos>, m: nat)
    requires forall i, j :: 0 <= i < j < |s0| ==> DirectionIndex(p, s0[i]) < DirectionIndex(p, s0[j])
    requires forall r :: r in s0 ==> DirectionIndex(p, r) < m
    requires |extra| <= 1 && forall r :: r in extra ==> DirectionIndex(p, r) == m
    ensures var s := s0 + extra;
      forall i, j :: 0 <= i < j < |s| ==> DirectionIndex(p, s[i]) < DirectionIndex(p, s[j])
  {
    var s := s0 + extra;
    forall i, j | 0 <= i < j < |s|
      ensures DirectionIndex(p, s[i]) < DirectionIndex(p, s[j])
    {
      assert s[i] == s0[i] && s0[i] in s0;
      if j >= |s0| {
        assert s[j] == extra[0];
      } else {
        assert s[j] == s0[j];
      }
    }
  }

  function Step(p: Pos, d: (int, int)): Pos {
    Pos(p.row + d.0, p.col + d.1)
  }

  lemma DirectionStep(p: Pos, r: Pos, i: nat)
    requires i < 4
    ensures DirectionIndex(p, r) == i <==> r == Step(p, Directions[i])
  {
  }

  /** The loop of getNeighbors: try each offset, keep the in-bounds non-wall cells. */
  method GetNeighbors(p: Pos, grid: Grid, rows: int, cols: int) returns (neighbors: seq<Pos>)
    requires WellFormed(grid, rows, cols)
    ensures neighbors == Neighbors(grid, rows, cols, p)
  {
    neighbors := [];
    var directions := Directions;
    for k := 0 to |directions|
      invariant neighbors == Scan(grid, rows, cols, p, directions[..k])
    {
      var (dRow, dCol) := directions[k];
      var newRow, newCol := p.row + dRow, p.col + dCol;
      assert directions[..k + 1][..k] == directions[..k];
      if 0 <= newRow && newRow < rows && 0 <= newCol && newCol < cols && grid[newRow][newCol] != Wall {
        neighbors := neighbors + [Pos(newRow, newCol)];
      }
    }
    assert directions[..|directions|] == directions;
  }

  // ---------------------------------------------------------------------
  // Walks
  // ---------------------------------------------------------------------

  /** A non-empty sequence of passable cells, each next to the one before. */
  ghost predicate IsWalk(grid: Grid, rows: int, cols: int, w: seq<Pos>)
    requires WellFormed(grid, rows, cols)
  {
    && |w| > 0
    && (forall i :: 0 <= i < |w| ==> Passable(grid, rows, cols, w[i]))
    && (forall i :: 0 <= i < |w| - 1 ==> Adjacent(w[i], w[i + 1]))
  }

  ghost predicate WalkBetween(grid: Grid, rows: int, cols: int, w: seq<Pos>, s: Pos, e: Pos)
    requires WellFormed(grid, rows, cols)
  {
    IsWalk(grid, rows, cols, w) && w[0] == s && w[|w| - 1] == e
  }

  ghost predicate Reachable(grid: Grid, rows: int, cols: int, s: Pos, e: Pos)
    requires WellFormed(grid, rows, cols)
  {
    exists w :: WalkBetween(grid, rows, cols, w, s, e)
  }

  /** The shape of the path DFS, BFS and A* return: `[start]` when start is the
      end, and otherwise a walk to `end` that leaves `start` off its front. */
  ghost predicate PathFrom(grid: Grid, rows: int, cols: int, start: Pos, end: Pos, path: seq<Pos>)
    requires WellFormed(grid, rows, cols)
  {
    if start == end then path == [start]
    else WalkBetween(grid, rows, cols, [start] + path, start, end)
  }

  /** No walk from `start` to `end` has fewer than `n` cells. */
  ghost predicate NoWalkShorterThan(grid: Grid, rows: int, cols: int, start: Pos, end: Pos, n: nat)
    requires WellFormed(grid, rows, cols)
  {
    forall w :: WalkBetween(grid, rows, cols, w, start, end) ==> |w| >= n
  }

  /** A set from which every neighbour of a member is again a member. */
  ghost predicate ClosedUnderNeighbors(grid: Grid, rows: int, cols: int, s: set<Pos>)
    requires WellFormed(grid, rows, cols)
  {
    forall x :: x in s ==> forall n :: n in Neighbors(grid, rows, cols, x) ==> n in s
  }

  function Reverse(s: seq<Pos>): (r: seq<Pos>)
    ensures |r| == |s|
    ensures forall i :: 0 <= i < |s| ==> r[i] == s[|s| - 1 - i]
  {
    if s == [] then [] else Reverse(s[1..]) + [s[0]]
  }

  lemma WalkStep(grid: Grid, rows: int, cols: int, w: seq<Pos>, i: nat)
    requires WellFormed(grid, rows, cols) && IsWalk(grid, rows, cols, w) && i + 1 < |w|
    ensures w[i + 1] in Neighbors(grid, rows, cols, w[i])
  {
    assert Adjacent(w[i], w[i + 1]) && Passable(grid, rows, cols, w[i + 1]);
  }

  lemma WalkPrefix(grid: Grid, rows: int, cols: int, w: seq<Pos>, n: nat)
    requires WellFormed(grid, rows, cols) && IsWalk(grid, rows, cols, w) && 0 < n <= |w|
    ensures IsWalk(grid, rows, cols, w[..n])
  {
  }

  lemma WalkSuffix(grid: Grid, rows: int, cols: int, w: seq<Pos>, n: nat)
    requires WellFormed(grid, rows, cols) && IsWalk(grid, rows, cols, w) && n < |w|
    ensures IsWalk(grid, rows, cols, w[n..])
  {
    forall i | 0 <= i < |w[n..]| - 1
      ensures Adjacent(w[n..][i], w[n..][i + 1])
    {
      assert w[n..][i] == w[n + i] && w[n..][i + 1] == w[n + i + 1];
    }
  }

  /** A walk that starts inside a set closed under neighbours never leaves it. */
  lemma {:induction false} WalkStaysIn(grid: Grid, rows: int, cols: int, s: set<Pos>, w: seq<Pos>)
    requires WellFormed(grid, rows, cols)
    requires ClosedUnderNeighbors(grid, rows, cols, s)
    requires IsWalk(grid, rows, cols, w) && w[0] in s
    ensures forall i :: 0 <= i < |w| ==> w[i] in s
  {
    if |w| > 1 {
      var n := |w| - 1;
      WalkPrefix(grid, rows, cols, w, n);
      WalkStaysIn(grid, rows, cols, s, w[..n]);
      assert w[n - 1] == w[..n][n - 1];
      WalkStep(grid, rows, cols, w, n - 1);
      forall i | 0 <= i < |w|
        ensures w[i] in s
      {
        if i < n {
          assert w[i] == w[..n][i];
        }
      }
    }
  }

  /** When a closed set holds `s` but not `e`, no walk joins them: this is how
      an exhausted search knows there is no path. */
  lemma ClosedSetSeparates(grid: Grid, rows: int, cols: int, s: set<Pos>, a: Pos, b: Pos)
    requires WellFormed(grid, rows, cols)
    requires ClosedUnderNeighbors(grid, rows, cols, s)
    requires a in s && b !in s
    ensures !Reachable(grid, rows, cols, a, b)
  {
    forall w | IsWalk(grid, rows, cols, w) && w[0] == a
      ensures w[|w| - 1] in s
    {
      WalkStaysIn(grid, rows, cols, s, w);
    }
  }

  /** Nor does any walk enter such a set from outside. */
  lemma ClosedSetSeparatesBack(grid: Grid, rows: int, cols: int, s: set<Pos>, a: Pos, b: Pos)
    requires WellFormed(grid, rows, cols)
    requires ClosedUnderNeighbors(grid, rows, cols, s)
    requires a in s && b !in s
    ensures !Reachable(grid, rows, cols, b, a)
  {
    forall w | IsWalk(grid, rows, cols, w) && w[|w| - 1] == a
      ensures w[0] in s
    {
      var r := Reverse(w);
      ReverseWalk(grid, rows, cols, w, w[0], a);
      WalkStaysIn(grid, rows, cols, s, r);
      assert r[|r| - 1] == w[0];
    }
  }

  /** Walks can be followed backwards. */
  lemma ReverseWalk(grid: Grid, rows: int, cols: int, w: seq<Pos>, a: Pos, b: Pos)
    requires WellFormed(grid, rows, cols) && WalkBetween(grid, rows, cols, w, a, b)
    ensures WalkBetween(grid, rows, cols, Reverse(w), b, a)
  {
    var r := Reverse(w);
    forall i | 0 <= i < |r| - 1
      ensures Adjacent(r[i], r[i + 1])
    {
      assert r[i] == w[|w| - 1 - i] && r[i + 1] == w[|w| - 1 - i - 1];
      assert Adjacent(w[|w| - 1 - i - 1], w[|w| - 1 - i]);
    }
  }

  /** Reachability is symmetric. */
  lemma ReachableSymmetric(grid: Grid, rows: int, cols: int, a: Pos, b: Pos)
    requires WellFormed(grid, rows, cols) && Reachable(grid, rows, cols, a, b)
    ensures Reachable(grid, rows, cols, b, a)
  {
    var w :| WalkBetween(grid, rows, cols, w, a, b);
    ReverseWalk(grid, rows, cols, w, a, b);
  }

  /** A path of the shape the searches return is a witness of reachability. */
  lemma PathFromReachable(grid: Grid, rows: int, cols: int, start: Pos, end: Pos, path: seq<Pos>)
    requires WellFormed(grid, rows, cols) && Passable(grid, rows, cols, start)
    requires PathFrom(grid, rows, cols, start, end, path)
    ensures Reachable(grid, rows, cols, start, end)
  {
    if start == end {
      assert WalkBetween(grid, rows, cols, [start], start, end);
    } else {
      assert WalkBetween(grid, rows, cols, [start] + path, start, end);
    }
  }
}
