/** reconstructPath: walk a parent map back from a terminal cell. */
module Reconstruct {
  import opened Types
  import opened GridGraph

  /** A rank that drops from every cell to its parent (a cell that is its own
      parent is exempt). The loop of reconstructPath follows parents until it
      stops; a rank like this is why it does stop. Each search supplies one:
      DFS its visiting order, BFS the distance from the root, A* the g-score. */
  ghost predicate Ranked(parent: map<Pos, Pos>, rank: map<Pos, nat>) {
    forall k :: k in parent && k in rank && parent[k] != k ==> parent[k] in rank && rank[parent[k]] < rank[k]
  }

  /** The walk stops at `c` when `c` has no parent, when its parent is
      `start`, or when its parent is `c` itself. */
  predicate StopsAt(start: Pos, parent: map<Pos, Pos>, c: Pos) {
    c !in parent || parent[c] == start || parent[c] == c
  }

  /** The cells from where the walk stops up to `cur`: each is the parent of
      the next, only the first meets the stopping test, and the last is `cur`. */
  ghost function Chain(start: Pos, cur: Pos, parent: map<Pos, Pos>, rank: map<Pos, nat>): (r: seq<Pos>)
    requires Ranked(parent, rank) && cur in rank
    ensures |r| > 0 && r[|r| - 1] == cur
    ensures StopsAt(start, parent, r[0])
    ensures forall i :: 0 < i < |r| ==> !StopsAt(start, parent, r[i]) && parent[r[i]] == r[i - 1]
    ensures forall i :: 0 <= i < |r| ==> r[i] in rank
    decreases rank[cur]
  {
    if StopsAt(start, parent, cur) then [cur]
    else Chain(start, parent[cur], parent, rank) + [cur]
  }

  /** The loop of reconstructPath: prepend the current cell, stop on the
      three conditions, otherwise move to the parent. */
  method ReconstructPath(start: Pos, end: Pos, parentMap: map<Pos, Pos>, ghost rank: map<Pos, nat>)
    returns (path: seq<Pos>)
    requires Ranked(parentMap, rank) && end in rank
    ensures path == Chain(start, end, parentMap, rank)
  {
    path := [];
    var current := end;
    while true
      invariant current in rank
      invariant Chain(start, end, parentMap, rank) == Chain(start, current, parentMap, rank) + path
      decreases rank[current]
    {
      path := [current] + path;
      if StopsAt(start, parentMap, current) {
        break;
      }
      current := parentMap[current];
    }
  }

  /** A chain over a parent map whose links join adjacent passable cells is a
      walk; it leaves `start` out unless it is just `[start]`, and then the end
      is `start`. */
  lemma ChainIsPath(grid: Grid, rows: int, cols: int, start: Pos, end: Pos,
                    parent: map<Pos, Pos>, rank: map<Pos, nat>)
    requires WellFormed(grid, rows, cols) && Passable(grid, rows, cols, start)
    requires Ranked(parent, rank) && end in rank
    requires start in parent ==> parent[start] == start
    requires forall k :: k in parent && k != start ==> Adjacent(parent[k], k)
    requires forall k :: k in rank ==> Passable(grid, rows, cols, k) && (k !in parent ==> k == start)
    ensures PathFrom(grid, rows, cols, start, end, Chain(start, end, parent, rank))
  {
    var r := Chain(start, end, parent, rank);
    if start != end {
      assert forall i :: 0 < i < |r| ==> r[i] != start;
      assert r[0] != start by {
        if |r| > 1 {
          assert parent[r[1]] == r[0] && parent[r[1]] != start;
        }
      }
      assert parent[r[0]] == start;
      var w := [start] + r;
      forall i | 0 <= i < |w| - 1
        ensures Adjacent(w[i], w[i + 1])
      {
        if i > 0 {
          assert w[i] == r[i - 1] && w[i + 1] == r[i];
        }
      }
      assert WalkBetween(grid, rows, cols, w, start, end);
    }
  }

  /** When the rank counts steps from `start` (0 at `start`, one more than the
      parent elsewhere), the chain to `end` has exactly rank[end] cells. */
  lemma {:induction false} ChainLength(start: Pos, end: Pos, parent: map<Pos, Pos>, rank: map<Pos, nat>)
    requires Ranked(parent, rank) && end in rank && end != start
    requires start in rank && rank[start] == 0
    requires forall k :: k in parent && k in rank && k != start ==>
      parent[k] in rank && rank[k] == rank[parent[k]] + 1
    requires forall k :: k in rank && k !in parent ==> k == start
    ensures |Chain(start, end, parent, rank)| == rank[end]
    decreases rank[end]
  {
    if !StopsAt(start, parent, end) {
      ChainLength(start, parent[end], parent, rank);
    }
  }

  /** Every cell of a chain is its end or some cell's parent. */
  lemma ChainWithin(start: Pos, end: Pos, parent: map<Pos, Pos>, rank: map<Pos, nat>, s: set<Pos>)
    requires Ranked(parent, rank) && end in rank
    requires end in s && forall k :: k in parent ==> parent[k] in s
    ensures forall c :: c in Chain(start, end, parent, rank) ==> c in s
  {
    var r := Chain(start, end, parent, rank);
    forall c | c in r
      ensures c in s
    {
      var i :| 0 <= i < |r| && r[i] == c;
      if i < |r| - 1 {
        assert parent[r[i + 1]] == c;
      }
    }
  }
}
