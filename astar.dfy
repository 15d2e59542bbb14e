/** aStar: best-first search on f = g + h with the Manhattan heuristic, an
    open list scanned linearly for the lowest f, and a closed set whose
    cells are never updated again. */
module AStar {
  import opened Types
  import opened GridGraph
  import opened Reconstruct

  // ---------------------------------------------------------------------
  // The heuristic
  // ---------------------------------------------------------------------

  function Abs(x: int): nat {
    if x < 0 then -x else x
  }

  /** heuristic: the Manhattan distance from `c` to the end. It is zero
      exactly at the end. */
  function Heuristic(c: Pos, end: Pos): (h: nat)
    ensures h == 0 <==> c == end
  {
    Abs(c.row - end.row) + Abs(c.col - end.col)
  }

  /** One step changes the heuristic by at most one (it is consistent). */
  lemma HeuristicConsistent(a: Pos, b: Pos, end: Pos)
    requires Adjacent(a, b)
    ensures Heuristic(a, end) <= Heuristic(b, end) + 1
  {
  }

  /** Along a walk the heuristic drops by at most the number of steps. */
  lemma {:induction false} HeuristicAlongWalk(grid: Grid, rows: int, cols: int, w: seq<Pos>, end: Pos)
    requires WellFormed(grid, rows, cols) && IsWalk(grid, rows, cols, w)
    ensures Heuristic(w[0], end) <= |w| - 1 + Heuristic(w[|w| - 1], end)
    decreases |w|
  {
    if |w| > 1 {
      WalkSuffix(grid, rows, cols, w, 1);
      HeuristicAlongWalk(grid, rows, cols, w[1..], end);
      HeuristicConsistent(w[0], w[1], end);
    }
  }

  /** The heuristic never overestimates: no walk from `c` reaches the end in
      fewer steps. */
  lemma HeuristicAdmissible(grid: Grid, rows: int, cols: int, w: seq<Pos>, c: Pos, end: Pos)
    requires WellFormed(grid, rows, cols) && WalkBetween(grid, rows, cols, w, c, end)
    ensures Heuristic(c, end) <= |w| - 1
  {
    HeuristicAlongWalk(grid, rows, cols, w, end);
  }

  // ---------------------------------------------------------------------
  // Scores as the code reads them
  // ---------------------------------------------------------------------

  /** A score as the code compares it: a number, or Infinity. */
  datatype Score = Fin(n: nat) | Inf

  predicate Less(a: Score, b: Score) {
    a.Fin? && (b.Inf? || a.n < b.n)
  }

  /** `fScore.get(key) || Infinity`: a missing score and a score of 0 both
      read as Infinity. */
  function FRead(f: map<Pos, nat>, c: Pos): Score {
    if c in f && f[c] != 0 then Fin(f[c]) else Inf
  }

  /** `gScore.get(key) || 0`: a missing score reads as 0. */
  function GRead(g: map<Pos, nat>, c: Pos): nat {
    if c in g then g[c] else 0
  }

  // ---------------------------------------------------------------------
  // Selecting the open cell to expand
  // ---------------------------------------------------------------------

  /** `idx` is the first position of `open` whose score no other beats. */
  ghost predicate EarliestMinimum(open: seq<Pos>, f: map<Pos, nat>, idx: int) {
    && 0 <= idx < |open|
    && (forall j :: 0 <= j < |open| ==> !Less(FRead(f, open[j]), FRead(f, open[idx])))
    && (forall j :: 0 <= j < idx ==> Less(FRead(f, open[idx]), FRead(f, open[j])))
  }

  /** The selection loop of aStar: a linear scan that takes a candidate only
      when its score is strictly lower, so the earliest minimum wins. */
  method LowestF(openSet: seq<Pos>, fScore: map<Pos, nat>) returns (current: Pos, currentIndex: nat)
    requires |openSet| > 0
    ensures EarliestMinimum(openSet, fScore, currentIndex) && current == openSet[currentIndex]
  {
    current, currentIndex := openSet[0], 0;
    for i := 1 to |openSet|
      invariant currentIndex < i && current == openSet[currentIndex]
      invariant forall j :: 0 <= j < i ==> !Less(FRead(fScore, openSet[j]), FRead(fScore, current))
      invariant forall j :: 0 <= j < currentIndex ==> Less(FRead(fScore, current), FRead(fScore, openSet[j]))
    {
      var currentFScore := FRead(fScore, current);
      var candidateFScore := FRead(fScore, openSet[i]);
      if Less(candidateFScore, currentFScore) {
        current, currentIndex := openSet[i], i;
      }
    }
  }

  /** The scan's choice is determined: two earliest minima coincide. */
  lemma EarliestMinimumUnique(open: seq<Pos>, f: map<Pos, nat>, i: int, j: int)
    requires EarliestMinimum(open, f, i) && EarliestMinimum(open, f, j)
    ensures i == j
  {
    assert !Less(FRead(f, open[i]), FRead(f, open[j])) && !Less(FRead(f, open[j]), FRead(f, open[i]));
  }

  // ---------------------------------------------------------------------
  // Relaxing the neighbours of the expanded cell
  // ---------------------------------------------------------------------

  /** The g a neighbour is offered through `current`. */
  function Tentative(g: map<Pos, nat>, current: Pos): nat {
    GRead(g, current) + 1
  }

  /** The neighbour loop updates `k` exactly when it is not closed and is
      either not yet open or offered a strictly smaller g. */
  predicate Improves(k: Pos, current: Pos, closed: set<Pos>, open: seq<Pos>, g: map<Pos, nat>) {
    k !in closed && (k !in open || Tentative(g, current) < GRead(g, k))
  }

  /** The cells of `seen` the loop updates. */
  ghost function Improved(seen: seq<Pos>, current: Pos, closed: set<Pos>, open: seq<Pos>, g: map<Pos, nat>): set<Pos> {
    set k | k in seen && Improves(k, current, closed, open, g)
  }

  /** The cells of `seen` that the loop opens: neither closed nor open. */
  function Opened(seen: seq<Pos>, closed: set<Pos>, open: seq<Pos>): seq<Pos> {
    Outside(seen, closed + Elems(open))
  }

  /** After the neighbour loop has looked at `seen`: the new cells are
      appended to the open list in order, and exactly the improved cells
      of `seen` carry `current` as parent, the tentative g, and that g plus
      their heuristic as f. */
  ghost predicate Relaxed(current: Pos, end: Pos, seen: seq<Pos>, closed: set<Pos>,
                          open: seq<Pos>, g: map<Pos, nat>, f: map<Pos, nat>, parent: map<Pos, Pos>,
                          open': seq<Pos>, g': map<Pos, nat>, f': map<Pos, nat>, parent': map<Pos, Pos>) {
    && open' == open + Opened(seen, closed, open)
    && Rescored(current, end, Improved(seen, current, closed, open, g), Tentative(g, current),
                g, f, parent, g', f', parent')
  }

  /** Exactly the cells of `u` carry `current` as parent, g = `t` and
      f = `t` plus their heuristic; every other entry is as before. */
  ghost predicate Rescored(current: Pos, end: Pos, u: set<Pos>, t: nat,
                           g: map<Pos, nat>, f: map<Pos, nat>, parent: map<Pos, Pos>,
                           g': map<Pos, nat>, f': map<Pos, nat>, parent': map<Pos, Pos>) {
    && (forall k :: k in g' <==> k in g || k in u)
    && (forall k :: k in f' <==> k in f || k in u)
    && (forall k :: k in parent' <==> k in parent || k in u)
    && (forall k :: k in g' ==> g'[k] == if k in u then t else g[k])
    && (forall k :: k in f' ==> f'[k] == if k in u then t + Heuristic(k, end) else f[k])
    && (forall k :: k in parent' ==> parent'[k] == if k in u then current else parent[k])
  }

  /** Updating one more cell `n` extends the updated set by `n`. */
  lemma RescoredStep(current: Pos, end: Pos, u: set<Pos>, t: nat, n: Pos,
                     g: map<Pos, nat>, f: map<Pos, nat>, parent: map<Pos, Pos>,
                     g': map<Pos, nat>, f': map<Pos, nat>, parent': map<Pos, Pos>)
    requires Rescored(current, end, u, t, g, f, parent, g', f', parent')
    ensures Rescored(current, end, u + {n}, t, g, f, parent,
                     g'[n := t], f'[n := t + Heuristic(n, end)], parent'[n := current])
  {
    var u', g2, f2, p2 := u + {n}, g'[n := t], f'[n := t + Heuristic(n, end)], parent'[n := current];
    forall k | k in g2
      ensures g2[k] == if k in u' then t else g[k]
    {
      if k != n {
        assert k in g';
      }
    }
    forall k | k in f2
      ensures f2[k] == if k in u' then t + Heuristic(k, end) else f[k]
    {
      if k != n {
        assert k in f';
      }
    }
    forall k | k in p2
      ensures p2[k] == if k in u' then current else parent[k]
    {
      if k != n {
        assert k in parent';
      }
    }
  }

  /** A neighbour not seen before reads the same from the partly updated
      state as from the state before the loop. */
  lemma RelaxedUnseen(current: Pos, end: Pos, neighbors: seq<Pos>, i: nat, closed: set<Pos>,
                      open: seq<Pos>, g: map<Pos, nat>, f: map<Pos, nat>, parent: map<Pos, Pos>,
                      open': seq<Pos>, g': map<Pos, nat>, f': map<Pos, nat>, parent': map<Pos, Pos>)
    requires NoDup(neighbors) && current !in neighbors && i < |neighbors|
    requires Relaxed(current, end, neighbors[..i], closed, open, g, f, parent, open', g', f', parent')
    ensures neighbors[i] in open' <==> neighbors[i] in open
    ensures GRead(g', neighbors[i]) == GRead(g, neighbors[i])
    ensures Tentative(g', current) == Tentative(g, current)
  {
    var n := neighbors[i];
    assert n !in neighbors[..i];
    assert current !in neighbors[..i];
  }

  lemma ImprovedSnoc(seen: seq<Pos>, n: Pos, current: Pos, closed: set<Pos>, open: seq<Pos>, g: map<Pos, nat>)
    ensures Improved(seen + [n], current, closed, open, g) ==
      Improved(seen, current, closed, open, g) + (if Improves(n, current, closed, open, g) then {n} else {})
  {
  }

  /** One turn on a neighbour the loop leaves alone. */
  lemma RelaxedSkip(current: Pos, end: Pos, seen: seq<Pos>, n: Pos, closed: set<Pos>,
                    open: seq<Pos>, g: map<Pos, nat>, f: map<Pos, nat>, parent: map<Pos, Pos>,
                    open': seq<Pos>, g': map<Pos, nat>, f': map<Pos, nat>, parent': map<Pos, Pos>)
    requires !Improves(n, current, closed, open, g) && (n in closed || n in open)
    requires Relaxed(current, end, seen, closed, open, g, f, parent, open', g', f', parent')
    ensures Relaxed(current, end, seen + [n], closed, open, g, f, parent, open', g', f', parent')
  {
    OutsideSnoc(seen, n, closed + Elems(open));
    assert Opened(seen, closed, open) + [] == Opened(seen, closed, open);
    ImprovedSnoc(seen, n, current, closed, open, g);
    assert Improved(seen + [n], current, closed, open, g) == Improved(seen, current, closed, open, g);
  }

  /** One turn on an open neighbour offered a strictly smaller g. */
  lemma RelaxedImprove(current: Pos, end: Pos, seen: seq<Pos>, n: Pos, closed: set<Pos>,
                       open: seq<Pos>, g: map<Pos, nat>, f: map<Pos, nat>, parent: map<Pos, Pos>,
                       open': seq<Pos>, g': map<Pos, nat>, f': map<Pos, nat>, parent': map<Pos, Pos>)
    requires Improves(n, current, closed, open, g) && n in open
    requires Relaxed(current, end, seen, closed, open, g, f, parent, open', g', f', parent')
    ensures var t := Tentative(g, current);
      Relaxed(current, end, seen + [n], closed, open, g, f, parent,
              open', g'[n := t], f'[n := t + Heuristic(n, end)], parent'[n := current])
  {
    OutsideSnoc(seen, n, closed + Elems(open));
    assert Opened(seen, closed, open) + [] == Opened(seen, closed, open);
    UpdatedSnoc(current, end, seen, n, closed, open, g, f, parent, g', f', parent');
  }

  /** One turn on a neighbour neither closed nor open: it is appended to the
      open list and scored. */
  lemma RelaxedInsert(current: Pos, end: Pos, seen: seq<Pos>, n: Pos, closed: set<Pos>,
                      open: seq<Pos>, g: map<Pos, nat>, f: map<Pos, nat>, parent: map<Pos, Pos>,
                      open': seq<Pos>, g': map<Pos, nat>, f': map<Pos, nat>, parent': map<Pos, Pos>)
    requires n !in closed && n !in open
    requires Relaxed(current, end, seen, closed, open, g, f, parent, open', g', f', parent')
    ensures var t := Tentative(g, current);
      Relaxed(current, end, seen + [n], closed, open, g, f, parent,
              open' + [n], g'[n := t], f'[n := t + Heuristic(n, end)], parent'[n := current])
  {
    assert Opened(seen + [n], closed, open) == Opened(seen, closed, open) + [n] by {
      OutsideSnoc(seen, n, closed + Elems(open));
    }
    SnocAssoc(open, Opened(seen, closed, open), n);
    UpdatedSnoc(current, end, seen, n, closed, open, g, f, parent, g', f', parent');
  }

  /** The score part of a turn that updates `n`. */
  lemma UpdatedSnoc(current: Pos, end: Pos, seen: seq<Pos>, n: Pos, closed: set<Pos>,
                    open: seq<Pos>, g: map<Pos, nat>, f: map<Pos, nat>, parent: map<Pos, Pos>,
                    g': map<Pos, nat>, f': map<Pos, nat>, parent': map<Pos, Pos>)
    requires Improves(n, current, closed, open, g)
    requires Rescored(current, end, Improved(seen, current, closed, open, g), Tentative(g, current),
                      g, f, parent, g', f', parent')
    ensures var t := Tentative(g, current);
      Rescored(current, end, Improved(seen + [n], current, closed, open, g), t,
               g, f, parent, g'[n := t], f'[n := t + Heuristic(n, end)], parent'[n := current])
  {
    var u := Improved(seen, current, closed, open, g);
    ImprovedSnoc(seen, n, current, closed, open, g);
    assert Improved(seen + [n], current, closed, open, g) == u + {n};
    RescoredStep(current, end, u, Tentative(g, current), n, g, f, parent, g', f', parent');
  }

  /** What one turn of the neighbour loop does with `n`, whose standing
      (closed, open, g) is read from the state before the loop: a neighbour
      that Improves is appended to the open list unless already there and
      gets `current` as parent, the tentative g, and f = g + heuristic; any
      other neighbour leaves the state alone. */
  ghost predicate Turn(current: Pos, end: Pos, n: Pos, closed: set<Pos>, open: seq<Pos>, g: map<Pos, nat>,
                       openSet: seq<Pos>, gScore: map<Pos, nat>, fScore: map<Pos, nat>, parentMap: map<Pos, Pos>,
                       openSet': seq<Pos>, gScore': map<Pos, nat>, fScore': map<Pos, nat>, parentMap': map<Pos, Pos>) {
    var t := Tentative(g, current);
    if Improves(n, current, closed, open, g) then
      && openSet' == (if n in open then openSet else openSet + [n])
      && gScore' == gScore[n := t]
      && fScore' == fScore[n := t + Heuristic(n, end)]
      && parentMap' == parentMap[n := current]
    else
      openSet' == openSet && gScore' == gScore && fScore' == fScore && parentMap' == parentMap
  }

  /** One turn of the neighbour loop of aStar. A closed neighbour is
      skipped; otherwise the tentative g is the expanded cell's g plus one; a
      neighbour not yet open is appended to the open list, one already open
      is left alone unless the tentative g is strictly smaller; an updated
      neighbour gets `current` as parent, the tentative g, and f = g +
      heuristic. The neighbour reads the same from the partly updated state
      as from the state before the loop. */
  method RelaxNeighbor(current: Pos, end: Pos, neighbor: Pos, ghost closed: set<Pos>,
                       ghost open: seq<Pos>, ghost g: map<Pos, nat>, closedSet: set<Pos>,
                       openSet: seq<Pos>, gScore: map<Pos, nat>, fScore: map<Pos, nat>, parentMap: map<Pos, Pos>)
    returns (openSet': seq<Pos>, gScore': map<Pos, nat>, fScore': map<Pos, nat>, parentMap': map<Pos, Pos>)
    requires closedSet == closed
    requires (neighbor in openSet <==> neighbor in open) && GRead(gScore, neighbor) == GRead(g, neighbor)
    requires Tentative(gScore, current) == Tentative(g, current)
    ensures Turn(current, end, neighbor, closed, open, g, openSet, gScore, fScore, parentMap,
                 openSet', gScore', fScore', parentMap')
  {
    openSet', gScore', fScore', parentMap' := openSet, gScore, fScore, parentMap;
    if neighbor in closedSet {
      return;
    }

    var tentativeGScore := GRead(gScore, current) + 1;
    if neighbor !in openSet {
      openSet' := openSet + [neighbor];
    } else if tentativeGScore >= GRead(gScore, neighbor) {
      return;
    }

    parentMap' := parentMap[neighbor := current];
    gScore' := gScore[neighbor := tentativeGScore];
    fScore' := fScore[neighbor := tentativeGScore + Heuristic(neighbor, end)];
  }

  /** A turn as Turn says extends Relaxed by one neighbour. */
  lemma TurnRelaxed(current: Pos, end: Pos, seen: seq<Pos>, n: Pos, closed: set<Pos>,
                    open: seq<Pos>, g: map<Pos, nat>, f: map<Pos, nat>, parent: map<Pos, Pos>,
                    openSet: seq<Pos>, gScore: map<Pos, nat>, fScore: map<Pos, nat>, parentMap: map<Pos, Pos>,
                    openSet': seq<Pos>, gScore': map<Pos, nat>, fScore': map<Pos, nat>, parentMap': map<Pos, Pos>)
    requires Relaxed(current, end, seen, closed, open, g, f, parent, openSet, gScore, fScore, parentMap)
    requires Turn(current, end, n, closed, open, g, openSet, gScore, fScore, parentMap,
                  openSet', gScore', fScore', parentMap')
    ensures Relaxed(current, end, seen + [n], closed, open, g, f, parent, openSet', gScore', fScore', parentMap')
  {
    if !Improves(n, current, closed, open, g) {
      RelaxedSkip(current, end, seen, n, closed, open, g, f, parent, openSet, gScore, fScore, parentMap);
    } else if n in open {
      RelaxedImprove(current, end, seen, n, closed, open, g, f, parent, openSet, gScore, fScore, parentMap);
    } else {
      RelaxedInsert(current, end, seen, n, closed, open, g, f, parent, openSet, gScore, fScore, parentMap);
    }
  }

  /** The neighbour loop of aStar: every neighbour in turn, as RelaxNeighbor
      says. */
  method ExpandNeighbors(current: Pos, end: Pos, neighbors: seq<Pos>, closedSet: set<Pos>,
                         openSet: seq<Pos>, gScore: map<Pos, nat>, fScore: map<Pos, nat>,
                         parentMap: map<Pos, Pos>)
    returns (openSet': seq<Pos>, gScore': map<Pos, nat>, fScore': map<Pos, nat>, parentMap': map<Pos, Pos>)
    requires NoDup(neighbors) && current !in neighbors
    ensures Relaxed(current, end, neighbors, closedSet, openSet, gScore, fScore, parentMap,
                    openSet', gScore', fScore', parentMap')
  {
    openSet', gScore', fScore', parentMap' := openSet, gScore, fScore, parentMap;
    ghost var seen: seq<Pos> := [];
    for i := 0 to |neighbors|
      invariant seen == neighbors[..i]
      invariant Relaxed(current, end, seen, closedSet, openSet, gScore, fScore, parentMap,
                        openSet', gScore', fScore', parentMap')
    {
      SliceSnoc(neighbors, i);
      RelaxedUnseen(current, end, neighbors, i, closedSet, openSet, gScore, fScore, parentMap,
                    openSet', gScore', fScore', parentMap');
      ghost var open0, g0, f0, parent0 := openSet', gScore', fScore', parentMap';
      openSet', gScore', fScore', parentMap' :=
        RelaxNeighbor(current, end, neighbors[i], closedSet, openSet, gScore,
                      closedSet, openSet', gScore', fScore', parentMap');
      TurnRelaxed(current, end, seen, neighbors[i], closedSet, openSet, gScore, fScore, parentMap,
                  open0, g0, f0, parent0, openSet', gScore', fScore', parentMap');
      seen := seen + [neighbors[i]];
    }
    assert seen == neighbors;
  }

  // ---------------------------------------------------------------------
  // The loop invariant of aStar
  // ---------------------------------------------------------------------

  /** `cells` (visitedCells) lists the closed cells once each in closing
      order, start first; the open list holds distinct cells, none closed,
      and is just start before the first round. */
  ghost predicate Listed(start: Pos, cells: seq<Pos>, closed: set<Pos>, open: seq<Pos>) {
    && NoDup(cells) && (|cells| > 0 ==> cells[0] == start)
    && (forall c :: c in closed <==> c in cells)
    && NoDup(open) && (forall c :: c in open ==> c !in closed)
    && (cells == [] ==> open == [start])
  }

  /** The open and closed cells are exactly the scored ones, all passable;
      an open cell's f is its g plus its heuristic; start has g 0 and every
      other cell at least 1. */
  ghost predicate Scored(grid: Grid, rows: int, cols: int, start: Pos, end: Pos, closed: set<Pos>,
                         open: seq<Pos>, g: map<Pos, nat>, f: map<Pos, nat>)
    requires WellFormed(grid, rows, cols)
  {
    && (forall c :: c in g <==> c in open || c in closed)
    && (forall c :: c in g ==> Passable(grid, rows, cols, c))
    && (forall c :: c in open ==> c in g && c in f && f[c] == g[c] + Heuristic(c, end))
    && start in g && g[start] == 0
    && (forall c :: c in g && c != start ==> g[c] >= 1)
  }

  /** Start has no parent; every other scored cell has one: a closed cell
      next to it whose g is one less. */
  ghost predicate Parented(start: Pos, closed: set<Pos>, g: map<Pos, nat>, parent: map<Pos, Pos>) {
    && start !in parent
    && (forall k :: k in g && k != start ==> k in parent)
    && (forall k :: k in parent ==>
          && k in g && parent[k] in closed && parent[k] in g
          && Adjacent(parent[k], k) && g[k] == g[parent[k]] + 1)
  }

  /** Every neighbour of a closed cell is closed, or open with a g at most
      one more than the closed cell's. */
  ghost predicate Frontier(grid: Grid, rows: int, cols: int, closed: set<Pos>, open: seq<Pos>, g: map<Pos, nat>)
    requires WellFormed(grid, rows, cols)
  {
    forall c :: c in closed ==> forall n :: n in Neighbors(grid, rows, cols, c) ==>
      n in closed || (n in open && n in g && c in g && g[n] <= g[c] + 1)
  }

  /** A closed cell's g is no more than the steps of any walk to it. */
  ghost predicate Settled(grid: Grid, rows: int, cols: int, start: Pos, closed: set<Pos>, g: map<Pos, nat>)
    requires WellFormed(grid, rows, cols)
  {
    forall c :: c in closed && c in g ==> NoWalkShorterThan(grid, rows, cols, start, c, g[c] + 1)
  }

  /** What holds at the head of aStar's main loop. */
  ghost predicate Inv(grid: Grid, rows: int, cols: int, start: Pos, end: Pos, cells: seq<Pos>,
                      closed: set<Pos>, open: seq<Pos>, g: map<Pos, nat>, f: map<Pos, nat>, parent: map<Pos, Pos>)
    requires WellFormed(grid, rows, cols)
  {
    && Listed(start, cells, closed, open)
    && Scored(grid, rows, cols, start, end, closed, open, g, f)
    && Parented(start, closed, g, parent)
    && Frontier(grid, rows, cols, closed, open, g)
    && Settled(grid, rows, cols, start, closed, g)
    && end !in closed
  }

  lemma InvInit(grid: Grid, rows: int, cols: int, start: Pos, end: Pos)
    requires WellFormed(grid, rows, cols) && Passable(grid, rows, cols, start)
    ensures Inv(grid, rows, cols, start, end, [], {}, [start], map[start := 0],
                map[start := Heuristic(start, end)], map[])
  {
  }

  /** The first cell of a walk that is outside `closed`. */
  lemma {:induction false} FirstOutside(w: seq<Pos>, closed: set<Pos>) returns (i: nat)
    requires |w| > 0 && w[|w| - 1] !in closed
    ensures i < |w| && w[i] !in closed && forall j :: 0 <= j < i ==> w[j] in closed
    decreases |w|
  {
    if w[0] !in closed {
      i := 0;
    } else {
      var i' := FirstOutside(w[1..], closed);
      i := i' + 1;
      assert forall j :: 1 <= j < i ==> w[j] == w[1..][j - 1];
    }
  }

  /** The heart of A*'s optimality: the open cell with the lowest f already
      has the shortest g. Take any walk to it; its first cell outside the
      closed set is open with g at most its position on the walk (its
      predecessor is closed and settled), so its f is at most the walk's
      length plus the selected cell's heuristic; the selected cell's f is no
      larger, which bounds its g by the walk's length. */
  lemma SelectOptimal(grid: Grid, rows: int, cols: int, start: Pos, end: Pos, cells: seq<Pos>,
                      closed: set<Pos>, open: seq<Pos>, g: map<Pos, nat>, f: map<Pos, nat>,
                      parent: map<Pos, Pos>, idx: int)
    requires WellFormed(grid, rows, cols)
    requires Inv(grid, rows, cols, start, end, cells, closed, open, g, f, parent)
    requires EarliestMinimum(open, f, idx)
    ensures open[idx] in g
    ensures exists w :: WalkBetween(grid, rows, cols, w, start, open[idx]) && |w| - 1 == g[open[idx]]
    ensures NoWalkShorterThan(grid, rows, cols, start, open[idx], g[open[idx]] + 1)
  {
    var u := open[idx];
    assert u in g;
    ScoreWalk(grid, rows, cols, start, closed, g, parent, u);
    if cells != [] {
      assert start in closed by {
        assert cells[0] in cells;
      }
      forall w | WalkBetween(grid, rows, cols, w, start, u)
        ensures g[u] <= |w| - 1
      {
        SelectedBeatsWalk(grid, rows, cols, start, end, cells, closed, open, g, f, parent, idx, w);
      }
    }
  }

  /** Every scored cell's g is achieved: following its parents back gives
      a walk from start with exactly g steps. */
  lemma ScoreWalk(grid: Grid, rows: int, cols: int, start: Pos, closed: set<Pos>,
                  g: map<Pos, nat>, parent: map<Pos, Pos>, c: Pos)
    requires WellFormed(grid, rows, cols)
    requires Parented(start, closed, g, parent)
    requires (forall k :: k in g ==> Passable(grid, rows, cols, k)) && start in g && g[start] == 0
    requires c in g
    ensures exists w :: WalkBetween(grid, rows, cols, w, start, c) && |w| - 1 == g[c]
  {
    ChainIsPath(grid, rows, cols, start, c, parent, g);
    var path := Chain(start, c, parent, g);
    if c == start {
      assert WalkBetween(grid, rows, cols, [start], start, c);
    } else {
      ChainLength(start, c, parent, g);
      assert WalkBetween(grid, rows, cols, [start] + path, start, c);
    }
  }

  lemma SelectedBeatsWalk(grid: Grid, rows: int, cols: int, start: Pos, end: Pos, cells: seq<Pos>,
                closed: set<Pos>, open: seq<Pos>, g: map<Pos, nat>, f: map<Pos, nat>,
                parent: map<Pos, Pos>, idx: int, w: seq<Pos>)
    requires WellFormed(grid, rows, cols)
    requires Inv(grid, rows, cols, start, end, cells, closed, open, g, f, parent)
    requires EarliestMinimum(open, f, idx) && start in closed
    requires WalkBetween(grid, rows, cols, w, start, open[idx])
    ensures open[idx] in g && g[open[idx]] <= |w| - 1
  {
    var u := open[idx];
    var i := FirstOutside(w, closed);
    var v := w[i];
    var p := w[i - 1];
    WalkStep(grid, rows, cols, w, i - 1);
    assert v in open && g[v] <= g[p] + 1;
    WalkPrefix(grid, rows, cols, w, i);
    assert WalkBetween(grid, rows, cols, w[..i], start, p);
    assert g[p] <= i - 1;
    WalkSuffix(grid, rows, cols, w, i);
    HeuristicAlongWalk(grid, rows, cols, w[i..], end);
    assert Heuristic(v, end) <= |w| - 1 - i + Heuristic(u, end);
    var j :| 0 <= j < |open| && open[j] == v;
    assert f[v] == g[v] + Heuristic(v, end) && f[v] >= 1;
    assert !Less(FRead(f, open[j]), FRead(f, u));
    assert f[u] <= f[v];
  }

  /** Removing position `idx` from a list without duplicates removes
      exactly that cell. */
  lemma RemoveAt(open: seq<Pos>, idx: int)
    requires NoDup(open) && 0 <= idx < |open|
    ensures var mid := open[..idx] + open[idx + 1..];
      && NoDup(mid) && |mid| == |open| - 1
      && forall c :: c in mid <==> c in open && c != open[idx]
  {
    var mid := open[..idx] + open[idx + 1..];
    assert forall i :: 0 <= i < |mid| ==> mid[i] == if i < idx then open[i] else open[i + 1];
    forall c | c in open && c != open[idx]
      ensures c in mid
    {
      var i :| 0 <= i < |open| && open[i] == c;
      if i < idx {
        assert mid[i] == c;
      } else {
        assert mid[i - 1] == c;
      }
    }
  }

  /** What one round does to the state: `u`, chosen at `idx`, is closed and
      recorded, leaves the open list, and its neighbours are relaxed. */
  ghost predicate Round(grid: Grid, rows: int, cols: int, end: Pos, cells: seq<Pos>,
                        closed: set<Pos>, open: seq<Pos>, g: map<Pos, nat>, f: map<Pos, nat>,
                        parent: map<Pos, Pos>, idx: int,
                        cells': seq<Pos>, closed': set<Pos>, open': seq<Pos>,
                        g': map<Pos, nat>, f': map<Pos, nat>, parent': map<Pos, Pos>)
    requires WellFormed(grid, rows, cols)
  {
    && 0 <= idx < |open|
    && var u := open[idx];
    && cells' == cells + [u] && closed' == closed + {u}
    && Relaxed(u, end, Neighbors(grid, rows, cols, u), closed', open[..idx] + open[idx + 1..],
               g, f, parent, open', g', f', parent')
  }

  /** The cells a round updates: neighbours of `u` that are not closed. */
  lemma RoundUpdates(grid: Grid, rows: int, cols: int, start: Pos, end: Pos, cells: seq<Pos>,
                     closed: set<Pos>, open: seq<Pos>, g: map<Pos, nat>, f: map<Pos, nat>,
                     parent: map<Pos, Pos>, idx: int)
    requires WellFormed(grid, rows, cols)
    requires Listed(start, cells, closed, open) && 0 <= idx < |open|
    requires forall c :: c in g <==> c in open || c in closed
    ensures var u := open[idx];
      var mid := open[..idx] + open[idx + 1..];
      var ns := Neighbors(grid, rows, cols, u);
      var U := Improved(ns, u, closed + {u}, mid, g);
      && (forall c :: c in mid <==> c in open && c != u)
      && NoDup(mid)
      && (forall k :: k in U ==> k in ns && k !in closed && k != u && Adjacent(u, k) && Passable(grid, rows, cols, k))
      && (forall k :: k in U ==> k in mid || k !in g)
      && (forall k :: k in Opened(ns, closed + {u}, mid) <==> k in U && k !in mid)
      && NoDup(Opened(ns, closed + {u}, mid))
      && start in closed + {u}
  {
    var u := open[idx];
    RemoveAt(open, idx);
    NeighborsOrdered(grid, rows, cols, u);
    if cells != [] {
      assert cells[0] in cells;
    }
  }

  lemma ListedStep(grid: Grid, rows: int, cols: int, start: Pos, end: Pos, cells: seq<Pos>,
                   closed: set<Pos>, open: seq<Pos>, g: map<Pos, nat>, f: map<Pos, nat>,
                   parent: map<Pos, Pos>, idx: int,
                   cells': seq<Pos>, closed': set<Pos>, open': seq<Pos>,
                   g': map<Pos, nat>, f': map<Pos, nat>, parent': map<Pos, Pos>)
    requires WellFormed(grid, rows, cols)
    requires Listed(start, cells, closed, open) && (forall c :: c in g <==> c in open || c in closed)
    requires Round(grid, rows, cols, end, cells, closed, open, g, f, parent, idx, cells', closed', open', g', f', parent')
    ensures Listed(start, cells', closed', open')
  {
    var u := open[idx];
    var mid := open[..idx] + open[idx + 1..];
    var added := Opened(Neighbors(grid, rows, cols, u), closed', mid);
    RoundUpdates(grid, rows, cols, start, end, cells, closed, open, g, f, parent, idx);
    assert forall c :: c in cells ==> c !in [u];
    NoDupAppend(cells, [u]);
    NoDupAppend(mid, added);
  }

  lemma ScoredStep(grid: Grid, rows: int, cols: int, start: Pos, end: Pos, cells: seq<Pos>,
                   closed: set<Pos>, open: seq<Pos>, g: map<Pos, nat>, f: map<Pos, nat>,
                   parent: map<Pos, Pos>, idx: int,
                   cells': seq<Pos>, closed': set<Pos>, open': seq<Pos>,
                   g': map<Pos, nat>, f': map<Pos, nat>, parent': map<Pos, Pos>)
    requires WellFormed(grid, rows, cols)
    requires Listed(start, cells, closed, open) && Scored(grid, rows, cols, start, end, closed, open, g, f)
    requires Round(grid, rows, cols, end, cells, closed, open, g, f, parent, idx, cells', closed', open', g', f', parent')
    ensures Scored(grid, rows, cols, start, end, closed', open', g', f')
  {
    KeysScored(grid, rows, cols, start, end, cells, closed, open, g, f, parent, idx, cells', closed', open', g', f', parent');
    OpenScored(grid, rows, cols, start, end, cells, closed, open, g, f, parent, idx, cells', closed', open', g', f', parent');
  }

  /** After a round the scored cells are still the open and closed ones,
      all passable, with start at g 0 and the others at least 1. */
  lemma KeysScored(grid: Grid, rows: int, cols: int, start: Pos, end: Pos, cells: seq<Pos>,
                   closed: set<Pos>, open: seq<Pos>, g: map<Pos, nat>, f: map<Pos, nat>,
                   parent: map<Pos, Pos>, idx: int,
                   cells': seq<Pos>, closed': set<Pos>, open': seq<Pos>,
                   g': map<Pos, nat>, f': map<Pos, nat>, parent': map<Pos, Pos>)
    requires WellFormed(grid, rows, cols)
    requires Listed(start, cells, closed, open) && Scored(grid, rows, cols, start, end, closed, open, g, f)
    requires Round(grid, rows, cols, end, cells, closed, open, g, f, parent, idx, cells', closed', open', g', f', parent')
    ensures forall c :: c in g' <==> c in open' || c in closed'
    ensures forall c :: c in g' ==> Passable(grid, rows, cols, c)
    ensures start in g' && g'[start] == 0
    ensures forall c :: c in g' && c != start ==> g'[c] >= 1
  {
    var u := open[idx];
    var mid := open[..idx] + open[idx + 1..];
    var ns := Neighbors(grid, rows, cols, u);
    var U := Improved(ns, u, closed', mid, g);
    RoundUpdates(grid, rows, cols, start, end, cells, closed, open, g, f, parent, idx);
    assert open' == mid + Opened(ns, closed', mid);
    forall c
      ensures c in g' <==> c in open' || c in closed'
    {
      if c in U && c !in mid {
        assert c in Opened(ns, closed', mid);
      }
    }
    assert start !in U;
    forall c | c in g' && c != start
      ensures g'[c] >= 1
    {
      if c in U {
        assert g'[c] == Tentative(g, u) == g[u] + 1;
      }
    }
  }

  /** After a round every open cell has a g and an f, and its f is its g
      plus its heuristic. */
  lemma OpenScored(grid: Grid, rows: int, cols: int, start: Pos, end: Pos, cells: seq<Pos>,
                   closed: set<Pos>, open: seq<Pos>, g: map<Pos, nat>, f: map<Pos, nat>,
                   parent: map<Pos, Pos>, idx: int,
                   cells': seq<Pos>, closed': set<Pos>, open': seq<Pos>,
                   g': map<Pos, nat>, f': map<Pos, nat>, parent': map<Pos, Pos>)
    requires WellFormed(grid, rows, cols)
    requires Listed(start, cells, closed, open) && Scored(grid, rows, cols, start, end, closed, open, g, f)
    requires Round(grid, rows, cols, end, cells, closed, open, g, f, parent, idx, cells', closed', open', g', f', parent')
    ensures forall c :: c in open' ==> c in g' && c in f' && f'[c] == g'[c] + Heuristic(c, end)
  {
    var u := open[idx];
    var mid := open[..idx] + open[idx + 1..];
    var U := Improved(Neighbors(grid, rows, cols, u), u, closed', mid, g);
    RoundUpdates(grid, rows, cols, start, end, cells, closed, open, g, f, parent, idx);
    forall c | c in open'
      ensures c in g' && c in f' && f'[c] == g'[c] + Heuristic(c, end)
    {
      if c !in U {
        assert c in mid;
      }
    }
  }

  lemma ParentedStep(grid: Grid, rows: int, cols: int, start: Pos, end: Pos, cells: seq<Pos>,
                     closed: set<Pos>, open: seq<Pos>, g: map<Pos, nat>, f: map<Pos, nat>,
                     parent: map<Pos, Pos>, idx: int,
                     cells': seq<Pos>, closed': set<Pos>, open': seq<Pos>,
                     g': map<Pos, nat>, f': map<Pos, nat>, parent': map<Pos, Pos>)
    requires WellFormed(grid, rows, cols)
    requires Listed(start, cells, closed, open) && Scored(grid, rows, cols, start, end, closed, open, g, f)
    requires Parented(start, closed, g, parent)
    requires Round(grid, rows, cols, end, cells, closed, open, g, f, parent, idx, cells', closed', open', g', f', parent')
    ensures Parented(start, closed', g', parent')
  {
    var u := open[idx];
    var mid := open[..idx] + open[idx + 1..];
    var U := Improved(Neighbors(grid, rows, cols, u), u, closed', mid, g);
    RoundUpdates(grid, rows, cols, start, end, cells, closed, open, g, f, parent, idx);
    assert Tentative(g, u) == g[u] + 1;
    forall k | k in parent'
      ensures && k in g' && parent'[k] in closed' && parent'[k] in g'
              && Adjacent(parent'[k], k) && g'[k] == g'[parent'[k]] + 1
    {
      if k !in U {
        assert parent[k] in closed && parent[k] !in U;
      }
    }
  }

  lemma FrontierStep(grid: Grid, rows: int, cols: int, start: Pos, end: Pos, cells: seq<Pos>,
                     closed: set<Pos>, open: seq<Pos>, g: map<Pos, nat>, f: map<Pos, nat>,
                     parent: map<Pos, Pos>, idx: int,
                     cells': seq<Pos>, closed': set<Pos>, open': seq<Pos>,
                     g': map<Pos, nat>, f': map<Pos, nat>, parent': map<Pos, Pos>)
    requires WellFormed(grid, rows, cols)
    requires Listed(start, cells, closed, open) && Scored(grid, rows, cols, start, end, closed, open, g, f)
    requires Frontier(grid, rows, cols, closed, open, g)
    requires Round(grid, rows, cols, end, cells, closed, open, g, f, parent, idx, cells', closed', open', g', f', parent')
    ensures Frontier(grid, rows, cols, closed', open', g')
  {
    var u := open[idx];
    var mid := open[..idx] + open[idx + 1..];
    var ns := Neighbors(grid, rows, cols, u);
    var U := Improved(ns, u, closed', mid, g);
    RoundUpdates(grid, rows, cols, start, end, cells, closed, open, g, f, parent, idx);
    assert Tentative(g, u) == g[u] + 1;
    forall c, n | c in closed' && n in Neighbors(grid, rows, cols, c)
      ensures n in closed' || (n in open' && n in g' && c in g' && g'[n] <= g'[c] + 1)
    {
      if n !in closed' {
        if c == u {
          if n !in U {
            assert n in mid;
          }
        } else {
          assert n in open && n != u;
        }
      }
    }
  }

  /** A round leaves the closed cells off the open list, with their g and
      parent as they were. */
  lemma ClosedKept(grid: Grid, rows: int, cols: int, start: Pos, end: Pos, cells: seq<Pos>,
                   closed: set<Pos>, open: seq<Pos>, g: map<Pos, nat>, f: map<Pos, nat>,
                   parent: map<Pos, Pos>, idx: int,
                   cells': seq<Pos>, closed': set<Pos>, open': seq<Pos>,
                   g': map<Pos, nat>, f': map<Pos, nat>, parent': map<Pos, Pos>)
    requires WellFormed(grid, rows, cols)
    requires Listed(start, cells, closed, open) && (forall c :: c in g <==> c in open || c in closed)
    requires Round(grid, rows, cols, end, cells, closed, open, g, f, parent, idx, cells', closed', open', g', f', parent')
    ensures forall c :: c in closed' ==>
      && c !in open'
      && (c in g' <==> c in g) && (c in g ==> g'[c] == g[c])
      && (c in parent' <==> c in parent) && (c in parent ==> parent'[c] == parent[c])
  {
    RoundUpdates(grid, rows, cols, start, end, cells, closed, open, g, f, parent, idx);
  }

  lemma SettledStep(grid: Grid, rows: int, cols: int, start: Pos, u: Pos,
                    closed: set<Pos>, g: map<Pos, nat>, g': map<Pos, nat>)
    requires WellFormed(grid, rows, cols)
    requires Settled(grid, rows, cols, start, closed, g)
    requires u in g && NoWalkShorterThan(grid, rows, cols, start, u, g[u] + 1)
    requires forall c :: c in closed + {u} ==> (c in g' <==> c in g) && (c in g ==> g'[c] == g[c])
    ensures Settled(grid, rows, cols, start, closed + {u}, g')
  {
    forall c | c in closed + {u} && c in g'
      ensures NoWalkShorterThan(grid, rows, cols, start, c, g'[c] + 1)
    {
      assert g'[c] == g[c];
    }
  }

  /** One round of aStar that closes a cell other than the end keeps the
      invariant. */
  lemma InvStep(grid: Grid, rows: int, cols: int, start: Pos, end: Pos, cells: seq<Pos>,
                closed: set<Pos>, open: seq<Pos>, g: map<Pos, nat>, f: map<Pos, nat>,
                parent: map<Pos, Pos>, idx: int,
                cells': seq<Pos>, closed': set<Pos>, open': seq<Pos>,
                g': map<Pos, nat>, f': map<Pos, nat>, parent': map<Pos, Pos>)
    requires WellFormed(grid, rows, cols)
    requires Inv(grid, rows, cols, start, end, cells, closed, open, g, f, parent)
    requires EarliestMinimum(open, f, idx) && open[idx] != end
    requires Round(grid, rows, cols, end, cells, closed, open, g, f, parent, idx, cells', closed', open', g', f', parent')
    ensures Inv(grid, rows, cols, start, end, cells', closed', open', g', f', parent')
  {
    ListedStep(grid, rows, cols, start, end, cells, closed, open, g, f, parent, idx, cells', closed', open', g', f', parent');
    ScoredStep(grid, rows, cols, start, end, cells, closed, open, g, f, parent, idx, cells', closed', open', g', f', parent');
    ParentedStep(grid, rows, cols, start, end, cells, closed, open, g, f, parent, idx, cells', closed', open', g', f', parent');
    FrontierStep(grid, rows, cols, start, end, cells, closed, open, g, f, parent, idx, cells', closed', open', g', f', parent');
    ClosedKept(grid, rows, cols, start, end, cells, closed, open, g, f, parent, idx, cells', closed', open', g', f', parent');
    SelectOptimal(grid, rows, cols, start, end, cells, closed, open, g, f, parent, idx);
    SettledStep(grid, rows, cols, start, open[idx], closed, g, g');
  }

  /** The second half of a round of aStar: `current`, chosen at `idx`, not
      the end, already closed and spliced out of the open list, has its
      neighbours relaxed. The invariant carries over, and closed cells are
      never reopened, rescored or given a new parent. */
  method Expand(grid: Grid, rows: int, cols: int, ghost start: Pos, end: Pos, ghost cells: seq<Pos>,
                ghost closed: set<Pos>, ghost open: seq<Pos>, ghost idx: int, current: Pos,
                closedSet: set<Pos>, openSet: seq<Pos>, gScore: map<Pos, nat>, fScore: map<Pos, nat>,
                parentMap: map<Pos, Pos>)
    returns (openSet': seq<Pos>, gScore': map<Pos, nat>, fScore': map<Pos, nat>, parentMap': map<Pos, Pos>)
    requires WellFormed(grid, rows, cols)
    requires Inv(grid, rows, cols, start, end, cells, closed, open, gScore, fScore, parentMap)
    requires EarliestMinimum(open, fScore, idx) && current == open[idx] && current != end
    requires closedSet == closed + {current} && openSet == open[..idx] + open[idx + 1..]
    ensures Inv(grid, rows, cols, start, end, cells + [current], closedSet, openSet', gScore', fScore', parentMap')
    ensures forall c :: c in closedSet ==>
      && c !in openSet'
      && (c in gScore' <==> c in gScore) && (c in gScore ==> gScore'[c] == gScore[c])
      && (c in parentMap' <==> c in parentMap) && (c in parentMap ==> parentMap'[c] == parentMap[c])
  {
    var neighbors := GetNeighbors(current, grid, rows, cols);
    NeighborsOrdered(grid, rows, cols, current);
    openSet', gScore', fScore', parentMap' :=
      ExpandNeighbors(current, end, neighbors, closedSet, openSet, gScore, fScore, parentMap);
    InvStep(grid, rows, cols, start, end, cells, closed, open, gScore, fScore, parentMap, idx,
            cells + [current], closedSet, openSet', gScore', fScore', parentMap');
    ClosedKept(grid, rows, cols, start, end, cells, closed, open, gScore, fScore, parentMap, idx,
               cells + [current], closedSet, openSet', gScore', fScore', parentMap');
  }

  /** At the goal pop: the chain of parents is a walk from start to end whose
      length is the end's g, and no walk is shorter. */
  lemma FoundPath(grid: Grid, rows: int, cols: int, start: Pos, end: Pos, cells: seq<Pos>,
                  closed: set<Pos>, open: seq<Pos>, g: map<Pos, nat>, f: map<Pos, nat>,
                  parent: map<Pos, Pos>, idx: int)
    requires WellFormed(grid, rows, cols) && Passable(grid, rows, cols, start)
    requires Inv(grid, rows, cols, start, end, cells, closed, open, g, f, parent)
    requires EarliestMinimum(open, f, idx) && open[idx] == end
    ensures Ranked(parent, g) && end in g
    ensures var path := Chain(start, end, parent, g);
      && PathFrom(grid, rows, cols, start, end, path)
      && (forall c :: c in path ==> c in cells + [end])
      && (start != end ==> NoWalkShorterThan(grid, rows, cols, start, end, |path| + 1))
  {
    ChainIsPath(grid, rows, cols, start, end, parent, g);
    ChainWithin(start, end, parent, g, Elems(cells + [end]));
    if start != end {
      ChainLength(start, end, parent, g);
      SelectOptimal(grid, rows, cols, start, end, cells, closed, open, g, f, parent, idx);
    }
  }

  /** At the goal pop: the closed cells, with the end last, are listed once
      each from start, and every parent is one of them. */
  lemma FoundVisits(grid: Grid, rows: int, cols: int, start: Pos, end: Pos, cells: seq<Pos>,
                    closed: set<Pos>, open: seq<Pos>, g: map<Pos, nat>, f: map<Pos, nat>,
                    parent: map<Pos, Pos>, idx: int)
    requires WellFormed(grid, rows, cols)
    requires Inv(grid, rows, cols, start, end, cells, closed, open, g, f, parent)
    requires 0 <= idx < |open| && open[idx] == end
    ensures NoDup(cells + [end]) && (cells + [end])[0] == start
    ensures forall c :: c in cells + [end] ==> Passable(grid, rows, cols, c)
    ensures forall k :: k in parent ==> k != start && parent[k] in cells + [end] && Adjacent(parent[k], k)
  {
    assert forall c :: c in cells ==> c !in [end];
    NoDupAppend(cells, [end]);
    if cells == [] {
      assert open == [start];
    }
  }

  /** At the goal pop, the answer aStar returns: the recorded cells end
      with the end, and the path is the chain of parents, a shortest walk
      within them. */
  lemma FoundResult(grid: Grid, rows: int, cols: int, start: Pos, end: Pos, cells: seq<Pos>,
                    closed: set<Pos>, open: seq<Pos>, g: map<Pos, nat>, f: map<Pos, nat>,
                    parent: map<Pos, Pos>, idx: int, visited: seq<Pos>, path: seq<Pos>)
    requires WellFormed(grid, rows, cols) && Passable(grid, rows, cols, start)
    requires Inv(grid, rows, cols, start, end, cells, closed, open, g, f, parent)
    requires EarliestMinimum(open, f, idx) && open[idx] == end
    requires visited == cells + [end]
    requires Ranked(parent, g) && end in g && path == Chain(start, end, parent, g)
    ensures Reachable(grid, rows, cols, start, end)
    ensures NoDup(visited) && |visited| > 0 && visited[0] == start
    ensures forall c :: c in visited ==> Passable(grid, rows, cols, c)
    ensures forall k :: k in parent ==> k != start && parent[k] in visited && Adjacent(parent[k], k)
    ensures visited[|visited| - 1] == end
    ensures PathFrom(grid, rows, cols, start, end, path) && forall c :: c in path ==> c in visited
    ensures start != end ==> NoWalkShorterThan(grid, rows, cols, start, end, |path| + 1)
  {
    FoundPath(grid, rows, cols, start, end, cells, closed, open, g, f, parent, idx);
    FoundVisits(grid, rows, cols, start, end, cells, closed, open, g, f, parent, idx);
    PathFromReachable(grid, rows, cols, start, end, path);
  }

  /** An emptied open list leaves a closed set that holds start, not the
      end, and every neighbour of its cells. */
  lemma Exhausted(grid: Grid, rows: int, cols: int, start: Pos, end: Pos, cells: seq<Pos>,
                  closed: set<Pos>, g: map<Pos, nat>, f: map<Pos, nat>, parent: map<Pos, Pos>)
    requires WellFormed(grid, rows, cols)
    requires Inv(grid, rows, cols, start, end, cells, closed, [], g, f, parent)
    ensures !Reachable(grid, rows, cols, start, end)
    ensures |cells| > 0 && cells[0] == start
  {
    assert cells[0] in cells;
    ClosedSetSeparates(grid, rows, cols, closed, start, end);
  }

  /** aStar: repeatedly take the earliest open cell of lowest f, splice it
      out, close and record it; stop at the end, or else relax its
      neighbours. */
  method AStar(grid: Grid, start: Pos, end: Pos, rows: int, cols: int)
    returns (result: SearchResult, ghost parents: map<Pos, Pos>, ghost g: map<Pos, nat>)
    requires WellFormed(grid, rows, cols) && Passable(grid, rows, cols, start)
    ensures result.found <==> Reachable(grid, rows, cols, start, end)
    ensures NoDup(result.visitedCells) && |result.visitedCells| > 0 && result.visitedCells[0] == start
    ensures forall c :: c in result.visitedCells ==> Passable(grid, rows, cols, c)
    ensures forall k :: k in parents ==>
      k != start && parents[k] in result.visitedCells && Adjacent(parents[k], k)
    ensures result.found ==>
      && result.visitedCells[|result.visitedCells| - 1] == end
      && Ranked(parents, g) && end in g
      && result.path == Chain(start, end, parents, g)
      && PathFrom(grid, rows, cols, start, end, result.path)
      && (forall c :: c in result.path ==> c in result.visitedCells)
    ensures result.found && start != end ==>
      NoWalkShorterThan(grid, rows, cols, start, end, |result.path| + 1)
    ensures !result.found ==> result.path == [] && end !in result.visitedCells
  {
    var openSet: seq<Pos> := [start];
    var closedSet: set<Pos> := {};
    var gScore: map<Pos, nat> := map[start := 0];
    var fScore: map<Pos, nat> := map[start := Heuristic(start, end)];
    var parentMap: map<Pos, Pos> := map[];
    var visitedCells: seq<Pos> := [];
    InvInit(grid, rows, cols, start, end);

    while |openSet| > 0
      invariant Inv(grid, rows, cols, start, end, visitedCells, closedSet, openSet, gScore, fScore, parentMap)
      decreases AllCells(rows, cols) - closedSet
    {
      var current, currentIndex := LowestF(openSet, fScore);
      ghost var cells0, closed0, open0 := visitedCells, closedSet, openSet;

      openSet := openSet[..currentIndex] + openSet[currentIndex + 1..];
      closedSet := closedSet + {current};
      visitedCells := visitedCells + [current];

      if current == end {
        FoundPath(grid, rows, cols, start, end, cells0, closed0, open0, gScore, fScore, parentMap, currentIndex);
        var path := ReconstructPath(start, end, parentMap, gScore);
        FoundResult(grid, rows, cols, start, end, cells0, closed0, open0, gScore, fScore, parentMap,
                    currentIndex, visitedCells, path);
        return SearchResult(path, visitedCells, true), parentMap, gScore;
      }

      openSet, gScore, fScore, parentMap := Expand(grid, rows, cols, start, end, cells0, closed0, open0,
                                                   currentIndex, current, closedSet, openSet,
                                                   gScore, fScore, parentMap);
      FewerUnvisited(grid, rows, cols, closed0, closedSet);
    }
    Exhausted(grid, rows, cols, start, end, visitedCells, closedSet, gScore, fScore, parentMap);
    return SearchResult([], visitedCells, false), parentMap, gScore;
  }
}
