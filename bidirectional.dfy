/** bidirectionalSearch: two breadth-first frontiers, one from start and one
    from end, advanced in lock-step until one dequeues a cell the other has
    already visited (src/algorithms/pathfinding.ts, lines 225-300). */
module Bidirectional {
  import opened Types
  import opened GridGraph
  import opened Reconstruct
  import opened Bfs

  // ---------------------------------------------------------------------
  // The order of visitedCells
  // ---------------------------------------------------------------------

  /** The cells the forward frontier dequeued (`f`) and those the backward
      frontier dequeued (`b`), merged in the order one round takes them:
      forward first, then backward. */
  function Alternate(f: seq<Pos>, b: seq<Pos>): (r: seq<Pos>)
    requires |b| <= |f| <= |b| + 1
    ensures |r| == |f| + |b|
    ensures forall i :: 0 <= i < |f| ==> r[2 * i] == f[i]
    ensures forall i :: 0 <= i < |b| ==> r[2 * i + 1] == b[i]
    decreases |f| + |b|
  {
    if |f| == 0 then []
    else if |f| > |b| then
      var f0 := f[..|f| - 1];
      assert forall i :: 0 <= i < |f0| ==> f0[i] == f[i];
      Alternate(f0, b) + [f[|f| - 1]]
    else
      var b0 := b[..|b| - 1];
      assert forall i :: 0 <= i < |b0| ==> b0[i] == b[i];
      Alternate(f, b0) + [b[|b| - 1]]
  }

  /** A forward step appends its cell. */
  lemma AlternateForward(f: seq<Pos>, b: seq<Pos>, x: Pos)
    requires |f| == |b|
    ensures Alternate(f + [x], b) == Alternate(f, b) + [x]
  {
    assert (f + [x])[..|f|] == f;
  }

  /** A backward step appends its cell. */
  lemma AlternateBackward(f: seq<Pos>, b: seq<Pos>, y: Pos)
    requires |f| == |b| + 1
    ensures Alternate(f, b + [y]) == Alternate(f, b) + [y]
  {
    assert (b + [y])[..|b|] == b;
  }

  // ---------------------------------------------------------------------
  // One frontier
  // ---------------------------------------------------------------------

  /** Every neighbour of a dequeued cell has been visited. */
  ghost predicate Explored(grid: Grid, rows: int, cols: int, done: seq<Pos>, visited: set<Pos>)
    requires WellFormed(grid, rows, cols)
  {
    forall x :: x in done ==> forall n :: n in Neighbors(grid, rows, cols, x) ==> n in visited
  }

  /** The state of one frontier rooted at `root`: the dequeued cells and the
      queue list the visited set once each in discovery order from the root;
      visited cells are passable; every visited cell but the root has a
      parent (the root has none: it is marked visited without one), which
      was dequeued before it, lies next to it and is one step nearer the root
      by the ghost distance `dist`; dequeued cells have had their neighbours
      visited. */
  ghost predicate Side(grid: Grid, rows: int, cols: int, root: Pos, done: seq<Pos>, queue: seq<Pos>,
                       visited: set<Pos>, parent: map<Pos, Pos>, dist: map<Pos, nat>)
    requires WellFormed(grid, rows, cols)
  {
    && Discovered(root, done, queue, visited)
    && (forall c :: c in visited ==> Passable(grid, rows, cols, c))
    && (forall c :: c in dist <==> c in visited) && root in dist && dist[root] == 0
    && (forall c :: c in parent <==> c in visited && c != root)
    && ParentsBehind(root, done, parent, dist)
    && Explored(grid, rows, cols, done, visited)
  }

  lemma SideInit(grid: Grid, rows: int, cols: int, root: Pos)
    requires WellFormed(grid, rows, cols) && Passable(grid, rows, cols, root)
    ensures Side(grid, rows, cols, root, [], [root], {root}, map[], map[root := 0])
  {
  }

  /** Parents lead to cells nearer the root, so reconstruction terminates;
      the dequeued cells are distinct, passable and start at the root. */
  lemma SideFacts(grid: Grid, rows: int, cols: int, root: Pos, done: seq<Pos>, queue: seq<Pos>,
                  visited: set<Pos>, parent: map<Pos, Pos>, dist: map<Pos, nat>)
    requires WellFormed(grid, rows, cols)
    requires Side(grid, rows, cols, root, done, queue, visited, parent, dist)
    ensures Ranked(parent, dist)
    ensures forall k :: k in parent ==> k != root && parent[k] in done && Adjacent(parent[k], k)
    ensures NoDup(done) && (|done| > 0 ==> done[0] == root)
    ensures forall c :: c in done ==> Passable(grid, rows, cols, c)
  {
    var order := done + queue;
    assert forall i :: 0 <= i < |done| ==> done[i] == order[i];
  }

  /** What reconstruction towards a visited cell needs. */
  lemma SideRanked(grid: Grid, rows: int, cols: int, root: Pos, done: seq<Pos>, queue: seq<Pos>,
                   visited: set<Pos>, parent: map<Pos, Pos>, dist: map<Pos, nat>, m: Pos)
    requires WellFormed(grid, rows, cols)
    requires Side(grid, rows, cols, root, done, queue, visited, parent, dist) && m in visited
    ensures Ranked(parent, dist) && m in dist
  {
  }

  /** The head of the queue, once dequeued, extends the dequeued cells
      without repetition. */
  lemma SideHead(grid: Grid, rows: int, cols: int, root: Pos, done: seq<Pos>, current: Pos, queue: seq<Pos>,
                 visited: set<Pos>, parent: map<Pos, Pos>, dist: map<Pos, nat>)
    requires WellFormed(grid, rows, cols)
    requires Side(grid, rows, cols, root, done, [current] + queue, visited, parent, dist)
    ensures NoDup(done + [current]) && (done + [current])[0] == root
    ensures current in visited && current in dist && Passable(grid, rows, cols, current)
  {
    var order := done + ([current] + queue);
    assert forall i :: 0 <= i <= |done| ==> (done + [current])[i] == order[i];
  }

  /** One dequeue-and-expand step of a frontier keeps its state. */
  lemma SideStep(grid: Grid, rows: int, cols: int, root: Pos, done: seq<Pos>, current: Pos, queue: seq<Pos>,
                 visited: set<Pos>, parent: map<Pos, Pos>, dist: map<Pos, nat>,
                 neighbors: seq<Pos>, visited': set<Pos>, parent': map<Pos, Pos>,
                 queue': seq<Pos>, dist': map<Pos, nat>)
    requires WellFormed(grid, rows, cols)
    requires Side(grid, rows, cols, root, done, [current] + queue, visited, parent, dist)
    requires neighbors == Neighbors(grid, rows, cols, current) && NoDup(neighbors)
    requires Enqueued(current, neighbors, visited, parent, queue, visited', parent', queue')
    requires dist' == Extend(dist, Outside(neighbors, visited), dist[current] + 1)
    ensures Side(grid, rows, cols, root, done + [current], queue', visited', parent', dist')
  {
    var q := [current] + queue;
    assert q[0] == current && q[1..] == queue;
    assert current in visited;
    DiscoveredStep(root, done, q, visited, neighbors, queue', visited');
    ParentsStep(grid, rows, cols, root, done, current, visited, parent, dist, neighbors, visited', parent', dist');
  }

  /** The neighbour half of one step of a frontier: the dequeued `current`
      has its unvisited neighbours marked visited, parented and queued, as
      in bfs. */
  method ExpandSide(grid: Grid, rows: int, cols: int, ghost root: Pos, ghost done: seq<Pos>,
                    current: Pos, visited: set<Pos>, parentMap: map<Pos, Pos>, queue: seq<Pos>,
                    ghost dist: map<Pos, nat>)
    returns (visited': set<Pos>, parentMap': map<Pos, Pos>, queue': seq<Pos>, ghost dist': map<Pos, nat>)
    requires WellFormed(grid, rows, cols)
    requires Side(grid, rows, cols, root, done, [current] + queue, visited, parentMap, dist)
    ensures Side(grid, rows, cols, root, done + [current], queue', visited', parentMap', dist')
    ensures visited' == visited + Elems(Neighbors(grid, rows, cols, current))
    ensures queue' == queue + Outside(Neighbors(grid, rows, cols, current), visited)
  {
    var neighbors := GetNeighbors(current, grid, rows, cols);
    assert NoDup(neighbors) by {
      NeighborsOrdered(grid, rows, cols, current);
    }
    ghost var discovered := Outside(neighbors, visited);
    visited', parentMap', queue' := EnqueueUnvisited(current, neighbors, visited, parentMap, queue);
    dist' := Extend(dist, discovered, dist[current] + 1);
    SideStep(grid, rows, cols, root, done, current, queue, visited, parentMap, dist,
             neighbors, visited', parentMap', queue', dist');
  }

  /** A frontier whose queue has run dry has dequeued a set closed under
      neighbours that holds its root; if the other root is not among its
      cells, no walk joins the two. */
  lemma SideExhausted(grid: Grid, rows: int, cols: int, root: Pos, other: Pos, done: seq<Pos>,
                      visited: set<Pos>, parent: map<Pos, Pos>, dist: map<Pos, nat>)
    requires WellFormed(grid, rows, cols)
    requires Side(grid, rows, cols, root, done, [], visited, parent, dist) && other !in done
    ensures ClosedUnderNeighbors(grid, rows, cols, Elems(done)) && root in done
    ensures !Reachable(grid, rows, cols, root, other) && !Reachable(grid, rows, cols, other, root)
  {
    assert done + [] == done;
    assert done[0] in done;
    ClosedSetSeparates(grid, rows, cols, Elems(done), root, other);
    ClosedSetSeparatesBack(grid, rows, cols, Elems(done), root, other);
  }

  // ---------------------------------------------------------------------
  // Joining the two halves
  // ---------------------------------------------------------------------

  /** The root that reconstruction towards `m` leaves off: none when `m` is
      the root itself, else the root. */
  function Dropped(root: Pos, m: Pos): (r: seq<Pos>)
    ensures |r| <= 1 && (r == [] <==> m == root)
  {
    if m == root then [] else [root]
  }

  /** A walk from `x` to `y` and one from `y` to `z` join into a walk from
      `x` to `z` that passes `y` once. */
  lemma WalkJoin(grid: Grid, rows: int, cols: int, a: seq<Pos>, b: seq<Pos>, x: Pos, y: Pos, z: Pos)
    requires WellFormed(grid, rows, cols)
    requires WalkBetween(grid, rows, cols, a, x, y) && WalkBetween(grid, rows, cols, b, y, z)
    ensures WalkBetween(grid, rows, cols, a + b[1..], x, z)
  {
    var w := a + b[1..];
    forall i | 0 <= i < |w|
      ensures Passable(grid, rows, cols, w[i])
    {
      if i >= |a| {
        assert w[i] == b[i - |a| + 1];
      }
    }
    forall i | 0 <= i < |w| - 1
      ensures Adjacent(w[i], w[i + 1])
    {
      if i == |a| - 1 {
        assert w[i] == b[0] && w[i + 1] == b[1];
      } else if i >= |a| {
        assert w[i] == b[i - |a| + 1] && w[i + 1] == b[i - |a| + 2];
      }
    }
    if |b| == 1 {
      assert w == a;
    } else {
      assert w[|w| - 1] == b[|b| - 1];
    }
  }

  /** Reversing a sequence with at most one cell in front puts that cell at
      the back. */
  lemma ReverseCons(s: seq<Pos>, d: seq<Pos>)
    requires |s| > 0 && |d| <= 1
    ensures Reverse(d + s)[1..] == Reverse(s)[1..] + d
  {
    if d == [] {
      assert d + s == s;
    } else {
      var l, r := Reverse(d + s)[1..], Reverse(s)[1..] + d;
      forall i | 0 <= i < |l|
        ensures l[i] == r[i]
      {
        assert l[i] == Reverse(d + s)[i + 1] == (d + s)[|s| - 1 - i];
        if i < |s| - 1 {
          assert r[i] == Reverse(s)[i + 1] == s[|s| - 2 - i];
        }
      }
    }
  }

  /** The path bidirectional search returns, with the roots it drops put
      back, is a walk from start to end: the forward reconstruction reaches
      the meeting cell from start, and the reversed backward reconstruction
      carries on from there to end. */
  lemma MeetWalk(grid: Grid, rows: int, cols: int, start: Pos, end: Pos, meet: Pos,
                 forward: seq<Pos>, backward: seq<Pos>)
    requires WellFormed(grid, rows, cols)
    requires Passable(grid, rows, cols, start) && Passable(grid, rows, cols, end)
    requires PathFrom(grid, rows, cols, start, meet, forward)
    requires PathFrom(grid, rows, cols, end, meet, backward)
    ensures |backward| > 0
    ensures WalkBetween(grid, rows, cols,
                        Dropped(start, meet) + (forward + Reverse(backward)[1..]) + Dropped(end, meet), start, end)
  {
    var wf := Dropped(start, meet) + forward;
    var wb := Dropped(end, meet) + backward;
    RootedWalk(grid, rows, cols, start, meet, forward);
    RootedWalk(grid, rows, cols, end, meet, backward);
    ReverseWalk(grid, rows, cols, wb, end, meet);
    WalkJoin(grid, rows, cols, wf, Reverse(wb), start, meet, end);
    ReverseCons(backward, Dropped(end, meet));
    Regroup(Dropped(start, meet), forward, Reverse(backward)[1..], Dropped(end, meet));
  }

  /** A reconstruction with its dropped root put back is a walk from the root. */
  lemma RootedWalk(grid: Grid, rows: int, cols: int, root: Pos, m: Pos, path: seq<Pos>)
    requires WellFormed(grid, rows, cols) && Passable(grid, rows, cols, root)
    requires PathFrom(grid, rows, cols, root, m, path)
    ensures |path| > 0 && WalkBetween(grid, rows, cols, Dropped(root, m) + path, root, m)
  {
    if root == m {
      assert Dropped(root, m) + path == [root];
    }
  }

  lemma Regroup(a: seq<Pos>, b: seq<Pos>, c: seq<Pos>, d: seq<Pos>)
    ensures (a + b) + (c + d) == a + (b + c) + d
  {
  }

  /** Both reconstructions, the backward one reversed and stripped of the
      meeting cell, joined. */
  method JoinPaths(start: Pos, end: Pos, current: Pos,
                   parentFromStart: map<Pos, Pos>, ghost rankF: map<Pos, nat>,
                   parentFromEnd: map<Pos, Pos>, ghost rankB: map<Pos, nat>)
    returns (fullPath: seq<Pos>)
    requires Ranked(parentFromStart, rankF) && current in rankF
    requires Ranked(parentFromEnd, rankB) && current in rankB
    ensures fullPath == Chain(start, current, parentFromStart, rankF)
                        + Reverse(Chain(end, current, parentFromEnd, rankB))[1..]
  {
    var pathFromStart := ReconstructPath(start, current, parentFromStart, rankF);
    var pathFromEnd := ReconstructPath(end, current, parentFromEnd, rankB);
    pathFromEnd := Reverse(pathFromEnd);
    pathFromEnd := pathFromEnd[1..];
    fullPath := pathFromStart + pathFromEnd;
  }

  /** One side's reconstruction towards a visited cell is a path from its
      root over dequeued cells and the cell itself. */
  lemma SideChain(grid: Grid, rows: int, cols: int, root: Pos, done: seq<Pos>, queue: seq<Pos>,
                  visited: set<Pos>, parent: map<Pos, Pos>, dist: map<Pos, nat>, m: Pos, cells: set<Pos>)
    requires WellFormed(grid, rows, cols) && Passable(grid, rows, cols, root)
    requires Side(grid, rows, cols, root, done, queue, visited, parent, dist)
    requires m in visited && m in cells && forall c :: c in done ==> c in cells
    ensures Ranked(parent, dist) && m in dist
    ensures PathFrom(grid, rows, cols, root, m, Chain(root, m, parent, dist))
    ensures forall c :: c in Chain(root, m, parent, dist) ==> c in cells
  {
    SideFacts(grid, rows, cols, root, done, queue, visited, parent, dist);
    ChainIsPath(grid, rows, cols, root, m, parent, dist);
    ChainWithin(root, m, parent, dist, cells);
  }

  /** At a meeting: the joined path, with its dropped roots, is a walk from
      start to end, and every cell on it was dequeued by one side or is the
      meeting cell. */
  lemma Met(grid: Grid, rows: int, cols: int, start: Pos, end: Pos, meet: Pos,
            parentF: map<Pos, Pos>, distF: map<Pos, nat>, parentB: map<Pos, Pos>, distB: map<Pos, nat>,
            cells: seq<Pos>, path: seq<Pos>)
    requires WellFormed(grid, rows, cols) && Passable(grid, rows, cols, start) && Passable(grid, rows, cols, end)
    requires Ranked(parentF, distF) && meet in distF && Ranked(parentB, distB) && meet in distB
    requires PathFrom(grid, rows, cols, start, meet, Chain(start, meet, parentF, distF))
    requires PathFrom(grid, rows, cols, end, meet, Chain(end, meet, parentB, distB))
    requires forall c :: c in Chain(start, meet, parentF, distF) ==> c in cells
    requires forall c :: c in Chain(end, meet, parentB, distB) ==> c in cells
    requires |cells| > 0 && meet == cells[|cells| - 1] && NoDup(cells[..|cells| - 1])
    requires path == Chain(start, meet, parentF, distF) + Reverse(Chain(end, meet, parentB, distB))[1..]
    ensures Meeting(grid, rows, cols, start, end, cells, meet, parentF, distF, parentB, distB, path)
  {
    var cf, cb := Chain(start, meet, parentF, distF), Chain(end, meet, parentB, distB);
    MeetWalk(grid, rows, cols, start, end, meet, cf, cb);
    var w := Dropped(start, meet) + path + Dropped(end, meet);
    assert WalkBetween(grid, rows, cols, w, start, end);
    ReverseWithin(cb, Elems(cells));
  }

  /** A dequeued cell both sides have visited joins the two frontiers: with
      it appended, the cells dequeued so far meet the meeting outcome. */
  lemma Joins(grid: Grid, rows: int, cols: int, start: Pos, end: Pos, cells: seq<Pos>, meet: Pos,
              doneF: seq<Pos>, queueF: seq<Pos>, visitedF: set<Pos>, parentF: map<Pos, Pos>, distF: map<Pos, nat>,
              doneB: seq<Pos>, queueB: seq<Pos>, visitedB: set<Pos>, parentB: map<Pos, Pos>, distB: map<Pos, nat>,
              path: seq<Pos>)
    requires WellFormed(grid, rows, cols) && Passable(grid, rows, cols, start) && Passable(grid, rows, cols, end)
    requires Side(grid, rows, cols, start, doneF, queueF, visitedF, parentF, distF)
    requires Side(grid, rows, cols, end, doneB, queueB, visitedB, parentB, distB)
    requires meet in visitedF && meet in visitedB
    requires NoDup(cells) && (forall c :: c in doneF ==> c in cells) && (forall c :: c in doneB ==> c in cells)
    requires path == Chain(start, meet, parentF, distF) + Reverse(Chain(end, meet, parentB, distB))[1..]
    ensures Meeting(grid, rows, cols, start, end, cells + [meet], meet, parentF, distF, parentB, distB, path)
  {
    var cells' := cells + [meet];
    SideChain(grid, rows, cols, start, doneF, queueF, visitedF, parentF, distF, meet, Elems(cells'));
    SideChain(grid, rows, cols, end, doneB, queueB, visitedB, parentB, distB, meet, Elems(cells'));
    assert cells'[..|cells|] == cells;
    Met(grid, rows, cols, start, end, meet, parentF, distF, parentB, distB, cells', path);
  }

  /** Reversal keeps the cells of a sequence. */
  lemma ReverseWithin(s: seq<Pos>, cells: set<Pos>)
    requires forall c :: c in s ==> c in cells
    ensures forall c :: c in Reverse(s) ==> c in cells
  {
    var r := Reverse(s);
    forall i | 0 <= i < |r|
      ensures r[i] in cells
    {
      assert r[i] == s[|s| - 1 - i];
    }
  }

  // ---------------------------------------------------------------------
  // The main loop
  // ---------------------------------------------------------------------

  /** What holds at the head of each round, and between its two halves:
      both frontiers are in order, visitedCells is their dequeued cells
      merged round by round, without repetition, and neither frontier has
      dequeued the other's root (it would have met there). */
  ghost predicate Inv(grid: Grid, rows: int, cols: int, start: Pos, end: Pos, cells: seq<Pos>,
                      doneF: seq<Pos>, queueF: seq<Pos>, visitedF: set<Pos>, parentF: map<Pos, Pos>, distF: map<Pos, nat>,
                      doneB: seq<Pos>, queueB: seq<Pos>, visitedB: set<Pos>, parentB: map<Pos, Pos>, distB: map<Pos, nat>)
    requires WellFormed(grid, rows, cols)
  {
    && Side(grid, rows, cols, start, doneF, queueF, visitedF, parentF, distF)
    && Side(grid, rows, cols, end, doneB, queueB, visitedB, parentB, distB)
    && |doneB| <= |doneF| <= |doneB| + 1 && cells == Alternate(doneF, doneB)
    && NoDup(cells) && (forall c :: c in cells <==> c in doneF || c in doneB)
    && end !in doneF && start !in doneB
    && Unseen(doneF, visitedB) && Unseen(doneB, visitedF)
  }

  /** Before the first round each frontier holds just its root. */
  lemma InvInit(grid: Grid, rows: int, cols: int, start: Pos, end: Pos)
    requires WellFormed(grid, rows, cols)
    requires Passable(grid, rows, cols, start) && Passable(grid, rows, cols, end)
    ensures Inv(grid, rows, cols, start, end, [], [], [start], {start}, map[], map[start := 0],
                [], [end], {end}, map[], map[end := 0])
  {
    SideInit(grid, rows, cols, start);
    SideInit(grid, rows, cols, end);
  }

  /** No cell one frontier has dequeued has been visited by the other: at
      the first such cell the search would have met. */
  ghost predicate Unseen(done: seq<Pos>, otherVisited: set<Pos>) {
    forall c :: c in done ==> c !in otherVisited
  }

  /** Expanding a cell the other side has not visited keeps both frontiers
      unseen by each other: a neighbour the other side had dequeued would
      have put the expanded cell in the other visited set. */
  lemma UnseenStep(grid: Grid, rows: int, cols: int, current: Pos, done: seq<Pos>, visited: set<Pos>,
                   otherDone: seq<Pos>, otherVisited: set<Pos>)
    requires WellFormed(grid, rows, cols) && Passable(grid, rows, cols, current)
    requires Unseen(done, otherVisited) && Unseen(otherDone, visited)
    requires Explored(grid, rows, cols, otherDone, otherVisited) && current !in otherVisited
    ensures Unseen(done + [current], otherVisited)
    ensures Unseen(otherDone, visited + Elems(Neighbors(grid, rows, cols, current)))
  {
    forall c | c in otherDone
      ensures c !in Neighbors(grid, rows, cols, current)
    {
      assert current !in Neighbors(grid, rows, cols, c);
    }
  }

  /** A forward half-round that does not meet keeps the invariant. */
  lemma ForwardStep(grid: Grid, rows: int, cols: int, start: Pos, end: Pos, cells: seq<Pos>, current: Pos,
                    doneF: seq<Pos>, queueF: seq<Pos>, visitedF: set<Pos>, parentF: map<Pos, Pos>, distF: map<Pos, nat>,
                    queueF': seq<Pos>, visitedF': set<Pos>, parentF': map<Pos, Pos>, distF': map<Pos, nat>,
                    doneB: seq<Pos>, queueB: seq<Pos>, visitedB: set<Pos>, parentB: map<Pos, Pos>, distB: map<Pos, nat>)
    requires WellFormed(grid, rows, cols)
    requires Inv(grid, rows, cols, start, end, cells, doneF, [current] + queueF, visitedF, parentF, distF,
                 doneB, queueB, visitedB, parentB, distB)
    requires |doneF| == |doneB| && current !in visitedB
    requires Side(grid, rows, cols, start, doneF + [current], queueF', visitedF', parentF', distF')
    requires visitedF' == visitedF + Elems(Neighbors(grid, rows, cols, current))
    ensures Inv(grid, rows, cols, start, end, cells + [current], doneF + [current], queueF', visitedF', parentF', distF',
                doneB, queueB, visitedB, parentB, distB)
  {
    SideHead(grid, rows, cols, start, doneF, current, queueF, visitedF, parentF, distF);
    UnseenStep(grid, rows, cols, current, doneF, visitedF, doneB, visitedB);
    NotBefore(doneF, current, queueF);
    assert forall c :: c in cells ==> c !in [current];
    NoDupAppend(cells, [current]);
    AlternateForward(doneF, doneB, current);
  }

  /** A backward half-round that does not meet keeps the invariant and
      completes the round. */
  lemma BackwardStep(grid: Grid, rows: int, cols: int, start: Pos, end: Pos, cells: seq<Pos>, current: Pos,
                     doneF: seq<Pos>, queueF: seq<Pos>, visitedF: set<Pos>, parentF: map<Pos, Pos>, distF: map<Pos, nat>,
                     doneB: seq<Pos>, queueB: seq<Pos>, visitedB: set<Pos>, parentB: map<Pos, Pos>, distB: map<Pos, nat>,
                     queueB': seq<Pos>, visitedB': set<Pos>, parentB': map<Pos, Pos>, distB': map<Pos, nat>)
    requires WellFormed(grid, rows, cols)
    requires Inv(grid, rows, cols, start, end, cells, doneF, queueF, visitedF, parentF, distF,
                 doneB, [current] + queueB, visitedB, parentB, distB)
    requires |doneF| == |doneB| + 1 && current !in visitedF
    requires Side(grid, rows, cols, end, doneB + [current], queueB', visitedB', parentB', distB')
    requires visitedB' == visitedB + Elems(Neighbors(grid, rows, cols, current))
    ensures Inv(grid, rows, cols, start, end, cells + [current], doneF, queueF, visitedF, parentF, distF,
                doneB + [current], queueB', visitedB', parentB', distB')
  {
    SideHead(grid, rows, cols, end, doneB, current, queueB, visitedB, parentB, distB);
    UnseenStep(grid, rows, cols, current, doneB, visitedB, doneF, visitedF);
    NotBefore(doneB, current, queueB);
    assert forall c :: c in cells ==> c !in [current];
    NoDupAppend(cells, [current]);
    AlternateBackward(doneF, doneB, current);
  }

  /** What every outcome of the search satisfies: the two frontiers
      dequeued `fwd` and `bwd` in lock-step, merged into `cells`; each
      starts at its root, repeats no cell and dequeues only passable ones,
      and every parent is a dequeued cell next to its child. */
  ghost predicate Lockstep(grid: Grid, rows: int, cols: int, start: Pos, end: Pos, cells: seq<Pos>,
                           fwd: seq<Pos>, bwd: seq<Pos>, parentsF: map<Pos, Pos>, parentsB: map<Pos, Pos>)
    requires WellFormed(grid, rows, cols)
  {
    && |bwd| <= |fwd| <= |bwd| + 1 && cells == Alternate(fwd, bwd)
    && |fwd| > 0 && fwd[0] == start && (|bwd| > 0 ==> bwd[0] == end)
    && NoDup(fwd) && NoDup(bwd) && NoDup(cells)
    && (forall c :: c in cells ==> Passable(grid, rows, cols, c))
    && (forall k :: k in parentsF ==> k != start && parentsF[k] in fwd && Adjacent(parentsF[k], k))
    && (forall k :: k in parentsB ==> k != end && parentsB[k] in bwd && Adjacent(parentsB[k], k))
  }

  /** The outcome of a meeting at `meet`: `cells` ends with `meet` and
      repeats nothing before it; `path` is the forward reconstruction
      followed by the reversed backward one without the meeting cell, and
      with the roots reconstruction drops put back it is a walk from start
      to end over cells the search dequeued. */
  ghost predicate Meeting(grid: Grid, rows: int, cols: int, start: Pos, end: Pos, cells: seq<Pos>, meet: Pos,
                          parentsF: map<Pos, Pos>, rankF: map<Pos, nat>,
                          parentsB: map<Pos, Pos>, rankB: map<Pos, nat>, path: seq<Pos>)
    requires WellFormed(grid, rows, cols)
  {
    && |cells| > 0 && meet == cells[|cells| - 1] && NoDup(cells[..|cells| - 1])
    && Ranked(parentsF, rankF) && meet in rankF
    && Ranked(parentsB, rankB) && meet in rankB
    && path == Chain(start, meet, parentsF, rankF) + Reverse(Chain(end, meet, parentsB, rankB))[1..]
    && WalkBetween(grid, rows, cols, Dropped(start, meet) + path + Dropped(end, meet), start, end)
    && Reachable(grid, rows, cols, start, end)
    && (forall c :: c in path ==> c in cells)
  }

  /** A forward half-round that meets leaves the frontiers in lock-step. */
  lemma ForwardMet(grid: Grid, rows: int, cols: int, start: Pos, end: Pos, cells: seq<Pos>, current: Pos,
                   doneF: seq<Pos>, queueF: seq<Pos>, visitedF: set<Pos>, parentF: map<Pos, Pos>, distF: map<Pos, nat>,
                   doneB: seq<Pos>, queueB: seq<Pos>, visitedB: set<Pos>, parentB: map<Pos, Pos>, distB: map<Pos, nat>)
    requires WellFormed(grid, rows, cols)
    requires Inv(grid, rows, cols, start, end, cells, doneF, [current] + queueF, visitedF, parentF, distF,
                 doneB, queueB, visitedB, parentB, distB)
    requires |doneF| == |doneB|
    ensures Lockstep(grid, rows, cols, start, end, cells + [current], doneF + [current], doneB, parentF, parentB)
  {
    SideFacts(grid, rows, cols, start, doneF, [current] + queueF, visitedF, parentF, distF);
    SideFacts(grid, rows, cols, end, doneB, queueB, visitedB, parentB, distB);
    SideHead(grid, rows, cols, start, doneF, current, queueF, visitedF, parentF, distF);
    NotBefore(doneF, current, queueF);
    assert forall c :: c in cells ==> c !in [current];
    NoDupAppend(cells, [current]);
    AlternateForward(doneF, doneB, current);
  }

  /** A backward half-round that meets leaves the frontiers in lock-step. */
  lemma BackwardMet(grid: Grid, rows: int, cols: int, start: Pos, end: Pos, cells: seq<Pos>, current: Pos,
                    doneF: seq<Pos>, queueF: seq<Pos>, visitedF: set<Pos>, parentF: map<Pos, Pos>, distF: map<Pos, nat>,
                    doneB: seq<Pos>, queueB: seq<Pos>, visitedB: set<Pos>, parentB: map<Pos, Pos>, distB: map<Pos, nat>)
    requires WellFormed(grid, rows, cols)
    requires Inv(grid, rows, cols, start, end, cells, doneF, queueF, visitedF, parentF, distF,
                 doneB, [current] + queueB, visitedB, parentB, distB)
    requires |doneF| == |doneB| + 1
    ensures Lockstep(grid, rows, cols, start, end, cells + [current], doneF, doneB + [current], parentF, parentB)
  {
    SideFacts(grid, rows, cols, start, doneF, queueF, visitedF, parentF, distF);
    SideFacts(grid, rows, cols, end, doneB, [current] + queueB, visitedB, parentB, distB);
    SideHead(grid, rows, cols, end, doneB, current, queueB, visitedB, parentB, distB);
    NotBefore(doneB, current, queueB);
    assert forall c :: c in cells ==> c !in [current];
    NoDupAppend(cells, [current]);
    AlternateBackward(doneF, doneB, current);
  }

  /** A cell listed once, after `done`, is not in `done`. */
  lemma NotBefore(done: seq<Pos>, x: Pos, rest: seq<Pos>)
    requires NoDup(done + ([x] + rest))
    ensures x !in done
  {
    var s := done + ([x] + rest);
    forall j | 0 <= j < |done|
      ensures done[j] != x
    {
      assert s[j] == done[j] && s[|done|] == x;
    }
  }

  /** Dequeuing a cell not dequeued before shrinks the cells still to
      dequeue; this is what makes the rounds terminate. */
  lemma Dequeued(rows: int, cols: int, done: seq<Pos>, x: Pos)
    requires InBounds(rows, cols, x) && x !in done
    ensures |AllCells(rows, cols) - Elems(done + [x])| < |AllCells(rows, cols) - Elems(done)|
  {
    var a := AllCells(rows, cols) - Elems(done);
    assert AllCells(rows, cols) - Elems(done + [x]) == a - {x};
    assert x in a;
  }

  /** A search that stops without meeting: one queue has run dry, the
      frontier it fed is closed under neighbours without the other root,
      and so no walk joins start to end. */
  lemma Apart(grid: Grid, rows: int, cols: int, start: Pos, end: Pos, cells: seq<Pos>,
              doneF: seq<Pos>, queueF: seq<Pos>, visitedF: set<Pos>, parentF: map<Pos, Pos>, distF: map<Pos, nat>,
              doneB: seq<Pos>, queueB: seq<Pos>, visitedB: set<Pos>, parentB: map<Pos, Pos>, distB: map<Pos, nat>)
    requires WellFormed(grid, rows, cols)
    requires Inv(grid, rows, cols, start, end, cells, doneF, queueF, visitedF, parentF, distF,
                 doneB, queueB, visitedB, parentB, distB)
    requires |doneF| == |doneB| && (|queueF| == 0 || |queueB| == 0)
    ensures Lockstep(grid, rows, cols, start, end, cells, doneF, doneB, parentF, parentB)
    ensures NoDup(cells) && !Reachable(grid, rows, cols, start, end)
    ensures (ClosedUnderNeighbors(grid, rows, cols, Elems(doneF)) && end !in doneF)
            || (ClosedUnderNeighbors(grid, rows, cols, Elems(doneB)) && start !in doneB)
  {
    if |queueF| == 0 {
      SideExhausted(grid, rows, cols, start, end, doneF, visitedF, parentF, distF);
    } else {
      SideExhausted(grid, rows, cols, end, start, doneB, visitedB, parentB, distB);
    }
    SideFacts(grid, rows, cols, start, doneF, queueF, visitedF, parentF, distF);
    SideFacts(grid, rows, cols, end, doneB, queueB, visitedB, parentB, distB);
  }

  /** The "expand from start" half of a round: dequeue the head of the
      forward queue and record it in visitedCells; if the backward side has
      visited it the frontiers meet and the path is joined there, otherwise
      its unvisited neighbours join the forward frontier. */
  method ForwardHalf(grid: Grid, rows: int, cols: int, start: Pos, end: Pos, visitedCells: seq<Pos>,
                     ghost doneF: seq<Pos>, queueF: seq<Pos>, visitedF: set<Pos>, parentF: map<Pos, Pos>,
                     ghost distF: map<Pos, nat>,
                     ghost doneB: seq<Pos>, ghost queueB: seq<Pos>, visitedB: set<Pos>, parentB: map<Pos, Pos>,
                     ghost distB: map<Pos, nat>)
    returns (current: Pos, met: bool, path: seq<Pos>, visitedCells': seq<Pos>, ghost doneF': seq<Pos>,
             queueF': seq<Pos>, visitedF': set<Pos>, parentF': map<Pos, Pos>, ghost distF': map<Pos, nat>)
    requires WellFormed(grid, rows, cols)
    requires Passable(grid, rows, cols, start) && Passable(grid, rows, cols, end)
    requires Inv(grid, rows, cols, start, end, visitedCells, doneF, queueF, visitedF, parentF, distF,
                 doneB, queueB, visitedB, parentB, distB)
    requires |doneF| == |doneB| && |queueF| > 0
    ensures current == queueF[0] && met == (current in visitedB)
    ensures doneF' == doneF + [current] && visitedCells' == visitedCells + [current]
    ensures met ==> Lockstep(grid, rows, cols, start, end, visitedCells', doneF', doneB, parentF', parentB)
    ensures met ==> Meeting(grid, rows, cols, start, end, visitedCells', current, parentF', distF', parentB, distB, path)
    ensures !met ==> Inv(grid, rows, cols, start, end, visitedCells', doneF', queueF', visitedF', parentF', distF',
                         doneB, queueB, visitedB, parentB, distB)
    ensures |AllCells(rows, cols) - Elems(doneF')| < |AllCells(rows, cols) - Elems(doneF)|
  {
    HeadTail(queueF);
    current := queueF[0];
    queueF' := queueF[1..];
    visitedCells' := visitedCells + [current];
    doneF' := doneF + [current];
    SideHead(grid, rows, cols, start, doneF, current, queueF', visitedF, parentF, distF);
    NotBefore(doneF, current, queueF');
    Dequeued(rows, cols, doneF, current);

    if current in visitedB {
      SideRanked(grid, rows, cols, start, doneF, queueF, visitedF, parentF, distF, current);
      SideRanked(grid, rows, cols, end, doneB, queueB, visitedB, parentB, distB, current);
      path := JoinPaths(start, end, current, parentF, distF, parentB, distB);
      ForwardMet(grid, rows, cols, start, end, visitedCells, current,
                 doneF, queueF', visitedF, parentF, distF,
                 doneB, queueB, visitedB, parentB, distB);
      Joins(grid, rows, cols, start, end, visitedCells, current,
            doneF, queueF, visitedF, parentF, distF,
            doneB, queueB, visitedB, parentB, distB, path);
      return current, true, path, visitedCells', doneF', queueF', visitedF, parentF, distF;
    }

    met, path := false, [];
    visitedF', parentF', queueF', distF' :=
      ExpandSide(grid, rows, cols, start, doneF, current, visitedF, parentF, queueF', distF);
    ForwardStep(grid, rows, cols, start, end, visitedCells, current,
                doneF, queueF[1..], visitedF, parentF, distF,
                queueF', visitedF', parentF', distF',
                doneB, queueB, visitedB, parentB, distB);
  }

  /** The "expand from end" half of a round, which completes it: the same
      for the backward frontier, meeting on a cell the forward side has
      visited. */
  method BackwardHalf(grid: Grid, rows: int, cols: int, start: Pos, end: Pos, visitedCells: seq<Pos>,
                      ghost doneF: seq<Pos>, ghost queueF: seq<Pos>, visitedF: set<Pos>, parentF: map<Pos, Pos>,
                      ghost distF: map<Pos, nat>,
                      ghost doneB: seq<Pos>, queueB: seq<Pos>, visitedB: set<Pos>, parentB: map<Pos, Pos>,
                      ghost distB: map<Pos, nat>)
    returns (current: Pos, met: bool, path: seq<Pos>, visitedCells': seq<Pos>, ghost doneB': seq<Pos>,
             queueB': seq<Pos>, visitedB': set<Pos>, parentB': map<Pos, Pos>, ghost distB': map<Pos, nat>)
    requires WellFormed(grid, rows, cols)
    requires Passable(grid, rows, cols, start) && Passable(grid, rows, cols, end)
    requires Inv(grid, rows, cols, start, end, visitedCells, doneF, queueF, visitedF, parentF, distF,
                 doneB, queueB, visitedB, parentB, distB)
    requires |doneF| == |doneB| + 1 && |queueB| > 0
    ensures current == queueB[0] && met == (current in visitedF)
    ensures doneB' == doneB + [current] && visitedCells' == visitedCells + [current]
    ensures met ==> Lockstep(grid, rows, cols, start, end, visitedCells', doneF, doneB', parentF, parentB')
    ensures met ==> Meeting(grid, rows, cols, start, end, visitedCells', current, parentF, distF, parentB', distB', path)
    ensures !met ==> Inv(grid, rows, cols, start, end, visitedCells', doneF, queueF, visitedF, parentF, distF,
                         doneB', queueB', visitedB', parentB', distB')
    ensures |AllCells(rows, cols) - Elems(doneB')| < |AllCells(rows, cols) - Elems(doneB)|
  {
    HeadTail(queueB);
    current := queueB[0];
    queueB' := queueB[1..];
    visitedCells' := visitedCells + [current];
    doneB' := doneB + [current];
    SideHead(grid, rows, cols, end, doneB, current, queueB', visitedB, parentB, distB);
    NotBefore(doneB, current, queueB');
    Dequeued(rows, cols, doneB, current);

    if current in visitedF {
      SideRanked(grid, rows, cols, start, doneF, queueF, visitedF, parentF, distF, current);
      SideRanked(grid, rows, cols, end, doneB, queueB, visitedB, parentB, distB, current);
      path := JoinPaths(start, end, current, parentF, distF, parentB, distB);
      BackwardMet(grid, rows, cols, start, end, visitedCells, current,
                  doneF, queueF, visitedF, parentF, distF,
                  doneB, queueB', visitedB, parentB, distB);
      Joins(grid, rows, cols, start, end, visitedCells, current,
            doneF, queueF, visitedF, parentF, distF,
            doneB, queueB, visitedB, parentB, distB, path);
      return current, true, path, visitedCells', doneB', queueB', visitedB, parentB, distB;
    }

    met, path := false, [];
    visitedB', parentB', queueB', distB' :=
      ExpandSide(grid, rows, cols, end, doneB, current, visitedB, parentB, queueB', distB);
    BackwardStep(grid, rows, cols, start, end, visitedCells, current,
                 doneF, queueF, visitedF, parentF, distF,
                 doneB, queueB[1..], visitedB, parentB, distB,
                 queueB', visitedB', parentB', distB');
  }

  /** bidirectionalSearch. Each round first advances the forward frontier by
      one dequeue and then the backward one; the search stops at the first
      dequeued cell the other side has visited, or as soon as either queue
      is empty. On a meeting the path is the forward reconstruction followed
      by the reversed backward one without the meeting cell, which is a walk
      from start to end once the two roots reconstruction drops are put back;
      otherwise one frontier has run dry without meeting the other's root,
      and there is no walk at all. */
  method BidirectionalSearch(grid: Grid, start: Pos, end: Pos, rows: int, cols: int)
    returns (result: SearchResult, ghost fwd: seq<Pos>, ghost bwd: seq<Pos>, ghost meet: Pos,
             ghost parentsF: map<Pos, Pos>, ghost rankF: map<Pos, nat>,
             ghost parentsB: map<Pos, Pos>, ghost rankB: map<Pos, nat>)
    requires WellFormed(grid, rows, cols)
    requires Passable(grid, rows, cols, start) && Passable(grid, rows, cols, end)
    ensures result.found <==> Reachable(grid, rows, cols, start, end)
    ensures Lockstep(grid, rows, cols, start, end, result.visitedCells, fwd, bwd, parentsF, parentsB)
    ensures result.found ==>
      Meeting(grid, rows, cols, start, end, result.visitedCells, meet, parentsF, rankF, parentsB, rankB, result.path)
    ensures !result.found ==>
      && result.path == []
      && ((ClosedUnderNeighbors(grid, rows, cols, Elems(fwd)) && end !in fwd)
          || (ClosedUnderNeighbors(grid, rows, cols, Elems(bwd)) && start !in bwd))
  {
    var visitedFromStart: set<Pos> := {start};
    var visitedFromEnd: set<Pos> := {end};
    var parentFromStart: map<Pos, Pos> := map[];
    var parentFromEnd: map<Pos, Pos> := map[];
    var queueFromStart: seq<Pos> := [start];
    var queueFromEnd: seq<Pos> := [end];
    var visitedCells: seq<Pos> := [];
    ghost var distF: map<Pos, nat> := map[start := 0];
    ghost var distB: map<Pos, nat> := map[end := 0];
    fwd, bwd := [], [];
    InvInit(grid, rows, cols, start, end);

    while |queueFromStart| > 0 && |queueFromEnd| > 0
      invariant Inv(grid, rows, cols, start, end, visitedCells,
                    fwd, queueFromStart, visitedFromStart, parentFromStart, distF,
                    bwd, queueFromEnd, visitedFromEnd, parentFromEnd, distB)
      invariant |fwd| == |bwd|
      decreases |AllCells(rows, cols) - Elems(fwd)| + |AllCells(rows, cols) - Elems(bwd)|
    {
      var current: Pos, met: bool, path: seq<Pos>;
      // Expand from start
      if |queueFromStart| > 0 {
        current, met, path, visitedCells, fwd, queueFromStart, visitedFromStart, parentFromStart, distF :=
          ForwardHalf(grid, rows, cols, start, end, visitedCells,
                      fwd, queueFromStart, visitedFromStart, parentFromStart, distF,
                      bwd, queueFromEnd, visitedFromEnd, parentFromEnd, distB);
        if met {
          return SearchResult(path, visitedCells, true), fwd, bwd, current,
                 parentFromStart, distF, parentFromEnd, distB;
        }
      }

      // Expand from end
      if |queueFromEnd| > 0 {
        current, met, path, visitedCells, bwd, queueFromEnd, visitedFromEnd, parentFromEnd, distB :=
          BackwardHalf(grid, rows, cols, start, end, visitedCells,
                       fwd, queueFromStart, visitedFromStart, parentFromStart, distF,
                       bwd, queueFromEnd, visitedFromEnd, parentFromEnd, distB);
        if met {
          return SearchResult(path, visitedCells, true), fwd, bwd, current,
                 parentFromStart, distF, parentFromEnd, distB;
        }
      }
    }

    Apart(grid, rows, cols, start, end, visitedCells,
          fwd, queueFromStart, visitedFromStart, parentFromStart, distF,
          bwd, queueFromEnd, visitedFromEnd, parentFromEnd, distB);
    return SearchResult([], visitedCells, false), fwd, bwd, start, parentFromStart, distF, parentFromEnd, distB;
  }
}
