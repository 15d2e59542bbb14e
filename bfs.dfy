/** bfs: breadth-first search from start, marking cells visited when they
    are enqueued (src/algorithms/pathfinding.ts, lines 113-150). */
module Bfs {
  import opened Types
  import opened GridGraph
  import opened Reconstruct

  /** The state after the neighbour loop of bfs has handled the cells `seen`:
      the unvisited ones among them have joined the back of the queue and the
      visited set, each with `current` as its parent; nothing else changed. */
  ghost predicate Enqueued(current: Pos, seen: seq<Pos>, visited: set<Pos>, parentMap: map<Pos, Pos>,
                           queue: seq<Pos>, visited': set<Pos>, parentMap': map<Pos, Pos>, queue': seq<Pos>)
  {
    && queue' == queue + Outside(seen, visited)
    && visited' == visited + Elems(seen)
    && Labels(current, visited' - visited, parentMap, parentMap')
  }

  /** The cells of `added`, and only they, have `current` as parent in
      `parentMap'`; the others keep their parent in `parentMap`. */
  ghost predicate Labels(current: Pos, added: set<Pos>, parentMap: map<Pos, Pos>, parentMap': map<Pos, Pos>) {
    && (forall k :: k in parentMap' <==> k in parentMap || k in added)
    && (forall k :: k in parentMap' ==> parentMap'[k] == if k in added then current else parentMap[k])
  }

  /** Labelling one more cell `n`. */
  lemma LabelsStep(current: Pos, added: set<Pos>, n: Pos, parentMap: map<Pos, Pos>, parentMap': map<Pos, Pos>)
    requires Labels(current, added, parentMap, parentMap')
    ensures Labels(current, added + {n}, parentMap, parentMap'[n := current])
  {
  }

  /** One turn of the neighbour loop, on a neighbour `n` after `seen`. */
  lemma EnqueuedStep(current: Pos, seen: seq<Pos>, n: Pos, visited: set<Pos>, parentMap: map<Pos, Pos>,
                     queue: seq<Pos>, visited': set<Pos>, parentMap': map<Pos, Pos>, queue': seq<Pos>)
    requires n !in seen
    requires Enqueued(current, seen, visited, parentMap, queue, visited', parentMap', queue')
    ensures if n !in visited' then
        Enqueued(current, seen + [n], visited, parentMap, queue, visited' + {n}, parentMap'[n := current], queue' + [n])
      else
        Enqueued(current, seen + [n], visited, parentMap, queue, visited', parentMap', queue')
  {
    assert Elems(seen + [n]) == Elems(seen) + {n};
    var before := Outside(seen, visited);
    OutsideSnoc(seen, n, visited);
    if n !in visited' {
      SnocAssoc(queue, before, n);
      assert (visited' + {n}) - visited == (visited' - visited) + {n};
      LabelsStep(current, visited' - visited, n, parentMap, parentMap');
    } else {
      assert before + [] == before;
    }
  }

  /** The neighbour loop of bfs: every neighbour not yet visited is marked
      visited, gets `current` as its parent and joins the back of the queue.
      The bidirectional search runs the same loop for each of its frontiers. */
  method EnqueueUnvisited(current: Pos, neighbors: seq<Pos>, visited: set<Pos>,
                          parentMap: map<Pos, Pos>, queue: seq<Pos>)
    returns (visited': set<Pos>, parentMap': map<Pos, Pos>, queue': seq<Pos>)
    requires NoDup(neighbors)
    ensures Enqueued(current, neighbors, visited, parentMap, queue, visited', parentMap', queue')
    ensures queue' == queue + Outside(neighbors, visited)
    ensures visited' == visited + Elems(neighbors)
    ensures forall k :: k in parentMap' <==> k in parentMap || k in visited' - visited
    ensures forall k :: k in parentMap' ==>
      parentMap'[k] == if k in visited' - visited then current else parentMap[k]
  {
    visited', parentMap', queue' := visited, parentMap, queue;
    ghost var seen: seq<Pos> := [];
    assert queue + [] == queue;
    for i := 0 to |neighbors|
      invariant seen == neighbors[..i]
      invariant Enqueued(current, seen, visited, parentMap, queue, visited', parentMap', queue')
    {
      var neighbor := neighbors[i];
      SliceSnoc(neighbors, i);
      NoDupSlice(neighbors, i);
      EnqueuedStep(current, seen, neighbor, visited, parentMap, queue, visited', parentMap', queue');
      if neighbor !in visited' {
        visited' := visited' + {neighbor};
        parentMap' := parentMap'[neighbor := current];
        queue' := queue' + [neighbor];
      }
      seen := seen + [neighbor];
    }
    assert seen == neighbors;
  }

  /** Cells leave the queue in the order they entered it and enter it once:
      the dequeued cells followed by the queue list the visited set without
      repetition, starting with start. */
  ghost predicate Discovered(start: Pos, done: seq<Pos>, queue: seq<Pos>, visited: set<Pos>) {
    var order := done + queue;
    && NoDup(order) && |order| > 0 && order[0] == start
    && (forall c :: c in visited <==> c in order)
  }

  /** Every visited cell is passable and has a parent and a distance; start
      is its own parent, at distance 0. */
  ghost predicate Labelled(grid: Grid, rows: int, cols: int, start: Pos, visited: set<Pos>,
                           parentMap: map<Pos, Pos>, dist: map<Pos, nat>)
    requires WellFormed(grid, rows, cols)
  {
    && start in visited
    && (forall c :: c in visited ==> Passable(grid, rows, cols, c))
    && (forall c :: c in dist <==> c in visited)
    && (forall c :: c in parentMap <==> c in visited)
    && dist[start] == 0 && parentMap[start] == start
  }

  /** Every other cell's parent was dequeued before it, lies next to it and
      is one step nearer to start. */
  ghost predicate ParentsBehind(start: Pos, done: seq<Pos>, parentMap: map<Pos, Pos>, dist: map<Pos, nat>) {
    forall k :: k in parentMap && k != start ==>
      && parentMap[k] in done && Adjacent(parentMap[k], k)
      && k in dist && parentMap[k] in dist && dist[k] == dist[parentMap[k]] + 1
  }

  /** The queue is ordered by distance, and no discovered cell is more than
      one step further away than the queue's head. */
  ghost predicate Layered(queue: seq<Pos>, dist: map<Pos, nat>) {
    && (forall q :: q in queue ==> q in dist)
    && (forall i, j :: 0 <= i < j < |queue| ==> dist[queue[i]] <= dist[queue[j]])
    && (|queue| > 0 ==> forall c :: c in dist ==> dist[c] <= dist[queue[0]] + 1)
  }

  /** Every neighbour of a dequeued cell has been discovered, at most one
      step further away than that cell. */
  ghost predicate Expanded(grid: Grid, rows: int, cols: int, done: seq<Pos>, dist: map<Pos, nat>)
    requires WellFormed(grid, rows, cols)
  {
    forall x :: x in done ==>
      x in dist && forall n :: n in Neighbors(grid, rows, cols, x) ==> n in dist && dist[n] <= dist[x] + 1
  }

  /** What holds at the head of bfs's main loop. `done` holds the cells already
      dequeued (visitedCells), `queue` the rest of the discovery order, and
      `dist` the ghost distance at which each visited cell was discovered. */
  ghost predicate Inv(grid: Grid, rows: int, cols: int, start: Pos, end: Pos,
                      done: seq<Pos>, queue: seq<Pos>, visited: set<Pos>,
                      parentMap: map<Pos, Pos>, dist: map<Pos, nat>)
    requires WellFormed(grid, rows, cols)
  {
    && Discovered(start, done, queue, visited)
    && Labelled(grid, rows, cols, start, visited, parentMap, dist)
    && ParentsBehind(start, done, parentMap, dist)
    && Layered(queue, dist)
    && Expanded(grid, rows, cols, done, dist)
    && end !in done
  }

  lemma InvInit(grid: Grid, rows: int, cols: int, start: Pos, end: Pos)
    requires WellFormed(grid, rows, cols) && Passable(grid, rows, cols, start)
    ensures Inv(grid, rows, cols, start, end, [], [start], {start}, map[start := start], map[start := 0])
  {
  }

  /** `dist` with each cell of `added` recorded at distance `d`. */
  ghost function Extend(dist: map<Pos, nat>, added: seq<Pos>, d: nat): (r: map<Pos, nat>)
    ensures forall c :: c in r <==> c in dist || c in added
    ensures forall c :: c in r ==> r[c] == if c in added then d else dist[c]
  {
    dist + map n | n in added :: d
  }

  lemma DiscoveredStep(start: Pos, done: seq<Pos>, queue: seq<Pos>, visited: set<Pos>,
                       neighbors: seq<Pos>, queue': seq<Pos>, visited': set<Pos>)
    requires Discovered(start, done, queue, visited) && |queue| > 0 && NoDup(neighbors)
    requires queue' == queue[1..] + Outside(neighbors, visited)
    requires visited' == visited + Elems(neighbors)
    ensures Discovered(start, done + [queue[0]], queue', visited')
  {
    var added := Outside(neighbors, visited);
    var order := done + queue;
    var order' := done + [queue[0]] + queue';
    DequeueOrder(done, queue, added);
    NoDupAppend(order, added);
  }

  lemma HeadTail(s: seq<Pos>)
    requires |s| > 0
    ensures s == [s[0]] + s[1..]
  {
  }

  /** Moving the head of the queue to the end of `done` keeps their joint order. */
  lemma DequeueOrder(done: seq<Pos>, queue: seq<Pos>, added: seq<Pos>)
    requires |queue| > 0
    ensures done + [queue[0]] + (queue[1..] + added) == done + queue + added
  {
    var a, b := done + [queue[0]] + (queue[1..] + added), done + queue + added;
    assert |a| == |b|;
    forall i | 0 <= i < |a|
      ensures a[i] == b[i]
    {
      if i < |done| {
      } else if i == |done| {
      } else if i < |done| + |queue| {
        assert a[i] == queue[1..][i - |done| - 1];
      } else {
        assert a[i] == added[i - |done| - |queue|];
      }
    }
  }

  lemma LabelledStep(grid: Grid, rows: int, cols: int, start: Pos, current: Pos,
                     visited: set<Pos>, parentMap: map<Pos, Pos>, dist: map<Pos, nat>,
                     neighbors: seq<Pos>, visited': set<Pos>, parentMap': map<Pos, Pos>, dist': map<Pos, nat>)
    requires WellFormed(grid, rows, cols)
    requires Labelled(grid, rows, cols, start, visited, parentMap, dist)
    requires neighbors == Neighbors(grid, rows, cols, current)
    requires visited' == visited + Elems(neighbors)
    requires forall k :: k in parentMap' <==> k in parentMap || k in visited' - visited
    requires forall k :: k in parentMap' ==>
      parentMap'[k] == if k in visited' - visited then current else parentMap[k]
    requires forall c :: c in dist' <==> c in dist || c in Outside(neighbors, visited)
    requires dist'[start] == dist[start]
    ensures Labelled(grid, rows, cols, start, visited', parentMap', dist')
  {
  }

  lemma ParentsStep(grid: Grid, rows: int, cols: int, start: Pos, done: seq<Pos>, current: Pos,
                    visited: set<Pos>, parentMap: map<Pos, Pos>, dist: map<Pos, nat>,
                    neighbors: seq<Pos>, visited': set<Pos>, parentMap': map<Pos, Pos>, dist': map<Pos, nat>)
    requires WellFormed(grid, rows, cols)
    requires ParentsBehind(start, done, parentMap, dist)
    requires start in visited && current in dist
    requires forall c :: c in parentMap ==> c in visited && c in dist
    requires neighbors == Neighbors(grid, rows, cols, current)
    requires visited' == visited + Elems(neighbors)
    requires forall k :: k in parentMap' <==> k in parentMap || k in visited' - visited
    requires forall k :: k in parentMap' ==>
      parentMap'[k] == if k in visited' - visited then current else parentMap[k]
    requires forall c :: c in dist' <==> c in dist || c in Outside(neighbors, visited)
    requires forall c :: c in dist ==> dist'[c] == dist[c]
    requires forall n :: n in Outside(neighbors, visited) ==> dist'[n] == dist[current] + 1
    ensures ParentsBehind(start, done + [current], parentMap', dist')
  {
    forall k | k in parentMap' && k != start
      ensures parentMap'[k] in done + [current] && Adjacent(parentMap'[k], k)
      ensures k in dist' && parentMap'[k] in dist' && dist'[k] == dist'[parentMap'[k]] + 1
    {
      if k in visited' - visited {
        assert k in Outside(neighbors, visited);
      }
    }
  }

  lemma LayeredStep(queue: seq<Pos>, dist: map<Pos, nat>, added: seq<Pos>, queue': seq<Pos>, dist': map<Pos, nat>)
    requires Layered(queue, dist) && |queue| > 0
    requires queue' == queue[1..] + added
    requires forall c :: c in dist' <==> c in dist || c in added
    requires forall c :: c in dist ==> dist'[c] == dist[c]
    requires forall n :: n in added ==> dist'[n] == dist[queue[0]] + 1
    ensures Layered(queue', dist')
  {
    var d := dist[queue[0]];
    assert forall q :: q in queue ==> d <= dist[q] by {
      forall q | q in queue
        ensures d <= dist[q]
      {
        var i :| 0 <= i < |queue| && queue[i] == q;
        if i > 0 {
          assert dist[queue[0]] <= dist[queue[i]];
        }
      }
    }
    forall i, j | 0 <= i < j < |queue'|
      ensures dist'[queue'[i]] <= dist'[queue'[j]]
    {
      if j < |queue| - 1 {
        assert queue'[i] == queue[i + 1] && queue'[j] == queue[j + 1];
      } else if i < |queue| - 1 {
        assert queue'[i] == queue[i + 1];
        assert queue'[j] in added;
      } else {
        assert queue'[i] in added && queue'[j] in added;
      }
    }
    if |queue'| > 0 {
      assert d <= dist'[queue'[0]] by {
        if |queue| > 1 {
          assert queue'[0] == queue[1];
        } else {
          assert queue'[0] in added;
        }
      }
    }
  }

  lemma ExpandedStep(grid: Grid, rows: int, cols: int, done: seq<Pos>, current: Pos,
                     visited: set<Pos>, dist: map<Pos, nat>, neighbors: seq<Pos>, dist': map<Pos, nat>)
    requires WellFormed(grid, rows, cols)
    requires Expanded(grid, rows, cols, done, dist)
    requires current in dist && forall c :: c in dist ==> dist[c] <= dist[current] + 1
    requires forall c :: c in dist <==> c in visited
    requires neighbors == Neighbors(grid, rows, cols, current)
    requires forall c :: c in dist' <==> c in dist || c in Outside(neighbors, visited)
    requires forall c :: c in dist ==> dist'[c] == dist[c]
    requires forall n :: n in Outside(neighbors, visited) ==> dist'[n] == dist[current] + 1
    ensures Expanded(grid, rows, cols, done + [current], dist')
  {
  }

  /** One round of the main loop keeps the invariant: dequeue the head
      `current`, which is not the end, and enqueue its undiscovered
      neighbours one step further away. */
  lemma InvStep(grid: Grid, rows: int, cols: int, start: Pos, end: Pos,
                done: seq<Pos>, current: Pos, queue: seq<Pos>, visited: set<Pos>,
                parentMap: map<Pos, Pos>, dist: map<Pos, nat>,
                neighbors: seq<Pos>, visited': set<Pos>, parentMap': map<Pos, Pos>,
                queue': seq<Pos>, dist': map<Pos, nat>)
    requires WellFormed(grid, rows, cols)
    requires Inv(grid, rows, cols, start, end, done, [current] + queue, visited, parentMap, dist)
    requires current != end
    requires neighbors == Neighbors(grid, rows, cols, current) && NoDup(neighbors)
    requires Enqueued(current, neighbors, visited, parentMap, queue, visited', parentMap', queue')
    requires dist' == Extend(dist, Outside(neighbors, visited), dist[current] + 1)
    ensures Inv(grid, rows, cols, start, end, done + [current], queue', visited', parentMap', dist')
  {
    var q := [current] + queue;
    assert q[0] == current && q[1..] == queue;
    var added := Outside(neighbors, visited);
    DiscoveredStep(start, done, q, visited, neighbors, queue', visited');
    LabelledStep(grid, rows, cols, start, current, visited, parentMap, dist, neighbors, visited', parentMap', dist');
    ParentsStep(grid, rows, cols, start, done, current, visited, parentMap, dist, neighbors, visited', parentMap', dist');
    LayeredStep(q, dist, added, queue', dist');
    ExpandedStep(grid, rows, cols, done, current, visited, dist, neighbors, dist');
  }

  /** The head of a layered queue is nearest to start among the queued cells. */
  lemma LayeredHead(queue: seq<Pos>, dist: map<Pos, nat>)
    requires Layered(queue, dist) && |queue| > 0
    ensures forall q :: q in queue ==> dist[queue[0]] <= dist[q]
  {
    forall q | q in queue
      ensures dist[queue[0]] <= dist[q]
    {
      var i :| 0 <= i < |queue| && queue[i] == q;
      if i > 0 {
        assert dist[queue[0]] <= dist[queue[i]];
      }
    }
  }

  /** Every cell that a walk from start reaches within dist[queue[0]] steps
      has already been discovered, at a distance no larger than the walk's
      length: BFS discovers cells in order of distance. */
  lemma {:induction false} NoShortcut(grid: Grid, rows: int, cols: int, start: Pos,
                                      done: seq<Pos>, queue: seq<Pos>, dist: map<Pos, nat>, w: seq<Pos>)
    requires WellFormed(grid, rows, cols)
    requires start in dist && dist[start] == 0 && |queue| > 0
    requires forall c :: c in dist ==> c in done || c in queue
    requires Layered(queue, dist) && forall q :: q in queue ==> dist[queue[0]] <= dist[q]
    requires Expanded(grid, rows, cols, done, dist)
    requires IsWalk(grid, rows, cols, w) && w[0] == start
    ensures |w| - 1 <= dist[queue[0]] ==> w[|w| - 1] in dist && dist[w[|w| - 1]] <= |w| - 1
  {
    if 1 < |w| && |w| - 1 <= dist[queue[0]] {
      var n := |w| - 1;
      WalkPrefix(grid, rows, cols, w, n);
      NoShortcut(grid, rows, cols, start, done, queue, dist, w[..n]);
      var u := w[n - 1];
      assert u == w[..n][n - 1];
      assert u in done;
      WalkStep(grid, rows, cols, w, n - 1);
    }
  }

  /** When the end reaches the head of the queue, no walk reaches it in fewer
      than dist[end] steps. */
  lemma ShortestAtHead(grid: Grid, rows: int, cols: int, start: Pos, end: Pos,
                       done: seq<Pos>, queue: seq<Pos>, visited: set<Pos>,
                       parentMap: map<Pos, Pos>, dist: map<Pos, nat>)
    requires WellFormed(grid, rows, cols)
    requires Inv(grid, rows, cols, start, end, done, queue, visited, parentMap, dist)
    requires |queue| > 0 && queue[0] == end
    ensures forall w :: WalkBetween(grid, rows, cols, w, start, end) ==> |w| - 1 >= dist[end]
  {
    LayeredHead(queue, dist);
    forall w | WalkBetween(grid, rows, cols, w, start, end)
      ensures |w| - 1 >= dist[end]
    {
      NoShortcut(grid, rows, cols, start, done, queue, dist, w);
    }
  }

  /** When the dequeued head is the end, the chain of parents is a walk of
      dist[end] steps, no walk is shorter, and every cell on it was dequeued. */
  lemma FoundPath(grid: Grid, rows: int, cols: int, start: Pos, end: Pos,
                  done: seq<Pos>, queue: seq<Pos>, visited: set<Pos>,
                  parentMap: map<Pos, Pos>, dist: map<Pos, nat>)
    requires WellFormed(grid, rows, cols) && Passable(grid, rows, cols, start)
    requires Inv(grid, rows, cols, start, end, done, queue, visited, parentMap, dist)
    requires |queue| > 0 && queue[0] == end
    ensures Ranked(parentMap, dist) && end in dist
    ensures var path := Chain(start, end, parentMap, dist);
      && PathFrom(grid, rows, cols, start, end, path)
      && (forall c :: c in path ==> c in done + [end])
      && (start != end ==> NoWalkShorterThan(grid, rows, cols, start, end, |path| + 1))
  {
    ChainIsPath(grid, rows, cols, start, end, parentMap, dist);
    ChainWithin(start, end, parentMap, dist, Elems(done + [end]));
    if start != end {
      ChainLength(start, end, parentMap, dist);
      ShortestAtHead(grid, rows, cols, start, end, done, queue, visited, parentMap, dist);
    }
  }

  /** The cells dequeued up to and including the end. */
  lemma FoundVisits(grid: Grid, rows: int, cols: int, start: Pos, end: Pos,
                    done: seq<Pos>, queue: seq<Pos>, visited: set<Pos>,
                    parentMap: map<Pos, Pos>, dist: map<Pos, nat>)
    requires WellFormed(grid, rows, cols)
    requires Inv(grid, rows, cols, start, end, done, queue, visited, parentMap, dist)
    requires |queue| > 0 && queue[0] == end
    ensures NoDup(done + [end]) && (done + [end])[0] == start
    ensures forall c :: c in done + [end] ==> Passable(grid, rows, cols, c)
    ensures forall k :: k in parentMap && k != start ==> parentMap[k] in done + [end] && Adjacent(parentMap[k], k)
  {
    var order := done + queue;
    assert forall i :: 0 <= i < |done| + 1 ==> (done + [end])[i] == order[i];
  }

  /** An emptied queue leaves a visited set closed under neighbours without the end. */
  lemma Exhausted(grid: Grid, rows: int, cols: int, start: Pos, end: Pos,
                  done: seq<Pos>, visited: set<Pos>, parentMap: map<Pos, Pos>, dist: map<Pos, nat>)
    requires WellFormed(grid, rows, cols)
    requires Inv(grid, rows, cols, start, end, done, [], visited, parentMap, dist)
    ensures !Reachable(grid, rows, cols, start, end)
    ensures NoDup(done) && |done| > 0 && done[0] == start
    ensures forall c :: c in done ==> Passable(grid, rows, cols, c)
  {
    assert done + [] == done;
    ClosedSetSeparates(grid, rows, cols, visited, start, end);
  }

  /** The second half of a round of bfs: expand the dequeued cell `current`,
      which is not the end, through the neighbour loop. The invariant
      carries over with `current` moved to the dequeued cells, and the
      visited set only grows, the queue keeping its length when it does not. */
  method Expand(grid: Grid, rows: int, cols: int, ghost start: Pos, ghost end: Pos, ghost done: seq<Pos>,
                current: Pos, visited: set<Pos>, parentMap: map<Pos, Pos>, queue: seq<Pos>,
                ghost dist: map<Pos, nat>)
    returns (visited': set<Pos>, parentMap': map<Pos, Pos>, queue': seq<Pos>, ghost dist': map<Pos, nat>)
    requires WellFormed(grid, rows, cols) && current != end
    requires Inv(grid, rows, cols, start, end, done, [current] + queue, visited, parentMap, dist)
    ensures Inv(grid, rows, cols, start, end, done + [current], queue', visited', parentMap', dist')
    ensures visited <= visited' && (visited' == visited ==> queue' == queue)
  {
    var neighbors := GetNeighbors(current, grid, rows, cols);
    ghost var discovered := Outside(neighbors, visited);
    assert NoDup(neighbors) by {
      NeighborsOrdered(grid, rows, cols, current);
    }
    visited', parentMap', queue' := EnqueueUnvisited(current, neighbors, visited, parentMap, queue);
    dist' := Extend(dist, discovered, dist[current] + 1);
    InvStep(grid, rows, cols, start, end, done, current, queue, visited, parentMap, dist,
            neighbors, visited', parentMap', queue', dist');
    NothingNew(neighbors, visited, queue, visited', queue');
  }

  /** A round that marks no cell visited enqueues nothing. */
  lemma NothingNew(neighbors: seq<Pos>, visited: set<Pos>, queue: seq<Pos>, visited': set<Pos>, queue': seq<Pos>)
    requires visited' == visited + Elems(neighbors)
    requires queue' == queue + Outside(neighbors, visited)
    ensures visited <= visited' && (visited' == visited ==> queue' == queue)
  {
    var added := Outside(neighbors, visited);
    if added != [] {
      assert added[0] in visited' - visited;
    } else {
      assert queue + [] == queue;
    }
  }

  /** bfs. On success the path is a shortest walk to the end (less its start
      cell), built from parents recorded at enqueue time; on failure the end
      is unreachable. Either way each cell is dequeued at most once. */
  method Bfs(grid: Grid, start: Pos, end: Pos, rows: int, cols: int)
    returns (result: SearchResult, ghost parents: map<Pos, Pos>, ghost dist: map<Pos, nat>)
    requires WellFormed(grid, rows, cols) && Passable(grid, rows, cols, start)
    ensures result.found <==> Reachable(grid, rows, cols, start, end)
    ensures NoDup(result.visitedCells) && |result.visitedCells| > 0 && result.visitedCells[0] == start
    ensures forall c :: c in result.visitedCells ==> Passable(grid, rows, cols, c)
    ensures forall k :: k in parents && k != start ==>
      parents[k] in result.visitedCells && Adjacent(parents[k], k)
    ensures result.found ==>
      && result.visitedCells[|result.visitedCells| - 1] == end
      && Ranked(parents, dist) && end in dist
      && result.path == Chain(start, end, parents, dist)
      && PathFrom(grid, rows, cols, start, end, result.path)
      && (forall c :: c in result.path ==> c in result.visitedCells)
    ensures result.found && start != end ==>
      NoWalkShorterThan(grid, rows, cols, start, end, |result.path| + 1)
    ensures !result.found ==> result.path == [] && end !in result.visitedCells
  {
    var visited: set<Pos> := {start};
    var parentMap: map<Pos, Pos> := map[start := start];
    var visitedCells: seq<Pos> := [];
    var queue: seq<Pos> := [start];
    ghost var distance: map<Pos, nat> := map[start := 0];
    InvInit(grid, rows, cols, start, end);

    while |queue| > 0
      invariant Inv(grid, rows, cols, start, end, visitedCells, queue, visited, parentMap, distance)
      decreases AllCells(rows, cols) - visited, |queue|
    {
      ghost var done0, queue0, visited0 := visitedCells, queue, visited;
      HeadTail(queue);
      var current := queue[0];
      queue := queue[1..];
      visitedCells := visitedCells + [current];

      if current == end {
        assert visitedCells == done0 + [end];
        FoundPath(grid, rows, cols, start, end, done0, queue0, visited, parentMap, distance);
        FoundVisits(grid, rows, cols, start, end, done0, queue0, visited, parentMap, distance);
        PathFromReachable(grid, rows, cols, start, end, Chain(start, end, parentMap, distance));
        var path := ReconstructPath(start, end, parentMap, distance);
        return SearchResult(path, visitedCells, true), parentMap, distance;
      }

      visited, parentMap, queue, distance :=
        Expand(grid, rows, cols, start, end, done0, current, visited, parentMap, queue, distance);
      FewerUnvisited(grid, rows, cols, visited0, visited);
    }
    Exhausted(grid, rows, cols, start, end, visitedCells, visited, parentMap, distance);
    return SearchResult([], visitedCells, false), parentMap, distance;
  }
}
