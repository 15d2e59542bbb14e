# path-finder search kernel in Dafny

This project models the search kernel of path-finder, a grid path-finding
visualiser. The grid is a rectangle of cells. A Wall cell blocks movement, and
any other cell can be entered from the cell above, below, left or right of it.
Four searches run from a start cell to an end cell:

- depth-first search;
- breadth-first search;
- A* with the Manhattan heuristic;
- bidirectional breadth-first search.

Each search returns a `SearchResult`: the path found, every cell it took from
its frontier in order (`visitedCells`), and a `found` flag.

Modules, one per part of `src/algorithms/pathfinding.ts`:

- `Types`: the cell kinds, positions, grid and result record of `src/types/index.ts`.
- `GridGraph`: getNeighbors and the grid graph built on it: walks, reachability and shortest-walk bounds.
- `CellKeys`: getCellKey, the `row-col` string that keys the searches' sets and maps.
- `Reconstruct`: reconstructPath, which walks a parent map back from a cell.
- `Dfs`, `Bfs`, `AStar`, `Bidirectional`: the four searches.

Each search is a method whose loop keeps the source's own variables. Those are
the stack or queue, the visited set, the parent map and `visitedCells`; A*
adds the open list, the closed set and the g and f score maps. Every search
proves these results:

- `found` holds exactly when a walk from start to end exists.
- `visitedCells` starts at start, never repeats a cell, and holds only passable cells.
- A found path is a walk through adjacent passable cells.
- An unfound result has an empty path.

BFS and A* also prove that the path they find is a shortest one. Termination of
reconstructPath rests on a ghost rank that falls along every parent link. The
rank is the visit order in DFS, the distance from the root in BFS and the
bidirectional search, and g in A*.

Points where the code behaves in ways a reader might not expect:

- reconstructPath stops as soon as a cell's parent is `start`, so start itself
  is not in the path. DFS, BFS and A* return `[start]` when start is the end.
  Otherwise they return the cells after start up to and including end
  (`GridGraph.PathFrom`). A reader might expect `path[0] == start`. On a 1×5
  grid without walls from (0,0) to (0,4), the code returns the four cells
  (0,1) to (0,4).
- The bidirectional search joins two such reconstructions. The forward one
  leaves out start. The backward one leaves out end, and the reversal then
  drops the meeting cell from its side. The joined path therefore lacks both
  endpoints, unless an endpoint is itself the meeting cell
  (`Bidirectional.Meeting`).
- DFS overwrites a cell's parent each time a later expansion pushes the cell
  again, so the last writer wins.
- A* reads `fScore.get(key) || Infinity` and `gScore.get(key) || 0`. A stored
  f of 0 therefore reads as Infinity, and a missing g as 0 (`AStar.FRead`,
  `AStar.GRead`).

## Model

| member | source | states |
|---|---|---|
| GridGraph.Neighbors | src/algorithms/pathfinding.ts:5-35 | at most four cells; a cell is listed exactly when it is orthogonally adjacent to the given one, inside the grid and not a Wall; the given cell is never listed |
| GridGraph.NeighborsOrdered | src/algorithms/pathfinding.ts:12-19 | the neighbours come in up, down, left, right order, without repeats |
| GridGraph.AdjacentDirection | src/algorithms/pathfinding.ts:12-17 | a cell is adjacent exactly when it is one of the four direction steps away |
| GridGraph.ScanDirections | src/algorithms/pathfinding.ts:19-32 | after the first k directions the scan holds at most k cells, exactly the passable cells in those directions, in direction order |
| GridGraph.GetNeighbors | src/algorithms/pathfinding.ts:5-35 | the loop over the direction table returns exactly the neighbour list above |
| GridGraph.Reverse | src/algorithms/pathfinding.ts:254 | reversal keeps the length and puts element i at position length-1-i |
| GridGraph.ReverseWalk | src/algorithms/pathfinding.ts:254 | a reversed walk from a to b is a walk from b to a |
| GridGraph.ReachableSymmetric | src/algorithms/pathfinding.ts:272-297 | reachability is symmetric, so a search rooted at end finds what one rooted at start would |
| GridGraph.WalkStaysIn | src/algorithms/pathfinding.ts:147-149 | a walk that starts in a set closed under neighbours never leaves it |
| GridGraph.ClosedSetSeparates | src/algorithms/pathfinding.ts:147-149 | no walk leads from inside a set closed under neighbours to a cell outside it, which is why an exhausted frontier means no route |
| GridGraph.PathFromReachable | src/algorithms/pathfinding.ts:133-136 | a path of the shape the searches return proves end reachable from start |
| CellKeys.NatToString | src/algorithms/pathfinding.ts:63-65 | the decimal rendering of a coordinate is a non-empty string of digits |
| CellKeys.ParseNatToString | src/algorithms/pathfinding.ts:63-65 | reading the rendering back gives the number, so the rendering loses nothing |
| CellKeys.NatToStringInjective | src/algorithms/pathfinding.ts:63-65 | two numbers render alike exactly when they are equal |
| CellKeys.CellKeyInjective | src/algorithms/pathfinding.ts:63-65 | on non-negative coordinates two cells share a key exactly when they share a position, so keying by position is faithful |
| Reconstruct.Chain | src/algorithms/pathfinding.ts:38-60 | the reconstructed cells end at the given cell; each is the parent of the next; only the first meets the stop test (no parent, parent is start, or parent is itself) |
| Reconstruct.ReconstructPath | src/algorithms/pathfinding.ts:38-60 | the unshift loop returns exactly that chain, and terminates |
| Reconstruct.ChainIsPath | src/algorithms/pathfinding.ts:38-60 | over a parent map whose links join adjacent passable cells, the chain is `[start]` when end is start and otherwise a walk from start's successor to end |
| Reconstruct.ChainLength | src/algorithms/pathfinding.ts:38-60 | when the rank is a distance that grows by one per link, the chain has exactly that many cells |
| Reconstruct.ChainWithin | src/algorithms/pathfinding.ts:38-60 | the chain only holds the end cell and recorded parents |
| Dfs.PushUnvisited | src/algorithms/pathfinding.ts:99-106 | pushes exactly the unvisited neighbours, in order, and makes the expanded cell their parent, overwriting older entries; other parents stay |
| Dfs.InvInit | src/algorithms/pathfinding.ts:75-81 | the initial stack `[start]` with start as its own parent satisfies the loop invariant |
| Dfs.SkipStep | src/algorithms/pathfinding.ts:84-89 | popping an already visited cell keeps the invariant |
| Dfs.RecordedStep | src/algorithms/pathfinding.ts:91-92 | marking a popped cell visited and appending it to `visitedCells` keeps them equal as sets, without repeats |
| Dfs.ParentedStep | src/algorithms/pathfinding.ts:99-106 | after expansion every parent is a visited cell adjacent to its child and visited earlier than it |
| Dfs.FrontierStep | src/algorithms/pathfinding.ts:99-106 | every neighbour of a visited cell is visited or on the stack |
| Dfs.Expand | src/algorithms/pathfinding.ts:91-106 | one expansion of a new cell other than end keeps the loop invariant |
| Dfs.EarlierParents | src/algorithms/pathfinding.ts:103 | every visited cell after the first has its parent earlier in `visitedCells` |
| Dfs.FoundPath | src/algorithms/pathfinding.ts:94-97 | when end is popped, the reconstructed path is a walk from start to end through visited cells |
| Dfs.Exhausted | src/algorithms/pathfinding.ts:83-109 | an empty stack means end is unreachable |
| Dfs.Dfs | src/algorithms/pathfinding.ts:68-110 | found exactly when end is reachable; visited cells start at start, never repeat, are passable, and each has an earlier adjacent parent; a found path is the parent chain to end and a walk inside the visited cells, ending at the last visited cell; otherwise the path is empty and end was never visited |
| Bfs.EnqueueUnvisited | src/algorithms/pathfinding.ts:139-146 | enqueues exactly the unvisited neighbours in order, marks all neighbours visited, and makes the expanded cell the parent of exactly the new ones |
| Bfs.InvInit | src/algorithms/pathfinding.ts:121-127 | the initial queue `[start]`, with start visited and its own parent, satisfies the loop invariant |
| Bfs.DiscoveredStep | src/algorithms/pathfinding.ts:129-146 | the visited set stays exactly the dequeued cells plus the queue, without repeats, in discovery order from start |
| Bfs.LabelledStep | src/algorithms/pathfinding.ts:139-146 | every visited cell stays passable with a parent and a distance |
| Bfs.ParentsStep | src/algorithms/pathfinding.ts:139-146 | every parent stays an adjacent, already dequeued cell one step nearer the root |
| Bfs.LayeredStep | src/algorithms/pathfinding.ts:129-146 | the queue stays sorted by distance, and no discovered cell is more than one step further than the queue's head |
| Bfs.ExpandedStep | src/algorithms/pathfinding.ts:138-146 | every neighbour of a dequeued cell has a distance at most one more than that cell's |
| Bfs.InvStep | src/algorithms/pathfinding.ts:129-146 | one loop round that does not stop keeps the whole invariant |
| Bfs.Expand | src/algorithms/pathfinding.ts:138-146 | the neighbour step keeps the invariant and adds to the queue only cells new to the visited set |
| Bfs.LayeredHead | src/algorithms/pathfinding.ts:130 | the cell `shift` takes has the least distance in the queue |
| Bfs.NoShortcut | src/algorithms/pathfinding.ts:129-146 | no walk from start reaches a cell in fewer steps than its recorded distance |
| Bfs.ShortestAtHead | src/algorithms/pathfinding.ts:133-136 | when end is dequeued, every walk from start to end has at least its recorded distance in steps |
| Bfs.FoundPath | src/algorithms/pathfinding.ts:133-136 | when end is dequeued, the reconstructed path is a walk from start to end through visited cells, and no shorter walk exists |
| Bfs.FoundVisits | src/algorithms/pathfinding.ts:131-136 | when end is dequeued, `visitedCells` starts at start, ends at end, never repeats and is passable, and every parent is in it |
| Bfs.Exhausted | src/algorithms/pathfinding.ts:129-149 | an empty queue means end is unreachable |
| Bfs.Bfs | src/algorithms/pathfinding.ts:113-150 | found exactly when end is reachable; visited cells start at start, never repeat and are passable; every parent is a visited adjacent cell; a found path is the parent chain to end, a walk inside the visited cells, and no walk is shorter; otherwise the path is empty and end was never visited |
| AStar.Heuristic | src/algorithms/pathfinding.ts:161-163 | the Manhattan distance to end is zero exactly at end |
| AStar.HeuristicConsistent | src/algorithms/pathfinding.ts:161-163 | one step changes the heuristic by at most one |
| AStar.HeuristicAlongWalk | src/algorithms/pathfinding.ts:161-163 | along a walk the heuristic falls by at most the walk's length |
| AStar.HeuristicAdmissible | src/algorithms/pathfinding.ts:161-163 | the heuristic never exceeds the steps of any walk to end |
| AStar.LowestF | src/algorithms/pathfinding.ts:176-187 | the scan returns the earliest open cell whose f, read with the Infinity default, no other open cell beats |
| AStar.EarliestMinimumUnique | src/algorithms/pathfinding.ts:177-187 | the earliest minimum is unique, so the choice is deterministic |
| AStar.RelaxedSkip | src/algorithms/pathfinding.ts:203-212 | a closed neighbour, or an open one not offered a strictly smaller g, changes nothing |
| AStar.RelaxedImprove | src/algorithms/pathfinding.ts:211-217 | an open neighbour offered a strictly smaller g gets the new parent, g and f, and stays in place in the open list |
| AStar.RelaxedInsert | src/algorithms/pathfinding.ts:209-217 | a neighbour neither open nor closed is appended to the open list with the new parent, g and f |
| AStar.RelaxNeighbor | src/algorithms/pathfinding.ts:201-217 | one turn of the neighbour loop updates the neighbour exactly when it improves, and leaves the state alone otherwise |
| AStar.TurnRelaxed | src/algorithms/pathfinding.ts:200-218 | one more turn extends the relaxation summary by one neighbour |
| AStar.ExpandNeighbors | src/algorithms/pathfinding.ts:199-218 | after the loop, the new cells are appended in order, and exactly the improved neighbours (not closed, and either not yet open or offered a strictly smaller g) carry the expanded cell as parent, the tentative g and g plus heuristic as f |
| AStar.InvInit | src/algorithms/pathfinding.ts:165-173 | the open list `[start]` with g 0 and f the heuristic satisfies the loop invariant |
| AStar.ScoreWalk | src/algorithms/pathfinding.ts:207-217 | every scored cell's g is achieved: some walk from start to it has exactly g steps |
| AStar.SelectOptimal | src/algorithms/pathfinding.ts:177-192 | the selected cell's g is the length of a shortest walk to it: some walk from start has exactly g steps, and none has fewer |
| AStar.SelectedBeatsWalk | src/algorithms/pathfinding.ts:177-192 | no walk from start to the selected cell is shorter than its g |
| AStar.RemoveAt | src/algorithms/pathfinding.ts:189 | the splice removes exactly the selected cell and keeps the rest without repeats |
| AStar.ListedStep | src/algorithms/pathfinding.ts:189-192 | the closed set stays exactly `visitedCells`, without repeats, and disjoint from the open list |
| AStar.KeysScored | src/algorithms/pathfinding.ts:189-218 | g is defined exactly on open and closed cells, all passable; start keeps g 0 and every other cell has g at least 1 |
| AStar.OpenScored | src/algorithms/pathfinding.ts:215-217 | every open cell's f is its g plus its heuristic |
| AStar.ParentedStep | src/algorithms/pathfinding.ts:215-216 | start has no parent and every other scored cell has a closed, adjacent parent with g one less |
| AStar.FrontierStep | src/algorithms/pathfinding.ts:199-218 | every neighbour of a closed cell is closed, or open with g at most one more than the closed cell's |
| AStar.ClosedKept | src/algorithms/pathfinding.ts:203-205 | a closed cell is never reopened and its g and parent never change |
| AStar.SettledStep | src/algorithms/pathfinding.ts:189-192 | closing a cell whose g no walk beats keeps every closed cell's g a lower bound on the steps of any walk from start to it |
| AStar.InvStep | src/algorithms/pathfinding.ts:175-218 | one loop round that does not stop keeps the whole invariant |
| AStar.Expand | src/algorithms/pathfinding.ts:189-218 | closing the selected cell and relaxing its neighbours keeps the invariant and leaves closed cells alone |
| AStar.FoundPath | src/algorithms/pathfinding.ts:194-197 | when end is selected, the reconstructed path is a walk from start to end through visited cells, and no shorter walk exists |
| AStar.FoundVisits | src/algorithms/pathfinding.ts:189-197 | when end is selected, `visitedCells` starts at start, never repeats, is passable and holds every parent |
| AStar.FoundResult | src/algorithms/pathfinding.ts:194-197 | the found result reports a reachable end, a valid walk and visited cells ending at end |
| AStar.Exhausted | src/algorithms/pathfinding.ts:175-221 | an empty open list means end is unreachable |
| AStar.AStar | src/algorithms/pathfinding.ts:153-222 | found exactly when end is reachable; visited cells start at start, never repeat and are passable; every parent is a visited adjacent cell; a found path is the parent chain to end, a walk inside the visited cells, and no walk is shorter; otherwise the path is empty and end was never visited |
| Bidirectional.Alternate | src/algorithms/pathfinding.ts:243-297 | `visitedCells` interleaves the two sides: forward cells at even positions, backward cells at odd ones |
| Bidirectional.AlternateForward | src/algorithms/pathfinding.ts:246-248 | a forward dequeue appends its cell to the interleaving |
| Bidirectional.AlternateBackward | src/algorithms/pathfinding.ts:273-275 | a backward dequeue appends its cell to the interleaving |
| Bidirectional.SideInit | src/algorithms/pathfinding.ts:232-241 | each side starts with its root queued and visited, and no parents |
| Bidirectional.SideFacts | src/algorithms/pathfinding.ts:260-268 | a side's parents are adjacent, already dequeued cells; its dequeued cells start at the root, never repeat and are passable |
| Bidirectional.SideStep | src/algorithms/pathfinding.ts:260-268 | one expansion keeps a side's breadth-first invariant |
| Bidirectional.ExpandSide | src/algorithms/pathfinding.ts:260-268 | the neighbour loop of either side keeps that side's breadth-first invariant |
| Bidirectional.SideExhausted | src/algorithms/pathfinding.ts:243 | a side whose queue empties without dequeuing the other root has dequeued a set closed under neighbours, so the roots are mutually unreachable |
| Bidirectional.WalkJoin | src/algorithms/pathfinding.ts:256 | a walk from x to y and a walk from y to z, with the shared cell once, make a walk from x to z |
| Bidirectional.MeetWalk | src/algorithms/pathfinding.ts:252-256 | the forward chain followed by the reversed backward chain without its first cell, with any missing endpoints restored, is a walk from start to end |
| Bidirectional.JoinPaths | src/algorithms/pathfinding.ts:252-256 | the joined path is the forward chain to the meeting cell followed by the reversed backward chain without its first cell |
| Bidirectional.SideChain | src/algorithms/pathfinding.ts:252-253 | a side's chain to any cell it visited is a walk from its root through dequeued cells |
| Bidirectional.Met | src/algorithms/pathfinding.ts:250-257 | at a meeting the result satisfies the meeting contract: the path is the joined chains, lies within `visitedCells`, and restores to a walk from start to end |
| Bidirectional.Joins | src/algorithms/pathfinding.ts:250-257 | a cell visited by both sides, dequeued last, yields the meeting contract |
| Bidirectional.InvInit | src/algorithms/pathfinding.ts:232-241 | the two frontiers, each holding just its root, satisfy the round invariant |
| Bidirectional.UnseenStep | src/algorithms/pathfinding.ts:250-268 | expanding a cell the other side has not visited keeps every cell one side dequeued out of the other side's visited set |
| Bidirectional.ForwardStep | src/algorithms/pathfinding.ts:245-269 | a forward dequeue that does not meet keeps the lock-step invariant |
| Bidirectional.BackwardStep | src/algorithms/pathfinding.ts:272-296 | a backward dequeue that does not meet keeps the lock-step invariant |
| Bidirectional.ForwardMet | src/algorithms/pathfinding.ts:246-257 | a forward meeting leaves the rounds in lock step, and the meeting cell was not dequeued before, so `visitedCells` has no repeats |
| Bidirectional.BackwardMet | src/algorithms/pathfinding.ts:273-284 | a backward meeting leaves the rounds in lock step, and the meeting cell was not dequeued before, so `visitedCells` has no repeats |
| Bidirectional.Apart | src/algorithms/pathfinding.ts:297-299 | when a queue empties after a full round, start and end are mutually unreachable and one side has dequeued a neighbour-closed set without the other root |
| Bidirectional.ForwardHalf | src/algorithms/pathfinding.ts:245-269 | dequeues the forward head and appends it; it meets exactly when that cell is in the backward visited set, and then returns the joined path; otherwise it expands and keeps the invariant |
| Bidirectional.BackwardHalf | src/algorithms/pathfinding.ts:272-296 | the same for the backward side, testing against the forward visited set |
| Bidirectional.BidirectionalSearch | src/algorithms/pathfinding.ts:225-300 | found exactly when end is reachable; `visitedCells` alternates forward and backward dequeues in lock step and never repeats a cell; a found path is the joined chains and a walk once its endpoints are restored; otherwise the path is empty, and one side's dequeued cells are closed under neighbours and miss the other root |

## Left out

- The user interface is not part of this model. That covers `src/App.tsx`,
  `src/components/`, `src/i18n/` and `src/constants/`: grid editing,
  animation of the result, and translated text.
- Cells are positions `Pos(row, col)`, and the grid holds only each cell's
  kind. The source passes `Cell` objects that also carry `isPath` and
  `isVisited` flags, which no search reads. Paths and `visitedCells` are
  sequences of positions.
- Sets and maps are keyed by `Pos` rather than by the `row-col` string.
  `CellKeys.CellKeyInjective` shows that this changes nothing on the
  non-negative coordinates of a grid.
- `CellKeys.NatToString` renders every natural number in plain decimal.
  JavaScript switches to exponent notation from 10^21 upwards, far beyond any
  grid coordinate.
- Numbers are unbounded integers rather than double-precision floats. The
  Infinity of A*'s f comparison is the `Inf` case of `AStar.Score`.
- Arrays changed in place are modelled as values. This covers `pop`, `shift`,
  `push`, `unshift`, `splice` and `reverse`: each operation reassigns a `seq`.
  No array is aliased, so nothing else is lost.
- The searches require a well-formed grid whose `rows` and `cols` match its
  dimensions, and a start cell that is inside the grid and not a Wall. The
  bidirectional search requires the same of end. The kernel checks none of
  this, and the editor does not guarantee it. The wall tool turns any cell
  into a Wall, the current start or end included
  (`src/components/Grid.tsx:93-94`, `124-127`). The remembered start and end
  positions are left as they were (`src/components/Grid.tsx:79-131`), and
  `src/components/Grid.tsx:184-199` hands those cells to the searches. What the
  source does on such input is therefore not modelled:
  - getNeighbors tests only the type of the neighbours
    (`src/algorithms/pathfinding.ts:28`), so dfs, bfs and aStar search from a
    walled start as if it were open.
  - bidirectionalSearch can report a route to a walled end. On a 1×3 grid with
    start (0,0), a Wall at end (0,2) and (0,1) empty, the backward side marks
    (0,1) visited. The forward side then dequeues (0,1) and meets there, so the
    result has `found` true and path [(0,1)]. On the same input bfs reports no
    route.
- Parent maps, ranks and the per-side bookkeeping of the bidirectional search
  are ghost out-parameters of the search methods. The source keeps them in
  local variables.
- Bidirectional.BidirectionalSearch: states no bound on the length of the
  joined path. The meeting test takes the first dequeued cell already visited
  by the other side, and the source promises no shortest route for it.
- Dfs.Dfs: states no bound on the path length, since depth-first search
  promises none.
