/** dfs: depth-first search with an explicit stack. A cell is marked visited
    when it is popped, so the stack may hold a cell more than once; a popped
    cell that is already visited is skipped. Until a cell is popped, every
    push of it overwrites its parent. */
module Dfs {
  import opened Types
  import opened GridGraph
  import opened Reconstruct

  /** The cells in `pushed`, and only they, have `current` as parent in
      `parentMap'`; the others keep their parent in `parentMap`. */
  ghost predicate Reparents(current: Pos, pushed: seq<Pos>, parentMap: map<Pos, Pos>, parentMap': map<Pos, Pos>) {
    && (forall k :: k in parentMap' <==> k in parentMap || k in pushed)
    && (forall k :: k in parentMap' ==> parentMap'[k] == if k in pushed then current else parentMap[k])
  }

  /** After the neighbour loop has looked at `seen`: the ones not visited
      are pushed in order, and they, and only they, have `current` as parent. */
  ghost predicate Pushed(current: Pos, seen: seq<Pos>, visited: set<Pos>, parentMap: map<Pos, Pos>,
                         stack: seq<Pos>, parentMap': map<Pos, Pos>, stack': seq<Pos>) {
    && stack' == stack + Outside(seen, visited)
    && Reparents(current, Outside(seen, visited), parentMap, parentMap')
  }

  /** One turn of the neighbour loop on a neighbour `n` not yet visited,
      after the loop has looked at `seen`. */
  lemma PushedNew(current: Pos, seen: seq<Pos>, n: Pos, visited: set<Pos>, parentMap: map<Pos, Pos>,
                  stack: seq<Pos>, parentMap': map<Pos, Pos>, stack': seq<Pos>)
    requires n !in visited
    requires Pushed(current, seen, visited, parentMap, stack, parentMap', stack')
    ensures Pushed(current, seen + [n], visited, parentMap, stack, parentMap'[n := current], stack' + [n])
  {
    var before := Outside(seen, visited);
    OutsideSnoc(seen, n, visited);
    SnocAssoc(stack, before, n);
    Reparented(current, before, n, parentMap, parentMap');
  }

  /** Giving `n` the parent `current` extends the cells parented by
      `current` from `pushed` to `pushed + [n]`. */
  lemma Reparented(current: Pos, pushed: seq<Pos>, n: Pos, parentMap: map<Pos, Pos>, parentMap': map<Pos, Pos>)
    requires Reparents(current, pushed, parentMap, parentMap')
    ensures Reparents(current, pushed + [n], parentMap, parentMap'[n := current])
  {
    assert forall k :: k in pushed + [n] <==> k in pushed || k == n;
  }

  /** One turn of the neighbour loop on a visited neighbour `n`. */
  lemma PushedSkip(current: Pos, seen: seq<Pos>, n: Pos, visited: set<Pos>, parentMap: map<Pos, Pos>,
                   stack: seq<Pos>, parentMap': map<Pos, Pos>, stack': seq<Pos>)
    requires n in visited
    requires Pushed(current, seen, visited, parentMap, stack, parentMap', stack')
    ensures Pushed(current, seen + [n], visited, parentMap, stack, parentMap', stack')
  {
    var before := Outside(seen, visited);
    OutsideSnoc(seen, n, visited);
    assert before + [] == before;
  }

  /** The neighbour loop of dfs: every neighbour not yet visited gets
      `current` as its parent (replacing any earlier one) and is pushed. */
  method PushUnvisited(current: Pos, neighbors: seq<Pos>, visited: set<Pos>,
                       parentMap: map<Pos, Pos>, stack: seq<Pos>)
    returns (parentMap': map<Pos, Pos>, stack': seq<Pos>)
    ensures stack' == stack + Outside(neighbors, visited)
    ensures forall k :: k in parentMap' <==> k in parentMap || k in Outside(neighbors, visited)
    ensures forall k :: k in parentMap' ==>
      parentMap'[k] == if k in Outside(neighbors, visited) then current else parentMap[k]
  {
    parentMap', stack' := parentMap, stack;
    ghost var seen: seq<Pos> := [];
    assert stack + [] == stack;
    for i := 0 to |neighbors|
      invariant seen == neighbors[..i]
      invariant Pushed(current, seen, visited, parentMap, stack, parentMap', stack')
    {
      var neighbor := neighbors[i];
      SliceSnoc(neighbors, i);
      if neighbor !in visited {
        PushedNew(current, seen, neighbor, visited, parentMap, stack, parentMap', stack');
        parentMap' := parentMap'[neighbor := current];
        stack' := stack' + [neighbor];
      } else {
        PushedSkip(current, seen, neighbor, visited, parentMap, stack, parentMap', stack');
      }
      seen := seen + [neighbor];
    }
    assert seen == neighbors;
  }

  // ---------------------------------------------------------------------
  // The loop invariant of dfs
  // ---------------------------------------------------------------------

  /** `cells` (visitedCells) lists the visited cells once each, start first;
      `order` gives each its position in that list. */
  ghost predicate Recorded(start: Pos, cells: seq<Pos>, visited: set<Pos>, order: map<Pos, nat>) {
    && NoDup(cells) && (|cells| > 0 ==> cells[0] == start)
    && (forall c :: c in visited <==> c in cells)
    && (forall c :: c in order <==> c in visited)
    && (forall i :: 0 <= i < |cells| ==> cells[i] in order && order[cells[i]] == i)
    && (forall c :: c in order ==> order[c] < |cells|)
  }

  /** Start is its own parent; every other recorded parent is a visited cell
      next to its child, and a visited child came later than its parent.
      Visited and stacked cells are passable, and every stacked cell other
      than start has a parent. */
  ghost predicate Parented(grid: Grid, rows: int, cols: int, start: Pos, visited: set<Pos>,
                           parentMap: map<Pos, Pos>, stack: seq<Pos>, order: map<Pos, nat>)
    requires WellFormed(grid, rows, cols)
  {
    && start in parentMap && parentMap[start] == start
    && (forall k :: k in parentMap && k != start ==> parentMap[k] in visited && Adjacent(parentMap[k], k))
    && (forall k :: k in order && k != start ==>
          k in parentMap && parentMap[k] in order && order[parentMap[k]] < order[k])
    && (forall c :: c in visited ==> Passable(grid, rows, cols, c))
    && (forall s :: s in stack ==> Passable(grid, rows, cols, s) && (s == start || s in parentMap))
  }

  /** Before the first pop the stack is just start; afterwards every
      neighbour of a visited cell is visited or still on the stack. */
  ghost predicate Frontier(grid: Grid, rows: int, cols: int, start: Pos, visited: set<Pos>, stack: seq<Pos>)
    requires WellFormed(grid, rows, cols)
  {
    && (visited == {} ==> stack == [start])
    && forall x :: x in visited ==> forall n :: n in Neighbors(grid, rows, cols, x) ==> n in visited || n in stack
  }

  /** What holds at the head of dfs's main loop. */
  ghost predicate Inv(grid: Grid, rows: int, cols: int, start: Pos, end: Pos, cells: seq<Pos>,
                      visited: set<Pos>, parentMap: map<Pos, Pos>, stack: seq<Pos>, order: map<Pos, nat>)
    requires WellFormed(grid, rows, cols)
  {
    && Recorded(start, cells, visited, order)
    && Parented(grid, rows, cols, start, visited, parentMap, stack, order)
    && Frontier(grid, rows, cols, start, visited, stack)
    && end !in visited
  }

  lemma InvInit(grid: Grid, rows: int, cols: int, start: Pos, end: Pos)
    requires WellFormed(grid, rows, cols) && Passable(grid, rows, cols, start)
    ensures Inv(grid, rows, cols, start, end, [], {}, map[start := start], [start], map[])
  {
  }

  /** Popping a cell that is already visited keeps the invariant. */
  lemma SkipStep(grid: Grid, rows: int, cols: int, start: Pos, end: Pos, cells: seq<Pos>,
                 visited: set<Pos>, parentMap: map<Pos, Pos>, stack: seq<Pos>, current: Pos, order: map<Pos, nat>)
    requires WellFormed(grid, rows, cols)
    requires Inv(grid, rows, cols, start, end, cells, visited, parentMap, stack + [current], order)
    requires current in visited
    ensures Inv(grid, rows, cols, start, end, cells, visited, parentMap, stack, order)
  {
  }

  /** Recording a newly popped cell keeps the list and its positions. */
  lemma RecordedStep(start: Pos, cells: seq<Pos>, visited: set<Pos>, order: map<Pos, nat>, current: Pos)
    requires Recorded(start, cells, visited, order) && current !in visited
    requires cells == [] ==> current == start
    ensures Recorded(start, cells + [current], visited + {current}, order[current := |cells|])
  {
    assert forall c :: c in cells ==> c !in [current];
    NoDupAppend(cells, [current]);
    var cells' := cells + [current];
    forall i | 0 <= i < |cells'|
      ensures cells'[i] in order[current := |cells|] && order[current := |cells|][cells'[i]] == i
    {
      if i < |cells| {
        assert cells'[i] == cells[i] && cells[i] in visited;
      }
    }
  }

  /** Visiting `current` and pushing `added`, each next to it, with `current`
      as their parent keeps the parent facts. With `added` empty this is the
      state at the goal pop. */
  lemma ParentedStep(grid: Grid, rows: int, cols: int, start: Pos, cells: seq<Pos>,
                     visited: set<Pos>, parentMap: map<Pos, Pos>, stack: seq<Pos>, order: map<Pos, nat>,
                     current: Pos, added: seq<Pos>, parentMap': map<Pos, Pos>)
    requires WellFormed(grid, rows, cols)
    requires Recorded(start, cells, visited, order) && current !in visited
    requires Parented(grid, rows, cols, start, visited, parentMap, stack + [current], order)
    requires start in visited + {current}
    requires forall n :: n in added ==> Adjacent(current, n) && Passable(grid, rows, cols, n) && n !in visited + {current}
    requires forall k :: k in parentMap' <==> k in parentMap || k in added
    requires forall k :: k in parentMap' ==> parentMap'[k] == if k in added then current else parentMap[k]
    ensures Parented(grid, rows, cols, start, visited + {current}, parentMap', stack + added, order[current := |cells|])
  {
    var order', visited' := order[current := |cells|], visited + {current};
    assert current in stack + [current];
    assert start !in added;
    forall k | k in parentMap' && k != start
      ensures parentMap'[k] in visited' && Adjacent(parentMap'[k], k)
    {
      if k !in added {
        assert k in parentMap;
      }
    }
    forall k | k in order' && k != start
      ensures k in parentMap' && parentMap'[k] in order' && order'[parentMap'[k]] < order'[k]
    {
      if k == current {
        assert parentMap[current] in visited;
      }
    }
    forall s | s in stack + added
      ensures Passable(grid, rows, cols, s) && (s == start || s in parentMap')
    {
      if s !in added {
        assert s in stack + [current];
      }
    }
  }

  /** Visiting `current` and pushing its unvisited neighbours keeps every
      neighbour of a visited cell visited or stacked. */
  lemma FrontierStep(grid: Grid, rows: int, cols: int, start: Pos, visited: set<Pos>, stack: seq<Pos>,
                     current: Pos, neighbors: seq<Pos>)
    requires WellFormed(grid, rows, cols)
    requires Frontier(grid, rows, cols, start, visited, stack + [current])
    requires neighbors == Neighbors(grid, rows, cols, current)
    ensures Frontier(grid, rows, cols, start, visited + {current},
                     stack + Outside(neighbors, visited + {current}))
  {
    var visited', stack' := visited + {current}, stack + Outside(neighbors, visited + {current});
    forall x, n | x in visited' && n in Neighbors(grid, rows, cols, x)
      ensures n in visited' || n in stack'
    {
      if x != current {
        assert n in visited || n in stack + [current];
      }
    }
  }

  /** The second half of a round of dfs: `current`, just popped, not visited
      before and not the end, is now visited; push its unvisited neighbours. */
  method Expand(grid: Grid, rows: int, cols: int, ghost start: Pos, ghost end: Pos, ghost cells: seq<Pos>,
                ghost visited0: set<Pos>, ghost order: map<Pos, nat>,
                current: Pos, visited: set<Pos>, parentMap: map<Pos, Pos>, stack: seq<Pos>)
    returns (parentMap': map<Pos, Pos>, stack': seq<Pos>)
    requires WellFormed(grid, rows, cols) && current != end
    requires Inv(grid, rows, cols, start, end, cells, visited0, parentMap, stack + [current], order)
    requires current !in visited0 && visited == visited0 + {current}
    ensures Inv(grid, rows, cols, start, end, cells + [current], visited, parentMap', stack', order[current := |cells|])
  {
    var neighbors := GetNeighbors(current, grid, rows, cols);
    parentMap', stack' := PushUnvisited(current, neighbors, visited, parentMap, stack);
    ghost var added := Outside(neighbors, visited);
    assert cells == [] ==> current == start by {
      if cells == [] {
        assert visited0 == {};
        assert stack + [current] == [start];
      }
    }
    RecordedStep(start, cells, visited0, order, current);
    ParentedStep(grid, rows, cols, start, cells, visited0, parentMap, stack, order, current, added, parentMap');
    FrontierStep(grid, rows, cols, start, visited0, stack, current, neighbors);
  }

  /** Every visited cell but the first has a parent listed before it. */
  lemma EarlierParents(grid: Grid, rows: int, cols: int, start: Pos, cells: seq<Pos>,
                       visited: set<Pos>, parentMap: map<Pos, Pos>, stack: seq<Pos>, order: map<Pos, nat>)
    requires WellFormed(grid, rows, cols)
    requires Recorded(start, cells, visited, order)
    requires Parented(grid, rows, cols, start, visited, parentMap, stack, order)
    ensures forall i :: 0 < i < |cells| ==> cells[i] in parentMap && parentMap[cells[i]] in cells[..i]
  {
    forall i | 0 < i < |cells|
      ensures cells[i] in parentMap && parentMap[cells[i]] in cells[..i]
    {
      var k := cells[i];
      assert k != start by {
        assert cells[0] == start;
      }
      var p := parentMap[k];
      var j :| 0 <= j < |cells| && cells[j] == p;
      assert cells[..i][j] == p;
    }
  }

  /** At the goal pop: the chain of parents is a walk from start to end over
      visited cells, and the visited list ends with the end. */
  lemma FoundPath(grid: Grid, rows: int, cols: int, start: Pos, end: Pos, cells: seq<Pos>,
                  visited: set<Pos>, parentMap: map<Pos, Pos>, stack: seq<Pos>, order: map<Pos, nat>)
    requires WellFormed(grid, rows, cols) && Passable(grid, rows, cols, start)
    requires Inv(grid, rows, cols, start, end, cells, visited, parentMap, stack + [end], order)
    ensures var cells', order' := cells + [end], order[end := |cells|];
      && Recorded(start, cells', visited + {end}, order')
      && Parented(grid, rows, cols, start, visited + {end}, parentMap, stack, order')
      && Ranked(parentMap, order') && end in order'
      && PathFrom(grid, rows, cols, start, end, Chain(start, end, parentMap, order'))
      && forall c :: c in Chain(start, end, parentMap, order') ==> c in cells'
  {
    var cells', order' := cells + [end], order[end := |cells|];
    assert cells == [] ==> end == start by {
      if cells == [] {
        assert visited == {};
        assert stack + [end] == [start];
        assert (stack + [end])[|stack|] == end;
      }
    }
    RecordedStep(start, cells, visited, order, end);
    ParentedStep(grid, rows, cols, start, cells, visited, parentMap, stack, order, end, [], parentMap);
    assert stack + [] == stack;
    ChainIsPath(grid, rows, cols, start, end, parentMap, order');
    ChainWithin(start, end, parentMap, order', Elems(cells'));
  }

  /** An emptied stack leaves a visited set closed under neighbours that
      holds start but not end. */
  lemma Exhausted(grid: Grid, rows: int, cols: int, start: Pos, end: Pos, cells: seq<Pos>,
                  visited: set<Pos>, parentMap: map<Pos, Pos>, order: map<Pos, nat>)
    requires WellFormed(grid, rows, cols)
    requires Inv(grid, rows, cols, start, end, cells, visited, parentMap, [], order)
    ensures !Reachable(grid, rows, cols, start, end)
    ensures |cells| > 0 && cells[0] == start
  {
    assert visited != {};
    var c :| c in visited;
    assert c in cells;
    ClosedSetSeparates(grid, rows, cols, visited, start, end);
  }

  /** dfs: pop the top of the stack, skip it when already visited, otherwise
      visit it; stop at the end, or else push its unvisited neighbours. */
  method Dfs(grid: Grid, start: Pos, end: Pos, rows: int, cols: int)
    returns (result: SearchResult, ghost parents: map<Pos, Pos>, ghost order: map<Pos, nat>)
    requires WellFormed(grid, rows, cols) && Passable(grid, rows, cols, start)
    ensures result.found <==> Reachable(grid, rows, cols, start, end)
    ensures NoDup(result.visitedCells) && |result.visitedCells| > 0 && result.visitedCells[0] == start
    ensures forall c :: c in result.visitedCells ==> Passable(grid, rows, cols, c)
    ensures forall k :: k in parents && k != start ==>
      parents[k] in result.visitedCells && Adjacent(parents[k], k)
    ensures forall i :: 0 < i < |result.visitedCells| ==>
      result.visitedCells[i] in parents && parents[result.visitedCells[i]] in result.visitedCells[..i]
    ensures result.found ==>
      && result.visitedCells[|result.visitedCells| - 1] == end
      && Ranked(parents, order) && end in order
      && result.path == Chain(start, end, parents, order)
      && PathFrom(grid, rows, cols, start, end, result.path)
      && (forall c :: c in result.path ==> c in result.visitedCells)
    ensures !result.found ==> result.path == [] && end !in result.visitedCells
  {
    var visited: set<Pos> := {};
    var parentMap: map<Pos, Pos> := map[start := start];
    var visitedCells: seq<Pos> := [];
    var stack: seq<Pos> := [start];
    order := map[];
    InvInit(grid, rows, cols, start, end);

    while |stack| > 0
      invariant Inv(grid, rows, cols, start, end, visitedCells, visited, parentMap, stack, order)
      decreases AllCells(rows, cols) - visited, |stack|
    {
      ghost var cells0, visited0, order0 := visitedCells, visited, order;
      LastInit(stack);
      var current := stack[|stack| - 1];
      stack := stack[..|stack| - 1];

      if current in visited {
        SkipStep(grid, rows, cols, start, end, visitedCells, visited, parentMap, stack, current, order);
        continue;
      }

      visited := visited + {current};
      visitedCells := visitedCells + [current];
      order := order[current := |cells0|];

      if current == end {
        FoundPath(grid, rows, cols, start, end, cells0, visited0, parentMap, stack, order0);
        EarlierParents(grid, rows, cols, start, visitedCells, visited, parentMap, stack, order);
        PathFromReachable(grid, rows, cols, start, end, Chain(start, end, parentMap, order));
        var path := ReconstructPath(start, end, parentMap, order);
        return SearchResult(path, visitedCells, true), parentMap, order;
      }

      parentMap, stack := Expand(grid, rows, cols, start, end, cells0, visited0, order0,
                                 current, visited, parentMap, stack);
      FewerUnvisited(grid, rows, cols, visited0, visited);
    }
    Exhausted(grid, rows, cols, start, end, visitedCells, visited, parentMap, order);
    EarlierParents(grid, rows, cols, start, visitedCells, visited, parentMap, stack, order);
    return SearchResult([], visitedCells, false), parentMap, order;
  }

  lemma LastInit(s: seq<Pos>)
    requires |s| > 0
    ensures s == s[..|s| - 1] + [s[|s| - 1]]
  {
  }
}
