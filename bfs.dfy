/**
 * Breadth-first Search (bfs.js): a FIFO queue, nodes marked visited when
 * they are enqueued, the finish detected when it is dequeued.
 */
module Bfs {
  import opened Grids

  /** The loop at lines 42-46: mark each neighbour visited, link it to `current`, enqueue it. */
  method EnqueueNeighbors(grid: array2<Node>, neighbors: seq<Pos>, current: Pos, queue: seq<Pos>,
                          ghost orig: map<Pos, Node>, ghost level: map<Pos, nat>, ghost parent: map<Pos, Pos>)
    returns (queue': seq<Pos>)
    requires forall q :: q in neighbors ==> InBounds(grid, q)
    requires Shows(grid, orig, level, parent) && current in level
    modifies grid
    ensures queue' == queue + neighbors
    ensures forall p :: InBounds(grid, p) ==>
      At(grid, p) == if p in neighbors then old(At(grid, p)).(isVisited := true, previousNode := Some(current))
                     else old(At(grid, p))
    ensures Shows(grid, orig, Deepen(level, current, neighbors), Adopt(parent, current, neighbors))
  {
    queue' := queue;
    for k := 0 to |neighbors|
      invariant queue' == queue + neighbors[..k]
      invariant forall p :: InBounds(grid, p) ==>
        At(grid, p) == if p in neighbors[..k] then old(At(grid, p)).(isVisited := true, previousNode := Some(current))
                       else old(At(grid, p))
    {
      var neighbor := neighbors[k];
      assert neighbor in neighbors;
      grid[neighbor.row, neighbor.col] := grid[neighbor.row, neighbor.col].(isVisited := true);
      grid[neighbor.row, neighbor.col] := grid[neighbor.row, neighbor.col].(previousNode := Some(current));
      queue' := queue' + [neighbor];
      assert neighbors[..k + 1] == neighbors[..k] + [neighbor];
    }
    assert neighbors[..|neighbors|] == neighbors;
    forall p | InBounds(grid, p)
      ensures p in orig && At(grid, p) == orig[p].(isVisited := p in Deepen(level, current, neighbors),
                                                   previousNode := Lookup(Adopt(parent, current, neighbors), p))
    {
      assert old(At(grid, p)) == orig[p].(isVisited := p in level, previousNode := Lookup(parent, p));
    }
  }

  /**
   * The marked cells in order of marking (`visited + queue`): the start
   * first, no cell twice, every other one open, and exactly the keys of `level`.
   */
  ghost predicate Marked(start: Pos, cells: set<Pos>, open: set<Pos>,
                         visited: seq<Pos>, queue: seq<Pos>, level: map<Pos, nat>)
  {
    var marked := visited + queue;
    |marked| > 0 && marked[0] == start && Distinct(marked) &&
    open <= cells && start in cells &&
    (forall p :: p in level <==> p in marked) &&
    (forall p :: p in level && p != start ==> p in open)
  }

  /** `parent` mirrors the links: each one leads one level down, ending at the start at level 0. */
  ghost predicate Levels(start: Pos, level: map<Pos, nat>, parent: map<Pos, Pos>) {
    Linked(parent, start, level) &&
    level[start] == 0 &&
    (forall p {:trigger parent[p]} :: p in parent ==> p in level && parent[p] in level && level[p] == level[parent[p]] + 1)
  }

  /** Levels never decrease along the marking order and span at most one past the queue's head. */
  ghost predicate Ordered(visited: seq<Pos>, queue: seq<Pos>, level: map<Pos, nat>) {
    var marked := visited + queue;
    (forall a, b :: 0 <= a < b < |marked| ==>
      marked[a] in level && marked[b] in level && level[marked[a]] <= level[marked[b]]) &&
    (queue != [] ==> marked[|marked| - 1] in level && queue[0] in level &&
                     level[marked[|marked| - 1]] <= level[queue[0]] + 1)
  }

  /** Every dequeued cell has all its open neighbours marked, at most one level deeper. */
  ghost predicate Expanded(visited: seq<Pos>, open: set<Pos>, level: map<Pos, nat>) {
    forall p, q :: p in visited && q in open && Adjacent(p, q) ==>
      p in level && q in level && level[q] <= level[p] + 1
  }

  /** The state of the search loop in ghost terms. */
  ghost predicate BfsInv(start: Pos, finish: Pos, cells: set<Pos>, open: set<Pos>,
                         visited: seq<Pos>, queue: seq<Pos>, level: map<Pos, nat>, parent: map<Pos, Pos>)
  {
    Marked(start, cells, open, visited, queue, level) &&
    Levels(start, level, parent) &&
    Ordered(visited, queue, level) &&
    Expanded(visited, open, level) &&
    finish !in visited
  }

  /** `level` extended with the newly marked neighbours, one level below `cur`. */
  ghost function Deepen(level: map<Pos, nat>, cur: Pos, nbrs: seq<Pos>): (r: map<Pos, nat>)
    requires cur in level
    ensures forall p :: p in r <==> p in level || p in nbrs
    ensures forall p :: p in r ==> r[p] == if p in nbrs then level[cur] + 1 else level[p]
  {
    level + map q | q in nbrs :: level[cur] + 1
  }

  /** `parent` extended with links from the newly marked neighbours to `cur`. */
  ghost function Adopt(parent: map<Pos, Pos>, cur: Pos, nbrs: seq<Pos>): (r: map<Pos, Pos>)
    ensures forall p :: p in r <==> p in parent || p in nbrs
    ensures forall p :: p in r ==> r[p] == if p in nbrs then cur else parent[p]
  {
    parent + map q | q in nbrs :: cur
  }

  /** Marking fresh cells shrinks the set of unmarked cells; marking none leaves it. */
  lemma UnmarkedShrinks(cells: set<Pos>, level: map<Pos, nat>, cur: Pos, nbrs: seq<Pos>)
    requires cur in level
    requires forall q :: q in nbrs ==> q in cells && q !in level
    ensures nbrs != [] ==> cells - Deepen(level, cur, nbrs).Keys < cells - level.Keys
    ensures nbrs == [] ==> cells - Deepen(level, cur, nbrs).Keys == cells - level.Keys
  {
    if nbrs != [] {
      assert nbrs[0] in cells - level.Keys;
    }
  }

  lemma StepMarked(start: Pos, cells: set<Pos>, open: set<Pos>, visited: seq<Pos>, queue: seq<Pos>,
                   level: map<Pos, nat>, nbrs: seq<Pos>, level': map<Pos, nat>)
    requires Marked(start, cells, open, visited, queue, level) && queue != []
    requires FreshNeighbors(open, queue[0], level, nbrs)
    requires forall p :: p in level' <==> p in level || p in nbrs
    ensures Marked(start, cells, open, visited + [queue[0]], queue[1..] + nbrs, level')
  {
    var marked := visited + queue;
    var marked' := visited + [queue[0]] + (queue[1..] + nbrs);
    assert marked' == marked + nbrs;
    forall a, b | 0 <= a < b < |marked'| ensures marked'[a] != marked'[b] {
      if b >= |marked| && a < |marked| {
        assert marked'[a] in level;
      }
    }
  }

  lemma StepLevels(start: Pos, level: map<Pos, nat>, parent: map<Pos, Pos>, cur: Pos, nbrs: seq<Pos>)
    requires Levels(start, level, parent) && cur in level
    requires forall q :: q in nbrs ==> q !in level && Adjacent(cur, q)
    ensures Levels(start, Deepen(level, cur, nbrs), Adopt(parent, cur, nbrs))
  {
  }

  lemma StepOrdered(visited: seq<Pos>, queue: seq<Pos>, level: map<Pos, nat>, nbrs: seq<Pos>)
    requires Ordered(visited, queue, level) && queue != []
    requires forall q :: q in nbrs ==> q !in level
    ensures Ordered(visited + [queue[0]], queue[1..] + nbrs, Deepen(level, queue[0], nbrs))
  {
    var cur := queue[0];
    var level' := Deepen(level, cur, nbrs);
    var marked := visited + queue;
    var visited', queue' := visited + [cur], queue[1..] + nbrs;
    var marked' := visited' + queue';
    assert marked' == marked + nbrs;
    assert marked[|visited|] == cur;
    forall a, b | 0 <= a < b < |marked'|
      ensures marked'[a] in level' && marked'[b] in level' && level'[marked'[a]] <= level'[marked'[b]]
    {
      if a < |marked| {
        assert marked'[a] == marked[a] && marked[a] !in nbrs;
        assert level[marked[a]] <= level[marked[|marked| - 1]];
        if b < |marked| {
          assert marked'[b] == marked[b] && marked[b] !in nbrs;
        }
      }
    }
    if queue' != [] {
      assert marked'[|visited'|] == queue'[0];
      assert marked'[|visited|] == cur;
    }
  }

  lemma StepExpanded(visited: seq<Pos>, queue: seq<Pos>, open: set<Pos>, level: map<Pos, nat>, nbrs: seq<Pos>)
    requires Expanded(visited, open, level) && Ordered(visited, queue, level) && queue != []
    requires forall p :: p in level ==> p in visited + queue
    requires forall q :: q in nbrs <==> q in open && Adjacent(queue[0], q) && q !in level
    ensures Expanded(visited + [queue[0]], open, Deepen(level, queue[0], nbrs))
  {
    var cur := queue[0];
    var marked := visited + queue;
    assert marked[|visited|] == cur;
    assert cur in level;
    forall q | q in open && Adjacent(cur, q) && q in level ensures level[q] <= level[cur] + 1 {
      var k :| 0 <= k < |marked| && marked[k] == q;
      assert level[marked[k]] <= level[marked[|marked| - 1]];
    }
  }

  /** One pass of the loop body that does not meet the finish keeps the invariant. */
  lemma BfsStep(start: Pos, finish: Pos, cells: set<Pos>, open: set<Pos>,
                visited: seq<Pos>, queue: seq<Pos>, level: map<Pos, nat>, parent: map<Pos, Pos>, nbrs: seq<Pos>)
    requires BfsInv(start, finish, cells, open, visited, queue, level, parent)
    requires queue != [] && queue[0] != finish
    requires FreshNeighbors(open, queue[0], level, nbrs)
    ensures BfsInv(start, finish, cells, open, visited + [queue[0]], queue[1..] + nbrs,
                   Deepen(level, queue[0], nbrs),
                   Adopt(parent, queue[0], nbrs))
  {
    var cur := queue[0];
    assert (visited + queue)[|visited|] == cur;
    assert cur in level;
    StepMarked(start, cells, open, visited, queue, level, nbrs, Deepen(level, cur, nbrs));
    StepLevels(start, level, parent, cur, nbrs);
    StepOrdered(visited, queue, level, nbrs);
    StepExpanded(visited, queue, open, level, nbrs);
  }

  /** Every marked cell of level below `f` has been dequeued. */
  ghost predicate VisitedBelow(visited: seq<Pos>, level: map<Pos, nat>, f: nat) {
    forall p :: p in level && level[p] < f ==> p in visited
  }

  /** Since levels never decrease along the marking order, the cells below the head's level are dequeued. */
  lemma HeadBound(start: Pos, cells: set<Pos>, open: set<Pos>, visited: seq<Pos>, queue: seq<Pos>, level: map<Pos, nat>)
    requires Marked(start, cells, open, visited, queue, level) && Ordered(visited, queue, level) && queue != []
    ensures queue[0] in level && VisitedBelow(visited, level, level[queue[0]])
  {
    var marked := visited + queue;
    assert marked[|visited|] == queue[0];
    assert forall j :: |visited| <= j < |marked| ==> level[queue[0]] <= level[marked[j]];
    forall p | p in level && level[p] < level[queue[0]] ensures p in visited {
      var k :| 0 <= k < |marked| && marked[k] == p;
    }
  }

  /**
   * When the cells below level `f` are all dequeued, every path from the
   * start reaches, within its first `i <= f` steps, only marked cells of
   * level at most `i`.
   */
  lemma {:induction false} LevelBound(start: Pos, open: set<Pos>, visited: seq<Pos>, level: map<Pos, nat>, f: nat,
                                      w: seq<Pos>, i: nat)
    requires Expanded(visited, open, level) && VisitedBelow(visited, level, f)
    requires start in level && level[start] == 0
    requires IsPathIn(open, w) && w[0] == start
    requires i < |w| && i <= f
    ensures w[i] in level && level[w[i]] <= i
  {
    if i > 0 {
      LevelBound(start, open, visited, level, f, w, i - 1);
      assert w[i - 1] in visited;
      assert Adjacent(w[i - 1], w[i]);
    }
  }

  /** A path from the start to a marked cell whose lower levels are all dequeued has more cells than its level. */
  lemma BfsShortest(start: Pos, open: set<Pos>, visited: seq<Pos>, level: map<Pos, nat>, finish: Pos)
    requires Expanded(visited, open, level) && finish in level && VisitedBelow(visited, level, level[finish])
    requires start in level && level[start] == 0
    ensures NoShorterPath(open, start, finish, level[finish] + 1)
  {
    forall w | IsPathIn(open, w) && w[0] == start && w[|w| - 1] == finish ensures level[finish] + 1 <= |w| {
      if |w| <= level[finish] {
        LevelBound(start, open, visited, level, level[finish], w, |w| - 1);
      }
    }
  }

  /** Once the queue is empty the visited nodes are exactly the cells reachable from the start. */
  lemma BfsExhausted(start: Pos, finish: Pos, cells: set<Pos>, open: set<Pos>,
                     visited: seq<Pos>, level: map<Pos, nat>, parent: map<Pos, Pos>)
    requires BfsInv(start, finish, cells, open, visited, [], level, parent)
    ensures forall p :: p in visited <==> ReachesIn(open, start, p)
  {
    assert visited + [] == visited;
    forall p | ReachesIn(open, start, p) ensures p in visited {
      ReachesInClosed(level.Keys, open, start, p);
    }
    forall p | p in visited ensures ReachesIn(open, start, p) {
      LinkedReaches(parent, start, level, open, p);
    }
  }

  /** Along links that raise the level by one, the level of a chain's node is its index. */
  lemma {:induction false} ChainLevels(start: Pos, level: map<Pos, nat>, parent: map<Pos, Pos>, path: seq<Pos>, k: nat)
    requires Levels(start, level, parent)
    requires |path| > 0 && path[0] == start
    requires forall i :: 0 <= i < |path| ==> path[i] in level
    requires forall i :: 0 <= i < |path| - 1 ==> Lookup(parent, path[i + 1]) == Some(path[i])
    requires k < |path|
    ensures level[path[k]] == k
  {
    if k > 0 {
      ChainLevels(start, level, parent, path, k - 1);
      assert Lookup(parent, path[k]) == Some(path[k - 1]);
      assert parent[path[k]] == path[k - 1];
    }
  }

  /** The last node of such a chain has the chain's length less one as its level. */
  lemma ChainEndLevel(start: Pos, level: map<Pos, nat>, parent: map<Pos, Pos>, path: seq<Pos>)
    requires Levels(start, level, parent)
    requires |path| > 0 && path[0] == start
    requires forall i :: 0 <= i < |path| ==> path[i] in level
    requires forall i :: 0 <= i < |path| - 1 ==> Lookup(parent, path[i + 1]) == Some(path[i])
    ensures path[|path| - 1] in level && level[path[|path| - 1]] + 1 == |path|
  {
    ChainLevels(start, level, parent, path, |path| - 1);
  }

  /** Every marked cell is a cell of the grid reachable from the start. */
  lemma BfsMarkedReach(start: Pos, finish: Pos, cells: set<Pos>, open: set<Pos>,
                       visited: seq<Pos>, queue: seq<Pos>, level: map<Pos, nat>, parent: map<Pos, Pos>)
    requires BfsInv(start, finish, cells, open, visited, queue, level, parent)
    ensures forall p :: p in level ==> p in cells && ReachesIn(open, start, p)
  {
    forall p | p in level ensures p in cells && ReachesIn(open, start, p) {
      LinkedReaches(parent, start, level, open, p);
    }
  }

  /** The neighbour query, read through the snapshot: exactly the fresh open neighbours. */
  lemma UnvisitedAreFresh(grid: array2<Node>, orig: map<Pos, Node>, open: set<Pos>,
                          level: map<Pos, nat>, parent: map<Pos, Pos>, cur: Pos)
    requires Shows(grid, orig, level, parent) && InBounds(grid, cur)
    requires forall p :: p in orig ==> InBounds(grid, p)
    requires forall p :: p in open <==> p in orig && Enterable(orig[p], Weighted)
    ensures FreshNeighbors(open, cur, level, GetValidNeighbors(grid, cur))
  {
    var nbrs := GetValidNeighbors(grid, cur);
    forall q ensures q in nbrs <==> q in open && Adjacent(cur, q) && q !in level {
      if q in orig {
        assert InBounds(grid, q) ==> At(grid, q).weight == orig[q].weight;
      }
    }
  }

  /** A prefix of the marked sequence, the trace, has no cell twice and starts at the start. */
  lemma TraceOk(start: Pos, cells: set<Pos>, open: set<Pos>, visited: seq<Pos>, queue: seq<Pos>, level: map<Pos, nat>)
    requires Marked(start, cells, open, visited, queue, level) && queue != []
    ensures var trace := visited + [queue[0]];
      trace[0] == start && Distinct(trace) && forall p :: p in trace ==> p in level
  {
    var marked := visited + queue;
    var trace := visited + [queue[0]];
    assert forall i :: 0 <= i < |trace| ==> trace[i] == marked[i];
  }

  /** The loop starts with the start enqueued at level 0. */
  lemma BfsInit(start: Pos, finish: Pos, cells: set<Pos>, open: set<Pos>)
    requires start in cells && open <= cells
    ensures BfsInv(start, finish, cells, open, [], [start], map[start := 0], map[])
  {
    assert [] + [start] == [start];
  }

  /**
   * The loop body after the finish test: fetch the unvisited neighbours of
   * the dequeued node, then mark, link and enqueue each. The ghost results
   * are the level and parent maps the grid then shows.
   */
  method ExpandNode(grid: array2<Node>, currentNode: Pos, queue: seq<Pos>,
                    ghost start: Pos, ghost finish: Pos, ghost cells: set<Pos>, ghost open: set<Pos>,
                    ghost orig: map<Pos, Node>, ghost visited0: seq<Pos>, ghost queue0: seq<Pos>,
                    ghost level: map<Pos, nat>, ghost parent: map<Pos, Pos>)
    returns (queue': seq<Pos>, ghost level': map<Pos, nat>, ghost parent': map<Pos, Pos>)
    requires BfsInv(start, finish, cells, open, visited0, queue0, level, parent)
    requires Shows(grid, orig, level, parent)
    requires forall p :: p in orig ==> InBounds(grid, p)
    requires forall p :: p in open <==> p in orig && Enterable(orig[p], Weighted)
    requires forall p :: p in cells <==> InBounds(grid, p)
    requires queue0 != [] && queue0[0] == currentNode && currentNode != finish && queue == queue0[1..]
    modifies grid
    ensures BfsInv(start, finish, cells, open, visited0 + [currentNode], queue', level', parent')
    ensures Shows(grid, orig, level', parent')
    ensures cells - level'.Keys < cells - level.Keys ||
            (cells - level'.Keys == cells - level.Keys && |queue'| < |queue0|)
  {
    assert (visited0 + queue0)[|visited0|] == currentNode;
    assert currentNode in level && currentNode in cells;
    var unvisitedNeighbors := GetValidNeighbors(grid, currentNode);
    UnvisitedAreFresh(grid, orig, open, level, parent, currentNode);
    BfsStep(start, finish, cells, open, visited0, queue0, level, parent, unvisitedNeighbors);
    queue' := EnqueueNeighbors(grid, unvisitedNeighbors, currentNode, queue, orig, level, parent);
    UnmarkedShrinks(cells, level, currentNode, unvisitedNeighbors);
    level' := Deepen(level, currentNode, unvisitedNeighbors);
    parent' := Adopt(parent, currentNode, unvisitedNeighbors);
  }

  /** Lines 30-38: the finish was dequeued; trace back the path and report. */
  method ReportFound(grid: array2<Node>, visitedNodesInOrder: seq<Pos>,
                     ghost start: Pos, finish: Pos, ghost cells: set<Pos>, ghost open: set<Pos>,
                     ghost orig: map<Pos, Node>, ghost visited0: seq<Pos>, ghost queue0: seq<Pos>,
                     ghost level: map<Pos, nat>, ghost parent: map<Pos, Pos>)
    returns (res: SearchResult)
    requires BfsInv(start, finish, cells, open, visited0, queue0, level, parent)
    requires queue0 != [] && queue0[0] == finish && visitedNodesInOrder == visited0 + [finish]
    requires Shows(grid, orig, level, parent)
    requires forall p :: p in orig ==> InBounds(grid, p)
    requires forall p :: p in open <==> p in orig && Enterable(orig[p], Weighted)
    requires forall p :: p in cells <==> InBounds(grid, p)
    ensures res.visitedNodesInOrder == visitedNodesInOrder
    ensures TraceFrom(grid, Weighted, start, visitedNodesInOrder)
    ensures res.numNodesVisited == |visitedNodesInOrder| - 1
    ensures res.shortestPath.Some?
    ensures ShortestWalk(grid, Weighted, start, finish, res.shortestPath.value)
    ensures FollowsLinks(grid, res.shortestPath.value)
    ensures res.shortestPathLength == |res.shortestPath.value| - 1
  {
    ShowsLinked(grid, orig, cells, start, level, parent);
    var shortestPath := GetNodesInShortestPathOrder(grid, finish, start, level);
    ChainFollowsParents(grid, orig, start, level, parent, shortestPath);
    BackChainIsPath(grid, start, level, shortestPath, open);
    ChainEndLevel(start, level, parent, shortestPath);
    HeadBound(start, cells, open, visited0, queue0, level);
    BfsShortest(start, open, visited0, level, finish);
    ShowsOpen(grid, orig, Weighted, open, level, parent);
    FoundWalk(grid, start, finish, level, open, shortestPath);
    BfsMarkedReach(start, finish, cells, open, visited0, queue0, level, parent);
    TraceOk(start, cells, open, visited0, queue0, level);
    MarkedTrace(grid, start, cells, open, level, visitedNodesInOrder);
    res := SearchResult(visitedNodesInOrder, |visitedNodesInOrder| - 1, Some(shortestPath), |shortestPath| - 1);
  }

  /** The back chain to the finish, read as a walk of the grid, is a shortest one. */
  lemma FoundWalk(grid: array2<Node>, start: Pos, finish: Pos, level: map<Pos, nat>, open: set<Pos>, path: seq<Pos>)
    requires IsBackChain(grid, start, level, path) && path[|path| - 1] == finish
    requires IsPathIn(open, path) && Distinct(path)
    requires finish in level && level[finish] + 1 == |path|
    requires NoShorterPath(open, start, finish, level[finish] + 1)
    requires Open(grid, Weighted) == open
    ensures ShortestWalk(grid, Weighted, start, finish, path) && FollowsLinks(grid, path)
  {
  }

  /** A trace made of marked cells is a trace of reachable cells of the grid. */
  lemma MarkedTrace(grid: array2<Node>, start: Pos, cells: set<Pos>, open: set<Pos>, level: map<Pos, nat>, trace: seq<Pos>)
    requires forall p :: p in level ==> p in cells && ReachesIn(open, start, p)
    requires forall p :: p in cells <==> InBounds(grid, p)
    requires Open(grid, Weighted) == open
    requires |trace| > 0 && trace[0] == start && Distinct(trace) && forall p :: p in trace ==> p in level
    ensures TraceFrom(grid, Weighted, start, trace)
  {
  }

  /** Lines 49-55: the queue ran dry without meeting the finish. */
  method ReportExhausted(grid: array2<Node>, visitedNodesInOrder: seq<Pos>,
                         ghost start: Pos, ghost finish: Pos, ghost cells: set<Pos>, ghost open: set<Pos>,
                         ghost orig: map<Pos, Node>, ghost level: map<Pos, nat>, ghost parent: map<Pos, Pos>)
    returns (res: SearchResult)
    requires BfsInv(start, finish, cells, open, visitedNodesInOrder, [], level, parent)
    requires Shows(grid, orig, level, parent)
    requires forall p :: p in orig ==> InBounds(grid, p)
    requires forall p :: p in open <==> p in orig && Enterable(orig[p], Weighted)
    requires forall p :: p in cells <==> InBounds(grid, p)
    ensures res.visitedNodesInOrder == visitedNodesInOrder
    ensures TraceFrom(grid, Weighted, start, visitedNodesInOrder)
    ensures finish !in visitedNodesInOrder
    ensures forall p :: p in visitedNodesInOrder <==> Reachable(grid, Weighted, start, p)
    ensures res == SearchResult(visitedNodesInOrder, |visitedNodesInOrder| - 1, Some([]), 0)
  {
    BfsExhausted(start, finish, cells, open, visitedNodesInOrder, level, parent);
    BfsMarkedReach(start, finish, cells, open, visitedNodesInOrder, [], level, parent);
    ShowsOpen(grid, orig, Weighted, open, level, parent);
    assert visitedNodesInOrder + [] == visitedNodesInOrder;
    MarkedTrace(grid, start, cells, open, level, visitedNodesInOrder);
    res := SearchResult(visitedNodesInOrder, |visitedNodesInOrder| - 1, Some([]), 0);
  }

  /** `bfs`. */
  method Bfs(grid: array2<Node>, start: Pos, finish: Pos) returns (res: SearchResult)
    requires InBounds(grid, start) && InBounds(grid, finish)
    requires Unsearched(grid)
    modifies grid
    ensures TraceFrom(grid, Weighted, start, res.visitedNodesInOrder)
    ensures res.numNodesVisited == |res.visitedNodesInOrder| - 1
    ensures res.shortestPath.Some?
    ensures finish in res.visitedNodesInOrder ==>
      EndsAt(res.visitedNodesInOrder, finish) &&
      ShortestWalk(grid, Weighted, start, finish, res.shortestPath.value) &&
      FollowsLinks(grid, res.shortestPath.value) &&
      res.shortestPathLength == |res.shortestPath.value| - 1
    ensures finish !in res.visitedNodesInOrder ==>
      res.shortestPath == Some([]) && res.shortestPathLength == 0 &&
      forall p :: p in res.visitedNodesInOrder <==> Reachable(grid, Weighted, start, p)
    ensures res.shortestPath.value != [] <==> Reachable(grid, Weighted, start, finish)
    ensures forall p :: InBounds(grid, p) ==> SameTerrain(At(grid, p), old(At(grid, p)))
  {
    ghost var orig := Snapshot(grid);
    ghost var cells := Cells(grid);
    ghost var open := Open(grid, Weighted);
    assert forall p :: p in orig ==> !orig[p].isVisited && orig[p].previousNode == None;

    var visitedNodesInOrder: seq<Pos> := [];
    var queue: seq<Pos> := [];
    grid[start.row, start.col] := grid[start.row, start.col].(isVisited := true);
    queue := queue + [start];

    ghost var level: map<Pos, nat> := map[start := 0];
    ghost var parent: map<Pos, Pos> := map[];
    FirstMark(grid, orig, start);
    BfsInit(start, finish, cells, open);

    while queue != []
      invariant BfsInv(start, finish, cells, open, visitedNodesInOrder, queue, level, parent)
      invariant Shows(grid, orig, level, parent)
      invariant forall p :: p in orig ==> InBounds(grid, p)
      invariant forall p :: p in open <==> p in orig && Enterable(orig[p], Weighted)
      invariant forall p :: p in cells <==> InBounds(grid, p)
      decreases cells - level.Keys, |queue|
    {
      ghost var visited0, queue0 := visitedNodesInOrder, queue;
      var currentNode := queue[0];
      queue := queue[1..];
      visitedNodesInOrder := visitedNodesInOrder + [currentNode];

      if currentNode == finish {
        res := ReportFound(grid, visitedNodesInOrder, start, finish, cells, open, orig, visited0, queue0, level, parent);
        ShowsSameTerrain(grid, orig, level, parent);
        return;
      }

      queue, level, parent := ExpandNode(grid, currentNode, queue, start, finish, cells, open, orig,
                                         visited0, queue0, level, parent);
    }

    res := ReportExhausted(grid, visitedNodesInOrder, start, finish, cells, open, orig, level, parent);
    ShowsSameTerrain(grid, orig, level, parent);
  }
}
