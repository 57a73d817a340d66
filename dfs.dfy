/**
 * Depth-first Search (dfs.js): a recursive descent that marks a node when
 * it is entered, links each neighbour before descending into it, and
 * unwinds at once when the finish is entered.
 */
module Dfs {
  import opened Grids

  /** `getUnvisitedNeighbors`: in-bounds down, right, up, left cells, unvisited and not walls. */
  function GetUnvisitedNeighbors(grid: array2<Node>, p: Pos): (r: seq<Pos>)
    reads grid
    requires InBounds(grid, p)
    ensures forall q :: q in r <==>
      InBounds(grid, q) && Adjacent(p, q) && !At(grid, q).isVisited && At(grid, q).nodeType != Some(WALL)
    ensures InDirOrder(p, DOWN_RIGHT_UP_LEFT, r)
    ensures Distinct(r)
  {
    NeighborsMembers(grid, p, DOWN_RIGHT_UP_LEFT, NotWall);
    NeighborsOrdered(grid, p, DOWN_RIGHT_UP_LEFT, NotWall);
    NeighborsDistinct(grid, p, DOWN_RIGHT_UP_LEFT, NotWall);
    Neighbors(grid, p, DOWN_RIGHT_UP_LEFT, NotWall)
  }

  // ---------------------------------------------------------------------------
  // The ghost state of a descent

  /** What holds between calls: the trace is numbered, entered cells are open, links form a tree. */
  ghost predicate DfsInv(start: Pos, cells: set<Pos>, open: set<Pos>,
                         trace: seq<Pos>, rank: map<Pos, nat>, parent: map<Pos, Pos>)
  {
    Numbered(trace, rank) && open <= cells &&
    (forall p :: p in rank ==> p in open) &&
    (trace == [] ==> parent == map[]) &&
    (trace != [] ==> trace[0] == start && Linked(parent, start, rank))
  }

  /** Every open cell next to `p` has been entered. */
  ghost predicate Closed(p: Pos, open: set<Pos>, rank: map<Pos, nat>) {
    forall q :: q in open && Adjacent(p, q) ==> q in rank
  }

  /** Every cell of the trace from index `lo` on is closed. */
  ghost predicate ClosedFrom(trace: seq<Pos>, lo: nat, open: set<Pos>, rank: map<Pos, nat>) {
    forall i :: lo <= i < |trace| ==> Closed(trace[i], open, rank)
  }

  /** `trace'` continues `trace`, and `rank'` keeps the numbers `rank` gave, adding only later ones. */
  ghost predicate Continues(trace: seq<Pos>, rank: map<Pos, nat>, trace': seq<Pos>, rank': map<Pos, nat>) {
    |trace| <= |trace'| && trace'[..|trace|] == trace &&
    (forall p :: p in rank ==> p in rank' && rank'[p] == rank[p]) &&
    (forall p :: p in rank' && p !in rank ==> rank'[p] >= |trace|)
  }

  /** A numbered trace that extends another extends its numbering. */
  lemma NumberedGrows(trace: seq<Pos>, rank: map<Pos, nat>, trace': seq<Pos>, rank': map<Pos, nat>)
    requires Numbered(trace, rank) && Numbered(trace', rank')
    requires |trace| <= |trace'| && trace'[..|trace|] == trace
    ensures Continues(trace, rank, trace', rank')
  {
    forall p | p in rank ensures p in rank' && rank'[p] == rank[p] {
      assert trace'[rank[p]] == trace[rank[p]];
    }
    assert forall i :: 0 <= i < |trace| ==> trace'[i] == trace[i];
  }

  /** Continuing is transitive. */
  lemma ContinuesTrans(t0: seq<Pos>, r0: map<Pos, nat>, t1: seq<Pos>, r1: map<Pos, nat>, t2: seq<Pos>, r2: map<Pos, nat>)
    requires Continues(t0, r0, t1, r1) && Continues(t1, r1, t2, r2)
    ensures Continues(t0, r0, t2, r2)
  {
    assert t2[..|t0|] == t1[..|t1|][..|t0|];
  }

  /** Closed cells stay closed as more cells are entered. */
  lemma ClosedGrows(trace: seq<Pos>, lo: nat, open: set<Pos>, rank: map<Pos, nat>,
                    trace': seq<Pos>, rank': map<Pos, nat>)
    requires ClosedFrom(trace, lo, open, rank) && Continues(trace, rank, trace', rank')
    requires ClosedFrom(trace', |trace|, open, rank')
    ensures ClosedFrom(trace', lo, open, rank')
  {
    forall i | lo <= i < |trace'| ensures Closed(trace'[i], open, rank') {
      if i < |trace| {
        assert trace'[i] == trace[i];
        assert Closed(trace[i], open, rank);
      }
    }
  }

  /** Entering a fresh open cell keeps the invariant, the link on it becoming a tree link. */
  lemma EnterStep(start: Pos, cells: set<Pos>, open: set<Pos>, trace: seq<Pos>, rank: map<Pos, nat>,
                  parent: map<Pos, Pos>, node: Pos)
    requires DfsInv(start, cells, open, trace, rank, parent)
    requires node in open && node !in rank
    requires trace == [] ==> node == start
    requires trace != [] ==> node in parent
    requires parent.Keys <= rank.Keys + {node}
    ensures DfsInv(start, cells, open, trace + [node], rank[node := |trace|], parent)
    ensures parent.Keys <= rank[node := |trace|].Keys
    ensures Continues(trace, rank, trace + [node], rank[node := |trace|])
  {
    var trace', rank' := trace + [node], rank[node := |trace|];
    forall i | 0 <= i < |trace'| ensures trace'[i] in rank' && rank'[trace'[i]] == i {
      if i < |trace| {
        assert trace'[i] == trace[i] && trace[i] != node;
      }
    }
    assert trace'[..|trace|] == trace;
    if trace == [] {
      assert Linked(parent, start, rank');
    } else {
      forall p | p in parent
        ensures parent[p] in rank' && Adjacent(parent[p], p) && (p in rank' ==> rank'[parent[p]] < rank'[p])
      {
        if p == node {
          assert rank[parent[p]] < |trace|;
        }
      }
    }
  }

  /** Linking a taken-up neighbour to the entered `cur` keeps the tree. */
  lemma LinkStep(start: Pos, cells: set<Pos>, open: set<Pos>, trace: seq<Pos>, rank: map<Pos, nat>,
                 parent: map<Pos, Pos>, cur: Pos, nb: Pos)
    requires DfsInv(start, cells, open, trace, rank, parent) && trace != []
    requires cur in rank && nb in open && Adjacent(cur, nb) && nb != start
    requires nb in rank ==> rank[cur] < rank[nb]
    requires parent.Keys <= rank.Keys
    ensures DfsInv(start, cells, open, trace, rank, parent[nb := cur])
    ensures parent[nb := cur].Keys <= rank.Keys + {nb}
  {
    var parent' := parent[nb := cur];
    forall p | p in parent'
      ensures parent'[p] in rank && Adjacent(parent'[p], p) && (p in rank ==> rank[parent'[p]] < rank[p])
    {
      if p != nb {
        assert parent'[p] == parent[p];
      }
    }
  }

  /** At the top level, a closed trace holds every cell reachable from the start, and no other. */
  lemma DfsExhausted(start: Pos, cells: set<Pos>, open: set<Pos>, trace: seq<Pos>, rank: map<Pos, nat>,
                     parent: map<Pos, Pos>)
    requires DfsInv(start, cells, open, trace, rank, parent) && trace != []
    requires parent.Keys <= rank.Keys
    requires ClosedFrom(trace, 0, open, rank)
    ensures forall p :: p in trace <==> ReachesIn(open, start, p)
  {
    assert Linked(parent, start, rank);
    assert ClosedUnder(rank.Keys, open) by {
      forall p, q | p in rank.Keys && q in open && Adjacent(p, q) ensures q in rank.Keys {
        assert Closed(trace[rank[p]], open, rank);
      }
    }
    forall p ensures p in trace <==> ReachesIn(open, start, p) {
      if ReachesIn(open, start, p) {
        ReachesInClosed(rank.Keys, open, start, p);
        assert trace[rank[p]] == p;
      }
      if p in trace {
        LinkedReaches(parent, start, rank, open, p);
      }
    }
  }

  /** Every cell of a nonempty trace is reachable from the start. */
  lemma DfsReach(start: Pos, cells: set<Pos>, open: set<Pos>, trace: seq<Pos>, rank: map<Pos, nat>,
                 parent: map<Pos, Pos>)
    requires DfsInv(start, cells, open, trace, rank, parent) && trace != []
    requires parent.Keys <= rank.Keys
    ensures forall p :: p in trace ==> p in rank && p in cells && ReachesIn(open, start, p)
  {
    assert Linked(parent, start, rank);
    forall p | p in trace ensures p in rank && p in cells && ReachesIn(open, start, p) {
      LinkedReaches(parent, start, rank, open, p);
    }
  }

  // ---------------------------------------------------------------------------
  // The search

  /** Line 14: mark the entered node visited. */
  method Enter(grid: array2<Node>, node: Pos, ghost orig: map<Pos, Node>, ghost rank: map<Pos, nat>,
               ghost parent: map<Pos, Pos>, ghost n: nat)
    requires InBounds(grid, node) && Shows(grid, orig, rank, parent)
    modifies grid
    ensures Shows(grid, orig, rank[node := n], parent)
  {
    grid[node.row, node.col] := grid[node.row, node.col].(isVisited := true);
    forall p | InBounds(grid, p)
      ensures p in orig && At(grid, p) == orig[p].(isVisited := p in rank[node := n], previousNode := Lookup(parent, p))
    {
      assert old(At(grid, p)) == orig[p].(isVisited := p in rank, previousNode := Lookup(parent, p));
    }
  }

  /** Line 25: link the neighbour back to the node being explored. */
  method Link(grid: array2<Node>, neighbor: Pos, node: Pos, ghost orig: map<Pos, Node>,
              ghost rank: map<Pos, nat>, ghost parent: map<Pos, Pos>)
    requires InBounds(grid, neighbor) && Shows(grid, orig, rank, parent)
    modifies grid
    ensures Shows(grid, orig, rank, parent[neighbor := node])
  {
    grid[neighbor.row, neighbor.col] := grid[neighbor.row, neighbor.col].(previousNode := Some(node));
    forall p | InBounds(grid, p)
      ensures p in orig && At(grid, p) == orig[p].(isVisited := p in rank, previousNode := Lookup(parent[neighbor := node], p))
    {
      assert old(At(grid, p)) == orig[p].(isVisited := p in rank, previousNode := Lookup(parent, p));
    }
  }

  /** The neighbour query, read through the snapshot: exactly the open neighbours not yet entered. */
  lemma UnvisitedAreFresh(grid: array2<Node>, orig: map<Pos, Node>, open: set<Pos>,
                          rank: map<Pos, nat>, parent: map<Pos, Pos>, cur: Pos)
    requires Shows(grid, orig, rank, parent) && InBounds(grid, cur)
    requires forall p :: p in orig ==> InBounds(grid, p)
    requires forall p :: p in open <==> p in orig && Enterable(orig[p], Unwalled)
    ensures FreshNeighbors(open, cur, rank, GetUnvisitedNeighbors(grid, cur))
  {
    var nbrs := GetUnvisitedNeighbors(grid, cur);
    forall q ensures q in nbrs <==> q in open && Adjacent(cur, q) && q !in rank {
      if q in orig {
        assert InBounds(grid, q) ==> At(grid, q).nodeType == orig[q].nodeType;
      }
    }
  }

  /** What a call leaves behind, starting from `trace` and `rank`: the invariant, and the report it makes. */
  ghost predicate Outcome(start: Pos, finish: Pos, cells: set<Pos>, open: set<Pos>,
                          trace: seq<Pos>, rank: map<Pos, nat>,
                          found: bool, trace': seq<Pos>, rank': map<Pos, nat>, parent': map<Pos, Pos>)
  {
    DfsInv(start, cells, open, trace', rank', parent') && parent'.Keys <= rank'.Keys &&
    Continues(trace, rank, trace', rank') &&
    (found ==> trace' != [] && trace'[|trace'| - 1] == finish) &&
    (!found ==> finish !in rank' && ClosedFrom(trace', |trace|, open, rank'))
  }

  /** A call that meets a wall or a visited node changes nothing and reports no finish. */
  lemma StopOutcome(start: Pos, finish: Pos, cells: set<Pos>, open: set<Pos>,
                    trace: seq<Pos>, rank: map<Pos, nat>, parent: map<Pos, Pos>, node: Pos)
    requires DfsInv(start, cells, open, trace, rank, parent)
    requires parent.Keys <= rank.Keys + {node} && (node in parent ==> node in rank)
    requires finish !in rank
    ensures Outcome(start, finish, cells, open, trace, rank, false, trace, rank, parent)
  {
    NumberedGrows(trace, rank, trace, rank);
  }

  /** Entering the finish reports it. */
  lemma FinishOutcome(start: Pos, finish: Pos, cells: set<Pos>, open: set<Pos>,
                      trace: seq<Pos>, rank: map<Pos, nat>, parent: map<Pos, Pos>)
    requires DfsInv(start, cells, open, trace, rank, parent)
    requires finish in open && finish !in rank
    requires trace == [] ==> finish == start
    requires trace != [] ==> finish in parent
    requires parent.Keys <= rank.Keys + {finish}
    ensures Outcome(start, finish, cells, open, trace, rank, true, trace + [finish], rank[finish := |trace|], parent)
  {
    EnterStep(start, cells, open, trace, rank, parent, finish);
  }

  /** Exploring the neighbours of a just-entered node reports for the whole call. */
  lemma DescendOutcome(start: Pos, finish: Pos, cells: set<Pos>, open: set<Pos>,
                       trace: seq<Pos>, rank: map<Pos, nat>, node: Pos, neighbors: seq<Pos>,
                       found: bool, trace': seq<Pos>, rank': map<Pos, nat>, parent': map<Pos, Pos>)
    requires Continues(trace, rank, trace + [node], rank[node := |trace|])
    requires FreshNeighbors(open, node, rank[node := |trace|], neighbors)
    requires Outcome(start, finish, cells, open, trace + [node], rank[node := |trace|], found, trace', rank', parent')
    requires !found ==> forall q :: q in neighbors ==> q in rank'
    ensures Outcome(start, finish, cells, open, trace, rank, found, trace', rank', parent')
    ensures node in rank'
  {
    ContinuesTrans(trace, rank, trace + [node], rank[node := |trace|], trace', rank');
    if !found {
      NodeClosed(open, node, neighbors, trace, rank, trace', rank');
    }
  }

  /** Once every neighbour taken up is entered, the node itself is closed, and with it the new part of the trace. */
  lemma NodeClosed(open: set<Pos>, node: Pos, neighbors: seq<Pos>, trace: seq<Pos>, rank: map<Pos, nat>,
                   trace': seq<Pos>, rank': map<Pos, nat>)
    requires FreshNeighbors(open, node, rank[node := |trace|], neighbors)
    requires Continues(trace + [node], rank[node := |trace|], trace', rank')
    requires forall q :: q in neighbors ==> q in rank'
    requires ClosedFrom(trace', |trace| + 1, open, rank')
    ensures ClosedFrom(trace', |trace|, open, rank')
  {
    var rank1 := rank[node := |trace|];
    assert Closed(node, open, rank') by {
      forall q | q in open && Adjacent(node, q) ensures q in rank' {
        if q !in rank1 {
          assert q in neighbors;
        }
      }
    }
    assert trace'[|trace|] == (trace + [node])[|trace|] == node;
  }

  /** Before descending into a taken-up neighbour: linking it to `node` keeps the tree. */
  lemma LinkOutcome(start: Pos, finish: Pos, cells: set<Pos>, open: set<Pos>,
                    trace: seq<Pos>, rank: map<Pos, nat>, node: Pos, neighbors: seq<Pos>,
                    trace': seq<Pos>, rank': map<Pos, nat>, parent': map<Pos, Pos>, neighbor: Pos)
    requires trace != [] && node in rank && rank[node] == |trace| - 1
    requires FreshNeighbors(open, node, rank, neighbors) && neighbor in neighbors
    requires Outcome(start, finish, cells, open, trace, rank, false, trace', rank', parent')
    ensures DfsInv(start, cells, open, trace', rank', parent'[neighbor := node])
    ensures parent'[neighbor := node].Keys <= rank'.Keys + {neighbor}
    ensures trace' != [] && neighbor in cells && cells - rank'.Keys < cells - (rank.Keys - {node})
  {
    LinkStep(start, cells, open, trace', rank', parent', node, neighbor);
  }

  /** After a descent: the call so far and the descent make up one outcome. */
  lemma ChildOutcome(start: Pos, finish: Pos, cells: set<Pos>, open: set<Pos>,
                     trace: seq<Pos>, rank: map<Pos, nat>, traceK: seq<Pos>, rankK: map<Pos, nat>,
                     found: bool, trace': seq<Pos>, rank': map<Pos, nat>, parent': map<Pos, Pos>)
    requires Continues(trace, rank, traceK, rankK) && ClosedFrom(traceK, |trace|, open, rankK)
    requires Outcome(start, finish, cells, open, traceK, rankK, found, trace', rank', parent')
    ensures Outcome(start, finish, cells, open, trace, rank, found, trace', rank', parent')
  {
    ContinuesTrans(trace, rank, traceK, rankK, trace', rank');
    if !found {
      ClosedGrows(traceK, |trace|, open, rankK, trace', rank');
    }
  }

  /** Forgetting a cell just numbered gives back the numbering before it. */
  lemma UnmarkAgain(rank: map<Pos, nat>, node: Pos, n: nat)
    requires node !in rank
    ensures rank[node := n].Keys - {node} == rank.Keys
  {
  }

  /** The neighbours entered before a descent stay entered, and the one descended into joins them. */
  lemma KeepsEntered(start: Pos, finish: Pos, cells: set<Pos>, open: set<Pos>,
                     traceK: seq<Pos>, rankK: map<Pos, nat>,
                     found: bool, trace': seq<Pos>, rank': map<Pos, nat>, parent': map<Pos, Pos>,
                     neighbors: seq<Pos>, k: nat)
    requires Outcome(start, finish, cells, open, traceK, rankK, found, trace', rank', parent')
    requires k < |neighbors| && (forall j :: 0 <= j < k ==> neighbors[j] in rankK) && neighbors[k] in rank'
    ensures forall j :: 0 <= j < k + 1 ==> neighbors[j] in rank'
  {
  }

  /**
   * `runDFS`: stop at a wall or a visited node; otherwise enter the node,
   * report the finish, or explore its unvisited neighbours.
   */
  method RunDfs(grid: array2<Node>, node: Pos, finish: Pos, trace: seq<Pos>,
                ghost start: Pos, ghost cells: set<Pos>, ghost open: set<Pos>, ghost orig: map<Pos, Node>,
                ghost rank: map<Pos, nat>, ghost parent: map<Pos, Pos>)
    returns (found: bool, trace': seq<Pos>, ghost rank': map<Pos, nat>, ghost parent': map<Pos, Pos>)
    requires InBounds(grid, node)
    requires DfsInv(start, cells, open, trace, rank, parent) && Shows(grid, orig, rank, parent)
    requires forall p :: p in orig ==> InBounds(grid, p)
    requires forall p :: p in open <==> p in orig && Enterable(orig[p], Unwalled)
    requires forall p :: p in cells <==> InBounds(grid, p)
    requires trace == [] ==> node == start
    requires trace != [] ==> node in parent
    requires node in parent ==> node in open
    requires parent.Keys <= rank.Keys + {node}
    requires finish !in rank
    modifies grid
    ensures Outcome(start, finish, cells, open, trace, rank, found, trace', rank', parent')
    ensures Shows(grid, orig, rank', parent')
    ensures node in open ==> node in rank'
    ensures node !in open || node in rank ==> trace' == trace && rank' == rank && parent' == parent && !found
    decreases cells - rank.Keys, 1
  {
    var here := grid[node.row, node.col];
    assert here.nodeType == orig[node].nodeType && here.isVisited == (node in rank);
    if here.nodeType == Some(WALL) || here.isVisited {
      StopOutcome(start, finish, cells, open, trace, rank, parent, node);
      return false, trace, rank, parent;
    }
    assert node in open && node !in rank;

    ghost var rank1 := rank[node := |trace|];
    Enter(grid, node, orig, rank, parent, |trace|);
    var trace1 := trace + [node];
    if node == finish {
      FinishOutcome(start, finish, cells, open, trace, rank, parent);
      return true, trace1, rank1, parent;
    }

    EnterStep(start, cells, open, trace, rank, parent, node);
    var neighbors := GetUnvisitedNeighbors(grid, node);
    UnvisitedAreFresh(grid, orig, open, rank1, parent, node);
    UnmarkAgain(rank, node, |trace|);
    found, trace', rank', parent' := ExploreNeighbors(grid, node, neighbors, finish, trace1, start, cells, open, orig,
                                                      rank1, parent);
    DescendOutcome(start, finish, cells, open, trace, rank, node, neighbors, found, trace', rank', parent');
  }

  /** The loop at lines 23-29: link each neighbour and descend into it until the finish is reported. */
  method ExploreNeighbors(grid: array2<Node>, node: Pos, neighbors: seq<Pos>, finish: Pos, trace: seq<Pos>,
                          ghost start: Pos, ghost cells: set<Pos>, ghost open: set<Pos>, ghost orig: map<Pos, Node>,
                          ghost rank: map<Pos, nat>, ghost parent: map<Pos, Pos>)
    returns (found: bool, trace': seq<Pos>, ghost rank': map<Pos, nat>, ghost parent': map<Pos, Pos>)
    requires DfsInv(start, cells, open, trace, rank, parent) && Shows(grid, orig, rank, parent)
    requires forall p :: p in orig ==> InBounds(grid, p)
    requires forall p :: p in open <==> p in orig && Enterable(orig[p], Unwalled)
    requires forall p :: p in cells <==> InBounds(grid, p)
    requires trace != [] && node in rank && rank[node] == |trace| - 1
    requires FreshNeighbors(open, node, rank, neighbors)
    requires parent.Keys <= rank.Keys
    requires finish !in rank
    modifies grid
    ensures Outcome(start, finish, cells, open, trace, rank, found, trace', rank', parent')
    ensures Shows(grid, orig, rank', parent')
    ensures !found ==> forall q :: q in neighbors ==> q in rank'
    decreases cells - (rank.Keys - {node}), 0
  {
    trace', rank', parent' := trace, rank, parent;
    StopOutcome(start, finish, cells, open, trace, rank, parent, node);
    for k := 0 to |neighbors|
      invariant Outcome(start, finish, cells, open, trace, rank, false, trace', rank', parent')
      invariant Shows(grid, orig, rank', parent')
      invariant forall j :: 0 <= j < k ==> neighbors[j] in rank'
    {
      var neighbor := neighbors[k];
      assert neighbor in neighbors && neighbor in open;
      LinkOutcome(start, finish, cells, open, trace, rank, node, neighbors, trace', rank', parent', neighbor);
      Link(grid, neighbor, node, orig, rank', parent');
      ghost var traceK, rankK := trace', rank';
      var f;
      f, trace', rank', parent' := RunDfs(grid, neighbor, finish, trace', start, cells, open, orig,
                                         rankK, parent'[neighbor := node]);
      ChildOutcome(start, finish, cells, open, trace, rank, traceK, rankK, f, trace', rank', parent');
      KeepsEntered(start, finish, cells, open, traceK, rankK, f, trace', rank', parent', neighbors, k);
      if f {
        return true, trace', rank', parent';
      }
    }
    found := false;
  }

  /** A top-level trace, read on the grid: it starts at the start, has no repeats, and is all reachable. */
  lemma TraceReaches(grid: array2<Node>, start: Pos, cells: set<Pos>, open: set<Pos>,
                     trace: seq<Pos>, rank: map<Pos, nat>, parent: map<Pos, Pos>)
    requires DfsInv(start, cells, open, trace, rank, parent) && trace != [] && parent.Keys <= rank.Keys
    requires forall p :: p in cells <==> InBounds(grid, p)
    requires Open(grid, Unwalled) == open
    ensures TraceFrom(grid, Unwalled, start, trace)
  {
    NumberedDistinct(trace, rank);
    DfsReach(start, cells, open, trace, rank, parent);
  }

  /** Lines 62: the finish was visited, so its links lead back to the start. */
  method ReportFound(grid: array2<Node>, visitedNodesInOrder: seq<Pos>, start: Pos, finish: Pos,
                     ghost cells: set<Pos>, ghost open: set<Pos>, ghost orig: map<Pos, Node>,
                     ghost found: bool, ghost rank: map<Pos, nat>, ghost parent: map<Pos, Pos>)
    returns (shortestPath: seq<Pos>)
    requires Outcome(start, finish, cells, open, [], map[], found, visitedNodesInOrder, rank, parent)
    requires Shows(grid, orig, rank, parent) && finish in rank
    requires forall p :: p in orig ==> InBounds(grid, p)
    requires forall p :: p in open <==> p in orig && Enterable(orig[p], Unwalled)
    requires forall p :: p in cells <==> InBounds(grid, p)
    ensures At(grid, start).nodeType != Some(WALL)
    ensures TraceFrom(grid, Unwalled, start, visitedNodesInOrder)
    ensures EndsAt(visitedNodesInOrder, finish) && finish in visitedNodesInOrder
    ensures SimpleWalk(grid, Unwalled, start, finish, shortestPath) && FollowsLinks(grid, shortestPath)
    ensures Reachable(grid, Unwalled, start, finish)
  {
    assert visitedNodesInOrder != [] && Linked(parent, start, rank);
    ShowsLinked(grid, orig, cells, start, rank, parent);
    shortestPath := GetNodesInShortestPathOrder(grid, finish, start, rank);
    BackChainIsPath(grid, start, rank, shortestPath, open);
    ShowsOpen(grid, orig, Unwalled, open, rank, parent);
    TraceReaches(grid, start, cells, open, visitedNodesInOrder, rank, parent);
    assert start in open;
  }

  /** The finish was not visited: the trace is empty for a wall start, and otherwise every reachable cell. */
  lemma Missed(grid: array2<Node>, visitedNodesInOrder: seq<Pos>, start: Pos, finish: Pos,
               cells: set<Pos>, open: set<Pos>, orig: map<Pos, Node>,
               found: bool, rank: map<Pos, nat>, parent: map<Pos, Pos>)
    requires Outcome(start, finish, cells, open, [], map[], found, visitedNodesInOrder, rank, parent)
    requires finish !in rank
    requires start in open ==> start in rank
    requires start !in open ==> visitedNodesInOrder == []
    requires Shows(grid, orig, rank, parent)
    requires forall p :: p in orig ==> InBounds(grid, p)
    requires forall p :: p in open <==> p in orig && Enterable(orig[p], Unwalled)
    requires forall p :: p in cells <==> InBounds(grid, p)
    requires InBounds(grid, start)
    ensures finish !in visitedNodesInOrder
    ensures At(grid, start).nodeType == Some(WALL) <==> visitedNodesInOrder == []
    ensures At(grid, start).nodeType != Some(WALL) ==>
      TraceFrom(grid, Unwalled, start, visitedNodesInOrder) &&
      (forall p :: p in visitedNodesInOrder <==> Reachable(grid, Unwalled, start, p)) &&
      !Reachable(grid, Unwalled, start, finish)
  {
    ShowsOpen(grid, orig, Unwalled, open, rank, parent);
    assert start in open <==> At(grid, start).nodeType != Some(WALL);
    if visitedNodesInOrder != [] {
      TraceReaches(grid, start, cells, open, visitedNodesInOrder, rank, parent);
      DfsExhausted(start, cells, open, visitedNodesInOrder, rank, parent);
    }
  }

  /** `dfs`: descend from the start, then trace the path back if the finish was visited. */
  method Dfs(grid: array2<Node>, start: Pos, finish: Pos) returns (res: SearchResult)
    requires InBounds(grid, start) && InBounds(grid, finish)
    requires Unsearched(grid)
    modifies grid
    ensures res.numNodesVisited == |res.visitedNodesInOrder| - 1
    ensures At(grid, start).nodeType == Some(WALL) ==> res == SearchResult([], -1, None, 0)
    ensures At(grid, start).nodeType != Some(WALL) ==> TraceFrom(grid, Unwalled, start, res.visitedNodesInOrder)
    ensures finish in res.visitedNodesInOrder ==>
      EndsAt(res.visitedNodesInOrder, finish) &&
      res.shortestPath.Some? &&
      SimpleWalk(grid, Unwalled, start, finish, res.shortestPath.value) &&
      FollowsLinks(grid, res.shortestPath.value) &&
      res.shortestPathLength == |res.shortestPath.value| - 1
    ensures finish !in res.visitedNodesInOrder ==> res.shortestPath == None && res.shortestPathLength == 0
    ensures At(grid, start).nodeType != Some(WALL) && finish !in res.visitedNodesInOrder ==>
      forall p :: p in res.visitedNodesInOrder <==> Reachable(grid, Unwalled, start, p)
    ensures At(grid, start).nodeType != Some(WALL) ==>
      (res.shortestPath.Some? <==> Reachable(grid, Unwalled, start, finish))
    ensures forall p :: InBounds(grid, p) ==> SameTerrain(At(grid, p), old(At(grid, p)))
  {
    ghost var orig := Snapshot(grid);
    ghost var cells := Cells(grid);
    ghost var open := Open(grid, Unwalled);
    SnapshotShows(grid);

    var visitedNodesInOrder: seq<Pos> := [];
    var found;
    ghost var rank, parent;
    found, visitedNodesInOrder, rank, parent :=
      RunDfs(grid, start, finish, visitedNodesInOrder, start, cells, open, orig, map[], map[]);
    ShowsSameTerrain(grid, orig, rank, parent);

    if grid[finish.row, finish.col].isVisited {
      var path := ReportFound(grid, visitedNodesInOrder, start, finish, cells, open, orig, found, rank, parent);
      res := SearchResult(visitedNodesInOrder, |visitedNodesInOrder| - 1, Some(path), |path| - 1);
    } else {
      Missed(grid, visitedNodesInOrder, start, finish, cells, open, orig, found, rank, parent);
      res := SearchResult(visitedNodesInOrder, |visitedNodesInOrder| - 1, None, 0);
    }
  }
}
