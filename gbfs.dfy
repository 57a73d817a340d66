/**
 * Greedy best-first search (gbfs.js): an open list keyed on the Manhattan
 * distance to the finish alone. A node is marked visited when it leaves the
 * list; each expansion links every valid neighbour to the expanded node,
 * replacing any earlier link, and pushes it again.
 */
module Gbfs {
  import opened Grids

  // ---------------------------------------------------------------------------
  // Ghost picture of a run

  /** Lines 17-18 and 43-44: a node the run has pushed has h = f = its Manhattan distance to the finish. */
  function Heur(n: Node, p: Pos, finish: Pos, seen: set<Pos>): (r: Node)
    ensures r.(h := n.h, f := n.f) == n
    ensures p in seen ==> r.h == Some(ManhattanDistance(p, finish)) && r.f == r.h
  {
    if p in seen then n.(h := Some(ManhattanDistance(p, finish)), f := Some(ManhattanDistance(p, finish))) else n
  }

  /** The snapshot `orig` covers the grid. */
  ghost predicate Whole(grid: array2<Node>, orig: map<Pos, Node>) {
    forall p :: p in orig <==> InBounds(grid, p)
  }

  /** The grid is `orig` with the marks of `rank`, the links of `parent` and the heuristic on `seen`. */
  ghost predicate ShowsHeur(grid: array2<Node>, orig: map<Pos, Node>, finish: Pos,
                            rank: map<Pos, nat>, parent: map<Pos, Pos>, seen: set<Pos>)
    reads grid
  {
    forall p :: InBounds(grid, p) ==>
      p in orig &&
      At(grid, p) == Heur(orig[p], p, finish, seen).(isVisited := p in rank, previousNode := Lookup(parent, p))
  }

  /** The link from `p` to `q`: `q` is visited and adjacent, `p` is open. */
  ghost predicate Link(orig: map<Pos, Node>, rank: map<Pos, nat>, seen: set<Pos>, q: Pos, p: Pos) {
    p in seen && q in rank && Adjacent(q, p) && p in orig && orig[p].weight.Fin? &&
    (p in rank ==> rank[q] < rank[p])
  }

  /** The start is pushed and has no link; every other pushed node is linked; visited nodes were pushed. */
  ghost predicate Tree(orig: map<Pos, Node>, start: Pos, rank: map<Pos, nat>, parent: map<Pos, Pos>, seen: set<Pos>) {
    start in seen && start !in parent &&
    (forall p :: p in rank ==> p in seen) &&
    (forall p :: p in seen ==> p in orig) &&
    (forall p :: p in seen && p != start ==> p in parent) &&
    (forall p {:trigger parent[p]} :: p in parent ==> Link(orig, rank, seen, parent[p], p))
  }

  /** Every entry of the open list was pushed, and every pushed node is visited or still in the list. */
  ghost predicate Heaped(rank: map<Pos, nat>, seen: set<Pos>, heap: multiset<Pos>) {
    (forall p :: p in heap ==> p in seen) &&
    (forall p :: p in seen ==> p in rank || p in heap)
  }

  /** The state of the search loop in ghost terms. */
  ghost predicate Inv(start: Pos, orig: map<Pos, Node>, trace: seq<Pos>, rank: map<Pos, nat>,
                      parent: map<Pos, Pos>, seen: set<Pos>, heap: multiset<Pos>)
  {
    start in orig && Numbered(trace, rank) &&
    (trace == [] ==> heap == multiset{start}) &&
    (trace != [] ==> trace[0] == start) &&
    Tree(orig, start, rank, parent, seen) && Heaped(rank, seen, heap)
  }

  /** Every open neighbour of a visited node outside `pending` has been pushed. */
  ghost predicate Expanded(orig: map<Pos, Node>, rank: map<Pos, nat>, seen: set<Pos>, pending: set<Pos>) {
    forall v, q :: v in rank && v !in pending && q in orig && orig[q].weight.Fin? && Adjacent(v, q) ==> q in seen
  }

  /** Midway through the neighbour loop of `node`: the neighbours in `done` are pushed. */
  ghost predicate Stage(start: Pos, orig: map<Pos, Node>, trace: seq<Pos>, rank: map<Pos, nat>,
                        parent: map<Pos, Pos>, seen: set<Pos>, heap: multiset<Pos>, node: Pos, done: seq<Pos>)
  {
    Inv(start, orig, trace, rank, parent, seen, heap) && trace != [] && node in rank &&
    Expanded(orig, rank, seen, {node}) && (forall q :: q in done ==> q in seen)
  }

  /** Lines 42-47 on `x` in ghost terms: an unvisited `x` is pushed and linked to `u`; a visited one is left. */
  ghost predicate Relaxation(rank: map<Pos, nat>, parent: map<Pos, Pos>, seen: set<Pos>, heap: multiset<Pos>,
                             u: Pos, x: Pos, parent': map<Pos, Pos>, seen': set<Pos>, heap': multiset<Pos>)
  {
    if x !in rank then
      parent' == parent[x := u] && seen' == seen + {x} && heap' == heap + multiset{x}
    else
      parent' == parent && seen' == seen && heap' == heap
  }

  /**
   * The greedy order in ghost terms: a visited `p` lies no farther from the
   * finish than any open cell `q` adjacent to a node `v` visited before `p`,
   * unless `q` itself was visited before `p`. Such a `q` was pushed when `v`
   * was expanded and was still in the open list when `p` left it.
   */
  ghost predicate Greedy(orig: map<Pos, Node>, finish: Pos, rank: map<Pos, nat>) {
    forall p, v, q ::
      p in rank && v in rank && rank[v] < rank[p] && q in orig && orig[q].weight.Fin? && Adjacent(v, q) &&
      (q in rank ==> rank[p] <= rank[q])
      ==> ManhattanDistance(p, finish) <= ManhattanDistance(q, finish)
  }

  // ---------------------------------------------------------------------------
  // The loop body

  /** A nonempty open list whose entries all carry an f has an entry of least f. */
  lemma {:induction false} LeastExists(grid: array2<Node>, m: multiset<Pos>) returns (x: Pos)
    requires |m| > 0
    requires forall p :: p in m ==> InBounds(grid, p) && At(grid, p).f.Some?
    ensures x in m && forall q :: q in m ==> At(grid, x).f.value <= At(grid, q).f.value
    decreases |m|
  {
    var y :| y in m;
    var m' := m - multiset{y};
    forall q | q in m && q != y ensures q in m' {
      assert m'[q] == m[q];
    }
    if |m'| == 0 {
      x := y;
    } else {
      var z := LeastExists(grid, m');
      x := if At(grid, y).f.value <= At(grid, z).f.value then y else z;
    }
  }

  /**
   * Line 23, `openList.pop()` on the heap ordered by `(a, b) => a.f - b.f`
   * (line 19): an entry of least f leaves the list. Which of several tied
   * entries comes out is left open.
   */
  method PopLeast(grid: array2<Node>, openList: multiset<Pos>) returns (node: Pos, rest: multiset<Pos>)
    requires |openList| > 0
    requires forall p :: p in openList ==> InBounds(grid, p) && At(grid, p).f.Some?
    ensures node in openList && rest + multiset{node} == openList
    ensures forall q :: q in openList ==> At(grid, node).f.value <= At(grid, q).f.value
  {
    ghost var least := LeastExists(grid, openList);
    node :| node in openList && forall q :: q in openList ==> At(grid, node).f.value <= At(grid, q).f.value;
    rest := openList - multiset{node};
  }

  /** Lines 22-23 read through the ghost picture: the entry taken is one nearest the finish. */
  method TakeNearest(grid: array2<Node>, openList: multiset<Pos>, ghost finish: Pos, ghost orig: map<Pos, Node>,
                     ghost start: Pos, ghost trace: seq<Pos>, ghost rank: map<Pos, nat>,
                     ghost parent: map<Pos, Pos>, ghost seen: set<Pos>)
    returns (node: Pos, rest: multiset<Pos>)
    requires ShowsHeur(grid, orig, finish, rank, parent, seen) && Whole(grid, orig)
    requires Inv(start, orig, trace, rank, parent, seen, openList) && |openList| > 0
    ensures node in openList && rest + multiset{node} == openList
    ensures forall q :: q in openList ==> ManhattanDistance(node, finish) <= ManhattanDistance(q, finish)
  {
    HeapKeys(grid, orig, finish, start, trace, rank, parent, seen, openList);
    node, rest := PopLeast(grid, openList);
  }

  /**
   * Every entry of the open list carries its Manhattan distance to the finish
   * as f (lines 17-18 and 43-44), so no key changes while an entry waits.
   */
  lemma HeapKeys(grid: array2<Node>, orig: map<Pos, Node>, finish: Pos, start: Pos, trace: seq<Pos>,
                 rank: map<Pos, nat>, parent: map<Pos, Pos>, seen: set<Pos>, heap: multiset<Pos>)
    requires ShowsHeur(grid, orig, finish, rank, parent, seen) && Whole(grid, orig)
    requires Inv(start, orig, trace, rank, parent, seen, heap)
    ensures forall p :: p in heap ==> InBounds(grid, p) && At(grid, p).f == Some(ManhattanDistance(p, finish))
  {
    forall p | p in heap ensures InBounds(grid, p) && At(grid, p).f == Some(ManhattanDistance(p, finish)) {
      assert p in seen && p in orig;
      FieldsAt(grid, orig, finish, rank, parent, seen, p);
    }
  }

  /**
   * Visiting an entry nearest the finish among those listed keeps the greedy
   * order: every neighbour of an expanded node is either visited or listed.
   */
  lemma GreedyVisit(finish: Pos, orig: map<Pos, Node>, start: Pos, trace: seq<Pos>, rank: map<Pos, nat>,
                    parent: map<Pos, Pos>, seen: set<Pos>, heap: multiset<Pos>, node: Pos)
    requires Inv(start, orig, trace, rank, parent, seen, heap) && Expanded(orig, rank, seen, {})
    requires Greedy(orig, finish, rank)
    requires node !in rank && node in heap
    requires forall q :: q in heap ==> ManhattanDistance(node, finish) <= ManhattanDistance(q, finish)
    ensures Greedy(orig, finish, rank[node := |trace|])
  {
  }

  /** The list entry taken was visited before: dropping it keeps the invariant. */
  lemma Skip(start: Pos, orig: map<Pos, Node>, trace: seq<Pos>, rank: map<Pos, nat>,
             parent: map<Pos, Pos>, seen: set<Pos>, heap: multiset<Pos>, node: Pos, rest: multiset<Pos>)
    requires Inv(start, orig, trace, rank, parent, seen, heap) && node in rank
    requires node in heap && rest + multiset{node} == heap
    ensures Inv(start, orig, trace, rank, parent, seen, rest)
  {
    forall p | p in seen ensures p in rank || p in rest {
      if p != node && p in heap {
        assert heap[p] == rest[p];
      }
    }
  }

  /** The list entry taken was not visited: it joins the trace with the next rank. */
  lemma VisitStep(start: Pos, orig: map<Pos, Node>, trace: seq<Pos>, rank: map<Pos, nat>,
                  parent: map<Pos, Pos>, seen: set<Pos>, heap: multiset<Pos>, node: Pos, rest: multiset<Pos>)
    requires Inv(start, orig, trace, rank, parent, seen, heap) && Expanded(orig, rank, seen, {})
    requires node !in rank && node in heap && rest + multiset{node} == heap
    ensures Stage(start, orig, trace + [node], rank[node := |trace|], parent, seen, rest, node, [])
  {
    var rank' := rank[node := |trace|];
    var trace' := trace + [node];
    if trace == [] {
      assert node == start;
    }
    assert trace'[0] == start;
    NumberedPush(trace, rank, node);
    VisitHeaped(rank, seen, heap, node, rest, |trace|);
    VisitTree(orig, start, rank, parent, seen, node, |trace|);
    MakeStage(start, orig, trace', rank', parent, seen, rest, node);
  }

  /** The parts of the invariant at the start of the neighbour loop, put together. */
  lemma MakeStage(start: Pos, orig: map<Pos, Node>, trace: seq<Pos>, rank: map<Pos, nat>,
                  parent: map<Pos, Pos>, seen: set<Pos>, heap: multiset<Pos>, node: Pos)
    requires start in orig && Numbered(trace, rank) && trace != [] && trace[0] == start
    requires Tree(orig, start, rank, parent, seen) && Heaped(rank, seen, heap)
    requires node in rank && Expanded(orig, rank - {node}, seen, {})
    ensures Stage(start, orig, trace, rank, parent, seen, heap, node, [])
  {
  }

  /** Taking `node` out of the list and visiting it keeps every pushed node visited or listed. */
  lemma VisitHeaped(rank: map<Pos, nat>, seen: set<Pos>, heap: multiset<Pos>, node: Pos, rest: multiset<Pos>, n: nat)
    requires Heaped(rank, seen, heap) && rest + multiset{node} == heap
    ensures Heaped(rank[node := n], seen, rest)
  {
    forall p | p in seen ensures p in rank[node := n] || p in rest {
      if p != node && p in heap {
        assert heap[p] == rest[p];
      }
    }
  }

  /** Visiting a node whose rank exceeds every other keeps the links' ranks decreasing. */
  lemma VisitTree(orig: map<Pos, Node>, start: Pos, rank: map<Pos, nat>, parent: map<Pos, Pos>, seen: set<Pos>,
                  node: Pos, n: nat)
    requires Tree(orig, start, rank, parent, seen) && node !in rank && node in seen
    requires forall p :: p in rank ==> rank[p] < n
    ensures Tree(orig, start, rank[node := n], parent, seen)
  {
    forall p | p in parent ensures Link(orig, rank[node := n], seen, parent[p], p) {
      assert Link(orig, rank, seen, parent[p], p);
      assert parent[p] != node;
    }
  }

  /** Lines 42-47 on one neighbour of `node`. */
  method RelaxNeighbor(grid: array2<Node>, node: Pos, neighbor: Pos, finish: Pos, openList: multiset<Pos>,
                       ghost orig: map<Pos, Node>, ghost rank: map<Pos, nat>,
                       ghost parent: map<Pos, Pos>, ghost seen: set<Pos>)
    returns (openList': multiset<Pos>, ghost parent': map<Pos, Pos>, ghost seen': set<Pos>)
    requires ShowsHeur(grid, orig, finish, rank, parent, seen) && InBounds(grid, neighbor)
    modifies grid
    ensures Relaxation(rank, parent, seen, openList, node, neighbor, parent', seen', openList')
    ensures ShowsHeur(grid, orig, finish, rank, parent', seen')
  {
    var n := grid[neighbor.row, neighbor.col];
    assert n.isVisited == (neighbor in rank);
    if !n.isVisited {
      var h := ManhattanDistance(neighbor, finish);
      grid[neighbor.row, neighbor.col] := n.(h := Some(h), f := Some(h), previousNode := Some(node));
      openList' := openList + multiset{neighbor};
      parent', seen' := parent[neighbor := node], seen + {neighbor};
    } else {
      openList', parent', seen' := openList, parent, seen;
    }
  }

  /** `neighbors` are exactly the open cells adjacent to `node` that are not visited. */
  ghost predicate Around(orig: map<Pos, Node>, rank: map<Pos, nat>, node: Pos, neighbors: seq<Pos>) {
    forall q :: q in neighbors <==> q in orig && q !in rank && Adjacent(node, q) && orig[q].weight.Fin?
  }

  /** Pushing one more neighbour keeps the stage. */
  lemma RelaxStep(start: Pos, orig: map<Pos, Node>, trace: seq<Pos>, rank: map<Pos, nat>,
                  parent: map<Pos, Pos>, seen: set<Pos>, heap: multiset<Pos>, node: Pos, done: seq<Pos>, x: Pos,
                  parent': map<Pos, Pos>, seen': set<Pos>, heap': multiset<Pos>)
    requires Stage(start, orig, trace, rank, parent, seen, heap, node, done)
    requires x in orig && x !in rank && Adjacent(node, x) && orig[x].weight.Fin?
    requires Relaxation(rank, parent, seen, heap, node, x, parent', seen', heap')
    ensures Stage(start, orig, trace, rank, parent', seen', heap', node, done + [x])
  {
    assert x != start && x != node;
    forall p | p in parent' ensures Link(orig, rank, seen', parent'[p], p) {
      if p != x {
        assert Link(orig, rank, seen, parent[p], p);
      }
    }
    assert Tree(orig, start, rank, parent', seen');
    assert Heaped(rank, seen', heap');
  }

  /** One pass of the loop of lines 41-48. */
  method RelaxOne(grid: array2<Node>, node: Pos, finish: Pos, neighbors: seq<Pos>, k: nat, openList: multiset<Pos>,
                  ghost start: Pos, ghost orig: map<Pos, Node>, ghost trace: seq<Pos>, ghost rank: map<Pos, nat>,
                  ghost parent: map<Pos, Pos>, ghost seen: set<Pos>)
    returns (openList': multiset<Pos>, ghost parent': map<Pos, Pos>, ghost seen': set<Pos>)
    requires ShowsHeur(grid, orig, finish, rank, parent, seen) && Whole(grid, orig)
    requires Around(orig, rank, node, neighbors) && k < |neighbors|
    requires Stage(start, orig, trace, rank, parent, seen, openList, node, neighbors[..k])
    modifies grid
    ensures ShowsHeur(grid, orig, finish, rank, parent', seen')
    ensures Stage(start, orig, trace, rank, parent', seen', openList', node, neighbors[..k + 1])
  {
    var neighbor := neighbors[k];
    assert neighbor in neighbors;
    openList', parent', seen' := RelaxNeighbor(grid, node, neighbor, finish, openList, orig, rank, parent, seen);
    RelaxStep(start, orig, trace, rank, parent, seen, openList, node, neighbors[..k], neighbor, parent', seen', openList');
    TakeOneMore(neighbors, k);
  }

  /** Once every neighbour is pushed, `node` is expanded. */
  lemma Settle(start: Pos, orig: map<Pos, Node>, trace: seq<Pos>, rank: map<Pos, nat>,
               parent: map<Pos, Pos>, seen: set<Pos>, heap: multiset<Pos>, node: Pos, neighbors: seq<Pos>)
    requires Stage(start, orig, trace, rank, parent, seen, heap, node, neighbors)
    requires Around(orig, rank, node, neighbors)
    ensures Inv(start, orig, trace, rank, parent, seen, heap) && Expanded(orig, rank, seen, {})
  {
    forall v, q | v in rank && q in orig && orig[q].weight.Fin? && Adjacent(v, q) ensures q in seen {
      if v == node && q !in rank {
        assert q in neighbors;
      }
    }
  }

  /** The neighbour query, read through the snapshot, gives the open unvisited cells around `node`. */
  lemma NeighborsAround(grid: array2<Node>, orig: map<Pos, Node>, finish: Pos, rank: map<Pos, nat>,
                        parent: map<Pos, Pos>, seen: set<Pos>, node: Pos)
    requires ShowsHeur(grid, orig, finish, rank, parent, seen) && Whole(grid, orig) && InBounds(grid, node)
    ensures Around(orig, rank, node, GetValidNeighbors(grid, node))
  {
    var nbrs := GetValidNeighbors(grid, node);
    forall q ensures q in nbrs <==> q in orig && q !in rank && Adjacent(node, q) && orig[q].weight.Fin? {
      if q in orig {
        assert At(grid, q).weight == orig[q].weight && At(grid, q).isVisited == (q in rank);
      }
    }
  }

  /** Lines 39-48: push every valid neighbour of the node just visited. */
  method PushNeighbors(grid: array2<Node>, node: Pos, finish: Pos, openList: multiset<Pos>,
                       ghost start: Pos, ghost orig: map<Pos, Node>, ghost trace: seq<Pos>, ghost rank: map<Pos, nat>,
                       ghost parent: map<Pos, Pos>, ghost seen: set<Pos>)
    returns (openList': multiset<Pos>, ghost parent': map<Pos, Pos>, ghost seen': set<Pos>)
    requires ShowsHeur(grid, orig, finish, rank, parent, seen) && Whole(grid, orig) && InBounds(grid, node)
    requires Stage(start, orig, trace, rank, parent, seen, openList, node, [])
    modifies grid
    ensures ShowsHeur(grid, orig, finish, rank, parent', seen')
    ensures Inv(start, orig, trace, rank, parent', seen', openList') && Expanded(orig, rank, seen', {})
  {
    var neighbors := GetValidNeighbors(grid, node);
    NeighborsAround(grid, orig, finish, rank, parent, seen, node);
    openList', parent', seen' := PushAll(grid, node, finish, neighbors, openList, start, orig, trace, rank, parent, seen);
    Settle(start, orig, trace, rank, parent', seen', openList', node, neighbors);
  }

  /** The loop of lines 41-48. */
  method PushAll(grid: array2<Node>, node: Pos, finish: Pos, neighbors: seq<Pos>, openList: multiset<Pos>,
                 ghost start: Pos, ghost orig: map<Pos, Node>, ghost trace: seq<Pos>, ghost rank: map<Pos, nat>,
                 ghost parent: map<Pos, Pos>, ghost seen: set<Pos>)
    returns (openList': multiset<Pos>, ghost parent': map<Pos, Pos>, ghost seen': set<Pos>)
    requires ShowsHeur(grid, orig, finish, rank, parent, seen) && Whole(grid, orig)
    requires Around(orig, rank, node, neighbors)
    requires Stage(start, orig, trace, rank, parent, seen, openList, node, [])
    modifies grid
    ensures ShowsHeur(grid, orig, finish, rank, parent', seen')
    ensures Stage(start, orig, trace, rank, parent', seen', openList', node, neighbors)
  {
    openList', parent', seen' := openList, parent, seen;
    TakeAll(neighbors);
    for k := 0 to |neighbors|
      invariant ShowsHeur(grid, orig, finish, rank, parent', seen')
      invariant Stage(start, orig, trace, rank, parent', seen', openList', node, neighbors[..k])
    {
      openList', parent', seen' := RelaxOne(grid, node, finish, neighbors, k, openList', start, orig, trace, rank, parent', seen');
    }
    TakeAll(neighbors);
  }

  /** Lines 17-18: the heuristic of the start of an unsearched grid whose snapshot is `orig`. */
  method SetStart(grid: array2<Node>, start: Pos, finish: Pos, ghost orig: map<Pos, Node>)
    requires Unsearched(grid) && InBounds(grid, start)
    requires forall p :: p in orig <==> InBounds(grid, p)
    requires forall p :: InBounds(grid, p) ==> orig[p] == At(grid, p)
    modifies grid
    ensures ShowsHeur(grid, orig, finish, map[], map[], {start}) && Whole(grid, orig)
  {
    assert forall p :: p in orig ==> !orig[p].isVisited && orig[p].previousNode == None;
    var n := grid[start.row, start.col];
    var h := ManhattanDistance(start, finish);
    grid[start.row, start.col] := n.(h := Some(h), f := Some(h));
  }

  /** Lines 26-27 on the grid: `current.isVisited = true`. */
  method Mark(grid: array2<Node>, node: Pos, ghost finish: Pos, ghost orig: map<Pos, Node>, ghost rank: map<Pos, nat>,
              ghost parent: map<Pos, Pos>, ghost seen: set<Pos>, ghost n: nat)
    requires ShowsHeur(grid, orig, finish, rank, parent, seen) && InBounds(grid, node)
    modifies grid
    ensures ShowsHeur(grid, orig, finish, rank[node := n], parent, seen)
  {
    grid[node.row, node.col] := grid[node.row, node.col].(isVisited := true);
  }

  /** Lines 26-27: the entry taken joins the trace. */
  method Visit(grid: array2<Node>, node: Pos, ghost start: Pos, ghost finish: Pos, ghost orig: map<Pos, Node>,
               ghost trace: seq<Pos>, ghost rank: map<Pos, nat>, ghost parent: map<Pos, Pos>,
               ghost seen: set<Pos>, ghost heap: multiset<Pos>, ghost rest: multiset<Pos>)
    returns (ghost rank': map<Pos, nat>)
    requires ShowsHeur(grid, orig, finish, rank, parent, seen) && InBounds(grid, node)
    requires Inv(start, orig, trace, rank, parent, seen, heap) && Expanded(orig, rank, seen, {})
    requires node !in rank && node in heap && rest + multiset{node} == heap
    requires Greedy(orig, finish, rank)
    requires forall q :: q in heap ==> ManhattanDistance(node, finish) <= ManhattanDistance(q, finish)
    modifies grid
    ensures rank' == rank[node := |trace|]
    ensures Greedy(orig, finish, rank')
    ensures ShowsHeur(grid, orig, finish, rank', parent, seen)
    ensures Stage(start, orig, trace + [node], rank', parent, seen, rest, node, [])
  {
    Mark(grid, node, finish, orig, rank, parent, seen, |trace|);
    VisitStep(start, orig, trace, rank, parent, seen, heap, node, rest);
    GreedyVisit(finish, orig, start, trace, rank, parent, seen, heap, node);
    rank' := rank[node := |trace|];
  }

  // ---------------------------------------------------------------------------
  // What the run reports

  /** A node the run reached: h and f are its Manhattan distance to the finish, and a non-start node links to a visited neighbour. */
  ghost predicate HeurOk(grid: array2<Node>, start: Pos, finish: Pos, p: Pos)
    reads grid
    requires InBounds(grid, p)
  {
    var n := At(grid, p);
    n.h == Some(ManhattanDistance(p, finish)) && n.f == n.h &&
    (p != start ==>
      n.previousNode.Some? && InBounds(grid, n.previousNode.value) &&
      At(grid, n.previousNode.value).isVisited && Adjacent(n.previousNode.value, p))
  }

  /** The heuristic a run leaves: the start has no link, and every visited or linked node is as `HeurOk` says. */
  ghost predicate Heuristic(grid: array2<Node>, start: Pos, finish: Pos)
    reads grid
  {
    InBounds(grid, start) && At(grid, start).previousNode == None && HeurOk(grid, start, finish, start) &&
    // triggered on `HeurOk` alone, so that one link does not call up the next
    forall p {:trigger HeurOk(grid, start, finish, p)} ::
      InBounds(grid, p) && (At(grid, p).isVisited || At(grid, p).previousNode.Some?) ==> HeurOk(grid, start, finish, p)
  }

  /**
   * The order of the trace: each visited node lies no farther from the finish
   * than any cell of finite weight adjacent to an earlier node of the trace
   * and not itself earlier in the trace. Those are exactly the nodes in the
   * open list when the later one was taken from it.
   */
  ghost predicate GreedyOrder(grid: array2<Node>, finish: Pos, trace: seq<Pos>)
    reads grid
  {
    forall i, j, q {:trigger Adjacent(trace[j], q), trace[i]} ::
      0 <= j < i < |trace| && InBounds(grid, q) && At(grid, q).weight.Fin? && Adjacent(trace[j], q) && q !in trace[..i]
      ==> ManhattanDistance(trace[i], finish) <= ManhattanDistance(q, finish)
  }

  /**
   * The report of `gbfs`: the trace starts at the start, repeats no node and
   * reaches only open cells and is in greedy order; the heuristic agrees with the links; when the
   * finish was visited the trace ends there and the path, read off the
   * links, is a walk to it; otherwise the path is empty and the trace holds
   * exactly the cells reachable from the start.
   */
  ghost predicate Outcome(grid: array2<Node>, start: Pos, finish: Pos, res: SearchResult)
    reads grid
  {
    var trace := res.visitedNodesInOrder;
    TraceFrom(grid, Weighted, start, trace) &&
    res.numNodesVisited == |trace| - 1 &&
    res.shortestPath.Some? &&
    Heuristic(grid, start, finish) && GreedyOrder(grid, finish, trace) &&
    (finish in trace ==>
      EndsAt(trace, finish) &&
      SimpleWalk(grid, Weighted, start, finish, res.shortestPath.value) &&
      FollowsLinks(grid, res.shortestPath.value) &&
      res.shortestPathLength == |res.shortestPath.value| - 1) &&
    (finish !in trace ==>
      res.shortestPath == Some([]) && res.shortestPathLength == 0 &&
      forall p :: p in trace <==> Reachable(grid, Weighted, start, p))
  }

  /** The fields of one node of the grid, read through the ghost picture. */
  lemma FieldsAt(grid: array2<Node>, orig: map<Pos, Node>, finish: Pos, rank: map<Pos, nat>,
                 parent: map<Pos, Pos>, seen: set<Pos>, p: Pos)
    requires ShowsHeur(grid, orig, finish, rank, parent, seen) && Whole(grid, orig) && InBounds(grid, p)
    ensures p in orig
    ensures At(grid, p).isVisited == (p in rank) && At(grid, p).previousNode == Lookup(parent, p)
    ensures At(grid, p).weight == orig[p].weight && SameTerrain(At(grid, p), orig[p])
    ensures p in seen ==> At(grid, p).h == Some(ManhattanDistance(p, finish)) && At(grid, p).f == At(grid, p).h
  {
    assert At(grid, p) == Heur(orig[p], p, finish, seen).(isVisited := p in rank, previousNode := Lookup(parent, p));
  }

  /** The grid's terrain, link and mark fields are those of the ghost picture. */
  lemma TerrainNow(grid: array2<Node>, orig: map<Pos, Node>, finish: Pos, rank: map<Pos, nat>,
                   parent: map<Pos, Pos>, seen: set<Pos>)
    requires ShowsHeur(grid, orig, finish, rank, parent, seen) && Whole(grid, orig)
    ensures forall p :: p in Open(grid, Weighted) <==> p in orig && orig[p].weight.Fin?
    ensures forall p :: InBounds(grid, p) ==> SameTerrain(At(grid, p), orig[p])
    ensures forall p :: InBounds(grid, p) ==> At(grid, p).isVisited == (p in rank) && At(grid, p).previousNode == Lookup(parent, p)
  {
    forall p | InBounds(grid, p)
      ensures At(grid, p).weight == orig[p].weight && SameTerrain(At(grid, p), orig[p])
      ensures At(grid, p).isVisited == (p in rank) && At(grid, p).previousNode == Lookup(parent, p)
    {
      FieldsAt(grid, orig, finish, rank, parent, seen, p);
    }
  }

  /** One visited or linked node's heuristic and link on the grid. */
  lemma HeurAt(grid: array2<Node>, start: Pos, finish: Pos, orig: map<Pos, Node>,
               rank: map<Pos, nat>, parent: map<Pos, Pos>, seen: set<Pos>, p: Pos)
    requires ShowsHeur(grid, orig, finish, rank, parent, seen) && Whole(grid, orig)
    requires Tree(orig, start, rank, parent, seen) && InBounds(grid, p)
    requires At(grid, p).isVisited || At(grid, p).previousNode.Some?
    ensures HeurOk(grid, start, finish, p)
  {
    FieldsAt(grid, orig, finish, rank, parent, seen, p);
    if p in parent {
      var q := parent[p];
      assert Link(orig, rank, seen, q, p);
      FieldsAt(grid, orig, finish, rank, parent, seen, q);
    }
  }

  /** The heuristic on the grid is the one the run's ghost picture derives. */
  lemma HeuristicNow(grid: array2<Node>, start: Pos, finish: Pos, orig: map<Pos, Node>,
                     rank: map<Pos, nat>, parent: map<Pos, Pos>, seen: set<Pos>)
    requires ShowsHeur(grid, orig, finish, rank, parent, seen) && Whole(grid, orig)
    requires Tree(orig, start, rank, parent, seen) && InBounds(grid, start)
    ensures Heuristic(grid, start, finish)
  {
    forall p | InBounds(grid, p) && (At(grid, p).isVisited || At(grid, p).previousNode.Some?)
      ensures HeurOk(grid, start, finish, p)
    {
      HeurAt(grid, start, finish, orig, rank, parent, seen, p);
    }
    FieldsAt(grid, orig, finish, rank, parent, seen, start);
  }

  /** With the start visited, the links form the tree the path reconstruction follows, over open cells. */
  lemma TreeLinked(start: Pos, orig: map<Pos, Node>, trace: seq<Pos>, rank: map<Pos, nat>,
                   parent: map<Pos, Pos>, seen: set<Pos>, heap: multiset<Pos>)
    requires Inv(start, orig, trace, rank, parent, seen, heap) && trace != []
    ensures Linked(parent, start, rank)
    ensures forall p :: p in rank && p != start ==> p in orig && orig[p].weight.Fin?
  {
    assert trace[0] == start;
    forall p | p in rank && p != start ensures p in orig && orig[p].weight.Fin? {
      assert Link(orig, rank, seen, parent[p], p);
    }
  }

  /** The trace of a run, read on the grid. */
  lemma TraceNow(grid: array2<Node>, start: Pos, finish: Pos, orig: map<Pos, Node>, trace: seq<Pos>,
                 rank: map<Pos, nat>, parent: map<Pos, Pos>, seen: set<Pos>, heap: multiset<Pos>)
    requires ShowsHeur(grid, orig, finish, rank, parent, seen) && Whole(grid, orig)
    requires Inv(start, orig, trace, rank, parent, seen, heap) && trace != []
    ensures TraceFrom(grid, Weighted, start, trace)
    ensures forall p :: p in rank ==> Reachable(grid, Weighted, start, p)
  {
    TerrainNow(grid, orig, finish, rank, parent, seen);
    TreeLinked(start, orig, trace, rank, parent, seen, heap);
    NumberedDistinct(trace, rank);
    forall p | p in rank ensures Reachable(grid, Weighted, start, p) {
      LinkedReaches(parent, start, rank, Open(grid, Weighted), p);
    }
  }

  /** The parts of a report that visited the finish make up `Outcome`. */
  lemma FoundOutcome(grid: array2<Node>, start: Pos, finish: Pos, rank: map<Pos, nat>, res: SearchResult)
    requires TraceFrom(grid, Weighted, start, res.visitedNodesInOrder) && EndsAt(res.visitedNodesInOrder, finish)
    requires res.numNodesVisited == |res.visitedNodesInOrder| - 1 && res.shortestPath.Some?
    requires Heuristic(grid, start, finish) && GreedyOrder(grid, finish, res.visitedNodesInOrder)
    requires IsBackChain(grid, start, rank, res.shortestPath.value) && res.shortestPath.value[|res.shortestPath.value| - 1] == finish
    requires IsPathIn(Open(grid, Weighted), res.shortestPath.value) && Distinct(res.shortestPath.value)
    requires res.shortestPathLength == |res.shortestPath.value| - 1
    ensures Outcome(grid, start, finish, res)
  {
  }

  /** The greedy order of the ghost picture, read on the grid. */
  lemma GreedyNow(grid: array2<Node>, orig: map<Pos, Node>, finish: Pos, trace: seq<Pos>,
                  rank: map<Pos, nat>, parent: map<Pos, Pos>, seen: set<Pos>)
    requires ShowsHeur(grid, orig, finish, rank, parent, seen) && Whole(grid, orig)
    requires Numbered(trace, rank) && Greedy(orig, finish, rank)
    ensures GreedyOrder(grid, finish, trace)
  {
    forall i, j, q | 0 <= j < i < |trace| && InBounds(grid, q) && At(grid, q).weight.Fin? &&
                     Adjacent(trace[j], q) && q !in trace[..i]
      ensures ManhattanDistance(trace[i], finish) <= ManhattanDistance(q, finish)
    {
      FieldsAt(grid, orig, finish, rank, parent, seen, q);
      assert rank[trace[j]] == j && rank[trace[i]] == i;
    }
  }

  /** Lines 29-37: the finish was visited; trace back the path and report. */
  method ReportFound(grid: array2<Node>, visitedNodesInOrder: seq<Pos>, ghost start: Pos, finish: Pos,
                     ghost orig: map<Pos, Node>, ghost rank: map<Pos, nat>, ghost parent: map<Pos, Pos>,
                     ghost seen: set<Pos>, ghost heap: multiset<Pos>)
    returns (res: SearchResult)
    requires ShowsHeur(grid, orig, finish, rank, parent, seen) && Whole(grid, orig)
    requires Inv(start, orig, visitedNodesInOrder, rank, parent, seen, heap)
    requires EndsAt(visitedNodesInOrder, finish) && Greedy(orig, finish, rank)
    ensures res.visitedNodesInOrder == visitedNodesInOrder
    ensures Outcome(grid, start, finish, res)
  {
    var trace := visitedNodesInOrder;
    assert trace[|trace| - 1] in rank;
    TerrainNow(grid, orig, finish, rank, parent, seen);
    TreeLinked(start, orig, trace, rank, parent, seen, heap);
    LinkedToByParents(grid, parent, start, rank);
    var shortestPath := GetNodesInShortestPathOrder(grid, finish, start, rank);
    BackChainIsPath(grid, start, rank, shortestPath, Open(grid, Weighted));
    TraceNow(grid, start, finish, orig, trace, rank, parent, seen, heap);
    HeuristicNow(grid, start, finish, orig, rank, parent, seen);
    res := SearchResult(visitedNodesInOrder, |visitedNodesInOrder| - 1, Some(shortestPath), |shortestPath| - 1);
    GreedyNow(grid, orig, finish, trace, rank, parent, seen);
    FoundOutcome(grid, start, finish, rank, res);
  }

  /** Lines 51-57: the open list ran dry without meeting the finish. */
  method ReportExhausted(grid: array2<Node>, visitedNodesInOrder: seq<Pos>, ghost start: Pos, ghost finish: Pos,
                         ghost orig: map<Pos, Node>, ghost rank: map<Pos, nat>, ghost parent: map<Pos, Pos>,
                         ghost seen: set<Pos>)
    returns (res: SearchResult)
    requires ShowsHeur(grid, orig, finish, rank, parent, seen) && Whole(grid, orig)
    requires Inv(start, orig, visitedNodesInOrder, rank, parent, seen, multiset{})
    requires Expanded(orig, rank, seen, {}) && finish !in rank && Greedy(orig, finish, rank)
    ensures res == SearchResult(visitedNodesInOrder, |visitedNodesInOrder| - 1, Some([]), 0)
    ensures Outcome(grid, start, finish, res)
  {
    var trace := visitedNodesInOrder;
    assert multiset{start} != multiset{} by {
      assert start in multiset{start};
    }
    TerrainNow(grid, orig, finish, rank, parent, seen);
    TraceNow(grid, start, finish, orig, trace, rank, parent, seen, multiset{});
    HeuristicNow(grid, start, finish, orig, rank, parent, seen);
    GreedyNow(grid, orig, finish, trace, rank, parent, seen);
    var open := Open(grid, Weighted);
    assert ClosedUnder(rank.Keys, open);
    forall p | Reachable(grid, Weighted, start, p) ensures p in trace {
      ReachesInClosed(rank.Keys, open, start, p);
    }
    res := SearchResult(visitedNodesInOrder, |visitedNodesInOrder| - 1, Some([]), 0);
  }

  /** `gbfs(grid, startNode, finishNode)`: see `Outcome`; only the search fields of the nodes change. */
  method Gbfs(grid: array2<Node>, start: Pos, finish: Pos) returns (res: SearchResult)
    requires InBounds(grid, start) && InBounds(grid, finish)
    requires Unsearched(grid)
    modifies grid
    ensures Outcome(grid, start, finish, res)
    ensures forall p :: InBounds(grid, p) ==> SameTerrain(At(grid, p), old(At(grid, p)))
  {
    ghost var orig := Snapshot(grid);
    var visitedNodesInOrder: seq<Pos> := [];
    SetStart(grid, start, finish, orig);
    var openList: multiset<Pos> := multiset{start};
    ghost var rank: map<Pos, nat> := map[];
    ghost var parent: map<Pos, Pos> := map[];
    ghost var seen: set<Pos> := {start};

    while |openList| > 0
      invariant ShowsHeur(grid, orig, finish, rank, parent, seen) && Whole(grid, orig)
      invariant Inv(start, orig, visitedNodesInOrder, rank, parent, seen, openList)
      invariant Expanded(orig, rank, seen, {})
      invariant finish !in rank
      invariant Greedy(orig, finish, rank)
      decreases orig.Keys - rank.Keys, |openList|
    {
      ghost var heap := openList;
      var current;
      current, openList := TakeNearest(grid, openList, finish, orig, start, visitedNodesInOrder, rank, parent, seen);
      assert current in seen;
      if grid[current.row, current.col].isVisited {
        Skip(start, orig, visitedNodesInOrder, rank, parent, seen, heap, current, openList);
        continue;
      }
      ghost var rank0 := rank;
      rank := Visit(grid, current, start, finish, orig, visitedNodesInOrder, rank, parent, seen, heap, openList);
      assert current in orig.Keys - rank0.Keys;
      visitedNodesInOrder := visitedNodesInOrder + [current];
      if current == finish {
        res := ReportFound(grid, visitedNodesInOrder, start, finish, orig, rank, parent, seen, openList);
        TerrainNow(grid, orig, finish, rank, parent, seen);
        return;
      }
      openList, parent, seen := PushNeighbors(grid, current, finish, openList, start, orig, visitedNodesInOrder,
                                              rank, parent, seen);
    }

    res := ReportExhausted(grid, visitedNodesInOrder, start, finish, orig, rank, parent, seen);
    TerrainNow(grid, orig, finish, rank, parent, seen);
  }

  // ---------------------------------------------------------------------------
  // Properties of the report

  /** The path is nonempty exactly when the finish is reachable from the start. */
  lemma FoundIffReachable(grid: array2<Node>, start: Pos, finish: Pos, res: SearchResult)
    requires Outcome(grid, start, finish, res)
    ensures res.shortestPath.value != [] <==> Reachable(grid, Weighted, start, finish)
  {
  }

  /** Once a visited node is next to an open finish, the next node visited is the finish. */
  lemma FinishNext(grid: array2<Node>, start: Pos, finish: Pos, res: SearchResult, i: nat, j: nat)
    requires Outcome(grid, start, finish, res) && InBounds(grid, finish) && At(grid, finish).weight.Fin?
    requires j < i < |res.visitedNodesInOrder|
    requires Adjacent(res.visitedNodesInOrder[j], finish)
    requires finish !in res.visitedNodesInOrder[..i]
    ensures res.visitedNodesInOrder[i] == finish
  {
    var trace := res.visitedNodesInOrder;
    assert ManhattanDistance(trace[i], finish) <= ManhattanDistance(finish, finish);
  }

  /** Every node of a found path lies at its h from the finish, and the finish itself at 0. */
  lemma PathHeuristic(grid: array2<Node>, start: Pos, finish: Pos, res: SearchResult)
    requires Outcome(grid, start, finish, res) && finish in res.visitedNodesInOrder
    ensures forall k :: 0 <= k < |res.shortestPath.value| ==>
      InBounds(grid, res.shortestPath.value[k]) &&
      At(grid, res.shortestPath.value[k]).h == Some(ManhattanDistance(res.shortestPath.value[k], finish))
    ensures At(grid, finish).h == Some(0) && At(grid, finish).f == Some(0)
  {
    var path := res.shortestPath.value;
    forall k | 0 <= k < |path| ensures InBounds(grid, path[k]) && At(grid, path[k]).h == Some(ManhattanDistance(path[k], finish)) {
      if k > 0 {
        assert At(grid, path[k]).previousNode == Some(path[k - 1]);
        assert HeurOk(grid, start, finish, path[k]);
      }
    }
    assert path[|path| - 1] == finish;
    if |path| > 1 {
      var i := |path| - 1;
      assert At(grid, path[i]).previousNode == Some(path[i - 1]);
      assert HeurOk(grid, start, finish, path[i]);
    }
  }
}
