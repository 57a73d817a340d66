/**
 * A* search (astar.js): an open list keyed on f = g + h, where g sums the
 * weights entered along the links and h is the Manhattan distance to the
 * finish. A node is marked visited when it leaves the list; entries of
 * nodes visited already are skipped.
 */
module Astar {
  import opened Grids

  /** No node carries a `g` score yet, as `createNode` leaves them. */
  ghost predicate Ungraded(grid: array2<Node>)
    reads grid
  {
    forall r, c :: 0 <= r < grid.Length0 && 0 <= c < grid.Length1 ==> grid[r, c].g == None
  }

  // ---------------------------------------------------------------------------
  // Ghost picture of a run

  /** The scores of lines 17-19 and 45-47 for the node at `p` when `gm` holds its g; other nodes keep theirs. */
  function Scores(n: Node, p: Pos, finish: Pos, gm: map<Pos, nat>): (r: Node)
    ensures r.(g := n.g, h := n.h, f := n.f) == n
  {
    if p in gm then
      n.(g := Some(gm[p]), h := Some(ManhattanDistance(p, finish)), f := Some(gm[p] + ManhattanDistance(p, finish)))
    else n
  }

  /** The snapshot `orig` covers the grid and gives no node a g score. */
  ghost predicate Fresh(grid: array2<Node>, orig: map<Pos, Node>) {
    (forall p :: p in orig <==> InBounds(grid, p)) &&
    (forall p :: p in orig ==> orig[p].g == None)
  }

  /** The grid is `orig` with the marks of `rank`, the links of `parent` and the scores of `gm`. */
  ghost predicate ShowsScores(grid: array2<Node>, orig: map<Pos, Node>, finish: Pos,
                              rank: map<Pos, nat>, parent: map<Pos, Pos>, gm: map<Pos, nat>)
    reads grid
  {
    forall p :: InBounds(grid, p) ==>
      p in orig &&
      At(grid, p) == Scores(orig[p], p, finish, gm).(isVisited := p in rank, previousNode := Lookup(parent, p))
  }

  /** The link from `p` to `q`: `q` is visited, adjacent, and `p`'s g is `q`'s plus `p`'s weight. */
  ghost predicate Link(orig: map<Pos, Node>, rank: map<Pos, nat>, gm: map<Pos, nat>, q: Pos, p: Pos) {
    p in gm && q in rank && q in gm && Adjacent(q, p) && p in orig && orig[p].weight.Fin? &&
    gm[p] == gm[q] + orig[p].weight.n && (p in rank ==> rank[q] < rank[p])
  }

  /** The start has g 0 and no link; every other scored node is linked; visited nodes are scored. */
  ghost predicate Tree(orig: map<Pos, Node>, start: Pos, rank: map<Pos, nat>, parent: map<Pos, Pos>, gm: map<Pos, nat>) {
    start in gm && gm[start] == 0 && start !in parent &&
    (forall p :: p in rank ==> p in gm) &&
    (forall p :: p in gm ==> p in orig) &&
    (forall p :: p in gm && p != start ==> p in parent) &&
    (forall p {:trigger parent[p]} :: p in parent ==> Link(orig, rank, gm, parent[p], p))
  }

  /** Every entry of the open list is scored, and every scored node is visited or still in the list. */
  ghost predicate Heaped(rank: map<Pos, nat>, gm: map<Pos, nat>, heap: multiset<Pos>) {
    (forall p :: p in heap ==> p in gm) &&
    (forall p :: p in gm ==> p in rank || p in heap)
  }

  /** The state of the search loop in ghost terms. */
  ghost predicate Inv(start: Pos, orig: map<Pos, Node>, trace: seq<Pos>, rank: map<Pos, nat>,
                      parent: map<Pos, Pos>, gm: map<Pos, nat>, heap: multiset<Pos>)
  {
    start in orig && Numbered(trace, rank) &&
    (trace == [] ==> heap == multiset{start}) &&
    (trace != [] ==> trace[0] == start) &&
    Tree(orig, start, rank, parent, gm) && Heaped(rank, gm, heap)
  }

  /** Every open neighbour of a visited node outside `pending` has been scored. */
  ghost predicate Expanded(orig: map<Pos, Node>, rank: map<Pos, nat>, gm: map<Pos, nat>, pending: set<Pos>) {
    forall v, q :: v in rank && v !in pending && q in orig && orig[q].weight.Fin? && Adjacent(v, q) ==> q in gm
  }

  /** Midway through the neighbour loop of `node`: the neighbours in `done` are scored. */
  ghost predicate Stage(start: Pos, orig: map<Pos, Node>, trace: seq<Pos>, rank: map<Pos, nat>,
                        parent: map<Pos, Pos>, gm: map<Pos, nat>, heap: multiset<Pos>, node: Pos, done: seq<Pos>)
  {
    Inv(start, orig, trace, rank, parent, gm, heap) && trace != [] && node in rank &&
    Expanded(orig, rank, gm, {node}) && (forall q :: q in done ==> q in gm)
  }

  /** The test of line 44: the g through `u` beats the g of `x`, or `x` has none. */
  ghost predicate Improves(orig: map<Pos, Node>, gm: map<Pos, nat>, u: Pos, x: Pos)
    requires u in gm && x in orig && orig[x].weight.Fin?
  {
    x !in gm || gm[u] + orig[x].weight.n < gm[x]
  }

  /** Lines 43-50 on `x` in ghost terms: an improvement rescores, relinks and pushes `x`; otherwise nothing changes. */
  ghost predicate Relaxation(orig: map<Pos, Node>, gm: map<Pos, nat>, parent: map<Pos, Pos>, heap: multiset<Pos>,
                             u: Pos, x: Pos, gm': map<Pos, nat>, parent': map<Pos, Pos>, heap': multiset<Pos>)
    requires u in gm && x in orig && orig[x].weight.Fin?
  {
    if Improves(orig, gm, u, x) then
      gm' == gm[x := gm[u] + orig[x].weight.n] && parent' == parent[x := u] && heap' == heap + multiset{x}
    else
      gm' == gm && parent' == parent && heap' == heap
  }

  // ---------------------------------------------------------------------------
  // The loop body

  /** The list entry taken was visited before: dropping it keeps the invariant. */
  lemma Skip(start: Pos, orig: map<Pos, Node>, trace: seq<Pos>, rank: map<Pos, nat>,
             parent: map<Pos, Pos>, gm: map<Pos, nat>, heap: multiset<Pos>, node: Pos, rest: multiset<Pos>)
    requires Inv(start, orig, trace, rank, parent, gm, heap) && node in rank
    requires node in heap && rest + multiset{node} == heap
    ensures Inv(start, orig, trace, rank, parent, gm, rest)
  {
    forall p | p in gm ensures p in rank || p in rest {
      if p != node && p in heap {
        assert heap[p] == rest[p];
      }
    }
  }

  /** The list entry taken was not visited: it joins the trace with the next rank. */
  lemma VisitStep(start: Pos, orig: map<Pos, Node>, trace: seq<Pos>, rank: map<Pos, nat>,
                  parent: map<Pos, Pos>, gm: map<Pos, nat>, heap: multiset<Pos>, node: Pos, rest: multiset<Pos>)
    requires Inv(start, orig, trace, rank, parent, gm, heap) && Expanded(orig, rank, gm, {})
    requires node !in rank && node in heap && rest + multiset{node} == heap
    ensures Stage(start, orig, trace + [node], rank[node := |trace|], parent, gm, rest, node, [])
  {
    var rank' := rank[node := |trace|];
    var trace' := trace + [node];
    if trace == [] {
      assert node == start;
    }
    assert trace'[0] == start;
    NumberedPush(trace, rank, node);
    VisitHeaped(rank, gm, heap, node, rest, |trace|);
    VisitTree(orig, start, rank, parent, gm, node, |trace|);
    MakeStage(start, orig, trace', rank', parent, gm, rest, node);
  }

  /** The parts of the invariant at the start of the neighbour loop, put together. */
  lemma MakeStage(start: Pos, orig: map<Pos, Node>, trace: seq<Pos>, rank: map<Pos, nat>,
                  parent: map<Pos, Pos>, gm: map<Pos, nat>, heap: multiset<Pos>, node: Pos)
    requires start in orig && Numbered(trace, rank) && trace != [] && trace[0] == start
    requires Tree(orig, start, rank, parent, gm) && Heaped(rank, gm, heap)
    requires node in rank && Expanded(orig, rank - {node}, gm, {})
    ensures Stage(start, orig, trace, rank, parent, gm, heap, node, [])
  {
  }

  /** Taking `node` out of the list and visiting it keeps every scored node visited or listed. */
  lemma VisitHeaped(rank: map<Pos, nat>, gm: map<Pos, nat>, heap: multiset<Pos>, node: Pos, rest: multiset<Pos>, n: nat)
    requires Heaped(rank, gm, heap) && rest + multiset{node} == heap
    ensures Heaped(rank[node := n], gm, rest)
  {
    forall p | p in gm ensures p in rank[node := n] || p in rest {
      if p != node && p in heap {
        assert heap[p] == rest[p];
      }
    }
  }

  /** Visiting a node whose rank exceeds every other keeps the links' ranks decreasing. */
  lemma VisitTree(orig: map<Pos, Node>, start: Pos, rank: map<Pos, nat>, parent: map<Pos, Pos>, gm: map<Pos, nat>,
                  node: Pos, n: nat)
    requires Tree(orig, start, rank, parent, gm) && node !in rank && node in gm
    requires forall p :: p in rank ==> rank[p] < n
    ensures Tree(orig, start, rank[node := n], parent, gm)
  {
    forall p | p in parent ensures Link(orig, rank[node := n], gm, parent[p], p) {
      assert Link(orig, rank, gm, parent[p], p);
      assert parent[p] != node;
    }
  }

  /** The test of line 44 read off the grid is the test on the ghost scores. */
  lemma ImprovesAt(grid: array2<Node>, orig: map<Pos, Node>, finish: Pos, rank: map<Pos, nat>, parent: map<Pos, Pos>,
                   gm: map<Pos, nat>, u: Pos, x: Pos)
    requires ShowsScores(grid, orig, finish, rank, parent, gm) && Fresh(grid, orig)
    requires InBounds(grid, u) && InBounds(grid, x) && u in gm && At(grid, x).weight.Fin?
    ensures x in orig && orig[x].weight.Fin? && At(grid, u).g == Some(gm[u])
    ensures var n := At(grid, x);
      (n.g.None? || gm[u] + n.weight.n < n.g.value) <==> Improves(orig, gm, u, x)
    ensures At(grid, x).weight == orig[x].weight
  {
    assert At(grid, x) == Scores(orig[x], x, finish, gm).(isVisited := x in rank, previousNode := Lookup(parent, x));
    assert At(grid, u) == Scores(orig[u], u, finish, gm).(isVisited := u in rank, previousNode := Lookup(parent, u));
  }

  /** Lines 43-50 on one neighbour of `node`. */
  method RelaxNeighbor(grid: array2<Node>, node: Pos, neighbor: Pos, finish: Pos, openList: multiset<Pos>,
                       ghost orig: map<Pos, Node>, ghost rank: map<Pos, nat>,
                       ghost parent: map<Pos, Pos>, ghost gm: map<Pos, nat>)
    returns (openList': multiset<Pos>, ghost parent': map<Pos, Pos>, ghost gm': map<Pos, nat>)
    requires ShowsScores(grid, orig, finish, rank, parent, gm) && Fresh(grid, orig)
    requires InBounds(grid, node) && InBounds(grid, neighbor) && node != neighbor && node in gm
    requires At(grid, neighbor).weight.Fin?
    modifies grid
    ensures neighbor in orig && orig[neighbor].weight.Fin?
    ensures Relaxation(orig, gm, parent, openList, node, neighbor, gm', parent', openList')
    ensures ShowsScores(grid, orig, finish, rank, parent', gm')
  {
    ImprovesAt(grid, orig, finish, rank, parent, gm, node, neighbor);
    var n := grid[neighbor.row, neighbor.col];
    var newG := grid[node.row, node.col].g.value + n.weight.n;
    // `newG < (neighbor.g ?? Infinity)`
    if n.g.None? || newG < n.g.value {
      Rescore(grid, neighbor, node, newG, finish, orig, rank, parent, gm);
      openList' := openList + multiset{neighbor};
      parent', gm' := parent[neighbor := node], gm[neighbor := newG];
    } else {
      openList', parent', gm' := openList, parent, gm;
    }
  }

  /** Lines 45-48: the new scores and the link to `from`. */
  method Rescore(grid: array2<Node>, x: Pos, from: Pos, newG: nat, finish: Pos, ghost orig: map<Pos, Node>,
                 ghost rank: map<Pos, nat>, ghost parent: map<Pos, Pos>, ghost gm: map<Pos, nat>)
    requires ShowsScores(grid, orig, finish, rank, parent, gm) && InBounds(grid, x)
    modifies grid
    ensures ShowsScores(grid, orig, finish, rank, parent[x := from], gm[x := newG])
  {
    var h := ManhattanDistance(x, finish);
    grid[x.row, x.col] := grid[x.row, x.col].(g := Some(newG), h := Some(h), f := Some(newG + h), previousNode := Some(from));
  }

  /** `neighbors` are exactly the open cells adjacent to `node` that are not visited. */
  ghost predicate Around(orig: map<Pos, Node>, rank: map<Pos, nat>, node: Pos, neighbors: seq<Pos>) {
    forall q :: q in neighbors <==> q in orig && q !in rank && Adjacent(node, q) && orig[q].weight.Fin?
  }

  /** Relaxing one more neighbour keeps the stage. */
  lemma RelaxStep(start: Pos, orig: map<Pos, Node>, trace: seq<Pos>, rank: map<Pos, nat>,
                  parent: map<Pos, Pos>, gm: map<Pos, nat>, heap: multiset<Pos>, node: Pos, done: seq<Pos>, x: Pos,
                  gm': map<Pos, nat>, parent': map<Pos, Pos>, heap': multiset<Pos>)
    requires Stage(start, orig, trace, rank, parent, gm, heap, node, done)
    requires x in orig && x !in rank && Adjacent(node, x) && orig[x].weight.Fin?
    requires Relaxation(orig, gm, parent, heap, node, x, gm', parent', heap')
    ensures Stage(start, orig, trace, rank, parent', gm', heap', node, done + [x])
  {
    assert node in gm;
    if Improves(orig, gm, node, x) {
      assert x != start && x != node;
      forall p | p in parent' ensures Link(orig, rank, gm', parent'[p], p) {
        if p != x {
          assert Link(orig, rank, gm, parent[p], p);
          assert parent[p] != x;
        }
      }
      assert Tree(orig, start, rank, parent', gm');
      assert Heaped(rank, gm', heap');
    }
  }

  /** One pass of the loop of lines 42-51. */
  method RelaxOne(grid: array2<Node>, node: Pos, finish: Pos, neighbors: seq<Pos>, k: nat, openList: multiset<Pos>,
                  ghost start: Pos, ghost orig: map<Pos, Node>, ghost trace: seq<Pos>, ghost rank: map<Pos, nat>,
                  ghost parent: map<Pos, Pos>, ghost gm: map<Pos, nat>)
    returns (openList': multiset<Pos>, ghost parent': map<Pos, Pos>, ghost gm': map<Pos, nat>)
    requires ShowsScores(grid, orig, finish, rank, parent, gm) && Fresh(grid, orig) && InBounds(grid, node)
    requires Around(orig, rank, node, neighbors) && k < |neighbors|
    requires Stage(start, orig, trace, rank, parent, gm, openList, node, neighbors[..k])
    modifies grid
    ensures ShowsScores(grid, orig, finish, rank, parent', gm')
    ensures Stage(start, orig, trace, rank, parent', gm', openList', node, neighbors[..k + 1])
    ensures Lowered(gm, gm', [neighbors[k]]) && Offered(orig, gm, gm', node, [neighbors[k]])
  {
    var neighbor := neighbors[k];
    assert neighbor in neighbors;
    assert node in gm && neighbor !in rank;
    assert At(grid, neighbor).weight == orig[neighbor].weight;
    openList', parent', gm' := RelaxNeighbor(grid, node, neighbor, finish, openList, orig, rank, parent, gm);
    RelaxStep(start, orig, trace, rank, parent, gm, openList, node, neighbors[..k], neighbor, gm', parent', openList');
    TakeOneMore(neighbors, k);
    RelaxLowers(orig, gm, parent, openList, node, neighbor, gm', parent', openList');
  }

  /** A relaxation lowers at most the score of `x`, to no more than the offer through `u`. */
  lemma RelaxLowers(orig: map<Pos, Node>, gm: map<Pos, nat>, parent: map<Pos, Pos>, heap: multiset<Pos>,
                    u: Pos, x: Pos, gm': map<Pos, nat>, parent': map<Pos, Pos>, heap': multiset<Pos>)
    requires u in gm && x in orig && orig[x].weight.Fin?
    requires Relaxation(orig, gm, parent, heap, u, x, gm', parent', heap')
    ensures Lowered(gm, gm', [x]) && Offered(orig, gm, gm', u, [x])
  {
  }

  /** No g score rose from `gm` to `gm'`, and only the nodes of `changed` can have a new one. */
  ghost predicate Lowered(gm: map<Pos, nat>, gm': map<Pos, nat>, changed: seq<Pos>) {
    (forall p :: p in gm ==> p in gm' && gm'[p] <= gm[p]) &&
    (forall p :: p in gm' && p !in changed ==> p in gm && gm'[p] == gm[p])
  }

  /** Every node of `offered` is scored in `gm'` no higher than the offer through `u`: u's g in `gm` plus its own weight. */
  ghost predicate Offered(orig: map<Pos, Node>, gm: map<Pos, nat>, gm': map<Pos, nat>, u: Pos, offered: seq<Pos>) {
    forall q :: q in offered ==>
      u in gm && q in orig && orig[q].weight.Fin? && q in gm' && gm'[q] <= gm[u] + orig[q].weight.n
  }

  /** One more relaxation keeps what the loop promises about the scores. */
  lemma LoweredStep(orig: map<Pos, Node>, gm0: map<Pos, nat>, gm: map<Pos, nat>, gm': map<Pos, nat>, node: Pos,
                    neighbors: seq<Pos>, k: nat)
    requires k < |neighbors| && node !in neighbors
    requires Lowered(gm0, gm, neighbors[..k]) && Offered(orig, gm0, gm, node, neighbors[..k])
    requires node in gm0 && node in gm && gm[node] == gm0[node]
    requires Lowered(gm, gm', [neighbors[k]]) && Offered(orig, gm, gm', node, [neighbors[k]])
    ensures Lowered(gm0, gm', neighbors[..k + 1]) && Offered(orig, gm0, gm', node, neighbors[..k + 1])
    ensures node in gm' && gm'[node] == gm0[node]
  {
    assert neighbors[..k + 1] == neighbors[..k] + [neighbors[k]];
  }

  /** Once every neighbour is relaxed, `node` is expanded. */
  lemma Settle(start: Pos, orig: map<Pos, Node>, trace: seq<Pos>, rank: map<Pos, nat>,
               parent: map<Pos, Pos>, gm: map<Pos, nat>, heap: multiset<Pos>, node: Pos, neighbors: seq<Pos>)
    requires Stage(start, orig, trace, rank, parent, gm, heap, node, neighbors)
    requires Around(orig, rank, node, neighbors)
    ensures Inv(start, orig, trace, rank, parent, gm, heap) && Expanded(orig, rank, gm, {})
  {
    forall v, q | v in rank && q in orig && orig[q].weight.Fin? && Adjacent(v, q) ensures q in gm {
      if v == node && q !in rank {
        assert q in neighbors;
      }
    }
  }

  /** The neighbour query, read through the snapshot, gives the open unvisited cells around `node`. */
  lemma NeighborsAround(grid: array2<Node>, orig: map<Pos, Node>, finish: Pos, rank: map<Pos, nat>,
                        parent: map<Pos, Pos>, gm: map<Pos, nat>, node: Pos)
    requires ShowsScores(grid, orig, finish, rank, parent, gm) && Fresh(grid, orig) && InBounds(grid, node)
    ensures Around(orig, rank, node, GetValidNeighbors(grid, node))
  {
    var nbrs := GetValidNeighbors(grid, node);
    forall q ensures q in nbrs <==> q in orig && q !in rank && Adjacent(node, q) && orig[q].weight.Fin? {
      if q in orig {
        assert At(grid, q).weight == orig[q].weight && At(grid, q).isVisited == (q in rank);
      }
    }
  }

  /** Lines 40-51: relax every valid neighbour of the node just visited. */
  method RelaxNeighbors(grid: array2<Node>, node: Pos, finish: Pos, openList: multiset<Pos>,
                        ghost start: Pos, ghost orig: map<Pos, Node>, ghost trace: seq<Pos>, ghost rank: map<Pos, nat>,
                        ghost parent: map<Pos, Pos>, ghost gm: map<Pos, nat>)
    returns (openList': multiset<Pos>, ghost parent': map<Pos, Pos>, ghost gm': map<Pos, nat>)
    requires ShowsScores(grid, orig, finish, rank, parent, gm) && Fresh(grid, orig) && InBounds(grid, node)
    requires Stage(start, orig, trace, rank, parent, gm, openList, node, [])
    modifies grid
    ensures ShowsScores(grid, orig, finish, rank, parent', gm')
    ensures Inv(start, orig, trace, rank, parent', gm', openList') && Expanded(orig, rank, gm', {})
  {
    var neighbors := GetValidNeighbors(grid, node);
    NeighborsAround(grid, orig, finish, rank, parent, gm, node);
    openList', parent', gm' := RelaxAll(grid, node, finish, neighbors, openList, start, orig, trace, rank, parent, gm);
    Settle(start, orig, trace, rank, parent', gm', openList', node, neighbors);
  }

  /** The loop of lines 42-51. */
  method RelaxAll(grid: array2<Node>, node: Pos, finish: Pos, neighbors: seq<Pos>, openList: multiset<Pos>,
                  ghost start: Pos, ghost orig: map<Pos, Node>, ghost trace: seq<Pos>, ghost rank: map<Pos, nat>,
                  ghost parent: map<Pos, Pos>, ghost gm: map<Pos, nat>)
    returns (openList': multiset<Pos>, ghost parent': map<Pos, Pos>, ghost gm': map<Pos, nat>)
    requires ShowsScores(grid, orig, finish, rank, parent, gm) && Fresh(grid, orig) && InBounds(grid, node)
    requires Around(orig, rank, node, neighbors)
    requires Stage(start, orig, trace, rank, parent, gm, openList, node, [])
    modifies grid
    ensures ShowsScores(grid, orig, finish, rank, parent', gm')
    ensures Stage(start, orig, trace, rank, parent', gm', openList', node, neighbors)
    ensures Lowered(gm, gm', neighbors) && Offered(orig, gm, gm', node, neighbors)
  {
    openList', parent', gm' := openList, parent, gm;
    TakeAll(neighbors);
    assert node !in neighbors;
    for k := 0 to |neighbors|
      invariant ShowsScores(grid, orig, finish, rank, parent', gm')
      invariant Stage(start, orig, trace, rank, parent', gm', openList', node, neighbors[..k])
      invariant Lowered(gm, gm', neighbors[..k]) && Offered(orig, gm, gm', node, neighbors[..k])
      invariant node in gm' && gm'[node] == gm[node]
    {
      ghost var gmk := gm';
      openList', parent', gm' := RelaxOne(grid, node, finish, neighbors, k, openList', start, orig, trace, rank, parent', gm');
      LoweredStep(orig, gm, gmk, gm', node, neighbors, k);
    }
    TakeAll(neighbors);
  }

  /** Lines 17-19: score the start of an unsearched, ungraded grid whose snapshot is `orig`. */
  method SetStart(grid: array2<Node>, start: Pos, finish: Pos, ghost orig: map<Pos, Node>)
    requires Unsearched(grid) && Ungraded(grid) && InBounds(grid, start)
    requires forall p :: p in orig <==> InBounds(grid, p)
    requires forall p :: InBounds(grid, p) ==> orig[p] == At(grid, p)
    modifies grid
    ensures ShowsScores(grid, orig, finish, map[], map[], map[start := 0]) && Fresh(grid, orig)
  {
    assert forall p :: p in orig ==> !orig[p].isVisited && orig[p].previousNode == None && orig[p].g == None;
    var n := grid[start.row, start.col];
    var h := ManhattanDistance(start, finish);
    grid[start.row, start.col] := n.(g := Some(0), h := Some(h), f := Some(0 + h));
  }

  /** Lines 27-28 on the grid: `current.isVisited = true`. */
  method Mark(grid: array2<Node>, node: Pos, ghost finish: Pos, ghost orig: map<Pos, Node>, ghost rank: map<Pos, nat>,
              ghost parent: map<Pos, Pos>, ghost gm: map<Pos, nat>, ghost n: nat)
    requires ShowsScores(grid, orig, finish, rank, parent, gm) && InBounds(grid, node)
    modifies grid
    ensures ShowsScores(grid, orig, finish, rank[node := n], parent, gm)
  {
    grid[node.row, node.col] := grid[node.row, node.col].(isVisited := true);
  }

  // ---------------------------------------------------------------------------
  // What the run reports

  /** The link of `p` points at a visited adjacent node `q`, and `p`'s g is `q`'s plus `p`'s weight. */
  ghost predicate LinkScore(grid: array2<Node>, q: Pos, p: Pos)
    reads grid
    requires InBounds(grid, q) && InBounds(grid, p)
  {
    At(grid, q).isVisited && Adjacent(q, p) && At(grid, q).g.Some? && At(grid, p).g.Some? &&
    At(grid, p).weight.Fin? && At(grid, p).g.value == At(grid, q).g.value + At(grid, p).weight.n
  }

  /** A scored node: h is its Manhattan distance to the finish, f is g + h, and a non-start node is linked. */
  ghost predicate ScoreOk(grid: array2<Node>, start: Pos, finish: Pos, p: Pos)
    reads grid
    requires InBounds(grid, p) && At(grid, p).g.Some?
  {
    var n := At(grid, p);
    n.h == Some(ManhattanDistance(p, finish)) && n.f.Some? && n.f.value == n.g.value + n.h.value &&
    (p != start ==> n.previousNode.Some? && InBounds(grid, n.previousNode.value) && LinkScore(grid, n.previousNode.value, p))
  }

  /**
   * The scores a run leaves: the start has g 0 and no link, every visited or
   * linked node is scored, and the scores of every scored node agree with its link.
   */
  ghost predicate Scored(grid: array2<Node>, start: Pos, finish: Pos)
    reads grid
  {
    InBounds(grid, start) && At(grid, start).g == Some(0) && At(grid, start).previousNode == None &&
    (forall p :: InBounds(grid, p) && (At(grid, p).isVisited || At(grid, p).previousNode.Some?) ==> At(grid, p).g.Some?) &&
    // triggered on `ScoreOk` alone, so that one link does not call up the next
    (forall p {:trigger ScoreOk(grid, start, finish, p)} :: InBounds(grid, p) && At(grid, p).g.Some? ==> ScoreOk(grid, start, finish, p))
  }

  /**
   * The report of `astar`: the trace starts at the start, repeats no node and
   * reaches only open cells; the scores agree with the links; when the finish
   * was visited the trace ends there and the path, read off the links, is a
   * walk to it; otherwise the path is empty and the trace holds exactly the
   * cells reachable from the start.
   */
  ghost predicate Outcome(grid: array2<Node>, start: Pos, finish: Pos, res: SearchResult)
    reads grid
  {
    var trace := res.visitedNodesInOrder;
    TraceFrom(grid, Weighted, start, trace) &&
    res.numNodesVisited == |trace| - 1 &&
    res.shortestPath.Some? &&
    Scored(grid, start, finish) &&
    (finish in trace ==>
      EndsAt(trace, finish) &&
      SimpleWalk(grid, Weighted, start, finish, res.shortestPath.value) &&
      FollowsLinks(grid, res.shortestPath.value) &&
      res.shortestPathLength == |res.shortestPath.value| - 1) &&
    (finish !in trace ==>
      res.shortestPath == Some([]) && res.shortestPathLength == 0 &&
      forall p :: p in trace <==> Reachable(grid, Weighted, start, p))
  }

  /** The grid's terrain, link and mark fields are those of the ghost picture. */
  lemma TerrainNow(grid: array2<Node>, orig: map<Pos, Node>, finish: Pos, rank: map<Pos, nat>,
                   parent: map<Pos, Pos>, gm: map<Pos, nat>)
    requires ShowsScores(grid, orig, finish, rank, parent, gm) && Fresh(grid, orig)
    ensures forall p :: p in Open(grid, Weighted) <==> p in orig && orig[p].weight.Fin?
    ensures forall p :: InBounds(grid, p) ==> SameTerrain(At(grid, p), orig[p])
    ensures forall p :: InBounds(grid, p) ==> At(grid, p).isVisited == (p in rank) && At(grid, p).previousNode == Lookup(parent, p)
  {
    forall p | InBounds(grid, p)
      ensures At(grid, p).weight == orig[p].weight && SameTerrain(At(grid, p), orig[p])
      ensures At(grid, p).isVisited == (p in rank) && At(grid, p).previousNode == Lookup(parent, p)
    {
      assert At(grid, p) == Scores(orig[p], p, finish, gm).(isVisited := p in rank, previousNode := Lookup(parent, p));
    }
  }

  /** The fields of one node of the grid, read through the ghost picture. */
  lemma FieldsAt(grid: array2<Node>, orig: map<Pos, Node>, finish: Pos, rank: map<Pos, nat>,
                 parent: map<Pos, Pos>, gm: map<Pos, nat>, p: Pos)
    requires ShowsScores(grid, orig, finish, rank, parent, gm) && Fresh(grid, orig) && InBounds(grid, p)
    ensures p in orig
    ensures At(grid, p).isVisited == (p in rank) && At(grid, p).previousNode == Lookup(parent, p)
    ensures At(grid, p).weight == orig[p].weight && SameTerrain(At(grid, p), orig[p])
    ensures At(grid, p).g == if p in gm then Some(gm[p]) else None
    ensures p in gm ==> At(grid, p).h == Some(ManhattanDistance(p, finish)) &&
                        At(grid, p).f.Some? && At(grid, p).f.value == At(grid, p).g.value + At(grid, p).h.value
  {
    assert At(grid, p) == Scores(orig[p], p, finish, gm).(isVisited := p in rank, previousNode := Lookup(parent, p));
  }

  /** A visited or linked node of the grid has a g score. */
  lemma GuardAt(grid: array2<Node>, start: Pos, finish: Pos, orig: map<Pos, Node>,
                rank: map<Pos, nat>, parent: map<Pos, Pos>, gm: map<Pos, nat>, p: Pos)
    requires ShowsScores(grid, orig, finish, rank, parent, gm) && Fresh(grid, orig)
    requires Tree(orig, start, rank, parent, gm) && InBounds(grid, p)
    ensures (At(grid, p).isVisited || At(grid, p).previousNode.Some?) ==> At(grid, p).g.Some?
  {
    FieldsAt(grid, orig, finish, rank, parent, gm, p);
    if p in parent {
      assert Link(orig, rank, gm, parent[p], p);
    }
  }

  /** One scored node's scores on the grid agree with its link. */
  lemma ScoreAt(grid: array2<Node>, start: Pos, finish: Pos, orig: map<Pos, Node>,
                rank: map<Pos, nat>, parent: map<Pos, Pos>, gm: map<Pos, nat>, p: Pos)
    requires ShowsScores(grid, orig, finish, rank, parent, gm) && Fresh(grid, orig)
    requires Tree(orig, start, rank, parent, gm) && InBounds(grid, p) && At(grid, p).g.Some?
    ensures ScoreOk(grid, start, finish, p)
  {
    FieldsAt(grid, orig, finish, rank, parent, gm, p);
    if p != start {
      LinkAt(grid, start, finish, orig, rank, parent, gm, p);
    }
  }

  /** The link of a scored node other than the start, on the grid. */
  lemma LinkAt(grid: array2<Node>, start: Pos, finish: Pos, orig: map<Pos, Node>,
               rank: map<Pos, nat>, parent: map<Pos, Pos>, gm: map<Pos, nat>, p: Pos)
    requires ShowsScores(grid, orig, finish, rank, parent, gm) && Fresh(grid, orig)
    requires Tree(orig, start, rank, parent, gm) && InBounds(grid, p) && p in gm && p != start
    ensures At(grid, p).previousNode == Some(parent[p]) && InBounds(grid, parent[p])
    ensures LinkScore(grid, parent[p], p)
  {
    var q := parent[p];
    assert Link(orig, rank, gm, q, p);
    FieldsAt(grid, orig, finish, rank, parent, gm, p);
    FieldsAt(grid, orig, finish, rank, parent, gm, q);
  }

  /** The scores on the grid are the ones the run's ghost picture derives. */
  lemma ScoredNow(grid: array2<Node>, start: Pos, finish: Pos, orig: map<Pos, Node>,
                  rank: map<Pos, nat>, parent: map<Pos, Pos>, gm: map<Pos, nat>)
    requires ShowsScores(grid, orig, finish, rank, parent, gm) && Fresh(grid, orig)
    requires Tree(orig, start, rank, parent, gm) && InBounds(grid, start)
    ensures Scored(grid, start, finish)
  {
    forall p | InBounds(grid, p)
      ensures (At(grid, p).isVisited || At(grid, p).previousNode.Some?) ==> At(grid, p).g.Some?
      ensures At(grid, p).g.Some? ==> ScoreOk(grid, start, finish, p)
    {
      GuardAt(grid, start, finish, orig, rank, parent, gm, p);
      if At(grid, p).g.Some? {
        ScoreAt(grid, start, finish, orig, rank, parent, gm, p);
      }
    }
    FieldsAt(grid, orig, finish, rank, parent, gm, start);
  }

  /** With the start visited, the links form the tree the path reconstruction follows, over open cells. */
  lemma TreeLinked(start: Pos, orig: map<Pos, Node>, trace: seq<Pos>, rank: map<Pos, nat>,
                   parent: map<Pos, Pos>, gm: map<Pos, nat>, heap: multiset<Pos>)
    requires Inv(start, orig, trace, rank, parent, gm, heap) && trace != []
    ensures Linked(parent, start, rank)
    ensures forall p :: p in rank && p != start ==> p in orig && orig[p].weight.Fin?
  {
    assert trace[0] == start;
    forall p | p in rank && p != start ensures p in orig && orig[p].weight.Fin? {
      assert Link(orig, rank, gm, parent[p], p);
    }
  }

  /** The trace of a run, read on the grid. */
  lemma TraceNow(grid: array2<Node>, start: Pos, finish: Pos, orig: map<Pos, Node>, trace: seq<Pos>,
                 rank: map<Pos, nat>, parent: map<Pos, Pos>, gm: map<Pos, nat>, heap: multiset<Pos>)
    requires ShowsScores(grid, orig, finish, rank, parent, gm) && Fresh(grid, orig)
    requires Inv(start, orig, trace, rank, parent, gm, heap) && trace != []
    ensures TraceFrom(grid, Weighted, start, trace)
    ensures forall p :: p in rank ==> Reachable(grid, Weighted, start, p)
  {
    TerrainNow(grid, orig, finish, rank, parent, gm);
    TreeLinked(start, orig, trace, rank, parent, gm, heap);
    NumberedDistinct(trace, rank);
    forall p | p in rank ensures Reachable(grid, Weighted, start, p) {
      LinkedReaches(parent, start, rank, Open(grid, Weighted), p);
    }
  }

  /** Lines 30-38: the finish was visited; trace back the path and report. */
  method ReportFound(grid: array2<Node>, visitedNodesInOrder: seq<Pos>, ghost start: Pos, finish: Pos,
                     ghost orig: map<Pos, Node>, ghost rank: map<Pos, nat>, ghost parent: map<Pos, Pos>,
                     ghost gm: map<Pos, nat>, ghost heap: multiset<Pos>)
    returns (res: SearchResult)
    requires ShowsScores(grid, orig, finish, rank, parent, gm) && Fresh(grid, orig)
    requires Inv(start, orig, visitedNodesInOrder, rank, parent, gm, heap)
    requires EndsAt(visitedNodesInOrder, finish)
    ensures res.visitedNodesInOrder == visitedNodesInOrder
    ensures Outcome(grid, start, finish, res)
  {
    var trace := visitedNodesInOrder;
    assert trace[|trace| - 1] in rank;
    TerrainNow(grid, orig, finish, rank, parent, gm);
    TreeLinked(start, orig, trace, rank, parent, gm, heap);
    LinkedToByParents(grid, parent, start, rank);
    var shortestPath := GetNodesInShortestPathOrder(grid, finish, start, rank);
    BackChainIsPath(grid, start, rank, shortestPath, Open(grid, Weighted));
    TraceNow(grid, start, finish, orig, trace, rank, parent, gm, heap);
    ScoredNow(grid, start, finish, orig, rank, parent, gm);
    res := SearchResult(visitedNodesInOrder, |visitedNodesInOrder| - 1, Some(shortestPath), |shortestPath| - 1);
    FoundOutcome(grid, start, finish, rank, res);
  }

  /** The parts of a report that visited the finish make up `Outcome`. */
  lemma FoundOutcome(grid: array2<Node>, start: Pos, finish: Pos, rank: map<Pos, nat>, res: SearchResult)
    requires TraceFrom(grid, Weighted, start, res.visitedNodesInOrder) && EndsAt(res.visitedNodesInOrder, finish)
    requires res.numNodesVisited == |res.visitedNodesInOrder| - 1 && res.shortestPath.Some?
    requires Scored(grid, start, finish)
    requires IsBackChain(grid, start, rank, res.shortestPath.value) && res.shortestPath.value[|res.shortestPath.value| - 1] == finish
    requires IsPathIn(Open(grid, Weighted), res.shortestPath.value) && Distinct(res.shortestPath.value)
    requires res.shortestPathLength == |res.shortestPath.value| - 1
    ensures Outcome(grid, start, finish, res)
  {
  }

  /** Lines 54-60: the open list ran dry without meeting the finish. */
  method ReportExhausted(grid: array2<Node>, visitedNodesInOrder: seq<Pos>, ghost start: Pos, ghost finish: Pos,
                         ghost orig: map<Pos, Node>, ghost rank: map<Pos, nat>, ghost parent: map<Pos, Pos>,
                         ghost gm: map<Pos, nat>)
    returns (res: SearchResult)
    requires ShowsScores(grid, orig, finish, rank, parent, gm) && Fresh(grid, orig)
    requires Inv(start, orig, visitedNodesInOrder, rank, parent, gm, multiset{})
    requires Expanded(orig, rank, gm, {}) && finish !in rank
    ensures res == SearchResult(visitedNodesInOrder, |visitedNodesInOrder| - 1, Some([]), 0)
    ensures Outcome(grid, start, finish, res)
  {
    var trace := visitedNodesInOrder;
    assert multiset{start} != multiset{} by {
      assert start in multiset{start};
    }
    TerrainNow(grid, orig, finish, rank, parent, gm);
    TraceNow(grid, start, finish, orig, trace, rank, parent, gm, multiset{});
    ScoredNow(grid, start, finish, orig, rank, parent, gm);
    var open := Open(grid, Weighted);
    assert ClosedUnder(rank.Keys, open);
    forall p | Reachable(grid, Weighted, start, p) ensures p in trace {
      ReachesInClosed(rank.Keys, open, start, p);
    }
    res := SearchResult(visitedNodesInOrder, |visitedNodesInOrder| - 1, Some([]), 0);
  }

  /** Lines 27-28: the entry taken joins the trace. */
  method Visit(grid: array2<Node>, node: Pos, ghost start: Pos, ghost finish: Pos, ghost orig: map<Pos, Node>,
               ghost trace: seq<Pos>, ghost rank: map<Pos, nat>, ghost parent: map<Pos, Pos>,
               ghost gm: map<Pos, nat>, ghost heap: multiset<Pos>, ghost rest: multiset<Pos>)
    returns (ghost rank': map<Pos, nat>)
    requires ShowsScores(grid, orig, finish, rank, parent, gm) && InBounds(grid, node)
    requires Inv(start, orig, trace, rank, parent, gm, heap) && Expanded(orig, rank, gm, {})
    requires node !in rank && node in heap && rest + multiset{node} == heap
    modifies grid
    ensures rank' == rank[node := |trace|]
    ensures ShowsScores(grid, orig, finish, rank', parent, gm)
    ensures Stage(start, orig, trace + [node], rank', parent, gm, rest, node, [])
  {
    Mark(grid, node, finish, orig, rank, parent, gm, |trace|);
    VisitStep(start, orig, trace, rank, parent, gm, heap, node, rest);
    rank' := rank[node := |trace|];
  }

  /** `astar(grid, startNode, finishNode)`: see `Outcome`; only the search fields of the nodes change. */
  method Astar(grid: array2<Node>, start: Pos, finish: Pos) returns (res: SearchResult)
    requires InBounds(grid, start) && InBounds(grid, finish)
    requires Unsearched(grid) && Ungraded(grid)
    modifies grid
    ensures Outcome(grid, start, finish, res)
    ensures forall p :: InBounds(grid, p) ==> SameTerrain(At(grid, p), old(At(grid, p)))
  {
    ghost var orig := Snapshot(grid);
    var visitedNodesInOrder: seq<Pos> := [];
    SetStart(grid, start, finish, orig);
    var openList: multiset<Pos> := multiset{start};
    ghost var rank: map<Pos, nat> := map[];
    ghost var parent: map<Pos, Pos> := map[];
    ghost var gm: map<Pos, nat> := map[start := 0];

    while |openList| > 0
      invariant ShowsScores(grid, orig, finish, rank, parent, gm) && Fresh(grid, orig)
      invariant Inv(start, orig, visitedNodesInOrder, rank, parent, gm, openList)
      invariant Expanded(orig, rank, gm, {})
      invariant finish !in rank
      decreases orig.Keys - rank.Keys, |openList|
    {
      ghost var heap := openList;
      var current;
      current, openList := Pop(openList);
      assert current in gm;
      if grid[current.row, current.col].isVisited {
        Skip(start, orig, visitedNodesInOrder, rank, parent, gm, heap, current, openList);
        continue;
      }
      ghost var rank0 := rank;
      rank := Visit(grid, current, start, finish, orig, visitedNodesInOrder, rank, parent, gm, heap, openList);
      assert current in orig.Keys - rank0.Keys;
      visitedNodesInOrder := visitedNodesInOrder + [current];
      if current == finish {
        res := ReportFound(grid, visitedNodesInOrder, start, finish, orig, rank, parent, gm, openList);
        TerrainNow(grid, orig, finish, rank, parent, gm);
        return;
      }
      openList, parent, gm := RelaxNeighbors(grid, current, finish, openList, start, orig, visitedNodesInOrder,
                                             rank, parent, gm);
    }

    res := ReportExhausted(grid, visitedNodesInOrder, start, finish, orig, rank, parent, gm);
    TerrainNow(grid, orig, finish, rank, parent, gm);
  }

  // ---------------------------------------------------------------------------
  // Properties of the report

  /** Along a chain of links from the start, each node's g is the cost of the chain up to it. */
  lemma {:induction false} PathScore(grid: array2<Node>, start: Pos, finish: Pos, path: seq<Pos>, k: nat)
    requires Scored(grid, start, finish) && FollowsLinks(grid, path)
    requires |path| > 0 && path[0] == start && k < |path|
    ensures InBounds(grid, path[k]) && At(grid, path[k]).g == Some(Cost(Weights(grid), path[..k + 1]))
  {
    if k > 0 {
      PathScore(grid, start, finish, path, k - 1);
      var p := path[k];
      assert At(grid, p).previousNode == Some(path[k - 1]);
      assert At(grid, p).g.Some?;
      assert ScoreOk(grid, start, finish, p);
      assert p != start;
      assert path[..k + 1][..k] == path[..k];
    }
  }

  /**
   * When the finish is found, its g is the total weight entered along the
   * returned path, and its f equals its g.
   */
  lemma FoundCost(grid: array2<Node>, start: Pos, finish: Pos, res: SearchResult)
    requires Outcome(grid, start, finish, res) && finish in res.visitedNodesInOrder
    ensures At(grid, finish).g == Some(Cost(Weights(grid), res.shortestPath.value))
    ensures At(grid, finish).f == At(grid, finish).g
  {
    var path := res.shortestPath.value;
    PathScore(grid, start, finish, path, |path| - 1);
    assert path[..|path|] == path;
    assert ScoreOk(grid, start, finish, finish);
  }

  /** The path is nonempty exactly when the finish is reachable from the start. */
  lemma FoundIffReachable(grid: array2<Node>, start: Pos, finish: Pos, res: SearchResult)
    requires Outcome(grid, start, finish, res)
    ensures res.shortestPath.value != [] <==> Reachable(grid, Weighted, start, finish)
  {
  }
}
