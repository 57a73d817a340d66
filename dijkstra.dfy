/**
 * Dijkstra's algorithm (dijkstra.js): every node in one work list, the list
 * re-sorted by `distance` each round and its head taken; Wall nodes are
 * skipped, an Infinity head ends the search, and the finish ends it with the
 * back-linked path and its total weight.
 */
module Dijkstra {
  import opened Grids

  /** `{visitedNodesInOrder, numNodesVisited, shortestPath, shortestPathLength, totalDistance}`; null is `None`. */
  datatype DijkstraResult = DijkstraResult(
    visitedNodesInOrder: seq<Pos>,
    numNodesVisited: int,
    shortestPath: Option<seq<Pos>>,
    shortestPathLength: int,
    totalDistance: nat)

  // ---------------------------------------------------------------------------
  // The helpers of dijkstra.js

  /** `getUnvisitedNeighbors`: the in-bounds up, down, left, right cells that are not visited, of any terrain. */
  function GetUnvisitedNeighbors(grid: array2<Node>, p: Pos): (r: seq<Pos>)
    reads grid
    requires InBounds(grid, p)
    ensures forall q :: q in r <==> InBounds(grid, q) && Adjacent(p, q) && !At(grid, q).isVisited
    ensures InDirOrder(p, UP_DOWN_LEFT_RIGHT, r)
    ensures Distinct(r)
  {
    NeighborsMembers(grid, p, UP_DOWN_LEFT_RIGHT, AnyTerrain);
    NeighborsOrdered(grid, p, UP_DOWN_LEFT_RIGHT, AnyTerrain);
    NeighborsDistinct(grid, p, UP_DOWN_LEFT_RIGHT, AnyTerrain);
    Neighbors(grid, p, UP_DOWN_LEFT_RIGHT, AnyTerrain)
  }

  /** `p` comes before `q` when the rows are read top to bottom and each row left to right. */
  predicate RowMajorBefore(p: Pos, q: Pos) {
    p.row < q.row || (p.row == q.row && p.col < q.col)
  }

  /** `getAllNodes`: every node of the grid once, row by row. */
  method GetAllNodes(grid: array2<Node>) returns (nodes: seq<Pos>)
    ensures forall p :: p in nodes <==> InBounds(grid, p)
    ensures forall i, j :: 0 <= i < j < |nodes| ==> RowMajorBefore(nodes[i], nodes[j])
  {
    nodes := [];
    for r := 0 to grid.Length0
      invariant forall p :: p in nodes <==> p.row < r && p.col < grid.Length1
      invariant forall i, j :: 0 <= i < j < |nodes| ==> RowMajorBefore(nodes[i], nodes[j])
    {
      for c := 0 to grid.Length1
        invariant forall p :: p in nodes <==> (p.row < r && p.col < grid.Length1) || (p.row == r && p.col < c)
        invariant forall i, j :: 0 <= i < j < |nodes| ==> RowMajorBefore(nodes[i], nodes[j])
      {
        nodes := nodes + [Pos(r, c)];
      }
    }
  }

  /** A row-major sequence holds each cell at most once. */
  lemma {:induction false} RowMajorOnce(s: seq<Pos>)
    requires forall i, j :: 0 <= i < j < |s| ==> RowMajorBefore(s[i], s[j])
    ensures forall p :: multiset(s)[p] <= 1
    decreases |s|
  {
    if s != [] {
      RowMajorOnce(s[1..]);
      assert s == [s[0]] + s[1..];
      assert s[0] !in s[1..] by {
        forall k | 0 <= k < |s[1..]| ensures s[1..][k] != s[0] {
          assert RowMajorBefore(s[0], s[k + 1]);
        }
      }
    }
  }

  /**
   * The order of the comparator `nodeA.distance - nodeB.distance`: smaller
   * distances first, Infinity last. `Infinity - Infinity` is NaN, which the
   * sort treats as a tie, so two Infinity nodes are tied.
   */
  predicate DistanceSorted(grid: array2<Node>, s: seq<Pos>)
    reads grid
    requires forall q :: q in s ==> InBounds(grid, q)
  {
    forall i, j :: 0 <= i < j < |s| ==> AtMost(At(grid, s[i]).distance, At(grid, s[j]).distance)
  }

  /** Insert `p` before the first node whose distance is not smaller, so that ties keep their order. */
  function InsertByDistance(grid: array2<Node>, p: Pos, s: seq<Pos>): (r: seq<Pos>)
    reads grid
    requires InBounds(grid, p) && forall q :: q in s ==> InBounds(grid, q)
    ensures multiset(r) == multiset(s) + multiset{p}
    ensures forall q :: q in r <==> q == p || q in s
    ensures r[0] == p || (s != [] && r[0] == s[0])
    decreases |s|
  {
    if s == [] || AtMost(At(grid, p).distance, At(grid, s[0]).distance) then
      [p] + s
    else
      assert s == [s[0]] + s[1..];
      [s[0]] + InsertByDistance(grid, p, s[1..])
  }

  /** Inserting into a sorted list keeps it sorted. */
  lemma {:induction false} InsertKeepsSorted(grid: array2<Node>, p: Pos, s: seq<Pos>)
    requires InBounds(grid, p) && forall q :: q in s ==> InBounds(grid, q)
    requires DistanceSorted(grid, s)
    ensures DistanceSorted(grid, InsertByDistance(grid, p, s))
    decreases |s|
  {
    var r := InsertByDistance(grid, p, s);
    if s == [] || AtMost(At(grid, p).distance, At(grid, s[0]).distance) {
      assert r == [p] + s;
      forall i, j | 0 <= i < j < |r| ensures AtMost(At(grid, r[i]).distance, At(grid, r[j]).distance) {
        if i == 0 && j > 1 {
          assert AtMost(At(grid, s[0]).distance, At(grid, s[j - 1]).distance);
        }
      }
    } else {
      var rest := InsertByDistance(grid, p, s[1..]);
      InsertKeepsSorted(grid, p, s[1..]);
      assert r == [s[0]] + rest;
      assert s == [s[0]] + s[1..];
      forall j | 0 <= j < |rest| ensures AtMost(At(grid, s[0]).distance, At(grid, rest[j]).distance) {
        assert rest[j] in rest;
        if rest[j] != p {
          var m :| 0 <= m < |s[1..]| && s[1..][m] == rest[j];
          assert s[m + 1] == rest[j];
        }
      }
      forall i, j | 0 <= i < j < |r| ensures AtMost(At(grid, r[i]).distance, At(grid, r[j]).distance) {
        assert r[j] == rest[j - 1];
        if i > 0 {
          assert r[i] == rest[i - 1];
        }
      }
    }
  }

  /**
   * `sortNodesByDistance`: `Array.prototype.sort` with the distance
   * comparator, a stable sort, written as an insertion sort.
   */
  function SortByDistance(grid: array2<Node>, s: seq<Pos>): (r: seq<Pos>)
    reads grid
    requires forall q :: q in s ==> InBounds(grid, q)
    ensures multiset(r) == multiset(s)
    ensures forall q :: q in r ==> InBounds(grid, q)
    ensures DistanceSorted(grid, r)
    decreases |s|
  {
    if s == [] then []
    else
      assert s == [s[0]] + s[1..];
      InsertKeepsSorted(grid, s[0], SortByDistance(grid, s[1..]));
      InsertByDistance(grid, s[0], SortByDistance(grid, s[1..]))
  }

  /**
   * Lines 65-69 on one neighbour: the candidate distance through `from` is
   * taken only when it is strictly smaller, and then the link is set too.
   */
  function Relaxed(n: Node, from: Pos, d: Ext): (r: Node)
    ensures AtMost(r.distance, n.distance) && AtMost(r.distance, Add(d, n.weight))
    ensures r.distance == n.distance || r.distance == Add(d, n.weight)
    ensures r == n || r == n.(distance := Add(d, n.weight), previousNode := Some(from))
    ensures r.distance == n.distance ==> r == n
    ensures n.weight == Inf ==> r == n
  {
    var newDistance := Add(d, n.weight);
    if Less(newDistance, n.distance) then n.(distance := newDistance, previousNode := Some(from)) else n
  }

  /** Lines 65-69 on one neighbour of `node`; the ghost maps follow the grid. */
  method RelaxNeighbor(grid: array2<Node>, node: Pos, neighbor: Pos, ghost orig: map<Pos, Node>,
                       ghost rank: map<Pos, nat>, ghost parent: map<Pos, Pos>, ghost dist: map<Pos, nat>)
    returns (ghost parent': map<Pos, Pos>, ghost dist': map<Pos, nat>)
    requires ShowsDist(grid, orig, rank, parent, dist)
    requires InBounds(grid, node) && InBounds(grid, neighbor) && node != neighbor && node in dist
    modifies grid
    ensures At(grid, neighbor) == Relaxed(old(At(grid, neighbor)), node, At(grid, node).distance)
    ensures forall p :: InBounds(grid, p) && p != neighbor ==> At(grid, p) == old(At(grid, p))
    ensures Relaxation(orig, parent, dist, node, neighbor, parent', dist')
    ensures ShowsDist(grid, orig, rank, parent', dist')
  {
    ImprovesAt(grid, orig, rank, parent, dist, node, neighbor);
    var n := grid[neighbor.row, neighbor.col];
    var newDistance := Add(grid[node.row, node.col].distance, n.weight);
    if Less(newDistance, n.distance) {
      grid[neighbor.row, neighbor.col] := n.(distance := newDistance, previousNode := Some(node));
      parent', dist' := parent[neighbor := node], dist[neighbor := newDistance.n];
    } else {
      parent', dist' := parent, dist;
    }
  }

  /** The test of line 66 read off the grid is the test on the ghost distances. */
  lemma ImprovesAt(grid: array2<Node>, orig: map<Pos, Node>, rank: map<Pos, nat>, parent: map<Pos, Pos>,
                   dist: map<Pos, nat>, node: Pos, x: Pos)
    requires ShowsDist(grid, orig, rank, parent, dist)
    requires InBounds(grid, node) && InBounds(grid, x) && node in dist
    ensures x in orig
    ensures Less(Add(At(grid, node).distance, At(grid, x).weight), At(grid, x).distance) <==> Improves(orig, dist, node, x)
    ensures Improves(orig, dist, node, x) ==> Add(At(grid, node).distance, At(grid, x).weight).n == dist[node] + orig[x].weight.n
  {
    assert At(grid, node).distance == Fin(dist[node]);
    assert At(grid, x).distance == DistOf(dist, x) && At(grid, x).weight == orig[x].weight;
  }

  /** `neighbors` are exactly the cells adjacent to `node` that are not visited. */
  ghost predicate Around(orig: map<Pos, Node>, rank: map<Pos, nat>, node: Pos, neighbors: seq<Pos>) {
    forall q :: q in neighbors <==> q in orig && q !in rank && Adjacent(node, q)
  }

  /** One pass of the loop of lines 64-70, with the stage of the invariant carried along. */
  method RelaxOne(grid: array2<Node>, node: Pos, neighbors: seq<Pos>, k: nat, ghost start: Pos,
                  ghost orig: map<Pos, Node>, ghost trace: seq<Pos>, ghost rank: map<Pos, nat>,
                  ghost parent: map<Pos, Pos>, ghost dist: map<Pos, nat>)
    returns (ghost parent': map<Pos, Pos>, ghost dist': map<Pos, nat>)
    requires ShowsDist(grid, orig, rank, parent, dist) && InBounds(grid, node)
    requires Around(orig, rank, node, neighbors) && k < |neighbors|
    requires Stage(start, orig, trace, rank, parent, dist, node, neighbors[..k])
    modifies grid
    ensures ShowsDist(grid, orig, rank, parent', dist')
    ensures Stage(start, orig, trace, rank, parent', dist', node, neighbors[..k + 1])
  {
    var neighbor := neighbors[k];
    assert neighbor in neighbors;
    assert node in dist;
    parent', dist' := RelaxNeighbor(grid, node, neighbor, orig, rank, parent, dist);
    RelaxStep(start, orig, trace, rank, parent, dist, node, neighbors[..k], neighbor, parent', dist');
    TakeOneMore(neighbors, k);
  }

  /** `updateUnvisitedNeighbors`: relax every unvisited neighbour of the node just settled. */
  method UpdateUnvisitedNeighbors(grid: array2<Node>, node: Pos, ghost start: Pos, ghost orig: map<Pos, Node>,
                                  ghost trace: seq<Pos>, ghost rank: map<Pos, nat>,
                                  ghost parent: map<Pos, Pos>, ghost dist: map<Pos, nat>)
    returns (ghost parent': map<Pos, Pos>, ghost dist': map<Pos, nat>)
    requires ShowsDist(grid, orig, rank, parent, dist) && InBounds(grid, node)
    requires Stage(start, orig, trace, rank, parent, dist, node, [])
    modifies grid
    ensures ShowsDist(grid, orig, rank, parent', dist')
    ensures Inv(start, orig, trace, rank, parent', dist') && Expanded(orig, rank, dist', {})
  {
    var neighbors := GetUnvisitedNeighbors(grid, node);
    assert Around(orig, rank, node, neighbors);
    parent', dist' := parent, dist;
    TakeAll(neighbors);
    for k := 0 to |neighbors|
      invariant ShowsDist(grid, orig, rank, parent', dist')
      invariant Stage(start, orig, trace, rank, parent', dist', node, neighbors[..k])
    {
      parent', dist' := RelaxOne(grid, node, neighbors, k, start, orig, trace, rank, parent', dist');
    }
    TakeAll(neighbors);
    Settle(start, orig, trace, rank, parent', dist', node, neighbors);
  }

  // ---------------------------------------------------------------------------
  // Costs of walks

  /** A prefix of a walk costs no more than the walk. */
  lemma {:induction false} CostPrefix(fin: map<Pos, nat>, w: seq<Pos>, k: nat)
    requires 1 <= k <= |w|
    ensures Cost(fin, w[..k]) <= Cost(fin, w)
    decreases |w|
  {
    if k < |w| {
      CostPrefix(fin, w[..|w| - 1], k);
      assert w[..|w| - 1][..k] == w[..k];
    } else {
      assert w[..k] == w;
    }
  }

  /** No walk through `open` from `from` to `to` costs less than `c`. */
  ghost predicate NoCheaper(open: set<Pos>, fin: map<Pos, nat>, from: Pos, to: Pos, c: nat) {
    forall w :: IsPathIn(open, w) && w[0] == from && w[|w| - 1] == to ==> c <= Cost(fin, w)
  }

  // ---------------------------------------------------------------------------
  // The terrain of the snapshot

  ghost function NonWalls(orig: map<Pos, Node>): (s: set<Pos>)
    ensures forall p :: p in s <==> p in orig && orig[p].nodeType != Some(WALL)
  {
    set p | p in orig && orig[p].nodeType != Some(WALL)
  }

  /** The cells Dijkstra's walks may enter: not a Wall and of finite weight. */
  ghost function Passable(orig: map<Pos, Node>): (s: set<Pos>)
    ensures forall p :: p in s <==> p in orig && Enterable(orig[p], WeightedUnwalled)
  {
    set p | p in orig && Enterable(orig[p], WeightedUnwalled)
  }

  ghost function WeightsOf(orig: map<Pos, Node>): (m: map<Pos, nat>)
    ensures forall p :: p in m <==> p in orig && orig[p].weight.Fin?
    ensures forall p :: p in m ==> m[p] == orig[p].weight.n
  {
    map p | p in orig && orig[p].weight.Fin? :: orig[p].weight.n
  }

  // ---------------------------------------------------------------------------
  // Ghost picture of a run

  function DistOf(dist: map<Pos, nat>, p: Pos): Ext {
    if p in dist then Fin(dist[p]) else Inf
  }

  /** The grid is the snapshot `orig` with the marks of `rank`, the links of `parent` and the distances of `dist`. */
  ghost predicate ShowsDist(grid: array2<Node>, orig: map<Pos, Node>, rank: map<Pos, nat>,
                            parent: map<Pos, Pos>, dist: map<Pos, nat>)
    reads grid
  {
    (forall p :: p in orig <==> InBounds(grid, p)) &&
    forall p :: InBounds(grid, p) ==>
      At(grid, p) == orig[p].(isVisited := p in rank, previousNode := Lookup(parent, p), distance := DistOf(dist, p))
  }

  /** `rank` numbers the trace, which starts at `start` and holds no Wall, and only the start may be of Infinity weight. */
  ghost predicate Visits(start: Pos, orig: map<Pos, Node>, trace: seq<Pos>, rank: map<Pos, nat>) {
    Numbered(trace, rank) && (trace != [] ==> trace[0] == start) &&
    forall p :: p in rank ==> p in NonWalls(orig) && (p != start ==> p in Passable(orig))
  }

  /**
   * The finite distances: the start's is 0, every other one was set through
   * a link to an adjacent visited node, as that node's distance plus the
   * cell's weight, and a visited node's link points to one visited before it.
   */
  ghost predicate Tree(start: Pos, orig: map<Pos, Node>, rank: map<Pos, nat>, parent: map<Pos, Pos>, dist: map<Pos, nat>) {
    var fin := WeightsOf(orig);
    start in dist && dist[start] == 0 && start !in parent &&
    (forall p :: p in rank ==> p in dist) &&
    (forall p :: p in dist && p != start ==> p in parent) &&
    (forall p {:trigger parent[p]} :: p in parent ==>
      p in dist && p != start && p in fin && parent[p] in rank && Adjacent(parent[p], p) &&
      dist[p] == dist[parent[p]] + fin[p] && (p in rank ==> rank[parent[p]] < rank[p]))
  }

  /** Distances never decrease along the trace, and no unvisited non-Wall node is closer than a visited one. */
  ghost predicate Monotone(orig: map<Pos, Node>, trace: seq<Pos>, rank: map<Pos, nat>, dist: map<Pos, nat>) {
    (forall i, j :: 0 <= i < j < |trace| && trace[i] in dist && trace[j] in dist ==> dist[trace[i]] <= dist[trace[j]]) &&
    (forall v, u :: v in rank && v in dist && u in dist && u !in rank && u in NonWalls(orig) ==> dist[v] <= dist[u])
  }

  /** A visited node's distance is the least cost of a walk to it. */
  ghost predicate Optimal(start: Pos, orig: map<Pos, Node>, rank: map<Pos, nat>, dist: map<Pos, nat>) {
    forall v :: v in rank && v in dist ==> NoCheaper(Passable(orig), WeightsOf(orig), start, v, dist[v])
  }

  ghost predicate Inv(start: Pos, orig: map<Pos, Node>, trace: seq<Pos>, rank: map<Pos, nat>,
                      parent: map<Pos, Pos>, dist: map<Pos, nat>) {
    Visits(start, orig, trace, rank) && Tree(start, orig, rank, parent, dist) &&
    Monotone(orig, trace, rank, dist) && Optimal(start, orig, rank, dist)
  }

  /** Every visited node outside `skip` has relaxed its passable unvisited neighbours. */
  ghost predicate Expanded(orig: map<Pos, Node>, rank: map<Pos, nat>, dist: map<Pos, nat>, skip: set<Pos>) {
    var fin := WeightsOf(orig);
    forall v, u :: v in rank && v !in skip && v in dist && u in Passable(orig) && u in fin && u !in rank && Adjacent(v, u) ==>
      u in dist && dist[u] <= dist[v] + fin[u]
  }

  /** The work list holds each unvisited node at most once, and every unvisited non-Wall node. */
  ghost predicate Covers(orig: map<Pos, Node>, rank: map<Pos, nat>, m: multiset<Pos>) {
    (forall p :: p in m ==> p in orig && p !in rank && m[p] == 1) &&
    (forall p :: p in NonWalls(orig) && p !in rank ==> p in m)
  }

  /** The neighbours in `done` have been relaxed from `u`. */
  ghost predicate Done(orig: map<Pos, Node>, u: Pos, done: seq<Pos>, dist: map<Pos, nat>)
    requires u in dist
  {
    var fin := WeightsOf(orig);
    forall y :: y in done && y in fin ==> y in dist && dist[y] <= dist[u] + fin[y]
  }

  /** While `u`, the node visited last, relaxes its neighbours. */
  ghost predicate Stage(start: Pos, orig: map<Pos, Node>, trace: seq<Pos>, rank: map<Pos, nat>,
                        parent: map<Pos, Pos>, dist: map<Pos, nat>, u: Pos, done: seq<Pos>) {
    Inv(start, orig, trace, rank, parent, dist) && u in rank && u in dist &&
    (forall v :: v in rank && v in dist ==> dist[v] <= dist[u]) &&
    Expanded(orig, rank, dist, {u}) && Done(orig, u, done, dist)
  }

  /** The test of line 66: the distance through `u` is strictly smaller. */
  ghost predicate Improves(orig: map<Pos, Node>, dist: map<Pos, nat>, u: Pos, x: Pos)
    requires u in dist && x in orig
  {
    Less(Add(Fin(dist[u]), orig[x].weight), DistOf(dist, x))
  }

  /** `parent'` and `dist'` are `parent` and `dist` after relaxing `x` from `u`. */
  ghost predicate Relaxation(orig: map<Pos, Node>, parent: map<Pos, Pos>, dist: map<Pos, nat>, u: Pos, x: Pos,
                             parent': map<Pos, Pos>, dist': map<Pos, nat>)
    requires u in dist && x in orig
  {
    if Improves(orig, dist, u, x) then parent' == parent[x := u] && dist' == dist[x := dist[u] + orig[x].weight.n]
    else parent' == parent && dist' == dist
  }

  // ---------------------------------------------------------------------------
  // Relaxation keeps the invariant

  /** A visited node is never the target of a relaxation, so the start is not either. */
  lemma StartVisited(start: Pos, orig: map<Pos, Node>, trace: seq<Pos>, rank: map<Pos, nat>, u: Pos)
    requires Visits(start, orig, trace, rank) && u in rank
    ensures start in rank
  {
    assert trace[rank[u]] == u;
    assert trace[0] in rank;
  }

  /** An improved distance keeps the links and distances consistent. */
  lemma ImproveTree(start: Pos, orig: map<Pos, Node>, rank: map<Pos, nat>, parent: map<Pos, Pos>,
                    dist: map<Pos, nat>, u: Pos, x: Pos)
    requires Tree(start, orig, rank, parent, dist) && start in rank && u in rank
    requires x in orig && x !in rank && Adjacent(u, x) && Improves(orig, dist, u, x)
    ensures Tree(start, orig, rank, parent[x := u], dist[x := dist[u] + orig[x].weight.n])
  {
    var parent', dist' := parent[x := u], dist[x := dist[u] + orig[x].weight.n];
    var fin := WeightsOf(orig);
    forall p | p in parent'
      ensures p in dist' && p != start && p in fin && parent'[p] in rank && Adjacent(parent'[p], p) &&
              dist'[p] == dist'[parent'[p]] + fin[p] && (p in rank ==> rank[parent'[p]] < rank[p])
    {
      if p != x {
        assert parent'[p] == parent[p] && parent[p] in rank;
      }
    }
  }

  /** An improved distance is at least the distance of `u`, so no visited node is farther. */
  lemma ImproveMonotone(orig: map<Pos, Node>, trace: seq<Pos>, rank: map<Pos, nat>, dist: map<Pos, nat>, u: Pos, x: Pos)
    requires Monotone(orig, trace, rank, dist) && Numbered(trace, rank) && u in dist && x in orig && x !in rank
    requires forall v :: v in rank && v in dist ==> dist[v] <= dist[u]
    requires orig[x].weight.Fin?
    ensures Monotone(orig, trace, rank, dist[x := dist[u] + orig[x].weight.n])
  {
    assert forall i :: 0 <= i < |trace| ==> trace[i] != x;
  }

  /** Lowering an unvisited node's distance keeps the visited nodes' relaxations. */
  lemma ImproveExpanded(orig: map<Pos, Node>, rank: map<Pos, nat>, dist: map<Pos, nat>, u: Pos, x: Pos, skip: set<Pos>)
    requires Expanded(orig, rank, dist, skip) && u in dist && x in orig && x !in rank && Improves(orig, dist, u, x)
    ensures Expanded(orig, rank, dist[x := dist[u] + orig[x].weight.n], skip)
  {
  }

  /** Lowering an unvisited node's distance keeps the visited nodes' distances optimal. */
  lemma ImproveOptimal(start: Pos, orig: map<Pos, Node>, rank: map<Pos, nat>, dist: map<Pos, nat>, x: Pos, d: nat)
    requires Optimal(start, orig, rank, dist) && x !in rank
    ensures Optimal(start, orig, rank, dist[x := d])
  {
    forall v | v in rank && v in dist[x := d]
      ensures NoCheaper(Passable(orig), WeightsOf(orig), start, v, dist[x := d][v])
    {
      assert dist[x := d][v] == dist[v];
    }
  }

  /** After an improving relaxation, `x` is done too and `u` stays the farthest visited node. */
  lemma ImproveDone(orig: map<Pos, Node>, rank: map<Pos, nat>, u: Pos, done: seq<Pos>, dist: map<Pos, nat>, x: Pos)
    requires u in dist && u in rank && x in orig && x !in rank && Improves(orig, dist, u, x)
    requires Done(orig, u, done, dist) && forall v :: v in rank && v in dist ==> dist[v] <= dist[u]
    ensures Done(orig, u, done + [x], dist[x := dist[u] + orig[x].weight.n])
    ensures forall v :: v in rank && v in dist[x := dist[u] + orig[x].weight.n] ==>
              dist[x := dist[u] + orig[x].weight.n][v] <= dist[x := dist[u] + orig[x].weight.n][u]
  {
  }

  /** After a relaxation that changes nothing, `x` is done too. */
  lemma KeepDone(orig: map<Pos, Node>, u: Pos, done: seq<Pos>, dist: map<Pos, nat>, x: Pos)
    requires u in dist && x in orig && !Improves(orig, dist, u, x) && Done(orig, u, done, dist)
    ensures Done(orig, u, done + [x], dist)
  {
  }

  /** An improving relaxation from `u`, the node visited last, keeps the invariant. */
  lemma ImproveInv(start: Pos, orig: map<Pos, Node>, trace: seq<Pos>, rank: map<Pos, nat>,
                   parent: map<Pos, Pos>, dist: map<Pos, nat>, u: Pos, x: Pos)
    requires Inv(start, orig, trace, rank, parent, dist) && u in rank && u in dist
    requires forall v :: v in rank && v in dist ==> dist[v] <= dist[u]
    requires x in orig && x !in rank && Adjacent(u, x) && Improves(orig, dist, u, x)
    ensures Inv(start, orig, trace, rank, parent[x := u], dist[x := dist[u] + orig[x].weight.n])
  {
    StartVisited(start, orig, trace, rank, u);
    ImproveTree(start, orig, rank, parent, dist, u, x);
    ImproveMonotone(orig, trace, rank, dist, u, x);
    ImproveOptimal(start, orig, rank, dist, x, dist[u] + orig[x].weight.n);
  }

  /** An improving relaxation of `x` keeps the stage, with `x` done. */
  lemma ImproveStage(start: Pos, orig: map<Pos, Node>, trace: seq<Pos>, rank: map<Pos, nat>,
                     parent: map<Pos, Pos>, dist: map<Pos, nat>, u: Pos, done: seq<Pos>, x: Pos)
    requires Stage(start, orig, trace, rank, parent, dist, u, done)
    requires x in orig && x !in rank && Adjacent(u, x) && Improves(orig, dist, u, x)
    ensures Stage(start, orig, trace, rank, parent[x := u], dist[x := dist[u] + orig[x].weight.n], u, done + [x])
  {
    ImproveDone(orig, rank, u, done, dist, x);
    ImproveInv(start, orig, trace, rank, parent, dist, u, x);
    ImproveExpanded(orig, rank, dist, u, x, {u});
  }

  /** A relaxation that changes nothing keeps the stage, with `x` done. */
  lemma KeepStage(start: Pos, orig: map<Pos, Node>, trace: seq<Pos>, rank: map<Pos, nat>,
                  parent: map<Pos, Pos>, dist: map<Pos, nat>, u: Pos, done: seq<Pos>, x: Pos)
    requires Stage(start, orig, trace, rank, parent, dist, u, done)
    requires x in orig && x !in rank && !Improves(orig, dist, u, x)
    ensures Stage(start, orig, trace, rank, parent, dist, u, done + [x])
  {
    KeepDone(orig, u, done, dist, x);
  }

  /** One relaxation from `u` keeps the stage, with one more neighbour done. */
  lemma RelaxStep(start: Pos, orig: map<Pos, Node>, trace: seq<Pos>, rank: map<Pos, nat>,
                  parent: map<Pos, Pos>, dist: map<Pos, nat>, u: Pos, done: seq<Pos>, x: Pos,
                  parent': map<Pos, Pos>, dist': map<Pos, nat>)
    requires Stage(start, orig, trace, rank, parent, dist, u, done)
    requires x in orig && x !in rank && Adjacent(u, x) && Relaxation(orig, parent, dist, u, x, parent', dist')
    ensures Stage(start, orig, trace, rank, parent', dist', u, done + [x])
  {
    if Improves(orig, dist, u, x) {
      ImproveStage(start, orig, trace, rank, parent, dist, u, done, x);
    } else {
      KeepStage(start, orig, trace, rank, parent, dist, u, done, x);
    }
  }

  /** When every neighbour is done, `u` joins the expanded nodes. */
  lemma Settle(start: Pos, orig: map<Pos, Node>, trace: seq<Pos>, rank: map<Pos, nat>,
               parent: map<Pos, Pos>, dist: map<Pos, nat>, u: Pos, done: seq<Pos>)
    requires Stage(start, orig, trace, rank, parent, dist, u, done) && Around(orig, rank, u, done)
    ensures Inv(start, orig, trace, rank, parent, dist) && Expanded(orig, rank, dist, {})
  {
  }

  // ---------------------------------------------------------------------------
  // Taking the head of the sorted list keeps the invariant

  /** The sorted list's head is no farther than any node in the list. */
  lemma SortedHead(grid: array2<Node>, orig: map<Pos, Node>, rank: map<Pos, nat>, parent: map<Pos, Pos>,
                   dist: map<Pos, nat>, sorted: seq<Pos>)
    requires ShowsDist(grid, orig, rank, parent, dist)
    requires sorted != [] && (forall q :: q in sorted ==> InBounds(grid, q)) && DistanceSorted(grid, sorted)
    ensures forall x :: x in sorted ==> AtMost(DistOf(dist, sorted[0]), DistOf(dist, x))
  {
    forall x | x in sorted ensures AtMost(DistOf(dist, sorted[0]), DistOf(dist, x)) {
      var j :| 0 <= j < |sorted| && sorted[j] == x;
      if j > 0 {
        assert AtMost(At(grid, sorted[0]).distance, At(grid, sorted[j]).distance);
      }
    }
  }

  /** What `shift` leaves in the list: the other nodes, each still once. */
  lemma Shift(orig: map<Pos, Node>, rank: map<Pos, nat>, list: seq<Pos>)
    requires Covers(orig, rank, multiset(list)) && list != []
    ensures forall p :: p in multiset(list[1..]) ==> p in orig && p !in rank && p != list[0] && multiset(list[1..])[p] == 1
    ensures forall p :: p in NonWalls(orig) && p !in rank && p != list[0] ==> p in multiset(list[1..])
  {
    assert list == [list[0]] + list[1..];
    assert multiset(list) == multiset{list[0]} + multiset(list[1..]);
  }

  /** A visited head leaves the list (line 14). */
  lemma ShiftVisited(orig: map<Pos, Node>, rank: map<Pos, nat>, list: seq<Pos>, n: nat)
    requires Covers(orig, rank, multiset(list)) && list != []
    ensures Covers(orig, rank[list[0] := n], multiset(list[1..]))
  {
    Shift(orig, rank, list);
  }

  /** A Wall at the head is dropped without a visit (line 15). */
  lemma ShiftWall(orig: map<Pos, Node>, rank: map<Pos, nat>, list: seq<Pos>)
    requires Covers(orig, rank, multiset(list)) && list != [] && list[0] !in NonWalls(orig)
    ensures Covers(orig, rank, multiset(list[1..]))
  {
    Shift(orig, rank, list);
  }

  /** The first step out of the visited nodes along a walk from the start already costs no more than the walk. */
  lemma {:induction false} FirstExit(start: Pos, orig: map<Pos, Node>, rank: map<Pos, nat>, dist: map<Pos, nat>, w: seq<Pos>)
    requires Optimal(start, orig, rank, dist) && Expanded(orig, rank, dist, {})
    requires forall p :: p in rank ==> p in dist
    requires IsPathIn(Passable(orig), w) && w[0] == start && start in rank && w[|w| - 1] !in rank
    ensures exists k :: 0 < k < |w| && w[k] in Passable(orig) && w[k] !in rank && w[k] in dist &&
                        dist[w[k]] <= Cost(WeightsOf(orig), w)
    decreases |w|
  {
    var n := |w|;
    var fin := WeightsOf(orig);
    var w' := w[..n - 1];
    assert IsPathIn(Passable(orig), w');
    assert w'[0] == start && w'[|w'| - 1] == w[n - 2];
    if w[n - 2] in rank {
      assert NoCheaper(Passable(orig), fin, start, w[n - 2], dist[w[n - 2]]);
      assert dist[w[n - 2]] <= Cost(fin, w');
      assert Adjacent(w[n - 2], w[n - 1]) && w[n - 1] in Passable(orig);
      assert 0 < n - 1 < n && dist[w[n - 1]] <= Cost(fin, w);
    } else {
      FirstExit(start, orig, rank, dist, w');
      var k :| 0 < k < |w'| && w'[k] in Passable(orig) && w'[k] !in rank && w'[k] in dist &&
               dist[w'[k]] <= Cost(fin, w');
      assert w[k] == w'[k];
    }
  }

  /** Adding a node to the end of the trace numbers it `|trace|`. */
  lemma VisitVisits(start: Pos, orig: map<Pos, Node>, trace: seq<Pos>, rank: map<Pos, nat>, u: Pos)
    requires Visits(start, orig, trace, rank) && u !in rank && u in NonWalls(orig)
    requires u != start ==> u in Passable(orig)
    requires trace == [] ==> u == start
    ensures Visits(start, orig, trace + [u], rank[u := |trace|])
  {
    var trace', rank' := trace + [u], rank[u := |trace|];
    forall i | 0 <= i < |trace'| ensures trace'[i] in rank' && rank'[trace'[i]] == i {
      if i < |trace| {
        assert trace'[i] == trace[i] && trace[i] in rank && trace[i] != u;
      }
    }
    forall p | p in rank' ensures rank'[p] < |trace'| && trace'[rank'[p]] == p {
      if p != u {
        assert trace'[rank[p]] == trace[rank[p]];
      }
    }
  }

  /** The new node's link points at a node visited earlier. */
  lemma VisitTree(start: Pos, orig: map<Pos, Node>, trace: seq<Pos>, rank: map<Pos, nat>,
                  parent: map<Pos, Pos>, dist: map<Pos, nat>, u: Pos)
    requires Tree(start, orig, rank, parent, dist) && Numbered(trace, rank) && u !in rank && u in dist
    ensures Tree(start, orig, rank[u := |trace|], parent, dist)
  {
    var rank' := rank[u := |trace|];
    forall p | p in parent ensures parent[p] in rank' && (p in rank' ==> rank'[parent[p]] < rank'[p]) {
      assert parent[p] in rank && parent[p] != u;
    }
  }

  /** The new node is no nearer than the visited ones and no farther than the unvisited ones. */
  lemma VisitMonotone(orig: map<Pos, Node>, trace: seq<Pos>, rank: map<Pos, nat>, dist: map<Pos, nat>, u: Pos)
    requires Monotone(orig, trace, rank, dist) && Numbered(trace, rank) && (forall p :: p in rank ==> p in dist)
    requires u !in rank && u in NonWalls(orig) && u in dist
    requires forall x :: x in NonWalls(orig) && x !in rank && x in dist ==> dist[u] <= dist[x]
    ensures Monotone(orig, trace + [u], rank[u := |trace|], dist)
  {
    var trace' := trace + [u];
    forall i, j | 0 <= i < j < |trace'| && trace'[i] in dist && trace'[j] in dist
      ensures dist[trace'[i]] <= dist[trace'[j]]
    {
      assert trace'[i] == trace[i] && trace[i] in rank;
      if j < |trace| {
        assert trace'[j] == trace[j];
      }
    }
  }

  /** The new node's distance is the least cost of a walk to it. */
  lemma VisitOptimal(start: Pos, orig: map<Pos, Node>, rank: map<Pos, nat>, dist: map<Pos, nat>, u: Pos, n: nat)
    requires Optimal(start, orig, rank, dist) && Expanded(orig, rank, dist, {})
    requires forall p :: p in rank ==> p in dist
    requires start in rank || (u == start && u in dist && dist[u] == 0)
    requires u !in rank && u in dist
    requires forall x :: x in NonWalls(orig) && x !in rank && x in dist ==> dist[u] <= dist[x]
    ensures Optimal(start, orig, rank[u := n], dist)
  {
    var fin := WeightsOf(orig);
    forall w | IsPathIn(Passable(orig), w) && w[0] == start && w[|w| - 1] == u ensures dist[u] <= Cost(fin, w) {
      if start in rank {
        FirstExit(start, orig, rank, dist, w);
      }
    }
    assert NoCheaper(Passable(orig), fin, start, u, dist[u]);
  }

  /** What the invariant says about the head of the sorted list when it is no Wall and at a finite distance. */
  lemma HeadFacts(start: Pos, orig: map<Pos, Node>, trace: seq<Pos>, rank: map<Pos, nat>,
                  parent: map<Pos, Pos>, dist: map<Pos, nat>, list: seq<Pos>)
    requires Inv(start, orig, trace, rank, parent, dist) && Covers(orig, rank, multiset(list))
    requires list != [] && list[0] in NonWalls(orig) && list[0] in dist
    requires forall x :: x in list ==> AtMost(DistOf(dist, list[0]), DistOf(dist, x))
    ensures list[0] !in rank
    ensures forall x :: x in NonWalls(orig) && x !in rank && x in dist ==> dist[list[0]] <= dist[x]
    ensures list[0] != start ==> list[0] in Passable(orig)
    ensures trace == [] ==> list[0] == start
    ensures start in rank || (list[0] == start && dist[list[0]] == 0)
  {
    var u := list[0];
    assert u in multiset(list);
    assert forall x :: x in NonWalls(orig) && x !in rank ==> x in multiset(list) && x in list;
    assert u != start ==> u in parent && parent[u] in rank;
    if trace != [] {
      assert trace[0] == start && start in rank;
    }
  }

  /** The visited node's relaxations are still to come; every other visited node's are kept. */
  lemma VisitTop(orig: map<Pos, Node>, trace: seq<Pos>, rank: map<Pos, nat>, dist: map<Pos, nat>, u: Pos, n: nat)
    requires Expanded(orig, rank, dist, {}) && Monotone(orig, trace, rank, dist)
    requires u !in rank && u in NonWalls(orig) && u in dist
    ensures forall v :: v in rank[u := n] && v in dist ==> dist[v] <= dist[u]
    ensures Expanded(orig, rank[u := n], dist, {u})
  {
  }

  /** The parts of a stage with nothing relaxed yet. */
  lemma MakeStage(start: Pos, orig: map<Pos, Node>, trace: seq<Pos>, rank: map<Pos, nat>,
                  parent: map<Pos, Pos>, dist: map<Pos, nat>, u: Pos)
    requires Visits(start, orig, trace, rank) && Tree(start, orig, rank, parent, dist)
    requires Monotone(orig, trace, rank, dist) && Optimal(start, orig, rank, dist)
    requires u in rank && u in dist && forall v :: v in rank && v in dist ==> dist[v] <= dist[u]
    requires Expanded(orig, rank, dist, {u})
    ensures Stage(start, orig, trace, rank, parent, dist, u, [])
  {
  }

  /** The head of the sorted list, no Wall and at a finite distance, is visited and appended (lines 26-27). */
  lemma VisitStep(start: Pos, orig: map<Pos, Node>, trace: seq<Pos>, rank: map<Pos, nat>,
                  parent: map<Pos, Pos>, dist: map<Pos, nat>, list: seq<Pos>)
    requires Inv(start, orig, trace, rank, parent, dist) && Covers(orig, rank, multiset(list))
    requires Expanded(orig, rank, dist, {})
    requires list != [] && list[0] in NonWalls(orig) && list[0] in dist
    requires forall x :: x in list ==> AtMost(DistOf(dist, list[0]), DistOf(dist, x))
    ensures Stage(start, orig, trace + [list[0]], rank[list[0] := |trace|], parent, dist, list[0], [])
  {
    var u := list[0];
    HeadFacts(start, orig, trace, rank, parent, dist, list);
    VisitVisits(start, orig, trace, rank, u);
    VisitTree(start, orig, trace, rank, parent, dist, u);
    VisitMonotone(orig, trace, rank, dist, u);
    VisitOptimal(start, orig, rank, dist, u, |trace|);
    VisitTop(orig, trace, rank, dist, u, |trace|);
    MakeStage(start, orig, trace + [u], rank[u := |trace|], parent, dist, u);
  }

  /** At the start of the run: nothing visited, only the start at distance 0, every node in the list. */
  lemma InitInv(start: Pos, orig: map<Pos, Node>, nodes: seq<Pos>)
    requires start in orig
    requires forall p :: p in nodes <==> p in orig
    requires forall p :: multiset(nodes)[p] <= 1
    ensures Inv(start, orig, [], map[], map[], map[start := 0])
    ensures Covers(orig, map[], multiset(nodes))
    ensures Expanded(orig, map[], map[start := 0], {})
  {
  }
  /** Line 9: `startNode.distance = 0` on an unsearched grid, whose snapshot is `orig`. */
  method SetStart(grid: array2<Node>, start: Pos, ghost orig: map<Pos, Node>)
    requires Unsearched(grid) && InBounds(grid, start)
    requires forall p :: p in orig <==> InBounds(grid, p)
    requires forall p :: InBounds(grid, p) ==> orig[p] == At(grid, p)
    modifies grid
    ensures ShowsDist(grid, orig, map[], map[], map[start := 0])
  {
    assert forall p :: p in orig ==> !orig[p].isVisited && orig[p].previousNode == None && orig[p].distance == Inf;
    grid[start.row, start.col] := grid[start.row, start.col].(distance := Fin(0));
  }

  /** The nodes left in the list are nodes of the grid. */
  lemma CoversInBounds(grid: array2<Node>, orig: map<Pos, Node>, rank: map<Pos, nat>, parent: map<Pos, Pos>,
                       dist: map<Pos, nat>, list: seq<Pos>)
    requires ShowsDist(grid, orig, rank, parent, dist) && Covers(orig, rank, multiset(list))
    ensures forall q :: q in list ==> InBounds(grid, q)
  {
    assert forall q :: q in list ==> q in multiset(list);
  }

  // ---------------------------------------------------------------------------
  // What the run reports

  /** Some walk through `open` from `from` to `to` costs `c`, and none costs less. */
  ghost predicate LeastCost(open: set<Pos>, fin: map<Pos, nat>, from: Pos, to: Pos, c: nat) {
    (exists w :: IsPathIn(open, w) && w[0] == from && w[|w| - 1] == to && Cost(fin, w) == c) &&
    NoCheaper(open, fin, from, to, c)
  }

  /** `p` is marked visited, is no Wall, and its distance is the least cost of a walk to it from `start`. */
  ghost predicate Settled(grid: array2<Node>, start: Pos, p: Pos)
    reads grid
  {
    InBounds(grid, p) && At(grid, p).isVisited && At(grid, p).nodeType != Some(WALL) && At(grid, p).distance.Fin? &&
    LeastCost(Open(grid, WeightedUnwalled), Weights(grid), start, p, At(grid, p).distance.n)
  }

  /** The visited nodes in order: from the start, none twice, each settled, their distances never decreasing. */
  ghost predicate SettledTrace(grid: array2<Node>, start: Pos, trace: seq<Pos>)
    reads grid
  {
    Distinct(trace) && (trace != [] ==> trace[0] == start) &&
    (forall i :: 0 <= i < |trace| ==> InBounds(grid, trace[i])) &&
    (forall p :: p in trace ==> Settled(grid, start, p)) &&
    forall i, j :: 0 <= i < j < |trace| ==> AtMost(At(grid, trace[i]).distance, At(grid, trace[j]).distance)
  }

  /** `path` is a simple walk from `start` to `finish` costing `total`, and no walk between them costs less. */
  ghost predicate CheapestWalk(grid: array2<Node>, start: Pos, finish: Pos, path: seq<Pos>, total: nat)
    reads grid
  {
    SimpleWalk(grid, WeightedUnwalled, start, finish, path) && total == Cost(Weights(grid), path) &&
    NoCheaper(Open(grid, WeightedUnwalled), Weights(grid), start, finish, total)
  }

  /** The report of a run that visited the finish: the trace ends there and the path is a cheapest one, read off the links. */
  ghost predicate Found(grid: array2<Node>, start: Pos, finish: Pos, r: DijkstraResult)
    reads grid
  {
    EndsAt(r.visitedNodesInOrder, finish) && InBounds(grid, finish) &&
    r.shortestPath.Some? && r.shortestPathLength == |r.shortestPath.value| - 1 &&
    CheapestWalk(grid, start, finish, r.shortestPath.value, r.totalDistance) &&
    FollowsLinks(grid, r.shortestPath.value) && At(grid, finish).distance == Fin(r.totalDistance)
  }

  /**
   * What `dijkstra` returns. `None` (the `undefined` of a loop that runs out
   * of nodes) only when the finish is a Wall. Otherwise the trace holds the
   * settled nodes in order of distance, and is empty exactly when the start
   * is a Wall; it either ends at the finish with a cheapest path, or the run
   * stopped at an unreachable node with no path, having visited exactly the
   * nodes reachable from the start.
   */
  ghost predicate Outcome(grid: array2<Node>, start: Pos, finish: Pos, res: Option<DijkstraResult>)
    reads grid
    requires InBounds(grid, start) && InBounds(grid, finish)
  {
    match res
    case None => At(grid, finish).nodeType == Some(WALL)
    case Some(r) =>
      r.numNodesVisited == |r.visitedNodesInOrder| - 1 &&
      SettledTrace(grid, start, r.visitedNodesInOrder) &&
      (r.visitedNodesInOrder == [] <==> At(grid, start).nodeType == Some(WALL)) &&
      if finish in r.visitedNodesInOrder then Found(grid, start, finish, r)
      else
        r.shortestPath == None && r.shortestPathLength == 0 && r.totalDistance == 0 &&
        (r.visitedNodesInOrder != [] ==>
          forall p :: p in r.visitedNodesInOrder <==> Reachable(grid, WeightedUnwalled, start, p))
  }

  /** Marks, links and distances leave the terrain as it was. */
  lemma TerrainNow(grid: array2<Node>, orig: map<Pos, Node>, rank: map<Pos, nat>, parent: map<Pos, Pos>, dist: map<Pos, nat>)
    requires ShowsDist(grid, orig, rank, parent, dist)
    ensures Open(grid, WeightedUnwalled) == Passable(orig)
    ensures Weights(grid) == WeightsOf(orig)
    ensures forall p :: InBounds(grid, p) ==> SameTerrain(At(grid, p), orig[p])
  {
    forall p ensures p in Open(grid, WeightedUnwalled) <==> p in Passable(orig) {
      if InBounds(grid, p) {
        assert At(grid, p).weight == orig[p].weight && At(grid, p).nodeType == orig[p].nodeType;
      }
    }
    forall p | p in Weights(grid) ensures Weights(grid)[p] == WeightsOf(orig)[p] {
      assert At(grid, p).weight == orig[p].weight;
    }
  }

  /** The type and distance of one node, read through the ghost picture. */
  lemma ReadNode(grid: array2<Node>, orig: map<Pos, Node>, rank: map<Pos, nat>, parent: map<Pos, Pos>,
                 dist: map<Pos, nat>, p: Pos)
    requires ShowsDist(grid, orig, rank, parent, dist) && InBounds(grid, p)
    ensures At(grid, p).nodeType == Some(WALL) <==> p !in NonWalls(orig)
    ensures At(grid, p).distance == Inf <==> p !in dist
  {
  }

  /** The grid shows the marks and links of the run over its own snapshot. */
  lemma ShowsNow(grid: array2<Node>, orig: map<Pos, Node>, rank: map<Pos, nat>, parent: map<Pos, Pos>, dist: map<Pos, nat>)
    requires ShowsDist(grid, orig, rank, parent, dist)
    ensures Shows(grid, Snapshot(grid), rank, parent)
  {
  }

  /** With the start visited, the links form the tree the path reconstruction follows. */
  lemma TreeLinked(start: Pos, orig: map<Pos, Node>, rank: map<Pos, nat>, parent: map<Pos, Pos>, dist: map<Pos, nat>)
    requires Tree(start, orig, rank, parent, dist) && start in rank
    ensures Linked(parent, start, rank)
  {
  }

  /** Following the links back from a visited node gives a walk costing exactly its distance. */
  lemma {:induction false} ChainWalk(start: Pos, orig: map<Pos, Node>, trace: seq<Pos>, rank: map<Pos, nat>,
                                     parent: map<Pos, Pos>, dist: map<Pos, nat>, p: Pos)
    requires Visits(start, orig, trace, rank) && Tree(start, orig, rank, parent, dist)
    requires start in rank && p in rank
    ensures exists w :: IsPathIn(Passable(orig), w) && w[0] == start && w[|w| - 1] == p && Cost(WeightsOf(orig), w) == dist[p]
    decreases rank[p]
  {
    if p == start {
      assert IsPathIn(Passable(orig), [start]) && Cost(WeightsOf(orig), [start]) == 0;
    } else {
      var q := parent[p];
      ChainWalk(start, orig, trace, rank, parent, dist, q);
      var w :| IsPathIn(Passable(orig), w) && w[0] == start && w[|w| - 1] == q && Cost(WeightsOf(orig), w) == dist[q];
      var w' := w + [p];
      assert w'[..|w'| - 1] == w;
      assert IsPathIn(Passable(orig), w') && w'[0] == start && w'[|w'| - 1] == p;
      assert Cost(WeightsOf(orig), w') == dist[p];
    }
  }

  /** The walk the links spell out to `path[k]` costs its distance. */
  lemma {:induction false} ChainCost(start: Pos, orig: map<Pos, Node>, rank: map<Pos, nat>, parent: map<Pos, Pos>,
                                     dist: map<Pos, nat>, path: seq<Pos>, k: nat)
    requires Tree(start, orig, rank, parent, dist) && path != [] && path[0] == start
    requires forall i :: 0 <= i < |path| - 1 ==> Lookup(parent, path[i + 1]) == Some(path[i])
    requires k < |path|
    ensures path[k] in dist && Cost(WeightsOf(orig), path[..k + 1]) == dist[path[k]]
    decreases k
  {
    if k == 0 {
      assert path[..1] == [start];
    } else {
      ChainCost(start, orig, rank, parent, dist, path, k - 1);
      assert path[..k + 1][..k] == path[..k];
      assert Lookup(parent, path[k]) == Some(path[k - 1]);
      assert path[k] in parent && parent[path[k]] == path[k - 1];
    }
  }

  /** A visited node, with the start visited, is settled. */
  lemma SettledNode(grid: array2<Node>, start: Pos, orig: map<Pos, Node>, trace: seq<Pos>, rank: map<Pos, nat>,
                    parent: map<Pos, Pos>, dist: map<Pos, nat>, p: Pos)
    requires ShowsDist(grid, orig, rank, parent, dist) && Inv(start, orig, trace, rank, parent, dist)
    requires start in rank && p in rank
    ensures Settled(grid, start, p)
  {
    ChainWalk(start, orig, trace, rank, parent, dist, p);
    TerrainNow(grid, orig, rank, parent, dist);
    assert NoCheaper(Passable(orig), WeightsOf(orig), start, p, dist[p]);
    assert LeastCost(Passable(orig), WeightsOf(orig), start, p, dist[p]);
  }

  /** The trace of the invariant, read off the grid, is a settled trace. */
  lemma TraceSettled(grid: array2<Node>, start: Pos, orig: map<Pos, Node>, trace: seq<Pos>, rank: map<Pos, nat>,
                     parent: map<Pos, Pos>, dist: map<Pos, nat>)
    requires ShowsDist(grid, orig, rank, parent, dist) && Inv(start, orig, trace, rank, parent, dist)
    ensures SettledTrace(grid, start, trace)
  {
    NumberedDistinct(trace, rank);
    forall p | p in trace ensures Settled(grid, start, p) {
      assert trace[0] == start && start in rank;
      SettledNode(grid, start, orig, trace, rank, parent, dist, p);
    }
    forall i, j | 0 <= i < j < |trace| ensures AtMost(At(grid, trace[i]).distance, At(grid, trace[j]).distance) {
      assert trace[i] in rank && trace[j] in rank;
    }
  }

  /** A walk from a visited node through passable cells whose unvisited non-Wall cells are all at Infinity stays visited. */
  lemma {:induction false} Confined(orig: map<Pos, Node>, rank: map<Pos, nat>, dist: map<Pos, nat>, w: seq<Pos>)
    requires Expanded(orig, rank, dist, {}) && (forall p :: p in rank ==> p in dist)
    requires forall x :: x in NonWalls(orig) && x !in rank ==> x !in dist
    requires IsPathIn(Passable(orig), w) && w[0] in rank
    ensures w[|w| - 1] in rank
    decreases |w|
  {
    if |w| > 1 {
      var w' := w[..|w| - 1];
      assert IsPathIn(Passable(orig), w');
      Confined(orig, rank, dist, w');
      assert w'[|w'| - 1] == w[|w| - 2];
      assert w[|w| - 1] in Passable(orig) && Adjacent(w[|w| - 2], w[|w| - 1]);
    }
  }

  /**
   * An Infinity head that is no Wall (line 16): every unvisited non-Wall
   * node is at Infinity, so the visited nodes are exactly the ones a walk
   * from the start reaches, or none when the start is a Wall.
   */
  lemma Unreached(start: Pos, orig: map<Pos, Node>, trace: seq<Pos>, rank: map<Pos, nat>,
                  parent: map<Pos, Pos>, dist: map<Pos, nat>, list: seq<Pos>)
    requires Inv(start, orig, trace, rank, parent, dist) && Covers(orig, rank, multiset(list))
    requires Expanded(orig, rank, dist, {})
    requires list != [] && list[0] in NonWalls(orig) && list[0] !in dist
    requires forall x :: x in list ==> AtMost(DistOf(dist, list[0]), DistOf(dist, x))
    ensures trace == [] <==> start !in NonWalls(orig)
    ensures trace != [] ==> forall p :: p in rank <==> ReachesIn(Passable(orig), start, p)
  {
    assert DistOf(dist, list[0]) == Inf;
    assert forall x :: x in NonWalls(orig) && x !in rank ==> x in multiset(list) && x in list;
    assert forall x :: x in NonWalls(orig) && x !in rank ==> x !in dist;
    if trace != [] {
      assert trace[0] == start && start in rank;
      TreeLinked(start, orig, rank, parent, dist);
      forall p ensures p in rank <==> ReachesIn(Passable(orig), start, p) {
        if p in rank {
          LinkedReaches(parent, start, rank, Passable(orig), p);
        }
        if ReachesIn(Passable(orig), start, p) {
          var w :| IsPathIn(Passable(orig), w) && w[0] == start && w[|w| - 1] == p;
          Confined(orig, rank, dist, w);
        }
      }
    } else {
      assert start in dist && rank == map[];
    }
  }

  /** Lines 16-25: the search gives up at an unreachable head, with no path. */
  method ReportUnreached(grid: array2<Node>, visitedNodesInOrder: seq<Pos>, ghost start: Pos, ghost finish: Pos,
                         ghost orig: map<Pos, Node>, ghost rank: map<Pos, nat>, ghost parent: map<Pos, Pos>,
                         ghost dist: map<Pos, nat>, ghost list: seq<Pos>)
    returns (r: DijkstraResult)
    requires ShowsDist(grid, orig, rank, parent, dist) && Inv(start, orig, visitedNodesInOrder, rank, parent, dist)
    requires Covers(orig, rank, multiset(list)) && Expanded(orig, rank, dist, {})
    requires list != [] && list[0] in NonWalls(orig) && list[0] !in dist
    requires forall x :: x in list ==> AtMost(DistOf(dist, list[0]), DistOf(dist, x))
    requires InBounds(grid, start) && InBounds(grid, finish) && finish !in rank
    ensures r == DijkstraResult(visitedNodesInOrder, |visitedNodesInOrder| - 1, None, 0, 0)
    ensures Outcome(grid, start, finish, Some(r))
  {
    Unreached(start, orig, visitedNodesInOrder, rank, parent, dist, list);
    TraceSettled(grid, start, orig, visitedNodesInOrder, rank, parent, dist);
    TerrainNow(grid, orig, rank, parent, dist);
    assert forall p :: p in visitedNodesInOrder <==> p in rank;
    r := DijkstraResult(visitedNodesInOrder, |visitedNodesInOrder| - 1, None, 0, 0);
  }

  /** The back chain of the finish is a cheapest walk to it. */
  lemma FoundWalk(grid: array2<Node>, start: Pos, finish: Pos, orig: map<Pos, Node>, trace: seq<Pos>,
                  rank: map<Pos, nat>, parent: map<Pos, Pos>, dist: map<Pos, nat>, path: seq<Pos>)
    requires ShowsDist(grid, orig, rank, parent, dist)
    requires Visits(start, orig, trace, rank) && Tree(start, orig, rank, parent, dist)
    requires finish in dist && NoCheaper(Passable(orig), WeightsOf(orig), start, finish, dist[finish])
    requires IsBackChain(grid, start, rank, path) && path[|path| - 1] == finish
    requires forall i :: 0 <= i < |path| - 1 ==> Lookup(parent, path[i + 1]) == Some(path[i])
    ensures CheapestWalk(grid, start, finish, path, dist[finish]) && FollowsLinks(grid, path)
  {
    TerrainNow(grid, orig, rank, parent, dist);
    BackChainIsPath(grid, start, rank, path, Passable(orig));
    ChainCost(start, orig, rank, parent, dist, path, |path| - 1);
    TakeAll(path);
  }

  /** Lines 28-40: the finish is visited; its back chain is the path and its distance the total. */
  method ReportFound(grid: array2<Node>, visitedNodesInOrder: seq<Pos>, ghost start: Pos, finish: Pos,
                     ghost orig: map<Pos, Node>, ghost rank: map<Pos, nat>, ghost parent: map<Pos, Pos>,
                     ghost dist: map<Pos, nat>)
    returns (r: DijkstraResult)
    requires ShowsDist(grid, orig, rank, parent, dist) && Inv(start, orig, visitedNodesInOrder, rank, parent, dist)
    requires InBounds(grid, start) && InBounds(grid, finish) && EndsAt(visitedNodesInOrder, finish)
    ensures r.visitedNodesInOrder == visitedNodesInOrder
    ensures Outcome(grid, start, finish, Some(r))
  {
    assert visitedNodesInOrder[|visitedNodesInOrder| - 1] == finish && finish in rank;
    assert visitedNodesInOrder[0] == start && start in rank;
    TreeLinked(start, orig, rank, parent, dist);
    ShowsNow(grid, orig, rank, parent, dist);
    ShowsLinked(grid, Snapshot(grid), Cells(grid), start, rank, parent);
    var shortestPath := GetNodesInShortestPathOrder(grid, finish, start, rank);
    ChainFollowsParents(grid, Snapshot(grid), start, rank, parent, shortestPath);
    assert NoCheaper(Passable(orig), WeightsOf(orig), start, finish, dist[finish]);
    FoundWalk(grid, start, finish, orig, visitedNodesInOrder, rank, parent, dist, shortestPath);
    TraceSettled(grid, start, orig, visitedNodesInOrder, rank, parent, dist);
    var totalDistance := grid[finish.row, finish.col].distance.n;
    r := DijkstraResult(visitedNodesInOrder, |visitedNodesInOrder| - 1, Some(shortestPath), |shortestPath| - 1, totalDistance);
  }

  /** Lines 13-14: sort the list by distance and take its head. */
  method Closest(grid: array2<Node>, unvisitedNodes: seq<Pos>, ghost orig: map<Pos, Node>, ghost rank: map<Pos, nat>,
                 ghost parent: map<Pos, Pos>, ghost dist: map<Pos, nat>)
    returns (closestNode: Pos, rest: seq<Pos>, sorted: seq<Pos>)
    requires ShowsDist(grid, orig, rank, parent, dist) && Covers(orig, rank, multiset(unvisitedNodes))
    requires unvisitedNodes != []
    ensures forall q :: q in unvisitedNodes ==> InBounds(grid, q)
    ensures sorted == SortByDistance(grid, unvisitedNodes)
    ensures sorted != [] && closestNode == sorted[0] && rest == sorted[1..] && InBounds(grid, closestNode)
    ensures Covers(orig, rank, multiset(sorted))
    ensures forall x :: x in sorted ==> AtMost(DistOf(dist, closestNode), DistOf(dist, x))
  {
    CoversInBounds(grid, orig, rank, parent, dist, unvisitedNodes);
    sorted := SortByDistance(grid, unvisitedNodes);
    assert |sorted| == |multiset(sorted)| == |unvisitedNodes|;
    assert sorted[0] in multiset(sorted);
    SortedHead(grid, orig, rank, parent, dist, sorted);
    closestNode := sorted[0];
    rest := sorted[1..];
  }

  /** Lines 26-27: the head is marked visited and joins the trace. */
  method Visit(grid: array2<Node>, node: Pos, ghost start: Pos, ghost orig: map<Pos, Node>, ghost trace: seq<Pos>,
               ghost rank: map<Pos, nat>, ghost parent: map<Pos, Pos>, ghost dist: map<Pos, nat>, ghost list: seq<Pos>)
    returns (ghost rank': map<Pos, nat>)
    requires ShowsDist(grid, orig, rank, parent, dist) && InBounds(grid, node)
    requires Inv(start, orig, trace, rank, parent, dist) && Covers(orig, rank, multiset(list))
    requires Expanded(orig, rank, dist, {})
    requires list != [] && node == list[0] && node in NonWalls(orig) && node in dist
    requires forall x :: x in list ==> AtMost(DistOf(dist, node), DistOf(dist, x))
    modifies grid
    ensures rank' == rank[node := |trace|]
    ensures ShowsDist(grid, orig, rank', parent, dist)
    ensures Stage(start, orig, trace + [node], rank', parent, dist, node, [])
    ensures Covers(orig, rank', multiset(list[1..]))
  {
    Mark(grid, node, orig, rank, parent, dist, |trace|);
    ShiftVisited(orig, rank, list, |trace|);
    VisitStep(start, orig, trace, rank, parent, dist, list);
    rank' := rank[node := |trace|];
  }

  /** Line 26: `closestNode.isVisited = true`. */
  method Mark(grid: array2<Node>, node: Pos, ghost orig: map<Pos, Node>, ghost rank: map<Pos, nat>,
              ghost parent: map<Pos, Pos>, ghost dist: map<Pos, nat>, ghost n: nat)
    requires ShowsDist(grid, orig, rank, parent, dist) && InBounds(grid, node)
    modifies grid
    ensures ShowsDist(grid, orig, rank[node := n], parent, dist)
  {
    grid[node.row, node.col] := grid[node.row, node.col].(isVisited := true);
  }

  /** When the list runs out the finish was never visited, which only a Wall finish allows. */
  lemma Exhausted(grid: array2<Node>, start: Pos, finish: Pos, orig: map<Pos, Node>, rank: map<Pos, nat>,
                  parent: map<Pos, Pos>, dist: map<Pos, nat>)
    requires ShowsDist(grid, orig, rank, parent, dist) && InBounds(grid, start) && InBounds(grid, finish)
    requires Covers(orig, rank, multiset([])) && finish !in rank
    ensures Outcome(grid, start, finish, None)
  {
  }

  /** `dijkstra(grid, startNode, finishNode)`: see `Outcome`; only the search fields of the nodes change. */
  method Dijkstra(grid: array2<Node>, start: Pos, finish: Pos) returns (res: Option<DijkstraResult>)
    requires InBounds(grid, start) && InBounds(grid, finish)
    requires Unsearched(grid)
    modifies grid
    ensures Outcome(grid, start, finish, res)
    ensures forall p :: InBounds(grid, p) ==> SameTerrain(At(grid, p), old(At(grid, p)))
  {
    ghost var orig := Snapshot(grid);
    var visitedNodesInOrder: seq<Pos> := [];
    SetStart(grid, start, orig);
    ghost var rank: map<Pos, nat> := map[];
    ghost var parent: map<Pos, Pos> := map[];
    ghost var dist: map<Pos, nat> := map[start := 0];
    var unvisitedNodes := GetAllNodes(grid);
    RowMajorOnce(unvisitedNodes);
    InitInv(start, orig, unvisitedNodes);

    while |unvisitedNodes| > 0
      invariant ShowsDist(grid, orig, rank, parent, dist)
      invariant Inv(start, orig, visitedNodesInOrder, rank, parent, dist)
      invariant Covers(orig, rank, multiset(unvisitedNodes))
      invariant Expanded(orig, rank, dist, {})
      invariant finish !in rank
      decreases |unvisitedNodes|
    {
      var closestNode, rest, list := Closest(grid, unvisitedNodes, orig, rank, parent, dist);
      unvisitedNodes := rest;
      ReadNode(grid, orig, rank, parent, dist, closestNode);
      if grid[closestNode.row, closestNode.col].nodeType == Some(WALL) {
        ShiftWall(orig, rank, list);
        continue;
      }
      if grid[closestNode.row, closestNode.col].distance == Inf {
        var r := ReportUnreached(grid, visitedNodesInOrder, start, finish, orig, rank, parent, dist, list);
        TerrainNow(grid, orig, rank, parent, dist);
        return Some(r);
      }
      rank := Visit(grid, closestNode, start, orig, visitedNodesInOrder, rank, parent, dist, list);
      visitedNodesInOrder := visitedNodesInOrder + [closestNode];
      if closestNode == finish {
        var r := ReportFound(grid, visitedNodesInOrder, start, finish, orig, rank, parent, dist);
        TerrainNow(grid, orig, rank, parent, dist);
        return Some(r);
      }
      parent, dist := UpdateUnvisitedNeighbors(grid, closestNode, start, orig, visitedNodesInOrder, rank, parent, dist);
    }

    Exhausted(grid, start, finish, orig, rank, parent, dist);
    TerrainNow(grid, orig, rank, parent, dist);
    return None;
  }
}
