/**
 * The grid model shared by every search: node records, the extended
 * weights with Infinity, neighbour queries, walks over passable cells, the
 * back-link structure left in `previousNode`, and the path reconstruction
 * that the five search files each carry a copy of.
 */
module Grids {

  datatype Option<T> = None | Some(value: T)

  /** A weight or distance: a JavaScript number that is a natural or Infinity. */
  datatype Ext = Fin(n: nat) | Inf

  /** JavaScript `+` on these numbers: anything plus Infinity is Infinity. */
  function Add(a: Ext, b: Ext): (r: Ext)
    ensures r.Fin? <==> a.Fin? && b.Fin?
    ensures r.Fin? ==> r.n == a.n + b.n
  {
    if a.Fin? && b.Fin? then Fin(a.n + b.n) else Inf
  }

  /** JavaScript `<` on these numbers; `Infinity < Infinity` is false. */
  predicate Less(a: Ext, b: Ext) {
    a.Fin? && (b.Inf? || a.n < b.n)
  }

  /** `a <= b`, with Infinity the largest value. */
  predicate AtMost(a: Ext, b: Ext) {
    b.Inf? || (a.Fin? && a.n <= b.n)
  }

  datatype Pos = Pos(row: nat, col: nat)

  /** The record `createNode` builds, with the scratch fields the searches add. */
  datatype Node = Node(
    row: nat,
    col: nat,
    isStart: bool,
    isFinish: bool,
    distance: Ext,
    nodeType: Option<string>,
    weight: Ext,
    isVisited: bool,
    previousNode: Option<Pos>,
    g: Option<nat>,
    h: Option<nat>,
    f: Option<nat>)

  const WALL: string := "Wall"

  predicate InBounds(grid: array2<Node>, p: Pos) {
    p.row < grid.Length0 && p.col < grid.Length1
  }

  function At(grid: array2<Node>, p: Pos): Node
    reads grid
    requires InBounds(grid, p)
  {
    grid[p.row, p.col]
  }

  /** Grid-adjacent in the 4-connected sense (no diagonals). */
  predicate Adjacent(p: Pos, q: Pos) {
    (p.row == q.row && (p.col + 1 == q.col || q.col + 1 == p.col)) ||
    (p.col == q.col && (p.row + 1 == q.row || q.row + 1 == p.row))
  }

  /** `s` is nonempty and ends with `p`. */
  predicate EndsAt(s: seq<Pos>, p: Pos) {
    |s| > 0 && s[|s| - 1] == p
  }

  predicate Distinct<T(==)>(s: seq<T>) {
    forall i, j :: 0 <= i < j < |s| ==> s[i] != s[j]
  }

  /** Every node has cleared scratch fields, as `createNode` and `resetAllNodes` leave it. */
  ghost predicate Unsearched(grid: array2<Node>)
    reads grid
  {
    forall r, c :: 0 <= r < grid.Length0 && 0 <= c < grid.Length1 ==>
      !grid[r, c].isVisited && grid[r, c].previousNode == None && grid[r, c].distance == Inf
  }

  /** The two nodes differ at most in the search scratch fields. */
  predicate SameTerrain(a: Node, b: Node) {
    a.(isVisited := b.isVisited, previousNode := b.previousNode, distance := b.distance,
       g := b.g, h := b.h, f := b.f) == b
  }

  // ---------------------------------------------------------------------------
  // Neighbour queries

  datatype Dir = Up | Down | Left | Right

  /** The order of bfs.js, dijkstra.js, astar.js and gbfs.js. */
  const UP_DOWN_LEFT_RIGHT: seq<Dir> := [Up, Down, Left, Right]
  /** The order of dfs.js. */
  const DOWN_RIGHT_UP_LEFT: seq<Dir> := [Down, Right, Up, Left]

  /** The bounds test each search makes before pushing a neighbour. */
  predicate CanStep(grid: array2<Node>, p: Pos, d: Dir) {
    match d
    case Up => p.row > 0
    case Down => p.row < grid.Length0 - 1
    case Left => p.col > 0
    case Right => p.col < grid.Length1 - 1
  }

  function Step(p: Pos, d: Dir): Pos
    requires d == Up ==> p.row > 0
    requires d == Left ==> p.col > 0
  {
    match d
    case Up => Pos(p.row - 1, p.col)
    case Down => Pos(p.row + 1, p.col)
    case Left => Pos(p.row, p.col - 1)
    case Right => Pos(p.row, p.col + 1)
  }

  /** The direction in which `q` lies from `p`, for adjacent cells. */
  function DirOf(p: Pos, q: Pos): Dir {
    if q.row < p.row then Up
    else if q.row > p.row then Down
    else if q.col < p.col then Left
    else Right
  }

  /** Position of `d` in the enumeration order `dirs`. */
  function IndexOf(dirs: seq<Dir>, d: Dir): nat {
    if dirs == [] || dirs[0] == d then 0 else 1 + IndexOf(dirs[1..], d)
  }

  /** Which neighbours a search's filter keeps. Every filter drops visited nodes. */
  datatype Admit =
    | FiniteWeight  // `weight !== Infinity` (bfs.js, astar.js, gbfs.js)
    | NotWall       // `type !== "Wall"` (dfs.js)
    | AnyTerrain    // no terrain test (dijkstra.js)

  predicate Admits(n: Node, admit: Admit) {
    !n.isVisited &&
    match admit
    case FiniteWeight => n.weight != Inf
    case NotWall => n.nodeType != Some(WALL)
    case AnyTerrain => true
  }

  /**
   * The neighbour query: the in-bounds cells around `p` in the order `dirs`,
   * filtered by `admit`.
   */
  function Neighbors(grid: array2<Node>, p: Pos, dirs: seq<Dir>, admit: Admit): (r: seq<Pos>)
    reads grid
    requires InBounds(grid, p)
    ensures |r| <= |dirs| && forall q :: q in r ==> InBounds(grid, q) && Admits(At(grid, q), admit)
    decreases |dirs|
  {
    if dirs == [] then []
    else
      var rest := Neighbors(grid, p, dirs[1..], admit);
      if CanStep(grid, p, dirs[0]) && Admits(At(grid, Step(p, dirs[0])), admit) then [Step(p, dirs[0])] + rest
      else rest
  }

  /** The cell one step in direction `d` is exactly the in-bounds adjacent cell lying in that direction. */
  lemma StepIsAdjacent(grid: array2<Node>, p: Pos, q: Pos, d: Dir)
    requires InBounds(grid, p)
    ensures (CanStep(grid, p, d) && q == Step(p, d)) <==> (InBounds(grid, q) && Adjacent(p, q) && DirOf(p, q) == d)
  {
  }

  /** The query returns the in-bounds neighbours in the listed directions that pass the filter. */
  lemma {:induction false} NeighborsMembers(grid: array2<Node>, p: Pos, dirs: seq<Dir>, admit: Admit)
    requires InBounds(grid, p)
    ensures forall q :: q in Neighbors(grid, p, dirs, admit) <==>
      InBounds(grid, q) && Adjacent(p, q) && DirOf(p, q) in dirs && Admits(At(grid, q), admit)
    decreases |dirs|
  {
    if dirs != [] {
      NeighborsMembers(grid, p, dirs[1..], admit);
      forall q ensures (CanStep(grid, p, dirs[0]) && q == Step(p, dirs[0])) <==>
                       (InBounds(grid, q) && Adjacent(p, q) && DirOf(p, q) == dirs[0]) {
        StepIsAdjacent(grid, p, q, dirs[0]);
      }
      assert forall d :: d in dirs <==> d == dirs[0] || d in dirs[1..];
    }
  }

  /** The cells of `r` lie around `p` in the order in which `dirs` lists their directions. */
  predicate InDirOrder(p: Pos, dirs: seq<Dir>, r: seq<Pos>) {
    forall i, j :: 0 <= i < j < |r| ==> IndexOf(dirs, DirOf(p, r[i])) < IndexOf(dirs, DirOf(p, r[j]))
  }

  /** The query lists the neighbours in the order of their directions in `dirs`. */
  lemma {:induction false} NeighborsOrdered(grid: array2<Node>, p: Pos, dirs: seq<Dir>, admit: Admit)
    requires InBounds(grid, p) && Distinct(dirs)
    ensures InDirOrder(p, dirs, Neighbors(grid, p, dirs, admit))
    decreases |dirs|
  {
    if dirs != [] {
      var rest := Neighbors(grid, p, dirs[1..], admit);
      NeighborsOrdered(grid, p, dirs[1..], admit);
      NeighborsMembers(grid, p, dirs[1..], admit);
      forall k | 0 <= k < |rest| ensures IndexOf(dirs, DirOf(p, rest[k])) == 1 + IndexOf(dirs[1..], DirOf(p, rest[k])) {
        assert rest[k] in rest;
        var m :| 0 <= m < |dirs[1..]| && dirs[1..][m] == DirOf(p, rest[k]);
        assert dirs[m + 1] != dirs[0];
      }
      if CanStep(grid, p, dirs[0]) && Admits(At(grid, Step(p, dirs[0])), admit) {
        var r := [Step(p, dirs[0])] + rest;
        assert DirOf(p, r[0]) == dirs[0];
        assert IndexOf(dirs, dirs[0]) == 0;
        forall i, j | 0 <= i < j < |r| ensures IndexOf(dirs, DirOf(p, r[i])) < IndexOf(dirs, DirOf(p, r[j])) {
          assert r[j] == rest[j - 1];
          if i > 0 {
            assert r[i] == rest[i - 1];
            assert IndexOf(dirs[1..], DirOf(p, rest[i - 1])) < IndexOf(dirs[1..], DirOf(p, rest[j - 1]));
          }
        }
      } else {
        forall i, j | 0 <= i < j < |rest| ensures IndexOf(dirs, DirOf(p, rest[i])) < IndexOf(dirs, DirOf(p, rest[j])) {
          assert IndexOf(dirs[1..], DirOf(p, rest[i])) < IndexOf(dirs[1..], DirOf(p, rest[j]));
        }
      }
    }
  }

  /** A neighbour list has no cell twice, since the directions are distinct. */
  lemma NeighborsDistinct(grid: array2<Node>, p: Pos, dirs: seq<Dir>, admit: Admit)
    requires InBounds(grid, p)
    requires Distinct(dirs)
    ensures Distinct(Neighbors(grid, p, dirs, admit))
  {
    var r := Neighbors(grid, p, dirs, admit);
    NeighborsOrdered(grid, p, dirs, admit);
    forall i, j | 0 <= i < j < |r| ensures r[i] != r[j] {
      assert IndexOf(dirs, DirOf(p, r[i])) < IndexOf(dirs, DirOf(p, r[j]));
    }
  }

  // ---------------------------------------------------------------------------
  // Heuristic

  function Abs(x: int): nat {
    if x < 0 then -x else x
  }

  /** `manhattanDistance` of astar.js and gbfs.js. */
  function ManhattanDistance(a: Pos, b: Pos): (r: nat)
    ensures r == 0 <==> a == b
    ensures r == Abs(b.row - a.row) + Abs(b.col - a.col)
  {
    Abs(a.row - b.row) + Abs(a.col - b.col)
  }

  lemma ManhattanSymmetric(a: Pos, b: Pos)
    ensures ManhattanDistance(a, b) == ManhattanDistance(b, a)
  {
  }

  /** Moving to an adjacent cell changes the heuristic by exactly one. */
  lemma ManhattanAdjacent(p: Pos, q: Pos, goal: Pos)
    requires Adjacent(p, q)
    ensures ManhattanDistance(q, goal) == ManhattanDistance(p, goal) + 1 ||
            ManhattanDistance(q, goal) + 1 == ManhattanDistance(p, goal)
  {
  }

  // ---------------------------------------------------------------------------
  // Walks through passable cells

  /** Which cells a search may step onto. */
  datatype Terrain =
    | Weighted     // weight is not Infinity (bfs.js, astar.js, gbfs.js)
    | Unwalled     // type is not "Wall" (dfs.js)
    | WeightedUnwalled  // neither a Wall nor Infinity weight (dijkstra.js)

  predicate Enterable(n: Node, t: Terrain) {
    match t
    case Weighted => n.weight.Fin?
    case Unwalled => n.nodeType != Some(WALL)
    case WeightedUnwalled => n.weight.Fin? && n.nodeType != Some(WALL)
  }

  /** Every position of the grid. */
  ghost function Cells(grid: array2<Node>): (s: set<Pos>)
    ensures forall p :: p in s <==> InBounds(grid, p)
  {
    assert forall p :: InBounds(grid, p) ==> p == Pos(p.row, p.col);
    set r: nat, c: nat | r < grid.Length0 && c < grid.Length1 :: Pos(r, c)
  }

  /** The grid's nodes by position, as they stand when it is taken. */
  ghost function Snapshot(grid: array2<Node>): (m: map<Pos, Node>)
    reads grid
    ensures forall p :: p in m <==> InBounds(grid, p)
    ensures forall p :: InBounds(grid, p) ==> m[p] == At(grid, p)
  {
    map p | p in Cells(grid) :: At(grid, p)
  }

  /** The positions terrain `t` lets a search step onto. */
  ghost function Open(grid: array2<Node>, t: Terrain): (s: set<Pos>)
    reads grid
    ensures forall p :: p in s <==> InBounds(grid, p) && Enterable(At(grid, p), t)
  {
    assert forall p :: InBounds(grid, p) ==> p == Pos(p.row, p.col);
    set r: nat, c: nat | r < grid.Length0 && c < grid.Length1 && Enterable(grid[r, c], t) :: Pos(r, c)
  }

  /** A 4-connected sequence of cells whose every cell after the first lies in `open`. */
  ghost predicate IsPathIn(open: set<Pos>, w: seq<Pos>) {
    |w| > 0 &&
    (forall i :: 0 <= i < |w| - 1 ==> Adjacent(w[i], w[i + 1])) &&
    (forall i :: 0 < i < |w| ==> w[i] in open)
  }

  ghost predicate ReachesIn(open: set<Pos>, from: Pos, to: Pos) {
    exists w :: IsPathIn(open, w) && w[0] == from && w[|w| - 1] == to
  }

  /** A walk of the grid from an in-bounds cell whose every later cell can be entered. */
  ghost predicate IsWalk(grid: array2<Node>, w: seq<Pos>, t: Terrain)
    reads grid
  {
    |w| > 0 && InBounds(grid, w[0]) && IsPathIn(Open(grid, t), w)
  }

  ghost predicate Reachable(grid: array2<Node>, t: Terrain, from: Pos, to: Pos)
    reads grid
  {
    InBounds(grid, from) && ReachesIn(Open(grid, t), from, to)
  }

  /** Every path through `open` from `from` to `to` has at least `n` cells. */
  ghost predicate NoShorterPath(open: set<Pos>, from: Pos, to: Pos, n: nat) {
    forall w :: IsPathIn(open, w) && w[0] == from && w[|w| - 1] == to ==> n <= |w|
  }

  /** What a walk costs: the weights of its cells after the first (a cell of unknown weight adds nothing). */
  ghost function Cost(fin: map<Pos, nat>, w: seq<Pos>): nat
    decreases |w|
  {
    if |w| <= 1 then 0
    else Cost(fin, w[..|w| - 1]) + (if w[|w| - 1] in fin then fin[w[|w| - 1]] else 0)
  }

  /** The finite weights of the grid. */
  ghost function Weights(grid: array2<Node>): (m: map<Pos, nat>)
    reads grid
    ensures forall p :: p in m <==> InBounds(grid, p) && At(grid, p).weight.Fin?
    ensures forall p :: p in m ==> m[p] == At(grid, p).weight.n
  {
    map p | p in Cells(grid) && At(grid, p).weight.Fin? :: At(grid, p).weight.n
  }

  /** Holds of a set that contains every open neighbour of its members. */
  ghost predicate ClosedUnder(s: set<Pos>, open: set<Pos>) {
    forall p, q :: p in s && q in open && Adjacent(p, q) ==> q in s
  }

  /** The neighbours a search takes up from `cur`: distinct, open, adjacent to it, not yet marked. */
  ghost predicate FreshNeighbors(open: set<Pos>, cur: Pos, level: map<Pos, nat>, nbrs: seq<Pos>) {
    Distinct(nbrs) && forall q :: q in nbrs <==> q in open && Adjacent(cur, q) && q !in level
  }

  /** A set closed under stepping that holds the first cell of a path holds its last. */
  lemma {:induction false} ClosedHoldsPath(s: set<Pos>, open: set<Pos>, w: seq<Pos>)
    requires ClosedUnder(s, open) && IsPathIn(open, w) && w[0] in s
    ensures w[|w| - 1] in s
    decreases |w|
  {
    if |w| > 1 {
      var w' := w[..|w| - 1];
      assert IsPathIn(open, w');
      ClosedHoldsPath(s, open, w');
      assert w'[|w'| - 1] == w[|w| - 2];
    }
  }

  lemma ReachesInClosed(s: set<Pos>, open: set<Pos>, from: Pos, to: Pos)
    requires ClosedUnder(s, open) && from in s
    requires ReachesIn(open, from, to)
    ensures to in s
  {
    var w :| IsPathIn(open, w) && w[0] == from && w[|w| - 1] == to;
    ClosedHoldsPath(s, open, w);
  }

  /** One more step through an open cell extends a path. */
  lemma ReachesStep(open: set<Pos>, from: Pos, p: Pos, q: Pos)
    requires ReachesIn(open, from, p) && q in open && Adjacent(p, q)
    ensures ReachesIn(open, from, q)
  {
    var w :| IsPathIn(open, w) && w[0] == from && w[|w| - 1] == p;
    var w' := w + [q];
    assert IsPathIn(open, w');
    assert w'[0] == from && w'[|w'| - 1] == q;
  }

  // ---------------------------------------------------------------------------
  // Back links

  function Lookup(parent: map<Pos, Pos>, p: Pos): Option<Pos> {
    if p in parent then Some(parent[p]) else None
  }

  /**
   * The ghost picture of the `previousNode` links: `start` has none, every
   * other ranked node has one, and each link points at an adjacent ranked
   * node, ranked lower than the linked node when that is ranked too.
   */
  ghost predicate Linked(parent: map<Pos, Pos>, start: Pos, rank: map<Pos, nat>) {
    start in rank && start !in parent &&
    (forall p :: p in rank && p != start ==> p in parent) &&
    // triggered on `parent[p]` alone, so that one link does not call up the next
    (forall p {:trigger parent[p]} :: p in parent ==>
      parent[p] in rank && Adjacent(parent[p], p) && (p in rank ==> rank[parent[p]] < rank[p]))
  }

  /** `rank` numbers the trace: every cell of it by its position in it. */
  ghost predicate Numbered(trace: seq<Pos>, rank: map<Pos, nat>) {
    (forall i :: 0 <= i < |trace| ==> trace[i] in rank && rank[trace[i]] == i) &&
    (forall p :: p in rank ==> rank[p] < |trace| && trace[rank[p]] == p)
  }

  /** A prefix one longer is the prefix with the next element appended (a slicing fact for loop proofs; it models nothing of the source). */
  lemma TakeOneMore(s: seq<Pos>, k: nat)
    requires k < |s|
    ensures s[..k + 1] == s[..k] + [s[k]]
  {
  }

  /** The empty and the full prefix (a slicing fact for loop proofs; it models nothing of the source). */
  lemma TakeAll(s: seq<Pos>)
    ensures s[..0] == [] && s[..|s|] == s
  {
  }

  /** A numbering makes the trace free of repeats. */
  lemma NumberedDistinct(trace: seq<Pos>, rank: map<Pos, nat>)
    requires Numbered(trace, rank)
    ensures Distinct(trace)
  {
    forall i, j | 0 <= i < j < |trace| ensures trace[i] != trace[j] {
      assert rank[trace[i]] == i && rank[trace[j]] == j;
    }
  }

  /** Appending a node not yet numbered gives it the next number. */
  lemma NumberedPush(trace: seq<Pos>, rank: map<Pos, nat>, u: Pos)
    requires Numbered(trace, rank) && u !in rank
    ensures Numbered(trace + [u], rank[u := |trace|])
    ensures forall p :: p in rank ==> rank[p] < |trace|
  {
    var trace', rank' := trace + [u], rank[u := |trace|];
    forall i | 0 <= i < |trace'| ensures trace'[i] in rank' && rank'[trace'[i]] == i {
      if i < |trace| {
        assert trace'[i] == trace[i] && trace[i] in rank && trace[i] != u;
      }
    }
    forall p | p in rank' ensures rank'[p] < |trace'| && trace'[rank'[p]] == p {
      if p != u {
        assert trace'[rank[p]] == trace[rank[p]];
      }
    }
  }

  /** Every ranked node of a linked structure is reachable from `start` when its cells are open. */
  lemma {:induction false} LinkedReaches(parent: map<Pos, Pos>, start: Pos, rank: map<Pos, nat>, open: set<Pos>, p: Pos)
    requires Linked(parent, start, rank) && p in rank
    requires forall q :: q in rank && q != start ==> q in open
    ensures ReachesIn(open, start, p)
    decreases rank[p]
  {
    if p == start {
      assert IsPathIn(open, [start]);
    } else {
      LinkedReaches(parent, start, rank, open, parent[p]);
      ReachesStep(open, start, parent[p], p);
    }
  }

  /** The link of ranked node `p` points at an adjacent node with a smaller rank. */
  ghost predicate LinkOk(grid: array2<Node>, rank: map<Pos, nat>, p: Pos)
    reads grid
    requires p in rank && InBounds(grid, p)
  {
    var prev := At(grid, p).previousNode;
    prev.Some? && prev.value in rank && rank[prev.value] < rank[p] && Adjacent(prev.value, p)
  }

  /**
   * The `previousNode` links of the ranked nodes lead, rank strictly
   * decreasing, to `start`, whose own link is null.
   */
  ghost predicate LinkedTo(grid: array2<Node>, start: Pos, rank: map<Pos, nat>)
    reads grid
  {
    start in rank &&
    (forall p :: p in rank ==> InBounds(grid, p)) &&
    At(grid, start).previousNode == None &&
    (forall p :: p in rank && p != start ==> LinkOk(grid, rank, p))
  }

  /** A grid whose links agree with a linked parent map is linked to the same start. */
  lemma LinkedToByParents(grid: array2<Node>, parent: map<Pos, Pos>, start: Pos, rank: map<Pos, nat>)
    requires Linked(parent, start, rank)
    requires forall p :: p in rank ==> InBounds(grid, p) && At(grid, p).previousNode == Lookup(parent, p)
    ensures LinkedTo(grid, start, rank)
  {
    forall p | p in rank && p != start ensures LinkOk(grid, rank, p) {
      assert At(grid, p).previousNode == Some(parent[p]) && parent[p] in rank;
    }
  }

  /** `path` runs from `start` along links: each node's link is its predecessor. */
  ghost predicate IsBackChain(grid: array2<Node>, start: Pos, rank: map<Pos, nat>, path: seq<Pos>)
    reads grid
  {
    |path| > 0 && path[0] == start &&
    (forall i :: 0 <= i < |path| ==> path[i] in rank && InBounds(grid, path[i])) &&
    (forall i :: 0 <= i < |path| - 1 ==>
      At(grid, path[i + 1]).previousNode == Some(path[i]) && Adjacent(path[i], path[i + 1])) &&
    (forall i, j :: 0 <= i < j < |path| ==> rank[path[i]] < rank[path[j]])
  }

  /**
   * `getNodesInShortestPathOrder`: follow `previousNode` back from `finish`
   * until null, prepending each node. The ghost `rank` witnesses that the
   * links are acyclic, which the loop needs to end.
   */
  method GetNodesInShortestPathOrder(grid: array2<Node>, finish: Pos, ghost start: Pos, ghost rank: map<Pos, nat>)
    returns (path: seq<Pos>)
    requires LinkedTo(grid, start, rank) && finish in rank
    ensures IsBackChain(grid, start, rank, path) && path[|path| - 1] == finish
  {
    path := [];
    var current := Some(finish);
    while current.Some?
      invariant current.Some? ==> current.value in rank
      invariant path == [] ==> current == Some(finish)
      invariant forall i :: 0 <= i < |path| ==> path[i] in rank && InBounds(grid, path[i])
      invariant path != [] ==> path[|path| - 1] == finish && At(grid, path[0]).previousNode == current
      invariant path != [] && current.Some? ==> rank[current.value] < rank[path[0]] && Adjacent(current.value, path[0])
      invariant forall i :: 0 <= i < |path| - 1 ==>
        At(grid, path[i + 1]).previousNode == Some(path[i]) && Adjacent(path[i], path[i + 1])
      invariant forall i, j :: 0 <= i < j < |path| ==> rank[path[i]] < rank[path[j]]
      decreases if current.Some? then rank[current.value] + 1 else 0
    {
      var node := current.value;
      path := [node] + path;
      current := At(grid, node).previousNode;
      if node != start {
        assert LinkOk(grid, rank, node);
      }
    }
  }

  /** A back chain has no node twice, and is a path when its ranked non-start cells are open. */
  lemma BackChainIsPath(grid: array2<Node>, start: Pos, rank: map<Pos, nat>, path: seq<Pos>, open: set<Pos>)
    requires IsBackChain(grid, start, rank, path)
    requires forall p :: p in rank && p != start ==> p in open
    ensures IsPathIn(open, path) && Distinct(path)
  {
    forall i | 0 < i < |path| ensures path[i] in open {
      assert rank[path[0]] < rank[path[i]];
    }
    forall i, j | 0 <= i < j < |path| ensures path[i] != path[j] {
      assert rank[path[i]] < rank[path[j]];
    }
  }

  // ---------------------------------------------------------------------------
  // The neighbour query of bfs.js, astar.js and gbfs.js, and the open list of the last two

  /**
   * `getUnvisitedNeighbors` of bfs.js, written out again as `getValidNeighbors`
   * in astar.js and gbfs.js: in-bounds up, down, left, right cells, unvisited
   * and not of Infinity weight.
   */
  function GetValidNeighbors(grid: array2<Node>, p: Pos): (r: seq<Pos>)
    reads grid
    requires InBounds(grid, p)
    ensures forall q :: q in r <==>
      InBounds(grid, q) && Adjacent(p, q) && !At(grid, q).isVisited && At(grid, q).weight != Inf
    ensures InDirOrder(p, UP_DOWN_LEFT_RIGHT, r)
    ensures Distinct(r)
  {
    NeighborsMembers(grid, p, UP_DOWN_LEFT_RIGHT, FiniteWeight);
    NeighborsOrdered(grid, p, UP_DOWN_LEFT_RIGHT, FiniteWeight);
    NeighborsDistinct(grid, p, UP_DOWN_LEFT_RIGHT, FiniteWeight);
    Neighbors(grid, p, UP_DOWN_LEFT_RIGHT, FiniteWeight)
  }

  /**
   * `openList.pop()` of heap-js in A* as the model sees it: some entry of
   * the list comes out. Which one is left open, since A* lowers the `f` key
   * of a node while it sits in the heap. GBFS never changes a key and uses
   * the least-first pop `Gbfs.PopLeast` instead.
   */
  method Pop(openList: multiset<Pos>) returns (node: Pos, rest: multiset<Pos>)
    requires |openList| > 0
    ensures node in openList && rest + multiset{node} == openList
  {
    node :| node in openList;
    rest := openList - multiset{node};
  }

  // ---------------------------------------------------------------------------
  // Result record shared by the searches, and what its parts promise

  // ---------------------------------------------------------------------------
  // Ghost mirror of the grid during a search

  /** The grid is the snapshot `orig` with the marks of `level` and the links of `parent`. */
  ghost predicate Shows(grid: array2<Node>, orig: map<Pos, Node>, level: map<Pos, nat>, parent: map<Pos, Pos>)
    reads grid
  {
    forall p :: InBounds(grid, p) ==>
      p in orig && At(grid, p) == orig[p].(isVisited := p in level, previousNode := Lookup(parent, p))
  }

  /** The links of the marked cells are the ones `parent` records, so they lead back to the start. */
  lemma ShowsLinked(grid: array2<Node>, orig: map<Pos, Node>, cells: set<Pos>, start: Pos,
                    level: map<Pos, nat>, parent: map<Pos, Pos>)
    requires Shows(grid, orig, level, parent) && Linked(parent, start, level)
    requires forall p :: p in level ==> p in cells
    requires forall p :: p in cells <==> InBounds(grid, p)
    ensures LinkedTo(grid, start, level)
  {
    LinkedToByParents(grid, parent, start, level);
  }

  /** A back chain of the grid follows `parent`. */
  lemma ChainFollowsParents(grid: array2<Node>, orig: map<Pos, Node>, start: Pos,
                            level: map<Pos, nat>, parent: map<Pos, Pos>, path: seq<Pos>)
    requires Shows(grid, orig, level, parent) && IsBackChain(grid, start, level, path)
    ensures forall i :: 0 <= i < |path| - 1 ==> Lookup(parent, path[i + 1]) == Some(path[i])
  {
    forall i | 0 <= i < |path| - 1 ensures Lookup(parent, path[i + 1]) == Some(path[i]) {
      assert At(grid, path[i + 1]).previousNode == Some(path[i]);
    }
  }

  /** The searches change only the scratch fields of the snapshot. */
  lemma ShowsSameTerrain(grid: array2<Node>, orig: map<Pos, Node>, level: map<Pos, nat>, parent: map<Pos, Pos>)
    requires Shows(grid, orig, level, parent)
    ensures forall p :: InBounds(grid, p) ==> p in orig && SameTerrain(At(grid, p), orig[p])
  {
  }

  /** Marks and links leave the open cells as they were. */
  lemma ShowsOpen(grid: array2<Node>, orig: map<Pos, Node>, t: Terrain, open: set<Pos>,
                  level: map<Pos, nat>, parent: map<Pos, Pos>)
    requires Shows(grid, orig, level, parent)
    requires forall p :: p in orig ==> InBounds(grid, p)
    requires forall p :: p in open <==> p in orig && Enterable(orig[p], t)
    ensures Open(grid, t) == open
  {
    forall p ensures p in Open(grid, t) <==> p in open {
      if InBounds(grid, p) {
        assert At(grid, p).weight == orig[p].weight && At(grid, p).nodeType == orig[p].nodeType;
      }
    }
  }

  /** An unsearched grid shows its own snapshot with nothing marked and nothing linked. */
  lemma SnapshotShows(grid: array2<Node>)
    requires Unsearched(grid)
    ensures Shows(grid, Snapshot(grid), map[], map[])
  {
    forall p | InBounds(grid, p) ensures At(grid, p) == At(grid, p).(isVisited := false, previousNode := None) {
      assert !grid[p.row, p.col].isVisited && grid[p.row, p.col].previousNode == None;
    }
  }

  /** Marking the start of an unsearched grid shows the one-cell level map. */
  lemma FirstMark(grid: array2<Node>, orig: map<Pos, Node>, start: Pos)
    requires forall p :: p in orig <==> InBounds(grid, p)
    requires forall p :: p in orig ==> !orig[p].isVisited && orig[p].previousNode == None
    requires forall p :: InBounds(grid, p) ==>
      At(grid, p) == if p == start then orig[p].(isVisited := true) else orig[p]
    ensures Shows(grid, orig, map[start := 0], map[])
  {
  }

  /** A trace of visited nodes: it starts at `start`, has no node twice, and every node is reachable. */
  ghost predicate TraceFrom(grid: array2<Node>, t: Terrain, start: Pos, trace: seq<Pos>)
    reads grid
  {
    |trace| > 0 && trace[0] == start && Distinct(trace) &&
    forall p :: p in trace ==> InBounds(grid, p) && Reachable(grid, t, start, p)
  }

  /** `path` is a walk from `start` to `finish` without repeated cells. */
  ghost predicate SimpleWalk(grid: array2<Node>, t: Terrain, start: Pos, finish: Pos, path: seq<Pos>)
    reads grid
  {
    IsWalk(grid, path, t) && Distinct(path) && path[0] == start && path[|path| - 1] == finish
  }

  /** A simple walk from `start` to `finish` such that no walk between them has fewer cells. */
  ghost predicate ShortestWalk(grid: array2<Node>, t: Terrain, start: Pos, finish: Pos, path: seq<Pos>)
    reads grid
  {
    SimpleWalk(grid, t, start, finish, path) && NoShorterPath(Open(grid, t), start, finish, |path|)
  }

  /** Each node of `path` after the first has its predecessor in `previousNode`. */
  ghost predicate FollowsLinks(grid: array2<Node>, path: seq<Pos>)
    reads grid
  {
    forall i :: 1 <= i < |path| ==> InBounds(grid, path[i]) && At(grid, path[i]).previousNode == Some(path[i - 1])
  }

  /** `{visitedNodesInOrder, numNodesVisited, shortestPath, shortestPathLength}`; null is `None`. */
  datatype SearchResult = SearchResult(
    visitedNodesInOrder: seq<Pos>,
    numNodesVisited: int,
    shortestPath: Option<seq<Pos>>,
    shortestPathLength: int)
}
