/**
 * The grid model of the visualizer component (PathfindingVisualizer.jsx):
 * building the grid, the click-to-toggle terrain rule, dragging the start
 * and the finish, painting by dragging, recomputing weights from the
 * node-type table, the reset before a new run, and the order in which a
 * run's trace and path are revealed.
 */
module Visualizer {
  import opened Grids
  import Astar
  import Dijkstra

  const NUM_OF_ROWS: nat := 20
  const NUM_OF_COLS: nat := 50
  /** Where the start and the finish sit when the grid is built. */
  const START: Pos := Pos(9, 5)
  const FINISH: Pos := Pos(9, 44)

  // ---------------------------------------------------------------------------
  // The node-type table

  /** An entry `{name, weight}` of the table the header's sliders edit. */
  datatype NodeType = NodeType(name: string, weight: Ext)

  /** The table App.js starts with. */
  const NODE_TYPES: seq<NodeType> := [
    NodeType(WALL, Inf), NodeType("Mud", Fin(50)), NodeType("Water", Fin(30)),
    NodeType("Sand", Fin(10)), NodeType("Grass", Fin(5))]

  /** `nodeTypes.find(t => t.name === name)`: the first entry with that name, if any. */
  function Find(table: seq<NodeType>, name: string): (r: Option<NodeType>)
    ensures r.Some? <==> exists i :: 0 <= i < |table| && table[i].name == name
    ensures r.Some? ==> exists i :: 0 <= i < |table| && table[i] == r.value && r.value.name == name &&
                                    (forall j :: 0 <= j < i ==> table[j].name != name)
  {
    if table == [] then None
    else if table[0].name == name then Some(table[0])
    else
      var r := Find(table[1..], name);
      assert forall i :: 1 <= i < |table| ==> table[i] == table[1..][i - 1];
      if r.Some? then
        ghost var i :| 0 <= i < |table[1..]| && table[1..][i] == r.value && r.value.name == name &&
          forall j :: 0 <= j < i ==> table[1..][j].name != name;
        assert table[i + 1] == r.value && forall j :: 0 <= j < i + 1 ==> table[j].name != name;
        r
      else r
  }

  /** A node's weight agrees with its type: 1 when it has none, the table's weight for it when it has one. */
  predicate Priced(n: Node, table: seq<NodeType>) {
    match n.nodeType
    case None => n.weight == Fin(1)
    case Some(t) => Find(table, t).Some? && n.weight == Find(table, t).value.weight
  }

  /** Every node of the grid is priced by `table`. */
  ghost predicate Weighed(grid: array2<Node>, table: seq<NodeType>)
    reads grid
  {
    forall p :: InBounds(grid, p) ==> Priced(At(grid, p), table)
  }

  // ---------------------------------------------------------------------------
  // The grid the component keeps

  /**
   * Every node knows its own position, and the start and the finish are the
   * only nodes flagged as such, and they differ.
   */
  ghost predicate Placed(grid: array2<Node>, start: Pos, finish: Pos)
    reads grid
  {
    InBounds(grid, start) && InBounds(grid, finish) && start != finish &&
    forall p :: InBounds(grid, p) ==>
      At(grid, p).row == p.row && At(grid, p).col == p.col &&
      (At(grid, p).isStart <==> p == start) && (At(grid, p).isFinish <==> p == finish)
  }

  /** A placed grid on which neither the start nor the finish has a terrain type. */
  ghost predicate Board(grid: array2<Node>, start: Pos, finish: Pos)
    reads grid
  {
    Placed(grid, start, finish) && At(grid, start).nodeType == None && At(grid, finish).nodeType == None
  }

  /** `createNode(row, col)`: a plain cell, flagged when it is where the start or the finish sits. */
  function CreateNode(row: nat, col: nat): (n: Node)
    ensures n.row == row && n.col == col
    ensures n.isStart <==> Pos(row, col) == START
    ensures n.isFinish <==> Pos(row, col) == FINISH
    ensures n.nodeType == None && n.weight == Fin(1)
    ensures !n.isVisited && n.previousNode == None && n.distance == Inf
    ensures n.g == None && n.h == None && n.f == None
  {
    Node(row, col, row == START.row && col == START.col, row == FINISH.row && col == FINISH.col,
         Inf, None, Fin(1), false, None, None, None, None)
  }

  /** `initializeGrid()`: a 20 by 50 grid of fresh nodes, each at its own position. */
  method InitializeGrid() returns (grid: array2<Node>)
    ensures fresh(grid) && grid.Length0 == NUM_OF_ROWS && grid.Length1 == NUM_OF_COLS
    ensures forall r, c :: 0 <= r < NUM_OF_ROWS && 0 <= c < NUM_OF_COLS ==> grid[r, c] == CreateNode(r, c)
  {
    grid := new Node[NUM_OF_ROWS, NUM_OF_COLS];
    for row := 0 to NUM_OF_ROWS
      invariant forall r, c :: 0 <= r < row && 0 <= c < NUM_OF_COLS ==> grid[r, c] == CreateNode(r, c)
    {
      for col := 0 to NUM_OF_COLS
        invariant forall r, c :: 0 <= r < row && 0 <= c < NUM_OF_COLS ==> grid[r, c] == CreateNode(r, c)
        invariant forall c :: 0 <= c < col ==> grid[row, c] == CreateNode(row, c)
      {
        grid[row, col] := CreateNode(row, col);
      }
    }
  }

  /** The grid `initializeGrid` builds is a board with one start at (9, 5) and one finish at (9, 44), ready for any search. */
  lemma InitialBoard(grid: array2<Node>, table: seq<NodeType>)
    requires grid.Length0 == NUM_OF_ROWS && grid.Length1 == NUM_OF_COLS
    requires forall r, c :: 0 <= r < NUM_OF_ROWS && 0 <= c < NUM_OF_COLS ==> grid[r, c] == CreateNode(r, c)
    ensures Board(grid, START, FINISH) && Weighed(grid, table)
    ensures Unsearched(grid) && Astar.Ungraded(grid)
  {
    forall p | InBounds(grid, p)
      ensures At(grid, p).row == p.row && At(grid, p).col == p.col
      ensures (At(grid, p).isStart <==> p == START) && (At(grid, p).isFinish <==> p == FINISH)
      ensures Priced(At(grid, p), table)
    {
      assert At(grid, p) == CreateNode(p.row, p.col);
    }
  }

  // ---------------------------------------------------------------------------
  // Clicking and painting terrain

  /**
   * The terrain toggle of lines 129-137, repeated at 182-190: a node with
   * no type takes the selected type and that type's weight from the table;
   * a node with a type goes back to none, with weight 1. Nothing else of the
   * node changes, and either way its weight then agrees with the table.
   */
  function Toggle(n: Node, selected: string, table: seq<NodeType>): (r: Node)
    requires n.nodeType.Some? || Find(table, selected).Some?
    ensures r.(nodeType := n.nodeType, weight := n.weight) == n
    ensures r.nodeType.Some? <==> n.nodeType.None?
    ensures r.nodeType.Some? ==> r.nodeType == Some(selected)
    ensures Priced(r, table)
  {
    if n.nodeType.None? then n.(nodeType := Some(selected), weight := Find(table, selected).value.weight)
    else n.(nodeType := None, weight := Fin(1))
  }

  /** Two clicks with the node's own type selected give back the node, when its weight agreed with the table. */
  lemma ToggleTwice(n: Node, selected: string, table: seq<NodeType>)
    requires Priced(n, table) && Find(table, selected).Some?
    requires n.nodeType.Some? ==> n.nodeType == Some(selected)
    ensures Toggle(Toggle(n, selected, table), selected, table) == n
  {
  }

  /** The pointer state of the component: `mousePressed`, `movingStartNode`, `movingFinishNode`. */
  datatype Mouse = Mouse(pressed: bool, movingStart: bool, movingFinish: bool)

  /** Whether a mouse-down on `n` toggles its terrain: not while a run is shown, and never on the start or the finish. */
  predicate Toggles(n: Node, isVisualizing: bool) {
    !isVisualizing && !n.isStart && !n.isFinish
  }

  /**
   * `handleMouseDown` on `p`: ignored while visualizing; on the start or the
   * finish it begins a drag of that node; elsewhere it toggles the terrain.
   */
  method HandleMouseDown(grid: array2<Node>, p: Pos, mouse: Mouse, isVisualizing: bool,
                         selected: string, table: seq<NodeType>, ghost start: Pos, ghost finish: Pos)
    returns (mouse': Mouse)
    requires InBounds(grid, p) && Placed(grid, start, finish)
    requires Toggles(At(grid, p), isVisualizing) && At(grid, p).nodeType.None? ==> Find(table, selected).Some?
    modifies grid
    ensures isVisualizing ==> mouse' == mouse
    ensures !isVisualizing ==>
      mouse' == Mouse(true, mouse.movingStart || p == start, mouse.movingFinish || (p != start && p == finish))
    ensures forall q :: InBounds(grid, q) ==>
      At(grid, q) == if q == p && Toggles(old(At(grid, p)), isVisualizing)
                     then Toggle(old(At(grid, p)), selected, table) else old(At(grid, q))
    ensures Placed(grid, start, finish)
    ensures old(Board(grid, start, finish)) ==> Board(grid, start, finish)
    ensures old(Weighed(grid, table)) ==> Weighed(grid, table)
  {
    mouse' := mouse;
    if isVisualizing {
      return;
    }
    mouse' := mouse'.(pressed := true);
    var node := grid[p.row, p.col];
    if node.isStart {
      mouse' := mouse'.(movingStart := true);
    } else if node.isFinish {
      mouse' := mouse'.(movingFinish := true);
    } else {
      grid[p.row, p.col] := Toggle(node, selected, table);
    }
  }

  /**
   * The paint branch of `handleMouseEnter` (lines 181-191) AS WRITTEN: the
   * cell the pointer enters with the button held is toggled, with no test
   * for the start or the finish.
   */
  function EnterPaintAsWritten(n: Node, selected: string, table: seq<NodeType>): (r: Node)
    requires n.nodeType.Some? || Find(table, selected).Some?
    ensures r.isStart == n.isStart && r.isFinish == n.isFinish
    ensures r.nodeType.Some? <==> n.nodeType.None?
  {
    Toggle(n, selected, table)
  }

  /** Painting over the finish of a fresh grid with Wall selected leaves a finish that is a wall of infinite weight. */
  lemma PaintedFinishIsWall()
    ensures var n := EnterPaintAsWritten(CreateNode(FINISH.row, FINISH.col), WALL, NODE_TYPES);
            n.isFinish && n.nodeType == Some(WALL) && n.weight == Inf
  {
    assert Find(NODE_TYPES, WALL) == Some(NodeType(WALL, Inf));
  }

  /** A grid holding that node anywhere is not a board, whatever its start and finish. */
  lemma PaintedFinishBreaksBoard(grid: array2<Node>, p: Pos, start: Pos, finish: Pos)
    requires InBounds(grid, p)
    requires At(grid, p) == EnterPaintAsWritten(CreateNode(FINISH.row, FINISH.col), WALL, NODE_TYPES)
    ensures !Board(grid, start, finish)
  {
    PaintedFinishIsWall();
  }

  /** The paint branch with the guard `handleMouseDown` has: the start and the finish are left as they are. */
  function EnterPaint(n: Node, selected: string, table: seq<NodeType>): (r: Node)
    requires n.isStart || n.isFinish || n.nodeType.Some? || Find(table, selected).Some?
    ensures (n.isStart || n.isFinish) ==> r == n
    ensures !(n.isStart || n.isFinish) ==> (r.nodeType.Some? <==> n.nodeType.None?)
    ensures r.(nodeType := n.nodeType, weight := n.weight) == n
    ensures Priced(n, table) ==> Priced(r, table)
  {
    if n.isStart || n.isFinish then n else Toggle(n, selected, table)
  }

  /** Dragging with the button held over `p`, neither start nor finish being moved: paint `p`. */
  method Paint(grid: array2<Node>, p: Pos, selected: string, table: seq<NodeType>, ghost start: Pos, ghost finish: Pos)
    requires InBounds(grid, p) && Board(grid, start, finish) && Weighed(grid, table)
    requires At(grid, p).isStart || At(grid, p).isFinish || At(grid, p).nodeType.Some? || Find(table, selected).Some?
    modifies grid
    ensures forall q :: InBounds(grid, q) ==>
      At(grid, q) == if q == p then EnterPaint(old(At(grid, p)), selected, table) else old(At(grid, q))
    ensures Board(grid, start, finish) && Weighed(grid, table)
  {
    grid[p.row, p.col] := EnterPaint(grid[p.row, p.col], selected, table);
  }

  /** On a board the finish is no wall, so `dijkstra` always returns a result rather than `undefined`. */
  lemma DijkstraAnswers(grid: array2<Node>, start: Pos, finish: Pos, res: Option<Dijkstra.DijkstraResult>)
    requires Board(grid, start, finish) && Dijkstra.Outcome(grid, start, finish, res)
    ensures res.Some?
  {
    assert At(grid, finish).nodeType != Some(WALL);
  }

  // ---------------------------------------------------------------------------
  // Dragging the start and the finish

  /** The move guard of lines 160 and 171: the cell is not the other special node and has no type. */
  predicate Lands(n: Node, other: bool) {
    !other && n.nodeType.None?
  }

  /**
   * One step of dragging the start onto `target`: leaving its cell takes the
   * flag off (lines 212-219), and entering `target` (lines 159-168) puts it
   * there if the guard lets it, or back on the old cell otherwise.
   */
  method MoveStart(grid: array2<Node>, start: Pos, target: Pos, ghost finish: Pos) returns (start': Pos)
    requires Placed(grid, start, finish) && InBounds(grid, target)
    modifies grid
    ensures start' == if Lands(old(At(grid, target)), old(At(grid, target)).isFinish) then target else start
    ensures forall q :: InBounds(grid, q) ==> At(grid, q) == old(At(grid, q)).(isStart := q == start')
    ensures Placed(grid, start', finish)
    ensures old(Board(grid, start, finish)) ==> Board(grid, start', finish)
  {
    // the leave guard holds on the start's own cell, and on a cell it rejects the else branch clears the start's
    grid[start.row, start.col] := grid[start.row, start.col].(isStart := false);
    var node := grid[target.row, target.col];
    if Lands(node, node.isFinish) {
      grid[target.row, target.col] := node.(isStart := true);
      start' := target;
    } else {
      grid[start.row, start.col] := grid[start.row, start.col].(isStart := true);
      start' := start;
    }
  }

  /** One step of dragging the finish onto `target` (lines 222-228, then 170-179). */
  method MoveFinish(grid: array2<Node>, finish: Pos, target: Pos, ghost start: Pos) returns (finish': Pos)
    requires Placed(grid, start, finish) && InBounds(grid, target)
    modifies grid
    ensures finish' == if Lands(old(At(grid, target)), old(At(grid, target)).isStart) then target else finish
    ensures forall q :: InBounds(grid, q) ==> At(grid, q) == old(At(grid, q)).(isFinish := q == finish')
    ensures Placed(grid, start, finish')
    ensures old(Board(grid, start, finish)) ==> Board(grid, start, finish')
  {
    // the leave guard holds on the finish's own cell, and on a cell it rejects the else branch clears the finish's
    grid[finish.row, finish.col] := grid[finish.row, finish.col].(isFinish := false);
    var node := grid[target.row, target.col];
    if Lands(node, node.isStart) {
      grid[target.row, target.col] := node.(isFinish := true);
      finish' := target;
    } else {
      grid[finish.row, finish.col] := grid[finish.row, finish.col].(isFinish := true);
      finish' := finish;
    }
  }

  // ---------------------------------------------------------------------------
  // Weights and reset

  /** Lines 284-287 on one node: a typed node takes its type's weight from the table; an untyped one is left. */
  function Reweigh(n: Node, table: seq<NodeType>): (r: Node)
    requires n.nodeType.Some? ==> Find(table, n.nodeType.value).Some?
    ensures r.(weight := n.weight) == n
    ensures n.nodeType.None? ==> r == n
    ensures n.nodeType.Some? ==> Priced(r, table)
    ensures Priced(n, table) ==> r == n
  {
    if n.nodeType.Some? then n.(weight := Find(table, n.nodeType.value).value.weight) else n
  }

  /** Every typed node's type is in `table`. */
  ghost predicate Listed(grid: array2<Node>, table: seq<NodeType>)
    reads grid
  {
    forall p :: InBounds(grid, p) && At(grid, p).nodeType.Some? ==> Find(table, At(grid, p).nodeType.value).Some?
  }

  /** `updateWeights()`: reprice every node from the (edited) table; a board stays a board and is then weighed by it. */
  method UpdateWeights(grid: array2<Node>, table: seq<NodeType>, ghost start: Pos, ghost finish: Pos)
    requires Listed(grid, table)
    modifies grid
    ensures forall q :: InBounds(grid, q) ==> At(grid, q) == Reweigh(old(At(grid, q)), table)
    ensures old(Board(grid, start, finish)) ==> Board(grid, start, finish)
    ensures (forall q :: InBounds(grid, q) && old(At(grid, q)).nodeType.None? ==> old(At(grid, q)).weight == Fin(1)) ==>
      Weighed(grid, table)
  {
    forall r, c | 0 <= r < grid.Length0 && 0 <= c < grid.Length1
      ensures grid[r, c].nodeType.Some? ==> Find(table, grid[r, c].nodeType.value).Some?
    {
      assert InBounds(grid, Pos(r, c));
    }
    for row := 0 to grid.Length0
      invariant forall r, c :: 0 <= r < grid.Length0 && 0 <= c < grid.Length1 && old(grid[r, c]).nodeType.Some? ==>
        Find(table, old(grid[r, c]).nodeType.value).Some?
      invariant forall r, c :: 0 <= r < row && 0 <= c < grid.Length1 ==> grid[r, c] == Reweigh(old(grid[r, c]), table)
      invariant forall r, c :: row <= r < grid.Length0 && 0 <= c < grid.Length1 ==> grid[r, c] == old(grid[r, c])
    {
      ReweighRow(grid, row, table);
    }
    assert forall q :: InBounds(grid, q) ==> At(grid, q) == Reweigh(old(At(grid, q)), table);
  }

  /** The inner loop of lines 283-288: reprice row `row`; the other rows are left. */
  method ReweighRow(grid: array2<Node>, row: nat, table: seq<NodeType>)
    requires row < grid.Length0
    requires forall c :: 0 <= c < grid.Length1 && grid[row, c].nodeType.Some? ==> Find(table, grid[row, c].nodeType.value).Some?
    modifies grid
    ensures forall c :: 0 <= c < grid.Length1 ==> grid[row, c] == Reweigh(old(grid[row, c]), table)
    ensures forall r, c :: 0 <= r < grid.Length0 && 0 <= c < grid.Length1 && r != row ==> grid[r, c] == old(grid[r, c])
  {
    for col := 0 to grid.Length1
      invariant forall c :: 0 <= c < col ==> grid[row, c] == Reweigh(old(grid[row, c]), table)
      invariant forall c :: col <= c < grid.Length1 ==> grid[row, c] == old(grid[row, c])
      invariant forall r, c :: 0 <= r < grid.Length0 && 0 <= c < grid.Length1 && r != row ==> grid[r, c] == old(grid[r, c])
    {
      var node := grid[row, col];
      if node.nodeType.Some? {
        grid[row, col] := node.(weight := Find(table, node.nodeType.value).value.weight);
      }
    }
  }

  /**
   * Lines 496-505 on one node: marks, links, type and distance are cleared
   * and the weight is 1; position and the start and finish flags stay, and
   * so does every other field the spread copies (g, h and f).
   */
  function ResetNode(n: Node): (r: Node)
    ensures r.row == n.row && r.col == n.col && r.isStart == n.isStart && r.isFinish == n.isFinish
    ensures r.g == n.g && r.h == n.h && r.f == n.f
    ensures !r.isVisited && r.previousNode == None && r.distance == Inf
    ensures r.nodeType == None && r.weight == Fin(1)
  {
    n.(isVisited := false, isStart := n.isStart, isFinish := n.isFinish, nodeType := None, weight := Fin(1),
       distance := Inf, previousNode := None)
  }

  /** `resetAllNodes(grid)`: a new grid of the reset nodes. */
  method ResetAllNodes(grid: array2<Node>) returns (newGrid: array2<Node>)
    ensures fresh(newGrid) && newGrid.Length0 == grid.Length0 && newGrid.Length1 == grid.Length1
    ensures forall r, c :: 0 <= r < grid.Length0 && 0 <= c < grid.Length1 ==> newGrid[r, c] == ResetNode(grid[r, c])
  {
    newGrid := new Node[grid.Length0, grid.Length1]((r, c) requires 0 <= r < grid.Length0 && 0 <= c < grid.Length1 reads grid =>
      ResetNode(grid[r, c]));
  }

  /** A reset board is a board again, with no terrain and cleared search fields, ready for BFS, DFS and Dijkstra. */
  lemma ResetBoard(grid: array2<Node>, newGrid: array2<Node>, start: Pos, finish: Pos, table: seq<NodeType>)
    requires Board(grid, start, finish)
    requires newGrid.Length0 == grid.Length0 && newGrid.Length1 == grid.Length1
    requires forall r, c :: 0 <= r < grid.Length0 && 0 <= c < grid.Length1 ==> newGrid[r, c] == ResetNode(grid[r, c])
    ensures Board(newGrid, start, finish) && Weighed(newGrid, table) && Unsearched(newGrid)
    ensures forall p :: InBounds(newGrid, p) ==> At(newGrid, p).nodeType == None
  {
    forall p | InBounds(newGrid, p)
      ensures At(newGrid, p) == ResetNode(At(grid, p))
    {
    }
  }

  /** A search changes only scratch fields, so the board it ran on is still a board. */
  lemma SearchKeepsBoard(before: array2<Node>, after: array2<Node>, start: Pos, finish: Pos, table: seq<NodeType>)
    requires Board(before, start, finish) && Weighed(before, table)
    requires after.Length0 == before.Length0 && after.Length1 == before.Length1
    requires forall p :: InBounds(after, p) ==> SameTerrain(At(after, p), At(before, p))
    ensures Board(after, start, finish) && Weighed(after, table)
  {
    forall p | InBounds(after, p)
      ensures At(after, p).row == p.row && At(after, p).col == p.col
      ensures (At(after, p).isStart <==> p == start) && (At(after, p).isFinish <==> p == finish)
      ensures At(after, p).nodeType == At(before, p).nodeType && Priced(At(after, p), table)
    {
      assert SameTerrain(At(after, p), At(before, p));
      assert InBounds(before, p);
    }
  }

  // ---------------------------------------------------------------------------
  // Revealing a run

  /** What a timeout paints: a visited cell, or a cell of the path. */
  datatype Step = Visited(p: Pos) | OnPath(p: Pos)

  /** A scheduled timeout: its delay in milliseconds and what it paints. */
  datatype Timed = Timed(delay: nat, step: Step)

  /** `animateShortestPath` started at `base`: path cell `j` at `base + 50 * j`. */
  function PathTimeouts(path: seq<Pos>, base: nat, j: nat): (r: seq<Timed>)
    decreases |path| - j
    ensures |r| == if j < |path| then |path| - j else 0
    ensures forall k :: 0 <= k < |r| ==> r[k] == Timed(base + 50 * (j + k), OnPath(path[j + k]))
  {
    if j >= |path| then [] else [Timed(base + 50 * j, OnPath(path[j]))] + PathTimeouts(path, base, j + 1)
  }

  /**
   * The timeouts `animateVisitedNodes` schedules from index `i` on: cell `i`
   * of the trace at `10 * i`, until a finish cell, whose timeout at `10 * i`
   * runs `animateShortestPath` instead and ends the loop.
   */
  function Timeouts(trace: seq<Pos>, finish: Pos, path: seq<Pos>, i: nat): (r: seq<Timed>)
    decreases |trace| - i
    ensures forall k :: 0 <= k < |r| ==> r[k].delay >= 10 * i
    ensures forall k :: 0 <= k && k + 1 < |r| ==> r[k].delay < r[k + 1].delay
  {
    if i >= |trace| then []
    else if trace[i] == finish then PathTimeouts(path, 10 * i, 0)
    else [Timed(10 * i, Visited(trace[i]))] + Timeouts(trace, finish, path, i + 1)
  }

  /** The index of the first finish cell of the trace at or after `i`, or the trace's length. */
  function FinishIndex(trace: seq<Pos>, finish: Pos, i: nat): (k: nat)
    requires i <= |trace|
    decreases |trace| - i
    ensures i <= k <= |trace|
    ensures forall j :: i <= j < k ==> trace[j] != finish
    ensures k < |trace| ==> trace[k] == finish
  {
    if i == |trace| || trace[i] == finish then i else FinishIndex(trace, finish, i + 1)
  }

  /** The reveal order: `trace[1..k]`, `k` the first finish after the start, then the path if the finish is there. */
  function RevealOrder(trace: seq<Pos>, finish: Pos, path: seq<Pos>): (r: seq<Step>) {
    if |trace| <= 1 then []
    else
      var k := FinishIndex(trace, finish, 1);
      Visits(trace[1..k]) + (if k < |trace| then PathSteps(path) else [])
  }

  function Visits(s: seq<Pos>): (r: seq<Step>)
    ensures |r| == |s| && forall k :: 0 <= k < |s| ==> r[k] == Visited(s[k])
  {
    if s == [] then [] else [Visited(s[0])] + Visits(s[1..])
  }

  function PathSteps(s: seq<Pos>): (r: seq<Step>)
    ensures |r| == |s| && forall k :: 0 <= k < |s| ==> r[k] == OnPath(s[k])
  {
    if s == [] then [] else [OnPath(s[0])] + PathSteps(s[1..])
  }

  /** What the timeouts paint, in the order they are listed. */
  function Steps(ts: seq<Timed>): (r: seq<Step>)
    ensures |r| == |ts| && forall k :: 0 <= k < |ts| ==> r[k] == ts[k].step
  {
    if ts == [] then [] else [ts[0].step] + Steps(ts[1..])
  }

  lemma StepsCons(t: Timed, ts: seq<Timed>)
    ensures Steps([t] + ts) == [t.step] + Steps(ts)
  {
    assert ([t] + ts)[1..] == ts;
  }

  lemma VisitsCons(s: seq<Pos>, i: nat, k: nat)
    requires i < k <= |s|
    ensures Visits(s[i..k]) == [Visited(s[i])] + Visits(s[i + 1..k])
  {
    assert s[i..k][1..] == s[i + 1..k];
  }

  /** From index `i` on, the timeouts paint the trace up to the first finish, then the whole path. */
  lemma {:induction false} TimeoutsFrom(trace: seq<Pos>, finish: Pos, path: seq<Pos>, i: nat)
    requires 1 <= i <= |trace|
    decreases |trace| - i
    ensures var k := FinishIndex(trace, finish, i);
            Steps(Timeouts(trace, finish, path, i)) ==
            Visits(trace[i..k]) + (if k < |trace| then PathSteps(path) else [])
  {
    var k := FinishIndex(trace, finish, i);
    if i == |trace| {
      assert trace[i..k] == [];
    } else if trace[i] == finish {
      assert k == i && trace[i..k] == [];
    } else {
      TimeoutsFrom(trace, finish, path, i + 1);
      assert FinishIndex(trace, finish, i + 1) == k;
      StepsCons(Timed(10 * i, Visited(trace[i])), Timeouts(trace, finish, path, i + 1));
      VisitsCons(trace, i, k);
    }
  }

  /**
   * The timeouts of a run fire in the order they are scheduled (their
   * delays strictly increase), and that order is the reveal order.
   */
  lemma RevealInOrder(trace: seq<Pos>, finish: Pos, path: seq<Pos>)
    ensures var ts := Timeouts(trace, finish, path, 1);
            (forall k :: 0 <= k && k + 1 < |ts| ==> ts[k].delay < ts[k + 1].delay) &&
            Steps(ts) == RevealOrder(trace, finish, path)
  {
    if |trace| >= 1 {
      TimeoutsFrom(trace, finish, path, 1);
    }
  }
}
