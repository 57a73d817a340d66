# Pathfinding visualizer: a verified model of the grid and its searches

This project models the core of a React pathfinding visualizer in Dafny.
The core is the five grid searches and the grid the component keeps.

The searches are breadth-first search, depth-first search, Dijkstra's
algorithm, A* and greedy best-first search. Each one runs over a grid of
nodes and updates their scratch fields in place: visited marks, links to
the previous node, distances and scores.

The grid model covers:

- building the 20 × 50 grid;
- the click that toggles a cell's terrain type and its weight;
- painting by dragging;
- dragging the start and the finish;
- repricing terrain from the node-type table;
- the reset before a run;
- the order in which a run's trace and path are revealed.

The grid is an `array2<Node>`, updated in place, as the JavaScript mutates
its node objects. A node is a record. Its `previousNode` is the position of
the linked node (`Option<Pos>`), rather than an object reference.
`Infinity` is the `Inf` of `Ext = Fin(nat) | Inf`. JavaScript's `undefined`
and `null` are `None`.

Each search is a method with a loop, proved against a specification.

- **Ghost picture of the grid.** A ghost snapshot of the grid is taken on entry. Ghost maps record the order in which nodes are marked, their links and their distances or scores. A mirror predicate says that the grid is the snapshot with those fields written in.
- **Walks.** Walks and reachability are stated over the snapshot's open cells. The result is then read back on the final grid.
- **What is proved about the results.** BFS's path is a shortest walk. Dijkstra's path is a cheapest walk, and its total is the finish's distance. The DFS, A* and GBFS paths are simple walks along the links. GBFS visits nodes in greedy order: each visited node lies no farther from the finish than every node that was open when it was taken, that is, every open cell adjacent to an earlier trace node and not itself earlier in the trace. Every trace starts at the start and repeats no node. An exhausted search has visited exactly the cells reachable from the start.

Modules:

- `Grids` (grids.dfy) holds what the searches share: nodes, the neighbour query, Manhattan distance, walks and costs, path reconstruction and the heap's pop.
- `Bfs`, `Dfs`, `Dijkstra`, `Astar` and `Gbfs` hold the searches.
- `Visualizer` holds the grid model of the component.

## Model

| member | source | states |
|---|---|---|
| Grids.NeighborsMembers | pathfinding_visualizer/src/algorithms/bfs.js:67-78 | the neighbour query returns exactly the in-bounds adjacent cells in the listed directions that pass the search's filter |
| Grids.NeighborsOrdered | pathfinding_visualizer/src/algorithms/bfs.js:71-75 | the neighbours come out in the order of their directions in the enumeration (up, down, left, right here; down, right, up, left in DFS) |
| Grids.NeighborsDistinct | pathfinding_visualizer/src/algorithms/bfs.js:71-77 | no neighbour is listed twice |
| Grids.ManhattanDistance | pathfinding_visualizer/src/algorithms/astar.js:88-90 | the distance is zero exactly when the two cells coincide, and is the same taken either way round |
| Grids.ManhattanAdjacent | pathfinding_visualizer/src/algorithms/astar.js:88-90 | one step to an adjacent cell changes the heuristic by exactly one |
| Grids.GetNodesInShortestPathOrder | pathfinding_visualizer/src/algorithms/bfs.js:88-98 | following links back from the finish until none is left ends, and yields a chain from the start to the finish in which each node links to the one before it and is adjacent to it |
| Grids.BackChainIsPath | pathfinding_visualizer/src/algorithms/bfs.js:88-98 | such a chain repeats no node and is a walk through open cells |
| Grids.GetValidNeighbors | pathfinding_visualizer/src/algorithms/bfs.js:67-78 | the neighbour query of BFS, and the same query written again in astar.js (71-79) and gbfs.js (68-76): exactly the up, down, left, right cells that are in bounds, unvisited and not of infinite weight, in that order, none twice |
| Grids.Pop | pathfinding_visualizer/src/algorithms/astar.js:24 | the popped node is an entry of the open list, and the rest is the list without that entry |
| Bfs.EnqueueNeighbors | pathfinding_visualizer/src/algorithms/bfs.js:42-46 | the neighbours are appended to the queue in order; each is marked visited and linked to the current node; no other cell changes |
| Bfs.BfsShortest | pathfinding_visualizer/src/algorithms/bfs.js:25-47 | when the finish leaves the queue, no open walk from the start to it is shorter than its level plus one |
| Bfs.BfsExhausted | pathfinding_visualizer/src/algorithms/bfs.js:25-47 | once the queue is empty, the visited nodes are exactly the cells reachable from the start |
| Bfs.ReportFound | pathfinding_visualizer/src/algorithms/bfs.js:30-37 | the count is one less than the trace's length; the path is a shortest walk from the start to the finish along the links; the length is the path's edge count |
| Bfs.ReportExhausted | pathfinding_visualizer/src/algorithms/bfs.js:49-55 | the finish is not in the trace; the trace is exactly the reachable cells; the path is empty and the length 0 |
| Bfs.Bfs | pathfinding_visualizer/src/algorithms/bfs.js:16-56 | the trace starts at the start, repeats no node and holds only reachable open cells. Finish visited: the trace ends there and the path is a shortest walk along the links. Otherwise: the path is empty, the length 0, and the trace holds every reachable cell. The path is non-empty exactly when the finish is reachable. Terrain is unchanged. |
| Dfs.GetUnvisitedNeighbors | pathfinding_visualizer/src/algorithms/dfs.js:33-44 | exactly the adjacent in-bounds cells that are unvisited and not Walls, in the order down, right, up, left |
| Dfs.RunDfs | pathfinding_visualizer/src/algorithms/dfs.js:6-31 | a Wall or already visited node changes nothing and returns false. Otherwise the node is entered. The trace extends the old one and keeps its numbering, and the links form a tree from the start. True means the last node appended is the finish. False means the finish was not entered, and every node entered in the call has all its open neighbours entered. |
| Dfs.ExploreNeighbors | pathfinding_visualizer/src/algorithms/dfs.js:24-29 | the neighbour loop leaves the same outcome as a call: the trace extended, the finish last when found; when no neighbour finds the finish, every neighbour has been entered |
| Dfs.DfsExhausted | pathfinding_visualizer/src/algorithms/dfs.js:6-31 | when the recursion returns false, the trace is exactly the cells reachable from the start through non-Wall cells |
| Dfs.ReportFound | pathfinding_visualizer/src/algorithms/dfs.js:61-63 | when the finish was visited, the trace ends at the finish and the path read off the links is a simple walk from the start to it |
| Dfs.Missed | pathfinding_visualizer/src/algorithms/dfs.js:57-70 | when the finish was not visited, it is unreachable; the trace holds exactly the reachable cells; the trace is empty exactly when the start is a Wall |
| Dfs.Dfs | pathfinding_visualizer/src/algorithms/dfs.js:57-70 | a Wall start gives an empty trace, count -1 and a null path. Finish visited: the trace ends there and the path is a simple walk along the links. Otherwise: null path, length 0, and the trace holds exactly the reachable cells. A path exists exactly when the finish is reachable. Terrain is unchanged. |
| Dijkstra.GetUnvisitedNeighbors | pathfinding_visualizer/src/algorithms/dijkstra.js:74-82 | exactly the adjacent in-bounds cells that are unvisited, with no terrain test, up, down, left, right |
| Dijkstra.GetAllNodes | pathfinding_visualizer/src/algorithms/dijkstra.js:46-54 | every cell of the grid, once, in row-major order |
| Dijkstra.RowMajorOnce | pathfinding_visualizer/src/algorithms/dijkstra.js:46-54 | a list in strict row-major order holds no cell twice |
| Dijkstra.InsertByDistance | pathfinding_visualizer/src/algorithms/dijkstra.js:57-59 | inserting keeps the multiset of nodes: the old ones plus the new one |
| Dijkstra.InsertKeepsSorted | pathfinding_visualizer/src/algorithms/dijkstra.js:57-59 | inserting into a list sorted by distance gives a list sorted by distance |
| Dijkstra.SortByDistance | pathfinding_visualizer/src/algorithms/dijkstra.js:57-59 | the sorted list is a permutation of the input and is ordered by distance, with Infinity last |
| Dijkstra.Relaxed | pathfinding_visualizer/src/algorithms/dijkstra.js:65-69 | the new distance is at most both the old one and the offered one; the node changes only when the offer is strictly smaller, and then it takes the offer and the link; an Infinity-weight node never changes |
| Dijkstra.RelaxNeighbor | pathfinding_visualizer/src/algorithms/dijkstra.js:65-69 | the neighbour becomes its relaxed form and no other cell changes |
| Dijkstra.ImprovesAt | pathfinding_visualizer/src/algorithms/dijkstra.js:66 | the grid's test `newDistance < neighbor.distance` holds exactly when the ghost distances improve |
| Dijkstra.UpdateUnvisitedNeighbors | pathfinding_visualizer/src/algorithms/dijkstra.js:62-71 | after relaxing every unvisited neighbour of the settled node, the search invariant holds: each distance is the cost of its link chain, settled distances never decrease, and settled nodes are optimal |
| Dijkstra.CostPrefix | pathfinding_visualizer/src/algorithms/dijkstra.js:65 | with non-negative weights, a prefix of a walk costs no more than the whole walk |
| Dijkstra.FirstExit | pathfinding_visualizer/src/algorithms/dijkstra.js:12-42 | any walk leaving the settled set passes a next node whose distance is at most the walk's cost; this is the key step of optimality |
| Dijkstra.ChainWalk | pathfinding_visualizer/src/algorithms/dijkstra.js:67-68 | every settled node has a walk from the start whose cost is its distance |
| Dijkstra.ChainCost | pathfinding_visualizer/src/algorithms/dijkstra.js:85-93 | along the links, each prefix of the path costs exactly the distance of its last node |
| Dijkstra.Closest | pathfinding_visualizer/src/algorithms/dijkstra.js:13-14 | the node shifted off the sorted list has the least distance among the remaining nodes |
| Dijkstra.Unreached | pathfinding_visualizer/src/algorithms/dijkstra.js:16-25 | when the closest non-Wall node has distance Infinity, the settled nodes are exactly the cells reachable from the start |
| Dijkstra.ReportUnreached | pathfinding_visualizer/src/algorithms/dijkstra.js:16-25 | the unreached report: a null path, path length 0 and total 0, with the trace holding exactly the reachable cells |
| Dijkstra.ReportFound | pathfinding_visualizer/src/algorithms/dijkstra.js:28-40 | the found report: the path is a cheapest walk along the links, and the total is its cost and the finish's distance |
| Dijkstra.Exhausted | pathfinding_visualizer/src/algorithms/dijkstra.js:12-43 | the loop runs out of nodes only when the finish is a Wall |
| Dijkstra.Dijkstra | pathfinding_visualizer/src/algorithms/dijkstra.js:6-43 | `undefined` only when the finish is a Wall. Otherwise the trace is the settled nodes in non-decreasing distance, each distance the least cost of a walk to it, and it is empty exactly when the start is a Wall. Finish visited: the path is a cheapest walk along the links and the total is its cost. Otherwise: null path, 0, 0, and the trace holds exactly the reachable cells. Terrain is unchanged. |
| Astar.SetStart | pathfinding_visualizer/src/algorithms/astar.js:17-21 | the start gets g 0, h its Manhattan distance to the finish, and f = g + h; nothing else changes |
| Astar.ImprovesAt | pathfinding_visualizer/src/algorithms/astar.js:44 | the test `newG < (neighbor.g ?? Infinity)` holds exactly when the ghost g improves |
| Astar.RelaxNeighbor | pathfinding_visualizer/src/algorithms/astar.js:43-50 | an improving neighbour gets the new g, its Manhattan h, f = g + h and the link, and is pushed; otherwise nothing changes |
| Astar.RelaxAll | pathfinding_visualizer/src/algorithms/astar.js:42-51 | after the loop over the neighbours, every one of them has a g no greater than the g of the current node plus its own weight. No g score rose, only neighbours' scores changed, and the search invariant holds. |
| Astar.ReportFound | pathfinding_visualizer/src/algorithms/astar.js:30-37 | the found report: the trace ends at the finish, and the path is a simple walk along the links |
| Astar.ReportExhausted | pathfinding_visualizer/src/algorithms/astar.js:54-60 | the exhausted report: an empty path and length 0, with the trace holding exactly the reachable cells |
| Astar.Astar | pathfinding_visualizer/src/algorithms/astar.js:15-61 | the trace starts at the start, repeats no node and stays in open cells. Every scored node has h = its Manhattan distance, f = g + h, and g = the linked node's g plus its own weight. Finish visited: the path is a simple walk along the links. Otherwise: the path is empty and the trace holds exactly the reachable cells. Terrain is unchanged. |
| Astar.PathScore | pathfinding_visualizer/src/algorithms/astar.js:43-47 | along the returned path, each node's g equals the cost of the path up to it |
| Astar.FoundCost | pathfinding_visualizer/src/algorithms/astar.js:30-37 | the finish's g is the cost of the returned path, and its f equals its g |
| Astar.FoundIffReachable | pathfinding_visualizer/src/algorithms/astar.js:15-61 | the path is non-empty exactly when the finish is reachable |
| Gbfs.SetStart | pathfinding_visualizer/src/algorithms/gbfs.js:17-18 | the start gets h equal to its Manhattan distance to the finish, and f = h |
| Gbfs.RelaxNeighbor | pathfinding_visualizer/src/algorithms/gbfs.js:42-47 | an unvisited neighbour gets its Manhattan h, f = h and the link, and is pushed, even if it was pushed before |
| Gbfs.PushAll | pathfinding_visualizer/src/algorithms/gbfs.js:39-48 | after the loop over the neighbours, every one of them is linked and pushed, and the search invariant holds |
| Gbfs.ReportFound | pathfinding_visualizer/src/algorithms/gbfs.js:29-37 | the found report: the trace ends at the finish, and the path is a simple walk along the links |
| Gbfs.ReportExhausted | pathfinding_visualizer/src/algorithms/gbfs.js:51-57 | the exhausted report: an empty path and length 0, with the trace holding exactly the reachable cells |
| Gbfs.PopLeast | pathfinding_visualizer/src/algorithms/gbfs.js:19-23 | the pop takes one entry out of the open list, and no other entry has a smaller f |
| Gbfs.HeapKeys | pathfinding_visualizer/src/algorithms/gbfs.js:17-18 | every entry of the open list has f equal to its Manhattan distance to the finish, so the keys never change while entries wait |
| Gbfs.TakeNearest | pathfinding_visualizer/src/algorithms/gbfs.js:22-23 | the entry taken from the open list is one nearest the finish among all the entries |
| Gbfs.GreedyVisit | pathfinding_visualizer/src/algorithms/gbfs.js:22-27 | visiting an entry that is nearest the finish among the open entries keeps the greedy order. Each visited node is no farther than any open cell adjacent to an earlier visited node and not visited before it, since every such cell was pushed and is still in the list. |
| Gbfs.Gbfs | pathfinding_visualizer/src/algorithms/gbfs.js:15-58 | as for A*, but the scores say only h = Manhattan distance and f = h, and every linked node links to a visited adjacent node. The trace is in greedy order: each node in it lies no farther from the finish than any cell of finite weight adjacent to an earlier trace node and not itself earlier in the trace. |
| Gbfs.FinishNext | pathfinding_visualizer/src/algorithms/gbfs.js:22-29 | once a visited node is adjacent to an open finish, the next node visited is the finish |
| Gbfs.FoundIffReachable | pathfinding_visualizer/src/algorithms/gbfs.js:15-58 | the path is non-empty exactly when the finish is reachable |
| Gbfs.PathHeuristic | pathfinding_visualizer/src/algorithms/gbfs.js:43-44 | every node of the returned path carries its Manhattan distance to the finish as h, and the finish has h = f = 0 |
| Visualizer.Find | pathfinding_visualizer/src/PathfindingVisualizer/PathfindingVisualizer.jsx:131 | finds an entry exactly when some entry has the name, and then returns the first such entry |
| Visualizer.CreateNode | pathfinding_visualizer/src/PathfindingVisualizer/PathfindingVisualizer.jsx:465-477 | a node at its own position, plain (weight 1, no type), unvisited, unlinked, at distance Infinity, flagged exactly when it is at (9, 5) or (9, 44) |
| Visualizer.InitializeGrid | pathfinding_visualizer/src/PathfindingVisualizer/PathfindingVisualizer.jsx:445-455 | a new 20 × 50 grid whose every cell is the created node for its position |
| Visualizer.InitialBoard | pathfinding_visualizer/src/PathfindingVisualizer/PathfindingVisualizer.jsx:15-20 | that grid is a board: one start and one finish, which differ and have no type; every weight agrees with the table; no search field is set |
| Visualizer.Toggle | pathfinding_visualizer/src/PathfindingVisualizer/PathfindingVisualizer.jsx:129-137 | only type and weight change; a typed cell becomes plain and a plain cell takes the selected type; the weight then agrees with the table |
| Visualizer.ToggleTwice | pathfinding_visualizer/src/PathfindingVisualizer/PathfindingVisualizer.jsx:129-137 | toggling twice with the same selection gives back the node |
| Visualizer.HandleMouseDown | pathfinding_visualizer/src/PathfindingVisualizer/PathfindingVisualizer.jsx:116-141 | ignored while visualizing. Otherwise the button is pressed: on the start a start drag begins, on the finish a finish drag begins, elsewhere the cell is toggled. Only that cell changes. The start and finish flags stay where they were, and a valid, weighed board stays valid and weighed. This also holds on a grid whose start or finish was painted over. |
| Visualizer.EnterPaintAsWritten | pathfinding_visualizer/src/PathfindingVisualizer/PathfindingVisualizer.jsx:181-191 | the paint branch toggles the entered cell whatever it is, keeping its start and finish flags |
| Visualizer.PaintedFinishIsWall | pathfinding_visualizer/src/PathfindingVisualizer/PathfindingVisualizer.jsx:181-191 | painting Wall over the initial finish yields a finish that is a Wall of infinite weight |
| Visualizer.PaintedFinishBreaksBoard | pathfinding_visualizer/src/PathfindingVisualizer/PathfindingVisualizer.jsx:181-191 | a grid holding that node is not a valid board |
| Visualizer.EnterPaint | pathfinding_visualizer/src/PathfindingVisualizer/PathfindingVisualizer.jsx:122-128 | the paint branch with the guard of the mouse-down handler: the start and the finish are left alone; other cells toggle; weights keep agreeing with the table |
| Visualizer.Paint | pathfinding_visualizer/src/PathfindingVisualizer/PathfindingVisualizer.jsx:181-191 | painting by dragging changes only the entered cell, as the guarded rule says, and keeps the board and its weights valid |
| Visualizer.DijkstraAnswers | pathfinding_visualizer/src/PathfindingVisualizer/PathfindingVisualizer.jsx:341-357 | on a valid board Dijkstra always returns a result, so the visualizer never reads a field of `undefined` |
| Visualizer.MoveStart | pathfinding_visualizer/src/PathfindingVisualizer/PathfindingVisualizer.jsx:159-168 | one drag step of the start (leave, then enter): the start moves to the target exactly when the target is neither the finish nor typed; only start flags change. The flags stay placed, and a valid board stays valid. This also holds when the start or finish was painted over. |
| Visualizer.MoveFinish | pathfinding_visualizer/src/PathfindingVisualizer/PathfindingVisualizer.jsx:170-179 | the same for the finish, with the start as the forbidden cell |
| Visualizer.Reweigh | pathfinding_visualizer/src/PathfindingVisualizer/PathfindingVisualizer.jsx:284-287 | a typed node takes its type's weight from the table; a plain node is left as it is; only the weight changes; reweighing an already priced node changes nothing |
| Visualizer.UpdateWeights | pathfinding_visualizer/src/PathfindingVisualizer/PathfindingVisualizer.jsx:281-290 | every cell is reweighed in place; a board stays a board; when plain cells had weight 1, every weight then agrees with the table |
| Visualizer.ReweighRow | pathfinding_visualizer/src/PathfindingVisualizer/PathfindingVisualizer.jsx:283-288 | the inner loop reweighs one row and leaves the others |
| Visualizer.ResetNode | pathfinding_visualizer/src/PathfindingVisualizer/PathfindingVisualizer.jsx:496-505 | marks, links, type and distance are cleared and the weight is 1. Position, start and finish flags stay, and so do g, h and f, which the spread copies. |
| Visualizer.ResetAllNodes | pathfinding_visualizer/src/PathfindingVisualizer/PathfindingVisualizer.jsx:487-509 | a new grid of the same shape whose every node is the reset old node |
| Visualizer.ResetBoard | pathfinding_visualizer/src/PathfindingVisualizer/PathfindingVisualizer.jsx:487-509 | a reset board is a board with no terrain, weights all 1 and no search field set, ready for BFS, DFS and Dijkstra |
| Visualizer.SearchKeepsBoard | pathfinding_visualizer/src/PathfindingVisualizer/PathfindingVisualizer.jsx:341-357 | a search changes only scratch fields, so the board it ran on stays a valid, weighed board |
| Visualizer.PathTimeouts | pathfinding_visualizer/src/PathfindingVisualizer/PathfindingVisualizer.jsx:324-332 | path cell j is revealed at base + 50·j, in path order |
| Visualizer.Timeouts | pathfinding_visualizer/src/PathfindingVisualizer/PathfindingVisualizer.jsx:301-316 | the timeouts from trace index i on are scheduled no earlier than 10·i, with strictly increasing delays |
| Visualizer.FinishIndex | pathfinding_visualizer/src/PathfindingVisualizer/PathfindingVisualizer.jsx:302-309 | the first index at or after i at which the trace reaches the finish, or the trace's length |
| Visualizer.TimeoutsFrom | pathfinding_visualizer/src/PathfindingVisualizer/PathfindingVisualizer.jsx:301-332 | from index i on, the timeouts paint the trace up to its first finish and then the whole path |
| Visualizer.RevealInOrder | pathfinding_visualizer/src/PathfindingVisualizer/PathfindingVisualizer.jsx:301-332 | a run's timeouts fire in the order scheduled. They paint the trace after the start up to the finish, then the path, or the whole trace when the finish is absent. |

## Left out

- heap-js's binary heap is a multiset. GBFS never changes the key of an entry, since every push sets `h = f =` the Manhattan distance (Gbfs.HeapKeys), so its pop takes an entry of least `f` (Gbfs.PopLeast). Which of several tied entries comes out is left open.
- Astar.Astar: A* lowers the `g` and `f` of a node already in the heap. The heap order then no longer follows the entries' keys, so A*'s pop returns any entry (Grids.Pop). The model claims no minimum-first pop for A*, no A* optimality and no tie-breaking order.
- Astar.Astar: requires that no node has a `g` yet (`Ungraded`). `createNode` leaves `g` undefined, but `resetAllNodes` copies `g`, `h` and `f` through the spread (Visualizer.ResetNode states this). A* after a reset therefore starts from stale scores; the model does not cover that case. A* and GBFS are not wired into the component's dispatch (PathfindingVisualizer.jsx:57-70).
- Dijkstra.Dijkstra: the `undefined` of a loop that runs out of nodes is the result `None`.
- DFS's `!node` test (dfs.js:8) guards a null argument, which cannot arise for an in-bounds position, and is not modelled.
- Visualizer.Toggle, Visualizer.HandleMouseDown, Visualizer.Reweigh and Visualizer.UpdateWeights require the type's name to be in the table. In the source, `find` would return `undefined`, and reading `.weight` of it throws. Only table names reach these calls.
- The DOM: the `className` writes, `document.getElementById`, the output text and the CSS classes are left out.
- Timers: `setTimeout` and the timeout list are modelled only as the delays and steps they schedule (Visualizer.Timeouts). The browser's firing of them, and pausing or clearing them, are left out.
- Visualizer.Timeouts: the trace is cut at the finish position; the source tests the `isFinish` flag, which on a valid board is set exactly at that position.
- Drags: the leave-enter pair of a drag is one step (Visualizer.MoveStart, Visualizer.MoveFinish). `handleMouseUp` and `handleMouseLeaveGrid` only reset the mouse flags, or put the flag back on the last start or finish cell; they are left out. The mouse state is tracked only in Visualizer.HandleMouseDown.
- React state, `useEffect` and the re-render through `setGrid([...grid])` are left out; so are the header, the dropdowns and the node component.
- `visualizeBFS`, `visualizeDFS` and `visualizeDijkstra` only format text and start the reveal. Of these, only `visualizeDijkstra`'s use of the result is stated (Visualizer.DijkstraAnswers).
- JavaScript numbers are unbounded integers here. Weights and distances of a 20 × 50 grid stay far below 2^53.

## Notes on the code

- `resetAllNodes` clears every terrain type as well as the search marks, and it keeps `g`, `h` and `f`.
- DFS enumerates neighbours down, right, up, left. BFS, Dijkstra, A* and GBFS use up, down, left, right.
- For an unreachable finish, Dijkstra and DFS return a `null` path, while BFS, A* and GBFS return `[]`.
- Dijkstra's neighbour query has no terrain test: a Wall is skipped when popped, and an Infinity weight never improves a distance.

## Findings

| source | as written | input that shows it | evidently intended | confidence | as-written member | corrected member |
|---|---|---|---|---|---|---|
| pathfinding_visualizer/src/PathfindingVisualizer/PathfindingVisualizer.jsx:181-191 | the paint branch of `handleMouseEnter` toggles any entered cell, including the start and the finish, although `handleMouseDown` (lines 122-127) never toggles them | press on a plain cell with Wall selected and drag into the finish at (9, 44): the finish becomes a Wall of weight Infinity. `dijkstra` then skips it (dijkstra.js:15). If every other non-Wall cell is reachable, its loop ends with `undefined`, and `visualizeDijkstra` reads `.numNodesVisited` of it (line 350). | painting leaves the start and the finish as they are, as the mouse-down handler does | not executed | Visualizer.EnterPaintAsWritten, Visualizer.PaintedFinishIsWall, Visualizer.PaintedFinishBreaksBoard | Visualizer.EnterPaint, Visualizer.Paint, Visualizer.DijkstraAnswers |
