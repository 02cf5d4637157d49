# Maze pathfinding engine in Dafny

This project models the pathfinding engine of an educational maze solver:
- a grid maze, stored as a rows x cols array of cell codes with a start, an end and an adjacency list (`src/maze.py`);
- six graph searches that run on it (`src/algorithms.py`): DFS, BFS, Dijkstra, A*, greedy best-first and bidirectional BFS;
- the integer bookkeeping those searches report (`src/metrics.py`).

Each search returns the record that `create_metrics` builds: the path, whether one was found, how many cells were expanded, and the name, heuristic and optimality flag.

Modules follow the program's structure:

| module | file | models |
|---|---|---|
| `Grid` | grid.dfy | `CellType`, `Maze`, its constructor and mutators, `get_neighbors`, `is_valid_cell` (`IsValidCell` / `Open`), `get_edge_weight` |
| `Reach` | reach.dfy | the graph that `get_neighbors` defines: walks, k-step reachability, shortest distance, the reachable cells |
| `Heuristics` | heuristics.dfy | Manhattan and Chebyshev distance, heuristic selection by name, `str.capitalize` |
| `PQueue` | pqueue.dfy | `heapq`: a bag of `(f, g, node)` entries with Python's tuple order; pop removes a least entry |
| `Parents` | parents.dfy | `_reconstruct_path`, and the chain walks of bidirectional search's two visited maps |
| `Metrics` | metrics.dfy | `MetricsTracker`'s counters, `AlgorithmMetrics`, `to_dict`, `PerformanceComparator` |
| `Uninformed` | uninformed.dfy | `dfs` and `bfs` |
| `Informed` | informed.dfy | `dijkstra` and `astar`: one relaxation core, with heuristic 0 for Dijkstra |
| `Greedy` | greedy.dfy | `greedy_best_first` |
| `Bidirectional` | bidirectional.dfy | `bidirectional_search` |

How the model is built:
- The main loop of each search (the stack, queue, heap and two-sided loops) is a recursive method. Its measure depends on the loop. DFS and BFS decrease the number of cells not yet visited plus the frontier length. Dijkstra, A* and greedy search decrease the number of cells not yet closed, then the heap size. Bidirectional search decreases the number of cells that each side has not yet expanded, summed over both sides. The heap and bidirectional loops are split into mutually recursive steps, and a final rank orders those steps. The loops of `_reconstruct_path` and the parent-chain walks stay `while` loops with invariants.
- Each neighbour loop is a recursive fold whose contract gives its whole effect. This is sound because `get_neighbors` never lists a cell twice (`Grid.NeighborsDistinct`).
- Ghost parameters carry what the proofs need but the program does not keep: the depth of every cell in the parent tree, and the set of expanded cells.

The searches are compared against independent reference definitions in `Reach`:
- `ReachIn(m, s, z, k)`: z can be reached from s in exactly k moves of `get_neighbors`;
- `Reachable`: z can be reached in some number of moves;
- `ShortestDistance(m, s, z, d)`: d is the least such number;
- `IsWalk`: a cell sequence whose consecutive cells are `get_neighbors` moves.

For each search the model proves:
- a path is found exactly when the end is reachable. Bidirectional search gets only one direction of this when the end is a wall; see "Left out";
- a returned path runs from the start to the end and is a walk of the maze. For bidirectional search it is a chain of unit moves, and a walk when the end is open;
- BFS, Dijkstra and A* return shortest paths;
- greedy search and bidirectional search return paths no shorter than the shortest distance;
- no cell is expanded twice. For the five single-direction searches `nodes_explored` is therefore at most the number of cells reachable from the start. Bidirectional search counts both sides' expansions, each side's cells reachable from its own root, so its count can exceed that number;
- when the start is the end, the path is that one cell and one node is explored.

Two consequences of the code are worth knowing:
- **Chebyshev heuristic.** Chebyshev distance never exceeds Manhattan distance, and Manhattan distance never exceeds the number of moves. So both heuristics are admissible and consistent (`Heuristics.HeuristicConsistent`), and A* stays optimal with either, even though movement is 4-directional.
- **Walled end.** Bidirectional search can return a path whose last move enters a walled end. `set_end` may be followed by `set_wall` on the end cell, and the backward side starts at that wall and expands cells with the forward `get_neighbors`. BFS on the same maze finds no path. For example, take a 1x3 maze whose end (0, 2) is walled: bidirectional search would return all three cells, while BFS would return none. The model states bidirectional search's walk property for an open end only.

## Model

| member | source | states |
|---|---|---|
| Grid.AllCellsAreInBounds | src/maze.py:43-46 | the cells that the two nested loops over rows and columns visit are exactly the in-bounds cells |
| Grid.GetNeighbors | src/maze.py:51-73 | a cell is listed exactly when it is one unit move away, inside the grid and not a wall; there are at most four, listed in the up, down, left, right order of the direction table |
| Grid.ValidCellsAreAdjacencyKeys | src/maze.py:93-97 | while the adjacency list is current, a cell is valid (in bounds and not a wall) exactly when it is a key of the list |
| Grid.NeighborsDistinct | src/maze.py:62-71 | the neighbour list has no repeats and never contains the cell itself |
| Grid.InteriorHasFourNeighbors | src/maze.py:64-71 | in a maze without walls, an interior cell has exactly four neighbours (the get_neighbors test) |
| Grid.NeighborsSymmetric | src/maze.py:64-71 | if b is a neighbour of the open cell a, then a is a neighbour of b: moves can be undone |
| Grid.BuildAdjacencyList | src/maze.py:42-49 | the adjacency list has a key for exactly the non-wall cells, and each key maps to that cell's neighbour list |
| Grid.NewMaze | src/maze.py:26-40 | a new maze is well formed and all empty, with the start at (0, 0) and the end at (rows-1, cols-1); its adjacency list is current and every cell is a key |
| Grid.NewMazeExample | tests/test_solver.py:17-37 | a 10x10 maze has start (0, 0), end (9, 9), (0, 0) in its adjacency list and four neighbours at (5, 5) |
| Grid.SetWall | src/maze.py:75-79 | an in-bounds cell becomes a wall, every other cell and the endpoints stay, and the adjacency list is rebuilt to match the new grid; an out-of-bounds call changes nothing |
| Grid.SetStart | src/maze.py:81-85 | an in-bounds call moves the start there and marks the cell START, leaving every other cell, the end and the adjacency list unchanged; an out-of-bounds call changes nothing |
| Grid.SetEnd | src/maze.py:87-91 | the same for the end and END |
| Grid.SetStartOnWallLeavesAdjacencyStale | src/maze.py:81-85 | placing the start on a wall leaves the adjacency list out of date with the grid: set_start does not rebuild it |
| Grid.GetEdgeWeight | src/maze.py:176-181 | every move has cost 1, so path cost equals the number of moves |
| Grid.ResetPathVisualization | src/maze.py:99-108 | path, visited and exploring marks become empty; walls and the other codes stay; the end shows END, and the start shows START unless it is also the end |
| Grid.ResetIdempotent | src/maze.py:99-108 | resetting twice is the same as resetting once |
| Reach.WalkReaches | src/maze.py:51-73 | a walk of n cells reaches its last cell from its first in n-1 moves |
| Reach.ReachHasWalk | src/maze.py:51-73 | conversely, a k-move reachability fact has a walk of k+1 cells to witness it |
| Reach.ClosedSetHoldsReachable | src/algorithms.py:85-103 | a set that holds the start and every neighbour of each of its cells holds every reachable cell; this is why an exhausted search has no path |
| Heuristics.ManhattanDistance | src/algorithms.py:248-253 | zero exactly on equal cells; at least the Chebyshev distance and at most twice it |
| Heuristics.ChebyshevDistance | src/algorithms.py:264-269 | zero exactly on equal cells; at least each coordinate difference and equal to one of them |
| Heuristics.DistanceProperties | src/algorithms.py:247-269 | both distances are symmetric and zero exactly on equal cells, and Chebyshev never exceeds Manhattan |
| Heuristics.ManhattanExample | tests/test_solver.py:79-82 | the Manhattan distance from (0, 0) to (3, 4) is 7, and the Chebyshev distance is 4 |
| Heuristics.ManhattanAdmissible | src/algorithms.py:248-253 | whenever z can be reached from s in k moves, Chebyshev <= Manhattan <= k |
| Heuristics.SelectHeuristic | src/algorithms.py:288-293 | "euclidean" and "chebyshev" select their functions; every other name, unknown names included, selects Manhattan |
| Heuristics.HeuristicConsistent | src/algorithms.py:289-293 | the Manhattan and Chebyshev heuristics towards any target drop by at most 1 per move (consistency) |
| Heuristics.HeuristicAdmissible | src/algorithms.py:289-293 | the heuristic value at p never exceeds the number of moves of any route from p to the target |
| Heuristics.Capitalize | src/algorithms.py:343 | the result is as long as its argument: the first character upper-cased and every later one lower-cased |
| Heuristics.CapitalizeIdempotent | src/algorithms.py:343 | capitalizing twice is the same as capitalizing once |
| Heuristics.CapitalizeNames | src/algorithms.py:343 | the heuristic names become "Manhattan" and "Chebyshev" |
| PQueue.EntryOrderTotal | src/algorithms.py:298-308 | Python's order on (f, g, (row, col)) tuples is reflexive, total, antisymmetric and transitive |
| PQueue.DijkstraOrder | src/algorithms.py:196-206 | Dijkstra's (cost, node) tuples are ordered the same way as the entries (cost, cost, node) |
| PQueue.GreedyOrder | src/algorithms.py:379-388 | greedy search's (h, node) tuples are ordered the same way as the entries (h, 0, node) |
| PQueue.LeastExists | src/algorithms.py:204-206 | every non-empty queue has a least entry |
| PQueue.LeastUnique | src/algorithms.py:206 | the least entry is unique, so heappop is deterministic |
| PQueue.PopMin | src/algorithms.py:206 | heappop returns a least entry and removes one copy of it |
| PQueue.Push | src/algorithms.py:226 | heappush adds one more copy of the new entry and keeps every other entry's count |
| Parents.Reverse | src/algorithms.py:58 | the reversed list holds the same elements in the opposite order |
| Parents.ReconstructPath | src/algorithms.py:42-59 | the path ends at the given cell and starts at a cell with no parent; each cell is the parent of the next |
| Parents.TreePath | src/algorithms.py:42-59 | on a parent map built by a search, the reconstructed path starts at the root and has depth+1 cells; it is a walk whose i-th cell has depth i |
| Parents.TreeReach | src/algorithms.py:97-101 | a cell of depth d in a search's parent tree is reachable from the root in d moves |
| Parents.TraceToRoot | src/algorithms.py:495-507 | following a visited map from a cell until `None` yields a chain that starts at that cell and ends at an entry mapped to `None`; each cell maps to the next |
| Parents.LinkChain | src/algorithms.py:495-507 | on a side's visited map, such a chain ends at that side's root, has depth+1 cells, and each later cell moves into the one before it |
| Parents.LinkReach | src/algorithms.py:468-472 | a cell in a visited map at depth d is reachable from that side's root in d moves |
| Metrics.StartTracking | src/metrics.py:81-87 | both counters start at zero |
| Metrics.IncrementNodes | src/metrics.py:89-91 | the node count goes up by one and the frontier maximum is unchanged |
| Metrics.UpdateFrontierSize | src/metrics.py:93-96 | the frontier maximum becomes the larger of the old maximum and the new size; the node count is unchanged |
| Metrics.CreateMetrics | src/metrics.py:117-153 | the path length is the number of cells; a path counts as found exactly when it is non-empty; the counters, flag, heuristic and the two complexity strings are copied from the tracker and arguments |
| Metrics.TrackerScenario | tests/test_solver.py:93-112 | two increments, a frontier of 5 and a 2-cell path give a record with 2 nodes, path length 2, found, optimal and frontier 5 |
| Metrics.ToDict | src/metrics.py:34-48 | the export has exactly the nine non-float keys; the name, the three counters, the two flags and the two complexity strings each carry the record's value; a missing or empty heuristic exports as "N/A", any other heuristic as its name |
| Metrics.ToDictDeterminesFields | src/metrics.py:34-48 | two records with the same export agree on every exported field, and on the heuristic unless it is missing, empty or "N/A": the export loses nothing else |
| Metrics.AddMetrics | src/metrics.py:164-166 | the new record is appended and the earlier ones are kept in order |
| Metrics.Clear | src/metrics.py:220-222 | the comparator holds no records afterwards |
| Metrics.SuccessfulIndices | src/metrics.py:206 | lists, in increasing order, exactly the positions of records that found a path |
| Metrics.GetBestAlgorithm | src/metrics.py:192-218 | returns nothing exactly when no record found a path; otherwise it returns one of the stored records that found a path. For "nodes_explored" it returns the first successful record with the fewest expansions; for any other metric, the first successful record |
| Metrics.BestIsFirstMinimum | src/metrics.py:211-212 | the minimum over the successful records has no more expansions than any successful record, and is the first one with that count |
| Metrics.ClearedHasNoBest | src/metrics.py:220-222 | after clear there is no best algorithm |
| Uninformed.Discover | src/algorithms.py:97-101 | the unvisited neighbours, in order, are marked visited and appended to the frontier with the current cell as their parent; afterwards every neighbour is visited and every new parent is the current cell |
| Uninformed.Expand | src/algorithms.py:85-102 | one expansion keeps the search invariant: every visited cell is reachable at its tree depth, and every neighbour of an expanded cell is visited. The expanded cell is new |
| Uninformed.ExhaustedMeansUnreachable | src/algorithms.py:85 | when the frontier is empty without reaching the end, the end is unreachable |
| Uninformed.ExpandedBound | src/algorithms.py:88 | the expanded cells are distinct reachable cells, so nodes_explored is at most the number of reachable cells |
| Uninformed.LayeredHeadIsShortest | src/algorithms.py:144-153 | when BFS dequeues the end, its tree depth is the shortest distance |
| Uninformed.Conclude | src/algorithms.py:104-118 | the reconstructed path exists exactly when the end is reachable, runs from the start to the end as a walk, and has depth+1 cells; the record carries the given name and the complexity strings "O(V + E)" and "O(V)" |
| Uninformed.DfsRun | src/algorithms.py:85-103 | the stack loop finds the end exactly when it is reachable, and the path it reconstructs is a walk from the start to the end |
| Uninformed.Dfs | src/algorithms.py:62-118 | path found ⇔ end reachable; the path is a walk from the start to the end; nodes explored ≤ reachable cells; start = end gives the one-cell path; not marked optimal; named "DFS (Stack)" with complexities "O(V + E)" and "O(V)" |
| Uninformed.BfsRun | src/algorithms.py:144-162 | the queue loop: as DfsRun, and the path has the shortest length |
| Uninformed.Bfs | src/algorithms.py:121-177 | as Dfs, and the path is a shortest path; marked optimal; named "BFS (Queue)" with the same complexities |
| Informed.Relax | src/algorithms.py:220-228 | each neighbour with no cost yet, or with a higher one, gets the new cost, the current cell as parent and a pushed entry (cost + h, cost, neighbour); all other costs, parents and entries stay |
| Informed.ExpandOptimal | src/algorithms.py:221-227 | relaxing from a cell with a shortest cost keeps the costs of closed cells, and keeps every closed cell at its shortest distance |
| Informed.PoppedIsShortest | src/algorithms.py:204-218 | with a consistent heuristic, the least entry for an unvisited cell carries the cell's recorded cost, and that cost is the shortest distance to the cell |
| Informed.HeapExhausted | src/algorithms.py:204 | when the heap empties without reaching the end, the end is unreachable |
| Informed.HeapStart | src/algorithms.py:197-202 | the heap starts with the single entry for the start at cost 0 (f = h(start)), the start's cost is 0 and there are no parents |
| Informed.HeapExpand | src/algorithms.py:220-228 | relaxing the neighbours of a popped cell whose cost is shortest keeps the heap invariant, with that cell now closed. Under the invariant, closed cells have shortest costs; every recorded cost is the length of some route; a neighbour of a closed cell costs at most one more than it; every recorded cell not yet closed has a queued entry carrying its cost |
| Informed.HeapStep | src/algorithms.py:206-211 | after a pop, an entry for an already visited cell is skipped and the loop goes on; the final record meets the same guarantees as the whole search |
| Informed.HeapVisit | src/algorithms.py:211-228 | a new cell is marked visited and counted; the end stops the loop with a shortest path, any other cell is expanded and the loop goes on |
| Informed.HeapRun | src/algorithms.py:204-229 | the heap loop: path found ⇔ end reachable, a shortest walk from start to end, nodes explored ≤ reachable cells |
| Informed.HeapReport | src/algorithms.py:230-244 | the record built after the loop carries a shortest walk exactly when the end is reachable |
| Informed.Dijkstra | src/algorithms.py:180-244 | path found ⇔ end reachable; a shortest walk from the start to the end; nodes explored ≤ reachable cells; start = end gives the one-cell path; name "Dijkstra (Min-Heap)" with complexities "O((V + E) log V)" and "O(V)" |
| Informed.AStar | src/algorithms.py:272-349 | the same guarantees with the Manhattan or Chebyshev heuristic; the name and heuristic fields carry the capitalized heuristic name; complexities "O(b^d)" and "O(V)" |
| Greedy.Discover | src/algorithms.py:403-409 | every unvisited neighbour is pushed with its heuristic value; only those without a parent yet get the current cell as parent, so the first discoverer keeps it |
| Greedy.GreedyExpand | src/algorithms.py:402-409 | expanding the popped cell keeps every recorded parent and every entry still queued after the pop, and keeps greedy search's invariant: the parent map is a tree of reachable cells whose parents are expanded, and every neighbour of an expanded cell is expanded or queued |
| Greedy.GreedyExhausted | src/algorithms.py:386 | when the heap empties without reaching the end, the end is unreachable |
| Greedy.GreedyRun | src/algorithms.py:386-409 | the loop ends having found the end, or the end is unreachable; nodes explored equals the number of visited cells |
| Greedy.GreedyStep | src/algorithms.py:388-391 | an entry popped for an already visited cell is skipped; the loop's outcome keeps the guarantees of GreedyRun |
| Greedy.GreedyVisit | src/algorithms.py:393-409 | a new cell is marked visited and counted; the end stops the loop, found, and any other cell is expanded before the loop goes on |
| Greedy.GreedyReport | src/algorithms.py:411-426 | the record carries a walk from start to end exactly when the end is reachable; it is no shorter than the shortest distance |
| Greedy.GreedyBestFirst | src/algorithms.py:352-426 | path found ⇔ end reachable; a walk from the start to the end, at least as long as a shortest one; nodes explored ≤ reachable cells; not marked optimal; named after the capitalized heuristic with complexities "O(b^m)" and "O(V)" |
| Bidirectional.Link | src/algorithms.py:468-472 | the neighbours not yet in a side's visited map are appended to its queue and mapped to the current cell; every neighbour is in the map afterwards, and existing links are never overwritten |
| Bidirectional.Advance | src/algorithms.py:458-472 | one expansion leaves every neighbour of the dequeued cell in the visited map and keeps every earlier link; it keeps that side's invariant (a tree of one-move links from the root, the queue holding the visited cells not yet dequeued) and dequeues a new cell |
| Bidirectional.Exhausted | src/algorithms.py:454 | if either queue empties without a meeting, the end is unreachable from the start |
| Bidirectional.BiRun | src/algorithms.py:454-490 | the alternating loop ends with a meeting point in both visited maps, or the end is unreachable; nodes explored counts the expansions of both sides |
| Bidirectional.ForwardTurn | src/algorithms.py:458-472 | the forward half of an iteration: the dequeued cell meets the backward side or is expanded, and the loop's outcome keeps BiRun's guarantees |
| Bidirectional.BackwardTurn | src/algorithms.py:475-489 | the backward half, the same with the roles of the two sides exchanged |
| Bidirectional.BuildPath | src/algorithms.py:492-509 | the path is the forward chain to the meeting point, then the backward chain to the end; the meeting point occurs once. Consecutive cells are one unit move apart, and the path is a walk when the end is open |
| Bidirectional.Join | src/algorithms.py:492-509 | the joined path runs from the start to the end, and has at least as many moves as the shortest distance |
| Bidirectional.ShortestBound | src/algorithms.py:509 | a path from the start to the end that is a walk whenever the end is open has at least as many moves as the shortest distance |
| Bidirectional.ReadBack | src/algorithms.py:491-509 | a path is built exactly when there is a meeting point, and always when the end is reachable |
| Bidirectional.Finish | src/algorithms.py:491-521 | the record carries that path and counts both sides' expansions; both complexities are "O(b^(d/2))" |
| Bidirectional.BidirectionalSearch | src/algorithms.py:429-521 | found ⇔ non-empty; reachable ⇒ found; a unit-move chain from start to end that is a walk, and proves reachability, when the end is open; no shorter than the shortest distance; forward expansions are reachable from the start; start = end gives the one-cell path with one node; named "Bidirectional BFS", marked optimal, both complexities "O(b^(d/2))" |

## Left out

- euclidean_distance: it is floating-point (`math.sqrt`), so it is not modelled. `Informed.AStar` and `Greedy.GreedyBestFirst` therefore require the selected heuristic not to be Euclidean.
- Informed.AStar: not modelled for the Euclidean heuristic (floating point).
- Greedy.GreedyBestFirst: not modelled for the Euclidean heuristic (floating point).
- stop_tracking: wall-clock time and `tracemalloc` memory are I/O, so execution_time and memory_used are not in the record.
- Metrics.ToDict: has no `execution_time_ms` or `memory_kb` entries, because those fields are floating point.
- Metrics.GetBestAlgorithm: the "execution_time" (default) and "memory_used" metrics compare float fields that are not modelled, so its requires excludes them.
- Metrics.CreateMetrics: time and memory are not copied in, for the same reason.
- Uninformed.Dfs: does not constrain max_frontier_size; the counter is kept but not bounded.
- Uninformed.Bfs: does not constrain max_frontier_size; the counter is kept but not bounded.
- Informed.Dijkstra: does not constrain max_frontier_size; the counter is kept but not bounded.
- Informed.AStar: does not constrain max_frontier_size; the counter is kept but not bounded.
- Greedy.GreedyBestFirst: does not constrain max_frontier_size; the counter is kept but not bounded.
- Bidirectional.BidirectionalSearch: does not constrain max_frontier_size; the counter is kept but not bounded.
- Heuristics.Capitalize: upper- and lower-casing cover ASCII letters only; Python's full Unicode case mapping is not modelled.
- Bidirectional.BidirectionalSearch: optimality is not proved. The code sets is_optimal to True, and the contract proves only that the path has at least as many moves as the shortest distance.
- Bidirectional.BidirectionalSearch: the walk property, and "found implies reachable", are stated only for an open end. A walled end is entered by the path's last move, as described above.
- The visualisation callback (`_visualize_step`) does nothing here and is left out, along with `visualizer.py`, the dashboard, the console solver and the CLI.
- generate_random_maze: it uses randomness and is not modelled.
- `__str__`, `get_comparison_table` and the other report text: presentation only.
- Edge costs are Python floats equal to 1.0. They are modelled as natural numbers, which is exact for integer-valued floats.
- `heapq`'s list layout is not modelled: the heap is a bag of entries, and a pop removes a least one. Python's tuple order makes that entry unique.
- The searches call get_neighbors directly and never read the stored adjacency list, so a stale list (after set_start or set_end) does not affect them.
