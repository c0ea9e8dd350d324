# Grid path planners, modelled in Dafny

This project models the core of a small grid path-planning repository. The core has
three groups.

- **The lazy-deletion priority queue** (`priority_queue.py`). This is a heap of
  `[priority, count, item]` entries plus an item-to-entry map. Re-inserting an item marks
  its old entry `REMOVED`, and `pop` skips removed entries. Module `PriorityQueues`
  models it as a class whose fields are the heap (a sequence), the map, the counter and
  the size. Every method is proved against a pure function of the old state, and that
  function's properties are proved as lemmas.
- **Grid state spaces.**
  - Module `Mazes` holds the integer index and state codecs of `Maze2D` and `Maze4D`, the
    line-marching collision check `check_hit`, `check_occupancy`, and the 4-way and
    5-way successor generators (`maze.py`).
  - Module `Environment` holds the obstacle-set builder `Env` (`scripts/env.py`).
  - Module `Astar2D` holds the collision rule that forbids cutting corners, and the
    neighbour generator (`scripts/Astar2D.py`).
- **Search drivers.**
  - Module `Astar4D` holds `Astar` and `compute_path` (`Astar_4D.py`). Its loop
    invariant lives in module `SearchInvariant`, stated for any successor function on
    state indices.
  - Modules `GridSearch`, `Astar2D` and `Dijkstra` hold the dictionary-based searches
    `weighted_Astar` and `get_path` with `trace_path` (`scripts/Astar2D.py`,
    `scripts/Dijkstra.py`). Their loop invariant lives in `GridSearch`, stated for any
    successor function on cells.

For both searches the model proves the following.

- When the goal is popped, the returned path runs from the goal back to the start, and
  each cell is a successor of the next one.
- When the heap runs empty, no walk from the start reaches the goal.
- Along the parent links, every cell other than the start costs strictly more to reach
  than its parent. This is why following the links from the goal ends.

For the dictionary-based searches, a module `GridCost` keeps a second loop invariant
about costs: every reached cell has its current item in the heap or is closed with its
moves relaxed. From it the model proves the guarantees of the `weighted_Astar`
docstring. With priority `g` alone (`get_path`, or `e = 0`), the path found costs no
more than any walk from the start to the goal. With priority `g + e * h` and an
admissible `h`, the path costs at most `max(e, 1)` times any such walk.

For `Astar_4D.py` the model also states which priority each inserted index gets: 0 for
the start, and `g + epsilon * h` for every relaxed neighbour.

The motion costs and the Euclidean heuristics use `sqrt` and `hypot`, so they are
parameters of the model: an abstract non-negative cost function and an abstract
heuristic. Only the integer Manhattan forms are modelled concretely.

## Model

| member | source | states |
|---|---|---|
| PriorityQueues.MinIndex | priority_queue.py:71-74 | `heappop` takes an entry that no entry precedes in the (priority, count) order, so ties go to the oldest insert |
| PriorityQueues.MarkRemoved | priority_queue.py:67-68 | only the entry with the given count is overwritten with `REMOVED`; every other entry and the heap length stay the same |
| PriorityQueues.RemoveItemCorrect | priority_queue.py:61-69 | removing fails exactly when the item is not live (the `KeyError`); otherwise the queue stays consistent, the item leaves the map, `size` drops by one and `test` is false |
| PriorityQueues.RemoveKeepsTracked | priority_queue.py:67-68 | after a removal, counts are still fresh and every live heap entry is still the map's entry for its item |
| PriorityQueues.RemoveKeepsKeys | priority_queue.py:67-68 | after a removal, every map entry is still a live entry of the heap |
| PriorityQueues.PushKeepsConsistent | priority_queue.py:55-59 | pushing a fresh `[p, count, x]` entry for an absent item keeps the heap, the map, the counter and `size` consistent |
| PriorityQueues.InsertCorrect | priority_queue.py:41-59 | after `insert(x, p)` the queue is consistent; `x` maps to a new live entry with priority `p` (the last insert wins, even when `p` is larger); `size` is unchanged if `x` was present and one larger otherwise |
| PriorityQueues.InsertPresent | priority_queue.py:52-59 | re-inserting a present item leaves `size` unchanged and updates only that item's entry |
| PriorityQueues.PopStaleKeeps | priority_queue.py:73-75 | discarding a `REMOVED` entry from the heap keeps the queue consistent |
| PriorityQueues.PopLiveKeeps | priority_queue.py:74-77 | popping a live entry and deleting its item from the map, with `size - 1`, keeps the queue consistent |
| PriorityQueues.PopCorrect | priority_queue.py:71-79 | with no live item, `pop` fails (the `KeyError`) and stale entries are discarded; otherwise it returns a live item whose entry no live entry precedes, removes it from the map, and lowers `size` by one |
| PriorityQueues.InsertAllCorrect | priority_queue.py:52-58 | after inserting the same item several times, the queue is consistent, only that item's entry changed, and its priority is the last one given |
| PriorityQueues.InsertRepeatedlyThenPop | priority_queue.py:52-78 | inserting an item k times into an empty queue and popping once returns it exactly once; afterwards the queue is empty and a second pop fails |
| PriorityQueues.InsertAsWrittenAgrees | priority_queue.py:52-59 | inside `insert`, the as-written `_remove_item` gives the same state as the corrected one, because the key is overwritten at once |
| PriorityQueues.RemoveItemAsWrittenMiscounts | priority_queue.py:67-69 | a direct `_remove_item` as written keeps the item in `entry_finder`, so `test` still reports it; re-inserting it afterwards leaves `size` 0 with a live item |
| PriorityQueues.PriorityQueue.constructor | priority_queue.py:23-36 | a new queue is empty and consistent |
| PriorityQueues.PriorityQueue.Len | priority_queue.py:38-39 | `len` equals the number of live items in `entry_finder` |
| PriorityQueues.PriorityQueue.Test | priority_queue.py:81-90 | `test(item)` holds exactly when the heap has a live entry for `item` |
| PriorityQueues.PriorityQueue.RemoveItem | priority_queue.py:61-69 | the new state is the removal function applied to the old one; `found` says whether the item was in the map, and a missing item changes nothing |
| PriorityQueues.PriorityQueue.Insert | priority_queue.py:41-59 | the new state is the insertion function applied to the old one; the item's entry is new with the given priority; `size` grows only for a new item |
| PriorityQueues.PriorityQueue.Pop | priority_queue.py:71-79 | the new state and the result are the pop function applied to the old state; the result is a live item of least (priority, count) that is removed, with `size - 1`; an empty queue yields `None` and an empty heap |
| Mazes.FloorDiv | maze.py:168 | the quotient `q` satisfies `q * b <= a < q * b + b` |
| Mazes.FloorOfQuotient | maze.py:168 | `np.floor(a / b)` on exact reals equals the integer floor division |
| Mazes.State2OfIndex2 | maze.py:158-170 | for `0 <= y < rows`, decoding the index of `(x, y)` gives `(x, y)` back |
| Mazes.Index2OfState2 | maze.py:158-170 | for every integer index, encoding its decoded state gives the index back, and the decoded `y` lies in `[0, rows)` |
| Mazes.Index2Range | maze.py:158-162 | for `0 <= y < rows`, a cell lies in the maze exactly when its index lies in `[0, rows * cols)` |
| Mazes.Index4Horner | maze.py:211-215 | the 4D index equals its nested (Horner) form, the form that decoding peels apart |
| Mazes.State4OfIndex4 | maze.py:207-229 | for an in-maze position and `0 <= vx <= max_vel`, decoding the index of a state gives the state back |
| Mazes.Index4OfState4 | maze.py:207-229 | for every integer index, encoding its decoded state gives the index back, and the decoded position and `vx` are in range |
| Mazes.Index4Bounds | maze.py:211-215 | a valid 4D state has an index in `[0, rows * cols * (max_vel + 1)^2)`, the size of the arrays that `Astar` allocates |
| Mazes.CheckOccupancy | maze.py:132-139 | the lookup succeeds exactly for coordinates numpy accepts (negative ones count from the end); inside the maze it reports an obstacle exactly when the cell is 0 |
| Mazes.CheckHit | maze.py:93-130 | `check_hit` is false exactly when the start and every marched cell are in bounds and free; it is true from an off-grid or occupied start, and false for a zero move from a free start |
| Mazes.MarchStep | maze.py:120-123 | each step of the march adds `d / norm` to the coordinate |
| Mazes.MarchEnd | maze.py:116-123 | after `norm` steps the march is exactly at `start + d` |
| Mazes.ClearEndpoint | maze.py:115-130 | a move that does not hit ends on a free, in-bounds cell |
| Mazes.ClearUnitStep | maze.py:115-130 | for a unit move, not hitting means exactly that the start and the end cell are both free |
| Mazes.GetNeighbors2 | maze.py:172-186 | the loop returns the successor list of the decoded state, over the four deltas in order |
| Mazes.Successors2Members | maze.py:180-186 | the list has at most one index per delta, and an index is in it exactly when some delta's move does not hit and the index encodes the moved state |
| Mazes.Neighbor2Sound | maze.py:182-185 | the index reached by any delta that does not hit is a 4-adjacent, in-bounds, free neighbour |
| Mazes.Neighbor2Complete | maze.py:182-185 | every 4-adjacent, in-bounds, free neighbour is reached by one of the four deltas |
| Mazes.Neighbors2Correct | maze.py:172-186 | `get_neighbors` returns at most 4 indices, and they are exactly the 4-adjacent, in-bounds, free neighbours of the state |
| Mazes.GetNeighbors4 | maze.py:231-251 | the loop returns the successor list of the decoded state, over the five deltas in order |
| Mazes.Successors4Step | maze.py:240-250 | one more delta appends the index of the new state exactly when the speed limits hold and the move does not hit |
| Mazes.Successors4Members | maze.py:238-251 | the list has at most one index per delta, and an index is in it exactly when some accepted delta produces the state it encodes |
| Mazes.Neighbor4Sound | maze.py:240-250 | an accepted delta gives a neighbour whose velocity is within `[0, max_vel]` and differs from the old one by the delta; its position is the old one plus the new velocity, and it is a free cell |
| Mazes.Neighbor4Complete | maze.py:240-250 | every such neighbour comes from one of the five deltas |
| Mazes.Neighbors4Correct | maze.py:231-251 | `get_neighbors` returns at most 5 indices: exactly the neighbours with legal velocities and an unobstructed move, each on a free cell |
| SearchInvariant.InitEstablishes | Astar_4D.py:41-46 | `g = 0` and `parent = start` at the start, `g = inf` and `parent[i] = i` elsewhere, with only the start open: this establishes the loop invariant |
| SearchInvariant.CloseStep | Astar_4D.py:49-56 | popping a non-goal open index and appending it to `closed_set` starts its expansion with the invariant intact |
| SearchInvariant.RelaxKeepsLinks | Astar_4D.py:63-66 | setting `parent[n] = cur` and `g[n] = g[cur] + 1` keeps every finite, non-start index one step more costly than its parent and a successor of it |
| SearchInvariant.RelaxKeepsClosed | Astar_4D.py:63-66 | relaxing an index that is not closed leaves the closed indices reached |
| SearchInvariant.RelaxKeepsFrontier | Astar_4D.py:64-70 | the relaxed index becomes open, and every reached index stays closed or open |
| SearchInvariant.RelaxKeepsExpanded | Astar_4D.py:63-66 | relaxing keeps every successor of the other closed indices reached |
| SearchInvariant.RelaxStep | Astar_4D.py:62-70 | a relaxation of a neighbour that is not closed, under `>=`, keeps the expansion invariant; the neighbour is never the start |
| SearchInvariant.SkipStep | Astar_4D.py:58-64 | skipping a closed neighbour, or one with `g < g[cur] + 1`, keeps the expansion invariant |
| SearchInvariant.ExpandDone | Astar_4D.py:57-70 | once every neighbour is visited, the loop invariant holds again |
| SearchInvariant.ExhaustedUnreachable | Astar_4D.py:49-71 | when the open set is empty, no walk from the start reaches the goal |
| SearchInvariant.ReachedHasChain | Astar_4D.py:63-66 | under the loop invariant, every finite non-start index has a parent whose `g` is exactly one less |
| SearchInvariant.CloseShrinks | Astar_4D.py:56 | closing an index not yet closed shrinks the set of unclosed indices |
| SearchInvariant.PathFollowsEdges | Astar_4D.py:19-24 | each element of a parent chain is a successor of the element after it |
| Astar4D.ManhattanHeuristic | Astar_4D.py:9-14 | the heuristic is non-negative; at zero velocity it is the L1 position distance; it is 0 exactly at the goal position |
| Astar4D.SuccInRange | Astar_4D.py:37 | every successor index lies in `[0, map_size)` |
| Astar4D.ComputePath | Astar_4D.py:19-24 | the path begins with `goal` and ends with `start`; each later element is the parent of the one before it; its length is `g[goal] + 1`; `start == goal` gives `[goal]` |
| Astar4D.Astar | Astar_4D.py:34-71 | a returned path runs from `goal` to `start`, each element a successor of the next; `start == goal` gives `[goal]`; `None` means that no walk from `start` reaches `goal` |
| Astar4D.PathToGoal | Astar_4D.py:51-54 | when the goal is popped, `compute_path` gives a path from goal to start along successor edges |
| Astar4D.InitSearch | Astar_4D.py:37-48 | the arrays have `map_size` entries with `g = 0` and `parent = start` at the start and `inf`/self elsewhere; the queue holds only the start, with priority 0; the loop invariant holds |
| Astar4D.CloseAndExpand | Astar_4D.py:50-70 | one pass of the loop for a non-goal index appends it to `closed_set` and keeps the invariant, the open set being the queue's live items; every neighbour that is not closed and has `g >= g[cur] + 1` gets `g[cur] + 1` and an entry with priority `g + epsilon * h`, and every other index keeps its `g` and its entry |
| Astar4D.ExpandNode | Astar_4D.py:57-70 | visiting every neighbour keeps the expansion invariant, with the queue's live items as the open set; the relaxed neighbours (not closed, `g >= g[cur] + 1`) get `g = g[cur] + 1` and an entry with priority `g + epsilon * h`; every other index keeps its `g` and its entry |
| Astar4D.VisitNeighbour | Astar_4D.py:58-70 | a neighbour is relaxed exactly when it is not closed and `g[n] >= g[cur] + 1`; then `g[n] = g[cur] + 1` and `parent[n] = cur`, and otherwise nothing changes (a closed index is never relaxed) |
| Astar4D.VisitAndInsert | Astar_4D.py:58-70 | one pass of the neighbour loop keeps the expansion invariant, with the queue's live items as the open set, and extends the record of relaxed neighbours and their priorities by one neighbour |
| Astar4D.RecordNeighbour | Astar_4D.py:64-70 | a relaxed neighbour joins the queue's live items and a skipped one leaves them alone; the record of relaxed neighbours and their priorities grows by that neighbour |
| Astar4D.InsertNeighbour | Astar_4D.py:67-70 | the neighbour's entry becomes a new live entry with priority `g + epsilon * h(state(n), state(goal))`; every other entry is unchanged |
| Astar4D.RecordedInit | Astar_4D.py:57 | before the neighbour loop no neighbour is recorded: `g` and the entries are as they were |
| Astar4D.RecordedStep | Astar_4D.py:58-70 | a relaxation sets `g[n] = g[cur] + 1` and gives `n` an entry with priority `g + epsilon * h`, a skip changes nothing, and every other index keeps its `g` and entry; a neighbour listed twice gets the same `g` and priority again |
| Environment.LineSymmetric | scripts/env.py:63-66 | swapping the two endpoints of `add_line` gives the same cells |
| Environment.VerticalLine | scripts/env.py:67-69 | when `min_x == max_x`, the cells are `(min_x, y)` for every `y` in `[min_y, max_y]` |
| Environment.HorizontalLine | scripts/env.py:70-72 | otherwise, the cells are `(x, min_y)` for every `x` in `[min_x, max_x]`, using only `min_y` |
| Environment.SegmentCells | scripts/env.py:61-72 | for an axis-aligned segment, the cells are exactly the cells of the box between its endpoints |
| Environment.RectangleIsBorder | scripts/env.py:74-79 | the four lines of `add_rectangle` cover exactly the border of the box between its two corners |
| Environment.ColumnGrows | scripts/env.py:68-69 | one more pass of the vertical loop adds exactly the cell `(x, y)` |
| Environment.RowGrows | scripts/env.py:71-72 | one more pass of the horizontal loop adds exactly the cell `(x, y)` |
| Environment.Env.constructor | scripts/env.py:6-11 | the background is 80 by 60 and the obstacle set starts empty |
| Environment.Env.SetObsmap | scripts/env.py:13-14 | the obstacle set becomes the given set, and nothing else changes |
| Environment.Env.GetObsmap | scripts/env.py:16-17 | returns the obstacle set, which is the set last given to `set_obsmap` |
| Environment.Env.AddLine | scripts/env.py:61-72 | the obstacle set grows by exactly the line's cells; nothing is removed |
| Environment.Env.AddRectangle | scripts/env.py:74-79 | the obstacle set grows by exactly the rectangle's cells |
| GridSearch.InitEstablishes | scripts/Astar2D.py:38-42 | `g = {start: 0}`, `PARENT = {start: start}`, a heap holding only the start and an empty `CLOSED` satisfy the loop invariant |
| GridSearch.PopStep | scripts/Astar2D.py:44-49 | popping an item whose cell is not the goal and appending the cell to `CLOSED` starts its expansion with the invariant intact |
| GridSearch.RelaxKeepsLinks | scripts/Astar2D.py:53-58 | setting `g[s_n] = d` and `PARENT[s_n] = s` for a successor `s_n`, where `d > g[s]` and `s_n` is unseen or `d < g[s_n]`, keeps every reached cell a successor of its parent and strictly more costly than it; the relaxed cell is not the start |
| GridSearch.RelaxStep | scripts/Astar2D.py:54-59 | relaxing a neighbour, with a push of `g[s_n] + key`, keeps the expansion invariant and marks that neighbour reached |
| GridSearch.SkipStep | scripts/Astar2D.py:56 | skipping a neighbour already in `g` keeps the expansion invariant |
| GridSearch.VisitRelaxes | scripts/Astar2D.py:51-59 | when the neighbour is unseen or strictly improved, the loop body keeps the expansion invariant |
| GridSearch.VisitSkips | scripts/Astar2D.py:51-59 | when the neighbour's `g` is already at most `g[s] + c`, the loop body keeps the expansion invariant |
| GridSearch.VisitKeeps | scripts/Astar2D.py:51-59 | with a non-negative cost that is positive between distinct cells, the loop body keeps the expansion invariant for every neighbour |
| Astar2D.VisitNeighbour | scripts/Astar2D.py:52-59 | the loop body leaves the dictionaries and the heap as `Visit` says: unseen means `inf`, a neighbour is relaxed exactly when it is unseen or `g[s] + cost < g[s_n]`, and then `g`, `PARENT` and a push of `(g[s_n] + key(s_n), s_n)`; otherwise nothing changes (what that keeps is stated by `GridSearch.VisitKeeps` and `GridCost.CostVisitKeeps`) |
| Astar2D.ExpandNeighbours | scripts/Astar2D.py:51-59 | the loop over the neighbours leaves the state `VisitAll` gives: `Visit` applied to each neighbour in order (what that keeps is stated by `GridSearch.VisitAllKeeps` and `GridCost.VisitAllKeepsCost`) |
| GridSearch.VisitAllKeeps | scripts/Astar2D.py:51-59 | with a cost that is non-negative, and positive between distinct cells, visiting the first `j` successors of the popped cell in order keeps the expansion invariant and reaches each of them |
| GridSearch.ExpandDone | scripts/Astar2D.py:51-59 | once every neighbour has been reached, the loop invariant holds again |
| GridSearch.ExhaustedUnreachable | scripts/Astar2D.py:44-61 | when the heap runs empty, `CLOSED` starts at the start; the goal differs from the start and has no parent; no walk from the start reaches the goal |
| GridSearch.ChainDescends | scripts/Astar2D.py:103-107 | along a parent chain that has not yet reached the start, `g` strictly decreases |
| GridSearch.ChainIsSimple | scripts/Astar2D.py:103-107 | a parent chain that has not reached the start never meets a cell already on it, so `trace_path` cannot loop |
| GridSearch.FoundOutcome | scripts/Astar2D.py:44-49 | popping the goal ends the search with `CLOSED` ending at the goal; `trace_path` reaches the start along successor links; `start == goal` gives the path `[goal]` |
| GridSearch.ExhaustedOutcome | scripts/Astar2D.py:44-61 | an empty heap ends with the goal not in `CLOSED`, `trace_path` failing at the goal, and no walk from the start reaching the goal |
| Astar2D.MinIndex | scripts/Astar2D.py:45 | the position of an item that no item precedes in Python's tuple order |
| Astar2D.HeapPop | scripts/Astar2D.py:45 | `heappop` returns a least item: its priority is at most every item's, ties going to the smaller cell; that item and the rest make up the old heap |
| Astar2D.IsCollision | scripts/Astar2D.py:82-96 | a move collides if either endpoint is an obstacle; a straight move collides exactly then; a diagonal move also collides when either corner cell is an obstacle |
| Astar2D.GetNeighbor | scripts/Astar2D.py:63-73 | the loop returns the neighbour list: `s + m` for the collision-free motions, in motion-set order |
| Astar2D.NeighborsMembers | scripts/Astar2D.py:67-73 | a cell is a neighbour exactly when some motion reaches it without collision |
| Astar2D.NeighborsFree | scripts/Astar2D.py:67-73 | with no obstacles, the neighbours are `s + m` for every motion, in order |
| Astar2D.Manhattan | scripts/Astar2D.py:116-117 | the heuristic is 0 exactly at the goal; it is at least each coordinate distance and at most their sum |
| Astar2D.TracePath | scripts/Astar2D.py:98-108 | the list starts at the goal, with consecutive cells linked by `PARENT`; it ends at the start, or stops where Python would raise `KeyError` or loop forever |
| Astar2D.ExpandCell | scripts/Astar2D.py:51-59 | expanding a popped non-goal cell restores both the reachability invariant and the cost invariant of the loop |
| Astar2D.Search | scripts/Astar2D.py:38-61 | `CLOSED` starts at the start and holds the goal only as its last element; if the goal is reached, the path runs from the goal to the start along collision-free moves, and its cost plus `key(goal)` is at most the cost plus key of some cell on every walk from the start to the goal; otherwise no walk reaches the goal; `start == goal` gives `([goal], [goal])` |
| Astar2D.WeightedAstar | scripts/Astar2D.py:27-61 | the same outcome, pushing with priority `g + e * h`; when `h` is admissible (between 0 and the cost of every walk from the cell to the goal), the path costs at most `max(e, 1)` times any walk from the start to the goal, the docstring's bound for `e >= 1` and optimality for `e <= 1` |
| Dijkstra.GetPath | scripts/Dijkstra.py:21-44 | the same outcome, pushing with priority `g` alone; a path found costs no more than any walk from the start to the goal |
| GridCost.PrefixCostGrows | scripts/Astar2D.py:52-53 | with no negative move, the cost of a walk's prefix is non-negative and never decreases as the prefix grows |
| GridCost.PrefixCostSplits | scripts/Astar2D.py:52-53 | a walk's cost splits at any cell into the cost up to it plus the cost of the rest |
| GridCost.CostInit | scripts/Astar2D.py:38-42 | `g = {start: 0}`, `PARENT = {start: start}` and the one item `(0 + key(start), start)` satisfy the cost invariant: `g[start] = 0`, each cell costs at least its parent plus the move, each item's priority is at least its cell's `g + key`, and each reached cell has its current item in the heap or is closed with its moves relaxed |
| GridCost.CostPop | scripts/Astar2D.py:45-46 | popping an item and appending its cell to `CLOSED` starts the cell's expansion with the cost invariant intact for every other cell |
| GridCost.CostRelaxes | scripts/Astar2D.py:56-59 | relaxing the `j`-th successor sets its `g` to `g[s] + cost` and pushes its current item, keeping the cost invariant and relaxing the move to it |
| GridCost.CostSkips | scripts/Astar2D.py:56 | a successor whose `g` is already at most `g[s] + cost` is skipped with the cost invariant kept and the move relaxed |
| GridCost.CostVisitKeeps | scripts/Astar2D.py:51-59 | one pass of the neighbour loop, relaxing or skipping, keeps the cost invariant and relaxes the move to that successor |
| GridCost.VisitAllKeepsCost | scripts/Astar2D.py:51-59 | after the loop over the first `j` successors, the moves to all of them are relaxed and the cost invariant holds |
| GridCost.CostExpandDone | scripts/Astar2D.py:51-59 | once every successor is visited, the popped cell is closed with all its moves relaxed, and the loop's cost invariant holds again |
| GridCost.WalkMeetsHeap | scripts/Astar2D.py:44-59 | along any walk from the start, some cell up to `i` has its current item in the heap with `g` at most the walk's cost to it, or cell `i` itself is reached at no more than that cost |
| GridCost.PoppedGoalBound | scripts/Astar2D.py:45-49 | when the goal is popped as a least item, `g[goal] + key(goal)` is at most the walk's cost plus key at some cell of every walk from the start to the goal |
| GridCost.TraceCostBelow | scripts/Astar2D.py:98-108 | a parent chain from a reached cell back to the start costs at most that cell's `g` |
| GridCost.FoundCost | scripts/Astar2D.py:44-49 | popping the goal, the path `trace_path` returns meets the cost bound against every walk from the start to the goal |
| GridCost.ExhaustedCost | scripts/Astar2D.py:44-61 | when the heap runs empty the goal is not in `CLOSED`, so the cost bound says nothing |
| GridCost.ZeroKeyCheapest | scripts/Dijkstra.py:25-42 | with priority `g` alone, the cost bound makes the path a cheapest one: it costs no more than any walk from the start to the goal |
| GridCost.Factor | scripts/Astar2D.py:29-32 | the factor is at least 1 and at least `e`, and it is one of the two |
| GridCost.WeightedStep | scripts/Astar2D.py:29-32 | a cost `t` with `t + e * h(goal) <= p + e * h(m)`, `h(goal) = 0` and `p + h(m)` at most the walk's cost is at most `max(e, 1)` times that cost |
| GridCost.SuffixWalk | scripts/Astar2D.py:63-73 | the rest of a walk from any of its cells is a walk |
| GridCost.AdmissibleAtGoal | scripts/Astar2D.py:110-117 | an admissible heuristic is 0 at the goal |
| GridCost.AdmissibleSuffix | scripts/Astar2D.py:110-117 | on a walk to the goal, the cost up to a cell plus an admissible `h` there is at most the walk's cost |
| GridCost.WeightedWalk | scripts/Astar2D.py:29-32 | a path cost meeting the bound of priority `g + e * h` at some cell of a walk, with `h` admissible, is at most `max(e, 1)` times the walk's cost |
| GridCost.WeightedWithinFactor | scripts/Astar2D.py:27-61 | with priority `g + e * h` and `h` admissible, the cost bound gives a path costing at most `max(e, 1)` times any walk from the start to the goal |

## Left out

- Plotting, file input (`from_pgm`) and the `__main__` drivers are not modelled. This includes the anytime loop, which is driven by the clock and float `epsilon`.
- `get_path_vectors` is not modelled: it reads a global `maze`.
- `read_from_occgridmap_file` is not modelled: it is an empty stub.
- The fixed world layouts `obstaclemap_world1/2` and `load_obstaclemap` are data, not logic.
- Environment.Env.constructor: the obstacle set starts empty instead of holding a world layout.
- Motion costs (`math.hypot`) are a parameter `cost`. Its only assumption is that it is non-negative, and positive between distinct cells.
- The Euclidean heuristics are not modelled, nor the velocity-divided Manhattan heuristic at a non-zero speed. Both are parameters. At a non-zero speed the 4D heuristic divides by a `speed` argument that stands for `np.sqrt(vx^2 + vy^2)`.
- Floating-point rounding is not modelled; all costs are exact `real`.
- Astar4D.Astar: the `f_value` array is not kept, because nothing reads it; the priority is computed where it is inserted.
- Astar4D.Astar: `print` of the statistics is not modelled.
- Astar4D.Astar: a `start` at or beyond `map_size` (the `IndexError` of `g_value[start] = 0` at Astar_4D.py:44) and a negative `start` (which Python wraps to the end of `g_value` and `parent` at Astar_4D.py:44 and :46) are excluded by the requirement `0 <= start < map_size`.
- PriorityQueues.PriorityQueue.Insert: the default `priority=0` of `insert` is not modelled; every caller in the core passes a priority.
- Astar2D.WeightedAstar: the factor bound is proved only for an admissible heuristic; the source's Euclidean heuristic is a parameter, so its admissibility is an assumption of the bound and not proved.
- `heapq` keeps a heap layout; the model keeps only which items the heap holds, and pops a least one.
- Astar2D.Search: `fuel` bounds the number of pops, because the grid is unbounded and termination is not proved. `None` means the fuel ran out; the contract says nothing about that case.
- Astar2D.WeightedAstar: the result is `None` when the fuel runs out, which the source never returns.
- Dijkstra.GetPath: the result is `None` when the fuel runs out, which the source never returns.
- Astar2D.TracePath: a `KeyError` and an infinite loop of `trace_path` are returned as the outcomes `MissingParent` and `Cycles`.
- `float('inf')` entries of `g` are absent keys. This includes the initial `s_goal: inf` entry, whose only effect is to make unseen cells relax.
- When `s_start == s_goal`, the dictionary literal in the source sets `g[s_start]` to `inf`, so the start is pushed with priority `inf`. The loop still stops at the first pop. The model keeps `g[start] = 0`; the result is the same.
- The 2D searches have no closed check, so a closed cell can be relaxed and pushed again. No "closed is never relaxed" property is claimed for them; it is proved for the 4D `Astar`.
- Mazes.CheckHit: only integer coordinates and deltas are modelled. The march uses exact reals with floor for `int(x)`.
- Mazes.CheckOccupancy: numpy's `IndexError` is modelled as `None`.
- Python's negative indexing is modelled in `CheckOccupancy` only.

## Findings

| source | as written | input that shows it | evidently intended | confidence | as-written member | corrected member |
|---|---|---|---|---|---|---|
| priority_queue.py:67-69 | `_remove_item` marks the entry `REMOVED` and decrements `size`, but keeps the key in `entry_finder` | insert `7` with priority 1, call `_remove_item(7)`, then `insert(7, 2)`: `test(7)` is still true after the removal, and after the insert `len` is 0 while `7` is live | remove the key from `entry_finder`, as the `heapq` recipe does, so that `len` counts live items | not executed | PriorityQueues.RemoveItemAsWrittenMiscounts | PriorityQueues.RemoveItemCorrect |
