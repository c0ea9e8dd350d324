/** `scripts/Dijkstra.py`: the same search loop as `weighted_Astar`, with the heap ordered
    by the cost so far alone. */
module Dijkstra {
  import opened Wrappers
  import opened Environment
  import opened GridSearch
  import Astar2D
  import GridCost

  /** `get_path(s_start, s_goal)`: the start is pushed with priority `g[s_start] = 0` and
      every relaxed cell `n` with priority `g[n]`, no heuristic term. `cost` is the motion
      cost (`math.hypot` of the step in the source). The result is `trace_path(PARENT)` and
      `CLOSED`, with the guarantees of the shared loop: a path from the goal back to the
      start along collision-free moves when the goal is popped, and otherwise a proof that
      no walk reaches the goal. With priority `g` alone, the path is a cheapest one. */
  method GetPath(obs: set<Cell>, motions: seq<Cell>, cost: (Cell, Cell) -> real,
                 start: Cell, goal: Cell, fuel: nat) returns (r: Option<SearchResult<Cell>>)
    requires CostOk(cost)
    ensures r.Some? ==> Outcome(Astar2D.Graph(obs, motions), start, goal, r.value)
    ensures r.Some? && start == goal ==> r.value == SearchResult(Traced([goal]), [goal])
    ensures r.Some? ==> GridCost.Cheapest(Astar2D.Graph(obs, motions), cost, start, goal, r.value)
  {
    var key := c => 0.0;
    r := Astar2D.Search(obs, motions, cost, key, start, goal, fuel);
    if r.Some? {
      GridCost.ZeroKeyCheapest(Astar2D.Graph(obs, motions), cost, key, start, goal, r.value);
    }
  }
}
