/** The bookkeeping of the weighted A* search of `Astar_4D.py`, stated for any graph on
    the indices `0 .. |g|` given by a successor function `succ`: the `g_value` and `parent`
    arrays, the closed list and the open set, the invariant they keep while the search
    runs, and the one-step lemmas that re-establish it. */
module SearchInvariant {
  /** A `g_value` entry: a path length, or `float('inf')` for an index not reached yet. */
  datatype Dist = Fin(n: nat) | Inf

  /** Python's `a >= b` between a `g_value` entry and a length: infinity exceeds every
      length. */
  predicate AtLeast(a: Dist, b: nat) {
    a.Inf? || a.n >= b
  }

  /** Every element of `ns` is an index below `size`. */
  predicate InRange(ns: seq<int>, size: int) {
    forall j :: 0 <= j < |ns| ==> 0 <= ns[j] < size
  }

  /** A walk of the graph: each vertex is a successor of the one before. */
  ghost predicate IsWalk<T>(succ: T -> seq<T>, w: seq<T>) {
    forall k :: 0 <= k < |w| - 1 ==> w[k + 1] in succ(w[k])
  }

  /** A walk that starts inside a set of vertices closed under `succ` never leaves it. */
  lemma {:induction false} WalkStaysInside<T>(succ: T -> seq<T>, inside: seq<T>, w: seq<T>)
    requires forall c :: c in inside ==> forall n :: n in succ(c) ==> n in inside
    requires IsWalk(succ, w) && |w| > 0 && w[0] in inside
    ensures w[|w| - 1] in inside
    decreases |w|
  {
    if |w| > 1 {
      var w' := w[..|w| - 1];
      assert IsWalk(succ, w') by {
        forall k | 0 <= k < |w'| - 1
          ensures w'[k + 1] in succ(w'[k])
        {
          assert w'[k] == w[k] && w'[k + 1] == w[k + 1];
        }
      }
      WalkStaysInside(succ, inside, w');
      assert w[|w| - 1] in succ(w[|w| - 2]);
    }
  }

  /** The parent links lead back towards `start`: every reached index other than `start`
      has an in-range parent reached exactly one step earlier. */
  ghost predicate ParentChain(start: int, g: seq<Dist>, parent: seq<int>) {
    && |parent| == |g|
    && forall v {:trigger parent[v]} :: 0 <= v < |g| && v != start && g[v].Fin? ==>
         0 <= parent[v] < |g| && g[parent[v]].Fin? && g[parent[v]].n + 1 == g[v].n
  }

  // ---------------------------------------------------------------------------
  // The invariant of the search loop
  // ---------------------------------------------------------------------------

  ghost predicate Shape(start: int, g: seq<Dist>, parent: seq<int>) {
    |parent| == |g| && 0 <= start < |g|
  }

  /** Indices not reached yet are still their own parent, as initialised. */
  ghost predicate UnseenSelf(g: seq<Dist>, parent: seq<int>)
    requires |parent| == |g|
  {
    forall v :: 0 <= v < |g| && g[v].Inf? ==> parent[v] == v
  }

  /** Every reached index other than `start` was reached from a closed parent one step
      earlier, along an edge of the graph. */
  ghost predicate ParentLinks(succ: int -> seq<int>, start: int, g: seq<Dist>, parent: seq<int>, closed: seq<int>)
    requires |parent| == |g|
  {
    forall v {:trigger parent[v]} :: 0 <= v < |g| && v != start && g[v].Fin? ==>
      && 0 <= parent[v] < |g| && parent[v] in closed
      && g[parent[v]].Fin? && g[parent[v]].n + 1 == g[v].n
      && v in succ(parent[v])
  }

  /** Closed indices are in range, reached, and not the goal. */
  ghost predicate ClosedReached(goal: int, g: seq<Dist>, closed: seq<int>) {
    forall i :: 0 <= i < |closed| ==> 0 <= closed[i] < |g| && g[closed[i]].Fin? && closed[i] != goal
  }

  /** The live items of the open set are exactly the reached indices not closed yet. */
  ghost predicate OpenFrontier(g: seq<Dist>, closed: seq<int>, open: set<int>) {
    forall v :: v in open <==> 0 <= v < |g| && g[v].Fin? && v !in closed
  }

  /** Every successor of a closed index other than `cur` has been reached. */
  ghost predicate ExpandedBut(succ: int -> seq<int>, g: seq<Dist>, closed: seq<int>, cur: int)
  {
    forall c :: c in closed && c != cur ==> forall n :: n in succ(c) ==> 0 <= n < |g| && g[n].Fin?
  }

  ghost predicate Common(succ: int -> seq<int>, start: int, goal: int, g: seq<Dist>, parent: seq<int>,
                         closed: seq<int>, open: set<int>)
  {
    && Shape(start, g, parent)
    && g[start] == Fin(0) && parent[start] == start
    && UnseenSelf(g, parent)
    && ParentLinks(succ, start, g, parent, closed)
    && ClosedReached(goal, g, closed)
    && OpenFrontier(g, closed, open)
  }

  /** The invariant of the `while` loop of `Astar`. */
  ghost predicate SearchInv(succ: int -> seq<int>, start: int, goal: int, g: seq<Dist>, parent: seq<int>,
                            closed: seq<int>, open: set<int>)
  {
    && Common(succ, start, goal, g, parent, closed, open)
    && ExpandedBut(succ, g, closed, -1)
  }

  /** The invariant of the neighbour loop while `cur` is expanded: its successors in
      `done` have been reached. */
  ghost predicate ExpandInv(succ: int -> seq<int>, start: int, goal: int, g: seq<Dist>, parent: seq<int>,
                            closed: seq<int>, open: set<int>, cur: int, done: seq<int>)
  {
    && Common(succ, start, goal, g, parent, closed, open)
    && ExpandedBut(succ, g, closed, cur)
    && cur in closed
    && forall n :: n in done ==> 0 <= n < |g| && g[n].Fin?
  }

  /** The arrays as `Astar` initialises them, with only `start` in the open set. */
  lemma InitEstablishes(succ: int -> seq<int>, start: int, goal: int, g: seq<Dist>, parent: seq<int>)
    requires |parent| == |g| && 0 <= start < |g|
    requires forall v :: 0 <= v < |g| ==> g[v] == (if v == start then Fin(0) else Inf)
    requires forall v :: 0 <= v < |g| ==> parent[v] == v
    ensures SearchInv(succ, start, goal, g, parent, [], {start})
  {
  }

  /** Popping `cur` (not the goal) and appending it to `closed_set` starts its expansion. */
  lemma CloseStep(succ: int -> seq<int>, start: int, goal: int, g: seq<Dist>, parent: seq<int>,
                  closed: seq<int>, open: set<int>, cur: int)
    requires SearchInv(succ, start, goal, g, parent, closed, open)
    requires cur in open && cur != goal
    ensures ExpandInv(succ, start, goal, g, parent, closed + [cur], open - {cur}, cur, [])
  {
    var closed' := closed + [cur];
    assert forall v :: v in closed' <==> v in closed || v == cur;
    assert ClosedReached(goal, g, closed') by {
      forall i | 0 <= i < |closed'|
        ensures 0 <= closed'[i] < |g| && g[closed'[i]].Fin? && closed'[i] != goal
      {
        if i < |closed| {
          assert closed'[i] == closed[i];
        }
      }
    }
  }

  /** Relaxing `n` from the closed index `cur` keeps every parent link sound. */
  lemma RelaxKeepsLinks(succ: int -> seq<int>, start: int, g: seq<Dist>, parent: seq<int>,
                        closed: seq<int>, cur: int, n: int)
    requires |parent| == |g|
    requires ParentLinks(succ, start, g, parent, closed)
    requires 0 <= cur < |g| && cur in closed && g[cur].Fin?
    requires n in succ(cur) && n !in closed && 0 <= n < |g| && n != start
    ensures ParentLinks(succ, start, g[n := Fin(g[cur].n + 1)], parent[n := cur], closed)
  {
    var g', parent' := g[n := Fin(g[cur].n + 1)], parent[n := cur];
    forall v | 0 <= v < |g'| && v != start && g'[v].Fin?
      ensures 0 <= parent'[v] < |g'| && parent'[v] in closed
      ensures g'[parent'[v]].Fin? && g'[parent'[v]].n + 1 == g'[v].n
      ensures v in succ(parent'[v])
    {
      if v != n {
        assert parent'[v] == parent[v];
        assert g'[parent[v]] == g[parent[v]];
      }
    }
  }

  /** Relaxing `n` changes no `g` of a closed index. */
  lemma RelaxKeepsClosed(goal: int, g: seq<Dist>, closed: seq<int>, n: int, d: nat)
    requires ClosedReached(goal, g, closed)
    requires n !in closed && 0 <= n < |g|
    ensures ClosedReached(goal, g[n := Fin(d)], closed)
  {
    forall i | 0 <= i < |closed|
      ensures 0 <= closed[i] < |g| && g[n := Fin(d)][closed[i]].Fin? && closed[i] != goal
    {
      assert closed[i] != n;
    }
  }

  /** Relaxing `n` and inserting it keeps the open set equal to the reached, unclosed indices. */
  lemma RelaxKeepsFrontier(g: seq<Dist>, closed: seq<int>, open: set<int>, n: int, d: nat)
    requires OpenFrontier(g, closed, open)
    requires n !in closed && 0 <= n < |g|
    ensures OpenFrontier(g[n := Fin(d)], closed, open + {n})
  {
  }

  /** Relaxing only ever turns an `Inf` into a finite `g`, so reached indices stay reached. */
  lemma RelaxKeepsExpanded(succ: int -> seq<int>, g: seq<Dist>, closed: seq<int>, cur: int,
                           done: seq<int>, n: int, d: nat)
    requires ExpandedBut(succ, g, closed, cur)
    requires forall k :: k in done ==> 0 <= k < |g| && g[k].Fin?
    requires 0 <= n < |g|
    ensures ExpandedBut(succ, g[n := Fin(d)], closed, cur)
    ensures forall k :: k in done + [n] ==> 0 <= k < |g| && g[n := Fin(d)][k].Fin?
  {
    var g' := g[n := Fin(d)];
    assert forall k :: 0 <= k < |g| && g[k].Fin? ==> g'[k].Fin?;
  }

  /** Relaxing successor `n` of `cur` (not closed, `g[n] >= g[cur] + 1`): `parent[n]`
      becomes `cur`, `g[n]` becomes `g[cur] + 1`, and `n` is (re)inserted. The closed
      indices are left alone. */
  lemma RelaxStep(succ: int -> seq<int>, start: int, goal: int, g: seq<Dist>, parent: seq<int>,
                  closed: seq<int>, open: set<int>, cur: int, done: seq<int>, n: int)
    requires ExpandInv(succ, start, goal, g, parent, closed, open, cur, done)
    requires n in succ(cur) && n !in closed && 0 <= n < |g|
    requires AtLeast(g[n], g[cur].n + 1)
    ensures n != start
    ensures ExpandInv(succ, start, goal, g[n := Fin(g[cur].n + 1)], parent[n := cur],
                      closed, open + {n}, cur, done + [n])
  {
    assert 0 <= cur < |g| && g[cur].Fin?;
    var d := g[cur].n + 1;
    RelaxKeepsLinks(succ, start, g, parent, closed, cur, n);
    RelaxKeepsClosed(goal, g, closed, n, d);
    RelaxKeepsFrontier(g, closed, open, n, d);
    RelaxKeepsExpanded(succ, g, closed, cur, done, n, d);
  }

  /** A successor that is closed, or whose `g` is already below `g[cur] + 1`, is skipped;
      it has been reached either way. */
  lemma SkipStep(succ: int -> seq<int>, start: int, goal: int, g: seq<Dist>, parent: seq<int>,
                 closed: seq<int>, open: set<int>, cur: int, done: seq<int>, n: int)
    requires ExpandInv(succ, start, goal, g, parent, closed, open, cur, done)
    requires 0 <= n < |g|
    requires n in closed || !AtLeast(g[n], g[cur].n + 1)
    ensures ExpandInv(succ, start, goal, g, parent, closed, open, cur, done + [n])
  {
    if n in closed {
      var i :| 0 <= i < |closed| && closed[i] == n;
    }
  }

  /** Once every successor of `cur` has been processed, the loop invariant holds again. */
  lemma ExpandDone(succ: int -> seq<int>, start: int, goal: int, g: seq<Dist>, parent: seq<int>,
                   closed: seq<int>, open: set<int>, cur: int)
    requires ExpandInv(succ, start, goal, g, parent, closed, open, cur, succ(cur))
    ensures SearchInv(succ, start, goal, g, parent, closed, open)
  {
  }

  /** When the open set runs empty, the closed indices contain `start`, are closed under
      `Succ` and exclude the goal: no walk from `start` reaches `goal`. */
  lemma ExhaustedUnreachable(succ: int -> seq<int>, start: int, goal: int, g: seq<Dist>, parent: seq<int>,
                             closed: seq<int>)
    requires SearchInv(succ, start, goal, g, parent, closed, {})
    ensures forall w :: IsWalk(succ, w) && |w| > 0 && w[0] == start ==> w[|w| - 1] != goal
  {
    assert start in closed;
    forall c | c in closed
      ensures forall n :: n in succ(c) ==> n in closed
    {
      assert forall n :: n in succ(c) ==> 0 <= n < |g| && g[n].Fin?;
    }
    forall w | IsWalk(succ, w) && |w| > 0 && w[0] == start
      ensures w[|w| - 1] != goal
    {
      WalkStaysInside(succ, closed, w);
    }
  }

  /** A reached index has a parent chain that `compute_path` can follow. */
  lemma ReachedHasChain(succ: int -> seq<int>, start: int, goal: int, g: seq<Dist>, parent: seq<int>,
                        closed: seq<int>, open: set<int>)
    requires SearchInv(succ, start, goal, g, parent, closed, open)
    ensures ParentChain(start, g, parent)
  {
  }

  /** The indices not closed yet; the set shrinks with every expansion. */
  function Unclosed(size: int, closed: seq<int>): set<int> {
    set i | 0 <= i < size && i !in closed
  }

  lemma CloseShrinks(size: int, closed: seq<int>, cur: int)
    requires 0 <= cur < size && cur !in closed
    ensures Unclosed(size, closed + [cur]) < Unclosed(size, closed)
  {
    assert cur in Unclosed(size, closed);
  }

  /** A path that follows the parent links of the search state follows edges of the graph. */
  lemma PathFollowsEdges(succ: int -> seq<int>, start: int, goal: int, g: seq<Dist>, parent: seq<int>,
                         closed: seq<int>, open: set<int>, path: seq<int>)
    requires SearchInv(succ, start, goal, g, parent, closed, open)
    requires forall k :: 0 <= k < |path| ==> 0 <= path[k] < |g| && g[path[k]].Fin?
    requires forall k :: 0 <= k < |path| - 1 ==> path[k] != start && path[k + 1] == parent[path[k]]
    ensures forall k :: 1 <= k < |path| ==> path[k - 1] in succ(path[k])
  {
    forall k | 1 <= k < |path|
      ensures path[k - 1] in succ(path[k])
    {
      assert path[k] == parent[path[k - 1]];
    }
  }
}

/** `Astar_4D.py`: weighted A* over the `Maze4D` state graph with unit edge costs, a
    closed list and the lazy-deletion priority queue, plus the parent-walk that turns the
    search result into a path. */
module Astar4D {
  import opened Wrappers
  import opened Mazes
  import opened PriorityQueues
  import opened SearchInvariant

  /** The Manhattan branch of `compute_heuristic`: the L1 distance between the positions,
      divided by the speed when the state moves. `speed` stands for the square root the
      source takes of `vx*vx + vy*vy`; the model relies only on its being non-negative and
      zero exactly for the zero velocity. */
  function ManhattanHeuristic(s: State4, goal: State4, speed: real): (h: real)
    requires speed >= 0.0 && (speed == 0.0 <==> s.vx == 0 && s.vy == 0)
    ensures h >= 0.0
    ensures s.vx == 0 && s.vy == 0 ==> h == (Abs(goal.x - s.x) + Abs(goal.y - s.y)) as real
    ensures h == 0.0 <==> s.x == goal.x && s.y == goal.y
  {
    var l1 := Abs(goal.x - s.x) + Abs(goal.y - s.y);
    if speed != 0.0 then (l1 as real) / speed else l1 as real
  }

  // ---------------------------------------------------------------------------
  // The state graph
  // ---------------------------------------------------------------------------

  /** The successors of index `u`: what `Maze4D.get_neighbors(u)` returns. */
  function Succ(m4: Maze4, u: int): seq<int>
    requires WellFormed(m4.maze)
  {
    Successors4(m4, State4Of(m4, u), Deltas4)
  }

  /** The state graph of the maze as a successor function. */
  function Graph(m4: Maze4): int -> seq<int>
    requires WellFormed(m4.maze)
  {
    u => Succ(m4, u)
  }

  /** Every successor is an index of the arrays `Astar` allocates. */
  lemma SuccInRange(m4: Maze4, u: int)
    requires WellFormed(m4.maze)
    ensures InRange(Succ(m4, u), MapSize(m4))
  {
    var ns := Succ(m4, u);
    Neighbors4Correct(m4, u);
    forall j | 0 <= j < |ns|
      ensures 0 <= ns[j] < MapSize(m4)
    {
      assert ns[j] in ns;
    }
  }

  /** Following edges of `Graph(m4)` is following `Succ`. */
  lemma EdgesOfGraph(m4: Maze4, path: seq<int>)
    requires WellFormed(m4.maze)
    requires forall k :: 1 <= k < |path| ==> path[k - 1] in Graph(m4)(path[k])
    ensures forall k :: 1 <= k < |path| ==> path[k - 1] in Succ(m4, path[k])
  {
  }

  // ---------------------------------------------------------------------------
  // compute_path
  // ---------------------------------------------------------------------------

  /** `compute_path`: follow `parent` from `goal` until `start`. The list starts at
      `goal`, ends at `start`, each element after the first is the parent of the one
      before, and it holds `g[goal] + 1` indices. */
  method ComputePath(start: int, goal: int, parent: seq<int>, ghost g: seq<Dist>)
    returns (path: seq<int>)
    requires ParentChain(start, g, parent)
    requires 0 <= start < |g| && g[start] == Fin(0)
    requires 0 <= goal < |g| && g[goal].Fin?
    ensures |path| == g[goal].n + 1
    ensures path[0] == goal && path[|path| - 1] == start
    ensures start == goal ==> path == [goal]
    ensures forall k :: 0 <= k < |path| ==> 0 <= path[k] < |g| && g[path[k]].Fin?
    ensures forall k :: 0 <= k < |path| - 1 ==> path[k] != start && path[k + 1] == parent[path[k]]
  {
    path := [goal];
    var node := goal;
    while node != start
      invariant 0 <= node < |g| && g[node].Fin?
      invariant |path| + g[node].n == g[goal].n + 1
      invariant path[0] == goal && path[|path| - 1] == node
      invariant forall k :: 0 <= k < |path| ==> 0 <= path[k] < |g| && g[path[k]].Fin?
      invariant forall k :: 0 <= k < |path| - 1 ==> path[k] != start && path[k + 1] == parent[path[k]]
      decreases g[node].n
    {
      node := parent[node];
      path := path + [node];
    }
  }

  // ---------------------------------------------------------------------------
  // Astar
  // ---------------------------------------------------------------------------

  /** `Astar(maze, start, goal, heuristic, epsilon)`. The heuristic is the function `h` of
      a state and the goal state. A returned path runs from `goal` back to `start`, each
      index a successor of the next; `None` (the open set ran empty) means no walk from
      `start` reaches `goal`. */
  method Astar(m4: Maze4, start: int, goal: int, h: (State4, State4) -> real, epsilon: real)
    returns (result: Option<seq<int>>)
    requires WellFormed(m4.maze)
    requires 0 <= start < MapSize(m4)
    ensures result.Some? ==>
      var path := result.value;
      && |path| > 0 && path[0] == goal && path[|path| - 1] == start
      && forall k :: 1 <= k < |path| ==> path[k - 1] in Succ(m4, path[k])
    ensures result.Some? && start == goal ==> result.value == [goal]
    ensures result.None? ==>
      forall w :: IsWalk(Graph(m4), w) && |w| > 0 && w[0] == start ==> w[|w| - 1] != goal
  {
    ghost var succ := Graph(m4);
    var closedSet: seq<int> := [];
    var openSet, gValue, parent := InitSearch(m4, succ, start, goal);
    ghost var open := openSet.entryFinder.Keys;
    while openSet.Len() != 0
      invariant openSet.Valid() && open == openSet.entryFinder.Keys
      invariant |gValue| == MapSize(m4)
      invariant SearchInv(succ, start, goal, gValue, parent, closedSet, open)
      decreases Unclosed(|gValue|, closedSet)
    {
      var popped := openSet.Pop();
      var currentIndex := popped.value;
      if currentIndex == goal {
        var path := PathToGoal(m4, succ, start, goal, gValue, parent, closedSet, open);
        return Some(path);
      }
      CloseShrinks(|gValue|, closedSet, currentIndex);
      gValue, parent, closedSet := CloseAndExpand(m4, succ, start, goal, h, epsilon, gValue, parent,
                                                  openSet, open, closedSet, currentIndex);
      open := openSet.entryFinder.Keys;
    }
    ExhaustedUnreachable(succ, start, goal, gValue, parent, closedSet);
    return None;
  }

  /** The branch of `Astar` that pops `goal`: `compute_path` over the parent links, a
      path that follows edges of the maze back to `start`. */
  method PathToGoal(m4: Maze4, ghost succ: int -> seq<int>, start: int, goal: int,
                      gValue: seq<Dist>, parent: seq<int>, ghost closedSet: seq<int>, ghost open: set<int>)
    returns (path: seq<int>)
    requires WellFormed(m4.maze) && succ == Graph(m4)
    requires SearchInv(succ, start, goal, gValue, parent, closedSet, open) && goal in open
    ensures |path| > 0 && path[0] == goal && path[|path| - 1] == start
    ensures forall k :: 1 <= k < |path| ==> path[k - 1] in Succ(m4, path[k])
    ensures start == goal ==> path == [goal]
  {
    ReachedHasChain(succ, start, goal, gValue, parent, closedSet, open);
    path := ComputePath(start, goal, parent, gValue);
    PathFollowsEdges(succ, start, goal, gValue, parent, closedSet, open, path);
    EdgesOfGraph(m4, path);
  }

  /** The start of `Astar`: the open set holds `start` with priority 0; `g_value` is
      infinite and `parent` the identity except at `start`, where `g` is 0 and `start` is
      its own parent. */
  method InitSearch(m4: Maze4, ghost succ: int -> seq<int>, start: int, ghost goal: int)
    returns (openSet: PriorityQueue<int>, gValue: seq<Dist>, parent: seq<int>)
    requires WellFormed(m4.maze)
    requires 0 <= start < MapSize(m4)
    ensures fresh(openSet) && openSet.Valid() && openSet.entryFinder.Keys == {start}
    ensures openSet.entryFinder[start].priority == 0.0
    ensures |gValue| == MapSize(m4) && |parent| == MapSize(m4)
    ensures forall v :: 0 <= v < |gValue| ==> gValue[v] == (if v == start then Fin(0) else Inf)
    ensures forall v :: 0 <= v < |parent| ==> parent[v] == v
    ensures SearchInv(succ, start, goal, gValue, parent, [], {start})
  {
    var mapSize := MapSize(m4);
    openSet := new PriorityQueue<int>();
    openSet.Insert(start, 0.0);
    parent := seq(mapSize, x => x);
    gValue := seq(mapSize, i => Inf);
    gValue := gValue[start := Fin(0)];
    parent := parent[start := start];
    InitEstablishes(succ, start, goal, gValue, parent);
  }

  /** The priority `Astar` inserts index `n` with once `g_value[n]` becomes `d`:
      `d + epsilon * heuristic(state(n), state(goal))`. */
  function FValue(m4: Maze4, h: (State4, State4) -> real, epsilon: real, goal: int, n: int, d: nat): real
    requires WellFormed(m4.maze)
  {
    d as real + epsilon * h(State4Of(m4, n), State4Of(m4, goal))
  }

  /** Neighbour `n` of `cur` is relaxed: it is not closed and `g[n] >= g[cur] + 1`. */
  ghost predicate Improves(closed: seq<int>, g: seq<Dist>, cur: int, n: int)
    requires 0 <= cur < |g| && g[cur].Fin? && 0 <= n < |g|
  {
    n !in closed && AtLeast(g[n], g[cur].n + 1)
  }

  /** The rest of the loop body of `Astar` for a popped `current` that is not the goal:
      append it to `closed_set`, then process the neighbours `maze.get_neighbors` gives.
      Each neighbour that is relaxed gets `g = g[current] + 1` and is inserted with
      priority `g + epsilon * h`; every other index keeps its `g` and its entry. */
  method CloseAndExpand(m4: Maze4, ghost succ: int -> seq<int>, start: int, goal: int,
                        h: (State4, State4) -> real, epsilon: real,
                        g0: seq<Dist>, parent0: seq<int>, openSet: PriorityQueue<int>, ghost open0: set<int>,
                        closed0: seq<int>, currentIndex: int)
    returns (gValue: seq<Dist>, parent: seq<int>, closedSet: seq<int>)
    requires WellFormed(m4.maze) && succ == Graph(m4) && |g0| == MapSize(m4)
    requires SearchInv(succ, start, goal, g0, parent0, closed0, open0)
    requires currentIndex in open0 && currentIndex != goal
    requires openSet.Valid() && openSet.entryFinder.Keys == open0 - {currentIndex}
    modifies openSet
    ensures openSet.Valid() && |gValue| == |g0| && closedSet == closed0 + [currentIndex]
    ensures SearchInv(succ, start, goal, gValue, parent, closedSet, openSet.entryFinder.Keys)
    ensures Recorded(m4, h, epsilon, goal, closedSet, g0, currentIndex, Succ(m4, currentIndex), gValue,
                     old(openSet.entryFinder), openSet.entryFinder)
  {
    CloseStep(succ, start, goal, g0, parent0, closed0, open0, currentIndex);
    closedSet := closed0 + [currentIndex];
    var neighbours := GetNeighbors4(m4, currentIndex);
    SuccInRange(m4, currentIndex);
    gValue, parent := ExpandNode(m4, succ, start, goal, h, epsilon, g0, parent0, openSet,
                                 open0 - {currentIndex}, closedSet, currentIndex, neighbours);
    ExpandDone(succ, start, goal, gValue, parent, closedSet, openSet.entryFinder.Keys, currentIndex);
  }

  /** The `for neighbour in maze.get_neighbors(current_index)` loop of `Astar`: skip
      closed neighbours; relax the others when `g[neighbour] >= g[current] + 1`, making
      `current` their parent and inserting them with priority `g + epsilon * h`. */
  method ExpandNode(m4: Maze4, ghost succ: int -> seq<int>, start: int, goal: int,
                    h: (State4, State4) -> real, epsilon: real,
                    g0: seq<Dist>, parent0: seq<int>, openSet: PriorityQueue<int>, ghost open0: set<int>,
                    closedSet: seq<int>, currentIndex: int, neighbours: seq<int>)
    returns (gValue: seq<Dist>, parent: seq<int>)
    requires WellFormed(m4.maze) && openSet.Valid() && open0 == openSet.entryFinder.Keys
    requires neighbours == succ(currentIndex) && InRange(neighbours, |g0|)
    requires ExpandInv(succ, start, goal, g0, parent0, closedSet, open0, currentIndex, [])
    modifies openSet
    ensures openSet.Valid() && |gValue| == |g0|
    ensures ExpandInv(succ, start, goal, gValue, parent, closedSet, openSet.entryFinder.Keys,
                      currentIndex, neighbours)
    ensures Recorded(m4, h, epsilon, goal, closedSet, g0, currentIndex, neighbours, gValue,
                     old(openSet.entryFinder), openSet.entryFinder)
  {
    gValue, parent := g0, parent0;
    ghost var open := open0;
    ghost var entries0 := openSet.entryFinder;
    RecordedInit(m4, h, epsilon, goal, closedSet, g0, currentIndex, entries0);
    for k := 0 to |neighbours|
      invariant openSet.Valid() && open == openSet.entryFinder.Keys && |gValue| == |g0|
      invariant ExpandInv(succ, start, goal, gValue, parent, closedSet, open, currentIndex, neighbours[..k])
      invariant Recorded(m4, h, epsilon, goal, closedSet, g0, currentIndex, neighbours[..k],
                         gValue, entries0, openSet.entryFinder)
    {
      assert neighbours[..k + 1] == neighbours[..k] + [neighbours[k]];
      gValue, parent, open := VisitAndInsert(m4, succ, start, goal, h, epsilon, g0, closedSet, currentIndex,
                                             neighbours[..k], neighbours[k], gValue, parent, openSet, open,
                                             entries0);
    }
    assert neighbours[..|neighbours|] == neighbours;
  }

  /** One pass of the neighbour loop of `Astar` for `neighbour`, after the neighbours
      `done`: visit it, and when it is relaxed insert it into the open set with priority
      `g[neighbour] + epsilon * h`. `g0` is `g_value` before the loop, `entries0` the open
      set's entries then. */
  method VisitAndInsert(m4: Maze4, ghost succ: int -> seq<int>, start: int, goal: int,
                        h: (State4, State4) -> real, epsilon: real, g0: seq<Dist>,
                        closedSet: seq<int>, currentIndex: int, ghost done: seq<int>, neighbour: int,
                        g: seq<Dist>, parent0: seq<int>, openSet: PriorityQueue<int>, ghost open0: set<int>,
                        ghost entries0: map<int, Entry<int>>)
    returns (gValue: seq<Dist>, parent: seq<int>, ghost open: set<int>)
    requires WellFormed(m4.maze) && openSet.Valid() && open0 == openSet.entryFinder.Keys
    requires 0 <= currentIndex < |g0| && g0[currentIndex].Fin? && |g| == |g0|
    requires neighbour in succ(currentIndex) && 0 <= neighbour < |g0|
    requires ExpandInv(succ, start, goal, g, parent0, closedSet, open0, currentIndex, done)
    requires Recorded(m4, h, epsilon, goal, closedSet, g0, currentIndex, done, g, entries0, openSet.entryFinder)
    modifies openSet
    ensures openSet.Valid() && open == openSet.entryFinder.Keys && |gValue| == |g0|
    ensures ExpandInv(succ, start, goal, gValue, parent, closedSet, open, currentIndex, done + [neighbour])
    ensures Recorded(m4, h, epsilon, goal, closedSet, g0, currentIndex, done + [neighbour],
                     gValue, entries0, openSet.entryFinder)
  {
    var relaxed;
    gValue, parent, relaxed := VisitNeighbour(succ, start, goal, g, parent0, closedSet, open0,
                                              currentIndex, done, neighbour);
    open := if relaxed then open0 + {neighbour} else open0;
    RecordNeighbour(m4, h, epsilon, goal, closedSet, g0, currentIndex, done, neighbour, g, gValue,
                    relaxed, openSet, entries0);
  }

  /** The open-set side of one pass of the neighbour loop: a relaxed neighbour `n`, whose
      `g_value` went from `g[n]` to `g'[n]`, is inserted with priority `g'[n] + epsilon * h`
      (replacing any entry it had); a skipped one leaves the open set alone. */
  method RecordNeighbour(m4: Maze4, h: (State4, State4) -> real, epsilon: real, goal: int,
                         closedSet: seq<int>, g0: seq<Dist>, currentIndex: int, ghost done: seq<int>,
                         n: int, ghost g: seq<Dist>, g': seq<Dist>, relaxed: bool,
                         openSet: PriorityQueue<int>, ghost entries0: map<int, Entry<int>>)
    requires WellFormed(m4.maze) && openSet.Valid()
    requires 0 <= currentIndex < |g0| && g0[currentIndex].Fin? && currentIndex in closedSet
    requires 0 <= n < |g0| && |g'| == |g0|
    requires Recorded(m4, h, epsilon, goal, closedSet, g0, currentIndex, done, g, entries0, openSet.entryFinder)
    requires relaxed <==> n !in closedSet && AtLeast(g[n], g[currentIndex].n + 1)
    requires relaxed ==> g' == g[n := Fin(g[currentIndex].n + 1)]
    requires !relaxed ==> g' == g
    modifies openSet
    ensures openSet.Valid()
    ensures openSet.entryFinder.Keys == if relaxed then old(openSet.entryFinder.Keys) + {n}
                                        else old(openSet.entryFinder.Keys)
    ensures Recorded(m4, h, epsilon, goal, closedSet, g0, currentIndex, done + [n], g', entries0,
                     openSet.entryFinder)
  {
    ghost var entriesBefore := openSet.entryFinder;
    ghost var entry := Entry(0.0, 0, Removed);
    if relaxed {
      entry := Entry(FValue(m4, h, epsilon, goal, n, g'[n].n), openSet.counter, Live(n));
      InsertNeighbour(m4, h, epsilon, goal, openSet, n, g'[n].n);
    }
    RecordedStep(m4, h, epsilon, goal, closedSet, g0, currentIndex, done, n,
                 g, g', entries0, entriesBefore, openSet.entryFinder, entry, relaxed);
  }

  /** The insertion of a relaxed neighbour `n` whose `g_value` is now `d`: its `f_value`
      is `d + epsilon * heuristic`, and `n` is inserted into the open set with that
      priority, replacing any entry it had. */
  method InsertNeighbour(m4: Maze4, h: (State4, State4) -> real, epsilon: real, goal: int,
                         openSet: PriorityQueue<int>, n: int, d: nat)
    requires WellFormed(m4.maze) && openSet.Valid()
    modifies openSet
    ensures openSet.Valid()
    ensures openSet.entryFinder
         == old(openSet.entryFinder)[n := Entry(FValue(m4, h, epsilon, goal, n, d), old(openSet.counter), Live(n))]
  {
    var fValue := FValue(m4, h, epsilon, goal, n, d);
    openSet.Insert(n, fValue);
  }

  /** What the neighbour loop has done to `g_value` and to the open set's entries after
      visiting the neighbours `done`: every relaxed neighbour has `g = g[cur] + 1` and an
      entry with priority `FValue`; every other index keeps its `g` and its entry. */
  ghost predicate Recorded(m4: Maze4, h: (State4, State4) -> real, epsilon: real, goal: int,
                           closed: seq<int>, g0: seq<Dist>, cur: int, done: seq<int>, g: seq<Dist>,
                           entries0: map<int, Entry<int>>, entries: map<int, Entry<int>>)
    requires WellFormed(m4.maze) && 0 <= cur < |g0| && g0[cur].Fin?
  {
    && |g| == |g0|
    && (forall n :: n in done && 0 <= n < |g0| && Improves(closed, g0, cur, n) ==>
          && g[n] == Fin(g0[cur].n + 1) && n in entries
          && entries[n].priority == FValue(m4, h, epsilon, goal, n, g0[cur].n + 1))
    && (forall n :: 0 <= n < |g0| && !(n in done && Improves(closed, g0, cur, n)) ==> g[n] == g0[n])
    && (forall n :: n in entries0 && !(n in done && 0 <= n < |g0| && Improves(closed, g0, cur, n)) ==>
          n in entries && entries[n] == entries0[n])
  }

  /** Before the neighbour loop nothing is recorded. */
  lemma RecordedInit(m4: Maze4, h: (State4, State4) -> real, epsilon: real, goal: int,
                     closed: seq<int>, g0: seq<Dist>, cur: int, entries0: map<int, Entry<int>>)
    requires WellFormed(m4.maze) && 0 <= cur < |g0| && g0[cur].Fin?
    ensures Recorded(m4, h, epsilon, goal, closed, g0, cur, [], g0, entries0, entries0)
  {
  }

  /** One pass of the neighbour loop for `n`: a relaxation sets `g[n] = g[cur] + 1` and
      inserts `n` with priority `FValue`, a skip changes nothing. Visiting `n` again
      relaxes it to the same `g` and the same priority. */
  lemma RecordedStep(m4: Maze4, h: (State4, State4) -> real, epsilon: real, goal: int,
                     closed: seq<int>, g0: seq<Dist>, cur: int, done: seq<int>, n: int,
                     g: seq<Dist>, g': seq<Dist>, entries0: map<int, Entry<int>>,
                     entries: map<int, Entry<int>>, entries': map<int, Entry<int>>, entry: Entry<int>,
                     relaxed: bool)
    requires WellFormed(m4.maze) && 0 <= cur < |g0| && g0[cur].Fin? && cur in closed
    requires 0 <= n < |g0|
    requires Recorded(m4, h, epsilon, goal, closed, g0, cur, done, g, entries0, entries)
    requires relaxed <==> n !in closed && AtLeast(g[n], g[cur].n + 1)
    requires relaxed ==> g' == g[n := Fin(g[cur].n + 1)]
    requires relaxed ==> entries' == entries[n := entry] && entry.priority == FValue(m4, h, epsilon, goal, n, g'[n].n)
    requires !relaxed ==> g' == g && entries' == entries
    ensures Recorded(m4, h, epsilon, goal, closed, g0, cur, done + [n], g', entries0, entries')
  {
    assert g[cur] == g0[cur];
    assert forall m :: m in done + [n] <==> m in done || m == n;
  }

  /** One pass of that loop, for the successor `neighbour` of `current`: a closed
      neighbour is skipped; otherwise, when `g[neighbour] >= g[current] + 1`, the
      neighbour gets `current` as parent and `g[current] + 1` as `g`, and `relaxed`
      tells the caller to insert it into the open set. */
  method VisitNeighbour(ghost succ: int -> seq<int>, start: int, goal: int, g0: seq<Dist>, parent0: seq<int>,
                        closedSet: seq<int>, ghost open: set<int>, currentIndex: int,
                        ghost done: seq<int>, neighbour: int)
    returns (gValue: seq<Dist>, parent: seq<int>, relaxed: bool)
    requires neighbour in succ(currentIndex) && 0 <= neighbour < |g0|
    requires ExpandInv(succ, start, goal, g0, parent0, closedSet, open, currentIndex, done)
    ensures ExpandInv(succ, start, goal, gValue, parent, closedSet,
                      if relaxed then open + {neighbour} else open, currentIndex, done + [neighbour])
    ensures relaxed <==> neighbour !in closedSet && AtLeast(g0[neighbour], g0[currentIndex].n + 1)
    ensures relaxed ==> neighbour != start && gValue == g0[neighbour := Fin(g0[currentIndex].n + 1)]
                        && parent == parent0[neighbour := currentIndex]
    ensures !relaxed ==> gValue == g0 && parent == parent0
  {
    gValue, parent, relaxed := g0, parent0, false;
    if neighbour in closedSet {
      SkipStep(succ, start, goal, gValue, parent, closedSet, open, currentIndex, done, neighbour);
      return;
    }
    var gValueCurrent := gValue[currentIndex].n + 1;
    if AtLeast(gValue[neighbour], gValueCurrent) {
      RelaxStep(succ, start, goal, gValue, parent, closedSet, open, currentIndex, done, neighbour);
      parent := parent[neighbour := currentIndex];
      gValue := gValue[neighbour := Fin(gValueCurrent)];
      relaxed := true;
    } else {
      SkipStep(succ, start, goal, gValue, parent, closedSet, open, currentIndex, done, neighbour);
    }
  }
}
