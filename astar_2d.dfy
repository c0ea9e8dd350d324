/** The bookkeeping shared by the grid searches of `scripts/Astar2D.py` and
    `scripts/Dijkstra.py`: the `g` and `PARENT` dictionaries, the `OPEN` heap and the
    `CLOSED` list, the invariant they keep while the search runs, and the one-step lemmas
    that re-establish it. Everything is stated for any successor function `succ` on cells;
    the searches bind it to the collision-free neighbours of a cell. */
module GridSearch {
  import SearchInvariant

  /** A heap item `(priority, cell)`. */
  datatype OpenEntry<V> = OpenEntry(f: real, cell: V)

  /** The cells that have an item in the heap. */
  function Cells<V>(open: seq<OpenEntry<V>>): set<V> {
    set e | e in open :: e.cell
  }

  // ---------------------------------------------------------------------------
  // The invariant of the search loop
  // ---------------------------------------------------------------------------

  /** `g` and `PARENT` have the same keys (a `g` of `float('inf')` is an absent key);
      `start` is its own parent with cost 0; costs are non-negative; parents are keys. */
  ghost predicate Rooted<V>(start: V, g: map<V, real>, parent: map<V, V>) {
    && start in parent && parent[start] == start
    && (forall v :: v in g ==> v in parent) && (forall v :: v in parent ==> v in g)
    && start in g && g[start] == 0.0
    && (forall v :: v in g ==> g[v] >= 0.0)
    && (forall v {:trigger parent[v]} :: v in parent ==> parent[v] in parent)
  }

  /** Every reached cell other than `start` is a successor of its parent, and strictly
      more costly to reach than its parent. */
  ghost predicate Links<V>(succ: V -> seq<V>, start: V, g: map<V, real>, parent: map<V, V>) {
    forall v {:trigger parent[v]} :: v in parent && v != start ==>
      && v in succ(parent[v]) && v in g && parent[v] in g
      && g[parent[v]] < g[v]
  }

  /** Heap items and closed cells have been reached, so `g[s]` exists when `s` is popped. */
  ghost predicate Tracked<V>(g: map<V, real>, open: seq<OpenEntry<V>>, closed: seq<V>) {
    && (forall e :: e in open ==> e.cell in g)
    && (forall c :: c in closed ==> c in g)
  }

  /** Every reached cell is closed or still has an item in the heap. */
  ghost predicate Pending<V>(parent: map<V, V>, open: seq<OpenEntry<V>>, closed: seq<V>) {
    forall v :: v in parent ==> v in closed || v in Cells(open)
  }

  /** Every successor of a closed cell other than `cur` has been reached. */
  ghost predicate ExpandedBut<V>(succ: V -> seq<V>, parent: map<V, V>, closed: seq<V>, cur: V) {
    forall c :: c in closed && c != cur ==> forall n :: n in succ(c) ==> n in parent
  }

  /** `CLOSED` starts with `start` (the only cell in the heap before the first pop) and
      does not hold the goal. */
  ghost predicate Opening<V>(start: V, goal: V, open: seq<OpenEntry<V>>, closed: seq<V>) {
    && goal !in closed
    && (closed == [] ==> open != [] && forall e :: e in open ==> e.cell == start)
    && (closed != [] ==> closed[0] == start)
  }

  ghost predicate Common<V>(succ: V -> seq<V>, start: V, goal: V, g: map<V, real>,
                         parent: map<V, V>, open: seq<OpenEntry<V>>, closed: seq<V>)
  {
    && Rooted(start, g, parent)
    && Links(succ, start, g, parent)
    && Tracked(g, open, closed)
    && Pending(parent, open, closed)
    && Opening(start, goal, open, closed)
  }

  /** The invariant of the `while OPEN` loop: on top of `Common`, every closed cell has
      been expanded. */
  ghost predicate SearchInv<V>(succ: V -> seq<V>, start: V, goal: V, g: map<V, real>,
                            parent: map<V, V>, open: seq<OpenEntry<V>>, closed: seq<V>)
  {
    && Common(succ, start, goal, g, parent, open, closed)
    && forall c :: c in closed ==> forall n :: n in succ(c) ==> n in parent
  }

  /** The invariant of the neighbour loop while `cur` is expanded: the first `j` of its
      successors have been reached. */
  ghost predicate ExpandInv<V>(succ: V -> seq<V>, start: V, goal: V, g: map<V, real>,
                            parent: map<V, V>, open: seq<OpenEntry<V>>, closed: seq<V>,
                            cur: V, j: nat)
  {
    && Common(succ, start, goal, g, parent, open, closed)
    && ExpandedBut(succ, parent, closed, cur)
    && cur in closed && j <= |succ(cur)|
    && forall i :: 0 <= i < j ==> succ(cur)[i] in parent
  }

  /** The dictionaries and the heap as the search initialises them, with one item for
      `start` of any priority. */
  lemma InitEstablishes<V>(succ: V -> seq<V>, start: V, goal: V, f: real)
    ensures SearchInv(succ, start, goal, map[start := 0.0], map[start := start], [OpenEntry(f, start)], [])
  {
    assert start in Cells([OpenEntry(f, start)]);
  }

  /** Popping `item` (not the goal) and appending its cell to `CLOSED` starts its
      expansion. */
  lemma PopStep<V>(succ: V -> seq<V>, start: V, goal: V, g: map<V, real>, parent: map<V, V>,
                open: seq<OpenEntry<V>>, closed: seq<V>, item: OpenEntry<V>, rest: seq<OpenEntry<V>>)
    requires SearchInv(succ, start, goal, g, parent, open, closed)
    requires multiset(rest) + multiset{item} == multiset(open)
    requires item.cell != goal
    ensures ExpandInv(succ, start, goal, g, parent, rest, closed + [item.cell], item.cell, 0)
  {
    var closed' := closed + [item.cell];
    assert item in multiset(open);
    assert forall e :: e in rest ==> e in multiset(open);
    assert forall v :: v in closed' <==> v in closed || v == item.cell;
    forall v | v in parent
      ensures v in closed' || v in Cells(rest)
    {
      if v !in closed {
        var e :| e in open && e.cell == v;
        assert e in multiset(open);
        if e != item {
          assert e in multiset(rest);
        }
      }
    }
    if closed == [] {
      assert item in open;
    }
  }

  /** Relaxing `n`, a successor of `cur`, to cost `d` keeps `Rooted` and `Links`, when
      `d` exceeds the cost of `cur` and improves on the cost of `n`. */
  lemma RelaxKeepsLinks<V>(succ: V -> seq<V>, start: V, g: map<V, real>, parent: map<V, V>,
                        cur: V, n: V, d: real)
    requires Rooted(start, g, parent) && Links(succ, start, g, parent)
    requires n in succ(cur) && cur in g && d > g[cur]
    requires n !in g || d < g[n]
    ensures n != start && n != cur
    ensures Rooted(start, g[n := d], parent[n := cur]) && Links(succ, start, g[n := d], parent[n := cur])
  {
    var g', parent' := g[n := d], parent[n := cur];
    forall v | v in parent' && v != start
      ensures v in succ(parent'[v]) && v in g' && parent'[v] in g' && g'[parent'[v]] < g'[v]
    {
      if v != n {
        assert parent'[v] == parent[v];
        if parent[v] == n {
          assert g[n] < g[v];
        }
      }
    }
  }

  /** One relaxation step of the neighbour loop for the `j`-th successor `n` of `cur`,
      reached from `cur` at the positive cost `c`: `g[n]` becomes `g[cur] + c`,
      `PARENT[n]` becomes `cur` and an item for `n` with priority `g[n] + k` is pushed. */
  lemma RelaxStep<V>(succ: V -> seq<V>, start: V, goal: V, g: map<V, real>, parent: map<V, V>,
                  open: seq<OpenEntry<V>>, closed: seq<V>, cur: V, j: nat, c: real, k: real)
    requires ExpandInv(succ, start, goal, g, parent, open, closed, cur, j) && j < |succ(cur)|
    requires cur in g && c > 0.0
    requires succ(cur)[j] !in g || g[cur] + c < g[succ(cur)[j]]
    ensures var n := succ(cur)[j];
      ExpandInv(succ, start, goal, g[n := g[cur] + c], parent[n := cur], open + [OpenEntry(g[cur] + c + k, n)], closed, cur, j + 1)
  {
    var n, d, f := succ(cur)[j], g[cur] + c, g[cur] + c + k;
    RelaxKeepsLinks(succ, start, g, parent, cur, n, d);
    var open' := open + [OpenEntry(f, n)];
    assert forall e :: e in open' <==> e in open || e == OpenEntry(f, n);
    assert n in Cells(open');
    assert Cells(open) <= Cells(open');
  }

  /** A successor whose cost is not improved is skipped; it has been reached already. */
  lemma SkipStep<V>(succ: V -> seq<V>, start: V, goal: V, g: map<V, real>, parent: map<V, V>,
                 open: seq<OpenEntry<V>>, closed: seq<V>, cur: V, j: nat)
    requires ExpandInv(succ, start, goal, g, parent, open, closed, cur, j) && j < |succ(cur)|
    requires succ(cur)[j] in g
    ensures ExpandInv(succ, start, goal, g, parent, open, closed, cur, j + 1)
  {
  }

  /** Once every successor of `cur` has been processed, the loop invariant holds again. */
  lemma ExpandDone<V>(succ: V -> seq<V>, start: V, goal: V, g: map<V, real>, parent: map<V, V>,
                   open: seq<OpenEntry<V>>, closed: seq<V>, cur: V)
    requires ExpandInv(succ, start, goal, g, parent, open, closed, cur, |succ(cur)|)
    ensures SearchInv(succ, start, goal, g, parent, open, closed)
  {
  }

  /** The motion cost (`math.hypot` of the step in the source): never negative, and
      positive between two different cells. */
  ghost predicate CostOk<V(!new)>(cost: (V, V) -> real) {
    forall a: V, b: V :: cost(a, b) >= 0.0 && (a != b ==> cost(a, b) > 0.0)
  }

  /** What one pass of the neighbour loop does to the neighbour `n` of `cur`, with `c` the
      cost of the move and `k` the key of `n`: when `g[cur] + c` is below `g[n]` (an
      absent `g[n]` is infinite), `n` gets that cost, `cur` as its parent and a heap item
      with priority `g[n] + k`; otherwise nothing changes. */
  function Visit<V>(g: map<V, real>, parent: map<V, V>, open: seq<OpenEntry<V>>, cur: V, n: V,
                 c: real, k: real): (map<V, real>, map<V, V>, seq<OpenEntry<V>>)
    requires cur in g
  {
    if n !in g || g[cur] + c < g[n] then (g[n := g[cur] + c], parent[n := cur], open + [OpenEntry(g[cur] + c + k, n)])
    else (g, parent, open)
  }

  /** `Visit` applied to each neighbour in `ns` in turn, starting from `g`, `parent`
      and `open`: the state the neighbour loop leaves behind. */
  function VisitAll<V>(g: map<V, real>, parent: map<V, V>, open: seq<OpenEntry<V>>, cur: V, ns: seq<V>,
                       cost: (V, V) -> real, key: V -> real): (r: (map<V, real>, map<V, V>, seq<OpenEntry<V>>))
    requires cur in g
    ensures cur in r.0
    decreases |ns|
  {
    if ns == [] then (g, parent, open)
    else
      var last := ns[|ns| - 1];
      var r := VisitAll(g, parent, open, cur, ns[..|ns| - 1], cost, key);
      Visit(r.0, r.1, r.2, cur, last, cost(cur, last), key(last))
  }

  /** `Visit` on the `j`-th successor of `cur` when it is relaxed. */
  lemma VisitRelaxes<V>(succ: V -> seq<V>, start: V, goal: V, g: map<V, real>, parent: map<V, V>,
                     open: seq<OpenEntry<V>>, closed: seq<V>, cur: V, j: nat, c: real, k: real)
    requires ExpandInv(succ, start, goal, g, parent, open, closed, cur, j) && j < |succ(cur)|
    requires cur in g && c >= 0.0 && (cur != succ(cur)[j] ==> c > 0.0)
    requires succ(cur)[j] !in g || g[cur] + c < g[succ(cur)[j]]
    ensures var r := Visit(g, parent, open, cur, succ(cur)[j], c, k);
      ExpandInv(succ, start, goal, r.0, r.1, r.2, closed, cur, j + 1)
  {
    RelaxStep(succ, start, goal, g, parent, open, closed, cur, j, c, k);
  }

  /** `Visit` on the `j`-th successor of `cur` when it is skipped. */
  lemma VisitSkips<V>(succ: V -> seq<V>, start: V, goal: V, g: map<V, real>, parent: map<V, V>,
                   open: seq<OpenEntry<V>>, closed: seq<V>, cur: V, j: nat, c: real, k: real)
    requires ExpandInv(succ, start, goal, g, parent, open, closed, cur, j) && j < |succ(cur)|
    requires cur in g && succ(cur)[j] in g && g[succ(cur)[j]] <= g[cur] + c
    ensures var r := Visit(g, parent, open, cur, succ(cur)[j], c, k);
      ExpandInv(succ, start, goal, r.0, r.1, r.2, closed, cur, j + 1)
  {
    SkipStep(succ, start, goal, g, parent, open, closed, cur, j);
  }

  /** A pass of the neighbour loop for the `j`-th successor of `cur`, with a move cost that
      is positive unless the move stays put, advances the loop invariant by one successor,
      whether that successor is relaxed or skipped. */
  lemma VisitKeeps<V>(succ: V -> seq<V>, start: V, goal: V, g: map<V, real>, parent: map<V, V>,
                   open: seq<OpenEntry<V>>, closed: seq<V>, cur: V, j: nat, c: real, k: real)
    requires ExpandInv(succ, start, goal, g, parent, open, closed, cur, j) && j < |succ(cur)|
    requires c >= 0.0 && (cur != succ(cur)[j] ==> c > 0.0)
    ensures cur in g
    ensures var r := Visit(g, parent, open, cur, succ(cur)[j], c, k);
      ExpandInv(succ, start, goal, r.0, r.1, r.2, closed, cur, j + 1)
  {
    var n := succ(cur)[j];
    assert cur in g;
    if n !in g || g[cur] + c < g[n] {
      VisitRelaxes(succ, start, goal, g, parent, open, closed, cur, j, c, k);
    } else {
      VisitSkips(succ, start, goal, g, parent, open, closed, cur, j, c, k);
    }
  }

  /** The neighbour loop over the first `j` items of `ns` is the loop over the first
      `j - 1` followed by one `Visit` of the `j`-th. */
  lemma VisitAllLast<V>(g: map<V, real>, parent: map<V, V>, open: seq<OpenEntry<V>>, cur: V, ns: seq<V>,
                        j: nat, cost: (V, V) -> real, key: V -> real)
    requires cur in g && 0 < j <= |ns|
    ensures var r := VisitAll(g, parent, open, cur, ns[..j - 1], cost, key);
      VisitAll(g, parent, open, cur, ns[..j], cost, key)
        == Visit(r.0, r.1, r.2, cur, ns[j - 1], cost(cur, ns[j - 1]), key(ns[j - 1]))
  {
    assert ns[..j][..j - 1] == ns[..j - 1];
  }

  /** The neighbour loop over the first `j` successors of `cur`, with a cost function
      that is positive between distinct cells, keeps the expansion invariant. */
  lemma {:induction false} VisitAllKeeps<V(!new)>(succ: V -> seq<V>, cost: (V, V) -> real, key: V -> real,
                                                 start: V, goal: V, g: map<V, real>, parent: map<V, V>,
                                                 open: seq<OpenEntry<V>>, closed: seq<V>, cur: V, j: nat)
    requires ExpandInv(succ, start, goal, g, parent, open, closed, cur, 0)
    requires CostOk(cost) && j <= |succ(cur)|
    ensures cur in g
    ensures var r := VisitAll(g, parent, open, cur, succ(cur)[..j], cost, key);
      ExpandInv(succ, start, goal, r.0, r.1, r.2, closed, cur, j)
    decreases j
  {
    assert cur in g;
    if j > 0 {
      VisitAllKeeps(succ, cost, key, start, goal, g, parent, open, closed, cur, j - 1);
      VisitAllLast(g, parent, open, cur, succ(cur), j, cost, key);
      var r := VisitAll(g, parent, open, cur, succ(cur)[..j - 1], cost, key);
      var n := succ(cur)[j - 1];
      VisitKeeps(succ, start, goal, r.0, r.1, r.2, closed, cur, j - 1, cost(cur, n), key(n));
    } else {
      assert succ(cur)[..0] == [];
    }
  }

  /** When the heap runs empty, the closed cells contain `start`, are closed under `succ`
      and exclude the goal: no walk from `start` reaches `goal`, and `goal` has no parent. */
  lemma ExhaustedUnreachable<V>(succ: V -> seq<V>, start: V, goal: V, g: map<V, real>,
                             parent: map<V, V>, closed: seq<V>)
    requires SearchInv(succ, start, goal, g, parent, [], closed)
    ensures closed != [] && closed[0] == start && goal != start && goal !in parent
    ensures forall w :: SearchInvariant.IsWalk(succ, w) && |w| > 0 && w[0] == start ==> w[|w| - 1] != goal
  {
    assert Cells<V>([]) == {};
    assert start in closed;
    forall w | SearchInvariant.IsWalk(succ, w) && |w| > 0 && w[0] == start
      ensures w[|w| - 1] != goal
    {
      SearchInvariant.WalkStaysInside(succ, closed, w);
    }
  }

  /** A chain of parent links from a reached cell that has not met `start`: the costs
      strictly decrease along it. */
  lemma {:induction false} ChainDescends<V>(succ: V -> seq<V>, start: V, g: map<V, real>,
                                         parent: map<V, V>, chain: seq<V>, j: nat)
    requires Rooted(start, g, parent) && Links(succ, start, g, parent)
    requires |chain| > 0 && chain[0] in parent
    requires forall k :: 0 <= k < |chain| - 1 ==> chain[k] != start && chain[k] in parent && chain[k + 1] == parent[chain[k]]
    requires j < |chain|
    ensures chain[j] in g
    ensures forall i :: 0 <= i < j ==> chain[i] in g && g[chain[j]] < g[chain[i]]
    decreases j
  {
    if j > 0 {
      ChainDescends(succ, start, g, parent, chain, j - 1);
      assert chain[j] == parent[chain[j - 1]];
    }
  }

  /** Such a chain never revisits a cell: the parent of its last cell is reached and not
      already on it. So following `PARENT` from a reached cell arrives at `start`. */
  lemma ChainIsSimple<V>(succ: V -> seq<V>, start: V, g: map<V, real>, parent: map<V, V>,
                      chain: seq<V>)
    requires Rooted(start, g, parent) && Links(succ, start, g, parent)
    requires |chain| > 0 && chain[0] in parent
    requires forall k :: 0 <= k < |chain| - 1 ==> chain[k] != start && chain[k] in parent && chain[k + 1] == parent[chain[k]]
    requires chain[|chain| - 1] != start
    ensures chain[|chain| - 1] in parent && parent[chain[|chain| - 1]] !in chain
  {
    var last := |chain| - 1;
    ChainDescends(succ, start, g, parent, chain, last);
    var p := parent[chain[last]];
    assert g[p] < g[chain[last]];
    forall i | 0 <= i < |chain|
      ensures chain[i] != p
    {
      if i < last {
        assert g[chain[last]] < g[chain[i]];
      }
    }
  }
  // ---------------------------------------------------------------------------
  // What the search returns
  // ---------------------------------------------------------------------------

  /** How following `PARENT` from the goal ends: at `start` (the path), at a vertex with
      no parent (Python raises `KeyError`), or at a vertex whose parent is already on the
      chain (Python loops forever). `cells` is the chain followed so far. */
  datatype Trace<V> = Traced(cells: seq<V>) | MissingParent(cells: seq<V>) | Cycles(cells: seq<V>)

  /** `cells` starts at `goal` and each cell before the last is not `start` and has the
      next cell as its parent. */
  ghost predicate FollowsParents<V>(parent: map<V, V>, start: V, goal: V, cells: seq<V>) {
    && |cells| > 0 && cells[0] == goal
    && forall k :: 0 <= k < |cells| - 1 ==>
         cells[k] != start && cells[k] in parent && cells[k + 1] == parent[cells[k]]
  }

  /** What `trace_path` gives: the parent chain from `goal`, ending at `start` exactly
      when it is `Traced`, at a vertex without a parent when it is `MissingParent`, and
      at a vertex whose parent is already on the chain when it is `Cycles`. */
  ghost predicate TraceOk<V>(parent: map<V, V>, start: V, goal: V, t: Trace<V>) {
    && FollowsParents(parent, start, goal, t.cells)
    && (t.Traced? <==> t.cells[|t.cells| - 1] == start)
    && (t.MissingParent? ==> t.cells[|t.cells| - 1] !in parent)
    && (t.Cycles? ==> t.cells[|t.cells| - 1] in parent && parent[t.cells[|t.cells| - 1]] in t.cells)
  }

  /** What a search returns: the result of `trace_path(PARENT)` and `CLOSED`. */
  datatype SearchResult<V> = SearchResult(path: Trace<V>, visited: seq<V>)

  /** What `weighted_Astar` and `get_path` promise about a result. `CLOSED` starts at
      `start`; the goal is in it only as its last element. Then the path runs from `goal`
      back to `start`, each cell a successor of the next. Otherwise the heap ran empty: no
      walk from `start` reaches `goal`, and `trace_path` fails on the goal at once. */
  ghost predicate Outcome<V(!new)>(succ: V -> seq<V>, start: V, goal: V, r: SearchResult<V>) {
    var closed := r.visited;
    && |closed| > 0 && closed[0] == start
    && (forall i :: 0 <= i < |closed| - 1 ==> closed[i] != goal)
    && (goal in closed ==>
          && closed[|closed| - 1] == goal
          && r.path.Traced? && |r.path.cells| > 0
          && r.path.cells[0] == goal && r.path.cells[|r.path.cells| - 1] == start
          && forall k :: 0 <= k < |r.path.cells| - 1 ==> r.path.cells[k] in succ(r.path.cells[k + 1]))
    && (goal !in closed ==>
          && r.path == MissingParent([goal])
          && forall w :: SearchInvariant.IsWalk(succ, w) && |w| > 0 && w[0] == start ==> w[|w| - 1] != goal)
  }

  /** Popping the goal: the parent chain from the goal, a reached vertex, arrives at
      `start` along successor links, and `CLOSED` ends with the goal. When `start` is the
      goal, the path is just the goal. */
  lemma FoundOutcome<V(!new)>(succ: V -> seq<V>, start: V, goal: V, g: map<V, real>, parent: map<V, V>,
                     open: seq<OpenEntry<V>>, closed: seq<V>, item: OpenEntry<V>, rest: seq<OpenEntry<V>>,
                     path: Trace<V>)
    requires SearchInv(succ, start, goal, g, parent, open, closed)
    requires multiset(rest) + multiset{item} == multiset(open) && item.cell == goal
    requires TraceOk(parent, start, goal, path)
    ensures Outcome(succ, start, goal, SearchResult(path, closed + [item.cell]))
    ensures start == goal ==> path == Traced([goal])
  {
    assert item in multiset(open);
    assert goal in parent;
    var cells := path.cells;
    if cells[|cells| - 1] != start {
      ChainIsSimple(succ, start, g, parent, cells);
    }
    forall k | 0 <= k < |cells| - 1
      ensures cells[k] in succ(cells[k + 1])
    {
      assert cells[k + 1] == parent[cells[k]];
    }
    if start == goal {
      assert |cells| == 1;
    }
  }

  /** The heap running empty: `CLOSED` starts at `start`, the goal is out of reach, and
      `trace_path` fails on the goal at once. */
  lemma ExhaustedOutcome<V(!new)>(succ: V -> seq<V>, start: V, goal: V, g: map<V, real>, parent: map<V, V>,
                         closed: seq<V>, path: Trace<V>)
    requires SearchInv(succ, start, goal, g, parent, [], closed)
    requires TraceOk(parent, start, goal, path)
    ensures Outcome(succ, start, goal, SearchResult(path, closed))
  {
    ExhaustedUnreachable(succ, start, goal, g, parent, closed);
    assert |path.cells| == 1;
    assert path.cells == [goal];
  }
}


/** `scripts/Astar2D.py`: collision checking on the obstacle set, the neighbours of a
    cell, the Manhattan heuristic, `trace_path`, and `weighted_Astar`. */
module Astar2D {
  import opened Wrappers
  import opened Environment
  import SearchInvariant
  import opened GridSearch
  import GridCost

  // heap
  /** Python's order on `(priority, (x, y))` tuples, `a <= b`: by priority, then by `x`,
      then by `y`. */
  predicate NotAfter(a: OpenEntry<Cell>, b: OpenEntry<Cell>) {
    || a.f < b.f
    || (a.f == b.f && (a.cell.0 < b.cell.0 || (a.cell.0 == b.cell.0 && a.cell.1 <= b.cell.1)))
  }

  /** The position of a least item of the heap. */
  function MinIndex(open: seq<OpenEntry<Cell>>): (i: nat)
    requires open != []
    ensures i < |open| && forall k :: 0 <= k < |open| ==> NotAfter(open[i], open[k])
  {
    if |open| == 1 then 0
    else
      var j := MinIndex(open[1..]) + 1;
      assert forall k :: 1 <= k < |open| ==> open[k] == open[1..][k - 1];
      if NotAfter(open[0], open[j]) then 0 else j
  }

  /** `heapq.heappop`: a least item, and the items left in the heap. The heap layout is
      not modelled, only which items it holds. */
  function HeapPop(open: seq<OpenEntry<Cell>>): (r: (OpenEntry<Cell>, seq<OpenEntry<Cell>>))
    requires open != []
    ensures multiset(r.1) + multiset{r.0} == multiset(open)
    ensures forall k :: 0 <= k < |open| ==> NotAfter(r.0, open[k])
    ensures forall e :: e in open ==> r.0.f <= e.f
  {
    var i := MinIndex(open);
    assert open == open[..i] + [open[i]] + open[i + 1..];
    assert forall e :: e in open ==> exists k :: 0 <= k < |open| && open[k] == e;
    (open[i], open[..i] + open[i + 1..])
  }

  import Mazes

  /** The cell reached from `s` by `motion`. */
  function Move(s: Cell, motion: Cell): Cell {
    (s.0 + motion.0, s.1 + motion.1)
  }

  /** `is_collision(s_start, s_end)`. An obstacle at either end collides. A straight move
      collides only then. A diagonal move (equal steps along both axes) also collides when
      either of the two other corners of its box, `(s.0, e.1)` and `(e.0, s.1)`, is an
      obstacle, so a move cannot cut a corner. */
  function IsCollision(obs: set<Cell>, s: Cell, e: Cell): (r: bool)
    ensures s in obs || e in obs ==> r
    ensures s.0 == e.0 || s.1 == e.1 ==> (r <==> s in obs || e in obs)
    ensures Mazes.Abs(e.0 - s.0) == Mazes.Abs(e.1 - s.1) ==>
      (r <==> s in obs || e in obs || (s.0, e.1) in obs || (e.0, s.1) in obs)
  {
    if s in obs || e in obs then true
    else if s.0 != e.0 && s.1 != e.1 then
      var corners :=
        if e.0 - s.0 == s.1 - e.1 then
          ((Min(s.0, e.0), Min(s.1, e.1)), (Max(s.0, e.0), Max(s.1, e.1)))
        else
          ((Min(s.0, e.0), Max(s.1, e.1)), (Max(s.0, e.0), Min(s.1, e.1)));
      corners.0 in obs || corners.1 in obs
    else false
  }

  /** What `get_neighbor(s)` returns: `s + m` for each motion `m` in order, skipping the
      moves that collide. */
  function Neighbors(obs: set<Cell>, motions: seq<Cell>, s: Cell): seq<Cell> {
    if motions == [] then []
    else
      var rest := Neighbors(obs, motions[..|motions| - 1], s);
      var n := Move(s, motions[|motions| - 1]);
      if IsCollision(obs, s, n) then rest else rest + [n]
  }

  /** `get_neighbor(s)`. */
  method GetNeighbor(obs: set<Cell>, motions: seq<Cell>, s: Cell) returns (neighbors: seq<Cell>)
    ensures neighbors == Neighbors(obs, motions, s)
  {
    neighbors := [];
    for i := 0 to |motions|
      invariant neighbors == Neighbors(obs, motions[..i], s)
    {
      assert motions[..i + 1][..i] == motions[..i];
      var neighbor := Move(s, motions[i]);
      if IsCollision(obs, s, neighbor) {
        continue;
      }
      neighbors := neighbors + [neighbor];
    }
    assert motions[..|motions|] == motions;
  }

  /** A cell is a neighbour of `s` exactly when some motion leads to it without a
      collision. */
  lemma {:induction false} NeighborsMembers(obs: set<Cell>, motions: seq<Cell>, s: Cell, n: Cell)
    ensures n in Neighbors(obs, motions, s) <==>
      exists m :: m in motions && n == Move(s, m) && !IsCollision(obs, s, n)
    decreases |motions|
  {
    if motions != [] {
      var init := motions[..|motions| - 1];
      NeighborsMembers(obs, init, s, n);
      assert motions == init + [motions[|motions| - 1]];
      assert forall m :: m in motions <==> m in init || m == motions[|motions| - 1];
    }
  }

  /** Without obstacles every motion gives a neighbour, in the order of the motion set. */
  lemma {:induction false} NeighborsFree(motions: seq<Cell>, s: Cell)
    ensures |Neighbors({}, motions, s)| == |motions|
    ensures forall i :: 0 <= i < |motions| ==> Neighbors({}, motions, s)[i] == Move(s, motions[i])
    decreases |motions|
  {
    if motions != [] {
      var init := motions[..|motions| - 1];
      NeighborsFree(init, s);
      assert forall i :: 0 <= i < |init| ==> init[i] == motions[i];
    }
  }

  /** The Manhattan branch of `heuristic(s)`: the L1 distance to the goal, zero exactly at
      the goal. */
  function Manhattan(goal: Cell, s: Cell): (h: nat)
    ensures h == 0 <==> s == goal
    ensures h <= Mazes.Abs(goal.0 - s.0) + Mazes.Abs(goal.1 - s.1)
    ensures h >= Mazes.Abs(goal.0 - s.0) && h >= Mazes.Abs(goal.1 - s.1)
  {
    Mazes.Abs(goal.0 - s.0) + Mazes.Abs(goal.1 - s.1)
  }

  // ---------------------------------------------------------------------------
  // trace_path
  // ---------------------------------------------------------------------------

  /** `trace_path(PARENT)`: the list from `goal` back to `start` along `PARENT`. Where the
      source would raise or never return, the result says which. */
  method TracePath<V>(parent: map<V, V>, start: V, goal: V) returns (t: Trace<V>)
    ensures TraceOk(parent, start, goal, t)
  {
    var path := [goal];
    var s := goal;
    ghost var followed: set<V> := {};
    while s != start
      invariant FollowsParents(parent, start, goal, path) && s == path[|path| - 1]
      invariant followed <= parent.Keys && s !in followed
      invariant forall c :: c in followed ==> c in path
      decreases |parent.Keys - followed|
    {
      if s !in parent {
        return MissingParent(path);
      }
      var next := parent[s];
      if next in path {
        return Cycles(path);
      }
      FollowedShrinks(parent.Keys, followed, s);
      followed := followed + {s};
      path := path + [next];
      s := next;
    }
    return Traced(path);
  }

  /** Following one more parent link leaves fewer keys to follow. */
  lemma FollowedShrinks<V>(keys: set<V>, followed: set<V>, s: V)
    requires s in keys && s !in followed
    ensures |keys - (followed + {s})| < |keys - followed|
  {
    var left := keys - followed;
    assert left == (left - {s}) + {s};
    assert keys - (followed + {s}) == left - {s};
  }

  /** One pass of the `for s_n in self.get_neighbor(s)` loop, for the neighbour `n` of
      `cur`: the dictionaries and the heap become what `Visit` says. */
  method VisitNeighbour<V>(cost: (V, V) -> real, key: V -> real, g: map<V, real>, parent: map<V, V>,
                          open: seq<OpenEntry<V>>, cur: V, n: V)
    returns (g': map<V, real>, parent': map<V, V>, open': seq<OpenEntry<V>>)
    requires cur in g
    ensures (g', parent', open') == Visit(g, parent, open, cur, n, cost(cur, n), key(n))
  {
    var newCost := g[cur] + cost(cur, n);
    if n !in g || newCost < g[n] {
      g', parent', open' := g[n := newCost], parent[n := cur], open + [OpenEntry(newCost + key(n), n)];
    } else {
      g', parent', open' := g, parent, open;
    }
  }

  /** The `for s_n in self.get_neighbor(s)` loop while `cur` is expanded: every
      successor of `cur` visited in turn. */
  method ExpandNeighbours<V>(cost: (V, V) -> real, key: V -> real, g0: map<V, real>, parent0: map<V, V>,
                             open0: seq<OpenEntry<V>>, cur: V, neighbours: seq<V>)
    returns (g: map<V, real>, parent: map<V, V>, open: seq<OpenEntry<V>>)
    requires cur in g0
    ensures (g, parent, open) == VisitAll(g0, parent0, open0, cur, neighbours, cost, key)
  {
    g, parent, open := g0, parent0, open0;
    for j := 0 to |neighbours|
      invariant (g, parent, open) == VisitAll(g0, parent0, open0, cur, neighbours[..j], cost, key)
    {
      assert neighbours[..j + 1][..j] == neighbours[..j];
      g, parent, open := VisitNeighbour(cost, key, g, parent, open, cur, neighbours[j]);
    }
    assert neighbours[..|neighbours|] == neighbours;
  }

  // ---------------------------------------------------------------------------
  // weighted_Astar
  // ---------------------------------------------------------------------------

  /** The grid as a successor function: the collision-free neighbours of each cell. */
  function Graph(obs: set<Cell>, motions: seq<Cell>): (succ: Cell -> seq<Cell>)
    ensures forall c :: succ(c) == Neighbors(obs, motions, c)
  {
    c => Neighbors(obs, motions, c)
  }

  /** The loop of `weighted_Astar` (and of `Dijkstra.get_path`), pushing each relaxed cell
      `n` with priority `g[n] + key(n)`. `fuel` bounds the number of pops; `None` means it
      ran out while the heap was not empty. */
  method Search(obs: set<Cell>, motions: seq<Cell>, cost: (Cell, Cell) -> real, key: Cell -> real,
                start: Cell, goal: Cell, fuel: nat) returns (r: Option<SearchResult<Cell>>)
    requires CostOk(cost)
    ensures r.Some? ==> Outcome(Graph(obs, motions), start, goal, r.value)
    ensures r.Some? ==> GridCost.CostBound(Graph(obs, motions), cost, key, start, goal, r.value)
    ensures r.Some? && start == goal ==> r.value == SearchResult(Traced([goal]), [goal])
  {
    ghost var succ := Graph(obs, motions);
    var g := map[start := 0.0];
    var parent := map[start := start];
    var open := [OpenEntry(0.0 + key(start), start)];
    var closed: seq<Cell> := [];
    InitEstablishes(succ, start, goal, 0.0 + key(start));
    GridCost.CostInit(succ, cost, key, start);
    var fuelLeft := fuel;
    while open != []
      invariant SearchInv(succ, start, goal, g, parent, open, closed)
      invariant GridCost.CostInv(succ, cost, key, start, g, parent, open, closed)
      decreases fuelLeft
    {
      if fuelLeft == 0 {
        return None;
      }
      fuelLeft := fuelLeft - 1;
      var popped := HeapPop(open);
      var s := popped.0.cell;
      if s == goal {
        var path := TracePath(parent, start, goal);
        FoundOutcome(succ, start, goal, g, parent, open, closed, popped.0, popped.1, path);
        GridCost.FoundCost(succ, cost, key, start, goal, g, parent, open, closed, popped.0, popped.1, path);
        return Some(SearchResult(path, closed + [s]));
      }
      PopStep(succ, start, goal, g, parent, open, closed, popped.0, popped.1);
      GridCost.CostPop(succ, cost, key, start, g, parent, open, closed, popped.0, popped.1);
      closed := closed + [s];
      g, parent, open := ExpandCell(obs, motions, cost, key, succ, start, goal, g, parent, popped.1, closed, s);
    }
    var path := TracePath(parent, start, goal);
    ExhaustedOutcome(succ, start, goal, g, parent, closed, path);
    GridCost.ExhaustedCost(succ, cost, key, start, goal, g, parent, closed, path);
    return Some(SearchResult(path, closed));
  }

  /** The rest of the loop body for a popped cell `cur` that is not the goal: the
      neighbours `get_neighbor(cur)` gives, each relaxed or skipped in turn. */
  method ExpandCell(obs: set<Cell>, motions: seq<Cell>, cost: (Cell, Cell) -> real, key: Cell -> real,
                    ghost succ: Cell -> seq<Cell>, start: Cell, ghost goal: Cell,
                    g0: map<Cell, real>, parent0: map<Cell, Cell>, open0: seq<OpenEntry<Cell>>,
                    ghost closed: seq<Cell>, cur: Cell)
    returns (g: map<Cell, real>, parent: map<Cell, Cell>, open: seq<OpenEntry<Cell>>)
    requires succ == Graph(obs, motions) && CostOk(cost)
    requires ExpandInv(succ, start, goal, g0, parent0, open0, closed, cur, 0)
    requires GridCost.CostExpandInv(succ, cost, key, start, g0, parent0, open0, closed, cur, 0)
    ensures SearchInv(succ, start, goal, g, parent, open, closed)
    ensures GridCost.CostInv(succ, cost, key, start, g, parent, open, closed)
  {
    var neighbours := GetNeighbor(obs, motions, cur);
    assert neighbours == succ(cur);
    g, parent, open := ExpandNeighbours(cost, key, g0, parent0, open0, cur, neighbours);
    assert succ(cur)[..|succ(cur)|] == neighbours;
    VisitAllKeeps(succ, cost, key, start, goal, g0, parent0, open0, closed, cur, |succ(cur)|);
    ExpandDone(succ, start, goal, g, parent, open, closed, cur);
    GridCost.VisitAllKeepsCost(succ, cost, key, start, g0, parent0, open0, closed, cur, |succ(cur)|);
    GridCost.CostExpandDone(succ, cost, key, start, g, parent, open, closed, cur);
  }

  /** `weighted_Astar(s_start, s_goal, e)` with heuristic `h` (of a cell, towards the
      goal) and motion cost `cost`: items are pushed with priority `g + e * h`. */
  method WeightedAstar(obs: set<Cell>, motions: seq<Cell>, cost: (Cell, Cell) -> real, h: Cell -> real, e: real,
                       start: Cell, goal: Cell, fuel: nat) returns (r: Option<SearchResult<Cell>>)
    requires CostOk(cost)
    ensures r.Some? ==> Outcome(Graph(obs, motions), start, goal, r.value)
    ensures r.Some? && start == goal ==> r.value == SearchResult(Traced([goal]), [goal])
    ensures r.Some? && GridCost.Admissible(Graph(obs, motions), cost, h, goal) ==>
      GridCost.WithinFactor(Graph(obs, motions), cost, GridCost.Factor(e), start, goal, r.value)
  {
    var key := c => e * h(c);
    r := Search(obs, motions, cost, key, start, goal, fuel);
    if r.Some? && GridCost.Admissible(Graph(obs, motions), cost, h, goal) {
      GridCost.WeightedWithinFactor(Graph(obs, motions), cost, key, h, e, start, goal, r.value);
    }
  }
}
