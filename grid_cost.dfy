/** The cost side of the grid searches of `scripts/Astar2D.py` and `scripts/Dijkstra.py`:
    what `g`, `PARENT` and the heap say about the cost of walks, kept beside the
    reachability invariant of `GridSearch`. From it follow the guarantees the source's
    docstring gives for `weighted_Astar`: with `e = 0` (Dijkstra) the traced path is a
    cheapest one, and with an admissible heuristic it costs at most `e` times the cheapest
    (for `e >= 1`). */
module GridCost {
  import SearchInvariant
  import opened GridSearch

  // ---------------------------------------------------------------------------
  // Costs of walks and of traced paths
  // ---------------------------------------------------------------------------

  /** The cost of the first `i` moves of the walk `w`. */
  function PrefixCost<V>(cost: (V, V) -> real, w: seq<V>, i: nat): real
    requires i < |w|
    decreases i
  {
    if i == 0 then 0.0 else PrefixCost(cost, w, i - 1) + cost(w[i - 1], w[i])
  }

  /** The cost of a whole walk. */
  function WalkCost<V>(cost: (V, V) -> real, w: seq<V>): real
    requires |w| > 0
  {
    PrefixCost(cost, w, |w| - 1)
  }

  /** The cost of a path listed from its last cell back to its first, as `trace_path`
      lists it: each move goes from `cells[k + 1]` to `cells[k]`. */
  function TraceCost<V>(cost: (V, V) -> real, cells: seq<V>): real
    decreases |cells|
  {
    if |cells| <= 1 then 0.0 else cost(cells[1], cells[0]) + TraceCost(cost, cells[1..])
  }

  /** With no negative move, a walk's prefix costs never decrease. */
  lemma {:induction false} PrefixCostGrows<V(!new)>(cost: (V, V) -> real, w: seq<V>, i: nat, j: nat)
    requires CostOk(cost) && i <= j < |w|
    ensures 0.0 <= PrefixCost(cost, w, i) <= PrefixCost(cost, w, j)
    decreases j
  {
    if j > i {
      PrefixCostGrows(cost, w, i, j - 1);
    } else if i > 0 {
      PrefixCostGrows(cost, w, i - 1, i - 1);
    }
  }

  /** A walk's cost splits at any cell into the cost up to that cell and the cost of the
      rest of the walk. */
  lemma {:induction false} PrefixCostSplits<V>(cost: (V, V) -> real, w: seq<V>, i: nat, j: nat)
    requires i <= j < |w|
    ensures PrefixCost(cost, w, j) == PrefixCost(cost, w, i) + PrefixCost(cost, w[i..], j - i)
    decreases j
  {
    if j > i {
      PrefixCostSplits(cost, w, i, j - 1);
      assert w[i..][j - i - 1] == w[j - 1] && w[i..][j - i] == w[j];
    }
  }

  // ---------------------------------------------------------------------------
  // The cost invariant of the search loop
  // ---------------------------------------------------------------------------

  /** `g[start]` is 0 and no `g` is negative. */
  ghost predicate Grounded<V>(start: V, g: map<V, real>) {
    && start in g && g[start] == 0.0
    && forall v :: v in g ==> g[v] >= 0.0
  }

  /** Every reached cell other than `start` costs at least its parent's cost plus the
      move from the parent. */
  ghost predicate CostLinks<V>(cost: (V, V) -> real, start: V, g: map<V, real>, parent: map<V, V>) {
    forall v {:trigger parent[v]} :: v in parent && v != start ==>
      v in g && parent[v] in g && g[parent[v]] + cost(parent[v], v) <= g[v]
  }

  /** Each heap item was pushed as `(g + key, cell)` for a `g` no lower than the cell's
      cost now. */
  ghost predicate Stale<V>(key: V -> real, g: map<V, real>, open: seq<OpenEntry<V>>) {
    forall e :: e in open ==> e.cell in g && g[e.cell] + key(e.cell) <= e.f
  }

  /** The moves out of `c` are relaxed: each successor costs at most `g[c]` plus the move. */
  ghost predicate Relaxed<V>(succ: V -> seq<V>, cost: (V, V) -> real, g: map<V, real>, c: V)
    requires c in g
  {
    forall n :: n in succ(c) ==> n in g && g[n] <= g[c] + cost(c, n)
  }

  /** A reached cell has its current item `(g[c] + key(c), c)` in the heap, or it is closed
      and its moves are relaxed. */
  ghost predicate Settled<V>(succ: V -> seq<V>, cost: (V, V) -> real, key: V -> real, g: map<V, real>,
                             open: seq<OpenEntry<V>>, closed: seq<V>, c: V)
    requires c in g
  {
    OpenEntry(g[c] + key(c), c) in open || (c in closed && Relaxed(succ, cost, g, c))
  }

  /** The cost invariant of the `while OPEN` loop. */
  ghost predicate CostInv<V>(succ: V -> seq<V>, cost: (V, V) -> real, key: V -> real, start: V,
                             g: map<V, real>, parent: map<V, V>, open: seq<OpenEntry<V>>, closed: seq<V>)
  {
    && Grounded(start, g)
    && CostLinks(cost, start, g, parent)
    && Stale(key, g, open)
    && forall c :: c in g ==> Settled(succ, cost, key, g, open, closed, c)
  }

  /** The cost invariant while `cur` is expanded: `cur` is closed, and the moves to its
      first `j` successors are relaxed. */
  ghost predicate CostExpandInv<V>(succ: V -> seq<V>, cost: (V, V) -> real, key: V -> real, start: V,
                                   g: map<V, real>, parent: map<V, V>, open: seq<OpenEntry<V>>,
                                   closed: seq<V>, cur: V, j: nat)
  {
    && Grounded(start, g)
    && CostLinks(cost, start, g, parent)
    && Stale(key, g, open)
    && cur in g && cur in closed && j <= |succ(cur)|
    && (forall c :: c in g && c != cur ==> Settled(succ, cost, key, g, open, closed, c))
    && forall i :: 0 <= i < j ==> succ(cur)[i] in g && g[succ(cur)[i]] <= g[cur] + cost(cur, succ(cur)[i])
  }

  /** The start of the search: `g = {start: 0}`, `PARENT = {start: start}` and one item
      `(0 + key(start), start)`. */
  lemma CostInit<V>(succ: V -> seq<V>, cost: (V, V) -> real, key: V -> real, start: V)
    ensures CostInv(succ, cost, key, start, map[start := 0.0], map[start := start],
                    [OpenEntry(0.0 + key(start), start)], [])
  {
    var g := map[start := 0.0];
    assert OpenEntry(g[start] + key(start), start) in [OpenEntry(0.0 + key(start), start)];
  }

  /** Popping `item` and appending its cell to `CLOSED` starts its expansion. */
  lemma CostPop<V>(succ: V -> seq<V>, cost: (V, V) -> real, key: V -> real, start: V,
                   g: map<V, real>, parent: map<V, V>, open: seq<OpenEntry<V>>, closed: seq<V>,
                   item: OpenEntry<V>, rest: seq<OpenEntry<V>>)
    requires CostInv(succ, cost, key, start, g, parent, open, closed)
    requires multiset(rest) + multiset{item} == multiset(open)
    ensures CostExpandInv(succ, cost, key, start, g, parent, rest, closed + [item.cell], item.cell, 0)
  {
    var closed' := closed + [item.cell];
    assert item in multiset(open);
    assert forall e :: e in rest ==> e in multiset(open);
    forall c | c in g && c != item.cell
      ensures Settled(succ, cost, key, g, rest, closed', c)
    {
      var e := OpenEntry(g[c] + key(c), c);
      if e in open {
        assert e in multiset(open) && e != item;
        assert e in multiset(rest);
      } else {
        assert c in closed';
      }
    }
  }

  /** A relaxation of the `j`-th successor `n` of `cur`, at move cost `c`: `g[n]` becomes
      `g[cur] + c`, `PARENT[n]` becomes `cur`, and `(g[n] + key(n), n)` is pushed. */
  lemma CostRelaxes<V>(succ: V -> seq<V>, cost: (V, V) -> real, key: V -> real, start: V,
                       g: map<V, real>, parent: map<V, V>, open: seq<OpenEntry<V>>,
                       closed: seq<V>, cur: V, j: nat, c: real, k: real)
    requires CostExpandInv(succ, cost, key, start, g, parent, open, closed, cur, j) && j < |succ(cur)|
    requires c == cost(cur, succ(cur)[j]) && k == key(succ(cur)[j]) && c >= 0.0
    requires succ(cur)[j] !in g || g[cur] + c < g[succ(cur)[j]]
    ensures var n := succ(cur)[j];
      CostExpandInv(succ, cost, key, start, g[n := g[cur] + c], parent[n := cur],
                    open + [OpenEntry(g[cur] + c + k, n)], closed, cur, j + 1)
  {
    var n, d := succ(cur)[j], g[cur] + c;
    var g', parent', open' := g[n := d], parent[n := cur], open + [OpenEntry(d + k, n)];
    assert n != cur && n != start;
    assert forall e :: e in open' <==> e in open || e == OpenEntry(d + k, n);
    forall v | v in parent' && v != start
      ensures v in g' && parent'[v] in g' && g'[parent'[v]] + cost(parent'[v], v) <= g'[v]
    {
      if v != n {
        assert parent'[v] == parent[v];
      }
    }
    forall x | x in g' && x != cur
      ensures Settled(succ, cost, key, g', open', closed, x)
    {
      if x != n {
        assert Settled(succ, cost, key, g, open, closed, x);
        if OpenEntry(g[x] + key(x), x) !in open {
          forall m | m in succ(x)
            ensures m in g' && g'[m] <= g'[x] + cost(x, m)
          {
          }
        }
      }
    }
  }

  /** A successor that is not improved is skipped. */
  lemma CostSkips<V>(succ: V -> seq<V>, cost: (V, V) -> real, key: V -> real, start: V,
                     g: map<V, real>, parent: map<V, V>, open: seq<OpenEntry<V>>,
                     closed: seq<V>, cur: V, j: nat, c: real)
    requires CostExpandInv(succ, cost, key, start, g, parent, open, closed, cur, j) && j < |succ(cur)|
    requires c == cost(cur, succ(cur)[j])
    requires succ(cur)[j] in g && g[succ(cur)[j]] <= g[cur] + c
    ensures CostExpandInv(succ, cost, key, start, g, parent, open, closed, cur, j + 1)
  {
  }

  /** One pass of the neighbour loop, relaxing or skipping the `j`-th successor of `cur`,
      keeps the cost invariant and relaxes the move to that successor. */
  lemma CostVisitKeeps<V>(succ: V -> seq<V>, cost: (V, V) -> real, key: V -> real, start: V,
                          g: map<V, real>, parent: map<V, V>, open: seq<OpenEntry<V>>,
                          closed: seq<V>, cur: V, j: nat, c: real, k: real)
    requires CostExpandInv(succ, cost, key, start, g, parent, open, closed, cur, j) && j < |succ(cur)|
    requires c == cost(cur, succ(cur)[j]) && k == key(succ(cur)[j]) && c >= 0.0
    ensures cur in g
    ensures var r := Visit(g, parent, open, cur, succ(cur)[j], c, k);
      CostExpandInv(succ, cost, key, start, r.0, r.1, r.2, closed, cur, j + 1)
  {
    var n := succ(cur)[j];
    if n !in g || g[cur] + c < g[n] {
      CostRelaxes(succ, cost, key, start, g, parent, open, closed, cur, j, c, k);
      assert Visit(g, parent, open, cur, n, c, k)
          == (g[n := g[cur] + c], parent[n := cur], open + [OpenEntry(g[cur] + c + k, n)]);
    } else {
      CostSkips(succ, cost, key, start, g, parent, open, closed, cur, j, c);
      assert Visit(g, parent, open, cur, n, c, k) == (g, parent, open);
    }
  }

  /** Once every successor of `cur` is processed, `cur` is closed with its moves relaxed. */
  lemma CostExpandDone<V>(succ: V -> seq<V>, cost: (V, V) -> real, key: V -> real, start: V,
                          g: map<V, real>, parent: map<V, V>, open: seq<OpenEntry<V>>,
                          closed: seq<V>, cur: V)
    requires CostExpandInv(succ, cost, key, start, g, parent, open, closed, cur, |succ(cur)|)
    ensures CostInv(succ, cost, key, start, g, parent, open, closed)
  {
    forall n | n in succ(cur)
      ensures n in g && g[n] <= g[cur] + cost(cur, n)
    {
      var i :| 0 <= i < |succ(cur)| && succ(cur)[i] == n;
    }
    assert Relaxed(succ, cost, g, cur);
  }

  /** The neighbour loop over the first `j` successors of `cur` keeps the cost invariant
      of the expansion. */
  lemma {:induction false} VisitAllKeepsCost<V(!new)>(succ: V -> seq<V>, cost: (V, V) -> real, key: V -> real,
                                                     start: V, g: map<V, real>, parent: map<V, V>,
                                                     open: seq<OpenEntry<V>>, closed: seq<V>, cur: V, j: nat)
    requires CostExpandInv(succ, cost, key, start, g, parent, open, closed, cur, 0)
    requires CostOk(cost) && j <= |succ(cur)|
    ensures var r := VisitAll(g, parent, open, cur, succ(cur)[..j], cost, key);
      CostExpandInv(succ, cost, key, start, r.0, r.1, r.2, closed, cur, j)
    decreases j
  {
    if j > 0 {
      VisitAllKeepsCost(succ, cost, key, start, g, parent, open, closed, cur, j - 1);
      VisitAllLast(g, parent, open, cur, succ(cur), j, cost, key);
      var r := VisitAll(g, parent, open, cur, succ(cur)[..j - 1], cost, key);
      var n := succ(cur)[j - 1];
      CostVisitKeeps(succ, cost, key, start, r.0, r.1, r.2, closed, cur, j - 1, cost(cur, n), key(n));
    } else {
      assert succ(cur)[..0] == [];
    }
  }

  // ---------------------------------------------------------------------------
  // What the cost invariant gives when the goal is popped
  // ---------------------------------------------------------------------------

  /** Cell `i` of the walk `w` has its current item in the heap, and its `g` is at most
      what the walk spends to reach it. */
  ghost predicate OnHeap<V>(cost: (V, V) -> real, key: V -> real, g: map<V, real>,
                            open: seq<OpenEntry<V>>, w: seq<V>, i: nat)
  {
    && i < |w| && w[i] in g
    && OpenEntry(g[w[i]] + key(w[i]), w[i]) in open
    && g[w[i]] <= PrefixCost(cost, w, i)
  }

  /** Along a walk from `start`, either some cell up to `i` is on the heap at no more than
      the walk's cost to it, or cell `i` is reached at no more than that cost. */
  lemma {:induction false} WalkMeetsHeap<V>(succ: V -> seq<V>, cost: (V, V) -> real, key: V -> real,
                                           start: V, g: map<V, real>, parent: map<V, V>,
                                           open: seq<OpenEntry<V>>, closed: seq<V>, w: seq<V>, i: nat)
    requires CostInv(succ, cost, key, start, g, parent, open, closed)
    requires SearchInvariant.IsWalk(succ, w) && |w| > 0 && w[0] == start && i < |w|
    ensures (exists i' :: 0 <= i' <= i && OnHeap(cost, key, g, open, w, i'))
         || (w[i] in g && g[w[i]] <= PrefixCost(cost, w, i))
    decreases i
  {
    if i > 0 {
      WalkMeetsHeap(succ, cost, key, start, g, parent, open, closed, w, i - 1);
      if !exists i' :: 0 <= i' <= i - 1 && OnHeap(cost, key, g, open, w, i') {
        var p := w[i - 1];
        assert Settled(succ, cost, key, g, open, closed, p);
        if OpenEntry(g[p] + key(p), p) in open {
          assert OnHeap(cost, key, g, open, w, i - 1);
        } else {
          assert w[i] in succ(p);
        }
      }
    }
  }

  /** When the goal is popped as a least item, its `g` plus its key is at most the cost
      plus key of some cell on any walk from `start` to the goal. */
  lemma PoppedGoalBound<V>(succ: V -> seq<V>, cost: (V, V) -> real, key: V -> real, start: V,
                           goal: V, g: map<V, real>, parent: map<V, V>, open: seq<OpenEntry<V>>,
                           closed: seq<V>, item: OpenEntry<V>, w: seq<V>)
    requires CostInv(succ, cost, key, start, g, parent, open, closed) && goal !in closed
    requires item in open && item.cell == goal
    requires forall e :: e in open ==> item.f <= e.f
    requires SearchInvariant.IsWalk(succ, w) && |w| > 0 && w[0] == start && w[|w| - 1] == goal
    ensures goal in g
    ensures exists i :: 0 <= i < |w| && g[goal] + key(goal) <= PrefixCost(cost, w, i) + key(w[i])
  {
    var last := |w| - 1;
    WalkMeetsHeap(succ, cost, key, start, g, parent, open, closed, w, last);
    if !exists i' :: 0 <= i' <= last && OnHeap(cost, key, g, open, w, i') {
      assert Settled(succ, cost, key, g, open, closed, goal);
      assert OnHeap(cost, key, g, open, w, last);
    }
    var i :| 0 <= i <= last && OnHeap(cost, key, g, open, w, i);
    assert item.f <= OpenEntry(g[w[i]] + key(w[i]), w[i]).f;
  }

  /** A parent chain from a reached cell back to `start` costs at most that cell's `g`. */
  lemma {:induction false} TraceCostBelow<V>(cost: (V, V) -> real, start: V, g: map<V, real>,
                                            parent: map<V, V>, cells: seq<V>)
    requires Grounded(start, g) && CostLinks(cost, start, g, parent)
    requires |cells| > 0 && cells[0] in g && cells[|cells| - 1] == start
    requires forall k :: 0 <= k < |cells| - 1 ==>
      cells[k] != start && cells[k] in parent && cells[k + 1] == parent[cells[k]]
    ensures TraceCost(cost, cells) <= g[cells[0]]
    decreases |cells|
  {
    if |cells| > 1 {
      var rest := cells[1..];
      assert cells[1] == parent[cells[0]];
      forall k | 0 <= k < |rest| - 1
        ensures rest[k] != start && rest[k] in parent && rest[k + 1] == parent[rest[k]]
      {
        assert rest[k] == cells[k + 1] && rest[k + 1] == cells[k + 2];
      }
      TraceCostBelow(cost, start, g, parent, rest);
    }
  }

  /** What the searches promise about cost: when the goal was popped, the traced path's
      cost plus the goal's key is at most the cost plus key of some cell on every walk
      from `start` to the goal. */
  ghost predicate CostBound<V(!new)>(succ: V -> seq<V>, cost: (V, V) -> real, key: V -> real,
                                     start: V, goal: V, r: SearchResult<V>)
  {
    goal in r.visited ==>
      forall w :: SearchInvariant.IsWalk(succ, w) && |w| > 0 && w[0] == start && w[|w| - 1] == goal ==>
        exists i :: 0 <= i < |w| && TraceCost(cost, r.path.cells) + key(goal) <= PrefixCost(cost, w, i) + key(w[i])
  }

  /** Popping the goal: the path `trace_path` gives satisfies the cost bound. */
  lemma FoundCost<V(!new)>(succ: V -> seq<V>, cost: (V, V) -> real, key: V -> real, start: V, goal: V,
                           g: map<V, real>, parent: map<V, V>, open: seq<OpenEntry<V>>, closed: seq<V>,
                           item: OpenEntry<V>, rest: seq<OpenEntry<V>>, path: Trace<V>)
    requires SearchInv(succ, start, goal, g, parent, open, closed)
    requires CostInv(succ, cost, key, start, g, parent, open, closed)
    requires multiset(rest) + multiset{item} == multiset(open) && item.cell == goal
    requires forall e :: e in open ==> item.f <= e.f
    requires TraceOk(parent, start, goal, path)
    ensures CostBound(succ, cost, key, start, goal, SearchResult(path, closed + [item.cell]))
  {
    FoundOutcome(succ, start, goal, g, parent, open, closed, item, rest, path);
    assert item in multiset(open);
    assert goal !in closed;
    TraceCostBelow(cost, start, g, parent, path.cells);
    forall w | SearchInvariant.IsWalk(succ, w) && |w| > 0 && w[0] == start && w[|w| - 1] == goal
      ensures exists i :: 0 <= i < |w| && TraceCost(cost, path.cells) + key(goal) <= PrefixCost(cost, w, i) + key(w[i])
    {
      PoppedGoalBound(succ, cost, key, start, goal, g, parent, open, closed, item, w);
    }
  }

  /** The heap running empty: the goal was never popped, so the bound holds vacuously. */
  lemma ExhaustedCost<V(!new)>(succ: V -> seq<V>, cost: (V, V) -> real, key: V -> real, start: V, goal: V,
                               g: map<V, real>, parent: map<V, V>, closed: seq<V>, path: Trace<V>)
    requires SearchInv(succ, start, goal, g, parent, [], closed)
    ensures goal !in closed
    ensures CostBound(succ, cost, key, start, goal, SearchResult(path, closed))
  {
  }

  // ---------------------------------------------------------------------------
  // The guarantees for Dijkstra and for weighted A*
  // ---------------------------------------------------------------------------

  /** The traced path costs no more than any walk from `start` to the goal. */
  ghost predicate Cheapest<V(!new)>(succ: V -> seq<V>, cost: (V, V) -> real, start: V, goal: V,
                                    r: SearchResult<V>)
  {
    goal in r.visited ==>
      forall w :: SearchInvariant.IsWalk(succ, w) && |w| > 0 && w[0] == start && w[|w| - 1] == goal ==>
        TraceCost(cost, r.path.cells) <= WalkCost(cost, w)
  }

  /** With priority `g` alone (a zero key), the cost bound says the path is a cheapest one. */
  lemma ZeroKeyCheapest<V(!new)>(succ: V -> seq<V>, cost: (V, V) -> real, key: V -> real,
                                 start: V, goal: V, r: SearchResult<V>)
    requires CostOk(cost) && forall v :: key(v) == 0.0
    requires CostBound(succ, cost, key, start, goal, r)
    ensures Cheapest(succ, cost, start, goal, r)
  {
    if goal in r.visited {
      forall w | SearchInvariant.IsWalk(succ, w) && |w| > 0 && w[0] == start && w[|w| - 1] == goal
        ensures TraceCost(cost, r.path.cells) <= WalkCost(cost, w)
      {
        var i :| 0 <= i < |w| && TraceCost(cost, r.path.cells) + key(goal) <= PrefixCost(cost, w, i) + key(w[i]);
        PrefixCostGrows(cost, w, i, |w| - 1);
      }
    }
  }

  /** `h` never overestimates: on every walk that ends at the goal, `h` of its first cell
      is between 0 and the walk's cost. */
  ghost predicate Admissible<V(!new)>(succ: V -> seq<V>, cost: (V, V) -> real, h: V -> real, goal: V) {
    forall w :: SearchInvariant.IsWalk(succ, w) && |w| > 0 && w[|w| - 1] == goal ==>
      0.0 <= h(w[0]) <= WalkCost(cost, w)
  }

  /** The traced path costs at most `factor` times any walk from `start` to the goal. */
  ghost predicate WithinFactor<V(!new)>(succ: V -> seq<V>, cost: (V, V) -> real, factor: real,
                                        start: V, goal: V, r: SearchResult<V>)
  {
    goal in r.visited ==>
      forall w :: SearchInvariant.IsWalk(succ, w) && |w| > 0 && w[0] == start && w[|w| - 1] == goal ==>
        TraceCost(cost, r.path.cells) <= factor * WalkCost(cost, w)
  }

  /** The larger of `e` and 1. */
  function Factor(e: real): (f: real)
    ensures f >= 1.0 && f >= e && (f == 1.0 || f == e)
  {
    if e < 1.0 then 1.0 else e
  }

  /** The arithmetic step of the weighted bound: `p` the walk's cost up to the meeting
      cell, `hm` the heuristic there (at most the rest of the walk, so `p + hm` is at most
      the walk's cost `total`), and `hg` the heuristic at the goal. */
  lemma WeightedStep(t: real, p: real, total: real, hm: real, hg: real, e: real)
    requires 0.0 <= p && 0.0 <= hm && p + hm <= total && hg == 0.0
    requires t + e * hg <= p + e * hm
    ensures t <= Factor(e) * total
  {
    var f := Factor(e);
    assert e * hm <= f * hm;
    assert f * (p + hm) <= f * total;
  }

  /** A suffix of a walk is a walk. */
  lemma SuffixWalk<V>(succ: V -> seq<V>, w: seq<V>, i: nat)
    requires SearchInvariant.IsWalk(succ, w) && i < |w|
    ensures SearchInvariant.IsWalk(succ, w[i..])
  {
    var tail := w[i..];
    forall k | 0 <= k < |tail| - 1
      ensures tail[k + 1] in succ(tail[k])
    {
      assert tail[k] == w[i + k] && tail[k + 1] == w[i + k + 1];
    }
  }

  /** An admissible heuristic is 0 at the goal: the one-cell walk costs nothing. */
  lemma AdmissibleAtGoal<V(!new)>(succ: V -> seq<V>, cost: (V, V) -> real, h: V -> real, goal: V)
    requires Admissible(succ, cost, h, goal)
    ensures h(goal) == 0.0
  {
    assert SearchInvariant.IsWalk(succ, [goal]);
    assert WalkCost(cost, [goal]) == 0.0;
  }

  /** On a walk to the goal, an admissible `h` at any cell is at most the cost of the
      rest of the walk. */
  lemma AdmissibleSuffix<V(!new)>(succ: V -> seq<V>, cost: (V, V) -> real, h: V -> real, goal: V,
                                  w: seq<V>, i: nat)
    requires Admissible(succ, cost, h, goal)
    requires SearchInvariant.IsWalk(succ, w) && i < |w| && w[|w| - 1] == goal
    ensures 0.0 <= h(w[i]) && PrefixCost(cost, w, i) + h(w[i]) <= WalkCost(cost, w)
  {
    var tail := w[i..];
    SuffixWalk(succ, w, i);
    assert tail[|tail| - 1] == goal && tail[0] == w[i];
    assert 0.0 <= h(w[i]) <= WalkCost(cost, tail);
    PrefixCostSplits(cost, w, i, |w| - 1);
  }

  /** One walk to the goal, met by the cost bound at cell `i`: with an admissible `h`, a
      path cost `t` meeting the bound is at most `max(e, 1)` times the walk's cost. */
  lemma WeightedWalk<V(!new)>(succ: V -> seq<V>, cost: (V, V) -> real, key: V -> real,
                              h: V -> real, e: real, goal: V, w: seq<V>, i: nat, t: real)
    requires CostOk(cost) && Admissible(succ, cost, h, goal)
    requires forall v :: key(v) == e * h(v)
    requires SearchInvariant.IsWalk(succ, w) && i < |w| && w[|w| - 1] == goal
    requires t + key(goal) <= PrefixCost(cost, w, i) + key(w[i])
    ensures t <= Factor(e) * WalkCost(cost, w)
  {
    AdmissibleAtGoal(succ, cost, h, goal);
    AdmissibleSuffix(succ, cost, h, goal, w, i);
    PrefixCostGrows(cost, w, i, i);
    assert key(goal) == e * h(goal) && key(w[i]) == e * h(w[i]);
    WeightedStep(t, PrefixCost(cost, w, i), WalkCost(cost, w), h(w[i]), h(goal), e);
  }

  /** With priority `g + e * h` for an admissible `h`, the cost bound says the path costs
      at most `max(e, 1)` times a cheapest one. */
  lemma WeightedWithinFactor<V(!new)>(succ: V -> seq<V>, cost: (V, V) -> real, key: V -> real,
                                      h: V -> real, e: real, start: V, goal: V, r: SearchResult<V>)
    requires CostOk(cost) && Admissible(succ, cost, h, goal)
    requires forall v :: key(v) == e * h(v)
    requires CostBound(succ, cost, key, start, goal, r)
    ensures WithinFactor(succ, cost, Factor(e), start, goal, r)
  {
    if goal in r.visited {
      var t := TraceCost(cost, r.path.cells);
      forall w | SearchInvariant.IsWalk(succ, w) && |w| > 0 && w[0] == start && w[|w| - 1] == goal
        ensures t <= Factor(e) * WalkCost(cost, w)
      {
        var i :| 0 <= i < |w| && t + key(goal) <= PrefixCost(cost, w, i) + key(w[i]);
        WeightedWalk(succ, cost, key, h, e, goal, w, i, t);
      }
    }
  }
}
